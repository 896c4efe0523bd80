/** The archive installer and the resource as they run: each method is one of
    the steps of ArchiveLifecycle (archive_extract.go, installArchive and
    installNew; archive_extract_resource.go, Create, Update and Delete). */
module ArchiveResource {
  import opened Text
  import opened ArchiveNames
  import opened ArchiveManifest
  import opened ArchiveWalker
  import opened ArchiveExtract
  import opened ArchiveMerge
  import opened ArchiveRemove
  import opened ArchiveLifecycle
  import opened FileTree

  /** What is configured: the archive's entries, the limits and overwrite. It is the `same`
      for an update if the archive, its files and the settings for them are what is stored,
      and nothing has drifted. */
  datatype Config = Config(rs: seq<RawEntry>, lim: Limits, overwrite: bool, same: bool)

  predicate ValidConfig(c: Config)
  {
    ValidLimits(c.lim) && forall r :: r in c.rs ==> r.size <= MAX_INT64 && Framed(r)
  }

  /** What the archive holds, if its entries are accepted. */
  ghost function Written(c: Config): Entries
  {
    if Records(c.rs, c.lim.strip).Some? then Records(c.rs, c.lim.strip).value.entries else map[]
  }

  /** The archive passes all checks, and the destination, if there is one, takes it. */
  ghost predicate Installable(c: Config, dest: Option<Tree>, owned: set<Name>)
  {
    Extractable(c.rs, c.lim) && (dest.Some? ==> Admits(dest.value, Merge(Written(c), owned, c.overwrite)))
  }

  method SortNames(es: Entries) returns (names: seq<Name>)
    requires Rooted(es)
    ensures SortedNames(names, es)
  {
    forall a, b | a in es.Keys && b in es.Keys && Render(a) == Render(b) ensures a == b {
      RenderIsInjective(a, b);
    }
    names := SortSet(es.Keys, Render);
  }

  datatype InstallResult = InstallResult(es: Entries, created: bool, placed: bool, failed: bool, existingDirs: set<Name>)

  /** existing_dirs after an update: narrowed to what the new archive has, unless it failed,
      and joined with the directories it found. */
  function NextExisting(before: set<Name>, res: InstallResult, owned: set<Name>): (r: set<Name>)
    ensures r == (if res.failed then before else before * res.es.Keys) + (res.existingDirs - owned)
  {
    (if res.failed then before else set d | d in before && d in res.es) + (set d | d in res.existingDirs && d !in owned)
  }

  const NOT_INSTALLED := InstallResult(map[], false, false, true, {})

  /** An installation that never got to a manifest. */
  const NO_INSTALL := Install(EMPTY, false, [], [], StopsExtracting)

  /** A host whose destination directory may be missing, and the state of one
      resource that extracts archives into it. */
  class Resource {
    const root: Root
    var there: bool
    var files: set<Listed>
    var existing: set<Name>
    var created: bool

    constructor (dest: Option<Tree>, weather: nat -> bool)
      requires Grounded(TreeIn(dest))
      ensures Dest() == dest && fresh(root) && Valid()
    {
      root := new Root(TreeIn(dest), weather);
      there := dest.Some?;
      files, existing, created := {}, {}, false;
    }

    ghost predicate Valid()
      reads this, root
    {
      Grounded(root.tree) && (!there ==> root.tree == map[]) && AllCanonical(files)
    }

    ghost function Dest(): Option<Tree>
      reads this, root
    {
      if there then Some(root.tree) else None
    }

    ghost function Abs(): Stored
      reads this, root
    {
      Stored(Dest(), files, existing, created)
    }

    /** What installArchive did, against what it should do. */
    ghost predicate DidInstall(before: Option<Tree>, owned: set<Name>, x: Install, res: InstallResult)
      reads this, root
    {
      && Rooted(x.m.entries)
      && SortedNames(x.names, x.m.entries)
      && (res.placed ==> res.es == x.m.entries)
      && match Installed(before, owned, x)
         case Nothing => !res.placed && res.failed && Dest() == before
         case All(t, ex, cr) => res.placed && !res.failed && Dest() == Some(t) && res.existingDirs == ex && res.created == cr
         case Part(t, ex) => res.placed && res.failed && Dest() == Some(t) && res.existingDirs == ex && !res.created
    }

    /** installNew: the whole tree appears at once, or not at all. */
    method InstallNew(es: Entries, tmp: Root) returns (ok: bool)
      requires !there && Grounded(tmp.tree) && tmp.tree == TreeOf(es) && tmp != root
      modifies this`there, root
      ensures ok ==> Dest() == Some(TreeOf(es))
      ensures !ok ==> Dest() == None && root.tree == old(root.tree) && root.weather(old(root.clock))
      ensures old(root.clock) <= root.clock
    {
      var fails := root.Tick();
      if fails {
        return false;
      }
      root.tree := tmp.tree;
      there := true;
      ok := true;
    }

    /** Nothing outside the model goes wrong. */
    ghost predicate Calm(tmpWeather: nat -> bool)
    {
      (forall i: nat :: !root.weather(i)) && (forall i: nat :: !tmpWeather(i))
    }

    /** installArchive into an existing destination, from the extracted tree. */
    method MergeInto(m: Manifest, names: seq<Name>, owned: set<Name>, overwrite: bool, tmp: Root)
        returns (res: InstallResult, ghost stop: Stop)
      requires Valid() && there && WellFormed(m) && SortedNames(names, m.entries)
      requires tmp != root && tmp.tree == TreeOf(m.entries)
      modifies root, tmp
      ensures DidInstall(old(Dest()), owned, Install(m, overwrite, names, [], stop), res)
      ensures !stop.StopsRemoving?
      ensures stop.Completes? || exists i :: root.weather(i)
      ensures res.placed ==> (res.failed <==> stop.StopsMerging?)
      ensures there && (!res.placed ==> root.tree == old(root.tree))
    {
      hide WellFormed, SortedNames, Stopped, TreeOf, Conflict, PlanFor;
      ghost var d := root.tree;
      WellFormedIsRooted(m);
      var g := Merge(m.entries, owned, overwrite);
      var plan := PlanMerge(root, g, names);
      if plan.None? {
        stop := if Conflict(d, g) then Completes else StopsExtracting;
        return NOT_INSTALLED, stop;
      }
      PlanIsUnique(d, g, plan.value);
      var ex := set n | n in plan.value && plan.value[n].ExistingDir?;
      var st, i, half := ApplyMerge(root, tmp, g, plan.value, names);
      stop := if st == Done then Completes else StopsMerging(i, half);
      res := InstallResult(m.entries, false, true, st != Done, ex);
    }

    /** installArchive: whatever goes wrong, what it did is one of the outcomes
        of Installed; and if nothing does, an archive that passes the checks is
        installed unless it conflicts. */
    method InstallArchive(c: Config, owned: set<Name>, tmpWeather: nat -> bool)
        returns (res: InstallResult, ghost x: Install)
      requires Valid() && ValidConfig(c)
      modifies this`there, root
      ensures WellFormed(x.m) && x.overwrite == c.overwrite && x.order == [] && !x.stop.StopsRemoving?
      ensures Valid() && DidInstall(old(Dest()), owned, x, res)
      ensures res.placed && res.failed ==> x.stop.StopsMerging?
      ensures !res.failed ==> res.placed && x.stop.Completes?
      ensures !x.stop.StopsExtracting? ==> Records(c.rs, c.lim.strip) == Some(x.m) && Extractable(c.rs, c.lim)
      ensures Calm(tmpWeather) && Extractable(c.rs, c.lim) ==> x.stop.Completes?
    {
      var tmp := new Root(map[], tmpWeather);
      var m := ExtractToDir(c.rs, c.lim, tmp);
      if m.None? {
        return NOT_INSTALLED, NO_INSTALL.(overwrite := c.overwrite);
      }
      var names := SortNames(m.value.entries);
      ghost var stop: Stop;
      if there {
        res, stop := MergeInto(m.value, names, owned, c.overwrite, tmp);
      } else {
        TreeOfIsGrounded(m.value);
        var ok := InstallNew(m.value.entries, tmp);
        stop := if ok then Completes else StopsMerging(0, false);
        res := InstallResult(m.value.entries, ok, ok, !ok, {});
      }
      x := Install(m.value, c.overwrite, names, [], stop);
      InstalledIsGrounded(old(Dest()), owned, x);
    }

    /** Create: records the resource if anything may have been placed. */
    method Create(c: Config, tmpWeather: nat -> bool) returns (recorded: bool, failed: bool, ghost x: Install)
      requires Valid() && ValidConfig(c) && files == {} && existing == {} && !created
      modifies this, root
      ensures ValidCreate(x) && x.overwrite == c.overwrite
      ensures recorded ==> Valid() && there && Created(old(Dest()), x) == Some(Abs())
      ensures !recorded ==> Created(old(Dest()), x) == None && Dest() == old(Dest())
      ensures !failed ==> Extractable(c.rs, c.lim) && Records(c.rs, c.lim.strip) == Some(x.m)
      ensures failed <==> !(recorded && x.stop.Completes?)
      ensures Calm(tmpWeather) && Extractable(c.rs, c.lim) ==> x.stop.Completes?
      ensures Calm(tmpWeather) ==> (!failed <==> Installable(c, old(Dest()), {}))
      ensures Calm(tmpWeather) && !failed ==> recorded
      ensures Calm(tmpWeather) && failed ==> !recorded && Dest() == old(Dest())
      ensures Calm(tmpWeather) && !failed ==>
                Abs() == Stored(Some(TreeIn(old(Dest())) + TreeOf(Written(c))), FileList(Written(c)),
                                SharedDirs(TreeIn(old(Dest())), Written(c)), old(Dest()).None?)
    {
      hide WellFormed, SortedNames, SortedListing, Extractable, Records, Installed;
      assert NamesOf({}) == {};
      ghost var before := Dest();
      var res;
      res, x := InstallArchive(c, {}, tmpWeather);
      WellFormedIsRooted(x.m);
      CompletedIs(before, {}, x);
      recorded, failed := res.placed, res.failed;
      if res.placed {
        files := FileList(res.es);
        existing := res.existingDirs;
        created := res.created;
        FileListIsCanonical(res.es);
      }
    }

    /** Update: extracts again unless nothing has changed, then removes what the new archive
        no longer has, and stores what that leaves. */
    method Update(c: Config, tmpWeather: nat -> bool) returns (failed: bool, ghost x: Install)
      requires Valid() && ValidConfig(c)
      modifies this, root
      ensures Valid() && x.overwrite == c.overwrite && (old(there) ==> there)
      ensures ValidInstall(old(Abs()), x) && Abs() == Updated(old(Abs()), x)
      ensures c.same ==> !failed && Abs() == old(Abs()) && root.clock == old(root.clock)
      ensures !failed && !c.same ==>
                x.stop.Completes? && Extractable(c.rs, c.lim) && Records(c.rs, c.lim.strip) == Some(x.m)
      ensures Calm(tmpWeather) ==> !x.stop.StopsRemoving?
      ensures Calm(tmpWeather) && Extractable(c.rs, c.lim) && !c.same ==> x.stop.Completes?
      ensures Calm(tmpWeather) && !c.same ==> (!failed <==> Installable(c, old(Dest()), NamesOf(old(files))))
      ensures Calm(tmpWeather) && failed ==> Abs() == old(Abs())
      ensures Calm(tmpWeather) && !c.same && !failed ==>
                var stale := StaleRemoval(old(Abs()), Written(c));
                && Dest() == Some(Remaining(TreeIn(old(Dest())) + TreeOf(Written(c)), stale))
                && files == FileList(Written(c))
    {
      hide WellFormed, SortedNames, SortedListing, RemoveDown, Extractable, Records, Installed, Contains, FileList,
        WithoutNames, Stale, Updated, ValidInstall, NamesOf, NextExisting;
      ghost var s := Abs();
      if c.same {
        failed, x := false, NO_INSTALL.(overwrite := c.overwrite);
        NothingInstalled(s, x);
        return;
      }
      var owned := NamesOf(files);
      var oldFiles, oldExisting := files, existing;
      var res;
      res, x := InstallArchive(c, owned, tmpWeather);
      UpdatedWith(s, x);
      CompletedIs(s.dest, owned, x);
      failed := res.failed;
      if !res.placed {
        return;
      }
      FileListIsCanonical(res.es);
      existing := NextExisting(oldExisting, res, owned);
      if res.failed {
        files := oldFiles + FileList(res.es);
        return;
      }
      ghost var order, k;
      failed, order, k := RemoveStale(res.es, oldFiles, oldExisting);
      ghost var stop := if failed then StopsRemoving(k) else Completes;
      SameInstall(s.dest, owned, x, order, stop);
      x := x.(order := order, stop := stop);
      UpdatedWith(s, x);
      if x.stop.Completes? {
        UpdatedIs(s, x);
      }
    }

    /** The end of Update: removes the entries of the previous extraction that the new
        archive does not have, and stores what there is then. */
    method RemoveStale(es: Entries, oldFiles: set<Listed>, oldExisting: set<Name>)
        returns (failed: bool, ghost order: seq<Listed>, ghost k: nat)
      requires Valid() && there && AllCanonical(oldFiles) && Rooted(es)
      modifies this`files, root
      ensures Valid()
      ensures SortedListing(order, WithoutNames(Stale(oldFiles, es), oldExisting)) && k <= |order|
      ensures root.tree == RemoveDown(old(root.tree), order, if failed then k else 0)
      ensures files == if failed then oldFiles + FileList(es) else FileList(es)
      ensures failed ==> exists i :: root.weather(i)
    {
      hide SortedListing, RemoveDown, Rooted;
      ghost var merged := root.tree;
      var st;
      st, order, k := RemoveExtracted(root, WithoutNames(Stale(oldFiles, es), oldExisting));
      RemoveDownKeepsGrounded(merged, order, k);
      FileListIsCanonical(es);
      failed := st == Fault;
      files := if failed then oldFiles + FileList(es) else FileList(es);
    }

    /** Delete: removes what was extracted and, if the resource created it and
        it is empty, the destination. */
    method Delete() returns (done: bool, ghost order: seq<Listed>, ghost k: nat)
      requires Valid() && there
      modifies this`there, root
      ensures ValidDelete(old(Abs()), order) && k <= |order|
      ensures done ==> Dest() == Deleted(old(Abs()), order)
      ensures !done ==> Valid() && (Abs() == HalfDeleted(old(Abs()), order, k))
      ensures !done ==> exists i :: root.weather(i)
    {
      ghost var was := root.tree;
      var st;
      st, order, k := RemoveExtracted(root, WithoutNames(files, existing));
      RemoveDownKeepsGrounded(was, order, k);
      if st == Fault {
        return false, order, k;
      }
      if !created {
        return true, order, k;
      }
      var fails := root.Tick();
      if fails {
        return false, order, k;
      }
      if root.tree == map[] {
        there := false;
      }
      done := true;
    }

    /** A whole life: Create, updates, Delete, none of which may overwrite, each of which
        may fail anywhere. It is one of the runs of the lifecycle: once Delete is done, the
        destination is what it was if and only if no update forgot a directory; and if
        nothing goes wrong outside the model, none does and Delete is done. */
    method Live(c: Config, cs: seq<Config>, tmpWeather: nat -> bool)
        returns (done: bool, ghost first: Install, ghost steps: seq<Step>)
      requires Valid() && files == {} && existing == {} && !created
      requires ValidConfig(c) && !c.overwrite && forall x :: x in cs ==> ValidConfig(x) && !x.overwrite
      modifies this, root
      ensures ValidCreate(first) && !first.overwrite
      ensures Created(old(Dest()), first).None? ==> done && Dest() == old(Dest())
      ensures Created(old(Dest()), first).Some? ==>
                var s := Created(old(Dest()), first).value;
                && |steps| == |cs| && ValidRun(s, steps)
                && (done ==> (Dest() == old(Dest()) <==> NeverForgets(TreeIn(old(Dest())), s, steps)))
      ensures Calm(tmpWeather) ==> done && Dest() == old(Dest())
    {
      hide ValidInstall, Good, Forgets, Updated, Created, Deleted, ValidCreate, ValidDelete, Extractable, Records;
      ghost var orig := Dest();
      steps := [];
      var recorded, _, x0 := Create(c, tmpWeather);
      first := x0;
      if !recorded {
        return true, x0, [];
      }
      ghost var s0 := Abs();
      for i := 0 to |cs|
        invariant Valid() && there && |steps| == i
        invariant ValidRun(s0, steps) && Abs() == Run(s0, steps)
        invariant forall step :: step in steps ==> !MayOverwrite(step)
        invariant Calm(tmpWeather) ==> NeverForgets(TreeIn(orig), s0, steps)
      {
        ghost var s := Abs();
        var _, x := Update(cs[i], tmpWeather);
        CalmNeverForgets(TreeIn(orig), s, x);
        RunPush(TreeIn(orig), s0, steps, Step.Update(x));
        steps := steps + [Step.Update(x)];
      }
      ghost var order, k;
      done, order, k := Delete();
      if done {
        WholeRunRestores(orig, x0, steps, order);
      }
    }
  }

  /** What an installation does that nothing stops. */
  lemma CompletedIs(dest: Option<Tree>, owned: set<Name>, x: Install)
    requires Grounded(TreeIn(dest)) && Rooted(x.m.entries)
    ensures x.stop.StopsExtracting? ==> Installed(dest, owned, x) == Nothing
    ensures x.stop.Completes? ==> var es, d := x.m.entries, TreeIn(dest);
      Installed(dest, owned, x)
      == if dest.Some? && !Admits(d, Merge(es, owned, x.overwrite)) then Nothing
         else All(d + TreeOf(es), SharedDirs(d, es), dest.None?)
  {
    if x.stop.Completes? {
      InstalledIs(dest, owned, x);
    }
  }

  /** What an update leaves that nothing stops. */
  lemma UpdatedIs(s: Stored, x: Install)
    requires ValidInstall(s, x) && x.stop.Completes? && Grounded(TreeIn(s.dest)) && AllCanonical(s.files)
    ensures var es, d := x.m.entries, TreeIn(s.dest);
      if s.dest.Some? && !Admits(d, Merge(es, NamesOf(s.files), x.overwrite)) then Updated(s, x) == s
      else && Updated(s, x).dest == Some(Remaining(d + TreeOf(es), StaleRemoval(s, es)))
           && Updated(s, x).files == FileList(es)
  {
    hide WellFormed, SortedNames, Grounded, RemoveDown, Admits, Remaining, Installed, Conflict;
    WellFormedIsRooted(x.m);
    CompletedIs(s.dest, NamesOf(s.files), x);
    InstalledIsGrounded(s.dest, NamesOf(s.files), x);
    if Installed(s.dest, NamesOf(s.files), x).All? {
      RemovedIs(TreeIn(s.dest) + TreeOf(x.m.entries), StaleRemoval(s, x.m.entries), x.order);
    }
  }

  /** What Update leaves, by what its installation did. */
  lemma UpdatedWith(s: Stored, x: Install)
    requires WellFormed(x.m) && SortedNames(x.names, x.m.entries)
    ensures Rooted(x.m.entries)
    ensures var es, owned := x.m.entries, NamesOf(s.files);
      match Installed(s.dest, owned, x)
      case Nothing => ValidInstall(s, x) && Updated(s, x) == s
      case Part(t, ex) =>
        ValidInstall(s, x) && Updated(s, x) == Stored(Some(t), s.files + FileList(es), s.existing + (ex - owned), s.created)
      case All(t, ex, _) =>
        var fails := x.stop.StopsRemoving? && x.stop.k <= |x.order|;
        && (ValidInstall(s, x) <==> SortedListing(x.order, StaleRemoval(s, es)))
        && Updated(s, x)
           == Stored(Some(RemoveDown(t, x.order, if fails then x.stop.k else 0)),
                     if fails then s.files + FileList(es) else FileList(es), s.existing * es.Keys + (ex - owned), s.created)
  {
    WellFormedIsRooted(x.m);
    hide WellFormed, SortedNames, SortedListing, RemoveDown, Installed, Rooted, NamesOf, FileList, StaleRemoval;
  }

  lemma NothingInstalled(s: Stored, x: Install)
    requires x == NO_INSTALL.(overwrite := x.overwrite)
    ensures ValidInstall(s, x) && Updated(s, x) == s
  {}

  /** What is placed does not depend on how the removal of stale files goes. */
  lemma SameInstall(dest: Option<Tree>, owned: set<Name>, x: Install, order: seq<Listed>, stop: Stop)
    requires Rooted(x.m.entries) && x.stop.Completes? && (stop.Completes? || stop.StopsRemoving?)
    ensures Installed(dest, owned, x.(order := order, stop := stop)) == Installed(dest, owned, x)
  {}

  ghost predicate GroundedAfter(p: Placing)
  {
    match p
    case Nothing => true
    case All(t, _, _) => Grounded(t)
    case Part(t, _) => Grounded(t)
  }

  lemma PlanIsUnique(d: Tree, g: Merge, plan: Plan)
    requires Rooted(g.es) && IsPlan(d, g, plan)
    ensures !Conflict(d, g) && plan == PlanFor(d, g)
  {}

  /** Whatever an installation leaves is a proper tree. */
  lemma InstalledIsGrounded(dest: Option<Tree>, owned: set<Name>, x: Install)
    requires Grounded(TreeIn(dest)) && WellFormed(x.m) && SortedNames(x.names, x.m.entries)
    ensures GroundedAfter(Installed(dest, owned, x))
  {
    hide WellFormed, SortedNames;
    var g := Merge(x.m.entries, owned, x.overwrite);
    WellFormedIsRooted(x.m);
    if dest.None? {
      TreeOfIsGrounded(x.m);
    } else if !Installed(dest, owned, x).Nothing? {
      PlanForIsPlan(dest.value, g);
      var plan := PlanFor(dest.value, g);
      if x.stop.StopsMerging? && x.stop.i <= |x.names| {
        StoppedIsGrounded(dest.value, g, plan, x.names, x.stop.i, x.stop.half);
      } else {
        assert x.names[..|x.names|] == x.names;
        MergeIsOverlay(dest.value, g, plan, x.names);
        StoppedIsGrounded(dest.value, g, plan, x.names, |x.names|, false);
      }
    }
  }

  lemma WellFormedIsRooted(m: Manifest)
    requires WellFormed(m)
    ensures Rooted(m.entries)
  {}
}
