/** The life of an archive_extract resource (archive_extract_resource.go,
    Create, Update and Delete) as steps on the destination and on the two lists
    carried from step to step: the `files` attribute and the private
    `existing_dirs`. */
module ArchiveLifecycle {
  import opened Text
  import opened ArchiveNames
  import opened ArchiveManifest
  import opened ArchiveExtract
  import opened ArchiveMerge
  import opened ArchiveRemove
  import opened FileTree

  /** The destination, if it exists, and what is stored about it. `files` is
      kept sorted and without duplicates, so a set says it all. */
  datatype Stored = Stored(dest: Option<Tree>, files: set<Listed>, existing: set<Name>, created: bool)

  function TreeIn(dest: Option<Tree>): Tree { if dest.Some? then dest.value else map[] }

  /** fileList: the manifest as the files attribute stores it. */
  function FileList(es: Entries): set<Listed>
  {
    set n | n in es :: Listed(n, es[n].DirEntry?)
  }

  /** manifestNamesFrom. */
  function NamesOf(files: set<Listed>): set<Name>
  {
    set l | l in files :: l.name
  }

  /** withoutNames. */
  function WithoutNames(files: set<Listed>, skip: set<Name>): set<Listed>
  {
    set l | l in files && l.name !in skip
  }

  /** staleEntries. */
  function Stale(files: set<Listed>, es: Entries): set<Listed>
  {
    set l | l in files && l.name !in es
  }

  // ------------------------------------------------------------------------ steps

  /** How far an installation gets before the file system fails. */
  datatype Stop = Completes | StopsExtracting | StopsMerging(i: nat, half: bool) | StopsRemoving(k: nat)

  /** One Create or Update: the archive, its names in order, the stale entries
      in order, and how far it gets. */
  datatype Install = Install(m: Manifest, overwrite: bool, names: seq<Name>, order: seq<Listed>, stop: Stop)

  /** installResult: nothing was placed, all of it, or part of it. */
  datatype Placing = Nothing | All(dest: Tree, existingDirs: set<Name>, created: bool) | Part(dest: Tree, existingDirs: set<Name>)

  ghost function PlanFor(d: Tree, g: Merge): Plan
    requires Rooted(g.es) && !Conflict(d, g)
  {
    assert forall n :: n in g.es ==> n != [] by { assert !Canonical([]); }
    map n | n in g.es :: Planned(d, g, n).value
  }

  ghost function ExistingDirs(plan: Plan): set<Name>
  {
    set n | n in plan && plan[n].ExistingDir?
  }

  /** installArchive. */
  ghost function Installed(dest: Option<Tree>, owned: set<Name>, x: Install): Placing
    requires Rooted(x.m.entries)
  {
    var g := Merge(x.m.entries, owned, x.overwrite);
    if x.stop.StopsExtracting? then Nothing
    else if dest.None? then
      if x.stop.StopsMerging? then Nothing else All(TreeOf(x.m.entries), {}, true)
    else if Conflict(dest.value, g) then Nothing
    else
      var plan := PlanFor(dest.value, g);
      if x.stop.StopsMerging? && x.stop.i <= |x.names| then
        Part(Stopped(dest.value, g, plan, x.names, x.stop.i, x.stop.half), ExistingDirs(plan))
      else All(dest.value + TreeOf(x.m.entries), ExistingDirs(plan), false)
  }

  /** The archive's directories that are there already. */
  ghost function SharedDirs(d: Tree, es: Entries): set<Name>
  {
    set n | n in es && n in d && d[n].Directory?
  }

  lemma ExistingDirsAre(d: Tree, g: Merge)
    requires Mergeable(d, g) && !Conflict(d, g)
    ensures ExistingDirs(PlanFor(d, g)) == SharedDirs(d, g.es)
  {
    hide Rooted, Grounded;
    forall n | n in g.es
      ensures n != [] && (Planned(d, g, n).value.ExistingDir? <==> n in d && d[n].Directory?)
    {
      RootedIsSome(g.es, n);
      if n in d {
        ParentIsDir(d, n);
      }
    }
  }

  /** An installation that nothing stops places everything if the destination is missing or
      takes the archive, and nothing otherwise. */
  lemma InstalledIs(dest: Option<Tree>, owned: set<Name>, x: Install)
    requires Grounded(TreeIn(dest)) && Rooted(x.m.entries) && (x.stop.Completes? || x.stop.StopsRemoving?)
    ensures var es, d := x.m.entries, TreeIn(dest);
      Installed(dest, owned, x)
      == if dest.Some? && !Admits(d, Merge(es, owned, x.overwrite)) then Nothing
         else All(d + TreeOf(es), SharedDirs(d, es), dest.None?)
  {
    hide Rooted, Grounded, Planned, Conflict, TreeOf, PlanFor, ExistingDirs;
    var g := Merge(x.m.entries, owned, x.overwrite);
    if dest.Some? {
      ConflictIs(dest.value, g);
      if Admits(dest.value, g) {
        ExistingDirsAre(dest.value, g);
      }
    } else {
      assert map[] + TreeOf(x.m.entries) == TreeOf(x.m.entries);
    }
  }

  /** Create. Nothing is recorded unless something may have been placed. */
  ghost function Created(dest: Option<Tree>, x: Install): Option<Stored>
    requires Rooted(x.m.entries)
  {
    match Installed(dest, {}, x)
    case Nothing => None
    case All(t, ex, created) => Some(Stored(Some(t), FileList(x.m.entries), ex, created))
    case Part(t, ex) => Some(Stored(Some(t), FileList(x.m.entries), ex, false))
  }

  /** Update: the same, then the stale entries of the previous extraction go. */
  ghost function Updated(s: Stored, x: Install): Stored
    requires Rooted(x.m.entries)
  {
    var es, owned := x.m.entries, NamesOf(s.files);
    match Installed(s.dest, owned, x)
    case Nothing => s
    case Part(t, ex) =>
      Stored(Some(t), s.files + FileList(es), s.existing + (ex - owned), s.created)
    case All(t, ex, _) =>
      var existing := s.existing * es.Keys + (ex - owned);
      if x.stop.StopsRemoving? && x.stop.k <= |x.order| then
        Stored(Some(RemoveDown(t, x.order, x.stop.k)), s.files + FileList(es), existing, s.created)
      else
        Stored(Some(RemoveDown(t, x.order, 0)), FileList(es), existing, s.created)
  }

  /** What removeExtracted is asked to remove after an update. */
  function StaleRemoval(s: Stored, es: Entries): set<Listed>
  {
    WithoutNames(Stale(s.files, es), s.existing)
  }

  ghost predicate ValidInstall(s: Stored, x: Install)
  {
    && WellFormed(x.m)
    && SortedNames(x.names, x.m.entries)
    && (Installed(s.dest, NamesOf(s.files), x).All? ==> SortedListing(x.order, StaleRemoval(s, x.m.entries)))
  }

  /** A Delete that stops at index `k` keeps what is stored. */
  ghost function HalfDeleted(s: Stored, order: seq<Listed>, k: nat): Stored
    requires k <= |order|
  {
    if s.dest.None? then s else s.(dest := Some(RemoveDown(s.dest.value, order, k)))
  }

  /** A Delete that completes: the destination is removed if the resource
      created it and it is empty. */
  ghost function Deleted(s: Stored, order: seq<Listed>): Option<Tree>
  {
    if s.dest.None? then None
    else
      var t := RemoveDown(s.dest.value, order, 0);
      if s.created && t == map[] then None else Some(t)
  }

  ghost predicate ValidDelete(s: Stored, order: seq<Listed>)
  {
    SortedListing(order, WithoutNames(s.files, s.existing))
  }

  // ------------------------------------------------------------------ the invariant

  /** What holds after every step of a resource whose destination was `orig`:
      what was there is still there, everything else is listed as what it is,
      a listed name that was there is a directory, and it is recorded as an
      existing one unless something in it was there as well. */
  ghost predicate Good(orig: Option<Tree>, s: Stored)
  {
    var o := TreeIn(orig);
    && s.dest.Some? && Grounded(s.dest.value)
    && (s.created <==> orig.None?)
    && Contains(s.dest.value, o)
    && AllListed(o, s.dest.value, s.files)
    && AllCanonical(s.files)
    && OnlyDirsShared(o, s.files, s.existing)
    && ExistingWereThere(o, s.files, s.existing)
  }

  ghost predicate AllListed(o: Tree, t: Tree, files: set<Listed>)
  {
    forall p :: p in t && p !in o ==> Listed(p, t[p].Directory?) in files
  }

  ghost predicate OnlyDirsShared(o: Tree, files: set<Listed>, existing: set<Name>)
  {
    forall l :: l in files && l.name in o ==>
                  o[l.name].Directory? && (l.name in existing || !IsEmptyDir(o, l.name))
  }

  ghost predicate ExistingWereThere(o: Tree, files: set<Listed>, existing: set<Name>)
  {
    forall d :: d in existing ==> d in o && o[d].Directory? && Listed(d, true) in files
  }

  // ---------------------------------------------------------------- Delete restores

  /** What removeExtracted is given spares what was there before. */
  lemma RemovalSpares(o: Tree, s: Stored, order: seq<Listed>)
    requires OnlyDirsShared(o, s.files, s.existing)
    requires forall l :: l in order ==> l in s.files && l.name !in s.existing
    ensures Spares(o, order)
  {}

  lemma NewIsListedBelow(o: Tree, t: Tree, s: Stored, order: seq<Listed>, p: Name)
    requires Grounded(o) && Grounded(t) && AllListed(o, t, s.files) && AllCanonical(s.files)
    requires ExistingWereThere(o, s.files, s.existing)
    requires SortedListing(order, WithoutNames(s.files, s.existing))
    requires p in t && p !in o
    ensures ListedBelow(t, order, p)
  {
    forall q | q in t && p <= q ensures q != [] && Canonical(q) && Listed(q, t[q].Directory?) in order {
      AboveIsDir(o, p, q);
      assert Listed(q, t[q].Directory?) in s.files;
    }
  }

  /** Destroy gives back exactly the original destination. */
  lemma DeleteRestores(orig: Option<Tree>, s: Stored, order: seq<Listed>)
    requires Grounded(TreeIn(orig)) && Good(orig, s) && ValidDelete(s, order)
    ensures Deleted(s, order) == orig
  {
    var o, t := TreeIn(orig), s.dest.value;
    var u := RemoveDown(t, order, 0);
    RemovalSpares(o, s, order);
    RemoveDownSpares(o, t, order, 0);
    forall p | p in u ensures p in o && u[p] == o[p] {
      RemoveDownShrinks(t, order, 0, p);
      if p !in o {
        NewIsListedBelow(o, t, s, order, p);
        RemovedIfListed(t, order, p);
      }
    }
    assert u == o;
  }

  lemma HalfDeleteKeepsGood(orig: Option<Tree>, s: Stored, order: seq<Listed>, k: nat)
    requires Good(orig, s) && ValidDelete(s, order) && k <= |order|
    ensures Good(orig, HalfDeleted(s, order, k))
  {
    var o, t := TreeIn(orig), s.dest.value;
    RemovalSpares(o, s, order);
    RemoveDownSpares(o, t, order, k);
    RemoveDownKeepsGrounded(t, order, k);
    forall p | p in RemoveDown(t, order, k) ensures p in t && RemoveDown(t, order, k)[p] == t[p] {
      RemoveDownShrinks(t, order, k, p);
    }
  }

  // ------------------------------------------------------------- installing keeps it

  /** What an installation finds: a good resource, or for Create an empty one. */
  ghost predicate Before(o: Tree, t: Tree, files: set<Listed>, existing: set<Name>)
  {
    && Grounded(o) && Grounded(t)
    && Contains(t, o)
    && AllListed(o, t, files)
    && OnlyDirsShared(o, files, existing)
    && ExistingWereThere(o, files, existing)
  }

  /** A merge that may not overwrite, planned on what `Before` describes. */
  ghost predicate Planning(t: Tree, files: set<Listed>, g: Merge, plan: Plan)
  {
    && Mergeable(t, g) && IsPlan(t, g, plan)
    && g.owned == NamesOf(files) && !g.overwrite
  }

  /** Nothing that was there originally is moved over. */
  lemma CoveredIsNew(o: Tree, t: Tree, files: set<Listed>, existing: set<Name>, g: Merge, plan: Plan, p: Name)
    requires Before(o, t, files, existing) && Planning(t, files, g, plan)
    requires Under(AllMoved(plan), p)
    ensures p !in o
  {
    var q :| q in AllMoved(plan) && q <= p;
    assert Planned(t, g, q) == Some(plan[q]);
    MovedIsNew(o, t, files, existing, g, plan, q);
    assert q != [] by { assert q in g.es; }
    AboveIsDir(o, q, p);
  }

  lemma MovedIsNew(o: Tree, t: Tree, files: set<Listed>, existing: set<Name>, g: Merge, plan: Plan, q: Name)
    requires Contains(t, o) && OnlyDirsShared(o, files, existing)
    requires IsPlan(t, g, plan) && g.owned == NamesOf(files) && !g.overwrite
    requires q in AllMoved(plan)
    ensures q !in o
  {}

  lemma OwnedIsListed(files: set<Listed>, n: Name)
    ensures n in NamesOf(files) <==> exists l :: l in files && l.name == n
  {}

  /** Wherever the merge stops, what was there originally is untouched and what
      is new is listed, in the old list or in the new one. */
  lemma PartKeeps(o: Tree, t: Tree, files: set<Listed>, existing: set<Name>, g: Merge, plan: Plan,
                  names: seq<Name>, i: nat, half: bool)
    requires Before(o, t, files, existing) && Planning(t, files, g, plan)
    requires SortedNames(names, g.es) && i <= |names|
    ensures var u := Stopped(t, g, plan, names, i, half);
            Grounded(u) && Contains(u, o) && AllListed(o, u, files + FileList(g.es))
  {
    hide Planning, Stopped, Grounded, SortedNames;
    var u := Stopped(t, g, plan, names, i, half);
    PlanningIsMergeable(t, files, g, plan);
    StoppedIsGrounded(t, g, plan, names, i, half);
    forall p | p in o ensures p in u && u[p] == o[p] {
      if Under(AllMoved(plan), p) {
        CoveredIsNew(o, t, files, existing, g, plan, p);
      }
      StoppedShows(t, g, plan, names, i, half, p);
    }
    forall p | p in u && p !in o ensures Listed(p, u[p].Directory?) in files + FileList(g.es) {
      StoppedShows(t, g, plan, names, i, half, p);
      if p in g.es && u[p] == TreeOf(g.es)[p] {
        ShownAsListed(g.es, p);
      }
    }
  }

  lemma PlanningIsMergeable(t: Tree, files: set<Listed>, g: Merge, plan: Plan)
    requires Planning(t, files, g, plan)
    ensures Mergeable(t, g) && IsPlan(t, g, plan)
  {}

  lemma ShownAsListed(es: Entries, p: Name)
    requires p in es
    ensures Listed(p, TreeOf(es)[p].Directory?) in FileList(es)
  {}

  /** A listed path that was there originally is a directory that the archive is
      merged into, and it counts as an existing one unless it holds something
      that stays. */
  lemma SharedIsMerged(o: Tree, t: Tree, files: set<Listed>, existing: set<Name>, g: Merge, plan: Plan, p: Name)
    requires Before(o, t, files, existing) && Planning(t, files, g, plan)
    requires p in g.es && p in o
    ensures o[p].Directory? && g.es[p].DirEntry?
    ensures p in plan && plan[p].ExistingDir?
    ensures p in existing || p in ExistingDirs(plan) - g.owned || !IsEmptyDir(o, p)
  {}

  /** A directory that is found and not listed was there originally. */
  lemma FoundWasThere(o: Tree, t: Tree, files: set<Listed>, existing: set<Name>, g: Merge, plan: Plan, d: Name)
    requires Before(o, t, files, existing) && Planning(t, files, g, plan)
    requires d in ExistingDirs(plan) - g.owned
    ensures d in o && o[d].Directory? && Listed(d, true) in FileList(g.es)
  {}

  /** The two lists after a merge that was placed in full or in part, while the
      old files may still be there. */
  lemma JoinedListsKeep(o: Tree, t: Tree, files: set<Listed>, existing: set<Name>, g: Merge, plan: Plan, kept: set<Name>)
    requires Before(o, t, files, existing) && Planning(t, files, g, plan)
    requires existing * g.es.Keys <= kept <= existing
    requires forall d :: d in existing && d !in kept ==> !IsEmptyDir(o, d)
    ensures OnlyDirsShared(o, files + FileList(g.es), kept + (ExistingDirs(plan) - g.owned))
    ensures ExistingWereThere(o, files + FileList(g.es), kept + (ExistingDirs(plan) - g.owned))
  {
    hide Before, Planning, ExistingDirs, IsEmptyDir;
    var existing' := kept + (ExistingDirs(plan) - g.owned);
    BeforeMeans(o, t, files, existing);
    forall l | l in files + FileList(g.es) && l.name in o
      ensures o[l.name].Directory? && (l.name in existing' || !IsEmptyDir(o, l.name)) {
      if l in FileList(g.es) {
        SharedIsMerged(o, t, files, existing, g, plan, l.name);
      }
    }
    forall d | d in existing' ensures d in o && o[d].Directory? && Listed(d, true) in files + FileList(g.es) {
      if d !in kept {
        FoundWasThere(o, t, files, existing, g, plan, d);
      }
    }
  }

  lemma BeforeMeans(o: Tree, t: Tree, files: set<Listed>, existing: set<Name>)
    requires Before(o, t, files, existing)
    ensures Grounded(o) && Grounded(t) && Contains(t, o) && AllListed(o, t, files)
    ensures OnlyDirsShared(o, files, existing) && ExistingWereThere(o, files, existing)
  {}

  /** The two lists after everything was placed and the stale files are gone. */
  lemma NewListsKeep(o: Tree, t: Tree, files: set<Listed>, existing: set<Name>, g: Merge, plan: Plan)
    requires Before(o, t, files, existing) && Planning(t, files, g, plan)
    ensures OnlyDirsShared(o, FileList(g.es), existing * g.es.Keys + (ExistingDirs(plan) - g.owned))
    ensures ExistingWereThere(o, FileList(g.es), existing * g.es.Keys + (ExistingDirs(plan) - g.owned))
  {
    hide Before, Planning, ExistingDirs, IsEmptyDir;
    var existing' := existing * g.es.Keys + (ExistingDirs(plan) - g.owned);
    BeforeMeans(o, t, files, existing);
    forall l | l in FileList(g.es) && l.name in o
      ensures o[l.name].Directory? && (l.name in existing' || !IsEmptyDir(o, l.name)) {
      SharedIsMerged(o, t, files, existing, g, plan, l.name);
    }
    forall d | d in existing' ensures d in o && o[d].Directory? && Listed(d, true) in FileList(g.es) {
      if d in existing * g.es.Keys {
        SharedIsMerged(o, t, files, existing, g, plan, d);
      } else {
        FoundWasThere(o, t, files, existing, g, plan, d);
      }
    }
  }

  // --------------------------------------------------------------- removing what is stale

  /** What the new archive no longer has is listed, with everything below it,
      among the entries to remove. */
  lemma StaleIsListedBelow(o: Tree, t: Tree, files: set<Listed>, existing: set<Name>, es: Entries,
                           order: seq<Listed>, p: Name)
    requires Before(o, t, files, existing) && Rooted(es) && AllCanonical(files)
    requires SortedListing(order, WithoutNames(Stale(files, es), existing))
    requires p in t && p !in o && p !in es
    ensures ListedBelow(t + TreeOf(es), order, p)
  {
    var u := t + TreeOf(es);
    forall q | q in u && p <= q ensures q != [] && Canonical(q) && Listed(q, u[q].Directory?) in order {
      StaleBelow(o, t, es, p, q);
      assert Listed(q, t[q].Directory?) in files;
    }
  }

  lemma StaleBelow(o: Tree, t: Tree, es: Entries, p: Name, q: Name)
    requires Grounded(o) && Grounded(t) && Rooted(es)
    requires p in t && p !in o && p !in es && p <= q
    ensures q !in o && q !in es
  {
    AboveIsDir(o, p, q);
    if p != q {
      assert Below(p, q);
    }
  }

  /** Once the stale entries are removed, what is left that was not there
      originally is in the new list. */
  lemma RestIsListed(o: Tree, t: Tree, files: set<Listed>, existing: set<Name>, es: Entries, order: seq<Listed>)
    requires Before(o, t, files, existing) && Rooted(es) && AllCanonical(files)
    requires SortedListing(order, WithoutNames(Stale(files, es), existing))
    ensures AllListed(o, RemoveDown(t + TreeOf(es), order, 0), FileList(es))
  {
    hide Before;
    var u := RemoveDown(t + TreeOf(es), order, 0);
    forall p | p in u && p !in o ensures Listed(p, u[p].Directory?) in FileList(es) {
      RemoveDownShrinks(t + TreeOf(es), order, 0, p);
      if p in es {
        ShownAsListed(es, p);
      } else {
        StaleIsListedBelow(o, t, files, existing, es, order, p);
        RemovedIfListed(t + TreeOf(es), order, p);
      }
    }
  }

  lemma SomeLeftIsListed(o: Tree, t: Tree, files: set<Listed>, order: seq<Listed>, k: nat)
    requires AllListed(o, t, files) && k <= |order|
    ensures AllListed(o, RemoveDown(t, order, k), files)
  {
    forall p | p in RemoveDown(t, order, k) ensures p in t && RemoveDown(t, order, k)[p] == t[p] {
      RemoveDownShrinks(t, order, k, p);
    }
  }

  // ------------------------------------------------------------------ the whole steps

  /** The only step that can lose something: the removal of stale files fails,
      and the new archive drops a directory that was there originally and was
      empty. (existing_dirs forgets it, but files keeps it.) */
  ghost predicate Forgets(o: Tree, s: Stored, x: Install)
    requires Rooted(x.m.entries)
  {
    && x.stop.StopsRemoving? && x.stop.k <= |x.order|
    && Installed(s.dest, NamesOf(s.files), x).All?
    && exists d :: d in s.existing && d !in x.m.entries && IsEmptyDir(o, d)
  }

  lemma CalmNeverForgets(o: Tree, s: Stored, x: Install)
    requires ValidInstall(s, x)
    ensures Rooted(x.m.entries)
    ensures !x.stop.StopsRemoving? ==> !Forgets(o, s, x)
  {}

  lemma PlanForIsPlan(d: Tree, g: Merge)
    requires Rooted(g.es) && !Conflict(d, g)
    ensures IsPlan(d, g, PlanFor(d, g))
  {}

  lemma FileListIsCanonical(es: Entries)
    requires Rooted(es)
    ensures AllCanonical(FileList(es))
  {}

  lemma UpdateKeepsPart(orig: Option<Tree>, s: Stored, x: Install)
    requires Grounded(TreeIn(orig)) && Good(orig, s) && ValidInstall(s, x) && !x.overwrite
    requires Installed(s.dest, NamesOf(s.files), x).Part?
    ensures Good(orig, Updated(s, x))
  {
    var o, t, g := TreeIn(orig), s.dest.value, Merge(x.m.entries, NamesOf(s.files), false);
    PlanForIsPlan(t, g);
    var plan := PlanFor(t, g);
    PartKeeps(o, t, s.files, s.existing, g, plan, x.names, x.stop.i, x.stop.half);
    JoinedListsKeep(o, t, s.files, s.existing, g, plan, s.existing);
    FileListIsCanonical(g.es);
  }

  lemma MergedKeeps(o: Tree, t: Tree, s: Stored, x: Install, g: Merge, plan: Plan)
    requires Before(o, t, s.files, s.existing) && Planning(t, s.files, g, plan)
    requires SortedNames(x.names, g.es)
    ensures var u := t + TreeOf(g.es);
            Grounded(u) && Contains(u, o) && AllListed(o, u, s.files + FileList(g.es))
  {
    MergeIsOverlay(t, g, plan, x.names);
    assert x.names[..|x.names|] == x.names;
    PartKeeps(o, t, s.files, s.existing, g, plan, x.names, |x.names|, false);
  }

  lemma UpdateKeepsAll(orig: Option<Tree>, s: Stored, x: Install)
    requires Grounded(TreeIn(orig)) && Good(orig, s) && ValidInstall(s, x) && !x.overwrite
    requires Installed(s.dest, NamesOf(s.files), x).All? && !Forgets(TreeIn(orig), s, x)
    ensures Good(orig, Updated(s, x))
  {
    hide ValidInstall, WellFormed;
    var o, t, es := TreeIn(orig), s.dest.value, x.m.entries;
    var g := Merge(es, NamesOf(s.files), false);
    ValidInstallMeans(s, x);
    PlanForIsPlan(t, g);
    var plan := PlanFor(t, g);
    MergedKeeps(o, t, s, x, g, plan);
    var u := t + TreeOf(es);
    RemovalSpares(o, s, x.order);
    FileListIsCanonical(es);
    if x.stop.StopsRemoving? && x.stop.k <= |x.order| {
      RemoveDownSpares(o, u, x.order, x.stop.k);
      RemoveDownKeepsGrounded(u, x.order, x.stop.k);
      SomeLeftIsListed(o, u, s.files + FileList(es), x.order, x.stop.k);
      JoinedListsKeep(o, t, s.files, s.existing, g, plan, s.existing * es.Keys);
    } else {
      RemoveDownSpares(o, u, x.order, 0);
      RemoveDownKeepsGrounded(u, x.order, 0);
      RestIsListed(o, t, s.files, s.existing, es, x.order);
      NewListsKeep(o, t, s.files, s.existing, g, plan);
    }
  }

  lemma ValidInstallMeans(s: Stored, x: Install)
    requires ValidInstall(s, x)
    ensures Rooted(x.m.entries) && SortedNames(x.names, x.m.entries)
    ensures Installed(s.dest, NamesOf(s.files), x).All? ==>
              && SortedListing(x.order, WithoutNames(Stale(s.files, x.m.entries), s.existing))
              && forall l :: l in x.order ==> l in s.files && l.name !in s.existing
  {}

  /** Every other step keeps the invariant. */
  lemma UpdateKeepsGood(orig: Option<Tree>, s: Stored, x: Install)
    requires Grounded(TreeIn(orig)) && Good(orig, s) && ValidInstall(s, x) && !x.overwrite
    requires !Forgets(TreeIn(orig), s, x)
    ensures Good(orig, Updated(s, x))
  {
    match Installed(s.dest, NamesOf(s.files), x)
    case Nothing =>
    case Part(_, _) => UpdateKeepsPart(orig, s, x);
    case All(_, _, _) => UpdateKeepsAll(orig, s, x);
  }

  /** After an update that completes, the destination is the original one with the archive
      laid over it, whatever was extracted before. */
  lemma UpdateLaysOver(orig: Option<Tree>, s: Stored, x: Install)
    requires Grounded(TreeIn(orig)) && Good(orig, s) && ValidInstall(s, x) && !x.overwrite && x.stop.Completes?
    requires Installed(s.dest, NamesOf(s.files), x).All?
    ensures Updated(s, x).dest == Some(TreeIn(orig) + TreeOf(x.m.entries))
    ensures Updated(s, x).files == FileList(x.m.entries)
  {
    hide WellFormed, Grounded, RemoveDown, AllListed;
    var o, t, es := TreeIn(orig), s.dest.value, x.m.entries;
    UpdateKeepsAll(orig, s, x);
    ValidInstallMeans(s, x);
    InstalledIs(s.dest, NamesOf(s.files), x);
    GoodIsGrounded(orig, s);
    PlanForIsPlan(t, Merge(es, NamesOf(s.files), false));
    MergedKeeps(o, t, s, x, Merge(es, NamesOf(s.files), false), PlanFor(t, Merge(es, NamesOf(s.files), false)));
    LaidOver(o, t, es, x.order);
  }

  lemma LaidOver(o: Tree, t: Tree, es: Entries, order: seq<Listed>)
    requires Grounded(t + TreeOf(es)) && forall l :: l in order ==> l.name !in es
    requires var u := RemoveDown(t + TreeOf(es), order, 0); Contains(u, o) && AllListed(o, u, FileList(es))
    ensures RemoveDown(t + TreeOf(es), order, 0) == o + TreeOf(es)
  {
    hide Grounded, RemoveDown;
    var all, u := t + TreeOf(es), RemoveDown(t + TreeOf(es), order, 0);
    forall p | p in u ensures p in o + TreeOf(es) && u[p] == (o + TreeOf(es))[p] {
      RemoveDownShrinks(all, order, 0, p);
    }
    forall p | p in o + TreeOf(es) ensures p in u {
      if p in es {
        UnlistedStays(all, order, 0, p, p);
      }
    }
  }

  lemma GoodIsGrounded(orig: Option<Tree>, s: Stored)
    requires Good(orig, s)
    ensures s.dest.Some? && Grounded(s.dest.value)
  {}

  /** As long as no removal of stale files fails, existing_dirs is exactly the
      listed directories that were there originally. */
  ghost predicate Exact(o: Tree, s: Stored)
  {
    s.existing == NamesOf(s.files) * o.Keys
  }

  lemma MergedListsAreExact(o: Tree, t: Tree, files: set<Listed>, existing: set<Name>, g: Merge, plan: Plan)
    requires Before(o, t, files, existing) && Planning(t, files, g, plan)
    requires existing == NamesOf(files) * o.Keys
    ensures var more := ExistingDirs(plan) - g.owned;
            && existing + more == NamesOf(files + FileList(g.es)) * o.Keys
            && existing * g.es.Keys + more == NamesOf(FileList(g.es)) * o.Keys
  {
    hide Before, Planning;
    BeforeMeans(o, t, files, existing);
    var more := ExistingDirs(plan) - g.owned;
    forall p ensures p in more ==> p in o && p in g.es {
      if p in more {
        FoundWasThere(o, t, files, existing, g, plan, p);
      }
    }
    forall p ensures p in g.es && p in o ==> p in existing || p in more {
      if p in g.es && p in o {
        SharedIsMerged(o, t, files, existing, g, plan, p);
        OwnedByPlanning(t, files, g, plan);
      }
    }
    assert forall p :: p in NamesOf(FileList(g.es)) <==> p in g.es by { NamesOfFileList(g.es); }
    NamesOfUnion(files, FileList(g.es));
  }

  lemma OwnedByPlanning(t: Tree, files: set<Listed>, g: Merge, plan: Plan)
    requires Planning(t, files, g, plan)
    ensures g.owned == NamesOf(files)
  {}

  lemma NamesOfFileList(es: Entries)
    ensures NamesOf(FileList(es)) == es.Keys
  {
    forall p | p in es ensures p in NamesOf(FileList(es)) {
      assert Listed(p, es[p].DirEntry?) in FileList(es);
    }
  }

  lemma NamesOfUnion(a: set<Listed>, b: set<Listed>)
    ensures NamesOf(a + b) == NamesOf(a) + NamesOf(b)
  {}

  lemma UpdateKeepsExact(orig: Option<Tree>, s: Stored, x: Install)
    requires Grounded(TreeIn(orig)) && Good(orig, s) && ValidInstall(s, x) && !x.overwrite
    requires Exact(TreeIn(orig), s) && !x.stop.StopsRemoving?
    ensures Exact(TreeIn(orig), Updated(s, x))
  {
    var o, g := TreeIn(orig), Merge(x.m.entries, NamesOf(s.files), false);
    if !Installed(s.dest, NamesOf(s.files), x).Nothing? {
      PlanForIsPlan(s.dest.value, g);
      var plan := PlanFor(s.dest.value, g);
      GoodMeansPlanning(orig, s, g, plan);
      MergedListsAreExact(o, s.dest.value, s.files, s.existing, g, plan);
    }
  }

  // ------------------------------------------------------------------------- Create

  ghost predicate ValidCreate(x: Install)
  {
    WellFormed(x.m) && SortedNames(x.names, x.m.entries) && x.order == []
  }

  /** A Create on an existing destination is an Update with nothing to start
      from. */
  lemma CreateIsUpdate(d: Tree, x: Install)
    requires ValidCreate(x)
    ensures var s := Stored(Some(d), {}, {}, false);
            && ValidInstall(s, x)
            && (Created(Some(d), x).Some? ==> Created(Some(d), x) == Some(Updated(s, x)))
            && (Created(Some(d), x).None? ==> Updated(s, x) == s)
  {
    var s := Stored(Some(d), {}, {}, false);
    assert NamesOf({}) == {};
    assert StaleRemoval(s, x.m.entries) == {};
    assert {} + FileList(x.m.entries) == FileList(x.m.entries);
    match Installed(Some(d), {}, x)
    case Nothing =>
    case Part(_, ex) => assert {} + (ex - {}) == ex;
    case All(_, ex, _) => assert {} * x.m.entries.Keys + (ex - {}) == ex;
  }

  lemma CreateKeepsGood(orig: Option<Tree>, x: Install)
    requires Grounded(TreeIn(orig)) && ValidCreate(x) && !x.overwrite
    requires Created(orig, x).Some?
    ensures Good(orig, Created(orig, x).value)
  {
    var es := x.m.entries;
    if orig.None? {
      TreeOfIsGrounded(x.m);
      FileListIsCanonical(es);
      forall p | p in TreeOf(es) ensures Listed(p, TreeOf(es)[p].Directory?) in FileList(es) {
        ShownAsListed(es, p);
      }
    } else {
      var s := Stored(orig, {}, {}, false);
      CreateIsUpdate(orig.value, x);
      UpdateKeepsGood(orig, s, x);
    }
  }

  // ----------------------------------------------------------- what is once forgotten

  /** An empty directory that was there originally is now listed like an
      extracted one, with whatever is in it. */
  ghost predicate Forgotten(o: Tree, s: Stored, d: Name)
  {
    && d in o && d != []
    && s.dest.Some? && Grounded(s.dest.value) && AllCanonical(s.files)
    && ListedUnder(s.dest.value, s.files, d)
    && NoneUnder(s.existing, d)
  }

  ghost predicate ListedUnder(t: Tree, files: set<Listed>, d: Name)
  {
    forall q :: q in t && d <= q ==> Listed(q, t[q].Directory?) in files
  }

  ghost predicate NoneUnder(existing: set<Name>, d: Name)
  {
    forall e :: e in existing ==> !(d <= e)
  }

  lemma EmptyDirIsListed(o: Tree, u: Tree, files: set<Listed>, d: Name)
    requires d in o && o[d].Directory? && IsEmptyDir(o, d) && Listed(d, true) in files
    requires Contains(u, o) && AllListed(o, u, files)
    ensures ListedUnder(u, files, d)
  {
    forall q | q in u && d <= q ensures Listed(q, u[q].Directory?) in files {
      if q == d {
        assert u[d] == o[d];
      } else {
        assert d < q;
        assert q !in o;
      }
    }
  }

  lemma DroppedIsNotExisting(o: Tree, t: Tree, s: Stored, g: Merge, plan: Plan, d: Name)
    requires Before(o, t, s.files, s.existing) && Planning(t, s.files, g, plan)
    requires IsEmptyDir(o, d) && d !in g.es
    ensures NoneUnder(s.existing * g.es.Keys + (ExistingDirs(plan) - g.owned), d)
  {
    forall e | e in s.existing * g.es.Keys + (ExistingDirs(plan) - g.owned) ensures !(d <= e) {
      if e in ExistingDirs(plan) - g.owned {
        FoundWasThere(o, t, s.files, s.existing, g, plan, e);
      }
      assert e in o && e != d;
    }
  }

  lemma ForgetsMakesForgotten(orig: Option<Tree>, s: Stored, x: Install) returns (d: Name)
    requires Grounded(TreeIn(orig)) && Good(orig, s) && ValidInstall(s, x) && !x.overwrite
    requires Forgets(TreeIn(orig), s, x)
    ensures Forgotten(TreeIn(orig), Updated(s, x), d)
  {
    hide ValidInstall, WellFormed, Planning, Planned, SortedListing, SortedNames, Conflict;
    var o, t, es := TreeIn(orig), s.dest.value, x.m.entries;
    var g := Merge(es, NamesOf(s.files), false);
    ValidInstallMeans(s, x);
    PlanForIsPlan(t, g);
    var plan := PlanFor(t, g);
    d :| d in s.existing && d !in es && IsEmptyDir(o, d);
    var u, files := t + TreeOf(es), s.files + FileList(es);
    GoodMeansPlanning(orig, s, g, plan);
    MergedKeeps(o, t, s, x, g, plan);
    FileListIsCanonical(es);
    RemoveDownKeepsGrounded(u, x.order, x.stop.k);
    EmptyDirIsListed(o, u, files, d);
    LeftUnderIsListed(u, files, x.order, x.stop.k, d);
    DroppedIsNotExisting(o, t, s, g, plan, d);
    var n := Updated(s, x);
    assert Installed(s.dest, NamesOf(s.files), x) == All(u, ExistingDirs(plan), false);
    assert n.dest == Some(RemoveDown(u, x.order, x.stop.k));
    assert n.files == files;
    assert d in o && d != [];
    assert AllCanonical(n.files);
    assert NoneUnder(n.existing, d);
  }

  lemma GoodMeansPlanning(orig: Option<Tree>, s: Stored, g: Merge, plan: Plan)
    requires Grounded(TreeIn(orig)) && Good(orig, s) && Rooted(g.es)
    requires IsPlan(s.dest.value, g, plan) && g.owned == NamesOf(s.files) && !g.overwrite
    ensures Planning(s.dest.value, s.files, g, plan)
    ensures Before(TreeIn(orig), s.dest.value, s.files, s.existing)
  {}

  lemma RestUnderIsListed(t: Tree, files: set<Listed>, existing: set<Name>, es: Entries, order: seq<Listed>, d: Name)
    requires Grounded(t) && Rooted(es) && AllCanonical(files) && d != []
    requires ListedUnder(t, files, d) && NoneUnder(existing, d)
    requires SortedListing(order, WithoutNames(Stale(files, es), existing))
    ensures ListedUnder(RemoveDown(t + TreeOf(es), order, 0), FileList(es), d)
  {
    var u := t + TreeOf(es);
    var v := RemoveDown(u, order, 0);
    forall q | q in v && d <= q ensures Listed(q, v[q].Directory?) in FileList(es) {
      RemoveDownShrinks(u, order, 0, q);
      if q in es {
        ShownAsListed(es, q);
      } else {
        forall r | r in u && q <= r ensures r != [] && Canonical(r) && Listed(r, u[r].Directory?) in order {
          StaleBelow(map[], t, es, q, r);
          assert d <= r;
          assert Listed(r, t[r].Directory?) in files;
        }
        RemovedIfListed(u, order, q);
      }
    }
  }

  lemma NewDirsNotUnder(t: Tree, files: set<Listed>, g: Merge, plan: Plan, d: Name)
    requires IsPlan(t, g, plan) && g.owned == NamesOf(files) && ListedUnder(t, files, d)
    ensures NoneUnder(ExistingDirs(plan) - g.owned, d)
  {}

  lemma MergedUnderIsListed(t: Tree, files: set<Listed>, g: Merge, plan: Plan, names: seq<Name>, i: nat, half: bool, d: Name)
    requires ListedUnder(t, files, d) && i <= |names|
    ensures ListedUnder(Stopped(t, g, plan, names, i, half), files + FileList(g.es), d)
  {}

  lemma LeftUnderIsListed(t: Tree, files: set<Listed>, order: seq<Listed>, k: nat, d: Name)
    requires ListedUnder(t, files, d) && k <= |order|
    ensures ListedUnder(RemoveDown(t, order, k), files, d)
  {
    forall p | p in RemoveDown(t, order, k) ensures p in t && RemoveDown(t, order, k)[p] == t[p] {
      RemoveDownShrinks(t, order, k, p);
    }
  }

  /** Once forgotten, always forgotten, whatever later updates do. */
  lemma ForgottenStays(o: Tree, s: Stored, x: Install, d: Name)
    requires Forgotten(o, s, d) && ValidInstall(s, x)
    ensures Forgotten(o, Updated(s, x), d)
  {
    hide ValidInstall, WellFormed;
    var t, es := s.dest.value, x.m.entries;
    var g := Merge(es, NamesOf(s.files), x.overwrite);
    ValidInstallMeans(s, x);
    FileListIsCanonical(es);
    var p := Installed(s.dest, g.owned, x);
    if p.Nothing? {
      return;
    }
    PlanForIsPlan(t, g);
    var plan := PlanFor(t, g);
    NewDirsNotUnder(t, s.files, g, plan, d);
    if p.Part? {
      StoppedIsGrounded(t, g, plan, x.names, x.stop.i, x.stop.half);
      MergedUnderIsListed(t, s.files, g, plan, x.names, x.stop.i, x.stop.half, d);
    } else {
      MergedStays(t, s.files, g, plan, x.names, d);
      var k := if x.stop.StopsRemoving? && x.stop.k <= |x.order| then x.stop.k else 0;
      RemoveDownKeepsGrounded(t + TreeOf(es), x.order, k);
      LeftUnderIsListed(t + TreeOf(es), s.files + FileList(es), x.order, k, d);
      RestUnderIsListed(t, s.files, s.existing, es, x.order, d);
    }
  }

  lemma MergedStays(t: Tree, files: set<Listed>, g: Merge, plan: Plan, names: seq<Name>, d: Name)
    requires Mergeable(t, g) && IsPlan(t, g, plan) && SortedNames(names, g.es)
    requires ListedUnder(t, files, d)
    ensures Grounded(t + TreeOf(g.es)) && ListedUnder(t + TreeOf(g.es), files + FileList(g.es), d)
  {
    assert names[..|names|] == names;
    MergeIsOverlay(t, g, plan, names);
    StoppedIsGrounded(t, g, plan, names, |names|, false);
    MergedUnderIsListed(t, files, g, plan, names, |names|, false, d);
  }

  lemma HalfDeleteKeepsForgotten(o: Tree, s: Stored, order: seq<Listed>, k: nat, d: Name)
    requires Forgotten(o, s, d) && k <= |order|
    ensures Forgotten(o, HalfDeleted(s, order, k), d)
  {
    RemoveDownKeepsGrounded(s.dest.value, order, k);
    LeftUnderIsListed(s.dest.value, s.files, order, k, d);
  }

  /** Destroy removes it. */
  lemma ForgottenIsLost(o: Tree, s: Stored, order: seq<Listed>, d: Name)
    requires Forgotten(o, s, d) && ValidDelete(s, order)
    ensures TreeIn(Deleted(s, order)) != o
  {
    var t := s.dest.value;
    if d in t {
      forall q | q in t && d <= q ensures q != [] && Canonical(q) && Listed(q, t[q].Directory?) in order {
        assert Listed(q, t[q].Directory?) in s.files;
      }
      RemovedIfListed(t, order, d);
    } else if d in RemoveDown(t, order, 0) {
      RemoveDownShrinks(t, order, 0, d);
    }
    assert d !in TreeIn(Deleted(s, order));
  }

  // ------------------------------------------------------------------- whole runs

  /** What can happen to a resource between Create and the Delete that
      completes: an Update, however far it gets, or a Delete that fails. */
  datatype Step = Update(x: Install) | FailedDelete(order: seq<Listed>, k: nat)

  ghost predicate ValidStep(s: Stored, step: Step)
  {
    match step
    case Update(x) => ValidInstall(s, x)
    case FailedDelete(order, k) => ValidDelete(s, order) && k <= |order|
  }

  ghost function After(s: Stored, step: Step): Stored
    requires ValidStep(s, step)
  {
    match step
    case Update(x) => Updated(s, x)
    case FailedDelete(order, k) => HalfDeleted(s, order, k)
  }

  ghost predicate ValidRun(s: Stored, steps: seq<Step>)
    decreases |steps|
  {
    steps == [] || (ValidStep(s, steps[0]) && ValidRun(After(s, steps[0]), steps[1..]))
  }

  ghost function Run(s: Stored, steps: seq<Step>): Stored
    requires ValidRun(s, steps)
    decreases |steps|
  {
    if steps == [] then s else Run(After(s, steps[0]), steps[1..])
  }

  predicate MayOverwrite(step: Step) { step.Update? && step.x.overwrite }

  /** No update of the run fails to remove stale files while its archive drops
      an empty original directory. */
  ghost predicate NeverForgets(o: Tree, s: Stored, steps: seq<Step>)
    requires ValidRun(s, steps)
    decreases |steps|
  {
    steps == [] ||
    (!(steps[0].Update? && Forgets(o, s, steps[0].x)) && NeverForgets(o, After(s, steps[0]), steps[1..]))
  }

  /** A run that goes on for one more step. */
  lemma {:induction false} RunPush(o: Tree, s: Stored, steps: seq<Step>, step: Step)
    requires ValidRun(s, steps) && ValidStep(Run(s, steps), step)
    ensures ValidRun(s, steps + [step]) && Run(s, steps + [step]) == After(Run(s, steps), step)
    ensures NeverForgets(o, s, steps + [step]) <==>
            NeverForgets(o, s, steps) && !(step.Update? && Forgets(o, Run(s, steps), step.x))
    decreases |steps|
  {
    hide ValidStep, After, Forgets;
    if steps == [] {
      assert (steps + [step])[1..] == [];
    } else {
      RunPush(o, After(s, steps[0]), steps[1..], step);
      assert (steps + [step])[1..] == steps[1..] + [step];
    }
  }

  lemma {:induction false} RunKeepsForgotten(o: Tree, s: Stored, steps: seq<Step>, d: Name)
    requires Forgotten(o, s, d) && ValidRun(s, steps)
    ensures Forgotten(o, Run(s, steps), d)
    decreases |steps|
  {
    if steps != [] {
      match steps[0]
      case Update(x) =>
        ForgottenStays(o, s, x, d);
        RunKeepsForgotten(o, Updated(s, x), steps[1..], d);
      case FailedDelete(order, k) =>
        HalfDeleteKeepsForgotten(o, s, order, k, d);
        RunKeepsForgotten(o, HalfDeleted(s, order, k), steps[1..], d);
    }
  }

  /** From a good state, a run followed by a Delete restores the original
      destination exactly if it never forgets. */
  lemma {:induction false} RunRestoresIff(orig: Option<Tree>, s: Stored, steps: seq<Step>, order: seq<Listed>)
    requires Grounded(TreeIn(orig)) && Good(orig, s) && ValidRun(s, steps)
    requires forall step :: step in steps ==> !MayOverwrite(step)
    requires ValidDelete(Run(s, steps), order)
    ensures Deleted(Run(s, steps), order) == orig <==> NeverForgets(TreeIn(orig), s, steps)
    decreases |steps|
  {
    var o := TreeIn(orig);
    if steps == [] {
      DeleteRestores(orig, s, order);
    } else {
      var step, rest := steps[0], steps[1..];
      assert step in steps;
      if step.Update? && Forgets(o, s, step.x) {
        var d := ForgetsMakesForgotten(orig, s, step.x);
        RunKeepsForgotten(o, After(s, step), rest, d);
        ForgottenIsLost(o, Run(s, steps), order, d);
      } else {
        match step {
          case Update(x) => UpdateKeepsGood(orig, s, x);
          case FailedDelete(ord, k) => HalfDeleteKeepsGood(orig, s, ord, k);
        }
        RunRestoresIff(orig, After(s, step), rest, order);
      }
    }
  }

  /** Over every run of Create, any updates and failed deletes, and Delete, with
      overwrite off, destroy gives back the names, kinds, contents and link
      targets the destination started with: exactly if no update that failed
      to remove stale files dropped an original, empty directory. */
  lemma WholeRunRestores(orig: Option<Tree>, x: Install, steps: seq<Step>, order: seq<Listed>)
    requires Grounded(TreeIn(orig)) && ValidCreate(x) && !x.overwrite
    requires Created(orig, x).Some? && ValidRun(Created(orig, x).value, steps)
    requires forall step :: step in steps ==> !MayOverwrite(step)
    requires ValidDelete(Run(Created(orig, x).value, steps), order)
    ensures Deleted(Run(Created(orig, x).value, steps), order) == orig
       <==> NeverForgets(TreeIn(orig), Created(orig, x).value, steps)
  {
    CreateKeepsGood(orig, x);
    RunRestoresIff(orig, Created(orig, x).value, steps, order);
  }

  // ------------------------------------------------------------------- an example

  const DIR_A: Name := ["a"]
  const FILE_B: Name := ["b"]

  const EXAMPLE_ENTRIES: Entries := map[DIR_A := DirEntry(0x1ed, false), FILE_B := FileEntry(0x1a4, 0, "")]

  /** An archive with a/ and b is extracted into a destination with an empty directory a. */
  const EXAMPLE_CREATE :=
    Install(Manifest(EXAMPLE_ENTRIES, [DIR_A, FILE_B]), false, [DIR_A, FILE_B], [], Completes)

  const EXAMPLE_STATE := Stored(Some(map[DIR_A := Directory, FILE_B := Regular("")]),
                                {Listed(DIR_A, true), Listed(FILE_B, false)}, {DIR_A}, false)

  /** Now an archive without either is extracted, and removing b fails. */
  const EXAMPLE_UPDATE := Install(EMPTY, false, [], [Listed(FILE_B, false)], StopsRemoving(1))

  /** The names that destroy is then given, in order. */
  const EXAMPLE_ORDER := [Listed(DIR_A, true), Listed(FILE_B, false)]

  lemma ExampleRenders()
    ensures Render(DIR_A) == "a" && Render(FILE_B) == "b" && Less("a", "b") && Less("a/", "b")
  {
    assert "a"[0] < "b"[0] && "a/"[0] < "b"[0];
  }

  lemma ExampleIsWellFormed()
    ensures ValidCreate(EXAMPLE_CREATE)
  {
    ExampleRenders();
    assert Canonical(DIR_A) && Canonical(FILE_B);
    assert forall p, n :: n in {DIR_A, FILE_B} && Below(p, n) ==> |p| == 0;
    var names := EXAMPLE_CREATE.names;
    assert names[0] in names && names[1] in names;
  }

  const EXAMPLE_ORIGINAL: Tree := map[DIR_A := Directory]
  const EXAMPLE_MERGE := Merge(EXAMPLE_ENTRIES, {}, false)

  lemma ExamplePlanned()
    ensures Planned(EXAMPLE_ORIGINAL, EXAMPLE_MERGE, DIR_A) == Some(ExistingDir)
    ensures Planned(EXAMPLE_ORIGINAL, EXAMPLE_MERGE, FILE_B) == Some(Place)
    ensures !Conflict(EXAMPLE_ORIGINAL, EXAMPLE_MERGE)
  {
    assert Parent(DIR_A) == [] && Parent(FILE_B) == [];
  }

  lemma ExamplePlaced()
    ensures EXAMPLE_ORIGINAL + TreeOf(EXAMPLE_ENTRIES) == EXAMPLE_STATE.dest.value
    ensures FileList(EXAMPLE_ENTRIES) == EXAMPLE_STATE.files
  {
    assert DIR_A[0] == "a" && FILE_B[0] == "b" && DIR_A != FILE_B;
    var t := TreeOf(EXAMPLE_ENTRIES);
    assert t.Keys == {DIR_A, FILE_B} && t[DIR_A] == Directory && t[FILE_B] == Regular("");
    assert EXAMPLE_ORIGINAL + t == EXAMPLE_STATE.dest.value;
    assert FileList(EXAMPLE_ENTRIES) == EXAMPLE_STATE.files;
  }

  lemma ExamplePlan()
    requires Rooted(EXAMPLE_ENTRIES) && !Conflict(EXAMPLE_ORIGINAL, EXAMPLE_MERGE)
    ensures ExistingDirs(PlanFor(EXAMPLE_ORIGINAL, EXAMPLE_MERGE)) == {DIR_A}
  {
    hide Planned, Conflict, Rooted;
    ExamplePlanned();
  }

  lemma ExampleCreated()
    ensures Created(Some(EXAMPLE_ORIGINAL), EXAMPLE_CREATE) == Some(EXAMPLE_STATE)
  {
    hide Planned, Conflict, Rooted, TreeOf, FileList, PlanFor, ExistingDirs, ValidCreate;
    ExampleIsRooted();
    ExamplePlanned();
    ExamplePlaced();
    ExamplePlan();
  }

  lemma ExampleIsRooted()
    ensures Rooted(EXAMPLE_ENTRIES)
  {
    ExampleIsWellFormed();
  }

  lemma ExampleStale()
    ensures WellFormed(EMPTY)
    ensures StaleRemoval(EXAMPLE_STATE, map[]) == {Listed(FILE_B, false)}
    ensures SortedListing([Listed(FILE_B, false)], {Listed(FILE_B, false)})
    ensures SortedNames([], map[])
  {
    ExampleRenders();
    var order := [Listed(FILE_B, false)];
    assert order[0] in order;
    assert StaleRemoval(EXAMPLE_STATE, map[]) == {Listed(FILE_B, false)};
  }

  lemma ExampleForgets()
    requires Rooted(map[])
    ensures Forgets(EXAMPLE_ORIGINAL, EXAMPLE_STATE, EXAMPLE_UPDATE)
    ensures var s := Updated(EXAMPLE_STATE, EXAMPLE_UPDATE); s.existing == {} && s.files == EXAMPLE_STATE.files
  {
    var g := Merge(map[], NamesOf(EXAMPLE_STATE.files), false);
    assert !Conflict(EXAMPLE_STATE.dest.value, g);
    assert forall k :: k in EXAMPLE_ORIGINAL ==> !(DIR_A < k);
    var s := Updated(EXAMPLE_STATE, EXAMPLE_UPDATE);
    assert ExistingDirs(PlanFor(EXAMPLE_STATE.dest.value, g)) == {};
    assert s.existing == {} && s.files == EXAMPLE_STATE.files + {};
  }

  lemma ExampleDeletes(s: Stored)
    requires s.existing == {} && s.files == EXAMPLE_STATE.files
    ensures ValidDelete(s, EXAMPLE_ORDER)
  {
    ExampleRenders();
    assert WithoutNames(s.files, s.existing) == {Listed(DIR_A, true), Listed(FILE_B, false)};
    assert EXAMPLE_ORDER[0] in EXAMPLE_ORDER && EXAMPLE_ORDER[1] in EXAMPLE_ORDER;
    assert Shown(EXAMPLE_ORDER[0]) == "a" + "/" == "a/" && Shown(EXAMPLE_ORDER[1]) == "b" + "" == "b";
  }

  lemma ExampleUpdates()
    ensures ValidInstall(EXAMPLE_STATE, EXAMPLE_UPDATE)
    ensures Forgets(EXAMPLE_ORIGINAL, EXAMPLE_STATE, EXAMPLE_UPDATE)
    ensures ValidDelete(Updated(EXAMPLE_STATE, EXAMPLE_UPDATE), EXAMPLE_ORDER)
  {
    hide StaleRemoval, SortedListing, SortedNames, Installed, Updated, Forgets, ValidDelete;
    ExampleStale();
    ExampleForgets();
    ExampleDeletes(Updated(EXAMPLE_STATE, EXAMPLE_UPDATE));
  }

  /** A destroy does not always give back the original destination: in this run of Create,
      an Update whose removal of stale files fails, and Delete, the directory a, which was
      there originally, is removed. */
  lemma FailedRemovalLosesDirectory()
    ensures ValidCreate(EXAMPLE_CREATE)
    ensures Created(Some(EXAMPLE_ORIGINAL), EXAMPLE_CREATE) == Some(EXAMPLE_STATE)
    ensures ValidInstall(EXAMPLE_STATE, EXAMPLE_UPDATE)
    ensures ValidDelete(Updated(EXAMPLE_STATE, EXAMPLE_UPDATE), EXAMPLE_ORDER)
    ensures Deleted(Updated(EXAMPLE_STATE, EXAMPLE_UPDATE), EXAMPLE_ORDER) != Some(EXAMPLE_ORIGINAL)
  {
    hide ValidCreate, ValidInstall, ValidDelete, Updated, Created, Deleted, Good, Forgets, Forgotten;
    ExampleIsWellFormed();
    ExampleCreated();
    ExampleUpdates();
    ExampleIsGrounded();
    CreateKeepsGood(Some(EXAMPLE_ORIGINAL), EXAMPLE_CREATE);
    var d := ForgetsMakesForgotten(Some(EXAMPLE_ORIGINAL), EXAMPLE_STATE, EXAMPLE_UPDATE);
    ForgottenIsLost(EXAMPLE_ORIGINAL, Updated(EXAMPLE_STATE, EXAMPLE_UPDATE), EXAMPLE_ORDER, d);
  }

  lemma ExampleIsGrounded()
    ensures Grounded(EXAMPLE_ORIGINAL)
  {
    assert forall p, n :: n in {DIR_A} && Below(p, n) ==> |p| == 0;
  }
}
