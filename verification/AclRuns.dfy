/** Whole runs of a managed ACL (file_acl_resource.go): any creates, updates and destroys of
    one file, each of which may fail between the access and the default ACL. */
module AclRuns {
  import opened Text
  import opened Acl
  import opened AclApply
  import opened AclLifecycle

  datatype Step = Attempt(spec: Spec, reach: Reach) | Destroy(reach: Reach)

  ghost function After(h: Held, isDir: bool, s: Step): Held
  {
    match s
    case Attempt(spec, reach) => Applied(h, isDir, spec, reach)
    case Destroy(reach) => Destroyed(h, isDir, reach)
  }

  ghost function Run(h: Held, isDir: bool, steps: seq<Step>): Held
  {
    if steps == [] then h else After(Run(h, isDir, steps[..|steps| - 1]), isDir, steps[|steps| - 1])
  }

  // ------------------------------------------- what the listings of a run say by themselves

  /** The step writes the entries it lists to the access ACL. */
  ghost predicate Writes(isDir: bool, s: Step) { s.Attempt? && Allowed(isDir, s.spec) && !s.reach.Nothing? }

  /** The specification recorded at the end of a run: that of the last create or update that
      came through, unless a destroy came through after it. */
  ghost function Recorded(isDir: bool, steps: seq<Step>): Option<Spec>
  {
    if steps == [] then None
    else
      var s, before := steps[|steps| - 1], Recorded(isDir, steps[..|steps| - 1]);
      match s
      case Attempt(spec, reach) => if Writes(isDir, s) && reach.Whole? then Some(spec) else before
      case Destroy(reach) => if reach.Whole? then None else before
  }

  ghost predicate Lists(spec: Option<Spec>, k: Key) { k in Wanted(Listing(spec)) }

  /** The destroy takes away every named entry, and with them the mask. */
  ghost predicate Sweeps(spec: Option<Spec>, k: Key) { spec.Some? && (spec.value.exclusive || k == MASK_KEY) }

  /** An entry is left behind: the last step that wrote it failed half-way, the specification
      that stayed recorded does not list it, and nothing since was exclusive. */
  ghost predicate LeftBehind(isDir: bool, steps: seq<Step>, k: Key)
  {
    steps != []
    && var s, before := steps[|steps| - 1], steps[..|steps| - 1];
       if Writes(isDir, s) && k in Wanted(s.spec.entries) then
         s.reach.AccessOnly? && !Lists(Recorded(isDir, before), k)
       else
         && LeftBehind(isDir, before, k)
         && (Writes(isDir, s) ==> !s.spec.exclusive)
         && (s.Destroy? && !s.reach.Nothing? ==> !Sweeps(Recorded(isDir, before), k))
  }

  /** The key of an entry that a file without an ACL does not have. */
  predicate Extended(k: Key) { Named(k.tag) || k == MASK_KEY }

  ghost predicate NothingLeft(isDir: bool, steps: seq<Step>)
  {
    forall k: Key :: Extended(k) ==> !LeftBehind(isDir, steps, k)
  }

  /** The entry under a base key after a run: the one written last, or the original. */
  ghost function LastWritten(a: Acl, isDir: bool, steps: seq<Step>, k: Key): Option<Entry>
  {
    if steps == [] then Get(a, k)
    else
      var s := steps[|steps| - 1];
      if Writes(isDir, s) && Get(s.spec.entries, k).Some? then Get(s.spec.entries, k)
      else LastWritten(a, isDir, steps[..|steps| - 1], k)
  }

  ghost predicate AllInRange(steps: seq<Step>)
  {
    forall i :: 0 <= i < |steps| && steps[i].Attempt? ==> InRange(steps[i].spec)
  }

  // -------------------------------------------------------------- what every step keeps

  /** Both ACLs are valid, and the default ACL has nothing but what is recorded. */
  ghost predicate Sound(h: Held, isDir: bool)
  {
    && Canonical(h.access) && ValidAcl(h.access)
    && (h.dflt.Some? <==> h.spec.Some? && h.spec.value.defaults.Some?)
    && (h.dflt.Some? ==>
          && isDir && Canonical(h.dflt.value) && ValidAcl(h.dflt.value)
          && NamedIn(h.dflt.value, DefaultListing(h.spec)))
  }

  lemma StrippedNamed(a: Acl, before: seq<Entry>, want: seq<Entry>)
    requires Canonical(a) && ValidAcl(a) && NamedIn(a, before)
    ensures NamedIn(StripListed(a, Removed(before, want)), want)
  {
    var drop := Removed(before, want);
    RemovedHas(before, want);
    RemovedAreNamed(before, want);
    StripListedIsValid(a, drop);
    forall e | e in StripListed(a, drop) && Named(e.tag) ensures KeyOf(e) in Wanted(want) {
      assert KeyOf(e) in Wanted(before);
      var x :| x in before && KeyOf(x) == KeyOf(e);
      assert KeyOf(e) in Wanted(want) || x in drop;
    }
  }

  lemma AppliedNamed(a: Acl, before: seq<Entry>, want: seq<Entry>, exclusive: bool)
    requires Canonical(a) && ValidAcl(a) && NamedIn(a, before) && DistinctKeys(want)
    ensures NamedIn(Apply(StripListed(a, Removed(before, want)), want, exclusive), want)
  {
    var cur := StripListed(a, Removed(before, want));
    StrippedNamed(a, before, want);
    RemovedAreNamed(before, want);
    StripListedIsValid(a, Removed(before, want));
    var next := Apply(cur, want, exclusive);
    forall e | e in next && Named(e.tag) ensures KeyOf(e) in Wanted(want) {
      var k := KeyOf(e);
      MaskKeyIs(e);
      ApplyGet(cur, want, exclusive, k);
      CanonicalIsDistinct(next);
      GetOfDistinct(next, e);
      GetIs(want, k);
      GetIs(cur, k);
    }
  }

  lemma NextAccessBase(access: Acl, prev: Option<Spec>, spec: Spec, k: Key)
    requires Canonical(access) && ValidAcl(access) && DistinctKeys(spec.entries) && IsBase(k.tag)
    ensures Get(NextAccess(access, prev, spec), k)
         == if Get(spec.entries, k).Some? then Get(spec.entries, k) else Get(access, k)
  {
    var drop := Removed(Listing(prev), spec.entries);
    RemovedAreNamed(Listing(prev), spec.entries);
    StripListedGet(access, drop, k);
    ApplyGet(StripListed(access, drop), spec.entries, spec.exclusive, k);
  }

  /** Taking away everything that was added leaves the base entries alone. */
  lemma StrippedIsMinimal(cur: Acl, managed: seq<Entry>, exclusive: bool)
    requires Canonical(cur) && ValidAcl(cur) && NamedIn(cur, managed)
    ensures IsMinimal(Strip(cur, managed, exclusive))
    ensures Canonical(Strip(cur, managed, exclusive)) && ValidAcl(Strip(cur, managed, exclusive))
    ensures forall k: Key :: IsBase(k.tag) ==> Get(Strip(cur, managed, exclusive), k) == Get(cur, k)
  {
    var keys := Wanted(managed);
    var goes := (x: Entry) => Goes(keys, exclusive, x);
    var w := Without(cur, goes);
    var next := Strip(cur, managed, exclusive);
    WithoutHas(cur, goes);
    assert !HasNamed(w);
    assert next == Without(w, IsMask);
    WithoutHas(w, IsMask);
    forall e | e in next ensures IsBase(e.tag) {
      assert e in cur && ValidEntry(e);
    }
    StripIsValid(cur, managed, exclusive);
    forall k: Key | IsBase(k.tag) ensures Get(next, k) == Get(cur, k) {
      StripGet(cur, managed, exclusive, k);
    }
  }

  lemma AppliedDefault(cur: Option<Acl>, access: Acl, prev: Option<Spec>, spec: Spec)
    requires Canonical(access) && ValidAcl(access) && InRange(spec)
    requires cur.Some? ==> && Canonical(cur.value) && ValidAcl(cur.value)
                           && NamedIn(cur.value, DefaultListing(prev))
    requires cur.Some? <==> prev.Some? && prev.value.defaults.Some?
    requires spec.defaults.Some? ==> DistinctKeys(spec.defaults.value)
    ensures var next := NextDefault(cur, access, prev, spec);
      && (next.Some? <==> spec.defaults.Some?)
      && (next.Some? ==> && Canonical(next.value) && ValidAcl(next.value)
                         && NamedIn(next.value, spec.defaults.value))
  {
    NextDefaultIs(cur, access, prev, spec);
    if spec.defaults.Some? {
      BaseEntriesAreValid(access);
      var start := if cur.Some? then cur.value else BaseEntries(access);
      AppliedNamed(start, DefaultListing(prev), spec.defaults.value, spec.exclusive);
    } else if cur.Some? {
      StrippedIsMinimal(cur.value, prev.value.defaults.value, prev.value.exclusive);
    }
  }

  lemma AppliedKeepsSound(h: Held, isDir: bool, spec: Spec, reach: Reach)
    requires Sound(h, isDir) && InRange(spec)
    ensures Sound(Applied(h, isDir, spec, reach), isDir)
  {
    hide NextAccess, NextDefault, ValidAcl, NamedIn, InRange;
    if Allowed(isDir, spec) && !reach.Nothing? {
      InRangeIsValid(spec);
      NextAccessIs(h.access, h.spec, spec);
      if reach.Whole? && isDir {
        AppliedDefault(h.dflt, NextAccess(h.access, h.spec, spec), h.spec, spec);
      }
    }
  }

  lemma InRangeIsValid(spec: Spec)
    requires InRange(spec)
    ensures AllValid(spec.entries)
  {}

  lemma DestroyedKeepsSound(h: Held, isDir: bool, reach: Reach)
    requires Sound(h, isDir)
    ensures Sound(Destroyed(h, isDir, reach), isDir)
  {
    hide Strip, ValidAcl, NamedIn;
    if h.spec.Some? {
      var s := h.spec.value;
      StripIsValid(h.access, s.entries, s.exclusive);
      if h.dflt.Some? {
        StrippedIsMinimal(h.dflt.value, s.defaults.value, s.exclusive);
      }
    }
  }

  lemma {:induction false} RunKeepsSound(h: Held, isDir: bool, steps: seq<Step>)
    requires Sound(h, isDir) && AllInRange(steps)
    ensures Sound(Run(h, isDir, steps), isDir)
    decreases |steps|
  {
    hide Sound, InRange, Applied, Destroyed;
    if steps != [] {
      var before, s := steps[..|steps| - 1], steps[|steps| - 1];
      RunKeepsSound(h, isDir, before);
      match s
      case Attempt(spec, reach) => AppliedKeepsSound(Run(h, isDir, before), isDir, spec, reach);
      case Destroy(reach) => DestroyedKeepsSound(Run(h, isDir, before), isDir, reach);
    }
  }

  lemma {:induction false} RecordedIs(h: Held, isDir: bool, steps: seq<Step>)
    requires h.spec.None?
    ensures Run(h, isDir, steps).spec == Recorded(isDir, steps)
    decreases |steps|
  {
    hide Allowed, NextAccess, NextDefault, Strip, Withdrawn;
    if steps != [] {
      RecordedIs(h, isDir, steps[..|steps| - 1]);
    }
  }

  // ------------------------------------------------------------------- the named entries

  ghost predicate Has(a: Acl, k: Key) { Get(a, k).Some? }

  /** The entry is in the access ACL, and no destroy would take it away by its key. */
  ghost predicate Stray(h: Held, k: Key) { Has(h.access, k) && !Lists(h.spec, k) }

  lemma NextAccessHas(access: Acl, prev: Option<Spec>, spec: Spec, k: Key)
    requires Canonical(access) && DistinctKeys(spec.entries) && Named(k.tag)
    ensures Has(NextAccess(access, prev, spec), k) <==>
      k in Wanted(spec.entries) || (!spec.exclusive && Has(access, k) && !Lists(prev, k))
  {
    var drop := Removed(Listing(prev), spec.entries);
    RemovedHas(Listing(prev), spec.entries);
    StripListedGet(access, drop, k);
    ApplyGet(StripListed(access, drop), spec.entries, spec.exclusive, k);
    GetIs(spec.entries, k);
    RemovedKeys(Listing(prev), spec.entries, k);
  }

  lemma {:induction false} StrayIsLeftBehind(h: Held, isDir: bool, steps: seq<Step>, k: Key)
    requires Plain(h) && AllInRange(steps) && Named(k.tag)
    ensures Stray(Run(h, isDir, steps), k) <==> LeftBehind(isDir, steps, k)
    decreases |steps|
  {
    hide Allowed, NextAccess, NextDefault, Strip, Withdrawn, ValidAcl, InRange;
    if steps == [] {
      NotInPlain(h, k);
    } else {
      var before, s := steps[..|steps| - 1], steps[|steps| - 1];
      StrayIsLeftBehind(h, isDir, before, k);
      RunKeepsSound(h, isDir, before);
      RecordedIs(h, isDir, before);
      var r := Run(h, isDir, before);
      if Writes(isDir, s) {
        AllowedIsDistinct(isDir, s.spec);
        NextAccessHas(r.access, r.spec, s.spec, k);
      } else if s.Destroy? && r.spec.Some? {
        StripGet(r.access, r.spec.value.entries, r.spec.value.exclusive, k);
      }
    }
  }

  lemma AllowedIsDistinct(isDir: bool, spec: Spec)
    requires Allowed(isDir, spec)
    ensures DistinctKeys(spec.entries)
  {}

  lemma NotInPlain(h: Held, k: Key)
    requires Plain(h) && Extended(k)
    ensures !Has(h.access, k)
  {
    GetIs(h.access, k);
  }

  // ---------------------------------------------------------------------------- the mask

  lemma HasNamedIs(a: Acl)
    ensures HasNamed(a) <==> exists k: Key :: Named(k.tag) && Has(a, k)
  {
    if HasNamed(a) {
      var e :| e in a && Named(e.tag);
      GetIs(a, KeyOf(e));
      assert Has(a, KeyOf(e));
    }
    forall k: Key | Named(k.tag) && Has(a, k) ensures HasNamed(a) {
      GetIs(a, k);
    }
  }

  /** The mask after a create, if nothing was recorded before. */
  lemma MaskAfterCreate(access: Acl, spec: Spec)
    requires Canonical(access) && DistinctKeys(spec.entries)
    ensures var next := NextAccess(access, None, spec);
      && (Has(next, MASK_KEY) <==>
            MASK_KEY in Wanted(spec.entries) || HasNamed(next) || (!spec.exclusive && Has(access, MASK_KEY)))
      && (!spec.exclusive && HasNamed(access) ==> HasNamed(next))
  {
    hide HasNamed, Merged, Apply, DistinctKeys;
    var want, next := spec.entries, NextAccess(access, None, spec);
    assert next == Apply(access, want, spec.exclusive);
    ApplyGet(access, want, spec.exclusive, MASK_KEY);
    MergedGet(access, want, spec.exclusive, MASK_KEY);
    ApplyOffMask(access, want, spec.exclusive);
    OffMaskDecidesGroupClass(next, Merged(access, want, spec.exclusive));
    GetIs(want, MASK_KEY);
    HasNamedIs(access);
    HasNamedIs(next);
    if !spec.exclusive && HasNamed(access) {
      var k: Key :| Named(k.tag) && Has(access, k);
      NextAccessHas(access, None, spec, k);
    }
  }

  /** Where nothing is recorded, a mask is there with named entries, or was left behind. */
  lemma {:induction false} MaskIsLeftBehind(h: Held, isDir: bool, steps: seq<Step>)
    requires Plain(h) && AllInRange(steps) && Recorded(isDir, steps).None?
    ensures var a := Run(h, isDir, steps).access;
      Has(a, MASK_KEY) <==> LeftBehind(isDir, steps, MASK_KEY) || HasNamed(a)
    decreases |steps|
  {
    hide Allowed, NextAccess, NextDefault, Strip, Withdrawn, ValidAcl, InRange, HasNamed;
    if steps == [] {
      NotInPlain(h, MASK_KEY);
      PlainHasNoNamed(h);
    } else {
      var before, s := steps[..|steps| - 1], steps[|steps| - 1];
      RunKeepsSound(h, isDir, before);
      RecordedIs(h, isDir, before);
      var r := Run(h, isDir, before);
      if Recorded(isDir, before).None? {
        MaskIsLeftBehind(h, isDir, before);
        if Writes(isDir, s) {
          AllowedIsDistinct(isDir, s.spec);
          MaskAfterCreate(r.access, s.spec);
        }
      } else if s.Destroy? {
        StripMaskIs(r.access, r.spec.value.entries, r.spec.value.exclusive);
      }
    }
  }

  lemma PlainHasNoNamed(h: Held)
    requires Plain(h)
    ensures !HasNamed(h.access)
  {}

  // ------------------------------------------------------------------------ the theorems

  /** The ACLs of a file without extended entries, and no resource. */
  ghost predicate Plain(h: Held)
  {
    && Canonical(h.access) && ValidAcl(h.access) && IsMinimal(h.access)
    && h.dflt.None? && h.spec.None?
  }

  lemma MinimalHas(a: Acl)
    requires Canonical(a) && ValidAcl(a)
    ensures IsMinimal(a) <==> forall k: Key :: Extended(k) ==> !Has(a, k)
  {
    if forall k: Key :: Extended(k) ==> !Has(a, k) {
      forall e | e in a ensures IsBase(e.tag) {
        GetIs(a, KeyOf(e));
        assert ValidEntry(e) && !(Extended(KeyOf(e)) && Has(a, KeyOf(e)));
      }
    }
    forall k: Key | Extended(k) && Has(a, k) ensures !IsMinimal(a) {
      GetIs(a, k);
    }
  }

  /** A run from plain permissions, through any creates, updates and destroys that each come
      as far as they come, ends with plain permissions and no resource, if and only if it
      ends destroyed and no entry was left behind. */
  lemma RunEndsPlain(h: Held, isDir: bool, steps: seq<Step>)
    requires Plain(h) && AllInRange(steps)
    ensures Plain(Run(h, isDir, steps)) <==> Recorded(isDir, steps).None? && NothingLeft(isDir, steps)
  {
    hide ValidAcl, IsMinimal, LeftBehind, Run, AllInRange, HasNamed;
    var r := Run(h, isDir, steps);
    PlainIsSound(h, isDir);
    RunKeepsSound(h, isDir, steps);
    RecordedIs(h, isDir, steps);
    MinimalHas(r.access);
    HasNamedIs(r.access);
    if r.spec.None? {
      MaskIsLeftBehind(h, isDir, steps);
      forall k: Key | Named(k.tag) ensures Has(r.access, k) <==> LeftBehind(isDir, steps, k) {
        StrayIsLeftBehind(h, isDir, steps, k);
        assert !Lists(r.spec, k);
      }
    }
  }

  lemma PlainIsSound(h: Held, isDir: bool)
    requires Plain(h)
    ensures Sound(h, isDir)
  {}

  /** Every base entry is the one written last, or the original: on every run, from any
      permissions. */
  lemma {:induction false} BaseIsLastWritten(h: Held, isDir: bool, steps: seq<Step>, k: Key)
    requires Sound(h, isDir) && AllInRange(steps) && IsBase(k.tag)
    ensures Get(Run(h, isDir, steps).access, k) == LastWritten(h.access, isDir, steps, k)
    decreases |steps|
  {
    hide Allowed, NextAccess, NextDefault, Strip, Withdrawn, ValidAcl, InRange;
    if steps != [] {
      var before, s := steps[..|steps| - 1], steps[|steps| - 1];
      BaseIsLastWritten(h, isDir, before, k);
      RunKeepsSound(h, isDir, before);
      var r := Run(h, isDir, before);
      if Writes(isDir, s) {
        AllowedIsDistinct(isDir, s.spec);
        NextAccessBase(r.access, r.spec, s.spec, k);
      } else if s.Destroy? && r.spec.Some? {
        StripGet(r.access, r.spec.value.entries, r.spec.value.exclusive, k);
      }
    }
  }

  /** The run leaves the file as it found it if and only if it ends destroyed, nothing was
      left behind, and every base entry written last was the original one. */
  lemma RunRestoresIff(h: Held, isDir: bool, steps: seq<Step>)
    requires Plain(h) && AllInRange(steps)
    ensures Run(h, isDir, steps) == h <==>
      && Recorded(isDir, steps).None? && NothingLeft(isDir, steps)
      && forall k: Key :: IsBase(k.tag) ==> LastWritten(h.access, isDir, steps, k) == Get(h.access, k)
  {
    hide ValidAcl, NothingLeft, Run, AllInRange, LastWritten, IsMinimal, Recorded;
    var r := Run(h, isDir, steps);
    RunEndsPlain(h, isDir, steps);
    PlainIsSound(h, isDir);
    forall k: Key | IsBase(k.tag) ensures Get(r.access, k) == LastWritten(h.access, isDir, steps, k) {
      BaseIsLastWritten(h, isDir, steps, k);
    }
    if Plain(r) && forall k: Key :: IsBase(k.tag) ==> Get(r.access, k) == Get(h.access, k) {
      SameBaseIsSame(r, h);
    }
  }

  lemma SameBaseIsSame(r: Held, h: Held)
    requires Plain(r) && Plain(h)
    requires forall k: Key :: IsBase(k.tag) ==> Get(r.access, k) == Get(h.access, k)
    ensures r == h
  {
    forall k ensures Get(r.access, k) == Get(h.access, k) {
      GetIs(r.access, k);
      GetIs(h.access, k);
    }
    SameEntriesIsEqual(r.access, h.access);
  }

  /** No create or update fails half-way: nothing is ever left behind. */
  lemma {:induction false} SteadyRunLeavesNothing(isDir: bool, steps: seq<Step>, k: Key)
    requires forall i :: 0 <= i < |steps| && steps[i].Attempt? ==> !steps[i].reach.AccessOnly?
    ensures !LeftBehind(isDir, steps, k)
    decreases |steps|
  {
    hide Allowed, Sweeps, Lists;
    if steps != [] {
      SteadyRunLeavesNothing(isDir, steps[..|steps| - 1], k);
    }
  }

  lemma {:induction false} NothingWritten(a: Acl, isDir: bool, steps: seq<Step>, k: Key)
    requires IsBase(k.tag)
    requires forall i :: 0 <= i < |steps| && steps[i].Attempt? ==> ExtendedOnly(steps[i].spec)
    ensures LastWritten(a, isDir, steps, k) == Get(a, k)
    decreases |steps|
  {
    hide Allowed;
    if steps != [] {
      var s := steps[|steps| - 1];
      NothingWritten(a, isDir, steps[..|steps| - 1], k);
      if s.Attempt? {
        GetIs(s.spec.entries, k);
      }
    }
  }

  /** Only named entries and masks are listed. */
  ghost predicate ExtendedOnly(spec: Spec)
  {
    forall e :: e in spec.entries ==> !IsBase(e.tag)
  }

  /** A run in which nothing fails half-way but destroys, that lists named entries and masks
      only, and ends destroyed, leaves the file as it found it. */
  lemma ExtendedRunRestores(h: Held, isDir: bool, steps: seq<Step>)
    requires Plain(h) && AllInRange(steps) && Recorded(isDir, steps).None?
    requires forall i :: 0 <= i < |steps| && steps[i].Attempt? ==>
               !steps[i].reach.AccessOnly? && ExtendedOnly(steps[i].spec)
    ensures Run(h, isDir, steps) == h
  {
    hide ExtendedOnly, Plain, AllInRange, Recorded, LeftBehind, Run, LastWritten;
    forall k ensures !LeftBehind(isDir, steps, k) {
      SteadyRunLeavesNothing(isDir, steps, k);
    }
    forall k: Key | IsBase(k.tag) ensures LastWritten(h.access, isDir, steps, k) == Get(h.access, k) {
      NothingWritten(h.access, isDir, steps, k);
    }
    RunRestoresIff(h, isDir, steps);
  }

  // ------------------------------------------------- what was left behind, without recursion

  ghost predicate Abandons(isDir: bool, steps: seq<Step>, j: nat, k: Key)
    requires j < |steps|
  {
    var s := steps[j];
    Writes(isDir, s) && k in Wanted(s.spec.entries) && s.reach.AccessOnly? && !Lists(Recorded(isDir, steps[..j]), k)
  }

  ghost predicate Cleans(isDir: bool, steps: seq<Step>, m: nat, k: Key)
    requires m < |steps|
  {
    var s := steps[m];
    || (Writes(isDir, s) && (k in Wanted(s.spec.entries) || s.spec.exclusive))
    || (s.Destroy? && !s.reach.Nothing? && Sweeps(Recorded(isDir, steps[..m]), k))
  }

  ghost predicate AbandonedAt(isDir: bool, steps: seq<Step>, j: nat, k: Key)
    requires j < |steps|
  {
    Abandons(isDir, steps, j, k) && forall m :: j < m < |steps| ==> !Cleans(isDir, steps, m, k)
  }

  /** An entry is left behind if and only if some step listed it, failed half-way and was
      not retried: no later step lists it or is exclusive. */
  lemma {:induction false} LeftBehindIs(isDir: bool, steps: seq<Step>, k: Key)
    ensures LeftBehind(isDir, steps, k) <==> exists j :: 0 <= j < |steps| && AbandonedAt(isDir, steps, j, k)
    decreases |steps|
  {
    hide Allowed, Sweeps, Lists, Recorded;
    if steps != [] {
      var n := |steps| - 1;
      var before := steps[..n];
      LeftBehindIs(isDir, before, k);
      forall j | 0 <= j < n
        ensures AbandonedAt(isDir, steps, j, k) <==> AbandonedAt(isDir, before, j, k) && !Cleans(isDir, steps, n, k)
      {
        AbandonedInPrefix(isDir, steps, j, k);
      }
      assert AbandonedAt(isDir, steps, n, k) <==> Abandons(isDir, steps, n, k);
    }
  }

  lemma AbandonedInPrefix(isDir: bool, steps: seq<Step>, j: nat, k: Key)
    requires j < |steps| - 1
    ensures var n := |steps| - 1;
      AbandonedAt(isDir, steps, j, k) <==> AbandonedAt(isDir, steps[..n], j, k) && !Cleans(isDir, steps, n, k)
  {
    hide Allowed, Sweeps, Lists, Recorded, Writes;
    var before := steps[..|steps| - 1];
    assert before[..j] == steps[..j];
    forall m: nat | m < |before| ensures Cleans(isDir, before, m, k) == Cleans(isDir, steps, m, k) {
      assert before[..m] == steps[..m];
    }
  }

  // ----------------------------------------------------------------------------- retries

  lemma DroppedIsNotWanted(before: seq<Entry>, want: seq<Entry>, k: Key)
    requires k in Wanted(Removed(before, want))
    ensures Named(k.tag) && k !in Wanted(want)
  {
    RemovedHas(before, want);
    var e :| e in Removed(before, want) && KeyOf(e) == k;
  }

  /** What was dropped is not there any more. */
  lemma NothingToStrip(access: Acl, before: seq<Entry>, want: seq<Entry>, exclusive: bool)
    requires Canonical(access) && DistinctKeys(want)
    ensures var drop := Removed(before, want);
      var next := Apply(StripListed(access, drop), want, exclusive);
      StripListed(next, drop) == next
  {
    hide Removed, Wanted, Apply, StripListed, Kept;
    var drop := Removed(before, want);
    var cur := StripListed(access, drop);
    StripListedGet(access, drop, MASK_KEY);
    var next := Apply(cur, want, exclusive);
    ApplyGet(cur, want, exclusive, MASK_KEY);
    StripListedGet(next, drop, MASK_KEY);
    forall k ensures Get(StripListed(next, drop), k) == Get(next, k) {
      StripListedGet(next, drop, k);
      if k in Wanted(drop) {
        DroppedIsNotWanted(before, want, k);
        StripListedGet(access, drop, k);
        ApplyGet(cur, want, exclusive, k);
        NotWantedIsNone(want, k);
        NothingKept(cur, k, exclusive);
      }
    }
    SameEntriesIsEqual(StripListed(next, drop), next);
  }

  lemma NotWantedIsNone(want: seq<Entry>, k: Key)
    requires k !in Wanted(want)
    ensures Get(want, k).None?
  {
    GetIs(want, k);
  }

  lemma NothingKept(cur: Acl, k: Key, exclusive: bool)
    requires Get(cur, k).None?
    ensures Kept(cur, k, exclusive).None?
  {}

  lemma NextAccessIsIdempotent(access: Acl, prev: Option<Spec>, spec: Spec)
    requires Canonical(access) && ValidAcl(access) && DistinctKeys(spec.entries)
    ensures NextAccess(NextAccess(access, prev, spec), prev, spec) == NextAccess(access, prev, spec)
  {
    hide Apply, StripListed, Removed, ValidAcl, DistinctKeys;
    var want, drop := spec.entries, Removed(Listing(prev), spec.entries);
    RemovedAreNamed(Listing(prev), want);
    StripListedIsValid(access, drop);
    ApplyIsIdempotent(StripListed(access, drop), want, spec.exclusive);
    NothingToStrip(access, Listing(prev), want, spec.exclusive);
  }

  /** Stripping twice is stripping once. */
  lemma StripIsIdempotent(cur: Acl, managed: seq<Entry>, exclusive: bool)
    requires Canonical(cur)
    ensures Strip(Strip(cur, managed, exclusive), managed, exclusive) == Strip(cur, managed, exclusive)
  {
    hide Strip;
    var once := Strip(cur, managed, exclusive);
    StripGet(cur, managed, exclusive, Key(USER_OBJ, 0));
    var twice := Strip(once, managed, exclusive);
    StripGet(once, managed, exclusive, Key(USER_OBJ, 0));
    forall k | k != MASK_KEY ensures Get(twice, k) == Get(once, k) {
      StripGet(cur, managed, exclusive, k);
      StripGet(once, managed, exclusive, k);
    }
    OffMaskDecidesGroupClass(twice, once);
    StripMaskIs(cur, managed, exclusive);
    StripMaskIs(once, managed, exclusive);
    SameEntriesIsEqual(twice, once);
  }

  /** A step that failed half-way and is tried again gives what the second try gives alone. */
  lemma RetryIsOnce(h: Held, isDir: bool, steps: seq<Step>, s: Step)
    requires Sound(h, isDir) && AllInRange(steps) && !s.reach.Nothing?
    ensures Run(h, isDir, steps + [s.(reach := AccessOnly), s]) == Run(h, isDir, steps + [s])
  {
    hide Sound, AllInRange, Applied, Destroyed;
    var half := s.(reach := AccessOnly);
    var all := steps + [half, s];
    assert all[..|all| - 1] == steps + [half];
    assert (steps + [half])[..|steps|] == steps && (steps + [s])[..|steps|] == steps;
    RunKeepsSound(h, isDir, steps);
    var r := Run(h, isDir, steps);
    if s.Attempt? {
      AppliedTwice(r, isDir, s.spec, s.reach);
    } else {
      DestroyedTwice(r, isDir, s.reach);
    }
  }

  lemma AppliedTwice(h: Held, isDir: bool, spec: Spec, reach: Reach)
    requires Sound(h, isDir) && !reach.Nothing?
    ensures Applied(Applied(h, isDir, spec, AccessOnly), isDir, spec, reach) == Applied(h, isDir, spec, reach)
  {
    hide NextAccess, NextDefault, ValidAcl;
    if Allowed(isDir, spec) {
      NextAccessIsIdempotent(h.access, h.spec, spec);
    }
  }

  lemma DestroyedTwice(h: Held, isDir: bool, reach: Reach)
    requires Sound(h, isDir) && !reach.Nothing?
    ensures Destroyed(Destroyed(h, isDir, AccessOnly), isDir, reach) == Destroyed(h, isDir, reach)
  {
    hide Strip, ValidAcl;
    if h.spec.Some? {
      StripIsIdempotent(h.access, h.spec.value.entries, h.spec.value.exclusive);
    }
  }

  /** A create, update or destroy that meets no failure comes through if it is not refused
      outright. */
  lemma InRangeIsAccepted(h: Held, isDir: bool, spec: Spec)
    requires Sound(h, isDir) && InRange(spec) && Allowed(isDir, spec)
    ensures var next := NextAccess(h.access, h.spec, spec);
      && AccessGoes(h.access, next, true)
      && DefaultGoes(h.dflt, NextDefault(h.dflt, next, h.spec, spec), Weather(true, true, true))
  {
    NextAccessIs(h.access, h.spec, spec);
    NextDefaultIs(h.dflt, NextAccess(h.access, h.spec, spec), h.spec, spec);
  }

  // -------------------------------------------------------------------- failing examples

  const EXAMPLE_ACL: Acl := [Entry(USER_OBJ, 0, 6), Entry(GROUP_OBJ, 0, 4), Entry(OTHER, 0, 4)]
  const EXAMPLE := Held(EXAMPLE_ACL, None, None)
  const FIRST := Spec([Entry(USER, 1001, 4)], None, false)
  const SECOND := Spec([Entry(USER, 1000, 7)], None, false)

  lemma ExampleIsPlain()
    ensures Plain(EXAMPLE) && Canonical(EXAMPLE_ACL)
    ensures forall isDir :: Allowed(isDir, FIRST) && Allowed(isDir, SECOND)
    ensures InRange(FIRST) && InRange(SECOND)
    ensures Key(USER, 1000) in Wanted(SECOND.entries) && Key(USER, 1000) !in Wanted(FIRST.entries)
  {
    var a := EXAMPLE_ACL;
    assert KeyOf(a[0]) == Key(USER_OBJ, 0) && KeyOf(a[1]) == Key(GROUP_OBJ, 0) && KeyOf(a[2]) == Key(OTHER, 0);
    GetOfDistinct(a, a[0]);
    GetOfDistinct(a, a[1]);
    GetOfDistinct(a, a[2]);
    assert KeyOf(SECOND.entries[0]) == Key(USER, 1000);
  }

  /** A create that failed half-way and is given up: nothing is recorded, and the destroy has
      nothing to take away. */
  lemma AbandonedCreateStays()
    ensures var steps := [Attempt(SECOND, AccessOnly), Destroy(Whole)];
      && Recorded(true, steps).None? && LeftBehind(true, steps, Key(USER, 1000))
      && Has(Run(EXAMPLE, true, steps).access, Key(USER, 1000)) && !Plain(Run(EXAMPLE, true, steps))
  {
    hide Allowed, InRange, Plain;
    ExampleIsPlain();
    var steps := [Attempt(SECOND, AccessOnly), Destroy(Whole)];
    var one := [Attempt(SECOND, AccessOnly)];
    assert steps[..1] == one && one[..0] == [];
    assert LeftBehind(true, one, Key(USER, 1000));
    StrayIsLeftBehind(EXAMPLE, true, steps, Key(USER, 1000));
    RunEndsPlain(EXAMPLE, true, steps);
  }

  /** An update that failed half-way and is given up: the old specification stays recorded,
      and the destroy takes away only what that one lists. */
  lemma AbandonedUpdateStays()
    ensures var steps := [Attempt(FIRST, Whole), Attempt(SECOND, AccessOnly), Destroy(Whole)];
      && Recorded(true, steps).None? && LeftBehind(true, steps, Key(USER, 1000))
      && Has(Run(EXAMPLE, true, steps).access, Key(USER, 1000)) && !Plain(Run(EXAMPLE, true, steps))
  {
    hide Allowed, InRange, Plain, Wanted;
    ExampleIsPlain();
    var steps := [Attempt(FIRST, Whole), Attempt(SECOND, AccessOnly), Destroy(Whole)];
    var one, two := [Attempt(FIRST, Whole)], [Attempt(FIRST, Whole), Attempt(SECOND, AccessOnly)];
    assert steps[..2] == two && two[..1] == one && one[..0] == [];
    assert Recorded(true, one) == Some(FIRST);
    assert Recorded(true, two) == Some(FIRST);
    assert LeftBehind(true, two, Key(USER, 1000));
    StrayIsLeftBehind(EXAMPLE, true, steps, Key(USER, 1000));
    RunEndsPlain(EXAMPLE, true, steps);
  }
}
