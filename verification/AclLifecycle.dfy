/** The life of a managed ACL (file_acl_resource.go): every create, any updates and
    the final destroy, on the access ACL and the default ACL of one file. */
module AclLifecycle {
  import opened Text
  import opened Acl
  import opened AclApply

  /** What the configuration asks for, with names already looked up. */
  datatype Spec = Spec(entries: seq<Entry>, defaults: Option<seq<Entry>>, exclusive: bool)

  // ------------------------------------------------------------ what is withdrawn

  predicate InKeys(keys: set<Key>, e: Entry) { KeyOf(e) in keys }

  function StripListed(a: Acl, drop: seq<Entry>): Acl
  {
    if drop == [] then a
    else var keys := Wanted(drop); Without(a, (e: Entry) => InKeys(keys, e))
  }

  predicate Goes(keys: set<Key>, exclusive: bool, e: Entry)
  {
    Named(e.tag) && (exclusive || KeyOf(e) in keys)
  }

  /** stripACLEntries: what is left once a resource's entries are gone. */
  function Strip(cur: Acl, managed: seq<Entry>, exclusive: bool): Acl
  {
    var keys := Wanted(managed);
    WithRecomputedMask(Without(cur, (e: Entry) => Goes(keys, exclusive, e)), false)
  }

  /** removedACLEntries: the named entries of `before` that `after` no longer lists. */
  function Removed(before: seq<Entry>, after: seq<Entry>): seq<Entry>
  {
    if before == [] then []
    else
      (if Named(before[0].tag) && KeyOf(before[0]) !in Wanted(after) then [before[0]] else [])
      + Removed(before[1..], after)
  }

  lemma {:induction false} RemovedHas(before: seq<Entry>, after: seq<Entry>)
    ensures forall e :: e in Removed(before, after)
                   <==> e in before && Named(e.tag) && KeyOf(e) !in Wanted(after)
  {
    if before != [] {
      RemovedHas(before[1..], after);
      assert before == [before[0]] + before[1..];
    }
  }

  predicate IsMinimal(a: Acl) { forall e :: e in a ==> IsBase(e.tag) }

  /** Every named entry of `a` is one that `want` lists. */
  ghost predicate NamedIn(a: Acl, want: seq<Entry>)
  {
    forall e :: e in a && Named(e.tag) ==> KeyOf(e) in Wanted(want)
  }

  // ----------------------------------------------------------------- one operation

  function Default<T>(o: Option<T>, none: T): T { if o.Some? then o.value else none }

  function Listing(prev: Option<Spec>): seq<Entry> { if prev.Some? then prev.value.entries else [] }

  function DefaultListing(prev: Option<Spec>): seq<Entry>
  {
    if prev.Some? then Default(prev.value.defaults, []) else []
  }

  function NextAccess(access: Acl, prev: Option<Spec>, spec: Spec): Acl
  {
    Apply(StripListed(access, Removed(Listing(prev), spec.entries)), spec.entries, spec.exclusive)
  }

  function Withdrawn(cur: Acl, managed: seq<Entry>, exclusive: bool): Option<Acl>
  {
    var next := Strip(cur, managed, exclusive);
    if IsMinimal(next) then None else Some(next)
  }

  /** The next default ACL of a directory whose next access ACL is `access`. */
  function NextDefault(cur: Option<Acl>, access: Acl, prev: Option<Spec>, spec: Spec): Option<Acl>
  {
    if spec.defaults.Some? then
      var want := spec.defaults.value;
      var start := if cur.Some? then cur.value else BaseEntries(access);
      Some(Apply(StripListed(start, Removed(DefaultListing(prev), want)), want, spec.exclusive))
    else if prev.Some? && prev.value.defaults.Some? && cur.Some? then
      Withdrawn(cur.value, prev.value.defaults.value, prev.value.exclusive)
    else cur
  }

  /** What is refused before anything is read: default entries for something that is
      not a directory, and two entries for the same user, group or class. */
  ghost predicate Allowed(isDir: bool, spec: Spec)
  {
    && (spec.defaults.Some? ==> isDir && DistinctKeys(spec.defaults.value))
    && DistinctKeys(spec.entries)
  }

  ghost predicate AllValid(want: seq<Entry>) { forall e :: e in want ==> ValidEntry(e) }

  /** Permissions and IDs are in range, as looking them up ensures. */
  ghost predicate InRange(spec: Spec)
  {
    AllValid(spec.entries) && (spec.defaults.Some? ==> AllValid(spec.defaults.value))
  }

  predicate SeenKey(want: seq<Entry>, n: nat, k: Key)
    requires n <= |want|
  {
    exists i :: 0 <= i < n && KeyOf(want[i]) == k
  }

  /** The duplicate check of resolveACLEntries. */
  method HasDuplicates(want: seq<Entry>) returns (dup: bool)
    ensures dup <==> !DistinctKeys(want)
  {
    var seen: set<Key> := {};
    for i := 0 to |want|
      invariant forall k :: k in seen <==> SeenKey(want, i, k)
      invariant forall m, n :: 0 <= m < n < i ==> KeyOf(want[m]) != KeyOf(want[n])
    {
      if KeyOf(want[i]) in seen {
        return true;
      }
      seen := seen + {KeyOf(want[i])};
    }
    dup := false;
  }

  // ------------------------------------------------------- what is in an ACL afterwards

  /** The entry before: a default ACL that is not there starts as the base entries of the
      access ACL. */
  function Start(cur: Option<Acl>, access: Acl, k: Key): Option<Entry>
  {
    if cur.Some? then Get(cur.value, k) else if IsBase(k.tag) then Get(access, k) else None
  }

  /** An entry that is not wanted goes: a named one or a mask if the ACL is exclusive, and a
      named one that was listed before. */
  ghost predicate IsDropped(listed: seq<Entry>, exclusive: bool, k: Key)
  {
    (exclusive && !IsBase(k.tag)) || (Named(k.tag) && k in Wanted(listed))
  }

  ghost function UnionMask(a: Acl): Option<Entry> { Some(Entry(MASK, 0, GroupPerm(a))) }

  /** The ACL has the wanted entries and, of what was there before, what does not go; its mask
      is the wanted one, or the union of the group class if there are named entries or there
      is a mask to keep. */
  ghost predicate HoldsWanted(next: Acl, cur: Option<Acl>, access: Acl, listed: seq<Entry>, want: seq<Entry>, exclusive: bool)
  {
    && (forall k :: k != MASK_KEY ==>
          Get(next, k) == if k in Wanted(want) then Get(want, k)
                          else if IsDropped(listed, exclusive, k) then None else Start(cur, access, k))
    && Get(next, MASK_KEY)
       == if MASK_KEY in Wanted(want) then Get(want, MASK_KEY)
          else if HasNamed(next) || (!exclusive && Start(cur, access, MASK_KEY).Some?) then UnionMask(next)
          else None
  }

  /** The ACL has lost the named entries that were listed, or all if it was exclusive, and has
      a mask only if there are others, the union of the group class. */
  ghost predicate HasLost(next: Acl, cur: Acl, managed: seq<Entry>, exclusive: bool)
  {
    && (forall k :: k != MASK_KEY ==>
          Get(next, k) == if Named(k.tag) && (exclusive || k in Wanted(managed)) then None else Get(cur, k))
    && Get(next, MASK_KEY) == if HasNamed(next) then UnionMask(next) else None
  }

  /** The default ACL is gone if that leaves no named entry, and else has lost them. */
  ghost predicate DefaultHasLost(next: Option<Acl>, cur: Acl, managed: seq<Entry>, exclusive: bool)
  {
    if forall k: Key :: Named(k.tag) && Get(cur, k).Some? ==> exclusive || k in Wanted(managed) then next == None
    else next.Some? && HasLost(next.value, cur, managed, exclusive)
  }

  /** What create and update leave in both ACLs. */
  ghost predicate HasSpec(access: Acl, dflt: Option<Acl>, isDir: bool, access0: Acl, dflt0: Option<Acl>,
                          prev: Option<Spec>, spec: Spec)
  {
    && HoldsWanted(access, Some(access0), access0, Listing(prev), spec.entries, spec.exclusive)
    && if spec.defaults.Some? then
         dflt.Some? && HoldsWanted(dflt.value, dflt0, access, DefaultListing(prev), spec.defaults.value, spec.exclusive)
       else if isDir && prev.Some? && prev.value.defaults.Some? && dflt0.Some? then
         DefaultHasLost(dflt, dflt0.value, prev.value.defaults.value, prev.value.exclusive)
       else dflt == dflt0
  }

  /** Neither ACL has drifted from what is wanted. */
  ghost predicate NoDrift(access: Acl, dflt: Option<Acl>, spec: Spec)
  {
    && Clean(access, spec.entries, spec.exclusive)
    && (spec.defaults.Some? ==> dflt.Some? && Clean(dflt.value, spec.defaults.value, spec.exclusive))
  }

  ghost predicate NormalAcls(access: Acl, dflt: Option<Acl>) { Normal(access) && (dflt.Some? ==> Normal(dflt.value)) }

  /** What the file system lets pass: the writes of both ACLs, and reading the default one. */
  datatype Weather = Weather(accessWrite: bool, dfltRead: bool, dfltWrite: bool)

  /** A new ACL takes effect: there is nothing to write, or the write is accepted. */
  ghost predicate AccessGoes(cur: Acl, next: Acl, passes: bool)
  {
    next == cur || (passes && ValidAcl(next))
  }

  ghost predicate DefaultGoes(cur: Option<Acl>, next: Option<Acl>, sky: Weather)
  {
    sky.dfltRead && (next == cur || (sky.dfltWrite && (next.Some? ==> ValidAcl(next.value))))
  }

  /** How far an operation comes before it fails. Only `Whole` is recorded. */
  datatype Reach = Nothing | AccessOnly | Whole

  /** A file's ACLs and the specification recorded for them. */
  datatype Held = Held(access: Acl, dflt: Option<Acl>, spec: Option<Spec>)

  /** One create or update: a refused one changes nothing, and after a failed one the old
      specification stays recorded, if there is one. */
  ghost function Applied(h: Held, isDir: bool, spec: Spec, reach: Reach): Held
  {
    if !Allowed(isDir, spec) || reach.Nothing? then h
    else
      var access := NextAccess(h.access, h.spec, spec);
      if reach.AccessOnly? then h.(access := access)
      else Held(access, if isDir then NextDefault(h.dflt, access, h.spec, spec) else h.dflt, Some(spec))
  }

  /** A destroy; without a resource there is nothing to do. */
  ghost function Destroyed(h: Held, isDir: bool, reach: Reach): Held
  {
    if h.spec.None? || reach.Nothing? then h
    else
      var s := h.spec.value;
      var access := Strip(h.access, s.entries, s.exclusive);
      if reach.AccessOnly? then h.(access := access)
      else Held(access,
                if s.defaults.None? || !isDir || h.dflt.None? then h.dflt
                else Withdrawn(h.dflt.value, s.defaults.value, s.exclusive),
                None)
  }

  /** A file or directory with its access and default ACL. */
  class AclFile {
    const isDir: bool
    var access: Acl
    var dflt: Option<Acl>

    ghost predicate Valid()
      reads this
    {
      && Canonical(access) && ValidAcl(access)
      && (dflt.Some? ==> isDir && Canonical(dflt.value) && ValidAcl(dflt.value))
    }

    method Write(next: Acl, passes: bool) returns (ok: bool)
      requires Canonical(next) && Valid()
      modifies this`access
      ensures Valid()
      ensures ok <==> passes && ValidAcl(next)
      ensures access == if ok then next else old(access)
    {
      ok := Validate(next);
      ok := ok && passes;
      if ok {
        access := next;
      }
    }

    method WriteDefault(next: Option<Acl>, passes: bool) returns (ok: bool)
      requires isDir && Valid() && (next.Some? ==> Canonical(next.value))
      modifies this`dflt
      ensures Valid()
      ensures ok <==> passes && (next.None? || ValidAcl(next.value))
      ensures dflt == if ok then next else old(dflt)
    {
      ok := true;
      if next.Some? {
        ok := Validate(next.value);
      }
      ok := ok && passes;
      if ok {
        dflt := next;
      }
    }

    /** The access ACL is replaced unless it is equal. */
    method Replace(next: Acl, passes: bool) returns (ok: bool)
      requires Canonical(next) && Valid()
      modifies this`access
      ensures Valid()
      ensures ok <==> AccessGoes(old(access), next, passes)
      ensures access == if ok then next else old(access)
    {
      SortedOfCanonical(next);
      SortedOfCanonical(access);
      ok := true;
      if !Equal(next, access) {
        ok := Write(next, passes);
      }
    }

    /** Create and Update. The file is as after a step that came this far. */
    method Apply(prev: Option<Spec>, spec: Spec, sky: Weather) returns (ok: bool, ghost reach: Reach)
      requires Valid()
      modifies this
      ensures Valid()
      ensures Held(access, dflt, if ok then Some(spec) else prev)
           == Applied(Held(old(access), old(dflt), prev), isDir, spec, reach)
      ensures ok <==>
                && Allowed(isDir, spec)
                && var next := NextAccess(old(access), prev, spec);
                   && AccessGoes(old(access), next, sky.accessWrite)
                   && (isDir ==> DefaultGoes(old(dflt), NextDefault(old(dflt), next, prev, spec), sky))
      ensures reach.Whole? <==> ok
      ensures reach.AccessOnly? ==> isDir
      ensures ok ==> HasSpec(access, dflt, isDir, old(access), old(dflt), prev, spec)
      ensures ok && NormalAcls(old(access), old(dflt)) && NormalSpec(spec) ==> NoDrift(access, dflt, spec)
    {
      hide ValidAcl, NextAccess, DistinctKeys, NoDrift, HasSpec, NormalAcls, NormalSpec, NextDefault;
      ghost var a0, d0 := access, dflt;
      reach := Nothing;
      if spec.defaults.Some? && !isDir {
        return false, reach;
      }
      var dup := HasDuplicates(spec.entries);
      if dup {
        return false, reach;
      }
      if spec.defaults.Some? {
        dup := HasDuplicates(spec.defaults.value);
        if dup {
          return false, reach;
        }
      }
      NextAccessIs(access, prev, spec);
      var next := NextAccess(access, prev, spec);
      ok := Replace(next, sky.accessWrite);
      if !ok {
        return;
      }
      if isDir {
        ok := ApplyDefault(next, prev, spec, sky);
      }
      reach := if ok then Whole else AccessOnly;
      if ok {
        NextHasSpec(a0, d0, isDir, prev, spec);
        NextHasNoDrift(a0, d0, isDir, prev, spec);
      }
    }

    /** The second half of Create and Update. */
    method ApplyDefault(next: Acl, prev: Option<Spec>, spec: Spec, sky: Weather) returns (ok: bool)
      requires Valid() && isDir && next == access && (spec.defaults.Some? ==> DistinctKeys(spec.defaults.value))
      modifies this`dflt
      ensures Valid()
      ensures ok <==> DefaultGoes(old(dflt), NextDefault(old(dflt), next, prev, spec), sky)
      ensures dflt == if ok then NextDefault(old(dflt), next, prev, spec) else old(dflt)
    {
      if !sky.dfltRead {
        return false;
      }
      NextDefaultIs(dflt, next, prev, spec);
      if spec.defaults.None? && !(prev.Some? && prev.value.defaults.Some? && dflt.Some?) {
        return true;
      }
      var nextDefault := NextDefault(dflt, next, prev, spec);
      ok := ReplaceDefault(nextDefault, sky.dfltWrite);
    }

    /** The default ACL is replaced unless it is equal. */
    method ReplaceDefault(next: Option<Acl>, passes: bool) returns (ok: bool)
      requires isDir && Valid() && (next.Some? ==> Canonical(next.value)) && (next.None? ==> dflt.Some?)
      modifies this`dflt
      ensures Valid()
      ensures ok <==> next == old(dflt) || (passes && (next.Some? ==> ValidAcl(next.value)))
      ensures dflt == if ok then next else old(dflt)
    {
      if next.Some? && dflt.Some? {
        SortedOfCanonical(next.value);
        SortedOfCanonical(dflt.value);
        if Equal(next.value, dflt.value) {
          return true;
        }
      }
      ok := WriteDefault(next, passes);
    }

    /** Delete. */
    method Delete(spec: Spec, sky: Weather) returns (ok: bool, ghost reach: Reach)
      requires Valid()
      modifies this
      ensures Valid()
      ensures Held(access, dflt, if ok then None else Some(spec))
           == Destroyed(Held(old(access), old(dflt), Some(spec)), isDir, reach)
      ensures ok <==>
                && AccessGoes(old(access), Strip(old(access), spec.entries, spec.exclusive), sky.accessWrite)
                && (spec.defaults.Some? && isDir ==> sky.dfltRead)
                && (spec.defaults.Some? && isDir && old(dflt).Some? ==>
                      DefaultGoes(old(dflt), Withdrawn(old(dflt).value, spec.defaults.value, spec.exclusive), sky))
      ensures reach.Whole? <==> ok
      ensures reach.AccessOnly? ==> isDir && spec.defaults.Some?
      ensures ok ==> HasLost(access, old(access), spec.entries, spec.exclusive)
      ensures ok ==> if spec.defaults.Some? && isDir && old(dflt).Some?
                     then DefaultHasLost(dflt, old(dflt).value, spec.defaults.value, spec.exclusive)
                     else dflt == old(dflt)
    {
      hide Strip, ValidAcl, HasLost, DefaultHasLost;
      StrippedHasLost(access, spec.entries, spec.exclusive);
      if spec.defaults.Some? && dflt.Some? {
        WithdrawnHasLost(dflt.value, spec.defaults.value, spec.exclusive);
      }
      reach := Nothing;
      StripIsValid(access, spec.entries, spec.exclusive);
      var next := Strip(access, spec.entries, spec.exclusive);
      ok := Replace(next, sky.accessWrite);
      if !ok {
        return;
      }
      reach := Whole;
      if spec.defaults.None? || !isDir {
        return;
      }
      if !sky.dfltRead {
        return false, AccessOnly;
      }
      if dflt.None? {
        return;
      }
      StripIsValid(dflt.value, spec.defaults.value, spec.exclusive);
      next := Strip(dflt.value, spec.defaults.value, spec.exclusive);
      ok := ReplaceDefault(if IsMinimal(next) then None else Some(next), sky.dfltWrite);
      reach := if ok then Whole else AccessOnly;
    }
  }

  // ------------------------------------------------------------- facts about the steps

  lemma StripListedGet(a: Acl, drop: seq<Entry>, k: Key)
    requires Canonical(a)
    ensures Canonical(StripListed(a, drop))
    ensures Get(StripListed(a, drop), k) == if k in Wanted(drop) then None else Get(a, k)
  {
    if drop != [] {
      var keys := Wanted(drop);
      WithoutCanonical(a, (e: Entry) => InKeys(keys, e));
      WithoutGet(a, (e: Entry) => InKeys(keys, e), k);
      GetIs(a, k);
    }
  }

  lemma CompleteLike(a: Acl, b: Acl)
    requires Complete(a) && DistinctKeys(a)
    requires forall k: Key :: !Named(k.tag) ==> Get(b, k) == Get(a, k)
    requires forall e :: e in b ==> e in a
    ensures Complete(b)
  {}

  lemma RemovedAreNamed(before: seq<Entry>, after: seq<Entry>)
    ensures forall k :: k in Wanted(Removed(before, after)) ==> Named(k.tag)
  {}

  lemma StripListedIsValid(a: Acl, drop: seq<Entry>)
    requires Canonical(a) && ValidAcl(a)
    requires forall k :: k in Wanted(drop) ==> Named(k.tag)
    ensures Canonical(StripListed(a, drop)) && ValidAcl(StripListed(a, drop))
    ensures forall e :: e in StripListed(a, drop) ==> e in a && KeyOf(e) !in Wanted(drop)
  {
    var b := StripListed(a, drop);
    var keys := Wanted(drop);
    WithoutHas(a, (e: Entry) => InKeys(keys, e));
    forall k: Key ensures !Named(k.tag) ==> Get(b, k) == Get(a, k) {
      StripListedGet(a, drop, k);
    }
    StripListedGet(a, drop, MASK_KEY);
    CanonicalIsDistinct(b);
    CompleteLike(a, b);
  }

  lemma NextAccessIs(access: Acl, prev: Option<Spec>, spec: Spec)
    requires Canonical(access) && ValidAcl(access) && DistinctKeys(spec.entries)
    ensures Canonical(NextAccess(access, prev, spec))
    ensures AllValid(spec.entries) ==> ValidAcl(NextAccess(access, prev, spec))
  {
    var drop := Removed(Listing(prev), spec.entries);
    RemovedAreNamed(Listing(prev), spec.entries);
    StripListedIsValid(access, drop);
    ApplyGet(StripListed(access, drop), spec.entries, spec.exclusive, MASK_KEY);
    if AllValid(spec.entries) {
      ApplyIsValid(StripListed(access, drop), spec.entries, spec.exclusive);
    }
  }

  lemma BaseEntriesAreValid(a: Acl)
    requires Canonical(a) && ValidAcl(a)
    ensures Canonical(BaseEntries(a)) && ValidAcl(BaseEntries(a)) && IsMinimal(BaseEntries(a))
  {
    var b := BaseEntries(a);
    WithoutHas(a, NotBase);
    WithoutCanonical(a, NotBase);
    CanonicalIsDistinct(b);
    WithoutGet(a, NotBase, Key(USER_OBJ, 0));
    WithoutGet(a, NotBase, Key(GROUP_OBJ, 0));
    WithoutGet(a, NotBase, Key(OTHER, 0));
    GetIs(a, Key(USER_OBJ, 0));
    GetIs(a, Key(GROUP_OBJ, 0));
    GetIs(a, Key(OTHER, 0));
  }

  lemma StripGet(cur: Acl, managed: seq<Entry>, exclusive: bool, k: Key)
    requires Canonical(cur) && k != MASK_KEY
    ensures Canonical(Strip(cur, managed, exclusive))
    ensures Get(Strip(cur, managed, exclusive), k)
         == if Named(k.tag) && (exclusive || k in Wanted(managed)) then None else Get(cur, k)
  {
    var keys := Wanted(managed);
    var goes := (e: Entry) => Goes(keys, exclusive, e);
    WithoutCanonical(cur, goes);
    WithoutGet(cur, goes, k);
    GetIs(cur, k);
    WithRecomputedMaskGet(Without(cur, goes), false, k);
  }

  lemma SetHas(a: Acl, e: Entry, x: Entry)
    requires Canonical(a) && x in Set(a, e)
    ensures x in a || x == e
  {
    SetGet(a, e, KeyOf(x));
    CanonicalIsDistinct(Set(a, e));
    GetOfDistinct(Set(a, e), x);
    GetIs(a, KeyOf(x));
  }

  lemma StripHas(cur: Acl, managed: seq<Entry>, exclusive: bool, e: Entry)
    requires Canonical(cur) && (forall x :: x in cur ==> ValidEntry(x))
    requires e in Strip(cur, managed, exclusive)
    ensures ValidEntry(e)
    ensures !IsMask(e) ==> e in cur && !Goes(Wanted(managed), exclusive, e)
  {
    var keys := Wanted(managed);
    var goes := (x: Entry) => Goes(keys, exclusive, x);
    var w := Without(cur, goes);
    WithoutHas(cur, goes);
    WithoutCanonical(cur, goes);
    WithoutHas(w, IsMask);
    GroupPermInRange(w);
    if NeedsMask(w, false) {
      SetHas(w, MaskFor(w), e);
    }
  }

  lemma StripMask(cur: Acl, managed: seq<Entry>, exclusive: bool)
    requires Canonical(cur) && HasNamed(Strip(cur, managed, exclusive))
    ensures Get(Strip(cur, managed, exclusive), MASK_KEY).Some?
  {
    var keys := Wanted(managed);
    var goes := (x: Entry) => Goes(keys, exclusive, x);
    var w := Without(cur, goes);
    WithoutCanonical(cur, goes);
    WithRecomputedMaskGet(w, false, MASK_KEY);
    WithoutHas(w, IsMask);
  }

  lemma StripIsValid(cur: Acl, managed: seq<Entry>, exclusive: bool)
    requires Canonical(cur) && ValidAcl(cur)
    ensures Canonical(Strip(cur, managed, exclusive)) && ValidAcl(Strip(cur, managed, exclusive))
  {
    var next := Strip(cur, managed, exclusive);
    StripGet(cur, managed, exclusive, Key(USER_OBJ, 0));
    StripGet(cur, managed, exclusive, Key(GROUP_OBJ, 0));
    StripGet(cur, managed, exclusive, Key(OTHER, 0));
    CanonicalIsDistinct(next);
    forall e | e in next ensures ValidEntry(e) { StripHas(cur, managed, exclusive, e); }
    if HasNamed(next) {
      StripMask(cur, managed, exclusive);
    }
  }

  lemma NextDefaultIs(cur: Option<Acl>, access: Acl, prev: Option<Spec>, spec: Spec)
    requires Canonical(access) && ValidAcl(access)
    requires cur.Some? ==> Canonical(cur.value) && ValidAcl(cur.value)
    requires spec.defaults.Some? ==> DistinctKeys(spec.defaults.value)
    ensures var next := NextDefault(cur, access, prev, spec);
      next.Some? ==> && Canonical(next.value)
                     && (InRange(spec) ==> ValidAcl(next.value))
  {
    if spec.defaults.Some? {
      var want := spec.defaults.value;
      BaseEntriesAreValid(access);
      var start := if cur.Some? then cur.value else BaseEntries(access);
      NextAccessIs(start, Some(Spec(DefaultListing(prev), None, false)), Spec(want, None, spec.exclusive));
    } else if prev.Some? && prev.value.defaults.Some? && cur.Some? {
      StripIsValid(cur.value, prev.value.defaults.value, prev.value.exclusive);
    }
  }

  // ------------------------------------------------------------- what the steps leave

  lemma StartIsBase(cur: Option<Acl>, access: Acl, k: Key)
    requires Canonical(access) && (cur.Some? ==> Canonical(cur.value))
    ensures var start := if cur.Some? then cur.value else BaseEntries(access);
      Canonical(start) && Get(start, k) == Start(cur, access, k)
  {
    WithoutCanonical(access, NotBase);
    WithoutGet(access, NotBase, k);
    GetIs(access, k);
  }

  lemma RemovedKeys(before: seq<Entry>, after: seq<Entry>, k: Key)
    ensures k in Wanted(Removed(before, after)) <==> Named(k.tag) && k in Wanted(before) && k !in Wanted(after)
  {
    RemovedHas(before, after);
    if Named(k.tag) && k in Wanted(before) && k !in Wanted(after) {
      var e :| e in before && KeyOf(e) == k;
      assert e in Removed(before, after);
    }
  }

  lemma WantedIs(want: seq<Entry>, k: Key)
    ensures Get(want, k).Some? <==> k in Wanted(want)
  {
    GetIs(want, k);
  }

  lemma AppliedOffMask(start: Acl, listed: seq<Entry>, want: seq<Entry>, exclusive: bool, k: Key)
    requires Canonical(start) && DistinctKeys(want) && k != MASK_KEY
    ensures Get(Apply(StripListed(start, Removed(listed, want)), want, exclusive), k)
         == if k in Wanted(want) then Get(want, k) else if IsDropped(listed, exclusive, k) then None else Get(start, k)
  {
    var drop := Removed(listed, want);
    StripListedGet(start, drop, k);
    RemovedKeys(listed, want, k);
    ApplyGet(StripListed(start, drop), want, exclusive, k);
    WantedIs(want, k);
  }

  lemma AppliedMask(start: Acl, listed: seq<Entry>, want: seq<Entry>, exclusive: bool)
    requires Canonical(start) && DistinctKeys(want)
    ensures var next := Apply(StripListed(start, Removed(listed, want)), want, exclusive);
      Get(next, MASK_KEY)
      == if MASK_KEY in Wanted(want) then Get(want, MASK_KEY)
         else if HasNamed(next) || (!exclusive && Get(start, MASK_KEY).Some?) then UnionMask(next) else None
  {
    hide Apply, Merged, StripListed, Removed, Wanted, DistinctKeys, HasNamed, GroupPerm;
    var drop := Removed(listed, want);
    var cur := StripListed(start, drop);
    StripListedGet(start, drop, MASK_KEY);
    RemovedKeys(listed, want, MASK_KEY);
    ApplyGet(cur, want, exclusive, MASK_KEY);
    MergedGet(cur, want, exclusive, MASK_KEY);
    ApplyOffMask(cur, want, exclusive);
    OffMaskDecidesGroupClass(Apply(cur, want, exclusive), Merged(cur, want, exclusive));
    WantedIs(want, MASK_KEY);
  }

  /** Setting the wanted entries on what is left of the old ones gives exactly that. */
  lemma AppliedHolds(cur: Option<Acl>, access: Acl, listed: seq<Entry>, want: seq<Entry>, exclusive: bool)
    requires Canonical(access) && (cur.Some? ==> Canonical(cur.value)) && DistinctKeys(want)
    ensures var start := if cur.Some? then cur.value else BaseEntries(access);
      HoldsWanted(Apply(StripListed(start, Removed(listed, want)), want, exclusive), cur, access, listed, want, exclusive)
  {
    hide Apply, StripListed, Removed, Wanted, DistinctKeys, IsDropped, BaseEntries, UnionMask, HasNamed, Start;
    var start := if cur.Some? then cur.value else BaseEntries(access);
    StartIsBase(cur, access, MASK_KEY);
    var next := Apply(StripListed(start, Removed(listed, want)), want, exclusive);
    AppliedMask(start, listed, want, exclusive);
    forall k | k != MASK_KEY
      ensures Get(next, k) == if k in Wanted(want) then Get(want, k)
                              else if IsDropped(listed, exclusive, k) then None else Start(cur, access, k)
    {
      StartIsBase(cur, access, k);
      AppliedOffMask(start, listed, want, exclusive, k);
    }
  }

  /** The mask of what is left is that of its own group class. */
  lemma StripMaskIs(cur: Acl, managed: seq<Entry>, exclusive: bool)
    requires Canonical(cur)
    ensures var next := Strip(cur, managed, exclusive);
      Get(next, MASK_KEY) == if HasNamed(next) then UnionMask(next) else None
  {
    hide HasNamed;
    var keys := Wanted(managed);
    var w := Without(cur, (e: Entry) => Goes(keys, exclusive, e));
    var next := Strip(cur, managed, exclusive);
    WithoutCanonical(cur, (e: Entry) => Goes(keys, exclusive, e));
    WithRecomputedMaskGet(w, false, MASK_KEY);
    forall k | k != MASK_KEY ensures Get(next, k) == Get(w, k) {
      WithRecomputedMaskGet(w, false, k);
    }
    OffMaskDecidesGroupClass(next, w);
  }

  lemma StrippedHasLost(cur: Acl, managed: seq<Entry>, exclusive: bool)
    requires Canonical(cur)
    ensures HasLost(Strip(cur, managed, exclusive), cur, managed, exclusive)
  {
    hide Strip, Wanted, HasNamed, UnionMask;
    StripMaskIs(cur, managed, exclusive);
    forall k | k != MASK_KEY
      ensures Get(Strip(cur, managed, exclusive), k)
           == if Named(k.tag) && (exclusive || k in Wanted(managed)) then None else Get(cur, k)
    {
      StripGet(cur, managed, exclusive, k);
    }
  }

  lemma WithdrawnHasLost(cur: Acl, managed: seq<Entry>, exclusive: bool)
    requires Canonical(cur) && ValidAcl(cur)
    ensures DefaultHasLost(Withdrawn(cur, managed, exclusive), cur, managed, exclusive)
  {
    hide Strip, Wanted, ValidAcl;
    StrippedHasLost(cur, managed, exclusive);
    StripIsValid(cur, managed, exclusive);
    MinimalIs(Strip(cur, managed, exclusive));
    forall k: Key | Named(k.tag)
      ensures Get(Strip(cur, managed, exclusive), k).Some?
         <==> Get(cur, k).Some? && !(exclusive || k in Wanted(managed))
    {
      MaskKeyIsNotNamed(k);
    }
  }

  lemma MaskKeyIsNotNamed(k: Key)
    requires Named(k.tag)
    ensures k != MASK_KEY
  {}

  lemma MinimalIs(a: Acl)
    requires ValidAcl(a) && Get(a, MASK_KEY) == if HasNamed(a) then UnionMask(a) else None
    ensures IsMinimal(a) <==> forall k: Key :: Named(k.tag) ==> Get(a, k).None?
  {
    forall e | e in a && !IsBase(e.tag) ensures HasNamed(a) {
      assert ValidEntry(e);
      GetIs(a, MASK_KEY);
      MaskKeyIs(e);
    }
    if HasNamed(a) {
      var e :| e in a && Named(e.tag);
      GetIs(a, KeyOf(e));
    }
    forall k: Key | Named(k.tag) && Get(a, k).Some? ensures !IsMinimal(a) {
      GetIs(a, k);
    }
  }

  // ----------------------------------------------------------------------- no drift

  ghost predicate NormalSpec(spec: Spec)
  {
    Normal(spec.entries) && (spec.defaults.Some? ==> Normal(spec.defaults.value))
  }

  lemma AppliedIsNormal(cur: Acl, want: seq<Entry>, exclusive: bool)
    requires Canonical(cur) && Normal(cur) && Normal(want) && DistinctKeys(want)
    ensures Normal(Apply(cur, want, exclusive))
  {
    hide Apply, Normal;
    var next := Apply(cur, want, exclusive);
    ApplyGet(cur, want, exclusive, MASK_KEY);
    CanonicalIsDistinct(next);
    forall e | e in next && !Named(e.tag) ensures e.id == 0 {
      var k := KeyOf(e);
      GetOfDistinct(next, e);
      ApplyGet(cur, want, exclusive, k);
      GetIs(want, k);
      GetIs(cur, k);
      NormalAt(want, e);
      NormalAt(cur, e);
    }
    NormalIs(next);
  }

  lemma NormalAt(a: Acl, e: Entry)
    requires Normal(a)
    ensures e in a && !Named(e.tag) ==> e.id == 0
  {}

  lemma NormalIs(a: Acl)
    requires forall e :: e in a && !Named(e.tag) ==> e.id == 0
    ensures Normal(a)
  {}

  /** An ACL that was just set has not drifted. */
  lemma AppliedIsClean(start: Acl, drop: seq<Entry>, want: seq<Entry>, exclusive: bool)
    requires Canonical(start) && ValidAcl(start) && Normal(start) && Normal(want) && DistinctKeys(want)
    requires (forall k :: k in Wanted(drop) ==> Named(k.tag))
    requires ValidAcl(Apply(StripListed(start, drop), want, exclusive))
    ensures Clean(Apply(StripListed(start, drop), want, exclusive), want, exclusive)
  {
    hide Apply, ValidAcl, DistinctKeys, Clean, Normal, StripListed;
    var cur := StripListed(start, drop);
    StripListedIsValid(start, drop);
    SubsetIsNormal(cur, start);
    var next := Apply(cur, want, exclusive);
    AppliedIsNormal(cur, want, exclusive);
    ApplyGet(cur, want, exclusive, MASK_KEY);
    ApplyIsIdempotent(cur, want, exclusive);
    CleanIffApplyChangesNothing(next, want, exclusive);
    EqualIsReflexive(next);
  }

  lemma NextHasSpec(access: Acl, dflt: Option<Acl>, isDir: bool, prev: Option<Spec>, spec: Spec)
    requires Canonical(access) && ValidAcl(access) && Allowed(isDir, spec)
    requires dflt.Some? ==> isDir && Canonical(dflt.value) && ValidAcl(dflt.value)
    ensures var next := NextAccess(access, prev, spec);
      HasSpec(next, if isDir then NextDefault(dflt, next, prev, spec) else dflt, isDir, access, dflt, prev, spec)
  {
    hide HoldsWanted, DefaultHasLost, Apply, StripListed, Removed, BaseEntries, ValidAcl, Withdrawn;
    AppliedHolds(Some(access), access, Listing(prev), spec.entries, spec.exclusive);
    NextAccessIs(access, prev, spec);
    var next := NextAccess(access, prev, spec);
    if spec.defaults.Some? {
      AppliedHolds(dflt, next, DefaultListing(prev), spec.defaults.value, spec.exclusive);
    } else if prev.Some? && prev.value.defaults.Some? && dflt.Some? {
      WithdrawnHasLost(dflt.value, prev.value.defaults.value, prev.value.exclusive);
    }
  }

  lemma NextHasNoDrift(access: Acl, dflt: Option<Acl>, isDir: bool, prev: Option<Spec>, spec: Spec)
    requires Canonical(access) && ValidAcl(access) && Allowed(isDir, spec)
    requires dflt.Some? ==> isDir && Canonical(dflt.value) && ValidAcl(dflt.value)
    ensures var next := NextAccess(access, prev, spec);
      var nextDefault := if isDir then NextDefault(dflt, next, prev, spec) else dflt;
      && ValidAcl(next) && (nextDefault.Some? ==> ValidAcl(nextDefault.value))
      && NormalAcls(access, dflt) && NormalSpec(spec)
      ==> NoDrift(next, nextDefault, spec)
  {
    hide Clean, Apply, StripListed, Removed, BaseEntries, ValidAcl, Withdrawn, DistinctKeys;
    NextAccessIs(access, prev, spec);
    var next := NextAccess(access, prev, spec);
    if ValidAcl(next) && NormalAcls(access, dflt) && NormalSpec(spec) {
      RemovedAreNamed(Listing(prev), spec.entries);
      AppliedIsClean(access, Removed(Listing(prev), spec.entries), spec.entries, spec.exclusive);
      if spec.defaults.Some? && ValidAcl(NextDefault(dflt, next, prev, spec).value) {
        BaseEntriesAreValid(next);
        NextIsNormal(access, prev, spec);
        BaseIsNormal(next);
        var want := spec.defaults.value;
        RemovedAreNamed(DefaultListing(prev), want);
        AppliedIsClean(if dflt.Some? then dflt.value else BaseEntries(next), Removed(DefaultListing(prev), want), want, spec.exclusive);
      }
    }
  }

  lemma NextIsNormal(access: Acl, prev: Option<Spec>, spec: Spec)
    requires Canonical(access) && ValidAcl(access) && Normal(access) && NormalSpec(spec) && DistinctKeys(spec.entries)
    ensures Normal(NextAccess(access, prev, spec))
  {
    hide Apply, StripListed, Removed, ValidAcl, DistinctKeys, Normal;
    var drop := Removed(Listing(prev), spec.entries);
    RemovedAreNamed(Listing(prev), spec.entries);
    StripListedIsValid(access, drop);
    SubsetIsNormal(StripListed(access, drop), access);
    AppliedIsNormal(StripListed(access, drop), spec.entries, spec.exclusive);
  }

  lemma BaseIsNormal(a: Acl)
    requires Normal(a)
    ensures Normal(BaseEntries(a))
  {
    WithoutHas(a, NotBase);
  }

  lemma SubsetIsNormal(a: Acl, b: Acl)
    requires Normal(b) && forall e :: e in a ==> e in b
    ensures Normal(a)
  {}

  lemma EqualIsReflexive(a: Acl)
    ensures Equal(a, a)
  {}
}
