/** What applying, checking and withdrawing ACL entries does (acl.go): the mask,
    applyACLEntries, aclDrift, stripACLEntries and validate. */
module AclApply {
  import opened Text
  import opened Acl

  // ---------------------------------------------------------------------- the mask

  predicate HasNamed(a: Acl) { exists e :: e in a && Named(e.tag) }

  predicate InGroupClass(e: Entry) { Named(e.tag) || e.tag == GROUP_OBJ }

  predicate Bit(p: nat, i: nat)
  {
    if i == 0 then p % 2 == 1 else Bit(p / 2, i - 1)
  }

  function Or(x: nat, y: nat): nat
    decreases x + y
  {
    if x == 0 && y == 0 then 0
    else 2 * Or(x / 2, y / 2) + (if x % 2 == 1 || y % 2 == 1 then 1 else 0)
  }

  function GroupPerm(a: Acl): nat
  {
    if a == [] then 0
    else if InGroupClass(a[0]) then Or(a[0].perm, GroupPerm(a[1..]))
    else GroupPerm(a[1..])
  }

  lemma {:induction false} NoBits(i: nat)
    ensures !Bit(0, i)
  {
    if 0 < i {
      NoBits(i - 1);
    }
  }

  lemma OrHalves(x: nat, y: nat)
    ensures Or(x, y) / 2 == Or(x / 2, y / 2)
    ensures Or(x, y) % 2 == 1 <==> x % 2 == 1 || y % 2 == 1
  {}

  lemma {:induction false} OrBits(x: nat, y: nat, i: nat)
    ensures Bit(Or(x, y), i) <==> Bit(x, i) || Bit(y, i)
    decreases i
  {
    if x == 0 && y == 0 {
      NoBits(i);
    } else {
      OrHalves(x, y);
      if 0 < i {
        OrBits(x / 2, y / 2, i - 1);
      }
    }
  }

  /** The computed mask grants exactly what some entry of the group class grants. */
  lemma {:induction false} GroupPermIsUnion(a: Acl, i: nat)
    ensures Bit(GroupPerm(a), i) <==> exists e :: e in a && InGroupClass(e) && Bit(e.perm, i)
  {
    if a == [] {
      NoBits(i);
    } else {
      GroupPermIsUnion(a[1..], i);
      assert a == [a[0]] + a[1..];
      if InGroupClass(a[0]) {
        OrBits(a[0].perm, GroupPerm(a[1..]), i);
      }
    }
  }

  lemma OrOfPerms(x: nat, y: nat)
    requires x <= PERM_ALL && y <= PERM_ALL
    ensures Or(x, y) <= PERM_ALL
  {
    OrHalves(x, y);
    OrHalves(x / 2, y / 2);
    OrHalves(x / 2 / 2, y / 2 / 2);
    assert Or(0, 0) == 0;
  }

  lemma {:induction false} GroupPermInRange(a: Acl)
    requires forall e :: e in a ==> e.perm <= PERM_ALL
    ensures GroupPerm(a) <= PERM_ALL
  {
    if a != [] {
      GroupPermInRange(a[1..]);
      if InGroupClass(a[0]) {
        OrOfPerms(a[0].perm, GroupPerm(a[1..]));
      }
    }
  }

  predicate IsMask(e: Entry) { e.tag == MASK }

  lemma {:induction false} GroupPermWithoutMask(a: Acl)
    ensures GroupPerm(Without(a, IsMask)) == GroupPerm(a)
  {
    if a != [] {
      GroupPermWithoutMask(a[1..]);
      var w := Without(a[1..], IsMask);
      assert [] + w == w && ([a[0]] + w)[1..] == w;
    }
  }

  /** Equal lookups everywhere but at the mask. */
  ghost predicate SameOffMask(a: Acl, b: Acl)
  {
    forall k :: k != MASK_KEY ==> Get(a, k) == Get(b, k)
  }

  /** Only the mask's own key is a key with the mask's tag. */
  lemma MaskKeyIs(e: Entry)
    ensures KeyOf(e) == MASK_KEY <==> IsMask(e)
  {}

  lemma OffMaskDecidesGroupClass(a: Acl, b: Acl)
    requires Canonical(a) && Canonical(b) && SameOffMask(a, b)
    ensures GroupPerm(a) == GroupPerm(b)
    ensures HasNamed(a) == HasNamed(b)
  {
    var x, y := Without(a, IsMask), Without(b, IsMask);
    WithoutCanonical(a, IsMask);
    WithoutCanonical(b, IsMask);
    forall k ensures Get(x, k) == Get(y, k) {
      WithoutGet(a, IsMask, k);
      WithoutGet(b, IsMask, k);
      GetIs(a, k);
      GetIs(b, k);
    }
    SameEntriesIsEqual(x, y);
    GroupPermWithoutMask(a);
    GroupPermWithoutMask(b);
    WithoutHas(a, IsMask);
    WithoutHas(b, IsMask);
    assert forall e :: e in a && Named(e.tag) ==> e in x;
    assert forall e :: e in b && Named(e.tag) ==> e in y;
  }

  function MaskFor(a: Acl): Entry { Entry(MASK, 0, GroupPerm(a)) }

  predicate NeedsMask(a: Acl, keepLone: bool)
  {
    HasNamed(a) || (keepLone && Get(a, MASK_KEY).Some?)
  }

  function WithRecomputedMask(a: Acl, keepLone: bool): Acl
  {
    if NeedsMask(a, keepLone) then Set(a, MaskFor(a)) else Without(a, IsMask)
  }

  lemma WithRecomputedMaskGet(a: Acl, keepLone: bool, k: Key)
    requires Canonical(a)
    ensures Canonical(WithRecomputedMask(a, keepLone))
    ensures Get(WithRecomputedMask(a, keepLone), k)
         == if k != MASK_KEY then Get(a, k)
            else if NeedsMask(a, keepLone) then Some(MaskFor(a)) else None
  {
    if NeedsMask(a, keepLone) {
      SetGet(a, MaskFor(a), k);
    } else {
      WithoutCanonical(a, IsMask);
      WithoutGet(a, IsMask, k);
      GetIs(a, k);
    }
  }

  // ---------------------------------------------------------------------- applying

  function SetAll(a: Acl, want: seq<Entry>): Acl
    decreases |want|
  {
    if want == [] then a else SetAll(Set(a, want[0]), want[1..])
  }

  function Wanted(want: seq<Entry>): set<Key> { set e | e in want :: KeyOf(e) }

  predicate HasTag(want: seq<Entry>, tag: nat) { exists e :: e in want && e.tag == tag }

  predicate NotBase(e: Entry) { !IsBase(e.tag) }

  function BaseEntries(a: Acl): Acl { Without(a, NotBase) }

  function Merged(cur: Acl, want: seq<Entry>, exclusive: bool): Acl
  {
    SetAll(if exclusive then BaseEntries(cur) else cur, want)
  }

  function Apply(cur: Acl, want: seq<Entry>, exclusive: bool): Acl
  {
    var next := Merged(cur, want, exclusive);
    Sorted(if HasTag(want, MASK) then next else WithRecomputedMask(next, !exclusive))
  }

  lemma DistinctTail(want: seq<Entry>)
    requires DistinctKeys(want) && want != []
    ensures DistinctKeys(want[1..])
    ensures Get(want[1..], KeyOf(want[0])) == None
  {
    var t := want[1..];
    assert forall i :: 0 <= i < |t| ==> t[i] == want[i + 1];
    GetIs(t, KeyOf(want[0]));
  }

  lemma {:induction false} SetAllGet(a: Acl, want: seq<Entry>, k: Key)
    requires Canonical(a) && DistinctKeys(want)
    ensures Canonical(SetAll(a, want))
    ensures Get(SetAll(a, want), k) == if Get(want, k).Some? then Get(want, k) else Get(a, k)
    decreases |want|
  {
    if want != [] {
      SetGet(a, want[0], k);
      DistinctTail(want);
      SetAllGet(Set(a, want[0]), want[1..], k);
    }
  }

  function Kept(cur: Acl, k: Key, exclusive: bool): Option<Entry>
  {
    if exclusive && !IsBase(k.tag) then None else Get(cur, k)
  }

  lemma MergedGet(cur: Acl, want: seq<Entry>, exclusive: bool, k: Key)
    requires Canonical(cur) && DistinctKeys(want)
    ensures Canonical(Merged(cur, want, exclusive))
    ensures Get(Merged(cur, want, exclusive), k)
         == if Get(want, k).Some? then Get(want, k) else Kept(cur, k, exclusive)
  {
    if exclusive {
      WithoutCanonical(cur, NotBase);
      WithoutGet(cur, NotBase, k);
      GetIs(cur, k);
    }
    SetAllGet(if exclusive then BaseEntries(cur) else cur, want, k);
  }

  lemma HasTagMask(want: seq<Entry>)
    ensures HasTag(want, MASK) <==> Get(want, MASK_KEY).Some?
  {}

  /** What an applied ACL holds under every key: the wanted entry, or the kept one;
      and for a mask that is not wanted, the union of the group class. */
  lemma ApplyGet(cur: Acl, want: seq<Entry>, exclusive: bool, k: Key)
    requires Canonical(cur) && DistinctKeys(want)
    ensures Canonical(Apply(cur, want, exclusive))
    ensures Get(Apply(cur, want, exclusive), k)
         == if Get(want, k).Some? then Get(want, k)
            else if k != MASK_KEY then Kept(cur, k, exclusive)
            else if NeedsMask(Merged(cur, want, exclusive), !exclusive)
            then Some(MaskFor(Merged(cur, want, exclusive))) else None
  {
    var next := Merged(cur, want, exclusive);
    MergedGet(cur, want, exclusive, k);
    HasTagMask(want);
    WithRecomputedMaskGet(next, !exclusive, k);
    SortedOfCanonical(if HasTag(want, MASK) then next else WithRecomputedMask(next, !exclusive));
  }

  // ---------------------------------------------------------------------- validity

  ghost predicate ValidEntry(e: Entry)
  {
    Known(e.tag) && e.perm <= PERM_ALL && (Named(e.tag) ==> e.id != UNDEFINED_ID)
  }

  ghost predicate Complete(a: Acl)
  {
    && Get(a, Key(USER_OBJ, 0)).Some?
    && Get(a, Key(GROUP_OBJ, 0)).Some?
    && Get(a, Key(OTHER, 0)).Some?
    && (HasNamed(a) ==> Get(a, MASK_KEY).Some?)
  }

  /** What the kernel's posix_acl_valid enforces. */
  ghost predicate ValidAcl(a: Acl)
  {
    (forall e :: e in a ==> ValidEntry(e)) && DistinctKeys(a) && Complete(a)
  }

  /** Entries without an ID carry none. */
  ghost predicate Normal(a: Acl)
  {
    forall e :: e in a && !Named(e.tag) ==> e.id == 0
  }

  predicate SeenBefore(a: Acl, n: nat, k: Key)
    requires n <= |a|
  {
    exists i :: 0 <= i < n && KeyOf(a[i]) == k
  }

  lemma SeenIsGet(a: Acl, k: Key)
    ensures SeenBefore(a, |a|, k) <==> Get(a, k).Some?
  {}

  ghost predicate GoodUpTo(a: Acl, n: nat)
    requires n <= |a|
  {
    && (forall i :: 0 <= i < n ==> ValidEntry(a[i]))
    && (forall i, j :: 0 <= i < j < n ==> KeyOf(a[i]) != KeyOf(a[j]))
  }

  /** posixACL.validate accepts exactly the valid ACLs. */
  method Validate(a: Acl) returns (ok: bool)
    ensures ok <==> ValidAcl(a)
  {
    var seen: set<Key> := {};
    var named := false;
    for i := 0 to |a|
      invariant GoodUpTo(a, i)
      invariant forall k :: k in seen <==> SeenBefore(a, i, k)
      invariant named <==> exists j :: 0 <= j < i && Named(a[j].tag)
    {
      var e := a[i];
      if IsBase(e.tag) || e.tag == MASK {
      } else if Named(e.tag) {
        named := true;
        if e.id == UNDEFINED_ID {
          assert !ValidEntry(a[i]) && a[i] in a;
          return false;
        }
      } else {
        assert !ValidEntry(a[i]) && a[i] in a;
        return false;
      }
      if PERM_ALL < e.perm {
        assert !ValidEntry(a[i]) && a[i] in a;
        return false;
      }
      if KeyOf(e) in seen {
        return false;
      }
      seen := seen + {KeyOf(e)};
    }
    SeenIsGet(a, Key(USER_OBJ, 0));
    SeenIsGet(a, Key(GROUP_OBJ, 0));
    SeenIsGet(a, Key(OTHER, 0));
    SeenIsGet(a, MASK_KEY);
    assert named <==> HasNamed(a);
    ok := Key(USER_OBJ, 0) in seen && Key(GROUP_OBJ, 0) in seen && Key(OTHER, 0) in seen
       && (named ==> MASK_KEY in seen);
  }

  lemma AppliedEntry(cur: Acl, want: seq<Entry>, exclusive: bool, e: Entry)
    requires Canonical(cur) && DistinctKeys(want)
    requires forall x :: x in cur || x in want ==> ValidEntry(x)
    requires e in Apply(cur, want, exclusive)
    ensures ValidEntry(e)
  {
    var k := KeyOf(e);
    var next := Merged(cur, want, exclusive);
    ApplyGet(cur, want, exclusive, k);
    CanonicalIsDistinct(Apply(cur, want, exclusive));
    GetOfDistinct(Apply(cur, want, exclusive), e);
    GetIs(want, k);
    GetIs(cur, k);
    if Get(want, k).None? && k == MASK_KEY {
      MergedHas(cur, want, exclusive);
      GroupPermInRange(next);
    }
  }

  lemma MergedHas(cur: Acl, want: seq<Entry>, exclusive: bool)
    requires Canonical(cur) && DistinctKeys(want)
    ensures forall e :: e in Merged(cur, want, exclusive) ==> e in cur || e in want
  {
    var next := Merged(cur, want, exclusive);
    forall e | e in next ensures e in cur || e in want {
      var k := KeyOf(e);
      MergedGet(cur, want, exclusive, k);
      CanonicalIsDistinct(next);
      GetOfDistinct(next, e);
      GetIs(want, k);
      GetIs(cur, k);
    }
  }

  lemma ApplyOffMask(cur: Acl, want: seq<Entry>, exclusive: bool)
    requires Canonical(cur) && DistinctKeys(want)
    ensures Canonical(Apply(cur, want, exclusive))
    ensures Canonical(Merged(cur, want, exclusive))
    ensures SameOffMask(Apply(cur, want, exclusive), Merged(cur, want, exclusive))
  {
    ApplyGet(cur, want, exclusive, MASK_KEY);
    MergedGet(cur, want, exclusive, MASK_KEY);
    forall k | k != MASK_KEY
      ensures Get(Apply(cur, want, exclusive), k) == Get(Merged(cur, want, exclusive), k)
    {
      ApplyGet(cur, want, exclusive, k);
      MergedGet(cur, want, exclusive, k);
    }
  }

  /** Applying valid entries to a valid ACL gives a valid ACL. */
  lemma ApplyIsValid(cur: Acl, want: seq<Entry>, exclusive: bool)
    requires Canonical(cur) && ValidAcl(cur)
    requires DistinctKeys(want) && forall e :: e in want ==> ValidEntry(e)
    ensures ValidAcl(Apply(cur, want, exclusive)) && Canonical(Apply(cur, want, exclusive))
  {
    var next := Apply(cur, want, exclusive);
    ApplyGet(cur, want, exclusive, Key(USER_OBJ, 0));
    ApplyGet(cur, want, exclusive, Key(GROUP_OBJ, 0));
    ApplyGet(cur, want, exclusive, Key(OTHER, 0));
    ApplyGet(cur, want, exclusive, MASK_KEY);
    CanonicalIsDistinct(next);
    forall e | e in next ensures ValidEntry(e) { AppliedEntry(cur, want, exclusive, e); }
    ApplyOffMask(cur, want, exclusive);
    OffMaskDecidesGroupClass(next, Merged(cur, want, exclusive));
  }

  /** Applying twice is applying once. */
  lemma ApplyIsIdempotent(cur: Acl, want: seq<Entry>, exclusive: bool)
    requires Canonical(cur) && DistinctKeys(want)
    ensures Apply(Apply(cur, want, exclusive), want, exclusive) == Apply(cur, want, exclusive)
  {
    var once := Apply(cur, want, exclusive);
    ApplyOffMask(cur, want, exclusive);
    ApplyOffMask(once, want, exclusive);
    var m1, m2 := Merged(cur, want, exclusive), Merged(once, want, exclusive);
    forall k | k != MASK_KEY ensures Get(m2, k) == Get(m1, k) {
      MergedGet(cur, want, exclusive, k);
      MergedGet(once, want, exclusive, k);
    }
    OffMaskDecidesGroupClass(m1, m2);
    MergedGet(cur, want, exclusive, MASK_KEY);
    MergedGet(once, want, exclusive, MASK_KEY);
    forall k ensures Get(Apply(once, want, exclusive), k) == Get(once, k) {
      ApplyGet(cur, want, exclusive, k);
      ApplyGet(once, want, exclusive, k);
    }
    SameEntriesIsEqual(Apply(once, want, exclusive), once);
  }

  // ------------------------------------------------------------------------- drift

  predicate MaskIsOff(actual: Acl, exclusive: bool, e: Entry)
  {
    var expected := Get(WithRecomputedMask(actual, !exclusive), MASK_KEY);
    expected.None? || expected.value.perm != e.perm
  }

  /** An entry that applying would remove or change although it is not wanted. */
  predicate IsUnexpected(actual: Acl, want: seq<Entry>, exclusive: bool, e: Entry)
  {
    && KeyOf(e) !in Wanted(want)
    && ((Named(e.tag) && exclusive) || (e.tag == MASK && MaskIsOff(actual, exclusive, e)))
  }

  function Unexpected(actual: Acl, want: seq<Entry>, exclusive: bool, n: nat): seq<Entry>
    requires n <= |actual|
  {
    if n == 0 then [] else
      var before := Unexpected(actual, want, exclusive, n - 1);
      if IsUnexpected(actual, want, exclusive, actual[n - 1]) then before + [actual[n - 1]] else before
  }

  lemma {:induction false} UnexpectedHas(actual: Acl, want: seq<Entry>, exclusive: bool, n: nat)
    requires n <= |actual|
    ensures Unexpected(actual, want, exclusive, n) == []
        <==> forall i :: 0 <= i < n ==> !IsUnexpected(actual, want, exclusive, actual[i])
  {
    hide IsUnexpected;
    if 0 < n {
      UnexpectedHas(actual, want, exclusive, n - 1);
    }
  }

  function Managed(actual: Acl, want: seq<Entry>): map<Key, Entry>
  {
    map k | k in Wanted(want) && Get(actual, k).Some? :: Get(actual, k).value
  }

  function Listed(want: seq<Entry>): map<Key, Entry>
  {
    map k | k in Wanted(want) && Get(want, k).Some? :: Get(want, k).value
  }

  ghost predicate ManagedUpTo(managed: map<Key, Entry>, actual: Acl, want: seq<Entry>, n: nat)
    requires n <= |actual|
  {
    && (forall k :: k in managed ==> k in Wanted(want) && SeenBefore(actual, n, k))
    && (forall j :: 0 <= j < n && KeyOf(actual[j]) in Wanted(want) ==>
          KeyOf(actual[j]) in managed && managed[KeyOf(actual[j])] == actual[j])
  }

  lemma ManagedAtTheEnd(managed: map<Key, Entry>, actual: Acl, want: seq<Entry>)
    requires DistinctKeys(actual) && ManagedUpTo(managed, actual, want, |actual|)
    ensures managed == Managed(actual, want)
  {
    forall k ensures k in managed <==> k in Managed(actual, want)
             ensures k in managed ==> managed[k] == Managed(actual, want)[k] {
      SeenIsGet(actual, k);
      GetIs(actual, k);
      if k in managed {
        var j :| 0 <= j < |actual| && KeyOf(actual[j]) == k;
        GetOfDistinct(actual, actual[j]);
      }
    }
  }

  lemma ManagedStep(managed: map<Key, Entry>, actual: Acl, want: seq<Entry>, n: nat)
    requires n < |actual| && DistinctKeys(actual) && ManagedUpTo(managed, actual, want, n)
    ensures KeyOf(actual[n]) in Wanted(want) ==>
              ManagedUpTo(managed[KeyOf(actual[n]) := actual[n]], actual, want, n + 1)
    ensures KeyOf(actual[n]) !in Wanted(want) ==> ManagedUpTo(managed, actual, want, n + 1)
  {}

  /** The loop of aclDrift. */
  method AclDrift(actual: Acl, want: seq<Entry>, exclusive: bool)
    returns (managed: map<Key, Entry>, unexpected: seq<Entry>)
    requires DistinctKeys(actual)
    ensures managed == Managed(actual, want)
    ensures unexpected == Unexpected(actual, want, exclusive, |actual|)
  {
    managed := map[];
    unexpected := [];
    for i := 0 to |actual|
      invariant ManagedUpTo(managed, actual, want, i)
      invariant unexpected == Unexpected(actual, want, exclusive, i)
    {
      hide ManagedUpTo, WithRecomputedMask, Wanted, DistinctKeys;
      var e := actual[i];
      ManagedStep(managed, actual, want, i);
      if KeyOf(e) in Wanted(want) {
        managed := managed[KeyOf(e) := e];
      } else if Named(e.tag) && exclusive {
        unexpected := unexpected + [e];
      } else if e.tag == MASK {
        var expected := Get(WithRecomputedMask(actual, !exclusive), MASK_KEY);
        if expected.None? || expected.value.perm != e.perm {
          unexpected := unexpected + [e];
        }
      }
    }
    ManagedAtTheEnd(managed, actual, want);
  }

  ghost predicate Clean(actual: Acl, want: seq<Entry>, exclusive: bool)
  {
    && Managed(actual, want) == Listed(want)
    && Unexpected(actual, want, exclusive, |actual|) == []
  }

  lemma CleanIs(actual: Acl, want: seq<Entry>, exclusive: bool)
    requires DistinctKeys(actual) && DistinctKeys(want)
    ensures Clean(actual, want, exclusive) <==>
      ((forall e :: e in want ==> Get(actual, KeyOf(e)) == Some(e))
       && (forall e :: e in actual ==> !IsUnexpected(actual, want, exclusive, e)))
  {
    UnexpectedHas(actual, want, exclusive, |actual|);
    assert (forall e :: e in actual ==> !IsUnexpected(actual, want, exclusive, e))
      <==> Unexpected(actual, want, exclusive, |actual|) == [];
    forall e | e in want ensures Get(want, KeyOf(e)) == Some(e) && KeyOf(e) in Wanted(want) {
      GetOfDistinct(want, e);
    }
    if Managed(actual, want) == Listed(want) {
      forall e | e in want ensures Get(actual, KeyOf(e)) == Some(e) {
        assert KeyOf(e) in Listed(want);
        assert KeyOf(e) in Managed(actual, want);
      }
    }
    if forall e :: e in want ==> Get(actual, KeyOf(e)) == Some(e) {
      assert Managed(actual, want) == Listed(want);
    }
  }

  /** The mask aclDrift expects is the one applying computes, once everything else agrees. */
  lemma ExpectedMask(cur: Acl, want: seq<Entry>, exclusive: bool)
    requires Canonical(cur) && DistinctKeys(want) && Get(want, MASK_KEY).None?
    requires SameOffMask(Apply(cur, want, exclusive), cur)
    ensures Get(Apply(cur, want, exclusive), MASK_KEY)
         == if exclusive then (if HasNamed(cur) then Some(MaskFor(cur)) else None)
            else Get(WithRecomputedMask(cur, true), MASK_KEY)
  {
    ApplyOffMask(cur, want, exclusive);
    OffMaskDecidesGroupClass(cur, Merged(cur, want, exclusive));
    ApplyGet(cur, want, exclusive, MASK_KEY);
    MergedGet(cur, want, exclusive, MASK_KEY);
    WithRecomputedMaskGet(cur, true, MASK_KEY);
  }

  lemma CleanOffMask(cur: Acl, want: seq<Entry>, exclusive: bool, k: Key)
    requires Canonical(cur) && ValidAcl(cur) && DistinctKeys(want)
    requires Clean(cur, want, exclusive) && k != MASK_KEY
    ensures Get(Apply(cur, want, exclusive), k) == Get(cur, k)
  {
    CleanIs(cur, want, exclusive);
    ApplyGet(cur, want, exclusive, k);
    GetIs(want, k);
    GetIs(cur, k);
    if Get(want, k).None? && exclusive && Get(cur, k).Some? {
      var e := Get(cur, k).value;
      assert !IsUnexpected(cur, want, exclusive, e);
      assert k !in Wanted(want);
      MaskKeyIs(e);
    }
  }

  lemma CleanMask(cur: Acl, want: seq<Entry>, exclusive: bool)
    requires Canonical(cur) && ValidAcl(cur) && Normal(cur) && DistinctKeys(want)
    requires Clean(cur, want, exclusive)
    ensures Get(Apply(cur, want, exclusive), MASK_KEY) == Get(cur, MASK_KEY)
  {
    CleanIs(cur, want, exclusive);
    GetIs(want, MASK_KEY);
    GetIs(cur, MASK_KEY);
    if Get(want, MASK_KEY).Some? {
      ApplyGet(cur, want, exclusive, MASK_KEY);
    } else {
      forall k | k != MASK_KEY ensures Get(Apply(cur, want, exclusive), k) == Get(cur, k) {
        CleanOffMask(cur, want, exclusive, k);
      }
      ExpectedMask(cur, want, exclusive);
      WithRecomputedMaskGet(cur, !exclusive, MASK_KEY);
      if Get(cur, MASK_KEY).Some? {
        var e := Get(cur, MASK_KEY).value;
        assert !IsUnexpected(cur, want, exclusive, e);
        assert MASK_KEY !in Wanted(want);
        MaskKeyIs(e);
      }
    }
  }

  lemma UnchangedHasNoUnexpected(cur: Acl, want: seq<Entry>, exclusive: bool, e: Entry)
    requires Canonical(cur) && DistinctKeys(want) && e in cur
    requires Apply(cur, want, exclusive) == cur
    ensures !IsUnexpected(cur, want, exclusive, e)
  {
    var k := KeyOf(e);
    CanonicalIsDistinct(cur);
    GetOfDistinct(cur, e);
    MaskKeyIs(e);
    if k !in Wanted(want) {
      GetIs(want, k);
      ApplyGet(cur, want, exclusive, k);
      if e.tag == MASK {
        ExpectedMask(cur, want, exclusive);
        WithRecomputedMaskGet(cur, !exclusive, MASK_KEY);
      }
    }
  }

  /** aclDrift reports nothing if and only if applying again would change nothing. */
  lemma CleanIffApplyChangesNothing(cur: Acl, want: seq<Entry>, exclusive: bool)
    requires Canonical(cur) && ValidAcl(cur) && Normal(cur) && DistinctKeys(want)
    ensures Clean(cur, want, exclusive) <==> Equal(Apply(cur, want, exclusive), cur)
  {
    var next := Apply(cur, want, exclusive);
    ApplyGet(cur, want, exclusive, MASK_KEY);
    SortedOfCanonical(next);
    SortedOfCanonical(cur);
    if Clean(cur, want, exclusive) {
      forall k ensures Get(next, k) == Get(cur, k) {
        if k == MASK_KEY {
          CleanMask(cur, want, exclusive);
        } else {
          CleanOffMask(cur, want, exclusive, k);
        }
      }
      SameEntriesIsEqual(next, cur);
    }
    if next == cur {
      forall e | e in want ensures Get(cur, KeyOf(e)) == Some(e) {
        GetOfDistinct(want, e);
        ApplyGet(cur, want, exclusive, KeyOf(e));
      }
      forall e | e in cur ensures !IsUnexpected(cur, want, exclusive, e) {
        UnchangedHasNoUnexpected(cur, want, exclusive, e);
      }
      CleanIs(cur, want, exclusive);
    }
  }
}
