/** The algebra of POSIX ACLs (acl.go): setting, dropping and comparing entries,
    and the mask that goes with them. */
module Acl {
  import opened Text

  const USER_OBJ: nat := 0x01
  const USER: nat := 0x02
  const GROUP_OBJ: nat := 0x04
  const GROUP: nat := 0x08
  const MASK: nat := 0x10
  const OTHER: nat := 0x20
  const UNDEFINED_ID: nat := 0xffff_ffff
  const PERM_ALL: nat := 7

  /** Tags and permissions are 16 bits wide, IDs 32. */
  datatype Entry = Entry(tag: nat, id: nat, perm: nat)

  datatype Key = Key(tag: nat, id: nat)

  type Acl = seq<Entry>

  predicate Named(tag: nat) { tag == USER || tag == GROUP }

  predicate IsBase(tag: nat) { tag == USER_OBJ || tag == GROUP_OBJ || tag == OTHER }

  predicate Known(tag: nat) { IsBase(tag) || Named(tag) || tag == MASK }

  /** What identifies an entry: the ID counts only for named entries. */
  function KeyOf(e: Entry): Key
  {
    if Named(e.tag) then Key(e.tag, e.id) else Key(e.tag, 0)
  }

  const MASK_KEY := Key(MASK, 0)

  predicate Before(a: Key, b: Key) { a.tag < b.tag || (a.tag == b.tag && a.id < b.id) }

  /** The kernel's order, with no key twice. */
  predicate Canonical(a: Acl)
  {
    forall i, j :: 0 <= i < j < |a| ==> Before(KeyOf(a[i]), KeyOf(a[j]))
  }

  predicate DistinctKeys(a: Acl)
  {
    forall i, j :: 0 <= i < j < |a| ==> KeyOf(a[i]) != KeyOf(a[j])
  }

  // -------------------------------------------------------------------- looking up

  function Get(a: Acl, k: Key): Option<Entry>
  {
    if a == [] then None
    else if KeyOf(a[0]) == k then Some(a[0])
    else Get(a[1..], k)
  }

  lemma {:induction false} GetIs(a: Acl, k: Key)
    ensures Get(a, k).Some? ==> Get(a, k).value in a && KeyOf(Get(a, k).value) == k
    ensures Get(a, k).None? ==> forall e :: e in a ==> KeyOf(e) != k
  {
    if a != [] {
      GetIs(a[1..], k);
    }
  }

  lemma {:induction false} GetOfDistinct(a: Acl, e: Entry)
    requires DistinctKeys(a) && e in a
    ensures Get(a, KeyOf(e)) == Some(e)
  {
    if a[0] != e {
      var i :| 0 <= i < |a| && a[i] == e;
      assert a[1..][i - 1] == e;
      assert forall i, j :: 0 <= i < j < |a[1..]| ==> a[1..][i] == a[i + 1] && a[1..][j] == a[j + 1];
      GetOfDistinct(a[1..], e);
    }
  }

  lemma CanonicalIsDistinct(a: Acl)
    requires Canonical(a)
    ensures DistinctKeys(a)
  {}

  lemma CanonicalTail(a: Acl)
    requires Canonical(a) && a != []
    ensures Canonical(a[1..])
    ensures forall e :: e in a[1..] ==> Before(KeyOf(a[0]), KeyOf(e))
  {}

  lemma GetOfTail(a: Acl, k: Key)
    requires Canonical(a) && a != []
    ensures Get(a[1..], k) == if k == KeyOf(a[0]) then None else Get(a, k)
  {
    CanonicalTail(a);
    GetIs(a[1..], k);
  }

  ghost predicate SameEntries(a: Acl, b: Acl)
  {
    forall k :: Get(a, k) == Get(b, k)
  }

  lemma FirstIsFirst(a: Acl, b: Acl)
    requires Canonical(a) && Canonical(b) && SameEntries(a, b) && a != []
    ensures b != [] && !Before(KeyOf(b[0]), KeyOf(a[0])) ==> b[0] == a[0]
    ensures b != []
  {
    var k := KeyOf(a[0]);
    assert Get(a, k) == Get(b, k);
    GetIs(b, k);
    CanonicalTail(b);
  }

  /** An ACL in kernel order is determined by its entries. */
  lemma {:induction false} SameEntriesIsEqual(a: Acl, b: Acl)
    requires Canonical(a) && Canonical(b) && SameEntries(a, b)
    ensures a == b
  {
    if a == [] {
      if b != [] {
        FirstIsFirst(b, a);
      }
    } else {
      FirstIsFirst(a, b);
      FirstIsFirst(b, a);
      assert a[0] == b[0];
      CanonicalTail(a);
      CanonicalTail(b);
      forall k ensures Get(a[1..], k) == Get(b[1..], k) {
        GetOfTail(a, k);
        GetOfTail(b, k);
        assert Get(a, k) == Get(b, k);
      }
      SameEntriesIsEqual(a[1..], b[1..]);
      assert a == [a[0]] + a[1..] && b == [b[0]] + b[1..];
    }
  }

  // ----------------------------------------------------------------------- sorting

  /** sort.SliceStable with sortACL's order, one entry at a time. */
  function InsertEntry(a: Acl, e: Entry): Acl
  {
    if a == [] then [e]
    else if Before(KeyOf(e), KeyOf(a[|a| - 1])) then InsertEntry(a[..|a| - 1], e) + [a[|a| - 1]]
    else a + [e]
  }

  function Sorted(a: Acl): Acl
  {
    if a == [] then [] else InsertEntry(Sorted(a[..|a| - 1]), a[|a| - 1])
  }

  lemma {:induction false} InsertEntryHas(a: Acl, e: Entry)
    ensures forall x :: x in InsertEntry(a, e) <==> x in a || x == e
    ensures |InsertEntry(a, e)| == |a| + 1
  {
    if a != [] && Before(KeyOf(e), KeyOf(a[|a| - 1])) {
      InsertEntryHas(a[..|a| - 1], e);
      assert a == a[..|a| - 1] + [a[|a| - 1]];
    }
  }

  lemma {:induction false} InsertEntryCanonical(a: Acl, e: Entry)
    requires Canonical(a)
    requires forall x :: x in a ==> KeyOf(x) != KeyOf(e)
    ensures Canonical(InsertEntry(a, e))
  {
    if a != [] {
      var init, last := a[..|a| - 1], a[|a| - 1];
      if Before(KeyOf(e), KeyOf(last)) {
        InsertEntryCanonical(init, e);
        InsertEntryHas(init, e);
        var r := InsertEntry(init, e);
        forall i, j | 0 <= i < j < |r + [last]| ensures Before(KeyOf((r + [last])[i]), KeyOf((r + [last])[j])) {
          if j == |r| {
            assert r[i] in r;
          }
        }
      } else {
        assert last in a;
      }
    }
  }

  lemma {:induction false} SortedHas(a: Acl)
    ensures forall x :: x in Sorted(a) <==> x in a
    ensures |Sorted(a)| == |a|
  {
    if a != [] {
      SortedHas(a[..|a| - 1]);
      InsertEntryHas(Sorted(a[..|a| - 1]), a[|a| - 1]);
      assert a == a[..|a| - 1] + [a[|a| - 1]];
    }
  }

  lemma {:induction false} SortedIsCanonical(a: Acl)
    requires DistinctKeys(a)
    ensures Canonical(Sorted(a))
  {
    if a != [] {
      var init, last := a[..|a| - 1], a[|a| - 1];
      SortedIsCanonical(init);
      SortedHas(init);
      InsertEntryCanonical(Sorted(init), last);
    }
  }

  /** Entries with different keys are looked up alike before and after. */
  lemma SortedGet(a: Acl, k: Key)
    requires DistinctKeys(a)
    ensures Get(Sorted(a), k) == Get(a, k)
  {
    SortedHas(a);
    SortedIsCanonical(a);
    CanonicalIsDistinct(Sorted(a));
    GetIs(a, k);
    GetIs(Sorted(a), k);
    if Get(a, k).Some? {
      GetOfDistinct(Sorted(a), Get(a, k).value);
    }
  }

  lemma SortedOfCanonical(a: Acl)
    requires Canonical(a)
    ensures Sorted(a) == a
  {}

  /** posixACL.equal: the same entries in any order. */
  predicate Equal(a: Acl, b: Acl) { |a| == |b| && Sorted(a) == Sorted(b) }

  // -------------------------------------------------------------- filtering, setting

  function Without(a: Acl, drop: Entry -> bool): Acl
  {
    if a == [] then []
    else (if drop(a[0]) then [] else [a[0]]) + Without(a[1..], drop)
  }

  lemma {:induction false} WithoutHas(a: Acl, drop: Entry -> bool)
    ensures forall e :: e in Without(a, drop) <==> e in a && !drop(e)
  {
    if a != [] {
      WithoutHas(a[1..], drop);
      assert a == [a[0]] + a[1..];
    }
  }

  lemma {:induction false} WithoutCanonical(a: Acl, drop: Entry -> bool)
    requires Canonical(a)
    ensures Canonical(Without(a, drop))
  {
    if a != [] {
      CanonicalTail(a);
      WithoutCanonical(a[1..], drop);
      WithoutHas(a[1..], drop);
      var r := Without(a[1..], drop);
      forall i | 0 <= i < |r| ensures Before(KeyOf(a[0]), KeyOf(r[i])) {
        assert r[i] in r;
      }
    }
  }

  lemma WithoutGet(a: Acl, drop: Entry -> bool, k: Key)
    requires Canonical(a)
    ensures Get(Without(a, drop), k)
         == if Get(a, k).Some? && !drop(Get(a, k).value) then Get(a, k) else None
  {
    var w := Without(a, drop);
    WithoutHas(a, drop);
    WithoutCanonical(a, drop);
    CanonicalIsDistinct(a);
    CanonicalIsDistinct(w);
    GetIs(a, k);
    GetIs(w, k);
    if Get(a, k).Some? && !drop(Get(a, k).value) {
      GetOfDistinct(w, Get(a, k).value);
    }
    if Get(w, k).Some? {
      GetOfDistinct(a, Get(w, k).value);
    }
  }

  function Set(a: Acl, e: Entry): Acl
  {
    Sorted(Without(a, (o: Entry) => KeyOf(o) == KeyOf(e)) + [e])
  }

  lemma SetGet(a: Acl, e: Entry, k: Key)
    requires Canonical(a)
    ensures Canonical(Set(a, e))
    ensures Get(Set(a, e), k) == if k == KeyOf(e) then Some(e) else Get(a, k)
  {
    var drop := (o: Entry) => KeyOf(o) == KeyOf(e);
    var w := Without(a, drop);
    WithoutHas(a, drop);
    WithoutCanonical(a, drop);
    assert DistinctKeys(w + [e]) by {
      CanonicalIsDistinct(w);
      assert forall i :: 0 <= i < |w| ==> w[i] in w;
    }
    SortedIsCanonical(w + [e]);
    SortedGet(w + [e], k);
    GetAppend(w, e, k);
    WithoutGet(a, drop, k);
    GetIs(a, k);
  }

  lemma {:induction false} GetAppend(a: Acl, e: Entry, k: Key)
    ensures Get(a + [e], k) == if Get(a, k).Some? then Get(a, k) else if KeyOf(e) == k then Some(e) else None
  {
    if a != [] {
      GetAppend(a[1..], e, k);
      assert (a + [e])[1..] == a[1..] + [e];
    } else {
      assert (a + [e])[1..] == [];
    }
  }
}
