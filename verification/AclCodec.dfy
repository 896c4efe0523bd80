/** The kernel's posix_acl_xattr format (acl.go): a little-endian version number
    and eight bytes an entry. */
module AclCodec {
  import opened Text
  import opened Acl
  import opened AclApply

  type Byte = b: nat | b < 256

  const VERSION: nat := 2
  const HEADER_SIZE: nat := 4
  const ENTRY_SIZE: nat := 8
  const MAX_ENTRIES: nat := 65536

  datatype DecodeError = TooShort | UnknownVersion | Ragged | TooMany | Invalid

  datatype Result = Decoded(acl: Acl) | Refused(error: DecodeError)

  // ----------------------------------------------------------------- little endian

  function Le16(v: nat): (b: seq<Byte>)
    ensures |b| == 2
  {
    [v % 256, v / 256 % 256]
  }

  function Le32(v: nat): (b: seq<Byte>)
    ensures |b| == 4
  {
    Le16(v) + Le16(v / 65536)
  }

  function Get16(b: seq<Byte>, off: nat): nat
    requires off + 2 <= |b|
  {
    (b[off] as nat) + 256 * (b[off + 1] as nat)
  }

  function Get32(b: seq<Byte>, off: nat): nat
    requires off + 4 <= |b|
  {
    Get16(b, off) + 65536 * Get16(b, off + 2)
  }

  lemma Le16Reads(v: nat, b: seq<Byte>, off: nat)
    requires v < 65536 && off + 2 <= |b| && b[off..off + 2] == Le16(v)
    ensures Get16(b, off) == v
  {}

  /** Only the low half of a number decides its first two bytes. */
  lemma HalvesAre(lo: nat, hi: nat)
    requires lo < 65536
    ensures (lo + 65536 * hi) / 65536 == hi && Le16(lo + 65536 * hi) == Le16(lo)
  {
    assert (lo + 65536 * hi) / 256 == lo / 256 + 256 * hi;
  }

  lemma Le32Reads(v: nat, b: seq<Byte>, off: nat)
    requires v < 0x1_0000_0000 && off + 4 <= |b| && b[off..off + 4] == Le32(v)
    ensures Get32(b, off) == v
  {
    var lo, hi := v % 65536, v / 65536;
    assert v == lo + 65536 * hi;
    HalvesAre(lo, hi);
    assert b[off..off + 2] == b[off..off + 4][..2] == Le16(lo);
    assert b[off + 2..off + 4] == b[off..off + 4][2..] == Le16(hi);
    Le16Reads(lo, b, off);
    Le16Reads(hi, b, off + 2);
  }

  lemma Get16Writes(b: seq<Byte>, off: nat)
    requires off + 2 <= |b|
    ensures Get16(b, off) < 65536 && Le16(Get16(b, off)) == b[off..off + 2]
  {}

  lemma Get32Writes(b: seq<Byte>, off: nat)
    requires off + 4 <= |b|
    ensures Get32(b, off) < 0x1_0000_0000 && Le32(Get32(b, off)) == b[off..off + 4]
  {
    hide Get16, Le16;
    Get16Writes(b, off);
    Get16Writes(b, off + 2);
    HalvesAre(Get16(b, off), Get16(b, off + 2));
    assert b[off..off + 4] == b[off..off + 2] + b[off + 2..off + 4];
  }

  // ---------------------------------------------------------------------- encoding

  /** The ID written for an entry: entries without a qualifier get the undefined one. */
  function WrittenId(e: Entry): nat { if Named(e.tag) then e.id else UNDEFINED_ID }

  function EntryBytes(e: Entry): (b: seq<Byte>)
    ensures |b| == ENTRY_SIZE
  {
    Le16(e.tag) + Le16(e.perm) + Le32(WrittenId(e))
  }

  function Image(a: Acl, n: nat): (b: seq<Byte>)
    requires n <= |a|
    ensures |b| == HEADER_SIZE + ENTRY_SIZE * n
  {
    if n == 0 then Le32(VERSION) else Image(a, n - 1) + EntryBytes(a[n - 1])
  }

  function Encoded(a: Acl): seq<Byte>
  {
    SortedHas(a);
    Image(Sorted(a), |a|)
  }

  /** The buffer with `part` written at `off`. */
  function Written(b: seq<Byte>, off: nat, part: seq<Byte>): (r: seq<Byte>)
    requires off + |part| <= |b|
    ensures |r| == |b|
  {
    b[..off] + part + b[off + |part|..]
  }

  lemma WrittenPrefix(b: seq<Byte>, off: nat, part: seq<Byte>)
    requires off + |part| <= |b|
    ensures Written(b, off, part)[..off + |part|] == b[..off] + part
  {}

  lemma ImageStart(a: Acl)
    ensures Image(a, 0) == Le32(VERSION) && |Le32(VERSION)| == HEADER_SIZE
  {}

  lemma ImageStep(a: Acl, n: nat)
    requires n < |a|
    ensures Image(a, n + 1) == Image(a, n) + EntryBytes(a[n])
  {}

  method Put16(buf: array<Byte>, off: nat, v: nat)
    requires off + 2 <= buf.Length
    modifies buf
    ensures buf[..] == Written(old(buf[..]), off, Le16(v))
  {
    buf[off] := v % 256;
    buf[off + 1] := v / 256 % 256;
  }

  lemma WrittenTwice(b: seq<Byte>, off: nat, x: seq<Byte>, y: seq<Byte>)
    requires off + |x| + |y| <= |b|
    ensures Written(Written(b, off, x), off + |x|, y) == Written(b, off, x + y)
  {}

  method Put32(buf: array<Byte>, off: nat, v: nat)
    requires off + 4 <= buf.Length
    modifies buf
    ensures buf[..] == Written(old(buf[..]), off, Le32(v))
  {
    Put16(buf, off, v);
    Put16(buf, off + 2, v / 65536);
    WrittenTwice(old(buf[..]), off, Le16(v), Le16(v / 65536));
  }

  method PutEntry(buf: array<Byte>, off: nat, e: Entry)
    requires off + ENTRY_SIZE <= buf.Length
    modifies buf
    ensures buf[..] == Written(old(buf[..]), off, EntryBytes(e))
  {
    var id := UNDEFINED_ID;
    if Named(e.tag) {
      id := e.id;
    }
    Put16(buf, off, e.tag);
    Put16(buf, off + 2, e.perm);
    WrittenTwice(old(buf[..]), off, Le16(e.tag), Le16(e.perm));
    Put32(buf, off + 4, id);
    WrittenTwice(old(buf[..]), off, Le16(e.tag) + Le16(e.perm), Le32(id));
  }

  method Encode(a: Acl) returns (r: Option<seq<Byte>>)
    ensures r == if ValidAcl(Sorted(a)) then Some(Encoded(a)) else None
  {
    hide ValidAcl, Sorted, EntryBytes, Written, Image, Le32;
    SortedHas(a);
    var sorted := Sorted(a);
    var ok := Validate(sorted);
    if !ok {
      return None;
    }
    var buf := new Byte[HEADER_SIZE + ENTRY_SIZE * |sorted|];
    ghost var b := buf[..];
    Put32(buf, 0, VERSION);
    WrittenPrefix(b, 0, Le32(VERSION));
    ImageStart(sorted);
    for i := 0 to |sorted|
      invariant buf[..][..HEADER_SIZE + ENTRY_SIZE * i] == Image(sorted, i)
    {
      b := buf[..];
      PutEntry(buf, HEADER_SIZE + ENTRY_SIZE * i, sorted[i]);
      WrittenPrefix(b, HEADER_SIZE + ENTRY_SIZE * i, EntryBytes(sorted[i]));
      ImageStep(sorted, i);
    }
    assert buf[..][..HEADER_SIZE + ENTRY_SIZE * |sorted|] == buf[..];
    r := Some(buf[..]);
  }

  // ---------------------------------------------------------------------- decoding

  function Offset(i: nat): nat { HEADER_SIZE + ENTRY_SIZE * i }

  /** The entry at index `i`; only a named one is given its ID. */
  function EntryAt(b: seq<Byte>, i: nat): Entry
    requires Offset(i) + ENTRY_SIZE <= |b|
  {
    var tag := Get16(b, Offset(i));
    Entry(tag, if Named(tag) then Get32(b, Offset(i) + 4) else 0, Get16(b, Offset(i) + 2))
  }

  function RawEntries(b: seq<Byte>, n: nat): (a: Acl)
    requires Offset(n) <= |b|
    ensures |a| == n && forall i :: 0 <= i < n ==> a[i] == EntryAt(b, i)
  {
    if n == 0 then [] else RawEntries(b, n - 1) + [EntryAt(b, n - 1)]
  }

  function Count(b: seq<Byte>): (n: nat)
    requires HEADER_SIZE <= |b|
    ensures Offset(n) <= |b|
  {
    (|b| - HEADER_SIZE) / ENTRY_SIZE
  }

  ghost function DecodedFrom(b: seq<Byte>): Result
  {
    if |b| < HEADER_SIZE then Refused(TooShort)
    else if Get32(b, 0) != VERSION then Refused(UnknownVersion)
    else if (|b| - HEADER_SIZE) % ENTRY_SIZE != 0 then Refused(Ragged)
    else if MAX_ENTRIES < Count(b) then Refused(TooMany)
    else
      var a := Sorted(RawEntries(b, Count(b)));
      if ValidAcl(a) then Decoded(a) else Refused(Invalid)
  }

  /** The source reads the entries from the part after the header. */
  lemma EntryInBody(b: seq<Byte>, i: nat)
    requires Offset(i) + ENTRY_SIZE <= |b|
    ensures var body, off := b[HEADER_SIZE..], ENTRY_SIZE * i;
      && Get16(body, off) == Get16(b, Offset(i))
      && Get16(body, off + 2) == Get16(b, Offset(i) + 2)
      && Get32(body, off + 4) == Get32(b, Offset(i) + 4)
  {}

  method Decode(b: seq<Byte>) returns (r: Result)
    ensures r == DecodedFrom(b)
  {
    hide ValidAcl, Sorted, Get16, Get32;
    if |b| < HEADER_SIZE {
      return Refused(TooShort);
    }
    if Get32(b, 0) != VERSION {
      return Refused(UnknownVersion);
    }
    var body := b[HEADER_SIZE..];
    if |body| % ENTRY_SIZE != 0 {
      return Refused(Ragged);
    }
    var n := |body| / ENTRY_SIZE;
    if MAX_ENTRIES < n {
      return Refused(TooMany);
    }
    var a := new Entry[n];
    for i := 0 to n
      invariant a[..i] == RawEntries(b, i)
    {
      EntryInBody(b, i);
      var off := ENTRY_SIZE * i;
      a[i] := Entry(Get16(body, off), 0, Get16(body, off + 2));
      if Named(a[i].tag) {
        a[i] := a[i].(id := Get32(body, off + 4));
      }
      assert a[i] == EntryAt(b, i);
    }
    assert a[..] == a[..n];
    var sorted := Sorted(a[..]);
    var ok := Validate(sorted);
    r := if ok then Decoded(sorted) else Refused(Invalid);
  }

  // -------------------------------------------------------------------- round trips

  /** Tags and permissions fit 16 bits, IDs 32. */
  predicate Fits(e: Entry) { e.tag < 65536 && e.perm < 65536 && e.id < 0x1_0000_0000 }

  function Cleared(e: Entry): Entry { if Named(e.tag) then e else e.(id := 0) }

  function AllCleared(a: Acl): (r: Acl)
    ensures |r| == |a| && forall i :: 0 <= i < |a| ==> r[i] == Cleared(a[i])
  {
    if a == [] then [] else [Cleared(a[0])] + AllCleared(a[1..])
  }

  lemma {:induction false} ImageAt(a: Acl, n: nat, i: nat)
    requires i < n <= |a|
    ensures Image(a, n)[Offset(i)..Offset(i) + ENTRY_SIZE] == EntryBytes(a[i])
  {
    if i < n - 1 {
      ImageAt(a, n - 1, i);
      assert Image(a, n)[Offset(i)..Offset(i) + ENTRY_SIZE]
          == Image(a, n - 1)[Offset(i)..Offset(i) + ENTRY_SIZE];
    }
  }

  lemma {:induction false} ImageHeader(a: Acl, n: nat)
    requires n <= |a|
    ensures Image(a, n)[..4] == Le32(VERSION)
  {
    if 0 < n {
      ImageHeader(a, n - 1);
      assert Image(a, n)[..4] == Image(a, n - 1)[..4];
    }
  }

  lemma EntryParts(e: Entry)
    ensures EntryBytes(e)[0..2] == Le16(e.tag)
    ensures EntryBytes(e)[2..4] == Le16(e.perm)
    ensures EntryBytes(e)[4..8] == Le32(WrittenId(e))
  {}

  lemma SliceOfSlice(b: seq<Byte>, off: nat, i: nat, j: nat)
    requires i <= j <= ENTRY_SIZE && off + ENTRY_SIZE <= |b|
    ensures b[off + i..off + j] == b[off..off + ENTRY_SIZE][i..j]
  {
    var x, w := b[off + i..off + j], b[off..off + ENTRY_SIZE];
    forall k | 0 <= k < j - i ensures x[k] == w[i..j][k] {
      assert x[k] == b[off + i + k] && w[i + k] == b[off + i + k];
    }
  }

  lemma EntryBytesRead(b: seq<Byte>, i: nat, e: Entry)
    requires Offset(i) + ENTRY_SIZE <= |b|
    requires b[Offset(i)..Offset(i) + ENTRY_SIZE] == EntryBytes(e) && Fits(e)
    ensures EntryAt(b, i) == Cleared(e)
    ensures Get32(b, Offset(i) + 4) == WrittenId(e)
  {
    hide Le16, Le32, Get16, Get32, EntryBytes;
    var off := Offset(i);
    EntryParts(e);
    SliceOfSlice(b, off, 0, 2);
    SliceOfSlice(b, off, 2, 4);
    SliceOfSlice(b, off, 4, 8);
    Le16Reads(e.tag, b, off);
    Le16Reads(e.perm, b, off + 2);
    Le32Reads(WrittenId(e), b, off + 4);
    EntryAtIs(b, i, e.tag, e.perm, WrittenId(e));
  }

  lemma EntryAtIs(b: seq<Byte>, i: nat, tag: nat, perm: nat, id: nat)
    requires Offset(i) + ENTRY_SIZE <= |b|
    requires Get16(b, Offset(i)) == tag && Get16(b, Offset(i) + 2) == perm && Get32(b, Offset(i) + 4) == id
    ensures EntryAt(b, i) == Entry(tag, if Named(tag) then id else 0, perm)
  {}

  lemma ImageReads(a: Acl)
    requires forall e :: e in a ==> Fits(e)
    ensures Get32(Image(a, |a|), 0) == VERSION
    ensures RawEntries(Image(a, |a|), |a|) == AllCleared(a)
  {
    var b := Image(a, |a|);
    ImageHeader(a, |a|);
    Le32Reads(VERSION, b, 0);
    forall i | 0 <= i < |a| ensures RawEntries(b, |a|)[i] == AllCleared(a)[i] {
      ImageAt(a, |a|, i);
      EntryBytesRead(b, i, a[i]);
    }
  }

  lemma SameKeysCanonical(a: Acl, b: Acl)
    requires Canonical(a) && |b| == |a| && forall i :: 0 <= i < |a| ==> KeyOf(b[i]) == KeyOf(a[i])
    ensures Canonical(b)
  {}

  lemma {:induction false} SameKeysGet(a: Acl, b: Acl, k: Key)
    requires |b| == |a| && forall i :: 0 <= i < |a| ==> KeyOf(b[i]) == KeyOf(a[i])
    ensures Get(a, k).Some? <==> Get(b, k).Some?
    decreases |a|
  {
    if a != [] {
      assert forall i :: 0 <= i < |a[1..]| ==> a[1..][i] == a[i + 1] && b[1..][i] == b[i + 1];
      SameKeysGet(a[1..], b[1..], k);
    }
  }

  lemma ClearedIsValid(a: Acl)
    requires ValidAcl(a)
    ensures ValidAcl(AllCleared(a))
  {
    var c := AllCleared(a);
    forall e | e in c ensures ValidEntry(e) {
      var i :| 0 <= i < |c| && c[i] == e;
      assert ValidEntry(a[i]);
    }
    SameKeysGet(a, c, Key(USER_OBJ, 0));
    SameKeysGet(a, c, Key(GROUP_OBJ, 0));
    SameKeysGet(a, c, Key(OTHER, 0));
    SameKeysGet(a, c, MASK_KEY);
    if e :| e in c && Named(e.tag) {
      var i :| 0 <= i < |c| && c[i] == e;
      assert a[i] in a && Named(a[i].tag);
    }
  }

  lemma SortedIsValid(a: Acl)
    requires ValidAcl(a)
    ensures ValidAcl(Sorted(a)) && Canonical(Sorted(a))
  {
    SortedHas(a);
    SortedIsCanonical(a);
    CanonicalIsDistinct(Sorted(a));
    SortedGet(a, Key(USER_OBJ, 0));
    SortedGet(a, Key(GROUP_OBJ, 0));
    SortedGet(a, Key(OTHER, 0));
    SortedGet(a, MASK_KEY);
  }

  lemma CountOfImage(a: Acl)
    ensures |Image(a, |a|)| == HEADER_SIZE + ENTRY_SIZE * |a| && Count(Image(a, |a|)) == |a|
  {
    hide Image;
  }

  lemma DecodedImage(a: Acl)
    requires ValidAcl(a) && Canonical(a) && forall e :: e in a ==> Fits(e)
    ensures DecodedFrom(Image(a, |a|)) == if |a| <= MAX_ENTRIES then Decoded(AllCleared(a)) else Refused(TooMany)
  {
    hide ValidAcl, Sorted, Image, Count, Get32, RawEntries, AllCleared, Canonical, Fits;
    CountOfImage(a);
    ImageReads(a);
    SameKeysCanonical(a, AllCleared(a));
    SortedOfCanonical(AllCleared(a));
    ClearedIsValid(a);
  }

  /** Decoding an encoded ACL gives its entries in kernel order with unnamed IDs
      cleared, if and only if there are at most 65536 of them. */
  lemma DecodeOfEncode(a: Acl)
    requires ValidAcl(a) && forall e :: e in a ==> Fits(e)
    ensures |a| <= MAX_ENTRIES ==> DecodedFrom(Encoded(a)) == Decoded(AllCleared(Sorted(a)))
    ensures MAX_ENTRIES < |a| ==> DecodedFrom(Encoded(a)) == Refused(TooMany)
  {
    hide ValidAcl, Sorted, Image, DecodedFrom, AllCleared, Fits;
    SortedHas(a);
    SortedIsValid(a);
    DecodedImage(Sorted(a));
  }

  const USERS: nat := 65536

  /** Entries for the owner and `n` users. */
  function ManyUsers(n: nat): (a: Acl)
    ensures |a| == n + 1 && a[0] == Entry(USER_OBJ, 0, 7)
    ensures forall i :: 1 <= i <= n ==> a[i] == Entry(USER, i, 7)
  {
    [Entry(USER_OBJ, 0, 7)] + seq(n, i requires 0 <= i < n => Entry(USER, i + 1, 7))
  }

  const MANY_ENTRIES: Acl := ManyUsers(USERS) + [Entry(GROUP_OBJ, 0, 7), Entry(MASK, 0, 7), Entry(OTHER, 0, 7)]

  lemma ManyEntriesAre(i: nat)
    requires i < |MANY_ENTRIES|
    ensures MANY_ENTRIES[i] ==
      if i == 0 then Entry(USER_OBJ, 0, 7) else if i <= USERS then Entry(USER, i, 7)
      else if i == USERS + 1 then Entry(GROUP_OBJ, 0, 7) else if i == USERS + 2 then Entry(MASK, 0, 7)
      else Entry(OTHER, 0, 7)
  {}

  lemma ManyEntriesAreValid()
    ensures |MANY_ENTRIES| == USERS + 4 && ValidAcl(MANY_ENTRIES)
    ensures forall e :: e in MANY_ENTRIES ==> Fits(e)
  {
    hide Get;
    var a := MANY_ENTRIES;
    forall i: nat | i < |a| ensures ValidEntry(a[i]) && Fits(a[i]) && KeyOf(a[i]).tag == a[i].tag {
      ManyEntriesAre(i);
    }
    forall i, j | 0 <= i < j < |a| ensures KeyOf(a[i]) != KeyOf(a[j]) {
      ManyEntriesAre(i);
      ManyEntriesAre(j);
    }
    ManyEntriesAre(0);
    ManyEntriesAre(USERS + 1);
    ManyEntriesAre(USERS + 2);
    ManyEntriesAre(USERS + 3);
    GetOfDistinct(a, a[0]);
    GetOfDistinct(a, a[USERS + 1]);
    GetOfDistinct(a, a[USERS + 2]);
    GetOfDistinct(a, a[USERS + 3]);
  }

  /** A valid ACL that is encoded and not decoded. */
  lemma TooManyEntriesAreRefused()
    ensures ValidAcl(MANY_ENTRIES) && DecodedFrom(Encoded(MANY_ENTRIES)) == Refused(TooMany)
  {
    hide ValidAcl, DecodedFrom, Encoded, Fits;
    ManyEntriesAreValid();
    DecodeOfEncode(MANY_ENTRIES);
  }

  // ------------------------------------------------------------------ and back again

  /** The entries stand in kernel order and those without an ID carry the undefined one. */
  ghost predicate KernelForm(b: seq<Byte>)
    requires HEADER_SIZE <= |b|
  {
    && Canonical(RawEntries(b, Count(b)))
    && forall i :: 0 <= i < Count(b) && !Named(EntryAt(b, i).tag) ==> Get32(b, Offset(i) + 4) == UNDEFINED_ID
  }

  lemma EntryAtWrites(b: seq<Byte>, i: nat)
    requires Offset(i) + ENTRY_SIZE <= |b|
    requires !Named(EntryAt(b, i).tag) ==> Get32(b, Offset(i) + 4) == UNDEFINED_ID
    ensures EntryBytes(EntryAt(b, i)) == b[Offset(i)..Offset(i) + ENTRY_SIZE]
  {
    var off := Offset(i);
    Get16Writes(b, off);
    Get16Writes(b, off + 2);
    Get32Writes(b, off + 4);
    assert b[off..off + 8] == b[off..off + 2] + b[off + 2..off + 4] + b[off + 4..off + 8];
  }

  lemma LongerPrefix(b: seq<Byte>, m: nat, n: nat)
    requires m <= n <= |b|
    ensures b[..n] == b[..m] + b[m..n]
  {}

  lemma {:induction false} RawEntriesWrite(b: seq<Byte>, n: nat)
    requires Offset(n) <= |b| && Get32(b, 0) == VERSION
    requires forall i :: 0 <= i < n && !Named(EntryAt(b, i).tag) ==> Get32(b, Offset(i) + 4) == UNDEFINED_ID
    ensures Image(RawEntries(b, n), n) == b[..Offset(n)]
  {
    hide Get32, EntryBytes, EntryAt;
    if n == 0 {
      Get32Writes(b, 0);
    } else {
      RawEntriesWrite(b, n - 1);
      EntryAtWrites(b, n - 1);
      ImageOfPrefix(RawEntries(b, n - 1), RawEntries(b, n), n - 1);
      LongerPrefix(b, Offset(n - 1), Offset(n));
    }
  }

  lemma {:induction false} ImageOfPrefix(a: Acl, c: Acl, n: nat)
    requires n <= |a| && n <= |c| && forall i :: 0 <= i < n ==> a[i] == c[i]
    ensures Image(a, n) == Image(c, n)
  {
    if 0 < n {
      ImageOfPrefix(a, c, n - 1);
    }
  }

  lemma RawFits(b: seq<Byte>, i: nat)
    requires Offset(i) + ENTRY_SIZE <= |b|
    ensures Fits(EntryAt(b, i)) && Cleared(EntryAt(b, i)) == EntryAt(b, i)
  {}

  /** Encoding writes the kernel's form. */
  lemma ImageAtKernel(s: Acl, i: nat)
    requires i < |s| && Fits(s[i])
    ensures EntryAt(Image(s, |s|), i) == Cleared(s[i])
    ensures !Named(s[i].tag) ==> Get32(Image(s, |s|), Offset(i) + 4) == UNDEFINED_ID
  {
    ImageAt(s, |s|, i);
    EntryBytesRead(Image(s, |s|), i, s[i]);
  }

  lemma ImageIsKernelForm(s: Acl)
    requires Canonical(s) && forall e :: e in s ==> Fits(e)
    ensures KernelForm(Image(s, |s|))
  {
    hide EntryAt, Image, Get32;
    var b := Image(s, |s|);
    assert Count(b) == |s|;
    var raw := RawEntries(b, |s|);
    forall i | 0 <= i < |s|
      ensures KeyOf(raw[i]) == KeyOf(s[i])
      ensures !Named(EntryAt(b, i).tag) ==> Get32(b, Offset(i) + 4) == UNDEFINED_ID
    {
      ImageAtKernel(s, i);
    }
    SameKeysCanonical(s, raw);
  }

  lemma RawAllFit(b: seq<Byte>, n: nat)
    requires Offset(n) <= |b|
    ensures forall e :: e in RawEntries(b, n) ==> Fits(e)
  {}

  lemma KernelFormIsKept(b: seq<Byte>)
    requires HEADER_SIZE <= |b| && KernelForm(b)
    requires Get32(b, 0) == VERSION && |b| == Offset(Count(b))
    ensures Image(RawEntries(b, Count(b)), Count(b)) == b
  {
    hide Canonical;
    RawEntriesWrite(b, Count(b));
    assert b[..|b|] == b;
  }

  /** An attribute that was decoded is encoded to the same bytes again if and only
      if it was in the form the kernel writes. */
  lemma EncodeOfDecode(b: seq<Byte>)
    requires DecodedFrom(b).Decoded?
    ensures HEADER_SIZE <= |b|
    ensures Encoded(DecodedFrom(b).acl) == b <==> KernelForm(b)
  {
    var raw := RawEntries(b, Count(b));
    var a := Sorted(raw);
    assert DecodedFrom(b) == Decoded(a) && DistinctKeys(a);
    hide DecodedFrom, ValidAcl;
    SortedHas(raw);
    SortedHas(a);
    SortedIsCanonical(a);
    RawAllFit(b, Count(b));
    ImageIsKernelForm(Sorted(a));
    if KernelForm(b) {
      SortedOfCanonical(raw);
      KernelFormIsKept(b);
    }
  }

  lemma {:induction false} InsertEntryDistinct(a: Acl, e: Entry)
    requires DistinctKeys(InsertEntry(a, e))
    ensures DistinctKeys(a) && forall x :: x in a ==> KeyOf(x) != KeyOf(e)
  {
    if a != [] {
      var init, last := a[..|a| - 1], a[|a| - 1];
      if Before(KeyOf(e), KeyOf(last)) {
        var r := InsertEntry(init, e);
        InsertEntryHas(init, e);
        assert forall i :: 0 <= i < |r| ==> (r + [last])[i] == r[i];
        assert (r + [last])[|r|] == last;
        InsertEntryDistinct(init, e);
        assert forall i :: 0 <= i < |init| ==> init[i] in r;
      } else {
        assert forall i :: 0 <= i < |a| ==> (a + [e])[i] == a[i];
        assert (a + [e])[|a|] == e;
      }
    }
  }

  lemma DistinctExtended(a: Acl, e: Entry)
    requires DistinctKeys(a) && forall x :: x in a ==> KeyOf(x) != KeyOf(e)
    ensures DistinctKeys(a + [e])
  {}

  /** Sorting hides no duplicate. */
  lemma {:induction false} SortedDistinct(a: Acl)
    requires DistinctKeys(Sorted(a))
    ensures DistinctKeys(a)
  {
    if a != [] {
      var init, last := a[..|a| - 1], a[|a| - 1];
      InsertEntryDistinct(Sorted(init), last);
      SortedHas(init);
      SortedDistinct(init);
      DistinctExtended(init, last);
      assert a == init + [last];
    }
  }

  /** What is read back has kernel order, is valid, and carries no ID without a qualifier. */
  lemma DecodedIsNormal(b: seq<Byte>)
    requires DecodedFrom(b).Decoded?
    ensures Canonical(DecodedFrom(b).acl) && ValidAcl(DecodedFrom(b).acl) && Normal(DecodedFrom(b).acl)
  {
    var raw := RawEntries(b, Count(b));
    SortedHas(raw);
    SortedDistinct(raw);
    SortedIsCanonical(raw);
  }

  // ------------------------------------------------------------------ what is decoded

  /** The bytes are a header and the entries, in any order, each with some ID. */
  ghost predicate Spells(b: seq<Byte>, es: seq<Entry>)
  {
    && |b| == Offset(|es|) && b[..HEADER_SIZE] == Le32(VERSION)
    && forall i :: 0 <= i < |es| ==> SpellsEntry(b, i, es[i])
  }

  predicate SpellsEntry(b: seq<Byte>, i: nat, e: Entry)
    requires Offset(i) + ENTRY_SIZE <= |b|
  {
    var off := Offset(i);
    b[off..off + 2] == Le16(e.tag) && b[off + 2..off + 4] == Le16(e.perm) && b[off + 4..off + 8] == Le32(e.id)
  }

  lemma SpelledIsRead(b: seq<Byte>, i: nat, e: Entry)
    requires Offset(i) + ENTRY_SIZE <= |b| && Fits(e) && SpellsEntry(b, i, e)
    ensures EntryAt(b, i) == Cleared(e)
  {
    hide Le16, Le32, Get16, Get32;
    var off := Offset(i);
    Le16Reads(e.tag, b, off);
    Le16Reads(e.perm, b, off + 2);
    Le32Reads(e.id, b, off + 4);
    EntryAtIs(b, i, e.tag, e.perm, e.id);
  }

  lemma SpelledAreRead(b: seq<Byte>, es: seq<Entry>)
    requires Spells(b, es) && forall e :: e in es ==> Fits(e)
    ensures HEADER_SIZE <= |b| && Count(b) == |es| && Get32(b, 0) == VERSION
    ensures RawEntries(b, |es|) == AllCleared(es)
  {
    hide Le32, Get32, EntryAt, SpellsEntry, Fits, Cleared;
    Le32Reads(VERSION, b, 0);
    forall i | 0 <= i < |es| ensures RawEntries(b, |es|)[i] == AllCleared(es)[i] {
      assert es[i] in es;
      SpelledIsRead(b, i, es[i]);
    }
  }

  lemma SortedValidIs(a: Acl)
    ensures ValidAcl(Sorted(a)) <==> ValidAcl(a)
  {
    hide Sorted, DistinctKeys;
    SortedHas(a);
    if DistinctKeys(Sorted(a)) {
      SortedDistinct(a);
    }
    if DistinctKeys(a) {
      SortedIsCanonical(a);
      CanonicalIsDistinct(Sorted(a));
      SortedGet(a, Key(USER_OBJ, 0));
      SortedGet(a, Key(GROUP_OBJ, 0));
      SortedGet(a, Key(OTHER, 0));
      SortedGet(a, MASK_KEY);
    }
  }

  /** An attribute that spells a list of entries, in any order and with any IDs where they do
      not matter, is decoded to these entries in kernel order if they are a valid ACL and not
      too many, and refused otherwise. */
  lemma DecodedIs(b: seq<Byte>, es: seq<Entry>)
    requires Spells(b, es) && forall e :: e in es ==> Fits(e)
    ensures DecodedFrom(b)
         == if MAX_ENTRIES < |es| then Refused(TooMany)
            else if ValidAcl(AllCleared(es)) then Decoded(Sorted(AllCleared(es))) else Refused(Invalid)
  {
    hide ValidAcl, Sorted, Get32, Spells, AllCleared, Fits;
    SpelledAreRead(b, es);
    SortedValidIs(AllCleared(es));
    SpelledLength(b, es);
  }

  lemma SpelledLength(b: seq<Byte>, es: seq<Entry>)
    requires Spells(b, es)
    ensures |b| == HEADER_SIZE + ENTRY_SIZE * |es|
  {
    hide SpellsEntry;
  }

  lemma EntryIsSpelled(b: seq<Byte>, i: nat) returns (e: Entry)
    requires Offset(i) + ENTRY_SIZE <= |b|
    ensures Fits(e) && SpellsEntry(b, i, e)
  {
    hide Le16, Le32, Get16, Get32;
    var off := Offset(i);
    Get16Writes(b, off);
    Get16Writes(b, off + 2);
    Get32Writes(b, off + 4);
    e := Entry(Get16(b, off), Get32(b, off + 4), Get16(b, off + 2));
  }

  lemma {:induction false} EntriesAreSpelled(b: seq<Byte>, n: nat) returns (es: seq<Entry>)
    requires Offset(n) <= |b|
    ensures |es| == n && (forall e :: e in es ==> Fits(e))
    ensures forall i :: 0 <= i < n ==> Offset(i) + ENTRY_SIZE <= |b| && SpellsEntry(b, i, es[i])
  {
    hide SpellsEntry, Fits;
    es := [];
    if 0 < n {
      var init := EntriesAreSpelled(b, n - 1);
      var e := EntryIsSpelled(b, n - 1);
      es := init + [e];
    }
  }

  /** Every other attribute is refused, with the reason: it is too short, has another version,
      or is not a whole number of entries. */
  lemma UnspelledIsRefused(b: seq<Byte>) returns (es: seq<Entry>)
    ensures if |b| < HEADER_SIZE then DecodedFrom(b) == Refused(TooShort)
            else if b[..HEADER_SIZE] != Le32(VERSION) then DecodedFrom(b) == Refused(UnknownVersion)
            else if |b| % ENTRY_SIZE != HEADER_SIZE % ENTRY_SIZE then DecodedFrom(b) == Refused(Ragged)
            else Spells(b, es) && forall e :: e in es ==> Fits(e)
  {
    hide ValidAcl, Sorted, RawEntries, SpellsEntry, Fits, Le32, Get32;
    es := [];
    if HEADER_SIZE <= |b| {
      Get32Writes(b, 0);
      assert b[0..0 + 4] == b[..HEADER_SIZE];
      if b[..HEADER_SIZE] == Le32(VERSION) {
        Le32Reads(VERSION, b, 0);
        if |b| % ENTRY_SIZE == HEADER_SIZE % ENTRY_SIZE {
          es := EntriesAreSpelled(b, Count(b));
        }
      }
    }
  }
}
