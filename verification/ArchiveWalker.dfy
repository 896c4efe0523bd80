/** The walker that builds the manifest from untrusted entries (archive.go,
    archiveWalker.count, add, walkTar, and the size check of walkZip). Counters
    are int64 and uint64 in the original; their wrap-around is written out. */
module ArchiveWalker {
  import opened Text
  import opened ArchiveNames
  import opened ArchiveManifest

  const TWO_63: int := 0x8000_0000_0000_0000
  const TWO_64: int := 0x1_0000_0000_0000_0000
  const MAX_INT64: int := TWO_63 - 1

  /** The ++ of an int64. */
  function Incremented(x: int): int
  {
    if x == MAX_INT64 then -TWO_63 else x + 1
  }

  /** `room` is how much of the archive can be read: for tar what StreamLimit allows, and for
      zip the size of the file. */
  datatype Limits = Limits(strip: nat, maxSize: nat, maxEntries: nat, room: int)

  /** The settings walkArchive accepts, each an int64. */
  predicate ValidLimits(lim: Limits)
  {
    1 <= lim.maxSize <= MAX_INT64 && 1 <= lim.maxEntries <= MAX_INT64 && lim.room <= MAX_INT64
  }

  // ------------------------------------------------------ what add does, purely

  /** The entry that `r` stands for, if it passes the checks of its own kind. */
  function Validated(es: Entries, r: RawEntry, strip: nat): Option<Entry>
  {
    match r.kind
    case RawDir => Some(DirEntry(r.mode, false))
    case RawFile => if r.size < 0 then None else Some(FileEntry(r.mode, r.size, r.content))
    case RawSymlink => if ValidTarget(r.link) then Some(SymlinkEntry(r.mode, r.link)) else None
    case RawHardLink => (
      match NormalForm(r.link, strip)
      case Kept(t) => LinkTo(es, t)
      case _ => None)
    case RawOther => None
  }

  /** A hard link to `t`, or to what `t` itself links to. */
  function LinkTo(es: Entries, t: Name): Option<Entry>
  {
    if t !in es then None
    else match es[t]
      case FileEntry(mode, size, _) => Some(HardLinkEntry(mode, size, t))
      case HardLinkEntry(_, _, base) =>
        if base in es && es[base].FileEntry?
        then Some(HardLinkEntry(es[base].mode, es[base].size, base)) else None
      case _ => None
  }

  ghost predicate Acceptable(m: Manifest, r: RawEntry, strip: nat)
  {
    var n := NormalForm(r.raw, strip);
    n.Kept? && Validated(m.entries, r, strip).Some? && Fits(m, n.name, Validated(m.entries, r, strip).value)
  }

  /** The manifest after `r`, or None if `r` must be refused. */
  ghost function Record(m: Manifest, r: RawEntry, strip: nat): Option<Manifest>
  {
    match NormalForm(r.raw, strip)
    case Refused => None
    case Dropped => if r.kind.RawOther? then None else Some(m)
    case Kept(n) =>
      if Acceptable(m, r, strip) then Some(Insert(m, n, Validated(m.entries, r, strip).value)) else None
  }

  /** How many directories the ancestors of `n` shorter than `upto` add. */
  function NewDirs(m: Manifest, n: Name, upto: nat): nat
    requires 1 <= upto <= |n|
  {
    if upto == 1 then 0
    else NewDirs(m, n, upto - 1) + if n[..upto - 1] in m.entries then 0 else 1
  }

  /** How many entries `r` counts as: itself, and the directories it implies. */
  ghost function Weight(m: Manifest, r: RawEntry, strip: nat): nat
  {
    var n := NormalForm(r.raw, strip);
    1 + if n.Kept? && n.name != [] then NewDirs(m, n.name, |n.name|) else 0
  }

  /** The manifest of a whole archive. */
  ghost function Records(rs: seq<RawEntry>, strip: nat): Option<Manifest>
  {
    if rs == [] then Some(EMPTY)
    else
      var last := |rs| - 1;
      match Records(rs[..last], strip)
      case None => None
      case Some(m) => Record(m, rs[last], strip)
  }

  /** The number of entries a whole archive counts as. */
  ghost function TotalWeight(rs: seq<RawEntry>, strip: nat): nat
  {
    if rs == [] then 0
    else
      var last := |rs| - 1;
      TotalWeight(rs[..last], strip)
      + match Records(rs[..last], strip)
        case None => 1
        case Some(m) => Weight(m, rs[last], strip)
  }

  /** What a whole archive takes up. */
  ghost function TotalBytes(rs: seq<RawEntry>): nat
  {
    if rs == [] then 0 else TotalBytes(rs[..|rs| - 1]) + rs[|rs| - 1].bytes
  }

  ghost function TotalSize(rs: seq<RawEntry>): int
  {
    if rs == [] then 0 else TotalSize(rs[..|rs| - 1]) + rs[|rs| - 1].size
  }

  lemma {:induction false} NewDirsAreListed(m: Manifest, n: Name, upto: nat)
    requires 1 <= upto <= |n|
    ensures |WithAncestors(m, n, upto).order| == |m.order| + NewDirs(m, n, upto)
  {
    if upto > 1 {
      NewDirsAreListed(m, n, upto - 1);
      WithAncestorsKeeps(m, n, upto - 1, n[..upto - 1]);
    }
  }

  /** One accepted entry keeps the manifest well-formed, and lists no more
      names than it counts as. */
  lemma RecordKeepsWellFormed(m: Manifest, r: RawEntry, strip: nat)
    requires WellFormed(m) && Record(m, r, strip).Some?
    ensures WellFormed(Record(m, r, strip).value)
    ensures |Record(m, r, strip).value.order| <= |m.order| + Weight(m, r, strip)
  {
    if Acceptable(m, r, strip) {
      var n := NormalForm(r.raw, strip).name;
      InsertKeepsWellFormed(m, n, Validated(m.entries, r, strip).value);
      NewDirsAreListed(m, n, |n|);
    }
  }

  /** Every archive the walker can accept has a well-formed manifest, however
      its entries are chosen, and the manifest has no more names than entries
      were counted. */
  lemma {:induction false} RecordsAreWellFormed(rs: seq<RawEntry>, strip: nat)
    requires Records(rs, strip).Some?
    ensures WellFormed(Records(rs, strip).value)
    ensures |Records(rs, strip).value.order| <= TotalWeight(rs, strip)
  {
    if rs == [] {
      assert WellFormed(EMPTY);
    } else {
      var last := |rs| - 1;
      RecordsAreWellFormed(rs[..last], strip);
      RecordKeepsWellFormed(Records(rs[..last], strip).value, rs[last], strip);
    }
  }

  /** Everything that passes its own checks fits wherever its ancestors and an
      earlier entry of the same name allow it. */
  lemma ValidatedFits(m: Manifest, r: RawEntry, strip: nat, n: Name)
    requires WellFormed(m) && NormalForm(r.raw, strip) == Kept(n)
    requires Validated(m.entries, r, strip).Some?
    ensures var e := Validated(m.entries, r, strip).value;
            Fits(m, n, e) <==>
            && |Render(n)| <= MAX_ARCHIVE_NAME_LEN
            && Unblocked(m.entries, n)
            && (n in m.entries ==> m.entries[n].DirEntry? && e.DirEntry?)
  {
    KeptIsCanonical(r.raw, strip);
  }

  // -------------------------------------------------------------- room for the entries

  lemma {:induction false} SplitLength(s: string, sep: char)
    ensures |Split(s, sep)| <= |s| + 1
    decreases |s|
  {
    hide Find;
    var i := Find(s, sep);
    SplitOnce(s, sep, i);
    if i < |s| {
      SplitLength(s[i + 1..], sep);
    }
  }

  lemma {:induction false} SignificantLength(parts: seq<string>)
    ensures |Significant(parts)| <= |parts|
  {
    if parts != [] {
      SignificantLength(parts[1..]);
    }
  }

  lemma {:induction false} NewDirsAtMost(m: Manifest, n: Name, upto: nat)
    requires 1 <= upto <= |n|
    ensures NewDirs(m, n, upto) < upto
  {
    if 1 < upto {
      NewDirsAtMost(m, n, upto - 1);
    }
  }

  /** An entry and the directories it implies count no more than the bytes it takes up. */
  lemma WeightFits(m: Manifest, r: RawEntry, strip: nat)
    requires Framed(r)
    ensures 1 <= Weight(m, r, strip) <= r.bytes
  {
    hide Split, Significant, NewDirs;
    SplitLength(r.raw, '/');
    SignificantLength(Split(r.raw, '/'));
    var n := NormalForm(r.raw, strip);
    if n.Kept? && n.name != [] {
      NewDirsAtMost(m, n.name, |n.name|);
    }
  }

  // ------------------------------------------------------------------- the walker

  datatype Added = AddRefused | AddSkipped | AddRecorded(name: Name, entry: Entry)

  class Walker {
    const lim: Limits
    var m: Manifest
    var entries: int
    var size: int
    /** The bytes that may still be read. */
    var left: int
    /** The counters as unbounded numbers. */
    ghost var seen: nat
    ghost var declared: nat

    ghost predicate Valid()
      reads this
    {
      Counters() && WellFormed(m)
    }

    ghost predicate Counters()
      reads this
    {
      && ValidLimits(lim)
      && entries == seen <= lim.maxEntries
      && size == declared <= lim.maxSize
      && seen <= lim.room - left <= MAX_INT64
    }

    constructor (lim: Limits)
      requires ValidLimits(lim)
      ensures Valid() && this.lim == lim && m == EMPTY && seen == 0 && declared == 0 && left == lim.room
    {
      this.lim := lim;
      m := EMPTY;
      entries, size, left := 0, 0, lim.room;
      seen, declared := 0, 0;
    }

    /** limitErrReader: reading more than what is left fails. */
    method Read(bytes: nat) returns (ok: bool)
      requires Valid()
      modifies this`left
      ensures ok <==> bytes <= old(left)
      ensures left == if ok then old(left) - bytes else old(left)
      ensures ok ==> 0 <= left && Valid()
    {
      ok := bytes <= left;
      if ok {
        left := left - bytes;
      }
    }

    /** One more entry. An entry takes up at least a byte, so that the counter cannot wrap
        around. */
    method CountOne() returns (ok: bool)
      requires Counters() && seen < lim.room - left
      modifies this`entries, this`seen
      ensures seen == old(seen) + 1
      ensures ok <==> seen <= lim.maxEntries
      ensures ok ==> Counters()
    {
      entries := Incremented(entries);
      seen := seen + 1;
      ok := entries <= lim.maxEntries;
    }

    method Count(sz: int) returns (ok: bool)
      requires Valid() && sz <= MAX_INT64 && seen < lim.room - left
      modifies this`entries, this`size, this`seen, this`declared
      ensures seen == old(seen) + 1
      ensures ok <==> && seen <= lim.maxEntries
                      && 0 <= sz && old(declared) + sz <= lim.maxSize
      ensures ok ==> Valid() && declared == old(declared) + sz
    {
      ok := CountOne();
      if !ok {
        return;
      }
      assert 0 <= lim.maxSize - size <= MAX_INT64; // no wrap-around
      if sz < 0 || sz > lim.maxSize - size {
        return false;
      }
      size := size + sz;
      declared := declared + sz;
    }

    /** The loop over the ancestors of `name`: each must be a directory, and a
        missing one is recorded and counted. */
    method AddAncestors(name: Name) returns (ok: bool)
      requires Counters() && name != [] && seen + NewDirs(m, name, |name|) <= lim.room - left
      modifies this`m, this`entries, this`seen
      ensures ok <==>
                && (forall i: nat :: Clear(old(m).entries, name, i))
                && old(seen) + NewDirs(old(m), name, |name|) <= lim.maxEntries
      ensures ok ==>
                && Counters()
                && m == WithAncestors(old(m), name, |name|)
                && seen == old(seen) + NewDirs(old(m), name, |name|)
    {
      ghost var was := m;
      for i := 1 to |name|
        invariant Counters()
        invariant m == WithAncestors(was, name, i)
        invariant seen == old(seen) + NewDirs(was, name, i)
        invariant forall j: nat :: j < i ==> Clear(was.entries, name, j)
      {
        var parent := name[..i];
        WithAncestorsKeeps(was, name, i, parent);
        NewDirsGrows(was, name, i + 1, |name|);
        if parent in m.entries {
          if !m.entries[parent].DirEntry? {
            assert !Clear(was.entries, name, i);
            return false;
          }
        } else {
          var counted := CountOne();
          if !counted {
            return false;
          }
          m := Manifest(m.entries[parent := IMPLICIT_DIR], m.order + [parent]);
        }
      }
      ok := true;
    }

    /** Records one counted entry: it succeeds exactly if the entry is
        acceptable and the directories it implies fit the limit. */
    method Add(r: RawEntry) returns (a: Added)
      requires Valid() && !r.kind.RawOther? && 0 <= r.size
      requires seen + Weight(m, r, lim.strip) - 1 <= lim.room - left
      modifies this`m, this`entries, this`seen
      ensures a.AddSkipped? <==> NormalForm(r.raw, lim.strip).Dropped?
      ensures a.AddSkipped? ==> Valid() && m == old(m) && seen == old(seen)
      ensures a.AddRecorded? <==>
                && Acceptable(old(m), r, lim.strip)
                && old(seen) + Weight(old(m), r, lim.strip) - 1 <= lim.maxEntries
      ensures a.AddRecorded? ==>
                && Valid()
                && NormalForm(r.raw, lim.strip) == Kept(a.name)
                && Validated(old(m).entries, r, lim.strip) == Some(a.entry)
                && Fits(old(m), a.name, a.entry)
                && m == Insert(old(m), a.name, a.entry)
                && seen == old(seen) + Weight(old(m), r, lim.strip) - 1
    {
      var norm := Normalize(r.raw, lim.strip);
      if norm.Refused? {
        return AddRefused;
      }
      if norm.Dropped? {
        return AddSkipped;
      }
      var name := norm.name;
      KeptIsCanonical(r.raw, lim.strip);
      if |Render(name)| > MAX_ARCHIVE_NAME_LEN {
        return AddRefused;
      }
      var e := Validated(m.entries, r, lim.strip);
      if e.None? {
        return AddRefused;
      }
      ValidatedFits(m, r, lim.strip, name);
      UnblockedMeans(m.entries, name);
      ghost var was := m;
      var ok := AddAncestors(name);
      if !ok {
        return AddRefused;
      }
      WithAncestorsKeeps(was, name, |name|, name);
      if name in m.entries {
        if !m.entries[name].DirEntry? || !e.value.DirEntry? {
          return AddRefused;
        }
        m := m.(entries := m.entries[name := e.value]);
      } else {
        m := Manifest(m.entries[name := e.value], m.order + [name]);
      }
      InsertKeepsWellFormed(was, name, e.value);
      a := AddRecorded(name, e.value);
    }

    /** The body of the loop of walkTar. */
    method Process(r: RawEntry) returns (a: Added)
      requires Valid() && r.size <= MAX_INT64 && Framed(r)
      modifies this
      ensures !a.AddRefused? <==>
                && r.bytes <= old(left)
                && 0 <= r.size && old(declared) + r.size <= lim.maxSize
                && old(seen) + Weight(old(m), r, lim.strip) <= lim.maxEntries
                && Record(old(m), r, lim.strip).Some?
      ensures !a.AddRefused? ==>
                && Valid()
                && Some(m) == Record(old(m), r, lim.strip)
                && seen == old(seen) + Weight(old(m), r, lim.strip)
                && declared == old(declared) + r.size
                && left == old(left) - r.bytes
      ensures a.AddRecorded? ==>
                && NormalForm(r.raw, lim.strip) == Kept(a.name)
                && Validated(old(m).entries, r, lim.strip) == Some(a.entry)
                && Fits(old(m), a.name, a.entry)
                && m == Insert(old(m), a.name, a.entry)
      ensures a.AddSkipped? ==> NormalForm(r.raw, lim.strip).Dropped? && m == old(m)
    {
      hide WellFormed, NormalForm, NewDirs;
      var ok := Read(r.bytes);
      if !ok {
        return AddRefused;
      }
      WeightFits(m, r, lim.strip);
      ok := Count(r.size);
      if !ok || r.kind.RawOther? {
        return AddRefused;
      }
      a := Add(r);
    }
  }

  lemma {:induction false} NewDirsGrows(m: Manifest, n: Name, i: nat, j: nat)
    requires 1 <= i <= j <= |n|
    ensures NewDirs(m, n, i) <= NewDirs(m, n, j)
    decreases j - i
  {
    if i < j {
      NewDirsGrows(m, n, i, j - 1);
    }
  }

  // ------------------------------------------------------------- the whole walk

  /** The totals stay within the limits. */
  ghost predicate WithinLimits(rs: seq<RawEntry>, lim: Limits)
  {
    && TotalWeight(rs, lim.strip) <= lim.maxEntries
    && (rs != [] ==> TotalBytes(rs) <= lim.room)
    && TotalSize(rs) <= lim.maxSize
    && forall r :: r in rs ==> 0 <= r.size
  }

  ghost predicate Accepted(rs: seq<RawEntry>, lim: Limits)
  {
    WithinLimits(rs, lim) && Records(rs, lim.strip).Some?
  }

  lemma {:induction false} PrefixAccepted(rs: seq<RawEntry>, k: nat, lim: Limits)
    requires k <= |rs| && Accepted(rs, lim)
    ensures Accepted(rs[..k], lim)
    decreases |rs| - k
  {
    if k < |rs| {
      var most := rs[..|rs| - 1];
      assert rs[|rs| - 1] in rs;
      PrefixAccepted(most, k, lim);
      assert most[..k] == rs[..k];
    } else {
      assert rs[..k] == rs;
    }
  }

  /** One more entry of an accepted archive. */
  lemma AcceptedStep(rs: seq<RawEntry>, r: RawEntry, lim: Limits)
    requires Accepted(rs, lim)
    ensures var m := Records(rs, lim.strip).value;
            && Records(rs + [r], lim.strip) == Record(m, r, lim.strip)
            && TotalWeight(rs + [r], lim.strip) == TotalWeight(rs, lim.strip) + Weight(m, r, lim.strip)
            && TotalSize(rs + [r]) == TotalSize(rs) + r.size
            && TotalBytes(rs + [r]) == TotalBytes(rs) + r.bytes
    ensures WithinLimits(rs + [r], lim) ==> 0 <= r.size
  {}

  lemma NothingWalked(lim: Limits)
    requires ValidLimits(lim)
    ensures Records([], lim.strip) == Some(EMPTY) && TotalWeight([], lim.strip) == 0 && TotalSize([]) == 0
    ensures TotalBytes([]) == 0
    ensures Accepted([], lim)
  {}

  /** The loop of walkTar: it accepts exactly the archives whose entries are
      all acceptable in turn and whose totals are within the limits, and the
      manifest is the well-formed one of those entries. */
  method WalkEntries(rs: seq<RawEntry>, lim: Limits) returns (r: Option<Manifest>)
    requires ValidLimits(lim)
    requires forall x :: x in rs ==> x.size <= MAX_INT64 && Framed(x)
    ensures r.Some? <==> Accepted(rs, lim)
    ensures r.Some? ==> r == Records(rs, lim.strip) && WellFormed(r.value)
    ensures r.Some? ==> |r.value.order| <= lim.maxEntries
  {
    hide Records, TotalWeight, TotalSize, TotalBytes, Record, Weight, WellFormed;
    var w := new Walker(lim);
    NothingWalked(lim);
    assert rs[..0] == [];
    for i := 0 to |rs|
      invariant w.Valid() && w.lim == lim
      invariant Accepted(rs[..i], lim)
      invariant Records(rs[..i], lim.strip) == Some(w.m)
      invariant w.seen == TotalWeight(rs[..i], lim.strip)
      invariant w.declared == TotalSize(rs[..i])
      invariant w.left == lim.room - TotalBytes(rs[..i])
    {
      AcceptedStep(rs[..i], rs[i], lim);
      assert rs[..i + 1] == rs[..i] + [rs[i]];
      if Accepted(rs, lim) {
        PrefixAccepted(rs, i + 1, lim);
      }
      var a := w.Process(rs[i]);
      if a.AddRefused? {
        return None;
      }
    }
    assert rs[..|rs|] == rs;
    RecordsAreWellFormed(rs, lim.strip);
    r := Some(w.m);
  }

  // ------------------------------------------------------- the room of a tar archive

  /** An int64 after wrap-around. */
  function Wrapped(x: int): int { (x + TWO_63) % TWO_64 - TWO_63 }

  /** What headers and padding of one entry may take up. */
  const TAR_OVERHEAD: int := 0x4000

  const MAX_STREAM: int := 0x4000_0000_0000_0000

  function Overhead(maxEntries: nat): int { Wrapped(Wrapped(maxEntries + 1) * TAR_OVERHEAD) }

  /** streamLimit of walkTar, with the wrap-around of its int64 operations. */
  function StreamLimit(maxSize: nat, maxEntries: nat): int
  {
    var overhead := Overhead(maxEntries);
    if maxSize > Wrapped(MAX_STREAM - overhead) then MAX_STREAM else Wrapped(maxSize + overhead)
  }

  /** What the settings allow: all contents, and the overhead of all entries and of the end. */
  function Promised(maxSize: nat, maxEntries: nat): int
  {
    var all := maxSize + (maxEntries + 1) * TAR_OVERHEAD;
    if all <= MAX_STREAM then all else MAX_STREAM
  }

  predicate NoOverflow(maxEntries: nat) { (maxEntries + 1) * TAR_OVERHEAD <= MAX_INT64 }

  lemma WrappedIs(x: int)
    ensures -TWO_63 <= Wrapped(x) <= MAX_INT64
    ensures -TWO_63 <= x <= MAX_INT64 ==> Wrapped(x) == x
    ensures TWO_63 <= x < TWO_64 ==> Wrapped(x) == x - TWO_64
  {}

  lemma OverheadIs(maxEntries: nat)
    requires maxEntries <= MAX_INT64
    ensures NoOverflow(maxEntries) ==> Overhead(maxEntries) == (maxEntries + 1) * TAR_OVERHEAD
    ensures -TWO_63 <= Overhead(maxEntries) <= MAX_INT64
  {
    hide Wrapped;
    WrappedIs(maxEntries + 1);
    WrappedIs(Wrapped(maxEntries + 1) * TAR_OVERHEAD);
  }

  /** The stream is never allowed more than the settings allow; and exactly that if and only
      if the overhead does not overflow, or overflows to something that makes no difference. */
  lemma StreamLimitIsPromised(maxSize: nat, maxEntries: nat)
    requires 1 <= maxSize <= MAX_INT64 && 1 <= maxEntries <= MAX_INT64
    ensures StreamLimit(maxSize, maxEntries) <= Promised(maxSize, maxEntries) <= MAX_STREAM
    ensures StreamLimit(maxSize, maxEntries) == Promised(maxSize, maxEntries) <==>
      || NoOverflow(maxEntries)
      || Overhead(maxEntries) <= -MAX_STREAM
      || maxSize + Overhead(maxEntries) >= MAX_STREAM
  {
    hide Wrapped, Overhead;
    OverheadIs(maxEntries);
    WrappedIs(MAX_STREAM - Overhead(maxEntries));
    WrappedIs(maxSize + Overhead(maxEntries));
  }

  /** An entry whose headers and padding are within the overhead. */
  predicate Ordinary(r: RawEntry) { 0 <= r.size && r.bytes <= r.size + TAR_OVERHEAD }

  lemma {:induction false} OrdinaryBytes(rs: seq<RawEntry>)
    requires forall r :: r in rs ==> Ordinary(r)
    ensures TotalBytes(rs) <= TotalSize(rs) + |rs| * TAR_OVERHEAD
  {
    if rs != [] {
      OrdinaryBytes(rs[..|rs| - 1]);
      assert Ordinary(rs[|rs| - 1]);
    }
  }

  lemma {:induction false} WeightIsAtLeast(rs: seq<RawEntry>, strip: nat)
    ensures |rs| <= TotalWeight(rs, strip)
  {
    hide Weight, Records, NewDirs;
    if rs != [] {
      WeightIsAtLeast(rs[..|rs| - 1], strip);
      var m := Records(rs[..|rs| - 1], strip);
      if m.Some? {
        WeightIsPositive(m.value, rs[|rs| - 1], strip);
      }
    }
  }

  lemma WeightIsPositive(m: Manifest, r: RawEntry, strip: nat)
    ensures 1 <= Weight(m, r, strip)
  {}

  /** Where the stream is allowed what the settings allow, it never refuses an ordinary
      archive: what is accepted is decided by max_size and max_entries alone. */
  lemma OrdinaryIsAccepted(rs: seq<RawEntry>, lim: Limits)
    requires ValidLimits(lim) && lim.room == Promised(lim.maxSize, lim.maxEntries)
    requires (forall r :: r in rs ==> Ordinary(r)) && TotalBytes(rs) <= MAX_STREAM
    ensures Accepted(rs, lim) <==>
      && TotalWeight(rs, lim.strip) <= lim.maxEntries && TotalSize(rs) <= lim.maxSize
      && Records(rs, lim.strip).Some?
  {
    hide Records, TotalWeight, TotalSize, TotalBytes;
    OrdinaryBytes(rs);
    WeightIsAtLeast(rs, lim.strip);
    assert forall r :: r in rs ==> Ordinary(r) && 0 <= r.size;
  }

  const ONE_GIB: nat := 0x4000_0000
  const MANY: nat := 0x4_0000_0000_0000 - 1
  const BIG_FILE := RawEntry("f", RawFile, 0, ONE_GIB, "", "", ONE_GIB + 512)

  /** With max_entries 2^50 - 1 the overhead overflows to 0: one ordinary file of max_size
      bytes is within both settings, but its header has no room. */
  lemma NoRoomForHeaders(strip: nat)
    ensures StreamLimit(ONE_GIB, MANY) == ONE_GIB
    ensures Ordinary(BIG_FILE) && Framed(BIG_FILE)
    ensures TotalSize([BIG_FILE]) == ONE_GIB && TotalWeight([BIG_FILE], strip) <= MANY
    ensures !Accepted([BIG_FILE], Limits(strip, ONE_GIB, MANY, StreamLimit(ONE_GIB, MANY)))
  {
    assert Overhead(MANY) == 0;
    var rs := [BIG_FILE];
    assert rs[..0] == [];
    WeightFits(EMPTY, BIG_FILE, strip);
    assert TotalBytes(rs) == ONE_GIB + 512;
  }

  // ------------------------------------------------------------ the zip pre-check

  ghost function Sum(sizes: seq<nat>): nat
  {
    if sizes == [] then 0 else Sum(sizes[..|sizes| - 1]) + sizes[|sizes| - 1]
  }

  lemma {:induction false} SumGrows(sizes: seq<nat>, k: nat)
    requires k <= |sizes|
    ensures Sum(sizes[..k]) <= Sum(sizes)
    decreases |sizes| - k
  {
    if k < |sizes| {
      var most := sizes[..|sizes| - 1];
      SumGrows(most, k);
      assert most[..k] == sizes[..k];
    } else {
      assert sizes[..k] == sizes;
    }
  }

  /** walkZip's check before anything is extracted: with totals kept in a
      uint64, it passes exactly if the true sum of the declared sizes is within
      the limit. */
  method ZipPrecheck(sizes: seq<nat>, lim: Limits) returns (ok: bool)
    requires ValidLimits(lim)
    requires forall i :: 0 <= i < |sizes| ==> sizes[i] < TWO_64
    ensures ok <==> |sizes| <= lim.maxEntries && Sum(sizes) <= lim.maxSize
  {
    if |sizes| > lim.maxEntries {
      return false;
    }
    var total := 0;
    for i := 0 to |sizes|
      invariant total == Sum(sizes[..i]) <= lim.maxSize
    {
      var next := sizes[..i + 1];
      assert next[..i] == sizes[..i] && next[|next| - 1] == sizes[i];
      SumGrows(sizes, i + 1);
      total := (total + sizes[i]) % TWO_64;
      if sizes[i] > lim.maxSize || total > lim.maxSize {
        return false;
      }
    }
    assert sizes[..|sizes|] == sizes;
    ok := true;
  }
}
