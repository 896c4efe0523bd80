/** Which archives are accepted, and what they then hold, read off their entries alone: a
    description of the walker's manifest without the walker (archive.go, add). */
module ArchiveContents {
  import opened Text
  import opened ArchiveNames
  import opened ArchiveManifest
  import opened ArchiveWalker
  import opened ArchiveExtract
  import opened FileTree

  /** The name an entry is extracted as, unless it is stripped or refused. */
  function NameOf(r: RawEntry, strip: nat): Option<Name>
  {
    match NormalForm(r.raw, strip)
    case Kept(n) => Some(n)
    case _ => None
  }

  // ------------------------------------------------------------- acceptable archives

  /** An entry that is acceptable by itself. */
  ghost predicate Alone(r: RawEntry, strip: nat)
  {
    && !NormalForm(r.raw, strip).Refused? && !r.kind.RawOther?
    && (NameOf(r, strip).Some? ==>
          && |Render(NameOf(r, strip).value)| <= MAX_ARCHIVE_NAME_LEN
          && (r.kind.RawFile? ==> 0 <= r.size)
          && (r.kind.RawSymlink? ==>
                r.link != "" && |r.link| <= MAX_SYMLINK_TARGET_LEN && '\0' !in r.link && r.link[0] != '/'))
  }

  predicate IsFile(r: RawEntry) { r.kind.RawFile? || r.kind.RawHardLink? }

  /** Two entries, in this order, do not get in each other's way: nothing is extracted below
      what is no directory, and nothing twice but directories. */
  ghost predicate Agree(a: RawEntry, b: RawEntry, strip: nat)
  {
    NameOf(a, strip).Some? && NameOf(b, strip).Some? ==>
      var m, n := NameOf(a, strip).value, NameOf(b, strip).value;
      && (m == n ==> a.kind.RawDir? && b.kind.RawDir?)
      && (Below(m, n) ==> a.kind.RawDir?)
      && (Below(n, m) ==> b.kind.RawDir?)
  }

  /** `r` is a file or a hard link with the name that `link` gives. */
  ghost predicate IsTarget(r: RawEntry, link: string, strip: nat)
  {
    IsFile(r) && NameOf(r, strip).Some? && NormalForm(link, strip) == Kept(NameOf(r, strip).value)
  }

  /** A hard link names a file, or a hard link, that came before. */
  ghost predicate LinksBack(rs: seq<RawEntry>, i: nat, strip: nat)
    requires i < |rs|
  {
    rs[i].kind.RawHardLink? && NameOf(rs[i], strip).Some? ==> SomeTarget(rs, i, rs[i].link, strip)
  }

  ghost predicate SomeTarget(rs: seq<RawEntry>, n: nat, link: string, strip: nat)
    requires n <= |rs|
  {
    exists j :: 0 <= j < n && IsTarget(rs[j], link, strip)
  }

  ghost predicate GoodAt(rs: seq<RawEntry>, i: nat, strip: nat)
    requires i < |rs|
  {
    && Alone(rs[i], strip) && LinksBack(rs, i, strip)
    && forall j :: 0 <= j < i ==> Agree(rs[j], rs[i], strip)
  }

  ghost predicate Consistent(rs: seq<RawEntry>, strip: nat)
  {
    forall i :: 0 <= i < |rs| ==> GoodAt(rs, i, strip)
  }

  // --------------------------------------------------------------- what they hold

  /** The entry is extracted as `n` or below it. */
  ghost predicate Covers(r: RawEntry, n: Name, strip: nat)
  {
    n != [] && NameOf(r, strip).Some? && n <= NameOf(r, strip).value
  }

  ghost predicate SomeCovers(rs: seq<RawEntry>, n: Name, strip: nat)
  {
    exists i :: 0 <= i < |rs| && Covers(rs[i], n, strip)
  }

  /** The manifest has the entry as it was written. */
  ghost predicate Holds(es: Entries, r: RawEntry, strip: nat)
  {
    NameOf(r, strip).Some? ==>
      var n := NameOf(r, strip).value;
      && n in es
      && match r.kind
         case RawDir => es[n].DirEntry?
         case RawFile => 0 <= r.size && es[n] == FileEntry(r.mode, r.size, r.content)
         case RawSymlink => es[n] == SymlinkEntry(r.mode, r.link)
         case RawHardLink => es[n].HardLinkEntry? && SharesFile(es, n, NormalForm(r.link, strip))
         case RawOther => false
  }

  /** A hard link shares its file with what it names. */
  ghost predicate SharesFile(es: Entries, n: Name, t: Normalized)
    requires n in es && es[n].HardLinkEntry?
  {
    var b := es[n].base;
    && b in es && es[b].FileEntry?
    && t.Kept? && t.name in es
    && (t.name == b || (es[t.name].HardLinkEntry? && es[t.name].base == b))
  }

  /** What is no directory is one of the entries. */
  ghost predicate FromEntry(rs: seq<RawEntry>, n: Name, strip: nat)
  {
    exists i :: 0 <= i < |rs| && NameOf(rs[i], strip) == Some(n) && !rs[i].kind.RawDir?
  }

  ghost predicate Shows(rs: seq<RawEntry>, es: Entries, strip: nat)
  {
    && (forall n :: n in es <==> SomeCovers(rs, n, strip))
    && (forall i :: 0 <= i < |rs| ==> Holds(es, rs[i], strip))
    && (forall n :: n in es && !es[n].DirEntry? ==> FromEntry(rs, n, strip))
  }

  // ------------------------------------------------------------------ one more entry

  lemma PrefixGood(rs: seq<RawEntry>, i: nat, strip: nat)
    requires i < |rs| - 1
    ensures GoodAt(rs[..|rs| - 1], i, strip) == GoodAt(rs, i, strip)
  {
    hide Alone, Agree, SomeTarget;
    var init := rs[..|rs| - 1];
    assert forall j :: 0 <= j <= i ==> init[j] == rs[j];
    SameTargets(init, rs, i, rs[i].link, strip);
  }

  lemma SameTargets(a: seq<RawEntry>, b: seq<RawEntry>, n: nat, link: string, strip: nat)
    requires n <= |a| && n <= |b| && forall j :: 0 <= j < n ==> a[j] == b[j]
    ensures SomeTarget(a, n, link, strip) == SomeTarget(b, n, link, strip)
  {
    hide IsTarget;
    if SomeTarget(a, n, link, strip) {
      var j :| 0 <= j < n && IsTarget(a[j], link, strip);
      assert IsTarget(b[j], link, strip);
    }
    if SomeTarget(b, n, link, strip) {
      var j :| 0 <= j < n && IsTarget(b[j], link, strip);
      assert IsTarget(a[j], link, strip);
    }
  }

  lemma ConsistentStep(rs: seq<RawEntry>, strip: nat)
    requires rs != []
    ensures Consistent(rs, strip) <==> Consistent(rs[..|rs| - 1], strip) && GoodAt(rs, |rs| - 1, strip)
  {
    hide GoodAt;
    var init := rs[..|rs| - 1];
    if Consistent(rs, strip) {
      forall i | 0 <= i < |init| ensures GoodAt(init, i, strip) { PrefixGood(rs, i, strip); }
    }
    if Consistent(init, strip) && GoodAt(rs, |rs| - 1, strip) {
      forall i | 0 <= i < |rs| ensures GoodAt(rs, i, strip) {
        if i < |init| {
          PrefixGood(rs, i, strip);
        }
      }
    }
  }

  lemma ShowsAt(rs: seq<RawEntry>, es: Entries, i: nat, strip: nat)
    requires Shows(rs, es, strip) && i < |rs|
    ensures Holds(es, rs[i], strip)
  {
    hide Holds;
  }

  lemma ShowsName(rs: seq<RawEntry>, es: Entries, n: Name, strip: nat)
    requires Shows(rs, es, strip)
    ensures n in es <==> SomeCovers(rs, n, strip)
  {
    hide SomeCovers, Holds;
  }

  lemma ShowsFrom(rs: seq<RawEntry>, es: Entries, n: Name, strip: nat)
    requires Shows(rs, es, strip) && n in es && !es[n].DirEntry?
    ensures FromEntry(rs, n, strip)
  {
    hide FromEntry, Holds;
  }

  /** What blocks an entry is an entry that is no directory above it. */
  lemma UnblockedIs(rs: seq<RawEntry>, es: Entries, n: Name, strip: nat)
    requires Shows(rs, es, strip)
    ensures Unblocked(es, n) <==> forall j :: 0 <= j < |rs| ==> NotAbove(rs[j], n, strip)
  {
    hide NormalForm, Shows;
    if !Unblocked(es, n) {
      var p :| Below(p, n) && p in es && !es[p].DirEntry?;
      ShowsFrom(rs, es, p, strip);
      var j :| 0 <= j < |rs| && NameOf(rs[j], strip) == Some(p) && !rs[j].kind.RawDir?;
      assert !NotAbove(rs[j], n, strip);
    }
    forall j | 0 <= j < |rs| && !NotAbove(rs[j], n, strip) ensures !Unblocked(es, n) {
      ShowsAt(rs, es, j, strip);
    }
  }

  ghost predicate NotAbove(r: RawEntry, n: Name, strip: nat)
  {
    NameOf(r, strip).Some? && Below(NameOf(r, strip).value, n) ==> r.kind.RawDir?
  }

  /** An entry that comes again, or is there because others are below it, is a directory. */
  ghost predicate NotTaken(a: RawEntry, b: RawEntry, n: Name, strip: nat)
  {
    NameOf(a, strip).Some? ==>
      && (NameOf(a, strip).value == n ==> a.kind.RawDir? && b.kind.RawDir?)
      && (Below(n, NameOf(a, strip).value) ==> b.kind.RawDir?)
  }

  lemma FreeIs(rs: seq<RawEntry>, m: Manifest, r: RawEntry, n: Name, strip: nat)
    requires WellFormed(m) && Shows(rs, m.entries, strip) && n != []
    ensures (n in m.entries ==> m.entries[n].DirEntry? && r.kind.RawDir?)
        <==> forall j :: 0 <= j < |rs| ==> NotTaken(rs[j], r, n, strip)
  {
    hide NormalForm, WellFormed, Shows;
    var es := m.entries;
    if n in es && !(es[n].DirEntry? && r.kind.RawDir?) {
      var j := TakenBy(rs, es, r, n, strip);
      assert !NotTaken(rs[j], r, n, strip);
    }
    forall j | 0 <= j < |rs| && !NotTaken(rs[j], r, n, strip)
      ensures n in es && !(es[n].DirEntry? && r.kind.RawDir?)
    {
      ShowsAt(rs, es, j, strip);
      if Below(n, NameOf(rs[j], strip).value) {
        AboveIsDirectory(m, n, NameOf(rs[j], strip).value);
      }
    }
  }

  lemma AboveIsDirectory(m: Manifest, p: Name, n: Name)
    requires WellFormed(m) && n in m.entries && Below(p, n)
    ensures p in m.entries && m.entries[p].DirEntry?
  {
    hide Ordered, Resolved, Canonical, Render;
    assert IsDir(m.entries, p);
  }

  lemma TakenBy(rs: seq<RawEntry>, es: Entries, r: RawEntry, n: Name, strip: nat) returns (j: nat)
    requires Shows(rs, es, strip) && n in es && !(es[n].DirEntry? && r.kind.RawDir?)
    ensures j < |rs| && !NotTaken(rs[j], r, n, strip)
  {
    hide NormalForm, Shows;
    if !es[n].DirEntry? {
      ShowsFrom(rs, es, n, strip);
      j :| 0 <= j < |rs| && NameOf(rs[j], strip) == Some(n) && !rs[j].kind.RawDir?;
    } else {
      ShowsName(rs, es, n, strip);
      j :| 0 <= j < |rs| && Covers(rs[j], n, strip);
    }
  }

  lemma AgreeParts(a: RawEntry, b: RawEntry, n: Name, strip: nat)
    requires NameOf(b, strip) == Some(n)
    ensures Agree(a, b, strip) <==> NotAbove(a, n, strip) && NotTaken(a, b, n, strip)
  {}

  /** A hard link can be made exactly if it names a file that came before. */
  lemma LinkToIs(rs: seq<RawEntry>, m: Manifest, link: string, t: Name, strip: nat)
    requires WellFormed(m) && Shows(rs, m.entries, strip) && NormalForm(link, strip) == Kept(t)
    ensures LinkTo(m.entries, t).Some? <==> SomeTarget(rs, |rs|, link, strip)
  {
    hide NormalForm, WellFormed, Shows;
    var es := m.entries;
    if LinkTo(es, t).Some? {
      ShowsFrom(rs, es, t, strip);
      var j :| 0 <= j < |rs| && NameOf(rs[j], strip) == Some(t) && !rs[j].kind.RawDir?;
      ShowsAt(rs, es, j, strip);
      assert IsTarget(rs[j], link, strip);
    }
    forall j | 0 <= j < |rs| && IsTarget(rs[j], link, strip) ensures LinkTo(es, t).Some? {
      ShowsAt(rs, es, j, strip);
      LinkIsResolved(m, t);
    }
  }

  lemma LinkIsResolved(m: Manifest, t: Name)
    requires WellFormed(m)
    ensures t in m.entries && m.entries[t].HardLinkEntry? ==>
      m.entries[t].base in m.entries && m.entries[m.entries[t].base].FileEntry?
  {
    hide Rooted, Ordered;
    if t in m.entries && m.entries[t].HardLinkEntry? {
      assert LinkResolved(m, t);
    }
  }

  lemma LinkNeedsName(es: Entries, r: RawEntry, strip: nat)
    requires r.kind.RawHardLink?
    ensures Validated(es, r, strip).Some? ==> NormalForm(r.link, strip).Kept?
    ensures NormalForm(r.link, strip).Kept? ==> Validated(es, r, strip) == LinkTo(es, NormalForm(r.link, strip).name)
  {}

  /** What add checks of an entry's kind. */
  lemma ValidatedIs(rs: seq<RawEntry>, m: Manifest, r: RawEntry, strip: nat)
    requires WellFormed(m) && Shows(rs, m.entries, strip) && NameOf(r, strip).Some?
    requires |Render(NameOf(r, strip).value)| <= MAX_ARCHIVE_NAME_LEN
    ensures Validated(m.entries, r, strip).Some? <==>
      Alone(r, strip) && (r.kind.RawHardLink? ==> SomeTarget(rs, |rs|, r.link, strip))
    ensures Validated(m.entries, r, strip).Some? ==>
      (Validated(m.entries, r, strip).value.DirEntry? <==> r.kind.RawDir?)
  {
    hide NormalForm, WellFormed, Shows, Render, SomeTarget;
    if r.kind.RawHardLink? {
      LinkNeedsName(m.entries, r, strip);
      if NormalForm(r.link, strip).Kept? {
        LinkToIs(rs, m, r.link, NormalForm(r.link, strip).name, strip);
      } else {
        NoTarget(rs, r.link, strip);
      }
    }
  }

  lemma NoTarget(rs: seq<RawEntry>, link: string, strip: nat)
    requires !NormalForm(link, strip).Kept?
    ensures !SomeTarget(rs, |rs|, link, strip)
  {}

  /** add records an entry exactly if it is good after those before. */
  lemma RecordedIs(rs: seq<RawEntry>, m: Manifest, r: RawEntry, strip: nat)
    requires WellFormed(m) && Shows(rs, m.entries, strip)
    ensures Record(m, r, strip).Some? <==> GoodAt(rs + [r], |rs|, strip)
  {
    hide NormalForm, WellFormed, Shows, Validated, Fits, Unblocked, Agree, Render, SomeTarget;
    assert forall j :: 0 <= j < |rs| ==> (rs + [r])[j] == rs[j];
    SameTargets(rs, rs + [r], |rs|, r.link, strip);
    if NameOf(r, strip).Some? {
      var n := NameOf(r, strip).value;
      KeptIsSome(r, strip);
      forall j | 0 <= j < |rs|
        ensures Agree(rs[j], r, strip) <==> NotAbove(rs[j], n, strip) && NotTaken(rs[j], r, n, strip)
      {
        AgreeParts(rs[j], r, n, strip);
      }
      UnblockedIs(rs, m.entries, n, strip);
      FreeIs(rs, m, r, n, strip);
      FitsNeeds(m, n, Validated(m.entries, r, strip));
      if |Render(n)| <= MAX_ARCHIVE_NAME_LEN {
        ValidatedIs(rs, m, r, strip);
        if Validated(m.entries, r, strip).Some? {
          ValidatedFits(m, r, strip, n);
        }
      }
    } else {
      forall j | 0 <= j < |rs| ensures Agree(rs[j], r, strip) { NamelessAgrees(rs[j], r, strip); }
    }
  }

  lemma KeptIsSome(r: RawEntry, strip: nat)
    requires NameOf(r, strip).Some?
    ensures NormalForm(r.raw, strip) == Kept(NameOf(r, strip).value) && NameOf(r, strip).value != []
    ensures Canonical(NameOf(r, strip).value)
  {
    KeptIsCanonical(r.raw, strip);
  }

  lemma NamelessAgrees(a: RawEntry, b: RawEntry, strip: nat)
    requires NameOf(b, strip).None?
    ensures Agree(a, b, strip)
  {}

  lemma FitsNeeds(m: Manifest, n: Name, e: Option<Entry>)
    ensures e.Some? && Fits(m, n, e.value) ==> |Render(n)| <= MAX_ARCHIVE_NAME_LEN
  {}

  // ----------------------------------------------------- the manifest goes on showing

  /** What an inserted entry changes. */
  ghost predicate Inserted(es: Entries, es': Entries, n: Name, e: Entry)
  {
    && n in es' && es'[n] == e
    && (forall k :: k in es && k != n ==> k in es' && es'[k] == es[k])
    && (forall k :: k in es' && k !in es && k != n ==> Below(k, n) && es'[k] == IMPLICIT_DIR)
    && (forall k :: Below(k, n) ==> k in es')
    && (n in es ==> es[n].DirEntry? && e.DirEntry?)
  }

  lemma InsertIs(m: Manifest, n: Name, e: Entry)
    requires WellFormed(m) && Fits(m, n, e)
    ensures Inserted(m.entries, Insert(m, n, e).entries, n, e)
  {
    hide Insert, Ordered, Resolved;
    InsertKeepsWellFormed(m, n, e);
    var es := Insert(m, n, e).entries;
    forall k | Below(k, n) ensures k in es {
      assert IsDir(es, k);
    }
  }

  /** An entry that was there is there as it was. */
  lemma HoldsStays(es: Entries, es': Entries, n: Name, e: Entry, r: RawEntry, strip: nat)
    requires Inserted(es, es', n, e) && Holds(es, r, strip)
    ensures Holds(es', r, strip)
  {
    hide NormalForm;
  }

  lemma HoldsNew(m: Manifest, es': Entries, r: RawEntry, n: Name, strip: nat)
    requires WellFormed(m) && NameOf(r, strip) == Some(n) && Validated(m.entries, r, strip).Some?
    requires Inserted(m.entries, es', n, Validated(m.entries, r, strip).value)
    ensures Holds(es', r, strip)
  {
    hide NormalForm, Ordered, Rooted;
    if r.kind.RawHardLink? {
      LinkNeedsName(m.entries, r, strip);
    }
  }

  lemma CoversStep(rs: seq<RawEntry>, r: RawEntry, k: Name, strip: nat)
    ensures SomeCovers(rs + [r], k, strip) <==> SomeCovers(rs, k, strip) || Covers(r, k, strip)
  {
    hide Covers;
    var all := rs + [r];
    assert forall j :: 0 <= j < |rs| ==> all[j] == rs[j];
    assert all[|rs|] == r;
  }

  lemma CoversAbove(r: RawEntry, n: Name, k: Name, strip: nat)
    requires NameOf(r, strip) == Some(n) && n != []
    ensures Covers(r, k, strip) <==> k == n || Below(k, n)
  {
    if k <= n && |k| == |n| {
      assert k == n[..|k|] == n;
    }
  }

  lemma FromStep(rs: seq<RawEntry>, r: RawEntry, k: Name, strip: nat)
    ensures FromEntry(rs, k, strip) || (NameOf(r, strip) == Some(k) && !r.kind.RawDir?) ==> FromEntry(rs + [r], k, strip)
  {
    hide NameOf;
    var all := rs + [r];
    assert all[|rs|] == r;
    assert forall j :: 0 <= j < |rs| ==> all[j] == rs[j];
  }

  lemma ShowsStep(rs: seq<RawEntry>, m: Manifest, es': Entries, r: RawEntry, n: Name, e: Entry, strip: nat)
    requires WellFormed(m) && Shows(rs, m.entries, strip) && NameOf(r, strip) == Some(n) && n != []
    requires Validated(m.entries, r, strip) == Some(e) && (e.DirEntry? <==> r.kind.RawDir?)
    requires Inserted(m.entries, es', n, e)
    ensures Shows(rs + [r], es', strip)
  {
    hide NormalForm, Validated, SomeCovers, FromEntry, Holds, WellFormed;
    var all := rs + [r];
    forall k ensures k in es' <==> SomeCovers(all, k, strip) {
      CoversStep(rs, r, k, strip);
      ShowsName(rs, m.entries, k, strip);
      CoversAbove(r, n, k, strip);
    }
    forall i | 0 <= i < |all| ensures Holds(es', all[i], strip) {
      if i < |rs| {
        ShowsAt(rs, m.entries, i, strip);
        HoldsStays(m.entries, es', n, e, rs[i], strip);
        assert all[i] == rs[i];
      } else {
        assert all[i] == r;
        HoldsNew(m, es', r, n, strip);
      }
    }
    forall k | k in es' && !es'[k].DirEntry? ensures FromEntry(all, k, strip) {
      FromStep(rs, r, k, strip);
    }
  }

  lemma ShowsNameless(rs: seq<RawEntry>, es: Entries, r: RawEntry, strip: nat)
    requires Shows(rs, es, strip) && NameOf(r, strip).None?
    ensures Shows(rs + [r], es, strip)
  {
    hide NormalForm, SomeCovers, FromEntry;
    var all := rs + [r];
    forall k ensures k in es <==> SomeCovers(all, k, strip) {
      CoversStep(rs, r, k, strip);
    }
    forall i | 0 <= i < |all| ensures Holds(es, all[i], strip) {
      if i < |rs| {
        ShowsAt(rs, es, i, strip);
      }
    }
    forall k | k in es && !es[k].DirEntry? ensures FromEntry(all, k, strip) {
      FromStep(rs, r, k, strip);
    }
  }

  lemma RecordShows(rs: seq<RawEntry>, m: Manifest, r: RawEntry, strip: nat)
    requires WellFormed(m) && Shows(rs, m.entries, strip) && Record(m, r, strip).Some?
    ensures Shows(rs + [r], Record(m, r, strip).value.entries, strip)
  {
    hide NormalForm, WellFormed, Shows, Validated, Fits, Render, Insert;
    if NameOf(r, strip).Some? {
      KeptIsSome(r, strip);
      var n := NameOf(r, strip).value;
      FitsNeeds(m, n, Validated(m.entries, r, strip));
      ValidatedIs(rs, m, r, strip);
      var e := Validated(m.entries, r, strip).value;
      InsertIs(m, n, e);
      ShowsStep(rs, m, Insert(m, n, e).entries, r, n, e, strip);
    } else {
      ShowsNameless(rs, m.entries, r, strip);
    }
  }

  // ------------------------------------------------------------------------ theorems

  lemma NothingShows(strip: nat)
    ensures Shows([], EMPTY.entries, strip)
  {}

  /** An archive is accepted, limits apart, if and only if its entries are consistent: each
      is acceptable by itself, links back to a file before it if it is a hard link, and none
      gets in another's way. The manifest then holds exactly what the entries say. */
  lemma {:induction false} AcceptedIs(rs: seq<RawEntry>, strip: nat)
    ensures Records(rs, strip).Some? <==> Consistent(rs, strip)
    ensures Records(rs, strip).Some? ==> Shows(rs, Records(rs, strip).value.entries, strip)
  {
    hide Record, Consistent, Shows, GoodAt, WellFormed;
    if rs == [] {
      NothingShows(strip);
      NothingConsistent(strip);
    } else {
      var init, r := rs[..|rs| - 1], rs[|rs| - 1];
      assert rs == init + [r];
      AcceptedIs(init, strip);
      ConsistentStep(rs, strip);
      if Records(init, strip).Some? {
        var m := Records(init, strip).value;
        RecordsAreWellFormed(init, strip);
        RecordedIs(init, m, r, strip);
        if Record(m, r, strip).Some? {
          RecordShows(init, m, r, strip);
        }
      }
    }
  }

  /** The last entry that names the directory, if one does. */
  ghost function LastDir(rs: seq<RawEntry>, n: Name, strip: nat): Option<RawEntry>
  {
    if rs == [] then None
    else if rs[|rs| - 1].kind.RawDir? && NameOf(rs[|rs| - 1], strip) == Some(n) then Some(rs[|rs| - 1])
    else LastDir(rs[..|rs| - 1], n, strip)
  }

  /** What is known of a directory from the entries. */
  ghost predicate DirectoryHas(rs: seq<RawEntry>, es: Entries, n: Name, strip: nat)
  {
    n in es && es[n].DirEntry? ==>
      es[n] == if LastDir(rs, n, strip).Some? then DirEntry(LastDir(rs, n, strip).value.mode, false) else IMPLICIT_DIR
  }

  /** A directory has the mode its last entry gives it, and one that no entry names is implicit. */
  lemma {:induction false} DirectoryIs(rs: seq<RawEntry>, n: Name, strip: nat)
    requires Consistent(rs, strip)
    ensures Records(rs, strip).Some? && DirectoryHas(rs, Records(rs, strip).value.entries, n, strip)
  {
    hide Consistent, Record, Shows, WellFormed, LastDir;
    AcceptedIs(rs, strip);
    if rs != [] {
      var init, r := rs[..|rs| - 1], rs[|rs| - 1];
      assert rs == init + [r];
      ConsistentStep(rs, strip);
      DirectoryIs(init, n, strip);
      RecordsAreWellFormed(init, strip);
      AcceptedIs(init, strip);
      DirectoryStep(init, Records(init, strip).value, r, n, strip);
    }
  }

  lemma DirectoryStep(rs: seq<RawEntry>, m: Manifest, r: RawEntry, n: Name, strip: nat)
    requires WellFormed(m) && Shows(rs, m.entries, strip) && Record(m, r, strip).Some?
    requires DirectoryHas(rs, m.entries, n, strip)
    ensures DirectoryHas(rs + [r], Record(m, r, strip).value.entries, n, strip)
  {
    hide NormalForm, WellFormed, Shows, Validated, Fits, Render, Insert, LastDir;
    LastDirStep(rs, r, n, strip);
    NotYetNamed(rs, m.entries, n, strip);
    if NameOf(r, strip).Some? {
      KeptIsSome(r, strip);
      var k := NameOf(r, strip).value;
      ValidatedDir(m.entries, r, strip);
      InsertIs(m, k, Validated(m.entries, r, strip).value);
    }
  }

  lemma ValidatedDir(es: Entries, r: RawEntry, strip: nat)
    ensures Validated(es, r, strip).Some? && Validated(es, r, strip).value.DirEntry? ==>
      r.kind.RawDir? && Validated(es, r, strip).value == DirEntry(r.mode, false)
    ensures r.kind.RawDir? ==> Validated(es, r, strip) == Some(DirEntry(r.mode, false))
  {
    hide NormalForm;
  }

  lemma LastDirStep(rs: seq<RawEntry>, r: RawEntry, n: Name, strip: nat)
    ensures LastDir(rs + [r], n, strip)
         == if r.kind.RawDir? && NameOf(r, strip) == Some(n) then Some(r) else LastDir(rs, n, strip)
  {
    hide NameOf;
    assert (rs + [r])[..|rs|] == rs;
  }

  lemma NotYetNamed(rs: seq<RawEntry>, es: Entries, n: Name, strip: nat)
    requires Shows(rs, es, strip)
    ensures n !in es ==> LastDir(rs, n, strip).None?
  {
    hide NameOf, LastDir;
    LastDirNames(rs, n, strip);
  }

  lemma {:induction false} LastDirNames(rs: seq<RawEntry>, n: Name, strip: nat)
    ensures LastDir(rs, n, strip).Some? ==> exists i :: 0 <= i < |rs| && NameOf(rs[i], strip) == Some(n)
  {
    hide NameOf;
    if rs != [] {
      var init := rs[..|rs| - 1];
      LastDirNames(init, n, strip);
      assert forall i :: 0 <= i < |init| ==> init[i] == rs[i];
    }
  }

  lemma NothingConsistent(strip: nat)
    ensures Consistent([], strip)
  {}

  /** What the extracted tree has for an entry: the same kind, contents and target; and for a
      hard link the contents of the file it names. */
  ghost predicate Extracts(t: Tree, r: RawEntry, strip: nat)
  {
    NameOf(r, strip).Some? ==>
      var n := NameOf(r, strip).value;
      && n in t
      && match r.kind
         case RawDir => t[n] == Directory
         case RawFile => t[n] == Regular(r.content)
         case RawSymlink => t[n] == Link(r.link)
         case RawHardLink =>
           var f := NormalForm(r.link, strip);
           f.Kept? && f.name in t && t[f.name].Regular? && t[n] == t[f.name]
         case RawOther => false
  }

  /** The tree of an accepted archive has every entry as it was written, the directories they
      are in, and nothing else. */
  lemma TreeIsWritten(rs: seq<RawEntry>, strip: nat)
    requires Consistent(rs, strip)
    ensures Records(rs, strip).Some?
    ensures var t := TreeOf(Records(rs, strip).value.entries);
      && (forall n :: n in t <==> SomeCovers(rs, n, strip))
      && (forall i :: 0 <= i < |rs| ==> Extracts(t, rs[i], strip))
      && (forall n :: n in t && t[n] != Directory ==> FromEntry(rs, n, strip))
  {
    hide NormalForm, Consistent, SomeCovers, FromEntry, Records, Extracts, Holds;
    AcceptedIs(rs, strip);
    var es := Records(rs, strip).value.entries;
    forall i | 0 <= i < |rs| ensures Extracts(TreeOf(es), rs[i], strip) {
      HeldIsExtracted(es, rs[i], strip);
    }
  }

  lemma HeldIsExtracted(es: Entries, r: RawEntry, strip: nat)
    requires Holds(es, r, strip)
    ensures Extracts(TreeOf(es), r, strip)
  {
    hide NormalForm;
  }

  // --------------------------------------------------------------------- what is counted

  /** How many entries have a name that nothing before them has or is in. */
  ghost function Fresh(rs: seq<RawEntry>, strip: nat): nat
  {
    if rs == [] then 0
    else
      var init, r := rs[..|rs| - 1], rs[|rs| - 1];
      Fresh(init, strip)
      + if NameOf(r, strip).Some? && !SomeCovers(init, NameOf(r, strip).value, strip) then 1 else 0
  }

  lemma InsertLength(m: Manifest, n: Name, e: Entry)
    requires n != []
    ensures |Insert(m, n, e).order| == |m.order| + NewDirs(m, n, |n|) + if n in m.entries then 0 else 1
  {
    hide NewDirs, WithAncestors;
    NewDirsAreListed(m, n, |n|);
    WithAncestorsKeeps(m, n, |n|, n);
  }

  lemma WeightIs(m: Manifest, r: RawEntry, strip: nat)
    ensures Weight(m, r, strip)
         == 1 + if NameOf(r, strip).Some? && NameOf(r, strip).value != []
                then NewDirs(m, NameOf(r, strip).value, |NameOf(r, strip).value|) else 0
  {
    hide NewDirs;
  }

  /** max_entries counts every entry, also one that is stripped, and every directory that is
      there only because something is in it when it is first needed: the names of the archive
      that are not those of fresh entries. */
  lemma {:induction false} CountedIs(rs: seq<RawEntry>, strip: nat)
    requires Consistent(rs, strip)
    ensures Records(rs, strip).Some?
    ensures TotalWeight(rs, strip) + Fresh(rs, strip) == |rs| + |Records(rs, strip).value.order|
  {
    hide Consistent, Shows, GoodAt, WellFormed, SomeCovers, NewDirs, Insert, Weight, NormalForm, Fits, Validated;
    AcceptedIs(rs, strip);
    if rs != [] {
      var init, r := rs[..|rs| - 1], rs[|rs| - 1];
      ConsistentStep(rs, strip);
      CountedIs(init, strip);
      AcceptedIs(init, strip);
      var m := Records(init, strip).value;
      WeightIs(m, r, strip);
      if NameOf(r, strip).Some? {
        var n := NameOf(r, strip).value;
        KeptIsSome(r, strip);
        ShowsName(init, m.entries, n, strip);
        InsertLength(m, n, Validated(m.entries, r, strip).value);
      }
    }
  }
}
