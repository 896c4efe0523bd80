/** The validated list of entries of an archive (archive.go, archiveEntry,
    archiveManifest and the checks of archiveWalker.add). */
module ArchiveManifest {
  import opened Text
  import opened ArchiveNames

  const MAX_SYMLINK_TARGET_LEN: nat := 4096

  /** One entry after strip_components. An implicit directory has no entry of
      its own in the archive. `content` is what the reader of a regular file
      delivers; `size` is what its header declares. */
  datatype Entry =
    | DirEntry(mode: nat, implicit: bool)
    | FileEntry(mode: nat, size: nat, content: string)
    | SymlinkEntry(mode: nat, target: string)
    | HardLinkEntry(mode: nat, size: nat, base: Name)

  const IMPLICIT_DIR := DirEntry(0x1ed, true) // 0755

  type Entries = map<Name, Entry>

  datatype Manifest = Manifest(entries: Entries, order: seq<Name>)

  const EMPTY := Manifest(map[], [])

  /** An entry as the tar or zip reader hands it over. */
  datatype RawKind = RawDir | RawFile | RawSymlink | RawHardLink | RawOther

  /** `bytes` is what it takes up in the archive: in the stream of a tar archive its headers,
      contents and padding, and in a zip archive its record in the directory. */
  datatype RawEntry = RawEntry(
    raw: string, kind: RawKind, mode: nat, size: int, link: string, content: string, bytes: nat)

  /** The name of an entry is part of what it takes up. */
  predicate Framed(r: RawEntry) { |r.raw| < r.bytes }

  // ----------------------------------------------------------- the invariants

  predicate ValidTarget(t: string)
  {
    t != "" && |t| <= MAX_SYMLINK_TARGET_LEN && '\0' !in t && t[0] != '/'
  }

  ghost predicate IsDir(es: Entries, n: Name) { n in es && es[n].DirEntry? }

  ghost predicate Rooted(es: Entries)
  {
    && (forall n :: n in es ==> Canonical(n) && |Render(n)| <= MAX_ARCHIVE_NAME_LEN)
    && (forall p, n :: n in es && Below(p, n) ==> IsDir(es, p))
  }

  /** `order` lists every entry once, and no directory after its contents. */
  ghost predicate Ordered(m: Manifest)
  {
    && (forall n :: n in m.order <==> n in m.entries)
    && (forall i, j :: 0 <= i < j < |m.order| ==> m.order[i] != m.order[j] && !Below(m.order[j], m.order[i]))
  }

  ghost predicate Earlier(order: seq<Name>, a: Name, b: Name)
  {
    exists i, j :: 0 <= i < j < |order| && order[i] == a && order[j] == b
  }

  /** Every hard link leads to a regular file, never to another link, and has
      that file's size and mode. */
  ghost predicate LinkResolved(m: Manifest, n: Name)
    requires n in m.entries && m.entries[n].HardLinkEntry?
  {
    var e := m.entries[n];
    && e.base in m.entries
    && m.entries[e.base].FileEntry?
    && m.entries[e.base].size == e.size
    && m.entries[e.base].mode == e.mode
    && Earlier(m.order, e.base, n)
  }

  ghost predicate Resolved(m: Manifest)
  {
    forall n :: n in m.entries ==>
      && (m.entries[n].HardLinkEntry? ==> LinkResolved(m, n))
      && (m.entries[n].SymlinkEntry? ==> ValidTarget(m.entries[n].target))
  }

  ghost predicate WellFormed(m: Manifest)
  {
    Rooted(m.entries) && Ordered(m) && Resolved(m)
  }

  // ------------------------------------------------------- inserting one entry

  /** Records `e` as `n`, in place if `n` is listed already. */
  function Put(m: Manifest, n: Name, e: Entry): Manifest
  {
    Manifest(m.entries[n := e], if n in m.entries then m.order else m.order + [n])
  }

  /** Creates the directory `p` implicitly unless it is there. */
  function PutDir(m: Manifest, p: Name): Manifest
  {
    if p in m.entries then m else Put(m, p, IMPLICIT_DIR)
  }

  /** All ancestors of `n` shorter than `upto`, the shortest first. */
  function WithAncestors(m: Manifest, n: Name, upto: nat): Manifest
    requires 1 <= upto <= |n|
  {
    if upto == 1 then m else PutDir(WithAncestors(m, n, upto - 1), n[..upto - 1])
  }

  function Insert(m: Manifest, n: Name, e: Entry): Manifest
    requires n != []
  {
    Put(WithAncestors(m, n, |n|), n, e)
  }

  /** No entry above `n` is anything but a directory. */
  ghost predicate Unblocked(es: Entries, n: Name)
  {
    forall p :: Below(p, n) && p in es ==> es[p].DirEntry?
  }

  /** The ancestor of length `i` is not anything but a directory. */
  predicate Clear(es: Entries, n: Name, i: nat)
  {
    0 < i < |n| && n[..i] in es ==> es[n[..i]].DirEntry?
  }

  lemma UnblockedMeans(es: Entries, n: Name)
    ensures Unblocked(es, n) <==> forall i: nat :: Clear(es, n, i)
  {
    forall p | (forall i: nat :: Clear(es, n, i)) && Below(p, n) && p in es ensures es[p].DirEntry? {
      assert Clear(es, n, |p|);
      assert n[..|p|] == p;
    }
    forall i | 1 <= i < |n| ensures Below(n[..i], n) {}
  }

  /** The conditions under which add records `e` as `n`. */
  ghost predicate Fits(m: Manifest, n: Name, e: Entry)
  {
    && Canonical(n)
    && |Render(n)| <= MAX_ARCHIVE_NAME_LEN
    && Unblocked(m.entries, n)
    && (n in m.entries ==> m.entries[n].DirEntry? && e.DirEntry?)
    && (e.SymlinkEntry? ==> ValidTarget(e.target))
    && (e.HardLinkEntry? ==> LinksToFile(m.entries, e))
  }

  ghost predicate LinksToFile(es: Entries, e: Entry)
    requires e.HardLinkEntry?
  {
    && e.base in es
    && es[e.base].FileEntry?
    && es[e.base].size == e.size
    && es[e.base].mode == e.mode
  }

  // ------------------------------------------------------------ preservation

  lemma PutKeepsOrdered(m: Manifest, n: Name, e: Entry)
    requires Rooted(m.entries) && Ordered(m)
    ensures Ordered(Put(m, n, e))
  {}

  lemma EarlierExtends(order: seq<Name>, more: seq<Name>, a: Name, b: Name)
    requires Earlier(order, a, b)
    ensures Earlier(order + more, a, b)
  {
    var i, j :| 0 <= i < j < |order| && order[i] == a && order[j] == b;
    assert (order + more)[i] == a && (order + more)[j] == b;
  }

  lemma NewLinkResolved(m: Manifest, n: Name, e: Entry)
    requires Ordered(m) && n !in m.entries && e.HardLinkEntry? && LinksToFile(m.entries, e)
    ensures LinkResolved(Put(m, n, e), n)
  {
    var m' := Put(m, n, e);
    var i :| 0 <= i < |m.order| && m.order[i] == e.base;
    assert m'.order[i] == e.base;
    assert m'.order[|m'.order| - 1] == n;
  }

  lemma LinkStaysResolved(m: Manifest, n: Name, e: Entry, k: Name)
    requires k in m.entries && k != n && m.entries[k].HardLinkEntry? && LinkResolved(m, k)
    requires n in m.entries ==> m.entries[n].DirEntry?
    ensures LinkResolved(Put(m, n, e), k)
  {}

  lemma PutKeepsResolved(m: Manifest, n: Name, e: Entry)
    requires Ordered(m) && Resolved(m) && Fits(m, n, e)
    ensures Resolved(Put(m, n, e))
  {
    var m' := Put(m, n, e);
    forall k | k in m'.entries && m'.entries[k].HardLinkEntry? ensures LinkResolved(m', k) {
      if k == n {
        NewLinkResolved(m, n, e);
      } else {
        assert LinkResolved(m, k);
        LinkStaysResolved(m, n, e, k);
      }
    }
  }

  lemma PutKeepsRooted(m: Manifest, n: Name, e: Entry)
    requires Rooted(m.entries) && Canonical(n) && |Render(n)| <= MAX_ARCHIVE_NAME_LEN && Unblocked(m.entries, n)
    requires n in m.entries ==> e.DirEntry?
    requires forall p :: Below(p, n) ==> p in m.entries
    ensures Rooted(Put(m, n, e).entries)
  {
    hide Canonical, Render;
  }

  /** Recording an entry whose ancestors are all directories keeps every
      invariant. */
  lemma PutKeepsWellFormed(m: Manifest, n: Name, e: Entry)
    requires WellFormed(m) && Fits(m, n, e)
    requires forall p :: Below(p, n) ==> p in m.entries
    ensures WellFormed(Put(m, n, e))
  {
    hide Canonical, Render, ValidTarget, Ordered, Resolved, LinksToFile, Put;
    PutKeepsRooted(m, n, e);
    PutKeepsOrdered(m, n, e);
    PutKeepsResolved(m, n, e);
  }

  lemma PrefixFits(p: Name, n: Name)
    requires Canonical(n) && Below(p, n)
    ensures Canonical(p) && |Render(p)| < |Render(n)|
  {
    PrefixRenders(p, n);
    assert forall c :: c in p ==> c in n;
  }

  /** Creating the ancestors shorter than `upto` touches none of the others. */
  lemma {:induction false} WithAncestorsKeeps(m: Manifest, n: Name, upto: nat, k: Name)
    requires 1 <= upto <= |n|
    requires k in m.entries || upto <= |k|
    ensures var es := WithAncestors(m, n, upto).entries;
            (k in es <==> k in m.entries) && (k in m.entries ==> es[k] == m.entries[k])
  {
    if upto > 1 {
      WithAncestorsKeeps(m, n, upto - 1, k);
    }
  }

  /** Creating the ancestors shorter than `upto` adds these and nothing else. */
  lemma {:induction false} WithAncestorsAdds(m: Manifest, n: Name, upto: nat, k: Name)
    requires 1 <= upto <= |n|
    ensures var es := WithAncestors(m, n, upto).entries;
            && (k in es && k !in m.entries ==> Below(k, n) && es[k] == IMPLICIT_DIR)
            && (Below(k, n) && |k| < upto ==> k in es)
            && (k in m.entries ==> k in es && es[k] == m.entries[k])
  {
    if upto > 1 {
      WithAncestorsAdds(m, n, upto - 1, k);
      WithAncestorsKeeps(m, n, upto - 1, n[..upto - 1]);
      assert Below(n[..upto - 1], n);
      if Below(k, n) && |k| == upto - 1 {
        assert k == n[..upto - 1];
      }
    }
  }

  lemma {:induction false} WithAncestorsIsWellFormed(m: Manifest, n: Name, upto: nat)
    requires WellFormed(m) && Canonical(n) && |Render(n)| <= MAX_ARCHIVE_NAME_LEN
    requires Unblocked(m.entries, n)
    requires 1 <= upto <= |n|
    ensures WellFormed(WithAncestors(m, n, upto))
  {
    if upto > 1 {
      WithAncestorsIsWellFormed(m, n, upto - 1);
      var prev, p := WithAncestors(m, n, upto - 1), n[..upto - 1];
      if p !in prev.entries {
        assert Below(p, n);
        PrefixFits(p, n);
        forall q | Below(q, p) ensures q in prev.entries && prev.entries[q].DirEntry? {
          assert Below(q, n);
          WithAncestorsAdds(m, n, upto - 1, q);
        }
        PutKeepsWellFormed(prev, p, IMPLICIT_DIR);
      }
    }
  }

  /** Recording an entry that passed the checks keeps every invariant, changes
      no other entry than a relisted directory, and adds only its ancestors. */
  lemma InsertKeepsWellFormed(m: Manifest, n: Name, e: Entry)
    requires WellFormed(m) && Fits(m, n, e)
    ensures var m' := Insert(m, n, e);
            && WellFormed(m')
            && n in m'.entries && m'.entries[n] == e
            && (forall k :: k in m.entries && k != n ==> k in m'.entries && m'.entries[k] == m.entries[k])
            && (forall k :: k in m'.entries && k !in m.entries && k != n ==>
                              Below(k, n) && m'.entries[k] == IMPLICIT_DIR)
  {
    hide Rooted, Ordered, Resolved, Render, WithAncestors;
    var w := WithAncestors(m, n, |n|);
    WithAncestorsIsWellFormed(m, n, |n|);
    forall k ensures
        && (k in w.entries && k !in m.entries ==> Below(k, n) && w.entries[k] == IMPLICIT_DIR)
        && (Below(k, n) ==> k in w.entries && w.entries[k].DirEntry?)
        && (k in m.entries ==> k in w.entries && w.entries[k] == m.entries[k]) {
      WithAncestorsAdds(m, n, |n|, k);
    }
    WithAncestorsAdds(m, n, |n|, n);
    PutKeepsWellFormed(w, n, e);
  }
}
