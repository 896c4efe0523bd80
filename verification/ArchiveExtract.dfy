/** Extraction into the temporary tree (archive_extract.go, extractToDir): the
    tree follows the manifest entry by entry. */
module ArchiveExtract {
  import opened Text
  import opened ArchiveNames
  import opened ArchiveManifest
  import opened ArchiveWalker
  import opened ArchiveLinks
  import opened FileTree

  /** What an entry looks like once extracted: a hard link is the file it links
      to. */
  function NodeOf(es: Entries, e: Entry): Node
  {
    match e
    case DirEntry(_, _) => Directory
    case FileEntry(_, _, content) => Regular(content)
    case SymlinkEntry(_, target) => Link(target)
    case HardLinkEntry(_, _, base) => if base in es && es[base].FileEntry? then Regular(es[base].content) else Special
  }

  /** The tree that a manifest describes. */
  function TreeOf(es: Entries): Tree
  {
    map n | n in es :: NodeOf(es, es[n])
  }

  lemma TreeOfIsGrounded(m: Manifest)
    requires WellFormed(m)
    ensures Grounded(TreeOf(m.entries))
  {}

  // ---------------------------------------------------- how the two grow together

  lemma DirExtendsTree(m: Manifest, p: Name)
    requires p !in m.entries
    ensures TreeOf(Put(m, p, IMPLICIT_DIR).entries) == TreeOf(m.entries)[p := Directory]
  {}

  /** openDirAt with create makes exactly the directories that the walker
      records as implicit. */
  lemma {:induction false} AncestorsExtendTree(m: Manifest, n: Name, k: nat)
    requires k < |n|
    ensures TreeOf(WithAncestors(m, n, k + 1).entries) == MkdirAll(TreeOf(m.entries), Parent(n), k)
  {
    if k > 0 {
      AncestorsExtendTree(m, n, k - 1);
      assert n[..k] == Parent(n)[..k];
      var prev := WithAncestors(m, n, k);
      if n[..k] !in prev.entries {
        DirExtendsTree(prev, n[..k]);
      }
    }
  }

  /** No hard link is dangling. */
  ghost predicate BasesThere(es: Entries)
  {
    forall k :: k in es && es[k].HardLinkEntry? ==> es[k].base in es && es[es[k].base].FileEntry?
  }

  lemma WellFormedBases(m: Manifest)
    requires WellFormed(m)
    ensures BasesThere(m.entries)
  {}

  lemma EntryExtendsTree(m: Manifest, n: Name, e: Entry)
    requires BasesThere(m.entries)
    requires n in m.entries ==> m.entries[n].DirEntry? && e.DirEntry?
    requires e.HardLinkEntry? ==> e.base in m.entries && m.entries[e.base].FileEntry?
    ensures TreeOf(Put(m, n, e).entries) == TreeOf(m.entries)[n := NodeOf(m.entries, e)]
  {}

  // -------------------------------------------------------------------- extracting

  datatype Visit = Extracted | BadContent | IoError | Collision

  lemma NothingInTheWay(m: Manifest, n: Name, k: nat)
    requires Rooted(m.entries) && Unblocked(m.entries, n) && n != []
    ensures DirOrMissing(TreeOf(m.entries), Parent(n), k)
  {}

  lemma ParentMade(t: Tree, rel: Name)
    requires forall k: nat :: DirOrMissing(t, rel, k)
    ensures HasDir(MkdirAll(t, rel, |rel|), rel)
  {
    if rel != [] {
      MkdirAllKeeps(t, rel, |rel| - 1, rel);
      assert rel[..|rel|] == rel;
      assert DirOrMissing(t, rel, |rel|);
    }
  }

  /** The visitor of extractToDir, called after the walker recorded `e` as `n`:
      if the temporary tree showed the manifest before, it shows the new one
      afterwards. No parent is ever a file or a link, and no exclusive creation
      finds its name taken; the visitor fails only with the file system or on
      contents of another size than declared. */
  method VisitEntry(tmp: Root, n: Name, e: Entry, ghost m: Manifest) returns (v: Visit)
    requires WellFormed(m) && Fits(m, n, e)
    requires tmp.tree == TreeOf(m.entries)
    modifies tmp
    ensures v == Extracted ==> tmp.tree == TreeOf(Insert(m, n, e).entries)
    ensures v != Collision
    ensures v == BadContent ==> e.FileEntry? && |e.content| != e.size
    ensures v == Extracted && e.FileEntry? ==> |e.content| == e.size
    ensures v == IoError ==> tmp.Faulted(old(tmp.clock), tmp.clock)
    ensures old(tmp.clock) <= tmp.clock
  {
    hide MkdirAll, WithAncestors, Ordered, Resolved, Render;
    ghost var t0 := tmp.tree;
    ghost var w := WithAncestors(m, n, |n|);
    forall k: nat ensures DirOrMissing(t0, Parent(n), k) { NothingInTheWay(m, n, k); }
    AncestorsExtendTree(m, n, |n| - 1);
    ParentMade(t0, Parent(n));
    WithAncestorsKeeps(m, n, |n|, n);
    var st := tmp.MakeDirs(Parent(n));
    if st != Done {
      return if st == Fault then IoError else Collision;
    }
    assert tmp.tree == TreeOf(w.entries);
    WithAncestorsIsWellFormed(m, n, |n|);
    WellFormedBases(w);
    EntryKept(m, n, e);
    EntryExtendsTree(w, n, e);
    if e.HardLinkEntry? {
      var found := OpenBase(tmp, e.base, w);
      if !found {
        return IoError;
      }
    }
    st := tmp.CreateExclusive(n, if e.HardLinkEntry? then tmp.tree[e.base] else NodeOf(map[], Read(e)));
    if st == Exists && e.DirEntry? {
      var st', there := tmp.Lstat(n);
      if st' == Fault {
        return IoError;
      }
      if there == Some(Directory) {
        st := Done;
      }
    }
    if st == Done && e.FileEntry? && |e.content| != e.size {
      return BadContent;
    }
    v := if st == Done then Extracted else if st == Fault then IoError else Collision;
  }

  /** What is written of a file: no more than its declared size. */
  function Read(e: Entry): Entry
  {
    if e.FileEntry? && e.size < |e.content| then e.(content := e.content[..e.size]) else e
  }

  /** The directory of a hard link's file is opened again; it is always there. */
  method OpenBase(tmp: Root, base: Name, ghost w: Manifest) returns (ok: bool)
    requires WellFormed(w) && tmp.tree == TreeOf(w.entries) && base in w.entries
    modifies tmp`clock
    ensures old(tmp.clock) <= tmp.clock
    ensures !ok ==> tmp.Faulted(old(tmp.clock), tmp.clock)
  {
    TreeOfIsGrounded(w);
    ParentIsDir(tmp.tree, base);
    forall k: nat ensures DirThere(tmp.tree, Parent(base), k) { PrefixIsDir(tmp.tree, Parent(base), k); }
    hide WellFormed, Grounded, DirThere;
    var st := tmp.CheckDir(Parent(base));
    ok := st == Done;
  }

  lemma EntryKept(m: Manifest, n: Name, e: Entry)
    requires Fits(m, n, e)
    ensures var es := WithAncestors(m, n, |n|).entries;
            && (e.HardLinkEntry? ==> e.base in es && es[e.base] == m.entries[e.base])
            && (n in es <==> n in m.entries)
            && (n in m.entries ==> es[n] == m.entries[n])
  {
    WithAncestorsKeeps(m, n, |n|, n);
    if e.HardLinkEntry? {
      WithAncestorsKeeps(m, n, |n|, e.base);
    }
  }

  /** The reader of a regular file delivers what its header declares, or the
      file is not extracted at all. */
  predicate ReadsFully(r: RawEntry, strip: nat)
  {
    r.kind.RawFile? && NormalForm(r.raw, strip).Kept? ==> |r.content| == r.size
  }

  /** The body of the loop of walkTar with the visitor of extractToDir. */
  method ExtractOne(w: Walker, tmp: Root, r: RawEntry) returns (ok: bool)
    requires w.Valid() && r.size <= MAX_INT64 && Framed(r)
    requires tmp.tree == TreeOf(w.m.entries)
    modifies w, tmp
    ensures ok ==>
              && w.Valid()
              && 0 <= r.size && old(w.declared) + r.size <= w.lim.maxSize
              && r.bytes <= old(w.left)
              && old(w.seen) + Weight(old(w.m), r, w.lim.strip) <= w.lim.maxEntries
              && Some(w.m) == Record(old(w.m), r, w.lim.strip)
              && ReadsFully(r, w.lim.strip)
              && w.seen == old(w.seen) + Weight(old(w.m), r, w.lim.strip)
              && w.declared == old(w.declared) + r.size
              && w.left == old(w.left) - r.bytes
              && tmp.tree == TreeOf(w.m.entries)
    ensures !ok ==>
              || r.bytes > old(w.left)
              || r.size < 0 || old(w.declared) + r.size > w.lim.maxSize
              || old(w.seen) + Weight(old(w.m), r, w.lim.strip) > w.lim.maxEntries
              || Record(old(w.m), r, w.lim.strip).None?
              || !ReadsFully(r, w.lim.strip)
              || tmp.Faulted(old(tmp.clock), tmp.clock)
    ensures old(tmp.clock) <= tmp.clock
  {
    hide WellFormed, TreeOf, Fits, Weight, Record, NewDirs, Insert, NormalForm;
    ghost var before := w.m;
    var a := w.Process(r);
    ok := !a.AddRefused?;
    if a.AddRecorded? {
      var v := VisitEntry(tmp, a.name, a.entry, before);
      ok := v == Extracted;
    }
  }

  /** The archives that are extracted unless the file system fails. */
  ghost predicate Extractable(rs: seq<RawEntry>, lim: Limits)
  {
    && Accepted(rs, lim)
    && Check(Records(rs, lim.strip).value, 0, MAX_SYMLINK_CHECK_WORK).Inside?
    && forall r :: r in rs ==> ReadsFully(r, lim.strip)
  }

  ghost predicate FaultedSince(tmp: Root, start: nat)
    reads tmp
  {
    tmp.Faulted(start, tmp.clock)
  }

  lemma NothingExtracted(lim: Limits)
    requires ValidLimits(lim)
    ensures Accepted([], lim) && Records([], lim.strip) == Some(EMPTY)
    ensures TotalWeight([], lim.strip) == 0 && TotalSize([]) == 0 && TotalBytes([]) == 0 && TreeOf(EMPTY.entries) == map[]
  {}

  /** walkArchive with the visitor of extractToDir, into an empty temporary
      tree. After every entry the tree shows the manifest so far, and at the
      end the whole archive, whose links all end inside it. */
  method ExtractToDir(rs: seq<RawEntry>, lim: Limits, tmp: Root) returns (r: Option<Manifest>)
    requires ValidLimits(lim)
    requires forall x :: x in rs ==> x.size <= MAX_INT64 && Framed(x)
    requires tmp.tree == map[]
    modifies tmp
    ensures r.Some? ==>
              && Extractable(rs, lim)
              && r == Records(rs, lim.strip) && WellFormed(r.value)
              && tmp.tree == TreeOf(r.value.entries)
              && AllLinksEnd(r.value.entries)
    ensures r.None? && Extractable(rs, lim) ==> FaultedSince(tmp, old(tmp.clock))
  {
    hide Records, TotalWeight, TotalSize, TotalBytes, Record, Weight, TreeOf, WellFormed, AllLinksEnd, ReadsFully, Check;
    NothingExtracted(lim);
    var w := new Walker(lim);
    assert rs[..0] == [];
    for i := 0 to |rs|
      invariant w.Valid() && w.lim == lim && fresh(w)
      invariant Accepted(rs[..i], lim)
      invariant Records(rs[..i], lim.strip) == Some(w.m)
      invariant w.seen == TotalWeight(rs[..i], lim.strip)
      invariant w.declared == TotalSize(rs[..i])
      invariant w.left == lim.room - TotalBytes(rs[..i])
      invariant forall r :: r in rs[..i] ==> ReadsFully(r, lim.strip)
      invariant tmp.tree == TreeOf(w.m.entries)
      invariant old(tmp.clock) <= tmp.clock
    {
      AcceptedStep(rs[..i], rs[i], lim);
      assert rs[..i + 1] == rs[..i] + [rs[i]];
      if Accepted(rs, lim) {
        PrefixAccepted(rs, i + 1, lim);
      }
      var ok := ExtractOne(w, tmp, rs[i]);
      if !ok {
        return None;
      }
    }
    assert rs[..|rs|] == rs;
    RecordsAreWellFormed(rs, lim.strip);
    var v := CheckSymlinks(w.m);
    if !v.Inside? {
      return None;
    }
    CheckedLinksEnd(w.m);
    r := Some(w.m);
  }
}
