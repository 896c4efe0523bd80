/** Removing extracted entries (archive_extract.go, removeExtracted): children
    first, directories only if they are empty, and nothing whose kind changed. */
module ArchiveRemove {
  import opened Text
  import opened ArchiveNames
  import opened FileTree

  /** What is left of `t` after one listed entry was dealt with. */
  function RemoveOne(t: Tree, l: Listed): Tree
  {
    if l.name in t && t[l.name].Directory? == l.isDir && (l.isDir ==> IsEmptyDir(t, l.name))
    then t - {l.name} else t
  }

  /** After the entries from index `k` on, the last one first. */
  function RemoveDown(t: Tree, ls: seq<Listed>, k: nat): Tree
    requires k <= |ls|
    decreases |ls| - k
  {
    if k == |ls| then t else RemoveOne(RemoveDown(t, ls, k + 1), ls[k])
  }

  ghost predicate SortedListing(ls: seq<Listed>, files: set<Listed>)
  {
    SortedBy(ls, Shown) && forall l :: l in ls <==> l in files
  }

  ghost predicate AllCanonical(files: set<Listed>)
  {
    forall l :: l in files ==> Canonical(l.name)
  }

  // ------------------------------------------------------------------ the method

  method RemoveEntry(dest: Root, l: Listed) returns (st: Status)
    requires Grounded(dest.tree) && l.name != []
    modifies dest
    ensures st == Done || st == Fault
    ensures st == Done ==> dest.tree == RemoveOne(old(dest.tree), l)
    ensures st == Fault ==> dest.tree == old(dest.tree) && dest.Faulted(old(dest.clock), dest.clock)
    ensures old(dest.clock) <= dest.clock
  {
    if l.name in dest.tree {
      ParentIsDir(dest.tree, l.name);
      forall k: nat ensures DirThere(dest.tree, Parent(l.name), k) {
        PrefixIsDir(dest.tree, Parent(l.name), k);
      }
    }
    st := dest.CheckDir(Parent(l.name));
    if st == Fault {
      return;
    }
    if st != Done {
      return Done; // The path leads through a link or a file, or is gone.
    }
    var st', there := dest.Lstat(l.name);
    if st' == Fault {
      return Fault;
    }
    if there.None? || there.value.Directory? != l.isDir {
      return Done;
    }
    if l.isDir {
      st := dest.Rmdir(l.name);
    } else {
      st := dest.Unlink(l.name);
    }
    if st == NotEmpty {
      st := Done;
    }
  }

  lemma RemoveOneKeepsGrounded(t: Tree, l: Listed)
    requires Grounded(t)
    ensures Grounded(RemoveOne(t, l))
  {}

  lemma {:induction false} RemoveDownKeepsGrounded(t: Tree, ls: seq<Listed>, k: nat)
    requires Grounded(t) && k <= |ls|
    ensures Grounded(RemoveDown(t, ls, k))
    decreases |ls| - k
  {
    if k < |ls| {
      RemoveDownKeepsGrounded(t, ls, k + 1);
      RemoveOneKeepsGrounded(RemoveDown(t, ls, k + 1), ls[k]);
    }
  }

  /** removeExtracted: it deals with every listed entry, or, if the file system
      fails, with those from some index on. */
  method RemoveExtracted(dest: Root, files: set<Listed>) returns (st: Status, ghost ls: seq<Listed>, ghost k: nat)
    requires Grounded(dest.tree) && AllCanonical(files)
    modifies dest
    ensures st == Done || st == Fault
    ensures SortedListing(ls, files)
    ensures k <= |ls| && dest.tree == RemoveDown(old(dest.tree), ls, k)
    ensures st == Done ==> k == 0 && dest.tree == Remaining(old(dest.tree), files)
    ensures st == Fault ==> dest.Faulted(old(dest.clock), dest.clock)
  {
    forall a, b | a in files && b in files && Shown(a) == Shown(b) ensures a == b {
      ListedReadsBack(a);
      ListedReadsBack(b);
    }
    var sorted := SortSet(files, Shown);
    ls, k := sorted, |sorted|;
    var i := |sorted|;
    while i > 0
      invariant i <= |sorted| && k == i
      invariant Grounded(dest.tree)
      invariant dest.tree == RemoveDown(old(dest.tree), sorted, i)
      invariant old(dest.clock) <= dest.clock
    {
      assert sorted[i - 1] in sorted;
      assert Canonical(sorted[i - 1].name);
      RemoveOneKeepsGrounded(dest.tree, sorted[i - 1]);
      st := RemoveEntry(dest, sorted[i - 1]);
      if st == Fault {
        return;
      }
      i := i - 1;
      k := i;
    }
    RemovedIs(old(dest.tree), files, sorted);
    st := Done;
  }

  // --------------------------------------------------------------- what it removes

  /** Something at or below `p` is not listed as what it is. */
  ghost predicate Stays(t: Tree, files: set<Listed>, p: Name)
  {
    exists q :: q in t && p <= q && Listed(q, t[q].Directory?) !in files
  }

  /** What is left when the listed entries are removed: what is not listed as what it is, and
      the directories above it. */
  ghost function Remaining(t: Tree, files: set<Listed>): Tree
  {
    map p | p in t && Stays(t, files, p) :: t[p]
  }

  lemma {:induction false} RemoveDownShrinks(t: Tree, ls: seq<Listed>, k: nat, p: Name)
    requires k <= |ls| && p in RemoveDown(t, ls, k)
    ensures p in t && RemoveDown(t, ls, k)[p] == t[p]
    decreases |ls| - k
  {
    if k < |ls| {
      RemoveDownShrinks(t, ls, k + 1, p);
    }
  }

  /** An entry with nothing but empty directories to lose is not enough: what
      was there before stays, if no listed directory among it was empty. */
  ghost predicate Spares(o: Tree, ls: seq<Listed>)
  {
    forall l :: l in ls && l.name in o ==> o[l.name].Directory? && !IsEmptyDir(o, l.name)
  }

  ghost predicate Contains(t: Tree, o: Tree)
  {
    forall p :: p in o ==> p in t && t[p] == o[p]
  }

  lemma RemoveOneSpares(o: Tree, t: Tree, l: Listed)
    requires Contains(t, o)
    requires l.name in o ==> o[l.name].Directory? && !IsEmptyDir(o, l.name)
    ensures Contains(RemoveOne(t, l), o)
  {}

  lemma {:induction false} RemoveDownSpares(o: Tree, t: Tree, ls: seq<Listed>, k: nat)
    requires k <= |ls| && Contains(t, o) && Spares(o, ls)
    ensures Contains(RemoveDown(t, ls, k), o)
    decreases |ls| - k
  {
    if k < |ls| {
      RemoveDownSpares(o, t, ls, k + 1);
      assert ls[k] in ls;
      RemoveOneSpares(o, RemoveDown(t, ls, k + 1), ls[k]);
    }
  }

  /** Everything at and below `p` is listed as what it is. */
  ghost predicate ListedBelow(t: Tree, ls: seq<Listed>, p: Name)
  {
    forall q :: q in t && p <= q ==> q != [] && Canonical(q) && Listed(q, t[q].Directory?) in ls
  }

  lemma ContentsComeLater(ls: seq<Listed>, i: nat, j: nat)
    requires SortedBy(ls, Shown) && i < |ls| && j < |ls|
    requires Below(ls[i].name, ls[j].name) && Canonical(ls[j].name)
    ensures i < j
  {
    DirectoryBeforeContents(ls[i].name, ls[j].name, ls[i].isDir, ls[j].isDir);
    LessIsAsymmetric(Shown(ls[i]), Shown(ls[j]));
  }

  lemma IndexBelow(t: Tree, ls: seq<Listed>, p: Name, q: Name, r: Name) returns (j: nat)
    requires ListedBelow(t, ls, p) && q in t && p <= q && q < r && r in t
    ensures j < |ls| && ls[j] == Listed(r, t[r].Directory?) && Below(q, r) && p <= r
    ensures Canonical(q) && Canonical(r)
  {
    hide Canonical;
    j :| 0 <= j < |ls| && ls[j] == Listed(r, t[r].Directory?);
  }

  lemma {:induction false} RemoveDownReaches(t: Tree, ls: seq<Listed>, k: nat, p: Name, i: nat)
    requires SortedBy(ls, Shown) && ListedBelow(t, ls, p)
    requires k <= i < |ls| && p <= ls[i].name && ls[i].name in t
    requires t[ls[i].name].Directory? == ls[i].isDir
    ensures ls[i].name !in RemoveDown(t, ls, k)
    decreases |ls| - k
  {
    hide SortedBy, Shown, ListedBelow, Canonical;
    var q, u := ls[i].name, RemoveDown(t, ls, k + 1);
    if k < i {
      RemoveDownReaches(t, ls, k + 1, p, i);
    } else if q in u {
      RemoveDownShrinks(t, ls, k + 1, q);
      forall r | r in u ensures !(q < r) {
        RemoveDownShrinks(t, ls, k + 1, r);
        if q < r {
          var j := IndexBelow(t, ls, p, q, r);
          ContentsComeLater(ls, i, j);
          RemoveDownReaches(t, ls, k + 1, p, j);
        }
      }
    }
  }

  /** What is listed with everything below it is gone afterwards. */
  lemma RemovedIfListed(t: Tree, ls: seq<Listed>, p: Name)
    requires SortedBy(ls, Shown) && p in t && ListedBelow(t, ls, p)
    ensures p !in RemoveDown(t, ls, 0)
  {
    var i :| 0 <= i < |ls| && ls[i] == Listed(p, t[p].Directory?);
    RemoveDownReaches(t, ls, 0, p, i);
  }

  /** What is not listed as what it is stays, and so does every directory above it. */
  lemma {:induction false} UnlistedStays(t: Tree, ls: seq<Listed>, k: nat, p: Name, q: Name)
    requires Grounded(t) && k <= |ls| && p in t && q in t && p <= q
    requires Listed(q, t[q].Directory?) !in ls
    ensures p in RemoveDown(t, ls, k)
    decreases |ls| - k
  {
    if k < |ls| {
      UnlistedStays(t, ls, k + 1, p, q);
      UnlistedStays(t, ls, k + 1, q, q);
      var u := RemoveDown(t, ls, k + 1);
      RemoveDownShrinks(t, ls, k + 1, p);
      RemoveDownShrinks(t, ls, k + 1, q);
      StaysAbove(t, u, ls[k], p, q);
    }
  }

  lemma StaysAbove(t: Tree, u: Tree, l: Listed, p: Name, q: Name)
    requires Grounded(t) && p in t && q in t && p <= q && p in u && q in u
    requires u[p] == t[p] && u[q] == t[q] && l != Listed(q, t[q].Directory?)
    ensures p in RemoveOne(u, l)
  {
    if p == l.name && p != q {
      assert p < q && Below(p, q);
      assert HasDir(t, p);
      assert !IsEmptyDir(u, p);
    }
  }

  /** removeExtracted removes an entry if and only if it, and all that is below it, is listed
      as what it is. */
  lemma RemovedIs(t: Tree, files: set<Listed>, ls: seq<Listed>)
    requires Grounded(t) && SortedListing(ls, files) && AllCanonical(files)
    ensures RemoveDown(t, ls, 0) == Remaining(t, files)
  {
    hide RemoveDown, Grounded, Canonical, Shown;
    var u, v := RemoveDown(t, ls, 0), Remaining(t, files);
    forall p | p in u ensures p in v && v[p] == u[p] {
      RemoveDownShrinks(t, ls, 0, p);
      if !Stays(t, files, p) {
        AllBelowListed(t, files, ls, p);
        RemovedIfListed(t, ls, p);
      }
    }
    forall p | p in v ensures p in u {
      var q :| q in t && p <= q && Listed(q, t[q].Directory?) !in files;
      UnlistedStays(t, ls, 0, p, q);
    }
  }

  lemma AllBelowListed(t: Tree, files: set<Listed>, ls: seq<Listed>, p: Name)
    requires SortedListing(ls, files) && AllCanonical(files) && !Stays(t, files, p)
    ensures ListedBelow(t, ls, p)
  {
    hide Shown;
    forall q | q in t && p <= q ensures q != [] && Canonical(q) && Listed(q, t[q].Directory?) in ls {
      var l := Listed(q, t[q].Directory?);
      assert l in files;
      assert Canonical(l.name);
    }
  }
}
