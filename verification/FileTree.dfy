/** The file system below one directory, as the operations of
    archive_extract.go see it: names, kinds, contents and link targets. Every
    operation works on a name whose parent was opened component by component
    without following links (openDirAt), and any of them may fail for reasons
    outside the model. */
module FileTree {
  import opened Text
  import opened ArchiveNames

  datatype Node = Directory | Regular(content: string) | Link(target: string) | Special

  type Tree = map<Name, Node>

  predicate HasDir(t: Tree, n: Name) { n == [] || (n in t && t[n].Directory?) }

  /** Everything is in a directory that is there too. The root itself is not
      an entry. */
  ghost predicate Grounded(t: Tree)
  {
    [] !in t && forall p, n :: n in t && Below(p, n) ==> HasDir(t, p)
  }

  predicate IsEmptyDir(t: Tree, n: Name)
  {
    forall k :: k in t ==> !(n < k)
  }

  /** Everything at or below `n`. */
  function Subtree(t: Tree, n: Name): Tree
  {
    map k | k in t && n <= k :: t[k]
  }

  lemma ParentIsDir(t: Tree, n: Name)
    requires Grounded(t) && n in t
    ensures n != [] && HasDir(t, Parent(n))
  {}

  lemma AboveIsDir(t: Tree, q: Name, p: Name)
    requires Grounded(t) && q != [] && q <= p
    ensures p in t ==> q in t && (q != p ==> t[q].Directory?)
  {
    if q != p {
      assert Below(q, p);
    }
  }

  lemma PrefixIsDir(t: Tree, n: Name, k: nat)
    requires Grounded(t) && HasDir(t, n)
    ensures DirThere(t, n, k) && DirOrMissing(t, n, k)
  {
    if 0 < k < |n| {
      assert Below(n[..k], n);
    } else if k == |n| {
      assert n[..k] == n;
    }
  }

  // ------------------------------------------------------------------- openDirAt

  /** The first `k` components of `rel` do not lead through anything but
      directories. */
  predicate DirOrMissing(t: Tree, rel: Name, k: nat)
  {
    k <= |rel| ==> (rel[..k] in t ==> t[rel[..k]].Directory?)
  }

  predicate DirThere(t: Tree, rel: Name, k: nat)
  {
    k <= |rel| ==> HasDir(t, rel[..k])
  }

  /** `t` with the missing directories among the first `k` components made. */
  function MkdirAll(t: Tree, rel: Name, k: nat): Tree
    requires k <= |rel|
  {
    if k == 0 then t
    else
      var u := MkdirAll(t, rel, k - 1);
      if rel[..k] in u then u else u[rel[..k] := Directory]
  }

  lemma {:induction false} MkdirAllKeeps(t: Tree, rel: Name, k: nat, n: Name)
    requires k <= |rel|
    requires n in t || k < |n|
    ensures var u := MkdirAll(t, rel, k);
            (n in u <==> n in t) && (n in t ==> u[n] == t[n])
  {
    if k > 0 {
      MkdirAllKeeps(t, rel, k - 1, n);
    }
  }

  datatype Status = Done | Missing | NotADirectory | Exists | NotEmpty | Fault

  class Root {
    var tree: Tree
    /** Which operations fail for reasons outside the model (permissions, a full
        disk, interruption), by the number of the operation. */
    const weather: nat -> bool
    var clock: nat

    constructor (t: Tree, weather: nat -> bool)
      ensures tree == t && this.weather == weather && clock == 0
    {
      tree := t;
      this.weather := weather;
      clock := 0;
    }

    /** Some operation numbered from `a` up to `b` failed. */
    ghost predicate Faulted(a: nat, b: nat)
    {
      exists i :: a <= i < b && weather(i)
    }

    method Tick() returns (fails: bool)
      modifies this`clock
      ensures clock == old(clock) + 1
      ensures fails <==> weather(old(clock))
    {
      fails := weather(clock);
      clock := clock + 1;
    }

    /** openDirAt with create: opens `rel` component by component, making what
        is missing. It never passes through a link or a file. */
    method MakeDirs(rel: Name) returns (st: Status)
      modifies this
      ensures st == Done || st == NotADirectory || st == Fault
      ensures st == Done ==> tree == MkdirAll(old(tree), rel, |rel|)
      ensures st == NotADirectory ==> exists k: nat :: k <= |rel| && !DirOrMissing(old(tree), rel, k)
      ensures old(clock) <= clock
      ensures st == Fault ==> Faulted(old(clock), clock)
    {
      ghost var was := tree;
      for i := 0 to |rel|
        invariant tree == MkdirAll(was, rel, i)
        invariant old(clock) <= clock
      {
        var cur := rel[..i + 1];
        MkdirAllKeeps(was, rel, i, cur);
        var fails := Tick();
        if fails {
          return Fault;
        }
        if cur !in tree {
          tree := tree[cur := Directory];
        } else if !tree[cur].Directory? {
          assert !DirOrMissing(was, rel, i + 1);
          return NotADirectory;
        }
      }
      st := Done;
    }

    /** openDirAt without create: changes nothing. */
    method CheckDir(rel: Name) returns (st: Status)
      modifies this`clock
      ensures st == Done || st == Missing || st == NotADirectory || st == Fault
      ensures st == Done ==> forall k: nat :: DirThere(tree, rel, k)
      ensures st == Missing || st == NotADirectory ==> exists k: nat :: k <= |rel| && !DirThere(tree, rel, k)
      ensures old(clock) <= clock
      ensures st == Fault ==> Faulted(old(clock), clock)
    {
      for i := 0 to |rel|
        invariant forall k: nat :: k <= i ==> DirThere(tree, rel, k)
        invariant old(clock) <= clock
      {
        var cur := rel[..i + 1];
        var fails := Tick();
        if fails {
          return Fault;
        }
        if cur !in tree {
          assert !DirThere(tree, rel, i + 1);
          return Missing;
        } else if !tree[cur].Directory? {
          assert !DirThere(tree, rel, i + 1);
          return NotADirectory;
        }
      }
      st := Done;
    }

    /** fstatat without following links: what is at `n`, if anything. */
    method Lstat(n: Name) returns (st: Status, kind: Option<Node>)
      modifies this`clock
      ensures clock == old(clock) + 1 && (st == Fault <==> weather(old(clock)))
      ensures st == Done || st == Missing || st == Fault
      ensures st == Done ==> n in tree && kind == Some(tree[n])
      ensures st == Missing ==> n !in tree
      ensures st != Done ==> kind == None
    {
      var fails := Tick();
      if fails {
        return Fault, None;
      }
      if n in tree {
        st, kind := Done, Some(tree[n]);
      } else {
        st, kind := Missing, None;
      }
    }

    /** mkdirat, openat with O_EXCL, symlinkat and linkat: all refuse a name
        that is taken. */
    method CreateExclusive(n: Name, node: Node) returns (st: Status)
      requires n != [] && HasDir(tree, Parent(n))
      modifies this
      ensures clock == old(clock) + 1 && (st == Fault <==> weather(old(clock)))
      ensures st == Done || st == Exists || st == Fault
      ensures st == Done ==> n !in old(tree) && tree == old(tree)[n := node]
      ensures st == Exists ==> n in old(tree)
      ensures st != Done ==> tree == old(tree)
    {
      var fails := Tick();
      if fails {
        return Fault;
      }
      if n in tree {
        return Exists;
      }
      tree := tree[n := node];
      st := Done;
    }

    /** unlinkat of anything but a directory. */
    method Unlink(n: Name) returns (st: Status)
      modifies this
      ensures clock == old(clock) + 1 && (st == Fault <==> weather(old(clock)))
      ensures st == Done || st == Missing || st == Exists || st == Fault
      ensures st == Done ==> n in old(tree) && !old(tree)[n].Directory? && tree == old(tree) - {n}
      ensures st == Missing ==> n !in old(tree)
      ensures st == Exists ==> n in old(tree) && old(tree)[n].Directory?
      ensures st != Done ==> tree == old(tree)
    {
      var fails := Tick();
      if fails {
        return Fault;
      }
      if n !in tree {
        return Missing;
      }
      if tree[n].Directory? {
        return Exists;
      }
      tree := tree - {n};
      st := Done;
    }

    /** unlinkat with AT_REMOVEDIR: removes a directory only if it is empty. */
    method Rmdir(n: Name) returns (st: Status)
      requires n in tree && tree[n].Directory?
      modifies this
      ensures clock == old(clock) + 1 && (st == Fault <==> weather(old(clock)))
      ensures st == Done || st == NotEmpty || st == Fault
      ensures st == Done ==> IsEmptyDir(old(tree), n) && tree == old(tree) - {n}
      ensures st == NotEmpty ==> !IsEmptyDir(old(tree), n)
      ensures st != Done ==> tree == old(tree)
    {
      var fails := Tick();
      if fails {
        return Fault;
      }
      if !IsEmptyDir(tree, n) {
        return NotEmpty;
      }
      tree := tree - {n};
      st := Done;
    }

    /** renameat of `n` below `src` to the same name here: moves everything at
        and below it. With `replace`, a file takes the place of a file. */
    method RenameFrom(src: Root, n: Name, replace: bool) returns (st: Status)
      requires this != src && n in src.tree && n != [] && HasDir(tree, Parent(n))
      modifies this, src`tree
      ensures clock == old(clock) + 1 && (st == Fault <==> weather(old(clock)))
      ensures st == Done || st == Exists || st == Fault
      ensures st == Done ==> tree == Moved(old(tree), old(src.tree), n) && src.tree == Without(old(src.tree), n)
      ensures st == Exists ==> n in old(tree) &&
                               (replace ==> old(tree)[n].Directory? || old(src.tree)[n].Directory?)
      ensures st != Done ==> tree == old(tree) && src.tree == old(src.tree)
    {
      var fails := Tick();
      if fails {
        return Fault;
      }
      if n in tree && (!replace || tree[n].Directory? || src.tree[n].Directory?) {
        return Exists;
      }
      tree := Moved(tree, src.tree, n);
      src.tree := Without(src.tree, n);
      st := Done;
    }
  }

  /** `dst` with everything at and below `n` in `src`. */
  function Moved(dst: Tree, src: Tree, n: Name): Tree { dst + Subtree(src, n) }

  function Without(t: Tree, n: Name): Tree
  {
    map k | k in t && !(n <= k) :: t[k]
  }
}
