/** Merging the extracted tree into an existing destination (archive_extract.go,
    planMerge and applyMerge): only the top-most new entries are renamed. */
module ArchiveMerge {
  import opened Text
  import opened ArchiveNames
  import opened ArchiveManifest
  import opened ArchiveExtract
  import opened FileTree

  datatype Action = Skip | Place | Replace | ReplaceWithDir | ExistingDir

  type Plan = map<Name, Action>

  predicate Moves(a: Action) { a.Place? || a.Replace? || a.ReplaceWithDir? }

  /** The settings of one merge: what the manifest says, what the previous
      extraction of the resource created, and whether anything may be
      overwritten. */
  datatype Merge = Merge(es: Entries, owned: set<Name>, overwrite: bool)

  /** The manifest of a merge, and the destination it is merged into. */
  ghost predicate Mergeable(d: Tree, g: Merge)
  {
    Grounded(d) && Rooted(g.es)
  }

  // ------------------------------------------------------- the plan, entry by entry

  /** What the plan does with `n`, or None if `n` is a conflict. Unlike
      planMerge, this looks only at the destination. */
  function Planned(d: Tree, g: Merge, n: Name): Option<Action>
    requires n in g.es && n != []
  {
    if !HasDir(d, Parent(n)) then Some(Skip)
    else if n !in d then Some(Place)
    else if d[n].Directory? then if g.es[n].DirEntry? then Some(ExistingDir) else None
    else if n !in g.owned && !g.overwrite then None
    else if g.es[n].DirEntry? then Some(ReplaceWithDir) else Some(Replace)
  }

  ghost predicate Conflict(d: Tree, g: Merge)
  {
    exists n :: n in g.es && n != [] && Planned(d, g, n).None?
  }

  /** The destination takes the archive: what is there already under one of its names is a
      directory in both, or no directory and may be replaced. */
  ghost predicate Admits(d: Tree, g: Merge)
  {
    forall n :: n in g.es && n in d ==>
      if d[n].Directory? then g.es[n].DirEntry? else n in g.owned || g.overwrite
  }

  lemma ConflictIs(d: Tree, g: Merge)
    requires Mergeable(d, g)
    ensures Conflict(d, g) <==> !Admits(d, g)
  {
    hide Rooted, Grounded;
    forall n | n in g.es && n in d
      ensures n != [] && (Planned(d, g, n).None? <==> if d[n].Directory? then !g.es[n].DirEntry? else n !in g.owned && !g.overwrite)
    {
      ParentIsDir(d, n);
    }
    forall n | n in g.es && n !in d ensures n != [] && Planned(d, g, n).Some? {
      RootedIsSome(g.es, n);
    }
  }

  lemma RootedIsSome(es: Entries, n: Name)
    requires Rooted(es) && n in es
    ensures n != []
  {
    assert Canonical(n);
  }

  ghost predicate IsPlan(d: Tree, g: Merge, plan: Plan)
  {
    plan.Keys == g.es.Keys && forall n :: n in g.es ==> n != [] && Planned(d, g, n) == Some(plan[n])
  }

  /** The names in the order in which they are planned and applied. */
  ghost predicate SortedNames(names: seq<Name>, es: Entries)
  {
    SortedBy(names, Render) && forall n :: n in names <==> n in es
  }

  lemma AncestorComesFirst(names: seq<Name>, es: Entries, i: nat, p: Name)
    requires Rooted(es) && SortedNames(names, es) && i < |names| && Below(p, names[i])
    ensures p in names[..i] && es[p].DirEntry?
  {
    assert names[i] in names;
    assert IsDir(es, p);
    var k :| 0 <= k < |names| && names[k] == p;
    DirectoryBeforeContents(p, names[i], true, true);
    LessIsAsymmetric(Render(p), Render(names[i]));
    assert k < i;
    assert names[..i][k] == p;
  }

  lemma NamesAreDistinct(names: seq<Name>, es: Entries, i: nat)
    requires SortedNames(names, es) && i < |names|
    ensures names[i] !in names[..i]
  {
    forall k | 0 <= k < i ensures names[k] != names[i] {
      LessIsAsymmetric(Render(names[k]), Render(names[i]));
    }
  }

  /** An existing directory of the archive is merged into, whatever its plan
      entry is called; anything else below it is not looked at. */
  lemma ExistingIffHasDir(d: Tree, g: Merge, p: Name)
    requires Mergeable(d, g) && p in g.es && p != [] && g.es[p].DirEntry?
    requires Planned(d, g, p).Some?
    ensures Planned(d, g, p) == Some(ExistingDir) <==> HasDir(d, p)
  {}

  /** `plan` is right about the first `i` names. */
  ghost predicate PlannedSoFar(d: Tree, g: Merge, names: seq<Name>, i: nat, plan: Plan)
    requires i <= |names|
  {
    && (forall n :: n in plan <==> n in names[..i])
    && (forall n :: n in plan ==> n in g.es && n != [] && Planned(d, g, n) == Some(plan[n]))
  }

  /** planMerge's look at the plan of the parent says whether the parent is a
      directory of the destination. */
  lemma ParentDecides(d: Tree, g: Merge, names: seq<Name>, i: nat, plan: Plan)
    requires Mergeable(d, g) && SortedNames(names, g.es) && i < |names|
    requires PlannedSoFar(d, g, names, i, plan)
    ensures var n := names[i];
            && n in g.es && n != []
            && (HasDir(d, Parent(n)) <==>
                Parent(n) == [] || (Parent(n) in plan && plan[Parent(n)] == ExistingDir))
            && (!HasDir(d, Parent(n)) ==> Planned(d, g, n) == Some(Skip))
  {
    var n := names[i];
    assert n in names;
    assert n != [] by { assert Canonical(n); }
    if Parent(n) != [] {
      assert Below(Parent(n), n);
      AncestorComesFirst(names, g.es, i, Parent(n));
      ExistingIffHasDir(d, g, Parent(n));
    }
  }

  /** planMerge: the plan for every entry, made before anything is changed. It
      fails on a conflict, and only on one, unless the file system does. */
  method PlanMerge(dest: Root, g: Merge, names: seq<Name>) returns (plan: Option<Plan>)
    requires Mergeable(dest.tree, g) && SortedNames(names, g.es)
    modifies dest`clock
    ensures plan.Some? ==> IsPlan(dest.tree, g, plan.value)
    ensures plan.None? ==> Conflict(dest.tree, g) || dest.Faulted(old(dest.clock), dest.clock)
  {
    hide Mergeable, Planned, PlannedSoFar, SortedNames;
    ghost var d := dest.tree;
    var actions: Plan := map[];
    PlanStarts(d, g, names);
    for i := 0 to |names|
      invariant dest.tree == d && old(dest.clock) <= dest.clock
      invariant PlannedSoFar(d, g, names, i, actions)
    {
      var n := names[i];
      ParentDecides(d, g, names, i, actions);
      var dir := Parent(n);
      var a := Some(Skip);
      if dir == [] || (dir in actions && actions[dir] == ExistingDir) {
        a := PlanEntry(dest, g, n);
        if a.None? {
          return None;
        }
      }
      PlanGrows(d, g, names, i, actions, a.value);
      actions := actions[n := a.value];
    }
    PlanEnds(d, g, names, actions);
    plan := Some(actions);
  }

  lemma PlanStarts(d: Tree, g: Merge, names: seq<Name>)
    ensures PlannedSoFar(d, g, names, 0, map[])
  {}

  lemma PlanGrows(d: Tree, g: Merge, names: seq<Name>, i: nat, plan: Plan, a: Action)
    requires i < |names| && PlannedSoFar(d, g, names, i, plan)
    requires names[i] in g.es && names[i] != [] && Planned(d, g, names[i]) == Some(a)
    ensures PlannedSoFar(d, g, names, i + 1, plan[names[i] := a])
  {}

  lemma PlanEnds(d: Tree, g: Merge, names: seq<Name>, plan: Plan)
    requires SortedNames(names, g.es) && PlannedSoFar(d, g, names, |names|, plan)
    ensures IsPlan(d, g, plan)
  {}

  method PlanEntry(dest: Root, g: Merge, n: Name) returns (a: Option<Action>)
    requires Mergeable(dest.tree, g) && n in g.es && n != [] && HasDir(dest.tree, Parent(n))
    modifies dest`clock
    ensures dest.tree == old(dest.tree) && old(dest.clock) <= dest.clock
    ensures a.Some? ==> a == Planned(dest.tree, g, n)
    ensures a.None? ==> Planned(dest.tree, g, n).None? || dest.Faulted(old(dest.clock), dest.clock)
  {
    forall k: nat ensures DirThere(dest.tree, Parent(n), k) { PrefixIsDir(dest.tree, Parent(n), k); }
    var st := dest.CheckDir(Parent(n));
    if st != Done {
      return None;
    }
    var st', there := dest.Lstat(n);
    if st' == Fault {
      return None;
    }
    if there.None? {
      return Some(Place);
    }
    var isDir := there.value.Directory?;
    if isDir && g.es[n].DirEntry? {
      a := Some(ExistingDir);
    } else if isDir {
      a := None;
    } else if n !in g.owned && !g.overwrite {
      a := None;
    } else if g.es[n].DirEntry? {
      a := Some(ReplaceWithDir);
    } else {
      a := Some(Replace);
    }
  }

  // ------------------------------------------------------------ applying the plan

  ghost predicate Under(moved: set<Name>, p: Name)
  {
    exists q :: q in moved && q <= p
  }

  /** The entries of `t` that are moved along with `moved`. */
  ghost function Covered(t: Tree, moved: set<Name>): set<Name>
  {
    set p | p in t && Under(moved, p)
  }

  function Overlay(d: Tree, t: Tree, covered: set<Name>): Tree
  {
    d + map p | p in covered && p in t :: t[p]
  }

  /** The destination once the entries `moved`, with everything below them,
      have been renamed into place. */
  ghost function Placed(d: Tree, t: Tree, moved: set<Name>): Tree { Overlay(d, t, Covered(t, moved)) }

  /** What is left of the temporary tree then. */
  ghost function Left(t: Tree, moved: set<Name>): Tree { t - Covered(t, moved) }

  ghost function MovedBy(plan: Plan, names: seq<Name>): set<Name>
  {
    set n | n in names && n in plan && Moves(plan[n])
  }

  lemma CoveredMore(t: Tree, moved: set<Name>, n: Name)
    ensures Covered(t, moved + {n}) == Covered(t, moved) + Subtree(t, n).Keys
  {}

  lemma OverlayMore(d: Tree, t: Tree, covered: set<Name>, n: Name)
    requires n in t && n !in covered
    ensures var rest := t - covered;
            && Moved(Overlay(d, t, covered), rest, n) == Overlay(d, t, covered + Subtree(t, n).Keys)
            && Moved(Overlay(d, t, covered) - {n}, rest, n) == Overlay(d, t, covered + Subtree(t, n).Keys)
            && Without(rest, n) == t - (covered + Subtree(t, n).Keys)
  {
    hide Overlay, Without;
    var now, sub := Overlay(d, t, covered), Subtree(t - covered, n);
    assert n in sub;
    DropReplaced(now, sub, n);
    OverlayWith(d, t, covered, n);
    LeftWithout(t, covered, n);
  }

  lemma OverlayWith(d: Tree, t: Tree, covered: set<Name>, n: Name)
    ensures Overlay(d, t, covered) + Subtree(t - covered, n) == Overlay(d, t, covered + Subtree(t, n).Keys)
  {}

  lemma LeftWithout(t: Tree, covered: set<Name>, n: Name)
    ensures Without(t - covered, n) == t - (covered + Subtree(t, n).Keys)
  {}

  lemma DropReplaced(a: Tree, b: Tree, n: Name)
    requires n in b
    ensures a - {n} + b == a + b
  {}

  /** One rename moves both trees on to the next stage, whether or not the file
      it replaces was removed first. */
  lemma PlacedAfter(d: Tree, t: Tree, moved: set<Name>, n: Name)
    requires n in t && !Under(moved, n)
    ensures Moved(Placed(d, t, moved), Left(t, moved), n) == Placed(d, t, moved + {n})
    ensures Moved(Placed(d, t, moved) - {n}, Left(t, moved), n) == Placed(d, t, moved + {n})
    ensures Without(Left(t, moved), n) == Left(t, moved + {n})
  {
    CoveredMore(t, moved, n);
    OverlayMore(d, t, Covered(t, moved), n);
  }

  /** A planned move is not below another one: what is above it is there
      already. */
  lemma MovesAreTopmost(d: Tree, g: Merge, plan: Plan, q: Name, n: Name)
    requires Mergeable(d, g) && IsPlan(d, g, plan)
    requires q in plan && n in plan && !plan[n].Skip? && Below(q, n)
    ensures !Moves(plan[q])
  {
    var dir := Parent(n);
    assert Planned(d, g, n) == Some(plan[n]);
    assert HasDir(d, dir);
    PrefixIsDir(d, dir, |q|);
    assert dir[..|q|] == q;
    ParentIsDir(d, q);
    assert Planned(d, g, q) == Some(plan[q]);
  }

  lemma NotYetMoved(d: Tree, g: Merge, plan: Plan, names: seq<Name>, i: nat)
    requires Mergeable(d, g) && IsPlan(d, g, plan) && SortedNames(names, g.es)
    requires i < |names| && !plan[names[i]].Skip?
    ensures !Under(MovedBy(plan, names[..i]), names[i])
    ensures !Under(MovedBy(plan, names[..i]), Parent(names[i]))
  {
    var n, moved := names[i], MovedBy(plan, names[..i]);
    NamesAreDistinct(names, g.es, i);
    forall q | q in moved ensures !(q <= n) && !(q <= Parent(n)) {
      assert q in g.es && q != [] && q != n;
      if q < n {
        MovesAreTopmost(d, g, plan, q, n);
      }
    }
  }

  /** Before a planned move, its directory is there, and its own name is as it
      was planned. */
  lemma ReadyToMove(d: Tree, g: Merge, plan: Plan, names: seq<Name>, i: nat)
    requires Mergeable(d, g) && IsPlan(d, g, plan) && SortedNames(names, g.es)
    requires i < |names| && !plan[names[i]].Skip?
    ensures var n := names[i];
            var now := Placed(d, TreeOf(g.es), MovedBy(plan, names[..i]));
            && n != [] && n in g.es
            && HasDir(now, Parent(n))
            && (n in now <==> n in d) && (n in d ==> now[n] == d[n])
            && n in Left(TreeOf(g.es), MovedBy(plan, names[..i]))
            && Left(TreeOf(g.es), MovedBy(plan, names[..i]))[n] == NodeOf(g.es, g.es[n])
  {
    assert names[i] in names;
    NotYetMoved(d, g, plan, names, i);
  }

  /** How far an interrupted merge got: `i` entries are done, and of the next
      one the file it replaces may be gone already. */
  ghost function Stopped(d: Tree, g: Merge, plan: Plan, names: seq<Name>, i: nat, half: bool): Tree
    requires i <= |names|
  {
    var now := Placed(d, TreeOf(g.es), MovedBy(plan, names[..i]));
    if half && i < |names| && names[i] in plan && plan[names[i]].ReplaceWithDir? then now - {names[i]} else now
  }

  method ApplyEntry(dest: Root, tmp: Root, n: Name, action: Action) returns (st: Status, ghost half: bool)
    requires dest != tmp && n != [] && HasDir(dest.tree, Parent(n))
    requires Moves(action) && n in tmp.tree
    requires action.Place? <==> n !in dest.tree
    requires n in dest.tree ==> !dest.tree[n].Directory?
    requires action.Replace? ==> !tmp.tree[n].Directory?
    modifies dest, tmp`tree
    ensures st == Done || st == Fault
    ensures st == Done ==>
              && dest.tree == Moved(if action.ReplaceWithDir? then old(dest.tree) - {n} else old(dest.tree),
                                    old(tmp.tree), n)
              && tmp.tree == Without(old(tmp.tree), n)
    ensures st == Fault ==> dest.tree == if half then old(dest.tree) - {n} else old(dest.tree)
    ensures half ==> action.ReplaceWithDir?
    ensures old(dest.clock) <= dest.clock
    ensures st == Fault ==> dest.Faulted(old(dest.clock), dest.clock)
  {
    half := false;
    if action == ReplaceWithDir {
      st := dest.Unlink(n);
      if st == Fault {
        return;
      }
      half := true;
      assert HasDir(dest.tree, Parent(n));
    }
    st := dest.RenameFrom(tmp, n, action == Replace);
  }

  /** What holds when the loop of applyMerge comes to a move. */
  lemma BeforeMove(d: Tree, g: Merge, plan: Plan, names: seq<Name>, k: nat, now: Tree, rest: Tree)
    requires Mergeable(d, g) && SortedNames(names, g.es) && IsPlan(d, g, plan)
    requires k < |names| && names[k] in plan && Moves(plan[names[k]])
    requires now == Placed(d, TreeOf(g.es), MovedBy(plan, names[..k]))
    requires rest == Left(TreeOf(g.es), MovedBy(plan, names[..k]))
    ensures var n, action := names[k], plan[names[k]];
            && n != [] && n in rest && HasDir(now, Parent(n))
            && (action.Place? <==> n !in now)
            && (n in now ==> !now[n].Directory?)
            && (action.Replace? ==> !rest[n].Directory?)
  {
    hide Mergeable, Placed, Left, MovedBy, SortedNames;
    assert Planned(d, g, names[k]) == Some(plan[names[k]]);
    ReadyToMove(d, g, plan, names, k);
  }

  /** What the move does. */
  lemma AfterMove(d: Tree, g: Merge, plan: Plan, names: seq<Name>, k: nat)
    requires Mergeable(d, g) && SortedNames(names, g.es) && IsPlan(d, g, plan)
    requires k < |names| && names[k] in plan && Moves(plan[names[k]])
    ensures var n, t, moved := names[k], TreeOf(g.es), MovedBy(plan, names[..k]);
            && Placed(d, t, MovedBy(plan, names[..k + 1])) == Moved(Placed(d, t, moved), Left(t, moved), n)
            && Placed(d, t, MovedBy(plan, names[..k + 1])) == Moved(Placed(d, t, moved) - {n}, Left(t, moved), n)
            && Left(t, MovedBy(plan, names[..k + 1])) == Without(Left(t, moved), n)
  {
    NextMoved(plan, names, k);
    NotYetMoved(d, g, plan, names, k);
    PlacedAfter(d, TreeOf(g.es), MovedBy(plan, names[..k]), names[k]);
  }

  /** One turn of the loop of applyMerge. */
  method ApplyStep(dest: Root, tmp: Root, n: Name, action: Action) returns (st: Status, ghost half: bool)
    requires dest != tmp && n != []
    requires action != Skip ==> forall j: nat :: DirThere(dest.tree, Parent(n), j)
    requires Moves(action) ==>
               && n in tmp.tree && HasDir(dest.tree, Parent(n))
               && (action.Place? <==> n !in dest.tree)
               && (n in dest.tree ==> !dest.tree[n].Directory?)
               && (action.Replace? ==> !tmp.tree[n].Directory?)
    modifies dest, tmp`tree
    ensures st == Done || st == Fault
    ensures st == Done && Moves(action) ==>
              && dest.tree == Moved(if action.ReplaceWithDir? then old(dest.tree) - {n} else old(dest.tree),
                                    old(tmp.tree), n)
              && tmp.tree == Without(old(tmp.tree), n)
    ensures st == Done && !Moves(action) ==> dest.tree == old(dest.tree) && tmp.tree == old(tmp.tree)
    ensures st == Fault ==>
              dest.tree == if half && action.ReplaceWithDir? then old(dest.tree) - {n} else old(dest.tree)
    ensures old(dest.clock) <= dest.clock
    ensures st == Fault ==> dest.Faulted(old(dest.clock), dest.clock)
  {
    half := false;
    if action == Skip {
      return Done, false;
    }
    st := dest.CheckDir(Parent(n));
    if st == Fault || action == ExistingDir {
      return;
    }
    st, half := ApplyEntry(dest, tmp, n, action);
  }

  /** applyMerge: after all entries, the destination has everything the archive
      has and, elsewhere, everything it had. If the file system fails, it has
      got as far as some prefix of the steps. */
  method ApplyMerge(dest: Root, tmp: Root, g: Merge, plan: Plan, names: seq<Name>)
      returns (st: Status, ghost i: nat, ghost half: bool)
    requires dest != tmp && Mergeable(dest.tree, g) && SortedNames(names, g.es)
    requires IsPlan(dest.tree, g, plan) && tmp.tree == TreeOf(g.es)
    modifies dest, tmp`tree
    ensures st == Done || st == Fault
    ensures st == Done ==> dest.tree == old(dest.tree) + TreeOf(g.es)
    ensures st == Fault ==> i < |names| && dest.tree == Stopped(old(dest.tree), g, plan, names, i, half)
    ensures st == Fault ==> dest.Faulted(old(dest.clock), dest.clock)
  {
    hide Mergeable, Placed, Left, MovedBy, Moved, Without;
    ghost var d, t := dest.tree, TreeOf(g.es);
    NothingPlaced(d, t, plan, names);
    i, half := 0, false;
    for k := 0 to |names|
      invariant old(dest.clock) <= dest.clock
      invariant dest.tree == Placed(d, t, MovedBy(plan, names[..k]))
      invariant tmp.tree == Left(t, MovedBy(plan, names[..k]))
    {
      assert names[k] in names && names[k] != [];
      NextMoved(plan, names, k);
      if Moves(plan[names[k]]) {
        BeforeMove(d, g, plan, names, k, dest.tree, tmp.tree);
        AfterMove(d, g, plan, names, k);
      }
      if plan[names[k]] != Skip {
        forall j: nat ensures DirThere(dest.tree, Parent(names[k]), j) { StillThere(d, g, plan, names, k, j); }
      }
      st, half := ApplyStep(dest, tmp, names[k], plan[names[k]]);
      if st == Fault {
        i := k;
        return;
      }
    }
    assert names[..|names|] == names;
    MergeIsOverlay(d, g, plan, names);
    st := Done;
  }

  lemma NothingPlaced(d: Tree, t: Tree, plan: Plan, names: seq<Name>)
    ensures Placed(d, t, MovedBy(plan, names[..0])) == d && Left(t, MovedBy(plan, names[..0])) == t
  {}

  lemma NextMoved(plan: Plan, names: seq<Name>, k: nat)
    requires k < |names| && names[k] in plan
    ensures MovedBy(plan, names[..k + 1])
         == if Moves(plan[names[k]]) then MovedBy(plan, names[..k]) + {names[k]} else MovedBy(plan, names[..k])
  {}

  lemma StillThere(d: Tree, g: Merge, plan: Plan, names: seq<Name>, i: nat, j: nat)
    requires Mergeable(d, g) && IsPlan(d, g, plan) && SortedNames(names, g.es)
    requires i < |names| && names[i] != [] && !plan[names[i]].Skip?
    ensures DirThere(Placed(d, TreeOf(g.es), MovedBy(plan, names[..i])), Parent(names[i]), j)
  {
    var dir, moved := Parent(names[i]), MovedBy(plan, names[..i]);
    assert names[i] in names;
    NotYetMoved(d, g, plan, names, i);
    PrefixIsDir(d, dir, j);
    if j <= |dir| && dir[..j] != [] {
      assert Under(moved, dir[..j]) ==> Under(moved, dir);
    }
  }

  // --------------------------------------------------------------- what it amounts to

  ghost function AllMoved(plan: Plan): set<Name> { set q | q in plan && Moves(plan[q]) }

  /** Every entry that is not merged into an existing directory lies at or below
      a moved one. */
  lemma {:induction false} EntryIsCovered(d: Tree, g: Merge, plan: Plan, p: Name)
    requires Mergeable(d, g) && IsPlan(d, g, plan) && p in g.es
    ensures p in plan && (plan[p].ExistingDir? || Under(AllMoved(plan), p))
    decreases |p|
  {
    assert Planned(d, g, p) == Some(plan[p]);
    if plan[p].Skip? {
      var dir := Parent(p);
      assert Below(dir, p);
      assert IsDir(g.es, dir);
      EntryIsCovered(d, g, plan, dir);
      ExistingIffHasDir(d, g, dir);
      var q :| q in AllMoved(plan) && q <= dir;
      assert q <= p;
    } else if Moves(plan[p]) {
      assert p in AllMoved(plan);
    }
  }

  /** A skipped entry is moved along with exactly one directory above it. */
  lemma SkippedBelowExactlyOne(d: Tree, g: Merge, plan: Plan, p: Name)
    requires Mergeable(d, g) && IsPlan(d, g, plan) && p in g.es && plan[p].Skip?
    ensures exists q :: q in AllMoved(plan) && Below(q, p) && g.es[q].DirEntry?
    ensures forall q, r :: q in AllMoved(plan) && r in AllMoved(plan) && Below(q, p) && Below(r, p) ==> q == r
  {
    EntryIsCovered(d, g, plan, p);
    var q :| q in AllMoved(plan) && q <= p;
    assert q in g.es && q != [] && q != p;
    assert Below(q, p);
    assert IsDir(g.es, q);
    forall q, r | q in AllMoved(plan) && r in AllMoved(plan) && Below(q, p) && Below(r, p) ensures q == r {
      if |q| < |r| {
        assert q == p[..|q|] && r == p[..|r|];
        assert Below(q, r);
        MovesAreTopmost(d, g, plan, q, r);
      } else if |r| < |q| {
        assert q == p[..|q|] && r == p[..|r|];
        assert Below(r, q);
        MovesAreTopmost(d, g, plan, r, q);
      } else {
        assert q == p[..|q|] && r == p[..|r|];
      }
    }
  }

  /** Renaming only the top-most new entries turns the destination into the
      overlay of itself with the archive: every path of the archive has the
      archive's entry, every other path is as it was. */
  lemma MergeIsOverlay(d: Tree, g: Merge, plan: Plan, names: seq<Name>)
    requires Mergeable(d, g) && IsPlan(d, g, plan) && SortedNames(names, g.es)
    ensures Placed(d, TreeOf(g.es), MovedBy(plan, names)) == d + TreeOf(g.es)
  {
    hide Mergeable, IsPlan, Planned, SortedNames;
    var t, moved := TreeOf(g.es), MovedBy(plan, names);
    AllAreMoved(d, g, plan, names);
    forall p | p in t ensures Under(moved, p) || (p in d && d[p] == t[p]) {
      EntryIsCovered(d, g, plan, p);
      if plan[p].ExistingDir? {
        MergedDirIsThere(d, g, plan, p);
      }
    }
  }

  lemma AllAreMoved(d: Tree, g: Merge, plan: Plan, names: seq<Name>)
    requires IsPlan(d, g, plan) && SortedNames(names, g.es)
    ensures MovedBy(plan, names) == AllMoved(plan)
  {}

  lemma MergedDirIsThere(d: Tree, g: Merge, plan: Plan, p: Name)
    requires IsPlan(d, g, plan) && p in plan && plan[p].ExistingDir?
    ensures p in d && d[p] == Directory && NodeOf(g.es, g.es[p]) == Directory
  {}

  // ------------------------------------------------------- how far a merge can get

  lemma MovedByIsPart(plan: Plan, names: seq<Name>, i: nat, p: Name)
    requires i <= |names| && Under(MovedBy(plan, names[..i]), p)
    ensures Under(AllMoved(plan), p)
  {
    var q :| q in MovedBy(plan, names[..i]) && q <= p;
    assert q in AllMoved(plan);
  }

  /** Wherever the merge stops, a path shows the archive's entry if it lies at
      or below a move, or else what was there before; and what lies at or below
      no move is unchanged. */
  lemma StoppedShows(d: Tree, g: Merge, plan: Plan, names: seq<Name>, i: nat, half: bool, p: Name)
    requires i <= |names|
    ensures var u := Stopped(d, g, plan, names, i, half);
            && (p in u ==> (p in d && u[p] == d[p])
                           || (p in g.es && Under(AllMoved(plan), p) && u[p] == TreeOf(g.es)[p]))
            && (p in d && !Under(AllMoved(plan), p) ==> p in u && u[p] == d[p])
  {
    if Under(MovedBy(plan, names[..i]), p) {
      MovedByIsPart(plan, names, i, p);
    }
    if half && i < |names| && names[i] in plan && plan[names[i]].ReplaceWithDir? {
      assert names[i] in AllMoved(plan);
      if p == names[i] {
        assert Under(AllMoved(plan), p);
      }
    }
  }

  /** Nothing of the old destination lies strictly below a move. */
  lemma NothingBelowMove(d: Tree, g: Merge, plan: Plan, q: Name, p: Name)
    requires Mergeable(d, g) && IsPlan(d, g, plan) && q in AllMoved(plan) && q <= p && p in d
    ensures p == q && !d[q].Directory?
  {
    assert Planned(d, g, q) == Some(plan[q]);
    AboveIsDir(d, q, p);
  }

  lemma UnderMovedBy(d: Tree, g: Merge, plan: Plan, moved: set<Name>, a: Name, p: Name)
    requires Mergeable(d, g) && IsPlan(d, g, plan) && moved <= AllMoved(plan)
    requires Under(moved, p) && Below(a, p) && p in g.es
    ensures Under(moved, a) || (HasDir(d, a) && !Under(AllMoved(plan), a))
  {
    var q :| q in moved && q <= p;
    if |q| <= |a| {
      assert q == p[..|q|] && a == p[..|a|];
      assert q <= a;
    } else {
      assert q == p[..|q|] && a == p[..|a|];
      assert Below(a, q);
      assert Planned(d, g, q) == Some(plan[q]);
      PrefixIsDir(d, Parent(q), |a|);
      assert Parent(q)[..|a|] == a;
      assert IsDir(g.es, a);
      ParentIsDir(d, a);
      assert Planned(d, g, a) == Some(ExistingDir);
      forall r | r in AllMoved(plan) ensures !(r <= a) {
        if r <= a {
          NothingBelowMove(d, g, plan, r, a);
        }
      }
    }
  }

  /** At every point of the merge the destination is a proper tree. */
  lemma PlacedIsGrounded(d: Tree, g: Merge, plan: Plan, moved: set<Name>)
    requires Mergeable(d, g) && IsPlan(d, g, plan) && moved <= AllMoved(plan)
    ensures Grounded(Placed(d, TreeOf(g.es), moved))
  {
    var t := TreeOf(g.es);
    var u := Placed(d, t, moved);
    assert !Canonical([]);
    forall a, p | p in u && Below(a, p) ensures HasDir(u, a) {
      if p in t && Under(moved, p) {
        assert IsDir(g.es, a);
        UnderMovedBy(d, g, plan, moved, a, p);
      } else {
        assert HasDir(d, a);
        forall r | r in moved ensures !(r <= a) {
          if r <= a {
            NothingBelowMove(d, g, plan, r, a);
          }
        }
      }
    }
  }

  /** Taking away what is no directory leaves a proper tree. */
  lemma DropKeepsGrounded(u: Tree, n: Name)
    requires Grounded(u) && (n in u ==> !u[n].Directory?)
    ensures Grounded(u - {n})
  {
    forall a, p | p in u - {n} && Below(a, p) ensures HasDir(u - {n}, a) {
      assert HasDir(u, a);
    }
  }

  lemma StoppedIsGrounded(d: Tree, g: Merge, plan: Plan, names: seq<Name>, i: nat, half: bool)
    requires Mergeable(d, g) && IsPlan(d, g, plan) && SortedNames(names, g.es) && i <= |names|
    ensures Grounded(Stopped(d, g, plan, names, i, half))
  {
    hide Mergeable, SortedNames, Placed, Grounded;
    MovedByIsMoved(plan, names[..i]);
    PlacedIsGrounded(d, g, plan, MovedBy(plan, names[..i]));
    if half && i < |names| && names[i] in plan && plan[names[i]].ReplaceWithDir? {
      ReadyToMove(d, g, plan, names, i);
      DropKeepsGrounded(Placed(d, TreeOf(g.es), MovedBy(plan, names[..i])), names[i]);
    }
  }

  lemma MovedByIsMoved(plan: Plan, names: seq<Name>)
    ensures MovedBy(plan, names) <= AllMoved(plan)
  {}
}
