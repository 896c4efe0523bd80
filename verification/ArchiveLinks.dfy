/** Where the symlinks of an archive lead (archive.go, checkSymlinks and
    resolveSymlink). */
module ArchiveLinks {
  import opened Text
  import opened ArchiveNames
  import opened ArchiveManifest

  const MAX_SYMLINK_HOPS: nat := 40
  const MAX_SYMLINK_CHECK_WORK: nat := 0x1000_0000

  // --------------------------------------------------- how a path is looked up

  predicate IsLink(es: Entries, n: Name) { n in es && es[n].SymlinkEntry? }

  /** A lookup in the extracted tree: the directory reached so far, below the
      destination, and the components still to look up; or a lookup that left
      the destination. Names the archive does not contain count as plain
      directories, so every lookup the kernel makes is a prefix of this one. */
  datatype Lookup = At(stack: Name, todo: seq<string>) | Outside

  function Step(es: Entries, w: Lookup): Lookup
  {
    if w.Outside? || w.todo == [] then w
    else
      var c, rest := w.todo[0], w.todo[1..];
      if c == "" || c == "." then At(w.stack, rest)
      else if c == ".." then if w.stack == [] then Outside else At(Parent(w.stack), rest)
      else if IsLink(es, w.stack + [c]) then At(w.stack, Split(es[w.stack + [c]].target, '/') + rest)
      else At(w.stack + [c], rest)
  }

  function Steps(es: Entries, w: Lookup, n: nat): Lookup
    decreases n
  {
    if n == 0 then w else Steps(es, Step(es, w), n - 1)
  }

  lemma {:induction false} StepsAdd(es: Entries, w: Lookup, a: nat, b: nat)
    ensures Steps(es, w, a + b) == Steps(es, Steps(es, w, a), b)
    decreases a
  {
    if a > 0 {
      StepsAdd(es, Step(es, w), a - 1, b);
    }
  }

  lemma {:induction false} StuckStays(es: Entries, w: Lookup, n: nat)
    requires w.Outside? || w.todo == []
    ensures Steps(es, w, n) == w
    decreases n
  {
    if n > 0 {
      StuckStays(es, w, n - 1);
    }
  }

  /** The lookup of `todo` from `stack` takes exactly `n` steps, without
      leaving the destination, and ends in `end`. */
  ghost predicate Ends(es: Entries, stack: Name, todo: seq<string>, n: nat, end: Name)
    decreases n
  {
    if todo == [] then n == 0 && end == stack
    else
      var w := Step(es, At(stack, todo));
      n > 0 && w.At? && Ends(es, w.stack, w.todo, n - 1, end)
  }

  lemma {:induction false} EndsSteps(es: Entries, stack: Name, todo: seq<string>, n: nat, end: Name)
    requires Ends(es, stack, todo, n, end)
    ensures Steps(es, At(stack, todo), n) == At(end, [])
    decreases n
  {
    if todo != [] {
      var w := Step(es, At(stack, todo));
      EndsSteps(es, w.stack, w.todo, n - 1, end);
    }
  }

  /** Looking up `todo` does not depend on what is looked up after it. */
  lemma {:induction false} EndsThen(es: Entries, stack: Name, todo: seq<string>, n: nat, mid: Name,
                                    rest: seq<string>, k: nat, end: Name)
    requires Ends(es, stack, todo, n, mid) && Ends(es, mid, rest, k, end)
    ensures Ends(es, stack, todo + rest, n + k, end)
    decreases n
  {
    if todo == [] {
      assert todo + rest == rest;
    } else {
      var w := Step(es, At(stack, todo));
      EndsThen(es, w.stack, w.todo, n - 1, mid, rest, k, end);
      StepPrefix(es, stack, todo, rest);
    }
  }

  lemma StepPrefix(es: Entries, stack: Name, todo: seq<string>, rest: seq<string>)
    requires todo != [] && Step(es, At(stack, todo)).At?
    ensures var w := Step(es, At(stack, todo));
            Step(es, At(stack, todo + rest)) == At(w.stack, w.todo + rest)
  {}

  // ------------------------------------------------------------ the check itself

  datatype Verdict = Inside(work: int) | LeadsOutside | TooManyHops | TooMuchWork

  /** resolveSymlink from the middle of its loop. */
  function Resolve(es: Entries, stack: Name, todo: seq<string>, hops: nat, work: int): Verdict
    requires hops <= MAX_SYMLINK_HOPS
    decreases MAX_SYMLINK_HOPS - hops, |todo|
  {
    if todo == [] then Inside(work)
    else
      var c, rest := todo[0], todo[1..];
      if c == "" || c == "." then Resolve(es, stack, rest, hops, work)
      else if c == ".." then
        if stack == [] then LeadsOutside else Resolve(es, Parent(stack), rest, hops, work)
      else
        var left := work - |Render(stack + [c])|;
        if left < 0 then TooMuchWork
        else if !IsLink(es, stack + [c]) then Resolve(es, stack + [c], rest, hops, left)
        else if hops == MAX_SYMLINK_HOPS then TooManyHops
        else Resolve(es, stack, Split(es[stack + [c]].target, '/') + rest, hops + 1, left)
  }

  /** checkSymlinks over the links in `order` from index `i`. */
  function Check(m: Manifest, i: nat, work: int): Verdict
    requires i <= |m.order|
    decreases |m.order| - i
  {
    if i == |m.order| then Inside(work)
    else
      var n := m.order[i];
      if !IsLink(m.entries, n) || n == [] then Check(m, i + 1, work)
      else
        var v := Resolve(m.entries, Parent(n), Split(m.entries[n].target, '/'), 0, work);
        if v.Inside? then Check(m, i + 1, v.work) else v
  }

  const MAX_STEPS_PER_LINK: nat := (MAX_SYMLINK_HOPS + 1) * (MAX_SYMLINK_TARGET_LEN + 1)

  lemma {:induction false} SplitLength(s: string, sep: char)
    ensures |Split(s, sep)| <= |s| + 1
    decreases |s|
  {
    var i := Find(s, sep);
    if i < |s| {
      SplitLength(s[i + 1..], sep);
    }
  }

  /** The loop of resolveSymlink. Whatever the other links are, one link takes
      at most MAX_STEPS_PER_LINK turns. */
  method ResolveSymlink(es: Entries, link: Name, work: int) returns (v: Verdict, turns: nat)
    requires link != [] && IsLink(es, link)
    requires forall n :: IsLink(es, n) ==> ValidTarget(es[n].target)
    ensures v == Resolve(es, Parent(link), Split(es[link].target, '/'), 0, work)
    ensures turns <= MAX_STEPS_PER_LINK
  {
    hide Split, ArchiveNames.Render;
    var stack := Parent(link);
    var todo := Split(es[link].target, '/');
    var hops := 0;
    var left := work;
    turns := 0;
    ghost var answer := Resolve(es, stack, todo, 0, work);
    SplitLength(es[link].target, '/');
    while todo != []
      invariant hops <= MAX_SYMLINK_HOPS
      invariant turns + |todo| <= (hops + 1) * (MAX_SYMLINK_TARGET_LEN + 1)
      invariant Resolve(es, stack, todo, hops, left) == answer
      decreases MAX_SYMLINK_HOPS - hops, |todo|
    {
      turns := turns + 1;
      var c := todo[0];
      ghost var here := stack;
      todo := todo[1..];
      if c == "" || c == "." {
        continue;
      }
      if c == ".." {
        if stack == [] {
          return LeadsOutside, turns;
        }
        stack := Parent(stack);
        continue;
      }
      stack := stack + [c];
      left := left - |Render(stack)|;
      if left < 0 {
        return TooMuchWork, turns;
      }
      if !IsLink(es, stack) {
        continue;
      }
      hops := hops + 1;
      if hops > MAX_SYMLINK_HOPS {
        return TooManyHops, turns;
      }
      SplitLength(es[stack].target, '/');
      todo := Split(es[stack].target, '/') + todo;
      stack := Parent(stack);
      assert stack == here;
    }
    v := Inside(left);
  }

  /** The loop of checkSymlinks. */
  method CheckSymlinks(m: Manifest) returns (v: Verdict)
    requires WellFormed(m)
    ensures v == Check(m, 0, MAX_SYMLINK_CHECK_WORK)
  {
    var work: int := MAX_SYMLINK_CHECK_WORK;
    for i := 0 to |m.order|
      invariant Check(m, i, work) == Check(m, 0, MAX_SYMLINK_CHECK_WORK)
    {
      var n := m.order[i];
      if n in m.entries && m.entries[n].SymlinkEntry? {
        assert Canonical(n);
        var r, _ := ResolveSymlink(m.entries, n, work);
        if !r.Inside? {
          return r;
        }
        work := r.work;
      }
    }
    v := Inside(work);
  }

  // ------------------------------------------------------- what acceptance means

  /** A link that passes leads to a place inside the destination, after
      finitely many steps. */
  lemma {:induction false} InsideEnds(es: Entries, stack: Name, todo: seq<string>, hops: nat, work: int)
      returns (n: nat, end: Name)
    requires hops <= MAX_SYMLINK_HOPS && Resolve(es, stack, todo, hops, work).Inside?
    ensures Ends(es, stack, todo, n, end)
    decreases MAX_SYMLINK_HOPS - hops, |todo|
  {
    if todo == [] {
      n, end := 0, stack;
    } else {
      var c, w := todo[0], Step(es, At(stack, todo));
      var plain := c != "" && c != "." && c != "..";
      var follow := plain && IsLink(es, stack + [c]);
      n, end := InsideEnds(es, w.stack, w.todo, if follow then hops + 1 else hops,
                           if plain then work - |Render(stack + [c])| else work);
      n := n + 1;
    }
  }

  /** A link refused because it leads outside really does. */
  lemma {:induction false} OutsideIsReached(es: Entries, stack: Name, todo: seq<string>, hops: nat, work: int)
      returns (n: nat)
    requires hops <= MAX_SYMLINK_HOPS && Resolve(es, stack, todo, hops, work).LeadsOutside?
    ensures Steps(es, At(stack, todo), n) == Outside
    decreases MAX_SYMLINK_HOPS - hops, |todo|
  {
    var c, w := todo[0], Step(es, At(stack, todo));
    if w.Outside? {
      n := 0;
    } else {
      var plain := c != "" && c != "." && c != "..";
      var follow := plain && IsLink(es, stack + [c]);
      n := OutsideIsReached(es, w.stack, w.todo, if follow then hops + 1 else hops,
                            if plain then work - |Render(stack + [c])| else work);
    }
    n := n + 1;
  }

  // ------------------------------------------------------------ within which limits

  /** The next step of a lookup follows a link. */
  predicate Follows(es: Entries, w: Lookup)
  {
    w.At? && w.todo != [] && IsPlain(w.todo[0]) && IsLink(es, w.stack + [w.todo[0]])
  }

  predicate IsPlain(c: string) { c != "" && c != "." && c != ".." }

  /** How many of the first `n` steps follow a link. */
  function Followed(es: Entries, w: Lookup, n: nat): nat
    decreases n
  {
    if n == 0 then 0 else Followed(es, Step(es, w), n - 1) + if Follows(es, w) then 1 else 0
  }

  /** The length of the names that are looked up in the first `n` steps. */
  function Looked(es: Entries, w: Lookup, n: nat): nat
    decreases n
  {
    if n == 0 then 0
    else Looked(es, Step(es, w), n - 1)
         + if w.At? && w.todo != [] && IsPlain(w.todo[0]) then |Render(w.stack + [w.todo[0]])| else 0
  }

  /** The lookup ends inside within so many links and so much work. */
  ghost predicate Within(es: Entries, stack: Name, todo: seq<string>, hops: nat, work: int, n: nat, end: Name)
  {
    && Ends(es, stack, todo, n, end)
    && Followed(es, At(stack, todo), n) <= hops && Looked(es, At(stack, todo), n) <= work
  }

  /** A lookup ends in one place after one number of steps. */
  lemma {:induction false} EndsOnce(es: Entries, stack: Name, todo: seq<string>, n: nat, a: Name, k: nat, b: Name)
    requires Ends(es, stack, todo, n, a) && Ends(es, stack, todo, k, b)
    ensures n == k && a == b
    decreases n
  {
    hide Step;
    if todo != [] {
      var w := Step(es, At(stack, todo));
      EndsOnce(es, w.stack, w.todo, n - 1, a, k - 1, b);
    }
  }

  /** A link passes exactly if its lookup ends inside within the links and the work that are
      left, and then that much work is left less. */
  lemma {:induction false} InsideIs(es: Entries, stack: Name, todo: seq<string>, hops: nat, work: int, n: nat, end: Name)
    requires hops <= MAX_SYMLINK_HOPS && 0 <= work && Ends(es, stack, todo, n, end)
    ensures var v := Resolve(es, stack, todo, hops, work);
      if Within(es, stack, todo, MAX_SYMLINK_HOPS - hops, work, n, end)
      then v == Inside(work - Looked(es, At(stack, todo), n)) else v.TooManyHops? || v.TooMuchWork?
    decreases n
  {
    hide Render;
    if todo != [] {
      var c, w := todo[0], Step(es, At(stack, todo));
      var follow := Follows(es, At(stack, todo));
      var left := if IsPlain(c) then work - |Render(stack + [c])| else work;
      if 0 <= left && (follow ==> hops < MAX_SYMLINK_HOPS) {
        InsideIs(es, w.stack, w.todo, if follow then hops + 1 else hops, left, n - 1, end);
      }
    }
  }

  ghost predicate LinkEnds(es: Entries, n: Name)
    requires n != [] && IsLink(es, n)
  {
    exists k, end :: Ends(es, Parent(n), Split(es[n].target, '/'), k, end)
  }

  ghost predicate AllLinksEnd(es: Entries)
  {
    forall n :: n != [] && IsLink(es, n) ==> LinkEnds(es, n)
  }

  lemma {:induction false} CheckedLinkEnds(m: Manifest, i: nat, work: int, j: nat)
    requires i <= j < |m.order| && Check(m, i, work).Inside?
    requires m.order[j] != [] && IsLink(m.entries, m.order[j])
    ensures LinkEnds(m.entries, m.order[j])
    decreases j - i
  {
    var n := m.order[i];
    if !IsLink(m.entries, n) || n == [] {
      CheckedLinkEnds(m, i + 1, work, j);
    } else if i < j {
      CheckedLinkEnds(m, i + 1, Resolve(m.entries, Parent(n), Split(m.entries[n].target, '/'), 0, work).work, j);
    } else {
      var k, end := InsideEnds(m.entries, Parent(n), Split(m.entries[n].target, '/'), 0, work);
    }
  }

  /** The work of looking up a link that ends inside. */
  ghost function LinkWork(es: Entries, n: Name): nat
    requires n != [] && IsLink(es, n) && LinkEnds(es, n)
  {
    var k, end :| Ends(es, Parent(n), Split(es[n].target, '/'), k, end);
    Looked(es, At(Parent(n), Split(es[n].target, '/')), k)
  }

  /** The link ends inside, through no more than MAX_SYMLINK_HOPS links after it. */
  ghost predicate LinkIsShort(es: Entries, n: Name)
    requires n != [] && IsLink(es, n)
  {
    exists k, end :: Within(es, Parent(n), Split(es[n].target, '/'), MAX_SYMLINK_HOPS, WorkOf(es, n), k, end)
  }

  ghost function WorkOf(es: Entries, n: Name): nat
    requires n != [] && IsLink(es, n)
  {
    if LinkEnds(es, n) then LinkWork(es, n) else 0
  }

  /** The work of all links from index `i` on. */
  ghost function TotalWork(m: Manifest, i: nat): nat
    requires i <= |m.order|
    decreases |m.order| - i
  {
    if i == |m.order| then 0
    else
      var n := m.order[i];
      TotalWork(m, i + 1) + if n != [] && IsLink(m.entries, n) then WorkOf(m.entries, n) else 0
  }

  ghost predicate AllShort(m: Manifest, i: nat)
  {
    forall j :: i <= j < |m.order| && m.order[j] != [] && IsLink(m.entries, m.order[j]) ==> LinkIsShort(m.entries, m.order[j])
  }

  lemma LinkVerdict(es: Entries, n: Name, work: int)
    requires n != [] && IsLink(es, n) && 0 <= work
    ensures var v := Resolve(es, Parent(n), Split(es[n].target, '/'), 0, work);
      if LinkIsShort(es, n) && WorkOf(es, n) <= work then v == Inside(work - WorkOf(es, n)) else !v.Inside?
  {
    hide Resolve, Looked, Followed, Ends, Split;
    var stack, todo := Parent(n), Split(es[n].target, '/');
    if LinkEnds(es, n) {
      var k, end :| Ends(es, stack, todo, k, end);
      WorkIs(es, n, k, end);
      InsideIs(es, stack, todo, 0, work, k, end);
      ShortIs(es, n, k, end);
    } else {
      NotShort(es, n);
      if Resolve(es, stack, todo, 0, work).Inside? {
        var k, end := InsideEnds(es, stack, todo, 0, work);
      }
    }
  }

  lemma WorkIs(es: Entries, n: Name, k: nat, end: Name)
    requires n != [] && IsLink(es, n) && Ends(es, Parent(n), Split(es[n].target, '/'), k, end)
    ensures LinkEnds(es, n) && WorkOf(es, n) == Looked(es, At(Parent(n), Split(es[n].target, '/')), k)
  {
    hide Looked, Ends, Split;
    var stack, todo := Parent(n), Split(es[n].target, '/');
    forall j, b | Ends(es, stack, todo, j, b) ensures j == k { EndsOnce(es, stack, todo, j, b, k, end); }
  }

  lemma ShortIs(es: Entries, n: Name, k: nat, end: Name)
    requires n != [] && IsLink(es, n) && Ends(es, Parent(n), Split(es[n].target, '/'), k, end)
    ensures LinkIsShort(es, n) <==> Followed(es, At(Parent(n), Split(es[n].target, '/')), k) <= MAX_SYMLINK_HOPS
  {
    hide Looked, Followed, Ends, Split;
    WorkIs(es, n, k, end);
    var stack, todo := Parent(n), Split(es[n].target, '/');
    forall j, b | Ends(es, stack, todo, j, b) ensures j == k { EndsOnce(es, stack, todo, j, b, k, end); }
    if Followed(es, At(stack, todo), k) <= MAX_SYMLINK_HOPS {
      assert Within(es, stack, todo, MAX_SYMLINK_HOPS, WorkOf(es, n), k, end);
    }
  }

  lemma NotShort(es: Entries, n: Name)
    requires n != [] && IsLink(es, n) && !LinkEnds(es, n)
    ensures !LinkIsShort(es, n)
  {
    hide Looked, Followed, Ends, Split;
  }

  /** The links of an archive pass if and only if each of them ends inside, through no more
      than MAX_SYMLINK_HOPS links, and looking all of them up is not too much work. */
  lemma {:induction false} CheckIs(m: Manifest, i: nat, work: int)
    requires i <= |m.order| && 0 <= work
    ensures Check(m, i, work).Inside? <==> AllShort(m, i) && TotalWork(m, i) <= work
    decreases |m.order| - i
  {
    hide Resolve, LinkIsShort, WorkOf, Split;
    if i < |m.order| {
      var n := m.order[i];
      if !IsLink(m.entries, n) || n == [] {
        CheckIs(m, i + 1, work);
        AllShortStep(m, i);
      } else {
        LinkVerdict(m.entries, n, work);
        AllShortStep(m, i);
        if LinkIsShort(m.entries, n) && WorkOf(m.entries, n) <= work {
          CheckIs(m, i + 1, work - WorkOf(m.entries, n));
        }
      }
    }
  }

  lemma AllShortStep(m: Manifest, i: nat)
    requires i < |m.order|
    ensures AllShort(m, i) <==>
      (m.order[i] != [] && IsLink(m.entries, m.order[i]) ==> LinkIsShort(m.entries, m.order[i])) && AllShort(m, i + 1)
  {
    hide LinkIsShort;
  }

  lemma CheckedLinksEnd(m: Manifest)
    requires WellFormed(m) && Check(m, 0, MAX_SYMLINK_CHECK_WORK).Inside?
    ensures AllLinksEnd(m.entries)
  {
    forall n | n != [] && IsLink(m.entries, n) ensures LinkEnds(m.entries, n) {
      assert n in m.order;
      var j :| 0 <= j < |m.order| && m.order[j] == n;
      CheckedLinkEnds(m, 0, MAX_SYMLINK_CHECK_WORK, j);
    }
  }

  /** If every link on its own ends inside, so does every path without "..",
      however many links it leads through. */
  lemma {:induction false} PathEnds(es: Entries, stack: Name, path: seq<string>) returns (n: nat, end: Name)
    requires AllLinksEnd(es) && ".." !in path
    ensures Ends(es, stack, path, n, end)
    decreases |path|
  {
    if path == [] {
      n, end := 0, stack;
    } else {
      var c, rest := path[0], path[1..];
      assert c in path;
      if c != "" && c != "." && IsLink(es, stack + [c]) {
        var link := stack + [c];
        assert Parent(link) == stack && LinkEnds(es, link);
        var target := Split(es[link].target, '/');
        var a, mid :| Ends(es, stack, target, a, mid);
        var b, last := PathEnds(es, mid, rest);
        EndsThen(es, stack, target, a, mid, rest, b, last);
        n, end := a + b + 1, last;
      } else {
        var w := Step(es, At(stack, path));
        n, end := PathEnds(es, w.stack, rest);
        n := n + 1;
      }
    }
  }

  /** The guarantee of checkSymlinks: in the tree of an accepted archive, the
      lookup of any path without ".." comes to an end, and at no point is it
      outside the destination. */
  lemma AcceptedArchiveStaysInside(m: Manifest, path: seq<string>, i: nat)
    requires WellFormed(m) && Check(m, 0, MAX_SYMLINK_CHECK_WORK).Inside?
    requires ".." !in path
    ensures Steps(m.entries, At([], path), i).At?
    ensures exists n, end :: Ends(m.entries, [], path, n, end)
  {
    CheckedLinksEnd(m);
    var n, end := PathEnds(m.entries, [], path);
    EndsSteps(m.entries, [], path, n, end);
    if i <= n {
      StepsAdd(m.entries, At([], path), i, n - i);
      if Steps(m.entries, At([], path), i).Outside? {
        StuckStays(m.entries, Outside, n - i);
        assert false;
      }
    } else {
      StepsAdd(m.entries, At([], path), n, i - n);
      StuckStays(m.entries, At(end, []), i - n);
    }
  }

  /** An archive that a purely lexical check would pass: sub/up leads to "..",
      and sub/x to "up/..". Looking at where sub/up leads, it is refused. */
  lemma ChainedLinksAreRefused(es: Entries)
    requires es == map[["sub", "up"] := SymlinkEntry(0, "..")]
    ensures Resolve(es, ["sub"], ["up", ".."], 0, MAX_SYMLINK_CHECK_WORK) == LeadsOutside
  {
    var todo, up := ["up", ".."], ["..", ".."];
    assert todo[1..] == [".."] && up[1..] == [".."];
    assert ["sub"] + ["up"] == ["sub", "up"];
    assert Split("..", '/') == [".."];
    assert [".."] + [".."] == up;
    assert Render(["sub", "up"]) == "sub/up";
    assert Resolve(es, [], [".."], 1, MAX_SYMLINK_CHECK_WORK - 6) == LeadsOutside;
    assert Resolve(es, ["sub"], up, 1, MAX_SYMLINK_CHECK_WORK - 6) == LeadsOutside;
  }
}
