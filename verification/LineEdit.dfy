/** The line and block editor (file_line_edit.go): finding a managed line or a block
    between markers, putting it in place, and taking it out. */
module LineEdit {
  import opened Text
  import opened TextLines

  /** A regular expression, by the lines it matches. */
  type Pattern = string -> bool

  datatype Fragment =
    | LineFragment(line: string, re: Option<Pattern>)
    | BlockFragment(block: seq<string>, begin: string, end: string)

  /** Where an absent fragment goes: at the beginning, or by a pattern, or at the end. */
  datatype Where = Where(atBeginning: bool, before: Option<Pattern>, after: Option<Pattern>)

  // ---------------------------------------------------------------------- markers

  const PLACEHOLDER := "{mark}"

  /** strings.ReplaceAll with the placeholder as the old text. */
  function Marker(template: string, word: string): string
    decreases |template|
  {
    if |template| < |PLACEHOLDER| then template
    else if PLACEHOLDER <= template then word + Marker(template[|PLACEHOLDER|..], word)
    else [template[0]] + Marker(template[1..], word)
  }

  predicate HasPlaceholder(template: string)
  {
    |PLACEHOLDER| <= |template| && (PLACEHOLDER <= template || HasPlaceholder(template[1..]))
  }

  lemma {:induction false} MarkerLengths(template: string)
    ensures |Marker(template, "END")| <= |Marker(template, "BEGIN")|
    ensures HasPlaceholder(template) ==> |Marker(template, "END")| < |Marker(template, "BEGIN")|
    decreases |template|
  {
    if |PLACEHOLDER| <= |template| {
      if PLACEHOLDER <= template {
        MarkerLengths(template[|PLACEHOLDER|..]);
      } else {
        MarkerLengths(template[1..]);
      }
    }
  }

  lemma {:induction false} MarkerIsLine(template: string, word: string)
    requires '\n' !in template && '\n' !in word && word != ""
    ensures '\n' !in Marker(template, word)
    ensures HasPlaceholder(template) ==> Marker(template, word) != ""
    decreases |template|
  {
    if |PLACEHOLDER| <= |template| {
      if PLACEHOLDER <= template {
        MarkerIsLine(template[|PLACEHOLDER|..], word);
      } else {
        MarkerIsLine(template[1..], word);
      }
    }
  }

  /** The markers of a valid template differ, and each is a line of its own. */
  lemma MarkersDiffer(template: string)
    requires HasPlaceholder(template) && '\n' !in template
    ensures Marker(template, "BEGIN") != Marker(template, "END")
    ensures forall m :: m in [Marker(template, "BEGIN"), Marker(template, "END")] ==> m != "" && '\n' !in m
  {
    MarkerLengths(template);
    MarkerIsLine(template, "BEGIN");
    MarkerIsLine(template, "END");
  }

  /** The placeholder stands at `k`. */
  predicate HasAt(template: string, k: nat) { k <= |template| && PLACEHOLDER <= template[k..] }

  lemma MarkerStep(template: string, word: string)
    ensures HasAt(template, 0) ==> Marker(template, word) == word + Marker(template[|PLACEHOLDER|..], word)
    ensures !HasAt(template, 0) && |PLACEHOLDER| <= |template| ==>
      Marker(template, word) == [template[0]] + Marker(template[1..], word)
  {
    assert template[0..] == template;
  }

  lemma HasAtTail(template: string, j: nat)
    requires template != ""
    ensures HasAt(template[1..], j) <==> HasAt(template, j + 1)
  {
    if j + 1 <= |template| {
      assert template[1..][j..] == template[j + 1..];
    }
  }

  /** Every placeholder is replaced, from the first one on, and nothing else. */
  lemma {:induction false} MarkerIs(template: string, word: string, k: nat)
    requires HasAt(template, k) && forall j :: 0 <= j < k ==> !HasAt(template, j)
    ensures k + |PLACEHOLDER| <= |template|
    ensures Marker(template, word) == template[..k] + word + Marker(template[k + |PLACEHOLDER|..], word)
    decreases |template|
  {
    hide Marker;
    MarkerStep(template, word);
    if k != 0 {
      var rest := template[1..];
      HasAtTail(template, k - 1);
      forall j | 0 <= j < k - 1 ensures !HasAt(rest, j) { HasAtTail(template, j); }
      hide HasAt;
      MarkerIs(rest, word, k - 1);
      Shifted(template, k);
    }
  }

  lemma Shifted(template: string, k: nat)
    requires 0 < k && k + |PLACEHOLDER| <= |template|
    ensures template[1..][k - 1 + |PLACEHOLDER|..] == template[k + |PLACEHOLDER|..]
    ensures forall t: string, u: string :: [template[0]] + (template[1..][..k - 1] + t + u) == template[..k] + t + u
  {
    assert [template[0]] + template[1..][..k - 1] == template[..k];
    forall t: string, u: string ensures [template[0]] + (template[1..][..k - 1] + t + u) == template[..k] + t + u {
      assert [template[0]] + (template[1..][..k - 1] + t + u) == ([template[0]] + template[1..][..k - 1]) + t + u;
    }
  }

  lemma {:induction false} NoMarkerIs(template: string, word: string)
    requires forall j :: 0 <= j <= |template| ==> !HasAt(template, j)
    ensures Marker(template, word) == template
    decreases |template|
  {
    if |PLACEHOLDER| <= |template| {
      var rest := template[1..];
      assert template[0..] == template && !HasAt(template, 0);
      forall j | 0 <= j <= |rest| ensures !HasAt(rest, j) {
        assert rest[j..] == template[j + 1..] && !HasAt(template, j + 1);
      }
      NoMarkerIs(rest, word);
    }
  }

  /** What newFragmentSpec makes: a line without line breaks, or lines between markers that
      differ and are not empty, and do not stand among them. */
  predicate ValidFragment(g: Fragment)
  {
    match g
    case LineFragment(line, _) => '\n' !in line && '\r' !in line
    case BlockFragment(block, begin, end) =>
      && begin != end && begin !in block && end !in block && begin != "" && end != ""
      && NoLineFeeds(Render(g))
  }

  function Render(g: Fragment): seq<string>
  {
    match g
    case LineFragment(line, _) => [line]
    case BlockFragment(block, begin, end) => [begin] + block + [end]
  }

  // ---------------------------------------------------------------------- finding

  function IndexFrom(lines: seq<string>, l: string, i: nat): (r: nat)
    requires i <= |lines|
    ensures i <= r <= |lines|
    ensures forall k :: i <= k < r ==> lines[k] != l
    ensures r < |lines| ==> lines[r] == l
    decreases |lines| - i
  {
    if i < |lines| && lines[i] != l then IndexFrom(lines, l, i + 1) else i
  }

  datatype Located = NoBlock | Unterminated | Located(start: nat, end: nat)

  function LocateIn(lines: seq<string>, begin: string, end: string): (r: Located)
    ensures r.Located? ==> r.start + 1 < r.end <= |lines|
  {
    var i := IndexFrom(lines, begin, 0);
    if i == |lines| then NoBlock
    else
      var j := IndexFrom(lines, end, i + 1);
      if j == |lines| then Unterminated else Located(i, j + 1)
  }

  method LocateBlock(lines: seq<string>, begin: string, end: string) returns (r: Located)
    ensures r == LocateIn(lines, begin, end)
  {
    for i := 0 to |lines|
      invariant IndexFrom(lines, begin, 0) == IndexFrom(lines, begin, i)
    {
      if lines[i] != begin {
        continue;
      }
      for j := i + 1 to |lines|
        invariant IndexFrom(lines, end, i + 1) == IndexFrom(lines, end, j)
      {
        if lines[j] == end {
          return Located(i, j + 1);
        }
      }
      return Unterminated;
    }
    r := NoBlock;
  }

  /** The number of lines up to and including the last one that matches; 0 if none does. */
  function MatchesEnd(lines: seq<string>, re: Pattern, n: nat): (r: nat)
    requires n <= |lines|
    ensures r <= n
    ensures forall k :: r <= k < n ==> !re(lines[k])
    ensures 0 < r ==> re(lines[r - 1])
  {
    if n == 0 then 0 else if re(lines[n - 1]) then n else MatchesEnd(lines, re, n - 1)
  }

  /** lastMatch: -1 if no line matches. */
  method LastMatch(lines: seq<string>, re: Pattern) returns (i: int)
    ensures i == MatchesEnd(lines, re, |lines|) - 1
  {
    i := |lines| - 1;
    while 0 <= i
      invariant -1 <= i < |lines|
      invariant MatchesEnd(lines, re, i + 1) == MatchesEnd(lines, re, |lines|)
    {
      if re(lines[i]) {
        return;
      }
      i := i - 1;
    }
  }

  datatype Status = Broken | Absent | Differs(start: nat, end: nat) | Present(start: nat, end: nat)

  function InspectLine(lines: seq<string>, line: string): Status
  {
    var i := IndexFrom(lines, line, 0);
    if i < |lines| then Present(i, i + 1) else Absent
  }

  /** inspect; the content at [start, end) is what was found. */
  function Inspection(g: Fragment, lines: seq<string>): (r: Status)
    ensures r.Differs? || r.Present? ==> r.start < r.end <= |lines|
  {
    match g
    case BlockFragment(block, begin, end) =>
      (match LocateIn(lines, begin, end)
       case NoBlock => Absent
       case Unterminated => Broken
       case Located(i, j) => if lines[i + 1..j - 1] == block then Present(i, j) else Differs(i, j))
    case LineFragment(line, re) =>
      var n := if re.Some? then MatchesEnd(lines, re.value, |lines|) else 0;
      if n == 0 then InspectLine(lines, line)
      else if lines[n - 1] == line then Present(n - 1, n)
      else Differs(n - 1, n)
  }

  method Inspect(g: Fragment, lines: seq<string>) returns (r: Status)
    ensures r == Inspection(g, lines)
  {
    if g.BlockFragment? {
      var b := LocateBlock(lines, g.begin, g.end);
      if b.Unterminated? {
        return Broken;
      }
      if b.NoBlock? {
        return Absent;
      }
      var actual := lines[b.start + 1..b.end - 1];
      return if actual == g.block then Present(b.start, b.end) else Differs(b.start, b.end);
    }
    if g.re.Some? {
      var i := LastMatch(lines, g.re.value);
      if 0 <= i {
        return if lines[i] == g.line then Present(i, i + 1) else Differs(i, i + 1);
      }
    }
    for i := 0 to |lines|
      invariant IndexFrom(lines, g.line, 0) == IndexFrom(lines, g.line, i)
    {
      if lines[i] == g.line {
        return Present(i, i + 1);
      }
    }
    r := Absent;
  }

  function PlaceFor(w: Where, lines: seq<string>): (r: nat)
    ensures r <= |lines|
  {
    if w.atBeginning then 0
    else if w.before.Some? then
      var n := MatchesEnd(lines, w.before.value, |lines|);
      if 0 < n then n - 1 else |lines|
    else if w.after.Some? then
      var n := MatchesEnd(lines, w.after.value, |lines|);
      if 0 < n then n else |lines|
    else |lines|
  }

  method InsertionIndex(w: Where, lines: seq<string>) returns (r: nat)
    ensures r == PlaceFor(w, lines)
  {
    if w.atBeginning {
      return 0;
    }
    if w.before.Some? {
      var i := LastMatch(lines, w.before.value);
      if 0 <= i {
        return i;
      }
    } else if w.after.Some? {
      var i := LastMatch(lines, w.after.value);
      if 0 <= i {
        return i + 1;
      }
    }
    r := |lines|;
  }

  // ---------------------------------------------------------------- the operations

  /** What ensure leaves; `hint` is -1 for none. */
  function Ensured(g: Fragment, w: Where, t: Content, hint: int): Content
  {
    match Inspection(g, t.lines)
    case Broken => t
    case Present(_, _) => t
    case Differs(start, end) => t.(lines := Spliced(t.lines, start, end, Render(g)))
    case Absent => WithInsertion(t, if hint < 0 then PlaceFor(w, t.lines) else hint, Render(g))
  }

  method Ensure(g: Fragment, w: Where, t: TextFile, hint: int) returns (ok: bool, changed: bool)
    modifies t
    ensures t.Value() == Ensured(g, w, old(t.Value()), hint)
    ensures ok <==> !Inspection(g, old(t.lines)).Broken?
    ensures changed <==> Inspection(g, old(t.lines)).Absent? || Inspection(g, old(t.lines)).Differs?
  {
    hide Inspection, Render, PlaceFor;
    var s := Inspect(g, t.lines);
    match s
    case Broken => return false, false;
    case Present(_, _) => return true, false;
    case Differs(start, end) =>
      t.Replace(start, end, Render(g));
      return true, true;
    case Absent =>
      var idx := hint;
      if idx < 0 {
        idx := InsertionIndex(w, t.lines);
      }
      t.Insert(idx, Render(g));
      return true, true;
  }

  function Other(lines: seq<string>, line: string, n: nat): seq<string>
    requires n <= |lines|
  {
    if n == 0 then []
    else if lines[n - 1] == line then Other(lines, line, n - 1)
    else Other(lines, line, n - 1) + [lines[n - 1]]
  }

  /** What remove leaves: every copy of a line goes, or the first block. */
  function RemovedFrom(g: Fragment, lines: seq<string>): seq<string>
  {
    match g
    case BlockFragment(_, begin, end) =>
      var b := LocateIn(lines, begin, end);
      if b.Located? then Spliced(lines, b.start, b.end, []) else lines
    case LineFragment(line, _) => Other(lines, line, |lines|)
  }

  method Remove(g: Fragment, t: TextFile) returns (ok: bool, changed: bool, at: int)
    modifies t`lines
    ensures t.lines == RemovedFrom(g, old(t.lines))
    ensures ok <==> !(g.BlockFragment? && LocateIn(old(t.lines), g.begin, g.end).Unterminated?)
    ensures changed <==> t.lines != old(t.lines)
    ensures changed ==> 0 <= at <= |t.lines| && at <= |old(t.lines)| && t.lines[..at] == old(t.lines)[..at]
    ensures !changed ==> at == -1
  {
    if g.BlockFragment? {
      var b := LocateBlock(t.lines, g.begin, g.end);
      if !b.Located? {
        return !b.Unterminated?, false, -1;
      }
      t.Replace(b.start, b.end, []);
      return true, true, b.start;
    }
    at := -1;
    var kept: seq<string> := [];
    for i := 0 to |t.lines|
      invariant t.lines == old(t.lines) && kept == Other(t.lines, g.line, i) && |kept| <= i
      invariant at == -1 ==> kept == t.lines[..i]
      invariant at != -1 ==> 0 <= at <= |kept| && |kept| < i && kept[..at] == t.lines[..at]
    {
      if t.lines[i] == g.line {
        if at < 0 {
          at := i;
        }
        continue;
      }
      kept := kept + [t.lines[i]];
    }
    ok := true;
    if at < 0 {
      assert kept == t.lines;
      return true, false, -1;
    }
    t.lines := kept;
    changed := true;
  }

  // ----------------------------------------------------------------------- theorems

  lemma {:induction false} IndexFromIs(lines: seq<string>, l: string, i: nat, k: nat)
    requires i <= k <= |lines| && (k < |lines| ==> lines[k] == l)
    requires forall j :: i <= j < k ==> lines[j] != l
    ensures IndexFrom(lines, l, i) == k
    decreases k - i
  {}

  lemma {:induction false} MatchesEndIs(lines: seq<string>, re: Pattern, n: nat, k: nat)
    requires k <= n <= |lines| && (0 < k ==> re(lines[k - 1]))
    requires forall j :: k <= j < n ==> !re(lines[j])
    ensures MatchesEnd(lines, re, n) == k
    decreases n
  {}

  /** A rendered block, wherever it stands after lines without its first marker, is found
      there whole. */
  lemma RenderedBlockIsFound(a: seq<string>, block: seq<string>, begin: string, end: string, b: seq<string>)
    requires begin !in a && end !in block
    ensures var lines := a + ([begin] + block + [end]) + b;
      && LocateIn(lines, begin, end) == Located(|a|, |a| + |block| + 2)
      && lines[|a| + 1..|a| + |block| + 1] == block
  {
    var lines := a + ([begin] + block + [end]) + b;
    var i, j := |a|, |a| + |block| + 1;
    assert forall k :: 0 <= k < i ==> lines[k] == a[k];
    IndexFromIs(lines, begin, 0, i);
    assert forall k :: i + 1 <= k < j ==> lines[k] == block[k - i - 1];
    IndexFromIs(lines, end, i + 1, j);
  }

  lemma LocatedIs(lines: seq<string>, begin: string, end: string)
    ensures var b := LocateIn(lines, begin, end);
      && (b.NoBlock? <==> begin !in lines)
      && (b.Located? ==> begin !in lines[..b.start])
  {}

  lemma InsertedBlock(g: Fragment, t: Content, idx: nat)
    requires g.BlockFragment? && ValidFragment(g) && g.begin !in t.lines
    ensures var lines, at := WithInsertion(t, idx, Render(g)).lines, if idx < |t.lines| then idx else |t.lines|;
      && lines == t.lines[..at] + Render(g) + t.lines[at..]
      && LocateIn(lines, g.begin, g.end) == Located(at, at + |g.block| + 2)
      && lines[at + 1..at + |g.block| + 1] == g.block
  {
    hide LocateIn;
    var at := if idx < |t.lines| then idx else |t.lines|;
    RenderedBlockIsFound(t.lines[..at], g.block, g.begin, g.end, t.lines[at..]);
    SplicedInto(t, idx, Render(g));
  }

  /** After ensure a block is present. */
  lemma EnsuredBlock(g: Fragment, w: Where, t: Content, hint: int)
    requires g.BlockFragment? && ValidFragment(g) && !Inspection(g, t.lines).Broken?
    ensures Inspection(g, Ensured(g, w, t, hint).lines).Present?
  {
    hide LocateIn, PlaceFor, WithInsertion;
    LocatedIs(t.lines, g.begin, g.end);
    match Inspection(g, t.lines)
    case Present(_, _) =>
    case Differs(start, end) =>
      RenderedBlockIsFound(t.lines[..start], g.block, g.begin, g.end, t.lines[end..]);
    case Absent =>
      InsertedBlock(g, t, if hint < 0 then PlaceFor(w, t.lines) else hint);
  }

  function Matching(lines: seq<string>, re: Pattern): nat
  {
    if lines == [] then 0 else Matching(lines[..|lines| - 1], re) + (if re(lines[|lines| - 1]) then 1 else 0)
  }

  lemma {:induction false} MatchingAppend(a: seq<string>, b: seq<string>, re: Pattern)
    ensures Matching(a + b, re) == Matching(a, re) + Matching(b, re)
    decreases |b|
  {
    if b == [] {
      assert a + b == a;
    } else {
      MatchingAppend(a, b[..|b| - 1], re);
      assert (a + b)[..|a + b| - 1] == a + b[..|b| - 1];
    }
  }

  lemma {:induction false} MatchingNone(lines: seq<string>, re: Pattern)
    ensures Matching(lines, re) == 0 <==> forall k :: 0 <= k < |lines| ==> !re(lines[k])
  {
    if lines != [] {
      MatchingNone(lines[..|lines| - 1], re);
    }
  }

  /** Whether ensure makes a line present: if it has no pattern, or its pattern matches the
      line itself, or at most one line. */
  predicate LineStays(g: Fragment, lines: seq<string>)
    requires g.LineFragment?
  {
    g.re.None? || g.re.value(g.line) || Matching(lines, g.re.value) <= 1
  }

  /** A line that was put in among lines of which none after it matches. */
  lemma LineAmong(a: seq<string>, line: string, b: seq<string>, re: Option<Pattern>)
    requires re.Some? ==> Matching(b, re.value) == 0
    ensures var s := Inspection(LineFragment(line, re), a + [line] + b);
      s.Present? <==> re.None? || re.value(line) || Matching(a, re.value) == 0
  {
    hide Matching, MatchesEnd, IndexFrom;
    var lines := a + [line] + b;
    IndexFromAtMost(lines, line, |a|);
    if re.Some? {
      LastAmong(a, line, b, re.value);
    }
  }

  lemma LastAmong(a: seq<string>, line: string, b: seq<string>, re: Pattern)
    requires Matching(b, re) == 0
    ensures var lines := a + [line] + b;
      MatchesEnd(lines, re, |lines|) == if re(line) then |a| + 1 else MatchesEnd(a, re, |a|)
    ensures MatchesEnd(a, re, |a|) == 0 <==> Matching(a, re) == 0
    ensures 0 < MatchesEnd(a, re, |a|) ==> re(a[MatchesEnd(a, re, |a|) - 1])
  {
    hide Matching;
    var lines, n := a + [line] + b, |a|;
    MatchingNone(a, re);
    MatchingNone(b, re);
    assert forall k :: n < k < |lines| ==> lines[k] == b[k - n - 1];
    assert forall k :: 0 <= k < n ==> lines[k] == a[k];
    MatchesEndIs(lines, re, |lines|, if re(line) then n + 1 else MatchesEnd(a, re, n));
  }

  lemma {:induction false} IndexFromAtMost(lines: seq<string>, l: string, k: nat)
    requires k < |lines| && lines[k] == l
    ensures IndexFrom(lines, l, 0) <= k
  {}

  lemma Parted(lines: seq<string>, i: nat, re: Pattern)
    requires i <= |lines|
    ensures Matching(lines, re) == Matching(lines[..i], re) + Matching(lines[i..], re)
  {
    MatchingAppend(lines[..i], lines[i..], re);
    assert lines[..i] + lines[i..] == lines;
  }

  /** A line that was absent: nothing matched, so that it is present wherever it goes. */
  lemma InsertedLine(g: Fragment, t: Content, idx: nat)
    requires g.LineFragment? && Inspection(g, t.lines).Absent?
    ensures Inspection(g, WithInsertion(t, idx, Render(g)).lines).Present? && LineStays(g, t.lines)
  {
    hide IndexFrom;
    var lines, re := t.lines, g.re;
    var at := if idx < |lines| then idx else |lines|;
    var a, b := lines[..at], lines[at..];
    if re.Some? {
      MatchingNone(lines, re.value);
      Parted(lines, at, re.value);
    }
    LineAmong(a, g.line, b, re);
    SplicedInto(t, idx, [g.line]);
  }

  lemma SplicedInto(t: Content, idx: nat, repl: seq<string>)
    ensures var at := if idx < |t.lines| then idx else |t.lines|;
      WithInsertion(t, idx, repl).lines == t.lines[..at] + repl + t.lines[at..]
  {}

  lemma ReplacedLine(g: Fragment, lines: seq<string>)
    requires g.LineFragment? && Inspection(g, lines).Differs?
    ensures var s := Inspection(g, lines);
      Inspection(g, Spliced(lines, s.start, s.end, Render(g))).Present? <==> LineStays(g, lines)
  {
    hide IndexFrom;
    var s := Inspection(g, lines);
    var a, b := lines[..s.start], lines[s.end..];
    assert lines == a + [lines[s.start]] + b;
    DifferingStays(g, a, lines[s.start], b);
    LineAmong(a, g.line, b, g.re);
  }

  /** After ensure a line is present if and only if it stays by its own pattern. */
  lemma EnsuredLine(g: Fragment, w: Where, t: Content, hint: int)
    requires g.LineFragment?
    ensures Inspection(g, Ensured(g, w, t, hint).lines).Present? <==> LineStays(g, t.lines)
  {
    hide Inspection, LineStays, Spliced, WithInsertion, PlaceFor;
    LineIsNotBroken(g, t.lines);
    var s := Inspection(g, t.lines);
    if s.Present? {
      PresentStays(g, t.lines);
    } else if s.Differs? {
      ReplacedLine(g, t.lines);
    } else {
      InsertedLine(g, t, if hint < 0 then PlaceFor(w, t.lines) else hint);
    }
  }

  lemma LineIsNotBroken(g: Fragment, lines: seq<string>)
    requires g.LineFragment?
    ensures !Inspection(g, lines).Broken?
  {}

  lemma PresentStays(g: Fragment, lines: seq<string>)
    requires g.LineFragment? && Inspection(g, lines).Present?
    ensures LineStays(g, lines)
  {
    if g.re.Some? && MatchesEnd(lines, g.re.value, |lines|) == 0 {
      MatchingNone(lines, g.re.value);
    }
  }

  /** A line `old` that differs is the last match: it is the only one if none comes before. */
  lemma DifferingStays(g: Fragment, a: seq<string>, old_: string, b: seq<string>)
    requires g.LineFragment? && g.re.Some? && old_ != g.line
    requires g.re.value(old_) && forall k :: 0 <= k < |b| ==> !g.re.value(b[k])
    ensures Matching(b, g.re.value) == 0
    ensures LineStays(g, a + [old_] + b) <==> g.re.value(g.line) || Matching(a, g.re.value) == 0
  {
    var re := g.re.value;
    MatchingNone(b, re);
    MatchingAppend(a + [old_], b, re);
    MatchingAppend(a, [old_], re);
    assert [old_][..0] == [];
  }

  /** After ensure the fragment is present, and a second ensure, with any hint, changes
      nothing: always for a block, and for a line if and only if it stays. */
  lemma EnsureSettles(g: Fragment, w: Where, t: Content, hint: int, again: int)
    requires ValidFragment(g) && !Inspection(g, t.lines).Broken?
    ensures var after := Ensured(g, w, t, hint);
      && (Inspection(g, after.lines).Present? <==> g.BlockFragment? || LineStays(g, t.lines))
      && (Inspection(g, after.lines).Present? ==> Ensured(g, w, after, again) == after)
  {
    hide Inspection, LineStays, Spliced, WithInsertion, PlaceFor;
    if g.BlockFragment? {
      EnsuredBlock(g, w, t, hint);
    } else {
      EnsuredLine(g, w, t, hint);
    }
  }

  // ------------------------------------------------------------------------- places

  predicate SomeMatches(lines: seq<string>, re: Pattern) { exists k :: 0 <= k < |lines| && re(lines[k]) }

  /** `k` is the last line that matches. */
  predicate IsLastMatch(lines: seq<string>, re: Pattern, k: int)
  {
    0 <= k < |lines| && re(lines[k]) && forall j :: k < j < |lines| ==> !re(lines[j])
  }

  /** A new fragment stands at the beginning, or directly before or after the last line that
      matches, or at the end if there is none. */
  lemma PlaceIs(w: Where, lines: seq<string>)
    ensures var p := PlaceFor(w, lines);
      if w.atBeginning then p == 0
      else if w.before.Some? && SomeMatches(lines, w.before.value) then IsLastMatch(lines, w.before.value, p)
      else if w.before.None? && w.after.Some? && SomeMatches(lines, w.after.value) then
        IsLastMatch(lines, w.after.value, p - 1)
      else p == |lines|
  {}

  /** An absent fragment is put in at its place, or at the hint if there is one that lies in
      the file, and no other line is touched; at the end the file is terminated. */
  lemma AbsentIsPut(g: Fragment, w: Where, t: Content, hint: int)
    requires Inspection(g, t.lines).Absent?
    ensures var at := if hint < 0 then PlaceFor(w, t.lines) else if hint < |t.lines| then hint else |t.lines|;
      Ensured(g, w, t, hint) == Content(t.lines[..at] + Render(g) + t.lines[at..],
                                        if at == |t.lines| then true else t.trailingNewline)
  {
    hide Inspection, PlaceFor, Render;
  }

  /** Ensure reports a change exactly if it makes one. */
  lemma ChangeIsReported(g: Fragment, w: Where, t: Content, hint: int)
    ensures Inspection(g, t.lines).Absent? || Inspection(g, t.lines).Differs? <==> Ensured(g, w, t, hint) != t
  {
    hide PlaceFor, LocateIn, IndexFrom, MatchesEnd;
    var s := Inspection(g, t.lines);
    if s.Differs? {
      assert |t.lines[s.start..s.end]| == s.end - s.start;
      ReplacedDiffers(t.lines, s.start, s.end, Render(g));
    }
  }

  lemma ReplacedDiffers(lines: seq<string>, start: nat, end: nat, repl: seq<string>)
    requires start <= end <= |lines|
    ensures Spliced(lines, start, end, repl) == lines ==> repl == lines[start..end]
  {
    var r := Spliced(lines, start, end, repl);
    if r == lines {
      assert |repl| == end - start;
      assert r[start..start + |repl|] == repl;
    }
  }

  /** What is found of a line: with a pattern the last line that matches, otherwise the first
      line that equals it. */
  lemma LineInspectionIs(line: string, re: Option<Pattern>, lines: seq<string>)
    ensures var s := Inspection(LineFragment(line, re), lines);
      if re.Some? && SomeMatches(lines, re.value) then
        && (s.Present? || s.Differs?) && s.end == s.start + 1
        && IsLastMatch(lines, re.value, s.start) && (s.Present? <==> lines[s.start] == line)
      else if line in lines then s.Present? && s.end == s.start + 1 && IsFirst(lines, line, 0, s.start)
      else s.Absent?
  {
    hide IndexFrom, MatchesEnd;
    if re.Some? && !SomeMatches(lines, re.value) {
      NoneMatches(lines, re.value);
    }
  }

  /** What is found of a block: the lines from the first begin marker to the first end marker
      after it. */
  lemma BlockInspectionIs(block: seq<string>, begin: string, end: string, lines: seq<string>)
    ensures var s := Inspection(BlockFragment(block, begin, end), lines);
      var i := IndexFrom(lines, begin, 0);
      if begin !in lines then s.Absent?
      else
        && IsFirst(lines, begin, 0, i)
        && if end !in lines[i + 1..] then s.Broken?
           else
             && (s.Present? || s.Differs?) && s.start == i && IsFirst(lines, end, i + 1, s.end - 1)
             && (s.Present? <==> lines[i + 1..s.end - 1] == block)
  {
    hide IndexFrom;
    InRest(lines, begin, 0);
    assert lines[0..] == lines;
    var i := IndexFrom(lines, begin, 0);
    if begin in lines {
      InRest(lines, end, i + 1);
    }
  }

  lemma NoneMatches(lines: seq<string>, re: Pattern)
    requires !SomeMatches(lines, re)
    ensures MatchesEnd(lines, re, |lines|) == 0
  {}

  lemma InRest(lines: seq<string>, l: string, i: nat)
    requires i <= |lines|
    ensures l in lines[i..] <==> IndexFrom(lines, l, i) < |lines|
  {
    if IndexFrom(lines, l, i) < |lines| {
      assert lines[i..][IndexFrom(lines, l, i) - i] == l;
    }
  }

  /** `k` is the first line from `from` on that equals `l`. */
  predicate IsFirst(lines: seq<string>, l: string, from: int, k: int)
  {
    0 <= from <= k < |lines| && lines[k] == l && forall j :: from <= j < k ==> lines[j] != l
  }

  lemma {:induction false} OtherThanAbsent(lines: seq<string>, line: string, n: nat)
    requires n <= |lines| && line !in lines
    ensures Other(lines, line, n) == lines[..n]
  {
    if 0 < n {
      OtherThanAbsent(lines, line, n - 1);
      assert lines[..n] == lines[..n - 1] + [lines[n - 1]];
    }
  }

  lemma {:induction false} OtherAppend(a: seq<string>, b: seq<string>, line: string, n: nat)
    requires n <= |b|
    ensures Other(a + b, line, |a| + n) == Other(a, line, |a|) + Other(b, line, n)
  {
    if 0 < n {
      OtherAppend(a, b, line, n - 1);
    } else {
      OtherOfPrefix(a, b, line, |a|);
    }
  }

  lemma {:induction false} OtherOfPrefix(a: seq<string>, b: seq<string>, line: string, n: nat)
    requires n <= |a|
    ensures Other(a + b, line, n) == Other(a, line, n)
  {
    if 0 < n {
      OtherOfPrefix(a, b, line, n - 1);
    }
  }

  /** All lines but for the one that ends `x`. */
  lemma RemovedLine(a: seq<string>, line: string, x: seq<string>, b: seq<string>)
    requires line !in a && line !in b && x == a + [line]
    ensures Other(x + b, line, |x| + |b|) == a + b
  {
    hide Other;
    OtherAppend(x, b, line, |b|);
    OtherOfLast(a, line, x);
    WholeOther(a, line);
    WholeOther(b, line);
  }

  lemma OtherOfLast(a: seq<string>, line: string, x: seq<string>)
    requires x == a + [line]
    ensures Other(x, line, |x|) == Other(a, line, |a|)
  {
    assert x[..|a|] == a;
    OtherOfPrefix(a, [line], line, |a|);
  }

  lemma WholeOther(a: seq<string>, line: string)
    requires line !in a
    ensures Other(a, line, |a|) == a
  {
    OtherThanAbsent(a, line, |a|);
    assert a[..|a|] == a;
  }

  /** Inserting an absent fragment, at any place, and removing it again gives back the
      lines. */
  lemma InsertThenRemove(g: Fragment, t: Content, idx: nat)
    requires ValidFragment(g) && Inspection(g, t.lines).Absent?
    ensures RemovedFrom(g, WithInsertion(t, idx, Render(g)).lines) == t.lines
  {
    if g.BlockFragment? {
      InsertThenRemoveBlock(g, t, idx);
    } else {
      InsertThenRemoveLine(g, t, idx);
    }
  }

  lemma InsertThenRemoveBlock(g: Fragment, t: Content, idx: nat)
    requires ValidFragment(g) && Inspection(g, t.lines).Absent? && g.BlockFragment?
    ensures RemovedFrom(g, WithInsertion(t, idx, Render(g)).lines) == t.lines
  {
    hide Inspection, WithInsertion, Spliced, LocateIn, ValidFragment;
    var at := if idx < |t.lines| then idx else |t.lines|;
    AbsentBlock(g, t.lines);
    InsertedBlock(g, t, idx);
    RemovedBlock(t.lines[..at], Render(g), t.lines[at..]);
    assert t.lines[..at] + t.lines[at..] == t.lines;
  }

  lemma InsertThenRemoveLine(g: Fragment, t: Content, idx: nat)
    requires ValidFragment(g) && Inspection(g, t.lines).Absent? && g.LineFragment?
    ensures RemovedFrom(g, WithInsertion(t, idx, Render(g)).lines) == t.lines
  {
    hide Inspection, Other, WithInsertion, Spliced, LocateIn, ValidFragment;
    var at := if idx < |t.lines| then idx else |t.lines|;
    AbsentLine(g, t.lines);
    SplicedInto(t, idx, [g.line]);
    RemovedLine(t.lines[..at], g.line, t.lines[..at] + [g.line], t.lines[at..]);
    assert t.lines[..at] + t.lines[at..] == t.lines;
  }

  lemma AbsentBlock(g: Fragment, lines: seq<string>)
    requires g.BlockFragment? && Inspection(g, lines).Absent?
    ensures g.begin !in lines
  {}

  lemma RemovedBlock(a: seq<string>, r: seq<string>, b: seq<string>)
    ensures Spliced(a + r + b, |a|, |a| + |r|, []) == a + b
  {}

  lemma AbsentLine(g: Fragment, lines: seq<string>)
    requires g.LineFragment? && Inspection(g, lines).Absent?
    ensures g.line !in lines
  {}

  /** The line is written where a file cannot hold it: an empty line in place of an
      unterminated last one. */
  predicate LosesLine(g: Fragment, t: Content)
  {
    var s := Inspection(g, t.lines);
    g.LineFragment? && g.line == "" && s.Differs? && s.end == |t.lines| && !t.trailingNewline
  }

  lemma EnsuredEnds(g: Fragment, w: Where, t: Content, hint: int)
    requires ValidFragment(g) && Writable(t)
    ensures NoLineFeeds(Ensured(g, w, t, hint).lines)
    ensures Ended(Ensured(g, w, t, hint)) <==> !LosesLine(g, t)
  {
    hide Inspection, PlaceFor;
    var r := Render(g);
    assert r[|r| - 1] == if g.BlockFragment? then g.end else g.line;
    assert NoLineFeeds(r);
  }

  /** The file that ensure leaves is read back as the lines it left, if and only if no empty
      line was written in place of an unterminated last one. */
  lemma EnsuredReadsBack(g: Fragment, w: Where, data: string, hint: int)
    requires ValidFragment(g)
    ensures var t := ReadText(data);
      ReadText(WriteText(Ensured(g, w, t, hint))) == Ensured(g, w, t, hint) <==> !LosesLine(g, t)
  {
    hide ReadText, WriteText, Ensured, LosesLine, Ended;
    var t := ReadText(data);
    ReadIsWritable(data);
    EnsuredEnds(g, w, t, hint);
    ReadOfWrite(Ensured(g, w, t, hint));
  }

  /** What is removed are the lines at the end of an unterminated file, after a blank one. */
  predicate UncoversBlank(g: Fragment, t: Content)
  {
    && !t.trailingNewline
    && match g
       case BlockFragment(_, begin, end) =>
         var b := LocateIn(t.lines, begin, end);
         b.Located? && b.end == |t.lines| && 0 < b.start && t.lines[b.start - 1] == ""
       case LineFragment(line, _) => line != "" && exists k :: 0 <= k < |t.lines| - 1 && BlankBefore(t.lines, line, k)
  }

  /** A blank line with nothing but copies of `line` after it. */
  predicate BlankBefore(lines: seq<string>, line: string, k: int)
  {
    0 <= k < |lines| - 1 && lines[k] == "" && forall j :: k < j < |lines| ==> lines[j] == line
  }

  lemma {:induction false} OtherHas(lines: seq<string>, line: string, n: nat)
    requires n <= |lines|
    ensures forall l :: l in Other(lines, line, n) ==> l in lines && l != line
  {
    if 0 < n {
      OtherHas(lines, line, n - 1);
    }
  }

  lemma RemovedAreLines(g: Fragment, lines: seq<string>)
    requires NoLineFeeds(lines)
    ensures NoLineFeeds(RemovedFrom(g, lines))
  {
    hide LocateIn;
    if g.LineFragment? {
      OtherHas(lines, g.line, |lines|);
    }
  }

  /** The last of the lines that are kept. */
  lemma {:induction false} LastOther(lines: seq<string>, line: string, n: nat) returns (k: int)
    requires n <= |lines|
    ensures -1 <= k < n && forall j :: k < j < n ==> lines[j] == line
    ensures k == -1 <==> Other(lines, line, n) == []
    ensures 0 <= k ==> lines[k] != line && Other(lines, line, n)[|Other(lines, line, n)| - 1] == lines[k]
  {
    if n == 0 {
      k := -1;
    } else if lines[n - 1] == line {
      k := LastOther(lines, line, n - 1);
    } else {
      k := n - 1;
    }
  }

  lemma LastOfKept(lines: seq<string>, line: string, i: int, k: int)
    requires BlankBefore(lines, line, i) && line != "" && -1 <= k < |lines|
    requires (forall j :: k < j < |lines| ==> lines[j] == line) && (0 <= k ==> lines[k] != line)
    ensures i == k
  {}

  lemma RemovedLineEnds(g: Fragment, t: Content)
    requires g.LineFragment? && Ended(t)
    ensures EndsBlank(t.(lines := Other(t.lines, g.line, |t.lines|))) <==> UncoversBlank(g, t)
  {
    hide Other;
    var k := LastOther(t.lines, g.line, |t.lines|);
    if UncoversBlank(g, t) {
      var i :| 0 <= i < |t.lines| - 1 && BlankBefore(t.lines, g.line, i);
      LastOfKept(t.lines, g.line, i, k);
    }
    if 0 <= k && t.lines[k] == "" && !t.trailingNewline {
      assert BlankBefore(t.lines, g.line, k);
    }
  }

  lemma RemovedBlockEnds(g: Fragment, t: Content)
    requires g.BlockFragment? && Ended(t)
    ensures EndsBlank(t.(lines := RemovedFrom(g, t.lines))) <==> UncoversBlank(g, t)
  {
    hide LocateIn;
  }

  lemma RemovedEnds(g: Fragment, t: Content)
    requires Ended(t)
    ensures EndsBlank(t.(lines := RemovedFrom(g, t.lines))) <==> UncoversBlank(g, t)
  {
    hide Other, LocateIn, UncoversBlank, EndsBlank;
    if g.LineFragment? {
      RemovedLineEnds(g, t);
    } else {
      RemovedBlockEnds(g, t);
    }
  }

  /** The file that remove leaves has exactly the other lines, if and only if no blank line
      is now an unterminated last one; then only that line is missing. */
  lemma RemovedReadsBack(g: Fragment, data: string)
    ensures var t := ReadText(data);
      var after := t.(lines := RemovedFrom(g, t.lines));
      var again := ReadText(WriteText(after)).lines;
      && (again == after.lines <==> !UncoversBlank(g, t))
      && (UncoversBlank(g, t) ==> after.lines == again + [""])
  {
    hide ReadText, WriteText, RemovedFrom, UncoversBlank;
    var t := ReadText(data);
    ReadIsWritable(data);
    RemovedAreLines(g, t.lines);
    RemovedEnds(g, t);
    LinesOfWrite(t.(lines := RemovedFrom(g, t.lines)));
  }

  /** The last line stays where it is when the fragment is put in. */
  predicate KeepsLast(g: Fragment, w: Where, t: Content, hint: int)
  {
    match Inspection(g, t.lines)
    case Differs(_, end) => end < |t.lines|
    case Absent => (if hint < 0 then PlaceFor(w, t.lines) else hint) < |t.lines|
    case _ => true
  }

  lemma EnsuredBlank(g: Fragment, w: Where, t: Content, hint: int)
    requires ValidFragment(g) && NoLineFeeds(t.lines)
    ensures NoLineFeeds(Ensured(g, w, t, hint).lines)
    ensures EndsBlank(Ensured(g, w, t, hint)) <==> LosesLine(g, t) || (EndsBlank(t) && KeepsLast(g, w, t, hint))
  {
    hide Inspection, PlaceFor;
    var r := Render(g);
    assert r[|r| - 1] == if g.BlockFragment? then g.end else g.line;
    assert NoLineFeeds(r);
  }

  /** An update to another fragment: the old one is removed and the new one put in, and the
      file is written once. Its lines are read back if and only if no blank line is uncovered
      that then stays the last one, and no empty line is written last. */
  lemma UpdateReadsBack(prev: Fragment, g: Fragment, w: Where, data: string, hint: int)
    requires ValidFragment(g)
    ensures var t := ReadText(data);
      var cut := t.(lines := RemovedFrom(prev, t.lines));
      var after := Ensured(g, w, cut, hint);
      ReadText(WriteText(after)).lines == after.lines
      <==> !LosesLine(g, cut) && !(UncoversBlank(prev, t) && KeepsLast(g, w, cut, hint))
  {
    hide ReadText, WriteText, RemovedFrom, UncoversBlank, Ensured, LosesLine, KeepsLast, ValidFragment, EndsBlank;
    var t := ReadText(data);
    ReadIsWritable(data);
    RemovedAreLines(prev, t.lines);
    var cut := t.(lines := RemovedFrom(prev, t.lines));
    RemovedEnds(prev, t);
    EnsuredBlank(g, w, cut, hint);
    LinesOfWrite(Ensured(g, w, cut, hint));
  }

  /** Create on a file without the fragment, then destroy: the file has its lines again, with
      the last one terminated if the fragment came after it. */
  lemma CreateThenRemove(g: Fragment, w: Where, data: string)
    requires ValidFragment(g) && Inspection(g, ReadText(data).lines).Absent?
    ensures var t := ReadText(data);
      var created := ReadText(WriteText(Ensured(g, w, t, -1)));
      var removed := ReadText(WriteText(created.(lines := RemovedFrom(g, created.lines))));
      && removed.lines == t.lines
      && (removed == t || created.trailingNewline)
  {
    hide ReadText, WriteText, PlaceFor, RemovedFrom, Inspection, WithInsertion;
    var t := ReadText(data);
    var idx := PlaceFor(w, t.lines);
    ReadIsWritable(data);
    EnsuredReadsBack(g, w, data, -1);
    InsertThenRemove(g, t, idx);
    InsertionEnds(t, idx, Render(g));
    var created := Ensured(g, w, t, -1);
    assert created == WithInsertion(t, idx, Render(g));
    ReadOfWrite(Content(t.lines, created.trailingNewline));
    LinesOfWrite(Content(t.lines, created.trailingNewline));
  }

  lemma InsertionEnds(t: Content, idx: nat, repl: seq<string>)
    ensures var u := WithInsertion(t, idx, repl); u.trailingNewline || u.trailingNewline == t.trailingNewline
  {}

  // ---------------------------------------------------------------- failing examples

  const EMPTY_OR_B: Pattern := (l: string) => l == "" || l == "b"
  const EMPTY_LINE := LineFragment("", Some(EMPTY_OR_B))

  lemma TwoLines(a: string, b: string)
    ensures Join([a, b], "\n") == a + "\n" + b
  {
    JoinCons(a, [b], "\n");
    JoinOne(b, "\n");
    assert [a] + [b] == [a, b];
  }

  lemma EmptyLineFiles()
    ensures ReadText("a\nb") == Content(["a", "b"], false)
    ensures WriteText(Content(["a", ""], false)) == "a\n"
    ensures ReadText("a\n") == Content(["a"], true)
  {
    hide ReadText, Join;
    TwoLines("a", "b");
    TwoLines("a", "");
    JoinOne("a", "\n");
    assert WriteText(Content(["a", "b"], false)) == "a" + "\n" + "b" + "" == "a\nb";
    assert WriteText(Content(["a", ""], false)) == "a" + "\n" + "" + "" == "a\n";
    assert WriteText(Content(["a"], true)) == "a" + "\n" == "a\n";
    ReadOfWrite(Content(["a", "b"], false));
    ReadOfWrite(Content(["a"], true));
  }

  /** An empty managed line in place of the unterminated last line "b": it is there after the
      edit, but not in the file. */
  lemma EmptyLineIsLost(w: Where)
    ensures ReadText("a\nb") == Content(["a", "b"], false)
    ensures ValidFragment(EMPTY_LINE) && LineStays(EMPTY_LINE, ["a", "b"])
    ensures var after := Ensured(EMPTY_LINE, w, Content(["a", "b"], false), -1);
      && Inspection(EMPTY_LINE, after.lines).Present?
      && WriteText(after) == "a\n"
      && Inspection(EMPTY_LINE, ReadText("a\n").lines).Absent?
  {
    hide ReadText, WriteText;
    EmptyLineFiles();
    assert MatchesEnd(["a", "b"], EMPTY_OR_B, 2) == 2;
    assert Spliced(["a", "b"], 1, 2, [""]) == ["a", ""];
    assert MatchesEnd(["a", ""], EMPTY_OR_B, 2) == 2;
    assert MatchesEnd(["a"], EMPTY_OR_B, 0) == 0 && MatchesEnd(["a"], EMPTY_OR_B, 1) == 0;
    assert IndexFrom(["a"], "", 0) == 1;
  }

  const STARTS_X: Pattern := (l: string) => l == "x1" || l == "x2"
  const OTHER_LINE := LineFragment("y", Some(STARTS_X))

  /** A line that its own pattern does not match, where two lines match: only the last one is
      replaced, and the first one then decides that the line differs. */
  lemma UnmatchedLineDiffers(w: Where)
    ensures ValidFragment(OTHER_LINE)
    ensures var after := Ensured(OTHER_LINE, w, Content(["x1", "x2"], true), -1);
      after.lines == ["x1", "y"] && Inspection(OTHER_LINE, after.lines) == Differs(0, 1)
  {
    var lines := ["x1", "x2"];
    assert MatchesEnd(lines, STARTS_X, 2) == 2;
    assert Spliced(lines, 1, 2, ["y"]) == ["x1", "y"];
    assert MatchesEnd(["x1", "y"], STARTS_X, 1) == 1 && MatchesEnd(["x1", "y"], STARTS_X, 2) == 1;
  }

  const LAST_LINE := LineFragment("x", None)

  /** Removing an unterminated last line after a blank one: the blank line is lost as well. */
  lemma RemovalLosesBlank()
    ensures ReadText("a\n\nx") == Content(["a", "", "x"], false)
    ensures RemovedFrom(LAST_LINE, ["a", "", "x"]) == ["a", ""]
    ensures WriteText(Content(["a", ""], false)) == "a\n"
    ensures ReadText("a\n").lines == ["a"] && UncoversBlank(LAST_LINE, Content(["a", "", "x"], false))
  {
    hide ReadText, Join, UncoversBlank;
    EmptyLineFiles();
    ThreeLines();
    ReadOfWrite(Content(["a", "", "x"], false));
    var lines := ["a", "", "x"];
    assert Other(lines, "x", 1) == ["a"] && Other(lines, "x", 2) == ["a", ""];
    RemovedReadsBack(LAST_LINE, "a\n\nx");
  }

  lemma ThreeLines()
    ensures WriteText(Content(["a", "", "x"], false)) == "a\n\nx"
  {
    hide Join;
    TwoLines("", "x");
    JoinCons("a", ["", "x"], "\n");
    assert ["a"] + ["", "x"] == ["a", "", "x"];
    assert "a" + "\n" + ("" + "\n" + "x") + "" == "a\n\nx";
  }
}
