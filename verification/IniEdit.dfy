/** Finding, setting and removing a key of an INI file (ini_edit.go), and the other
    reader of such files (functions_parse.go). */
module IniEdit {
  import opened Text
  import opened IniLines
  import opened IniSyntax

  // --------------------------------------------------------- what a file's keys are

  /** Where a line stands: before the first header, or under the last one. */
  datatype Cur = Global | Under(name: string)

  /** Keys of the section "" stand before the first header, not under a header "[]". */
  predicate Within(cur: Cur, section: string)
  {
    if section == "" then cur == Global else cur == Under(section)
  }

  lemma OneSection(cur: Cur, a: string, b: string)
    requires Within(cur, a) && Within(cur, b)
    ensures a == b
  {}

  function ParseAll(delim: string, texts: seq<string>): (r: seq<Parsed>)
    ensures |r| == |texts| && forall i :: 0 <= i < |r| ==> r[i] == ParseLine(delim, texts[i])
  {
    seq(|texts|, i requires 0 <= i < |texts| => ParseLine(delim, texts[i]))
  }

  function CurOf(ps: seq<Parsed>, cur: Cur): Cur
  {
    if ps == [] then cur
    else if ps[|ps| - 1].Section? then Under(ps[|ps| - 1].name)
    else CurOf(ps[..|ps| - 1], cur)
  }

  function Gives(p: Parsed, cur: Cur, section: string, key: string): seq<string>
  {
    if p.KeyLine? && Within(cur, section) && p.key == key then [p.value] else []
  }

  /** The values of a key, in file order, for a file that begins at `cur`. */
  function ValuesOf(ps: seq<Parsed>, cur: Cur, section: string, key: string): seq<string>
  {
    if ps == [] then []
    else
      var init := ps[..|ps| - 1];
      ValuesOf(init, cur, section, key) + Gives(ps[|ps| - 1], CurOf(init, cur), section, key)
  }

  lemma {:induction false} CurAppend(a: seq<Parsed>, b: seq<Parsed>, cur: Cur)
    ensures CurOf(a + b, cur) == CurOf(b, CurOf(a, cur))
    decreases |b|
  {
    if b == [] {
      assert a + b == a;
    } else {
      CurAppend(a, b[..|b| - 1], cur);
      assert (a + b)[..|a + b| - 1] == a + b[..|b| - 1];
    }
  }

  lemma PushAppend(a: seq<Parsed>, b: seq<Parsed>)
    requires b != []
    ensures (a + b)[..|a + b| - 1] == a + b[..|b| - 1] && (a + b)[|a + b| - 1] == b[|b| - 1]
  {}

  lemma {:induction false} ValuesAppend(a: seq<Parsed>, b: seq<Parsed>, cur: Cur, section: string, key: string)
    ensures ValuesOf(a + b, cur, section, key)
         == ValuesOf(a, cur, section, key) + ValuesOf(b, CurOf(a, cur), section, key)
    decreases |b|
  {
    hide Gives, CurOf;
    if b == [] {
      assert a + b == a;
    } else {
      var init := b[..|b| - 1];
      ValuesAppend(a, init, cur, section, key);
      CurAppend(a, init, cur);
      PushAppend(a, b);
    }
  }

  lemma CurPush(ps: seq<Parsed>, n: nat, cur: Cur)
    requires n < |ps|
    ensures CurOf(ps[..n + 1], cur) == if ps[n].Section? then Under(ps[n].name) else CurOf(ps[..n], cur)
  {
    assert ps[..n + 1][..n] == ps[..n];
  }

  lemma ValuesPush(ps: seq<Parsed>, n: nat, cur: Cur, section: string, key: string)
    requires n < |ps|
    ensures ValuesOf(ps[..n + 1], cur, section, key)
         == ValuesOf(ps[..n], cur, section, key) + Gives(ps[n], CurOf(ps[..n], cur), section, key)
  {
    assert ps[..n + 1][..n] == ps[..n];
  }

  // ----------------------------------------------------------------------- finding

  /** A region of a section; `header` and `lastKey` are -1 if there is none. */
  datatype Block = Block(header: int, lastKey: int)

  datatype Match = Match(blocks: seq<Block>, active: seq<nat>, commented: seq<nat>, firstHeader: nat, inBlock: bool)

  function StartMatch(section: string, n: nat): Match
  {
    if section == "" then Match([Block(-1, -1)], [], [], n, true) else Match([], [], [], n, false)
  }

  function SetLastKey(blocks: seq<Block>, i: nat): seq<Block>
  {
    if blocks == [] then [] else blocks[|blocks| - 1 := blocks[|blocks| - 1].(lastKey := i)]
  }

  /** What find makes of line `i` of `n`. */
  function FindStep(section: string, key: string, m: Match, p: Parsed, i: nat, n: nat): Match
  {
    if p.Section? then
      var fh := if m.firstHeader == n then i else m.firstHeader;
      if section != "" && p.name == section
      then m.(firstHeader := fh, blocks := m.blocks + [Block(i, -1)], inBlock := true)
      else m.(firstHeader := fh, inBlock := false)
    else if !m.inBlock then m
    else if p.KeyLine? then
      var more := if p.key == key then m.active + [i] else m.active;
      m.(blocks := SetLastKey(m.blocks, i), active := more)
    else if p.Comment? && p.out == key then m.(commented := m.commented + [i])
    else m
  }

  function FindUpTo(section: string, key: string, ps: seq<Parsed>, n: nat): Match
    requires n <= |ps|
  {
    if n == 0 then StartMatch(section, |ps|)
    else FindStep(section, key, FindUpTo(section, key, ps, n - 1), ps[n - 1], n - 1, |ps|)
  }

  function FindKey(spec: Spec, lines: seq<Line>): Match
  {
    var ps := ParseAll(Delim(spec), Texts(lines));
    FindUpTo(spec.section, spec.key, ps, |ps|)
  }

  /** The loop of find. */
  method Find(spec: Spec, f: IniFile) returns (m: Match)
    ensures m == FindKey(spec, f.lines)
  {
    hide ParseLine;
    ghost var ps := ParseAll(Delim(spec), Texts(f.lines));
    var delim := Delim(spec);
    m := StartMatch(spec.section, |f.lines|);
    for i := 0 to |f.lines|
      invariant m == FindUpTo(spec.section, spec.key, ps, i)
    {
      var p := ParseLine(delim, f.lines[i].text);
      assert p == ps[i];
      if p.Section? {
        var fh := m.firstHeader;
        if fh == |f.lines| {
          fh := i;
        }
        m := m.(inBlock := false, firstHeader := fh);
        if spec.section != "" && p.name == spec.section {
          m := m.(blocks := m.blocks + [Block(i, -1)], inBlock := true);
        }
        continue;
      }
      if !m.inBlock {
        continue;
      }
      if p.KeyLine? {
        m := m.(blocks := SetLastKey(m.blocks, i));
        if p.key == spec.key {
          m := m.(active := m.active + [i]);
        }
      } else if p.Comment? && p.out == spec.key {
        m := m.(commented := m.commented + [i]);
      }
    }
  }

  /** The place before line `at` belongs to the section. */
  predicate Spot(ps: seq<Parsed>, section: string, at: nat)
  {
    at <= |ps| && Within(CurOf(ps[..at], Global), section)
  }

  predicate ActiveAt(ps: seq<Parsed>, section: string, key: string, i: nat)
  {
    i < |ps| && ps[i].KeyLine? && ps[i].key == key && Spot(ps, section, i)
  }

  ghost predicate ActiveRight(ps: seq<Parsed>, section: string, key: string, n: nat, active: seq<nat>)
  {
    && (forall i :: i in active ==> i < n && ActiveAt(ps, section, key, i))
    && (forall i :: 0 <= i < n && ActiveAt(ps, section, key, i) ==> i in active)
    && (forall j, k :: 0 <= j < k < |active| ==> active[j] < active[k])
  }

  /** Every region's header and last key are followed by a place in the section. */
  predicate BlockRight(ps: seq<Parsed>, section: string, b: Block)
  {
    && -1 <= b.header && -1 <= b.lastKey
    && (0 <= b.header ==> Spot(ps, section, b.header + 1))
    && (0 <= b.lastKey ==> Spot(ps, section, b.lastKey + 1))
    && (b.header < 0 ==> section == "")
  }

  ghost predicate PlacesRight(ps: seq<Parsed>, section: string, n: nat, m: Match)
    requires n <= |ps|
  {
    && (m.inBlock <==> Spot(ps, section, n))
    && (m.inBlock ==> m.blocks != [])
    && (section == "" ==> m.blocks != [])
    && (forall b :: b in m.blocks ==> BlockRight(ps, section, b))
    && (forall i :: i in m.commented ==> Spot(ps, section, i + 1))
    && (m.firstHeader == |ps| || m.firstHeader < n)
    && (forall i :: 0 <= i < n && i < m.firstHeader ==> !ps[i].Section?)
  }

  lemma SpotStep(ps: seq<Parsed>, section: string, n: nat)
    requires n < |ps|
    ensures Spot(ps, section, n + 1) <==>
      (if ps[n].Section? then section != "" && ps[n].name == section else Spot(ps, section, n))
  {
    CurPush(ps, n, Global);
  }

  lemma {:induction false} FindIsRight(section: string, key: string, ps: seq<Parsed>, n: nat)
    requires n <= |ps|
    ensures PlacesRight(ps, section, n, FindUpTo(section, key, ps, n))
    ensures ActiveRight(ps, section, key, n, FindUpTo(section, key, ps, n).active)
  {
    if n == 0 {
      assert ps[..0] == [];
    } else {
      hide Spot;
      FindIsRight(section, key, ps, n - 1);
      SpotStep(ps, section, n - 1);
      StepPlaces(section, key, ps, FindUpTo(section, key, ps, n - 1), n - 1);
      StepActive(section, key, ps, FindUpTo(section, key, ps, n - 1), n - 1);
    }
  }

  lemma StepPlaces(section: string, key: string, ps: seq<Parsed>, m: Match, i: nat)
    requires i < |ps| && PlacesRight(ps, section, i, m)
    ensures PlacesRight(ps, section, i + 1, FindStep(section, key, m, ps[i], i, |ps|))
  {
    SpotStep(ps, section, i);
    hide Spot;
    var m' := FindStep(section, key, m, ps[i], i, |ps|);
    StepBlocks(section, key, ps, m, i);
    hide BlockRight;
    assert forall j :: j in m'.commented ==> j in m.commented || (j == i && m.inBlock && !ps[i].Section?);
  }

  lemma StepBlocks(section: string, key: string, ps: seq<Parsed>, m: Match, i: nat)
    requires i < |ps| && PlacesRight(ps, section, i, m)
    ensures forall b :: b in FindStep(section, key, m, ps[i], i, |ps|).blocks ==> BlockRight(ps, section, b)
  {
    SpotStep(ps, section, i);
    hide Spot;
    var m' := FindStep(section, key, m, ps[i], i, |ps|);
    if m.blocks != [] {
      assert m.blocks[|m.blocks| - 1] in m.blocks;
    }
    forall b | b in m'.blocks ensures BlockRight(ps, section, b) {
      assert b in m.blocks || b == Block(i, -1) || (m.blocks != [] && b == m.blocks[|m.blocks| - 1].(lastKey := i));
    }
  }

  lemma StepActive(section: string, key: string, ps: seq<Parsed>, m: Match, i: nat)
    requires i < |ps| && PlacesRight(ps, section, i, m) && ActiveRight(ps, section, key, i, m.active)
    ensures ActiveRight(ps, section, key, i + 1, FindStep(section, key, m, ps[i], i, |ps|).active)
  {
    hide Spot;
    var next := FindStep(section, key, m, ps[i], i, |ps|).active;
    assert next == if ActiveAt(ps, section, key, i) then m.active + [i] else m.active;
    assert forall j :: 0 <= j < |m.active| ==> m.active[j] in m.active;
    PushActive(ps, section, key, m.active, i);
  }

  lemma PushActive(ps: seq<Parsed>, section: string, key: string, active: seq<nat>, i: nat)
    requires i < |ps| && ActiveRight(ps, section, key, i, active)
    ensures ActiveAt(ps, section, key, i) ==> ActiveRight(ps, section, key, i + 1, active + [i])
    ensures !ActiveAt(ps, section, key, i) ==> ActiveRight(ps, section, key, i + 1, active)
  {
    hide ActiveAt;
    assert forall j :: 0 <= j < |active| ==> active[j] in active;
  }

  /** values: the values at the active lines. */
  function ValuesAt(ps: seq<Parsed>, active: seq<nat>): seq<string>
  {
    if active == [] then []
    else
      var i := active[|active| - 1];
      ValuesAt(ps, active[..|active| - 1])
      + (if i < |ps| && ps[i].KeyLine? then [ps[i].value] else [])
  }

  /** What find calls active are the key's values. */
  lemma ValuesAtPush(ps: seq<Parsed>, active: seq<nat>, i: nat)
    requires i < |ps| && ps[i].KeyLine?
    ensures ValuesAt(ps, active + [i]) == ValuesAt(ps, active) + [ps[i].value]
  {
    assert (active + [i])[..|active|] == active;
  }

  lemma ActivePush(section: string, key: string, ps: seq<Parsed>, n: nat)
    requires n < |ps|
    ensures var a, gives := FindUpTo(section, key, ps, n).active, Gives(ps[n], CurOf(ps[..n], Global), section, key);
      && (gives == [] ==> FindUpTo(section, key, ps, n + 1).active == a)
      && (gives != [] ==> FindUpTo(section, key, ps, n + 1).active == a + [n]
                          && ps[n].KeyLine? && gives == [ps[n].value])
  {
    hide CurOf, ActiveRight;
    FindIsRight(section, key, ps, n);
  }

  lemma {:induction false} ActiveAreValues(section: string, key: string, ps: seq<Parsed>, n: nat)
    requires n <= |ps|
    ensures ValuesAt(ps, FindUpTo(section, key, ps, n).active) == ValuesOf(ps[..n], Global, section, key)
    ensures |ValuesOf(ps[..n], Global, section, key)| == |FindUpTo(section, key, ps, n).active|
  {
    hide Gives, CurOf;
    if 0 < n {
      hide FindUpTo, ValuesOf, ValuesAt;
      ActiveAreValues(section, key, ps, n - 1);
      ValuesPush(ps, n - 1, Global, section, key);
      ActivePush(section, key, ps, n - 1);
      if Gives(ps[n - 1], CurOf(ps[..n - 1], Global), section, key) != [] {
        ValuesAtPush(ps, FindUpTo(section, key, ps, n - 1).active, n - 1);
      }
    }
  }

  method Values(spec: Spec, f: IniFile) returns (out: seq<string>)
    ensures out == ValuesOf(ParseAll(Delim(spec), Texts(f.lines)), Global, spec.section, spec.key)
  {
    hide ParseLine, FindUpTo, ValuesOf;
    var m := Find(spec, f);
    ghost var ps := ParseAll(Delim(spec), Texts(f.lines));
    FindIsRight(spec.section, spec.key, ps, |ps|);
    ActiveAreValues(spec.section, spec.key, ps, |ps|);
    assert ps[..|ps|] == ps;
    out := [];
    for j := 0 to |m.active|
      invariant out == ValuesAt(ps, m.active[..j])
    {
      var i := m.active[j];
      assert i in m.active && ActiveAt(ps, spec.section, spec.key, i);
      assert m.active[..j + 1][..j] == m.active[..j];
      var p := ParseLine(Delim(spec), f.lines[i].text);
      assert p == ps[i];
      out := out + [p.value];
    }
    assert m.active[..|m.active|] == m.active;
  }
}
