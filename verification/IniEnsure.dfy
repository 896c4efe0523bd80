/** Setting and removing a key of an INI file (ini_edit.go): the edits, what they leave
    as the key's values, and that they leave every other key alone. */
module IniEnsure {
  import opened Text
  import opened Sequences
  import opened IniLines
  import opened IniSyntax
  import opened IniEdit

  // --------------------------------------------------------------------- the edits

  function LeadingSpace(text: string): string { text[..Text.Lead(text, IsBlank, 0)] }

  /** Upwards over the comment lines directly above line `at`. */
  function AboveComments(ps: seq<Parsed>, at: nat): (r: nat)
    requires at <= |ps|
    ensures r <= at && forall i :: r <= i < at ==> ps[i].Comment?
  {
    if 0 < at && ps[at - 1].Comment? then AboveComments(ps, at - 1) else at
  }

  datatype Addition = Addition(at: nat, texts: seq<string>)

  /** Where a missing key is inserted, and with which lines around it. */
  function Placement(spec: Spec, lines: seq<Line>, ps: seq<Parsed>, m: Match, value: string): Addition
    requires |ps| == |lines| && m.firstHeader <= |ps|
  {
    if m.commented != [] then
      var at := m.commented[|m.commented| - 1];
      Addition(at + 1, [Render(spec, if at < |lines| then LeadingSpace(lines[at].text) else "", value)])
    else if m.blocks == [] then
      var n := |lines|;
      var gap := if 0 < n && TrimSpace(lines[n - 1].text) != "" then [""] else [];
      Addition(n, gap + ["[" + spec.section + "]", Render(spec, "", value)])
    else
      var b := m.blocks[|m.blocks| - 1];
      if 0 <= b.lastKey then
        Addition(b.lastKey + 1,
                 [Render(spec, if b.lastKey < |lines| then LeadingSpace(lines[b.lastKey].text) else "", value)])
      else if 0 <= b.header then Addition(b.header + 1, [Render(spec, "", value)])
      else if m.firstHeader == |lines| then Addition(|lines|, [Render(spec, "", value)])
      else Addition(AboveComments(ps, m.firstHeader), [Render(spec, "", value), ""])
  }

  function Rest(active: seq<nat>): set<nat> { set i | 1 <= i < |active| :: active[i] }

  /** The first occurrence, rewritten unless it has the value already. */
  function Rewritten(spec: Spec, lines: seq<Line>, first: nat, value: string): (r: seq<Line>)
    requires first < |lines|
    ensures |r| == |lines|
  {
    var p := ParseLine(Delim(spec), lines[first].text);
    if p.KeyLine? && p.value == value then lines
    else lines[first := lines[first].(text := Render(spec, LeadingSpace(lines[first].text), value))]
  }

  function Parse(spec: Spec, lines: seq<Line>): (r: seq<Parsed>)
    ensures |r| == |lines|
  {
    ParseAll(Delim(spec), Texts(lines))
  }

  lemma MatchIsRight(spec: Spec, lines: seq<Line>)
    ensures var ps, m := Parse(spec, lines), FindKey(spec, lines);
      && PlacesRight(ps, spec.section, |ps|, m)
      && ActiveRight(ps, spec.section, spec.key, |ps|, m.active)
      && ValuesAt(ps, m.active) == ValuesOf(ps, Global, spec.section, spec.key)
      && |ValuesOf(ps, Global, spec.section, spec.key)| == |m.active|
  {
    var ps := Parse(spec, lines);
    FindIsRight(spec.section, spec.key, ps, |ps|);
    ActiveAreValues(spec.section, spec.key, ps, |ps|);
    assert ps[..|ps|] == ps;
  }

  /** The first line of the key, if it has any. */
  lemma FirstIsActive(spec: Spec, lines: seq<Line>)
    requires FindKey(spec, lines).active != []
    ensures var ps, first := Parse(spec, lines), FindKey(spec, lines).active[0];
      first < |lines| && ActiveAt(ps, spec.section, spec.key, first)
  {
    MatchIsRight(spec, lines);
    hide FindKey, Parse, ActiveAt, PlacesRight, ValuesOf;
    var m := FindKey(spec, lines);
    assert m.active[0] in m.active;
  }

  /** The lines ensure leaves. */
  function Ensured(spec: Spec, lines: seq<Line>, value: string): seq<Line>
  {
    var m := FindKey(spec, lines);
    if m.active != [] then
      FirstIsActive(spec, lines);
      Removed(Rewritten(spec, lines, m.active[0], value), Rest(m.active))
    else
      MatchIsRight(spec, lines);
      var add := Placement(spec, lines, Parse(spec, lines), m, value);
      Inserted(lines, add.at, add.texts)
  }

  predicate AlreadyFirst(spec: Spec, lines: seq<Line>, value: string)
  {
    var m, ps := FindKey(spec, lines), Parse(spec, lines);
    m.active != [] && m.active[0] < |ps| && ps[m.active[0]].KeyLine? && ps[m.active[0]].value == value
  }

  /** Whether ensure reports a change. */
  predicate Changes(spec: Spec, lines: seq<Line>, value: string)
  {
    |FindKey(spec, lines).active| != 1 || !AlreadyFirst(spec, lines, value)
  }

  // ------------------------------------------------------------------ the operations

  method AboveCommentsAt(spec: Spec, f: IniFile, at: nat) returns (r: nat)
    requires at <= |f.lines|
    ensures r == AboveComments(Parse(spec, f.lines), at)
  {
    hide ParseLine;
    ghost var ps := Parse(spec, f.lines);
    r := at;
    while 0 < r && ParseLine(Delim(spec), f.lines[r - 1].text).Comment?
      invariant r <= at && AboveComments(ps, r) == AboveComments(ps, at)
    {
      assert ps[r - 1] == ParseLine(Delim(spec), f.lines[r - 1].text);
      r := r - 1;
    }
    if 0 < r {
      assert ps[r - 1] == ParseLine(Delim(spec), f.lines[r - 1].text);
    }
  }

  /** insertGlobal: at the end of a file without headers, or else above the first header
      and the comments directly above it. */
  method PlaceGlobal(spec: Spec, f: IniFile, m: Match, value: string) returns (add: Addition)
    requires m.firstHeader <= |f.lines|
    ensures add == if m.firstHeader == |f.lines| then Addition(|f.lines|, [Render(spec, "", value)])
                   else Addition(AboveComments(Parse(spec, f.lines), m.firstHeader), [Render(spec, "", value), ""])
  {
    hide ParseLine, Render;
    var at := m.firstHeader;
    if at == |f.lines| {
      return Addition(at, [Render(spec, "", value)]);
    }
    at := AboveCommentsAt(spec, f, at);
    add := Addition(at, [Render(spec, "", value), ""]);
  }

  lemma PlacesAreLines(spec: Spec, lines: seq<Line>)
    ensures var m := FindKey(spec, lines);
      && m.firstHeader <= |lines|
      && (m.commented != [] ==> m.commented[|m.commented| - 1] < |lines|)
      && (m.blocks != [] ==> var b := m.blocks[|m.blocks| - 1];
            -1 <= b.lastKey < |lines| && -1 <= b.header < |lines|)
  {
    MatchIsRight(spec, lines);
    var ps, m := Parse(spec, lines), FindKey(spec, lines);
    hide FindKey, Parse, ValuesOf, ActiveRight;
    if m.commented != [] {
      assert m.commented[|m.commented| - 1] in m.commented;
    }
    if m.blocks != [] {
      assert m.blocks[|m.blocks| - 1] in m.blocks;
      LastKeyIsLine(ps, spec.section, m.blocks[|m.blocks| - 1]);
    }
  }

  /** The cases of ensure for a missing key. */
  method PlaceKey(spec: Spec, f: IniFile, m: Match, value: string) returns (add: Addition)
    requires m == FindKey(spec, f.lines)
    ensures m.firstHeader <= |f.lines|
    ensures add == Placement(spec, f.lines, Parse(spec, f.lines), m, value)
  {
    hide Render, FindKey, Parse, LeadingSpace, AboveComments, TrimSpace, ParseLine, Delim;
    PlacesAreLines(spec, f.lines);
    if m.commented != [] {
      var at := m.commented[|m.commented| - 1];
      return Addition(at + 1, [Render(spec, LeadingSpace(f.lines[at].text), value)]);
    }
    if m.blocks == [] {
      var texts: seq<string> := [];
      var n := |f.lines|;
      if 0 < n && TrimSpace(f.lines[n - 1].text) != "" {
        texts := texts + [""];
      }
      return Addition(n, texts + ["[" + spec.section + "]", Render(spec, "", value)]);
    }
    var b := m.blocks[|m.blocks| - 1];
    if 0 <= b.lastKey {
      return Addition(b.lastKey + 1, [Render(spec, LeadingSpace(f.lines[b.lastKey].text), value)]);
    }
    if 0 <= b.header {
      return Addition(b.header + 1, [Render(spec, "", value)]);
    }
    add := PlaceGlobal(spec, f, m, value);
  }

  lemma LastKeyIsLine(ps: seq<Parsed>, section: string, b: Block)
    requires BlockRight(ps, section, b)
    ensures b.lastKey < |ps| && b.header < |ps|
  {}

  /** ensure. A value that would not be read back as it is refused. */
  method Ensure(spec: Spec, f: IniFile, value: string) returns (ok: bool, changed: bool)
    modifies f`lines
    ensures ok <==> ValidValue(value)
    ensures ok ==> f.lines == Ensured(spec, old(f.lines), value)
    ensures ok ==> (changed <==> Changes(spec, old(f.lines), value))
    ensures !ok ==> !changed && f.lines == old(f.lines)
  {
    hide ParseLine, Render, Inserted, FindKey, Placement, ValidValue, ActiveAt, PlacesRight;
    if !ValidValue(value) {
      return false, false;
    }
    ok := true;
    var m := IniEdit.Find(spec, f);
    if m.active == [] {
      var add := PlaceKey(spec, f, m, value);
      f.Insert(add.at, add.texts);
      return true, true;
    }
    changed := false;
    FirstLine(spec, f.lines);
    var first := m.active[0];
    var p := ParseLine(Delim(spec), f.lines[first].text);
    if p.value != value {
      f.lines := f.lines[first := f.lines[first].(text := Render(spec, LeadingSpace(f.lines[first].text), value))];
      changed := true;
    }
    if 1 < |m.active| {
      f.Remove(Rest(m.active));
      changed := true;
    } else {
      assert Rest(m.active) == {};
    }
  }

  lemma FirstLine(spec: Spec, lines: seq<Line>)
    requires FindKey(spec, lines).active != []
    ensures var first := FindKey(spec, lines).active[0];
      && first < |lines| && first < |Parse(spec, lines)|
      && Parse(spec, lines)[first] == ParseLine(Delim(spec), lines[first].text)
      && Parse(spec, lines)[first].KeyLine?
  {
    hide FindKey;
    FirstIsActive(spec, lines);
  }

  function All(active: seq<nat>): set<nat> { set i | i in active }

  /** remove: every occurrence of the key. */
  method RemoveKey(spec: Spec, f: IniFile) returns (changed: bool)
    modifies f`lines
    ensures f.lines == Removed(old(f.lines), All(FindKey(spec, old(f.lines)).active))
    ensures changed <==> FindKey(spec, old(f.lines)).active != []
  {
    hide FindKey;
    var m := IniEdit.Find(spec, f);
    f.Remove(All(m.active));
    changed := m.active != [];
  }

  // ----------------------------------------------- what a new line does to the values

  lemma OneLineValues(p: Parsed, cur: Cur, section: string, key: string)
    ensures ValuesOf([p], cur, section, key) == Gives(p, cur, section, key)
    ensures CurOf([p], cur) == if p.Section? then Under(p.name) else cur
  {}

  lemma TwoLineValues(p: Parsed, q: Parsed, cur: Cur, section: string, key: string)
    requires !q.Section? && !q.KeyLine?
    ensures ValuesOf([p, q], cur, section, key) == Gives(p, cur, section, key)
    ensures CurOf([p, q], cur) == if p.Section? then Under(p.name) else cur
  {
    hide Gives;
    assert [p, q] == [p] + [q];
    ValuesAppend([p], [q], cur, section, key);
    CurAppend([p], [q], cur);
    OneLineValues(p, cur, section, key);
    OneLineValues(q, CurOf([p], cur), section, key);
    assert Gives(q, CurOf([p], cur), section, key) == [] by { NoValue(q, CurOf([p], cur), section, key); }
  }

  lemma NoValue(q: Parsed, cur: Cur, section: string, key: string)
    requires !q.KeyLine?
    ensures Gives(q, cur, section, key) == []
  {}

  /** Lines inserted that do not start a section: the values before, theirs, and the
      values after. */
  lemma InsertedValues(ps: seq<Parsed>, at: nat, news: seq<Parsed>, section: string, key: string)
    requires at <= |ps| && (CurOf(news, CurOf(ps[..at], Global)) == CurOf(ps[..at], Global) || at == |ps|)
    ensures ValuesOf(ps[..at] + news + ps[at..], Global, section, key)
         == ValuesOf(ps[..at], Global, section, key)
            + ValuesOf(news, CurOf(ps[..at], Global), section, key)
            + ValuesOf(ps[at..], CurOf(ps[..at], Global), section, key)
    ensures ValuesOf(ps, Global, section, key)
         == ValuesOf(ps[..at], Global, section, key) + ValuesOf(ps[at..], CurOf(ps[..at], Global), section, key)
  {
    hide CurOf;
    var a, b, cur := ps[..at], ps[at..], CurOf(ps[..at], Global);
    ValuesAppend(a + news, b, Global, section, key);
    ValuesAppend(a, news, Global, section, key);
    CurAppend(a, news, Global);
    ValuesAppend(a, b, Global, section, key);
    assert a + b == ps;
    if at == |ps| {
      assert b == [];
      NoLines(CurOf(a + news, Global), cur, section, key);
    }
  }

  lemma NoLines(c: Cur, d: Cur, section: string, key: string)
    ensures ValuesOf([], c, section, key) == ValuesOf([], d, section, key) == []
  {}

  /** The new values of a key the lines did not have, and of every other key. */
  lemma AddedValues(ps: seq<Parsed>, at: nat, news: seq<Parsed>, l: Parsed, cur: Cur,
                    section: string, key: string, s: string, k: string)
    requires at <= |ps| && (CurOf(news, CurOf(ps[..at], Global)) == CurOf(ps[..at], Global) || at == |ps|)
    requires ValuesOf(ps, Global, section, key) == []
    requires l.KeyLine? && Within(cur, section)
    requires ValuesOf(news, CurOf(ps[..at], Global), s, k) == Gives(l, cur, s, k)
    ensures var r := ps[..at] + news + ps[at..];
      && (s == section && k == key ==> ValuesOf(r, Global, s, k) == if l.key == key then [l.value] else [])
      && (!(s == section && k == key) && l.key == key ==> ValuesOf(r, Global, s, k) == ValuesOf(ps, Global, s, k))
  {
    hide ValuesOf, CurOf;
    InsertedValues(ps, at, news, s, k);
    InsertedValues(ps, at, news, section, key);
    if l.key == key && k == key && Within(cur, s) {
      OneSection(cur, s, section);
    }
  }
}
