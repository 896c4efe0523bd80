/** What setting and removing a key of an INI file guarantees (ini_edit.go), for the file
    as it is written and read again. */
module IniTheorems {
  import opened Text
  import opened Sequences
  import opened IniLines
  import opened IniSyntax
  import opened IniEdit
  import opened IniEnsure

  // ------------------------------------------------------------------- small facts

  lemma ParsedInsertion(spec: Spec, lines: seq<Line>, at: nat, texts: seq<string>)
    requires at <= |lines|
    ensures Parse(spec, Inserted(lines, at, texts))
         == Parse(spec, lines)[..at] + ParseAll(Delim(spec), texts) + Parse(spec, lines)[at..]
  {
    InsertedTexts(lines, at, texts);
    hide ParseLine, Inserted, Delim;
  }

  lemma BlankReads(delim: string)
    ensures ParseLine(delim, "") == Blank
  {}

  /** A section's header is read as that section's header. */
  lemma HeaderReads(delim: string, section: string)
    requires ValidSection(section)
    ensures ParseLine(delim, "[" + section + "]") == Section(section)
  {
    var s := "[" + section + "]";
    TrimSpaceOfTrimmed(s);
    TrimSpaceOfTrimmed("");
    assert "[" + section + "]" == ("[" + section) + [']'] + "";
    assert ']' !in "[" + section;
    FindAfter("[" + section, ']', "");
    assert s[1..|section| + 1] == section && s[|section| + 1 + 1..] == "";
    hide TrimSpace, Text.Find, IniSyntax.Split;
  }

  lemma LeadingSpaceIsBlank(text: string)
    ensures AllBlank(LeadingSpace(text))
  {}

  lemma {:induction false} NoHeaderIsGlobal(ps: seq<Parsed>, at: nat)
    requires at <= |ps| && forall i :: 0 <= i < at ==> !ps[i].Section?
    ensures CurOf(ps[..at], Global) == Global
  {
    if 0 < at {
      NoHeaderIsGlobal(ps, at - 1);
      CurPush(ps, at - 1, Global);
    }
  }

  // -------------------------------------------------------------- inserting a new key

  /** After an edit of the pair (section, key) to `after`: the pair has the value, and the
      value lists of all other pairs are as before, if the written line is read back;
      otherwise the pair has no value. */
  ghost predicate SetsOnly(spec: Spec, value: string, good: bool, before: seq<Parsed>, after: seq<Parsed>,
                           s: string, k: string)
  {
    if s == spec.section && k == spec.key
    then ValuesOf(after, Global, s, k) == if good then [value] else []
    else good ==> ValuesOf(after, Global, s, k) == ValuesOf(before, Global, s, k)
  }

  lemma NoActiveNoValues(spec: Spec, lines: seq<Line>)
    requires FindKey(spec, lines).active == []
    ensures ValuesOf(Parse(spec, lines), Global, spec.section, spec.key) == []
  {
    MatchIsRight(spec, lines);
  }

  /** The last region, and where lines can be added to it. */
  lemma LastBlock(spec: Spec, lines: seq<Line>)
    requires FindKey(spec, lines).blocks != []
    ensures var ps, m := Parse(spec, lines), FindKey(spec, lines);
      var b := m.blocks[|m.blocks| - 1];
      BlockRight(ps, spec.section, b) && -1 <= b.lastKey < |lines| && -1 <= b.header < |lines|
  {
    var ps, m := Parse(spec, lines), FindKey(spec, lines);
    MatchIsRight(spec, lines);
    var b := m.blocks[|m.blocks| - 1];
    assert b in m.blocks && BlockRight(ps, spec.section, b);
    LastKeyIsLine(ps, spec.section, b);
  }

  /** A new key line at a place in its section, perhaps with a blank line after it. */
  lemma KeyAdded(spec: Spec, lines: seq<Line>, at: nat, indent: string, blank: bool, value: string, s: string, k: string)
    requires ValidSpec(spec) && ValidValue(value) && AllBlank(indent)
    requires Spot(Parse(spec, lines), spec.section, at) && FindKey(spec, lines).active == []
    ensures var texts := if blank then [Render(spec, indent, value), ""] else [Render(spec, indent, value)];
      SetsOnly(spec, value, ReadsBack(spec, value), Parse(spec, lines), Parse(spec, Inserted(lines, at, texts)), s, k)
  {
    hide ParseLine, Render, ReadsBack, CurOf, ValuesOf, FindKey, Parse, Gives, Inserted, TrimSpace, Delim, IndexOf;
    var delim, line := Delim(spec), Render(spec, indent, value);
    var texts := if blank then [line, ""] else [line];
    var ps, news, l := Parse(spec, lines), ParseAll(Delim(spec), texts), ParseLine(Delim(spec), line);
    var cur := CurOf(ps[..at], Global);
    ParsedInsertion(spec, lines, at, texts);
    RenderReadsBack(spec, indent, value);
    NoActiveNoValues(spec, lines);
    BlankReads(delim);
    if blank {
      assert news == [l, Blank];
      TwoLineValues(l, Blank, cur, s, k);
    } else {
      assert news == [l];
      OneLineValues(l, cur, s, k);
    }
    AddedValues(ps, at, news, l, cur, spec.section, spec.key, s, k);
  }

  /** A new section at the end of the file, perhaps after a blank line. */
  lemma SectionAdded(spec: Spec, lines: seq<Line>, gap: bool, value: string, s: string, k: string)
    requires ValidSpec(spec) && ValidValue(value) && spec.section != "" && FindKey(spec, lines).active == []
    ensures var texts := (if gap then [""] else []) + ["[" + spec.section + "]", Render(spec, "", value)];
      SetsOnly(spec, value, ReadsBack(spec, value), Parse(spec, lines),
               Parse(spec, Inserted(lines, |lines|, texts)), s, k)
  {
    hide ParseLine, Render, ReadsBack, CurOf, ValuesOf, FindKey, Parse, Gives, Inserted, TrimSpace, Delim, IndexOf;
    var delim, line, header := Delim(spec), Render(spec, "", value), "[" + spec.section + "]";
    var texts := (if gap then [""] else []) + [header, line];
    var ps, l, n := Parse(spec, lines), ParseLine(Delim(spec), line), |lines|;
    var cur := CurOf(ps[..n], Global);
    ParsedInsertion(spec, lines, n, texts);
    RenderReadsBack(spec, "", value);
    NoActiveNoValues(spec, lines);
    BlankReads(delim);
    HeaderReads(delim, spec.section);
    var news := ParseAll(delim, texts);
    assert news == (if gap then [Blank] else []) + [Section(spec.section), l];
    HeaderValues(gap, spec.section, l, cur, s, k);
    AddedValues(ps, n, news, l, Under(spec.section), spec.section, spec.key, s, k);
  }

  lemma HeaderValues(gap: bool, section: string, l: Parsed, cur: Cur, s: string, k: string)
    ensures ValuesOf((if gap then [Blank] else []) + [Section(section), l], cur, s, k) == Gives(l, Under(section), s, k)
  {
    var h := Section(section);
    assert [h, l] == [h] + [l];
    ValuesAppend([h], [l], cur, s, k);
    OneLineValues(h, cur, s, k);
    OneLineValues(l, Under(section), s, k);
    NoValue(h, cur, s, k);
    ValuesAppend([Blank], [h, l], cur, s, k);
    OneLineValues(Blank, cur, s, k);
    NoValue(Blank, cur, s, k);
    hide ValuesOf, CurOf, Gives;
    assert [] + [h, l] == [h, l];
  }

  lemma PlacedInBlock(spec: Spec, lines: seq<Line>, value: string, s: string, k: string)
    requires ValidSpec(spec) && ValidValue(value)
    requires var m := FindKey(spec, lines); m.active == [] && m.commented == [] && m.blocks != []
    ensures SetsOnly(spec, value, ReadsBack(spec, value), Parse(spec, lines), Parse(spec, Ensured(spec, lines, value)), s, k)
  {
    hide ParseLine, Render, ReadsBack, ValuesOf, CurOf, FindKey, Parse, ValidSpec, ValidValue, Inserted, SetsOnly, Spot, TrimSpace, Delim;
    var ps, m := Parse(spec, lines), FindKey(spec, lines);
    LastBlock(spec, lines);
    var b := m.blocks[|m.blocks| - 1];
    if 0 <= b.lastKey {
      LeadingSpaceIsBlank(lines[b.lastKey].text);
      KeyAdded(spec, lines, b.lastKey + 1, LeadingSpace(lines[b.lastKey].text), false, value, s, k);
    } else if 0 <= b.header {
      KeyAdded(spec, lines, b.header + 1, "", false, value, s, k);
    } else {
      PlacedGlobally(spec, lines, value, s, k);
    }
  }

  lemma PlacedGlobally(spec: Spec, lines: seq<Line>, value: string, s: string, k: string)
    requires ValidSpec(spec) && ValidValue(value) && spec.section == "" && FindKey(spec, lines).active == []
    ensures var ps, fh := Parse(spec, lines), FindKey(spec, lines).firstHeader;
      && fh <= |lines|
      && (fh == |lines| ==>
            SetsOnly(spec, value, ReadsBack(spec, value), ps,
                     Parse(spec, Inserted(lines, |lines|, [Render(spec, "", value)])), s, k))
    ensures var ps, fh := Parse(spec, lines), FindKey(spec, lines).firstHeader;
      fh < |lines| ==>
        SetsOnly(spec, value, ReadsBack(spec, value), ps,
                 Parse(spec, Inserted(lines, AboveComments(ps, fh), [Render(spec, "", value), ""])), s, k)
  {
    hide ParseLine, Render, ReadsBack, ValuesOf, CurOf, FindKey, Parse, ValidSpec, ValidValue, Inserted, SetsOnly, AboveComments, TrimSpace, Delim;
    var ps, m := Parse(spec, lines), FindKey(spec, lines);
    MatchIsRight(spec, lines);
    if m.firstHeader < |lines| {
      var at := AboveComments(ps, m.firstHeader);
      NoHeaderIsGlobal(ps, at);
      KeyAdded(spec, lines, at, "", true, value, s, k);
    } else {
      NoHeaderIsGlobal(ps, |lines|);
      KeyAdded(spec, lines, |lines|, "", false, value, s, k);
    }
  }

  /** Inserting a missing key, whichever of the cases applies. */
  lemma Placed(spec: Spec, lines: seq<Line>, value: string, s: string, k: string)
    requires ValidSpec(spec) && ValidValue(value) && FindKey(spec, lines).active == []
    ensures SetsOnly(spec, value, ReadsBack(spec, value), Parse(spec, lines), Parse(spec, Ensured(spec, lines, value)), s, k)
  {
    hide ParseLine, Render, ReadsBack, ValuesOf, CurOf, FindKey, Parse, ValidSpec, ValidValue, Inserted, SetsOnly;
    hide AboveComments, TrimSpace, Delim, LeadingSpace;
    var m := FindKey(spec, lines);
    PlacesAreLines(spec, lines);
    if m.commented != [] {
      var at := m.commented[|m.commented| - 1];
      CommentedSpot(spec, lines);
      LeadingSpaceIsBlank(lines[at].text);
      KeyAdded(spec, lines, at + 1, LeadingSpace(lines[at].text), false, value, s, k);
    } else if m.blocks == [] {
      NoBlocksNamed(spec, lines);
      SectionAdded(spec, lines, 0 < |lines| && TrimSpace(lines[|lines| - 1].text) != "", value, s, k);
    } else {
      PlacedInBlock(spec, lines, value, s, k);
    }
  }

  lemma CommentedSpot(spec: Spec, lines: seq<Line>)
    requires FindKey(spec, lines).commented != []
    ensures var m := FindKey(spec, lines);
      Spot(Parse(spec, lines), spec.section, m.commented[|m.commented| - 1] + 1)
  {
    hide Spot, FindKey, Parse;
    MatchIsRight(spec, lines);
    var m := FindKey(spec, lines);
    assert m.commented[|m.commented| - 1] in m.commented;
  }

  lemma NoBlocksNamed(spec: Spec, lines: seq<Line>)
    requires FindKey(spec, lines).blocks == []
    ensures spec.section != ""
  {
    hide Spot, FindKey, Parse;
    MatchIsRight(spec, lines);
  }

  // -------------------------------------------------------- rewriting an existing key

  /** The lines of the key but for the first. */
  ghost predicate Doomed(ps: seq<Parsed>, section: string, key: string, first: nat, drop: set<nat>)
  {
    forall i :: 0 <= i < |ps| ==> (i in drop <==> ActiveAt(ps, section, key, i) && i != first)
  }

  /** Of what is read with the first occurrence replaced by `l` and the others dropped. */
  function Outcome(ps: seq<Parsed>, first: nat, l: Parsed, drop: set<nat>, n: nat): seq<Parsed>
    requires n <= |ps| && first < |ps|
  {
    Without(ps[first := l], drop, n)
  }

  lemma OutcomeStep(ps: seq<Parsed>, first: nat, l: Parsed, drop: set<nat>, n: nat, s: string, k: string)
    requires n < |ps| && first < |ps|
    ensures var before, p := Outcome(ps, first, l, drop, n), ps[first := l][n];
      && ValuesOf(Outcome(ps, first, l, drop, n + 1), Global, s, k)
         == ValuesOf(before, Global, s, k) + (if n in drop then [] else Gives(p, CurOf(before, Global), s, k))
      && CurOf(Outcome(ps, first, l, drop, n + 1), Global)
         == (if n in drop || !p.Section? then CurOf(before, Global) else Under(p.name))
  {}

  /** Dropping and replacing key lines moves no line into another section. */
  lemma {:induction false} OutcomeCur(ps: seq<Parsed>, section: string, key: string, first: nat, l: Parsed,
                                      drop: set<nat>, n: nat)
    requires n <= |ps| && ActiveAt(ps, section, key, first) && l.KeyLine? && Doomed(ps, section, key, first, drop)
    ensures CurOf(Outcome(ps, first, l, drop, n), Global) == CurOf(ps[..n], Global)
  {
    hide CurOf, Outcome, Spot;
    if n == 0 {
      NothingYet(ps, first, l, drop);
    } else {
      OutcomeCur(ps, section, key, first, l, drop, n - 1);
      OutcomeStep(ps, first, l, drop, n - 1, "", "");
      CurPush(ps, n - 1, Global);
    }
  }

  lemma NothingYet(ps: seq<Parsed>, first: nat, l: Parsed, drop: set<nat>)
    requires first < |ps|
    ensures Outcome(ps, first, l, drop, 0) == [] && ps[..0] == []
  {}

  lemma ActiveGives(ps: seq<Parsed>, section: string, key: string, i: nat, s: string, k: string)
    requires i < |ps|
    ensures s == section && k == key && !ActiveAt(ps, section, key, i) ==> Gives(ps[i], CurOf(ps[..i], Global), s, k) == []
    ensures !(s == section && k == key) && ActiveAt(ps, section, key, i) ==> Gives(ps[i], CurOf(ps[..i], Global), s, k) == []
  {}

  lemma FirstGives(ps: seq<Parsed>, section: string, key: string, first: nat, l: Parsed, s: string, k: string)
    requires ActiveAt(ps, section, key, first) && l.KeyLine?
    ensures s == section && k == key ==>
      Gives(l, CurOf(ps[..first], Global), s, k) == if l.key == key then [l.value] else []
    ensures !(s == section && k == key) && l.key == key ==> Gives(l, CurOf(ps[..first], Global), s, k) == []
  {}

  lemma {:induction false} OutcomeValues(ps: seq<Parsed>, section: string, key: string, first: nat, l: Parsed,
                                         drop: set<nat>, n: nat, s: string, k: string)
    requires n <= |ps| && ActiveAt(ps, section, key, first) && l.KeyLine? && Doomed(ps, section, key, first, drop)
    ensures s == section && k == key ==>
      ValuesOf(Outcome(ps, first, l, drop, n), Global, s, k) == if first < n && l.key == key then [l.value] else []
    ensures !(s == section && k == key) && l.key == key ==>
      ValuesOf(Outcome(ps, first, l, drop, n), Global, s, k) == ValuesOf(ps[..n], Global, s, k)
  {
    hide CurOf, Outcome, ValuesOf, Gives, Spot;
    if n == 0 {
      NothingYet(ps, first, l, drop);
      NoLines(Global, Global, s, k);
    } else {
      OutcomeValues(ps, section, key, first, l, drop, n - 1, s, k);
      OutcomeStep(ps, first, l, drop, n - 1, s, k);
      OutcomeCur(ps, section, key, first, l, drop, n - 1);
      ValuesPush(ps, n - 1, Global, s, k);
      ActiveGives(ps, section, key, n - 1, s, k);
      FirstGives(ps, section, key, first, l, s, k);
    }
  }

  lemma RestIsDoomed(spec: Spec, lines: seq<Line>)
    requires FindKey(spec, lines).active != []
    ensures var active := FindKey(spec, lines).active;
      Doomed(Parse(spec, lines), spec.section, spec.key, active[0], Rest(active))
  {
    hide FindKey, Parse, ActiveAt, PlacesRight, ValuesOf;
    MatchIsRight(spec, lines);
    var ps, active := Parse(spec, lines), FindKey(spec, lines).active;
    forall i | 0 <= i < |ps|
      ensures i in Rest(active) <==> ActiveAt(ps, spec.section, spec.key, i) && i != active[0]
    {
      if i in active {
        var j :| 0 <= j < |active| && active[j] == i;
      }
      assert forall j :: 0 <= j < |active| ==> active[j] in active;
    }
  }

  lemma {:induction false} ParsedWithout(delim: string, texts: seq<string>, drop: set<nat>, n: nat)
    requires n <= |texts|
    ensures ParseAll(delim, Without(texts, drop, n)) == Without(ParseAll(delim, texts), drop, n)
  {
    hide ParseLine;
    if 0 < n {
      ParsedWithout(delim, texts, drop, n - 1);
    }
  }

  lemma ParsedRemoval(spec: Spec, lines: seq<Line>, drop: set<nat>)
    ensures Parse(spec, Removed(lines, drop)) == Without(Parse(spec, lines), drop, |lines|)
  {
    hide Removed, ParseLine;
    RemovedTexts(lines, drop);
    ParsedWithout(Delim(spec), Texts(lines), drop, |lines|);
  }

  lemma ParsedRewriting(spec: Spec, lines: seq<Line>, first: nat, value: string)
    requires first < |lines|
    ensures var ps := Parse(spec, lines);
      Parse(spec, Rewritten(spec, lines, first, value))
      == if ps[first].KeyLine? && ps[first].value == value then ps
         else ps[first := ParseLine(Delim(spec), Render(spec, LeadingSpace(lines[first].text), value))]
  {}

  /** Setting a key that is there already. */
  lemma Replaced(spec: Spec, lines: seq<Line>, value: string, s: string, k: string)
    requires ValidSpec(spec) && ValidValue(value) && FindKey(spec, lines).active != []
    ensures SetsOnly(spec, value, ReadsBack(spec, value) || AlreadyFirst(spec, lines, value),
                     Parse(spec, lines), Parse(spec, Ensured(spec, lines, value)), s, k)
  {
    hide ParseLine, Render, ReadsBack, ValuesOf, CurOf, FindKey, Parse, Removed, Rewritten, LeadingSpace, Spot;
    var ps, active := Parse(spec, lines), FindKey(spec, lines).active;
    var first, drop := active[0], Rest(active);
    FirstIsActive(spec, lines);
    RestIsDoomed(spec, lines);
    ParsedRewriting(spec, lines, first, value);
    ParsedRemoval(spec, Rewritten(spec, lines, first, value), drop);
    LeadingSpaceIsBlank(lines[first].text);
    RenderReadsBack(spec, LeadingSpace(lines[first].text), value);
    var l := if AlreadyFirst(spec, lines, value) then ps[first]
             else ParseLine(Delim(spec), Render(spec, LeadingSpace(lines[first].text), value));
    assert ps[first := ps[first]] == ps;
    OutcomeValues(ps, spec.section, spec.key, first, l, drop, |ps|, s, k);
    assert ps[..|ps|] == ps;
  }

  // --------------------------------------------------------------------------- theorems

  /** Whether the file will hold the value: it is written so that it is read back, or the
      first occurrence has it already and is left alone. */
  predicate Holds(spec: Spec, lines: seq<Line>, value: string)
  {
    ReadsBack(spec, value) || AlreadyFirst(spec, lines, value)
  }

  lemma EnsuredValues(spec: Spec, lines: seq<Line>, value: string, s: string, k: string)
    requires ValidSpec(spec) && ValidValue(value)
    ensures SetsOnly(spec, value, Holds(spec, lines, value), Parse(spec, lines), Parse(spec, Ensured(spec, lines, value)), s, k)
  {
    hide ReadsBack, ValuesOf, FindKey, Parse, SetsOnly, ValidSpec, ValidValue, Ensured;
    if FindKey(spec, lines).active == [] {
      Placed(spec, lines, value, s, k);
    } else {
      Replaced(spec, lines, value, s, k);
    }
  }

  lemma SettleReads(delim: string, l: Line)
    ensures ParseLine(delim, Settle(l).text) == ParseLine(delim, l.text)
  {
    hide ParseLine, TrimSpace;
    if l.eol == "\n" && EndsInCr(l.text) {
      var t := l.text[..|l.text| - 1];
      assert l.text == t + "\r" && AllSpace("\r");
      TrimsBehind(t, "\r");
      ParseTrimmed(delim, t, l.text);
    }
  }

  lemma ParseCons(spec: Spec, l: Line, rest: seq<Line>)
    ensures Parse(spec, [l] + rest) == [ParseLine(Delim(spec), l.text)] + Parse(spec, rest)
  {}

  /** Reading a file again gives the same meaning to its lines, but that an empty
      unterminated line at the end is gone. */
  lemma {:induction false} RereadParses(spec: Spec, lines: seq<Line>)
    ensures Parse(spec, lines) == Parse(spec, Reread(lines))
         || Parse(spec, lines) == Parse(spec, Reread(lines)) + [Blank]
  {
    hide ParseLine, Settle, Parse, Delim;
    if lines == [Line("", "")] {
      BlankReads(Delim(spec));
      ParseCons(spec, Line("", ""), []);
      assert [Line("", "")] + [] == lines;
    } else if lines != [] {
      var l, rest := lines[0], lines[1..];
      assert lines == [l] + rest;
      RereadParses(spec, rest);
      SettleReads(Delim(spec), l);
      ParseCons(spec, l, rest);
      ParseCons(spec, Settle(l), Reread(rest));
      var p := [ParseLine(Delim(spec), l.text)];
      assert p + (Parse(spec, Reread(rest)) + [Blank]) == p + Parse(spec, Reread(rest)) + [Blank];
    }
  }

  lemma RereadValues(spec: Spec, lines: seq<Line>, s: string, k: string)
    ensures ValuesOf(Parse(spec, Reread(lines)), Global, s, k) == ValuesOf(Parse(spec, lines), Global, s, k)
  {
    hide Parse, Reread, ValuesOf, CurOf;
    var ps := Parse(spec, Reread(lines));
    RereadParses(spec, lines);
    ValuesAppend(ps, [Blank], Global, s, k);
    OneLineValues(Blank, CurOf(ps, Global), s, k);
    NoValue(Blank, CurOf(ps, Global), s, k);
  }

  lemma RenderIsOneLine(spec: Spec, indent: string, value: string)
    requires ValidSpec(spec) && ValidValue(value) && AllBlank(indent)
    ensures '\n' !in Render(spec, indent, value)
  {}

  lemma EnsuredIsLoose(spec: Spec, lines: seq<Line>, value: string)
    requires ValidSpec(spec) && ValidValue(value) && Loose(lines)
    ensures Loose(Ensured(spec, lines, value))
  {
    hide FindKey, Parse, Render, Removed, Inserted, ValuesOf, LeadingSpace, TrimSpace, AboveComments;
    var m := FindKey(spec, lines);
    if m.active != [] {
      FirstIsActive(spec, lines);
      var first := m.active[0];
      LeadingSpaceIsBlank(lines[first].text);
      RenderIsOneLine(spec, LeadingSpace(lines[first].text), value);
      RemovedIsLoose(Rewritten(spec, lines, first, value), Rest(m.active));
    } else {
      PlacesAreLines(spec, lines);
      var add := Placement(spec, lines, Parse(spec, lines), m, value);
      AddedTextsAreLines(spec, lines, value);
      InsertedIsLoose(lines, add.at, add.texts);
    }
  }

  lemma AddedTextsAreLines(spec: Spec, lines: seq<Line>, value: string)
    requires ValidSpec(spec) && ValidValue(value) && Loose(lines)
    requires FindKey(spec, lines).firstHeader <= |lines|
    ensures var add := Placement(spec, lines, Parse(spec, lines), FindKey(spec, lines), value);
      forall t :: t in add.texts ==> '\n' !in t
  {
    hide FindKey, Parse, Render, LeadingSpace, TrimSpace, AboveComments, IndexOf, Loose, HasInnerSpace;
    forall l | l in lines ensures '\n' !in Render(spec, LeadingSpace(l.text), value) {
      LeadingSpaceIsBlank(l.text);
      RenderIsOneLine(spec, LeadingSpace(l.text), value);
    }
    RenderIsOneLine(spec, "", value);
    PlacesAreLines(spec, lines);
    assert '\n' !in spec.section;
    assert '\n' !in "[" + spec.section + "]";
  }

  lemma OneActive(ps: seq<Parsed>, active: seq<nat>, section: string, key: string, value: string)
    requires ActiveRight(ps, section, key, |ps|, active) && |active| == 1 && ValuesAt(ps, active) == [value]
    ensures active[0] < |ps| && ps[active[0]].KeyLine? && ps[active[0]].value == value
  {}

  lemma OneValueIsFirst(spec: Spec, lines: seq<Line>, value: string)
    requires ValuesOf(Parse(spec, lines), Global, spec.section, spec.key) == [value]
    ensures |FindKey(spec, lines).active| == 1 && AlreadyFirst(spec, lines, value)
  {
    hide FindKey, Parse, ValuesOf, PlacesRight, ActiveRight, ValuesAt;
    MatchIsRight(spec, lines);
    OneActive(Parse(spec, lines), FindKey(spec, lines).active, spec.section, spec.key, value);
  }

  /** A file that has exactly the value is not changed. */
  lemma SettledIsUnchanged(spec: Spec, lines: seq<Line>, value: string)
    requires ValuesOf(Parse(spec, lines), Global, spec.section, spec.key) == [value]
    ensures !Changes(spec, lines, value) && Ensured(spec, lines, value) == lines
  {
    hide FindKey, Parse, ValuesOf, ParseLine, Render, LeadingSpace;
    OneValueIsFirst(spec, lines, value);
    FirstLine(spec, lines);
    assert Rest(FindKey(spec, lines).active) == {};
  }

  lemma UnchangedIsSettled(spec: Spec, lines: seq<Line>, value: string)
    requires !Changes(spec, lines, value)
    ensures ValuesOf(Parse(spec, lines), Global, spec.section, spec.key) == [value]
  {
    hide FindKey, Parse, ValuesOf, PlacesRight, ActiveRight;
    MatchIsRight(spec, lines);
    var active := FindKey(spec, lines).active;
    assert active == [active[0]];
  }

  // ----------------------------------------------------------------------- removing

  lemma {:induction false} RemovedKeyValues(ps: seq<Parsed>, section: string, key: string, drop: set<nat>, n: nat,
                                            s: string, k: string)
    requires n <= |ps| && forall i :: 0 <= i < |ps| ==> (i in drop <==> ActiveAt(ps, section, key, i))
    ensures CurOf(Without(ps, drop, n), Global) == CurOf(ps[..n], Global)
    ensures ValuesOf(Without(ps, drop, n), Global, s, k)
         == if s == section && k == key then [] else ValuesOf(ps[..n], Global, s, k)
  {
    hide Spot, Gives, CurOf, ValuesOf, Without;
    if n == 0 {
      NothingKept(ps, drop, s, k);
    } else {
      RemovedKeyValues(ps, section, key, drop, n - 1, s, k);
      CurPush(ps, n - 1, Global);
      ValuesPush(ps, n - 1, Global, s, k);
      ActiveGives(ps, section, key, n - 1, s, k);
      KeptStep(ps, drop, n - 1, s, k);
    }
  }

  lemma NothingKept(ps: seq<Parsed>, drop: set<nat>, s: string, k: string)
    ensures Without(ps, drop, 0) == ps[..0] == []
    ensures ValuesOf([], Global, s, k) == []
  {}

  lemma KeptStep(ps: seq<Parsed>, drop: set<nat>, n: nat, s: string, k: string)
    requires n < |ps|
    ensures var before, after, p := Without(ps, drop, n), Without(ps, drop, n + 1), ps[n];
      && ValuesOf(after, Global, s, k)
         == ValuesOf(before, Global, s, k) + (if n in drop then [] else Gives(p, CurOf(before, Global), s, k))
      && CurOf(after, Global) == (if n in drop || !p.Section? then CurOf(before, Global) else Under(p.name))
  {}

  /** After remove the key has no value on the lines, and every other key those it had. */
  lemma RemovedValues(spec: Spec, lines: seq<Line>, s: string, k: string)
    ensures var after := Removed(lines, All(FindKey(spec, lines).active));
      ValuesOf(Parse(spec, after), Global, s, k)
      == if s == spec.section && k == spec.key then [] else ValuesOf(Parse(spec, lines), Global, s, k)
  {
    hide FindKey, Parse, ValuesOf, ActiveAt, PlacesRight, Removed, CurOf;
    var ps, active := Parse(spec, lines), FindKey(spec, lines).active;
    MatchIsRight(spec, lines);
    ParsedRemoval(spec, lines, All(active));
    RemovedKeyValues(ps, spec.section, spec.key, All(active), |ps|, s, k);
    assert ps[..|ps|] == ps;
  }
}
