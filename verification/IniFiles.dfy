/** INI files as the editor leaves them (ini_edit.go): what they hold once they are written
    and read again. In a file without a byte order mark, a first line that starts with one
    loses it. */
module IniFiles {
  import opened Text
  import opened Sequences
  import opened IniLines
  import opened IniSyntax
  import opened IniEdit
  import opened IniEnsure
  import opened IniTheorems

  function FileValues(spec: Spec, data: string, s: string, k: string): seq<string>
  {
    ValuesOf(Parse(spec, ReadFile(data).lines), Global, s, k)
  }

  /** The file with the key set to the value, as bytes. */
  function EnsuredFile(spec: Spec, data: string, value: string): string
  {
    var f := ReadFile(data);
    f.bom + Bytes(Ensured(spec, f.lines, value))
  }

  function RemovedLines(spec: Spec, lines: seq<Line>): seq<Line>
  {
    Removed(lines, All(FindKey(spec, lines).active))
  }

  /** The file without the key, as bytes. */
  function RemovedFile(spec: Spec, data: string): string
  {
    var f := ReadFile(data);
    f.bom + Bytes(RemovedLines(spec, f.lines))
  }

  lemma FileIsLoose(data: string)
    ensures Loose(ReadFile(data).lines)
  {
    if BOM <= data {
      LinesAreLoose(data[|BOM|..]);
    } else {
      LinesAreLoose(data);
    }
  }

  // ------------------------------------------------------------- the byte order mark

  predicate StartsMarked(lines: seq<Line>) { lines != [] && BOM <= lines[0].text }

  function WithoutMark(lines: seq<Line>): (r: seq<Line>)
    requires StartsMarked(lines)
    ensures |r| == |lines|
  {
    lines[0 := lines[0].(text := lines[0].text[|BOM|..])]
  }

  lemma MarkIsInFirstLine(lines: seq<Line>)
    requires Loose(lines)
    ensures BOM <= Bytes(lines) <==> StartsMarked(lines)
  {
    if lines != [] {
      var t, rest := lines[0].text, Bytes(lines[1..]);
      var b := t + lines[0].eol + rest;
      if lines[0].eol == "" {
        assert lines[1..] == [] && b == t;
      } else if |t| < |BOM| {
        assert b[|t|] == lines[0].eol[0] && b[|t|] != BOM[|t|];
      } else {
        assert b[..|BOM|] == t[..|BOM|];
      }
    }
  }

  lemma MarkInBytes(lines: seq<Line>)
    requires StartsMarked(lines)
    ensures Bytes(lines) == BOM + Bytes(WithoutMark(lines))
  {
    var l, rest := lines[0], lines[1..];
    var cut := l.(text := l.text[|BOM|..]);
    assert lines == [l] + rest && WithoutMark(lines) == [cut] + rest;
    BytesCons(l, rest);
    BytesCons(cut, rest);
    assert l.text == BOM + cut.text;
    assert BOM + cut.text + l.eol + Bytes(rest) == BOM + (cut.text + l.eol + Bytes(rest));
  }

  /** The lines of a file that was written with the mark `bom`, as they are read again. */
  function Again(bom: string, lines: seq<Line>): seq<Line>
  {
    Reread(if bom == "" && StartsMarked(lines) then WithoutMark(lines) else lines)
  }

  lemma WrittenReads(bom: string, lines: seq<Line>)
    requires Loose(lines) && (bom == "" || bom == BOM)
    ensures ReadFile(bom + Bytes(lines)).lines == Again(bom, lines)
  {
    hide Lines, Bytes, Reread;
    if bom == "" && StartsMarked(lines) {
      MarkInBytes(lines);
      LinesOfBytes(WithoutMark(lines));
      assert "" + Bytes(lines) == Bytes(lines);
      assert Bytes(lines)[|BOM|..] == Bytes(WithoutMark(lines));
    } else {
      MarkIsInFirstLine(lines);
      FileRereads(Contents(bom, lines));
    }
  }

  /** What the first line means once its mark is read as the file's. */
  function Bared(spec: Spec, text: string): Parsed
    requires BOM <= text
  {
    ParseLine(Delim(spec), text[|BOM|..])
  }

  lemma AgainValues(spec: Spec, bom: string, lines: seq<Line>, s: string, k: string)
    ensures bom == "" && StartsMarked(lines) ==>
      ValuesOf(Parse(spec, Again(bom, lines)), Global, s, k)
      == ValuesOf([Bared(spec, lines[0].text)] + Parse(spec, lines[1..]), Global, s, k)
    ensures !(bom == "" && StartsMarked(lines)) ==>
      ValuesOf(Parse(spec, Again(bom, lines)), Global, s, k) == ValuesOf(Parse(spec, lines), Global, s, k)
  {
    hide Parse, Reread, ValuesOf, ParseLine;
    if bom == "" && StartsMarked(lines) {
      RereadValues(spec, WithoutMark(lines), s, k);
      ParseCons(spec, WithoutMark(lines)[0], lines[1..]);
      assert WithoutMark(lines) == [WithoutMark(lines)[0]] + lines[1..];
    } else {
      RereadValues(spec, lines, s, k);
    }
  }

  lemma SpaceBefore(t: string, a: nat, at: nat)
    requires a <= |t| && AllSpace(t[..a])
    ensures at < a ==> IsSpace(t[at])
  {
    if at < a {
      assert t[..a][at] in t[..a];
    }
  }

  lemma SpaceBehind(t: string, b: nat, at: nat)
    requires b <= |t| && AllSpace(t[b..])
    ensures b <= at < |t| ==> IsSpace(t[at])
  {
    if b <= at < |t| {
      assert t[b..][at - b] in t[b..];
    }
  }

  lemma MarkIsNoSpace(s: string)
    requires BOM <= s
    ensures TrimSpace(s) != "" && TrimSpace(s)[0] == BOM[0]
  {
    hide TrimSpace;
    var a, b := TrimSpaceParts(s);
    SpaceBefore(s, a, 0);
    SpaceBehind(s, b, 0);
  }

  lemma MarkedLineIsKey(delim: string, text: string)
    requires BOM <= text
    ensures ParseLine(delim, text).KeyLine?
  {
    hide TrimSpace, IniSyntax.Split;
    MarkIsNoSpace(text);
  }

  lemma {:induction false} NoGlobalsUnder(ps: seq<Parsed>, name: string, k: string)
    ensures ValuesOf(ps, Under(name), "", k) == [] && CurOf(ps, Under(name)) != Global
  {
    if ps != [] {
      NoGlobalsUnder(ps[..|ps| - 1], name, k);
    }
  }

  lemma FirstLineGives(q: Parsed, rest: seq<Parsed>, k: string)
    ensures ValuesOf([q] + rest, Global, "", k)
         == Gives(q, Global, "", k) + if q.Section? then [] else ValuesOf(rest, Global, "", k)
  {
    hide ValuesOf, CurOf, Gives;
    ValuesAppend([q], rest, Global, "", k);
    OneLineValues(q, Global, "", k);
    if q.Section? {
      NoGlobalsUnder(rest, q.name, k);
    }
  }

  /** If a first key line is read as anything else, the values of its key change; a line of
      another key, or with another value, does not make up for it. */
  lemma FirstLineMatters(p: Parsed, q: Parsed, rest: seq<Parsed>)
    requires p.KeyLine? && q != p
    ensures ValuesOf([q] + rest, Global, "", p.key) != ValuesOf([p] + rest, Global, "", p.key)
  {
    hide ValuesOf;
    FirstLineGives(p, rest, p.key);
    FirstLineGives(q, rest, p.key);
    var more := ValuesOf(rest, Global, "", p.key);
    assert |[p.value] + more| == 1 + |more| && ([p.value] + more)[0] == p.value;
    if q.KeyLine? && q.key == p.key {
      assert ([q.value] + more)[0] == q.value;
    }
  }

  // ------------------------------------------------------------------------ ensure

  /** The written line becomes the file's first: it replaces the first line, which was not
      indented, or the key is added above everything else. */
  predicate BecomesFirst(spec: Spec, lines: seq<Line>, value: string)
  {
    var m := FindKey(spec, lines);
    if m.active != [] then
      lines != [] && m.active[0] == 0 && LeadingSpace(lines[0].text) == "" && !AlreadyFirst(spec, lines, value)
    else
      m.commented == [] && m.blocks != [] && m.firstHeader <= |lines|
      && m.blocks[|m.blocks| - 1].lastKey < 0 && m.blocks[|m.blocks| - 1].header < 0
      && (lines == [] || (m.firstHeader < |lines| && AboveComments(Parse(spec, lines), m.firstHeader) == 0))
  }

  lemma IndentedHasNoMark(spec: Spec, indent: string, value: string)
    requires AllBlank(indent) && indent != ""
    ensures !(BOM <= Render(spec, indent, value))
  {
    hide Keep;
    if Render(spec, indent, value) != "" {
      assert IsBlank(indent[0]);
      assert Render(spec, indent, value)[0] == indent[0];
    }
  }

  lemma RewrittenFirst(spec: Spec, lines: seq<Line>, value: string)
    requires FindKey(spec, lines).active != []
    ensures lines != [] && Ensured(spec, lines, value) != []
    ensures Ensured(spec, lines, value)[0].text
         == if FindKey(spec, lines).active[0] == 0 && !AlreadyFirst(spec, lines, value)
            then Render(spec, LeadingSpace(lines[0].text), value) else lines[0].text
  {
    hide FindKey, Parse, Render, LeadingSpace, ParseLine, ValuesOf, PlacesRight, ActiveAt;
    var active := FindKey(spec, lines).active;
    MatchIsRight(spec, lines);
    FirstIsActive(spec, lines);
    FirstLine(spec, lines);
    var l := Rewritten(spec, lines, active[0], value);
    WithoutKeepsFirst(l, Rest(active), |l|);
  }

  lemma InsertedFirst(lines: seq<Line>, idx: nat, texts: seq<string>)
    requires texts != []
    ensures Inserted(lines, idx, texts) != []
    ensures Inserted(lines, idx, texts)[0].text == if lines == [] || idx == 0 then texts[0] else lines[0].text
  {}

  lemma PlacedFirst(spec: Spec, lines: seq<Line>, value: string)
    requires FindKey(spec, lines).active == [] && FindKey(spec, lines).firstHeader <= |lines|
    ensures var add := Placement(spec, lines, Parse(spec, lines), FindKey(spec, lines), value);
      && add.texts != []
      && (lines == [] || add.at == 0 ==>
            if BecomesFirst(spec, lines, value) then add.texts[0] == Render(spec, "", value)
            else add.texts[0] != "" && add.texts[0][0] == '[')
      && (BecomesFirst(spec, lines, value) ==> lines == [] || add.at == 0)
  {
    hide FindKey, Parse, Render, LeadingSpace, AboveComments, TrimSpace;
    PlacesAreLines(spec, lines);
  }

  lemma EnsuredFirst(spec: Spec, lines: seq<Line>, value: string)
    requires !StartsMarked(lines)
    ensures StartsMarked(Ensured(spec, lines, value)) <==>
      BecomesFirst(spec, lines, value) && BOM <= Render(spec, "", value)
    ensures StartsMarked(Ensured(spec, lines, value)) ==>
      Ensured(spec, lines, value)[0].text == Render(spec, "", value)
  {
    hide FindKey, Parse, Render, LeadingSpace, Placement, Inserted, AboveComments;
    if FindKey(spec, lines).active != [] {
      RewrittenFirst(spec, lines, value);
      LeadingSpaceIsBlank(lines[0].text);
      if LeadingSpace(lines[0].text) != "" {
        IndentedHasNoMark(spec, LeadingSpace(lines[0].text), value);
      }
    } else {
      PlacesAreLines(spec, lines);
      PlacedFirst(spec, lines, value);
      var add := Placement(spec, lines, Parse(spec, lines), FindKey(spec, lines), value);
      InsertedFirst(lines, add.at, add.texts);
    }
  }

  /** The written line is lost: in a file without a mark it becomes the first line and starts
      with one, and without it the line means something else. */
  predicate Swallowed(spec: Spec, data: string, value: string)
  {
    var line := Render(spec, "", value);
    && !(BOM <= data) && BecomesFirst(spec, ReadFile(data).lines, value)
    && BOM <= line && ParseLine(Delim(spec), line[|BOM|..]) != KeyLine(spec.key, value)
  }

  lemma FileIsUnmarked(data: string)
    ensures ReadFile(data).bom == "" <==> !(BOM <= data)
    ensures !(BOM <= data) ==> !StartsMarked(ReadFile(data).lines)
  {
    hide Lines, Bytes;
    if !(BOM <= data) {
      FileIsLoose(data);
      BytesOfLines(data);
      MarkIsInFirstLine(ReadFile(data).lines);
    }
  }

  lemma EnsuredReads(spec: Spec, data: string, value: string)
    requires ValidSpec(spec) && ValidValue(value)
    ensures var f := ReadFile(data);
      ReadFile(EnsuredFile(spec, data, value)).lines == Again(f.bom, Ensured(spec, f.lines, value))
  {
    hide ValidSpec, ValidValue, Ensured, Bytes, Again, Loose, Lines;
    var f := ReadFile(data);
    FileIsLoose(data);
    EnsuredIsLoose(spec, f.lines, value);
    WrittenReads(f.bom, Ensured(spec, f.lines, value));
  }

  /** The values in a file whose written first line starts with a mark. */
  lemma FirstLineValues(spec: Spec, data: string, value: string, s: string, k: string)
    requires ValidSpec(spec) && ValidValue(value)
    requires !(BOM <= data) && StartsMarked(Ensured(spec, ReadFile(data).lines, value))
    ensures var e, line := Ensured(spec, ReadFile(data).lines, value), Render(spec, "", value);
      && BOM <= line && line == e[0].text
      && FileValues(spec, EnsuredFile(spec, data, value), s, k)
         == ValuesOf([Bared(spec, line)] + Parse(spec, e[1..]), Global, s, k)
      && Parse(spec, e) == [ParseLine(Delim(spec), line)] + Parse(spec, e[1..])
      && (Holds(spec, ReadFile(data).lines, value) <==> ReadsBack(spec, value))
  {
    hide ValidSpec, ValidValue, Ensured, Again, ReadsBack, Parse, ParseLine, ValuesOf, Render, ReadFile, EnsuredFile;
    var lines := ReadFile(data).lines;
    var e := Ensured(spec, lines, value);
    FileIsUnmarked(data);
    EnsuredFirst(spec, lines, value);
    EnsuredReads(spec, data, value);
    AgainValues(spec, "", e, s, k);
    ParseCons(spec, e[0], e[1..]);
    assert e == [e[0]] + e[1..];
  }

  lemma FirstIsGlobal(spec: Spec, lines: seq<Line>, value: string)
    requires BecomesFirst(spec, lines, value)
    ensures spec.section == ""
  {
    hide FindKey, Parse, ValuesOf, AboveComments, LeadingSpace, AlreadyFirst;
    MatchIsRight(spec, lines);
    var m := FindKey(spec, lines);
    if m.active != [] {
      assert m.active[0] in m.active && ActiveAt(Parse(spec, lines), spec.section, spec.key, 0);
      assert Parse(spec, lines)[..0] == [];
    } else {
      assert m.blocks[|m.blocks| - 1] in m.blocks;
    }
  }

  /** A first line that starts with a mark, if it is read back with it. */
  lemma ReadFirstLine(spec: Spec, data: string, value: string)
    requires ValidSpec(spec) && ValidValue(value) && ReadsBack(spec, value)
    requires !(BOM <= data) && StartsMarked(Ensured(spec, ReadFile(data).lines, value))
    ensures Swallowed(spec, data, value) ==>
      FileValues(spec, EnsuredFile(spec, data, value), spec.section, spec.key) != [value]
    ensures !Swallowed(spec, data, value) ==> forall s, k ::
      FileValues(spec, EnsuredFile(spec, data, value), s, k)
      == ValuesOf(Parse(spec, Ensured(spec, ReadFile(data).lines, value)), Global, s, k)
  {
    hide ValidSpec, ValidValue, Ensured, ReadsBack, Parse, ParseLine, ValuesOf, Render, ReadFile, EnsuredFile, Holds,
      FileValues, BecomesFirst;
    var lines := ReadFile(data).lines;
    var e, line := Ensured(spec, lines, value), Render(spec, "", value);
    FileIsUnmarked(data);
    EnsuredFirst(spec, lines, value);
    FirstIsGlobal(spec, lines, value);
    RenderReadsBack(spec, "", value);
    forall s, k ensures FileValues(spec, EnsuredFile(spec, data, value), s, k)
                     == ValuesOf([Bared(spec, line)] + Parse(spec, e[1..]), Global, s, k)
    {
      FirstLineValues(spec, data, value, s, k);
    }
    FirstLineValues(spec, data, value, "", "");
    if Swallowed(spec, data, value) {
      FirstLineMatters(KeyLine(spec.key, value), Bared(spec, line), Parse(spec, e[1..]));
      EnsuredValues(spec, lines, value, "", spec.key);
    }
  }

  // ------------------------------------------- what is left of a line without its mark

  lemma SliceTrims(r: string, lead: string, a: nat, c: nat)
    requires AllSpace(lead) && a <= c <= |r| + |lead|
    ensures |TrimSpace((r + lead)[a..c])| <= |r|
  {
    hide TrimSpace;
    var x := (r + lead)[a..c];
    if c <= |r| {
      TrimIsNoLonger(x);
    } else if a <= |r| {
      var tail := lead[..c - |r|];
      assert x == r[a..] + tail;
      TrimsBehind(r[a..], tail);
      TrimIsNoLonger(r[a..]);
    } else {
      assert AllSpace(x) by { assert x == lead[a - |r|..c - |r|]; }
      assert "" + x == x;
      TrimsBehind("", x);
      TrimIsNoLonger("");
    }
  }

  lemma NoSpaceIn(s: string)
    requires !HasInnerSpace(s) && OneLine(s)
    ensures forall c :: c in s ==> !IsSpace(c)
  {}

  /** Trimming a text does not cut into what has no white space. */
  lemma TrimKeeps(t: string, d: string, at: nat) returns (a: nat)
    requires d != "" && !HasInnerSpace(d) && OneLine(d) && Occurs(t, d, at)
    ensures a <= at && a + |TrimSpace(t)| <= |t| && TrimSpace(t) == t[a..a + |TrimSpace(t)|]
    ensures Occurs(TrimSpace(t), d, at - a)
  {
    hide TrimSpace;
    var b;
    a, b := TrimSpaceParts(t);
    NoSpaceIn(d);
    assert t[at..at + |d|] == d && d[0] in d && d[|d| - 1] in d;
    assert t[at] == t[at..at + |d|][0] && t[at + |d| - 1] == t[at..at + |d|][|d| - 1];
    SpaceBefore(t, a, at);
    SpaceBehind(t, b, at + |d| - 1);
    SliceOfSlice(t, a, b, at, |d|);
  }

  lemma SliceOfSlice(t: string, a: nat, b: nat, at: nat, n: nat)
    requires a <= at && at + n <= b <= |t|
    ensures t[a..b][at - a..at - a + n] == t[at..at + n]
  {
    var s, x, y := t[a..b], t[a..b][at - a..at - a + n], t[at..at + n];
    forall i | 0 <= i < n ensures x[i] == y[i] {
      assert x[i] == s[at - a + i] == t[at + i];
    }
  }

  lemma PrefixSlice(x: string, y: string, a: nat, c: nat)
    requires a <= c <= |x|
    ensures (x + y)[a..c] == x[a..c]
  {
    forall i | 0 <= i < c - a ensures (x + y)[a..c][i] == x[a..c][i] {}
  }

  /** With a delimiter, what is read as the key is no longer than what stands before it. */
  lemma KeyIsNoLonger(r: string, lead: string, delim: string, rest: string)
    requires delim != "" && !HasInnerSpace(delim) && OneLine(delim) && AllSpace(lead)
    ensures var p := ParseLine(delim, r + lead + delim + rest); p.KeyLine? ==> |p.key| <= |r|
  {
    hide TrimSpace, HasInnerSpace, OneLine, IndexOf;
    var t, at := r + lead + delim + rest, |r| + |lead|;
    assert t[at..at + |delim|] == delim;
    var a := TrimKeeps(t, delim, at);
    var trimmed := TrimSpace(t);
    IndexIsFirst(trimmed, delim, 0, at - a);
    var i := IndexOf(trimmed, delim, 0).value;
    SliceOfSlice(t, a, a + |trimmed|, a, i);
    PrefixSlice(r + lead, delim + rest, a, a + i);
    assert t == r + lead + (delim + rest) && trimmed[..i] == trimmed[0..i];
    SliceTrims(r, lead, a, a + i);
    if ParseLine(delim, t).KeyLine? {
      SplitAtIndex(delim, trimmed, i);
    }
  }

  /** With white space as the separator, the rest of a marked line reads as another key, or
      its value as key and value. */
  lemma WhiteSeparatorCuts(key: string, sep: string, value: string)
    requires BOM <= key && OneLine(key) && !HasInnerSpace(key) && sep != "" && AllSpace(sep)
    requires TrimSpace(value) == value
    ensures ParseLine("", key[|BOM|..] + sep + value) != KeyLine(key, value)
  {
    hide TrimSpace;
    var r := key[|BOM|..];
    var t := r + sep + value;
    var trimmed := TrimSpace(t);
    if r == "" {
      assert t == sep + value;
      TrimsBefore(sep, value);
      TrimIsNoLonger(trimmed[FirstBlank(trimmed)..]);
    } else {
      NoSpaceIn(key);
      assert forall c :: c in r ==> c in key;
      AfterRest(r, sep, value);
      var kv := IniSyntax.Split("", trimmed);
      assert kv.key == trimmed[..|kv.key|];
      assert |r| < |kv.key| ==> kv.key[|r|] == trimmed[|r|] && kv.key[|r|] in kv.key;
    }
  }

  /** What follows a text without white space is the separator's. */
  lemma AfterRest(r: string, sep: string, value: string)
    requires r != "" && (forall c :: c in r ==> !IsSpace(c)) && sep != "" && AllSpace(sep)
    ensures var trimmed := TrimSpace(r + sep + value); |r| < |trimmed| ==> IsSpace(trimmed[|r|])
  {
    hide TrimSpace;
    var t := r + sep + value;
    var a, b := TrimSpaceParts(t);
    assert t[0] == r[0] && r[0] in r && t[|r|] == sep[0] && sep[0] in sep;
    SpaceBefore(t, a, 0);
  }

  lemma KeepsUpTo(s: string, k: nat)
    requires k < |s| && !IsBlank(s[k])
    ensures k < Keep(s, IsBlank, 0, |s|)
  {}

  lemma BaredTail(body: string, n: nat)
    requires |BOM| <= n <= |BOM + body| && forall i :: n <= i < |BOM + body| ==> IsBlank((BOM + body)[i])
    ensures TrimSpace((BOM + body)[..n][|BOM|..]) == TrimSpace(body)
  {
    hide TrimSpace;
    var m := n - |BOM|;
    var tail := body[m..];
    assert (BOM + body)[..n][|BOM|..] == body[..m] && body == body[..m] + tail;
    forall i | 0 <= i < |tail| ensures IsSpace(tail[i]) {
      assert tail[i] == (BOM + body)[n + i];
    }
    TrimsBehind(body[..m], tail);
  }

  lemma BaredTrims(spec: Spec, value: string)
    requires BOM <= spec.key
    ensures BOM <= Render(spec, "", value)
    ensures TrimSpace(Render(spec, "", value)[|BOM|..])
         == TrimSpace(spec.key[|BOM|..] + spec.separator + value)
  {
    hide TrimSpace, Keep;
    var body := spec.key[|BOM|..] + spec.separator + value;
    var line := "" + spec.key + spec.separator + value;
    assert line == BOM + body;
    if value == "" {
      var n := Keep(line, IsBlank, 0, |line|);
      KeepsUpTo(line, |BOM| - 1);
      BaredTail(body, n);
    } else {
      assert line[|BOM|..] == body;
    }
  }

  /** Without the mark, a line whose key starts with one never reads as the key and value. */
  lemma MarkedKeyIsCut(spec: Spec, value: string)
    requires ValidSpec(spec) && ValidValue(value) && BOM <= spec.key
    ensures BOM <= Render(spec, "", value)
    ensures ParseLine(Delim(spec), Render(spec, "", value)[|BOM|..]) != KeyLine(spec.key, value)
  {
    hide TrimSpace, ParseLine, Render, HasInnerSpace, OneLine;
    var delim, r := Delim(spec), spec.key[|BOM|..];
    BaredTrims(spec, value);
    ParseTrimmed(delim, Render(spec, "", value)[|BOM|..], r + spec.separator + value);
    var lead, trail := SeparatorParts(spec.separator);
    if delim == "" {
      assert AllSpace(spec.separator);
      WhiteSeparatorCuts(spec.key, spec.separator, value);
    } else {
      DelimIsOneLine(spec.separator);
      KeyIsNoLonger(r, lead, delim, trail + value);
      assert r + spec.separator + value == r + lead + delim + (trail + value);
    }
  }

  lemma MarkInKey(key: string, rest: string)
    ensures BOM <= key + rest && |BOM| <= |key| ==> BOM <= key
  {
    if |BOM| <= |key| {
      assert key[..|BOM|] == (key + rest)[..|BOM|];
    }
  }

  lemma MarkGoesOn(key: string, rest: string)
    requires BOM <= key + rest && !(BOM <= key)
    ensures |key| < |BOM| && rest != "" && rest[0] == BOM[|key|]
    ensures forall i :: 0 <= i < |key| ==> key[i] == BOM[i]
  {
    MarkInKey(key, rest);
    var s := key + rest;
    assert forall i :: 0 <= i < |BOM| ==> s[i] == BOM[i];
  }

  lemma StartsSpace(lead: string, rest: string)
    requires AllSpace(lead)
    ensures lead != "" ==> IsSpace((lead + rest)[0])
  {
    if lead != "" {
      assert (lead + rest)[0] == lead[0] && lead[0] in lead;
    }
  }

  lemma LeadOfDelim(sep: string)
    requires sep != "" && !IsSpace(sep[0])
    ensures TrimSpace(sep) != "" && TrimSpace(sep)[0] == sep[0]
  {
    hide TrimSpace;
    var lead, trail := SeparatorParts(sep);
    StartsSpace(lead, TrimSpace(sep) + trail);
    StartsSpace(trail, "");
    assert sep == lead + (TrimSpace(sep) + trail) && trail + "" == trail;
  }

  lemma RenderStarts(spec: Spec, value: string)
    requires BOM <= Render(spec, "", value)
    ensures BOM <= spec.key + (spec.separator + value)
  {
    hide Keep;
    assert "" + spec.key + spec.separator + value == spec.key + (spec.separator + value);
  }

  /** The bytes of a mark differ: if they begin with less than a whole key, the delimiter
      begins right after it. */
  lemma ShortKeyReadsBack(spec: Spec, value: string)
    requires ValidSpec(spec) && ValidValue(value)
    requires BOM <= Render(spec, "", value) && !(BOM <= spec.key)
    ensures ReadsBack(spec, value)
  {
    hide HasInnerSpace, OneLine, IndexOf, TrimSpace, IniSyntax.Lead, Render, ValidValue, ValidKey;
    var key, sep, delim := spec.key, spec.separator, Delim(spec);
    RenderStarts(spec, value);
    MarkGoesOn(key, sep + value);
    assert (sep + value)[0] == sep[0];
    LeadOfDelim(sep);
    FirstAtKey(key, delim);
  }

  lemma FirstAtKey(key: string, delim: string)
    requires delim != "" && |key| < |BOM| && delim[0] == BOM[|key|]
    requires forall i :: 0 <= i < |key| ==> key[i] == BOM[i]
    ensures IndexOf(key + delim, delim, 0) == Some(|key|)
  {
    hide IndexOf;
    var s := key + delim;
    assert s[|key|..|key| + |delim|] == delim;
    IndexIsFirst(s, delim, 0, |key|);
    var i := IndexOf(s, delim, 0).value;
    assert s[i..i + |delim|][0] == s[i];
  }

  // ------------------------------------------------------------------ the theorems

  /** A first line that starts with a mark, if it is not read back with it. */
  lemma UnreadFirstLine(spec: Spec, data: string, value: string)
    requires ValidSpec(spec) && ValidValue(value) && !ReadsBack(spec, value)
    requires !(BOM <= data) && StartsMarked(Ensured(spec, ReadFile(data).lines, value))
    ensures FileValues(spec, EnsuredFile(spec, data, value), spec.section, spec.key) != [value]
  {
    hide ValidSpec, ValidValue, Ensured, ReadsBack, Parse, ParseLine, ValuesOf, Render, ReadFile, EnsuredFile, Holds,
      FileValues, BecomesFirst;
    var lines := ReadFile(data).lines;
    var e, line := Ensured(spec, lines, value), Render(spec, "", value);
    FileIsUnmarked(data);
    EnsuredFirst(spec, lines, value);
    FirstIsGlobal(spec, lines, value);
    RenderReadsBack(spec, "", value);
    FirstLineValues(spec, data, value, "", spec.key);
    if BOM <= spec.key {
      MarkedKeyIsCut(spec, value);
    } else {
      ShortKeyReadsBack(spec, value);
    }
    EnsuredValues(spec, lines, value, "", spec.key);
    var p, q, rest := ParseLine(Delim(spec), line), Bared(spec, line), Parse(spec, e[1..]);
    FirstLineGives(p, rest, spec.key);
    FirstLineGives(q, rest, spec.key);
    assert |Gives(p, Global, "", spec.key) + ValuesOf(rest, Global, "", spec.key)| == 0;
    assert Gives(q, Global, "", spec.key) != [value];
    assert Gives(q, Global, "", spec.key) + [] == Gives(q, Global, "", spec.key);
  }

  /** After ensure the file, written and read again, has exactly the value for the key, if
      and only if the key and value are read back or the value was there, and the written
      line is not swallowed; and then the values of every other key of every section are
      as before. */
  lemma EnsureSetsTheKey(spec: Spec, data: string, value: string)
    requires ValidSpec(spec) && ValidValue(value)
    ensures var out := EnsuredFile(spec, data, value);
      var good := Holds(spec, ReadFile(data).lines, value) && !Swallowed(spec, data, value);
      && (FileValues(spec, out, spec.section, spec.key) == [value] <==> good)
      && (good ==> forall s, k :: !(s == spec.section && k == spec.key) ==>
            FileValues(spec, out, s, k) == FileValues(spec, data, s, k))
  {
    hide ValidSpec, ValidValue, Ensured, ReadsBack, Parse, ParseLine, ValuesOf, Render, ReadFile, EnsuredFile, Again,
      BecomesFirst, Holds, StartsMarked;
    var f, out := ReadFile(data), EnsuredFile(spec, data, value);
    var e := Ensured(spec, f.lines, value);
    FileIsUnmarked(data);
    if !(BOM <= data) && StartsMarked(e) {
      FirstLineValues(spec, data, value, "", "");
      if ReadsBack(spec, value) {
        ReadFirstLine(spec, data, value);
      } else {
        UnreadFirstLine(spec, data, value);
      }
    } else if !(BOM <= data) {
      EnsuredFirst(spec, f.lines, value);
    }
    EnsuredReads(spec, data, value);
    forall s, k ensures SetsOnly(spec, value, Holds(spec, f.lines, value), Parse(spec, f.lines), Parse(spec, e), s, k)
    {
      EnsuredValues(spec, f.lines, value, s, k);
    }
    forall s, k | !(f.bom == "" && StartsMarked(e))
      ensures FileValues(spec, out, s, k) == ValuesOf(Parse(spec, e), Global, s, k)
    {
      AgainValues(spec, f.bom, e, s, k);
    }
    assert SetsOnly(spec, value, Holds(spec, f.lines, value), Parse(spec, f.lines), Parse(spec, e), spec.section, spec.key);
    forall s, k | Holds(spec, f.lines, value) && !Swallowed(spec, data, value) && !(s == spec.section && k == spec.key)
      ensures FileValues(spec, out, s, k) == FileValues(spec, data, s, k)
    {
      assert SetsOnly(spec, value, Holds(spec, f.lines, value), Parse(spec, f.lines), Parse(spec, e), s, k);
    }
  }

  /** A second ensure of the same value, on the file as it is read again, reports no change
      if and only if the file holds the value; and then it leaves the bytes as they are. */
  lemma EnsureIsIdempotent(spec: Spec, data: string, value: string)
    requires ValidSpec(spec) && ValidValue(value)
    ensures var out := EnsuredFile(spec, data, value);
      var good := Holds(spec, ReadFile(data).lines, value) && !Swallowed(spec, data, value);
      && (!Changes(spec, ReadFile(out).lines, value) <==> good)
      && (good ==> EnsuredFile(spec, out, value) == out)
  {
    hide ValidSpec, ValidValue, Ensured, Render, Holds, ReadFile, Parse, ValuesOf, Bytes, Changes, Swallowed;
    var out := EnsuredFile(spec, data, value);
    EnsureSetsTheKey(spec, data, value);
    if Holds(spec, ReadFile(data).lines, value) && !Swallowed(spec, data, value) {
      SettledIsUnchanged(spec, ReadFile(out).lines, value);
      FileReadsBack(out);
    } else if !Changes(spec, ReadFile(out).lines, value) {
      UnchangedIsSettled(spec, ReadFile(out).lines, value);
    }
  }

  /** In a file without a mark, what is removed uncovers a line that starts with one, and
      without it that line means something else. */
  predicate UncoversMark(spec: Spec, data: string)
  {
    var after := RemovedLines(spec, ReadFile(data).lines);
    !(BOM <= data) && StartsMarked(after) && Bared(spec, after[0].text) != ParseLine(Delim(spec), after[0].text)
  }

  ghost predicate RemovesOnly(spec: Spec, data: string)
  {
    forall s, k :: FileValues(spec, RemovedFile(spec, data), s, k)
                == if s == spec.section && k == spec.key then [] else FileValues(spec, data, s, k)
  }

  lemma RemovedReads(spec: Spec, data: string, s: string, k: string)
    ensures FileValues(spec, RemovedFile(spec, data), s, k)
         == ValuesOf(Parse(spec, Again(ReadFile(data).bom, RemovedLines(spec, ReadFile(data).lines))), Global, s, k)
    ensures ValuesOf(Parse(spec, RemovedLines(spec, ReadFile(data).lines)), Global, s, k)
         == if s == spec.section && k == spec.key then [] else FileValues(spec, data, s, k)
  {
    hide FindKey, Removed, Again, Parse, ValuesOf, Lines, Bytes, Loose;
    var f := ReadFile(data);
    FileIsLoose(data);
    RemovedIsLoose(f.lines, All(FindKey(spec, f.lines).active));
    WrittenReads(f.bom, RemovedLines(spec, f.lines));
    RemovedValues(spec, f.lines, s, k);
  }

  /** After remove, in the file written and read again, the key has no value and every other
      key those it had, if and only if no line that starts with a mark is uncovered. */
  lemma RemoveRemovesTheKey(spec: Spec, data: string)
    ensures RemovesOnly(spec, data) <==> !UncoversMark(spec, data)
  {
    hide RemovedLines, Parse, ParseLine, ValuesOf, ReadFile, RemovedFile, Again, FileValues;
    var f := ReadFile(data);
    var after := RemovedLines(spec, f.lines);
    FileIsUnmarked(data);
    if UncoversMark(spec, data) {
      var p, q, rest := ParseLine(Delim(spec), after[0].text), Bared(spec, after[0].text), Parse(spec, after[1..]);
      MarkedLineIsKey(Delim(spec), after[0].text);
      FirstLineMatters(p, q, rest);
      ParseCons(spec, after[0], after[1..]);
      assert after == [after[0]] + after[1..];
      AgainValues(spec, f.bom, after, "", p.key);
      RemovedReads(spec, data, "", p.key);
    } else {
      forall s, k ensures FileValues(spec, RemovedFile(spec, data), s, k)
                       == if s == spec.section && k == spec.key then [] else FileValues(spec, data, s, k)
      {
        AgainValues(spec, f.bom, after, s, k);
        RemovedReads(spec, data, s, k);
        if after != [] {
          ParseCons(spec, after[0], after[1..]);
          assert after == [after[0]] + after[1..];
        }
      }
    }
  }

  // --------------------------------------------------------------------- two examples

  const MARKED := Spec("", BOM + "k", "=")

  lemma MarkedIsValid()
    ensures ValidSpec(MARKED) && ValidValue("v") && Delim(MARKED) == "="
    ensures Render(MARKED, "", "v") == BOM + "k=v"
  {
    hide TrimSpace;
    TrimSpaceOfTrimmed("=");
    TrimSpaceOfTrimmed("");
    TrimSpaceOfTrimmed("v");
    TrimSpaceOfTrimmed(BOM + "k");
    assert Render(MARKED, "", "v") == BOM + "k=v";
  }

  lemma MarkedFile()
    ensures EnsuredFile(MARKED, "", "v") == BOM + "k=v\n"
  {
    MarkedIsValid();
    hide ValidSpec, ValidValue, Render, TrimSpace;
    assert Lines("") == [] && Texts([]) == [];
    var add := Placement(MARKED, [], Parse(MARKED, []), FindKey(MARKED, []), "v");
    assert add == Addition(0, [BOM + "k=v"]);
    assert Inserted([], 0, add.texts) == [Line(BOM + "k=v", "\n")];
    assert Ensured(MARKED, [], "v") == [Line(BOM + "k=v", "\n")];
    assert Bytes([]) == "" && Bytes([Line(BOM + "k=v", "\n")]) == BOM + "k=v" + "\n" + "";
  }

  lemma MarkedLines()
    ensures ReadFile(BOM + "k=v\n") == Contents(BOM, [Line("k=v", "\n")])
  {
    hide Lines, ReadLine, Text.Find;
    var data := BOM + "k=v\n";
    assert data[|BOM|..] == "k=v\n";
    FindAfter("k=v", '\n', "");
    assert "k=v" + ['\n'] + "" == "k=v\n";
    LinesStep("k=v\n");
    assert "k=v\n"[..3] == "k=v" && "k=v\n"[4..] == "";
    OneTerminated();
  }

  lemma OneTerminated()
    ensures ReadLine("k=v") == Line("k=v", "\n") && Lines("") == []
  {}

  lemma MarkedReads()
    ensures FileValues(MARKED, BOM + "k=v\n", "", BOM + "k") == []
  {
    hide ReadFile, ParseLine, TrimSpace;
    MarkedIsValid();
    MarkedLines();
    MarkedParses();
    var ps := Parse(MARKED, [Line("k=v", "\n")]);
    assert ps == [KeyLine("k", "v")] && ps[..|ps| - 1] == [];
    assert |BOM + "k"| != |"k"|;
    assert Gives(ps[0], Global, "", BOM + "k") == [] && ValuesOf([], Global, "", BOM + "k") == [];
    assert ReadFile(BOM + "k=v\n").lines == [Line("k=v", "\n")];
  }

  lemma MarkedParses()
    ensures ParseLine("=", "k=v") == KeyLine("k", "v")
  {
    hide ParseLine, TrimSpace, IndexOf, ReadsBack;
    var spec := Spec("", "k", "=");
    TrimSpaceOfTrimmed("=");
    TrimSpaceOfTrimmed("");
    TrimSpaceOfTrimmed("v");
    TrimSpaceOfTrimmed("k");
    OneByteReadsBack(spec, "v");
    RenderReadsBack(spec, "", "v");
    assert Render(spec, "", "v") == "k=v";
  }

  /** A written line that starts with a byte order mark: at the start of a file, the mark is
      read as the file's own, and the value is not found under its key. */
  lemma MarkedKeyIsLost()
    ensures ValidSpec(MARKED) && ValidValue("v") && ReadsBack(MARKED, "v") && BOM <= Render(MARKED, "", "v")
    ensures FileValues(MARKED, EnsuredFile(MARKED, "", "v"), "", BOM + "k") == []
  {
    hide ValidSpec, ValidValue, ReadsBack, Delim, EnsuredFile, FileValues;
    MarkedIsValid();
    OneByteReadsBack(MARKED, "v");
    MarkedFile();
    MarkedReads();
  }

  const COVERING := Spec("", "a", "=")
  const COVERED := "a=1\n" + (BOM + "k=v\n")
  const COVERED_LINES := [Line("a=1", "\n"), Line(BOM + "k=v", "\n")]

  lemma CoveredReads()
    ensures ReadFile(COVERED) == Contents("", COVERED_LINES)
  {
    hide Lines, ReadLine;
    assert COVERED[0] != BOM[0];
    LinesOfTerminated("a=1", BOM + "k=v\n");
    LinesOfTerminated(BOM + "k=v", "");
    assert "a=1" + "\n" + (BOM + "k=v\n") == COVERED && BOM + "k=v" + "\n" + "" == BOM + "k=v\n";
    CoveredEnds();
  }

  lemma CoveredEnds()
    ensures ReadLine("a=1") == Line("a=1", "\n") && ReadLine(BOM + "k=v") == Line(BOM + "k=v", "\n") && Lines("") == []
  {}

  lemma CoveredParses()
    ensures Delim(COVERING) == "="
    ensures Parse(COVERING, COVERED_LINES) == [KeyLine("a", "1"), KeyLine(BOM + "k", "v")]
  {
    hide ParseLine, TrimSpace, IndexOf, ReadsBack;
    MarkedIsValid();
    TrimSpaceOfTrimmed("=");
    TrimSpaceOfTrimmed("");
    TrimSpaceOfTrimmed("1");
    TrimSpaceOfTrimmed("a");
    OneByteReadsBack(COVERING, "1");
    RenderReadsBack(COVERING, "", "1");
    OneByteReadsBack(MARKED, "v");
    RenderReadsBack(MARKED, "", "v");
    assert Render(COVERING, "", "1") == "a=1";
  }

  lemma CoveredRemoved()
    ensures RemovedFile(COVERING, COVERED) == BOM + "k=v\n"
  {
    hide ReadFile, ParseLine, Delim;
    CoveredReads();
    CoveredParses();
    var ps := Parse(COVERING, COVERED_LINES);
    assert FindUpTo("", "a", ps, 1).active == [0] && FindUpTo("", "a", ps, 2).active == [0];
    assert All([0]) == {0};
    assert Without(COVERED_LINES, {0}, 0) == [] && Without(COVERED_LINES, {0}, 1) == [];
    assert Without(COVERED_LINES, {0}, 2) == [] + [COVERED_LINES[1]] == [COVERED_LINES[1]];
    assert RemovedLines(COVERING, COVERED_LINES) == [COVERED_LINES[1]];
    BytesCons(COVERED_LINES[1], []);
    assert Bytes([]) == "" && [COVERED_LINES[1]] + [] == [COVERED_LINES[1]];
    assert RemovedFile(COVERING, COVERED) == "" + Bytes([COVERED_LINES[1]]);
    assert "" + (BOM + "k=v\n") == BOM + "k=v\n";
  }

  /** Removing the first line of a file uncovers a line that starts with a mark: the value
      of its key is not found any more. */
  lemma UncoveredKeyIsLost()
    ensures ValidSpec(COVERING) && FileValues(COVERING, COVERED, "", BOM + "k") == ["v"]
    ensures FileValues(COVERING, RemovedFile(COVERING, COVERED), "", BOM + "k") == []
  {
    hide ReadFile, ParseLine, RemovedFile;
    CoveredReads();
    CoveredParses();
    CoveredRemoved();
    MarkedIsValid();
    MarkedReads();
    var ps := Parse(COVERING, COVERED_LINES);
    assert ps[..1] == [KeyLine("a", "1")] && ps[..1][..0] == [];
    assert ps == ps[..1] + [KeyLine(BOM + "k", "v")];
    assert CurOf(ps[..1], Global) == Global && ValuesOf(ps[..1], Global, "", BOM + "k") == [];
  }
}
