/** An INI file as lines that keep their terminators (ini_edit.go): reading, writing,
    inserting and removing lines. */
module IniLines {
  import opened Text
  import opened Sequences

  /** `eol` is "\n", "\r\n", or "" for an unterminated last line. */
  datatype Line = Line(text: string, eol: string)

  const BOM := "\U{00EF}\U{00BB}\U{00BF}"

  // ------------------------------------------------------------- reading and writing

  predicate EndsInCr(s: string) { s != "" && s[|s| - 1] == '\r' }

  /** A terminated line whose text, before the "\n", is `t`. */
  function ReadLine(t: string): Line
  {
    if EndsInCr(t) then Line(t[..|t| - 1], "\r\n") else Line(t, "\n")
  }

  function Lines(s: string): seq<Line>
    decreases |s|
  {
    if s == "" then []
    else
      var i := Find(s, '\n');
      if i == |s| then [Line(s, "")] else [ReadLine(s[..i])] + Lines(s[i + 1..])
  }

  function Bytes(lines: seq<Line>): string
  {
    if lines == [] then "" else lines[0].text + lines[0].eol + Bytes(lines[1..])
  }

  lemma ReadLineWrites(t: string)
    ensures ReadLine(t).text + ReadLine(t).eol == t + "\n"
  {}

  /** The first line of a text that has a line feed, and what comes after it. */
  lemma LinesStep(s: string)
    requires '\n' in s
    ensures var i := Find(s, '\n');
      i < |s| && Lines(s) == [ReadLine(s[..i])] + Lines(s[i + 1..])
  {
    hide ReadLine, Find;
  }

  lemma BytesCons(l: Line, rest: seq<Line>)
    ensures Bytes([l] + rest) == l.text + l.eol + Bytes(rest)
  {}

  lemma CutAt(s: string, i: nat)
    requires i < |s| && s[i] == '\n'
    ensures s == s[..i] + "\n" + s[i + 1..]
  {}

  /** Writing what was read gives the same bytes. */
  lemma {:induction false} BytesOfLines(s: string)
    ensures Bytes(Lines(s)) == s
    decreases |s|
  {
    hide Lines, Bytes, ReadLine;
    if '\n' in s {
      var i := Find(s, '\n');
      LinesStep(s);
      BytesOfLines(s[i + 1..]);
      ReadLineWrites(s[..i]);
      BytesCons(ReadLine(s[..i]), Lines(s[i + 1..]));
      CutAt(s, i);
    } else {
      LastLine(s);
    }
  }

  lemma LastLine(s: string)
    requires '\n' !in s
    ensures Lines(s) == (if s == "" then [] else [Line(s, "")]) && Bytes(Lines(s)) == s
  {}

  /** Lines as the editor leaves them: only the last one may be unterminated. */
  ghost predicate Loose(lines: seq<Line>)
  {
    forall i :: 0 <= i < |lines| ==>
      && '\n' !in lines[i].text
      && (lines[i].eol == "\n" || lines[i].eol == "\r\n" || (lines[i].eol == "" && i == |lines| - 1))
  }

  lemma LooseCons(l: Line, rest: seq<Line>)
    requires '\n' !in l.text && (l.eol == "\n" || l.eol == "\r\n") && Loose(rest)
    ensures Loose([l] + rest)
  {}

  lemma ReadLineIsTerminated(t: string)
    requires '\n' !in t
    ensures '\n' !in ReadLine(t).text && (ReadLine(t).eol == "\n" || ReadLine(t).eol == "\r\n")
  {}

  lemma {:induction false} LinesAreLoose(s: string)
    ensures Loose(Lines(s))
    decreases |s|
  {
    hide Lines, ReadLine, Loose;
    if '\n' in s {
      var i := Find(s, '\n');
      LinesStep(s);
      LinesAreLoose(s[i + 1..]);
      ReadLineIsTerminated(s[..i]);
      LooseCons(ReadLine(s[..i]), Lines(s[i + 1..]));
    } else {
      LastLine(s);
      OneLineIsLoose(s);
    }
  }

  lemma OneLineIsLoose(s: string)
    requires '\n' !in s
    ensures Loose([Line(s, "")]) && Loose([])
  {}

  /** A line as it is read again: a carriage return before "\n" belongs to the terminator. */
  function Settle(l: Line): Line { if l.eol == "\n" then ReadLine(l.text) else l }

  function Reread(lines: seq<Line>): seq<Line>
  {
    if lines == [] || lines == [Line("", "")] then []
    else [Settle(lines[0])] + Reread(lines[1..])
  }

  lemma LinesOfTerminated(t: string, rest: string)
    requires '\n' !in t
    ensures Lines(t + "\n" + rest) == [ReadLine(t)] + Lines(rest)
  {
    var s := t + "\n" + rest;
    FindAfter(t, '\n', rest);
    assert s[..|t|] == t && s[|t| + 1..] == rest;
  }

  lemma LooseTail(lines: seq<Line>)
    requires Loose(lines) && lines != []
    ensures Loose(lines[1..])
  {}

  lemma LinesOfLine(l: Line, rest: string)
    requires '\n' !in l.text && (l.eol == "\n" || l.eol == "\r\n")
    ensures Lines(l.text + l.eol + rest) == [Settle(l)] + Lines(rest)
  {
    hide Lines, ReadLine;
    if l.eol == "\n" {
      LinesOfTerminated(l.text, rest);
    } else {
      var t := l.text + "\r";
      LinesOfTerminated(t, rest);
      assert l.text + "\r\n" == t + "\n";
      ReadLineOfCr(l.text);
    }
  }

  lemma ReadLineOfCr(text: string)
    ensures ReadLine(text + "\r") == Line(text, "\r\n")
  {}

  lemma RereadCons(l: Line, rest: seq<Line>)
    requires l.eol != ""
    ensures Reread([l] + rest) == [Settle(l)] + Reread(rest)
  {
    hide Settle;
    var lines := [l] + rest;
    assert lines[0] == l && lines[1..] == rest && Line("", "").eol == "";
    assert Reread(lines) == [Settle(lines[0])] + Reread(lines[1..]);
  }

  lemma RereadOne(s: string)
    ensures Reread([Line(s, "")]) == if s == "" then [] else [Line(s, "")]
  {}

  /** Reading what was written gives the lines back, settled, without an empty unterminated
      line at the end. */
  lemma {:induction false} LinesOfBytes(lines: seq<Line>)
    requires Loose(lines)
    ensures Lines(Bytes(lines)) == Reread(lines)
  {
    hide Lines, Bytes, Settle;
    if lines == [] {
      assert Reread([]) == [];
      LastLine("");
    } else {
      var l, rest := lines[0], lines[1..];
      assert lines == [l] + rest;
      LooseTail(lines);
      if l.eol == "" {
        assert rest == [];
        LastLine(l.text);
        RereadOne(l.text);
        OneLineBytes(l.text);
      } else {
        LinesOfBytes(rest);
        BytesCons(l, rest);
        LinesOfLine(l, Bytes(rest));
        RereadCons(l, rest);
      }
    }
  }

  lemma OneLineBytes(s: string)
    ensures Bytes([Line(s, "")]) == s && Bytes([]) == ""
  {}

  // -------------------------------------------------------------- inserting, removing

  function NewLine(lines: seq<Line>): string
  {
    if lines != [] && lines[0].eol != "" then lines[0].eol else "\n"
  }

  function Fresh(texts: seq<string>, eol: string): (r: seq<Line>)
    ensures |r| == |texts| && forall i :: 0 <= i < |r| ==> r[i] == Line(texts[i], eol)
  {
    seq(|texts|, i requires 0 <= i < |texts| => Line(texts[i], eol))
  }

  /** The last line, terminated if it was not. */
  function Closed(lines: seq<Line>): (r: seq<Line>)
    ensures |r| == |lines|
  {
    var n := |lines|;
    if n != 0 && lines[n - 1].eol == "" then lines[n - 1 := lines[n - 1].(eol := NewLine(lines))] else lines
  }

  function Inserted(lines: seq<Line>, idx: nat, texts: seq<string>): seq<Line>
  {
    var add := Fresh(texts, NewLine(lines));
    if |lines| <= idx then Closed(lines) + add else lines[..idx] + add + lines[idx..]
  }

  function Unterminated(lines: seq<Line>): seq<Line>
  {
    var n := |lines|;
    if n == 0 then lines else lines[n - 1 := lines[n - 1].(eol := "")]
  }

  function Removed(lines: seq<Line>, drop: set<nat>): seq<Line>
  {
    if drop == {} || lines == [] then lines
    else
      var out := Without(lines, drop, |lines|);
      if lines[|lines| - 1].eol == "" then Unterminated(out) else out
  }

  function Texts(lines: seq<Line>): (r: seq<string>)
    ensures |r| == |lines| && forall i :: 0 <= i < |r| ==> r[i] == lines[i].text
  {
    seq(|lines|, i requires 0 <= i < |lines| => lines[i].text)
  }

  lemma TextsOfFresh(texts: seq<string>, eol: string)
    ensures Texts(Fresh(texts, eol)) == texts
  {}

  lemma TextsOfClosed(lines: seq<Line>)
    ensures Texts(Closed(lines)) == Texts(lines)
  {}

  lemma TextsAppend(a: seq<Line>, b: seq<Line>)
    ensures Texts(a + b) == Texts(a) + Texts(b)
  {}

  lemma TextsOfParts(lines: seq<Line>, i: nat)
    requires i <= |lines|
    ensures Texts(lines[..i]) == Texts(lines)[..i]
    ensures Texts(lines[i..]) == Texts(lines)[i..]
  {}

  lemma WholeTexts(a: seq<string>, b: seq<string>)
    ensures a[..|a|] + b + a[|a|..] == a + b
  {}

  /** Inserting adds the texts at their place and changes no other text. */
  lemma InsertedTexts(lines: seq<Line>, idx: nat, texts: seq<string>)
    requires idx <= |lines|
    ensures Texts(Inserted(lines, idx, texts)) == Texts(lines)[..idx] + texts + Texts(lines)[idx..]
  {}

  /** Inserted lines end like the first line of the file, or in a line feed; no other line's
      end changes, but that an unterminated line that is not the last any more is ended. */
  lemma InsertedEnds(lines: seq<Line>, idx: nat, texts: seq<string>)
    requires idx <= |lines| && Loose(lines) && texts != []
    ensures var r := Inserted(lines, idx, texts);
      var eol := if lines != [] && (lines[0].eol == "\r\n" || lines[0].eol == "\n") then lines[0].eol else "\n";
      && |r| == |lines| + |texts|
      && (forall i :: 0 <= i < idx ==> r[i].eol == if idx == |lines| && lines[i].eol == "" then eol else lines[i].eol)
      && (forall i :: idx <= i < idx + |texts| ==> r[i].eol == eol)
      && (forall i :: idx + |texts| <= i < |r| ==> r[i].eol == lines[i - |texts|].eol)
  {
    hide Loose, NewLine, Closed, Fresh;
    NewLineIs(lines);
    ClosedEnds(lines);
    var add := Fresh(texts, NewLine(lines));
    if idx < |lines| {
      NotLastIsEnded(lines, idx);
      Spliced(lines, idx, add);
    } else {
      Appended(Closed(lines), add);
    }
  }

  lemma NotLastIsEnded(lines: seq<Line>, n: nat)
    requires Loose(lines) && n < |lines|
    ensures forall i :: 0 <= i < n ==> lines[i].eol != ""
  {}

  lemma Spliced(lines: seq<Line>, idx: nat, add: seq<Line>)
    requires idx <= |lines|
    ensures var r := lines[..idx] + add + lines[idx..];
      && |r| == |lines| + |add| && (forall i :: 0 <= i < idx ==> r[i] == lines[i])
      && (forall i :: idx <= i < idx + |add| ==> r[i] == add[i - idx])
      && (forall i :: idx + |add| <= i < |r| ==> r[i] == lines[i - |add|])
  {}

  lemma Appended(lines: seq<Line>, add: seq<Line>)
    ensures var r := lines + add;
      && |r| == |lines| + |add| && (forall i :: 0 <= i < |lines| ==> r[i] == lines[i])
      && (forall i :: |lines| <= i < |r| ==> r[i] == add[i - |lines|])
  {}

  lemma NewLineIs(lines: seq<Line>)
    requires Loose(lines)
    ensures NewLine(lines) == if lines != [] && (lines[0].eol == "\r\n" || lines[0].eol == "\n") then lines[0].eol else "\n"
  {}

  lemma ClosedEnds(lines: seq<Line>)
    requires Loose(lines)
    ensures forall i :: 0 <= i < |lines| ==>
      Closed(lines)[i].eol == if lines[i].eol == "" then NewLine(lines) else lines[i].eol
  {}

  /** A file without a final line feed still has none after lines were removed, and one with
      it still has it. */
  lemma RemovedEnds(lines: seq<Line>, drop: set<nat>)
    requires lines != [] && Loose(lines) && Removed(lines, drop) != []
    ensures var r := Removed(lines, drop);
      r[|r| - 1].eol == "" <==> lines[|lines| - 1].eol == ""
  {
    WithoutIsLoose(lines, drop, |lines|);
  }

  lemma InsertedIsLoose(lines: seq<Line>, idx: nat, texts: seq<string>)
    requires Loose(lines) && forall t :: t in texts ==> '\n' !in t
    ensures Loose(Inserted(lines, idx, texts))
  {}

  lemma {:induction false} WithoutIsLoose(lines: seq<Line>, drop: set<nat>, n: nat)
    requires Loose(lines) && n <= |lines|
    ensures var out := Without(lines, drop, n);
      && Loose(out) && |out| <= n
      && (forall i :: 0 <= i < |out| && out[i].eol == "" ==> n == |lines| && lines[n - 1].eol == "")
  {
    if 0 < n {
      WithoutIsLoose(lines, drop, n - 1);
    }
  }

  lemma RemovedIsLoose(lines: seq<Line>, drop: set<nat>)
    requires Loose(lines)
    ensures Loose(Removed(lines, drop))
  {
    WithoutIsLoose(lines, drop, |lines|);
  }

  lemma {:induction false} WithoutTexts(lines: seq<Line>, drop: set<nat>, n: nat)
    requires n <= |lines|
    ensures Texts(Without(lines, drop, n)) == Without(Texts(lines), drop, n)
  {
    if 0 < n {
      WithoutTexts(lines, drop, n - 1);
    }
  }

  /** Removing drops the lines at the given indices and changes no other text. */
  lemma RemovedTexts(lines: seq<Line>, drop: set<nat>)
    ensures Texts(Removed(lines, drop)) == Without(Texts(lines), drop, |lines|)
  {
    WithoutTexts(lines, drop, |lines|);
    WithoutNone(Texts(lines), |lines|);
    var out := Without(lines, drop, |lines|);
    assert Texts(Unterminated(out)) == Texts(out);
  }

  // ---------------------------------------------------------------------- the file

  datatype Contents = Contents(bom: string, lines: seq<Line>)

  function ReadFile(data: string): Contents
  {
    if BOM <= data then Contents(BOM, Lines(data[|BOM|..])) else Contents("", Lines(data))
  }

  lemma FileReadsBack(data: string)
    ensures ReadFile(data).bom + Bytes(ReadFile(data).lines) == data
  {
    if BOM <= data {
      BytesOfLines(data[|BOM|..]);
      assert BOM + data[|BOM|..] == data;
    } else {
      BytesOfLines(data);
      assert "" + data == data;
    }
  }

  /** A file whose first line does not start with a byte order mark of its own. */
  predicate MarkIsApart(f: Contents)
  {
    (f.bom == BOM) || (f.bom == "" && !(BOM <= Bytes(f.lines)))
  }

  lemma FileRereads(f: Contents)
    requires Loose(f.lines) && MarkIsApart(f)
    ensures ReadFile(f.bom + Bytes(f.lines)) == Contents(f.bom, Reread(f.lines))
  {
    LinesOfBytes(f.lines);
    if f.bom == BOM {
      assert (BOM + Bytes(f.lines))[|BOM|..] == Bytes(f.lines);
    } else {
      assert "" + Bytes(f.lines) == Bytes(f.lines);
    }
  }

  class IniFile {
    var bom: string
    var lines: seq<Line>

    ghost function State(): Contents
      reads this
    {
      Contents(bom, lines)
    }

    /** parseIniFile. */
    constructor (data: string)
      ensures State() == ReadFile(data)
    {
      var mark, s := "", data;
      bom := "";
      if BOM <= s {
        mark, s := BOM, s[|BOM|..];
      }
      lines := [];
      new;
      ReadLines(s);
      bom := mark;
    }

    /** The loop of parseIniFile. */
    method ReadLines(text: string)
      modifies this`lines
      ensures lines == Lines(text)
    {
      hide Lines;
      var s := text;
      lines := [];
      while s != ""
        invariant Lines(text) == lines + Lines(s)
        decreases |s|
      {
        var i := Find(s, '\n');
        if i == |s| {
          LastLine(s);
          lines := lines + [Line(s, "")];
          s := "";
        } else {
          LinesStep(s);
          var l := Line(s[..i], "\n");
          if EndsInCr(l.text) {
            l := Line(l.text[..|l.text| - 1], "\r\n");
          }
          assert lines + ([l] + Lines(s[i + 1..])) == lines + [l] + Lines(s[i + 1..]);
          lines := lines + [l];
          s := s[i + 1..];
        }
        if s == "" {
          LastLine(s);
        }
      }
      LastLine("");
    }

    /** bytes. */
    method Data() returns (data: string)
      ensures data == bom + Bytes(lines)
    {
      data := bom;
      for i := 0 to |lines|
        invariant data + Bytes(lines[i..]) == bom + Bytes(lines)
      {
        var rest := lines[i..];
        assert rest[0] == lines[i] && rest[1..] == lines[i + 1..];
        data := data + lines[i].text;
        data := data + lines[i].eol;
      }
      assert lines[|lines|..] == [];
    }

    method Insert(at: nat, texts: seq<string>)
      modifies this`lines
      ensures lines == Inserted(old(lines), at, texts)
    {
      var eol := NewLine(lines);
      var idx := at;
      if |lines| <= idx {
        idx := |lines|;
        if 0 < idx && lines[idx - 1].eol == "" {
          lines := lines[idx - 1 := lines[idx - 1].(eol := eol)];
        }
      }
      var add: seq<Line> := [];
      for i := 0 to |texts|
        invariant add == Fresh(texts, eol)[..i]
      {
        add := add + [Line(texts[i], eol)];
      }
      hide NewLine, Fresh;
      lines := lines[..idx] + add + lines[idx..];
    }

    method Remove(drop: set<nat>)
      modifies this`lines
      ensures lines == Removed(old(lines), drop)
    {
      if drop == {} || lines == [] {
        return;
      }
      var lastUnterminated := lines[|lines| - 1].eol == "";
      var out: seq<Line> := [];
      for i := 0 to |lines|
        invariant lines == old(lines) && out == Without(lines, drop, i)
      {
        if i !in drop {
          out := out + [lines[i]];
        }
      }
      lines := out;
      if lastUnterminated && lines != [] {
        var n := |lines|;
        lines := lines[n - 1 := lines[n - 1].(eol := "")];
      }
    }
  }
}
