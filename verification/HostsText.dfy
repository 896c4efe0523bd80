/** Hosts files as the editor leaves them (hosts_entry.go): what they hold once they are
    written and read again. */
module HostsText {
  import opened Text
  import opened Sequences
  import opened NetAddress
  import opened TextLines
  import opened HostsLine
  import opened HostsFile

  // ----------------------------------------------------------- lines without line feeds

  lemma {:induction false} FieldsAreOneLine(s: string)
    requires '\n' !in s
    ensures NoLineFeeds(SplitFields(s).words) && NoLineFeeds(SplitFields(s).seps)
    decreases |s|
  {
    hide SplitFields, BlankEnd, FirstBlank;
    var i := BlankEnd(s);
    var after := s[i..];
    var e := FirstBlank(after);
    SplitNext(s, i, after, e);
    if i < |s| {
      FieldsAreOneLine(after[e..]);
    }
  }

  lemma {:induction false} JoinIsOneLine(parts: seq<string>, sep: string)
    requires NoLineFeeds(parts) && '\n' !in sep
    ensures '\n' !in Join(parts, sep)
  {
    if 1 < |parts| {
      JoinIsOneLine(parts[1..], sep);
    }
  }

  predicate OneLine(e: Entry)
  {
    && '\n' !in e.indent && '\n' !in e.ipText && '\n' !in e.ipSep && '\n' !in e.nameSep
    && '\n' !in e.commentSep && '\n' !in e.commentRaw && NoLineFeeds(e.names)
  }

  lemma BodyIsOneLine(net: Net, body: string, cr: bool)
    requires '\n' !in body && ParseBody(net, body, cr).Some?
    ensures OneLine(ParseBody(net, body, cr).value)
  {
    hide SplitFields, Find, TrimSpace;
    var i := Find(body, '#');
    FieldsAreOneLine(body[..i]);
    var f := SplitFields(body[..i]);
    assert f.seps[0] in f.seps && f.seps[1] in f.seps && f.seps[|f.words|] in f.seps && f.words[0] in f.words;
    if 2 < |f.words| {
      assert f.seps[2] in f.seps;
    }
  }

  lemma ParsedIsOneLine(net: Net, line: string)
    requires '\n' !in line && ParseLine(net, line).Some?
    ensures OneLine(ParseLine(net, line).value)
  {
    hide ParseBody;
    if EndsInCr(line) {
      BodyIsOneLine(net, line[..|line| - 1], true);
    } else {
      BodyIsOneLine(net, line, false);
    }
  }

  lemma RenderIsOneLine(e: Entry)
    requires OneLine(e)
    ensures '\n' !in Render(e)
  {
    JoinIsOneLine(e.names, NameSep(e));
  }

  lemma {:induction false} SeparatorIsOneLine(net: Net, lines: seq<string>)
    requires NoLineFeeds(lines)
    ensures '\n' !in FieldSeparator(net, lines)
  {
    hide ParseLine;
    if lines != [] {
      if ParseLine(net, lines[0]).Some? {
        ParsedIsOneLine(net, lines[0]);
      } else {
        SeparatorIsOneLine(net, lines[1..]);
      }
    }
  }

  lemma UpdatedIsOneLine(net: Net, w: Wanted, line: string)
    requires ReadsFields(net) && ValidWanted(net, w) && '\n' !in line
    ensures '\n' !in UpdatedLine(net, w, line)
  {
    hide ParseLine, Render;
    assert IsHostname(w.ipText);
    if ParseLine(net, line).Some? {
      ParsedIsOneLine(net, line);
      RenderIsOneLine(UpdatedEntry(w, ParseLine(net, line).value));
    }
  }

  lemma AppendedIsOneLine(net: Net, w: Wanted, lines: seq<string>)
    requires ReadsFields(net) && ValidWanted(net, w) && NoLineFeeds(lines)
    ensures '\n' !in AppendedLine(net, w, lines)
  {
    hide Render, FieldSeparator;
    assert IsHostname(w.ipText);
    SeparatorIsOneLine(net, lines);
    RenderIsOneLine(NewEntry(w, FieldSeparator(net, lines)));
  }

  lemma {:induction false} WithoutHas(lines: seq<string>, drop: set<nat>, n: nat)
    requires n <= |lines|
    ensures forall l :: l in Without(lines, drop, n) ==> l in lines
  {
    if 0 < n {
      WithoutHas(lines, drop, n - 1);
    }
  }

  lemma EnsuredAreLines(net: Net, t: Content, indices: seq<nat>, w: Wanted)
    requires ReadsFields(net) && ValidWanted(net, w) && NoLineFeeds(t.lines)
    ensures NoLineFeeds(Ensured(net, t, indices, w).lines)
  {
    hide ReadsFields, ValidWanted, UpdatedLine, AppendedLine, Without;
    if indices == [] || |t.lines| <= indices[0] {
      AppendedIsOneLine(net, w, t.lines);
    } else {
      UpdatedIsOneLine(net, w, t.lines[indices[0]]);
      var lines := t.lines[indices[0] := UpdatedLine(net, w, t.lines[indices[0]])];
      WithoutHas(lines, Rest(indices), |lines|);
    }
  }

  lemma {:induction false} OthersHas(net: Net, ids: seq<Identity>, lines: seq<string>)
    ensures forall l :: l in Others(net, ids, lines) ==> l in lines
  {
    hide Matches;
    if lines != [] {
      OthersHas(net, ids, lines[..|lines| - 1]);
    }
  }

  // -------------------------------------------------------------------- the theorems

  lemma {:induction false} FoundInPrefix(net: Net, ids: seq<Identity>, a: seq<string>, b: seq<string>, n: nat)
    requires n <= |a|
    ensures FindUpTo(net, ids, a + b, n) == FindUpTo(net, ids, a, n)
  {
    hide Matches;
    if 0 < n {
      FoundInPrefix(net, ids, a, b, n - 1);
    }
  }

  lemma EmptyIsNoEntry(net: Net, ids: seq<Identity>)
    ensures ParseLine(net, "").None? && !Matches(net, ids, "")
  {
    assert BlankEnd("") == 0 && SplitFields("") == Fields([], [""]);
  }

  /** A blank line at the end does not decide whether the lines are settled. */
  lemma BlankSettles(net: Net, ids: seq<Identity>, w: Wanted, lines: seq<string>, others: seq<string>)
    requires Settled(net, ids, w, lines + [""], others)
    ensures others != [] && Settled(net, ids, w, lines, others[..|others| - 1])
  {
    hide Matches, IsItsLine, ParseLine;
    var all := lines + [""];
    EmptyIsNoEntry(net, ids);
    assert all[..|all| - 1] == lines && all[|all| - 1] == "";
    assert Others(net, ids, all) == Others(net, ids, lines) + [""];
    assert (Others(net, ids, lines) + [""])[..|others| - 1] == Others(net, ids, lines);
    FoundInPrefix(net, ids, lines, [""], |lines|);
    var k :| 0 <= k < |all| && IsItsLine(net, w, all[k]) && FindUpTo(net, ids, all, |all|) == [k];
    BlankIsNotItsLine(net, w);
  }

  lemma BlankIsNotItsLine(net: Net, w: Wanted)
    ensures !IsItsLine(net, w, "")
  {
    EmptyIsNoEntry(net, []);
    hide ParseLine;
  }

  // --------------------------------------------------------- what the file then holds

  /** A blank line with nothing but matching lines after it. */
  predicate BlankBefore(net: Net, ids: seq<Identity>, lines: seq<string>, k: int)
  {
    0 <= k < |lines| - 1 && lines[k] == "" && forall j :: k < j < |lines| ==> Matches(net, ids, lines[j])
  }

  /** Removing the matching lines makes a blank line the unterminated last one. */
  predicate UncoversBlank(net: Net, ids: seq<Identity>, t: Content)
  {
    !t.trailingNewline && exists k :: 0 <= k < |t.lines| - 1 && BlankBefore(net, ids, t.lines, k)
  }

  predicate MatchesBefore(net: Net, ids: seq<Identity>, lines: seq<string>, k: int)
    requires k <= |lines|
  {
    exists i :: 0 <= i < k && Matches(net, ids, lines[i])
  }

  /** So does removing all of them but the first. */
  predicate RestUncoversBlank(net: Net, ids: seq<Identity>, t: Content)
  {
    && !t.trailingNewline
    && exists k :: 0 <= k < |t.lines| - 1 && BlankBefore(net, ids, t.lines, k) && MatchesBefore(net, ids, t.lines, k)
  }

  /** The last of the other lines. */
  lemma {:induction false} LastOther(net: Net, ids: seq<Identity>, lines: seq<string>) returns (k: int)
    ensures -1 <= k < |lines| && forall j :: k < j < |lines| ==> Matches(net, ids, lines[j])
    ensures k == -1 <==> Others(net, ids, lines) == []
    ensures 0 <= k ==> && !Matches(net, ids, lines[k])
                       && Others(net, ids, lines)[|Others(net, ids, lines)| - 1] == lines[k]
  {
    hide Matches;
    k := -1;
    if lines != [] {
      var n := |lines| - 1;
      if Matches(net, ids, lines[n]) {
        k := LastOther(net, ids, lines[..n]);
        assert forall j :: 0 <= j < n ==> lines[..n][j] == lines[j];
      } else {
        k := n;
      }
    }
  }

  lemma LastOfKept(net: Net, ids: seq<Identity>, lines: seq<string>, i: int, k: int)
    requires BlankBefore(net, ids, lines, i) && -1 <= k < |lines|
    requires (forall j :: k < j < |lines| ==> Matches(net, ids, lines[j])) && (0 <= k ==> !Matches(net, ids, lines[k]))
    ensures i == k
  {
    hide Matches;
    EmptyIsNoEntry(net, ids);
  }

  lemma RemovedEnds(net: Net, ids: seq<Identity>, t: Content)
    requires Ended(t)
    ensures EndsBlank(t.(lines := Others(net, ids, t.lines))) <==> UncoversBlank(net, ids, t)
  {
    hide Matches, Others;
    var k := LastOther(net, ids, t.lines);
    if UncoversBlank(net, ids, t) {
      var i :| 0 <= i < |t.lines| - 1 && BlankBefore(net, ids, t.lines, i);
      LastOfKept(net, ids, t.lines, i, k);
    }
    if 0 <= k && t.lines[k] == "" && !t.trailingNewline {
      assert BlankBefore(net, ids, t.lines, k);
    }
  }

  /** The file that removeHostsEntries leaves has exactly the other lines, if and only if no
      blank line is now an unterminated last one; then only that line is missing. */
  lemma RemovedFileReads(net: Net, ids: seq<Identity>, data: string)
    ensures var t := ReadText(data);
      var others := Others(net, ids, t.lines);
      var again := ReadText(WriteText(t.(lines := others))).lines;
      && (again == others <==> !UncoversBlank(net, ids, t))
      && (UncoversBlank(net, ids, t) ==> others == again + [""])
  {
    hide ReadText, WriteText, Others, UncoversBlank;
    var t := ReadText(data);
    ReadIsWritable(data);
    OthersHas(net, ids, t.lines);
    RemovedEnds(net, ids, t);
    LinesOfWrite(t.(lines := Others(net, ids, t.lines)));
  }

  // ------------------------------------------------------------------------- ensuring

  /** The lines after an update: the entry's own line among the others. */
  lemma UpdatedParts(net: Net, ids: seq<Identity>, w: Wanted, lines: seq<string>)
    requires ReadsFields(net) && ValidWanted(net, w) && Seeks(ids, w)
    requires FindUpTo(net, ids, lines, |lines|) != []
    ensures var indices := FindUpTo(net, ids, lines, |lines|); var k := indices[0];
      && k < |lines| && Matches(net, ids, lines[k]) && NoneMatch(net, ids, lines[..k])
      && var x := UpdatedLine(net, w, lines[k]);
         && x != ""
         && Without(lines[k := x], Rest(indices), |lines|)
            == Others(net, ids, lines[..k]) + [x] + Others(net, ids, lines[k + 1..])
  {
    hide ReadsFields, ValidWanted, Seeks, NoneMatch, FindUpTo, Others, UpdatedLine, IsItsLine, ParseLine, IdMatches;
    var indices := FindUpTo(net, ids, lines, |lines|);
    FoundParts(net, ids, lines);
    var k := indices[0];
    UpdatedIsItsLine(net, w, lines[k]);
    BlankIsNotItsLine(net, w);
    RestIsDropped(net, ids, lines, Rest(indices), k, UpdatedLine(net, w, lines[k]), |lines|);
    assert lines[k + 1..|lines|] == lines[k + 1..];
  }

  /** The last of the other lines comes after the first match `f` if and only if it is the
      last of those after it. */
  lemma OthersAfter(net: Net, ids: seq<Identity>, lines: seq<string>, f: nat, k: int)
    requires f < |lines| && Matches(net, ids, lines[f]) && -1 <= k < |lines|
    requires (forall j :: k < j < |lines| ==> Matches(net, ids, lines[j])) && (0 <= k ==> !Matches(net, ids, lines[k]))
    ensures var b := Others(net, ids, lines[f + 1..]);
      (b != [] <==> f < k) && (b != [] ==> b[|b| - 1] == lines[k])
  {
    hide Matches, Others;
    var b := lines[f + 1..];
    var m := LastOther(net, ids, b);
    assert forall j :: 0 <= j < |b| ==> b[j] == lines[f + 1 + j];
    assert forall j :: f < j < |lines| ==> lines[j] == b[j - f - 1];
    assert 0 <= m ==> f + 1 + m == k;
    assert f < k ==> !Matches(net, ids, b[k - f - 1]);
  }

  lemma UpdatedEnds(net: Net, ids: seq<Identity>, w: Wanted, t: Content)
    requires ReadsFields(net) && ValidWanted(net, w) && Seeks(ids, w) && Ended(t)
    ensures EndsBlank(Ensured(net, t, FindUpTo(net, ids, t.lines, |t.lines|), w)) <==> RestUncoversBlank(net, ids, t)
    ensures Ensured(net, t, FindUpTo(net, ids, t.lines, |t.lines|), w).lines != []
  {
    hide ReadsFields, ValidWanted, Seeks, FindUpTo, Others, UpdatedLine, Matches, AppendedLine, Closed;
    var indices := FindUpTo(net, ids, t.lines, |t.lines|);
    if indices == [] {
      NoneFound(net, ids, t.lines);
    } else {
      UpdatedParts(net, ids, w, t.lines);
      var k := LastOther(net, ids, t.lines);
      OthersAfter(net, ids, t.lines, indices[0], k);
      BlanksAfter(net, ids, t, indices[0], k);
    }
  }

  /** Whether the last other line `k` is a blank one after the first match `f`. */
  lemma BlanksAfter(net: Net, ids: seq<Identity>, t: Content, f: nat, k: int)
    requires Ended(t) && f < |t.lines| && Matches(net, ids, t.lines[f]) && NoneMatch(net, ids, t.lines[..f])
    requires -1 <= k < |t.lines| && (forall j :: k < j < |t.lines| ==> Matches(net, ids, t.lines[j]))
    requires 0 <= k ==> !Matches(net, ids, t.lines[k])
    ensures RestUncoversBlank(net, ids, t) <==> !t.trailingNewline && f < k && t.lines[k] == ""
  {
    hide Matches;
    if RestUncoversBlank(net, ids, t) {
      var i :| 0 <= i < |t.lines| - 1 && BlankBefore(net, ids, t.lines, i) && MatchesBefore(net, ids, t.lines, i);
      LastOfKept(net, ids, t.lines, i, k);
      var j :| 0 <= j < i && Matches(net, ids, t.lines[j]);
      NoneBefore(net, ids, t.lines, f, j);
    }
    if !t.trailingNewline && f < k && t.lines[k] == "" {
      assert BlankBefore(net, ids, t.lines, k) && MatchesBefore(net, ids, t.lines, k);
    }
  }

  /** The other lines as the file holds them. */
  function Held(net: Net, ids: seq<Identity>, t: Content): seq<string>
  {
    if FindUpTo(net, ids, t.lines, |t.lines|) == [] then Closed(t)
    else
      var others := Others(net, ids, t.lines);
      if RestUncoversBlank(net, ids, t) && others != [] then others[..|others| - 1] else others
  }

  lemma SettledBlank(net: Net, ids: seq<Identity>, w: Wanted, t: Content, others: seq<string>)
    requires Settled(net, ids, w, t.lines, others)
    ensures EndsBlank(t) ==>
      others != [] && Settled(net, ids, w, t.lines[..|t.lines| - 1], others[..|others| - 1])
  {
    hide Settled;
    if EndsBlank(t) {
      var n := |t.lines| - 1;
      assert t.lines == t.lines[..n] + [""];
      BlankSettles(net, ids, w, t.lines[..n], others);
    }
  }

  /** After ensureHostsEntry, in the file written and read again, exactly one line has one of
      the identities and reads as the wanted entry, and another call changes nothing. The
      other lines are as they were, but for the carriage return an unterminated last line of
      a CRLF file gets; and but for a blank line, if and only if dropping the further
      matches at the end of an unterminated file leaves it as the last one. */
  lemma EnsuredFileSettles(net: Net, ids: seq<Identity>, w: Wanted, data: string)
    requires ReadsFields(net) && ValidWanted(net, w) && Seeks(ids, w)
    ensures var t := ReadText(data);
      var after := Ensured(net, t, FindUpTo(net, ids, t.lines, |t.lines|), w);
      var again := ReadText(WriteText(after));
      && (again == after <==> !RestUncoversBlank(net, ids, t))
      && Settled(net, ids, w, again.lines, Held(net, ids, t))
      && !Changes(net, again.lines, FindUpTo(net, ids, again.lines, |again.lines|), w)
  {
    hide ReadText, WriteText, Ensured, ReadsFields, ValidWanted, Seeks, Settled, Closed, Others, FindUpTo, Changes,
      RestUncoversBlank, NoLineFeeds;
    var t := ReadText(data);
    var indices := FindUpTo(net, ids, t.lines, |t.lines|);
    var after := Ensured(net, t, indices, w);
    ReadIsWritable(data);
    EnsuredAreLines(net, t, indices, w);
    UpdatedEnds(net, ids, w, t);
    ReadOfWrite(after);
    LinesOfWrite(after);
    EnsureSettles(net, ids, w, t);
    var others := if indices == [] then Closed(t) else Others(net, ids, t.lines);
    SettledBlank(net, ids, w, after, others);
    AppendedEnds(net, ids, t, w);
    SettledIsUnchanged(net, ids, w, ReadText(WriteText(after)), Held(net, ids, t));
  }

  lemma AppendedEnds(net: Net, ids: seq<Identity>, t: Content, w: Wanted)
    ensures var indices := FindUpTo(net, ids, t.lines, |t.lines|);
      indices == [] ==> !EndsBlank(Ensured(net, t, indices, w))
  {}

  lemma SettledIsUnchanged(net: Net, ids: seq<Identity>, w: Wanted, t: Content, others: seq<string>)
    requires Settled(net, ids, w, t.lines, others)
    ensures !Changes(net, t.lines, FindUpTo(net, ids, t.lines, |t.lines|), w)
  {
    hide FindUpTo, IsItsLine, UpdatedLine, Others;
    var k :| 0 <= k < |t.lines| && IsItsLine(net, w, t.lines[k]) && FindUpTo(net, ids, t.lines, |t.lines|) == [k];
    SettledIsKept(net, w, t, [k]);
  }

  // ---------------------------------------------------------------- a failing example

  lemma TwoJoined(a: string, b: string)
    ensures Join([a, b], "\n") == a + "\n" + b
  {
    hide Join;
    JoinCons(a, [b], "\n");
    JoinOne(b, "\n");
    assert [a] + [b] == [a, b];
  }

  lemma ThreeJoined(a: string, b: string, c: string)
    ensures Join([a, b, c], "\n") == a + "\n" + (b + "\n" + c)
  {
    hide Join;
    JoinCons(a, [b, c], "\n");
    TwoJoined(b, c);
    assert [a] + [b, c] == [a, b, c];
  }

  lemma ExampleFile()
    ensures ReadText("a\n\n127.0.0.1 x") == Content(["a", "", "127.0.0.1 x"], false)
    ensures WriteText(Content(["a", ""], false)) == "a\n"
  {
    hide ReadText, Join;
    TwoJoined("a", "");
    ThreeJoined("a", "", "127.0.0.1 x");
    assert "a" + "\n" + ("" + "\n" + "127.0.0.1 x") + "" == "a\n\n127.0.0.1 x";
    assert "a" + "\n" + "" + "" == "a\n";
    ReadOfWrite(Content(["a", "", "127.0.0.1 x"], false));
  }

  /** Removing the entry of an unterminated last line after a blank one: the blank line is
      lost as well. */
  lemma RemovalLosesBlank(net: Net, a: Addr)
    requires ReadsFields(net) && net.read("127.0.0.1") == Some(a)
    ensures var ids := [Identity(a, "x")];
      var t := ReadText("a\n\n127.0.0.1 x");
      && t == Content(["a", "", "127.0.0.1 x"], false)
      && Others(net, ids, t.lines) == ["a", ""]
      && WriteText(t.(lines := ["a", ""])) == "a\n" && ReadText("a\n").lines == ["a"]
  {
    hide ReadText, WriteText, Matches;
    var ids, lines := [Identity(a, "x")], ["a", "", "127.0.0.1 x"];
    ExampleFile();
    ExampleMatches(net, a);
    assert lines[..2] == ["a", ""] && ["a", ""][..1] == ["a"] && ["a"][..0] == [];
    assert Others(net, ids, ["a"]) == ["a"] && Others(net, ids, ["a", ""]) == ["a", ""];
    assert BlankBefore(net, ids, lines, 1);
    RemovedFileReads(net, ids, "a\n\n127.0.0.1 x");
  }

  function ExampleEntry(a: Addr): Entry { Entry("", "127.0.0.1", a, " ", ["x"], "", false, "", "", "", false) }

  lemma ExampleRenders(a: Addr)
    ensures Render(ExampleEntry(a)) == "127.0.0.1 x"
  {
    JoinOne("x", NameSep(ExampleEntry(a)));
    assert "" + "127.0.0.1" + " " + "x" + "" == "127.0.0.1 x";
  }

  lemma ExampleIsShaped(net: Net, a: Addr)
    requires net.read("127.0.0.1") == Some(a)
    ensures Shaped(net, ExampleEntry(a)) && EndsPlainly(ExampleEntry(a))
  {
    hide TrimSpace;
    TrimSpaceOfTrimmed("");
  }

  lemma ExampleMatches(net: Net, a: Addr)
    requires ReadsFields(net) && net.read("127.0.0.1") == Some(a)
    ensures var ids := [Identity(a, "x")];
      Matches(net, ids, "127.0.0.1 x") && !Matches(net, ids, "") && !Matches(net, ids, "a")
  {
    hide ParseLine, Shaped, EndsPlainly, Render, ReadsFields;
    ExampleRenders(a);
    ExampleIsShaped(net, a);
    RenderReads(net, ExampleEntry(a));
    assert IdMatches([Identity(a, "x")][0], ExampleEntry(a));
    EmptyIsNoEntry(net, [Identity(a, "x")]);
    OneWordIsNoEntry(net);
  }

  lemma OneWordIsNoEntry(net: Net)
    ensures ParseLine(net, "a").None?
  {
    var s := "a";
    assert BlankEnd(s) == 0 && s[0..] == s;
    assert FirstBlank(s) == 1 && s[1..] == "" && s[..1] == s;
    assert BlankEnd("") == 0 && SplitFields("") == Fields([], [""]);
    assert SplitFields(s).words == ["a"];
    assert Find(s, '#') == 1;
  }

  const DOUBLED := "127.0.0.1 x\n\n127.0.0.1 x"

  lemma DoubledFile()
    ensures ReadText(DOUBLED) == Content(["127.0.0.1 x", "", "127.0.0.1 x"], false)
  {
    hide ReadText, Join;
    ThreeJoined("127.0.0.1 x", "", "127.0.0.1 x");
    assert "127.0.0.1 x" + "\n" + ("" + "\n" + "127.0.0.1 x") + "" == DOUBLED;
    ReadOfWrite(Content(["127.0.0.1 x", "", "127.0.0.1 x"], false));
  }

  lemma ExampleIsValid(net: Net, a: Addr)
    requires net.read("127.0.0.1") == Some(a)
    ensures var w := Wanted("127.0.0.1", a, ["x"], ""); ValidWanted(net, w) && Seeks([Identity(a, "x")], w)
  {
    hide TrimSpace;
    TrimSpaceOfTrimmed("");
    assert [Identity(a, "x")][0] in [Identity(a, "x")];
  }

  /** Two lines with the entry, and a blank one between: the second entry goes and takes the
      blank line with it. */
  lemma EnsureLosesBlank(net: Net, a: Addr)
    requires ReadsFields(net) && net.read("127.0.0.1") == Some(a)
    ensures var ids, w, t := [Identity(a, "x")], Wanted("127.0.0.1", a, ["x"], ""), ReadText(DOUBLED);
      var after := Ensured(net, t, FindUpTo(net, ids, t.lines, |t.lines|), w);
      && ValidWanted(net, w) && Seeks(ids, w) && RestUncoversBlank(net, ids, t)
      && ReadText(WriteText(after)) != after
  {
    hide ReadText, WriteText, Matches, Ensured, FindUpTo, ValidWanted, Seeks, Settled, Changes, ReadsFields, Held;
    var ids, lines := [Identity(a, "x")], ["127.0.0.1 x", "", "127.0.0.1 x"];
    DoubledFile();
    ExampleMatches(net, a);
    ExampleIsValid(net, a);
    assert BlankBefore(net, ids, lines, 1) && Matches(net, ids, lines[0]) && MatchesBefore(net, ids, lines, 1);
    EnsuredFileSettles(net, ids, Wanted("127.0.0.1", a, ["x"], ""), DOUBLED);
  }
}
