/** What lines of a hosts file are entries, and where and how the editor writes one
    (hosts_entry.go), said by the words and white space of the lines. */
module HostsPlaces {
  import opened Text
  import opened Sequences
  import opened NetAddress
  import opened TextLines
  import opened HostsLine
  import opened HostsFile
  import opened HostsText

  // ------------------------------------------------------------------- lines of words

  /** Words with the white space before each of them and after the last. */
  function Glued(words: seq<string>, seps: seq<string>): string
    requires |seps| == |words| + 1
  {
    if words == [] then seps[0] else seps[0] + words[0] + Glued(words[1..], seps[1..])
  }

  ghost predicate WellSpaced(words: seq<string>, seps: seq<string>)
  {
    && |seps| == |words| + 1
    && (forall w :: w in words ==> IsField(w)) && (forall s :: s in seps ==> AllBlank(s))
    && forall i :: 1 <= i < |words| ==> seps[i] != ""
  }

  lemma GluedStarts(words: seq<string>, seps: seq<string>)
    requires |seps| == |words| + 1 && AllBlank(seps[0]) && (words != [] ==> seps[0] != "")
    ensures Glued(words, seps) == "" || IsBlank(Glued(words, seps)[0])
  {
    assert seps[0] != "" ==> seps[0][0] in seps[0];
  }

  lemma SpacedTail(words: seq<string>, seps: seq<string>)
    requires WellSpaced(words, seps) && words != []
    ensures WellSpaced(words[1..], seps[1..]) && AllBlank(seps[0]) && IsField(words[0])
    ensures AllBlank(seps[1]) && (words[1..] != [] ==> seps[1] != "")
  {
    hide IsField;
    assert words[0] in words && seps[0] in seps && seps[1] in seps;
    assert forall i :: 1 <= i < |words[1..]| ==> seps[1..][i] == seps[i + 1];
  }

  lemma {:induction false} SplitOfGlued(words: seq<string>, seps: seq<string>)
    requires WellSpaced(words, seps)
    ensures SplitFields(Glued(words, seps)) == Fields(words, seps)
    decreases |words|
  {
    hide SplitFields, WellSpaced, IsField;
    if words == [] {
      NoWords(seps);
    } else {
      SpacedTail(words, seps);
      SpacedLength(words, seps);
      var rest := Glued(words[1..], seps[1..]);
      SplitOfGlued(words[1..], seps[1..]);
      GluedStarts(words[1..], seps[1..]);
      SplitStep(seps[0], words[0], rest);
      assert words == [words[0]] + words[1..] && seps == [seps[0]] + seps[1..];
    }
  }

  lemma SpacedLength(words: seq<string>, seps: seq<string>)
    requires WellSpaced(words, seps)
    ensures |seps| == |words| + 1
  {}

  lemma NoWords(seps: seq<string>)
    requires WellSpaced([], seps)
    ensures SplitFields(Glued([], seps)) == Fields([], seps)
  {
    assert seps[0] in seps;
    SplitOfBlank(seps[0]);
    assert seps == [seps[0]];
  }

  lemma {:induction false} GluedHasNo(words: seq<string>, seps: seq<string>)
    requires WellSpaced(words, seps)
    ensures '#' !in Glued(words, seps)
    decreases |words|
  {
    hide WellSpaced;
    SpacedLength(words, seps);
    if words == [] {
      NoHashInBlank(seps);
    } else {
      SpacedTail(words, seps);
      GluedHasNo(words[1..], seps[1..]);
    }
  }

  lemma NoHashInBlank(seps: seq<string>)
    requires WellSpaced([], seps)
    ensures '#' !in Glued([], seps)
  {
    assert seps[0] in seps;
  }

  function Ending(hasComment: bool, raw: string, cr: bool): string
  {
    (if hasComment then "#" + raw else "") + (if cr then "\r" else "")
  }

  /** A line of words, white space, perhaps a comment and a carriage return is an entry exactly
      if it has two words and the first is an address; the other words are its names, and its
      white space and its comment are kept. */
  lemma LineIs(net: Net, words: seq<string>, seps: seq<string>, hasComment: bool, raw: string, cr: bool)
    requires WellSpaced(words, seps) && (!hasComment ==> raw == "")
    requires !cr ==> !EndsInCr(Glued(words, seps) + Ending(hasComment, raw, false))
    ensures |seps| == |words| + 1
    ensures ParseLine(net, Glued(words, seps) + Ending(hasComment, raw, cr))
         == if |words| < 2 || net.read(words[0]).None? then None
            else Some(Entry(seps[0], words[0], net.read(words[0]).value, seps[1], words[1..],
                            if 2 < |words| then seps[2] else "",
                            hasComment, if hasComment then seps[|words|] else "", raw, TrimSpace(raw), cr))
  {
    hide SplitFields, TrimSpace, Glued, WellSpaced, ParseBody;
    SpacedLength(words, seps);
    SpacedBody(net, words, seps, hasComment, raw, cr);
    var c, body := Glued(words, seps), Glued(words, seps) + Ending(hasComment, raw, false);
    assert cr ==> c + Ending(hasComment, raw, true) == body + "\r" && (body + "\r")[..|body|] == body;
  }

  lemma SpacedBody(net: Net, words: seq<string>, seps: seq<string>, hasComment: bool, raw: string, cr: bool)
    requires WellSpaced(words, seps) && (!hasComment ==> raw == "")
    ensures |seps| == |words| + 1
    ensures ParseBody(net, Glued(words, seps) + Ending(hasComment, raw, false), cr)
         == if |words| < 2 || net.read(words[0]).None? then None
            else Some(Entry(seps[0], words[0], net.read(words[0]).value, seps[1], words[1..],
                            if 2 < |words| then seps[2] else "",
                            hasComment, if hasComment then seps[|words|] else "", raw, TrimSpace(raw), cr))
  {
    hide SplitFields, TrimSpace, Glued, WellSpaced, Ending, Find;
    SpacedLength(words, seps);
    SplitOfGlued(words, seps);
    GluedHasNo(words, seps);
    BodyIs(Glued(words, seps), hasComment, raw);
  }

  lemma BodyIs(c: string, hasComment: bool, raw: string)
    requires '#' !in c && (!hasComment ==> raw == "")
    ensures var body := c + Ending(hasComment, raw, false); var i := Find(body, '#');
      && i == |c| && body[..i] == c && (i < |body| <==> hasComment)
      && (i < |body| ==> body[i + 1..] == raw)
  {
    var body := c + Ending(hasComment, raw, false);
    if hasComment {
      assert body == c + ['#'] + raw;
      FindAfter(c, '#', raw);
    } else {
      assert body == c;
    }
  }

  /** Every text without a comment is words and white space. */
  lemma {:induction false} EveryTextIsSpaced(s: string)
    requires '#' !in s
    ensures WellSpaced(SplitFields(s).words, SplitFields(s).seps)
    ensures Glued(SplitFields(s).words, SplitFields(s).seps) == s
    decreases |s|
  {
    hide BlankEnd, FirstBlank, IsField, SplitFields;
    FieldsOfSplit(s);
    var i := BlankEnd(s);
    var after := s[i..];
    var e := FirstBlank(after);
    SplitNext(s, i, after, e);
    if i < |s| {
      EveryTextIsSpaced(after[e..]);
      var f := SplitFields(s);
      assert f.words[1..] == SplitFields(after[e..]).words && f.seps[1..] == SplitFields(after[e..]).seps;
      assert s == s[..i] + after[..e] + after[e..];
    }
  }

  // ------------------------------------------------------------------------ the place

  /** `f` is the first line with one of the identities. */
  ghost predicate IsFirstMatch(net: Net, ids: seq<Identity>, lines: seq<string>, f: nat)
  {
    f < |lines| && Matches(net, ids, lines[f]) && NoneMatch(net, ids, lines[..f])
  }

  /** The entry stays in the place of its first line: the lines before it are untouched, and
      of those after it only the other lines are left. */
  lemma FirstIsUpdated(net: Net, ids: seq<Identity>, w: Wanted, t: Content) returns (f: nat)
    requires ReadsFields(net) && ValidWanted(net, w) && Seeks(ids, w)
    requires !NoneMatch(net, ids, t.lines)
    ensures IsFirstMatch(net, ids, t.lines, f)
    ensures var after := Ensured(net, t, FindUpTo(net, ids, t.lines, |t.lines|), w);
      && after.lines == t.lines[..f] + [UpdatedLine(net, w, t.lines[f])] + Others(net, ids, t.lines[f + 1..])
      && after.trailingNewline == t.trailingNewline
  {
    hide ReadsFields, ValidWanted, Seeks, NoneMatch, FindUpTo, Others, UpdatedLine, Matches, AppendedLine, Closed;
    var indices := FindUpTo(net, ids, t.lines, |t.lines|);
    SomeFound(net, ids, t.lines);
    UpdatedParts(net, ids, w, t.lines);
    f := indices[0];
    OthersOfNone(net, ids, t.lines[..f]);
  }

  lemma SomeFound(net: Net, ids: seq<Identity>, lines: seq<string>)
    requires !NoneMatch(net, ids, lines)
    ensures FindUpTo(net, ids, lines, |lines|) != []
  {
    hide Matches;
    if FindUpTo(net, ids, lines, |lines|) == [] {
      NoneFound(net, ids, lines);
    }
  }

  /** A new entry goes to the end, on a line of its own. */
  lemma NewIsAppended(net: Net, ids: seq<Identity>, w: Wanted, t: Content)
    requires NoneMatch(net, ids, t.lines)
    ensures var after := Ensured(net, t, FindUpTo(net, ids, t.lines, |t.lines|), w);
      && after.lines == Closed(t) + [AppendedLine(net, w, t.lines)] && after.trailingNewline
      && |Closed(t)| == |t.lines|
      && forall i :: 0 <= i < |t.lines| ==>
           Closed(t)[i] == t.lines[i]
           || (i == |t.lines| - 1 && !t.trailingNewline && EndsInCr(t.lines[0]) && Closed(t)[i] == t.lines[i] + "\r")
  {
    hide Matches, AppendedLine, FindUpTo;
    NoneIsFound(net, ids, t.lines, |t.lines|);
  }

  lemma {:induction false} NoneIsFound(net: Net, ids: seq<Identity>, lines: seq<string>, n: nat)
    requires NoneMatch(net, ids, lines) && n <= |lines|
    ensures FindUpTo(net, ids, lines, n) == []
  {
    hide Matches;
    if 0 < n {
      NoneIsFound(net, ids, lines, n - 1);
    }
  }

  /** Ensure reports a change exactly if it makes one. */
  lemma ChangeIsReported(net: Net, t: Content, indices: seq<nat>, w: Wanted)
    requires EntriesAt(net, t.lines, indices)
    ensures Changes(net, t.lines, indices, w) <==> Ensured(net, t, indices, w) != t
  {
    hide ParseLine, UpdatedLine, AppendedLine;
    if indices != [] {
      assert indices[0] in indices;
      var lines := t.lines[indices[0] := UpdatedLine(net, w, t.lines[indices[0]])];
      if |indices| == 1 {
        assert Rest(indices) == {};
        WithoutNone(lines, |lines|);
        assert lines[..|lines|] == lines;
      } else {
        assert indices[1] in indices && indices[1] in Rest(indices);
        WithoutShortens(lines, Rest(indices), indices[1], |lines|);
      }
    } else {
      ClosedLength(t);
    }
  }

  lemma {:induction false} WithoutShortens<T>(s: seq<T>, drop: set<nat>, i: nat, n: nat)
    requires n <= |s| && i in drop
    ensures |Without(s, drop, n)| <= n && (i < n ==> |Without(s, drop, n)| < n)
  {
    if 0 < n {
      WithoutShortens(s, drop, i, n - 1);
    }
  }

  lemma ClosedLength(t: Content)
    ensures |Closed(t)| == |t.lines|
  {}

  // ----------------------------------------------------------------------- the format

  /** The updated line keeps the indentation, the white space and the end of the line it
      replaces, the spelling of an address or a comment that stays the same, and has the
      wanted address, names and comment. */
  lemma UpdatedKeepsFormat(net: Net, w: Wanted, line: string)
    requires ReadsFields(net) && ValidWanted(net, w) && ParseLine(net, line).Some?
    ensures ParseLine(net, UpdatedLine(net, w, line)).Some?
    ensures var e, n := ParseLine(net, line).value, ParseLine(net, UpdatedLine(net, w, line)).value;
      && n.addr == w.addr && n.names == w.names && n.comment == w.comment && (n.hasComment <==> w.comment != "")
      && n.indent == e.indent && n.ipSep == e.ipSep && n.cr == e.cr
      && n.ipText == (if e.addr == w.addr then e.ipText else w.ipText)
      && (1 < |w.names| ==> n.nameSep == if e.nameSep == "" then " " else e.nameSep)
      && (w.comment != "" ==>
            if e.hasComment && e.comment == w.comment then n.commentRaw == e.commentRaw && n.commentSep == e.commentSep
            else n.commentRaw == " " + w.comment && n.commentSep == if e.commentSep == "" then " " else e.commentSep)
  {
    hide ReadsFields, ValidWanted, ParseLine, Render, Shaped, EndsPlainly;
    var u := UpdatedEntry(w, ParseLine(net, line).value);
    UpdatedIsShaped(net, w, line);
    NormalRenders(u);
    RenderReads(net, Normal(u));
  }

  /** The white space after the address in the first entry of the file, or a tab. */
  lemma {:induction false} SeparatorIs(net: Net, lines: seq<string>)
    ensures if forall i :: 0 <= i < |lines| ==> ParseLine(net, lines[i]).None? then FieldSeparator(net, lines) == "\t"
            else exists k :: && 0 <= k < |lines| && ParseLine(net, lines[k]).Some?
                             && (forall i :: 0 <= i < k ==> ParseLine(net, lines[i]).None?)
                             && FieldSeparator(net, lines) == ParseLine(net, lines[k]).value.ipSep
  {
    hide ParseLine;
    if lines != [] && ParseLine(net, lines[0]).None? {
      var rest := lines[1..];
      SeparatorIs(net, rest);
      assert forall i :: 0 <= i < |rest| ==> rest[i] == lines[i + 1];
      assert forall i :: 1 <= i < |lines| ==> lines[i] == rest[i - 1];
      if k :| && 0 <= k < |rest| && ParseLine(net, rest[k]).Some?
              && (forall i :: 0 <= i < k ==> ParseLine(net, rest[i]).None?)
              && FieldSeparator(net, rest) == ParseLine(net, rest[k]).value.ipSep {
        assert ParseLine(net, lines[k + 1]).Some?;
      }
    }
  }

  /** A new line has no indentation, the file's white space after the address, single spaces
      between its names, and ends like the file's first line. */
  lemma AppendedHasFormat(net: Net, w: Wanted, lines: seq<string>)
    requires ReadsFields(net) && ValidWanted(net, w)
    ensures ParseLine(net, AppendedLine(net, w, lines)).Some?
    ensures var n := ParseLine(net, AppendedLine(net, w, lines)).value;
      && n.addr == w.addr && n.ipText == w.ipText && n.names == w.names
      && n.comment == w.comment && (n.hasComment <==> w.comment != "")
      && n.indent == "" && n.ipSep == FieldSeparator(net, lines)
      && (n.cr <==> lines != [] && EndsInCr(lines[0]))
      && (1 < |w.names| ==> n.nameSep == " ")
      && (w.comment != "" ==> n.commentRaw == " " + w.comment && n.commentSep == " ")
  {
    hide Shaped, ReadsFields, EndsPlainly, IsWanted, ParseLine, Render, ValidWanted, FieldSeparator;
    var sep, cr := FieldSeparator(net, lines), UsesCrlf(lines);
    SeparatorIsBlank(net, lines);
    NewIsShaped(net, w, sep, cr);
    CrRenders(w, sep);
    NormalRenders(NewEntry(w, sep).(cr := cr));
    RenderReads(net, Normal(NewEntry(w, sep).(cr := cr)));
  }

  // --------------------------------------------------------------------------- the case

  function UpperChar(c: char): char
  {
    if 'a' <= c <= 'z' then (c as int - 32) as char else c
  }

  function Upper(s: string): (r: string)
    ensures |r| == |s| && forall i :: 0 <= i < |r| ==> r[i] == UpperChar(s[i])
  {
    seq(|s|, i requires 0 <= i < |s| => UpperChar(s[i]))
  }

  function AllUpper(ids: seq<Identity>): (r: seq<Identity>)
    ensures |r| == |ids|
    ensures forall i :: 0 <= i < |r| ==> r[i] == Identity(ids[i].addr, Upper(ids[i].canonical))
  {
    seq(|ids|, i requires 0 <= i < |ids| => Identity(ids[i].addr, Upper(ids[i].canonical)))
  }

  lemma UpperMatches(id: Identity, e: Entry)
    ensures IdMatches(Identity(id.addr, Upper(id.canonical)), e) <==> IdMatches(id, e)
  {
    var s := id.canonical;
    assert forall i :: 0 <= i < |s| ==> LowerChar(Upper(s)[i]) == LowerChar(s[i]);
  }

  /** The canonical name is sought without regard to case: the same lines are found for it in
      capitals, and an entry whose name is in capitals is found for it. */
  lemma CaseIsIgnored(net: Net, ids: seq<Identity>, line: string)
    ensures Matches(net, AllUpper(ids), line) <==> Matches(net, ids, line)
    ensures var e := ParseLine(net, line);
      e.Some? && (exists i :: 0 <= i < |ids| && HasCapitals(e.value, ids[i])) ==> Matches(net, ids, line)
  {
    hide ParseLine, IdMatches;
    var e := ParseLine(net, line);
    if e.Some? {
      forall i | 0 <= i < |ids|
        ensures IdMatches(AllUpper(ids)[i], e.value) <==> IdMatches(ids[i], e.value)
        ensures HasCapitals(e.value, ids[i]) ==> IdMatches(ids[i], e.value)
      {
        UpperMatches(ids[i], e.value);
        CapitalsMatch(ids[i], e.value);
      }
    }
  }

  predicate HasCapitals(e: Entry, id: Identity)
  {
    e.addr == id.addr && e.names != [] && e.names[0] == Upper(id.canonical)
  }

  lemma CapitalsMatch(id: Identity, e: Entry)
    ensures HasCapitals(e, id) ==> IdMatches(id, e)
  {}

  // --------------------------------------------------------------------- the line ends

  /** Every line that is terminated ends in CRLF. */
  predicate AllCrlf(t: Content)
  {
    forall i :: 0 <= i < |t.lines| && (i < |t.lines| - 1 || t.trailingNewline) ==> EndsInCr(t.lines[i])
  }

  lemma UpdatedEndsAlike(net: Net, w: Wanted, line: string)
    requires ReadsFields(net) && ValidWanted(net, w) && ParseLine(net, line).Some?
    ensures EndsInCr(UpdatedLine(net, w, line)) <==> EndsInCr(line)
  {
    hide ReadsFields, ValidWanted, ParseLine, UpdatedLine;
    UpdatedKeepsFormat(net, w, line);
    ParsedIsShaped(net, line);
    ParsedIsShaped(net, UpdatedLine(net, w, line));
  }

  lemma AppendedEndsInCr(net: Net, w: Wanted, lines: seq<string>)
    requires UsesCrlf(lines)
    ensures EndsInCr(AppendedLine(net, w, lines))
  {}

  lemma ClosedEndsInCr(t: Content)
    requires UsesCrlf(t.lines) && AllCrlf(t)
    ensures forall i :: 0 <= i < |Closed(t)| ==> EndsInCr(Closed(t)[i])
  {}

  /** Of lines that end in CRLF, the last one perhaps not, the others do. */
  lemma {:induction false} OthersCrlf(net: Net, ids: seq<Identity>, lines: seq<string>, trailing: bool)
    requires AllCrlf(Content(lines, trailing))
    ensures AllCrlf(Content(Others(net, ids, lines), trailing))
  {
    hide Matches;
    if lines != [] {
      var init := lines[..|lines| - 1];
      assert forall i :: 0 <= i < |init| ==> init[i] == lines[i];
      OthersCrlf(net, ids, init, true);
    }
  }

  lemma CrlfParts(a: seq<string>, x: string, b: seq<string>, c: seq<string>, y: string, trailing: bool)
    requires AllCrlf(Content(a + [x] + b, trailing)) && AllCrlf(Content(c, trailing))
    requires (EndsInCr(y) <==> EndsInCr(x)) && (b == [] ==> c == [])
    ensures AllCrlf(Content(a + [y] + c, trailing))
  {
    var s, r := a + [x] + b, a + [y] + c;
    assert forall i :: 0 <= i < |a| ==> s[i] == a[i] == r[i];
    assert s[|a|] == x && r[|a|] == y;
    assert forall i :: 0 <= i < |c| ==> r[|a| + 1 + i] == c[i];
    forall i | 0 <= i < |r| && (i < |r| - 1 || trailing) ensures EndsInCr(r[i]) {
      if |a| < i {
        assert r[i] == c[i - |a| - 1];
      } else {
        assert EndsInCr(s[i]);
      }
    }
  }

  lemma CrlfRest(t: Content, f: nat)
    requires AllCrlf(t) && f < |t.lines|
    ensures AllCrlf(Content(t.lines[f + 1..], t.trailingNewline))
    ensures t.lines == t.lines[..f] + [t.lines[f]] + t.lines[f + 1..]
  {
    var rest := t.lines[f + 1..];
    assert forall i :: 0 <= i < |rest| ==> rest[i] == t.lines[f + 1 + i];
  }

  /** In a file whose lines end in CRLF they still do once the entry is there. */
  lemma CrlfStays(net: Net, ids: seq<Identity>, w: Wanted, t: Content)
    requires ReadsFields(net) && ValidWanted(net, w) && Seeks(ids, w)
    requires UsesCrlf(t.lines) && AllCrlf(t)
    ensures AllCrlf(Ensured(net, t, FindUpTo(net, ids, t.lines, |t.lines|), w))
  {
    hide ReadsFields, ValidWanted, Seeks, NoneMatch, FindUpTo, Others, UpdatedLine, Matches, AppendedLine, Ensured,
      AllCrlf, EndsInCr, UsesCrlf, Closed, ParseLine;
    if NoneMatch(net, ids, t.lines) {
      NewIsAppended(net, ids, w, t);
      AppendedEndsInCr(net, w, t.lines);
      ClosedEndsInCr(t);
      PushedCrlf(Closed(t), AppendedLine(net, w, t.lines));
    } else {
      var f := FirstIsUpdated(net, ids, w, t);
      var rest := t.lines[f + 1..];
      CrlfRest(t, f);
      MatchIsEntry(net, ids, t.lines[f]);
      UpdatedEndsAlike(net, w, t.lines[f]);
      OthersCrlf(net, ids, rest, t.trailingNewline);
      NoOthers(net, ids);
      CrlfParts(t.lines[..f], t.lines[f], rest, Others(net, ids, rest), UpdatedLine(net, w, t.lines[f]), t.trailingNewline);
    }
  }

  lemma NoOthers(net: Net, ids: seq<Identity>)
    ensures Others(net, ids, []) == []
  {}

  lemma PushedCrlf(lines: seq<string>, l: string)
    requires EndsInCr(l) && forall i :: 0 <= i < |lines| ==> EndsInCr(lines[i])
    ensures AllCrlf(Content(lines + [l], true))
  {}
}
