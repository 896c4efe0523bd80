/** One line of a hosts file: taking it apart and writing it (hosts_entry.go). */
module HostsLine {
  import opened Text
  import opened NetAddress

  // ------------------------------------------------------------------------ fields

  /** `seps[i]` is the white space before word `i`, and the last one that after the words. */
  datatype Fields = Fields(words: seq<string>, seps: seq<string>)

  function BlankEnd(s: string): (i: nat)
    ensures i <= |s| && (i < |s| ==> !IsBlank(s[i])) && forall k :: 0 <= k < i ==> IsBlank(s[k])
  {
    if s == "" || !IsBlank(s[0]) then 0 else 1 + BlankEnd(s[1..])
  }

  function SplitFields(s: string): (r: Fields)
    ensures |r.seps| == |r.words| + 1
    decreases |s|
  {
    var i := BlankEnd(s);
    if i == |s| then Fields([], [s])
    else
      var rest := s[i..];
      var e := FirstBlank(rest);
      var more := SplitFields(rest[e..]);
      Fields([rest[..e]] + more.words, [s[..i]] + more.seps)
  }

  /** What the next turn of the loop cuts off. */
  lemma SplitNext(s: string, i: nat, after: string, e: nat)
    requires i == BlankEnd(s) && after == s[i..] && e == FirstBlank(after)
    ensures i == |s| ==> SplitFields(s) == Fields([], [s])
    ensures i < |s| ==> 0 < e
    ensures i < |s| ==> SplitFields(s).words == [after[..e]] + SplitFields(after[e..]).words
    ensures i < |s| ==> SplitFields(s).seps == [s[..i]] + SplitFields(after[e..]).seps
  {}

  /** The loop of splitHostsFields. */
  method CutFields(s: string) returns (r: Fields)
    ensures r == SplitFields(s)
  {
    hide SplitFields, BlankEnd, FirstBlank;
    var words: seq<string>, seps: seq<string> := [], [];
    var rest := s;
    while true
      invariant SplitFields(s).words == words + SplitFields(rest).words
      invariant SplitFields(s).seps == seps + SplitFields(rest).seps
      decreases |rest|
    {
      var i := BlankEnd(rest);
      var after := rest[i..];
      var e := FirstBlank(after);
      SplitNext(rest, i, after, e);
      if i == |rest| {
        return Fields(words, seps + [rest]);
      }
      words := words + [after[..e]];
      seps := seps + [rest[..i]];
      rest := after[e..];
    }
  }

  // ----------------------------------------------------------------------- entries

  /** A parsed entry with the white space around its fields. */
  datatype Entry = Entry(
    indent: string, ipText: string, addr: Addr, ipSep: string, names: seq<string>, nameSep: string,
    hasComment: bool, commentSep: string, commentRaw: string, comment: string, cr: bool)

  predicate EndsInCr(s: string) { s != "" && s[|s| - 1] == '\r' }

  /** The entry of a line without its carriage return. */
  function ParseBody(net: Net, body: string, cr: bool): Option<Entry>
  {
    var i := Find(body, '#');
    var f := SplitFields(body[..i]);
    if |f.words| < 2 || net.read(f.words[0]).None? then None
    else
      var raw := if i == |body| then "" else body[i + 1..];
      Some(Entry(f.seps[0], f.words[0], net.read(f.words[0]).value, f.seps[1], f.words[1..],
                 if 2 < |f.words| then f.seps[2] else "",
                 i < |body|, if i < |body| then f.seps[|f.words|] else "", raw, TrimSpace(raw), cr))
  }

  /** parseHostsLine. */
  function ParseLine(net: Net, line: string): Option<Entry>
  {
    if EndsInCr(line) then ParseBody(net, line[..|line| - 1], true) else ParseBody(net, line, false)
  }

  function NameSep(e: Entry): string { if e.nameSep == "" then " " else e.nameSep }

  function Content(e: Entry): string
  {
    e.indent + e.ipText + e.ipSep + Join(e.names, NameSep(e)) + e.commentSep
  }

  function Tail(e: Entry): string { if e.hasComment then "#" + e.commentRaw else "" }

  /** render. An entry without a comment has no white space before one. */
  function Render(e: Entry): string
  {
    var body := e.indent + e.ipText + e.ipSep + Join(e.names, NameSep(e));
    body + (if e.hasComment then e.commentSep + "#" + e.commentRaw else "") + (if e.cr then "\r" else "")
  }

  method RenderLine(e: Entry) returns (b: string)
    ensures b == Render(e)
  {
    b := e.indent;
    b := b + e.ipText;
    b := b + e.ipSep;
    b := b + Join(e.names, NameSep(e));
    ghost var body := b;
    if e.hasComment {
      b := b + e.commentSep;
      b := b + "#";
      b := b + e.commentRaw;
      assert b == body + (e.commentSep + "#" + e.commentRaw);
    } else {
      assert b == body + "";
    }
    ghost var commented := b;
    if e.cr {
      b := b + "\r";
    } else {
      assert b == commented + "";
    }
  }

  // -------------------------------------------------------------------- what is read

  /** A field: no white space between fields, and no start of a comment. */
  predicate IsField(s: string)
  {
    s != "" && forall i :: 0 <= i < |s| ==> !IsBlank(s[i]) && s[i] != '#'
  }

  /** A hostname as the editor writes it: a field without control characters. */
  predicate IsHostname(s: string) { IsField(s) && '\r' !in s && '\n' !in s }

  /** Only fields without carriage returns and line feeds read as addresses. */
  ghost predicate ReadsFields(net: Net)
  {
    forall s: string :: net.read(s).Some? ==> IsHostname(s)
  }

  /** What a parsed or edited entry looks like. */
  ghost predicate Shaped(net: Net, e: Entry)
  {
    && AllBlank(e.indent) && AllBlank(e.ipSep) && e.ipSep != "" && AllBlank(e.nameSep) && AllBlank(e.commentSep)
    && net.read(e.ipText) == Some(e.addr)
    && e.names != [] && (forall n :: n in e.names ==> IsField(n))
    && (|e.names| == 1 ==> e.nameSep == "") && (1 < |e.names| ==> e.nameSep != "")
    && (!e.hasComment ==> e.commentSep == "" && e.commentRaw == "")
    && e.comment == TrimSpace(e.commentRaw)
  }

  /** A line that ends in a carriage return only where that is part of its end. */
  predicate EndsPlainly(e: Entry)
  {
    e.cr || (if e.hasComment then !EndsInCr(e.commentRaw)
             else e.names != [] && !EndsInCr(e.names[|e.names| - 1]))
  }

  lemma {:induction false} FieldsOfSplit(s: string)
    requires '#' !in s
    ensures var f := SplitFields(s);
      && (forall w :: w in f.words ==> IsField(w))
      && (forall x :: x in f.seps ==> AllBlank(x))
      && (forall i :: 1 <= i < |f.words| ==> f.seps[i] != "")
    decreases |s|
  {
    hide BlankEnd, FirstBlank, IsField;
    var i := BlankEnd(s);
    if i < |s| {
      var rest := s[i..];
      var e := FirstBlank(rest);
      FieldsOfSplit(rest[e..]);
      FirstWordIsField(rest, e);
      SepsStart(rest[e..]);
    }
  }

  lemma FirstWordIsField(rest: string, e: nat)
    requires '#' !in rest && rest != "" && !IsBlank(rest[0]) && e == FirstBlank(rest)
    ensures IsField(rest[..e]) && 0 < e
  {}

  lemma SepsStart(s: string)
    requires s == "" || IsBlank(s[0])
    ensures SplitFields(s).words != [] ==> SplitFields(s).seps[0] != ""
  {}

  lemma ParsedBodyIsShaped(net: Net, body: string, cr: bool)
    ensures ParseBody(net, body, cr).Some? ==>
      Shaped(net, ParseBody(net, body, cr).value) && ParseBody(net, body, cr).value.cr == cr
  {
    hide SplitFields, TrimSpace;
    var i := Find(body, '#');
    var f := SplitFields(body[..i]);
    FieldsOfSplit(body[..i]);
    if ParseBody(net, body, cr).Some? {
      assert f.seps[0] in f.seps && f.seps[1] in f.seps && f.seps[|f.words|] in f.seps;
      if 2 < |f.words| {
        assert f.seps[2] in f.seps;
      }
      TrimSpaceOfTrimmed("");
      assert forall n :: n in f.words[1..] ==> n in f.words;
    }
  }

  lemma ParsedIsShaped(net: Net, line: string)
    requires ParseLine(net, line).Some?
    ensures Shaped(net, ParseLine(net, line).value)
    ensures ParseLine(net, line).value.cr <==> EndsInCr(line)
    ensures ParseLine(net, line).value.hasComment && !EndsInCr(line) ==> !EndsInCr(ParseLine(net, line).value.commentRaw)
  {
    hide Shaped, SplitFields, TrimSpace;
    if EndsInCr(line) {
      ParsedBodyIsShaped(net, line[..|line| - 1], true);
    } else {
      ParsedBodyIsShaped(net, line, false);
    }
  }

  // ----------------------------------------------------------------- what is written

  lemma {:induction false} BlankEndIs(s: string, k: nat)
    requires k <= |s| && (k < |s| ==> !IsBlank(s[k])) && forall j :: 0 <= j < k ==> IsBlank(s[j])
    ensures BlankEnd(s) == k
  {}

  lemma SplitStep(lead: string, w: string, rest: string)
    requires AllBlank(lead) && IsField(w) && (rest == "" || IsBlank(rest[0]))
    ensures SplitFields(lead + w + rest)
         == Fields([w] + SplitFields(rest).words, [lead] + SplitFields(rest).seps)
  {
    hide SplitFields, BlankEnd, FirstBlank;
    var s := lead + w + rest;
    BlankEndIs(s, |lead|);
    FirstBlankIs(w + rest, |w|);
    assert s[|lead|..] == w + rest;
    SplitNext(s, |lead|, w + rest, |w|);
    assert s[..|lead|] == lead && (w + rest)[..|w|] == w && (w + rest)[|w|..] == rest;
  }

  lemma SplitOfBlank(s: string)
    requires AllBlank(s)
    ensures SplitFields(s) == Fields([], [s])
  {}

  function Repeated(sep: string, n: nat): (r: seq<string>)
    ensures |r| == n && forall i :: 0 <= i < n ==> r[i] == sep
  {
    seq(n, i => sep)
  }

  lemma {:induction false} SplitOfNames(lead: string, names: seq<string>, sep: string, trail: string)
    requires AllBlank(lead) && AllBlank(sep) && sep != "" && AllBlank(trail)
    requires names != [] && forall n :: n in names ==> IsField(n)
    ensures SplitFields(lead + Join(names, sep) + trail)
         == Fields(names, [lead] + Repeated(sep, |names| - 1) + [trail])
    decreases |names|
  {
    hide SplitFields, IsField, Join;
    var rest := names[1..];
    if |names| == 1 {
      SplitStep(lead, names[0], trail);
      SplitOfBlank(trail);
      JoinOne(names[0], sep);
      assert names == [names[0]];
    } else {
      var tail := sep + Join(rest, sep) + trail;
      SplitOfNames(sep, rest, sep, trail);
      SplitStep(lead, names[0], tail);
      assert names == [names[0]] + rest;
      JoinCons(names[0], rest, sep);
      assert lead + Join(names, sep) + trail == lead + names[0] + tail;
      assert [sep] + Repeated(sep, |rest| - 1) == Repeated(sep, |names| - 1);
    }
  }

  /** The fields of a written entry, with one separator between all its names. */
  lemma SplitOfContent(net: Net, e: Entry)
    requires Shaped(net, e) && ReadsFields(net)
    ensures SplitFields(Content(e))
         == Fields([e.ipText] + e.names, [e.indent, e.ipSep] + Repeated(NameSep(e), |e.names| - 1) + [e.commentSep])
  {
    hide SplitFields, TrimSpace;
    var names := Join(e.names, NameSep(e));
    var rest := e.ipSep + names + e.commentSep;
    assert IsHostname(e.ipText);
    SplitOfNames(e.ipSep, e.names, NameSep(e), e.commentSep);
    SplitStep(e.indent, e.ipText, rest);
    assert Content(e) == e.indent + e.ipText + rest;
    assert [e.indent] + ([e.ipSep] + Repeated(NameSep(e), |e.names| - 1) + [e.commentSep])
        == [e.indent, e.ipSep] + Repeated(NameSep(e), |e.names| - 1) + [e.commentSep];
  }

  lemma {:induction false} JoinHasNo(names: seq<string>, sep: string, c: char)
    requires c !in sep && forall n :: n in names ==> c !in n
    ensures c !in Join(names, sep)
  {
    if names != [] {
      assert names[0] in names;
      JoinHasNo(names[1..], sep, c);
    }
  }

  lemma ContentHasNoHash(net: Net, e: Entry)
    requires Shaped(net, e) && ReadsFields(net)
    ensures '#' !in Content(e)
  {
    hide TrimSpace;
    assert IsHostname(e.ipText) && '#' !in e.ipText;
    assert forall s: string :: AllBlank(s) ==> '#' !in s;
    forall n | n in e.names ensures '#' !in n { assert IsField(n); }
    JoinHasNo(e.names, NameSep(e), '#');
  }

  lemma BodyParts(net: Net, e: Entry)
    requires Shaped(net, e) && ReadsFields(net)
    ensures var body := Content(e) + Tail(e); var i := Find(body, '#');
      && i == |Content(e)| && body[..i] == Content(e)
      && (i < |body| <==> e.hasComment) && (i < |body| ==> body[i + 1..] == e.commentRaw)
  {
    hide Content, TrimSpace;
    ContentHasNoHash(net, e);
    var c := Content(e);
    if e.hasComment {
      FindAfter(c, '#', e.commentRaw);
      assert c + ("#" + e.commentRaw) == c + ['#'] + e.commentRaw;
      assert (c + ("#" + e.commentRaw))[..|c|] == c;
    } else {
      assert c + "" == c && c[..|c|] == c;
      FindIs(c, '#', |c|);
    }
  }

  lemma BodyReads(net: Net, e: Entry)
    requires Shaped(net, e) && ReadsFields(net)
    ensures ParseBody(net, Content(e) + Tail(e), e.cr) == Some(e)
  {
    hide Content, Tail, SplitFields, TrimSpace, IsField;
    BodyParts(net, e);
    SplitOfContent(net, e);
    var words, seps := [e.ipText] + e.names, [e.indent, e.ipSep] + Repeated(NameSep(e), |e.names| - 1) + [e.commentSep];
    assert words[1..] == e.names;
    assert 1 < |e.names| ==> seps[2] == NameSep(e) == e.nameSep;
    assert seps[|words|] == e.commentSep;
  }

  lemma RenderIs(e: Entry)
    requires !e.hasComment ==> e.commentSep == ""
    ensures Render(e) == Content(e) + Tail(e) + (if e.cr then "\r" else "")
  {}

  lemma {:induction false} JoinEnds(names: seq<string>, sep: string)
    requires names != [] && names[|names| - 1] != ""
    ensures Join(names, sep) != ""
         && Join(names, sep)[|Join(names, sep)| - 1] == names[|names| - 1][|names[|names| - 1]| - 1]
  {
    if 1 < |names| {
      JoinEnds(names[1..], sep);
    }
  }

  lemma BodyEnds(net: Net, e: Entry)
    requires Shaped(net, e) && !e.cr && EndsPlainly(e)
    ensures !EndsInCr(Content(e) + Tail(e))
  {
    hide TrimSpace, Join;
    if e.hasComment {
      var t := "#" + e.commentRaw;
      assert (Content(e) + t)[|Content(e) + t| - 1] == t[|t| - 1];
    } else {
      var last := e.names[|e.names| - 1];
      assert last in e.names && IsField(last);
      JoinEnds(e.names, NameSep(e));
      assert Content(e) + Tail(e) == e.indent + e.ipText + e.ipSep + Join(e.names, NameSep(e));
    }
  }

  /** An entry is read back from its line. */
  lemma RenderReads(net: Net, e: Entry)
    requires Shaped(net, e) && ReadsFields(net) && EndsPlainly(e)
    ensures ParseLine(net, Render(e)) == Some(e)
  {
    hide Shaped, ReadsFields, ParseBody, Content, Tail, Render, EndsPlainly;
    ShapedCommentSep(net, e);
    RenderIs(e);
    BodyReads(net, e);
    var body := Content(e) + Tail(e);
    if e.cr {
      assert (body + "\r")[..|body|] == body;
    } else {
      assert body + "" == body;
      BodyEnds(net, e);
    }
  }

  lemma ShapedCommentSep(net: Net, e: Entry)
    requires Shaped(net, e)
    ensures !e.hasComment ==> e.commentSep == ""
  {}

  /** A carriage return added to an entry's line is all that changes in it. */
  lemma CrAdded(net: Net, line: string)
    requires !EndsInCr(line)
    ensures ParseLine(net, line + "\r").Some? <==> ParseLine(net, line).Some?
    ensures ParseLine(net, line).Some? ==>
      ParseLine(net, line + "\r").value == ParseLine(net, line).value.(cr := true)
  {}
}
