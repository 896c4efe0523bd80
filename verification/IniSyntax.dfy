/** What a line of an INI file means, and which keys and values are read back as they
    were written (ini_edit.go). */
module IniSyntax {
  import opened Text

  datatype Parsed =
    | Other | Blank | Comment(out: string) | Section(name: string) | KeyLine(key: string, value: string)

  // ------------------------------------------------------------------- substrings

  /** strings.Index from position `i` on. */
  function IndexOf(s: string, d: string, i: nat): (r: Option<nat>)
    ensures r.Some? ==> i <= r.value && r.value + |d| <= |s| && s[r.value..r.value + |d|] == d
    decreases |s| - i
  {
    if |s| < i + |d| || |s| <= i then None
    else if s[i..i + |d|] == d then Some(i)
    else IndexOf(s, d, i + 1)
  }

  predicate Occurs(s: string, d: string, k: nat) { k + |d| <= |s| && s[k..k + |d|] == d }

  lemma {:induction false} IndexIsFirst(s: string, d: string, i: nat, k: nat)
    requires d != "" && i <= k && Occurs(s, d, k)
    ensures IndexOf(s, d, i).Some? && IndexOf(s, d, i).value <= k
    decreases k - i
  {
    if i < k && s[i..i + |d|] != d {
      IndexIsFirst(s, d, i + 1, k);
    }
  }

  lemma IndexIs(s: string, d: string, k: nat)
    requires d != "" && Occurs(s, d, k) && forall j :: 0 <= j < k ==> !Occurs(s, d, j)
    ensures IndexOf(s, d, 0) == Some(k)
  {
    IndexIsFirst(s, d, 0, k);
    assert Occurs(s, d, IndexOf(s, d, 0).value);
  }

  lemma NoIndex(s: string, d: string)
    requires d != "" && IndexOf(s, d, 0).None?
    ensures forall k :: !Occurs(s, d, k)
  {
    forall k | Occurs(s, d, k) ensures false {
      IndexIsFirst(s, d, 0, k);
    }
  }

  // ---------------------------------------------------------------- reading a line

  datatype KeyValue = KeyValue(key: string, value: string)

  /** splitKeyValue. */
  function Split(delim: string, s: string): KeyValue
  {
    if delim == "" then
      var i := FirstBlank(s);
      if i == |s| then KeyValue(s, "") else KeyValue(s[..i], TrimSpace(s[i..]))
    else
      var i := IndexOf(s, delim, 0);
      if i.None? then KeyValue(s, "")
      else KeyValue(TrimSpace(s[..i.value]), TrimSpace(s[i.value + |delim|..]))
  }

  predicate StartsComment(c: char) { c == '#' || c == ';' }

  /** parseLine: blank, comment, section header, malformed header, or key. */
  function ParseLine(delim: string, text: string): Parsed
  {
    var trimmed := TrimSpace(text);
    if trimmed == "" then Blank
    else if StartsComment(trimmed[0]) then
      var body := TrimSpace(TrimLeft(trimmed, StartsComment));
      Comment(if body != "" && body[0] != '[' then Split(delim, body).key else "")
    else if trimmed[0] == '[' then
      var end := Find(trimmed, ']');
      if end == |trimmed| then Other
      else
        var rest := TrimSpace(trimmed[end + 1..]);
        if rest != "" && !StartsComment(rest[0]) then Other else Section(TrimSpace(trimmed[1..end]))
    else
      var kv := Split(delim, trimmed);
      KeyLine(kv.key, kv.value)
  }

  /** White space around a line, a carriage return too, does not change its meaning. */
  lemma ParseTrimmed(delim: string, text: string, other: string)
    requires TrimSpace(text) == TrimSpace(other)
    ensures ParseLine(delim, text) == ParseLine(delim, other)
  {
    hide Split, TrimSpace, TrimLeft, Find;
  }

  // ------------------------------------------------------------------- the validators

  predicate OneLine(s: string) { '\n' !in s && '\r' !in s }

  /** A space, tab, vertical tab or form feed. */
  predicate HasInnerSpace(s: string) { exists c :: c in s && IsSpace(c) && c != '\n' && c != '\r' }

  predicate ValidSection(s: string)
  {
    OneLine(s) && '[' !in s && ']' !in s && TrimSpace(s) == s
  }

  predicate ValidSeparator(s: string)
  {
    var delim := TrimSpace(s);
    && s != "" && OneLine(s) && !HasInnerSpace(delim)
    && (delim != "" ==> !StartsComment(delim[0]) && delim[0] != '[')
  }

  predicate ValidKey(key: string, separator: string)
  {
    var delim := TrimSpace(separator);
    && key != "" && OneLine(key) && TrimSpace(key) == key
    && !StartsComment(key[0]) && key[0] != '['
    && (delim == "" ==> !HasInnerSpace(key))
    && (delim != "" ==> IndexOf(key, delim, 0).None?)
  }

  predicate ValidValue(s: string) { OneLine(s) && TrimSpace(s) == s }

  datatype Spec = Spec(section: string, key: string, separator: string)

  function Delim(spec: Spec): string { TrimSpace(spec.separator) }

  /** What newIniSpec accepts. */
  predicate ValidSpec(spec: Spec)
  {
    ValidSection(spec.section) && ValidSeparator(spec.separator) && ValidKey(spec.key, spec.separator)
  }

  // ------------------------------------------------------------------ writing a line

  function Render(spec: Spec, indent: string, value: string): string
  {
    var line := indent + spec.key + spec.separator + value;
    if value == "" then TrimRight(line, IsBlank) else line
  }

  /** The white space before the delimiter. */
  function Lead(separator: string): string { separator[..Text.Lead(separator, IsSpace, 0)] }

  /** When a key line is read back: with a separator of white space, if it starts with a
      space or tab, or there is no value to split off; with a delimiter, if white space
      keeps it apart from the key, or the key does not make it begin earlier. */
  predicate ReadsBack(spec: Spec, value: string)
  {
    var delim := Delim(spec);
    if delim == "" then value == "" || (spec.separator != "" && IsBlank(spec.separator[0]))
    else Lead(spec.separator) != "" || IndexOf(spec.key + delim, delim, 0) == Some(|spec.key|)
  }

  lemma TrimmedIs(s: string)
    requires TrimSpace(s) == s
    ensures Trimmed(s)
  {}

  lemma SeparatorParts(separator: string) returns (lead: string, trail: string)
    ensures separator == lead + TrimSpace(separator) + trail && AllSpace(lead) && AllSpace(trail)
    ensures lead == Lead(separator)
  {
    var a := Text.Lead(separator, IsSpace, 0);
    var b := Keep(separator, IsSpace, a, |separator|);
    lead, trail := separator[..a], separator[b..];
  }

  lemma JoinedIsTrimmed(a: string, b: string, c: string)
    requires a != "" && c != "" && Trimmed(a) && Trimmed(c)
    ensures Trimmed(a + b + c)
  {}

  lemma TrimRightTrims(line: string)
    ensures TrimSpace(TrimRight(line, IsBlank)) == TrimSpace(line)
  {
    hide Keep, TrimSpace;
    var n := Keep(line, IsBlank, 0, |line|);
    var kept, tail := line[..n], line[n..];
    assert AllSpace(tail);
    TrimSpaceAround("", kept, tail);
    assert "" + kept + tail == line;
  }

  lemma TrimsBehind(s: string, trail: string)
    requires AllSpace(trail)
    ensures TrimSpace(s + trail) == TrimSpace(s)
  {
    hide TrimSpace;
    assert AllSpace("");
    TrimSpaceAround("", s, trail);
    assert "" + s + trail == s + trail;
  }

  lemma TrimsBefore(lead: string, s: string)
    requires AllSpace(lead)
    ensures TrimSpace(lead + s) == TrimSpace(s)
  {
    hide TrimSpace;
    assert AllSpace("");
    TrimSpaceAround(lead, s, "");
    assert lead + s + "" == lead + s;
  }

  /** The indentation of a written line, and white space at its end, are trimmed off. */
  lemma RenderedTrims(spec: Spec, indent: string, value: string)
    requires AllBlank(indent)
    ensures TrimSpace(Render(spec, indent, value)) == TrimSpace(spec.key + spec.separator + value)
  {
    var body := spec.key + spec.separator + value;
    assert indent + spec.key + spec.separator + value == indent + body;
    TrimRightTrims(indent + body);
    assert AllSpace(indent);
    TrimsBefore(indent, body);
  }

  /** The whole line, trimmed, by its parts. */
  lemma LineTrims(key: string, lead: string, delim: string, trail: string, value: string)
    requires key != "" && Trimmed(key) && Trimmed(delim) && Trimmed(value)
    requires AllSpace(lead) && AllSpace(trail)
    ensures value != "" ==> TrimSpace(key + (lead + delim + trail) + value) == key + (lead + delim + trail) + value
    ensures value == "" && delim != "" ==> TrimSpace(key + (lead + delim + trail) + value) == key + lead + delim
    ensures value == "" && delim == "" ==> TrimSpace(key + (lead + delim + trail) + value) == key
  {
    var line := key + (lead + delim + trail) + value;
    if value != "" {
      JoinedIsTrimmed(key, lead + delim + trail, value);
      TrimSpaceOfTrimmed(line);
    } else if delim != "" {
      JoinedIsTrimmed(key, lead, delim);
      TrimSpaceOfTrimmed(key + lead + delim);
      TrimsBehind(key + lead + delim, trail);
      assert line == key + lead + delim + trail;
    } else {
      assert AllSpace(lead + trail);
      TrimSpaceOfTrimmed(key);
      TrimsBehind(key, lead + trail);
      assert line == key + (lead + trail);
    }
  }

  /** Splitting at white space gives back key and value exactly if the separator starts
      with a space or tab. */
  lemma SplitAtBlank(key: string, sep: string, value: string)
    requires key != "" && !HasInnerSpace(key) && sep != "" && AllSpace(sep)
    requires value != "" && TrimSpace(value) == value
    ensures IsBlank(sep[0]) ==> Split("", key + sep + value) == KeyValue(key, value)
    ensures !IsBlank(sep[0]) ==> Split("", key + sep + value).key != key
  {
    var s := key + sep + value;
    forall j | 0 <= j < |key| ensures !IsBlank(s[j]) { assert s[j] == key[j] && key[j] in key; }
    assert s[|key|] == sep[0];
    if IsBlank(sep[0]) {
      FirstBlankIs(s, |key|);
      assert s[..|key|] == key && s[|key|..] == sep + value + "";
      TrimSpaceAround(sep, value, "");
    } else {
      var i := FirstBlank(s);
      assert |key| < i;
    }
  }

  lemma BareKeySplits(key: string)
    requires !HasInnerSpace(key)
    ensures Split("", key) == KeyValue(key, "")
  {}

  lemma EarlierOccurrence(key: string, delim: string, rest: string, j: nat)
    requires delim != "" && j < |key| && Occurs(key + delim + rest, delim, j)
    ensures Occurs(key + delim, delim, j)
  {}

  lemma LaterOccurrence(s: string, delim: string, rest: string, j: nat)
    requires Occurs(s, delim, j)
    ensures Occurs(s + rest, delim, j)
  {}

  /** The delimiter begins earlier than where it was written only if the key makes it so. */
  lemma DelimiterAt(key: string, lead: string, delim: string, rest: string)
    requires delim != "" && !HasInnerSpace(delim) && OneLine(delim) && AllSpace(lead)
    requires IndexOf(key, delim, 0).None?
    ensures var i := IndexOf(key + lead + delim + rest, delim, 0);
      && i.Some? && (i.value == |key| + |lead| || i.value < |key|)
      && (i.value == |key| + |lead| <==> lead != "" || IndexOf(key + delim, delim, 0) == Some(|key|))
  {
    hide IndexOf, HasInnerSpace;
    var s := key + lead + delim + rest;
    var at := |key| + |lead|;
    assert s[at..at + |delim|] == delim;
    IndexIsFirst(s, delim, 0, at);
    var i := IndexOf(s, delim, 0).value;
    assert Occurs(s, delim, i);
    NoIndex(key, delim);
    if lead != "" {
      assert s == key + lead + (delim + rest);
      OccursOutsideSpace(key, lead, delim, delim + rest, i);
    } else {
      assert s == key + delim + rest;
      DelimiterAfterKey(key, delim, rest);
    }
  }

  /** Without white space in between, the delimiter is found where it is found in the key
      followed by the delimiter alone. */
  lemma DelimiterAfterKey(key: string, delim: string, rest: string)
    requires delim != ""
    ensures IndexOf(key + delim, delim, 0).Some? && IndexOf(key + delim, delim, 0).value <= |key|
    ensures IndexOf(key + delim + rest, delim, 0) == IndexOf(key + delim, delim, 0)
  {
    var a, s := key + delim, key + delim + rest;
    assert a[|key|..|key| + |delim|] == delim;
    IndexIsFirst(a, delim, 0, |key|);
    var k := IndexOf(a, delim, 0).value;
    LaterOccurrence(a, delim, rest, k);
    forall j | 0 <= j < k ensures !Occurs(s, delim, j) {
      if Occurs(s, delim, j) {
        EarlierOccurrence(key, delim, rest, j);
        IndexIsFirst(a, delim, 0, j);
      }
    }
    IndexIs(s, delim, k);
  }

  /** A text that occurs across white space contains some. */
  lemma OverlapHasSpace(key: string, lead: string, delim: string, rest: string, j: nat)
    requires OneLine(delim) && AllSpace(lead) && lead != "" && delim != ""
    requires Occurs(key + lead + rest, delim, j) && j < |key| + |lead| && |key| < j + |delim|
    ensures HasInnerSpace(delim)
  {
    var s := key + lead + rest;
    var p := if j < |key| then |key| else j;
    assert s[p] == lead[p - |key|] && lead[p - |key|] in lead;
    assert s[j..j + |delim|][p - j] == s[p];
    assert delim[p - j] in delim && IsSpace(delim[p - j]);
  }

  lemma OccursInKey(key: string, rest: string, delim: string, j: nat)
    requires Occurs(key + rest, delim, j) && j + |delim| <= |key|
    ensures Occurs(key, delim, j)
  {}

  /** A delimiter without white space does not overlap white space. */
  lemma OccursOutsideSpace(key: string, lead: string, delim: string, rest: string, j: nat)
    requires delim != "" && !HasInnerSpace(delim) && OneLine(delim) && AllSpace(lead) && lead != ""
    requires Occurs(key + lead + rest, delim, j)
    ensures |key| + |lead| <= j || Occurs(key, delim, j)
  {
    hide Occurs, HasInnerSpace;
    if j < |key| + |lead| && |key| < j + |delim| {
      OverlapHasSpace(key, lead, delim, rest, j);
    } else if j < |key| + |lead| {
      assert key + lead + rest == key + (lead + rest);
      OccursInKey(key, lead + rest, delim, j);
    }
  }

  lemma KeyLineIs(delim: string, text: string, key: string, rest: string)
    requires key != "" && !StartsComment(key[0]) && key[0] != '[' && TrimSpace(text) == key + rest
    ensures ParseLine(delim, text) == KeyLine(Split(delim, key + rest).key, Split(delim, key + rest).value)
  {}

  lemma TrimIsNoLonger(s: string)
    ensures |TrimSpace(s)| <= |s|
  {}

  lemma PartsOfLine(a: string, delim: string, rest: string)
    ensures (a + delim + rest)[..|a|] == a && (a + delim + rest)[|a| + |delim|..] == rest
  {}

  lemma SplitAtIndex(delim: string, s: string, i: nat)
    requires delim != "" && IndexOf(s, delim, 0) == Some(i)
    ensures i + |delim| <= |s|
    ensures Split(delim, s) == KeyValue(TrimSpace(s[..i]), TrimSpace(s[i + |delim|..]))
  {
    hide TrimSpace, IndexOf;
  }

  lemma SplitAtDelimiter(key: string, lead: string, delim: string, rest: string)
    requires delim != "" && !HasInnerSpace(delim) && OneLine(delim) && AllSpace(lead)
    requires IndexOf(key, delim, 0).None? && key != "" && TrimSpace(key) == key
    ensures var kv := Split(delim, key + (lead + delim + rest));
      if lead != "" || IndexOf(key + delim, delim, 0) == Some(|key|)
      then kv == KeyValue(key, TrimSpace(rest)) else kv.key != key
  {
    hide TrimSpace, HasInnerSpace, OneLine, IndexOf, Split, AllSpace;
    var s := key + lead + delim + rest;
    assert key + (lead + delim + rest) == s;
    DelimiterAt(key, lead, delim, rest);
    var i := IndexOf(s, delim, 0).value;
    SplitAtIndex(delim, s, i);
    if i == |key| + |lead| {
      PartsOfLine(key + lead, delim, rest);
      TrimsBehind(key, lead);
    } else {
      TrimIsNoLonger(s[..i]);
    }
  }

  lemma DelimIsOneLine(separator: string)
    requires ValidSeparator(separator)
    ensures OneLine(TrimSpace(separator))
  {}

  /** A line written for a key and a value is always a key line, and it is read back as
      that key and value if and only if the separator keeps them apart. */
  lemma RenderReadsBack(spec: Spec, indent: string, value: string)
    requires ValidSpec(spec) && ValidValue(value) && AllBlank(indent)
    ensures var line := ParseLine(Delim(spec), Render(spec, indent, value));
      && line.KeyLine? && (line.key == spec.key <==> ReadsBack(spec, value))
      && (ReadsBack(spec, value) ==> line.value == value)
  {
    hide Render, ParseLine, TrimSpace, Split, HasInnerSpace, OneLine;
    var key, delim, text := spec.key, Delim(spec), Render(spec, indent, value);
    RenderedTrims(spec, indent, value);
    var lead, trail := SeparatorParts(spec.separator);
    TrimmedIs(key);
    TrimmedIs(value);
    DelimIsTrimmed(spec.separator);
    LineTrims(key, lead, delim, trail, value);
    if delim != "" {
      DelimIsOneLine(spec.separator);
      var rest := if value == "" then "" else trail + value;
      assert TrimSpace(text) == key + (lead + delim + rest) by { Regroup(key, lead, delim, trail, value); }
      KeyLineIs(delim, text, key, lead + delim + rest);
      SplitAtDelimiter(key, lead, delim, rest);
      TrimsBefore(trail, value);
    } else {
      WhiteSeparator(spec, text, lead, trail, value);
    }
  }

  lemma Regroup(key: string, lead: string, delim: string, trail: string, value: string)
    ensures key + (lead + delim + trail) + value == key + (lead + delim + (trail + value))
    ensures key + lead + delim == key + (lead + delim + "")
  {}

  lemma DelimIsTrimmed(s: string)
    ensures Trimmed(TrimSpace(s))
  {}

  lemma WhiteSeparator(spec: Spec, text: string, lead: string, trail: string, value: string)
    requires ValidSpec(spec) && ValidValue(value) && Delim(spec) == ""
    requires spec.separator == lead + "" + trail && AllSpace(lead) && AllSpace(trail)
    requires TrimSpace(text) == if value == "" then spec.key else spec.key + (lead + "" + trail) + value
    ensures var line := ParseLine("", text);
      && line.KeyLine? && (line.key == spec.key <==> ReadsBack(spec, value))
      && (ReadsBack(spec, value) ==> line.value == value)
  {
    hide ParseLine, TrimSpace, Split, HasInnerSpace, OneLine;
    var key, sep := spec.key, spec.separator;
    if value == "" {
      assert key + "" == key;
      KeyLineIs("", text, key, "");
      BareKeySplits(key);
    } else {
      assert key + (sep + value) == key + sep + value;
      KeyLineIs("", text, key, sep + value);
      assert AllSpace(sep);
      SplitAtBlank(key, sep, value);
    }
  }

  const COLONS := Spec("", "a:", "::")

  lemma ColonsAreValid()
    ensures ValidSpec(COLONS) && Delim(COLONS) == "::"
  {}

  lemma ColonsAreFoundEarly(s: string)
    requires 3 <= |s| && s[0] == 'a' && s[1] == ':' && s[2] == ':'
    ensures IndexOf(s, "::", 0) == Some(1)
  {}

  /** The case the validators let through: a key that ends in the start of the delimiter. */
  lemma ColonsAreNotReadBack()
    ensures ValidSpec(COLONS) && !ReadsBack(COLONS, "b")
    ensures ParseLine("::", Render(COLONS, "", "b")) == KeyLine("a", ":b")
  {
    ColonsAreValid();
    ColonsAreFoundEarly("a:" + "::");
    assert Text.Lead("::", IsSpace, 0) == 0;
    var line := Render(COLONS, "", "b");
    assert line == "a:::b";
    ColonsAreFoundEarly(line);
    assert line[..1] == "a" && line[1 + 2..] == ":b";
    TrimSpaceOfTrimmed(line);
    TrimSpaceOfTrimmed("a");
    TrimSpaceOfTrimmed(":b");
    hide IndexOf, TrimSpace, Render;
  }

  /** With a delimiter of one byte every valid key and value is read back. */
  lemma OneByteReadsBack(spec: Spec, value: string)
    requires ValidSpec(spec) && |Delim(spec)| == 1
    ensures ReadsBack(spec, value)
  {
    var key, delim := spec.key, Delim(spec);
    var s := key + delim;
    NoIndex(key, delim);
    forall j | 0 <= j < |key| ensures !Occurs(s, delim, j) {
      if Occurs(s, delim, j) {
        OccursInKey(key, delim, delim, j);
      }
    }
    assert s[|key|..|key| + |delim|] == delim;
    IndexIs(s, delim, |key|);
  }

  // --------------------------------------------------------------- what lines there are

  /** A line is what it is without the white space around it. */
  lemma LineIsTrimmed(delim: string, a: string, line: string, b: string)
    requires AllSpace(a) && AllSpace(b)
    ensures ParseLine(delim, a + line + b) == ParseLine(delim, line)
  {
    TrimSpaceAround(a, line, b);
    ParseTrimmed(delim, a + line + b, line);
  }

  lemma BlankIs(delim: string)
    ensures ParseLine(delim, "") == Blank
  {}

  /** A comment starts with a number sign or a semicolon; it comments out the key that is split
      off what follows these signs, unless that starts like a header. */
  lemma CommentIs(delim: string, signs: string, gap: string, body: string)
    requires signs != "" && (forall i :: 0 <= i < |signs| ==> StartsComment(signs[i])) && AllSpace(gap)
    requires Trimmed(body) && (body != "" && gap == "" ==> !StartsComment(body[0]))
    ensures ParseLine(delim, signs + gap + body)
         == Comment(if body != "" && body[0] != '[' then Split(delim, body).key else "")
  {
    hide Split;
    var line := signs + gap + body;
    if body == "" {
      TrimSpaceOfTrimmed(signs);
      TrimsBehind(signs, gap);
      assert line == signs + gap;
      TrimLeftIs(signs, StartsComment, |signs|);
    } else {
      assert line == signs + (gap + body);
      TrimSpaceOfTrimmed(line);
      assert gap != "" ==> gap[0] in gap && line[|signs|] == gap[0];
      assert gap == "" ==> line[|signs|] == body[0];
      TrimLeftIs(line, StartsComment, |signs|);
      assert line[|signs|..] == gap + body;
      TrimsBefore(gap, body);
      TrimSpaceOfTrimmed(body);
    }
  }

  /** A header is a name in brackets, alone or before a comment. */
  lemma HeaderIs(delim: string, name: string, rest: string)
    requires ']' !in name && Trimmed(rest)
    ensures ParseLine(delim, "[" + name + "]" + rest)
         == if rest == "" || StartsComment(rest[0]) then Section(TrimSpace(name)) else Other
  {
    hide Split, TrimSpace;
    HeaderParts(name, rest);
    TrimSpaceOfTrimmed("[" + name + "]" + rest);
    TrimSpaceOfTrimmed(rest);
    hide Trimmed, Find;
  }

  lemma HeaderParts(name: string, rest: string)
    requires ']' !in name && Trimmed(rest)
    ensures var line := "[" + name + "]" + rest;
      && Trimmed(line) && line[0] == '[' && Find(line, ']') == |name| + 1 && |line| == |name| + 2 + |rest|
      && line[1..|name| + 1] == name && line[|name| + 2..] == rest
  {
    var line := "[" + name + "]" + rest;
    FindAfter("[" + name, ']', rest);
    assert line == "[" + name + [']'] + rest;
  }

  lemma BadHeaderIs(delim: string, name: string)
    requires ']' !in name && Trimmed(name)
    ensures ParseLine(delim, "[" + name) == Other
  {
    hide Split;
    TrimSpaceOfTrimmed("[" + name);
  }

  predicate StartsKey(line: string) { line != "" && !StartsComment(line[0]) && line[0] != '[' }

  /** Any other line is a key: up to the first delimiter, or the first space or tab if there is
      no delimiter, and the value is what comes after it. */
  lemma DelimitedKeyIs(delim: string, key: string, value: string)
    requires delim != "" && StartsKey(key + delim + value) && Trimmed(key + delim + value)
    requires IndexOf(key + delim + value, delim, 0) == Some(|key|)
    ensures ParseLine(delim, key + delim + value) == KeyLine(TrimSpace(key), TrimSpace(value))
  {
    hide TrimSpace;
    var line := key + delim + value;
    TrimSpaceOfTrimmed(line);
    assert line[..|key|] == key && line[|key| + |delim|..] == value;
  }

  lemma BareKeyIs(delim: string, line: string)
    requires StartsKey(line) && Trimmed(line)
    requires if delim == "" then forall i :: 0 <= i < |line| ==> !IsBlank(line[i]) else forall k :: !Occurs(line, delim, k)
    ensures ParseLine(delim, line) == KeyLine(line, "")
  {
    hide TrimSpace;
    TrimSpaceOfTrimmed(line);
    if delim == "" {
      FirstBlankIs(line, |line|);
    } else {
      assert IndexOf(line, delim, 0).Some? ==> Occurs(line, delim, IndexOf(line, delim, 0).value);
    }
  }

  lemma SpacedKeyIs(key: string, gap: string, value: string)
    requires StartsKey(key) && (forall i :: 0 <= i < |key| ==> !IsBlank(key[i])) && gap != "" && AllBlank(gap)
    requires value != "" && Trimmed(value) && !IsSpace(key[0])
    ensures ParseLine("", key + gap + value) == KeyLine(key, value)
  {
    hide TrimSpace;
    var line := key + gap + value;
    TrimSpaceOfTrimmed(line);
    FirstBlankIs(line, |key|);
    assert line[..|key|] == key && line[|key|..] == gap + value;
    TrimsBefore(gap, value);
    TrimSpaceOfTrimmed(value);
  }

  // ------------------------------------------------------ what is read can be written

  lemma PartOfLine(s: string, a: nat, b: nat)
    requires OneLine(s) && a <= b <= |s|
    ensures OneLine(s[a..b])
  {}

  lemma TrimmedIsValue(s: string)
    requires OneLine(s)
    ensures ValidValue(TrimSpace(s)) && Trimmed(TrimSpace(s))
  {
    hide TrimSpace, OneLine;
    var a, b := TrimSpaceParts(s);
    PartOfLine(s, a, b);
    TrimSpaceOfTrimmed(s[a..b]);
  }

  lemma EmptyIsValue()
    ensures ValidValue("") && Trimmed("") && OneLine("")
  {
    TrimSpaceOfTrimmed("");
  }

  lemma SplitIsValue(delim: string, s: string)
    requires OneLine(s)
    ensures ValidValue(Split(delim, s).value)
  {
    hide TrimSpace, OneLine, ValidValue, IndexOf;
    EmptyIsValue();
    if delim == "" {
      var i := FirstBlank(s);
      PartOfLine(s, i, |s|);
      assert s[i..|s|] == s[i..];
      TrimmedIsValue(s[i..]);
    } else if IndexOf(s, delim, 0).Some? {
      var i := IndexOf(s, delim, 0).value + |delim|;
      PartOfLine(s, i, |s|);
      assert s[i..|s|] == s[i..];
      TrimmedIsValue(s[i..]);
    }
  }

  /** The key that is split off a line that starts with one. */
  lemma SplitIsKey(separator: string, s: string)
    requires OneLine(s) && Trimmed(s) && StartsKey(s)
    ensures var delim := TrimSpace(separator); var key := Split(delim, s).key;
      key != "" && (delim == "" ==> !HasInnerSpace(key)) ==> ValidKey(key, separator)
  {
    hide TrimSpace;
    var delim := TrimSpace(separator);
    var i := if delim == "" then FirstBlank(s) else if IndexOf(s, delim, 0).Some? then IndexOf(s, delim, 0).value else |s|;
    assert s[..|s|] == s;
    PartOfLine(s, 0, i);
    if delim == "" {
      BlankKey(s[..i]);
    } else {
      TrimSpaceOfTrimmed(s);
      TrimmedStart(s, i);
      NoDelimiterBefore(s, delim, i);
    }
  }

  lemma BlankKey(key: string)
    requires OneLine(key)
    ensures !HasInnerSpace(key) ==> TrimSpace(key) == key
  {
    if !HasInnerSpace(key) {
      assert forall c :: c in key ==> !IsSpace(c);
      TrimSpaceOfTrimmed(key);
    }
  }

  lemma TrimmedStart(s: string, i: nat)
    requires OneLine(s) && Trimmed(s) && i <= |s|
    ensures var key := TrimSpace(s[..i]); key <= s && |key| <= i && OneLine(key) && TrimSpace(key) == key
  {
    var a, _ := TrimSpaceParts(s[..i]);
    PartOfLine(s, 0, i);
    TrimmedIsValue(s[..i]);
    if 0 < i {
      StartsPlainly(s[..i], a);
    }
  }

  lemma StartsPlainly(s: string, a: nat)
    requires s != "" && !IsSpace(s[0]) && a <= |s|
    ensures AllSpace(s[..a]) ==> a == 0
  {
    if 0 < a {
      assert s[..a][0] == s[0];
    }
  }

  lemma NoDelimiterBefore(s: string, delim: string, i: nat)
    requires delim != "" && i <= |s| && (IndexOf(s, delim, 0).Some? ==> i == IndexOf(s, delim, 0).value)
    ensures forall key :: key <= s && |key| <= i ==> IndexOf(key, delim, 0).None?
  {
    forall key | key <= s && |key| <= i ensures IndexOf(key, delim, 0).None? {
      if IndexOf(key, delim, 0).Some? {
        var j := IndexOf(key, delim, 0).value;
        assert s[j..j + |delim|] == key[j..j + |delim|];
        IndexIsFirst(s, delim, 0, j);
      }
    }
  }

  /** What a line sets can be written: its value is a valid one, and so is its key for every
      separator with that delimiter, unless it is empty or, where white space separates, has
      other white space in it. */
  lemma ReadIsValid(separator: string, text: string)
    requires OneLine(text)
    ensures var line := ParseLine(TrimSpace(separator), text);
      line.KeyLine? ==>
        && ValidValue(line.value)
        && (line.key != "" && (TrimSpace(separator) == "" ==> !HasInnerSpace(line.key)) ==> ValidKey(line.key, separator))
  {
    hide TrimSpace, OneLine, ValidValue, Split, Find, ValidKey, HasInnerSpace, TrimLeft;
    TrimmedIsValue(text);
    ValueIsOneLine(TrimSpace(text));
    SplitIsValue(TrimSpace(separator), TrimSpace(text));
    if StartsKey(TrimSpace(text)) {
      SplitIsKey(separator, TrimSpace(text));
    }
  }

  lemma ValueIsOneLine(s: string)
    ensures ValidValue(s) ==> OneLine(s)
  {}

  /** A written line has nothing but the key, the separator and the value behind its
      indentation, and does not end in a space or tab. */
  lemma RenderIs(spec: Spec, indent: string, value: string)
    requires ValidSpec(spec) && ValidValue(value)
    ensures var line, whole := Render(spec, indent, value), indent + spec.key + spec.separator + value;
      && line <= whole && AllBlank(whole[|line|..]) && (value != "" ==> line == whole)
      && |indent + spec.key| <= |line| && !IsBlank(line[|line| - 1])
  {
    hide HasInnerSpace, IndexOf, OneLine, ValidSeparator, ValidSection;
    var whole := indent + spec.key + spec.separator + value;
    TrimmedIs(spec.key);
    TrimmedIs(value);
    var at := |indent + spec.key| - 1;
    assert whole[at] == spec.key[|spec.key| - 1];
    if value != "" {
      assert whole[|whole| - 1] == value[|value| - 1];
    }
  }
}
