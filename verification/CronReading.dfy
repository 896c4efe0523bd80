/** What cron files say, whoever wrote them, and which schedules there are (cron.go): the
    reader and the validator described by the lines and items themselves. */
module CronReading {
  import opened Text
  import opened Decimal
  import opened CronJob
  import opened CronFile

  // ---------------------------------------------------------------------- job lines

  predicate NoBlanks(w: string) { w != "" && forall i :: 0 <= i < |w| ==> !IsBlank(w[i]) }

  predicate IsGap(s: string) { s != "" && AllBlank(s) }

  /** Words, each followed by a gap, and then the rest. */
  function Spaced(words: seq<string>, gaps: seq<string>, rest: string): string
    requires |gaps| == |words|
  {
    if words == [] then rest else words[0] + gaps[0] + Spaced(words[1..], gaps[1..], rest)
  }

  lemma CutOneWord(lead: string, w: string, gap: string, rest: string, n: nat)
    requires AllBlank(lead) && NoBlanks(w) && IsGap(gap)
    ensures CutFields(lead + (w + gap + rest), n + 1)
         == Fields([w] + CutFields(gap + rest, n).words, CutFields(gap + rest, n).rest)
  {
    hide CutFields, TrimLeft, FirstBlank, NoBlanks, IsGap, AllBlank;
    var r := w + gap + rest;
    WordEnds(w, gap, rest);
    LeadIsTrimmed(lead, r);
    CutStep(lead + r, n, r, |w|);
  }

  lemma WordEnds(w: string, gap: string, rest: string)
    requires NoBlanks(w) && IsGap(gap)
    ensures var r := w + gap + rest;
      r != "" && !IsBlank(r[0]) && FirstBlank(r) == |w| && r[..|w|] == w && r[|w|..] == gap + rest
  {
    hide FirstBlank;
    var r := w + gap + rest;
    assert r[|w|] == gap[0] && gap[0] in gap;
    assert forall i :: 0 <= i < |w| ==> r[i] == w[i];
    FirstBlankIs(r, |w|);
  }

  /** Words are cut apart whatever blanks stand between them. */
  lemma {:induction false} SpacedIsCut(lead: string, words: seq<string>, gaps: seq<string>, rest: string)
    requires AllBlank(lead) && |gaps| == |words| && rest != "" && !IsBlank(rest[0])
    requires (forall w :: w in words ==> NoBlanks(w)) && forall g :: g in gaps ==> IsGap(g)
    ensures CutFields(lead + Spaced(words, gaps, rest), |words|) == Fields(words, rest)
    decreases |words|
  {
    hide TrimLeft, CutFields, FirstBlank;
    if words == [] {
      NoFields(lead, rest);
    } else {
      assert words[0] in words && gaps[0] in gaps;
      CutOneWord(lead, words[0], gaps[0], Spaced(words[1..], gaps[1..], rest), |words| - 1);
      SpacedIsCut(gaps[0], words[1..], gaps[1..], rest);
      assert words == [words[0]] + words[1..];
    }
  }

  /** A line of a time of five words or one that starts with "@", a user and a command is a
      job line, whatever blanks stand between them; the words of the time are joined with
      single spaces. */
  lemma JobWordsAre(lead: string, time: seq<string>, user: string, gaps: seq<string>, command: string)
    requires |time| == 5 || |time| == 1
    requires (forall w :: w in time + [user] ==> NoBlanks(w)) && ("@" <= time[0] <==> |time| == 1)
    requires AllBlank(lead) && |gaps| == |time| + 1 && (forall g :: g in gaps ==> IsGap(g))
    requires command != "" && !IsBlank(command[0])
    ensures ReadJob(lead + Spaced(time + [user], gaps, command)) == Some(JobWords(Join(time, " "), user, command))
  {
    hide CutFields, TrimLeft, Join, NoBlanks;
    var words := time + [user];
    var l := lead + Spaced(words, gaps, command);
    SpacedIsCut(lead, words, gaps, command);
    assert words[0] == time[0] && time[0] in words;
    SpacedStarts(words, gaps, command);
    LeadIsTrimmed(lead, Spaced(words, gaps, command));
    assert words[..|time|] == time && words[|time|] == user;
  }

  lemma SpacedStarts(words: seq<string>, gaps: seq<string>, rest: string)
    requires |gaps| == |words| && words != [] && NoBlanks(words[0])
    ensures var s := Spaced(words, gaps, rest);
      s != "" && !IsBlank(s[0]) && ("@" <= s <==> "@" <= words[0])
  {}

  lemma LeadIsTrimmed(lead: string, s: string)
    requires AllBlank(lead) && s != "" && !IsBlank(s[0])
    ensures TrimLeft(lead + s, IsBlank) == s
  {
    TrimLeftIs(lead + s, IsBlank, |lead|);
    assert (lead + s)[|lead|..] == s;
  }

  lemma SpacedCons(w: string, gap: string, words: seq<string>, gaps: seq<string>, rest: string)
    requires |gaps| == |words|
    ensures Spaced([w] + words, [gap] + gaps, rest) == w + gap + Spaced(words, gaps, rest)
  {
    assert ([w] + words)[1..] == words && ([gap] + gaps)[1..] == gaps;
  }

  lemma SpacedFirst(words: seq<string>, gaps: seq<string>, rest: string)
    requires |gaps| == |words| && (words != [] ==> NoBlanks(words[0])) && (rest != "" ==> !IsBlank(rest[0]))
    ensures rest != "" || words != [] ==> Spaced(words, gaps, rest) != "" && !IsBlank(Spaced(words, gaps, rest)[0])
  {}

  /** A cut line with the blanks around its words. */
  ghost predicate IsCut(s: string, n: nat, lead: string, f: Fields, gaps: seq<string>)
  {
    && |f.words| <= n && |gaps| == |f.words| && AllBlank(lead)
    && s == lead + Spaced(f.words, gaps, f.rest)
    && (forall w :: w in f.words ==> NoBlanks(w)) && (forall g :: g in gaps ==> AllBlank(g))
    && (f.rest != "" ==> |f.words| == n && !IsBlank(f.rest[0]) && forall g :: g in gaps ==> g != "")
  }

  lemma WordAtStart(r: string)
    requires r != "" && !IsBlank(r[0])
    ensures NoBlanks(r[..FirstBlank(r)])
  {}

  lemma CutGrows(lead: string, r: string, n: nat, e: nat, gap: string, f: Fields, gaps: seq<string>)
    requires AllBlank(lead) && r != "" && !IsBlank(r[0]) && e == FirstBlank(r) && IsCut(r[e..], n, gap, f, gaps)
    ensures IsCut(lead + r, n + 1, lead, Fields([r[..e]] + f.words, f.rest), [gap] + gaps)
  {
    hide Spaced, NoBlanks, FirstBlank;
    WordAtStart(r);
    SpacedCons(r[..e], gap, f.words, gaps, f.rest);
    SpacedFirst(f.words, gaps, f.rest);
    var tail := Spaced(f.words, gaps, f.rest);
    assert r == r[..e] + r[e..] && r[..e] + gap + tail == r[..e] + (gap + tail);
    assert gap == "" ==> r[e..] == tail;
  }

  lemma CutNext(s: string, n: nat, k: nat, gap: string, gaps: seq<string>)
    requires 0 < n && k == Lead(s, IsBlank, 0) && k < |s|
    requires var r := s[k..]; var e := FirstBlank(r); IsCut(r[e..], n - 1, gap, CutFields(r[e..], n - 1), gaps)
    ensures IsCut(s, n, s[..k], CutFields(s, n), [gap] + gaps)
  {
    hide FirstBlank, CutFields, IsCut, AllBlank, IsBlank;
    var r := s[k..];
    var e := FirstBlank(r);
    LeadIsBlank(s, k);
    CutStep(s, n - 1, r, e);
    assert s == s[..k] + r;
    CutGrows(s[..k], r, n - 1, e, gap, CutFields(r[e..], n - 1), gaps);
  }

  lemma CutEnds(s: string, n: nat, k: nat)
    requires k == Lead(s, IsBlank, 0) && (n == 0 || k == |s|)
    ensures IsCut(s, n, s[..k], CutFields(s, n), [])
  {
    hide AllBlank, NoBlanks;
    LeadIsBlank(s, k);
    assert s == s[..k] + s[k..];
  }

  /** Nothing is lost in cutting: a line is its words with the blanks around them. */
  lemma {:induction false} CutIsSpaced(s: string, n: nat) returns (lead: string, gaps: seq<string>)
    ensures IsCut(s, n, lead, CutFields(s, n), gaps)
    decreases n
  {
    hide FirstBlank, CutFields, IsCut, Lead;
    var k := Lead(s, IsBlank, 0);
    lead := s[..k];
    if n == 0 || k == |s| {
      CutEnds(s, n, k);
      gaps := [];
    } else {
      var r := s[k..];
      var gap, more := CutIsSpaced(r[FirstBlank(r)..], n - 1);
      CutNext(s, n, k, gap, more);
      gaps := [gap] + more;
    }
  }

  lemma LeadIsBlank(s: string, k: nat)
    requires k == Lead(s, IsBlank, 0)
    ensures AllBlank(s[..k]) && (k < |s| ==> !IsBlank(s[k]))
  {}

  /** A job line is nothing else: what is read as a job has all its words, and the command is
      the rest of the line. */
  lemma JobIsWhole(l: string) returns (lead: string, time: seq<string>, gaps: seq<string>)
    requires ReadJob(l).Some?
    ensures (|time| == 5 || |time| == 1) && |gaps| == |time| + 1 && ("@" <= time[0] <==> |time| == 1)
    ensures AllBlank(lead) && forall g :: g in gaps ==> IsGap(g)
    ensures var j := ReadJob(l).value;
      && j.schedule == Join(time, " ") && j.command != "" && !IsBlank(j.command[0])
      && (forall w :: w in time + [j.user] ==> NoBlanks(w))
      && l == lead + Spaced(time + [j.user], gaps, j.command)
  {
    hide CutFields, TrimLeft, Join, NoBlanks, Spaced, AllBlank, IsBlank;
    var n := if "@" <= TrimLeft(l, IsBlank) then 1 else 5;
    var f := CutFields(l, n + 1);
    lead, gaps := CutIsSpaced(l, n + 1);
    time := f.words[..n];
    assert f.words == time + [f.words[n]];
    assert time[0] == f.words[0] && f.words[0] in f.words;
    SpacedStarts(f.words, gaps, f.rest);
    LeadIsTrimmed(lead, Spaced(f.words, gaps, f.rest));
  }

  // ----------------------------------------------------------------------- settings

  /** A setting is a name and a value with white space anywhere around them. */
  lemma SettingReads(a: string, name: string, b: string, c: string, v: string, d: string)
    requires AllSpace(a) && AllSpace(b) && AllSpace(c) && AllSpace(d) && ValidEnvName(name) && Trimmed(v)
    ensures ReadEnv(a + name + b + "=" + (c + v + d)) == Some(Setting(name, Unquoted(v)))
  {
    hide TrimSpace, Unquoted, ValidEnvName;
    NameIsTrimmed(name);
    NoEquals(a);
    NoEquals(b);
    CutAfter(a + name + b, '=', c + v + d);
    assert a + name + b + "=" + (c + v + d) == a + name + b + ['='] + (c + v + d);
    TrimSpaceAround(a, name, b);
    TrimSpaceAround(c, v, d);
    TrimSpaceOfTrimmed(v);
  }

  lemma NoEquals(s: string)
    requires AllSpace(s)
    ensures '=' !in s
  {}

  /** One pair of quotes of the same kind is taken off, and nothing else. */
  lemma UnquotedIs(v: string)
    ensures if exists q, x :: (q == '"' || q == '\'') && v == [q] + x + [q] then |v| == |Unquoted(v)| + 2 && v[1..|v| - 1] == Unquoted(v)
            else Unquoted(v) == v
  {
    if Unquoted(v) != v {
      assert v == [v[0]] + v[1..|v| - 1] + [v[|v| - 1]];
    }
  }

  /** A line means the same with a carriage return at its end. */
  lemma LineEndIsIgnored(p: Parsed, line: string)
    requires line != "" ==> line[|line| - 1] != '\r'
    ensures ReadLine(p, line + "\r") == ReadLine(p, line)
  {
    hide ReadEnv, ReadJob, TrimSpace, IsComment;
    var l := line + "\r";
    assert l[..|line|] == line;
    assert WithoutCr(l) == line == WithoutCr(line);
  }

  // --------------------------------------------------------------------- whole files

  predicate Ignored(line: string) { TrimSpace(WithoutCr(line)) == "" || IsComment(WithoutCr(line)) }

  predicate IsSetting(line: string) { !Ignored(line) && ReadEnv(WithoutCr(line)).Some? }

  predicate IsJob(line: string) { !Ignored(line) && ReadEnv(WithoutCr(line)).None? }

  /** A job line with all its words. */
  predicate IsWholeJob(line: string) { IsJob(line) && ReadJob(WithoutCr(line)).Some? }

  function Jobs(lines: seq<string>): nat
  {
    if lines == [] then 0 else Jobs(lines[..|lines| - 1]) + if IsJob(lines[|lines| - 1]) then 1 else 0
  }

  /** The last value set for a name. */
  function LastSet(lines: seq<string>, k: string): Option<string>
  {
    if lines == [] then None
    else
      var init, last := lines[..|lines| - 1], lines[|lines| - 1];
      if IsSetting(last) && ReadEnv(WithoutCr(last)).value.name == k then Some(ReadEnv(WithoutCr(last)).value.value)
      else LastSet(init, k)
  }

  lemma {:induction false} ReadPush(p: Parsed, lines: seq<string>, l: string)
    ensures ReadLines(p, lines + [l]) == ReadLine(ReadLines(p, lines), l)
    decreases |lines|
  {
    hide ReadLine;
    var all := lines + [l];
    if lines == [] {
      assert all[0] == l && all[1..] == [];
      assert ReadLines(ReadLine(p, l), []) == ReadLine(p, l);
    } else {
      assert all[0] == lines[0] && all[1..] == lines[1..] + [l];
      ReadPush(ReadLine(p, lines[0]), lines[1..], l);
    }
  }

  /** The first whole job line of the lines, or their number. */
  function FirstJob(lines: seq<string>): (f: nat)
    ensures f <= |lines|
  {
    if lines == [] then 0
    else
      var n := |lines| - 1;
      var before := FirstJob(lines[..n]);
      if before < n then before else if IsWholeJob(lines[n]) then n else n + 1
  }

  lemma {:induction false} FirstJobIs(lines: seq<string>)
    ensures var f := FirstJob(lines);
      (forall i :: 0 <= i < f ==> !IsWholeJob(lines[i])) && (f < |lines| ==> IsWholeJob(lines[f]))
  {
    hide IsWholeJob;
    if lines != [] {
      FirstJobIs(lines[..|lines| - 1]);
    }
  }

  /** What the lines after the comment say: how many job lines there are, the first whole one,
      and the last setting of each name before it. */
  ghost predicate SaysLines(p: Parsed, comment: string, hasComment: bool, lines: seq<string>)
  {
    var f := FirstJob(lines);
    && p.jobs == Jobs(lines) && (p.hasJob <==> f < |lines|)
    && p.job.comment == comment && p.job.hasComment == hasComment
    && (forall k :: (k in p.job.env <==> LastSet(lines[..f], k).Some?)
                 && (k in p.job.env ==> LastSet(lines[..f], k) == Some(p.job.env[k])))
    && (if f < |lines|
        then ReadJob(WithoutCr(lines[f])) == Some(JobWords(p.job.schedule, p.job.user, p.job.command))
        else p.job.schedule == "" && p.job.user == "" && p.job.command == "")
  }

  lemma LineKinds(p: Parsed, l: string)
    ensures Ignored(l) ==> ReadLine(p, l) == p
    ensures IsSetting(l) ==>
      var s := ReadEnv(WithoutCr(l)).value;
      ReadLine(p, l) == if p.hasJob then p else p.(job := p.job.(env := p.job.env[s.name := s.value]))
    ensures IsJob(l) ==>
      var w := ReadJob(WithoutCr(l));
      ReadLine(p, l) == if p.hasJob || w.None? then p.(jobs := p.jobs + 1)
                        else Parsed(p.job.(schedule := w.value.schedule, user := w.value.user, command := w.value.command),
                                    true, p.jobs + 1)
    ensures Ignored(l) || IsSetting(l) || IsJob(l)
  {
    hide TrimSpace, WithoutCr, IsComment, ReadEnv, ReadJob;
  }

  lemma JobsPush(lines: seq<string>, l: string)
    ensures Jobs(lines + [l]) == Jobs(lines) + if IsJob(l) then 1 else 0
  {
    hide IsJob;
  }

  lemma LastSetPush(lines: seq<string>, l: string, k: string)
    ensures LastSet(lines + [l], k)
         == if IsSetting(l) && ReadEnv(WithoutCr(l)).value.name == k then Some(ReadEnv(WithoutCr(l)).value.value)
            else LastSet(lines, k)
  {
    hide Ignored, ReadEnv, WithoutCr;
  }

  lemma SaysStep(p: Parsed, comment: string, hasComment: bool, lines: seq<string>, l: string)
    requires SaysLines(p, comment, hasComment, lines)
    ensures SaysLines(ReadLine(p, l), comment, hasComment, lines + [l])
  {
    hide ReadLine, Ignored, ReadEnv, ReadJob, WithoutCr, LastSet, Jobs;
    var all, q := lines + [l], ReadLine(p, l);
    LineKinds(p, l);
    JobsPush(lines, l);
    assert all[..|lines|] == lines;
    var f := FirstJob(lines);
    if f < |lines| {
      assert all[..f] == lines[..f] && all[f] == lines[f];
    } else if IsWholeJob(l) {
      assert lines[..f] == lines && all[..f] == lines;
    } else {
      assert lines[..f] == lines && all[..f + 1] == all;
      forall k ensures LastSet(all, k)
          == if IsSetting(l) && ReadEnv(WithoutCr(l)).value.name == k then Some(ReadEnv(WithoutCr(l)).value.value)
             else LastSet(lines, k)
      {
        LastSetPush(lines, l, k);
      }
    }
  }

  lemma {:induction false} LinesAreSaid(comment: string, hasComment: bool, lines: seq<string>)
    ensures SaysLines(ReadLines(Parsed(Job("", "", "", map[], comment, hasComment), false, 0), lines), comment, hasComment, lines)
  {
    hide ReadLine, SaysLines;
    var p := Parsed(Job("", "", "", map[], comment, hasComment), false, 0);
    if lines == [] {
      NothingSaid(comment, hasComment);
    } else {
      var init, l := lines[..|lines| - 1], lines[|lines| - 1];
      LinesAreSaid(comment, hasComment, init);
      assert lines == init + [l];
      ReadPush(p, init, l);
      SaysStep(ReadLines(p, init), comment, hasComment, init, l);
    }
  }

  lemma NothingSaid(comment: string, hasComment: bool)
    ensures SaysLines(ReadLines(Parsed(Job("", "", "", map[], comment, hasComment), false, 0), []), comment, hasComment, [])
  {}

  /** Whatever the file: its comment is the comment lines at its start, after the header if
      that is the first line; then come the lines that are read one by one. */
  lemma FileSays(data: string) returns (n: nat)
    requires WithoutLf(data) != ""
    ensures var lines := Split(WithoutLf(data), '\n');
      var i := if lines[0] == HEADER then 1 else 0;
      && i <= n <= |lines| && (forall k :: i <= k < n ==> IsComment(lines[k])) && (n < |lines| ==> !IsComment(lines[n]))
      && SaysLines(ReadFile(data), Join(CommentTexts(lines, i, n), "\n"), i < n, lines[n..])
  {
    hide Split, Join, CommentTexts, IsComment, SaysLines, ReadLines;
    var lines := Split(WithoutLf(data), '\n');
    var i := if lines[0] == HEADER then 1 else 0;
    n := CommentEnd(lines, i);
    LinesAreSaid(Join(CommentTexts(lines, i, n), "\n"), i < n, lines[n..]);
  }

  /** The text of a comment line: what stands after the "#", without one space. */
  lemma CommentTextIs(lead: string, text: string)
    requires AllBlank(lead)
    ensures IsComment(lead + "#" + text) && CommentText(lead + "#" + text) == if " " <= text then text[1..] else text
  {
    var l := "#" + text;
    LeadIsTrimmed(lead, l);
    assert lead + "#" + text == lead + l;
    assert l[1..] == text;
  }

  // ---------------------------------------------------------------------- schedules

  lemma NoName(c: Field, s: string)
    requires c in FIELDS && s != "" && IsDigit(s[0])
    ensures NameIndex(c.names, s, 0).None?
  {
    var i := NameIndex(c.names, s, 0);
    if i.Some? {
      NamesAreLowercase(c);
      NotFolded(s, c.names[i.value]);
    }
  }

  lemma NotFolded(s: string, n: string)
    requires s != "" && IsDigit(s[0]) && Lowercase(n)
    ensures !EqualFold(s, n)
  {
    if |s| == |n| {
      assert LowerChar(s[0]) != LowerChar(n[0]);
    }
  }

  /** Every number of a field's range is a value of the field, and no other. */
  lemma NumberIsValue(c: Field, v: nat)
    requires c in FIELDS
    ensures Value(c, Dec(v)) == if c.min <= v <= c.max then Some(v) else None
  {
    NoName(c, Dec(v));
    DecReads(v);
  }

  /** Every value is in the range of its field. */
  lemma ValueIsInRange(c: Field, s: string)
    requires c in FIELDS && Value(c, s).Some?
    ensures c.min <= Value(c, s).value <= c.max
  {
    NamesFit(c);
    hide EqualFold;
  }

  lemma NamesFit(c: Field)
    requires c in FIELDS
    ensures c.min + |c.names| <= c.max + 1
  {
    assert |MONTHS| == 12 && |DAYS| == 7;
    var i :| 0 <= i < 5 && c == FIELDS[i];
  }

  lemma {:induction false} NameIndexIs(names: seq<string>, s: string, i: nat, k: nat)
    requires i <= k < |names| && EqualFold(s, names[k]) && forall j :: i <= j < k ==> !EqualFold(s, names[j])
    ensures NameIndex(names, s, i) == Some(k)
    decreases k - i
  {
    hide EqualFold;
    if i < k {
      NameIndexIs(names, s, i + 1, k);
    }
  }

  lemma NamesDiffer()
    ensures forall i, j :: 0 <= i < j < |MONTHS| ==> MONTHS[i] != MONTHS[j]
    ensures forall i, j :: 0 <= i < j < |DAYS| ==> DAYS[i] != DAYS[j]
  {}

  lemma LowerStays(c: char)
    requires 'a' <= c <= 'z'
    ensures LowerChar(c) == c
  {}

  lemma FoldedOnce(s: string, a: string, b: string)
    requires EqualFold(s, a) && EqualFold(s, b) && Lowercase(a) && Lowercase(b)
    ensures a == b
  {
    forall i | 0 <= i < |a| ensures a[i] == b[i] {
      LowerStays(a[i]);
      LowerStays(b[i]);
    }
  }

  /** A name stands for its number, in upper or lower case. */
  lemma NameIsValue(c: Field, k: nat, s: string)
    requires c in FIELDS && k < |c.names| && EqualFold(s, c.names[k])
    ensures Value(c, s) == Some(c.min + k)
  {
    hide EqualFold;
    NamesAreLowercase(c);
    NamesDiffer();
    forall j | 0 <= j < k ensures !EqualFold(s, c.names[j]) {
      if EqualFold(s, c.names[j]) {
        FoldedOnce(s, c.names[j], c.names[k]);
      }
    }
    NameIndexIs(c.names, s, 0, k);
  }

  predicate NoSigns(s: string) { '/' !in s && '-' !in s }

  lemma CutNone(s: string, c: char)
    requires c !in s
    ensures CutAt(s, c) == Cut(s, "", false)
  {}

  /** The items of a field: "*", a value or a range, and "*" or a range with a step; and a
      range must not end before it starts. */
  lemma ItemsAre(c: Field, lo: string, hi: string, step: string)
    requires NoSigns(lo) && NoSigns(hi) && NoSigns(step) && lo != ""
    ensures ValidItem(c, lo) <==> lo == "*" || Value(c, lo).Some?
    ensures lo != "*" ==> (ValidItem(c, lo + "-" + hi) <==> IsRange(c, lo, hi))
    ensures ValidItem(c, "*" + "/" + step) <==> ValidStep(c, step)
    ensures lo != "*" ==> (ValidItem(c, lo + "-" + hi + "/" + step) <==> IsRange(c, lo, hi) && ValidStep(c, step))
    ensures lo != "*" ==> !ValidItem(c, lo + "/" + step)
  {
    hide Value, ValidStep, CutAt;
    CutNone(lo, '/');
    CutNone(lo, '-');
    RangeCuts(lo, hi);
    StepCuts("*", step);
    StepCuts(lo, step);
    StepCuts(lo + "-" + hi, step);
  }

  predicate IsRange(c: Field, lo: string, hi: string)
  {
    Value(c, lo).Some? && Value(c, hi).Some? && Value(c, lo).value <= Value(c, hi).value
  }

  lemma RangeCuts(lo: string, hi: string)
    requires NoSigns(lo) && NoSigns(hi) && lo != ""
    ensures CutAt(lo + "-" + hi, '-') == Cut(lo, hi, true) && lo + "-" + hi != "" && lo + "-" + hi != "*"
    ensures CutAt(lo + "-" + hi, '/') == Cut(lo + "-" + hi, "", false)
  {
    CutAfter(lo, '-', hi);
    assert lo + ['-'] + hi == lo + "-" + hi;
    CutNone(lo + "-" + hi, '/');
    assert '-' in lo + "-" + hi;
  }

  lemma StepCuts(range: string, step: string)
    requires '/' !in range
    ensures CutAt(range + "/" + step, '/') == Cut(range, step, true) && range + "/" + step != ""
  {
    CutAfter(range, '/', step);
    assert range + ['/'] + step == range + "/" + step;
  }

  /** Steps are the numbers from 1 to the end of the field's range. */
  lemma StepIs(c: Field, n: nat)
    ensures ValidStep(c, Dec(n)) <==> 1 <= n <= c.max
  {
    DecReads(n);
  }

  lemma CommaFree(items: seq<string>)
    requires items != [] && forall x :: x in items ==> ',' !in x && x != ""
    ensures Split(Join(items, ","), ',') == items && Join(items, ",") != ""
  {
    hide Split;
    SplitJoin(items, ',');
    assert [','] == ",";
    if |items| == 1 {
      assert items[0] in items;
    }
  }

  /** Fields are lists of items. */
  lemma FieldsAre(c: Field, items: seq<string>)
    requires items != [] && forall x :: x in items ==> ',' !in x && x != ""
    ensures ValidField(c, Join(items, ",")) <==> forall x :: x in items ==> ValidItem(c, x)
  {
    hide ValidItem, Split, Join;
    CommaFree(items);
  }

  /** Schedules are five fields with single spaces, or keywords. */
  lemma SchedulesAre(fields: seq<string>)
    requires |fields| == 5 && forall f :: f in fields ==> ' ' !in f && !("@" <= f) && f != ""
    ensures ValidSchedule(Join(fields, " ")) <==> forall i :: 0 <= i < 5 ==> ValidField(FIELDS[i], fields[i])
  {
    hide ValidField, Split, Join;
    SplitJoin(fields, ' ');
    assert [' '] == " ";
    assert fields[0] in fields;
    FirstOfJoin(fields);
    SameStart(Join(fields, " "), fields[0]);
  }

  // -------------------------------------------------------------------------- accounts

  /** No account is named like a number, which would be taken for an ID. */
  lemma NumberIsNoAccount(n: nat)
    requires n < TWO_TO_64
    ensures !ValidAccount(Dec(n))
  {
    DecReads(n);
  }
}
