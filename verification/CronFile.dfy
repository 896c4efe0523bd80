/** Reading a cron.d file, and why a written job is read back (cron.go). */
module CronFile {
  import opened Text
  import opened Decimal
  import opened CronJob

  // ------------------------------------------------------------------------ reading

  predicate IsComment(l: string) { "#" <= TrimLeft(l, IsBlank) }

  function CommentText(l: string): string
    requires IsComment(l)
  {
    var t := TrimLeft(l, IsBlank)[1..];
    if " " <= t then t[1..] else t
  }

  function Unquoted(v: string): string
  {
    var n := |v|;
    if 2 <= n && (v[0] == '"' || v[0] == '\'') && v[n - 1] == v[0] then v[1..n - 1] else v
  }

  datatype Setting = Setting(name: string, value: string)

  /** parseCronEnvLine. */
  function ReadEnv(l: string): Option<Setting>
  {
    var c := CutAt(l, '=');
    var name := TrimSpace(c.before);
    if !c.found || !ValidEnvName(name) then None
    else Some(Setting(name, Unquoted(TrimSpace(c.after))))
  }

  datatype Fields = Fields(words: seq<string>, rest: string)

  /** cutFields: the first `n` words and the rest. */
  function CutFields(s: string, n: nat): Fields
    decreases n
  {
    var r := TrimLeft(s, IsBlank);
    if n == 0 || r == "" then Fields([], r)
    else
      var e := FirstBlank(r);
      var more := CutFields(r[e..], n - 1);
      Fields([r[..e]] + more.words, more.rest)
  }

  method SplitFields(s: string, n: nat) returns (r: Fields)
    ensures r == CutFields(s, n)
  {
    hide TrimLeft;
    var words: seq<string> := [];
    var rest := s;
    ghost var whole := CutFields(s, n);
    while |words| < n
      invariant |words| <= n
      invariant whole.words == words + CutFields(rest, n - |words|).words
      invariant whole.rest == CutFields(rest, n - |words|).rest
      decreases n - |words|
    {
      var trimmed := TrimLeft(rest, IsBlank);
      if trimmed == "" {
        return Fields(words, "");
      }
      var end := FirstBlank(trimmed);
      assert words + ([trimmed[..end]] + CutFields(trimmed[end..], n - |words| - 1).words)
          == words + [trimmed[..end]] + CutFields(trimmed[end..], n - |words| - 1).words;
      words := words + [trimmed[..end]];
      rest := trimmed[end..];
    }
    r := Fields(words, TrimLeft(rest, IsBlank));
  }

  datatype JobWords = JobWords(schedule: string, user: string, command: string)

  /** parseCronJobLine. */
  function ReadJob(l: string): Option<JobWords>
  {
    var n := if "@" <= TrimLeft(l, IsBlank) then 1 else 5;
    var f := CutFields(l, n + 1);
    if |f.words| < n + 1 || f.rest == "" then None
    else Some(JobWords(Join(f.words[..n], " "), f.words[n], f.rest))
  }

  datatype Parsed = Parsed(job: Job, hasJob: bool, jobs: nat)

  function WithoutCr(l: string): string
  {
    if l != "" && l[|l| - 1] == '\r' then l[..|l| - 1] else l
  }

  /** What a line after the comment header adds. */
  function ReadLine(p: Parsed, line: string): Parsed
  {
    var l := WithoutCr(line);
    if TrimSpace(l) == "" || IsComment(l) then p
    else
      var s := ReadEnv(l);
      if s.Some? then
        if p.hasJob then p else p.(job := p.job.(env := p.job.env[s.value.name := s.value.value]))
      else
        var counted := p.(jobs := p.jobs + 1);
        var w := ReadJob(l);
        if p.hasJob || w.None? then counted
        else
          counted.(job := p.job.(schedule := w.value.schedule, user := w.value.user, command := w.value.command),
                   hasJob := true)
  }

  function ReadLines(p: Parsed, lines: seq<string>): Parsed
    decreases |lines|
  {
    if lines == [] then p else ReadLines(ReadLine(p, lines[0]), lines[1..])
  }

  /** Where the comment lines that start at `i` end. */
  function CommentEnd(lines: seq<string>, i: nat): (r: nat)
    requires i <= |lines|
    ensures i <= r <= |lines|
    ensures forall k :: i <= k < r ==> IsComment(lines[k])
    ensures r < |lines| ==> !IsComment(lines[r])
    decreases |lines| - i
  {
    if i < |lines| && IsComment(lines[i]) then CommentEnd(lines, i + 1) else i
  }

  function CommentTexts(lines: seq<string>, i: nat, n: nat): (r: seq<string>)
    requires i <= n <= |lines| && forall k :: i <= k < n ==> IsComment(lines[k])
    ensures |r| == n - i && forall k :: 0 <= k < |r| ==> r[k] == CommentText(lines[i + k])
  {
    seq(n - i, k requires 0 <= k < n - i => CommentText(lines[i + k]))
  }

  const NOTHING := Parsed(Job("", "", "", map[], "", false), false, 0)

  function ReadAll(lines: seq<string>): Parsed
    requires lines != []
  {
    var i := if lines[0] == HEADER then 1 else 0;
    var n := CommentEnd(lines, i);
    ReadLines(Parsed(Job("", "", "", map[], Join(CommentTexts(lines, i, n), "\n"), i < n), false, 0), lines[n..])
  }

  function WithoutLf(data: string): string
  {
    if data != "" && data[|data| - 1] == '\n' then data[..|data| - 1] else data
  }

  /** parseCronFile. */
  function ReadFile(data: string): Parsed
  {
    var text := WithoutLf(data);
    if text == "" then NOTHING else ReadAll(Split(text, '\n'))
  }

  /** The comment lines at the start, after the header if there is one. */
  method ParseComment(lines: seq<string>, from: nat) returns (n: nat, comment: seq<string>)
    requires from <= |lines|
    ensures n == CommentEnd(lines, from) && comment == CommentTexts(lines, from, n)
  {
    hide IsComment, CommentText;
    n := from;
    comment := [];
    while n < |lines| && IsComment(lines[n])
      invariant from <= n <= |lines| && CommentEnd(lines, n) == CommentEnd(lines, from)
      invariant (forall k :: from <= k < n ==> IsComment(lines[k])) && comment == CommentTexts(lines, from, n)
      decreases |lines| - n
    {
      comment := comment + [CommentText(lines[n])];
      n := n + 1;
    }
  }

  method ParseLine(p: Parsed, line: string) returns (r: Parsed)
    ensures r == ReadLine(p, line)
  {
    hide TrimSpace, IsComment, ReadEnv, CutFields, WithoutCr, Join;
    var l := WithoutCr(line);
    if TrimSpace(l) == "" || IsComment(l) {
      return p;
    }
    var s := ReadEnv(l);
    if s.Some? {
      if p.hasJob {
        return p;
      }
      return p.(job := p.job.(env := p.job.env[s.value.name := s.value.value]));
    }
    r := p.(jobs := p.jobs + 1);
    if p.hasJob {
      return;
    }
    var n := if "@" <= TrimLeft(l, IsBlank) then 1 else 5;
    var f := SplitFields(l, n + 1);
    if n + 1 <= |f.words| && f.rest != "" {
      r := r.(job := p.job.(schedule := Join(f.words[..n], " "), user := f.words[n], command := f.rest), hasJob := true);
    }
  }

  method ParseFile(data: string) returns (p: Parsed)
    ensures p == ReadFile(data)
  {
    hide ReadLine, Split, Join, IsComment, CommentText;
    var text := WithoutLf(data);
    if text == "" {
      return NOTHING;
    }
    var lines := Split(text, '\n');
    var i := if lines[0] == HEADER then 1 else 0;
    var n, comment := ParseComment(lines, i);
    p := NOTHING;
    if comment != [] {
      p := p.(job := p.job.(comment := Join(comment, "\n"), hasComment := true));
    }
    EmptyJoin();
    while n < |lines|
      invariant n <= |lines| && ReadLines(p, lines[n..]) == ReadFile(data)
    {
      assert lines[n..][0] == lines[n] && lines[n..][1..] == lines[n + 1..];
      p := ParseLine(p, lines[n]);
      n := n + 1;
    }
  }

  lemma EmptyJoin()
    ensures Join([], "\n") == ""
  {}

  // ------------------------------------------------------------------------ comments

  lemma TrimLeftOfWord(s: string)
    requires s != "" && !IsBlank(s[0])
    ensures TrimLeft(s, IsBlank) == s
  {}

  lemma CommentReads(l: string)
    ensures IsComment(CommentLine(l)) && CommentText(CommentLine(l)) == l
  {}

  // --------------------------------------------------------------------- environment

  /** A value that is read back as it is: quoted, or without white space at its ends. Of
      white space only a vertical tab or form feed can stand there unquoted. */
  predicate Faithful(v: string)
  {
    NeedsQuotes(v) || (!IsSpace(v[0]) && !IsSpace(v[|v| - 1]))
  }

  /** What an environment value is read back as. */
  function Kept(v: string): string { if NeedsQuotes(v) then v else Unquoted(TrimSpace(v)) }

  lemma UnquotedIsNoLonger(v: string)
    ensures |Unquoted(v)| <= |v|
  {}

  lemma KeptIsFaithful(v: string)
    ensures Kept(v) == v <==> Faithful(v)
  {}

  lemma NotTrimmedIsShorter(v: string)
    requires v != "" && (IsSpace(v[0]) || IsSpace(v[|v| - 1]))
    ensures |TrimSpace(v)| < |v|
  {}

  lemma QuotedReads(q: char, v: string)
    requires q == '"' || q == '\''
    ensures TrimSpace([q] + v + [q]) == [q] + v + [q] && Unquoted([q] + v + [q]) == v
  {}

  lemma NameIsTrimmed(name: string)
    requires ValidEnvName(name)
    ensures TrimSpace(name) == name && '=' !in name && !IsSpace(name[0]) && name[0] != '#'
  {}

  lemma CutAfter(a: string, c: char, b: string)
    requires c !in a
    ensures CutAt(a + [c] + b, c) == Cut(a, b, true)
  {
    FindAfter(a, c, b);
    var s := a + [c] + b;
    assert s[..|a|] == a && s[|a| + 1..] == b;
  }

  /** The text after "=". */
  function Written(v: string): string
  {
    if !NeedsQuotes(v) then v else if '"' !in v then "\"" + v + "\"" else "'" + v + "'"
  }

  lemma EnvLineIs(name: string, v: string)
    ensures EnvLine(name, v) == name + ['='] + Written(v)
  {}

  lemma WrittenReads(v: string)
    ensures Unquoted(TrimSpace(Written(v))) == Kept(v)
  {
    if NeedsQuotes(v) {
      QuotedReads('"', v);
      QuotedReads('\'', v);
    }
  }

  lemma EnvReads(name: string, v: string)
    requires ValidEnvName(name)
    ensures ReadEnv(EnvLine(name, v)) == Some(Setting(name, Kept(v)))
  {
    hide Kept, Unquoted, TrimSpace, EnvLine, Written, ValidEnvName;
    NameIsTrimmed(name);
    EnvLineIs(name, v);
    CutAfter(name, '=', Written(v));
    WrittenReads(v);
  }

  lemma EndsPlainly(v: string)
    requires ValidEnvValue(v)
    ensures Written(v) == "" || Written(v)[|Written(v)| - 1] != '\r'
  {}

  lemma EnvLineIsNoOther(name: string, v: string)
    requires ValidEnvName(name) && ValidEnvValue(v)
    ensures var l := EnvLine(name, v);
      WithoutCr(l) == l && TrimSpace(l) != "" && !IsComment(l)
  {
    NameIsTrimmed(name);
    EnvLineIs(name, v);
    EndsPlainly(v);
    hide Written, EnvLine;
    var l := EnvLine(name, v);
    assert l[0] == name[0];
    TrimLeftOfWord(l);
    StartsNotBlank(l);
  }

  lemma BlankIsSpace(l: string)
    ensures TrimSpace(l) == "" ==> forall i :: 0 <= i < |l| ==> IsSpace(l[i])
  {}

  lemma StartsNotBlank(l: string)
    requires l != "" && !IsSpace(l[0])
    ensures TrimSpace(l) != ""
  {}

  lemma EnvLineIsRead(p: Parsed, name: string, v: string)
    requires ValidEnvName(name) && ValidEnvValue(v) && !p.hasJob
    ensures ReadLine(p, EnvLine(name, v)) == p.(job := p.job.(env := p.job.env[name := Kept(v)]))
  {
    hide Kept, EnvLine, WithoutCr, TrimSpace, IsComment, ReadEnv, ValidEnvName, ValidEnvValue, ReadJob;
    EnvReads(name, v);
    EnvLineIsNoOther(name, v);
  }

  /** The environment after the settings of the first `n` names. */
  function EnvAfter(m: map<string, string>, env: map<string, string>, names: seq<string>): map<string, string>
    requires forall k :: k in names ==> k in env
    decreases |names|
  {
    if names == [] then m else EnvAfter(m[names[0] := Kept(env[names[0]])], env, names[1..])
  }

  lemma {:induction false} EnvLinesAreRead(p: Parsed, env: map<string, string>, names: seq<string>, rest: seq<string>)
    requires (forall k :: k in names ==> k in env) && !p.hasJob
    requires forall k :: k in env ==> ValidEnvName(k) && ValidEnvValue(env[k])
    ensures ReadLines(p, EnvLines(env, names) + rest)
         == ReadLines(p.(job := p.job.(env := EnvAfter(p.job.env, env, names))), rest)
    decreases |names|
  {
    hide ReadLine, EnvLine, Kept, ValidEnvName, ValidEnvValue;
    var lines := EnvLines(env, names);
    if names == [] {
      assert lines + rest == rest;
    } else {
      var k := names[0];
      EnvLineIsRead(p, k, env[k]);
      assert (lines + rest)[0] == EnvLine(k, env[k]);
      assert (lines + rest)[1..] == EnvLines(env, names[1..]) + rest;
      EnvLinesAreRead(ReadLine(p, EnvLine(k, env[k])), env, names[1..], rest);
    }
  }

  lemma {:induction false} EnvAfterIs(m: map<string, string>, env: map<string, string>, names: seq<string>)
    requires forall k :: k in names ==> k in env
    ensures var r := EnvAfter(m, env, names);
      && (forall k :: k in r <==> k in m || k in names)
      && (forall k :: k in names ==> r[k] == Kept(env[k]))
      && (forall k :: k in m && k !in names ==> r[k] == m[k])
    decreases |names|
  {
    hide Kept;
    if names != [] {
      assert names == [names[0]] + names[1..];
      EnvAfterIs(m[names[0] := Kept(env[names[0]])], env, names[1..]);
    }
  }

  // ------------------------------------------------------------------------ the job line

  function Sentence(words: seq<string>, tail: string): string
  {
    if words == [] then tail else words[0] + " " + Sentence(words[1..], tail)
  }

  lemma CutOneField(lead: string, w: string, rest: string, n: nat)
    requires AllBlank(lead) && IsWord(w)
    ensures CutFields(lead + (w + " " + rest), n + 1)
         == Fields([w] + CutFields(" " + rest, n).words, CutFields(" " + rest, n).rest)
  {
    hide CutFields;
    var r := w + " " + rest;
    TrimLeftIs(lead + r, IsBlank, |lead|);
    assert (lead + r)[|lead|..] == r;
    FirstBlankIs(r, |w|);
    assert r[..|w|] == w && r[|w|..] == " " + rest;
    CutStep(lead + r, n, r, |w|);
  }

  lemma CutStep(s: string, n: nat, r: string, e: nat)
    requires r == TrimLeft(s, IsBlank) && r != "" && e == FirstBlank(r)
    ensures CutFields(s, n + 1) == Fields([r[..e]] + CutFields(r[e..], n).words, CutFields(r[e..], n).rest)
  {}

  lemma NoFields(lead: string, tail: string)
    requires AllBlank(lead) && tail != "" && !IsBlank(tail[0])
    ensures CutFields(lead + tail, 0) == Fields([], tail)
  {
    TrimLeftIs(lead + tail, IsBlank, |lead|);
    assert (lead + tail)[|lead|..] == tail;
  }

  /** Words and a tail are cut apart again. */
  lemma {:induction false} SentenceIsCut(lead: string, words: seq<string>, tail: string)
    requires AllBlank(lead) && (forall w :: w in words ==> IsWord(w))
    requires tail != "" && !IsBlank(tail[0])
    ensures CutFields(lead + Sentence(words, tail), |words|) == Fields(words, tail)
    decreases |words|
  {
    hide TrimLeft, CutFields, FirstBlank;
    if words == [] {
      NoFields(lead, tail);
    } else {
      CutOneField(lead, words[0], Sentence(words[1..], tail), |words| - 1);
      SentenceIsCut(" ", words[1..], tail);
      assert words == [words[0]] + words[1..];
    }
  }

  lemma {:induction false} SentenceJoins(words: seq<string>, user: string, command: string)
    requires words != []
    ensures Join(words, " ") + " " + user + " " + command == Sentence(words + [user], command)
  {
    if |words| == 1 {
      assert (words + [user])[1..] == [user] && [user][1..] == [];
      assert Sentence([user], command) == user + " " + command;
      assert words[0] + " " + (user + " " + command) == words[0] + " " + user + " " + command;
    } else {
      SentenceJoins(words[1..], user, command);
      assert (words + [user])[1..] == words[1..] + [user];
      var x := Join(words[1..], " ");
      assert words[0] + " " + (x + " " + user + " " + command) == words[0] + " " + x + " " + user + " " + command;
    }
  }

  lemma CommandStarts(s: string)
    requires ValidCommand(s)
    ensures s != "" && !IsBlank(s[0]) && s[|s| - 1] != '\r'
  {}

  lemma JobLineIs(j: Job)
    requires ValidJob(j)
    ensures JobLine(j) == Sentence(ScheduleWords(j.schedule) + [j.user], j.command)
    ensures JobLine(j) != "" && JobLine(j)[0] == j.schedule[0] && ScheduleWords(j.schedule)[0] != ""
    ensures j.schedule != "" && j.schedule[0] != '#' && !IsSpace(j.schedule[0])
  {
    hide ValidAccount, ValidCommand, ValidSchedule, EnvLine, IsKeyword;
    var words := ScheduleWords(j.schedule);
    ScheduleIsWords(j.schedule);
    SentenceJoins(words, j.user, j.command);
    FirstOfJoin(words);
    assert words[0] in words;
  }

  lemma FirstOfJoin(words: seq<string>)
    requires words != [] && words[0] != ""
    ensures Join(words, " ") != "" && Join(words, " ")[0] == words[0][0]
  {}

  lemma JobLineReads(j: Job)
    requires ValidJob(j)
    ensures ReadJob(JobLine(j)) == Some(JobWords(j.schedule, j.user, j.command))
  {
    hide ValidAccount, ValidCommand, ValidSchedule, EnvLine, IsKeyword, Sentence, CutFields, IsWord, JobLine, Join, TrimLeft;
    hide ScheduleWords;
    var words, l := ScheduleWords(j.schedule), JobLine(j);
    var all := words + [j.user];
    JobLineIs(j);
    ScheduleIsWords(j.schedule);
    AccountIsWord(j.user);
    CommandStarts(j.command);
    forall w | w in all ensures IsWord(w) {}
    SentenceIsCut("", all, j.command);
    assert "" + Sentence(all, j.command) == l;
    TrimLeftOfWord(l);
    SameStart(l, j.schedule);
    assert all[..|words|] == words && all[|words|] == j.user;
  }

  lemma SameStart(l: string, s: string)
    requires l != "" && s != "" && l[0] == s[0]
    ensures "@" <= l <==> "@" <= s
  {}

  /** The schedule and the user stand before the first "=", with a space between them. */
  lemma JobLineIsNoSetting(j: Job)
    requires ValidJob(j)
    ensures ReadEnv(JobLine(j)).None?
  {
    hide ValidCommand, ValidSchedule, ValidAccount, IsKeyword, EnvLine;
    var l, s := JobLine(j), j.schedule;
    var c := CutAt(l, '=');
    ScheduleHasNoEquals(s);
    AccountIsWord(j.user);
    JobLineIs(j);
    NoEqualsEarly(s, j.user, " " + j.command);
    assert l == s + " " + j.user + (" " + j.command);
    if c.found {
      NameHasSpace(s, j.user, " " + j.command, Find(l, '='));
      SpaceInside(c.before, |s|);
    }
  }

  lemma NameHasSpace(s: string, user: string, rest: string, i: nat)
    requires s != "" && user != "" && |s| + 1 + |user| <= i <= |s + " " + user + rest|
    ensures var b := (s + " " + user + rest)[..i];
      |s| + 1 < |b| && b[0] == s[0] && b[|s|] == ' ' && b[|s| + 1] == user[0]
  {}

  lemma NoEqualsEarly(s: string, user: string, rest: string)
    requires '=' !in s && '=' !in user
    ensures var l := s + " " + user + rest; |s| + 1 + |user| <= Find(l, '=')
  {}

  lemma ScheduleHasNoEquals(s: string)
    requires ValidSchedule(s)
    ensures '=' !in s
  {
    hide ValidSchedule, IsWord;
    ScheduleIsWords(s);
    NoEqualsInJoin(ScheduleWords(s));
  }

  lemma {:induction false} NoEqualsInJoin(words: seq<string>)
    requires forall w :: w in words ==> IsWord(w)
    ensures '=' !in Join(words, " ")
  {
    if 1 < |words| {
      NoEqualsInJoin(words[1..]);
    }
    assert words != [] ==> words[0] in words && '=' !in words[0];
  }

  /** White space between two other characters is not trimmed off. */
  lemma SpaceInside(s: string, k: nat)
    requires 0 < k && k + 1 < |s| && s[k] == ' ' && !IsSpace(s[0]) && !IsSpace(s[k + 1])
    ensures !ValidEnvName(TrimSpace(s))
  {}

  lemma JobLineIsNoOther(j: Job)
    requires ValidJob(j)
    ensures var l := JobLine(j); WithoutCr(l) == l && TrimSpace(l) != "" && !IsComment(l)
  {
    hide ValidCommand, ValidSchedule, ValidAccount, EnvLine, TrimSpace, Sentence, ScheduleWords, JobLine, TrimLeft;
    var l := JobLine(j);
    JobLineIs(j);
    CommandStarts(j.command);
    JobLineEnds(j);
    TrimLeftOfWord(l);
    StartsNotBlank(l);
  }

  lemma JobLineEnds(j: Job)
    requires j.command != ""
    ensures JobLine(j) != "" && JobLine(j)[|JobLine(j)| - 1] == j.command[|j.command| - 1]
  {}

  lemma JobLineIsRead(p: Parsed, j: Job)
    requires ValidJob(j) && !p.hasJob
    ensures ReadLine(p, JobLine(j))
         == Parsed(p.job.(schedule := j.schedule, user := j.user, command := j.command), true, p.jobs + 1)
  {
    hide ValidJob, WithoutCr, TrimSpace, IsComment, ReadEnv, ReadJob, JobLine;
    JobLineReads(j);
    JobLineIsNoSetting(j);
    JobLineIsNoOther(j);
  }

  // --------------------------------------------------------------------- the round trip

  lemma {:induction false} TerminatedIsJoin(lines: seq<string>)
    requires lines != []
    ensures Terminated(lines) == Join(lines, "\n") + "\n"
  {
    var init, last := lines[..|lines| - 1], lines[|lines| - 1];
    assert lines == init + [last];
    if init == [] {
      assert Join(lines, "\n") == last && Terminated(init) == "";
    } else {
      TerminatedIsJoin(init);
      JoinAppend(init, [last], "\n");
      assert Join([last], "\n") == last;
    }
  }

  lemma TerminatedSplits(lines: seq<string>)
    requires lines != [] && lines[0] != "" && forall l :: l in lines ==> '\n' !in l
    ensures WithoutLf(Terminated(lines)) != "" && Split(WithoutLf(Terminated(lines)), '\n') == lines
  {
    hide Split, Join, Terminated;
    TerminatedIsJoin(lines);
    var text := Join(lines, "\n");
    assert (text + "\n")[..|text|] == text;
    SplitJoin(lines, '\n');
    assert ['\n'] == "\n";
    JoinStarts(lines);
  }

  lemma JoinStarts(lines: seq<string>)
    requires lines != [] && lines[0] != ""
    ensures Join(lines, "\n") != ""
  {}

  lemma HeaderStart()
    ensures '\n' !in OWNER && '\n' !in RESOURCE && OWNER != ""
  {}

  lemma HeaderEnd()
    ensures '\n' !in WARNING && '\n' !in OUTCOME
  {}

  lemma NoneOfFour(a: string, b: string, c: string, d: string)
    requires '\n' !in a && '\n' !in b && '\n' !in c && '\n' !in d
    ensures '\n' !in a + b + (c + d)
  {}

  lemma HeaderIsOneLine()
    ensures '\n' !in HEADER && HEADER != ""
  {}

  lemma EnvLineIsOneLine(name: string, v: string)
    requires ValidEnvName(name) && ValidEnvValue(v)
    ensures '\n' !in EnvLine(name, v)
  {}

  lemma JobLineIsOneLine(j: Job)
    requires ValidJob(j)
    ensures '\n' !in JobLine(j)
  {
    hide ValidSchedule, ValidAccount, EnvLine, TrimSpace, IsWord;
    ScheduleIsWords(j.schedule);
    NoLfInJoin(ScheduleWords(j.schedule));
    AccountIsWord(j.user);
    WordIsOneLine(j.user);
  }

  lemma WordIsOneLine(w: string)
    requires IsWord(w)
    ensures '\n' !in w
  {}

  lemma {:induction false} NoLfInJoin(words: seq<string>)
    requires forall w :: w in words ==> IsWord(w)
    ensures '\n' !in Join(words, " ")
  {
    hide IsWord;
    if words != [] {
      assert words[0] in words;
      WordIsOneLine(words[0]);
      NoLfInJoin(words[1..]);
    }
  }

  lemma FileLinesAreLines(j: Job, names: seq<string>)
    requires ValidJob(j) && ListsEnv(names, j.env)
    ensures forall l :: l in FileLines(j, names) ==> '\n' !in l
  {
    hide ValidSchedule, ValidAccount, ValidCommand, EnvLine, JobLine, ValidEnvName, ValidEnvValue;
    HeaderIsOneLine();
    JobLineIsOneLine(j);
    hide HEADER;
    var comment, env := CommentLines(Split(j.comment, '\n')), EnvLines(j.env, names);
    forall l | l in comment ensures '\n' !in l {
      var i :| 0 <= i < |comment| && comment[i] == l;
      assert Split(j.comment, '\n')[i] in Split(j.comment, '\n');
    }
    forall l | l in env ensures '\n' !in l {
      var i :| 0 <= i < |env| && env[i] == l;
      assert names[i] in names;
      EnvLineIsOneLine(names[i], j.env[names[i]]);
    }
  }

  lemma {:induction false} CommentEndIs(lines: seq<string>, i: nat, n: nat)
    requires i <= n <= |lines| && (forall k :: i <= k < n ==> IsComment(lines[k]))
    requires n < |lines| ==> !IsComment(lines[n])
    ensures CommentEnd(lines, i) == n
    decreases n - i
  {}

  lemma CommentsRead(lines: seq<string>, comment: seq<string>, n: nat)
    requires n == 1 + |comment| <= |lines|
    requires forall k :: 1 <= k < n ==> lines[k] == CommentLine(comment[k - 1])
    ensures forall k :: 1 <= k < n ==> IsComment(lines[k]) && CommentText(lines[k]) == comment[k - 1]
  {
    hide IsComment, CommentLine, CommentText;
    forall k | 1 <= k < n ensures IsComment(lines[k]) && CommentText(lines[k]) == comment[k - 1] {
      CommentReads(comment[k - 1]);
    }
  }

  /** The lines of the comment are the lines before the first setting or job line. */
  lemma CommentIsFound(header: string, comment: seq<string>, rest: seq<string>)
    requires rest != [] && !IsComment(rest[0])
    ensures var lines := [header] + (CommentLines(comment) + rest);
      && CommentEnd(lines, 1) == 1 + |comment|
      && CommentTexts(lines, 1, 1 + |comment|) == comment
      && lines[1 + |comment|..] == rest
  {
    hide IsComment, CommentLine, CommentText, CommentLines, CommentTexts, CommentEnd;
    var c := CommentLines(comment);
    var lines, n := [header] + (c + rest), 1 + |comment|;
    LinesAround(header, c, rest);
    CommentsRead(lines, comment, n);
    CommentEndIs(lines, 1, n);
    TextsAre(lines, n, comment);
  }

  lemma TextsAre(lines: seq<string>, n: nat, comment: seq<string>)
    requires n == 1 + |comment| <= |lines|
    requires forall k :: 1 <= k < n ==> IsComment(lines[k]) && CommentText(lines[k]) == comment[k - 1]
    ensures CommentTexts(lines, 1, n) == comment
  {}

  lemma LinesAround(header: string, c: seq<string>, rest: seq<string>)
    requires rest != []
    ensures var lines, n := [header] + (c + rest), 1 + |c|;
      && |lines| == n + |rest| && (forall k :: 1 <= k < n ==> lines[k] == c[k - 1])
      && lines[n] == rest[0] && lines[n..] == rest
  {}

  lemma FirstIsNoComment(j: Job, names: seq<string>)
    requires ValidJob(j) && ListsEnv(names, j.env)
    ensures var rest := EnvLines(j.env, names) + [JobLine(j)];
      rest != [] && !IsComment(rest[0])
  {
    hide ValidSchedule, ValidAccount, ValidCommand, EnvLine, JobLine, IsComment;
    if names == [] {
      JobLineIsNoOther(j);
    } else {
      assert names[0] in names;
      EnvLineIsNoOther(names[0], j.env[names[0]]);
    }
  }

  /** The environment as it is read back. */
  function KeptEnv(env: map<string, string>): map<string, string> { map k | k in env :: Kept(env[k]) }

  lemma RestIsRead(p: Parsed, j: Job, names: seq<string>)
    requires ValidJob(j) && ListsEnv(names, j.env) && !p.hasJob && p.job.env == map[]
    ensures ReadLines(p, EnvLines(j.env, names) + [JobLine(j)])
         == Parsed(Job(j.schedule, j.user, j.command, KeptEnv(j.env), p.job.comment, p.job.hasComment), true, p.jobs + 1)
  {
    hide ValidSchedule, ValidAccount, ValidCommand, EnvLine, JobLine, Kept, ReadLine, EnvLines, ValidEnvName, ValidEnvValue;
    EnvLinesAreRead(p, j.env, names, [JobLine(j)]);
    EnvAfterIs(map[], j.env, names);
    assert EnvAfter(map[], j.env, names) == KeptEnv(j.env);
    var q := p.(job := p.job.(env := KeptEnv(j.env)));
    JobLineIsRead(q, j);
    assert [JobLine(j)][1..] == [];
  }

  /** Reading a written job gives back its schedule, user and command, its environment value
      by value as each is kept, its comment, and one job line: no job line is taken for a
      setting or a comment, and no setting or comment for a job. */
  lemma ReadOfRender(j: Job, names: seq<string>)
    requires ValidJob(j) && ListsEnv(names, j.env)
    ensures ReadFile(Terminated(FileLines(j, names)))
         == Parsed(j.(env := KeptEnv(j.env), comment := if j.hasComment then j.comment else ""), true, 1)
  {
    hide ValidJob, EnvLines, JobLine, Terminated, Split, IsComment, KeptEnv, ReadLines, CommentLines, Join, CommentTexts;
    hide WithoutLf;
    var lines := FileLines(j, names);
    var comment := if j.hasComment then Split(j.comment, '\n') else [];
    var rest := EnvLines(j.env, names) + [JobLine(j)];
    HeaderIsOneLine();
    FileLinesAreLines(j, names);
    TerminatedSplits(lines);
    FirstIsNoComment(j, names);
    NoCommentLines();
    assert lines == [HEADER] + (CommentLines(comment) + rest);
    CommentIsFound(HEADER, comment, rest);
    JoinSplit(j.comment, '\n');
    assert ['\n'] == "\n";
    EmptyJoin();
    RestIsRead(Parsed(Job("", "", "", map[], Join(comment, "\n"), 0 < |comment|), false, 0), j, names);
  }

  lemma NoCommentLines()
    ensures CommentLines([]) == []
  {}

  /** A job is read back exactly as it was written, if and only if its environment values do
      not start or end with a vertical tab or form feed that is not quoted, and a job
      without comment lines has no comment text. */
  lemma JobReadsBackIff(j: Job, names: seq<string>)
    requires ValidJob(j) && ListsEnv(names, j.env)
    ensures ReadFile(Terminated(FileLines(j, names))) == Parsed(j, true, 1) <==>
            (forall k :: k in j.env ==> Faithful(j.env[k])) && (j.hasComment || j.comment == "")
  {
    hide ValidJob, EnvLines, Terminated, FileLines, ReadFile, Faithful, Kept;
    ReadOfRender(j, names);
    forall k | k in j.env ensures Kept(j.env[k]) == j.env[k] <==> Faithful(j.env[k]) { KeptIsFaithful(j.env[k]); }
    if forall k :: k in j.env ==> Faithful(j.env[k]) {
      assert KeptEnv(j.env) == j.env;
    }
    if KeptEnv(j.env) == j.env {
      forall k | k in j.env ensures Faithful(j.env[k]) {
        assert KeptEnv(j.env)[k] == j.env[k];
      }
    }
  }

  /** What is not faithful begins or ends with a vertical tab or form feed. */
  lemma UnfaithfulIs(v: string)
    requires ValidEnvValue(v)
    ensures !Faithful(v) <==>
      !NeedsQuotes(v) && (v[0] in {'\U{0B}', '\U{0C}'} || v[|v| - 1] in {'\U{0B}', '\U{0C}'})
  {}

  const TABBED := Job("@daily", "root", "true", map["A" := "\U{0B}x"], "", false)

  lemma TabbedEnvIsValid()
    ensures ValidEnvName("A") && ValidEnvValue("\U{0B}x") && |EnvLine("A", "\U{0B}x")| <= MAX_LINE
  {
    assert EnvLine("A", "\U{0B}x") == "A" + "=" + "\U{0B}x";
  }

  lemma TabbedNamesAreValid()
    ensures ValidSchedule("@daily") && ValidAccount("root") && ValidCommand("true")
  {
    assert "root"[0] == 'r' && !IsDigit("root"[0]);
    TrimSpaceOfTrimmed("true");
    hide TrimSpace;
  }

  lemma TabbedIsValid()
    ensures ValidJob(TABBED) && ListsEnv(["A"], TABBED.env)
  {
    hide ValidSchedule, ValidAccount, ValidCommand, ValidEnvName, ValidEnvValue, EnvLine;
    TabbedEnvIsValid();
    TabbedNamesAreValid();
    assert ["A"][0] in ["A"];
  }

  lemma TabbedIsKept()
    ensures Kept("\U{0B}x") == "x"
  {
    var v := "\U{0B}x";
    assert v[..1] == "\U{0B}" && v[1..2] == "x" && v[2..] == "";
    TrimSpaceIs(v, 1, 2);
  }

  /** A value that starts with a vertical tab is accepted, written bare and read without it. */
  lemma TabIsTrimmed()
    ensures ValidJob(TABBED)
    ensures ReadFile(Terminated(FileLines(TABBED, ["A"]))) == Parsed(TABBED.(env := map["A" := "x"]), true, 1)
  {
    hide ValidJob, ReadFile, Terminated, FileLines, Kept;
    TabbedIsValid();
    TabbedIsKept();
    ReadOfRender(TABBED, ["A"]);
    assert KeptEnv(TABBED.env) == map["A" := "x"];
  }
}
