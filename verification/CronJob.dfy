/** A cron job: what is accepted, and how it is written (cron.go, validators.go). */
module CronJob {
  import opened Text
  import opened Decimal

  // --------------------------------------------------------------------- schedules

  /** One of the five time fields; `names` are the names of the values from `min` on. */
  datatype Field = Field(min: nat, max: nat, names: seq<string>)

  const MONTHS := ["jan", "feb", "mar", "apr", "may", "jun", "jul", "aug", "sep", "oct", "nov", "dec"]
  const DAYS := ["sun", "mon", "tue", "wed", "thu", "fri", "sat"]
  const FIELDS := [Field(0, 59, []), Field(0, 23, []), Field(1, 31, []), Field(1, 12, MONTHS), Field(0, 7, DAYS)]

  predicate IsKeyword(s: string)
  {
    s == "@reboot" || s == "@yearly" || s == "@annually" || s == "@monthly"
    || s == "@weekly" || s == "@daily" || s == "@midnight" || s == "@hourly"
  }

  function LowerChar(c: char): char
  {
    if 'A' <= c <= 'Z' then (c as int + 32) as char else c
  }

  /** strings.EqualFold, on ASCII text. */
  predicate EqualFold(a: string, b: string)
  {
    |a| == |b| && forall i :: 0 <= i < |a| ==> LowerChar(a[i]) == LowerChar(b[i])
  }

  /** The place of `s` among the names from the i-th on, without regard to case. */
  function NameIndex(names: seq<string>, s: string, i: nat): (r: Option<nat>)
    ensures r.Some? ==> i <= r.value < |names| && EqualFold(s, names[r.value])
    decreases |names| - i
  {
    if |names| <= i then None
    else if EqualFold(s, names[i]) then Some(i)
    else NameIndex(names, s, i + 1)
  }

  /** cronField.value: a name, or digits in range. */
  function Value(c: Field, s: string): Option<nat>
  {
    var i := NameIndex(c.names, s, 0);
    if i.Some? then Some(c.min + i.value)
    else if s == "" || !AllDigits(s) then None
    else if c.min <= ReadDigits(s) <= c.max then Some(ReadDigits(s))
    else None
  }

  datatype Cut = Cut(before: string, after: string, found: bool)

  /** strings.Cut at a character. */
  function CutAt(s: string, c: char): Cut
  {
    var i := Find(s, c);
    if i == |s| then Cut(s, "", false) else Cut(s[..i], s[i + 1..], true)
  }

  predicate ValidStep(c: Field, s: string)
  {
    s != "" && AllDigits(s) && 1 <= ReadDigits(s) <= c.max
  }

  /** "*", a value, or a range; "*" and ranges may have a step. */
  predicate ValidItem(c: Field, item: string)
  {
    var step := CutAt(item, '/');
    && item != ""
    && (step.found ==> ValidStep(c, step.after))
    && (step.before == "*" ||
        var range := CutAt(step.before, '-');
        var lo, hi := Value(c, range.before), Value(c, range.after);
        && (step.found ==> range.found)
        && lo.Some?
        && (range.found ==> hi.Some? && lo.value <= hi.value))
  }

  predicate ValidField(c: Field, f: string)
  {
    f != "" && forall item :: item in Split(f, ',') ==> ValidItem(c, item)
  }

  predicate ValidSchedule(s: string)
  {
    if "@" <= s then IsKeyword(s)
    else
      var fields := Split(s, ' ');
      |fields| == |FIELDS| && forall i :: 0 <= i < |FIELDS| ==> ValidField(FIELDS[i], fields[i])
  }

  // --------------------------------------------------------------------- other fields

  predicate IsAlnum(c: char) { IsDigit(c) || 'a' <= c <= 'z' || 'A' <= c <= 'Z' }

  predicate AccountChar(c: char) { IsAlnum(c) || c == '_' || c == '.' || c == '-' }

  const TWO_TO_64: nat := 0x1_0000_0000_0000_0000

  /** validateAccountName: portable characters, not a number that reads as an ID. */
  predicate ValidAccount(s: string)
  {
    var n := if s != "" && 1 < |s| && s[|s| - 1] == '$' then |s| - 1 else |s|;
    && 0 < |s| <= 32
    && (IsAlnum(s[0]) || s[0] == '_')
    && (forall i :: 1 <= i < n ==> AccountChar(s[i]))
    && !(AllDigits(s) && ReadDigits(s) < TWO_TO_64)
  }

  const NUL: char := '\0'
  const MAX_LINE := 1000
  const MAX_COMMENT := 65536

  predicate Plain(s: string) { '\n' !in s && '\r' !in s && NUL !in s }

  predicate ValidCommand(s: string)
  {
    s != "" && Plain(s) && TrimSpace(s) == s && |s| <= MAX_LINE
  }

  predicate EnvNameChar(c: char) { IsAlnum(c) || c == '_' }

  predicate ValidEnvName(s: string)
  {
    s != "" && !IsDigit(s[0]) && forall i :: 0 <= i < |s| ==> EnvNameChar(s[i])
  }

  predicate NeedsQuotes(v: string)
  {
    v == "" || ' ' in v || '\t' in v || v[0] == '"' || v[0] == '\''
  }

  predicate ValidEnvValue(v: string)
  {
    Plain(v) && !(NeedsQuotes(v) && '"' in v && '\'' in v)
  }

  /** renderCronEnv. */
  function EnvLine(name: string, v: string): string
  {
    if !NeedsQuotes(v) then name + "=" + v
    else if '"' !in v then name + "=" + ("\"" + v + "\"")
    else name + "=" + ("'" + v + "'")
  }

  datatype Job = Job(schedule: string, user: string, command: string, env: map<string, string>,
                     comment: string, hasComment: bool)

  /** cronJob.validate. */
  predicate ValidJob(j: Job)
  {
    && ValidSchedule(j.schedule) && ValidAccount(j.user) && ValidCommand(j.command)
    && (forall k :: k in j.env ==> ValidEnvName(k) && ValidEnvValue(j.env[k]) && |EnvLine(k, j.env[k])| <= MAX_LINE)
    && '\r' !in j.comment && NUL !in j.comment && |j.comment| <= MAX_COMMENT
  }

  // -------------------------------------------------------------------- rendering

  const OWNER := "# Managed by Terraform"
  const RESOURCE := " (sysutils_cron_job)."
  const WARNING := " Manual changes will"
  const OUTCOME := " be reverted."

  /** cronFileHeader. */
  const HEADER := OWNER + RESOURCE + (WARNING + OUTCOME)

  function CommentLine(l: string): string { if l == "" then "#" else "# " + l }

  function CommentLines(comment: seq<string>): (r: seq<string>)
    ensures |r| == |comment| && forall i :: 0 <= i < |r| ==> r[i] == CommentLine(comment[i])
  {
    seq(|comment|, i requires 0 <= i < |comment| => CommentLine(comment[i]))
  }

  function EnvLines(env: map<string, string>, names: seq<string>): (r: seq<string>)
    requires forall k :: k in names ==> k in env
    ensures |r| == |names| && forall i :: 0 <= i < |r| ==> r[i] == EnvLine(names[i], env[names[i]])
  {
    seq(|names|, i requires 0 <= i < |names| => EnvLine(names[i], env[names[i]]))
  }

  function JobLine(j: Job): string { j.schedule + " " + j.user + " " + j.command }

  function FileLines(j: Job, names: seq<string>): seq<string>
    requires forall k :: k in names ==> k in j.env
  {
    [HEADER] + ((if j.hasComment then CommentLines(Split(j.comment, '\n')) else [])
                + (EnvLines(j.env, names) + [JobLine(j)]))
  }

  /** Every line terminated. */
  function Terminated(lines: seq<string>): string
  {
    if lines == [] then "" else Terminated(lines[..|lines| - 1]) + lines[|lines| - 1] + "\n"
  }

  /** The names of the environment, each once. */
  ghost predicate ListsEnv(names: seq<string>, env: map<string, string>)
  {
    && (forall k :: k in names <==> k in env)
    && (forall i, j :: 0 <= i < j < |names| ==> names[i] != names[j])
  }

  lemma {:induction false} TerminatedAppend(a: seq<string>, b: seq<string>)
    ensures Terminated(a + b) == Terminated(a) + Terminated(b)
    decreases |b|
  {
    if b == [] {
      assert a + b == a;
    } else {
      TerminatedAppend(a, b[..|b| - 1]);
      assert (a + b)[..|a + b| - 1] == a + b[..|b| - 1];
    }
  }

  lemma TerminatedPush(lines: seq<string>, l: string)
    ensures Terminated(lines + [l]) == Terminated(lines) + (l + "\n")
  {}

  /** The names of the environment as sort.Strings orders them. */
  ghost predicate SortedEnv(names: seq<string>, env: map<string, string>)
  {
    ListsEnv(names, env) && SortedBy(names, (s: string) => s)
  }

  /** render: the header, the comment, the environment sorted by name, and the job line. */
  method Render(j: Job) returns (data: string)
    ensures exists names :: SortedEnv(names, j.env) && data == Terminated(FileLines(j, names))
  {
    hide EnvLine, JobLine, Terminated, CommentLines, Split, EnvLines;
    data := RenderComment(j);
    ghost var head := [HEADER] + (if j.hasComment then CommentLines(Split(j.comment, '\n')) else []);
    var sorted := SortSet(j.env.Keys, (s: string) => s);
    SortedIsDistinct(sorted);
    assert SortedEnv(sorted, j.env);
    data := RenderEnv(j.env, sorted, data, head);
    TerminatedPush(head + EnvLines(j.env, sorted), JobLine(j));
    Regroup(HEADER, if j.hasComment then CommentLines(Split(j.comment, '\n')) else [], EnvLines(j.env, sorted), JobLine(j));
    data := data + (JobLine(j) + "\n");
  }

  lemma Regroup(header: string, comment: seq<string>, env: seq<string>, job: string)
    ensures [header] + comment + env + [job] == [header] + (comment + (env + [job]))
  {}

  /** One line for each name. */
  method RenderEnv(env: map<string, string>, names: seq<string>, before: string, ghost head: seq<string>) returns (data: string)
    requires (forall k :: k in names ==> k in env) && before == Terminated(head)
    ensures data == Terminated(head + EnvLines(env, names))
  {
    hide EnvLine, Terminated;
    data := before;
    ghost var lines := EnvLines(env, names);
    assert head + lines[..0] == head;
    for i := 0 to |names|
      invariant data == Terminated(head + lines[..i])
    {
      TerminatedPush(head + lines[..i], lines[i]);
      assert head + lines[..i] + [lines[i]] == head + lines[..i + 1];
      data := data + (EnvLine(names[i], env[names[i]]) + "\n");
    }
    assert lines[..|names|] == lines;
  }

  /** The header and the comment. */
  method RenderComment(j: Job) returns (data: string)
    ensures data == Terminated([HEADER] + (if j.hasComment then CommentLines(Split(j.comment, '\n')) else []))
  {
    hide Terminated, Split;
    data := HEADER + "\n";
    NothingTerminated();
    TerminatedPush([], HEADER);
    assert [] + [HEADER] == [HEADER] && "" + (HEADER + "\n") == HEADER + "\n";
    if !j.hasComment {
      assert [HEADER] + [] == [HEADER];
      return;
    }
    var comment := Split(j.comment, '\n');
    ghost var lines := CommentLines(comment);
    assert [HEADER] + lines[..0] == [HEADER];
    for i := 0 to |comment|
      invariant data == Terminated([HEADER] + lines[..i])
    {
      TerminatedPush([HEADER] + lines[..i], lines[i]);
      assert [HEADER] + lines[..i] + [lines[i]] == [HEADER] + lines[..i + 1];
      if comment[i] == "" {
        data := data + "#\n";
      } else {
        data := data + ("# " + comment[i] + "\n");
      }
    }
    assert lines[..|comment|] == lines;
  }

  lemma NothingTerminated()
    ensures Terminated([]) == ""
  {}

  lemma SortedIsDistinct(names: seq<string>)
    requires SortedBy(names, (s: string) => s)
    ensures forall i, j :: 0 <= i < j < |names| ==> names[i] != names[j]
  {
    forall i, j | 0 <= i < j < |names| ensures names[i] != names[j] {
      LessIsAsymmetric(names[i], names[j]);
    }
  }

  // ------------------------------------------------------------- what valid fields hold

  /** Digits, letters and the signs of time fields; no white space, "=" or "#". */
  predicate FieldChar(c: char) { IsAlnum(c) || c == '*' || c == '-' || c == '/' || c == ',' }

  predicate AllField(s: string) { forall i :: 0 <= i < |s| ==> FieldChar(s[i]) }

  predicate IsName(names: seq<string>, s: string)
  {
    exists i :: 0 <= i < |names| && EqualFold(s, names[i])
  }

  predicate Lowercase(s: string) { forall i :: 0 <= i < |s| ==> 'a' <= s[i] <= 'z' }

  lemma MonthsAreLowercase()
    ensures forall i :: 0 <= i < |MONTHS| ==> Lowercase(MONTHS[i])
  {}

  lemma DaysAreLowercase()
    ensures forall i :: 0 <= i < |DAYS| ==> Lowercase(DAYS[i])
  {}

  lemma NamesAreLowercase(c: Field)
    requires c in FIELDS
    ensures forall i :: 0 <= i < |c.names| ==> Lowercase(c.names[i])
  {}

  lemma FoldedIsField(s: string, n: string)
    requires EqualFold(s, n) && Lowercase(n)
    ensures AllField(s)
  {}

  lemma LetterByLower(c: char, d: char)
    requires 'a' <= d <= 'z' && LowerChar(c) == LowerChar(d)
    ensures IsAlnum(c)
  {}

  lemma ValueIsField(c: Field, s: string)
    requires c in FIELDS && Value(c, s).Some?
    ensures AllField(s)
  {
    var i := NameIndex(c.names, s, 0);
    if i.Some? {
      NamesAreLowercase(c);
      FoldedIsField(s, c.names[i.value]);
    }
  }

  lemma CutPartsField(s: string, c: char)
    requires FieldChar(c) && AllField(CutAt(s, c).before) && (CutAt(s, c).found ==> AllField(CutAt(s, c).after))
    ensures AllField(s)
  {}

  lemma ItemIsField(c: Field, item: string)
    requires c in FIELDS && ValidItem(c, item)
    ensures AllField(item)
  {
    hide Value, LowerChar;
    var step := CutAt(item, '/');
    if step.before != "*" {
      var range := CutAt(step.before, '-');
      ValueIsField(c, range.before);
      if range.found {
        ValueIsField(c, range.after);
      }
      CutPartsField(step.before, '-');
    }
    CutPartsField(item, '/');
  }

  lemma {:induction false} JoinIsField(parts: seq<string>)
    requires forall p :: p in parts ==> AllField(p)
    ensures AllField(Join(parts, ","))
  {
    if 1 < |parts| {
      JoinIsField(parts[1..]);
      assert Join(parts, ",") == parts[0] + "," + Join(parts[1..], ",");
      FieldAppend(parts[0], ",");
      FieldAppend(parts[0] + ",", Join(parts[1..], ","));
    }
  }

  lemma FieldAppend(a: string, b: string)
    requires AllField(a) && AllField(b)
    ensures AllField(a + b)
  {}

  lemma FieldIsField(c: Field, f: string)
    requires c in FIELDS && ValidField(c, f)
    ensures AllField(f)
  {
    hide ValidItem, FieldChar;
    var parts := Split(f, ',');
    JoinSplit(f, ',');
    forall p | p in parts ensures AllField(p) { ItemIsField(c, p); }
    assert [','] == ",";
    JoinIsField(parts);
  }

  // -------------------------------------------------------------- words of a job line

  /** A word of a job line: not empty, without white space and "=". */
  predicate IsWord(s: string)
  {
    s != "" && forall i :: 0 <= i < |s| ==> !IsSpace(s[i]) && s[i] != '='
  }

  lemma AccountIsWord(s: string)
    requires ValidAccount(s)
    ensures IsWord(s)
  {}

  /** The words of a schedule: one keyword, or five fields. */
  function ScheduleWords(s: string): seq<string> { if "@" <= s then [s] else Split(s, ' ') }

  lemma KeywordIsWord(s: string)
    requires IsKeyword(s)
    ensures IsWord(s)
  {}

  lemma ScheduleIsWords(s: string)
    requires ValidSchedule(s)
    ensures var words := ScheduleWords(s);
      && (forall w :: w in words ==> IsWord(w)) && Join(words, " ") == s
      && |words| == (if "@" <= s then 1 else 5) && words[0] != "" && words[0][0] != '#'
      && ("@" <= words[0] <==> "@" <= s)
  {
    hide ValidField, FieldChar, IsKeyword;
    var words := ScheduleWords(s);
    if "@" <= s {
      KeywordIsWord(s);
    } else {
      JoinSplit(s, ' ');
      assert [' '] == " ";
      forall i | 0 <= i < |words| ensures IsWord(words[i]) && FieldWord(words[i]) {
        FieldIsWord(FIELDS[i], words[i]);
      }
    }
  }

  predicate FieldWord(s: string) { s != "" && s[0] != '#' && s[0] != '@' }

  lemma FieldIsWord(c: Field, f: string)
    requires c in FIELDS && ValidField(c, f)
    ensures IsWord(f) && FieldWord(f)
  {
    FieldIsField(c, f);
    hide ValidField;
  }
}
