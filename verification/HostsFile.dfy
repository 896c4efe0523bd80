/** Managing one entry of a hosts file (hosts_entry.go): finding its lines, making them one
    line with the wanted content, and removing them. */
module HostsFile {
  import opened Text
  import opened Sequences
  import opened NetAddress
  import opened TextLines
  import opened HostsLine

  /** The wanted entry; no comment is "". */
  datatype Wanted = Wanted(ipText: string, addr: Addr, names: seq<string>, comment: string)

  /** What identifies a managed entry: its address and its canonical name. */
  datatype Identity = Identity(addr: Addr, canonical: string)

  function LowerChar(c: char): char
  {
    if 'A' <= c <= 'Z' then (c as int + 32) as char else c
  }

  /** strings.EqualFold, on ASCII names. */
  predicate EqualFold(a: string, b: string)
  {
    |a| == |b| && forall i :: 0 <= i < |a| ==> LowerChar(a[i]) == LowerChar(b[i])
  }

  predicate IdMatches(id: Identity, e: Entry)
  {
    e.addr == id.addr && e.names != [] && EqualFold(e.names[0], id.canonical)
  }

  /** A line that holds an entry with one of the identities. */
  predicate Matches(net: Net, ids: seq<Identity>, line: string)
  {
    var e := ParseLine(net, line);
    e.Some? && exists i :: 0 <= i < |ids| && IdMatches(ids[i], e.value)
  }

  function FindUpTo(net: Net, ids: seq<Identity>, lines: seq<string>, n: nat): seq<nat>
    requires n <= |lines|
  {
    if n == 0 then []
    else
      var before := FindUpTo(net, ids, lines, n - 1);
      if Matches(net, ids, lines[n - 1]) then before + [n - 1] else before
  }

  predicate Ascending(s: seq<nat>) { forall j, k :: 0 <= j < k < |s| ==> s[j] < s[k] }

  /** Exactly the matching lines are found, in file order. */
  lemma {:induction false} FindIsRight(net: Net, ids: seq<Identity>, lines: seq<string>, n: nat)
    requires n <= |lines|
    ensures forall i: nat :: i in FindUpTo(net, ids, lines, n) <==> i < n && Matches(net, ids, lines[i])
    ensures Ascending(FindUpTo(net, ids, lines, n))
  {
    hide Matches;
    if 0 < n {
      FindIsRight(net, ids, lines, n - 1);
      var before := FindUpTo(net, ids, lines, n - 1);
      var r := FindUpTo(net, ids, lines, n);
      assert r == if Matches(net, ids, lines[n - 1]) then before + [n - 1] else before;
      forall i: nat ensures i in r <==> i < n && Matches(net, ids, lines[i]) {
        assert i in r <==> i in before || (i == n - 1 && Matches(net, ids, lines[n - 1]));
      }
      forall j | 0 <= j < |before| ensures before[j] < n - 1 {
        var i: nat := before[j];
        assert i in before;
      }
    }
  }

  lemma MatchIsEntry(net: Net, ids: seq<Identity>, line: string)
    requires Matches(net, ids, line)
    ensures ParseLine(net, line).Some?
  {}

  /** What is found can be passed on to ensure and remove. */
  lemma FoundAreEntries(net: Net, ids: seq<Identity>, lines: seq<string>)
    ensures EntriesAt(net, lines, FindUpTo(net, ids, lines, |lines|))
  {
    hide ParseLine, IdMatches, Matches;
    FindIsRight(net, ids, lines, |lines|);
    forall i | i in FindUpTo(net, ids, lines, |lines|) ensures i < |lines| && ParseLine(net, lines[i]).Some? {
      MatchIsEntry(net, ids, lines[i]);
    }
  }

  /** findHostsEntries. */
  method FindEntries(net: Net, ids: seq<Identity>, lines: seq<string>) returns (indices: seq<nat>)
    ensures indices == FindUpTo(net, ids, lines, |lines|)
  {
    hide ParseLine, IdMatches;
    indices := [];
    for i := 0 to |lines|
      invariant indices == FindUpTo(net, ids, lines, i)
    {
      var e := ParseLine(net, lines[i]);
      if e.Some? && exists j :: 0 <= j < |ids| && IdMatches(ids[j], e.value) {
        indices := indices + [i];
      }
    }
  }

  /** The white space after the address of the file's first entry, or a tab. */
  function FieldSeparator(net: Net, lines: seq<string>): string
  {
    if lines == [] then "\t"
    else
      var e := ParseLine(net, lines[0]);
      if e.Some? then e.value.ipSep else FieldSeparator(net, lines[1..])
  }

  function WithComment(w: Wanted, e: Entry): Entry
  {
    if w.comment == "" then e.(hasComment := false, commentSep := "", commentRaw := "", comment := "")
    else if !e.hasComment || e.comment != w.comment then
      e.(hasComment := true, commentRaw := " " + w.comment, comment := w.comment,
         commentSep := if e.commentSep == "" then " " else e.commentSep)
    else e
  }

  /** The entry for a new line. */
  function NewEntry(w: Wanted, ipSep: string): Entry
  {
    WithComment(w, Entry("", w.ipText, w.addr, ipSep, w.names, "", false, "", "", "", false))
  }

  /** The entry of a line that is updated in place. */
  function UpdatedEntry(w: Wanted, e: Entry): Entry
  {
    var a := if e.addr != w.addr then e.(ipText := w.ipText, addr := w.addr) else e;
    var n := a.(names := w.names, nameSep := if 1 < |w.names| && a.nameSep == "" then " " else a.nameSep);
    WithComment(w, n)
  }

  predicate UsesCrlf(lines: seq<string>) { lines != [] && EndsInCr(lines[0]) }

  /** The lines before an entry is appended: in a CRLF file an unterminated last line gets
      the carriage return that goes in front of its new line feed. */
  function Closed(t: Content): seq<string>
  {
    var n := |t.lines|;
    if UsesCrlf(t.lines) && !t.trailingNewline && !EndsInCr(t.lines[n - 1])
    then t.lines[n - 1 := t.lines[n - 1] + "\r"] else t.lines
  }

  function AppendedLine(net: Net, w: Wanted, lines: seq<string>): string
  {
    var line := Render(NewEntry(w, FieldSeparator(net, lines)));
    if UsesCrlf(lines) then line + "\r" else line
  }

  function Rest(indices: seq<nat>): set<nat> { set i | 1 <= i < |indices| :: indices[i] }

  function UpdatedLine(net: Net, w: Wanted, line: string): string
  {
    var e := ParseLine(net, line);
    if e.None? then line else Render(UpdatedEntry(w, e.value))
  }

  /** What ensureHostsEntry leaves for the lines at `indices`. */
  function Ensured(net: Net, t: Content, indices: seq<nat>, w: Wanted): Content
  {
    if indices == [] || |t.lines| <= indices[0] then
      Content(Closed(t) + [AppendedLine(net, w, t.lines)], true)
    else
      var lines := t.lines[indices[0] := UpdatedLine(net, w, t.lines[indices[0]])];
      t.(lines := Without(lines, Rest(indices), |lines|))
  }

  /** Indices of entries, in file order. */
  ghost predicate EntriesAt(net: Net, lines: seq<string>, indices: seq<nat>)
  {
    && (forall i :: i in indices ==> i < |lines| && ParseLine(net, lines[i]).Some?)
    && Ascending(indices)
  }

  /** Whether ensureHostsEntry reports a change. */
  predicate Changes(net: Net, lines: seq<string>, indices: seq<nat>, w: Wanted)
  {
    || indices == [] || 1 < |indices| || |lines| <= indices[0]
    || UpdatedLine(net, w, lines[indices[0]]) != lines[indices[0]]
  }

  // ---------------------------------------------------------------------- operations

  /** Removing one more line in front of those removed already. */
  lemma {:induction false} WithoutOneMore<T>(s: seq<T>, drop: set<nat>, j: nat, n: nat)
    requires n <= |s| && forall i :: i in drop ==> j < i
    ensures n <= j ==> Without(s, drop + {j}, n) == Without(s, drop, n) == s[..n]
    ensures j < n ==>
      && j < |Without(s, drop, n)|
      && Without(s, drop, n)[..j] == s[..j]
      && Without(s, drop, n)[j] == s[j]
      && Without(s, drop + {j}, n) == Without(s, drop, n)[..j] + Without(s, drop, n)[j + 1..]
  {
    if 0 < n {
      WithoutOneMore(s, drop, j, n - 1);
    }
  }

  function From(indices: seq<nat>, i: nat): set<nat> { set k | i <= k < |indices| :: indices[k] }

  lemma FromStep(indices: seq<nat>, i: nat)
    requires 0 < i <= |indices|
    ensures From(indices, i - 1) == From(indices, i) + {indices[i - 1]}
  {}

  /** Deletes the lines at the indices from the `first`-th on, from the last one up. */
  method DeleteFrom(t: TextFile, indices: seq<nat>, first: nat)
    requires first <= |indices| && forall i :: i in indices ==> i < |t.lines|
    requires Ascending(indices)
    modifies t`lines
    ensures t.lines == Without(old(t.lines), From(indices, first), |old(t.lines)|)
  {
    ghost var all := t.lines;
    var i := |indices|;
    assert From(indices, i) == {};
    WithoutNone(all, |all|);
    assert all[..|all|] == all;
    while first < i
      invariant first <= i <= |indices|
      invariant t.lines == Without(all, From(indices, i), |all|)
    {
      i := i - 1;
      assert indices[i] in indices;
      WithoutOneMore(all, From(indices, i + 1), indices[i], |all|);
      FromStep(indices, i + 1);
      t.Replace(indices[i], indices[i] + 1, []);
      assert t.lines == Without(all, From(indices, i), |all|);
    }
  }

  lemma RestIsFrom(indices: seq<nat>)
    ensures Rest(indices) == From(indices, 1)
  {}

  method AppendEntry(net: Net, t: TextFile, w: Wanted)
    modifies t
    ensures t.Value() == Content(Closed(old(t.Value())) + [AppendedLine(net, w, old(t.lines))], true)
  {
    hide ParseLine, FieldSeparator, NewEntry;
    var line := RenderLine(NewEntry(w, FieldSeparator(net, t.lines)));
    if UsesCrlf(t.lines) {
      line := line + "\r";
      var last := |t.lines| - 1;
      if !t.trailingNewline && !EndsInCr(t.lines[last]) {
        t.lines := t.lines[last := t.lines[last] + "\r"];
      }
    }
    t.Insert(|t.lines|, [line]);
  }

  /** ensureHostsEntry: one line for the entry. */
  method EnsureEntry(net: Net, t: TextFile, indices: seq<nat>, w: Wanted) returns (changed: bool)
    requires EntriesAt(net, t.lines, indices)
    modifies t
    ensures t.Value() == Ensured(net, old(t.Value()), indices, w)
    ensures changed <==> Changes(net, old(t.lines), indices, w)
  {
    hide ParseLine, UpdatedEntry, NewEntry, FieldSeparator, Render, Closed, AppendedLine;
    if indices == [] {
      AppendEntry(net, t, w);
      return true;
    }
    ghost var all := t.lines;
    var idx := indices[0];
    assert idx in indices;
    DeleteFrom(t, indices, 1);
    RestIsFrom(indices);
    changed := 1 < |indices|;
    assert forall i :: i in Rest(indices) ==> idx < i;
    WithoutKeeps(all, Rest(indices), idx, UpdatedLine(net, w, all[idx]), |all|);
    var e := ParseLine(net, t.lines[idx]);
    var line := RenderLine(UpdatedEntry(w, e.value));
    if line != t.lines[idx] {
      t.lines := t.lines[idx := line];
      changed := true;
    }
  }

  /** A line before those removed stays at its index. */
  lemma {:induction false} WithoutKeeps<T>(s: seq<T>, drop: set<nat>, k: nat, x: T, n: nat)
    requires k < n <= |s| && forall i :: i in drop ==> k < i
    ensures k < |Without(s, drop, n)| && Without(s, drop, n)[k] == s[k]
    ensures Without(s[k := x], drop, n) == Without(s, drop, n)[k := x]
  {
    if k + 1 < n {
      WithoutKeeps(s, drop, k, x, n - 1);
    } else {
      WithoutBefore(s, drop, k);
      WithoutBefore(s[k := x], drop, k);
    }
  }

  lemma {:induction false} WithoutBefore<T>(s: seq<T>, drop: set<nat>, n: nat)
    requires n <= |s| && forall i :: i in drop ==> n < i
    ensures Without(s, drop, n) == s[..n]
  {
    if 0 < n {
      WithoutBefore(s, drop, n - 1);
      assert s[..n] == s[..n - 1] + [s[n - 1]];
    }
  }

  method RemoveEntries(t: TextFile, indices: seq<nat>) returns (changed: bool)
    requires forall i :: i in indices ==> i < |t.lines|
    requires Ascending(indices)
    modifies t`lines
    ensures t.lines == Without(old(t.lines), From(indices, 0), |old(t.lines)|)
    ensures changed <==> indices != []
  {
    DeleteFrom(t, indices, 0);
    changed := indices != [];
  }

  // --------------------------------------------------------------- the entry's own line

  /** What the validators accept: an address as it reads, host names, and a comment that is
      one trimmed line. */
  ghost predicate ValidWanted(net: Net, w: Wanted)
  {
    && net.read(w.ipText) == Some(w.addr)
    && w.names != [] && (forall n :: n in w.names ==> IsHostname(n))
    && TrimSpace(w.comment) == w.comment && '\r' !in w.comment && '\n' !in w.comment
  }

  /** The entry as its line is read: a separator between names only if there are several. */
  function Normal(e: Entry): Entry { e.(nameSep := if |e.names| <= 1 then "" else NameSep(e)) }

  lemma NormalRenders(e: Entry)
    ensures Render(Normal(e)) == Render(e)
  {}

  /** The entry has the wanted address, names and comment. */
  predicate IsWanted(w: Wanted, e: Entry)
  {
    e.addr == w.addr && e.names == w.names && e.comment == w.comment && (e.hasComment <==> w.comment != "")
  }

  lemma SpaceBeforeComment(comment: string)
    requires TrimSpace(comment) == comment
    ensures TrimSpace(" " + comment) == comment && TrimSpace("") == ""
  {
    assert AllSpace(" ") && AllSpace("");
    TrimSpaceAround(" ", comment, "");
    assert " " + comment + "" == " " + comment;
    TrimSpaceOfTrimmed("");
  }

  lemma CommentedIsShaped(net: Net, w: Wanted, e: Entry)
    requires ValidWanted(net, w) && Shaped(net, Normal(e)) && e.names == w.names && e.addr == w.addr
    requires e.hasComment && !e.cr ==> !EndsInCr(e.commentRaw)
    ensures var n := Normal(WithComment(w, e));
      Shaped(net, n) && EndsPlainly(n) && IsWanted(w, n)
  {
    hide TrimSpace;
    SpaceBeforeComment(w.comment);
    var last, raw := w.names[|w.names| - 1], " " + w.comment;
    assert last in w.names && IsHostname(last) && last[|last| - 1] in last;
    if w.comment != "" {
      assert w.comment[|w.comment| - 1] in w.comment;
      assert raw[|raw| - 1] == w.comment[|w.comment| - 1];
    }
  }

  lemma NamesAreFields(w: Wanted)
    requires forall n :: n in w.names ==> IsHostname(n)
    ensures forall n :: n in w.names ==> IsField(n)
  {}

  lemma UpdatedIsShaped(net: Net, w: Wanted, line: string)
    requires ValidWanted(net, w) && ParseLine(net, line).Some?
    ensures var n := Normal(UpdatedEntry(w, ParseLine(net, line).value));
      Shaped(net, n) && EndsPlainly(n) && IsWanted(w, n)
  {
    hide ParseLine, TrimSpace;
    ParsedIsShaped(net, line);
    NamesAreFields(w);
    var e := ParseLine(net, line).value;
    var a := if e.addr != w.addr then e.(ipText := w.ipText, addr := w.addr) else e;
    var n := a.(names := w.names, nameSep := if 1 < |w.names| && a.nameSep == "" then " " else a.nameSep);
    CommentedIsShaped(net, w, n);
  }

  lemma NewIsShaped(net: Net, w: Wanted, ipSep: string, cr: bool)
    requires ValidWanted(net, w) && AllBlank(ipSep) && ipSep != ""
    ensures var n := Normal(NewEntry(w, ipSep).(cr := cr));
      Shaped(net, n) && EndsPlainly(n) && IsWanted(w, n)
  {
    hide TrimSpace;
    NamesAreFields(w);
    TrimSpaceOfTrimmed("");
    var e := Entry("", w.ipText, w.addr, ipSep, w.names, "", false, "", "", "", cr);
    CommentedIsShaped(net, w, e);
    assert WithComment(w, e) == NewEntry(w, ipSep).(cr := cr);
  }

  /** An entry that is the wanted one is left as it is. */
  lemma WantedIsKept(net: Net, w: Wanted, n: Entry)
    requires Shaped(net, n) && IsWanted(w, n)
    ensures UpdatedEntry(w, n) == n
  {}

  /** A line written for the entry reads as the wanted entry, and updating it again leaves
      it as it is. */
  ghost predicate IsItsLine(net: Net, w: Wanted, line: string)
  {
    ParseLine(net, line).Some? && IsWanted(w, ParseLine(net, line).value) && UpdatedLine(net, w, line) == line
  }

  lemma RenderedIsItsLine(net: Net, w: Wanted, e: Entry)
    requires ReadsFields(net) && Shaped(net, Normal(e)) && EndsPlainly(Normal(e)) && IsWanted(w, Normal(e))
    ensures IsItsLine(net, w, Render(e))
  {
    hide Shaped, ReadsFields, EndsPlainly, IsWanted, ParseLine, Render, Normal, UpdatedEntry;
    NormalRenders(e);
    RenderReads(net, Normal(e));
    WantedIsKept(net, w, Normal(e));
  }

  lemma UpdatedIsItsLine(net: Net, w: Wanted, line: string)
    requires ReadsFields(net) && ValidWanted(net, w) && ParseLine(net, line).Some?
    ensures IsItsLine(net, w, UpdatedLine(net, w, line))
  {
    hide Shaped, ReadsFields, EndsPlainly, IsWanted, ParseLine, Render, Normal, UpdatedEntry, IsItsLine, ValidWanted;
    UpdatedIsShaped(net, w, line);
    RenderedIsItsLine(net, w, UpdatedEntry(w, ParseLine(net, line).value));
  }

  lemma {:induction false} SeparatorIsBlank(net: Net, lines: seq<string>)
    ensures AllBlank(FieldSeparator(net, lines)) && FieldSeparator(net, lines) != ""
  {
    hide ParseLine;
    if lines != [] {
      if ParseLine(net, lines[0]).Some? {
        ParsedIsShaped(net, lines[0]);
      } else {
        SeparatorIsBlank(net, lines[1..]);
      }
    }
  }

  lemma CrRenders(w: Wanted, ipSep: string)
    ensures Render(NewEntry(w, ipSep).(cr := true)) == Render(NewEntry(w, ipSep)) + "\r"
    ensures NewEntry(w, ipSep).(cr := false) == NewEntry(w, ipSep)
  {}

  lemma AppendedIsItsLine(net: Net, w: Wanted, lines: seq<string>)
    requires ReadsFields(net) && ValidWanted(net, w)
    ensures IsItsLine(net, w, AppendedLine(net, w, lines))
  {
    hide Shaped, ReadsFields, EndsPlainly, IsWanted, ParseLine, Render, Normal, NewEntry, IsItsLine, ValidWanted, FieldSeparator;
    var sep, cr := FieldSeparator(net, lines), UsesCrlf(lines);
    SeparatorIsBlank(net, lines);
    NewIsShaped(net, w, sep, cr);
    CrRenders(w, sep);
    RenderedIsItsLine(net, w, NewEntry(w, sep).(cr := cr));
  }

  // ------------------------------------------------------------------- the other lines

  /** The lines without an entry of one of the identities. */
  function Others(net: Net, ids: seq<Identity>, lines: seq<string>): seq<string>
  {
    if lines == [] then []
    else
      var init, last := lines[..|lines| - 1], lines[|lines| - 1];
      if Matches(net, ids, last) then Others(net, ids, init) else Others(net, ids, init) + [last]
  }

  lemma {:induction false} OthersAppend(net: Net, ids: seq<Identity>, a: seq<string>, b: seq<string>)
    ensures Others(net, ids, a + b) == Others(net, ids, a) + Others(net, ids, b)
    decreases |b|
  {
    hide Matches;
    if b == [] {
      assert a + b == a;
    } else {
      OthersAppend(net, ids, a, b[..|b| - 1]);
      assert (a + b)[..|a + b| - 1] == a + b[..|b| - 1];
    }
  }

  ghost predicate NoneMatch(net: Net, ids: seq<Identity>, lines: seq<string>)
  {
    forall i :: 0 <= i < |lines| ==> !Matches(net, ids, lines[i])
  }

  lemma {:induction false} OthersMatchNone(net: Net, ids: seq<Identity>, lines: seq<string>)
    ensures NoneMatch(net, ids, Others(net, ids, lines))
  {
    hide Matches;
    if lines != [] {
      OthersMatchNone(net, ids, lines[..|lines| - 1]);
    }
  }

  lemma {:induction false} OthersOfNone(net: Net, ids: seq<Identity>, lines: seq<string>)
    requires NoneMatch(net, ids, lines)
    ensures Others(net, ids, lines) == lines
  {
    hide Matches;
    if lines != [] {
      var init := lines[..|lines| - 1];
      assert forall i :: 0 <= i < |init| ==> init[i] == lines[i];
      OthersOfNone(net, ids, init);
      assert lines == init + [lines[|lines| - 1]];
    }
  }

  /** One matching line among others is the only one found. */
  lemma {:induction false} OneIsFound(net: Net, ids: seq<Identity>, a: seq<string>, x: string, b: seq<string>, n: nat)
    requires NoneMatch(net, ids, a) && Matches(net, ids, x) && NoneMatch(net, ids, b)
    requires n <= |a| + 1 + |b|
    ensures FindUpTo(net, ids, a + [x] + b, n) == if n <= |a| then [] else [|a|]
  {
    hide Matches;
    if 0 < n {
      OneIsFound(net, ids, a, x, b, n - 1);
      var lines := a + [x] + b;
      assert n - 1 < |a| ==> lines[n - 1] == a[n - 1];
      assert |a| < n - 1 ==> lines[n - 1] == b[n - 1 - |a| - 1];
    }
  }

  lemma OthersAround(net: Net, ids: seq<Identity>, a: seq<string>, x: string, b: seq<string>)
    requires Matches(net, ids, x)
    ensures Others(net, ids, a + [x] + b) == Others(net, ids, a) + Others(net, ids, b)
  {
    hide Matches;
    OthersAppend(net, ids, a + [x], b);
    OthersAppend(net, ids, a, [x]);
    assert [x][..0] == [] && Others(net, ids, [x]) == [];
  }

  /** Dropping the further matches leaves the first one among the other lines. */
  lemma {:induction false} RestIsDropped(net: Net, ids: seq<Identity>, lines: seq<string>, drop: set<nat>, k: nat, x: string, n: nat)
    requires k < |lines| && n <= |lines| && NoneMatch(net, ids, lines[..k])
    requires forall i :: 0 <= i < |lines| ==> (i in drop <==> Matches(net, ids, lines[i]) && i != k)
    ensures Without(lines[k := x], drop, n)
         == if n <= k then Others(net, ids, lines[..n])
            else Others(net, ids, lines[..k]) + [x] + Others(net, ids, lines[k + 1..n])
  {
    hide Matches, Others, Without, NoneMatch;
    if n == 0 {
      NothingOther(net, ids, lines);
      NothingLeft(lines[k := x], drop);
    } else {
      RestIsDropped(net, ids, lines, drop, k, x, n - 1);
      OthersPush(net, ids, lines, k, n);
      WithoutPush(lines[k := x], drop, n - 1);
      NoneBefore(net, ids, lines, k, n - 1);
    }
  }

  lemma NothingOther(net: Net, ids: seq<Identity>, lines: seq<string>)
    ensures lines[..0] == [] && Others(net, ids, []) == []
  {}

  lemma NothingLeft<T>(s: seq<T>, drop: set<nat>)
    ensures Without(s, drop, 0) == []
  {}

  lemma WithoutPush<T>(s: seq<T>, drop: set<nat>, n: nat)
    requires n < |s|
    ensures Without(s, drop, n + 1) == if n in drop then Without(s, drop, n) else Without(s, drop, n) + [s[n]]
  {}

  lemma NoneBefore(net: Net, ids: seq<Identity>, lines: seq<string>, k: nat, i: nat)
    requires k <= |lines| && NoneMatch(net, ids, lines[..k]) && i < |lines|
    ensures i < k ==> !Matches(net, ids, lines[i])
  {}

  lemma OthersPush(net: Net, ids: seq<Identity>, lines: seq<string>, k: nat, n: nat)
    requires 0 < n <= |lines| && k < |lines|
    ensures var more := if Matches(net, ids, lines[n - 1]) then [] else [lines[n - 1]];
      && Others(net, ids, lines[..n]) == Others(net, ids, lines[..n - 1]) + more
      && (n == k + 1 ==> Others(net, ids, lines[k + 1..n]) == [])
      && (k + 1 < n ==> Others(net, ids, lines[k + 1..n]) == Others(net, ids, lines[k + 1..n - 1]) + more)
  {
    hide Matches;
    assert lines[..n][..n - 1] == lines[..n - 1];
    if k + 1 < n {
      assert lines[k + 1..n][..n - k - 2] == lines[k + 1..n - 1];
    }
  }

  // ------------------------------------------------------------------------- theorems

  /** The identities the caller looks for include the new one. */
  predicate Seeks(ids: seq<Identity>, w: Wanted)
  {
    w.names != [] && Identity(w.addr, w.names[0]) in ids
  }

  lemma ItsLineMatches(net: Net, ids: seq<Identity>, w: Wanted, line: string)
    requires Seeks(ids, w) && IsItsLine(net, w, line)
    ensures Matches(net, ids, line)
  {}

  lemma CrKeepsMatch(net: Net, ids: seq<Identity>, line: string)
    requires !EndsInCr(line)
    ensures Matches(net, ids, line + "\r") == Matches(net, ids, line)
  {}

  lemma ClosedMatchesNone(net: Net, ids: seq<Identity>, t: Content)
    requires NoneMatch(net, ids, t.lines)
    ensures NoneMatch(net, ids, Closed(t))
  {}

  /** What the lines are after ensure: the entry's line, once, in the place of the first line
      it had or at the end, and around it the other lines. */
  ghost predicate Settled(net: Net, ids: seq<Identity>, w: Wanted, lines: seq<string>, others: seq<string>)
  {
    && Others(net, ids, lines) == others
    && exists k :: 0 <= k < |lines| && IsItsLine(net, w, lines[k]) && FindUpTo(net, ids, lines, |lines|) == [k]
  }

  lemma SettledAround(net: Net, ids: seq<Identity>, w: Wanted, a: seq<string>, x: string, b: seq<string>)
    requires Seeks(ids, w) && IsItsLine(net, w, x) && NoneMatch(net, ids, a) && NoneMatch(net, ids, b)
    ensures Settled(net, ids, w, a + [x] + b, a + b)
  {
    hide IsItsLine, Matches, NoneMatch, FindUpTo, Others, Seeks;
    var lines := a + [x] + b;
    ItsLineMatches(net, ids, w, x);
    OneIsFound(net, ids, a, x, b, |lines|);
    OthersAround(net, ids, a, x, b);
    OthersOfNone(net, ids, a);
    OthersOfNone(net, ids, b);
    assert lines[|a|] == x;
  }

  lemma AppendSettles(net: Net, ids: seq<Identity>, w: Wanted, t: Content)
    requires ReadsFields(net) && ValidWanted(net, w) && Seeks(ids, w) && NoneMatch(net, ids, t.lines)
    ensures Settled(net, ids, w, Closed(t) + [AppendedLine(net, w, t.lines)], Closed(t))
  {
    hide ReadsFields, ValidWanted, Seeks, NoneMatch, Closed, AppendedLine, Settled, IsItsLine;
    AppendedIsItsLine(net, w, t.lines);
    ClosedMatchesNone(net, ids, t);
    NothingMatches(net, ids);
    var a, x := Closed(t), AppendedLine(net, w, t.lines);
    SettledAround(net, ids, w, a, x, []);
    assert a + [x] + [] == a + [x] && a + [] == a;
  }

  lemma NothingMatches(net: Net, ids: seq<Identity>)
    ensures NoneMatch(net, ids, [])
  {}

  /** The lines found, sorted into the first one and those to be dropped. */
  lemma FoundParts(net: Net, ids: seq<Identity>, lines: seq<string>)
    requires FindUpTo(net, ids, lines, |lines|) != []
    ensures var indices := FindUpTo(net, ids, lines, |lines|); var k := indices[0];
      && k < |lines| && Matches(net, ids, lines[k]) && NoneMatch(net, ids, lines[..k])
      && forall i: nat :: i < |lines| ==> (i in Rest(indices) <==> Matches(net, ids, lines[i]) && i != k)
  {
    hide Matches;
    var indices := FindUpTo(net, ids, lines, |lines|);
    var k := indices[0];
    FindIsRight(net, ids, lines, |lines|);
    assert k in indices;
    assert forall j :: 0 <= j < |indices| ==> indices[j] in indices;
    forall i: nat | i < |lines| ensures Matches(net, ids, lines[i]) ==> k <= i && (i == k || i in Rest(indices)) {
      if i in indices {
        var j :| 0 <= j < |indices| && indices[j] == i;
      }
    }
  }

  lemma UpdateSettles(net: Net, ids: seq<Identity>, w: Wanted, lines: seq<string>)
    requires ReadsFields(net) && ValidWanted(net, w) && Seeks(ids, w)
    requires FindUpTo(net, ids, lines, |lines|) != []
    ensures var indices := FindUpTo(net, ids, lines, |lines|); var k := indices[0];
      && k < |lines|
      && Settled(net, ids, w, Without(lines[k := UpdatedLine(net, w, lines[k])], Rest(indices), |lines|),
                 Others(net, ids, lines))
  {
    hide ReadsFields, ValidWanted, Seeks, NoneMatch, FindUpTo, Others, UpdatedLine, Settled, IsItsLine, ParseLine, IdMatches;
    var indices := FindUpTo(net, ids, lines, |lines|);
    FoundParts(net, ids, lines);
    var k := indices[0];
    var x, a, b := UpdatedLine(net, w, lines[k]), lines[..k], lines[k + 1..];
    assert lines == a + [lines[k]] + b && lines[k + 1..|lines|] == b;
    UpdatedIsItsLine(net, w, lines[k]);
    RestIsDropped(net, ids, lines, Rest(indices), k, x, |lines|);
    OthersAround(net, ids, a, lines[k], b);
    OthersMatchNone(net, ids, a);
    OthersMatchNone(net, ids, b);
    SettledAround(net, ids, w, Others(net, ids, a), x, Others(net, ids, b));
  }

  /** After ensureHostsEntry on the lines found for any identities that include the entry's
      own, exactly one line has one of them; it reads as the wanted entry, and the other
      lines keep their text and order, but for the carriage return that an unterminated last
      line of a CRLF file gets when the entry is appended. */
  lemma EnsureSettles(net: Net, ids: seq<Identity>, w: Wanted, t: Content)
    requires ReadsFields(net) && ValidWanted(net, w) && Seeks(ids, w)
    ensures var indices := FindUpTo(net, ids, t.lines, |t.lines|);
      Settled(net, ids, w, Ensured(net, t, indices, w).lines,
              if indices == [] then Closed(t) else Others(net, ids, t.lines))
  {
    hide ReadsFields, ValidWanted, Seeks, Closed, Others, Settled, UpdatedLine, Matches, AppendedLine;
    var indices := FindUpTo(net, ids, t.lines, |t.lines|);
    if indices == [] {
      NoneFound(net, ids, t.lines);
      AppendSettles(net, ids, w, t);
    } else {
      UpdateSettles(net, ids, w, t.lines);
    }
  }

  lemma NoneFound(net: Net, ids: seq<Identity>, lines: seq<string>)
    requires FindUpTo(net, ids, lines, |lines|) == []
    ensures NoneMatch(net, ids, lines)
  {
    hide Matches;
    FindIsRight(net, ids, lines, |lines|);
    forall i: nat | i < |lines| ensures !Matches(net, ids, lines[i]) {
      assert i !in FindUpTo(net, ids, lines, |lines|);
    }
  }

  /** A second call, with the lines found anew, reports no change and makes none. */
  lemma EnsureIsIdempotent(net: Net, ids: seq<Identity>, w: Wanted, t: Content)
    requires ReadsFields(net) && ValidWanted(net, w) && Seeks(ids, w)
    ensures var after := Ensured(net, t, FindUpTo(net, ids, t.lines, |t.lines|), w);
      var again := FindUpTo(net, ids, after.lines, |after.lines|);
      !Changes(net, after.lines, again, w) && Ensured(net, after, again, w) == after
  {
    hide ReadsFields, ValidWanted, Seeks, Closed, Others, UpdatedLine, FindUpTo, ParseLine, IsWanted, AppendedLine;
    EnsureSettles(net, ids, w, t);
    var after := Ensured(net, t, FindUpTo(net, ids, t.lines, |t.lines|), w);
    var again := FindUpTo(net, ids, after.lines, |after.lines|);
    SettledIsKept(net, w, after, again);
  }

  lemma SettledIsKept(net: Net, w: Wanted, t: Content, indices: seq<nat>)
    requires exists k :: 0 <= k < |t.lines| && IsItsLine(net, w, t.lines[k]) && indices == [k]
    ensures !Changes(net, t.lines, indices, w) && Ensured(net, t, indices, w) == t
  {
    hide UpdatedLine, ParseLine, IsWanted;
    var k := indices[0];
    assert Rest(indices) == {};
    WithoutNone(t.lines, |t.lines|);
    assert t.lines[k := t.lines[k]] == t.lines && t.lines[..|t.lines|] == t.lines;
  }

  lemma {:induction false} WithoutMatching(net: Net, ids: seq<Identity>, lines: seq<string>, drop: set<nat>, n: nat)
    requires n <= |lines| && forall i: nat :: i < |lines| ==> (i in drop <==> Matches(net, ids, lines[i]))
    ensures Without(lines, drop, n) == Others(net, ids, lines[..n])
  {
    hide Matches;
    if 0 < n {
      WithoutMatching(net, ids, lines, drop, n - 1);
      assert lines[..n][..n - 1] == lines[..n - 1];
    }
  }

  lemma FoundFromStart(net: Net, ids: seq<Identity>, lines: seq<string>)
    ensures forall i: nat :: i < |lines| ==>
      (i in From(FindUpTo(net, ids, lines, |lines|), 0) <==> Matches(net, ids, lines[i]))
  {
    hide Matches;
    var indices := FindUpTo(net, ids, lines, |lines|);
    FindIsRight(net, ids, lines, |lines|);
    forall i: nat | i in indices ensures i in From(indices, 0) {
      var j :| 0 <= j < |indices| && indices[j] == i;
    }
    forall i: nat | i in From(indices, 0) ensures i in indices {}
  }

  /** Removing what was found leaves exactly the other lines. */
  lemma RemovedAreOthers(net: Net, ids: seq<Identity>, lines: seq<string>)
    ensures Without(lines, From(FindUpTo(net, ids, lines, |lines|), 0), |lines|) == Others(net, ids, lines)
  {
    hide Matches, FindUpTo, Without, Others;
    FoundFromStart(net, ids, lines);
    WithoutMatching(net, ids, lines, From(FindUpTo(net, ids, lines, |lines|), 0), |lines|);
    assert lines[..|lines|] == lines;
  }

  /** What create and update do with the file: find the lines of the old and new identities
      and make them one. */
  method SetEntry(net: Net, t: TextFile, ids: seq<Identity>, w: Wanted) returns (changed: bool)
    requires ReadsFields(net) && ValidWanted(net, w) && Seeks(ids, w)
    modifies t
    ensures var indices := FindUpTo(net, ids, old(t.lines), |old(t.lines)|);
      && t.Value() == Ensured(net, old(t.Value()), indices, w)
      && Settled(net, ids, w, t.lines, if indices == [] then Closed(old(t.Value())) else Others(net, ids, old(t.lines)))
  {
    hide ReadsFields, ValidWanted, Seeks, Matches, Settled, Closed, Others, Ensured, FindUpTo, Changes, EntriesAt;
    var indices := FindEntries(net, ids, t.lines);
    FoundAreEntries(net, ids, t.lines);
    EnsureSettles(net, ids, w, t.Value());
    changed := EnsureEntry(net, t, indices, w);
  }
}
