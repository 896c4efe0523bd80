/** Where a missing key is written, said by the lines around it (ini_edit.go, find, ensure and
    insertGlobal). */
module IniPlaces {
  import opened Text
  import opened Sequences
  import opened IniLines
  import opened IniSyntax
  import opened IniEdit
  import opened IniEnsure

  // -------------------------------------------------------------- the lines of a section

  /** A line of the section, below one of its headers. */
  predicate Inside(ps: seq<Parsed>, section: string, i: int)
  {
    0 <= i < |ps| && !ps[i].Section? && Spot(ps, section, i)
  }

  predicate KeyAt(ps: seq<Parsed>, section: string, i: int) { Inside(ps, section, i) && ps[i].KeyLine? }

  /** A comment that comments the key out. */
  predicate CommentedAt(ps: seq<Parsed>, section: string, key: string, i: int)
  {
    Inside(ps, section, i) && ps[i].Comment? && ps[i].out == key
  }

  predicate HeaderAt(ps: seq<Parsed>, section: string, i: int)
  {
    0 <= i < |ps| && section != "" && ps[i].Section? && ps[i].name == section
  }

  predicate AnyHeaderAt(ps: seq<Parsed>, i: int) { 0 <= i < |ps| && ps[i].Section? }

  /** `k` is the last key line of the section after line `h`, or -1. */
  ghost predicate LastKeyIs(ps: seq<Parsed>, section: string, h: int, n: nat, k: int)
  {
    && (forall i :: h < i < n && k < i ==> !KeyAt(ps, section, i))
    && (k != -1 ==> h < k < n && KeyAt(ps, section, k))
  }

  /** `h` is the last header of the section, or -1. */
  ghost predicate LastHeaderIs(ps: seq<Parsed>, section: string, n: nat, h: int)
  {
    && (forall i :: h < i < n ==> !HeaderAt(ps, section, i))
    && -1 <= h < n && (h != -1 ==> HeaderAt(ps, section, h))
  }

  ghost predicate FirstHeaderIs(ps: seq<Parsed>, n: nat, h: nat)
  {
    && (forall i :: 0 <= i < h && i < n ==> !AnyHeaderAt(ps, i))
    && (h == |ps| || (h < n && AnyHeaderAt(ps, h)))
  }

  ghost predicate CommentedRight(ps: seq<Parsed>, section: string, key: string, n: nat, commented: seq<nat>)
  {
    && (forall i :: i in commented ==> i < n && CommentedAt(ps, section, key, i))
    && (forall i :: 0 <= i < n && CommentedAt(ps, section, key, i) ==> i in commented)
    && (forall j, k :: 0 <= j < k < |commented| ==> commented[j] < commented[k])
  }

  ghost predicate BlocksRight(ps: seq<Parsed>, section: string, n: nat, blocks: seq<Block>)
  {
    && (blocks == [] ==> section != "" && LastHeaderIs(ps, section, n, -1))
    && (blocks != [] ==>
          var b := blocks[|blocks| - 1];
          && LastHeaderIs(ps, section, n, b.header) && LastKeyIs(ps, section, b.header, n, b.lastKey)
          && (b.header == -1 <==> section == ""))
  }

  ghost predicate FoundRight(ps: seq<Parsed>, section: string, key: string, n: nat, m: Match)
    requires n <= |ps|
  {
    && CommentedRight(ps, section, key, n, m.commented)
    && BlocksRight(ps, section, n, m.blocks)
    && FirstHeaderIs(ps, n, m.firstHeader)
    && (m.inBlock <==> Spot(ps, section, n)) && (m.inBlock ==> m.blocks != [])
  }

  // ------------------------------------------------------------------- find finds them

  lemma CommentedStep(ps: seq<Parsed>, section: string, key: string, commented: seq<nat>, i: nat)
    requires i < |ps| && CommentedRight(ps, section, key, i, commented)
    ensures CommentedRight(ps, section, key, i + 1, if CommentedAt(ps, section, key, i) then commented + [i] else commented)
  {
    hide CommentedAt;
    assert forall j :: 0 <= j < |commented| ==> commented[j] in commented;
  }

  lemma HeaderStep(ps: seq<Parsed>, section: string, n: nat, h: int)
    requires n < |ps| && LastHeaderIs(ps, section, n, h)
    ensures LastHeaderIs(ps, section, n + 1, if HeaderAt(ps, section, n) then n else h)
  {
    hide HeaderAt;
  }

  lemma KeyStep(ps: seq<Parsed>, section: string, h: int, n: nat, k: int)
    requires n < |ps| && h < n && LastKeyIs(ps, section, h, n, k)
    ensures LastKeyIs(ps, section, h, n + 1, if KeyAt(ps, section, n) then n else k)
    ensures LastKeyIs(ps, section, n, n + 1, -1)
  {
    hide KeyAt;
  }

  lemma FirstHeaderStep(ps: seq<Parsed>, n: nat, h: nat)
    requires n < |ps| && FirstHeaderIs(ps, n, h)
    ensures FirstHeaderIs(ps, n + 1, if h == |ps| && ps[n].Section? then n else h)
  {}

  /** The headers of a section "" are none. */
  lemma NoGlobalHeader(ps: seq<Parsed>, n: nat, h: int)
    requires LastHeaderIs(ps, "", n, h)
    ensures h == -1
  {}

  lemma BlocksStep(section: string, key: string, ps: seq<Parsed>, m: Match, i: nat)
    requires i < |ps| && FoundRight(ps, section, key, i, m)
    ensures BlocksRight(ps, section, i + 1, FindStep(section, key, m, ps[i], i, |ps|).blocks)
  {
    hide LastHeaderIs, LastKeyIs, CommentedRight, FirstHeaderIs, Spot;
    var m' := FindStep(section, key, m, ps[i], i, |ps|);
    if m.blocks == [] {
      HeaderStep(ps, section, i, -1);
      KeyAfterNew(ps, section, i);
    } else {
      var b := m.blocks[|m.blocks| - 1];
      HeaderIsBefore(ps, section, i, b.header);
      HeaderStep(ps, section, i, b.header);
      KeyStep(ps, section, b.header, i, b.lastKey);
    }
  }

  lemma HeaderIsBefore(ps: seq<Parsed>, section: string, n: nat, h: int)
    requires LastHeaderIs(ps, section, n, h)
    ensures -1 <= h < n
  {}

  lemma KeyAfterNew(ps: seq<Parsed>, section: string, n: nat)
    ensures LastKeyIs(ps, section, n, n + 1, -1)
  {}

  lemma FoundStep(section: string, key: string, ps: seq<Parsed>, m: Match, i: nat)
    requires i < |ps| && FoundRight(ps, section, key, i, m)
    ensures FoundRight(ps, section, key, i + 1, FindStep(section, key, m, ps[i], i, |ps|))
  {
    BlocksStep(section, key, ps, m, i);
    SpotStep(ps, section, i);
    CommentedStep(ps, section, key, m.commented, i);
    FirstHeaderStep(ps, i, m.firstHeader);
    hide Spot, CommentedRight, BlocksRight, FirstHeaderIs;
  }

  lemma {:induction false} FindFinds(section: string, key: string, ps: seq<Parsed>, n: nat)
    requires n <= |ps|
    ensures FoundRight(ps, section, key, n, FindUpTo(section, key, ps, n))
  {
    hide FoundRight, FindStep;
    if n == 0 {
      NothingFound(section, key, ps);
    } else {
      FindFinds(section, key, ps, n - 1);
      FoundStep(section, key, ps, FindUpTo(section, key, ps, n - 1), n - 1);
    }
  }

  lemma NothingFound(section: string, key: string, ps: seq<Parsed>)
    ensures FoundRight(ps, section, key, 0, StartMatch(section, |ps|))
  {
    assert ps[..0] == [];
  }

  // ------------------------------------------------------------------------- theorems

  ghost predicate SomeCommented(ps: seq<Parsed>, section: string, key: string)
  {
    exists i :: 0 <= i < |ps| && CommentedAt(ps, section, key, i)
  }

  /** `i` is the last line that comments the key out. */
  ghost predicate IsLastCommented(ps: seq<Parsed>, section: string, key: string, i: int)
  {
    CommentedAt(ps, section, key, i) && forall j :: i < j < |ps| ==> !CommentedAt(ps, section, key, j)
  }

  lemma LastCommented(ps: seq<Parsed>, section: string, key: string, commented: seq<nat>)
    requires CommentedRight(ps, section, key, |ps|, commented)
    ensures commented == [] <==> !SomeCommented(ps, section, key)
    ensures commented != [] ==> IsLastCommented(ps, section, key, commented[|commented| - 1])
  {
    hide CommentedAt;
    if commented != [] {
      var last := commented[|commented| - 1];
      assert last in commented;
      LastIsGreatest(commented);
      assert forall j :: last < j < |ps| && CommentedAt(ps, section, key, j) ==> j in commented;
    }
  }

  lemma LastIsGreatest(s: seq<nat>)
    requires s != [] && forall j, k :: 0 <= j < k < |s| ==> s[j] < s[k]
    ensures forall x :: x in s ==> x <= s[|s| - 1]
  {}

  function IndentAt(lines: seq<Line>, i: int): string
  {
    if 0 <= i < |lines| then LeadingSpace(lines[i].text) else ""
  }

  /** The place of a missing key and what is written there. */
  ghost predicate GoesTo(spec: Spec, lines: seq<Line>, value: string, add: Addition)
  {
    var ps, section := Parse(spec, lines), spec.section;
    var line := (indent: string) => Render(spec, indent, value);
    if SomeCommented(ps, section, spec.key) then
      // below the last line that comments the key out, with its indentation
      IsLastCommented(ps, section, spec.key, add.at - 1) && add.texts == [line(IndentAt(lines, add.at - 1))]
    else if section != "" && LastHeaderIs(ps, section, |ps|, -1) then
      // in a new section at the end, after a blank line
      && add.at == |lines|
      && add.texts == (if lines != [] && TrimSpace(lines[|lines| - 1].text) != "" then [""] else [])
                      + ["[" + section + "]", line("")]
    else exists h, k :: LastHeaderIs(ps, section, |ps|, h) && LastKeyIs(ps, section, h, |ps|, k)
                        && GoesInSection(spec, lines, ps, h, k, value, add)
  }

  /** In the last region of the section, which begins with the header `h` and has the last key
      line `k`. */
  ghost predicate GoesInSection(spec: Spec, lines: seq<Line>, ps: seq<Parsed>, h: int, k: int, value: string, add: Addition)
  {
    if k != -1 then
      // below its last key, with its indentation
      add.at == k + 1 && add.texts == [Render(spec, IndentAt(lines, k), value)]
    else if h != -1 then
      // below the header
      add.at == h + 1 && add.texts == [Render(spec, "", value)]
    else if FirstHeaderIs(ps, |ps|, |ps|) then
      // at the end of a file without sections
      add == Addition(|lines|, [Render(spec, "", value)])
    else
      // above the first header and the comments directly above it, before a blank line
      && add.texts == [Render(spec, "", value), ""]
      && exists f: nat :: f < |ps| && FirstHeaderIs(ps, |ps|, f) && IsAboveComments(ps, f, add.at)
  }

  /** From `at` up to the header `f` there are only comments, and no comment before. */
  predicate IsAboveComments(ps: seq<Parsed>, f: nat, at: nat)
    requires f < |ps|
  {
    && at <= f && (forall i :: at <= i < f ==> ps[i].Comment?)
    && (0 < at ==> !ps[at - 1].Comment?)
  }

  lemma {:induction false} AboveCommentsIs(ps: seq<Parsed>, at: nat)
    requires at < |ps|
    ensures IsAboveComments(ps, at, AboveComments(ps, at))
  {
    if 0 < at && ps[at - 1].Comment? {
      AboveCommentsIs(ps, at - 1);
    }
  }

  /** A missing key goes below the last line in its section that comments it out, or else below
      the last key of the section's last region, or its header; a section that is missing is
      added at the end, and a global key without others goes above the first section. */
  lemma PlacementIs(spec: Spec, lines: seq<Line>, value: string)
    ensures FindKey(spec, lines).firstHeader <= |lines|
    ensures GoesTo(spec, lines, value, Placement(spec, lines, Parse(spec, lines), FindKey(spec, lines), value))
  {
    hide ParseLine, Render, CommentedAt, TrimSpace, LastHeaderIs, LastKeyIs, FirstHeaderIs, CommentedRight,
      AboveComments, IsAboveComments, LeadingSpace, IsLastCommented, SomeCommented, Spot, FindUpTo;
    var ps, m := Parse(spec, lines), FindKey(spec, lines);
    FindFinds(spec.section, spec.key, ps, |ps|);
    LastCommented(ps, spec.section, spec.key, m.commented);
    HeaderPlace(ps, m.firstHeader);
    if m.blocks != [] {
      var b := m.blocks[|m.blocks| - 1];
      HeaderIsBefore(ps, spec.section, |ps|, b.header);
      LastHeaderOnce(ps, spec.section, |ps|, b.header, -1);
      LastKeyIsLineOrNone(ps, spec.section, b.header, b.lastKey);
    }
  }

  lemma HeaderPlace(ps: seq<Parsed>, h: nat)
    requires FirstHeaderIs(ps, |ps|, h)
    ensures h <= |ps| && (FirstHeaderIs(ps, |ps|, |ps|) <==> h == |ps|)
    ensures h < |ps| ==> IsAboveComments(ps, h, AboveComments(ps, h))
  {
    hide AboveComments, IsAboveComments;
    if h < |ps| {
      AboveCommentsIs(ps, h);
      assert AnyHeaderAt(ps, h);
    }
  }

  lemma LastHeaderOnce(ps: seq<Parsed>, section: string, n: nat, h: int, k: int)
    requires LastHeaderIs(ps, section, n, h)
    ensures LastHeaderIs(ps, section, n, k) ==> k == h
  {}

  lemma LastKeyIsLineOrNone(ps: seq<Parsed>, section: string, h: int, k: int)
    requires LastKeyIs(ps, section, h, |ps|, k) && -1 <= h
    ensures -1 <= k < |ps|
  {}

  /** The edit for a missing key: the lines of PlacementIs are put there and no other text
      changes. */
  lemma MissingIsAdded(spec: Spec, lines: seq<Line>, value: string) returns (add: Addition)
    requires ValuesOf(Parse(spec, lines), Global, spec.section, spec.key) == []
    ensures GoesTo(spec, lines, value, add) && add.at <= |lines|
    ensures Texts(Ensured(spec, lines, value)) == Texts(lines)[..add.at] + add.texts + Texts(lines)[add.at..]
  {
    hide GoesTo, Parse, FindKey, Placement, Inserted, Rewritten, ValuesOf, PlacesRight, ActiveRight, ValuesAt;
    MatchIsRight(spec, lines);
    PlacementIs(spec, lines, value);
    add := Placement(spec, lines, Parse(spec, lines), FindKey(spec, lines), value);
    PlacementIsInside(spec, lines, value);
    InsertedTexts(lines, add.at, add.texts);
  }

  lemma PlacementIsInside(spec: Spec, lines: seq<Line>, value: string)
    ensures FindKey(spec, lines).firstHeader <= |lines|
    ensures Placement(spec, lines, Parse(spec, lines), FindKey(spec, lines), value).at <= |lines|
  {
    hide Parse, FindKey, Render, LeadingSpace;
    PlacesAreLines(spec, lines);
  }

  /** `f` is the first line of the key. */
  ghost predicate IsFirstActive(ps: seq<Parsed>, section: string, key: string, f: int)
  {
    0 <= f && ActiveAt(ps, section, key, f) && forall j: nat :: j < f ==> !ActiveAt(ps, section, key, j)
  }

  /** The lines of the key after the first one. */
  ghost function Further(ps: seq<Parsed>, section: string, key: string, f: nat): set<nat>
  {
    set i: nat | f < i < |ps| && ActiveAt(ps, section, key, i)
  }

  /** The edit for a key that is there: its first line is rewritten with its indentation unless
      it has the value already, its further lines go, and no other text changes. */
  lemma FirstIsRewritten(spec: Spec, lines: seq<Line>, value: string) returns (f: nat)
    requires ValuesOf(Parse(spec, lines), Global, spec.section, spec.key) != []
    ensures f < |lines| && IsFirstActive(Parse(spec, lines), spec.section, spec.key, f)
    ensures var ps := Parse(spec, lines);
      var text := if ps[f].KeyLine? && ps[f].value == value then lines[f].text
                  else Render(spec, LeadingSpace(lines[f].text), value);
      Texts(Ensured(spec, lines, value))
      == Without(Texts(lines)[f := text], Further(ps, spec.section, spec.key, f), |lines|)
  {
    hide Parse, FindKey, ValuesOf, PlacesRight, ValuesAt, ActiveAt, Render, LeadingSpace, Removed, Without, IsFirstActive;
    MatchIsRight(spec, lines);
    var ps, active := Parse(spec, lines), FindKey(spec, lines).active;
    FirstIsActive(spec, lines);
    f := active[0];
    ActiveIsAll(ps, spec.section, spec.key, active);
    ParsedAt(spec, lines, f);
    var r := Rewritten(spec, lines, f, value);
    RemovedTexts(r, Rest(active));
    RewrittenTexts(spec, lines, f, value);
  }

  lemma ActiveIsAll(ps: seq<Parsed>, section: string, key: string, active: seq<nat>)
    requires ActiveRight(ps, section, key, |ps|, active) && active != []
    ensures IsFirstActive(ps, section, key, active[0])
    ensures Rest(active) == Further(ps, section, key, active[0])
  {
    hide ActiveAt;
    assert active[0] in active;
    FirstIsLeast(active);
    forall i: nat | i in Further(ps, section, key, active[0]) ensures i in Rest(active) {
      assert i in active;
    }
    forall i: nat | i in Rest(active) ensures i in Further(ps, section, key, active[0]) {
      assert i in active;
    }
    forall j: nat | j < active[0] ensures !ActiveAt(ps, section, key, j) {
      assert j !in active;
      OnlyLinesAreActive(ps, section, key, j);
    }
  }

  lemma OnlyLinesAreActive(ps: seq<Parsed>, section: string, key: string, j: nat)
    ensures ActiveAt(ps, section, key, j) ==> j < |ps|
  {}

  lemma FirstIsLeast(s: seq<nat>)
    requires s != [] && forall j, k :: 0 <= j < k < |s| ==> s[j] < s[k]
    ensures forall x :: x in s ==> s[0] <= x
    ensures forall x :: x in s && x != s[0] ==> x in Rest(s)
    ensures forall x :: x in Rest(s) ==> x in s && s[0] < x
  {}

  lemma ParsedAt(spec: Spec, lines: seq<Line>, f: nat)
    requires f < |lines|
    ensures Parse(spec, lines)[f] == ParseLine(Delim(spec), lines[f].text)
  {}

  lemma RewrittenTexts(spec: Spec, lines: seq<Line>, f: nat, value: string)
    requires f < |lines|
    ensures var p := ParseLine(Delim(spec), lines[f].text);
      Texts(Rewritten(spec, lines, f, value))
      == Texts(lines)[f := if p.KeyLine? && p.value == value then lines[f].text
                           else Render(spec, LeadingSpace(lines[f].text), value)]
  {
    hide ParseLine, Render, LeadingSpace;
  }
}
