/** Text handling shared by the models: byte strings, splitting, joining,
    trimming and byte order. Characters stand for bytes; white space is the
    ASCII white space that the originals trim. */
module Text {

  datatype Option<+T> = None | Some(value: T)

  // ---------------------------------------------------------------- searching

  /** The index of the first `c` in `s`, or |s| if there is none. */
  function Find(s: string, c: char): (i: nat)
    ensures i <= |s|
    ensures c !in s[..i]
    ensures i < |s| ==> s[i] == c
    ensures i == |s| <==> c !in s
  {
    if s == "" then 0
    else if s[0] == c then 0
    else
      var j := Find(s[1..], c);
      assert s[..1 + j] == [s[0]] + s[1..][..j];
      assert s == [s[0]] + s[1..];
      1 + j
  }

  lemma {:induction false} FindIs(s: string, c: char, i: nat)
    requires i <= |s| && c !in s[..i]
    requires i < |s| ==> s[i] == c
    ensures Find(s, c) == i
  {}

  lemma FindAfter(a: string, c: char, b: string)
    requires c !in a
    ensures Find(a + [c] + b, c) == |a|
  {
    var s := a + [c] + b;
    assert s[..|a|] == a;
    FindIs(s, c, |a|);
  }

  // ------------------------------------------------------ splitting and joining

  function Split(s: string, sep: char): (parts: seq<string>)
    ensures parts != []
    ensures forall p :: p in parts ==> sep !in p
    decreases |s|
  {
    var i := Find(s, sep);
    if i == |s| then [s] else [s[..i]] + Split(s[i + 1..], sep)
  }

  function Join(parts: seq<string>, sep: string): string
  {
    if parts == [] then ""
    else if |parts| == 1 then parts[0]
    else parts[0] + sep + Join(parts[1..], sep)
  }

  lemma SplitOnce(s: string, sep: char, i: nat)
    requires i == Find(s, sep)
    ensures Split(s, sep) == if i == |s| then [s] else [s[..i]] + Split(s[i + 1..], sep)
  {}

  lemma JoinCons(head: string, rest: seq<string>, sep: string)
    requires rest != []
    ensures Join([head] + rest, sep) == head + sep + Join(rest, sep)
  {
    assert ([head] + rest)[1..] == rest;
  }

  lemma JoinOne(s: string, sep: string)
    ensures Join([s], sep) == s
  {}

  lemma {:induction false} JoinSplit(s: string, sep: char)
    ensures Join(Split(s, sep), [sep]) == s
    decreases |s|
  {
    hide Join, Find, Split;
    var i := Find(s, sep);
    SplitOnce(s, sep, i);
    if i == |s| {
      JoinOne(s, [sep]);
    } else {
      var head, tail := s[..i], s[i + 1..];
      JoinSplit(tail, sep);
      JoinCons(head, Split(tail, sep), [sep]);
      assert s == head + [sep] + tail;
    }
  }

  lemma SplitAt(head: string, sep: char, rest: string)
    requires sep !in head
    ensures Split(head + [sep] + rest, sep) == [head] + Split(rest, sep)
  {
    var s := head + [sep] + rest;
    FindAfter(head, sep, rest);
    assert s[..|head|] == head;
    assert s[|head| + 1..] == rest;
  }

  lemma {:induction false} SplitJoin(parts: seq<string>, sep: char)
    requires parts != []
    requires forall p :: p in parts ==> sep !in p
    ensures Split(Join(parts, [sep]), sep) == parts
  {
    var s := Join(parts, [sep]);
    if |parts| == 1 {
      assert Find(s, sep) == |s|;
      assert parts == [s];
    } else {
      var head, rest := parts[0], Join(parts[1..], [sep]);
      SplitJoin(parts[1..], sep);
      assert s == head + [sep] + rest;
      SplitAt(head, sep, rest);
      assert parts == [head] + parts[1..];
    }
  }

  lemma {:induction false} JoinAppend(a: seq<string>, b: seq<string>, sep: string)
    requires a != [] && b != []
    ensures Join(a + b, sep) == Join(a, sep) + sep + Join(b, sep)
  {
    if |a| == 1 {
      assert (a + b)[1..] == b;
    } else {
      JoinAppend(a[1..], b, sep);
      assert (a + b)[1..] == a[1..] + b;
      assert a[0] + sep + (Join(a[1..], sep) + sep + Join(b, sep))
          == a[0] + sep + Join(a[1..], sep) + sep + Join(b, sep);
    }
  }

  // ------------------------------------------------------------------ trimming

  predicate IsSpace(c: char) { c == ' ' || ('\t' <= c <= '\r') }

  predicate IsBlank(c: char) { c == ' ' || c == '\t' }

  predicate AllSpace(s: string) { forall c :: c in s ==> IsSpace(c) }

  predicate AllBlank(s: string) { forall c :: c in s ==> IsBlank(c) }

  /** How many characters at the start of `s`, from `i`, are dropped. */
  function Lead(s: string, drop: char -> bool, i: nat): (r: nat)
    requires i <= |s|
    ensures i <= r <= |s|
    ensures forall k :: i <= k < r ==> drop(s[k])
    ensures r < |s| ==> !drop(s[r])
    decreases |s| - i
  {
    if i < |s| && drop(s[i]) then Lead(s, drop, i + 1) else i
  }

  /** Where `s` ends once its last characters, down to `lo`, are dropped. */
  function Keep(s: string, drop: char -> bool, lo: nat, i: nat): (r: nat)
    requires lo <= i <= |s|
    ensures lo <= r <= i
    ensures forall k :: r <= k < i ==> drop(s[k])
    ensures lo < r ==> !drop(s[r - 1])
    decreases i
  {
    if lo < i && drop(s[i - 1]) then Keep(s, drop, lo, i - 1) else i
  }

  function TrimLeft(s: string, drop: char -> bool): string { s[Lead(s, drop, 0)..] }

  function TrimRight(s: string, drop: char -> bool): string { s[..Keep(s, drop, 0, |s|)] }

  function TrimSpace(s: string): string
  {
    var a := Lead(s, IsSpace, 0);
    s[a..Keep(s, IsSpace, a, |s|)]
  }

  /** The position of the first space or tab, or |s|. */
  function FirstBlank(s: string): (i: nat)
    ensures i <= |s| && (i < |s| ==> IsBlank(s[i])) && forall k :: 0 <= k < i ==> !IsBlank(s[k])
  {
    if s == "" || IsBlank(s[0]) then 0 else 1 + FirstBlank(s[1..])
  }

  lemma {:induction false} FirstBlankIs(s: string, k: nat)
    requires k <= |s| && (k < |s| ==> IsBlank(s[k])) && forall j :: 0 <= j < k ==> !IsBlank(s[j])
    ensures FirstBlank(s) == k
  {
    if 0 < k {
      FirstBlankIs(s[1..], k - 1);
    }
  }

  /** Neither starts nor ends with white space. */
  predicate Trimmed(s: string)
  {
    s != "" ==> !IsSpace(s[0]) && !IsSpace(s[|s| - 1])
  }

  lemma TrimLeftIs(s: string, drop: char -> bool, k: nat)
    requires k <= |s|
    requires forall i :: 0 <= i < k ==> drop(s[i])
    requires k < |s| ==> !drop(s[k])
    ensures Lead(s, drop, 0) == k && TrimLeft(s, drop) == s[k..]
  {}

  lemma TrimRightIs(s: string, drop: char -> bool, k: nat)
    requires k <= |s|
    requires forall i :: k <= i < |s| ==> drop(s[i])
    requires 0 < k ==> !drop(s[k - 1])
    ensures TrimRight(s, drop) == s[..k]
  {}

  /** Trimming keeps the part between the white space. */
  lemma TrimSpaceIs(s: string, a: nat, b: nat)
    requires a <= b <= |s|
    requires AllSpace(s[..a]) && AllSpace(s[b..]) && Trimmed(s[a..b])
    ensures TrimSpace(s) == s[a..b]
  {}

  /** Every string is a trimmed core between white space. */
  lemma TrimSpaceParts(s: string) returns (a: nat, b: nat)
    ensures a <= b <= |s| && TrimSpace(s) == s[a..b]
    ensures AllSpace(s[..a]) && AllSpace(s[b..]) && Trimmed(s[a..b])
  {
    a := Lead(s, IsSpace, 0);
    b := Keep(s, IsSpace, a, |s|);
  }

  lemma TrimSpaceOfTrimmed(s: string)
    requires Trimmed(s)
    ensures TrimSpace(s) == s
  {}

  /** White space added around a string does not change what it trims to. */
  lemma TrimSpaceAround(lead: string, s: string, trail: string)
    requires AllSpace(lead) && AllSpace(trail)
    ensures TrimSpace(lead + s + trail) == TrimSpace(s)
  {
    var t := lead + s + trail;
    var a, b := TrimSpaceParts(s);
    var c, d := |lead| + a, |lead| + b;
    assert t[c..d] == s[a..b];
    forall x | x in t[..c] ensures IsSpace(x) { assert x in lead || x in s[..a]; }
    forall x | x in t[d..] ensures IsSpace(x) { assert x in s[b..] || x in trail; }
    TrimSpaceIs(t, c, d);
  }

  // ---------------------------------------------------------------- byte order

  /** Strings in ascending byte order, as sort.Strings compares them. */
  predicate Less(a: string, b: string)
  {
    b != "" && (a == "" || a[0] < b[0] || (a[0] == b[0] && Less(a[1..], b[1..])))
  }

  lemma {:induction false} LessIsTotal(a: string, b: string)
    ensures Less(a, b) || Less(b, a) || a == b
  {
    if a != "" && b != "" && a[0] == b[0] {
      LessIsTotal(a[1..], b[1..]);
      assert a == [a[0]] + a[1..] && b == [b[0]] + b[1..];
    }
  }

  lemma {:induction false} LessIsAsymmetric(a: string, b: string)
    requires Less(a, b)
    ensures !Less(b, a) && a != b
  {
    if a != "" && a[0] == b[0] {
      LessIsAsymmetric(a[1..], b[1..]);
    }
  }

  lemma {:induction false} LessIsTransitive(a: string, b: string, c: string)
    requires Less(a, b) && Less(b, c)
    ensures Less(a, c)
  {
    if a != "" && a[0] == b[0] && b[0] == c[0] {
      LessIsTransitive(a[1..], b[1..], c[1..]);
    }
  }

  /** A proper prefix sorts before everything that extends it. */
  lemma {:induction false} PrefixIsLess(a: string, b: string)
    requires a < b
    ensures Less(a, b)
  {
    if a != "" {
      PrefixIsLess(a[1..], b[1..]);
    }
  }

  /** `xs` in strictly ascending order of the strings that show its elements. */
  ghost predicate SortedBy<T>(xs: seq<T>, show: T -> string)
  {
    forall i, j :: 0 <= i < j < |xs| ==> Less(show(xs[i]), show(xs[j]))
  }

  method InsertSorted<T>(xs: seq<T>, x: T, show: T -> string) returns (r: seq<T>)
    requires SortedBy(xs, show)
    requires forall y :: y in xs ==> show(y) != show(x)
    ensures SortedBy(r, show)
    ensures forall y :: y in r <==> y in xs || y == x
  {
    hide Less;
    var i := 0;
    while i < |xs| && Less(show(xs[i]), show(x))
      invariant i <= |xs|
      invariant forall k :: 0 <= k < i ==> Less(show(xs[k]), show(x))
    {
      i := i + 1;
    }
    r := xs[..i] + [x] + xs[i..];
    forall k | i <= k < |xs| ensures Less(show(x), show(xs[k])) {
      LessIsTotal(show(x), show(xs[i]));
      if i < k {
        LessIsTransitive(show(x), show(xs[i]), show(xs[k]));
      }
    }
    assert xs == xs[..i] + xs[i..];
  }

  /** sort.Strings over a set whose elements are shown differently. */
  method SortSet<T(==)>(s: set<T>, show: T -> string) returns (r: seq<T>)
    requires forall x, y :: x in s && y in s && show(x) == show(y) ==> x == y
    ensures SortedBy(r, show)
    ensures forall x :: x in r <==> x in s
  {
    r := [];
    var rest := s;
    while rest != {}
      invariant rest <= s
      invariant SortedBy(r, show)
      invariant forall x :: x in r <==> x in s && x !in rest
      decreases rest
    {
      var x :| x in rest;
      r := InsertSorted(r, x, show);
      rest := rest - {x};
    }
  }
}
