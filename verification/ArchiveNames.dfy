/** Names of archive entries (archive.go, normalizeArchiveName; and
    archive_extract.go, validManifestName and the files attribute).

    A name is kept as its sequence of path components. Render gives the
    slash-separated string that the provider stores and sorts by. */
module ArchiveNames {
  import opened Text

  type Name = seq<string>

  const MAX_ARCHIVE_NAME_LEN: nat := 4096

  predicate Component(c: string)
  {
    c != "" && c != "." && c != ".." && '/' !in c && '\0' !in c
  }

  /** Relative, non-empty, and without empty, "." or ".." components. */
  predicate Canonical(n: Name)
  {
    n != [] && forall c :: c in n ==> Component(c)
  }

  function Render(n: Name): string { Join(n, "/") }

  function Parent(n: Name): Name
    requires n != []
  {
    n[..|n| - 1]
  }

  /** `p` is a proper ancestor of `n`, other than the root itself. */
  predicate Below(p: Name, n: Name) { p != [] && p < n }

  // ------------------------------------------------------------- normalization

  datatype Normalized = Refused | Dropped | Kept(name: Name)

  /** Names that are refused whatever they would resolve to. */
  predicate Unsafe(raw: string)
  {
    raw == "" || '\0' in raw || raw[0] == '/' || ".." in Split(raw, '/')
  }

  /** The components that count: empty ones and "." mean nothing. */
  function Significant(parts: seq<string>): (cs: Name)
  {
    if parts == [] then []
    else if parts[0] == "" || parts[0] == "." then Significant(parts[1..])
    else [parts[0]] + Significant(parts[1..])
  }

  function NormalForm(raw: string, strip: nat): Normalized
  {
    var cs := Significant(Split(raw, '/'));
    if Unsafe(raw) then Refused
    else if |cs| <= strip then Dropped
    else Kept(cs[strip..])
  }

  lemma SignificantStep(parts: seq<string>)
    ensures Significant(parts)
         == if parts == [] then []
            else (if parts[0] == "" || parts[0] == "." then [] else [parts[0]]) + Significant(parts[1..])
  {}

  lemma {:induction false} SignificantAppend(a: seq<string>, b: seq<string>)
    ensures Significant(a + b) == Significant(a) + Significant(b)
  {
    hide Significant;
    SignificantStep(a);
    if a == [] {
      assert a + b == b;
    } else {
      SignificantStep(a + b);
      SignificantAppend(a[1..], b);
      assert (a + b)[1..] == a[1..] + b;
    }
  }

  method Normalize(raw: string, strip: nat) returns (r: Normalized)
    ensures r == NormalForm(raw, strip)
  {
    if raw == "" || '\0' in raw || raw[0] == '/' {
      return Refused;
    }
    var split := Split(raw, '/');
    var parts: Name := [];
    for i := 0 to |split|
      invariant parts == Significant(split[..i])
      invariant ".." !in split[..i]
    {
      var c := split[i];
      assert split[..i + 1] == split[..i] + [c];
      SignificantAppend(split[..i], [c]);
      if c == "" || c == "." {
      } else if c == ".." {
        return Refused;
      } else {
        parts := parts + [c];
      }
    }
    assert split[..|split|] == split;
    if |parts| <= strip {
      return Dropped;
    }
    return Kept(parts[strip..]);
  }

  lemma {:induction false} SignificantComponents(parts: seq<string>)
    requires forall p :: p in parts ==> '/' !in p && '\0' !in p && p != ".."
    ensures forall c :: c in Significant(parts) ==> Component(c)
  {
    if parts != [] {
      assert parts[0] in parts;
      SignificantComponents(parts[1..]);
    }
  }

  lemma {:induction false} SplitKeepsChars(s: string, sep: char, c: char)
    requires c !in s
    ensures forall p :: p in Split(s, sep) ==> c !in p
    decreases |s|
  {
    var i := Find(s, sep);
    if i < |s| {
      SplitKeepsChars(s[i + 1..], sep, c);
    }
  }

  /** Whatever survives normalization is canonical. */
  lemma KeptIsCanonical(raw: string, strip: nat)
    requires NormalForm(raw, strip).Kept?
    ensures Canonical(NormalForm(raw, strip).name)
  {
    SplitKeepsChars(raw, '/', '\0');
    SignificantComponents(Split(raw, '/'));
  }

  lemma {:induction false} SignificantOfComponents(n: Name)
    requires forall c :: c in n ==> Component(c)
    ensures Significant(n) == n
  {
    if n != [] {
      assert Component(n[0]) by { assert n[0] in n; }
      SignificantOfComponents(n[1..]);
      assert n == [n[0]] + n[1..];
    }
  }

  lemma {:induction false} RenderChars(n: Name)
    requires Canonical(n)
    ensures Render(n) != "" && Render(n)[0] != '/' && '\0' !in Render(n)
    ensures Render(n)[|Render(n)| - 1] != '/'
  {
    assert n[0] in n;
    assert Component(n[0]);
    if |n| > 1 {
      RenderChars(n[1..]);
      assert Render(n) == n[0] + "/" + Render(n[1..]);
    }
  }

  /** A canonical name is what its own string normalizes to. */
  lemma NormalizeRender(n: Name)
    requires Canonical(n)
    ensures NormalForm(Render(n), 0) == Kept(n)
  {
    RenderChars(n);
    assert forall p :: p in n ==> Component(p);
    SplitJoin(n, '/');
    SignificantOfComponents(n);
  }

  // ------------------------------------------- normalization, by the parts between slashes

  lemma {:induction false} JoinHas(parts: seq<string>, sep: string, c: char)
    requires c !in sep
    ensures c in Join(parts, sep) <==> exists x :: x in parts && c in x
  {
    if 1 < |parts| {
      var rest := parts[1..];
      JoinHas(rest, sep, c);
      assert parts == [parts[0]] + rest;
      assert Join(parts, sep) == parts[0] + sep + Join(rest, sep);
    }
  }

  lemma JoinStarts(parts: seq<string>)
    requires parts != [] && forall x :: x in parts ==> '/' !in x
    ensures Join(parts, "/") == "" || Join(parts, "/")[0] == '/' <==> parts[0] == ""
  {
    if 1 < |parts| {
      assert Join(parts, "/") == parts[0] + "/" + Join(parts[1..], "/");
    }
    assert parts[0] in parts;
  }

  /** A name is refused exactly if it is empty or absolute, or has a part ".." or a NUL. */
  lemma RefusedIs(parts: seq<string>, strip: nat)
    requires parts != [] && forall x :: x in parts ==> '/' !in x
    ensures NormalForm(Join(parts, "/"), strip).Refused? <==>
      parts[0] == "" || ".." in parts || exists x :: x in parts && '\0' in x
  {
    JoinHas(parts, "/", '\0');
    JoinStarts(parts);
    SplitJoin(parts, '/');
  }

  lemma SignificantWithout(a: seq<string>, c: string, b: seq<string>)
    requires c == "" || c == "."
    ensures Significant(a + [c] + b) == Significant(a + b)
  {
    hide Significant;
    SignificantAppend(a + [c], b);
    SignificantAppend(a, [c]);
    SignificantAppend(a, b);
    SignificantStep([c]);
    SignificantStep([]);
    assert [c][1..] == [];
  }

  lemma RedundantIsRefused(a: seq<string>, c: string, b: seq<string>, strip: nat)
    requires c == "" || c == "."
    requires a + b != [] && (a + b)[0] != "" && (a == [] ==> c == ".")
    requires forall x :: x in a + b ==> '/' !in x
    ensures NormalForm(Join(a + [c] + b, "/"), strip).Refused? <==> NormalForm(Join(a + b, "/"), strip).Refused?
  {
    hide NormalForm, Join;
    var with, without := a + [c] + b, a + b;
    assert forall x :: x in with <==> x in without || x == c;
    assert with[0] == if a == [] then c else without[0];
    RefusedIs(with, strip);
    RefusedIs(without, strip);
  }

  /** An empty part and a part "." mean nothing, wherever they stand in a name that is not
      absolute. */
  lemma RedundantPart(a: seq<string>, c: string, b: seq<string>, strip: nat)
    requires c == "" || c == "."
    requires a + b != [] && (a + b)[0] != "" && (a == [] ==> c == ".")
    requires forall x :: x in a + b ==> '/' !in x
    ensures NormalForm(Join(a + [c] + b, "/"), strip) == NormalForm(Join(a + b, "/"), strip)
  {
    hide Split, Join, Significant, Unsafe;
    assert forall x :: x in a + [c] + b ==> x in a + b || x == c;
    RedundantIsRefused(a, c, b, strip);
    SignificantWithout(a, c, b);
    SplitJoin(a + [c] + b, '/');
    SplitJoin(a + b, '/');
  }

  /** Stripping takes away the first components. */
  lemma StripTakesFirst(p: Name, n: Name)
    requires p + n != [] && forall c :: c in p + n ==> Component(c)
    ensures NormalForm(Render(p + n), |p|) == if n == [] then Dropped else Kept(n)
  {
    NormalizeRender(p + n);
  }

  /** So it does for every name that is not refused: what is kept is what would be kept
      without stripping, less that many components at the start. */
  lemma StrippedIs(raw: string, strip: nat, n: Name)
    ensures NormalForm(raw, strip) == Kept(n) <==>
      n != [] && exists p: Name :: |p| == strip && NormalForm(raw, 0) == Kept(p + n)
    ensures NormalForm(raw, strip).Refused? <==> NormalForm(raw, 0).Refused?
  {
    hide Unsafe, Significant;
    var cs := Significant(Split(raw, '/'));
    assert cs[0..] == cs;
    if NormalForm(raw, strip) == Kept(n) {
      assert cs == cs[..strip] + n;
      assert |cs[..strip]| == strip && NormalForm(raw, 0) == Kept(cs[..strip] + n);
    }
  }

  lemma RenderIsInjective(a: Name, b: Name)
    requires Canonical(a) && Canonical(b) && Render(a) == Render(b)
    ensures a == b
  {
    NormalizeRender(a);
    NormalizeRender(b);
  }

  // --------------------------------------------------------- the files attribute

  /** One element of the files attribute: a name, shown with a trailing slash
      if it was extracted as a directory. */
  datatype Listed = Listed(name: Name, isDir: bool)

  function Shown(l: Listed): string
  {
    Render(l.name) + if l.isDir then "/" else ""
  }

  /** What removeExtracted and manifestNamesFrom make of a stored string: the
      trailing slash is cut off and the rest must be a valid name. */
  function ReadListed(s: string): Option<Listed>
  {
    var isDir := s != "" && s[|s| - 1] == '/';
    var name := if isDir then s[..|s| - 1] else s;
    match NormalForm(name, 0)
    case Kept(n) => if Render(n) == name then Some(Listed(n, isDir)) else None
    case _ => None
  }

  /** A stored manifest name reads back as the same name and kind. */
  lemma ListedReadsBack(l: Listed)
    requires Canonical(l.name)
    ensures ReadListed(Shown(l)) == Some(l)
  {
    var r, s := Render(l.name), Shown(l);
    RenderChars(l.name);
    NormalizeRender(l.name);
    if l.isDir {
      assert s == r + "/";
      assert s[..|s| - 1] == r;
    } else {
      assert s == r;
    }
  }

  /** Nothing but the string of a canonical name is ever read. */
  lemma ReadListedIsShown(s: string)
    requires ReadListed(s).Some?
    ensures Canonical(ReadListed(s).value.name)
    ensures Shown(ReadListed(s).value) == s
  {
    var isDir := s != "" && s[|s| - 1] == '/';
    var name := if isDir then s[..|s| - 1] else s;
    KeptIsCanonical(name, 0);
    assert name[0..] == name;
    if isDir {
      assert s == name + "/";
    } else {
      assert s == name + "";
    }
  }

  lemma {:induction false} PrefixRenders(p: Name, q: Name)
    requires Below(p, q) && Canonical(q)
    ensures Render(p) + "/" < Render(q)
  {
    var rest := q[|p|..];
    assert q == p + rest;
    JoinAppend(p, rest, "/");
    assert forall c :: c in rest ==> c in q;
    RenderChars(rest);
  }

  /** In byte order a directory comes before everything below it, with and
      without the trailing slash. */
  lemma DirectoryBeforeContents(p: Name, q: Name, pDir: bool, qDir: bool)
    requires Below(p, q) && Canonical(q)
    ensures Less(Render(p), Render(q))
    ensures Less(Shown(Listed(p, pDir)), Shown(Listed(q, qDir)))
  {
    PrefixRenders(p, q);
    assert Render(p) < Render(q);
    PrefixIsLess(Render(p), Render(q));
    assert Shown(Listed(p, pDir)) < Shown(Listed(q, qDir));
    PrefixIsLess(Shown(Listed(p, pDir)), Shown(Listed(q, qDir)));
  }
}
