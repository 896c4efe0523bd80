/** The provider's other reader of INI files (functions_parse.go), and how it agrees with
    the editor. */
module IniSections {
  import opened Text
  import opened IniLines
  import opened IniSyntax
  import opened IniEdit
  import opened IniTheorems

  type Sections = map<string, map<string, string>>

  /** The section a line is filed under. */
  function Name(cur: Cur): string { if cur == Global then "" else cur.name }

  function WithSection(m: Sections, s: string): Sections { if s in m then m else m[s := map[]] }

  function Filed(m: Sections, cur: Cur, p: Parsed): Sections
  {
    if p.Section? then WithSection(m, p.name)
    else if p.KeyLine? then
      var s := Name(cur);
      var n := WithSection(m, s);
      n[s := n[s][p.key := p.value]]
    else m
  }

  function SectionsOf(ps: seq<Parsed>): Sections
  {
    if ps == [] then map[]
    else
      var init := ps[..|ps| - 1];
      Filed(SectionsOf(init), CurOf(init, Global), ps[|ps| - 1])
  }

  const DEFAULT_DELIM := "="

  /** parseIniSections, on the lines of the file. */
  method ParseSections(f: IniFile) returns (out: Sections)
    ensures out == SectionsOf(ParseAll(DEFAULT_DELIM, Texts(f.lines)))
  {
    hide ParseLine;
    ghost var ps := ParseAll(DEFAULT_DELIM, Texts(f.lines));
    out := map[];
    var section := "";
    assert ps[..0] == [];
    for i := 0 to |f.lines|
      invariant out == SectionsOf(ps[..i]) && section == Name(CurOf(ps[..i], Global))
    {
      var p := ParseLine(DEFAULT_DELIM, f.lines[i].text);
      assert p == ps[i] && ps[..i + 1][..i] == ps[..i];
      if p.Section? {
        section := p.name;
        if section !in out {
          out := out[section := map[]];
        }
      } else if p.KeyLine? {
        if section !in out {
          out := out[section := map[]];
        }
        out := out[section := out[section][p.key := p.value]];
      }
    }
    assert ps[..|ps|] == ps;
  }

  function Lookup(m: Sections, s: string, k: string): Option<string>
  {
    if s in m && k in m[s] then Some(m[s][k]) else None
  }

  function Last(values: seq<string>): Option<string>
  {
    if values == [] then None else Some(values[|values| - 1])
  }

  /** The values filed under a name, in file order. */
  function FiledValues(ps: seq<Parsed>, s: string, k: string): seq<string>
  {
    if ps == [] then []
    else
      var init, p := ps[..|ps| - 1], ps[|ps| - 1];
      FiledValues(init, s, k)
      + (if p.KeyLine? && Name(CurOf(init, Global)) == s && p.key == k then [p.value] else [])
  }

  /** Of a key set more than once the last value wins. */
  lemma {:induction false} LookupIsLastFiled(ps: seq<Parsed>, s: string, k: string)
    ensures Lookup(SectionsOf(ps), s, k) == Last(FiledValues(ps, s, k))
  {
    hide CurOf;
    if ps != [] {
      LookupIsLastFiled(ps[..|ps| - 1], s, k);
    }
  }

  /** The values set under a header "[]", in file order. */
  function Unnamed(ps: seq<Parsed>, k: string): seq<string>
  {
    if ps == [] then []
    else
      var init, p := ps[..|ps| - 1], ps[|ps| - 1];
      Unnamed(init, k) + (if p.KeyLine? && CurOf(init, Global) == Under("") && p.key == k then [p.value] else [])
  }

  lemma {:induction false} NoneUnnamedYet(ps: seq<Parsed>, k: string)
    requires CurOf(ps, Global) == Global
    ensures Unnamed(ps, k) == []
  {
    if ps != [] {
      NoneUnnamedYet(ps[..|ps| - 1], k);
    }
  }

  /** What is filed under a name are the section's values, and for the name "" also what
      stands under a header "[]", which comes after every global line. */
  lemma {:induction false} FiledAreValues(ps: seq<Parsed>, s: string, k: string)
    ensures FiledValues(ps, s, k) == ValuesOf(ps, Global, s, k) + (if s == "" then Unnamed(ps, k) else [])
  {
    if ps != [] {
      var init := ps[..|ps| - 1];
      FiledAreValues(init, s, k);
      if CurOf(init, Global) == Global {
        NoneUnnamedYet(init, k);
      }
    }
  }

  function SectionsIn(data: string): Sections
  {
    SectionsOf(ParseAll(DEFAULT_DELIM, Texts(ReadFile(data).lines)))
  }

  function EditorValues(data: string, s: string, k: string): seq<string>
  {
    ValuesOf(ParseAll(DEFAULT_DELIM, Texts(ReadFile(data).lines)), Global, s, k)
  }

  function UnnamedIn(data: string, k: string): seq<string>
  {
    Unnamed(ParseAll(DEFAULT_DELIM, Texts(ReadFile(data).lines)), k)
  }

  /** In every file, the map has the last of the editor's values for every key of every
      section with a name; for a global key, if and only if the key is not set under a
      header "[]", or is set there to the same value last. */
  lemma ReadersAgree(data: string, s: string, k: string)
    ensures Lookup(SectionsIn(data), s, k) == Last(EditorValues(data, s, k)) <==>
      s != "" || UnnamedIn(data, k) == [] || Last(UnnamedIn(data, k)) == Last(EditorValues(data, s, k))
  {
    hide ParseLine, Unnamed, ValuesOf;
    var ps := ParseAll(DEFAULT_DELIM, Texts(ReadFile(data).lines));
    LookupIsLastFiled(ps, s, k);
    FiledAreValues(ps, s, k);
  }

  const UNNAMED := "[]\na=1\n"

  lemma UnnamedLines()
    ensures ReadFile(UNNAMED) == Contents("", [Line("[]", "\n"), Line("a=1", "\n")])
  {
    hide Lines, ReadLine;
    assert UNNAMED[0] != BOM[0];
    LinesOfTerminated("[]", "a=1\n");
    LinesOfTerminated("a=1", "");
    assert "[]" + "\n" + "a=1\n" == UNNAMED && "a=1" + "\n" + "" == "a=1\n";
    UnnamedEnds();
  }

  lemma UnnamedEnds()
    ensures ReadLine("[]") == Line("[]", "\n") && ReadLine("a=1") == Line("a=1", "\n") && Lines("") == []
  {}

  lemma UnnamedParses()
    ensures ParseLine(DEFAULT_DELIM, "[]") == Section("") && ParseLine(DEFAULT_DELIM, "a=1") == KeyLine("a", "1")
  {
    hide ParseLine, TrimSpace, IndexOf, ReadsBack;
    var spec := Spec("", "a", "=");
    TrimSpaceOfTrimmed("=");
    TrimSpaceOfTrimmed("");
    TrimSpaceOfTrimmed("1");
    TrimSpaceOfTrimmed("a");
    OneByteReadsBack(spec, "1");
    RenderReadsBack(spec, "", "1");
    assert Render(spec, "", "1") == "a=1";
    HeaderReads(DEFAULT_DELIM, "");
    assert "[" + "" + "]" == "[]";
  }

  /** A key under a header "[]" is filed with the global keys, which the editor does not
      count it among. */
  lemma ReadersDisagree()
    ensures Lookup(SectionsIn(UNNAMED), "", "a") == Some("1") && EditorValues(UNNAMED, "", "a") == []
  {
    hide ReadFile, ParseLine;
    UnnamedLines();
    UnnamedParses();
    var ps := ParseAll(DEFAULT_DELIM, Texts(ReadFile(UNNAMED).lines));
    assert ps == [Section(""), KeyLine("a", "1")];
    LookupIsLastFiled(ps, "", "a");
    var init := ps[..|ps| - 1];
    assert init == [Section("")] && init[..|init| - 1] == [];
    assert FiledValues([], "", "a") == [] && FiledValues(init, "", "a") == [];
    assert ValuesOf([], Global, "", "a") == [] && ValuesOf(init, Global, "", "a") == [];
    assert CurOf(init, Global) == Under("");
  }
}
