/** A text file as lines without their terminators (file_line_edit.go), as the line, block
    and hosts editors use it. */
module TextLines {
  import opened Text

  datatype Content = Content(lines: seq<string>, trailingNewline: bool)

  function ReadText(data: string): Content
  {
    if data == "" then Content([], false)
    else
      var lines := Split(data, '\n');
      if lines[|lines| - 1] == "" then Content(lines[..|lines| - 1], true) else Content(lines, false)
  }

  function WriteText(t: Content): string
  {
    if t.lines == [] then "" else Join(t.lines, "\n") + (if t.trailingNewline then "\n" else "")
  }

  lemma JoinWithEmpty(lines: seq<string>)
    requires lines != []
    ensures Join(lines + [""], "\n") == Join(lines, "\n") + "\n"
  {
    JoinAppend(lines, [""], "\n");
    assert Join([""], "\n") == "";
    assert Join(lines, "\n") + "\n" + "" == Join(lines, "\n") + "\n";
  }

  lemma OnlyEmptySplitsToEmpty(data: string)
    requires data != ""
    ensures Split(data, '\n') != [""]
  {}

  /** Writing what was read gives the same bytes. */
  lemma WriteOfRead(data: string)
    ensures WriteText(ReadText(data)) == data
  {
    hide Split, Join;
    if data != "" {
      var lines := Split(data, '\n');
      JoinSplit(data, '\n');
      OnlyEmptySplitsToEmpty(data);
      var n := |lines| - 1;
      if lines[n] == "" {
        assert lines == lines[..n] + [""];
        JoinWithEmpty(lines[..n]);
      } else {
        assert Join(lines, "\n") + "" == Join(lines, "\n");
      }
    }
  }

  predicate NoLineFeeds(lines: seq<string>) { forall l :: l in lines ==> '\n' !in l }

  /** A file can tell where the lines end: an unterminated last line is not empty. */
  predicate Ended(t: Content)
  {
    if t.lines == [] then !t.trailingNewline else t.trailingNewline || t.lines[|t.lines| - 1] != ""
  }

  predicate Writable(t: Content) { NoLineFeeds(t.lines) && Ended(t) }

  /** What a file of these lines holds: an empty unterminated last line is not a line, but
      terminates the one before it. */
  function Reread(t: Content): Content
  {
    if Ended(t) then t
    else if |t.lines| <= 1 then Content([], false)
    else Content(t.lines[..|t.lines| - 1], true)
  }

  lemma ReadOfWritable(t: Content)
    requires Writable(t)
    ensures ReadText(WriteText(t)) == t
  {
    hide Split, Join;
    if t.lines != [] {
      var lines := t.lines;
      if t.trailingNewline {
        JoinWithEmpty(lines);
        SplitJoin(lines + [""], '\n');
        assert (lines + [""])[..|lines|] == lines;
        NotEmptyJoin(lines + [""]);
      } else {
        SplitJoin(lines, '\n');
        assert Join(lines, "\n") + "" == Join(lines, "\n");
        NotEmptyJoin(lines);
      }
    }
  }

  /** Reading what was written gives the lines back, without an empty unterminated line at
      the end: the same lines if and only if there is none. */
  lemma ReadOfWrite(t: Content)
    requires NoLineFeeds(t.lines)
    ensures ReadText(WriteText(t)) == Reread(t)
    ensures Reread(t) == t <==> Ended(t)
  {
    hide Split, Join, ReadText;
    ReadOfWritable(Reread(t));
    if !Ended(t) {
      var n := |t.lines| - 1;
      if 0 < n {
        assert t.lines == t.lines[..n] + [""];
        JoinWithEmpty(t.lines[..n]);
        assert Join(t.lines, "\n") + "" == Join(t.lines, "\n");
      } else {
        EmptyJoins(t.lines);
      }
    }
  }

  /** The last line is empty and unterminated, so that a file cannot hold it. */
  predicate EndsBlank(t: Content)
  {
    t.lines != [] && !t.trailingNewline && t.lines[|t.lines| - 1] == ""
  }

  /** Of the lines that are written, exactly a last one that is empty and unterminated is
      lost. */
  lemma LinesOfWrite(t: Content)
    requires NoLineFeeds(t.lines)
    ensures ReadText(WriteText(t)).lines == if EndsBlank(t) then t.lines[..|t.lines| - 1] else t.lines
    ensures ReadText(WriteText(t)).lines == t.lines <==> !EndsBlank(t)
  {
    hide ReadText, WriteText;
    ReadOfWrite(t);
  }

  lemma EmptyJoins(lines: seq<string>)
    requires lines == [] || lines == [""]
    ensures Join(lines, "\n") == "" && "" + "" == ""
  {}

  lemma NotEmptyJoin(lines: seq<string>)
    requires lines != [] && (1 < |lines| || lines[0] != "")
    ensures Join(lines, "\n") != ""
  {}

  lemma ReadIsWritable(data: string)
    ensures Writable(ReadText(data))
  {}

  function Spliced(lines: seq<string>, start: nat, end: nat, repl: seq<string>): seq<string>
    requires start <= end <= |lines|
  {
    lines[..start] + repl + lines[end..]
  }

  /** Content at the end of the file always gets a newline. */
  function WithInsertion(t: Content, idx: nat, repl: seq<string>): Content
  {
    if |t.lines| <= idx then Content(t.lines + repl, true)
    else Content(Spliced(t.lines, idx, idx, repl), t.trailingNewline)
  }

  class TextFile {
    var lines: seq<string>
    var trailingNewline: bool

    ghost function Value(): Content
      reads this
    {
      Content(lines, trailingNewline)
    }

    /** parseTextFile. */
    constructor (data: string)
      ensures Value() == ReadText(data)
    {
      lines := [];
      trailingNewline := false;
      new;
      if data == "" {
        return;
      }
      lines := Split(data, '\n');
      if lines[|lines| - 1] == "" {
        lines := lines[..|lines| - 1];
        trailingNewline := true;
      }
    }

    /** bytes. */
    method Data() returns (data: string)
      ensures data == WriteText(Value())
    {
      if lines == [] {
        return "";
      }
      data := Join(lines, "\n");
      if trailingNewline {
        data := data + "\n";
      }
    }

    method Replace(start: nat, end: nat, repl: seq<string>)
      requires start <= end <= |lines|
      modifies this`lines
      ensures lines == Spliced(old(lines), start, end, repl)
    {
      var out := lines[..start];
      out := out + repl;
      out := out + lines[end..];
      lines := out;
    }

    method Insert(at: nat, repl: seq<string>)
      modifies this
      ensures Value() == WithInsertion(old(Value()), at, repl)
    {
      var idx := at;
      if |lines| <= idx {
        idx := |lines|;
        trailingNewline := true;
      }
      Replace(idx, idx, repl);
    }
  }
}
