/**
 * The `Config` class of cpp/31TETo.cpp: a character-level state machine reads
 * the configuration file, whose lines are comments (`# ...`), resampler paths
 * (`!<index> "<path>"`) and tuning file paths (`<index> "<path>"`), into two
 * maps from index to path. Opening and reading the file is not modelled: the
 * constructor takes the file's contents.
 */
module CppConfig {
  import opened CText

  /** The values of `state`: 1, 2, 3, 4 and 8 in the source. */
  datatype Mode = LineStart | Comment | Index | Path | Quoted

  /** `state`, `idx`, `exclaimed`, `fname`, and the two maps the loop fills. */
  datatype ParseState = ParseState(
    mode: Mode, idx: int, exclaimed: bool, fname: string,
    executables: map<int, string>, tunings: map<int, string>)

  const Start := ParseState(LineStart, 0, false, [], map[], map[])

  /**
   * One pass of `for (char c: s) switch (state)`. A line-start `#` opens a
   * comment, `!` or a digit an index; a space ends the index; a `"` opens and
   * closes a quoted part; the end of a line in state 4 stores the path under
   * the index (in `executables` after a `!`, in `tunings` otherwise) and
   * resets `exclaimed`, `idx` and `fname`. Every other character of state 4 or
   * of a quoted part is appended to the path; the rest are skipped.
   */
  function Step(st: ParseState, c: char): (r: ParseState)
    ensures st.executables.Keys <= r.executables.Keys && st.tunings.Keys <= r.tunings.Keys
    ensures !(st.mode == Path && c == '\n') ==> r.executables == st.executables && r.tunings == st.tunings
    ensures st.mode == Path && c == '\n' ==>
      && AtLineStart(r)
      && var stored := if st.exclaimed then r.executables else r.tunings;
         st.idx in stored && stored[st.idx] == st.fname
    ensures st.mode == Path && c == '\n' ==>
      if st.exclaimed then r.tunings == st.tunings else r.executables == st.executables
  {
    match st.mode
    case LineStart =>
      if c == '#' then st.(mode := Comment)
      else if c == '!' then st.(exclaimed := true, mode := Index)
      else if IsDigit(c) then st.(idx := c as int - '0' as int, mode := Index)
      else st
    case Comment =>
      if c == '\n' then st.(mode := LineStart) else st
    case Index =>
      if IsDigit(c) then st.(idx := st.idx * 10 + c as int - '0' as int)
      else if c == ' ' then st.(mode := Path)
      else st
    case Path =>
      if c == '"' then st.(mode := Quoted)
      else if c == '\n' then
        var executables := if st.exclaimed then st.executables[st.idx := st.fname] else st.executables;
        var tunings := if st.exclaimed then st.tunings else st.tunings[st.idx := st.fname];
        ParseState(LineStart, 0, false, [], executables, tunings)
      else st.(fname := st.fname + [c])
    case Quoted =>
      if c == '"' then st.(mode := Path) else st.(fname := st.fname + [c])
  }

  /** The loop from state st over the characters of s. */
  function ParseFrom(st: ParseState, s: string): (r: ParseState)
    ensures st.executables.Keys <= r.executables.Keys && st.tunings.Keys <= r.tunings.Keys
    decreases |s|
  {
    if s == [] then st else Step(ParseFrom(st, s[..|s| - 1]), s[|s| - 1])
  }

  /** The state the loop ends in on the whole contents. */
  function Parse(contents: string): (r: ParseState)
    ensures '\n' !in contents ==> r.executables == map[] && r.tunings == map[]
  {
    if '\n' in contents then ParseFrom(Start, contents)
    else
      CommitOnlyOnNewline(Start, contents);
      ParseFrom(Start, contents)
  }

  class Config {
    var executables: map<int, string>
    var tunings: map<int, string>

    /** The parsing loop of `Config(config_path)`, on the contents of the file. */
    constructor (contents: string)
      ensures executables == Parse(contents).executables
      ensures tunings == Parse(contents).tunings
    {
      executables := map[];
      tunings := map[];
      new;
      var state := LineStart;
      var idx := 0;
      var exclaimed := false;
      var fname: string := [];
      for i := 0 to |contents|
        invariant ParseFrom(Start, contents[..i]) == ParseState(state, idx, exclaimed, fname, executables, tunings)
      {
        assert contents[..i + 1][..i] == contents[..i];
        var c := contents[i];
        match state {
          case LineStart =>
            if c == '#' {
              state := Comment;
            }
            if c == '!' {
              exclaimed := true;
              state := Index;
            }
            if IsDigit(c) {
              idx := c as int - '0' as int;
              state := Index;
            }
          case Comment =>
            if c == '\n' {
              state := LineStart;
            }
          case Index =>
            if IsDigit(c) {
              idx := idx * 10 + c as int - '0' as int;
            }
            if c == ' ' {
              state := Path;
            }
          case Path =>
            if c == '"' {
              state := Quoted;
            } else if c == '\n' {
              if exclaimed {
                executables := executables[idx := fname];
              } else {
                tunings := tunings[idx := fname];
              }
              exclaimed := false;
              idx := 0;
              fname := [];
              state := LineStart;
            } else {
              fname := fname + [c];
            }
          case Quoted =>
            if c == '"' {
              state := Path;
            } else {
              fname := fname + [c];
            }
        }
      }
      assert contents[..|contents|] == contents;
    }
  }

  /** The loop over two consecutive strings is the loop over the second from where the first left off. */
  lemma {:induction false} ParseAppend(st: ParseState, p: string, q: string)
    ensures ParseFrom(st, p + q) == ParseFrom(ParseFrom(st, p), q)
    decreases |q|
  {
    if q == [] {
      assert p + q == p;
    } else {
      assert (p + q)[..|p + q| - 1] == p + q[..|q| - 1];
      ParseAppend(st, p, q[..|q| - 1]);
    }
  }

  /** A path is stored only when a line ends: text without a newline leaves both maps alone. */
  lemma {:induction false} CommitOnlyOnNewline(st: ParseState, s: string)
    requires '\n' !in s
    ensures ParseFrom(st, s).executables == st.executables
    ensures ParseFrom(st, s).tunings == st.tunings
    decreases |s|
  {
    if s != [] {
      assert s[|s| - 1] in s;
      assert forall x :: x in s[..|s| - 1] ==> x in s;
      CommitOnlyOnNewline(st, s[..|s| - 1]);
    }
  }

  /** At the start of a line the index, the `!` mark and the path are always reset. */
  predicate AtLineStart(st: ParseState)
  {
    st.mode == LineStart && st.idx == 0 && !st.exclaimed && st.fname == []
  }

  /** Every state the loop reaches at the start of a line is reset. */
  lemma {:induction false} LineStartIsReset(s: string)
    ensures Parse(s).mode == LineStart ==> AtLineStart(Parse(s))
    ensures Parse(s).mode == Comment ==> Parse(s).idx == 0 && !Parse(s).exclaimed && Parse(s).fname == []
    decreases |s|
  {
    if s != [] {
      var init := s[..|s| - 1];
      LineStartIsReset(init);
      assert Parse(s) == Step(ParseFrom(Start, init), s[|s| - 1]);
    }
  }

  /** The lines of a configuration file as the usage text describes them. */
  datatype Line = Entry(executable: bool, index: nat, path: string) | Remark(text: string)

  predicate WellFormed(l: Line)
  {
    match l
    case Entry(_, _, path) => '"' !in path
    case Remark(text) => '\n' !in text
  }

  /** `!<index> "<path>"` or `<index> "<path>"`, or `#<text>`, each ended by a newline. */
  function LineText(l: Line): string
  {
    match l
    case Entry(executable, index, path) =>
      (if executable then "!" else "") + NatToString(index) + " \"" + path + "\"\n"
    case Remark(text) => "#" + text + "\n"
  }

  function FileText(lines: seq<Line>): string
    decreases |lines|
  {
    if lines == [] then [] else FileText(lines[..|lines| - 1]) + LineText(lines[|lines| - 1])
  }

  /** What a line does to the maps: an entry stores its path under its index, a remark nothing. */
  function Apply(st: ParseState, l: Line): ParseState
  {
    match l
    case Entry(executable, index, path) =>
      if executable then st.(executables := st.executables[index := path])
      else st.(tunings := st.tunings[index := path])
    case Remark(_) => st
  }

  function ApplyAll(st: ParseState, lines: seq<Line>): ParseState
    decreases |lines|
  {
    if lines == [] then st else Apply(ApplyAll(st, lines[..|lines| - 1]), lines[|lines| - 1])
  }

  /** The text after `#` up to the newline is skipped. */
  lemma {:induction false} CommentText(st: ParseState, text: string)
    requires st.mode == Comment && '\n' !in text
    ensures ParseFrom(st, text) == st
    decreases |text|
  {
    if text != [] {
      assert forall x :: x in text[..|text| - 1] ==> x in text;
      assert text[|text| - 1] in text;
      CommentText(st, text[..|text| - 1]);
    }
  }

  /** Digits in state 3 accumulate into the index. */
  lemma {:induction false} IndexDigits(st: ParseState, ds: string)
    requires st.mode == Index && AllDigits(ds)
    ensures ParseFrom(st, ds) == st.(idx := Accumulate(st.idx, ds))
    decreases |ds|
  {
    if ds != [] {
      IndexDigits(st, ds[..|ds| - 1]);
    }
  }

  /** Characters inside quotes, up to the closing quote, are appended to the path. */
  lemma {:induction false} QuotedText(st: ParseState, p: string)
    requires st.mode == Quoted && '"' !in p
    ensures ParseFrom(st, p) == st.(fname := st.fname + p)
    decreases |p|
  {
    if p == [] {
      assert st.fname + p == st.fname;
    } else {
      var p0 := p[..|p| - 1];
      assert forall x :: x in p0 ==> x in p;
      assert p[|p| - 1] in p;
      QuotedText(st, p0);
      assert st.fname + p0 + [p[|p| - 1]] == st.fname + p;
    }
  }

  /** A comment line leaves the state as it was. */
  lemma RemarkLine(st: ParseState, text: string)
    requires AtLineStart(st) && '\n' !in text
    ensures ParseFrom(st, "#" + text + "\n") == st
  {
    var c := st.(mode := Comment);
    assert ParseFrom(st, "#") == c by {
      assert "#"[..0] == [];
    }
    ParseAppend(st, "#", text);
    CommentText(c, text);
    ParseAppend(st, "#" + text, "\n");
    assert ParseFrom(c, "\n") == st by {
      assert "\n"[..0] == [];
    }
  }

  /** The index part of an entry: an optional `!`, the decimal index and the space after it. */
  lemma EntryIndex(st: ParseState, executable: bool, index: nat)
    requires AtLineStart(st)
    ensures ParseFrom(st, (if executable then "!" else "") + NatToString(index) + " ")
         == st.(mode := Path, idx := index, exclaimed := executable)
  {
    var ds := NatToString(index);
    var bang: string := if executable then "!" else "";
    var ix := st.(mode := Index, idx := index, exclaimed := executable);
    if executable {
      BangIndex(st, ds);
    } else {
      assert bang + ds == ds;
      PlainIndex(st, ds);
    }
    ParseAppend(st, bang + ds, " ");
    assert ParseFrom(ix, " ") == ix.(mode := Path) by {
      assert " "[..0] == [];
    }
  }

  /** `!` and the digits of the index. */
  lemma BangIndex(st: ParseState, ds: string)
    requires AtLineStart(st) && AllDigits(ds)
    ensures ParseFrom(st, "!" + ds) == st.(mode := Index, idx := DigitsValue(ds), exclaimed := true)
  {
    assert ParseFrom(st, "!") == st.(exclaimed := true, mode := Index) by {
      assert "!"[..0] == [];
    }
    ParseAppend(st, "!", ds);
    IndexDigits(st.(exclaimed := true, mode := Index), ds);
  }

  /** The digits of the index, the first of which leaves the line start. */
  lemma PlainIndex(st: ParseState, ds: string)
    requires AtLineStart(st) && AllDigits(ds) && |ds| >= 1
    ensures ParseFrom(st, ds) == st.(mode := Index, idx := DigitsValue(ds))
  {
    assert ds == [ds[0]] + ds[1..];
    var d0 := ds[0] as int - '0' as int;
    assert ParseFrom(st, [ds[0]]) == st.(idx := d0, mode := Index) by {
      assert [ds[0]][..0] == [];
    }
    ParseAppend(st, [ds[0]], ds[1..]);
    IndexDigits(st.(idx := d0, mode := Index), ds[1..]);
    AccumulateSplit(ds);
  }

  /** The path part of an entry: the quoted path and the newline that stores it. */
  lemma EntryPath(st: ParseState, path: string)
    requires st.mode == Path && st.fname == [] && '"' !in path
    ensures ParseFrom(st, "\"" + path + "\"\n")
         == ParseState(LineStart, 0, false, [],
                       if st.exclaimed then st.executables[st.idx := path] else st.executables,
                       if st.exclaimed then st.tunings else st.tunings[st.idx := path])
  {
    var q := st.(mode := Quoted);
    assert ParseFrom(st, "\"") == q by {
      assert "\""[..0] == [];
    }
    ParseAppend(st, "\"", path);
    QuotedText(q, path);
    var done := q.(fname := path);
    assert ParseFrom(st, "\"" + path) == done;
    assert "\"" + path + "\"\n" == ("\"" + path) + "\"\n";
    ParseAppend(st, "\"" + path, "\"\n");
    assert ParseFrom(done, "\"\n") == Step(done.(mode := Path), '\n') by {
      assert "\"\n"[..1] == "\"" && "\""[..0] == [];
    }
  }

  /** A well-formed line, read from the start of a line, does to the maps what Apply says and ends at a line start. */
  lemma LineEffect(st: ParseState, l: Line)
    requires AtLineStart(st) && WellFormed(l)
    ensures ParseFrom(st, LineText(l)) == Apply(st, l)
  {
    match l
    case Remark(text) =>
      RemarkLine(st, text);
    case Entry(executable, index, path) =>
      var head := (if executable then "!" else "") + NatToString(index) + " ";
      assert LineText(l) == head + ("\"" + path + "\"\n");
      ParseAppend(st, head, "\"" + path + "\"\n");
      EntryIndex(st, executable, index);
      EntryPath(st.(mode := Path, idx := index, exclaimed := executable), path);
  }

  /**
   * A file of well-formed lines stores every entry's path under its index, later
   * lines overriding earlier ones, and ends at the start of a line.
   */
  lemma {:induction false} FileEffect(lines: seq<Line>)
    requires forall i :: 0 <= i < |lines| ==> WellFormed(lines[i])
    ensures Parse(FileText(lines)) == ApplyAll(Start, lines)
    ensures AtLineStart(Parse(FileText(lines)))
    decreases |lines|
  {
    if lines != [] {
      var init, l := lines[..|lines| - 1], lines[|lines| - 1];
      FileEffect(init);
      ParseAppend(Start, FileText(init), LineText(l));
      LineEffect(Parse(FileText(init)), l);
    }
  }
}
