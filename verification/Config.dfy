/** Printing and parsing configuration files: lnst/Common/Config.py. */
module Config {
  import opened Sequences
  import opened SplitJoin
  import opened Lines

  const CR: char := '\r'

  /** The value of an option: a text or a list of texts. */
  datatype Value = Text(text: string) | List(texts: seq<string>)
  datatype Setting = Setting(name: string, value: Value)

  /** The sections in order, each with its options in order. */
  type Options = seq<(string, seq<Setting>)>

  /** A parsed option line. */
  datatype Parsed = Parsed(name: string, operator: string, value: string)
  type Sections = seq<(string, seq<Parsed>)>

  /** `ConfigError` with its three causes. */
  datatype Outcome<+T> = Done(value: T) | SectionTwice(section: string) | NoSection | BadLine(line: string)

  // ---- Characters ----

  /** The characters of `\w`, as far as ASCII goes. */
  predicate IsWord(c: char) {
    'a' <= c <= 'z' || 'A' <= c <= 'Z' || '0' <= c <= '9' || c == '_'
  }

  predicate AllWord(s: string) {
    forall k :: 0 <= k < |s| ==> IsWord(s[k])
  }

  function LStrip(s: string): string {
    if s != [] && IsSpace(s[0]) then LStrip(s[1..]) else s
  }

  function RStrip(s: string): string {
    if s != [] && IsSpace(Last(s)) then RStrip(Init(s)) else s
  }

  function Strip(s: string): string {
    LStrip(RStrip(s))
  }

  // ---- Printing ----

  /** `value_to_string`. */
  function ValueToString(v: Value): string {
    match v case Text(s) => s case List(texts) => Join(texts, ' ')
  }

  function OptionLine(s: Setting): string {
    s.name + " = " + ValueToString(s.value)
  }

  function SectionLine(name: string): string {
    "[" + name + "]"
  }

  function OptionLines(settings: seq<Setting>): seq<string> {
    if settings == [] then [] else [OptionLine(settings[0])] + OptionLines(settings[1..])
  }

  function DumpLines(opts: Options): seq<string> {
    if opts == [] then [] else [SectionLine(opts[0].0)] + OptionLines(opts[0].1) + DumpLines(opts[1..])
  }

  /** `dump_config`. */
  function Dump(opts: Options): string {
    Render(DumpLines(opts))
  }

  // ---- Parsing ----

  /** What text mode makes of the line ends of a file. */
  function Universal(s: string): string {
    if s == [] then []
    else if s[0] == CR then [NL] + Universal(if |s| > 1 && s[1] == NL then s[2..] else s[1..])
    else [s[0]] + Universal(s[1..])
  }

  /** `readlines`: the lines with their line ends. */
  function ReadLines(s: string): seq<string> {
    if s == [] then []
    else if s[0] == NL then [[NL]] + ReadLines(s[1..])
    else
      var rest := ReadLines(s[1..]);
      if rest == [] then [[s[0]]] else [[s[0]] + rest[0]] + rest[1..]
  }

  predicate Skipped(line: string) {
    (line != [] && line[0] == '#') || Blank(line)
  }

  /** `_preprocess_lines`. */
  function Preprocess(lines: seq<string>): seq<string> {
    if lines == [] then []
    else (if Skipped(lines[0]) then [] else [Strip(lines[0])]) + Preprocess(lines[1..])
  }

  /** The name that `^\[(\w+)\]$` matches. */
  function MatchSection(line: string): Option<string> {
    if |line| > 2 && line[0] == '[' && Last(line) == ']' && AllWord(line[1..|line| - 1]) then Some(line[1..|line| - 1]) else None
  }

  function WordLength(s: string): (n: nat)
    ensures n <= |s| && (forall k :: 0 <= k < n ==> IsWord(s[k])) && (n < |s| ==> !IsWord(s[n]))
  {
    if s == [] || !IsWord(s[0]) then 0 else 1 + WordLength(s[1..])
  }

  /** The groups that `^(\w+)\s*(\+?=)\s*(.*)$` matches. */
  function MatchOption(line: string): Option<Parsed> {
    var n := WordLength(line);
    if n == 0 then None
    else
      var rest := LStrip(line[n..]);
      if rest != [] && rest[0] == '=' then Some(Parsed(line[..n], "=", LStrip(rest[1..])))
      else if |rest| > 1 && rest[0] == '+' && rest[1] == '=' then Some(Parsed(line[..n], "+=", LStrip(rest[2..])))
      else None
  }

  function HasSection(r: Sections, name: string): bool {
    exists k :: 0 <= k < |r| && r[k].0 == name
  }

  /** The loop body of `_parse_file`; the current section is the last one. */
  function ParseLine(r: Sections, line: string): Outcome<Sections> {
    match MatchSection(line)
    case Some(name) => if HasSection(r, name) then SectionTwice(name) else Done(r + [(name, [])])
    case None =>
      match MatchOption(line)
      case Some(opt) => if r == [] then NoSection else Done(r[|r| - 1 := (Last(r).0, Last(r).1 + [opt])])
      case None => BadLine(line)
  }

  function ParseLines(r: Sections, lines: seq<string>): Outcome<Sections>
    decreases |lines|
  {
    if lines == [] then Done(r)
    else
      match ParseLine(r, lines[0])
      case Done(r') => ParseLines(r', lines[1..])
      case e => e
  }

  /** `_parse_file` on the text of the file. */
  function ParseFile(text: string): Outcome<Sections> {
    ParseLines([], Preprocess(ReadLines(Universal(text))))
  }

  // ---- The loops ----

  method DumpConfig(opts: Options) returns (s: string)
    ensures s == Dump(opts)
  {
    s := "";
    for i := 0 to |opts|
      invariant s + Dump(opts[i..]) == Dump(opts)
    {
      assert opts[i..][0] == opts[i] && opts[i..][1..] == opts[i + 1..];
      ghost var s0 := s;
      var section := DumpSection(opts[i].0, opts[i].1);
      RenderAppend([SectionLine(opts[i].0)] + OptionLines(opts[i].1), DumpLines(opts[i + 1..]));
      s := s + section;
    }
  }

  method DumpSection(name: string, settings: seq<Setting>) returns (s: string)
    ensures s == Render([SectionLine(name)] + OptionLines(settings))
  {
    s := SectionLine(name) + [NL];
    for j := 0 to |settings|
      invariant s + Render(OptionLines(settings[j..])) == Render([SectionLine(name)] + OptionLines(settings))
    {
      assert settings[j..][0] == settings[j] && settings[j..][1..] == settings[j + 1..];
      s := s + (settings[j].name + " = " + ValueToString(settings[j].value) + [NL]);
    }
  }

  lemma PreprocessStep(lines: seq<string>, i: nat)
    requires i < |lines|
    ensures Preprocess(lines[i..]) == (if Skipped(lines[i]) then [] else [Strip(lines[i])]) + Preprocess(lines[i + 1..])
  {
    assert lines[i..][0] == lines[i] && lines[i..][1..] == lines[i + 1..];
  }

  method PreprocessLines(lines: seq<string>) returns (result: seq<string>)
    ensures result == Preprocess(lines)
  {
    result := [];
    assert lines[0..] == lines;
    for i := 0 to |lines|
      invariant result + Preprocess(lines[i..]) == Preprocess(lines)
    {
      PreprocessStep(lines, i);
      hide Strip, Blank, Preprocess;
      ghost var rest := Preprocess(lines[i + 1..]);
      if |lines[i]| > 0 && lines[i][0] == '#' {
        assert [] + rest == rest;
        continue;
      }
      if Blank(lines[i]) {
        assert [] + rest == rest;
        continue;
      }
      assert result + ([Strip(lines[i])] + rest) == (result + [Strip(lines[i])]) + rest;
      result := result + [Strip(lines[i])];
    }
  }

  method ParseConfig(text: string) returns (r: Outcome<Sections>)
    ensures r == ParseFile(text)
  {
    var lines := PreprocessLines(ReadLines(Universal(text)));
    var result: Sections := [];
    for i := 0 to |lines|
      invariant ParseLines(result, lines[i..]) == ParseLines([], lines)
    {
      assert lines[i..][0] == lines[i] && lines[i..][1..] == lines[i + 1..];
      var section := MatchSection(lines[i]);
      var option := MatchOption(lines[i]);
      if section.Some? {
        if HasSection(result, section.value) { return SectionTwice(section.value); }
        result := result + [(section.value, [])];
      } else if option.Some? {
        if result == [] { return NoSection; }
        result := result[|result| - 1 := (Last(result).0, Last(result).1 + [option.value])];
      } else {
        return BadLine(lines[i]);
      }
    }
    r := Done(result);
  }

  // ---- Blank lines and comments do not matter ----

  lemma {:induction false} PreprocessAppend(a: seq<string>, b: seq<string>)
    ensures Preprocess(a + b) == Preprocess(a) + Preprocess(b)
    decreases |a|
  {
    if a == [] {
      assert a + b == b;
    } else {
      assert (a + b)[0] == a[0] && (a + b)[1..] == a[1..] + b;
      PreprocessAppend(a[1..], b);
    }
  }

  /** Inserting a blank line or a comment anywhere leaves the parse as it is. */
  lemma SkippedLinesDoNotMatter(a: seq<string>, line: string, b: seq<string>)
    requires Blank(line) || (line != [] && line[0] == '#')
    ensures ParseLines([], Preprocess(a + [line] + b)) == ParseLines([], Preprocess(a + b))
  {
    PreprocessAppend(a + [line], b);
    PreprocessAppend(a, [line]);
    PreprocessAppend(a, b);
    assert [line][1..] == [];
    assert Preprocess([line]) == [];
    assert Preprocess(a) + [] == Preprocess(a);
  }

  // ---- The round trip ----

  ghost predicate Word(s: string) {
    s != [] && AllWord(s)
  }

  /** On one line and without white space around it. */
  ghost predicate Trimmed(s: string) {
    && NL !in s && CR !in s
    && (s != [] ==> !IsSpace(s[0]) && !IsSpace(Last(s)))
  }

  ghost predicate Printable(opts: Options) {
    && (forall i :: 0 <= i < |opts| ==> Word(opts[i].0) && PrintableSettings(opts[i].1))
    && (forall i, j :: 0 <= i < j < |opts| ==> opts[i].0 != opts[j].0)
  }

  ghost predicate PrintableSettings(settings: seq<Setting>) {
    forall j :: 0 <= j < |settings| ==> Word(settings[j].name) && Trimmed(ValueToString(settings[j].value))
  }

  function ParsedOf(s: Setting): Parsed {
    Parsed(s.name, "=", ValueToString(s.value))
  }

  function AllParsed(settings: seq<Setting>): seq<Parsed> {
    if settings == [] then [] else [ParsedOf(settings[0])] + AllParsed(settings[1..])
  }

  /** What a parse of the printed options should be. */
  function Expected(opts: Options): Sections {
    if opts == [] then [] else [(opts[0].0, AllParsed(opts[0].1))] + Expected(opts[1..])
  }

  lemma {:induction false} ReadLinesFirst(l: string, rest: string)
    requires NL !in l
    ensures ReadLines(l + [NL] + rest) == [l + [NL]] + ReadLines(rest)
    decreases |l|
  {
    var s := l + [NL] + rest;
    if l == [] {
      assert s[1..] == rest && l + [NL] == [NL];
    } else {
      ReadLinesFirst(l[1..], rest);
      assert s[1..] == l[1..] + [NL] + rest;
      assert [l[0]] + (l[1..] + [NL]) == l + [NL];
      assert ([l[1..] + [NL]] + ReadLines(rest))[1..] == ReadLines(rest);
    }
  }

  /** A line that the printer writes: it is neither skipped nor changed by stripping its line end and white space. */
  ghost predicate CleanLine(l: string, stripped: string) {
    NL !in l && CR !in l && !Skipped(l + [NL]) && Strip(l + [NL]) == stripped
  }

  ghost predicate CleanLines(lines: seq<string>, stripped: seq<string>) {
    |lines| == |stripped| && forall k :: 0 <= k < |lines| ==> CleanLine(lines[k], stripped[k])
  }

  lemma {:induction false} ReadBack(lines: seq<string>, stripped: seq<string>)
    requires CleanLines(lines, stripped)
    ensures Preprocess(ReadLines(Render(lines))) == stripped
    decreases |lines|
  {
    if lines != [] {
      assert CleanLine(lines[0], stripped[0]);
      forall k | 0 <= k < |lines[1..]| ensures CleanLine(lines[1..][k], stripped[1..][k]) {
        assert CleanLine(lines[k + 1], stripped[k + 1]);
      }
      ReadBack(lines[1..], stripped[1..]);
      ReadLinesFirst(lines[0], Render(lines[1..]));
      var all := [lines[0] + [NL]] + ReadLines(Render(lines[1..]));
      assert all[1..] == ReadLines(Render(lines[1..]));
      assert stripped == [stripped[0]] + stripped[1..];
    } else {
      assert stripped == [];
    }
  }

  lemma {:induction false} UniversalSame(s: string)
    requires CR !in s
    ensures Universal(s) == s
  {
    if s != [] {
      assert s[0] != CR;
      UniversalSame(s[1..]);
      assert s == [s[0]] + s[1..];
    }
  }

  lemma {:induction false} RenderedHasNoReturns(lines: seq<string>, stripped: seq<string>)
    requires CleanLines(lines, stripped)
    ensures CR !in Render(lines)
    decreases |lines|
  {
    if lines != [] {
      assert CleanLine(lines[0], stripped[0]);
      forall k | 0 <= k < |lines[1..]| ensures CleanLine(lines[1..][k], stripped[1..][k]) {
        assert CleanLine(lines[k + 1], stripped[k + 1]);
      }
      RenderedHasNoReturns(lines[1..], stripped[1..]);
    }
  }

  lemma StripLine(l: string)
    requires l != [] && !IsSpace(l[0]) && !IsSpace(Last(l))
    ensures Strip(l + [NL]) == l
  {
    assert Init(l + [NL]) == l && Last(l + [NL]) == NL;
    assert RStrip(l + [NL]) == RStrip(l) == l;
  }

  lemma SectionLineClean(name: string)
    requires Word(name)
    ensures CleanLine(SectionLine(name), SectionLine(name)) && MatchSection(SectionLine(name)) == Some(name)
  {
    var l := SectionLine(name);
    StripLine(l);
    assert l[0] == '[' && Last(l) == ']';
    assert !Blank(l + [NL]) by { assert !IsSpace((l + [NL])[0]); }
    assert l[1..|l| - 1] == name;
    assert NL !in l && CR !in l;
  }

  /** The printed option line as the parser sees it: an empty value loses the blank behind the equals sign. */
  function Seen(s: Setting): string {
    if ValueToString(s.value) == [] then s.name + " =" else OptionLine(s)
  }

  lemma OptionLineClean(s: Setting)
    requires Word(s.name) && Trimmed(ValueToString(s.value))
    ensures CleanLine(OptionLine(s), Seen(s))
  {
    var v := ValueToString(s.value);
    var l := OptionLine(s);
    assert l[0] == s.name[0] && !IsSpace(l[0]);
    assert !Blank(l + [NL]) by { assert !IsSpace((l + [NL])[0]); }
    assert NL !in l && CR !in l;
    if v == [] {
      var m := s.name + " =";
      assert l == m + [' '];
      assert Init(l + [NL]) == l && Init(l) == m && Last(l) == ' ' && Last(m) == '=';
      assert RStrip(l + [NL]) == RStrip(l) == RStrip(m) == m;
      assert m[0] == l[0];
    } else {
      assert Last(l) == Last(v);
      StripLine(l);
    }
  }

  lemma {:induction false} WordLengthIs(w: string, c: char, rest: string)
    requires AllWord(w) && !IsWord(c)
    ensures WordLength(w + [c] + rest) == |w|
  {
    var s := w + [c] + rest;
    assert s[|w|] == c && forall k :: 0 <= k < |w| ==> s[k] == w[k];
  }

  lemma LStripTrimmed(v: string)
    requires Trimmed(v)
    ensures LStrip(v) == v && LStrip([' '] + v) == v
  {
    assert ([' '] + v)[1..] == v;
  }

  lemma AfterName(tail: string)
    requires tail != [] && tail[0] == '='
    ensures LStrip([' '] + tail) == tail
  {
    assert ([' '] + tail)[1..] == tail;
  }

  lemma AfterEquals(v: string, tail: string)
    requires Trimmed(v) && tail == (if v == [] then "=" else "= " + v)
    ensures tail != [] && tail[0] == '=' && LStrip(tail[1..]) == v
  {
    LStripTrimmed(v);
    assert tail[1..] == if v == [] then [] else [' '] + v;
  }

  /** An option line splits at the blank behind the name. */
  lemma MatchAssignment(name: string, v: string, tail: string)
    requires Word(name) && Trimmed(v) && tail == (if v == [] then "=" else "= " + v)
    ensures MatchOption(name + [' '] + tail) == Some(Parsed(name, "=", v))
  {
    WordLengthIs(name, ' ', tail);
    AfterEquals(v, tail);
    AfterName(tail);
    hide LStrip, WordLength, Trimmed;
    var l := name + [' '] + tail;
    assert l[|name|..] == [' '] + tail && l[..|name|] == name;
  }

  lemma SeenMatches(s: Setting)
    requires Word(s.name) && Trimmed(ValueToString(s.value))
    ensures MatchSection(Seen(s)) == None && MatchOption(Seen(s)) == Some(ParsedOf(s))
  {
    hide MatchOption;
    var v := ValueToString(s.value);
    var tail := if v == [] then "=" else "= " + v;
    assert Seen(s) == s.name + [' '] + tail;
    MatchAssignment(s.name, v, tail);
    assert Seen(s)[0] == s.name[0] && IsWord(Seen(s)[0]);
  }

  function SeenOptions(settings: seq<Setting>): seq<string> {
    if settings == [] then [] else [Seen(settings[0])] + SeenOptions(settings[1..])
  }

  function SeenLines(opts: Options): seq<string> {
    if opts == [] then [] else [SectionLine(opts[0].0)] + SeenOptions(opts[0].1) + SeenLines(opts[1..])
  }

  lemma {:induction false} CleanAppend(a: seq<string>, a': seq<string>, b: seq<string>, b': seq<string>)
    requires CleanLines(a, a') && CleanLines(b, b')
    ensures CleanLines(a + b, a' + b')
  {
    forall k | 0 <= k < |a + b| ensures CleanLine((a + b)[k], (a' + b')[k]) {
      if k < |a| {
        assert CleanLine(a[k], a'[k]);
      } else {
        assert CleanLine(b[k - |a|], b'[k - |a|]);
      }
    }
  }

  lemma {:induction false} OptionLinesClean(settings: seq<Setting>)
    requires PrintableSettings(settings)
    ensures CleanLines(OptionLines(settings), SeenOptions(settings))
    decreases |settings|
  {
    if settings != [] {
      OptionLineClean(settings[0]);
      OptionLinesClean(settings[1..]);
      CleanAppend([OptionLine(settings[0])], [Seen(settings[0])], OptionLines(settings[1..]), SeenOptions(settings[1..]));
    }
  }

  lemma {:induction false} DumpLinesClean(opts: Options)
    requires Printable(opts)
    ensures CleanLines(DumpLines(opts), SeenLines(opts))
    decreases |opts|
  {
    if opts != [] {
      PrintableTail(opts);
      DumpLinesClean(opts[1..]);
      SectionLineClean(opts[0].0);
      OptionLinesClean(opts[0].1);
      var s, o, o' := SectionLine(opts[0].0), OptionLines(opts[0].1), SeenOptions(opts[0].1);
      CleanAppend([s], [s], o, o');
      CleanAppend([s] + o, [s] + o', DumpLines(opts[1..]), SeenLines(opts[1..]));
    }
  }

  lemma PrintableTail(opts: Options)
    requires opts != [] && Printable(opts)
    ensures Printable(opts[1..]) && Word(opts[0].0) && PrintableSettings(opts[0].1)
  {
    var t := opts[1..];
    assert forall i :: 0 <= i < |t| ==> t[i] == opts[i + 1];
  }

  lemma ParseOptionFirst(r: Sections, name: string, done: seq<Parsed>, s: Setting, rest: seq<string>)
    requires Word(s.name) && Trimmed(ValueToString(s.value))
    ensures ParseLines(r + [(name, done)], [Seen(s)] + rest) == ParseLines(r + [(name, done + [ParsedOf(s)])], rest)
  {
    SeenMatches(s);
    hide MatchOption, MatchSection, Seen, ParsedOf, HasSection, Word;
    var all := r + [(name, done)];
    assert Last(all) == (name, done);
    assert all[|all| - 1 := (name, done + [ParsedOf(s)])] == r + [(name, done + [ParsedOf(s)])];
    assert ([Seen(s)] + rest)[1..] == rest;
  }

  lemma ParseSectionFirst(r: Sections, name: string, rest: seq<string>)
    requires Word(name) && !HasSection(r, name)
    ensures ParseLines(r, [SectionLine(name)] + rest) == ParseLines(r + [(name, [])], rest)
  {
    SectionLineClean(name);
    hide MatchOption, MatchSection, HasSection, Word, CleanLine, SectionLine;
    assert ([SectionLine(name)] + rest)[1..] == rest;
  }

  lemma Associative<T>(a: seq<T>, b: seq<T>, c: seq<T>)
    ensures a + b + c == a + (b + c)
  {
  }

  lemma {:induction false} ParseSeenOptions(r: Sections, name: string, done: seq<Parsed>, settings: seq<Setting>, rest: seq<string>)
    requires PrintableSettings(settings)
    ensures ParseLines(r + [(name, done)], SeenOptions(settings) + rest) ==
            ParseLines(r + [(name, done + AllParsed(settings))], rest)
    decreases |settings|
  {
    hide Word, Trimmed, Seen, ParsedOf;
    if settings == [] {
      assert done + [] == done;
      assert SeenOptions(settings) + rest == rest;
    } else {
      var opt, more := ParsedOf(settings[0]), SeenOptions(settings[1..]) + rest;
      ParseOptionFirst(r, name, done, settings[0], more);
      ParseSeenOptions(r, name, done + [opt], settings[1..], rest);
      hide ParseLines;
      Associative([Seen(settings[0])], SeenOptions(settings[1..]), rest);
      Associative(done, [opt], AllParsed(settings[1..]));
    }
  }

  ghost predicate NewSections(r: Sections, opts: Options) {
    forall i :: 0 <= i < |opts| ==> !HasSection(r, opts[i].0)
  }

  lemma NewSectionsStep(r: Sections, opts: Options, parsed: seq<Parsed>)
    requires opts != [] && Printable(opts) && NewSections(r, opts)
    ensures !HasSection(r, opts[0].0) && NewSections(r + [(opts[0].0, parsed)], opts[1..])
  {
    var r' := r + [(opts[0].0, parsed)];
    assert !HasSection(r, opts[0].0);
    forall i | 0 <= i < |opts[1..]| ensures !HasSection(r', opts[1..][i].0) {
      assert opts[1..][i] == opts[i + 1] && !HasSection(r, opts[i + 1].0) && opts[0].0 != opts[i + 1].0;
    }
  }

  lemma ParseSection(r: Sections, name: string, settings: seq<Setting>, rest: seq<string>)
    requires Word(name) && PrintableSettings(settings) && !HasSection(r, name)
    ensures ParseLines(r, [SectionLine(name)] + (SeenOptions(settings) + rest)) ==
            ParseLines(r + [(name, AllParsed(settings))], rest)
  {
    ParseSectionFirst(r, name, SeenOptions(settings) + rest);
    ParseSeenOptions(r, name, [], settings, rest);
    assert [] + AllParsed(settings) == AllParsed(settings);
  }

  lemma {:induction false} ParseSeen(r: Sections, opts: Options)
    requires Printable(opts) && NewSections(r, opts)
    ensures ParseLines(r, SeenLines(opts)) == Done(r + Expected(opts))
    decreases |opts|
  {
    if opts == [] {
      assert r + [] == r;
    } else {
      PrintableTail(opts);
      NewSectionsStep(r, opts, AllParsed(opts[0].1));
      hide Printable, NewSections, HasSection, Word, PrintableSettings, SectionLine, SeenOptions, AllParsed, ParseLines;
      var r' := r + [(opts[0].0, AllParsed(opts[0].1))];
      var rest := SeenLines(opts[1..]);
      ParseSeen(r', opts[1..]);
      Associative(r, [(opts[0].0, AllParsed(opts[0].1))], Expected(opts[1..]));
      assert ParseLines(r, SeenLines(opts)) == ParseLines(r', rest) by {
        ParseSection(r, opts[0].0, opts[0].1, rest);
        Associative([SectionLine(opts[0].0)], SeenOptions(opts[0].1), rest);
      }
    }
  }

  /** Parsing what was printed gives back every section with its options, in order. */
  lemma RoundTrip(opts: Options)
    requires Printable(opts)
    ensures ParseFile(Dump(opts)) == Done(Expected(opts))
  {
    DumpLinesClean(opts);
    ReadBack(DumpLines(opts), SeenLines(opts));
    RenderedHasNoReturns(DumpLines(opts), SeenLines(opts));
    UniversalSame(Dump(opts));
    ParseSeen([], opts);
    assert [] + Expected(opts) == Expected(opts);
  }

  // ---- What a parse can come to ----

  ghost predicate GoodParsed(p: Parsed) {
    Word(p.name) && Trimmed(p.value)
  }

  /** The names are words and the values single trimmed lines, and no section is there twice. */
  ghost predicate GoodSections(r: Sections) {
    && (forall i :: 0 <= i < |r| ==> Word(r[i].0) && forall j :: 0 <= j < |r[i].1| ==> GoodParsed(r[i].1[j]))
    && (forall i, j :: 0 <= i < j < |r| ==> r[i].0 != r[j].0)
  }

  lemma {:induction false} UniversalHasNoReturns(s: string)
    ensures CR !in Universal(s)
    decreases |s|
  {
    if s != [] {
      if s[0] == CR {
        UniversalHasNoReturns(if |s| > 1 && s[1] == NL then s[2..] else s[1..]);
      } else {
        UniversalHasNoReturns(s[1..]);
      }
    }
  }

  /** Only the last character of a read line can be a line end. */
  ghost predicate OneLine(l: string) {
    CR !in l && l != [] && NL !in Init(l)
  }

  lemma {:induction false} ReadLinesShape(s: string, k: nat)
    requires CR !in s && k < |ReadLines(s)|
    ensures OneLine(ReadLines(s)[k])
    decreases |s|
  {
    var rest := ReadLines(s[1..]);
    if s[0] == NL {
      if k > 0 { ReadLinesShape(s[1..], k - 1); }
    } else if rest == [] {
    } else if k > 0 {
      ReadLinesShape(s[1..], k);
    } else {
      ReadLinesShape(s[1..], 0);
      assert Init([s[0]] + rest[0]) == [s[0]] + Init(rest[0]);
    }
  }

  lemma {:induction false} LStripIs(s: string) returns (n: nat)
    ensures n <= |s| && LStrip(s) == s[n..]
    ensures LStrip(s) != [] ==> !IsSpace(LStrip(s)[0]) && Last(LStrip(s)) == Last(s)
    decreases |s|
  {
    n := 0;
    if s != [] && IsSpace(s[0]) {
      n := LStripIs(s[1..]);
      n := n + 1;
    }
  }

  lemma {:induction false} RStripIs(s: string)
    ensures RStrip(s) <= s
    ensures RStrip(s) != [] ==> !IsSpace(Last(RStrip(s)))
    decreases |s|
  {
    if s != [] && IsSpace(Last(s)) {
      RStripIs(Init(s));
    }
  }

  lemma StripTrimmed(l: string)
    requires OneLine(l)
    ensures Trimmed(Strip(l))
  {
    RStripIs(l);
    var r := RStrip(l);
    forall k | 0 <= k < |r| ensures r[k] != NL {
      assert r[k] == if k < |l| - 1 then Init(l)[k] else Last(r);
    }
    var n := LStripIs(r);
  }

  lemma {:induction false} PreprocessTrimmed(lines: seq<string>, k: nat)
    requires (forall i :: 0 <= i < |lines| ==> OneLine(lines[i])) && k < |Preprocess(lines)|
    ensures Trimmed(Preprocess(lines)[k])
    decreases |lines|
  {
    if Skipped(lines[0]) {
      PreprocessTrimmed(lines[1..], k);
    } else if k > 0 {
      PreprocessTrimmed(lines[1..], k - 1);
    } else {
      StripTrimmed(lines[0]);
    }
  }

  lemma SuffixTrimmed(l: string, s: string, n: nat)
    requires Trimmed(l) && n <= |l| && s == l[n..] && (s != [] ==> !IsSpace(s[0]))
    ensures Trimmed(s)
  {
    assert s != [] ==> Last(s) == Last(l);
  }

  lemma ValueTrimmed(l: string, n: nat, c: nat)
    requires Trimmed(l) && n <= |l| && c <= |LStrip(l[n..])|
    ensures Trimmed(LStrip(LStrip(l[n..])[c..]))
  {
    hide LStrip, Trimmed;
    var rest := LStrip(l[n..]);
    var m := LStripIs(l[n..]);
    var k := LStripIs(rest[c..]);
    assert rest == l[n + m..] && rest[c..] == l[n + m + c..];
    assert LStrip(rest[c..]) == l[n + m + c + k..];
    SuffixTrimmed(l, LStrip(rest[c..]), n + m + c + k);
  }

  lemma OptionGood(l: string)
    requires Trimmed(l) && MatchOption(l).Some?
    ensures GoodParsed(MatchOption(l).value)
  {
    hide LStrip, Trimmed, WordLength;
    var n := WordLength(l);
    assert Word(l[..n]);
    var rest := LStrip(l[n..]);
    ValueTrimmed(l, n, if rest[0] == '=' then 1 else 2);
  }

  lemma ParseLineGood(r: Sections, l: string)
    requires GoodSections(r) && Trimmed(l) && ParseLine(r, l).Done?
    ensures GoodSections(ParseLine(r, l).value)
  {
    hide MatchOption, Trimmed;
    if MatchSection(l).None? {
      OptionGood(l);
      hide Word;
      var last := Last(r).1 + [MatchOption(l).value];
      assert forall j :: 0 <= j < |last| ==> GoodParsed(last[j]);
    } else {
      assert Word(MatchSection(l).value);
    }
  }

  lemma {:induction false} ParseLinesGood(r: Sections, lines: seq<string>)
    requires GoodSections(r) && (forall k :: 0 <= k < |lines| ==> Trimmed(lines[k]))
    ensures ParseLines(r, lines).Done? ==> GoodSections(ParseLines(r, lines).value)
    decreases |lines|
  {
    hide GoodSections, Trimmed, ParseLine;
    if lines != [] && ParseLine(r, lines[0]).Done? {
      ParseLineGood(r, lines[0]);
      ParseLinesGood(ParseLine(r, lines[0]).value, lines[1..]);
    }
  }

  /** Whatever the text, a successful parse comes to sections of this kind. */
  lemma ParsedIsGood(text: string)
    ensures ParseFile(text).Done? ==> GoodSections(ParseFile(text).value)
  {
    hide Trimmed, OneLine;
    var s := Universal(text);
    UniversalHasNoReturns(text);
    var lines := ReadLines(s);
    forall k | 0 <= k < |lines| ensures OneLine(lines[k]) {
      ReadLinesShape(s, k);
    }
    var clean := Preprocess(lines);
    forall k | 0 <= k < |clean| ensures Trimmed(clean[k]) {
      PreprocessTrimmed(lines, k);
    }
    ParseLinesGood([], clean);
  }

  lemma {:induction false} AllParsedAt(settings: seq<Setting>, j: nat)
    requires j < |settings|
    ensures |AllParsed(settings)| == |settings| && AllParsed(settings)[j] == ParsedOf(settings[j])
    decreases |settings|
  {
    if j > 0 {
      AllParsedAt(settings[1..], j - 1);
    } else if |settings| > 1 {
      AllParsedAt(settings[1..], 0);
    }
  }

  lemma {:induction false} ExpectedAt(opts: Options, i: nat)
    requires i < |opts|
    ensures |Expected(opts)| == |opts| && Expected(opts)[i] == (opts[i].0, AllParsed(opts[i].1))
    decreases |opts|
  {
    if i > 0 {
      ExpectedAt(opts[1..], i - 1);
    } else if |opts| > 1 {
      ExpectedAt(opts[1..], 0);
    }
  }

  /** The round trip succeeds exactly when the names are distinct words and the values single trimmed lines. */
  lemma RoundTripIff(opts: Options)
    ensures ParseFile(Dump(opts)) == Done(Expected(opts)) <==> Printable(opts)
  {
    hide ParseFile, Dump, Word, Trimmed;
    if Printable(opts) {
      RoundTrip(opts);
    } else if ParseFile(Dump(opts)) == Done(Expected(opts)) {
      ParsedIsGood(Dump(opts));
      forall i | 0 <= i < |opts| ensures Word(opts[i].0) && PrintableSettings(opts[i].1) {
        ExpectedAt(opts, i);
        forall j | 0 <= j < |opts[i].1| ensures Word(opts[i].1[j].name) && Trimmed(ValueToString(opts[i].1[j].value)) {
          AllParsedAt(opts[i].1, j);
          assert GoodParsed(Expected(opts)[i].1[j]);
        }
      }
      forall i, j | 0 <= i < j < |opts| ensures opts[i].0 != opts[j].0 {
        ExpectedAt(opts, i);
        ExpectedAt(opts, j);
      }
    }
  }

  /** The printed value of a list option can be split into its texts again, if they have no blanks. */
  lemma ListValueSplits(texts: seq<string>)
    requires texts != [] && Free(texts, ' ')
    ensures Split(ValueToString(List(texts)), ' ') == texts
  {
    SplitOfJoin(texts, ' ');
  }

  // ---- Line ends ----

  lemma {:induction false} UniversalKeeps(line: string, rest: string)
    requires CR !in line
    ensures Universal(line + rest) == line + Universal(rest)
  {
    if line == [] {
      assert line + rest == rest;
    } else {
      UniversalKeeps(line[1..], rest);
      assert (line + rest)[0] == line[0] && (line + rest)[1..] == line[1..] + rest;
    }
  }

  /** A line end of any of the three kinds reads as a line feed, and everything else as it is. */
  lemma UniversalLineEnd(line: string, end: string, rest: string)
    requires CR !in line && end in {[NL], [CR], [CR, NL]} && (end == [CR] && rest != [] ==> rest[0] != NL)
    ensures Universal(line + end + rest) == line + [NL] + Universal(rest)
  {
    assert line + end + rest == line + (end + rest);
    UniversalKeeps(line, end + rest);
    var s := end + rest;
    assert s[0] == end[0];
    if end == [CR, NL] {
      assert s[1] == NL && s[2..] == rest;
    } else {
      assert s[1..] == rest;
      assert |s| > 1 ==> s[1] == rest[0];
    }
  }

  // ---- What the expressions match, and what raises ----

  ghost predicate NoLeadingSpace(s: string) {
    s != [] ==> !IsSpace(s[0])
  }

  lemma {:induction false} LStripSkips(s1: string, rest: string)
    requires Blank(s1) && NoLeadingSpace(rest)
    ensures LStrip(s1 + rest) == rest
  {
    if s1 == [] {
      assert s1 + rest == rest;
    } else {
      assert (s1 + rest)[1..] == s1[1..] + rest;
      LStripSkips(s1[1..], rest);
    }
  }

  lemma WordLengthEnds(w: string, rest: string)
    requires AllWord(w) && (rest != [] ==> !IsWord(rest[0]))
    ensures WordLength(w + rest) == |w|
  {
    var s := w + rest;
    assert forall k :: 0 <= k < |w| ==> s[k] == w[k];
    assert rest != [] ==> s[|w|] == rest[0];
  }

  /** The line is made of a name, an operator and a value, with white space around the operator. */
  ghost predicate OptionParts(line: string, o: Parsed, before: string, after: string) {
    && line == o.name + (before + (o.operator + (after + o.value)))
    && Word(o.name) && o.operator in {"=", "+="}
    && Blank(before) && Blank(after) && NoLeadingSpace(o.value)
  }

  lemma PartsMatch(line: string, o: Parsed, before: string, after: string)
    requires OptionParts(line, o, before, after)
    ensures MatchOption(line) == Some(o)
  {
    hide WordLength, LStrip;
    var value := after + o.value;
    var tail := o.operator + value;
    var rest := before + tail;
    assert tail[0] == o.operator[0] && !IsSpace(tail[0]) && !IsWord(tail[0]);
    assert rest != [] && !IsWord(rest[0]) by { assert before != [] ==> rest[0] == before[0] && IsSpace(before[0]); }
    WordLengthEnds(o.name, rest);
    assert line[..|o.name|] == o.name && line[|o.name|..] == rest;
    LStripSkips(before, tail);
    LStripSkips(after, o.value);
    if o.operator == "=" {
      assert tail[1..] == value;
    } else {
      assert tail[1] == '=' && tail[2..] == value;
    }
  }

  lemma {:induction false} LStripParts(s: string) returns (lead: string)
    ensures Blank(lead) && s == lead + LStrip(s) && NoLeadingSpace(LStrip(s))
    decreases |s|
  {
    lead := [];
    if s != [] && IsSpace(s[0]) {
      lead := LStripParts(s[1..]);
      lead := [s[0]] + lead;
    }
  }

  lemma MatchParts(line: string, o: Parsed) returns (before: string, after: string)
    requires MatchOption(line) == Some(o)
    ensures OptionParts(line, o, before, after)
  {
    hide LStrip, WordLength, Blank;
    var n := WordLength(line);
    var rest := LStrip(line[n..]);
    before := LStripParts(line[n..]);
    var m := |o.operator|;
    after := LStripParts(rest[m..]);
    assert rest[..m] == o.operator;
    assert rest == o.operator + (after + o.value);
    assert line == line[..n] + line[n..];
  }

  /**
    An option line is a word, an operator, which is "=" or "+=", and a value without leading white space,
    and has no more than white space between them; and those are what is matched.
   */
  lemma MatchOptionIff(line: string, o: Parsed)
    ensures MatchOption(line) == Some(o) <==> exists before, after :: OptionParts(line, o, before, after)
  {
    hide MatchOption, OptionParts;
    if MatchOption(line) == Some(o) {
      var before, after := MatchParts(line, o);
    }
    if before, after :| OptionParts(line, o, before, after) {
      PartsMatch(line, o, before, after);
    }
  }

  lemma MatchSectionIff(line: string, name: string)
    ensures MatchSection(line) == Some(name) <==> Word(name) && line == SectionLine(name)
  {
    if MatchSection(line) == Some(name) {
      assert line == [line[0]] + line[1..|line| - 1] + [Last(line)];
    }
    if line == SectionLine(name) {
      assert line[1..|line| - 1] == name;
    }
  }

  ghost predicate SectionBefore(lines: seq<string>, k: nat, name: string)
    requires k <= |lines|
  {
    exists j :: 0 <= j < k && MatchSection(lines[j]) == Some(name)
  }

  /** What is wrong with line `k`, if anything is. */
  ghost function Problem(lines: seq<string>, k: nat): Outcome<()>
    requires k < |lines|
  {
    match MatchSection(lines[k])
    case Some(name) => if SectionBefore(lines, k, name) then SectionTwice(name) else Done(())
    case None =>
      if MatchOption(lines[k]).None? then BadLine(lines[k])
      else if exists name :: SectionBefore(lines, k, name) then Done(())
      else NoSection
  }

  ghost predicate FineUpTo(lines: seq<string>, k: nat)
    requires k <= |lines|
  {
    forall j :: 0 <= j < k ==> Problem(lines, j).Done?
  }

  /** What a line does to the sections so far. */
  lemma ParseLineSections(r: Sections, line: string)
    requires ParseLine(r, line).Done?
    ensures var r' := ParseLine(r, line).value;
            && (forall name :: HasSection(r', name) <==> HasSection(r, name) || MatchSection(line) == Some(name))
            && (r' != [] <==> r != [] || MatchSection(line).Some?)
  {
    hide MatchSection, MatchOption;
    var r' := ParseLine(r, line).value;
    assert |r| <= |r'| && forall k :: 0 <= k < |r| ==> r'[k].0 == r[k].0;
    forall name ensures HasSection(r', name) <==> HasSection(r, name) || MatchSection(line) == Some(name) {
      if HasSection(r, name) {
        var k :| 0 <= k < |r| && r[k].0 == name;
        assert r'[k].0 == name;
      }
      if MatchSection(line) == Some(name) {
        assert r'[|r|].0 == name;
      }
    }
  }

  lemma SectionBeforeStep(lines: seq<string>, k: nat, name: string)
    requires k < |lines|
    ensures SectionBefore(lines, k + 1, name) <==> SectionBefore(lines, k, name) || MatchSection(lines[k]) == Some(name)
  {
  }

  /** The sections are those of the first `k` lines. */
  ghost predicate SectionsOf(r: Sections, lines: seq<string>, k: nat)
    requires k <= |lines|
  {
    && (forall name :: HasSection(r, name) <==> SectionBefore(lines, k, name))
    && (r != [] <==> exists name :: SectionBefore(lines, k, name))
  }

  /** Whether the next line is fine. */
  lemma NextLine(r: Sections, lines: seq<string>, k: nat)
    requires k < |lines| && SectionsOf(r, lines, k)
    ensures Problem(lines, k).Done? ==> ParseLine(r, lines[k]).Done? && SectionsOf(ParseLine(r, lines[k]).value, lines, k + 1)
    ensures !Problem(lines, k).Done? ==> SameError(ParseLine(r, lines[k]), Problem(lines, k))
  {
    hide MatchSection, MatchOption, SectionBefore, HasSection;
    if Problem(lines, k).Done? {
      hide Problem;
      ParseLineSections(r, lines[k]);
      forall name ensures SectionBefore(lines, k + 1, name) <==> SectionBefore(lines, k, name) || MatchSection(lines[k]) == Some(name) {
        SectionBeforeStep(lines, k, name);
      }
    }
  }

  lemma {:induction false} FinePrefix(lines: seq<string>, k: nat) returns (r: Sections)
    requires k <= |lines| && FineUpTo(lines, k)
    ensures ParseLines([], lines) == ParseLines(r, lines[k..]) && SectionsOf(r, lines, k)
  {
    hide Problem, ParseLine, SectionsOf;
    if k == 0 {
      r := [];
      assert lines[0..] == lines;
      NoSectionsYet(lines);
    } else {
      var r0 := FinePrefix(lines, k - 1);
      assert lines[k - 1..][0] == lines[k - 1] && lines[k - 1..][1..] == lines[k..];
      NextLine(r0, lines, k - 1);
      r := ParseLine(r0, lines[k - 1]).value;
    }
  }

  lemma NoSectionsYet(lines: seq<string>)
    ensures SectionsOf([], lines, 0)
  {
  }

  lemma FailsAt(lines: seq<string>, k: nat)
    requires k < |lines| && FineUpTo(lines, k) && !Problem(lines, k).Done?
    ensures SameError(ParseLines([], lines), Problem(lines, k))
  {
    hide Problem, ParseLine, SectionsOf;
    var r := FinePrefix(lines, k);
    NextLine(r, lines, k);
    assert lines[k..][0] == lines[k];
  }

  lemma {:induction false} FirstProblem(lines: seq<string>, k: nat) returns (j: nat)
    requires k <= |lines| && !FineUpTo(lines, k)
    ensures j < k && FineUpTo(lines, j) && !Problem(lines, j).Done?
  {
    hide Problem;
    if FineUpTo(lines, k - 1) {
      j := k - 1;
    } else {
      j := FirstProblem(lines, k - 1);
    }
  }

  /** A parse succeeds exactly when nothing is wrong with any line, and it fails with what is wrong with the first such line. */
  lemma ParseFailsIff(lines: seq<string>)
    ensures ParseLines([], lines).Done? <==> FineUpTo(lines, |lines|)
    ensures forall k: nat :: k < |lines| && FineUpTo(lines, k) && !Problem(lines, k).Done? ==>
              SameError(ParseLines([], lines), Problem(lines, k))
  {
    hide Problem, ParseLine, SectionsOf, FineUpTo;
    forall k: nat | k < |lines| && FineUpTo(lines, k) && !Problem(lines, k).Done?
      ensures SameError(ParseLines([], lines), Problem(lines, k))
    {
      FailsAt(lines, k);
    }
    if FineUpTo(lines, |lines|) {
      var r := FinePrefix(lines, |lines|);
      assert lines[|lines|..] == [];
    } else {
      var k := FirstProblem(lines, |lines|);
    }
  }

  ghost predicate SameError(r: Outcome<Sections>, e: Outcome<()>) {
    match e
    case Done(_) => false
    case SectionTwice(name) => r == SectionTwice(name)
    case NoSection => r == NoSection
    case BadLine(line) => r == BadLine(line)
  }
}
