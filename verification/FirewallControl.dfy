/** Completing an iptables save with the tables of another one: lnst/RecipeCommon/FirewallControl.py. */
module FirewallControl {
  import opened Sequences
  import opened SplitJoin
  import opened Lines

  const SP: char := ' '

  /** A dictionary from tables to chains, in insertion order. */
  type Tables = seq<(string, seq<string>)>

  /** What the extraction comes to: the tables, or the exception raised. */
  datatype Outcome<+T> = Done(value: T) | IndexError | KeyError

  function Find(ts: Tables, t: string): (i: nat)
    ensures i <= |ts| && (i < |ts| ==> ts[i].0 == t)
    ensures forall j :: 0 <= j < i ==> ts[j].0 != t
  {
    if ts == [] || ts[0].0 == t then 0 else 1 + Find(ts[1..], t)
  }

  function PutTable(ts: Tables, t: string, chains: seq<string>): Tables {
    var i := Find(ts, t);
    if i < |ts| then ts[i := (t, chains)] else ts + [(t, chains)]
  }

  /** The loop state: the tables so far and the current one. */
  datatype Scan = Scan(tables: Tables, cur: Option<string>)

  /** The loop body of `_extract_tables_n_chains`. */
  function ScanLine(s: Scan, line: string): Outcome<Scan> {
    if Blank(line) then Done(s)
    else if line[0] == '*' then Done(Scan(PutTable(s.tables, line[1..], []), Some(line[1..])))
    else if line[0] == ':' then
      var words := Split(line, SP);
      if |words| < 2 then IndexError
      else if words[1] == "-" then Done(s)
      else if s.cur.None? || Find(s.tables, s.cur.value) == |s.tables| then KeyError
      else
        var known := s.tables[Find(s.tables, s.cur.value)].1;
        var chain := if words[0] == [] then [] else words[0][1..];
        Done(s.(tables := PutTable(s.tables, s.cur.value, known + [chain])))
    else Done(s)
  }

  function ScanLines(s: Scan, lines: seq<string>): Outcome<Scan>
    decreases |lines|
  {
    if lines == [] then Done(s)
    else
      match ScanLine(s, lines[0])
      case Done(s') => ScanLines(s', lines[1..])
      case e => e
  }

  /** `_extract_tables_n_chains`. */
  function Extract(ruleset: string): Outcome<Tables> {
    match ScanLines(Scan([], None), Split(ruleset, NL))
    case Done(s) => Done(s.tables)
    case IndexError => IndexError
    case KeyError => KeyError
  }

  // ---- Appending ----

  const ACCEPT := " ACCEPT [0:0]"

  function BlockLines(t: string, chains: seq<string>): seq<string> {
    ["*" + t] + ChainLines(chains) + ["COMMIT"]
  }

  function ChainLines(chains: seq<string>): seq<string> {
    if chains == [] then [] else [":" + chains[0] + ACCEPT] + ChainLines(chains[1..])
  }

  predicate At(s: string, w: string, i: int) {
    0 <= i <= |s| - |w| && s[i..i + |w|] == w
  }

  /** `s.find(w) >= 0`. */
  predicate Contains(s: string, w: string) {
    exists i :: 0 <= i <= |s| && At(s, w, i)
  }

  /** The loop of `_append_missing_parts` over the extracted tables. */
  function AppendTables(dst: string, ts: Tables): string
    decreases |ts|
  {
    if ts == [] then dst
    else if Contains(dst, "*" + ts[0].0 + [NL]) then AppendTables(dst, ts[1..])
    else AppendTables(dst + Render(BlockLines(ts[0].0, ts[0].1)), ts[1..])
  }

  /** `_append_missing_parts`. */
  function AppendMissing(dst: string, src: string): Outcome<string> {
    match Extract(src)
    case Done(ts) => Done(AppendTables(dst, ts))
    case IndexError => IndexError
    case KeyError => KeyError
  }

  // ---- The loops ----

  method ExtractTablesNChains(ruleset: string) returns (out: Outcome<Tables>)
    ensures out == Extract(ruleset)
  {
    var lines := Split(ruleset, NL);
    var tables: Tables, cur := [], None;
    for i := 0 to |lines|
      invariant ScanLines(Scan(tables, cur), lines[i..]) == ScanLines(Scan([], None), lines)
    {
      var line := lines[i];
      assert lines[i..][0] == line && lines[i..][1..] == lines[i + 1..];
      if Blank(line) { continue; }
      if line[0] == '*' {
        cur := Some(line[1..]);
        tables := PutTable(tables, line[1..], []);
      } else if line[0] == ':' {
        var words := Split(line, SP);
        if |words| < 2 { return IndexError; }
        if words[1] != "-" {
          if cur.None? || Find(tables, cur.value) == |tables| { return KeyError; }
          var chain := if words[0] == [] then [] else words[0][1..];
          tables := PutTable(tables, cur.value, tables[Find(tables, cur.value)].1 + [chain]);
        }
      }
    }
    out := Done(tables);
  }

  lemma {:induction false} ChainLinesSnoc(chains: seq<string>, c: string)
    ensures Render(ChainLines(chains + [c])) == Render(ChainLines(chains)) + (":" + c + ACCEPT + [NL])
    decreases |chains|
  {
    if chains == [] {
      assert (chains + [c])[1..] == [];
      assert ChainLines([c]) == [":" + c + ACCEPT] && [":" + c + ACCEPT][1..] == [];
    } else {
      assert (chains + [c])[1..] == chains[1..] + [c];
      ChainLinesSnoc(chains[1..], c);
      var head := ":" + chains[0] + ACCEPT;
      assert ([head] + ChainLines(chains[1..] + [c]))[1..] == ChainLines(chains[1..] + [c]);
      assert ([head] + ChainLines(chains[1..]))[1..] == ChainLines(chains[1..]);
    }
  }

  lemma BlockText(t: string, chains: seq<string>)
    ensures Render(BlockLines(t, chains)) == "*" + t + [NL] + Render(ChainLines(chains)) + "COMMIT" + [NL]
  {
    RenderAppend(["*" + t] + ChainLines(chains), ["COMMIT"]);
    RenderAppend(["*" + t], ChainLines(chains));
    assert ["COMMIT"][1..] == [] && ["*" + t][1..] == [];
    assert Render(["COMMIT"]) == "COMMIT" + [NL] && Render(["*" + t]) == "*" + t + [NL];
  }

  lemma NoChains()
    ensures Render(ChainLines([])) == []
  {
  }

  /** The appending lines of the loop body. */
  method AppendBlock(dstRuleset: string, tline: string, table: string, chains: seq<string>) returns (dst: string)
    requires tline == "*" + table + [NL]
    ensures dst == dstRuleset + Render(BlockLines(table, chains))
  {
    hide Render, BlockLines;
    BlockText(table, chains);
    NoChains();
    dst := dstRuleset + tline;
    for j := 0 to |chains|
      invariant dst == dstRuleset + tline + Render(ChainLines(chains[..j]))
    {
      assert chains[..j + 1] == chains[..j] + [chains[j]];
      ChainLinesSnoc(chains[..j], chains[j]);
      dst := dst + (":" + chains[j] + ACCEPT + [NL]);
    }
    assert chains[..|chains|] == chains;
    dst := dst + ("COMMIT" + [NL]);
  }

  method AppendMissingParts(dstRuleset: string, srcRuleset: string) returns (r: Outcome<string>)
    ensures r == AppendMissing(dstRuleset, srcRuleset)
  {
    hide Contains, BlockLines, Render, Extract;
    var ts := ExtractTablesNChains(srcRuleset);
    if ts.IndexError? { return IndexError; }
    if ts.KeyError? { return KeyError; }
    var dst := dstRuleset;
    for i := 0 to |ts.value|
      invariant AppendTables(dst, ts.value[i..]) == AppendTables(dstRuleset, ts.value)
    {
      var (table, chains) := ts.value[i];
      assert ts.value[i..][0] == ts.value[i] && ts.value[i..][1..] == ts.value[i + 1..];
      var tline := "*" + table + [NL];
      if Contains(dst, tline) { continue; }
      dst := AppendBlock(dst, tline, table, chains);
    }
    r := Done(dst);
  }

  // ---- The destination stays a prefix, and appending twice is appending once ----

  lemma {:induction false} AppendKeepsPrefix(dst: string, ts: Tables)
    ensures dst <= AppendTables(dst, ts)
    decreases |ts|
  {
    if ts != [] {
      AppendKeepsPrefix(dst, ts[1..]);
      AppendKeepsPrefix(dst + Render(BlockLines(ts[0].0, ts[0].1)), ts[1..]);
    }
  }

  lemma ContainsInLonger(s: string, s': string, w: string)
    requires s <= s' && Contains(s, w)
    ensures Contains(s', w)
  {
    var i :| 0 <= i <= |s| && At(s, w, i);
    assert At(s', w, i);
  }

  lemma BlockHasTable(dst: string, t: string, chains: seq<string>)
    ensures Contains(dst + Render(BlockLines(t, chains)), "*" + t + [NL])
  {
    BlockText(t, chains);
    var w := "*" + t + [NL];
    var s := dst + Render(BlockLines(t, chains));
    assert At(s, w, |dst|);
  }

  lemma {:induction false} AllTablesThere(dst: string, ts: Tables, k: nat)
    requires k < |ts|
    ensures Contains(AppendTables(dst, ts), "*" + ts[k].0 + [NL])
    decreases |ts|
  {
    var tline := "*" + ts[0].0 + [NL];
    var dst' := if Contains(dst, tline) then dst else dst + Render(BlockLines(ts[0].0, ts[0].1));
    if k == 0 {
      BlockHasTable(dst, ts[0].0, ts[0].1);
      AppendKeepsPrefix(dst', ts[1..]);
      ContainsInLonger(dst', AppendTables(dst', ts[1..]), tline);
    } else {
      AllTablesThere(dst', ts[1..], k - 1);
    }
  }

  lemma {:induction false} NothingMissing(dst: string, ts: Tables)
    requires forall k :: 0 <= k < |ts| ==> Contains(dst, "*" + ts[k].0 + [NL])
    ensures AppendTables(dst, ts) == dst
    decreases |ts|
  {
    if ts != [] {
      assert Contains(dst, "*" + ts[0].0 + [NL]);
      NothingMissing(dst, ts[1..]);
    }
  }

  /** For a fixed source the completion keeps the destination as a prefix and is idempotent. */
  lemma AppendIdempotent(dst: string, src: string)
    requires AppendMissing(dst, src).Done?
    ensures dst <= AppendMissing(dst, src).value
    ensures AppendMissing(AppendMissing(dst, src).value, src) == AppendMissing(dst, src)
  {
    var ts := Extract(src).value;
    var once := AppendTables(dst, ts);
    AppendKeepsPrefix(dst, ts);
    forall k | 0 <= k < |ts| ensures Contains(once, "*" + ts[k].0 + [NL]) {
      AllTablesThere(dst, ts, k);
    }
    NothingMissing(once, ts);
  }

  // ---- An empty destination gets the source's skeleton ----

  ghost predicate DistinctTables(ts: Tables) {
    forall i, j :: 0 <= i < j < |ts| ==> ts[i].0 != ts[j].0
  }

  /** Names taken from lines have no line end, chains taken from words no blank. */
  ghost predicate FromLines(ts: Tables) {
    forall i :: 0 <= i < |ts| ==>
      NL !in ts[i].0 && forall j :: 0 <= j < |ts[i].1| ==> NL !in ts[i].1[j] && SP !in ts[i].1[j]
  }

  /** Table names of a well-formed save have neither stars nor blanks. */
  ghost predicate PlainNames(ts: Tables) {
    forall i :: 0 <= i < |ts| ==> '*' !in ts[i].0 && SP !in ts[i].0
  }

  lemma PutTableKeeps(ts: Tables, t: string, chains: seq<string>)
    requires DistinctTables(ts) && FromLines(ts) && NL !in t
    requires forall j :: 0 <= j < |chains| ==> NL !in chains[j] && SP !in chains[j]
    ensures DistinctTables(PutTable(ts, t, chains)) && FromLines(PutTable(ts, t, chains))
  {
  }

  lemma {:induction false} PartsWithin<T>(s: seq<T>, sep: T, x: T, k: nat)
    requires x !in s && k < |Split(s, sep)|
    ensures x !in Split(s, sep)[k]
  {
    if s != [] {
      var rest := Split(s[1..], sep);
      if s[0] == sep {
        if k > 0 { PartsWithin(s[1..], sep, x, k - 1); }
      } else {
        PartsWithin(s[1..], sep, x, k);
      }
    }
  }

  lemma ScanLineKeeps(s: Scan, line: string)
    requires DistinctTables(s.tables) && FromLines(s.tables) && NL !in line
    requires s.cur.Some? ==> NL !in s.cur.value
    ensures ScanLine(s, line).Done? ==>
      var s' := ScanLine(s, line).value;
      DistinctTables(s'.tables) && FromLines(s'.tables) && (s'.cur.Some? ==> NL !in s'.cur.value)
  {
    if !Blank(line) && line[0] == '*' {
      PutTableKeeps(s.tables, line[1..], []);
    } else if !Blank(line) && line[0] == ':' && s.cur.Some? {
      var words := Split(line, SP);
      SplitFree(line, SP);
      PartsWithin(line, SP, NL, 0);
      var i := Find(s.tables, s.cur.value);
      if i < |s.tables| {
        var chain := if words[0] == [] then [] else words[0][1..];
        PutTableKeeps(s.tables, s.cur.value, s.tables[i].1 + [chain]);
      }
    }
  }

  lemma {:induction false} ScanLinesKeep(s: Scan, lines: seq<string>)
    requires DistinctTables(s.tables) && FromLines(s.tables) && Free(lines, NL)
    requires s.cur.Some? ==> NL !in s.cur.value
    ensures ScanLines(s, lines).Done? ==>
      DistinctTables(ScanLines(s, lines).value.tables) && FromLines(ScanLines(s, lines).value.tables)
    decreases |lines|
  {
    if lines != [] {
      ScanLineKeeps(s, lines[0]);
      if ScanLine(s, lines[0]).Done? {
        ScanLinesKeep(ScanLine(s, lines[0]).value, lines[1..]);
      }
    }
  }

  lemma ExtractedTables(ruleset: string)
    requires Extract(ruleset).Done?
    ensures DistinctTables(Extract(ruleset).value) && FromLines(Extract(ruleset).value)
  {
    SplitFree(ruleset, NL);
    ScanLinesKeep(Scan([], None), Split(ruleset, NL));
  }

  // ---- Reading back rendered blocks ----

  function AllLines(ts: Tables): seq<string> {
    if ts == [] then [] else BlockLines(ts[0].0, ts[0].1) + AllLines(ts[1..])
  }

  lemma {:induction false} SplitRender(lines: seq<string>)
    requires Free(lines, NL)
    ensures Split(Render(lines), NL) == lines + [[]]
    decreases |lines|
  {
    if lines != [] {
      SplitRender(lines[1..]);
      SplitFirst(lines[0], NL, Render(lines[1..]));
      assert lines == [lines[0]] + lines[1..];
    }
  }

  lemma {:induction false} ScanLinesAppend(s: Scan, a: seq<string>, b: seq<string>)
    requires ScanLines(s, a).Done?
    ensures ScanLines(s, a + b) == ScanLines(ScanLines(s, a).value, b)
    decreases |a|
  {
    if a == [] {
      assert a + b == b;
    } else {
      assert (a + b)[0] == a[0] && (a + b)[1..] == a[1..] + b;
      ScanLinesAppend(ScanLine(s, a[0]).value, a[1..], b);
    }
  }

  lemma FindLast(ts: Tables, t: string, chains: seq<string>)
    requires Find(ts, t) == |ts|
    ensures Find(ts + [(t, chains)], t) == |ts|
  {
    var all := ts + [(t, chains)];
    assert all[|ts|].0 == t && forall j :: 0 <= j < |ts| ==> all[j] == ts[j];
  }

  lemma ThreeWords(a: string, b: string, c: string)
    requires SP !in a && SP !in b && SP !in c
    ensures Split(a + [SP] + b + [SP] + c, SP) == [a, b, c]
  {
    assert a + [SP] + b + [SP] + c == a + [SP] + (b + [SP] + c);
    SplitFirst(a, SP, b + [SP] + c);
    SplitFirst(b, SP, c);
    SplitNoSeparator(c, SP);
  }

  lemma ChainWords(c: string)
    requires SP !in c
    ensures Split(":" + c + ACCEPT, SP) == [":" + c, "ACCEPT", "[0:0]"]
  {
    hide Split;
    ThreeWords(":" + c, "ACCEPT", "[0:0]");
    assert ACCEPT == [SP] + "ACCEPT" + [SP] + "[0:0]";
    assert ":" + c + ACCEPT == ":" + c + [SP] + "ACCEPT" + [SP] + "[0:0]";
  }

  lemma ScanChain(ts: Tables, t: string, chains: seq<string>, c: string)
    requires Find(ts, t) == |ts| && SP !in c
    ensures ScanLine(Scan(ts + [(t, chains)], Some(t)), ":" + c + ACCEPT) == Done(Scan(ts + [(t, chains + [c])], Some(t)))
  {
    var line := ":" + c + ACCEPT;
    ChainWords(c);
    hide Split;
    assert line[0] == ':' && !Blank(line) by { assert !IsSpace(line[0]); }
    assert "ACCEPT" != "-" by { assert |"ACCEPT"| != |"-"|; }
    FindLast(ts, t, chains);
    assert (ts + [(t, chains)])[|ts| := (t, chains + [c])] == ts + [(t, chains + [c])];
    assert (":" + c)[1..] == c;
  }

  lemma {:induction false} ScanChains(ts: Tables, t: string, done: seq<string>, chains: seq<string>)
    requires Find(ts, t) == |ts| && forall j :: 0 <= j < |chains| ==> SP !in chains[j]
    ensures ScanLines(Scan(ts + [(t, done)], Some(t)), ChainLines(chains)) == Done(Scan(ts + [(t, done + chains)], Some(t)))
    decreases |chains|
  {
    if chains == [] {
      assert done + chains == done;
    } else {
      ScanChain(ts, t, done, chains[0]);
      ScanChains(ts, t, done + [chains[0]], chains[1..]);
      assert done + [chains[0]] + chains[1..] == done + chains;
      var head := ":" + chains[0] + ACCEPT;
      assert ([head] + ChainLines(chains[1..]))[1..] == ChainLines(chains[1..]);
    }
  }

  lemma ScanBlock(ts: Tables, cur: Option<string>, t: string, chains: seq<string>)
    requires Find(ts, t) == |ts| && forall j :: 0 <= j < |chains| ==> SP !in chains[j]
    ensures ScanLines(Scan(ts, cur), BlockLines(t, chains)) == Done(Scan(ts + [(t, chains)], Some(t)))
  {
    var head := "*" + t;
    assert !Blank(head) by { assert !IsSpace(head[0]); }
    assert head[1..] == t;
    var s1 := Scan(ts + [(t, [])], Some(t));
    assert ScanLine(Scan(ts, cur), head) == Done(s1);
    ScanChains(ts, t, [], chains);
    assert [] + chains == chains;
    ScanLinesAppend(s1, ChainLines(chains), ["COMMIT"]);
    var s2 := Scan(ts + [(t, chains)], Some(t));
    assert !Blank("COMMIT") by { assert !IsSpace("COMMIT"[0]); }
    assert ["COMMIT"][1..] == [] && ScanLines(s2, ["COMMIT"]) == Done(s2);
    var lines := BlockLines(t, chains);
    assert lines[0] == head && lines[1..] == ChainLines(chains) + ["COMMIT"];
  }

  ghost predicate NewTables(known: Tables, ts: Tables) {
    forall i :: 0 <= i < |ts| ==> Find(known, ts[i].0) == |known|
  }

  lemma NewTablesStep(known: Tables, ts: Tables)
    requires ts != [] && DistinctTables(ts) && NewTables(known, ts)
    ensures NewTables(known + [ts[0]], ts[1..])
  {
    var known' := known + [ts[0]];
    assert forall j :: 0 <= j < |known| ==> known'[j] == known[j];
    forall i | 0 <= i < |ts[1..]| ensures Find(known', ts[1..][i].0) == |known'| {
      assert ts[i + 1].0 != ts[0].0 && Find(known, ts[i + 1].0) == |known|;
    }
  }

  lemma {:induction false} ScanAll(known: Tables, cur: Option<string>, ts: Tables)
    requires DistinctTables(ts) && FromLines(ts) && NewTables(known, ts)
    ensures ScanLines(Scan(known, cur), AllLines(ts)).Done?
    ensures ScanLines(Scan(known, cur), AllLines(ts)).value.tables == known + ts
    decreases |ts|
  {
    if ts == [] {
      assert known + ts == known;
    } else {
      ScanBlock(known, cur, ts[0].0, ts[0].1);
      NewTablesStep(known, ts);
      ScanAll(known + [ts[0]], Some(ts[0].0), ts[1..]);
      assert ts[0] == (ts[0].0, ts[0].1);
      assert known + ts == known + [ts[0]] + ts[1..];
      ScanLinesAppend(Scan(known, cur), BlockLines(ts[0].0, ts[0].1), AllLines(ts[1..]));
    }
  }

  lemma {:induction false} ChainLinesFree(chains: seq<string>)
    requires forall j :: 0 <= j < |chains| ==> NL !in chains[j]
    ensures Free(ChainLines(chains), NL)
    decreases |chains|
  {
    if chains != [] {
      ChainLinesFree(chains[1..]);
      assert NL !in ACCEPT;
    }
  }

  lemma {:induction false} AllLinesFree(ts: Tables)
    requires FromLines(ts)
    ensures Free(AllLines(ts), NL)
    decreases |ts|
  {
    if ts != [] {
      AllLinesFree(ts[1..]);
      ChainLinesFree(ts[0].1);
      assert NL !in "COMMIT";
    }
  }

  lemma ExtractRendered(ts: Tables)
    requires DistinctTables(ts) && FromLines(ts)
    ensures Extract(Render(AllLines(ts))) == Done(ts)
  {
    AllLinesFree(ts);
    SplitRender(AllLines(ts));
    ScanAll([], None, ts);
    assert [] + ts == ts;
    ScanLinesAppend(Scan([], None), AllLines(ts), [[]]);
    var last: seq<string> := [""];
    assert Blank("") && last[1..] == [] && last == [[]];
  }

  // ---- No table is taken for another one ----

  ghost predicate EndsWith(s: string, w: string) {
    |w| <= |s| && s[|s| - |w|..] == w
  }

  lemma SuffixFound(s: string, w: string, i: nat)
    requires i + |w| == |s| && At(s + [NL], w + [NL], i)
    ensures EndsWith(s, w)
  {
    var v, u := s + [NL], w + [NL];
    assert v[i..i + |u|] == u;
    assert s[i..] == v[i..i + |w|] == u[..|w|] == w;
  }

  /** The line behind a text ends with what was found at its line end. */
  lemma EndOfLine(base: string, l: string, w: string)
    requires NL !in l && NL !in w && Contains(base + l + [NL], w + [NL]) && !Contains(base, w + [NL])
    ensures EndsWith(base + l, w)
  {
    var s, v := base + l + [NL], w + [NL];
    var i :| 0 <= i <= |s| && At(s, v, i);
    var e := i + |w|;
    assert s[e] == v[|w|] == NL;
    if e < |base| {
      assert base[i..i + |v|] == s[i..i + |v|];
      assert At(base, v, i);
    } else {
      assert (l + [NL])[e - |base|] == NL && e - |base| == |l|;
      assert s == base + l + [NL] && e == |base + l|;
      SuffixFound(base + l, w, i);
    }
  }

  lemma BehindLineEnd(base: string, l: string, w: string)
    requires base != [] && Last(base) == NL && NL !in w && EndsWith(base + l, w)
    ensures EndsWith(l, w)
  {
    var s := base + l;
    assert forall j :: 0 <= j < |w| ==> w[j] == s[|s| - |w| + j];
    assert s[|base| - 1] == NL;
    assert l[|l| - |w|..] == s[|s| - |w|..];
  }

  /** Where a text and its line end first occur in the lines behind another text, some line ends with the text. */
  lemma {:induction false} ContainedBehind(base: string, lines: seq<string>, w: string) returns (k: nat)
    requires Free(lines, NL) && NL !in w && Contains(base + Render(lines), w + [NL]) && !Contains(base, w + [NL])
    ensures k < |lines| && EndsWith(if k == 0 then base + lines[0] else lines[k], w)
    decreases |lines|
  {
    assert lines != [] by {
      assert base + [] == base;
    }
    var base' := base + lines[0] + [NL];
    assert base + Render(lines) == base' + Render(lines[1..]);
    if Contains(base', w + [NL]) {
      EndOfLine(base, lines[0], w);
      k := 0;
    } else {
      k := ContainedBehind(base', lines[1..], w);
      if k == 0 {
        BehindLineEnd(base', lines[1], w);
      }
      k := k + 1;
    }
  }

  /** In the same way within the lines themselves. */
  lemma ContainedEndsLine(lines: seq<string>, w: string) returns (k: nat)
    requires Free(lines, NL) && NL !in w && Contains(Render(lines), w + [NL])
    ensures k < |lines| && EndsWith(lines[k], w)
  {
    assert [] + Render(lines) == Render(lines);
    k := ContainedBehind([], lines, w);
    assert [] + lines[0] == lines[0];
  }

  lemma SuffixHead(s: string, w: string)
    requires EndsWith(s, w) && w != []
    ensures s[|s| - |w|] == w[0]
    ensures forall j :: 0 <= j < |w| ==> w[j] == s[|s| - |w| + j]
  {
  }

  lemma StarInside(t: string, t': string)
    requires EndsWith("*" + t', "*" + t) && |t| < |t'|
    ensures '*' in t'
  {
    var s, w := "*" + t', "*" + t;
    SuffixHead(s, w);
    assert s[|s| - |w|] == t'[|s| - |w| - 1];
  }

  lemma StarLineEnds(t: string, t': string)
    requires EndsWith("*" + t', "*" + t) && '*' !in t'
    ensures t == t'
  {
    var s, w := "*" + t', "*" + t;
    if |t| < |t'| {
      StarInside(t, t');
    }
    assert s == w;
    assert s[1..] == t' && w[1..] == t;
  }

  lemma ChainLineEndsHasBlank(c: string, t: string)
    requires EndsWith(":" + c + ACCEPT, "*" + t)
    ensures SP in t
  {
    var s, w := ":" + c + ACCEPT, "*" + t;
    var n := |s| - 6;
    assert s[n..] == " [0:0]";
    assert forall m :: n <= m < |s| ==> s[m] == " [0:0]"[m - n];
    assert forall m :: n <= m < |s| ==> s[m] != '*';
    SuffixHead(s, w);
    var m := |s| - |w|;
    assert m < n && w[n - m] == s[n] == SP;
    assert w[n - m] == t[n - m - 1];
  }

  lemma ChainLineEnds(c: string, t: string)
    requires SP !in t
    ensures !EndsWith(":" + c + ACCEPT, "*" + t)
  {
    if EndsWith(":" + c + ACCEPT, "*" + t) {
      ChainLineEndsHasBlank(c, t);
    }
  }

  lemma {:induction false} ChainLinesNeverEnd(chains: seq<string>, t: string, k: nat)
    requires SP !in t && k < |ChainLines(chains)|
    ensures !EndsWith(ChainLines(chains)[k], "*" + t)
    decreases |chains|
  {
    ChainLineEnds(chains[0], t);
    if k > 0 {
      ChainLinesNeverEnd(chains[1..], t, k - 1);
    }
  }

  lemma CommitNeverEnds(t: string)
    ensures !EndsWith("COMMIT", "*" + t)
  {
    assert forall m :: 0 <= m < |"COMMIT"| ==> "COMMIT"[m] != '*';
    if EndsWith("COMMIT", "*" + t) {
      SuffixHead("COMMIT", "*" + t);
    }
  }

  lemma {:induction false} OnlyOwnLineEnds(ts: Tables, t: string, k: nat)
    requires PlainNames(ts) && SP !in t && k < |AllLines(ts)| && EndsWith(AllLines(ts)[k], "*" + t)
    ensures exists i :: 0 <= i < |ts| && ts[i].0 == t
    decreases |ts|
  {
    var block := BlockLines(ts[0].0, ts[0].1);
    if k >= |block| {
      OnlyOwnLineEnds(ts[1..], t, k - |block|);
      var i :| 0 <= i < |ts[1..]| && ts[1..][i].0 == t;
      assert ts[i + 1].0 == t;
    } else if k == 0 {
      StarLineEnds(t, ts[0].0);
    } else {
      CommitNeverEnds(t);
      if k < |block| - 1 {
        ChainLinesNeverEnd(ts[0].1, t, k - 1);
      }
    }
  }

  lemma {:induction false} AllLinesAppend(a: Tables, b: Tables)
    ensures AllLines(a + b) == AllLines(a) + AllLines(b)
    decreases |a|
  {
    hide BlockLines;
    if a == [] {
      assert a + b == b;
    } else {
      AllLinesAppend(a[1..], b);
      assert (a + b)[0] == a[0] && (a + b)[1..] == a[1..] + b;
    }
  }

  /** Some rendered line of the tables ends with the line of table `t`. */
  ghost predicate Shadowed(before: Tables, t: string) {
    exists k :: 0 <= k < |AllLines(before)| && EndsWith(AllLines(before)[k], "*" + t)
  }

  lemma {:induction false} EndOfLineIsContained(lines: seq<string>, k: nat, w: string)
    requires k < |lines| && EndsWith(lines[k], w)
    ensures Contains(Render(lines), w + [NL])
    decreases |lines|
  {
    var l, rest, v := lines[0], Render(lines[1..]), w + [NL];
    var s := Render(lines);
    assert s == l + [NL] + rest;
    if k == 0 {
      var n := |l| - |w|;
      assert s[n..n + |v|] == l[n..] + [NL];
      assert At(s, v, n);
    } else {
      EndOfLineIsContained(lines[1..], k - 1, w);
      var i :| 0 <= i <= |rest| && At(rest, v, i);
      var n := |l| + 1 + i;
      assert s[n..n + |v|] == rest[i..i + |v|];
      assert At(s, v, n);
    }
  }

  /** `find` meets the table's line in the rendered blocks exactly when it ends one of their lines. */
  lemma ContainedIffShadowed(before: Tables, t: string)
    requires FromLines(before) && NL !in t
    ensures Contains(Render(AllLines(before)), "*" + t + [NL]) <==> Shadowed(before, t)
  {
    var w := "*" + t;
    assert "*" + t + [NL] == w + [NL];
    if Contains(Render(AllLines(before)), w + [NL]) {
      AllLinesFree(before);
      var k := ContainedEndsLine(AllLines(before), w);
    }
    if Shadowed(before, t) {
      var k :| 0 <= k < |AllLines(before)| && EndsWith(AllLines(before)[k], "*" + t);
      EndOfLineIsContained(AllLines(before), k, w);
    }
  }

  /** The tables that are appended behind `base` and the blocks of `before`. */
  ghost function Kept(base: string, before: Tables, ts: Tables): Tables
    decreases |ts|
  {
    if ts == [] then []
    else if Contains(base + Render(AllLines(before)), "*" + ts[0].0 + [NL]) then Kept(base, before, ts[1..])
    else [ts[0]] + Kept(base, before + [ts[0]], ts[1..])
  }

  lemma RenderOneMore(before: Tables, e: (string, seq<string>))
    ensures Render(AllLines(before + [e])) == Render(AllLines(before)) + Render(BlockLines(e.0, e.1))
  {
    AllLinesAppend(before, [e]);
    assert [e][1..] == [];
    assert AllLines([e]) == BlockLines(e.0, e.1);
    RenderAppend(AllLines(before), BlockLines(e.0, e.1));
  }

  /** The completion renders the kept tables. */
  lemma {:induction false} AppendRenders(base: string, before: Tables, ts: Tables)
    ensures AppendTables(base + Render(AllLines(before)), ts) == base + Render(AllLines(before + Kept(base, before, ts)))
    decreases |ts|
  {
    hide Contains, AllLines, Render, BlockLines;
    if ts == [] {
      assert before + Kept(base, before, ts) == before;
    } else if Contains(base + Render(AllLines(before)), "*" + ts[0].0 + [NL]) {
      AppendRenders(base, before, ts[1..]);
    } else {
      RenderOneMore(before, ts[0]);
      assert base + Render(AllLines(before + [ts[0]])) == base + Render(AllLines(before)) + Render(BlockLines(ts[0].0, ts[0].1));
      AppendRenders(base, before + [ts[0]], ts[1..]);
      assert before + Kept(base, before, ts) == before + [ts[0]] + Kept(base, before + [ts[0]], ts[1..]);
    }
  }

  /** No table of `ts` is shadowed by the tables before it. */
  ghost predicate NoneShadowed(before: Tables, ts: Tables) {
    forall j :: 0 <= j < |ts| ==> !Shadowed(before + ts[..j], ts[j].0)
  }

  lemma NoneShadowedStep(before: Tables, ts: Tables)
    requires ts != []
    ensures NoneShadowed(before, ts) <==> !Shadowed(before, ts[0].0) && NoneShadowed(before + [ts[0]], ts[1..])
  {
    var rest := ts[1..];
    assert before + ts[..0] == before;
    forall j | 0 <= j < |rest|
      ensures Shadowed(before + [ts[0]] + rest[..j], rest[j].0) == Shadowed(before + ts[..j + 1], ts[j + 1].0)
    {
      assert before + [ts[0]] + rest[..j] == before + ts[..j + 1];
    }
    if !Shadowed(before, ts[0].0) && NoneShadowed(before + [ts[0]], rest) {
      forall j | 0 <= j < |ts| ensures !Shadowed(before + ts[..j], ts[j].0) {
        if j > 0 {
          assert !Shadowed(before + [ts[0]] + rest[..j - 1], rest[j - 1].0);
        }
      }
    }
  }

  lemma WithoutFirst(before: Tables, ts: Tables)
    requires ts != [] && FromLines(before + ts) && DistinctTables(before + ts)
    ensures FromLines(before + ts[1..]) && DistinctTables(before + ts[1..])
    ensures FromLines(before) && NL !in ts[0].0
    ensures before + [ts[0]] + ts[1..] == before + ts
  {
    var all, shorter := before + ts, before + ts[1..];
    assert forall k :: 0 <= k < |shorter| ==> shorter[k] == all[if k < |before| then k else k + 1];
    assert forall k :: 0 <= k < |before| ==> before[k] == all[k];
    assert all[|before|] == ts[0];
  }

  lemma {:induction false} KeptAreTables(base: string, before: Tables, ts: Tables)
    requires FromLines(before + ts) && DistinctTables(before + ts)
    ensures FromLines(before + Kept(base, before, ts)) && DistinctTables(before + Kept(base, before, ts))
    ensures |Kept(base, before, ts)| <= |ts|
    decreases |ts|
  {
    hide FromLines, DistinctTables, Contains, AllLines, Render;
    if ts != [] {
      var one, rest := [ts[0]], ts[1..];
      WithoutFirst(before, ts);
      if Contains(base + Render(AllLines(before)), "*" + ts[0].0 + [NL]) {
        KeptAreTables(base, before, rest);
      } else {
        KeptAreTables(base, before + one, rest);
        var kept := Kept(base, before + one, rest);
        assert Kept(base, before, ts) == one + kept;
        assert before + (one + kept) == before + one + kept;
      }
    }
  }

  /** Nothing is left out exactly when the search never meets a table's line in the blocks before it. */
  lemma {:induction false} KeptAllIff(before: Tables, ts: Tables)
    requires FromLines(before + ts) && DistinctTables(before + ts)
    ensures Kept([], before, ts) == ts <==> NoneShadowed(before, ts)
    decreases |ts|
  {
    hide FromLines, DistinctTables, Contains, Shadowed;
    if ts != [] {
      WithoutFirst(before, ts);
      ContainedIffShadowed(before, ts[0].0);
      assert [] + Render(AllLines(before)) == Render(AllLines(before));
      NoneShadowedStep(before, ts);
      if Shadowed(before, ts[0].0) {
        KeptAreTables([], before, ts[1..]);
      } else {
        KeptAllIff(before + [ts[0]], ts[1..]);
        assert Kept([], before, ts) == [ts[0]] + Kept([], before + [ts[0]], ts[1..]);
        assert ts == [ts[0]] + ts[1..];
        assert Kept([], before, ts)[1..] == Kept([], before + [ts[0]], ts[1..]);
      }
    }
  }

  /**
    On an empty destination, extracting the completed text gives back exactly the tables and built-in
    chains of the source, exactly when no table's line ends a line of an earlier table's block.
   */
  lemma EmptyDestinationIff(src: string)
    requires Extract(src).Done?
    ensures AppendMissing("", src).Done?
    ensures Extract(AppendMissing("", src).value) == Extract(src) <==> NoneShadowed([], Extract(src).value)
  {
    hide Extract, Shadowed, Kept;
    var none: Tables := [];
    var ts := Extract(src).value;
    ExtractedTables(src);
    assert none + ts == ts;
    AppendRenders([], none, ts);
    KeptAreTables([], none, ts);
    assert none + Kept([], none, ts) == Kept([], none, ts);
    assert [] + Render(AllLines(none)) == [] && [] + Render(AllLines(Kept([], none, ts))) == Render(AllLines(Kept([], none, ts)));
    ExtractRendered(Kept([], none, ts));
    KeptAllIff(none, ts);
  }

  lemma PlainNamesNotShadowed(ts: Tables)
    requires PlainNames(ts) && DistinctTables(ts)
    ensures NoneShadowed([], ts)
  {
    forall j | 0 <= j < |ts| ensures !Shadowed([] + ts[..j], ts[j].0) {
      var before := [] + ts[..j];
      assert before == ts[..j];
      if Shadowed(before, ts[j].0) {
        var k :| 0 <= k < |AllLines(before)| && EndsWith(AllLines(before)[k], "*" + ts[j].0);
        OnlyOwnLineEnds(before, ts[j].0, k);
      }
    }
  }

  /** In particular when the table names have neither stars nor blanks, as in a well-formed save. */
  lemma EmptyDestination(src: string)
    requires Extract(src).Done? && PlainNames(Extract(src).value)
    ensures AppendMissing("", src).Done?
    ensures Extract(AppendMissing("", src).value) == Extract(src)
  {
    hide Extract;
    ExtractedTables(src);
    PlainNamesNotShadowed(Extract(src).value);
    EmptyDestinationIff(src);
  }

  /** A star in a table name shadows the table that the part behind it names. */
  lemma StarShadows(x: string, t: string, chains: seq<string>)
    ensures Shadowed([(x + "*" + t, chains)], t)
  {
    var lines := AllLines([(x + "*" + t, chains)]);
    assert lines[0] == "*" + (x + "*" + t);
    assert lines[0][1 + |x|..] == "*" + t;
    assert EndsWith(lines[0], "*" + t);
  }

  /** So completing an empty destination from a save with the tables "*a" and "a" loses one of them. */
  lemma StarLosesTable() returns (src: string)
    ensures src == Render(AllLines([("*a", []), ("a", [])])) && Extract(src) == Done([("*a", []), ("a", [])])
    ensures Extract(AppendMissing("", src).value) != Extract(src)
  {
    hide Extract, AppendMissing, Shadowed;
    var ts: Tables := [("*a", []), ("a", [])];
    src := Render(AllLines(ts));
    assert "*a" != "a" by { assert |"*a"| != |"a"|; }
    ExtractRendered(ts);
    EmptyDestinationIff(src);
    StarShadows("", "a", []);
    assert "" + "*" + "a" == "*a";
    assert [] + ts[..1] == [("*a", [])];
    assert ts[1].0 == "a";
  }

  // ---- A destination that has something in it ----

  ghost predicate HasTable(ts: Tables, t: string) {
    exists i :: 0 <= i < |ts| && ts[i].0 == t
  }

  lemma PutTableHas(ts: Tables, u: string, chains: seq<string>, t: string)
    ensures HasTable(PutTable(ts, u, chains), t) <==> HasTable(ts, t) || t == u
  {
    var ts' := PutTable(ts, u, chains);
    var i := Find(ts, u);
    assert forall k :: 0 <= k < |ts| && k != i ==> ts'[k] == ts[k];
    assert ts'[i].0 == u;
    if HasTable(ts, t) && t != u {
      var k :| 0 <= k < |ts| && ts[k].0 == t;
      assert ts'[k].0 == t;
    }
  }

  lemma ScanLineTable(s: Scan, line: string, t: string)
    requires ScanLine(s, line).Done?
    ensures HasTable(ScanLine(s, line).value.tables, t) <==> HasTable(s.tables, t) || line == "*" + t
  {
    hide HasTable, PutTable, Split;
    if Blank(line) {
      assert line != "*" + t by { assert !IsSpace(("*" + t)[0]); }
    } else if line[0] == '*' {
      PutTableHas(s.tables, line[1..], [], t);
      assert line == "*" + line[1..];
    } else if line[0] == ':' && s.cur.Some? {
      var i := Find(s.tables, s.cur.value);
      if i < |s.tables| && ScanLine(s, line).value != s {
        var words := Split(line, SP);
        var chain := if words[0] == [] then [] else words[0][1..];
        PutTableHas(s.tables, s.cur.value, s.tables[i].1 + [chain], t);
        assert HasTable(s.tables, s.cur.value) by { TableAt(s.tables, i); }
      }
    }
  }

  lemma TableAt(ts: Tables, i: nat)
    requires i < |ts|
    ensures HasTable(ts, ts[i].0)
  {
  }

  lemma {:induction false} ScanTables(s: Scan, lines: seq<string>, t: string)
    requires ScanLines(s, lines).Done?
    ensures HasTable(ScanLines(s, lines).value.tables, t) <==> HasTable(s.tables, t) || "*" + t in lines
    decreases |lines|
  {
    hide HasTable, ScanLine;
    if lines != [] {
      ScanLineTable(s, lines[0], t);
      ScanTables(ScanLine(s, lines[0]).value, lines[1..], t);
    }
  }

  /** The extraction finds a table exactly when some line is the table's own. */
  lemma TableFoundIff(text: string, t: string)
    requires Extract(text).Done?
    ensures HasTable(Extract(text).value, t) <==> "*" + t in Split(text, NL)
  {
    ScanTables(Scan([], None), Split(text, NL), t);
  }

  /** The text is empty or ends its last line. */
  ghost predicate Aligned(text: string) {
    text == "" || Last(text) == NL
  }

  lemma {:induction false} AlignedIff(text: string)
    ensures Aligned(text) <==> Last(Split(text, NL)) == []
    decreases |text|
  {
    if text != [] {
      AlignedIff(text[1..]);
      SplitTail(text, NL);
      assert |text| > 1 ==> Last(text[1..]) == Last(text);
    }
  }

  /** A line that is ended is found with its line end. */
  lemma {:induction false} EndedLineContained(text: string, w: string)
    requires w in Init(Split(text, NL))
    ensures Contains(text, w + [NL])
    decreases |text|
  {
    JoinOfSplit(text, NL);
    var parts := Split(text, NL);
    var k :| 0 <= k < |Init(parts)| && Init(parts)[k] == w;
    JoinContains(parts, k);
  }

  lemma {:induction false} JoinContains(parts: seq<string>, k: nat)
    requires k < |parts| - 1
    ensures Contains(Join(parts, NL), parts[k] + [NL])
    decreases |parts|
  {
    var s, rest := Join(parts, NL), Join(parts[1..], NL);
    assert s == parts[0] + [NL] + rest;
    if k == 0 {
      assert At(s, parts[0] + [NL], 0);
    } else {
      JoinContains(parts[1..], k - 1);
      var v := parts[k] + [NL];
      var i :| 0 <= i <= |rest| && At(rest, v, i);
      var n := |parts[0]| + 1 + i;
      assert s[n..n + |v|] == rest[i..i + |v|];
      assert At(s, v, n);
    }
  }

  /** The last star of a text is at `i`. */
  ghost predicate LastStar(s: string, i: int) {
    0 <= i < |s| && s[i] == '*' && forall m :: i < m < |s| ==> s[m] != '*'
  }

  lemma StarThenName(p: string, t: string)
    requires '*' !in t
    ensures LastStar(p + ("*" + t), |p|)
  {
    var s := p + ("*" + t);
    assert forall m :: |p| < m < |s| ==> s[m] == t[m - |p| - 1];
  }

  lemma SameStar(s: string, i: int, j: int)
    requires LastStar(s, i) && LastStar(s, j)
    ensures i == j
  {
  }

  /** Without stars in the names, only its own table line ends with a table's line, whatever is before it. */
  lemma MergedLineEnds(p: string, t1: string, t: string)
    requires EndsWith(p + ("*" + t1), "*" + t) && '*' !in t1 && '*' !in t
    ensures t == t1
  {
    var s := p + ("*" + t1);
    var start := |s| - |"*" + t|;
    StarThenName(p, t1);
    StarThenName(s[..start], t);
    assert s[..start] + ("*" + t) == s;
    SameStar(s, |p|, start);
    hide LastStar;
    assert s[start..] == "*" + t && s[|p|..] == "*" + t1;
    assert ("*" + t)[1..] == t && ("*" + t1)[1..] == t1;
  }

  /** `find` meets a table's line behind the blocks of other plain tables only if it is in the text before them. */
  lemma HitBehind(base: string, before: Tables, t: string)
    requires FromLines(before) && PlainNames(before) && NL !in t && SP !in t && '*' !in t && !HasTable(before, t)
    ensures Contains(base + Render(AllLines(before)), "*" + t + [NL]) <==> Contains(base, "*" + t + [NL])
  {
    var w := "*" + t;
    var text := base + Render(AllLines(before));
    assert "*" + t + [NL] == w + [NL];
    if Contains(base, w + [NL]) {
      ContainsInLonger(base, text, w + [NL]);
    } else if Contains(text, w + [NL]) {
      AllLinesFree(before);
      var k := ContainedBehind(base, AllLines(before), w);
      if k == 0 {
        assert AllLines(before)[0] == "*" + before[0].0;
        MergedLineEnds(base, before[0].0, t);
      } else {
        OnlyOwnLineEnds(before, t, k);
      }
    }
  }

  /** The kept tables are those whose line is not met in the destination. */
  lemma {:induction false} PlainKept(base: string, before: Tables, ts: Tables, t: string)
    requires FromLines(before + ts) && DistinctTables(before + ts) && PlainNames(before + ts)
    ensures HasTable(Kept(base, before, ts), t) <==> HasTable(ts, t) && !Contains(base, "*" + t + [NL])
    decreases |ts|
  {
    if ts != [] {
      WithoutFirst(before, ts);
      PlainParts(before, ts);
      hide FromLines, DistinctTables, PlainNames, Contains, HasTable;
      var here := "*" + ts[0].0 + [NL];
      HitBehind(base, before, ts[0].0);
      HasFirst(ts, t);
      if Contains(base + Render(AllLines(before)), here) {
        PlainKept(base, before, ts[1..], t);
      } else {
        PlainKept(base, before + [ts[0]], ts[1..], t);
        HasFirst(Kept(base, before, ts), t);
        assert Kept(base, before, ts)[1..] == Kept(base, before + [ts[0]], ts[1..]);
      }
    }
  }

  lemma HasFirst(ts: Tables, t: string)
    requires ts != []
    ensures HasTable(ts, t) <==> ts[0].0 == t || HasTable(ts[1..], t)
  {
    assert forall k :: 0 < k < |ts| ==> ts[k] == ts[1..][k - 1];
    assert forall k :: 0 <= k < |ts[1..]| ==> ts[1..][k] == ts[k + 1];
  }

  lemma PlainParts(before: Tables, ts: Tables)
    requires ts != [] && FromLines(before + ts) && DistinctTables(before + ts) && PlainNames(before + ts)
    ensures PlainNames(before) && PlainNames(before + ts[1..]) && !HasTable(before, ts[0].0)
    ensures SP !in ts[0].0 && '*' !in ts[0].0 && NL !in ts[0].0
  {
    var all, shorter := before + ts, before + ts[1..];
    assert forall k :: 0 <= k < |before| ==> before[k] == all[k];
    assert forall k :: 0 <= k < |shorter| ==> shorter[k] == all[if k < |before| then k else k + 1];
    assert all[|before|] == ts[0];
  }

  /** Among the lines of the blocks, a table's line is there exactly for the tables. */
  lemma {:induction false} OwnLines(ts: Tables, t: string)
    ensures "*" + t in AllLines(ts) <==> HasTable(ts, t)
    decreases |ts|
  {
    if ts != [] {
      OwnLines(ts[1..], t);
      HasFirst(ts, t);
      BlockOwnLine(ts[0].0, ts[0].1, t);
    }
  }

  lemma BlockOwnLine(u: string, chains: seq<string>, t: string)
    ensures "*" + t in BlockLines(u, chains) <==> u == t
    ensures "*" + t !in BlockLines(u, chains)[1..]
  {
    var lines := BlockLines(u, chains);
    assert lines[1..] == ChainLines(chains) + ["COMMIT"];
    assert "COMMIT"[0] != '*' && ("*" + t)[0] == '*';
    ChainLinesColon(chains, "*" + t);
    assert ("*" + t)[1..] == t && ("*" + u)[1..] == u;
    assert lines == [lines[0]] + lines[1..];
  }

  lemma {:induction false} ChainLinesColon(chains: seq<string>, w: string)
    requires w != [] && w[0] != ':'
    ensures w !in ChainLines(chains)
    decreases |chains|
  {
    if chains != [] {
      ChainLinesColon(chains[1..], w);
      assert (":" + chains[0] + ACCEPT)[0] == ':';
    }
  }

  /** Which table lines the completed text has: the ended ones of the destination, and those that are not joined to its last line. */
  lemma CompletedLines(dst: string, kept: Tables, t: string)
    requires FromLines(kept) && PlainNames(kept) && kept != [] && '*' !in t
    ensures "*" + t in Split(dst + Render(AllLines(kept)), NL) <==>
            "*" + t in Init(Split(dst, NL)) || HasTable(if Aligned(dst) then kept else kept[1..], t)
  {
    var w, p, lines := "*" + t, Split(dst, NL), AllLines(kept);
    AllLinesFree(kept);
    SplitRender(lines);
    SplitAppend(dst, Render(lines), NL);
    AlignedIff(dst);
    var merged := Last(p) + lines[0];
    var all := Init(p) + [merged] + (lines[1..] + [[]]);
    assert (lines + [[]])[1..] == lines[1..] + [[]] && (lines + [[]])[0] == lines[0];
    assert Split(dst + Render(lines), NL) == all;
    hide Split, Render, FromLines;
    assert w in all <==> w in Init(p) || w == merged || w in lines[1..] by { InParts(Init(p), merged, lines[1..], w); }
    RestOwnLine(kept, t);
    MergedOwnLine(Last(p), kept, t);
    HasFirst(kept, t);
  }

  lemma InParts(a: seq<string>, m: string, b: seq<string>, w: string)
    requires w != []
    ensures w in a + [m] + (b + [[]]) <==> w in a || w == m || w in b
  {
  }

  lemma RestOwnLine(kept: Tables, t: string)
    requires kept != []
    ensures "*" + t in AllLines(kept)[1..] <==> HasTable(kept[1..], t)
  {
    hide HasTable;
    var block := BlockLines(kept[0].0, kept[0].1);
    assert AllLines(kept)[1..] == block[1..] + AllLines(kept[1..]);
    BlockOwnLine(kept[0].0, kept[0].1, t);
    OwnLines(kept[1..], t);
  }

  /** The first table line, joined to what is left open before it. */
  lemma MergedOwnLine(open: string, kept: Tables, t: string)
    requires kept != [] && PlainNames(kept) && '*' !in t
    ensures "*" + t == open + AllLines(kept)[0] <==> open == [] && kept[0].0 == t
  {
    var w, u := "*" + t, kept[0].0;
    assert AllLines(kept)[0] == "*" + u;
    assert w[1..] == t && ("*" + u)[1..] == u;
    if w == open + ("*" + u) {
      assert EndsWith(open + ("*" + u), w);
      MergedLineEnds(open, u, t);
    }
    if open == [] {
      assert open + ("*" + u) == "*" + u;
    }
  }

  /** The search meets table `t` in the text. */
  ghost predicate Met(text: string, t: string) {
    Contains(text, "*" + t + [NL])
  }

  /** Every met table has a line of its own there, and a last line that is not ended is not followed by anything. */
  ghost predicate Completable(dst: string, ts: Tables) {
    && (forall k :: 0 <= k < |ts| && Met(dst, ts[k].0) ==> "*" + ts[k].0 in Split(dst, NL))
    && (Aligned(dst) || forall k :: 0 <= k < |ts| ==> Met(dst, ts[k].0))
  }

  lemma LinesOfUnchanged(dst: string, kept: Tables)
    requires kept == []
    ensures dst + Render(AllLines(kept)) == dst
  {
  }

  /** One table of the source, when something is appended. */
  lemma FoundAppended(dst: string, kept: Tables, t: string)
    requires FromLines(kept) && PlainNames(kept) && DistinctTables(kept) && kept != [] && '*' !in t
    requires Met(dst, t) ==> !HasTable(kept, t)
    ensures var found := "*" + t in Split(dst + Render(AllLines(kept)), NL);
            && (Met(dst, t) && found ==> "*" + t in Split(dst, NL))
            && (Aligned(dst) && (HasTable(kept, t) || "*" + t in Split(dst, NL)) ==> found)
            && (!Aligned(dst) && t == kept[0].0 && !Met(dst, t) ==> !found)
  {
    hide FromLines, PlainNames;
    CompletedLines(dst, kept, t);
    AlignedIff(dst);
    var p := Split(dst, NL);
    assert p == Init(p) + [Last(p)];
    HasFirst(kept, t);
    if "*" + t in Init(p) {
      EndedLineContained(dst, "*" + t);
    }
    assert t == kept[0].0 ==> !HasTable(kept[1..], t) by {
      assert forall k :: 0 <= k < |kept[1..]| ==> kept[1..][k] == kept[k + 1];
    }
  }

  /**
    Whatever the destination, the completed text has all tables of a source with plain names exactly
    when every table met in the destination has a line of its own there, and the destination ends its
    last line or lacks none of the tables.
   */
  lemma AllTablesFoundIff(dst: string, src: string)
    requires Extract(src).Done? && PlainNames(Extract(src).value)
    requires Extract(AppendMissing(dst, src).value).Done?
    ensures var ts, done := Extract(src).value, Extract(AppendMissing(dst, src).value).value;
            (forall k :: 0 <= k < |ts| ==> HasTable(done, ts[k].0)) <==> Completable(dst, ts)
  {
    var ts := Extract(src).value;
    var none: Tables := [];
    ExtractedTables(src);
    assert none + ts == ts && dst + Render(AllLines(none)) == dst;
    var kept := Kept(dst, none, ts);
    AppendRenders(dst, none, ts);
    assert none + kept == kept;
    var text := dst + Render(AllLines(kept));
    assert AppendMissing(dst, src).value == text;
    KeptPlain(dst, ts);
    hide Extract, FromLines, DistinctTables, PlainNames, Aligned, Met, HasTable, Split, AllLines, Render, Completable;
    forall k | 0 <= k < |ts|
      ensures HasTable(Extract(text).value, ts[k].0) <==> "*" + ts[k].0 in Split(text, NL)
      ensures HasTable(kept, ts[k].0) <==> !Met(dst, ts[k].0)
      ensures '*' !in ts[k].0
    {
      TableFoundIff(text, ts[k].0);
      PlainKeptMet(dst, ts, ts[k].0);
      TableAt(ts, k);
      PlainAt(ts, k);
    }
    if kept == [] {
      LinesOfUnchanged(dst, kept);
      EmptyHasNone(kept);
      NothingAppended(dst, ts);
    } else {
      var first := FirstKept(dst, ts);
      SomethingAppended(dst, ts, kept, first);
    }
  }

  /** All tables are met, so nothing is appended. */
  lemma NothingAppended(dst: string, ts: Tables)
    requires forall k :: 0 <= k < |ts| ==> Met(dst, ts[k].0)
    ensures Completable(dst, ts) <==> forall k :: 0 <= k < |ts| ==> "*" + ts[k].0 in Split(dst, NL)
  {
  }

  lemma SomethingAppended(dst: string, ts: Tables, kept: Tables, first: nat)
    requires FromLines(kept) && PlainNames(kept) && DistinctTables(kept) && kept != []
    requires forall k :: 0 <= k < |ts| ==> '*' !in ts[k].0 && (HasTable(kept, ts[k].0) <==> !Met(dst, ts[k].0))
    requires first < |ts| && ts[first].0 == kept[0].0 && !Met(dst, ts[first].0)
    ensures Completable(dst, ts) <==> forall k :: 0 <= k < |ts| ==> "*" + ts[k].0 in Split(dst + Render(AllLines(kept)), NL)
  {
    hide FromLines, PlainNames, DistinctTables, HasTable, Met, Split, Aligned, AllLines, Render;
    forall k | 0 <= k < |ts|
      ensures var found := "*" + ts[k].0 in Split(dst + Render(AllLines(kept)), NL);
              && (Met(dst, ts[k].0) && found ==> "*" + ts[k].0 in Split(dst, NL))
              && (Aligned(dst) && (HasTable(kept, ts[k].0) || "*" + ts[k].0 in Split(dst, NL)) ==> found)
              && (!Aligned(dst) && ts[k].0 == kept[0].0 && !Met(dst, ts[k].0) ==> !found)
    {
      FoundAppended(dst, kept, ts[k].0);
    }
  }

  lemma PlainAt(ts: Tables, k: nat)
    requires PlainNames(ts) && k < |ts|
    ensures '*' !in ts[k].0
  {
  }

  lemma PlainKeptMet(dst: string, ts: Tables, t: string)
    requires FromLines(ts) && DistinctTables(ts) && PlainNames(ts)
    ensures HasTable(Kept(dst, [], ts), t) <==> HasTable(ts, t) && !Met(dst, t)
  {
    var none: Tables := [];
    assert none + ts == ts;
    PlainKept(dst, none, ts, t);
  }

  lemma EmptyHasNone(ts: Tables)
    requires ts == []
    ensures forall t :: !HasTable(ts, t)
  {
  }

  lemma {:induction false} KeptMembers(base: string, before: Tables, ts: Tables, e: (string, seq<string>))
    requires e in Kept(base, before, ts)
    ensures e in ts
    decreases |ts|
  {
    hide Contains;
    if Contains(base + Render(AllLines(before)), "*" + ts[0].0 + [NL]) {
      KeptMembers(base, before, ts[1..], e);
    } else if e != ts[0] {
      KeptMembers(base, before + [ts[0]], ts[1..], e);
    }
  }

  lemma KeptPlain(dst: string, ts: Tables)
    requires FromLines(ts) && DistinctTables(ts) && PlainNames(ts)
    ensures var kept := Kept(dst, [], ts); FromLines(kept) && DistinctTables(kept) && PlainNames(kept)
  {
    var none: Tables := [];
    var kept := Kept(dst, none, ts);
    assert none + ts == ts && none + kept == kept;
    KeptAreTables(dst, none, ts);
    forall k | 0 <= k < |kept| ensures '*' !in kept[k].0 && SP !in kept[k].0 {
      KeptMembers(dst, none, ts, kept[k]);
    }
  }

  lemma FirstKept(dst: string, ts: Tables) returns (k: nat)
    requires FromLines(ts) && DistinctTables(ts) && PlainNames(ts) && Kept(dst, [], ts) != []
    ensures k < |ts| && ts[k].0 == Kept(dst, [], ts)[0].0 && !Met(dst, ts[k].0)
  {
    var none: Tables := [];
    var e := Kept(dst, none, ts)[0];
    assert none + ts == ts;
    KeptMembers(dst, none, ts, e);
    k :| 0 <= k < |ts| && ts[k] == e;
    PlainKept(dst, none, ts, e.0);
    TableAt(Kept(dst, none, ts), 0);
  }

  lemma OpenLineText()
    ensures Split("#" + Render(BlockLines("a", [])), NL) == ["#*a", "COMMIT", ""]
  {
    var text := "#" + Render(BlockLines("a", []));
    BlockText("a", []);
    NoChains();
    assert text == "#*a" + [NL] + ("COMMIT" + [NL] + "");
    SplitFirst("#*a", NL, "COMMIT" + [NL] + "");
    SplitFirst("COMMIT", NL, "");
  }

  /** Lines that are neither blank nor begin like a table or a chain say nothing. */
  lemma SaysNothing(s: Scan, line: string)
    requires line != [] && line[0] != '*' && line[0] != ':' && !IsSpace(line[0])
    ensures ScanLine(s, line) == Done(s)
  {
  }

  lemma OpenLineExtract(text: string)
    requires Split(text, NL) == ["#*a", "COMMIT", ""]
    ensures Extract(text) == Done([])
  {
    var s := Scan([], None);
    var l3, l2, l1 := ["#*a", "COMMIT", ""], ["COMMIT", ""], [""];
    SaysNothing(s, "#*a");
    SaysNothing(s, "COMMIT");
    assert ScanLine(s, "") == Done(s);
    hide ScanLine;
    assert l3[1..] == l2 && l2[1..] == l1 && l1[1..] == [];
  }

  /** A destination that does not end its last line swallows the first table it lacks. */
  lemma OpenLineSwallows() returns (src: string)
    ensures src == Render(AllLines([("a", [])])) && Extract(src) == Done([("a", [])])
    ensures Extract(AppendMissing("#", src).value) == Done([])
  {
    var ts: Tables := [("a", [])];
    src := Render(AllLines(ts));
    ExtractRendered(ts);
    OpenLineText();
    var text := "#" + Render(BlockLines("a", []));
    OpenLineExtract(text);
    hide Extract, Render, BlockLines;
    assert ts[1..] == [];
    assert !Contains("#", "*" + "a" + [NL]) by { assert |"*" + "a" + [NL]| > |"#"|; }
    assert AppendMissing("#", src) == Done(text);
  }

  // ---- A destination that ends its last line ----

  /** The tables that the search does not meet in the text. */
  ghost function Missing(text: string, ts: Tables): Tables
    decreases |ts|
  {
    if ts == [] then [] else (if Met(text, ts[0].0) then [] else [ts[0]]) + Missing(text, ts[1..])
  }

  lemma {:induction false} KeptIsMissing(base: string, before: Tables, ts: Tables)
    requires FromLines(before + ts) && DistinctTables(before + ts) && PlainNames(before + ts)
    ensures Kept(base, before, ts) == Missing(base, ts)
    decreases |ts|
  {
    if ts != [] {
      WithoutFirst(before, ts);
      PlainParts(before, ts);
      HitBehind(base, before, ts[0].0);
      hide FromLines, DistinctTables, PlainNames, Contains, HasTable, AllLines, Render;
      if Contains(base + Render(AllLines(before)), "*" + ts[0].0 + [NL]) {
        KeptIsMissing(base, before, ts[1..]);
      } else {
        KeptIsMissing(base, before + [ts[0]], ts[1..]);
      }
    }
  }

  /** A table that an aligned text has is met there. */
  lemma FoundIsMet(text: string, t: string)
    requires Extract(text).Done? && Aligned(text) && HasTable(Extract(text).value, t)
    ensures Met(text, t)
  {
    hide Extract, HasTable, Contains;
    TableFoundIff(text, t);
    AlignedIff(text);
    var lines := Split(text, NL);
    assert lines == Init(lines) + [Last(lines)];
    EndedLineContained(text, "*" + t);
  }

  lemma {:induction false} MissingAt(text: string, ts: Tables, k: nat)
    requires k < |Missing(text, ts)|
    ensures !Met(text, Missing(text, ts)[k].0)
    decreases |ts|
  {
    hide Met;
    var rest := Missing(text, ts[1..]);
    if Met(text, ts[0].0) {
      MissingAt(text, ts[1..], k);
    } else if k > 0 {
      MissingAt(text, ts[1..], k - 1);
    }
  }

  lemma NotFoundIsNew(known: Tables, t: string)
    ensures HasTable(known, t) || Find(known, t) == |known|
  {
    var i := Find(known, t);
    if i < |known| {
      TableAt(known, i);
    }
  }

  /** Blocks of new tables add them. */
  lemma ScanBlocks(s: Scan, kept: Tables)
    requires FromLines(kept) && DistinctTables(kept) && NewTables(s.tables, kept)
    ensures ScanLines(s, AllLines(kept) + [[]]).Done?
    ensures ScanLines(s, AllLines(kept) + [[]]).value.tables == s.tables + kept
  {
    hide FromLines, DistinctTables, NewTables, AllLines, ScanLine, ScanLines;
    ScanAll(s.tables, s.cur, kept);
    ScanLinesAppend(s, AllLines(kept), [[]]);
    EmptyLine(ScanLines(s, AllLines(kept)).value);
  }

  /** An empty line at the end changes nothing. */
  lemma ScanAligned(s: Scan, lines: seq<string>)
    requires ScanLines(s, lines + [[]]).Done?
    ensures ScanLines(s, lines) == ScanLines(s, lines + [[]])
  {
    hide ScanLine, ScanLines;
    ScanPrefix(s, lines, [[]]);
    ScanLinesAppend(s, lines, [[]]);
    EmptyLine(ScanLines(s, lines).value);
  }

  /** The scan of an aligned text followed by rendered blocks. */
  lemma ScanCompleted(dst: string, kept: Tables)
    requires Extract(dst).Done? && Aligned(dst) && FromLines(kept) && DistinctTables(kept)
    requires NewTables(Extract(dst).value, kept)
    ensures Extract(dst + Render(AllLines(kept))) == Done(Extract(dst).value + kept)
  {
    hide Split, Render, FromLines, DistinctTables, NewTables, AllLines, Aligned, ScanLine, ScanLines;
    var start, ended := Scan([], None), Init(Split(dst, NL));
    SplitCompleted(dst, kept);
    ScanAligned(start, ended);
    ScanLinesAppend(start, ended, AllLines(kept) + [[]]);
    ScanBlocks(ScanLines(start, ended).value, kept);
  }

  lemma SplitCompleted(dst: string, kept: Tables)
    requires Aligned(dst) && FromLines(kept)
    ensures Split(dst, NL) == Init(Split(dst, NL)) + [[]]
    ensures Split(dst + Render(AllLines(kept)), NL) == Init(Split(dst, NL)) + (AllLines(kept) + [[]])
  {
    var p, lines := Split(dst, NL), AllLines(kept);
    AlignedIff(dst);
    AllLinesFree(kept);
    SplitRender(lines);
    SplitAppend(dst, Render(lines), NL);
    JoinedLines(p, lines);
  }

  lemma JoinedLines(p: seq<string>, lines: seq<string>)
    requires p != [] && Last(p) == []
    ensures var f := lines + [[]]; Init(p) + [Last(p) + f[0]] + f[1..] == Init(p) + f
  {
    var f := lines + [[]];
    assert Last(p) + f[0] == f[0];
    assert [f[0]] + f[1..] == f;
  }

  lemma {:induction false} ScanPrefix(s: Scan, a: seq<string>, b: seq<string>)
    requires ScanLines(s, a + b).Done?
    ensures ScanLines(s, a).Done?
    decreases |a|
  {
    hide ScanLine;
    if a != [] {
      assert (a + b)[0] == a[0] && (a + b)[1..] == a[1..] + b;
      ScanPrefix(ScanLine(s, a[0]).value, a[1..], b);
    }
  }

  lemma EmptyLine(s: Scan)
    ensures ScanLines(s, [[]]) == Done(s)
  {
    var last: seq<string> := [""];
    assert Blank("") && last[1..] == [] && last == [[]];
  }

  /**
    Completing a destination that ends its last line: extracting the result gives the destination's
    tables with their own chains, followed by the source's missing tables with the source's chains.
   */
  lemma AlignedCompletion(dst: string, src: string)
    requires Extract(src).Done? && PlainNames(Extract(src).value) && Extract(dst).Done? && Aligned(dst)
    ensures AppendMissing(dst, src).Done?
    ensures Extract(AppendMissing(dst, src).value) == Done(Extract(dst).value + Missing(dst, Extract(src).value))
  {
    var ts, td := Extract(src).value, Extract(dst).value;
    var none: Tables := [];
    ExtractedTables(src);
    assert none + ts == ts && dst + Render(AllLines(none)) == dst;
    AppendRenders(dst, none, ts);
    KeptIsMissing(dst, none, ts);
    KeptPlain(dst, ts);
    var kept := Kept(dst, none, ts);
    assert none + kept == kept;
    assert NewTables(td, kept) by {
      hide Extract, Met, FromLines, DistinctTables, PlainNames, HasTable;
      forall k | 0 <= k < |kept| ensures Find(td, kept[k].0) == |td| {
        MissingAt(dst, ts, k);
        NotFoundIsNew(td, kept[k].0);
        if HasTable(td, kept[k].0) {
          FoundIsMet(dst, kept[k].0);
        }
      }
    }
    ScanCompleted(dst, kept);
  }
}
