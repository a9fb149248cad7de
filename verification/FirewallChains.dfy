/** What the extraction of lnst/RecipeCommon/FirewallControl.py finds, said of the lines of the save, and when it raises. */
module FirewallChains {
  import opened Sequences
  import opened SplitJoin
  import opened Lines
  import opened FirewallControl

  ghost predicate TableLine(line: string) {
    line != [] && line[0] == '*'
  }

  ghost predicate ColonLine(line: string) {
    line != [] && line[0] == ':'
  }

  /** The line declares a chain; the policy is all that follows the first blank. */
  ghost predicate Declares(line: string, name: string, policy: string) {
    line == ":" + name + [SP] + policy && SP !in name
  }

  /** User-defined chains have no policy. */
  ghost predicate UserDefined(policy: string) {
    policy == "-" || (|policy| > 1 && policy[0] == '-' && policy[1] == SP)
  }

  /** The built-in chain that the line declares. */
  ghost function ChainOf(line: string): Option<string> {
    var words := Split(line, SP);
    if ColonLine(line) && |words| >= 2 && words[1] != "-" then Some(if words[0] == [] then [] else words[0][1..]) else None
  }

  lemma {:induction false} FirstWord(policy: string)
    ensures Split(policy, SP)[0] == "-" <==> UserDefined(policy)
  {
    if policy != [] {
      SplitTail(policy, SP);
      FirstWordEmpty(policy[1..]);
      var word := Split(policy[1..], SP)[0];
      assert Split(policy, SP)[0] == if policy[0] == SP then [] else [policy[0]] + word;
      assert [policy[0]] + word == "-" <==> policy[0] == '-' && word == [] by {
        assert ([policy[0]] + word)[0] == policy[0];
      }
    }
  }

  lemma FirstWordEmpty(s: string)
    ensures Split(s, SP)[0] == [] <==> s == [] || s[0] == SP
  {
  }

  lemma DeclaresWords(line: string, name: string, policy: string)
    requires Declares(line, name, policy)
    ensures Split(line, SP) == [":" + name] + Split(policy, SP)
    ensures ChainOf(line) == if UserDefined(policy) then None else Some(name)
  {
    SplitFirst(":" + name, SP, policy);
    FirstWord(policy);
    assert (":" + name)[1..] == name;
  }

  /** A line with a colon in front declares something, unless it has no blank. */
  lemma ColonDeclares(line: string) returns (name: string, policy: string)
    requires ColonLine(line) && |Split(line, SP)| >= 2
    ensures Declares(line, name, policy)
  {
    var words := Split(line, SP);
    JoinOfSplit(line, SP);
    SplitFree(line, SP);
    policy := Join(words[1..], SP);
    assert line == words[0] + [SP] + policy;
    FirstWordEmpty(line);
    assert line[0] == words[0][0];
    name := words[0][1..];
    assert words[0] == [':'] + name;
  }

  /** A built-in chain is declared exactly by a line with its name and a policy. */
  lemma ChainOfIff(line: string, name: string)
    ensures ChainOf(line) == Some(name) <==> exists policy :: Declares(line, name, policy) && !UserDefined(policy)
  {
    hide Declares, UserDefined;
    if ChainOf(line) == Some(name) {
      var n, policy := ColonDeclares(line);
      DeclaresWords(line, n, policy);
    }
    if policy :| Declares(line, name, policy) && !UserDefined(policy) {
      DeclaresWords(line, name, policy);
    }
  }

  /** The built-in chains declared by the lines up to the next table. */
  ghost function ChainsUpToTable(lines: seq<string>): seq<string>
    decreases |lines|
  {
    if lines == [] || TableLine(lines[0]) then []
    else (match ChainOf(lines[0]) case Some(c) => [c] case None => []) + ChainsUpToTable(lines[1..])
  }

  /** The current table is in the dictionary. */
  ghost predicate ScanInv(s: Scan) {
    s.cur.Some? ==> Find(s.tables, s.cur.value) < |s.tables|
  }

  lemma ScanLineInv(s: Scan, line: string)
    requires ScanInv(s) && ScanLine(s, line).Done?
    ensures ScanInv(ScanLine(s, line).value)
  {
    if TableLine(line) {
      PutFound(s.tables, line[1..], [], line[1..]);
    } else if s.cur.Some? && ChainOf(line).Some? {
      var u := s.cur.value;
      PutFound(s.tables, u, s.tables[Find(s.tables, u)].1 + [ChainOf(line).value], u);
    }
  }

  /** What is found after an entry was made. */
  lemma {:induction false} PutFound(ts: Tables, u: string, chains: seq<string>, t: string)
    ensures var r := PutTable(ts, u, chains);
            && (Find(r, t) < |r| <==> t == u || Find(ts, t) < |ts|)
            && (t == u ==> r[Find(r, t)] == (u, chains))
            && (t != u && Find(ts, t) < |ts| ==> r[Find(r, t)] == ts[Find(ts, t)])
  {
    var r, i := PutTable(ts, u, chains), Find(ts, u);
    assert forall j :: 0 <= j < |ts| && j != i ==> r[j] == ts[j];
    assert i < |r| && r[i] == (u, chains);
    if t != u && Find(ts, t) < |ts| {
      assert r[Find(ts, t)] == ts[Find(ts, t)];
    }
  }

  ghost predicate Entry(ts: Tables, t: string, chains: seq<string>) {
    Find(ts, t) < |ts| && ts[Find(ts, t)] == (t, chains)
  }

  /** What one line does to the entry of a table that it is not the line of. */
  lemma ScanLineEntry(s: Scan, line: string, t: string, chains: seq<string>)
    requires ScanInv(s) && Entry(s.tables, t, chains) && line != "*" + t && ScanLine(s, line).Done?
    ensures var s' := ScanLine(s, line).value;
            && s'.cur == (if TableLine(line) then Some(line[1..]) else s.cur)
            && Entry(s'.tables, t, chains + (if s.cur == Some(t) && ChainOf(line).Some? then [ChainOf(line).value] else []))
  {
    assert TableLine(line) || ColonLine(line) ==> !Blank(line) by {
      if TableLine(line) || ColonLine(line) { assert !IsSpace(line[0]); }
    }
    assert chains + [] == chains;
    if TableLine(line) {
      assert line == "*" + line[1..];
      PutFound(s.tables, line[1..], [], t);
    } else if ChainOf(line).Some? {
      var u := s.cur.value;
      PutFound(s.tables, u, s.tables[Find(s.tables, u)].1 + [ChainOf(line).value], t);
    }
  }

  /** Without another line of the table, its entry gets the chains up to the next table's line. */
  lemma {:induction false} ScanEntry(s: Scan, lines: seq<string>, t: string, chains: seq<string>)
    requires ScanInv(s) && Entry(s.tables, t, chains) && "*" + t !in lines && ScanLines(s, lines).Done?
    ensures Entry(ScanLines(s, lines).value.tables, t, chains + (if s.cur == Some(t) then ChainsUpToTable(lines) else []))
    decreases |lines|
  {
    hide ScanLine, ScanInv, Entry, TableLine, ChainOf;
    if lines == [] {
      assert chains + [] == chains;
    } else {
      var line, rest := lines[0], lines[1..];
      ScanLineInv(s, line);
      ScanLineEntry(s, line, t, chains);
      OtherTable(line, t);
      var s' := ScanLine(s, line).value;
      var more := if s.cur == Some(t) && ChainOf(line).Some? then [ChainOf(line).value] else [];
      assert "*" + t !in rest;
      ScanEntry(s', rest, t, chains + more);
      TableLineNoChain(line);
      assert (chains + more) + ChainsUpToTable(rest) == chains + (more + ChainsUpToTable(rest));
      assert chains + more + [] == chains + more;
      assert chains + [] == chains;
    }
  }

  lemma TableLineNoChain(line: string)
    ensures TableLine(line) ==> ChainOf(line) == None
  {
  }

  lemma OtherTable(line: string, t: string)
    requires line != "*" + t
    ensures TableLine(line) ==> line[1..] != t
  {
    if TableLine(line) {
      assert line == "*" + line[1..];
    }
  }

  // ---- The whole save ----

  lemma {:induction false} ScanLinesInv(s: Scan, lines: seq<string>)
    requires ScanInv(s) && ScanLines(s, lines).Done?
    ensures ScanInv(ScanLines(s, lines).value)
    decreases |lines|
  {
    hide ScanLine, ScanInv;
    if lines != [] {
      ScanLineInv(s, lines[0]);
      ScanLinesInv(ScanLine(s, lines[0]).value, lines[1..]);
    }
  }

  lemma OwnLine(s: Scan, t: string)
    requires ScanInv(s)
    ensures ScanLine(s, "*" + t).Done?
    ensures var s' := ScanLine(s, "*" + t).value; s'.cur == Some(t) && Entry(s'.tables, t, []) && ScanInv(s')
  {
    assert ("*" + t)[1..] == t && !IsSpace(("*" + t)[0]);
    PutFound(s.tables, t, [], t);
  }

  /**
    A table has the built-in chains that are declared between its line and the line of the next table; if it
    has several lines, those behind the last one.
   */
  lemma ChainsOfTable(text: string, t: string, k: nat)
    requires Extract(text).Done? && k < |Split(text, NL)| && Split(text, NL)[k] == "*" + t
    requires "*" + t !in Split(text, NL)[k + 1..]
    ensures Entry(Extract(text).value, t, ChainsUpToTable(Split(text, NL)[k + 1..]))
  {
    hide ScanLine, ScanInv, Entry, ChainsUpToTable;
    var lines := Split(text, NL);
    var s0 := Scan([], None);
    var before, after := lines[..k], lines[k + 1..];
    assert lines == before + (["*" + t] + after);
    StartInv();
    ScanPrefixDone(s0, before, ["*" + t] + after);
    ScanLinesAppend(s0, before, ["*" + t] + after);
    var s := ScanLines(s0, before).value;
    ScanLinesInv(s0, before);
    OwnLine(s, t);
    var s' := ScanLine(s, "*" + t).value;
    assert (["*" + t] + after)[0] == "*" + t && (["*" + t] + after)[1..] == after;
    ScanEntry(s', after, t, []);
    assert [] + ChainsUpToTable(after) == ChainsUpToTable(after);
  }

  lemma StartInv()
    ensures ScanInv(Scan([], None))
  {
  }

  lemma {:induction false} ScanPrefixDone(s: Scan, a: seq<string>, b: seq<string>)
    requires ScanLines(s, a + b).Done?
    ensures ScanLines(s, a).Done?
    decreases |a|
  {
    hide ScanLine;
    if a != [] {
      assert (a + b)[0] == a[0] && (a + b)[1..] == a[1..] + b;
      ScanPrefixDone(ScanLine(s, a[0]).value, a[1..], b);
    }
  }

  // ---- When the extraction raises ----

  /** What is wrong with line `k`: a colon line that names nothing but itself, or a built-in chain in front of all tables. */
  ghost function Problem(lines: seq<string>, k: nat): Outcome<()>
    requires k < |lines|
  {
    if ColonLine(lines[k]) && SP !in lines[k] then IndexError
    else if ChainOf(lines[k]).Some? && !TableBefore(lines, k) then KeyError
    else Done(())
  }

  ghost predicate TableBefore(lines: seq<string>, k: nat)
    requires k <= |lines|
  {
    exists j :: 0 <= j < k && TableLine(lines[j])
  }

  ghost predicate FineUpTo(lines: seq<string>, k: nat)
    requires k <= |lines|
  {
    forall j :: 0 <= j < k ==> Problem(lines, j).Done?
  }

  ghost predicate SameError<A, B>(r: Outcome<A>, e: Outcome<B>) {
    (r.IndexError? && e.IndexError?) || (r.KeyError? && e.KeyError?)
  }

  lemma {:induction false} OneWordIff(line: string)
    ensures |Split(line, SP)| < 2 <==> SP !in line
  {
    if SP !in line {
      SplitNoSeparator(line, SP);
    }
    if |Split(line, SP)| < 2 {
      JoinOfSplit(line, SP);
      SplitFree(line, SP);
      assert Split(line, SP)[0] == line;
    }
  }

  lemma NextLine(s: Scan, lines: seq<string>, k: nat)
    requires ScanInv(s) && k < |lines| && (s.cur.Some? <==> TableBefore(lines, k))
    ensures Problem(lines, k).Done? ==>
              && ScanLine(s, lines[k]).Done?
              && (ScanLine(s, lines[k]).value.cur.Some? <==> TableBefore(lines, k + 1))
    ensures !Problem(lines, k).Done? ==> SameError(ScanLine(s, lines[k]), Problem(lines, k))
  {
    var line := lines[k];
    OneWordIff(line);
    assert TableLine(line) || ColonLine(line) ==> !Blank(line) by {
      if TableLine(line) || ColonLine(line) { assert !IsSpace(line[0]); }
    }
    assert TableBefore(lines, k + 1) <==> TableBefore(lines, k) || TableLine(line);
  }

  lemma {:induction false} FinePrefix(lines: seq<string>, k: nat) returns (s: Scan)
    requires k <= |lines| && FineUpTo(lines, k)
    ensures ScanLines(Scan([], None), lines) == ScanLines(s, lines[k..]) && ScanInv(s) && (s.cur.Some? <==> TableBefore(lines, k))
  {
    hide Problem, ScanLine, ScanInv;
    if k == 0 {
      s := Scan([], None);
      StartInv();
      assert lines[0..] == lines;
    } else {
      var s0 := FinePrefix(lines, k - 1);
      assert lines[k - 1..][0] == lines[k - 1] && lines[k - 1..][1..] == lines[k..];
      NextLine(s0, lines, k - 1);
      ScanLineInv(s0, lines[k - 1]);
      s := ScanLine(s0, lines[k - 1]).value;
    }
  }

  lemma {:induction false} FirstProblem(lines: seq<string>, k: nat) returns (j: nat)
    requires k <= |lines| && !FineUpTo(lines, k)
    ensures j < k && FineUpTo(lines, j) && !Problem(lines, j).Done?
  {
    hide Problem;
    if FineUpTo(lines, k - 1) {
      j := k - 1;
    } else {
      j := FirstProblem(lines, k - 1);
    }
  }

  lemma FailsAt(text: string, k: nat)
    requires k < |Split(text, NL)| && FineUpTo(Split(text, NL), k) && !Problem(Split(text, NL), k).Done?
    ensures SameError(Extract(text), Problem(Split(text, NL), k))
  {
    hide Problem, ScanLine, ScanInv;
    var lines := Split(text, NL);
    var s := FinePrefix(lines, k);
    NextLine(s, lines, k);
    assert lines[k..][0] == lines[k];
  }

  /** The extraction succeeds exactly when nothing is wrong with any line, and it raises what is wrong with the first such line. */
  lemma ExtractFailsIff(text: string)
    ensures var lines := Split(text, NL);
            && (Extract(text).Done? <==> FineUpTo(lines, |lines|))
            && forall k: nat :: k < |lines| && FineUpTo(lines, k) && !Problem(lines, k).Done? ==> SameError(Extract(text), Problem(lines, k))
  {
    hide Problem, ScanLine, ScanInv, FineUpTo;
    var lines := Split(text, NL);
    forall k: nat | k < |lines| && FineUpTo(lines, k) && !Problem(lines, k).Done? ensures SameError(Extract(text), Problem(lines, k)) {
      FailsAt(text, k);
    }
    if FineUpTo(lines, |lines|) {
      var s := FinePrefix(lines, |lines|);
      assert lines[|lines|..] == [];
    } else {
      var k := FirstProblem(lines, |lines|);
    }
  }

  // ---- What is appended ----

  /** A line that names a table, ends one, or declares a chain that accepts. */
  ghost predicate AcceptingLine(line: string) {
    TableLine(line) || line == "COMMIT" || exists c :: line == ":" + c + " ACCEPT [0:0]"
  }

  lemma {:induction false} ChainLinesAccept(chains: seq<string>)
    ensures forall l :: l in ChainLines(chains) ==> AcceptingLine(l)
    decreases |chains|
  {
    if chains != [] {
      ChainLinesAccept(chains[1..]);
      assert AcceptingLine(":" + chains[0] + " ACCEPT [0:0]");
    }
  }

  /** Whatever is missing, the chains of an appended table have the policy to accept. */
  lemma {:induction false} AppendedLinesAccept(dst: string, ts: Tables) returns (lines: seq<string>)
    ensures AppendTables(dst, ts) == dst + Render(lines)
    ensures forall l :: l in lines ==> AcceptingLine(l)
    decreases |ts|
  {
    hide Contains, AcceptingLine, Render, BlockLines;
    lines := [];
    assert dst + Render([]) == dst by { EmptyText(); }
    if ts != [] {
      if Contains(dst, "*" + ts[0].0 + [NL]) {
        lines := AppendedLinesAccept(dst, ts[1..]);
      } else {
        var block := BlockLines(ts[0].0, ts[0].1);
        lines := AppendedLinesAccept(dst + Render(block), ts[1..]);
        RenderAppend(block, lines);
        BlockAccepts(ts[0].0, ts[0].1);
        assert dst + Render(block) + Render(lines) == dst + (Render(block) + Render(lines));
        lines := block + lines;
      }
    }
  }

  lemma EmptyText()
    ensures Render([]) == []
  {
  }

  lemma BlockAccepts(t: string, chains: seq<string>)
    ensures forall l :: l in BlockLines(t, chains) ==> AcceptingLine(l)
  {
    ChainLinesAccept(chains);
  }
}
