/** The order in which `matches` reports mappings. */
module MatchOrder {
  import opened Sequences
  import opened SortedKeys
  import opened MatchModel
  import opened SearchState
  import opened SearchOrder
  import opened SearchProgress
  import opened SearchResult
  import opened MatchPools

  // ---- The order ----

  /** The first interface of the host is on no greater port. */
  ghost predicate PortNoLater(p: Machine, x: HostMatch, y: HostMatch) {
    forall i :: IsLeast(p.interfaces.Keys, i) ==> i in x.ifs && i in y.ifs && LexLe(x.ifs[i], y.ifs[i])
  }

  /** The first host is on no greater machine, and if both have the same one, its first interface on no greater port. */
  ghost predicate HostNoLater(reqs: map<Id, Machine>, x: Mapping, y: Mapping) {
    forall h :: IsLeast(reqs.Keys, h) ==>
      && h in x.machines && h in y.machines
      && LexLe(x.machines[h].target, y.machines[h].target)
      && (!x.virtual && x.machines[h].target == y.machines[h].target ==> PortNoLater(reqs[h], x.machines[h], y.machines[h]))
  }

  /** Pools are searched from the last one to the first one. */
  ghost predicate PoolEarlier(names: seq<string>, a: string, b: string) {
    exists i, j :: 0 <= j < i < |names| && names[i] == a && names[j] == b
  }

  ghost predicate NoLater(reqs: map<Id, Machine>, names: seq<string>, x: Mapping, y: Mapping) {
    if x.poolName == y.poolName then HostNoLater(reqs, x, y) else PoolEarlier(names, x.poolName, y.poolName)
  }

  /** Each mapping is reported before all offered ones that come later in the order. */
  ghost predicate ReportedInOrder(reqs: map<Id, Machine>, pools: map<string, Pool>, names: seq<string>, virtual: bool, found: seq<Mapping>) {
    forall k, y :: 0 <= k < |found| && Offered(reqs, pools, names, virtual, y) && y !in found[..k] ==> NoLater(reqs, names, found[k], y)
  }

  /** The same for any set of mappings to be reported. */
  ghost predicate FoundInOrder(reqs: map<Id, Machine>, names: seq<string>, all: iset<Mapping>, found: seq<Mapping>) {
    forall k, y :: 0 <= k < |found| && y in all && y !in found[..k] ==> NoLater(reqs, names, found[k], y)
  }

  lemma NothingFoundInOrder(reqs: map<Id, Machine>, names: seq<string>, all: iset<Mapping>)
    ensures FoundInOrder(reqs, names, all, [])
  {
  }

  lemma FoundInOrderSnoc(reqs: map<Id, Machine>, names: seq<string>, all: iset<Mapping>, found: seq<Mapping>, m: Mapping)
    requires FoundInOrder(reqs, names, all, found)
    requires forall y :: y in all && y !in found ==> NoLater(reqs, names, m, y)
    ensures FoundInOrder(reqs, names, all, found + [m])
  {
    hide NoLater;
    var more := found + [m];
    forall k, y | 0 <= k < |more| && y in all && y !in more[..k] ensures NoLater(reqs, names, more[k], y) {
      assert more[..k] == found[..k];
      assert found[..|found|] == found;
    }
  }

  lemma OfferedInOrder(reqs: map<Id, Machine>, pools: map<string, Pool>, names: seq<string>, virtual: bool, all: iset<Mapping>, found: seq<Mapping>)
    requires FoundInOrder(reqs, names, all, found) && forall x :: x in all <==> Offered(reqs, pools, names, virtual, x)
    ensures ReportedInOrder(reqs, pools, names, virtual, found)
  {
    hide Offered, NoLater;
  }

  // ---- What the bottom frame says about a match ----

  lemma {:induction false} BottomFrame(p: Problem, fs: seq<Frame>)
    requires fs != [] && StackInv(p, fs)
    ensures FrameInv(p, [], fs[0])
  {
    if |fs| > 1 {
      BottomFrame(p, Init(fs));
    } else {
      assert Init(fs) == [];
    }
  }

  lemma {:induction false} AgreeBottom(fs: seq<Frame>, m: Match)
    requires fs != [] && Agree(fs, m)
    ensures fs[0].id in m.machines && FrameAgree(fs[0], m.machines[fs[0].id])
  {
    if |fs| > 1 {
      AgreeBottom(Init(fs), m);
    }
  }

  lemma {:induction false} AheadBottom(fs: seq<Frame>, m: Match)
    requires fs != [] && Ahead(fs, m)
    ensures fs[0].id in m.machines && FrameToFind(fs[0], true, m.machines[fs[0].id])
  {
    if |fs| > 1 {
      if Ahead(Init(fs), m) {
        AheadBottom(Init(fs), m);
      } else {
        AgreeBottom(Init(fs), m);
      }
    }
  }

  lemma {:induction false} IfAgreeBottom(gs: seq<IfFrame>, x: HostMatch)
    requires gs != [] && IfAgree(gs, x)
    ensures gs[0].ifId in x.ifs && gs[0].cur == Some(x.ifs[gs[0].ifId])
  {
    if |gs| > 1 {
      IfAgreeBottom(Init(gs), x);
    }
  }

  lemma {:induction false} IfAheadBottom(gs: seq<IfFrame>, x: HostMatch)
    requires gs != [] && IfAhead(gs, x)
    ensures gs[0].ifId in x.ifs && (gs[0].cur == Some(x.ifs[gs[0].ifId]) || x.ifs[gs[0].ifId] in gs[0].remaining)
  {
    if |gs| > 1 {
      if IfAhead(Init(gs), x) {
        IfAheadBottom(Init(gs), x);
      } else {
        IfAgreeBottom(Init(gs), x);
      }
    }
  }

  lemma NextNoLess(remaining: seq<Id>, cur: Id, next: Id)
    requires Tried(remaining, Some(cur)) && (next == cur || next in remaining)
    ensures LexLe(cur, next)
  {
    LexReflexive(cur);
  }

  /** The bottom host and its first interface, on the current path and on any path ahead. */
  lemma BottomPorts(p: Problem, f: Frame, x: HostMatch, y: HostMatch)
    requires FrameSorted(p, f) && FrameDone(p, f) && !p.virtual && f.id in p.reqs
    requires IfAgree(f.ifStack, x) && (IfAhead(f.ifStack, y) || IfAgree(f.ifStack, y))
    ensures PortNoLater(p.reqs[f.id], x, y)
  {
    var keys := p.reqs[f.id].interfaces.Keys;
    forall i | IsLeast(keys, i) ensures i in x.ifs && i in y.ifs && LexLe(x.ifs[i], y.ifs[i]) {
      LeastIsLast(keys, i);
      assert f.ifStack != [] && f.ifStack[0].ifId == i;
      IfAgreeBottom(f.ifStack, x);
      if IfAhead(f.ifStack, y) { IfAheadBottom(f.ifStack, y); } else { IfAgreeBottom(f.ifStack, y); }
      NextNoLess(f.ifStack[0].remaining, x.ifs[i], y.ifs[i]);
    }
  }

  lemma BottomNoLater(p: Problem, f: Frame, x: HostMatch, y: HostMatch)
    requires FrameInv(p, [], f) && FrameSorted(p, f) && FrameDone(p, f)
    requires FrameAgree(f, x) && FrameToFind(f, true, y)
    ensures LexLe(x.target, y.target)
    ensures !p.virtual && x.target == y.target ==> PortNoLater(p.reqs[f.id], x, y)
  {
    hide IfStackInv, IfListsInv;
    NextNoLess(f.remaining, x.target, y.target);
    if !p.virtual && x.target == y.target {
      BottomPorts(p, f, x, y);
    }
  }

  /** What is found comes no later than anything that is still ahead in the same pool. */
  lemma FoundNoLaterInPool(p: Problem, s: State, name: string, y: Mapping)
    requires Complete(p, s) && InOrder(p, s) && Sorted(p, s.stack) && s.stack != []
    requires Ahead(s.stack, Match(y.machines, y.networks))
    ensures HostNoLater(p.reqs, FoundMapping(p, name, s), y)
  {
    hide StackInv, ListsInv, FrameInv, FrameDone, FrameAgree, FrameToFind, FrameSorted, Agree, Ahead, PortNoLater;
    var x, f, m := FoundMapping(p, name, s), s.stack[0], Match(y.machines, y.networks);
    BottomFrame(p, s.stack);
    StackDoneAt(p, s.stack, 0);
    FoundAgrees(p, s.stack, x.networks);
    AgreeBottom(s.stack, Match(x.machines, x.networks));
    AheadBottom(s.stack, m);
    BottomNoLater(p, f, x.machines[f.id], y.machines[f.id]);
    forall h | IsLeast(p.reqs.Keys, h) ensures h == f.id {
      LeastIsLast(p.reqs.Keys, h);
    }
  }

  /** The pools that are left come before the present one in the list. */
  lemma PoolsEarlier(names: seq<string>, poolStack: seq<string>, name: string, other: string)
    requires poolStack + [name] <= names && other in poolStack
    ensures PoolEarlier(names, name, other)
  {
    var j :| 0 <= j < |poolStack| && poolStack[j] == other;
    assert names[|poolStack|] == (poolStack + [name])[|poolStack|] == name && names[j] == (poolStack + [name])[j] == other;
  }

  /** What is found comes no later than anything that is still ahead. */
  lemma FoundNoLater(p: Problem, pools: map<string, Pool>, names: seq<string>, poolStack: seq<string>, name: string, s: State, y: Mapping)
    requires Complete(p, s) && InOrder(p, s) && Sorted(p, s.stack) && s.stack != []
    requires poolStack + [name] <= names && name !in poolStack
    requires y in LeftOf(p, pools, poolStack, name, s.stack, false)
    ensures NoLater(p.reqs, names, FoundMapping(p, name, s), y)
  {
    hide Complete, InOrder, Sorted, Legal, HostNoLater, PoolEarlier;
    ReachedMembers(pools, poolStack);
    if y.poolName == name {
      FoundNoLaterInPool(p, s, name, y);
    } else {
      PoolsEarlier(names, poolStack, name, y.poolName);
    }
  }

  lemma NoLaterThanItself(p: Problem, names: seq<string>, name: string, s: State)
    requires Complete(p, s)
    ensures NoLater(p.reqs, names, FoundMapping(p, name, s), FoundMapping(p, name, s))
  {
    hide Complete, NetworksLegal;
    FoundIsLegal(p, s);
    var x := FoundMapping(p, name, s);
    forall h | IsLeast(p.reqs.Keys, h) ensures h in x.machines && LexLe(x.machines[h].target, x.machines[h].target)
      ensures !p.virtual ==> PortNoLater(p.reqs[h], x.machines[h], x.machines[h])
    {
      LexReflexive(x.machines[h].target);
      assert HostIfsLegal(p, h, x.machines[h]);
      forall i | i in x.machines[h].ifs ensures LexLe(x.machines[h].ifs[i], x.machines[h].ifs[i]) {
        LexReflexive(x.machines[h].ifs[i]);
      }
    }
  }

  // ---- What that comes to ----

  /** The first mapping reported from a pool has the least machine for the least host that any legal mapping of that pool has. */
  lemma LeastMachineFirst(reqs: map<Id, Machine>, pools: map<string, Pool>, names: seq<string>, virtual: bool,
                          found: seq<Mapping>, k: nat, y: Mapping, h: Id)
    requires ReportedInOrder(reqs, pools, names, virtual, found) && k < |found|
    requires forall j :: 0 <= j < k ==> found[j].poolName != found[k].poolName
    requires Offered(reqs, pools, names, virtual, y) && y.poolName == found[k].poolName && IsLeast(reqs.Keys, h)
    ensures h in found[k].machines && h in y.machines && LexLe(found[k].machines[h].target, y.machines[h].target)
  {
    hide Offered, PortNoLater;
    assert y !in found[..k];
  }

  /** Of the mappings of one pool that are reported, the first host's machine never gets less. */
  lemma MachinesAscend(reqs: map<Id, Machine>, pools: map<string, Pool>, names: seq<string>, virtual: bool,
                       found: seq<Mapping>, j: nat, k: nat, h: Id)
    requires ReportedInOrder(reqs, pools, names, virtual, found) && Enumerates(reqs, pools, names, virtual, found)
    requires j < k < |found| && found[j].poolName == found[k].poolName && IsLeast(reqs.Keys, h)
    ensures h in found[j].machines && h in found[k].machines && LexLe(found[j].machines[h].target, found[k].machines[h].target)
  {
    hide Offered, PortNoLater;
    assert found[k] in found && found[k] !in found[..j];
  }

  lemma SingleLeast(h: Id)
    ensures IsLeast({h}, h)
  {
    LexReflexive(h);
  }

  /** Two machines of the same shape for a host. */
  const PC: Machine := Machine(map[], map["if0" := Interface("net", map[])])
  const ONE_HOST: map<Id, Machine> := map["host" := PC]
  const TWO_PCS: Pool := map["m1" := PC, "m2" := PC]

  lemma FirstPcNetworks(p: Problem, x: HostMatch)
    requires p == Problem(ONE_HOST, TWO_PCS, false) && x == HostMatch("m1", map["if0" := "if0"])
    ensures NetworksLegal(p, Match(map["host" := x], map["net" := "net"]))
    ensures "m1" in TWO_PCS && TWO_PCS["m1"] == PC && "host" in ONE_HOST && ONE_HOST["host"] == PC
  {
    var machines := map["host" := x];
    assert LabelUsed(p, machines, "net") by {
      assert "host" in machines && "if0" in machines["host"].ifs && Label(p, "host", "if0") == "net";
    }
  }

  lemma FirstPcFits()
    ensures Legal(Problem(ONE_HOST, TWO_PCS, false), Match(map["host" := HostMatch("m1", map["if0" := "if0"])], map["net" := "net"]))
  {
    var p, x := Problem(ONE_HOST, TWO_PCS, false), HostMatch("m1", map["if0" := "if0"]);
    FirstPcNetworks(p, x);
    hide NetworksLegal, TWO_PCS;
    assert ONE_HOST.Keys == {"host"};
  }

  lemma FirstPcOffered() returns (y: Mapping)
    ensures Offered(ONE_HOST, map["pool" := TWO_PCS], ["pool"], false, y)
    ensures y.poolName == "pool" && "host" in y.machines && y.machines["host"].target == "m1"
  {
    y := Mapping(map["host" := HostMatch("m1", map["if0" := "if0"])], map["net" := "net"], false, "pool");
    FirstPcFits();
    hide Legal;
    assert "host" in ONE_HOST && "m1" in TWO_PCS && Last(["pool"]) == "pool";
  }

  lemma FoundPc(y: Mapping)
    requires Offered(ONE_HOST, map["pool" := TWO_PCS], ["pool"], false, y)
    ensures y.poolName == "pool" && "host" in y.machines && y.machines["host"].target in {"m1", "m2"}
  {
    hide NetworksLegal, HostIfsLegal, Reached;
    assert "host" in ONE_HOST;
  }

  lemma Greater()
    ensures !LexLe("m2", "m1")
  {
    assert "m2"[0] == "m1"[0] && "m2"[1..] == "2" && "m1"[1..] == "1";
  }

  /** One host and two machines of the same shape: the first mapping reported is that of the lesser machine. */
  lemma EqualMachinesExample(found: seq<Mapping>)
    requires found != [] && Enumerates(ONE_HOST, map["pool" := TWO_PCS], ["pool"], false, found)
    requires ReportedInOrder(ONE_HOST, map["pool" := TWO_PCS], ["pool"], false, found)
    ensures "host" in found[0].machines && found[0].machines["host"].target == "m1"
  {
    hide Offered, ReportedInOrder, LexLe, TWO_PCS;
    var y := FirstPcOffered();
    assert found[0] in found;
    FoundPc(found[0]);
    assert ONE_HOST.Keys == {"host"};
    SingleLeast("host");
    LeastMachineFirst(ONE_HOST, map["pool" := TWO_PCS], ["pool"], false, found, 0, y, "host");
    Greater();
  }
}
