/** Which mappings a drained `matches()` call is to report, over all pools, and which of them are still ahead. */
module MatchPools {
  import opened Sequences
  import opened SortedKeys
  import opened MatchModel
  import opened SearchState
  import opened SearchMoves
  import opened SearchTermination
  import opened SearchProgress
  import opened SearchResult

  /** What `get_mapping` reports, without the host names and hardware addresses it copies from the pool. */
  datatype Mapping = Mapping(machines: map<Id, HostMatch>, networks: map<string, string>, virtual: bool, poolName: string)

  // ---- Which matches a call of `matches` is to report ----

  /** The pools that the search gets to: it takes names from the end and stops at an empty pool. */
  ghost function Reached(pools: map<string, Pool>, names: seq<string>): set<string> {
    if names == [] || Last(names) !in pools || pools[Last(names)] == map[] then {}
    else Reached(pools, Init(names)) + {Last(names)}
  }

  ghost predicate LegalIn(reqs: map<Id, Machine>, pools: map<string, Pool>, virtual: bool, x: Mapping) {
    && x.virtual == virtual
    && x.poolName in pools
    && Legal(Problem(reqs, pools[x.poolName], virtual), Match(x.machines, x.networks))
  }

  /** The legal mapping `x` is in a pool that the search gets to. */
  ghost predicate Offered(reqs: map<Id, Machine>, pools: map<string, Pool>, names: seq<string>, virtual: bool, x: Mapping) {
    reqs != map[] && x.poolName in Reached(pools, names) && LegalIn(reqs, pools, virtual, x)
  }

  lemma {:induction false} ReachedMembers(pools: map<string, Pool>, names: seq<string>)
    ensures forall n :: n in Reached(pools, names) ==> n in names && n in pools
  {
    if names != [] {
      ReachedMembers(pools, Init(names));
    }
  }

  /** Without empty pools, the search gets to every pool. */
  lemma {:induction false} AllPoolsReached(pools: map<string, Pool>, names: seq<string>)
    requires forall n :: n in names ==> n in pools && pools[n] != map[]
    ensures Reached(pools, names) == Elems(names)
  {
    if names != [] {
      AllPoolsReached(pools, Init(names));
      assert names == Init(names) + [Last(names)];
      assert forall n :: n in Init(names) ==> n in names;
    }
  }

  /** An empty pool hides every pool listed before it. */
  lemma {:induction false} EmptyPoolHides(pools: map<string, Pool>, names: seq<string>, k: nat)
    requires k < |names| && NoDup(names) && names[k] in pools && pools[names[k]] == map[]
    ensures forall j :: 0 <= j <= k ==> names[j] !in Reached(pools, names)
  {
    if k < |names| - 1 {
      NoDupInit(names);
      EmptyPoolHides(pools, Init(names), k);
      forall j | 0 <= j <= k ensures names[j] !in Reached(pools, names) {
        assert Init(names)[j] == names[j];
      }
    }
  }

  /** Every legal mapping is offered, unless there are no requirements or an empty pool hides it. */
  lemma OfferedIffNotHidden(reqs: map<Id, Machine>, pools: map<string, Pool>, names: seq<string>, virtual: bool, x: Mapping)
    requires NoDup(names) && Elems(names) == pools.Keys && LegalIn(reqs, pools, virtual, x)
    ensures Offered(reqs, pools, names, virtual, x) <==>
            reqs != map[] && exists j :: 0 <= j < |names| && names[j] == x.poolName && forall k :: j <= k < |names| ==> pools[names[k]] != map[]
  {
    assert x.poolName in Elems(names);
    var j :| 0 <= j < |names| && names[j] == x.poolName;
    assert forall n :: n in names ==> n in Elems(names);
    if k :| j <= k < |names| && pools[names[k]] == map[] {
      EmptyPoolHides(pools, names, k);
    } else {
      ReachedFrom(pools, names, j);
    }
  }

  lemma {:induction false} ReachedFrom(pools: map<string, Pool>, names: seq<string>, j: nat)
    requires j < |names| && forall k :: j <= k < |names| ==> names[k] in pools && pools[names[k]] != map[]
    ensures names[j] in Reached(pools, names)
  {
    if j < |names| - 1 {
      ReachedFrom(pools, Init(names), j);
    }
  }

  /** The legal mappings still to be reported from a pool under search and from the pools not yet taken. */
  ghost function LeftOf(p: Problem, pools: map<string, Pool>, poolStack: seq<string>, name: string, fs: seq<Frame>, pend: bool): iset<Mapping> {
    iset x: Mapping | fs != [] && x.virtual == p.virtual &&
      ((x.poolName == name && Legal(p, Match(x.machines, x.networks)) && ToFind(fs, pend, Match(x.machines, x.networks))) ||
       (x.poolName in Reached(pools, poolStack) && LegalIn(p.reqs, pools, p.virtual, x)))
  }

  ghost function LeftInPools(reqs: map<Id, Machine>, pools: map<string, Pool>, poolStack: seq<string>, virtual: bool): iset<Mapping> {
    iset x: Mapping | Offered(reqs, pools, poolStack, virtual, x)
  }

  lemma SameLeft(p: Problem, pools: map<string, Pool>, poolStack: seq<string>, name: string,
                 fs: seq<Frame>, pend: bool, fs': seq<Frame>, pend': bool)
    requires Same(p, fs, pend, fs', pend') && fs != [] && fs' != []
    ensures LeftOf(p, pools, poolStack, name, fs, pend) == LeftOf(p, pools, poolStack, name, fs', pend')
  {
    var l, l' := LeftOf(p, pools, poolStack, name, fs, pend), LeftOf(p, pools, poolStack, name, fs', pend');
    forall x ensures x in l <==> x in l' {
      var m := Match(x.machines, x.networks);
      assert Legal(p, m) ==> (ToFind(fs, pend, m) <==> ToFind(fs', pend', m));
    }
  }

  /** A pool whose stack is used up leaves only the pools not yet taken. */
  lemma UsedUpLeft(p: Problem, pools: map<string, Pool>, poolStack: seq<string>, name: string, fs: seq<Frame>, pend: bool)
    requires Same(p, fs, pend, [], false) && fs != [] && p.reqs != map[]
    ensures LeftOf(p, pools, poolStack, name, fs, pend) == LeftInPools(p.reqs, pools, poolStack, p.virtual)
  {
    var l, l' := LeftOf(p, pools, poolStack, name, fs, pend), LeftInPools(p.reqs, pools, poolStack, p.virtual);
    forall x ensures x in l <==> x in l' {
      var m := Match(x.machines, x.networks);
      assert Legal(p, m) ==> (ToFind(fs, pend, m) <==> ToFind([], false, m));
    }
  }

  /** A pool just started has all its legal matches ahead. */
  lemma StartedLeft(p: Problem, pools: map<string, Pool>, poolStack: seq<string>, fs: seq<Frame>)
    requires poolStack != [] && Last(poolStack) in pools && pools[Last(poolStack)] == p.pool && p.pool != map[] && p.reqs != map[]
    requires Same(p, [], true, fs, false) && fs != []
    ensures LeftOf(p, pools, Init(poolStack), Last(poolStack), fs, false) == LeftInPools(p.reqs, pools, poolStack, p.virtual)
  {
    var l, l' := LeftOf(p, pools, Init(poolStack), Last(poolStack), fs, false), LeftInPools(p.reqs, pools, poolStack, p.virtual);
    forall x ensures x in l <==> x in l' {
      var m := Match(x.machines, x.networks);
      assert Legal(p, m) ==> (ToFind([], true, m) <==> ToFind(fs, false, m));
    }
  }

  ghost function FoundMapping(p: Problem, name: string, s: State): Mapping {
    Mapping(FoundOf(s).machines, FoundOf(s).networks, p.virtual, name)
  }

  lemma FoundIsLeft(p: Problem, pools: map<string, Pool>, poolStack: seq<string>, name: string, s: State)
    requires Complete(p, s) && s.stack != [] && name !in Reached(pools, poolStack)
    ensures FoundMapping(p, name, s) in LeftOf(p, pools, poolStack, name, s.stack, true)
    ensures FoundMapping(p, name, s) !in LeftOf(p, pools, poolStack, name, s.stack, false)
  {
    hide Inv, Legal, StackDone;
    FoundIsLegal(p, s);
    YieldTakesOne(p, s, FoundOf(s));
    var x := FoundMapping(p, name, s);
    assert FoundOf(s) == Match(x.machines, x.networks);
  }

  lemma YieldLeavesOthers(p: Problem, pools: map<string, Pool>, poolStack: seq<string>, name: string, s: State, y: Mapping)
    requires Complete(p, s) && s.stack != [] && y != FoundMapping(p, name, s)
    ensures y in LeftOf(p, pools, poolStack, name, s.stack, true) <==> y in LeftOf(p, pools, poolStack, name, s.stack, false)
  {
    var m := Match(y.machines, y.networks);
    if Legal(p, m) && y.poolName == name && y.virtual == p.virtual {
      YieldTakesOne(p, s, m);
    }
  }

  lemma YieldLeft(p: Problem, pools: map<string, Pool>, poolStack: seq<string>, name: string, s: State)
    requires Complete(p, s) && s.stack != [] && name !in Reached(pools, poolStack)
    ensures LeftOf(p, pools, poolStack, name, s.stack, true) ==
            LeftOf(p, pools, poolStack, name, s.stack, false) + iset{FoundMapping(p, name, s)}
  {
    hide Complete, Legal, LeftOf;
    FoundIsLeft(p, pools, poolStack, name, s);
    var x := FoundMapping(p, name, s);
    var l, l' := LeftOf(p, pools, poolStack, name, s.stack, true), LeftOf(p, pools, poolStack, name, s.stack, false);
    assert x in l;
    forall y ensures y in l <==> y in l' + iset{x} {
      if y != x {
        YieldLeavesOthers(p, pools, poolStack, name, s, y);
      }
    }
  }

  // ---- Starting on a pool ----

  function EligibleOf(p: Problem, ids: seq<Id>): seq<Id> {
    if ids == [] then [] else EligibleOf(p, Init(ids)) + (if MayUse(p, Last(ids)) then [Last(ids)] else [])
  }

  lemma {:induction false} EligibleOfIs(p: Problem, ids: seq<Id>)
    requires NoDup(ids)
    ensures NoDup(EligibleOf(p, ids))
    ensures forall t :: t in EligibleOf(p, ids) <==> t in ids && MayUse(p, t)
  {
    if ids != [] {
      NoDupInit(ids);
      EligibleOfIs(p, Init(ids));
      assert ids == Init(ids) + [Last(ids)];
    }
  }

  /** The usable machines of the pool, in the order `reset_match_state` lists them. */
  function EligibleMachines(p: Problem): seq<Id> {
    EligibleOf(p, SortedDesc(p.pool.Keys))
  }

  lemma EligibleMachinesIs(p: Problem)
    ensures NoDup(EligibleMachines(p)) && Elems(EligibleMachines(p)) == Usable(p)
  {
    SortedDescIsPermutation(p.pool.Keys);
    EligibleOfIs(p, SortedDesc(p.pool.Keys));
    forall t ensures t in EligibleMachines(p) <==> t in Usable(p) {
      assert t in SortedDesc(p.pool.Keys) <==> t in Elems(SortedDesc(p.pool.Keys));
    }
  }

  /** The candidates are taken from the end of the list, so the least machine comes first. */
  lemma {:induction false} EligibleOfSorted(p: Problem, ids: seq<Id>)
    requires Descending(ids)
    ensures Descending(EligibleOf(p, ids))
    ensures forall t :: t in EligibleOf(p, ids) ==> t in ids
  {
    if ids != [] {
      assert Descending(Init(ids));
      EligibleOfSorted(p, Init(ids));
      var some := EligibleOf(p, Init(ids));
      forall k | 0 <= k < |some| ensures LexLe(Last(ids), some[k]) {
        assert some[k] in Init(ids);
        var n :| 0 <= n < |Init(ids)| && Init(ids)[n] == some[k];
        assert LexLe(ids[|ids| - 1], ids[n]);
      }
    }
  }

  lemma EligibleSorted(p: Problem)
    ensures Descending(EligibleMachines(p))
  {
    SortedDescIsSorted(p.pool.Keys);
    EligibleOfSorted(p, SortedDesc(p.pool.Keys));
  }

  /** A pool switch: the empty search state carries over to the new pool. */
  lemma FreshPoolInv(p: Problem, unmatchedReqs: seq<Id>)
    requires NoDup(unmatchedReqs) && Elems(unmatchedReqs) == p.reqs.Keys && |unmatchedReqs| == |p.reqs|
    ensures Inv(p, State([], unmatchedReqs, EligibleMachines(p), map[]))
  {
    EligibleMachinesIs(p);
  }

  /** The first frame of a new pool. */
  lemma FirstPush(p: Problem, s: State)
    requires Inv(p, s) && s.stack == [] && p.reqs != map[]
    ensures s.unmatchedReqs != [] && Last(s.unmatchedReqs) in p.reqs
    ensures Inv(p, PushMachine(p, s)) && Same(p, [], true, PushMachine(p, s).stack, false)
    ensures !PendingOf(p, PushMachine(p, s).stack)
  {
    assert |s.unmatchedReqs| == |p.reqs|;
    assert |p.reqs| > 0 by { var h :| h in p.reqs; }
    LastUnmatchedRequired(p, s);
    PushMachineKeeps(p, s);
  }

  // ---- What `matches` promises ----

  /** The list has every offered mapping exactly once, and nothing else. */
  ghost predicate Enumerates(reqs: map<Id, Machine>, pools: map<string, Pool>, names: seq<string>, virtual: bool, found: seq<Mapping>) {
    NoDup(found) && forall x :: x in found <==> Offered(reqs, pools, names, virtual, x)
  }

  /** A single-match call reports one offered mapping if there is any, and turns to virtual machines only when it must. */
  ghost predicate FirstOf(reqs: map<Id, Machine>, pools: map<string, Pool>, names: seq<string>, virtual: bool, allowVirt: bool, found: seq<Mapping>) {
    && |found| <= 1
    && (found == [] ==> forall x :: !Offered(reqs, pools, names, virtual, x) && (allowVirt ==> !Offered(reqs, pools, names, true, x)))
    && (found != [] ==>
          || Offered(reqs, pools, names, virtual, found[0])
          || (allowVirt && Offered(reqs, pools, names, true, found[0]) && forall x :: !Offered(reqs, pools, names, virtual, x)))
  }

  lemma UsedUpIsFresh(p: Problem, s: State)
    requires Inv(p, s) && s.stack == []
    ensures s.net == map[] && NoDup(s.unmatchedReqs) && Elems(s.unmatchedReqs) == p.reqs.Keys && |s.unmatchedReqs| == |p.reqs|
  {
  }

  /** The pool under search was the last of `names`; without any names there is none. */
  ghost predicate Taken(pools: map<string, Pool>, names: seq<string>, poolStack: seq<string>, name: string, pool: Pool) {
    if names == [] then poolStack == [] && pool == map[]
    else poolStack == Init(names) && name == Last(names) && name in pools && pools[name] == pool
  }

  /** Starting on a pool puts everything in the pools from there on ahead of the search. */
  lemma StartLeft(p: Problem, pools: map<string, Pool>, names: seq<string>, poolStack: seq<string>, name: string, fs: seq<Frame>)
    requires Taken(pools, names, poolStack, name, p.pool)
    requires fs == [] <==> p.pool == map[] || p.reqs == map[]
    requires fs != [] ==> Same(p, [], true, fs, false)
    ensures LeftOf(p, pools, poolStack, name, fs, false) == LeftInPools(p.reqs, pools, names, p.virtual)
  {
    if fs != [] {
      StartedLeft(p, pools, names, fs);
    }
  }

  /** What one round within a pool does to the mappings still to be reported. */
  lemma RoundLeft(p: Problem, pools: map<string, Pool>, poolStack: seq<string>, name: string,
                  fs: seq<Frame>, pend: bool, fs': seq<Frame>, pend': bool)
    requires Same(p, fs, pend, fs', pend') && fs != [] && p.reqs != map[] && (fs' == [] ==> !pend')
    ensures LeftOf(p, pools, poolStack, name, fs, pend) ==
            if fs' != [] then LeftOf(p, pools, poolStack, name, fs', pend') else LeftInPools(p.reqs, pools, poolStack, p.virtual)
  {
    if fs' != [] {
      SameLeft(p, pools, poolStack, name, fs, pend, fs', pend');
    } else {
      UsedUpLeft(p, pools, poolStack, name, fs, pend);
    }
  }

  lemma NoPoolsLeft(p: Problem, pools: map<string, Pool>, name: string)
    ensures LeftOf(p, pools, [], name, [], false) == LeftInPools(p.reqs, pools, [], p.virtual)
  {
  }

  /** With requirements and without empty pools, the reported mappings are exactly the legal ones of every pool. */
  lemma AllLegalReported(reqs: map<Id, Machine>, pools: map<string, Pool>, names: seq<string>, virtual: bool, found: seq<Mapping>)
    requires NoDup(names) && Elems(names) == pools.Keys && reqs != map[]
    requires forall n :: n in pools ==> pools[n] != map[]
    requires Enumerates(reqs, pools, names, virtual, found)
    ensures forall x :: x in found <==> LegalIn(reqs, pools, virtual, x)
  {
    hide Legal;
    forall n | n in names ensures n in pools && pools[n] != map[] {
      assert n in Elems(names);
    }
    AllPoolsReached(pools, names);
  }

  /** The virtual mappings come on top of the normal ones and repeat none of them. */
  lemma PhasesDisjoint(reqs: map<Id, Machine>, pools: map<string, Pool>, names: seq<string>, normal: seq<Mapping>, virt: seq<Mapping>)
    requires Enumerates(reqs, pools, names, false, normal) && Enumerates(reqs, pools, names, true, virt)
    ensures NoDup(normal + virt)
  {
    hide Legal, Reached;
    var all := normal + virt;
    forall i, j | 0 <= i < j < |all| ensures all[i] != all[j] {
      if i < |normal| <= j {
        assert normal[i] in normal && virt[j - |normal|] in virt;
        assert !normal[i].virtual && virt[j - |normal|].virtual;
      }
    }
  }

  lemma TrivialNetworks(p: Problem, x: HostMatch)
    requires x == HostMatch("pc", map["if0" := "if0"])
    requires Label(p, "host", "if0") == "net" == NetworkOf(p, "pc", "if0")
    ensures NetworksLegal(p, Match(map["host" := x], map["net" := "net"]))
  {
    var machines := map["host" := x];
    assert LabelUsed(p, machines, "net") by {
      assert "host" in machines && "if0" in machines["host"].ifs && Label(p, "host", "if0") == "net";
    }
  }

  /** One required host with one interface and one pool machine of the same shape match. */
  lemma TrivialMatch(m: Machine, virtual: bool)
    requires !virtual && m == Machine(map[], map["if0" := Interface("net", map[])])
    ensures Legal(Problem(map["host" := m], map["pc" := m], virtual),
                  Match(map["host" := HostMatch("pc", map["if0" := "if0"])], map["net" := "net"]))
  {
    hide NetworksLegal;
    TrivialNetworks(Problem(map["host" := m], map["pc" := m], virtual), HostMatch("pc", map["if0" := "if0"]));
  }

  /** An empty pool really does hide a legal match: one host, one fitting machine, and an empty pool listed after it. */
  lemma EmptyPoolExample() returns (reqs: map<Id, Machine>, pools: map<string, Pool>, names: seq<string>, x: Mapping)
    ensures NoDup(names) && Elems(names) == pools.Keys && reqs != map[]
    ensures LegalIn(reqs, pools, false, x) && !Offered(reqs, pools, names, false, x)
  {
    hide Legal;
    var m := Machine(map[], map["if0" := Interface("net", map[])]);
    assert |"full"| != |"empty"|;
    reqs := map["host" := m];
    pools := map["full" := map["pc" := m], "empty" := map[]];
    names := ["full", "empty"];
    x := Mapping(map["host" := HostMatch("pc", map["if0" := "if0"])], map["net" := "net"], false, "full");
    TrivialMatch(m, false);
    assert "host" in reqs;
    assert Last(names) == "empty";
  }

}
