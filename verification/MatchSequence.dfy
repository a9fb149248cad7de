/** The mappings of all pools in the order in which the plain recursive search finds them. */
module MatchSequence {
  import opened Sequences
  import opened SortedKeys
  import opened MatchModel
  import opened SearchState
  import opened SearchOrder
  import opened SearchProgress
  import opened SearchResult
  import opened RecursiveSearch
  import opened SearchResume
  import opened MatchPools
  import opened MatchOrder

  function MappingsOf(ms: seq<Match>, virtual: bool, poolName: string): (xs: seq<Mapping>)
    ensures |xs| == |ms| && forall k :: 0 <= k < |ms| ==> xs[k] == Mapping(ms[k].machines, ms[k].networks, virtual, poolName)
  {
    seq(|ms|, k requires 0 <= k < |ms| => Mapping(ms[k].machines, ms[k].networks, virtual, poolName))
  }

  /** What the recursive search finds in the pools, the last one first, up to an empty one. */
  function AllMappings(reqs: map<Id, Machine>, pools: map<string, Pool>, names: seq<string>, virtual: bool): seq<Mapping> {
    if reqs == map[] || names == [] || Last(names) !in pools || pools[Last(names)] == map[] then []
    else
      var p := Problem(reqs, pools[Last(names)], virtual);
      var w := Hosts(Place(p, map[], map[], SortedDesc(reqs.Keys)), EligibleMachines(p));
      MappingsOf(w.found, virtual, Last(names)) + AllMappings(reqs, pools, Init(names), virtual)
  }

  /** What a pool under search still leads to, and then the pools not yet taken. */
  ghost function AheadOf(p: Problem, pools: map<string, Pool>, poolStack: seq<string>, name: string, s: State, pend: bool): seq<Mapping> {
    if s.stack == [] then []
    else MappingsOf(Coming(p, s, pend), p.virtual, name) + AllMappings(p.reqs, pools, poolStack, p.virtual)
  }

  /** Starting on a pool. */
  lemma StartAhead(p: Problem, pools: map<string, Pool>, names: seq<string>, poolStack: seq<string>, name: string, s: State)
    requires Taken(pools, names, poolStack, name, p.pool) && names != []
    requires s.stack == [] <==> p.pool == map[] || p.reqs == map[]
    requires s.stack != [] ==> Coming(p, s, false) == Hosts(Place(p, map[], map[], SortedDesc(p.reqs.Keys)), EligibleMachines(p)).found
    ensures AheadOf(p, pools, poolStack, name, s, false) == AllMappings(p.reqs, pools, names, p.virtual)
  {
    hide Coming, Hosts, SortedDesc, EligibleMachines;
  }

  /** A round within a pool. */
  lemma RoundAhead(p: Problem, pools: map<string, Pool>, poolStack: seq<string>, name: string, s: State, pend: bool, s': State, pend': bool)
    requires SameComing(p, s, pend, s', pend') && s.stack != []
    ensures AheadOf(p, pools, poolStack, name, s, pend) ==
            if s'.stack != [] then AheadOf(p, pools, poolStack, name, s', pend') else AllMappings(p.reqs, pools, poolStack, p.virtual)
  {
    if s'.stack == [] {
      assert Coming(p, s', pend') == [];
      assert MappingsOf([], p.virtual, name) == [];
    }
  }

  /** All that a round within a pool leaves as it was; `done` says that it ended on a complete match. */
  lemma RoundOutcome(p: Problem, pools: map<string, Pool>, poolStack: seq<string>, name: string, s0: State, pend0: bool, s: State, done: bool)
    requires Sorted(p, s0.stack) && s0.stack != [] && p.reqs != map[]
    requires if done then TopProgress(p, s0, pend0, s, true) else Advances(p, s0, pend0, s, PendingOf(p, s.stack))
    ensures var pend := done || PendingOf(p, s.stack);
            && Inv(p, s) && Sorted(p, s.stack) && (s.stack == [] ==> !done && !pend)
            && LeftOf(p, pools, poolStack, name, s0.stack, pend0) ==
               (if s.stack != [] then LeftOf(p, pools, poolStack, name, s.stack, pend) else LeftInPools(p.reqs, pools, poolStack, p.virtual))
            && AheadOf(p, pools, poolStack, name, s0, pend0) ==
               (if s.stack != [] then AheadOf(p, pools, poolStack, name, s, pend) else AllMappings(p.reqs, pools, poolStack, p.virtual))
            && WorkOf(p, s, pend) <= WorkOf(p, s0, pend0)
            && (!done ==> WorkOf(p, s, pend) < WorkOf(p, s0, pend0))
  {
    hide TopProgress, Advances, LeftOf, LeftInPools, AheadOf, AllMappings, WorkOf, Inv, Sorted, Same, SameComing;
    var pend := done || PendingOf(p, s.stack);
    if done {
      ProgressFacts(p, s0, pend0, s);
    } else {
      AdvanceFacts(p, s0, pend0, s, pend);
    }
    RoundLeft(p, pools, poolStack, name, s0.stack, pend0, s.stack, pend);
    RoundAhead(p, pools, poolStack, name, s0, pend0, s, pend);
  }

  lemma UsedUpAhead(p: Problem, pools: map<string, Pool>, name: string, s: State)
    requires s.stack == []
    ensures AheadOf(p, pools, [], name, s, false) == AllMappings(p.reqs, pools, [], p.virtual)
  {
  }

  lemma CompleteTop(p: Problem, s: State)
    requires Complete(p, s) && s.stack != []
    ensures FrameDone(p, Last(s.stack)) && (p.virtual ==> Last(s.stack).ifStack == [])
    ensures s.unmatchedReqs == [] && s.net == NetOf(p, s.stack)
  {
  }

  lemma MappingsCons(m: Match, rest: seq<Match>, virtual: bool, name: string)
    ensures MappingsOf([m] + rest, virtual, name) == [Mapping(m.machines, m.networks, virtual, name)] + MappingsOf(rest, virtual, name)
  {
  }

  /** A complete match is the first of the mappings ahead. */
  lemma YieldAhead(p: Problem, pools: map<string, Pool>, poolStack: seq<string>, name: string, s: State)
    requires Complete(p, s) && s.stack != []
    ensures AheadOf(p, pools, poolStack, name, s, true) ==
            [FoundMapping(p, name, s)] + AheadOf(p, pools, poolStack, name, s, false)
  {
    hide Complete, Coming, NetOf, FrameDone, MachinesOf, MappingsOf, AllMappings;
    CompleteTop(p, s);
    YieldComing(p, s);
    MappingsCons(FoundOf(s), Coming(p, s, false), p.virtual, name);
  }

  // ---- Collecting what is ahead ----

  /** Of the mappings ahead at the start, as a set and as a list, the reported ones and those still ahead. */
  ghost predicate Collected(reqs: map<Id, Machine>, names: seq<string>, left0: iset<Mapping>, ahead0: seq<Mapping>,
                            left: iset<Mapping>, ahead: seq<Mapping>, found: seq<Mapping>)
  {
    && NoDup(found) && (forall x :: x in left0 <==> x in found || x in left) && (forall x :: x in found ==> x !in left)
    && FoundInOrder(reqs, names, left0, found) && found + ahead == ahead0
  }

  lemma NothingCollected(reqs: map<Id, Machine>, names: seq<string>, left: iset<Mapping>, ahead: seq<Mapping>)
    ensures Collected(reqs, names, left, ahead, left, ahead, [])
  {
    assert [] + ahead == ahead;
  }

  lemma CollectOne(reqs: map<Id, Machine>, names: seq<string>, left0: iset<Mapping>, ahead0: seq<Mapping>,
                   left: iset<Mapping>, ahead: seq<Mapping>, left': iset<Mapping>, ahead': seq<Mapping>, found: seq<Mapping>, m: Mapping)
    requires Collected(reqs, names, left0, ahead0, left, ahead, found)
    requires left == left' + iset{m} && m !in left' && ahead == [m] + ahead'
    requires forall y :: y in left ==> NoLater(reqs, names, m, y)
    ensures Collected(reqs, names, left0, ahead0, left', ahead', found + [m])
  {
    hide FoundInOrder, NoLater;
    NoDupSnoc(found, m);
    FoundInOrderSnoc(reqs, names, left0, found, m);
    assert found + ([m] + ahead') == (found + [m]) + ahead';
  }

  lemma CollectedSoFar(reqs: map<Id, Machine>, names: seq<string>, left0: iset<Mapping>, ahead0: seq<Mapping>,
                       left: iset<Mapping>, ahead: seq<Mapping>, found: seq<Mapping>)
    requires Collected(reqs, names, left0, ahead0, left, ahead, found)
    ensures NoDup(found) && (forall x :: x in found ==> x in left0) && (forall x :: x in left ==> x in left0)
    ensures FoundInOrder(reqs, names, left0, found) && found <= ahead0
    ensures ahead == [] && (forall x :: x !in left) ==> found == ahead0 && forall x :: x in left0 ==> x in found
  {
    hide FoundInOrder, NoDup;
    if ahead == [] {
      assert found + [] == found;
    }
  }
}
