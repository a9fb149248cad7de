/**
  Required hosts without interfaces. Outside virtual matching `_match` pushes an interface frame for
  every host it maps, and `_push_if_stack` then has no interface to take: the search ends in an `IndexError`.
 */
module BareHosts {
  import opened Sequences
  import opened SortedKeys
  import opened MatchModel
  import opened SearchState
  import opened SearchOrder
  import opened RecursiveSearch
  import opened SearchResume
  import opened SearchProgress
  import opened SearchResult
  import opened MatchPools

  /** The host has no interfaces, and normal matching is on. */
  ghost predicate Bare(reqs: map<Id, Machine>, virtual: bool, h: Id) {
    !virtual && h in reqs && reqs[h].interfaces == map[]
  }

  ghost predicate HasBare(reqs: map<Id, Machine>, virtual: bool) {
    exists h :: Bare(reqs, virtual, h)
  }

  /** The search maps hosts in ascending order, so it gets no further than the first host without interfaces. */
  ghost predicate WithinReach(reqs: map<Id, Machine>, virtual: bool, h: Id) {
    h in reqs && forall b :: Bare(reqs, virtual, b) ==> LexLe(h, b)
  }

  ghost function Short(reqs: map<Id, Machine>, virtual: bool): map<Id, Machine> {
    map h | h in reqs && WithinReach(reqs, virtual, h) :: reqs[h]
  }

  /** The hosts behind the first one without interfaces. */
  ghost function Beyond(reqs: map<Id, Machine>, virtual: bool): set<Id> {
    reqs.Keys - Short(reqs, virtual).Keys
  }

  /** Some pool that the search gets to has a legal match of the hosts up to the first one without interfaces. */
  ghost predicate Breaks(reqs: map<Id, Machine>, pools: map<string, Pool>, names: seq<string>, virtual: bool) {
    HasBare(reqs, virtual) && exists x :: Offered(Short(reqs, virtual), pools, names, virtual, x)
  }

  lemma NothingBare(reqs: map<Id, Machine>, virtual: bool)
    requires !HasBare(reqs, virtual)
    ensures Short(reqs, virtual) == reqs && Beyond(reqs, virtual) == {}
  {
    assert forall b :: !Bare(reqs, virtual, b);
  }

  lemma {:induction false} LeastExists(reqs: map<Id, Machine>, virtual: bool, keys: set<Id>) returns (b: Id)
    requires exists h :: h in keys && Bare(reqs, virtual, h)
    ensures b in keys && Bare(reqs, virtual, b)
    ensures forall k :: k in keys && Bare(reqs, virtual, k) ==> LexLe(b, k)
    decreases |keys|
  {
    var h :| h in keys && Bare(reqs, virtual, h);
    LexTotal(h, h);
    var rest := keys - {h};
    if k :| k in rest && Bare(reqs, virtual, k) {
      b := LeastExists(reqs, virtual, rest);
      LexTotal(b, h);
      if LexLe(h, b) {
        forall j | j in keys && Bare(reqs, virtual, j) ensures LexLe(h, j) {
          if j != h { LexTransitive(h, b, j); }
        }
        b := h;
      }
    } else {
      b := h;
    }
  }

  /** The greatest host within reach is the first one without interfaces, and no other one within reach is. */
  lemma FirstBare(reqs: map<Id, Machine>, virtual: bool)
    requires HasBare(reqs, virtual)
    ensures Short(reqs, virtual) != map[]
    ensures Bare(reqs, virtual, Greatest(Short(reqs, virtual).Keys))
    ensures forall h :: h in Short(reqs, virtual) && Bare(reqs, virtual, h) ==> h == Greatest(Short(reqs, virtual).Keys)
  {
    var b0 :| Bare(reqs, virtual, b0);
    assert b0 in reqs.Keys;
    var b := LeastExists(reqs, virtual, reqs.Keys);
    var keys := Short(reqs, virtual).Keys;
    assert WithinReach(reqs, virtual, b);
    assert b in keys;
    forall h | h in keys ensures LexLe(h, b) {
      assert WithinReach(reqs, virtual, h);
    }
    GreatestUnique(keys, b, Greatest(keys));
    forall h | h in keys && Bare(reqs, virtual, h) ensures h == b {
      assert WithinReach(reqs, virtual, h) && LexLe(b, h);
      LexAntisymmetric(h, b);
    }
  }

  // ---- The order in which hosts are mapped ----

  lemma GreatestOfBoth(above: set<Id>, below: set<Id>)
    requires above != {} && forall a, b :: a in above && b in below ==> LexLe(b, a)
    ensures Greatest(above + below) == Greatest(above)
  {
    hide LexLe;
    GreatestUnique(above + below, Greatest(above), Greatest(above + below));
  }

  /** Keys above all others come first. */
  lemma {:induction false} SortedDescSplits(above: set<Id>, below: set<Id>)
    requires above !! below && forall a, b :: a in above && b in below ==> LexLe(b, a)
    ensures SortedDesc(above + below) == SortedDesc(above) + SortedDesc(below)
    decreases |above|
  {
    hide LexLe, IsGreatest;
    if above == {} {
      assert above + below == below;
    } else {
      var g := Greatest(above);
      GreatestOfBoth(above, below);
      assert g in above by { GreatestMember(above); }
      assert (above + below) - {g} == (above - {g}) + below;
      SortedDescSplits(above - {g}, below);
    }
  }

  /** The sorted hosts are those behind the first one without interfaces, and those within reach. */
  lemma HostsInOrder(reqs: map<Id, Machine>, virtual: bool)
    ensures SortedDesc(reqs.Keys) == SortedDesc(Beyond(reqs, virtual)) + SortedDesc(Short(reqs, virtual).Keys)
  {
    var above, below := Beyond(reqs, virtual), Short(reqs, virtual).Keys;
    forall a, b | a in above && b in below ensures LexLe(b, a) {
      var h :| Bare(reqs, virtual, h) && !LexLe(a, h);
      LexTotal(a, h);
      assert WithinReach(reqs, virtual, b);
      LexTransitive(b, h, a);
    }
    SortedDescSplits(above, below);
    assert above + below == reqs.Keys;
  }

  // ---- A legal match of all hosts has one of the hosts within reach in it ----

  ghost function Restricted(p: Problem, q: Problem, m: Match): Match {
    var machines := map h | h in m.machines && h in q.reqs :: m.machines[h];
    Match(machines, map l | l in m.networks && LabelUsed(q, machines, l) :: m.networks[l])
  }

  ghost predicate SubProblem(q: Problem, p: Problem) {
    q.pool == p.pool && q.virtual == p.virtual && forall h :: h in q.reqs ==> h in p.reqs && q.reqs[h] == p.reqs[h]
  }

  lemma RestrictedHosts(p: Problem, q: Problem, m: Match)
    requires HostsLegal(p, m.machines) && SubProblem(q, p)
    ensures HostsLegal(q, Restricted(p, q, m).machines)
  {
    var ms := Restricted(p, q, m).machines;
    assert ms.Keys == q.reqs.Keys;
    assert forall t :: MayUse(p, t) <==> MayUse(q, t);
    assert forall h :: h in ms ==> ms[h] == m.machines[h];
  }

  /** On the hosts of the smaller problem, labels and interfaces are those of the greater one. */
  lemma SameLabels(p: Problem, q: Problem, h: Id)
    requires SubProblem(q, p) && h in q.reqs
    ensures ReqIfs(q, h) == ReqIfs(p, h)
    ensures forall i :: Label(q, h, i) == Label(p, h, i)
    ensures forall t, i :: NetworkOf(q, t, i) == NetworkOf(p, t, i)
  {
  }

  lemma RestrictedIfs(p: Problem, q: Problem, h: Id, x: HostMatch)
    requires SubProblem(q, p) && h in q.reqs && HostIfsLegal(p, h, x)
    ensures HostIfsLegal(q, h, x)
  {
    SameLabels(p, q, h);
    forall i | i in x.ifs ensures IfParamsFit(q, h, i, x.target, x.ifs[i]) {
      assert IfParamsFit(p, h, i, x.target, x.ifs[i]);
    }
  }

  lemma RestrictedNetworks(p: Problem, q: Problem, m: Match)
    requires NetworksLegal(p, m) && SubProblem(q, p)
    ensures NetworksLegal(q, Restricted(p, q, m))
  {
    hide SubProblem, Label, NetworkOf;
    var r := Restricted(p, q, m);
    forall h, i | h in r.machines && i in r.machines[h].ifs
      ensures Label(q, h, i) in r.networks
      ensures r.networks[Label(q, h, i)] == NetworkOf(q, r.machines[h].target, r.machines[h].ifs[i])
    {
      SameLabels(p, q, h);
      assert LabelUsed(q, r.machines, Label(q, h, i));
    }
  }

  lemma RestrictedIsLegal(p: Problem, q: Problem, m: Match)
    requires Legal(p, m) && SubProblem(q, p)
    ensures Legal(q, Restricted(p, q, m))
  {
    RestrictedNetworks(p, q, m);
    RestrictedHosts(p, q, m);
    hide NetworksLegal, HostsLegal, SubProblem, HostIfsLegal;
    var r := Restricted(p, q, m);
    forall h | h in r.machines ensures HostIfsLegal(q, h, r.machines[h]) {
      RestrictedIfs(p, q, h, m.machines[h]);
    }
  }

  lemma ShortIsPart(reqs: map<Id, Machine>, pool: Pool, virtual: bool)
    ensures SubProblem(Problem(Short(reqs, virtual), pool, virtual), Problem(reqs, pool, virtual))
  {
  }

  /** Whenever there is a legal mapping to report and a host without interfaces, the search breaks. */
  lemma OfferedBreaks(reqs: map<Id, Machine>, pools: map<string, Pool>, names: seq<string>, virtual: bool, x: Mapping)
    requires HasBare(reqs, virtual) && Offered(reqs, pools, names, virtual, x)
    ensures Breaks(reqs, pools, names, virtual)
  {
    var p, q := Problem(reqs, pools[x.poolName], virtual), Problem(Short(reqs, virtual), pools[x.poolName], virtual);
    ShortIsPart(reqs, pools[x.poolName], virtual);
    RestrictedIsLegal(p, q, Match(x.machines, x.networks));
    FirstBare(reqs, virtual);
    var m := Restricted(p, q, Match(x.machines, x.networks));
    hide Legal;
    assert Offered(Short(reqs, virtual), pools, names, virtual, Mapping(m.machines, m.networks, virtual, x.poolName));
  }

  // ---- What the stack says about hosts without interfaces ----

  /** Outside virtual matching every mapped host has interfaces. */
  ghost predicate NoneBare(p: Problem, fs: seq<Frame>) {
    p.virtual || forall k :: 0 <= k < |fs| && fs[k].cur.Some? ==> ReqIfs(p, fs[k].id) != map[]
  }

  lemma NoneBareTop(p: Problem, fs: seq<Frame>, fs': seq<Frame>)
    requires NoneBare(p, fs) && fs != [] && fs' != [] && Init(fs') == Init(fs)
    requires p.virtual || Last(fs').cur.None? || ReqIfs(p, Last(fs').id) != map[]
    ensures NoneBare(p, fs')
  {
    forall k | 0 <= k < |fs'| && fs'[k].cur.Some? ensures p.virtual || ReqIfs(p, fs'[k].id) != map[] {
      if k < |fs'| - 1 {
        assert fs'[k] == Init(fs')[k] == Init(fs)[k] == fs[k];
      }
    }
  }

  /** The problem is that of the hosts within reach. */
  ghost predicate IsShort(reqs: map<Id, Machine>, p: Problem) {
    p.reqs == Short(reqs, p.virtual)
  }

  lemma ShortBare(reqs: map<Id, Machine>, p: Problem)
    requires IsShort(reqs, p) && HasBare(reqs, p.virtual)
    ensures |SortedDesc(p.reqs.Keys)| > 0 && Bare(reqs, p.virtual, SortedDesc(p.reqs.Keys)[0])
    ensures ReqIfs(p, SortedDesc(p.reqs.Keys)[0]) == map[]
    ensures forall h :: h in p.reqs && ReqIfs(p, h) == map[] ==> h == SortedDesc(p.reqs.Keys)[0]
  {
    FirstBare(reqs, p.virtual);
    assert Greatest(p.reqs.Keys) in p.reqs.Keys;
    forall h | h in p.reqs && ReqIfs(p, h) == map[] ensures h == Greatest(p.reqs.Keys) {
      assert Bare(reqs, p.virtual, h);
    }
  }

  /** When all hosts within reach are matched with their interfaces, no required host is without. */
  lemma AllMatchedNoneBare(reqs: map<Id, Machine>, p: Problem, s: State)
    requires IsShort(reqs, p) && InOrder(p, s) && StackDone(p, s.stack) && NoneBare(p, s.stack) && s.unmatchedReqs == []
    ensures !HasBare(reqs, p.virtual)
  {
    if HasBare(reqs, p.virtual) {
      ShortBare(reqs, p);
      var top := |s.stack| - 1;
      StackDoneAt(p, s.stack, top);
    }
  }

  /** When a host without interfaces gets mapped, all hosts within reach are on the stack. */
  lemma BareIsLast(reqs: map<Id, Machine>, p: Problem, s: State)
    requires IsShort(reqs, p) && InOrder(p, s) && s.stack != [] && !p.virtual
    requires Last(s.stack).id in p.reqs && ReqIfs(p, Last(s.stack).id) == map[]
    ensures HasBare(reqs, p.virtual) && s.unmatchedReqs == []
  {
    var order := SortedDesc(p.reqs.Keys);
    assert Bare(reqs, p.virtual, Last(s.stack).id);
    ShortBare(reqs, p);
    SortedDescIsPermutation(p.reqs.Keys);
    assert order[|order| - |s.stack|] == order[0];
  }

  /** There is a host within reach exactly when there is one at all. */
  lemma ShortEmptyIff(reqs: map<Id, Machine>, virtual: bool)
    ensures Short(reqs, virtual) == map[] <==> reqs == map[]
  {
    if HasBare(reqs, virtual) {
      FirstBare(reqs, virtual);
    } else {
      NothingBare(reqs, virtual);
    }
  }

  lemma NoneBareInit(p: Problem, fs: seq<Frame>)
    requires fs != [] && NoneBare(p, fs)
    ensures NoneBare(p, Init(fs))
  {
  }

  /** Matching the interfaces of the top host leaves its machine as it is. */
  lemma NoneBareMatched(p: Problem, fs: seq<Frame>, fs': seq<Frame>)
    requires NoneBare(p, fs) && fs != [] && fs' != [] && Init(fs') == Init(fs)
    requires Last(fs').id == Last(fs).id && (p.virtual || Last(fs').cur == Last(fs).cur)
    ensures NoneBare(p, fs')
  {
    if !p.virtual && Last(fs).cur.Some? {
      assert ReqIfs(p, fs[|fs| - 1].id) != map[];
    }
    NoneBareTop(p, fs, fs');
  }

  lemma NoneBarePush(p: Problem, s: State)
    requires NoneBare(p, s.stack) && s.unmatchedReqs != []
    ensures NoneBare(p, PushMachine(p, s).stack)
  {
    NoneBareSnoc(p, s.stack, Last(PushMachine(p, s).stack));
  }

  lemma NoneBareSnoc(p: Problem, fs: seq<Frame>, f: Frame)
    requires NoneBare(p, fs) && f.cur.None?
    ensures NoneBare(p, fs + [f])
  {
  }

  /** The search of a pool before and after its first host is pushed. */
  lemma FreshPool(p: Problem, s: State)
    requires s == State([], SortedDesc(p.reqs.Keys), EligibleMachines(p), map[])
    ensures Inv(p, s) && InOrder(p, s) && NoneBare(p, s.stack) && !PendingOf(p, s.stack) && Sorted(p, s.stack)
    ensures p.reqs != map[] ==> s.unmatchedReqs != [] && Last(s.unmatchedReqs) in p.reqs
    ensures p.reqs != map[] ==>
              var s' := PushMachine(p, s);
              && Inv(p, s') && InOrder(p, s') && NoneBare(p, s'.stack) && !PendingOf(p, s'.stack)
              && s'.stack != [] && Same(p, [], true, s'.stack, false)
              && Sorted(p, s'.stack)
              && Coming(p, s', false) == Hosts(Place(p, map[], map[], s.unmatchedReqs), s.unmatchedPool).found
  {
    assert Sorted(p, s.stack);
    hide Inv, Same, Sorted, Coming, Hosts;
    SortedDescIsPermutation(p.reqs.Keys);
    FreshPoolInv(p, s.unmatchedReqs);
    assert s.unmatchedReqs[..|s.unmatchedReqs|] == s.unmatchedReqs;
    if p.reqs != map[] {
      FirstPush(p, s);
      PushMachineInOrder(p, s);
      EligibleSorted(p);
      FirstPushSorted(p, s);
      FirstComing(p, s);
      NoneBarePush(p, s);
    }
  }

  lemma UsedUpInOrder(p: Problem, s: State)
    requires InOrder(p, s) && s.stack == []
    ensures s.unmatchedReqs == SortedDesc(p.reqs.Keys)
  {
  }

  // ---- The moves of `_match` behind a try for the next machine ----

  lemma MappedInOrder(p: Problem, s0: State, s: State, mapped: bool)
    requires InOrder(p, s0) && NoneBare(p, s0.stack) && TopProgress(p, s0, false, s, mapped)
    requires mapped ==> Last(s.stack).cur.Some? && Last(s.stack).ifStack == []
    ensures InOrder(p, s) && s.stack != [] && Init(s.stack) == Init(s0.stack) && Last(s.stack).id in p.reqs
    ensures mapped && !p.virtual && Last(s.stack).unmatchedIfs == [] ==> FrameDone(p, Last(s.stack)) && ReqIfs(p, Last(s.stack).id) == map[]
    ensures mapped && Last(s.stack).unmatchedIfs != [] ==> ReqIfs(p, Last(s.stack).id) != map[]
  {
    TopProgressInOrder(p, s0, false, s, mapped);
    TopFacts(p, s);
  }

  /** A host mapped in virtual matching is looked at again in the next round. */
  lemma StaysPending(p: Problem, s0: State, s: State)
    requires TopProgress(p, s0, false, s, true) && WorkOf(p, s, true) < WorkOf(p, s0, false) && p.virtual
    requires Last(s.stack).cur.Some? && !Last(s.stack).virtMatched
    ensures NoneBare(p, s.stack) && PendingOf(p, s.stack) && Advances(p, s0, false, s, true)
  {
  }

  lemma PushIfGoesOn(p: Problem, s0: State, s: State)
    requires TopProgress(p, s0, false, s, true) && WorkOf(p, s, true) < WorkOf(p, s0, false) && !p.virtual
    requires InOrder(p, s) && NoneBare(p, s0.stack) && ReqIfs(p, Last(s.stack).id) != map[]
    requires Last(s.stack).cur.Some? && Last(s.stack).ifStack == [] && Last(s.stack).unmatchedIfs != []
    requires Descending(Last(s.stack).unmatchedPoolIfs)
    ensures InOrder(p, PushIf(s)) && NoneBare(p, PushIf(s).stack)
    ensures Advances(p, s0, false, PushIf(s), false) && !PendingOf(p, PushIf(s).stack)
  {
    hide Inv, Same, WorkOf, InOrder, NoneBare, Advances;
    PushIfAdvances(p, s0, s);
    PushIfInOrder(p, s);
    NoneBareTop(p, s0.stack, PushIf(s).stack);
  }

  lemma PopMachineGoesOn(p: Problem, s0: State, s: State)
    requires TopProgress(p, s0, false, s, false) && InOrder(p, s) && NoneBare(p, s0.stack)
    requires Last(s.stack).cur.None? && Last(s.stack).remaining == []
    ensures InOrder(p, PopMachine(s)) && NoneBare(p, PopMachine(s).stack)
    ensures Advances(p, s0, false, PopMachine(s), false) && !PendingOf(p, PopMachine(s).stack)
  {
    hide Inv, Same, WorkOf, InOrder, NoneBare, Advances;
    PopMachineAdvances(p, s0, s);
    PopMachineInOrder(p, s);
    NoneBareInit(p, s0.stack);
  }

  // ---- From one call to the next ----

  lemma VirtualNeverBreaks(reqs: map<Id, Machine>, pools: map<string, Pool>, names: seq<string>)
    ensures !Breaks(reqs, pools, names, true) && !HasBare(reqs, true)
  {
  }

  /** The call falls back to virtual machines, and the mapper never returns from there. */
  ghost predicate TurnsVirtual(reqs: map<Id, Machine>, pools: map<string, Pool>, names: seq<string>,
                               virtual: bool, multimatch: bool, allowVirt: bool) {
    && allowVirt && !Breaks(reqs, pools, names, virtual)
    && (multimatch || forall x :: !Offered(reqs, pools, names, virtual, x))
  }

  lemma EmptyNoDup<T>(s: seq<T>)
    requires s == []
    ensures NoDup(s)
  {
  }

  lemma OfferedKind(reqs: map<Id, Machine>, pools: map<string, Pool>, names: seq<string>)
    ensures forall x, virtual :: Offered(reqs, pools, names, virtual, x) ==> x.virtual == virtual
  {
  }

  // ---- Examples ----

  /** A host without interfaces and a machine that fits it: the search breaks, though matching the two would be legal. */
  lemma BareExample() returns (reqs: map<Id, Machine>, pools: map<string, Pool>, x: Mapping)
    ensures Offered(reqs, pools, ["pool"], false, x) && Breaks(reqs, pools, ["pool"], false)
  {
    var m := Machine(map[], map[]);
    reqs, pools := map["host" := m], map["pool" := map["pc" := m]];
    x := Mapping(map["host" := HostMatch("pc", map[])], map[], false, "pool");
    assert Legal(Problem(reqs, pools["pool"], false), Match(x.machines, x.networks));
    hide Legal;
    assert Last(["pool"]) == "pool" && "pc" in pools["pool"] && "host" in reqs;
    assert Bare(reqs, false, "host");
    OfferedBreaks(reqs, pools, ["pool"], false, x);
  }

  /** A host with one interface and a machine of its shape: the mapping is offered to a first call, and that call turns to virtual machines. */
  lemma LostExample() returns (reqs: map<Id, Machine>, pools: map<string, Pool>, x: Mapping)
    ensures Offered(reqs, pools, ["pool"], false, x) && !Breaks(reqs, pools, ["pool"], false)
    ensures TurnsVirtual(reqs, pools, ["pool"], false, true, true)
  {
    var m := Machine(map[], map["if0" := Interface("net", map[])]);
    reqs, pools := map["host" := m], map["pool" := map["pc" := m]];
    x := Mapping(map["host" := HostMatch("pc", map["if0" := "if0"])], map["net" := "net"], false, "pool");
    TrivialMatch(m, false);
    hide Legal;
    assert Last(["pool"]) == "pool" && "pc" in pools["pool"] && "host" in reqs;
    assert Offered(reqs, pools, ["pool"], false, x);
    hide Offered, Short;
    assert "if0" in m.interfaces;
    assert !HasBare(reqs, false);
  }
}
