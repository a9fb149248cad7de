/**
  What a search state says once a match is complete, that it is a legal match, and that the label
  map holds nothing but the claims of the interfaces matched at that moment.
 */
module SearchResult {
  import opened Sequences
  import opened MatchModel
  import opened SearchState
  import opened SearchMoves

  function IfsOf(gs: seq<IfFrame>): map<Id, Id> {
    if gs == [] then map[]
    else if Last(gs).cur.None? then IfsOf(Init(gs))
    else IfsOf(Init(gs))[Last(gs).ifId := Last(gs).cur.value]
  }

  function MachinesOf(fs: seq<Frame>): map<Id, HostMatch> {
    if fs == [] then map[]
    else if Last(fs).cur.None? then MachinesOf(Init(fs))
    else MachinesOf(Init(fs))[Last(fs).id := HostMatch(Last(fs).cur.value, IfsOf(Last(fs).ifStack))]
  }

  function NetworksOf(net: NetMap): map<string, string> {
    map l | l in net :: net[l].network
  }

  /** The match that the current path spells out. */
  function FoundOf(s: State): Match {
    Match(MachinesOf(s.stack), NetworksOf(s.net))
  }

  // ---- Interfaces of one host ----

  lemma {:induction false} IfsOfLegal(p: Problem, h: Id, t: Id, net: NetMap, gs: seq<IfFrame>)
    requires IfStackInv(p, h, t, net, gs) && IfsMapped(gs)
    ensures IfsOf(gs).Keys == IfIds(gs) && IfsOf(gs).Values == IfTargets(gs)
    ensures forall i :: i in IfsOf(gs) ==> IfParamsFit(p, h, i, t, IfsOf(gs)[i])
    ensures forall i, j :: i in IfsOf(gs) && j in IfsOf(gs) && IfsOf(gs)[i] == IfsOf(gs)[j] ==> i == j
  {
    if gs != [] {
      IfsOfLegal(p, h, t, net, Init(gs));
      var before, after := IfsOf(Init(gs)), IfsOf(gs);
      var i, v := Last(gs).ifId, Last(gs).cur.value;
      assert after == before[i := v] && i !in before;
      assert v !in before.Values;
      forall j | j in before ensures before[j] != v {
        assert before[j] in before.Values;
      }
      assert after.Values == before.Values + {v} by {
        assert after[i] == v;
        forall w | w in before.Values ensures w in after.Values {
          var j :| j in before && before[j] == w;
          assert after[j] == w;
        }
      }
    }
  }

  ghost predicate Injective(net: NetMap) {
    forall l, k :: l in net && k in net && net[l].network == net[k].network ==> l == k
  }

  lemma {:induction false} IfNetInjective(p: Problem, h: Id, t: Id, net: NetMap, gs: seq<IfFrame>)
    requires IfStackInv(p, h, t, net, gs) && Injective(net)
    ensures Injective(IfNet(p, h, t, net, gs))
  {
    if gs != [] {
      IfNetInjective(p, h, t, net, Init(gs));
    }
  }

  lemma {:induction false} IfNetCovers(p: Problem, h: Id, t: Id, net: NetMap, gs: seq<IfFrame>)
    requires IfStackInv(p, h, t, net, gs) && IfsMapped(gs)
    ensures forall i :: i in IfsOf(gs) ==>
      Label(p, h, i) in IfNet(p, h, t, net, gs) &&
      IfNet(p, h, t, net, gs)[Label(p, h, i)].network == NetworkOf(p, t, IfsOf(gs)[i])
  {
    if gs != [] {
      IfNetCovers(p, h, t, net, Init(gs));
    }
  }

  lemma {:induction false} IfNetUsed(p: Problem, h: Id, t: Id, net: NetMap, gs: seq<IfFrame>, l: string)
    requires l in IfNet(p, h, t, net, gs) && l !in net && IfsMapped(gs)
    requires IfStackInv(p, h, t, net, gs)
    ensures exists i :: i in IfsOf(gs) && Label(p, h, i) == l
  {
    if gs != [] {
      if l in IfNet(p, h, t, net, Init(gs)) {
        IfNetUsed(p, h, t, net, Init(gs), l);
        var i :| i in IfsOf(Init(gs)) && Label(p, h, i) == l;
        assert i in IfsOf(gs);
      } else {
        assert Last(gs).ifId in IfsOf(gs) && Label(p, h, Last(gs).ifId) == l;
      }
    }
  }

  // ---- All hosts ----

  lemma TopIfsLegal(p: Problem, below: seq<Frame>, f: Frame)
    requires FrameInv(p, below, f) && FrameDone(p, f)
    ensures HostIfsLegal(p, f.id, HostMatch(f.cur.value, IfsOf(f.ifStack)))
  {
    if p.virtual {
      assert IfsOf(f.ifStack) == map[];
    } else {
      IfsOfLegal(p, f.id, f.cur.value, NetOf(p, below), f.ifStack);
      assert f.unmatchedIfs == [] && Elems(f.unmatchedIfs) == {};
      assert IfIds(f.ifStack) == ReqIfs(p, f.id).Keys by { IfIdsRequired(p, f.id, f.cur.value, NetOf(p, below), f.ifStack); }
    }
  }

  lemma {:induction false} IfIdsRequired(p: Problem, h: Id, t: Id, net: NetMap, gs: seq<IfFrame>)
    requires IfStackInv(p, h, t, net, gs)
    ensures IfIds(gs) <= ReqIfs(p, h).Keys
  {
    if gs != [] {
      IfIdsRequired(p, h, t, net, Init(gs));
    }
  }

  ghost predicate HostsOk(p: Problem, fs: seq<Frame>, ms: map<Id, HostMatch>) {
    && ms.Keys == Ids(fs)
    && (forall h :: h in ms ==> MayUse(p, ms[h].target) && MachineFits(p, h, ms[h].target) && ms[h].target in Targets(fs))
    && (forall g, h :: g in ms && h in ms && ms[g].target == ms[h].target ==> g == h)
  }

  lemma {:induction false} MachinesOfHosts(p: Problem, fs: seq<Frame>)
    requires StackInv(p, fs) && StackDone(p, fs)
    ensures HostsOk(p, fs, MachinesOf(fs))
  {
    if fs != [] {
      MachinesOfHosts(p, Init(fs));
      assert FrameInv(p, Init(fs), Last(fs));
    }
  }

  lemma {:induction false} MachinesOfIfs(p: Problem, fs: seq<Frame>)
    requires StackInv(p, fs) && StackDone(p, fs)
    ensures forall h :: h in MachinesOf(fs) ==> HostIfsLegal(p, h, MachinesOf(fs)[h])
  {
    if fs != [] {
      MachinesOfIfs(p, Init(fs));
      TopIfsLegal(p, Init(fs), Last(fs));
    }
  }

  lemma TopNet(p: Problem, below: seq<Frame>, f: Frame)
    requires FrameInv(p, below, f) && FrameDone(p, f) && Injective(NetOf(p, below))
    ensures var all := IfNet(p, f.id, f.cur.value, NetOf(p, below), f.ifStack);
            && Injective(all)
            && (forall i :: i in IfsOf(f.ifStack) ==>
                  Label(p, f.id, i) in all && all[Label(p, f.id, i)].network == NetworkOf(p, f.cur.value, IfsOf(f.ifStack)[i]))
            && (forall l :: l in all && l !in NetOf(p, below) ==>
                  exists i :: i in IfsOf(f.ifStack) && Label(p, f.id, i) == l)
  {
    IfNetInjective(p, f.id, f.cur.value, NetOf(p, below), f.ifStack);
    IfNetCovers(p, f.id, f.cur.value, NetOf(p, below), f.ifStack);
    forall l | l in IfNet(p, f.id, f.cur.value, NetOf(p, below), f.ifStack) && l !in NetOf(p, below)
      ensures exists i :: i in IfsOf(f.ifStack) && Label(p, f.id, i) == l
    {
      IfNetUsed(p, f.id, f.cur.value, NetOf(p, below), f.ifStack, l);
    }
  }

  /** Adding one host with its interfaces and the labels they claim keeps the networks legal. */
  lemma AddHostNetworks(p: Problem, m0: Match, net0: NetMap, net: NetMap, h: Id, x: HostMatch)
    requires NetworksLegal(p, m0) && m0.networks == NetworksOf(net0) && h !in m0.machines
    requires Injective(net)
    requires forall l :: l in net0 ==> l in net && net[l] == net0[l]
    requires forall l :: l in net && l !in net0 ==> exists i :: i in x.ifs && Label(p, h, i) == l
    requires forall i :: i in x.ifs ==> Label(p, h, i) in net && net[Label(p, h, i)].network == NetworkOf(p, x.target, x.ifs[i])
    ensures NetworksLegal(p, Match(m0.machines[h := x], NetworksOf(net)))
  {
    var m := Match(m0.machines[h := x], NetworksOf(net));
    forall l | l in m.networks ensures LabelUsed(p, m.machines, l) {
      if l in net0 {
        assert LabelUsed(p, m0.machines, l);
        var g, i :| g in m0.machines && i in m0.machines[g].ifs && Label(p, g, i) == l;
        assert g in m.machines && i in m.machines[g].ifs;
      } else {
        var i :| i in x.ifs && Label(p, h, i) == l;
        assert i in m.machines[h].ifs;
      }
    }
    forall g, i | g in m.machines && i in m.machines[g].ifs
      ensures Label(p, g, i) in m.networks
      ensures m.networks[Label(p, g, i)] == NetworkOf(p, m.machines[g].target, m.machines[g].ifs[i])
    {
      if g != h {
        assert g in m0.machines && i in m0.machines[g].ifs;
        assert Label(p, g, i) in m0.networks;
      }
    }
  }

  /** The label map of the stack is a legal network assignment for the machines of the stack. */
  lemma {:induction false} NetOfLegal(p: Problem, fs: seq<Frame>)
    requires StackInv(p, fs) && StackDone(p, fs)
    ensures NetworksLegal(p, Match(MachinesOf(fs), NetworksOf(NetOf(p, fs)))) && Injective(NetOf(p, fs))
  {
    if fs != [] {
      var f := Last(fs);
      var net0 := NetOf(p, Init(fs));
      NetOfLegal(p, Init(fs));
      MachinesOfHosts(p, Init(fs));
      TopNet(p, Init(fs), f);
      IfNetOwners(p, f.id, f.cur.value, net0, f.ifStack);
      AddHostNetworks(p, Match(MachinesOf(Init(fs)), NetworksOf(net0)), net0, NetOf(p, fs), f.id,
                      HostMatch(f.cur.value, IfsOf(f.ifStack)));
    }
  }

  lemma {:induction false} StackDoneAt(p: Problem, fs: seq<Frame>, i: nat)
    requires StackDone(p, fs) && i < |fs|
    ensures FrameDone(p, fs[i])
  {
    if i < |fs| - 1 {
      StackDoneAt(p, Init(fs), i);
    }
  }

  ghost predicate Complete(p: Problem, s: State) {
    Inv(p, s) && StackDone(p, s.stack) && s.unmatchedReqs == []
  }

  lemma CompleteIds(p: Problem, s: State)
    requires Complete(p, s)
    ensures Ids(s.stack) == p.reqs.Keys
  {
    IdsRequired(p, s.stack);
    assert Elems(s.unmatchedReqs) == {};
    assert p.reqs.Keys - Ids(s.stack) == {};
  }

  lemma HostsOkLegal(p: Problem, fs: seq<Frame>, ms: map<Id, HostMatch>)
    requires HostsOk(p, fs, ms) && Ids(fs) == p.reqs.Keys
    ensures HostsLegal(p, ms)
  {
  }

  lemma CompleteHosts(p: Problem, s: State)
    requires Complete(p, s)
    ensures HostsLegal(p, MachinesOf(s.stack))
  {
    hide StackInv, StackDone, ListsInv, NetOf, HostsOk, HostsLegal;
    MachinesOfHosts(p, s.stack);
    CompleteIds(p, s);
    HostsOkLegal(p, s.stack, MachinesOf(s.stack));
  }

  /** Soundness: the match a complete state spells out is legal. */
  lemma FoundIsLegal(p: Problem, s: State)
    requires Complete(p, s)
    ensures Legal(p, FoundOf(s))
  {
    CompleteHosts(p, s);
    assert forall h :: h in FoundOf(s).machines ==> HostIfsLegal(p, h, FoundOf(s).machines[h]) by {
      MachinesOfIfs(p, s.stack);
    }
    assert NetworksLegal(p, FoundOf(s)) by { NetOfLegal(p, s.stack); }
  }

  lemma {:induction false} IdsRequired(p: Problem, fs: seq<Frame>)
    requires StackInv(p, fs)
    ensures Ids(fs) <= p.reqs.Keys
  {
    if fs != [] {
      IdsRequired(p, Init(fs));
    }
  }

  // ---- The match found is the only legal one on the current path ----

  lemma {:induction false} IfAgreeExact(gs: seq<IfFrame>, x: HostMatch)
    requires IfAgree(gs, x)
    ensures IfIds(gs) <= x.ifs.Keys
    ensures forall i :: i in IfsOf(gs) ==> i in x.ifs && x.ifs[i] == IfsOf(gs)[i]
    ensures IfsOf(gs).Keys == IfIds(gs)
  {
    if gs != [] {
      IfAgreeExact(Init(gs), x);
    }
  }

  lemma TopAgreeExact(p: Problem, below: seq<Frame>, f: Frame, x: HostMatch)
    requires FrameInv(p, below, f) && FrameDone(p, f) && FrameAgree(f, x)
    requires x.ifs.Keys == (if p.virtual then {} else ReqIfs(p, f.id).Keys)
    ensures x == HostMatch(f.cur.value, IfsOf(f.ifStack))
  {
    assert IfsOf(f.ifStack).Keys == x.ifs.Keys by { TopIfsLegal(p, below, f); }
    assert x.ifs == IfsOf(f.ifStack) by { IfAgreeExact(f.ifStack, x); }
  }

  ghost predicate PartOf(ms: map<Id, HostMatch>, all: map<Id, HostMatch>) {
    forall h :: h in ms ==> h in all && all[h] == ms[h]
  }

  ghost predicate IfKeysLegal(p: Problem, ms: map<Id, HostMatch>) {
    forall h :: h in ms ==> ms[h].ifs.Keys == (if p.virtual then {} else ReqIfs(p, h).Keys)
  }

  lemma {:induction false} AgreeExact(p: Problem, fs: seq<Frame>, m: Match)
    requires StackInv(p, fs) && StackDone(p, fs) && Agree(fs, m) && IfKeysLegal(p, m.machines)
    ensures PartOf(MachinesOf(fs), m.machines)
  {
    if fs != [] {
      AgreeExact(p, Init(fs), m);
      var f := Last(fs);
      assert m.machines[f.id] == HostMatch(f.cur.value, IfsOf(f.ifStack)) by {
        TopAgreeExact(p, Init(fs), f, m.machines[f.id]);
      }
      assert MachinesOf(fs) == MachinesOf(Init(fs))[f.id := m.machines[f.id]];
    }
  }

  lemma {:induction false} IfsOfAgree(gs: seq<IfFrame>, x: HostMatch)
    requires IfsMapped(gs)
    requires forall k :: 0 <= k < |gs| && gs[k].cur.Some? ==> gs[k].ifId in x.ifs && x.ifs[gs[k].ifId] == gs[k].cur.value
    ensures IfAgree(gs, x)
  {
    if gs != [] {
      IfsOfAgree(Init(gs), x);
    }
  }

  lemma {:induction false} IfsOfAt(p: Problem, h: Id, t: Id, net: NetMap, gs: seq<IfFrame>)
    requires IfStackInv(p, h, t, net, gs) && IfsMapped(gs)
    ensures IfsOf(gs).Keys == IfIds(gs)
    ensures forall k :: 0 <= k < |gs| && gs[k].cur.Some? ==> gs[k].ifId in IfsOf(gs) && IfsOf(gs)[gs[k].ifId] == gs[k].cur.value
  {
    if gs != [] {
      IfsOfAt(p, h, t, net, Init(gs));
    }
  }

  lemma {:induction false} AgreeMonotone(p: Problem, fs: seq<Frame>, m: Match, n: Match)
    requires Agree(fs, m)
    requires forall h :: h in Ids(fs) && h in m.machines ==> h in n.machines && n.machines[h] == m.machines[h]
    ensures Agree(fs, n)
  {
    if fs != [] {
      AgreeMonotone(p, Init(fs), m, n);
    }
  }

  lemma {:induction false} FoundAgrees(p: Problem, fs: seq<Frame>, networks: map<string, string>)
    requires StackInv(p, fs) && StackDone(p, fs)
    ensures Agree(fs, Match(MachinesOf(fs), networks))
  {
    if fs != [] {
      var f := Last(fs);
      var m := Match(MachinesOf(fs), networks);
      FoundAgrees(p, Init(fs), networks);
      MachinesOfHosts(p, Init(fs));
      AgreeMonotone(p, Init(fs), Match(MachinesOf(Init(fs)), networks), m);
      if !p.virtual {
        IfsOfAt(p, f.id, f.cur.value, NetOf(p, Init(fs)), f.ifStack);
        IfsOfAgree(f.ifStack, m.machines[f.id]);
      }
    }
  }

  lemma FoundMachines(p: Problem, s: State, m: Match)
    requires Complete(p, s) && HostsLegal(p, m.machines) && IfKeysLegal(p, m.machines) && Agree(s.stack, m)
    ensures m.machines == MachinesOf(s.stack)
  {
    hide StackInv, StackDone, ListsInv, NetOf, IfKeysLegal, Agree;
    AgreeExact(p, s.stack, m);
    CompleteHosts(p, s);
  }

  lemma OnlyFoundAgrees(p: Problem, s: State, m: Match)
    requires Complete(p, s) && Legal(p, m) && Agree(s.stack, m)
    ensures m == FoundOf(s)
  {
    hide StackInv, StackDone, ListsInv, NetOf, HostsLegal, NetworksLegal, Agree, MachinesOf, NetworksOf;
    assert IfKeysLegal(p, m.machines);
    FoundMachines(p, s, m);
    NetOfLegal(p, s.stack);
    LegalNetworksUnique(p, m, FoundOf(s));
  }

  // ---- A match on the current path is not ahead of it ----

  lemma {:induction false} IfAgreeNotAhead(p: Problem, h: Id, t: Id, net: NetMap, gs: seq<IfFrame>, x: HostMatch)
    requires IfStackInv(p, h, t, net, gs) && IfAgree(gs, x)
    ensures !IfAhead(gs, x)
  {
    if gs != [] {
      IfAgreeNotAhead(p, h, t, net, Init(gs), x);
    }
  }

  lemma {:induction false} AgreeNotAhead(p: Problem, fs: seq<Frame>, m: Match)
    requires StackInv(p, fs) && Agree(fs, m)
    ensures !Ahead(fs, m)
  {
    if fs != [] {
      AgreeNotAhead(p, Init(fs), m);
      var f := Last(fs);
      IfAgreeNotAhead(p, f.id, f.cur.value, NetOf(p, Init(fs)), f.ifStack, m.machines[f.id]);
    }
  }

  /** Reporting the found match takes exactly that match off the list of matches to find. */
  lemma YieldTakesOne(p: Problem, s: State, m: Match)
    requires Complete(p, s) && Legal(p, m)
    ensures ToFind(s.stack, true, m) <==> ToFind(s.stack, false, m) || m == FoundOf(s)
    ensures !ToFind(s.stack, false, FoundOf(s))
  {
    FoundAgrees(p, s.stack, NetworksOf(s.net));
    AgreeNotAhead(p, s.stack, FoundOf(s));
    if Agree(s.stack, m) {
      OnlyFoundAgrees(p, s, m);
    }
  }

  // ---- Backtracking leaves no residue in the label map ----

  /** Interface level `k` of frame `j` is matched and its required interface has label `l`. */
  ghost predicate Uses(p: Problem, fs: seq<Frame>, j: nat, k: nat, l: string) {
    && j < |fs| && k < |fs[j].ifStack|
    && fs[j].cur.Some? && fs[j].ifStack[k].cur.Some?
    && Label(p, fs[j].id, fs[j].ifStack[k].ifId) == l
  }

  lemma {:induction false} IfClaimed(p: Problem, h: Id, t: Id, net: NetMap, gs: seq<IfFrame>, l: string) returns (k: nat)
    requires l in IfNet(p, h, t, net, gs) && l !in net
    ensures k < |gs| && gs[k].cur.Some? && Label(p, h, gs[k].ifId) == l
  {
    if gs != [] && l in IfNet(p, h, t, net, Init(gs)) {
      k := IfClaimed(p, h, t, net, Init(gs), l);
    } else {
      k := |gs| - 1;
    }
  }

  /** Every label in the map is the label of an interface that is matched now. */
  lemma {:induction false} ClaimedIsUsed(p: Problem, fs: seq<Frame>, l: string) returns (j: nat, k: nat)
    requires l in NetOf(p, fs)
    ensures Uses(p, fs, j, k, l)
  {
    if Last(fs).cur.Some? && l !in NetOf(p, Init(fs)) {
      j := |fs| - 1;
      k := IfClaimed(p, Last(fs).id, Last(fs).cur.value, NetOf(p, Init(fs)), Last(fs).ifStack, l);
    } else {
      j, k := ClaimedIsUsed(p, Init(fs), l);
      assert Init(fs)[j] == fs[j];
    }
  }

  lemma {:induction false} IfFirstClaims(p: Problem, h: Id, t: Id, net: NetMap, gs: seq<IfFrame>, k: nat, l: string)
    requires l !in net && k < |gs| && gs[k].cur.Some? && Label(p, h, gs[k].ifId) == l
    requires forall k' :: 0 <= k' < k && gs[k'].cur.Some? ==> Label(p, h, gs[k'].ifId) != l
    ensures l in IfNet(p, h, t, net, gs)
    ensures IfNet(p, h, t, net, gs)[l] == NetEntry(NetworkOf(p, t, gs[k].cur.value), h, gs[k].ifId)
  {
    if k < |gs| - 1 {
      IfFirstClaims(p, h, t, net, Init(gs), k, l);
    } else if l in IfNet(p, h, t, net, Init(gs)) {
      var k' := IfClaimed(p, h, t, net, Init(gs), l);
    }
  }

  ghost predicate FirstUse(p: Problem, fs: seq<Frame>, j: nat, k: nat, l: string) {
    && Uses(p, fs, j, k, l)
    && forall j': nat, k': nat :: Uses(p, fs, j', k', l) ==> j < j' || (j == j' && k <= k')
  }

  /** The entry of a label belongs to the lowest matched interface that has the label. */
  lemma {:induction false} FirstUseOwns(p: Problem, fs: seq<Frame>, j: nat, k: nat, l: string)
    requires FirstUse(p, fs, j, k, l)
    ensures l in NetOf(p, fs)
    ensures NetOf(p, fs)[l] == NetEntry(NetworkOf(p, fs[j].cur.value, fs[j].ifStack[k].cur.value), fs[j].id, fs[j].ifStack[k].ifId)
  {
    var f := Last(fs);
    if j < |fs| - 1 {
      assert Init(fs)[j] == fs[j];
      forall j': nat, k': nat | Uses(p, Init(fs), j', k', l) ensures j < j' || (j == j' && k <= k') {
        assert Init(fs)[j'] == fs[j'];
        assert Uses(p, fs, j', k', l);
      }
      FirstUseOwns(p, Init(fs), j, k, l);
      if f.cur.Some? {
        IfNetOwners(p, f.id, f.cur.value, NetOf(p, Init(fs)), f.ifStack);
      }
    } else {
      if l in NetOf(p, Init(fs)) {
        var j', k' := ClaimedIsUsed(p, Init(fs), l);
        assert Init(fs)[j'] == fs[j'];
        assert Uses(p, fs, j', k', l);
      }
      forall k' | 0 <= k' < k && f.ifStack[k'].cur.Some? ensures Label(p, f.id, f.ifStack[k'].ifId) != l {
        if Label(p, f.id, f.ifStack[k'].ifId) == l {
          assert Uses(p, fs, j, k', l);
        }
      }
      IfFirstClaims(p, f.id, f.cur.value, NetOf(p, Init(fs)), f.ifStack, k, l);
    }
  }

  ghost predicate Used(p: Problem, fs: seq<Frame>, l: string) {
    exists j: nat, k: nat :: Uses(p, fs, j, k, l)
  }

  /** The entry of the label is that of interface level `k` of frame `j`. */
  ghost predicate Owns(p: Problem, s: State, j: nat, k: nat, l: string) {
    && Uses(p, s.stack, j, k, l) && l in s.net
    && var f := s.stack[j]; var g := f.ifStack[k];
       s.net[l] == NetEntry(NetworkOf(p, f.cur.value, g.cur.value), f.id, g.ifId)
  }

  /** Of all levels that use a label one is the lowest. */
  lemma {:induction false} FirstUseExists(p: Problem, fs: seq<Frame>, j: nat, k: nat, l: string) returns (j0: nat, k0: nat)
    requires Uses(p, fs, j, k, l)
    ensures FirstUse(p, fs, j0, k0, l)
    decreases j, k
  {
    if j': nat, k': nat :| Uses(p, fs, j', k', l) && (j' < j || (j' == j && k' < k)) {
      j0, k0 := FirstUseExists(p, fs, j', k', l);
    } else {
      j0, k0 := j, k;
    }
  }

  lemma {:induction false} FrameListsAt(p: Problem, fs: seq<Frame>, j: nat)
    requires StackInv(p, fs) && j < |fs|
    ensures IfListsInv(p, fs[j])
    decreases |fs|
  {
    if j < |fs| - 1 {
      FrameListsAt(p, Init(fs), j);
    }
  }

  /**
    No residue. In every state that meets the invariant the labels of the map are exactly those of the
    interfaces matched now, each entry is that of the lowest of them, and matched and unmatched ids
    partition the hosts, the machines, and each host's and machine's interfaces.
   */
  lemma NoResidue(p: Problem, s: State)
    requires Inv(p, s)
    ensures forall l :: l in s.net <==> Used(p, s.stack, l)
    ensures forall j: nat, k: nat, l :: FirstUse(p, s.stack, j, k, l) ==> Owns(p, s, j, k, l)
    ensures ListsInv(p, s) && forall j :: 0 <= j < |s.stack| ==> IfListsInv(p, s.stack[j])
    ensures s.stack == [] ==> s.net == map[]
  {
    hide StackInv, IfListsInv, ListsInv, Uses;
    forall l ensures l in s.net <==> Used(p, s.stack, l) {
      if l in s.net {
        var j, k := ClaimedIsUsed(p, s.stack, l);
      } else if Used(p, s.stack, l) {
        var j: nat, k: nat :| Uses(p, s.stack, j, k, l);
        j, k := FirstUseExists(p, s.stack, j, k, l);
        FirstUseOwns(p, s.stack, j, k, l);
      }
    }
    forall j: nat, k: nat, l | FirstUse(p, s.stack, j, k, l)
      ensures Owns(p, s, j, k, l)
    {
      FirstUseOwns(p, s.stack, j, k, l);
    }
    forall j | 0 <= j < |s.stack| ensures IfListsInv(p, s.stack[j]) {
      FrameListsAt(p, s.stack, j);
    }
  }
}
