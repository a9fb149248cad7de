/**
  Every primitive move of the search keeps the invariant and neither loses a legal match nor puts
  one back: the reasoning behind the two loops of `MachineMapper`.
 */
module SearchMoves {
  import opened Sequences
  import opened SortedKeys
  import opened MatchModel
  import opened SearchState

  ghost predicate IfToFind(gs: seq<IfFrame>, pend: bool, x: HostMatch) {
    IfAhead(gs, x) || (pend && IfAgree(gs, x))
  }

  // ---- A legal match on the current path passes every check of the search ----

  ghost predicate Within(net: NetMap, m: Match) {
    forall l :: l in net ==> l in m.networks && m.networks[l] == net[l].network
  }

  lemma LabelKnown(p: Problem, h: Id, i: Id, m: Match)
    requires NetworksLegal(p, m) && h in m.machines && i in m.machines[h].ifs
    ensures Label(p, h, i) in m.networks
    ensures m.networks[Label(p, h, i)] == NetworkOf(p, m.machines[h].target, m.machines[h].ifs[i])
  {
  }

  lemma {:induction false} IfNetWithin(p: Problem, h: Id, t: Id, net: NetMap, gs: seq<IfFrame>, m: Match)
    requires NetworksLegal(p, m) && h in m.machines && m.machines[h].target == t
    requires IfAgree(gs, m.machines[h]) && Within(net, m)
    ensures Within(IfNet(p, h, t, net, gs), m)
  {
    hide NetworksLegal;
    if gs != [] {
      IfNetWithin(p, h, t, net, Init(gs), m);
      LabelKnown(p, h, Last(gs).ifId, m);
    }
  }

  lemma {:induction false} NetWithin(p: Problem, fs: seq<Frame>, m: Match)
    requires NetworksLegal(p, m) && Agree(fs, m)
    ensures Within(NetOf(p, fs), m)
  {
    if fs != [] {
      NetWithin(p, Init(fs), m);
      var f := Last(fs);
      IfNetWithin(p, f.id, f.cur.value, NetOf(p, Init(fs)), f.ifStack, m);
    }
  }

  lemma LegalPassesCheck(p: Problem, h: Id, net: NetMap, i: Id, m: Match)
    requires Legal(p, m) && Within(net, m) && h in m.machines && i in m.machines[h].ifs
    ensures IfFits(p, h, m.machines[h].target, net, i, m.machines[h].ifs[i])
  {
    var x := m.machines[h];
    assert HostIfsLegal(p, h, x);
    assert m.networks[Label(p, h, i)] == NetworkOf(p, x.target, x.ifs[i]);
  }

  lemma {:induction false} LegalIfUnused(p: Problem, h: Id, gs: seq<IfFrame>, x: HostMatch, i: Id)
    requires HostIfsLegal(p, h, x) && IfAgree(gs, x) && i in x.ifs && i !in IfIds(gs)
    ensures x.ifs[i] !in IfTargets(gs)
  {
    if gs != [] {
      LegalIfUnused(p, h, Init(gs), x, i);
    }
  }

  lemma {:induction false} LegalTargetUnused(p: Problem, fs: seq<Frame>, m: Match, h: Id)
    requires HostsLegal(p, m.machines) && Agree(fs, m) && h in m.machines && h !in Ids(fs)
    ensures m.machines[h].target !in Targets(fs)
  {
    if fs != [] {
      LegalTargetUnused(p, Init(fs), m, h);
    }
  }

  // ---- Who claimed a label ----

  lemma {:induction false} IfNetOwners(p: Problem, h: Id, t: Id, net: NetMap, gs: seq<IfFrame>)
    ensures forall l :: l in net ==> l in IfNet(p, h, t, net, gs) && IfNet(p, h, t, net, gs)[l] == net[l]
    ensures forall l :: l in IfNet(p, h, t, net, gs) && l !in net ==>
              IfNet(p, h, t, net, gs)[l].host == h && IfNet(p, h, t, net, gs)[l].ifId in IfIds(gs)
  {
    if gs != [] {
      IfNetOwners(p, h, t, net, Init(gs));
    }
  }

  lemma {:induction false} NetOwners(p: Problem, fs: seq<Frame>)
    ensures forall l :: l in NetOf(p, fs) ==> NetOf(p, fs)[l].host in Ids(fs)
  {
    if fs != [] {
      NetOwners(p, Init(fs));
      if Last(fs).cur.Some? {
        IfNetOwners(p, Last(fs).id, Last(fs).cur.value, NetOf(p, Init(fs)), Last(fs).ifStack);
      }
    }
  }

  /** Withdrawing the claim of the top interface, as `_if_match` does, undoes exactly what mapping it did. */
  lemma UnclaimTop(p: Problem, h: Id, t: Id, net: NetMap, gs: seq<IfFrame>)
    requires gs != [] && Last(gs).cur.Some? && Last(gs).ifId !in IfIds(Init(gs))
    requires forall l :: l in net ==> net[l].host != h
    ensures var all, g := IfNet(p, h, t, net, gs), Last(gs);
            var lab, e := Label(p, h, g.ifId), NetEntry(NetworkOf(p, t, g.cur.value), h, g.ifId);
            && lab in all
            && (if all[lab] == e then all - {lab} else all) == IfNet(p, h, t, net, Init(gs))
  {
    IfNetOwners(p, h, t, net, Init(gs));
    var below := IfNet(p, h, t, net, Init(gs));
    var lab := Label(p, h, Last(gs).ifId);
    if lab !in below {
      assert below[lab := NetEntry(NetworkOf(p, t, Last(gs).cur.value), h, Last(gs).ifId)] - {lab} == below;
    }
  }

  // ---- Replacing the top frame ----

  lemma ReplaceTopFinds(fs: seq<Frame>, pend: bool, fs': seq<Frame>, pend': bool, m: Match)
    requires fs != [] && fs' != [] && Init(fs') == Init(fs) && Last(fs').id == Last(fs).id
    requires Last(fs).id in m.machines
    requires Agree(Init(fs), m) ==>
      (FrameToFind(Last(fs), pend, m.machines[Last(fs).id]) <==> FrameToFind(Last(fs'), pend', m.machines[Last(fs).id]))
    ensures ToFind(fs, pend, m) <==> ToFind(fs', pend', m)
  {
  }

  /** What has to be shown about a new top frame for the whole state to keep its invariant. */
  lemma ReplaceTopInv(p: Problem, s: State, s': State)
    requires Inv(p, s) && s.stack != [] && s'.stack != []
    requires Init(s'.stack) == Init(s.stack) && |s'.stack| == |s.stack|
    requires Last(s'.stack).id == Last(s.stack).id
    requires FrameInv(p, Init(s.stack), Last(s'.stack))
    requires s'.unmatchedReqs == s.unmatchedReqs
    requires NoDup(s'.unmatchedPool)
    requires Elems(s'.unmatchedPool) == Usable(p) - (Targets(Init(s.stack)) + CurOf(Last(s'.stack).cur))
    requires s'.net == NetOf(p, s'.stack)
    ensures Inv(p, s')
  {
    assert Ids(s'.stack) == Ids(s.stack);
    assert Targets(s'.stack) == Targets(Init(s.stack)) + CurOf(Last(s'.stack).cur);
    assert StackInv(p, s'.stack);
  }

  /** What has to be shown for no match to be lost or put back. */
  lemma ReplaceTopSame(p: Problem, s: State, pend: bool, s': State, pend': bool)
    requires Inv(p, s) && s.stack != [] && s'.stack != []
    requires Init(s'.stack) == Init(s.stack) && Last(s'.stack).id == Last(s.stack).id
    requires forall m :: Legal(p, m) && Agree(Init(s.stack), m) && Last(s.stack).id in m.machines ==>
      (FrameToFind(Last(s.stack), pend, m.machines[Last(s.stack).id]) <==>
       FrameToFind(Last(s'.stack), pend', m.machines[Last(s.stack).id]))
    ensures Same(p, s.stack, pend, s'.stack, pend')
  {
    forall m | Legal(p, m) ensures ToFind(s.stack, pend, m) <==> ToFind(s'.stack, pend', m) {
      assert Last(s.stack).id in p.reqs;
      assert HostsLegal(p, m.machines);
      ReplaceTopFinds(s.stack, pend, s'.stack, pend', m);
    }
  }

  /** The same when only the interface part of the top frame changes. */
  lemma ReplaceIfs(p: Problem, s: State, pend: bool, f: Frame, net: NetMap, pend': bool)
    requires Inv(p, s) && s.stack != [] && !p.virtual && Last(s.stack).cur.Some?
    requires f == Last(s.stack).(ifStack := f.ifStack, unmatchedIfs := f.unmatchedIfs, unmatchedPoolIfs := f.unmatchedPoolIfs)
    requires IfListsInv(p, f)
    requires IfStackInv(p, f.id, f.cur.value, NetOf(p, Init(s.stack)), f.ifStack)
    requires net == IfNet(p, f.id, f.cur.value, NetOf(p, Init(s.stack)), f.ifStack)
    requires forall m :: Legal(p, m) && Agree(Init(s.stack), m) && f.id in m.machines && m.machines[f.id].target == f.cur.value ==>
      (IfToFind(Last(s.stack).ifStack, pend, m.machines[f.id]) <==> IfToFind(f.ifStack, pend', m.machines[f.id]))
    ensures var s' := SetTop(s, f).(net := net); Inv(p, s') && Same(p, s.stack, pend, s'.stack, pend')
  {
    var s' := SetTop(s, f).(net := net);
    assert FrameInv(p, Init(s.stack), f);
    forall m | Legal(p, m) && Agree(Init(s.stack), m) && f.id in m.machines
      ensures FrameToFind(Last(s.stack), pend, m.machines[f.id]) <==> FrameToFind(f, pend', m.machines[f.id])
    {
      if m.machines[f.id].target == f.cur.value {
        assert IfToFind(Last(s.stack).ifStack, pend, m.machines[f.id]) <==> IfToFind(f.ifStack, pend', m.machines[f.id]);
      }
    }
    ReplaceTopInv(p, s, s');
    ReplaceTopSame(p, s, pend, s', pend');
  }

  // ---- The interface moves ----

  ghost predicate AtIf(p: Problem, s: State) {
    && Inv(p, s) && s.stack != [] && !p.virtual
    && Last(s.stack).cur.Some? && Last(s.stack).ifStack != []
  }

  lemma UnmapIfKeeps(p: Problem, s: State)
    requires AtIf(p, s)
    ensures Inv(p, UnmapIf(p, s)) && Same(p, s.stack, false, UnmapIf(p, s).stack, false)
  {
    hide HostsLegal, NetworksLegal;
    var f := Last(s.stack);
    var g := Last(f.ifStack);
    var net0 := NetOf(p, Init(s.stack));
    if g.cur.Some? {
      NetOwners(p, Init(s.stack));
      UnclaimTop(p, f.id, f.cur.value, net0, f.ifStack);
      var f' := Last(UnmapIf(p, s).stack);
      assert Init(f'.ifStack) == Init(f.ifStack);
      NoDupSnoc(f.unmatchedPoolIfs, g.cur.value);
      ReplaceIfs(p, s, false, f', UnmapIf(p, s).net, false);
    }
  }

  ghost predicate MustDropIf(p: Problem, s: State) {
    && AtIf(p, s)
    && var f := Last(s.stack); var g := Last(f.ifStack);
       && g.cur.None? && g.remaining != []
       && !IfFits(p, f.id, f.cur.value, s.net, g.ifId, Last(g.remaining))
  }

  lemma DropIfFinds(p: Problem, s: State, m: Match)
    requires MustDropIf(p, s) && Legal(p, m) && Agree(Init(s.stack), m)
    requires Last(s.stack).id in m.machines && m.machines[Last(s.stack).id].target == Last(s.stack).cur.value
    ensures IfToFind(Last(s.stack).ifStack, false, m.machines[Last(s.stack).id]) <==>
            IfToFind(Last(DropIf(s).stack).ifStack, false, m.machines[Last(s.stack).id])
  {
    hide StackInv, ListsInv, HostsLegal, NetworksLegal;
    var f := Last(s.stack);
    var g := Last(f.ifStack);
    var x := m.machines[f.id];
    var r := g.remaining;
    assert r == Init(r) + [Last(r)];
    if IfAgree(Init(f.ifStack), x) && g.ifId in x.ifs {
      NetWithin(p, Init(s.stack), m);
      IfNetWithin(p, f.id, f.cur.value, NetOf(p, Init(s.stack)), Init(f.ifStack), m);
      LegalPassesCheck(p, f.id, s.net, g.ifId, m);
    }
  }

  lemma DropIfKeeps(p: Problem, s: State)
    requires MustDropIf(p, s)
    ensures Inv(p, DropIf(s)) && Same(p, s.stack, false, DropIf(s).stack, false)
  {
    var f := Last(s.stack);
    var f' := Last(DropIf(s).stack);
    assert Init(f'.ifStack) == Init(f.ifStack);
    NoDupInit(Last(f.ifStack).remaining);
    forall m | Legal(p, m) && Agree(Init(s.stack), m) && f.id in m.machines && m.machines[f.id].target == f.cur.value
      ensures IfToFind(f.ifStack, false, m.machines[f.id]) <==> IfToFind(f'.ifStack, false, m.machines[f.id])
    {
      DropIfFinds(p, s, m);
    }
    ReplaceIfs(p, s, false, f', s.net, false);
  }

  ghost predicate CanTakeIf(p: Problem, s: State) {
    && AtIf(p, s)
    && var f := Last(s.stack); var g := Last(f.ifStack);
       && g.cur.None? && g.remaining != []
       && IfFits(p, f.id, f.cur.value, s.net, g.ifId, Last(g.remaining))
  }

  lemma TakeIfLists(p: Problem, s: State)
    requires CanTakeIf(p, s)
    ensures var f' := Last(TakeIf(p, s).stack);
            && IfListsInv(p, f')
            && IfStackInv(p, f'.id, f'.cur.value, NetOf(p, Init(s.stack)), f'.ifStack)
  {
    var f := Last(s.stack);
    var g := Last(f.ifStack);
    var f' := Last(TakeIf(p, s).stack);
    assert Init(f'.ifStack) == Init(f.ifStack);
    NoDupInit(g.remaining);
    assert Last(g.remaining) in Elems(g.remaining);
    RemoveFromNoDup(f.unmatchedPoolIfs, Last(g.remaining));
  }

  lemma TakeIfFinds(gs: seq<IfFrame>, gs': seq<IfFrame>, x: HostMatch)
    requires gs != [] && Last(gs).cur.None? && Last(gs).remaining != []
    requires gs' == SetLast(gs, Last(gs).(cur := Some(Last(Last(gs).remaining)), remaining := Init(Last(gs).remaining)))
    ensures IfToFind(gs, false, x) <==> IfToFind(gs', true, x)
  {
    var r := Last(gs).remaining;
    assert r == Init(r) + [Last(r)];
  }

  lemma TakeIfKeeps(p: Problem, s: State)
    requires CanTakeIf(p, s)
    ensures Inv(p, TakeIf(p, s)) && Same(p, s.stack, false, TakeIf(p, s).stack, true)
    ensures IfsMapped(Last(TakeIf(p, s).stack).ifStack)
  {
    var f := Last(s.stack);
    var f' := Last(TakeIf(p, s).stack);
    TakeIfLists(p, s);
    forall m | Legal(p, m) && Agree(Init(s.stack), m) && f.id in m.machines && m.machines[f.id].target == f.cur.value
      ensures IfToFind(f.ifStack, false, m.machines[f.id]) <==> IfToFind(f'.ifStack, true, m.machines[f.id])
    {
      TakeIfFinds(f.ifStack, f'.ifStack, m.machines[f.id]);
    }
    ReplaceIfs(p, s, false, f', TakeIf(p, s).net, true);
  }

  lemma PushIfKeeps(p: Problem, s: State)
    requires Inv(p, s) && s.stack != [] && !p.virtual && Last(s.stack).cur.Some?
    requires Last(s.stack).unmatchedIfs != [] && IfsMapped(Last(s.stack).ifStack)
    ensures Inv(p, PushIf(s)) && Same(p, s.stack, true, PushIf(s).stack, false)
  {
    var f := Last(s.stack);
    var f' := Last(PushIf(s).stack);
    var i := Last(f.unmatchedIfs);
    InitLast(f.ifStack, Last(f'.ifStack));
    NoDupInit(f.unmatchedIfs);
    assert i in Elems(f.unmatchedIfs);
    forall m | Legal(p, m) && Agree(Init(s.stack), m) && f.id in m.machines && m.machines[f.id].target == f.cur.value
      ensures IfToFind(f.ifStack, true, m.machines[f.id]) <==> IfToFind(f'.ifStack, false, m.machines[f.id])
    {
      var x := m.machines[f.id];
      assert HostIfsLegal(p, f.id, x);
      if IfAgree(f.ifStack, x) {
        LegalIfUnused(p, f.id, f.ifStack, x, i);
        assert x.ifs[i] in Elems(f.unmatchedPoolIfs);
      }
    }
    ReplaceIfs(p, s, true, f', s.net, false);
  }

  lemma PopIfKeeps(p: Problem, s: State)
    requires AtIf(p, s)
    requires Last(Last(s.stack).ifStack).cur.None? && Last(Last(s.stack).ifStack).remaining == []
    ensures Inv(p, PopIf(s)) && Same(p, s.stack, false, PopIf(s).stack, false)
  {
    var f := Last(s.stack);
    NoDupSnoc(f.unmatchedIfs, Last(f.ifStack).ifId);
    ReplaceIfs(p, s, false, Last(PopIf(s).stack), s.net, false);
  }

  // ---- The machine moves ----

  lemma UnmapMachineKeeps(p: Problem, s: State)
    requires Inv(p, s) && s.stack != [] && Last(s.stack).ifStack == []
    ensures Inv(p, UnmapMachine(s)) && Same(p, s.stack, false, UnmapMachine(s).stack, false)
  {
    var f := Last(s.stack);
    if f.cur.Some? {
      NoDupSnoc(s.unmatchedPool, f.cur.value);
      ReplaceTopInv(p, s, UnmapMachine(s));
      ReplaceTopSame(p, s, false, UnmapMachine(s), false);
    }
  }

  lemma DropMachineKeeps(p: Problem, s: State)
    requires Inv(p, s) && s.stack != [] && Last(s.stack).cur.None? && Last(s.stack).remaining != []
    requires !MachineFits(p, Last(s.stack).id, Last(Last(s.stack).remaining))
    ensures Inv(p, DropMachine(s)) && Same(p, s.stack, false, DropMachine(s).stack, false)
  {
    var f := Last(s.stack);
    NoDupInit(f.remaining);
    forall m | Legal(p, m) && Agree(Init(s.stack), m) && f.id in m.machines
      ensures m.machines[f.id].target in f.remaining <==> m.machines[f.id].target in Init(f.remaining)
    {
      assert MachineFits(p, f.id, m.machines[f.id].target);
      assert m.machines[f.id].target in f.remaining <==> m.machines[f.id].target in Elems(f.remaining);
      assert m.machines[f.id].target in Init(f.remaining) <==> m.machines[f.id].target in Elems(Init(f.remaining));
    }
    ReplaceTopInv(p, s, DropMachine(s));
    ReplaceTopSame(p, s, false, DropMachine(s), false);
  }

  ghost predicate CanTakeMachine(p: Problem, s: State) {
    && Inv(p, s) && s.stack != [] && Last(s.stack).cur.None? && Last(s.stack).remaining != []
    && MachineFits(p, Last(s.stack).id, Last(Last(s.stack).remaining))
  }

  lemma TakeMachineFrame(p: Problem, below: seq<Frame>, s: State)
    requires s.stack != [] && Last(s.stack).remaining != []
    requires FrameInv(p, below, Last(s.stack)) && Last(s.stack).cur.None?
    requires MachineFits(p, Last(s.stack).id, Last(Last(s.stack).remaining))
    ensures FrameInv(p, below, Last(TakeMachine(p, s).stack))
  {
    hide MachineFits, NetOf;
    var f := Last(s.stack);
    NoDupInit(f.remaining);
    assert Last(f.remaining) in Elems(f.remaining);
    SortedDescIsPermutation(PoolIfs(p, Last(f.remaining)).Keys);
  }

  lemma TakeMachineFinds(p: Problem, s: State, x: HostMatch)
    requires CanTakeMachine(p, s)
    ensures FrameToFind(Last(s.stack), false, x) <==> FrameToFind(Last(TakeMachine(p, s).stack), true, x)
  {
    var r := Last(s.stack).remaining;
    assert r == Init(r) + [Last(r)];
  }

  lemma TakeMachineLists(p: Problem, s: State)
    requires s.stack != [] && Last(s.stack).cur.None? && Last(s.stack).remaining != []
    requires Last(s.stack).ifStack == [] && ListsInv(p, s) && s.net == NetOf(p, s.stack)
    ensures var s' := TakeMachine(p, s);
            && NoDup(s'.unmatchedPool)
            && Elems(s'.unmatchedPool) == Usable(p) - (Targets(Init(s.stack)) + CurOf(Last(s'.stack).cur))
            && s'.net == NetOf(p, s'.stack)
  {
    RemoveFromNoDup(s.unmatchedPool, Last(Last(s.stack).remaining));
  }

  lemma TakeMachineInv(p: Problem, s: State)
    requires CanTakeMachine(p, s)
    ensures Inv(p, TakeMachine(p, s))
  {
    TakeMachineFrame(p, Init(s.stack), s);
    TakeMachineLists(p, s);
    ReplaceTopInv(p, s, TakeMachine(p, s));
  }

  lemma TakeMachineKeeps(p: Problem, s: State)
    requires CanTakeMachine(p, s)
    ensures Inv(p, TakeMachine(p, s)) && Same(p, s.stack, false, TakeMachine(p, s).stack, true)
  {
    TakeMachineInv(p, s);
    var fs, fs' := s.stack, TakeMachine(p, s).stack;
    forall m | Legal(p, m) ensures ToFind(fs, false, m) <==> ToFind(fs', true, m) {
      assert HostsLegal(p, m.machines);
      TakeMachineFinds(p, s, m.machines[Last(fs).id]);
      ReplaceTopFinds(fs, false, fs', true, m);
    }
  }

  lemma PushMachineInv(p: Problem, s: State)
    requires Inv(p, s) && StackDone(p, s.stack) && s.unmatchedReqs != []
    ensures Inv(p, PushMachine(p, s))
  {
    var id := Last(s.unmatchedReqs);
    var s' := PushMachine(p, s);
    InitLast(s.stack, Last(s'.stack));
    NoDupInit(s.unmatchedReqs);
    assert id in Elems(s.unmatchedReqs);
    SortedDescIsPermutation(ReqIfs(p, id).Keys);
    assert FrameInv(p, s.stack, Last(s'.stack));
    assert StackInv(p, s'.stack);
    assert Targets(s'.stack) == Targets(s.stack);
  }

  lemma PushMachineFinds(p: Problem, s: State, m: Match)
    requires Inv(p, s) && StackDone(p, s.stack) && s.unmatchedReqs != [] && HostsLegal(p, m.machines)
    ensures ToFind(s.stack, true, m) <==> ToFind(PushMachine(p, s).stack, false, m)
  {
    var id := Last(s.unmatchedReqs);
    assert id in Elems(s.unmatchedReqs);
    InitLast(s.stack, Last(PushMachine(p, s).stack));
    if Agree(s.stack, m) {
      LegalTargetUnused(p, s.stack, m, id);
      assert m.machines[id].target in Elems(s.unmatchedPool);
    }
  }

  lemma PushMachineKeeps(p: Problem, s: State)
    requires Inv(p, s) && StackDone(p, s.stack) && s.unmatchedReqs != []
    ensures Inv(p, PushMachine(p, s)) && Same(p, s.stack, true, PushMachine(p, s).stack, false)
  {
    PushMachineInv(p, s);
    forall m | Legal(p, m) ensures ToFind(s.stack, true, m) <==> ToFind(PushMachine(p, s).stack, false, m) {
      PushMachineFinds(p, s, m);
    }
  }

  lemma PopMachineFinds(fs: seq<Frame>, m: Match)
    requires fs != [] && Last(fs).cur.None? && Last(fs).remaining == []
    ensures ToFind(fs, false, m) <==> ToFind(Init(fs), false, m)
  {
  }

  lemma PopMachineKeeps(p: Problem, s: State)
    requires Inv(p, s) && s.stack != [] && Last(s.stack).cur.None? && Last(s.stack).remaining == []
    ensures Inv(p, PopMachine(s)) && Same(p, s.stack, false, PopMachine(s).stack, false)
    ensures StackDone(p, PopMachine(s).stack)
  {
    NoDupSnoc(s.unmatchedReqs, Last(s.stack).id);
    forall m | Legal(p, m) ensures ToFind(s.stack, false, m) <==> ToFind(PopMachine(s).stack, false, m) {
      PopMachineFinds(s.stack, m);
    }
  }
}
