/** Every move of the resumable search leaves what the plain recursive search still has to find. */
module SearchResume {
  import opened Sequences
  import opened SortedKeys
  import opened MatchModel
  import opened SearchState
  import opened SearchMoves
  import opened SearchResult
  import opened SearchOrder
  import opened RecursiveSearch

  /** Between the two moments the order is kept, and nothing is found or lost. */
  ghost predicate KeepsOrder(p: Problem, s: State, pend: bool, s': State, pend': bool) {
    Sorted(p, s.stack) ==> Sorted(p, s'.stack) && SameComing(p, s, pend, s', pend')
  }

  ghost predicate SameComing(p: Problem, s: State, pend: bool, s': State, pend': bool) {
    Coming(p, s, pend) == Coming(p, s', pend')
  }

  /** Another top frame that leads back in the same way. */
  lemma TopComing(p: Problem, s: State, s': State)
    requires s.stack != [] && s'.stack != [] && Init(s'.stack) == Init(s.stack) && Last(s'.stack).id == Last(s.stack).id
    requires s'.unmatchedReqs == s.unmatchedReqs
    requires var c := PlaceOf(p, Init(s.stack), s.unmatchedReqs);
             RestFrame(c, Last(s.stack), s.unmatchedPool) == RestFrame(c, Last(s'.stack), s'.unmatchedPool)
    ensures SameComing(p, s, false, s', false)
  {
  }

  /** Another top frame, whose current path leads to the first matches of the way back. */
  lemma TopOnward(p: Problem, s: State, s': State)
    requires s.stack != [] && s'.stack != [] && Init(s'.stack) == Init(s.stack) && Last(s'.stack).id == Last(s.stack).id
    requires s'.unmatchedReqs == s.unmatchedReqs && Last(s'.stack).cur.Some?
    requires var c, f' := PlaceOf(p, Init(s.stack), s.unmatchedReqs), Last(s'.stack);
             var w := Onward(c, f', s'.unmatchedPool);
             var back := RestFrame(c, f'.(unmatchedPoolIfs := w.ports), w.avail);
             RestFrame(c, Last(s.stack), s.unmatchedPool) == Walk(w.found + back.found, back.avail)
    ensures SameComing(p, s, false, s', true)
  {
    hide RestFrame, Onward;
    var c, f' := PlaceOf(p, Init(s.stack), s.unmatchedReqs), Last(s'.stack);
    var w := Onward(c, f', s'.unmatchedPool);
    var back := RestFrame(c, f'.(unmatchedPoolIfs := w.ports), w.avail);
    var rest := RestFrames(p, Init(s.stack), s.unmatchedReqs + [f'.id], back.avail);
    assert (w.found + back.found) + rest == w.found + (back.found + rest);
  }

  // ---- The interface moves ----

  lemma UnmapIfComing(p: Problem, s: State)
    requires s.stack != [] && Last(s.stack).ifStack != []
    ensures SameComing(p, s, false, UnmapIf(p, s), false)
  {
    var f := Last(s.stack);
    var g := Last(f.ifStack);
    if g.cur.Some? && f.cur.Some? {
      TopComing(p, s, UnmapIf(p, s));
    }
  }

  lemma DropIfComing(p: Problem, s: State)
    requires s.stack != [] && Last(s.stack).ifStack != [] && Last(s.stack).cur.Some?
    requires var f := Last(s.stack); var g := Last(f.ifStack);
             && g.cur.None? && g.remaining != [] && s.net == NetOf(p, s.stack)
             && !IfFits(p, f.id, f.cur.value, s.net, g.ifId, Last(g.remaining))
    ensures SameComing(p, s, false, DropIf(s), false)
  {
    TopComing(p, s, DropIf(s));
  }

  lemma TakeIfRest(c: Place, h: Id, t: Id, gs: seq<IfFrame>, todo: seq<Id>, ports: seq<Id>, avail: seq<Id>)
    requires gs != [] && Last(gs).cur.None? && Last(gs).remaining != []
    requires IfFits(c.p, h, t, IfNet(c.p, h, t, c.net, gs), Last(gs).ifId, Last(Last(gs).remaining))
    ensures var g := Last(gs); var v := Last(g.remaining);
            var gs' := SetLast(gs, g.(cur := Some(v), remaining := Init(g.remaining)));
            var w := Ifs(c.(net := IfNet(c.p, h, t, c.net, gs')), h, HostMatch(t, IfsOf(gs')), todo, Remove(ports, v), avail);
            var back := RestIfs(c, h, t, gs', todo, w.ports, w.avail);
            RestIfs(c, h, t, gs, todo, ports, avail) == IfWalk(w.found + back.found, back.ports, back.avail)
  {
    var g := Last(gs);
    var v := Last(g.remaining);
    var gs' := SetLast(gs, g.(cur := Some(v), remaining := Init(g.remaining)));
    var net := IfNet(c.p, h, t, c.net, Init(gs));
    var x := HostMatch(t, IfsOf(Init(gs)));
    assert IfNet(c.p, h, t, c.net, gs) == net;
    assert IfNet(c.p, h, t, c.net, gs') == Claim(net, Label(c.p, h, g.ifId), NetEntry(NetworkOf(c.p, t, v), h, g.ifId));
    assert IfsOf(gs') == x.ifs[g.ifId := v];
    var w := Ifs(c.(net := IfNet(c.p, h, t, c.net, gs')), h, HostMatch(t, IfsOf(gs')), todo, Remove(ports, v), avail);
    var others := Ports(c.(net := net), h, x, g.ifId, todo, Init(g.remaining), w.ports + [v], w.avail);
    assert Ports(c.(net := net), h, x, g.ifId, todo, g.remaining, ports, avail) == IfWalk(w.found + others.found, others.ports, others.avail);
    var below := RestIfs(c, h, t, Init(gs), todo + [g.ifId], others.ports, others.avail);
    assert (w.found + others.found) + below.found == w.found + (others.found + below.found);
  }

  lemma TakeIfComing(p: Problem, s: State)
    requires s.stack != [] && Last(s.stack).ifStack != [] && Last(s.stack).cur.Some? && !p.virtual
    requires var f := Last(s.stack); var g := Last(f.ifStack);
             && g.cur.None? && g.remaining != [] && s.net == NetOf(p, s.stack)
             && IfFits(p, f.id, f.cur.value, s.net, g.ifId, Last(g.remaining))
    ensures SameComing(p, s, false, TakeIf(p, s), true)
  {
    hide Ports, Ifs, Machines, RestIfs, IfFits;
    var s' := TakeIf(p, s);
    var (f, f') := (Last(s.stack), Last(s'.stack));
    var c := PlaceOf(p, Init(s.stack), s.unmatchedReqs);
    TakeIfRest(c, f.id, f.cur.value, f.ifStack, f.unmatchedIfs, f.unmatchedPoolIfs, s.unmatchedPool);
    var w := Onward(c, f', s.unmatchedPool);
    OnwardThenBack(c, f, f', s.unmatchedPool, w);
    TopOnward(p, s, s');
  }

  /** The way back through a frame, when that of its interfaces starts with what another one leads on to. */
  lemma OnwardThenBack(c: Place, f: Frame, f': Frame, avail: seq<Id>, w: IfWalk)
    requires f.cur.Some? && f'.cur == f.cur && f'.id == f.id && f'.remaining == f.remaining && f'.unmatchedIfs == f.unmatchedIfs
    requires var back := RestIfs(c, f.id, f.cur.value, f'.ifStack, f.unmatchedIfs, w.ports, w.avail);
             RestIfs(c, f.id, f.cur.value, f.ifStack, f.unmatchedIfs, f.unmatchedPoolIfs, avail) == IfWalk(w.found + back.found, back.ports, back.avail)
    ensures var back := RestFrame(c, f'.(unmatchedPoolIfs := w.ports), w.avail);
            RestFrame(c, f, avail) == Walk(w.found + back.found, back.avail)
  {
    hide RestIfs, Machines;
    var back := RestIfs(c, f.id, f.cur.value, f'.ifStack, f.unmatchedIfs, w.ports, w.avail);
    var others := Machines(c, f.id, f.remaining, back.avail + [f.cur.value]);
    assert (w.found + back.found) + others.found == w.found + (back.found + others.found);
  }

  lemma PushIfRest(c: Place, h: Id, t: Id, gs: seq<IfFrame>, todo: seq<Id>, ports: seq<Id>, avail: seq<Id>)
    requires todo != []
    ensures var w := Ifs(c.(net := IfNet(c.p, h, t, c.net, gs)), h, HostMatch(t, IfsOf(gs)), todo, ports, avail);
            var back := RestIfs(c, h, t, gs, todo, w.ports, w.avail);
            RestIfs(c, h, t, gs + [IfFrame(Last(todo), None, ports)], Init(todo), ports, avail) == IfWalk(w.found + back.found, back.ports, back.avail)
  {
    InitLast(gs, IfFrame(Last(todo), None, ports));
    assert Init(todo) + [Last(todo)] == todo;
  }

  lemma PushIfComing(p: Problem, s: State)
    requires s.stack != [] && !p.virtual && Last(s.stack).cur.Some? && Last(s.stack).unmatchedIfs != []
    ensures SameComing(p, s, true, PushIf(s), false)
  {
    hide Ports, Ifs, Machines, RestIfs;
    var s' := PushIf(s);
    var (f, f') := (Last(s.stack), Last(s'.stack));
    var c := PlaceOf(p, Init(s.stack), s.unmatchedReqs);
    PushIfRest(c, f.id, f.cur.value, f.ifStack, f.unmatchedIfs, f.unmatchedPoolIfs, s.unmatchedPool);
    var w := Onward(c, f, s.unmatchedPool);
    PushedThenBack(c, f, f', s.unmatchedPool, w);
    TopOnward(p, s', s);
  }

  lemma PushedThenBack(c: Place, f: Frame, f': Frame, avail: seq<Id>, w: IfWalk)
    requires f.cur.Some? && f'.cur == f.cur && f'.id == f.id && f'.remaining == f.remaining && f'.unmatchedPoolIfs == f.unmatchedPoolIfs
    requires var back := RestIfs(c, f.id, f.cur.value, f.ifStack, f.unmatchedIfs, w.ports, w.avail);
             RestIfs(c, f.id, f.cur.value, f'.ifStack, f'.unmatchedIfs, f.unmatchedPoolIfs, avail) == IfWalk(w.found + back.found, back.ports, back.avail)
    ensures var back := RestFrame(c, f.(unmatchedPoolIfs := w.ports), w.avail);
            RestFrame(c, f', avail) == Walk(w.found + back.found, back.avail)
  {
    hide RestIfs, Machines;
    var back := RestIfs(c, f.id, f.cur.value, f.ifStack, f.unmatchedIfs, w.ports, w.avail);
    var others := Machines(c, f.id, f.remaining, back.avail + [f.cur.value]);
    assert (w.found + back.found) + others.found == w.found + (back.found + others.found);
  }

  lemma PopIfComing(p: Problem, s: State)
    requires s.stack != [] && Last(s.stack).ifStack != []
    requires Last(Last(s.stack).ifStack).cur.None? && Last(Last(s.stack).ifStack).remaining == []
    ensures SameComing(p, s, false, PopIf(s), false)
  {
    var f := Last(s.stack);
    var c := PlaceOf(p, Init(s.stack), s.unmatchedReqs);
    if f.cur.Some? {
      PopIfRest(c, f.id, f.cur.value, f.ifStack, f.unmatchedIfs, f.unmatchedPoolIfs, s.unmatchedPool);
    }
    hide RestIfs;
    TopComing(p, s, PopIf(s));
  }

  lemma PopIfRest(c: Place, h: Id, t: Id, gs: seq<IfFrame>, todo: seq<Id>, ports: seq<Id>, avail: seq<Id>)
    requires gs != [] && Last(gs).cur.None? && Last(gs).remaining == []
    ensures RestIfs(c, h, t, gs, todo, ports, avail) == RestIfs(c, h, t, Init(gs), todo + [Last(gs).ifId], ports, avail)
  {
    var below := RestIfs(c, h, t, Init(gs), todo + [Last(gs).ifId], ports, avail);
    assert [] + below.found == below.found;
  }

  // ---- The machine moves ----

  lemma UnmapMachineComing(p: Problem, s: State)
    requires s.stack != [] && Last(s.stack).ifStack == []
    ensures SameComing(p, s, false, UnmapMachine(s), false)
  {
    if Last(s.stack).cur.Some? {
      TopComing(p, s, UnmapMachine(s));
    }
  }

  lemma DropMachineComing(p: Problem, s: State)
    requires s.stack != [] && Last(s.stack).cur.None? && Last(s.stack).remaining != []
    requires !MachineFits(p, Last(s.stack).id, Last(Last(s.stack).remaining))
    ensures SameComing(p, s, false, DropMachine(s), false)
  {
    TopComing(p, s, DropMachine(s));
  }

  lemma TakeMachineRest(c: Place, f: Frame, f': Frame, avail: seq<Id>)
    requires f.cur.None? && f.remaining != [] && MachineFits(c.p, f.id, Last(f.remaining)) && f.unmatchedIfs == SortedDesc(ReqIfs(c.p, f.id).Keys)
    requires f' == f.(remaining := Init(f.remaining), cur := Some(Last(f.remaining)), ifStack := [],
                      unmatchedPoolIfs := SortedDesc(PoolIfs(c.p, Last(f.remaining)).Keys))
    ensures var w := Onward(c, f', Remove(avail, Last(f.remaining)));
            var back := RestFrame(c, f'.(unmatchedPoolIfs := w.ports), w.avail);
            RestFrame(c, f, avail) == Walk(w.found + back.found, back.avail)
  {
    hide SortedDesc, Remove, MachineFits;
    var t := Last(f.remaining);
    var w := Onward(c, f', Remove(avail, t));
    assert OnMachine(c, f.id, t, Remove(avail, t)) == Walk(w.found, w.avail) by {
      assert c.(net := IfNet(c.p, f.id, t, c.net, [])) == c;
    }
    var others := Machines(c, f.id, Init(f.remaining), w.avail + [t]);
    assert [] + (w.found + others.found) == w.found + ([] + others.found);
  }

  lemma TakeMachineComing(p: Problem, s: State)
    requires s.stack != [] && Last(s.stack).cur.None? && Last(s.stack).remaining != []
    requires MachineFits(p, Last(s.stack).id, Last(Last(s.stack).remaining))
    requires Last(s.stack).unmatchedIfs == SortedDesc(ReqIfs(p, Last(s.stack).id).Keys)
    ensures SameComing(p, s, false, TakeMachine(p, s), true)
  {
    hide RestFrame, Onward, SortedDesc;
    var f, f' := Last(s.stack), Last(TakeMachine(p, s).stack);
    TakeMachineRest(PlaceOf(p, Init(s.stack), s.unmatchedReqs), f, f', s.unmatchedPool);
    TopOnward(p, s, TakeMachine(p, s));
  }

  /** Beyond a host that is matched with its interfaces come the other hosts. */
  lemma OnwardDone(p: Problem, fs: seq<Frame>, rest: seq<Id>, avail: seq<Id>)
    requires fs != [] && FrameDone(p, Last(fs)) && (p.virtual ==> Last(fs).ifStack == [])
    ensures var w := Hosts(PlaceOf(p, fs, rest), avail);
            Onward(PlaceOf(p, Init(fs), rest), Last(fs), avail) == IfWalk(w.found, Last(fs).unmatchedPoolIfs, w.avail)
  {
    hide Machines;
    var f := Last(fs);
    var c := PlaceOf(p, Init(fs), rest);
    assert c.(net := IfNet(p, f.id, f.cur.value, c.net, f.ifStack), ms := c.ms[f.id := HostMatch(f.cur.value, IfsOf(f.ifStack))]) == PlaceOf(p, fs, rest);
  }

  lemma PushMachineComing(p: Problem, s: State)
    requires s.stack != [] && FrameDone(p, Last(s.stack)) && (p.virtual ==> Last(s.stack).ifStack == []) && s.unmatchedReqs != []
    ensures SameComing(p, s, true, PushMachine(p, s), false)
  {
    hide Onward, Machines, RestFrame;
    var s' := PushMachine(p, s);
    OnwardDone(p, s.stack, s.unmatchedReqs, s.unmatchedPool);
    var f := Last(s.stack);
    assert SetLast(s.stack, f.(unmatchedPoolIfs := f.unmatchedPoolIfs)) == s.stack;
    InitLast(s.stack, Last(s'.stack));
    NewFrameRest(PlaceOf(p, s.stack, s'.unmatchedReqs), Last(s'.stack), s.unmatchedPool);
    assert Init(s.unmatchedReqs) + [Last(s.unmatchedReqs)] == s.unmatchedReqs;
  }

  lemma NewFrameRest(c: Place, f: Frame, avail: seq<Id>)
    requires f.cur.None? && f.remaining == avail
    ensures RestFrame(c, f, avail) == Hosts(c.(rest := c.rest + [f.id]), avail)
  {
    InitLast(c.rest, f.id);
    var others := Machines(c, f.id, avail, avail);
    assert c.(rest := c.rest + [f.id]).(rest := c.rest) == c;
    assert [] + others.found == others.found;
  }

  /** A pool just started leads to what the recursive search of all hosts finds. */
  lemma FirstComing(p: Problem, s: State)
    requires s.stack == [] && s.unmatchedReqs != []
    ensures Coming(p, PushMachine(p, s), false) == Hosts(Place(p, map[], map[], s.unmatchedReqs), s.unmatchedPool).found
  {
    hide Machines, RestFrame, Hosts;
    var s' := PushMachine(p, s);
    InitLast(s.stack, Last(s'.stack));
    assert PlaceOf(p, Init(s'.stack), s'.unmatchedReqs) == Place(p, map[], map[], s'.unmatchedReqs);
    NewFrameRest(PlaceOf(p, Init(s'.stack), s'.unmatchedReqs), Last(s'.stack), s.unmatchedPool);
    assert Init(s.unmatchedReqs) + [Last(s.unmatchedReqs)] == s.unmatchedReqs;
    var c := Place(p, map[], map[], s'.unmatchedReqs);
    assert c.(rest := c.rest + [Last(s'.stack).id]) == Place(p, map[], map[], s.unmatchedReqs);
    var w := Hosts(Place(p, map[], map[], s.unmatchedReqs), s.unmatchedPool);
    assert RestFrame(c, Last(s'.stack), s.unmatchedPool) == w;
    assert RestFrames(p, Init(s'.stack), s'.unmatchedReqs + [Last(s'.stack).id], w.avail) == [];
    assert w.found + [] == w.found;
  }

  lemma PopMachineComing(p: Problem, s: State)
    requires s.stack != [] && Last(s.stack).cur.None? && Last(s.stack).remaining == []
    ensures SameComing(p, s, false, PopMachine(s), false)
  {
    var rest := RestFrames(p, Init(s.stack), s.unmatchedReqs + [Last(s.stack).id], s.unmatchedPool);
    assert [] + [] + rest == rest;
  }

  /** A complete state leads to the match it spells out first, and then back. */
  lemma YieldComing(p: Problem, s: State)
    requires s.stack != [] && FrameDone(p, Last(s.stack)) && (p.virtual ==> Last(s.stack).ifStack == [])
    requires s.unmatchedReqs == [] && s.net == NetOf(p, s.stack)
    ensures Coming(p, s, true) == [FoundOf(s)] + Coming(p, s, false)
  {
    hide Onward, RestFrame;
    OnwardDone(p, s.stack, s.unmatchedReqs, s.unmatchedPool);
    var f := Last(s.stack);
    assert SetLast(s.stack, f.(unmatchedPoolIfs := f.unmatchedPoolIfs)) == s.stack;
  }

  // ---- Both at once ----

  lemma UnmapIfOrdered(p: Problem, s: State)
    requires s.stack != [] && Last(s.stack).ifStack != []
    ensures KeepsOrder(p, s, false, UnmapIf(p, s), false)
  {
    hide Sorted, Coming;
    UnmapIfSorted(p, s);
    UnmapIfComing(p, s);
  }

  lemma DropIfOrdered(p: Problem, s: State)
    requires MustDropIf(p, s)
    ensures KeepsOrder(p, s, false, DropIf(s), false)
  {
    hide Sorted, Coming;
    DropIfSorted(p, s);
    DropIfComing(p, s);
  }

  lemma TakeIfOrdered(p: Problem, s: State)
    requires CanTakeIf(p, s)
    ensures KeepsOrder(p, s, false, TakeIf(p, s), true)
  {
    hide Sorted, Coming;
    TakeIfSorted(p, s);
    TakeIfComing(p, s);
  }

  lemma PushIfOrdered(p: Problem, s: State)
    requires s.stack != [] && !p.virtual && Last(s.stack).cur.Some? && Last(s.stack).unmatchedIfs != []
    requires Last(s.stack).ifStack != [] || Descending(Last(s.stack).unmatchedPoolIfs)
    ensures KeepsOrder(p, s, true, PushIf(s), false)
  {
    hide Sorted, Coming;
    PushIfSorted(p, s);
    PushIfComing(p, s);
  }

  lemma PopIfOrdered(p: Problem, s: State)
    requires s.stack != [] && Last(s.stack).ifStack != []
    requires Last(Last(s.stack).ifStack).cur.None? && Last(Last(s.stack).ifStack).remaining == []
    ensures KeepsOrder(p, s, false, PopIf(s), false)
  {
    hide Sorted, Coming;
    PopIfSorted(p, s);
    PopIfComing(p, s);
  }

  lemma UnmapMachineOrdered(p: Problem, s: State)
    requires s.stack != [] && Last(s.stack).ifStack == []
    ensures KeepsOrder(p, s, false, UnmapMachine(s), false)
  {
    hide Sorted, Coming;
    UnmapMachineSorted(p, s);
    UnmapMachineComing(p, s);
  }

  lemma DropMachineOrdered(p: Problem, s: State)
    requires s.stack != [] && Last(s.stack).cur.None? && Last(s.stack).remaining != []
    requires !MachineFits(p, Last(s.stack).id, Last(Last(s.stack).remaining))
    ensures KeepsOrder(p, s, false, DropMachine(s), false)
  {
    hide Sorted, Coming;
    DropMachineSorted(p, s);
    DropMachineComing(p, s);
  }

  lemma TopInOrder(p: Problem, fs: seq<Frame>)
    requires Sorted(p, fs) && fs != [] && Last(fs).ifStack == []
    ensures Last(fs).unmatchedIfs == SortedDesc(ReqIfs(p, Last(fs).id).Keys)
  {
    hide FrameSorted, SortedDesc;
    assert IfsInOrder(p, fs[|fs| - 1]);
  }

  lemma TakeMachineOrdered(p: Problem, s: State)
    requires s.stack != [] && Last(s.stack).cur.None? && Last(s.stack).remaining != [] && Last(s.stack).ifStack == []
    requires MachineFits(p, Last(s.stack).id, Last(Last(s.stack).remaining))
    ensures KeepsOrder(p, s, false, TakeMachine(p, s), true)
  {
    hide Sorted, Coming;
    TakeMachineSorted(p, s);
    if Sorted(p, s.stack) {
      TopInOrder(p, s.stack);
      TakeMachineComing(p, s);
    }
  }

  lemma PushMachineOrdered(p: Problem, s: State)
    requires Inv(p, s) && s.stack != [] && FrameDone(p, Last(s.stack)) && s.unmatchedReqs != []
    ensures KeepsOrder(p, s, true, PushMachine(p, s), false)
  {
    hide Sorted, Coming;
    PushMachineSorted(p, s);
    PushMachineComing(p, s);
  }

  lemma PopMachineOrdered(p: Problem, s: State)
    requires s.stack != [] && Last(s.stack).cur.None? && Last(s.stack).remaining == []
    ensures KeepsOrder(p, s, false, PopMachine(s), false)
  {
    hide Sorted, Coming;
    PopMachineSorted(p, s);
    PopMachineComing(p, s);
  }

  /** Marking a host in virtual matching changes neither. */
  lemma MarkOrdered(p: Problem, s: State, s': State)
    requires s.stack != [] && s' == SetTop(s, Last(s.stack).(virtMatched := true))
    ensures KeepsOrder(p, s, true, s', true)
  {
    TopSorted(p, s.stack, s'.stack);
    var f, f' := Last(s.stack), Last(s'.stack);
    if f.cur.Some? {
      var w := Onward(PlaceOf(p, Init(s.stack), s.unmatchedReqs), f, s.unmatchedPool);
      assert Onward(PlaceOf(p, Init(s.stack), s.unmatchedReqs), f', s.unmatchedPool) == w;
      SameBack(p, SetLast(s.stack, f.(unmatchedPoolIfs := w.ports)), SetLast(s'.stack, f'.(unmatchedPoolIfs := w.ports)), s.unmatchedReqs, w.avail);
    } else {
      SameBack(p, s.stack, s'.stack, s.unmatchedReqs, s.unmatchedPool);
    }
  }

  lemma SameBack(p: Problem, fs: seq<Frame>, fs': seq<Frame>, rest: seq<Id>, avail: seq<Id>)
    requires fs != [] && fs' == SetLast(fs, Last(fs).(virtMatched := true))
    ensures RestFrames(p, fs, rest, avail) == RestFrames(p, fs', rest, avail)
  {
  }
}
