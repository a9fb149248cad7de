/** The guarantees of the search moves, chained: from one moment of the search to a later one. */
module SearchProgress {
  import opened Sequences
  import opened SortedKeys
  import opened MatchModel
  import opened SearchState
  import opened SearchMoves
  import opened SearchTermination
  import opened SearchOrder
  import opened SearchResume

  /** Only the interface part of the top frame differs. */
  ghost predicate IfPartOnly(fs: seq<Frame>, fs': seq<Frame>) {
    && fs != [] && fs' != [] && Init(fs') == Init(fs)
    && Last(fs').id == Last(fs).id && Last(fs').cur == Last(fs).cur
    && Last(fs').virtMatched == Last(fs).virtMatched
  }

  ghost function WorkOf(p: Problem, s: State, pend: bool): nat {
    Work(BoundsOf(p), s.stack, pend)
  }

  /** `s` is reached from `s0` by interface moves on the top frame. */
  ghost predicate IfProgress(p: Problem, s0: State, pend0: bool, s: State, pend: bool) {
    && Inv(p, s) && IfPartOnly(s0.stack, s.stack)
    && s.unmatchedReqs == s0.unmatchedReqs && s.unmatchedPool == s0.unmatchedPool
    && Same(p, s0.stack, pend0, s.stack, pend)
    && WorkOf(p, s, pend) <= WorkOf(p, s0, pend0)
    && KeepsOrder(p, s0, pend0, s, pend)
  }

  lemma IfProgressStarts(p: Problem, s: State, pend: bool)
    requires Inv(p, s) && s.stack != []
    ensures IfProgress(p, s, pend, s, pend)
  {
  }

  lemma TakeIfProgress(p: Problem, s0: State, s: State)
    requires IfProgress(p, s0, false, s, false) && CanTakeIf(p, s)
    ensures IfProgress(p, s0, false, TakeIf(p, s), true)
    ensures IfsMapped(Last(TakeIf(p, s).stack).ifStack)
    ensures WorkOf(p, TakeIf(p, s), true) < WorkOf(p, s0, false)
  {
    TakeIfOrdered(p, s);
    TakeIfKeeps(p, s);
    TakeIfWork(p, BoundsOf(p), s);
  }

  lemma DropIfProgress(p: Problem, s0: State, s: State)
    requires IfProgress(p, s0, false, s, false) && MustDropIf(p, s)
    ensures IfProgress(p, s0, false, DropIf(s), false)
    ensures WorkOf(p, DropIf(s), false) < WorkOf(p, s, false)
  {
    DropIfOrdered(p, s);
    DropIfKeeps(p, s);
    DropIfWork(BoundsOf(p), s);
  }

  lemma SameChains(p: Problem, fs0: seq<Frame>, pend0: bool, fs1: seq<Frame>, pend1: bool, fs2: seq<Frame>, pend2: bool)
    requires Same(p, fs0, pend0, fs1, pend1) && Same(p, fs1, pend1, fs2, pend2)
    ensures Same(p, fs0, pend0, fs2, pend2)
  {
    forall m | Legal(p, m) ensures ToFind(fs0, pend0, m) <==> ToFind(fs2, pend2, m) {
      assert ToFind(fs0, pend0, m) <==> ToFind(fs1, pend1, m);
    }
  }

  lemma IfProgressChains(p: Problem, s0: State, pend0: bool, s1: State, pend1: bool, s2: State, pend2: bool)
    requires IfProgress(p, s0, pend0, s1, pend1) && IfProgress(p, s1, pend1, s2, pend2)
    ensures IfProgress(p, s0, pend0, s2, pend2)
  {
    SameChains(p, s0.stack, pend0, s1.stack, pend1, s2.stack, pend2);
  }

  /** What the interface loop looks up for its top frame is there. */
  lemma TopIfFacts(p: Problem, s: State)
    requires Inv(p, s) && s.stack != [] && Last(s.stack).ifStack != []
    ensures AtIf(p, s)
    ensures var f := Last(s.stack); var g := Last(f.ifStack);
            && f.id in p.reqs && f.cur.value in p.pool && g.ifId in p.reqs[f.id].interfaces
            && (g.cur.Some? ==> g.cur.value in p.pool[f.cur.value].interfaces)
            && (g.remaining != [] ==> Last(g.remaining) in p.pool[f.cur.value].interfaces)
  {
    var f := Last(s.stack);
    var g := Last(f.ifStack);
    assert IfStackInv(p, f.id, f.cur.value, NetOf(p, Init(s.stack)), f.ifStack);
    if g.remaining != [] {
      assert Last(g.remaining) in Elems(g.remaining);
    }
  }

  lemma UnmapIfPartOnly(p: Problem, s: State)
    requires s.stack != [] && Last(s.stack).ifStack != []
    ensures IfPartOnly(s.stack, UnmapIf(p, s).stack)
    ensures UnmapIf(p, s).unmatchedReqs == s.unmatchedReqs && UnmapIf(p, s).unmatchedPool == s.unmatchedPool
  {
  }

  lemma UnmapIfProgress(p: Problem, s: State)
    requires AtIf(p, s)
    ensures IfProgress(p, s, false, UnmapIf(p, s), false)
  {
    hide Inv, Same, UnmapIf, Work, BoundsOf, IfPartOnly;
    UnmapIfPartOnly(p, s);
    UnmapIfOrdered(p, s);
    UnmapIfKeeps(p, s);
    UnmapIfWork(p, BoundsOf(p), s);
  }

  lemma PushIfProgress(p: Problem, s: State)
    requires Inv(p, s) && s.stack != [] && !p.virtual && Last(s.stack).cur.Some?
    requires Last(s.stack).unmatchedIfs != [] && IfsMapped(Last(s.stack).ifStack)
    requires Last(s.stack).ifStack != [] || Descending(Last(s.stack).unmatchedPoolIfs)
    ensures IfProgress(p, s, true, PushIf(s), false)
    ensures WorkOf(p, PushIf(s), false) < WorkOf(p, s, true)
  {
    PushIfOrdered(p, s);
    PushIfKeeps(p, s);
    PushIfWork(p, BoundsOf(p), s);
  }

  lemma PopIfProgress(p: Problem, s: State)
    requires AtIf(p, s)
    requires Last(Last(s.stack).ifStack).cur.None? && Last(Last(s.stack).ifStack).remaining == []
    ensures IfProgress(p, s, false, PopIf(s), false)
    ensures WorkOf(p, PopIf(s), false) < WorkOf(p, s, false)
  {
    PopIfOrdered(p, s);
    PopIfKeeps(p, s);
    PopIfWork(BoundsOf(p), s);
  }

  // ---- Whole frames ----

  /** `s` is reached from `s0` by moves on the top frame. */
  ghost predicate TopProgress(p: Problem, s0: State, pend0: bool, s: State, pend: bool) {
    && Inv(p, s) && s0.stack != [] && s.stack != [] && Init(s.stack) == Init(s0.stack)
    && Last(s.stack).id == Last(s0.stack).id && s.unmatchedReqs == s0.unmatchedReqs
    && Same(p, s0.stack, pend0, s.stack, pend)
    && WorkOf(p, s, pend) <= WorkOf(p, s0, pend0)
    && KeepsOrder(p, s0, pend0, s, pend)
  }

  lemma TopProgressChains(p: Problem, s0: State, pend0: bool, s1: State, pend1: bool, s2: State, pend2: bool)
    requires TopProgress(p, s0, pend0, s1, pend1) && TopProgress(p, s1, pend1, s2, pend2)
    ensures TopProgress(p, s0, pend0, s2, pend2)
  {
    SameChains(p, s0.stack, pend0, s1.stack, pend1, s2.stack, pend2);
  }

  /** Virtual matching maps no interfaces; it only marks the host as matched. */
  function MarkVirtual(s: State): State
    requires s.stack != []
  {
    SetTop(s, Last(s.stack).(virtMatched := true))
  }

  lemma MarkVirtualInv(p: Problem, s: State)
    requires Inv(p, s) && s.stack != [] && Last(s.stack).cur.Some?
    ensures Inv(p, MarkVirtual(s))
  {
    assert FrameInv(p, Init(s.stack), Last(MarkVirtual(s).stack));
    ReplaceTopInv(p, s, MarkVirtual(s));
  }

  lemma MarkVirtualSame(p: Problem, fs: seq<Frame>, fs': seq<Frame>, pend: bool)
    requires fs != [] && fs' == SetLast(fs, Last(fs).(virtMatched := true))
    ensures Same(p, fs, pend, fs', pend)
  {
  }

  lemma MarkVirtualWork(b: Bounds, s: State)
    requires s.stack != []
    ensures Work(b, MarkVirtual(s).stack, true) == Work(b, s.stack, true)
  {
  }

  lemma MarkVirtualProgress(p: Problem, s: State)
    requires Inv(p, s) && s.stack != [] && Last(s.stack).cur.Some?
    ensures TopProgress(p, s, true, MarkVirtual(s), true)
  {
    assert Inv(p, MarkVirtual(s)) by { MarkVirtualInv(p, s); }
    assert Same(p, s.stack, true, MarkVirtual(s).stack, true) by { MarkVirtualSame(p, s.stack, MarkVirtual(s).stack, true); }
    MarkOrdered(p, s, MarkVirtual(s));
    assert WorkOf(p, MarkVirtual(s), true) == WorkOf(p, s, true) by { MarkVirtualWork(BoundsOf(p), s); }
  }

  lemma IfProgressIsTopProgress(p: Problem, s0: State, pend0: bool, s: State, pend: bool)
    requires IfProgress(p, s0, pend0, s, pend)
    ensures TopProgress(p, s0, pend0, s, pend)
  {
  }

  /** An interface frame mapped last of all leaves the host done. */
  lemma LastIfDone(p: Problem, s: State)
    requires Inv(p, s) && s.stack != [] && Last(s.stack).ifStack != [] && Last(s.stack).unmatchedIfs == []
    requires IfsMapped(Last(s.stack).ifStack)
    ensures FrameDone(p, Last(s.stack)) && !p.virtual
  {
  }

  lemma UnmapMachineProgress(p: Problem, s: State)
    requires Inv(p, s) && s.stack != [] && Last(s.stack).ifStack == []
    ensures TopProgress(p, s, false, UnmapMachine(s), false)
  {
    UnmapMachineOrdered(p, s);
    UnmapMachineKeeps(p, s);
    UnmapMachineWork(BoundsOf(p), s);
  }

  lemma DropMachineProgress(p: Problem, s: State)
    requires Inv(p, s) && s.stack != [] && Last(s.stack).cur.None? && Last(s.stack).remaining != []
    requires !MachineFits(p, Last(s.stack).id, Last(Last(s.stack).remaining))
    ensures TopProgress(p, s, false, DropMachine(s), false)
  {
    DropMachineOrdered(p, s);
    DropMachineKeeps(p, s);
    DropMachineWork(BoundsOf(p), s);
  }

  lemma TakeMachineProgress(p: Problem, s: State)
    requires CanTakeMachine(p, s)
    requires Last(s.stack).ifStack == []
    ensures TopProgress(p, s, false, TakeMachine(p, s), true)
    ensures WorkOf(p, TakeMachine(p, s), true) < WorkOf(p, s, false)
  {
    TakeMachineOrdered(p, s);
    TakeMachineKeeps(p, s);
    TakeMachineWork(p, BoundsOf(p), s);
  }

  /** What the machine loop looks up for its top frame is there. */
  lemma TopFacts(p: Problem, s: State)
    requires Inv(p, s) && s.stack != []
    ensures Last(s.stack).id in p.reqs
    ensures |Last(s.stack).ifStack| + |Last(s.stack).unmatchedIfs| == |p.reqs[Last(s.stack).id].interfaces|
    ensures Last(s.stack).remaining != [] ==> Last(Last(s.stack).remaining) in p.pool
  {
    var f := Last(s.stack);
    assert FrameInv(p, Init(s.stack), f);
    if f.remaining != [] {
      assert Last(f.remaining) in Elems(f.remaining);
    }
  }

  // ---- Frames pushed and popped ----

  /** In virtual matching a host mapped by the previous round still has its match pending. */
  ghost predicate PendingOf(p: Problem, fs: seq<Frame>) {
    fs != [] && p.virtual && Last(fs).cur.Some? && !Last(fs).virtMatched
  }

  lemma DoneNotPending(p: Problem, fs: seq<Frame>)
    requires StackDone(p, fs)
    ensures !PendingOf(p, fs)
  {
  }

  lemma TopDone(p: Problem, s: State)
    requires Inv(p, s) && s.stack != [] && FrameDone(p, Last(s.stack))
    ensures StackDone(p, s.stack) && !PendingOf(p, s.stack)
  {
  }

  lemma LastUnmatchedRequired(p: Problem, s: State)
    requires Inv(p, s) && s.unmatchedReqs != []
    ensures Last(s.unmatchedReqs) in p.reqs
  {
    assert Last(s.unmatchedReqs) in Elems(s.unmatchedReqs);
  }

  /** `s` is reached from `s0` without losing or repeating a match, for less work ahead. */
  ghost predicate Advances(p: Problem, s0: State, pend0: bool, s: State, pend: bool) {
    && Inv(p, s)
    && Same(p, s0.stack, pend0, s.stack, pend)
    && WorkOf(p, s, pend) < WorkOf(p, s0, pend0)
    && KeepsOrder(p, s0, pend0, s, pend)
  }

  /** What a round that ends on a complete match leaves as it was. */
  lemma ProgressFacts(p: Problem, s0: State, pend0: bool, s: State)
    requires TopProgress(p, s0, pend0, s, true) && Sorted(p, s0.stack)
    ensures s0.stack != [] && s.stack != [] && Inv(p, s) && Sorted(p, s.stack)
    ensures Same(p, s0.stack, pend0, s.stack, true) && SameComing(p, s0, pend0, s, true)
    ensures WorkOf(p, s, true) <= WorkOf(p, s0, pend0)
  {
  }

  /** What any other round leaves as it was. */
  lemma AdvanceFacts(p: Problem, s0: State, pend0: bool, s: State, pend: bool)
    requires Advances(p, s0, pend0, s, pend) && Sorted(p, s0.stack)
    ensures Inv(p, s) && Sorted(p, s.stack)
    ensures Same(p, s0.stack, pend0, s.stack, pend) && SameComing(p, s0, pend0, s, pend)
    ensures WorkOf(p, s, pend) < WorkOf(p, s0, pend0)
  {
  }

  lemma PushMachineAdvances(p: Problem, s0: State, pend0: bool, s: State)
    requires TopProgress(p, s0, pend0, s, true) && FrameDone(p, Last(s.stack)) && s.unmatchedReqs != []
    ensures Advances(p, s0, pend0, PushMachine(p, s), false)
    ensures !PendingOf(p, PushMachine(p, s).stack)
  {
    PushMachineOrdered(p, s);
    TopDone(p, s);
    PushMachineKeeps(p, s);
    PushMachineWork(p, BoundsOf(p), s);
    SameChains(p, s0.stack, pend0, s.stack, true, PushMachine(p, s).stack, false);
  }

  lemma PopMachineAdvances(p: Problem, s0: State, s: State)
    requires TopProgress(p, s0, false, s, false) && Last(s.stack).cur.None? && Last(s.stack).remaining == []
    ensures Advances(p, s0, false, PopMachine(s), false)
    ensures !PendingOf(p, PopMachine(s).stack)
  {
    PopMachineOrdered(p, s);
    PopMachineKeeps(p, s);
    PopMachineWork(BoundsOf(p), s);
    SameChains(p, s0.stack, false, s.stack, false, PopMachine(s).stack, false);
    DoneNotPending(p, PopMachine(s).stack);
  }

  lemma PushIfAdvances(p: Problem, s0: State, s: State)
    requires TopProgress(p, s0, false, s, true) && WorkOf(p, s, true) < WorkOf(p, s0, false) && !p.virtual
    requires Last(s.stack).cur.Some? && Last(s.stack).ifStack == [] && Last(s.stack).unmatchedIfs != []
    requires Descending(Last(s.stack).unmatchedPoolIfs)
    ensures Advances(p, s0, false, PushIf(s), false)
  {
    PushIfProgress(p, s);
    SameChains(p, s0.stack, false, s.stack, true, PushIf(s).stack, false);
  }

  lemma ProgressThenAdvance(p: Problem, s0: State, pend0: bool, s: State, pend: bool, s': State, pend': bool)
    requires TopProgress(p, s0, pend0, s, pend) && Advances(p, s, pend, s', pend')
    ensures Advances(p, s0, pend0, s', pend')
  {
    SameChains(p, s0.stack, pend0, s.stack, pend, s'.stack, pend');
  }

  // ---- The order in which hosts are on the stack ----

  /** The stack holds the first hosts in ascending order, the list of unmatched ones the others in descending order. */
  ghost predicate InOrder(p: Problem, s: State) {
    var order := SortedDesc(p.reqs.Keys);
    && |s.stack| <= |order|
    && s.unmatchedReqs == order[..|order| - |s.stack|]
    && forall k :: 0 <= k < |s.stack| ==> s.stack[k].id == order[|order| - 1 - k]
  }

  lemma TopProgressInOrder(p: Problem, s0: State, pend0: bool, s: State, pend: bool)
    requires TopProgress(p, s0, pend0, s, pend) && InOrder(p, s0)
    ensures InOrder(p, s) && |s.stack| == |s0.stack|
  {
    hide Inv, Same, WorkOf;
    assert |Init(s.stack)| == |Init(s0.stack)|;
    forall k | 0 <= k < |s.stack| ensures s.stack[k].id == s0.stack[k].id {
      if k < |s.stack| - 1 {
        assert s.stack[k] == Init(s.stack)[k] && s0.stack[k] == Init(s0.stack)[k];
      }
    }
  }

  lemma PushMachineInOrder(p: Problem, s: State)
    requires InOrder(p, s) && s.unmatchedReqs != []
    ensures InOrder(p, PushMachine(p, s))
  {
  }

  lemma PopMachineInOrder(p: Problem, s: State)
    requires InOrder(p, s) && s.stack != []
    ensures InOrder(p, PopMachine(s))
  {
    var order := SortedDesc(p.reqs.Keys);
    var n := |order| - |s.stack|;
    assert order[..n + 1] == order[..n] + [order[n]];
  }

  lemma PushIfInOrder(p: Problem, s: State)
    requires InOrder(p, s) && s.stack != [] && Last(s.stack).unmatchedIfs != []
    ensures InOrder(p, PushIf(s))
  {
  }
}
