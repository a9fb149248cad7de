/** The order in which the search tries candidates: the bottom host's machines, and each machine's first interface, in ascending order. */
module SearchOrder {
  import opened Sequences
  import opened SortedKeys
  import opened MatchModel
  import opened SearchState

  /** What is still to be tried comes in descending order, to be taken from the end, and nothing less than the present candidate is left. */
  ghost predicate Tried(remaining: seq<Id>, cur: Option<Id>) {
    Descending(remaining) && (cur.Some? ==> forall k :: 0 <= k < |remaining| ==> LexLe(cur.value, remaining[k]))
  }

  /** The interface stack holds the first interfaces in ascending order, the list of unmatched ones the others in descending order. */
  ghost predicate IfsInOrder(p: Problem, f: Frame) {
    var order := SortedDesc(ReqIfs(p, f.id).Keys);
    && |f.ifStack| <= |order|
    && f.unmatchedIfs == order[..|order| - |f.ifStack|]
    && forall k :: 0 <= k < |f.ifStack| ==> f.ifStack[k].ifId == order[|order| - 1 - k]
  }

  ghost predicate FrameSorted(p: Problem, f: Frame) {
    && Tried(f.remaining, f.cur)
    && IfsInOrder(p, f)
    && (f.ifStack != [] ==> Tried(f.ifStack[0].remaining, f.ifStack[0].cur))
  }

  ghost predicate Sorted(p: Problem, fs: seq<Frame>) {
    && (forall k :: 0 <= k < |fs| ==> IfsInOrder(p, fs[k]))
    && (fs != [] ==> FrameSorted(p, fs[0]))
  }

  ghost predicate KeepsSorted(p: Problem, fs: seq<Frame>, fs': seq<Frame>) {
    Sorted(p, fs) ==> Sorted(p, fs')
  }

  // ---- Moves on the top frame ----

  lemma TopSorted(p: Problem, fs: seq<Frame>, fs': seq<Frame>)
    requires fs != [] && fs' != [] && Init(fs') == Init(fs)
    requires FrameSorted(p, Last(fs)) ==> FrameSorted(p, Last(fs'))
    requires IfsInOrder(p, Last(fs)) ==> IfsInOrder(p, Last(fs'))
    ensures KeepsSorted(p, fs, fs')
  {
    hide IfsInOrder, FrameSorted;
    assert |Init(fs)| == |Init(fs')|;
    if Sorted(p, fs) {
      assert IfsInOrder(p, fs[|fs| - 1]);
      forall k | 0 <= k < |fs'| ensures IfsInOrder(p, fs'[k]) && (|fs| > 1 ==> fs'[0] == fs[0]) {
        if k < |fs'| - 1 {
          assert fs'[k] == Init(fs')[k] == Init(fs)[k] == fs[k];
        }
        if |fs| > 1 {
          assert fs[0] == Init(fs)[0] == Init(fs')[0] == fs'[0];
        }
      }
    }
  }

  /** A change of the top interface frame that keeps its order keeps that of the host. */
  lemma TopIfSorted(p: Problem, f: Frame, g: IfFrame, unmatchedPoolIfs: seq<Id>)
    requires f.ifStack != [] && g.ifId == Last(f.ifStack).ifId
    requires Tried(Last(f.ifStack).remaining, Last(f.ifStack).cur) ==> Tried(g.remaining, g.cur)
    ensures var f' := f.(ifStack := SetLast(f.ifStack, g), unmatchedPoolIfs := unmatchedPoolIfs);
            (FrameSorted(p, f) ==> FrameSorted(p, f')) && (IfsInOrder(p, f) ==> IfsInOrder(p, f'))
  {
    hide Tried;
  }

  lemma NextTried(remaining: seq<Id>, cur: Option<Id>)
    requires Tried(remaining, cur)
    ensures Tried(remaining, None)
    ensures remaining != [] ==> Tried(Init(remaining), cur) && Tried(Init(remaining), Some(Last(remaining)))
  {
  }

  lemma UnmapIfSorted(p: Problem, s: State)
    requires s.stack != [] && Last(s.stack).ifStack != []
    ensures KeepsSorted(p, s.stack, UnmapIf(p, s).stack)
  {
    hide FrameSorted, IfsInOrder;
    var f := Last(s.stack);
    var g := Last(f.ifStack);
    if g.cur.Some? && f.cur.Some? {
      TopIfSorted(p, f, g.(cur := None), f.unmatchedPoolIfs + [g.cur.value]);
    }
    TopSorted(p, s.stack, UnmapIf(p, s).stack);
  }

  lemma DropIfSorted(p: Problem, s: State)
    requires s.stack != [] && Last(s.stack).ifStack != [] && Last(Last(s.stack).ifStack).remaining != []
    ensures KeepsSorted(p, s.stack, DropIf(s).stack)
  {
    hide FrameSorted, IfsInOrder;
    var f := Last(s.stack);
    var g := Last(f.ifStack);
    TopIfSorted(p, f, g.(remaining := Init(g.remaining)), f.unmatchedPoolIfs);
    TopSorted(p, s.stack, DropIf(s).stack);
  }

  lemma TakeIfSorted(p: Problem, s: State)
    requires s.stack != [] && Last(s.stack).ifStack != [] && Last(Last(s.stack).ifStack).remaining != []
    requires Last(s.stack).cur.Some?
    ensures KeepsSorted(p, s.stack, TakeIf(p, s).stack)
  {
    hide FrameSorted, IfsInOrder;
    var f := Last(s.stack);
    var g := Last(f.ifStack);
    var v := Last(g.remaining);
    TopIfSorted(p, f, g.(cur := Some(v), remaining := Init(g.remaining)), Remove(f.unmatchedPoolIfs, v));
    TopSorted(p, s.stack, TakeIf(p, s).stack);
  }

  lemma PushIfSorted(p: Problem, s: State)
    requires s.stack != [] && Last(s.stack).unmatchedIfs != []
    requires Last(s.stack).ifStack != [] || Descending(Last(s.stack).unmatchedPoolIfs)
    ensures KeepsSorted(p, s.stack, PushIf(s).stack)
  {
    TopSorted(p, s.stack, PushIf(s).stack);
  }

  lemma PopIfInOrder(p: Problem, f: Frame, f': Frame)
    requires IfsInOrder(p, f) && f.ifStack != []
    requires f' == f.(unmatchedIfs := f.unmatchedIfs + [Last(f.ifStack).ifId], ifStack := Init(f.ifStack))
    ensures IfsInOrder(p, f')
  {
    hide SortedDesc;
    var order, n := SortedDesc(ReqIfs(p, f.id).Keys), |f.ifStack|;
    assert order[..|order| - n] + [order[|order| - n]] == order[..|order| - (n - 1)];
  }

  lemma PopIfSorted(p: Problem, s: State)
    requires s.stack != [] && Last(s.stack).ifStack != []
    ensures KeepsSorted(p, s.stack, PopIf(s).stack)
  {
    hide Sorted, IfsInOrder, Tried;
    var f, f' := Last(s.stack), Last(PopIf(s).stack);
    if IfsInOrder(p, f) {
      PopIfInOrder(p, f, f');
      assert f'.ifStack != [] ==> f'.ifStack[0] == f.ifStack[0];
    }
    TopSorted(p, s.stack, PopIf(s).stack);
  }

  lemma UnmapMachineSorted(p: Problem, s: State)
    requires s.stack != []
    ensures KeepsSorted(p, s.stack, UnmapMachine(s).stack)
  {
    TopSorted(p, s.stack, UnmapMachine(s).stack);
  }

  lemma DropMachineSorted(p: Problem, s: State)
    requires s.stack != [] && Last(s.stack).remaining != []
    ensures KeepsSorted(p, s.stack, DropMachine(s).stack)
  {
    TopSorted(p, s.stack, DropMachine(s).stack);
  }

  lemma TakeMachineSorted(p: Problem, s: State)
    requires s.stack != [] && Last(s.stack).remaining != [] && Last(s.stack).ifStack == []
    ensures KeepsSorted(p, s.stack, TakeMachine(p, s).stack)
  {
    TopSorted(p, s.stack, TakeMachine(p, s).stack);
  }

  lemma PushMachineSorted(p: Problem, s: State)
    requires s.unmatchedReqs != [] && s.stack != []
    ensures KeepsSorted(p, s.stack, PushMachine(p, s).stack)
  {
  }

  lemma PopMachineSorted(p: Problem, s: State)
    requires s.stack != []
    ensures KeepsSorted(p, s.stack, PopMachine(s).stack)
  {
  }

  lemma FirstPushSorted(p: Problem, s: State)
    requires s.stack == [] && s.unmatchedReqs != [] && Descending(s.unmatchedPool)
    ensures Sorted(p, PushMachine(p, s).stack)
  {
  }
}
