/** The measure that falls at every map, push and pop of the search, in both nested stacks. */
module SearchTermination {
  import opened Sequences
  import opened SortedKeys
  import opened MatchModel
  import opened SearchState
  import opened SearchMoves

  /** Bounds on the number of hosts, of interfaces of one host, and of candidates of one level. */
  datatype Bounds = Bounds(hosts: nat, ifs: nat, width: nat)

  ghost predicate Bounded(p: Problem, b: Bounds) {
    && |p.reqs| == b.hosts
    && |p.pool| <= b.width
    && (forall h :: h in p.reqs ==> |p.reqs[h].interfaces| <= b.ifs)
    && (forall t :: t in p.pool ==> |p.pool[t].interfaces| <= b.width)
  }

  lemma {:induction false} InterfaceBound(ms: map<Id, Machine>) returns (n: nat)
    ensures forall h :: h in ms ==> |ms[h].interfaces| <= n
  {
    n := 0;
    var rest := ms.Keys;
    while rest != {}
      invariant rest <= ms.Keys
      invariant forall h :: h in ms && h !in rest ==> |ms[h].interfaces| <= n
      decreases rest
    {
      var h :| h in rest;
      rest := rest - {h};
      if |ms[h].interfaces| > n { n := |ms[h].interfaces|; }
    }
  }

  lemma BoundsExist(p: Problem)
    ensures exists b :: Bounded(p, b)
  {
    var i := InterfaceBound(p.reqs);
    var w := InterfaceBound(p.pool);
    assert Bounded(p, Bounds(|p.reqs|, i, |p.pool| + w));
  }

  ghost function BoundsOf(p: Problem): (b: Bounds)
    ensures Bounded(p, b)
  {
    BoundsExist(p);
    var b :| Bounded(p, b);
    b
  }

  /** What the search below a freshly mapped level can cost when `k` levels are still to come. */
  ghost function Cost(width: nat, k: int): nat
    decreases k
  {
    if k <= 0 then 1 else width * (Cost(width, k - 1) + 1) + 2
  }

  lemma AtLeastOnce(w: nat, c: nat)
    requires w >= 1
    ensures w * c >= c
  {
    Product(0, w, c);
  }

  lemma {:induction false} CostGrows(width: nat, j: int, k: int)
    requires j <= k
    ensures Cost(width, j) <= Cost(width, k)
    decreases k - j
  {
    if j < k {
      CostGrows(width, j, k - 1);
      if width > 0 {
        AtLeastOnce(width, Cost(width, k - 1) + 1);
      } else {
        assert Cost(0, k - 1) <= 2;
      }
    }
  }

  /** The cost of a level with `n` candidates left and `k` levels above it. */
  ghost function LevelWork(width: nat, n: nat, k: int): nat {
    n * (Cost(width, k) + 1) + 1
  }

  lemma {:induction false} Product(m: nat, n: nat, c: nat)
    requires m < n
    ensures m * c + c <= n * c
    decreases n
  {
    assert n * c == (n - 1) * c + c;
    if m < n - 1 {
      Product(m, n - 1, c);
    }
  }

  lemma LevelWorkFalls(width: nat, n: nat, n': nat, k: int)
    requires n' < n
    ensures LevelWork(width, n', k) + Cost(width, k) < LevelWork(width, n, k)
  {
    Product(n', n, Cost(width, k) + 1);
  }

  lemma LevelWorkFits(width: nat, n: nat, k: int)
    requires n <= width && k >= 0
    ensures LevelWork(width, n, k) < Cost(width, k + 1)
  {
    if n < width {
      Product(n, width, Cost(width, k) + 1);
    }
  }

  ghost function IfWork(width: nat, k: int, gs: seq<IfFrame>): nat {
    if gs == [] then 0
    else IfWork(width, k, Init(gs)) + LevelWork(width, |Last(gs).remaining|, k - |gs|)
  }

  /** The number of levels from machine frame number `j` on. */
  ghost function Levels(b: Bounds, j: int): int {
    (b.hosts - j) * (b.ifs + 1)
  }

  ghost function FrameWork(b: Bounds, j: int, f: Frame): nat {
    LevelWork(b.width, |f.remaining|, Levels(b, j) - 1) + IfWork(b.width, Levels(b, j) - 1, f.ifStack)
  }

  ghost function StackWork(b: Bounds, fs: seq<Frame>): nat {
    if fs == [] then 0 else StackWork(b, Init(fs)) + FrameWork(b, |fs| - 1, Last(fs))
  }

  /** The work ahead, counting what a pending path may still cost. */
  ghost function Work(b: Bounds, fs: seq<Frame>, pend: bool): nat {
    StackWork(b, fs) +
    (if !pend then 0
     else if fs == [] then Cost(b.width, Levels(b, 0))
     else Cost(b.width, Levels(b, |fs| - 1) - 1 - |Last(fs).ifStack|))
  }

  lemma UnmapIfWork(p: Problem, b: Bounds, s: State)
    requires s.stack != [] && Last(s.stack).ifStack != []
    ensures Work(b, UnmapIf(p, s).stack, false) == Work(b, s.stack, false)
  {
  }

  lemma DropIfWork(b: Bounds, s: State)
    requires s.stack != [] && Last(s.stack).ifStack != [] && Last(Last(s.stack).ifStack).remaining != []
    ensures Work(b, DropIf(s).stack, false) < Work(b, s.stack, false)
  {
    var f := Last(s.stack);
    var n := |Last(f.ifStack).remaining|;
    LevelWorkFalls(b.width, n, n - 1, Levels(b, |s.stack| - 1) - 1 - |f.ifStack|);
  }

  lemma TakeIfWork(p: Problem, b: Bounds, s: State)
    requires s.stack != [] && Last(s.stack).ifStack != [] && Last(Last(s.stack).ifStack).remaining != []
    requires Last(s.stack).cur.Some?
    ensures Work(b, TakeIf(p, s).stack, true) < Work(b, s.stack, false)
  {
    var f := Last(s.stack);
    var n := |Last(f.ifStack).remaining|;
    LevelWorkFalls(b.width, n, n - 1, Levels(b, |s.stack| - 1) - 1 - |f.ifStack|);
  }

  lemma LevelsLeft(b: Bounds, j: nat)
    requires j < b.hosts
    ensures Levels(b, j) >= b.ifs + 1
    ensures Levels(b, j) == Levels(b, j + 1) + (b.ifs + 1)
  {
    assert (b.hosts - j) * (b.ifs + 1) == (b.hosts - j - 1) * (b.ifs + 1) + (b.ifs + 1);
    assert (b.hosts - j - 1) * (b.ifs + 1) >= 0;
  }

  lemma PushIfFits(p: Problem, b: Bounds, s: State)
    requires Bounded(p, b) && Inv(p, s) && s.stack != [] && Last(s.stack).cur.Some?
    requires Last(s.stack).unmatchedIfs != []
    ensures |Last(s.stack).ifStack| < b.ifs && |s.stack| <= b.hosts
    ensures |Last(s.stack).unmatchedPoolIfs| <= b.width
  {
    var f := Last(s.stack);
    assert FrameInv(p, Init(s.stack), f);
    assert IfListsInv(p, f);
    NoDupSize(f.unmatchedPoolIfs);
    SubsetSize(Elems(f.unmatchedPoolIfs), PoolIfs(p, f.cur.value).Keys);
  }

  lemma PushIfCost(b: Bounds, s: State)
    requires s.stack != [] && Last(s.stack).unmatchedIfs != []
    requires |Last(s.stack).ifStack| < b.ifs && |s.stack| <= b.hosts
    requires |Last(s.stack).unmatchedPoolIfs| <= b.width
    ensures Work(b, PushIf(s).stack, false) < Work(b, s.stack, true)
  {
    var f, f' := Last(s.stack), Last(PushIf(s).stack);
    InitLast(f.ifStack, Last(f'.ifStack));
    LevelsLeft(b, |s.stack| - 1);
    var k := Levels(b, |s.stack| - 1) - 1;
    LevelWorkFits(b.width, |f.unmatchedPoolIfs|, k - |f'.ifStack|);
    assert IfWork(b.width, k, f'.ifStack) ==
      IfWork(b.width, k, f.ifStack) + LevelWork(b.width, |f.unmatchedPoolIfs|, k - |f'.ifStack|);
  }

  lemma PushIfWork(p: Problem, b: Bounds, s: State)
    requires Bounded(p, b) && Inv(p, s) && s.stack != [] && Last(s.stack).cur.Some?
    requires Last(s.stack).unmatchedIfs != []
    ensures Work(b, PushIf(s).stack, false) < Work(b, s.stack, true)
  {
    PushIfFits(p, b, s);
    PushIfCost(b, s);
  }

  lemma PopIfWork(b: Bounds, s: State)
    requires s.stack != [] && Last(s.stack).ifStack != []
    ensures Work(b, PopIf(s).stack, false) < Work(b, s.stack, false)
  {
  }

  lemma UnmapMachineWork(b: Bounds, s: State)
    requires s.stack != []
    ensures Work(b, UnmapMachine(s).stack, false) == Work(b, s.stack, false)
  {
  }

  lemma DropMachineWork(b: Bounds, s: State)
    requires s.stack != [] && Last(s.stack).remaining != []
    ensures Work(b, DropMachine(s).stack, false) < Work(b, s.stack, false)
  {
    var n := |Last(s.stack).remaining|;
    LevelWorkFalls(b.width, n, n - 1, Levels(b, |s.stack| - 1) - 1);
  }

  lemma TakeMachineWork(p: Problem, b: Bounds, s: State)
    requires s.stack != [] && Last(s.stack).remaining != []
    ensures Work(b, TakeMachine(p, s).stack, true) < Work(b, s.stack, false)
  {
    var n := |Last(s.stack).remaining|;
    LevelWorkFalls(b.width, n, n - 1, Levels(b, |s.stack| - 1) - 1);
  }

  lemma PushMachineFits(p: Problem, b: Bounds, s: State)
    requires Bounded(p, b) && Inv(p, s) && s.unmatchedReqs != []
    ensures |s.stack| < b.hosts && |s.unmatchedPool| <= b.width
    ensures s.stack != [] ==> |Last(s.stack).ifStack| <= b.ifs
  {
    NoDupSize(s.unmatchedPool);
    SubsetSize(Elems(s.unmatchedPool), p.pool.Keys);
    if s.stack != [] {
      assert FrameInv(p, Init(s.stack), Last(s.stack));
    }
  }

  lemma PushMachineCost(p: Problem, b: Bounds, s: State)
    requires s.unmatchedReqs != [] && |s.stack| < b.hosts && |s.unmatchedPool| <= b.width
    requires s.stack != [] ==> |Last(s.stack).ifStack| <= b.ifs
    ensures Work(b, PushMachine(p, s).stack, false) < Work(b, s.stack, true)
  {
    var fs' := PushMachine(p, s).stack;
    var j := |s.stack|;
    InitLast(s.stack, Last(fs'));
    LevelsLeft(b, j);
    LevelWorkFits(b.width, |s.unmatchedPool|, Levels(b, j) - 1);
    assert StackWork(b, fs') == StackWork(b, s.stack) + LevelWork(b.width, |s.unmatchedPool|, Levels(b, j) - 1);
    if j > 0 {
      LevelsLeft(b, j - 1);
      CostGrows(b.width, Levels(b, j), Levels(b, j - 1) - 1 - |Last(s.stack).ifStack|);
    }
  }

  lemma PushMachineWork(p: Problem, b: Bounds, s: State)
    requires Bounded(p, b) && Inv(p, s) && s.unmatchedReqs != []
    ensures Work(b, PushMachine(p, s).stack, false) < Work(b, s.stack, true)
  {
    PushMachineFits(p, b, s);
    PushMachineCost(p, b, s);
  }

  lemma PopMachineWork(b: Bounds, s: State)
    requires s.stack != []
    ensures Work(b, PopMachine(s).stack, false) < Work(b, s.stack, false)
  {
  }

  /** A pending path always counts. */
  lemma PendingWork(b: Bounds, fs: seq<Frame>)
    ensures Work(b, fs, false) < Work(b, fs, true)
  {
  }
}
