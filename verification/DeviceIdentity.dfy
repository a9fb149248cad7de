/**
  Runs of the controller's handlers: device identity in every reachable state, and which object ends
  up at the destination of a namespace move.
 */
module DeviceIdentity {
  import opened Sequences
  import opened DeviceModel

  datatype Op<D> =
    | OpCreated(ns: Netns, i: int, made: D)
    | OpDeleted(ns: Netns, i: int)
    | OpChanged(ns: Netns, i: int, newIndex: Option<int>)
    | OpMove(d: D, dst: Netns, readable: bool)
    | OpRpcCreated(ns: Netns, i: int, made: D)
    | OpAddNetns(ns: Netns)

  /** What the controller does on its own: it moves only devices it knows, and makes up new objects only. */
  ghost predicate Enabled<D>(c: Tables<D>, op: Op<D>) {
    match op
    case OpCreated(_, _, made) => made !in c.attrs
    case OpMove(d, _, _) => d in c.attrs
    case OpRpcCreated(_, _, made) => made !in c.attrs
    case OpAddNetns(ns) => ns !in c.db
    case _ => true
  }

  function Settled<D>(c: Tables<D>, r: Result<Tables<D>>): Tables<D> {
    if r.Done? then r.value else c
  }

  /** The tables after the operation, whether it finishes or raises an exception. */
  ghost function After<D>(c: Tables<D>, op: Op<D>): Tables<D>
    requires Enabled(c, op)
  {
    match op
    case OpCreated(ns, i, made) => Settled(c, Created(c, ns, i, made))
    case OpDeleted(ns, i) => Settled(c, Deleted(c, ns, i))
    case OpChanged(ns, i, newIndex) => Settled(c, Changed(c, ns, i, newIndex))
    case OpMove(d, dst, readable) => RequestMove(c, d, dst, c.attrs[d].netns, readable).0
    case OpRpcCreated(ns, i, made) => RpcCreated(c, ns, i, made)
    case OpAddNetns(ns) => AddNetns(c, ns)
  }

  /** The operations form a run from `c`. */
  ghost predicate IsRun<D>(c: Tables<D>, ops: seq<Op<D>>)
    decreases |ops|
  {
    ops == [] || (Enabled(c, ops[0]) && IsRun(After(c, ops[0]), ops[1..]))
  }

  ghost function End<D>(c: Tables<D>, ops: seq<Op<D>>): Tables<D>
    requires IsRun(c, ops)
    decreases |ops|
  {
    if ops == [] then c else End(After(c, ops[0]), ops[1..])
  }

  lemma {:induction false} RunAppend<D>(c: Tables<D>, a: seq<Op<D>>, b: seq<Op<D>>)
    ensures IsRun(c, a + b) <==> IsRun(c, a) && IsRun(End(c, a), b)
    ensures IsRun(c, a + b) ==> End(c, a + b) == End(End(c, a), b)
    decreases |a|
  {
    if a == [] {
      assert a + b == b;
    } else {
      assert (a + b)[1..] == a[1..] + b && (a + b)[0] == a[0];
      if Enabled(c, a[0]) {
        RunAppend(After(c, a[0]), a[1..], b);
      }
    }
  }

  lemma StepKeepsIdentity<D>(c: Tables<D>, op: Op<D>)
    requires IdentityInv(c) && Enabled(c, op)
    ensures IdentityInv(After(c, op)) && c.db.Keys <= After(c, op).db.Keys
  {
    match op
    case OpCreated(ns, i, made) => CreatedKeepsIdentity(c, ns, i, made);
    case OpDeleted(ns, i) => DeletedKeepsIdentity(c, ns, i);
    case OpChanged(ns, i, newIndex) => ChangedKeepsIdentity(c, ns, i, newIndex);
    case OpMove(d, dst, readable) => RequestMoveKeepsIdentity(c, d, dst, readable);
    case OpRpcCreated(ns, i, made) => RpcCreatedKeepsIdentity(c, ns, i, made);
    case OpAddNetns(ns) =>
  }

  /** Device identity holds in every state the handlers can reach, through exceptions, too. */
  lemma {:induction false} RunKeepsIdentity<D>(c: Tables<D>, ops: seq<Op<D>>)
    requires IdentityInv(c) && IsRun(c, ops)
    ensures IdentityInv(End(c, ops)) && c.db.Keys <= End(c, ops).db.Keys
    decreases |ops|
  {
    hide IdentityInv;
    if ops != [] {
      StepKeepsIdentity(c, ops[0]);
      RunKeepsIdentity(After(c, ops[0]), ops[1..]);
    }
  }

  // ---- A namespace move from start to end ----

  /** The device is on its way, as entry `k`. */
  ghost predicate OnItsWay<D>(c: Tables<D>, k: nat, m: Move<D>) {
    k < |c.moved| && c.moved[k] == m
  }

  /** A change message about the old slot of the move, when its entry is the first that leaves there. */
  ghost predicate Renumbers<D>(c: Tables<D>, op: Op<D>, m: Move<D>) {
    && op.OpChanged? && op.ns == m.src && op.i == m.oldIndex && op.ns in c.db
    && var first := FirstLeaving(c.moved, m.src, m.oldIndex); first < |c.moved| && c.moved[first].dev == m.dev
  }

  /** A new request for the moving device, made while another one has its old slot. */
  ghost predicate Restarts<D>(c: Tables<D>, op: Op<D>, m: Move<D>) {
    && op.OpMove? && op.d == m.dev && m.dev in c.attrs
    && SlotTaken(c, m.src, m.oldIndex) && CanCache(c.attrs[m.dev], op.readable)
  }

  /** What an operation makes of the entry. */
  ghost function Touched<D>(c: Tables<D>, op: Op<D>, m: Move<D>): Move<D> {
    if Renumbers(c, op, m) then m.(newIndex := op.newIndex)
    else if Restarts(c, op, m) then m.(dst := op.dst, newIndex := None)
    else m
  }

  /** A creation into a free slot for which the entry is the first that arrives there. */
  ghost predicate BringsIn<D>(c: Tables<D>, ns: Netns, i: int, d: D) {
    && ns in c.db && i !in c.db[ns]
    && var a := FirstArriving(c.moved, ns, i); a < |c.moved| && c.moved[a].dev == d
  }

  /** The entry keeps what operations make of it, whatever other entries come and go, until its device arrives. */
  lemma OnItsWayStep<D>(c: Tables<D>, op: Op<D>, k: nat, m: Move<D>) returns (k': nat)
    requires IdentityInv(c) && OnItsWay(c, k, m) && Enabled(c, op)
    requires !(op.OpCreated? && BringsIn(c, op.ns, op.i, m.dev))
    ensures OnItsWay(After(c, op), k', Touched(c, op, m))
  {
    k' := k;
    if op.OpCreated? && op.ns in c.db && op.i !in c.db[op.ns] {
      var a := FirstArriving(c.moved, op.ns, op.i);
      if a < k {
        k' := k - 1;
        assert After(c, op).moved == Without(c.moved, a);
      }
    }
  }

  /** No creation of the run brings the device in. */
  ghost predicate StaysAway<D>(c: Tables<D>, ops: seq<Op<D>>, d: D)
    requires IsRun(c, ops)
    decreases |ops|
  {
    ops == [] || (!(ops[0].OpCreated? && BringsIn(c, ops[0].ns, ops[0].i, d)) && StaysAway(After(c, ops[0]), ops[1..], d))
  }

  /** What a run makes of the entry. */
  ghost function EntryAfter<D>(c: Tables<D>, ops: seq<Op<D>>, m: Move<D>): Move<D>
    requires IsRun(c, ops)
    decreases |ops|
  {
    if ops == [] then m else EntryAfter(After(c, ops[0]), ops[1..], Touched(c, ops[0], m))
  }

  lemma {:induction false} OnItsWayRun<D>(c: Tables<D>, ops: seq<Op<D>>, k: nat, m: Move<D>) returns (k': nat)
    requires IdentityInv(c) && OnItsWay(c, k, m) && IsRun(c, ops) && StaysAway(c, ops, m.dev)
    ensures IdentityInv(End(c, ops)) && OnItsWay(End(c, ops), k', EntryAfter(c, ops, m))
    decreases |ops|
  {
    hide IdentityInv, OnItsWay, BringsIn, Renumbers, Restarts;
    k' := k;
    if ops != [] {
      k' := OnItsWayStep(c, ops[0], k, m);
      StepKeepsIdentity(c, ops[0]);
      k' := OnItsWayRun(After(c, ops[0]), ops[1..], k', Touched(c, ops[0], m));
    }
  }

  ghost predicate Touches<D>(c: Tables<D>, op: Op<D>, m: Move<D>) {
    Renumbers(c, op, m) || Restarts(c, op, m)
  }

  /** Operation `n` of the run renumbers the entry or restarts its move. */
  ghost predicate TouchesAt<D>(c: Tables<D>, ops: seq<Op<D>>, n: nat, m: Move<D>)
    requires n < |ops|
  {
    IsRun(c, ops[..n]) && Touches(End(c, ops[..n]), ops[n], m)
  }

  /** Operation `n` is the last one to touch the entry. */
  ghost predicate LastTouch<D>(c: Tables<D>, ops: seq<Op<D>>, n: nat, m: Move<D>) {
    n < |ops| && TouchesAt(c, ops, n, m) && forall k :: n < k < |ops| ==> !TouchesAt(c, ops, k, m)
  }

  /** What an operation touches does not depend on the new index or the destination. */
  lemma TouchesSame<D>(c: Tables<D>, op: Op<D>, m: Move<D>, m': Move<D>)
    requires m'.dev == m.dev && m'.src == m.src && m'.oldIndex == m.oldIndex
    ensures Touches(c, op, m) <==> Touches(c, op, m')
    ensures Renumbers(c, op, m) <==> Renumbers(c, op, m')
  {
  }

  lemma TouchesAtTail<D>(c: Tables<D>, ops: seq<Op<D>>, n: nat, m: Move<D>)
    requires IsRun(c, ops) && n + 1 < |ops|
    ensures TouchesAt(c, ops, n + 1, m) <==> TouchesAt(After(c, ops[0]), ops[1..], n, m)
  {
    assert ops[..n + 1][1..] == ops[1..][..n] && ops[..n + 1][0] == ops[0];
  }

  lemma {:induction false} UntouchedRun<D>(c: Tables<D>, ops: seq<Op<D>>, m: Move<D>)
    requires IsRun(c, ops) && forall n :: 0 <= n < |ops| ==> !TouchesAt(c, ops, n, m)
    ensures EntryAfter(c, ops, m) == m
    decreases |ops|
  {
    hide Touches, Renumbers, Restarts;
    if ops != [] {
      assert ops[..0] == [];
      assert !TouchesAt(c, ops, 0, m);
      NotTouched(c, ops[0], m);
      forall n | 0 <= n < |ops[1..]| ensures !TouchesAt(After(c, ops[0]), ops[1..], n, m) {
        TouchesAtTail(c, ops, n, m);
      }
      UntouchedRun(After(c, ops[0]), ops[1..], m);
    }
  }

  lemma NotTouched<D>(c: Tables<D>, op: Op<D>, m: Move<D>)
    requires !Touches(c, op, m)
    ensures Touched(c, op, m) == m
  {
  }

  /** The last operation to touch the entry decides: a change message gives the new index, a request takes it away. */
  lemma {:induction false} LastTouchDecides<D>(c: Tables<D>, ops: seq<Op<D>>, n: nat, m: Move<D>)
    requires IsRun(c, ops) && LastTouch(c, ops, n, m)
    ensures EntryAfter(c, ops, m).newIndex == if ops[n].OpChanged? then ops[n].newIndex else None
    decreases |ops|
  {
    hide Touches, Renumbers, Restarts;
    var c1, rest, m1 := After(c, ops[0]), ops[1..], Touched(c, ops[0], m);
    SameMove(c, ops[0], m);
    forall k | 0 <= k < |rest|
      ensures TouchesAt(c, ops, k + 1, m) <==> TouchesAt(c1, rest, k, m1)
    {
      TouchesAtTail(c, ops, k, m);
      if IsRun(c1, rest[..k]) {
        TouchesSame(End(c1, rest[..k]), rest[k], m, m1);
      }
    }
    if n == 0 {
      assert ops[..0] == [];
      FirstTouch(c, ops[0], m);
      forall k | 0 <= k < |rest| ensures !TouchesAt(c1, rest, k, m1) {
        assert !TouchesAt(c, ops, k + 1, m);
      }
      UntouchedRun(c1, rest, m1);
    } else {
      assert TouchesAt(c, ops, (n - 1) + 1, m);
      forall k | n - 1 < k < |rest| ensures !TouchesAt(c1, rest, k, m1) {
        assert !TouchesAt(c, ops, k + 1, m);
      }
      LastTouchDecides(c1, rest, n - 1, m1);
    }
  }

  lemma SameMove<D>(c: Tables<D>, op: Op<D>, m: Move<D>)
    ensures Touched(c, op, m).dev == m.dev && Touched(c, op, m).src == m.src && Touched(c, op, m).oldIndex == m.oldIndex
  {
  }

  lemma FirstTouch<D>(c: Tables<D>, op: Op<D>, m: Move<D>)
    requires Touches(c, op, m)
    ensures Touched(c, op, m).newIndex == if op.OpChanged? then op.newIndex else None
  {
  }

  ghost predicate SlotHolds<D>(c: Tables<D>, ns: Netns, i: int, d: D) {
    ns in c.db && i in c.db[ns] && c.db[ns][i] == d
  }

  // ---- What is in a slot stays there ----

  /** The bookkeeping after the agent's answer enters the device, and moves or removes no other one. */
  lemma RpcEnters<D>(c: Tables<D>, ns: Netns, i: int, made: D)
    requires IdentityInv(c) && made !in c.attrs
    ensures var end := After(c, OpRpcCreated(ns, i, made));
            && SlotHolds(end, ns, i, made) && Arrived(end, ns, i, made)
            && !end.attrs[made].deleted
            && (forall n, j, d :: (n, j) != (ns, i) ==> (SlotHolds(end, n, j, d) <==> SlotHolds(c, n, j, d)))
            && end.moved == c.moved && end.db.Keys == c.db.Keys + {ns}
            && (forall d :: d in c.attrs ==> d in end.attrs && end.attrs[d] == c.attrs[d])
  {
  }

  /** A deletion, a change message, a move request or another creation by call for this very slot. */
  ghost predicate Clears<D>(c: Tables<D>, op: Op<D>, ns: Netns, i: int) {
    match op
    case OpDeleted(n, j) => n == ns && j == i
    case OpChanged(n, j, _) => n == ns && j == i && FirstLeaving(c.moved, ns, i) < |c.moved|
    case OpMove(d, _, _) => d in c.attrs && c.attrs[d].netns == ns && c.attrs[d].ifindex == i
    case OpRpcCreated(n, j, _) => n == ns && j == i
    case _ => false
  }

  /** Those are exactly the operations after which a slot does not hold what it held before. */
  lemma SlotClearedIff<D>(c: Tables<D>, op: Op<D>, ns: Netns, i: int, d: D)
    requires IdentityInv(c) && Enabled(c, op) && SlotHolds(c, ns, i, d)
    ensures SlotHolds(After(c, op), ns, i, d) <==> !Clears(c, op, ns, i)
  {
  }

  /** No operation of the run clears the slot. */
  ghost predicate LeavesSlot<D>(c: Tables<D>, ops: seq<Op<D>>, ns: Netns, i: int)
    requires IsRun(c, ops)
    decreases |ops|
  {
    ops == [] || (!Clears(c, ops[0], ns, i) && LeavesSlot(After(c, ops[0]), ops[1..], ns, i))
  }

  lemma {:induction false} SlotSurvives<D>(c: Tables<D>, ops: seq<Op<D>>, ns: Netns, i: int, d: D)
    requires IdentityInv(c) && SlotHolds(c, ns, i, d) && IsRun(c, ops) && LeavesSlot(c, ops, ns, i)
    ensures SlotHolds(End(c, ops), ns, i, d)
    decreases |ops|
  {
    hide IdentityInv, SlotHolds, Clears;
    if ops != [] {
      SlotClearedIff(c, ops[0], ns, i, d);
      StepKeepsIdentity(c, ops[0]);
      SlotSurvives(After(c, ops[0]), ops[1..], ns, i, d);
    }
  }

  /** The device is in its slot and its attributes can be read. */
  ghost predicate Movable<D>(c: Tables<D>, d: D, readable: bool) {
    d in c.attrs && SlotHolds(c, c.attrs[d].netns, c.attrs[d].ifindex, d) && CanCache(c.attrs[d], readable)
  }

  /** The table's entry for a device that starts to move. */
  ghost function EntryOf<D>(c: Tables<D>, d: D, dst: Netns): Move<D>
    requires d in c.attrs
  {
    Move(d, c.attrs[d].netns, dst, c.attrs[d].ifindex, None)
  }

  /** The request enters the device at the end of the table. */
  lemma RequestEnters<D>(c: Tables<D>, d: D, dst: Netns, readable: bool)
    requires IdentityInv(c) && Movable(c, d, readable)
    ensures OnItsWay(After(c, OpMove(d, dst, readable)), |c.moved|, EntryOf(c, d, dst))
  {
    var m := EntryOf(c, d, dst);
    assert PutMove(c.moved, m) == c.moved + [m];
  }

  /** The creation puts the device into its slot exactly when its entry is the first that arrives there. */
  lemma Arrival<D>(c: Tables<D>, k: nat, m: Move<D>, ns: Netns, j: int, made: D)
    requires IdentityInv(c) && OnItsWay(c, k, m) && made !in c.attrs
    ensures var end := After(c, OpCreated(ns, j, made));
            && (SlotHolds(end, ns, j, m.dev) <==> BringsIn(c, ns, j, m.dev))
            && (BringsIn(c, ns, j, m.dev) ==> m.dst == ns && m.newIndex == Some(j) && Arrived(end, ns, j, m.dev))
  {
    var a := FirstArriving(c.moved, ns, j);
    if a < |c.moved| && c.moved[a].dev == m.dev {
      assert a == k;
    }
  }

  /** The device has its index and namespace, can be used again and is on its way no longer. */
  ghost predicate Arrived<D>(c: Tables<D>, ns: Netns, i: int, d: D) {
    && d in c.attrs && c.attrs[d].ifindex == i && c.attrs[d].netns == ns && !c.attrs[d].cached
    && forall k :: 0 <= k < |c.moved| ==> c.moved[k].dev != d
  }

  /** The entry can arrive at `[ns][j]`, the slot is free, and no earlier entry can arrive there. */
  ghost predicate FirstInLine<D>(c: Tables<D>, m: Move<D>, ns: Netns, j: int) {
    && m.dst == ns && m.newIndex == Some(j) && ns in c.db && j !in c.db[ns]
    && forall k :: 0 <= k < |c.moved| && c.moved[k].dev == m.dev ==> forall n :: 0 <= n < k ==> !ArrivesAs(c.moved[n], ns, j)
  }

  lemma BringsInIff<D>(c: Tables<D>, k: nat, m: Move<D>, ns: Netns, j: int)
    requires IdentityInv(c) && OnItsWay(c, k, m)
    ensures BringsIn(c, ns, j, m.dev) <==> FirstInLine(c, m, ns, j)
  {
    var a := FirstArriving(c.moved, ns, j);
    if BringsIn(c, ns, j, m.dev) {
      assert a == k;
    }
    if FirstInLine(c, m, ns, j) {
      assert ArrivesAs(c.moved[k], ns, j);
      assert a == k;
    }
  }

  /**
    A device is moved, and then anything happens, in any order, but its arrival. A creation then brings
    the very object that left the source to `[ns][j]` exactly when its entry, as the run has left it, goes
    there, the slot is free and no earlier entry goes there; then it has its new index and namespace and
    has left the table.
   */
  lemma MoveEndsAtDestination<D>(c: Tables<D>, d: D, dst: Netns, readable: bool, ops: seq<Op<D>>, ns: Netns, j: int, made: D)
    requires IdentityInv(c) && Movable(c, d, readable)
    requires var c1 := After(c, OpMove(d, dst, readable)); IsRun(c1, ops) && StaysAway(c1, ops, d) && made !in End(c1, ops).attrs
    ensures var c1 := After(c, OpMove(d, dst, readable));
            var c' := End(c1, ops);
            var m := EntryAfter(c1, ops, EntryOf(c, d, dst));
            var end := After(c', OpCreated(ns, j, made));
            && m.dev == d && m in c'.moved
            && (SlotHolds(end, ns, j, d) <==> FirstInLine(c', m, ns, j))
            && (SlotHolds(end, ns, j, d) ==> Arrived(end, ns, j, d))
  {
    hide IdentityInv, Arrived, SlotHolds, FirstInLine, BringsIn, After;
    var c1 := After(c, OpMove(d, dst, readable));
    RequestEnters(c, d, dst, readable);
    StepKeepsIdentity(c, OpMove(d, dst, readable));
    var k := OnItsWayRun(c1, ops, |c.moved|, EntryOf(c, d, dst));
    var c', m := End(c1, ops), EntryAfter(c1, ops, EntryOf(c, d, dst));
    EntryDevice(c1, ops, EntryOf(c, d, dst));
    Arrival(c', k, m, ns, j, made);
    BringsInIff(c', k, m, ns, j);
  }

  lemma {:induction false} EntryDevice<D>(c: Tables<D>, ops: seq<Op<D>>, m: Move<D>)
    requires IsRun(c, ops)
    ensures EntryAfter(c, ops, m).dev == m.dev
    decreases |ops|
  {
    hide Renumbers, Restarts;
    if ops != [] {
      EntryDevice(After(c, ops[0]), ops[1..], Touched(c, ops[0], m));
    }
  }

  lemma {:induction false} NeverRestarted<D>(c: Tables<D>, ops: seq<Op<D>>, m: Move<D>)
    requires IsRun(c, ops) && forall op :: op in ops ==> !(op.OpMove? && op.d == m.dev)
    ensures EntryAfter(c, ops, m) == m.(newIndex := EntryAfter(c, ops, m).newIndex)
    decreases |ops|
  {
    hide Renumbers;
    if ops != [] {
      assert ops[0] in ops;
      NeverRestarted(After(c, ops[0]), ops[1..], Touched(c, ops[0], m));
    }
  }

  /**
    The good case: the move is not requested again, and the last change message that its entry was the
    first for says `j`. Then the entry goes to `[dst][j]`.
   */
  lemma UndisturbedMove<D>(c: Tables<D>, ops: seq<Op<D>>, n: nat, m: Move<D>, j: int)
    requires IsRun(c, ops) && LastTouch(c, ops, n, m) && ops[n].OpChanged? && ops[n].newIndex == Some(j)
    requires forall op :: op in ops ==> !(op.OpMove? && op.d == m.dev)
    ensures EntryAfter(c, ops, m) == m.(newIndex := Some(j))
  {
    LastTouchDecides(c, ops, n, m);
    NeverRestarted(c, ops, m);
  }

  /** A creation that comes before the change message gets an object of its own, and the moving device stays in the table. */
  lemma CreationFirstIsNotTheMovedDevice<D>(c: Tables<D>, k: nat, m: Move<D>, j: int, made: D)
    requires IdentityInv(c) && OnItsWay(c, k, m) && m.newIndex == None && m.dst in c.db
    requires made !in c.attrs && j !in c.db[m.dst]
    requires forall n :: 0 <= n < |c.moved| ==> !ArrivesAs(c.moved[n], m.dst, j)
    ensures var end := Created(c, m.dst, j, made).value; end.db[m.dst][j] == made && OnItsWay(end, k, m)
  {
  }

  /** A change message marks the entry of a pending move exactly when no earlier entry leaves the same slot. */
  lemma ChangedMarksIff<D>(c: Tables<D>, k: nat, j: int)
    requires k < |c.moved| && c.moved[k].newIndex == None && c.moved[k].src in c.db
    ensures var m := c.moved[k];
            Changed(c, m.src, m.oldIndex, Some(j)).value.moved[k].newIndex == Some(j) <==>
            forall n :: 0 <= n < k ==> !LeavesAs(c.moved[n], m.src, m.oldIndex)
  {
    var m := c.moved[k];
    assert LeavesAs(m, m.src, m.oldIndex);
  }

  // ---- Runs that do not end with the moved object ----

  /** Device 0 in slot 1 of the initial namespace, and an empty namespace "ns". */
  const ONE_DEVICE: Tables<nat> := Tables(map["" := map[1 := 0], "ns" := map[]], [], map[0 := Attrs(1, "", false, false)])

  /** Device 0 is on its way. */
  const MOVING: Tables<nat> :=
    Tables(map["" := map[], "ns" := map[]], [Move(0, "", "ns", 1, None)], map[0 := Attrs(1, "", false, true)])

  /** Device 0 is to move but is deleted instead, and device 1 takes over its index. */
  const TAKEN_OVER: Tables<nat> :=
    Tables(map["" := map[1 := 1], "ns" := map[]], [Move(0, "", "ns", 1, None)],
           map[0 := Attrs(1, "", false, true), 1 := Attrs(1, "", false, false)])

  /** Both have an entry in the table. */
  const BOTH_MOVING: Tables<nat> :=
    Tables(map["" := map[], "ns" := map[]], [Move(0, "", "ns", 1, None), Move(1, "", "ns", 1, None)],
           map[0 := Attrs(1, "", false, true), 1 := Attrs(1, "", false, true)])

  const NO_SLOTS: map<int, nat> := map[]

  lemma FirstRequest()
    ensures IdentityInv(ONE_DEVICE) && Movable(ONE_DEVICE, 0, true) && EntryOf(ONE_DEVICE, 0, "ns") == Move(0, "", "ns", 1, None)
    ensures After(ONE_DEVICE, OpMove(0, "ns", true)) == MOVING
  {
    assert |""| != |"ns"|;
  }

  lemma TakeOver()
    ensures 1 !in MOVING.attrs
    ensures After(MOVING, OpDeleted("", 1)) == MOVING && After(MOVING, OpCreated("", 1, 1)) == TAKEN_OVER
  {
    assert |""| != |"ns"|;
  }

  lemma DeletedWhileMoving()
    ensures var ops := [OpMove(0, "ns", true), OpDeleted("", 1), OpCreated("", 1, 1)];
            IsRun(ONE_DEVICE, ops) && End(ONE_DEVICE, ops) == TAKEN_OVER
  {
    hide After, TAKEN_OVER, MOVING;
    FirstRequest();
    TakeOver();
    assert [OpDeleted("", 1), OpCreated("", 1, 1)][1..] == [OpCreated("", 1, 1)];
    assert [OpMove(0, "ns", true), OpDeleted("", 1), OpCreated("", 1, 1)][1..] == [OpDeleted("", 1), OpCreated("", 1, 1)];
    assert [OpCreated("", 1, 1)][1..] == [];
  }

  /** The change message marks the first of the two entries. */
  const CHANGED: Tables<nat> := BOTH_MOVING.(moved := [Move(0, "", "ns", 1, Some(7)), Move(1, "", "ns", 1, None)])

  lemma SecondRequest()
    ensures IdentityInv(TAKEN_OVER) && Movable(TAKEN_OVER, 1, true) && EntryOf(TAKEN_OVER, 1, "ns") == Move(1, "", "ns", 1, None)
    ensures After(TAKEN_OVER, OpMove(1, "ns", true)) == BOTH_MOVING
  {
    assert |""| != |"ns"|;
  }

  lemma SecondChange()
    ensures After(BOTH_MOVING, OpChanged("", 1, Some(7))) == CHANGED && 2 !in CHANGED.attrs
    ensures Touched(BOTH_MOVING, OpChanged("", 1, Some(7)), Move(1, "", "ns", 1, None)) == Move(1, "", "ns", 1, None)
  {
    assert |""| != |"ns"|;
    assert FirstLeaving(BOTH_MOVING.moved, "", 1) == 0;
  }

  lemma OneOp<D>(c: Tables<D>, op: Op<D>, m: Move<D>)
    requires Enabled(c, op) && !op.OpCreated?
    ensures IsRun(c, [op]) && End(c, [op]) == After(c, op)
    ensures StaysAway(c, [op], m.dev) && EntryAfter(c, [op], m) == Touched(c, op, m)
  {
    assert [op][1..] == [];
  }

  /** Device 0's entry is the first to arrive. */
  lemma TakenForTheOther()
    ensures SlotHolds(After(CHANGED, OpCreated("ns", 7, 2)), "ns", 7, 0)
  {
    assert |""| != |"ns"|;
    assert FirstArriving(CHANGED.moved, "ns", 7) == 0;
  }

  /**
    The condition can fail: device 0 starts to move but is deleted instead, device 1 then takes over its
    index and moves, and the arrival is taken for device 0.
   */
  lemma WrongObjectExample()
    ensures IdentityInv(ONE_DEVICE)
    ensures var first := [OpMove(0, "ns", true), OpDeleted("", 1), OpCreated("", 1, 1)];
            IsRun(ONE_DEVICE, first) && End(ONE_DEVICE, first) == TAKEN_OVER
    ensures Movable(TAKEN_OVER, 1, true) && After(TAKEN_OVER, OpMove(1, "ns", true)) == BOTH_MOVING
    ensures After(BOTH_MOVING, OpChanged("", 1, Some(7))) == CHANGED && 2 !in CHANGED.attrs
    ensures !SlotHolds(After(CHANGED, OpCreated("ns", 7, 2)), "ns", 7, 1)
    ensures SlotHolds(After(CHANGED, OpCreated("ns", 7, 2)), "ns", 7, 0)
  {
    hide IsRun, End, After, IdentityInv, Touched, StaysAway, EntryAfter;
    FirstRequest();
    DeletedWhileMoving();
    SecondRequest();
    SecondChange();
    OneOp(BOTH_MOVING, OpChanged("", 1, Some(7)), Move(1, "", "ns", 1, None));
    TakenForTheOther();
    MoveEndsAtDestination(TAKEN_OVER, 1, "ns", true, [OpChanged("", 1, Some(7))], "ns", 7, 2);
  }

  /** Device 0 has its new index, another device has its old slot and moves in its turn, and the message about that renumbers device 0. */
  const MARKED: Tables<nat> := MOVING.(moved := [Move(0, "", "ns", 1, Some(7))])
  const SUCCEEDED: Tables<nat> :=
    Tables(map["" := map[1 := 1], "ns" := map[]], MARKED.moved, map[0 := Attrs(1, "", false, true), 1 := Attrs(1, "", false, false)])
  const FOLLOWED: Tables<nat> :=
    BOTH_MOVING.(moved := [Move(0, "", "ns", 1, Some(7)), Move(1, "", "other", 1, None)])
  const OVERWRITTEN: Tables<nat> :=
    BOTH_MOVING.(moved := [Move(0, "", "ns", 1, Some(9)), Move(1, "", "other", 1, None)])

  lemma FirstChange()
    ensures After(MOVING, OpChanged("", 1, Some(7))) == MARKED && !BringsIn(MARKED, "", 1, 0) && 1 !in MARKED.attrs
    ensures Touched(MOVING, OpChanged("", 1, Some(7)), Move(0, "", "ns", 1, None)) == Move(0, "", "ns", 1, Some(7))
  {
    assert |""| != |"ns"|;
    assert NO_SLOTS - {1} == NO_SLOTS;
    assert FirstLeaving(MOVING.moved, "", 1) == 0;
    assert MOVING.db["" := map[]] == MOVING.db;
  }

  lemma Successor()
    ensures After(MARKED, OpCreated("", 1, 1)) == SUCCEEDED && 1 in SUCCEEDED.attrs
    ensures After(SUCCEEDED, OpMove(1, "other", true)) == FOLLOWED
  {
    assert |""| != |"ns"|;
    assert FirstArriving(MARKED.moved, "", 1) == 1;
    assert map[1 := 1] - {1} == NO_SLOTS;
    assert PutMove(SUCCEEDED.moved, Move(1, "", "other", 1, None)) == FOLLOWED.moved;
  }

  lemma Overwriting()
    ensures After(FOLLOWED, OpChanged("", 1, Some(9))) == OVERWRITTEN && 2 !in OVERWRITTEN.attrs
    ensures Touched(FOLLOWED, OpChanged("", 1, Some(9)), Move(0, "", "ns", 1, Some(7))) == Move(0, "", "ns", 1, Some(9))
  {
    assert |""| != |"ns"|;
    assert FirstLeaving(FOLLOWED.moved, "", 1) == 0;
    assert FOLLOWED.db["" := map[]] == FOLLOWED.db;
    assert NO_SLOTS - {1} == NO_SLOTS;
  }

  lemma OtherOps()
    ensures Touched(MARKED, OpCreated("", 1, 1), Move(0, "", "ns", 1, Some(7))) == Move(0, "", "ns", 1, Some(7))
    ensures Touched(SUCCEEDED, OpMove(1, "other", true), Move(0, "", "ns", 1, Some(7))) == Move(0, "", "ns", 1, Some(7))
  {
  }

  lemma OverwrittenRun() returns (ops: seq<Op<nat>>)
    ensures ops == [OpChanged("", 1, Some(7)), OpCreated("", 1, 1), OpMove(1, "other", true), OpChanged("", 1, Some(9))]
    ensures IsRun(MOVING, ops) && StaysAway(MOVING, ops, 0) && End(MOVING, ops) == OVERWRITTEN
    ensures EntryAfter(MOVING, ops, Move(0, "", "ns", 1, None)) == Move(0, "", "ns", 1, Some(9))
  {
    FirstChange();
    Successor();
    Overwriting();
    OtherOps();
    hide After, Touched, BringsIn, MOVING, MARKED, SUCCEEDED, FOLLOWED, OVERWRITTEN;
    ops := [OpChanged("", 1, Some(7)), OpCreated("", 1, 1), OpMove(1, "other", true), OpChanged("", 1, Some(9))];
    var ops3, ops2, ops1 := ops[1..], ops[2..], ops[3..];
    OneOp(FOLLOWED, OpChanged("", 1, Some(9)), Move(0, "", "ns", 1, Some(7)));
    assert ops1 == [OpChanged("", 1, Some(9))];
    assert ops2[0] == OpMove(1, "other", true) && ops2[1..] == ops1;
    assert IsRun(SUCCEEDED, ops2) && End(SUCCEEDED, ops2) == OVERWRITTEN;
    assert StaysAway(SUCCEEDED, ops2, 0) && EntryAfter(SUCCEEDED, ops2, Move(0, "", "ns", 1, Some(7))) == Move(0, "", "ns", 1, Some(9));
    assert ops3[0] == OpCreated("", 1, 1) && ops3[1..] == ops2;
    assert IsRun(MARKED, ops3) && End(MARKED, ops3) == OVERWRITTEN;
    assert StaysAway(MARKED, ops3, 0) && EntryAfter(MARKED, ops3, Move(0, "", "ns", 1, Some(7))) == Move(0, "", "ns", 1, Some(9));
    assert ops[0] == OpChanged("", 1, Some(7)) && ops[1..] == ops3;
  }

  lemma NewObject()
    ensures "ns" in OVERWRITTEN.db && 7 !in OVERWRITTEN.db["ns"]
    ensures SlotHolds(After(OVERWRITTEN, OpCreated("ns", 7, 2)), "ns", 7, 2)
  {
    assert |""| != |"ns"|;
    assert FirstArriving(OVERWRITTEN.moved, "ns", 7) == 2;
  }

  /**
    It can also fail after the move's own change message: the message for a later move out of the same
    slot gives the first device another index, and the creation at its destination is not taken for it.
   */
  lemma OverwrittenExample() returns (ops: seq<Op<nat>>)
    ensures IdentityInv(ONE_DEVICE) && Movable(ONE_DEVICE, 0, true) && After(ONE_DEVICE, OpMove(0, "ns", true)) == MOVING
    ensures ops == [OpChanged("", 1, Some(7)), OpCreated("", 1, 1), OpMove(1, "other", true), OpChanged("", 1, Some(9))]
    ensures IsRun(MOVING, ops) && End(MOVING, ops) == OVERWRITTEN && 2 !in OVERWRITTEN.attrs
    ensures "ns" in OVERWRITTEN.db && 7 !in OVERWRITTEN.db["ns"]
    ensures !SlotHolds(After(OVERWRITTEN, OpCreated("ns", 7, 2)), "ns", 7, 0)
    ensures SlotHolds(After(OVERWRITTEN, OpCreated("ns", 7, 2)), "ns", 7, 2)
  {
    NewObject();
    FirstRequest();
    ops := OverwrittenRun();
    hide IsRun, End, After, IdentityInv, StaysAway, EntryAfter, MOVING;
    MoveEndsAtDestination(ONE_DEVICE, 0, "ns", true, ops, "ns", 7, 2);
  }
}
