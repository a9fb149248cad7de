/**
  The device tracking protocol: one agent per namespace turns kernel events into messages, each
  namespace has an ordered channel to the controller, and the controller may start namespace moves
  at any time. What the two ends know agrees up to the messages under way.
 */
module DeviceProtocol {
  import opened Sequences
  import opened DeviceModel

  // ---- The agent ----

  /** What the kernel reports; `newIfindex` is the attribute of a link that left for another namespace. */
  datatype Netlink =
    | NewLink(index: int, loopback: bool)
    | NewAddr(index: int)
    | DelAddr(index: int)
    | DelLink(index: int, bridge: bool, movedAway: bool, newIfindex: Option<int>)
    | OtherMessage

  datatype Msg =
    | DevCreated(ifindex: int)
    | DevDeleted(ifindex: int)
    | DevNetnsChanged(ifindex: int, newIfindex: Option<int>)

  /** `_handle_netlink_msg` as a function of the tracked indices: what is tracked afterwards and what is sent. */
  function AgentStep(tracked: set<int>, msg: Netlink): (set<int>, seq<Msg>) {
    match msg
    case NewLink(i, _) => if i in tracked then (tracked, []) else (tracked + {i}, [DevCreated(i)])
    case DelLink(i, bridge, away, new_i) =>
      if bridge || i !in tracked then (tracked, [])
      else (tracked - {i}, [if away then DevNetnsChanged(i, new_i) else DevDeleted(i)])
    case _ => (tracked, [])
  }

  // ---- What a channel says about one index ----

  /** Plays the messages about index `i` on top of `present`; out of turn messages give `None`. */
  ghost function Track(q: seq<Msg>, i: int, present: bool): Option<bool> {
    if q == [] then Some(present)
    else if q[0].ifindex != i then Track(q[1..], i, present)
    else if q[0].DevCreated? then (if present then None else Track(q[1..], i, true))
    else (if present then Track(q[1..], i, false) else None)
  }

  lemma {:induction false} TrackAppend(q: seq<Msg>, m: Msg, i: int, present: bool)
    ensures Track(q + [m], i, present) ==
            match Track(q, i, present) case None => None case Some(b) => Track([m], i, b)
  {
    if q == [] {
      assert q + [m] == [m];
    } else {
      assert (q + [m])[0] == q[0] && (q + [m])[1..] == q[1..] + [m];
      TrackAppend(q[1..], m, i, true);
      TrackAppend(q[1..], m, i, false);
    }
  }

  ghost predicate Mentions(q: seq<Msg>, i: int) {
    exists k :: 0 <= k < |q| && q[k].ifindex == i
  }

  ghost predicate LastMention(q: seq<Msg>, i: int, k: nat) {
    k < |q| && q[k].ifindex == i && forall j :: k < j < |q| ==> q[j].ifindex != i
  }

  /** The last message about an index decides where `Track` ends; without messages nothing changes. */
  lemma {:induction false} TrackEnds(q: seq<Msg>, i: int, present: bool)
    requires Track(q, i, present).Some?
    ensures !Mentions(q, i) ==> Track(q, i, present) == Some(present)
    ensures forall k: nat :: LastMention(q, i, k) ==> Track(q, i, present) == Some(q[k].DevCreated?)
  {
    if q != [] {
      var m := Last(q);
      assert q == Init(q) + [m];
      TrackAppend(Init(q), m, i, present);
      TrackEnds(Init(q), i, present);
      forall k: nat | LastMention(q, i, k) ensures Track(q, i, present) == Some(q[k].DevCreated?) {
        if k < |q| - 1 {
          assert LastMention(Init(q), i, k);
        }
      }
      if Mentions(Init(q), i) {
        var k :| 0 <= k < |Init(q)| && Init(q)[k].ifindex == i;
        assert q[k].ifindex == i;
      }
      if m.ifindex == i {
        assert q[|q| - 1].ifindex == i;
      }
    }
  }

  // ---- The system ----

  /** The controller's tables, the indices each agent tracks, and the messages under way from each namespace. */
  datatype Sys<D(==)> = Sys(ctl: Tables<D>, agents: map<Netns, set<int>>, chans: map<Netns, seq<Msg>>)

  /** What the controller does with a message from namespace `ns`. */
  function Deliver<D>(c: Tables<D>, ns: Netns, m: Msg, made: D): Result<Tables<D>> {
    match m
    case DevCreated(i) => Created(c, ns, i, made)
    case DevDeleted(i) => Deleted(c, ns, i)
    case DevNetnsChanged(i, newIndex) => Changed(c, ns, i, newIndex)
  }

  datatype Event<D> =
    | Kernel(ns: Netns, msg: Netlink)
    | Delivery(ns: Netns, made: D)
    | MoveRequest(d: D, dst: Netns, readable: bool)
    | NewNetns(ns: Netns)

  /**
    One step of the system. A delivery that raises `MachineError` is not a step: the run ends there. A
    move may be requested for any device object the controller ever knew; what the request does before
    it raises an exception stays done.
   */
  ghost predicate Step<D>(s: Sys<D>, e: Event<D>, s': Sys<D>) {
    match e
    case Kernel(ns, msg) =>
      && ns in s.agents && ns in s.chans
      && var (tracked, sent) := AgentStep(s.agents[ns], msg);
         s' == s.(agents := s.agents[ns := tracked], chans := s.chans[ns := s.chans[ns] + sent])
    case Delivery(ns, made) =>
      && ns in s.chans && s.chans[ns] != [] && made !in s.ctl.attrs
      && var r := Deliver(s.ctl, ns, s.chans[ns][0], made);
         r.Done? && s' == s.(ctl := r.value, chans := s.chans[ns := s.chans[ns][1..]])
    case MoveRequest(d, dst, readable) =>
      d in s.ctl.attrs && s' == s.(ctl := RequestMove(s.ctl, d, dst, s.ctl.attrs[d].netns, readable).0)
    case NewNetns(ns) =>
      ns !in s.ctl.db && s' == Sys(AddNetns(s.ctl, ns), s.agents[ns := {}], s.chans[ns := []])
  }

  ghost predicate InitSys<D>(s: Sys<D>) {
    s.ctl.moved == [] && s.ctl.attrs == map[] && s.ctl.db.Keys == s.agents.Keys == s.chans.Keys &&
    forall ns :: ns in s.ctl.db ==> s.ctl.db[ns] == map[] && s.agents[ns] == {} && s.chans[ns] == []
  }

  /** A move out of `[ns][i]` was requested and no change message has given it a new index. */
  ghost predicate MovePending<D>(c: Tables<D>, ns: Netns, i: int) {
    exists k :: 0 <= k < |c.moved| && LeavesAs(c.moved[k], ns, i) && c.moved[k].newIndex == None
  }

  /** The controller's view of `[ns][i]`, brought up to date by the channel, is the agent's. */
  ghost predicate InStep<D>(s: Sys<D>, ns: Netns, i: int)
    requires ns in s.ctl.db && ns in s.agents && ns in s.chans
  {
    Track(s.chans[ns], i, i in s.ctl.db[ns]) == Some(i in s.agents[ns])
  }

  /** The controller has dropped `[ns][i]`, which the agent tracks up to the channel. */
  ghost predicate Dropped<D>(s: Sys<D>, ns: Netns, i: int)
    requires ns in s.ctl.db && ns in s.agents && ns in s.chans
  {
    i !in s.ctl.db[ns] && Track(s.chans[ns], i, true) == Some(i in s.agents[ns])
  }

  /** What every step keeps: the controller knows no more than the agent, up to the channel. */
  ghost predicate SysInv<D>(s: Sys<D>) {
    && s.ctl.db.Keys == s.agents.Keys == s.chans.Keys
    && IdentityInv(s.ctl)
    && forall ns, i :: ns in s.ctl.db ==> InStep(s, ns, i) || Dropped(s, ns, i)
  }

  /** Agreement: what the controller has dropped is on its way to another namespace. */
  ghost predicate Agreed<D>(s: Sys<D>)
    requires SysInv(s)
  {
    forall ns, i :: ns in s.ctl.db ==> InStep(s, ns, i) || MovePending(s.ctl, ns, i)
  }

  /** A request that finds no device to drop, or makes its entry, or repeats one that waits for its change message. */
  ghost predicate Harmless<D>(c: Tables<D>, d: D, readable: bool)
    requires d in c.attrs
  {
    var a := c.attrs[d];
    !SlotTaken(c, a.netns, a.ifindex) || CanCache(a, readable) || MovePending(c, a.netns, a.ifindex)
  }

  ghost predicate HarmlessEvent<D>(s: Sys<D>, e: Event<D>) {
    e.MoveRequest? ==> e.d in s.ctl.attrs && Harmless(s.ctl, e.d, e.readable)
  }

  // ---- Kernel events ----

  lemma KernelSlot<D>(s: Sys<D>, ns: Netns, msg: Netlink, s': Sys<D>, n: Netns, i: int)
    requires SysInv(s) && Step(s, Kernel(ns, msg), s') && n in s.ctl.db
    ensures n in s'.agents && n in s'.chans && s'.ctl == s.ctl
    ensures InStep(s, n, i) ==> InStep(s', n, i)
    ensures Dropped(s, n, i) ==> Dropped(s', n, i)
  {
    if n == ns {
      var q, sent := s.chans[ns], AgentStep(s.agents[ns], msg).1;
      if sent == [] {
        assert q + sent == q;
      } else {
        TrackAppend(q, sent[0], i, i in s.ctl.db[ns]);
        TrackAppend(q, sent[0], i, true);
      }
    }
  }

  lemma KernelKeeps<D>(s: Sys<D>, ns: Netns, msg: Netlink, s': Sys<D>)
    requires SysInv(s) && Step(s, Kernel(ns, msg), s')
    ensures SysInv(s') && (Agreed(s) ==> Agreed(s'))
  {
    hide InStep, Dropped, MovePending, IdentityInv;
    assert s'.ctl == s.ctl;
    forall n, i | n in s.ctl.db
      ensures n in s'.agents && n in s'.chans
      ensures InStep(s, n, i) ==> InStep(s', n, i)
      ensures Dropped(s, n, i) ==> Dropped(s', n, i)
    {
      KernelSlot(s, ns, msg, s', n, i);
    }
  }

  // ---- Deliveries ----

  lemma StillPending<D>(c: Tables<D>, ns: Netns, m: Msg, made: D, k: nat) returns (j: nat)
    requires Deliver(c, ns, m, made).Done? && k < |c.moved| && c.moved[k].newIndex == None
    requires !m.DevCreated? ==> !LeavesAs(c.moved[k], ns, m.ifindex)
    ensures j < |Deliver(c, ns, m, made).value.moved| && Deliver(c, ns, m, made).value.moved[j] == c.moved[k]
  {
    j := k;
    if m.DevCreated? && m.ifindex !in c.db[ns] {
      var a := FirstArriving(c.moved, ns, m.ifindex);
      if a < k && c.moved[a].dev in c.attrs {
        j := k - 1;
        assert Deliver(c, ns, m, made).value.moved == Without(c.moved, a);
      }
    }
  }

  /** A delivery about `[ns][i]` touches nothing that another index or namespace depends on. */
  lemma DeliverElsewhere<D>(c: Tables<D>, ns: Netns, m: Msg, made: D, n: Netns, i: int)
    requires Deliver(c, ns, m, made).Done? && n in c.db && (n != ns || i != m.ifindex)
    ensures var c' := Deliver(c, ns, m, made).value;
            && c'.db.Keys == c.db.Keys
            && (i in c'.db[n] <==> i in c.db[n])
            && (MovePending(c, n, i) ==> MovePending(c', n, i))
  {
    if MovePending(c, n, i) {
      var k :| 0 <= k < |c.moved| && LeavesAs(c.moved[k], n, i) && c.moved[k].newIndex == None;
      var j := StillPending(c, ns, m, made, k);
      assert LeavesAs(Deliver(c, ns, m, made).value.moved[j], n, i);
    }
  }

  lemma DeliverHere<D>(c: Tables<D>, ns: Netns, m: Msg, made: D)
    requires Deliver(c, ns, m, made).Done?
    ensures ns in Deliver(c, ns, m, made).value.db
    ensures m.ifindex in Deliver(c, ns, m, made).value.db[ns] <==> m.DevCreated?
  {
  }

  lemma DeliverySlot<D>(s: Sys<D>, ns: Netns, made: D, s': Sys<D>, n: Netns, i: int)
    requires SysInv(s) && Step(s, Delivery(ns, made), s') && n in s'.ctl.db
    ensures n in s.ctl.db && n in s'.agents && n in s'.chans
    ensures InStep(s', n, i) || (!InStep(s, n, i) && Dropped(s, n, i) && Dropped(s', n, i))
    ensures InStep(s', n, i) || (MovePending(s.ctl, n, i) ==> MovePending(s'.ctl, n, i))
  {
    hide IdentityInv;
    var m := s.chans[ns][0];
    assert ns in s.ctl.db;
    DeliverHere(s.ctl, ns, m, made);
    assert InStep(s, ns, m.ifindex) || Dropped(s, ns, m.ifindex);
    DeliveryKeepsKeys(s, ns, made, s');
    assert InStep(s, n, i) || Dropped(s, n, i);
    if n != ns || i != m.ifindex {
      DeliverElsewhere(s.ctl, ns, m, made, n, i);
      assert InStep(s, n, i) ==> InStep(s', n, i);
      assert Dropped(s, n, i) ==> Dropped(s', n, i);
    } else {
      assert InStep(s', n, i);
    }
  }

  lemma DeliveryKeeps<D>(s: Sys<D>, ns: Netns, made: D, s': Sys<D>)
    requires SysInv(s) && Step(s, Delivery(ns, made), s')
    ensures SysInv(s') && (Agreed(s) ==> Agreed(s'))
  {
    DeliveryKeepsIdentity(s.ctl, ns, s.chans[ns][0], made);
    DeliveryKeepsKeys(s, ns, made, s');
    hide InStep, Dropped, MovePending, IdentityInv, Step;
    forall n, i | n in s'.ctl.db
      ensures n in s'.agents && n in s'.chans && (InStep(s', n, i) || Dropped(s', n, i))
      ensures InStep(s', n, i) || (MovePending(s.ctl, n, i) ==> MovePending(s'.ctl, n, i))
      ensures InStep(s, n, i) ==> InStep(s', n, i)
    {
      DeliverySlot(s, ns, made, s', n, i);
    }
  }

  lemma DeliveryKeepsKeys<D>(s: Sys<D>, ns: Netns, made: D, s': Sys<D>)
    requires SysInv(s) && Step(s, Delivery(ns, made), s')
    ensures s'.ctl.db.Keys == s.ctl.db.Keys == s'.agents.Keys == s'.chans.Keys
  {
  }

  lemma DeliveryKeepsIdentity<D>(c: Tables<D>, ns: Netns, m: Msg, made: D)
    requires IdentityInv(c) && made !in c.attrs && Deliver(c, ns, m, made).Done?
    ensures IdentityInv(Deliver(c, ns, m, made).value)
  {
    match m
    case DevCreated(i) => CreatedKeepsIdentity(c, ns, i, made);
    case DevDeleted(i) => DeletedKeepsIdentity(c, ns, i);
    case DevNetnsChanged(i, newIndex) => ChangedKeepsIdentity(c, ns, i, newIndex);
  }

  // ---- What becomes of a kernel message ----

  /**
    A link leaves for another namespace, and the controller has nothing else to read from there. It reads
    that the link moved: the first pending move out of the slot gets the new index, the slot is empty, and
    no device is marked. Without such a move the controller raises.
   */
  lemma LinkMovesAway<D>(s: Sys<D>, ns: Netns, i: int, newIndex: Option<int>, s1: Sys<D>, made: D)
    requires SysInv(s) && ns in s.agents && i in s.agents[ns] && s.chans[ns] == [] && made !in s.ctl.attrs
    requires Step(s, Kernel(ns, DelLink(i, false, true, newIndex)), s1)
    ensures var k := FirstLeaving(s.ctl.moved, ns, i);
            var q := s1.chans[ns];
            var r := Deliver(s1.ctl, ns, q[0], made);
            && |q| == 1 && s1.agents == s.agents[ns := s.agents[ns] - {i}] && s1.ctl == s.ctl
            && (r.Raised? <==> k == |s.ctl.moved|)
            && (r.Done? ==> r.value == Tables(Delete(s.ctl.db, ns, i), s.ctl.moved[k := s.ctl.moved[k].(newIndex := newIndex)], s.ctl.attrs))
  {
    assert s1.chans[ns] == [DevNetnsChanged(i, newIndex)];
  }

  /** A link is deleted: the device in its slot is marked and the slot is empty, and no move is touched. */
  lemma LinkIsDeleted<D>(s: Sys<D>, ns: Netns, i: int, newIndex: Option<int>, s1: Sys<D>, made: D, s2: Sys<D>)
    requires SysInv(s) && ns in s.agents && i in s.agents[ns] && s.chans[ns] == []
    requires Step(s, Kernel(ns, DelLink(i, false, false, newIndex)), s1) && Step(s1, Delivery(ns, made), s2)
    ensures s2.agents == s.agents[ns := s.agents[ns] - {i}] && s2.chans == s.chans
    ensures s2.ctl.moved == s.ctl.moved
    ensures i in s.ctl.db[ns] ==>
              var d := s.ctl.db[ns][i];
              && s2.ctl.db == Delete(s.ctl.db, ns, i)
              && d in s.ctl.attrs && s2.ctl.attrs == s.ctl.attrs[d := s.ctl.attrs[d].(deleted := true)]
    ensures i !in s.ctl.db[ns] ==> s2.ctl == s.ctl
  {
    assert s1.chans[ns] == [DevDeleted(i)] && s1.chans[ns][1..] == [];
  }

  /** A new link: its slot was free, and holds a device with its index that is not deleted, a known one only if it moved there. */
  lemma LinkComesUpOnce<D>(s: Sys<D>, ns: Netns, i: int, loopback: bool, s1: Sys<D>, made: D, s2: Sys<D>)
    requires SysInv(s) && ns in s.agents && i !in s.agents[ns] && s.chans[ns] == []
    requires Step(s, Kernel(ns, NewLink(i, loopback)), s1) && Step(s1, Delivery(ns, made), s2)
    ensures s2.agents == s.agents[ns := s.agents[ns] + {i}] && s2.chans == s.chans
    ensures i !in s.ctl.db[ns] && i in s2.ctl.db[ns]
    ensures var d, k := s2.ctl.db[ns][i], FirstArriving(s.ctl.moved, ns, i);
            && s2.ctl.db == Insert(s.ctl.db, ns, i, d)
            && s2.ctl.attrs == s.ctl.attrs[d := Attrs(i, ns, d in s.ctl.attrs && s.ctl.attrs[d].deleted, false)]
            && (if k < |s.ctl.moved| then d == s.ctl.moved[k].dev && s2.ctl.moved == Without(s.ctl.moved, k)
                else d == made && s2.ctl.moved == s.ctl.moved)
  {
    assert s1.chans[ns] == [DevCreated(i)] && s1.chans[ns][1..] == [];
    assert InStep(s, ns, i) || Dropped(s, ns, i);
  }

  /** The agent tells the controller of nothing else. */
  lemma NothingToTell<D>(s: Sys<D>, ns: Netns, msg: Netlink, s1: Sys<D>)
    requires Step(s, Kernel(ns, msg), s1)
    requires match msg
             case NewLink(i, _) => i in s.agents[ns]
             case DelLink(i, bridge, _, _) => bridge || i !in s.agents[ns]
             case _ => true
    ensures s1 == s
  {
    assert s.chans[ns] + [] == s.chans[ns];
  }

  /** Every index a move was given is one that the kernel reported for a link leaving its old slot. */
  ghost predicate Reported<D>(events: seq<Event<D>>, k: nat, ns: Netns, i: int, newIndex: Option<int>)
    requires k <= |events|
  {
    exists n :: 0 <= n < k && events[n] == Kernel(ns, DelLink(i, false, true, newIndex))
  }

  ghost predicate AllReported<D>(s: Sys<D>, events: seq<Event<D>>, k: nat)
    requires k <= |events|
  {
    && (forall ns, q :: ns in s.chans && 0 <= q < |s.chans[ns]| && s.chans[ns][q].DevNetnsChanged? ==>
          Reported(events, k, ns, s.chans[ns][q].ifindex, s.chans[ns][q].newIfindex))
    && (forall m :: m in s.ctl.moved && m.newIndex.Some? ==> Reported(events, k, m.src, m.oldIndex, m.newIndex))
  }

  // ---- Requests and new namespaces ----

  /** A slot that the controller has and the channel has not taken back is out of step once it is dropped. */
  lemma {:induction false} TrackDiffers(q: seq<Msg>, i: int)
    requires Track(q, i, true).Some?
    ensures Track(q, i, false) != Track(q, i, true)
    decreases |q|
  {
    if q != [] && q[0].ifindex != i {
      TrackDiffers(q[1..], i);
    }
  }

  /** What a request does to the slots, and to the moves that wait for their change message. */
  lemma RequestSlot<D>(c: Tables<D>, d: D, dst: Netns, readable: bool, n: Netns, j: int)
    requires IdentityInv(c) && d in c.attrs && n in c.db
    ensures var (c', r) := RequestMove(c, d, dst, c.attrs[d].netns, readable);
            var here := n == c.attrs[d].netns && j == c.attrs[d].ifindex;
            && c'.db.Keys == c.db.Keys
            && (j in c'.db[n] <==> j in c.db[n] && !here)
            && (MovePending(c', n, j) <==> MovePending(c, n, j) || (here && r == Started))
  {
    var (c', r) := RequestMove(c, d, dst, c.attrs[d].netns, readable);
    var m := Move(d, c.attrs[d].netns, dst, c.attrs[d].ifindex, None);
    if r == Started {
      RequestEntry(c.moved, m);
      if MovePending(c, n, j) {
        var k :| 0 <= k < |c.moved| && LeavesAs(c.moved[k], n, j) && c.moved[k].newIndex == None;
        assert LeavesAs(c'.moved[k], n, j) && c'.moved[k].newIndex == None;
      }
      if MovePending(c', n, j) {
        var k :| 0 <= k < |c'.moved| && LeavesAs(c'.moved[k], n, j) && c'.moved[k].newIndex == None;
        assert (k < |c.moved| && c'.moved[k] == c.moved[k]) || c'.moved[k] == m;
      }
    }
  }

  lemma RequestEntry<D>(moved: seq<Move<D>>, m: Move<D>)
    ensures exists k :: 0 <= k < |PutMove(moved, m)| && PutMove(moved, m)[k] == m
  {
    if k :| 0 <= k < |moved| && moved[k].dev == m.dev {
      assert PutMove(moved, m)[k] == m;
    } else {
      assert PutMove(moved, m)[|moved|] == m;
    }
  }

  lemma RequestKeeps<D>(s: Sys<D>, d: D, dst: Netns, readable: bool, s': Sys<D>)
    requires SysInv(s) && Step(s, MoveRequest(d, dst, readable), s')
    ensures SysInv(s')
  {
    RequestMoveKeepsIdentity(s.ctl, d, dst, readable);
    hide IdentityInv;
    forall n, j | n in s'.ctl.db ensures n in s.ctl.db && (InStep(s', n, j) || Dropped(s', n, j)) {
      RequestKeepsKeys(s.ctl, d, dst, readable);
      assert InStep(s, n, j) || Dropped(s, n, j);
      RequestSlot(s.ctl, d, dst, readable, n, j);
    }
    RequestKeepsKeys(s.ctl, d, dst, readable);
  }

  lemma RequestKeepsKeys<D>(c: Tables<D>, d: D, dst: Netns, readable: bool)
    requires d in c.attrs
    ensures RequestMove(c, d, dst, c.attrs[d].netns, readable).0.db.Keys == c.db.Keys
  {
  }

  /**
    A request keeps agreement exactly when it is harmless: it finds its slot empty, or it gets to make
    its entry, or another move out of the slot is pending already.
   */
  lemma RequestKeepsAgreementIff<D>(s: Sys<D>, d: D, dst: Netns, readable: bool, s': Sys<D>)
    requires SysInv(s) && Agreed(s) && Step(s, MoveRequest(d, dst, readable), s')
    ensures SysInv(s') && (Agreed(s') <==> Harmless(s.ctl, d, readable))
  {
    RequestKeeps(s, d, dst, readable, s');
    RequestKeepsKeys(s.ctl, d, dst, readable);
    hide IdentityInv, MovePending;
    var (ns, i) := (s.ctl.attrs[d].netns, s.ctl.attrs[d].ifindex);
    forall n, j | n in s.ctl.db
      ensures InStep(s', n, j) || MovePending(s'.ctl, n, j) <==> !(n == ns && j == i) || Harmless(s.ctl, d, readable)
    {
      RequestSlot(s.ctl, d, dst, readable, n, j);
      assert InStep(s, n, j) || MovePending(s.ctl, n, j);
      assert InStep(s, n, j) || Dropped(s, n, j);
      if j in s.ctl.db[n] {
        TrackDiffers(s.chans[n], j);
      }
    }
    if !Harmless(s.ctl, d, readable) {
      assert ns in s'.ctl.db && !(InStep(s', ns, i) || MovePending(s'.ctl, ns, i));
    }
  }

  lemma NewNetnsKeeps<D>(s: Sys<D>, ns: Netns, s': Sys<D>)
    requires SysInv(s) && Step(s, NewNetns(ns), s')
    ensures SysInv(s') && (Agreed(s) ==> Agreed(s'))
  {
    forall n, j | n in s'.ctl.db ensures InStep(s', n, j) || Dropped(s', n, j) {
      if n != ns {
        assert InStep(s, n, j) || Dropped(s, n, j);
      }
    }
    if Agreed(s) {
      forall n, j | n in s'.ctl.db ensures InStep(s', n, j) || MovePending(s'.ctl, n, j) {
        if n != ns {
          assert InStep(s, n, j) || MovePending(s.ctl, n, j);
        }
      }
    }
  }

  // ---- Runs ----

  lemma StepKeeps<D>(s: Sys<D>, e: Event<D>, s': Sys<D>)
    requires SysInv(s) && Step(s, e, s')
    ensures SysInv(s')
  {
    hide SysInv, Agreed, Step;
    match e
    case Kernel(ns, msg) => KernelKeeps(s, ns, msg, s');
    case Delivery(ns, made) => DeliveryKeeps(s, ns, made, s');
    case MoveRequest(d, dst, readable) => RequestKeeps(s, d, dst, readable, s');
    case NewNetns(ns) => NewNetnsKeeps(s, ns, s');
  }

  /** Every step but a harmful move request keeps agreement, and such a request does break it. */
  lemma StepKeepsAgreementIff<D>(s: Sys<D>, e: Event<D>, s': Sys<D>)
    requires SysInv(s) && Agreed(s) && Step(s, e, s')
    ensures SysInv(s') && (Agreed(s') <==> HarmlessEvent(s, e))
  {
    match e
    case Kernel(ns, msg) => KernelKeeps(s, ns, msg, s');
    case Delivery(ns, made) => DeliveryKeeps(s, ns, made, s');
    case MoveRequest(d, dst, readable) => RequestKeepsAgreementIff(s, d, dst, readable, s');
    case NewNetns(ns) => NewNetnsKeeps(s, ns, s');
  }

  /** `states` are the states of a run with events `events`. */
  ghost predicate IsRun<D>(states: seq<Sys<D>>, events: seq<Event<D>>) {
    && |states| == |events| + 1 && InitSys(states[0])
    && forall k :: 0 <= k < |events| ==> Step(states[k], events[k], states[k + 1])
  }

  /** The first `k` events have no harmful request among them. */
  ghost predicate HarmlessUpTo<D>(states: seq<Sys<D>>, events: seq<Event<D>>, k: nat)
    requires k <= |events| < |states|
  {
    forall j :: 0 <= j < k ==> HarmlessEvent(states[j], events[j])
  }

  /** The invariant holds in every state of every run, and agreement as long as no request is harmful. */
  lemma {:induction false} RunKeeps<D>(states: seq<Sys<D>>, events: seq<Event<D>>, k: nat)
    requires IsRun(states, events) && k < |states|
    ensures SysInv(states[k])
    ensures HarmlessUpTo(states, events, k) ==> Agreed(states[k])
  {
    if k == 0 {
      StartsInStep(states[0]);
    } else {
      hide SysInv, Agreed, HarmlessEvent, InitSys;
      RunKeeps(states, events, k - 1);
      StepKeeps(states[k - 1], events[k - 1], states[k]);
      if HarmlessUpTo(states, events, k) {
        assert HarmlessUpTo(states, events, k - 1);
        StepKeepsAgreementIff(states[k - 1], events[k - 1], states[k]);
      }
    }
  }

  lemma StartsInStep<D>(s: Sys<D>)
    requires InitSys(s)
    ensures SysInv(s) && Agreed(s)
  {
    forall ns, i | ns in s.ctl.db ensures InStep(s, ns, i) {
    }
  }

  /**
    Replica agreement. With nothing under way from a namespace, the controller tracks there only what
    the agent tracks; and all of it, if no request so far was harmful, except for devices whose move
    out is still waiting for its change message.
   */
  lemma ReplicasAgree<D>(states: seq<Sys<D>>, events: seq<Event<D>>, k: nat, ns: Netns)
    requires IsRun(states, events) && k < |states|
    requires ns in states[k].chans && states[k].chans[ns] == []
    ensures var s := states[k];
            && ns in s.ctl.db && ns in s.agents
            && (forall i :: i in s.ctl.db[ns] ==> i in s.agents[ns])
            && (HarmlessUpTo(states, events, k) ==>
                  forall i :: i in s.agents[ns] && i !in s.ctl.db[ns] ==> MovePending(s.ctl, ns, i))
  {
    RunKeeps(states, events, k);
    hide IsRun, HarmlessUpTo, IdentityInv, MovePending;
    var s := states[k];
    forall i ensures i in s.ctl.db[ns] ==> i in s.agents[ns] {
      assert InStep(s, ns, i) || Dropped(s, ns, i);
    }
    if HarmlessUpTo(states, events, k) {
      forall i | i in s.agents[ns] && i !in s.ctl.db[ns] ensures MovePending(s.ctl, ns, i) {
        assert InStep(s, ns, i) || MovePending(s.ctl, ns, i);
      }
    }
  }

  /** With messages under way, the last one about an index says whether the agent tracks it. */
  lemma LastMessageDecides<D>(states: seq<Sys<D>>, events: seq<Event<D>>, k: nat, ns: Netns, i: int, last: nat)
    requires IsRun(states, events) && k < |states| && ns in states[k].chans
    requires LastMention(states[k].chans[ns], i, last)
    ensures ns in states[k].agents
    ensures i in states[k].agents[ns] <==> states[k].chans[ns][last].DevCreated?
  {
    RunKeeps(states, events, k);
    var s := states[k];
    assert InStep(s, ns, i) || Dropped(s, ns, i);
    TrackEnds(s.chans[ns], i, if InStep(s, ns, i) then i in s.ctl.db[ns] else true);
  }

  /** The controller never ignores a creation: the slot of a `dev_created` that it reads is free. */
  lemma CreationFindsFreeSlot<D>(states: seq<Sys<D>>, events: seq<Event<D>>, k: nat, ns: Netns)
    requires IsRun(states, events) && k < |states| && ns in states[k].chans
    requires states[k].chans[ns] != [] && states[k].chans[ns][0].DevCreated?
    ensures ns in states[k].ctl.db && states[k].chans[ns][0].ifindex !in states[k].ctl.db[ns]
  {
    RunKeeps(states, events, k);
    var i := states[k].chans[ns][0].ifindex;
    assert InStep(states[k], ns, i) || Dropped(states[k], ns, i);
  }

  lemma ReportedStays<D>(events: seq<Event<D>>, k: nat, ns: Netns, i: int, newIndex: Option<int>)
    requires k < |events| && Reported(events, k, ns, i, newIndex)
    ensures Reported(events, k + 1, ns, i, newIndex)
  {
  }

  /** A step adds no other report to the channels, and gives no move another index. */
  lemma StepReports<D>(s: Sys<D>, e: Event<D>, s': Sys<D>, ns: Netns, q: nat)
    requires Step(s, e, s') && ns in s'.chans && q < |s'.chans[ns]| && s'.chans[ns][q].DevNetnsChanged?
    ensures var m := s'.chans[ns][q];
            (ns in s.chans && m in s.chans[ns]) || e == Kernel(ns, DelLink(m.ifindex, false, true, m.newIfindex))
  {
  }

  lemma StepRenumbers<D>(s: Sys<D>, e: Event<D>, s': Sys<D>, m: Move<D>)
    requires Step(s, e, s') && m in s'.ctl.moved && m.newIndex.Some?
    ensures m in s.ctl.moved || (e.Delivery? && e.ns in s.chans && s.chans[e.ns] != [] && e.ns == m.src && s.chans[e.ns][0] == DevNetnsChanged(m.oldIndex, m.newIndex))
  {
  }

  lemma {:induction false} RunReports<D>(states: seq<Sys<D>>, events: seq<Event<D>>, k: nat)
    requires IsRun(states, events) && k < |states|
    ensures AllReported(states[k], events, k)
  {
    if k > 0 {
      var s, e, s' := states[k - 1], events[k - 1], states[k];
      RunReports(states, events, k - 1);
      assert Step(s, e, s');
      hide IsRun, Step;
      forall ns, q | ns in s'.chans && 0 <= q < |s'.chans[ns]| && s'.chans[ns][q].DevNetnsChanged?
        ensures Reported(events, k, ns, s'.chans[ns][q].ifindex, s'.chans[ns][q].newIfindex)
      {
        StepReports(s, e, s', ns, q);
      }
      forall m | m in s'.ctl.moved && m.newIndex.Some? ensures Reported(events, k, m.src, m.oldIndex, m.newIndex) {
        StepRenumbers(s, e, s', m);
        if m in s.ctl.moved {
          ReportedStays(events, k - 1, m.src, m.oldIndex, m.newIndex);
        }
      }
    }
  }

  /**
    In every run, a device on its way has a new index only if the kernel has reported that a link with
    its old index left its old namespace and got that index.
   */
  lemma NewIndexFromKernel<D>(states: seq<Sys<D>>, events: seq<Event<D>>, k: nat, m: Move<D>)
    requires IsRun(states, events) && k < |states| && m in states[k].ctl.moved && m.newIndex.Some?
    ensures exists n :: 0 <= n < k && events[n] == Kernel(m.src, DelLink(m.oldIndex, false, true, m.newIndex))
  {
    RunReports(states, events, k);
  }

  // ---- Which requests are harmless in a run ----

  /** Devices in slots are neither deleted nor cached, devices on their way not deleted, and no deleted device is cached. */
  ghost predicate Live<D>(c: Tables<D>) {
    && (forall ns, i :: ns in c.db && i in c.db[ns] && c.db[ns][i] in c.attrs ==>
          !c.attrs[c.db[ns][i]].deleted && !c.attrs[c.db[ns][i]].cached)
    && (forall k :: 0 <= k < |c.moved| && c.moved[k].dev in c.attrs ==> !c.attrs[c.moved[k].dev].deleted)
    && (forall d :: d in c.attrs && c.attrs[d].deleted ==> !c.attrs[d].cached)
  }

  lemma DeliveryKeepsLive<D>(c: Tables<D>, ns: Netns, m: Msg, made: D)
    requires IdentityInv(c) && Live(c) && made !in c.attrs && Deliver(c, ns, m, made).Done?
    ensures Live(Deliver(c, ns, m, made).value)
  {
  }

  lemma RequestKeepsLive<D>(c: Tables<D>, d: D, dst: Netns, readable: bool)
    requires IdentityInv(c) && Live(c) && d in c.attrs
    ensures Live(RequestMove(c, d, dst, c.attrs[d].netns, readable).0)
  {
  }

  lemma {:induction false} RunKeepsLive<D>(states: seq<Sys<D>>, events: seq<Event<D>>, k: nat)
    requires IsRun(states, events) && k < |states|
    ensures Live(states[k].ctl)
  {
    if k > 0 {
      var s, s' := states[k - 1], states[k];
      RunKeepsLive(states, events, k - 1);
      RunKeeps(states, events, k - 1);
      assert Step(s, events[k - 1], s');
      hide IsRun, Live, IdentityInv, HarmlessUpTo;
      match events[k - 1]
      case Kernel(ns, msg) =>
      case Delivery(ns, made) => DeliveryKeepsLive(s.ctl, ns, s.chans[ns][0], made);
      case MoveRequest(d, dst, readable) => RequestKeepsLive(s.ctl, d, dst, readable);
      case NewNetns(ns) => NewNetnsKeepsLive(s.ctl, ns);
    }
  }

  lemma NewNetnsKeepsLive<D>(c: Tables<D>, ns: Netns)
    requires Live(c)
    ensures Live(AddNetns(c, ns))
  {
  }

  /**
    In a run a request for the device that its slot holds is harmless exactly when the device can be read
    or another move out of the slot is pending. For any other device it is harmless exactly when the slot
    is empty, or a move out of it is pending, or the device is not deleted and is cached or can be read.
   */
  lemma HarmlessInRunIff<D>(states: seq<Sys<D>>, events: seq<Event<D>>, k: nat, d: D, readable: bool)
    requires IsRun(states, events) && k < |states| && d in states[k].ctl.attrs
    ensures var c := states[k].ctl;
            var a := c.attrs[d];
            && (Harmless(c, d, readable) <==>
                  || !SlotTaken(c, a.netns, a.ifindex) || MovePending(c, a.netns, a.ifindex)
                  || (!a.deleted && (a.cached || readable)))
            && (SlotTaken(c, a.netns, a.ifindex) && c.db[a.netns][a.ifindex] == d ==>
                  (Harmless(c, d, readable) <==> readable || MovePending(c, a.netns, a.ifindex)))
  {
    RunKeepsLive(states, events, k);
    hide IsRun, MovePending;
  }

  // ---- A request that breaks agreement ----

  /** A system of one namespace with nothing on its way. */
  function OneNetns(slots: map<int, nat>, attrs: map<nat, Attrs>, tracked: set<int>, chan: seq<Msg>): Sys<nat> {
    Sys(Tables(map["" := slots], [], attrs), map["" := tracked], map["" := chan])
  }

  lemma OneKernelStep(slots: map<int, nat>, attrs: map<nat, Attrs>, tracked: set<int>, msg: Netlink)
    ensures Step(OneNetns(slots, attrs, tracked, []), Kernel("", msg),
                 OneNetns(slots, attrs, AgentStep(tracked, msg).0, AgentStep(tracked, msg).1))
  {
    var (tracked', sent) := AgentStep(tracked, msg);
    assert map["" := tracked]["" := tracked'] == map["" := tracked'];
    assert [] + sent == sent;
    assert map["" := []]["" := sent] == map["" := sent];
  }

  /** A link comes up, and the controller learns of it. */
  lemma LinkComesUp(attrs: map<nat, Attrs>, made: nat)
    requires made !in attrs
    ensures Step(OneNetns(map[], attrs, {}, []), Kernel("", NewLink(1, false)), OneNetns(map[], attrs, {1}, [DevCreated(1)]))
    ensures Step(OneNetns(map[], attrs, {1}, [DevCreated(1)]), Delivery("", made),
                 OneNetns(map[1 := made], attrs[made := Attrs(1, "", false, false)], {1}, []))
  {
    OneKernelStep(map[], attrs, {}, NewLink(1, false));
    assert {} + {1} == {1};
    assert [DevCreated(1)][1..] == [];
  }

  lemma DropOnly(d: nat)
    ensures Delete(map["" := map[1 := d]], "", 1) == map["" := map[]]
  {
    assert map[1 := d] - {1} == map[];
    assert map["" := map[1 := d]]["" := map[]] == map["" := map[]];
  }

  /** The link goes away again. */
  lemma LinkGoesAway(attrs: map<nat, Attrs>, d: nat, unused: nat)
    requires d in attrs && unused !in attrs
    ensures Step(OneNetns(map[1 := d], attrs, {1}, []), Kernel("", DelLink(1, false, false, None)),
                 OneNetns(map[1 := d], attrs, {}, [DevDeleted(1)]))
    ensures Step(OneNetns(map[1 := d], attrs, {}, [DevDeleted(1)]), Delivery("", unused),
                 OneNetns(map[], attrs[d := attrs[d].(deleted := true)], {}, []))
  {
    OneKernelStep(map[1 := d], attrs, {1}, DelLink(1, false, false, None));
    assert {1} - {1} == {};
    assert [DevDeleted(1)][1..] == [];
    DropOnly(d);
  }

  /** A request that fails has dropped the device that is in the slot. */
  lemma FailedRequest(attrs: map<nat, Attrs>, d: nat, x: nat, readable: bool)
    requires d in attrs && attrs[d].ifindex == 1 && attrs[d].netns == "" && !CanCache(attrs[d], readable)
    ensures Step(OneNetns(map[1 := x], attrs, {1}, []), MoveRequest(d, "ns", readable), OneNetns(map[], attrs, {1}, []))
    ensures RequestMove(OneNetns(map[1 := x], attrs, {1}, []).ctl, d, "ns", "", readable).1 ==
            if attrs[d].deleted then DeviceDeleted else ReadFailed
  {
    DropOnly(x);
  }

  /**
    Agreement can break: device 0 is deleted, device 1 takes over its index, and a move of device 0 is
    requested. The agent tracks index 1, the controller does not, and nothing is under way or pending.
   */
  lemma StaleRequestExample() returns (states: seq<Sys<nat>>, events: seq<Event<nat>>)
    ensures IsRun(states, events) && |events| == 7
    ensures states[7].chans == map["" := []] && states[7].agents == map["" := {1}]
    ensures states[7].ctl.db == map["" := map[]] && states[7].ctl.moved == []
    ensures SysInv(states[7]) && !Agreed(states[7])
  {
    hide Step, SysInv, IdentityInv;
    var a0 := map[0 := Attrs(1, "", false, false)];
    var a1 := map[0 := Attrs(1, "", true, false)];
    var a2 := a1[1 := Attrs(1, "", false, false)];
    LinkComesUp(map[], 0);
    LinkGoesAway(a0, 0, 1);
    LinkComesUp(a1, 1);
    FailedRequest(a2, 0, 1, true);
    assert map[][0 := Attrs(1, "", false, false)] == a0 && a0[0 := a0[0].(deleted := true)] == a1;
    states := [OneNetns(map[], map[], {}, []), OneNetns(map[], map[], {1}, [DevCreated(1)]), OneNetns(map[1 := 0], a0, {1}, []),
               OneNetns(map[1 := 0], a0, {}, [DevDeleted(1)]), OneNetns(map[], a1, {}, []),
               OneNetns(map[], a1, {1}, [DevCreated(1)]), OneNetns(map[1 := 1], a2, {1}, []), OneNetns(map[], a2, {1}, [])];
    events := [Kernel("", NewLink(1, false)), Delivery("", 0), Kernel("", DelLink(1, false, false, None)), Delivery("", 1),
               Kernel("", NewLink(1, false)), Delivery("", 1), MoveRequest(0, "ns", true)];
    RunKeeps(states, events, 7);
    assert "" in states[7].ctl.db && !InStep(states[7], "", 1) && !MovePending(states[7].ctl, "", 1);
  }

  /**
    It can also break over a device in its slot: a remote read of device 0 raises, after its slot was
    dropped and before its entry was made.
   */
  lemma UnreadableExample() returns (states: seq<Sys<nat>>, events: seq<Event<nat>>)
    ensures IsRun(states, events) && |events| == 3 && events[2] == MoveRequest(0, "ns", false)
    ensures states[2].ctl.db == map["" := map[1 := 0]] && states[2].ctl.attrs == map[0 := Attrs(1, "", false, false)]
    ensures states[3].chans == map["" := []] && states[3].agents == map["" := {1}]
    ensures states[3].ctl.db == map["" := map[]] && states[3].ctl.moved == []
    ensures SysInv(states[3]) && !Agreed(states[3])
  {
    hide Step, SysInv, IdentityInv;
    var a0 := map[0 := Attrs(1, "", false, false)];
    LinkComesUp(map[], 0);
    FailedRequest(a0, 0, 0, false);
    assert map[][0 := Attrs(1, "", false, false)] == a0;
    states := [OneNetns(map[], map[], {}, []), OneNetns(map[], map[], {1}, [DevCreated(1)]),
               OneNetns(map[1 := 0], a0, {1}, []), OneNetns(map[], a0, {1}, [])];
    events := [Kernel("", NewLink(1, false)), Delivery("", 0), MoveRequest(0, "ns", false)];
    RunKeeps(states, events, 3);
    assert "" in states[3].ctl.db && !InStep(states[3], "", 1) && !MovePending(states[3].ctl, "", 1);
  }
}
