/**
  The search state of `MachineMapper` as a value, the primitive moves of the search on it, the
  invariant every move keeps, and the set of matches still ahead of the search.
 */
module SearchState {
  import opened Sequences
  import opened SortedKeys
  import opened MatchModel

  /** An entry of a machine frame's `if_stack`. */
  datatype IfFrame = IfFrame(ifId: Id, cur: Option<Id>, remaining: seq<Id>)

  /** An entry of `_machine_stack`. */
  datatype Frame = Frame(
    id: Id, cur: Option<Id>, remaining: seq<Id>, ifStack: seq<IfFrame>,
    unmatchedIfs: seq<Id>, unmatchedPoolIfs: seq<Id>, virtMatched: bool)

  /** An entry of `_net_label_mapping`: the network and the interface that claimed the label. */
  datatype NetEntry = NetEntry(network: string, host: Id, ifId: Id)
  type NetMap = map<string, NetEntry>

  datatype State = State(stack: seq<Frame>, unmatchedReqs: seq<Id>, unmatchedPool: seq<Id>, net: NetMap)

  // ---- What the stacks say ----

  function CurOf(o: Option<Id>): set<Id> {
    if o.Some? then {o.value} else {}
  }

  ghost function IfIds(gs: seq<IfFrame>): set<Id> {
    if gs == [] then {} else IfIds(Init(gs)) + {Last(gs).ifId}
  }

  ghost function IfTargets(gs: seq<IfFrame>): set<Id> {
    if gs == [] then {} else IfTargets(Init(gs)) + CurOf(Last(gs).cur)
  }

  ghost predicate IfsMapped(gs: seq<IfFrame>) {
    gs == [] || (IfsMapped(Init(gs)) && Last(gs).cur.Some?)
  }

  ghost function Ids(fs: seq<Frame>): set<Id> {
    if fs == [] then {} else Ids(Init(fs)) + {Last(fs).id}
  }

  ghost function Targets(fs: seq<Frame>): set<Id> {
    if fs == [] then {} else Targets(Init(fs)) + CurOf(Last(fs).cur)
  }

  /** The first interface to use a label claims it. */
  function Claim(net: NetMap, lab: string, e: NetEntry): NetMap {
    if lab in net then net else net[lab := e]
  }

  function IfClaim(p: Problem, h: Id, t: Id, net: NetMap, g: IfFrame): NetMap {
    if g.cur.None? then net else Claim(net, Label(p, h, g.ifId), NetEntry(NetworkOf(p, t, g.cur.value), h, g.ifId))
  }

  ghost function IfNet(p: Problem, h: Id, t: Id, net: NetMap, gs: seq<IfFrame>): NetMap {
    if gs == [] then net else IfClaim(p, h, t, IfNet(p, h, t, net, Init(gs)), Last(gs))
  }

  /** The label map that the stacks determine: every claim made from the bottom of the stack upwards. */
  ghost function NetOf(p: Problem, fs: seq<Frame>): NetMap {
    if fs == [] then map[]
    else if Last(fs).cur.None? then NetOf(p, Init(fs))
    else IfNet(p, Last(fs).id, Last(fs).cur.value, NetOf(p, Init(fs)), Last(fs).ifStack)
  }

  /** The label test of `_check_interface_compatibility`. */
  predicate NetFits(net: NetMap, lab: string, network: string) {
    forall l :: l in net ==> (net[l].network == network <==> l == lab)
  }

  predicate IfFits(p: Problem, h: Id, t: Id, net: NetMap, i: Id, v: Id) {
    NetFits(net, Label(p, h, i), NetworkOf(p, t, v)) && IfParamsFit(p, h, i, t, v)
  }

  // ---- The invariant ----

  /** What holds of interface frame `g` of host `h` on machine `t`, above frames that use `used` and leave `net`. */
  ghost predicate IfFrameInv(p: Problem, h: Id, t: Id, net: NetMap, used: set<Id>, g: IfFrame) {
    && g.ifId in ReqIfs(p, h)
    && NoDup(g.remaining)
    && Elems(g.remaining) <= PoolIfs(p, t).Keys - used
    && (g.cur.Some? ==>
          && g.cur.value !in g.remaining
          && g.cur.value !in used
          && IfFits(p, h, t, net, g.ifId, g.cur.value))
  }

  ghost predicate IfStackInv(p: Problem, h: Id, t: Id, net: NetMap, gs: seq<IfFrame>) {
    gs == [] ||
    (&& IfStackInv(p, h, t, net, Init(gs))
     && IfsMapped(Init(gs))
     && Last(gs).ifId !in IfIds(Init(gs))
     && IfFrameInv(p, h, t, IfNet(p, h, t, net, Init(gs)), IfTargets(Init(gs)), Last(gs)))
  }

  /** The matched and unmatched interface ids of a frame partition the required and the pool interfaces. */
  ghost predicate IfListsInv(p: Problem, f: Frame) {
    && NoDup(f.unmatchedIfs)
    && Elems(f.unmatchedIfs) == ReqIfs(p, f.id).Keys - IfIds(f.ifStack)
    && |f.ifStack| + |f.unmatchedIfs| == |ReqIfs(p, f.id)|
    && (f.cur.Some? ==>
          && NoDup(f.unmatchedPoolIfs)
          && Elems(f.unmatchedPoolIfs) == PoolIfs(p, f.cur.value).Keys - IfTargets(f.ifStack))
  }

  ghost predicate FrameInv(p: Problem, below: seq<Frame>, f: Frame) {
    && f.id in p.reqs && f.id !in Ids(below)
    && NoDup(f.remaining)
    && Elems(f.remaining) <= Usable(p) - Targets(below)
    && IfListsInv(p, f)
    && (f.virtMatched ==> f.cur.Some?)
    && (p.virtual || f.cur.None? ==> f.ifStack == [])
    && (f.cur.Some? ==>
          && f.cur.value !in f.remaining
          && f.cur.value in Usable(p) - Targets(below)
          && MachineFits(p, f.id, f.cur.value)
          && IfStackInv(p, f.id, f.cur.value, NetOf(p, below), f.ifStack))
  }

  /** The host of the frame is mapped, and outside virtual matching all its interfaces are. */
  ghost predicate FrameDone(p: Problem, f: Frame) {
    && f.cur.Some?
    && (if p.virtual then f.virtMatched else f.unmatchedIfs == [] && IfsMapped(f.ifStack))
  }

  ghost predicate StackDone(p: Problem, fs: seq<Frame>) {
    fs == [] || (StackDone(p, Init(fs)) && FrameDone(p, Last(fs)))
  }

  ghost predicate StackInv(p: Problem, fs: seq<Frame>) {
    fs == [] || (StackInv(p, Init(fs)) && StackDone(p, Init(fs)) && FrameInv(p, Init(fs), Last(fs)))
  }

  /** Matched and unmatched ids partition the required hosts and the usable pool machines. */
  ghost predicate ListsInv(p: Problem, s: State) {
    && NoDup(s.unmatchedReqs)
    && Elems(s.unmatchedReqs) == p.reqs.Keys - Ids(s.stack)
    && |s.stack| + |s.unmatchedReqs| == |p.reqs|
    && NoDup(s.unmatchedPool)
    && Elems(s.unmatchedPool) == Usable(p) - Targets(s.stack)
  }

  ghost predicate Inv(p: Problem, s: State) {
    && StackInv(p, s.stack)
    && ListsInv(p, s)
    && s.net == NetOf(p, s.stack)
  }

  // ---- The matches ahead of the search ----

  ghost predicate IfAgree(gs: seq<IfFrame>, x: HostMatch) {
    gs == [] || (IfAgree(Init(gs), x) && Last(gs).ifId in x.ifs && Last(gs).cur == Some(x.ifs[Last(gs).ifId]))
  }

  ghost predicate IfAhead(gs: seq<IfFrame>, x: HostMatch) {
    gs != [] &&
    (IfAhead(Init(gs), x) ||
     (IfAgree(Init(gs), x) && Last(gs).ifId in x.ifs && x.ifs[Last(gs).ifId] in Last(gs).remaining))
  }

  ghost predicate FrameAgree(f: Frame, x: HostMatch) {
    f.cur == Some(x.target) && IfAgree(f.ifStack, x)
  }

  ghost predicate FrameAhead(f: Frame, x: HostMatch) {
    x.target in f.remaining || (f.cur == Some(x.target) && IfAhead(f.ifStack, x))
  }

  /** The match extends the current path of the search. */
  ghost predicate Agree(fs: seq<Frame>, m: Match) {
    fs == [] || (Agree(Init(fs), m) && Last(fs).id in m.machines && FrameAgree(Last(fs), m.machines[Last(fs).id]))
  }

  /** The match leaves the current path at a level where its choice is still among the remaining candidates. */
  ghost predicate Ahead(fs: seq<Frame>, m: Match) {
    fs != [] &&
    (Ahead(Init(fs), m) ||
     (Agree(Init(fs), m) && Last(fs).id in m.machines && FrameAhead(Last(fs), m.machines[Last(fs).id])))
  }

  /** The match is still to be found; `pend` says that everything below the current path is. */
  ghost predicate ToFind(fs: seq<Frame>, pend: bool, m: Match) {
    Ahead(fs, m) || (pend && Agree(fs, m))
  }

  ghost predicate FrameToFind(f: Frame, pend: bool, x: HostMatch) {
    FrameAhead(f, x) || (pend && FrameAgree(f, x))
  }

  /** No legal match is lost or found again between the two moments. */
  ghost predicate Same(p: Problem, fs: seq<Frame>, pend: bool, fs': seq<Frame>, pend': bool) {
    forall m :: Legal(p, m) ==> (ToFind(fs, pend, m) <==> ToFind(fs', pend', m))
  }

  // ---- The moves ----

  function SetTop(s: State, f: Frame): State
    requires s.stack != []
  {
    s.(stack := SetLast(s.stack, f))
  }

  function PushMachine(p: Problem, s: State): State
    requires s.unmatchedReqs != []
  {
    var id := Last(s.unmatchedReqs);
    var f := Frame(id, None, s.unmatchedPool, [], SortedDesc(ReqIfs(p, id).Keys), [], false);
    s.(unmatchedReqs := Init(s.unmatchedReqs), stack := s.stack + [f])
  }

  function PopMachine(s: State): State
    requires s.stack != []
  {
    s.(unmatchedReqs := s.unmatchedReqs + [Last(s.stack).id], stack := Init(s.stack))
  }

  function UnmapMachine(s: State): State
    requires s.stack != []
  {
    var f := Last(s.stack);
    if f.cur.None? then s
    else SetTop(s, f.(cur := None, virtMatched := false)).(unmatchedPool := s.unmatchedPool + [f.cur.value])
  }

  function DropMachine(s: State): State
    requires s.stack != [] && Last(s.stack).remaining != []
  {
    SetTop(s, Last(s.stack).(remaining := Init(Last(s.stack).remaining)))
  }

  function TakeMachine(p: Problem, s: State): State
    requires s.stack != [] && Last(s.stack).remaining != []
  {
    var f := Last(s.stack);
    var t := Last(f.remaining);
    SetTop(s, f.(remaining := Init(f.remaining), cur := Some(t), ifStack := [],
                 unmatchedPoolIfs := SortedDesc(PoolIfs(p, t).Keys)))
      .(unmatchedPool := Remove(s.unmatchedPool, t))
  }

  function PushIf(s: State): State
    requires s.stack != [] && Last(s.stack).unmatchedIfs != []
  {
    var f := Last(s.stack);
    SetTop(s, f.(unmatchedIfs := Init(f.unmatchedIfs),
                 ifStack := f.ifStack + [IfFrame(Last(f.unmatchedIfs), None, f.unmatchedPoolIfs)]))
  }

  function PopIf(s: State): State
    requires s.stack != [] && Last(s.stack).ifStack != []
  {
    var f := Last(s.stack);
    SetTop(s, f.(unmatchedIfs := f.unmatchedIfs + [Last(f.ifStack).ifId], ifStack := Init(f.ifStack)))
  }

  function UnmapIf(p: Problem, s: State): State
    requires s.stack != [] && Last(s.stack).ifStack != []
  {
    var f := Last(s.stack);
    var g := Last(f.ifStack);
    if g.cur.None? || f.cur.None? then s
    else
      var lab := Label(p, f.id, g.ifId);
      var e := NetEntry(NetworkOf(p, f.cur.value, g.cur.value), f.id, g.ifId);
      SetTop(s, f.(unmatchedPoolIfs := f.unmatchedPoolIfs + [g.cur.value],
                   ifStack := SetLast(f.ifStack, g.(cur := None))))
        .(net := if lab in s.net && s.net[lab] == e then s.net - {lab} else s.net)
  }

  function DropIf(s: State): State
    requires s.stack != [] && Last(s.stack).ifStack != [] && Last(Last(s.stack).ifStack).remaining != []
  {
    var f := Last(s.stack);
    var g := Last(f.ifStack);
    SetTop(s, f.(ifStack := SetLast(f.ifStack, g.(remaining := Init(g.remaining)))))
  }

  function TakeIf(p: Problem, s: State): State
    requires s.stack != [] && Last(s.stack).ifStack != [] && Last(Last(s.stack).ifStack).remaining != []
    requires Last(s.stack).cur.Some?
  {
    var f := Last(s.stack);
    var g := Last(f.ifStack);
    var v := Last(g.remaining);
    SetTop(s, f.(unmatchedPoolIfs := Remove(f.unmatchedPoolIfs, v),
                 ifStack := SetLast(f.ifStack, g.(cur := Some(v), remaining := Init(g.remaining)))))
      .(net := Claim(s.net, Label(p, f.id, g.ifId), NetEntry(NetworkOf(p, f.cur.value, v), f.id, g.ifId)))
  }
}
