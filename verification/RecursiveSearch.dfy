/**
  The pool search in its plain recursive form: every choice is tried in turn, what it leads to is
  collected, and then it is taken back. The resumable search on two stacks comes to the same list.
 */
module RecursiveSearch {
  import opened Sequences
  import opened SortedKeys
  import opened MatchModel
  import opened SearchState
  import opened SearchResult

  /** The hosts matched so far, the label map, and the hosts still to be matched, the next one last. */
  datatype Place = Place(p: Problem, ms: map<Id, HostMatch>, net: NetMap, rest: seq<Id>)

  /** The matches found from a place, and the list of unmatched machines it leaves. */
  datatype Walk = Walk(found: seq<Match>, avail: seq<Id>)

  /** The same within a host, with the list of unmatched ports it leaves. */
  datatype IfWalk = IfWalk(found: seq<Match>, ports: seq<Id>, avail: seq<Id>)

  /** All ways to match the hosts that are left. */
  function Hosts(c: Place, avail: seq<Id>): Walk
    decreases |c.rest|, 0, 0, 0
  {
    if c.rest == [] then Walk([Match(c.ms, NetworksOf(c.net))], avail)
    else Machines(c.(rest := Init(c.rest)), Last(c.rest), avail, avail)
  }

  /** All ways to match host `h` to one of the candidates, and the hosts left behind it. */
  function Machines(c: Place, h: Id, cands: seq<Id>, avail: seq<Id>): Walk
    decreases |c.rest|, 3, |cands|, 0
  {
    if cands == [] then Walk([], avail)
    else
      var t := Last(cands);
      if !MachineFits(c.p, h, t) then Machines(c, h, Init(cands), avail)
      else
        var first := OnMachine(c, h, t, Remove(avail, t));
        var others := Machines(c, h, Init(cands), first.avail + [t]);
        Walk(first.found + others.found, others.avail)
  }

  /** All ways to go on with host `h` on machine `t`. */
  function OnMachine(c: Place, h: Id, t: Id, avail: seq<Id>): Walk
    decreases |c.rest|, 2, 0, 0
  {
    if c.p.virtual then Hosts(c.(ms := c.ms[h := HostMatch(t, map[])]), avail)
    else
      var w := Ifs(c, h, HostMatch(t, map[]), SortedDesc(ReqIfs(c.p, h).Keys), SortedDesc(PoolIfs(c.p, t).Keys), avail);
      Walk(w.found, w.avail)
  }

  /** All ways to match the interfaces in `todo`, the next one last, with `x` so far. */
  function Ifs(c: Place, h: Id, x: HostMatch, todo: seq<Id>, ports: seq<Id>, avail: seq<Id>): IfWalk
    decreases |c.rest|, 1, |todo|, 0
  {
    if todo == [] then
      var w := Hosts(c.(ms := c.ms[h := x]), avail);
      IfWalk(w.found, ports, w.avail)
    else Ports(c, h, x, Last(todo), Init(todo), ports, ports, avail)
  }

  /** All ways to match interface `i` to one of the candidates, and the interfaces left behind it. */
  function Ports(c: Place, h: Id, x: HostMatch, i: Id, todo: seq<Id>, cands: seq<Id>, ports: seq<Id>, avail: seq<Id>): IfWalk
    decreases |c.rest|, 1, |todo|, 1 + |cands|
  {
    if cands == [] then IfWalk([], ports, avail)
    else
      var v := Last(cands);
      if !IfFits(c.p, h, x.target, c.net, i, v) then Ports(c, h, x, i, todo, Init(cands), ports, avail)
      else
        var claimed := Claim(c.net, Label(c.p, h, i), NetEntry(NetworkOf(c.p, x.target, v), h, i));
        var first := Ifs(c.(net := claimed), h, x.(ifs := x.ifs[i := v]), todo, Remove(ports, v), avail);
        var others := Ports(c, h, x, i, todo, Init(cands), first.ports + [v], first.avail);
        IfWalk(first.found + others.found, others.ports, others.avail)
  }

  // ---- What a state of the two stacks still leads to ----

  /** The way back through the interfaces of a host: the other candidates of each, from the top one down. */
  ghost function RestIfs(c: Place, h: Id, t: Id, gs: seq<IfFrame>, todo: seq<Id>, ports: seq<Id>, avail: seq<Id>): IfWalk
    decreases |gs|
  {
    if gs == [] then IfWalk([], ports, avail)
    else
      var g := Last(gs);
      var given := if g.cur.Some? then ports + [g.cur.value] else ports;
      var here := Ports(c.(net := IfNet(c.p, h, t, c.net, Init(gs))), h, HostMatch(t, IfsOf(Init(gs))), g.ifId, todo, g.remaining, given, avail);
      var below := RestIfs(c, h, t, Init(gs), todo + [g.ifId], here.ports, here.avail);
      IfWalk(here.found + below.found, below.ports, below.avail)
  }

  ghost function PlaceOf(p: Problem, below: seq<Frame>, rest: seq<Id>): Place {
    Place(p, MachinesOf(below), NetOf(p, below), rest)
  }

  /** The way back within a host frame, up to its machine being given back. */
  ghost function RestMachine(c: Place, f: Frame, avail: seq<Id>): Walk {
    if f.cur.None? then Walk([], avail)
    else
      var w := RestIfs(c, f.id, f.cur.value, f.ifStack, f.unmatchedIfs, f.unmatchedPoolIfs, avail);
      Walk(w.found, w.avail + [f.cur.value])
  }

  /** The way back through a host frame: the rest of its machine, and its other candidates. */
  ghost function RestFrame(c: Place, f: Frame, avail: seq<Id>): Walk {
    var here := RestMachine(c, f, avail);
    var others := Machines(c, f.id, f.remaining, here.avail);
    Walk(here.found + others.found, others.avail)
  }

  /** The way back through all hosts. */
  ghost function RestFrames(p: Problem, fs: seq<Frame>, rest: seq<Id>, avail: seq<Id>): seq<Match> {
    if fs == [] then []
    else
      var here := RestFrame(PlaceOf(p, Init(fs), rest), Last(fs), avail);
      here.found + RestFrames(p, Init(fs), rest + [Last(fs).id], here.avail)
  }

  /** What lies beyond the current path, before the way back. */
  ghost function Onward(c: Place, f: Frame, avail: seq<Id>): IfWalk
    requires f.cur.Some?
  {
    if c.p.virtual then
      var w := Hosts(c.(ms := c.ms[f.id := HostMatch(f.cur.value, map[])]), avail);
      IfWalk(w.found, f.unmatchedPoolIfs, w.avail)
    else
      Ifs(c.(net := IfNet(c.p, f.id, f.cur.value, c.net, f.ifStack)), f.id, HostMatch(f.cur.value, IfsOf(f.ifStack)),
          f.unmatchedIfs, f.unmatchedPoolIfs, avail)
  }

  /** The matches that a state leads to, in order; `pend` says that the current path has not been followed yet. */
  ghost function Coming(p: Problem, s: State, pend: bool): seq<Match> {
    if !pend || s.stack == [] || Last(s.stack).cur.None? then RestFrames(p, s.stack, s.unmatchedReqs, s.unmatchedPool)
    else
      var f := Last(s.stack);
      var w := Onward(PlaceOf(p, Init(s.stack), s.unmatchedReqs), f, s.unmatchedPool);
      w.found + RestFrames(p, SetLast(s.stack, f.(unmatchedPoolIfs := w.ports)), s.unmatchedReqs, w.avail)
  }
}
