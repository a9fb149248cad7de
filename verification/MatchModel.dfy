/**
  The matching problem of lnst/Controller/MachineMapper.py: required hosts and interfaces on one
  side, pool machines and interfaces on the other, and what it means for a match to be legal.
 */
module MatchModel {
  type Id = string
  type Params = map<string, string>

  /** A required or an offered interface: the label or network it belongs to and its parameters. */
  datatype Interface = Interface(network: string, params: Params)
  datatype Machine = Machine(params: Params, interfaces: map<Id, Interface>)
  type Pool = map<Id, Machine>

  /** One matching task: requirements against one pool, with or without virtual matching. */
  datatype Problem = Problem(reqs: map<Id, Machine>, pool: Pool, virtual: bool)

  /** What a match says about one required host. */
  datatype HostMatch = HostMatch(target: Id, ifs: map<Id, Id>)
  datatype Match = Match(machines: map<Id, HostMatch>, networks: map<string, string>)

  /** The requirement's non-empty parameters all have the offered value. */
  predicate ParamsFit(required: Params, offered: Params) {
    forall k :: k in required ==> required[k] == "" || (k in offered && offered[k] == required[k])
  }

  predicate MayUse(p: Problem, t: Id) {
    t in p.pool && (p.virtual ==> "libvirt_domain" in p.pool[t].params)
  }

  ghost function Usable(p: Problem): set<Id> {
    set t | t in p.pool && MayUse(p, t)
  }

  function ReqIfs(p: Problem, h: Id): map<Id, Interface> {
    if h in p.reqs then p.reqs[h].interfaces else map[]
  }

  function PoolIfs(p: Problem, t: Id): map<Id, Interface> {
    if t in p.pool then p.pool[t].interfaces else map[]
  }

  function Label(p: Problem, h: Id, i: Id): string {
    if i in ReqIfs(p, h) then ReqIfs(p, h)[i].network else ""
  }

  function NetworkOf(p: Problem, t: Id, v: Id): string {
    if v in PoolIfs(p, t) then PoolIfs(p, t)[v].network else ""
  }

  predicate MachineFits(p: Problem, h: Id, t: Id) {
    h in p.reqs && t in p.pool && ParamsFit(p.reqs[h].params, p.pool[t].params)
  }

  predicate IfParamsFit(p: Problem, h: Id, i: Id, t: Id, v: Id) {
    i in ReqIfs(p, h) && v in PoolIfs(p, t) && ParamsFit(ReqIfs(p, h)[i].params, PoolIfs(p, t)[v].params)
  }

  // ---- Legal matches, stated without reference to any search order ----

  ghost predicate HostsLegal(p: Problem, ms: map<Id, HostMatch>) {
    && ms.Keys == p.reqs.Keys
    && (forall h :: h in ms ==> MayUse(p, ms[h].target) && MachineFits(p, h, ms[h].target))
    && (forall g, h :: g in ms && h in ms && ms[g].target == ms[h].target ==> g == h)
  }

  ghost predicate HostIfsLegal(p: Problem, h: Id, x: HostMatch) {
    && x.ifs.Keys == (if p.virtual then {} else ReqIfs(p, h).Keys)
    && (forall i :: i in x.ifs ==> IfParamsFit(p, h, i, x.target, x.ifs[i]))
    && (forall i, j :: i in x.ifs && j in x.ifs && x.ifs[i] == x.ifs[j] ==> i == j)
  }

  /** Label `l` is the label of some matched interface. */
  ghost predicate LabelUsed(p: Problem, ms: map<Id, HostMatch>, l: string) {
    exists h, i :: h in ms && i in ms[h].ifs && Label(p, h, i) == l
  }

  /** The networks are an injective function on exactly the used labels, and every interface is on its label's network. */
  ghost predicate NetworksLegal(p: Problem, m: Match) {
    && (forall l :: l in m.networks ==> LabelUsed(p, m.machines, l))
    && (forall h, i :: h in m.machines && i in m.machines[h].ifs ==>
          && Label(p, h, i) in m.networks
          && m.networks[Label(p, h, i)] == NetworkOf(p, m.machines[h].target, m.machines[h].ifs[i]))
    && (forall l, k :: l in m.networks && k in m.networks && m.networks[l] == m.networks[k] ==> l == k)
  }

  ghost predicate Legal(p: Problem, m: Match) {
    && HostsLegal(p, m.machines)
    && (forall h :: h in m.machines ==> HostIfsLegal(p, h, m.machines[h]))
    && NetworksLegal(p, m)
  }

  lemma NetworkDetermined(p: Problem, a: Match, b: Match, l: string)
    requires NetworksLegal(p, a) && NetworksLegal(p, b) && a.machines == b.machines && l in a.networks
    ensures l in b.networks && a.networks[l] == b.networks[l]
  {
    assert LabelUsed(p, a.machines, l);
    var h, i :| h in a.machines && i in a.machines[h].ifs && Label(p, h, i) == l;
  }

  /** A legal match is determined by what it says about the machines. */
  lemma LegalNetworksUnique(p: Problem, a: Match, b: Match)
    requires NetworksLegal(p, a) && NetworksLegal(p, b) && a.machines == b.machines
    ensures a == b
  {
    forall l: string
      ensures l in a.networks <==> l in b.networks
      ensures l in a.networks ==> a.networks[l] == b.networks[l]
    {
      if l in a.networks { NetworkDetermined(p, a, b, l); }
      if l in b.networks { NetworkDetermined(p, b, a, l); }
    }
    assert a.networks == b.networks;
  }

  /** A required parameter without a value is as good as none. */
  lemma EmptyParamsDoNotMatter(required: Params, offered: Params, k: string)
    ensures ParamsFit(required[k := ""], offered) <==> ParamsFit(required - {k}, offered)
  {
    var with, without := required[k := ""], required - {k};
    assert forall j :: j in without ==> j in with && with[j] == without[j];
    assert forall j :: j in with && j != k ==> j in without && without[j] == with[j];
  }

  /** In virtual matching every host gets a machine with a libvirt domain, and no interface is mapped and no network used. */
  lemma VirtualMatches(p: Problem, m: Match)
    requires p.virtual && Legal(p, m)
    ensures forall h :: h in m.machines ==>
              m.machines[h].target in p.pool && "libvirt_domain" in p.pool[m.machines[h].target].params && m.machines[h].ifs == map[]
    ensures m.networks == map[]
  {
    forall h | h in m.machines ensures m.machines[h].ifs == map[] {
      assert HostIfsLegal(p, h, m.machines[h]);
    }
    assert forall l :: !LabelUsed(p, m.machines, l);
  }
}
