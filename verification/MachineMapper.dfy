/** The resumable two-level backtracking search of lnst/Controller/MachineMapper.py. */
module MachineMapper {
  import opened Sequences
  import opened SortedKeys
  import opened MatchModel
  import opened SearchState
  import opened SearchMoves
  import opened SearchTermination
  import opened SearchResult
  import opened SearchOrder
  import opened RecursiveSearch
  import opened SearchResume
  import opened SearchProgress
  import opened MatchPools
  import opened MatchOrder
  import opened MatchSequence
  import opened BareHosts

  /** How a drained `matches` call ends: at the end of the search, or with an exception. */
  datatype Outcome = Finished | MapperError | IndexError

  class Mapper {
    var pools: map<string, Pool>
    var poolNames: seq<string>          // the keys of `pools`, in insertion order
    var poolStack: seq<string>
    var pool: Pool
    var poolName: string
    var mreqs: map<Id, Machine>
    var unmatchedReqMachines: seq<Id>
    var unmatchedPoolMachines: seq<Id>
    var machineStack: seq<Frame>
    var netLabelMapping: NetMap
    var virtualMatching: bool

    ghost var searched: map<string, Pool>    // the pools of this search

    // The search gets no further than the first host without interfaces.
    ghost var reqs: map<Id, Machine>    // the requirements of the hosts up to there
    ghost var reached: seq<Id>          // the unmatched ones of them
    ghost var beyond: seq<Id>           // the hosts behind, which stay unmatched

    ghost function Task(): Problem
      reads `reqs, `pool, `virtualMatching
    {
      Problem(reqs, pool, virtualMatching)
    }

    ghost function Search(): State
      reads `machineStack, `reached, `unmatchedPoolMachines, `netLabelMapping
    {
      State(machineStack, reached, unmatchedPoolMachines, netLabelMapping)
    }

    /** The pools are a dictionary with an order on its keys. */
    ghost predicate Configured()
      reads `poolNames, `pools
    {
      NoDup(poolNames) && Elems(poolNames) == pools.Keys
    }

    /** What a search goes through: without any pools, the pool that the search before ended with, at first an empty one. */
    ghost function Pools(): map<string, Pool>
      reads `poolNames, `pools, `poolName, `pool
    {
      if poolNames == [] then map[poolName := pool] else pools
    }

    ghost function Names(): seq<string>
      reads `poolNames, `poolName
    {
      if poolNames == [] then [poolName] else poolNames
    }

    /** The ghost fields are about the real ones. */
    ghost predicate Split()
      reads `unmatchedReqMachines, `beyond, `reached, `mreqs, `reqs
    {
      unmatchedReqMachines == beyond + reached && forall h :: h in reqs ==> h in mreqs && mreqs[h] == reqs[h]
    }

    ghost predicate Within()
      reads `mreqs, `reqs, `beyond, `virtualMatching
    {
      reqs == Short(mreqs, virtualMatching) && beyond == SortedDesc(Beyond(mreqs, virtualMatching))
    }

    /** The pools not yet taken. */
    ghost predicate PoolsLeft()
      reads `poolStack, `searched, `poolNames, `pools, `poolName, `pool
    {
      && NoDup(poolStack) && Elems(poolStack) <= searched.Keys
      && searched == Pools() && (poolNames == [] ==> poolStack == [])
      && poolStack <= Names()
    }

    /** The pool under search is the one behind those in the list. */
    ghost predicate Placed()
      reads `poolStack, `poolNames, `poolName
    {
      poolStack + [poolName] <= Names()
    }

    ghost predicate PoolsInv()
      reads `poolStack, `searched, `poolNames, `pools, `machineStack, `reqs, `poolName, `pool
    {
      && PoolsLeft() && poolName in searched && searched[poolName] == pool && Placed()
      && (machineStack != [] ==> reqs != map[] && poolName !in poolStack)
    }

    ghost predicate Valid()
      reads this
    {
      Configured() && PoolsInv() && Inv(Task(), Search()) && Split() && Within() && InOrder(Task(), Search()) && Sorted(Task(), machineStack)
    }

    /** The search can go on: it has not come across a host without interfaces. */
    ghost predicate Ready()
      reads this
    {
      Valid() && NoneBare(Task(), machineStack)
    }

    ghost predicate Pending()
      reads `reqs, `pool, `virtualMatching, `machineStack
    {
      PendingOf(Task(), machineStack)
    }

    ghost function Left(pend: bool): iset<Mapping>
      reads `reqs, `pool, `virtualMatching, `searched, `poolStack, `poolName, `machineStack
    {
      LeftOf(Task(), searched, poolStack, poolName, machineStack, pend)
    }

    /** The mappings still to be reported, in order. */
    ghost function Ahead(pend: bool): seq<Mapping>
      reads `reqs, `pool, `virtualMatching, `searched, `poolStack, `poolName, `machineStack, `reached, `unmatchedPoolMachines, `netLabelMapping
    {
      AheadOf(Task(), searched, poolStack, poolName, Search(), pend)
    }

    ghost function WorkLeft(pend: bool): nat
      reads `reqs, `pool, `virtualMatching, `machineStack
    {
      Work(BoundsOf(Task()), machineStack, pend)
    }

    constructor ()
      ensures !virtualMatching && pools == map[] && poolNames == [] && mreqs == map[] && pool == map[]
      ensures Configured() && Pools() == map[poolName := map[]] && Names() == [poolName]
    {
      pools, poolNames, poolStack, pool, poolName := map[], [], [], map[], "";
      mreqs, unmatchedReqMachines, unmatchedPoolMachines := map[], [], [];
      machineStack, netLabelMapping, virtualMatching := [], map[], false;
      reqs, reached, beyond, searched := map[], [], [], map[];
    }

    method SetRequirements(mreqs: map<Id, Machine>)
      modifies `mreqs
      ensures this.mreqs == mreqs
    {
      this.mreqs := mreqs;
    }

    method SetPools(pools: map<string, Pool>, poolNames: seq<string>)
      requires NoDup(poolNames) && Elems(poolNames) == pools.Keys
      modifies `pools, `poolNames
      ensures Configured() && this.pools == pools && this.poolNames == poolNames
    {
      this.pools, this.poolNames := pools, poolNames;
    }

    // ---- Compatibility checks ----

    static method CheckParams(required: Params, offered: Params) returns (ok: bool)
      ensures ok <==> ParamsFit(required, offered)
    {
      var keys := required.Keys;
      while keys != {}
        invariant keys <= required.Keys
        invariant forall k :: k in required && k !in keys ==> required[k] == "" || (k in offered && offered[k] == required[k])
        decreases keys
      {
        var k :| k in keys;
        keys := keys - {k};
        if |required[k]| == 0 { continue; }
        if k !in offered || required[k] != offered[k] { return false; }
      }
      return true;
    }

    method CheckMachineCompatibility(reqId: Id, poolId: Id) returns (ok: bool)
      requires Split() && reqId in reqs && poolId in pool
      ensures ok <==> MachineFits(Task(), reqId, poolId)
    {
      ok := CheckParams(mreqs[reqId].params, pool[poolId].params);
    }

    method CheckInterfaceCompatibility(reqIf: Interface, poolIf: Interface) returns (ok: bool)
      ensures ok <==> NetFits(netLabelMapping, reqIf.network, poolIf.network) && ParamsFit(reqIf.params, poolIf.params)
    {
      var labels := netLabelMapping.Keys;
      while labels != {}
        invariant labels <= netLabelMapping.Keys
        invariant forall l :: l in netLabelMapping && l !in labels ==>
          (netLabelMapping[l].network == poolIf.network <==> l == reqIf.network)
        decreases labels
      {
        var l :| l in labels;
        labels := labels - {l};
        if l == reqIf.network && netLabelMapping[l].network != poolIf.network { return false; }
        if netLabelMapping[l].network == poolIf.network && l != reqIf.network { return false; }
      }
      ok := CheckParams(reqIf.params, poolIf.params);
    }

    // ---- Stack operations ----

    method PushMachineStack()
      requires Split() && reached != [] && Last(reached) in reqs
      modifies `machineStack, `unmatchedReqMachines, `reached
      ensures Split() && Search() == PushMachine(Task(), old(Search()))
    {
      assert Last(unmatchedReqMachines) == Last(reached) && Init(unmatchedReqMachines) == beyond + Init(reached);
      reached := Init(reached);
      var id := Last(unmatchedReqMachines);
      unmatchedReqMachines := Init(unmatchedReqMachines);
      var frame := Frame(id, None, unmatchedPoolMachines, [], SortedDesc(mreqs[id].interfaces.Keys), [], false);
      machineStack := machineStack + [frame];
    }

    method PopMachineStack()
      requires Split() && machineStack != []
      modifies `machineStack, `unmatchedReqMachines, `reached
      ensures Split() && Search() == PopMachine(old(Search()))
    {
      assert beyond + (reached + [Last(machineStack).id]) == unmatchedReqMachines + [Last(machineStack).id];
      reached := reached + [Last(machineStack).id];
      unmatchedReqMachines := unmatchedReqMachines + [Last(machineStack).id];
      machineStack := Init(machineStack);
    }

    method PushIfStack()
      requires machineStack != [] && Last(machineStack).unmatchedIfs != []
      modifies `machineStack
      ensures Search() == PushIf(old(Search()))
    {
      var top := Last(machineStack);
      var ifMatch := IfFrame(Last(top.unmatchedIfs), None, top.unmatchedPoolIfs);
      top := top.(unmatchedIfs := Init(top.unmatchedIfs), ifStack := top.ifStack + [ifMatch]);
      machineStack := SetLast(machineStack, top);
    }

    method PopIfStack()
      requires machineStack != [] && Last(machineStack).ifStack != []
      modifies `machineStack
      ensures Search() == PopIf(old(Search()))
    {
      var top := Last(machineStack);
      top := top.(unmatchedIfs := top.unmatchedIfs + [Last(top.ifStack).ifId], ifStack := Init(top.ifStack));
      machineStack := SetLast(machineStack, top);
    }

    // ---- Interface matching ----

    /** Withdraws the current match of the top interface. */
    method UnmapInterface()
      requires machineStack != [] && Last(machineStack).ifStack != [] && Last(machineStack).cur.Some?
      requires Split() && Last(machineStack).id in reqs && Last(Last(machineStack).ifStack).ifId in reqs[Last(machineStack).id].interfaces
      requires Last(machineStack).cur.value in pool
      requires var c := Last(Last(machineStack).ifStack).cur; c.Some? ==> c.value in pool[Last(machineStack).cur.value].interfaces
      modifies `machineStack, `netLabelMapping
      ensures Search() == UnmapIf(Task(), old(Search()))
    {
      var top := Last(machineStack);
      var ifTop := Last(top.ifStack);
      if ifTop.cur.Some? {
        var lab := mreqs[top.id].interfaces[ifTop.ifId].network;
        var network := pool[top.cur.value].interfaces[ifTop.cur.value].network;
        if lab in netLabelMapping && netLabelMapping[lab] == NetEntry(network, top.id, ifTop.ifId) {
          netLabelMapping := netLabelMapping - {lab};
        }
        top := top.(unmatchedPoolIfs := top.unmatchedPoolIfs + [ifTop.cur.value],
                    ifStack := SetLast(top.ifStack, ifTop.(cur := None)));
        machineStack := SetLast(machineStack, top);
      }
    }

    method DropInterface()
      requires machineStack != [] && Last(machineStack).ifStack != [] && Last(Last(machineStack).ifStack).remaining != []
      modifies `machineStack
      ensures Search() == DropIf(old(Search()))
    {
      var top := Last(machineStack);
      var ifTop := Last(top.ifStack);
      ifTop := ifTop.(remaining := Init(ifTop.remaining));
      machineStack := SetLast(machineStack, top.(ifStack := SetLast(top.ifStack, ifTop)));
    }

    method TakeInterface(reqIf: Interface, poolIf: Interface)
      requires machineStack != [] && Last(machineStack).ifStack != [] && Last(Last(machineStack).ifStack).remaining != []
      requires var f := Last(machineStack); var g := Last(f.ifStack);
               && f.cur.Some?
               && reqIf.network == Label(Task(), f.id, g.ifId)
               && poolIf.network == NetworkOf(Task(), f.cur.value, Last(g.remaining))
      modifies `machineStack, `netLabelMapping
      ensures Search() == TakeIf(Task(), old(Search()))
    {
      var top := Last(machineStack);
      var ifTop := Last(top.ifStack);
      var v := Last(ifTop.remaining);
      netLabelMapping := Claim(netLabelMapping, reqIf.network, NetEntry(poolIf.network, top.id, ifTop.ifId));
      top := top.(unmatchedPoolIfs := Remove(top.unmatchedPoolIfs, v),
                  ifStack := SetLast(top.ifStack, ifTop.(cur := Some(v), remaining := Init(ifTop.remaining))));
      machineStack := SetLast(machineStack, top);
    }

    /** Tries the next candidate of the top interface. */
    method TryInterface() returns (taken: bool)
      requires Split() && Inv(Task(), Search()) && machineStack != [] && Last(machineStack).ifStack != []
      requires Last(Last(machineStack).ifStack).cur.None? && Last(Last(machineStack).ifStack).remaining != []
      modifies `machineStack, `netLabelMapping
      ensures Search() == if taken then TakeIf(Task(), old(Search())) else DropIf(old(Search()))
      ensures taken <==> old(var f := Last(machineStack); var g := Last(f.ifStack);
                IfFits(Task(), f.id, f.cur.value, netLabelMapping, g.ifId, Last(g.remaining)))
    {
      TopIfFacts(Task(), Search());
      var top := Last(machineStack);
      var ifTop := Last(top.ifStack);
      var reqIf := mreqs[top.id].interfaces[ifTop.ifId];
      var poolIf := pool[top.cur.value].interfaces[Last(ifTop.remaining)];
      taken := CheckInterfaceCompatibility(reqIf, poolIf);
      if taken {
        TakeInterface(reqIf, poolIf);
      } else {
        DropInterface();
      }
    }

    /** Takes the next compatible candidate of the top interface, if there is one. */
    method MapNextInterface() returns (mapped: bool)
      requires Split() && Inv(Task(), Search()) && machineStack != [] && Last(machineStack).ifStack != []
      requires Last(Last(machineStack).ifStack).cur.None?
      modifies `machineStack, `netLabelMapping
      ensures IfProgress(Task(), old(Search()), false, Search(), mapped)
      ensures Last(machineStack).ifStack != []
      ensures mapped ==> IfsMapped(Last(machineStack).ifStack) && WorkLeft(true) < old(WorkLeft(false))
      ensures !mapped ==> Last(Last(machineStack).ifStack).cur.None? && Last(Last(machineStack).ifStack).remaining == []
    {
      hide Inv, Same, Split, Work, BoundsOf;
      ghost var p, s0 := Task(), Search();
      IfProgressStarts(p, s0, false);
      while |Last(Last(machineStack).ifStack).remaining| > 0
        invariant Task() == p && IfProgress(p, s0, false, Search(), false)
        invariant Last(machineStack).ifStack != [] && Last(Last(machineStack).ifStack).cur.None?
        decreases |Last(Last(machineStack).ifStack).remaining|
      {
        ghost var s := Search();
        TopIfFacts(p, s);
        mapped := TryInterface();
        if mapped {
          TakeIfProgress(p, s0, s);
          return;
        }
        DropIfProgress(p, s0, s);
      }
      return false;
    }

    /** Withdraws the top interface's match and maps it to its next compatible candidate. */
    method RemapTopInterface() returns (mapped: bool)
      requires Split() && Inv(Task(), Search()) && machineStack != [] && Last(machineStack).ifStack != []
      modifies `machineStack, `netLabelMapping
      ensures IfProgress(Task(), old(Search()), false, Search(), mapped)
      ensures Last(machineStack).ifStack != []
      ensures mapped ==> IfsMapped(Last(machineStack).ifStack) && WorkLeft(true) < old(WorkLeft(false))
      ensures !mapped ==> Last(Last(machineStack).ifStack).cur.None? && Last(Last(machineStack).ifStack).remaining == []
    {
      hide Inv, Same, IfFrameInv, Split, Work, BoundsOf;
      ghost var p, s0 := Task(), Search();
      TopIfFacts(p, s0);
      UnmapIfProgress(p, s0);
      UnmapInterface();
      ghost var s1 := Search();
      mapped := MapNextInterface();
      IfProgressChains(p, s0, false, s1, false, Search(), mapped);
    }

    /** One round of the interface loop: re-maps the top interface, then descends or gives up on it. */
    method MatchTopInterface() returns (done: bool)
      requires Split() && Inv(Task(), Search()) && machineStack != [] && Last(machineStack).ifStack != []
      modifies `machineStack, `netLabelMapping
      ensures IfProgress(Task(), old(Search()), false, Search(), done)
      ensures WorkLeft(done) < old(WorkLeft(false))
      ensures done ==> FrameDone(Task(), Last(machineStack))
    {
      hide Inv, Same;
      ghost var p, s0 := Task(), Search();
      var mapped := RemapTopInterface();
      ghost var s1 := Search();
      TopIfFacts(p, s1);
      if mapped {
        if |Last(machineStack).unmatchedIfs| == 0 {
          LastIfDone(p, s1);
          return true;
        }
        PushIfProgress(p, s1);
        PushIfStack();
      } else {
        PopIfProgress(p, s1);
        PopIfStack();
      }
      IfProgressChains(p, s0, false, s1, mapped, Search(), false);
      return false;
    }

    method MatchInterfaces() returns (matched: bool)
      requires Split() && Inv(Task(), Search()) && machineStack != []
      modifies `machineStack, `netLabelMapping
      ensures IfProgress(Task(), old(Search()), false, Search(), matched)
      ensures matched ==> FrameDone(Task(), Last(machineStack))
      ensures !matched ==> Last(machineStack).ifStack == []
    {
      hide Inv, Same;
      ghost var p, s0 := Task(), Search();
      IfProgressStarts(p, s0, false);
      while |Last(machineStack).ifStack| > 0
        invariant Task() == p && IfProgress(p, s0, false, Search(), false)
        decreases WorkLeft(false)
      {
        ghost var s := Search();
        matched := MatchTopInterface();
        IfProgressChains(p, s0, false, s, false, Search(), matched);
        if matched { return; }
      }
      return false;
    }

    /** Maps the interfaces of the top host, resuming from wherever its interface stack stands. */
    method IfMatch() returns (matched: bool)
      requires Split() && Inv(Task(), Search()) && machineStack != []
      requires virtualMatching && Last(machineStack).cur.Some? ==> !Last(machineStack).virtMatched
      modifies `machineStack, `netLabelMapping
      ensures TopProgress(Task(), old(Search()), old(Pending()), Search(), matched)
      ensures matched ==> FrameDone(Task(), Last(machineStack))
      ensures !matched ==> Last(machineStack).ifStack == []
      ensures !matched && virtualMatching ==> Last(machineStack).cur.None? && Last(machineStack) == old(Last(machineStack))
      ensures Last(machineStack).cur == old(Last(machineStack).cur)
    {
      ghost var p, s0 := Task(), Search();
      if !virtualMatching {
        matched := MatchInterfaces();
        IfProgressIsTopProgress(p, s0, false, Search(), matched);
      } else if Last(machineStack).cur.Some? {
        machineStack := SetLast(machineStack, Last(machineStack).(virtMatched := true));
        MarkVirtualProgress(p, s0);
        matched := true;
      } else {
        matched := false;
      }
    }

    // ---- Machine matching ----

    /** Returns the current pool machine of the top host to the unmatched ones. */
    method UnmapTopMachine()
      requires machineStack != []
      modifies `machineStack, `unmatchedPoolMachines
      ensures Search() == UnmapMachine(old(Search()))
    {
      var top := Last(machineStack);
      if top.cur.Some? {
        unmatchedPoolMachines := unmatchedPoolMachines + [top.cur.value];
        machineStack := SetLast(machineStack, top.(cur := None, virtMatched := false));
      }
    }

    /** Tries the next candidate of the top host. */
    method TryMachine() returns (taken: bool)
      requires machineStack != [] && Last(machineStack).remaining != []
      requires Split() && Last(machineStack).id in reqs && Last(Last(machineStack).remaining) in pool
      modifies `machineStack, `unmatchedPoolMachines
      ensures taken <==> old(MachineFits(Task(), Last(machineStack).id, Last(Last(machineStack).remaining)))
      ensures Search() == if taken then TakeMachine(Task(), old(Search())) else DropMachine(old(Search()))
    {
      var top := Last(machineStack);
      var t := Last(top.remaining);
      top := top.(remaining := Init(top.remaining));
      taken := CheckMachineCompatibility(top.id, t);
      if taken {
        top := top.(cur := Some(t), ifStack := [], unmatchedPoolIfs := SortedDesc(pool[t].interfaces.Keys));
        unmatchedPoolMachines := Remove(unmatchedPoolMachines, t);
      }
      machineStack := SetLast(machineStack, top);
    }

    /** The same, with what it means for the search. */
    method TryNextMachine() returns (taken: bool)
      requires Split() && Inv(Task(), Search()) && machineStack != [] && Last(machineStack).ifStack == []
      requires Last(machineStack).cur.None? && Last(machineStack).remaining != []
      modifies `machineStack, `unmatchedPoolMachines
      ensures TopProgress(Task(), old(Search()), false, Search(), taken)
      ensures Last(machineStack).ifStack == [] && Last(machineStack).virtMatched == old(Last(machineStack).virtMatched)
      ensures taken ==> Descending(Last(machineStack).unmatchedPoolIfs)
      ensures if taken then Last(machineStack).cur.Some? && WorkLeft(true) < old(WorkLeft(false))
              else Last(machineStack).cur.None? && |Last(machineStack).remaining| < old(|Last(machineStack).remaining|)
    {
      hide Inv, Same;
      ghost var p, s := Task(), Search();
      TopFacts(p, s);
      taken := TryMachine();
      if taken {
        TakeMachineProgress(p, s);
        SortedDescIsSorted(PoolIfs(p, Last(machineStack).cur.value).Keys);
      } else {
        DropMachineProgress(p, s);
      }
    }

    /** Unmaps the top host and takes its next compatible candidate, if there is one. */
    method MapNextMachine() returns (mapped: bool)
      requires Split() && Inv(Task(), Search()) && machineStack != [] && Last(machineStack).ifStack == []
      requires virtualMatching ==> Last(machineStack).cur.None? && !Last(machineStack).virtMatched
      modifies `machineStack, `unmatchedPoolMachines
      ensures TopProgress(Task(), old(Search()), false, Search(), mapped)
      ensures mapped ==> Last(machineStack).cur.Some? && Last(machineStack).ifStack == []
      ensures mapped ==> Descending(Last(machineStack).unmatchedPoolIfs)
      ensures mapped ==> WorkLeft(true) < old(WorkLeft(false))
      ensures virtualMatching ==> !Last(machineStack).virtMatched
      ensures !mapped ==> Last(machineStack).cur.None? && Last(machineStack).remaining == []
    {
      hide Inv, Same, Split, Work, BoundsOf;
      ghost var p, s0 := Task(), Search();
      UnmapMachineProgress(p, s0);
      UnmapTopMachine();
      while |Last(machineStack).remaining| > 0
        invariant Task() == p && TopProgress(p, s0, false, Search(), false)
        invariant Last(machineStack).cur.None? && Last(machineStack).ifStack == []
        invariant virtualMatching ==> !Last(machineStack).virtMatched
        decreases |Last(machineStack).remaining|
      {
        ghost var s := Search();
        mapped := TryNextMachine();
        TopProgressChains(p, s0, false, s, false, Search(), mapped);
        if mapped { return; }
      }
      return false;
    }

    /**
      Gives the top host its next machine and starts on its interfaces, or takes the host off the stack.
      Taking the first interface of a host that has none is an `IndexError`.
     */
    method AdvanceMachine() returns (broken: bool)
      requires Split() && Inv(Task(), Search()) && InOrder(Task(), Search()) && NoneBare(Task(), machineStack)
      requires machineStack != [] && Last(machineStack).ifStack == []
      requires virtualMatching ==> Last(machineStack).cur.None? && !Last(machineStack).virtMatched
      modifies `machineStack, `unmatchedPoolMachines, `unmatchedReqMachines, `reached
      ensures Split() && InOrder(Task(), Search())
      ensures !broken ==> NoneBare(Task(), machineStack) && Advances(Task(), old(Search()), false, Search(), Pending())
      ensures broken ==> TopProgress(Task(), old(Search()), false, Search(), true) && FrameDone(Task(), Last(machineStack))
      ensures broken ==> !virtualMatching && Last(machineStack).id in reqs && ReqIfs(Task(), Last(machineStack).id) == map[]
    {
      hide Inv, Same, InOrder, NoneBare, Split, TopProgress, Advances;
      ghost var p, s0 := Task(), Search();
      var mapped := MapNextMachine();
      ghost var s1 := Search();
      MappedInOrder(p, s0, s1, mapped);
      broken := mapped && !virtualMatching && |Last(machineStack).unmatchedIfs| == 0;
      if broken { return; }
      if mapped && virtualMatching {
        StaysPending(p, s0, s1);
      } else if mapped {
        PushIfGoesOn(p, s0, s1);
        PushIfStack();
      } else {
        PopMachineGoesOn(p, s0, s1);
        PopMachineStack();
      }
    }

    /** A host that virtual matching reported before gives its machine back. */
    method ReleaseVirtual()
      requires Split() && Inv(Task(), Search()) && machineStack != []
      modifies `machineStack, `unmatchedPoolMachines
      ensures TopProgress(Task(), old(Search()), old(Pending()), Search(), Pending())
      ensures if virtualMatching then !Last(machineStack).virtMatched else machineStack == old(machineStack)
    {
      ghost var p, s0 := Task(), Search();
      if virtualMatching && Last(machineStack).virtMatched {
        assert Last(machineStack).cur.Some? && Last(machineStack).ifStack == [] by {
          assert FrameInv(p, Init(machineStack), Last(machineStack));
        }
        UnmapMachineProgress(p, s0);
        UnmapTopMachine();
      }
    }

    /** Brings the top host up to date and matches its interfaces. */
    method MatchTop() returns (matched: bool)
      requires Split() && Inv(Task(), Search()) && machineStack != []
      modifies `machineStack, `unmatchedPoolMachines, `netLabelMapping
      ensures TopProgress(Task(), old(Search()), old(Pending()), Search(), matched)
      ensures matched ==> FrameDone(Task(), Last(machineStack))
      ensures !matched ==> Last(machineStack).ifStack == []
      ensures !matched && virtualMatching ==> Last(machineStack).cur.None? && !Last(machineStack).virtMatched
      ensures !virtualMatching ==> Last(machineStack).cur == old(Last(machineStack).cur)
    {
      hide Inv, Same;
      ghost var p, s0, pend0 := Task(), Search(), Pending();
      ReleaseVirtual();
      ghost var s1, pend1 := Search(), Pending();
      matched := IfMatch();
      TopProgressChains(p, s0, pend0, s1, pend1, Search(), matched);
    }

    /** One round of the machine loop within a pool: goes on, completes a match, or breaks off with an `IndexError`. */
    method MatchRound() returns (done: bool, broken: bool)
      requires Split() && Within() && Inv(Task(), Search()) && InOrder(Task(), Search()) && NoneBare(Task(), machineStack)
      requires machineStack != []
      modifies `machineStack, `unmatchedPoolMachines, `unmatchedReqMachines, `netLabelMapping, `reached
      ensures Split() && InOrder(Task(), Search()) && !(done && broken)
      ensures !broken ==> NoneBare(Task(), machineStack)
      ensures !done && !broken ==> Advances(Task(), old(Search()), old(Pending()), Search(), Pending())
      ensures done || broken ==> TopProgress(Task(), old(Search()), old(Pending()), Search(), true)
      ensures done || broken ==> Complete(Task(), Search()) && !Pending()
      ensures done ==> !HasBare(mreqs, virtualMatching)
      ensures broken ==> HasBare(mreqs, virtualMatching)
    {
      hide Inv, Same, InOrder, NoneBare, HasBare, WorkOf, Short, Split;
      ghost var p, s0, pend0 := Task(), Search(), Pending();
      done, broken := false, false;
      var matched := MatchTop();
      ghost var s1 := Search();
      TopProgressInOrder(p, s0, pend0, s1, matched);
      NoneBareMatched(p, s0.stack, s1.stack);
      if matched {
        TopDone(p, s1);
        if reached == [] {
          AllMatchedNoneBare(mreqs, p, s1);
          NoneBeyond();
        }
        assert |unmatchedReqMachines| == 0 ==> reached == [] by { SplitEmpty(); }
        if |unmatchedReqMachines| == 0 { return true, false; }
        LastUnmatchedRequired(p, s1);
        PushMachineAdvances(p, s0, pend0, s1);
        PushMachineInOrder(p, s1);
        PushMachineStack();
        NoneBarePush(p, s1);
      } else {
        broken := AdvanceMachine();
        if broken {
          TopDone(p, Search());
          BareIsLast(mreqs, p, Search());
          TopProgressChains(p, s0, pend0, s1, false, Search(), true);
        } else {
          ProgressThenAdvance(p, s0, pend0, s1, false, Search(), Pending());
        }
      }
    }

    // ---- Pools ----

    /** The unmatched machines of the pool just taken, in virtual matching only those with a libvirt domain. */
    method ListPoolMachines()
      modifies `unmatchedPoolMachines
      ensures unmatchedPoolMachines == EligibleMachines(Task())
    {
      var ids := SortedDesc(pool.Keys);
      assert forall t :: t in ids ==> t in pool by {
        SortedDescIsPermutation(pool.Keys);
        assert forall t :: t in ids ==> t in Elems(ids);
      }
      unmatchedPoolMachines := [];
      for i := 0 to |ids|
        invariant unmatchedPoolMachines == EligibleOf(Task(), ids[..i])
      {
        assert Init(ids[..i + 1]) == ids[..i];
        if virtualMatching {
          if "libvirt_domain" in pool[ids[i]].params {
            unmatchedPoolMachines := unmatchedPoolMachines + [ids[i]];
          }
        } else {
          unmatchedPoolMachines := unmatchedPoolMachines + [ids[i]];
        }
      }
      assert ids[..|ids|] == ids;
    }

    /** No host is matched: the state between two pools. */
    ghost predicate BetweenPools()
      reads this
    {
      machineStack == [] && netLabelMapping == map[] && reached == SortedDesc(reqs.Keys) && Split() && Within()
    }

    /** Lists the pool's machines and pushes the first host, unless the pool or the requirements are empty. */
    method PushFirstMachine()
      requires BetweenPools()
      modifies `machineStack, `unmatchedPoolMachines, `unmatchedReqMachines, `reached
      ensures Split() && Inv(Task(), Search()) && InOrder(Task(), Search()) && NoneBare(Task(), machineStack) && !Pending()
      ensures machineStack == [] <==> pool == map[] || reqs == map[]
      ensures machineStack != [] ==> Same(Task(), [], true, machineStack, false)
      ensures Sorted(Task(), machineStack)
      ensures machineStack != [] ==>
                Coming(Task(), Search(), false) == Hosts(Place(Task(), map[], map[], SortedDesc(reqs.Keys)), EligibleMachines(Task())).found
    {
      hide Inv, Same, InOrder, NoneBare, Within, Split, EligibleMachines, SortedDesc, PendingOf, PushMachine, Coming, Hosts, Sorted;
      ListPoolMachines();
      ghost var s0 := Search();
      FreshPool(Task(), s0);
      ReqsEmptyIff();
      if |pool| > 0 && |mreqs| > 0 {
        PushMachineStack();
      }
    }

    lemma NoneBeyond()
      requires Split() && Within() && !HasBare(mreqs, virtualMatching)
      ensures unmatchedReqMachines == reached
    {
      NothingBare(mreqs, virtualMatching);
    }

    lemma SplitEmpty()
      requires Split()
      ensures unmatchedReqMachines == [] ==> reached == []
    {
    }

    lemma ReqsEmptyIff()
      requires Within()
      ensures reqs == map[] <==> mreqs == map[]
    {
      ShortEmptyIff(mreqs, virtualMatching);
    }

    method TakePool()
      requires PoolsLeft() && poolStack != []
      modifies `poolStack, `poolName, `pool
      ensures PoolsLeft() && Taken(searched, old(poolStack), poolStack, poolName, pool) && poolName !in poolStack
      ensures Placed()
    {
      NoDupInit(poolStack);
      assert Last(poolStack) in Elems(poolStack);
      poolName := Last(poolStack);
      poolStack := Init(poolStack);
      pool := pools[poolName];
    }

    /** Starts on the pool that was the last of `names`. */
    method StartPool(ghost names: seq<string>)
      requires Configured() && BetweenPools() && PoolsLeft() && names != []
      requires Taken(searched, names, poolStack, poolName, pool) && poolName !in poolStack && Placed()
      modifies `machineStack, `unmatchedPoolMachines, `unmatchedReqMachines, `reached
      ensures Ready() && !Pending()
      ensures Left(false) == LeftInPools(reqs, searched, names, virtualMatching)
      ensures Ahead(false) == AllMappings(reqs, searched, names, virtualMatching)
    {
      hide Inv, InOrder, NoneBare, Within, LeftOf, LeftInPools, Split, AheadOf, AllMappings, Coming, Hosts, Sorted;
      PushFirstMachine();
      StartLeft(Task(), searched, names, poolStack, poolName, machineStack);
      StartAhead(Task(), searched, names, poolStack, poolName, Search());
    }

    /** A pool is used up: switches to the next one, if there is one. */
    method SwitchPool()
      requires Ready() && machineStack == []
      modifies `poolStack, `poolName, `pool, `machineStack, `unmatchedPoolMachines, `unmatchedReqMachines, `reached
      ensures Ready() && !Pending()
      ensures Left(false) == LeftInPools(reqs, searched, old(poolStack), virtualMatching)
      ensures Ahead(false) == AllMappings(reqs, searched, old(poolStack), virtualMatching)
      ensures if old(poolStack) == [] then machineStack == [] && poolStack == [] else |poolStack| < old(|poolStack|)
    {
      hide NoneBare, Within, LeftOf, LeftInPools, Split, Inv, InOrder, AheadOf, AllMappings, Sorted;
      if |poolStack| > 0 {
        UsedUpIsFresh(Task(), Search());
        UsedUpInOrder(Task(), Search());
        ghost var names := poolStack;
        TakePool();
        StartPool(names);
      } else {
        NoPoolsLeft(Task(), searched, poolName);
        UsedUpAhead(Task(), searched, poolName, Search());
      }
    }

    /** One iteration of `_match`'s loop up to the pool switch. */
    method MatchInPool() returns (done: bool, broken: bool)
      requires Ready() && machineStack != []
      modifies `machineStack, `unmatchedPoolMachines, `unmatchedReqMachines, `netLabelMapping, `reached
      ensures Valid() && !(done && broken) && (!broken ==> Ready())
      ensures machineStack == [] ==> !done && !broken && !Pending()
      ensures done || broken ==> Complete(Task(), Search()) && !Pending()
      ensures done ==> !HasBare(mreqs, virtualMatching)
      ensures broken ==> HasBare(mreqs, virtualMatching)
      ensures old(Left(Pending())) ==
              if machineStack != [] then Left(done || broken || Pending()) else LeftInPools(reqs, searched, poolStack, virtualMatching)
      ensures old(Ahead(Pending())) ==
              if machineStack != [] then Ahead(done || broken || Pending()) else AllMappings(reqs, searched, poolStack, virtualMatching)
      ensures WorkLeft(done || broken || Pending()) <= old(WorkLeft(Pending()))
      ensures !done && !broken ==> WorkLeft(Pending()) < old(WorkLeft(Pending()))
    {
      hide Inv, LeftOf, LeftInPools, InOrder, NoneBare, HasBare, Within, Split, PoolsLeft, Placed, Configured, Complete, Work, BoundsOf,
        Sorted, AheadOf, AllMappings, TopProgress, Advances, PendingOf;
      ghost var s0, pend0 := Search(), Pending();
      done, broken := MatchRound();
      RoundOutcome(Task(), searched, poolStack, poolName, s0, pend0, Search(), done || broken);
    }

    /** One iteration of `_match`'s loop. */
    method MatchStep() returns (done: bool, broken: bool)
      requires Ready() && machineStack != []
      modifies `poolStack, `poolName, `pool, `machineStack, `unmatchedPoolMachines, `unmatchedReqMachines, `netLabelMapping, `reached
      ensures Valid() && !(done && broken) && (!broken ==> Ready())
      ensures done || broken ==> machineStack != [] && Complete(Task(), Search()) && !Pending()
      ensures done ==> !HasBare(mreqs, virtualMatching)
      ensures broken ==> HasBare(mreqs, virtualMatching)
      ensures Left(done || broken || Pending()) == old(Left(Pending()))
      ensures Ahead(done || broken || Pending()) == old(Ahead(Pending()))
      ensures |poolStack| < old(|poolStack|) ||
              (|poolStack| == old(|poolStack|) && WorkLeft(done || broken || Pending()) <= old(WorkLeft(Pending())))
      ensures !done && !broken && |poolStack| == old(|poolStack|) ==> WorkLeft(Pending()) < old(WorkLeft(Pending()))
    {
      hide Inv, LeftOf, LeftInPools, StackDone, InOrder, NoneBare, HasBare, Within, Split, AheadOf, AllMappings, Sorted;
      done, broken := MatchInPool();
      if |machineStack| == 0 {
        SwitchPool();
      }
    }

    /** One `_match` call: searches on for the next complete match, through all pools that are left. */
    method MatchNext() returns (found: bool, broken: bool)
      requires Ready()
      modifies `poolStack, `poolName, `pool, `machineStack, `unmatchedPoolMachines, `unmatchedReqMachines, `netLabelMapping, `reached
      ensures Valid() && !Pending() && !(found && broken) && (!broken ==> Ready())
      ensures found || broken ==> machineStack != [] && Complete(Task(), Search())
      ensures found ==> !HasBare(mreqs, virtualMatching)
      ensures broken ==> HasBare(mreqs, virtualMatching)
      ensures !found && !broken ==> machineStack == []
      ensures Left(found || broken) == old(Left(Pending()))
      ensures Ahead(found || broken) == old(Ahead(Pending()))
      ensures |poolStack| < old(|poolStack|) || (|poolStack| == old(|poolStack|) && (found ==> WorkLeft(true) <= old(WorkLeft(Pending()))))
    {
      hide Inv, LeftOf, InOrder, NoneBare, HasBare, Within, Split, AheadOf, Sorted;
      ghost var left0, ahead0 := Left(Pending()), Ahead(Pending());
      while |machineStack| > 0
        invariant Ready()
        invariant Left(Pending()) == left0 && Ahead(Pending()) == ahead0
        invariant |poolStack| < old(|poolStack|) || (|poolStack| == old(|poolStack|) && WorkLeft(Pending()) <= old(WorkLeft(Pending())))
        decreases |poolStack|, WorkLeft(Pending())
      {
        found, broken := MatchStep();
        if found || broken { return; }
      }
      return false, false;
    }

    /** The proof's bookkeeping at the start of a search: which hosts it can get to. */
    ghost method LimitReach()
      requires unmatchedReqMachines == SortedDesc(mreqs.Keys)
      modifies `reqs, `reached, `beyond
      ensures Split() && Within() && reached == SortedDesc(reqs.Keys)
    {
      hide Short, Beyond, SortedDesc;
      HostsInOrder(mreqs, virtualMatching);
      reqs := Short(mreqs, virtualMatching);
      reached, beyond := SortedDesc(reqs.Keys), SortedDesc(Beyond(mreqs, virtualMatching));
      ShortIsPart(mreqs, pool, virtualMatching);
    }

    method ClearSearch()
      requires Configured()
      modifies `poolStack, `machineStack, `unmatchedReqMachines, `netLabelMapping, `reqs, `reached, `beyond, `searched
      ensures BetweenPools() && poolStack == poolNames && searched == Pools() && reqs == Short(mreqs, virtualMatching)
    {
      hide Short, Beyond, SortedDesc, Split;
      searched := Pools();
      netLabelMapping := map[];
      machineStack := [];
      unmatchedReqMachines := SortedDesc(mreqs.Keys);
      poolStack := poolNames;
      LimitReach();
    }

    /** Takes the last pool; without any, the pool taken before stays. */
    method TakeFirstPool()
      requires Configured() && poolStack == poolNames && searched == Pools()
      modifies `poolStack, `poolName, `pool
      ensures PoolsLeft() && Taken(searched, Names(), poolStack, poolName, pool) && poolName !in poolStack
      ensures Placed()
      ensures Pools() == old(Pools()) && Names() == old(Names())
    {
      if |poolStack| > 0 {
        TakePool();
      }
    }

    /** `reset_match_state`: forgets the previous search and takes the first pool. */
    method ResetMatchState()
      requires Configured()
      modifies `poolStack, `poolName, `pool, `machineStack, `unmatchedPoolMachines, `unmatchedReqMachines, `netLabelMapping, `reqs, `reached, `beyond, `searched
      ensures Ready() && !Pending() && reqs == Short(mreqs, virtualMatching)
      ensures Pools() == old(Pools()) && Names() == old(Names())
      ensures Left(false) == LeftInPools(reqs, Pools(), Names(), virtualMatching)
      ensures Ahead(false) == AllMappings(reqs, Pools(), Names(), virtualMatching)
    {
      hide AheadOf, AllMappings, Sorted, Inv, LeftOf, LeftInPools, NoDup, Elems, InOrder, NoneBare, Short, Split, SortedDesc, Beyond;
      ClearSearch();
      TakeFirstPool();
      StartPool(Names());
    }

    /** `get_mapping`: reads the match off the stacks and the label map. */
    method GetMapping() returns (m: Mapping)
      requires StackDone(Task(), machineStack)
      ensures m == FoundMapping(Task(), poolName, Search())
    {
      var networks := NetworksOf(netLabelMapping);
      var machines: map<Id, HostMatch> := map[];
      for i := 0 to |machineStack|
        invariant machines == MachinesOf(machineStack[..i])
      {
        assert Init(machineStack[..i + 1]) == machineStack[..i];
        StackDoneAt(Task(), machineStack, i);
        var ifs := IfTargetsOf(machineStack[i].ifStack);
        machines := machines[machineStack[i].id := HostMatch(machineStack[i].cur.value, ifs)];
      }
      assert machineStack[..|machineStack|] == machineStack;
      m := Mapping(machines, networks, virtualMatching, poolName);
    }

    static method IfTargetsOf(gs: seq<IfFrame>) returns (ifs: map<Id, Id>)
      ensures ifs == IfsOf(gs)
    {
      ifs := map[];
      for k := 0 to |gs|
        invariant ifs == IfsOf(gs[..k])
      {
        assert Init(gs[..k + 1]) == gs[..k];
        if gs[k].cur.Some? {
          ifs := ifs[gs[k].ifId := gs[k].cur.value];
        }
      }
      assert gs[..|gs|] == gs;
    }

    /** While a search goes on, its pools and their names stay the same. */
    lemma SameNames(names: seq<string>)
      requires PoolsInv() && Configured()
      requires if poolNames == [] then |names| == 1 && names[0] in searched else names == poolNames
      ensures Names() == names
    {
      if poolNames == [] {
        assert names[0] in map[poolName := pool];
      }
    }

    lemma OwnNames()
      requires PoolsInv() && Configured()
      ensures if poolNames == [] then |Names()| == 1 && Names()[0] in searched else Names() == poolNames
      ensures searched == Pools() && poolName in searched && searched[poolName] == pool
    {
    }

    lemma NothingAhead()
      requires machineStack == []
      ensures Ahead(false) == [] && forall x :: x !in Left(false)
    {
    }

    /** A complete match is one of the mappings ahead, and reporting it leaves all others ahead. */
    lemma YieldsOne()
      requires Valid() && machineStack != [] && Complete(Task(), Search())
      ensures Left(true) == Left(false) + iset{FoundMapping(Task(), poolName, Search())}
      ensures FoundMapping(Task(), poolName, Search()) !in Left(false)
      ensures forall y :: y in Left(true) ==> NoLater(reqs, Names(), FoundMapping(Task(), poolName, Search()), y)
      ensures Ahead(true) == [FoundMapping(Task(), poolName, Search())] + Ahead(false)
    {
      hide LeftOf, AheadOf, Inv, Complete, FoundMapping, InOrder, Within, Split, Sorted, NoLater;
      ReachedMembers(searched, poolStack);
      YieldLeft(Task(), searched, poolStack, poolName, Search());
      FoundIsLeft(Task(), searched, poolStack, poolName, Search());
      YieldAhead(Task(), searched, poolStack, poolName, Search());
      NoLaterThanItself(Task(), Names(), poolName, Search());
      forall y | y in Left(false) ensures NoLater(reqs, Names(), FoundMapping(Task(), poolName, Search()), y) {
        FoundNoLater(Task(), searched, Names(), poolStack, poolName, Search(), y);
      }
    }

    /** One resumption of `matches`: the next mapping, if there is one. */
    method NextMapping() returns (m: Option<Mapping>, broken: bool)
      requires Ready() && !Pending()
      modifies `poolStack, `poolName, `pool, `machineStack, `unmatchedPoolMachines, `unmatchedReqMachines, `netLabelMapping, `reached
      ensures Valid() && !Pending() && !(m.Some? && broken) && (!broken ==> Ready()) && Names() == old(Names())
      ensures broken ==> HasBare(mreqs, virtualMatching) && exists x :: x in old(Left(false))
      ensures m.Some? ==> !HasBare(mreqs, virtualMatching)
      ensures m.Some? ==> old(Left(false)) == Left(false) + iset{m.value} && m.value !in Left(false)
      ensures m.Some? ==> old(Ahead(false)) == [m.value] + Ahead(false)
      ensures m.Some? ==> forall y :: y in old(Left(false)) ==> NoLater(reqs, Names(), m.value, y)
      ensures m.Some? ==> |poolStack| < old(|poolStack|) || (|poolStack| == old(|poolStack|) && WorkLeft(false) < old(WorkLeft(false)))
      ensures m.None? && !broken ==> old(Left(false)) == iset{} && old(Ahead(false)) == []
    {
      hide AheadOf, PoolsInv, Pools, InOrder, NoneBare, HasBare, Within, Split, LeftOf, Inv, FoundMapping, Work, Sorted, NoLater;
      OwnNames();
      var ok;
      ok, broken := MatchNext();
      SameNames(old(Names()));
      if !ok && !broken {
        NothingAhead();
        return None, false;
      }
      YieldsOne();
      if broken {
        assert FoundMapping(Task(), poolName, Search()) in Left(true);
        return None, true;
      }
      PendingWork(BoundsOf(Task()), machineStack);
      var found := GetMapping();
      m := Some(found);
    }

    /** Runs `_match` to the end, to the first match or to an `IndexError`: one of the two loops of `matches`. */
    method Drain(multimatch: bool) returns (found: seq<Mapping>, broken: bool)
      requires Ready() && !Pending()
      modifies `poolStack, `poolName, `pool, `machineStack, `unmatchedPoolMachines, `unmatchedReqMachines, `netLabelMapping, `reached
      ensures Configured() && Pools() == old(Pools()) && Names() == old(Names()) && poolName in Pools() && Pools()[poolName] == pool
      ensures broken ==> HasBare(mreqs, virtualMatching) && exists x :: x in old(Left(false))
      ensures HasBare(mreqs, virtualMatching) ==> found == []
      ensures NoDup(found)
      ensures forall x :: x in found ==> x in old(Left(false))
      ensures !broken && (multimatch || found == []) ==> forall x :: x in old(Left(false)) ==> x in found
      ensures !multimatch ==> |found| <= 1
      ensures FoundInOrder(reqs, Names(), old(Left(false)), found)
      ensures found <= old(Ahead(false)) && (!broken && (multimatch || found == []) ==> found == old(Ahead(false)))
    {
      hide Collected, NoDup, FoundInOrder, NoLater, HasBare, Inv, Within, Split, InOrder, Sorted, NoneBare, Left, Ahead;
      found := [];
      ghost var left0, ahead0 := Left(false), Ahead(false);
      NothingCollected(reqs, Names(), left0, ahead0);
      CollectedSoFar(reqs, Names(), left0, ahead0, left0, ahead0, []);
      while true
        invariant Ready() && !Pending() && Names() == old(Names()) && (!multimatch ==> found == [])
        invariant HasBare(mreqs, virtualMatching) ==> found == []
        invariant Collected(reqs, Names(), left0, ahead0, Left(false), Ahead(false), found)
        decreases |poolStack|, WorkLeft(false)
      {
        ghost var left, ahead := Left(false), Ahead(false);
        CollectedSoFar(reqs, Names(), left0, ahead0, left, ahead, found);
        var m;
        m, broken := NextMapping();
        if m.None? { return; }
        CollectOne(reqs, Names(), left0, ahead0, left, ahead, Left(false), Ahead(false), found, m.value);
        found := found + [m.value];
        CollectedSoFar(reqs, Names(), left0, ahead0, Left(false), Ahead(false), found);
        if !multimatch { return; }
      }
    }

    /** A search from the start: `reset_match_state` and the loop over `_match` that follows it. */
    method RunSearch(multimatch: bool) returns (found: seq<Mapping>, broken: bool)
      requires Configured()
      modifies `poolStack, `poolName, `pool, `machineStack, `unmatchedPoolMachines, `unmatchedReqMachines, `netLabelMapping, `reqs, `reached, `beyond, `searched
      ensures Configured() && Pools() == old(Pools()) && Names() == old(Names()) && poolName in Pools() && Pools()[poolName] == pool
      ensures broken <==> Breaks(mreqs, Pools(), Names(), virtualMatching)
      ensures broken ==> found == []
      ensures !broken && (multimatch || found == []) ==> Enumerates(mreqs, Pools(), Names(), virtualMatching, found)
      ensures !multimatch ==> |found| <= 1
      ensures found != [] ==> Offered(mreqs, Pools(), Names(), virtualMatching, found[0])
      ensures ReportedInOrder(mreqs, Pools(), Names(), virtualMatching, found)
      ensures found <= AllMappings(mreqs, Pools(), Names(), virtualMatching)
      ensures !broken && (multimatch || found == []) && !HasBare(mreqs, virtualMatching) ==>
                found == AllMappings(mreqs, Pools(), Names(), virtualMatching)
    {
      hide AheadOf, AllMappings, LeftOf, Offered, Inv, Ready, HasBare, Short, NoLater;
      ResetMatchState();
      ghost var all := Left(false);
      assert forall x :: x in all <==> Offered(Short(mreqs, virtualMatching), Pools(), Names(), virtualMatching, x);
      found, broken := Drain(multimatch);
      assert found != [] ==> found[0] in found;
      if HasBare(mreqs, virtualMatching) {
        forall x | Offered(mreqs, Pools(), Names(), virtualMatching, x) ensures Breaks(mreqs, Pools(), Names(), virtualMatching) {
          OfferedBreaks(mreqs, Pools(), Names(), virtualMatching, x);
        }
      } else {
        NothingBare(mreqs, virtualMatching);
      }
    }

    /**
      `matches`, drained: the reported mappings in order, how many of them came before the fall-back
      to virtual machines, and how the call ended.
     */
    method Matches(multimatch: bool, allowVirt: bool) returns (found: seq<Mapping>, ghost normal: nat, outcome: Outcome)
      requires Configured()
      modifies this
      ensures Configured() && mreqs == old(mreqs) && pools == old(pools) && poolNames == old(poolNames)
      ensures Pools() == old(Pools()) && Names() == old(Names()) && poolName in Pools() && Pools()[poolName] == pool
      ensures virtualMatching == (old(virtualMatching) || TurnsVirtual(mreqs, Pools(), Names(), old(virtualMatching), multimatch, allowVirt))
      ensures outcome == IndexError <==> Breaks(mreqs, Pools(), Names(), old(virtualMatching))
      ensures outcome == MapperError <==> found == [] && outcome != IndexError
      ensures outcome == IndexError ==> found == []
      ensures normal <= |found|
      ensures multimatch && outcome != IndexError ==>
                && Enumerates(mreqs, Pools(), Names(), old(virtualMatching), found[..normal])
                && (if allowVirt then Enumerates(mreqs, Pools(), Names(), true, found[normal..]) else normal == |found|)
      ensures multimatch && !old(virtualMatching) ==> NoDup(found)
      ensures !multimatch && outcome != IndexError ==> FirstOf(mreqs, Pools(), Names(), old(virtualMatching), allowVirt, found)
      ensures found[..normal] <= AllMappings(mreqs, Pools(), Names(), old(virtualMatching))
      ensures found[normal..] <= AllMappings(mreqs, Pools(), Names(), true)
      ensures multimatch && outcome != IndexError && !HasBare(mreqs, old(virtualMatching)) ==>
                && found[..normal] == AllMappings(mreqs, Pools(), Names(), old(virtualMatching))
                && (allowVirt ==> found[normal..] == AllMappings(mreqs, Pools(), Names(), true))
      ensures ReportedInOrder(mreqs, Pools(), Names(), old(virtualMatching), found[..normal])
      ensures ReportedInOrder(mreqs, Pools(), Names(), true, found[normal..])
    {
      hide Offered, NoDup, Breaks, NoLater, AllMappings, HasBare;
      ghost var first := virtualMatching;
      var broken;
      found, broken := RunSearch(multimatch);
      normal := |found|;
      assert found[..normal] == found;
      if broken {
        EmptyNoDup(found);
        return found, normal, IndexError;
      }
      if !multimatch && |found| > 0 { return found, normal, Finished; }
      if allowVirt {
        virtualMatching := true;
        VirtualNeverBreaks(mreqs, Pools(), Names());
        var more;
        more, broken := RunSearch(multimatch);
        assert (found + more)[..normal] == found && (found + more)[normal..] == more;
        if multimatch && !first {
          PhasesDisjoint(mreqs, Pools(), Names(), found, more);
        }
        found := found + more;
      }
      outcome := if |found| == 0 then MapperError else Finished;
    }

    /**
      Two calls, with other requirements for the second one, as `Controller.run` makes them on one
      mapper. The second call reports a normal mapping of its requirements exactly when the mapper was
      not in virtual matching before, the first call has not turned to it, and the second one does not
      break off.
     */
    method MatchTwice(multimatch: bool, allowVirt: bool, next: map<Id, Machine>, allowVirtNext: bool)
      returns (first: seq<Mapping>, second: seq<Mapping>)
      requires Configured()
      modifies this
      ensures forall x :: Offered(next, Pools(), Names(), false, x) ==>
                (x in second <==>
                   && !old(virtualMatching) && !TurnsVirtual(old(mreqs), Pools(), Names(), false, multimatch, allowVirt)
                   && !Breaks(next, Pools(), Names(), false))
      ensures pools == old(pools) && poolNames == old(poolNames) && Pools() == old(Pools()) && Names() == old(Names())
    {
      hide Offered, Breaks, TurnsVirtual, Pools, Names, AllMappings, ReportedInOrder, HasBare;
      ghost var n1, n2;
      var o1, o2;
      first, n1, o1 := Matches(multimatch, allowVirt);
      SetRequirements(next);
      second, n2, o2 := Matches(true, allowVirtNext);
      assert second == second[..n2] + second[n2..];
      VirtualNeverBreaks(next, Pools(), Names());
      OfferedKind(next, Pools(), Names());
    }

    /**
      A call after all pools are gone goes through one of the pools of the call before once more, and
      reports the mappings of that one only.
     */
    method MatchWithoutPools(multimatch: bool, allowVirt: bool) returns (first: seq<Mapping>, second: seq<Mapping>, ghost stale: string)
      requires Configured()
      modifies this
      ensures stale in old(Pools())
      ensures var left := map[stale := old(Pools())[stale]];
              if Breaks(mreqs, left, [stale], virtualMatching) then second == []
              else Enumerates(mreqs, left, [stale], virtualMatching, second)
    {
      hide Breaks, Enumerates, AllMappings, ReportedInOrder, HasBare;
      ghost var n1, n2;
      var o1, o2;
      first, n1, o1 := Matches(multimatch, allowVirt);
      stale := poolName;
      SetPools(map[], []);
      second, n2, o2 := Matches(true, false);
      assert second[..n2] == second;
    }
  }
}
