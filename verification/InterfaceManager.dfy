/** The agent's device table of lnst/Agent/InterfaceManager.py. */
module InterfaceManager {
  import opened Sequences
  import opened DeviceModel
  import opened DeviceProtocol

  class AgentDevice {
    const ifindex: int
    const loopback: bool
    var deleted: bool
    var disabled: bool

    constructor (ifindex: int, loopback: bool)
      ensures this.ifindex == ifindex && this.loopback == loopback && !deleted && !disabled
    {
      this.ifindex, this.loopback, deleted, disabled := ifindex, loopback, false, false;
    }
  }

  /** What a list of kernel messages does to the tracked indices, and what it makes the agent send. */
  function AgentRun(tracked: set<int>, msgs: seq<Netlink>): (set<int>, seq<Msg>)
    decreases |msgs|
  {
    if msgs == [] then (tracked, [])
    else
      var (t, sent) := AgentRun(tracked, Init(msgs));
      var (t', more) := AgentStep(t, Last(msgs));
      (t', sent + more)
  }

  /** Handling a queue is a step of the protocol for each message, in order. */
  lemma {:induction false} QueueIsKernelSteps<D>(states: seq<Sys<D>>, ns: Netns, msgs: seq<Netlink>)
    requires |states| == |msgs| + 1 && ns in states[0].agents && ns in states[0].chans
    requires forall k :: 0 <= k < |msgs| ==> Step(states[k], Kernel(ns, msgs[k]), states[k + 1])
    ensures ns in Last(states).agents && ns in Last(states).chans
    ensures Last(states).agents[ns] == AgentRun(states[0].agents[ns], msgs).0
    ensures Last(states).chans[ns] == states[0].chans[ns] + AgentRun(states[0].agents[ns], msgs).1
    decreases |msgs|
  {
    if msgs != [] {
      QueueIsKernelSteps(Init(states), ns, Init(msgs));
      var n := |msgs| - 1;
      assert Step(states[n], Kernel(ns, msgs[n]), states[n + 1]);
      var (t, sent) := AgentRun(states[0].agents[ns], Init(msgs));
      var more := AgentStep(t, Last(msgs)).1;
      assert states[0].chans[ns] + (sent + more) == (states[0].chans[ns] + sent) + more;
    }
  }

  class Manager {
    var devices: map<int, AgentDevice>
    var msgQueue: seq<Netlink>
    var sent: seq<Msg>              // handed to `send_data_to_ctl`, oldest first

    ghost predicate Valid()
      reads this
    {
      forall i :: i in devices ==> devices[i].ifindex == i
    }

    ghost function Objects(): set<AgentDevice>
      reads this
    {
      set i | i in devices :: devices[i]
    }

    constructor ()
      ensures Valid() && devices == map[] && msgQueue == [] && sent == []
    {
      devices, msgQueue, sent := map[], [], [];
    }

    /** `_handle_netlink_msg`; a device that goes away is marked as deleted, every other one stays the same object. */
    method HandleNetlinkMsg(msg: Netlink)
      requires Valid()
      modifies `devices, `sent, Objects()
      ensures Valid()
      ensures devices.Keys == AgentStep(old(devices.Keys), msg).0
      ensures sent == old(sent) + AgentStep(old(devices.Keys), msg).1
      ensures forall i :: i in devices && i in old(devices) ==> devices[i] == old(devices[i]) && unchanged(old(devices[i]))
      ensures forall i :: i in devices && i !in old(devices) ==> fresh(devices[i]) && !devices[i].deleted && devices[i].disabled == !devices[i].loopback
      ensures forall i :: i in devices && i !in old(devices) ==> msg == NewLink(i, devices[i].loopback)
      ensures forall i :: i in old(devices) && i !in devices ==> old(devices[i]).deleted
    {
      match msg {
        case NewLink(i, loopback) =>
          if i !in devices {
            var dev := new AgentDevice(i, loopback);
            devices := devices[i := dev];
            sent := sent + [DevCreated(i)];
            if !loopback {
              dev.disabled := true;
            }
          }
        case DelLink(i, bridge, movedAway, newIfindex) =>
          if bridge { return; }
          if i in devices {
            var dev := devices[i];
            dev.deleted := true;
            devices := devices - {i};
            if movedAway {
              sent := sent + [DevNetnsChanged(i, newIfindex)];
            } else {
              sent := sent + [DevDeleted(i)];
            }
          }
        case NewAddr(_) =>
        case DelAddr(_) =>
        case OtherMessage =>
      }
    }

    /** `handle_netlink_msgs` after the kernel's messages were pulled into the queue. */
    method HandleNetlinkMsgs()
      requires Valid()
      modifies this, Objects()
      ensures Valid() && msgQueue == []
      ensures devices.Keys == AgentRun(old(devices.Keys), old(msgQueue)).0
      ensures sent == old(sent) + AgentRun(old(devices.Keys), old(msgQueue)).1
    {
      ghost var msgs, n := msgQueue, 0;
      while |msgQueue| > 0
        invariant Valid() && 0 <= n <= |msgs| && msgQueue == msgs[n..]
        invariant devices.Keys == AgentRun(old(devices.Keys), msgs[..n]).0
        invariant sent == old(sent) + AgentRun(old(devices.Keys), msgs[..n]).1
        invariant forall i :: i in devices ==> devices[i] in old(Objects()) || fresh(devices[i])
        decreases |msgQueue|
      {
        var msg := msgQueue[0];
        msgQueue := msgQueue[1..];
        assert Init(msgs[..n + 1]) == msgs[..n] && Last(msgs[..n + 1]) == msg;
        HandleNetlinkMsg(msg);
        n := n + 1;
      }
      assert msgs[..n] == msgs;
    }
  }
}
