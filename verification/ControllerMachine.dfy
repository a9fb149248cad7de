/** The device handlers and the base-class loop of lnst/Controller/Machine.py. */
module ControllerMachine {
  import opened Sequences
  import opened DeviceModel

  class RemoteDevice {
    var ifindex: int
    var netns: Netns
    var deleted: bool
    var cached: bool

    constructor (ifindex: int, netns: Netns)
      ensures this.ifindex == ifindex && this.netns == netns && !deleted && !cached
    {
      this.ifindex, this.netns, deleted, cached := ifindex, netns, false, false;
    }
  }

  class Machine {
    var deviceDatabase: map<Netns, map<int, RemoteDevice>>
    var netnsMovedDevices: seq<Move<RemoteDevice>>   // a dictionary by device, in insertion order
    ghost var known: set<RemoteDevice>               // every device the tables ever held

    /** The tables with the fields of all devices, as a value. */
    ghost function View(): Tables<RemoteDevice>
      reads this, known
    {
      Tables(deviceDatabase, netnsMovedDevices, map d | d in known :: Attrs(d.ifindex, d.netns, d.deleted, d.cached))
    }

    ghost predicate Valid()
      reads this, known
    {
      IdentityInv(View())
    }

    constructor (initns: Netns)
      ensures Valid() && View() == Tables(map[initns := map[]], [], map[]) && fresh(known)
    {
      deviceDatabase, netnsMovedDevices, known := map[initns := map[]], [], {};
    }

    method FindArriving(dst: Netns, ifindex: int) returns (k: nat)
      ensures k == FirstArriving(netnsMovedDevices, dst, ifindex)
    {
      k := 0;
      while k < |netnsMovedDevices|
        invariant k <= |netnsMovedDevices|
        invariant forall j :: 0 <= j < k ==> !ArrivesAs(netnsMovedDevices[j], dst, ifindex)
      {
        if netnsMovedDevices[k].dst == dst && netnsMovedDevices[k].newIndex == Some(ifindex) { return; }
        k := k + 1;
      }
    }

    method FindLeaving(src: Netns, ifindex: int) returns (k: nat)
      ensures k == FirstLeaving(netnsMovedDevices, src, ifindex)
    {
      k := 0;
      while k < |netnsMovedDevices|
        invariant k <= |netnsMovedDevices|
        invariant forall j :: 0 <= j < k ==> !LeavesAs(netnsMovedDevices[j], src, ifindex)
      {
        if netnsMovedDevices[k].src == src && netnsMovedDevices[k].oldIndex == ifindex { return; }
        k := k + 1;
      }
    }

    /** `device_created`; `dev` is the device that the slot holds afterwards. */
    method DeviceCreated(ifindex: int, netns: Netns) returns (ok: bool, dev: RemoteDevice?)
      requires Valid()
      modifies this, known
      ensures Valid() && fresh(known - old(known)) && old(known) <= known
      ensures ok <==> netns in old(deviceDatabase)
      ensures !ok ==> View() == old(View())
      ensures ok ==> dev != null && netns in deviceDatabase && ifindex in deviceDatabase[netns] && deviceDatabase[netns][ifindex] == dev
      ensures ok ==> Created(old(View()), netns, ifindex, dev) == Done(View())
    {
      hide IdentityInv;
      if netns !in deviceDatabase { return false, null; }
      if ifindex in deviceDatabase[netns] { return true, deviceDatabase[netns][ifindex]; }
      var k := FindArriving(netns, ifindex);
      if k < |netnsMovedDevices| {
        dev := TakeArrived(k, ifindex, netns);
      } else {
        dev := AddNew(ifindex, netns);
      }
      ok := true;
    }

    /** The device that has been on its way arrives. */
    method TakeArrived(k: nat, ifindex: int, netns: Netns) returns (dev: RemoteDevice)
      requires Valid() && netns in deviceDatabase && ifindex !in deviceDatabase[netns]
      requires k < |netnsMovedDevices| && k == FirstArriving(netnsMovedDevices, netns, ifindex)
      modifies `deviceDatabase, `netnsMovedDevices, known
      ensures Valid() && dev == old(netnsMovedDevices)[k].dev
      ensures Created(old(View()), netns, ifindex, dev) == Done(View())
      ensures netns in deviceDatabase && ifindex in deviceDatabase[netns] && deviceDatabase[netns][ifindex] == dev
    {
      ghost var c := View();
      dev := netnsMovedDevices[k].dev;
      assert dev in c.attrs;
      ghost var want := Created(c, netns, ifindex, dev).value;
      CreatedKeepsIdentity(c, netns, ifindex, dev);
      hide IdentityInv;
      dev.cached := false;
      dev.ifindex := ifindex;
      dev.netns := netns;
      netnsMovedDevices := Without(netnsMovedDevices, k);
      deviceDatabase := Insert(deviceDatabase, netns, ifindex, dev);
      assert View().attrs == want.attrs;
    }

    /** A device that nothing was known about. */
    method AddNew(ifindex: int, netns: Netns) returns (dev: RemoteDevice)
      requires Valid() && netns in deviceDatabase && ifindex !in deviceDatabase[netns]
      requires FirstArriving(netnsMovedDevices, netns, ifindex) == |netnsMovedDevices|
      modifies `deviceDatabase, `known
      ensures Valid() && fresh(dev) && known == old(known) + {dev}
      ensures Created(old(View()), netns, ifindex, dev) == Done(View())
      ensures netns in deviceDatabase && ifindex in deviceDatabase[netns] && deviceDatabase[netns][ifindex] == dev
    {
      ghost var c := View();
      dev := new RemoteDevice(ifindex, netns);
      CreatedKeepsIdentity(c, netns, ifindex, dev);
      hide IdentityInv;
      known := known + {dev};
      deviceDatabase := Insert(deviceDatabase, netns, ifindex, dev);
      assert View().attrs == Created(c, netns, ifindex, dev).value.attrs;
    }

    /** `device_delete`. */
    method DeviceDelete(ifindex: int, netns: Netns) returns (ok: bool)
      requires Valid()
      modifies `deviceDatabase, known
      ensures Valid()
      ensures if ok then Deleted(old(View()), netns, ifindex) == Done(View())
              else Deleted(old(View()), netns, ifindex) == Raised && View() == old(View())
    {
      ghost var c := View();
      DeletedKeepsIdentity(c, netns, ifindex);
      if netns !in deviceDatabase { return false; }
      if ifindex in deviceDatabase[netns] {
        assert deviceDatabase[netns][ifindex] in c.attrs;
        hide IdentityInv;
        deviceDatabase[netns][ifindex].deleted := true;
        deviceDatabase := Delete(deviceDatabase, netns, ifindex);
        assert View().attrs == Deleted(c, netns, ifindex).value.attrs;
      }
      ok := true;
    }

    /** `device_netns_change`. */
    method DeviceNetnsChange(ifindex: int, newIfindex: Option<int>, netns: Netns) returns (ok: bool)
      requires Valid()
      modifies `deviceDatabase, `netnsMovedDevices
      ensures Valid()
      ensures if ok then Changed(old(View()), netns, ifindex, newIfindex) == Done(View())
              else Changed(old(View()), netns, ifindex, newIfindex) == Raised && View() == old(View())
    {
      ghost var c := View();
      ChangedKeepsIdentity(c, netns, ifindex, newIfindex);
      hide IdentityInv;
      if netns !in deviceDatabase { return false; }
      var k := FindLeaving(netns, ifindex);
      if k == |netnsMovedDevices| { return false; }
      netnsMovedDevices := netnsMovedDevices[k := netnsMovedDevices[k].(newIndex := newIfindex)];
      if ifindex in deviceDatabase[netns] {
        deviceDatabase := Delete(deviceDatabase, netns, ifindex);
      } else {
        assert deviceDatabase[netns] - {ifindex} == deviceDatabase[netns];
        assert deviceDatabase == Delete(deviceDatabase, netns, ifindex);
      }
      assert View().attrs == c.attrs;
      ok := true;
    }

    method FindMoved(dev: RemoteDevice) returns (k: nat)
      ensures k <= |netnsMovedDevices|
      ensures k < |netnsMovedDevices| ==> netnsMovedDevices[k].dev == dev
      ensures forall j :: 0 <= j < k ==> netnsMovedDevices[j].dev != dev
    {
      k := 0;
      while k < |netnsMovedDevices|
        invariant k <= |netnsMovedDevices|
        invariant forall j :: 0 <= j < k ==> netnsMovedDevices[j].dev != dev
      {
        if netnsMovedDevices[k].dev == dev { return; }
        k := k + 1;
      }
    }

    /** The assignment to `_netns_moved_devices`. */
    method PutMoved(m: Move<RemoteDevice>)
      requires MovesInv(View())
      modifies `netnsMovedDevices
      ensures netnsMovedDevices == PutMove(old(netnsMovedDevices), m)
    {
      var k := FindMoved(m.dev);
      ghost var want := PutMove(netnsMovedDevices, m);
      if k < |netnsMovedDevices| {
        netnsMovedDevices := netnsMovedDevices[k := m];
      } else {
        netnsMovedDevices := netnsMovedDevices + [m];
      }
      assert netnsMovedDevices == want;
    }

    /** `RemoteDevice.enable_readonly_cache`: the first attribute that cannot be read ends it. */
    static method EnableReadonlyCache(dev: RemoteDevice, readable: bool) returns (r: Request)
      modifies dev`cached
      ensures r == Started <==> CanCache(Attrs(dev.ifindex, dev.netns, dev.deleted, old(dev.cached)), readable)
      ensures r != Started ==> r == (if dev.deleted then DeviceDeleted else ReadFailed) && dev.cached == old(dev.cached)
      ensures r == Started ==> dev.cached
    {
      if dev.cached { return Started; }
      if dev.deleted { return DeviceDeleted; }
      if !readable { return ReadFailed; }
      dev.cached := true;
      r := Started;
    }

    /** `_add_device_to_netns_moved_devices`, for any device the tables ever held, and any answers of its agent. */
    method AddDeviceToNetnsMovedDevices(dev: RemoteDevice, dst: Netns, src: Netns, readable: bool) returns (r: Request)
      requires Valid() && dev in known
      modifies `deviceDatabase, `netnsMovedDevices, known
      ensures src == old(dev.netns) ==> Valid()
      ensures (View(), r) == RequestMove(old(View()), dev, dst, src, readable)
    {
      ghost var c := View();
      assert dev in c.attrs && c.attrs[dev] == Attrs(dev.ifindex, dev.netns, dev.deleted, dev.cached);
      RequestMoveKeepsIdentity(c, dev, dst, readable);
      hide SlotsInv;
      if src !in deviceDatabase || dev.ifindex !in deviceDatabase[src] { return KeyError; }
      deviceDatabase := Delete(deviceDatabase, src, dev.ifindex);
      r := EnableReadonlyCache(dev, readable);
      if r != Started {
        assert View().attrs == c.attrs;
        return;
      }
      PutMoved(Move(dev, src, dst, dev.ifindex, None));
      assert View().attrs == c.attrs[dev := c.attrs[dev].(cached := true)];
    }

    /** The part of `remote_device_create` that follows the agent's answer. */
    method RemoteDeviceCreated(dev: RemoteDevice, ifindex: int, netns: Netns)
      requires Valid() && dev !in known && dev.netns == netns && !dev.deleted && !dev.cached
      modifies `deviceDatabase, `known, dev
      ensures Valid() && known == old(known) + {dev}
      ensures View() == RpcCreated(old(View()), netns, ifindex, dev)
    {
      hide IdentityInv;
      ghost var c := View();
      assert dev !in c.attrs;
      RpcCreatedKeepsIdentity(c, netns, ifindex, dev);
      dev.ifindex := ifindex;
      var slots: map<int, RemoteDevice> := if netns in deviceDatabase then deviceDatabase[netns] else map[];
      deviceDatabase := deviceDatabase[netns := slots[ifindex := dev]];
      known := known + {dev};
      assert View().attrs == RpcCreated(c, netns, ifindex, dev).attrs;
    }

    /** The table part of `add_netns`. */
    method AddNetnsTable(netns: Netns)
      requires Valid() && netns !in deviceDatabase
      modifies `deviceDatabase
      ensures Valid() && View() == AddNetns(old(View()), netns)
    {
      deviceDatabase := deviceDatabase[netns := map[]];
    }
  }

  // ---- The classes an object depends on ----

  /** Python classes by name, each with the list of its direct bases. */
  type Hierarchy = map<string, seq<string>>

  function Bases(h: Hierarchy, c: string): seq<string> {
    if c in h then h[c] else []
  }

  /** `path` leads from `c` to `b` along direct bases. */
  ghost predicate IsPath(h: Hierarchy, path: seq<string>) {
    path != [] && forall k :: 0 <= k < |path| - 1 ==> path[k + 1] in Bases(h, path[k])
  }

  ghost predicate IsAncestor(h: Hierarchy, c: string, b: string) {
    exists path :: IsPath(h, path) && path[0] == c && path[|path| - 1] == b
  }

  lemma AncestorStep(h: Hierarchy, c: string, b: string, d: string)
    requires IsAncestor(h, c, b) && d in Bases(h, b)
    ensures IsAncestor(h, c, d)
  {
    var path :| IsPath(h, path) && path[0] == c && path[|path| - 1] == b;
    var longer := path + [d];
    assert IsPath(h, longer) && longer[0] == c && longer[|longer| - 1] == d;
  }

  /** A set with the class in it that is closed under direct bases has all its ancestors. */
  lemma {:induction false} ClosedHasAncestors(h: Hierarchy, s: seq<string>, path: seq<string>, k: nat)
    requires IsPath(h, path) && k < |path| && path[0] in s
    requires forall b, d :: b in s && d in Bases(h, b) ==> d in s
    ensures path[k] in s
  {
    if k > 0 {
      ClosedHasAncestors(h, s, path, k - 1);
    }
  }

  /** All classes that can ever appear in the list. */
  ghost function Universe(h: Hierarchy, c: string): set<string> {
    {c} + set b, d | b in h && d in h[b] :: d
  }

  /** Appends the elements that the list does not have yet. */
  method AppendMissing(list: seq<string>, extra: seq<string>) returns (r: seq<string>)
    ensures list <= r
    ensures NoDup(list) ==> NoDup(r)
    ensures forall d :: d in r <==> d in list || d in extra
    ensures forall k :: |list| <= k < |r| ==> r[k] !in list
  {
    r := list;
    for j := 0 to |extra|
      invariant list <= r
      invariant NoDup(list) ==> NoDup(r)
      invariant forall d :: d in r <==> d in list || d in extra[..j]
      invariant forall k :: |list| <= k < |r| ==> r[k] !in list
    {
      assert extra[..j + 1] == extra[..j] + [extra[j]];
      if extra[j] !in r {
        r := r + [extra[j]];
      }
    }
    assert extra[..|extra|] == extra;
  }

  /** One pass over the list, appending the bases that are missing. */
  method AddMissingBases(h: Hierarchy, bases: seq<string>) returns (newBases: seq<string>)
    ensures bases <= newBases
    ensures NoDup(bases) ==> NoDup(newBases)
    ensures |bases| < |newBases| ==> newBases[|bases|] !in bases
    ensures forall b, d :: b in bases && d in Bases(h, b) ==> d in newBases
    ensures forall d :: d in newBases ==> d in bases || exists b :: b in bases && d in Bases(h, b)
  {
    newBases := bases;
    for i := 0 to |bases|
      invariant bases <= newBases
      invariant NoDup(bases) ==> NoDup(newBases)
      invariant |bases| < |newBases| ==> newBases[|bases|] !in bases
      invariant forall k, d :: 0 <= k < i && d in Bases(h, bases[k]) ==> d in newBases
      invariant forall d :: d in newBases ==> d in bases || exists b :: b in bases && d in Bases(h, b)
    {
      newBases := AppendMissing(newBases, Bases(h, bases[i]));
    }
  }

  lemma InUniverse(h: Hierarchy, c: string, b: string)
    requires IsAncestor(h, c, b)
    ensures b in Universe(h, c)
  {
    var path :| IsPath(h, path) && path[0] == c && path[|path| - 1] == b;
    if |path| > 1 {
      assert path[|path| - 2 + 1] in Bases(h, path[|path| - 2]);
    }
  }

  /** `_get_base_classes`: exactly the class and all its ancestors, each once if the declared bases are proper. */
  method GetBaseClasses(h: Hierarchy, cls: string) returns (newBases: seq<string>)
    ensures forall b :: b in newBases <==> IsAncestor(h, cls, b)
    ensures cls !in Bases(h, cls) && NoDup(Bases(h, cls)) ==> NoDup(newBases)
  {
    newBases := [cls] + Bases(h, cls);
    var bases: seq<string> := [];
    assert IsPath(h, [cls]) && IsAncestor(h, cls, cls) by { var path := [cls]; assert path[0] == cls && path[|path| - 1] == cls; }
    forall b | b in Bases(h, cls) ensures IsAncestor(h, cls, b) { AncestorStep(h, cls, cls, b); }
    while |newBases| != |bases|
      invariant bases <= newBases && newBases != [] && newBases[0] == cls
      invariant forall b :: b in newBases ==> IsAncestor(h, cls, b)
      invariant forall b, d :: b in bases && d in Bases(h, b) ==> d in newBases
      invariant cls !in Bases(h, cls) && NoDup(Bases(h, cls)) ==> NoDup(newBases)
      decreases |Universe(h, cls) - Elems(newBases)|, if |newBases| != |bases| then 1 else 0
    {
      bases := newBases;
      newBases := AddMissingBases(h, bases);
      forall d | d in newBases ensures IsAncestor(h, cls, d) {
        if d !in bases {
          var b :| b in bases && d in Bases(h, b);
          AncestorStep(h, cls, b, d);
        }
      }
      Shrinks(h, cls, bases, newBases);
    }
    assert newBases == bases;
    forall b | IsAncestor(h, cls, b) ensures b in newBases {
      var path :| IsPath(h, path) && path[0] == cls && path[|path| - 1] == b;
      ClosedHasAncestors(h, newBases, path, |path| - 1);
    }
  }

  lemma Shrinks(h: Hierarchy, cls: string, bases: seq<string>, newBases: seq<string>)
    requires bases <= newBases && forall d :: d in newBases ==> IsAncestor(h, cls, d)
    requires |bases| < |newBases| ==> exists d :: d in newBases && d !in bases
    ensures |newBases| == |bases| ==> newBases == bases
    ensures |newBases| > |bases| ==> |Universe(h, cls) - Elems(newBases)| < |Universe(h, cls) - Elems(bases)|
  {
    if |newBases| > |bases| {
      var d :| d in newBases && d !in bases;
      InUniverse(h, cls, d);
      var less, more := Universe(h, cls) - Elems(newBases), Universe(h, cls) - Elems(bases);
      assert d in more && d !in less && less <= more;
      SubsetSize(less, more - {d});
    }
  }
}
