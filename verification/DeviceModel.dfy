/**
  The controller's device tables of lnst/Controller/Machine.py as a value: devices by namespace and
  interface index, and the devices that are on their way between two namespaces.
 */
module DeviceModel {
  import opened Sequences

  /** A namespace is known by its name; the initial one is an entry of its own. */
  type Netns = string

  /** An entry of `_netns_moved_devices`. */
  datatype Move<D> = Move(dev: D, src: Netns, dst: Netns, oldIndex: int, newIndex: Option<int>)

  /** The fields of a `RemoteDevice` that the tables depend on. */
  datatype Attrs = Attrs(ifindex: int, netns: Netns, deleted: bool, cached: bool)

  datatype Tables<D(==)> = Tables(db: map<Netns, map<int, D>>, moved: seq<Move<D>>, attrs: map<D, Attrs>)

  /** A handler either finishes or raises `MachineError`. */
  datatype Result<+T> = Done(value: T) | Raised

  // ---- Looking up a moved device: the first entry of the dictionary that matches ----

  predicate ArrivesAs<D>(m: Move<D>, dst: Netns, i: int) {
    m.dst == dst && m.newIndex == Some(i)
  }

  predicate LeavesAs<D>(m: Move<D>, src: Netns, i: int) {
    m.src == src && m.oldIndex == i
  }

  function FirstArriving<D>(moved: seq<Move<D>>, dst: Netns, i: int): (k: nat)
    ensures k <= |moved|
    ensures k < |moved| ==> ArrivesAs(moved[k], dst, i)
    ensures forall j :: 0 <= j < k ==> !ArrivesAs(moved[j], dst, i)
  {
    if moved == [] || ArrivesAs(moved[0], dst, i) then 0 else 1 + FirstArriving(moved[1..], dst, i)
  }

  function FirstLeaving<D>(moved: seq<Move<D>>, src: Netns, i: int): (k: nat)
    ensures k <= |moved|
    ensures k < |moved| ==> LeavesAs(moved[k], src, i)
    ensures forall j :: 0 <= j < k ==> !LeavesAs(moved[j], src, i)
  {
    if moved == [] || LeavesAs(moved[0], src, i) then 0 else 1 + FirstLeaving(moved[1..], src, i)
  }

  function Without<T>(s: seq<T>, k: nat): seq<T>
    requires k < |s|
  {
    s[..k] + s[k + 1..]
  }

  // ---- The handlers ----

  function Insert<D>(db: map<Netns, map<int, D>>, ns: Netns, i: int, d: D): map<Netns, map<int, D>>
    requires ns in db
  {
    db[ns := db[ns][i := d]]
  }

  function Delete<D>(db: map<Netns, map<int, D>>, ns: Netns, i: int): map<Netns, map<int, D>>
    requires ns in db
  {
    db[ns := db[ns] - {i}]
  }

  /** `device_created`; `made` is the object the handler makes up when it knows of no other. */
  function Created<D>(c: Tables<D>, ns: Netns, i: int, made: D): Result<Tables<D>> {
    if ns !in c.db then Raised
    else if i in c.db[ns] then Done(c)
    else
      var k := FirstArriving(c.moved, ns, i);
      if k < |c.moved| && c.moved[k].dev in c.attrs then
        var d := c.moved[k].dev;
        Done(Tables(Insert(c.db, ns, i, d), Without(c.moved, k),
                    c.attrs[d := Attrs(i, ns, c.attrs[d].deleted, false)]))
      else
        Done(Tables(Insert(c.db, ns, i, made), c.moved, c.attrs[made := Attrs(i, ns, false, false)]))
  }

  /** `device_delete`. */
  function Deleted<D>(c: Tables<D>, ns: Netns, i: int): Result<Tables<D>> {
    if ns !in c.db then Raised
    else if i !in c.db[ns] then Done(c)
    else
      var d := c.db[ns][i];
      Done(c.(db := Delete(c.db, ns, i),
              attrs := if d in c.attrs then c.attrs[d := c.attrs[d].(deleted := true)] else c.attrs))
  }

  /** `device_netns_change`. */
  function Changed<D>(c: Tables<D>, ns: Netns, i: int, newIndex: Option<int>): Result<Tables<D>> {
    if ns !in c.db then Raised
    else
      var k := FirstLeaving(c.moved, ns, i);
      if k == |c.moved| then Raised
      else Done(c.(db := Delete(c.db, ns, i), moved := c.moved[k := c.moved[k].(newIndex := newIndex)]))
  }

  /** How a request to move a device ends: in an entry of the moved table, or in an exception. */
  datatype Request = Started | KeyError | DeviceDeleted | ReadFailed

  /** The slot a device believes it is in. */
  predicate SlotTaken<D>(c: Tables<D>, src: Netns, i: int) {
    src in c.db && i in c.db[src]
  }

  /**
    `enable_readonly_cache` reads the device's attributes, unless it has done so before. A deleted device
    cannot be read, and for any other one the agent may answer with an exception: `readable` says whether
    it does not.
   */
  predicate CanCache(a: Attrs, readable: bool) {
    a.cached || (!a.deleted && readable)
  }

  /** Assigning to a dictionary by device: in place, or at the end. */
  function PutMove<D(==)>(moved: seq<Move<D>>, m: Move<D>): (r: seq<Move<D>>)
    ensures |moved| <= |r| <= |moved| + 1
    ensures forall k :: 0 <= k < |moved| ==> r[k] == if moved[k].dev == m.dev then m else moved[k]
    ensures if exists k :: 0 <= k < |moved| && moved[k].dev == m.dev then |r| == |moved| else r == moved + [m]
  {
    seq(|moved|, k requires 0 <= k < |moved| => if moved[k].dev == m.dev then m else moved[k]) +
    (if exists k :: 0 <= k < |moved| && moved[k].dev == m.dev then [] else [m])
  }

  /**
    `_add_device_to_netns_moved_devices`: it first drops whatever device is in the slot that `d` believes
    to be in, and only then comes across a device that cannot be read.
   */
  function RequestMove<D>(c: Tables<D>, d: D, dst: Netns, src: Netns, readable: bool): (Tables<D>, Request)
    requires d in c.attrs
  {
    var i := c.attrs[d].ifindex;
    if !SlotTaken(c, src, i) then (c, KeyError)
    else
      var dropped := c.(db := Delete(c.db, src, i));
      if !CanCache(c.attrs[d], readable) then (dropped, if c.attrs[d].deleted then DeviceDeleted else ReadFailed)
      else (Tables(dropped.db, PutMove(c.moved, Move(d, src, dst, i, None)), c.attrs[d := c.attrs[d].(cached := true)]), Started)
  }

  /** The bookkeeping of `remote_device_create` once the agent has answered with an index. */
  function RpcCreated<D>(c: Tables<D>, ns: Netns, i: int, made: D): Tables<D> {
    Tables(c.db[ns := (if ns in c.db then c.db[ns] else map[])[i := made]], c.moved,
           c.attrs[made := Attrs(i, ns, false, false)])
  }

  /** `add_netns` for a namespace that is not known yet. */
  function AddNetns<D>(c: Tables<D>, ns: Netns): Tables<D> {
    c.(db := c.db[ns := map[]])
  }

  // ---- Device identity ----

  /** Each slot's device knows its index and namespace, and is not on its way anywhere. */
  ghost predicate SlotsInv<D>(c: Tables<D>) {
    forall ns, i :: ns in c.db && i in c.db[ns] ==>
      && c.db[ns][i] in c.attrs
      && c.attrs[c.db[ns][i]].ifindex == i && c.attrs[c.db[ns][i]].netns == ns
      && (forall k :: 0 <= k < |c.moved| ==> c.moved[k].dev != c.db[ns][i])
  }

  /** A device on its way still has its old index and namespace, and is on its way only once. */
  ghost predicate MovesInv<D>(c: Tables<D>) {
    && (forall k :: 0 <= k < |c.moved| ==>
          && c.moved[k].dev in c.attrs
          && c.attrs[c.moved[k].dev].ifindex == c.moved[k].oldIndex && c.attrs[c.moved[k].dev].netns == c.moved[k].src)
    && (forall j, k :: 0 <= j < k < |c.moved| ==> c.moved[j].dev != c.moved[k].dev)
  }

  ghost predicate IdentityInv<D>(c: Tables<D>) {
    SlotsInv(c) && MovesInv(c)
  }

  /** No device is in two slots. */
  lemma OneSlot<D>(c: Tables<D>, ns: Netns, i: int, ns': Netns, i': int)
    requires IdentityInv(c) && ns in c.db && i in c.db[ns] && ns' in c.db && i' in c.db[ns']
    requires c.db[ns][i] == c.db[ns'][i']
    ensures ns == ns' && i == i'
  {
  }

  lemma CreatedKeepsIdentity<D>(c: Tables<D>, ns: Netns, i: int, made: D)
    requires IdentityInv(c) && (made !in c.attrs || FirstArriving(c.moved, ns, i) < |c.moved|)
    ensures Created(c, ns, i, made).Done? ==> IdentityInv(Created(c, ns, i, made).value)
  {
  }

  lemma DeletedKeepsIdentity<D>(c: Tables<D>, ns: Netns, i: int)
    requires IdentityInv(c)
    ensures Deleted(c, ns, i).Done? ==> IdentityInv(Deleted(c, ns, i).value)
  {
  }

  lemma ChangedKeepsIdentity<D>(c: Tables<D>, ns: Netns, i: int, newIndex: Option<int>)
    requires IdentityInv(c)
    ensures Changed(c, ns, i, newIndex).Done? ==> IdentityInv(Changed(c, ns, i, newIndex).value)
  {
  }

  /** Requests keep identity however they end; `Namespace` passes the device's own namespace. */
  lemma RequestMoveKeepsIdentity<D>(c: Tables<D>, d: D, dst: Netns, readable: bool)
    requires IdentityInv(c) && d in c.attrs
    ensures IdentityInv(RequestMove(c, d, dst, c.attrs[d].netns, readable).0)
  {
  }

  lemma RpcCreatedKeepsIdentity<D>(c: Tables<D>, ns: Netns, i: int, made: D)
    requires IdentityInv(c) && made !in c.attrs
    ensures IdentityInv(RpcCreated(c, ns, i, made))
  {
  }
}
