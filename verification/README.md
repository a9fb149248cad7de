# A model of LNST's algorithms

LNST sets up networks of test machines: a controller maps the hosts that a recipe asks for to machines
of a pool, talks to an agent on each of them, keeps track of their network devices and evaluates what
they measured. This project models the parts of it that hold algorithms or protocols, and proves what
they promise. `dafny verify dfyconfig.toml` checks it.

- **The pool matcher** (`MatchModel`, `SearchState`, `SearchMoves`, `SearchTermination`, `SearchOrder`,
  `SearchResult`, `RecursiveSearch`, `SearchResume`, `SearchProgress`, `MatchPools`, `MatchOrder`,
  `MatchSequence`, `BareHosts`, `MachineMapper`). `MachineMapper.Mapper` is the resumable backtracking
  search with its two nested stacks, its candidate snapshots, the lists it changes in place and the label
  map it shares between all levels. Each step is a function on states in `SearchState`; `SearchMoves`
  shows that every step keeps the invariant and the set of legal matches still to be found,
  `SearchTermination` that a measure over the stacks falls. `MatchModel.Legal` says what a match has to
  be without mentioning the search, and `Matches` is proved against it: every legal mapping once and
  nothing else. `RecursiveSearch` is the same search in its plain recursive form; `Matches` reports its
  mappings in exactly its order, of which `MatchOrder` says what comes first.
- **Device tracking** (`DeviceModel`, `DeviceIdentity`, `DeviceProtocol`, `InterfaceManager`,
  `ControllerMachine`). The handlers on both ends are classes proved against transition functions;
  runs of the handlers keep device identity, and runs of the whole system of agents, ordered
  channels and controller keep both tables in agreement up to the messages under way, and say what
  becomes of each kind of kernel message.
- **The secure channel** (`Decimal`, `Framing`, `CipherState`, `KeyExpansion`, `SecureSocket`, `Base256`,
  `ModularPower`, `Srp`, `PasswordHandshake`): frames over a byte stream in arbitrary chunks, protected
  messages with counters and key switches, key expansion, and both ends of the password handshake. What
  signatures and proofs show is stated for injective primitives (`Unforgeable`, `Injective`, `CollisionFree`).
- **Performance results** (`PerfResults`): slicing trees of intervals over the reals.
- **Smaller cores** (`SplitJoin`, `Lines`, `DotDict`, `Config`, `FirewallControl`, `FirewallChains`,
  `AddressPool`).

Code that works in place is modelled by classes and loops that are proved against functions; the lemmas
are about those functions.

## What the proofs found

- `reset_match_state` and the pool switch push a host only if the pool has machines, and an empty stack
  ends the loop of `_match`. So one empty pool hides all pools that are listed before it
  (`MatchPools.OfferedIffNotHidden` is the exact condition, `EmptyPoolExample` a case), and without
  requirements nothing is reported, not even the empty mapping.
- `_virtual_matching` is set by `matches` and never reset, so a later call on the same mapper can begin
  with virtual machines: `Matches` says when it stays set, `Mapper.MatchTwice` when the second of two calls
  loses the normal mappings, and `BareHosts.LostExample` gives requirements for which it does.
- `_match` pushes an interface frame for every host it maps outside virtual matching. A required host
  without interfaces ends the call in an `IndexError` as soon as it is mapped, that is, exactly if some pool
  that the search gets to has a legal match of the hosts up to the first such host in sorted order
  (`BareHosts.Breaks` in the contract of `Matches`, `BareHosts.BareExample`).
- Without pools `reset_match_state` keeps the pool of the search before, so a call made after the pools
  were taken away reports the mappings of that pool once more (`Mapper.MatchWithoutPools`).
- Entries of the moved table are looked up by slot and never removed but by an arrival. A device that is
  deleted while its move is being requested leaves its entry there, and a later device with its old index
  can then arrive under the wrong object; and the change message of a later move out of a slot can
  renumber an earlier device that has not arrived yet, which then never does
  (`DeviceIdentity.MoveEndsAtDestination` is the exact condition over every run, `WrongObjectExample` and
  `OverwrittenExample` are runs in which it fails).
- A requested move drops its slot first and makes its entry last. If the device object is no longer in
  its slot and marked as deleted, or if a remote read raises in between, the slot's device is gone without
  an entry, and controller and agent disagree (`DeviceProtocol.RequestKeepsAgreementIff` is the exact
  condition, `StaleRequestExample` and `UnreadableExample` are runs).
- A received payload that looks like the switch message is taken for one, encrypted or not, and one that
  unpickles to a value like a number makes `recv` raise instead of returning it
  (`CipherState.PayloadKeepsStepIff`, `PayloadDeliveredIff`).
- A signed frame that is dropped for its signature is counted like any other, so a reader that has come
  across one skips all honest frames up to and including the next switch (`SecureSocket.OutOfStepSkipsAll`);
  one with bad padding is not counted (`BadPaddingSkipped`).
- A table whose line ends a line of an earlier table's block is not appended
  (`FirewallControl.EmptyDestinationIff`, `StarLosesTable`), and a destination that does not end its last
  line swallows the first table that is appended (`AllTablesFoundIff`, `OpenLineSwallows`).
- A pool whose end is the all-255 address is never exhausted (`AddressPool.ExhaustibleIff`).

## Model

| member | source | states |
|---|---|---|
| `MachineMapper.Mapper.Matches` | lnst/Controller/MachineMapper.py:100-133 | A drained call with `multimatch` reports every legal mapping of every pool it gets to exactly once and nothing else, first the normal and then, if allowed, the virtual ones; a single-match call reports one of them if there is any, a virtual one only if there is no normal one; `IndexError`, before anything is reported, exactly if some pool has a legal match of the hosts up to the first one without interfaces; `MapperError` exactly if else nothing is reported; what is reported is, mapping by mapping, the list that the plain recursive search comes to (a prefix of it in a single-match call), and so in this order: the pools from the last listed to the first, the least host's machine ascending, and on one machine the port of its least interface ascending; without any pools the pool of the search before is searched once more; the mapper stays usable with its inputs unchanged and holds one of the pools it searched, and is in virtual matching exactly if it was before or the call turned to virtual machines |
| `MachineMapper.Mapper.MatchTwice` | lnst/Controller/MachineMapper.py:100-133 | Of two calls on one mapper, with any requirements, the second reports a normal mapping exactly if the first did not turn to virtual machines and the second does not break off |
| `MachineMapper.Mapper.MatchWithoutPools` | lnst/Controller/MachineMapper.py:84-95 | A call after all pools were taken away goes through one pool of the call before once more, and reports the mappings of that one only, each once |
| `MatchOrder.FoundNoLater` | lnst/Controller/MachineMapper.py:82-98 | The mapping a complete state spells out comes no later in the order than any mapping still ahead, in its own pool and in the pools left |
| `SearchResume.TakeIfComing` | lnst/Controller/MachineMapper.py:232-244 | Mapping an interface leaves the list of what the plain recursive search still finds as it is: first what lies beyond, then the other candidates |
| `SearchResume.DropIfComing` | lnst/Controller/MachineMapper.py:232-235 | So does dropping an incompatible candidate |
| `SearchResume.UnmapIfComing` | lnst/Controller/MachineMapper.py:221-231 | withdrawing an interface, which puts its port behind the unmatched ones |
| `SearchResume.PushIfComing` | lnst/Controller/MachineMapper.py:278-285 | descending to the next interface, with the candidates in the order they have at that moment |
| `SearchResume.PopIfComing` | lnst/Controller/MachineMapper.py:287-290 | giving up on an interface |
| `SearchResume.TakeMachineComing` | lnst/Controller/MachineMapper.py:160-169 | mapping a machine |
| `SearchResume.DropMachineComing` | lnst/Controller/MachineMapper.py:160-162 | dropping an incompatible machine |
| `SearchResume.UnmapMachineComing` | lnst/Controller/MachineMapper.py:153-157 | giving a machine back, behind the unmatched ones |
| `SearchResume.PushMachineComing` | lnst/Controller/MachineMapper.py:257-272 | descending to the next host |
| `SearchResume.PopMachineComing` | lnst/Controller/MachineMapper.py:274-276 | and giving up on a host |
| `SearchResume.YieldComing` | lnst/Controller/MachineMapper.py:147-151 | The match a complete state spells out is the first of those still to be found |
| `SearchResume.FirstComing` | lnst/Controller/MachineMapper.py:97-98 | A pool just started leads to the whole list of the plain recursive search |
| `MatchSequence.RoundOutcome` | lnst/Controller/MachineMapper.py:137-179 | One round leaves the set and the list of the mappings still to be reported as they are |
| `MatchSequence.YieldAhead` | lnst/Controller/MachineMapper.py:115-119 | A report takes the first mapping off the list of those ahead |
| `MatchOrder.LeastMachineFirst` | lnst/Controller/MachineMapper.py:89-95 | The first mapping reported from a pool gives the least host the least machine that any legal mapping of the pool gives it |
| `MatchOrder.MachinesAscend` | lnst/Controller/MachineMapper.py:160-161 | Among the mappings reported from one pool the machine of the least host never gets less |
| `MatchOrder.EqualMachinesExample` | lnst/Controller/MachineMapper.py:89-95 | A concrete case: of two equal machines the lesser one is reported first |
| `SearchOrder.TakeIfSorted` | lnst/Controller/MachineMapper.py:232-244 | In every frame at the bottom, what is left to be tried stays in descending order and not less than the present candidate, when an interface is mapped |
| `SearchOrder.PopIfSorted` | lnst/Controller/MachineMapper.py:287-290 | and when one is given back, which also keeps the interfaces in order |
| `MatchPools.EligibleSorted` | lnst/Controller/MachineMapper.py:89-95 | The candidates of a pool are in descending order, to be taken from the end |
| `BareHosts.OfferedBreaks` | lnst/Controller/MachineMapper.py:170-176 | Whenever there is a mapping to report and a required host without interfaces, the search breaks off |
| `BareHosts.BareIsLast` | lnst/Controller/MachineMapper.py:160-176 | A host without interfaces that gets mapped is the last host within reach: all hosts before it are matched |
| `BareHosts.AllMatchedNoneBare` | lnst/Controller/MachineMapper.py:147-151 | When all hosts are matched with their interfaces none of them is without interfaces |
| `BareHosts.HostsInOrder` | lnst/Controller/MachineMapper.py:82 | The sorted hosts are those the search never gets to, followed by those up to the first one without interfaces |
| `BareHosts.RestrictedIsLegal` | lnst/Controller/MachineMapper.py:292-348 | A legal match stays legal when it is restricted to some of the hosts |
| `BareHosts.BareExample` | lnst/Controller/MachineMapper.py:278-280 | A concrete case of the `IndexError`, where there is a legal mapping |
| `BareHosts.LostExample` | lnst/Controller/MachineMapper.py:121-124 | A concrete case in which a call leaves the mapper in virtual matching although it found a normal mapping |
| `MatchPools.AllLegalReported` | lnst/Controller/MachineMapper.py:100-133 | With requirements and without empty pools, what is reported is exactly the legal mappings, where legal is defined without any search order |
| `MatchPools.OfferedIffNotHidden` | lnst/Controller/MachineMapper.py:84-98 | A legal mapping is offered by the search if and only if there are requirements and no pool from its own to the end of the pool list is empty |
| `MatchPools.EmptyPoolExample` | lnst/Controller/MachineMapper.py:180-199 | A concrete case in which an empty pool hides a legal mapping of a pool listed before it |
| `MatchPools.EmptyPoolHides` | lnst/Controller/MachineMapper.py:180-199 | An empty pool hides all pools listed up to it |
| `MatchPools.PhasesDisjoint` | lnst/Controller/MachineMapper.py:115-130 | The mappings of the normal and the virtual search have nothing in common |
| `MatchModel.LegalNetworksUnique` | lnst/Controller/MachineMapper.py:322-348 | The networks of a legal match are determined by its machines and interfaces |
| `MatchModel.EmptyParamsDoNotMatter` | lnst/Controller/MachineMapper.py:295-298 | A required parameter without a value is as good as none |
| `MatchModel.VirtualMatches` | lnst/Controller/MachineMapper.py:91-95 | In virtual matching every host gets a machine with a libvirt domain, and neither interfaces nor networks are mapped |
| `SearchResult.FoundIsLegal` | lnst/Controller/MachineMapper.py:292-348 | Soundness: what a complete state spells out sends hosts and interfaces injectively to compatible ones, and its networks are a well-defined injective function on exactly the used labels |
| `SearchResult.OnlyFoundAgrees` | lnst/Controller/MachineMapper.py:322-348 | A legal match that agrees with a complete state is the one it spells out |
| `SearchResult.YieldTakesOne` | lnst/Controller/MachineMapper.py:115-119 | Resuming after a report takes exactly the reported match off the matches still to be found |
| `SearchResult.NoResidue` | lnst/Controller/MachineMapper.py:152-199 | In every state that meets the invariant the labels of the map are exactly those of the interfaces matched now, each entry is that of the lowest of them, matched and unmatched ids partition hosts, machines and interfaces, and the map is empty when the stack is |
| `SearchResult.ClaimedIsUsed` | lnst/Controller/MachineMapper.py:221-244 | Every label in the label map is the label of an interface that is matched now |
| `SearchResult.FirstUseOwns` | lnst/Controller/MachineMapper.py:221-244 | The entry of a label names the network, host and interface of the lowest stack frame that uses the label, and every used label has an entry |
| `SearchMoves.UnclaimTop` | lnst/Controller/MachineMapper.py:221-230 | Withdrawing the top interface restores exactly the label map from before it was mapped, whether or not it owned the label |
| `SearchMoves.LegalPassesCheck` | lnst/Controller/MachineMapper.py:304-320 | The candidate a legal match takes passes the label and parameter check as long as the stack agrees with that match |
| `SearchMoves.LegalTargetUnused` | lnst/Controller/MachineMapper.py:160-168 | The machine a legal match takes for the next host is among the unmatched ones |
| `SearchMoves.UnmapIfKeeps` | lnst/Controller/MachineMapper.py:221-231 | Withdrawing an interface keeps the search invariant and the set of matches still to be found |
| `SearchMoves.DropIfKeeps` | lnst/Controller/MachineMapper.py:232-235 | Dropping an incompatible candidate loses no legal match and keeps the invariant |
| `SearchMoves.TakeIfKeeps` | lnst/Controller/MachineMapper.py:236-244 | Mapping an interface keeps the invariant; the matches still to be found are those beyond the new path and those of the candidates left |
| `SearchMoves.PushIfKeeps` | lnst/Controller/MachineMapper.py:278-285 | Descending to the next interface keeps the invariant and the matches still to be found |
| `SearchMoves.PopIfKeeps` | lnst/Controller/MachineMapper.py:287-290 | Giving up on an interface without candidates keeps the invariant and the matches still to be found |
| `SearchMoves.UnmapMachineKeeps` | lnst/Controller/MachineMapper.py:153-157 | Returning a machine to the unmatched ones keeps the invariant and the matches still to be found |
| `SearchMoves.DropMachineKeeps` | lnst/Controller/MachineMapper.py:160-162 | Dropping an incompatible machine loses no legal match |
| `SearchMoves.TakeMachineKeeps` | lnst/Controller/MachineMapper.py:160-169 | Mapping a machine keeps the invariant and the matches still to be found |
| `SearchMoves.PushMachineKeeps` | lnst/Controller/MachineMapper.py:257-272 | Descending to the next host keeps the invariant and the matches still to be found |
| `SearchMoves.PopMachineKeeps` | lnst/Controller/MachineMapper.py:274-276 | Giving up on a host without candidates keeps the invariant and the matches still to be found |
| `SearchTermination.TakeIfWork` | lnst/Controller/MachineMapper.py:232-244 | The measure over both stacks falls when an interface is mapped, even counting the whole path it opens |
| `SearchTermination.DropIfWork` | lnst/Controller/MachineMapper.py:232-235 | It falls when an interface candidate is dropped |
| `SearchTermination.PushIfWork` | lnst/Controller/MachineMapper.py:278-285 | It falls when the search descends to the next interface, for every state that meets the invariant |
| `SearchTermination.PopIfWork` | lnst/Controller/MachineMapper.py:287-290 | It does not grow when an interface is popped |
| `SearchTermination.TakeMachineWork` | lnst/Controller/MachineMapper.py:160-169 | It falls when a machine is mapped |
| `SearchTermination.DropMachineWork` | lnst/Controller/MachineMapper.py:160-162 | It falls when a machine is dropped |
| `SearchTermination.PushMachineWork` | lnst/Controller/MachineMapper.py:257-272 | It falls when the search descends to the next host |
| `SearchTermination.PopMachineWork` | lnst/Controller/MachineMapper.py:274-276 | It does not grow when a host is popped |
| `SortedKeys.SortedDescIsPermutation` | lnst/Controller/MachineMapper.py:82 | `sorted(..., reverse=True)` of the keys has every key exactly once |
| `SortedKeys.SortedDescIsSorted` | lnst/Controller/MachineMapper.py:82 | and is in descending order |
| `SortedKeys.LexLeIff` | lnst/Controller/MachineMapper.py:82 | The order on keys: one text continues the other, or has the greater character where the two first differ |
| `SortedKeys.LeastIsLast` | lnst/Controller/MachineMapper.py:259 | The key taken first is the least one |
| `MachineMapper.Mapper.CheckMachineCompatibility` | lnst/Controller/MachineMapper.py:292-302 | True exactly if every non-empty required parameter has the offered value |
| `MachineMapper.Mapper.CheckInterfaceCompatibility` | lnst/Controller/MachineMapper.py:304-320 | True exactly if the label and the network are tied to each other or both free, and the parameters fit |
| `MachineMapper.Mapper.PushMachineStack` | lnst/Controller/MachineMapper.py:257-272 | The in-place update is the push of the specification |
| `MachineMapper.Mapper.PopMachineStack` | lnst/Controller/MachineMapper.py:274-276 | The in-place update is the pop of the specification |
| `MachineMapper.Mapper.PushIfStack` | lnst/Controller/MachineMapper.py:278-285 | The in-place update is the interface push of the specification |
| `MachineMapper.Mapper.PopIfStack` | lnst/Controller/MachineMapper.py:287-290 | The in-place update is the interface pop of the specification |
| `MachineMapper.Mapper.UnmapInterface` | lnst/Controller/MachineMapper.py:221-231 | The label map, the unmatched interfaces and the stack change as the specification says |
| `MachineMapper.Mapper.MatchInterfaces` | lnst/Controller/MachineMapper.py:213-255 | The interface loop, from wherever its stack stands, ends with all interfaces mapped or with an empty stack; no legal match is lost or repeated, and it terminates |
| `MachineMapper.Mapper.IfMatch` | lnst/Controller/MachineMapper.py:202-255 | The same for normal and virtual matching |
| `MachineMapper.Mapper.MapNextMachine` | lnst/Controller/MachineMapper.py:153-169 | Unmaps the top host and takes its next compatible machine if there is one, losing no match |
| `MachineMapper.Mapper.AdvanceMachine` | lnst/Controller/MachineMapper.py:152-179 | The top host gets its next machine and an interface frame, or is popped; `IndexError` exactly if it got a machine and has no interfaces |
| `MachineMapper.Mapper.MatchRound` | lnst/Controller/MachineMapper.py:137-179 | One round of the machine loop keeps the invariant and the matches to be found, and makes the measure fall, completes a match, or breaks off with all hosts up to one without interfaces mapped |
| `MachineMapper.Mapper.ListPoolMachines` | lnst/Controller/MachineMapper.py:89-95 | The candidates of a pool are its machines in order, in virtual matching only those with a libvirt domain |
| `MachineMapper.Mapper.SwitchPool` | lnst/Controller/MachineMapper.py:180-198 | When a pool is exhausted the label map is empty and all hosts are unmatched; the next pool takes over with everything in it ahead |
| `MachineMapper.Mapper.MatchStep` | lnst/Controller/MachineMapper.py:137-199 | One iteration keeps the mappings still to be reported, and pools left or measure fall |
| `MachineMapper.Mapper.MatchNext` | lnst/Controller/MachineMapper.py:135-200 | A call, also a resumed one, terminates with the next complete match or with empty stacks, and loses no mapping in any pool |
| `MachineMapper.Mapper.ResetMatchState` | lnst/Controller/MachineMapper.py:78-98 | Afterwards exactly the offered mappings are ahead of the search |
| `MachineMapper.Mapper.GetMapping` | lnst/Controller/MachineMapper.py:322-348 | The loops over both stacks read off exactly the match the state spells out |
| `MachineMapper.Mapper.NextMapping` | lnst/Controller/MachineMapper.py:115-119 | One resumption of the generator gives the first of the mappings ahead and leaves the others, and the measure falls |
| `MachineMapper.Mapper.Drain` | lnst/Controller/MachineMapper.py:115-119 | The loop of `matches` collects every mapping ahead once |
| `DeviceModel.CreatedKeepsIdentity` | lnst/Controller/Machine.py:215-254 | Device identity survives `device_created`: every slot holds a device with its index and namespace, none is in two slots or in a slot and the moved table |
| `DeviceModel.ChangedKeepsIdentity` | lnst/Controller/Machine.py:265-285 | Device identity survives `device_netns_change` |
| `DeviceModel.RequestMoveKeepsIdentity` | lnst/Controller/Machine.py:163-171 | Device identity survives every request for a namespace move, also one for a device that is no longer in its slot, and one that fails over a deleted device or a remote read |
| `DeviceModel.RpcCreatedKeepsIdentity` | lnst/Controller/Machine.py:111-129 | Device identity survives the creation of a device by the controller, also over an occupied slot |
| `DeviceModel.OneSlot` | lnst/Controller/Machine.py:215-254 | No device is in two slots |
| `DeviceIdentity.RunKeepsIdentity` | lnst/Controller/Machine.py:111-285 | Device identity holds in every state of every run of the handlers and requests, through exceptions, too |
| `DeviceIdentity.MoveEndsAtDestination` | lnst/Controller/Machine.py:163-285 | A device is moved, and then anything happens in any order but its arrival: a creation brings the very object to its slot if and only if its entry, as the run has left it, goes there, the slot is free, and no earlier entry goes there; then its index and namespace are up to date and it has left the table |
| `DeviceIdentity.OnItsWayRun` | lnst/Controller/Machine.py:163-285 | In every run in which the device does not arrive its entry survives, whatever other entries come and go, with the new index and destination that the run leaves it |
| `DeviceIdentity.LastTouchDecides` | lnst/Controller/Machine.py:163-285 | The last operation of a run to touch the entry decides: a change message, if the entry is the first to leave its slot then, gives the new index, and a request made over a taken slot takes it away |
| `DeviceIdentity.UndisturbedMove` | lnst/Controller/Machine.py:163-285 | If the move is not requested again and the last change message that the entry was the first for says `j`, the entry goes to index `j` of the requested destination |
| `DeviceIdentity.RpcEnters` | lnst/Controller/Machine.py:127-129 | A device that the controller creates is in the slot that the agent answered with, with its index and namespace, and no other slot, move or device changes |
| `DeviceIdentity.SlotClearedIff` | lnst/Controller/Machine.py:111-285 | In every state with device identity, an operation leaves a slot with the device it holds if and only if it is no deletion, effective change message, move request or creation by call for this very slot |
| `DeviceIdentity.SlotSurvives` | lnst/Controller/Machine.py:111-285 | Through every run without such an operation a slot holds its device |
| `DeviceIdentity.ChangedMarksIff` | lnst/Controller/Machine.py:270-283 | A change message gives the new index to a pending move if and only if no earlier entry of the table leaves the same slot |
| `DeviceIdentity.CreationFirstIsNotTheMovedDevice` | lnst/Controller/Machine.py:226-243 | A creation that overtakes the change message gets a new object and leaves the moved device in the table |
| `DeviceIdentity.WrongObjectExample` | lnst/Controller/Machine.py:163-285 | A concrete run in which the condition fails: a device arrives under the object of another one that was deleted while it was to move |
| `DeviceIdentity.OverwrittenExample` | lnst/Controller/Machine.py:270-283 | A concrete run in which it fails after the change message of the move: the message for a later move out of the same slot renumbers the entry, and the arrival gets a new object |
| `DeviceProtocol.StepKeeps` | lnst/Controller/Machine.py:163-285 | Every kernel event, delivery, move request for any device object, whether its remote reads succeed or not, and new namespace keeps: the channel, played on what the controller knows, or knew before it dropped a slot, gives what the agent tracks |
| `DeviceProtocol.StepKeepsAgreementIff` | lnst/Controller/Machine.py:163-285 | Agreement, by which what the controller has dropped is on its way to another namespace, survives a step if and only if the step is no harmful move request |
| `DeviceProtocol.RequestKeepsAgreementIff` | lnst/Controller/Machine.py:163-171 | A move request keeps agreement if and only if its slot is empty, or the device has been cached or all remote reads of it succeed, so that it gets its entry, or another move out of the slot is pending |
| `DeviceProtocol.HarmlessInRunIff` | lnst/Controller/Machine.py:163-171 | In a run a request for the device in its slot is harmless if and only if the remote reads succeed or a move out of the slot is pending; for other devices if and only if the slot is empty, a move out of it is pending, or the device is not deleted and is cached or read |
| `DeviceProtocol.StaleRequestExample` | lnst/Controller/Machine.py:163-171 | A concrete run after which the agent tracks a device, the controller does not, and nothing is under way or pending |
| `DeviceProtocol.UnreadableExample` | lnst/Controller/Machine.py:163-171 | The same after a request for a device in its slot, one of whose remote reads raises |
| `DeviceProtocol.RunKeeps` | lnst/Controller/Machine.py:163-285 | The invariant holds in every state of every run, for every interleaving, and agreement as long as no request was harmful |
| `DeviceProtocol.ReplicasAgree` | lnst/Controller/Machine.py:163-285 | With nothing under way from a namespace, the controller tracks only what the agent tracks, in every run; and if no request so far was harmful, all of it except for moves out that are still without a new index |
| `DeviceProtocol.LastMessageDecides` | lnst/Agent/InterfaceManager.py:111-157 | With messages under way, the last one about an index says whether the agent tracks it |
| `DeviceProtocol.CreationFindsFreeSlot` | lnst/Controller/Machine.py:215-218 | The slot of a creation message that is read is always free |
| `DeviceProtocol.LinkMovesAway` | lnst/Agent/InterfaceManager.py:144-152 | A link that leaves for another namespace is reported as moved: the first move out of its slot gets the new index, the slot is empty and no device is marked; without such a move the controller raises |
| `DeviceProtocol.LinkIsDeleted` | lnst/Agent/InterfaceManager.py:137-154 | A deleted link: the device in its slot is marked, the slot is empty, and no move is touched |
| `DeviceProtocol.LinkComesUpOnce` | lnst/Agent/InterfaceManager.py:115-130 | A new link finds its slot free, and the slot then holds a device with its index: the first move that arrives there, or else a new one |
| `DeviceProtocol.NothingToTell` | lnst/Agent/InterfaceManager.py:111-157 | Bridge messages, messages about untracked links, repeated ones and addresses change neither end |
| `DeviceProtocol.RunReports` | lnst/Agent/InterfaceManager.py:144-154 | In every run each report under way and each new index in the moved table goes back to a kernel message |
| `DeviceProtocol.NewIndexFromKernel` | lnst/Agent/InterfaceManager.py:144-152 | In every run a device on its way has a new index only if the kernel has reported that the link of its old slot left and got that index |
| `InterfaceManager.Manager.HandleNetlinkMsg` | lnst/Agent/InterfaceManager.py:111-157 | The tracked devices and the messages sent change as the step relation says; only the named device is touched |
| `InterfaceManager.QueueIsKernelSteps` | lnst/Agent/InterfaceManager.py:99-104 | What handling a queue tracks and sends is what one protocol step for each of its messages does, in order |
| `InterfaceManager.Manager.HandleNetlinkMsgs` | lnst/Agent/InterfaceManager.py:99-104 | The queue is drained in order |
| `ControllerMachine.Machine.DeviceCreated` | lnst/Controller/Machine.py:215-254 | The tables and all device objects afterwards are those of the transition function: the object arriving, a new one, or none for a known index |
| `ControllerMachine.Machine.DeviceDelete` | lnst/Controller/Machine.py:256-263 | The tables and all device objects afterwards are those of the transition function: removes and marks the device, or ignores an unknown index |
| `ControllerMachine.Machine.DeviceNetnsChange` | lnst/Controller/Machine.py:265-285 | The tables and all device objects afterwards are those of the transition function: marks the first entry that leaves the slot, or raises |
| `ControllerMachine.Machine.AddDeviceToNetnsMovedDevices` | lnst/Controller/Machine.py:163-171 | The tables and all device objects afterwards are those of the transition function: drops the device in the slot and enters the requested one into the moved table, or raises for an empty slot, or for a deleted or unreadable device once the slot is dropped |
| `ControllerMachine.Machine.RemoteDeviceCreated` | lnst/Controller/Machine.py:127-129 | The tables and all device objects afterwards are those of the transition function: enters a device made by the controller |
| `ControllerMachine.Machine.AddNetnsTable` | lnst/Controller/Machine.py:692-695 | The tables and all device objects afterwards are those of the transition function: adds an empty table |
| `ControllerMachine.Machine.EnableReadonlyCache` | lnst/Devices/RemoteDevice.py:59-65 | Caches a device exactly if it is cached already, or is not deleted and all its reads succeed; else it says which exception ends it, and caches nothing |
| `ControllerMachine.GetBaseClasses` | lnst/Controller/Machine.py:494-504 | For every finite hierarchy the loop terminates with exactly the class and all its ancestors, each once if the class declares its direct bases once |
| `ControllerMachine.ClosedHasAncestors` | lnst/Controller/Machine.py:494-504 | A list with a class that is closed under direct bases has all its ancestors |
| `Decimal.ParsePrint` | lnst/Common/SecureSocket.py:284-299 | Parsing undoes printing for every length |
| `Decimal.ParseIff` | lnst/Common/SecureSocket.py:293-296 | A text is read as a length exactly if it consists of decimal digits |
| `Decimal.PrintParseIff` | lnst/Common/NetUtils.py:137-147 | A number read from a text is printed as that text if and only if it has no needless zero in front |
| `Framing.DecodeEncode` | lnst/Common/SecureSocket.py:281-312 | A frame is read back whatever bytes follow it |
| `Framing.FramesSelfDelimiting` | lnst/Common/SecureSocket.py:281-312 | Two byte streams that are equal and start with frames start with the same frame |
| `Framing.TruncatedFrame` | lnst/Common/SecureSocket.py:288-307 | A stream that ends within a frame yields no payload |
| `Framing.StreamSocket.RecvFrame` | lnst/Common/SecureSocket.py:288-307 | However the stream is cut into chunks, the two loops read one frame and leave the rest |
| `Framing.StreamSocket.RecvFrames` | lnst/Common/SecureSocket.py:288-307 | Successive calls return exactly the payloads sent, in order, however the stream is cut |
| `CipherState.UnpadPad` | lnst/Common/SecureSocket.py:198-221 | Unpadding undoes padding for data of every length |
| `CipherState.UnpadIff` | lnst/Common/SecureSocket.py:211-221 | Exactly data followed by a proper padding of some length passes the check |
| `CipherState.BadPaddingNotCounted` | lnst/Common/SecureSocket.py:267-273 | A frame with bad padding is dropped without counting it, or raises if it does not unpickle |
| `CipherState.SignedTextIff` | lnst/Common/SecureSocket.py:169-171 | The signed text determines the data under one sequence number, and the number for the same data |
| `CipherState.OpensAtItsNumber` | lnst/Common/SecureSocket.py:180-196 | With an injective signature a frame opens if and only if it is read at its own sequence number; at any other one it is dropped, and counted |
| `CipherState.OpensUnaltered` | lnst/Common/SecureSocket.py:180-196 | Under the old signature nothing but the old data opens |
| `CipherState.DigitsStayInData` | lnst/Common/SecureSocket.py:169-171 | The length in the signed text keeps number and data apart: digits in front of the data do not pass for the last digits of another number, unless their count is a multiple of nine |
| `CipherState.NextUncounted` | lnst/Common/SecureSocket.py:344-357 | In every state of every run the keys to switch to are uncounted, so each pair of keys is used from number zero on |
| `CipherState.UnprotectProtect` | lnst/Common/SecureSocket.py:164-279 | With the state a message was protected with it unprotects to the original data and both ends count on |
| `CipherState.StepKeepsSync` | lnst/Common/SecureSocket.py:314-357 | Sending, switching, installing secrets and reading keep: walking the frames under way from the state of the reader ends in the state of the writer |
| `CipherState.RunKeepsSync` | lnst/Common/SecureSocket.py:314-357 | The same in every state of every run |
| `CipherState.ChannelInSync` | lnst/Common/SecureSocket.py:164-279 | In every reachable state the frames under way unprotect, with the state the reader will have by then, to what was sent; what was read is a prefix of what was sent, an exception standing for each payload without a type to look up; and an empty channel means equal keys and counters |
| `CipherState.EmptyChannelDeliveredIff` | lnst/Common/SecureSocket.py:314-323 | Once the channel is empty everything sent was delivered if and only if no payload is one on which looking up the type raises |
| `CipherState.PayloadDeliveredIff` | lnst/Common/SecureSocket.py:314-323 | A payload is delivered if and only if it is neither taken for a switch message nor one on which looking up the type raises; the latter counts on all the same |
| `CipherState.PayloadKeepsStepIff` | lnst/Common/SecureSocket.py:314-323 | A payload keeps the ends in step if and only if it does not look like the switch message |
| `KeyExpansion.PSha256` | lnst/Common/SecureSocket.py:359-370 | The loop terminates with an output of exactly the asked length that is a prefix of P_hash of section 5 of RFC 5246 |
| `KeyExpansion.PHashLength` | lnst/Common/SecureSocket.py:359-370 | P_hash of n rounds is n digests long |
| `KeyExpansion.PrefixStable` | lnst/Common/SecureSocket.py:359-370 | The output is determined by its inputs, and a longer one continues a shorter one |
| `KeyExpansion.PHashIff` | lnst/Common/SecureSocket.py:359-369 | With an injective HMAC, outputs of at least one digest are equal if and only if secret and seed are |
| `KeyExpansion.KeysCoverBlock` | lnst/Common/SecureSocket.py:388-402 | The four keys cut the block without gap or overlap, each of its size |
| `SecureSocket.WireDelivers` | lnst/Common/SecureSocket.py:281-323 | From bytes to bytes: the calls of `recv` return exactly the payloads of the frames on the wire, in order, across switches, and raise exactly for those without a type to look up |
| `SecureSocket.ReadNextFrame` | lnst/Common/SecureSocket.py:281-323 | One frame in step with the reader is delivered, raises for its type, or switches the reader |
| `SecureSocket.OutOfTurnSkipped` | lnst/Common/SecureSocket.py:288-313 | A frame read at another number than its own is skipped: the call returns what follows it |
| `SecureSocket.AlteredSkipped` | lnst/Common/SecureSocket.py:288-313 | So is a frame whose data was altered |
| `SecureSocket.ReplaySkipped` | lnst/Common/SecureSocket.py:288-313 | A frame that is sent once and comes twice is delivered once |
| `SecureSocket.OutOfStepSkipsAll` | lnst/Common/SecureSocket.py:288-313 | A reader out of step with its peer skips every frame up to the next switch and the switch, too |
| `SecureSocket.BadPaddingSkipped` | lnst/Common/SecureSocket.py:267-279 | A frame with bad padding is skipped, and what follows is read as if it had not come |
| `SecureSocket.BadStream` | lnst/Common/SecureSocket.py:288-313 | The end of the stream within a frame is an empty message; a length that is no number and a frame that does not unpickle raise and leave the state alone |
| `SecureSocket.Socket.Send` | lnst/Common/SecureSocket.py:281-286 | Appends one frame protected with the current state, and counts on |
| `SecureSocket.Socket.SendChangeCipherSpec` | lnst/Common/SecureSocket.py:352-357 | Sends the switch message under the old state, then goes over to the next one |
| `SecureSocket.Socket.Recv` | lnst/Common/SecureSocket.py:288-323 | Result, reading state and rest of the stream are those of the reading function |
| `SecureSocket.Socket.InitCipherSpec` | lnst/Common/SecureSocket.py:374-402 | Installs the halves of a P_hash key block for the role |
| `Srp.SecretsAgree` | lnst/Controller/CtlSecSocket.py:320-350 | For all private values, multipliers and hash outputs both ends compute the same secret (section 2.6 of RFC 5054) |
| `Srp.ClientSide` | lnst/Controller/CtlSecSocket.py:347-348 | The secret of the client is the generator to the power b*(a+u*x), modulo the prime |
| `Srp.ServerSide` | lnst/Agent/AgentSecSocket.py:362-363 | The secret of the server is the generator to the power (x*u+a)*b, modulo the prime |
| `PasswordHandshake.SecretBytesAgree` | lnst/Controller/CtlSecSocket.py:323-350 | The same on the bytes sent and hashed |
| `PasswordHandshake.AgreedMirrors` | lnst/Common/SecureSocket.py:374-402 | Ends with one secret have one master secret, and what one writes with the other will read with |
| `PasswordHandshake.Handshake` | lnst/Controller/CtlSecSocket.py:299-373 | Between ends with one password it succeeds if and only if neither public value is zero modulo the prime, and then master secrets agree and the next states mirror each other |
| `PasswordHandshake.Attempt` | lnst/Agent/AgentSecSocket.py:367-389 | Whatever passwords the ends have and for a hash without collisions, the agent accepts if and only if no public value is zero and both ends derive the same secret; the controller does then, too, and else neither end sends anything or changes its keys |
| `PasswordHandshake.Proof1Iff` | lnst/Agent/AgentSecSocket.py:373-375 | With public values of one length, two first proofs are equal if and only if they are made from the same public values and the same secret |
| `PasswordHandshake.Proof2Iff` | lnst/Agent/AgentSecSocket.py:377 | With public values and first proofs of one length, two second proofs are equal if and only if they are made from the same public value, first proof and secret |
| `PasswordHandshake.PasswordHashIff` | lnst/Controller/CtlSecSocket.py:320-321 | With salts of one length, two password hashes are equal if and only if salts and passwords are |
| `PasswordHandshake.ScramblerIff` | lnst/Controller/CtlSecSocket.py:344-345 | Two scrambling parameters are equal if and only if they are made from the same public values |
| `PasswordHandshake.MultiplierIff` | lnst/Controller/CtlSecSocket.py:300-306 | Two multipliers are equal if and only if they are made from the same group |
| `PasswordHandshake.KeysIff` | lnst/Common/SecureSocket.py:374-402 | With an injective signature and a hash without collisions, two ends have the same master secret if and only if they have the same secret and the same random values, and the same key block exactly then |
| `PasswordHandshake.SamePasswordSameSecret` | lnst/Controller/CtlSecSocket.py:323-350 | Ends with one password derive one secret from the bytes they exchange |
| `PasswordHandshake.ClientPublicNotZero` | lnst/Controller/CtlSecSocket.py:323-326 | With the generator two and an odd modulus the public value of the client is never zero |
| `PasswordHandshake.SwitchFrameCompletes` | lnst/Common/SecureSocket.py:314-357 | Reading the switch frame of the peer brings the reader to the new keys of the writer |
| `PasswordHandshake.Finish` | lnst/Controller/CtlSecSocket.py:366-373 | Sets the master secret, derives the keys and switches the writing state |
| `PasswordHandshake.CtlSecSocket.OnSalt` | lnst/Controller/CtlSecSocket.py:314-332 | The public value for the private value, and an error for any other message |
| `PasswordHandshake.CtlSecSocket.OnServerPub` | lnst/Controller/CtlSecSocket.py:334-355 | The client secret and first proof, or an error for a public value that is zero modulo the prime |
| `PasswordHandshake.CtlSecSocket.OnM2` | lnst/Controller/CtlSecSocket.py:357-373 | Accepts exactly the right second proof |
| `PasswordHandshake.AgentSecSocket.OnBegin` | lnst/Agent/AgentSecSocket.py:308-335 | The verifier for the salt, and an error for any other user |
| `PasswordHandshake.AgentSecSocket.OnClientPub` | lnst/Agent/AgentSecSocket.py:337-365 | The server secret and public value, or an error for a public value that is zero modulo the prime |
| `PasswordHandshake.AgentSecSocket.OnM1` | lnst/Agent/AgentSecSocket.py:367-389 | Accepts exactly the right first proof and answers with the second |
| `PerfResults.SliceConserved` | lnst/RecipeCommon/Perf/Results.py:85-97 | Cutting a window in two cuts the value of the slice in two, for every tree of results |
| `PerfResults.SliceUnit` | lnst/RecipeCommon/Perf/Results.py:112-127 | A slice has the unit of the result |
| `PerfResults.SliceValid` | lnst/RecipeCommon/Perf/Results.py:165-179 | A slice is again a tree of one unit with positive durations |
| `PerfResults.SliceList` | lnst/RecipeCommon/Perf/Results.py:165-179 | The loop keeps the non-empty slices in order, and `append` never rejects one |
| `PerfResults.Append` | lnst/RecipeCommon/Perf/Results.py:112-127 | Refuses exactly an item of another unit, and else adds it at the end |
| `PerfResults.IntervalSliceValue` | lnst/RecipeCommon/Perf/Results.py:85-97 | The value of a slice is the share of the overlap in the duration |
| `PerfResults.ValueIsLeaves` | lnst/RecipeCommon/Perf/Results.py:182-184 | The value of a result is the sum of all values measured |
| `PerfResults.CoveringSlice` | lnst/RecipeCommon/Perf/Results.py:85-97 | A window that covers the whole result keeps it as it is |
| `PerfResults.SlicedTwice` | lnst/RecipeCommon/Perf/Results.py:85-97 | Slicing twice is slicing by the intersection of the windows, if that is not empty |
| `PerfResults.EmptySliceIff` | lnst/RecipeCommon/Perf/Results.py:165-179 | A slice of a tree is empty if and only if no leaf reaches over both bounds of the window |
| `PerfResults.DisjointWindows` | lnst/RecipeCommon/Perf/Results.py:85-97 | For windows that do not meet, slicing any tree twice is empty; slicing by the crossed-over bounds is empty exactly when no leaf reaches over both |
| `PerfResults.SliceLeaves` | lnst/RecipeCommon/Perf/Results.py:165-179 | Every leaf of a slice lies in the window and is a part of a leaf of the result with the same average |
| `PerfResults.GapFreeDuration` | lnst/RecipeCommon/Perf/Results.py:186-229 | A gap-free result lasts from its start to its end: sequential items that follow each other, and parallel items that leave no time uncovered |
| `PerfResults.DurationWithGaps` | lnst/RecipeCommon/Perf/Results.py:186-229 | Every result lasts from its start to its end less the gaps between sequential items, on all levels down to parallel ones |
| `PerfResults.ParallelSlice` | lnst/RecipeCommon/Perf/Results.py:205-229 | A slice of a gap-free parallel result is gap-free and lasts exactly for the part of its time in the window, or is empty |
| `PerfResults.GapFreeWindow` | lnst/RecipeCommon/Perf/Results.py:165-229 | With the window inside a gap-free result, start, end and duration of the slice are those of the window |
| `SplitJoin.SplitOfJoin` | lnst/Common/Utils.py:236-248 | Splitting undoes joining for parts without the separator |
| `SplitJoin.JoinOfSplit` | lnst/Common/Utils.py:236-248 | Joining undoes splitting |
| `DotDict.RoundTripIff` | lnst/Common/Utils.py:227-286 | Folding the update over the dotted names rebuilds a dictionary, order included, if and only if its keys have no dots and it has no empty dictionary inside |
| `DotDict.NamesDistinct` | lnst/Common/Utils.py:269-286 | No dotted name is emitted twice |
| `DotDict.FlattenIsPaths` | lnst/Common/Utils.py:269-286 | The dotted names are the paths of the leaves, joined, in order |
| `DotDict.DictToDotLoop` | lnst/Common/Utils.py:269-286 | The recursive loop computes the flattening |
| `DotDict.UpdateLoop` | lnst/Common/Utils.py:227-234 | The loop computes the recursive update |
| `DotDict.RebuildIsInsertAll` | lnst/Common/Utils.py:227-248 | Rebuilding inserts one path after the other |
| `DotDict.UpdateWins` | lnst/Common/Utils.py:227-234 | After an update, along every path the text of the update is met if it has one, and else that of the original |
| `DotDict.UpdateRaisesIff` | lnst/Common/Utils.py:227-234 | The update raises if and only if it has something to put below a text of the original |
| `DotDict.UpdateKeepsOrder` | lnst/Common/Utils.py:227-234 | The keys of the original keep their places, and new ones come behind them |
| `Config.RoundTripIff` | lnst/Common/Config.py:274-294 | Parsing what was printed gives back every section with its options, in order, if and only if the names are words, the sections distinct and the values single trimmed lines |
| `Config.SkippedLinesDoNotMatter` | lnst/Common/Config.py:79-89 | Inserting a blank line or a comment anywhere leaves the parse as it is |
| `Config.ParsedIsGood` | lnst/Common/Config.py:91-120 | Whatever the text, a successful parse has words for names, single trimmed lines for values and no section twice |
| `Config.MatchAssignment` | lnst/Common/Config.py:96 | An option line splits at the blank behind the name |
| `Config.MatchOptionIff` | lnst/Common/Config.py:96 | An option line is matched exactly if it is a word, an operator, which is = or +=, and a value without leading white space, with nothing but white space between them; and those are what is matched |
| `Config.MatchSectionIff` | lnst/Common/Config.py:95 | A section line is matched exactly if it is a word in brackets |
| `Config.ParseFailsIff` | lnst/Common/Config.py:101-120 | A parse succeeds if and only if every line is a section not seen before or an option behind some section, and else fails with what is wrong with the first line that is not |
| `Config.UniversalLineEnd` | lnst/Common/Config.py:97-98 | A line end of any of the three kinds reads as a line feed, and the text around it as it is |
| `Config.ListValueSplits` | lnst/Common/Config.py:284-294 | The printed value of a list option splits into its texts again, if they have no blanks |
| `Config.ParseConfig` | lnst/Common/Config.py:91-120 | The loop computes the parse with its three errors |
| `Config.PreprocessLines` | lnst/Common/Config.py:79-89 | The loop drops comments and blank lines and strips the others |
| `Config.DumpConfig` | lnst/Common/Config.py:274-282 | The loops print section by section |
| `FirewallControl.AppendIdempotent` | lnst/RecipeCommon/FirewallControl.py:19-28 | The completion keeps the destination as a prefix and is idempotent for a fixed source |
| `FirewallControl.EmptyDestinationIff` | lnst/RecipeCommon/FirewallControl.py:4-28 | On an empty destination the completed text has exactly the tables and built-in chains of the source if and only if no table line ends a line of an earlier block |
| `FirewallControl.EmptyDestination` | lnst/RecipeCommon/FirewallControl.py:4-28 | In particular if table names have neither stars nor blanks |
| `FirewallControl.StarLosesTable` | lnst/RecipeCommon/FirewallControl.py:19-23 | A concrete save of which one table is lost |
| `FirewallControl.AllTablesFoundIff` | lnst/RecipeCommon/FirewallControl.py:4-28 | Whatever the destination, the completed text has all tables of a source with plain names if and only if every table met in it has a line of its own there, and it ends its last line or lacks no table |
| `FirewallControl.AlignedCompletion` | lnst/RecipeCommon/FirewallControl.py:4-28 | Extracting the completion of a destination that ends its last line gives its tables with their own chains, followed by the missing tables of a source with plain names with the chains of the source |
| `FirewallControl.OpenLineSwallows` | lnst/RecipeCommon/FirewallControl.py:24 | A concrete destination without a last line end that swallows a table: the completed text has none |
| `FirewallControl.TableFoundIff` | lnst/RecipeCommon/FirewallControl.py:4-17 | The extraction finds a table exactly when some line is its own |
| `FirewallChains.ChainsOfTable` | lnst/RecipeCommon/FirewallControl.py:7-17 | A table is extracted with the chains declared between its last line and the line of the next table |
| `FirewallChains.ChainOfIff` | lnst/RecipeCommon/FirewallControl.py:13-16 | A chain is counted exactly if its line has a name, a blank and a policy that is not the one of user-defined chains |
| `FirewallChains.ExtractFailsIff` | lnst/RecipeCommon/FirewallControl.py:7-17 | The extraction succeeds if and only if every colon line has a blank and no built-in chain comes before all tables, and else raises what is wrong with the first such line |
| `FirewallChains.AppendedLinesAccept` | lnst/RecipeCommon/FirewallControl.py:24-27 | Whatever is missing, every chain of an appended table has the policy to accept |
| `FirewallControl.ExtractRendered` | lnst/RecipeCommon/FirewallControl.py:4-17 | Extracting rendered blocks gives back their tables and chains |
| `FirewallControl.ExtractTablesNChains` | lnst/RecipeCommon/FirewallControl.py:4-17 | The loop computes the extraction, with `IndexError` and `KeyError` where the original raises them |
| `FirewallControl.AppendMissingParts` | lnst/RecipeCommon/FirewallControl.py:19-28 | The loop computes the completion |
| `AddressPool.IncAddsOne` | lnst/Common/NetUtils.py:99-105 | Counting adds one modulo 256 to the power of the length, which it keeps |
| `AddressPool.Pool.Drain` | lnst/Common/NetUtils.py:113-121 | For an end below the all-255 address successive calls return the addresses from start to end in increasing order, none of them twice, and then raise |
| `AddressPool.AddressesDistinct` | lnst/Common/NetUtils.py:113-147 | Different counter values are different address texts |
| `AddressPool.DrainedDistinct` | lnst/Common/NetUtils.py:113-121 | The addresses of consecutive counter values have no repetition |
| `AddressPool.ExhaustibleIff` | lnst/Common/NetUtils.py:113-116 | Some counter value exhausts the pool if and only if its end is not the all-255 address |
| `AddressPool.PoolStep` | lnst/Common/NetUtils.py:99-116 | Comparing the lists compares the numbers, and one step adds one |
| `AddressPool.Pool.IncNext` | lnst/Common/NetUtils.py:99-105 | The in-place recursion that shortens and extends the list computes the carry |
| `AddressPool.Pool.GetAddr` | lnst/Common/NetUtils.py:113-121 | Raises exactly behind the end and then changes nothing, else returns the address and steps on |
| `AddressPool.AddrRoundTrip` | lnst/Common/NetUtils.py:125-147 | Bytes survive the trip through their text, for hardware and internet addresses |
| `AddressPool.AddressIff` | lnst/Common/NetUtils.py:125-147 | A text is an address exactly if it has six parts of two hexadecimal digits between colons, or four decimal bytes between dots |
| `AddressPool.MacTextRoundTrip` | lnst/Common/NetUtils.py:125-134 | The text of a hardware address, split, parsed, printed and joined again, is the same if and only if it is in lower case |
| `AddressPool.IpTextRoundTrip` | lnst/Common/NetUtils.py:137-147 | The text of an internet address comes back exactly if no part has a needless zero in front |

## Left out

- The pool matcher: host names and hardware addresses that `get_mapping` copies from the pool, and `ContainerMapper`.
- MachineMapper.Mapper.Matches: the generator is drained in one call, so what a caller does between two reports (changing requirements or pools, giving up early) is not modelled; each resumption is a call of `MatchNext`.
- Device tracking: a move request is one step, whose parameter says whether the remote reads of `enable_readonly_cache` succeed; the original processes messages while it reads, between dropping the slot and making the entry, and a change message for that very slot would raise there. Filling the cache outside of a move is not modelled; netlink, RPC and waiting are steps; temporary (libvirt) devices, device properties and the contents of the read-only cache are not modelled. The reading of attributes from netlink messages is given by `Netlink`.
- DeviceProtocol.ReplicasAgree: devices created by the controller over RPC are in the identity runs only, because their messages are handled before the caller enters the result; a delivery that raises `MachineError` (a kernel move nobody requested) ends the run. A requested device object is any that the tables ever held.
- The secure channel: sockets, `select` and timeouts; connection setup, the DH, ssh and public-key handshakes; what the finished messages verify.
- CipherState.UnprotectProtect: what a payload unpickles to is given by its kind; AES, HMAC and pickle are function parameters with the inverse laws they need, and the padding check is the intended one over bytes (section 6.3 of RFC 5652), where the original handles byte strings in the Python 2 way.
- CipherState.OpensAtItsNumber: real signatures and hashes are not injective; the lemmas about them say what follows where they do not collide.
- Framing.StreamSocket.RecvFrame: lengths are plain decimal digits; signs, underscores and white space that `int` also accepts are an error in the model.
- PasswordHandshake.Handshake: messages are handed over as values, each method ends where the original waits for the peer; random values are arguments, SHA-256 and the group are parameters.
- PerfResults.SliceConserved: real numbers in place of floating point; zero durations and empty lists, `__add__`, standard deviations and averages of whole lists are not modelled.
- DotDict.RoundTripIff: dictionaries are values with ordered entries, so sharing between the update and the original is not captured; list and tuple values and the type conversion of leaves are left out. The moving references of `dot_to_dict` are modelled by the nested dictionary they build.
- Config.RoundTripIff: characters are ASCII as far as words and white space go; path expansion, option types, colours and the merging of parsed options into the configuration are left out.
- FirewallControl.AppendIdempotent: the nftables variant and running the commands are left out.
- AddressPool.AddrRoundTrip: the checks of whole address texts by pattern and by `inet_aton` are the ones on their parts.
- Job processes, the wizard, result formatting, recipes and device property setters are input and output or follow directly from their code.
