# Simulated NIC, PTP and DPLL kernel modules: a verified model

The repository holds kernel modules that simulate a network card with its clock hardware. This
project models the parts of them that carry real state logic and proves what they keep, over all
inputs, all failures and all runs. Every lock-protected entry point is one atomic step;
allocations, insertions, driver callbacks and clock readings that may go either way are
parameters, so each theorem holds for all of their outcomes.

| modules | what they model |
|---|---|
| `DpllGraph`, `DpllCounts`, `DpllCore` | the reference graph between DPLL devices and pins: what each operation does to its two halves, what every run keeps, and the objects, walks and rollbacks that carry it out in place |
| `DpllNetlink` | setting a value on all devices of a pin with rollback, availability, resumable dumps |
| `FibAccounting`, `Fib6Accounting`, `FibHolds`, `Nexthops` | route offload: the counters that a notifier charges and a worker corrects, the holds on kernel objects and the two indexes of installed routes, nexthop charging |
| `MockPhc`, `Extts`, `MockClock` | the mock PTP clock against an exact rational clock, its once-per-second timer, and both as an object |
| `EventTrace`, `EventQueue` | the drop-oldest timestamp rings behind readers with channel masks |
| `Nmea`, `Ubx`, `GnssLock`, `GnssDevice` | the GGA scanner, UBX framing and checksum, the lock-status machine over raw writes, and the receiver object |
| `Eswitch`, `EswitchDev` | eswitch mode, VF count and ports, with rollback |
| `Prelude`, `CInts` | ordered walks over index sets, 64-bit C arithmetic |

Code that changes state in place is a class whose methods are proved equal to a function of the
old state; the theorems are about those functions and about whole runs of them. Some classes keep
the abstract state in a ghost field that `Valid()` ties to the real fields.

What the proofs brought to light about the code:

- A set on all devices of a pin compares and rolls back with the first device's value only. Whichever
  devices refuse, it is all or nothing exactly when all devices have the new value already, or the
  first does not and all but the last agree with it (`AllOrNothingExactly`).
- The frequency check takes 32 bits of a 64-bit frequency: it answers correctly for every pin exactly
  below 2^32 (`NarrowFrequency`).
- Registering a triple twice, directly or through a parent, raises the count without a list entry;
  from then on the reference stays for good, whatever is unregistered (`DuplicateIsForGood`,
  `DuplicateUnderParentIsForGood`, `SurplusStays`). Its pin and device can then never be put for the
  last time lawfully; the puts check nothing, and one made all the same leaves the other end pointing
  to a freed object (`NoLawfulLastPut`, `LastPinPutExactly`).
- A replacement refused by the offload switch, or starved of memory, leaks its charge exactly when
  it should have replaced an entry or is followed by another replacement (`FailedReplaceCost`,
  `RefusedReplaceStays`, `RefusedReplaceLeaks`). A deletion that cannot be queued schedules a flush after which the counter
  is zero, whatever routes the kernel still holds (`FailedDeleteFlushes`).
- For IPv6 every deletion gives back a whole charge. Without failures the counter is right exactly
  until one names less than a whole route, or a source-prefixed route is repeated
  (`Fib6Accounting.BalancedExactly`). The deletion that cleans up after a refused multipath addition
  is of that kind: it gives back a charge nobody took, and the next route is accepted beyond the limit
  (`RefusedAdditionUndercharges`).
- The loop that charges nexthops counts in a C int: an object of more than 2^31 units is charged
  2^31 (`Nexthops.EventConserves`). A group of 32769 nexthops of weight 65536 is one; whether the kernel
  announces such groups is outside the repository (`GroupCanOverflow`).
- No pulse is ever lost exactly when timer callbacks start within less than 99 ms and are done within
  less than 100 ms (`PromptExactly`). A delay written while a pulse is due loses none exactly when
  the restarted timer, served at its latest, still runs in the same second (`RestartExactly`).
- Echoed NMEA text is mixed into the answers: the read side stays readable exactly when no echo holds
  a UBX sync pair (`EchoExactly`).
- Ports are looked up by index alone, so `del_port` deletes VF ports; a reload after a failed one
  forgets its ports; removing the VFs in switchdev mode leaves legacy mode behind (`StepKeepsInv`,
  `VfPortDeletedAsPhysical`, `VfPortForgottenByReload`, `VfRoundTrip`). The range check of `max_vfs` can never fire
  (`MaxVfsWithinRange`).
- Repeating a mask write while reception is already lost restarts the 30 s of holdover, also after
  they have run out (`RepeatedMaskRestarts`).

`dafny verify dfyconfig.toml` checks the whole project.

## Model

| member | source | states |
|---|---|---|
| `DpllGraph.DropOk` | dpll/dpll_core.c:127-152 | a reference is given up only with its last registration, and otherwise stays well formed |
| `DpllGraph.DropUndoesBump` | dpll/dpll_core.c:72-152 | adding and dropping a triple is the identity exactly when it was not listed before |
| `DpllGraph.AddedSlotted` | dpll/dpll_core.c:72-125 | a successful add lands in the target's own slot; a failed one changes nothing; a listed triple never fails |
| `DpllGraph.RemovedSlotted` | dpll/dpll_core.c:127-152 | a delete drops the triple in the target's slot and nothing else |
| `DpllGraph.RegisterPairAtomic` | dpll/dpll_core.c:603-623 | registering a pin on a device links both halves or leaves the whole graph as it was, wherever it fails |
| `DpllGraph.RegisterPairOutcome` | dpll/dpll_core.c:72-206 | when a registration succeeds and which missing allocation or occupied slot gives which error |
| `DpllGraph.RegistersExactly` | dpll/dpll_core.c:603-623 | with memory to spare it succeeds if and only if the pin's slot on the device is free or its own |
| `DpllGraph.UnregisterPairMeaning` | dpll/dpll_core.c:660-669 | unregistering removes the triple from both halves and clears the mark with the last device |
| `DpllGraph.PairRoundTrip` | dpll/dpll_core.c:603-669 | register then unregister restores the graph if and only if the triple was not registered before |
| `DpllGraph.LinkedKeepsInv` | dpll/dpll_core.c:603-623 | registering on any set of devices with free slots keeps the mirror invariant |
| `DpllGraph.UnlinkedKeepsInv` | dpll/dpll_core.c:660-669 | unregistering from any set of devices keeps it |
| `DpllGraph.UndoRestores` | dpll/dpll_core.c:731-754 | registering on some devices and undoing on those or more restores the graph if and only if none of the latter listed the triple |
| `DpllGraph.ParentRoundTrip` | dpll/dpll_core.c:711-781 | the parent table comes back after add and delete if and only if the triple was fresh there |
| `DpllGraph.OnPinUndoExact` | dpll/dpll_core.c:711-755 | when the walk over the parent's devices stops at a failing one, the call leaves the graph untouched if and only if neither the parent nor an earlier device listed the triple |
| `DpllGraph.OnPinFailureRestores` | dpll/dpll_core.c:711-755 | a failing registration through a parent of a fresh triple leaves the graph exactly as it was |
| `DpllGraph.OnPinSuccessLinks` | dpll/dpll_core.c:711-755 | a successful one adds the triple on exactly the parent's devices, in both halves, and changes no other link |
| `DpllGraph.OnPinOutcome` | dpll/dpll_core.c:711-755 | it succeeds if and only if the parent is a MUX, the callbacks are there, the parent can be recorded and every device of the parent accepts the pin |
| `DpllGraph.OnPinSucceedsExactly` | dpll/dpll_core.c:711-755 | with memory to spare: if and only if the parent's slot and the pin's slot on every device of the parent are free or their own |
| `DpllGraph.OnPinRecords` | dpll/dpll_core.c:727-730 | a success records the parent with the pin as cookie and takes a hold on the pin |
| `DpllGraph.OnPinKeepsInv` | dpll/dpll_core.c:711-755 | failed or not, it keeps the invariant |
| `DpllGraph.OnPinUnregisterKeepsInv` | dpll/dpll_core.c:767-781 | so does unregistering through a parent, which sweeps every device of the pin |
| `DpllGraph.OnPinRoundTrip` | dpll/dpll_core.c:711-781 | register and unregister through a parent restore the graph if and only if the triple was listed neither under the parent nor on any device of the pin |
| `DpllGraph.NextPair` | dpll/dpll_core.c:731-738 | one step of the walk registers one more device, and earlier steps do not change its outcome |
| `DpllGraph.NextUnpair` | dpll/dpll_core.c:744-749 | one step of the rollback takes exactly one more device back |
| `DpllGraph.StepKeepsInv` | dpll/dpll_core.c:72-781 | every operation on devices, pins and registrations keeps the invariant |
| `DpllGraph.RunKeepsInv` | dpll/dpll_core.c:72-781 | so does every run, failed and duplicate registrations included |
| `DpllGraph.PinRegisterOutcome` | dpll/dpll_core.c:637-657 | refused for missing callbacks or a foreign device, otherwise registered if and only if the slot is free |
| `DpllGraph.PinRoundTrip` | dpll/dpll_core.c:637-693 | register and unregister restore the graph if and only if the triple was fresh and the pin has no parents |
| `DpllGraph.PinUnregisterRefused` | dpll/dpll_core.c:681-693 | an unregistration changes something if and only if the triple is listed and the pin has no parents |
| `DpllGraph.DeviceRegisterOutcome` | dpll/dpll_core.c:356-398 | the refusals in their order, and the entry a success adds |
| `DpllGraph.DeviceUnregisterOutcome` | dpll/dpll_core.c:411-433 | exactly the named registration is taken away |
| `DpllGraph.DeviceRoundTrip` | dpll/dpll_core.c:356-433 | register and unregister restore the graph |
| `DpllGraph.DeviceGetPut` | dpll/dpll_core.c:283-326 | a get holds the device of that clock, index and module once more or creates it, and a put takes exactly that back |
| `DpllGraph.PinGetPut` | dpll/dpll_core.c:557-600 | the same for pins |
| `DpllGraph.LastPinPutExactly` | dpll/dpll_core.c:589-600 | the last put of a pin, which checks nothing, keeps the graph whole if and only if the pin is on no device and no other pin's parent |
| `DpllGraph.LastDevicePutExactly` | dpll/dpll_core.c:314-326 | the last put of a device does if and only if it has no pins |
| `DpllGraph.EveryRunMirrors` | dpll/dpll_core.c:72-433 | after any run a device refers to a pin exactly when the pin refers to the device, with the same list and count, stored under the pin's own index; counts cover the lists; a pin is marked exactly when it has a device, a device exactly when it has a registration |
| `DpllCounts.StepExact` | dpll/dpll_core.c:72-781 | counts stay equal to list lengths if and only if the operation records no triple, even one it takes back, where it is listed already |
| `DpllCounts.RunExact` | dpll/dpll_core.c:72-781 | in every state of a run every count equals the length of its list if and only if the run registers no triple twice |
| `DpllCounts.SurplusStays` | dpll/dpll_core.c:86-90 | in every lawful run what a count has beyond its list never shrinks, and the reference and both its objects stay |
| `DpllCounts.NoLawfulLastPut` | dpll/dpll_core.c:589-600 | for the objects at the ends of such a reference no lawful last put exists, and an unlawful one breaks the graph |
| `DpllCounts.ParentSurplusStays` | dpll/dpll_core.c:711-781 | as long as a pin lives, the same holds of its parent table |
| `DpllCounts.DuplicateIsForGood` | dpll/dpll_core.c:86-90 | a triple registered where it is listed already keeps its reference through every later run |
| `DpllCounts.DuplicateUnderParentIsForGood` | dpll/dpll_core.c:711-755 | so does a registration through a parent, successful or taken back, on every device it recorded where the triple was listed |
| `DpllCounts.ReferenceEndsWithItsLastTriple` | dpll/dpll_core.c:127-152 | after such a run an unregistration ends the reference exactly when it removes the only triple, in both halves |
| `DpllCore.RegistrationFind` | dpll/dpll_core.c:57-70 | finds the first registration equal in ops, priv and cookie |
| `DpllCore.RefFind` | dpll/dpll_core.c:83-85 | the walk over a table stops at the least slot pointing to the target |
| `DpllCore.RefAdd` | dpll/dpll_core.c:72-125 | adds a registration, creating the reference if needed, with its failures |
| `DpllCore.RefDel` | dpll/dpll_core.c:127-152 | removes one, freeing the reference with the last |
| `DpllCore.DpllSubsystem.RegisterPair` | dpll/dpll_core.c:603-623 | in place: both tables and the mark change as the graph operation says, with the undo of the device half |
| `DpllCore.DpllSubsystem.UnregisterPair` | dpll/dpll_core.c:660-669 | in place: both halves and the mark |
| `DpllCore.DpllSubsystem.PinRegister` | dpll/dpll_core.c:637-657 | checks of callbacks and owner, then the pair registration |
| `DpllCore.DpllSubsystem.PinUnregister` | dpll/dpll_core.c:681-693 | refused on an empty device or a pin with parents |
| `DpllCore.DpllSubsystem.RegisterWalk` | dpll/dpll_core.c:731-738 | the walk registers on the parent's devices in ascending order up to the first failure |
| `DpllCore.DpllSubsystem.UndoWalk` | dpll/dpll_core.c:743-749 | the rollback walk undoes exactly the devices before the failing one |
| `DpllCore.DpllSubsystem.OnPinRegister` | dpll/dpll_core.c:711-755 | the whole call on objects equals the graph operation, error code included |
| `DpllCore.DpllSubsystem.OnPinUnregister` | dpll/dpll_core.c:767-781 | the sweep over a table that shrinks under the walk equals the graph operation |
| `DpllCore.DpllSubsystem.DeviceGet` | dpll/dpll_core.c:283-303 | finds the object of that clock id, index and module, or creates it |
| `DpllCore.DpllSubsystem.DevicePut` | dpll/dpll_core.c:314-326 | the last put removes the device |
| `DpllCore.DpllSubsystem.DeviceRegister` | dpll/dpll_core.c:356-398 | refuses a second registration, marks with the first |
| `DpllCore.DpllSubsystem.DeviceUnregister` | dpll/dpll_core.c:411-433 | clears the mark with the last registration |
| `DpllCore.DpllSubsystem.PinGet` | dpll/dpll_core.c:483-578 | finds or creates the pin, with the error of each failing step |
| `DpllCore.DpllSubsystem.PinPut` | dpll/dpll_core.c:589-600 | the last put removes the pin |
| `DpllNetlink.IsFreqSupported` | dpll/dpll_netlink.c:355-364 | tells whether the frequency modulo 2^32 lies in a supported range |
| `DpllNetlink.NarrowFrequency` | dpll/dpll_netlink.c:355-364 | the check is right for every pin if and only if the frequency is below 2^32; on a pin with 32-bit ranges if and only if it is, or no range holds its low 32 bits |
| `DpllNetlink.PinDriver.SetAll` | dpll/dpll_netlink.c:703-748 | validation, reading of the first value, setting in order and rollback: the resulting values and the values ever offered to a driver |
| `DpllNetlink.PinDriver.SetWalk` | dpll/dpll_netlink.c:722-733 | sets devices in order up to the first refusal |
| `DpllNetlink.PinDriver.UndoWalk` | dpll/dpll_netlink.c:738-747 | gives the first device's value to the devices before the refusing one, where the driver lets it |
| `DpllNetlink.PinDriver.PhaseAdjSet` | dpll/dpll_netlink.c:874-944 | an out-of-range adjustment reaches no driver; otherwise the outcome is that of the shared set |
| `DpllNetlink.PinDriver.FreqSet` | dpll/dpll_netlink.c:687-749 | the same for frequencies, with the narrowed check |
| `DpllNetlink.SetSuccessExact` | dpll/dpll_netlink.c:710-736 | success leaves every device at the new value if and only if the first one was not there already or all were |
| `DpllNetlink.SetFailureExact` | dpll/dpll_netlink.c:722-748 | a refusal with working rollback restores all values if and only if the devices before it agreed with the first |
| `DpllNetlink.AllOrNothingExactly` | dpll/dpll_netlink.c:687-749 | for all choices of refusing devices at once: a set is all or nothing if and only if all devices are at the new value, or the first is not and all but the last agree with it |
| `DpllNetlink.SetTransactional` | dpll/dpll_netlink.c:687-749 | from one common value: all at the new value or all at the old, and success exactly when no device refuses |
| `DpllNetlink.PinAvailable` | dpll/dpll_netlink.c:583-599 | the two scans decide availability |
| `DpllNetlink.AvailableExactly` | dpll/dpll_netlink.c:583-599 | in a reachable graph: on a device, and one of its devices is registered or one of its parents is on a device |
| `DpllNetlink.AvailableHasDevice` | dpll/dpll_netlink.c:583-599 | in a reachable graph an available pin has a first device to ask |
| `DpllNetlink.WantedMeaning` | dpll/dpll_netlink.c:1230-1233 | what a dump owes is every shown object from the index on, ascending |
| `DpllNetlink.DumpContext.DumpIt` | dpll/dpll_netlink.c:1221-1256 | one call delivers the longest prefix that fits and stores where to resume; a driver error ends it after a part of that prefix |
| `DpllNetlink.DeliverPrefix` | dpll/dpll_netlink.c:1230-1254 | that prefix fits, and the next message would not |
| `DpllNetlink.DeliversUnique` | dpll/dpll_netlink.c:1230-1254 | and nothing else is a longest fitting prefix |
| `DpllNetlink.DumpExact` | dpll/dpll_netlink.c:1398-1430 | over any buffer sizes the concatenated calls list everything owed if and only if no reached call is too small for its first message |
| `DpllNetlink.DumpAll` | dpll/dpll_netlink.c:1221-1256 | a client that repeats the call receives exactly that concatenation, or, when a driver refuses, the part before the refused object |
| `DpllNetlink.DumpComplete` | dpll/dpll_netlink.c:1221-1256 | with buffers that hold any one message every shown object is listed exactly once, in order |
| `DpllNetlink.PinDumpComplete` | dpll/dpll_netlink.c:1221-1256 | a pin dump lists exactly the available pins, each with a device |
| `FibAccounting.HitsOfEntry` | netdevsim/fib.c:411-440 | one more entry in the table is one more refund to come exactly when the next queued event on its key is a replacement |
| `FibAccounting.NotifyBalances` | netdevsim/fib.c:896-933 | a notification keeps the balance and is refused exactly at the limit |
| `FibAccounting.WorkBalances` | netdevsim/fib.c:411-454 | so does the worker on any event, and its refund never goes below zero |
| `FibAccounting.NotifiedExactly` | netdevsim/fib.c:896-1024 | what a notification does to counter, kernel, queue and flush, in every outcome |
| `FibAccounting.WorkedExactly` | netdevsim/fib.c:356-454 | what the worker does to table and counter, with each fault |
| `FibAccounting.FlushedExactly` | netdevsim/fib.c:1500-1516 | what a flush leaves |
| `FibAccounting.EveryInterleavingBalances` | netdevsim/fib.c:227-454 | for every interleaving of notifier and worker without failures: the counter is the kernel's routes plus the queued replacements that will hit, it stays within the limit, draining yields the kernel's routes, and an empty queue means counter = table size |
| `FibAccounting.LedgerExact` | netdevsim/fib.c:896-1024 | for every run whatever, all failures and flushes included: the counter is the kernel's routes plus the replacements that will hit plus the prices of the steps |
| `FibAccounting.NotifiedCost` | netdevsim/fib.c:896-1024 | what an accepted, refused or unqueued notification costs |
| `FibAccounting.FailedReplaceCost` | netdevsim/fib.c:411-440 | the exact charge every kind of failed replacement leaks or overpays, also with nothing left to give back |
| `FibAccounting.FailedDeleteFlushes` | netdevsim/fib.c:1018-1023 | a deletion that cannot be queued ends, after the flush it schedules, with counter and table empty whatever the kernel holds |
| `FibAccounting.LeaksStay` | netdevsim/fib.c:417-424 | without a flush or a failed hash operation the excess of charges never falls, over any run |
| `FibAccounting.RefusedReplaceStays` | netdevsim/fib.c:417-424 | a replacement refused while its route is installed is charged too much after every such later run |
| `FibAccounting.RefusedReplaceLeaks` | netdevsim/fib.c:417-424 | one such leak, which blocks every further route below the limit |
| `FibAccounting.FibCounter.Account` | netdevsim/fib.c:227-239 | charges fail at the limit, refunds stop at zero |
| `FibAccounting.FibCounter.NotifyEvent` | netdevsim/fib.c:896-1024 | charge and enqueue, with lost events and refused deletions |
| `FibAccounting.FibCounter.FlushWork` | netdevsim/fib.c:1500-1516 | every entry is freed and given back |
| `FibAccounting.FibCounter.Splice` | netdevsim/fib.c:1485-1487 | taking the whole queue changes nothing observable |
| `FibAccounting.FibCounter.WorkOne` | netdevsim/fib.c:1490-1496 | one event applied to the table |
| `FibAccounting.FibCounter.Insert` | netdevsim/fib.c:356-440 | when an insertion keeps, refunds or leaks its charge |
| `FibAccounting.FibCounter.EventWork` | netdevsim/fib.c:1477-1498 | a work item applies every queued event with its own luck; without failures it ends with table = kernel routes and counter = table size |
| `FibAccounting.WorkedOff` | netdevsim/fib.c:1477-1498 | the n oldest events applied without failures keep the balance, and all of them leave table and counter at what the kernel holds |
| `Fib6Accounting.EvolveIsWorked` | netdevsim/fib.c:604-878 | what the model makes of a route's nexthops is what the driver's held objects say, source prefixes and failures included |
| `Fib6Accounting.ReplaceWorked` | netdevsim/fib.c:681-767 | the worker passes over routes with a source prefix and installs the others, with the refunds of each fault |
| `Fib6Accounting.AppendWorked` | netdevsim/fib.c:604-640 | it extends a known route without a source prefix |
| `Fib6Accounting.DeleteWorked` | netdevsim/fib.c:769-797 | it removes a route when as many nexthops are named as it has, and reduces it otherwise |
| `Fib6Accounting.NotifiedExactly` | netdevsim/fib.c:935-1024 | what a notification does to counter, kernel, queue and flush, in every outcome |
| `Fib6Accounting.FlushedExactly` | netdevsim/fib.c:1500-1516 | what a flush leaves |
| `Fib6Accounting.HitsOfRoute` | netdevsim/fib.c:736-797 | two states of one route differ in refunds to come by whether they survive to the next replacement |
| `Fib6Accounting.StepPrice` | netdevsim/fib.c:935-1024 | what each notification, worker step and flush does to the balance, lost events, refused deletions, failing installations and clean-up deletions included |
| `Fib6Accounting.SmoothPrice` | netdevsim/fib.c:769-797 | of the failure-free steps exactly two kinds cost: a deletion of less than a whole route with something to give back, and a repeated source-prefixed route |
| `Fib6Accounting.EveryRunPriced` | netdevsim/fib.c:845-1024 | for every run whatever: the counter is the kernel's routes plus pending hits plus the prices paid, and every state is balanced if and only if no step has a price |
| `Fib6Accounting.BalancedExactly` | netdevsim/fib.c:845-975 | for every failure-free interleaving draining yields the kernel's routes without a source prefix, and every state is balanced if and only if no step is of the two costly kinds |
| `Fib6Accounting.RefusedAdditionUndercharges` | netdevsim/fib.c:774-779 | the deletion after a refused multipath addition gives back a charge nobody took, and the limit is then exceeded |
| `Fib6Accounting.Fib6Counter.NotifyEvent` | netdevsim/fib.c:935-1024 | charge and enqueue in place, with lost events and refused deletions |
| `Fib6Accounting.Fib6Counter.WorkOne` | netdevsim/fib.c:845-878 | the worker's step on table and counter, with its failures |
| `Fib6Accounting.Fib6Counter.Insert` | netdevsim/fib.c:681-767 | when an insertion keeps, refunds or leaks its charge |
| `Fib6Accounting.Fib6Counter.Remove` | netdevsim/fib.c:769-797 | a deletion that names as many nexthops as the route has deletes it, any other reduces it |
| `Fib6Accounting.Fib6Counter.FlushWork` | netdevsim/fib.c:1500-1516 | every entry is freed and given back |
| `FibHolds.WorkedMeaning` | netdevsim/fib.c:411-878 | what any event that meets no failure leaves under its key, deletions in any case and ignored events included, and that no other key is disturbed |
| `FibHolds.InstalledExactly` | netdevsim/fib.c:411-767 | a replacement is installed if and only if no step fails and an IPv6 route has no source prefix |
| `FibHolds.ExtendedExactly` | netdevsim/fib.c:604-640 | an append takes effect if and only if the route is a known IPv6 route without a source prefix and no step fails |
| `FibHolds.DeletedExactly` | netdevsim/fib.c:442-797 | what a deletion takes away |
| `FibHolds.WorkedDistinct` | netdevsim/fib.c:411-878 | keys stay distinct, failures included |
| `FibHolds.FailedAppendKeeps` | netdevsim/fib.c:624-640 | the rollback of an append that runs out of memory leaves the same objects held |
| `FibHolds.FailureKeepsObjects` | netdevsim/fib.c:411-767 | a replace or append failing at any point leaves the objects under every key as they were |
| `FibHolds.FibRoutes.NhDel` | netdevsim/fib.c:522-536 | removes the first record of an object with its hold, count kept |
| `FibHolds.FibRoutes.NhAddAll` | netdevsim/fib.c:624-640 | adds all records or rolls back, and the route's holds are its records throughout |
| `FibHolds.FibRoutes.Create` | netdevsim/fib.c:538-576 | a new route holding its objects stands in the list, or nothing has changed |
| `FibHolds.FibRoutes.Destroy` | netdevsim/fib.c:578-587 | a route leaves the list with all its holds |
| `FibHolds.FibRoutes.Insert` | netdevsim/fib.c:356-440 | list and hash table hold the same routes and holds balance on every path, hash failures included |
| `FibHolds.FibRoutes.AppendTo` | netdevsim/fib.c:604-640 | the same for appends |
| `FibHolds.FibRoutes.Remove` | netdevsim/fib.c:769-797 | whole and partial deletes |
| `FibHolds.FibRoutes.Work` | netdevsim/fib.c:880-894 | an event is applied and then gives up exactly its own holds |
| `FibHolds.FibRoutes.Enqueue` | netdevsim/fib.c:896-1024 | an accepted event takes its holds, a refused one none |
| `FibHolds.FibRoutes.Flush` | netdevsim/fib.c:1049-1087 | freeing all routes leaves only the holds of queued events |
| `Nexthops.EventConserves` | netdevsim/fib.c:1256-1294 | an event, refused or failed ones included, keeps the counter at the sum of occupancies if and only if it does not overflow the charging loop; a failed one changes nothing; the underflow warning never fires |
| `Nexthops.HandledExactly` | netdevsim/fib.c:1198-1294 | which events succeed, how the others are refused, and the table afterwards |
| `Nexthops.UnitsAre` | netdevsim/fib.c:1127-1146 | one unit for a single nexthop, the sum of weights for a group, the buckets of a resilient one, none for other kinds |
| `Nexthops.RunConserves` | netdevsim/fib.c:1256-1350 | every state of a run is conserved if and only if no event of it overflows |
| `Nexthops.GroupCanOverflow` | netdevsim/fib.c:1112-1181 | the smallest group of 16-bit counts and weights that overflows |
| `Nexthops.RefusedExactly` | netdevsim/fib.c:1256-1278 | after every such run a replacement is refused exactly when table plus new object exceed the limit |
| `Nexthops.NexthopData.Account` | netdevsim/fib.c:1156-1181 | unit-step charging with its C int counter succeeds exactly when the units it counts fit, and otherwise leaves the counter unchanged |
| `Nexthops.NexthopData.Create` | netdevsim/fib.c:1112-1149 | occupancy of an object, the weights of a group summed in a loop |
| `Nexthops.NexthopData.HandleEvent` | netdevsim/fib.c:1198-1294 | the event in place |
| `MockPhc.AcceptedIsBounded` | include/linux/ptp_clock_kernel.h:233-252 | for all 64-bit frequencies, wrap-around included: what the core accepts the driver dials within 5*10^8 ppb and within one ppb of the core's value |
| `MockPhc.AcceptedExactly` | include/linux/ptp_clock_kernel.h:233-252 | the exact interval of accepted scaled frequencies and the value of the core's conversion, where nothing wraps |
| `MockPhc.DialledExactly` | ptp/ptp_mock.c:68 | the driver dials the scaled value cut towards zero |
| `MockPhc.DriftAccurate` | ptp/ptp_mock.c:46-59 | a reading's drift is right to less than a nanosecond if and only if the product fits 64 bits |
| `MockPhc.GapIsExact` | ptp/ptp_mock.c:46-59 | the longest safe gap between readings, to the nanosecond |
| `MockPhc.DriftBound` | ptp/ptp_mock.c:46-59 | drift never exceeds half the elapsed time, wrap-around included |
| `MockPhc.RunTracks` | ptp/ptp_mock.c:46-118 | under any interleaving the clock differs from the exact rational clock by less than one ns per reading since it was set |
| `MockPhc.RunAdvances` | ptp/ptp_mock.c:46-72 | without setting or offsets it advances between half and one and a half times the elapsed time, for any gaps |
| `MockPhc.SetThenGet` | ptp/ptp_mock.c:87-118 | a clock set to a time and then read any number of times reads that time plus elapsed, exactly |
| `MockPhc.AdjustmentsAtAnInstant` | ptp/ptp_mock.c:61-102 | a frequency change causes no jump, an offset exactly its own |
| `Extts.StepPaced` | ptp/ptp_mock.c:46-271 | every timer, enable, harmless delay and clock step, adjustments included, keeps the next callback within its second |
| `Extts.RunPaced` | ptp/ptp_mock.c:46-271 | over every run |
| `Extts.OnePulsePerSecond` | ptp/ptp_mock.c:144-189 | in every run, clock adjustments included, exactly one event for every TAI second after the enabling one that is over, in order |
| `Extts.PulsesSinceEnabling` | ptp/ptp_mock.c:144-237 | counted from an enabling at any point of any run, event i is for the i-th second after it, and there is one for every second that has passed |
| `Extts.DisabledIsSilent` | ptp/ptp_mock.c:229-231 | once the pulses are switched off no event comes until they are enabled anew |
| `Extts.DelayInForce` | ptp/ptp_mock.c:248-271 | the delay last accepted is the one every later event is stamped with |
| `Extts.StoreTakesEffect` | ptp/ptp_mock.c:248-271 | delays up to 900 ms are accepted and restart the timer a millisecond ahead, others change nothing |
| `Extts.PromptExactly` | ptp/ptp_mock.c:144-189 | that holds for all runs of a clock created at a time of zero or later if and only if latency is below 99 ms and latency plus duration below 100 ms |
| `Extts.SlowWorldSkips` | ptp/ptp_mock.c:144-189 | for every world outside the bound, a legal run from creation, at a time of zero or later, that skips a second |
| `Extts.RestartExactly` | ptp/ptp_mock.c:248-271 | a delay restart loses no pulse in any continuation if and only if the pulse is out or the restarted timer at its latest still runs in the second |
| `Extts.LostForGood` | ptp/ptp_mock.c:161-180 | a second that is over without its event never gets it |
| `Extts.StampExact` | ptp/ptp_mock.c:170-175 | a stamp is the second plus the delay plus only the time between the callback's own two readings |
| `Extts.EveryPulseExact` | ptp/ptp_mock.c:144-228 | until the clock is adjusted, whatever happens to the delay, every stamp is the second plus the delay in force, off by at most the slowest pair of readings; exact when readings take no time |
| `MockClock.Clock.ReadLocked` | ptp/ptp_mock.c:46-59 | the reading in place |
| `MockClock.Clock.AdjFine` | ptp/ptp_mock.c:61-72 | reads at the old frequency, then dials the new one |
| `MockClock.Clock.AdjTime` | ptp/ptp_mock.c:74-85 | reads, then offsets |
| `MockClock.Clock.SetTime` | ptp/ptp_mock.c:87-102 | restarts the clock at a time with no frequency |
| `MockClock.Clock.GetTime` | ptp/ptp_mock.c:104-118 | the time shown after a reading |
| `MockClock.Clock.ExttsTimer` | ptp/ptp_mock.c:144-189 | the timer callback in place |
| `MockClock.Clock.Enable` | ptp/ptp_mock.c:197-237 | enabling parks the clock at TAI; a wrong channel changes nothing |
| `MockClock.Clock.DelayStore` | ptp/ptp_mock.c:248-271 | the delay attribute and the restart it causes |
| `MockClock.PtpClock.AdjTime` | ptp/ptp_clock.c:123-178 | the core's dispatch and checks, for any conversion of the kernel's from seconds to time; the frequency limit is kept |
| `EventTrace.SplitExact` | ptp/ptp_clock.c:56-57 | the split into seconds and nanoseconds is the only one of that timestamp |
| `EventTrace.RingKeepsLatest` | ptp/ptp_clock.c:47-88 | a queue holds the latest accepted events, at most 127; delivered ones come in order, none twice, each an accepted event |
| `EventTrace.LostExactly` | ptp/ptp_clock.c:81-85 | an event that left the queue was delivered or dropped, never both, and dropped exactly when 127 later ones were accepted while it was unread |
| `EventTrace.PromptReaderMissesNothing` | ptp/ptp_clock.c:47-88 | a reader never letting 127 events wait gets all of them |
| `EventTrace.LiveIs` | ptp/ptp_chardev.c:107-157 | which queues are open follows from openings and releases alone |
| `EventTrace.MaskIs` | ptp/ptp_chardev.c:502-516 | which of the 2048 channels an open queue listens to follows from the history alone: all from its opening, none after clearing, each again when enabled |
| `EventTrace.QueuesAreSeparate` | ptp/ptp_clock.c:448-454 | in every run of a clock each queue is the FIFO of the events on channels its history had on at the time and of its own reads |
| `EventTrace.TakenCount` | ptp/ptp_chardev.c:622-631 | a taking hands over exactly as many as asked for and there |
| `EventTrace.ReadsAreDelivered` | ptp/ptp_chardev.c:594-633 | reads return what that FIFO delivers |
| `EventTrace.EveryReaderIsServed` | ptp/ptp_chardev.c:594-633 | end to end, for every reader of every run and by the number of each event: order, no repetition, what is pending and where, what is lost |
| `EventQueue.TimestampQueue.Cnt` | ptp/ptp_private.h:89-97 | the count leads from head to tail around the ring |
| `EventQueue.TimestampQueue.Enqueue` | ptp/ptp_clock.c:47-88 | the ring with head and tail refines the drop-oldest list |
| `EventQueue.TimestampQueue.Dequeue` | ptp/ptp_chardev.c:620-633 | takes the oldest events, as many as fit and are there |
| `EventQueue.TimestampQueue.Read` | ptp/ptp_chardev.c:580-647 | error cases and result of a read: the least of the events that fit, thirty, and those pending; events that cannot be copied out are gone |
| `EventQueue.PtpClock.Open` | ptp/ptp_chardev.c:107-140 | a new queue at the end of the list, all channels on, or nothing when an allocation fails |
| `EventQueue.PtpClock.Release` | ptp/ptp_chardev.c:142-157 | unlinks one queue |
| `EventQueue.PtpClock.Event` | ptp/ptp_clock.c:433-455 | exactly the queues listening on the channel get the event |
| `EventQueue.PtpClock.Read` | ptp/ptp_chardev.c:580-647 | a read touches its own queue only |
| `EventQueue.PtpClock.FifoShow` | ptp/ptp_sysfs.c:73-108 | the sysfs reader draws one event from the first queue; for an empty queue it returns the number of queues |
| `EventQueue.PtpClock.MaskClearAll` | ptp/ptp_chardev.c:502-504 | all channels off for one reader |
| `EventQueue.PtpClock.MaskEnSingle` | ptp/ptp_chardev.c:506-516 | one channel on, out-of-range refused |
| `Nmea.ScanGga` | netdevsim/dpll.c:507-534 | the scanner stays in bounds and returns the digit after the fifth comma of the first GGA header, unless the sentence ends first |
| `Nmea.ScanFields` | netdevsim/dpll.c:523-556 | the comma-counting loop |
| `Nmea.QualityExactly` | netdevsim/dpll.c:507-556 | it is reported if and only if, after the first "$xxGGA,", the fifth comma comes before any '*' or '$' and is followed by that digit |
| `Nmea.ShortHeader` | netdevsim/dpll.c:512-519 | headers the scanner gives up on for want of room have no quality field |
| `Nmea.PrintedQualityIsRead` | netdevsim/dpll.c:496-534 | from any printed GGA sentence after any text without a GGA header the scanner recovers the quality |
| `Ubx.ComputeChecksum` | netdevsim/dpll.c:287-298 | the two running bytes are the sum and the weighted sum modulo 256 |
| `Ubx.ByteChangeDetected` | netdevsim/dpll.c:287-298 | every one-byte change alters the checksum |
| `Ubx.SwapDetected` | netdevsim/dpll.c:287-298 | a swap is detected if and only if distance times difference is no multiple of 256; adjacent unequal bytes always |
| `Ubx.BuildFrame` | netdevsim/dpll.c:308-332 | writes the frame and nothing beyond it, or nothing at all |
| `Ubx.FramesAreChecked` | netdevsim/dpll.c:327-329 | every built frame ends in the sum and the weighted sum of what a receiver checks |
| `Ubx.ChangeIsCaught` | netdevsim/dpll.c:287-332 | no change of a byte after the sync pair of a built frame passes that check |
| `Ubx.SwapIsCaught` | netdevsim/dpll.c:287-332 | nor does a swap of unequal neighbours |
| `Ubx.AckBytes` | netdevsim/dpll.c:376-382 | an acknowledgement byte by byte |
| `Ubx.Parse` | scripts/test-gnss-ubx.sh:93-104 | the frame scan |
| `Ubx.FrameScanned` | scripts/test-gnss-ubx.sh:93-104 | a built frame at the front is found whole and the scan goes on behind it |
| `Ubx.StreamIsSplit` | scripts/test-gnss-ubx.sh:93-104 | any sequence of built frames, with sync-free bytes between and after, is split back into the same classes, ids and payloads |
| `Ubx.ScanValset` | netdevsim/dpll.c:664-702 | the key scan finds the first interference key's value |
| `Ubx.LittleEndian` | netdevsim/dpll.c:300-306 | words go least significant byte first |
| `Ubx.BuiltValsetIsRead` | netdevsim/dpll.c:664-702 | from a built CFG-VALSET frame of one-byte values it recovers that value |
| `GnssLock.HistoryDecides` | netdevsim/dpll.c:142-245 | in every reachable state: blocked implies no fix, no fix implies holdover or free-running with the timer due 30 s after the last loss, an armed timer implies holdover, and good reception implies the selected status |
| `GnssLock.FixFollows` | netdevsim/dpll.c:484-494 | the fix after any history: none for quality 0 or a mask, 1 for quality 6, 3 for any other and after a cleared mask |
| `GnssLock.WordsTakeEffect` | netdevsim/dpll.c:219-244 | what each word does while reception is good, and that any other text is refused |
| `GnssLock.OutageTimeline` | netdevsim/dpll.c:151-177 | an unrestored loss is in holdover for 30 s and free-running once the timer had time to be served |
| `GnssLock.RepeatedMaskRestarts` | netdevsim/dpll.c:685-688 | within a loss, free-running returns to holdover if and only if a mask is repeated, for another 30 s |
| `GnssLock.RestoredIsLocked` | netdevsim/dpll.c:179-187 | restored reception is locked with the timer off |
| `GnssLock.LossEndsExactly` | netdevsim/dpll.c:536-552 | which single events end a loss, in both directions |
| `GnssLock.WordsPowerless` | netdevsim/dpll.c:227-233 | while a loss lasts, sysfs writes can be struck from the history without a trace |
| `GnssLock.MaskHolds` | netdevsim/dpll.c:599-611 | no NMEA sentence and no sysfs word ends a mask |
| `GnssLock.PrintedSentenceReports` | netdevsim/dpll.c:599-611 | a written printed sentence reports its own quality |
| `GnssLock.BuiltValsetRules` | netdevsim/dpll.c:662-702 | a written built CFG-VALSET masks or unmasks by its first interference key |
| `GnssDevice.ReadSideSplits` | netdevsim/dpll.c:437-445 | the read side, echoes without sync pairs and answers mixed, splits back into exactly the answers |
| `GnssDevice.EchoExactly` | netdevsim/dpll.c:607-612 | an echo leaves every continuation of the read side readable if and only if it holds no sync pair |
| `GnssDevice.PollReportsLoss` | netdevsim/dpll.c:384-398 | after any history a NAV-STATUS poll reports the fix that follows from it, and none exactly while reception is lost |
| `GnssDevice.AnswersExactly` | netdevsim/dpll.c:632-747 | which commands are answered, and with what, and which switch the reports on, byte by byte |
| `GnssDevice.StatusPayload` | netdevsim/dpll.c:384-398 | the fields of NAV-STATUS |
| `GnssDevice.ClockPayload` | netdevsim/dpll.c:400-413 | the fields of NAV-CLOCK |
| `GnssDevice.MonPayloads` | netdevsim/dpll.c:347-374 | the contents of MON-HW and MON-VER |
| `GnssDevice.Gnss.EnterHoldover` | netdevsim/dpll.c:168-177 | in place, timer restarted |
| `GnssDevice.Gnss.EnterLocked` | netdevsim/dpll.c:179-187 | in place, timer cancelled |
| `GnssDevice.Gnss.HoldoverTimer` | netdevsim/dpll.c:151-166 | the expiry |
| `GnssDevice.Gnss.LockStatusStore` | netdevsim/dpll.c:210-245 | the sysfs write, its error and when it is ignored |
| `GnssDevice.Gnss.ParseGga` | netdevsim/dpll.c:507-558 | the scan and the lock changes it drives |
| `GnssDevice.Gnss.InsertReply` | netdevsim/dpll.c:376-413 | every answer fits its buffer and is queued whole |
| `GnssDevice.Gnss.WriteRaw` | netdevsim/dpll.c:591-750 | dispatch of a raw write: lock state, answer, echo and report switch |
| `GnssDevice.Gnss.HandleCommand` | netdevsim/dpll.c:626-747 | the branch for UBX commands |
| `GnssDevice.Gnss.UbxTimer` | netdevsim/dpll.c:447-472 | periodic reports carry the current fix and stay on their one-second grid until closed |
| `GnssDevice.Gnss.EnableNav` | netdevsim/dpll.c:562-579 | starts the reports once |
| `GnssDevice.Gnss.Close` | netdevsim/dpll.c:581-589 | stops them |
| `Eswitch.EnableExact` | netdevsim/dev.c:598-620 | enabling succeeds exactly when every VF port can be created, and otherwise changes nothing |
| `Eswitch.AddVfsMeaning` | netdevsim/dev.c:604-611 | the loop adds exactly the ports before the first that cannot be created |
| `Eswitch.StepSound` | netdevsim/dev.c:1354-1808 | any call with any failure keeps ports distinct, VF ports within mode and count, and the count within the limit |
| `Eswitch.StepKeepsInv` | netdevsim/dev.c:1677-1808 | the eswitch invariant survives a call if and only if it is none of the two that lose VF ports |
| `Eswitch.InvariantExactly` | netdevsim/dev.c:584-636 | every state of a run satisfies it if and only if no such call occurs |
| `Eswitch.InvMeans` | netdevsim/dev.c:39-51 | the invariant in numbers: VF ports 128 to 128 + n - 1 in switchdev mode, none in legacy mode |
| `Eswitch.PortCallsExactly` | netdevsim/dev.c:1354-1418 | when a physical port is created or deleted, and why not |
| `Eswitch.SetVfsExactly` | netdevsim/dev.c:1772-1808 | how VF and mode changes are refused and what they leave |
| `Eswitch.ReloadExactly` | netdevsim/dev.c:1442-1512 | a successful reload leaves exactly the configured physical ports |
| `Eswitch.FailureChangesNothing` | netdevsim/dev.c:1772-1808 | every failed call but a reload leaves the device as it was |
| `Eswitch.PhysicalPortsStay` | netdevsim/dev.c:584-620 | mode and VF changes never touch physical ports or their order |
| `Eswitch.LegacyRepairs` | netdevsim/dev.c:584-596 | switching to legacy mode restores the invariant after any run |
| `Eswitch.VfPortsAreConfigured` | netdevsim/dev.c:1173-1204 | at any time the VF number of a VF port indexes the VF configurations |
| `Eswitch.ModeRoundTrip` | netdevsim/dev.c:622-636 | switchdev and back restores the device |
| `Eswitch.VfRoundTrip` | netdevsim/dev.c:1772-1808 | VFs on and off restore it if and only if the mode was legacy |
| `Eswitch.EnableOrder` | netdevsim/dev.c:1772-1808 | VFs first or mode first: same success, same state |
| `Eswitch.MaxVfsWithinRange` | netdevsim/dev.c:242-291 | the range check never fires and a changed limit is below 10^9 |
| `Eswitch.LimitBecomesNumber` | netdevsim/dev.c:242-291 | a printed number of at most nine digits becomes the limit, unless VFs are configured |
| `Eswitch.LimitRefusals` | netdevsim/dev.c:242-291 | too long a text, text that is no number and want of memory change nothing |
| `Eswitch.VfPortDeletedAsPhysical` | netdevsim/dev.c:1727-1770 | a concrete run that loses a VF port |
| `Eswitch.VfPortForgottenByReload` | netdevsim/dev.c:1677-1699 | a concrete run in which a reload after a failed one forgets a VF port |
| `Eswitch.PhysicalPortBlocksVf` | netdevsim/dev.c:1354-1418 | a physical port on a VF's index makes enabling fail |
| `Eswitch.ReloadMeaning` | netdevsim/dev.c:1677-1699 | what a reload leaves, after success and failure |
| `EswitchDev.NsimDev.Lookup` | netdevsim/dev.c:1727-1738 | the first listed port with the index, whatever its kind |
| `EswitchDev.NsimDev.PortAdd` | netdevsim/dev.c:1354-1418 | one port or nothing |
| `EswitchDev.NsimDev.DelVfs` | netdevsim/dev.c:591-593 | the deleting list walk leaves exactly the physical ports in order |
| `EswitchDev.NsimDev.SwitchdevEnable` | netdevsim/dev.c:598-620 | the loop with rollback in place |
| `EswitchDev.NsimDev.ModeSet` | netdevsim/dev.c:622-636 | mode dispatch |
| `EswitchDev.NsimDev.ConfigureVfs` | netdevsim/dev.c:1772-1808 | the VF count with its refusals and rollback |
| `EswitchDev.NsimDev.MaxVfsWrite` | netdevsim/dev.c:242-291 | the limit with its refusals |
| `EswitchDev.NsimDev.NewPort` | netdevsim/dev.c:1740-1753 | the sysfs port creation |
| `EswitchDev.NsimDev.DelPort` | netdevsim/dev.c:1755-1770 | the sysfs port deletion |
| `EswitchDev.NsimDev.PortAddAll` | netdevsim/dev.c:1442-1457 | all physical ports or none |
| `EswitchDev.NsimDev.Reload` | netdevsim/dev.c:1459-1512 | reload down and up |

## Left out

- Locks, RCU, work queues and timers as mechanisms: each locked region is one atomic step. The PTP queue of a reader and the clock's list of queues have separate locks; both are held around an enqueue, and the model takes an event's delivery to all queues as one step.
- Driver pointers: a DPLL reference stores the identity of its object; ops tables, private data and cookies are compared by identity as in the source.
- Xarray id wrap-around: `DpllGraph.Legal` takes a newly handed-out id to be unused.
- FIB rule counters, limits changed while routes exist, the inconsistent-dump path of the notifier's registration, and the flags reported back to the kernel.
- Wrap-around of `offset_ns` itself; timespec64_to_ktime, which is kernel code outside the repository, is a parameter.
- PTP offset events (EXTOFF), PPS and alarm events, pin functions and virtual clocks.
- A reader that another drains while it waits: its read returns fewer events, possibly none; the model's read begins when the wait is over.
- The layout of struct ptp_extts_event, which the kernel's user-space headers define, is not part of this model; its size is taken as 32 bytes.
- GNSS receiver: the driver assumes a present GNSS device, as its own checks do.
- Eswitch: devlink rate objects, debugfs and netdevice creation inside a port, of which only the failure is modelled.
- Netlink attribute encoding and notifications, debugfs and sysfs text other than the words and numbers parsed here, kprobe hijacking, module loading, version shims, VM scripts, and the thin wrappers and fixed tables of ipsec, macsec, bpf, psample, ethtool, health and udp tunnels: no invariant logic or only easy members.
