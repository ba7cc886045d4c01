# RDK-B Ethernet agent: a verified model

The project models the parts of the RDK-B Ethernet agent that hold state and
algorithms, and proves what they keep over every run. Paths below are relative to
the root of the agent's repository. One build is fixed: the WAN Manager feature on,
its unification and CORE_NET_LIB off, no WAN agent, bridge mode 0, no Open vSwitch.

- `Basics`: shared types.
- `MacText`, `HashCollisions`, `HostTable`, `HostMonitor`, `HostBalance`,
  `HostAgreement`, `HostPolls`, `HostCutOff`, `HostCrowds`, `HostNotices`: the connected-host table, a 256-cell
  open-addressing index, and the monitor that polls the HAL. The comments in
  eth_hal_interface.c (lines 266 and 328) speak of a deleted cell and a dummy item;
  the code stores NULL (line 330). The parameter `hole` is what a delete leaves:
  `Empty` is the code, `Deleted` what the comments describe. Whether ValidateClient
  accepts a report is part of the report. The notification callback is registered.
- `Network`, `WanBridge`, `WanThread`: names, devices and bridges, the scripts that
  switch the WAN side between DOCSIS and Ethernet, the decision whether to rebuild,
  the boot script, and the thread that changes the mode and rolls back. A command
  that the system refuses changes nothing, since the code ignores failures. Bridge
  members are devices and stay members when renamed.
- `EthManager`: the five-state machine; other threads change the port record before
  each lookup of a tick. Three findings: a notification whose own lookup fails is
  never sent, so the WAN Manager can be left with Up in EXIT; a failed lookup can
  leave the VLAN enabled in EXIT; and with an unvalidated port the resting state
  depends on the run that led there.
- `PortTable`, `Instances`, `LinkEvents`: the port array, the rows with their
  instance numbers, and the queue from the link callback to the WAN Manager. The
  queue is a state machine on values because its steps interleave.
- `Bits`, `V4Mask`, `V6Prefix`, `Decimal`: masks and prefixes.
- `Aliases`: set, validate, commit or roll back. CosaDmlEthPortGetEntry never fills
  in an instance number, so all rows are numbered from 1 at start-up.
- `Splitting`, `LanMembers`: the space-separated list of LAN bridge members. The
  stored list is read into 128 bytes without a bound (lines 338 and 410 of
  cosa_ethernet_apis.c), which the model reports as an overrun.
- `LogPeriod`: the logger's countdown, with a 32-bit long.

A class carries each object the code updates in place; its methods are proved equal
to a specification function, and the lemmas are about that function. Where a promised
property is false of the code, a lemma gives the failing input and another the exact
condition under which it holds.

Conditions of note: `Fits` (the plain set has fewer than 256 members whenever a
newcomer is reported), `Kept` (the addresses among the first 256 valid reports),
`SafePoll` (no freed cell on another host's probe path), `Docsis` (the topology
before any switch: the port in the LAN bridge only, the WAN name held by a device,
the parking name free), `Idle` (the early renames, which name erouter0 whatever the
WAN interface is called, do not apply), `Apart` (the default port name is neither
erouter0 nor one of the parking names).

## Model

| member | source | states |
|---|---|---|
| `HostPolls.PollAgreesIff` | source/TR-181/board_sbapi/eth_hal_interface.c:386-547 | For every poll, as written and with the dummy item: the index agrees with the plain set after every report and in the end holds exactly the addresses whose last report was valid, all of them findable, if and only if the main table has room for every newcomer when it is reported, every wanted host is among the first 256 valid reports, and (as written only) no freed cell lies on another host's probe path |
| `HostPolls.RunAgreesIff` | source/TR-181/board_sbapi/eth_hal_interface.c:386-547 | The same over every run, the room being judged by the answers alone |
| `HostPolls.RunAgrees` | source/TR-181/board_sbapi/eth_hal_interface.c:386-547 | After every such run FindHost finds an address if and only if its last report in the last answer was valid |
| `HostPolls.PollAgrees` | source/TR-181/board_sbapi/eth_hal_interface.c:386-547 | Under those conditions one poll leaves exactly the wanted addresses in the main table |
| `HostPolls.PollLeaves` | source/TR-181/board_sbapi/eth_hal_interface.c:386-547 | With room for the newcomers and no freed cell on another host's path, a poll leaves exactly the plain set's addresses that are among the first 256 valid reports |
| `HostCrowds.NewcomerLost` | source/TR-181/board_sbapi/eth_hal_interface.c:218-298 | Any 256 hosts arrive; in the next poll one other host is the only valid one, and it is not stored, whichever way hosts are deleted |
| `HostCrowds.FullTableLosesNewcomer` | source/TR-181/board_sbapi/eth_hal_interface.c:218-298 | The same from any healthy table of 256 hosts |
| `HostCrowds.CrowdDistinct` | source/TR-181/board_sbapi/eth_hal_interface.c:218-298 | Such hosts exist |
| `HostCrowds.CopiesCrowdOut` | source/TR-181/board_sbapi/eth_hal_interface.c:510-547 | 256 valid reports of one host fill the temporary table, so a valid host reported after them is swept out |
| `HostPolls.RunHealthy` | source/TR-181/board_sbapi/eth_hal_interface.c:134-334 | Over every run every stored host is findable and stored once; no condition with the dummy item |
| `HostPolls.PollNotifies` | source/TR-181/board_sbapi/eth_hal_interface.c:218-334 | Contradictory reports included: an arrival each time the reports put an address into the plain set, a departure each time they take it out, and one more for a host that is in it at the end but was not kept, because nobody reported it or there was no room |
| `HostPolls.PollNotifiesOnce` | source/TR-181/board_sbapi/eth_hal_interface.c:218-334 | When the reports about an address agree and it is kept: one arrival for a newcomer, one departure for a leaver, nothing otherwise |
| `HostPolls.GoodReportsIff` | source/TR-181/board_sbapi/eth_hal_interface.c:454-521 | Taking the reports keeps the index equal to the plain set after each of them if and only if newcomers find room and (as written only) no freed cell lies on another host's path |
| `HostPolls.EmptyAnswer` | source/TR-181/board_sbapi/eth_hal_interface.c:337-360 | When nobody is reported each cell gets one departure, the table empties, and the flag prevents a repetition |
| `HostPolls.PollHealthy` | source/TR-181/board_sbapi/eth_hal_interface.c:386-547 | A safe poll (or any poll with the dummy item) keeps every host findable and stored once, full tables included |
| `HostPolls.SafeReportsIff` | source/TR-181/board_sbapi/eth_hal_interface.c:454-521 | Taking the reports keeps every host findable and stored once, after each report, if and only if no cell freed by one lies on another host's probe path |
| `HostAgreement.SweepAgrees` | source/TR-181/board_sbapi/eth_hal_interface.c:527-540 | The disconnection loop erases exactly the leavers, in place, while it walks over the table it changes |
| `HostAgreement.SweepAgreesIff` | source/TR-181/board_sbapi/eth_hal_interface.c:527-540 | As written it leaves everybody findable, and then has erased exactly the leavers, if and only if the probe paths allow it |
| `HostAgreement.MissedLeaverCutOff` | source/TR-181/board_sbapi/eth_hal_interface.c:527-540 | A leaver that is missed cannot be found at the end |
| `HostAgreement.LateLeaverStays` | source/TR-181/board_sbapi/eth_hal_interface.c:301-334 | A leaver whose probe path crosses the cell of an earlier erased leaver is never removed |
| `HostAgreement.PlusLoopTracks` | source/TR-181/board_sbapi/eth_hal_interface.c:454-521 | With room for newcomers, taking the reports keeps the main table equal to the plain set that adds valid and removes invalid addresses in order |
| `HostAgreement.StepTracksIff` | source/TR-181/board_sbapi/eth_hal_interface.c:454-521 | One report changes the table as it changes the plain set if and only if a newcomer finds room |
| `HostAgreement.PlusLoopCollects` | source/TR-181/board_sbapi/eth_hal_interface.c:454-521 | The temporary table holds exactly the addresses among the first 256 valid reports, however many there are |
| `HostAgreement.TrackMeaning` | source/TR-181/board_sbapi/eth_hal_interface.c:454-521 | That plain set: last report valid, or stored before and not reported |
| `HostCutOff.CutOffRun` | source/TR-181/board_sbapi/eth_hal_interface.c:301-334 | For any two hosts with one home cell: both arrive, both leave in one poll, only the first is removed and announced, the second is stored but cannot be found |
| `HostCutOff.SecondLeaverMissed` | source/TR-181/board_sbapi/eth_hal_interface.c:301-334 | The same on the concrete addresses 01:00:00:00:00:00 and 00:00:00:10:00:00 |
| `HostCutOff.RivalsExist` | source/TR-181/board_sbapi/eth_hal_interface.c:114-131 | Those two addresses have the same home cell |
| `HostBalance.RunBalanced` | source/TR-181/board_sbapi/eth_hal_interface.c:218-360 | Over every run, full tables and duplicates included, arrivals minus departures announced for an address is the number of cells that hold it |
| `HostBalance.RunTidy` | source/TR-181/board_sbapi/eth_hal_interface.c:386-547 | The temporary table is empty between polls; isDeleteAllDone implies an empty main table |
| `HostNotices.RunSound` | source/TR-181/board_sbapi/eth_hal_interface.c:218-360 | Over every run each arrival carries a device as it was reported valid, marked online, each departure a device announced before, and the hosts stored are as they were announced |
| `HostTable.FindMeaning` | source/TR-181/board_sbapi/eth_hal_interface.c:134-215 | FindHost succeeds if and only if a cell with the address is reachable from its home cell without meeting NULL; it halts on full tables |
| `HostTable.FindIsMembership` | source/TR-181/board_sbapi/eth_hal_interface.c:134-215 | On a closed table FindHost is membership |
| `HostTable.SlotMeaning` | source/TR-181/board_sbapi/eth_hal_interface.c:260-298 | AddHost takes the nearest free cell after the home cell, and none if and only if all cells are taken |
| `HostTable.AddMeaning` | source/TR-181/board_sbapi/eth_hal_interface.c:218-298 | AddHost changes one free cell, marks the host online, keeps the table closed, and fails exactly when the table is full |
| `HostTable.ProbeOrder` | source/TR-181/board_sbapi/eth_hal_interface.c:264-285 | Probing goes up the array and wraps round at its end |
| `HostTable.EraseKeepsClosedIff` | source/TR-181/board_sbapi/eth_hal_interface.c:301-334 | Writing NULL to a host's cell keeps the table closed if and only if the cell lies on no other host's probe path |
| `HostTable.DummyKeepsClosed` | source/TR-181/board_sbapi/eth_hal_interface.c:328-330 | The dummy item the comment describes always keeps it closed |
| `HostTable.OneDigitApart` | source/TR-181/board_sbapi/eth_hal_interface.c:114-161 | Addresses whose printed forms differ in one place never share a home cell |
| `HostMonitor.Monitor.FindHost` | source/TR-181/board_sbapi/eth_hal_interface.c:134-215 | The probing loop computes the specified search |
| `HostMonitor.Monitor.Store` | source/TR-181/board_sbapi/eth_hal_interface.c:218-298 | The probing loop stores as specified and says whether it did |
| `HostMonitor.Monitor.ConnectHost` | source/TR-181/board_sbapi/eth_hal_interface.c:218-298 | AddHost on the main table, with its notification only on success |
| `HostMonitor.Monitor.DisconnectHost` | source/TR-181/board_sbapi/eth_hal_interface.c:301-334 | DeleteHost on the main table, with its notification only when the host was found |
| `HostMonitor.Monitor.DisconnectAll` | source/TR-181/board_sbapi/eth_hal_interface.c:337-360 | All cells emptied, one departure per host in cell order |
| `HostMonitor.Monitor.ForgetReported` | source/TR-181/board_sbapi/eth_hal_interface.c:337-360 | All cells of the temporary table emptied, with nothing announced |
| `HostMonitor.Monitor.TakeReport` | source/TR-181/board_sbapi/eth_hal_interface.c:454-521 | One report: delete an invalid host; add a valid one to the main table if unknown and always to the temporary one |
| `HostMonitor.Monitor.SweepLeavers` | source/TR-181/board_sbapi/eth_hal_interface.c:527-540 | The loop over the changing table equals the specified sweep |
| `HostMonitor.Monitor.Iterate` | source/TR-181/board_sbapi/eth_hal_interface.c:386-547 | One iteration of the monitor thread is the specified poll, failed and empty answers included |
| `MacText.HashString` | source/TR-181/board_sbapi/eth_hal_interface.c:114-125 | Shift-and-add with 32-bit wrap-around is multiplication by 33 |
| `MacText.HashReducesToByte` | source/TR-181/board_sbapi/eth_hal_interface.c:114-131 | The 32-bit hash modulo 256 equals the fold done modulo 256 throughout |
| `MacText.HashWrapsOnce` | source/TR-181/board_sbapi/eth_hal_interface.c:114-125 | Wrapping at every step is wrapping the unbounded djb2 sum once |
| `MacText.OneCharApart` | source/TR-181/board_sbapi/eth_hal_interface.c:114-131 | Texts that differ in exactly one place never share a cell |
| `HashCollisions.EightApartCollide` | source/TR-181/board_sbapi/eth_hal_interface.c:114-131 | Exchanging two characters eight places apart always keeps the cell |
| `MacText.PrintInjective` | source/TR-181/board_sbapi/eth_hal_interface.c:145-161 | Addresses print alike only when equal, so comparing printed forms compares addresses |
| `MacText.PrintedShape` | source/TR-181/board_sbapi/eth_hal_interface.c:145-161 | Upper-case digits in pairs with a colon in every third place |
| `MacText.StringToHex` | source/TR-181/middle_layer_src/cosa_apis_util.c:101-131 | Success if and only if exactly the expected number of bytes was read; or the step over the terminator or past the array |
| `MacText.DigitsOutOfBoundsIff` | source/TR-181/middle_layer_src/cosa_apis_util.c:101-131 | On hexadecimal digits alone it stays within bounds if and only if their number is even and at most two for each byte of the array |
| `MacText.ParsePrinted` | source/TR-181/middle_layer_src/cosa_apis_util.c:101-131 | Reading a printed byte group gives it back, with each separator and with none, if the array takes it, and otherwise overruns the array |
| `MacText.ParseLowered` | source/TR-181/middle_layer_src/cosa_apis_util.c:101-131 | Digits in lower case read the same |
| `MacText.SeparatorsIff` | source/TR-181/middle_layer_src/cosa_apis_util.c:101-131 | Exactly the three characters separate bytes |
| `MacText.ScanHexMeaning` | source/TR-181/middle_layer_src/cosa_apis_util.c:116-120 | The two-character scan is the general conversion (blanks, sign, digits), reduced to a byte |
| `WanBridge.RunModesDetermined` | source/TR-181/board_sbapi/cosa_ethernet_apis.c:1771-1992 | Over every sequence of mode changes with a truthful record, the topology is determined by the last enabled mode alone |
| `WanBridge.FinalizeIff` | source/TR-181/board_sbapi/cosa_ethernet_apis.c:1862-1891 | From either topology finalizing reaches the enabled mode's if and only if it is there already or the record names the current one |
| `WanBridge.EnableReaches` | source/TR-181/board_sbapi/cosa_ethernet_apis.c:1213-1467 | The enabling script reaches the Ethernet topology, also when the port was dropped from the LAN bridge before |
| `WanBridge.DisableRestores` | source/TR-181/board_sbapi/cosa_ethernet_apis.c:1471-1768 | Disabling undoes enabling: the whole network is as before |
| `WanBridge.RepeatChangesNothing` | source/TR-181/board_sbapi/cosa_ethernet_apis.c:1471-1768 | Repeating either script, rebuilding or not, changes nothing |
| `WanBridge.DisableReturnsPort` | source/TR-181/board_sbapi/cosa_ethernet_apis.c:1471-1768 | Disabling returns a dropped port to the LAN bridge |
| `WanBridge.WithoutRebuildWrong` | source/TR-181/board_sbapi/cosa_ethernet_apis.c:1862-1891 | Skipping the rebuild when the mode differs never reaches the wanted topology |
| `WanBridge.MoveWithoutRebuild` | source/TR-181/board_sbapi/cosa_ethernet_apis.c:1213-1768 | Without a rebuild the scripts move the port alone between the two bridges, one way and back |
| `WanBridge.BootIff` | source/TR-181/board_sbapi/cosa_ethernet_apis.c:3066-3341 | The boot script reaches the same Ethernet topology except on Puma 7 with the port still in the LAN bridge |
| `WanBridge.BootAgain` | source/TR-181/board_sbapi/cosa_ethernet_apis.c:3066-3341 | Started again in Ethernet mode the boot script changes nothing |
| `Network.CommandsKeepSound` | source/TR-181/board_sbapi/cosa_ethernet_apis.c:1213-1467 | Every command keeps each device in at most one bridge and under one name |
| `WanThread.ThreadMatchesIff` | source/TR-181/board_sbapi/cosa_ethernet_apis.c:2407-2497 | Whichever HAL and settings writes fail and whatever the WAN interface is called, the thread completes, and the topology matches the HAL's flag if and only if the early renames do not apply or are never issued |
| `WanThread.AlwaysMatchesIff` | source/TR-181/board_sbapi/cosa_ethernet_apis.c:2407-2497 | Every run of requests with any failures keeps the match, from every matching start, if and only if the early renames apply in neither topology |
| `WanThread.ServeMatches` | source/TR-181/board_sbapi/cosa_ethernet_apis.c:2407-2497 | One direction of it, for a given run |
| `WanThread.ModeReached` | source/TR-181/board_sbapi/cosa_ethernet_apis.c:2407-2497 | The mode a request ends in, for all answers: the wanted one when its writes succeed, else that of the last HAL write that succeeded, if any |
| `WanThread.ServeReaches` | source/TR-181/board_sbapi/cosa_ethernet_apis.c:2407-2497 | Over every run of requests the topology is that of the mode which the requests and their answers lead to |
| `WanThread.LastRequestReached` | source/TR-181/board_sbapi/cosa_ethernet_apis.c:2407-2497 | After a run whose last request has all its writes succeed the topology is that of the mode it asks for |
| `WanThread.EnablingDropsPort` | source/TR-181/board_sbapi/cosa_ethernet_apis.c:2576-2720 | While an enabling request is on its way the port is out of the LAN bridge |
| `WanThread.OtherNameLost` | source/TR-181/board_sbapi/cosa_ethernet_apis.c:1995-2077 | The failing case: with a WAN interface called wan0 and the default port name held, leaving Ethernet mode with every write succeeding loses wan0 |
| `WanThread.EarlyRenamesIdleIff` | source/TR-181/board_sbapi/cosa_ethernet_apis.c:2036-2044 | The early renames change nothing if and only if erouter0 exists and the default port name is held, or neither erouter0 nor dummy-rf exists |
| `WanThread.EthWanAgent.ConfigureBcm` | source/TR-181/board_sbapi/cosa_ethernet_apis.c:1471-1768 | The Broadcom script, command by command, is the specified one |
| `WanThread.EthWanAgent.ConfigurePuma7` | source/TR-181/board_sbapi/cosa_ethernet_apis.c:1213-1467 | The Puma 7 script, command by command, is the specified one |
| `WanThread.EthWanAgent.IfaceFinalize` | source/TR-181/board_sbapi/cosa_ethernet_apis.c:1771-1992 | The decision table and the script it chooses |
| `WanThread.EthWanAgent.ConfigureEthWan` | source/TR-181/board_sbapi/cosa_ethernet_apis.c:2576-2875 | Drops the port on enabling, then the step above |
| `WanThread.EthWanAgent.ChangeMode` | source/TR-181/board_sbapi/cosa_ethernet_apis.c:2407-2497 | Configure, roll back with the opposite mode on failure, finalize, complete |
| `EthManager.RunKeepsIff` | source/TR-181/board_sbapi/cosa_ethernet_manager.c:229-490 | Over every run, each of three claims (Up sent last exactly in WAN_LINK_UP; never in EXIT or DISCONNECTED; VLAN enabled only in VLAN_CONFIGURING or WAN_LINK_UP) holds throughout if and only if no tick breaks it: a failed lookup or lost message at the exact places given |
| `EthManager.StepKeepsIff` | source/TR-181/board_sbapi/cosa_ethernet_manager.c:229-490 | The same for one tick from any machine for which the claim holds |
| `EthManager.TickStateIff` | source/TR-181/board_sbapi/cosa_ethernet_manager.c:229-490 | The state after a tick, exactly, by the guards of the state and the results of the two lookups |
| `EthManager.TickRecord` | source/TR-181/board_sbapi/cosa_ethernet_manager.c:426-471 | Going down ends in EXIT with the VLAN disabled and the WAN status cleared in the record; no other tick changes the record |
| `EthManager.NoReturn` | source/TR-181/board_sbapi/cosa_ethernet_manager.c:426-471 | After going down, in any run, the machine is not in WAN_LINK_UP again before another thread turns the WAN status Up |
| `EthManager.RunEnablesVlan` | source/TR-181/board_sbapi/cosa_ethernet_manager.c:358-402 | Over every run the VLAN is enabled whenever it is being configured |
| `EthManager.RunInTable` | source/TR-181/board_sbapi/cosa_ethernet_manager.c:229-490 | While the watched name stays in the port table and the WAN Manager answers all three claims hold, the VLAN claim without the WAN Manager |
| `EthManager.StaleUp` | source/TR-181/board_sbapi/cosa_ethernet_apis.c:5030-5060 | A run with the WAN Manager reachable throughout that ends in EXIT with Up sent last |
| `EthManager.VlanLeaks` | source/TR-181/board_sbapi/cosa_ethernet_manager.c:279-343 | A run in which one failed lookup leaves the VLAN enabled in EXIT |
| `EthManager.StateMachine.Step` | source/TR-181/board_sbapi/cosa_ethernet_manager.c:125-343 | One pass of the thread's loop is the specified tick, for every state and every result of its up to four lookups |
| `EthManager.StateMachine.PhyInterfaceDown` | source/TR-181/board_sbapi/cosa_ethernet_manager.c:426-471 | WAN status cleared, VLAN disabled, Down sent, each lookup failing on its own; nothing of it when the first one fails |
| `EthManager.SettlesWithin` | source/TR-181/board_sbapi/cosa_ethernet_manager.c:229-343 | With steady inputs the machine rests after at most 1, 2 or 4 ticks and stays |
| `EthManager.SettlesAlikeIff` | source/TR-181/board_sbapi/cosa_ethernet_manager.c:229-343 | All machines that any two runs leave with one record settle in one state if and only if the port is validated, not upstream or its link is down |
| `EthManager.SettlesFrom` | source/TR-181/board_sbapi/cosa_ethernet_manager.c:229-343 | With the exact number of ticks each state needs at most |
| `EthManager.QuietCloser` | source/TR-181/board_sbapi/cosa_ethernet_manager.c:229-343 | A tick with steady inputs keeps the resting state and comes one tick closer to it |
| `PortTable.RunUniqueIff` | source/TR-181/board_sbapi/cosa_ethernet_apis.c:3896-4011 | Over every run of adds, deletions and renames names stay unique if and only if no add meets its own name and no cut name another |
| `PortTable.RunKeepsInternal` | source/TR-181/board_sbapi/cosa_ethernet_apis.c:3941-3952 | Over every run of adds, deletions and renames the internal ports keep their places and every field but the name, and the name when nothing is renamed |
| `PortTable.WithoutExact` | source/TR-181/board_sbapi/cosa_ethernet_apis.c:3952-4006 | Deletion removes exactly one copy of the entry |
| `PortTable.DeleteResolves` | source/TR-181/board_sbapi/cosa_ethernet_apis.c:4443-4479 | With unique names, after a deletion every other name still resolves to its own entry and the deleted one to none |
| `PortTable.DeleteUnique` | source/TR-181/board_sbapi/cosa_ethernet_apis.c:3952-4006 | Deletion keeps names unique |
| `PortTable.AddUniqueIff` | source/TR-181/board_sbapi/cosa_ethernet_apis.c:3896-3938 | Adding keeps names unique if and only if eth<length> is unused |
| `PortTable.DeleteThenAddClashes` | source/TR-181/board_sbapi/cosa_ethernet_apis.c:3896-4011 | Deleting any but the last port and then adding one gives two ports one name and one path |
| `PortTable.FreshPaths` | source/TR-181/board_sbapi/cosa_ethernet_apis.c:3932-3933 | A fresh entry names its instance, one more than its index, in both path fields |
| `PortTable.FreshRests` | source/TR-181/board_sbapi/cosa_ethernet_apis.c:3921-3926 | A machine watching a fresh port rests in EXIT, once it is upstream in DISCONNECTED, and once its link is up configures the VLAN without further validation; the entry is disabled |
| `PortTable.RenameUniqueIff` | source/TR-181/board_sbapi/cosa_ethernet_apis.c:4233-4266 | Renaming keeps names unique if and only if the name as stored is not another's |
| `PortTable.RenameResolves` | source/TR-181/board_sbapi/cosa_ethernet_apis.c:4233-4266 | For names of any length: the name as stored resolves to the old entry or an earlier one of that name, the name in full only if it was not cut, every other name as before |
| `PortTable.PreparedUniqueIff` | source/TR-181/board_sbapi/cosa_ethernet_apis.c:4510-4571 | The table prepared at start-up has unique names if and only if the stored names differ and none is the default name of a port without one |
| `PortTable.Table.GetIndex` | source/TR-181/board_sbapi/cosa_ethernet_apis.c:4443-4479 | The first entry with the name, or -1 |
| `PortTable.Table.AddPort` | source/TR-181/board_sbapi/cosa_ethernet_apis.c:3896-3938 | One fresh entry at the end; both counters equal the array length |
| `PortTable.Table.DeletePort` | source/TR-181/board_sbapi/cosa_ethernet_apis.c:3936-4007 | Refuses unknown and internal ports, else replaces the entry by the last; both counters equal the array length |
| `PortTable.Table.SetName` | source/TR-181/board_sbapi/cosa_ethernet_apis.c:4233-4266 | Refuses taken and unknown names, else changes one name field |
| `Instances.PortRows.NextFree` | source/TR-181/middle_layer_src/cosa_ethernet_internal.c:895-914 | The search ends, even across the wrap-around to 0, with the first free non-zero number it meets |
| `Instances.FirstFreeIff` | source/TR-181/middle_layer_src/cosa_ethernet_internal.c:895-914 | That is the least free number from the start on, and when there is none the least free number of all |
| `Instances.IncrementWraps` | source/TR-181/middle_layer_src/cosa_ethernet_internal.c:910-919 | The counter is incremented in unsigned arithmetic |
| `Instances.NotAllInUse` | source/TR-181/middle_layer_src/cosa_ethernet_internal.c:895-914 | A list shorter than the number space leaves a number free |
| `Instances.PortRows.AddEntry` | source/TR-181/middle_layer_src/cosa_ethernet_dml.c:1449-1471 | A new row gets a free non-zero number and goes into its place; the list stays strictly sorted |
| `Instances.RowNamesPortIff` | source/TR-181/middle_layer_src/cosa_ethernet_internal.c:915-920 | The row and the port table entry made for it carry the same name if and only if the number is one more than the table's length |
| `Instances.PortRows.PushEntry` | source/TR-181/middle_layer_src/cosa_apis_util.c:133-169 | The insertion loop inserts before the first greater number |
| `Instances.PortRows.GetEntry` | source/TR-181/middle_layer_src/cosa_apis_util.c:171-203 | The loop returns the row with the number |
| `Instances.InsertSorted` | source/TR-181/middle_layer_src/cosa_apis_util.c:133-169 | Inserting a free number keeps the list strictly sorted |
| `Instances.InsertLookup` | source/TR-181/middle_layer_src/cosa_apis_util.c:133-203 | Afterwards the number finds the new row and every other number what it found before |
| `LinkEvents.RunAgreesIff` | source/TR-181/board_sbapi/cosa_ethernet_apis.c:4405-4820 | Over every interleaving with one callback thread: a port's table status is its unsent message, else the last queued, else the last delivered, throughout, if and only if no failed send or delivery loses anything that matters |
| `LinkEvents.StepAgreesIff` | source/TR-181/board_sbapi/cosa_ethernet_apis.c:4405-4820 | One step, with what matters: a lost unsent status that was not on its way, or a dropped one that no later message replaces and that was not told before |
| `LinkEvents.TableIsReported` | source/TR-181/board_sbapi/cosa_ethernet_apis.c:4405-4440 | Over every run, whatever is lost and with any number of threads, the table has the status the driver reported last |
| `LinkEvents.DrainedAgrees` | source/TR-181/board_sbapi/cosa_ethernet_apis.c:4723-4820 | Once everything is sent and taken from the queue, and nothing that matters was lost, both sides have the status the driver reported last |
| `LinkEvents.NothingReordered` | source/TR-181/board_sbapi/cosa_ethernet_apis.c:4405-4820 | With one callback thread whose sends succeed, every report is taken from the queue once and in order |
| `LinkEvents.QueueBounded` | source/TR-181/board_sbapi/cosa_ethernet_apis.c:4732-4732 | The queue never exceeds its length |
| `LinkEvents.DrainPossible` | source/TR-181/board_sbapi/cosa_ethernet_apis.c:4660-4820 | The queue can always be drained |
| `LinkEvents.EveryDrainAgreesIff` | source/TR-181/board_sbapi/cosa_ethernet_apis.c:4405-4820 | With any number of callback threads and any port, told before or not, every way to send and deliver all that is pending ends in agreement on it if and only if every unsent message for it carries the table's status and, if there is none, the last queued or delivered status does |
| `LinkEvents.TwoProducersDisagree` | source/TR-181/board_sbapi/cosa_ethernet_apis.c:4405-4440 | A schedule of two callback threads from an agreeing state to lasting disagreement, since the send happens after the mutex is released |
| `V6Prefix.AddrMismatch` | source/TR-181/middle_layer_src/cosa_apis_util.c:1443-1499 | From 0 to 128: zero if and only if both texts are addresses whose first bits agree, and otherwise the code of where they differ; for any other length what is compared and when bytes outside the addresses are read |
| `V6Prefix.AgreeOutside` | source/TR-181/middle_layer_src/cosa_apis_util.c:1476-1496 | For the other lengths: exactly which index leaves the addresses |
| `V6Prefix.PrefIsEqual` | source/TR-181/middle_layer_src/cosa_apis_util.c:1501-1595 | Same length and same network, for any length |
| `V6Prefix.AddrIsEqual` | source/TR-181/middle_layer_src/cosa_apis_util.c:1581-1587 | Equality of addresses |
| `V6Prefix.FirstBitsIsQuotient` | source/TR-181/middle_layer_src/cosa_apis_util.c:1443-1499 | The first n bits are the quotient of the 128-bit address by a power of two |
| `V6Prefix.AgreementMonotone` | source/TR-181/middle_layer_src/cosa_apis_util.c:1443-1499 | Agreement holds for every shorter prefix; at 128 bits it is equality |
| `V6Prefix.FirstBytesAndMask` | source/TR-181/middle_layer_src/cosa_apis_util.c:1458-1483 | Whole bytes and one masked byte compare exactly the first 8k + r bits |
| `V4Mask.IsNetmaskValid` | source/TR-181/middle_layer_src/cosa_apis_util.c:1639-1656 | Accepts exactly the words whose four bytes in memory are one of the 33 prefix masks in network order, on a host of either byte order |
| `V4Mask.BlockEnds` | source/TR-181/middle_layer_src/cosa_apis_util.c:1601-1636 | For addresses and a prefix mask in network order, read from their bytes in memory: the network test accepts exactly the first address of the block and the broadcast test exactly the last and the all-ones address |
| `V4Mask.NetIsNumber` | source/TR-181/middle_layer_src/cosa_apis_util.c:1639-1656 | ntohl gives the number that the bytes in memory stand for; on a little-endian host it exchanges them end for end |
| `V4Mask.NetworkEitherOrder` | source/TR-181/middle_layer_src/cosa_apis_util.c:1628-1636 | The network test does not depend on the byte order, for any mask |
| `V4Mask.BroadcastEitherOrder` | source/TR-181/middle_layer_src/cosa_apis_util.c:1613-1625 | Nor does the broadcast test |
| `V4Mask.NetmaskToNumber` | source/TR-181/middle_layer_src/cosa_apis_util.c:1245-1267 | Sums the one bits of the low byte of every dotted part, signs and leading blanks read as atoi does |
| `V4Mask.PartValueByte` | source/TR-181/middle_layer_src/cosa_apis_util.c:1245-1267 | The counted byte is the value of the part modulo 256, negative values included |
| `Decimal.AtoiReads` | source/TR-181/middle_layer_src/cosa_apis_util.c:1255-1255 | A part is read behind blanks and a sign, up to the first other character |
| `V4Mask.DottedCount` | source/TR-181/middle_layer_src/cosa_apis_util.c:1245-1267 | On the dotted form of any word that is the word's number of one bits |
| `V4Mask.DottedMaskCount` | source/TR-181/middle_layer_src/cosa_apis_util.c:1245-1267 | On the dotted netmask of a prefix length it is that length |
| `Aliases.Interfaces.Transact` | source/TR-181/middle_layer_src/cosa_ethernet_interface_dml.c:713-879 | A request succeeds if and only if every set is accepted and every touched row validates; then each committed alias is the last one set for its row or the one before, else rows and committed aliases are exactly as before |
| `Aliases.AssignMeaning` | source/TR-181/middle_layer_src/cosa_ethernet_interface_dml.c:713-745 | When all sets are accepted, each row ends with the last alias set for it |
| `Aliases.LastRequest` | source/TR-181/middle_layer_src/cosa_ethernet_interface_dml.c:713-879 | After any sequence of requests the last one takes effect in this way if it succeeds and has no effect otherwise |
| `Aliases.SuccessDistinct` | source/TR-181/middle_layer_src/cosa_ethernet_interface_dml.c:777-808 | Validating the touched rows is enough to keep all aliases distinct |
| `Aliases.RequestsStayDistinct` | source/TR-181/middle_layer_src/cosa_ethernet_interface_dml.c:713-879 | Over every sequence of requests aliases stay distinct and instance numbers never change |
| `Aliases.AssignShape` | source/TR-181/middle_layer_src/cosa_ethernet_interface_dml.c:713-745 | Setting changes only aliases, and only of the rows named |
| `Aliases.Interfaces.SetAlias` | source/TR-181/middle_layer_src/cosa_ethernet_interface_dml.c:713-745 | Stores the alias if it is short enough |
| `Aliases.Interfaces.Validate` | source/TR-181/middle_layer_src/cosa_ethernet_interface_dml.c:777-808 | Valid if and only if no other row has the alias |
| `Aliases.Interfaces.Commit` | source/TR-181/board_sbapi/source-arm/cosa_ethernet_apis_arm.c:500-544 | Copies the row's alias to its committed entry, if there is one |
| `Aliases.Interfaces.Rollback` | source/TR-181/board_sbapi/source-arm/cosa_ethernet_apis_arm.c:546-577 | Copies the committed entry back |
| `Aliases.Interfaces.GetEntry` | source/TR-181/board_sbapi/source-arm/cosa_ethernet_apis_arm.c:1495-1507 | The entry of an instance number |
| `Aliases.Interfaces.constructor` | source/TR-181/middle_layer_src/cosa_ethernet_internal.c:175-218 | The initial rows are committed, numbered from 1 and named after their numbers, all distinct |
| `LanMembers.RunFailsIff` | source/TR-181/board_sbapi/cosa_ethernet_apis.c:399-478 | A run fails if and only if at some call the listed names with their separators exceed the 128-byte read buffer or the call takes away all of them |
| `LanMembers.RunMeaning` | source/TR-181/board_sbapi/cosa_ethernet_apis.c:399-478 | Over every run, related names included, the text stands for the names the calls leave, with its exact length |
| `LanMembers.UpdateMeaning` | source/TR-181/board_sbapi/cosa_ethernet_apis.c:399-478 | One call: an add is refused when the name occurs inside a listed one, a removal drops every name it occurs in; which of the two failures it meets, and when |
| `LanMembers.RunMembership` | source/TR-181/board_sbapi/cosa_ethernet_apis.c:436-478 | For names none of which is part of another the list has a name if and only if the last call about it added it |
| `LanMembers.LastCallDecidesIff` | source/TR-181/board_sbapi/cosa_ethernet_apis.c:436-478 | That holds over every run from an empty list if and only if no name is part of another |
| `LanMembers.AddPartRefused` | source/TR-181/board_sbapi/cosa_ethernet_apis.c:439-449 | The failing run: a name added after one that contains it is refused |
| `LanMembers.AddsOverrun` | source/TR-181/board_sbapi/cosa_ethernet_apis.c:322-344 | From an empty list, any run of adds that lists 128 characters makes the next call write past the read buffer |
| `LanMembers.TwoNamesOverrun` | source/TR-181/board_sbapi/cosa_ethernet_apis.c:322-344 | Two names of full length suffice |
| `LanMembers.AddPortToLanBridge` | source/TR-181/board_sbapi/cosa_ethernet_apis.c:399-478 | Reads the list, adds an absent name at the end, removes a present one, for a list of any length |
| `LanMembers.RemoveSubStr` | source/TR-181/board_sbapi/cosa_ethernet_apis.c:353-397 | Returns, in order and single-spaced, exactly the tokens not containing the name; the trim reads before the text exactly when none remains |
| `LanMembers.WithoutConcat` | source/TR-181/board_sbapi/cosa_ethernet_apis.c:374-385 | Each token is kept or dropped by itself: none is moved, merged or repeated |
| `Splitting.ContainsMeaning` | source/TR-181/board_sbapi/cosa_ethernet_apis.c:378-378 | strstr finds a name if and only if it stands somewhere in the text |
| `LanMembers.Collect` | source/TR-181/board_sbapi/cosa_ethernet_apis.c:367-387 | The budget that shrinks with the text never cuts a token; at most the very last space is lost |
| `LogPeriod.Wait` | source/TR-181/middle_layer_src/cosa_ethernet_internal.c:609-621 | For bounds up to 2^31 the wait ends, at the first tick with no time left; up to the last whole minute a long can count to, that is the first tick at which elapsed time reaches the period then in force |
| `LogPeriod.EndsIff` | source/TR-181/middle_layer_src/cosa_ethernet_internal.c:609-621 | Every rewriting within a bound lets the wait end if and only if the bound is at most 2^31 |
| `LogPeriod.OnTimeIff` | source/TR-181/middle_layer_src/cosa_ethernet_internal.c:609-621 | The wait is on time for every rewriting within a bound if and only if a long can count to the bound in whole minutes |
| `LogPeriod.TimeLeftExactIff` | source/TR-181/middle_layer_src/cosa_ethernet_internal.c:616-621 | The remaining time is the current period less 60 per tick if and only if a long can hold that number |
| `LogPeriod.TimeLeftWraps` | source/TR-181/middle_layer_src/cosa_ethernet_internal.c:616-621 | Otherwise it differs by whole wrap-arounds |

## Left out

- Memory allocation failures and NULL arguments: early returns without effect.
- HostMonitor.Monitor.Iterate: ValidateClient's reading of the ARP and lease files is one boolean per report, and a report carries the address, the port and the flag only.
- MacText.StringToHex: what the code does after it has stepped over the terminator depends on the memory there; the caller's array is taken to have the size it states; the library's treatment of a leading 0x is not modelled.
- MacText.OneCharApart: the hash reads characters of one byte, so larger ones are excluded.
- Network: rules of the kernel beyond those of the six commands, administrative flags, MAC addresses, sysevents, and the vlan_util scripts, which stand for removal from the LAN bridge.
- WanThread.ThreadMatchesIff: the default port name, compiled in, is not erouter0 and not a parking name; the port name does not change meanwhile, and the HAL answers when asked for its flag.
- WanThread.ServeMatches: that the recorded mode names the HAL's flag after each request is an assumption, since another process writes it.
- EthManager.StateMachine.Step: starting the machine a second time retargets the watched interface; here the name is fixed.
- EthManager.StateMachine.PhyInterfaceDown: all ways in which the WAN Manager does not answer, or does not know the port, are one flag; the message with the WAN interface name is left out; the VLAN Manager always answers.
- PortTable.PreparedUniqueIff: stored names of more than 63 characters, which overrun their read buffer, and names with a percent sign, which are used as a format, are excluded; default names are those of the generic platform.
- Instances.PortRows.AddEntry: removal from the list is left out; EthRdkInterface_DelEntry overwrites the row handle before it unlinks (cosa_ethernet_dml.c line 1422).
- LinkEvents.EveryDrainAgreesIff: drains in which a send or delivery fails; StepAgreesIff and RunAgreesIff treat those for one callback thread.
- V6Prefix.PrefIsEqual: inet_pton and the splitting of prefix texts are inputs.
- V4Mask.NetmaskToNumber: parts beyond the range of an int, for which atoi is undefined, are read by value.
- V4Mask: the loopback, multicast and class tests, each one comparison.
- Aliases.Interfaces.Transact: aliases only; the enable flag and the other fields are copied alike. The order set, validate, commit or roll back is the caller's, outside this repository.
- LanMembers.AddPortToLanBridge: the settings store answers; automatic port switching is off; port names fit their 64-byte field. The list is a value: the in-place rewriting of the buffer by strtok is not modelled.
- LogPeriod.Wait: bounds above 2^31 are excluded, since EndsIff shows a rewriting for which the wait never ends; a 64-bit long changes only the constants.
- Retargeting, the failover simulation thread, the WAN_AGENT builds, rbus, telemetry, MACsec, LEDs, sockets and process start-up: no algorithm or behaviour of the operating system.
