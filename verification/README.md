# Bridge, DHCP and configuration stores of the provisioning agent

The provisioning and management agent of a broadband gateway keeps its settings twice: in
objects in memory and in two flat stores, PSM (records by name) and syscfg (keys and values).
This project models the parts of the agent that must keep the two in agreement, and proves
what they keep.

- **Bridge manager** (`Text`, `Decimal`, `BridgeData`, `BridgeSteps`, `BridgeInvariant`,
  `BridgeIds`, `BridgeState`, `BridgeReload`, `BridgeRuns`, `BridgeTable`, `PortOutcomes`,
  `BridgeOutcomes`). A table of bridges with port lists, mirrored into PSM records, into five
  delimiter-separated member lists a bridge, and into one Link record; two allocators; save and
  reload at boot. `BridgeTable` has the classes and loops of the code. Each of its methods is
  tied to a function of the old state, and the invariants are proved about those functions, over
  runs in which the agent may start again at any point. A reload loses some link types and the
  standard's third value, so the invariant has two fidelities: `Exact`, every record to the
  letter, and `Normalised`, up to that loss.
- **Webconfig transactions** (`Inet`, `Syscfg`, `Atomicity`, `LanAtomicity`, `Bits`, `LanCheck`,
  `Validation`, `Sessions`, `WebConfig`, `RequestOutcomes`). The validate, back up, unset, apply and
  roll back sequences for the static clients and for the LAN parameters, over a syscfg of which any
  call may fail, runs of both kinds of request over the caches that they share, and the 32-bit
  arithmetic of the LAN check. `WebConfig` has the handlers of the code.
- **Event dispatcher** (`Dispatcher`). A linked list of linked lists on the heap that refines a
  map from event names to callback sequences.
- **DHCP server tables** (`IpList`, `Pool`, `PoolOutcomes`, `Leases`). The writer that stores only
  changed pool settings and the reader that lays them over the defaults; the lease and option file
  readers with their growing arrays.
- **RFC store** (`Rfc`). The Start, Set and End protocol that replaces a parameter store and
  keeps what was set through webpa.
- **Examples** (`Examples`). Concrete states in which the properties fail that hold under a
  condition only.

`Wrappers` holds the option type and a search.

The methods are tied to functions of the old state. The modules whose names end in `Outcomes`, and
parts of `Leases`, `Rfc` and `Dispatcher`, state what these functions come to without them:
which field, record text, token, key or array entry holds what, said of the configuration, document,
line or call that was given.

Several properties that the code might be expected to have hold only under a condition. For
those the condition is proved to be exact (the lemmas whose names end in `Iff`), and `Examples`
shows failing inputs for the bridge, webconfig, LAN and pool conditions.

Assumptions that the model makes, in the terms of the code:

- PSM record names and syscfg key names are distinct for distinct fields and numbers; they are
  constructors of a datatype here. `dmsb_tr181_psm_definitions.h` gives the PSM names, the
  delimiter (one blank), the hidden interface and the name prefix.
- `source/TR-181/include/cosa_dhcpv4_webconfig_apis.h` gives the syscfg key names, the sizes of a
  cache entry (31 characters of key name and 255 of value) and the 1024 entries of a cache. The key
  name of a comment by hardware address needs 33 characters, so that the backup never saves it. The
  model has that limit; all other names and values fit. The numeric codes of verdicts and errors
  are constructors.
- Strings are unbounded otherwise. In the code they are 64- to 256-byte buffers.
- A member path that no branch of the format macro sets is the empty PSM name, `NoPath`, when the
  buffer was clear, and the path of the earlier macro otherwise, as in the code.
- The per-field macro calls that save and erase a bridge or a port are one loop over the field
  table, in the order of the calls.
- PSM lists exactly the instance numbers that have a record under a name, each once, in any order.
- A reboot keeps PSM, the VLAN range and the name prefix. Boot skips a bridge with the number 0, so
  that the theorems about a reboot ask that there is none.
- `low < high` for the VLAN range, and the range of the VLAN counter at boot follows.
- In syscfg an absent key and an empty value read the same. At most one syscfg call fails in a
  request, and the calls of its rollback succeed; requests are serial, since the two caches are
  shared by both kinds of request. They are large enough for the table and the document.
- `Execute` and `ExecuteLan` stand for the webconfig framework, which calls the rollback after an
  error code; the framework itself is not part of this model.
- The number of a LAN mask text that is no dotted quad is an input, because the mask is converted
  without a check. Address texts other than dotted quads are unreadable to `inet_addr`, which
  also accepts shorter forms. `atoi` and `sscanf` read texts without leading blanks.
- Event names have at most 30 characters. The code copies 31 characters into an uninitialised
  array of 32, so that longer names are not terminated.
- The default pool is disabled and its lists are zeros at the end, as the pool reader assumes.
- The objects of the RFC store have one entry a key, compared without case.

## Model

| member | source | states |
|---|---|---|
| `Text.AddToken` | source-arm/TR-181/board_sbapi/cosa_bridging_apis.c:2691-2723 | Refuses a token that is in the list without regard to case, otherwise appends it after a delimiter (or alone, to an empty list). |
| `Text.DelToken` | source-arm/TR-181/board_sbapi/cosa_bridging_apis.c:2725-2766 | Succeeds exactly when the token is there, and then the list is rebuilt from the tokens that do not match. |
| `Text.NextToken` | source-arm/TR-181/board_sbapi/cosa_bridging_apis.c:2706-2717 | One strtok_r step: the token list of the text is the returned token followed by the tokens of the rest. |
| `Text.AppendedTokens` | source-arm/TR-181/board_sbapi/cosa_bridging_apis.c:2691-2723 | For a delimiter-free token, tokens(add(t, s)) is tokens(s) followed by t, also for blank lists such as " ". |
| `Text.RemovedTokens` | source-arm/TR-181/board_sbapi/cosa_bridging_apis.c:2725-2766 | tokens(del(t, s)) is tokens(s) without every case-insensitive match, in order. |
| `Text.RemoveUndoesAppend` | source-arm/TR-181/board_sbapi/cosa_bridging_apis.c:2691-2766 | Deleting a freshly added token gives the old token list back. |
| `Text.EditsKeepDistinct` | source-arm/TR-181/board_sbapi/cosa_bridging_apis.c:2691-2766 | Both edits keep a list free of case-insensitive duplicates. |
| `Text.SameTextIff` | source-arm/TR-181/board_sbapi/cosa_bridging_apis.c:2707-2716 | Two texts are compared equal exactly when they have one length and differ at most in the case of the letters A to Z. |
| `Text.TokensAreRuns` | source-arm/TR-181/board_sbapi/cosa_bridging_apis.c:2706-2717 | The tokens of a text are its maximal runs of characters other than blanks, in their order: each at its position, separated by blanks, and nothing but blanks outside them. |
| `BridgeData.ReloadPort` | source-arm/TR-181/board_sbapi/cosa_bridging_apis.c:3221-3403 | A port that was saved reads back as itself up to a fixed normalisation (EthVlan to Eth; Usb, Hpna, HomePlug and Upa to none; an unknown mode to tagging). |
| `BridgeData.NormalKeepsMember` | source-arm/TR-181/board_sbapi/cosa_bridging_apis.c:2387-2415 | The normalisation is idempotent and keeps the member list and the member string of every port. |
| `BridgeData.ReloadBridge` | source-arm/TR-181/board_sbapi/cosa_bridging_apis.c:3039-3219 | A bridge's own records read back as saved; an unknown standard comes back as 802.1D. |
| `BridgeData.SaveBridgeEffect` | source-arm/TR-181/board_sbapi/cosa_bridging_apis.c:3126-3219 | A save writes every own field, blanks the five lists and the Link record exactly when the bridge has no ports, and touches no other record. |
| `BridgeData.EraseBridgeEffect` | source-arm/TR-181/board_sbapi/cosa_bridging_apis.c:3014-3037 | Deleting a bridge removes exactly the records of the bridge template. |
| `BridgeData.ErasePortEffect` | source-arm/TR-181/board_sbapi/cosa_bridging_apis.c:2607-2625 | Deleting a port removes its twelve records and no other. |
| `BridgeSteps.AddPortKeepsIndex` | source-arm/TR-181/board_sbapi/cosa_bridging_apis.c:3861-3910 | Adding a port keeps every member list equal to the set of member strings of its enabled, named, non-management ports. |
| `BridgeSteps.DelPortKeepsIndexIff` | source-arm/TR-181/board_sbapi/cosa_bridging_apis.c:2583-2659 | Deleting a port keeps the lists right if and only if no remaining active port of that list has the same member string. |
| `BridgeSteps.SetPortKeepsIndexIff` | source-arm/TR-181/board_sbapi/cosa_bridging_apis.c:1741-1776 | Reconfiguring a port keeps the lists right if and only if it disturbs none: it takes away no string that another active port of the list still carries, and a string that it files for a management port or under a list left over from the old type, or leaves behind because a management flag changed unseen by the guard, is carried there by another port. No condition is put on the other ports. |
| `BridgeInvariant.AddPortLink` | source-arm/TR-181/board_sbapi/cosa_bridging_apis.c:3900-3904 | Adding a port keeps: a port that needs the hidden interface forces bUpstream to FALSE and the interface into the Link record; and where bUpstream was FALSE exactly when the record named the interface, it stays so. |
| `BridgeInvariant.DelPortLink` | source-arm/TR-181/board_sbapi/cosa_bridging_apis.c:2637-2657 | After every deletion, whatever held before, bUpstream is FALSE exactly when an enabled, named, non-upstream, non-management port remains, and the Link record agrees. |
| `BridgeInvariant.SetPortLinkIff` | source-arm/TR-181/board_sbapi/cosa_bridging_apis.c:1741-1755 | Reconfiguring keeps flag and record together if they were; both stay forced if and only if the port did not start to need the hidden interface through a field that the guard does not watch. |
| `BridgeInvariant.SaveBridgeLinkIff` | source-arm/TR-181/board_sbapi/cosa_bridging_apis.c:3192-3214 | Saving a bridge keeps flag and Link record together if and only if a bridge without ports is an upstream bridge. |
| `BridgeInvariant.AddPortKeepsInv` | source-arm/TR-181/board_sbapi/cosa_bridging_apis.c:3861-3910 | Adding a port with a fresh number and an untaken member string keeps the whole bridge invariant: lists, no repeats in them, Link record, port records and counter; to the letter, or up to what a reload loses. |
| `BridgeInvariant.DelPortKeepsInv` | source-arm/TR-181/board_sbapi/cosa_bridging_apis.c:2583-2659 | Every deletion call, refused or not, keeps the whole bridge invariant. |
| `BridgeInvariant.SetPortKeepsInv` | source-arm/TR-181/board_sbapi/cosa_bridging_apis.c:1699-1776 | A fitting reconfiguration keeps the whole bridge invariant. |
| `BridgeInvariant.SaveBridgeKeepsInv` | source-arm/TR-181/board_sbapi/cosa_bridging_apis.c:1182-1213 | A change of the bridge's own settings followed by a save keeps the whole bridge invariant. |
| `BridgeInvariant.TwoListsIff` | source-arm/TR-181/board_sbapi/cosa_bridging_apis.c:2387-2415 | A token is in two lists of a bridge if and only if two active ports carry one member string into different lists. |
| `PortOutcomes.AddPortFiles` | source-arm/TR-181/board_sbapi/cosa_bridging_apis.c:483-556 | Adding a port: for an enabled, named port that is no management port, the list that its link name or type selects has the tokens that it had and behind them the link name, with "-t" in pass-through mode, unless that is there already; every other list, and every list for any other port, is as it was. |
| `PortOutcomes.AddPortFilesFresh` | source-arm/TR-181/board_sbapi/cosa_bridging_apis.c:483-540 | The same list by list for a string that is not there: behind the tokens of the sw list when the name has "sw" in it, and otherwise of the WiFi list for WiFiSsid, the Ethernet list for Eth and EthVlan, the MoCA list for Moca and the GRE list for Gre; linkName + "-t" for a pass-through port and linkName otherwise. |
| `PortOutcomes.DelPortUnfiles` | source-arm/TR-181/board_sbapi/cosa_bridging_apis.c:2627-2635 | Deleting a named port takes exactly that string out of that list, and touches no other. |
| `PortOutcomes.SetPortRefiles` | source-arm/TR-181/board_sbapi/cosa_bridging_apis.c:3921-3949 | Reconfiguring a port, when link name, link type, enable flag or mode differs: the old string leaves its list, and then the new one goes behind the tokens of its list, or of the old name's list when it has none, if the port is enabled and named; otherwise no list changes. |
| `PortOutcomes.PortIsAdded` | source-arm/TR-181/board_sbapi/cosa_bridging_apis.c:3861-3910 | The port goes to the end of the list with each setting as it was given, the VLAN id of the bridge, and for a management port the bridge's name; each of its twelve records has the text of its setting and they read back as the port; the counter is one higher; the flag is cleared and Link set to l2sd0-t exactly for an enabled, named port that is not upstream; no other record changes. |
| `PortOutcomes.PortIsReconfigured` | source-arm/TR-181/board_sbapi/cosa_bridging_apis.c:1716-1776 | The port that is addressed has each setting as it was given, and its records say so and read back; the other ports and the rest of the bridge are as before; flag and Link change only when the port moves. |
| `PortOutcomes.PortIsDeleted` | source-arm/TR-181/board_sbapi/cosa_bridging_apis.c:2583-2659 | A port without allow-delete stays. Otherwise the others keep their order, the counter goes down, the twelve records are gone, and flag and Link follow from whether an enabled, named, non-management port that is not upstream is left. |
| `PortOutcomes.NoSuchPort` | source-arm/TR-181/board_sbapi/cosa_bridging_apis.c:2594-2605 | A number that no port has changes nothing, and the deletion says so. |
| `PortOutcomes.PortFromRecords` | source-arm/TR-181/board_sbapi/cosa_bridging_apis.c:3221-3324 | What each of the twelve record texts is read as, whatever it is. |
| `BridgeIds.NextVidIsFirstFree` | source-arm/TR-181/board_sbapi/cosa_bridging_apis.c:2419-2457 | The VLAN allocator finds an id exactly when one of [low, high) is free, and it is the first free one in cyclic order from the counter; Depth + 1 tries always suffice. |
| `BridgeIds.FirstNameIsFree` | source-arm/TR-181/board_sbapi/cosa_bridging_apis.c:2459-2499 | When every name is prefix + number below the counter, the substring test never refuses the first candidate, the name is fresh, and this stays so. |
| `BridgeIds.SearchName` | source-arm/TR-181/board_sbapi/cosa_bridging_apis.c:2459-2499 | In general, a name that is handed out is a substring of no existing name. |
| `BridgeIds.LoadNumbers` | source-arm/TR-181/board_sbapi/cosa_bridging_apis.c:3100-3104 | A reload puts the name counter above the number of every name. |
| `BridgeIds.LoadedVidInRange` | source-arm/TR-181/board_sbapi/cosa_bridging_apis.c:702 | Boot leaves low <= nxtVid <= high. |
| `BridgeRuns.RunKeepsInv` | source-arm/TR-181/board_sbapi/cosa_bridging_apis.c:638-1776 | Over every run of add and delete bridge, configure bridge, change VLAN id, add, delete and configure port calls that fit, with reboots anywhere between them: member lists, Link records, port records, counters, VLAN ids and names stay in agreement with the table, up to what a reload loses, and to the letter when every reboot found settled bridges. |
| `BridgeRuns.RunFromEmpty` | source-arm/TR-181/board_sbapi/cosa_bridging_apis.c:637-1776 | So it is after every such run from an empty table over a PSM without bridge records, to the letter or up to what a reload loses. |
| `BridgeState.EmptyTableInv` | source-arm/TR-181/board_sbapi/cosa_bridging_apis.c:637-676 | An empty table over a PSM without bridge records is a start of such a run. |
| `BridgeRuns.AddEntryKeepsInv` | source-arm/TR-181/board_sbapi/cosa_bridging_apis.c:1021-1096 | Adding a bridge succeeds exactly when a VLAN id is free and keeps the table invariant, distinct ids included. |
| `BridgeRuns.DelEntryKeepsInv` | source-arm/TR-181/board_sbapi/cosa_bridging_apis.c:1127-1152 | Every bridge deletion call keeps the table invariant. |
| `BridgeRuns.RunIndexesPorts` | source-arm/TR-181/board_sbapi/cosa_bridging_apis.c:483-556 | After any run, reboots included, a token is in a list exactly when an enabled, named, non-management port classified to that list carries it, without regard to case, and no list has a token twice. |
| `BridgeRuns.RunTwoListsIff` | source-arm/TR-181/board_sbapi/cosa_bridging_apis.c:483-556 | After any run a token is in two lists of a bridge if and only if two of its active ports carry one member string into different lists. |
| `BridgeRuns.RunConservesRecords` | source-arm/TR-181/board_sbapi/cosa_bridging_apis.c:2583-2625 | After any run, reboots included, a port record exists exactly when its port is in a live bridge; the records of the port read back as the port, normalised, and each holds its present value when every reboot found settled bridges. |
| `BridgeRuns.DeleteAfterReboot` | source-arm/TR-181/board_sbapi/cosa_bridging_apis.c:2583-2659 | A port deletion after a reboot removes the token that the port had been filed under before it, and no other token of any list. |
| `BridgeRuns.LeavesIff` | source-arm/TR-181/board_sbapi/cosa_bridging_apis.c:1127-1152 | A bridge leaves the table exactly through a delete call, with allow-delete set and no ports; no reboot loses one. |
| `BridgeRuns.ChangeVidKeepsDistinctIff` | source-arm/TR-181/board_sbapi/cosa_bridging_apis.c:2508-2517 | A VLAN id set through a VLAN entry keeps the ids distinct if and only if no other bridge has it. |
| `BridgeRuns.AddThenDelBridge` | source-arm/TR-181/board_sbapi/cosa_bridging_apis.c:1021-1152 | Adding a bridge and deleting it gives the table and every PSM record back. |
| `BridgeRuns.AddThenDelPort` | source-arm/TR-181/board_sbapi/cosa_bridging_apis.c:2583-2659 | Adding a port and deleting it gives the port list, the counter, every record outside the list fields and the tokens of every list, in order, back. |
| `BridgeOutcomes.AddressedBridgeSteps` | source-arm/TR-181/board_sbapi/cosa_bridging_apis.c:1021-1776 | Each operation steps the first bridge with the number that it is given, and leaves every other bridge and the counters alone. |
| `BridgeOutcomes.UnknownBridgeSteps` | source-arm/TR-181/board_sbapi/cosa_bridging_apis.c:1603-1776 | An operation on a number that no bridge has changes nothing. |
| `BridgeOutcomes.ConfiguredThroughTable` | source-arm/TR-181/board_sbapi/cosa_bridging_apis.c:1699-1776 | The reconfiguration step on the table, setting by setting: alias, link, management, priority tag, mode, enable, upstream, allow-delete, VLAN id and name of the port that is addressed; its records; and every other port, bridge and record as before. |
| `BridgeOutcomes.BridgeIsConfigured` | source-arm/TR-181/board_sbapi/cosa_bridging_apis.c:1182-1213 | Standard, alias and enable flag, or the VLAN id, are what was given and the rest is as before; the nine own records have their texts, and the lists and Link are a blank for a bridge without ports and as before otherwise. |
| `BridgeOutcomes.BridgeIsAdded` | source-arm/TR-181/board_sbapi/cosa_bridging_apis.c:1021-1096 | Without a free id nothing changes. Otherwise the id is the first free one from the counter on, around the end of the range, and the counter is behind it; without a free name among as many candidates as there are bridges and one more that is all; otherwise the name is the prefix and the first number whose name is inside no bridge's name, and the bridge goes to the end of the table with each setting as given and its records saved. |
| `BridgeOutcomes.NewNameIsCounter` | source-arm/TR-181/board_sbapi/cosa_bridging_apis.c:2459-2499 | Over names made by the allocator the new name is the prefix and the counter. |
| `BridgeOutcomes.BridgeIsDeleted` | source-arm/TR-181/board_sbapi/cosa_bridging_apis.c:1127-1152 | A protected bridge and one with ports stay; otherwise the others keep their order and exactly the records of the bridge go. |
| `BridgeOutcomes.NoSuchBridge` | source-arm/TR-181/board_sbapi/cosa_bridging_apis.c:1127-1152 | A number that no bridge has changes nothing and is an error. |
| `BridgeOutcomes.BridgeFromRecords` | source-arm/TR-181/board_sbapi/cosa_bridging_apis.c:3039-3125 | What each record text of a bridge is read as, and the listed ports with the counter and the flag that follow from them. |
| `BridgeOutcomes.RebootReads` | source-arm/TR-181/board_sbapi/cosa_bridging_apis.c:638-803 | A reboot reads the listed bridges in their order; the VLAN counter is behind every id of the range that was read and right behind one of them, or at the low bound; the name counter is 64 at least and behind every number. |
| `BridgeOutcomes.RebootCountsNames` | source-arm/TR-181/board_sbapi/cosa_bridging_apis.c:3100-3104 | Over names made by the allocator the name counter is 64 or one behind a number that was read. |
| `BridgeOutcomes.ZeroIsSkipped` | source-arm/TR-181/board_sbapi/cosa_bridging_apis.c:679-684 | A bridge that is listed under the number 0 is not read. |
| `BridgeOutcomes.RebootReturns` | source-arm/TR-181/board_sbapi/cosa_bridging_apis.c:638-803 | After a reboot of a table in agreement with its records each bridge is there with each setting and with its ports, setting by setting; the standard, five link types and an unknown mode are what may change. |
| `BridgeOutcomes.RunListsThePorts` | source-arm/TR-181/board_sbapi/cosa_bridging_apis.c:483-556 | After any run, reboots included, a list names a word exactly when an enabled, named, non-management port that belongs in it has the word as its link name, with "-t" in pass-through mode, without regard to case. |
| `BridgeReload.ListingExists` | source-arm/TR-181/board_sbapi/cosa_bridging_apis.c:671-674 | Every PSM has a listing that boot can be given: the bridge numbers on record, each with its port numbers. |
| `BridgeReload.ReloadKeepsInv` | source-arm/TR-181/board_sbapi/cosa_bridging_apis.c:752-792 | Reloading any bridge gives its ports back, normalised, with the counter, the member lists, the port records and a forced Link record. |
| `BridgeReload.ReloadKeepsInvIff` | source-arm/TR-181/board_sbapi/cosa_bridging_apis.c:752-792 | It gives the whole invariant back to the letter if and only if bUpstream said whether all ports are upstream and no link type or standard is lost in its text. |
| `BridgeReload.BootKeepsInv` | source-arm/TR-181/board_sbapi/cosa_bridging_apis.c:638-803 | Booting from the records of any table, with bridges and ports listed in any order, gives every bridge back once with its normalised ports; the lists, the records, the distinct ids and both allocators are right. |
| `BridgeReload.BootKeepsInvIff` | source-arm/TR-181/board_sbapi/cosa_bridging_apis.c:638-803 | The new table satisfies the invariant to the letter if and only if every bridge was settled. |
| `BridgeTable.PsmStore.AddListMember` | source-arm/TR-181/board_sbapi/cosa_bridging_apis.c:2874-2887 | Reads the list of a path, adds the token and writes it back when the token was new. |
| `BridgeTable.PsmStore.RemoveListMember` | source-arm/TR-181/board_sbapi/cosa_bridging_apis.c:2889-2903 | Reads the list of a path, deletes the token and writes it back when the token was there. |
| `BridgeTable.PsmStore.AddMembers` | source-arm/TR-181/board_sbapi/cosa_bridging_apis.c:550-556 | Files a named port's member string under the list its link name or type selects, or under the path left in the buffer; PortOutcomes says which string and which list these are. |
| `BridgeTable.PsmStore.RemoveMembers` | source-arm/TR-181/board_sbapi/cosa_bridging_apis.c:542-548 | Takes a named port's member string from its list and leaves the path in the buffer; PortOutcomes says which string and which list these are. |
| `BridgeTable.PsmStore.SetBPort` | source-arm/TR-181/board_sbapi/cosa_bridging_apis.c:3326-3403 | Writes the twelve records of a port. |
| `BridgeTable.PsmStore.SetBr` | source-arm/TR-181/board_sbapi/cosa_bridging_apis.c:3126-3219 | Writes the own records of a bridge, and the blank lists when it has no ports. |
| `BridgeTable.PsmStore.DelBr` | source-arm/TR-181/board_sbapi/cosa_bridging_apis.c:3014-3037 | Deletes every record of the bridge template. |
| `BridgeTable.Bridge.SwBrAddPort` | source-arm/TR-181/board_sbapi/cosa_bridging_apis.c:3861-3910 | Appends the port, counts it, writes its records, files it and sets the Link record, as the add step says. |
| `BridgeTable.Bridge.DelBPort` | source-arm/TR-181/board_sbapi/cosa_bridging_apis.c:2583-2659 | The delete step, with its two refusals. |
| `BridgeTable.Bridge.AnyNeedsLink` | source-arm/TR-181/board_sbapi/cosa_bridging_apis.c:2637-2645 | The search loop: TRUE exactly when some port needs the hidden interface. |
| `BridgeTable.Bridge.ConfirmStructureUpdate` | source-arm/TR-181/board_sbapi/cosa_bridging_apis.c:3921-3949 | Unlists the old member string, updates the five watched fields, files the new one and sets the Link record. |
| `BridgeTable.Bridge.PortSetCfg` | source-arm/TR-181/board_sbapi/cosa_bridging_apis.c:1716-1776 | The reconfiguration step, with the guard, or an error for a missing port; PortOutcomes.PortIsReconfigured says what the step leaves, setting by setting. |
| `BridgeTable.Bridge.LoadPortList` | source-arm/TR-181/board_sbapi/cosa_bridging_apis.c:752-792 | The ports that PSM lists, in that order, with the counter and the upstream flag that follow from them. |
| `BridgeTable.BridgeManager.GetNextVlanId` | source-arm/TR-181/board_sbapi/cosa_bridging_apis.c:2419-2457 | The nested loops find what the allocator's definition says and move the counter past it. |
| `BridgeTable.BridgeManager.GetNewBrName` | source-arm/TR-181/board_sbapi/cosa_bridging_apis.c:2459-2499 | The nested loops find what the name search says and move the counter past it. |
| `BridgeTable.BridgeManager.BrgAddEntry` | source-arm/TR-181/board_sbapi/cosa_bridging_apis.c:1021-1096 | VLAN id, then name, then the new bridge and its records; a failed name leaves the id spent. |
| `BridgeTable.BridgeManager.BrgDelEntry` | source-arm/TR-181/board_sbapi/cosa_bridging_apis.c:1127-1152 | Errors for a missing or protected bridge; a bridge with ports stays although the call reports success. |
| `BridgeTable.BridgeManager.BrgPortAddEntry` | source-arm/TR-181/board_sbapi/cosa_bridging_apis.c:1603-1622 | The add-port step on the addressed bridge, and nothing else in the table. |
| `BridgeTable.BridgeManager.BrgPortDelEntry` | source-arm/TR-181/board_sbapi/cosa_bridging_apis.c:1652-1669 | The delete-port step on the addressed bridge; success is reported whatever the step said. |
| `BridgeTable.BridgeManager.BrgPortSetCfg` | source-arm/TR-181/board_sbapi/cosa_bridging_apis.c:1699-1776 | The reconfiguration step on the addressed bridge, or an error; BridgeOutcomes.ConfiguredThroughTable says what the step leaves, setting by setting. |
| `BridgeTable.BridgeManager.BrgSetCfg` | source-arm/TR-181/board_sbapi/cosa_bridging_apis.c:1182-1213 | Standard, alias and enable flag are replaced and the bridge is saved. |
| `BridgeTable.BridgeManager.UpdateBrVlanId` | source-arm/TR-181/board_sbapi/cosa_bridging_apis.c:2508-2517 | The id is replaced unchecked, and the bridge saved, when it differs. |
| `BridgeTable.BridgeManager.BrgInit` | source-arm/TR-181/board_sbapi/cosa_bridging_apis.c:638-803 | The table that PSM lists, bridge by bridge and port by port, with both counters moved past what is found. |
| `Syscfg.BackupNames` | source-arm/TR-181/board_sbapi/cosa_dhcpv4_webconfig_apis.c:331-406 | The backup holds the present values of exactly the table keys that have one: the count and the three keys of slots 1 .. count. |
| `Atomicity.BackupSize` | source-arm/TR-181/board_sbapi/cosa_dhcpv4_webconfig_apis.c:331-406 | A table with complete slots 1 .. n gives at least 3 n parameters, so that the cleanup loop starts behind them. |
| `Atomicity.BlankSlotsDoNotHelp` | source-arm/TR-181/board_sbapi/cosa_dhcpv4_webconfig_apis.c:289-329 | The cleanup loop starts at the number of saved parameters, not of hosts; all the same no table with an incomplete slot, blank or not, has it where the loop passes. |
| `Atomicity.WellFormedRecovers` | source-arm/TR-181/board_sbapi/cosa_dhcpv4_webconfig_apis.c:666-790 | For a table with a count and complete slots, a failure at any unset, set or later step followed by rollback leaves the visible table as it was before the request. |
| `Atomicity.AtomicIff` | source-arm/TR-181/board_sbapi/cosa_dhcpv4_webconfig_apis.c:666-790 | That holds for every document and every point of failure if and only if the count is there and each slot is complete. |
| `Validation.AcceptedAtomicIff` | source-arm/TR-181/board_sbapi/cosa_dhcpv4_webconfig_apis.c:442-790 | The same equivalence over the documents that pass validation, as soon as some entry does. |
| `Atomicity.NotWellFormedIsDamaged` | source-arm/TR-181/board_sbapi/cosa_dhcpv4_webconfig_apis.c:289-329 | For any other table every longer document damages the visible table when it fails after its last write. |
| `Atomicity.RollbackHarmlessIff` | source-arm/TR-181/board_sbapi/cosa_dhcpv4_webconfig_apis.c:684-694 | The caches outlive a request, and a refusal for bridge mode does not reset them. Its rollback is unobservable if and only if each visible key has no value where the cleanup loop passes and elsewhere is given by the backup, if at all, the value it has. |
| `Atomicity.RefusalUndoesLastCommit` | source-arm/TR-181/board_sbapi/cosa_dhcpv4_webconfig_apis.c:684-790 | A request succeeds, bridge mode is switched on, and the next request is refused and rolled back: that undoes the request that had succeeded, and is harmless only if it had changed nothing visible. |
| `Atomicity.CommitShowsDocument` | source-arm/TR-181/board_sbapi/cosa_dhcpv4_webconfig_apis.c:408-440 | After a success the visible table is exactly the document, in order, whatever the old table was. |
| `Atomicity.ClearEmpties` | source-arm/TR-181/board_sbapi/cosa_dhcpv4_webconfig_apis.c:695-719 | A success with an empty document leaves an empty visible table. |
| `Atomicity.BackupReturnsCache` | source-arm/TR-181/board_sbapi/cosa_dhcpv4_webconfig_apis.c:331-440 | Running the backup reader on a committed table returns the applied cache, entry by entry, when no comment key that it can read has a value. |
| `Atomicity.HostRoundTrip` | source-arm/TR-181/board_sbapi/cosa_dhcpv4_webconfig_apis.c:424-425 | A host line splits back into its two addresses. |
| `LanAtomicity.LanAtomicIff` | source-arm/TR-181/board_sbapi/cosa_dhcpv4_webconfig_apis.c:815-902 | A failed LAN request and its rollback are unobservable, in the six keys and in every other, if and only if no key written before the failure was absent before. |
| `LanAtomicity.LanAlwaysAtomicIff` | source-arm/TR-181/board_sbapi/cosa_dhcpv4_webconfig_apis.c:1162-1178 | Over all points of failure: if and only if all six keys were present. |
| `LanAtomicity.LanCommitted` | source-arm/TR-181/board_sbapi/cosa_dhcpv4_webconfig_apis.c:1082-1160 | A success leaves the document in the six keys and touches no other; ServedLan says which text is under which key. |
| `LanAtomicity.TextsShowLan` | source-arm/TR-181/board_sbapi/cosa_dhcpv4_webconfig_apis.c:869-902 | The six keys of such a database are the gateway, the mask, "1" or "0" for the enable flag, the start, the end and the printed lease time. |
| `LanAtomicity.RefusedLanIff` | source-arm/TR-181/board_sbapi/cosa_dhcpv4_webconfig_apis.c:1099-1110 | The rollback of a LAN request that bridge mode refuses applies what an earlier request left in the backup cache; it is unobservable if and only if each key named there has the value given there. |
| `LanAtomicity.LanRefusalUndoesLastCommit` | source-arm/TR-181/board_sbapi/cosa_dhcpv4_webconfig_apis.c:1099-1178 | After a LAN request that succeeded, such a rollback gives each of the six keys that had a value before that request its old value back. |
| `LanCheck.RangeIsNetworkIff` | source-arm/TR-181/board_sbapi/cosa_dhcpv4_webconfig_apis.c:928-941 | The addresses from gw & mask to its broadcast address are the gateway's network if and only if the mask is contiguous; the validation does not ask for that. |
| `LanCheck.AcceptedPool` | source-arm/TR-181/board_sbapi/cosa_dhcpv4_webconfig_apis.c:943-1002 | Every address of an accepted pool is strictly between the network and the broadcast address, and in the gateway's network when the mask is contiguous. |
| `LanCheck.GatewayOutsideIff` | source-arm/TR-181/board_sbapi/cosa_dhcpv4_webconfig_apis.c:928-941 | The gateway is outside every accepted pool, of which only the ends are compared with it, if and only if it lies next to one end of the range. |
| `LanCheck.LongMaskKeepsGatewayOut` | source-arm/TR-181/board_sbapi/cosa_dhcpv4_webconfig_apis.c:943-1002 | So it is for masks of at least 24 ones. |
| `LanCheck.PrivatePoolIff` | source-arm/TR-181/board_sbapi/cosa_dhcpv4_webconfig_apis.c:77-87 | For every mask that the validation accepts, contiguous or not, all accepted pools are private if and only if the mask covers the mask of the gateway's private block (section 3 of RFC 1918). |
| `LanCheck.CoveredPoolIsPrivate` | source-arm/TR-181/board_sbapi/cosa_dhcpv4_webconfig_apis.c:77-87 | If the mask covers that block's mask every address of an accepted pool is private. |
| `RequestOutcomes.GoodNumbersIff` | source-arm/TR-181/board_sbapi/cosa_dhcpv4_webconfig_apis.c:905-1002 | The numbers of a LAN block are accepted exactly when start <= end, the gateway is in 10/8, 172.16/12 or 192.168/16 and ends in 1, the mask is neither zero nor all ones, both ends are strictly inside the range of gateway and mask and are neither the gateway nor loopback nor multicast, and the lease time is whole minutes, 120 to 999, or unlimited. |
| `RequestOutcomes.GoodBlockIff` | source-arm/TR-181/board_sbapi/cosa_dhcpv4_webconfig_apis.c:943-1024 | A LAN document is accepted exactly when it has a block and the texts of its gateway, start and end are dotted addresses with such numbers. |
| `RequestOutcomes.FirstLanFault` | source-arm/TR-181/board_sbapi/cosa_dhcpv4_webconfig_apis.c:943-1002 | For readable texts the verdict is that of the first test that fails: range order, private gateway that ends in 1, mask, both ends, lease time. |
| `RequestOutcomes.UnreadableLan` | source-arm/TR-181/board_sbapi/cosa_dhcpv4_webconfig_apis.c:943-1024 | Before that: the empty-document code without a block, the gateway verdict for an unreadable gateway, and the range verdict for an unreadable start or end. |
| `Validation.AcceptedLanPool` | source-arm/TR-181/board_sbapi/cosa_dhcpv4_webconfig_apis.c:943-1024 | The same for the texts of an accepted LAN document, with the mask that its text says when that is a dotted quad. |
| `WebConfig.CheckMacHasValidCharacter` | source-arm/TR-181/board_sbapi/cosa_dhcpv4_webconfig_apis.c:136-155 | The pointer walk accepts exactly the 17-character texts of hexadecimal pairs and colons. |
| `WebConfig.ValidateMac` | source-arm/TR-181/board_sbapi/cosa_dhcpv4_webconfig_apis.c:157-174 | Accepts those, except the null address. |
| `Validation.AcceptedReadsBack` | source-arm/TR-181/board_sbapi/cosa_dhcpv4_webconfig_apis.c:442-470 | An accepted document has no comma in its addresses, so its host lines read back. |
| `RequestOutcomes.GoodMacIff` | source-arm/TR-181/board_sbapi/cosa_dhcpv4_webconfig_apis.c:136-174 | A hardware address is accepted exactly when it has 17 characters, colons at the third, sixth, ninth, twelfth and fifteenth and hexadecimal digits elsewhere, and is not the null address. |
| `RequestOutcomes.GoodClientIff` | source-arm/TR-181/board_sbapi/cosa_dhcpv4_webconfig_apis.c:106-174 | A static client is accepted exactly when its hardware address is, and its address is a dotted one that is within the DHCP range, ends included, or the range is not set. |
| `RequestOutcomes.FirstFaultIs` | source-arm/TR-181/board_sbapi/cosa_dhcpv4_webconfig_apis.c:106-470 | The verdict on a document is that of its first bad entry: an unreadable address, else one outside the range, else the hardware address. |
| `RequestOutcomes.GoodRequestIsServed` | source-arm/TR-181/board_sbapi/cosa_dhcpv4_webconfig_apis.c:666-1160 | When the mode key is absent or "0", no call fails and the data model is there, a request of good entries or a good block succeeds; then the count is the number of entries and slot i has "chaddr,yiaddr,", the number i and StaticAddress with i, or each of the six LAN keys has its text. |
| `RequestOutcomes.BadRequestIsRefused` | source-arm/TR-181/board_sbapi/cosa_dhcpv4_webconfig_apis.c:666-1160 | In that mode any other request is refused, changes nothing and clears the caches. |
| `RequestOutcomes.OtherModeRefuses` | source-arm/TR-181/board_sbapi/cosa_dhcpv4_webconfig_apis.c:684-1103 | With any other text under the mode key every request of both kinds is refused, and the caches stay. |
| `RequestOutcomes.ModeDecides` | source-arm/TR-181/board_sbapi/cosa_dhcpv4_webconfig_apis.c:684-1103 | After the mode is set to "0" the next good request is served and shown, and after any other text it is refused. |
| `RequestOutcomes.FailureShowsTheOld` | source-arm/TR-181/board_sbapi/cosa_dhcpv4_webconfig_apis.c:666-1178 | After an error in router mode the count and each key of each slot read as before, if all were there, and every key does, if the six LAN keys were there. |
| `RequestOutcomes.StoredPoolIsInside` | source-arm/TR-181/board_sbapi/cosa_dhcpv4_webconfig_apis.c:869-1160 | After a LAN request that succeeded the stored start and end are addresses with start <= end, strictly inside the range of the stored gateway and the document's mask. |
| `RequestOutcomes.BackupKeeps` | source-arm/TR-181/board_sbapi/cosa_dhcpv4_webconfig_apis.c:331-406 | The backup names exactly the keys with a text among the two counts, the host, number, alias and comment of each slot up to the count, and the comment under the hardware address of a slot, if that has at most 15 characters; each with its present text. |
| `WebConfig.RequestHandler.UnsetAllDbValues` | source-arm/TR-181/board_sbapi/cosa_dhcpv4_webconfig_apis.c:239-261 | The keys before the failing call are unset and the others are not; which call fails, and how many there are, is exact; -1 for an empty list. |
| `WebConfig.RequestHandler.ApplyAllToDb` | source-arm/TR-181/board_sbapi/cosa_dhcpv4_webconfig_apis.c:263-287 | The values before the failing call are set and the others are not; which call fails, and how many there are, is exact; -1 for an empty list. |
| `WebConfig.RequestHandler.UnsetNotUsedParamFromDb` | source-arm/TR-181/board_sbapi/cosa_dhcpv4_webconfig_apis.c:289-329 | Unsets slots kept + 1 .. received, where both are parameter counts. |
| `WebConfig.RequestHandler.BackupFromDb` | source-arm/TR-181/board_sbapi/cosa_dhcpv4_webconfig_apis.c:331-406 | The buffer starts with the count, the keys of each slot and the comment count, as far as they have values; the comment key of a hardware address does not fit into an entry and is not saved. |
| `WebConfig.RequestHandler.UpdateConfToCache` | source-arm/TR-181/board_sbapi/cosa_dhcpv4_webconfig_apis.c:408-440 | The buffer starts with the document's parameters. |
| `WebConfig.RequestHandler.Validate` | source-arm/TR-181/board_sbapi/cosa_dhcpv4_webconfig_apis.c:442-470 | The verdict is that of the first bad entry, or the empty-document code. |
| `WebConfig.RequestHandler.Process` | source-arm/TR-181/board_sbapi/cosa_dhcpv4_webconfig_apis.c:666-766 | A request is refused exactly for bridge mode, which leaves everything as it was, or for its validation, which clears the caches; any other stops where the failing call is in the unset-then-apply sequence, with the old table in the backup cache and the parameter count recorded, and its code says what failed. |
| `WebConfig.RequestHandler.Rollback` | source-arm/TR-181/board_sbapi/cosa_dhcpv4_webconfig_apis.c:769-790 | Applies the backup cache and runs the cleanup loop; the caches stay. |
| `WebConfig.RequestHandler.Execute` | source-arm/TR-181/board_sbapi/cosa_dhcpv4_webconfig_apis.c:666-790 | With rollback after an error, the database, the caches and the code are those of a served request: it succeeds exactly when it is not refused, the data model is there and no call of its window fails; then the table shows the document, and after an error what it showed before, if that was well-formed; a refusal for bridge mode is harmless under the exact condition above. |
| `WebConfig.RequestHandler.LanBackupFromDb` | source-arm/TR-181/board_sbapi/cosa_dhcpv4_webconfig_apis.c:815-866 | The buffer starts with the present values of the six keys. |
| `WebConfig.RequestHandler.LanUpdateConfToCache` | source-arm/TR-181/board_sbapi/cosa_dhcpv4_webconfig_apis.c:869-902 | The buffer starts with the document's six parameters. |
| `WebConfig.RequestHandler.LanValidate` | source-arm/TR-181/board_sbapi/cosa_dhcpv4_webconfig_apis.c:1004-1024 | The verdict of the parameter block, or the empty-document code. |
| `WebConfig.RequestHandler.ProcessLan` | source-arm/TR-181/board_sbapi/cosa_dhcpv4_webconfig_apis.c:1082-1160 | The same for a LAN request, whose empty document is refused; an accepted one records its six parameters once they are applied. |
| `WebConfig.RequestHandler.RollbackLan` | source-arm/TR-181/board_sbapi/cosa_dhcpv4_webconfig_apis.c:1162-1178 | Applies the backup cache, whatever request filled it; the caches stay. |
| `WebConfig.RequestHandler.ExecuteLan` | source-arm/TR-181/board_sbapi/cosa_dhcpv4_webconfig_apis.c:1082-1178 | The same for LAN requests: success exactly when not refused and nothing fails, and then the six keys hold the document; after an error nothing reads differently, provided all six were there; a refusal for bridge mode is harmless under the exact condition above. |
| `WebConfig.CommitThenRefused` | source-arm/TR-181/board_sbapi/cosa_dhcpv4_webconfig_apis.c:666-790 | A run of the handler: a request that succeeds, bridge mode, and a second request, which is refused and leaves the table as it was before the first. |
| `Sessions.ServeClients` | source-arm/TR-181/board_sbapi/cosa_dhcpv4_webconfig_apis.c:666-790 | Outside bridge mode a success shows the document, a refusal changes nothing, and any other error leaves a well-formed table as it was. |
| `Sessions.ServeKeeps` | source-arm/TR-181/board_sbapi/cosa_dhcpv4_webconfig_apis.c:239-440 | A request of one kind leaves every key of the other kind alone, and every key of neither, bridge mode included. |
| `Sessions.RunShowsLast` | source-arm/TR-181/board_sbapi/cosa_dhcpv4_webconfig_apis.c:666-1178 | Over every run of static-client and LAN requests, failing at any call, the visible table is that of the last static-client request that succeeded, as long as none comes in bridge mode and none fails over a table that is not well-formed. |
| `Sessions.NeverClearsIsSafe` | source-arm/TR-181/board_sbapi/cosa_dhcpv4_webconfig_apis.c:666-1178 | From a well-formed table every run outside bridge mode is such a run as long as no request clears the table, and the table stays well-formed. |
| `Sessions.FailureAfterClear` | source-arm/TR-181/board_sbapi/cosa_dhcpv4_webconfig_apis.c:695-790 | After a request that cleared the table, every document whose request fails after its last write shows up in the table in spite of the rollback. |
| `Sessions.RunShowsLastLan` | source-arm/TR-181/board_sbapi/cosa_dhcpv4_webconfig_apis.c:815-1178 | Over every run each of the six LAN keys is that of the last LAN request that succeeded, as long as none comes in bridge mode and none fails while a key is absent. |
| `Sessions.RefusalHarmlessIff` | source-arm/TR-181/board_sbapi/cosa_dhcpv4_webconfig_apis.c:684-790 | A static-client request in bridge mode leaves the caches as they are, and the table if and only if the caches are harmless. |
| `Sessions.CommitThenRefuse` | source-arm/TR-181/board_sbapi/cosa_dhcpv4_webconfig_apis.c:666-790 | Commit, bridge mode, refusal: the table is again the one from before the commit, for all documents and codes of the second request. |
| `Sessions.LanCommitThenRefuse` | source-arm/TR-181/board_sbapi/cosa_dhcpv4_webconfig_apis.c:1082-1178 | The same for LAN requests: each key that had a value has it again. |
| `Inet.AcceptedIsQuad` | source-arm/TR-181/board_sbapi/cosa_dhcpv4_webconfig_apis.c:88-103 | Every accepted address text is the print of its four octets. |
| `Inet.ReadsIff` | source-arm/TR-181/board_sbapi/cosa_dhcpv4_webconfig_apis.c:88-103 | An address text is accepted, with the number n, exactly when it is the print of four octets that make up n. |
| `Decimal.DecDigits` | source-arm/TR-181/board_sbapi/cosa_dhcpv4_webconfig_apis.c:417-433 | A printed number ends in its last decimal digit, behind the print of the rest. |
| `Dispatcher.CallbackList.FindListByEventName` | source-arm/TR-181/board_sbapi/cosa_common_util.c:115-159 | Find or create by name: at most one entry a name, and a created one changes no event's callbacks. |
| `Dispatcher.CallbackList.Register` | source-arm/TR-181/board_sbapi/cosa_common_util.c:162-216 | The callback goes to the end of its event; no other event changes; a null name or function is refused and changes nothing. |
| `Dispatcher.CallbackList.Dispatch` | source-arm/TR-181/board_sbapi/cosa_common_util.c:219-255 | All callbacks of the event run in registration order, the result is a failure exactly when one of the calls fails, and dispatching an unknown event is unobservable. |
| `Dispatcher.CallbackList.Clear` | source-arm/TR-181/board_sbapi/cosa_common_util.c:258-291 | Terminates, frees every entry and every node exactly once and nothing else, and leaves the empty map. |
| `Dispatcher.RegisterAndDispatch` | source-arm/TR-181/board_sbapi/cosa_common_util.c:115-291 | Any sequence of registrations and clears, and then a dispatch: it calls exactly the functions registered for the event since the last clear, each as often as it was registered and in that order. |
| `Dispatcher.AppendNode` | source-arm/TR-181/board_sbapi/cosa_common_util.c:206-213 | The walk to the last node: the list is the old one with the new node behind it. |
| `Dispatcher.CallAll` | source-arm/TR-181/board_sbapi/cosa_common_util.c:237-252 | The dispatch loop. |
| `Dispatcher.FreedOnce` | source-arm/TR-181/board_sbapi/cosa_common_util.c:258-291 | The order of a clear names every entry and node once. |
| `Dispatcher.EmptyLineIsUnobservable` | source-arm/TR-181/board_sbapi/cosa_common_util.c:140-158 | An event without callbacks cannot be told from an unknown one. |
| `Dispatcher.AppendToLine` | source-arm/TR-181/board_sbapi/cosa_common_util.c:206-213 | Appending to the list of one event changes what that event calls and nothing else. |
| `IpList.GetIpaddrString` | source/TR-181/middle_layer_src/cosa_dhcpv4_internal.c:3645-3690 | Prints the addresses before the first zero, separated by commas. |
| `IpList.SetIpaddr` | source/TR-181/middle_layer_src/cosa_dhcpv4_internal.c:3572-3642 | Overwrites the list with what the text says, padded with zeros, or leaves it as it is when a field is unreadable or there is a fourth comma. |
| `IpList.ListRoundTripIff` | source/TR-181/middle_layer_src/cosa_dhcpv4_internal.c:3572-3690 | A list of four survives its text if and only if its zeros are at the end and it has no 255.255.255.255. |
| `IpList.ReadIpIs` | source/TR-181/middle_layer_src/cosa_dhcpv4_internal.c:3572-3642 | A text is read as the octets that it prints, and any other text as 255.255.255.255. |
| `PoolOutcomes.ListFromTexts` | source/TR-181/middle_layer_src/cosa_dhcpv4_internal.c:3572-3642 | Reading comma-separated texts: an error for more than four, a last one of two to six characters and a text that is no address; otherwise the addresses fill the list from the front, without a last text of at most one character, and zeros follow. |
| `PoolOutcomes.ListTextPrints` | source/TR-181/middle_layer_src/cosa_dhcpv4_internal.c:3645-3690 | The text of a list is the dotted prints of the addresses before the first zero, with commas between them. |
| `Pool.WriteDecodesIff` | source-arm/TR-181/board_sbapi/cosa_dhcpv4_apis.c:920-1100 | From records that decode to the old pool, a write gives records that decode to the new pool if and only if a changed interface has the prefix, changed lists are storable and the time offset is unchanged. |
| `Pool.RunDecodes` | source-arm/TR-181/board_sbapi/cosa_dhcpv4_apis.c:1102-1241 | Over every run of an add and any number of such changes, decoding the records over the defaults gives the pool in memory. |
| `Pool.ApplyDecodesIff` | source-arm/TR-181/board_sbapi/cosa_dhcpv4_apis.c:2271-2446 | In a table with distinct numbers, in which every pool is what the records under its number decode to and no record is without a pool, an addition under a fresh number or a setting keeps this if and only if the records can hold the change; refused and misdirected settings always do. |
| `Pool.TableDecodes` | source-arm/TR-181/board_sbapi/cosa_dhcpv4_apis.c:2271-2446 | So it is over every run of such operations on any number of pools: the decoded records are the pools in memory. |
| `Pool.NoRecordsIff` | source-arm/TR-181/board_sbapi/cosa_dhcpv4_apis.c:1132-1148 | No records decode to the default pool if and only if that is disabled. |
| `Pool.UntouchedRecords` | source-arm/TR-181/board_sbapi/cosa_dhcpv4_apis.c:920-1100 | A setting that did not change keeps its record: sparse storage. |
| `Pool.RestartsIff` | source-arm/TR-181/board_sbapi/cosa_dhcpv4_apis.c:928-1099 | The restart result is TRUE exactly when a setting other than the alias differs. |
| `PoolOutcomes.PoolIsWritten` | source-arm/TR-181/board_sbapi/cosa_dhcpv4_apis.c:920-1100 | Record by record: a setting that differs leaves its text, and any other record stays; a time offset that differs goes to the record of the lease time, over a lease time that differs, and never to its own. |
| `PoolOutcomes.RestartIsNeeded` | source-arm/TR-181/board_sbapi/cosa_dhcpv4_apis.c:928-1099 | The restart result is FALSE exactly when all eleven settings other than the alias are the same. |
| `PoolOutcomes.PoolFromRecords` | source-arm/TR-181/board_sbapi/cosa_dhcpv4_apis.c:1102-1241 | Setting by setting: a record that is there decides, and the default otherwise; without a record a pool is disabled. |
| `PoolOutcomes.RefusedIff` | source-arm/TR-181/board_sbapi/cosa_dhcpv4_apis.c:2424-2436 | A setting is refused exactly for pool 2 with an end that is not in 10/8, 172.16/12 or 192.168/16. |
| `PoolOutcomes.PoolsAreSet` | source-arm/TR-181/board_sbapi/cosa_dhcpv4_apis.c:2271-2446 | An addition puts the pool at the end and writes it over the default; a setting replaces the first pool with the number and writes it over that, unless it is refused or there is none; no other number's records change. |
| `Pool.ServerPool.WriteCfg` | source-arm/TR-181/board_sbapi/cosa_dhcpv4_apis.c:920-1100 | The pool becomes the new configuration, the records under its number are those of the writer's definition and no other number's change; the result is the restart flag. |
| `Pool.PoolTable.FindPool` | source-arm/TR-181/board_sbapi/cosa_dhcpv4_apis.c:2252-2269 | The first pool of the list with the number, or none. |
| `Pool.PoolTable.AddPool` | source-arm/TR-181/board_sbapi/cosa_dhcpv4_apis.c:2271-2320 | A default pool at the end of the list, with the new configuration written over it and over the records that its number already has; a table that its records decode to stays one when the change fits. |
| `Pool.PoolTable.SetPoolCfg` | source-arm/TR-181/board_sbapi/cosa_dhcpv4_apis.c:2412-2446 | Errors for a missing pool and for public addresses of pool 2 change nothing; otherwise the first pool with the number is written, and no other pool and no other number's records; a table that its records decode to stays one when the change fits. |
| `Leases.ParseLease` | source-arm/TR-181/board_sbapi/cosa_dhcpv4_apis.c:3433-3497 | The cursor walk keeps a line exactly when it has at least five tokens and its third one is an address in the pool's range; expiry, hardware address, address and host name are the first four tokens, in that order. |
| `Leases.ReadLeases` | source-arm/TR-181/board_sbapi/cosa_dhcpv4_apis.c:3423-3606 | For every file: the entry of a kept line is behind those of the kept lines before it and holds the alias of its position, the second token as hardware address, the fourth as host name, the first as expiry and the address that the third stands for; there are no other entries; there is room for one more at every loop head, and growing by 50 loses and reorders nothing. |
| `Leases.LineMakesEntry` | source-arm/TR-181/board_sbapi/cosa_dhcpv4_apis.c:3433-3535 | A line of five words with blanks between them makes such an entry of these words exactly when the third is an address in range. |
| `Leases.FewTokensMakeNone` | source-arm/TR-181/board_sbapi/cosa_dhcpv4_apis.c:3433-3490 | A line of fewer than five tokens makes none. |
| `Leases.OptionsAreLines` | source-arm/TR-181/board_sbapi/cosa_dhcpv4_apis.c:3624-3691 | The option list of a client is exactly the option lines read while it was the current client, each once and in file order. |
| `Leases.OptionIsGiven` | source-arm/TR-181/board_sbapi/cosa_dhcpv4_apis.c:3627-3691 | An option line gives one option, with the number of its second token and the text of its third, to the first client whose dotted address is the second token of the last client line before it; the option is behind those that the client was given before, and there are no others. |
| `Leases.CursorIsLastClient` | source-arm/TR-181/board_sbapi/cosa_dhcpv4_apis.c:3651-3668 | The current client is the first one that matches the last client line. |
| `Leases.NoCursorBeforeClients` | source-arm/TR-181/board_sbapi/cosa_dhcpv4_apis.c:3624-3672 | Before any client line there is no current client, and options are dropped. |
| `Leases.OptionsConserved` | source-arm/TR-181/board_sbapi/cosa_dhcpv4_apis.c:3669-3691 | All option lists together have one entry for each option line with a current client. |
| `Leases.ReadOptions` | source-arm/TR-181/board_sbapi/cosa_dhcpv4_apis.c:3624-3691 | The loop with its reallocations leaves exactly those lists. |
| `Leases.ParseOptionLine` | source-arm/TR-181/board_sbapi/cosa_dhcpv4_apis.c:3627-3649 | A line counts when it has three tokens and starts with client or option. |
| `Rfc.SessionIsLastWriteWins` | source-arm/TR-181/board_sbapi/cosa_deviceinfo_apis.c:4963-5039 | After Start, any interleaving of clearing and direct sets and End, a key holds its last clearing set; failing that its last direct set or old entry, if that came from webpa. |
| `Rfc.NotResentVanishes` | source-arm/TR-181/board_sbapi/cosa_deviceinfo_apis.c:5010-5039 | A key that is not sent again vanishes if and only if what it held was not webpa's. |
| `Rfc.ClearingSetStays` | source-arm/TR-181/board_sbapi/cosa_deviceinfo_apis.c:4963-5039 | A key that was sent with the clear flag is left with its last such entry and no other. |
| `Rfc.DirectSetStays` | source-arm/TR-181/board_sbapi/cosa_deviceinfo_apis.c:4972-5039 | A key that was only set directly is left with its last entry if the source of that is webpa, and with none otherwise. |
| `Rfc.OldEntryStays` | source-arm/TR-181/board_sbapi/cosa_deviceinfo_apis.c:5010-5039 | A key that was not sent keeps its old entry if the source of that is webpa, and is gone otherwise. |
| `Rfc.SessionInOrder` | source-arm/TR-181/board_sbapi/cosa_deviceinfo_apis.c:4988-5039 | The order of the file: the new entries as they were sent, and behind them what is left of the old ones in the old order. |
| `Rfc.SameBatchIsIdempotent` | source-arm/TR-181/board_sbapi/cosa_deviceinfo_apis.c:4963-5039 | Sending the same batch of clearing sets again changes nothing, not even the order of the file. |
| `Rfc.FindPut` | source-arm/TR-181/board_sbapi/cosa_deviceinfo_apis.c:4988-5006 | A set is seen under its own key, without regard to case, and under no other. |
| `Rfc.RfcStore.StartRfcProcessing` | source-arm/TR-181/board_sbapi/cosa_deviceinfo_apis.c:4964-4970 | An empty object is started; store and file stay. |
| `Rfc.RfcStore.ProcessRfcSet` | source-arm/TR-181/board_sbapi/cosa_deviceinfo_apis.c:4972-5008 | A direct set goes to the store and the file, a clearing one to the new object. |
| `Rfc.RfcStore.EndRfcProcessing` | source-arm/TR-181/board_sbapi/cosa_deviceinfo_apis.c:5010-5039 | The store becomes the merge and the file is the store; without a start the store is dropped and the file stays. |
| `Examples.EthToUsbMisfiles` | source-arm/TR-181/board_sbapi/cosa_bridging_apis.c:483-540 | A reachable bridge on which turning an Ethernet port into a USB port leaves the Ethernet list wrong. |
| `Examples.ManagementMisfiles` | source-arm/TR-181/board_sbapi/cosa_bridging_apis.c:1741-1776 | A reachable bridge on which a port that only becomes a management port stays in its list. |
| `Examples.QuietUpstreamChange` | source-arm/TR-181/board_sbapi/cosa_bridging_apis.c:1741-1742 | A reachable bridge on which a change of bUpstream alone leaves the flag unforced. |
| `Examples.SharedTokenIsLost` | source-arm/TR-181/board_sbapi/cosa_bridging_apis.c:2628-2629 | Two ports with one link name: deleting one unlists the other. |
| `Examples.SharedTokenIsRenamed` | source-arm/TR-181/board_sbapi/cosa_bridging_apis.c:3921-3949 | Two ports with one link name: changing the mode of one unlists the other. |
| `Examples.OneNameInTwoLists` | source-arm/TR-181/board_sbapi/cosa_bridging_apis.c:483-540 | An Ethernet and a MoCA port with one link name: a token in two lists of a bridge that satisfies the invariant. |
| `Examples.RepeatedPortNumber` | source-arm/TR-181/board_sbapi/cosa_bridging_apis.c:3861-3910 | Two ports with one number: the records no longer say what the ports are. |
| `Examples.BlankInLinkName` | source-arm/TR-181/board_sbapi/cosa_bridging_apis.c:2691-2723 | A link name with a blank is filed as two tokens. |
| `Examples.BridgeZeroIsLost` | source-arm/TR-181/board_sbapi/cosa_bridging_apis.c:679-684 | A bridge with the number 0 is not loaded. |
| `Examples.UncheckedVid` | source-arm/TR-181/board_sbapi/cosa_bridging_apis.c:2508-2517 | Two bridges that end up with one VLAN id. |
| `Examples.UsbPortIsNotSettled` | source-arm/TR-181/board_sbapi/cosa_bridging_apis.c:3264-3278 | A bridge whose reload does not satisfy the invariant. |
| `Examples.DisabledPortIsNotSettled` | source-arm/TR-181/board_sbapi/cosa_bridging_apis.c:779-780 | A bridge with one disabled port: the reload clears a flag that the addition had left set. |
| `Examples.OtherStandardIsNotSettled` | source-arm/TR-181/board_sbapi/cosa_bridging_apis.c:3039-3125 | A bridge of unknown standard: the reload does not say what is on record. |
| `Examples.CountWithoutSlots` | source-arm/TR-181/board_sbapi/cosa_dhcpv4_webconfig_apis.c:289-329 | A count without slots: a failed request leaves a visible slot. |
| `Examples.RefusalEmptiesTable` | source-arm/TR-181/board_sbapi/cosa_dhcpv4_webconfig_apis.c:684-790 | An empty table, a document that is applied, bridge mode, and a second request: its refusal empties the table again. |
| `Examples.LanRefusalHitsClients` | source-arm/TR-181/board_sbapi/cosa_dhcpv4_webconfig_apis.c:1099-1178 | When the second request is a LAN request, its refusal puts the old host count over the new slots. |
| `Examples.NoLanKeys` | source-arm/TR-181/board_sbapi/cosa_dhcpv4_webconfig_apis.c:1162-1178 | With none of the six keys present a failed request leaves one. |
| `Examples.GapMask` | source-arm/TR-181/board_sbapi/cosa_dhcpv4_webconfig_apis.c:928-941 | 255.255.255.253 is accepted with a pool outside the gateway's network. |
| `Examples.GatewayInsidePool` | source-arm/TR-181/board_sbapi/cosa_dhcpv4_webconfig_apis.c:928-941 | Under 255.255.0.0 a pool is accepted around its gateway. |
| `Examples.PublicPool` | source-arm/TR-181/board_sbapi/cosa_dhcpv4_webconfig_apis.c:943-1002 | Under 255.254.0.0 the gateway 192.168.0.1 gets a public pool. |
| `Examples.TimeOffsetIsLost` | source-arm/TR-181/board_sbapi/cosa_dhcpv4_apis.c:1087-1097 | A changed time offset is not read back. |
| `Examples.ForeignInterface` | source-arm/TR-181/board_sbapi/cosa_dhcpv4_apis.c:920-1241 | A changed interface without the prefix is not read back. |
| `Examples.GapInList` | source/TR-181/middle_layer_src/cosa_dhcpv4_internal.c:3645-3690 | An address behind a zero is not stored. |
| `Examples.NoAddressInList` | source/TR-181/middle_layer_src/cosa_dhcpv4_internal.c:3572-3642 | A list with 255.255.255.255 is stored and not read back. |

## Left out

- PSM and memory failures, mutexes, tracing, sysevents and the switch hardware calls.
- The MULTILAN build of the bridge manager, and the calls that renumber bridges or ports
  (`CosaDmlBrgSetValues`, `CosaDmlBrgPortSetValues`): they write records under the new number and
  leave the old ones.
- The VLAN list of a bridge, except for the VLAN id that a VLAN entry sets.
- Bridge and port status, statistics and frame types: values passed through.
- The buffer that `_COSA_DelToken` leaves cut at its first delimiter when the token is absent: its
  caller does not write it back.
- Reading a name with blanks or a sign after the prefix, which `sscanf` would accept.
- The synchronisation of the data model after a request, beyond its success or failure.
- Fixed sizes of the webconfig caches, and writes beyond them.
- BridgeRuns.RunKeepsInv: the operations must fit (fresh numbers, link names that are single
  tokens, member strings not taken in the same list, no misfiling, no quiet change, an unused
  VLAN id, no bridge with the number 0 at a reboot). The lemmas named `Iff` and `Examples` show
  what fails otherwise.
- Dispatcher.CallbackList.FindListByEventName: names of more than 30 characters, because the code
  copies 31 characters into an uninitialised array of 32 and does not terminate it.
- Dispatcher.CallbackList.Register: names of more than 30 characters, which are left without a
  terminator.
- Dispatcher.CallbackList.Dispatch: names of more than 30 characters, which are left without a
  terminator.
- `EvtDispterDestroyCallbackList`, which clears the list and frees its head.
- Registering callbacks from inside a callback, and the daemon thread that reads events and calls
  the dispatcher.
- Pool.WriteDecodesIff: a changed interface of fewer than 20 characters; the code stores what its
  buffer has from the 21st character on, which is behind the end of the text.
- Pool.ServerPool.WriteCfg: such an interface.
- Pool.PoolTable.AddPool: such an interface.
- Pool.PoolTable.SetPoolCfg: such an interface, in the pool that is addressed.
- Pool 1, which is kept in another library, deleting pools, their options and static addresses,
  and `AllowDelete`, which the pool writer does not store.
- Creation time and vendor class of a lease line, whose readers step over the end of short lines,
  the conversion of times to text, the neighbour-table and association lookups, and host comments
  with the conversion of hardware addresses (`mac_string_to_array`) that they need.
- Option lines with a single token and nothing behind it: the code steps over the end of the line;
  here the line is ignored.
- The JSON text of the RFC store, and files in which a key occurs twice.
- FileTransfer, DNS, GRE, partner defaults, firmware and reboot functions: wrappers and field copies.
