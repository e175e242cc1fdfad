# Verified model of kento's core logic

kento manages containers and virtual machines through small text files, host firewall rules and allocation under
a lock. This project models that logic in Dafny and proves what it keeps. Nothing here calls kento; each module
follows one source file or one mechanism of it, and `dafny verify dfyconfig.toml` checks everything.

| module | what it models |
|---|---|
| `Text` | strings and line files as Python treats them: decimals, `int`, split and join, strip, lines, `$` before a final newline |
| `Network`, `PortSpecs` | the port-forward grammar of `_network.py`, the `kento-port` file, and the port list of create |
| `PortFwd`, `Packets` | the three firewall chains, the rules of one forward, removal by comment, and where the chains send a packet |
| `ForwardsDiff`, `ForwardsRefine`, `ForwardsSetter` | the live `forwards` setter: the plan from old to new set, the relation between chains and map, the setter with its undo stack |
| `ConfText` | config files as lists of lines: section headers, and how edited lines are put together again |
| `ConfFields`, `QmArgs` | PVE configs with snapshot sections: the line editor, its reader, and the `args:` line that follows `memory:` |
| `LxcConfig`, `PassBlock` | the native LXC config and its editor, and the block of pass-through lines at its end |
| `NetMeta`, `NetDelta`, `LxcRuns` | the network metadata files, the delta merge of `kento set`, and every run of create and set on plain LXC |
| `NetworkSetter`, `LiveResources` | the `network` setter of a stopped instance and the `resources` setter of a running container |
| `RefGrammar`, `References`, `ImageNames`, `Urls` | OCI references, directory names made from them, URL normalization |
| `Modes` | the four kinds of instances |
| `Allocation`, `CreateRollback` | VMID allocation by concurrent processes, and the undo list of create |
| `Streams`, `Qmp`, `Escape` | byte streams cut into chunks, the QMP client and the console escape detector |
| `Overlay` | overlay layers and the size of the mount options |

Code that works step by step (the setters, the editors, the stream readers, the undo lists) is written as classes and
methods with loops, each proved against a function or a direct statement of the new state; the laws are lemmas about
those functions. A call that can fail is a parameter: the number of a step, a fault, a refusing tool.

## What the code promises and where it does not

Some properties hold only under a condition. Each of these is proved with the condition and with what happens outside it.

- A failed live `forwards` assignment restores the old firewall state exactly when the failing addition had installed
  none of its three rules. The comment in `run_install` says that the caller unwinds a partial set, but the undo is
  pushed only after the whole addition, so one or two rules with the failed forward's own comment stay
  (`ForwardsRefine.PlanUnwinds`, `ForwardsSetter.Instance.SetForwards`). When removal or undo calls fail too, nothing
  beyond the rules of changed forwards is touched.
- `kento set --network bridge` without a name, on an instance without a recorded bridge, records type bridge while the
  config has no network lines. `kento set --ip ''` with a gateway recorded or given keeps the gateway in the metadata
  while the config loses both lines (`LxcRuns.EmptyAddressDisagrees`). Every other accepted call keeps config and
  metadata in agreement, and these two never do (`LxcRuns.SetStep`). `create` with a bridge name and type none writes bridge lines beside
  the type none (`LxcRuns.CreateAgrees`).
- Values with line breaks are not refused. A gateway with one writes a second owned line, which decides the bridge in the
  written file whatever the metadata records (`LxcRuns.LineBreakDisagrees`).
- Dropping a pass-through block gives the lines above it back if and only if none of them is also in the block and nothing
  above or in it looks like a section header (`PassBlock.DropGivesBack`; on file texts `PassBlock.DropTextUndoesAppend`).
  Otherwise every line above that is in the block goes too, and everything from the first header-like line on stays
  (`PassBlock.DroppedExactly`). The denylist lets lines through that kento writes itself: after
  `--lxc-arg "lxc.include = /usr/share/lxc/config/common.conf"`, clearing the list takes kento's own include away
  (`LxcRuns.IncludeIsLost`).
- Removing a field from a PVE config takes its last line only (`ConfFields.GetAfterRemove`).
- An address spelled `dhcp` without a prefix length cannot be assigned: it is read as the reserved word, and the empty
  gateway that the setter always passes is then refused (`NetworkSetter.AssignmentRoundTrips`). An assignment without a
  MAC address keeps a recorded one. On an instance that records no network type, putting the loaded value back after a
  refused assignment records type none, whatever the live config says (`NetworkSetter.UnrecordedTypeIsLost`).
- Synchronising a qm config that ends in blank lines takes one of them away each time, so that a second run is not the
  identity on the text (`QmArgs.SyncTextTwice`); on the lines it always is.
- A failed live `resources` assignment cannot undo a knob that had no recorded value, and a knob whose undo call or
  second write fails keeps the new value (`LiveResources.Container.SetResources`).
- References that are constructed rather than parsed do not all survive rendering: userinfo, a host that does not look
  like a domain, a first path component that does, and a bracketed host with a final newline are lost
  (`References.RoundTripExactly`).
- An automatic host port can land on the host port of a concrete entry of the same list, because the allocator is told
  about the other automatic ports only; `create` then refuses the list. The ports handed out depend on nothing but the
  number of automatic entries (`PortSpecs.ResolvedPorts`), and the list is accepted if and only if no concrete entry has
  one of them and no two have one binding (`PortSpecs.DistinctExactly`). Naming the first port that the allocator would
  hand out, and asking for an automatic one, is always refused (`PortSpecs.FirstPortNamed`).
- `destroy` takes no lock, does not ask whether the create it meets is finished, and removes by path. VMIDs are unique in
  every run in which no destroy removes a directory other than that of its own finished instance, and any step that does
  can be followed by one that hands the VMID out twice (`Allocation.VmidsDistinct`, `Allocation.StrayIsFatal`). Two rules
  on the callers suffice together (`Allocation.CarefulIsOrderly`): only finished instances are destroyed, and one destroy
  at a time for each instance. Neither suffices alone (`Allocation.OverlappingDestroys`, `Allocation.UnfinishedDestroy`).
- Rolling `create` back removes an image hold, a wrapper or a config of the same identity that was there before, and does
  not take back what was written into a state directory that was already there. Whatever step fails, the host is as
  before exactly when none of this was met by then (`CreateRollback.Host.Create`).
- The docstring of `sanitize_image_name` calls it injective for typical references. It is injective on every string that
  the reference parser accepts (`ImageNames.SanitizeInjective`).

## Model

| member | source | states |
|---|---|---|
| Network.SplitOutsideBrackets | src/kento/_network.py:171-202 | the loop over depth and current element yields the elements between colons outside brackets, and an error for unbalanced brackets |
| Network.ElementsJoin | src/kento/_network.py:171-202 | no character of the input is lost or moved: the elements joined by colons are the input |
| Network.ParseAfterRender | src/kento/_network.py:241-353 | parsing undoes rendering on exactly the forwards whose ports are in range, and rendering succeeds exactly for forwards without addresses |
| Network.ParseIsCanonical | src/kento/_network.py:241-353 | every accepted spelling has a canonical rendering that means the same forward |
| Network.SuffixDecides | src/kento/_network.py:270-292 | for every text before and after the last slash: `tcp` and `udp` in any letter case select the protocol and change nothing else, no suffix means TCP, everything else is refused |
| Network.HostPortFirst | src/kento/_network.py:294-301 | two numbers around a colon are the host's port and then the guest's, accepted exactly when both are between 1 and 65535 |
| Network.OnlyPortPairs | src/kento/_network.py:294-327 | nothing else is accepted before the protocol |
| Network.ParseForwards | src/kento/_network.py:356-382 | the dictionary loop refuses a second use of a binding and keeps insertion order |
| Network.RenderedSetParses | src/kento/_network.py:330-382 | a set of plain forwards renders to specs that parse to the same set exactly when no binding occurs twice |
| Network.SpecsParse | src/kento/_instances.py:747-752 | the validation at the head of the setter accepts a dictionary exactly as it is, or refuses one with a forward out of range |
| Network.ReadForwards | src/kento/_instances.py:3464-3493 | the loader's loop over the lines of `kento-port` |
| Network.PersistedSetLoads | src/kento/set_cmd.py:664-679 | the set written to `kento-port` is the set loaded from it |
| PortSpecs.ResolveFacts | src/kento/create.py:672-686 | one forward for each entry: a concrete entry's own, or the guest's port 22 on an allocated port |
| PortSpecs.AutosDiffer | src/kento/create.py:673-682 | two automatic entries of one create never get the same port |
| PortSpecs.ResolvedPorts | src/kento/create.py:672-686 | entries resolve exactly when the concrete ones parse and the allocator has a port for each automatic one; the automatic ports are what it hands out when told about the automatic ones before |
| PortSpecs.DistinctExactly | src/kento/create.py:672-689 | the resolved set uses no binding twice if and only if the concrete entries repeat none and none of them has, as TCP entry without an address, a port that the allocator hands out for that many automatic entries |
| PortSpecs.FirstPortNamed | src/kento/create.py:672-689 | whatever port the allocator hands out first, naming it and asking for an automatic port is refused |
| PortSpecs.WritePortSpecs | src/kento/create.py:651-692 | what is written loads as the resolved set, one line for each entry; otherwise nothing is written |
| PortFwd.CommentInjective | src/kento/portfwd.py:56-65 | two forwards share a comment only when instance, protocol and host port are the same |
| PortFwd.TagSelectsInstance | src/kento/portfwd.py:56-65 | the tag of one instance is never a prefix of another instance's comments |
| PortFwd.NatTable.RunInstall | src/kento/portfwd.py:193-212 | the three rules of a forward are added in order and the first failure stops the rest, leaving the rules before it |
| PortFwd.NatTable.IptablesRemove | src/kento/portfwd.py:365-393 | deleting by line number until nothing matches terminates and removes from each chain exactly the rules with the comment; rules with other comments keep their order even when calls fail |
| PortFwd.NatTable.NftRemove | src/kento/portfwd.py:338-362 | the same by handle, from one listing of each chain |
| Packets.SetIsRouted | src/kento/portfwd.py:95-149 | with chains that reflect a set: in prerouting and output every packet to a host port of the set leaves for the guest's address and that binding's guest port, and the instance's own rules redirect no other packet, other instances' rules being on other host ports |
| Packets.SentIsMasked | src/kento/portfwd.py:119-121 | a local packet that was sent on to the guest meets a masquerade rule of postrouting |
| Packets.OnlySentIsMasked | src/kento/portfwd.py:119-121 | the instance's own rules mask only local packets to the guest at a guest port of the set |
| Packets.ReflectedRoutes | src/kento/portfwd.py:95-149 | the first of these for every packet and both chains, as `ForwardsSetter.Instance.SetForwards` promises it |
| ForwardsDiff.RemovedIff | src/kento/_instances.py:765-775 | what the diff removes is exactly what the new set does not repeat |
| ForwardsDiff.ComingIff | src/kento/_instances.py:765-775 | what the diff adds is exactly what the old set did not have |
| ForwardsDiff.PlanReaches | src/kento/_instances.py:765-794 | removals then additions are legal from the old map and end in the new map |
| ForwardsDiff.UndoReturns | src/kento/_instances.py:779-807 | running the inverses last first is legal and returns to the map before |
| ForwardsRefine.ReflectsUnique | src/kento/portfwd.py:95-149 | the chains determine the map: the same chains reflect at most one |
| ForwardsRefine.ExecuteRefines | src/kento/_instances.py:3221-3272 | one legal live operation keeps chains and map in step and leaves other instances' rules in place and in order |
| ForwardsRefine.PlanRefines | src/kento/_instances.py:784-796 | the whole plan takes chains that reflect the old set to chains that reflect the new set |
| ForwardsRefine.IntermediateStates | src/kento/_instances.py:784-807 | in every state of applying and of unwinding no binding has two targets and every unchanged forward is installed |
| ForwardsRefine.PlanUnwinds | src/kento/_instances.py:797-807 | an interrupted plan unwinds to the old map exactly when no rule of the failed addition was installed, and otherwise up to rules with that forward's comment |
| ForwardsRefine.UnchangedStays | src/kento/_instances.py:765-807 | where only rules of the plan's forwards changed, a forward in both sets has all the rules it had |
| ForwardsRefine.KeptForeign | src/kento/_instances.py:784-807 | where only rules of an instance's own forwards changed, the rules of other instances are the same and in the same order |
| ForwardsSetter.FileLoads | src/kento/_instances.py:810-835 | the persisted file, or its absence for an empty set, loads as the set |
| ForwardsSetter.Instance.Unwind | src/kento/_instances.py:797-807 | the undo stack runs last pushed first, past failures, and touches no rule but those of its own forwards |
| ForwardsSetter.Instance.ApplyAndPersist | src/kento/_instances.py:766-808 | the running branch: success leaves the chains of the whole plan, the file and the cache; failure leaves the unwound chains and neither file nor cache touched |
| ForwardsSetter.Instance.SetForwards | src/kento/_instances.py:715-808 | after success the chains, the cache and the parsed `kento-port` file all are the assigned map, and packets to its host ports reach their guest ports; after a failure file and cache are the old ones and the chains reflect the old map exactly when the failed addition installed nothing; whatever fails, removal and undo calls included, every rule that is not of a removed or added forward stays, in order |
| ConfFields.ParseQmConfField | src/kento/pve.py:516-537 | the reader's loop: the last value in the global section |
| ConfFields.Scan | src/kento/set_cmd.py:69-86 | the editor's loop finds the first section header and the last line of the field before it |
| ConfFields.ReplaceConfField | src/kento/set_cmd.py:59-101 | the editor replaces, inserts before the first header, or removes |
| ConfFields.GetAfterPut | src/kento/set_cmd.py:59-101 | the reader gets what the editor wrote, duplicates of the field included |
| ConfFields.PutAfterPut | src/kento/set_cmd.py:59-101 | writing twice is writing the second time only, and a removal undoes an insertion |
| ConfFields.OtherFieldsKept | src/kento/set_cmd.py:59-101 | no other field's value changes |
| ConfFields.SectionAfterPut | src/kento/set_cmd.py:69-97 | everything from the first section header on is untouched |
| ConfFields.GetAfterRemove | src/kento/set_cmd.py:88-94 | after a removal the field is gone exactly when it was not repeated |
| ConfFields.TextLens | src/kento/set_cmd.py:98-101 | the laws hold on file texts, through splitting and rejoining the lines |
| QmArgs.RewriteArgs | src/kento/pve.py:586-616 | the rewrite loop with its insertion index |
| QmArgs.SyncQmArgsToMemory | src/kento/pve.py:540-630 | the whole operation, with the metadata values it stores |
| QmArgs.SyncFacts | src/kento/pve.py:573-628 | snapshot sections untouched, other global lines in place and in order, exactly one global `args:` line, generated for the global memory |
| QmArgs.GeneratedLine | src/kento/pve.py:416-471 | the generated line in its own words: everything kento puts before and after the memory backend, and the backend with the memory in mebibytes |
| QmArgs.SyncKeepsFields | src/kento/pve.py:573-628 | every field but `args` reads as before |
| QmArgs.SyncTwice | src/kento/pve.py:573-628 | a second run changes no line |
| QmArgs.SyncTextFacts | src/kento/pve.py:573-621 | on the text of the file: one global `args:` line, generated for the global memory, and every other field reads as before |
| QmArgs.SyncTextTwice | src/kento/pve.py:573-621 | a second run leaves the text alone exactly when the first left no blank line at its end |
| QmArgs.SyncWithoutMemory | src/kento/pve.py:573-585 | a config without a numeric global `memory:` is left alone |
| QmArgs.SizeFollowsMemory | src/kento/pve.py:351-471 | the memfd size in the generated line is the memory |
| LxcConfig.ReplaceConfigRaw | src/kento/set_cmd.py:104-134 | the loop over native config lines |
| LxcConfig.PutSome | src/kento/set_cmd.py:104-134 | a written key reads back, is not duplicated, and no other key is affected |
| LxcConfig.PutNone | src/kento/set_cmd.py:104-134 | a removal takes one line of the key and affects no other key |
| LxcConfig.PutTextFacts | src/kento/set_cmd.py:104-134 | the editor's laws hold on file texts, through splitting and rejoining the lines |
| LxcConfig.ParseLxcNetFallback | src/kento/set_cmd.py:191-217 | the reader's loop, last value wins |
| LxcConfig.RewriteNetFacts | src/kento/set_cmd.py:729-756 | after the rewrite the network lines say exactly the identity given, each key once, and the cgroup lines are as before |
| LxcConfig.RewrittenLines | src/kento/set_cmd.py:729-756 | the same in the keys and words of the file: type, link, flags, address and gateway of a bridge, `none` for the host network, nothing otherwise, and the two cgroup lines as before |
| NetMeta.ReadKentoNet | src/kento/set_cmd.py:176-188 | the loop over the lines of `kento-net` |
| NetMeta.KentoNetReadsBack | src/kento/set_cmd.py:595-618 | address, gateway and DNS server come back from the file as persisted |
| NetMeta.NetFileText | src/kento/set_cmd.py:607-618 | the written file line by line, and its absence when nothing is given |
| NetMeta.ReadIpConfig | src/kento/_instances.py:3170-3211 | the typed loader's loop over the same file |
| NetMeta.IpConfigReadsBack | src/kento/_instances.py:3170-3211 | the typed loader sees what the merge persisted |
| NetDelta.PersistedResolves | src/kento/set_cmd.py:254-295 | a persisted identity is the one resolved next, except that a bridge is recorded for type bridge only |
| NetDelta.UngivenFieldsSurvive | src/kento/set_cmd.py:521-573 | a field the call did not give is resolved afterwards as before |
| NetDelta.GivenFieldsTakeEffect | src/kento/set_cmd.py:521-556 | what an accepted call gives is the new type, bridge, address, gateway and DNS server; `dhcp` takes address and gateway away, an empty gateway or DNS server removes it |
| NetDelta.AcceptedExactly | src/kento/set_cmd.py:298-378 | which calls are accepted, in terms of their arguments and what was there: mode and type, address and bridge, gateway and address, ports and type |
| PassBlock.AcceptedArgsOwnNothing | src/kento/create.py:290-306 | no line of an accepted pass-through list sets a key kento owns: the substring denylist suffices |
| PassBlock.ArgsReadBack | src/kento/set_cmd.py:790-793 | a written list reads back as the lines of its items in order, as the non-empty items themselves when each is one line |
| PassBlock.DropPassthroughBlock | src/kento/set_cmd.py:137-161 | the loop that drops known lines of the global section |
| PassBlock.DroppedExactly | src/kento/set_cmd.py:147-156 | what dropping a block leaves: the lines above without those in the block, and everything from the first header-like line on |
| PassBlock.DropGivesBack | src/kento/set_cmd.py:137-161 | dropping gives the lines above back if and only if none is in the block and no line above or in it looks like a section header |
| PassBlock.DropUndoesAppend | src/kento/set_cmd.py:776-792 | the same for a block that set appended, which takes trailing blank lines away first |
| PassBlock.DropTextUndoesAppend | src/kento/set_cmd.py:137-161 | on file texts: the text without trailing line breaks, ended by one, comes back under exactly that condition |
| LxcRuns.ReplaceThenClear | src/kento/set_cmd.py:776-792 | a list given to set and cleared by the next call leaves the config as without a list, under exactly that condition |
| LxcRuns.CreateThenClear | src/kento/create.py:379-521 | clearing the list that create was given leaves the lines kento wrote, under exactly that condition |
| LxcRuns.IncludeIsLost | src/kento/defaults.py:127-137 | an accepted list with a line that kento writes itself: clearing it takes kento's own line away |
| LxcRuns.GivenListIsWritten | src/kento/set_cmd.py:777-796 | the lines of a list given to set are read back from its file and end the config, in order |
| LxcRuns.CreatedListIsWritten | src/kento/create.py:513-521 | the same for a list given to create |
| LxcRuns.LimitsMean | src/kento/create.py:507-511 | the memory value is that many mebibytes in bytes; before the blank of the cpu value stands a quota that is `cores` times the period after it, which is 100000 |
| LxcRuns.CheckedExactly | src/kento/set_cmd.py:440-520 | which calls are accepted: something is given, limits are positive, no text of the denylist occurs in the list, and the network part is accepted |
| LxcRuns.LimitsInForce | src/kento/set_cmd.py:763-775 | an accepted call makes the cgroup lines give exactly the limits it was given, whatever else it sets |
| LxcRuns.Instance.SetCmd | src/kento/set_cmd.py:380-804 | a refused call changes nothing, an accepted one edits metadata and config as specified, and the cgroup lines then give the limits it was given |
| LxcRuns.CreateAgrees | src/kento/create.py:379-521 | what create writes agrees with the metadata exactly when a non-empty bridge came with type bridge and with no other type, empty values and empty pass-through items included |
| LxcRuns.SetStep | src/kento/set_cmd.py:521-804 | an accepted call keeps config and metadata in agreement if and only if it is neither a bare bridge on an instance without one nor an empty address beside a gateway |
| LxcRuns.EmptyAddressDisagrees | src/kento/set_cmd.py:543-550 | an empty address on a bridged instance with a gateway is accepted and breaks the agreement |
| LxcRuns.LineBreakDisagrees | src/kento/set_cmd.py:547-548 | a gateway with a line break on a bridged instance is accepted, and in the written file the part after the break names the bridge |
| LxcRuns.PortsRecorded | src/kento/set_cmd.py:664-679 | after an accepted call `kento-port` loads as the given specs, as nothing when cleared, or is as before |
| LxcRuns.EveryRunAgrees | src/kento/set_cmd.py:759-804 | after create and any run of set calls that are none of the two breaking ones: each owned key at most once, the config parses to the recorded type and bridge (and address and gateway), the cgroup lines are the recorded limits; and in the words of the file: the memory line is the recorded mebibytes in bytes, the cpu line a quota of `cores` whole periods, the network lines those of the recorded identity |
| LxcRuns.MemoryRun | src/kento/set_cmd.py:763-775 | on anything create wrote consistently, setting a positive memory limit is accepted, recorded, and keeps the agreement |
| NetworkSetter.AssignmentRoundTrips | src/kento/_instances.py:2502-2574 | over any earlier metadata, exactly which well-formed connections are accepted, and that loading returns the assigned value, with a recorded MAC kept |
| NetworkSetter.WrittenLoads | src/kento/_instances.py:3111-3211 | persisting a well-formed connection and loading it is the identity up to the kept MAC |
| NetworkSetter.MergeTarget | src/kento/set_cmd.py:521-556 | the merge of a whole value leaves nothing of the old identity but the search domain |
| NetworkSetter.MacIsSixPairs | src/kento/set_cmd.py:39 | a MAC address is accepted exactly when it is six pairs of hexadecimal digits around colons |
| NetworkSetter.UnrecordedTypeIsLost | src/kento/_instances.py:687-700 | putting the loaded value back on an instance without a recorded type records none |
| NetworkSetter.Instance.SetCmd | src/kento/set_cmd.py:380-618 | checks first, then four writes of which any may fail |
| NetworkSetter.Instance.SetNetwork | src/kento/_instances.py:516-702 | success caches and persists the value; a running instance, or a new or cached value with a second resolver, changes nothing; any other failure puts the cached value back on disk |
| LiveResources.IntFileReadsBack | src/kento/_instances.py:3646-3666 | an integer written to its file is the one loaded |
| LiveResources.Container.ApplyLive | src/kento/_instances.py:928-943 | changed knobs are set in order, up to the one that fails, and the undo stack holds the recorded old values |
| LiveResources.Container.Unwind | src/kento/_instances.py:946-966 | the undo stack runs last pushed first and goes on past the calls that fail |
| LiveResources.BackUnlessStranded | src/kento/_instances.py:946-974 | a recorded knob is back live and on disk exactly when its undo call worked, or was not needed, and its file was not left with the new value |
| LiveResources.UndoneAt | src/kento/_instances.py:946-966 | afterwards a knob on the stack has its recorded value unless its own call failed, and every other knob is as before |
| LiveResources.Container.Persist | src/kento/_instances.py:1006-1032 | metadata files first, the config last, each write may fail |
| LiveResources.Container.SetResources | src/kento/_instances.py:878-975 | success: live value, boot config, metadata and cache agree for every assigned knob, the live text and the config line giving its value in bytes and in quota and period, and all are coherent exactly when no recorded knob was left out; failure, with undo calls and second writes failing at will: what each knob is left with, which recorded knobs are back, and, when no unrecorded knob was assigned, that all is as before exactly when none is stranded |
| RefGrammar.ComponentShape | src/kento/_references.py:110-117 | a path component starts and ends with a letter or digit and holds no delimiter |
| RefGrammar.HostMarks | src/kento/_references.py:96-108 | a host holds neither slash nor at sign, and a colon only in brackets |
| References.RoundTripExactly | src/kento/_references.py:434-743 | a constructible reference parses back from its rendering exactly when it has no userinfo and its leading text looks like a domain exactly when it is the endpoint |
| References.ParsedIsValid | src/kento/_references.py:444-608 | everything that parses passes the constructor's checks and is unambiguous |
| References.ParseRenderParse | src/kento/_references.py:444-623 | parsing the rendering of a parsed reference gives it back |
| References.LeadingTextDecides | src/kento/_references.py:544-557 | a parsed reference has an endpoint exactly when the text before its first slash is `localhost` or holds a dot, a colon or an upper-case letter |
| References.LocalhostIsEndpoint | src/kento/_references.py:671-687 | `localhost/name` has the endpoint `localhost` and no path |
| References.BareNameParses | src/kento/_references.py:484-573 | up to 63 lower-case letters and digits parse as a bare name with no defaults applied |
| References.NormalizeSucceeds | src/kento/_references.py:631-668 | normalizing is refused exactly when the expanded name exceeds 255 characters |
| References.NormalFormKeeps | src/kento/_references.py:631-668 | field by field: name, digest and a given tag stay, a missing tag is `latest`, a missing endpoint and `index.docker.io` become `docker.io`, an empty path becomes `library` on that host and on no other |
| References.ShortNameNormalizes | src/kento/_references.py:631-668 | on texts: `name:tag` becomes `docker.io/library/name:tag`, and `name` the same with `latest` |
| References.NormalizeIdempotent | src/kento/_references.py:631-668 | normalizing twice is normalizing once |
| References.NormalFormParses | src/kento/_references.py:631-668 | the normal form of an unambiguous reference survives rendering and parsing |
| ImageNames.SanitizeIsEncode | src/kento/__init__.py:260-273 | the four replacements together map each character on its own |
| ImageNames.AcceptedIsSafe | src/kento/_references.py:484-608 | in an accepted reference no slash touches a slash or dash and no underscore or colon comes before a colon, outside a bracketed host |
| ImageNames.SanitizeInjective | src/kento/__init__.py:260-273 | two accepted references never share a directory name |
| ImageNames.SanitizeCollides | src/kento/__init__.py:265-267 | the documented collision, of which one string is no reference |
| ImageNames.NextInstanceName | src/kento/__init__.py:276-299 | terminates with `base-n` for the first number whose name neither a directory nor a name file takes |
| Urls.DotSegmentLaws | src/kento/_references.py:1044-1058 | empty and dot segments vanish, a segment and the `..` after it cancel, a `..` at the root vanishes |
| Urls.NormalizedPath | src/kento/_references.py:1044-1058 | the normalized path is the resolved segments joined, with no leading slash |
| Urls.NormalizeIdempotent | src/kento/_references.py:962-1006 | normalizing twice is normalizing once, for every URL reference |
| Urls.NormalFormIsClean | src/kento/_references.py:962-1006 | no empty, `.` or `..` segment and no default port is left |
| Urls.NormalFormKeeps | src/kento/_references.py:962-1006 | every port but 443 with TLS and 80 without is kept, with user, tag and scheme; the host changes in the case of its letters only, query and fragment in the case of percent-encodings only |
| Urls.UpperPctAt | src/kento/_references.py:1031-1041 | character by character: lower-case digits of percent-encodings become upper-case, nothing else changes |
| Urls.NormalFormIsValid | src/kento/_references.py:962-1006 | the host check never refuses a normal form |
| Allocation.NextVmid | src/kento/pve.py:136-142 | terminates with the least unused number of at least 100 |
| Allocation.StepKeepsInv | src/kento/create.py:1009-1069 | every step of every process, but for a destroy about to remove a directory that is not its own finished instance's, keeps: one lock holder, a VMID held exactly by the owner of its directory, a chosen VMID free, a config beside a directory its own |
| Allocation.VmidsDistinct | src/kento/create.py:1009-1069 | in every state of every run without such a destroy no two processes past the locked region hold the same VMID |
| Allocation.CarefulIsOrderly | src/kento/destroy.py:14-129 | runs that destroy finished instances only, one destroy at a time for each, contain no such destroy |
| Allocation.StrayIsFatal | src/kento/destroy.py:88-129 | the condition is necessary: after any such destroy the run can go on until two processes hold its VMID |
| Allocation.HandedOutIsFree | src/kento/pve.py:82-154 | what a create is handed is reserved by no directory, config or recorded VMID, and is the least such when chosen automatically |
| Allocation.ReservationSucceeds | src/kento/create.py:1057-1069 | in such a run the directory of a chosen VMID never exists already |
| Allocation.ReservationLasts | src/kento/pve.py:82-122 | in such a run a reserved VMID stays with its owner, orphaned or not, until the owner's own rollback or destroy |
| Allocation.ConfigsAreOwn | src/kento/destroy.py:97-104 | where the invariant holds a create only replaces a config of its own, and a destroy deletes its target's config exactly when the directory is still its target's |
| Allocation.CreateAlone | src/kento/create.py:1009-1543 | all steps of a create with the lock free and a request that can be granted: it ends as a finished instance with its own directory and config at a VMID that nothing used, the one asked for or else the least, and nothing else has changed |
| Allocation.RefusedLeavesNothing | src/kento/create.py:1009-1056 | a request out of range or in use ends at once and leaves no trace |
| Allocation.BuildingWrites | src/kento/create.py:1491-1495 | the step that ends the building writes the config of the create, and only that |
| Allocation.CreatesHaveConfigs | src/kento/create.py:1491-1543 | in every run without a stray destroy a create past writing its config has it, unless the config was lost or a destroy that went by its VMID took it |
| Allocation.AdoptGivesBack | src/kento/reconcile.py:294-399 | an adopt that found no config gives the owner of the directory its config, and changes no other |
| Allocation.AbortDeletes | src/kento/create.py:1492-1495 | aborting a create that has written its config deletes that config |
| Allocation.RollbackLeavesNoConfig | src/kento/create.py:1557-1562 | from then on it has none at its VMID in any run, unless an adopt comes before the rollback has removed the directory |
| Allocation.DestroyRemoves | src/kento/destroy.py:88-129 | a destroy that goes on to its end leaves neither config nor directory at the VMID, and nothing else is changed |
| Allocation.OverlappingDestroys | src/kento/destroy.py:14-129 | a run that destroys finished instances only, with two overlapping destroys, in which two creates get the same VMID |
| Allocation.UnfinishedDestroy | src/kento/destroy.py:14-129 | a run with one destroy at a time, of an instance whose create is still at work, in which two creates get the same VMID |
| CreateRollback.UnwoundFacts | src/kento/create.py:364-376 | unwinding removes what the undos name and touches nothing else |
| CreateRollback.Host.RunCleanup | src/kento/create.py:364-376 | undos run in reverse order |
| CreateRollback.Host.Pin | src/kento/create.py:1106-1137 | hold or rootfs first, the hold registered although one was there |
| CreateRollback.Host.OpenState | src/kento/create.py:1139-1156 | the state directory is registered exactly when it was not there; its subdirectories are made where missing |
| CreateRollback.Host.Record | src/kento/create.py:1158-1360 | the metadata files that precede the scripts, none of them registered |
| CreateRollback.RolledBackExactly | src/kento/create.py:1557-1562 | after the undos of any number of steps the host is as before exactly when nothing those steps register, or write into, was there before |
| CreateRollback.Host.Configure | src/kento/create.py:1384-1506 | scripts, wrapper, late metadata and config by mode, in that order, each thing outside the instance directory registered with its step |
| CreateRollback.Host.Boot | src/kento/create.py:1518-1556 | the stop is registered before the start is tried |
| CreateRollback.Host.Create | src/kento/create.py:1084-1562 | success leaves everything asked for and no more; a failure at any step, or after the last, leaves the host as before exactly when nothing that was registered or written into until then was there before; the reserving directory goes last |
| CreateRollback.InstalledMeans | src/kento/create.py:1106-1556 | mode by mode, what success leaves: scripts, late metadata, config, wrapper, rootfs or hold, the started instance; files of other modes are as they were |
| Qmp.FirstOfFacts | src/kento/suspend.py:66-71 | the replies returned are the first ones, one for each command, or an error |
| Qmp.AnswerFacts | src/kento/suspend.py:51-71 | an answer exists exactly when the greeting comes first and enough non-event messages decode, and is then the first of them after the negotiation reply, in order |
| Qmp.NoEventLeft | src/kento/suspend.py:144-150 | no event is ever taken for a reply |
| Qmp.EventIgnored | src/kento/suspend.py:144-150 | an event between any two lines after the greeting changes no answer |
| Qmp.ReplyStays | src/kento/suspend.py:136-150 | every other line that is not blank counts, at its place, as a reply or as a message that fails to decode |
| Qmp.StripBytesFacts | src/kento/suspend.py:136-142 | stripping takes white space off both ends of a line and nothing else |
| Qmp.BlankLineIgnored | src/kento/suspend.py:136-142 | a blank line between any two lines of the stream changes no message |
| Qmp.LineReader.NextLine | src/kento/suspend.py:117-134 | the next line of the stream whatever its chunks; every byte taken is received, the line and its newline are delivered, and delivered plus buffer are the bytes received |
| Qmp.LineReader.NextReply | src/kento/suspend.py:136-150 | the next message that is not an event |
| Qmp.QmpCommand | src/kento/suspend.py:34-77 | the answer depends on the bytes alone, never on how they are cut into chunks |
| Escape.TakeConcat | src/kento/attach.py:73-88 | feeding a stream is independent of how it is cut |
| Escape.DoublingPasses | src/kento/attach.py:73-88 | doubling every escape byte passes exactly the data, with no detach and the detector disarmed |
| Escape.DetachExactly | src/kento/attach.py:73-88 | a detach happens exactly when a Q follows an odd run of escape bytes, and the detector is armed exactly after such a run |
| Escape.FirstDetachDecides | src/kento/attach.py:141-156 | the first such key ends the relay and nothing after it is passed on |
| Escape.CollapsedPasses | src/kento/attach.py:73-88 | without a detach the bytes passed on, with the byte held back, are the data with each escape pair made one |
| Escape.CollapsedBeforeDetach | src/kento/attach.py:73-88 | with a detach they are that of the data before the first detaching key, without the escape byte the key needs |
| Escape.EscapeDetector.Feed | src/kento/attach.py:73-88 | the action and the new state for one byte |
| Escape.RelaySerial | src/kento/attach.py:141-158 | however stdin is cut into reads, the socket gets what the whole stream means: the data before the first detach with each escape pair made one |
| Overlay.ToOverlayLowerdir | src/kento/layers.py:83-122 | the loops: a shared root and the short entries, or the input unchanged |
| Overlay.DecomposeLayers | src/kento/_images.py:1637-1697 | the checks and the layer loop |
| Overlay.DecomposeRenders | src/kento/_images.py:1470-1483 | decomposing succeeds exactly when the short form has a root, and rendering gives every entry back in order, canonically spelled |
| Overlay.DecomposeIdentity | src/kento/_images.py:1637-1697 | on canonical entries decomposing and rendering is the identity |
| Overlay.ShortFormKeepsOrder | src/kento/layers.py:104-122 | the short form names as many layers, in the same order |
| Overlay.ShortFormNames | src/kento/layers.py:104-122 | each part, taken below the root, is `l/<link>` of its layer or, without a link, the entry itself |
| Overlay.RefusedExactly | src/kento/layers.py:145-171 | with 26-character links in the layers' directories, exactly which layer counts and state directories are refused |
| Overlay.ByteCheckBound | src/kento/defaults.py:14-21 | up to 164 characters of state directory the byte check never fires within the layer cap; from 165 on it fires at 128 layers |

## Left out

- Line files are split on newline only; the other line ends that `splitlines` knows are not modelled.
- Non-ASCII digits that `int` also takes, and its digit limit, are not modelled.
- The text of firewall listings: a listed rule is its line number or handle and its comment.
- ForwardsSetter.Instance.SetForwards: that the chains reflect the old or the new map is stated for runs in which no removal and no undo call fails, which the result reports as `clean`; everything else is stated for all runs.
- Live forwards of virtual machines over QMP, and live resources of pve-lxc over `pct set`.
- The file writes of PVE configs in `kento set` for pve and pve-vm; `ConfFields` models the editor they use.
- `_apply_pve_vm` appends regenerated lines at the end of the file and makes no promise about sections.
- QmArgs.SyncTextFacts: what kento puts before and after the memory backend is taken to be on one line.
- LxcRuns.EveryRunAgrees: values with line breaks or blanks at their ends are excluded, because the code does not validate them; `LxcRuns.LineBreakDisagrees` shows what a line break does.
- LxcRuns.CreateAgrees: the lines that create writes around the network and the limits (name, root file system, hooks, mounts) are modelled, but the agreement is about network and limits only.
- LxcRuns.Instance.SetCmd: the guest's own network, hostname and resolver files, which the same call writes, are not followed.
- NetworkSetter.AssignmentRoundTrips: connections with a bridge beside a type that has none, or without one for type bridge, are left out.
- NetworkSetter.Instance.SetCmd: writes other than the four metadata files are not followed; `LxcRuns` has those of the config.
- NetworkSetter.Instance.SetNetwork: writes other than the four metadata files are not followed.
- References.RoundTripExactly: which production failed is not kept; every refusal is one error.
- Parsing URLs, which is the standard library's work; only normalization is modelled.
- Allocation.VmidsDistinct: that no destroy goes astray is a hypothesis, and a necessary one. VMIDs of pve-vm instances are an arbitrary set, because they are recorded after the lock is released, and instances of plain LXC with numeric names are not modelled.
- CreateRollback.Host.Create: steps are atomic, undo steps succeed, and the single metadata files are a list of writes.
- Qmp.QmpCommand: JSON decoding is a parameter, and timeouts and send errors are not modelled.
- The socket half of the console relay.
- Overlay.ByteCheckBound: the length is counted in characters, as the code does.
- PortSpecs.WritePortSpecs: `allocate_port` is taken to return a valid port outside the excluded ones, or to fail.
- Fetching and extracting root file systems, guest configuration, hooks, listing and diagnosis: text plumbing without invariants of this kind.
