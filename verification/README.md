# HDMI-CEC virtual component: a verified model

The virtual component emulates an HDMI-CEC network in memory behind the HDMI-CEC driver
interface. This project models its three parts in Dafny and proves what they guarantee.

- **Device map and addresses** (`Trees`, `Network`, `PhysicalAddress`, `LogicalAddress`,
  `DeviceMap`). A map of device records linked by parent, first child and next sibling is
  built from a profile, edited by insertion and removal, and walked by one pass that gives
  every device a 16-bit physical address (section 8.7.2 of HDMI 1.4b) and a logical address
  from a shared pool (section CEC 10.2 of HDMI 1.4b Supplement 1).
- **Frames and tables** (`Command`, `Lookup`). The command record with its 64-byte parameter
  buffer, serialisation, the matching decoder, and the name/value tables.
- **Queue** (`MessageQueue`, `QueueProtocol`, `QueueRefinement`). The 32-slot message queue
  with its mutex and condition variable, and the handler loop that drains it.
- **HAL** (`HalModel`, `EmulatedDevice`, `HalInvariants`, `HalFrames`, `HalMessages`, `HalCalls`,
  `HalDeliveries`, `HdmiCec`, `Driver`). The AddDevice, RemoveDevice and command messages and the
  driver calls from open to close, as steps over values and as methods of the objects.
- **Shipped profiles** (`ShippedProfiles`). What the above comes to for the two profiles the
  component ships, against its validation data.

## How it is organised

The records, the pool, the command, the queue and the HAL are classes updated in place, like
the structures they model. Each of their methods is proved equal to a function of the state
before the call; the theorems are lemmas about those functions, over every input or every run.
What such a function computes is also stated in plain terms: addresses, bytes and conditions as
they are listed in the standard and in the source.

A ghost tree gives the shape of a map. The links of its records are also taken as a plain map
from records to links, so that insertion and removal are lemmas about relinking
(`ShapedInsert`, `ShapedDrop`). `Represents` bundles a whole map; it unfolds only where
`Seen(f)` is mentioned, which keeps the proofs of its callers small.

Main results:

1. After a pass from the root a device's physical address holds the first four significant ports of its
   path, whatever the ports are; two devices share an address exactly when those agree; to
   depth 4 ancestors are nibble-prefixes.
2. The pass is a fold of first-fit over the visit order: the k-th waiting device of a class
   gets the k-th free address of the class, and 15 after that (`FirstServed` lists them).
3. A second pass changes nothing, and a pass after an insertion touches the new subtree only.
4. A run of API calls and messages has a meaning exactly if no step looks at the emulated
   device after a message has freed it (`SafeIff`). The messages alone tell when that is: a
   RemoveDevice for the name of the branch the device hangs in, with no added namesake left in
   front of it (`EmulatedEnduresIff`). A root is never freed.
5. Over every such run, with the emulated device at the root or not a TV, each pool slot below
   15 is allocated for exactly one device, living or removed; so addresses are unique, and a
   removed device's address is lost. For any other emulated device some run breaks this
   (`AlwaysConservedIff`).
6. Insertion and removal keep the heap shape; live records are always exactly those of the map,
   nothing is freed twice, and closing frees everything.
7. The queue keeps FIFO order over every interleaving; a parked consumer means an empty queue
   unless a signal is due; a pending message can always be taken next. Every run of the
   lock-level protocol is a drain of the handler loop.
8. Closing ends exactly when the exit request is accepted, after everything pending was processed.
9. Over every run from opening an emulated TV, wherever it is, may transmit exactly when the
   latest successful add or remove was an add, and any other emulated device always. At the root
   the TV has logical address 0 or 15 and physical address 0.
10. Frames decode to the command they were built from. Over every run from opening, whatever is
    emulated, an accepted AddDevice is announced with its own addresses, and ActiveSource
    carries the initiator's port path, or 0 for a TV that opening put there.
11. The trace of every run is one frame per command message and one announcement per accepted
    AddDevice, in order, while a callback is set.

## Where the code differs from what one might expect

- Ports are not checked. A port whose low nibble is zero adds nothing to the address, so the
  uniqueness of addresses is stated for ports 1..15 and `SameAddress` gives the exact condition
  for all others.
- RemoveDevice frees the emulated device together with its branch, and the HAL goes on pointing
  to it. With the shipped `profiles/stb-source-device.yaml`, one RemoveDevice of the audio
  system does (`RemovingTheAudioSystem`). Commands, removals, queueing and closing still work
  after that; address calls, transmissions, accepted AddDevices and status prints do not.
- Opening overwrites the addresses of an emulated TV even below the root. It loses the slot the
  TV was given, unless two TVs are visited before it (`OpenConservesIff`, `BedroomSlotIsLost`), and
  the next accepted AddDevice moves its physical address, unless no port on its path counts
  (`EmulatedAddressAfterAdd`, `BedroomAddressMoves`).
- The check for a free port compares the profile's child count, which insertion never changes,
  so it never fills up (`PortCheckNeverFills`).
- RemoveDevice looks a name up in the whole map but removes direct children of the root only
  (`RemoveIffDirectChild`), and never gives the address back (`RetiredIsLost`).
- A consumer can be parked on a nonempty queue for the moment between an append and its signal
  (`SignalCanBeDue`).
- A command with an unknown name still reaches the callback, as one written byte reported as two,
  and an OSD name of 63 or 64 characters as a length without bytes (`CommandDeliveredWhole`,
  `LongOsdName`); the reported size of a frame is exact only with an opcode (`SizeIsExact`).
- With 32 messages pending the exit request is dropped and closing waits for good (`ShutdownEnds`).
- Four opcodes are listed under two names, and only the first comes back (`OpcodeComesBackIff`).
- The design document writes the broadcast destination as "Broadcast"; the code accepts
  "broadcast" only, and the model follows the code.
- The pool is declared with 15 slots but indexed 0..15; the model has 16. The destination of a
  broadcast command is read uninitialised; the model takes it as absent.

## Model

| member | source | states |
|---|---|---|
| LogicalAddress.ClassesDisjoint | vcomponent/src/vcDevice.c:393-427 | the address candidates of different device classes never overlap |
| LogicalAddress.FreeAfterTaken | vcomponent/src/vcDevice.c:429-437 | serving a device takes the head of its own class's free list and leaves every other class's list alone |
| LogicalAddress.ReleaseUndoesAllocate | vcomponent/src/vcDevice.c:429-447 | releasing the address just allocated restores the pool exactly when that address is below 15 or slot 15 was free before |
| LogicalAddress.TakenConserves | vcomponent/src/vcDevice.c:429-437 | one allocation marks exactly the slot of the address it returns, and returns one of the class's addresses or 15 |
| LogicalAddress.AllocatedAddress | vcomponent/src/vcDevice.c:393-437 | in plain addresses: a TV gets the first free of 0, 14, a playback device of 4, 8, 11, a recorder of 1, 2, 9, a tuner of 3, 6, 7, 10, an audio system 5, and anything else 15; exactly that slot is taken |
| LogicalAddress.AddressPool.Init | vcomponent/src/vcDevice.c:313-324 | afterwards all 16 slots are free |
| LogicalAddress.AddressPool.Allocate | vcomponent/src/vcDevice.c:386-438 | the loop returns the first free address of the type, listed in plain numbers, and marks it, or 15 with the pool unchanged |
| LogicalAddress.AddressPool.Release | vcomponent/src/vcDevice.c:440-447 | the slot of a valid address becomes free; the unknown address changes nothing |
| PhysicalAddress.FillFirstZero | vcomponent/src/vcDevice.c:356-363 | the loop overwrites the first zero byte, or none |
| PhysicalAddress.ChildAddress | vcomponent/src/vcDevice.c:351-364 | a child's address is its parent's with the port placed in the first zero nibble |
| PhysicalAddress.ExtendIsSum | vcomponent/src/vcDevice.c:351-364 | in plain arithmetic: the low nibble of the port is added at the first zero nibble of the parent's address, if there is one |
| PhysicalAddress.ExtendAppends | vcomponent/src/vcDevice.c:351-364 | the address computed for a child is the one the parent's path followed by the child's port stands for, for every port |
| PhysicalAddress.AlongFromRoot | vcomponent/src/vcDevice.c:343-365 | going level by level from the root's 0 ends at the address the whole path stands for |
| PhysicalAddress.NibblesAreThePath | vcomponent/src/vcDevice.c:351-364 | for ports 1..15 the nibbles are the first four ports padded with zeros, and deeper paths repeat their depth-4 prefix's address |
| PhysicalAddress.AddressInHex | vcomponent/src/vcDevice.c:351-364 | for ports 1..15 the address is the number whose hexadecimal digits are the first four ports |
| PhysicalAddress.SameAddress | vcomponent/src/vcDevice.c:351-364 | two paths share an address exactly when their first four significant ports agree |
| PhysicalAddress.AncestorIsNibblePrefix | vcomponent/src/vcDevice.c:351-364 | for ports 1..15 to depth 4, being a prefix of a path is being a nibble-prefix of its address |
| Network.BuildReverses | vcomponent/src/vcDevice.c:137-153 | the built map read back is the profile with every child list reversed |
| Network.BuildRoundTrip | vcomponent/src/vcDevice.c:122-154 | the profile can be recovered from the built map |
| Network.BuildCounts | vcomponent/src/vcDevice.c:141-152 | every child chain is as long as the record's number_children |
| Network.FindIsFirst | vcomponent/src/vcDevice.c:289-311 | lookup finds the first match in node-children-siblings order and fails exactly when no device has the name |
| Network.FindInvertsNaming | vcomponent/src/vcDevice.c:289-311 | with unique names, looking up a device's name finds that device |
| Network.PassKeeps | vcomponent/src/vcDevice.c:326-384 | a pass changes physical and logical addresses only, and never a logical address already set |
| Network.ChainAddresses | vcomponent/src/vcDevice.c:343-365 | below any parent, each device's address is reached from the parent's by its ports |
| Network.PhysicalAddressIsPath | vcomponent/src/vcDevice.c:343-365 | after a pass from the root each device's physical address is the one its port path stands for |
| Network.PhysicalAddressesUnique | vcomponent/src/vcDevice.c:343-365 | with ports 1..15 distinct among siblings, devices to depth 4 have equal addresses only if they are the same |
| Network.AncestorsByAddress | vcomponent/src/vcDevice.c:343-365 | under the same conditions a device is an ancestor of another exactly when its address is a nibble-prefix |
| Network.DeeperRepeats | vcomponent/src/vcDevice.c:356-364 | below a device at depth 4 with ports 1..15, or with four significant ports above it whatever they are, every device repeats its physical address |
| Network.PassSettles | vcomponent/src/vcDevice.c:343-381 | what a pass leaves behind: right physical addresses and a logical address everywhere but at an unnamed root |
| Network.UnchangedIffSettled | vcomponent/src/vcDevice.c:326-384 | a pass changes nothing exactly on maps a pass leaves behind |
| Network.PassIdempotent | vcomponent/src/vcDevice.c:326-384 | a second pass changes no device and no slot |
| Network.InsertStable | vcomponent/src/vcHdmiCec.c:284-285 | a pass after an insertion allocates the new subtree alone and keeps every old device's addresses |
| Network.PassIsFold | vcomponent/src/vcDevice.c:366-383 | the recursive pass is first-fit folded over the order node, siblings, children |
| Network.AssignByRank | vcomponent/src/vcDevice.c:386-438 | in that order the k-th waiting device of a class gets the k-th address of the class that was free at the start, later ones 15 |
| Network.FreshAllocationByRank | vcomponent/src/vcDevice.c:366-384 | from a fresh pool the class addresses go to the first devices of each class in visit order and 15 to the rest |
| Network.FirstServed | vcomponent/src/vcDevice.c:366-438 | in plain addresses: from a fresh pool, in visit order, the first waiting playback devices get 4, 8, 11, recorders 1, 2, 9, tuners 3, 6, 7, 10, the audio system 5, TVs 0, 14, and every other device 15 |
| Network.AddressAtRank | vcomponent/src/vcDevice.c:366-384 | at any position: the address is the one that the number of devices of the class visited before gives |
| Network.PassConserves | vcomponent/src/vcDevice.c:366-381 | below 15 a pass allocates a slot exactly when one more device holds that address |
| Network.PassInClass | vcomponent/src/vcDevice.c:386-438 | a pass gives only addresses of the device's own class, or 15 |
| Network.SoleHolder | vcomponent/src/vcDevice.c:429-436 | an address held once identifies its device |
| Network.FirstNamed | vcomponent/src/vcDevice.c:259-264 | the sibling walk stops at the first record with the name, or at the end if there is none |
| Trees.InsertKeeps | vcomponent/src/vcDevice.c:223-232 | insertion keeps every node, at a stated place |
| Trees.InsertedIsThere | vcomponent/src/vcDevice.c:223-232 | the inserted map's root is the first child of its parent |
| Trees.DropKeeps | vcomponent/src/vcDevice.c:272-283 | removal keeps every node outside the removed tree, at a stated place |
| DeviceMap.Device.constructor | vcomponent/src/vcDevice.c:137-140 | a new record has the profile's fields, no links and no addresses, and is live |
| DeviceMap.ShapedInsert | vcomponent/src/vcDevice.c:223-232 | relinking a lone map under a record inserts its shape there and keeps parent, child and sibling links consistent |
| DeviceMap.ShapedDrop | vcomponent/src/vcDevice.c:272-283 | bypassing a record cuts off its whole tree and leaves the other links consistent |
| DeviceMap.InsertChild | vcomponent/src/vcDevice.c:210-233 | the child becomes the first child, with the old first child as sibling; a missing argument changes nothing |
| DeviceMap.InsertMap | vcomponent/src/vcDevice.c:210-233 | insertion keeps the heap shape: each node once, links consistent, contents those of the inserted tree |
| DeviceMap.CreateMapFromProfile | vcomponent/src/vcDevice.c:122-154 | a fresh, well-linked map with exactly the profile's contents is built from new records |
| DeviceMap.DestroyMap | vcomponent/src/vcDevice.c:156-167 | exactly the records of the chain are freed, each once |
| DeviceMap.FindNamed | vcomponent/src/vcDevice.c:256-264 | the walk returns the first sibling with the name and the record before it |
| DeviceMap.Unlink | vcomponent/src/vcDevice.c:272-283 | the remaining children and the removed tree are both well linked afterwards |
| DeviceMap.RemoveChild | vcomponent/src/vcDevice.c:235-287 | the first direct child with the name is removed with its subtree and exactly those records are freed; without a match nothing changes |
| DeviceMap.Get | vcomponent/src/vcDevice.c:289-311 | the recursive search returns the record at the first match, null exactly without one |
| DeviceMap.AllocateOne | vcomponent/src/vcDevice.c:343-381 | one record's addresses and the pool become what the value model gives |
| DeviceMap.AllocatePhysicalLogicalAddresses | vcomponent/src/vcDevice.c:326-384 | the in-place pass equals the value pass on contents and pool; without an emulated device it does nothing |
| Lookup.GetValue | vcomponent/src/vcCommand.c:194-212 | the loop returns the value of the first entry with the name, the default exactly without one |
| Lookup.GetString | vcomponent/src/vcCommand.c:214-232 | the loop returns the name of the first entry with the value, nothing exactly without one |
| Lookup.NameThenValue | vcomponent/src/vcCommand.c:194-232 | with distinct names, the value of the name found for a present value is that value |
| Lookup.ValueThenName | vcomponent/src/vcCommand.c:194-232 | a name comes back from its value exactly for the first entry with that value |
| Lookup.OpcodeComesBackIff | vcomponent/src/vcCommand.c:27-83 | every name of the opcode table stands for its own opcode, and comes back from it unless it is GiveOsdName, UserControlPressed, UserControlReleased or GiveAudioModeStatus |
| Lookup.UsedOpcodes | vcomponent/src/vcCommand.h:112-157 | the opcodes of ActiveSource, InactiveSource, SetOsdName, ImageViewOn and TextViewOn as numbers |
| Lookup.GetOpCode | vcomponent/src/vcCommand.c:234-241 | the opcode of a command name by the opcode table, -1 if unknown |
| Command.DecodeSerialize | vcomponent/src/vcCommand.c:180-189 | decoding gives back the command exactly when both addresses are known and the opcode is set or nothing follows the header |
| Command.ReceivedAs | vcomponent/src/vcCommand.c:180-189 | for any addresses: an unknown initiator is received as 15, and an unknown destination makes both addresses 15 |
| Command.SerializeInjective | vcomponent/src/vcCommand.c:180-189 | different commands with known addresses and an opcode have different frames |
| Command.SizeIsExact | vcomponent/src/vcCommand.c:167-191 | the reported size is the number of bytes written exactly when the opcode is set |
| Command.PushesKeepPrefix | vcomponent/src/vcCommand.c:121-162 | after any pushes a cleared buffer holds the first 64 bytes offered, where arrays over 64 bytes offer nothing |
| Command.PushConcat | vcomponent/src/vcCommand.c:146-162 | pushing two arrays equals pushing their concatenation if that fits in one push |
| Command.SixtyFourSuffices | vcomponent/src/vcCommand.c:164-178 | a 64-byte buffer takes the frame exactly when at most 62 parameter bytes were offered |
| Command.Record.Clear | vcomponent/src/vcCommand.c:85-99 | afterwards the command is the cleared one |
| Command.Record.Format | vcomponent/src/vcCommand.c:101-119 | afterwards the command has the given addresses, the opcode if known, and no parameters |
| Command.Record.PushBackByte | vcomponent/src/vcCommand.c:121-144 | one byte is stored at the end if fewer than 64 are there |
| Command.Record.PushBackArray | vcomponent/src/vcCommand.c:146-162 | the bytes are stored one after the other as far as they fit; a missing or oversized array changes nothing |
| Command.Record.GetRawBytes | vcomponent/src/vcCommand.c:164-192 | a missing or short buffer is left alone, otherwise the frame is written at its start and the tail is unchanged |
| MessageQueue.KeyTypes | vcomponent/src/vcHdmiCec.c:124-129 | the message type of each of the four keys, and of no other key |
| MessageQueue.Queue.Enqueue | vcomponent/src/vcHdmiCec.c:368-380 | a message is appended, or dropped only with 32 pending |
| MessageQueue.Queue.Dequeue | vcomponent/src/vcHdmiCec.c:389-399 | the first message is taken and the others shift down in order |
| MessageQueue.ExitStopsHandler | vcomponent/src/vcHdmiCec.c:422-473 | with an exit request pending the loop processes exactly the messages up to it, whatever arrives meanwhile |
| MessageQueue.NoExitNoEnd | vcomponent/src/vcHdmiCec.c:422-473 | without an exit request the loop never ends |
| MessageQueue.ShutdownEnds | vcomponent/src/vcHdmiCec.c:555-564 | closing ends exactly if fewer than 32 were pending, having processed all of them and nothing later |
| QueueProtocol.StepKeepsInv | vcomponent/src/vcHdmiCec.c:368-400 | every step keeps mutual exclusion, FIFO order and no lost wakeup |
| QueueProtocol.ReachableInv | vcomponent/src/vcHdmiCec.c:368-400 | so does every interleaving of producers and consumer |
| QueueProtocol.ParkedMeansEmpty | vcomponent/src/vcHdmiCec.c:382-388 | in reachable states accepted is taken followed by pending, and a parked consumer means an empty queue exactly unless a signal is due |
| QueueProtocol.SignalCanBeDue | vcomponent/src/vcHdmiCec.c:371-378 | the exception occurs between append and signal |
| QueueProtocol.DropOnlyWhenFull | vcomponent/src/vcHdmiCec.c:371-378 | a message is dropped only with 32 pending and leaves the queue alone |
| QueueProtocol.PendingIsTaken | vcomponent/src/vcHdmiCec.c:382-400 | from every reachable state with a pending message some run takes it next |
| QueueRefinement.RunIsPlay | vcomponent/src/vcHdmiCec.c:368-400 | in mutex order every run of the protocol is a sequence of bounded-FIFO offers and takes with the same queue and taken messages |
| QueueRefinement.ProtocolIsDrain | vcomponent/src/vcHdmiCec.c:368-475 | what a run's consumer takes is what the handler loop processes against the batches that came in between, and all of it once an exit request was taken |
| EmulatedDevice.StepFreesIff | vcomponent/src/vcHdmiCec.c:305-316 | a step frees the emulated device exactly if it is a RemoveDevice whose name leads to the root's branch that holds it |
| EmulatedDevice.StepHangs | vcomponent/src/vcHdmiCec.c:247-337 | what one step does to the branch that holds it and to the namesakes in front of that branch |
| EmulatedDevice.EmulatedEnduresIff | vcomponent/src/vcHdmiCec.c:247-337 | the emulated device is there after a run exactly if the run's AddDevice and RemoveDevice messages spare its branch, or it is the root |
| EmulatedDevice.UntouchedBranchEndures | vcomponent/src/vcHdmiCec.c:305-316 | it lives on, and the run has a meaning, if no message removes a device of the branch's name |
| EmulatedDevice.SafeIff | vcomponent/src/vcHdmiCec.c:247-337 | a run has a meaning exactly if no step looks at the emulated device after the messages before it have freed it |
| EmulatedDevice.RootRunsAreSafe | vcomponent/src/vcHdmiCec.c:305-316 | an emulated root is never freed or replaced on any run |
| ShippedProfiles.RemovingTheAudioSystem | profiles/stb-source-device.yaml:2-46 | with this profile, removing the audio system frees the emulated device, and an address call after it has no meaning |
| ShippedProfiles.SetTopBoxWorks | profiles/stb-source-device.yaml:2-46 | with this profile a transmission succeeds at once, and a device added to the emulated box is taken |
| ShippedProfiles.PanelOpened | profiles/tv_panel_5_devices.yaml:2-59 | opening gives SONY PS3 address 4 at 2.0.0.0, Sony 5 at 1.0.0.0, IPSTB 8 at 1.2.0.0, Chromecast 11 at 1.1.0.0 and the panel 15 at 0.0.0.0 |
| ShippedProfiles.PanelWorks | profiles/tv_panel_5_devices.yaml:2-59 | after setting a callback and adding address 0 the panel has these addresses and can transmit |
| ShippedProfiles.PanelSources | assets/validation_profiles/tv_panel_5_devices_validation.yaml:2-23 | ActiveSource and InactiveSource of SONY PS3 are delivered byte by byte as the validation data says, and to another device and to all |
| ShippedProfiles.PanelOthers | assets/validation_profiles/tv_panel_5_devices_validation.yaml:24-51 | so are SetOsdName, ImageViewOn and TextViewOn |
| ShippedProfiles.PanelTakesDevice | assets/validation_profiles/tv_panel_5_devices_validation.yaml:52-66 | a fourth playback device, added on port 3, is announced as 15 at 3.0.0.0 with type 4 |
| HalCalls.OpenedIs | vcomponent/src/vcHdmiCec.c:728-783 | opening succeeds exactly if some device has the emulated device's name; what it emulates, the profile's records, no callback, and a root at 0 that has logical address 15 if emulated and none otherwise |
| HalCalls.UnemulatedRoot | vcomponent/src/vcDevice.c:367-376 | a root that is not emulated has no logical address after any run |
| HalCalls.AddingAddress | vcomponent/src/vcHdmiCec.c:845-853 | adding succeeds only for address 0 of an emulated TV, sets its logical address to 0 and changes nothing else |
| HalCalls.RemovingAddress | vcomponent/src/vcHdmiCec.c:868-882 | removing likewise sets 15, and is refused if it is 15 already |
| HalCalls.TransmitIff | vcomponent/src/vcHdmiCec.c:959-974 | over every run from opening that leaves the emulated device alive: a device that is not a TV can always transmit, a TV anywhere exactly when the latest successful add or remove was an add |
| HalInvariants.OpenEstablishesInv | vcomponent/src/vcHdmiCec.c:746-780 | opening establishes the network invariant when the emulated device is the root or not a TV |
| HalInvariants.OpenConservesIff | vcomponent/src/vcHdmiCec.c:768-775 | slots are conserved by opening exactly unless the emulated device is a TV below the root with fewer than two TVs visited before it |
| HalInvariants.AlwaysConservedIff | vcomponent/src/vcHdmiCec.c:768-775 | slots are conserved on every run from opening exactly if the emulated device is the root or not a TV |
| HalInvariants.AddKeepsInv | vcomponent/src/vcHdmiCec.c:284-285 | adding a device keeps the invariant |
| HalInvariants.RemoveKeepsInv | vcomponent/src/vcHdmiCec.c:305-316 | removing one keeps it, the removed addresses counting as retired |
| HalInvariants.StepKeepsInv | vcomponent/src/vcHdmiCec.c:422-473 | every API call and message that has a meaning keeps it, also after the emulated device was freed |
| HalInvariants.RunKeepsInv | vcomponent/src/vcHdmiCec.c:422-473 | so does every run that has a meaning, as any run does whose messages the emulated device endures |
| HalInvariants.AddressesAreUnique | vcomponent/src/vcDevice.c:386-438 | below the root addresses under 15 are unique, of the device's class, allocated and not retired |
| HalInvariants.RootAddressIsUnique | vcomponent/src/vcHdmiCec.c:770-775 | without TVs below it the root's address clashes with no device's |
| HalInvariants.AllocatedSlots | vcomponent/src/vcHdmiCec.c:305-316 | after any such run allocated slots below 15 are the live and the retired addresses, none being retired without a removal |
| HalInvariants.RetiredIsLost | vcomponent/src/vcHdmiCec.c:315 | a removed device's address is never given to a device again |
| HalInvariants.AddressIsPath | vcomponent/src/vcDevice.c:343-365 | in every reachable network each physical address is the device's port path |
| HalInvariants.StepKeepsRootTv | vcomponent/src/vcHdmiCec.c:833-883 | no step moves an emulated root TV off physical address 0 or its logical address off 0 and 15 |
| HalInvariants.TransmitAfterAdd | vcomponent/src/vcHdmiCec.c:942-975 | a transmission succeeds exactly when the latest successful add or remove was an add |
| HalInvariants.OpenRootTv | vcomponent/src/vcHdmiCec.c:770-775 | opening starts with address 15 and transmission refused |
| HalFrames.OpenReaches | vcomponent/src/vcHdmiCec.c:742-780 | after opening every device below the root has a logical address, and every device its port path as physical address, or 0 for an emulated TV |
| HalFrames.RunReaches | vcomponent/src/vcHdmiCec.c:247-337 | so it stays on every run that has a meaning |
| HalFrames.AddIsAnnounced | vcomponent/src/vcHdmiCec.c:286-303 | an accepted AddDevice delivers five bytes that decode to the device's addresses, destination 15, opcode 0x84 and type; its logical address is the first free of its class |
| HalMessages.AddAllOrNothing | vcomponent/src/vcHdmiCec.c:264-285 | an AddDevice puts the profile's whole map under the parent and changes no other record but for addresses, or changes nothing, exactly if the parent is unknown or is the emulated device, a TV, with no fewer children in its profile than ports |
| HalMessages.AddKeepsDevices | vcomponent/src/vcHdmiCec.c:284-285 | after an accepted AddDevice every other device has its logical address and record as before, and its port path as physical address |
| HalMessages.RemoveIffDirectChild | vcomponent/src/vcHdmiCec.c:305-316 | a RemoveDevice changes the network exactly if a direct child of the root has the name, and keeps every other device |
| HalMessages.RemoveLeavesOthers | vcomponent/src/vcHdmiCec.c:305-316 | a RemoveDevice leaves the root, the root's other child trees in order, the pool, the callback and the trace |
| HalMessages.EmulatedAddressAfterAdd | vcomponent/src/vcHdmiCec.c:285 | after an accepted AddDevice the emulated device's physical address is its port path, which is 0 exactly if no port on it counts |
| HalMessages.BedroomSlotIsLost | vcomponent/src/vcHdmiCec.c:770-775 | opening a TV emulated below another loses slot 0 |
| HalMessages.BedroomAddressMoves | vcomponent/src/vcHdmiCec.c:285 | and any device added to the upper TV moves it from physical address 0 |
| HalFrames.ActiveSourceFrame | vcomponent/src/vcHdmiCec.c:188-229 | ActiveSource and InactiveSource give four bytes that decode to the initiator's address, to 15 for "broadcast" or else the named device's address, to the opcode and to the initiator's physical address, which is its port path on every run but for an emulated TV still at 0 |
| HalFrames.OtherCommandFrame | vcomponent/src/vcHdmiCec.c:188-242 | other commands decode to both addresses in the same way and to the opcode, with the OSD name as SetOsdName's operand |
| HalFrames.CommandDeliveredWhole | vcomponent/src/vcHdmiCec.c:434-446 | the frame is delivered whole exactly when all names are known and no OSD name of 63 or 64 characters is set; what is delivered otherwise |
| HalFrames.LongOsdName | vcomponent/src/vcHdmiCec.c:231-236 | an OSD name of 63 characters is delivered as a length of 65 without a byte |
| HalDeliveries.CommandStep | vcomponent/src/vcHdmiCec.c:434-446 | a turn that handles a command message delivers exactly one frame, the one the message asks for, if a callback is set, and changes nothing else |
| HalDeliveries.CommandBytes | vcomponent/src/vcHdmiCec.c:188-242 | that frame byte by byte, between devices that have addresses |
| HalDeliveries.IdleStep | vcomponent/src/vcHdmiCec.c:448-469 | event, config, exit and untyped messages, and state messages that add or remove nothing, change nothing |
| HalDeliveries.DefinedAfterFree | vcomponent/src/vcHdmiCec.c:247-337 | which steps still have a meaning once the emulated device was freed |
| HalDeliveries.RunEmits | vcomponent/src/vcHdmiCec.c:422-473 | the trace of a run is, in order, one frame per command message and one announcement per accepted AddDevice while a callback is set, and nothing else |
| HalDeliveries.CallbackStays | vcomponent/src/vcHdmiCec.c:907-923 | no step but setting it changes the callback |
| HalFrames.RunDeliverable | vcomponent/src/vcHdmiCec.c:422-473 | over every run the callback gets whole frames, an unknown command's byte, or frames too long to write, and nothing else |
| HalMessages.PortCheckNeverFills | vcomponent/src/vcHdmiCec.c:273-283 | the port check accepts any number of devices if it accepts one |
| HalModel.ServeOne | vcomponent/src/vcHdmiCec.c:424-472 | one turn of the loop takes one step along the drain |
| HdmiCec.Hal.AddLogicalAddress | vcomponent/src/vcHdmiCec.c:845-853 | the view and status become the model's |
| HdmiCec.Hal.RemoveLogicalAddress | vcomponent/src/vcHdmiCec.c:869-882 | the view and status become the model's |
| HdmiCec.Hal.Deliver | vcomponent/src/vcHdmiCec.c:440-444 | the callback gets the serialised frame and its reported size |
| HdmiCec.Hal.Announce | vcomponent/src/vcHdmiCec.c:287-303 | the callback gets the device's report |
| HdmiCec.Hal.ParseCommand | vcomponent/src/vcHdmiCec.c:168-244 | the command record becomes the frame the message asks for, cleared if a name is unknown |
| HdmiCec.Hal.PortsTaken | vcomponent/src/vcHdmiCec.c:274-283 | the port check made on records holds exactly for the emulated device, if it is a TV with no fewer children in its profile than ports |
| HdmiCec.Hal.HandleAddDevice | vcomponent/src/vcHdmiCec.c:255-304 | the HAL's view becomes the model's after AddDevice; a rejected device's records are freed again |
| HdmiCec.Hal.HandleRemoveDevice | vcomponent/src/vcHdmiCec.c:305-316 | the HAL's view becomes the model's after RemoveDevice, and live records are still exactly the map's |
| HdmiCec.Hal.HandleStateMessages | vcomponent/src/vcHdmiCec.c:247-337 | state messages act as the model says |
| HdmiCec.Hal.HandleMessage | vcomponent/src/vcHdmiCec.c:425-471 | a turn of the loop acts as the model says |
| HdmiCec.Hal.MessageHandler | vcomponent/src/vcHdmiCec.c:412-475 | the loop ends, having run the model over exactly the messages the drain processes, for every schedule of arrivals |
| Driver.VirtualComponent.HdmiCecOpen | vcomponent/src/vcHdmiCec.c:693-788 | opening gives the model's opened view or the right error, and leaks no record on failure |
| Driver.VirtualComponent.Discover | vcomponent/src/vcHdmiCec.c:742-780 | the map with its pass and the emulated TV's addresses is the model's opened view |
| Driver.VirtualComponent.ProcessMsg | vcomponent/src/vcHdmiCec.c:339-366 | a message of a known key is offered to the queue, everything else is ignored |
| Driver.VirtualComponent.HandlerTurn | vcomponent/src/vcHdmiCec.c:422-473 | while the HAL is open the handler takes the first message and acts on it as the model says |
| Driver.VirtualComponent.HdmiCecClose | vcomponent/src/vcHdmiCec.c:547-576 | closing returns exactly if fewer than 32 were pending, after processing them, with every record freed |
| Driver.VirtualComponent.HdmiCecAddLogicalAddress | vcomponent/src/vcHdmiCec.c:833-854 | the error order, and otherwise the model's view and status |
| Driver.VirtualComponent.HdmiCecRemoveLogicalAddress | vcomponent/src/vcHdmiCec.c:856-883 | the error order, and otherwise the model's view and status |
| Driver.VirtualComponent.HdmiCecGetAddresses | vcomponent/src/vcHdmiCec.c:811-831 | the error order, and otherwise the emulated device's addresses |
| Driver.VirtualComponent.HdmiCecSetRxCallback | vcomponent/src/vcHdmiCec.c:907-923 | the error order, and otherwise the callback is set and nothing else changes |
| Driver.VirtualComponent.HdmiCecTx | vcomponent/src/vcHdmiCec.c:942-975 | the error order, and otherwise the model's transmission status, with a result stored on success only |

## Left out

- Key/value and YAML parsing, profile files and key strings: a profile is an n-ary tree, and a message is its parsed record. A message that fails to parse aborts the program and is not modelled.
- Null strings and null instances: names are always present; null records and null buffers are modelled.
- Truncation of names to 16 characters and of text fields to the parser's element size.
- The tables for device types, vendors, power states and ports: profiles carry the parsed type. Vendor, version, power status and port information are copied and never used by the modelled operations.
- Websocket control plane, printing and logging: no state of the modelled kind.
- Threads, malloc and the C library: a mutex section is one step of the queue protocol, API calls and handler turns are atomic steps of a run, allocation always succeeds, and the callback is an append to a ghost trace.
- The time between freeing the HAL and clearing the global handle: closing is one step.
- Initialising and deinitialising the virtual component, and its own open and close, which recurse while a HAL is open; a `VirtualComponent` stands for an initialised component with its profile loaded.
- The failed assertion that stops a debug build when the emulated device is missing: opening returns the error that follows it.
- Reads of the emulated device after it was freed: C gives them no meaning, so steps and methods that make one ask that it is still there, and only those.
- HdmiCecTxAsync and the transmit callback: deprecated, with the same checks as HdmiCecTx.
- GetPhysicalAddress and GetLogicalAddress are one method, as both only read the emulated device.
- The transmitted bytes: HdmiCecTx only prints them.
