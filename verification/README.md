# Verification of the acx driver's transmit and receive core

This project models the core of the driver for TI ACX100/ACX111 wireless chips and proves what it relies on
and what it promises. `dafny verify dfyconfig.toml` checks all of it. The model has five parts.

**Card memory** (`Words`, `BlockChains`, `SlaveMemory`). The host reaches the card's memory of 32-bit
little-endian words through an address register and a data register. The byte and half-word accessors, the plain
block copy and the block-chain copy are proved to change exactly their own bytes. Masks that cover whole byte
lanes are written lane by lane; the same lanes are stated of the masks themselves on bit vectors.

**The transmit block pool** (`TxPool`). A linked-list allocator inside the card's memory, with 19-bit block
numbers and an end mark packed into the first word of each block. A ghost list gives the free blocks in list order.

**The transmit pipeline** (`TxProtocol`, `TxTheorems`, `TxRing`, `MemTx`, `PciTx`, `UsbTx`). `TxProtocol` is a
state machine over values: frames wait, are outstanding in the ring of a hardware queue, and are settled. Its
steps are what the driver does under its mutex (`acx_tx_work`, the Tx part of `acx_irq_work`), interleaved with
arriving frames and with a card that finishes submitted descriptors in any order; both may also happen between any
two rounds of the sending loop. `TxTheorems` holds what is true of every run. `MemTx` (one queue, frames in pool
blocks, all state in card memory) and `PciTx` (several queues, shared descriptors, host buffers) are the driver's
own methods; each is proved to do exactly one protocol step, so the theorems are theorems about them
(`MemTxDevice.Execute`, `PciTxDevice.Execute`). `TxRing` states the invariant that joins ring and pool: the
descriptors from the tail on are occupied and point to chains that hold their frames, the others are idle, and
free list and chains together are all blocks of the pool, each once. `UsbTx` is the slot pool of the USB device,
whose frames finish in any order.

**Receiving** (`UsbRx`, `UsbDevice`, `RxRing`). USB reassembly of length-prefixed records is compared with a parser of
the whole stream; the status records that come out of it are tied to the transmit slots they free. A pass over the
descriptor ring of a PCI or MEM device is a sequence of looks, with descriptors filled between any two of them. It
is proved exactly when the ring stays a queue, and exactly when frames are received in order.

**Set-up** (`Firmware`, `PoolLayout`, `Multiples`). Firmware files, upload, verification and the USB boot
transfers, and the arithmetic that places rings and pools and so gives the allocator what it relies on.

Properties that do not hold as one might expect:

- The ring has no bit to tell full from empty. On a full ring nothing is cleaned, even if the card has finished
  every descriptor: for ever on PCI, until the eleventh attempt on MEM, which then drops sixteen frames unreported.
  A run drops frames if and only if one of its steps meets the guard of the emergency clean (`RunDropsIff`). That
  needs a mac80211 that hands over frames while its queues are stopped, as the 27 frames of `ImpoliteRunsDrop` do;
  with one that does not (`polite`), no ring ever becomes full (`PoliteRunsNeverFill`).
- The receive ring stays a queue if and only if the search for the first full descriptor never finds one behind a
  tail that it has just seen empty, a look that overtakes (`RxRunIsFifoIff`). On an empty ring, two descriptors
  filled during the search are enough to swap two frames (`EmptyRingCanReorder`). Frames are received in order if
  and only if the slot of an overtaking look is never handled (`OrderIff`, for frames that can be told apart and full
  descriptors that have one; a MEM device also has descriptors that are only reclaimed).
- USB reassembly does not depend on the cuts if and only if no transfer ends inside a 12-byte header.
- A zero-length allocation cuts the free list after its first block. mac80211 hands over no empty frame.
- A half-word written at the last byte of a word loses its high byte.
- A USB status record for a slot that is not busy makes the count of free slots too high; over any stream of
  transfers the count stays right if and only if the records name busy slots, none of them twice.
- The 16-bit block counts overflow from 131071 blocks on, and then the Tx pool does not follow the Rx pool.
- The pools are placed behind the end of the queues that the card reports, not behind the rings that the driver
  places; the rings reach into the Rx pool if that end, rounded up, lies before theirs.
- The Tx pool can overrun the end of the pool if the pool start is not aligned to 32 bytes.
- Four words are cleared at the queue indicator. If the card reports the end of the queues right behind the rings,
  they reach into the Rx pool unless the queues start at most 16 bytes behind a multiple of 32.
- The checksum of the USB boot covers bytes behind the last whole word, the one of PCI and MEM does not.
- A USB frame whose transfer cannot be submitted counts as sent and is never reported.

Assumptions about the outside: in chain mode the card behaves as the comments at mem.c:322-347 say and follows the
link of a block when its last word has been accessed; at ACX100_CMD_INIT_MEMORY it links its transmit blocks
in address order, as the comments at mem.c:1479-1495 say; after that it changes no memory but the control and
status bytes of descriptors submitted to it, and the emergency clean takes back all that were; frames handed to a
MEM device have 1 to 2346 bytes; sections under the mutex or a spinlock are atomic; mac80211 is seen through the
sequences of frames handed over and reported.

The card thus does not finish a descriptor after the emergency clean has taken it back. If it did, the descriptor at
the head could be marked done with all sixteen counted as free: taking it then fails at mem.c:1396 and changes
nothing (`ClaimDescriptor`), the attempts at mem.c:1317 are not counted, as the count is not zero, and cleaning does
not start, as head equals tail.

## Model

| member | source | states |
|---|---|---|
| Words.SetByteBytes | inlines.h:367-370 | the read-modify-write of a byte changes its byte lane and no other |
| Words.SetHalfBytes | inlines.h:410-413 | the half-word store changes two byte lanes, or one at the end of the word |
| Words.ByteMasks | inlines.h:367-370 | on bit vectors, clearing and or-ing with the byte masks replaces one lane of four |
| Words.HalfMasks | inlines.h:410-413 | on bit vectors, the half-word masks replace two lanes, or one at the end of the word |
| Words.HalfRoundTripIff | inlines.h:392-436 | a stored half-word reads back unless it straddles the word and its high byte is not zero |
| SlaveMemory.SlaveMem.Write8 | inlines.h:352-371 | memory as bytes changes exactly at the address |
| SlaveMemory.SlaveMem.Read8 | inlines.h:373-390 | returns the byte at the address |
| SlaveMemory.SlaveMem.Write16 | inlines.h:395-414 | memory as bytes changes at two addresses, little-endian, never outside the word |
| SlaveMemory.SlaveMem.Read16 | inlines.h:419-436 | returns the little-endian half-word, with zero for a byte behind the word |
| SlaveMemory.SlaveMem.CopyTo | mem.c:235-286 | writes the first min(count, 512) bytes at a word-aligned address and nothing else, including the merged tail word |
| SlaveMemory.SlaveMem.CopyFrom | mem.c:188-226 | reads count bytes and leaves the buffer behind them alone |
| SlaveMemory.SlaveMem.ChainCopyTo | mem.c:294-353 | a frame lands word by word in the data portions of its chain; no link word and no other block changes |
| SlaveMemory.SlaveMem.ChainCopyFrom | mem.c:362-419 | reads back the words a chain carries |
| BlockChains.ChainLinks | mem.c:1437-1451 | following a link word leads to the next block of the chain, and the end mark is set on the last block only |
| BlockChains.DataWordsDiffer | mem.c:322-351 | different words of a frame live in different words of the memory |
| BlockChains.StoreCarries | mem.c:348-351 | storing the next word of a frame keeps the words before it and touches data portions only |
| BlockChains.CutLinks | mem.c:1209-1236 | cutting the first k blocks off the free list leaves two well-formed lists |
| BlockChains.SpliceLinks | mem.c:1461-1466 | a chain spliced in front of the free list makes one well-formed list: the chain, then the old list |
| BlockChains.SpliceUndoesCut | mem.c:1199-1243 | freeing the chain just allocated restores the list and every word of the memory |
| TxPool.NeededIsCeiling | mem.c:1173-1183 | the number of blocks is the least whose data portions hold the frame |
| TxPool.NeededHolds | mem.c:1173-1183 | rounding the frame up to whole words does not need another block |
| TxPool.BlocksDisjoint | mem.c:1508-1520 | different blocks of the pool do not overlap |
| TxPool.ZeroRequestIff | mem.c:1199-1236 | a request for no bytes leaves the free list intact just if it has at most one block |
| TxPool.TxBufPool.Allocate | mem.c:1188-1249 | returns null and changes nothing if there are too few blocks; else cuts exactly the blocks needed off the front; a request for no bytes only writes an end mark |
| TxPool.TxBufPool.Reclaim | mem.c:1430-1469 | the free list becomes the chain followed by the old free list, in one changed word; pointers outside the pool are ignored; the walk ends |
| TxPool.TxBufPool.Init | mem.c:1503-1526 | the free list is all blocks in address order, and no word but their link words changes |
| TxPool.TxBufPool.Reset | mem.c:1479-1495 | on blocks that the card has linked itself, setting the two variables makes them the free list |
| TxProtocol.QueueGo | tx.c:489-522 | on PCI and MEM the sending loop ends although frames keep arriving, with nothing waiting or the queues stopped, and with no ring overfilled |
| TxProtocol.SendingUsesADescriptor | tx.c:494-519 | a frame sent lowers the total number of free descriptors, arrivals and completions do not raise it |
| TxTheorems.StepConserves | tx.c:489-522 | every step keeps: frames handed over for a queue are those settled, then outstanding, then waiting, in this order |
| TxTheorems.EveryRunConserves | tx.c:489-522 | in every run of a fresh device frames are neither lost nor duplicated nor reordered within a queue, also across EBUSY |
| TxTheorems.ReportsAreAPrefix | merge.c:2344-2475 | in every run what a queue has settled is a prefix of what was handed over, each frame once; all of it has been reported exactly if no step met the guard of the emergency clean |
| TxTheorems.RunAccounts | mem.c:1199-1243 | in every run, free blocks and the blocks of outstanding frames add up to the whole pool |
| TxTheorems.QueueGoKeepsReserve | tx.c:29-43 | a loop that starts with three free descriptors in every ring leaves at least two in each |
| TxTheorems.OneMoreFrame | tx.c:494-519 | a loop that starts stopped below the threshold sends one frame at most |
| TxTheorems.EventEffect | main.c:1038-1056 | a frame that arrives waits, is scheduled, and stops the queues as the twentieth; a finished descriptor gets its status; nothing else changes |
| TxTheorems.QueueGoEndsFor | tx.c:489-522 | the sending loop ends only with nothing waiting, on a low ring, without blocks for the next frame, or where the emergency clean is due; it stops running queues only for such a reason or at twenty waiting frames |
| TxTheorems.LowSendsOne | tx.c:511-518 | a loop that starts on a ring with fewer than three free descriptors sends one frame at most |
| TxTheorems.WorkEffect | tx.c:471-522 | the driver's thread does nothing unless scheduled; else all of the above holds of it, and only new frames schedule it again |
| TxTheorems.PoliteRunsNeverFill | tx.c:511-518 | if mac80211 respects stopped queues, no ring becomes full in any run |
| TxTheorems.ImpoliteRunsFill | tx.c:489-522 | if frames keep being handed over while stopped, the ring does become full |
| TxTheorems.ImpoliteRunsDrop | mem.c:1317-1340 | from a fresh device, 27 frames handed over by such a mac80211 reach the guard, and frames are dropped |
| TxTheorems.SettleConsumesPrefix | merge.c:2344-2475 | cleaning reports exactly the maximal finished prefix of the ring, with the card's status, and nothing behind the first hole |
| TxTheorems.CleanSettles | merge.c:2344-2475 | cleaning a queue that is not full takes off exactly the finished frames in front of the first unfinished one and reports each, acknowledged as its flags and bits 4 and 5 of the error byte say; blocks free and held keep their sum; nothing else changes |
| TxTheorems.IrqCleans | merge.c:2735-2753 | the interrupt does so for every queue, and wakes stopped queues exactly if every ring then has five free descriptors |
| TxTheorems.FullRingIsStuck | merge.c:2344-2347 | a full ring stays full and reports nothing, for ever on PCI and for ten attempts on MEM |
| TxTheorems.GuardDrops | mem.c:1317-1340 | where the guard is met, ring and pool are emptied, the sixteen frames are dropped unreported, and every waiting frame is kept |
| TxTheorems.StepDropsIff | mem.c:1317-1340 | a step drops frames exactly if it runs the loop of a MEM device on a full ring with ten attempts counted and a frame at hand |
| TxTheorems.RunDropsIff | mem.c:1317-1340 | a run drops frames exactly if one of its steps meets that guard |
| TxTheorems.NeverGuardedIfPolite | tx.c:511-518 | no run on PCI meets the guard, and none on MEM if mac80211 respects stopped queues |
| TxRing.HeadMeetsTail | merge.c:2344-2347 | head equals tail exactly if the ring is empty or full |
| TxRing.SubmitKeeps | merge.c:2180-2223 | hanging a filled chain cut off the free list into the head descriptor keeps the joint invariant of ring and pool |
| TxRing.SettleKeeps | merge.c:2421-2433 | giving the tail's chain back and resetting its descriptor keeps the joint invariant |
| TxRing.FinishKeeps | merge.c:2355-2358 | a card that finishes a submitted descriptor keeps the joint invariant |
| TxRing.EmptyRing | merge.c:2480-2524 | idle descriptors and a freshly linked pool are an empty ring, wherever the tail is |
| TxRing.TemplateFrame | merge.c:2429-2433 | the reset of a descriptor leaves its pNextDesc word and all other memory unchanged |
| TxRing.IdleBytes | merge.c:2421-2433 | of a descriptor that is free for the driver: HOSTOWN without ACXDONE at byte 0x24, and no AcxMemPtr |
| TxRing.OccupiedBytes | merge.c:2043-2237 | of a submitted descriptor, byte by byte: AcxMemPtr, total_length, and just FIRSTFRAG in Ctl_8 until the card is done; then HOSTOWN and ACXDONE, error and ack_failures |
| TxRing.HoldsReadsBack | mem.c:416-419 | the words read out of a chain that holds a frame begin with the bytes of the frame |
| TxRing.HostDescInverts | merge.c:2005-2024 | looking up host descriptor 2i inverts the address of descriptor i and rejects every other address |
| TxRing.NextIsCycle | merge.c:605-667 | following pNextDesc k times from descriptor i leads to descriptor (i + k) mod TX_CNT |
| MemTx.StoreFrame | merge.c:2180-2183 | allocates exactly the blocks needed and stores the frame in them, whatever the buffer holds behind it |
| MemTx.StoreThenFetch | mem.c:294-419 | a frame stored in the pool is read back byte for byte |
| MemTx.MemTxDevice.CreateTxDescQueue | merge.c:605-667 | sixteen idle descriptors with HOSTOWN and FIRSTFRAG, linked into one cycle |
| MemTx.MemTxDevice.ClaimDescriptor | mem.c:1367-1412 | takes the descriptor at the head exactly if the host owns it and it is not marked done, and moves head and free by one; else it changes nothing. Under the joint invariant it never fails |
| MemTx.MemTxDevice.TxData | merge.c:2043-2237 | the descriptor gives length and chain of the frame and belongs to the card; the branch for missing room is dead; nothing but the descriptor and the chain changes |
| MemTx.MemTxDevice.TxFrame | tx.c:99-144 | one protocol step: submitted, or EBUSY with the queues stopped or an attempt counted; the joint invariant is kept |
| MemTx.MemTxDevice.RingIsFull | mem.c:1317-1340 | ten attempts are counted, then the emergency clean runs |
| MemTx.MemTxDevice.CleanEmergency | merge.c:2480-2524 | on a full ring it re-establishes both invariants although head and tail stay |
| MemTx.MemTxDevice.CleanTxdesc | merge.c:2307-2476 | exactly the finished frames in front of the first unfinished one are taken off the ring and reported; one protocol step, in which each chain is given back once and each descriptor is reset; nothing happens on a full ring |
| MemTx.MemTxDevice.IrqTx | merge.c:2735-2753 | cleans, and wakes stopped queues exactly if five descriptors are free then |
| MemTx.MemTxDevice.OpTx | main.c:1038-1056 | appends the frame, schedules the loop, stops at twenty waiting frames |
| MemTx.MemTxDevice.CardFinishes | merge.c:2355-2358 | the card's step: a submitted descriptor, in any order, gets its status and goes back to the host |
| MemTx.MemTxDevice.QueueGo | tx.c:489-522 | the loop over card memory does what the protocol's loop does, with frames arriving and descriptors finishing between its rounds; it ends, and only for one of the reasons of `EndsFor` |
| MemTx.MemTxDevice.Execute | tx.c:471-522 | every sequence of operations is a run of the protocol and keeps the joint invariant |
| MemTx.MemTxDevice.Setup | merge.c:605-667 | descriptor ring, the card's own links and the reset of the pool variables make a fresh protocol state |
| MemTx.MemTxDevice.SetupAndExecute | boot.c:505-516 | from set-up on, in every run: frames conserved in order, blocks accounted for, frames dropped exactly if the guard is met, and nothing dropped and no full ring under a mac80211 that respects stopped queues |
| PciTx.PciTxDevice.constructor | merge.c:586-665 | fresh rings are a fresh protocol state; every descriptor has its control byte, points to its host descriptors and, on the ACX100, to the next one |
| PciTx.HopsAreCycle | merge.c:605-667 | following the next pointers of an ACX100 n times from descriptor i of a ring leads to descriptor (i + n) mod 16 of the same ring |
| PciTx.PciTxDevice.AllocTx | pci.c:487-525 | fails just on a full ring; else the descriptor at the head, which is always free |
| PciTx.PciTxDevice.TxFrame | tx.c:99-144 | one protocol step on the queue of the frame; all other queues keep their invariant |
| PciTx.PciTxDevice.CleanTxdesc | merge.c:2307-2476 | exactly the finished frames of one queue in front of the first unfinished one are taken off the ring and reported; one protocol step; nothing happens on a full ring |
| PciTx.PciTxDevice.IrqTx | merge.c:2735-2753 | so for every queue, and stopped queues are woken exactly if every ring then has five free descriptors |
| PciTx.PciTxDevice.AtStopLimit | tx.c:29-43 | true exactly if some queue has fewer than three free descriptors |
| PciTx.PciTxDevice.AtStartLimit | merge.c:2650-2665 | true exactly if every queue has at least five free descriptors |
| PciTx.PciTxDevice.QueueGo | tx.c:489-522 | the loop over several queues does what the protocol's loop does; it ends, and only for one of the reasons of `EndsFor` |
| PciTx.PciTxDevice.Execute | tx.c:471-522 | every sequence of operations is a run of the protocol |
| PciTx.PciTxDevice.ExecuteFresh | tx.c:471-522 | from set-up on, in every run: frames of each queue conserved in order, nothing dropped, and no full ring under a mac80211 that respects stopped queues |
| UsbTx.UsbTxQueue.AllocTx | usb.c:1176-1202 | the first free slot behind the head in ring order; fails just if all are busy and then changes nothing |
| UsbTx.NoneFree | usb.c:1184-1195 | the search around the ring finds a slot unless all are busy |
| UsbTx.UsbTxQueue.TxFrame | usb.c:1225-1308 | the frame goes into the first free slot behind the head, and its header carries the number of the slot; free stays the number of free slots, also on the error path, where the frame is lost; frames taken are those reported, lost or in busy slots |
| UsbTx.UsbTxQueue.TxStatus | usb.c:994-1014 | reports the frame of the slot, frees it and wakes the queue at five free slots; the invariant survives exactly if the slot was busy |
| UsbDevice.CompleteUrbs | usb.c:830-1056 | over a whole stream of transfers, each status record reports the frame of its slot and frees it, in order, and stopped queues are woken exactly if five slots are free then; the bookkeeping of the slots is right at the end exactly if the records name busy slots and none of them twice |
| UsbDevice.HandleRecord | usb.c:979-1014 | a status record reports and frees the slot in its hostdata, with its ack_failures; a received frame leaves the slots alone |
| UsbDevice.NamesSlot | usb.c:994 | a record names slot k exactly if it gives back the four bytes that the driver puts into the header of a frame in slot k |
| UsbDevice.NoStraysIff | usb.c:994-1007 | no record comes for a slot that is free at that time exactly if all named slots are busy at the start and none is named twice |
| UsbRx.TransferKeepsTrunc | usb.c:911-955 | after any transfer the truncation buffer is empty or holds the start of one frame, 12 bytes at least, that fits when complete |
| UsbRx.TransferParses | usb.c:906-1056 | a transfer of a well-formed stream handles what parsing the held bytes and the new ones gives |
| UsbRx.BadCutLosesBytes | usb.c:966-972 | after a cut inside a header, bytes are missing for ever |
| UsbRx.ReassemblyIff | usb.c:906-1056 | over all transfers, reassembly equals the parse of the whole stream if and only if no transfer ends inside a header |
| UsbRx.ParseInverts | acx_struct_hw.h:147-152 | records that say in their first two bytes how long they are and whether they are a tx status are parsed back as they were written, whatever follows |
| UsbRx.LoopInverts | usb.c:964-1056 | the driver's loop handles exactly such records, whatever follows |
| UsbRx.LoopOtherwise | usb.c:964-1056 | anything else: part of a header and all behind an overlong frame are lost, an unfinished frame is held, an overlong tx status is reported out of its first twelve bytes and skipped |
| UsbRx.CutsOkIff | usb.c:966-972 | the bad cuts are exactly those behind byte one to eleven of a record |
| UsbRx.ReassemblyAfterErrorIff | usb.c:880-899 | error statuses split the stream: since the last one, reassembly is exact if and only if no transfer ends inside a header |
| UsbRx.UsbReceiver.CompleteRx | usb.c:830-1056 | does what the model of one transfer says; a device that is down and a foreign buffer change nothing, an error status drops what is held; the loop ends even if a status record exceeds the transfer |
| UsbRx.UsbReceiver.CompleteAll | usb.c:830-1056 | over all transfers, the records handled and the bytes held are those of the model |
| UsbRx.UsbReceiver.CompleteStream | usb.c:906-1056 | over a stream without errors they are those of the whole-stream parse if and only if no transfer ends inside a header |
| UsbRx.UsbReceiver.CompleteRecords | usb.c:906-1056 | records written in plain bytes and cut into transfers are handled exactly as written, with nothing held, if and only if no transfer ends inside the header of one of them |
| RxRing.RxQueue.Search | mem.c:1065-1100 | the first loop, with descriptors filled meanwhile, ends at a full descriptor or after sixteen looks as the model says |
| RxRing.RxQueue.ProcessRxdesc | pci.c:567-622 | a pass does what the model of its looks says, with descriptors filled between any two of them, and ends once the card is quiet; with a quiet card it receives the frames of the first run of full descriptors at or behind tail, in order, gives exactly those descriptors back and leaves tail behind them |
| RxRing.QuietPassReceives | mem.c:1065-1169 | the same of the model, from any ring; with no full descriptor nothing changes; a MEM descriptor that is only reclaimed or has no AcxMemPtr brings no frame |
| RxRing.FindRun | mem.c:1065-1100 | every ring has such a run, or no full descriptor |
| RxRing.EachHasOne | mem.c:1101-1134 | if every descriptor of a run has a frame, the frames received are exactly theirs, in ring order |
| RxRing.NonemptyPassKeepsFifo | mem.c:1104-1169 | a pass over a nonempty ring keeps the order whatever is filled meanwhile; with a quiet card it receives all that has arrived and leaves tail at the first empty slot |
| RxRing.DriverKeepsFifoIff | mem.c:1065-1169 | a look or a handling keeps the full slots one run from the oldest frame to the card's index exactly if it does not overtake |
| RxRing.RxRunIsFifoIff | mem.c:1050-1169 | over every interleaving of looks and fills, the ring stays a queue, with all that has arrived either received or in one run of full slots from the oldest on, exactly if no look overtakes |
| RxRing.OrderIff | mem.c:1050-1169 | over every interleaving, what is received is always a prefix of what has arrived exactly if no step handles the slot of an overtaking look; for frames that can be told apart and full descriptors that have one |
| RxRing.OrderKept | mem.c:1050-1169 | without those conditions, a run that never handles such a slot receives in order |
| RxRing.PassIsRun | pci.c:567-622 | a pass of the driver, with descriptors filled at any moment, is such a run |
| RxRing.OvertakingReorders | pci.c:579-603 | what an overtaking pass receives next arrived behind a frame not yet received |
| RxRing.EmptyRingCanReorder | pci.c:579-603 | on an empty ring, two descriptors filled right after the first look are received in the wrong order |
| Firmware.ReadFwAccepts | boot.c:193-222 | accepts exactly files as long as their header says, although the length is added up in 32 bits; checksum and size are the little-endian words in front of the data |
| Firmware.ReadFwInverts | boot.c:193-222 | reading the file of an image gives the image |
| Firmware.WriteFw | merge.c:1095-1184 | memory holds the image's words, and nothing else has changed; byte by byte, each word lies in the opposite order; the result compares the 32-bit byte sum |
| Firmware.HoldsInBytes | merge.c:1137 | holding the words of an image means that byte i of word j in memory is byte 3 - i of word j of the file |
| Firmware.ChecksumInBytes | merge.c:1136 | the checksum is the sum of the four bytes of the size and the bytes of the data, modulo 2^32 |
| Firmware.SumOfAppend | merge.c:1136 | the sum of bytes is additive, and one byte is its own sum |
| Firmware.ValidateFw | merge.c:1190-1264 | OK if and only if memory holds the image and the sum matches, whatever memory holds; then it holds it byte by byte |
| Firmware.WriteThenValidate | merge.c:1278-1286 | on faithful memory verification succeeds exactly if writing did |
| Firmware.UploadFw | merge.c:1266-1300 | on memory that may go wrong, success means that the card holds the image, byte by byte, and comes just if the sum is right and one of five attempts reads back |
| Firmware.ChecksumsAgreeIff | usb.c:330-342 | the checksums of the USB boot and of `acx_write_fw` agree just if the bytes behind the last whole word are zero |
| Firmware.NeedsPadding | usb.c:216-222 | padding is needed exactly if the number of blocks is even, also for size 0 |
| Firmware.SendBlocks | usb.c:348-375 | the blocks join to the image with the four bytes of each whole word in the opposite order, 2048 bytes each but for the last |
| Firmware.UsbBoot | usb.c:307-384 | a command announcing the length, with four bytes of padding for an even number of blocks, goes out in any case; none of the image is sent if the checksum is wrong; else an odd number of transfers with as many bytes as announced: the image with its words swapped, then padding at most |
| PoolLayout.InitMemoryPools | init.c:415-480 | both pools are aligned; they are adjacent exactly if their 16-bit block counts do not overflow; then they are as large as whole blocks allow, and the Tx pool stays inside exactly if rounding up the start fits into what is left over |
| PoolLayout.UnalignedStartOverruns | init.c:470-480 | a start that is not aligned for which the Tx pool ends behind the pool |
| PoolLayout.PoolServesAllocator | init.c:499-500 | the Tx pool meets what the allocator relies on just if there are two blocks or more |
| PoolLayout.CreateDmaRegions | init.c:530-594 | the rings stay clear of the pools exactly if they end no later than the reported end of the queues, rounded up; exact conditions for the layout that the transmit path relies on, and for the words cleared at the queue indicator |

## Left out

- MemTx.MemTxDevice.TxData: the rate byte, the host descriptors' lengths and the RTS flag carry no state of the protocol and are not part of its contract; the rate is arbitrary.
- PciTx.PciTxDevice.TxFrame: ownership bits of the host descriptors, rates and DMA addresses are not modelled, nor a frame longer than the host buffer.
- TxTheorems.ReportsAreAPrefix: acknowledgement and retry count follow the card's status bytes; on the ACX111 the count is filed under the rate the card reports, which is not modelled, and mac80211 keeps only five bits of it.
- RxRing.RxQueue.ProcessRxdesc: frames are opaque; the length read from the descriptor and the panic on an `ACXMemPtr` of 64 KiB or more are not modelled.
- UsbTx.UsbTxQueue.TxStatus: the slot number in a status record is assumed to be one of the eight; the driver does not check it.
- UsbDevice.CompleteUrbs: the same assumption, and no frame is sent between the transfers of the stream; `TxFrame` keeps the same invariant.
- PoolLayout.CreateDmaRegions: a card that reports the end of the pool before its start is not modelled.
- Firmware.UsbBoot: failing bulk transfers, the rest of the command and the device's answer at the end.
- Firmware.SendBlocks: for a size that is no multiple of four, the swap mixes the last bytes with stale bytes of the buffer; only their number is promised.
- SlaveMemory.SlaveMem.ChainCopyFrom: the bounce buffer for a destination that is not word-aligned, with its limit of 2346 bytes.
- PciTx.PciTxDevice.CleanTxdesc: on the ACX111 the retry count is filed under the rate the card reports, which is not modelled.
- RxRing.RxRunIsFifoIff: receive descriptors are values, not words of card memory, and the chain copy of a received frame is not tied to them.
- MEM descriptors are those of the ACX100; the ACX111 has no initialised descriptor links and a larger descriptor.
- Hardware encryption is fixed during a run; the driver enables it on the ACX111 only, which has several queues.
- `acxmem_dealloc_tx` and `acxusb_dealloc_tx` do not give back `free`; they are reached only if a transmit buffer is null.
- Device start and stop, queue flush, full reset, scanning, probing, debug output, kernel-version variants.
- The command mailbox and all configure and interrogate calls, whose meaning depends on the firmware.
- Whether a stopped queue is woken in the end.
- The element walk and template split for beacons in cardsetting.c, rate tables, interrupt masks, EEPROM options, key setup and LEDs, which would only add easy members.
- `struct ieee80211_hdr` and the other kernel structures are not part of this model; a frame is its bytes, its encryption and acknowledgement flags and an identity.
