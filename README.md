# openmrn core, modelled in Dafny

This project models five pieces of openmrn, the OpenLCB/NMRAnet stack for
microcontrollers, and proves properties of each model.

- **STM32 RailCom driver** (`railcom_model.dfy`, `railcom_driver.dfy`).
  During a DCC cutout the driver polls every channel's UART. In window 1
  (`middle_cutout`) and window 2 (`end_cutout`) it drains the received bytes
  into one feedback packet per channel. A packet is allocated before the first
  byte is read. Bytes with a framing error are dropped. Each channel's
  packet is committed to the feedback queue at the end of the cutout. If no
  channel committed one, an empty record is committed for channel 0.
  `RailcomModel` states the driver as functions over the state of the UARTs,
  the returned-packet slots, the packet allocator and the feedback queue.
  `RailcomDriver.Stm32RailcomDriver` is the driver class. It has an array of
  returned packets, and its methods are proved to compute those functions.
- **CDI layout** (`cdi_layout.dfy`, `cdi_node_rep.dfy`). These are the
  `CDIUtils` helpers over the OpenLCB Configuration Description Information
  XML tree: child lookup, name and description lookup, numeric attributes,
  `prepare_doc`, and the iterative `layout_segment` walk. The walk gives every
  data element its offset and size. `LaySeq` states the layout recursively,
  and `LayoutSegment` is the source's loop over a stack of frames, proved to
  compute it. `CDINodeRep` turns the layout into absolute addresses with
  32-bit `unsigned` arithmetic.
- **Bit-range event producer/consumer** (`bit_range_events.dfy`,
  `encode_range_agreement.dfy`). The class
  `BitRangeEventPC` maps each bit of a `uint32_t` backing store to two events:
  "set" at `base + 2*bit` and "clear" at one more. It covers `Set`, the
  handling of event reports and of identify messages, and `EncodeRange`,
  which builds the event-range identifier announced on a global identify.
  `EncodeRangeAgreement` relates the loop of `EncodeRange` as written to
  the corrected loop. `machine_int.dfy` holds the 32-bit `unsigned`
  conversion both this model and `CDINodeRep` use.
- **CRC-16/IBM** (`crc.dfy`). This covers `reverse`, `crc_16_ibm_add`,
  `crc_16_ibm` and the triple CRC `crc3_crc16_ibm`. The triple CRC computes
  the CRC of all bytes, of the bytes at even positions and of the bytes at
  odd positions.
- **ESP32 bootloader HAL** (`esp32_bootloader.dfy`). This covers flash page
  rounding, the flash boundaries, the checksum stub, and the check of an
  image's first block against the running chip. It also covers
  `flash_complete` and the set-up done by `esp32_bootloader_run`.
  Everything ESP-IDF provides is a parameter whose value is given: the chip
  model, the partitions, and the results of `esp_ota_begin`, `esp_ota_end`
  and `esp_ota_set_boot_partition`. What the model records of those calls is
  the writes handed to the OTA (over-the-air update) layer, the next boot
  partition, and whether the node restarted.

Where the code differs from its own documentation, the model follows the
code:

- `end_cutout` commits the empty record only when allocation succeeds
  (`Stm32Railcom.hxx:319-325`). An allocator with no free slot commits
  nothing.
- A channel's packet is allocated before the framing error of its first
  byte is seen. A channel whose bytes all had framing errors therefore still
  commits a packet, whose payload is empty (`ErroredBytesStillAllocate`).
  So the committed packets are not exactly the channels that got valid
  bytes.
- `get_flash_boundaries` sets `flash_max` to the partition size, which is
  one past the last byte. In `bootloader_hal.h:126`, `flash_max` is
  documented as the last valid byte.

Integers are unbounded in Dafny. Where the source's width matters, it is
written out:

- 64-bit event ids and the wrap-around in `EncodeRange`;
- 32-bit `unsigned` addresses in `CDINodeRep`;
- `int` truncating division for the replica stride;
- `bv8`, `bv16` and `bv32` for bytes, CRC states, backing words and flash
  addresses.

## Model

| member | source | states |
|---|---|---|
| RailcomModel.FlushEmptiesBuffer | src/freertos_drivers/st/Stm32Railcom.hxx:218-221 | Flushing a receiver at the start of a cutout leaves its buffer empty. Its framing-error flag is set iff it was set before or any flushed byte had a framing error. |
| RailcomModel.StartClearsChannels | src/freertos_drivers/st/Stm32Railcom.hxx:206-225 | `start_cutout` leaves every channel with an empty buffer and no returned packet. Every receiver listens when window 1 is needed, and otherwise keeps its direction. The allocator and the queue are unchanged. |
| RailcomModel.DrainInClosedForm | src/freertos_drivers/st/Stm32Railcom.hxx:232-263 | The drain loop of one channel equals its closed form. With no packet and no free slot, nothing is read. Otherwise a packet is allocated (or kept) and every buffered byte is read. The packet receives, in order, the bytes without a framing error, minus the first byte when the flag was already raised. The receiver ends empty with its flag clear, and after a framing error in window 1 it ends switched off. |
| RailcomModel.DrainLive | src/freertos_drivers/st/Stm32Railcom.hxx:279-303 | A channel that already holds a packet is drained to empty. The valid bytes are appended to that packet and no slot is allocated. |
| RailcomModel.ValidDataAllErrored | src/freertos_drivers/st/Stm32Railcom.hxx:293-298 | When every byte arrived with a framing error, none of them is kept. |
| RailcomModel.ErroredBytesStillAllocate | src/freertos_drivers/st/Stm32Railcom.hxx:236-261 | A channel with only errored bytes and a free slot still allocates a packet, which stays empty, and uses one slot. |
| RailcomModel.RefusedAllocationKeepsBytes | src/freertos_drivers/st/Stm32Railcom.hxx:236-243 | When allocation fails, the loop breaks before reading. The bytes stay in the receiver and nothing changes. |
| RailcomModel.StaleFramingErrorDropsFirstByte | src/freertos_drivers/st/Stm32Railcom.hxx:245-261 | A framing-error flag left set by the flush in `start_cutout` makes window 1 drop the first clean byte and switch the receiver off. Only the second byte is kept. |
| RailcomModel.DrainResultChannel | src/freertos_drivers/st/Stm32Railcom.hxx:232-263 | Draining channel i yields only a packet of channel i and keeps an existing packet. It never frees a slot, and uses one only when it yields a packet. The buffer ends empty unless allocation was refused with no packet held. |
| RailcomModel.SweepChannels | src/freertos_drivers/st/Stm32Railcom.hxx:230-268 | After the loop over channels 0..n-1, each of those channels holds its drained receiver: after window 1 restarted (listening, buffer empty, FE clear), after window 2 switched off. Each holds its packet in window 1 and none in window 2. Channels from n on are untouched. |
| RailcomModel.SweepFreeSlots | src/freertos_drivers/st/Stm32Railcom.hxx:236-239 | A sweep never gains free slots. It uses slots only if some channel's drain produced a packet. |
| RailcomModel.SweepFreeMonotone | src/freertos_drivers/st/Stm32Railcom.hxx:277-314 | The free slot count does not grow from one channel to the next. |
| RailcomModel.SweepAppends | src/freertos_drivers/st/Stm32Railcom.hxx:307-313 | The window-2 sweep only appends to the feedback queue. The old queue is a prefix, and each commit makes one more packet pending. |
| RailcomModel.SweepCommitSources | src/freertos_drivers/st/Stm32Railcom.hxx:277-314 | Every packet the window-2 sweep commits is the drained packet of a channel below n, in strictly increasing channel order. |
| RailcomModel.SweepCommitsAll | src/freertos_drivers/st/Stm32Railcom.hxx:307-313 | Every channel below n whose drain left a packet has that packet committed. |
| RailcomModel.MiddleKeepsQueue | src/freertos_drivers/st/Stm32Railcom.hxx:227-271 | Window 1 commits nothing: the queue and the pending count are unchanged. |
| RailcomModel.ValidDataClean | src/freertos_drivers/st/Stm32Railcom.hxx:245-262 | Every kept byte arrived in the buffer without a framing error. |
| RailcomModel.KeptClean | src/freertos_drivers/st/Stm32Railcom.hxx:244-262 | The bytes a receiver hands over, including the effect of a stale framing-error flag, are clean bytes that arrived in it. |
| RailcomModel.MiddleOutcome | src/freertos_drivers/st/Stm32Railcom.hxx:227-271 | After `middle_cutout` the queue is unchanged. Every receiver has been restarted by Disable, RX and Enable: it listens, its buffer is empty and FE is clear. Each packet holds its own channel's clean window-1 bytes. A channel whose buffered bytes went into no packet had no slot free. |
| RailcomModel.RestartClearsStaleFramingError | src/freertos_drivers/st/Stm32Railcom.hxx:264-267 | A framing error left by the `start_cutout` flush is cleared by the receiver restart when window 1 brings nothing. Both window-2 bytes are then committed. |
| RailcomModel.EndOutcome | src/freertos_drivers/st/Stm32Railcom.hxx:273-329 | After `end_cutout` every receiver is off and every slot empty, and the queue was only appended to. Something is committed iff a channel held a packet or the allocator had a free slot. When the sweep committed packets, the result is the sweep's. When it committed none, one empty record for channel 0 is committed if a slot was free, and otherwise the queue is unchanged. |
| RailcomModel.NoCutoutOutcome | src/freertos_drivers/st/Stm32Railcom.hxx:331-342 | `no_cutout` commits one empty record for channel 0 when a slot is free, and otherwise changes nothing. |
| RailcomModel.WindowTwoPayloads | src/freertos_drivers/st/Stm32Railcom.hxx:227-314 | After both windows, every packet committed carries the feedback key and a valid channel. Its window-1 and window-2 payloads are clean bytes that arrived on that channel in that window. |
| RailcomModel.CutoutOutcome | src/freertos_drivers/st/Stm32Railcom.hxx:206-329 | A whole cutout (start, window 1, window 2) leaves every receiver off and the queue only appended to. It commits at least one packet when a slot was free, and every committed packet holds only clean bytes of its own channel and window. |
| RailcomDriver.Stm32RailcomDriver.constructor | src/freertos_drivers/st/Stm32Railcom.hxx:167-190 | Every channel starts with its receiver off, an empty buffer and no returned packet. The queue starts empty. |
| RailcomDriver.Stm32RailcomDriver.AllocNewPacket | src/freertos_drivers/st/Stm32Railcom.hxx:236-239 | Allocation returns a fresh packet of the channel, with the feedback key, when a slot is free, and uses that slot. |
| RailcomDriver.Stm32RailcomDriver.DrainChannel | src/freertos_drivers/st/Stm32Railcom.hxx:232-263 | The drain loop of channel i puts that channel's receiver, slot and the allocator in exactly the state `Drain` gives. No other channel changes. |
| RailcomDriver.Stm32RailcomDriver.DrainStep | src/freertos_drivers/st/Stm32Railcom.hxx:236-262 | One turn of the drain loop keeps the outcome of the drain unchanged. It either stops where the drain is done or consumes a byte. |
| RailcomDriver.Stm32RailcomDriver.StartCutout | src/freertos_drivers/st/Stm32Railcom.hxx:206-225 | `start_cutout` computes `Start`. Window 1 is listened to when the hardware needs it or the feedback key is below 11000. |
| RailcomDriver.Stm32RailcomDriver.StartChannelAt | src/freertos_drivers/st/Stm32Railcom.hxx:213-222 | One channel is set to listen (when asked), flushed and cleared of its packet; the other channels are unchanged. |
| RailcomDriver.Stm32RailcomDriver.MiddleCutout | src/freertos_drivers/st/Stm32Railcom.hxx:227-271 | `middle_cutout` computes `Middle`: every receiver is drained and then restarted with an empty buffer and FE clear, as `MiddleOutcome` states. |
| RailcomDriver.Stm32RailcomDriver.EndCutout | src/freertos_drivers/st/Stm32Railcom.hxx:273-329 | `end_cutout` computes `End`. This includes the `have_packets` test that decides on the empty record. |
| RailcomDriver.Stm32RailcomDriver.SweepOneChannel | src/freertos_drivers/st/Stm32Railcom.hxx:277-314 | One channel of a window computes `SweepChannel`. It reports whether that channel committed a packet. |
| RailcomDriver.Stm32RailcomDriver.FinishChannel | src/freertos_drivers/st/Stm32Railcom.hxx:264-313 | The end of one channel's pass. In window 1 the receiver is restarted in RX: buffer empty, FE clear. In window 2 the receiver is switched off and its packet, if any, is committed. It reports whether it committed. |
| RailcomDriver.Stm32RailcomDriver.NoCutout | src/freertos_drivers/st/Stm32Railcom.hxx:331-342 | `no_cutout` computes `NoCutout`. |
| RailcomDriver.Stm32RailcomDriver.CommitEmptyRecord | src/freertos_drivers/st/Stm32Railcom.hxx:315-326 | The empty record for channel 0 is committed only if allocation succeeds. |
| RailcomDriver.Stm32RailcomDriver.FeedbackSample | src/freertos_drivers/st/Stm32Railcom.hxx:200-204 | One occupancy sample is appended, and measurement ends switched off. |
| CdiLayout.FindInFirst | src/openlcb/CDIUtils.hxx:76-86 | Searching the children finds nothing iff no child has the tag. Otherwise it finds the first child with the tag. |
| CdiLayout.FindChildFirst | src/openlcb/CDIUtils.hxx:76-86 | As above, for a node's children. |
| CdiLayout.FindChildOrNull | src/openlcb/CDIUtils.hxx:76-86 | The loop over the children returns the first child with the tag, or null. |
| CdiLayout.FindNodeName | src/openlcb/CDIUtils.hxx:93-99 | The name is the text of the first `name` child. The default is returned when there is no such child or it has no text. |
| CdiLayout.FindNodeDescription | src/openlcb/CDIUtils.hxx:106-112 | The description is the text of the first `description` child, or the empty string. |
| CdiLayout.NumericAttribute | src/openlcb/CDIUtils.hxx:184-196 | A missing or empty attribute gives the default. Otherwise it gives the attribute's parsed number. |
| CdiLayout.GetReplication | src/openlcb/CDIUtils.hxx:282-286 | A group's replication is its `replication` attribute, with default 1. |
| CdiLayout.ClearUserInfoClears | src/openlcb/CDIUtils.hxx:118-126 | Clearing leaves no user pointer anywhere in the tree and changes nothing else. It is the identity on a tree without user pointers. |
| CdiLayout.PrepareDoc | src/openlcb/CDIUtils.hxx:118-126 | The walk over all nodes of the document clears every user pointer. |
| CdiLayout.LeafSize | src/openlcb/CDIUtils.hxx:226-248 | An `eventid` has size 8. A `string`, `int` or `float` has its `size` attribute, with default 1. An empty group has size 0. |
| CdiLayout.LaidOutSegment | src/openlcb/CDIUtils.hxx:200-208 | The segment records its `origin` as its offset and the total of its children's layout as its size. |
| CdiLayout.LaySeqTotal | src/openlcb/CDIUtils.hxx:223-270 | The running total after a list of siblings is its start plus their span (offsets plus sizes, repeated groups multiplied). Every child has a laid-out counterpart. |
| CdiLayout.LaySeqChild | src/openlcb/CDIUtils.hxx:214-250 | Child k records the span of its earlier siblings plus its own offset attribute as its offset, and its size as stated without the walk. A meta child is left as it is. |
| CdiLayout.LaidOutSegmentChild | src/openlcb/CDIUtils.hxx:200-250 | The same, for the direct children of a segment. |
| CdiLayout.MetaSpansNothing | src/openlcb/CDIUtils.hxx:214-219 | A name, description or repname child does not change the layout total. |
| CdiLayout.SpanNonNegative | src/openlcb/CDIUtils.hxx:223-270 | When no offset, size or replication is negative, every span is non-negative. |
| CdiLayout.LaidOutDisjoint | src/openlcb/CDIUtils.hxx:223-249 | Without negative attributes, each data element ends before a later sibling starts. |
| CdiLayout.GoUp | src/openlcb/CDIUtils.hxx:253-271 | Going up through finished groups, multiplying each by its replication and adding it to its parent, keeps the walk's result. It stops at a frame with children left, or at the segment. |
| CdiLayout.LayoutSegment | src/openlcb/CDIUtils.hxx:200-278 | The iterative walk `layout_segment` gives the segment and every node below it exactly the layout `LaidOutSegment` states. It terminates. |
| CdiNodeRep.SegmentRep | src/openlcb/CDIUtils.hxx:301-308 | A segment's address is its recorded offset, the origin, as an `unsigned`. |
| CdiNodeRep.ChildAddress | src/openlcb/CDIUtils.hxx:352-359 | A child's address is the parent's address plus the child's recorded offset, modulo 2^32. |
| CdiNodeRep.GroupRep | src/openlcb/CDIUtils.hxx:315-321 | A group that is not repeated starts at its child address. |
| CdiNodeRep.ReplicaRep | src/openlcb/CDIUtils.hxx:330-342 | A replica starts at the child address plus the stride times its index, modulo 2^32. Replica 0 starts at the child address. |
| CdiNodeRep.ReplicaStep | src/openlcb/CDIUtils.hxx:339-341 | Consecutive replicas are one stride apart, modulo 2^32. |
| CdiNodeRep.TruncDivOfProduct | src/openlcb/CDIUtils.hxx:340 | The truncating `int` division of a replicated size by the replication gives back the size of one replica, also for negative sizes. |
| CdiNodeRep.LaidOutReplicaStride | src/openlcb/CDIUtils.hxx:330-342 | After the layout, the stride of a repeated group is the span of its children. Replica n starts n spans after the group's offset. |
| CdiNodeRep.SegmentChildAddress | src/openlcb/CDIUtils.hxx:352-359 | A data element of a laid-out segment sits at the origin plus the span of its earlier siblings plus its offset attribute, modulo 2^32. |
| BitRangeEvents.SetBit | src/nmranet/EventHandlerTemplates.cxx:110-114 | Setting or clearing one bit of the store sets that bit to the value and leaves every other bit and word unchanged. |
| BitRangeEvents.Decode | src/nmranet/EventHandlerTemplates.cxx:100-106 | An event belongs to the range iff it is at or above the base and its half-offset is below the size. Then it names bit (event-base)/2, with value "set" for an even offset. |
| BitRangeEvents.BitRangeEventPC.GetBitAndMask | src/nmranet/EventHandlerTemplates.cxx:51-59 | A bit outside the range gives no word. A bit inside gives its word index `bit >> 5` and the mask with bit `bit & 31` set. |
| BitRangeEvents.BitRangeEventPC.Get | src/nmranet/EventHandlerTemplates.cxx:61-69 | It reads the stored bit. |
| BitRangeEvents.BitRangeEventPC.Set | src/nmranet/EventHandlerTemplates.cxx:71-96 | Setting a bit to its current value only notifies. Otherwise it reports the event for the new value (even for set, odd for clear). |
| BitRangeEvents.BitRangeEventPC.AfterEventBits | src/nmranet/EventHandlerTemplates.cxx:98-115 | An event in the range sets its bit to its value and leaves all other bits alone. |
| BitRangeEvents.BitRangeEventPC.AfterEvent | src/nmranet/EventHandlerTemplates.cxx:100-106 | An event outside the range leaves the store unchanged. |
| BitRangeEvents.BitRangeEventPC.HandleEventReport | src/nmranet/EventHandlerTemplates.cxx:98-115 | The handler updates the backing array in place to `AfterEvent`. The event's bit then holds the event's value. |
| BitRangeEvents.BitRangeEventPC.WriteWord | src/nmranet/EventHandlerTemplates.cxx:110-114 | `*ofs \|= mask` or `*ofs &= ~mask` changes only that word of the array. |
| BitRangeEvents.BitRangeEventPC.HandleIdentifyBase | src/nmranet/EventHandlerTemplates.cxx:126-147 | An event outside the range only notifies. An event inside is answered with the valid MTI when the stored bit matches the event's value, and otherwise with the invalid MTI (one more). |
| BitRangeEvents.BitRangeEventPC.HandleIdentifyGlobal | src/nmranet/EventHandlerTemplates.cxx:167-182 | A global identify announces the range encoded by the corrected loop, first as producer and then as consumer. For the Findings input (base 0xFFFF_FFFF_FFFF_FFFC, size 1) the source's handler never replies, because its `encode_range` does not return. |
| BitRangeEvents.SetThenReport | src/nmranet/EventHandlerTemplates.cxx:71-115 | The event `Set` reports decodes back to the same bit and value, and handling it stores that value. |
| BitRangeEvents.ReportThenIdentify | src/nmranet/EventHandlerTemplates.cxx:98-147 | After an event report, identifying that event answers "valid" and identifying its opposite event answers "invalid". |
| BitRangeEvents.EncodeRange | src/nmranet/EventHandlerTemplates.cxx:149-165 | The corrected loop computes `EncodeRangeSpec`: the range identifier of the smallest aligned block around `begin` reaching past the end. |
| BitRangeEvents.EncodeRangeFormat | src/nmranet/EventHandlerTemplates.cxx:157-164 | The result is a 64-bit event range identifier. Its low k bits are all equal and differ from bit k, and above bit k it agrees with `begin`. |
| BitRangeEvents.EncodeRangeCovers | src/nmranet/EventHandlerTemplates.cxx:149-165 | When `begin + 2*size` does not overflow, the encoded range covers every event of the block from `begin` to `begin + 2*size`. |
| BitRangeEvents.AsWrittenEncodeRangeLoops | src/nmranet/EventHandlerTemplates.cxx:149-156 | As written, the loop for begin 0xFFFF_FFFF_FFFF_FFFC and size 1 never exits, within any number of iterations. |
| EncodeRangeAgreement.AsWrittenAgrees | src/nmranet/EventHandlerTemplates.cxx:149-165 | The loop as written returns the corrected identifier, within as many iterations as the width, whenever the aligned block of that width ends below 2^64. |
| BitRangeEvents.EncodeRangeNearTop | src/nmranet/EventHandlerTemplates.cxx:149-165 | For the same input, the corrected loop stops at width 2 and returns 0xFFFF_FFFF_FFFF_FFFC. |
| Crc.BitReversalBit | src/utils/Crc.cxx:42-49 | Bit i of the reversed byte is bit 7-i of the input. |
| Crc.BitReversalInvolution | src/utils/Crc.cxx:42-49 | Reversing twice gives back the byte. |
| Crc.Reverse | src/utils/Crc.cxx:42-49 | The shifting loop of `reverse` computes the bit reversal. |
| Crc.CrcFromAppend | src/utils/Crc.cxx:99-106 | The CRC state of a concatenation is the state of the first part, continued over the second. |
| Crc.Crc16Continues | src/utils/Crc.cxx:99-106 | The CRC of the empty input is the initial value 0x0000, and a CRC can be continued over more data. |
| Crc.Crc16CheckValue | src/utils/Crc.cxx:39-40 | With initial value 0 and reflected polynomial 0xA001, the CRC of "123456789" is 0xBB3D, the CRC-16/ARC check value. |
| Crc.Crc16IbmAdd | src/utils/Crc.cxx:80-89 | The eight-round loop of `crc_16_ibm_add` computes one byte step of the CRC. |
| Crc.Crc16Ibm | src/utils/Crc.cxx:99-106 | `crc_16_ibm` returns the CRC-16/IBM of the payload. |
| Crc.PositionsSnoc | src/utils/Crc.cxx:113-122 | A new last byte goes to the even positions when the length so far is even, and otherwise to the odd positions. |
| Crc.Crc3States | src/utils/Crc.cxx:108-122 | The loop feeds every byte to the first state, bytes at 0-based even positions to the second and bytes at odd positions to the third. |
| Crc.Crc3Crc16Ibm | src/utils/Crc.cxx:108-126 | The three checksums are the CRCs of the whole payload, of its even positions and of its odd positions. The rest of the output array is unchanged. |
| Crc.Crc3OfEmpty | src/utils/Crc.cxx:108-126 | For an empty payload, all three checksums are 0. |
| Esp32Bootloader.FlashPageInfo | src/freertos_drivers/esp32/Esp32BootloaderHal.hxx:258-267 | The page start is the address rounded down to the sector size and the page length is the sector size. So page start <= address < page start + length, the containment of `bootloader_hal.h`. |
| Esp32Bootloader.PageStartIdempotent | src/freertos_drivers/esp32/Esp32BootloaderHal.hxx:261-262 | Rounding a page start again gives the same page. |
| Esp32Bootloader.PageStartGreatest | src/freertos_drivers/esp32/Esp32BootloaderHal.hxx:261-262 | The page start is the greatest aligned address not above the address. |
| Esp32Bootloader.ChecksumData | src/freertos_drivers/esp32/Esp32BootloaderHal.hxx:417-424 | The checksum is CHECKSUM_COUNT (4) words, all zero, whatever the data. |
| Esp32Bootloader.ChipIdOf | src/freertos_drivers/esp32/Esp32BootloaderHal.hxx:498-520 | The chip id is INVALID iff the model is unknown, or is the H2 on an ESP-IDF without the H2 case. |
| Esp32Bootloader.ChipIdNamesModel | src/freertos_drivers/esp32/Esp32BootloaderHal.hxx:73-86 | The id of a known chip indexes the name table at that chip's name. |
| Esp32Bootloader.ChipName | src/freertos_drivers/esp32/Esp32BootloaderHal.hxx:73-86 | An id in the table gives its entry. An id past the table gives "INVALID". |
| Esp32Bootloader.WriteDecision | src/freertos_drivers/esp32/Esp32BootloaderHal.hxx:293-375 | A write at a non-zero address is always handed on. |
| Esp32Bootloader.FirstBlockWrittenIff | src/freertos_drivers/esp32/Esp32BootloaderHal.hxx:299-368 | The first block is written iff its image magic is right and its chip id is valid and equal to the running chip's. Its description magic must also be right, and `esp_ota_begin` must succeed with a non-zero handle. A wrong image magic restarts the node for that reason. |
| Esp32Bootloader.UnknownChipRejectsAll | src/freertos_drivers/esp32/Esp32BootloaderHal.hxx:319-321 | On a chip of unknown model, every first block is rejected and the node restarts. |
| Esp32Bootloader.ImageForKnownChip | src/freertos_drivers/esp32/Esp32BootloaderHal.hxx:319-321 | An image for a known chip passes the chip check iff it is for the running chip. |
| Esp32Bootloader.AsWrittenRejectionReadsPastTable | src/freertos_drivers/esp32/Esp32BootloaderHal.hxx:345-350 | As written, rejecting an image whose header says INVALID indexes the 11-entry name table at 0xFFFF. So does rejecting any image with the right magic on a chip of unknown model. |
| Esp32Bootloader.RejectionNames | src/freertos_drivers/esp32/Esp32BootloaderHal.hxx:343-352 | A rejected image is reported with the names of the image's chip and the running chip, with "INVALID" for ids past the table. |
| Esp32Bootloader.FlashCompleteResult | src/freertos_drivers/esp32/Esp32BootloaderHal.hxx:383-407 | `flash_complete` returns 0 iff both finishing the OTA and setting the boot partition succeed, and 1 otherwise. When finishing fails, it returns 1. |
| Esp32Bootloader.Esp32BootloaderHal.constructor | src/freertos_drivers/esp32/Esp32BootloaderHal.hxx:124-134 | The bootloader state starts zeroed. The RTC request flag is not initialised at start-up and keeps the value it retained. |
| Esp32Bootloader.Esp32BootloaderHal.FlashBoundaries | src/freertos_drivers/esp32/Esp32BootloaderHal.hxx:243-251 | The boundaries are 0 and the running partition's size. |
| Esp32Bootloader.Esp32BootloaderHal.Prepare | src/freertos_drivers/esp32/Esp32BootloaderHal.hxx:481-549 | Preparation clears the bootloader request and zeroes the state. It then records the node id, pins, chip id, running and target partitions and app size. The bootloader is entered iff a target partition exists and is not the running one. |
| Esp32Bootloader.Esp32BootloaderHal.WriteFlash | src/freertos_drivers/esp32/Esp32BootloaderHal.hxx:293-375 | `write_flash` keeps the OTA handle of a successful begin. It restarts the node exactly when the decision says so. Otherwise it hands the data to the OTA layer. |
| Esp32Bootloader.Esp32BootloaderHal.FlashComplete | src/freertos_drivers/esp32/Esp32BootloaderHal.hxx:383-407 | The result is `FlashCompleteResult`. The next boot partition becomes the target only on success. |

## Left out

- UART, GPIO and NVIC configuration, baud rates, the `Debug::` pins, interrupt priorities and the driver's destructor and `disable` are left out. They are hardware set-up with no effect on the decoded data. The Disable/RX/Enable restart at the end of each window-1 channel is not left out: it is modelled as `RailcomModel.Restarted`.
- The RailCom packet pool and the feedback queue's internals (`RailcomDriverBase`, in `RailcomImpl.hxx`) are not part of this model. The allocator is a count of free slots, and a commit appends the packet to a sequence.
- SweepCommitSources, CutoutOutcome: `commit_back()` names no packet. The model takes it to commit the packet of the channel being visited, so the committed order is the channel order of the commit loop. If the queue commits its reserved slots in allocation order, the order in the queue is the order in which window 1 and window 2 allocated them.
- The framing-error flag is modelled as sticky, as on STM32 USARTs with an interrupt clear register. Reading `RDR` does not clear it. It is cleared by `LL_USART_ClearFlag_FE` and by the receiver restart (`LL_USART_Disable`) that ends window 1, which also discards a buffered byte. A stale flag from the `start_cutout` flush therefore affects only window 1. On a part where reading the data register clears FE, the stale-flag effect of `StaleFramingErrorDropsFirstByte` does not occur.
- The driver's interrupt-driven concurrency and timing are not modelled. Each cutout callback runs to completion on the state it is given.
- The bytes each UART receives during a window are inputs of the model (`Arrive`); no line timing is modelled.
- `middle_cutout_hook`, `need_ch1_cutout`, `enable_measurement` and `sample` are hardware hooks. They are parameters or recorded values.
- Stm32RailcomDriver.constructor: takes the feedback key as an input. In the driver, `feedbackKey_` is set by the base class, which is not part of this model.
- The XML parser (sxmlc), `malloc`, `cleanup_doc`, `new_userinfo`, `get_userinfo` and `atoi` are left out. Attributes carry their parsed number.
- CdiLayout.LayoutSegment: sizes and offsets are unbounded integers; the 32-bit `int` overflow of very large layouts is not modelled.
- CdiNodeRep.ReplicaRep: the replica index is taken below 2^32, its `unsigned` range. The `HASSERT`s on parenthood and replication are stated as preconditions.
- The asynchronous write helpers, barriers and `Notifiable` plumbing of `BitRangeEventPC` are left out. A reply is a value naming the message.
- The event registry registration in the constructor and destructor is left out.
- BitRangeEvents.BitRangeEventPC.Get: the null-pointer return path is not modelled. `HASSERT(bit < size_)` makes it unreachable.
- `HandleIdentifyProducer` and `HandleIdentifyConsumer` only pass their MTI to `HandleIdentifyBase`; they are covered by its `mtiValid` parameter.
- The commented-out MSB-first CRC variant in `Crc.cxx` is not code and is left out.
- The ESP32 TWAI driver, the `LOG` output, the RTC-retained `bootloader_request` beyond its reset, and `esp_restart` beyond a flag are left out. So are `erase_flash_page`, `nmranet_alias`, `nmranet_nodeid`, `bootloader_hw_init` and the reading of frames.
- The `bootloader_led` calls around `esp_ota_write` in `write_flash` (`Esp32BootloaderHal.hxx:369-370`, `373-374`) only drive LEDs and are left out.
- The TWAI shutdown at the end of `esp32_bootloader_run` (`Esp32BootloaderHal.hxx:551-557`) is left out with the TWAI driver.
- The restart at the end of `esp32_bootloader_run`, taken when `reboot_on_exit` holds (its default is `true`, `Esp32BootloaderHal.hxx:482`, `559-564`), is not modelled. `Prepare` covers the run only up to the call of `bootloader_entry`.
- Esp32Bootloader.WriteDecision: the first block is modelled by the three fields read from it, not by its byte layout. The errors of `esp_ota_write` (an abort in `ESP_ERROR_CHECK`) are not modelled.
- `Esp32WS2812.hxx` and `SimpleNodeInfo.hxx` are context files, not part of this model.
- Some helper methods (`DrainStep`, `StartChannelAt`, `SweepOneChannel`, `FinishChannel`, `GoUp`, `Crc3States`) are one stretch of the source loops, moved out of the method that contains it. They have no counterpart function in the source.

## Findings

| source | as written | input that shows it | evidently intended | confidence | as-written member | corrected member |
|---|---|---|---|---|---|---|
| src/nmranet/EventHandlerTemplates.cxx:149-156 | The guard `begin + shift <= end` is computed in 64 bits. Near the top of the event space, the sum wraps to a small number. Once `shift` passes bit 63 it becomes 0 and `begin` becomes 0, so the guard holds for ever. | `EncodeRange(0xFFFF_FFFF_FFFF_FFFC, 1)`: the end 0xFFFF_FFFF_FFFF_FFFE does not overflow, but from shift 4 on `begin + shift` wraps to 0. | The loop stops once the aligned block reaches past the end, computed without wrap-around. Here that is width 2, giving identifier 0xFFFF_FFFF_FFFF_FFFC. | not executed | BitRangeEvents.AsWrittenEncodeRangeLoops | BitRangeEvents.EncodeRangeNearTop |
| src/freertos_drivers/esp32/Esp32BootloaderHal.hxx:345-350 | The rejection log indexes `ESP_CHIP_ID_NAMES` with the image's chip id and the running chip id unchecked. The table has 11 entries. | An image header with chip id `ESP_CHIP_ID_INVALID` (0xFFFF) on an ESP32, or any image with the right magic on a chip of unknown model. | Name ids past the table "INVALID", as the table's own placeholders do. | not executed | Esp32Bootloader.AsWrittenRejectionReadsPastTable | Esp32Bootloader.RejectionNames |
