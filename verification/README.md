# Data over Wi-Fi: verified model

A model in Dafny 4.11 of the parts of the data-over-Wi-Fi system whose behaviour is hard to see
from one function alone: the probe-stuffing client and access point, and the stateful and arithmetic
parts of the hostapd that comes with it. Code that changes state step by step is modelled by methods,
loops and classes, each proved against a specification function; the properties of runs, round trips
and exact conditions are lemmas about those functions.

`dafny verify dfyconfig.toml` checks the project.

## What is modelled

- **Probe stuffing** (`Bytes`, `Elements`, `ProbeStuffing`, `StopAndWait`, `AckSlot`, `Completion`, `ProbeClient`,
  `ProbeResponder`).
  The client cuts a message into payloads of 1394 bytes, wraps each into a header element and data
  elements of up to 252 bytes, and sends it until the access point's acknowledgement comes back in a
  scan. The channel may lose, repeat and reorder frames and may show any acknowledgement that was ever
  issued, including ones left over from an earlier message. A scan is an outcome of that channel. `AckSlot`
  narrows it to what the access point's one slot allows: every decoded frame overwrites the pending
  acknowledgement, the first probe response that carries it empties the slot, and the client sees only
  the latest response it has received.
- **AP table** (`ApTable`, `ApList`). The table as a most-recent-first sequence, and the doubly linked
  list with circular `prev`, hash chains and counter that implement it, pointer by pointer.
- **DFS** (`Dfs`, `DfsMarks`, `DfsEvents`). The two-pass channel search, the block checks, set-up in at most two
  passes, radar marking in place, overlap counting and the radar, CAC and end-of-NOP events.
- **BSSIDs** (`Bits`, `Bssid`, `BssidSetup`, `BssidAlloc`). The bytewise mask, the validation of the
  configured addresses and the allocation of the others, with addresses also read as 48-bit numbers.
- **GAS** (`Gas`, `GasServ`). The ring of dialogs of a station and comeback fragmentation.
- **Synchronised start** (`SyncStart`). The barrier that starts several interfaces together.
- **Kernels**: `Country` (run-length coding of the Country element), `Checksum` (IPv4 header checksum),
  `Acl` (building and searching MAC lists), `Accounting` (32-to-64-bit counters), `Sqn` (AKA sequence
  numbers), `Triplets` (round-robin GSM triplets).

## Results that may surprise

- *Guaranteed delivery* hands the whole message over on every completed run if and only if no
  acknowledgement left over from before carries a sequence number of this message
  (`StopAndWait.GuaranteedDeliveryExactly`). That is over a channel that may show any acknowledgement ever
  issued. Since sequence numbers restart at 0 with every message, over that channel any message whose
  frame 0 was decoded makes the next non-empty one unsafe (`StopAndWait.NextMessageUnsafe`).
- With the slot of the access point modelled and only the latest response repeated, guaranteed delivery of
  a non-empty message fails on some run if and only if the acknowledgement still pending or last shown is
  0; every other leftover is displaced before it can do harm (`AckSlot.SlotDeliveryExactly`). After a
  message of one frame, that is the case as long as anything is pending or shown (`AckSlot.AfterOneFrame`).
- A transmission that gets the scans it may need completes if and only if no four scans in a row fail and,
  in guaranteed mode, no four scans miss the acknowledgement with none showing it in between
  (`Completion.CompletesExactly`).
- A frame can take 1456 bytes (`ProbeStuffing.FrameSize`). The comment in `main.c` budgets 1452: it
  counts four bytes of overhead per element where the code emits five. The model follows the code.
- All automatically chosen BSSIDs lie inside the validated block if and only if there is room for them
  beside the configured ones (`BssidAlloc.InBlockExactly`). There always is when BSS 0 is unconfigured
  or configured with the radio's own address; `BssidAlloc.FirstBssElsewhere` shows a configuration that
  passes validation and leaves the block because the driver kept another address for BSS 0.
- After a timer tick the OLBC flag is exact. The HT flag is right exactly when it was clear, or the tick
  leaves no access point without HT, or it leaves one that triggers the flag
  (`ApTable.HtFlagRightExactly`): it is kept up by non-HT access points on other channels too. Over a
  run it is set exactly when some beacon triggered it and every tick since then found an access point
  without HT (`ApTable.HtFlagHistory`); `ApTable.HtFlagCanLinger` is such a run.
- An enabled interface operates on a block that is not cleared exactly when its block has been struck
  since it was entered (`DfsEvents.RunSound`). A radar report leaves it there if and only if the block
  is struck, now or before, and either the report is not seen to overlap it or no way out is left. For
  a report whose overlap is judged right, on a cleared block and with a working random source, that
  means: no acceptable block is left (`DfsEvents.RadarStaysPutExactly`, `DfsEvents.RadarJudgedExactly`,
  example `DfsEvents.RadarOnLastBlock`). The end of a non-occupancy period strikes the block if and only
  if the report covers one of its radar channels (`DfsEvents.NopBreaksExactly`, example
  `DfsEvents.NopOnLastBlock`).
- Whether a report overlaps the block is decided by channel numbers, while marking goes by frequency. The
  two agree on all blocks if and only if the first reported frequency is on the 5 MHz raster from 5000 up
  to below 5900 MHz, or on it from 4900 MHz up with no reported frequency above 5000 MHz
  (`DfsMarks.JudgedRightExactly`). Elsewhere the number is assigned by another band's numbering (2437 MHz
  gives 6, the number of 5030 MHz), or not assigned at all, and an overlap can be seen where no channel is
  covered (`DfsMarks.OverlapWithoutConcern`); or channels around 5000 MHz are numbered 198 and 202, and a
  struck block goes unseen (`DfsMarks.ConcernUnseen`).
- The block of an enabled interface has no disabled channel if it has a radar channel, on every run
  (`DfsEvents.RunNoneDisabled`). A block without one is never checked for disabled channels
  (`DfsEvents.DisabledWithoutRadar`).
- An error report strands waiting interfaces if and only if it comes from the last interface that had
  not reported (`SyncStart.StrandsExactly`, example `SyncStart.OneOfTwoStranded`);
  `SyncStart.StartedExactly` says which interfaces have started once all have reported.
- The GAS fragment id counts modulo 256 but shares its octet with the "more" bit. A response of n > 0
  bytes fetched under one limit L reads as unfinished at its end exactly when ceil(n/L) - 1 is 128 .. 255
  modulo 256 (`Gas.OneLimitExactly`; `Gas.StationReadsRightExactly` for limits that vary). The control
  interface accepts every limit above 0 (`data_over_wifi/hostapd/hostapd/ctrl_iface.c:1323-1328`), so 129 bytes under limit 1
  are misread (`Gas.LastPieceMisread`).
- The checksum verifies itself on every buffer of any length (`Checksum.SelfVerifies`). Beyond 65537
  words it need not be the ones' complement sum, as 65538 words of all ones show
  (`Checksum.OnesComplementExactly`, `Checksum.OneWordTooMany`); its callers pass only 20-byte headers
  (`data_over_wifi/hostapd/hostapd/ctrl_iface.c:1712`), so this concerns the function, not its present use.

## Assumptions on inputs

- A message is a C string: NUL-free, of at most `INT_MAX` bytes. Client clock seconds fit into 32 bits.
- Element streams are well formed where the C code would read out of range otherwise. The kernel puts
  elements around the stuffed ones that are neither stuffed nor a MIC element.
- The channel table has strictly increasing frequencies at least 20 MHz apart, unique channel numbers
  that follow from the frequency, and DFS states only on radar channels; the configured block lies
  inside the table.
- Beacon and timer events carry a clock that never runs backwards.
- Channel numbers of the Country element are 1 .. 255.
- A driver with 32-bit byte counters reports true totals modulo 2^32.
- The length of IND is 0 .. 30: an `int` is shifted left by it.

## Model

| member | source | states |
|---|---|---|
| `Bytes.AtoiOfPadded` | data_over_wifi/probe_stuffing/main.c:183-187 | `atoi` of a number printed with leading zeros gives the number back, whatever the width |
| `Bytes.PaddedWidth` | data_over_wifi/probe_stuffing/main.c:131-184 | a number below 10^w printed with `%0wd` takes exactly w characters |
| `Elements.ParseOfWire` | data_over_wifi/hostapd/src/common/ieee802_11_common.c:205-221 | walking over encoded elements followed by any bytes gives exactly those elements, and then whatever the walk over the trailing bytes gives |
| `Elements.MicEnds` | data_over_wifi/hostapd/src/common/ieee802_11_common.c:205-404 | a MIC element is the last one read, whatever follows it |
| `Elements.ParsedIsWritten` | data_over_wifi/hostapd/src/common/ieee802_11_common.c:205-404 | the elements read, written out again, are all of the input, or all of it up to the end of a MIC element, which is then the last |
| `Elements.CutShortFails` | data_over_wifi/hostapd/src/common/ieee802_11_common.c:205-404 | behind any elements, one that announces more bytes than are left, or a single byte, makes the walk fail |
| `Elements.ParseStuffed` | data_over_wifi/hostapd/src/common/ieee802_11_common.c:163-273 | the cursor loop returns the bodies of exactly the stuffed vendor elements before any MIC element, in order, and fails exactly when an element runs past the end or a single byte is left over |
| `ProbeStuffing.Chunks` | data_over_wifi/probe_stuffing/utils.c:213-237 | as many chunks as computed by division, none empty or above 252 bytes, that concatenate to the payload |
| `ProbeStuffing.ChunkAt` | data_over_wifi/probe_stuffing/utils.c:218-225 | chunk i is the slice from 252 i to the smaller of 252 (i+1) and the length |
| `ProbeStuffing.VendorBytes` | data_over_wifi/probe_stuffing/utils.c:70-95 | an element for n bytes of data is 221, n + 3, the OUI 1, 2, 3, and the data |
| `ProbeStuffing.StampReadsBack` | data_over_wifi/probe_stuffing/main.c:176-187 | the 18 timestamp digits read as the time in microseconds |
| `ProbeStuffing.HeaderWidth` | data_over_wifi/probe_stuffing/main.c:176-187 | the header text has 27 digits, with the sequence number at offset 0, the timestamp at 8 and the more-fragments bit at 26 |
| `ProbeStuffing.FrameSize` | data_over_wifi/probe_stuffing/main.c:104-220 | a frame with n payload bytes takes exactly 32 + n + 5 ceil(n/252) bytes, at most 1456, and more than 1452 exactly when n is above 1390 |
| `ProbeStuffing.PayloadsConcatenate` | data_over_wifi/probe_stuffing/main.c:136-160 | the first n payloads concatenate to the first 1394 n bytes of the message, and all of them to the message |
| `ProbeStuffing.PayloadSize` | data_over_wifi/probe_stuffing/main.c:136-160 | every payload has 1394 bytes but the last, which has what is left, and is not empty |
| `ProbeStuffing.FrameRoundTrip` | data_over_wifi/hostapd/src/ap/beacon.c:741-802 | parsing a built frame, surrounded by any other elements, gives back sequence number, timestamp, more-fragments bit and payload |
| `ProbeStuffing.HeaderFields` | data_over_wifi/hostapd/src/ap/beacon.c:741-802 | of any header text of at least 27 characters, sequence number, timestamp and bit are read at offsets 0, 8 and 26, and the data is the joined texts of the other elements |
| `ProbeStuffing.AckRoundTrip` | data_over_wifi/probe_stuffing/utils.c:98-177 | the client reads from a probe response the number that the access point put into its acknowledgement element |
| `ProbeStuffing.LastAckWins` | data_over_wifi/probe_stuffing/utils.c:161-173 | of several acknowledgements in one response the last one is read |
| `ProbeClient.CreateVendorIe` | data_over_wifi/probe_stuffing/utils.c:70-95 | the buffer filled byte by byte is the wire form of the vendor element |
| `ProbeClient.ExtractAck` | data_over_wifi/probe_stuffing/utils.c:98-114 | the body of a vendor element is an acknowledgement text exactly when it has at least four bytes and starts with the OUI |
| `ProbeClient.SplitData` | data_over_wifi/probe_stuffing/utils.c:213-228 | the array of copies is the list of chunks |
| `ProbeClient.CreateIes` | data_over_wifi/probe_stuffing/main.c:189-202 | header element and one element per chunk, with their total length |
| `ProbeClient.AppendIes` | data_over_wifi/probe_stuffing/main.c:212-220 | the nested copy loops concatenate the elements into one buffer of exactly the total length |
| `ProbeClient.BuildFrame` | data_over_wifi/probe_stuffing/main.c:166-220 | the steps together produce the specified frame |
| `ProbeClient.GetAck` | data_over_wifi/probe_stuffing/utils.c:161-173 | the element walk reports the last acknowledgement found before an element runs past the end, or the value it started with |
| `ProbeClient.GetAckDump` | data_over_wifi/probe_stuffing/utils.c:116-121 | called once per entry of the scan dump, with the acknowledgement carried along from entry to entry |
| `StopAndWait.LastEntryWins` | data_over_wifi/probe_stuffing/utils.c:116-121 | of a scan dump with several entries the last one with an acknowledgement decides, whatever was read before |
| `StopAndWait.NoEntryKeeps` | data_over_wifi/probe_stuffing/utils.c:116-121 | a scan dump without an acknowledgement leaves the one read last |
| `StopAndWait.LastAckRead` | data_over_wifi/probe_stuffing/main.c:222-333 | the acknowledgement the client goes by is the last one in everything it has read on the run, dumps that ended in an error included |
| `ProbeClient.CutData` | data_over_wifi/probe_stuffing/main.c:137-160 | the copy loop cuts out exactly the payload of the sequence number, and the bit is clear exactly on the last one |
| `ProbeClient.PrepareFrame` | data_over_wifi/probe_stuffing/main.c:137-220 | the first half of the outer loop cuts out the payload its sequence number stands for and keeps the bytes-stuffed counter at min(1394 (seq+1), length) |
| `ProbeClient.AfterScan` | data_over_wifi/probe_stuffing/main.c:236-332 | one turn of the inner loop makes exactly the sender's step for every scan result, in both delivery modes |
| `ProbeClient.SendFrame` | data_over_wifi/probe_stuffing/main.c:222-347 | the inner loop ends, within the scans its retry counters allow, in the world that many steps lead to |
| `ProbeClient.Transmit` | data_over_wifi/probe_stuffing/main.c:136-351 | the whole program part ends for every channel within 16 scans a frame (guaranteed) or 4 (best effort), in the world that many steps of the protocol lead to |
| `ProbeResponder.JoinStuffed` | data_over_wifi/hostapd/src/ap/beacon.c:748-764 | copying and `strcat` give the concatenation of the element texts, each cut at its first NUL |
| `ProbeResponder.CreateAckIe` | data_over_wifi/hostapd/src/ap/beacon.c:811-834 | the buffer filled byte by byte is the wire form of the acknowledgement element |
| `ProbeResponder.HandleProbeReq` | data_over_wifi/hostapd/src/ap/beacon.c:741-837 | decodes exactly what the specification receives and acknowledges exactly the sequence number decoded |
| `ProbeResponder.BssConfig.RxProbeReq` | data_over_wifi/hostapd/src/ap/beacon.c:741-837 | a decoded frame replaces the pending acknowledgement by its own, any other request leaves it |
| `ProbeResponder.BssConfig.GenProbeResp` | data_over_wifi/hostapd/src/ap/beacon.c:541-548 | the response ends in the pending acknowledgement, which is pending no longer |
| `ProbeResponder.ResponseShowsPending` | data_over_wifi/hostapd/src/ap/beacon.c:541-548 | behind any other elements, the client reads from the response exactly the acknowledgement that was pending |
| `StopAndWait.NextFrame` | data_over_wifi/probe_stuffing/main.c:136-160 | at the head of the outer loop the next frame is the sender's own slice, and sending ends exactly when all frames have gone |
| `StopAndWait.StepKeepsInv` | data_over_wifi/probe_stuffing/main.c:222-351 | one transmission, whatever the channel does with it, keeps the protocol invariant |
| `StopAndWait.RunKeepsInv` | data_over_wifi/probe_stuffing/main.c:136-351 | every run keeps the protocol invariant |
| `StopAndWait.Safety` | data_over_wifi/probe_stuffing/main.c:136-351 | at every moment of every run the access point has logged nothing but exact slices, and in guaranteed mode without stale acknowledgements every frame the sender has passed |
| `StopAndWait.CompleteDelivers` | data_over_wifi/probe_stuffing/main.c:297-331 | when a guaranteed run completes, the log deduplicated by sequence number concatenates to the message |
| `StopAndWait.GuaranteedDeliveryExactly` | data_over_wifi/probe_stuffing/main.c:87-97 | guaranteed delivery holds on all runs exactly when no leftover acknowledgement carries a number of this message |
| `StopAndWait.NextMessageExactly` | data_over_wifi/hostapd/src/ap/beacon.c:836-837 | over a channel that may show any acknowledgement ever issued: after any run, the next guaranteed message is delivered on all runs exactly when none of its numbers was left over before that run or decoded in it |
| `StopAndWait.NextMessageUnsafe` | data_over_wifi/probe_stuffing/main.c:87-97 | over that channel: once frame 0 of some message has been decoded, guaranteed delivery fails on some run of every non-empty next message |
| `StopAndWait.StaleAckLosesData` | data_over_wifi/hostapd/src/ap/beacon.c:836-837 | one stale acknowledgement of a number in use gives a run that completes without delivering |
| `StopAndWait.BestEffortMayLose` | data_over_wifi/probe_stuffing/main.c:290-320 | best effort delivers on all runs only for the empty message |
| `StopAndWait.StepSpendsBudget` | data_over_wifi/probe_stuffing/main.c:238-329 | (ACK retries, scan retries) drop lexicographically while a frame is retried |
| `StopAndWait.ScansPerFrame` | data_over_wifi/probe_stuffing/main.c:222-333 | a frame still being retried after k scans began with more than k scans to spend |
| `StopAndWait.TransmissionEnds` | data_over_wifi/probe_stuffing/main.c:136-351 | for every channel the transmission is over after 16 (guaranteed) or 4 (best effort) scans a frame |
| `AckSlot.TurnsKeepInv` | data_over_wifi/hostapd/src/ap/beacon.c:541-548 | every run over the slot keeps: once frame 0 counts as acknowledged, the pending, shown and last read acknowledgements are of decoded frames, and every frame passed was decoded |
| `AckSlot.CarriedOnce` | data_over_wifi/hostapd/src/ap/beacon.c:541-548 | one response carries the pending acknowledgement; received or lost, the next response is without |
| `AckSlot.SlotDeliveryExactly` | data_over_wifi/hostapd/src/ap/beacon.c:836-837 | with one pending acknowledgement and only the latest response shown, guaranteed delivery holds on all runs exactly when the message is empty or the acknowledgement left pending and the one left shown are not 0 |
| `AckSlot.AfterOneFrame` | data_over_wifi/probe_stuffing/main.c:87-97 | after a completed guaranteed message of one frame, every non-empty next one is safe exactly when nothing is pending or shown any more |
| `Completion.GivesUpExactly` | data_over_wifi/probe_stuffing/main.c:238-333 | on every run, scanning is given up exactly after four failed scans in a row, and a frame exactly after four scans in guaranteed mode that miss its acknowledgement with none between that shows it |
| `Completion.CompletesExactly` | data_over_wifi/probe_stuffing/main.c:136-351 | with 16 (guaranteed) or 4 (best effort) scans a frame, a run completes exactly when neither happens |
| `Completion.GuaranteedDelivers` | data_over_wifi/probe_stuffing/main.c:297-331 | a guaranteed run on which neither happens completes with the message handed over, if no leftover acknowledgement is in use |
| `Completion.CanComplete` | data_over_wifi/probe_stuffing/main.c:297-331 | from any leftovers some honest run completes |
| `ApTable.ExpiredMeansOlder` | data_over_wifi/hostapd/src/utils/os.h:99-105 | the second/microsecond comparison is comparison of the age in microseconds |
| `ApTable.HeardCases` | data_over_wifi/hostapd/src/ap/ap_list.c:181-221 | a beacon either replaces its sender's record and moves it to the front, or pushes a new one and evicts the last record of a full table |
| `ApTable.HeardKeeps` | data_over_wifi/hostapd/src/ap/ap_list.c:178-221 | a beacon keeps addresses unique, the order by last beacon and the size limit, and puts its sender in front |
| `ApTable.BeaconRaises` | data_over_wifi/hostapd/src/ap/ap_list.c:27-51 | a beacon raises the OLBC flag exactly on our channel of 802.11g and with its ERP bit 0 set or no OFDM rate among its first 32, and the HT flag exactly without HT capabilities and on our primary, secondary or no known channel; its channel is that of the DS element, else HT operation, else reception, else as before |
| `ApTable.OnlyBRates` | data_over_wifi/hostapd/src/ap/ap_list.c:40-48 | of the rates 802.11b and g know, having no OFDM rate is having only 2, 4, 11 and 22 |
| `ApTable.ExpiryIsExact` | data_over_wifi/hostapd/src/ap/ap_list.c:262-269 | stopping at the first live record from the tail removes exactly the expired records |
| `ApTable.RunKeepsInv` | data_over_wifi/hostapd/src/ap/ap_list.c:169-300 | after every run of beacons and ticks the table is sorted, free of duplicates and within its limit, and every entry that triggers a flag has it set |
| `ApTable.TickIsExact` | data_over_wifi/hostapd/src/ap/ap_list.c:251-300 | after a tick exactly the live records remain, the OLBC flag is set exactly when one of them triggers it, and the HT flag when it was set and one of them lacks HT |
| `ApTable.HtFlagRightExactly` | data_over_wifi/hostapd/src/ap/ap_list.c:271-297 | after a tick the HT flag is set exactly when a listed access point triggers it, if and only if before the tick it was clear, or no live record lacks HT, or a live record triggers it |
| `ApTable.HtFlagRightOnOurChannels` | data_over_wifi/hostapd/src/ap/ap_list.c:271-297 | with every listed access point without HT on one of our channels, or on an unknown one, the HT flag is right after the tick |
| `ApTable.HtFlagHistory` | data_over_wifi/hostapd/src/ap/ap_list.c:232-297 | after every run the HT flag is set exactly when some beacon raised it and every later tick found an access point without HT |
| `ApTable.HtFlagCanLinger` | data_over_wifi/hostapd/src/ap/ap_list.c:271-297 | a run after which the HT flag is set although no listed access point triggers it |
| `ApTable.EvictsLeastRecent` | data_over_wifi/hostapd/src/ap/ap_list.c:145-166 | after every run the bounded table is the most recently heard part of the unbounded one |
| `ApList.FindInChain` | data_over_wifi/hostapd/src/ap/ap_list.c:53-62 | the bucket walk finds the node with the address, or there is none |
| `ApList.ListAdd` | data_over_wifi/hostapd/src/ap/ap_list.c:64-74 | linking a node in front yields the list with it in front, with circular `prev` |
| `ApList.ListDel` | data_over_wifi/hostapd/src/ap/ap_list.c:76-88 | unlinking a node yields the list without it, with circular `prev` |
| `ApList.ChainDel` | data_over_wifi/hostapd/src/ap/ap_list.c:97-117 | the singly linked bucket loses exactly that node |
| `ApList.ApIface.GetAp` | data_over_wifi/hostapd/src/ap/ap_list.c:53-62 | lookup through the hash finds a listed access point by address exactly when it is listed |
| `ApList.ApIface.HashAdd` | data_over_wifi/hostapd/src/ap/ap_list.c:90-95 | every bucket chain stays the chain of the listed access points with its hash |
| `ApList.ApIface.HashDel` | data_over_wifi/hostapd/src/ap/ap_list.c:97-117 | every bucket chain stays the chain of the listed access points with its hash |
| `ApList.ApIface.FreeAp` | data_over_wifi/hostapd/src/ap/ap_list.c:119-127 | list, index, records and counter all lose exactly that access point |
| `ApList.ApIface.AddAp` | data_over_wifi/hostapd/src/ap/ap_list.c:145-166 | list, index, records and counter gain a zeroed record in front and lose the tail when the limit is exceeded |
| `ApList.ApIface.MoveFront` | data_over_wifi/hostapd/src/ap/ap_list.c:215-221 | moving a node to the front reorders list and records alike and leaves the index correct |
| `ApList.ApIface.ProcessBeacon` | data_over_wifi/hostapd/src/ap/ap_list.c:169-248 | the pointer structure stays consistent and refines the beacon step of the value table, flags included |
| `ApList.ApIface.FreeExpired` | data_over_wifi/hostapd/src/ap/ap_list.c:262-269 | the loop over tails refines dropping expired records and ends |
| `ApList.ApIface.Timer` | data_over_wifi/hostapd/src/ap/ap_list.c:251-300 | the pointer structure stays consistent and refines the tick step of the value table, flags included |
| `Dfs.RangeIsBlock` | data_over_wifi/hostapd/src/ap/dfs.c:125-163 | the search by frequency accepts a range exactly when the channels are adjacent in the table and each is usable |
| `Dfs.CandidatesExact` | data_over_wifi/hostapd/src/ap/dfs.c:182-219 | the candidates are exactly the acceptable channels, each once and in table order |
| `Dfs.AllowedExactly` | data_over_wifi/hostapd/src/ap/dfs.c:73-120 | the lists of allowed first channels hold exactly the aligned blocks of channels 36-64, 100-144, 149-161 and, for 40 MHz, 184-196, except 140 and 144 at 40 MHz |
| `Dfs.AcceptableExactly` | data_over_wifi/hostapd/src/ap/dfs.c:73-219 | a channel is acceptable exactly when it starts a block of adjacent entries none of which is disabled or UNAVAILABLE, with AVAILABLE radar channels only if those are asked for, that is aligned for its width and passes the configured channel list |
| `Dfs.GetChanData` | data_over_wifi/hostapd/src/ap/dfs.c:125-137 | the loop returns the first entry at or after an index with the frequency, or there is none |
| `Dfs.FindChannel` | data_over_wifi/hostapd/src/ap/dfs.c:182-219 | the counting pass returns the number of candidates, and the picking pass with an index below it returns that candidate |
| `Dfs.RangeAvailableLoop` | data_over_wifi/hostapd/src/ap/dfs.c:139-163 | the loop over frequencies decides availability of the range |
| `Dfs.RetuneLandsOnBlock` | data_over_wifi/hostapd/src/ap/dfs.c:222-349 | after retuning to a candidate, the index-based checks look at exactly the block the search chose |
| `Dfs.RetuneCentres` | data_over_wifi/hostapd/src/ap/dfs.c:222-258 | retuning makes the lowest channel of the block the primary one, the next one the secondary, and for VHT the centre of the block the centre channel |
| `Dfs.AcceptableInBand` | data_over_wifi/hostapd/src/ap/dfs.c:139-219 | the band moved to, around the new centre, holds no disabled or unavailable channel, and only AVAILABLE radar channels if those were asked for |
| `Dfs.GetStartChanIdx` | data_over_wifi/hostapd/src/ap/dfs.c:264-349 | the width cases and the search loop return the start index of the block, or none if its channel number is not in the table |
| `Dfs.BlockIsBand` | data_over_wifi/hostapd/src/ap/dfs.c:22-52 | the block the index-based checks look at is the operating band of the configuration: 80 or 160 MHz around the centre channel, else 40 MHz with the secondary channel, else the 20 MHz of the primary one |
| `Dfs.CheckChansRadar` | data_over_wifi/hostapd/src/ap/dfs.c:351-369 | counts the radar channels of the block: non-zero exactly when there is one |
| `Dfs.CheckChansAvailable` | data_over_wifi/hostapd/src/ap/dfs.c:371-397 | true exactly when every radar channel of the block is AVAILABLE and none is disabled |
| `Dfs.CheckChansUnavailable` | data_over_wifi/hostapd/src/ap/dfs.c:399-421 | non-zero exactly when the block holds a disabled or unavailable channel |
| `Dfs.GetCacTime` | data_over_wifi/hostapd/src/ap/dfs.c:618-643 | the CAC time is the largest of the block's channels |
| `Dfs.GetValidChannel` | data_over_wifi/hostapd/src/ap/dfs.c:423-470 | a channel is returned exactly when one is acceptable and the random source works, and it is acceptable |
| `Dfs.EveryCandidateReachable` | data_over_wifi/hostapd/src/ap/dfs.c:447-455 | every candidate is the pick for some random value |
| `Dfs.SetupIsSafe` | data_over_wifi/hostapd/src/ap/dfs.c:646-747 | starting at once implies every radar channel of the block is AVAILABLE, and no channel disabled if there is one; starting a CAC implies none is disabled or unavailable, and giving up with a working random source implies no acceptable block |
| `Dfs.SetupInBand` | data_over_wifi/hostapd/src/ap/dfs.c:646-747 | in MHz: starting at once implies every radar channel of the operating band is AVAILABLE, and with one there none disabled; starting a CAC implies none is disabled or unavailable |
| `Dfs.DecisionByBand` | data_over_wifi/hostapd/src/ap/dfs.c:646-747 | on a block without gaps the decision for it is exactly that of the band: proceed if cleared, CAC if usable, else another block |
| `Dfs.HandleDfs` | data_over_wifi/hostapd/src/ap/dfs.c:646-747 | the reselection loop ends within two passes with the specified decision and configuration |
| `DfsMarks.SetDfsStateFreq` | data_over_wifi/hostapd/src/ap/dfs.c:472-496 | sets the state of exactly the radar channels with that frequency, in place |
| `DfsMarks.SetDfsState` | data_over_wifi/hostapd/src/ap/dfs.c:498-551 | sets the state of exactly the radar channels the report covers and changes nothing else |
| `DfsMarks.MarkedBand` | data_over_wifi/hostapd/src/ap/dfs.c:498-551 | exactly the radar channels on the 20 MHz raster inside the reported band, 40, 80 or 160 MHz around cf1 or the single reported channel, change state |
| `DfsMarks.AreChannelsOverlapped` | data_over_wifi/hostapd/src/ap/dfs.c:553-616 | the count of matching channel numbers is non-zero exactly when a radar channel of the operating block has one of the reported numbers, whatever an unassigned number holds |
| `DfsMarks.NumbersMatchFrequencies` | data_over_wifi/hostapd/src/common/ieee802_11_common.c:729-735 | in the 5 GHz band channel numbers match exactly when frequencies do |
| `DfsMarks.FreqToChanExactly` | data_over_wifi/hostapd/src/common/ieee802_11_common.c:596-751 | a frequency is assigned a channel number exactly as numbered in the bands at 2.4, 4.9, 5 and 60 GHz |
| `DfsMarks.JudgedRightExactly` | data_over_wifi/hostapd/src/ap/dfs.c:553-616 | overlap by channel number coincides with coverage by frequency, on every block of every table and whatever an unassigned number holds, exactly when the report starts on the raster of the 5 GHz band, or of the 4.9 GHz band without reaching above 5000 MHz |
| `DfsMarks.OverlapWithoutConcern` | data_over_wifi/hostapd/src/ap/dfs.c:553-616 | a report off the raster that is seen to overlap a block of which it covers no channel |
| `DfsMarks.ConcernUnseen` | data_over_wifi/hostapd/src/ap/dfs.c:553-616 | a report around 5000 MHz that covers a radar channel of a block and is not seen to overlap it |
| `DfsEvents.StepSound` | data_over_wifi/hostapd/src/ap/dfs.c:750-993 | every radar, CAC or end-of-NOP event keeps it so that an enabled interface operates on a cleared block exactly when that block has not been struck, and says exactly which events strike and which escape |
| `DfsEvents.RunSound` | data_over_wifi/hostapd/src/ap/dfs.c:750-993 | after every run of events the radar channels of the block of an enabled interface are all AVAILABLE, except exactly when it was struck and not left since |
| `DfsEvents.RunNoneDisabled` | data_over_wifi/hostapd/src/ap/dfs.c:646-993 | after every run of events, if the block of an enabled interface has a radar channel, none of its channels is disabled |
| `DfsEvents.RunInBand` | data_over_wifi/hostapd/src/ap/dfs.c:646-993 | after every run, an interface enabled on a block that was not struck has only AVAILABLE radar channels in its operating band, and with one there no disabled channel |
| `DfsEvents.DisabledWithoutRadar` | data_over_wifi/hostapd/src/ap/dfs.c:679-684 | set-up on a disabled channel that is the whole block and no radar channel: the interface is enabled on it |
| `DfsEvents.RadarStaysPutExactly` | data_over_wifi/hostapd/src/ap/dfs.c:820-968 | after any radar report an enabled interface operates on a block that is not cleared exactly when the block is struck, now or before, and an overlap is not seen or no other block can be drawn |
| `DfsEvents.RadarJudgedExactly` | data_over_wifi/hostapd/src/ap/dfs.c:820-968 | for a report whose overlap is judged right, from a cleared block and with a working random source: exactly when the report covers the block and no acceptable block is left |
| `DfsEvents.RadarOnLastBlock` | data_over_wifi/hostapd/src/ap/dfs.c:848-865 | an enabled interface on the only block of its table stays enabled on it after a radar report |
| `DfsEvents.SwitchLands` | data_over_wifi/hostapd/src/ap/dfs.c:779-935 | a switch with a way out lands on an acceptable block: at once on a cleared one if no CAC runs and there is one, else enabled or waiting as the block is cleared or not |
| `DfsEvents.CacRuns` | data_over_wifi/hostapd/src/ap/dfs.c:750-777 | the start of a CAC is noted and changes nothing else |
| `DfsEvents.CacClears` | data_over_wifi/hostapd/src/ap/dfs.c:750-777 | exactly the reported radar channels become AVAILABLE when a CAC succeeds |
| `DfsEvents.RadarTakes` | data_over_wifi/hostapd/src/ap/dfs.c:938-968 | exactly the reported radar channels become UNAVAILABLE, whatever becomes of the interface |
| `DfsEvents.CacEnables` | data_over_wifi/hostapd/src/ap/dfs.c:750-777 | a successful CAC that covers the radar channels of a block without disabled channels enables the interface on that block, cleared |
| `DfsEvents.CacFails` | data_over_wifi/hostapd/src/ap/dfs.c:750-777 | a failed CAC changes nothing |
| `DfsEvents.NopFrees` | data_over_wifi/hostapd/src/ap/dfs.c:971-993 | exactly the reported radar channels become USABLE when their non-occupancy period ends |
| `DfsEvents.NopReconfigures` | data_over_wifi/hostapd/src/ap/dfs.c:971-993 | a waiting interface without a running CAC is then configured for a block without disabled or unavailable channels, if an acceptable one exists; otherwise its configuration stays |
| `DfsEvents.NopBreaksExactly` | data_over_wifi/hostapd/src/ap/dfs.c:971-993 | the end of a non-occupancy period leaves an enabled interface on its block, which stays cleared exactly when the report covers none of its radar channels |
| `DfsEvents.NopOnLastBlock` | data_over_wifi/hostapd/src/ap/dfs.c:971-993 | an interface enabled on a cleared block is enabled on one that is not cleared after the end of a non-occupancy period is reported for it |
| `DfsEvents.RetryProceedsExactly` | data_over_wifi/hostapd/src/ap/dfs.c:646-747 | a retry of set-up says proceed exactly when the own block is cleared, or it is unusable and the block drawn instead needs no CAC |
| `DfsEvents.NopRetryNeverProceeds` | data_over_wifi/hostapd/src/ap/dfs.c:971-993 | once set-up has given up for want of a block, whatever events follow until a CAC succeeds, a retry when a non-occupancy period ends gives up again or asks for a CAC, so that its ignored result loses nothing |
| `DfsEvents.DfsIface.StartChannelSwitch` | data_over_wifi/hostapd/src/ap/dfs.c:820-935 | refines the switch step: an immediate switch only to cleared channels, else a CAC on a usable block, else none |
| `DfsEvents.DfsIface.TakeReport` | data_over_wifi/hostapd/src/ap/dfs.c:498-551 | marks the reported channels of the array in place and takes note when that strikes the operating block |
| `DfsEvents.DfsIface.RadarDetected` | data_over_wifi/hostapd/src/ap/dfs.c:938-968 | refines the radar step on the channel array and configuration in place |
| `DfsEvents.DfsIface.NopDone` | data_over_wifi/hostapd/src/ap/dfs.c:971-993 | refines the end-of-NOP step on the channel array and configuration in place |
| `DfsEvents.DfsIface.CompleteCac` | data_over_wifi/hostapd/src/ap/dfs.c:750-777 | refines the CAC step on the channel array and configuration in place |
| `Bssid.MaskValue` | data_over_wifi/hostapd/src/ap/hostapd.c:570-576 | the bytewise mask is 2^48 - 2^bits as a number |
| `Bssid.MaskedBytes` | data_over_wifi/hostapd/src/ap/hostapd.c:585-595 | own AND mask equals own in every byte exactly when the low bits are zero byte by byte |
| `Bssid.AlignedBytesValue` | data_over_wifi/hostapd/src/ap/hostapd.c:585-595 | byte-wise zero low bits are alignment of the 48-bit value to 2^bits |
| `Bssid.InBlock` | data_over_wifi/hostapd/src/ap/hostapd.c:539-543 | an address whose differences from ours fit under the mask lies in our block |
| `Bssid.FromBlock` | data_over_wifi/hostapd/src/ap/hostapd.c:539-543 | an address in our block differs from ours only under the mask |
| `Bssid.AllocIsMthFree` | data_over_wifi/hostapd/src/ap/hostapd.c:935-937 | the m-th address handed out is the m-th free one |
| `Bssid.AllocStaysInBlock` | data_over_wifi/hostapd/src/ap/hostapd.c:935-937 | m addresses fit into a block exactly when m and the configured ones in it leave the base to spare |
| `Bits.IncCounts` | data_over_wifi/hostapd/src/utils/common.c:221-230 | the byte-array increment counts up by one and wraps to zero only from the largest value |
| `BssidSetup.BuildMask` | data_over_wifi/hostapd/src/ap/hostapd.c:570-576 | clearing and shifting loops build exactly the mask of that many bits |
| `BssidSetup.CollectSpread` | data_over_wifi/hostapd/src/ap/hostapd.c:532-544 | counts the BSSes to be given an address and ORs together the differences of all configured ones |
| `BssidSetup.AddressBits` | data_over_wifi/hostapd/src/ap/hostapd.c:549-559 | shifting the mask away yields the number of bits the configured addresses need |
| `BssidSetup.FitsBytewise` | data_over_wifi/hostapd/src/ap/hostapd.c:527-595 | the bytewise computation of bits decides whether all addresses fit into one aligned block of that size |
| `BssidSetup.Validate` | data_over_wifi/hostapd/src/ap/hostapd.c:511-598 | accepts exactly when no address is to be chosen or some aligned block of at most 2^40 addresses starting at ours holds all BSSes, and finds the smallest such block |
| `BssidAlloc.IncByteArray` | data_over_wifi/hostapd/src/utils/common.c:221-230 | the carry loop is the byte-array increment |
| `BssidAlloc.MacInConf` | data_over_wifi/hostapd/src/ap/hostapd.c:601-612 | finds an address exactly when it is among the configured ones |
| `BssidAlloc.NextBssid` | data_over_wifi/hostapd/src/ap/hostapd.c:935-937 | the do-while loop ends at the first address after the last one, around the end of the space, that is not configured |
| `BssidAlloc.SetupBss` | data_over_wifi/hostapd/src/ap/hostapd.c:916-938 | a configured address is taken over and refused when it is the radio's; otherwise the next free one is chosen |
| `BssidAlloc.SetupBsses` | data_over_wifi/hostapd/src/ap/hostapd.c:1758-1774 | the loop with its pointer to the last chosen address gives every BSS its specified address, and fails exactly when one is configured with the radio's own |
| `BssidAlloc.ChosenAddress` | data_over_wifi/hostapd/src/ap/hostapd.c:935-937 | where each chosen address lies: inside the block at its rank, or one address behind a full block; never a configured one and never the radio's |
| `BssidAlloc.AddressesDistinct` | data_over_wifi/hostapd/src/ap/hostapd.c:1758-1774 | after accepted validation all BSSes have pairwise distinct addresses |
| `BssidAlloc.InBlockExactly` | data_over_wifi/hostapd/src/ap/hostapd.c:1758-1774 | all addresses are inside the block under the mask exactly when there is room |
| `BssidAlloc.RoomUnlessFirstMoved` | data_over_wifi/hostapd/src/ap/hostapd.c:916-938 | there is room whenever BSS 0 is unconfigured or configured with the radio's address |
| `BssidAlloc.FirstBssElsewhere` | data_over_wifi/hostapd/src/ap/hostapd.c:916-938 | a configuration that validates and still leaves the block |
| `BssidAlloc.SetupInterface` | data_over_wifi/hostapd/src/ap/ap_config.c:789-803 | with no duplicate configured BSSIDs, validation and set-up together give pairwise distinct addresses, the chosen ones unconfigured, inside the block exactly when there is room |
| `Gas.FreeSlotIsFirst` | data_over_wifi/hostapd/src/ap/gas_serv.c:67-77 | the search returns the first unused slot cyclically from the cursor |
| `Gas.CreateFailsExactly` | data_over_wifi/hostapd/src/ap/gas_serv.c:67-83 | creating a dialog fails exactly when all eight slots are in use |
| `Gas.QueryAnswered` | data_over_wifi/hostapd/src/ap/gas_serv.c:1192-1224 | a response that fits and is not to be delayed goes out whole at once and leaves the server as it was; any other is refused exactly when all eight slots of the station are in use, and parked otherwise |
| `Gas.RequestUnanswered` | data_over_wifi/hostapd/src/ap/gas_serv.c:1376-1393 | a request no live dialog of its station answers leaves the server as it was; it is told that nothing is outstanding, and a group address nothing |
| `Gas.Park` | data_over_wifi/hostapd/src/ap/gas_serv.c:29-84 | a slot that was free becomes live and no other slot changes |
| `Gas.ParkStores` | data_over_wifi/hostapd/src/ap/gas_serv.c:60-83 | the slot holds the token and the whole response, and the next search starts behind it; a refused query changes nothing |
| `Gas.FindFrom` | data_over_wifi/hostapd/src/ap/gas_serv.c:100-107 | finds the first live slot with the token, or there is none |
| `Gas.Serve` | data_over_wifi/hostapd/src/ap/gas_serv.c:1395-1435 | serving a fragment changes only its own slot, which stays live exactly while there is more |
| `Gas.ServeFreesIdle` | data_over_wifi/hostapd/src/ap/gas_serv.c:119-137 | the ring is given up exactly when the last live dialog has been served to its end; the search position stays |
| `Gas.SlotsDoNotInterfere` | data_over_wifi/hostapd/src/ap/gas_serv.c:1361-1445 | however queries and requests of all stations and dialogs interleave, what comes out of a slot is what its dialog would give on its own, under any changing limits |
| `Gas.AloneNumbers` | data_over_wifi/hostapd/src/ap/gas_serv.c:1395-1424 | fragments count up modulo 256, all but the last say more and are full, none exceeds its limit |
| `Gas.AloneDelivers` | data_over_wifi/hostapd/src/ap/gas_serv.c:1395-1424 | the fragments form a prefix of the response, and the last one says no more exactly when it is complete |
| `Gas.ResponseDelivered` | data_over_wifi/hostapd/src/ap/gas_serv.c:1192-1219 | from the query on: the slot was free, ids start at 0, the fragments are a prefix of the response and equal it exactly when the last says no more |
| `Gas.MoreReadRightExactly` | data_over_wifi/hostapd/src/common/gas.c:61-62 | the shared octet of id and more bit is read right throughout exactly when the response does not end, under the limits its pieces were served with, in fragment 128 .. 255 modulo 256, on any run of the server |
| `Gas.StationReadsRightExactly` | data_over_wifi/hostapd/src/ap/gas_serv.c:1395-1424 | the same as a condition on inputs alone: the response length and the limits of the requests of a station that does not reuse its token |
| `Gas.OneLimitExactly` | data_over_wifi/hostapd/src/common/gas.c:61-62 | under one limit L, with n pieces for the response, ceil of its length by L or one if it is empty: read right exactly unless n requests were made and n - 1 is 128 .. 255 modulo 256 |
| `Gas.LastPieceMisread` | data_over_wifi/hostapd/hostapd/ctrl_iface.c:1323-1328 | 129 bytes fetched byte by byte end in a fragment that reads as unfinished |
| `Gas.TokenAnswers` | data_over_wifi/hostapd/src/ap/gas_serv.c:88-110 | a station that does not reuse a token gets exactly its dialog's fragments, then only the answer that nothing is outstanding |
| `GasServ.StaEntry.DialogCreate` | data_over_wifi/hostapd/src/ap/gas_serv.c:60-83 | the cyclic search loop over the array of slots refines the free-slot search and moves the cursor behind it |
| `GasServ.StaEntry.DialogFind` | data_over_wifi/hostapd/src/ap/gas_serv.c:100-107 | the loop over the array refines the lookup by token |
| `GasServ.StaEntry.FreeDialogs` | data_over_wifi/hostapd/src/ap/gas_serv.c:119-137 | the ring is freed exactly when no slot is valid |
| `GasServ.StaEntry.RxQuery` | data_over_wifi/hostapd/src/ap/gas_serv.c:1192-1219 | refines the query step on the array of slots in place |
| `GasServ.StaEntry.SendFragment` | data_over_wifi/hostapd/src/ap/gas_serv.c:1395-1435 | refines serving a fragment on the array of slots in place |
| `GasServ.StaEntry.RxComebackReq` | data_over_wifi/hostapd/src/ap/gas_serv.c:1361-1435 | refines the comeback step on the array of slots in place |
| `SyncStart.StartsTogether` | data_over_wifi/hostapd/src/ap/hostapd.c:1924-1937 | outside the CAC bypass an interface starts only when no other flagged one was still to report, and then all flagged ones start |
| `SyncStart.StrandsExactly` | data_over_wifi/hostapd/src/ap/hostapd.c:1878-1919 | a report leaves interfaces waiting with nobody to start them exactly when it is an error of the last one due |
| `SyncStart.OneOfTwoStranded` | data_over_wifi/hostapd/src/ap/hostapd.c:1868-1940 | of two flagged interfaces the first reports, the second fails, and the first never starts |
| `SyncStart.StrandedForGood` | data_over_wifi/hostapd/src/ap/hostapd.c:1888-1937 | once nobody is left to report, no later report starts anybody through the barrier |
| `SyncStart.RunKeepsInv` | data_over_wifi/hostapd/src/ap/hostapd.c:1868-1940 | every error-free run keeps: nobody stranded, and each flagged interface started once or not yet |
| `SyncStart.EveryoneStartsOnce` | data_over_wifi/hostapd/src/ap/hostapd.c:1868-1940 | on error-free runs nobody starts twice, and once all flagged interfaces have reported each has started exactly once |
| `SyncStart.StartedExactly` | data_over_wifi/hostapd/src/ap/hostapd.c:1868-1940 | once all flagged interfaces have reported, errors included, it says of each whether it has started, by its own reports and that of the last one due; nobody starts twice |
| `SyncStart.CountNotReady` | data_over_wifi/hostapd/src/ap/hostapd.c:1893-1897 | counts the flagged interfaces that have not reported |
| `SyncStart.StartWaiting` | data_over_wifi/hostapd/src/ap/hostapd.c:1929-1937 | starts exactly the waiting interfaces |
| `SyncStart.SetupInterfaceComplete` | data_over_wifi/hostapd/src/ap/hostapd.c:1868-1940 | refines the barrier step on the interface flags in place |
| `Country.GroupsCover` | data_over_wifi/hostapd/src/ap/beacon.c:241-265 | the runs together are exactly the ordered list of enabled channels with their powers |
| `Country.RunsMaximal` | data_over_wifi/hostapd/src/ap/beacon.c:249-256 | two neighbouring runs could never have been one |
| `Country.OneRunExactly` | data_over_wifi/hostapd/src/ap/beacon.c:249-265 | the enabled channels make one run, from the first to the last, exactly when they are evenly spaced and of one power |
| `Country.EmittedTriplets` | data_over_wifi/hostapd/src/ap/beacon.c:210-226 | when the buffer is short, exactly the leading triplets that fit are written |
| `Country.WireExpands` | data_over_wifi/hostapd/src/ap/beacon.c:217-225 | expanding the written triplets with the band's spacing gives their channels back, with or without padding |
| `Country.CountryLossless` | data_over_wifi/hostapd/src/ap/beacon.c:229-287 | the element has even length and announces it, decodes to a prefix of the enabled channels, and to all of them exactly when all runs fit; it is missing only for buffers below six bytes and when there is no room for the padding |
| `Country.EidCountryAdd` | data_over_wifi/hostapd/src/ap/beacon.c:210-226 | appends one triplet if three bytes are left, else nothing |
| `Country.AddChannels` | data_over_wifi/hostapd/src/ap/beacon.c:245-270 | the loop with its open run writes the triplets of the runs |
| `Country.EidCountry` | data_over_wifi/hostapd/src/ap/beacon.c:229-287 | writes exactly the specified element into the buffer |
| `Checksum.FoldKeepsSum` | data_over_wifi/hostapd/hostapd/ctrl_iface.c:1584-1585 | folding keeps the sum modulo 65535, ends at 16 bits, and tells zero from 65535 |
| `Checksum.SelfVerifies` | data_over_wifi/hostapd/hostapd/ctrl_iface.c:1575-1588 | storing the result in a zeroed word makes a second computation return 0, for every buffer of any length |
| `Checksum.OnesComplementExactly` | data_over_wifi/hostapd/hostapd/ctrl_iface.c:1575-1588 | the result is the complement of the ones' complement sum of RFC 1071 exactly when the 32-bit counter did no harm by wrapping |
| `Checksum.OnesComplementWithinBound` | data_over_wifi/hostapd/hostapd/ctrl_iface.c:1581-1582 | up to 65537 words it always is |
| `Checksum.OneWordTooMany` | data_over_wifi/hostapd/hostapd/ctrl_iface.c:1575-1588 | 65538 words of all ones have a result that is not the complement of their sum |
| `Checksum.Ipv4HdrChecksum` | data_over_wifi/hostapd/hostapd/ctrl_iface.c:1575-1588 | the two loops compute the specified checksum |
| `Acl.AfterLinesExactly` | data_over_wifi/hostapd/hostapd/config_file.c:141-204 | after the lines the list holds exactly the entries that were there or added and whose address is not removed later |
| `Acl.MacList.RemoveAll` | data_over_wifi/hostapd/hostapd/config_file.c:171-182 | the in-place loop removes exactly the entries with the address |
| `Acl.MacList.Read` | data_over_wifi/hostapd/hostapd/config_file.c:122-214 | fails exactly on an invalid line; otherwise leaves the specified entries, sorted |
| `Acl.MaclistFound` | data_over_wifi/hostapd/src/ap/ap_config.c:627-650 | on a sorted list the bisection finds an address exactly when it is listed, and reports a VLAN of one of its entries |
| `Acl.ReadAndFind` | data_over_wifi/hostapd/src/ap/ap_config.c:627-650 | an address is found exactly when it was added, or there from the start, and not later removed |
| `Accounting.PollAdds` | data_over_wifi/hostapd/src/ap/accounting.c:173-183 | a poll adds the bytes passed since the last one, modulo 2^32, and follows the driver's counter |
| `Accounting.ExtensionExactly` | data_over_wifi/hostapd/src/ap/accounting.c:167-183 | the extended counter is the true total after every poll of a session exactly when fewer than 2^32 bytes pass between polls |
| `Accounting.Split` | data_over_wifi/hostapd/src/ap/accounting.c:309-320 | octets and gigawords recombine to the 64-bit counter |
| `Accounting.StaInfo.Start` | data_over_wifi/hostapd/src/ap/accounting.c:236-241 | both counters of a session start at zero |
| `Accounting.StaInfo.UpdateStats` | data_over_wifi/hostapd/src/ap/accounting.c:167-183 | updates both counters as one poll each, unless the driver failed or has 64-bit counters |
| `Accounting.StaInfo.Report` | data_over_wifi/hostapd/src/ap/accounting.c:302-339 | the reported octets and gigawords are the true totals exactly when the driver has 64-bit counters or was polled in time |
| `Sqn.SqnAdvances` | data_over_wifi/hostapd/hostapd/hlr_auc_gw.c:724-728 | after n increments SEQ and IND have each advanced by n in their own modulus |
| `Sqn.SqnRisesExactly` | data_over_wifi/hostapd/hostapd/hlr_auc_gw.c:724-728 | SQN rises with an increment exactly unless SEQ wraps |
| `Sqn.SqnRises` | data_over_wifi/hostapd/hostapd/hlr_auc_gw.c:724-728 | of two increments the later gives the larger SQN as long as SEQ has not wrapped |
| `Sqn.LowBits` | data_over_wifi/hostapd/hostapd/hlr_auc_gw.c:727-727 | masking keeps the value modulo 2^k |
| `Sqn.Join` | data_over_wifi/hostapd/hostapd/hlr_auc_gw.c:728-728 | shift and OR put SEQ in front of IND |
| `Sqn.AdvanceParts` | data_over_wifi/hostapd/hostapd/hlr_auc_gw.c:726-728 | the word that is stored is, modulo 2^48, the next SQN |
| `Sqn.IncSqn` | data_over_wifi/hostapd/hostapd/hlr_auc_gw.c:712-731 | the six bytes are advanced in place to the next SQN |
| `Triplets.TripletDb.GetGsmTriplet` | data_over_wifi/hostapd/hostapd/hlr_auc_gw.c:362-384 | the two loops serve the next triplet cyclically and leave the cursor behind it |
| `Triplets.LookupServesTurn` | data_over_wifi/hostapd/hostapd/hlr_auc_gw.c:362-384 | a lookup fails exactly when the subscriber has no triplet, and otherwise serves the one whose turn it is |
| `Triplets.RoundRobin` | data_over_wifi/hostapd/hostapd/hlr_auc_gw.c:362-384 | from any cursor k lookups of a subscriber with k triplets return each once in cyclic list order, and the next ones start over |
| `Triplets.OwnExactly` | data_over_wifi/hostapd/hostapd/hlr_auc_gw.c:367-372 | the subscriber's triplets are exactly the list positions with that IMSI, each once and in order |

## Left out

- Netlink, sockets, sleeps, logging, clocks, random sources and the CSV hand-off to the controller: a scan is an outcome of the channel, times and random words are parameters.
- ProbeClient.GetAck: stops at an element that announces more bytes than are left, where the client's walk would read out of range; element streams of that kind are not modelled elsewhere either.
- The stuffed-element array of the access point holds ten elements; a frame of this client needs at most seven, so longer arrays are not bounded in the model.
- AckSlot.SlotDeliveryExactly: frames of an earlier message that arrive late are not modelled, and the scan dump keeps no response but the latest of this access point.
- Several clients or messages at once share the one pending acknowledgement; acknowledgements left over from them are a parameter of the model.
- Memory allocation failure and freeing, apart from the GAS ring and the AP table nodes.
- `atoi` on text that is not digits, and on numbers above `INT_MAX`.
- ApList.ApInfo: the payload fields of an entry are grouped into one field, and the 256 bucket heads are a sequence; the list, chain and counter updates are done pointer by pointer in place.
- Dfs: 80+80 MHz (only the first segment would be checked), the 2.4 GHz and 60 GHz bands, DFS offload to the driver.
- DfsMarks.AreChannelsOverlapped: the channel number that the code leaves unassigned outside the 5 GHz band is a parameter `unset`.
- DfsEvents.DfsIface.StartChannelSwitch: an immediate switch takes effect at once; the CSA countdown, its failure and a countdown already in progress are not modelled.
- Dfs.SetupIsSafe: says nothing about giving up when the random source fails.
- BssidSetup.Validate: the driver options that skip validation altogether, or leave the choice of addresses to the driver.
- BssidAlloc.SetupBsses: everything else that setting up a BSS does, and the tear-down after a failure.
- Gas: building and protecting the frames, P2P service discovery, and timeouts of station entries other than as the event that forgets the station.
- GasServ.StaEntry.RxComebackReq: the table of station entries is a map in the specification; the methods act on one entry.
- SyncStart.SetupInterfaceComplete: starting an interface is recorded by a counter; what starting does, and starts outside the barrier, are not modelled.
- Country.CountryLossless: the length byte is the length modulo 256; elements longer than 257 bytes, more than 83 runs, would need a caller with that much room.
- Checksum: reading the 16-bit words from memory, including an odd last byte, which the code ignores.
- Acl.MacList.Read: the text of a line is given as what it parses to; `qsort` is stood in for by an insertion sort, of which only sortedness and content are used.
- Sqn.IncSqn: IND lengths of 31 and 32, for which the code shifts an `int` beyond its width.
- Triplets.TripletDb: the linked list, which does not change after loading, is a sequence and the cursor an index into it; `NULL` is the index behind the last element.
- Automatic channel selection (floating point without an exact meaning), configuration parsing other than MAC lists, the control interface, RADIUS, EAP and WPA.
