# DroneBridge: a verified model of the video link and the byte protocols

DroneBridge carries a video stream and control data between a drone ("UAV", "air") and
a ground station over raw WiFi frames that may be lost. This project models the parts of it
that have to be right bit for bit and state by state:

* **The erasure code** (`video/fec.c`, `video/gf256.cpp`): a systematic Cauchy code over
  GF(2^8). `Field`, `Bytes`, `Powers` give the field, its generator and its logarithms;
  `Tables` and `Context` the two independently built sets of tables; `Lanes` and `Kernels`
  the bulk routines that work on SIMD lanes and machine words; `LinAlg`, `Exchange`,
  `Invert`, `Elimination` the in-place matrix inversion; `Cauchy`, `Code` the algebra of the
  code; `Codec`, `Decoder` the encoder and decoder on buffers.
* **The block protocol** (`video/video_main_air.c`, `video/video_main_gnd.c`): `Slots` and
  `Sender` on the air side, `Selection`, `Receiver`, `ReceiverLaws` on the ground, `SenderLaws`
  and `Link` for what the two promise together. `Restarts` says what one packet does, `Counters`
  what a flush counts, `Publishing` which bytes it publishes, `Priorities` what is repaired when
  parity is short, `Grouping` which reads share a packet, `Corruption` and `Shortcut` what corrupt
  packets can do. `AirUnit` and `GroundUnit` are the same two
  programs on mutable state, each method proved against the step function of `Sender` and
  `Receiver`.
* **The byte protocols**: the MSP parser (`Crc`, `Msp`, and `MspReference`, which knows only bytes), the USB message splitting (`Usb`),
  the RC channel message (`Rc`) and the raw frame (`Raw`).

`Words`, `Memory` and `Arithmetic` hold what they share: little-endian fields, writing into a
buffer, quotients.

## How the pieces fit

Multiplication (`Gf256.Mul`) is defined by doubling and adding, and is proved to be a field.
Everything table driven - logarithms modulo 255, 64 KiB product tables, split-nibble tables,
CRC tables - is proved equal to such an independent definition.

The inversion is proved with one invariant, `Exchange.Tracks`: the array always holds the matrix
of the map in which the inputs of the columns done so far have been exchanged with their
outputs, up to the recorded row swaps. A pivot step, a row swap and an undone column swap each
keep it; with all columns exchanged it says that the array is the inverse. That Cauchy matrices
need no swap follows from the fact that eliminating one row and column of a Cauchy
matrix leaves a Cauchy matrix scaled by nonzero factors, so every leading block is regular.

The receiver is a step function over its state (`Receiver.Step`), with a log of
what each flush published; the sender is a step function over reads (`Sender.Feed`).
`Link.EndToEnd` connects the two over whole runs.

A flush leaves decoder residue in the packet buffers. `Receiver.Step` takes these bytes as a
parameter without any assumption, so every law holds whatever they are; the methods of
`GroundUnit` return the bytes that the code really leaves.

The definitions that sender and receiver share - constants, start values, layouts, thresholds - are
pinned by statements in numbers that do not name them, such as `Restarts.RestartDetected`,
`Grouping.GroupsFilled`, `MspReference.ParserIsReference`, `Raw.SentLayout`, `Rc.PackedBits` or
`Crc.CheckValue`.

## Where the code decides

* `max_block_num` is an `int` that is compared with a `uint`. The model compares unsigned, so
  the initial -1 is 2^32 - 1 and the first packet goes through the restart branch.
* The completeness test at `video/video_main_gnd.c:403` reads the block buffer even when none was
  found; the model tests it only for a found block.
* A corrupt parity packet can be chosen when enough good ones exist
  (`video/video_main_gnd.c:305-308`); `Corruption.CorruptParityChosen` gives a case that decodes a
  wrong byte. `Corruption.RecoveredRegardless` says exactly when it cannot matter: the first received
  parity packets, one for each missing or corrupt data packet, all have a correct checksum.
* `packet_buffer_len` also counts a packet that replaces a corrupt one in its slot
  (`video/video_main_gnd.c:393-406`), so a block can be flushed as complete with a slot still empty.
  `Shortcut.ShortcutExact` says exactly when the count is right, and `Shortcut.LostThoughIntact` is a
  run in which every packet arrives intact and one is lost.
* For both reasons `Link.EndToEnd` assumes that no corrupt packet arrives, be it data or parity.
  Coverage, order and counter statements do not.
* The size byte of the v1 frame around an MSP v2 frame is checked against its bounds but never
  against the v2 size (`common/msp_serial.c:86-98`). `Msp.Frame.outer` is therefore free in 6..192:
  frames with a contradictory outer size are received too.
* After a complete MSP command the parser stays in its last state until the next `$`, and
  returns false meanwhile; a command counts as received once, at its last byte
  (`control/control_main_air.c:547-549`).
* The checksum of the RC message is blind to one difference: its polynomial has no constant term
  and its table maps 0xd3 to 0. `Rc.OneByteChanged` states exactly which changes pass.
* `db_raw_offset` is never cleared. `Raw.ModesMatter` states exactly when a frame can be
  read back.
* A USB message that has to be split arrives exactly when its first transfer holds
  the whole header. `Usb.MessageArrives` states this for every transfer size.

## Model

| member | source | states |
|---|---|---|
| Gf256.MulAssociates | video/fec.c:109-137 | multiplication modulo 0x11d is associative for all bytes; with the neighbouring lemmas (distributivity, unit, commutativity) the bytes form a commutative ring |
| Gf256.DoubleTable | video/gf256.cpp:335-349 | doubling is the shift reduced by 0x1d, the polynomial both table builders are given |
| Powers.AlphaInjective | video/fec.c:212-245 | the powers of 2 with exponents below 255 are pairwise different, so 2 generates the field |
| Powers.MulInv | video/fec.c:254-263 | every nonzero byte times its inverse is 1 |
| Powers.InvUnique | video/fec.c:254-263 | only the inverse has that property |
| Tables.ModNn | video/fec.c:148-154 | the shift-and-mask loop ends and returns x mod 255 for every nonnegative x |
| Tables.GenerateGf | video/fec.c:204-252 | both halves of the exponent table hold the powers of 2, and the log table inverts them |
| Tables.InitMulTable | video/fec.c:178-186 | every entry of the log/exp product table is the field product, zero row and column included |
| Tables.InitInverse | video/fec.c:254-263 | the inverse table maps every nonzero byte to its field inverse |
| Tables.FecInit | video/fec.c:397-413 | after initialisation all tables of the codec satisfy their field meaning |
| Context.ExpLogInit | video/gf256.cpp:356-378 | the second exp and log tables, with log(1) = 255, describe the same field |
| Context.MulDivInit | video/gf256.cpp:385-414 | product and quotient tables agree with the field, division by zero giving zero |
| Context.MulMemInit | video/gf256.cpp:529-538 | the nibble tables hold the products of every constant with all low and high nibbles |
| Codec.InitLibrary | video/fec.c:397-413 | one initialisation makes the tables of both libraries valid |
| Context.MultiplicationsAgree | video/fec.c:357-372 | the two multiplications that the inversion mixes are the same operation on all pairs of bytes |
| Lanes.SplitNibble | video/gf256.cpp:1126-1137 | shuffling both nibble tables and adding gives the product, although the shift of the wide lane drags in bits of the neighbouring byte |
| Lanes.Product256IsScale | video/gf256.cpp:1087-1112 | a 32-byte lane is multiplied pointwise |
| Kernels.MulMem | video/gf256.cpp:1046-1184 | for every length, constant, offset and CPU feature set the target range becomes the pointwise product and no other byte changes |
| Kernels.MulAddMem | video/gf256.cpp:1186-1387 | the same for z += x * y, with the chunks of 64, 32, 16, 8, 4 and fewer bytes |
| Kernels.AddMem | video/gf256.cpp:612-779 | the same for z += x |
| Kernels.SlowAddMul1 | video/fec_old.c:292-326 | the unrolled scalar routine has the contract of MulAddMem |
| Kernels.SlowMul1 | video/fec_old.c:417-452 | the unrolled scalar product has the contract of MulMem |
| LinAlg.InvertibleNotSingular | video/fec.c:277-392 | a matrix with an inverse sends no nonzero vector to zero, so the two results of the inversion exclude each other |
| LinAlg.InvertsIsTwoSided | video/fec.c:270-277 | what the inversion calls an inverse is one on both sides, entry by entry |
| Exchange.SwapKeepsTracks | video/fec.c:335-341 | swapping two rows that are not done keeps the exchange relation, with the swap recorded |
| Exchange.PivotKeepsTracks | video/fec.c:342-375 | normalising the pivot row and clearing its column exchanges one more input with its output |
| Exchange.IdentityPivotIsNop | video/fec.c:363-367 | skipping the elimination when the pivot row is a unit row changes nothing |
| Exchange.NoPivotIsSingular | video/fec.c:307-327 | if no unused row and column hold a nonzero entry, the original matrix is singular |
| Exchange.UnscrambleKeepsTracks | video/fec.c:378-388 | undoing the last recorded swap on the columns keeps the exchange relation |
| Elimination.FindPivot | video/fec.c:301-327 | finds a nonzero entry in an unused row and column exactly when there is one, prefers the diagonal; the "singular matrix" exit of the search is dead |
| Elimination.InvertMat | video/fec.c:277-392 | for every k and matrix: 0 means the array now holds the inverse of the old matrix, 1 means the old matrix is singular; with regular leading blocks it is 0 and no swap happens |
| Cauchy.TrivialKernel | video/fec.c:604-612 | a Cauchy matrix of distinct labels sends only zero to zero, for every size |
| Cauchy.SolutionSolves | video/fec.c:581-645 | the recursive solution solves every Cauchy system |
| Cauchy.SolutionUnique | video/fec.c:581-645 | and is its only solution |
| Cauchy.CauchyLeadingRegular | video/fec.c:302-306 | every leading block of a Cauchy matrix is regular, so the diagonal entry is always a usable pivot |
| Code.RepairedParity | video/fec.c:585-645 | the repaired block has exactly the parity packets it was repaired from |
| Code.RepairUnique | video/fec.c:585-645 | it is the only block with these parities and the same other data packets |
| Code.RepairRecovers | video/fec.c:657-687 | for every packet size, all d, f up to 128, every plan of erased packets and parity rows, and whatever stale bytes the erased packets hold, decoding what was encoded gives back the original block |
| Codec.CoefInverts | video/fec.c:525-531 | the coefficient of data block c in parity block r is the one byte whose product with 128 ^ r ^ c is 1 |
| Code.ParityExtends | video/fec.c:528-531 | one more data block adds its multiple by that coefficient to the parity block |
| Codec.FecEncode | video/fec.c:510-532 | every parity buffer holds the Cauchy combination of the data buffers; data and everything past the packet size stay as they were; no data packets means no change |
| Decoder.Reduce | video/fec.c:540-566 | the parity buffers become the syndromes of the known data, and the assertion on the number of erased packets holds |
| Decoder.InvertedMatrix | video/fec.c:604-634 | the matrix built from distinct rows and columns is inverted, and the abort branch is unreachable |
| Decoder.FecDecode | video/fec.c:657-687 | the data buffers hold the repaired block, the bytes past the packet size are untouched, the used parity buffers hold their syndromes |
| Slots.SlotsExact | video/video_main_gnd.c:242-264 | every slot of a block carries exactly one packet |
| Slots.DataSlotExact | video/video_main_air.c:147-163 | data packets travel in distinct slots below d + f, and the receiver's assignment inverts the sender's |
| Slots.FecSlotExact | video/video_main_air.c:147-163 | the same for parity packets |
| Slots.SlotOrder | video/video_main_air.c:147-163 | the kinds alternate, a data packet first, until one runs out; the rest is of the other kind |
| Selection.PicksAreAPlan | video/video_main_gnd.c:285-323 | the selected erased and parity lists ascend, have equal length, never erase a good data packet and meet the precondition of the decoder |
| Selection.PicksCover | video/video_main_gnd.c:279-330 | if the block is not called failed, every missing or corrupt data packet is erased |
| Selection.SelectLoop | video/video_main_gnd.c:282-323 | the loop with its two indices and running counts ends and computes these lists |
| Priorities.ScarceParity | video/video_main_gnd.c:282-323 | with more missing data packets than good parity packets, exactly the good parity packets are used, for the first missing ones, and no corrupt packet is touched |
| Priorities.AmpleParity | video/video_main_gnd.c:282-323 | otherwise no received parity packet is passed over, every missing packet is repaired, and the parity to spare goes to the first corrupt packets |
| ReceiverLaws.GoodDataKept | video/video_main_gnd.c:285-351 | a data packet with a correct checksum keeps its bytes through decoding, whether or not the block failed |
| ReceiverLaws.BlockRecovered | video/video_main_gnd.c:338-340 | if the block is not failed and the stored packets are as transmitted, decoding restores all of its data packets |
| ReceiverLaws.RecoveredExactly | video/video_main_gnd.c:303-308 | with corrupt parity packets of any content: a block that is not failed comes back exactly if every chosen parity packet carries its true bytes |
| Selection.FirstReceivedUsed | video/video_main_gnd.c:283-323 | a block that is not failed passes over no received parity packet: it uses the first ones, one for each missing or corrupt data packet |
| Corruption.RecoveredRegardless | video/video_main_gnd.c:303-308 | a block with enough good parity packets is recovered whatever its corrupt parity packets carry, exactly if those first received parity packets all have a correct checksum |
| Corruption.CorruptParityChosen | video/video_main_gnd.c:303-308 | one missing data packet, a corrupt parity packet and a good one behind it: the block is not called failed, the corrupt packet is used, and if its bytes are wrong a decoded byte is |
| ReceiverLaws.RecoveredBlockPublishes | video/video_main_gnd.c:273-359 | such a block publishes exactly the framed payloads, on the path with and without decoding |
| ReceiverLaws.FailedBlockPublishes | video/video_main_gnd.c:341-351 | a failed block publishes, in order, exactly one chunk for each received data packet, from its decoded bytes, those of good packets as sent; no chunk stems from a missing packet (the bytes are in Publishing.DecodedBlockPublishes) |
| Publishing.DecodedBlockPublishes | video/video_main_gnd.c:341-351 | whenever a data packet is missing or corrupt, each published packet with length field l gives its decoded bytes 4..l if 4 <= l <= packet size, and bytes 4..packet size if l is larger; below 4 the announced length wraps |
| Publishing.IntactBlockPublishes | video/video_main_gnd.c:352-358 | a block with all data packets intact publishes each with its own length, limited by nothing but the buffer |
| ReceiverLaws.RunInOrder | video/video_main_gnd.c:200-228 | in every run, between restarts, each block is flushed at most once and in increasing order, and the buffered block is the highest seen |
| ReceiverLaws.RunBalanced | video/video_main_gnd.c:229-335 | in every run lost packets plus good packets of flushed blocks equal (d+f) times received blocks, the damaged blocks are exactly the flushed ones with fewer than d good packets, the last loss count is that of the last flush, and every logged event is counted |
| Counters.FlushCounts | video/video_main_gnd.c:229-335 | a flush counts as lost exactly the slots without an intact packet, and the block as damaged exactly if fewer than d slots hold one |
| Restarts.RestartDetected | video/video_main_gnd.c:200-212 | an intact packet whose block plus 128 is below the highest one seen counts a restart, publishes nothing of the old buffer, and becomes the only packet of its block |
| Restarts.NoRestart | video/video_main_gnd.c:200-212 | every other packet leaves the restart counter alone and adds at most one flush to the log |
| Restarts.FirstPacketRestarts | video/video_main_gnd.c:61-61 | the initial block number is 2^32 - 1, so the first intact packet counts as a restart |
| Restarts.LaterBlockOpens | video/video_main_gnd.c:203-228 | an intact packet of a later block flushes the buffered block and becomes the only packet of its own |
| Restarts.LatePacketIgnored | video/video_main_gnd.c:376-387 | a packet of a block up to 128 behind changes nothing |
| Restarts.CorruptPacketContained | video/video_main_gnd.c:203-401 | a corrupt packet never moves the window, flushes or counts; at most it fills a slot without a correct packet |
| Shortcut.RunCounted | video/video_main_gnd.c:393-400 | in every run the packet count of the buffer is the number of filled slots plus the number of corrupt packets replaced in the current block |
| Shortcut.ShortcutExact | video/video_main_gnd.c:402-407 | in every run, when a block is flushed because its count is full, all its slots are filled exactly if none of its corrupt packets was replaced |
| Shortcut.ShortcutTooEarly | video/video_main_gnd.c:393-407 | two data packets and no parity, packet 2 corrupt and then intact: block 1 is flushed with an empty slot, and the intact packet 3 changes nothing any more |
| Shortcut.LostThoughIntact | video/video_main_gnd.c:393-407 | the whole run from the start: every packet arrives intact and in order, and block 1 is flushed with one good packet of two |
| SenderLaws.FeedCarries | video/video_main_air.c:321-362 | one turn of the loop keeps: what was sent are whole blocks, and blocks plus unfinished packets hold the whole input |
| SenderLaws.SenderCarriesInput | video/video_main_air.c:321-362 | so for every input and every cutting into reads |
| Grouping.SenderGroups | video/video_main_air.c:321-362 | for every cutting into reads the packets carry the reads grouped by one rule: collect until packet and length field take 24 bytes |
| Grouping.GroupsFilled | video/video_main_air.c:341-341 | every packet takes at least 24 bytes, and took fewer before its last read |
| Link.NoBlockSkipped | video/video_main_gnd.c:200-204 | enough packets per block mean that the receiver passes through every block number |
| Link.RunTracks | video/video_main_gnd.c:186-408 | after every prefix of a run the receiver's buffer holds exactly the received packets of the current block and its log the original blocks before it |
| Link.EndToEnd | video/video_main_gnd.c:186-408 | for every input, every cutting into reads and every in-order pattern of losses and duplicates that leaves each block enough parity packets, the published bytes are exactly the input up to the last flushed block, and nothing before the current block is missing |
| GroundUnits.GroundUnit.StorePacket | video/video_main_gnd.c:376-401 | a packet is stored unless its slot already holds a correct one; nothing else changes |
| GroundUnits.Split | video/video_main_gnd.c:242-264 | the loop finds the slots of every data and parity packet and counts missing and corrupt ones |
| GroundUnits.DecodeBlock | video/video_main_gnd.c:338-340 | the call of the decoder is always legal and leaves the decoded block in the data buffers |
| GroundUnits.PublishAll | video/video_main_gnd.c:341-351 | the publishing loop emits the chunks of the specification, limiting length fields in place |
| GroundUnits.GroundUnit.FlushBuffered | video/video_main_gnd.c:226-368 | the whole flush on the real buffers is the flush step of the specification |
| GroundUnits.GroundUnit.ProcessVideoPayload | video/video_main_gnd.c:186-408 | one packet, with the second pass for a full block, is exactly one step of the specification; a step flushes at most once |
| AirUnits.Interleave | video/video_main_air.c:144-163 | the sending loop emits every packet of the block in its slot under consecutive 32-bit numbers |
| AirUnits.AirUnit.TransmitBlock | video/video_main_air.c:126-170 | encodes the buffers, sends the block, advances the number and empties the lengths, as specified |
| AirUnits.AirUnit.Feed | video/video_main_air.c:321-362 | one read into the real buffers is exactly one step of the specification |
| Crc.Crc8DvbS2 | common/db_crc.c:38-49 | the bit loop is eight shifts by the polynomial |
| Crc.Crc8DvbS2Table | common/db_crc.c:57-59 | the table step equals the bit loop for every register and byte, for all 256 entries |
| Crc.CheckValue | common/db_crc.c:38-59 | the CRC of the digits 1 to 9 is 0xbc, the published check value of CRC-8/DVB-S2 |
| Crc.FoldAdds | common/db_crc.c:38-59 | the register of a bytewise sum of messages is the sum of the registers, start values included |
| Crc.DvbDetects | common/db_crc.c:38-59 | for every message length, changing one byte changes the CRC |
| Crc.RcDetects | common/db_crc.h:88-105 | the RC CRC misses a one-byte change exactly if the difference is 0xd3, for every length and position |
| Msp.Step | common/msp_serial.c:29-199 | in every state and for every byte, the next write stays inside the 192-byte buffer |
| Msp.Sound | common/msp_serial.c:29-199 | every byte stream splits into well-formed v1, v2 and v2-over-v1 frames with matching checksums and bytes between them, and the received commands are those of the frames, in order |
| Msp.EncodeInjective | common/msp_serial.c:29-199 | no two commands share an encoding, so a frame determines its command |
| MspReference.ParserIsReference | common/msp_serial.c:29-199 | for every byte stream the parser receives exactly the commands found by a reader that keeps bytes from a '$' on while they can still become a frame, with all lengths and checksums in numbers |
| MspReference.StepMatches | common/msp_serial.c:29-199 | inside a frame, the next byte drops it exactly if the bytes can no longer become a frame, and completes it exactly if they are one |
| Msp.XorAdds | common/msp_serial.c:57-62 | the v1 checksum of a concatenation is the sum of the parts and that of one byte is the byte, so it starts at zero |
| Msp.ReadPrefix | common/msp_serial.c:29-199 | no proper prefix of a well-formed frame completes a command, and the whole frame completes it with its fields |
| Msp.Complete | common/msp_serial.c:29-199 | any well-formed frames, with any bytes but '$' between them, are received one for one |
| Msp.OuterSizeIgnored | common/msp_serial.c:86-98 | every v1 size in 6..192 around a v2 frame, contradictory ones included, leads to the same command |
| Msp.MspPort.ProcessReceivedData | common/msp_serial.c:29-199 | the parser on its buffer and fields is the step of the specification, and its return value is false exactly for a byte skipped while waiting |
| Usb.WriteAsync | usbbridge/usbbridge_main.c:409-462 | the submitted transfers are the message cut into pieces, header only in the first, and the payload buffer is unchanged |
| Usb.MessageArrives | usbbridge/usbbridge_main.c:263-314 | a message is delivered exactly if it is not split or its first transfer holds the header; otherwise the parser ignores all of it and stays ready |
| Usb.RoundTrip | usbbridge/usbbridge_main.c:263-314 | for every list of messages and every transfer size of at least 6, all payloads and ports are delivered once, in order |
| Usb.Sound | usbbridge/usbbridge_main.c:263-314 | whatever transfers arrive, each routed message is the content of consecutive transfers of its own, in order |
| Usb.OverflowResynchronises | usbbridge/usbbridge_main.c:304-312 | a transfer with more bytes than the payload lacks drops the message and makes the parser ready for a header |
| Usb.RecoversAfterLoss | usbbridge/usbbridge_main.c:304-312 | after such a transfer everything that is sent arrives again, in order, behind what was routed before |
| Usb.ForeignIgnored | usbbridge/usbbridge_main.c:268-278 | a transfer that starts no message of at most 1530 bytes is ignored |
| Usb.Step | usbbridge/usbbridge_main.c:263-314 | after every transfer of at most 1536 bytes the fill count and announced size are within the 1530-byte buffer |
| Usb.UsbParser.Process | usbbridge/usbbridge_main.c:263-314 | the parser on its static variables is the step of the specification |
| Rc.GenerateDbRcMessage | control/rc_ground.c:173-207 | channels are limited in place and the frame holds the packed channels and their checksum; no other byte changes |
| Rc.PackedBits | control/rc_ground.c:184-200 | read as one number, the packed bytes hold the channels in ten bits each, the first channel lowest |
| Rc.ChecksumAdds | control/rc_ground.c:201-206 | the checksum of a bytewise sum is the sum of the checksums, which only a register started at zero has |
| Rc.LowestMessage | control/rc_ground.c:173-207 | with all channels at their lowest value all sixteen bytes are zero |
| Rc.RoundTrip | control/rc_air.c:218-262 | the message is accepted and decodes to every channel limited to 1000..2000 |
| Rc.UnpackedInjective | control/rc_air.c:223-238 | unpacking loses nothing: different packed bytes are different channels |
| Rc.OneByteChanged | control/rc_air.c:218-242 | a one-byte change of an accepted message, checksum included, is accepted exactly if it hits a packed byte with difference 0xd3 |
| Rc.BlindChange | common/db_crc.h:88-105 | such an accepted change always alters some channel |
| Rc.RcAir.Deserialize | control/rc_air.c:218-242 | the channels change only if the checksum matches, and then to the unpacked ones |
| Rc.RcAir.Receive | control/rc_air.c:257-262 | after a good message every channel is raised by 1000 modulo 2^16; after a bad one nothing changes |
| Raw.RawSender.SendDiv | common/db_raw_send_receive.c:282-298 | the header fields and payload are written in place, and the frame handed over has the length of the remembered offset |
| Raw.RawSender.SendHpDiv | common/db_raw_send_receive.c:318-331 | the same for a payload that is already in the frame buffer: only the header fields change |
| Raw.UpdateSeqNum | common/db_raw_send_receive.c:238-241 | sequence numbers count modulo 256 |
| Raw.Taken | common/db_raw_receive.c:171-184 | the receiver takes the payload from the place that the sender's remembered offset implies, for every radiotap header, with or without frame check sequence |
| Raw.RoundTrip | common/db_raw_receive.c:171-184 | for a sender that keeps one mode the payload, its length and sequence number come back, even if a driver overwrites the sequence control field of an offset frame |
| Raw.ModesMatter | common/db_raw_send_receive.c:252-258 | the receiver gets a payload back from every frame that carries it - whatever stale bytes, radiotap header and frame check sequence - exactly if the sender has not gone back from offset to plain frames |
| Raw.SentLayout | common/db_raw_send_receive.c:282-298 | a sent frame in numbers: port, length and sequence number at 19..22, the payload at 23 or, behind an offset, at 37, all else as the frame buffer was |
| Raw.ReceivedLayout | common/db_raw_receive.c:171-184 | a received frame in numbers, with or without 14 bytes before the payload and 4 after it, gives its payload |
| Raw.TrailingBytes | common/db_raw_receive.c:178-183 | a plain payload is read exactly if at most 4 bytes follow it; with more, the receiver reads 14 bytes further on |
| Words.ByteOrder | common/db_raw_receive.c:173-176 | the low byte of a field comes first |
| Raw.GetDbPayload | common/db_raw_receive.c:171-184 | the method writes exactly what the specification takes, and leaves the rest of the payload buffer alone |

## Left out

- Sockets, select loops, libusb, serial ports, shared memory, signals, clocks and command lines: they appear as parameters (what was read, what arrived) or results (what was sent or published).
- Failing sends and USB submissions: a failed submission ends the USB write early; the model has no failures.
- Link.EndToEnd: stated for at most 2^32 transmitted packets, because the block numbers are not continuous across the wrap of the sequence number, and for arrivals in order, as the receiver has one block buffer.
- Receiver.Config: d + f is at least 2 and the packet size 24..1450, the range in which the checks of both programs pass (the air program allows packets up to 2048 bytes and limits d and f to 32, the ground program only limits packets to 1450 bytes); with one packet per block every packet is already a full block.
- Receiver.Status: the counters are unbounded, so their 32-bit overflow is not modelled.
- Receiver.Publish: a length below 4 wraps to almost 2^32 as in the code, but only the bytes inside the packet buffer are described.
- video/video_main_gnd.c: more than one block buffer, which the program never uses, and the pass-through path at lines 410-440.
- Kernels: the NEON path, alignment of loads, gf256_memswap, gf256_add2_mem and gf256_addset_mem, which the codec does not use; a SIMD lane is a sequence of bytes.
- Tables: the finished tables are values that initialisation returns, not static arrays.
- video/fec_old.c: its encoder, decoder and matrix code, which repeat those of fec.c on the scalar routines.
- Usb.Step: transfers of more than 1536 bytes, and the reconnect that resets the parser state but not the fill count.
- Msp: the request direction '<', which the parser drops.
- Raw.RawSender.SendDiv: payloads that do not fit behind the offset, 2035 to 2048 bytes in an offset frame and anything longer, because the code does not check them and copies past its frame buffer, which the model does not describe.
- Raw.GetDbPayload: buffers that end before the bytes which the length fields make the code read, because it does not check them and the model has no bytes there.
- Raw: the live radiotap iterator and the packet filter; count_lost_packets, which no module calls.
- control/rc_ground.c and control/rc_air.c: the MSP, SUMD and MAVLink messages built from the channels, which are fixed layouts.
- video/legacy, osd, plugins, joystick readers, the status and proxy modules, JSON settings: no property beyond input and output.
