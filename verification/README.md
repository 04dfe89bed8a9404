# DV over RTP, from DIF blocks to whole frames

DVTS sends digital video as RTP packets. A camera delivers a frame as 80-byte DIF blocks; `dvsend`
packs the blocks into packets, `dvrecv` puts frames together again in a ring of shared buffers and a
second process takes finished frames from that ring, merges the audio in and hands them to the
IEEE 1394 device. `dvplay` reads the same blocks from a file. This project models that path and
proves what every run of it keeps.

| file | part of the system |
|---|---|
| `Dif.dfy` | block identifiers, the place of each block in a frame |
| `Packetiser.dfy`, `PacketiserLaws.dfy`, `Copies.dfy`, `Sender.dfy` | `dvsend/rtp.c`: the three buffers, numbering, frame dropping, redundant copies; `Sender.Packer` is the code in place |
| `Handoff.dfy` | the lock protocol between the two receiver processes |
| `Reassembly.dfy` | one ring of buffers: placement, frame change, concealment |
| `Playout.dfy`, `PlayoutLaws.dfy`, `PlayoutTheorems.dfy`, `Receiver.dfy` | both processes together under every interleaving; `Receiver.Player` is the code in place |
| `Wire.dfy` | what the packets carry, redundant copies included |
| `EndToEnd.dfy`, `Link.dfy`, `AudioStream.dfy` | sender, lossless link and receiver as one system |
| `Loss.dfy`, `LinkLoss.dfy` | loss counting, RTCP receiver reports; what is counted on a link that loses nothing |
| `Isochronous.dfy` | the FreeBSD packing loop with empty packets |
| `SharedMemory.dfy` | construction of the rings |
| `FileReader.dfy` | reading frames from standard input |
| `Destinations.dfy`, `DestinationLaws.dfy` | destination strings and lists |
| `Modular.dfy`, `Lists.dfy` | remainders, lists of lists |

How to read it. Each stateful part has a value (`Packetiser.Tx`, `Handoff.Ring`, `Reassembly.Store`,
`Playout.State`, `Loss.Meter`), a step function on it, and a run over any list of steps. A class or
method that works in place is tied to the step function by its postcondition; the lemmas are about
all runs. Some fields of these values are history and occur in no program variable: the sender's list
of events (with the frame ends that sent nothing), and for a ring the blocks that arrived in each
frame and the contents each frame was finished with. Arrivals, random initial numbers, and the way
reads split a byte stream are parameters. `u_long` has 32 bits, as `include/rtpvar.h` says.

A frame of the sender is told apart by the timestamps only, so the statement that links both ends
(`EndToEnd.GroupsAreFrames`) rests on timestamps of neighbouring kept frames being different, which
holds because 3003 is odd and the drop rate is below 2^31.

Results worth knowing, where the code falls short of what one would expect:

- A frame whose blocks fill whole packets uses up a sequence number without sending a packet
  (`NumberSkippedIffPacketsAreFull`). The receiver takes that number for a lost packet, though nothing was
  lost, unless the frame stands before the first or behind the last packet, or the number before the skipped
  one is 0 modulo 2^16, or the skip runs across the wrap of the numbers. `SenderAndReceiverAgreeOnLoss` gives
  the bound and exactly when it is met; a stream of k full frames shows k - 1 losses
  (`EveryFullFrameLooksLost`, with the shortest case in `TwoFullFramesShowLoss`).
- The receiver counts the separate audio stream and the main stream with one counter although their numbers
  have nothing to do with each other, so a lossless link shows loss (`SeparateAudioLooksLost`,
  `DetourIsCounted`).
- Redundant copies carry audio of earlier frames under a later timestamp, because their buffer is not emptied
  at the end of a frame; yet a slot the frame has a block of its own for always ends with that block
  (`CopiesHideNothing`), so finished and transmitted audio is the sender's with any redundancy.
- The clock of the separate audio stream stands still for ever exactly when the packet size divides
  the number of audio blocks per frame (`AudioClockKeepsPaceOrStands`). The receiver, given a first timestamp
  other than 0, then never hears any of it: no audio is ever new, and from the sixth on all frames are muted (`FullAudioIsNeverHeard`).
- With one buffer per ring, or a first timestamp of 0, a half-filled frame can be transmitted
  (`SafeIffTwoBuffers`, `FirstBlockTears`).
- The loss counter is exact only for tidy arrival orders (`LossNeverUnderCounted`). It can fall short if and
  only if the least number, which comes first, is 0 (`NeverUnderCountedIffFirstNotZero`); for packets in order
  over any number of wraps it never exceeds the loss, and falls short of it exactly if something is lost
  right behind a number 0 or across a wrap (`InOrderLoss`).
- The 8-bit fraction is right only below one loss per packet and below 2^24 losses (`FractionExact`).
- The file reader returns after ten DIF sequences, so a PAL frame comes back incomplete
  (`ReadsTenSequences`).
- The frame counter of the drop rule wraps to 0, which every rate divides, so the exact number of kept
  frames has one more term (`KeptFramesExactly`).

Where comments and code differ the code is modelled: the comment before `dvsend/rtp.c:313` says that
the number grows with every packet sent, but it grows at every frame end; the comment before
`dvsend/rtp.c:318` derives the step of 3003 from NTSC, but PAL streams use it as well.

## Model

| member | source | states |
|---|---|---|
| Dif.IdFieldsByShiftAndMask | dvsend/rtp.c:134-137 | section, sequence and number are the bytes' bit fields that shifting and masking the big-endian word selects |
| Dif.SlotIdentifiesBlock | dvrecv/read.c:244-338 | placing a block and asking which block belongs at that place gives the block's own section and number: no two blocks share a place |
| Dif.EverySlotHasItsBlock | include/difblock.h:6-47 | every place of a frame is the place of exactly one section and number |
| Dif.PlacesFollowTheSequence | include/difblock.h:6-47 | the header stands first, and each block right before the one that follows it: subcode, VAUX, then each audio block with its 15 video blocks behind it |
| Dif.BytePositions | include/difblock.h:6-47 | the byte positions of the tables: 0; 80, 160; 240, 320, 400; audio block n at 480 + 1280 n, video blocks 15 n to 15 n + 14 in the places behind it |
| Dif.EndOfFrameIsLastSlot | dvsend/rtp.c:221-230 | the block that makes the sender flush is the one in the last place of a frame of its format |
| Sender.Packer.constructor | dvsend/rtp.c:64-121 | empty buffers, frame counter 1, the given first numbers |
| Sender.Packer.SendPkt | dvsend/udp.c:498-527 | a packet given to the network is appended to what was sent, and to the history |
| Sender.Packer.AddDvdifToOutbuf | dvsend/rtp.c:233-250 | the whole new state, equal to the specification whose runs conserve blocks and numbers |
| Sender.Packer.AddDvdifToROutbuf | dvsend/rtp.c:252-273 | the same for the redundant buffer |
| Sender.Packer.SendROutbuf | dvsend/rtp.c:263-267 | a full redundant buffer goes out once per redundancy, each copy under a number of its own |
| Sender.Packer.AddDvdifToAudioOutbuf | dvsend/rtp.c:275-298 | the same for the separate audio buffer |
| Sender.Packer.DvdifFlush | dvsend/rtp.c:300-336 | the end of a frame: pending blocks leave, both clocks move as specified, an empty buffer is recorded as such |
| Sender.Packer.ProcDvdif | dvsend/rtp.c:123-231 | one block handled by its section, unknown sections ignored |
| Sender.Packer.SendAll | dvsend/ieee1394-linux.c:128-130 | after any blocks, sent and pending blocks together are exactly the admitted blocks in order |
| PacketiserLaws.RunNumbered | dvsend/rtp.c:233-322 | in every run the i-th event carries the i-th number modulo 2^16, packets hold 1 to `blocksInPkt` blocks, the n-th frame's packets carry ts0 + 3003 n modulo 2^32, the frame counter is n + 1 modulo 2^32 |
| PacketiserLaws.SequenceNumbersCountEmptyFlushes | dvsend/rtp.c:242-313 | consecutive packets, copies included, differ by one plus the empty flushes between them |
| PacketiserLaws.SenderConserves | dvsend/rtp.c:233-322 | at every point of every run, blocks sent then blocks pending are the admitted blocks, in order, each under its own frame's timestamp; likewise for the separate audio stream |
| PacketiserLaws.NumberSkippedIffPacketsAreFull | dvsend/rtp.c:300-313 | a finished frame consumes a number without a packet if and only if the packet size divides its admitted blocks |
| PacketiserLaws.AudioClock | dvsend/rtp.c:275-332 | every audio packet and the audio clock are ahead of the first timestamp by 3003 for each earlier frame whose audio did not fill whole packets |
| PacketiserLaws.AudioClockKeepsPaceOrStands | dvsend/rtp.c:326-332 | with equal audio per frame the audio clock keeps its distance to the video clock, or never moves, the latter when the packet size divides the count |
| PacketiserLaws.FramesAreKeptWhole | dvsend/rtp.c:148-219 | the drop rule keeps all the non-audio blocks of a frame or none, and all audio |
| PacketiserLaws.SectionsAreSentWhole | dvsend/rtp.c:148-219 | for every flag and rate, the main stream has all blocks of a section in a frame or none: headers, subcode and VAUX unless the frame is dropped, video not with the no-video flag either, audio exactly without the no-audio and separate-audio flags |
| PacketiserLaws.AudioIsSentWhole | dvsend/rtp.c:190-206 | the separate stream has all audio, or none, and nothing else |
| PacketiserLaws.NoRateKeepsAll | dvsend/rtp.c:152-153 | audio is kept in every frame, and everything is without a drop rate above 1 |
| Copies.RunCopies | dvsend/rtp.c:252-273 | in every run, with any flags: all audio seen is the contents of the copies, one of each group, and then the buffer, in order; a group is one full packet sent `redundancy` times; without redundancy nothing is copied |
| Copies.CopiesCounted | dvsend/rtp.c:262-267 | there are redundancy * (audio blocks seen / packet size) copies |
| PacketiserLaws.KeptFramesExactly | dvsend/rtp.c:152-153 | of n frames exactly n / rate are kept, with the exact extra term for wraps of the 32-bit counter |
| Handoff.ReaderKeepsInv | dvrecv/read.c:195-334 | every frame strictly between writer and reader stays DATA_READY and the reader's own WRITING_DATA, also when the reader laps the writer; the writer's frame number never falls |
| Handoff.WriterKeepsInv | dvrecv/write-linux.c:111-152 | the writer never stands on the reader's buffer and moves to the next finished number if there is one, otherwise stays |
| Reassembly.ReceiveInv | dvrecv/read.c:187-219 | placing a block, after finishing and repairing the frame if the timestamp changed, keeps the full account of every position of every buffer |
| Reassembly.FinishedPosition | dvrecv/read.c:195-207 | a frame is finished with, at each position, its last own block, or what shows through from the previous buffer (video) or from F frames earlier (other sections) |
| PlayoutTheorems.ConcealmentOverRuns | dvrecv/read.c:195-339 | over whole runs and any number of buffers, a video slot shows the most recent block ever received for it, any other slot its own frame's last block or what the buffer held F frames earlier |
| PlayoutLaws.TransmitsOnlyFinishedFrames | dvrecv/write-linux.c:101-153 | under every interleaving with two or more buffers, each transmitted frame equals a finished frame outside the audio slots and a finished audio frame or silence in them, the reader is filling neither buffer, and numbers never go back |
| PlayoutLaws.RunGroups | dvrecv/read.c:187-214 | which blocks make up which frame depends on the arrivals only, cut where the timestamp changes, never on the writer |
| PlayoutTheorems.NoFrameSkipped | dvrecv/write-linux.c:111-114 | if the reader is never more than F frames ahead of the last frame shown, shown numbers go up by at most one |
| PlayoutTheorems.TransmitsWhatIsDue | dvrecv/write-linux.c:111-129 | each transmission, under every interleaving, shows the next video and audio frame if the reader has finished it, otherwise the same ones again; the audio is new exactly in the first case |
| PlayoutTheorems.ReleasesWhatItSent | dvrecv/write-linux.c:151-152 | the buffers transmitted last are READY until the reader comes round to them |
| PlayoutTheorems.SilenceAfterSixStaleFrames | dvrecv/write-linux.c:115-129 | silence is sent exactly when this and the five preceding calls found no new audio; MUTE AUDIO is printed at the first call of each such episode |
| PlayoutTheorems.SilenceIffNothingWaits | dvrecv/write-linux.c:115-129 | silence is sent exactly when no finished audio frame was waiting at this and the five preceding calls |
| Playout.MergeByBlock | dvrecv/write-linux.c:131-145 | at the place of any block, the merged frame has the audio frame's block if it is audio of one of the format's sequences, otherwise what was there |
| PlayoutTheorems.SafeIffTwoBuffers | dvrecv/shm.c:110-148 | no interleaving transmits a frame being filled if and only if both rings have at least two buffers |
| PlayoutTheorems.FirstBlockTears | dvrecv/read.c:93-94 | transmitting after the first block sends a frame being filled if and only if its timestamp is 0 or its ring has one buffer |
| Receiver.ConcealNext | dvrecv/read.c:197-203 | one turn of the repair loops changes the one position whose flag it looks at, in flag order |
| Receiver.Player.ConcealFrame | dvrecv/read.c:196-205 | the nested loops turn the reader's buffer into the finished frame and touch no other |
| Receiver.Player.SwitchVideo | dvrecv/read.c:195-214 | the whole frame change: repair, lock, next buffer, cleared flags, timestamp |
| Receiver.Player.SwitchAudio | dvrecv/read.c:188-193 | the frame change of the audio ring |
| Receiver.Player.ProcessSctVideo | dvrecv/read.c:225-339 | header, subcode, VAUX and video blocks land at their places under a WRITING_DATA lock |
| Receiver.Player.ProcessSctAudio | dvrecv/read.c:294-315 | audio blocks land in the audio ring |
| Receiver.Player.ReadDifBlock | dvrecv/read.c:177-218 | one block of a packet, as the reader's step of the system |
| Receiver.Player.ReadPacket | dvrecv/read.c:176-219 | all blocks of a packet, in order |
| Receiver.PrepareSilentAudio | dvrecv/write-linux.c:81-93 | the loops leave a silent block for every audio position of the format |
| Receiver.SilentBlockAddressesItsSlot | dvrecv/write-linux.c:87-91 | a silent block decodes to the audio slot it is put into |
| Receiver.Player.TakeVideo | dvrecv/write-linux.c:111-114 | the writer moves on exactly when the next buffer is ready |
| Receiver.Player.TakeAudio | dvrecv/write-linux.c:115-129 | the same for audio, with the count of calls without new audio |
| Receiver.Player.MergeAudio | dvrecv/write-linux.c:131-145 | the nested loops replace exactly the audio slots of the format by one audio source |
| Receiver.Player.FillBuffer | dvrecv/write-linux.c:101-153 | the writer's whole step, frame, locks and message |
| Wire.LinkDelivers | dvsend/rtp.c:233-322 | what all packets carry, block by block with their timestamps, is the admitted blocks with their frames' timestamps: everything but audio whatever the packet size, drop rate and redundancy, audio when there is no redundancy |
| Wire.CopiesHideNothing | dvsend/rtp.c:252-273 | with any redundancy, the last block carried for an audio slot under a frame's timestamp is the last one that frame has for it |
| EndToEnd.StreamCuts | dvrecv/read.c:195-214 | cutting the received blocks where the timestamp changes cuts them into the sender's kept frames, for streams of any length and any redundancy |
| EndToEnd.GroupsAreFrames | dvrecv/read.c:187-214 | the receiver closes exactly the sender's kept frames, in order, the last stays open; each has exactly its blocks or, where copies of audio came along, ends with the same block for every slot of the frame |
| EndToEnd.FinishedFrameIsSendersFrame | dvrecv/read.c:176-219 | each finished frame equals the sender's frame at every header, subcode, VAUX and video slot it has a block for |
| EndToEnd.FinishedAudioIsSendersAudio | dvrecv/read.c:187-194 | the same for audio in the main stream, with any redundancy |
| EndToEnd.TransmittedFrameIsSendersFrame | dvrecv/write-linux.c:101-153 | each transmitted frame equals one kept frame of the sender at all those slots, under every interleaving |
| EndToEnd.TransmittedAudioIsSendersAudio | dvrecv/write-linux.c:131-145 | each transmitted frame that is not muted carries the audio of one frame of the sender, with any redundancy |
| Link.RelayIsLinked | dvsend/udp.c:498-527 | handing the sent packets in order to the receive loop meets the assumptions of the end-to-end statements |
| Link.RelayedFrameIsFinished | dvrecv/read.c:176-219 | with the packets themselves as input, kept frame i is finished frame i shifted by the lead, slot by slot |
| Link.RelayedFrameIsTransmitted | dvrecv/write-linux.c:101-153 | with the packets as input and transmissions anywhere between their blocks, each frame given to the device is one the sender kept |
| Link.RelayedAudioIsTransmitted | dvrecv/write-linux.c:115-145 | likewise its audio, if it is not muted |
| AudioStream.AudioGroupsAreFrames | dvrecv/read.c:187-194 | cut by its own clock, the separate audio stream gives the sender's audio frames in order, if no frame's audio fills its packets |
| AudioStream.AudioIsOneGroup | dvsend/rtp.c:326-332 | if every frame's audio fills its packets, the receiver closes no frame after its first audio block |
| AudioStream.FullAudioIsNeverHeard | dvrecv/write-linux.c:115-129 | in that case audio is never new under any interleaving, and exactly the frames from the sixth on are muted |
| Loss.LossNeverUnderCounted | dvrecv/read.c:158-167 | for any order from a least, non-zero first number, counted loss is at least the numbers truly missing, and equal if and only if the order is tidy (RFC 3550, appendix A.3, counts against the greatest number instead) |
| Loss.IncreasingIsTidy | dvrecv/read.c:158-167 | strictly increasing arrivals are tidy, so their loss is exact |
| Loss.NeverUnderCountedIffFirstNotZero | dvrecv/read.c:158 | for every first number, all arrival orders in which it is the least are counted in full at least if and only if it is not 0 |
| Loss.FirstNumberZeroUnderCounts | dvrecv/read.c:158 | the arrivals 0, s count nothing although s - 1 numbers are missing |
| Loss.InOrderLoss | dvrecv/read.c:158-167 | increasing numbers taken modulo 2^16, any number of wraps: counted loss is at most the true loss, and equal if and only if each step loses nothing or stays in one round of 2^16 numbers and does not start at its 0 |
| Loss.NothingCountedIff | dvrecv/read.c:158-167 | no loss is counted if and only if every number but 0 is followed by one at most one above it |
| LinkLoss.LossWithinEmptyFlushes | dvrecv/read.c:158-167 | in-order delivery of every packet, wraps included: counted loss is at most the empty flushes between the first and the last packet, with the exact condition for equality |
| LinkLoss.EmptiesAreFullFrames | dvsend/rtp.c:300-313 | the empty flushes of a run are as many as its frames that fill their packets |
| LinkLoss.SenderAndReceiverAgreeOnLoss | dvsend/rtp.c:303-313 | over a lossless in-order link, audio in the main stream, counted loss is at most the number of full frames less those at both ends, and equal if and only if every step of the numbers is counted in full, which holds if the numbers neither start at 0 nor wrap |
| LinkLoss.NoFullFrameNoLoss | dvsend/rtp.c:303-313 | with no full frame nothing is counted, over any number of wraps |
| LinkLoss.EveryFullFrameLooksLost | dvsend/rtp.c:303-313 | if every frame is full, exactly one loss fewer than there are frames is counted, as long as the numbers neither start at 0 nor wrap |
| LinkLoss.TwoFullFramesShowLoss | dvsend/rtp.c:303-313 | a concrete stream whose packets, all received, count one loss |
| LinkLoss.DetourIsCounted | dvrecv/read.c:121-167 | with two streams on one counter, a packet of one between two of the other costs the distance of its number to the nearer of them |
| LinkLoss.SeparateAudioLooksLost | dvrecv/read.c:121-167 | one packet of each stream, both received, and the distance of their numbers is counted as loss |
| Loss.ReportsAddUp | dvrecv/rtcp.c:82-103 | over any interleaving of packets and requests, losses reported plus losses held are all losses counted, modulo 2^32 |
| Loss.NoPacketsNoLoss | dvrecv/rtcp.c:82-84 | with no packet since the last report no loss is held, up to wrap-around of the packet counter |
| Loss.RequestIsAnswered | dvrecv/rtcp.c:82-103 | after any packets and requests, a request is answered by one report exactly if a packet arrived since the last: its fraction is floor(256 L / N) if and only if L < N and L < 2^24, its lost field is L if and only if L < 2^23, for the L lost and N received since then, and both are right modulo their width; the counting starts afresh |
| Loss.FractionExact | dvrecv/rtcp.c:86-102 | the 8-bit field is floor(256 loss / received) if and only if loss < received and loss < 2^24 |
| Loss.FractionOverstates | dvrecv/rtcp.c:87 | it is never less than the fraction of section 6.4.1 of RFC 3550 |
| Loss.LostFieldExact | dvrecv/rtcp.c:103 | the signed 24-bit field is the loss if and only if that is below 2^23 |
| Loss.Counters.Packet | dvrecv/read.c:145-167 | the counters after one packet |
| Loss.Counters.SendRtcpRr | dvrecv/rtcp.c:82-103 | the report sent, if any, and the fresh counters |
| Loss.Counters.Serve | dvrecv/rtcp.c:131-191 | any interleaving in place, with the sum law as its postcondition |
| Isochronous.CountClosedForm | dvrecv/write-freebsd4.c:139-155 | n packets of data take n + (n - 1) / (frac - 1) packets with `mod` 0 |
| Isochronous.FrameFits | dvrecv/write-freebsd4.c:51 | an NTSC frame fits the buffer if and only if frac is at least 3, a PAL frame if and only if it is at least 4 |
| Isochronous.Pack | dvrecv/write-freebsd4.c:139-155 | empty packets stand exactly at the positions congruent to `mod`, skipping them gives the frame back in order, nothing beyond the count is touched |
| SharedMemory.BuildVideoRing | dvrecv/shm.c:104-129 | F distinct nodes in one cycle, `prev` the inverse of `next`, buffers laid out one after the other behind the static frame, every lock READY, the static frame's flag cleared |
| SharedMemory.BuildAudioRing | dvrecv/shm.c:131-148 | F distinct nodes in one cycle, buffers laid out one after the other, every lock READY |
| SharedMemory.LocksAreInitial | dvrecv/shm.c:116-136 | the locks so set are the ones the hand-off starts from |
| SharedMemory.FollowCountsModulo | dvrecv/shm.c:110-148 | following `next` is counting modulo F, which the hand-off relies on |
| SharedMemory.OneCycle | dvrecv/shm.c:123-129 | every buffer is reached from every other; `prev` and `next` undo each other |
| SharedMemory.BuffersFit | dvrecv/shm.c:57-115 | video buffers are disjoint and lie with the static frame inside the segment requested, which is larger by a static frame for each further buffer |
| SharedMemory.AudioBuffersFit | dvrecv/shm.c:60-136 | the same for the audio segment, which is exactly filled |
| SharedMemory.BufferSizes | dvrecv/param.h:15-42 | a buffer has room for its lock word, all blocks of a frame and, for video, the received flags |
| FileReader.Input.Read | dvplay/file.c:96-98 | a read delivers the next bytes, at least one and at most those asked for, none only at the end |
| FileReader.Player.ReadBlock | dvplay/file.c:94-103 | short reads are put together into the next 80 bytes, however they are split |
| FileReader.Player.ReadDvDataFromFile | dvplay/file.c:91-146 | return value, frame and bytes left over are a function of the bytes alone |
| FileReader.ReadsTenSequences | dvplay/file.c:136-138 | a frame in slot order is returned after ten sequences; what is left over is exactly the next frame if and only if it has ten |
| FileReader.ReadFrameMeaning | dvplay/file.c:91-146 | for any blocks in any order: a call reads up to the first end of frame, which it returns, or the first unknown section or the end, where it fails; each place holds the last block read for it |
| FileReader.NtscStreamComesBack | dvplay/file.c:91-194 | any number of NTSC frames in slot order come back one by one unchanged, then the reader fails |
| Destinations.SplitIsInverse | dvsend/udp.c:112-151 | the parts put together with slashes are the string |
| Destinations.PartsHaveNoSlash | dvsend/udp.c:113 | no part contains a slash, so the splitting is the only one |
| Destinations.ScanSlash | dvsend/udp.c:113-147 | at a slash the finished part goes to the field its position names, and the next part starts behind it, up to the fourth |
| Destinations.ParseDestStr | dvsend/udp.c:81-183 | the scan agrees with splitting at slashes into host, port, TTL and interface, ignoring further parts; too long a string sets nothing |
| DestinationLaws.AtoiReads | dvsend/udp.c:122-129 | blanks, perhaps a sign, digits and anything behind them are read as the number written; without digits as 0 |
| DestinationLaws.AtoiOfDecimal | dvsend/udp.c:160 | the decimal notation of n is read as n |
| DestinationLaws.SplitJoin | dvsend/udp.c:112-151 | a string put together from parts without slashes is split into these parts |
| DestinationLaws.DestinationFields | dvsend/udp.c:213-307 | the first four parts give host, port, TTL and interface, port and TTL if positive, all but the host by default; the RTCP destination differs by one in the port |
| DestinationLaws.TooLongIsDefaulted | dvsend/udp.c:102-104 | a string that is too long leaves the host empty and the rest at its default |
| DestinationLaws.FamilyIsChosen | dvsend/udp.c:235-253 | the family is that of IPv4 if and only if its flag is set, of IPv6 if and only if only that flag is |
| DestinationLaws.HostAndPort | dvsend/udp.c:156-161 | `host/port` gives that host and port, and the port above for RTCP |
| Destinations.Last | dvsend/udp.c:200-211 | the last node of the list |
| Destinations.Fill | dvsend/udp.c:213-307 | the fields with their defaults and the address family the flags choose, the RTCP port one above the RTP port |
| Destinations.Param.AddDestination | dvsend/udp.c:428-463 | both lists grow by one destination at their ends, the rest unchanged |
| Destinations.AddAll | dvsend/udp.c:428-463 | after any number of calls with RTCP on, both lists are in call order and match in host, TTL, interface and family, each RTCP port being the RTP port plus one |

## Left out

- Receiver.Player.ReadDifBlock: one block, with the frame change before it, is one step against the writer; inside a copy the lock word does not exclude the other process, because the test for "not being written" also succeeds on a buffer the writer holds.
- Receiver.Player.FillBuffer: one call is one step against the reader, for the same reason.
- Handoff.Lock: a lock word takes one of four single-bit values, so the loops around the lock end in their first turn; words with several bits are never stored and have no place in the model.
- Receiver.Player: the variables of both processes are fields of one object, and a buffer's contents are replaced as a sequence of blocks, not byte by byte.
- Sender.Packer: buffers are counted in blocks, not bytes; a packet is a header record with number, timestamp and blocks, without version, payload type and source.
- Sender.Packer.SendPkt: does not model the destination list: one packet log stands for what every destination is sent, and the packet counts kept for each destination are left out.
- EndToEnd.FinishedAudioIsSendersAudio: assumes some audio in every frame, and says nothing about audio slots the frame has no block for, where copies can leave blocks of earlier frames.
- AudioStream.AudioGroupsAreFrames: assumes that the audio ring is given the separate audio stream only; with redundancy the copies in the main stream would bring audio under the main stream's clock as well.
- Destinations.Fill: the length field of the socket address, and builds without IPv6 support, where the family is always that of IPv4.
- Loss.NoPacketsNoLoss: assumes fewer than 2^32 packets since the last report, as the packet counter then returns to 0.
- Destinations.Atoi: numbers beyond the range of a C int, which the C library leaves undefined.
- FileReader: the branch for named files, which treats a short read as a whole block; frames are assumed to hold blocks whose place lies inside the frame.
- Redundant packets when the main stream carries no audio: the copies are still sent then, but what the receiver makes of them alone is not stated.
- The hand-off in `dvrecv/write-freebsd4.c`, the same as the Linux writer's; only its packing loop differs.
- `dvrecv/write-macosX.c`, `dvrecv/write-freebsd5.c`, `dvrecv/write-netbsd.c` and the device code of every platform.
- The start-up of the two processes, which both set all locks; runs begin after both have attached.
- The loss display on the console, RTCP on the sender's side, RTCP BYE, SDES.
- Sockets, multicast, signals, option parsing; the socket addresses in the destination lists.
- The separate-audio destination lists, which `dvsend/udp.c` leaves unfinished.
- `dvsave` and the players' device loops.
