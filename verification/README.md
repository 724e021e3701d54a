# JackTrip receive path: models and proofs

JackTrip carries packet audio over a lossy network.  This project models the logic between the
network and the audio callback, together with the hub patcher, and proves what each part promises
over whole runs.  `dafny verify dfyconfig.toml` checks the whole project.

| file | models |
|---|---|
| `Numbers.dfy` | small facts about numbers that several parts share |
| `Vectors.dfy` | inner products of real vectors |
| `Burg.dfy` | the damped Burg recursion and the linear predictor, in place on arrays, beside a functional recursion |
| `BurgTheory.dfy` | the energy law, the prediction-error filters, their optimality, and a bound on every predicted sample |
| `Concealment.dfy` | one channel of packet-loss concealment: packet ring, prediction, cross-fade |
| `Regulator.dfy` | the 4096-slot packet ring: push, candidate search, stash, underrun |
| `RegulatorTheory.dfy` | the ring against unbounded sequence numbers: order, conservation, bytes, pace, progress |
| `Redundancy.dfy` | the UDP redundancy sender and receiver |
| `RedundancyTheory.dfy` | the redundancy protocol over a dropping, duplicating, reordering channel |
| `EndToEnd.dfy` | the redundancy receiver feeding the packet ring, from the first datagram on |
| `Circular.dfy` | a circular buffer as a window of an unbounded stream |
| `JitterBuffer.dfy` | the jitter buffer: wrapped copies, latency decisions, loss padding, broadcast listener |
| `JitterTheory.dfy` | its occupancy bound, its accounting, the listener's position |
| `JitterRuns.dfy` | its runs with their bytes: what comes out, and recovery from underruns |
| `RingBuffer.dfy` | the slot ring buffer and its wavetable variant |
| `Rechunking.dfy` | cutting peer-size packets into local-size slots |
| `Planar.dfy` | planar and interleaved channel layouts |
| `Patcher.dfy` | incremental patching of hub clients |

Each imperative class is proved against a specification: a function of the inputs and the old
state, or a ghost history (the byte stream of the jitter buffer, the queue of the ring buffer, the
events of the concealment).  The theorems are then about that specification.

## Main results

- Training picks the best filter there is, stage by stage, and a lost packet is the zero-error
  continuation of the last outputs under it. Each prediction is bounded. The damping constant
  2.00002 keeps every reflection coefficient strictly inside (-1, 1); a weighted sum of squared
  backward prediction errors never grows under prediction; and the decrease of the training
  denominator pays for its starting value. Together: the square of every predicted sample is at most
  2.00002 times the energy of the history, for any length of prediction. Consecutive losses train on
  their own predictions, so over a burst the bound compounds by 1 + 2.00002 fpp for each loss
  (`BurstIsBounded`).
- The redundancy protocol, across the 16-bit wrap, accounts for every number passed, writes a packet
  exactly when an accepted datagram carried it, and hides loss exactly when fewer than `factor`
  consecutive datagrams are missed each time.  It writes in order, none twice, exactly when it never
  overshoots at the wrap.
- The packet ring, driven by that protocol from the first datagram on, across the wrap, plays
  packets in order, each byte for byte the one sent under its number, and accounts for every number
  it skips; all it asks is that arrivals keep a pace. With rising stamps two pulls deliver a packet,
  and after the start it hands out zeros exactly when the newest packet has been played and is more
  than 512 ms old.
- The jitter buffer never overwrites an unread byte, hands every byte out as it went in, accounts for
  every position jump, and recovers from every underrun at a low level, a slot with each packet.

## What the proofs found

- At a last sequence number of 65535 the receiver compares with 65536 (`src/UdpDataProtocol.cpp:967`)
  and never finds the expected packet, so with a redundancy factor above 1 it writes packets again
  that it has already written (`WrapReplaysPackets`; the exact condition is in `ScanFindsWanted`).
- The flag that should zero the gap of the first packet is cleared before it is used
  (`src/UdpDataProtocol.cpp:960` and `998`): the first gap is 0 only for a datagram of one packet or a
  number that happens to follow the stale one, and negative otherwise (`FirstPacketGap`,
  `FirstPacketGapExample`), so nothing pads.
- All packets revived by one datagram are written under the newest number
  (`src/UdpDataProtocol.cpp:1000` and `1019`), so in the packet ring each overwrites the one before
  it: a revived packet is written and never played (`RevivedIsNeverPlayed`).
- The clock of the packet ring starts with the first packet (`src/Regulator.cpp:443`), and slots start
  with stamp 0, so a loss directly after a packet that arrived within the tolerance of the start is
  not recognised: the deferral of a jump plays the slot that was never filled (`EarlyHoleIsPlayed`
  gives the exact condition, `EarlyHoleExample` a run).
- With strategy 0 and a queue of one slot the overflow drop is half a slot, and the jitter buffer's
  occupancy is unbounded (`OccupancyIsUnboundedWithoutDrop`, `DropStepSuffices`).
- The comparison in `pushPacket` is right exactly for the advances in `NewestIsRight`; the
  redundancy filter stays inside them.
- When neither buffer size divides the other the integer ratio is not the ratio of the sizes
  (`RatioIsExact`).  With packets of 5 frames and slots of 2 the third read starts at frame 4 and
  leaves the packet (`ThirdReadLeaves`); `ReadsStayInside` says for which sizes every read stays
  inside, `ReadsKeepUp` for which the slots are the packets.
- In a mode that fans without looping, registering a client again connects it to itself
  (`RegisteredAgain`).

## Conventions and assumptions

- Samples are exact reals; bytes and sample values elsewhere are integers.  Clock readings and the
  Regulator's tolerance are inputs of each call.
- The theorems about the packet ring assume what the code needs: arrivals in number order, by
  advances below 2048, with fewer than 4096 numbers outstanding (`ArrivesInOrder`); for the bytes,
  that numbers never pushed are passed over (`HolesAreHarmless`).  `EndToEnd` derives the order and
  the advances from the redundancy filter, and harmless holes from the pace of arrivals: with a fixed
  tolerance and at most `lag` numbers outstanding at a pull, packets at least 4096 - `lag` numbers
  apart arrive more than the tolerance apart, no number is absent directly after a packet stamped
  within the tolerance (`KeepsPace`), and no pull happens at the very instant the clock equals the
  tolerance (`InPace`).
- The redundancy runs are those between re-initialisations, with datagrams inside the horizon of the
  16-bit numbers (`Receivable`).
- The gap that the receiver reports is counted in packets instead of bytes.
- The jitter buffer's occupancy theorem is for packets of the slot size and the automatic queue off;
  its accounting holds for any length.  Positions are unbounded, for runs below 2^32 bytes, and the
  counters of new reads and underruns start at 0.

## Model

| member | source | states |
|---|---|---|
| `Burg.BurgAlgorithm.constructor` | src/Regulator.cpp:115-131 | the four work arrays have the history size and the reset filter is [1, 0, ..., 0] |
| `Burg.BurgAlgorithm.Train` | src/Regulator.cpp:133-184 | the in-place recursion returns the coefficients of the functional recursion on the first `size` samples, whatever the arrays held before |
| `Burg.BurgAlgorithm.StartingDenominator` | src/Regulator.cpp:143-149 | the accumulated starting denominator is 2.00002 times the energy of the history less its two end squares |
| `Burg.BurgAlgorithm.Numerator` | src/Regulator.cpp:154-157 | the numerator loop is the inner product of the live forward and backward errors |
| `Burg.BurgAlgorithm.UpdateFilter` | src/Regulator.cpp:163-169 | the folded half-range update is the full Levinson step a'[n] = a[n] + mu a[k+1-n], and the filter stays 0 beyond index k+1 |
| `Burg.BurgAlgorithm.UpdateErrors` | src/Regulator.cpp:171-177 | forward and backward errors are crossed simultaneously on their live ranges |
| `Burg.BurgAlgorithm.OneStage` | src/Regulator.cpp:152-181 | the in-place arrays and the denominator of stage k become those of stage k+1, guard included |
| `Burg.BurgAlgorithm.Predict` | src/Regulator.cpp:186-195 | the tail from index m on is the one-sample-at-a-time linear prediction; the samples below m are unchanged |
| `BurgTheory.StepSlack` | src/Regulator.cpp:154-180 | for any stage, the denominator minus the residual energy is multiplied by 1 + mu^2 |
| `BurgTheory.EnergyLaw` | src/Regulator.cpp:143-181 | for every history that is not silent the denominator of every stage is the residual energy plus a slack that starts at 0.00002 times the energy and never shrinks; so it is positive |
| `BurgTheory.SilentHistory` | src/Regulator.cpp:137-180 | a silent history gives mu = 0 at every stage and the filter [1, 0, ..., 0] |
| `BurgTheory.GuardFiresOnlyOnSilence` | src/Regulator.cpp:159-160 | the zero guard is taken if and only if it is the first stage and every sample of the history is 0 |
| `BurgTheory.ReflectionInsideUnit` | src/Regulator.cpp:154-161 | every reflection coefficient is strictly inside (-1, 1), for every history |
| `BurgTheory.LatticeStep` | src/Regulator.cpp:163-177 | on any signal, the Levinson step on the filter is the lattice step on its forward and backward errors |
| `BurgTheory.ArraysAreFilterErrors` | src/Regulator.cpp:152-178 | after every stage f[n] = sum a[i] x[n-i] and b[n] = sum a[i] x[n+i] on the live ranges |
| `BurgTheory.ReflectionIsOptimal` | src/Regulator.cpp:154-177 | of all extensions of the filter so far, each stage picks the one with the least damped error energy on the history, and any other does strictly worse; the last is the trained filter |
| `BurgTheory.FilterEnds` | src/Regulator.cpp:163-169 | the filter leads with 1 and its newest coefficient is the reflection coefficient |
| `BurgTheory.PredictionHasZeroError` | src/Regulator.cpp:186-195 | each predicted sample has zero forward error under [1] followed by the coefficients |
| `BurgTheory.ContinuationHasZeroError` | src/Regulator.cpp:133-195 | training then predicting: from the re-predicted last history sample on, the continuation has zero forward error under the trained filter |
| `BurgTheory.Ladder` | src/Regulator.cpp:163-177 | the weighted squared backward errors of orders 0..k at n are those of orders 0..k-1 at n-1 plus the weighted squared forward error |
| `BurgTheory.PotentialNeverRises` | src/Regulator.cpp:186-195 | prediction never raises that weighted sum above its value at the end of the history |
| `BurgTheory.TrainingBudget` | src/Regulator.cpp:179-180 | the denominator's decrease over the stages pays for the weighted sum at the end of the history |
| `BurgTheory.PredictionIsBounded` | src/Regulator.cpp:133-195 | however long a history is continued, the square of every sample of the continuation is at most 2.00002 times the energy of the history |
| `Concealment.Channel.constructor` | src/Regulator.cpp:198-245 | silent history, empty run; the ring's write pointer starts in the middle |
| `Concealment.Channel.RingBufferPush` | src/Regulator.cpp:248-253 | the ring read from the write pointer is again the last packets in order |
| `Concealment.Channel.RingBufferPull` | src/Regulator.cpp:256-262 | fetches the packet the given number of places behind the write pointer |
| `Concealment.Channel.GatherRealPast` | src/Regulator.cpp:1088-1096 | gathers the last real packets, oldest first, although the float buffer is overwritten on the way |
| `Concealment.Channel.PredictFromOutputs` | src/Regulator.cpp:1098-1108 | the prediction buffer becomes the continuation of the last outputs by two packets |
| `Concealment.Channel.Mix` | src/Regulator.cpp:1110-1119 | the output is the predicted packet or silence for a glitch, the cross-fade directly after one, and otherwise the packet itself |
| `Concealment.Channel.BurgPacket` | src/Regulator.cpp:1070-1145 | each call appends one event to the run and leaves the output that the run's definition gives; the past outputs and the packet ring stay the last ones in order |
| `Concealment.OutputIsCausal` | src/Regulator.cpp:1070-1145 | an output never depends on later packets |
| `Concealment.RealPacketsPassThrough` | src/Regulator.cpp:1110-1116 | in every run a packet not directly after a loss is output unchanged |
| `Concealment.ConcealedPacketContinues` | src/Regulator.cpp:1098-1113 | in every run a lost packet is the continuation of the last outputs, directly after them, and silence until more than `past` packets have come |
| `Concealment.ConcealedPacketHasZeroError` | src/Regulator.cpp:1098-1107 | placed after the history that it continues, every sample of a concealed packet has zero forward error under the filter trained on that history |
| `Concealment.FirstPacketFadesIn` | src/Regulator.cpp:1110-1129 | in every run a packet directly after a loss is output between itself and the second packet predicted by that loss, starting at the prediction |
| `Concealment.FadeIsLinear` | src/Regulator.cpp:1114-1129 | that packet moves linearly from the second packet of the continuation to itself, by one part in fpp per sample |
| `Concealment.ConcealedPacketIsBounded` | src/Regulator.cpp:1098-1116 | in every run each concealed sample is within 2.00002 times the energy of the last outputs |
| `Concealment.BurstIsBounded` | src/Regulator.cpp:1098-1116 | over losses in a row, whose training history is more and more their own prediction, the bound compounds by 1 + 2.00002 fpp for each loss |
| `Regulator.PacketRing.constructor` | src/Regulator.cpp:297-300 | all stamps 0, nothing in, nothing out, no stash |
| `Regulator.PacketRing.PushPacket` | src/Regulator.cpp:612-627 | stores the packet and its stamp in the slot and moves the newest number only forward in the circular sense |
| `Regulator.PacketRing.InsertSlotNonBlocking` | src/Regulator.h:197-205 | a packet without a number changes nothing; any other is pushed |
| `Regulator.PacketRing.FindCandidate` | src/Regulator.cpp:654-707 | the search stops at the first new packet that is neither missing nor too old, or at the newest, and reports how many it passed and whether the first of them was good |
| `Regulator.PacketRing.PullPacket` | src/Regulator.cpp:630-712 | the whole new state and what is left in the transfer buffer, in all cases; it returns true exactly for a prediction |
| `Regulator.PacketRing.CountUnderrun` | src/Regulator.cpp:715-726 | the underrun is counted, and returns true exactly for a prediction; what it answers is in `PullAnswers` |
| `RegulatorTheory.NewestIsRight` | src/Regulator.cpp:620-626 | the asymmetric comparison finds the newer of two unbounded numbers exactly when the advance is below half the ring or does not wrap, or the lateness is at most half the ring and does not wrap |
| `RegulatorTheory.ArriveTracks` | src/Regulator.cpp:612-627 | an in-order push keeps the ring standing for unbounded numbers |
| `RegulatorTheory.ArriveStores` | src/Regulator.cpp:616-619 | every packet within one ring of the newest is still in its slot with its stamp |
| `RegulatorTheory.BehindIsTrue` | src/Regulator.cpp:656-664 | circular distances and slots are the true ones while fewer than 4096 numbers are outstanding |
| `RegulatorTheory.PlayTracks` | src/Regulator.cpp:630-712 | a pull keeps the ring standing for unbounded numbers; a stash lies in (last out, newest in] |
| `RegulatorTheory.PlayAdvances` | src/Regulator.cpp:644-704 | a pull delivers nothing, or one number newer than all delivered and no newer than the newest pushed |
| `RegulatorTheory.PlayConserves` | src/Regulator.cpp:684-704 | the skip counter and the deliveries change by exactly what the last number out and a pending stash change by, through the deferral path too |
| `RegulatorTheory.EveryRunIsSafe` | src/Regulator.cpp:612-712 | over every in-window run: strictly increasing deliveries, and deliveries after the first plus overruns equal last out minus first out plus what a pending stash has passed |
| `RegulatorTheory.FreshIsSafe` | src/Regulator.cpp:612-712 | in particular over every such run from the empty ring |
| `RegulatorTheory.PlayIsFaithful` | src/Regulator.cpp:665-689 | with harmless holes a pull hands out the bytes pushed under the number it delivers |
| `RegulatorTheory.EveryRunIsFaithful` | src/Regulator.cpp:665-689 | over every run whose holes stay harmless the delivered bytes are those pushed under the delivered numbers |
| `RegulatorTheory.ArriveRemembers` | src/Regulator.cpp:616-619 | every slot carries its initial stamp or the stamp of some number pushed into it |
| `RegulatorTheory.PacedHolesAreHarmless` | src/Regulator.cpp:637-689 | arrivals that keep the pace leave only holes that the missing test or the tolerance passes over, before and after the first delivery |
| `RegulatorTheory.EarlyHoleIsPlayed` | src/Regulator.cpp:665-689 | a never-filled slot directly after the last one out is played if and only if that packet arrived within the tolerance of the start and the packet after the hole is acceptable |
| `RegulatorTheory.EarlyHoleExample` | src/Regulator.cpp:665-689 | such a run: packets 5 and 7 arrive, 6 is lost, and slot 6 is played |
| `RegulatorTheory.ArriveKeepsYoungest` | src/Regulator.cpp:616-626 | with non-decreasing stamps the newest packet keeps the youngest stamp |
| `RegulatorTheory.NewerPacketIsFound` | src/Regulator.cpp:654-711 | with a newer packet in the ring a pull never ends in the final underrun: it delivers, or it conceals and stashes |
| `RegulatorTheory.TwoPullsDeliver` | src/Regulator.cpp:644-711 | any two consecutive pulls, whatever arrives between them, deliver a real packet |
| `RegulatorTheory.EveryRunKeepsYoungest` | src/Regulator.cpp:612-627 | over every run with non-decreasing stamps the newest packet keeps the youngest stamp |
| `RegulatorTheory.EveryRunProgresses` | src/Regulator.cpp:644-711 | after every run from the start with non-decreasing stamps: a pull with a newer packet in the ring does not underrun, and two pulls deliver a real packet |
| `RegulatorTheory.ChosenPacketIsOldest` | src/Regulator.cpp:661-707 | the chosen packet is the oldest that is not missing and within tolerance, or else the newest |
| `RegulatorTheory.PullAnswers` | src/Regulator.cpp:630-726 | silence only before the first packet or the tolerance; a stashed packet first; otherwise without a real packet a prediction, unless the newest packet has been played and is more than 512 ms old: then zeros; an underrun is counted exactly when the answer is not real and nothing is stashed |
| `RegulatorTheory.PullPlaysOldest` | src/Regulator.cpp:654-707 | in unbounded numbers: the oldest playable packet is played if it is next, kept behind the one present packet before it, or else kept while the pull conceals and counts what it passes; the whole new state |
| `RegulatorTheory.NothingPlayable` | src/Regulator.cpp:710-726 | with newer numbers but none playable the pull conceals and counts an underrun |
| `RegulatorTheory.EveryRunAnswers` | src/Regulator.cpp:630-726 | after every run from the start with non-decreasing stamps: zeros exactly at the start or 512 ms after the newest packet when that has been played, and the underruns are exactly the pulls that found nothing newer |
| `Redundancy.Sender.SendPacketRedundancy` | src/UdpDataProtocol.cpp:1064-1102 | the datagram holds the newest packets, newest first, and the 16-bit number advances modulo 65536 |
| `Redundancy.ShiftedDatagram` | src/UdpDataProtocol.cpp:1084-1088 | shifting the window and putting the packet in front turns the previous datagram into the next one |
| `Redundancy.UdpReceiver.ReceivePacketRedundancy` | src/UdpDataProtocol.cpp:924-1028 | the whole new receiver state and all audio writes, for accepted, rejected and malformed datagrams |
| `Redundancy.UdpReceiver.FindExpected` | src/UdpDataProtocol.cpp:963-975 | the walk back stops at the first packet that precedes the expected one, or at the oldest aboard |
| `Redundancy.UdpReceiver.SendToAudio` | src/UdpDataProtocol.cpp:1003-1027 | packets are written oldest first under the newest number, the gap with the first only |
| `RedundancyTheory.FilterIsSerial` | src/UdpDataProtocol.cpp:942-961 | within the horizon the 16-bit filter accepts exactly advances of 1 to 1001 and computes the true number missed |
| `RedundancyTheory.HorizonIsExact` | src/UdpDataProtocol.cpp:942-944 | one number beyond the horizon, either way, the filter accepts a number it should not |
| `RedundancyTheory.ScanFindsWanted` | src/UdpDataProtocol.cpp:963-975 | the walk finds the wanted packet if and only if the last number is not 65535 or the datagram does not reach back to it |
| `RedundancyTheory.ArriveWrites` | src/UdpDataProtocol.cpp:939-1027 | one accepted datagram writes the packets from where the walk stops up to its own, in order, under its number, the gap with the first; writes plus gap equal the advance, at the wrap too; a rejected one writes nothing |
| `RedundancyTheory.NothingTruncated` | src/UdpDataProtocol.cpp:983-995 | with equal settings on both ends the size guards never bind |
| `RedundancyTheory.EveryRunKeepsInvariant` | src/UdpDataProtocol.cpp:939-1027 | over every run of dropped, duplicated and reordered datagrams, across the wrap: writes plus gaps equal the advance; every write is a packet that was sent; a packet is written if and only if an accepted datagram carried it; the positive gaps add up to what no accepted datagram carried |
| `RedundancyTheory.EveryRunIsInOrder` | src/UdpDataProtocol.cpp:963-1027 | a run writes in strictly increasing order, none twice, if and only if no accepted datagram reaches back beyond a last number of 65535 |
| `RedundancyTheory.LossIsHiddenExactlyWhenCarried` | src/UdpDataProtocol.cpp:1104-1141 | the positive gaps are 0 if and only if fewer than `factor` consecutive datagrams were missed each time, if and only if every packet was aboard an accepted datagram; in order, the payloads written are then exactly those sent |
| `RedundancyTheory.FirstPacketGap` | src/UdpDataProtocol.cpp:959-998 | the first datagram after (re)initialisation reports gap 0 if and only if it carries one packet or its number follows the stale one; otherwise the gap is negative |
| `RedundancyTheory.FirstPacketGapExample` | src/UdpDataProtocol.cpp:959-998 | a fresh receiver reports a gap of -1 for a first datagram with packets 5 and 4 |
| `RedundancyTheory.WrapReplaysPackets` | src/UdpDataProtocol.cpp:964-998 | at a last number of 65535 a datagram that reaches back further than needed replays packets already written, with a negative gap |
| `RedundancyTheory.GivesUpOnSixth` | src/UdpDataProtocol.cpp:945-953 | the filter re-initialises exactly on a rejection after five or more since the last acceptance, and then clears the total count |
| `RedundancyTheory.GivesUpAfterSixInARow` | src/UdpDataProtocol.cpp:945-960 | over runs of arrivals: the receiver's count is the number of arrivals since the last accepted one, and a run re-initialises if and only if its last six arrivals were all rejected |
| `RedundancyTheory.EveryRunCounts` | src/UdpDataProtocol.cpp:945-977 | every run accounts for every number passed (accepted or lost), every arrival (accepted or out of order) and every packet written (accepted or revived) |
| `RedundancyTheory.LayoutBounds` | src/UdpDataProtocol.cpp:983-998 | a datagram whose sizes do not fit writes nothing and leaves the last number; a short one writes only what fits and reports the rest in the gap |
| `EndToEnd.FeedIsPushes` | src/UdpDataProtocol.cpp:1019 | feeding the writes of a datagram to the ring is the same as arrivals of its unbounded number |
| `EndToEnd.FeedKeepsInvariant` | src/UdpDataProtocol.cpp:1000-1026 | all packets of a datagram are pushed under one number: only the newest payload stays in the ring |
| `EndToEnd.DatagramKeepsInvariant` | src/Regulator.cpp:616-626 | after every datagram, across the wrap, the ring's newest slot is the newest accepted number modulo 4096, and both machines' invariants hold |
| `EndToEnd.HeardIsSent` | src/Regulator.cpp:630-712 | over every run of datagrams and pulls, across the wrap, the packets played have strictly increasing numbers and are byte for byte the packets sent under them |
| `EndToEnd.RevivedIsNeverPlayed` | src/UdpDataProtocol.cpp:1000-1026 | over every run a packet is written if and only if an accepted datagram carried it, but is in the ring if and only if its own datagram was accepted, and only then played |
| `EndToEnd.StartIsInvariant` | src/UdpDataProtocol.cpp:939-1027 | the first datagram after (re)initialisation, whatever the stale number, fed to an unused ring starts in the invariant |
| `EndToEnd.PacedRunIsHeard` | src/Regulator.cpp:630-712 | from the first datagram on, every run whose arrivals keep the pace is heard as it was sent, in order |
| `Circular.WriteKeepsMirror` | src/JitterBuffer.cpp:181-188 | a wrapped write keeps the ring equal to the last bytes of the stream |
| `Circular.ReadMirrored` | src/JitterBuffer.cpp:235-242 | a wrapped read inside the window yields the stream |
| `JitterBuffer.JitterBuffer.constructor` | src/JitterBuffer.cpp:50-117 | zeroed ring, write position at the initial latency |
| `JitterBuffer.JitterBuffer.CopyIn` | src/JitterBuffer.cpp:181-187 | the copy in one or two pieces overwrites exactly the addressed circle of bytes |
| `JitterBuffer.JitterBuffer.CopyOut` | src/JitterBuffer.cpp:236-242 | the copy out in one or two pieces is the addressed circle of bytes |
| `JitterBuffer.JitterBuffer.PadZeros` | src/JitterBuffer.cpp:341-354 | lost bytes become zeros of the stream, also when they exceed the whole ring |
| `JitterBuffer.JitterBuffer.InsertSlotNonBlocking` | src/JitterBuffer.cpp:120-191 | the stream grows by the padding and the packet; every position and counter moves as specified; false, with no change, only for a packet larger than the ring |
| `JitterBuffer.JitterBuffer.DecideJump` | src/JitterBuffer.cpp:147-171 | which of the five latency decisions is taken, and what it counts |
| `JitterBuffer.JitterBuffer.UpdatePositions` | src/JitterBuffer.cpp:146-179 | the read position jumps by the decided amount and the direction is remembered |
| `JitterBuffer.JitterBuffer.DropForLoss` | src/JitterBuffer.cpp:315-340 | how much of an announced loss is dropped and how much is left to pad |
| `JitterBuffer.JitterBuffer.ProcessPacketLoss` | src/JitterBuffer.cpp:315-355 | an announced loss is dropped in part and padded with zeros in part, and counted |
| `JitterBuffer.JitterBuffer.ReadSlotNonBlocking` | src/JitterBuffer.cpp:194-248 | inside the window every byte read is the byte of the stream at its position, 0 past the write position; silence before the first packet |
| `JitterBuffer.JitterBuffer.ReadBroadcastSlot` | src/JitterBuffer.cpp:251-312 | every byte of an uninterpolated broadcast read is the byte of the stream at its position; silence before the broadcast latency is reached |
| `JitterBuffer.JitterBuffer.MoveListener` | src/JitterBuffer.cpp:259-281 | the listener snaps, skips, interpolates or stays, and counts it |
| `JitterTheory.InsertKeepsBalance` | src/JitterBuffer.cpp:137-188 | every insert, of any length and with any loss, keeps occupancy corrected by all counters constant |
| `JitterTheory.ReadKeepsBalance` | src/JitterBuffer.cpp:202-247 | every read keeps it constant |
| `JitterTheory.InsertLands` | src/JitterBuffer.cpp:124-189 | where an insert puts the reader: on the write position after a hopeless lead, forward by the drop step when the latency would be exceeded, back to meet the packet (by at most a slot) when it has run ahead at a low level, back by a slot at a too low level, else nowhere |
| `JitterTheory.InsertCounts` | src/JitterBuffer.cpp:137-179 | what such an insert counts, in terms of how far the reader moved, and the memory of the last jump |
| `JitterTheory.ReaderNeverSkipsAhead` | src/JitterBuffer.cpp:146-174 | without an overflow no insert moves the reader forward, nor back by more than a slot, except for the reset, exactly to the write position |
| `JitterTheory.LevelIsRounded` | src/JitterBuffer.cpp:142 | the reported level is the level rounded up to whole slots |
| `JitterTheory.LossLands` | src/JitterBuffer.cpp:315-354 | how much of a loss is padded: what fits into the latency beside the packet, all but a slot when latency should shrink, or all; the rest is counted as dropped; then the insert goes on as without a loss |
| `JitterTheory.ReadLands` | src/JitterBuffer.cpp:194-248 | a read moves on by a slot, counts the missing bytes, and the level follows the occupancy |
| `JitterTheory.PaddingNeverOverflows` | src/JitterBuffer.cpp:319-354 | an insert that pads never takes the overflow branch |
| `JitterTheory.InsertKeepsSane` | src/JitterBuffer.cpp:120-191 | an insert keeps the read position non-negative and the occupancy within the latency plus one slot |
| `JitterTheory.ReadKeepsSane` | src/JitterBuffer.cpp:194-248 | so does a read |
| `JitterTheory.EveryRunFits` | src/JitterBuffer.cpp:119-248 | over every run from the start no unread byte is overwritten and the balance never changes |
| `JitterTheory.OccupancyIsUnboundedWithoutDrop` | src/JitterBuffer.cpp:155-159 | with a drop step below a slot, occupancy passes every limit |
| `JitterTheory.DropStepSuffices` | src/JitterBuffer.cpp:83-103 | the drop step reaches a slot if and only if the strategy is 1 or 2, or the queue has two slots or more |
| `JitterTheory.StrategyNumbers` | src/JitterBuffer.cpp:54-103 | the sizes and tolerances that the strategies stand for |
| `JitterTheory.ConfigIsSized` | src/JitterBuffer.cpp:54-103 | the constructor's configuration meets the size conditions if and only if its two seconds leave room for the latency and a slot |
| `JitterTheory.ListenerMovesBySkew` | src/JitterBuffer.cpp:259-311 | one active broadcast call moves the listener by a slot plus exactly the steps it counts as skew |
| `JitterTheory.ListenerPosition` | src/JitterBuffer.cpp:255-311 | over every run the listener stands at slot size times active calls plus step size times skew |
| `JitterTheory.ListenerReads` | src/JitterBuffer.cpp:259-311 | where a broadcast read starts, and exactly when it interpolates or snaps |
| `JitterTheory.ListenerStaysClose` | src/JitterBuffer.cpp:259-281 | over every run an active listener is within half the broadcast latency, a step and one call's correction of its place |
| `JitterRuns.RunIsTracked` | src/JitterBuffer.cpp:120-248 | every run of packets with their bytes: the stream ends at the write position and the ring holds every unread byte |
| `JitterRuns.BytesComeOut` | src/JitterBuffer.cpp:181-247 | in every run, wherever a pull reaches a byte of a packet inserted before it, it hands out exactly that byte, in its place |
| `JitterRuns.EveryUnderrunRecovers` | src/JitterBuffer.cpp:161-165 | from any state of any run in which the reader is ahead by at most n slots at a low level (or any level, for a negative tolerance), the n-th packet is heard whole by the pull after it |
| `JitterRuns.MadeConfigMovesBack` | src/JitterBuffer.cpp:54-103 | the constructor's configurations recover so: at any level with strategies 0 and 1, below 2.9 slots with strategy 2 |
| `RingBuffer.RingBuffer.constructor` | src/RingBuffer.cpp:52-88 | half the slots start full of silence |
| `RingBuffer.RingBuffer.InsertSlotNonBlocking` | src/RingBuffer.cpp:150-185 | appends the slot to the queue or, when full, drops the oldest half and the slot; false, with no change, for a wrong length |
| `RingBuffer.RingBuffer.OverflowReset` | src/RingBuffer.cpp:262-272 | the oldest half leaves the queue and is counted with the incoming slot |
| `RingBuffer.RingBuffer.ReadSlotNonBlocking` | src/RingBuffer.cpp:188-218 | the front of the queue; on underrun silence or, in wavetable mode, the last slot really read |
| `RingBuffer.RingBuffer.UnderrunReset` | src/RingBuffer.cpp:248-258 | clears the empty ring and counts the underrun |
| `RingBuffer.RingBuffer.InsertSlotBlocking` | src/RingBuffer.cpp:100-119 | once there is room, the same as the non-blocking insert |
| `RingBuffer.RingBuffer.ReadSlotBlocking` | src/RingBuffer.cpp:122-147 | once there is a slot, the front of the queue |
| `RingBuffer.WriteHolds` | src/RingBuffer.cpp:177-181 | writing behind the queue extends it by the slot, across the wrap |
| `RingBuffer.AdvanceHolds` | src/RingBuffer.cpp:214-215 | moving the read position on drops the front of the queue, across the wrap |
| `RingBuffer.PutLands` | src/RingBuffer.cpp:150-185 | one insert in plain numbers: queue, counters, level |
| `RingBuffer.GetLands` | src/RingBuffer.cpp:188-218 | one read in plain numbers |
| `RingBuffer.EveryRunBalances` | src/RingBuffer.cpp:150-272 | every interleaving of non-blocking steps keeps the corrected slot count constant and within capacity, and the slot kept for replay is the last one really read |
| `RingBuffer.EveryRunAccounts` | src/RingBuffer.cpp:150-272 | every run delivers, still holds or has dropped each slot put, exactly once, and the overflow counter counts the dropped |
| `RingBuffer.EveryRunIsFifo` | src/RingBuffer.cpp:150-218 | every run hands slots out in the order they were put, none twice, none that overflow dropped, none lost otherwise |
| `Rechunking.RatioIsExact` | src/Regulator.cpp:382-390 | the integer ratio stands for the two sizes if and only if one divides the other |
| `Rechunking.ReadsStayInside` | src/Regulator.cpp:382-390 | every read stays inside the packet if and only if the sizes are cuttable; with packets of two slots or more, if and only if the slot size divides the packet size |
| `Rechunking.ThirdReadLeaves` | src/Regulator.cpp:1018-1033 | packets of 5 frames and slots of 2: the third read starts at frame 4 |
| `Rechunking.ReadsKeepUp` | src/Regulator.cpp:382-390 | the bytes read never exceed those pulled nor fall a whole packet or slot behind, for ever, if and only if one size divides the other |
| `Rechunking.SlotReader.constructor` | src/Regulator.cpp:346-390 | any two sizes: no packet pulled, nothing heard, the ratio of the source |
| `Rechunking.SlotReader.ReadSlotNonBlocking` | src/Regulator.cpp:960-1033 | where every byte of the slot comes from, for any two sizes, and whether all lie inside the packet; when one size divides the other, the bytes heard are always a prefix of the packets pulled, less than one packet or slot behind |
| `Rechunking.SlotReader.ReadWhole` | src/Regulator.cpp:989-1009 | several packets fill a slot from its front; for dividing sizes nothing is left over |
| `Rechunking.SlotReader.ReadPiece` | src/Regulator.cpp:1011-1033 | the slot is cut at the pull pointer, which moves on by a slot; inside the packet it continues where the last one ended |
| `Planar.Planarise` | src/UdpDataProtocol.cpp:1070-1081 | every interleaved sample reaches its planar place |
| `Planar.SamplePlaces` | src/UdpDataProtocol.cpp:1070-1081 | on the wire channel c is the c-th run of samples, in memory every chans-th sample |
| `Planar.Interleave` | src/UdpDataProtocol.cpp:1006-1017 | the channels both sides have are interleaved; all other places keep their value |
| `Planar.RoundTrip` | src/UdpDataProtocol.cpp:1002-1081 | receiver after sender is the identity for equal counts, and on the common channels otherwise |
| `Planar.ExtraChannelsStaySilent` | src/UdpDataProtocol.cpp:1002-1017 | over every run of packets the receiver's extra channels stay silent |
| `Patcher.HubPatcher.RegisterClient` | src/Patcher.cpp:59-186 | registering a client adds exactly its connections to the clients there already, to itself, and to the sound card |
| `Patcher.HubPatcher.ConnectServer` | src/Patcher.cpp:104-115 | the upmix of a mono client into the second physical output in the server modes |
| `Patcher.HubPatcher.ConnectSources` | src/Patcher.cpp:117-154 | connections from the new client's sending ports |
| `Patcher.HubPatcher.ConnectSinks` | src/Patcher.cpp:156-177 | connections from registered clients into the new client |
| `Patcher.RegisteredIsMatrix` | src/Patcher.cpp:104-183 | registering distinct clients one by one builds exactly the matrix that the mode wants |
| `Patcher.RegistrationIsOrderIndependent` | src/Patcher.cpp:104-183 | the same clients registered in two orders are connected alike |
| `Patcher.WhoIsConnected` | src/Patcher.cpp:42-183 | mode by mode, which port is connected to which: other clients, the client itself, equal channels, the upmix of an only sending port into channel 2 or the second physical output |
| `Patcher.RegisteredAgain` | src/Patcher.cpp:117-177 | registering a client again changes nothing unless the mode fans without looping and two of its ports match |

## Left out

- Sockets, polling, timers, threads, Qt signals, JACK and RtAudio callbacks, OSC, TLS, settings and user interface: input, output and library plumbing.
- `RegulatorWorker` and its wait-free queue: the re-chunking theorem is about the path without the worker.
- Automatic tolerance, headroom and the statistics behind them: the tolerance is an input, and may differ from call to call except where a theorem fixes it.
- Floating-point rounding and the conversion between bits and samples: concealment is stated on float buffers.
- Concealment.Channel.BurgPacket: models one channel; the source runs the same body for every channel with shared packet count and glitch flag.
- Regulator.PacketRing.PushPacket: the copy into the broadcast ring and the arrival statistics are not modelled.
- Regulator.PacketRing.InsertSlotNonBlocking: the first packet's call of `setFPPratio`, which allocates the ring, is not modelled.
- Regulator.PacketRing.FindCandidate: the push and latency statistics updated in the loop are not modelled; without automatic tolerance nothing depends on them.
- Regulator.PacketRing.PullPacket: the latency and arrival statistics updated on the way are not modelled; without automatic tolerance nothing depends on them. What processing does to the transfer buffer is modelled in `Concealment`.
- Rechunking.SlotReader.ReadSlotNonBlocking: pulls come from a given sequence of packets, the bytes behind the transfer buffer are a parameter, and the worker path and the silence before initialisation are not modelled.
- Redundancy.UdpReceiver.ReceivePacketRedundancy: simulated loss and jitter and the sink's refusal of a packet (which stops the receiver) are not modelled, nor is the counter of statistics requests.
- Redundancy.UdpReceiver.SendToAudio: the sink's refusal of a packet, which stops the receiver, is not modelled.
- JitterBuffer.JitterBuffer.ReadSlotNonBlocking: the estimators of the automatic queue are not modelled.
- JitterBuffer.JitterBuffer.ReadBroadcastSlot: the position and the counters of an interpolated read are modelled, its interpolated sample values are not.
- JitterBuffer.JitterBuffer.InsertSlotNonBlocking: the automatic queue (which changes the maximum latency) is off, and its estimators are not modelled.
- RingBuffer.RingBuffer.InsertSlotBlocking: one atomic step, taken when the wait for room is over; steps of other threads between its statistics and its copy are not modelled.
- RingBuffer.RingBuffer.ReadSlotBlocking: one atomic step, taken when the wait for a slot is over; the early return when audio has stopped is not modelled.
- Patcher.HubPatcher.RegisterClient: ports, mode and upmix are fixed while clients register; opening the JACK client and its failure are not modelled.
- `unregisterClient` only forgets names; the connections of a departed client are removed by JACK.
- The sample FIFO of `src/AudioSocket.cpp`: it would add a simpler circular queue of the kind already proved.
- Wavetable, WAIR, WebRTC and effects beyond the underrun replay: no further protocol state.
