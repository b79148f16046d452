# Verification of the TK8620 ExpressLRS link layer

This project models the link-layer code of the ExpressLRS port to the TK8620 radio and
proves properties of it with Dafny 4.11. `dafny verify dfyconfig.toml` checks everything.

The firmware is C and keeps its state in structures that every call updates. Each part is
modelled twice and the two are proved equal: a class whose fields and loops are those of
the source, and a state machine on values that the class refines. The theorems about whole
runs are stated on the state machine. Counters have their C widths and wrap where the
source lets them (`Widths`); integers that the source shifts and XORs are bit strings
(`BitWord`). Drivers, clocks, flash and the radio are inputs: every call may report
failure, and what a failing flash holds is arbitrary.

What is proved, by component:

- **Stubborn transfer** (`StubbornEndpoints`, `StubbornLink`, `StubbornRecovery`,
  `StubbornDelivery`, `TelemetryPort`, `TelemetryProgress`, `TelemetryUnit`). An
  alternating-bit transfer of chunked messages. Over a lossy synchronous link every run from
  reset is exactly-once; from any pair of states lossless rounds make the sender idle within
  an explicit bound, and then at most two messages are lost; a completed resync restores the
  phase. A message is delivered over any losses that the patience outlasts. It arrives on a
  clean link if and only if its chunks do not reach the resync index. The receiver's
  telemetry driver is a run of this link, and the two ends' objects under their main
  programs keep its invariant.
- **Two-phase rate change** (`RateSwitch`, `RateChangeRun`, `RateChangeProgress`,
  `RateChangeUnit`). A timed protocol of two wrapping clocks: PREPARE moves nothing, COMMITs
  stop at the committed instant, the receiver moves first and both ends agree on rate and
  telemetry denominator.
- **Queues on rings** (`ByteFifo`, `LengthPrefixed`, `TelemetryParser`, `TelemetrySpec`,
  `TelemetryQueue`, `TelemetryGuarantees`, `MspQueue`, `AirportRing`, `AirportConcurrency`).
  The UART parser hands on exactly the checked frames of the stream. The byte ring with
  records, tombstones, in-place overwrite, priorities and eviction refines a list with one
  newest frame per key; the MSP queue is in order; the AirPort ring is linearizable under
  every interleaving of producer and consumer micro-steps.
- **CRC** (`Crc`, `ReflectedCrc`, `PacketCrc`). Table-driven and bitwise forms equal the
  bit-serial division circuit for every message, start value and polynomial; the step is a
  bijection; bursts up to the register width are noticed; packets of different bindings or
  modes are never mixed.
- **Configuration** (`ConfigFrames`, `ConfigFilter`, `ConfigRecord`, `ConfigSession`,
  `ConfigUnit`, `ConfigDialogue`, `ConfigParser`). The stream filter loses and invents
  nothing and captures every built frame after noise; the stored mode survives; sessions
  obey only their own challenge; the host tool's streaming parser equals the batch one and
  undoes both builders.
- **Receiver firmware update** (`RxOtaMeta`, `RxOtaSender`, `RxOtaCoverage`,
  `RxOtaProgress`, `RxOtaUnit`). What is sent covers the whole image, reads stay in the
  staging region, progress is monotone.
- **Link quality, hopping, channels** (`LinkQuality`, `LinkQualityTrackers`, `FhssSequence`,
  `FhssShuffle`, `Fhss`, `ChannelBits`, `ChannelCodec`). Packed rings against windows over
  the history; the seeded shuffle for every seed; the 11-to-10-bit codec across both ends.

Where code and expectation part, the code is kept and the difference proved:

- the exactly-once transfer needs no bound on the number of chunks, although the index is
  cut to five bits on the air, but delivery does (`StubbornRecovery.CleanTransfer`);
  messages of 64 bytes need at most 11 chunks, well below the limit of 31;
- a rate change between the arrival of a chunk and its acknowledgement can change its size:
  the receiver then finishes a message that is not the one sent
  (`TelemetryPort.ReconfigureCorruptsMessage`), and the ends stay in step exactly when both
  sizes carry the same bytes
  (`StubbornLink.ResentChunkKeepsStep`, `TelemetryPort.ReconfigureKeepsStep`);
- the receiver's link quality shows 100 exactly until its window is full for the first
  time (`LinkQualityTrackers.FullMarks`);
- the telemetry parser lets extended frames of 4 and 5 bytes through, which the queue's
  comparators do not expect (`TelemetryParser.ShortDeviceInfoIsAccepted`,
  `TelemetryParser.ShortDeviceInfoIsMisread`).

Four facts concern functions beyond what their callers ask of them: `ensure` for the full
ring size (`MspQueue.EnsureEndsBelowFullSize`), an empty MSP message
(`MspQueue.EmptyMessageLosesOrder`), skipping more bytes than a ring holds
(`ByteFifo.Fifo.Skip`), and sealing a short packet whose CRC field is not zero, which no
rate of the table sends (`PacketCrc.StdNeedsClearField`).

## Model

| member | source | states |
|---|---|---|
| StubbornEndpoints.GetPayload | applications/ELRS_Common/ELRS/src/lib/StubbornSender/stubborn_sender.c:55-91 | asking for a payload changes nothing but the phase and the remembered length, never reaches past the message, and always fills the requested field |
| StubbornEndpoints.Confirm | applications/ELRS_Common/ELRS/src/lib/StubbornSender/stubborn_sender.c:93-158 | a confirm bit never changes message, limits or patience, and moves the offset either not at all or by the last payload, modulo 256 |
| StubbornEndpoints.Overlay | applications/ELRS_Common/ELRS/src/lib/StubbornReceiver/stubborn_receiver.c:104-118 | bytes copied into the buffer from an offset: as many as fit, the rest of the buffer untouched |
| StubbornEndpoints.StubbornSender.constructor | applications/ELRS_Common/ELRS/src/lib/StubbornSender/stubborn_sender.c:189-199 | zeroed static storage with the functions set: idle, no message, every field zero, so that the first `SetMaxPackageIndex` resets it |
| StubbornEndpoints.StubbornSender.ResetState | applications/ELRS_Common/ELRS/src/lib/StubbornSender/stubborn_sender.c:18-32 | the state of the reset, with the offset inside the message and the patience in range |
| StubbornEndpoints.StubbornSender.SetMaxPackageIndex | applications/ELRS_Common/ELRS/src/lib/StubbornSender/stubborn_sender.c:9-16 | a new limit resets the sender, the same one does nothing; offset and patience stay in range |
| StubbornEndpoints.StubbornSender.SetDataToTransmit | applications/ELRS_Common/ELRS/src/lib/StubbornSender/stubborn_sender.c:37-49 | refines the submission of a message, which interrupts a resync without ending it; the offset stays inside the message |
| StubbornEndpoints.StubbornSender.GetCurrentPayload | applications/ELRS_Common/ELRS/src/lib/StubbornSender/stubborn_sender.c:55-91 | the fields and packet after the call are those of `GetPayload`, in every phase, and the chunk on offer is part of the message |
| StubbornEndpoints.StubbornSender.ConfirmCurrentPayload | applications/ELRS_Common/ELRS/src/lib/StubbornSender/stubborn_sender.c:93-158 | the fields after the call are those of `Confirm`: advance, closing packet, resync, give-up; the offset stays inside the message when the chunk on offer was part of it |
| StubbornEndpoints.StubbornSender.UpdateTelemetryRate | applications/ELRS_Common/ELRS/src/lib/StubbornSender/stubborn_sender.c:165-178 | the patience follows ratio and burst as `UpdateRate` says and stays in range |
| StubbornEndpoints.PatienceIsBounded | applications/ELRS_Common/ELRS/src/lib/StubbornSender/stubborn_sender.c:165-178 | for every ratio and burst the patience is twenty times a number between the ratio and twice the ratio: at most 10200, so the 16-bit store never truncates |
| StubbornEndpoints.Hear | applications/ELRS_Tx/tx_main.c:519 | the index reaches the receiver cut to the bits of the limit: the limit plus one reads as zero; buffer and limit never change size |
| StubbornEndpoints.StubbornReceiver.constructor | applications/ELRS_Common/ELRS/src/lib/StubbornReceiver/stubborn_receiver.c:150-165 | a receiver without a buffer, waiting for package 1 |
| StubbornEndpoints.StubbornReceiver.ResetState | applications/ELRS_Common/ELRS/src/lib/StubbornReceiver/stubborn_receiver.c:22-31 | refines the reset of the receiver state; the finished flag stays |
| StubbornEndpoints.StubbornReceiver.SetMaxPackageIndex | applications/ELRS_Common/ELRS/src/lib/StubbornReceiver/stubborn_receiver.c:8-20 | a new limit resets the receiver, the same one does nothing |
| StubbornEndpoints.StubbornReceiver.SetDataToReceive | applications/ELRS_Common/ELRS/src/lib/StubbornReceiver/stubborn_receiver.c:42-53 | a new buffer starts empty at package 1 |
| StubbornEndpoints.StubbornReceiver.ReceiveData | applications/ELRS_Common/ELRS/src/lib/StubbornReceiver/stubborn_receiver.c:55-125 | buffer and fields after a packet are those of `Receive`: resync, close, accept, duplicate of the first chunk, ignore |
| StubbornEndpoints.StubbornReceiver.UnlockData | applications/ELRS_Common/ELRS/src/lib/StubbornReceiver/stubborn_receiver.c:136-148 | frees the buffer only when a message is finished |
| StubbornLink.AcknowledgeKeepsLink | applications/ELRS_Common/ELRS/src/lib/StubbornSender/stubborn_sender.c:93-158 | the relation between the two ends survives an acknowledgement, and the sender goes idle, other than out of a resync, only when its message was completed |
| StubbornLink.DeliverFirstAccepted | applications/ELRS_Common/ELRS/src/lib/StubbornReceiver/stubborn_receiver.c:81-118 | a first chunk at a fresh receiver is taken and the ends stay related |
| StubbornLink.DeliverFirstRepeated | applications/ELRS_Common/ELRS/src/lib/StubbornReceiver/stubborn_receiver.c:88-103 | a repeated first chunk is either recognised or replaces the copy, and the ends stay related |
| StubbornLink.DeliverLaterAccepted | applications/ELRS_Common/ELRS/src/lib/StubbornReceiver/stubborn_receiver.c:85-118 | a later chunk at the receiver's position is taken and the ends stay related |
| StubbornLink.DeliverLastAccepted | applications/ELRS_Common/ELRS/src/lib/StubbornReceiver/stubborn_receiver.c:82-118 | the last chunk finishes the message: the buffer then starts with exactly the sender's bytes |
| StubbornLink.DeliverLaterIgnored | applications/ELRS_Common/ELRS/src/lib/StubbornReceiver/stubborn_receiver.c:64-118 | a duplicate is ignored, and an index that collides with the resync index resets the receiver without ever completing |
| StubbornLink.DeliverControl | applications/ELRS_Common/ELRS/src/lib/StubbornReceiver/stubborn_receiver.c:64-118 | closing and resync packets keep the ends related |
| StubbornLink.OfferKeepsLink | applications/ELRS_Common/ELRS/src/lib/StubbornSender/stubborn_sender.c:55-91 | offering a chunk, whether or not it then arrives, keeps the relation between the ends: in any size while it is untaken, with the same bytes once it is taken |
| StubbornLink.StepInv | applications/ELRS_Common/ELRS/src/lib/StubbornSender/stubborn_sender.c:37-158 | every allowed step of the link keeps the relation and the history, for any package limit of at least 2, any chunk count and any patience |
| StubbornLink.ExactlyOnce | applications/ELRS_Common/ELRS/src/lib/StubbornSender/stubborn_sender.c:37-158 | in every run from reset in which a taken chunk is offered again only with the same bytes, completed messages are an in-order selection without duplicates of the submitted ones, consumed ones of the completed ones, and a finished buffer starts with the bytes of its message |
| StubbornLink.IdleMeansDelivered | applications/ELRS_Common/ELRS/src/lib/StubbornSender/stubborn_sender.c:109-133 | when the sender goes idle, other than out of a resync, its message has been completed exactly once |
| StubbornLink.ResentChunkKeepsStep | applications/ELRS_Common/ELRS/src/lib/StubbornSender/stubborn_sender.c:72-133 | a chunk the receiver took in one size and the sender offers again in another, when it is acknowledged: the ends are in step, and an idle sender has delivered, if and only if both sizes carry the same bytes of the message (or the chunk index is the one taken for a resync and neither size ends the message) |
| StubbornRecovery.SendingRoundMoves | applications/ELRS_Common/ELRS/src/lib/StubbornSender/stubborn_sender.c:93-133 | a lossless round moves the offset or uses up patience |
| StubbornRecovery.RoundShrinks | applications/ELRS_Common/ELRS/src/lib/StubbornSender/stubborn_sender.c:93-158 | from any pair of states each lossless round lowers the bound on the rounds left |
| StubbornRecovery.Stabilises | applications/ELRS_Common/ELRS/src/lib/StubbornSender/stubborn_sender.c:93-158 | from any pair of states, lossless rounds of any sizes make the sender idle within that bound |
| StubbornRecovery.RoundsBound | applications/ELRS_Common/ELRS/src/lib/StubbornSender/stubborn_sender.c:93-158 | the bound: bytes times (patience + 2), plus twice the patience, plus 7 |
| StubbornRecovery.StabilisesAtEveryRate | applications/ELRS_Common/ELRS/src/lib/StubbornSender/stubborn_sender.c:165-178 | at every ratio and burst that can be set, from any contents of both structures, lossless rounds make the sender idle within one bound: bytes times 10202, plus 20407 |
| StubbornRecovery.ResyncRestoresPhase | applications/ELRS_Common/ELRS/src/lib/StubbornReceiver/stubborn_receiver.c:64-73 | a completed resync leaves the receiver at package 1 with the bit that is not awaited, whatever both ends held before |
| StubbornRecovery.ResyncThenSendRestoresPhase | applications/ELRS_Common/ELRS/src/lib/StubbornSender/stubborn_sender.c:134-148 | the same when a message was submitted during the resync |
| StubbornRecovery.CleanTransfer | applications/ELRS_Common/ELRS/src/lib/StubbornSender/stubborn_sender.c:55-158 | on a clean link a message arrives whole if and only if it needs no more chunks than the resync index counts |
| StubbornRecovery.MessageSettles | applications/ELRS_Common/ELRS/src/lib/StubbornSender/stubborn_sender.c:37-158 | whatever the receiver held, one message on a clean link leaves the sender idle, the confirm bit not the awaited one, and the receiver finished or at package 1 |
| StubbornRecovery.RecoversDelivery | applications/ELRS_Common/ELRS/src/lib/StubbornSender/stubborn_sender.c:37-158 | from any contents of both structures, once the sender is idle, at most two messages are lost or spoilt on a clean link: the third and every later one that buffer and indices can carry is delivered whole |
| StubbornRecovery.ReplacementIsDelivered | applications/ELRS_Common/ELRS/src/lib/StubbornSender/stubborn_sender.c:37-49 | a message given to a busy sender aborts the one under way and, after the resync, arrives on a clean link exactly when its chunks fit the index, whatever both ends held |
| StubbornRecovery.ResetForgets | applications/ELRS_Common/ELRS/src/lib/StubbornSender/stubborn_sender.c:18-32 | a reset forgets everything but message and limit; its patience is that of ratio 2 and burst 1 |
| StubbornRecovery.ResetEndsDeliver | applications/ELRS_Common/ELRS/src/lib/StubbornReceiver/stubborn_receiver.c:22-53 | two reset ends, the receiver with a new buffer, deliver the next message whatever they held |
| StubbornDelivery.RepeatsAreTakenOnce | applications/ELRS_Common/ELRS/src/lib/StubbornReceiver/stubborn_receiver.c:94-125 | however often a chunk arrives, the receiver takes it once |
| StubbornDelivery.RepeatsExactly | applications/ELRS_Common/ELRS/src/lib/StubbornReceiver/stubborn_receiver.c:98-108 | a second arrival of a chunk changes nothing if and only if it is a later one or its field fits the receive buffer |
| StubbornDelivery.WaitsOutPatience | applications/ELRS_Common/ELRS/src/lib/StubbornSender/stubborn_sender.c:100-107 | wrong bits in a row only count; exactly the one that makes the count exceed the limit starts the resync |
| StubbornDelivery.PlayMoves | applications/ELRS_Common/ELRS/src/lib/StubbornSender/stubborn_sender.c:55-158 | a turn with packet and acknowledgement brings the transfer one step further; one without leaves it where it is, at the cost of at most one miss |
| StubbornDelivery.LossyTransfer | applications/ELRS_Common/ELRS/src/lib/StubbornSender/stubborn_sender.c:55-158 | whatever is lost and repeated, if no stretch without a full exchange outlasts the patience, then after as many full exchanges as the message has chunks it has arrived byte for byte and the sender is idle |
| TelemetryPort.TransmissionIsSend | applications/ELRS_Rx/rx_main.c:782-800 | putting the prepared packet on the air is a send of the link in the size it was prepared with |
| TelemetryPort.PortStepInv | applications/ELRS_Rx/rx_main.c:696-800 | the driver keeps one prepared packet equal to what the sender would offer again, and arms acknowledgements only for it |
| TelemetryPort.DriverIsExactlyOnce | applications/ELRS_Rx/rx_main.c:275-296 | every run of the receiver's telemetry driver from reset is exactly-once, if each of its rate changes that falls between a chunk's arrival and its acknowledgement keeps the bytes of that chunk; all other rate changes are free |
| TelemetryPort.ReconfigureKeepsStep | applications/ELRS_Rx/rx_main.c:975-994 | a rate change while a taken chunk awaits its acknowledgement: four driver events later the ends are in step if and only if it kept the bytes of the chunk, which is the condition of `DriverIsExactlyOnce` |
| TelemetryPort.ReconfigureCorruptsMessage | applications/ELRS_Rx/rx_main.c:975-994 | a run from reset of seven driver events, for every message of 11 to 16 bytes whose seventh and eleventh differ: a rate change after the first chunk ends with the message finished in a buffer that does not hold it |
| TelemetryProgress.BurstLength | applications/ELRS_Rx/rx_main.c:730-752 | after link statistics exactly the burst of data packets, at least one, and then link statistics again |
| TelemetryProgress.LinkStatistics | applications/ELRS_Rx/rx_main.c:716-741 | link statistics take the small field and begin a new burst; without a message every packet is one |
| TelemetryProgress.IdleSendsStatistics | applications/ELRS_Rx/rx_main.c:782-787 | an idle driver sends fresh link statistics after every transmission and listens to no acknowledgement |
| TelemetryProgress.BusyRepeats | applications/ELRS_Rx/rx_main.c:789-800 | a busy driver repeats exactly the prepared packet |
| TelemetryProgress.PolledMessageIsDelivered | applications/ELRS_Rx/rx_main.c:1511-1518 | a polled message is delivered and the driver idle again after no more full exchanges than the message has bytes, plus two, whatever the mixture of field sizes |
| TelemetryUnit.TelemetryLink.constructor | applications/ELRS_Rx/rx_main.c:985-986 | after start-up both ends are reset with one package limit: a start of the driver |
| TelemetryUnit.TelemetryLink.HandleSendTelemetryResponse | applications/ELRS_Rx/rx_main.c:696-780 | the sender object and the prepared packet move as the driver prepares: link statistics in six bytes, data in ten, in bursts |
| TelemetryUnit.TelemetryLink.SendTelemetry | applications/ELRS_Rx/rx_main.c:1511-1518 | an idle sender object takes the message; the invariant of the exactly-once theorem is kept |
| TelemetryUnit.TelemetryLink.TxDoneIsr | applications/ELRS_Rx/rx_main.c:782-800 | the packet reaches the receiver object or not; the same packet is repeated until acknowledged; the invariant is kept |
| TelemetryUnit.TelemetryLink.ProcessRcPacket | applications/ELRS_Rx/rx_main.c:282-293 | the receiver object's confirm bit moves the sender object, a moved sender prepares anew; the invariant is kept |
| TelemetryUnit.TelemetryLink.TakeFinishedData | applications/ELRS_Tx/tx_main.c:1383-1392 | what is taken out of the receive buffer is, byte for byte, a submitted message, later than every one taken before |
| TelemetryUnit.TelemetryLink.UpdateTelemetryBurst | applications/ELRS_Rx/rx_main.c:1291-1305 | a new patience and burst keep the invariant |
| TelemetryUnit.TelemetryLink.SetRfLinkRate | applications/ELRS_Rx/rx_main.c:975-994 | a rate change drops the prepared packet; the invariant survives when the next one keeps the bytes of a taken chunk |
| RateSwitch.CommitTicks | applications/ELRS_Common/ELRS/src/include/rate_switch.h:14-18 | the countdown is rounded up by less than a tick up to 2550 ms and saturates above |
| RateSwitch.PrepareChangesNothing | applications/ELRS_Rx/rx_main.c:493-519 | a PREPARE leaves rate, next rate and ratio of the receiver unchanged |
| RateSwitch.TxMain.ChangeConfig | applications/ELRS_Tx/ELRS/src/lib/CONFIG/config.c:67-84 | a difference in rate or ratio marks the configuration modified, and while it is marked the sync spam starts anew and a commit is abandoned |
| RateSwitch.TxMain.SetSyncSpam | applications/ELRS_Tx/tx_main.c:334-343 | spam starts only for a modified configuration |
| RateSwitch.TxMain.GenerateSyncPacket | applications/ELRS_Tx/tx_main.c:690-743 | the sync packet has the phase, announced rate, ratio and countdown of `GenerateSync` |
| RateSwitch.TxMain.SendRCdataToRF | applications/ELRS_Tx/tx_main.c:757-830 | what is queued is what `Transmit` allows: nothing while pending or from the commit instant on, COMMIT syncs only while committing |
| RateSwitch.TxMain.CheckConfigChangePending | applications/ELRS_Tx/tx_main.c:1146-1205 | refines the start of a commit after the spam, and the change of rate after window and guard |
| RateSwitch.TxMain.ChangeRadioParams | applications/ELRS_Tx/tx_main.c:405-425 | the transmitter takes the configured rate and ratio |
| RateSwitch.RxMain.ProcessSync | applications/ELRS_Rx/rx_main.c:472-541 | refines what a plain, PREPARE or COMMIT sync does to the receiver |
| RateSwitch.RxMain.LostConnection | applications/ELRS_Rx/rx_main.c:1156-1203 | losing the connection moves to the next rate and drops a pending commit |
| RateSwitch.RxMain.Loop | applications/ELRS_Rx/rx_main.c:1493-1503 | a due commit is applied by the loop, as `RxLoop` says |
| RateChangeRun.CommitService | applications/ELRS_Tx/tx_main.c:793-801 | while a commit is active only COMMIT packets with the new rate and ratio are queued, none from the committed instant on, each counting down to at most 9 ms after it |
| RateChangeRun.CommitArrives | applications/ELRS_Rx/rx_main.c:495-506 | a COMMIT that arrives sets the receiver's timer between the committed instant and packet delay plus 9 ms after it |
| RateChangeRun.StepInv | applications/ELRS_Tx/tx_main.c:1146-1205 | every step of the timed two-phase change keeps the protocol invariant, with both clocks wrapping at 32 bits |
| RateChangeRun.ReceiverMovesInTime | applications/ELRS_Rx/rx_main.c:1493-1503 | in every run the receiver never applies a COMMIT before the committed instant; and once packet delay, 9 ms and one loop have passed since, a receiver that heard one has applied it: new rate, agreed denominator, nothing pending |
| RateChangeRun.OnlyCommitsThenSilence | applications/ELRS_Tx/tx_main.c:793-801 | in every run, what the transmitter queues during a commit is a COMMIT before the committed instant and nothing after it |
| RateChangeRun.BothEndsAgree | applications/ELRS_Tx/tx_main.c:1146-1205 | in every run the transmitter switches exactly at a look with the radio free, 200 ms or more after the committed instant, and to the configured rate; then a receiver that heard a COMMIT has that rate and denominator already, and one that heard none the old rate |
| RateChangeProgress.CommitGoesOut | applications/ELRS_Tx/tx_main.c:793-801 | during a commit a free radio that accepts carries a COMMIT with new rate, ratio and time left at every chance before the instant; in all other cases nothing changes |
| RateChangeProgress.WindowIsUsed | applications/ELRS_Tx/tx_main.c:793-801 | in every run each free moment of the window puts a COMMIT on the air |
| RateChangeProgress.OneCommitIsEnough | applications/ELRS_Rx/rx_main.c:493-519 | in every run a COMMIT that arrives on the old rate is heard, and by its deadline applied |
| RateChangeProgress.QuietGoesOut | applications/ELRS_Tx/tx_main.c:757-830 | without a commit: announcements of the configured rate, as PREPARE if it differs, counted down when taken; regular syncs of the rate in use; data as data |
| RateChangeProgress.RefusedIsNotCounted | applications/ELRS_Tx/tx_main.c:803-830 | a refused announcement is offered again |
| RateChangeProgress.ChangeIsAnnounced | applications/ELRS_Tx/ELRS/src/lib/CONFIG/config.c:67-84 | a change is announced from the beginning, and a commit under way given up, exactly when something differs or is still unannounced |
| RateChangeProgress.CommitBegins | applications/ELRS_Tx/tx_main.c:1146-1205 | a commit begins exactly when a difference in rate waits, its burst is over and the radio is free; its instant is 200 ms away |
| RateChangeProgress.RatioChangeIsDone | applications/ELRS_Tx/tx_main.c:1146-1205 | a change of the ratio alone is done without a commit when its burst is over |
| RateChangeProgress.ChangeLeadsToCommit | applications/ELRS_Tx/tx_main.c:1146-1205 | a change of rate leads to a commit after exactly a hundred announcements |
| RateChangeProgress.CommitIsApplied | applications/ELRS_Rx/rx_main.c:1493-1503 | a COMMIT is applied with its rate and ratio by the first loop at or after its countdown and by no earlier one |
| RateChangeProgress.PlainIsFollowed | applications/ELRS_Rx/rx_main.c:508-519 | a plain SYNC sets the ratio, drops a waiting commit and moves a connected receiver to its rate |
| RateChangeProgress.DenominatorIsPower | applications/ELRS_Rx/ELRS/src/src/common.c:115-124 | each step of the ratio halves the denominator, from 128 down to 2 |
| RateChangeProgress.AnnouncedRatioIsConfigured | applications/ELRS_Tx/tx_main.c:725-735 | the three announced bits stand for the configured ratio and its denominator |
| RateChangeProgress.SuggestedPeriod | applications/ELRS_Tx/ELRS/src/src/common.c:7-16 | at every rate of the table telemetry comes every 256 to 480 ms |
| RateChangeProgress.ArmingSilences | applications/ELRS_Tx/tx_main.c:652-662 | in the DISARMED setting arming switches telemetry off, and only that |
| RateChangeUnit.RateLink.constructor | applications/ELRS_Tx/tx_main.c:405-425 | both main programs on one rate: a start of the timed protocol |
| RateChangeUnit.RateLink.ChangeConfig | applications/ELRS_Tx/ELRS/src/lib/CONFIG/config.c:67-84 | a user change keeps the timed invariant |
| RateChangeUnit.RateLink.Transmit | applications/ELRS_Tx/tx_main.c:757-830 | the transmitter object queues only COMMITs while a commit is active and nothing from its instant on |
| RateChangeUnit.RateLink.CheckConfigChange | applications/ELRS_Tx/tx_main.c:1146-1205 | the transmitter object leaves its rate exactly when a commit is active, the radio free and the guard time over, and then a receiver object that heard a COMMIT has its rate and denominator already |
| RateChangeUnit.RateLink.Receive | applications/ELRS_Rx/rx_main.c:472-541 | a SYNC never moves the receiver object at once; the timed invariant is kept |
| RateChangeUnit.RateLink.Loop | applications/ELRS_Rx/rx_main.c:1493-1503 | the receiver object moves only here, between the committed instant and packet delay, 9 ms and one loop later, and has moved when that deadline is past |
| ByteFifo.Fifo.constructor | applications/ELRS_Common/ELRS/src/lib/FIFO/FIFO.h:51-67 | an empty ring |
| ByteFifo.Fifo.Flush | applications/ELRS_Common/ELRS/src/lib/FIFO/FIFO.h:72-77 | empties the ring |
| ByteFifo.Fifo.Push | applications/ELRS_Common/ELRS/src/lib/FIFO/FIFO.h:84-96 | appends a byte if one fits, else empties the ring |
| ByteFifo.Fifo.PushBytes | applications/ELRS_Common/ELRS/src/lib/FIFO/FIFO.h:104-118 | appends all bytes if they fit, else empties the ring |
| ByteFifo.Fifo.Pop | applications/ELRS_Common/ELRS/src/lib/FIFO/FIFO.h:124-134 | takes the first byte, or 0 from an empty ring |
| ByteFifo.Fifo.PopBytes | applications/ELRS_Common/ELRS/src/lib/FIFO/FIFO.h:143-156 | takes the first bytes if there are enough |
| ByteFifo.Fifo.Size | applications/ELRS_Common/ELRS/src/lib/FIFO/FIFO.h:180-183 | the number of bytes stored |
| ByteFifo.Fifo.Available | applications/ELRS_Common/ELRS/src/lib/FIFO/FIFO.h:240-243 | whether that many more bytes fit: the last place stays free |
| ByteFifo.Fifo.Get | applications/ELRS_Common/ELRS/src/lib/FIFO/FIFO.h:281-284 | the byte at a place, through the wrap |
| ByteFifo.Fifo.Set | applications/ELRS_Common/ELRS/src/lib/FIFO/FIFO.h:276-279 | replaces one byte and no other |
| ByteFifo.Fifo.Skip | applications/ELRS_Common/ELRS/src/lib/FIFO/FIFO.h:294-298 | drops the first bytes; for more than there are the ring is emptied but sound afterwards exactly when the excess is whole turns |
| LengthPrefixed.Evict | applications/ELRS_Common/ELRS/src/lib/FIFO/FIFO.h:254-267 | the records kept after room was made |
| LengthPrefixed.EvictIsShortestPrefix | applications/ELRS_Common/ELRS/src/lib/FIFO/FIFO.h:254-267 | making room drops exactly the shortest prefix of whole records that is enough |
| LengthPrefixed.MakeRoom | applications/ELRS_Common/ELRS/src/lib/FIFO/FIFO.h:254-267 | the loop of `ensure` on the byte ring drops whole records, as `Evict` says, and ends for every request below the ring size |
| LengthPrefixed.PopRecord | applications/ELRS_Common/ELRS/src/lib/Telemetry/telemetry.c:417-429 | one record leaves the front of the ring |
| LengthPrefixed.SkipRecord | applications/ELRS_Common/ELRS/src/lib/Telemetry/telemetry.c:364-368 | one record is dropped from the front of the ring |
| LengthPrefixed.PushRecord | applications/ELRS_Common/ELRS/src/lib/Telemetry/telemetry.c:369-370 | one record is added at the end of the ring |
| TelemetryParser.CrsfParser.constructor | applications/ELRS_Common/ELRS/src/lib/Telemetry/telemetry.c:148-155 | nothing held |
| TelemetryParser.CrsfParser.HandleUartIn | applications/ELRS_Common/ELRS/src/lib/Telemetry/telemetry.c:156-222 | a byte after the held ones, or after none when it comes more than 100 ms late: what is held and what is handed on are those of `Feed`, and the answer is whether the byte was of use |
| TelemetryParser.CrsfParser.TakeByte | applications/ELRS_Common/ELRS/src/lib/Telemetry/telemetry.c:167-219 | the three states on the 64-byte buffer; no index leaves it |
| TelemetryParser.Feed | applications/ELRS_Common/ELRS/src/lib/Telemetry/telemetry.c:167-219 | what is held is the beginning of a frame; only frames of 4 to 64 bytes with right length and checksum are handed on |
| TelemetryParser.FramesStandInTheInput | applications/ELRS_Common/ELRS/src/lib/Telemetry/telemetry.c:156-222 | in every run the frames handed on stand in the input, in order, not overlapping, each with a right length and checksum |
| TelemetryParser.PausedFrameIsDelivered | applications/ELRS_Common/ELRS/src/lib/Telemetry/telemetry.c:159-222 | after a pause, whatever was held, a frame with a right length is handed on if and only if its checksum is right |
| TelemetryParser.AcceptedSuitsQueue | applications/ELRS_Common/ELRS/src/lib/Telemetry/telemetry.c:184-204 | what is handed on suits the queue if and only if an extended frame has at least 6 bytes |
| TelemetryParser.SyncBytes | applications/ELRS_Common/ELRS/src/lib/Telemetry/telemetry.c:168-173 | frames begin with one of three addresses |
| TelemetryParser.ShortDeviceInfoIsAccepted | applications/ELRS_Common/ELRS/src/lib/Telemetry/telemetry.c:184-204 | a device information of 4 bytes is handed on |
| TelemetryParser.ShortDeviceInfoIsMisread | applications/ELRS_Common/ELRS/src/lib/Telemetry/telemetry.c:58-67 | for such a record in the queue the comparator reads its checksum as one address and the next record's length byte as the other |
| TelemetrySpec.FindHit | applications/ELRS_Common/ELRS/src/lib/Telemetry/telemetry.c:320-335 | the first live record that the new frame replaces |
| TelemetrySpec.FindPrioritised | applications/ELRS_Common/ELRS/src/lib/Telemetry/telemetry.c:381-411 | the first live record with a prioritised type |
| TelemetrySpec.FindLive | applications/ELRS_Common/ELRS/src/lib/Telemetry/telemetry.c:417-429 | the first record not deleted |
| TelemetrySpec.OverwrittenEncoding | applications/ELRS_Common/ELRS/src/lib/Telemetry/telemetry.c:350-357 | overwriting a slot in place leaves a parsable ring with the same record lengths |
| TelemetrySpec.DeletedEncoding | applications/ELRS_Common/ELRS/src/lib/Telemetry/telemetry.c:358-359 | marking a record deleted changes its length byte only |
| TelemetryQueue.Telemetry.constructor | applications/ELRS_Common/ELRS/src/lib/Telemetry/telemetry.c:147-154 | an empty queue |
| TelemetryQueue.Telemetry.ReadRecord | applications/ELRS_Common/ELRS/src/lib/Telemetry/telemetry.c:322-334 | the scan reads a record's size, mark and type and steps to the next record |
| TelemetryQueue.Telemetry.CompareAt | applications/ELRS_Common/ELRS/src/lib/Telemetry/telemetry.c:326-326 | the comparators, run on the ring, decide what `Hit` says |
| TelemetryQueue.Telemetry.FindOverwrite | applications/ELRS_Common/ELRS/src/lib/Telemetry/telemetry.c:316-336 | the scan over the ring finds the first record to replace |
| TelemetryQueue.Telemetry.Overwrite | applications/ELRS_Common/ELRS/src/lib/Telemetry/telemetry.c:350-357 | the frame replaces the start of the slot in the ring |
| TelemetryQueue.Telemetry.MarkDeleted | applications/ELRS_Common/ELRS/src/lib/Telemetry/telemetry.c:358-359 | the record in the ring is marked deleted |
| TelemetryQueue.Telemetry.AppendAtEnd | applications/ELRS_Common/ELRS/src/lib/Telemetry/telemetry.c:363-371 | oldest records make room and the frame goes to the end |
| TelemetryQueue.Telemetry.AppendTelemetryPackage | applications/ELRS_Common/ELRS/src/lib/Telemetry/telemetry.c:273-374 | the whole ring and priority count after a frame are those of the list specification |
| TelemetryQueue.Telemetry.FindFirstPrioritised | applications/ELRS_Common/ELRS/src/lib/Telemetry/telemetry.c:381-411 | the scan finds the first live prioritised record |
| TelemetryQueue.Telemetry.TakePrioritised | applications/ELRS_Common/ELRS/src/lib/Telemetry/telemetry.c:389-407 | that record is popped or copied and marked, and the count goes down |
| TelemetryQueue.Telemetry.TakeHead | applications/ELRS_Common/ELRS/src/lib/Telemetry/telemetry.c:416-431 | deleted records are skipped and the first live one taken |
| TelemetryQueue.Telemetry.GetNextPayload | applications/ELRS_Common/ELRS/src/lib/Telemetry/telemetry.c:376-432 | ring, count and frame after asking for the next payload are those of the list specification |
| TelemetryGuarantees.HitMeansSameKey | applications/ELRS_Common/ELRS/src/lib/Telemetry/telemetry.c:36-83 | the table of types and comparators is equality of overwrite keys |
| TelemetryGuarantees.AppendRefinesList | applications/ELRS_Common/ELRS/src/lib/Telemetry/telemetry.c:273-374 | an append replaces in place exactly when the key has a live record large enough, otherwise supersedes or appends; and it drops the shortest prefix of records that makes room |
| TelemetryGuarantees.AppendDropsLeast | applications/ELRS_Common/ELRS/src/lib/Telemetry/telemetry.c:363-371 | one record fewer dropped would have left too little of the 512 bytes |
| TelemetryGuarantees.RoomyAppendKeepsAll | applications/ELRS_Common/ELRS/src/lib/Telemetry/telemetry.c:363-371 | with room for it a frame costs no other frame its place |
| TelemetryGuarantees.OrdinaryFramesAreQueued | applications/ELRS_Common/ELRS/src/lib/Telemetry/telemetry.c:273-279 | every frame but heartbeats, commands and pings is in the queue after its append |
| TelemetryGuarantees.GetNextRefinesList | applications/ELRS_Common/ELRS/src/lib/Telemetry/telemetry.c:376-432 | taking the next frame removes the first prioritised frame while the count is positive, else the oldest |
| TelemetryGuarantees.ApplyInv | applications/ELRS_Common/ELRS/src/lib/Telemetry/telemetry.c:273-432 | one live frame per key, each the newest appended for its key, and a returned frame is the newest for its key |
| TelemetryGuarantees.RunsKeepLatest | applications/ELRS_Common/ELRS/src/lib/Telemetry/telemetry.c:273-432 | the same in every run from the empty queue, the ring always parsing into whole records |
| TelemetryGuarantees.CountCoversPrioritised | applications/ELRS_Common/ELRS/src/lib/Telemetry/telemetry.c:337-414 | one call keeps the priority count at or above the prioritised frames queued while it does not wrap |
| TelemetryGuarantees.PrioritisedServedFirst | applications/ELRS_Common/ELRS/src/lib/Telemetry/telemetry.c:378-412 | with the count covering them, a prioritised frame is served before all others, oldest first |
| TelemetryGuarantees.PrioritisedFirstInEveryRun | applications/ELRS_Common/ELRS/src/lib/Telemetry/telemetry.c:337-414 | in every run from the empty queue with never 256 prioritised frames accepted since the count was last zero, the count covers them and the oldest prioritised frame is handed out first |
| TelemetryGuarantees.WrappedCountForgets | applications/ELRS_Common/ELRS/src/lib/Telemetry/telemetry.c:337-340 | why 256 are excluded: the count wraps to zero and the oldest frame is handed out, prioritised or not |
| TelemetryGuarantees.ParameterFramesGoFirst | applications/ELRS_Common/ELRS/src/lib/Telemetry/telemetry.c:85-88 | exactly the six types of the parameter protocol are prioritised |
| TelemetryGuarantees.HeadIsFreed | applications/ELRS_Common/ELRS/src/lib/Telemetry/telemetry.c:412-432 | nothing to hand out means an empty ring; otherwise everything up to the frame handed out is freed |
| MspQueue.MspHandset.ResetMspQueue | applications/ELRS_Common/ELRS/src/lib/Handset/CRSF.c:118-123 | both the slot and the ring are emptied |
| MspQueue.MspHandset.GetMspMessage | applications/ELRS_Common/ELRS/src/lib/Handset/CRSF.c:112-116 | the message in the slot, byte for byte, or none |
| MspQueue.MspHandset.UnlockMspMessage | applications/ELRS_Common/ELRS/src/lib/Handset/CRSF.c:125-139 | the next message moves from the ring to the slot |
| MspQueue.MspHandset.AddMspMessage | applications/ELRS_Common/ELRS/src/lib/Handset/CRSF.c:175-202 | a message goes to the empty slot or, after room is made, to the end of the ring; too long ones are refused |
| MspQueue.AddAppends | applications/ELRS_Common/ELRS/src/lib/Handset/CRSF.c:175-202 | adding appends behind everything kept, and the message in the slot is never dropped |
| MspQueue.AddDropsLeast | applications/ELRS_Common/ELRS/src/lib/Handset/CRSF.c:190-201 | what is dropped is the least number of oldest waiting messages |
| MspQueue.UnlockTakesNext | applications/ELRS_Common/ELRS/src/lib/Handset/CRSF.c:125-139 | unlocking takes the next message in order, and an empty slot means an empty ring |
| MspQueue.RunsAreInOrder | applications/ELRS_Common/ELRS/src/lib/Handset/CRSF.c:112-202 | in every run of 1 to 65 byte messages, what was handed out and what waits is an in-order selection of what was added |
| MspQueue.EmptyMessageLosesOrder | applications/ELRS_Common/ELRS/src/lib/Handset/CRSF.c:175-188 | for the function alone, whose callers send no empty message: after one unlock the slot looks free although others wait, if and only if an empty message came up before another |
| MspQueue.EnsureEndsBelowFullSize | applications/ELRS_Common/ELRS/src/lib/FIFO/FIFO.h:254-267 | of the function alone, whose callers ask for at most 66 bytes: for every request it does not refuse, some number of turns of its loop makes room if and only if the request is below the ring size |
| AirportRing.CountersAgree | applications/ELRS_Common/ELRS/src/lib/AirPort/airport.c:17-20 | the wrapped difference of the free-running counters is the true occupancy |
| AirportRing.AirportFifo.constructor | applications/ELRS_Common/ELRS/src/lib/AirPort/airport.c:10-15 | an empty ring |
| AirportRing.AirportFifo.Reset | applications/ELRS_Common/ELRS/src/lib/AirPort/airport.c:10-15 | empties the ring |
| AirportRing.AirportFifo.Size | applications/ELRS_Common/ELRS/src/lib/AirPort/airport.c:17-20 | the number of bytes stored, through the wrap of the counters |
| AirportRing.AirportFifo.PushBytes | applications/ELRS_Common/ELRS/src/lib/AirPort/airport.c:22-39 | accepts bytes while there is room, counts the refused ones, and keeps the rest in order |
| AirportRing.AirportFifo.PopBytes | applications/ELRS_Common/ELRS/src/lib/AirPort/airport.c:41-57 | takes the first bytes, at most as many as there are |
| AirportRing.PackAirportData | applications/ELRS_Tx/ELRS/src/lib/OTA/OTA.c:352-362 | a packet carries the first bytes of the ring, at most ten, and their number |
| AirportRing.UnpackAirportData | applications/ELRS_Tx/ELRS/src/lib/OTA/OTA.c:364-372 | a sane packet's bytes are appended to the output ring; an insane one is refused |
| AirportConcurrency.ProducerInvStep | applications/ELRS_Common/ELRS/src/lib/AirPort/airport.c:22-39 | every micro-step of the producer keeps the ring invariant |
| AirportConcurrency.ConsumerInvStep | applications/ELRS_Common/ELRS/src/lib/AirPort/airport.c:41-57 | every micro-step of the consumer keeps the ring invariant |
| AirportConcurrency.ConsumerReadsPublished | applications/ELRS_Common/ELRS/src/lib/AirPort/airport.c:45-52 | the consumer reads only a published slot, and its byte is the next accepted one |
| AirportConcurrency.RingIsLinearizable | applications/ELRS_Common/ELRS/src/lib/AirPort/airport.c:17-57 | in every interleaving popped bytes are a prefix of accepted bytes, occupancy stays in 0 to 128, and offered bytes are popped, queued, in hand or counted as overflow modulo 2^32 |
| AirportConcurrency.RefusesOnlyWhenFull | applications/ELRS_Common/ELRS/src/lib/AirPort/airport.c:22-39 | in every reachable state bytes are refused exactly when all 128 cells are taken at that step |
| AirportConcurrency.ProducerPublishesNext | applications/ELRS_Common/ELRS/src/lib/AirPort/airport.c:22-39 | left alone with room for it, the producer publishes exactly the next byte |
| AirportConcurrency.PacketTakesWhatIsThere | applications/ELRS_Tx/ELRS/src/lib/OTA/OTA.c:352-372 | a packet takes what was queued when the consumer looked, up to ten bytes |
| AirportConcurrency.ConsumerPopsNext | applications/ELRS_Common/ELRS/src/lib/AirPort/airport.c:41-57 | left alone, the consumer pops exactly the oldest byte |
| AirportConcurrency.PacketsCarryWhatWasPopped | applications/ELRS_Tx/ELRS/src/lib/OTA/OTA.c:352-362 | with a concurrent producer each packet's count is the number of bytes really popped into it |
| AirportConcurrency.UnpackKeepsWhatFits | applications/ELRS_Rx/ELRS/src/lib/OTA/OTA.c:541-561 | of a sane packet as many bytes are queued as fit; only a byte too many is an overflow |
| AirportConcurrency.StreamIsSelectionOfPayloads | applications/ELRS_Rx/ELRS/src/lib/OTA/OTA.c:541-561 | over a lossy link without output overflow the delivered stream is the in-order concatenation of whole payloads of some packets, and all payloads together are a prefix of the accepted input |
| AirportConcurrency.LosslessStreamIsTheInput | applications/ELRS_Rx/ELRS/src/lib/OTA/OTA.c:541-561 | with nothing lost on the air and no overflow at the output, under any interleaving at the sending ring, the stream that comes out is the beginning of the accepted input |
| BitWord.ValueBits | applications/ELRS_Common/ELRS/src/lib/CRC/crc.c:59-59 | a register value used as a table index loses nothing: word, integer and word again |
| Crc.FeedInjective | applications/ELRS_Common/ELRS/src/lib/CRC/crc.c:55-62 | for an odd polynomial the CRC step is a bijection of the register: equal results mean equal starting registers |
| Crc.WindowInjective | applications/ELRS_Common/ELRS/src/lib/CRC/crc.c:55-62 | from one register, messages no longer than it have equal CRCs only if they are equal |
| Crc.BurstsAreDetected | applications/ELRS_Common/ELRS/src/lib/CRC/crc.c:55-62 | messages that differ only in a window no wider than the register have different CRCs |
| Crc.ShiftsLinear | applications/ELRS_Common/ELRS/src/lib/CRC/crc.c:44-51 | the table's inner loop is linear over XOR |
| Crc.ShiftsLow | applications/ELRS_Common/ELRS/src/lib/CRC/crc.c:44-51 | what stands above the register never reaches it |
| Crc.ByteIsShifts | applications/ELRS_Common/ELRS/src/lib/CRC/crc.c:44-51 | eight turns of the inner loop are the bit-serial circuit fed one byte |
| Crc.LookupIsEightBits | applications/ELRS_Common/ELRS/src/lib/CRC/crc.c:57-60 | one table lookup equals eight bit-serial steps on the register, for every polynomial and any garbage above it |
| Crc.ExactLookup | applications/ELRS_Common/ELRS/src/lib/CRC/crc.c:57-60 | the same when the variable is exactly the register |
| Crc.Crc2Byte.constructor | applications/ELRS_Common/ELRS/src/lib/CRC/crc.c:3-4 | static storage is a valid, unset engine |
| Crc.Crc2Byte.Init | applications/ELRS_Common/ELRS/src/lib/CRC/crc.c:35-53 | every table entry is its index shifted eight times, for widths 8 to 16; an unchanged width and polynomial keep the table |
| Crc.Crc2Byte.Calc | applications/ELRS_Common/ELRS/src/lib/CRC/crc.c:55-62 | the fast form returns the bit-serial CRC of the message, for every initial value, with the bits above the register clear |
| Crc.GenericCrc8.Init | applications/ELRS_Common/ELRS/src/lib/CRC/crc.c:6-19 | every table entry is its index shifted eight times |
| Crc.GenericCrc8.Calc | applications/ELRS_Common/ELRS/src/lib/CRC/crc.c:26-33 | the fast form returns the bit-serial 8-bit CRC of the message |
| PacketCrc.AcceptedUnderItsInitializerOnly | applications/ELRS_Rx/ELRS/src/lib/OTA/OTA.c:466-495 | a full packet sealed under one initializer is accepted under another if and only if they are equal |
| PacketCrc.InitializersDiffer | applications/ELRS_Rx/ELRS/src/lib/OTA/OTA.c:34-43 | the initializer determines the two low UID bytes, and AirPort never shares one with RC for the same UID |
| PacketCrc.DomainsNeverMix | applications/ELRS_Rx/ELRS/src/lib/OTA/OTA.c:34-43 | in one mode a packet is accepted exactly by the same low UID bytes; AirPort and RC of one UID never accept each other |
| PacketCrc.BurstIsRejected | applications/ELRS_Rx/ELRS/src/lib/OTA/OTA.c:466-472 | an accepted packet whose covered bits change within 16 consecutive bits is accepted again only if nothing changed |
| PacketCrc.TwoByteCorruptionIsRejected | applications/ELRS_Rx/ELRS/src/lib/OTA/OTA.c:466-472 | any change confined to two neighbouring covered bytes is rejected |
| PacketCrc.StdNeedsClearField | applications/ELRS_Rx/ELRS/src/lib/OTA/OTA.c:474-502 | a short packet is accepted under its own initializer exactly when its CRC field was clear before sealing |
| PacketCrc.StdAcceptedUnderItsInitializerOnly | applications/ELRS_Rx/ELRS/src/lib/OTA/OTA.c:474-502 | with the field clear, a short packet is accepted exactly when the low 14 bits of the initializers agree |
| PacketCrc.OtaCrc.UpdateInitializer | applications/ELRS_Rx/ELRS/src/lib/OTA/OTA.c:34-43 | the initializer is made of UID, version and mode |
| PacketCrc.OtaCrc.UpdateSerializers | applications/ELRS_Rx/ELRS/src/lib/OTA/OTA.c:504-538 | the packet size selects width 16 or 14 with its polynomial |
| PacketCrc.OtaCrc.GenerateFull | applications/ELRS_Rx/ELRS/src/lib/OTA/OTA.c:491-495 | the packet becomes the sealed one |
| PacketCrc.OtaCrc.ValidateFull | applications/ELRS_Rx/ELRS/src/lib/OTA/OTA.c:466-472 | true exactly for accepted packets |
| PacketCrc.OtaCrc.GenerateStd | applications/ELRS_Rx/ELRS/src/lib/OTA/OTA.c:497-502 | the short packet becomes the sealed one |
| PacketCrc.OtaCrc.ValidateStd | applications/ELRS_Rx/ELRS/src/lib/OTA/OTA.c:474-489 | true exactly for accepted short packets, and the packet is put back as it was |
| ReflectedCrc.ReflectedFormsAgree | applications/ELRS_Common/ELRS/src/lib/UnifiedConfig/unified_config.c:76-86 | the bitwise loop and the table-driven form of section 8 of RFC 1952 are both the bit-serial circuit fed low bits first, for every width, polynomial, start and message |
| ReflectedCrc.FirmwareAgreesWithZlib | applications/ELRS_Common/ELRS/src/lib/UnifiedConfig/unified_config.c:76-86 | the firmware's crc32 equals the table CRC of section 8 of RFC 1952 on every message |
| ReflectedCrc.BitwiseLoop | tools/burn/tk8620_flasher.py:110-119 | the loop of crc32_update and crc16_modbus computes the bitwise form |
| Bytes.ReadBack32 | applications/ELRS_Common/ELRS/src/lib/UnifiedConfig/unified_config.c:88-102 | reading a little-endian field gives back what was written |
| Bytes.WriteBack32 | applications/ELRS_Common/ELRS/src/lib/UnifiedConfig/unified_config.c:88-102 | and writing what was read gives back the bytes |
| ConfigFrames.EndsAgree | tools/config/tk8620_configurator.py:120-125 | firmware and host tool build the same bytes and accept the same bytes |
| ConfigFrames.BuiltFrame | applications/ELRS_Common/ELRS/src/lib/UnifiedConfig/unified_config.c:171-208 | what frame_build writes is valid and carries its arguments |
| ConfigFrames.ValidFramesAreBuilt | applications/ELRS_Common/ELRS/src/lib/UnifiedConfig/unified_config.c:199-208 | and nothing else is valid: a valid frame is what frame_build writes for its fields |
| ConfigFrames.MagicHasNoBorder | applications/ELRS_Common/ELRS/src/lib/UnifiedConfig/unified_config.c:44-44 | the first magic byte occurs nowhere else in the magic |
| ConfigFilter.FilterByteInv | applications/ELRS_Common/ELRS/src/lib/UnifiedConfig/unified_config.c:233-272 | the held bytes always look like the start of one frame and stay below 40 |
| ConfigFilter.FilterByteTransparent | applications/ELRS_Common/ELRS/src/lib/UnifiedConfig/unified_config.c:233-272 | per byte, what leaves the filter followed by what it holds is what it held plus the byte |
| ConfigFilter.FilterAllTransparent | applications/ELRS_Common/ELRS/src/lib/UnifiedConfig/unified_config.c:221-273 | the same for a whole call |
| ConfigFilter.ChunkingDoesNotMatter | applications/ELRS_Common/ELRS/src/lib/UnifiedConfig/unified_config.c:221-273 | the result does not depend on how the stream is cut into calls |
| ConfigFilter.FilterAllSound | applications/ELRS_Common/ELRS/src/lib/UnifiedConfig/unified_config.c:258-271 | only valid frames with a command the phase allows are captured |
| ConfigFilter.FilterIsTransparent | applications/ELRS_Common/ELRS/src/lib/UnifiedConfig/unified_config.c:221-273 | in every run forwarded bytes and captured frames, in order, followed by the held bytes, are the input; fewer than 40 bytes are held; only valid frames are captured, each allowed in the phase of the call that captured it |
| ConfigFilter.NoiseIsPassedOn | applications/ELRS_Common/ELRS/src/lib/UnifiedConfig/unified_config.c:236-247 | in noise without the magic nothing is captured and less than a magic is held |
| ConfigFilter.NoiseThenFrame | applications/ELRS_Common/ELRS/src/lib/UnifiedConfig/unified_config.c:221-273 | after such noise any valid frame of an allowed command is captured whole |
| ConfigFilter.BuiltFrameIsCaptured | applications/ELRS_Common/ELRS/src/lib/UnifiedConfig/unified_config.c:221-273 | so is every frame_build output, and the noise is forwarded unchanged |
| ConfigRecord.BuiltRecordIsValid | applications/ELRS_Common/ELRS/src/lib/UnifiedConfig/unified_config.c:104-140 | the record that store_config writes is valid and holds mode and baud |
| ConfigRecord.LoadRecordInv | applications/ELRS_Common/ELRS/src/lib/UnifiedConfig/unified_config.c:118-126 | after load_record RAM claims a valid record only if flash holds one that says the same |
| ConfigRecord.StoreConfigInv | applications/ELRS_Common/ELRS/src/lib/UnifiedConfig/unified_config.c:128-157 | store_config keeps that, and succeeds if and only if every flash operation worked and the record reads back |
| ConfigRecord.SetModeInv | applications/ELRS_Common/ELRS/src/lib/UnifiedConfig/unified_config.c:333-344 | the SET_MODE command keeps that in every branch |
| ConfigRecord.SetModeAnswers | applications/ELRS_Common/ELRS/src/lib/UnifiedConfig/unified_config.c:333-345 | each answer code if and only if: 1 malformed request or unknown mode, 3 unsupported baud rate, 0 already so or stored by a working flash, 2 a failing flash |
| ConfigRecord.SetModeLeaves | applications/ELRS_Common/ELRS/src/lib/UnifiedConfig/unified_config.c:333-349 | code 0 leaves the asked configuration, 1 and 3 the old one, 2 the defaults without a record |
| ConfigRecord.OfferedIsSupported | tools/config/tk8620_configurator.py:31-32 | the unit supports exactly the baud rates the host tool offers |
| ConfigRecord.LoadTellsTheRecord | applications/ELRS_Common/ELRS/src/lib/UnifiedConfig/unified_config.c:121-135 | a record is loaded exactly when the flash can be read and holds a valid one |
| ConfigRecord.AnsweredConfigIsLoaded | applications/ELRS_Common/ELRS/src/lib/UnifiedConfig/unified_config.c:333-349 | when the answer is 0, a later load gives exactly the mode and baud asked for |
| ConfigSession.CopyString | applications/ELRS_Common/ELRS/src/lib/UnifiedConfig/unified_config.c:280-291 | at most the capacity is copied, up to the terminator |
| ConfigSession.InfoPayload | applications/ELRS_Common/ELRS/src/lib/UnifiedConfig/unified_config.c:307-324 | the GET_INFO answer fits a frame for all strings |
| ConfigSession.HandleCommandKeeps | applications/ELRS_Common/ELRS/src/lib/UnifiedConfig/unified_config.c:293-362 | a command keeps the store invariant, changes the store only for SET_MODE, and its answer carries its sequence and challenge |
| ConfigSession.TakeFramePhase | applications/ELRS_Common/ELRS/src/lib/UnifiedConfig/unified_config.c:417-452 | only an acknowledged HELLO leaves discovery and sets the challenge; commands are obeyed only in a session and with that challenge |
| ConfigSession.StepInv | applications/ELRS_Common/ELRS/src/lib/UnifiedConfig/unified_config.c:221-475 | every event keeps record, filter and phase invariants, whatever the flash and the UART do |
| ConfigSession.SessionsAreSafe | applications/ELRS_Common/ELRS/src/lib/UnifiedConfig/unified_config.c:364-475 | in every run from power-up the store agrees with flash when it claims a valid record, one HELLO opened the session, and every command obeyed came later in a valid frame with its challenge |
| ConfigSession.NeverBackToDiscovery | applications/ELRS_Common/ELRS/src/lib/UnifiedConfig/unified_config.c:415-475 | discovery, once left, is never entered again |
| ConfigSession.RunKeepsStore | applications/ELRS_Common/ELRS/src/lib/UnifiedConfig/unified_config.c:415-475 | without a SET_MODE the store never changes |
| ConfigSession.AnsweredModeSurvives | applications/ELRS_Common/ELRS/src/lib/UnifiedConfig/unified_config.c:118-157 | a SET_MODE answered 0 survives any further events that set no other mode: a restart comes up in that mode and baud |
| ConfigSession.CommandsRenewTheSession | applications/ELRS_Common/ELRS/src/lib/UnifiedConfig/unified_config.c:304-304 | the session expires exactly 60 s after the last command, across the wrap of the clock |
| ConfigSession.UnitFilterIsTransparent | applications/ELRS_Common/ELRS/src/lib/UnifiedConfig/unified_config.c:221-231 | inside the unit, too, a call loses nothing, and with discovery off bytes go straight through |
| ConfigUnit.UnifiedConfig.constructor | applications/ELRS_Common/ELRS/src/lib/UnifiedConfig/unified_config.c:364-384 | static state after init is that of the specification |
| ConfigUnit.UnifiedConfig.FilterFlush | applications/ELRS_Common/ELRS/src/lib/UnifiedConfig/unified_config.c:210-219 | the held bytes are forwarded in order |
| ConfigUnit.UnifiedConfig.FilterTurn | applications/ELRS_Common/ELRS/src/lib/UnifiedConfig/unified_config.c:233-272 | one turn of the loop on the static buffers is one specified filter step |
| ConfigUnit.UnifiedConfig.FilterBytes | applications/ELRS_Common/ELRS/src/lib/UnifiedConfig/unified_config.c:221-273 | buffers and output after a call are those of the specification |
| ConfigUnit.UnifiedConfig.StoreConfig | applications/ELRS_Common/ELRS/src/lib/UnifiedConfig/unified_config.c:128-157 | RAM and record area after the call are those of the specification |
| ConfigUnit.UnifiedConfig.HandleSessionFrame | applications/ELRS_Common/ELRS/src/lib/UnifiedConfig/unified_config.c:293-362 | state and answer are those of the specification |
| ConfigUnit.UnifiedConfig.GreetHello | applications/ELRS_Common/ELRS/src/lib/UnifiedConfig/unified_config.c:423-447 | state and acknowledgement are those of the specification |
| ConfigUnit.UnifiedConfig.TakePending | applications/ELRS_Common/ELRS/src/lib/UnifiedConfig/unified_config.c:417-452 | the mailbox frame is handled as specified |
| ConfigUnit.UnifiedConfig.UpdateTimers | applications/ELRS_Common/ELRS/src/lib/UnifiedConfig/unified_config.c:454-474 | timers and reboot requests are those of the specification |
| ConfigUnit.UnifiedConfig.Update | applications/ELRS_Common/ELRS/src/lib/UnifiedConfig/unified_config.c:415-475 | the whole update is the specified step |
| ConfigUnit.UnifiedConfig.StartBootProbe | applications/ELRS_Common/ELRS/src/lib/UnifiedConfig/unified_config.c:397-403 | discovery is switched on |
| ConfigUnit.UnifiedConfig.EndBootProbe | applications/ELRS_Common/ELRS/src/lib/UnifiedConfig/unified_config.c:405-413 | discovery is switched off and held bytes are dropped |
| ConfigDialogue.InfoIsDecoded | tools/config/tk8620_configurator.py:428-444 | the host tool reads from GET_INFO role, mode, record state, version and of the build string what fits, for all strings |
| ConfigDialogue.ConfigIsDecoded | tools/config/tk8620_configurator.py:447-456 | the host tool reads from GET_CONFIG exactly the configuration the unit is in |
| ConfigDialogue.HelloIsCaptured | applications/ELRS_Common/ELRS/src/lib/UnifiedConfig/unified_config.c:171-273 | a HELLO passes the filter in discovery, once that is on |
| ConfigDialogue.CommandIsCaptured | applications/ELRS_Common/ELRS/src/lib/UnifiedConfig/unified_config.c:171-273 | in a session every command passes the filter |
| ConfigDialogue.HelloOpens | applications/ELRS_Common/ELRS/src/lib/UnifiedConfig/unified_config.c:423-441 | a HELLO is acknowledged with its challenge and what the unit is, and opens the session: at once in the boot probe, otherwise after 30 ms |
| ConfigDialogue.SessionFollows | applications/ELRS_Common/ELRS/src/lib/UnifiedConfig/unified_config.c:454-461 | the session begins at the first look 30 ms or more after the acknowledgement |
| ConfigDialogue.TalkIsAnswered | applications/ELRS_Common/ELRS/src/lib/UnifiedConfig/unified_config.c:447-450 | a frame with the challenge of the session is obeyed and answered, and the session goes on |
| ConfigDialogue.StrangerIsIgnored | applications/ELRS_Common/ELRS/src/lib/UnifiedConfig/unified_config.c:447-450 | a frame with any other challenge changes nothing |
| ConfigDialogue.UnknownIsRefused | applications/ELRS_Common/ELRS/src/lib/UnifiedConfig/unified_config.c:357-360 | an unknown command is named in an error answer |
| ConfigDialogue.RebootFollows | applications/ELRS_Common/ELRS/src/lib/UnifiedConfig/unified_config.c:350-356 | a REBOOT whose answer went out is carried out 50 ms later, otherwise not |
| ConfigDialogue.ConfigurationGoesThrough | tools/config/tk8620_configurator.py:480-527 | for every mode and offered baud rate the tool finds write and readback verified if and only if the unit is in that configuration already or its flash works; and then it is, also after a restart |
| ConfigDialogue.UnsentAckChangesNothing | applications/ELRS_Common/ELRS/src/lib/UnifiedConfig/unified_config.c:423-445 | a HELLO whose acknowledgement could not be sent leaves phase, challenge and logging as they were |
| ConfigDialogue.LoggingKeepsOut | applications/ELRS_Common/ELRS/src/lib/UnifiedConfig/unified_config.c:392-395 | log text never gets into AirPort traffic or a session |
| ConfigDialogue.SwitchDropsHeld | applications/ELRS_Common/ELRS/src/lib/UnifiedConfig/unified_config.c:454-461 | when the UART is switched, held bytes are dropped and the session starts its minute |
| ConfigDialogue.RebootIsRequested | applications/ELRS_Common/ELRS/src/lib/UnifiedConfig/unified_config.c:463-474 | reboots are requested for an expired session at every look and for a due command once |
| ConfigDialogue.BootProbeOpens | applications/ELRS_Common/ELRS/src/lib/UnifiedConfig/unified_config.c:397-413 | the boot probe lets a HELLO in that opens the session; after it frames are foreign bytes |
| ConfigParser.Find | tools/config/tk8620_configurator.py:130-130 | the first occurrence of the magic, or none |
| ConfigParser.ParseFrames | tools/config/tk8620_configurator.py:128-152 | the loop yields the frames and leaves the buffer of the specification |
| ConfigParser.StreamingIsBatch | tools/config/tk8620_configurator.py:128-152 | parsing a stream in two parts yields the frames of parsing it whole, in order, and leaves the same bytes |
| ConfigParser.ChunksAreBatch | tools/config/tk8620_configurator.py:128-152 | the same for any number of parts |
| ConfigParser.BuiltIsParsed | tools/config/tk8620_configurator.py:128-152 | a built frame at the front is yielded first |
| ConfigParser.ParserUndoesBuilder | tools/config/tk8620_configurator.py:120-152 | a stream of built frames parses into exactly those frames and leaves nothing |
| ConfigParser.ToolParsesFirmwareFrame | tools/config/tk8620_configurator.py:120-152 | the tool parses what the firmware builds |
| ConfigParser.NoiseThenBuiltIsParsed | tools/config/tk8620_configurator.py:128-152 | and finds it after any noise without the magic |
| RxOtaMeta.MetaRead | applications/ELRS_Tx/ELRS/src/lib/RxOtaSender/rx_ota_sender.c:93-126 | what metaRead accepts lies in the staging region |
| RxOtaMeta.BuiltMetaIsAccepted | tools/burn/tk8620_flasher.py:167-189 | metaRead accepts what build_rx_ota_meta writes exactly when the image is in the staging region, and reads back every field |
| RxOtaMeta.FlasherMetaIsAccepted | tools/burn/tk8620_flasher.py:167-189 | the same with the CRC-16/MODBUS that the flasher and the transmitter both compute |
| RxOtaSender.ReadLen | applications/ELRS_Tx/ELRS/src/lib/RxOtaSender/rx_ota_sender.c:241-243 | a packet takes at most 512 bytes and never passes the image's end |
| RxOtaSender.Progress | applications/ELRS_Tx/ELRS/src/lib/RxOtaSender/rx_ota_sender.c:452-474 | the percentage never exceeds 100 |
| RxOtaCoverage.ReadsStayInside | applications/ELRS_Tx/ELRS/src/lib/RxOtaSender/rx_ota_sender.c:251-253 | every flash read is not empty and stays inside the image, the staging region and below the metadata |
| RxOtaCoverage.SendPacketKeeps | applications/ELRS_Tx/ELRS/src/lib/RxOtaSender/rx_ota_sender.c:238-262 | sending a packet changes only the history and the deadline, and a success means a numbered, right packet was handed over |
| RxOtaCoverage.BurnResponseInv | applications/ELRS_Tx/ELRS/src/lib/RxOtaSender/rx_ota_sender.c:289-313 | resends never change the next packet |
| RxOtaCoverage.UpdateInv | applications/ELRS_Tx/ELRS/src/lib/RxOtaSender/rx_ota_sender.c:343-422 | every driver event keeps the run invariant |
| RxOtaCoverage.StartInv | applications/ELRS_Tx/ELRS/src/lib/RxOtaSender/rx_ota_sender.c:315-341 | so does a start |
| RxOtaCoverage.RunInv | applications/ELRS_Tx/ELRS/src/lib/RxOtaSender/rx_ota_sender.c:315-422 | in every run packets 1 to next-1 have been handed to the radio with the right bytes, and waiting for the finish means next is total+1 |
| RxOtaCoverage.WholeImageIsSent | applications/ELRS_Tx/ELRS/src/lib/RxOtaSender/rx_ota_sender.c:217-313 | in every run, when waiting for the finish, the packets sent, put together and cut to the length, are the image in flash |
| RxOtaCoverage.UpdateProgress | applications/ELRS_Tx/ELRS/src/lib/RxOtaSender/rx_ota_sender.c:452-474 | one event never takes the progress back unless the run fails |
| RxOtaCoverage.ProgressNeverFalls | applications/ELRS_Tx/ELRS/src/lib/RxOtaSender/rx_ota_sender.c:452-474 | over any events the progress does not fall and stays at most 100, until the run fails |
| RxOtaCoverage.DoneMeansReceiverFinished | applications/ELRS_Tx/ELRS/src/lib/RxOtaSender/rx_ota_sender.c:307-312 | a run stands at DONE if and only if the receiver's finish arrived at one of its events in a state that listens to it, and no start came after |
| RxOtaCoverage.TransmissionsComplete | applications/ELRS_Tx/ELRS/src/lib/RxOtaSender/rx_ota_sender.c:273-287 | with working drivers the sender waits for the finish after exactly as many finished transmissions as packets are left |
| RxOtaProgress.ResendSendsThatPacket | applications/ELRS_Tx/ELRS/src/lib/RxOtaSender/rx_ota_sender.c:300-306 | a packet of the image asked for again, low byte first, is sent again, and nothing else |
| RxOtaProgress.ResendFails | applications/ELRS_Tx/ELRS/src/lib/RxOtaSender/rx_ota_sender.c:289-306 | a resend fails exactly for a packet the image does not have or that the drivers refuse |
| RxOtaProgress.OnlyTheDeadlineCounts | applications/ELRS_Tx/ELRS/src/lib/RxOtaSender/rx_ota_sender.c:352-361 | a poll without an event does nothing before the deadline; after it the handshake is tried again and any other wait fails |
| RxOtaProgress.CleanUpdateCompletes | applications/ELRS_Tx/ELRS/src/lib/RxOtaSender/rx_ota_sender.c:315-422 | with working drivers and an answering terminal an update goes from the start through every packet to the whole image sent, and to DONE |
| RxOtaProgress.SameVersionIsTold | applications/ELRS_Tx/ELRS/src/lib/RxOtaSender/rx_ota_sender.c:388-402 | eight bytes of 0xFF, and only they, mean the same version |
| RxOtaProgress.DeadlinesAreSet | applications/ELRS_Tx/ELRS/src/lib/RxOtaSender/rx_ota_sender.c:157-313 | every event that changes a running update sets the deadline of the state it leads to, but for the beacon and a refused request |
| RxOtaProgress.FailsExactly | applications/ELRS_Tx/ELRS/src/lib/RxOtaSender/rx_ota_sender.c:343-422 | a running update fails exactly on a missed deadline outside the handshake and on a needed driver call that fails |
| RxOtaProgress.OthersAreIgnored | applications/ELRS_Tx/ELRS/src/lib/RxOtaSender/rx_ota_sender.c:363-421 | events of other slots and states change nothing |
| RxOtaProgress.BeaconStartsSending | applications/ELRS_Tx/ELRS/src/lib/RxOtaSender/rx_ota_sender.c:408-413 | the beacon starts the sending once the first packet is queued |
| RxOtaProgress.RequestGoesOut | applications/ELRS_Tx/ELRS/src/lib/RxOtaSender/rx_ota_sender.c:157-181 | a request goes out exactly when the radio takes it and its slot could be set up |
| RxOtaProgress.StartsExactly | applications/ELRS_Tx/ELRS/src/lib/RxOtaSender/rx_ota_sender.c:315-341 | a run begins exactly with an accepted, non-empty image and a first request that goes out |
| RxOtaProgress.EndsAreClean | applications/ELRS_Tx/ELRS/src/lib/RxOtaSender/rx_ota_sender.c:343-422 | however a run ends, the handshake slot is given up |
| RxOtaProgress.PayloadBytes | applications/ELRS_Tx/ELRS/src/lib/RxOtaSender/rx_ota_sender.c:238-262 | each byte of each packet: the image, and 0xFF behind it |
| RxOtaProgress.FullProgress | applications/ELRS_Tx/ELRS/src/lib/RxOtaSender/rx_ota_sender.c:452-473 | the display shows 100 exactly when there is nothing more to send |
| RxOtaUnit.RxOtaUpdater.SendPacket | applications/ELRS_Tx/ELRS/src/lib/RxOtaSender/rx_ota_sender.c:238-262 | fields, history and result are those of the specification |
| RxOtaUnit.RxOtaUpdater.SendNextPacket | applications/ELRS_Tx/ELRS/src/lib/RxOtaSender/rx_ota_sender.c:273-287 | refines the next packet or the wait for the finish |
| RxOtaUnit.RxOtaUpdater.HandleBurnResponse | applications/ELRS_Tx/ELRS/src/lib/RxOtaSender/rx_ota_sender.c:289-313 | refines resend and finish |
| RxOtaUnit.RxOtaUpdater.SendHandshakeRequest | applications/ELRS_Tx/ELRS/src/lib/RxOtaSender/rx_ota_sender.c:157-181 | refines the handshake request, keeping an initialised slot on failure |
| RxOtaUnit.RxOtaUpdater.InitUpgradeSlots | applications/ELRS_Tx/ELRS/src/lib/RxOtaSender/rx_ota_sender.c:217-236 | refines the start of the upgrade with the first packet |
| RxOtaUnit.RxOtaUpdater.Start | applications/ELRS_Tx/ELRS/src/lib/RxOtaSender/rx_ota_sender.c:315-341 | a start from any state keeps the coverage invariant, begins a run only with a description that metaRead accepts, and answers whether one is active |
| RxOtaUnit.RxOtaUpdater.OnTxDone | applications/ELRS_Tx/ELRS/src/lib/RxOtaSender/rx_ota_sender.c:363-376 | refines a finished transmission |
| RxOtaUnit.RxOtaUpdater.OnHandshakeResponse | applications/ELRS_Tx/ELRS/src/lib/RxOtaSender/rx_ota_sender.c:388-407 | refines the handshake response |
| RxOtaUnit.RxOtaUpdater.OnRxDone | applications/ELRS_Tx/ELRS/src/lib/RxOtaSender/rx_ota_sender.c:388-421 | refines a reception |
| RxOtaUnit.RxOtaUpdater.Update | applications/ELRS_Tx/ELRS/src/lib/RxOtaSender/rx_ota_sender.c:343-422 | every update keeps the coverage invariant: while the object waits for the finish, the packets it sent put together are the image; shown progress never falls unless the run fails |
| RxOtaUnit.RxOtaUpdater.GetProgress | applications/ELRS_Tx/ELRS/src/lib/RxOtaSender/rx_ota_sender.c:452-473 | at most 100; in the wait for the finish exactly 100, and then the whole image has been sent |
| RxOtaUnit.RxOtaUpdater.constructor | applications/ELRS_Tx/ELRS/src/lib/RxOtaSender/rx_ota_sender.c:61-70 | idle at power-up, with the coverage invariant |
| LinkQuality.CountAfter | applications/ELRS_Rx/rx_main.c:237-273 | after any results the uplink count is the number of valid ones among the last W-1 |
| LinkQuality.CountBefore | applications/ELRS_Tx/tx_main.c:571-579 | read before the ring moves on, the count is the number of valid results among the last W |
| LinkQuality.NoUnderflow | applications/ELRS_Rx/rx_main.c:254-257 | clearing a set slot never takes the count below zero |
| LinkQuality.RecordInv | applications/ELRS_Rx/rx_main.c:237-273 | the ring remembers the last W-1 results in place, with the current slot and unused slots clear |
| LinkQuality.MarkedOnce | applications/ELRS_Tx/tx_main.c:205-215 | a window is counted once, however many packets arrive in it |
| LinkQuality.PercentBound | applications/ELRS_Rx/rx_main.c:234-234 | the percentage never exceeds 100 |
| LinkQualityTrackers.UplinkLqTracker.Reset | applications/ELRS_Rx/rx_main.c:218-226 | an out-of-range window means 100, and all history is forgotten |
| LinkQualityTrackers.UplinkLqTracker.GetLq | applications/ELRS_Rx/rx_main.c:228-235 | the share of valid results among the last W-1, of min(n, W); 100 if and only if there are results, fewer than W, all valid |
| LinkQualityTrackers.UplinkLqTracker.StepMask | applications/ELRS_Rx/rx_main.c:239-252 | mask and index go round the window in words of 32 bits, for every window of 1 to 100 |
| LinkQualityTrackers.UplinkLqTracker.Advance | applications/ELRS_Rx/rx_main.c:237-262 | the packed bitmap advances as the ring does |
| LinkQualityTrackers.UplinkLqTracker.Record | applications/ELRS_Rx/rx_main.c:264-273 | one more result in the list the tracker stands for |
| LinkQualityTrackers.FullMarks | applications/ELRS_Rx/rx_main.c:228-262 | the figure is 100 if and only if the window is not full and nothing was lost; on a perfect link with a full window it is (W-1)*100/W |
| LinkQualityTrackers.DownlinkLqCalc.Add | applications/ELRS_Tx/tx_main.c:196-203 | marks the current window once |
| LinkQualityTrackers.DownlinkLqCalc.Inc | applications/ELRS_Tx/tx_main.c:210-236 | the bitmap advances as the ring does |
| LinkQualityTrackers.DownlinkLqCalc.Get | applications/ELRS_Tx/tx_main.c:205-208 | the percentage of count |
| LinkQualityTrackers.DownlinkLqCalc.WindowDone | applications/ELRS_Tx/tx_main.c:571-581 | shows the share of the last min(n, 25) windows, this one included |
| FhssSequence.NextSeed | applications/ELRS_Common/ELRS/src/lib/FHSS/random.c:8-15 | the generator's seed stays below 2^31 |
| FhssSequence.RngValue | applications/ELRS_Common/ELRS/src/lib/FHSS/random.c:8-15 | the value stays at most 0x7FFF |
| FhssSequence.Pick | applications/ELRS_Common/ELRS/src/lib/FHSS/FHSS.c:85-86 | a random position of a block other than its first |
| FhssSequence.SequenceCount | applications/ELRS_Common/ELRS/src/lib/FHSS/FHSS.c:35-35 | the sequence never exceeds the array |
| FhssSequence.InsideBlock | applications/ELRS_Common/ELRS/src/lib/FHSS/FHSS.c:85-91 | the block of an index lies inside the sequence, so the swaps do |
| FhssSequence.InitialIsRight | applications/ELRS_Common/ELRS/src/lib/FHSS/FHSS.c:70-79 | the first loop writes in each block a permutation of all channels that starts with the sync channel |
| FhssSequence.SwapKeepsBlocks | applications/ELRS_Common/ELRS/src/lib/FHSS/FHSS.c:88-91 | a swap of two later positions of one block keeps every block a permutation |
| FhssSequence.ShuffleIsRight | applications/ELRS_Common/ELRS/src/lib/FHSS/FHSS.c:81-93 | so does the whole shuffle, for every seed |
| FhssSequence.EverySequenceIsGood | applications/ELRS_Common/ELRS/src/lib/FHSS/FHSS.c:50-97 | for every seed each block is a permutation starting with the sync channel, no two cyclically neighbouring entries are equal, and every channel occurs equally often |
| FhssShuffle.SeedsHavePredecessors | applications/ELRS_Common/ELRS/src/lib/FHSS/random.c:8-15 | the generator is a permutation of its seeds |
| FhssShuffle.EveryPositionIsDrawn | applications/ELRS_Common/ELRS/src/lib/FHSS/random.c:22-26 | every later position of a block can be drawn |
| FhssShuffle.SequenceIsShuffledBlocks | applications/ELRS_Common/ELRS/src/lib/FHSS/FHSS.c:82-96 | each block is the initial block in which every later position in turn has changed places with the one drawn for it, from the seed the block before left |
| Fhss.FrequencyInBand | applications/ELRS_Common/ELRS/src/lib/FHSS/FHSS.h:74-79 | every channel's frequency lies in the band, on a whole kHz, without overflow |
| Fhss.ChannelsAreApart | applications/ELRS_Common/ELRS/src/lib/FHSS/FHSS.h:74-79 | different channels are at least half a MHz apart |
| Fhss.Hopper.constructor | applications/ELRS_Common/ELRS/src/lib/FHSS/FHSS.c:30-48 | the sequence in the array is the one for the seed |
| Fhss.Hopper.RngN | applications/ELRS_Common/ELRS/src/lib/FHSS/random.c:23-26 | one draw moves the seed once and stays below the bound |
| Fhss.Hopper.FillBlocks | applications/ELRS_Common/ELRS/src/lib/FHSS/FHSS.c:70-79 | the first loop |
| Fhss.Hopper.Turn | applications/ELRS_Common/ELRS/src/lib/FHSS/FHSS.c:81-92 | one turn of the second loop, in place |
| Fhss.Hopper.Build | applications/ELRS_Common/ELRS/src/lib/FHSS/FHSS.c:63-97 | the array holds the specified sequence and the pointer is 0 |
| Fhss.Hopper.SetCurrIndex | applications/ELRS_Common/ELRS/src/lib/FHSS/FHSS.h:69-72 | the index is reduced into the sequence |
| Fhss.Hopper.GetFreq | applications/ELRS_Common/ELRS/src/lib/FHSS/FHSS.h:74-79 | for every slot number a frequency of the band, that of the slot's channel |
| ChannelBits.PackStep | applications/ELRS_Tx/ELRS/src/lib/OTA/OTA.c:92-106 | the two bytes one channel touches hold what was there, then its ten bits |
| ChannelBits.Pack | applications/ELRS_Tx/ELRS/src/lib/OTA/OTA.c:85-107 | the five bytes are the four ten-bit fields in order |
| ChannelBits.MergeBytes | applications/ELRS_Rx/ELRS/src/lib/OTA/OTA.c:304-309 | bytes are merged until ten bits are there |
| ChannelBits.Unpack | applications/ELRS_Rx/ELRS/src/lib/OTA/OTA.c:289-315 | four channels of the table get the four fields, no other changes |
| ChannelBits.RoundTrip | applications/ELRS_Rx/ELRS/src/lib/OTA/OTA.c:289-315 | for every 11-bit value, unpacking what was packed clears the lowest bit and changes nothing else |
| ChannelCodec.ChannelSender.PackPacket | applications/ELRS_Tx/ELRS/src/lib/OTA/OTA.c:219-256 | the packet carries the channels of its set, AUX1 as a bit, and the power limited to 1 to 8 |
| ChannelCodec.ChannelSender.Generate | applications/ELRS_Tx/ELRS/src/lib/OTA/OTA.c:258-278 | in the 12 and 16 channel modes the two sets alternate; in the 8 channel mode the second is never sent |
| ChannelCodec.ChannelReceiver.UnpackPacket | applications/ELRS_Rx/ELRS/src/lib/OTA/OTA.c:425-464 | the table after a packet, and the power of the packet restored |
| ChannelCodec.LayoutCovers | applications/ELRS_Rx/ELRS/src/lib/OTA/OTA.c:435-458 | the layout that both ends are proved to use covers exactly the channels a packet refreshes |
| ChannelCodec.PacketRefreshes | applications/ELRS_Rx/ELRS/src/lib/OTA/OTA.c:425-464 | a delivered packet refreshes exactly its channels and leaves the others alone |
| ChannelCodec.TwoPacketsRefreshAll | applications/ELRS_Tx/ELRS/src/lib/OTA/OTA.c:269-278 | two packets generated one after the other and delivered refresh every transmitted channel, and no other |

## Left out

- StubbornEndpoints.StubbornSender.SetDataToTransmit: the message is copied, because the application does not change the buffer during a transfer; the length is that of the message.
- StubbornLink.ExactlyOnce: the link is synchronous, so no acknowledgement of before a resync is in flight after it; the sender is given a message only when idle and offers a chunk that the receiver has taken again only with the same bytes.
- TelemetryPort.DriverIsExactlyOnce: link and telemetry are on throughout; the radio driver replaces a pending payload by the newest; a rate change that changes the bytes of a chunk which the receiver has taken is excluded, because by `ReconfigureKeepsStep` it puts the ends out of step and `ReconfigureCorruptsMessage` is such a run.
- RateChangeRun.BothEndsAgree: both clocks run at one rate, a change lasts less than half the clock range and is not cancelled by the user, and packet delay plus one loop is under 191 ms; the arming state does not change, so the announced ratio of a rate is constant.
- RateSwitch.TxMain.GenerateSyncPacket: the temporary telemetry boost (UpdateTlmRatioEffective) enters as the effective ratio; switch-encoding mode, binding and AirPort syncs are not modelled.
- RateSwitch.TxMain.SendRCdataToRF: the 500 ms recovery of a payload that the radio never reports as sent is not timed (in `RateChangeRun` the pending flag may clear at any moment), nor is the choice between RC and MSP data modelled.
- RateSwitch.TxMain.CheckConfigChangePending: the pending model update, switch-mode changes and binding mode are not modelled.
- RateSwitch.RxMain.ProcessSync: the UID check, the switch mode and the model match that precede the rate logic are not modelled.
- RateSwitch.RxMain.LostConnection: the resets of link quality and AirPort rings and the binding mode are not modelled.
- TelemetryQueue.Telemetry.AppendTelemetryPackage: frames are 4 to 64 bytes, extended ones at least 6; `TelemetryParser` says which frames the parser delivers besides and how their comparator misreads them, not what the queue then holds; the flags that internal commands set are not modelled, only which frames are internal.
- TelemetryUnit.TelemetryLink.HandleSendTelemetryResponse: the early return for a lost link, telemetry off or a model mismatch is not modelled.
- TelemetryUnit.TelemetryLink.TxDoneIsr: the AirPort branch and the link and telemetry tests before the repeat are not modelled.
- TelemetryUnit.TelemetryLink.SetRfLinkRate: only the drop of the prepared packet; the package limit is the same at every rate of the table.
- RateSwitch.TxMain.ChangeConfig: the clamp to a supported rate is not modelled; the rate is one of the table.
- RateSwitch.TxMain.SetSyncSpam: the counter of syncs sent after a rate change is not modelled.
- RateSwitch.RxMain.Loop: the binding and AirPort tests and the pending switch mode are not modelled.
- TelemetryGuarantees.PrioritisedFirstInEveryRun: a run that accepts 256 prioritised frames without the count returning to zero wraps the uint8 and is excluded.
- MspQueue.RunsAreInOrder: messages have 1 to 65 bytes, which the source's callers keep to; the empty one is treated apart.
- AirportConcurrency.RingIsLinearizable: Reset while the other side is inside a call is excluded, and memory is sequentially consistent.
- PacketCrc.BurstIsRejected: corruption of the two CRC bytes together with covered bytes is not treated.
- ConfigUnit.UnifiedConfig.FilterBytes: calls from the UART interrupt and from the main loop do not interleave inside one turn; a NULL forward function, with which bytes are dropped instead, is not modelled apart.
- ConfigFilter.BuiltFrameIsCaptured: noise containing the magic is excluded, because a false start that fails its check is forwarded whole, with any frame that began inside it.
- ConfigUnit.UnifiedConfig.EndBootProbe: held bytes are dropped here and when the UART is switched, not forwarded; the transparency theorem is about FilterBytes.
- RxOtaUnit.RxOtaUpdater.Update: slot configuration, transmit power, the bytes of handshake packets and what the receiver does with the packets are not modelled; the flash does not change during a run.
- RxOtaCoverage.WholeImageIsSent: handed to the radio, not received; the receiver's own resend requests are part of every run.
- LinkQualityTrackers.UplinkLqTracker.Reset: the choice of the window from the packet interval is not modelled; every window of 1 to 100 is.
- ChannelCodec.ChannelSender.PackPacket: channel values are 11-bit.
- PacketCrc.OtaCrc.UpdateSerializers: only the choice of CRC engine, not that of the pack and unpack functions.
- ConfigSession.CommandsRenewTheSession: the two instants are less than half the clock range apart.
- The 4-byte Hybrid and Wide switch encodings and the fmap scaling: no rate in the table selects that packet size.
- Dynamic power, averaging filters and sensitivity tests: range facts only.
- SDK calls, LEDs, buttons, menus, logging, start-up order, serial-port discovery, the flasher's boot protocol and the interactive tools: plumbing without a hard property.
