# A verified model of the switch firmware's network core

This project models four parts of the firmware in Dafny and proves what they keep over whole runs.

* **The uIP TCP engine** (`src/net/uip.c`, `src/net/uip_arch.c`, `src/sal/arm/sal_chksum.c`), in the IPv4 build. `TcpSpec`
  says as functions what one call does to one connection; `TcpEngine` has the connection records and the globals as classes,
  with a method per label of `uip_process`, each proved equal to those functions. `TcpConnection`, `TcpTransfer`,
  `TcpTimeout`, `TcpStops`, `TcpTable` and `TcpRuns` prove the coupling of length and state, the state diagram, stop-and-wait
  sending, in-order exactly-once delivery, the time a silent peer is given, what a misplaced `uip_stop` does, uniqueness of
  connections and the port search. `TcpAcks` proves what is acknowledged, `TcpBackoff` when and what is retransmitted,
  `TcpCalls` what the application is told and what its requests lead to, `TcpStates` the closing handshake and the timer, and
  `TcpEnds` where segments go and what opens a connection.
  `Octets` has the four-byte sequence numbers, `UdpTable` the UDP table, `Checksum` the checksums, `Sets` a fact about sizes.
* **IPv6 addresses and neighbour discovery** (`src/net/uip-ds6.c`, `src/net/uip-nd6.c`), host build: `Ip6Match` (match
  length, source selection, route lookup), `Ip6Addresses` (generic search, unicast and multicast tables, duplicate address
  detection, the periodic scan), `Neighbours` (the cache, unreachability detection, advertisements, resolving), `NbrLives`
  (an entry under scans and traffic), `Ds6Scans` and `Ds6ScanRuns` (what the periodic scans leave to send).
* **The port-based VLAN database** (`src/board/brd_vlan.c`): `Pvlan`, and `PvlanGroups`, which proves that it refines a map from
  group ids to ports.
* **Receive buffers and timers** (`src/board/brd_rxtx.c`, `src/kernel/rx.c`, `src/kernel/timer.c`): `RxChain`, `RxBuffers`,
  `Timers` (the table, its steps, how early a timer fires, when one is lost), `TimerSettings` (what `timer_add` promises) and
  `TimerScans` (what one scan fires, and how often scans start).

The compile-time parameters of the engine that `uipopt.h` would define are parameters that fit their 8- and 16-bit fields
(`TcpSpec.Config`). The application is an arbitrary list of `uip_send`, `uip_close`, `uip_abort`, `uip_stop` and
`uip_restart` calls per callback. Port lists and bitmaps are sets, hardware is a map written by the egress call, a timer is
the time at which it expires, and callbacks are numbers or lists of answers.

`dafny verify dfyconfig.toml` checks the project.

## Where the code and the expectation part

Each of these is a proved statement, with the condition under which the expectation does hold.

* A timer fires earlier than its interval after a stale return: a callback returns to its timer's slot although the timer has
  fired again since, and writes the older start time. Without a stale return it never does (`Timers.NeverTooEarly`); from any
  reachable state with one, and an interval long enough, there is a run in which it does (`Timers.StaleReturnFiresTooEarly`);
  of all events exactly stale returns spoil the start time (`Timers.OnlyStaleReturnsSpoil`). Callers avoid them by not
  registering a timer anew while its callback runs (`Timers.DisciplinedIsNeverTooEarly`), though re-registration alone does
  no harm (`Timers.SelfRearmingIsHarmless`); `Timers.RearmedFiresTooEarly` is a run that does.
* Adding a timer again restarts it, and it does not fire before its interval has passed since, unless a callback of it returns
  that was called before: of all events exactly that spoils the restart (`TimerSettings.OnlyOutdatedReturnsSpoil`,
  `TimerSettings.NotBeforeItsInterval`). A timer that is not added while its callback runs is safe
  (`TimerSettings.PatientIsNotBeforeItsInterval`); a callback that takes time and then restarts its own timer makes it fire too
  early by that time (`TimerSettings.RestartFromCallbackFiresTooEarly`).
* A timer is left marked as in progress, and never fires again until it is removed (`Timers.LostNeverFires`), exactly when its
  callback returns to a slot its registered timer is not in any more (`Timers.LostExactlyByMissing`): over a callback's life,
  exactly when a timer in an earlier slot is removed meanwhile (`Timers.LostIffShifted`). Without that, and unless it is
  registered anew while its callback runs, it is never lost (`Timers.NeverLost`); `Timers.RemovingAnEarlierTimerRun` is a run that loses one.
* A scan passes over a timer whose turn is next exactly when a callback removes a timer at or before the slot the scan has come
  to (`TimerScans.VisitedUnlessSkipped`), as a callback that removes its own timer does (`TimerScans.SelfRemovalSkipsTheNext`).
  Otherwise every timer that is due fires before the scan ends (`TimerScans.DueTimersFire`).
* The echo reply to a correct request that carries nothing but zeroes has checksum 0 where 0xffff is needed; every other one passes
  (`Checksum.EchoReplyPasses`).
* The prefix comparison looks at whole bytes: it is right for all addresses exactly when the length is a multiple of eight
  (`Ip6Match.PrefixCmpIsExact`, `Ip6Match.OtherRoutesCatchTooMuch`).
* Removing an address drops its solicited-node group even if another address has the same one: the other addresses keep their
  groups exactly when none shares it (`Ip6Addresses.RemovalKeepsValid`).
* An application that closes a connection while data is outstanding makes the FIN take that data's sequence number
  (`TcpTransfer.FinFollowsTheData`, `TcpTransfer.ClosingEarlyLosesData`), and the data is never sent again
  (`TcpTransfer.NoDataAfterEstablished`).
* A connection accepted from a SYN without an MSS option keeps the sizes that were in its slot, which are zero in a slot that was
  never used: it never sends data (`TcpCalls.NoSizeNoData`, `TcpEnds.OpeningAgreesOnSize`). With a size it does as soon as the
  application asks (`TcpCalls.SizedSendsData`).
* Data that comes with the ACK of the own FIN is taken but not acknowledged at once; all other data and every FIN is
  (`TcpAcks.TakenIsAcknowledged`).
* The SYN of `uip_connect` goes out with the second timer call, not the next one as the comment in `src/net/uip.c:525` has it
  (`TcpBackoff.FirstTransmission`).
* `uip_stop` from a callback outside ESTABLISHED leaves its bit in a state byte that the timer compares unmasked, exactly when
  no `uip_restart` follows it and the callback is one after which the engine does not write the byte: at a time-out, an RST, the
  ACK of the last FIN, or the peer's FIN in FIN_WAIT_1 or FIN_WAIT_2 (`TcpStops.StoppedExactlyBy`). Such a slot is leaked, never
  freed by the timer, exactly when nothing is outstanding on it (`TcpStops.TimerFreesOutstandingOnly`), as after the FIN in
  FIN_WAIT_2 (`TcpStops.StopElsewhereLeaksTheSlot`): then only an RST of its old peer can free it (`TcpStops.LeakedUntilReset`),
  and no new connection gets it before (`TcpStops.LeakedSlotIsNeverOpened`). With something outstanding it comes free when a
  time-out callback leaves it running (`TcpStops.FreedWhenLetGo`), and in CLOSING already the ACK of the FIN clears the bit
  (`TcpStops.ClosingRunsAgain`). The theorems about connections ask for an application that stops only ESTABLISHED connections.
* The solicitations of one periodic scan share one packet buffer, which is sent once: of several only the last is left, those
  for own addresses coming before those for neighbours (`Ds6Scans.LeftToSend`, `Ds6Scans.Periodic`). A neighbour that is given
  up has been sent its three exactly when no scan that solicited it solicited one behind it (`Ds6ScanRuns.GivenUpAfterThreeSent`);
  `Ds6ScanRuns.GivenUpUnasked` is a run that gives up a neighbour without sending any of the scans' solicitations for it. An own
  address becomes PREFERRED with all its solicitations sent exactly when it was always last (`Ds6ScanRuns.PreferredAfterAllSent`,
  `Ds6ScanRuns.PreferredUnasked`). Elsewhere below, "solicitation" means one composed.
* A packet to a neighbour in PROBE puts off its next solicitation, so that traffic more frequent than the retransmission interval
  keeps a dead neighbour in the cache (`NbrLives.BusyNeighbourStays`). It is given up exactly at a scan that comes after as many
  quiet scans as it has solicitations left (`NbrLives.LivesUntilQuiet`).

## Model

| member | source | states |
|---|---|---|
| Octets.Add32 | src/net/uip.c:299-324 | the byte-wise addition with its wrap-around carries is addition modulo 2^32 of the big-endian number |
| Octets.Increment | src/net/uip.c:801-808 | the four-byte increment carries through all bytes |
| Octets.QuadValInjective | src/net/uip.c:1576-1579 | comparing four bytes is comparing the numbers they stand for |
| TcpEngine.UipConn.AddRcvNxt | src/net/uip.c:744-752 | `rcv_nxt` advances by the given number modulo 2^32, nothing else changes |
| TcpEngine.FillPassive | src/net/uip.c:1451-1508 | the record of an accepted SYN, field by field, whatever the slot held before |
| TcpEngine.FillActive | src/net/uip.c:514-531 | the record `uip_connect` makes, field by field |
| TcpEngine.Uip.constructor | src/net/uip.c:434-447 | zeroed memory and `uip_init` satisfy the invariant, and make an initial table |
| TcpEngine.Uip.Init | src/net/uip.c:434-452 | `uip_init` closes every slot and listens to nothing, whatever was there |
| TcpEngine.Uip.AppCall | src/net/uip.h:699-743 | the application acts only through flags, send length and the stopped bit |
| TcpEngine.Uip.Appsend | src/net/uip.c:1799-1871 | abort, close and send requests change the record and choose the segment as specified |
| TcpEngine.Uip.Apprexmit | src/net/uip.c:1850-1869 | a data segment has exactly the outstanding length; otherwise a pure ACK if there was new data, or nothing |
| TcpEngine.Uip.ProcessPoll | src/net/uip.c:785-792 | only an ESTABLISHED connection with nothing outstanding is polled |
| TcpEngine.Uip.ProcessTimer | src/net/uip.c:795-895 | one timer call: aging, time-out with RST, retransmission with backoff, polling; the initial sequence number grows by one |
| TcpEngine.Uip.Timer | src/net/uip.c:795-895 | a timer call for one slot changes that slot, as an event of the table, and no other |
| TcpEngine.Uip.ProcessAck | src/net/uip.c:1573-1611 | an ACK of exactly the outstanding data, and no other, is taken over |
| TcpEngine.Uip.FoundSynRcvd | src/net/uip.c:1619-1636 | the ACK of the SYN-ACK establishes the connection and may carry data |
| TcpEngine.Uip.FoundSynSent | src/net/uip.c:1638-1696 | a matching SYN-ACK establishes the connection, anything else aborts it and is answered with RST |
| TcpEngine.Uip.FoundEstablished | src/net/uip.c:1699-1797 | new data and window are taken over; a FIN waits for outstanding data |
| TcpEngine.Uip.FoundFinWait1 | src/net/uip.c:1882-1909 | FIN_WAIT_1: data, FIN and the ACK of the own FIN in any combination |
| TcpEngine.Uip.FoundFinWait2 | src/net/uip.c:1911-1926 | FIN_WAIT_2: data and FIN |
| TcpEngine.Uip.Found | src/net/uip.c:1533-1937 | one segment on a matched connection does what `TcpSpec.Receive` says |
| TcpEngine.Uip.FindConnection | src/net/uip.c:1311-1323 | the first slot that is not closed and has the segment's ports and address |
| TcpEngine.Uip.FindSlot | src/net/uip.c:1427-1439 | the search for a slot follows `TcpTable.ChooseSlot` |
| TcpEngine.Uip.FoundListen | src/net/uip.c:1398-1530 | a permitted SYN opens the slot chosen and is answered from it; without a slot nothing happens |
| TcpEngine.Uip.Reset | src/net/uip.c:1342-1393 | the RST that answers a segment without a connection, and none for an RST |
| TcpEngine.Uip.Input | src/net/uip.c:1310-1937 | a segment changes at most one slot: the matching one, or the one a SYN opens |
| TcpEngine.Uip.ChoosePort | src/net/uip.c:478-493 | the `goto again` search ends with the next port no live connection uses |
| TcpEngine.Uip.Connect | src/net/uip.c:472-534 | opening takes a fresh port and the right slot, or fails and keeps all slots |
| UdpTable.Udp.Init | src/net/uip.c:450-459 | `uip_init` frees every slot and satisfies the invariant |
| UdpTable.Udp.constructor | src/net/uip.c:450-459 | so it does over zeroed memory |
| UdpTable.Udp.ChoosePort | src/net/uip.c:543-555 | the same search among UDP slots ends with the next unused port |
| UdpTable.Udp.New | src/net/uip.c:538-582 | the first free slot gets an unused port; ports in use stay distinct; a full table is left alone |
| UdpTable.FreshPortKeepsDistinct | src/net/uip.c:551-569 | a port found free is not zero and differs from every port in use |
| TcpConnection.StepCoupled | src/net/uip.c:818-889 | every call keeps: `len` = 1 in SYN_RCVD, SYN_SENT, FIN_WAIT_1, CLOSING, LAST_ACK, 0 in FIN_WAIT_2 and TIME_WAIT, at most `initialmss` in ESTABLISHED; `mss` <= `initialmss` <= UIP_TCP_MSS; bounded `nrtx`; and takes an arrow of section 3.2 of RFC 793 with CLOSE_WAIT folded in |
| TcpConnection.OpenCoupled | src/net/uip.c:1462-1508 | a freshly opened slot satisfies the coupling |
| TcpConnection.RunCoupled | src/net/uip.c:756-1937 | the coupling holds after every run of inputs |
| TcpTimeout.TickCountsDown | src/net/uip.c:818-889 | the computable number of remaining ticks decreases by exactly one per timer call, and one tick before the end the call closes |
| TcpTimeout.SilentPeerTermination | src/net/uip.c:818-889 | with a silent peer a waiting connection is closed from the TicksLeft-th timer call on and not before, whatever the application does |
| TcpTimeout.TicksLeftBound | src/net/uip.c:828-851 | that number is bounded by the compile-time parameters alone |
| TcpTimeout.SilentRun | src/net/uip.c:785-889 | polls among the timer calls change nothing about that |
| TcpStops.StoppedAfterCalls | src/net/uip.h:720-741 | a callback leaves the connection stopped if and only if some `uip_stop` has no `uip_restart` after it, or it was stopped and there is no `uip_restart` |
| TcpStops.StoppedExactlyBy | src/net/uip.c:834-845 | for any application: a connection is stopped outside ESTABLISHED exactly by a callback after which the state byte is not written, if that callback ends stopped; the state is then CLOSED, CLOSING or TIME_WAIT |
| TcpStops.FreedUnlessStopped | src/net/uip.c:818-824 | FIN_WAIT_2 and TIME_WAIT, for any application: the slot is free if and only if it is not stopped and the remaining ticks have passed |
| TcpStops.FreedWhenLetGo | src/net/uip.c:828-845 | with data, SYN or FIN outstanding, for any application: free if and only if some time-out callback of the run leaves the connection running; the ticks of these callbacks are computed, a time-out being repeated 256 ticks after one that stops |
| TcpStops.TimerFreesOutstandingOnly | src/net/uip.c:818-828 | a slot left stopped can be freed by some run of timer calls if and only if something is outstanding |
| TcpStops.StopElsewhereLeaksTheSlot | src/net/uip.c:1915-1921 | FIN in FIN_WAIT_2, for any application: the slot is stopped if and only if the callback ends stopped, and freed by the timer, after TicksLeft calls, if and only if not |
| TcpStops.ClosingRunsAgain | src/net/uip.c:1931-1935 | in CLOSING the ACK of the FIN clears the bit, and the timer frees the slot |
| TcpStops.LeakedUntilReset | src/net/uip.c:1541-1548 | a slot stopped in CLOSED or TIME_WAIT with nothing outstanding becomes reusable in a run if and only if an RST arrives on it whose callback does not end stopped |
| TcpStops.LeakedSlotIsNeverOpened | src/net/uip.c:1427-1439 | on the table, until then no SYN and no `uip_connect` gets the slot, whatever the application does |
| TcpTransfer.SegmentsCarryOutstanding | src/net/uip.c:1850-1862 | every data segment, first or repeated, starts at `snd_nxt` and has exactly `len` bytes |
| TcpTransfer.SndNxtMoves | src/net/uip.c:1573-1584 | `snd_nxt` moves only for an accepted acknowledgement, by the outstanding length |
| TcpTransfer.OutstandingIsKept | src/net/uip.c:1818-1847 | without an accepted acknowledgement an ESTABLISHED connection keeps `len` and `snd_nxt` |
| TcpTransfer.StopAndWait | src/net/uip.c:1818-1862 | over any run without the acknowledgement, every data segment is the one outstanding segment again |
| TcpTransfer.NoDataAfterEstablished | src/net/uip.c:1808-1815 | a connection past ESTABLISHED sends no more data |
| TcpTransfer.SndNxtCountsAckedBytes | src/net/uip.c:1573-1608 | after any run `snd_nxt` is its old value plus the bytes acknowledged, modulo 2^32 |
| TcpTransfer.FinFollowsTheData | src/net/uip.c:1808-1815 | the FIN of an ESTABLISHED connection comes after all data sent exactly when none is outstanding |
| TcpTransfer.ClosingEarlyLosesData | src/net/uip.c:1795-1815 | closing on new data with data outstanding sends the FIN with the sequence number of that data |
| TcpTransfer.ReceiveEffect | src/net/uip.c:1557-1567 | which segments hand their payload up, and what that does to `rcv_nxt` |
| TcpTransfer.DeliveryIsInOrder | src/net/uip.c:1557-1758 | whatever is lost, repeated or reordered, the bytes handed up continue the peer's stream where the earlier ones stopped |
| TcpTransfer.PassiveSideDelivery | src/net/uip.c:1470-1475 | from an accepted SYN: a prefix of the stream, and `rcv_nxt` = ISN + 1 + bytes delivered while open |
| TcpTransfer.ActiveSideDelivery | src/net/uip.c:1678-1684 | the same from `uip_connect`, ISN being that of the SYN-ACK |
| TcpTransfer.NextSegmentIsDelivered | src/net/uip.c:1711-1758 | an ESTABLISHED running connection hands a data segment up if and only if it starts at `rcv_nxt`, except a FIN while data is outstanding |
| TcpTable.SlotChoice | src/net/uip.c:1427-1448 | the first closed slot, else the first of the oldest in TIME_WAIT; a live connection is never taken, and none is found only if there is none |
| TcpTable.FreePortExists | src/net/uip.c:478-493 | fewer ports in use than the range has: one is free |
| TcpTable.SearchComesCloser | src/net/uip.c:478-493 | each failed step of the port search comes closer to any free port |
| TcpTable.SearchEnds | src/net/uip.c:478-493 | the search ends at the first free port in search order |
| TcpTable.NextKeepsTable | src/net/uip.c:478-534 | every event keeps the coupling in all slots, and no two live connections share ports and address |
| TcpTable.RunKeepsTable | src/net/uip.c:1311-1462 | so does every run of timer calls, polls, segments and openings |
| TcpTable.ReachableTablesAreValid | src/net/uip.c:434-447 | in particular every run that starts from `uip_init` |
| TcpTable.DemuxIsTheConnection | src/net/uip.c:1311-1323 | at most one slot matches a segment, and it is the one found |
| TcpTable.SlotsFollowDiagram | src/net/uip.c:1427-1462 | a slot follows the diagram or is reopened from CLOSED or TIME_WAIT |
| TcpRuns.SlotRunsAlone | src/net/uip.c:1311-1323 | until it is reopened, a slot in a run of the table does what one connection does on its share of the inputs |
| TcpRuns.DeliveryOnATable | src/net/uip.c:1398-1758 | in-order exactly-once delivery on a slot a SYN opened, under any other traffic in the table |
| TcpRuns.DeliveryOnAnOpening | src/net/uip.c:472-534 | the same on a slot `uip_connect` opened |
| TcpRuns.StopAndWaitOnATable | src/net/uip.c:1818-1862 | stop-and-wait on a slot of the table: until a segment with its ends acknowledges the outstanding data, every data segment sent on it is that segment again |
| TcpRuns.SilentPeerOnATable | src/net/uip.c:818-889 | under any other traffic, a waiting slot without segments from its peer is closed from the TicksLeft-th timer call for it on and not before |
| TcpRuns.AcksOnATable | src/net/uip.c:1946-1949 | on a slot of the table, under any other traffic: every answer acknowledges the SYN, the bytes taken by then and the FIN if it was taken |
| TcpAcks.RcvNxtMoves | src/net/uip.c:744-752 | in every state `rcv_nxt` moves by exactly the bytes and the FIN taken, and every segment sent acknowledges it |
| TcpAcks.TakenIsAcknowledged | src/net/uip.c:1707-1727 | a FIN that is taken, in ESTABLISHED, FIN_WAIT_1 or FIN_WAIT_2, leaves `rcv_nxt` behind it and is acknowledged at once; so is data, but for data with the ACK of the own FIN |
| TcpAcks.OthersAreAskedFor | src/net/uip.c:1557-1567 | a segment out of order changes nothing and is answered with the number awaited |
| TcpAcks.TimeWaitAnswers | src/net/uip.c:1928-1929 | in TIME_WAIT everything but an RST is acknowledged again |
| TcpAcks.EveryAckCounts | src/net/uip.c:1946-1949 | over any run: the number acknowledged is ISN + 1 + bytes taken, never beyond the peer's stream, plus one from the FIN on, which is taken only behind the whole stream |
| TcpAcks.AcksFromOpening | src/net/uip.c:1470-1475 | both openings start with nothing taken |
| TcpAcks.HandedUpIsTaken | src/net/uip.c:1743-1748 | until the own FIN, what is taken is what is handed up |
| TcpBackoff.BackoffDoubles | src/net/uip.c:847-850 | the interval is `UIP_RTO` times two to the number of retransmissions, at most four |
| TcpBackoff.RetransmissionTicksAre | src/net/uip.c:847-851 | the time all remaining retransmissions take, in closed form |
| TcpBackoff.TicksLeftIs | src/net/uip.c:828-851 | the time a silent peer is given, in closed form |
| TcpBackoff.SendTicksAreApart | src/net/uip.c:847-851 | retransmission k and the next are `UIP_RTO` * 2^min(k, 4) + 1 timer calls apart |
| TcpBackoff.Schedule | src/net/uip.c:828-889 | with a silent peer: a timer call retransmits the SYN, SYN-ACK or FIN of the state, or asks for the data again, exactly at the times of the schedule, gives up with RST at its end, and does nothing in between |
| TcpBackoff.FirstTransmission | src/net/uip.c:525 | the SYN goes out with the second timer call |
| TcpCalls.ToldExactly | src/net/uip.c:1612-1936 | at most one callback a call, and each of its flags is set if and only if there is the occasion |
| TcpCalls.LastEndCounts | src/net/uip.h:699-712 | of several requests to close or abort the last counts |
| TcpCalls.LastLengthCounts | src/net/uip.c:2040-2049 | of several requests to send the last counts |
| TcpCalls.RequestsAreHeard | src/net/uip.c:1750-1797 | requests are heard on the connection as it is after the segment: nothing outstanding if all was acknowledged, and the size that the peer's window or MSS option allows |
| TcpCalls.RequestsAreServed | src/net/uip.c:1799-1869 | abort, close, send, stop and restart requests have their effect; new data is limited by the size, old data is sent again as it was |
| TcpCalls.RetransmissionIsServed | src/net/uip.c:873-885 | when the data must be sent again exactly as much as is outstanding is sent |
| TcpCalls.NoSizeNoData | src/net/uip.c:1478-1490 | a connection with no segment size never sends data |
| TcpCalls.SizedSendsData | src/net/uip.c:1818-1840 | one with nothing outstanding sends it when asked if and only if it has a size |
| TcpStates.ClosingHandshake | src/net/uip.c:1870-1936 | past ESTABLISHED a segment leads on exactly by acknowledging the own FIN, bringing the peer's, or both, as in section 3.2 of RFC 793 |
| TcpStates.FinIsReturned | src/net/uip.c:1707-1727 | the peer's FIN is answered with the own one, or ignored while data is outstanding |
| TcpStates.TimeWaitLasts | src/net/uip.c:818-824 | TIME_WAIT lasts exactly the configured number of timer calls |
| TcpStates.AckRestartsTimer | src/net/uip.c:1585-1608 | an accepted acknowledgement restarts the timer, with the estimate only of segments sent once |
| TcpStates.OthersKeepTimer | src/net/uip.c:1573-1611 | other segments leave the timer running, except into TIME_WAIT |
| TcpStates.NewSegmentStartsAnew | src/net/uip.c:1808-1848 | what becomes outstanding anew has all its retransmissions before it |
| TcpEnds.SegmentsGoToPeer | src/net/uip.c:1958-1972 | every segment goes from the own port to the peer, and its window is zero exactly while the connection is stopped |
| TcpEnds.OpeningSpeaksToArguments | src/net/uip.c:514-534 | a connection `uip_connect` opens speaks, in any run, to the address and port it was asked for, from a port of its own |
| TcpEnds.AcceptedSpeaksToSender | src/net/uip.c:1455-1468 | one a SYN opens speaks to its sender |
| TcpEnds.IssCountsTimerCalls | src/net/uip.c:795-808 | the initial sequence number counts the timer calls |
| TcpEnds.OnlySynsOpen | src/net/uip.c:1398-1448 | a slot is opened if and only if a permitted SYN for a port listened to belongs to no connection and a slot can be had; then it is the right one |
| TcpEnds.UnmatchedIsAnswered | src/net/uip.c:1342-1393 | the answer to any segment that belongs to no connection |
| TcpEnds.OpeningAgreesOnSize | src/net/uip.c:1478-1490 | the smaller of the MSS option and the own limit; without an option what the slot had |
| TcpEnds.OpeningStartsAnew | src/net/uip.c:1455-1458 | both openings start with the configured interval and no retransmission counted |
| Checksum.AddWord | src/sal/arm/sal_chksum.c:60-64 | 16-bit addition with end-around carry is addition folded modulo 0xffff |
| Checksum.SalChecksum | src/sal/arm/sal_chksum.c:51-79 | the loop yields the folded sum of the big-endian words, an odd byte padded, for any length |
| Checksum.PacketBuffer.IpChksum | src/net/uip_arch.c:57-67 | the complemented sum of the 20 header bytes, in network order on either host |
| Checksum.PacketBuffer.UpperLayerChksum | src/net/uip_arch.c:71-111 | the folded sum of pseudo header and segment |
| Checksum.PacketBuffer.AcceptsHeader | src/net/uip.c:1046-1052 | a header is accepted if and only if its words sum to 0xffff |
| Checksum.PacketBuffer.AcceptsTcp | src/net/uip.c:1301-1307 | a segment is accepted if and only if pseudo header and segment sum to 0xffff |
| Checksum.PacketBuffer.AcceptsUdp | src/net/uip.c:1202-1207 | a datagram is accepted if and only if it has no checksum or sums to 0xffff |
| Checksum.PacketBuffer.SendTcp | src/net/uip.c:1980-2016 | what is sent passes the header and the TCP check, for any length; other bytes are kept |
| Checksum.PacketBuffer.SendUdp | src/net/uip.c:1250-1288 | the headers of the datagram; what is sent passes the header and the UDP check and its checksum field is never zero |
| Checksum.PacketBuffer.SendIp | src/net/uip.c:1998-2013 | the header is completed with a fresh identification and passes the header check |
| Checksum.PacketBuffer.EchoReply | src/net/uip.c:1109-1120 | type and checksum change, the addresses are exchanged, and the untouched header checksum still passes |
| Checksum.OddIsPadded | src/sal/arm/sal_chksum.c:66-74 | an odd number of bytes is summed as if a zero byte followed |
| Checksum.SegmentTotalIs | src/net/uip_arch.c:71-111 | the sum checked is that of the pseudo header of section 3.1 of RFC 793 and the segment, byte after byte |
| Checksum.EchoChecksumIs | src/net/uip.c:1111-1115 | on either byte order the update moves the field by 0x0800 modulo 0xffff |
| Checksum.EchoKeepsSum | src/net/uip.c:1109-1115 | the message's sum is kept modulo 0xffff |
| Checksum.EchoReplyPasses | src/net/uip.c:1109-1115 | the reply to a correct request passes the receiver's check if and only if the request is not all zeroes besides type and checksum |
| Ip6Match.GetMatchLength | src/net/uip-ds6.c:890-912 | exactly the number of leading common bits |
| Ip6Match.MatchIsSymmetric | src/net/uip-ds6.c:890-912 | symmetry |
| Ip6Match.MatchIsUltrametric | src/net/uip-ds6.c:890-912 | match(a, c) is at least the smaller of the other two, and equal to it when they differ |
| Ip6Match.FullMatchIsEquality | src/net/uip-ds6.c:890-912 | all 128 bits match exactly for equal addresses |
| Ip6Match.PrefixCmpIs | src/net/uip.h:1125 | the prefix comparison is a comparison of the prefix without its incomplete last byte |
| Ip6Match.PrefixCmpIsExact | src/net/uip.h:1125 | it compares prefixes of a length for all addresses if and only if the length is a multiple of eight |
| Ip6Match.SelectSrc | src/net/uip-ds6.c:836-866 | for a global unicast destination the last of the best matching preferred global addresses, otherwise the first preferred link-local one, or unspecified |
| Ip6Match.RouteLookup | src/net/uip-ds6.c:740-770 | a used route of maximal length among those that match, the last one on ties, and none only if none matches |
| Ip6Match.LookupIsLongestPrefixMatch | src/net/uip-ds6.c:740-770 | with prefixes that end with a byte this is longest prefix match |
| Ip6Match.OtherRoutesCatchTooMuch | src/net/uip-ds6.c:748-755 | a route with any other length also matches a destination outside its prefix |
| Ip6Addresses.ListLoop | src/net/uip-ds6.c:273-296 | the first used match, else the last free slot, else nothing |
| Ip6Addresses.MulticastIsBounded | src/net/uip-ds6.h:98-109 | at most one more multicast address in use than unicast addresses |
| Ip6Addresses.SameGroup | src/net/uip.h:2112-2125 | two addresses have the same solicited-node group exactly if their last 24 bits agree |
| Ip6Addresses.RoomForSolicitedNode | src/net/uip-ds6.c:566-589 | a free unicast slot implies a free multicast slot |
| Ip6Addresses.RemovalKeepsValid | src/net/uip-ds6.c:595-605 | removing an address keeps the tables valid; the other addresses keep their groups if and only if none shares the group removed |
| Ip6Addresses.Interface.Init | src/net/uip-ds6.c:111-149 | after initialisation: the link-local address, its group and all-nodes, nothing else |
| Ip6Addresses.Interface.AddrAdd | src/net/uip-ds6.c:566-591 | a new address takes a free slot and joins its group, never for lack of room; duplicates and a full list change nothing |
| Ip6Addresses.Interface.AddrRm | src/net/uip-ds6.c:595-605 | the address and its group go; all-nodes stays |
| Ip6Addresses.Interface.MaddrAdd | src/net/uip-ds6.c:660-671 | a new group takes a free slot, and fails only if present or out of room |
| Ip6Addresses.Interface.Dad | src/net/uip-ds6.c:916-950 | another solicitation or PREFERRED; the nested lookup returns the cursor to its slot |
| Ip6Addresses.Interface.DadFailed | src/net/uip-ds6.c:958-967 | the address is removed unless it is link-local |
| Ip6Addresses.Interface.Periodic | src/net/uip-ds6.c:174-185 | every slot is visited exactly once, in order, although the callees overwrite the scan's cursor |
| Neighbours.NbrCache.FindOldest | src/net/uip-ds6.c:339-352 | the first entry of least time stamp, if older than now |
| Neighbours.NbrCache.Add | src/net/uip-ds6.c:300-362 | a free slot, or after one eviction the oldest entry's; otherwise nothing changes; recursion ends after one step |
| Neighbours.NbrCache.NsSllao | src/net/uip-nd6.c:182-207 | the sender's entry takes the address over and is stale if it is new or different; else a stale entry is made |
| Neighbours.NbrCache.RaSllao | src/net/uip-nd6.c:780-800 | the same for a router advertisement, and the sender is a router |
| Neighbours.NbrCache.TakeAdvertisement | src/net/uip-nd6.c:448-501 | (state, link-layer address, router flag) are those of section 7.2.5 of RFC 4861 for every prior state, flags and option |
| Neighbours.NbrCache.NaInput | src/net/uip-nd6.c:445-501 | the target's entry changes so and no other entry does; nothing changes without one |
| Neighbours.NbrCache.Solicit | src/net/uip-ds6.c:1099-1117 | an unknown next hop gets an INCOMPLETE entry with one solicitation counted, composed for its solicited-node group |
| Neighbours.NbrCache.OnLink | src/net/uip-ds6.c:551-562 | on the link if and only if a used prefix covers the address |
| Neighbours.NbrCache.DefrtChoose | src/net/uip-ds6.c:443-470 | the first default router whose address is known, else the last one in use, and none only if there is none |
| Neighbours.NbrCache.NextHop | src/net/uip-ds6.c:1072-1096 | the destination itself on the link, else the longest route's next hop, else a default router, else the destination |
| Neighbours.NbrCache.Resolve | src/net/uip-ds6.c:1060-1157 | a cached address is handed out only if an option for that next hop carried it; a frame to a group goes to the group of the packet's destination; once its address is handed out no entry of the next hop is STALE: one that was is in DELAY for five seconds with nothing counted |
| Neighbours.SameGroupAddr | src/net/uip-ds6.c:1143-1152 | two groups have the same Ethernet address exactly if their last 32 bits agree |
| Neighbours.NbrCache.RefreshIpin | src/net/uip-ds6.c:1165-1185 | only the sender's entry in DELAY becomes REACHABLE, for the reachable time |
| Neighbours.AdvertisementRules | src/net/uip-nd6.c:448-501 | the rules of section 7.2.5 one by one |
| Neighbours.LearningMakesKnown | src/net/uip-nd6.c:182-207 | after a link-layer option, entry by entry: the source's has that address and is STALE if it is new or the address is; no other changes, unless it makes room |
| Neighbours.YoungestStays | src/net/uip-ds6.c:339-352 | the entry made last is not given up while an earlier one is there |
| Neighbours.FailedProbesGo | src/net/uip-ds6.c:238-245 | of the entries in PROBE exactly those whose routers are dropped go |
| Neighbours.NbrCache.DefrtAdd | src/net/uip-ds6.c:393-417 | default routers stay distinct |
| Neighbours.NbrCache.Visit | src/net/uip-ds6.c:212-256 | one entry's turn: solicit, age, probe, or give up and drop the default router with that address |
| Neighbours.NbrCache.Periodic | src/net/uip-ds6.c:209-258 | every entry takes one turn; the default routers of the neighbours given up are gone |
| Neighbours.UpdateKeepsValid | src/net/uip-nd6.c:454-491 | changing an entry keeps: distinct addresses, `nscount` <= 3, >= 1 in PROBE, 0 in DELAY, only learned link-layer addresses, no way back to INCOMPLETE |
| Neighbours.NewKeepsValid | src/net/uip-ds6.c:309-334 | so does a new entry |
| Neighbours.TicksKeepValid | src/net/uip-ds6.c:209-258 | so does a periodic scan |
| Neighbours.GivesUpAfterThree | src/net/uip-ds6.c:213-253 | for any times of the periodic scan: an entry that is gone has had exactly three solicitations composed, one still there as many as it counts |
| Neighbours.NudGivesUp | src/net/uip-ds6.c:1099-1117 | three solicitations composed in all for an entry that resolving made (its own one included) and for one in DELAY |
| Neighbours.LivesUntil | src/net/uip-ds6.c:213-253 | visited at least one retransmission interval apart, the entry lives for exactly as many more visits as it has solicitations left, and one |
| NbrLives.GivesUpAfterThreeInTraffic | src/net/uip-ds6.c:1119-1140 | the same with packets to the neighbour between the scans |
| NbrLives.SolicitedWhenQuiet | src/net/uip-ds6.c:213-253 | until an entry has its three, each scan that finds it untouched for the retransmission interval solicits, and no other |
| NbrLives.LivesUntilQuiet | src/net/uip-ds6.c:213-253 | for any scans and packets: the entry is given up if and only if a scan comes after as many quiet scans as it has solicitations left, quiet scans being read off the times alone |
| NbrLives.BusyNeighbourStays | src/net/uip-ds6.c:1138 | a probed neighbour that never answers is neither solicited nor given up while every scan follows a packet to it by less than the retransmission interval |
| NbrLives.ReachableUntilItsTime | src/net/uip-ds6.c:222-229 | a REACHABLE entry is left alone until the first scan at or after its time, whatever is sent to it |
| NbrLives.ReachableAges | src/net/uip-ds6.c:222-229 | that scan makes it STALE |
| NbrLives.SilentStaleNeighbour | src/net/uip-ds6.c:1131-1138 | a STALE neighbour that never answers: nothing until a packet uses it; from five seconds after that on each quiet scan solicits it, three times in all, and exactly a scan after the third removes it |
| NbrLives.SilentNewNeighbour | src/net/uip-ds6.c:1099-1117 | a new next hop that never answers is solicited twice by the scans and removed exactly by a scan after that |
| NbrLives.AnsweredInDelay | src/net/uip-ds6.c:1165-1185 | a neighbour heard of in DELAY is not solicited before its reachable time is over |
| NbrLives.GroupOnlyWhileUnknown | src/net/uip-ds6.c:213-253 | without an answer, solicitations for an unknown address go to its group and all others to the neighbour |
| Ds6Scans.LeftToSend | src/net/uip_task.c:784-785 | of the solicitations a scan composes the last neighbour's is left to send, else the last own address's, and nothing if and only if none is due |
| Ds6Scans.Periodic | src/net/uip-ds6.c:174-258 | the scan of addresses and neighbours does to every slot what one visit does, and leaves that solicitation in the buffer |
| Ds6ScanRuns.GivenUpAfterThreeSent | src/net/uip-ds6.c:209-258 | for any run of scans: a neighbour that is given up has been left three solicitations to send if and only if no scan that solicited it solicited one behind it |
| Ds6ScanRuns.GivenUpUnasked | src/net/uip_task.c:784-785 | two next hops resolved at once: the first is given up and none of its scan solicitations was left to send |
| Ds6ScanRuns.PreferredAfterAllSent | src/net/uip-ds6.c:916-930 | an own address that becomes PREFERRED has had all its solicitations left to send if and only if no scan that solicited it solicited another behind it or a neighbour |
| Ds6ScanRuns.PreferredUnasked | src/net/uip_task.c:784-785 | two addresses configured at once: the first becomes PREFERRED with none of its solicitations left to send |
| Ds6ScanRuns.LivesItsLifetime | src/net/uip-ds6.c:174-180 | an address is in use until the first scan at or after the end of its life, and one without an end for good |
| Ds6ScanRuns.PreferredAfterDetection | src/net/uip-ds6.c:916-930 | an uncontested address is solicited by its first `maxdadns` due scans and becomes PREFERRED at the next, and not before |
| Pvlan.EgressIsSymmetric | src/board/brd_vlan.c:475-492 | the union of the groups a port is in is a symmetric relation |
| Pvlan.UpdateIsRight | src/board/brd_vlan.c:459-493 | index update and mask loop compute the membership and the union for the changed groups |
| Pvlan.ApplyAgrees | src/board/brd_vlan.c:329-427 | every create, destroy and port_set keeps: distinct ids in 1..max_count, at most max_count groups, index and masks that agree with the groups |
| Pvlan.RunAgrees | src/board/brd_vlan.c:329-493 | so does every run, hence egress is symmetric after it |
| Pvlan.DefaultAgrees | src/board/brd_vlan.c:217-252 | the state after a reset agrees |
| PvlanGroups.ApplyKeepsPromise | src/board/brd_vlan.c:329-540 | create, destroy and port_set do to the map from ids to ports exactly what is promised, with the right error if and only if there is cause; the ports set are the group's, and no other group changes |
| PvlanGroups.CreateNeedsMode | src/board/brd_vlan.c:334-347 | SYS_ERR_STATE exactly outside the mode; no failure changes anything |
| PvlanGroups.AgreeingShows | src/board/brd_vlan.c:459-493 | index and masks are views of that map: a port is in the groups that list it, and its packets leave for the ports it shares a group with |
| PvlanGroups.PortSetShows | src/board/brd_vlan.c:459-493 | a port's memberships and egress after port_set, from the ports set and the other groups |
| PvlanGroups.RunRefines | src/board/brd_vlan.c:329-540 | after any run index and masks show what the map holds that was given the same operations |
| Pvlan.VlanDb.constructor | src/board/brd_vlan.c:141-152 | zeroed memory and `_brdimpl_vlan_init` give the default database, which satisfies the invariant |
| Pvlan.VlanDb.GroupGet | src/board/brd_vlan.c:93-118 | the node of the group and its predecessor, or NOT_FOUND |
| Pvlan.VlanDb.GroupTake | src/board/brd_vlan.c:97-112 | the node is unlinked; the list stays acyclic from `head` to `tail` with `count` nodes |
| Pvlan.VlanDb.Create | src/board/brd_vlan.c:329-386 | appends a group without ports, or fails with the right error and no change |
| Pvlan.VlanDb.Destroy | src/board/brd_vlan.c:393-427 | clears the group's ports, unlinks it and frees its node |
| Pvlan.VlanDb.UpdatePort | src/board/brd_vlan.c:462-492 | one port's index entry and egress mask |
| Pvlan.VlanDb.PvlanPortSet | src/board/brd_vlan.c:430-540 | all ports' index entries and masks, then the list entry; unknown and unchanged groups change nothing |
| Pvlan.VlanDb.FreeAllButFirst | src/board/brd_vlan.c:224-240 | every node but the first is freed, none is leaked |
| Pvlan.VlanDb.Reset | src/board/brd_vlan.c:192-261 | one group with all ports, whatever was there before |
| Pvlan.VlanDb.TypeSet | src/board/brd_vlan.c:267-311 | reset and new capacity when the type changes, nothing otherwise |
| RxChain.RunKeepsSorted | src/kernel/rx.c:76-167 | any run of registrations and removals keeps the chain sorted by priority and within its capacity |
| RxChain.UnregisterUndoesRegister | src/kernel/rx.c:146-167 | removing what was just registered restores the chain |
| RxChain.Callbacks.Register | src/kernel/rx.c:76-130 | the slot is linked before the first entry of the same or a greater priority; NULL and a full array are errors without change |
| RxChain.Callbacks.Unregister | src/kernel/rx.c:147-167 | the first entry of the callback is cut out and its slot freed; the chain has exactly the slots in use, `rx_cbk_count` of them |
| RxChain.Callbacks.NextEligible | src/kernel/rx.c:193-209 | the walk passes over exactly the callbacks that are not to see the packet |
| RxBuffers.RxKernel.Offer | src/kernel/rx.c:182-234 | the eligible callbacks are asked in chain order, each at most once, up to the first that takes the packet; what they give back meanwhile, and nothing else, is no longer held |
| RxBuffers.BuffersAreCounted | src/board/brd_rxtx.c:85-178 | as many buffers as descriptors in the hardware and wrappers above |
| RxBuffers.MoveUp | src/board/brd_rxtx.c:94-120 | a buffer moving into a wrapper is still in exactly one place |
| RxBuffers.MoveDown | src/board/brd_rxtx.c:158-172 | a buffer moving to the hardware is still in exactly one place |
| RxBuffers.Board.RxHandler | src/board/brd_rxtx.c:75-122 | a free wrapper always exists, takes the buffer, and the descriptor is recycled |
| RxBuffers.Board.RxFillBuffer | src/board/brd_rxtx.c:148-178 | the buffer goes to a descriptor in the hardware and its wrapper to the free list |
| RxBuffers.RxKernel.Refill | src/kernel/rx.c:170-180 | to the hardware while a callback is registered, to the pool otherwise |
| RxBuffers.RxKernel.Drain | src/kernel/rx.c:131-141 | the whole pool goes to the hardware |
| RxBuffers.RxKernel.Register | src/kernel/rx.c:76-144 | the pool is empty after the first registration; nothing held changes |
| RxBuffers.RxKernel.Unregister | src/kernel/rx.c:147-167 | nothing held changes |
| RxBuffers.RxKernel.FreePacket | src/kernel/rx.c:238-245 | the packet is no longer held; NULL is ignored |
| RxBuffers.RxKernel.AddBuffer | src/kernel/rx.c:248-271 | one new buffer and one new wrapper, unless NULL or empty |
| RxBuffers.RxKernel.Receive | src/kernel/rx.c:183-235 | no buffer is lost or duplicated: the packet is held afterwards if and only if the last callback asked kept it, and the packets callbacks gave back meanwhile are not; without a callback it goes to the pool, otherwise unless kept to the hardware |
| RxBuffers.OfferedTo | src/kernel/rx.c:193-209 | a damaged packet is offered exactly to the callbacks that accept such packets, any other to all |
| Timers.SysTimer.Add | src/kernel/timer.c:129-171 | a registered timer restarts in place, another takes the first empty slot, or the call fails |
| Timers.SysTimer.Remove | src/kernel/timer.c:172-195 | the slots behind move down by one |
| Timers.SysTimer.Visit | src/kernel/timer.c:87-99 | the callback to call and the mark it leaves |
| Timers.SysTimer.Returned | src/kernel/timer.c:101-105 | the slot is updated only if it still holds that callback |
| Timers.RunKeepsCompact | src/kernel/timer.c:75-195 | under any interleaving of additions, removals, nested scans and returns the timers form a gap-free prefix with distinct callbacks |
| Timers.SweepFiresAllDue | src/kernel/timer.c:87-108 | a scan whose callbacks return at once, calling nothing, at one point in time: exactly the timers that were due fire |
| Timers.OnlyStaleReturnsSpoil | src/kernel/timer.c:98-105 | an unmarked slot holds the time of its timer's last firing; of all events exactly a stale return ends that |
| Timers.NeverTooEarly | src/kernel/timer.c:92-107 | over a run without a stale return: between two firings without addition or removal there are at least `interval` true ticks, across counter wrap-around |
| Timers.DisciplinedIsNeverTooEarly | src/kernel/timer.c:92-107 | a timer not registered anew while its callback runs has no stale return, hence never fires too early |
| Timers.StaleReturnFiresTooEarly | src/kernel/timer.c:101-105 | in every reachable state a stale return has a continuation in which the timer fires too early, if its interval leaves time since the last firing |
| Timers.SelfRearmingIsHarmless | src/kernel/timer.c:98-106 | a callback that removes and re-adds its own timer without a nested scan makes no stale return |
| Timers.RearmedFiresTooEarly | src/kernel/timer.c:98-106 | the run in which a re-registered timer fires after one tick, for every interval from two to 2^31 - 1 |
| Timers.ReachableIsSound | src/kernel/timer.c:75-112 | every reachable stack has only waiting calls below its top, from slots of the table, not later than their timers' last firings |
| Timers.LostExactlyByMissing | src/kernel/timer.c:98-106 | of all events, registering anew while its callback runs aside, exactly the return of its own callback to a slot without it loses a registered timer |
| Timers.LostIffShifted | src/kernel/timer.c:172-195 | over the life of a callback whose timer stays registered and is not registered anew: lost at its end if and only if a slot before its own was freed |
| Timers.FiringIsInPlace | src/kernel/timer.c:92-99 | a firing starts a callback's life with its timer registered in the slot it is called from |
| Timers.LostFromFiringToReturn | src/kernel/timer.c:92-106 | so from a firing to the callback's return: lost if and only if a slot before its own was freed meanwhile |
| Timers.NeverLost | src/kernel/timer.c:75-195 | over a run without such a removal, and without registering the timer anew while its callback runs, it is never lost |
| Timers.RemovingAnEarlierTimerLosesOwn | src/kernel/timer.c:98-106 | a callback that removes an earlier timer leaves its own marked as in progress |
| Timers.RemovingAnEarlierTimerRun | src/kernel/timer.c:87-106 | a run from a fresh table that ends so |
| Timers.LostNeverFires | src/kernel/timer.c:92-99 | such a timer never fires again until it is removed |
| TimerScans.BreakMissesNone | src/kernel/timer.c:87-91 | wherever a reachable scan breaks off, no slot from there on is in use |
| TimerScans.VisitedUnlessSkipped | src/kernel/timer.c:87-108 | whatever callbacks do to other timers, a scan visits a timer ahead of it if and only if no callback frees a slot at or before the scan's while the timer is in the next one |
| TimerScans.DueTimersFire | src/kernel/timer.c:87-108 | a due timer ahead of the scan fires before it ends, by it or a nested scan, unless it is skipped, added or removed; callbacks may take any time short of a counter wrap since its start |
| TimerScans.SelfRemovalSkipsTheNext | src/kernel/timer.c:87-110 | a callback that removes its own timer: the scan ends with the next timer due and not fired |
| TimerScans.OneScanPerTick | src/kernel/timer.c:75-112 | once a scan has ended outside callbacks no other starts before the counter moves on |
| TimerScans.ScansStartAgain | src/kernel/timer.c:75-112 | then it does |
| TimerSettings.OnlyOutdatedReturnsSpoil | src/kernel/timer.c:101-105 | a timer stays registered with the argument and interval last asked for, and its start is that of its last addition or firing; of all events exactly the return of a callback called before ends that |
| TimerSettings.NotBeforeItsInterval | src/kernel/timer.c:129-171 | over any run without such a return: when a timer fires, at least the interval asked for has passed, in true ticks, since its last addition or firing |
| TimerSettings.DueAfterItsInterval | src/kernel/timer.c:92-96 | and it is due from then on, short of a counter wrap |
| TimerSettings.PatientIsNotBeforeItsInterval | src/kernel/timer.c:129-171 | a timer not added while its callback runs has no such return |
| TimerSettings.RestartFromCallbackFiresTooEarly | src/kernel/timer.c:101-105 | the run in which a callback restarts its own timer and it fires too early, by the time the callback took |

## Left out

* IP reassembly (`uip_reass`), the IPv6 build of `uip.c`, and packets whose IPv4 length field is smaller than the header.
* The TCP and neighbour discovery option walks: a parsed MSS option or link-layer address is an input.
- TcpEngine.Uip.FoundEstablished: urgent data; segments have URG clear.
- TcpEngine.Uip.Found: urgent data and data segments that carry TCP options, whose payload the code takes from a fixed offset.
* The RTT estimator: its result is an arbitrary byte.
* The access list of accepted SYNs: its outcome is a flag. `uip_listen`, `uip_unlisten` and `uip_linkchange`.
* Echo requests shorter than the four bytes whose fields are rewritten.
- Checksum.PacketBuffer.UpperLayerChksum: for IPv4 packets whose length field covers the header; the IPv6 branch is not part of this model.
* Timers of `stimer`, `etimer` and `timer` are expiry times in unbounded natural numbers; seconds and milliseconds are not told apart.
- Ip6Addresses.Interface.Init: the link-local prefix entry and the interface parameters set there, and the call that only clears the tables.
* Changes of the IPv6 prefix list, router solicitations, default router lifetimes, the prefix and lifetime parts of router
  advertisements, anycast addresses, and the router build.
* The packet contents that `uip_nd6_ns_output` writes, except where the packet goes; its source address selection is `Ip6Match.SelectSrc`.
* The validity checks on neighbour discovery headers, and mDNS.
- Neighbours.NbrCache.TakeAdvertisement: the default router dropped when a router turns host is looked up by the packet's source, as the code does, not by the target; the 8-bit truncation of the comparison of link-layer addresses is taken as "differ".
* `isrouter` set through the file-static pointer when a router advertisement has no link-layer option (src/net/uip-nd6.c:900-903).
- Pvlan.VlanDb.PvlanPortSet: calls while the type is not VT_PORT_BASED, whose branch works on a group of all ports; hardware failures, which leave state half updated.
- Pvlan.VlanDb.Create: the 802.1Q type, and allocation and hardware failures.
- Pvlan.VlanDb.Destroy: the 802.1Q type with its hardware call.
- Pvlan.VlanDb.TypeSet: the 802.1Q type and its capacity, and hardware failures.
- Pvlan.VlanDb.Reset: the hardware part, whose source is a chip driver, is taken to lift all egress restrictions.
* The error flags of a received packet select callbacks that accept truncated packets, as the code does (src/kernel/rx.c:204-209).
* Registration from inside a receive callback, which `include/kernel.h:87` forbids, allocation and hardware failures of the receive path, and the transmit path.
- Timers.SweepFiresAllDue: callbacks that return at once, at one point in time; `TimerScans.VisitedUnlessSkipped` and `TimerScans.DueTimersFire` have the general case.
- Pvlan.VlanDb.constructor: the builds that keep the database in persistent memory, which leave the type undefined until it is read.
* `sys_timer_task` is a state machine of its steps and not one method, because its callbacks call back into it; `SysTimer` has the
  parts of it between those calls. `src/kernel/background.c`, the scheduler that starts it.
* Bit tricks of `include/soc/pbmp.h` and the conversions between user and logical ports.
