# A verified model of the camera bridge

The bridge brings IP cameras behind NAT to a local network. Its Rust engine speaks
PTCP, a reliable ordered byte stream over UDP; many TCP connections share one PTCP
session, each as a *realm*; ONVIF/HTTP responses are rewritten on the way to the
client. A Python manager starts, stops and restarts one engine process per camera and
service, and a Python generator cuts a raw JPEG stream into a multipart response.

This project models these parts in Dafny and proves what they promise. Check it with
`dafny verify dfyconfig.toml`.

## How the model is laid out

| layer | modules |
|---|---|
| wrapping counters, options, byte strings and the PTCP wire format | `Words`, `Options`, `ByteStrings`, `Codec` |
| one session: functions on values, their invariant, and the class with its loops | `SessionSpec`, `SessionFacts`, `Session` |
| unbounded offsets behind the u32 counters; the reorder buffer and the send window as sets and tails of a log | `Stream`, `Reordering`, `Receiver`, `Sender` |
| two sessions, the codec between them, and a network that loses, duplicates, delays and reorders datagrams | `Network` |
| theorems over all runs | `Safety`, `OrderIndependence`, `Resync`, `GapSkip`, `GapRuns`, `StallBound` |
| realms over the session | `Realms`, `RealmTables` |
| JPEG splitting, the live-view generator, and a client that reads it | `Splitter`, `Frames`, `Multipart` |
| HTTP: URL rewriting, completeness, reframing | `Decimal`, `Rewriter`, `Addresses`, `Seams`, `RewriterTwice`, `Http`, `Response` |
| from the camera's payloads to the HTTP client | `ClientResponses` |
| the worker manager: steps, runs, the class, and what restarts | `Lifecycle`, `LifecycleRuns`, `LifecycleManager`, `LifecycleRestarts` |

Code that changes fields or buffers in loops (`PTCPSession`, the realm tables, the
splice loop, the header loop, the collecting loop, the generator, `P2PManager`) is a
class or a method with loops, each proved equal to a function; the theorems are about
those functions. Bytes are numbers below 256, u32 values are numbers below 2^32 and
`usize` is 64 bits wide; wrap-around is written out where it can happen: in the counters,
in the codec, and in the sum of the completeness test, which the release build does not
check. Buffer lengths and indices are unbounded.

### Assumptions

- The hand-over is clean: each side's receive offset is where the other's `sent` stands, nothing
  is buffered, and no packet from before it still waits for an acknowledgement
  (`Network.InitialEndpoint`). Packets the peer sends while the engine starts up are sends of the run.
- A datagram that arrives has the bytes of one the peer put on the wire in this session, or is
  one from before the hand-over. The start of its body, if it has one, lies within 2^31 bytes of
  the receive offset, and its acknowledgement within 2^31 bytes of the end of what was sent
  (`Network.Enabled`). Nothing is assumed about loss, order, repetition or delay.
- Both sides send only wire-safe bodies: those that read back as what they are, exactly the ones
  of `Codec.PacketRoundTrip`. The parser panics on others or takes them for something else.
- A body is at most 65535 + 12 bytes long.
- Time is passed in, in milliseconds, one value per call. Only the stall bound needs
  the clock to be monotone.
- Theorems about order, gaps and realms name the policy: strict (the default of `main`)
  or gap skipping (the default of the constructors).

### What turned out false, and when it holds

- *Every body survives the wire.* Exactly the wire-safe ones do (`Codec.BodyRoundTrip`);
  sender and receiver count alike for exactly the bodies of `Codec.CountSurvivesTheWire`.
- *The wrapped comparison is the order of the true offsets.* `Words.SequenceAfterExactly`
  says what it decides at any distance.
- *What the receiver lacks is still in the window.* Exactly for the latest 2048 packets sent
  (`Safety.NoPrematureDiscard`); `Safety.OverflowDiscards` is a run in which the window loses
  a packet for good.
- *The collecting loop gathers all that the camera sends.* However the response is cut, exactly
  if the completeness test says yes to no proper prefix of it (`Http.GatheredExactly`). It does for
  a body without a readable Content-Length, which by section 6.3 of RFC 9112 goes on until the
  connection closes: cut behind its header it loses the body, in one piece it does not
  (`Http.BodyWithoutLength`, `ClientResponses.CuttingDecides`; `ClientResponses.LengthlessLosesBody`
  is such a response). It also does for a length announced too short, and for one whose 64-bit sum
  wraps (`Http.CompleteExactly`; `Response.HugeLengthMisleads` is a header where it does).
- *A rewritten response is one whole message.* Exactly if the length it announces is the true
  one, or if the sum wraps and there is no body (`Response.Reframing`): without bare line feeds
  always (`Response.WriterSendsOneMessage`), while `Response.StrayLengthMisleads` is a header
  that hides another length behind one.
- *Rewriting twice is rewriting once.* True of each pass (`Rewriter.PassIsIdempotent`). Of both
  together exactly if no rtsp authority about to be replaced hides a scheme whose loss brings
  an address to light (`RewriterTwice.TwiceIsOnceExactly`); `RewriterTwice.TwiceIsNotOnce` is a
  text where one does.
- *A realm's queue holds a prefix of the realm's stream.* Whatever comes later, exactly if the
  realm id is fresh (`Realms.PrefixIffFresh`); otherwise it starts behind what came before
  (`Realms.QueueIsSlice`).

## Model

| member | source | states |
|---|---|---|
| Words.SequenceAfterExactly | rust-engine/src/ptcp.rs:549-551 | the comparison of two counters, at any distance of the true offsets: positive residue below 2^31 |
| Words.SequenceAfterIsOrder | rust-engine/src/ptcp.rs:549-551 | within 2^31 the wrapped comparison and wrapped equality decide order and equality of the unbounded offsets, both ways |
| Codec.PayloadRoundTrip | rust-engine/src/ptcp.rs:45-76 | a payload body reads back iff its length modulo 2^32 fits the 16-bit field |
| Codec.BodyRoundTrip | rust-engine/src/ptcp.rs:132-179 | parse after serialize returns the same body iff the body is wire-safe |
| Codec.PacketRoundTrip | rust-engine/src/ptcp.rs:195-232 | the same for whole packets with all header fields |
| Codec.SerializeInjective | rust-engine/src/ptcp.rs:221-232 | two wire-safe packets with the same datagram are equal |
| Codec.SerializeBody | rust-engine/src/ptcp.rs:156-191 | the wire size of every body is what the session counts with |
| Codec.BodyLayout | rust-engine/src/ptcp.rs:156-179 | the bytes of every body, those no parser reads included: reserved words zero, a bind ending in 127.0.0.1 |
| Codec.HeaderLayout | rust-engine/src/ptcp.rs:221-232 | the 24 header bytes: magic, then sent, recv, pid, lmid and rmid at fixed places |
| Codec.BigEndian | rust-engine/src/ptcp.rs:195-232 | a word has its most significant byte first |
| Codec.CountSurvivesTheWire | rust-engine/src/ptcp.rs:132-191 | the receiver counts as many bytes as the sender for exactly the listed bodies, which include all wire-safe ones |
| SessionFacts.AcknowledgedIsSuffix | rust-engine/src/ptcp.rs:507-519 | an acknowledgement, honest or not, removes a prefix of covered packets and stops at the first uncovered one |
| SessionFacts.DrainRunStops | rust-engine/src/ptcp.rs:489-494 | draining ends at a hole and leaves the rest of the buffer untouched |
| SessionFacts.DrainRunTakes | rust-engine/src/ptcp.rs:489-494 | the packets drained are exactly the entries removed, in the order in which the counter meets them, and the offset ends where that count ends |
| SessionFacts.SkipTargetExists | rust-engine/src/ptcp.rs:445-453 | when a skip is decided there is always a buffered packet ahead: the early return is unreachable |
| SessionFacts.ReceivedConsistent | rust-engine/src/ptcp.rs:377-505 | receiving any packet keeps: offset not buffered, gap count at most the buffer size, buffer non-empty iff count positive iff gap timer set |
| SessionFacts.RetriedConsistent | rust-engine/src/ptcp.rs:533-547 | a timer pass keeps it, with at most 50 retries an entry |
| SessionFacts.SentConsistent | rust-engine/src/ptcp.rs:334-375 | sending keeps it, with at most 2048 tracked packets |
| SessionFacts.AcceptedKeepsSender | rust-engine/src/ptcp.rs:377-487 | accepting data touches neither the send half nor the gap policy |
| Session.PTCPSession.FromState | rust-engine/src/ptcp.rs:314-328 | an adopted session starts at the given counters with nothing buffered or tracked, skipping allowed |
| Session.PTCPSession.SetAllowGapSkip | rust-engine/src/ptcp.rs:330-332 | only the policy changes |
| Session.PTCPSession.Send | rust-engine/src/ptcp.rs:334-375 | the packet and the whole new state: counters, message id, window with its oldest entry dropped when full |
| Session.PTCPSession.AcknowledgeSent | rust-engine/src/ptcp.rs:507-519 | the popping loop removes exactly the covered front |
| Session.PTCPSession.TakeContiguous | rust-engine/src/ptcp.rs:489-494 | the draining loop takes the contiguous run at the receive offset, in order |
| Session.PTCPSession.DrainContiguous | rust-engine/src/ptcp.rs:489-505 | the run, progress time, gap count and gap timer afterwards |
| Session.PTCPSession.NearestPending | rust-engine/src/ptcp.rs:448-453 | the search finds the circularly nearest buffered start ahead, or there is none ahead |
| Session.PTCPSession.BufferBeyondGap | rust-engine/src/ptcp.rs:421-486 | a new packet beyond a gap is set aside; the gap is given up under exactly the policy's condition |
| Session.PTCPSession.Accept | rust-engine/src/ptcp.rs:383-487 | empty, stale and duplicate packets change nothing; in-order ones drain; others wait |
| Session.PTCPSession.Recv | rust-engine/src/ptcp.rs:377-487 | the whole new state and delivery of one received packet, keeping `Valid` against any peer |
| Session.PTCPSession.HasRetransmissionStall | rust-engine/src/ptcp.rs:521-531 | true iff some packet has used all retries and nothing progressed for 15 s |
| Session.PTCPSession.DueRetransmissions | rust-engine/src/ptcp.rs:533-547 | returns the due packets in order and re-dates exactly those |
| Reordering.ArriveViews | rust-engine/src/ptcp.rs:416-430 | in strict mode the buffer stays the set of arrived segments beyond the end of the contiguous run |
| Reordering.SkipDelivers | rust-engine/src/ptcp.rs:445-478 | a skip moves strictly forward, passes over nothing set aside and delivers at least one segment |
| Receiver.DrainRefines | rust-engine/src/ptcp.rs:489-494 | draining the u32-keyed buffer delivers exactly the segments from the offset to the end of the run |
| Receiver.ArrivingExactly | rust-engine/src/ptcp.rs:383-414 | the stale and duplicate checks on wrapped counters pass a segment iff it is new and ends within 2^31 |
| Receiver.NearestIsLeast | rust-engine/src/ptcp.rs:448-453 | the circular minimum over wrapped keys is the least buffered segment |
| Receiver.AcceptedRefines | rust-engine/src/ptcp.rs:377-487 | every accepted segment of an honest sender moves the reorder buffer one step and delivers what it releases, across wrap-around |
| Sender.WindowSpan | rust-engine/src/ptcp.rs:363-373 | the window spans under 2^31 bytes |
| Sender.CoversExactly | rust-engine/src/ptcp.rs:507-519 | the wrapped test on an acknowledgement decides "segment consumed", both ways |
| Sender.AcknowledgedTail | rust-engine/src/ptcp.rs:507-519 | an acknowledgement, current or stale, leaves exactly the segments beyond the greatest boundary |
| Sender.SentSends | rust-engine/src/ptcp.rs:334-375 | after a send the window is again the tail of the log, short by one when it was full |
| Network.StaleIsIgnored | rust-engine/src/ptcp.rs:383-399 | a datagram from before the hand-over, body or acknowledgement alone, changes only `rmid`: no gap, no delivery, nothing discarded |
| Network.StepKeepsInv | rust-engine/src/ptcp.rs:334-547 | every send, retransmission, delivery or stale arrival keeps the invariant linking both sessions, the log and the wire |
| Network.RunKeepsInv | rust-engine/src/ptcp.rs:334-547 | hence every reachable state satisfies it |
| Safety.LogIsWhatWasSent | rust-engine/src/ptcp.rs:334-375 | the log is exactly the non-empty bodies handed to `send`, in order |
| Safety.EndToEndSafety | rust-engine/src/ptcp.rs:195-505 | for every run over any network of datagrams, serialized on one side and parsed on the other, what a strict receiver hands on is a prefix of what was sent, across any number of wrap-arounds |
| Safety.SkippingSafety | rust-engine/src/ptcp.rs:424-478 | with skipping it is a subsequence at strictly increasing positions |
| Safety.CountersCountBytes | rust-engine/src/ptcp.rs:344-353 | `sent` has advanced by the wire bytes of all bodies sent, `recv` by those handed on, modulo 2^32 |
| Safety.NumbersCountMessages | rust-engine/src/ptcp.rs:334-380 | over any run: message ids and packet numbers advance by the messages sent (SYN and empty ones not numbered), and the id echoed is the one last heard, modulo 2^32 |
| Safety.DatagramSays | rust-engine/src/ptcp.rs:334-362 | after any run, what a send puts on the wire parses to the body sent, at the byte count so far, acknowledging the receive offset, with `lmid` the next message id, `rmid` the id last heard, and `pid` 0x0002FFFF for a SYN and otherwise 0xFFFF less the messages numbered before, modulo 2^32 |
| Safety.WindowExact | rust-engine/src/ptcp.rs:334-375 | after any run the window is exactly what was sent beyond the greatest acknowledgement ever heard, cut down to the latest 2048 packets; contiguous, ending at `sent`, under 2^31 bytes |
| Safety.NoPrematureDiscard | rust-engine/src/ptcp.rs:363-373 | after any run, a packet the peer has not consumed is still held iff it is among the latest 2048 sent |
| Safety.OverflowDiscards | rust-engine/src/ptcp.rs:363-367 | 2049 packets into silence, from any start: the peer lacks the first, the window does not hold it, and no timer pass sends it again |
| OrderIndependence.ReceiveAllRefines | rust-engine/src/ptcp.rs:393-430 | over any history of arrivals with duplicates the session tracks the reorder buffer |
| OrderIndependence.BufferIsSetOfArrivals | rust-engine/src/ptcp.rs:393-430 | the offset is the end of the longest contiguous run of the set seen, exactly the later ones are buffered, and the run is what was delivered |
| OrderIndependence.SameSetSameResult | rust-engine/src/ptcp.rs:489-505 | two histories with the same set of segments end the same and deliver the same |
| Resync.DueIsWholeWindow | rust-engine/src/ptcp.rs:533-547 | if all of the window is due a pass returns all of it, in order |
| Resync.ResendingsAreDue | rust-engine/src/main.rs:217-237 | the datagrams of a timer pass carry exactly the packets the session calls due |
| Resync.RetransmissionResynchronises | rust-engine/src/ptcp.rs:377-419 | for a receiver at most 2048 segments behind, one batch, delivered in any order with repetitions, brings it to the sender's `sent` with an empty buffer |
| Resync.CaughtUpAckEmptiesWindow | rust-engine/src/ptcp.rs:507-519 | the next acknowledgement empties the window |
| Resync.ResynchroniseAfterAnyRun | rust-engine/src/ptcp.rs:533-546 | both, after any run that left the receiver at most 2048 packets behind |
| GapSkip.SkipGoesToNearest | rust-engine/src/ptcp.rs:424-478 | with an honest peer a skip goes to the nearest buffered segment, leaves none behind and hands on it and the run after it |
| GapSkip.NoSkipWhilePayloadWaits | rust-engine/src/ptcp.rs:424-453 | before the gap expires no skip happens while a payload waits |
| GapSkip.SkipsExactly | rust-engine/src/ptcp.rs:421-478 | a new packet beyond a gap makes the session give up on it iff skipping is allowed, no payload is at stake or the gap has timed out, and there is a recovery command, a 32nd packet or the timeout; otherwise it is set aside |
| GapSkip.GapAfter | rust-engine/src/ptcp.rs:424-505 | what any packet does to the gap clock and count: the clock starts when the buffer stops being empty and is not set again while it is not |
| GapRuns.HolesAreExcused | rust-engine/src/ptcp.rs:424-478 | over any run, every segment passed over was given up in some step in which the policy allowed it: the gap had expired, or no payload was waiting |
| GapRuns.ClockShowsBeginning | rust-engine/src/ptcp.rs:424-505 | after any history of arrivals, sends and timer passes the gap clock shows when the present gap began, and nothing if there is none |
| StallBound.HistoryConsistent | rust-engine/src/ptcp.rs:377-547 | the session invariant holds after every history of calls, whatever the peer sends |
| StallBound.HistoryAged | rust-engine/src/ptcp.rs:533-547 | every tracked packet was last sent at least 600 ms per retry after its first transmission |
| StallBound.ProgressIsLatestHandOn | rust-engine/src/ptcp.rs:495-497 | the progress time is at or after every hand-on |
| StallBound.StallVerdict | rust-engine/src/main.rs:217-233 | a stall verdict means some packet unacknowledged for 30 s and nothing handed on for 15 s |
| StallBound.HistoryPrompt | rust-engine/src/main.rs:219-227 | while the timer runs, every tracked packet was last sent at most 600 ms and one period per retry after its first transmission |
| StallBound.VerdictComes | rust-engine/src/main.rs:217-233 | while the timer runs and nothing has been handed on for 15 s, no verdict means that every unacknowledged packet is within fifty times 600 ms and a period |
| Realms.QueueGathers | rust-engine/src/process.rs:363-392 | while open, a queue gathers exactly its realm's payloads, whatever other realms do |
| Realms.RegisteredQueueGathers | rust-engine/src/main.rs:47-62 | from registration to first closing, for every interleaving |
| Realms.QueueIsSlice | rust-engine/src/process.rs:382-389 | fresh or not, what came on the realm before the registration, followed by the queue, is a prefix of all that came in on it |
| Realms.FreshQueueIsPrefix | rust-engine/src/process.rs:382-389 | with a fresh realm id the queue is a prefix of all that came in on the realm |
| Realms.PrefixIffFresh | rust-engine/src/main.rs:47-49 | the queue stays a prefix for every continuation iff the realm id is fresh |
| Realms.RealmStreamSafety | rust-engine/src/process.rs:346-394 | composed with the session: that stretch, or prefix for a fresh id, of what the camera was asked to send on the realm, over any network |
| Realms.ReleasedExactly | rust-engine/src/process.rs:365-378 | over all event orders: the client registered by an event learns of its CONN iff one comes in for its realm after that, before a re-registration, a failed bind or a DISC of that realm |
| Realms.OnvifRealmExactly | rust-engine/src/process.rs:370-380 | over all event orders: the ONVIF realm is the one bound last, unless a DISC of that same realm came in since |
| Realms.ReusedRealmMissesTheStart | rust-engine/src/main.rs:47-49 | on a reused id the next payload breaks the prefix claim unless it equals the realm's first |
| RealmTables.RealmTables.constructor | rust-engine/src/main.rs:198-201 | empty tables |
| RealmTables.RealmTables.RegisterClient | rust-engine/src/main.rs:47-52 | a new queue fed by the realm and a waiter for its CONN; all else unchanged |
| RealmTables.RealmTables.BindFailure | rust-engine/src/main.rs:53-85 | both entries of the realm are gone; queues keep their contents |
| RealmTables.RealmTables.DispatchStatus | rust-engine/src/process.rs:365-381 | CONN releases the waiter once; DISC closes the realm and clears the ONVIF realm only if it is that one |
| RealmTables.RealmTables.DispatchPayload | rust-engine/src/process.rs:382-389 | the bytes go to the realm's live queue and nowhere else |
| RealmTables.RealmTables.DispatchOne | rust-engine/src/process.rs:364-391 | one body handed on moves the tables by one event |
| RealmTables.RealmTables.DispatchAll | rust-engine/src/process.rs:363-392 | the loop over what one datagram released is that sequence of events |
| Decimal.PrintParses | rust-engine/src/process.rs:135-141 | a printed length reads back |
| Decimal.DigitsArePrinted | rust-engine/src/process.rs:206-212 | any digits are zeros followed by the printed form of the number read from them |
| Splitter.JpegsAreScan | app/main.py:427-440 | the files are those of the scan by positions: first SOI, first EOI at least two bytes later, repeat |
| Splitter.SplitAnywhere | app/main.py:426-440 | cutting the stream anywhere and keeping only what the code keeps loses no file and invents none |
| Splitter.FromChunksIsWhole | app/main.py:422-440 | hence for any chunks the files are those of the whole stream |
| Splitter.ChunkIndependence | app/main.py:418-440 | both together, from an empty buffer |
| Splitter.FilesAreImages | app/main.py:427-440 | every file begins with FF D8, ends with FF D9 and has no FF D9 in between |
| Splitter.KeptExactly | app/main.py:428-436 | of a stretch without a complete file all from its first FF D8 on is kept, or its last two bytes if it has none |
| Frames.DrainBuffer | app/main.py:427-447 | the inner loop terminates, yields one part a complete file, and trims the buffer without losing a marker |
| Frames.Frames | app/main.py:414-447 | the generator, to the first empty read, yields one part for each file of the whole stream |
| Frames.BeforeEofIs | app/main.py:422-426 | what the generator takes are the reads up to the first empty one |
| Frames.ResponseReadsBack | app/main.py:441-447 | a multipart client that trusts the part lengths recovers exactly the files |
| Multipart.BrowserShowsImages | app/main.py:441-447 | a multipart client that looks for the boundary, reads the header lines of each part, asks for `image/jpeg` and a length, and then for the line end, shows exactly the files |
| Rewriter.CutIsWellCut | rust-engine/src/process.rs:27-38 | the left-to-right cut at URLs reassembles to the text, each authority ending at a delimiter |
| Rewriter.CutOfJoined | rust-engine/src/process.rs:27-38 | and is the only such cut |
| Rewriter.HostOfAuthority | rust-engine/src/process.rs:39-46 | the host looked at is the host of `[user@]host[:port]` |
| Rewriter.ReplacePass | rust-engine/src/process.rs:25-58 | the splice loop, whose buffer changes length while it scans, terminates and equals the recursive scanner |
| Rewriter.PassReplacesAuthoritiesOnly | rust-engine/src/process.rs:25-58 | the output cuts into the same text with only the replaceable authorities replaced |
| Rewriter.PassIsIdempotent | rust-engine/src/process.rs:25-58 | a second run of the same pass changes nothing |
| Rewriter.PassLeavesNoAddress | rust-engine/src/process.rs:47-57 | no URL of the scheme names an IPv4 literal or localhost any more, except the new authority |
| Rewriter.ReplaceUrlAuthorities | rust-engine/src/process.rs:19-61 | both passes in order |
| Rewriter.NoCameraStreamAddressLeft | rust-engine/src/process.rs:19-61 | after both, no stream URL names a camera address |
| Addresses.ReplacedExactly | rust-engine/src/process.rs:39-57 | an authority `[user@]host[:port]` is replaced iff its host is four runs of digits joined by single dots or the letters "localhost" in any case |
| Addresses.HasParts | rust-engine/src/process.rs:39-46 | every authority has such parts |
| Addresses.DelimitersAre | rust-engine/src/process.rs:33-37 | an authority ends at a slash, a space, a line end, a quote or an angle bracket, and at nothing else |
| Addresses.UrlRewritten | rust-engine/src/process.rs:25-58 | a pass at the first URL of a text: what leads up to the authority stays, the authority is replaced iff its host is an address, and the pass goes on behind it |
| Addresses.SpelledExactly | rust-engine/src/process.rs:26-32 | a scheme is found with each of its letters in either case, and only so |
| Addresses.NamespaceKept | rust-engine/src/process.rs:47-57 | `http://www.w3.org`, the namespace of a SOAP envelope, stays |
| Addresses.CameraRewritten | rust-engine/src/process.rs:47-57 | `http://10.0.0.25` gets the local authority |
| Seams.CutJoins | rust-engine/src/process.rs:26-58 | where no scheme and no authority crosses, the cut of a text is that of its two parts |
| RewriterTwice.SettledExactly | rust-engine/src/process.rs:19-61 | rewriting the rewritten text changes nothing iff no http URL in it names an address |
| RewriterTwice.TwiceIsOnceExactly | rust-engine/src/process.rs:19-61 | the same condition read off the text before the second pass: no replaceable rtsp authority ends in `http:` with two slashes and, behind them, an http URL that names an address |
| RewriterTwice.TwiceIsNotOnce | rust-engine/src/process.rs:19-61 | a text for which rewriting twice is not rewriting once |
| Http.HeaderEnd | rust-engine/src/process.rs:203-205 | the first blank line, or that there is none |
| Http.CompleteFrom | rust-engine/src/process.rs:213-216 | with the wrapping sum, a prefix is complete iff it reaches the message's end or, if the sum wraps, the end of the header |
| Http.CompleteExactly | rust-engine/src/process.rs:202-217 | a prefix of a stream is complete iff it reaches the end its header announces; that holds for all prefixes iff the 64-bit sum does not wrap or no body is announced |
| Http.CompleteStays | rust-engine/src/process.rs:202-217 | more bytes never make a complete response incomplete |
| Http.LengthReadExactly | rust-engine/src/process.rs:206-212 | a line announces a length iff it is the field name in any case, a colon, and between ASCII white space a number that fits, with a plus sign or without, any zeros in front |
| Http.Needed | rust-engine/src/process.rs:160-166 | how many chunks the loop takes: no earlier boundary is complete, and this one is unless the channel closed |
| Http.CollectResponse | rust-engine/src/process.rs:160-166 | the loop gathers exactly those chunks, in order |
| Http.CollectedUpTo | rust-engine/src/process.rs:159-170 | for every chunking the loop stops at the first boundary at or after the byte where the test first says yes |
| Http.CollectedExactly | rust-engine/src/process.rs:159-170 | when the stream is one message, the loop gathers exactly it, however it is cut |
| Http.GatheredExactly | rust-engine/src/process.rs:159-170 | every chunking gathers all that was sent iff the test accepts no proper prefix of it |
| Http.BodyWithoutLength | rust-engine/src/process.rs:206-216 | a body without a readable length is lost when the stream is cut behind the header, and kept when it is not cut |
| Http.CollectedIsWholeMessage | rust-engine/src/process.rs:159-170 | every chunking has gathered what the header announces iff the sum does not wrap or no body is announced; no earlier boundary reaches that end |
| Response.MessageBlank | rust-engine/src/process.rs:142-145 | the first blank line of the output is the one meant |
| Response.HeaderSplits | rust-engine/src/process.rs:127-130 | the header splits at CRLF into lines that rejoin to it |
| Response.HeaderLength | rust-engine/src/process.rs:206-212 | what the completeness test reads in a joined header, line by line, bare line feeds included |
| Response.LengthLinesSetIt | rust-engine/src/process.rs:131-134 | a line the completeness test reads a length from is one the rewriter replaces |
| Response.LengthLineReads | rust-engine/src/process.rs:132-141 | the line put in reads back as the number it was given |
| Response.NewHeaderLength | rust-engine/src/process.rs:130-141 | the length the new header announces, when the old one was right, wrong, repeated or missing |
| Response.HeaderLinesKept | rust-engine/src/process.rs:127-141 | the header of the output splits at CRLF into the lines of the input, in order and byte for byte, but for those that start with `content-length:` in any case, which are the new length line; one is added at the end iff there was none |
| Response.Reframing | rust-engine/src/process.rs:123-146 | the output has the rewritten body behind its first blank line and announces its length, or a stray one before; it is exactly one message iff that length is true or, when the sum wraps, there is no body |
| Response.StrayLengthMisleads | rust-engine/src/process.rs:127-134 | a header that comes out announcing nine bytes that never follow |
| Response.HugeLengthMisleads | rust-engine/src/process.rs:213-216 | announcing 2^64 - 1 bytes makes the header alone count as complete |
| Response.WriterSendsOneMessage | rust-engine/src/process.rs:159-171 | without bare line feeds in the header the writer always sends exactly one message |
| Response.SuccessIsOneMessage | rust-engine/src/process.rs:115-120 | the success message is exactly one message by the completeness test, with the success body behind its first blank line |
| Response.NormalizedExactly | rust-engine/src/process.rs:110-121 | a response becomes the success message iff both phrases of the fault stand in it |
| Response.NormalizeResponse | rust-engine/src/process.rs:110-121 | no NoProfile fault passes: it becomes one complete message with the success body; everything else is unchanged |
| Response.ReplaceLengthLines | rust-engine/src/process.rs:128-141 | the loop over the header lines: length lines replaced, one added if there was none |
| Response.RewriteResponse | rust-engine/src/process.rs:123-146 | the code equals the rewriting function |
| Response.WriteResponse | rust-engine/src/process.rs:151-173 | collect, rewrite, normalise, send once |
| ClientResponses.ClientGetsOneMessage | rust-engine/src/process.rs:151-173 | for a fresh realm of a strict session, over any network, any payload sizes, any other clients and any moment of closing: when the test says yes, what is collected by then, and that the client gets exactly one message with the other header lines as they were and the rewritten part of the body collected, even a truncated one, or unframed bytes if the header never came |
| ClientResponses.CuttingDecides | rust-engine/src/process.rs:159-171 | for a body without a readable length the client is sent different responses for two cuttings of the same bytes |
| ClientResponses.LengthlessLosesBody | rust-engine/src/process.rs:159-171 | a concrete response whose body is lost |
| Lifecycle.StepKeepsInv | app/p2p_manager.py:107-462 | every step of every thread keeps the invariant: each live process is registered with its camera's current worker, about to be terminated, or just spawned |
| Lifecycle.Exclusion | app/p2p_manager.py:107-168 | so at most one process lives per camera and service |
| Lifecycle.StoppedMeansNoProcess | app/p2p_manager.py:447-462 | and none where no operation is under way and no worker published |
| Lifecycle.StartServiceKeeps | app/p2p_manager.py:216-280 | starting a service is safe once its previous process is dead |
| Lifecycle.RestartKeeps | app/p2p_manager.py:392-420 | a restart, with its peer or without, keeps the invariant |
| LifecycleRuns.OneProcessPerService | app/p2p_manager.py:107-462 | in every interleaving from an empty manager |
| LifecycleRuns.StoppedUntilStarted | app/p2p_manager.py:443-462 | once `stop` has returned no process of the camera lives until somebody starts it again, whatever threads remain |
| LifecycleRuns.SupersededNeverSpawns | app/p2p_manager.py:135-168 | a replaced or stopped worker never gets another process |
| LifecycleRuns.StepKeepsReaders | app/p2p_manager.py:335-420 | only an ONVIF reader plans a peer restart, and while its worker is current it stays the registered one |
| LifecycleRuns.ReplacedNeverSpawns | app/p2p_manager.py:392-420 | a reader whose state was replaced during its delay spawns and kills nothing |
| LifecycleRestarts.ExitPlans | app/p2p_manager.py:335-390 | which exit plans what: 75 or a transient failure of a registered service of a current worker a restart, with the stuck RTSP peer for ONVIF and 75; any other exit none, and stopped exactly for code 0 |
| LifecycleRestarts.RestartServes | app/p2p_manager.py:392-420 | a restart of a service still served by the dead state registers a new live process for it, and for RTSP if planned |
| LifecycleRestarts.RunKeeps | app/p2p_manager.py:107-462 | what the restart theorems ask of the manager holds in every run from one where it holds; no process comes back to life and no registration goes back to an older one |
| LifecycleRestarts.SoundInitially | app/p2p_manager.py:79-90 | and it holds at the start |
| LifecycleRestarts.ExitIsRestarted | app/p2p_manager.py:338-405 | after an exit with 75 or a transient failure, whatever other threads do, the restart can still be taken whenever the worker is published and its lock free, and gives the service a new live process unless something replaced the dead one before |
| LifecycleRestarts.PeerIsRestarted | app/p2p_manager.py:358-420 | for a 75 exit of ONVIF while RTSP is connecting and alive, both then have a new live process and that RTSP process is dead |
| LifecycleRestarts.OnvifComes | app/p2p_manager.py:162-168 | the delayed start gives a current worker without ONVIF a live ONVIF process, and changes no process otherwise |
| LifecycleRestarts.OnvifStaysDue | app/p2p_manager.py:126-168 | no other step takes it away |
| LifecycleRestarts.StopGives | app/p2p_manager.py:443-462 | after a stop the camera has no worker and no live process |
| LifecycleRestarts.StopSpares | app/p2p_manager.py:443-462 | processes of other cameras are not touched |
| LifecycleRestarts.StartGives | app/p2p_manager.py:107-133 | after a start the camera has a fresh worker with one live process, RTSP, watched by a reader; ONVIF is due unless the vendor backend serves it |
| LifecycleManager.StopRun | app/p2p_manager.py:443-462 | an uninterrupted `stop` is a legal run of the steps with the stated end |
| LifecycleManager.StartRun | app/p2p_manager.py:107-133 | so is an uninterrupted `start` |
| LifecycleManager.P2PManager.constructor | app/p2p_manager.py:79-90 | no worker, no process |
| LifecycleManager.P2PManager.TerminateProcessGroup | app/p2p_manager.py:422-441 | the process is dead afterwards; a dead one is left alone |
| LifecycleManager.P2PManager.StartService | app/p2p_manager.py:216-280 | a new live process, registered under its service, with a reader |
| LifecycleManager.P2PManager.TerminateAll | app/p2p_manager.py:460-462 | the loop kills exactly the given states |
| LifecycleManager.P2PManager.Stop | app/p2p_manager.py:443-462 | the worker is unpublished and all its processes are dead; other cameras untouched |
| LifecycleManager.P2PManager.Start | app/p2p_manager.py:107-133 | the old worker is stopped; a supported camera gets a fresh worker with its RTSP process and, without the vendor backend, a waiting ONVIF start |
| LifecycleManager.P2PManager.StartOnvifAfterRtsp | app/p2p_manager.py:162-168 | starts ONVIF only for the worker still current and only once |
| LifecycleManager.P2PManager.ReadOutputEnded | app/p2p_manager.py:335-390 | restart, peer restart, retry or final status as the exit code and registration demand |
| LifecycleManager.P2PManager.RestartService | app/p2p_manager.py:392-420 | after the delay, the service and perhaps its stuck RTSP peer are rebuilt if still current |

## Left out

- Liveness over a network that loses without bound: the code has a fixed retry budget, so the resynchronisation round is proved instead.
- Sockets, scheduling, socket-error retries, logging, packet printing and environment variables; exit code 75 ends an engine run and is what the manager sees as `Exit`.
- Time inside one call: `send`, `recv` and the timer pass read the clock more than once, the model once.
- Lossy UTF-8 decoding: status and header text are kept as bytes, and `trim` removes ASCII white space only.
- Malformed datagrams: the parser's panics are the value `Panicked`; what a panicking task does to the process is not modelled.
- The ONVIF permit (one connection at a time) and the 12 s minimum of the bind timeout; a client that gives up is an event that may come at any time.
- `process_reader`, request completeness and the two announcements of `process_writer`: they forward bytes or log.
- The HTTP text before a blank line that never comes is rewritten without reframing, as in the code; nothing is claimed about its length.
- Fresh random realm ids are assumed where stated; nothing is proved about collisions.
- Killing a process is assumed to succeed, and waiting for it takes no step of its own.
- Process commands, ports, back-off delays, last errors, online times and log matching: the presence of a transient failure marker is a parameter, a status report may set any status at any time.
- A section that holds both locks of the manager is one step; `start` and `stop`, which hold the camera's lock, are several.
- LifecycleManager.P2PManager.Stop: runs without other threads in between; interleavings are the subject of the step system.
- The in-process ONVIF server and proxy process a worker may own, the vendor worker's ports, the shared `both` service: not started by the modelled code paths.
- `Transfer-Encoding`: the engine ignores it, so does the model. A chunked response keeps that line and gains a Content-Length; by section 6.3 of RFC 9112 its client goes by the former, while "exactly one message" here is by the engine's own completeness test.
- FastAPI routes, sessions, tokens, the database, ONVIF queries, ffmpeg spawning, the C workers and the HTML page.
