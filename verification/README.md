# Verified model of aioduct's protocol core

aioduct is an asynchronous HTTP client in Rust. This project models the parts of it that are state
machines, wire formats or arithmetic, and proves what they promise over every run, every
interleaving and every input.

| file | what it models |
|---|---|
| `H2cProbe`, `H2cProbeHistory` | the cache of h2c capability probes: overlapping probes, generations, expiry, eviction |
| `HappyEyeballs`, `HappyEyeballsRuns`, `HappyEyeballsAnswers`, `HappyEyeballsRacer` | the connection race of RFC 8305 with its observer, polled by an arbitrary environment |
| `AddressOrder` | family preference and interleaving, and their composition with the race |
| `Throttle`, `ThrottleWindows`, `ThrottleLedger` | the token bucket, sequentially and as interleaved atomic accesses: what it grants at most within a window, and at least for the time elapsed |
| `Multipart`, `MultipartFraming` | buffered and streaming serialisation, and a reference reader for the format |
| `Socks5`, `Socks5Wire` | the client handshake of RFC 1928 and RFC 1929 over partial reads and writes |
| `AltSvc` | the Alt-Svc cache with HTTP/3 failure suppression |
| `Hsts` | the bounded HSTS store |
| `MessageFraming` | Content-Length normalisation and the body length validator |
| `HttpDate` | the calendar arithmetic of HTTP dates |

Mutable structures of the source are classes whose methods are proved equal to steps of a pure
machine; the theorems about runs are lemmas about that machine. Clock readings are parameters, one
for each reading the source takes, and only their order is constrained. `Common` and `Arithmetic`
hold shared types and facts about products and quotients.

`dafny verify dfyconfig.toml` checks the whole project.

## Where the code and its description differ

The model follows the code in each case.

- Rate limiter: the documentation says "`max_tokens` requests per `per`". Within a window of length L
  and for a refill interval r, calls that follow one another are granted up to max + ⌈L / r⌉ tokens
  (`WindowBound`, attained for every L in `WindowBoundAttained`), so the documented limit holds only
  for instants and for limiters that never refill (`MaximumHoldsExactly`). Threads that share the
  limiter and are idle when the window opens are granted up to 2 max + ⌈L / r⌉, because the winner of
  the timestamp can be delayed before its add (`ConcurrentWindowBound`, attained for every L in
  `ConcurrentWindowBoundAttained`); there the documented limit holds only for limiters that never
  refill (`ConcurrentMaximumHoldsExactly`).
- Rate limiter: waiting for the reported duration does not help when the interval rounds down to
  zero nanoseconds. `WaitThenAcquire` gives the exact condition, `ZeroIntervalStarves` an instance.
- Multipart: the boundary check does not make the format decodable by itself. The documented duty of
  the caller, a boundary that occurs in no payload, is proved sufficient once no field contains a
  line end, which nothing checks. `FramingDecodes` gives the exact condition;
  `DelimiterInPayloadIsMisread`, `BoundaryOpensPayloadIsMisread` and `LineEndInNameIsMisread` are
  instances where it fails.
- HSTS: a header, even one that refreshes a known host, can cost another host its live entry.
  `DisplacementExactly` gives the exact condition, `RefreshCanDisplace` a run that gets there.
- HTTP dates: fields that parse can overflow the arithmetic or the clock. `UnixSeconds` gives the
  exact condition, `FarYearsOverflow` a family of such dates.
- Body length: the count stays behind once an overflow error of `record` is ignored. Both callers in
  the repository stop at the first error, so only a future caller could observe this. `SeenIsTotal`
  gives the exact condition, `IgnoredOverflowIsForgotten` an instance.

## Model

| member | source | states |
|---|---|---|
| `H2cProbe.RunKeepsInv` | crates/aioduct/src/h2c_probe.rs:119-300 | In every run of begins, reports and drops, an endpoint counts exactly the tokens alive for it, they all carry its active generation, and the generation counter is ahead of everything issued. |
| `H2cProbe.LiveTokenIsCurrent` | crates/aioduct/src/h2c_probe.rs:261-291 | In every reachable state a live token finds its entry present with a positive count and its own generation active: the source's debug assertion never fires and the stale-generation guard never rejects a live token. |
| `H2cProbe.StepKeepsInv` | crates/aioduct/src/h2c_probe.rs:187-291 | Every single operation, with its own clock readings, keeps that invariant. |
| `H2cProbeHistory.RunRemembers` | crates/aioduct/src/h2c_probe.rs:261-300 | After every run an entry holds the last accepted report of its endpoint as a fold over the reports alone defines it, unless that report has expired and was evicted. |
| `H2cProbeHistory.CacheAnswersFromHistory` | crates/aioduct/src/h2c_probe.rs:174-205 | Lookups are a function of the last accepted report and its age; a known-H1 decision additionally needs that no probe is in flight. |
| `H2cProbeHistory.EvictionUnobservable` | crates/aioduct/src/h2c_probe.rs:293-300 | A cache that evicts and one that never does accept the same runs, issue the same tokens, answer every lookup alike and take every decision alike. |
| `H2cProbeHistory.AdmissionLeavesNoGarbage` | crates/aioduct/src/h2c_probe.rs:204-236 | With more than 64 endpoints, admitting a probe keeps another endpoint if and only if it has probes in flight or was observed less than the expiry time ago. |
| `H2cProbeHistory.SmallCacheForgetsNobody` | crates/aioduct/src/h2c_probe.rs:293-296 | With up to 64 endpoints, a begin leaves every other endpoint as it is. |
| `H2cProbeHistory.CacheIsBounded` | crates/aioduct/src/h2c_probe.rs:293-300 | In every run the cache holds at most 65 endpoints, or no more than were busy at some admission: probed, or with a probe or report that had not expired. |
| `H2cProbeHistory.ObservationHasSource` | crates/aioduct/src/h2c_probe.rs:214-283 | Every observation time in the cache was set by a begin or a report on that endpoint. |
| `H2cProbeHistory.GroupIsContiguous` | crates/aioduct/src/h2c_probe.rs:210-236 | While a token lives, every report on its endpoint since the first report of its generation belongs to the same overlap group. |
| `H2cProbeHistory.OverlapOrderIndependence` | crates/aioduct/src/h2c_probe.rs:261-283 | Once a probe confirmed h2c, no interleaving of rejections, H1 confirmations and drops of the overlap group changes the answer before the confirmation expires. |
| `H2cProbeHistory.OverruledIsOutvoted` | crates/aioduct/src/h2c_probe.rs:267-279 | A report is discarded if and only if an earlier probe of the same group had confirmed h2c and that confirmation was fresh. |
| `H2cProbeHistory.LookupH1Exactly` | crates/aioduct/src/h2c_probe.rs:174-185 | A lookup answers H1 if and only if some event of the run, less than the expiry time ago, is an H1 confirmation that is the endpoint's last report and was not outvoted. |
| `H2cProbeHistory.LookupH2cExactly` | crates/aioduct/src/h2c_probe.rs:174-185 | A lookup answers h2c if and only if some event, less than the expiry time ago, is an h2c confirmation after which only its own overlap group reported. |
| `H2cProbeHistory.UseH1Exactly` | crates/aioduct/src/h2c_probe.rs:187-202 | UseH1 is answered if and only if no probe is in flight and an H1 confirmation as above is less than the expiry time old. |
| `H2cProbe.H2cProbeCache.BeginEndpointProbe` | crates/aioduct/src/h2c_probe.rs:187-236 | Decision and new state are those of the machine the run theorems speak of, for three separate clock readings; the invariant is kept. |
| `H2cProbe.H2cProbeCache.CompleteProbe` | crates/aioduct/src/h2c_probe.rs:238-259 | Consuming a token publishes its report and releases exactly one probe of its endpoint. |
| `H2cProbe.H2cProbeCache.RejectH2cEndpoint` | crates/aioduct/src/h2c_probe.rs:242-247 | A rejection is published while the token stays alive. |
| `H2cProbe.H2cProbeCache.DropToken` | crates/aioduct/src/h2c_probe.rs:119-132 | Dropping an unreported token releases its probe and leaves the recorded observation alone. |
| `H2cProbe.H2cProbeCache.LookupEndpoint` | crates/aioduct/src/h2c_probe.rs:174-185 | Reads the fresh capability and changes nothing. |
| `HappyEyeballsRuns.RunInvariant` | crates/aioduct/src/happy_eyeballs.rs:242-372 | Whatever connect futures, the sleep and the caller do, every run is either in progress with balanced books or finished with closed books, over the same candidates. |
| `HappyEyeballsRuns.RaceAccounting` | crates/aioduct/src/happy_eyeballs.rs:50-63 | In every run each candidate is reported started at most once and in order, ends at most once, and once the race is over every started attempt has exactly one terminal report; success is reported for the winner only. |
| `HappyEyeballsRuns.RaceOutcome` | crates/aioduct/src/happy_eyeballs.rs:271-372 | A win names an attempt that reported success at its address, an error means every candidate was started and failed, and an abandoned race was dropped by its caller. |
| `HappyEyeballsAnswers.OutcomeIsAnswered` | crates/aioduct/src/happy_eyeballs.rs:271-372 | A win goes back to a round in which that connect future succeeded, an error to a refusal of every candidate in some round. |
| `HappyEyeballsAnswers.ReportsAreAnswered` | crates/aioduct/src/happy_eyeballs.rs:242-268 | Every success and every failure told to the observer was answered by that connect future in a round of the run. |
| `HappyEyeballsAnswers.ConnectedWins` | crates/aioduct/src/happy_eyeballs.rs:300-331 | A round in which the first attempt with an answer has connected is won by that attempt at its address. |
| `HappyEyeballsAnswers.RefusedIsRemoved` | crates/aioduct/src/happy_eyeballs.rs:319-350 | If it was refused, it alone leaves the list, the last one taking its place; the next candidate is launched only into an empty list, and the race fails only when none is left. |
| `HappyEyeballsAnswers.SilenceWaits` | crates/aioduct/src/happy_eyeballs.rs:311-370 | A round without answers launches the next candidate if and only if the delay has elapsed and one is left, and otherwise changes nothing. |
| `HappyEyeballsRuns.RaceTerminates` | crates/aioduct/src/happy_eyeballs.rs:271-372 | A race over n candidates handles at most 2n - 1 events in any environment. |
| `HappyEyeballsRuns.RoundMeasure` | crates/aioduct/src/happy_eyeballs.rs:299-372 | Every event that does not end the race shrinks the termination measure, and a pending round leaves it alone. |
| `HappyEyeballsRuns.PollDiscipline` | crates/aioduct/src/happy_eyeballs.rs:290-372 | Between rounds no completed future is left to be polled again, sequence numbers are distinct, and the delay is armed if and only if candidates remain. |
| `HappyEyeballsRuns.LaunchDiscipline` | crates/aioduct/src/happy_eyeballs.rs:319-370 | A further attempt starts only when the delay elapsed while no connect future in flight had an answer, or when the last one in flight was refused, and then exactly one starts. |
| `HappyEyeballsRuns.ReadyIffNotPending` | crates/aioduct/src/happy_eyeballs.rs:300-309 | A scan yields an attempt exactly when not every attempt from there on is pending. |
| `HappyEyeballsRacer.Racer.PollRound` | crates/aioduct/src/happy_eyeballs.rs:299-372 | One execution of the polling closure and the handling of its event, on mutable attempt lists, is one step of the machine. |
| `HappyEyeballsRacer.Racer.PollAttempts` | crates/aioduct/src/happy_eyeballs.rs:300-309 | The scan loop polls attempts in order, stops at the first ready one, and reports exactly what it polled. |
| `HappyEyeballsRacer.Racer.HandleAttempt` | crates/aioduct/src/happy_eyeballs.rs:319-350 | Swap-removal, the win and the launch after the last failure agree with the machine. |
| `HappyEyeballsRacer.Racer.DropCallerFuture` | crates/aioduct/src/happy_eyeballs.rs:50-63 | Dropping the race cancels every attempt that was started and not finished, in list order. |
| `AddressOrder.InterleaveAddrs` | crates/aioduct/src/happy_eyeballs.rs:127-155 | The two-iterator loop computes the alternating merge of the two families. |
| `AddressOrder.InterleaveIsStable` | crates/aioduct/src/happy_eyeballs.rs:127-155 | Order within each family survives and the result is a permutation. |
| `AddressOrder.InterleaveIsFair` | crates/aioduct/src/happy_eyeballs.rs:127-155 | The first address leads and the families strictly alternate until the smaller one is used up. |
| `AddressOrder.InterleaveIsIdempotent` | crates/aioduct/src/happy_eyeballs.rs:127-155 | Interleaving an interleaved list changes nothing. |
| `AddressOrder.ApplyExactly` | crates/aioduct/src/address_family.rs:36-50 | `Any` changes nothing, an exclusive setting keeps exactly the addresses of its family, and every setting keeps the order within each family it admits. |
| `AddressOrder.PreferenceIsStable` | crates/aioduct/src/address_family.rs:36-50 | A preference permutes the addresses and keeps the order within each family. |
| `AddressOrder.PreferenceSurvivesInterleave` | crates/aioduct/src/address_family.rs:36-50 | When the preferred family is present, its first address is still attempted first after interleaving, and the families alternate from it. |
| `AddressOrder.ErrorMeansEveryCandidateFailed` | crates/aioduct/src/happy_eyeballs.rs:100-125 | From resolver list through preference, interleaving and race: an error return means every admitted address was attempted and failed. |
| `Throttle.RateBound` | crates/aioduct/src/throttle.rs:45-97 | For any number of threads and any interleaving of their atomic accesses, grants never exceed the initial tokens plus one per whole interval elapsed, and the refill timestamp never passes the clock. |
| `Throttle.RunKeepsInv` | crates/aioduct/src/throttle.rs:66-97 | Every run conserves tokens: held, granted and still owed by threads that won the timestamp never exceed what was credited. |
| `Throttle.UndisturbedCall` | crates/aioduct/src/throttle.rs:45-97 | The sequential call is what the atomic steps of one thread compute when nobody interferes. |
| `ThrottleWindows.WindowBound` | crates/aioduct/src/throttle.rs:45-97 | Any window of length L of a sequential history grants at most max + ⌈L / interval⌉, whatever the idle time before it. |
| `ThrottleWindows.WindowBoundAttained` | crates/aioduct/src/throttle.rs:22-41 | A new limiter attains that bound for every window length, every interval and every positive maximum. |
| `ThrottleWindows.MaximumHoldsExactly` | crates/aioduct/src/throttle.rs:22-41 | No window of length L grants more than the maximum if and only if L is zero, the interval is zero or the maximum is zero. |
| `ThrottleWindows.ConcurrentWindowBound` | crates/aioduct/src/throttle.rs:45-97 | In any window of any run, any number of threads are granted at most 2 max + ⌈L / interval⌉, plus max for each thread that was between its entry and its add when the window opened. |
| `ThrottleWindows.ConcurrentWindowBoundAttained` | crates/aioduct/src/throttle.rs:45-97 | Two threads that are idle when the window opens attain 2 max + ⌈L / interval⌉ for every window length. |
| `ThrottleWindows.ConcurrentMaximumHoldsExactly` | crates/aioduct/src/throttle.rs:45-97 | Among threads, no window that opens on idle threads grants more than the maximum if and only if the limiter never refills. |
| `ThrottleWindows.PlaySequentially` | crates/aioduct/src/throttle.rs:45-97 | A sequential history played by one idle thread of any world is granted there what it is granted alone. |
| `ThrottleLedger.SoleCallerRecovers` | crates/aioduct/src/throttle.rs:45-97 | Of any number of immediate acquisitions, a sole caller is granted exactly the tokens at hand plus one per whole interval elapsed, up to the maximum. |
| `ThrottleLedger.RefusedExactly` | crates/aioduct/src/throttle.rs:45-97 | In any sequential history an acquisition is refused if and only if grants so far and tokens lost to a full bucket make up the initial tokens and the whole intervals elapsed. |
| `ThrottleLedger.Ledger` | crates/aioduct/src/throttle.rs:66-97 | Tokens held, granted and lost to a full bucket always equal the initial tokens plus the intervals credited. |
| `ThrottleLedger.ConcurrentLedger` | crates/aioduct/src/throttle.rs:66-97 | The same balance holds in every run of interleaved threads, counting what was won but not yet added. |
| `ThrottleLedger.IntervalIsShare` | crates/aioduct/src/throttle.rs:26-41 | Interval and reported wait are the period divided by the maximum, rounded down, whenever that fits 64 bits; with a maximum of zero they are the whole period. |
| `Throttle.WaitThenAcquire` | crates/aioduct/src/throttle.rs:57-64 | A sole caller that waits the reported duration acquires next if and only if the bucket held a token or the limiter has tokens and its interval does not round down to zero. |
| `Throttle.ZeroIntervalStarves` | crates/aioduct/src/throttle.rs:26-41 | Two tokens per nanosecond is a configuration where waiting never helps. |
| `Throttle.RateLimiter.RefillBucket` | crates/aioduct/src/throttle.rs:66-97 | The in-place refill is the refill that the bounds are proved about, saturation and truncation included. |
| `Throttle.RateLimiter.TryAcquire` | crates/aioduct/src/throttle.rs:45-53 | Refills, then grants exactly when a token is there and takes exactly one. |
| `Throttle.RateLimiter.WaitDuration` | crates/aioduct/src/throttle.rs:57-64 | Refills, and asks for no wait exactly when a token is there. |
| `Multipart.IntoBytes` | crates/aioduct/src/multipart.rs:187-250 | The writing loops produce the wire format that is decoded below. |
| `Multipart.ValidateBoundary` | crates/aioduct/src/multipart.rs:421-441 | Accepts exactly 1 to 70 boundary characters, so no accepted boundary contains a line end. |
| `Multipart.BoundaryAlphabet` | crates/aioduct/src/multipart.rs:428-433 | The characters accepted are those of section 5.1.1 of RFC 2046 without the space, listed one by one. |
| `Multipart.AsyncStream.Poll` | crates/aioduct/src/multipart.rs:286-401 | The polling loop is the stream step that refinement is proved about. |
| `Multipart.PendingExactly` | crates/aioduct/src/multipart.rs:369-397 | A poll is pending if and only if a body is being read and its first answer that is not a non-data frame is that it is not ready. |
| `Multipart.PollReadsBody` | crates/aioduct/src/multipart.rs:369-397 | A poll uses up exactly the leading non-data frames and one answer more, and passes that answer on: data, not ready, failure, or the line end after the last. |
| `Multipart.PollPaysOwed` | crates/aioduct/src/multipart.rs:286-401 | Each poll emits exactly the next piece of what the stream still owes up to a failing poll, and faults only when nothing but that failure is left. |
| `Multipart.PollBurnsFuel` | crates/aioduct/src/multipart.rs:286-401 | Every poll of a stream that is not done makes progress, pending polls and non-data frames included. |
| `Multipart.FaultEndsStream` | crates/aioduct/src/multipart.rs:286-401 | After a body failure the stream is done and every further poll answers that it has ended. |
| `Multipart.DrainConserves` | crates/aioduct/src/multipart.rs:286-401 | After any number of polls, emitted plus owed is the whole, and a failure that lies behind was reported exactly once. |
| `Multipart.StreamingRefinesBuffering` | crates/aioduct/src/multipart.rs:252-401 | For every mix of parts and every chunking, the stream is done within a known number of polls and has then emitted exactly the buffered form of the collected parts up to the first failing poll, with one fault if there is a failure and none otherwise. |
| `Multipart.UpToFailureIsPrefix` | crates/aioduct/src/multipart.rs:286-401 | Up to the first failing poll is a prefix of the buffered form, and all of it when no body fails. |
| `MultipartFraming.FramingDecodes` | crates/aioduct/src/multipart.rs:187-250 | A reference reader for section 5.1.1 of RFC 2046 recovers the header lines and the payload of every part if and only if no header field contains a line end and no line of a payload, the first included, starts with the boundary. |
| `MultipartFraming.DelimiterInPayloadIsMisread` | crates/aioduct/src/multipart.rs:117-132 | An instance: under the valid boundary `b`, a three-line payload whose second line is `--b` is not recovered. |
| `MultipartFraming.BoundaryOpensPayloadIsMisread` | crates/aioduct/src/multipart.rs:117-132 | An instance: nor is a payload whose first line is `--b`. |
| `MultipartFraming.LineEndInNameIsMisread` | crates/aioduct/src/multipart.rs:187-250 | An instance: nor is a part whose name contains a line end. |
| `MultipartFraming.ValidatedFramingDecodes` | crates/aioduct/src/multipart.rs:117-132 | A validated boundary that occurs in no payload is enough for every part with line-end-free fields to be recovered. |
| `MultipartFraming.CleanHeaderLines` | crates/aioduct/src/multipart.rs:187-250 | The header lines written can be told apart if and only if name, file name, content type and custom headers contain no line end; quoting changes nothing about that. |
| `MultipartFraming.UnquoteEscaped` | crates/aioduct/src/multipart.rs:404-406 | Reading a quoted string undoes the escaping of backslash and quote, for every text. |
| `MultipartFraming.DispositionReadsBack` | crates/aioduct/src/multipart.rs:187-250 | Name and file name of every part are recovered from its disposition line. |
| `MultipartFraming.HeaderReadsBack` | crates/aioduct/src/multipart.rs:187-250 | Name and value of a custom header are recovered from its line if and only if the name does not contain colon and space. |
| `MultipartFraming.HeaderLinesInOrder` | crates/aioduct/src/multipart.rs:187-250 | The lines of a part are its disposition, its content type if any, and its headers in order; name, file name and content type are read back from their lines. |
| `Socks5.Client.RunHandshake` | crates/aioduct/src/socks5.rs:314-456 | For every schedule of partial reads and writes, outcome, bytes sent and bytes consumed are those of the handshake as a function of the server's bytes; only a failing transport can cut it short. |
| `Socks5.Client.WriteAll` | crates/aioduct/src/socks5.rs:277-291 | Partial writes add up to the buffer, or to a prefix of it when the transport fails. |
| `Socks5.Client.ReadExact` | crates/aioduct/src/socks5.rs:294-312 | Partial reads add up to exactly the next n bytes; an early end is reported only when fewer were left. |
| `Socks5.Client.AppendTargetAddress` | crates/aioduct/src/socks5.rs:30-70 | An address is appended exactly when the request has an encodable target. |
| `Socks5Wire.HandshakeComplete` | crates/aioduct/src/socks5.rs:314-456 | Against every compatible server the handshake succeeds and consumes its replies and not one byte of what follows. |
| `Socks5Wire.HandshakeSound` | crates/aioduct/src/socks5.rs:314-456 | A success has read exactly the replies of some compatible server and sent exactly the messages that server expects. |
| `Socks5Wire.ConsumedBytesDecide` | crates/aioduct/src/socks5.rs:314-456 | Apart from a truncated stream, the consumed bytes alone decide outcome and messages. |
| `Socks5Wire.ServerReadsRequest` | crates/aioduct/src/socks5.rs:314-400 | A server reading everything sent recovers the methods offered, the credentials it asked for, the target and the port. |
| `Socks5Wire.ServerIsAskedFor` | crates/aioduct/src/socks5.rs:30-70 | Resolving locally, the server reads the resolved address off the bytes sent, and not a byte of a request if there is none; otherwise it reads the host as an address if it is one, else by name if that has at most 255 bytes, else not a byte. |
| `Socks5Wire.RejectionExactly` | crates/aioduct/src/socks5.rs:394-431 | The handshake is rejected with a code if and only if a method was settled, the target could be sent and the reply carries that non-zero code between version 5 and a zero byte. |
| `Socks5Wire.AuthenticationFailureExactly` | crates/aioduct/src/socks5.rs:332-380 | Authentication fails if and only if the server accepts no method, asks for credentials the client lacks or cannot encode, or turns them down. |
| `Socks5Wire.ProtocolFailureExactly` | crates/aioduct/src/socks5.rs:324-456 | A protocol error is exactly a wrong version, an unknown method, a malformed reply or a target that cannot be sent, each given by its bytes. |
| `Socks5Wire.TargetReadsBack` | crates/aioduct/src/socks5.rs:30-70 | The address encoding is uniquely decodable whatever follows it. |
| `AltSvc.SuppressionExactly` | crates/aioduct/src/alt_svc.rs:57-94 | Under every interleaving of lock-protected sections, a lookup is turned away if and only if a suppression of that authority less than a minute old was not lifted by an empty advertisement since. |
| `AltSvc.LookupAnswersFromAdvertisements` | crates/aioduct/src/alt_svc.rs:57-78 | Purging expired entries is unobservable: a lookup finds the first live h3 entry of the last advertisement, less what suppressions removed. |
| `AltSvc.LookupExactly` | crates/aioduct/src/alt_svc.rs:57-94 | A lookup finds host and port of the first entry of the last advertisement that is h3 and below its maximum age, provided nothing was cleared or suppressed since, and otherwise nothing. |
| `AltSvc.NoEmptyLists` | crates/aioduct/src/alt_svc.rs:42-94 | No run leaves an authority with an empty list. |
| `AltSvc.DropH3KeepsTheRest` | crates/aioduct/src/alt_svc.rs:80-94 | Suppression removes every h3 entry of its authority, no other entry, and touches no other authority. |
| `AltSvc.AltSvcCache.Insert` | crates/aioduct/src/alt_svc.rs:42-55 | An empty advertisement lifts the suppression and clears the entries, any other replaces them and leaves the suppression. |
| `AltSvc.AltSvcCache.LookupH3` | crates/aioduct/src/alt_svc.rs:57-78 | The two lock-protected sections of a lookup, in order, each with its own clock reading. |
| `AltSvc.AltSvcCache.SuppressH3` | crates/aioduct/src/alt_svc.rs:80-94 | The two lock-protected sections of a suppression, in order. |
| `Hsts.UpgradesFollowHeaders` | crates/aioduct/src/hsts.rs:41-105 | In every run an upgrade is justified by the last header of the host or of a parent with subdomains; as long as every header with a positive max-age arrives with fewer than 1024 unexpired hosts on record, none that headers call for is missed. |
| `Hsts.UpgradeExactly` | crates/aioduct/src/hsts.rs:41-105 | An upgrade goes back to an unexpired header that is the last word for the host, or for a parent with subdomains; short of capacity every such header is obeyed. |
| `Hsts.RunIsSound` | crates/aioduct/src/hsts.rs:41-75 | Every run stays within capacity and holds no entry that differs from the last header of its host. |
| `Hsts.RunIsComplete` | crates/aioduct/src/hsts.rs:41-75 | Short of capacity, every unexpired header is held. |
| `Hsts.DisplacedOnlyUnderPressure` | crates/aioduct/src/hsts.rs:51-72 | A live entry of another host is lost only if the store was full of live entries and it was one of the earliest to expire. |
| `Hsts.DisplacementExactly` | crates/aioduct/src/hsts.rs:51-72 | A header can cost another host its live entry if and only if its max-age is positive, the store is full of live entries, and a host other than its own is among the first to expire. |
| `Hsts.RefreshInFullStore` | crates/aioduct/src/hsts.rs:51-72 | Refreshing a host of a full store of live entries removes one of the first to expire and leaves a slot empty unless that is the host itself. |
| `Hsts.RefreshCanDisplace` | crates/aioduct/src/hsts.rs:41-75 | There is a run from the empty store that ends with the refresh of a known host and costs another host its live entry. |
| `Hsts.DisplacingRun` | crates/aioduct/src/hsts.rs:41-75 | Every run into a full store of live entries can go on to displace any of the first to expire. |
| `Hsts.HstsStore.StoreFromResponse` | crates/aioduct/src/hsts.rs:41-75 | The new store is one the storing relation allows, whichever earliest entry is evicted. |
| `Hsts.HstsStore.ShouldUpgrade` | crates/aioduct/src/hsts.rs:78-105 | The walk over dots finds an upgrade exactly when the host itself or a parent that includes subdomains has an unexpired entry. |
| `MessageFraming.ParseContentLength` | crates/aioduct/src/message_framing.rs:37-63 | A length is returned exactly when there is one and every comma-separated item of every field is the same 64-bit number; no field at all means no length, and anything else is an error. |
| `MessageFraming.ResultIsDetermined` | crates/aioduct/src/message_framing.rs:37-63 | The field values determine the result. |
| `MessageFraming.NormalizeContentLength` | crates/aioduct/src/message_framing.rs:16-35 | The headers are rewritten to a single decimal field if a length was found, and left as they are if there is none or it is invalid. |
| `MessageFraming.NormalizationIsStable` | crates/aioduct/src/message_framing.rs:16-35 | The rewritten headers hold one field that parses back to the same length, all other fields are untouched, and rewriting again changes nothing. |
| `MessageFraming.DecimalRoundTrip` | crates/aioduct/src/message_framing.rs:16-35 | The decimal text of a number reads back as that number. |
| `MessageFraming.SplitInvertsJoin` | crates/aioduct/src/message_framing.rs:37-63 | Splitting at commas loses nothing and leaves no comma in an item. |
| `MessageFraming.TrimExactly` | crates/aioduct/src/message_framing.rs:44 | Trimming takes all spaces and tabs off both ends of an item and nothing else. |
| `MessageFraming.ItemValueExactly` | crates/aioduct/src/message_framing.rs:43-53 | An item has a value if and only if it is a string of digits below 2^64 with only spaces and tabs around it. |
| `MessageFraming.BodyLengthValidator.CheckBody` | crates/aioduct/src/message_framing.rs:121-152 | Frame by frame, a body passes if and only if its total fits 64 bits and equals the declared length, if one is declared. |
| `MessageFraming.SeenIsTotal` | crates/aioduct/src/message_framing.rs:121-136 | A caller that ignores record errors still has the true total at the end if and only if the total fits 64 bits. |
| `MessageFraming.IgnoredOverflowIsForgotten` | crates/aioduct/src/message_framing.rs:121-136 | A body whose ignored overflow leaves the count short of the total. |
| `HttpDate.UnixSeconds` | crates/aioduct/src/retry.rs:311-332 | For a named month, a year from 1970 and a day from 1, the result is the calendar's second count if that is at most 2^63 - 1, and an overflow otherwise; day 0 is rejected unless the year alone overflows first; everything else is rejected. |
| `HttpDate.CountDays` | crates/aioduct/src/retry.rs:311-328 | The days before the month are counted unless one of the sums on the way overflows. |
| `HttpDate.DateStepsFit` | crates/aioduct/src/retry.rs:317-328 | No sum up to the leap day overflows if and only if the sum before the century correction does not. |
| `HttpDate.FarYearsOverflow` | crates/aioduct/src/retry.rs:331-332 | Every accepted date from the year 300000000000 on lies past the last second of the clock. |
| `HttpDate.ClosedFormCountsYears` | crates/aioduct/src/retry.rs:317-322 | The closed form with its 4, 100 and 400 year corrections equals the sum of year lengths since 1970. |
| `HttpDate.DateOfDayNumber` | crates/aioduct/src/retry.rs:311-332 | The day number of a valid date, stepped through the calendar from the epoch, leads back to that date. |
| `HttpDate.DayNumberOfDateAfter` | crates/aioduct/src/retry.rs:311-332 | Stepping n days from the epoch gives a valid date numbered n, so the numbering is a bijection. |
| `HttpDate.SecondsAreMonotone` | crates/aioduct/src/retry.rs:331-332 | Unix seconds order valid instants exactly as their fields do. |
| `HttpDate.IntermediatesFit` | crates/aioduct/src/retry.rs:317-331 | Every sum and product on the way, listed one by one, is non-negative and fits 64 bits if and only if the final sum does. |

## Left out

- Poisoned mutexes, wrap-around of the 64-bit probe generation, and memory orderings weaker than sequential consistency.
- Probe tokens that outlive their cache or are used with another cache; probe keys are opaque values, and one eviction pass reads the clock once.
- The empty-list and single-address shortcuts before the race, the local (non-Send) twin of the racer generated by the same macro, and the texts of connection errors.
- RateLimiter: its fields are updated by one caller at a time; the concurrent statement is made on the step machine, where a compare-and-set retry that fails spuriously is not a separate step.
- WaitThenAcquire: assumes a sole caller, since another caller may take the token in between.
- Octets are modelled as characters, so UTF-8 encoding is not modelled; neither are generated boundaries, `content_type` and subtype validation.
- Parsing of a host into an IP address and local name resolution are inputs of the SOCKS5 request; the blocking twin of the handshake and error texts are not modelled.
- NextIo: the transport schedule is arbitrary, and its contract only says when no poll fails.
- Parsing of Alt-Svc header text; advertisements are lists of parsed entries.
- Canonical host names and parsing of the Strict-Transport-Security header; a lookup reads the clock once, and overflow of an expiry instant is not modelled.
- UpgradesFollowHeaders: the second half holds while fewer unexpired hosts than the capacity are on record at each header that stores something; what a full store can lose is stated by `DisplacementExactly`.
- Header maps are lists of fields; `validate_response_content_length`, size hints and end-of-stream flags are not modelled.
- Splitting an HTTP date into its fields; `SystemTime` is the one of Unix, and the value a release build goes on with after a wrapped step is not modelled.
- Sockets, DNS, TLS, hyper, HTTP/3, WebAssembly and blocking runtimes, decompression and digest computation.
- Backoff delays, retry budgets, redirects, netrc, link, forwarded and problem-details headers, HTTP/2 settings, error classification and the command line: they would add only easy members.
