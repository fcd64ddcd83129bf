# A verified model of the relay client's core

The relay client carries HTTP requests to remote scripts, downloads large
responses as parallel byte ranges, and accounts for the daily quota of every
script. This project models the parts of it that are easiest to get wrong and
proves what they promise.

| file | what it models |
|---|---|
| Calendar.dfy | Unix seconds to dates by the era formula, weekdays, the n-th Sunday of a month |
| PacificDay.dfy | daylight saving, the Pacific day key, the midnight countdown, the daily counters |
| Text.dfy | UTF-8 well-formedness, Unicode trimming, searching in bytes |
| Chunked.dfy | the two incremental chunked readers and the whole-buffer decoder |
| ChunkGrammar.dfy | exactly which inputs the chunked decoders accept, and sizes as a sender writes them |
| Unicode.dfy | UTF-8 and white space in terms of scalar values |
| HttpHead.dfy | splitting raw responses, assembling and rewriting heads |
| RangePlan.dfy | the lazy planner of byte ranges, with 64-bit saturation |
| RangeDownload.dfy | probe, validation, dispatch, stitching, streaming, resuming |
| H2Cell.dfy | the shared HTTP/2 connection cell under all interleavings |
| Replay.dfy | when a request may be sent again |
| Coalescer.dfy | coalescing of identical requests in front of the cache |
| Quota.dfy | rolling quota windows, per-account and global stops |
| ScriptPicker.dfy | round-robin script choice |
| Cache.dfy | the byte-bounded first-in-first-out cache |
| UdpTable.dfy | the UDP session table and its use by the receive loop |
| Socks5Udp.dfy | SOCKS5 UDP framing |
| Arithmetic.dfy, Sequences.dfy, Wrappers.dfy | division, sequences without repetition, the option type |

Sequential code that changes things keeps its form: classes whose methods update
fields, and loops with invariants, each proved against a function of the inputs
or of the old state. Protocols between concurrent tasks are state machines: one
action is one step of one task between two points where it can be suspended, and
the results hold in every state of every run.

## What does not hold, and exactly when it does

- A download whose probe is answered with fewer bytes than asked for is delivered
  as a complete 200 when the entity fits into one chunk
  (src/domain_fronter.rs:2180), with streaming and without.
  `EarlyReturnIsWholeIffProbeIs` gives the exact condition, `ShortProbeUnnoticed`
  the whole failing family, and `InMemoryBodyIsEntityIff` says for a caller that
  collects the response in memory when it reads the entity.
- A download from the start plans at most 65536 chunks
  (`FirstDownloadCallsBounded`), but a resumed one has no cap
  (src/domain_fronter.rs:2357-2462): it plans at most a given number of chunks
  exactly when no more bytes than that lie behind its probe
  (`ResumeCallsBoundedIff`), and `ResumeUncapped` gives replies above any bound.
- A chunk-size line with blanks before the semicolon of an extension is refused by
  all three decoders. Section 7.1.1 of RFC 9112 has such blanks in its grammar as
  bad whitespace, which section 5.6.3 of RFC 9110 forbids to send and obliges a
  recipient to accept. `DecodeInvertsEncode` states which encodings are inverted
  and that every other one is refused; `BlankBeforeExtensionRefused` is an
  instance.
- The readers skip blank lines where a size line is due, the whole-buffer decoder
  refuses them; `WholeVersusReader` says that this is the only difference.
- The midnight countdown ends exactly when the key next changes, except in two
  cases (`Countdown`): it is one hour short in the hour before daylight saving
  ends, which Pacific time then repeats and which every year has
  (`RepeatedEveryYear`), and it is short in the first eight hours of the epoch,
  where the offset saturates.
- Without a safety buffer no number of requests stops an account, whatever its
  limit (`NoReserveNoBound`); with any positive buffer the bound of `QuotaNeverOverrun`
  holds.
- With a safety buffer above the daily limit the global stop can hold while every
  account is usable (`LargeReserveStopsUsableAccount`); with a buffer up to the
  limit it can not (`GlobalStopHasStoppedAccount`).
- A waiting caller of the coalescer is served in every run in which leaders
  complete; if a leader is cancelled its waiters, and all later callers that miss
  the cache, are never served (`CancelledLeaderStrands`, `CancelOrphans`).
- The UDP table stays consistent, but an entry may lose the task that alone reads
  its channel. Every entry has its own task throughout a run exactly when no task
  is through between its start and the insertion of its entry
  (`ServedIffNoEarlyRemoval`). An entry whose channel is not read stays so exactly
  until it is evicted, removed by a task of its target, be it one of an older
  session, or the association ends (`UnreadStays`); if no task of its target is
  left, exactly until it is evicted or the association ends (`AbandonedStays`).
  `EarlyRemovalLeavesEntry` shows such a run for every target.
- A status 421 on a redirect hop is taken for a refusal of the request itself, so
  the request is written again over HTTP/1.1 although it was answered, for every
  method (src/domain_fronter.rs:2835-2844, 3125-3135). `WrittenTwiceIff` says
  exactly when one attempt writes the request on both connections,
  `RefusedHopRepeatsRequest` gives the whole family with a hop.
- A client that asks for the bytes N to M with N > 0 is sent everything from N on
  (src/domain_fronter.rs:3759-3762 does not look at M). It gets what it asked for
  exactly when M is not before the last byte (`AskedRangeIff`).
- The Pacific date is right at every second from 08:00 on the epoch day
  (`DayKeyIsRealDate`), but Pacific seconds are an hour off in three hours of every
  year (`PacificSecondsExactIff`); the comment at src/domain_fronter.rs:4306-4309
  says at most two.

Where code and comments disagree the model follows the code: the fan-out choice
advances its index by the positions it reads, not by `want`
(src/domain_fronter.rs:877-880), and the daily counters reset at Pacific
midnight, not at 00:00 UTC (src/domain_fronter.rs:2599).

## Model

| member | source | states |
|---|---|---|
| Calendar.FastFormIsCalendar | src/domain_fronter.rs:4405-4419 | for every second count the era formula gives the date reached by walking the calendar day by day from 1970-01-01 |
| Calendar.FastFormInvertsDayNumber | src/domain_fronter.rs:4405-4419 | the date is valid and its day number, summed from year and month lengths, is the day asked for |
| Calendar.FastFormOrder | src/domain_fronter.rs:4405-4419 | dates compare as their day numbers do; equal dates exactly for equal days |
| Calendar.FastFormOnto | src/domain_fronter.rs:4405-4419 | every valid date from the epoch on is produced by the seconds of its own day |
| Calendar.SakamotoIsWeekday | src/domain_fronter.rs:4388-4393 | the weekday congruence agrees with counting days modulo seven, for every month from year 1 on |
| Calendar.NthSundayIsNthSunday | src/domain_fronter.rs:4387-4396 | the result is a Sunday, exactly n Sundays of its month lie up to it, and it is inside the month exactly when the month has n Sundays, always for n up to 4 |
| PacificDay.DstWindow | src/domain_fronter.rs:4362-4382 | daylight saving holds exactly from the second Sunday of March up to the first Sunday of November, Sundays found by counting |
| PacificDay.DayKeyIsCalendar | src/domain_fronter.rs:4310-4318 | the key is the date reached by walking the calendar to the Pacific day |
| PacificDay.DayKeyStep | src/domain_fronter.rs:4310-4318 | one second later the key is the same date or the next one |
| PacificDay.DayKeyMonotone | src/domain_fronter.rs:4310-4360 | the key never returns to an earlier date, and equal keys stay equal in between |
| PacificDay.NoDaySkipped | src/domain_fronter.rs:4310-4360 | every date between two keys is the key of some moment in between |
| PacificDay.PacificSecondsJumpBack | src/domain_fronter.rs:4344-4360 | in every year from 1970 on Pacific seconds lose an hour when the guessed first Sunday of November begins, so the key is monotone although its argument is not |
| PacificDay.Countdown | src/domain_fronter.rs:4324-4337 | the countdown ends at the next change of the key exactly outside the hour before daylight saving ends and the first eight hours of the epoch; inside it is short by exactly one hour, or by what is left of the eight |
| PacificDay.RepeatedEveryYear | src/domain_fronter.rs:4344-4360 | in every year from 1970 on each moment of the hour before daylight saving ends belongs to that year, shows the same Pacific seconds again an hour later, and is one where the countdown is short |
| PacificDay.RepeatedAt | src/domain_fronter.rs:4344-4360 | these moments are exactly the last hours of guessed days with daylight saving that are followed by one without it |
| PacificDay.EndOfDst | src/domain_fronter.rs:4362-4382 | a day with daylight saving is followed by one without it exactly when that is the first Sunday of November |
| PacificDay.DayKeyIsRealDate | src/domain_fronter.rs:4304-4360 | at every second from 08:00 UTC on the epoch day the key is the date of Pacific time with its switches at 02:00 local time |
| PacificDay.PacificSecondsExactIff | src/domain_fronter.rs:4304-4360 | Pacific seconds are those of real Pacific time except in the two hours before clocks go forward, where they are an hour ahead, and the hour before clocks go back, where they are an hour behind |
| PacificDay.DailyCounters.constructor | src/domain_fronter.rs:653-655 | counters start with an empty log on the current Pacific date |
| PacificDay.DailyCounters.Roll | src/domain_fronter.rs:741-749 | the counters hold exactly the logged calls and bytes of the current Pacific date, which a change of date makes none |
| PacificDay.DailyCounters.RecordToday | src/domain_fronter.rs:740-753 | the call is logged and the counters hold exactly the calls and bytes of the current Pacific date |
| PacificDay.DailyCounters.Snapshot | src/domain_fronter.rs:781-808 | what is shown is the number and size of calls of the Pacific date of the reading |
| Chunked.Reader.ReadCrlfLine | src/proxy_server.rs:2873-2896 | returns the text up to the first line end of everything still to come, however it arrives, and fails exactly when there is none |
| Chunked.Reader.FillBuffer | src/proxy_server.rs:2898-2918 | succeeds exactly when that many bytes are still to come, losing none |
| Chunked.Reader.SkipTrailers | src/proxy_server.rs:2855-2862 | succeeds exactly when an empty line ends the trailer section |
| Chunked.Reader.TakeChunk | src/proxy_server.rs:2864-2869 | takes exactly one chunk and its line end, or says that bytes are missing or wrong |
| Chunked.Reader.ReadChunkedRequestBody | src/proxy_server.rs:2835-2871 | for every split into leftover and reads the verdict and body are those of the complete byte string |
| Chunked.Reader.ReadChunked | src/domain_fronter.rs:4871-4925 | the same for the response reader |
| Chunked.DecodeChunkedHttpBody | src/scan_sni.rs:324-358 | the whole-buffer loop computes the decoding function |
| Chunked.WholeVersusReader | src/scan_sni.rs:324-358 | the whole-buffer decoder agrees with a reader on every input in which no blank line is skipped and refuses every other input |
| Chunked.ReadersAgreeWithWhole | src/domain_fronter.rs:4871-4925 | wherever the whole-buffer decoder accepts, both readers return its body |
| Chunked.DecodeInvertsEncode | src/proxy_server.rs:2835-2871 | every decoder inverts every chunk encoding whose size lines it can read, with extensions and trailers, and refuses every other encoding |
| ChunkGrammar.DecodeIsWide | src/proxy_server.rs:2835-2871 | every input a decoder accepts is a chunk coding widened by a plus sign, white space around size lines and the lines that decoder skips, and the returned body is the data of its chunks |
| ChunkGrammar.WideDecodes | src/proxy_server.rs:2835-2871 | every input of that form is accepted with the data of its chunks |
| ChunkGrammar.ReadIsWide | src/proxy_server.rs:2848-2853 | every line read as a size is white space, perhaps a plus sign, digits spelling that size, perhaps an extension, and white space |
| ChunkGrammar.WideReads | src/proxy_server.rs:2848-2853 | every such line is read as the size its digits spell, by all three decoders |
| ChunkGrammar.SkipIff | src/domain_fronter.rs:4871-4890 | the request reader skips exactly empty lines, the response reader exactly lines of white space, the whole-buffer decoder none |
| ChunkGrammar.SizeAsWritten | src/proxy_server.rs:2848-2853 | every decoder reads a number written in base sixteen, in either case and with leading zeros, as that number, and refuses it exactly above 64 bits |
| ChunkGrammar.WrittenDecodes | src/scan_sni.rs:324-358 | chunks written with their lengths in base sixteen, with or without extensions, are given back by every decoder |
| Unicode.EncodedIsUtf8 | src/proxy_server.rs:2848-2849 | the UTF-8 encoding of any scalar values is accepted as text |
| Unicode.Utf8IsEncoded | src/proxy_server.rs:2848-2849 | every accepted text is the encoding of scalar values |
| Unicode.FrontSpaceIff | src/proxy_server.rs:2848-2850 | trimming takes a scalar from the front exactly if it has the White_Space property |
| Unicode.BackSpaceIff | src/proxy_server.rs:2848-2850 | and from the back likewise |
| Chunked.BlankBeforeExtensionRefused | src/proxy_server.rs:2848-2853 | a concrete encoding with a blank before an extension, valid by the grammar, is refused by every decoder |
| H2Cell.ReachableInv | src/domain_fronter.rs:1274-1494 | the invariant of lock, generations, service and late calls holds in every state of every interleaving, cancellations included |
| H2Cell.OneOpenAtATime | src/domain_fronter.rs:1307-1334 | at most one handshake is in flight |
| H2Cell.GenerationsNameConnections | src/domain_fronter.rs:1365-1376 | generations are installed in increasing order, each once, so a generation names one connection |
| H2Cell.PoisonHitsItsOwn | src/domain_fronter.rs:1487-1494 | poisoning clears the cell exactly when it holds the caller's own connection and changes nothing else |
| H2Cell.FailureClearIsHarmless | src/domain_fronter.rs:1336-1363 | when a call clears the cell after a failed or refused open, the cell is empty, 540 seconds old, or its connection dead |
| H2Cell.DisabledSticks | src/domain_fronter.rs:1455-1477 | no step takes the disabled flag back |
| H2Cell.LateCallsGetNothing | src/domain_fronter.rs:1274-1277 | a call that starts with the fast path disabled is never given a connection |
| H2Cell.HandsOutCurrentCell | src/domain_fronter.rs:1285-1327 | a call is given the connection now in the cell: one found there under 540 seconds old and not dead, or one it has just stored with the present time |
| H2Cell.UsableConnectionIsHandedOut | src/domain_fronter.rs:1274-1293 | a call that starts while the fast path is enabled and a connection under 540 seconds old and not dead is in the cell, in every interleaving that keeps it so, returns exactly that connection with its second step |
| H2Cell.NothingIffGaveUp | src/domain_fronter.rs:1274-1363 | a call that is not cancelled returns nothing exactly when it found the fast path disabled, a failure remembered for less than 15 seconds, the open lock taken, or its own open was refused, failed or timed out |
| H2Cell.LooksFirst | src/domain_fronter.rs:1279-1312 | a call comes to the backoff, the lock or an open only if it found nothing usable in the cell when it looked |
| H2Cell.OpensAreRemembered | src/domain_fronter.rs:1336-1368 | in every interleaving, when a failed call clears the cell the failure is remembered or the fast path disabled, and when a call is about to store its connection no failure is remembered |
| H2Cell.DisablingTakesEffect | src/domain_fronter.rs:1455-1465 | disabling sets the flag and then leaves no connection in the cell |
| HttpHead.Split | src/domain_fronter.rs:3671-3698 | the pass over the lines computes the splitting function |
| HttpHead.Build200Head | src/domain_fronter.rs:3849-3873 | the pass over the headers builds the specified head |
| HttpHead.SplitClean | src/domain_fronter.rs:3686-3695 | headers that splitting yields are trimmed one-line text without a colon in the name |
| HttpHead.SplitAssembled | src/domain_fronter.rs:3671-3698 | splitting a head assembled from such headers gives back status, headers and any body |
| HttpHead.StatusCodeReads | src/domain_fronter.rs:3677-3684 | the status is the second word of the status line, up to 16 bits, with an optional plus sign |
| HttpHead.Split200 | src/domain_fronter.rs:3842-3873 | a client reads from a 200 head the kept headers in order and one Content-Length with the declared number, whatever body follows |
| HttpHead.KeptExactly | src/domain_fronter.rs:3849-3868 | in order, exactly the headers are left out whose name is one of the six, but for case |
| HttpHead.StatusLinesWritten | src/domain_fronter.rs:3861-3895 | the assembled heads start with the status lines of a 200 and of a 206 |
| HttpHead.RewriteSplits | src/domain_fronter.rs:3823-3840 | rewriting an accepted response gives status 200, the same body, the headers in order without six names, and one Content-Length equal to the body length |
| HttpHead.RewriteIdempotent | src/domain_fronter.rs:3823-3840 | rewriting twice is rewriting once, for every input |
| RangePlan.Planner.constructor | src/domain_fronter.rs:4029-4034 | planning starts behind the probe, for every 64-bit probe end |
| RangePlan.Planner.Next | src/domain_fronter.rs:4035-4043 | hands out the tiles one by one and stops at the end; saturation never changes a range |
| RangePlan.TilesTile | src/domain_fronter.rs:4016-4043 | ranges are nonempty, at most one chunk long, contiguous, from behind the probe to the last byte |
| RangePlan.TilesCover | src/domain_fronter.rs:4016-4043 | a byte lies in some range exactly when it is behind the probe, and ranges do not overlap |
| RangePlan.TilesCount | src/domain_fronter.rs:2195-2196 | the number of ranges is the announced number of chunks |
| RangeDownload.WriteResponse | src/domain_fronter.rs:3923-3945 | only the head, up to the first blank line, is transformed; at every moment the client holds a beginning of the result |
| RangeDownload.StreamChunksToWriter | src/domain_fronter.rs:4069-4159 | what is written is the head, the probe and the chunks before the first bad one; success exactly when none was bad; at every moment the client holds a beginning of that |
| RangeDownload.Stitch | src/domain_fronter.rs:2281-2341 | all chunks good gives probe and chunks joined; the final length check can not fail |
| RangeDownload.RelayParallelRangeTo | src/domain_fronter.rs:2148-2349 | the call delivers what the delivery function says for every set of replies, and at every moment a beginning of it |
| RangeDownload.StreamRangeFromOffset | src/domain_fronter.rs:2357-2462 | the same for a resumed download |
| RangeDownload.ContentRangeAnnounced | src/domain_fronter.rs:3708-3726 | an announced range is read back as that range behind any other headers |
| RangeDownload.CollectLength | src/domain_fronter.rs:3797-3815 | the accepted chunks are as long as the rest of the entity exactly when none is missing |
| RangeDownload.CollectHonest | src/domain_fronter.rs:3797-3815 | with honest replies the accepted chunks joined are the bytes of the entity that follow the start, however many were accepted |
| RangeDownload.DeliversEntity | src/domain_fronter.rs:2195-2349 | with honest replies: above 16 GiB a streaming caller is sent the refusal, above 40 MiB the head and a prefix of the entity, successful exactly when it is all; above 64 MiB another caller is sent the plain reply; otherwise the head and exactly the entity, or the plain reply if a chunk is missing |
| RangeDownload.ClientSeesStream | src/domain_fronter.rs:4175-4192 | between 40 MiB and 16 GiB the client of a streaming caller reads a 200 that declares the length of the entity and a prefix of it, so a failed stream is visibly short |
| RangeDownload.ExactOriginDelivers | src/domain_fronter.rs:2148-2349 | from an origin that answers every range exactly the client reads a 200 with exactly the entity, for every entity of at most one chunk, or of at most 16 GiB with streaming and 64 MiB without |
| RangeDownload.RefusedIffTooLarge | src/domain_fronter.rs:2239-2262 | past its probe a streaming caller is sent the refusal if more than 16 GiB are announced, and otherwise the refusal plays no part |
| RangeDownload.ProbeAcceptedIff | src/domain_fronter.rs:3737-3795 | a partial reply to the probe is accepted exactly if it starts at zero, stays within the chunk, and its body fits or it announces everything within one chunk; any other leads to the plain request |
| RangeDownload.ResumeAcceptedIff | src/domain_fronter.rs:3766-3784 | a partial reply to a resumed download is accepted exactly if it starts where asked, stays within the chunk and its body fits; any other fails with nothing sent |
| RangeDownload.ChunkTakenIff | src/domain_fronter.rs:3797-3815 | a chunk is taken from a partial reply exactly if start, end, total and body length are those expected |
| RangeDownload.UnannouncedRefused | src/domain_fronter.rs:2166-2177 | a 206 without Content-Range leads to the plain request, and makes a resumed download fail with nothing sent |
| RangeDownload.OtherReplyPassedOn | src/domain_fronter.rs:2148-2164 | any reply other than a 206 is passed on as it came, to a resuming client only below status 400, else nothing is sent |
| RangeDownload.HeadlessReply | src/domain_fronter.rs:2376-2388 | a reply without an end of its head is passed on too, but makes a resumed download fail with nothing sent |
| RangeDownload.ExactOriginResumes | src/domain_fronter.rs:2357-2462 | from such an origin a resumed download gives the client exactly the rest; with this reply it fails with nothing sent exactly when the end of its first range wraps around |
| RangeDownload.WrappedNeverResumes | src/domain_fronter.rs:2357-2432 | when that end wraps around, the range asked for ends before it starts, and every partial reply whatsoever makes the download fail with nothing sent |
| RangeDownload.AskedRangeIff | src/domain_fronter.rs:2110-2130 | a client asking an exact origin for the bytes from start to end gets exactly these if and only if end is not before the last byte; otherwise it is sent all the rest |
| RangeDownload.RangeStartReads | src/domain_fronter.rs:3759-3762 | the start read from a Range header is the number written there, whatever end follows |
| RangeDownload.InMemoryAnswer | src/domain_fronter.rs:2464-2514 | without streaming there is never an error and the result is a reply as it came, the rewritten probe, or a stitched response of the announced length, honest origin or not |
| RangeDownload.InMemoryBodyIsEntityIff | src/domain_fronter.rs:2148-2349 | with honest replies and no streaming the caller reads the entity exactly when: the reply passed on has it; the probe taken for everything reached the end, or was decoded to it; all further ranges fit the buffer and were answered exactly; or the plain request gave it |
| RangeDownload.ResumesEntity | src/domain_fronter.rs:2414-2462 | with honest replies a resumed download sends a prefix of the rest of the entity, successful exactly when it is all |
| RangeDownload.ClientSeesResume | src/domain_fronter.rs:2414-2462 | the client of a resumed download reads a 206 that announces the rest of the entity, declares its length and holds a beginning of it, so a failed one is visibly short; a probe that reached the end is passed on |
| RangeDownload.Split206 | src/domain_fronter.rs:3875-3913 | the head of a resumed download announces exactly the rest of the entity and its length |
| RangeDownload.EarlyReturnIsWholeIffProbeIs | src/domain_fronter.rs:2178-2183 | on the early return the client reads the body of the probe as a complete 200; if that body fits its range it is the whole entity exactly when the range reached the end; a body that does not fit is accepted only when the announced range is the whole entity within one chunk |
| RangeDownload.ShortProbeUnnoticed | src/domain_fronter.rs:2178-2183 | for every entity of at most one chunk an honest but short probe is delivered as a complete 200, with streaming and without |
| RangeDownload.FirstDownloadCallsBounded | src/domain_fronter.rs:3983-4014 | whatever its probe announces, a download from the start plans at most 65536 chunks of 256 KiB |
| RangeDownload.OnlyPlannedMatters | src/domain_fronter.rs:2195-2349 | replies to ranges that were not planned make no difference to what is delivered |
| RangeDownload.ResumeCallsBoundedIff | src/domain_fronter.rs:2414-2462 | a resumed download plans at most so many chunks exactly when no more bytes than that lie behind the end of its probe |
| RangeDownload.ResumeUncapped | src/domain_fronter.rs:2414-2462 | for every bound, every reply whose body is the first chunk and which announces more behind it makes a resumed download plan more than that |
| RangeDownload.OnlyPlannedMattersFrom | src/domain_fronter.rs:2414-2462 | replies to ranges that a resumed download did not plan make no difference |
| Replay.H2RoundTrip | src/domain_fronter.rs:1524-1679 | "not sent" is reported exactly when no stream was opened |
| Replay.H2RelayRequest | src/domain_fronter.rs:1705-1816 | "not sent" means nothing was opened; "maybe sent" means the request was opened once, followed by redirect hops only, and nothing came after the failure; every run is the one its streams decide |
| Replay.H1Exchange | src/domain_fronter.rs:2899-2994 | an HTTP/1.1 exchange writes the request at most once, then at most five redirect hops on that connection, succeeds only with status 200 and never forbids a retry |
| Replay.DoRelayOnceInner | src/domain_fronter.rs:2801-2994 | for every method but GET, HEAD and OPTIONS in any case, a possibly sent request is reported as not retryable and nothing follows it; every run is an attempt as its streams decide, writes the request at most once on each kind of connection, and succeeds over HTTP/2 only with status 200 |
| Replay.WrittenTwiceIff | src/domain_fronter.rs:2828-2896 | one attempt writes the request over HTTP/2 and over HTTP/1.1 exactly when HTTP/1.1 is had and the last HTTP/2 answer was a 421, or the method is GET, HEAD or OPTIONS in any case and no answer came |
| Replay.RefusedHopRepeatsRequest | src/domain_fronter.rs:2835-2844 | for every method and every chain of one to five redirects that a 421 ends, the request is written again over HTTP/1.1 after it was answered |
| Replay.SafeIsMayRepeat | src/domain_fronter.rs:4981-4983 | the methods that may be repeated are exactly GET, HEAD and OPTIONS, letter by letter in either case |
| Replay.FinalAnswerStands | src/domain_fronter.rs:1778-1782 | an answer other than 301, 302, 303, 307 and 308 is final |
| Replay.FiveHops | src/domain_fronter.rs:1778-1812 | a chain of redirects is followed for exactly five hops, and the answer to the fifth stands |
| Replay.DoRelayOnceWith | src/domain_fronter.rs:2739-2799 | the quota wrapper keeps that |
| Replay.DoRelayWithRetry | src/domain_fronter.rs:2613-2687 | for every other method nothing is sent again after a possibly sent request; without fan-out there is a second attempt exactly if the first failed and may be retried, and none after it |
| Replay.SendPrebuiltPayload | src/domain_fronter.rs:3104-3232 | the outer call to the exit node is not repeated once possibly sent |
| Replay.RelayViaExitNode | src/domain_fronter.rs:3017-3050 | unwrapping the envelope keeps that |
| Replay.Relay | src/domain_fronter.rs:1821-1985 | in every run for a method other than GET, HEAD and OPTIONS nothing is sent after an attempt that ended possibly sent; after the exit node the direct way is taken only if that failed, and not if it failed possibly sent |
| Coalescer.ReachableInv | src/domain_fronter.rs:1933-1984 | the invariant of table, channels, calls and cache holds in every state of every interleaving in which leaders complete |
| Coalescer.OneLeaderPerKey | src/domain_fronter.rs:1948-1965 | a key has at most one leader |
| Coalescer.LeaderRemovesItsOwn | src/domain_fronter.rs:1976-1981 | a leader removes its own entry and broadcasts on its own channel |
| Coalescer.JoinedGetsLeadersBytes | src/domain_fronter.rs:1967-1972 | whoever joined a leader returns that leader's bytes |
| Coalescer.NoneLeftWaiting | src/domain_fronter.rs:1967-1981 | a waiting call waits for a working leader of its key or can go on at once |
| Coalescer.CachedBytesWereLed | src/domain_fronter.rs:2604-2609 | cached bytes, and bytes served from the cache, were produced by a leader of that key |
| Coalescer.OnlyCacheableIsCached | src/domain_fronter.rs:2604-2609 | in every run, with cancellations too, whatever is cached or was served from the cache are bytes with which a relay of its producer ended and which may be cached; whatever a leader or its joiners returned are bytes with which that relay ended |
| Coalescer.CachedExactlyIfCacheable | src/domain_fronter.rs:2604-2609 | after a relay has ended, whatever the others do, the next step of its leader puts an answer that may be cached under its key and leaves the cache alone otherwise |
| Coalescer.UncacheableNeverCached | src/domain_fronter.rs:2604-2609 | in every run a leader whose answer may not be cached never produces an entry |
| Coalescer.CachedKeyIsServed | src/domain_fronter.rs:1933-1944 | a call that arrives while its key is cached, and stays cached, returns the cached bytes with its first step |
| Coalescer.CancelledLeaderStrands | src/domain_fronter.rs:1946-1981 | in every run after a leader is cancelled, whoever waits for it or is about to join it is never served |
| Coalescer.KeyStaysTaken | src/domain_fronter.rs:1946-1981 | in every run after a leader is cancelled its key stays taken by it |
| Coalescer.CancelOrphans | src/domain_fronter.rs:1946-1981 | cancelling any leader leads there |
| Quota.QuotaTracker.constructor | src/quota_tracker.rs:180-207 | every configured account has a bucket and accounts inside the reserve are stopped |
| Quota.QuotaTracker.AddMissing | src/quota_tracker.rs:187-193 | every configured account gets a bucket and no other bucket changes |
| Quota.QuotaTracker.CheckAllSafetyBuffers | src/quota_tracker.rs:142-157 | stops exactly the buckets inside the reserve |
| Quota.QuotaTracker.RecordAttempt | src/quota_tracker.rs:223-276 | rolls or opens the window, stops at the reserve, counts |
| Quota.QuotaTracker.RecordSuccess | src/quota_tracker.rs:285-293 | adds the downloaded bytes of a known account |
| Quota.QuotaTracker.RecordFailure | src/quota_tracker.rs:300-310 | counts a failure, and a quota error if it was one |
| Quota.QuotaTracker.MarkExhausted | src/quota_tracker.rs:314-327 | stops the account |
| Quota.QuotaTracker.IsHardStopped | src/quota_tracker.rs:332-338 | the flag of the account; unknown accounts are not stopped |
| Quota.QuotaTracker.IsGloballyHardStopped | src/quota_tracker.rs:348-380 | the loops compute the global stop: all configured accounts stopped, or a quota error seen and the joint remainder below the joint reserve |
| Quota.QuotaTracker.RollExpiredWindows | src/quota_tracker.rs:480-509 | resets exactly the expired windows |
| Quota.QuotaNeverOverrun | src/quota_tracker.rs:223-282 | in every run with up to k racing dispatchers and a positive buffer, used plus pending stays within k of limit minus buffer, or of what a loaded window had already used if that is more; past limit minus buffer the account is stopped |
| Quota.NoReserveNoBound | src/quota_tracker.rs:254-260 | with no buffer a single dispatcher reaches every number of used requests |
| Quota.GlobalStopHasStoppedAccount | src/quota_tracker.rs:348-380 | with a buffer up to the limit the global stop holds only if a configured account is stopped |
| Quota.LargeReserveStopsUsableAccount | src/quota_tracker.rs:348-380 | for every larger buffer there is a run with one configured account in which the global stop holds and that account is usable |
| Quota.UnconfiguredIrrelevant | src/quota_tracker.rs:359-375 | buckets of accounts that are not configured do not matter |
| Quota.GlobalStopIff | src/quota_tracker.rs:348-380 | everything is stopped exactly if accounts are configured and all are stopped, or one saw a quota error and the used requests with a reserve for each exceed the limits |
| Quota.StoppedExactlyPastThreshold | src/quota_tracker.rs:142-276 | in every run without a quota error for it, an account that was not stopped before is stopped exactly past limit minus buffer |
| Quota.StoppedUntilReset | src/quota_tracker.rs:230-250 | in every run a stopped account stays stopped, and its count does not shrink, until its window is over |
| Quota.AttemptCounts | src/quota_tracker.rs:223-276 | each counter after an attempt, the end of its window 86400 seconds after the attempt that opens it, and exactly when it stops the account |
| Quota.RollsExactlyWhatIsOver | src/quota_tracker.rs:480-509 | rolling gives an empty window of 86400 seconds to exactly the accounts whose window is over |
| ScriptPicker.Picker.constructor | src/domain_fronter.rs:632-645 | the index starts at the front and nothing is blacklisted |
| ScriptPicker.Picker.BlacklistFor | src/domain_fronter.rs:918-928 | blacklists one script until a moment |
| ScriptPicker.Picker.Scan | src/domain_fronter.rs:847-853 | finds the first usable script in cyclic order exactly when there is one |
| ScriptPicker.Picker.LastResort | src/domain_fronter.rs:854-874 | takes the script whose blacklisting ends soonest, preferring scripts not stopped by quota |
| ScriptPicker.Picker.NextScriptId | src/domain_fronter.rs:841-875 | always a configured script, and one neither stopped nor blacklisted at that time whenever there is one, else one whose blacklisting ends first; entries that are over leave the blacklist, and no others but that one |
| ScriptPicker.Picker.Gather | src/domain_fronter.rs:890-903 | collects different usable scripts and reads no further than needed |
| ScriptPicker.Picker.NextScriptIds | src/domain_fronter.rs:881-908 | returns exactly the smaller of want and the number of different usable scripts, all different, none stopped or blacklisted at that time |
| ScriptPicker.RoundRobinFair | src/domain_fronter.rs:847-852 | any k consecutive places of a list of n hold each of its places k / n times or once more |
| ScriptPicker.PickInTurn | src/domain_fronter.rs:841-875 | with every script usable, k calls of the picker return the list in turn; each place gets k / n of them or one more, and each script that many times the number of its places |
| Cache.ResponseCache.constructor | src/cache.rs:34-45 | starts empty and consistent |
| Cache.ResponseCache.Remove | src/cache.rs:59-62 | takes a key out of map, queue and size; the subtraction never saturates |
| Cache.ResponseCache.Get | src/cache.rs:51-66 | a hit is the last accepted put for the key, unexpired; an expired entry is dropped |
| Cache.ResponseCache.PopOldest | src/cache.rs:82-87 | drops the oldest entry and keeps everything consistent |
| Cache.ResponseCache.Evict | src/cache.rs:81-88 | drops the specified number of oldest entries and leaves room |
| Cache.ResponseCache.Put | src/cache.rs:68-93 | rejects empty bodies and bodies above a quarter of the cache; otherwise replaces, evicts and appends, keeping size, queue and map in agreement |
| Cache.EvictCountIsLeast | src/cache.rs:81-88 | the number of evicted entries is the least that makes room |
| UdpTable.UdpRelayState.constructor | src/proxy_server.rs:1058-1063 | starts empty |
| UdpTable.UdpRelayState.Insert | src/proxy_server.rs:1069-1072 | appends to the queue and sets the session with its channel |
| UdpTable.UdpRelayState.Remove | src/proxy_server.rs:1074-1079 | takes the first occurrence out of the queue and the session out of the map |
| UdpTable.UdpRelayState.EvictUntilUnder | src/proxy_server.rs:1084-1095 | for every table, pops the oldest entries until there is room or none is left and reports those that had a session; when queue and sessions agree it evicts exactly the oldest surplus in insertion order |
| UdpTable.PopsIsLeast | src/proxy_server.rs:1084-1095 | no fewer pops would make room, and these do unless the queue runs empty |
| UdpTable.UdpRelayState.Clear | src/proxy_server.rs:1104-1107 | empties the table |
| UdpTable.TableStaysConsistent | src/proxy_server.rs:1313-1413 | in every interleaving of the loop with tasks that leave and then remove, queue and sessions agree and there are at most 256 sessions |
| UdpTable.RoomCostsTheOldest | src/proxy_server.rs:1321-1341 | in every run making room takes nothing below 256 sessions, and at 256 exactly the oldest |
| UdpTable.NewTargetOpened | src/proxy_server.rs:1313-1413 | for a new target the table gets the session with the channel of a new task that reads it, or with a failed open stays without it, and the loop receives again |
| UdpTable.ServedStep | src/proxy_server.rs:1389-1413 | a step from a state in which every entry has its own task keeps that exactly when it is not the removal by the task of the entry about to be inserted |
| UdpTable.ServedIffNoEarlyRemoval | src/proxy_server.rs:1313-1413 | every entry has the task that alone reads its channel in all states of a run exactly when no task is through between its start and the insertion of its entry |
| UdpTable.EarlyRemovalLeavesEntry | src/proxy_server.rs:1389-1413 | for every target there is a run in which its task is through before its entry is inserted, which leaves an entry without any task |
| UdpTable.UnreadStays | src/proxy_server.rs:1313-1413 | in every continuation of every run an entry whose channel is not read stays so exactly until a step evicts it, a task of its target removes it, or the association is torn down |
| UdpTable.NoneAbandonedStep | src/proxy_server.rs:1389-1413 | a step from a state in which every entry has some task that will remove it keeps that exactly when it is not the removal by the last task of the target about to be inserted |
| UdpTable.AbandonedStays | src/proxy_server.rs:1313-1413 | in every continuation of every run an entry without any task of its target stays so exactly until a step evicts it or tears the association down |
| Socks5Udp.ParsePacketOffsets | src/proxy_server.rs:1577-1634 | the parser with its running position computes the parsing function |
| Socks5Udp.BuildPacket | src/proxy_server.rs:1641-1654 | the builder computes the framing function |
| Socks5Udp.ParseOfBuild | src/proxy_server.rs:1577-1654 | parsing a built packet gives back target and payload exactly for four bytes of type 1, 1 to 255 bytes of text of type 3, and sixteen bytes of type 4 |
| Socks5Udp.Layout | src/proxy_server.rs:1641-1654 | where the zeros, the type, the length of a name, the address, the port and the payload lie in a built packet |
| Socks5Udp.BuildOfParse | src/proxy_server.rs:1577-1654 | rebuilding any accepted packet reproduces its bytes |

## Left out

- TLS, sockets, the HTTP/2 library, gzip, base64 and JSON: their outcomes are arbitrary results of a step.
- Timeouts and scheduling: clocks are abstract and only move forward, interleaving is arbitrary; the 25 second timeout of a request may cut a run short anywhere.
- The backoff after a failed HTTP/2 open: it is a step of the protocol, but nothing is claimed about it because the source does not look at it again under the open lock.
- I/O errors of the client connection: the wire accepts every write.
- Calls already inside the open path when HTTP/2 is disabled: nothing is claimed about what they are handed or store.
- Quota of requests through the exit node: the source records no attempt for them.
- Text of keys, masks, reasons and log lines; the day key is the date itself, not its ten characters, and the printed host of a UDP target is left to its address bytes.
- 64-bit wrap-around of counters, of `size + 2` in the chunked readers and of the products in the global stop: these are unbounded numbers here; sizes are refused above the 64-bit maximum as parsing does.
- Concurrent updates of the daily counters between the key check and the additions: PacificDay.DailyCounters describes sequential runs.
- Hard stops that change while a script is being chosen: Picker takes them as one set per call.
- The first branches of the range download (other methods, bodies, a client Range header that starts at zero) pass one reply on and are not modelled.
- Safe methods in Replay: GET, HEAD and OPTIONS may be repeated by design and nothing is claimed for them; HTTP/1.1 failures and error statuses are retried for every method.
- The tunnel protocol, the connection pool, per-site statistics, quota persistence and summaries, certificate handling, configuration and the command line: not part of this model.
- Cache lifetimes and cache keys: how `parse_ttl` reads a lifetime from headers, extension and content type, and the text of keys; a lifetime is a number given to the cache.
