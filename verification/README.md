# Clipman daemon: verified model

A Dafny model of the clipboard daemon's core logic, with proofs. `dafny verify dfyconfig.toml` checks it all.

Where the daemon changes things step by step the model does too (classes, arrays, loops); each such method is
tied to a function on values, and the main results are lemmas about those functions over every input, every
run or every interleaving.

| file | models |
|---|---|
| `ByteStrings.dfy`, `Trimming.dfy`, `Sequences.dfy` | Go byte strings, their order and `TrimSpace`, against Unicode's white space; sequence helpers |
| `TimeKey.dfy`, `ZoneChanges.dfy`, `KeySamples.dfy` | the storage keys: RFC3339Nano printing and parsing, and when byte order is time order, within one zone and across zones; the calendar and printed keys worked out by other means |
| `ClipboardTypes.dfy` | contents, and JSON and gzip as black boxes (`Codec`) |
| `Bucket.dfy` | a Bolt bucket as its entries in cursor order |
| `StoreModel.dfy`, `HistoryQuery.dfy`, `ReverseHistory.dfy`, `SinceQuery.dfy`, `StoreHistory.dfy`, `BoltStorage.dfy` | the history store: saving, flushing, the size counter, queries, what they show after any run, and the object with its cursor loops |
| `ClipboardHistory.dfy`, `ContentProcessing.dfy`, `MonitorModel.dfy`, `Monitor.dfy` | the monitor pipeline: ring, filters, deduplication, restarts |
| `ContentHash.dfy`, `Polling.dfy`, `ClipboardCache.dfy`, `ClipboardWatch.dfy`, `FileLists.dfy`, `UriSpelling.dfy` | the Linux clipboard: change hash, adaptive polling, cache, polling through the cache, file lists and what the parser reads |
| `Pairing.dfy`, `PairingProtocol.dfy`, `PairingOutcomes.dfy`, `PairingHandlers.dfy`, `PairingConsent.dfy` | the pairing manager's critical sections, every interleaving of many devices, how exchanges end, and whose consent they need |
| `DibImage.dfy`, `Logger.dfy` | Windows bitmaps; log rotation |

## What fails, and exactly when

Several promises do not hold as stated. The code is kept as it is; each has its exact condition, and a lemma at a failing
input or run unless the theorem itself covers all failing inputs.

- Keys sort as times in any one numeric zone. In UTC they do not: two times of one second are in the wrong order
  exactly when one printed fraction is a proper prefix of the other (`TimeKey.UtcKeysSortAsTimesIff`). Across zones
  they do exactly when the zone has moved by less than the clock shows to have passed, with a rule of its own within
  one second (`ZoneChanges.KeysSortAsTimesIff`), so an hour of keys is misplaced when summer time ends. Inputs are in
  `TimeKey.UtcCounterexample` and `TimeKey.OffsetChangeCounterexample`.
- So a query with Since misses matching entries exactly when one of them has a key below Since's
  (`HistoryQuery.ForwardHistoryIsTheQueryIff`); in UTC these are the later instants of Since's own second whose
  fraction extends Since's (`HistoryQuery.UtcForwardHistoryIsTheQueryIff`, with an input in
  `HistoryQuery.UtcQueryLosesTheContent`). `GetContentSince` returns the contents created since the given time
  exactly when key order is time order between that time and each content, and everything from the seek position on
  can be read (`SinceQuery.GetContentSinceIff`, with inputs in `SinceQuery.UtcContentSinceFails`).
- History shows contents in the order of saving exactly when their keys ascend (`StoreHistory.SavedOrderIsShownIff`,
  with an input in `StoreHistory.SavedOrderIsLost`), and a restarted monitor forgets its last content exactly when
  that one's key is below the one before (`MonitorModel.RestartForgetsByClockIff`,
  `MonitorModel.UtcRestartForgetsIff`, with a run in `MonitorModel.RestartForgets`).
- A reverse query with Before mirrors the forward one exactly when each match is covered by both or by neither
  (`ReverseHistory.ReverseBeforeMirrorsAlwaysIff`): it leaves out Before's own key, and is empty when Before is past
  the last key (`ReverseHistory.ReverseBeforeMirrorsIff`, with an input in
  `ReverseHistory.ReverseBeforeLosesItsKey`).
- A newly opened size counter exceeds the stored value bytes by the key bytes, on every bucket
  (`StoreModel.OpenSlack`). A flush, although commented as keeping the cache under its limit
  (`internal/storage/boltdb.go:305`), does so exactly when the newest keepItems entries and the older unreadable ones
  fit (`StoreModel.FlushWithinLimitIff`, with an input in `StoreModel.FlushStaysOver`). `docs/CACHING.md` describes
  the counter as adding data lengths; the code adds encoded lengths and subtracts data lengths.
- `GetLast(n)` returns the oldest n of the window (`ClipboardHistory.GetLastIsNewestIff`, with an input in
  `ClipboardHistory.GetLastCounterexample`).
- A content that arrives again right after it was accepted is recognised exactly when normalisation leaves it alone
  and the window has not passed; otherwise it is accepted and saved again (`MonitorModel.ArrivesAgain`, with an input
  in `MonitorModel.SpacedTextIsAcceptedTwice`). Normalisation leaves alone what has clean ends, only accessible files
  and the detected type (`MonitorModel.FixedIff`); copies of a type that detection never gives, as HTML and RTF, are
  all accepted (`MonitorModel.UndetectedTypesPileUp`).
- `formatsEqual` promises equality in any order. The lists it accepts for b are b's permutations exactly when b has
  no duplicates (`Polling.FormatsEqualMeansPermutationIff`, with an input in `Polling.FormatsEqualCounterexample`).
- A changed content with the hash of the last delivered one is dropped (`Polling.ReadIsDeliveredIff`, with a run in
  `Polling.CollisionIsLost`).
- A read after a successful write comes from the cache, with the content of before the write, exactly when the cache
  was valid and a custom type took the write over (`ClipboardCache.ReadAfterWrite`, with a run in
  `ClipboardCache.CustomWriteIsNotSeen`). The cache falls behind the last content exactly by a read of something new
  while caching is off and an entry is left (`ClipboardCache.StepKeepsAgreementIff`, with a run in
  `ClipboardCache.TogglingReadsBackTheOlder`).
- A GNOME list comes back exactly when no path is blank or has a newline (`FileLists.GnomeRoundTripIff`): one of
  blank paths is read as the file "copy" (`FileLists.CopyIsAFile`, with an input in
  `FileLists.BlankPathBecomesCopy`). A URI list comes back exactly when no path has `%`, `+`, a newline or trailing
  white space (`FileLists.UriRoundTripIff`, with an input in `FileLists.PercentIsLost`).
- A pairing stays one-sided, in every continuation, exactly when its reply is lost or its request fails before the
  initiator has recorded the responder (`PairingOutcomes.OneSidedForeverIff`, with a run in
  `PairingOutcomes.OneSidedPairing`).
- A pairing request reaches a handler that is gone exactly when the device was disabled between the check and the
  call and not switched on again (`PairingHandlers.MissingHandlerIff`, with a run in
  `PairingHandlers.MissingHandlerRuns`).
- A bottom-up bitmap becomes its picture; a top-down one becomes a blank image, whatever its pixels
  (`DibImage.ConvertDib`).

## Model

| member | source | states |
|---|---|---|
| TimeKey.NumericOffsetKeysSortAsTimes | internal/storage/boltdb.go:144 | in one numeric zone keys compare as the instants do, although trailing fraction zeros are dropped; equal keys are equal times |
| TimeKey.KeyOrder | internal/storage/boltdb.go:144 | for any two times of one zone, the exact result of comparing their keys, the 'Z' suffix included |
| TimeKey.UtcKeysSortAsTimesIff | internal/storage/boltdb.go:144 | in UTC key order agrees with time order if and only if the two times are not one second with one fraction a proper prefix of the other |
| TimeKey.UtcWholeSecondSortsLast | internal/storage/boltdb.go:144 | in UTC a whole second sorts after every later instant of that second |
| TimeKey.UtcCounterexample | internal/storage/boltdb.go:144 | 12:00:05Z and 12:00:05.5Z are stored in the wrong order |
| ZoneChanges.KeysCompareByWallClock | internal/storage/boltdb.go:144 | for any two times of any zones, the exact result of comparing their keys: wall-clock seconds, then fractions, zones and a final 'Z' |
| ZoneChanges.KeysSortAsTimesIff | internal/storage/boltdb.go:144 | for any two zones, exactly when key order is time order: by how far the zone moves against the clock, and within one second |
| ZoneChanges.ClocksPutBack | internal/storage/boltdb.go:144 | of two instants in order, the later has the smaller key exactly when its wall clock shows less, which needs the zone to have moved back |
| TimeKey.OffsetChangeCounterexample | internal/storage/boltdb.go:144 | at the end of summer time 02:30+02:00 is before 02:10+01:00 and has the larger key |
| TimeKey.ParseInvertsFormat | internal/storage/boltdb.go:370-376 | parsing a printed key gives back the time, zone and nanoseconds included |
| TimeKey.NumbersCountSeconds | internal/storage/boltdb.go:144 | comparing the printed date and clock numbers is comparing wall-clock seconds, leap years included |
| KeySamples.InstantByDivision | internal/storage/boltdb.go:144 | an instant is its civil fields counted with leap years by division and a table of months |
| KeySamples.PrintedSamples | internal/storage/boltdb.go:144 | keys of 2024-10-27T02:30:05, with and without .5, in +02:00, -05:30 and UTC, byte by byte |
| Bucket.PutIsMapUpdate | internal/storage/boltdb.go:144 | Put keeps cursor order and replaces or adds exactly one entry |
| Bucket.DeleteIsMapRemoval | internal/storage/boltdb.go:280 | Delete keeps cursor order and removes exactly the entry of the key |
| StoreModel.FlushKeepsNewest | internal/storage/boltdb.go:227-303 | collect-then-delete leaves the newest keepItems entries unchanged and in order, plus the older ones that do not decode |
| StoreModel.FlushLeavesExactlyNewest | internal/storage/boltdb.go:227-303 | with everything decodable, exactly the min(keepItems, n) entries of greatest key remain |
| StoreModel.FlushTwice | internal/storage/boltdb.go:296-311 | a second flush changes nothing |
| StoreModel.FlushSlack | internal/storage/boltdb.go:277-288 | a flush never takes more off the counter than the bytes it removes |
| StoreModel.FlushTakes | internal/storage/boltdb.go:277-288 | a flush takes exactly the data bytes of the readable entries before the newest keepItems off the counter |
| StoreModel.ReadableBytesAdd | internal/storage/boltdb.go:277-288 | which is a sum over entries, of the data of each that decodes and nothing for the others |
| StoreModel.FlushMakesRoom | internal/storage/boltdb.go:127-146 | saves whose encodings fit in what a flush leaves of the limit are all made without another flush, and only add to the bucket and the counter |
| StoreModel.SaveSound | internal/storage/boltdb.go:127-146 | a save keeps the store sound and never shrinks the counter's excess |
| StoreModel.SaveBounded | internal/storage/boltdb.go:136-144 | each save ends within maxSize, or with at most keepItems + 1 entries besides undecodable ones |
| StoreModel.SaveTakes | internal/storage/boltdb.go:127-146 | a save adds the encoded bytes and, exactly when that exceeds the limit, takes off what a flush does |
| StoreModel.FlushWithinLimitIff | internal/storage/boltdb.go:305-311 | a flush ends within maxSize if and only if the newest keepItems entries and the older unreadable ones fit |
| StoreModel.FlushStaysOver | internal/storage/boltdb.go:305-311 | a flush leaves a single entry larger than the limit |
| StoreModel.SaveWithinLimitIff | internal/storage/boltdb.go:136-144 | a save ends within maxSize if and only if the counter had room, or the new entry put among what a flush leaves fits |
| StoreModel.OpenSlack | internal/storage/boltdb.go:92-100 | a newly opened counter exceeds the stored value bytes by exactly the key bytes |
| StoreModel.RunSound | internal/storage/boltdb.go:92-146 | over every sequence of saves, flushes and reopenings the counter covers the stored bytes; without reopening its excess never shrinks |
| StoreModel.SizeGuarantee | internal/storage/boltdb.go:127-146 | the size bound after each save, from any readable bucket through any operations |
| StoreModel.LatestIff | internal/storage/boltdb.go:149-175 | the latest content is what the entry of the greatest key holds, decompressed if it is compressed |
| StoreModel.LatestAfterSaveIff | internal/storage/boltdb.go:149-175 | a saved content is the latest one if and only if its key is not below the greatest key |
| HistoryQuery.SelectedAreWanted | internal/storage/boltdb.go:369-429 | the answer consists of the wanted entries and no others |
| HistoryQuery.ForwardHistoryIsTheQueryIff | internal/storage/boltdb.go:354-429 | with keys of any zones, the forward scan returns the first Limit wanted entries of the whole bucket if and only if none of the wanted has a key below Since's |
| HistoryQuery.ForwardHistoryIsTheQuery | internal/storage/boltdb.go:354-429 | so in one numeric zone it always does |
| HistoryQuery.ForwardHistoryAscends | internal/storage/boltdb.go:354-429 | a forward answer ascends in key order, and strictly in time when it is of one numeric zone |
| HistoryQuery.UtcForwardHistoryIsTheQueryIff | internal/storage/boltdb.go:354-429 | in UTC it does if and only if no wanted entry lies in Since's second with a fraction properly extending Since's |
| HistoryQuery.UtcQueryLosesTheContent | internal/storage/boltdb.go:356-358 | asked since 12:00:05Z, a bucket with one matching content of 12:00:05.5Z gives nothing |
| ReverseHistory.ReverseHistoryIsTheQuery | internal/storage/boltdb.go:349-429 | without Before, reverse returns the newest Limit wanted entries, newest first, on any bucket |
| ReverseHistory.ReverseMirrorsForwardIff | internal/storage/boltdb.go:338-429 | without Before and limit, reverse is the exact reversal of forward if and only if the seek to Since loses nothing |
| ReverseHistory.ReverseBefore | internal/storage/boltdb.go:340-348 | with Before, reverse covers the keys strictly below Before's, or nothing when no key is at or above it |
| ReverseHistory.ReverseBeforeMirrorsIff | internal/storage/boltdb.go:340-348 | with Before, and a seek that loses nothing, reverse mirrors forward if and only if every match has its key below Before's, and some key is not below it or nothing matches |
| ReverseHistory.ReverseBeforeMirrorsAlwaysIff | internal/storage/boltdb.go:340-365 | for any bounds, reverse with Before mirrors forward if and only if every match has its key both not below Since's and below Before's, or neither; no key counts as below Before's when none is at or above it |
| ReverseHistory.ReverseBeforeLosesItsKey | internal/storage/boltdb.go:340-348 | asked up to the time of the only content, forward finds it and reverse does not |
| StoreHistory.HistoryAfterRun | internal/storage/boltdb.go:127-429 | from any sound store, after any run of saves with ascending keys, flushes and reopenings, every query shows what it would show of one last part of everything stored and saved: at least the newest keepItems entries, all if only saves that fit were made |
| StoreHistory.HistoryShowsTheNewest | internal/storage/boltdb.go:127-429 | contents of any zones saved with ascending keys come back in that order: all while they fit, always at least the newest keepItems |
| StoreHistory.SavedOrderIsShownIff | internal/storage/boltdb.go:127-429 | while they fit, contents come back in the order of saving if and only if their keys ascend |
| StoreHistory.DefaultsShowTen | internal/storage/boltdb.go:66-76 | with the defaults all contents are shown up to 100 MiB, and always at least the ten newest |
| StoreHistory.LimitedIs | internal/storage/boltdb.go:367-429 | the limit cuts the answer after that many contents, from the first forward and from the last in reverse |
| StoreHistory.SavedOrderIsLost | internal/storage/boltdb.go:144 | contents of 12:00:05Z and 12:00:05.5Z saved in that order do not come back in it |
| StoreHistory.TimeOrderIsKeyOrder | internal/storage/boltdb.go:144 | in one numeric zone contents in time order have ascending keys |
| BoltStorage.BoltStorage.constructor | internal/storage/boltdb.go:61-111 | defaults, and the size scan equals the model's opening count |
| BoltStorage.BoltStorage.SaveContent | internal/storage/boltdb.go:127-146 | the object's new state is the model's save |
| BoltStorage.BoltStorage.GetLatestContent | internal/storage/boltdb.go:149-175 | the last entry, decompressed |
| BoltStorage.BoltStorage.GetContentSince | internal/storage/boltdb.go:178-205 | everything from the seek position up to the first unreadable entry, and whether there was one |
| BoltStorage.BoltStorage.GetAllContents | internal/storage/boltdb.go:208-210 | the same from Go's zero time |
| SinceQuery.ReadEntryIff | internal/storage/boltdb.go:186-201 | an entry is read as what it decodes to, decompressed if it is compressed |
| SinceQuery.GetContentSinceIff | internal/storage/boltdb.go:177-205 | the answer is all readable content created at or after the given time if and only if everything from the seek position on can be read and each content's key sorts against that time as the instants do |
| SinceQuery.NumericContentSinceIff | internal/storage/boltdb.go:177-205 | in one numeric zone: if and only if everything from the seek position on can be read |
| SinceQuery.UtcContentSinceFails | internal/storage/boltdb.go:177-205 | since 12:00:05Z the content of 12:00:05.5Z is dropped, and since 12:00:05.5Z that of 12:00:05Z is returned |
| SinceQuery.GetAllContentsIff | internal/storage/boltdb.go:207-210 | all readable content comes back if and only if just the unreadable entries have keys below 0001-01-01T00:00:00Z |
| BoltStorage.BoltStorage.CollectItemsToFlush | internal/storage/boltdb.go:227-259 | the two passes collect exactly the decodable entries older than the newest keepItems |
| BoltStorage.BoltStorage.DeleteItemsFromBucket | internal/storage/boltdb.go:269-293 | deletes under the rebuilt keys and subtracts the data lengths |
| BoltStorage.BoltStorage.FlushOldestContent | internal/storage/boltdb.go:296-303 | the object's new state is the model's flush |
| BoltStorage.BoltStorage.Close | internal/storage/boltdb.go:318-324 | flushes first |
| BoltStorage.BoltStorage.PlaceCursor | internal/storage/boltdb.go:338-366 | the cursor is placed at the head of the model's path and moves along it |
| BoltStorage.BoltStorage.Scan | internal/storage/boltdb.go:367-429 | the loop returns the first Limit selected contents of the path |
| BoltStorage.BoltStorage.GetHistory | internal/storage/boltdb.go:327-437 | returns the model's history |
| ClipboardHistory.ClipboardHistory.Add | internal/clipboard/history.go:28-37 | the ring read from its cursor is the last min(size, adds) items, oldest first |
| ClipboardHistory.ClipboardHistory.GetLast | internal/clipboard/history.go:39-55 | the oldest min(n, held) items, newest of them first |
| ClipboardHistory.AllOfTheWindow | internal/clipboard/history.go:39-55 | asking for at least as many as are held gives them all, newest first |
| ClipboardHistory.GetLastIs | internal/clipboard/history.go:39-55 | item by item, which of the added contents GetLast gives |
| ClipboardHistory.GetLastIsNewestIff | internal/clipboard/history.go:39-55 | the result is the newest n if and only if n is 0 or covers the window |
| ClipboardHistory.GetLastCounterexample | internal/clipboard/history.go:39-55 | of three items, asked for one, the oldest comes back |
| ContentProcessing.Process | internal/clipboard/content_processing.go:52-98 | size filter, type processing, transformers and filters, as the specification function |
| ContentProcessing.ProcessedIff | internal/clipboard/content_processing.go:52-98 | a content survives if and only if it fits, each transformer hands it on to the next, and all filters pass |
| ContentProcessing.MonitorProcessing | internal/clipboard/content_processing.go:238-246 | with the monitor's transformer the type-specific trim is all that happens |
| ContentProcessing.ProcessingTwice | internal/clipboard/content_processing.go:106-118 | processing twice is processing once for every type but file lists |
| ByteStrings.TrimSpaceFixed | internal/clipboard/content_processing.go:106-110 | trimming is idempotent and changes a string exactly when an end is white space (Unicode, in UTF-8) |
| Trimming.TrimSpaceKeepsTheMiddle | internal/clipboard/content_processing.go:106-110 | trimming takes UTF-8 encoded White_Space characters off both ends, keeps all between, and leaves none at an end |
| Trimming.TrimSpaceFinds | internal/clipboard/content_processing.go:106-110 | whatever has no such character at an end comes back from between any of them |
| MonitorModel.HandleInStepIff | internal/clipboard/monitor.go:158-182 | handling a content keeps lastContent equal to the store's latest exactly when its key does not fall |
| MonitorModel.RestartsAreInvisible | internal/clipboard/monitor.go:83-96 | any number of restarts anywhere in any run with non-falling keys changes neither decisions nor lastContent |
| MonitorModel.RestartsAreInvisibleByClock | internal/clipboard/monitor.go:83-96 | the same from times alone, of any zones: none has an earlier key than one before |
| MonitorModel.NumericZoneNeverBack | internal/clipboard/monitor.go:83-96 | which holds in one numeric zone when the clock never goes back |
| MonitorModel.RestartShrinks | internal/storage/boltdb.go:318-324 | a restart leaves the newest keepItems entries and the older unreadable ones, and counts their bytes anew |
| MonitorModel.RestartForgetsIff | internal/clipboard/monitor.go:83-96 | a restart forgets the content just accepted if and only if its key falls |
| MonitorModel.RestartForgetsByClockIff | internal/clipboard/monitor.go:83-96 | the same from the two times, of any two zones |
| MonitorModel.UtcRestartForgetsIff | internal/clipboard/monitor.go:83-96 | in UTC: if and only if the two times clash within a second |
| MonitorModel.RestartForgets | internal/clipboard/monitor.go:83-96 | a run of two copies in UTC after which a restart forgets the last content |
| MonitorModel.AcceptedContentsDiffer | internal/clipboard/monitor.go:244-273 | neighbouring accepted contents differ in type or data or are over five seconds apart, across restarts |
| MonitorModel.AcceptedIsDeduplicated | internal/clipboard/monitor.go:244-273 | over every such run, restarts or not, the accepted contents are exactly those copied less each that repeats type and data of the one accepted last within five seconds |
| MonitorModel.NormalizedIff | internal/clipboard/monitor.go:131-182 | what normalisation makes of a content: dropped when too long; text cut to what lies between white space, file lists to their accessible files; type detected from the result |
| MonitorModel.FixedIff | internal/clipboard/monitor.go:131-182 | which contents normalisation leaves alone: size, clean ends, accessible files, detected type |
| MonitorModel.ArrivesAgain | internal/clipboard/monitor.go:131-182 | a content arriving again at any later time is recognised if and only if normalisation leaves it alone and the window has not passed; otherwise it is accepted and saved again |
| MonitorModel.SpacedTextIsAcceptedTwice | internal/clipboard/monitor.go:131-182 | the text " a" handled twice is accepted twice |
| MonitorModel.UndetectedTypesPileUp | internal/clipboard/monitor.go:131-182 | copies of a type that detection never gives are all accepted |
| Monitor.Monitor.Start | internal/clipboard/monitor.go:83-96 | picks up the store's latest content |
| Monitor.Monitor.IsContentEqual | internal/clipboard/monitor.go:244-273 | type, data and the five-second window |
| Monitor.Monitor.HandleContent | internal/clipboard/monitor.go:117-139 | the object's new state is the model's step |
| Monitor.Monitor.ProcessNewContent | internal/clipboard/monitor.go:158-182 | normalise, save, add to the ring, remember |
| Monitor.Monitor.GetHistory | internal/clipboard/monitor.go:276-278 | what the user is shown of the last hundred accepted contents |
| ContentHash.HashContent | internal/platform/clipboard_linux.go:1766-1781 | the loop computes the polynomial in 33 over the first 4098 bytes modulo 2^32, in hexadecimal |
| ContentHash.OneByteChangesHash | internal/platform/clipboard_linux.go:1771-1780 | any one-byte substitution in the hashed prefix changes the hash |
| ContentHash.TailIsIgnored | internal/platform/clipboard_linux.go:1776-1779 | bytes after the prefix never matter |
| ContentHash.HashSamples | internal/platform/clipboard_linux.go:1766-1781 | the hashes of the empty text, "a" and "ab" |
| ContentHash.SameHashIff | internal/platform/clipboard_linux.go:1771-1780 | nonempty contents share a hash if and only if their polynomials are congruent |
| ContentHash.HashCollides | internal/platform/clipboard_linux.go:1771-1780 | two contents of two bytes with one hash |
| Polling.FormatsEqual | internal/platform/clipboard_linux.go:1784-1803 | equal length and one inclusion |
| Polling.FormatsEqualMeansPermutationIff | internal/platform/clipboard_linux.go:1783-1803 | the accepted lists are the permutations of b if and only if b has no duplicates |
| Polling.FormatsEqualCounterexample | internal/platform/clipboard_linux.go:1783-1803 | x, y equals x, x but not the other way round |
| Polling.Intervals | internal/platform/clipboard_linux.go:172-183 | base at least one second; max as set, or three times base when that is below it |
| Polling.Poller.OnTick | internal/platform/clipboard_linux.go:1664-1757 | one tick changes the goroutine's variables as the model's step |
| Polling.IntervalFollowsIdleTicks | internal/platform/clipboard_linux.go:1673-1748 | in every run the interval is min(base*2^k, max), k being the idle ticks since the last delivery or one less |
| Polling.IntervalIsExact | internal/platform/clipboard_linux.go:1673-1748 | in every run the interval is min(base*2^k, max), k being the idle ticks since the last delivery less the first one, unless the same content was read again before it |
| Polling.ReadsAreNotStarved | internal/platform/clipboard_linux.go:1673-1704 | any ticks with skipThreshold successful format polls among them, however many fail, contain a read |
| Polling.SkippedIff | internal/platform/clipboard_linux.go:1673-1704 | in every run a tick that lists formats is skipped if and only if they are taken for those remembered and fewer than skipThreshold - 1 listings followed the last read; otherwise it reads |
| Polling.ReadsAreRare | internal/platform/clipboard_linux.go:1673-1704 | while permutations of one list are listed n times, between n / skipThreshold and 1 + n / skipThreshold ticks read |
| Polling.ReadsInUse | internal/platform/clipboard_linux.go:1637-1642 | one listing in three reads, in stealth mode one in five, and one more |
| Polling.ReadsAreClose | internal/platform/clipboard_linux.go:1673-1704 | from any tick on there is a read within one maximal interval per tick until skipThreshold polls have succeeded |
| Polling.ReadsWithinThreshold | internal/platform/clipboard_linux.go:1673-1704 | when no poll fails, reads come within skipThreshold times the maximum interval |
| Polling.SkippedSawPermutation | internal/platform/clipboard_linux.go:1673-1699 | a skipped poll saw a permutation of the remembered formats |
| Polling.DeliveriesDiffer | internal/platform/clipboard_linux.go:1730-1755 | consecutive deliveries differ within the hashed prefix |
| Polling.ReadIsDeliveredIff | internal/platform/clipboard_linux.go:1730-1755 | a read content is delivered if and only if its hash is not the last delivered one's |
| Polling.CollisionIsLost | internal/platform/clipboard_linux.go:1734-1737 | a run of two ticks whose second content, with other formats, is never delivered |
| ClipboardCache.LinuxClipboard.Read | internal/platform/clipboard_linux.go:450-614 | cache first, then the readers in order; rich contents are cached before comparison, text after |
| ClipboardCache.RealReadIs | internal/platform/clipboard_linux.go:450-614 | a read past the cache gives the content of the first of custom, HTML, RTF, image, file and text reader that is offered its format and succeeds, unless it is the last content again; what it caches; it fails if and only if none succeeds |
| ClipboardCache.CachedUntilExpiryIff | internal/platform/clipboard_linux.go:211-240 | what it cached answers the later reads if and only if less than the expiry has passed |
| ClipboardCache.LinuxClipboard.Write | internal/platform/clipboard_linux.go:1806-1859 | built-in writes set lastContent and empty the cache; custom ones return early |
| ClipboardCache.WriteIs | internal/platform/clipboard_linux.go:1806-1859 | which writes succeed, and that only those of a built-in type change the last content and empty the cache |
| ClipboardCache.LinuxClipboard.GetCachedContent | internal/platform/clipboard_linux.go:211-240 | a copy of the entry while it is enabled, present and not expired |
| ClipboardCache.LinuxClipboard.UpdateCache | internal/platform/clipboard_linux.go:243-266 | stores unless caching is off |
| ClipboardCache.CacheAgrees | internal/platform/clipboard_linux.go:243-614 | over every run with caching left on, a present entry holds lastContent |
| ClipboardCache.StepKeepsAgreementIff | internal/platform/clipboard_linux.go:450-614 | an operation breaks that agreement if and only if it reads something new while caching is off and an entry is left |
| ClipboardCache.TogglingReadsBackTheOlder | internal/platform/clipboard_linux.go:450-614 | a run that toggles caching and then reads back the older of two contents |
| ClipboardCache.CachedReadIsRecent | internal/platform/clipboard_linux.go:211-240 | a cached read was really read less than the expiry ago and since the last successful built-in write |
| ClipboardCache.ReadAfterWrite | internal/platform/clipboard_linux.go:1806-1859 | after a successful write a read is cached if and only if the cache was valid and a custom type took the write over, and then gives what a read before the write gives |
| ClipboardCache.CustomWriteIsNotSeen | internal/platform/clipboard_linux.go:1816-1824 | a run in which a read after a custom write gives what was read before it |
| ClipboardCache.LinuxClipboard.EnableCache | internal/platform/clipboard_linux.go:186-190 | sets the switch and keeps the entry |
| ClipboardCache.LinuxClipboard.SetCacheExpiry | internal/platform/clipboard_linux.go:193-201 | at least 100 milliseconds |
| ClipboardWatch.TurnDeliversIff | internal/platform/clipboard_linux.go:1664-1755 | a tick that reads through the cache delivers if and only if it really reads, a content whose hash is not the last delivered one's |
| ClipboardWatch.CachedFormatsAreSeen | internal/platform/clipboard_linux.go:617-626 | while a cache entry with formats is valid a tick sees those and may skip, whatever the display server lists |
| ClipboardWatch.DeliveriesAreReal | internal/platform/clipboard_linux.go:450-700 | in every run what a tick delivers is then on the display server; the cache never delivers a stale content |
| ClipboardWatch.NewContentArrives | internal/platform/clipboard_linux.go:1628-1755 | after any run, a content that stays on the display server and has another hash than the last delivery is delivered before skipThreshold listings have succeeded past the expiry of the cache |
| FileLists.BuildTexts | internal/platform/clipboard_linux.go:2070-2083 | the builders print the GNOME and URI lists |
| FileLists.ParseUriData | internal/platform/clipboard_linux.go:875-952 | GNOME lines, else trimmed lines with comments dropped and file URIs decoded |
| UriSpelling.UriLineIff | internal/platform/clipboard_linux.go:908-926 | a line gives the path it names between white space: a file URI with any percent encoding of it, or itself; comments, blank lines and malformed encodings give none |
| UriSpelling.UnescapeIff | internal/platform/clipboard_linux.go:915 | decoding reads exactly the spellings: bytes as themselves, spaces as plus signs, and hexadecimal digits in either case |
| UriSpelling.GnomeLineIff | internal/platform/clipboard_linux.go:882-890 | a GNOME line is kept as it stands unless it is all white space |
| UriSpelling.SplitIff | internal/platform/clipboard_linux.go:908 | the lines are the newline-free pieces that joined by newlines make up the text |
| UriSpelling.CommentsAreDropped | internal/platform/clipboard_linux.go:912 | a comment line changes nothing |
| UriSpelling.SpaceIsRead | internal/platform/clipboard_linux.go:908-926 | file:///a%20b is the path "/a b" |
| UriSpelling.PrintedLists | internal/platform/clipboard_linux.go:2070-2083 | the texts printed for two paths, byte by byte |
| FileLists.GnomeRoundTripIff | internal/platform/clipboard_linux.go:878-905 | a GNOME list comes back in order if and only if no path is blank or has a newline |
| FileLists.GnomePathRoundTripIff | internal/platform/clipboard_linux.go:1999-2012 | the single-path GNOME text comes back if and only if the path is not blank and has no newline |
| FileLists.CopyIsAFile | internal/platform/clipboard_linux.go:878-926 | without a GNOME file the line "copy" is taken for a path |
| FileLists.BlankPathBecomesCopy | internal/platform/clipboard_linux.go:878-926 | a list of one blank path comes back as the file "copy" |
| FileLists.UriRoundTripIff | internal/platform/clipboard_linux.go:908-926 | a URI list comes back in order if and only if no path has a newline, '%', '+' or trailing white space |
| FileLists.PercentIsLost | internal/platform/clipboard_linux.go:908-926 | a list of the path "%" does not come back |
| FileLists.UriPathRoundTripIff | internal/platform/clipboard_linux.go:1999-2016 | the same for the single-path writer |
| Pairing.PairingManager.EnablePairing | internal/sync/pairing.go:190-215 | refused while on; sets switch and handler |
| Pairing.PairingManager.DisablePairing | internal/sync/pairing.go:218-231 | clears switch and handler |
| Pairing.PairingManager.Stop | internal/sync/pairing.go:167-185 | switches pairing off and keeps the handler |
| Pairing.PairingManager.ClaimRequest | internal/sync/pairing.go:255-261 | the in-progress check-and-set |
| Pairing.PairingManager.ReleaseRequest | internal/sync/pairing.go:263-268 | the deferred reset |
| Pairing.PairingManager.AddPairedDevice | internal/sync/pairing.go:374-376 | adds or replaces a listed device |
| Pairing.PairingManager.RemovePairedDevice | internal/sync/pairing.go:421-438 | removes a listed device, refuses others |
| Pairing.PairingManager.UpdatePairedDevice | internal/sync/pairing.go:441-457 | updates a listed device, refuses others |
| Pairing.GenerateVerificationCode | internal/sync/pairing.go:619-640 | the four-byte loop gives the big-endian number modulo a million, always as six digits |
| Pairing.CodeIsFourBytes | internal/sync/pairing.go:619-640 | the code is the decimal value of the first four digest bytes, big-endian, modulo a million |
| PairingProtocol.PairingAgreement | internal/sync/pairing.go:333-376 | in every interleaving the initiator records a responder only after that one recorded it in the same exchange, having found pairing on; both have one six-digit code |
| PairingConsent.RecordsNeedConsent | internal/sync/pairing.go:499-555 | in every interleaving a peer is recorded, on either side, only in an exchange whose request the responder's handler accepted, and the code is that of the random texts sent and accepted with |
| PairingConsent.ListedOnlyByConsent | internal/sync/pairing.go:499-555 | so a device lists a peer only by such an acceptance |
| PairingConsent.RejectedExchangePairsNoOne | internal/sync/pairing.go:499-523 | from any world, a rejected or failing decision left alone answers a refusal, frees the flag and leaves every device as it was |
| PairingConsent.RequestWhileOffPairsNoOne | internal/sync/pairing.go:462-466 | and so does a request to a device with pairing off |
| PairingOutcomes.OneSidedIff | internal/sync/pairing.go:234-376 | of a finished exchange whose responder paired, the initiator paired too if and only if its request did not fail, and only before any loss of the reply |
| PairingOutcomes.OneSidedForeverIff | internal/sync/pairing.go:549-585 | a pairing that is one-sided at any point of any run stays so in every continuation if and only if its reply is lost or its request has failed |
| PairingOutcomes.OneSidedPairing | internal/sync/pairing.go:549-585 | a run with a lost reply that ends one-sided for good |
| PairingOutcomes.UndisturbedExchangePairs | internal/sync/pairing.go:234-585 | from any world, an accepted exchange left alone makes each side list the other under one code, frees the flag and changes nothing else |
| PairingProtocol.SwitchesAlternate | internal/sync/pairing.go:190-231 | in every interleaving a device is switched on only while off, and off only while on |
| PairingProtocol.PairedSetIsRecorded | internal/sync/pairing.go:373-376 | in every interleaving a device lists exactly the peers recorded and not removed since |
| PairingProtocol.LateUpdatesDoNotMatter | internal/sync/pairing.go:791-793 | every run without its late connect goroutines has the same events and exchanges and lists the same peers |
| PairingProtocol.OneRequestAtATime | internal/sync/pairing.go:254-268 | the flag is up exactly while one request is in flight; a refused call changes nothing |
| PairingHandlers.MissingHandlerIff | internal/sync/pairing.go:462-499 | in every run a request that found pairing on finds no handler if and only if the device was disabled since and not switched on again |
| PairingHandlers.MissingHandlerNeedsDisabling | internal/sync/pairing.go:462-499 | every missing handler has a disabling after its check in the log |
| PairingHandlers.MissingHandlerRuns | internal/sync/pairing.go:462-499 | a run in which disabling makes the handler go missing, and one in which stopping does not |
| DibImage.StrideIsLeast | internal/platform/clipboard_windows.go:469 | the stride is the least multiple of four that holds a row |
| DibImage.PixelInBlock | internal/platform/clipboard_windows.go:494-513 | every byte of a pixel lies inside its row and the block |
| DibImage.PixelsDisjoint | internal/platform/clipboard_windows.go:494-513 | distinct pixels have disjoint bytes |
| DibImage.ConvertDib | internal/platform/clipboard_windows.go:454-518 | the loops produce the vertical flip for positive heights and a blank image otherwise, in bounds |
| DibImage.ConversionShowsThePicture | internal/platform/clipboard_windows.go:487-518 | converting a bottom-up encoding of any picture gives that picture |
| Logger.ExchangeSort | pkg/utils/logger.go:229-235 | the nested loops, in place, are the specification sort |
| Logger.SortIsSortedPermutation | pkg/utils/logger.go:229-235 | which sorts oldest first and permutes |
| Logger.CleanOldLogs | pkg/utils/logger.go:193-240 | keeps min(maxFiles, n) files, removes none newer than a kept one |
| Logger.Logger.Log | pkg/utils/logger.go:285-304 | counts a message and rotates at the limit |
| Logger.RunStaysBelow | pkg/utils/logger.go:285-304 | over every run with successful rotations it stays below |
| Logger.CounterIsSumSinceRotation | pkg/utils/logger.go:285-304 | in every run the counter is the sum of length plus one over the messages written since the last rotation, and a rotation that can succeed happens exactly when that reaches the limit |

## Left out

- Display servers, external commands, Windows messages, libp2p, discovery, daemonisation: foreign code. Their answers are parameters of the methods and steps.
- JSON, gzip, base64 and HMAC-SHA256: parameters with the few facts used (`ClipboardTypes.Faithful`, `Pairing.FullLength`).
- Content-type detection and the accessible-files filter: uninterpreted functions of the data, the same throughout a run.
- CLI, previews, time-ago text, configuration: user interface and single-branch facts.
- Bolt transactions: updates commit; a failed update would leave the counter raised. `DeleteContents` on entries that are not stored is not part of the size runs.
- 64-bit overflow of sizes and durations, far beyond what the daemon handles. The change hash and the verification code do wrap at 32 bits.
- TimeKey.Format: zones are whole minutes and years 0 to 9999, which is all that JSON encoding of times accepts.
- TimeKey.Parse: accepts what printing produces; Go also takes commas and more than nine fraction digits, which no stored key has.
- MonitorModel.RestartsAreInvisible: contents are values. The daemon normalises contents in place while the platform cache may hold the same pointer. Saving succeeds and nothing arrives compressed, as the platform readers ensure. Times are compared as wall-clock instants. In the running daemon `Created.Sub` prefers Go's monotonic reading, which JSON drops, so after a step of the wall clock a restarted monitor can judge the five-second window differently from one that never stopped.
- ClipboardHistory.ClipboardHistory.Add: the time stamped on each item is not part of the model.
- Monitor.Monitor.HandleContent: publishing to other devices is not part of the model.
- ClipboardCache.LinuxClipboard.Read: results are values, so a caller that mutates one is not covered; what `Polling.Poller.OnTick` gets from the clipboard is a parameter there, and composed with the cache in `ClipboardWatch`.
- FileLists.ParseUriData: gives the list; whether it is delivered as one path or as a JSON array, and the file-existence checks of the writers, are not part of the model.
- Polling.Poller.OnTick: sending to a full channel and the stop signal are not part of the model.
- PairingProtocol.PairingAgreement: streams are authenticated and deliver unchanged what they deliver. Timers appear as switch-offs at any time; no duration is claimed.
- PairingHandlers.MissingHandlerIff: the call of the missing handler is a nil call, which panics; with no recover the process ends, and its paired devices with it. The model records that the exchange met no handler and lets the rest of the world go on.
- ClipboardWatch.NewContentArrives: no one but the polling goroutine reads or writes meanwhile, and caching is not toggled.
- DibImage.ConvertDib: the header and PNG encoding are not part of the model.
- Logger.Logger.Log: follows the counter; the real file also holds timestamps and rotation notices that are not counted.
- Unimplemented parts of the daemon: `SendContent`, pagination, on-disk persistence of paired devices.
