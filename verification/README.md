# Lattice SDK in Dafny

A model of the stateful and algorithmic parts of the Lattice plugin and agent SDK, with the properties each part is there to keep.

- **Beacon responder** (`Bytes`, `NonceSpec`, `NonceCache`, `Frames`, `ResponderSpec`, `Responder`, `ResponderRuns`, `ResponderRate`, `ResponderVerdicts`). A UDP responder that authenticates 96-byte requests, drops replays with an open-addressed nonce cache for each source, limits the rate and answers with 64-byte replies. The arrays, the table and the per-source state are objects that change in place; `ResponderRuns` and `ResponderRate` reason about whole runs of table refreshes and datagrams, `ResponderVerdicts` says what each verdict means.
- **Strict JSON** (`JsonStrings`, `Unquote`, `JsonGrammar`, `JsonReads`, `JsonParse`, `JsonSound`, `JsonComplete`, `JsonScans`, `JsonScanner`, `StrictJson`, `CanonicalJson`, `JsonRewrite`). A one-pass scanner with duplicate-key detection, held against derivation trees of RFC 8259, and the string decoder, held against a meaning in three phases (characters, code points, UTF-8); `CanonicalJson` says which values encoding/json writes back as they are, `JsonRewrite` that what it writes means the same.
- **stdio-json-v2 lifecycle** (`Decimal`, `V2Session`, `V2Language`, `HostLifecycle`, `HostSafety`, `HostWire`, `HostRuns`, `HostProgress`, `HostDelivery`). The serve loop, any number of host calls and any number of diagnostic writes as one interleaving of steps over leases, an exchange token, a write lock and one output.
- **Block-dispensed loop** (`Parallel`). The workers of `eachIndex`, step by step, against the plain loop.
- **Plan placeholders** (`Placeholders`, `PlaceholderCount`). Hand-written matchers against the regular expressions they stand in for, and a one-pass count against the number of occurrences.
- **Catalogue pages** (`CataloguePage`). Page bounds read from received sizes against bounds measured by encoding.
- **Cron gaps, status sets, spliced requests** (`Text`, `Sorting`, `Insertion`, `Cron`, `StatusSets`, `Splice`). `Options` is shared.

`dafny verify dfyconfig.toml` checks everything.

Conventions. Bytes are integers from 0 to 255 in the beacon and JSON modules and in `Splice`; text is a sequence of characters elsewhere, one for each byte in `Placeholders` and one for each code point in `Text`, `Cron` and `StatusSets`. Machine integers that can wrap are written with `Wrap64`. The MAC, the seeded hash and the float range predicate are function parameters, so every result holds for all of them.

Assumptions of the runs. Clock readings and the start time are not negative (a slot whose expiry is zero counts as empty) and leave room below 2^63 for two freshness windows. Where a result needs it, the clock does not go back and the source stays in every accepted table; a source dropped and listed again starts afresh, as the code intends. Zero is the limiters' sentinel: `SecondNamedIff` gives the exact effect on the spacing of non-ok replies, and `TwoNamedAtZero` a run that shows it.

Where the code does less than a plain reading of its promise, the exact condition is stated: the spacing of non-ok replies fails only after one sent at clock zero (`SecondNamedIff`, with the run `TwoNamedAtZero`), credit does not come back after a charge at clock zero (`RefillUnlessZero`), and a canonical status set read back from its own text is itself exactly when it has one to sixteen ranges (`StatusSets.RoundTrip`).

## Model

| member | source | states |
|---|---|---|
| `NonceSpec.InsertRefusedIffFull` | beacon/responder.go:399-440 | An insert is refused exactly when 2400 unexpired nonces are held at that time; the "full until" shortcut never changes the answer |
| `NonceSpec.InsertKeepsWf` | beacon/responder.go:399-474 | Any insert at a non-negative time keeps: at most 2400 held, at most 6/10 of the slots used, every expiry positive, and while "full until" is set exactly 2400 held with no expiry before it |
| `NonceSpec.RunBounds` | beacon/responder.go:399-474 | The same after any sequence of operations at any non-negative times, in any order |
| `NonceSpec.LiveAfterInsert` | beacon/responder.go:399-474 | What is unexpired after an insert is what was, plus the new nonce unless refused: no growth, shrink or compaction loses one |
| `NonceSpec.StepAgrees` | beacon/responder.go:399-474 | One operation keeps the unexpired nonces of the cache and of a plain map that forgets nothing the same |
| `NonceSpec.CacheRefinesMap` | beacon/responder.go:381-474 | After any operations at nondecreasing times, a lookup at any later time answers as the plain map does |
| `NonceSpec.GrownFits` | beacon/responder.go:442-445 | The size a compaction picks is a power of two from 256 to 4096 with room for one more insert |
| `NonceSpec.GrownIsLeast` | beacon/responder.go:442-445 | No smaller of the five sizes would do |
| `NonceTables.ProbeStep` | beacon/responder.go:385-395 | On a table with a free slot a probe that has not ended moves closer to a bound fixed in advance, whatever the hash |
| `NonceTables.ProbeEnd` | beacon/responder.go:385-395 | Where a probe ends decides membership: the slot holds the nonce, or it is empty and the nonce is nowhere in the table |
| `NonceTables.Place` | beacon/responder.go:409-416 | Filling the empty slot a probe ends at keeps every nonce reachable from its home and stored once |
| `NonceTables.LiveScan` | beacon/responder.go:428-436 | The compaction scan counts exactly the unexpired nonces |
| `NonceTables.EarliestScan` | beacon/responder.go:428-436 | The compaction scan finds the least unexpired expiry |
| `NonceTables.KeptLivePart` | beacon/responder.go:448-456 | The copy taken for an in-place compaction holds every unexpired nonce once |
| `NonceTables.RefillEnd` | beacon/responder.go:460-472 | Reinserting the kept slots gives exactly the unexpired part of the old table |
| `NonceCaches.NonceCache.Probe` | beacon/responder.go:385-395 | The probe loop ends, at the nonce's slot or the first empty one |
| `NonceCaches.NonceCache.Seen` | beacon/responder.go:381-395 | The array lookup answers as the map does |
| `NonceCaches.NonceCache.Insert` | beacon/responder.go:399-421 | The array insert gives the map insert's new state and answer |
| `NonceCaches.NonceCache.Compact` | beacon/responder.go:425-474 | Compaction, in place or into a new array, keeps exactly the unexpired nonces, or marks until when the cache is full |
| `Frames.RequestRoundTrip` | beacon/beacon.go:222-273 | An encoded request parses to itself and its tag verifies |
| `Frames.RequestReencode` | beacon/beacon.go:222-291 | A request that verifies re-encodes to the same bytes |
| `Frames.ReplyRoundTrip` | beacon/beacon.go:303-377 | An encoded reply parses, under the same key, to itself |
| `Frames.ReplyReencode` | beacon/beacon.go:319-377 | A reply that parses re-encodes to the same bytes |
| `Frames.EncodeRequest` | beacon/beacon.go:222-243 | Writes the signed request over the first 96 bytes and nothing else, or reports which check failed and writes nothing |
| `Frames.EncodeReply` | beacon/beacon.go:303-314 | Writes a signed reply that parses back over the first 64 bytes and nothing else, or reports which check failed and writes nothing |
| `Frames.RequestLayout` | beacon/beacon.go:222-243 | A request byte by byte: each field at its offset, zero padding, and the truncated MAC of the domain and the body |
| `Frames.ReplyLayout` | beacon/beacon.go:367-377 | A reply byte by byte |
| `Frames.RequestErrors` | beacon/beacon.go:249-291 | A request is refused for its length, magic, version or padding, the first that is wrong |
| `Frames.ReplyErrors` | beacon/beacon.go:319-350 | A reply is refused for its length, magic, version, padding, tag or status, the first that is wrong |
| `Frames.WriteReply` | beacon/beacon.go:367-377 | Fills the first 64 bytes with the signed reply and leaves the rest |
| `Frames.JoinedInjective` | beacon/beacon.go:203-208 | Different lists of length-prefixed inputs never give the same bytes |
| `Frames.DerivationInputInjective` | beacon/beacon.go:190-208 | Each source and epoch derives its path key from an input of its own |
| `Frames.DerivationLayout` | beacon/beacon.go:190-208 | The derivation input byte by byte: the label, the source and the epoch, each after its length |
| `ResponderSpec.Authenticate` | beacon/responder.go:247-276 | Only a datagram of the right length, framing, listed source, its own listed epoch and verifying tag gets past the drops, none of which replies |
| `ResponderSpec.MatchedIff` | beacon/responder.go:247-276 | A datagram is matched with an epoch exactly when there is room for a reply and the epoch is listed for its source, carries its number and verifies its tag |
| `ResponderSpec.BuildKeepsState` | beacon/responder.go:159-204 | An accepted table lists exactly the sources named, with one or two epochs each, and a source that stays keeps its state |
| `ResponderSpec.BuildIff` | beacon/responder.go:159-204 | A table is accepted exactly when no id or epoch is zero, no source lists an epoch twice and none lists more than two; each source then has its epochs in order |
| `ResponderSpec.BuildDistinct` | beacon/responder.go:178-182 | No source of a table that is built holds an epoch twice |
| `Responders.SourceState.Name` | beacon/responder.go:310-324 | The non-ok reply limiter on the shared state acts as specified |
| `Responders.SourceState.Allow` | beacon/responder.go:327-339 | The credit limiter on the shared state acts as specified, in wrapping 64-bit arithmetic |
| `Responders.SourceState.Decide` | beacon/responder.go:277-308 | Retirement, freshness, replay, room and rate in that order, on the state object and its cache |
| `Responders.Responder.Find` | beacon/responder.go:219-236 | Binary search finds a source exactly when it is listed |
| `Responders.Responder.SetTable` | beacon/responder.go:159-204 | All entries or none; state objects of sources that stay are shared with the new table and no other source's state is touched |
| `Responders.Responder.Handle` | beacon/responder.go:247-324 | The new state and verdict are those specified; a drop leaves `out` unchanged; a reply parses under the matched key to the request's seq and nonce, the verdict's status and the clock, also when `out` is `pkt` |
| `ResponderRuns.FreshIsExact` | beacon/responder.go:285-302 | For every 64-bit sent stamp, wrapping subtraction decides freshness as exact arithmetic does, and a fresh request's expiry does not overflow |
| `ResponderRuns.ReachedOk` | beacon/responder.go:159-339 | Every run from a new responder keeps each source's cache bounds, its credit between zero and one second, and its stamps non-negative |
| `ResponderRuns.ReachedDistinct` | beacon/responder.go:159-204 | In every run the tables in force list no epoch of a source twice |
| `ResponderRuns.TakenNeverOkAgain` | beacon/responder.go:159-308 | A request the cache took, even one then refused for rate, is never answered ok later, through refreshes, refused tables, epoch rotation and compactions |
| `ResponderRuns.NeverOkTwice` | beacon/responder.go:159-308 | In every run no request (source, nonce, sent stamp) draws ReplyOK twice |
| `ResponderRuns.RateBound` | beacon/responder.go:327-339 | In any stretch of a run, ok replies to a source times 50 ms are at most one second plus the elapsed time; refreshes do not loosen it |
| `ResponderRate.OkExactlyWithinRate` | beacon/responder.go:303-339 | At positive clocks, a request the cache took is answered ok exactly when one more ok reply keeps the rate on every stretch since its source was listed: credit comes back in full, and no source with room is refused |
| `ResponderRate.RefillUnlessZero` | beacon/responder.go:327-339 | After a charge at t, a request at u is let through exactly when the credit left and the time since, one second at most, cover it; after a charge at clock zero, exactly when the credit left does |
| `ResponderRate.NamedExactlySpaced` | beacon/responder.go:310-324 | At positive clocks, a non-ok reply that is due goes out exactly when none went out within the second before it |
| `ResponderVerdicts.StatusCodes` | beacon/beacon.go:88-102 | The status byte of each reply |
| `ResponderVerdicts.DecideVerdict` | beacon/responder.go:279-308 | Each verdict on an authenticated request has its own cause: retired epoch, stale stamp, remembered nonce, full cache, budget |
| `ResponderVerdicts.DropVerdict` | beacon/responder.go:247-276 | Each drop before any state is looked at has its own cause, in literal bytes |
| `ResponderVerdicts.LastAuthMoves` | beacon/responder.go:206-210 | "Last authenticated" moves exactly for a request of a current epoch that is fresh and not remembered |
| `ResponderRuns.NamedSpacing` | beacon/responder.go:310-324 | Any two non-ok replies to a source are at least one second apart, unless the first was at clock zero |
| `ResponderRuns.SecondNamedIff` | beacon/responder.go:310-314 | After a non-ok reply at t, one at u is let through exactly when a second has passed or t was zero |
| `ResponderRuns.TwoNamedAtZero` | beacon/responder.go:310-314 | A run with two non-ok replies at clock zero, for every MAC, key and nonce |
| `JsonStrings.DecodeIsUtf8` | strictjson/unquote.go:18-103 | Whatever bytes a literal holds, its meaning is valid UTF-8 |
| `JsonStrings.DecodeSurrogate` | strictjson/unquote.go:62-76 | A surrogate escape joins with a following low half and is U+FFFD otherwise |
| `JsonStrings.HalvesJoin` | strictjson/unquote.go:68-72 | The two halves of a code point (section 2.1 of RFC 2781) join to it, and no other two do |
| `JsonStrings.ShortEscapes` | strictjson/unquote.go:43-61 | The eight short escapes and their values |
| `JsonStrings.SequenceReencodes` | strictjson/unquote.go:92-99 | A well-formed UTF-8 sequence is its code point's encoding, so copying it is decoding it |
| `Unquote.Hex4` | strictjson/unquote.go:121-140 | The code unit of the escape the bytes start with, or -1 when they start with none |
| `Unquote.String` | strictjson/unquote.go:18-103 | Succeeds exactly on string literals, gives their declarative meaning on the fast and the slow path, always valid UTF-8 |
| `JsonSound.ValueSound` | strictjson/strictjson.go:200-461 | What the descent accepts is the text of an admissible derivation |
| `JsonComplete.ValueComplete` | strictjson/strictjson.go:200-461 | Every admissible derivation's text is accepted, and read back as that derivation |
| `JsonScanner.Scanner.Value` | strictjson/strictjson.go:200-222 | The mutually recursive scanner, on its position, depth, flag and pooled slots, consumes what the descent does |
| `JsonScanner.Scanner.ScanNumber` | strictjson/strictjson.go:237-274 | Numbers as in section 6 of RFC 8259 that float64 holds, with the shortcut for short ones |
| `JsonScanner.Scanner.ScanString` | strictjson/strictjson.go:287-329 | Consumes exactly one string literal and says whether its bytes are their own decoding |
| `JsonScanner.Scanner.NoteKey` | strictjson/strictjson.go:399-427 | Finds a repeated decoded key exactly when there is one, before and after the switch to a map at 64 keys |
| `StrictJson.Valid` | strictjson/strictjson.go:39-48 | True exactly for the admissible JSON texts: derivable, at most 512 deep, numbers in range, no object repeating a decoded key |
| `StrictJson.Fields` | strictjson/strictjson.go:62-78 | Succeeds exactly on admissible object texts, with the members of the derivation |
| `StrictJson.Elements` | strictjson/strictjson.go:80-98 | Succeeds exactly on admissible array texts, with the elements of the derivation |
| `StrictJson.Compact` | strictjson/strictjson.go:104-109 | True exactly for admissible texts with no white space outside strings |
| `StrictJson.FieldsMeaning` | strictjson/strictjson.go:62-78 | Fields are in document order, disjoint, each exactly one member's value and valid on its own, with its decoded key |
| `StrictJson.ElementsMeaning` | strictjson/strictjson.go:80-98 | Elements are in document order, disjoint, each exactly one element and valid on its own |
| `StrictJson.DerivationUnique` | strictjson/strictjson.go:39-48 | A text has at most one admissible derivation |
| `StrictJson.LiteralIsScanned` | strictjson/unquote.go:18-103 | The decoder takes exactly the literals the scanner consumes whole |
| `CanonicalJson.EscapedOnlyInStrings` | strictjson/strictjson.go:110-118 | In a JSON text '<', '>', '&', U+2028 and U+2029 occur only inside strings, so they occur in the text exactly when they occur in one of its strings |
| `CanonicalJson.WrittenAsItIs` | strictjson/strictjson.go:110-118 | encoding/json (white space dropped, those characters escaped) writes a value back as it is exactly when it is compact and free of them |
| `CanonicalJson.CanonicalRaw` | strictjson/strictjson.go:115-118 | True exactly for the JSON texts encoding/json writes back as they are |
| `CanonicalJson.CanonicalWrites` | strictjson/strictjson.go:113-114 | What encoding/json writes for a canonical value is the value |
| `JsonRewrite.EscapeDecodes` | strictjson/strictjson.go:110-118 | A string with the five characters written as escapes decodes to what it did |
| `JsonRewrite.WrittenMeansTheSame` | strictjson/strictjson.go:110-118 | What encoding/json writes for a JSON text is a JSON text of the same meaning, and canonical |
| `Decimal.ValidInvocationIdIff` | plugin/host.go:167-170 | An invocation id is exactly a canonical positive int64, so one number has one id |
| `Decimal.ValidHostCallIdIff` | plugin/host.go:172-178 | A host call id is exactly "h" and the decimal form of a positive uint64 |
| `Decimal.CallIdInjective` | plugin/host.go:267-268 | Different counters are written as different ids |
| `V2Sessions.V2Session.Accept` | plugin/runtime.go:199-236 | Accepts exactly the next lifecycle frame of its generation and invocation; a refused frame leaves the session as it was |
| `V2Language.LanguageIff` | plugin/runtime.go:199-236 | A session accepts a word exactly when it is a prefix of whole rounds: invoke, any number of stderr_chunk, invoke_result, stderr_complete, invoke_ready of one valid invocation |
| `HostSafety.CountedKept` | plugin/host.go:238-249 | Every step of every goroutine keeps each lease's counter equal to the number of operations inside it |
| `HostSafety.ExclusiveKept` | plugin/host.go:256-285 | Every step keeps one holder of the exchange token at most, and the write lock with the call that is writing |
| `HostSafety.NumbersKept` | plugin/host.go:262-395 | Every step keeps ids fresh, distinct, increasing on the wire and below 2^64, and results with the call whose ids they carry |
| `HostRuns.CurrentKept` | plugin/runtime.go:305-311 | Every step keeps every lease closed except those of the invocation being served, each until its Expire returns |
| `HostRuns.WireKept` | plugin/runtime.go:283-341 | Every step keeps the log in step with the serve loop, read by an automaton that knows nothing of leases |
| `HostWire.GoodBracketed` | plugin/runtime.go:283-341 | What that automaton accepts has every frame inside its invocation's bracket |
| `HostWire.GoodAccepted` | plugin/runtime.go:199-236 | What that automaton accepts projects to a word the session accepts |
| `HostRuns.FramesBracketed` | plugin/runtime.go:283-341 | Under every interleaving each host_call and stderr_chunk of an invocation lies after its invoke and before its invoke_result, none after its Expire returned, and no invocation is served twice |
| `HostRuns.SessionAccepts` | plugin/runtime.go:241-341 | Under every interleaving the lifecycle frames form a word V2Session accepts |
| `HostRuns.IdsIncrease` | plugin/host.go:262-268 | Under every interleaving host call ids on the wire strictly increase and never wrap |
| `HostRuns.OneExchange` | plugin/host.go:256-312 | At most one call holds the token, so at most one is between its frame and the end of its exchange, aborted ones included |
| `HostRuns.OwnResponses` | plugin/host.go:376-395 | A call returns only a response with its own id, generation and invocation, after writing its own frame; two calls never return the same response |
| `HostRuns.LeaveNeverBlocks` | plugin/host.go:247-249 | A counter is never zero when an operation under it ends |
| `HostProgress.NoDeadlock` | plugin/host.go:238-312 | While an invocation is served, someone can take an ordinary step: neither a failure nor a cancellation nor new work, given that the host answers |
| `HostProgress.LeftFalls` | plugin/host.go:227-312 | Every ordinary step of any goroutine uses up some of a finite stock |
| `HostProgress.EverythingReturns` | plugin/runtime.go:301-341 | From every reached state ordinary steps come to an end in any order, and where none is left the loop is between invocations or stopped, every call and write has returned and so has every Expire |
| `HostDelivery.ResultIffOwnLine` | plugin/host.go:316-395 | In every run a finished call received one line at most, and returns it exactly when protocol, kind, generation, invocation and both ids are its own and it says ok |
| `HostDelivery.LineIsDelivered` | plugin/host.go:303-395 | A waiting call that reads such a line keeps it as its result under any interleaving, and has returned it where no ordinary step is left |
| `HostDelivery.CallGetsThrough` | plugin/host.go:227-395 | With its lease open, the transport sound, token and lock free and an id left, a call that runs alone gets the line that answers it |
| `HostDelivery.ChunkGetsThrough` | plugin/runtime.go:153-176 | With its lease open and the lock free, a diagnostic write that runs alone puts its frame on the wire |
| `HostDelivery.InvocationGetsThrough` | plugin/runtime.go:283-341 | A new valid invocation, fewer than 256 behind it, is served to the end: its frames and both Expires, in this order |
| `HostDelivery.AtMost256` | plugin/runtime.go:294-296 | No run serves more than 256 invocations |
| `HostDelivery.RevokedIsSilent` | plugin/host.go:269-272 | Once a lease is revoked no host call of it is written any more, but for the one that had passed its last check |
| `HostDelivery.AbortsTakeEffect` | plugin/host.go:191-204 | A call that gave up on its line has revoked its lease, and poisoned the transport once past aborting; any other abort likewise |
| `HostDelivery.AbortedAdmitsNone` | plugin/host.go:243-246 | Once the transport is aborted no call that had not been admitted ever is |
| `HostDelivery.AbortedNeverAnswers` | plugin/runtime.go:312-314 | Once the transport is aborted the invocation being served is never answered |
| `Parallel.Sequential` | model/parallel.go:20-26 | The sequential path leaves the slots and the panic of the plain loop |
| `Parallel.StartsOnce` | model/parallel.go:27-48 | Under every interleaving no index starts twice, and the counter stays within a block for each worker of n, also when a panic's store lowers it |
| `Parallel.EachIndexIsLoop` | model/parallel.go:19-60 | However it is scheduled, eachIndex panics exactly when the plain loop does, with the value of a call that panicked; otherwise every slot is what the plain loop leaves |
| `Parallel.EveryOrderEnds` | model/parallel.go:30-55 | No interleaving goes on for ever or gets stuck before every worker has left |
| `Parallel.StopsTaking` | model/parallel.go:31-36 | Once a worker that panicked has stored its mark, only indexes of blocks already held are still started |
| `Placeholders.IsUuidV4` | model/subscription_source_manifest.go:108-136 | Accepts exactly the full matches of the UUIDv4 expression |
| `Placeholders.FieldMatch` | model/selection_plan.go:79-83 | The field expression, position by position |
| `Placeholders.BodyParts` | model/selection_plan.go:85-86 | A full match of the body expression has one set of groups, found by position |
| `Placeholders.SplitBody` | model/selection_plan.go:274-299 | Accepts exactly the full matches of the body expression, with the same parts |
| `Placeholders.ParsePlaceholder` | model/selection_plan.go:257-267 | Accepts exactly a prefix and a full match, and returns its line and field |
| `Placeholders.NewPlaceholder` | model/selection_plan.go:240-252 | Builds a placeholder exactly for a UUIDv4 line and a well-named field |
| `Placeholders.BuiltParses` | model/selection_plan.go:240-267 | What is built is a placeholder with the parts it was built from |
| `Placeholders.EncodeDigits` | model/selection_plan.go:251-251 | The random part is two hex digits a byte, the high half first |
| `Placeholders.ParsedIsBuilt` | model/selection_plan.go:240-267 | Every placeholder that parses could have been built, from its parts and sixteen bytes |
| `PlaceholderCount.FoundMatches` | model/selection_plan.go:314-315 | A match found at the start of a text is a full match of the body expression |
| `PlaceholderCount.MatchIsFound` | model/selection_plan.go:314-315 | No two prefixes of a text match, so the one that does is found |
| `PlaceholderCount.CountPlaceholders` | model/selection_plan.go:306-322 | For every document and every placeholder, the count is the number of positions where it occurs, and nothing else is counted |
| `CataloguePage.Validate` | model/line_catalogue.go:992-1059 | The exact verdict: first failing check, row, repeated line or size, with its figures |
| `CataloguePage.ExactVerdictMeans` | model/line_catalogue.go:1018-1059 | The exact verdict is acceptance when every check passes, and otherwise the report of the first that fails, in the order of the code |
| `CataloguePage.ExactAcceptedIff` | model/line_catalogue.go:992-1059 | Accepted exactly when the head is good, there are at most 1000 rows, each with good fields and at most 64 KiB, no line twice, and envelope, rows and commas within the page bound |
| `CataloguePage.ValidateReceived` | model/line_catalogue.go:1229-1264 | The verdict on received sizes, encoding the unmeasured rows only when the growth bound crosses the page bound |
| `CataloguePage.ReadRows` | model/line_catalogue.go:1186-1207 | The reader leaves a row unmeasured exactly when its bytes are plain and fit the row bound with all their growth, so its encoding is known to fit |
| `CataloguePage.ReceivedIffExact` | model/line_catalogue.go:1018-1059 | A sized page is accepted exactly when the exact Validate accepts it and no row nor the page exceeds its bound as received |
| `CataloguePage.SelfEncodedSame` | model/line_catalogue.go:1215-1264 | On a page that arrives as it encodes the verdict is Validate's own, with the same figures |
| `Text.FieldsIff` | plugin/task_schedule.go:121-124 | Splitting on white space finds the one way to read a text as words in order |
| `Text.SplitIff` | plugin/task_schedule.go:151-151 | Splitting on a comma finds the one way to write a text as parts without it |
| `Cron.ItemMeaning` | plugin/task_schedule.go:151-184 | An item parses to a span exactly when it is "*", a number, a range, or "*" or a range with a step, in bounds |
| `Cron.ParseField` | plugin/task_schedule.go:149-195 | Succeeds exactly when every item is well written, with the distinct selected values in order |
| `Cron.MinInterval` | plugin/task_schedule.go:117-146 | Read as its five words in order, the expression's runs on the unbounded minute timeline are at least the result apart for every choice of days, and some two are exactly that far apart when all days run |
| `Cron.ValidateSchedule` | plugin/task_schedule.go:83-89 | Accepts exactly the expressions whose runs are never within five minutes when every day runs; then they are not on any choice of days |
| `StatusSets.EntryMeaning` | model/monitor_checks.go:132-149 | An entry parses to a range exactly when it is one or two three-digit codes from 100 to 599 in order, with white space around each |
| `StatusSets.Parse` | model/monitor_checks.go:122-161 | Succeeds exactly on one to sixteen well-written entries, with sorted ranges at least one code apart that hold exactly the written codes |
| `StatusSets.Merge` | model/monitor_checks.go:151-160 | Merging ranges in order of their low ends, however ties fall, gives a canonical set of the same codes |
| `StatusSets.CanonicalUnique` | model/monitor_checks.go:116-117 | A set of codes has one canonical form |
| `StatusSets.SameCodesSameSet` | model/monitor_checks.go:122-161 | Two lists parse to the same set exactly when they denote the same codes |
| `StatusSets.Contains` | model/monitor_checks.go:176-183 | True exactly for the codes of the set |
| `StatusSets.String` | model/monitor_checks.go:186-196 | The ranges in order, joined by commas, a single code written once |
| `StatusSets.PieceShortest` | model/monitor_checks.go:186-196 | No entry for a range is shorter than the one String writes |
| `StatusSets.EmptyIsDefault` | model/monitor_checks.go:123-126 | A blank list is 200 to 399 |
| `StatusSets.RoundTrip` | model/monitor_checks.go:122-196 | Parsing what String writes of a canonical set returns the set, exactly when it has one to sixteen ranges |
| `Splice.OnePlace` | model/subscription_methods.go:394-397 | A count of one leaves one position where the slot occurs: it cannot overlap itself |
| `Splice.Encode` | model/subscription_methods.go:365-409 | Splices exactly when every one of one to 4096 nodes is a canonical object and the slot occurs once; the bytes are then those of marshalling the whole request, with what encoding/json writes for each node |

## Left out

- HMAC, SHA-256, maphash and random bytes are parameters; nothing is claimed about secrecy or timing.
- The clock domain: negative clocks and clocks within two freshness windows of 2^63 are outside the runs.
- `SetTable` at the same time as `Handle`: a handled datagram uses the table it loaded, so the runs take the two one after the other.
- `SetTable` sorting: sources are inserted in order instead of appended and sorted.
- The nonce is a value of octets; the frames fix its length at sixteen.
- `decodeKey` is taken to be the decoder `String` implements; the library call behind it is not part of this model.
- `strconv.ParseFloat` is a predicate that holds for numbers without exponent and at most fifteen bytes.
- `StringInto` and the pools of scanners: an easy member, and performance; a pooled scanner's leftover key slots are modelled.
- encoding/json on a raw value is taken as dropping white space outside strings and escaping the five characters it names.
- Host frames are lines already decoded: field presence, size limits and encoding/json decoding all lead to the failing outcomes of `Receive` and `ReadFails`.
- A failed write puts nothing on the wire; a partial write is not modelled. The handler does not panic and uses the client it was given, not the runtime's own.
- The scan goroutine of a cancelled call is folded into the call, which waits for it.
- `HostProgress.EverythingReturns`: the host answering and nobody giving up is what makes a step ordinary; a scheduler that runs no goroutine is outside it.
- `eachIndex` calls depend only on the slot they own, as its comment requires; `runtime.Goexit` is not modelled.
- Row fields, catalogue tokens and encodings are given facts of a page; that plain rows grow by at most 256 bytes is assumed of encoding/json, as `rowReencodesWithinGrowth` claims. Rows are read by the plain loop, which `Parallel.EachIndexIsLoop` allows.
- Cron text that is not valid UTF-8, and the ids, names and payload of a schedule.
- `Splice.Encode`: marshalling is taken as a prefix, what is written for each node and a suffix; validation of the rest is left out.
- The regular expression engine is replaced by a search proved to find the one match.
- Wire structs, manifests, URL and address rules, path degradation rules in floating point, and budget clamps: data shapes or branch tables.
