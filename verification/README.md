# Retained runs, the bounded walker and the output envelope, verified

This project models the part of llm-veil that keeps the output of past runs and hands pieces of it
back: the line index over stored text, resumable search and its cursors, the life of a record from
its first temporary file to its last tombstone, the disk quota, the bounded directory walker behind
`grep`, the base64 decoder of the redactor, and the character budget of the output envelope. It
proves properties of that model; it runs nothing.

How the modules fit together:

- `Basics`, `Fnv`, `Utf8`, `Uuids` hold the shared vocabulary: bytes and machine integers, the 64-bit
  FNV-1a checksum, well-formed UTF-8, and the spellings of a UUID.
- `LineIndex` builds, validates and reads the line index; `LineIndexLaws` compares it with a naive
  split after each line feed and says what it detects.
- `Cursor`, `Search`, `SearchLaws` are the cursor text and the page-by-page scan; `MatchLine` is the text
  shown with a match; `Retrieve` is the line retrieval with its context lines; `Envelope` is the bounded
  rendering.
- `Records`, `Quota` are the manifest, the size of its pretty-printed JSON, and the size estimate.
- `Directory`, `Lookup` are the record directory and what a reader sees in it at one instant.
- `Protocol` is the record directory as a state machine in which every filesystem call of every
  process that commits, deletes, expires or looks up a record is one action that may succeed, fail, or be
  cut off by a crash; `ProtocolLaws` proves its invariant over every interleaving, `Lifecycle` says what
  becomes of a run.
- `LookupLaws` is about the answers of lookups whose reads other processes come between, `Fading` about when
  answers may come back, `Leftovers` about hidden directories that nothing reclaims. `Traces` and `Commits`
  are particular runs of the protocol, and `Overrun` is one that exceeds the quota.
- `RunStore` is the store itself, a class whose methods issue those calls one by one. A ghost log ties
  every state of an object to a run of the protocol. Ghost counters (of failed calls and those of them that
  were passed over, time limits reached, entries looked at, records an expiry failed to see, removals that
  failed, and directories given up) let each contract say what holds whatever fails, when exactly a failed
  call fails the operation, and what the exact answer is when nothing does. `StoreLaws` and `Usage` hold what
  these contracts are written in, and `Session` strings whole operations together.
- `Walker` is the bounded walker as a class; `WalkerLaws` compares its verdict with a reference search, and
  `Diagnostics` says what it reports and finds in a tree that is not clean.
- `Base64` is the decoder with an encoder written from section 4 of RFC 4648.

Where the code does less than it seems to promise, the model keeps the code and states exactly how far
the promise holds:

- An expiry takes a failed look at a standing record for its absence and writes a tombstone beside it
  (`Traces.FailedStatLeavesBoth`). Such a failed look is the only way to a record beside its tombstone
  (`Lifecycle.NoTombstoneBesideRecord`, `Lifecycle.MissedExactly`); the record is then past its expiry, the
  tombstone says expired, and no reader is shown active (`Lifecycle.TombstoneBesideRecord`). The counts of a sweep
  and of a purge include such records.
- A lookup reads the tombstone, the directory and the manifest one after the other. Active, expired and
  deleted are always what the store showed at some instant in between (`LookupLaws.AnswersWereShown`). Corrupt
  is answered for an undamaged run exactly when its record is renamed away between two reads, or a read fails
  (`LookupLaws.CorruptExactly`): a reader may be told active, corrupt, deleted in turn
  (`LookupLaws.OvertakenLookupIsCorrupt`). Not found was shown at some instant too, unless an expiry failed to
  see the record, and then it need not have been (`LookupLaws.NotFoundNeverShown`).
- Between the rename that retires a record and the rename that completes its tombstone nothing is to be
  seen, so a reader may get not_found first and deleted later (`Traces.TombstoneMayAppearLate`). The answers
  about a run that is gone only fade if and only if no process is left that can still write a live tombstone
  for it (`Fading.AnswersOnlyFadeExactly`).
- The size estimate dominates the real record size exactly when command_kind and stats fit a room that is
  known in closed form from both texts, the clock and the lifetime (`Quota.EstimateDominatesExactly`): never
  less than the 4096 bytes of the reservation less 650, and more only by what the lines leave unused
  (`Quota.RoomBounds`). After an admitted commit the quota holds if and only if they fit that room and the
  headroom left (`StoreLaws.QuotaKeptExactly`). `stats.command` is not bounded, so at the limits the program
  has, seven commits of two full streams and one with stats of 8192 bytes are all admitted and exceed 1 GiB
  (`Overrun.DefaultLimitsAreOverrun`).
- A directory whose removal was given up, or whose process crashed, is hidden from `usage` and stays for good
  (`Leftovers.StraysStay`); a crash can leave a whole record that way (`Leftovers.CrashLeavesStray`). Without
  failed calls an operation leaves none, and then everything under `records` is within the limits; otherwise
  there is exactly one for each removal given up (`Session.Serve`), with at most the stream limit in either data
  file (`Leftovers.DirectoriesFit`).
- A search whose literal ends in a line feed looks for it again in the trimmed line when it shortens a match
  of more than 16384 characters, does not find it, and cuts as many bytes off the start of the line as the
  literal has; inside a character that stops the program (`MatchLine.LongMatchIsNotShown`,
  `SearchLaws.SearchMayBreak`). `MatchLine.NotShownExactly` says exactly when; a search finds everything if and
  only if it does not happen (`SearchLaws.SearchFindsEverything`), and for literals that do not end in a line
  feed it never does (`SearchLaws.AllShownWithoutBreak`).
- A temporary tombstone torn by a crash or by failing calls (`Traces.CrashMayTearTombstone`) makes
  every later purge of expired data fail; with no failing call that is the only way it can fail, as the
  contract of `RunStore.RunStore.Purge` says.
- A commit whose stats spell the run id in another accepted form, such as in braces, succeeds, and every lookup
  of the run then says corrupt (`Commits.BracedParses`, `Commits.BracedRunIsCorrupt`). The command line always
  passes the canonical form (src/main.rs:373, 413, 473, 561), so only a direct caller of `commit` can get there.
- A cursor may carry its line number with a plus sign or leading zeros (`Cursor.SignedCursorIsAccepted`).
- A base64 group of nothing but padding decodes to one zero byte (`Base64.PaddingAloneDecodes`).
- The count that a purge of everything reports contains the tombstones it has itself just written
  (`RunStore.RunStore.Purge`).

Assumptions: run ids and the random part of hidden names are fresh; the byte limit of a store is below
2^64 - 1 (the program fixes it at 1 GiB); the clock does not go backwards
within one store; the storage directory is private; a rename, and a rename that must not replace, is
one atomic step; a successful read returns the bytes on disk. Redaction, injection detection, path
blocking, the scan timer and every I/O outcome are parameters or left open.

## Model

| member | source | states |
|---|---|---|
| `Fnv.ComputeChecksum` | src/storage.rs:1073-1081 | the loop over bytes computes the 64-bit FNV-1a recurrence with wrapping multiplication |
| `Fnv.MultiplierInverse` | src/storage.rs:1078 | multiplication by the FNV prime modulo 2^64 is undone by a fixed inverse |
| `Fnv.StepInjective` | src/storage.rs:1077-1078 | one step tells apart two states for the same byte and two bytes for the same state |
| `Fnv.OneByteChangesChecksum` | src/storage.rs:1073-1081 | texts of one length that differ in at most one byte have equal checksums only if they are equal |
| `Fnv.PublishedValues` | src/storage.rs:1073-1081 | the checksums of the empty text and of the letter a are the published values of FNV-1a |
| `Utf8.DecodeInvertsEncode` | src/storage.rs:1141-1142 | the acceptor of byte strings inverts the table of RFC 3629 on every text |
| `Utf8.EncodeInvertsDecode` | src/storage.rs:1141-1142 | it accepts nothing but encodings |
| `Utf8.CutExactlyAtBoundaries` | src/storage.rs:1141-1142 | a valid string may be cut at a position if and only if no continuation byte follows, and then both parts are valid and their characters add up |
| `Utf8.CutBetweenLines` | src/storage.rs:1001-1003 | between two cuts right after line feeds or at an end the text is valid |
| `LineIndex.LinesAreExact` | src/storage.rs:999-1016 | the naive split loses nothing and breaks exactly after each line feed |
| `LineIndex.StreamManifest` | src/storage.rs:999-1033 | the one-pass builder yields the index of the stream, or StorageFull past a million entries |
| `LineIndex.StartsAreBreaks` | src/storage.rs:1001-1010 | an offset is in the index if and only if it is 0 or an inner position right after a line feed |
| `LineIndex.BuiltIndexIsValid` | src/storage.rs:1244-1278 | every index the builder yields within the stream limit passes validation |
| `LineIndex.ValidExactly` | src/storage.rs:1244-1278 | an index passes validation if and only if its starts ascend strictly from 0 within the length, there is one line for each and one checksum a line, none for an empty stream, and length and entries are within their bounds |
| `LineIndex.ReadLineSlice` | src/storage.rs:1083-1143 | the loop agrees, for any manifest, with a function that makes out-of-range indexing and subtraction explicit faults |
| `LineIndexLaws.IndexedLinesAreTheLines` | src/storage.rs:999-1033 | the offsets cut the text into exactly the lines of the naive split |
| `LineIndexLaws.IndexedExactly` | src/storage.rs:999-1033 | a text is refused an index if and only if the naive split of it has more than a million lines |
| `LineIndexLaws.ReadSliceMeaning` | src/storage.rs:1096-1142 | for any validated manifest with data of the recorded length a read never faults; it returns the window if and only if every line in it matches its checksum and it is text, else it reports corruption |
| `LineIndexLaws.SlicesAreFaithful` | src/storage.rs:1083-1143 | for every stored text, start and count a read returns the lines start to min(start + count, line count) of the naive split |
| `LineIndexLaws.DamageIsDetected` | src/storage.rs:1124-1140 | with at most one wrong byte a line, a read fails if and only if its range holds a damaged line, else it is unchanged |
| `LineIndexLaws.OneWrongByte` | src/storage.rs:1073-1081 | one wrong byte in a stream damages exactly the line that holds it |
| `LineIndexLaws.ShortDataFails` | src/storage.rs:1119-1123 | over a data file cut short a read ends in UnexpectedEof if and only if it reaches past the end, else it is unchanged |
| `Uuids.ParseUuidText` | src/storage.rs:967-970 | the canonical spelling of a run id parses back to it |
| `Uuids.ParsedExactly` | src/storage.rs:967-970 | a text parses to an id if and only if it is its 32 digits in letters of either case, alone, in five groups, in braces or as a URN |
| `Uuids.PrintedExactly` | src/storage.rs:279-285 | an id is printed as its 32 lower-case digits, with hyphens at places 8, 13, 18 and 23 |
| `Uuids.UuidTextInjective` | src/storage.rs:279-285 | different ids have different record names |
| `Cursor.CursorRoundTrip` | src/storage.rs:1145-1158 | parsing a printed cursor gives its line number for every run, stream and literal, colons included |
| `Cursor.ParsedExactly` | src/storage.rs:1192-1197 | a numeral is accepted for n if and only if it is n in decimal after an optional plus sign and any zeros |
| `Cursor.HashFieldIs` | src/storage.rs:1145-1158 | the fourth field of a cursor is, in sixteen lower-case digits, the checksum of run, stream, literal and line with colons between them |
| `Cursor.AcceptedExactly` | src/storage.rs:1189-1213 | a text is accepted with number n if and only if it is the version, the run, the stream, the sixteen digits of the checksum of run, stream, literal and n, and a numeral of n |
| `Cursor.EditedCursor` | src/storage.rs:1189-1213 | a cursor made for one query and line, with its run, stream and numeral exchanged, is accepted for another query and line if and only if the bytes hashed for both have one checksum |
| `Cursor.CursorIsBound` | src/storage.rs:1189-1213 | a cursor is accepted for another query, then for its own line, if and only if run and stream agree and what is hashed for both literals with that line has one checksum |
| `Cursor.OneByteOffLiteralIsRefused` | src/storage.rs:1155-1158 | a literal with one byte changed never gets the cursor accepted |
| `Cursor.OneDigitOffLineIsRefused` | src/storage.rs:1155-1158 | a cursor whose line number was changed in one digit is refused, however the new number is spelled |
| `Cursor.OneCharacterOffRunIsRefused` | src/storage.rs:1155-1158 | a cursor whose run id was changed in one character is refused for the run it then names |
| `Cursor.SignedCursorIsAccepted` | src/storage.rs:1189-1196 | a cursor that is not as printed is accepted nevertheless |
| `Search.ScanLines` | src/storage.rs:678-728 | the scan loop with its early stops agrees with a function of the reader and the timer |
| `MatchLine.ShownHoldsLiteral` | src/storage.rs:1160-1187 | a line that holds the literal is shown whole, or cut around the first occurrence of it with half of the room on either side, within 16384 characters and always with the literal in it |
| `MatchLine.UnfoundIsShown` | src/storage.rs:1172-1187 | a long line that does not hold the literal is shown from after as many bytes as the literal has, with marker and literal in front, if these bytes are whole characters |
| `MatchLine.LongLiteralIsIgnored` | src/storage.rs:1168-1170 | for a literal that leaves no room beside it a long line is fitted to the limit |
| `MatchLine.MatchIsShown` | src/storage.rs:708-712 | whatever matches is shown, with the literal in it, if the literal does not end in a line feed |
| `MatchLine.NotShownExactly` | src/storage.rs:1172-1181 | nothing can be shown of a match if and only if the trimmed line is too long, no longer holds the literal, and does not break where the bytes of the literal would end; then the literal ends in a line feed |
| `MatchLine.CharsInAreBoundaries` | src/storage.rs:1181 | a slice may begin at a byte if and only if no character continues there |
| `MatchLine.LongMatchIsNotShown` | src/storage.rs:1172-1181 | a long line that ends in x, searched for x and the line feed, cannot be shown |
| `SearchLaws.HitsAreTheMatchingLines` | src/storage.rs:708-713 | the reference scan names exactly the lines of its range that contain the literal, each with the text shown of it |
| `SearchLaws.HitsAscend` | src/storage.rs:708-713 | it names them in ascending order, each once |
| `SearchLaws.ScanIsExact` | src/storage.rs:682-728 | under any timer a scan ends before the first line where it has a reason to: no line is left, its own look at the timer before that line or after the one before finds it used up, or the hundredth match stands; it reports exactly the matching lines it passed and is truncated exactly if lines are left or time was up after its last line; it fails only at the first match that cannot be shown |
| `SearchLaws.PageIsExact` | src/storage.rs:636-739 | so does a page from where its cursor says; it offers a cursor for the line it ends before exactly if it is truncated, and fails exactly if it has no reason to end before the first match that cannot be shown |
| `SearchLaws.PagePastEnd` | src/storage.rs:682-738 | a cursor past the last line yields an empty last page |
| `SearchLaws.PagesJoinUp` | src/storage.rs:730-738 | pages fetched by following cursors hold exactly the matches before the last cursor, and all of them once no cursor is offered; they break only where a match cannot be shown |
| `SearchLaws.FollowingTerminates` | src/storage.rs:682-738 | if each page gets time for one line, a page per line and one more reach the end |
| `SearchLaws.SearchFindsEverything` | src/storage.rs:636-739 | so a followed search returns all matching lines of the stored text if and only if each can be shown, and breaks otherwise |
| `SearchLaws.AllShownWithoutBreak` | src/storage.rs:708-713 | each can be shown for every accepted literal that does not end in a line feed |
| `SearchLaws.SearchMayBreak` | src/storage.rs:708-713 | a stored text and a literal for which every search breaks |
| `SearchLaws.SearchMeetsDamage` | src/storage.rs:687-698 | over a stream with at most one wrong byte a line a page is corrupt if and only if a line before its end is damaged, else it is the page over the undamaged stream |
| `SearchLaws.SearchMeetsShortData` | src/storage.rs:687-700 | over a data file cut short a page ends in UnexpectedEof if and only if a line before its end is not all there, else it is the page over the whole |
| `Retrieve.RetrieveIsFaithful` | src/storage.rs:555-596 | on a stored text both reads succeed and yield the requested lines and these with one neighbour on each side |
| `Retrieve.PresentDelivers` | src/storage.rs:597-634 | what leaves is the envelope of the redaction of three lines that name status, run and stream, a fourth with the larger of both warning counts if it is not 0, and the selected lines; or nothing, if blocking and anything was detected in the context or in that text |
| `Retrieve.PresentIsSafe` | src/storage.rs:597-634 | content leaves only with status active and within the budget; under blocking exactly when nothing was detected in the context nor in the lines with their introduction |
| `Retrieve.RetrieveMeetsDamage` | src/storage.rs:555-596 | with at most one wrong byte a line a retrieve is corrupt without content if and only if its window or a neighbour is damaged, else unchanged |
| `Retrieve.RetrieveMeetsShortData` | src/storage.rs:555-596 | over a data file cut short a retrieve ends in UnexpectedEof if and only if its window or the lines after it are not all there, else it is unchanged |
| `Envelope.FitIsExact` | src/utils.rs:39-61 | fitted text has min(length, budget) characters; it changed if and only if it was too long, and then it is a start, the marker and an end of balanced lengths |
| `Envelope.FitIsIdempotent` | src/utils.rs:39-61 | fitting twice changes nothing more |
| `Envelope.RedactionsAreExact` | src/redactor.rs:150-156 | the count of redactions is the number of places that hold a marker, less those there were before |
| `Envelope.RenderKeepsItsBudget` | src/output.rs:46-82 | a render has at most max_chars characters, is blocked exactly by policy, carries both counts, and is prefix, the redacted text whole or cut once, suffix, or without room for these as much of prefix and suffix as fits; its flag tells whether the text was cut |
| `Base64.DecodeBase64` | src/redactor.rs:159-191 | the nested loops agree with a recursive decoder over groups of four |
| `Base64.DecodeAcceptsExactly` | src/redactor.rs:159-191 | accepted are exactly the inputs of whole groups with padding only at the end of a group, and the output length is three a group less what padding loses |
| `Base64.DecodeInvertsEncode` | src/redactor.rs:179-185 | decoding the standard encoding of any bytes gives them back |
| `Base64.EncodeInvertsDecodeExactly` | src/redactor.rs:159-191 | an accepted input is the encoding of its value if and only if it is canonical: padding at the very end, at most two, unused bits zero |
| `Base64.PaddingAloneDecodes` | src/redactor.rs:168-180 | a group of four padding characters decodes to one zero byte |
| `Quota.EstimateCountsLines` | src/storage.rs:1043-1053 | counting windows of two gives the line count of the index |
| `Quota.IndexFitsEstimate` | src/storage.rs:1048-1053 | both JSON arrays of any index within the stream limit take at most 44 of the 48 bytes reserved for each line |
| `Quota.ManifestBytesAre` | src/storage.rs:346-361 | the manifest a commit writes takes exactly a number of bytes computed from command_kind, stats, both texts, the clock and the lifetime |
| `Quota.EstimateDominatesExactly` | src/storage.rs:1035-1053 | the estimate exceeds the real size by the room it has for command_kind and stats less what they take, so it dominates if and only if they fit |
| `Quota.RoomBounds` | src/storage.rs:1035-1053 | for all texts and times that room is at least 4096 - 650 bytes, and below 4096 - 480 and 30 more a line |
| `StoreLaws.QuotaKeptExactly` | src/storage.rs:306-324 | after an admitted commit the quota holds if and only if command_kind and stats fit the room and the headroom left |
| `Overrun.FillingIsAdmitted` | src/storage.rs:306-324 | at the default limits seven commits of two full streams are admitted one after another, within the quota |
| `Overrun.DefaultLimitsAreOverrun` | src/storage.rs:306-324 | then an eighth with stats of 8192 bytes is admitted, succeeds, and the visible records take more than 1 GiB |
| `ProtocolLaws.StepKeepsInv` | src/storage.rs:335-514 | every filesystem call of any committing, deleting, expiring or reading process, done or failed, every crash and every tick keeps the invariant and what was published |
| `ProtocolLaws.RunKeepsInv` | src/storage.rs:335-514 | hence every interleaving does |
| `Lifecycle.VisibleRecordsAreWhole` | src/storage.rs:335-366 | at every step of every interleaving a record under its run id has both data files and a manifest built from exactly these |
| `Lifecycle.VisibleRecordsNeverChange` | src/storage.rs:1403-1419 | a visible record is never altered, and once gone never returns |
| `Lifecycle.ViewFollowsPhase` | src/storage.rs:430-483 | at every instant of every interleaving the store shows a reader the phase of the run alone |
| `Lifecycle.ActiveIsPublished` | src/storage.rs:430-483 | whatever the store shows as active at some instant stands on disk as it was published |
| `Lifecycle.LastRunIsPublished` | src/storage.rs:366-370 | one action alone changes what last_run names: the write of a commit past its publication, and then it names that run |
| `Lifecycle.LastRunWasPublished` | src/storage.rs:366-370 | in every run last_run names a run that was published, if any |
| `Lookup.CorruptIfUnsound` | src/storage.rs:457-482 | a record reads as corrupt if and only if it is not three complete files of the second schema that agree in lengths and indexes and name the run twice; else it is active until its expiry and expired from then on |
| `Lookup.TombstoneDecides` | src/storage.rs:435-448 | a tombstone decides until its expiry, the record from then on; one that is torn or expires before it was recorded is an error, one of another run corrupt |
| `LookupLaws.AnswersWereShown` | src/storage.rs:430-483 | whatever other processes do between the reads of a lookup, active, expired and deleted were shown at some instant since it began, and so was not found unless an expiry failed to see the record; an active answer is what was published, in its time |
| `LookupLaws.CorruptExactly` | src/storage.rs:450-469 | a lookup that found the directory of a canonically named run answers corrupt if and only if its read fails or a retirement or a compensating rename took the record away before it |
| `LookupLaws.OvertakenLookupIsCorrupt` | src/storage.rs:450-469 | for every live record there is a run in which active is shown, then a lookup without failed calls answers corrupt, then deleted is shown |
| `LookupLaws.NotFoundNeverShown` | src/storage.rs:436-456 | for every record past its expiry there is a run in which a lookup answers not found though something was shown at every instant |
| `Lifecycle.NoTombstoneBesideRecord` | src/storage.rs:485-502 | a record and a tombstone of one run never coexist unless an expiry failed to see the record |
| `Lifecycle.MissedExactly` | src/storage.rs:491 | that is the failed look of an expiry at a standing record, and nothing else |
| `Lifecycle.TombstoneBesideRecord` | src/storage.rs:485-502 | whenever they do coexist, the record is past its expiry, the tombstone says expired, and the run is never shown active |
| `Traces.FailedStatLeavesBoth` | src/storage.rs:485-502 | after one such failed look, whatever record past its expiry it was for, both stand |
| `Lifecycle.PhasesOnlyMoveOn` | src/storage.rs:430-514 | under any interleaving a run moves from unborn to live to past its time to gone and never back, and is not live at its expiry |
| `Lifecycle.LiveRecordsAreNotSwept` | src/storage.rs:838-864 | a live record leaves only by a delete or when its own failed commit takes it back |
| `Fading.AnswersOnlyFadeExactly` | src/storage.rs:741-785 | of a run that is gone the answers only fade, along every continuation and from each of its points, if and only if no process can still write a live tombstone for it |
| `Traces.TombstoneMayAppearLate` | src/storage.rs:755-762 | every live record has a continuation in which nothing is seen first and a deletion later |
| `Traces.CrashMayTearTombstone` | src/storage.rs:1432-1435 | a crash while a tombstone is written leaves a temporary that cannot be parsed |
| `Leftovers.StraysStay` | src/storage.rs:801-806 | a hidden directory whose process has ended stays, unchanged, in every continuation |
| `Leftovers.CrashLeavesStray` | src/storage.rs:335-362 | every commit that could succeed can by a crash leave its whole record hidden for good |
| `Leftovers.DirectoriesFit` | src/storage.rs:296-304 | no directory of any reachable state holds more than the stream limit in either data file |
| `Commits.CommitSucceeds` | src/storage.rs:326-371 | every accepted commit of a fresh id can run to its end from any reachable state, and then its record is there and nothing else has changed |
| `Commits.BracedParses` | src/storage.rs:293-294 | the braced spelling of every run id is accepted for it, though it is not its name |
| `Commits.BracedRunIsCorrupt` | src/storage.rs:466-472 | a commit with that spelling succeeds, and the run reads as corrupt at all times |
| `StoreLaws.SeenNowOrLater` | src/storage.rs:466-482 | a visible record shown now or later is active until its expiry and expired from then on, or corrupt if its stats name the run otherwise; a live tombstone beside it says expired and tells of a missed expiry |
| `StoreLaws.OnlyCursorsAreRefused` | src/storage.rs:667-670 | over stored text a page fails only for its cursor, or where a match cannot be shown, which takes a literal that ends in a line feed |
| `StoreLaws.PageOverText` | src/storage.rs:636-739 | a page over stored text begins at the line its cursor says and ends at the first line with a reason to |
| `StoreLaws.PublishedTextIsSearched` | src/storage.rs:636-739 | a search of a published run, paged to its end, finds exactly the matching lines of the text that was committed, if and only if each can be shown |
| `RunStore.RunStore.Commit` | src/storage.rs:287-390 | Ok: the whole record of this payload, made now and kept for its lifetime, stands beside the old ones except expired ones swept for room, last_run names it and it is active until its expiry. Err: nothing new is visible unless the compensating rename failed too. It fails if and only if a call fails that is not passed over, or it is refused: for a bad id, for size, or for a lack of room that a sweep did not cure, which then left expired records only past its bound, for its time limit or for failed calls. The quota then holds if and only if command_kind and stats fit |
| `RunStore.RunStore.MeasureUsage` | src/storage.rs:396-428 | the exact number and saturated bytes of the visible records in any reading order; it fails only if a call does |
| `RunStore.RunStore.SweepExpired` | src/storage.rs:838-864 | at most so many entries are looked at, and as many as there are if the time suffices; without a time limit reached no more expired records are left than entries past the bound and failed calls; the count is of the expired records there were, less those left, and those it failed to see; each that is gone has a tombstone that says expired; it fails if and only if a call does that is not passed over |
| `RunStore.RunStore.LookupManifest` | src/storage.rs:430-483 | without other processes the answer is what the store showed, or corrupt if a read failed, and it fails if and only if a call does that is not passed over; only an expired record is retired, its tombstone the one of this expiry, and only an expired tombstone removed on the way |
| `RunStore.RunStore.WriteTombstone` | src/storage.rs:504-514 | the complete tombstone replaces the final name in one step, or nothing but a temporary changes |
| `RunStore.RunStore.RetireRecord` | src/storage.rs:485-502 | success: the record and its directory are gone, or were not seen by an expiry, and exactly its tombstone was written; failure: the record is untouched or no longer visible and no tombstone changed, and after a single failed call no temporary one is left; what is left hidden was given up after a failed call |
| `RunStore.RunStore.Delete` | src/storage.rs:741-785 | only the named run is touched, and it fails if and only if the id is bad or a call fails; removed means that nothing of the record is left, hidden or visible, behind a new tombstone that says deleted; already gone, that a live tombstone stood and stands; absent, that there was neither, and an expired tombstone is removed |
| `RunStore.RunStore.Purge` | src/storage.rs:791-832 | of expired data: nothing unexpired is touched, and every record that is gone has its tombstone while it lives; either way no more is left of what was to go than calls failed, so nothing without failing calls; it fails if and only if a call does that is not passed over, or a tombstone cannot be parsed; without failing calls the count is exact, otherwise it is bounded from both sides |
| `RunStore.RunStore.RetrieveLinesAt` | src/storage.rs:520-634 | an active run yields the requested lines of the committed text, judged with their neighbours and in the envelope; any other run yields its status and no content; it fails if and only if its input is bad or a call fails that is not passed over |
| `RunStore.RunStore.SearchAt` | src/storage.rs:636-739 | an active run yields the page over the committed text from where the cursor says to the first line with a reason to end; any other run yields its status; it fails only for a failed call that is not passed over, for its input, or for a literal that ends in a line feed where a match cannot be shown |
| `RunStore.RunStore.LoadStats` | src/storage.rs:881-897 | the stats returned, of a named run or of the one in last_run, are the committed ones of an active run; without failing calls a run that is not active is not found, and a bad id invalid |
| `Usage.BytesSplit` | src/storage.rs:396-428 | all bytes under the record directory are those of the visible records, which are counted, and those of the hidden directories, which are not |
| `Session.Open` | src/storage.rs:246-268 | opening the store sweeps it, within the bound of a sweep, and fails if and only if the sweep does |
| `Session.Serve` | src/storage.rs:246-268 | from an empty store, after any sequence of operations with any failures, the visible records are within both limits and whole, and there is one hidden directory for each removal given up; without failed calls everything under records is within the limits |
| `Walker.GrepState.Record` | src/path_io.rs:376-394 | every failure is accounted for in the bounded list and both flags |
| `Walker.GrepState.ScanLines` | src/path_io.rs:505-522 | the line loop stops at the first line that cannot be read or is not text |
| `Walker.GrepState.ScanDirectoryEntries` | src/path_io.rs:421-468 | loop and recursion end by the depth cap alone and add up to a function of the tally |
| `Walker.Grep` | src/path_io.rs:315-333 | the outcome of a whole walk; only an unreadable root is an error |
| `WalkerLaws.ReferenceIsExact` | src/path_io.rs:421-522 | the reference search finds a match if and only if unblocked names lead to a file with that line under that number, and the content, which is the line less its line feed or its carriage return and line feed, holds the pattern |
| `WalkerLaws.WalkEntriesAdds` | src/path_io.rs:421-468 | at most 10,000 entries are ever seen; matches are a subsequence of the reference; nothing failed if and only if the tree is clean and fits the budget, and then every match is there |
| `WalkerLaws.VerdictIsExact` | src/path_io.rs:364-374 | Complete if and only if the tree is clean and within the budget, and then the matches equal the reference search in order; Partial comes with a sound subsequence and a diagnostic |
| `WalkerLaws.DiagnosticsAreCapped` | src/path_io.rs:376-394 | min(64, failures) diagnostics are kept, the first 63 always, and past 64 failures the last says so with the path of the 65th |
| `Diagnostics.WalkIsExact` | src/path_io.rs:421-522 | within the budget a walk of any tree reports a diagnostic if and only if something it meets is wrong in that way with that path, one for each entry something is wrong with, and finds a match if and only if it is on a line of a file it meets and can read so far |
| `Diagnostics.WalkRunsOut` | src/path_io.rs:421-430 | a walk that would meet more entries than the budget sees exactly 10,000 and reports that a limit was reached |

## Left out

- `Protocol.AdvanceLookup`: takes both looks at the directory as one step and the reads of manifest and data lengths as another; a rename between the two looks makes the source answer with an error where the model answers not found or corrupt.
- `Session.Serve`: does not model concurrent writers, under which two admissions may overlap and exceed the quota; it asks that manifests fit the reservation, because `StoreLaws.QuotaKeptExactly` says when the quota fails otherwise; nor does it count the bytes of tombstones, which `usage` ignores too.
- `Protocol.Settle`: takes the write of last_run as one step; its temporary file in the store root is not modelled.
- `Walker.Grep`: does not model the resolution of the target, glob matching of blocked paths (a predicate on paths here), or a tree that changes while it is walked beyond the failures and the link or type seen at each step.
- `Envelope.RenderExternal`: takes redaction and detection as any functions.
- `Records.ManifestSize`: takes the JSON of stats and of command_kind as given bytes; JSON parsing and printing are otherwise a value on disk, with a torn file as the only malformed one.
- `Protocol.Step`: does not model the writing of a run id that already has a tombstone; ids are fresh.
- `Fnv.BitXor`: exclusive or is defined on the binary digits of integers rather than on machine words.
- Ownership, mode bits, symlink checks on storage files, directory creation, and the choice of the storage root: platform policy.
- Redactor rules, injector rules and path guard patterns: their meaning lies in regular expression libraries.
- Process execution, command-line parsing, configuration, statistics and the legacy truncation functions: they would only add easy members.
