# Proton Drive SDK: verified core

A Dafny model of the parts of the Proton Drive SDK port that hold state, protocol or
arithmetic, with proofs about them. `dafny verify dfyconfig.toml` checks everything.

| part | files |
|---|---|
| Event feed: paging, cursors, restarts | `EventFeed.dfy`, `EventRuns.dfy` |
| File transfer: blocks, links, hashes, manifest | `Chunks.dfy`, `IndexOrder.dfy`, `ByteStreams.dfy`, `ContentTerms.dfy`, `BlockUpload.dfy`, `BlockDownload.dfy`, `TransferRoundTrip.dfy` |
| Modification times: civil dates and their ISO text | `CivilDate.dfy`, `IsoTimestamp.dfy` |
| Keys: the account cascade and the chain of node keys | `PgpTerms.dfy`, `KeyCascade.dfy`, `CascadeOrder.dfy`, `AccountUnlock.dfy`, `NodeKeyChain.dfy` |
| ASCII armor, base64 and CRC-24 | `Base64.dfy`, `Text.dfy`, `AsciiArmor.dfy`, `ShiftRegister.dfy`, `Crc24.dfy`, `Gf2Polynomials.dfy`, `Crc24Polynomial.dfy` |
| The FIFO semaphore with a flexible count | `FifoSemaphore.dfy`, `SemaphoreRuns.dfy` |
| Token refresh and request retries | `HttpRetry.dfy`, `SessionProtocol.dfy`, `SessionLosses.dfy`, `SessionRefresh.dfy`, `SessionRuns.dfy`, `SessionAwareClient.dfy` |
| Two buffers of the C# SDK | `PartialCopy.dfy`, `BatchLoader.dfy` |
| Shared types | `Results.dfy`, `Bytes.dfy` |

Loops of the program are methods with loops, objects are classes, and each method is tied
to a function; the theorems are about those functions and about runs of step machines.

Cryptography is symbolic. A ciphertext is its bytes on the wire together with what they
hold; a digest names the ciphertext it was taken of, so equal digests mean equal
ciphertexts; a signature names its signer and payload. The manifest payload, digests of 32
bytes one after the other, is a sequence of digests, or of other bytes where a reply gave
other bytes. The server, the network, the disk and the operating system are parameters, or
steps of a run, any of which may fail; a stream, a store or a writer counts its failures and
`Surroundings` logs all others, so that a method fails exactly when something outside did.

What the models take for granted about the outside: event ids are positions in the
volume's log, a cursor below the expiry horizon is answered with a refresh to the log's
end, and any other with a stretch of the log or, if the server likes, a refresh too; the
refresh endpoint takes only the current token; a stream returns no bytes only at its end; a
buffer that must grow does grow; the semaphore counts without 32-bit overflow, and a new call gets
a task of its own.

Where the code and its words differ, the model follows the code:

- `verify_manifest` is documented to return false for a signature that cannot be verified.
  A malformed signature, or a key that does not parse before one that verifies, is an error
  instead, and nothing else is (`ContentTerms.ErrorExactlyWhen`,
  `ContentTerms.UnverifiableCanBeAnError`).
- The ISO text is documented to mirror JavaScript. From the year 10000 on it has more than
  four year digits and no sign: texts of one length still sort, those of different lengths
  sort by their year texts (`IsoTimestamp.IsoTextOrder`), so all texts up to a limit sort
  exactly while the limit is within the year 9999 (`IsoTimestamp.IsoTextsSortExactlyUpTo`).
- The secret file is called authoritative, but a restart prefers the keyring, whose update
  is best-effort. It resumes with the newest stored token exactly while the keyring is empty
  or not behind the secret file (`SessionRuns.ResumesNewestExactlyWhen`), and the keyring is
  behind exactly after a failed write of it that a good one of the secret file followed
  (`SessionRuns.ResumesBehindExactlyWhen`).
- `UploadMetadata.expected_sha1_hex` is documented as verified after streaming (upload.rs
  86). The code checks its length only (`BlockUpload.Validate`).
- A batch is documented to load when the queue reaches the batch size. After a failed load
  the buffer has grown and the threshold with it (`BatchLoader.BatchSizeIsKeptExactlyWhen`).
- Returning from `EnterAsync` is not holding. A queued call returns normally and holds
  nothing exactly when it found its token cancelled and its task is not completed when it
  returns; one that enters at once, or is granted before it returns, holds its amount
  whatever its token (`SemaphoreRuns.ReturnsWithoutGrantExactlyWhen`). If its callback was
  unregistered before it began, the call has returned with its task pending, keeps its place
  in the queue, and a later release can be spent on it
  (`SemaphoreRuns.NeverGrantedLaterExactlyWhen`, `SemaphoreRuns.CancelledCallsEndThreeWays`).
- The refresh request goes through the retrying transport. A reply lost after the server
  rotated makes the retry show the old token, and the session is reported expired and lost
  (`SessionLosses.RejectedThoughCurrentExactlyWhen`, `SessionRuns.LostReplyAndRetry`).
- The parent context of an upload works at the share root only, as its comment says
  (`NodeKeyChain.UploaderAgreesExactlyAtTheRoot`).

## Model

| member | source | states |
|---|---|---|
| `EventFeed.DrainVolumeEvents` | rust/crates/proton-drive-core/src/events.rs:183-249 | The page loop returns and delivers what the recursive definition of a drain says for every sequence of answers: refresh, empty page, repeated cursor, `more`, and errors. |
| `EventFeed.HonestDrain` | rust/crates/proton-drive-core/src/events.rs:171-249 | Against pages that are stretches of the log, a finished drain has delivered exactly the mapped entries from the old to the new cursor, in order, with at most one trailing FastForward; a failed one a prefix of them. |
| `EventFeed.ListenerKnowsTheLog` | rust/crates/proton-drive-core/src/events.rs:148-161 | After an honest drain the last event per node says what the log says: deleted exactly when the last visible entry for the link, between the two cursors, has type 0, created exactly for type 1, else trashed or updated by the flag; no other node has changed. |
| `EventFeed.HonestDrainEnds` | rust/crates/proton-drive-core/src/events.rs:189-248 | A drain of an honest log asks for at most one page more than there are entries left. |
| `EventFeed.RepeatedCursorEndsTheDrain` | rust/crates/proton-drive-core/src/events.rs:231-247 | A page that does not advance the cursor ends the drain whatever else the server has to answer; its events are shown. |
| `EventFeed.DrainNeedNotEnd` | rust/crates/proton-drive-core/src/events.rs:234-247 | The guard stops a repeated cursor only: a server that alternates two cursors keeps any number of pages coming. |
| `EventFeed.HonestWhileGrowing` | rust/crates/proton-drive-core/src/events.rs:183-249 | A page read from the log stays honest when the log grows behind it, so growth between pages is covered. |
| `EventFeed.RedeliveryIsIdempotent` | rust/crates/proton-drive-core/src/events.rs:371-400 | After any number of broken attempts, each a prefix of the final delivery, the last event per node is as if the attempts had not happened. |
| `EventFeed.VolumeEventLoop.Tick` | rust/crates/proton-drive-core/src/events.rs:355-402 | One tick of the polling loop: wait or be cancelled, drain, move and store the cursor, stop on NotFound, count retries. |
| `EventFeed.BrokenTickKeepsCursor` | rust/crates/proton-drive-core/src/events.rs:371-400 | A tick whose drain fails leaves the cursor, and has shown only a prefix of what the next tick shows again. |
| `EventFeed.WaitsLevelOff` | rust/crates/proton-drive-core/src/events.rs:133-139 | Waits never shrink while failures go on, and level off at 390 seconds. |
| `EventFeed.WaitsAreFibonacci` | rust/crates/proton-drive-core/src/events.rs:133-139 | The waits are the Fibonacci numbers times 30 seconds, up to the sixth failure. |
| `EventRuns.StepKeepsInv` | rust/crates/proton-drive-core/src/events.rs:332-422 | Every step (growth, expiry, start, page, crash in or after a page, failure, cursor write) keeps: all told up to the cursor; each emission true, and all before it told when it was shown; stored cursor not past memory; and, when the server refreshes for expired cursors only, nothing shown that a refresh had covered. |
| `EventRuns.NoEntryIsLost` | rust/crates/proton-drive-core/src/events.rs:318-403 | In every reachable state, also when the server refreshes at will, each visible log entry between the first stored cursor and the cursor in memory was shown as its mapped event, or lies in a stretch whose TreeRefresh was shown. |
| `EventRuns.StoredNeverPassesMemory` | rust/crates/proton-drive-core/src/events.rs:371-380 | The stored cursor never passes the one in memory and never falls behind the first one. |
| `EventRuns.NothingIsShownAhead` | rust/crates/proton-drive-core/src/events.rs:183-249 | Over whole runs with restarts, for any server: when an entry is shown, every visible entry before it, from the first stored cursor on, had already been shown as its mapped event or covered by a TreeRefresh. |
| `EventRuns.FirstDeliveriesFollowTheLog` | rust/crates/proton-drive-core/src/events.rs:223-225 | So, with a server that refreshes for expired cursors only, an entry shown after a later one had already been shown before it. |
| `EventRuns.RefreshAtWillBreaksTheOrder` | rust/crates/proton-drive-core/src/events.rs:195-204 | With any other server that can fail: after a refresh, a failed cursor write and a restart, an entry the refresh covered is shown for the first time behind a later one. |
| `EventRuns.DrainIsARun` | rust/crates/proton-drive-core/src/events.rs:183-249 | The steps of the run machine show what the drain shows, and leave the client where the loop goes with the drain's result, while the log grows and cursors expire between the pages. |
| `EventRuns.TickIsARun` | rust/crates/proton-drive-core/src/events.rs:355-403 | A tick of the polling loop is a run: what it shows, the cursor it goes on from, the stored cursor, whether it stops and how many failures it counts are those of the steps. |
| `EventRuns.OldEntriesAreNotShown` | rust/crates/proton-drive-core/src/events.rs:407-424 | What was in the log before the client first ran is never shown. |
| `BlockUpload.Validate` | rust/crates/proton-drive-core/src/upload.rs:93-115 | An announcement is accepted exactly when the size is 1 byte to 16 MiB and a SHA-1, if given, has 40 characters. |
| `BlockUpload.ValidationError` | rust/crates/proton-drive-core/src/upload.rs:93-115 | Of the three checks the first that fails is named; the limit is 16777216 bytes. |
| `BlockUpload.FillBlock` | rust/crates/proton-drive-core/src/upload.rs:366-387 | Under every schedule of short reads one buffer takes the next min(block size, rest) bytes of the stream and leaves the others; it fails exactly when a read fails. |
| `BlockUpload.EncryptStream` | rust/crates/proton-drive-core/src/upload.rs:355-466 | The blocks are numbered from 1 and hold, in order, the cut of the whole stream at the block size; sizes and total are those of the stream; it fails exactly when a read fails, the upload is cancelled, or encryption fails, each asked for in the order of the program. |
| `BlockUpload.PutBlocks` | rust/crates/proton-drive-core/src/upload.rs:516-527 | Block i goes to sorted link i; after a failure the store is that of some number of whole puts. |
| `BlockUpload.RequestAndPut` | rust/crates/proton-drive-core/src/upload.rs:488-527 | The number of links is compared after the request and before any put; a failure is a wrong number of links, or one of the surroundings. |
| `BlockUpload.RunUpload` | rust/crates/proton-drive-core/src/upload.rs:355-589 | Unless a read, a put or something around fails, the upload succeeds exactly when the stream is not empty, has the announced size, and as many links come as there are blocks. Success means the committed blocks, manifest and sizes are those of the stream, the store holds the puts, and every step was taken in order; each error names its cause, and none before the puts has changed the store. |
| `BlockUpload.UploadFromStream` | rust/crates/proton-drive-core/src/client.rs:323-338 | So does the whole call, for valid announcements: only a stream of the announced size, 1 byte to 16 MiB, is uploaded, in ceil(size / block size) blocks; an invalid announcement reads and stores nothing. |
| `BlockUpload.CommittedBlocks` | rust/crates/proton-drive-core/src/upload.rs:361-466 | The committed blocks join to the stream; all but the last are full, none is empty, indices run from 1, and the recorded sizes add up to the recorded size. |
| `BlockUpload.LinksPairExactlyWhenNumbered` | rust/crates/proton-drive-core/src/upload.rs:508-527 | Every block meets the link with its own index if and only if the link indices are a permutation of 1..N; the program compares the counts only. |
| `BlockUpload.PutsStoreEach` | rust/crates/proton-drive-core/src/upload.rs:516-527 | With distinct storage tokens every block can be read back from its link. |
| `BlockUpload.TokenRevealsTheCiphertext` | rust/crates/proton-drive-core/src/upload.rs:441-449 | Each octet of a verifier token is the exclusive or of the code and the ciphertext; beyond the ciphertext it is the code. |
| `BlockUpload.TokenBindsTheCiphertext` | rust/crates/proton-drive-core/src/upload.rs:441-449 | A token fits two ciphertexts exactly when they start alike for the length of the code. |
| `Chunks.JoinOfCut` | rust/crates/proton-drive-core/src/upload.rs:363-466 | Cutting at the block size loses, adds and reorders nothing. |
| `Chunks.CutSizes` | rust/crates/proton-drive-core/src/upload.rs:366-390 | No block is empty and all but the last are full. |
| `Chunks.CutCount` | rust/crates/proton-drive-core/src/upload.rs:363-466 | The number of blocks is the total divided by the block size, rounded up. |
| `Chunks.CutIsTheOnlyOne` | rust/crates/proton-drive-core/src/upload.rs:363-466 | Any blocks of these sizes that join to the stream are the blocks of the cut. |
| `IndexOrder.SortIsStable` | rust/crates/proton-drive-core/src/upload.rs:518-519 | Sorting by index keeps the entries, orders them, and keeps the order of equal indices. |
| `IndexOrder.SortedInPlaceExactlyWhenNumbered` | rust/crates/proton-drive-core/src/download.rs:162-163 | After the sort entry k sits in place k for all k if and only if the indices are a permutation of 1..N. |
| `ContentTerms.VerifyDetached` | rust/crates/proton-drive-crypto/src/lib.rs:1084-1114 | The verdict is that of the first key that verifies; a key that does not parse stops the search with an error. |
| `ContentTerms.VerifiedExactlyWhen` | rust/crates/proton-drive-crypto/src/lib.rs:1084-1114 | A signature verifies exactly when it covers the payload and its signer's key stands before any key that does not parse. |
| `ContentTerms.ErrorExactlyWhen` | rust/crates/proton-drive-crypto/src/lib.rs:1084-1114 | Verification is an error, and not a verdict, exactly when the signature does not parse, or some key does not parse and no key before it verifies. |
| `ContentTerms.UnverifiableCanBeAnError` | rust/crates/proton-drive-core/src/download.rs:244-264 | Inputs on which a signature that cannot be verified is an error, where false is documented: a malformed signature, and a malformed key before the signer's; a foreign signer gives the documented verdict. |
| `ContentTerms.VerifiedWhenKeysParse` | rust/crates/proton-drive-crypto/src/lib.rs:1099-1113 | When every key parses a parsed signature always gets a verdict, and verifies exactly when its signer is among the keys. |
| `BlockDownload.WriteBlocks` | rust/crates/proton-drive-core/src/download.rs:165-186 | On success exactly the plaintexts of all blocks are written and counted; otherwise the first k blocks are whole, and block k failed its checks or broke the writer. |
| `BlockDownload.BlockTextExactlyWhen` | rust/crates/proton-drive-core/src/download.rs:321-364 | A block fails to arrive, has the wrong digest, is not sealed under the content key, or is its plaintext, each exactly when it says so, under its own index. |
| `BlockDownload.VerifyManifest` | rust/crates/proton-drive-core/src/download.rs:252-319 | With address keys that parse, the manifest verifies exactly when its payload is that of the hashes and its signer is among them; without address keys, exactly when the node signed it; it is an error exactly when the signature or an address key met before a verifying one does not parse. |
| `BlockDownload.AddressKeysDecide` | rust/crates/proton-drive-core/src/download.rs:284-299 | Which keys decide: the address keys, and the node key only when there are none. |
| `BlockDownload.PayloadIsReceived` | rust/crates/proton-drive-core/src/download.rs:269-275 | Once all blocks have passed, the manifest payload is the concatenation of the hashes of the ciphertexts that arrived, and no hash text can fail to decode. |
| `BlockDownload.DownloadToWriter` | rust/crates/proton-drive-core/src/download.rs:108-211 | Nothing is written when there are no blocks, no manifest signature or no content key; otherwise whole checked blocks are written, and with all of them written and flushed the manifest decides the result; writing and flushing fail exactly when the writer does. |
| `BlockDownload.RefusalExactlyWhen` | rust/crates/proton-drive-core/src/download.rs:115-143 | Which refusal is given, in the order of the checks. |
| `BlockDownload.UnwrapContentKey` | rust/crates/proton-drive-core/src/download.rs:137-155 | The content key comes from the node's packet, else from the revision's, opened with the node key. |
| `BlockDownload.ContentSessionIs` | rust/crates/proton-drive-core/src/download.rs:135-155 | The content key is the first session key wrapped for the node key in the node's packet, or, only if there is none, in the revision's. |
| `TransferRoundTrip.PassedTextIsOriginal` | rust/crates/proton-drive-core/src/download.rs:338-347 | Whatever the storage answers, the blocks that pass the hash check spell a prefix of the uploaded bytes, and all of them together exactly those bytes. |
| `TransferRoundTrip.StoppedDownloadIsAPrefix` | rust/crates/proton-drive-core/src/download.rs:165-186 | At every point where a download stops, what is written is a prefix of the original, also when the writer broke inside a block. |
| `TransferRoundTrip.StoredBlocksPass` | rust/crates/proton-drive-core/src/download.rs:321-364 | With the stored ciphertexts as answers and the content key every block passes. |
| `TransferRoundTrip.VerifiedTextIsOriginal` | rust/crates/proton-drive-core/src/download.rs:252-319 | Whoever lists the blocks and answers for them: once all pass, the uploader's manifest verifies if and only if the signer's key is found and the answers are the uploaded ciphertexts in order; the text is then the uploaded data. |
| `TransferRoundTrip.ManifestVerifiesExactlyWhen` | rust/crates/proton-drive-core/src/download.rs:252-319 | The uploader's manifest verifies over what was received exactly when the signer is among the verification keys, before any that does not parse, and is an error exactly when a key that does not parse comes before the signer's; with keys that all parse, membership of the signer decides. |
| `TransferRoundTrip.ServedIsStored` | rust/crates/proton-drive-core/src/upload.rs:508-527 | Through sorted links, storage tokens and a listing in any order, each request is answered with the block of its index. |
| `TransferRoundTrip.DownloadBack` | rust/crates/proton-drive-core/src/download.rs:108-211 | From a server that lists and serves what was stored, the download writes the original, and fails exactly when the writer does or an address key that does not parse comes before the signer's, with the content key on the node or on the revision only. |
| `TransferRoundTrip.Transfer` | rust/crates/proton-drive-core/src/upload.rs:355-552 | Upload and download composed. Unless something around fails, the upload succeeds exactly when the inputs fit, and the download then exactly when no address key that does not parse comes before the signer's; the bytes are identical, and the signature is reported verified exactly when the signer is among the address keys, or is the node when there are none. |
| `CivilDate.CivilFromDaysIsTheCalendar` | rust/crates/proton-drive-core/src/upload.rs:943-955 | The closed form gives, for every day count, the date reached by stepping day by day from 1 January 1970, and a valid one. |
| `CivilDate.CivilFromDaysIsABijection` | rust/crates/proton-drive-core/src/upload.rs:943-955 | Day counts and valid dates from 1970 on correspond one to one, with the calendar's own count as inverse. |
| `CivilDate.DayNumberIsStrictlyMonotone` | rust/crates/proton-drive-core/src/upload.rs:943-955 | Earlier dates have smaller day numbers. |
| `CivilDate.DateAfterIsSane` | rust/crates/proton-drive-core/src/upload.rs:943-955 | The reference calendar itself only visits valid dates, each the successor of the one before. |
| `IsoTimestamp.IsoTextOrder` | rust/crates/proton-drive-core/src/upload.rs:930-964 | For all instants: texts of equal length sort as the instants do; of texts of different lengths the year texts, with their hyphen, decide; two texts are equal exactly within one millisecond. |
| `IsoTimestamp.IsoTextsSortExactlyUpTo` | rust/crates/proton-drive-core/src/upload.rs:957-963 | All texts of instants before a limit sort as the instants do if and only if the limit is not after the beginning of the year 10000. |
| `IsoTimestamp.IsoTextWidth` | rust/crates/proton-drive-core/src/upload.rs:957-963 | The text has 24 characters exactly before the year 10000. |
| `IsoTimestamp.IsoTextReadsBack` | rust/crates/proton-drive-core/src/upload.rs:930-964 | Around the separators of ISO 8601 the text has the numbers of a valid date and time of day, and together they are the instant, to the millisecond. |
| `IsoTimestamp.IsoTextOrderEndsWith9999` | rust/crates/proton-drive-core/src/upload.rs:957-963 | Across the turn of the year 10000 the order is wrong: its first instant sorts before the last millisecond of 9999. |
| `PgpTerms.DecryptSessionKey` | rust/crates/proton-drive-crypto/src/lib.rs:744-786 | The search over packets and keys yields the session key of the first packet that any key opens. |
| `PgpTerms.UnlockMeansReadable` | rust/apps/pdtui/src/account.rs:313-342 | A key unlocked through a token had a recipient that could read the token and held its passphrase. |
| `PgpTerms.UnlockIsReadableExactlyWhenOrderly` | rust/apps/pdtui/src/account.rs:313-342 | Unlocking succeeds exactly when some recipient can read the token, for all keys in all orders, if and only if no packet with a wrong session key hides a right one behind it. |
| `PgpTerms.SteadyNeedNotBeOrderly` | rust/crates/proton-drive-crypto/src/lib.rs:744-786 | Orderly tokens are steady (`PgpTerms.OrderlyIsSteady`), and not conversely: with two packets for one recipient, the wrong one first, nobody can read the token and the order of keys does not matter. |
| `KeyCascade.DirectPass` | rust/apps/pdtui/src/account.rs:240-251 | The first round files exactly the entries that open with the password and keeps the rest in order. |
| `KeyCascade.TokenPass` | rust/apps/pdtui/src/account.rs:255-284 | One pass over the pending entries, in which each key filed helps the entries after it; progress is reported exactly when something was filed. |
| `AccountUnlock.CascadeUnlock` | rust/apps/pdtui/src/account.rs:188-302 | For all user keys and addresses: it fails exactly when no key that is tried opens with the password; the user keys returned are those of the user's entries that open, and a lower-case email has a key exactly when the chosen key of an address with that email opens, which is then the key it has. |
| `AccountUnlock.AddressKeyIsChosen` | rust/apps/pdtui/src/account.rs:215-221 | An address contributes its first key marked primary, else its first key. |
| `AccountUnlock.KeyOfSoleAddress` | rust/apps/pdtui/src/account.rs:215-229 | For an email of one address only, the key is that one. |
| `AccountUnlock.LowerIsLower` | rust/apps/pdtui/src/account.rs:226-226 | Emails are lower-cased in the letters A to Z and nowhere else. |
| `KeyCascade.TokenRoundShrinks` | rust/apps/pdtui/src/account.rs:254-285 | A round loses no entry, and one that files something leaves strictly fewer pending, so the rounds end. |
| `KeyCascade.CascadeIsSound` | rust/apps/pdtui/src/account.rs:253-294 | Whatever the tokens: each entry ends in exactly one of filed and pending, filed entries are opened by filed keys, and every set closed under opening contains them. |
| `KeyCascade.CascadeIsTheLeastFixpoint` | rust/apps/pdtui/src/account.rs:253-294 | With orderly tokens the unlocked keys are the least set closed under opening, at each of the three exits; an entry is filed exactly when it opens with the help of the unlocked keys. |
| `CascadeOrder.CascadeIgnoresOrder` | rust/apps/pdtui/src/account.rs:253-294 | With steady tokens, in which no key can keep another from reading, the order of the entries decides nothing. |
| `CascadeOrder.OrderIsIrrelevantExactlyWhenSteady` | rust/apps/pdtui/src/account.rs:253-294 | Beside any entries with steady tokens the order never decides whether an entry is unlocked, if and only if its own token is steady. |
| `CascadeOrder.CompleteExactlyWhenOrderly` | rust/apps/pdtui/src/account.rs:253-294 | Beside any entries with orderly tokens an entry is unlocked exactly when it opens with the help of the unlocked keys, if and only if its own token is orderly. |
| `KeyCascade.ResultIsWhatOpens` | rust/apps/pdtui/src/account.rs:225-238 | The user keys returned are those of the user entries that open, and an address has a key exactly when one of its entries opens. |
| `NodeKeyChain.ResolveNodeKeyViaChain` | rust/crates/proton-drive-core/src/client.rs:237-280 | The climb and the fold yield key(n) = unlock(n, key(parent(n))), with the share key at the root, within 64 nodes, and ask for exactly the links on the way. |
| `NodeKeyChain.NodeKeyOnChain` | rust/crates/proton-drive-core/src/client.rs:237-280 | On a chain within the limit this is the definition without a limit and one request per node; on a longer one the depth error after exactly as many requests as the limit. |
| `NodeKeyChain.ResolvedExactlyWhen` | rust/crates/proton-drive-core/src/client.rs:237-280 | The walk succeeds exactly when a chain to the root exists, is no longer than the limit, and unlocks from the top down. |
| `NodeKeyChain.WalkFailsExactlyWhen` | rust/crates/proton-drive-core/src/client.rs:237-280 | The walk is too deep exactly when as many links as the limit lead up and there are more, and misses a link exactly when one it asks for is not there. |
| `NodeKeyChain.CyclesAreRejected` | rust/crates/proton-drive-core/src/client.rs:233-250 | A node whose ancestors repeat always gives an error, within the limit of requests. |
| `NodeKeyChain.HonestNodesResolveExactlyWhen` | rust/crates/proton-drive-core/src/download.rs:565-599 | In a tree where each node is locked for its parent only, a node resolves to its own key exactly when its chain fits the limit. |
| `NodeKeyChain.UploaderAgreesExactlyAtTheRoot` | rust/crates/proton-drive-core/src/upload.rs:650-692 | In an honest tree, unlocking the parent directly with the share key agrees with the walk exactly at the share root, and fails on every nested folder. |
| `Base64.DecodeOfEncode` | rust/crates/proton-drive-crypto/src/lib.rs:167-170 | Decoding gives back the bytes that were encoded (section 4 of RFC 4648). |
| `Base64.EncodeOfDecode` | rust/apps/pdtui/src/account.rs:394-396 | Every text the strict decoder accepts is the one encoding of its bytes. |
| `Base64.EncodedCharacters` | rust/apps/pdtui/src/account.rs:384-387 | Padding can stand only in the last two places of a group of four, so no body line starts with it. |
| `Base64.AlphabetIsStandard` | rust/crates/proton-drive-crypto/src/lib.rs:167-170 | The 64 characters are those of table 1 of RFC 4648, in its order. |
| `Base64.EncodedGroups` | rust/crates/proton-drive-crypto/src/lib.rs:167-170 | Each three bytes and their four characters are the same number, highest bits first; one or two bytes at the end are followed by zero bits and padding. |
| `AsciiArmor.Armor` | rust/crates/proton-drive-crypto/src/lib.rs:145-188 | The text written is the header line, a blank line, lines of 64 characters, the checksum line and the end line (sections 6.1 to 6.3 of RFC 4880). |
| `AsciiArmor.ArmorBody` | rust/crates/proton-drive-crypto/src/lib.rs:176-180 | The chunk loop writes the base64 text in lines of 64 characters. |
| `AsciiArmor.FoldedSizes` | rust/crates/proton-drive-crypto/src/lib.rs:176-180 | Every line of the body has 64 characters, but the last, which has 1 to 64. |
| `AsciiArmor.MessageFrame` | rust/crates/proton-drive-crypto/src/lib.rs:162-186 | The begin and end lines of a message. |
| `AsciiArmor.SignatureFrame` | rust/crates/proton-drive-crypto/src/lib.rs:162-186 | The begin and end lines of a signature. |
| `AsciiArmor.ChecksumLineDecodes` | rust/crates/proton-drive-crypto/src/lib.rs:167-170 | The checksum line is an equals sign and the three octets of the CRC-24 in base64. |
| `AsciiArmor.ChecksumIsBigEndian` | rust/crates/proton-drive-crypto/src/lib.rs:167-170 | Its octets are those of the checksum, highest first. |
| `AsciiArmor.EmptyChecksumLine` | rust/crates/proton-drive-crypto/src/lib.rs:148-170 | For no data it is =twTO. |
| `AsciiArmor.DearmorPgp` | rust/apps/pdtui/src/account.rs:352-397 | The parser returns the decoded body, or decodes the whole text when there is no armor header. |
| `AsciiArmor.CollectBody` | rust/apps/pdtui/src/account.rs:365-392 | The line loop with its two flags collects exactly the lines of the body. |
| `AsciiArmor.DearmorOfArmor` | rust/apps/pdtui/src/account.rs:352-397 | De-armoring undoes armoring, for every byte sequence and both kinds. |
| `AsciiArmor.DearmorSurvivesTransport` | rust/apps/pdtui/src/account.rs:352-397 | So it does with header lines added, any checksum line, and white space around the text and at line ends. |
| `AsciiArmor.DearmorOfBlock` | rust/apps/pdtui/src/account.rs:352-397 | From any block the parser decodes exactly the body lines. |
| `AsciiArmor.DearmorInsideText` | rust/apps/pdtui/src/account.rs:365-392 | The same when lines of other text stand before the block and after it. |
| `AsciiArmor.OtherFramesAreText` | rust/apps/pdtui/src/account.rs:352-380 | Frames of another kind neither begin nor end a block. |
| `Text.LinesEndEitherWay` | rust/apps/pdtui/src/account.rs:365-365 | A line ends with a line feed, or with a carriage return and a line feed. |
| `AsciiArmor.DearmorOfBareBase64` | rust/apps/pdtui/src/account.rs:355-361 | Text without an armor header is taken as bare base64. |
| `Crc24.Checksum` | rust/crates/proton-drive-crypto/src/lib.rs:148-160 | The register loop computes the checksum and never leaves 24 bits, so the final mask changes nothing. |
| `Crc24.BitStepIsInjective` | rust/crates/proton-drive-crypto/src/lib.rs:152-157 | Two different 24-bit registers stay different after a step. |
| `Crc24.BurstsAreDetected` | rust/crates/proton-drive-crypto/src/lib.rs:148-160 | Messages of equal length that differ only within three adjacent bytes never share a checksum. |
| `Crc24Polynomial.ChecksumIsTheRemainder` | rust/crates/proton-drive-crypto/src/lib.rs:148-160 | The checksum is the remainder of the message polynomial, after the initial value, by the generator of section 6.1 of RFC 4880, and the only one. |
| `FifoSemaphore.FifoFlexibleSemaphore.constructor` | reference/cs/sdk/src/Proton.Drive.Sdk/FifoFlexibleSemaphore.cs:10-16 | The count starts at the maximum with an empty queue. |
| `FifoSemaphore.FifoFlexibleSemaphore.TryEnter` | reference/cs/sdk/src/Proton.Drive.Sdk/FifoFlexibleSemaphore.cs:21-35 | Enters exactly while the count is positive, by any amount; a negative amount changes nothing. |
| `FifoSemaphore.FifoFlexibleSemaphore.EnterAsync` | reference/cs/sdk/src/Proton.Drive.Sdk/FifoFlexibleSemaphore.cs:37-52 | Enters at once or joins the queue at its end. |
| `FifoSemaphore.FifoFlexibleSemaphore.TrySetCanceled` | reference/cs/sdk/src/Proton.Drive.Sdk/FifoFlexibleSemaphore.cs:54-54 | Cancels a pending waiter and no other; its queue entry stays. |
| `FifoSemaphore.FifoFlexibleSemaphore.DecreaseCount` | reference/cs/sdk/src/Proton.Drive.Sdk/FifoFlexibleSemaphore.cs:75-81 | Lowers the count, without looking at the sign. |
| `FifoSemaphore.FifoFlexibleSemaphore.Release` | reference/cs/sdk/src/Proton.Drive.Sdk/FifoFlexibleSemaphore.cs:83-106 | Throws beyond the maximum, else raises the count and grants from the head of the queue while the count is positive, skipping cancelled waiters. |
| `SemaphoreRuns.StepFollowsTheSemaphore` | reference/cs/sdk/src/Proton.Drive.Sdk/FifoFlexibleSemaphore.cs:21-106 | Each step of the run machine changes the semaphore as the class does. |
| `SemaphoreRuns.StepKeepsOrderExactlyWhen` | reference/cs/sdk/src/Proton.Drive.Sdk/FifoFlexibleSemaphore.cs:21-106 | A step keeps queued waiters from being overtaken exactly when it does not lift the count past them, which only a negative decrease can do. |
| `SemaphoreRuns.ReachableInvariant` | reference/cs/sdk/src/Proton.Drive.Sdk/FifoFlexibleSemaphore.cs:21-106 | In every reachable state the maximum minus the count is what was granted plus decreases minus releases, cancelled waiters adding nothing; a queue means the count is not positive; grants are an ordered part of the arrivals. |
| `SemaphoreRuns.QueueBlocksEntry` | reference/cs/sdk/src/Proton.Drive.Sdk/FifoFlexibleSemaphore.cs:25-52 | While anybody is queued no TryEnter succeeds and no EnterAsync enters at once. |
| `SemaphoreRuns.QueuedGrantsAreFifo` | reference/cs/sdk/src/Proton.Drive.Sdk/FifoFlexibleSemaphore.cs:96-104 | Grants from the queue are the completed arrivals in arrival order, and none passes a waiter that is still pending. |
| `SemaphoreRuns.ReleaseThrowsExactlyWhenTooMuch` | reference/cs/sdk/src/Proton.Drive.Sdk/FifoFlexibleSemaphore.cs:83-92 | A release throws exactly when it returns more than is outstanding; once nothing is outstanding nobody is queued. |
| `SemaphoreRuns.HeldIsBounded` | reference/cs/sdk/src/Proton.Drive.Sdk/FifoFlexibleSemaphore.cs:21-106 | What is held stays below the maximum plus the largest single request, while no decrease is negative. |
| `SemaphoreRuns.ReturnsWithoutGrantExactlyWhen` | reference/cs/sdk/src/Proton.Drive.Sdk/FifoFlexibleSemaphore.cs:37-73 | In every reachable state: a call that finds the count positive holds its amount whatever its token; a queued one, with any steps before it looks at its token and any between the look and its end, returns without a grant if and only if it found the token cancelled and its task is not completed when it returns. |
| `SemaphoreRuns.NeverGrantedLaterExactlyWhen` | reference/cs/sdk/src/Proton.Drive.Sdk/FifoFlexibleSemaphore.cs:54-104 | A queued call without a grant is granted by no later run if and only if its task is cancelled; one that returned with its task pending can still be granted. |
| `SemaphoreRuns.CancelledCallsEndThreeWays` | reference/cs/sdk/src/Proton.Drive.Sdk/FifoFlexibleSemaphore.cs:54-60 | From a full semaphore a call that found its token cancelled while its task was pending can return with the task cancelled, pending or completed; a release gives it its amount also after it returned, and then lets nobody in. |
| `SemaphoreRuns.ReleaseWithoutGrantLetsOneIn` | reference/cs/sdk/src/Proton.Drive.Sdk/FifoFlexibleSemaphore.cs:83-106 | If a call that returned without a grant is followed by a release, another call gets in, and the holders cannot release all they hold. |
| `SemaphoreRuns.NegativeDecreaseOvertakes` | reference/cs/sdk/src/Proton.Drive.Sdk/FifoFlexibleSemaphore.cs:75-81 | A negative decrease wakes nobody and lets the next call overtake the queue. |
| `SessionRefresh.Session.Exchange` | rust/apps/pdtui/src/session.rs:386-425 | One refresh request, sent as often as the transport sends it: the server takes the current token once; the outcome is decided by the answer that arrives and by whether an earlier send was acted on. |
| `SessionRefresh.Session.DoRefresh` | rust/apps/pdtui/src/session.rs:380-451 | A refresh is a run of protocol steps in the program's order of writes; it succeeds exactly when the answer is a token and the two files are written; it reports an expired session exactly when an answer arrives and the token was old, or an earlier send of the same request had been acted on, and a failed request exactly when none arrives; each store changes exactly by its own write; any failure leaves memory as it was. |
| `SessionLosses.RejectedThoughCurrentExactlyWhen` | rust/apps/pdtui/src/session.rs:404-408 | A rejected refresh had begun with the current token if and only if an earlier send of it was taken by the server and its reply lost. |
| `SessionRuns.StepKeepsInv` | rust/apps/pdtui/src/session.rs:380-451 | No store is ever ahead of the server, and between the writes each phase holds what it says. |
| `SessionRuns.StepKeepsOrderExactlyWhen` | rust/apps/pdtui/src/session.rs:553-581 | memory <= secret file <= server survives every step except exactly a restart from a keyring that is ahead of the secret file. |
| `SessionRuns.RunKeepsOrder` | rust/apps/pdtui/src/session.rs:380-451 | So it holds over every run without such a restart, crashes and failed writes included. |
| `SessionRuns.CrashBetweenTheWrites` | rust/apps/pdtui/src/session.rs:428-443 | The exception is reachable: a crash between the keyring and the secret-file write. |
| `SessionRuns.CurrentIsLostExactlyBy` | rust/apps/pdtui/src/session.rs:386-443 | A running process falls behind the server exactly by a lost reply, or a failed write of the secret or session file. |
| `SessionRuns.StaleIsStuck` | rust/apps/pdtui/src/session.rs:380-451 | Once behind, no refresh of that process is accepted again. |
| `SessionRuns.TokensFormAChain` | rust/apps/pdtui/src/session.rs:461-495 | Otherwise the tokens that the 401 handlers and the background loop show the server are consecutive, each issued by the success before, and none is rejected. |
| `SessionRuns.CrashesAfterTheKeyringAreHarmless` | rust/apps/pdtui/src/session.rs:430-451 | With the keyring written, crashes at any later write and restarts do no harm: every restart resumes with the current token. |
| `SessionRuns.ResumesNewestExactlyWhen` | rust/apps/pdtui/src/session.rs:553-581 | A restart resumes with the newest stored token if and only if the keyring is empty or not behind the secret file. |
| `SessionRuns.ResumesBehindExactlyWhen` | rust/apps/pdtui/src/session.rs:428-443 | Over every run from a login, a restart resumes with a token older than the secret file's if and only if the keyring is not empty, a write of it failed before a write of the secret file succeeded, and none has succeeded since. |
| `SessionRuns.KeyringCanBeBehind` | rust/apps/pdtui/src/session.rs:560-564 | One failed keyring write and a restart resume with a token the server no longer takes, although the secret file holds the current one. |
| `SessionRuns.LostForever` | rust/apps/pdtui/src/session.rs:380-451 | When no store holds the current token, no later step or restart recovers the session. |
| `SessionRuns.FailedWriteCanLoseTheSession` | rust/apps/pdtui/src/session.rs:408-443 | One failed secret-file write reaches that state: the next refresh shows the old token, is rejected, and clears the keyring. |
| `SessionRuns.LostReplyLosesTheSession` | rust/apps/pdtui/src/http.rs:110-128 | So does a single lost reply, in any reachable state: once the server has taken the token and its answer is lost, no store holds the current one. |
| `SessionRuns.LostReplyAndRetry` | rust/apps/pdtui/src/http.rs:71-128 | The transport's own retry then shows the old token again, and the refresh that began with the current token ends as an expired session. |
| `HttpRetry.SendWithRetry` | rust/apps/pdtui/src/http.rs:71-134 | At most `max_attempts` sends, up to the first answer not worth another. Success is exactly a last reply, not 429, whose body arrived, and gives its status and body; 429 gives the seconds of its header or 5; a lost body, a failure to connect after the last attempt and any other failure are told apart. Pauses lie between the base delays and one and a half times them; the code after the loop is reached exactly for zero attempts. |
| `HttpRetry.RetriedExactlyWhen` | rust/apps/pdtui/src/http.rs:95-128 | Another attempt follows exactly a timeout, a failure to connect or a server error with its body, while attempts are left. |
| `HttpRetry.OutcomeIsDetermined` | rust/apps/pdtui/src/http.rs:71-128 | The answers alone decide the outcome. |
| `HttpRetry.OutcomeIsReported` | rust/apps/pdtui/src/http.rs:71-128 | Each outcome reports the first answer not worth another attempt, as the call itself does. |
| `HttpRetry.DelayIsCappedDoubling` | rust/apps/pdtui/src/http.rs:75-121 | The base delay is 250 ms doubled each time, capped at 8000 ms. |
| `HttpRetry.DelaysInTotal` | rust/apps/pdtui/src/http.rs:75-121 | The base delays in closed form from the fifth on. |
| `HttpRetry.FiveAttemptsPauseAtMost` | rust/apps/pdtui/src/http.rs:57-57 | With five attempts a request pauses for at most 5625 ms. |
| `SessionAwareClient.SessionClient.Request` | rust/apps/pdtui/src/http.rs:235-320 | A refresh of its own happens exactly when the first answer is 401, at most one; exactly when it succeeds one replay follows, with a newer token, whatever refreshes others squeeze in; the login is reported as expired exactly when the refresh is rejected, and a blob is refused exactly on a plain http link; at most three times the sends and pauses of one call. |
| `PartialCopy.PartiallyCopyTo` | reference/cs/sdk/src/Proton.Drive.Sdk/StreamExtensions.cs:9-47 | Under every schedule of short reads n = min(length, available) bytes are appended, the rest stays unread, and the sample holds the first of them; it fails exactly when a read or a write fails or the length is negative; a failure has written a prefix. |
| `BatchLoader.Loader.QueueAndTryLoadBatch` | reference/cs/sdk/src/Proton.Drive.Sdk/BatchLoaderBase.cs:22-34 | Queues the id and loads when the buffer is full, clearing it only after success; fails exactly when the load does, and gives what was loaded. |
| `BatchLoader.LoadsExactlyWhenFull` | reference/cs/sdk/src/Proton.Drive.Sdk/BatchLoaderBase.cs:24-33 | The load comes exactly when the id fills the buffer. |
| `BatchLoader.Loader.LoadRemainingIds` | reference/cs/sdk/src/Proton.Drive.Sdk/BatchLoaderBase.cs:43-51 | Loads whatever is queued, if anything; after success the queue is empty and its ids are the last batch. |
| `BatchLoader.RunsConserve` | reference/cs/sdk/src/Proton.Drive.Sdk/BatchLoaderBase.cs:22-60 | Over any calls, with any failures, the ids of loaded batches followed by those queued are the ids queued, in order. |
| `BatchLoader.RemainingAreLoaded` | reference/cs/sdk/src/Proton.Drive.Sdk/BatchLoaderBase.cs:36-51 | After a successful call for the rest every id queued is in a loaded batch. |
| `BatchLoader.BatchSizeIsKeptExactlyWhen` | reference/cs/sdk/src/Proton.Drive.Sdk/BatchLoaderBase.cs:18-34 | The threshold stays the batch size, and every automatic batch has exactly that size, if and only if no id is queued while the buffer is full. |
| `BatchLoader.NoFailureNoGrowth` | reference/cs/sdk/src/Proton.Drive.Sdk/BatchLoaderBase.cs:18-34 | Without failed loads that never happens. |
| `BatchLoader.FailedLoadRaisesTheThreshold` | reference/cs/sdk/src/Proton.Drive.Sdk/BatchLoaderBase.cs:18-34 | After one failed load a queue longer than the batch size no longer sets off a load. |

## Left out

- EventRuns.FirstDeliveriesFollowTheLog: for a server that refreshes for expired cursors only; EventRuns.RefreshAtWillBreaksTheOrder shows it fail for another, and EventRuns.NothingIsShownAhead is what holds for every server.
- SemaphoreRuns.HeldIsBounded: assumes decreases that are not negative, since a negative one lifts the count without a release.
- FifoSemaphore.FifoFlexibleSemaphore.constructor: requires a positive maximum, where the original throws; counts are mathematical integers.
- BatchLoader.Loader.constructor: requires a positive batch size, where the original throws.
- BlockUpload.RunUpload: starts at the chunk loop; creating the node, encrypting its name and fetching the verification code come before and change nothing modelled here, and the encrypted block signatures are not modelled.
- TransferRoundTrip.Transfer: assumes link indices that are a permutation of 1..N and distinct storage tokens; with other indices the program pairs blocks and links wrongly without noticing.
- SessionRuns.TokensFormAChain: one login; logout and a second login are not steps.
- KeyCascade.CascadeIsTheLeastFixpoint: for tokens that are orderly; CascadeOrder.CompleteExactlyWhenOrderly shows that no weaker condition on a token will do, and CascadeOrder.OrderIsIrrelevantExactlyWhenSteady for which tokens the order still does not matter.
- AccountUnlock.CascadeUnlock: with tokens that are not orderly, what is returned opens, but what opens need not be returned.
- OpenPGP packets, SRP, bcrypt and key parsing inside the token search: libraries that are not part of the repository.
- The modification time is not read back: the uploader writes a text, the downloader reads a number (upload.rs 915-920, download.rs 467). The attribute cross-check of size and SHA-1 only logs.
- Folder listing by pages, JSON shapes, HTTP headers, URL building, keyring and file formats: each read or write is one step that may fail.
- The terminal UI, commands, logging and progress channels.
- The C# interop layer, exception converters, the memory log handler, name generators and the JavaScript facades.
