# WinDep verification model

WinDep images Windows machines over the network. Its admin backend (Go) owns the deploy volume and takes uploads and
config edits from a browser (TypeScript); its API backend (Go) serves each machine a merged, decrypted config; the
deploy engine (PowerShell) fills an unattend template. This project models the parts of those programs whose
correctness spans several functions, and proves what they promise each other.

## What is proved, in short

- **Resumable upload, end to end** (`Upload.dfy` over `Server.dfy` and `Volume.dfy`). The client's loop runs against the
  handlers' own code. For every file and every pattern of lost requests, lost replies, partial appends, failed syncs,
  failed finalisations, late duplicates of earlier chunks and answers from intermediaries, every state the disk passes through holds only a front
  of the file staged and only the whole file under the final name; success means the final file is the file; a run
  costs at most 6 PATCHes, 7 HEADs and 23 s of back-off; one undisturbed PATCH out of six is enough.
- **The file server over whole runs** (`Runs.dfy`, `Traffic.dfy`). In any interleaving of HEAD, PATCH, PUT and DELETE,
  targets do not interfere; an accepted chunk lands at its offset; in every state of the disk a final file is wholly
  the old or wholly the new one; a finished upload has its declared length, exactly when staging had not outgrown it;
  every sidecar verifies; the audit trail counts completions. A session stays safe in any such traffic.
- **The encrypted config store** (`PlainStore.dfy`, and on the volume itself `ConfigRuns.dfy`). Over every run of saves,
  deletes and requests to other files, with any faults, the config files on disk decrypt to those of a store that never
  encrypts, and the API serves what that store would give it. No config file ever holds a secret in the clear exactly
  when no request stores one: with a key, only a file upload straight to a config file can. Under it lies the envelope (`Padding`, `Cbc`, `Base64`, `Envelope`), proved to be an exact
  inverse in both directions for any hash, any MAC and any block permutation.
- **The editor** (`Editor.dfy`): loading a masked config and saving it untouched changes nothing, exactly when a stated
  condition holds.
- **The API's overlay** (`Resolve.dfy`): decrypting commutes with merging, and never writes to the inputs.
- **Template substitution** (`Unattend.dfy`): one replacement after the other is the simultaneous substitution in every
  template and key order, and the leftover check lists the unfilled tokens, each exactly under a stated condition on
  the values.
- **Smaller whole-run results**: the map of recent machines, the event table under pruning, path resolution, WIM
  metadata.

## How the model is built

Go strings, paths and file contents are byte sequences (`Bytes.dfy`). The disk is a map from paths to files and
directories. `Volume.Vol` is the mutable disk: every file-system call of the program is one method, and a ghost history
records every state. `Handlers.dfy` gives each handler's effect as a function of the disk, the request and an outcome
value that says what went wrong (every outcome value is possible); `Server.dfy` has the handlers themselves, step by
step, each that changes the disk proved to compute those functions and to pass through no other states than
`ResumePasses`, `PutPasses` or `RemovePasses` lists.
The hash, the MAC and the block cipher are parameters; every theorem holds for all of them. Random IVs, clocks,
database errors and network fates are parameters too.

Conditions the theorems state, because the code needs them:

- Handlers for one target run one after the other. No lock in admin/main.go spans the Stat at line 399 and the append
  at line 408.
- Within an upload session the file and Upload-Length are fixed, and what is staged at the start is a front of the file.
  `Runs.FinishedLengthExactly` says exactly when the finished file has the declared length, and
  `Runs.OverlongStagingIsFinalised` is an input for which it has not.
- The final name is free at the start (or already holds the file). Otherwise the client reports success without sending
  anything; `Upload.Client.ResumableUpload` states this case as well.
- Stat on the staging file works when it is there. handleUploadResume reads any Stat error as size 0;
  `Runs.LandsAtOffsetExactly` gives the exact condition and `Runs.FailedStatCorrupts` an input that shows it.
- Targets are not named like staging files or sidecars (`Handlers.ProperName`).
- An empty file is not answered with a 2xx status by an intermediary: such an answer has no headers, so its offset
  reads as 0, which is the end of an empty file, and the client resolves with nothing stored. For every other file it
  only sends the client back to offset 0. `Upload.Client.ResumableUpload` states both.
- DATA_DIR is an absolute path.

Where the code differs from its comments or from what one would expect, the model follows the code:

- `num` in upload.ts takes a fallback for a missing header, but `Number(null)` is 0, so the fallback is used only for a
  header that is present and unusable.
- prevUnattend in admin/secret.go does not strip a byte-order mark, though every other reader does: a KEEP save over
  such a file drops the secret (`Config.KeepPreservesExactly`).
- A form that keeps a password which was never stored can leave an empty unattend block, which the next untouched save
  removes (`Editor.SavedFormIsStable` has the exact condition, `Editor.DanglingKeepIsNotStable` an input).
- handleDelete refuses a path of slashes; other paths that clean to the category root are not covered by that test
  (`Paths.DeleteGuardCoversSlashesOnly`, `Server.RootIsDeletedExactly`).
- Set-DeployUnattend replaces token by token, so a value that holds another key's token, or could complete one with the
  text behind it, is filled in its turn if its key comes first (`Unattend.OrderNeverShowsExactly`).
- Go's base64 decoder skips newlines and ignores spare bits, so an envelope's text is not unique; its bytes are
  (`Base64.ReencodeExactly`, `Envelope.OpenInvertsSeal`).
- decryptUnattend decrypts every string of the unattend block, so a non-secret field that starts with `enc:v1:` also
  breaks a config; the refinement excludes it.

`dafny verify dfyconfig.toml` checks the whole project.

## Model

| member | source | states |
|---|---|---|
| Upload.Client.ResumableUpload | admin/web/src/upload.ts:58-93 | from a disk holding only a front of the file, every later disk state is safe; resolving means the target is exactly the file unless an intermediary answers success for an empty file, and then it does resolve with nothing stored; 6 PATCH, 7 HEAD, 23,000 ms bounds; one clean PATCH among six suffices; if every chunk is cut off, the run ends unresolved after 6 PATCH, 6 HEAD and 23,000 ms; an existing file is taken for the upload with nothing sent |
| Upload.Client.Turn | admin/web/src/upload.ts:69-91 | only a failure sleeps, and on the last attempt it ends the run without a HEAD; an offset mismatch asks at once; a success is believed; what the client is told is the server's answer, another's word or nothing |
| Upload.Client.Retry | admin/web/src/upload.ts:69-92 | the attempts together: safety, bounds, liveness, and the cost of a run that is cut off |
| Upload.Client.Patch | admin/web/src/upload.ts:30-54 | a claimed end means the final file exists, except for an empty file and a success not the server's; a believed offset is the staged size; an undisturbed chunk at the staged size finishes |
| Upload.Client.Send | admin/web/src/upload.ts:37-53 | the same for the chunk itself, however its answer comes about; nothing changes if it never arrives |
| Upload.Client.Head | admin/web/src/upload.ts:24-27 | the client is told "complete" exactly when the server sees the final file, and otherwise the staged size, or 0 if the answer is not the server's or its Stat fails |
| Upload.Client.Execute | admin/main.go:387-420 | a chunk of the session, first or repeated, keeps every disk state safe and never removes the finished file |
| Upload.ChunkKeepsSession | admin/main.go:387-434 | every disk state inside a chunk's handling keeps "front staged, whole file final" |
| Upload.ChunkAnswers | admin/main.go:409-420 | a 2xx answer tells the truth: complete means the final file is there, otherwise the offset is the staged size |
| Upload.StagedStaysFront | admin/main.go:398-418 | an accepted chunk continues the file where staging stops; reaching the length means the file is whole |
| Upload.EmptyChunkFinishes | admin/main.go:398-418 | a whole but unfinalised upload is completed by an empty PATCH at offset = length |
| Upload.BudgetStep | admin/web/src/upload.ts:82-84 | total back-off of a run never exceeds 23,000 ms |
| Upload.BackoffTable | admin/web/src/upload.ts:83 | 1, 2, 4 and then 8 seconds |
| Upload.NumMeans | admin/web/src/upload.ts:18-21 | a usable header is taken at its word, an unusable one gives the fallback, a missing one 0 |
| Upload.CleanPatchExists | admin/main.go:173-191 | for every file there are exchanges in which nothing goes wrong, so the liveness claim is not empty |
| Traffic.SessionSurvivesTraffic | admin/main.go:342-434 | with any requests to other targets in between, any chunks of the session in any order and with any faults keep the target safe in every state the disk passes through, and no answer claims a completion that did not happen |
| Traffic.RequestKeepsSession | admin/main.go:239-482 | so does one request, in session or not |
| Volume.Vol.WriteChunk | admin/main.go:156-168 | a chunk is written, and exactly when 128 MiB are pending they are synced; unsynced bytes stay below 132 MiB |
| Volume.Vol.CopyCountedSynced | admin/main.go:173-191 | however it ends, the disk has the front of what the reader gave, growing, and all that arrived if writes work; the count misses at most one buffer whose write failed; on success all is counted, synced and hashed; without faults all is copied |
| Volume.CopyStep | admin/main.go:176-189 | one read-write turn extends what was copied by what was read, and a failed write by a front of it |
| Volume.Vol.RemoveAll | admin/main.go:476 | entries go one at a time: every state is the old one less some of what goes |
| Server.AppendStream | admin/main.go:211-221 | at most limit bytes are appended to the staging file; on success the count is exact |
| Server.FinalizePart | admin/main.go:226-235 | the digest is that of the staged bytes and the rename moves them whole, or nothing changes |
| Server.FinishUpload | admin/main.go:424-434 | 200 with the file in place and a sidecar attempt, or 500 with the disk unchanged |
| Server.Chunk | admin/main.go:394-419 | the handler computes Resume and ResumeReply and passes through their states only |
| Server.HandleUploadResume | admin/main.go:365-420 | the same for the whole request, header checks included; a stream that ends well has brought the whole chunk, one that breaks keeps what arrived |
| Server.FileTargetMeans | admin/main.go:306-316 | PUT and PATCH refuse no name, a trailing slash and an unknown category, and nothing else |
| Server.SaveStream | admin/main.go:239-262 | on success the file is the streamed body and the digest hashed on the way is the digest of the file; on failure the final name is untouched; on the way only a growing staging file and then the whole move |
| Server.StoreStream | admin/main.go:318-329 | target folders, stream and sidecar together, for a PUT and for a config save |
| Server.RecordSidecar | admin/main.go:265-268 | the sidecar line is written whole, cut short or not at all |
| Server.HandleUpload | admin/main.go:306-329 | the PUT handler computes Put and PutReply and passes through the states of PutPasses only; answered 201 it has stored the whole body, and without faults that is the answer |
| Server.HandleDelete | admin/main.go:453-482 | the DELETE handler computes Remove and RemoveReply, takes away only what goes in the end, and the sidecar not before its file |
| Server.RootIsDeletedExactly | admin/main.go:456-481 | a delete reaches the category root exactly when its path cleans to nothing and is not all slashes, and then nothing of the category is left |
| Handlers.SidecarReadsBack | admin/main.go:265-280 | reading a sidecar gives the hex digest that was written, whatever the file is called |
| Handlers.SidecarLineIs | admin/main.go:266 | digits, two spaces, file name, line end |
| Handlers.FirstFieldCounts | admin/main.go:271-280 | of any sidecar the first white-space separated field is read |
| Handlers.HexGivesBytesBack | admin/main.go:266 | two digits give each byte back, high half first |
| Handlers.BaseIsLastName | admin/main.go:266 | the name in the line is the last path segment |
| Handlers.VerifyComparesDigests | admin/main.go:528-551 | verification answers whether the file still has the recorded digest |
| Handlers.VerifyNeedsBoth | admin/main.go:528-551 | nothing is verified without a file and a recorded checksum |
| Handlers.NamesApart | admin/main.go:202-206 | a target, its staging file and its sidecar are different files, different targets' are too |
| Handlers.NamesAre | admin/main.go:202-206 | what is added to a name |
| Runs.QueryReportsExactSize | admin/main.go:342-361 | HEAD reports the exact size of the final or staged file, and whether it is final |
| Runs.ChunkEffects | admin/main.go:387-434 | 409 changes nothing and tells the staged size; an accepted chunk lands behind what is staged; 200 exactly when the whole staging file was moved |
| Runs.ChunkStatuses | admin/main.go:365-434 | which answer a PATCH gets, and with which size; a mismatched offset is always 409 with the staged size |
| Runs.LandedFits | admin/main.go:407-408 | never more than the declared length is taken, and all of a chunk that fits |
| Runs.LandsAtOffsetExactly | admin/main.go:398-408 | a chunk lands at its declared offset exactly when Stat worked or nothing was staged |
| Runs.FailedStatCorrupts | admin/main.go:398-418 | an input for which a failed Stat finalises a wrong file |
| Runs.UploadEffects | admin/main.go:239-262 | 201 leaves the body, no staging file and a verifying sidecar; failure leaves the final file alone |
| Runs.DeleteEffects | admin/main.go:453-482 | 204 removes the target, all below it, sidecar and staging file; 404 exactly when neither file exists |
| Runs.BadPathRefused | admin/main.go:97-108 | a refused path is answered 400 and changes nothing |
| Runs.BeneathMeans | admin/main.go:476 | beneath a directory is what goes on behind it with a slash |
| Runs.OthersUntouched | admin/main.go:239-482 | files outside the request's target are unchanged |
| Runs.FinalFileChangesWhole | admin/main.go:226-262 | a request keeps a final file, removes it, or replaces it by a whole staged upload or body |
| Runs.FinalFileIsNeverPartial | admin/main.go:226-262 | in every state the disk passes through, a final file is as before the request or as after it |
| Runs.RequestIsLocal | admin/main.go:342-482 | a request's answer and effect depend on its target's three files only |
| Runs.TargetsAreIndependent | admin/main.go:306-482 | in any interleaving a target ends up as if its own requests had been the only ones |
| Runs.StagedNeverOutgrows | admin/main.go:407-408 | over any run, staging stays within Upload-Length if it started within it |
| Runs.FinishedLengthExactly | admin/main.go:407-419 | a finished upload has the larger of staged and declared length, so the declared one exactly when staging did not exceed it |
| Runs.EveryFinishedFileHasItsLength | admin/main.go:407-419 | over any run of chunks that declare n, started within it, every final file has n bytes |
| Runs.OverlongStagingIsFinalised | admin/main.go:407-419 | an input outside the bound: a longer staging file is finalised as it is |
| Runs.EveryRecordVerifies | admin/main.go:226-303 | over any run with working sidecar writes and removals, every file with a sidecar verifies |
| Runs.RequestKeepsIntact | admin/main.go:424-434 | each request keeps the integrity record |
| Runs.AuditCountsCompletions | admin/main.go:718-743 | 200 rows for PATCH count completed uploads, other PATCH rows count failures that are not offset mismatches |
| Runs.AuditOfOne | admin/main.go:733-739 | one request adds at most one row, of the right kind |
| Runs.AuditRecords | admin/main.go:718-743 | every PUT and DELETE is recorded with its status, every PATCH but 204 and 409 too, HEAD never |
| Paths.ResolvesBeneathRoot | admin/main.go:97-108 | every relative path lands on or strictly beneath the category root, its cleaned segments below it; the guard never fires |
| Paths.ResolveIsIdempotent | admin/main.go:101-103 | resolving the cleaned path gives the same place |
| Paths.CleanSegments | admin/main.go:101 | cleaning leaves no empty, dot or dot-dot segment and is idempotent |
| Paths.CleanLaws | admin/main.go:101 | the five laws that fix what any path cleans to |
| Paths.CleanRenders | admin/main.go:101 | a cleaned path is its segments, each behind a slash |
| Paths.ResolvedPathIs | admin/main.go:97-108 | data directory, category and cleaned path one below the other, for exactly three categories |
| Paths.DeleteGuardCoversSlashesOnly | admin/main.go:456-458 | which paths reach the category root, and that the guard refuses only those made of slashes |
| Padding.UnpadInvertsPad | admin/secret.go:67-90 | unpadding accepts exactly the padded strings and returns what was padded |
| Padding.PaddedBytes | admin/secret.go:67-74 | one to sixteen bytes up to the next block, each saying how many |
| Padding.Pkcs7Pad | admin/secret.go:67-74 | the buffer-filling loop computes the padding |
| Cbc.DecryptInvertsEncrypt | admin/secret.go:108-146 | CBC decryption undoes encryption for any block permutation |
| Cbc.EncryptInvertsDecrypt | admin/secret.go:108-146 | and encryption undoes decryption |
| Cbc.EncryptIsChained | admin/secret.go:108 | each ciphertext block is the encryption of its plaintext combined with the block before (section 6.2 of NIST SP 800-38A) |
| Cbc.XorIsBitwise | admin/secret.go:108 | blocks are combined bit by bit, set where exactly one is set |
| Cbc.CryptBlocksInPlace | admin/secret.go:107-108 | encrypting a buffer over itself computes CBC |
| Cbc.DecryptBlocks | api/crypto.go:85-86 | decrypting into a second buffer computes CBC decryption |
| Base64.DecodeInvertsEncode | admin/secret.go:113-124 | decoding gives back every byte string |
| Base64.ReencodeExactly | admin/secret.go:124 | decoded text re-encodes to itself exactly when it had no newline and no spare bits |
| Base64.StandardVectors | admin/secret.go:113 | test vectors of RFC 4648 |
| Base64.AlphabetIs | admin/secret.go:113 | the alphabet of RFC 4648 |
| Base64.SameBits | admin/secret.go:113 | three bytes and four letters spell the same 24 bits |
| Base64.AcceptedTexts | admin/secret.go:124 | exactly whole quanta of the alphabet, padded at the very end, decode |
| Base64.NewlinesDoNotMatter | admin/secret.go:124 | a line end changes nothing |
| Envelope.OpenInvertsSeal | admin/secret.go:107-151 | a blob opens to p exactly when it is iv, ciphertext and MAC of p under its own IV |
| Envelope.EnvelopeLayout | admin/secret.go:95-114 | IV, ciphertext under the key labelled "enc", MAC of both under the key labelled "mac" |
| Envelope.OpenedBlobIs | admin/secret.go:127-151 | what opens has the right MAC of everything before it, the IV included, and is decrypted under the key labelled "enc" |
| Envelope.DecryptedValueIs | api/crypto.go:57-70 | without the prefix a value is returned as it is, with it only if a key and a blob that opens are there |
| Envelope.DecryptInvertsEncryptSecret | admin/secret.go:95-152 | a stored secret decrypts to what was entered exactly when that was not itself an envelope; encrypting again changes nothing |
| Envelope.PlainIsShorter | admin/secret.go:117-152 | an accepted envelope is longer than its secret |
| Envelope.EncryptSecretInPlace | admin/secret.go:95-114 | the admin's encoder computes the envelope, stated byte for byte with its key labels |
| Envelope.ApiDecryptSecret | api/crypto.go:57-88 | the API's separate decoder computes the admin's decryption |
| Envelope.ApiUnpad | api/crypto.go:90-104 | the API's unpadding loop agrees with the admin's |
| Config.EncryptConfigJson | admin/secret.go:180-204 | the key loop keeps, drops or encrypts each secret field, in any key order |
| Config.MaskConfigJson | admin/secret.go:162-175 | the masking loop, in any key order |
| Config.SecretNames | admin/secret.go:63-65 | a field is secret exactly when its name ends in "pass", in any case |
| Config.SaveByName | admin/secret.go:180-221 | what a save stores of one field, by its name: dropped, kept, sealed or as it is |
| Config.MaskByName | admin/secret.go:162-175 | what a load shows of one field, by its name |
| Config.RestUntouched | admin/secret.go:162-204 | neither touches anything outside the unattend block |
| Config.MaskSeesOnlySetness | admin/secret.go:162-175 | two stored configs look alike to the editor exactly when they differ only in secret values |
| Config.SaveLeavesSecretsSet | admin/secret.go:185-202 | after a save every secret field present is a non-empty string |
| Config.KeepPreservesExactly | admin/secret.go:209-234 | KEEP preserves a set secret exactly when the previous file has no byte-order mark |
| ConfigHandlers.HandleConfigPut | admin/main.go:583-614 | a config save leaves the disk a PUT of the prepared bytes leaves, all of them if it succeeds, passing through that PUT's states only; refused, it changes nothing; without faults it is answered 201 |
| ConfigHandlers.SavedIsOnDisk | admin/main.go:583-614 | 201 leaves on disk what EncryptConfig makes of body and previous file; any other answer leaves every file but the staging one |
| ConfigHandlers.WholeBodyCounts | admin/main.go:592-597 | a body of up to 1 MiB counts whole |
| ConfigHandlers.SomeCodecAgrees | admin/secret.go:180-204 | what is asked of parser and printer can be met, with texts that hold any password in the clear |
| ConfigHandlers.GetShowsOnlySetness | admin/main.go:558-578 | a config GET answers alike for two files exactly when they differ only in secret values |
| ConfigHandlers.GetAnswers | admin/main.go:558-578 | which answer a config GET gets |
| PlainStore.SaveRefinesExactly | admin/secret.go:180-221 | one save matches the plaintext machine exactly when nothing submitted looks like an envelope |
| PlainStore.AcceptedExactly | admin/secret.go:180-203 | whether a save is accepted does not depend on what was stored |
| PlainStore.StoreRefinesPlain | admin/secret.go:180-221 | over every run of saves and removals each file decrypts to the plaintext machine's, also where a previous file could not be read |
| PlainStore.SecretsSealedAtRest | admin/secret.go:95-221 | with a key, no run leaves a secret field unencrypted |
| PlainStore.SaveSealsExactly | admin/secret.go:95-221 | over a sealed file a save leaves its secrets sealed exactly when there is a key or nothing was submitted in the clear |
| PlainStore.ServesPlainOverlay | api/config.go:93-110 | the API serves the overlay of the plaintext machine's default and per-machine configs |
| ConfigRuns.SaveStep | admin/main.go:583-614 | a save takes the file on disk where the store's own step goes, and is answered 201 exactly when the plaintext machine performs it |
| ConfigRuns.DiskIsStore | admin/main.go:453-614 | after any run of config saves, deletes and other requests the config files on disk are those of the encrypted store |
| ConfigRuns.DiskRefinesPlain | admin/secret.go:180-221 | each of them decrypts to the plaintext machine's file, and there is one exactly where that machine has one |
| ConfigRuns.DeleteTakes | admin/main.go:453-482 | a delete answered 204 takes the config files at and beneath its target, any other answer but a failed RemoveAll none |
| ConfigRuns.OneSaveIsARun | admin/main.go:583-614 | on an empty volume, saving a password is a run of this kind and leaves the file |
| ConfigRuns.RawUploadSealsExactly | admin/main.go:306-434 | a PUT, PATCH or DELETE of the file endpoints keeps the config files sealed exactly when what it puts under a config file's name is sealed |
| ConfigRuns.SaveOnDiskSealsExactly | admin/main.go:583-614 | a config save does exactly when there is a key or nothing is submitted in the clear |
| ConfigRuns.RunSealsExactly | admin/main.go:306-614 | over any run, no config file holds a secret in the clear after any request exactly when no request stores one |
| ConfigRuns.SealedOnTheWay | admin/main.go:226-262 | nor in any state the disk passes through while a request is handled |
| ConfigRuns.SecretsSealedOnDisk | admin/secret.go:95-221 | with a key, and raw uploads to config files sealed, no save of a run leaves a secret in the clear on disk |
| ConfigRuns.RawUploadStoresInTheClear | admin/main.go:306-329 | an input outside that bound: a PUT straight to a config file |
| ConfigRuns.ServesPlainFromDisk | api/config.go:26-110 | from such a disk the API serves the overlay of the plaintext machine's files |
| ConfigRuns.ServedFieldByField | api/config.go:26-110 | field by field what a machine is served from the files on disk |
| ConfigRuns.NotEnrolled | api/config.go:93-100 | no machine is served without its own file, and every one with it is answered |
| ConfigRuns.ApiFilesAreSavedByName | api/config.go:94-101 | the files the API reads are the ones config saves reach as default.json and machines/<serial>.json |
| Resolve.OverlayKeyByKey | api/config.go:43-68 | per-machine values win, unattend is merged field by field |
| Resolve.UnattendSlot | api/config.go:53-67 | the merged block replaces the default's, unless it is empty |
| Resolve.ServedField | api/config.go:71-88 | every string of the block is served decrypted, everything else as stored |
| Resolve.DecryptCommutesWithMerge | api/config.go:43-88 | decrypting the overlay equals overlaying the decrypted |
| Resolve.ResolutionFailsExactly | api/config.go:71-88 | resolution fails exactly when a winning unattend string does not decrypt |
| Resolve.MergeDocs | api/config.go:43-68 | the merged document's unattend block is new, or the default's own when empty |
| Resolve.DecryptBlock | api/config.go:76-86 | the in-place loop decrypts every field or stops, and writes no other object |
| Resolve.DecryptDoc | api/config.go:71-88 | the document decrypts in place |
| Resolve.ResolveDocs | api/config.go:93-110 | merging and decrypting writes to neither input, whatever is shared |
| Editor.BuildUnattend | admin/web/src/MachinesTab.tsx:130-147 | the assignments build the sparse unattend block |
| Editor.PasswordSent | admin/web/src/MachinesTab.tsx:123-147 | a typed password is sent as typed, a blank one as KEEP if stored, else not |
| Editor.TextSent | admin/web/src/MachinesTab.tsx:130-147 | a text field is sent trimmed unless blank, a domain field only with the switch on |
| Editor.BlockSent | admin/web/src/MachinesTab.tsx:158 | the unattend block is sent exactly when it has a field |
| Editor.BuildConfig | admin/web/src/MachinesTab.tsx:150-160 | the assignments build the sparse override |
| Editor.TopSent | admin/web/src/MachinesTab.tsx:150-160 | mode as chosen, three texts trimmed, the switch always, nothing else |
| Editor.TypedPasswordIsStored | admin/secret.go:180-221 | end to end: a typed password is on disk sealed and decrypts to what was typed |
| Editor.TrimStrips | admin/web/src/MachinesTab.tsx:133-140 | trimming takes white space off both ends and nothing else |
| Editor.LeadSpaceIs | admin/web/src/MachinesTab.tsx:133-140 | white space in front is ECMAScript's, in UTF-8 |
| Editor.TrailSpaceIs | admin/web/src/MachinesTab.tsx:133-140 | and at the end |
| Editor.TruthyMeans | admin/web/src/MachinesTab.tsx:175-176 | which values of a field count as false |
| Editor.ReloadedForm | admin/web/src/MachinesTab.tsx:162-187 | the form a masked config opens as |
| Editor.UntouchedSends | admin/web/src/MachinesTab.tsx:123-147 | an untouched form sends every field back, passwords as KEEP, domain fields only with a domain |
| Editor.SavedIsFormShaped | admin/web/src/MachinesTab.tsx:150-160 | the shape of every config saved from a form |
| Editor.UntouchedSave | admin/secret.go:180-221 | what load and untouched save leave on disk |
| Editor.UntouchedSaveKeepsExactly | admin/web/src/MachinesTab.tsx:162-187 | an untouched save leaves the file identical, secrets included, exactly when it is stable |
| Editor.SavedFormIsStable | admin/web/src/MachinesTab.tsx:265-285 | the config a form saves is one untouched saves keep exactly when the form names a mode, some field reaches the file if any is sent, and no domain field reaches it without a domain |
| Editor.ReachesExactly | admin/secret.go:180-221 | a sent field reaches the file exactly when it is not a kept password that was never stored |
| Editor.NamedFormStays | admin/web/src/MachinesTab.tsx:265-285 | with a mode, and a domain if it joins one, only a form that sends nothing but dangling KEEPs does not stay |
| Editor.DanglingKeepIsNotStable | admin/secret.go:196-197 | such a form |
| Recent.Machines.RecordMachine | api/main.go:73-88 | the report is stored and, at capacity, an oldest entry goes; the size never exceeds 2048 |
| Recent.Machines.Snapshot | api/main.go:90-98 | one entry for each machine held |
| Recent.HoldsExactlyMostRecent | api/main.go:73-88 | after any run under an increasing clock the map holds exactly the 2048 most recent reporters with their last reports |
| Recent.ReportKeepsMostRecent | api/main.go:76-87 | one report keeps that |
| Events.TableIsSuffix | admin/store.go:53-91 | after any run of inserts and prunes the table is the tail of all inserts |
| Events.PrunedIsSuffix | admin/store.go:55-57 | the DELETE leaves the newest n rows |
| Events.PageIsNewest | admin/store.go:95-124 | a page holds matching rows, newest first, and misses one only if full of newer ones |
| Events.PruningKeepsPages | admin/store.go:95-124 | a page of a pruned table is the front of the page of the whole history |
| Events.FleetIsFold | admin/store.go:129-153 | the fleet query lists each machine once, with the last status of a fold, whatever the clocks say |
| Events.FleetExists | admin/store.go:129-153 | every table has such an answer |
| Events.LexLeMeans | admin/store.go:136 | the order of the fleet: the first difference of two times decides |
| Events.PruningNeverAges | admin/store.go:129-153 | pruning forgets machines but never brings back an older status |
| Events.FleetAgreesWithHistory | admin/store.go:53-153 | after any run the fleet is the last statuses ever that were kept |
| Events.Store.AddStatus | admin/store.go:66-71 | inserts a status row |
| Events.Store.AddLog | admin/store.go:76-84 | inserts a log row with the machine's time if it gave one |
| Events.Store.AddAudit | admin/store.go:86-91 | inserts an audit row |
| Events.Store.PruneTables | admin/store.go:53-62 | prunes both tables, stopping at the first failure |
| Unattend.SetUnattend | Deploy/DeployEngine.psm1:322-331 | the loop replaces key after key; if the values keep apart the outcome is the simultaneous substitution, and if they are quiet the leftovers are the unfilled tokens, each once |
| Unattend.OrderNeverShowsExactly | Deploy/DeployEngine.psm1:324-328 | the outcome is the same in every key order, for every template, exactly when no value holds or can complete another key's token; then it is the simultaneous substitution |
| Unattend.ClashMakesOrderShow | Deploy/DeployEngine.psm1:324-328 | otherwise a template and two key orders with different outcomes |
| Unattend.LeftoversExactly | Deploy/DeployEngine.psm1:330 | the warning lists the unfilled tokens, in every template, exactly when no value holds or can complete what looks like a token |
| Unattend.EscapedReadsBack | Deploy/DeployEngine.psm1:326 | an escaped value is read back by XML as the value it was |
| Unattend.EscapeLiterals | Deploy/DeployEngine.psm1:326 | character by character: five entities, everything else as it is |
| Unattend.TokenFilled | Deploy/DeployEngine.psm1:324-328 | a token in plain text is filled with the escaped value |
| Unattend.EscapedHasNoMarkup | Deploy/DeployEngine.psm1:326 | an escaped value holds no angle bracket and no quote |
| Unattend.ReplaceFillsOne | Deploy/DeployEngine.psm1:327 | one replacement substitutes exactly one token, if it passes over the values already put in or stands for itself |
| Unattend.MatchesAreTokens | Deploy/DeployEngine.psm1:330 | the pattern finds exactly the tokens with an upper-case name, also behind values with settled braces |
| Unattend.TokenIsReported | Deploy/DeployEngine.psm1:330 | exactly names of capital letters, digits and underscores are reported |
| Unattend.UnfilledTokens | Deploy/DeployEngine.psm1:330-331 | a token is left over exactly when it has no value |
| Unattend.UniqueSame | Deploy/DeployEngine.psm1:330 | duplicates are listed once |
| Unattend.UniqueGrows | Deploy/DeployEngine.psm1:330 | in the order they are first met |
| Unattend.BracesMakeOrderMatter | Deploy/DeployEngine.psm1:324-328 | an instance: one key's token as another's value |
| Wim.PackUnpacks | admin/wim.go:98-100 | size and flags come back from the packed word |
| Wim.UnpackPacks | admin/wim.go:98-100 | and every word is the packing of its parts |
| Wim.EightBytesRead | admin/wim.go:98 | eight bytes, lowest first |
| Wim.ReshdrBytes | admin/wim.go:98-100 | seven bytes of size, one of flags |
| Wim.Utf16RoundTrips | admin/wim.go:117-126 | text behind a byte-order mark comes back; without one, exactly when it does not begin with U+FEFF |
| Wim.OnlyScalarsComeOut | admin/wim.go:117-126 | whatever the bytes, only scalar values come out |
| Wim.LoneSurrogates | admin/wim.go:117-126 | a surrogate that is not half of a pair is U+FFFD |
| Wim.OddByteDropped | admin/wim.go:122 | an odd last byte is dropped |
| Wim.DecodeUtf16LeLoop | admin/wim.go:117-126 | the index loop computes the decoding |
| Wim.WimTextIsFound | admin/wim.go:82-113 | the metadata of any well-formed file is read back, exactly when uncompressed and within 64 MiB |
| Wim.WimXmlByOffsets | admin/wim.go:82-113 | what is read from which offset, and what is refused |
| Wim.StandardExamples | admin/wim.go:115-126 | examples of RFC 2781 |

## Left out

- HTTP routing, authentication, TLS, metrics and logging; a request reaches the model as its parsed parameters.
- Overlapping handlers for one target: the code takes no lock, and the theorems assume they do not overlap.
- JSON text: a config is a map from keys to JSON values, and parser and printer are any pair that reads back what a
  save prints of texts it parsed (`ConfigHandlers.Agrees`; `ConfigHandlers.SomeCodecAgrees` gives one). Only the
  byte-order mark and unparsable files are kept apart.
- AES, SHA-256 and HMAC themselves, and the quality of random IVs; the key derivation labels are modelled.
- int64 bounds: offsets and lengths are unbounded integers, and browser numbers above 2^53 are exact.
- Directories that MkdirAll creates: only its success or failure is modelled. Directories already there are.
- The page cache: bytes written but not synced are not lost in a crash of the node.
- ConfigRuns.DiskRefinesPlain: the other requests of a run change no config file; one uploaded straight to a config
  file is stored as it is, which `ConfigRuns.RunSealsExactly` and `ConfigRuns.RawUploadStoresInTheClear` are about.
- Server.HandleDelete: a folder that MkdirAll created is not on the modelled disk, so deleting one is answered 404 here
  and 204 by the program.
- Recent.HoldsExactlyMostRecent: assumes strictly increasing clock readings; with equal ones any of the oldest may go.
- Unattend.SetUnattend: states the substitution for key names without braces.
- Runs.AuditCountsCompletions: audit inserts are taken to succeed.
- Of an audit row only the method and the status: action, category, path, source and size are not modelled.
- Upload.Client.ResumableUpload: handlers for one target are serialised.
- Sidecars with white space outside ASCII before the digest, which the program never writes.
- Form fields whose stored value is not a string, as in a hand-edited config.
- The order of upload progress callbacks, and cancelling an upload in the browser.
- XML parsing of WIM metadata, the architecture table, UTF-8 encoding of the decoded text.
- Writing the filled unattend file to the target disk.
- The configuration loader, policy evaluation, telemetry forwarding and every user-interface component.
