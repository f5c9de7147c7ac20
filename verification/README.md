# Verification of veilite's authenticated readers

veilite reads SQLCipher databases without SQLCipher: it authenticates and decrypts pages one by one and presents an
encrypted file as a flat plaintext SQLite image. This project models that reader, the page format below it, the WAL
arithmetic beside it and the command-line loops on top of it, and proves what they promise.

How the system is modelled:

- AES-256, HMAC and PBKDF2 are uninterpreted functions (`Primitives`). All that is assumed of them is that every key permutes
  the 16-byte blocks and that a MAC has the length of its hash. CBC, the page layout and the key set-up are written out.
- Buffers that the source fills, decrypts or clears in place are arrays, and its readers, sources, snapshots and files are
  classes. Each method is tied to a function of its inputs and the old state: `DecryptPage` for one page, `Scan` and
  `ReadRange` for the reader, `FileRun` for short reads, `Repaired` for the WAL, `VisitTo`, `DeliverTo` and `ExportRun` for
  the drivers. The theorems are about those functions.
- A source holds fixed bytes and a list of the coming operations that fail (`Faults`); a file system is a map from paths to
  contents with such a list of its own (`Disk`); an input stream is a script of read results. A theorem that mentions
  `FaultFree` speaks of an environment that never fails, every other theorem of all environments.
- 32-bit and 64-bit values are bounded integers, with checked, saturating and wrapping operations written out. Error branches
  of the source that cannot be taken are kept in the methods, and the contracts show that they are never taken.
- `Image` is the concatenation of the decrypted pages; a page that does not decrypt stands in it as zeros, and no successful
  read ever returns bytes of such a page.
- The closures handed to `visit_pages` and `write_plaintext_file` are the values `PageCallback` and `PageWriter`.
- `ReaderError::UnexpectedEof` is called `UnexpectedEnd`, to keep it apart from the I/O error of that name.

Main results:

1. A page decrypts to `plain` exactly when it is an encryption of the well-formed page `plain`
   (`Encryptor.AcceptedPages`), and authentication fails for exactly those pages that are no encryption of anything,
   under any salt bytes, IV and filler (`Encryptor.AuthenticationFailsExactly`). The stored form itself is fixed in plain
   offsets, numbers and bits (`PageFormat.DecryptsExactly`, `CbcChaining.DecryptChains`), and so are the keys
   (`KeyDerivation.KeysAreDerived`).
2. Encrypting a whole image, opening the file and reading any range returns that slice of the image
   (`EncryptedDatabases.DatabaseRoundTrip`); all pages of a file decrypt exactly when the file is the encryption of a
   well-formed image (`EncryptedDatabases.VerifiedExactly`).
3. A range read returns the slice of the image or clears the buffer, by either of its two paths
   (`Reader.SqlCipherReader.ReadExactAt`); it stops at the first failing page (`RangeReads.FirstFailureReported`), composes,
   errors included (`RangeReads.RangesCompose`), and depends on nothing but the pages it touches (`RangeReads.ReadsAreLocal`).
4. The WAL size bound selects an image exactly when its extra pages can each have a complete frame (`Snapshot.BoundIsExact`).
5. A WAL is consistent exactly when every frame stores the Fibonacci-weighted sums of its words and of the sums before
   (`WalFibonacci.ConsistentExactly`); checksum repair is its one consistent completion
   (`WalChecksums.ConsistentIsUnique`). What the chain shows is settled exactly: damage to one frame changes its checksum and every later one, unless the word differences of the frame
   absorb from zero to zero, and then it changes none (`WalDetection.FrameDamageExactly`, and for any number of frames
   `WalDetection.HiddenEverywhereExactly`). Damage to one eight-byte chunk is never hidden
   (`WalDetection.DamageIsDetected`). Damage behind a repaired chain is left to page authentication, which rejects it unless
   the HMAC of two different inputs collides (`WalDamage.DamageFailsAuthentication`).
6. Exports never change an existing file and leave the whole image or nothing, unless the removal fails and the error says so
   (`ExportRuns.ExportOutcome`); they succeed exactly when no page and no operation, the sync included, fails
   (`ExportRuns.ExportSucceedsExactly`).
7. The storage-engine codec decodes exactly the encryptions of well-formed pages in range, from the WAL as from the main file
   (`CodecPages.DecodesExactly`).

Two observations about the code. A file source accepts an empty read at any offset where a slice source rejects one beyond its
end (`Sources.FileAgreesWithSlice`); the reader never asks for an empty range. And the checksum chain
does not show all damage: a payload chunk can be replaced by anything else if the chunk behind it in the same frame is changed
with it (`WalDetection.TwoChunksCanHide`; `WalDetection.HiddenDamageExample` does it in a file of 72 bytes). A frame's last chunk
has none behind it, and what is not hidden within its frame shows in a checksum, whatever later frames hold
(`WalDetection.HiddenEverywhereExactly`).

## Model

| member | source | states |
|---|---|---|
| Config.AcceptedSettings | crates/veilite-core/src/config.rs:77-98 | a configuration is accepted exactly for the seven page sizes and 1 to 2^31-1 iterations; a bad page size is reported first |
| Config.LayoutFits | crates/veilite-core/src/config.rs:126-139 | reserve is 48 or 80 and holds IV and MAC; the usable part is at least 944 bytes and a multiple of the cipher block |
| Bits.XorExactly | crates/veilite-core/src/decryptor.rs:92 | exclusive or is the one byte whose every bit, taken by division, is the parity of the two bits |
| KeyDerivation.HmacSaltExactly | crates/veilite-core/src/decryptor.rs:92 | the HMAC salt is the database salt with exactly bits 1, 3, 4 and 5 of each byte inverted |
| Decryptor.HmacSaltIsDistinct | crates/veilite-core/src/decryptor.rs:92 | the salt of the HMAC key differs from the database salt in every byte and determines it |
| KeyDerivation.KeysAreDerived | crates/veilite-core/src/decryptor.rs:92-110 | the encryption key is PBKDF2 of passphrase, salt and the configured count; the HMAC key is the encryption key of a set-up with that key as passphrase, the masked salt and two iterations |
| KeyDerivation.HmacKeyFollowsEncryptionKey | crates/veilite-core/src/decryptor.rs:104-110 | passphrase and iteration count reach the HMAC key through the encryption key alone |
| Decryptor.KeysIgnoreLayout | crates/veilite-core/src/decryptor.rs:97-110 | neither key depends on the page size or the HMAC algorithm |
| CbcChaining.DecryptChains | crates/veilite-core/src/decryptor.rs:169-173 | every plaintext bit is the parity of the decrypted block's bit and the same bit of the IV or of the ciphertext block before |
| CbcChaining.EncryptChains | crates/veilite-core/src/decryptor/tests.rs:165-167 | a ciphertext block encrypts exactly the block whose bits are the parities of the plaintext and of the IV or the ciphertext block before |
| CbcChaining.ChangedIv | crates/veilite-core/src/decryptor.rs:169-173 | changing one byte of the IV changes that byte of the plaintext and no other |
| Cbc.DecryptUndoesEncrypt | crates/veilite-core/src/decryptor/tests.rs:165-167 | CBC decryption inverts CBC encryption for every key, IV and block-aligned text |
| Cbc.EncryptUndoesDecrypt | crates/veilite-core/src/decryptor.rs:169-173 | CBC encryption inverts CBC decryption |
| Cbc.DecryptInPlace | crates/veilite-core/src/decryptor.rs:169-173 | the in-place block loop replaces exactly the given region by its CBC decryption |
| Cbc.EncryptInPlace | crates/veilite-core/src/decryptor/tests.rs:165-167 | the in-place block loop replaces exactly the given region by its CBC encryption |
| PageFormat.Layout | crates/veilite-core/src/config.rs:126-139 | MACs of 20, 32 and 64 bytes, and reserves of 48, 48 and 80 |
| PageFormat.DecryptsExactly | crates/veilite-core/src/decryptor.rs:147-197 | by offsets and numbers: a page is accepted exactly when its MAC is that of body, IV and little-endian number and, on page 1, size field and reserve byte fit; the result is the decrypted body between the magic and a zero reserve, the error is the first mismatch |
| Decryptor.PageSizeFieldIsUnique | crates/veilite-core/src/decryptor.rs:256-263 | each accepted page size has exactly one two-byte header encoding; 65,536 is written as 1 |
| Decryptor.HeaderErrors | crates/veilite-core/src/decryptor.rs:178-192 | the header fits for one size field and one reserve byte only, and a wrong size is reported before a wrong reserve |
| Decryptor.HmacInputDetermines | crates/veilite-core/src/decryptor.rs:220-247 | the MAC input determines body, IV and page number |
| Decryptor.SameMacMeansCollision | crates/veilite-core/src/decryptor.rs:162-167 | two accepted pages with one MAC that differ in number, body or IV are a collision of the HMAC on their two inputs |
| Decryptor.DecryptPageInPlace | crates/veilite-core/src/decryptor.rs:126-145 | the buffer ends as the decrypted page, or as zeros with the reason, for every buffer length |
| Decryptor.DecryptPageInPlaceInner | crates/veilite-core/src/decryptor.rs:147-197 | authenticates before decrypting, restores the magic, checks the header in order and clears the reserve |
| Encryptor.EncryptPageInPlace | crates/veilite-core/src/decryptor/tests.rs:150-180 | the successive in-place writes produce the stored form of a page, for every page number, IV, filler and hash |
| Encryptor.DecryptOfEncrypted | crates/veilite-core/src/decryptor/tests.rs:113-148 | an encrypted page decrypts to its body with magic and zero reserve, or to exactly its header mismatch |
| Encryptor.RoundTrip | crates/veilite-core/src/decryptor.rs:147-197 | decryption inverts encryption on every well-formed page |
| Encryptor.EncryptOfDecrypted | crates/veilite-core/src/decryptor.rs:147-197 | a page that decrypts is well formed and its stored bytes are its own encryption |
| Encryptor.AcceptedPages | crates/veilite-core/src/decryptor.rs:147-197 | a stored page decrypts to `plain` if and only if it is an encryption of the well-formed page `plain` |
| Encryptor.AuthenticationFailsExactly | crates/veilite-core/src/decryptor.rs:162-167 | authentication fails if and only if the page is not the encryption of any page under any salt bytes, IV and filler |
| Encryptor.OnlyAuthenticatedBytesMatter | crates/veilite-core/src/decryptor.rs:153-167 | neither filler nor, on page 1, the salt bytes influence decryption |
| Encryptor.ChangedByteIsNoticed | crates/veilite-core/src/decryptor.rs:153-167 | changing any one body or IV byte of a page that decrypts changes the MAC input: authentication fails unless the HMAC collides |
| Encryptor.ChangedMacIsNoticed | crates/veilite-core/src/decryptor.rs:162-167 | changing any one byte of the stored MAC of a page that decrypts always makes authentication fail |
| Encryptor.FirstPageIsWellFormed | crates/veilite-core/src/decryptor/tests.rs:161-162 | every configuration has a well-formed first page |
| Sources.ReadSource.ReadExactAt | crates/veilite-core/src/source.rs:10-19 | a source operation returns the requested bytes, end of file beyond them, or its fault |
| Sources.SliceReadExactAt | crates/veilite-core/src/source.rs:43-62 | copies the exact range or leaves the output as it was, with overflow and end of file told apart |
| Sources.FileSource.ReadExactAt | crates/veilite-core/src/source.rs:110-133 | the short-read loop terminates with the requested range or the first stop's error; the offset never overflows |
| Sources.FileSucceedsExactly | crates/veilite-core/src/source.rs:110-133 | for every script of counts and failures the loop succeeds if and only if the bytes are there and nothing stops it before it is complete |
| Sources.ProgressDecides | crates/veilite-core/src/source.rs:110-133 | with positive counts the loop succeeds exactly when the bytes are there |
| Sources.FirstStopDecides | crates/veilite-core/src/source.rs:122-131 | a zero count or a failing call before completion decides the result |
| Sources.NoStopDecides | crates/veilite-core/src/source.rs:110-133 | without such a stop the result depends on the available bytes alone |
| Sources.SliceMeetsContract | crates/veilite-core/src/source.rs:43-62 | the slice source meets the contract of a source for every range; an overflowing range counts as a fault of its own |
| Sources.FileMeetsContract | crates/veilite-core/src/source.rs:110-133 | the file source meets the contract under some fault, and under none if nothing stops it, exactly if the read is not empty or starts within the source |
| Sources.FileAgreesWithSlice | crates/veilite-core/src/source.rs:43-62 | file and slice sources agree, for every range and script, if and only if no step stops an in-bounds read and no empty read lies beyond the end |
| Databases.LengthErrors | crates/veilite-core/src/reader.rs:111-130 | empty, short and ragged files, and too many pages, are each refused with their own error, and nothing else is |
| Databases.OpenErrors | crates/veilite-core/src/reader.rs:107-133 | whatever fails, the first problem in the order length, its value, salt, passphrase decides |
| Databases.OpenSucceedsExactly | crates/veilite-core/src/reader.rs:102-141 | a fault-free open succeeds exactly for whole pages, 1 to 2^32-1 of them, and a passphrase |
| Databases.Database.ImagePage | crates/veilite-core/src/reader.rs:210-213 | page n of the flat image is the n-th decrypted page |
| Reader.SqlCipherReader.Open | crates/veilite-core/src/reader.rs:102-141 | opening returns a reader with file size = pages times page size, or the first thing wrong, in the source's order |
| Reader.SqlCipherReader.ReadPageInto | crates/veilite-core/src/reader.rs:168-208 | one source operation yields the decrypted page; every failure clears the buffer; an offset overflow cannot occur |
| Reader.SqlCipherReader.ReadExactAt | crates/veilite-core/src/reader.rs:214-229 | the output is the slice of the image, or zeros with the specified error; an empty read touches nothing |
| Reader.SqlCipherReader.ReadExactAtNonempty | crates/veilite-core/src/reader.rs:231-306 | the range checks and both paths meet the one specification `ReadRange` |
| Reader.SqlCipherReader.ReadAlignedPage | crates/veilite-core/src/reader.rs:258-267 | the fast path for one aligned page yields the slice and uses one source operation |
| Reader.SqlCipherReader.ReadPieces | crates/veilite-core/src/reader.rs:268-305 | the page loop yields the slice, reading each touched page once in order |
| Reader.CopiedPiece | crates/veilite-core/src/reader.rs:272-289 | each turn copies the right piece of the image and then enters the next page or is done |
| RangeReads.FirstFailureReported | crates/veilite-core/src/reader.rs:271-303 | the scan ends at the first page whose read or decryption fails, with that failure, for any faults |
| RangeReads.ScanSound | crates/veilite-core/src/reader.rs:210-213 | a scan that succeeds has authenticated every page, whatever the source did |
| RangeReads.FaultFreeRange | crates/veilite-core/src/reader.rs:214-306 | with a source that never fails a read succeeds exactly when every touched page decrypts, and returns the slice |
| RangeReads.LowestBadPageReported | crates/veilite-core/src/reader.rs:271-303 | the lowest-numbered touched page that does not decrypt is reported with its own error |
| RangeReads.RangeErrors | crates/veilite-core/src/reader.rs:236-253 | offset overflow and end of file are reported, with offset, length and file size, exactly when they occur; only source and decryption errors remain |
| RangeReads.RangeBytes | crates/veilite-core/src/reader.rs:210-213 | each byte of a successful read is the matching byte of an authenticated page |
| RangeReads.RangesCompose | crates/veilite-core/src/reader.rs:214-306 | an in-bounds range reads as its two parts: their bytes one after the other, or the error of the first part that fails; beyond the end neither way succeeds |
| RangeReads.ReadsAreLocal | crates/veilite-core/src/reader.rs:271-303 | a read depends on the touched pages alone |
| EncryptedDatabases.DatabaseRoundTrip | crates/veilite-core/src/reader.rs:102-306 | encrypt any well-formed image, open it, read any in-bounds range: the result is that slice |
| EncryptedDatabases.OnlyTheImageIsRead | crates/veilite-core/src/reader.rs:102-306 | whatever operations fail, a successful read of an encrypted image returns its slice |
| EncryptedDatabases.VerifiedIsEncryption | crates/veilite-core/src/decryptor.rs:147-197 | a file whose pages all decrypt is the encryption of the image that reading it returns |
| EncryptedDatabases.VerifiedExactly | crates/veilite-cli/src/main.rs:490-495 | all pages decrypt if and only if the file is an encryption of some well-formed image under its own salt |
| EncryptedDatabases.OnlyAuthenticatedBytesAreRead | crates/veilite-core/src/reader.rs:168-306 | files that differ only in filler give the same results and errors for every page and range |
| EncryptedDatabases.OpeningIgnoresPages | crates/veilite-core/src/reader.rs:107-133 | opening looks only at the length and the salt |
| Codec.SqlCipherCodec.DecodePage | crates/veilite-turso/src/codec.rs:88-112 | output is the decoded page, or zeros with the reason; range, lengths and page zero are checked in order |
| Codec.SqlCipherCodec.EncodePage | crates/veilite-turso/src/codec.rs:78-86 | encoding always refuses and clears the output |
| Codec.SqlCipherCodec.RequiredReservedBytes | crates/veilite-turso/src/codec.rs:73-76 | the one-byte cast of the reserve size loses nothing |
| CodecPages.DecodesExactly | crates/veilite-turso/src/codec.rs:88-112 | for main-file and WAL pages alike, decoding gives `plain` if and only if the number is from 1 to the location's limit, the lengths are one page, and the input is an encryption of the well-formed page `plain` under that number |
| CodecPages.DecodeErrors | crates/veilite-turso/src/codec.rs:95-111 | beyond the limit, without a WAL limit, or with other lengths the context is refused, then page zero, then the decryption error |
| CodecPages.ForeignPagesAreRefused | crates/veilite-turso/src/codec.rs:108-111 | a page that is no encryption of a page under its number is never decoded, from the WAL or the main file |
| Codec.CodecAgreesWithReader | crates/veilite-turso/src/codec.rs:88-112 | for main-file pages codec and reader return the same page or the same reason, and the codec decodes no others |
| Codec.OpenConnection | crates/veilite-turso/src/snapshot.rs:271-328 | the checks before the engine is entered, in order, with page 1 authenticated and the saturating page bound; its length checks accept what the reader's accept |
| Codec.ConnectErrors | crates/veilite-turso/src/snapshot.rs:271-308 | whatever fails, the first problem decides, an empty passphrase before anything is read |
| Codec.ConnectAgreesWithOpen | crates/veilite-turso/src/snapshot.rs:276-308 | a connection is made exactly when a reader opens and its first page decrypts, with the same keys, and its page bound is the codec's WAL limit |
| Snapshot.FramesCounted | crates/veilite-turso/src/snapshot.rs:145-146 | the frame count is the number of complete frames in the WAL, capped at 2^32-1 |
| Snapshot.Pigeonhole | crates/veilite-turso/src/snapshot.rs:143-144 | pages with frames of their own are no more than there are frames |
| Snapshot.BackedImageIsAdmitted | crates/veilite-turso/src/snapshot.rs:127-130 | an image whose extra pages have complete frames is never refused for its size, and the codec admits its WAL pages |
| Snapshot.ConnectionAdmitsBackedImage | crates/veilite-turso/src/snapshot.rs:127-147 | once a connection to a WAL is made, every backed page count is selected against its bound and its codec admits each WAL page of that image |
| Snapshot.BoundIsExact | crates/veilite-turso/src/snapshot.rs:127-147 | a reported count is selected if and only if it is positive, fits 32 bits, and its extra pages can each have a complete frame |
| Visits.WalSnapshot.VisitPages | crates/veilite-turso/src/snapshot.rs:203-234 | the traversal with its callback, and the transaction released on every path |
| Visits.VisitTrace | crates/veilite-turso/src/snapshot.rs:193-224 | the callback sees numbers 1, 2, 3, ... with the very bytes the engine returned, all of the configured size; it stops for the engine's error, the wrong length or the callback's error, and a failing page is never delivered |
| Visits.SnapshotVerifies | crates/veilite-cli/src/main.rs:482-488 | verifying a snapshot succeeds exactly when every page is read at the configured size |
| Wal.RepairChecksums | crates/veilite-integration-tests/tests/wal.rs:144-167 | the nested loops rewrite the file into `Repaired`, for any whole-frame WAL |
| WalFibonacci.RunIsFibonacci | crates/veilite-integration-tests/tests/wal.rs:153-163 | the checksum of a body is the sum of its words and the two seeds with Fibonacci weights, largest on the first word, modulo 2^32 |
| WalFibonacci.ConsistentExactly | crates/veilite-integration-tests/tests/wal.rs:144-167 | a WAL is consistent if and only if the two big-endian numbers at bytes 16 to 23 of each frame are these sums over the frame's words and the two numbers stored before |
| WalFibonacci.RepairStoresFibonacci | crates/veilite-integration-tests/tests/wal.rs:144-167 | repair stores exactly these numbers in every frame |
| Wal.RepairedFrame | crates/veilite-integration-tests/tests/wal.rs:164-165 | repair keeps the header and replaces only bytes 16 to 23 of each frame |
| WalChecksums.RepairMakesConsistent | crates/veilite-integration-tests/tests/wal.rs:142-167 | after repair every stored checksum is the cumulative one of the repaired file |
| WalChecksums.ConsistentIsUnique | crates/veilite-integration-tests/tests/wal.rs:142-167 | header and data determine the only consistent file |
| WalChecksums.RepairIsIdempotent | crates/veilite-integration-tests/tests/wal.rs:144-167 | repair is the identity exactly on consistent files, and repairing twice is repairing once |
| WalChecksums.RepairKeepsCommits | crates/veilite-integration-tests/tests/wal.rs:53-60 | repair leaves the commit offsets as they were |
| WalDetection.HiddenExactly | crates/veilite-integration-tests/tests/wal.rs:153-163 | two frame bodies give the same checksum from any start if and only if their word differences absorb from zero to zero |
| WalDetection.ChainsAgreeExactly | crates/veilite-integration-tests/tests/wal.rs:146-163 | two WALs under one header agree in a cumulative checksum if and only if all word differences so far absorb to zero |
| WalDetection.FrameDamageExactly | crates/veilite-integration-tests/tests/wal.rs:146-163 | damage to one frame leaves a checksum alone if and only if the frame comes later or its word differences absorb to zero |
| WalDetection.HiddenEverywhereExactly | crates/veilite-integration-tests/tests/wal.rs:146-163 | damage to any number of frames shows nowhere if and only if it is hidden in each frame by itself |
| WalDetection.DamageIsDetected | crates/veilite-integration-tests/tests/wal.rs:153-163 | a change within one eight-byte chunk alters the checksum of its frame and of every later frame, and no earlier one |
| WalDetection.TwoChunksCanHide | crates/veilite-integration-tests/tests/wal.rs:153-165 | in any WAL a payload chunk can become anything else and its successor in the frame change with it so that every checksum, and consistency, stays |
| WalDetection.HiddenDamageExample | crates/veilite-integration-tests/tests/wal.rs:144-167 | a consistent 72-byte WAL and another one with a damaged page that carry the same checksums |
| WalDamage.LastCommitEnd | crates/veilite-integration-tests/tests/wal.rs:53-60 | the last commit offset is the end of the last frame with a nonzero size field |
| WalDamageBytes.CommitEndsExactly | crates/veilite-integration-tests/tests/wal.rs:53-60 | an offset is a commit offset if and only if a frame with a nonzero big-endian number at its byte 4 ends there |
| WalDamageBytes.CommitEndsIncrease | crates/veilite-integration-tests/tests/wal.rs:53-60 | the commit offsets increase, so the last is the greatest |
| WalDamage.DamagedPayload | crates/veilite-integration-tests/tests/wal.rs:169-179 | cuts at the last commit, flips one bit in the last frame of the page, and repairs the chain |
| WalDamage.DamagedHistory | crates/veilite-integration-tests/tests/wal.rs:142-179 | the damaged file is consistent, and its stored checksums differ from the history's exactly from the damaged frame on |
| WalDamage.DamagedPages | crates/veilite-integration-tests/tests/wal.rs:169-179 | page numbers and pages are those of the history, but for one inverted bit in the chosen frame |
| WalDamageBytes.DamagedBytes | crates/veilite-integration-tests/tests/wal.rs:169-179 | byte for byte the history, but for the stored sums and the lowest bit of byte 30 of the chosen page |
| WalDamageBytes.DamagedFileHeader | crates/veilite-integration-tests/tests/wal.rs:169-179 | the first 32 bytes of the damaged file are those of the history |
| WalDamage.DamageFailsAuthentication | crates/veilite-integration-tests/tests/wal.rs:142-143 | a page that decrypted before the damage fails authentication after it, unless the HMAC of the two different inputs collides |
| Disks.FileSystem.CreateNew | crates/veilite-cli/src/main.rs:341-347 | creation refuses an existing path and changes nothing on failure; on success one empty file is added |
| Export.WritePlaintextFile | crates/veilite-cli/src/main.rs:337-357 | create, write, sync, and clean up on any failure, as one run over the disk |
| Export.CleanupFailedExport | crates/veilite-cli/src/main.rs:372-385 | either the destination is gone and the error is the original one, or the disk is as before and the error tells that removal failed as well |
| Export.WriteReaderPages | crates/veilite-cli/src/main.rs:307-317 | the page loop writes what each page reads as, until the first failure |
| Export.VisitIsDelivery | crates/veilite-cli/src/main.rs:319-335 | exporting through the snapshot callback writes the same stream of pages, with page 1 adjusted |
| ExportRuns.DeliveredPages | crates/veilite-cli/src/main.rs:307-317 | if page k fails, exactly pages 1 to k-1 were written before, and no other file was touched |
| ExportRuns.ExportOutcome | crates/veilite-cli/src/main.rs:337-385 | an existing file is untouched; success leaves all pages; failure leaves nothing, or removal failed and the error says so |
| ExportRuns.ExportSucceedsExactly | crates/veilite-cli/src/main.rs:337-357 | an export succeeds if and only if the destination is new, every page is good, and no operation up to and including the sync fails |
| ExportRuns.FirstProblemIsReported | crates/veilite-cli/src/main.rs:349-357 | the first page, write or sync that goes wrong is the reported error, or the cause named when the removal failed too |
| ExportRuns.FailingCreationIsReported | crates/veilite-cli/src/main.rs:341-347 | a creation that fails or finds the path taken is reported as such |
| ExportRuns.ReaderExport | crates/veilite-cli/src/main.rs:303-317 | a successful export holds the whole image and every page was authenticated |
| ExportRuns.FaultFreeExport | crates/veilite-cli/src/main.rs:303-317 | with nothing failing, an export succeeds exactly for a new destination and pages that all decrypt |
| ExportRuns.FaultFreeExportFailure | crates/veilite-cli/src/main.rs:303-385 | otherwise it names the lowest-numbered bad page and leaves the disk as it was |
| ExportRuns.SnapshotExport | crates/veilite-cli/src/main.rs:319-335 | a snapshot export is the visited image with only bytes 18 and 19 of page 1 set to 1 |
| ExportRuns.FaultFreeSnapshotExport | crates/veilite-cli/src/main.rs:319-335 | with no failing file operation, a snapshot export succeeds exactly for a new destination and pages that all come back whole |
| ExportRuns.FaultFreeSnapshotFailure | crates/veilite-cli/src/main.rs:319-335 | otherwise it reports what was wrong with the first such page and leaves the disk as it was |
| CommandLine.Verify | crates/veilite-cli/src/main.rs:490-495 | the loop reports the scan of all pages, and on success has seen the whole image |
| CommandLine.VerifyIsComplete | crates/veilite-cli/src/main.rs:490-495 | after a successful verification every in-bounds read succeeds and one read of the file returns the image |
| CommandLine.ReadPassphraseLine | crates/veilite-cli/src/main.rs:535-560 | the result is a function of the byte stream; nothing is requested after the call that decides it |
| CommandLine.ChunkingIsIrrelevant | crates/veilite-cli/src/main.rs:535-560 | any two ways to cut and interrupt the same bytes give the same passphrase |
| CommandLine.BrokenStreams | crates/veilite-cli/src/main.rs:540-546 | reading fails exactly when the input breaks before any LF, and with the error that broke it |
| CommandLine.LineTerminators | crates/veilite-cli/src/main.rs:547-558 | LF, CR LF and a final CR end the line, and exactly one CR is removed |
| CommandLine.ErrorsAfterLineAreUnseen | crates/veilite-cli/src/main.rs:547-550 | what follows the first LF, errors included, has no influence |

## Left out

- The internals of AES, SHA, HMAC and PBKDF2: they are uninterpreted functions, so nothing is said about how hard a MAC is to forge.
- Wrong passphrases and tampering are covered as far as equality of MACs goes: a page is accepted exactly when its stored MAC is the computed one.
- The storage engine: SQL, pager, page cache and the choice of the last valid commit. What it returns for a page is an arbitrary result, and that every page beyond the main file has a complete frame is a stated hypothesis.
- Codec identity hashing, which rests on collision resistance.
- Paths, links, companion files, permissions, and changes to inputs by others while they are read.
- Clearing of memory on drop and the lifetime of keys; the visible clearing of caller buffers is modelled.
- Targets where `usize` is narrower than 64 bits: the conversions between `usize` and `u64` are taken to be exact.
- The Unix branch of the file source, which is one call into the standard library; the Windows branch is the modelled one.
- The `inspect` command, argument parsing, preset tables, output and error texts.
- Error boxing: export errors are a closed type, and a failed write inside the snapshot callback is reported as a failed write.
- WalDamage.DamagedPayload: histories without a commit, or without a frame of the page before it, make the source panic and are excluded.
- Wal.RepairChecksums: a WAL that is shorter than its header or ends within a frame makes the source panic and is excluded.
