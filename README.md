# A verified model of the IOSBackupKit object store

This project models the core of the IOSBackupKit backup library in Dafny. The library is a small,
sequential, content-addressed, encrypted object store:

- **Hex codec, Merkle root and manifest records** (`ManifestBuilder.swift`): module `HexCodec`,
  module `Merkle` and module `Manifest`.
  - `Data.hex` and `Data(hex:)`.
  - The duplicate-last Merkle fold over a file's chunk hashes.
  - The `AnyCodable` metadata value, as a closed tagged variant with its fixed decode and encode
    dispatch order.
  - The `FileEntry` record.
- **Chunker** (`Chunker.swift`, module `Chunking`): the input is cut into fixed windows. Each
  window is compressed, named by the lowercase hex SHA-256 of the compressed bytes and sealed with
  AES-GCM. Any failure aborts the whole call.
- **Resumable object writer** (`ResumableObjectWriter.swift`, module `ObjectStore`).
  - The object directory is a map from hash to ciphertext. A second map holds the temporary files
    a failed rename leaves behind. The commit log is a value that is absent, readable text, or
    bytes that are not UTF-8.
  - `ObjectWriter` is a class whose methods update these fields.
  - `repairIncompleteWrites` is the audit that replays the log and reports logged hashes whose
    object is missing.
- **Restorer** (`RestoreTool.swift`, module `Restore`).
  - The per-chunk pipeline: presence, box parsing, authentication, decompression, hash check.
  - Then the whole-file hash check, then the Merkle check, and only then the write.
  - `restoreAll` runs this over the `.json` items of the snapshot's `files` directory and stops
    at the first error.
  - `BackupRestorer` is a class whose fields are the restored tree.
- **Deleted-content scanner** (`DeletedContentScanner.swift`, module `Scanner`): one pass over
  a file's bytes collects maximal runs of printable ASCII. Runs shorter than `minLength` are
  dropped, and so are runs that contain a schema keyword or have no letter or digit.
- **End to end** (module `Backup`): chunk, write, build the `FileEntry`, restore, as
  `Examples/main.swift` does. The restore returns the original bytes.

The foreign primitives are not modelled internally:
- SHA-256 (FIPS 180-4), AES-GCM seal and open (NIST SP 800-38D) and the LZFSE buffer codec are
  function values in a `Crypto.Suite`.
- The one property the proofs rely on, that an AEAD opens what it sealed, is the predicate
  `Crypto.AeadSound`. The lemmas that need it take it as a precondition.
- The nonce AES-GCM draws for each seal is a parameter `nonces: nat -> Nonce`.
- Which file-system call fails is a parameter: `ObjectStore.IoPlan`, `ObjectStore.LogIo`,
  `Restore.RestoreIo`, and the `createFails` and `writeFails` flags.

Each imperative operation is a method proved against a specification function:

| method | specification |
|---|---|
| `ChunkAndEncrypt` | `ChunkAndEncryptOf` |
| `WriteChunks` | `WriteAll` |
| `AppendCommitLine` | `AppendLine` |
| `RepairIncompleteWrites` | `Missing` |
| `RestoreFile` | `RestoreFileOf` |
| `RestoreAll` | `RestoreAllOf` |
| `MerkleRoot` | `MerkleRootOf` |
| `DataFromHex` | `DecodeHex` |
| `ScanBytes` | `Reported` |

The lemmas state what the source promises about those functions.

Behaviour of the code worth knowing, which the model follows:
- `restoreFile` decompresses a chunk before it checks the chunk's hash (RestoreTool.swift:41-50).
- Only bytes that do not parse as a sealed box give `decryptionFailed`. A tag that does not
  authenticate propagates the cipher's own error (`Restore.RestoreFailure.AuthenticationFailed`),
  so a corrupted ciphertext does not surface as `decryptionFailed` (RestoreTool.swift:34-38).
- The whole-file hash is checked before the Merkle root (RestoreTool.swift:56-66). A reordered
  chunk list therefore usually fails with `fileChecksumMismatch`, and `merkleRootMismatch` is
  reported only when every chunk opened and the file hash matched (`Restore.MerkleCheckedLast`).
- For a single hash the Merkle loop never runs: the root is the hash decoded and re-encoded, not a
  digest (`Merkle.MerkleRootSingle`).
- The duplicate-last rule means that appending a copy of the last hash to an odd list of three or
  more leaves the root unchanged, so that insertion is not detected (`Merkle.MerkleRootDuplicateLast`).
- `Data(hex:)` uses Swift's `UInt8(_:radix:)`, which accepts upper-case digits and a sign. So
  "+f" and "-0" decode, and a pair that fails to parse is dropped rather than rejected
  (`HexCodec.DecodeHexLenient`, `HexCodec.DecodeHexDropsBadPair`).
- `restoreFile` does not create directories. Only `restoreAll` creates the parent of each
  destination.
- `restoreAll` stops at the first failing entry.

## Model

| member | source | states |
|---|---|---|
| HexCodec.Hex | Sources/IOSBackupKit/ManifestBuilder.swift:114-116 | the hex form of n bytes is 2n lowercase hex digits |
| HexCodec.HexAt | Sources/IOSBackupKit/ManifestBuilder.swift:114-116 | byte i is written at positions 2i (high digit) and 2i+1 (low digit), in order |
| HexCodec.HexAppend | Sources/IOSBackupKit/ManifestBuilder.swift:114-116 | the hex of a concatenation is the concatenation of the hex forms |
| HexCodec.DecodeHex | Sources/IOSBackupKit/ManifestBuilder.swift:99-112 | `Data(hex:)` yields at most one byte per two characters |
| HexCodec.ParsePair | Sources/IOSBackupKit/ManifestBuilder.swift:105 | `UInt8(pair, radix: 16)` accepts only a digit or sign followed by a digit, accepts "-d" only for "-0", and every pair of lowercase hex digits parses to the byte that prints back as that pair |
| HexCodec.DecodeHexAppendPair | Sources/IOSBackupKit/ManifestBuilder.swift:102-110 | after an even number of characters, the next pair contributes exactly its parsed byte, or nothing |
| HexCodec.DecodeHexStep | Sources/IOSBackupKit/ManifestBuilder.swift:102-110 | pair k extends the bytes decoded from the first k pairs |
| HexCodec.DecodeHexIgnoresOddTail | Sources/IOSBackupKit/ManifestBuilder.swift:102-110 | a trailing odd character never contributes a byte |
| HexCodec.DecodeHexWholePairs | Sources/IOSBackupKit/ManifestBuilder.swift:102-111 | once every whole pair is read, the leftover character changes nothing |
| HexCodec.DecodeHexDropsBadPair | Sources/IOSBackupKit/ManifestBuilder.swift:105-108 | a pair that does not parse is skipped and decoding goes on as if it were absent |
| HexCodec.ByteHexParses | Sources/IOSBackupKit/ManifestBuilder.swift:105-115 | the two digits written for a byte parse back to that byte |
| HexCodec.HexRoundTrip | Sources/IOSBackupKit/ManifestBuilder.swift:99-116 | `Data(hex: d.hex) == d` for every byte sequence d |
| HexCodec.DecodeHexLenient | Sources/IOSBackupKit/ManifestBuilder.swift:105 | "+f" decodes to 15, "-0" to 0, "AB" to 0xab, and "-1" to nothing |
| HexCodec.AppendParsed | Sources/IOSBackupKit/ManifestBuilder.swift:105-107 | appends the parsed byte of a pair, or nothing when it does not parse |
| HexCodec.DataFromHex | Sources/IOSBackupKit/ManifestBuilder.swift:99-112 | the character loop with its `temp` buffer computes `DecodeHex` |
| Merkle.NextLevel | Sources/IOSBackupKit/ManifestBuilder.swift:82-90 | a level of n nodes has ceil(n/2) parents |
| Merkle.NextLevelParents | Sources/IOSBackupKit/ManifestBuilder.swift:83-90 | parent i hashes nodes 2i and 2i+1, or node 2i twice for an odd last node |
| Merkle.Fold | Sources/IOSBackupKit/ManifestBuilder.swift:81-92 | folding two or more nodes ends in one 32-byte digest |
| Merkle.MerkleRootShape | Sources/IOSBackupKit/ManifestBuilder.swift:77-93 | the empty list gives the hex hash of the empty string; any list but a single hash gives 64 lowercase hex digits |
| Merkle.MerkleRootSingle | Sources/IOSBackupKit/ManifestBuilder.swift:81-93 | a single lowercase hash is returned unchanged, not re-hashed |
| Merkle.MerkleRootPair | Sources/IOSBackupKit/ManifestBuilder.swift:71-93 | two leaves give the hash of their raw bytes concatenated in order |
| Merkle.MerkleRootDuplicateLast | Sources/IOSBackupKit/ManifestBuilder.swift:84-89 | repeating the last hash of an odd list of three or more does not change the root |
| Merkle.MerkleRoot | Sources/IOSBackupKit/ManifestBuilder.swift:70-94 | the level loop and the stride-2 loop compute `MerkleRootOf` |
| Manifest.EncodeSucceedsIffEncodable | Sources/IOSBackupKit/ManifestBuilder.swift:31-48 | encoding succeeds exactly on values with no unsupported part anywhere |
| Manifest.DecodeAny | Sources/IOSBackupKit/ManifestBuilder.swift:12-29 | decoding succeeds exactly on documents with no null anywhere inside, and a decoded value always encodes |
| Manifest.EncodeAny | Sources/IOSBackupKit/ManifestBuilder.swift:31-48 | an encoded document never contains a null |
| Manifest.EncodeDecodeRoundTrip | Sources/IOSBackupKit/ManifestBuilder.swift:12-48 | decoding an encoded value gives it back, except that an integral Double that fits `Int` comes back as an Int |
| Manifest.DecodeEncodeRoundTrip | Sources/IOSBackupKit/ManifestBuilder.swift:12-48 | every decoded value re-encodes to the document it came from |
| Manifest.NullIsRejected | Sources/IOSBackupKit/ManifestBuilder.swift:12-28 | null is unsupported, and one null inside an array makes the whole array fail |
| Manifest.DoubleNarrowsToInt | Sources/IOSBackupKit/ManifestBuilder.swift:14-17 | Int is tried before Double; an integral number beyond `Int` decodes as a Double |
| Crypto.Written | Sources/IOSBackupKit/RestoreTool.swift:103-117 | the decoder writes the first bytes of its output that fit the buffer, and a result of 0 is a failure |
| Crypto.Compress | Sources/IOSBackupKit/Chunker.swift:43-67 | the fallback returns its input; LZFSE succeeds exactly when the encoder's whole output is non-empty and fits max(4096, n) bytes, and then returns that output untruncated |
| Crypto.Decompress | Sources/IOSBackupKit/RestoreTool.swift:100-124 | the fallback returns its input; LZFSE output is non-empty and at most 4 times the input |
| Crypto.DecompressBounded | Sources/IOSBackupKit/RestoreTool.swift:102-117 | a window more than four times its compressed size never decompresses back |
| Crypto.FallbackRoundTrip | Sources/IOSBackupKit/RestoreTool.swift:119-123 | in the fallback build compress then decompress is the identity |
| Chunking.WindowsCount | Sources/IOSBackupKit/Chunker.swift:26-39 | the loop visits ceil(\|data\| / n) windows |
| Chunking.WindowsCover | Sources/IOSBackupKit/Chunker.swift:26-38 | the windows, concatenated in order, are the input |
| Chunking.WindowsAt | Sources/IOSBackupKit/Chunker.swift:27-28 | window i is bytes [i*n, min((i+1)*n, \|data\|)); all but the last have n bytes, the last 1 to n |
| Chunking.SealAll | Sources/IOSBackupKit/Chunker.swift:26-40 | a successful call yields one chunk per window |
| Chunking.SealWindowOutcome | Sources/IOSBackupKit/Chunker.swift:30-37 | a window fails with `compressionFailed` exactly when compression fails; a sealed window is named by the 64-digit hex SHA-256 of its compressed bytes and carries their sealed combined form |
| Chunking.SealAllEach | Sources/IOSBackupKit/Chunker.swift:30-37 | chunk i is window i compressed, hashed and sealed under the i-th nonce |
| Chunking.SealAllFailure | Sources/IOSBackupKit/Chunker.swift:30-36 | a failed call fails with the error of the first failing window, after all earlier windows succeeded |
| Chunking.SealAllStep | Sources/IOSBackupKit/Chunker.swift:26-39 | a failing window at `offset` is the outcome of the whole call; a sealed one joins the chunks already collected |
| Chunking.ChunkCount | Sources/IOSBackupKit/Chunker.swift:26-40 | empty input yields no chunks; otherwise ceil(\|data\| / n) chunks |
| Chunking.ChunkContents | Sources/IOSBackupKit/Chunker.swift:30-37 | chunk i is named by the 64-digit lowercase hex SHA-256 of compressed window i, and its ciphertext seals those compressed bytes |
| Chunking.FallbackHashesRawWindow | Sources/IOSBackupKit/Chunker.swift:62-66 | in the fallback build the hash is of the raw window |
| Chunking.ChunkOpens | Sources/IOSBackupKit/Chunker.swift:35-37 | under a sound AEAD, opening chunk i with the key gives compressed window i |
| Chunking.Chunker.constructor | Sources/IOSBackupKit/Chunker.swift:17-20 | keeps the window size and key |
| Chunking.Chunker.SealSlice | Sources/IOSBackupKit/Chunker.swift:30-37 | one window: compression failure, seal failure, missing combined form, or the chunk |
| Chunking.Chunker.ChunkAndEncrypt | Sources/IOSBackupKit/Chunker.swift:23-41 | the offset loop computes `ChunkAndEncryptOf`, with no partial list on failure |
| ObjectStore.ObjectWriter.constructor | Sources/IOSBackupKit/ResumableObjectWriter.swift:9-11 | fixes the root and the log at `root/commit.log` over the disk as found |
| ObjectStore.ObjectWriter.Open | Sources/IOSBackupKit/ResumableObjectWriter.swift:9-13 | construction fails exactly when `objects` cannot be created, naming that path |
| ObjectStore.AppendLineEffect | Sources/IOSBackupKit/ResumableObjectWriter.swift:32-43 | success is exactly an existing log opened with no fault, or a rewrite that does not fail; on success the log ends with the line and keeps the old text before it; a failure before the write leaves the log as it was |
| ObjectStore.ObjectWriter.AppendCommitLine | Sources/IOSBackupKit/ResumableObjectWriter.swift:32-43 | the log becomes `AppendLine` of the old log |
| ObjectStore.WriteAllKeepsObjects | Sources/IOSBackupKit/ResumableObjectWriter.swift:20-26 | an object already present keeps its bytes, whatever fails |
| ObjectStore.WriteAllStoresAll | Sources/IOSBackupKit/ResumableObjectWriter.swift:17-29 | after a successful batch every input hash has an object |
| ObjectStore.WriteAllNewObjects | Sources/IOSBackupKit/ResumableObjectWriter.swift:20-26 | a new object holds the ciphertext of the first chunk in the batch with its hash |
| ObjectStore.AllPresentIsNoOp | Sources/IOSBackupKit/ResumableObjectWriter.swift:20-23 | a batch whose hashes all exist changes nothing and succeeds |
| ObjectStore.WriteAllIdempotent | Sources/IOSBackupKit/ResumableObjectWriter.swift:17-29 | replaying a successful batch leaves objects, temporaries and log unchanged, whatever the I/O would do |
| ObjectStore.WriteAllAppend | Sources/IOSBackupKit/ResumableObjectWriter.swift:17-29 | a batch is its first part followed, if that succeeded, by the rest |
| ObjectStore.WriteAllFailure | Sources/IOSBackupKit/ResumableObjectWriter.swift:17-29 | a failed batch is a successful prefix plus the failing chunk; nothing is rolled back and nothing later is tried |
| ObjectStore.NewHashes | Sources/IOSBackupKit/ResumableObjectWriter.swift:17-29 | the hashes a batch writes are distinct and not already stored |
| ObjectStore.WriteAllLogsNewHashes | Sources/IOSBackupKit/ResumableObjectWriter.swift:17-29 | without I/O failure the log grows by exactly one `PUT` line per new hash, in order; a hash repeated in the batch is logged once |
| ObjectStore.WriteAllCreatesLog | Sources/IOSBackupKit/ResumableObjectWriter.swift:15-43 | the first batch on a store with no log, without I/O failure, succeeds and creates the log holding one `PUT` line per new hash, in order; a batch with nothing new leaves the log absent |
| ObjectStore.ObjectWriter.WriteChunks | Sources/IOSBackupKit/ResumableObjectWriter.swift:15-30 | the loop's new objects, temporaries, log and outcome are `WriteAll` of the old state |
| ObjectStore.SplitPiecesAreTokens | Sources/IOSBackupKit/ResumableObjectWriter.swift:49 | `split` yields non-empty pieces free of the separator |
| ObjectStore.SplitAppend | Sources/IOSBackupKit/ResumableObjectWriter.swift:49 | text ending in a separator splits independently of what follows |
| ObjectStore.CommitLineParses | Sources/IOSBackupKit/ResumableObjectWriter.swift:49-54 | for a hash of printable ASCII without spaces, the line `PUT h\n` splits back to one line whose second field is h |
| ObjectStore.MissingInExactly | Sources/IOSBackupKit/ResumableObjectWriter.swift:50-60 | the audit reports h exactly when h has no object and some line has at least two fields, `PUT` then h |
| ObjectStore.MissingInAppend | Sources/IOSBackupKit/ResumableObjectWriter.swift:50-62 | the audit of two runs of lines is the two audits in order |
| ObjectStore.MissingInGrow | Sources/IOSBackupKit/ResumableObjectWriter.swift:50-60 | storing more objects never makes a clean audit report anything |
| ObjectStore.ObjectWriter.RepairIncompleteWrites | Sources/IOSBackupKit/ResumableObjectWriter.swift:46-63 | returns the missing logged hashes; nothing for an absent or non-UTF-8 log |
| ObjectStore.AppendCommitKeepsConsistent | Sources/IOSBackupKit/ResumableObjectWriter.swift:26-28 | logging a stored object with a well-formed hash keeps the log plain ASCII text, line-terminated, with a clean audit |
| ObjectStore.WriteOneKeepsConsistent | Sources/IOSBackupKit/ResumableObjectWriter.swift:17-29 | one chunk with a well-formed hash, whatever fails, keeps a consistent log consistent |
| ObjectStore.WriteAllKeepsConsistent | Sources/IOSBackupKit/ResumableObjectWriter.swift:17-29 | a batch of well-formed hashes, complete or interrupted, keeps a consistent log consistent: a `PUT` line only follows its rename |
| Restore.OpenChunk | Sources/IOSBackupKit/RestoreTool.swift:25-50 | a chunk opens only if its object exists, and any failure is one of the chunk errors |
| Restore.Reassemble | Sources/IOSBackupKit/RestoreTool.swift:24-53 | a failure of the chunk loop is always a chunk error |
| Restore.ReassembleExactly | Sources/IOSBackupKit/RestoreTool.swift:24-53 | reassembly succeeds exactly when every chunk opens, and yields their concatenation in order |
| Restore.ReassembleFailure | Sources/IOSBackupKit/RestoreTool.swift:24-53 | a failure is the error of the first chunk that does not open, after all earlier ones opened |
| Restore.RestoreSpecSound | Sources/IOSBackupKit/RestoreTool.swift:20-66 | restored data hashes to `fileSHA256`, the chunk list gives `merkleRoot`, and every chunk was present, authenticated and matched its hash |
| Restore.MissingChunkNeverRestores | Sources/IOSBackupKit/RestoreTool.swift:27-29 | a file with a deleted chunk object never restores |
| Restore.MerkleCheckedLast | Sources/IOSBackupKit/RestoreTool.swift:55-66 | a Merkle mismatch is reported only after every chunk opened and the file hash matched |
| Restore.RestoreFileWritesOnlyVerified | Sources/IOSBackupKit/RestoreTool.swift:55-69 | the destination is written only with verified data, and any error leaves every file as it was |
| Restore.RestoreSpec | Sources/IOSBackupKit/RestoreTool.swift:24-66 | a chunk error comes first and is returned as is; restored data hashes to `fileSHA256`, its chunk list has root `merkleRoot`, and it is the reassembled chunks |
| Restore.ParentOf | Sources/IOSBackupKit/RestoreTool.swift:91 | the parent of a path is a prefix of it |
| Restore.ParentOfJoin | Sources/IOSBackupKit/RestoreTool.swift:88-91 | a plain file name lands directly in the destination root |
| Restore.JsonListings | Sources/IOSBackupKit/RestoreTool.swift:84 | keeps only items whose name ends in `.json` |
| Restore.RestoreListing | Sources/IOSBackupKit/RestoreTool.swift:84-94 | an item that is not `.json` changes nothing; an undecodable one fails; a failure writes no file; success means the entry decoded, the parent directory exists and the destination holds the verified data |
| Restore.RestoreEachJsonOnly | Sources/IOSBackupKit/RestoreTool.swift:84 | items that are not `.json` do not affect the outcome |
| Restore.RestoreEachFailure | Sources/IOSBackupKit/RestoreTool.swift:84-95 | a failing `restoreAll` stops at one item, after all earlier items succeeded |
| Restore.RestoreEachGrows | Sources/IOSBackupKit/RestoreTool.swift:84-95 | no restored file or created directory is ever removed |
| Restore.RestoreEachLeavesOthers | Sources/IOSBackupKit/RestoreTool.swift:84-95 | a path no item restores to keeps its contents |
| Restore.RestoreEachSuccess | Sources/IOSBackupKit/RestoreTool.swift:84-95 | after success every `.json` item decoded and verified, its parent exists, and its destination holds its data unless a later item wrote there |
| Restore.RestoreAllDirectory | Sources/IOSBackupKit/RestoreTool.swift:76-82 | `filesDirectoryNotFound` exactly when `files` is absent, the listing error exactly when it cannot be listed, and nothing restored in either case |
| Restore.BackupRestorer.constructor | Sources/IOSBackupKit/RestoreTool.swift:14-17 | keeps the snapshot and key |
| Restore.BackupRestorer.RestoreFile | Sources/IOSBackupKit/RestoreTool.swift:20-72 | the chunk loop and checks give `RestoreFileOf`: same data, same first error, same write |
| Restore.BackupRestorer.RestoreAll | Sources/IOSBackupKit/RestoreTool.swift:75-98 | the new tree and outcome are `RestoreAllOf` the old tree: `filesDirectoryNotFound` when `files` is absent, the listing error when it cannot be listed, otherwise the items in order |
| Scanner.PrintableDecodes | Sources/IOSBackupKit/DeletedContentScanner.swift:43 | a printable run always decodes as ASCII |
| Scanner.ContainsFoldedExactly | Sources/IOSBackupKit/DeletedContentScanner.swift:60 | case-insensitive containment is an occurrence at some position |
| Scanner.ContainsAnyExactly | Sources/IOSBackupKit/DeletedContentScanner.swift:59-60 | the keyword test holds exactly when some keyword occurs |
| Scanner.IsNoiseExactly | Sources/IOSBackupKit/DeletedContentScanner.swift:57-68 | text is noise exactly when some keyword occurs in it at some position, ignoring case, or when none of its characters is a letter or digit |
| Scanner.NoiseInsideWord | Sources/IOSBackupKit/DeletedContentScanner.swift:59-62 | "monkey" is noise: keywords match inside words |
| Scanner.NoiseAnyCase | Sources/IOSBackupKit/DeletedContentScanner.swift:59-62 | "create" is noise: keywords match in any case |
| Scanner.NoisePunctuation | Sources/IOSBackupKit/DeletedContentScanner.swift:64-66 | text with no letter or digit, the empty text included, is noise |
| Scanner.DigitsKept | Sources/IOSBackupKit/DeletedContentScanner.swift:57-68 | a non-empty run of digits is never noise |
| Scanner.RunStartMaximal | Sources/IOSBackupKit/DeletedContentScanner.swift:36-40 | the run before e is printable throughout and starts the input or follows a non-printable byte |
| Scanner.RunStartUnique | Sources/IOSBackupKit/DeletedContentScanner.swift:36-40 | a maximal run is determined by where it ends |
| Scanner.MessageAtRun | Sources/IOSBackupKit/DeletedContentScanner.swift:41-49 | the byte ending a maximal, long enough, meaningful run reports exactly that run |
| Scanner.MessageAtFacts | Sources/IOSBackupKit/DeletedContentScanner.swift:41-49 | a terminating byte reports nothing or the reportable run just before it |
| Scanner.ReportedSound | Sources/IOSBackupKit/DeletedContentScanner.swift:33-52 | every message is a maximal printable run, at least `minLength` long, not noise, whose offset is its first byte and whose text is its bytes |
| Scanner.ReportedOrdered | Sources/IOSBackupKit/DeletedContentScanner.swift:33-52 | messages are in input order, each after the previous run ended |
| Scanner.ReportedPrefix | Sources/IOSBackupKit/DeletedContentScanner.swift:33-52 | scanning further only appends messages |
| Scanner.ReportedAtEnd | Sources/IOSBackupKit/DeletedContentScanner.swift:41-51 | a reportable run is reported by the byte that ends it |
| Scanner.ReportedComplete | Sources/IOSBackupKit/DeletedContentScanner.swift:33-52 | every reportable run that a non-printable byte ends is reported |
| Scanner.TrailingRunDropped | Sources/IOSBackupKit/DeletedContentScanner.swift:33-54 | a printable run reaching the end of the data is never reported |
| Scanner.ExtendRun | Sources/IOSBackupKit/DeletedContentScanner.swift:36-40 | a printable byte extends the current run and reports nothing |
| Scanner.EndRun | Sources/IOSBackupKit/DeletedContentScanner.swift:41-51 | a non-printable byte ends the run, reporting it when it qualifies |
| Scanner.ScanBytes | Sources/IOSBackupKit/DeletedContentScanner.swift:22-54 | the byte loop computes `Reported` |
| Scanner.ScanFile | Sources/IOSBackupKit/DeletedContentScanner.swift:17-55 | an unreadable file is the not-found error; otherwise the scan of its bytes |
| Backup.HexInjective | Sources/IOSBackupKit/ManifestBuilder.swift:114-116 | different byte strings have different hex forms |
| Backup.FallbackRoundTrips | Sources/IOSBackupKit/Chunker.swift:62-66 | the fallback codec round-trips every window |
| Backup.ChunkHashesWellFormed | Sources/IOSBackupKit/Chunker.swift:32-33 | every chunk hash survives the commit log's line and field splitting |
| Backup.ChunkRestores | Sources/IOSBackupKit/RestoreTool.swift:25-52 | after writing a file's chunks, chunk i opens back to window i |
| Backup.BackupThenRestore | Examples/main.swift:65-95 | restoring the recorded entry from the written store gives back exactly the original bytes |
| Backup.BackupKeepsAuditClean | Examples/main.swift:71-75 | writing a file's chunks, complete or interrupted, leaves a clean audit clean |

## Left out

- SHA-256, AES-GCM and LZFSE internals are foreign calls. They are function values; only the 32-byte digest length and, where a lemma says so, the AEAD round trip are assumed.
- Backup.BackupThenRestore: it assumes that no two windows of the file collide under SHA-256, that the codec round-trips the file's windows, and that objects already stored under the file's hashes are genuine. With LZFSE a highly compressible window does not round-trip, because of the 4x decompression buffer (`Crypto.DecompressBounded`).
- The nonce and tag layout of the combined AES-GCM form are not modelled; the nonce of each seal is a parameter.
- Restore.BackupRestorer.RestoreFile: a read error on a chunk object that exists (RestoreTool.swift:31) is not modelled; an object exists exactly when it is readable.
- Atomic-write and rename mechanics, `FileHandle` seeking, and file-system path normalisation are not modelled. `appendingPathComponent` is joining with `/`.
- `Restore.IsJsonName` reads Foundation's `pathExtension == "json"` as the name ending in `.json`. Foundation's handling of hidden files such as `.json` alone is not modelled.
- Scanner.IsNoise: `localizedCaseInsensitiveContains` is modelled with ASCII case folding only. Locale-dependent folding is not modelled; the scanned text is ASCII.
- Scanner.ScanFile: the contents of the file are a parameter; reading the file is I/O.
- Chunking.Chunker.ChunkAndEncrypt: it requires a positive window size. The source does not guard this; with a window of 0 the loop never advances, and with a negative one the slice range is invalid.
- The JSON text of `FileEntry` and the decoding of a listing item are not modelled. Each listing item carries its decoded entry, or none when reading or decoding it throws.
- The order in which the directory listing returns files is a parameter, the order of the listing sequence.
- Manifest.DecodeAny: a JSON number is classified by its value (`Manifest.Number`). So `3.0`, `1e2` and `-0.0` are `Integral` and decode as an Int when they fit, as `decode(Int.self)` does. A non-integral number keeps its literal. Rounding to a binary64 `Double` is not modelled: an integer too large for `Int` is kept exactly as the Double's value.
- HexCodec.DecodeHex: a string is a sequence of Unicode scalars, while `Data(hex:)` iterates Swift `Character`s (extended grapheme clusters). The two agree on text with no "\r\n" and no combining marks, which includes everything `Hex` writes. They differ otherwise: `Data(hex: "\r\n0f")` pairs "\r\n" with "0" and gives empty Data, while `DecodeHex` gives [0x0f].
- ObjectStore.ObjectWriter.RepairIncompleteWrites: the log is split by Unicode scalars, while Swift's `split(separator:)` works on `Character`s. There "\r\n" is one Character and not a line break, and a combining mark after a space or newline merges with it. The two agree on logs of newlines and printable ASCII, which `ObjectStore.Consistent` requires and every commit line of a well-formed hash keeps; on other logs the modelled audit can cut lines that Swift does not.
- Console output is not modelled, including `RestoreTool.swift:71`, `RestoreTool.swift:97` and the audit's print. The audit returns the list of missing hashes instead.
- The `description` strings of `RestoreError` and `ScannedMessage` are not modelled.
- `SnapshotManifest` and the other records of `Models.swift` are not modelled, and neither are the command-line tools.
