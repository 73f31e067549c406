# AFTP in Dafny

A model of AFTP, a binary file-transfer protocol with a fountain-coded data plane, a
whole-tree packer and an rsync-style sync engine, and proofs about it.

One module per file:

- `Bytes`, `Wire`, `Seqs`: machine integers and fixed-width encodings, the `put_*` and
  `get_*` helpers, filtering and stable sorting.
- `Frames`, `Assembler`: control-plane frames; `read_frame` against the incremental,
  cancellation-safe `FrameAssembler`.
- `Crc32`, `Envelope`, `Blocks`: data-plane datagrams, offers and block arithmetic.
- `Paths`, `Merkle`, `Manifest`, `PackedTree`, `Unpack`, `UnpackProof`, `TreeTransfer`: a
  directory tree as a manifest and a virtual stream, and back; `Walk` is the directory walk.
- `Put`: an upload over the reliable path, client and server; `Uploads`, `UploadsArrive`: any
  number of them at once, and what becomes of a good one among them.
- `Feedback`, `Download`, `RateLimit`: runs as steps under any interleaving: the feedback
  pump, chunked downloads with a fallback, the authentication rate limiter;
  `DownloadSuccess`: what a reported success is worth.
- `Glob`, `SyncFilter`, `Lister`, `Times`, `SyncPlan`, `SyncMeaning`, `Sync`, `SyncListing`:
  the sync engine on a strict file system, its lister, its filters and its comparison of
  times; `SyncOptions`: what each option means for one path; `Copies`: its concurrent copies
  through temporary files.
- `Masking`, `Ofb`, `Container`: bulk masking, the output-feedback cipher and the encrypted
  file format.

Methods follow the code's loops and classes and are proved against specification functions;
lemmas say what those functions mean, in terms of bytes, configuration and hashes rather than
of the functions themselves. Formats are pinned by lemmas with literal bytes (`Known...`).

SHA-256, AES-GCM, zstd, the key encapsulation and the neural block function are parameters,
with only the laws needed: results of 32 bytes, decoding inverts encoding. Binding theorems do
not assume the hash injective: they end in equality or in two distinct strings, among those
actually hashed, with the same hash. CRC-32 is concrete. Times, the operating system's choices
(how much a read returns, in which order concurrent work completes, which operations fail) are
parameters or steps.

Some promises hold only under a condition. These are stated as exact conditions:

- Unpacking a tree fails or loses a file when a name ends in the staging suffix of another,
  and fails when a mode applied on the way shuts an unprivileged receiver out, as for a
  read-only directory with a file in it (`UnpackProof.UnpackExact`); the order the manifest is
  built in leaves only directories so named and so closed (`TreeTransfer.BuiltUnpacks`,
  `TreeTransfer.TransferTree`). A mode of zero is not applied (`UnpackProof.RestoredIsSame`).
- A PUT to a path with the extension `aft-tmp` is staged in the file it replaces, and two PUTs
  under way whose names differ at most in the extension share one staging file: the server
  can publish bytes no stream vouched for (`Put.PutIsSafe`, `Uploads.SafeExactly`).
- A chunked download can report success before the last piece of each chunk is written, since
  its tasks do not flush; if such a write fails, nobody is told (`Download.DownloadIsSafe`,
  `DownloadSuccess.SuccessTooEarly`, `DownloadSuccess.SuccessMeansSource`).
- Two copies of a sync that begin in one tick of the clock share a temporary file
  (`Copies.ExactExactly`).
- A client told a maximum frame of 0 uploads an empty file as a success (`Put.PutFile`).
- The drain of the feedback pump hangs with more than 1024 messages pending
  (`Feedback.DrainEnds`).
- The rate limit of 5 per minute holds for handshakes one after another; `k` at a time get
  `4 + k` (`RateLimit.WindowBound`, `RateLimit.BoundIsMet`). A RESUME is not counted at all
  (`RateLimit.ResumesAreNotCounted`).
- A sync with a kind clash never mirrors its source, one whose listing was cut off can fail
  at a directory delete, and one between protocols that report no sizes takes files for equal
  that are not (`Sync.Mirror`, `Sync.SyncTrees`).
- Times are compared as strings, which is wrong where the number of digits changes
  (`Times.OrderIsTime`).
- `xor_with_key` panics for some key lengths (`Masking.XorWithKey`).
- `max_symbol_size` fits the MTU only if the MTU has room for the overhead
  (`Envelope.FullSymbolFits`).
- A file over one tebibyte encrypts but does not decrypt (`Container.RoundTrip`).

Where the repository's documentation and code disagree, the model follows the code:

- `Manifest::encode` documents the root and the content hashes as 32 bytes; `put_bytes`
  puts two length bytes in front of each (src/aftp/fec/manifest.rs:373-388).
- `leaf_hash` documents kind, path, size and content hash as bound; the code binds the mode
  too, and nothing binds the offset (src/aftp/fec/manifest.rs:169-183).
- `FrameAssembler::next_frame` documents one read per call; a call that completes a header
  goes on to a second (src/aftp/frame.rs:839-842, 877-926).
- `CompareMode::Checksum` is documented as the most accurate, and a comment says that equal
  sizes must be copied; it compares sizes and leaves them (src/sync.rs:27, 482-487).
- `recv_fec_object` calls the drain reliable because it awaits the pump; that await is what
  hangs (src/aftp/server.rs:1213-1224).
- `recv_put_tree_fec` says that a failed transfer leaves the destination untouched; an unpack
  that fails midway leaves what it had placed (src/aftp/server.rs:977-983,
  src/aftp/fec/manifest.rs:648-701).
- The neural cipher's module documentation says CBC; the code is output feedback
  (src/crypto/neural.rs:16, 421-456).
- `AuthRateLimiter` documents a hard cap on tracked addresses; it only drops expired ones
  (src/aftp/server.rs:49, 91-95).

## Model

| member | source | states |
|---|---|---|
| Wire.GetLEofLE | src/aftp/frame.rs:289-370 | an integer written at an offset of a buffer is read back from there, and the offset advances by its width |
| Wire.GetBytesOfPrefixed | src/aftp/frame.rs:305-323 | a byte string of at most 65535 bytes written with its length in front is read back |
| Bytes.LEAt | src/aftp/frame.rs:293-303 | byte `i` of an encoding is the number's `i`-th byte from the low end, for every number and width |
| Wire.LEofGetLE | src/aftp/frame.rs:327-370 | whatever integer is read, its encoding is what stood in the buffer, inside its bounds |
| Wire.PrefixedOfGetBytes | src/aftp/frame.rs:372-390 | whatever byte string is read, its length-prefixed encoding is what stood in the buffer |
| Wire.Buffer.PutBytes | src/aftp/frame.rs:305-323 | appends exactly the length-prefixed form and nothing else; longer data is what the code panics on |
| Wire.Cursor.TakeLE | src/aftp/frame.rs:327-370 | reads and advances exactly when the bytes are there |
| Wire.Cursor.TakeBytes | src/aftp/frame.rs:372-390 | reads and advances exactly when length and bytes are there |
| Frames.WriteFrame | src/aftp/frame.rs:228-243 | appends the ten header bytes, the reserved one zero, and the payload |
| Frames.KnownFrame | src/aftp/frame.rs:228-243 | a frame byte by byte, its length low byte first, in literal values |
| Frames.RefusedBecause | src/aftp/frame.rs:181-226 | the reason a frame is refused for, over the literal bytes of the stream: too short for a header, magic, version, length over the cap, too short for the payload, in that order, and accepted otherwise |
| Frames.ReadOfWritten | src/aftp/frame.rs:209-243 | `read_frame` on a written frame followed by anything yields the frame and consumes exactly its bytes |
| Frames.WrittenOfRead | src/aftp/frame.rs:181-243 | whatever frame is read, writing it gives back the bytes consumed except for the ignored reserved byte |
| Frames.StreamRoundTrip | src/aftp/frame.rs:209-243 | every sequence of frames within the cap survives the byte stream, which then ends cleanly |
| Assembler.HeaderThenBody | src/aftp/frame.rs:181-226 | a header with its whole payload is the frame `read_frame` sees, and with less of it at the end of a stream it is the truncation `read_frame` reports |
| Assembler.HeaderRefused | src/aftp/frame.rs:181-226 | a header refused incrementally is refused by `read_frame` for the same reason |
| Assembler.YieldedNext | src/aftp/frame.rs:209-226 | consuming one frame at a frame boundary keeps what `read_frame` makes of the rest of the stream |
| Assembler.FrameAssembler.ReadHeader | src/aftp/frame.rs:877-915 | one read towards the header: the bytes held plus the bytes taken are preserved, acceptance and rejection are those of `read_frame` |
| Assembler.FrameAssembler.ReadPayload | src/aftp/frame.rs:917-928 | one read towards the payload: bytes are preserved, a closed stream is rejected as `read_frame` would reject it |
| Assembler.FrameAssembler.NextFrame | src/aftp/frame.rs:870-938 | one call with any number of bytes delivered, dropped before either read or not: it yields the frame `read_frame` yields, or holds every byte taken so far, or fails as `read_frame` fails |
| Assembler.Drive | src/aftp/frame.rs:830-939 | for every byte stream, every cut of it into reads and every placement of cancellations: the frames are a prefix of those `read_frame` yields, all of them and the same verdict once it fails, and it fails within as many undropped calls as there are bytes |
| Crc32.ShiftInvertible | src/aftp/fec/envelope.rs:185-192 | one bit of the CRC-32 register shift loses nothing (section 3.2.9 of IEEE 802.3) |
| Crc32.StepInjectiveInState | src/aftp/fec/envelope.rs:185-192 | for a fixed byte the register step is one-to-one in the register |
| Crc32.StepInjectiveInByte | src/aftp/fec/envelope.rs:185-192 | for a fixed register the step is one-to-one in the byte |
| Crc32.TagInjective | src/aftp/fec/envelope.rs:189 | different checksums have different big-endian tags |
| Crc32.OneByteChangesCrc | src/aftp/fec/envelope.rs:284-289 | changing any single byte of any data changes its CRC-32 |
| Crc32.StepIsBits | src/aftp/fec/envelope.rs:185-192 | the register step equals eight bit steps written apart from it: low bit of the byte first, shift right, and the reversed polynomial XORed in exactly if the register's low bit differs from the byte's |
| Crc32.KnownAnswers | src/aftp/frame.rs:259 | the checksums of the bytes `0`, `1` and of the digits 1 to 9 (0xCBF43926), which pin polynomial, reflection, initial value and inversion |
| Crc32.KnownTags | src/aftp/fec/envelope.rs:189 | the envelope's tag carries a checksum highest byte first, the frame's trailer lowest byte first |
| Envelope.Encode | src/aftp/fec/envelope.rs:155-199 | refuses payloads over 65535 bytes; otherwise emits prefix, then CRC and payload, or nonce and the sealed payload with the prefix as associated data, with the flags forced |
| Envelope.EncodedIs | src/aftp/fec/envelope.rs:155-199 | the datagram field by field, integers big-endian at fixed places: without a key both flag bits off, the CRC-32 of prefix and payload, the payload; with one both on, the nonce, and the payload sealed under that nonce and that prefix; the other flag bits as given; refused exactly over 65535 bytes, for a key of other than 32 bytes or if sealing fails |
| Envelope.DecodeOfEncode | src/aftp/fec/envelope.rs:155-298 | what one side encodes the other decodes, with and without a key, for any lawful authenticated cipher; the flags come back as they were forced |
| Envelope.PlainIsCanonical | src/aftp/fec/envelope.rs:203-298 | without a key, a datagram is accepted exactly when it is the encoding of the result |
| Envelope.KeyedAccepts | src/aftp/fec/envelope.rs:203-262 | with a key, a datagram is accepted as an envelope exactly when it has the magic and version, both flags, the length its fields add up to, and the cipher opens what follows the nonce under that nonce and the prefix as it came; the envelope's fields are read big-endian at fixed places |
| Envelope.KnownPrefix | src/aftp/fec/envelope.rs:140-148 | the authenticated prefix byte by byte, integers highest byte first, in literal values |
| Envelope.AnyByteFlipRejected | src/aftp/fec/envelope.rs:262-298 | without a key, changing any one byte of an accepted datagram makes it rejected |
| Envelope.FullSymbolFits | src/aftp/fec/envelope.rs:109-117 | a full symbol with its 4-byte id fits the MTU exactly when the MTU has room for the overhead and the id at all: the saturating subtraction hides the other case |
| Blocks.BuildFecOffer | src/aftp/frame.rs:949-965 | builds 27 bytes from which every field of the offer is read back |
| Blocks.ParseFecOffer | src/aftp/frame.rs:977-1017 | accepts exactly the offers with non-zero sizes, symbol within block and the exact block count; reports truncation exactly below 27 bytes |
| Blocks.AcceptableExactly | src/aftp/frame.rs:977-1017 | accepted offers, without division: symbols of at least one byte that fit a block, and a count of blocks that covers the object with none to spare |
| Blocks.KnownOffer | src/aftp/frame.rs:949-965 | an offer byte by byte, in literal values |
| Blocks.OfferRoundTrip | src/aftp/frame.rs:949-1017 | a built offer parses to itself |
| Blocks.AcceptedBlockIsExact | src/aftp/fec/codec.rs:58-62 | each block range of an accepted offer is computed without 64-bit overflow, is non-empty and ends where the next begins |
| Blocks.AcceptedOfferIsExact | src/aftp/fec/codec.rs:50-62 | an accepted offer makes the block count exact (no 32-bit narrowing) and the ranges an ordered partition of the object |
| Blocks.ReassembledByte | src/aftp/fec/codec.rs:58-62 | after blocks arrived in any order, a byte is the object's exactly if its block arrived, else what the file held before |
| Blocks.AnyOrderRebuilds | src/aftp/fec/codec.rs:58-62 | blocks written at their offsets in any order with any duplicates rebuild the object once each has arrived |
| Paths.SafePathStaysInside | src/aftp/fec/manifest.rs:132-163 | a path that validates, joined component by component, never leaves the root |
| Paths.SafeExactly | src/aftp/fec/manifest.rs:132-163 | a path written as components with slashes between them validates exactly if no component is empty, one dot or two, none has a backslash in it, and the second byte is no colon; every path is so written once |
| Paths.JoinedSplit | src/aftp/fec/manifest.rs:152-160 | splitting at slashes gives slash-free components that join back to the path |
| Paths.LessMeans | src/aftp/fec/manifest.rs:267-268 | the order of paths: the one that ends first, or has the smaller byte where they part, comes first |
| Merkle.LevelUp | src/aftp/fec/manifest.rs:208-219 | the inner loop computes one level: pairs hashed, an odd last node promoted unchanged |
| Merkle.MerkleRoot | src/aftp/fec/manifest.rs:199-221 | the nested loops compute the root function, the empty tree included |
| Merkle.NextLevelAt | src/aftp/fec/manifest.rs:208-219 | node `i` one level up: the hash of a one, node `2i` and node `2i + 1`, or the last node itself when it has no partner |
| Merkle.KnownRoots | src/aftp/fec/manifest.rs:199-221 | the roots of no, one, two, three and five entries spelled out for every hash and entries |
| Merkle.KnownLeafInput | src/aftp/fec/manifest.rs:173-183 | what is hashed for a leaf, byte by byte |
| Merkle.LeafInputInjective | src/aftp/fec/manifest.rs:173-183 | two entries with the same leaf input agree in kind, path, mode, size and content hash |
| Merkle.TreeBinding | src/aftp/fec/manifest.rs:187-221 | two trees with equal top hash have the same shape and leaves, or two hashed strings collide |
| Merkle.RootBinding | src/aftp/fec/manifest.rs:173-221 | two entry lists of any lengths with the same root agree, in number and order, in every hashed field, or two distinct strings hashed for their roots have the same hash |
| Manifest.ExtentsPartition | src/aftp/fec/manifest.rs:432-463 | every offset below the total length of a laid-out manifest lies in exactly one file's extent |
| Manifest.Encode | src/aftp/fec/manifest.rs:376-395 | writes head and entries in wire order |
| Manifest.KnownEntry | src/aftp/fec/manifest.rs:376-395 | an entry byte by byte, the two length prefixes included, in literal values |
| Manifest.KnownHead | src/aftp/fec/manifest.rs:376-383 | the head byte by byte |
| Manifest.Decode | src/aftp/fec/manifest.rs:397-481 | the decoding loop computes the decoder function, with each rejection where the code makes it |
| Manifest.DecodeOfEncode | src/aftp/fec/manifest.rs:376-481 | every well-formed manifest survives the wire, whatever follows it |
| Manifest.EncodeOfDecode | src/aftp/fec/manifest.rs:376-481 | the encoding of an accepted manifest is a prefix of its buffer exactly when decoding replaced nothing in its paths, as with UTF-8 paths |
| Manifest.AcceptedIsSound | src/aftp/fec/manifest.rs:397-481 | every accepted manifest has safe paths only, contiguous offsets over `[0, total_len)`, the root of its entries and no more than the capped number of them |
| Manifest.RootBindsManifest | src/aftp/fec/manifest.rs:173-221 | any two accepted manifests with the same root are equal in every field, offsets and lengths included, or two distinct strings hashed for their roots collide |
| PackedTree.ExtentsEndToEnd | src/aftp/fec/manifest.rs:522-537 | the extents of a laid-out manifest, empty files dropped, lie end to end, so sorting them by offset changes nothing |
| PackedTree.PartitionPointFinds | src/aftp/fec/manifest.rs:574-576 | the partition-point index is that of the file holding the byte |
| PackedTree.PackedTreeReader.ReadFiles | src/aftp/fec/manifest.rs:568-595 | the loop fills the window with the region's bytes across any number of files, always makes progress and never runs past the last file |
| PackedTree.PackedTreeReader.ReadBlock | src/aftp/fec/manifest.rs:547-597 | every in-bounds window, spanning the prefix and any number of files, equals that slice of the flat stream; out of bounds is refused, `u64` overflow included; `past end of files` is unreachable |
| Unpack.PrefixReadsBack | src/aftp/fec/manifest.rs:508-516 | the manifest and the data base are recovered from the front of the packed object |
| Unpack.Destination.UnpackDir | src/aftp/fec/manifest.rs:648-652 | creates the directory with its ancestors and applies its mode, or is refused where a directory on the way cannot be searched or written by the receiver |
| Unpack.Destination.CopyOut | src/aftp/fec/manifest.rs:680-691 | the copying loop moves exactly the file's bytes, a buffer at a time, or reports a short packed file |
| Unpack.Destination.PlaceContent | src/aftp/fec/manifest.rs:669-700 | stages under the temporary name, verifies the digest, renames and applies the mode; it succeeds only if the bytes at the file's place have the stated digest, and a digest failure means that they do not and leaves everything as it was with the temporary name gone; modes applied before are in force |
| Unpack.RefusedOverDigest | src/aftp/fec/manifest.rs:658-697 | one file is refused over its digest exactly when its path validates, its parent and the staged file can be made, its bytes are there, and their hash is not the stated one |
| Unpack.UnpackedIsVouched | src/aftp/fec/manifest.rs:635-705 | for any packed bytes, manifest and destination: a tree is unpacked only if every path validates and the bytes at every file's place have the digest its entry states; it fails over a digest only if those of some file do not |
| Unpack.ReceivedIsVouched | src/aftp/server.rs:1023-1041 | for any staged bytes: a tree is received only if the front is a length within the cap and a manifest the decoder accepts, the lengths add up to the offer, and every file's bytes have the digest that manifest states |
| Unpack.Destination.UnpackTree | src/aftp/fec/manifest.rs:635-705 | all directories, then all files, stopping at the first failure |
| Unpack.ReceiveTree | src/aftp/server.rs:1023-1041 | the manifest is recovered, its length checked against the offer, and the tree unpacked into an empty destination; only what the manifest at the front vouches for is received |
| UnpackProof.PlaceFileStep | src/aftp/fec/manifest.rs:658-701 | one file: in place if the modes above it let the receiver and its temporary name is free, refused if they do not or that names a directory, at the cost of another file if that was unpacked before |
| UnpackProof.LostStaysLost | src/aftp/fec/manifest.rs:658-701 | a file overwritten by a temporary name is not put back by the files that follow |
| UnpackProof.UnpackExact | src/aftp/fec/manifest.rs:635-705 | unpacking a manifest that describes a tree, in any order of its entries, restores the tree exactly when each directory and file can be made after the ones before it: no temporary name is that of a directory or of an earlier file, and no mode applied earlier shuts the receiver out; otherwise something is missing |
| UnpackProof.RestoredIsSame | src/aftp/fec/manifest.rs:728-734 | a mode of zero is not applied, so what is restored is the tree itself exactly when no mode of it is zero unless new nodes get zero too |
| TreeTransfer.BuildManifest | src/aftp/fec/manifest.rs:265-302 | fails exactly on unsafe paths; otherwise directories then files, each sorted by path, files laid end to end, with the Merkle root of that |
| TreeTransfer.BuildIsOrderIndependent | src/aftp/fec/manifest.rs:268-302 | the manifest does not depend on the order directories were read in |
| TreeTransfer.BuiltInOrder | src/aftp/fec/manifest.rs:265-297 | directories come before files, and each group in byte order of the paths |
| TreeTransfer.BuiltDirs | src/aftp/fec/manifest.rs:270-280 | an entry for a directory has its mode, and zeros for size, offset and digest |
| Walk.WalkTree | src/aftp/fec/manifest.rs:244-263 | the stack loop reads every directory below the root once and meets every name, in whatever order directories are read; links are counted and not followed; it fails exactly if a name met does not validate |
| Walk.TreeIsValid | src/aftp/fec/manifest.rs:244-263 | above everything packed there are only packed directories |
| Walk.BuildFromDisk | src/aftp/fec/manifest.rs:239-312 | walk, sort and lay out: the manifest is the one of what lies below the root, links and special files left out, independent of read order |
| Walk.TransferDisk | src/aftp/server.rs:984-1057 | from a directory with links and special files, read in any order, to the restored tree: refused exactly for a name that does not validate; otherwise what is packed of it comes out under the conditions of the tree transfer, and every link is counted |
| TreeTransfer.RegionHolds | src/aftp/fec/manifest.rs:268-302 | the file region holds each file's bytes where its entry says |
| TreeTransfer.BuiltDescribes | src/aftp/fec/manifest.rs:239-302 | a built manifest describes its tree, behind any prefix |
| TreeTransfer.TempNamesComeLater | src/aftp/fec/manifest.rs:265-268 | in path order nothing before a file can have its temporary name, so files never overwrite each other |
| TreeTransfer.BuiltUnpacks | src/aftp/fec/manifest.rs:635-705 | unpacking what was built restores the tree exactly when no directory is named like a file's temporary name and every directory with an entry in it has a mode that lets the receiver make entries; otherwise something is missing |
| TreeTransfer.OpenExactly | src/aftp/fec/manifest.rs:648-661 | in path order every directory can be made and every file placed exactly when the receiver is privileged or every directory with an entry in it is owner-writable and searchable |
| TreeTransfer.OpenMeans | src/aftp/fec/manifest.rs:648-661 | such a tree is open exactly to a privileged receiver, or when each directory that holds a name is left with a mode whose owner bits 0x80 and 0x40 are set |
| TreeTransfer.BuiltWellFormed | src/aftp/fec/manifest.rs:376-481 | a built manifest within the caps is one the decoder accepts |
| TreeTransfer.SendBlocks | src/aftp/fec/codec.rs:58-62 | every block read through the virtual stream in any order with any duplicates and written at its offset rebuilds the packed object |
| TreeTransfer.DigestObject | src/aftp/client.rs:967-982 | the closing digest loop hashes exactly the packed object |
| TreeTransfer.TransferTree | src/aftp/server.rs:984-1057 | pack, send in blocks, reassemble, verify, unpack: the tree comes out restored exactly when no directory is named like a file's temporary name and every directory with an entry in it may be written by the receiver, and then it is the tree that went in exactly when its zero modes are kept; otherwise something of it is missing |
| Put.ChunkSurvives | src/aftp/frame.rs:248-268 | whatever was chosen for a chunk, compression or not, CRC or not, the server recovers the chunk from a frame within its cap |
| Put.PassesExactly | src/aftp/frame.rs:248-268 | a payload passes as some data exactly when it is the data with its CRC-32, low byte first, behind it |
| Put.OneByteFails | src/aftp/frame.rs:248-268 | one changed byte, in the data or in the trailer, and the payload does not pass |
| Put.DataFrameIs | src/aftp/client.rs:1353-1406 | the compressed flag is set, and the compressed form sent, exactly if that is shorter; the CRC flag and four trailer bytes exactly with checksums on; no other flag |
| Put.EndRoundTrip | src/aftp/frame.rs:471-478 | DATA_END with a checksum under 256 bytes parses to itself |
| Put.KnownEnd | src/aftp/frame.rs:471-478 | the DATA_END payload byte by byte |
| Put.SendChunk | src/aftp/client.rs:1353-1406 | the frame written is the one of the chunk, compressed only if that is shorter, the CRC over the payload as sent |
| Put.Upload | src/aftp/client.rs:1346-1411 | whatever the reads return: data frames of consecutive chunks of the file, then count and digest of all of them; it stops short of the end of the file exactly when the server allowed no bytes per frame and the file is not empty |
| Put.Directory.HandlePut | src/aftp/server.rs:1745-1888 | one upload from start to end: the receive loop, stage and rename, leave the directory as the specification of the stream says, for arbitrary bytes; a folder with the staging or the final name stops it; what is published is vouched for, digest included |
| Put.DigestDecides | src/aftp/server.rs:1831-1865 | for all chunks and whatever the closing frame says: their data is published exactly if the stated length is theirs and, with a SHA-256 given, so is the hash; otherwise the staging file is removed |
| Put.WrongDigestChangesNothing | src/aftp/server.rs:1857-1865 | after a wrong SHA-256 the directory is as it was, without the staging name |
| Put.DamagedFrameStops | src/aftp/server.rs:1811-1829 | one changed byte in a frame with a checksum ends the upload there, with nothing more staged and nothing published |
| Put.OversizedStops | src/aftp/server.rs:1758-1762 | so does a frame more than 1024 bytes over the agreed size |
| Put.ReceiveVouched | src/aftp/server.rs:1758-1888 | data is published exactly when the stream starts with data frames that decode to it, followed by a DATA_END with its length and, if it gives a SHA-256, one that is the data's hash |
| Put.UploadIsPublished | src/aftp/server.rs:1758-1888 | the frames a client emits make the server publish the concatenation of the chunks |
| Put.PutFile | src/aftp/client.rs:1304-1424 | for every file, every cut of its reads, every compression and CRC choice: published exactly when no folder has the final or the staging name, and then the final path holds exactly the file, unless the server allowed no bytes per frame; nothing but it and the staging file changes |
| Put.TempIsSelf | src/aftp/server.rs:1745-1746 | the staging path is the final path exactly when the name has a stem and ends in the staging extension |
| Put.TempReplaces | src/aftp/server.rs:1746 | the staging name replaces the last extension of a name that has a stem |
| Put.PutIsSafe | src/aftp/server.rs:1745-1888 | for arbitrary frames of an upload that has the directory to itself the final path is untouched or holds vouched data, exactly when its extension is not the staging extension; otherwise a broken connection alone destroys it |
| Uploads.StepKeeps | src/aftp/server.rs:1745-1888 | every step of any of n concurrent uploads keeps the invariant: an open upload has its staging file to itself, and final paths are untouched or vouched |
| Uploads.UploadsAreSafe | src/aftp/server.rs:405-445 | in every interleaving of n uploads in which none starts while another with its staging name is under way, every final path is untouched or holds what the stream of an upload to it vouches for |
| UploadsArrive.OwnDataStays | src/aftp/server.rs:1758-1888 | in every interleaving that keeps uploads apart, the rename of an upload puts the data its own stream vouches for at the final path, exactly if no folder is there, and they stay until the next rename to that path |
| UploadsArrive.TakeEnds | src/aftp/server.rs:1758-1865 | frame by frame, among others, the server ends an upload as its whole stream says: verified exactly with what is to be published, given up with the staging name removed, or given up with it left |
| UploadsArrive.VouchedArrives | src/aftp/server.rs:1758-1888 | an upload that is vouched for is never given up by the server: from every state, unless its connection broke off, its own steps lead to that rename |
| Uploads.SharedTempBreaks | src/aftp/server.rs:1746-1752 | two uploads with one staging name: a run after which a final path holds bytes no stream vouches for |
| Uploads.TempNameBreaks | src/aftp/server.rs:1746-1752 | an upload to a name with the staging extension: a run that truncates the file it was to replace |
| Uploads.SafeExactly | src/aftp/server.rs:1745-1888 | for any names of n uploads: all final paths come out right in every interleaving, for all streams and directories, exactly when no two share a staging name and none has the staging extension |
| Feedback.MessageRoundTrip | src/aftp/frame.rs:1059-1108 | both feedback messages survive their frames |
| Feedback.KnownMessages | src/aftp/frame.rs:1059-1108 | both messages byte by byte, in literal values |
| Feedback.MessageMeans | src/aftp/frame.rs:1075-1108 | which frames are which message: the type decides, integers stand low byte first at fixed places, and flags and further bytes are ignored |
| Feedback.StepKeeps | src/aftp/server.rs:1156-1211 | every step keeps written, frame queue, hand and feedback queue, joined, equal to everything sent |
| Feedback.EveryMessageArrives | src/aftp/server.rs:1153-1228 | in every interleaving, once flushed every message including the last has been written once, in order, and a peer reading the bytes makes exactly those messages of them |
| Feedback.StuckWhen | src/aftp/server.rs:1212-1227 | awaiting the pump hangs exactly when it holds a frame and the frame queue is full |
| Feedback.DrainEnds | src/aftp/server.rs:1212-1228 | after the receive loop ends every run is finite, and those that cannot go on have flushed everything exactly when at most 1024 messages were pending |
| Feedback.HangReachable | src/aftp/server.rs:1153-1226 | a run that leaves 1025 messages pending exists |
| RateLimit.AuthRateLimiter.IsLockedOut | src/aftp/server.rs:65-76 | locked out means five failures and less than 60 whole seconds since the last; an expired lockout is forgotten |
| RateLimit.LockedExactly | src/aftp/server.rs:65-76 | in nanoseconds: five failures on record, and now before the last one plus sixty seconds |
| RateLimit.LockoutEnds | src/aftp/server.rs:65-76 | sixty seconds after the last of five or more failures the lockout is over for good, and the next check forgets that address's failures and no one else's |
| RateLimit.RecordedExactly | src/aftp/server.rs:79-101 | a failure adds one to its address's count and dates it, and drops, when more than 5000 addresses are on record, exactly the others quiet for two minutes |
| RateLimit.AuthRateLimiter.RecordFailure | src/aftp/server.rs:79-95 | counts and dates the failure, and cleans up above half the capacity |
| RateLimit.AuthRateLimiter.CleanupExpired | src/aftp/server.rs:98-101 | drops exactly the entries two lockouts old |
| RateLimit.CleanupKeepsLocks | src/aftp/server.rs:79-101 | cleanup, and failures of other addresses, unlock no one |
| RateLimit.StepKeeps | src/aftp/server.rs:565-648 | every event of any address keeps the invariant tying the counter to the failures of the last minute |
| RateLimit.WindowBound | src/aftp/server.rs:52-107 | with at most k handshakes of an address under way at a time, at most 4 + k failures of it are recorded in any half-open 60 seconds without a success between them: 5 for one after another |
| RateLimit.BoundIsMet | src/aftp/server.rs:565-636 | for every k some run records 4 + k failures in one window, so overlapping handshakes exceed the sequential bound |
| RateLimit.ResumesAreNotCounted | src/aftp/server.rs:725-746 | refused RESUMEs leave the limiter's table as it was, and for every n a run of n of them exists from any state, a locked-out one included: the bound on recorded failures does not bound refused tokens |
| Download.RangesTile | src/engine.rs:315-321 | the chunk ranges are non-empty, contiguous, start at 0 and end at the last byte, with no saturation |
| Download.ThreeChunks | src/engine.rs:115-118 | a download is chunked exactly if ranges are served and useful, more than one chunk may be fetched at a time, and the file makes at least three |
| Download.TaskLandKeeps | src/engine.rs:362-367 | bytes a task has handed over reach the file at their offset in every phase of the main flow, the fallback's and the time after success included, and keep the invariant |
| Download.OnlyLastPieces | src/engine.rs:325-396 | after a chunked success a byte that is not the source's is a zero, and lies in the last buffer of a chunk whose task has ended before that was written |
| Download.StepKeeps | src/engine.rs:115-400 | every step keeps the invariant, bytes handed to a file handle told apart from bytes written; a finished download stays as it finished |
| Download.DownloadIsSafe | src/engine.rs:115-152 | in every interleaving no more than `num_parallel` tasks are in flight; after a single-stream success the destination is the source and stays so, whatever leftover tasks still write; after a chunked one it differs at most on last pieces not yet written, and is the source, for good, once all of them are |
| Download.RunsEnd | src/engine.rs:249-400 | every run, with any failures and retries, has a bounded number of steps |
| Download.NeverStuck | src/engine.rs:325-396 | short of its end a download can always go on without anything having to fail |
| DownloadSuccess.UnwrittenRun | src/engine.rs:325-396 | for any byte of any chunk's last piece some run without a failure ends in a chunked success with that byte still the zero the file was sized with |
| DownloadSuccess.SuccessTooEarly | src/engine.rs:362-396 | such a success with the piece pending; and if the write of it then fails, the byte stays a zero whatever follows |
| DownloadSuccess.SuccessMeansSource | src/engine.rs:115-396 | every run that reports success leaves the source exactly if the download is not chunked, or all last pieces are zeros anyway |
| DownloadSuccess.SuccessWhateverTheBytes | src/engine.rs:118-130 | for whatever bytes of that length: exactly if the download is not chunked or the file exceeds the size limit of chunked downloads |
| Glob.MatchesIffReads | src/sync.rs:652-700 | the recursion of the matcher accepts exactly the texts some segmentation of which reads the pattern |
| Glob.GlobMatchInner | src/sync.rs:652-700 | the loops and backtracking compute that recursion, and terminate |
| Glob.GlobMatch | src/sync.rs:646-650 | a pattern matches exactly the texts that can be cut along its tokens, a token taking part only while text is left and only stars left over |
| Glob.PlainMeans | src/sync.rs:652-700 | a pattern without wildcards matches itself only |
| Glob.StarMeans | src/sync.rs:652-700 | `*` between plain parts stands for exactly the texts without a slash, the empty one included |
| Glob.AnyMeans | src/sync.rs:652-700 | `?` stands for exactly one character that is no slash |
| Glob.DoubleStarMeans | src/sync.rs:652-700 | `**` stands for any text, slashes included |
| Glob.DoubleStarSlashMeans | src/sync.rs:656-660 | a slash behind `**` counts for nothing, as long as the text goes on |
| Glob.FolderMeans | src/sync.rs:652-700 | a folder's name followed by `/**` matches exactly what begins with the folder and a slash, at any depth |
| SyncFilter.FilterMatches | src/sync.rs:602-614 | the two loops: excluded paths are out, and with includes given only what one of them accepts is in |
| SyncFilter.PatternMatches | src/sync.rs:629-642 | the extension shortcuts before the glob |
| SyncFilter.ExtensionReachesDown | src/sync.rs:633-641 | `*.ext` is the glob it is written as on the last name of a path, so it reaches into every folder; as a glob of the whole path it would match in the root only |
| SyncFilter.ExtensionIsLiteral | src/sync.rs:633-635 | whatever follows `*.` is compared as it stands, stars included |
| SyncFilter.FilterDecides | src/sync.rs:188-196 | what an exclude accepts, or none of the includes, is skipped; what passes and is missing is copied |
| Glob.SameDepth | src/sync.rs:652-700 | a pattern without `**` matches only texts with as many slashes |
| Glob.TrailingSlashNeedsText | src/sync.rs:656-660 | `a**/` matches every longer text starting with `a` but not `a`: the slash a `**` swallows is not swallowed at the end of the text |
| Lister.ListRecursive | src/protocols/mod.rs:223-254 | the stack loop terminates and returns the entries of the depth-first walk, each as often as the walk meets it, or fails, exactly if a directory to be read cannot be listed |
| Lister.FailsExactly | src/protocols/mod.rs:233-237 | the listing fails exactly if the root or a directory at most the limit below it cannot be listed |
| Lister.ListedExactly | src/protocols/mod.rs:223-254 | every node at most one level below the depth limit is returned, once, under its slash-joined path, and nothing else |
| Lister.ListedWithParents | src/protocols/mod.rs:223-254 | with a node, all directories above it are listed |
| Lister.JoinSlashes | src/sync.rs:296-297 | the slashes in a listed path are one fewer than its names |
| SyncPlan.BuildIndex | src/sync.rs:157-161 | the index maps each path to its last entry |
| SyncPlan.IndexIsLast | src/sync.rs:157-161 | of entries with one path the index has the last |
| SyncPlan.IndexOfListing | src/sync.rs:157-161 | the index of a listing, in any order, is the tree's |
| SyncListing.JoinSplits | src/protocols/mod.rs:238-243 | a joined path splits back into its names, so different nodes have different paths |
| SyncListing.ListingLists | src/protocols/mod.rs:223-254 | the recursive listing of what a handler serves, in whatever order, lists its tree down to one level below the limit |
| Times.OrderIsTime | src/sync.rs:231 | comparing two printed numbers of seconds as strings compares the times exactly when they have as many digits or the shorter comes no later than the front of the longer |
| Times.TenDigits | src/protocols/aftp.rs:170 | all times of ten digits, 2001 to 2286, are so compared |
| Times.NineDigitsThenTen | src/sync.rs:231 | the second before ten digits begin has a string after that of the next |
| SyncPlan.UpdateCopiesNewer | src/sync.rs:220-246 | with `--update`, between such times, a file is copied exactly if it is wanted, differs and is newer |
| SyncPlan.BuildPlan | src/sync.rs:164-311 | the plan: source actions in listing order, file deletes, then directory deletes deepest first |
| SyncOptions.FileDecision | src/sync.rs:187-262 | over the configuration alone: a source file that fails the filter or whose reported size is under the minimum or over the maximum is skipped; one that passes and is missing is copied; one that is there is copied exactly if sizes differ, or in the time comparison a time is missing or other, and, with `--update`, it is not dated the same or earlier |
| SyncOptions.FilteredStays | src/sync.rs:187-218 | a filtered-out source file is planned as a skip and the destination's path is as it was after the run, whatever is there |
| SyncOptions.MissingArrives | src/sync.rs:220-252 | a file that passes and is missing is planned as a copy and has the source's bytes afterwards |
| SyncOptions.PresentIsReplaced | src/sync.rs:220-262 | a file that passes over a listed one replaces it exactly if it differs and is not held back by `--update`; otherwise the destination's file stays |
| SyncOptions.ExtraneousGoes | src/sync.rs:264-311 | of what the source lacks all stays without `--delete`; with it exactly what was too deep to be listed, filters and bounds notwithstanding |
| SyncOptions.EarlierIsLess | src/sync.rs:231 | the string comparison of times: the one that ends first, or has the smaller character where they part, is less |
| SyncMeaning.DeepestFirstMeans | src/sync.rs:296-297 | the directory deletes are each extraneous directory once, deepest first |
| SyncMeaning.FileDeletesCarry | src/sync.rs:276-293 | the file deletes are exactly the listed files the source lacks, each with its listed size |
| SyncMeaning.PlanMeans | src/sync.rs:164-311 | every path of either side gets the one action its state calls for, once, whatever the order of the listings |
| SyncMeaning.DirDeletesSorted | src/sync.rs:450-461 | picking the directory deletes out of the plan keeps them deepest first |
| Sync.MakeDirs | src/sync.rs:355-375 | shallowest first, no parent is ever missing; nothing but the listed paths changes, even on failure |
| Sync.CopyFiles | src/sync.rs:377-426 | copies in any order on existing parents all succeed and leave exactly the source bytes; directories are never replaced |
| Copies.StepKeeps | src/sync.rs:507-546 | every step of any of n concurrent copies through temporary files keeps the invariant: a copy under way has its own file, holding what it fetched, and the destination a front of its source |
| Copies.CopiesAreExact | src/sync.rs:507-546 | in every interleaving in which no copy begins while another with its temporary name is under way: success means exactly the source at the destination, failure at most a front of it, and no copy finds its temporary file missing |
| Copies.SharedNameBreaks | src/sync.rs:507-514 | two copies that share a temporary name: a run in which one succeeds with the other's bytes |
| Copies.ExactExactly | src/sync.rs:507-514 | for any names: success means the source in every interleaving exactly if the names are distinct |
| Sync.DeleteFiles | src/sync.rs:428-448 | file deletes in any order all succeed and remove exactly those files |
| Sync.DeleteDirs | src/sync.rs:450-461 | deepest first, a directory delete fails exactly when something that stays lies below one of them |
| Sync.DirDeletesAreReady | src/sync.rs:296-310 | what is deleted before leaves the directories empty exactly when nothing too deep to be listed lies below them |
| Sync.SyncTrees | src/sync.rs:126-464 | without a kind clash every step is legal in every order, unless something too deep to be listed lies below a directory to delete, and then exactly not; the outcome is then exactly the plan's and the counts are those of a dry run; a clashing path is never touched |
| Sync.OutcomeMirrors | src/sync.rs:164-311 | with delete on and no filters the outcome has the source's paths, kinds and sizes exactly when the listing reached the whole destination and files of different lengths can be told apart: one side reports sizes, or times are compared and missing or different; copied files have the source's bytes |
| Sync.Mirror | src/sync.rs:126-464 | a mirroring sync succeeds and mirrors the source exactly when there is no kind clash, the listing reached the whole destination and files of different lengths can be told apart |
| SyncListing.SyncRoots | src/sync.rs:126-464 | the same from the two roots, listing included, a destination root that is missing listed as empty: an unlistable directory leaves the destination as it was, otherwise the sync mirrors what was listed exactly under those conditions |
| Sync.SecondRun | src/sync.rs:164-311 | the second run of any sync plans nothing but skips exactly when the first one's copies settle: sizes reported on both sides or on neither and, when times are compared, the source's time, or with `--update` a later one |
| Sync.Report | src/sync.rs:324-332 | the counts of a dry run, by kind of action |
| Masking.WordXor | src/crypto/mod.rs:55-61 | one eight-byte word step is eight byte steps |
| Masking.XorByteBits | src/crypto/mod.rs:55-66 | the byte XOR bit by bit: a bit is set exactly if the two bytes differ in it |
| Masking.FitsExactly | src/crypto/mod.rs:44-49 | exactly when the code does not panic: an empty key, or one of 1, 2 or 4 bytes or of whole words, takes any data; another below 8 bytes fewer than 16 bytes of it; another longer one as many whole words as it holds, and less than a word more |
| Masking.MaskTwice | src/crypto/mod.rs:35-69 | masking twice with the same key gives the data back |
| Masking.WholeWordKeysFit | src/crypto/mod.rs:44-49 | a key whose length divides 8 or is a multiple of 8 never makes the code panic |
| Masking.XorWithKey | src/crypto/mod.rs:35-69 | the word-widened code equals the byte-by-byte repeating XOR, and panics exactly when the expanded key is not made of whole words and the data has more whole words than it |
| Ofb.UnpadOfPad | src/crypto/neural.rs:422-425 | removing PKCS#7 padding (section 6.3 of RFC 5652) undoes adding it |
| Ofb.PadIs | src/crypto/neural.rs:422-425 | the padded text spelled out: as many bytes as are missing to a whole block, 1 to 16, each holding that number |
| Ofb.UnpadMeans | src/crypto/neural.rs:489-499 | unpadding drops exactly an ending of `n` bytes holding `n`, for `n` of 1 to 16, and nothing else |
| Ofb.Encrypt | src/crypto/neural.rs:421-456 | the result starts with the IV; what turns the padded text into the rest is the block function of the IV in the first block, and in every later block the block function of what it was in the block before (section 6.4 of NIST SP 800-38A) |
| Ofb.Decrypt | src/crypto/neural.rs:461-504 | an empty result for a length no ciphertext has; otherwise a text chained to the ciphertext by the same recurrence from its first block, without padding if that is well formed |
| Ofb.DecryptedIs | src/crypto/neural.rs:461-504 | that recurrence between the ciphertext and the text before unpadding, for every block function |
| Ofb.DecryptInverts | src/crypto/neural.rs:421-504 | decryption inverts encryption for every plaintext, IV and block function |
| Container.RoundTrip | src/crypto/mod.rs:124-258 | every method, IV and key: decrypting the encrypted file gives the plaintext exactly when it is at most one tebibyte long |
| Container.OpenedExactly | src/crypto/mod.rs:185-256 | the order of refusals over the literal header: length, magic, version, method, a stated length over one tebibyte, room for the key ciphertext; and what each method makes of the rest |
| Container.KnownHeader | src/crypto/mod.rs:167-177 | the header byte by byte, in literal values |

## Left out

- RaptorQ, the symbol scheduler and pacing: an object travels as blocks, decoded or not at
  all; `oti_for_block` and the symbol layer are not part of this model.
- Sockets, TLS, QUIC, HELLO negotiation and acknowledgements: a connection is a byte stream
  in one direction.
- The FEC branches of `handle_put`: a PUT is modelled without the fountain data plane.
- Resume paths of uploads and downloads.
- The walk of `build_manifest` meets UTF-8 names and no I/O errors; a tree that changes while
  it is read is not modelled. `sort_by` is an insertion sort.
- The receiver owns what it makes, and its root is writable: modes restrict it by the owner's
  write and search bits, or not at all if it is privileged; groups, sticky bits and access
  lists are not modelled.
- File names have no length limit: a name of 244 to 255 bytes is legal at the source, while
  its temporary name at the receiver exceeds 255 bytes and cannot be created.
- Unpack.ReceiveTree: the data base and the manifest's total length are added without 64-bit
  overflow, which only a total within 64 MiB of 2^64 reaches; no staged object has so many bytes.
- `unpack_tree` into a destination that is not empty: the specification covers it, the
  theorems start from an empty one.
- Paths in the sync theorems are lists of names, without the joining to URLs;
  `SyncListing.ListingLists` ties them to the lister's strings. Of a directory only the path is
  compared: the size and time it is listed with, which the planner looks at only where a file
  would replace it, are left out. A destination whose root is missing is
  taken to be made by the first write or `mkdir`, as a local one is. The filter is any
  predicate on paths; `SyncFilter.FilterDecides` puts the code's patterns in its place.
- Sync.CopyFiles: each copy is atomic. `Copies` has the steps of copies through temporary
  files, but takes a download that has reported success to have written its file, which a
  chunked one has not (`DownloadSuccess.SuccessMeansSource`). Byte counts and durations are not
  modelled, and neither are destinations that create parents on write, for which the
  directory phase is skipped. What a destination then reports of a copy, its time and whether
  its size, is a parameter; `set_timestamps` is not modelled.
- Times.OrderIsTime: times printed in other ways than seconds, as by HTTP or local listings,
  are compared as strings with no claim about the times.
- Download.DownloadIsSafe: assumes that ranges return exactly the bytes asked for and that the
  announced length is the file's, as any chunked download must; that a handler's own download
  has written its file when it reports success; and that a piece left over from a failed
  attempt of one lands before the next. Progress, rate limiting, backoff delays and the
  optional checksum afterwards, which reads whatever the file then holds, are not modelled.
- `download`'s doubling of the chunk size is not bounded to 64 bits.
- Feedback.EveryMessageArrives: a control socket that fails ends the receive with an error;
  such runs are not modelled.
- RateLimit: the session store and challenge authentication; any HELLO handshake ends in a
  recorded failure, a success or a broken connection, and a RESUME in a token accepted or
  refused.
- Uploads: the steps of `handle_put` that touch the directory or the staging file are atomic
  each; the FEC branch and the acknowledgements are not among them.
- The neural network, its training and its model file (`write_network`, `read_network`):
  a block function stands for them.
- The multiplexer and the WebSocket and QUIC transports: routing without a hard property.
