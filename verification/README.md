# Qora AES packer, modelled in Dafny

Qora packs a list of files into one container file. The container starts with
a 60-byte header: destination name (32), author `Alopex6414` (16), type tag
(8) and the number of files (4, big-endian). One entry per file follows, in
source order.

An AES entry holds:
- a 56-byte header: zero-padded base name (32), the random 16-byte key,
  OriginSize (4) and CryptSize (4);
- then the payload.

`PackAESOne` builds the payload as follows:
- It splits the file into `AESBufferSize` (128-byte) chunks.
- It pads each chunk to whole 16-byte blocks with the packer's PKCS#7-style
  padding.
- It encrypts each chunk on its own in CBC mode (section 6.2 of NIST SP
  800-38A), with the key's first 16 bytes as IV.
- It joins the cipher texts in chunk order.

Every successfully encrypted chunk bumps the progress counter `Done`.
`PackAES` and `PackAESConfine` fan the files out to goroutines, check that
every entry was built, fill the container header and join everything.
`PackAESWorkCalculate` estimates the work as every file size rounded up to
128 and summed. The Base64 variant is modelled as storing a 36-byte entry
header (name, size) and the concatenated section 4 RFC 4648 encodings of each
128-byte chunk of the file.

The model is pure functions over `seq<byte>`:
- The AES block function is a parameter (`AesCipher.BlockFn`). Round-trip
  lemmas assume only that a second block function inverts it
  (`AesCipher.Inverts`).
- The goroutine fan-out and join is modelled twice. `Workers.RunPool`
  finishes tasks in any order. `Workers.RunConfined` admits them through a
  token channel of fixed capacity, and returns its run as a trace of
  `Admit`/`Finish` events; the trace is proved to be a legal schedule of every
  task that never has more tasks in flight than the channel has tokens
  (`Workers.InFlight`, counted over every prefix). Both are proved to fill
  slot `i` with the result for task `i`.
- `Done` is returned alongside the container bytes.

Modules:
- `Bytes` holds the `utils` helpers `SplitByte`, `BytesCopy`, `IntToBytes` and
  `BytesToInt`, plus `bytes.Join`.
- `Arith` holds rounding up and sums.
- `Global` holds `global/const.go`.
- `Schema` holds the header structs of `pack/pack_com.go` and their byte
  encodings.
- `Container` is a sequential reader of containers and `ExtractInfo`.
- `AesCipher` holds the padding, CBC and `AESEncrypt`.
- `PackAes` holds the packer.
- `AesReadBack` is the inverse of the AES packer.
- `Base64` and `Base64Pack` hold the codec and the Base64 entries.
- `Results` holds the result and option types.

Behaviour that differs from what a reader might expect:
- `PKCS7Padding` adds no bytes to input that is already a multiple of the
  block size. Section 6.3 of RFC 5652 would add a whole block. So padding
  alone cannot be undone (`AesCipher.PaddingNotInjective`). The reader needs
  OriginSize to drop it.
- `PackAESOne` checks the name length only after encrypting. A file whose
  base name is over 32 bytes still adds its chunks to `Done`, and yields an
  empty entry with a nil error.
- A destination base name over 32 bytes makes `PackAES` return a nil error
  without writing anything. The model reports this as `Success(None)`.
- The work estimate rounds to 128 per file, while the payload is rounded to
  16 per chunk. The estimate equals 128 times the final `Done`, not the
  payload size.
- The confined variants hard-code channel capacities 5 and 8192
  (pack/pack_aes.go:82, 306). These equal `ConfineFiles` and
  `ConfineBuffers`, and the model uses those constants.
- The Base64 size field records the encoded payload length: the test entry
  carries 16 for the 12-byte `hello,world!`.

## Model

| member | source | states |
|---|---|---|
| Global.BufferSizesFitBlocks | global/const.go:4-7 | the AES buffer is a whole number of 16-byte AES blocks, the DES buffer a whole number of 8-byte DES blocks, and an RSA pack packet is smaller than an RSA unpack packet |
| Schema.EncodeContainerHeader | pack/pack_com.go:6-11 | every container header (AES, 3DES, DES, RSA, Base64 alike) encodes to 60 bytes |
| Schema.ContainerHeaderRoundTrip | pack/pack_com.go:6-11 | the 60-byte container header decodes back to the fields that were written, whatever bytes follow it |
| Schema.ContainerHeaderComplete | pack/pack_com.go:6-11 | every 60 bytes are the encoding of the header decoded from them, so decoding loses nothing |
| Schema.EncodeEntryHeader | pack/pack_com.go:13-75 | entry headers are 56 bytes for AES, 64 for 3DES, 48 for DES, 1064 for RSA and 36 for Base64 |
| Schema.DecodeEntryHeader | pack/pack_com.go:13-75 | an entry header decodes exactly when enough bytes remain, and the fields have the schema's widths |
| Schema.EntryHeaderRoundTrip | pack/pack_com.go:13-75 | every well-formed entry header decodes back to itself from its encoding followed by anything |
| Schema.EntryHeaderComplete | pack/pack_com.go:13-75 | every header-sized prefix re-encodes to itself from its decoding |
| Bytes.CopyInto | pack/pack_aes.go:249-256 | a `BytesCopy` into a zeroed fixed-width field keeps the width, copies the first bytes of the source and leaves the rest zero |
| Bytes.TrimZerosCopyInto | pack/pack_aes.go:253 | a name that fits and does not end in a zero byte is recovered exactly from its zero-padded field |
| Bytes.U32Injective | pack/pack_aes.go:255-256 | every 4-byte big-endian field is the encoding of the number read from it |
| Bytes.U32Exact | pack/pack_aes.go:64 | a count or size below 2^32 survives `IntToBytes` and `BytesToInt` unchanged |
| Bytes.Split | pack/pack_aes.go:224 | `SplitByte` chunks join back to the data; all chunks are non-empty, at most the buffer size, and all but the last full |
| Bytes.SplitCount | pack/pack_aes.go:224-231 | the number of chunks is the data length rounded up to whole buffers |
| AesCipher.PKCS7Padding | pack/pack_aes.go:410-417 | the source stays a prefix; the length becomes the next multiple of the block size; nothing is added exactly when the length already is one; every added byte equals the number of bytes added |
| AesCipher.PaddingMatchesRfc5652 | pack/pack_aes.go:411-414 | the padding agrees with RFC 5652 section 6.3 exactly when the length is not already block-aligned |
| AesCipher.PaddingNotInjective | pack/pack_aes.go:412-416 | two different inputs pad to the same bytes, so padding alone is not invertible |
| AesCipher.CbcRoundTrip | pack/pack_aes.go:400-404 | CBC decryption with an inverse block function undoes CBC encryption for any IV |
| AesCipher.AESEncrypt | pack/pack_aes.go:388-406 | fails with a key-size error exactly for keys not 16, 24 or 32 bytes long; otherwise the cipher text has the padded length |
| AesCipher.AesChunkRoundTrip | pack/pack_aes.go:398-404 | with a valid key, decrypting a chunk's cipher text and keeping the original length gives the chunk back |
| AesCipher.FullChunkNeedsNoPadding | pack/pack_aes.go:412 | a full 128-byte buffer is not padded and encrypts to exactly 128 bytes |
| PackAes.AESEncryptGo | pack/pack_aes.go:359-368 | a chunk worker counts towards `Done` exactly when encryption succeeds; it then stores the padded length and otherwise an empty slot |
| PackAes.EncryptChunks | pack/pack_aes.go:231-236 | slot `i` holds the worker result for chunk `i` |
| PackAes.CountDone | pack/pack_aes.go:366 | the count reaches the number of chunks exactly when every chunk worker succeeded |
| PackAes.AllChunksCounted | pack/pack_aes.go:217-236 | with the 16-byte key the packer draws, every chunk is counted |
| PackAes.PayloadLength | pack/pack_aes.go:231-237 | the joined payload (CryptSize) is the file length rounded up to 16, because only the last chunk is ever padded |
| PackAes.PackAESOne | pack/pack_aes.go:201-272 | the entry is empty exactly when the base name is over 32 bytes, and every chunk is still encrypted and counted |
| PackAes.EntryOfSource | pack/pack_aes.go:264-270 | an entry is the encoded `TPackAESOne` header followed by the payload |
| PackAes.EntryFields | pack/pack_aes.go:248-256 | the entry header reads back as the name, the key, OriginSize = file length and CryptSize = payload length |
| PackAes.PackAESOneLayout | pack/pack_aes.go:248-270 | an entry reads back as a consistent entry whose header records the file and payload lengths and whose payload is the encrypted file |
| PackAes.FirstEmpty | pack/pack_aes.go:43-48 | finds the first empty entry in source order, or reports that none is empty |
| PackAes.PackAES | pack/pack_aes.go:28-76 | fails exactly when some base name is over 32 bytes, naming the first such source; writes nothing with no error exactly when all names fit and the destination name is over 32 bytes |
| PackAes.PackAESBytes | pack/pack_aes.go:51-70 | the written bytes are the header (destination name, `Alopex6414`, `AES`, file count) then the entries in source order |
| PackAes.PackAESDone | pack/pack_aes.go:34 | `Done` starts from zero and ends at the total number of chunks of all sources |
| PackAes.SumEncryptedChunks | pack/pack_aes.go:366 | adding up the per-file chunk counts gives the total number of chunks |
| PackAes.PackAESOneScheduled | pack/pack_aes.go:230-237 | whatever order the chunk goroutines finish in, the entry is the one the sequential map builds |
| PackAes.PackAESScheduled | pack/pack_aes.go:36-41 | whatever order the file goroutines finish in, the pack result is the sequential one |
| PackAes.PackAESOneConfine | pack/pack_aes.go:276-349 | the confined entry builder gives the same entry, on a schedule of all chunk workers, started in chunk order, with at most `ConfineBuffers` in flight at every point |
| PackAes.PackAESConfine | pack/pack_aes.go:80-131 | the confined pack gives the same result as `PackAES`, on a schedule of all file workers, started in source order, with at most `ConfineFiles` in flight at every point |
| PackAes.PackAESReadsBack | pack/pack_aes.go:61-70 | the written container parses back as its header and one consistent entry per source, in order |
| PackAes.JoinEntriesEncode | pack/pack_aes.go:70 | the joined entry slots are the encoding of the expected entries, all consistent |
| PackAes.PackAESInfo | pack/pack_aes.go:253-255 | listing a packed container gives back every source base name and every file's original size |
| PackAes.PackAESWorkCalculate | pack/pack_aes.go:139-166 | fails exactly on an empty list; otherwise the sum of the sizes rounded up to 128, which is at least the plain sum, at most 128 per file more, and equal to it exactly when every size is already a multiple of 128 |
| PackAes.WorkMatchesDone | pack/pack_aes.go:158-163 | the work estimate is exactly 128 times the final value of `Done` |
| PackAes.WorkIsChunks | pack/pack_aes.go:158-162 | the estimate counts one buffer per chunk of every file |
| PackAes.ChunksOfSize | pack/pack_aes.go:158-161 | one file's rounded size is one buffer per chunk |
| Arith.RoundUp | pack/pack_aes.go:158-161 | the smallest multiple of the buffer size that is at least the size, equal to the size exactly when it is already a multiple |
| Arith.RoundUpIsLeast | pack/pack_aes.go:159-160 | no smaller multiple lies at or above the size |
| Arith.SumRoundedUpBounds | pack/pack_aes.go:162 | the rounded sum lies between the plain sum and the plain sum plus one buffer per file, and equals the plain sum exactly when every size is aligned |
| Workers.RunPool | pack/pack_aes.go:232-236 | for every completion order, slot `i` holds the result of task `i` |
| Workers.ConfinedSchedule | pack/pack_aes.go:305-313 | however the races resolve, the run is a trace in which every task is admitted once in index order and finished once after its admission, and no prefix of it has more than `width` tasks admitted and not finished |
| Workers.ScheduleCompletes | pack/pack_aes.go:313 | a legal schedule finishes every task exactly as a completion order of the unconfined pool needs, so `wg.Wait` returns with every slot written |
| Workers.RunConfined | pack/pack_aes.go:305-313 | the workers run on such a bounded schedule, and slot `i` still holds the result of task `i` |
| Container.ReadEntryRoundTrip | unpack/unpack_base64_test.go:96-109 | an encoded entry reads back as itself: header fields, then as many payload bytes as the header announces |
| Container.ReadEntryComplete | unpack/unpack_base64_test.go:108-109 | an entry read from bytes re-encodes to exactly the bytes it consumed |
| Container.ParseEntriesRoundTrip | pack/pack_aes.go:70 | the join of consistent entries parses back to the same entries |
| Container.ParseEntriesComplete | pack/pack_aes.go:70 | whatever parses encodes back to exactly the parsed bytes |
| Container.TruncatedEntriesFail | pack/pack_aes.go:256-270 | each entry records its payload length (CryptSize) before the payload, so this model's reader, which takes exactly that many bytes, fails on any run of entries with bytes cut off the end |
| Container.ContainerRoundTrip | pack/pack_aes.go:65-70 | a header and consistent entries whose Number matches their count parse back to the same header and entries |
| Container.ContainerComplete | pack/pack_aes.go:65-70 | a container that parses is exactly its header followed by its entries |
| Container.TruncatedContainerFails | pack/pack_aes.go:70-71 | a container of at least one entry with trailing bytes cut off does not parse |
| Container.ExtractInfo | unpack/unpack_base64_test.go:64-76 | succeeds exactly when the container parses; lists one name and one size per entry, names with the zero padding removed |
| AesReadBack.DecryptPieces | pack/pack_aes.go:231-237 | decrypting the payload buffer by buffer succeeds exactly when every buffer is whole blocks, and keeps the total length |
| AesReadBack.UnpackAesEntry | pack/pack_aes.go:255-256 | an entry unpacks exactly when its payload is block-aligned per buffer and holds at least OriginSize bytes; the result is OriginSize long |
| AesReadBack.ChunkDecrypts | pack/pack_aes.go:361 | decrypting one worker's output gives the chunk followed by its padding |
| AesReadBack.PayloadRoundTrip | pack/pack_aes.go:224-237 | decrypting a payload buffer by buffer gives the file back as a prefix |
| AesReadBack.UnpackAesEntryRoundTrip | pack/pack_aes.go:248-270 | every entry `PackAESOne` builds unpacks to the file it came from |
| AesReadBack.PackAESRoundTrip | pack/pack_aes.go:28-76 | every entry of a packed container parses and unpacks to its source file, given an inverse block function |
| Base64.Letter | pack/pack_base64_test.go:74-79 | every 6-bit value has an alphabet character that is not the pad and maps back to that value |
| Base64.SextetLetter | unpack/unpack_base64_test.go:237-243 | every alphabet character is the letter of its own value |
| Base64.Encode | pack/pack_base64_test.go:74-79 | the encoding has four characters per started group of three bytes |
| Base64.DecodeEncode | unpack/unpack_base64_test.go:237-243 | decoding an encoding gives the bytes back, for every input |
| Base64.EncodeDecode | unpack/unpack_base64_test.go:238-240 | whatever decodes is the canonical encoding of its result |
| Base64.NoPadWhenWholeGroups | pack/pack_base64_test.go:59-60 | input whose length is a multiple of three encodes to exactly four characters per three bytes, with no pad |
| Base64.HelloWorld | pack/pack_base64_test.go:75-76 | `hello,world!` encodes to `aGVsbG8sd29ybGQh` and decodes back |
| Base64Pack.Base64EncryptGo | pack/pack_base64_test.go:56-65 | the goroutine wrapper stores exactly what the encoder returns, which decodes back to the input |
| Base64Pack.Base64DecryptGo | unpack/unpack_base64_test.go:219-229 | the goroutine wrapper stores exactly what the decoder returns, whose encoding is the input |
| Base64Pack.PayloadRoundTrip | unpack/unpack_base64_test.go:108-119 | unpacking an encoded payload gives the file back |
| Base64Pack.EntryForConsistent | unpack/unpack_base64_test.go:93-108 | the entry's size field is the encoded payload length, which the reader consumes exactly |
| Base64Pack.TestEntryVector | unpack/unpack_base64_test.go:87-120 | the 52-byte test entry is the entry of `file.txt` holding `hello,world!`: it reads back with the name `file.txt`, size 16 and payload `hello,world!` |
| Base64Pack.ExtractInfoListsFiles | unpack/unpack_base64_test.go:69-75 | listing a Base64 container of n files gives exactly n names, the files' names, with the encoded sizes |
| Base64Pack.PackBase64WorkCalculate | pack/pack_base64_test.go:20-25 | succeeds exactly on a non-empty list, with a multiple of 128 between the plain sum and one buffer per file more |

## Left out

- File I/O: `os.Open`, `ioutil.ReadAll`, `ioutil.WriteFile` and `filepath.Walk` are left out. File contents and sizes are inputs, and the container bytes are the output. The error returns of these calls are not modelled.
- `filepath.Split`: OS path-separator rules are not modelled. The base names are inputs.
- Key generation: `rand.Seed` and `rand.Read` are nondeterministic. Each source carries its 16-byte key.
- AES block cipher internals (`crypto/aes`, `cipher.NewCBCEncrypter`): foreign code. The block function is a parameter and CBC is written out over it.
- Goroutine, `WaitGroup` and `runtime.GOMAXPROCS` mechanics are not modelled. The fan-out is a pool that finishes tasks in any order, or a confined pool with a token channel.
- `Done` as a package-wide atomic shared by concurrent packs is not modelled. Each pack returns its own final count, which is what a pack running alone leaves.
- `log.Println` calls: output only.
- The `len(key) > 16` check at pack/pack_aes.go:244-247: it cannot fire, since the key is always made 16 bytes long.
- 64-bit overflow of the work sum: the model's integers are unbounded.
- PackAes.PackAESReadsBack: requires every file to be at most 2^32 - 16 bytes long and fewer than 2^32 files, because `IntToBytes` truncates to 32 bits and larger values would not read back.
- PackAes.PackAESInfo: requires the same 32-bit bounds, and names that do not end in a zero byte, because the reader cannot tell such a byte from padding.
- AesReadBack.PackAESRoundTrip: requires the same 32-bit bounds as PackAes.PackAESReadsBack.
- Base64Pack.EntryForConsistent: requires the encoded payload to be shorter than 2^32 bytes, because the size field holds 32 bits and a longer payload's size would not read back.
- Base64Pack.ExtractInfoListsFiles: requires every encoded payload to be shorter than 2^32 bytes, fewer than 2^32 files, and names without a trailing zero byte, for the same reasons.
- `SplitByte`, `BytesCopy`, `IntToBytes` and `BytesToInt` (package `utils`): their code is not available, so their behaviour is assumed, guided by their call sites and the test vectors:
  - `SplitByte`: consecutive chunks, the last one shorter;
  - Assumed: `SplitByte` gives no chunk at all for empty data; no call site or test vector fixes this;
  - Go's `copy` into a zeroed field;
  - 4-byte big-endian of the value modulo 2^32.
- `SplitByte`'s error return (pack/pack_aes.go:224-228) is not modelled. With size 128 it is assumed never to fail.
- PackAes.WorkMatchesDone: rests on the assumption that `SplitByte` gives no chunk for empty data. If it gave one empty chunk, an empty file would add 1 to `Done` against an estimate of 0; if it failed, the pack would fail.
- The AES unpacker is not part of this model. `AesReadBack` is this model's own inverse, stated to show that the entries carry everything needed to recover the files.
- DES, 3DES and RSA packers: only their header schemas and buffer constants are modelled.
- `PackBase64`, `PackBase64One`, `Base64Encrypt`, `Base64Decrypt` and the Base64 unpack functions are not part of this model. Their behaviour is taken from their tests and section 4 of RFC 4648 where those fix it; the rest is assumed:
  - Assumed: the payload is the file encoded per `Base64BufferSize` chunk, like the AES payload. The tests' payloads are shorter than one chunk, where chunked and whole-file encoding give the same bytes.
  - The decoder is strict: it accepts only canonical encodings (section 3.5 of RFC 4648). Go's tolerance of line breaks and of non-zero pad bits is left out.
  - Assumed: the container type tag `B64` is a placeholder; no tag for Base64 containers appears in the sources or tests.
  - What `PackBase64One` does with a base name over 32 bytes is unknown, and is not modelled.
- Container.ReadEntry: rejects an entry whose header or payload is shorter than the header's widths and size field say. The reader in unpack/unpack_base64_test.go:100-112 ignores how many bytes `Read` returned for the header fields, and accepts any non-empty short payload read. The same holds for Schema.DecodeEntryHeader, which needs the whole header.
- Container.ExtractInfo: on a Base64 container it reports the size fields as stored, which are encoded payload lengths. `UnpackBase64ExtractInfo` is not part of this model, and its test checks only the number of entries, so this is an assumption.
- Base64Pack.ExtractInfoListsFiles: its sizes are the encoded sizes, under the same assumption as Container.ExtractInfo.
- Base64Pack.Base64DecryptGo: returns `None` for input that is not a canonical encoding. Go's `Base64Decrypt` returns a plain string and no error, so that case has no counterpart there.
- Bytes.FromU32BE: reads the 4-byte field as an unsigned number below 2^32. `BytesToInt` is not part of this model; if it reads a signed 32-bit value, fields from 2^31 upwards would read back negative, and the read-back lemmas' bounds (sizes up to 2^32 - 16) include that range.
- Base64Pack.PackBase64WorkCalculate: the sizes are inputs. The Base64 estimate's rounding is assumed to mirror the AES one.
