/** The Base64 entries of a container and their read-back. Qora's Base64
    packer and unpacker themselves are not part of this model; what is pinned
    down here is what their tests fix: the entry layout (a 32-byte zero-padded
    name, a 4-byte big-endian size, then the encoded payload), the known
    vector, the goroutine wrappers, the entry count `ExtractInfo` reports, and
    a work estimate that succeeds on any non-empty list. The payload is built
    like the AES payload: the file in `Base64BufferSize` chunks, each chunk
    encoded on its own, the encodings joined in order. */
module Base64Pack {

  import opened Bytes
  import opened Results
  import Arith
  import Global
  import opened Schema
  import opened Base64
  import Container
  import Workers
  import PackAes

  const B64TypeTag: seq<byte> := AsciiBytes("B64")

  /** One encoded buffer: 128 = 3 * 42 + 2 bytes make 42 full groups and one
      group of two bytes, 43 groups of four characters in all, the last of
      them ending in one `=`. */
  const EncodedBufferSize: nat := 4 * ((Global.Base64BufferSize + 2) / 3)

  /** `Base64EncryptGo`: the goroutine stores into its slot exactly the value
      `Base64Encrypt` returns. */
  method Base64EncryptGo(src: seq<byte>) returns (r: seq<byte>)
    ensures r == Encode(src)
    ensures Decode(r) == Some(src)
  {
    var slots := Workers.RunPool(Encode, [src], [0]);
    r := slots[0];
    DecodeEncode(src);
  }

  /** `Base64DecryptGo`: likewise for `Base64Decrypt`. */
  method Base64DecryptGo(src: seq<byte>) returns (r: Option<seq<byte>>)
    ensures r == Decode(src)
    ensures r.Some? ==> Encode(r.value) == src
  {
    var slots := Workers.RunPool(Decode, [src], [0]);
    r := slots[0];
    if r.Some? {
      EncodeDecode(src);
    }
  }

  function EncodeChunks(chunks: seq<seq<byte>>): seq<byte>
  {
    if |chunks| == 0 then [] else Encode(chunks[0]) + EncodeChunks(chunks[1..])
  }

  lemma OneChunkPayload(data: seq<byte>)
    requires 0 < |data| <= Global.Base64BufferSize
    ensures EncodePayload(data) == Encode(data)
  {
    var chunks := Split(data, Global.Base64BufferSize);
    assert chunks == [data];
    assert chunks[1..] == [];
    assert EncodeChunks(chunks) == Encode(data) + EncodeChunks(chunks[1..]);
  }

  /** The payload of one Base64 entry. */
  function EncodePayload(data: seq<byte>): seq<byte>
  {
    EncodeChunks(Split(data, Global.Base64BufferSize))
  }

  function DecodePieces(pieces: seq<seq<byte>>): (r: Option<seq<byte>>)
    ensures r.Some? <==> forall i :: 0 <= i < |pieces| ==> Decode(pieces[i]).Some?
  {
    if |pieces| == 0 then Some([])
    else
      match Decode(pieces[0])
      case None => None
      case Some(first) =>
        match DecodePieces(pieces[1..])
        case None => None
        case Some(rest) => Some(first + rest)
  }

  /** `UnpackBase64OneToMemory`: the payload in encoded-buffer pieces, each
      decoded, joined in order; `None` when a piece is not canonical Base64. */
  function UnpackBase64OneToMemory(payload: seq<byte>): Option<seq<byte>>
  {
    DecodePieces(Split(payload, EncodedBufferSize))
  }

  /** A chunk of at most one buffer encodes to at most one encoded buffer,
      and a full chunk to exactly one. */
  lemma ChunkEncodingSize(c: seq<byte>)
    requires 0 < |c| <= Global.Base64BufferSize
    ensures 0 < |Encode(c)| <= EncodedBufferSize
    ensures |c| == Global.Base64BufferSize ==> |Encode(c)| == EncodedBufferSize
  {
    var n := |c|;
    var k := (n + 2) / 3;
    assert |Encode(c)| == 4 * k;
    Arith.DivModUnique(130, 3, 43, 1);
    assert EncodedBufferSize == 172;
    assert k * 3 <= n + 2 <= 130;
    assert k <= 43;
  }

  lemma DecodePiecesCons(p: seq<byte>, rest: seq<seq<byte>>)
    requires Decode(p).Some? && DecodePieces(rest).Some?
    ensures DecodePieces([p] + rest) == Some(Decode(p).value + DecodePieces(rest).value)
  {
    assert ([p] + rest)[1..] == rest;
  }

  /** A payload longer than one buffer starts with a full encoded buffer. */
  lemma PayloadFront(data: seq<byte>)
    requires |data| > Global.Base64BufferSize
    ensures Split(EncodePayload(data), EncodedBufferSize)
      == [Encode(data[..Global.Base64BufferSize])] + Split(EncodePayload(data[Global.Base64BufferSize..]), EncodedBufferSize)
  {
    var chunks := Split(data, Global.Base64BufferSize);
    var rest := data[Global.Base64BufferSize..];
    var enc := Encode(chunks[0]);
    var restPayload := EncodePayload(rest);
    assert chunks[1..] == Split(rest, Global.Base64BufferSize);
    assert EncodePayload(data) == enc + restPayload;
    ChunkEncodingSize(chunks[0]);
    var rc := Split(rest, Global.Base64BufferSize);
    ChunkEncodingSize(rc[0]);
    assert restPayload == Encode(rc[0]) + EncodeChunks(rc[1..]);
    SplitFront(enc, restPayload, EncodedBufferSize);
  }

  /** Reading a payload back gives the file it was encoded from. */
  lemma {:induction false} PayloadRoundTrip(data: seq<byte>)
    ensures UnpackBase64OneToMemory(EncodePayload(data)) == Some(data)
    decreases |data|
  {
    if |data| == 0 {
      assert EncodePayload(data) == [];
    } else if |data| <= Global.Base64BufferSize {
      var payload := Encode(data);
      OneChunkPayload(data);
      ChunkEncodingSize(data);
      assert Split(payload, EncodedBufferSize) == [payload];
      DecodeEncode(data);
      assert DecodePieces([]) == Some([]);
      DecodePiecesCons(payload, []);
      assert [payload] + [] == [payload];
      assert data + [] == data;
      assert UnpackBase64OneToMemory(EncodePayload(data)) == DecodePieces([payload]);
    } else {
      var first := data[..Global.Base64BufferSize];
      var rest := data[Global.Base64BufferSize..];
      var pieces := Split(EncodePayload(rest), EncodedBufferSize);
      PayloadFront(data);
      DecodeEncode(first);
      PayloadRoundTrip(rest);
      assert DecodePieces(pieces) == Some(rest);
      DecodePiecesCons(Encode(first), pieces);
      assert DecodePieces([Encode(first)] + pieces) == Some(first + rest);
      assert data == first + rest;
      assert UnpackBase64OneToMemory(EncodePayload(data)) == DecodePieces([Encode(first)] + pieces);
    }
  }

  /** A Base64 entry: the header records the base name and the payload size. */
  function EntryFor(name: seq<byte>, data: seq<byte>): (e: Container.Entry)
    ensures e.header.WellFormedFor(Base64)
  {
    var payload := EncodePayload(data);
    Container.Entry(Base64Header(CopyInto(name, NameWidth), CopyInto(U32BE(|payload|), SizeWidth)), payload)
  }

  /** The header's size field is the payload length — the encoded size, not
      the size of the file — so the entry is self-delimiting. */
  lemma EntryForConsistent(name: seq<byte>, data: seq<byte>)
    requires |EncodePayload(data)| < Uint32Limit
    ensures Container.Consistent(Base64, EntryFor(name, data))
    ensures Container.RecordedSize(Base64, EntryFor(name, data).header) == |EncodePayload(data)|
  {
    U32Exact(|EncodePayload(data)|);
    assert CopyInto(U32BE(|EncodePayload(data)|), SizeWidth) == U32BE(|EncodePayload(data)|);
  }

  /** The one-entry test vector, field by field: "file.txt" padded with 24
      zero bytes, the size `00 00 00 10`, and the 16 characters
      "aGVsbG8sd29ybGQh". */
  const TestName: seq<byte> := [
    0x66, 0x69, 0x6C, 0x65, 0x2E, 0x74, 0x78, 0x74, 0x00, 0x00, 0x00, 0x00, 0x00, 0x00, 0x00, 0x00,
    0x00, 0x00, 0x00, 0x00, 0x00, 0x00, 0x00, 0x00, 0x00, 0x00, 0x00, 0x00, 0x00, 0x00, 0x00, 0x00]
  const TestSize: seq<byte> := [0x00, 0x00, 0x00, 0x10]
  const TestPayload: seq<byte> := [
    0x61, 0x47, 0x56, 0x73, 0x62, 0x47, 0x38, 0x73, 0x64, 0x32, 0x39, 0x79, 0x62, 0x47, 0x51, 0x68]
  const TestEntry: seq<byte> := TestName + TestSize + TestPayload

  const FileTxt: seq<byte> := [0x66, 0x69, 0x6C, 0x65, 0x2E, 0x74, 0x78, 0x74]

  lemma FileTxtLiteral()
    ensures AsciiBytes("file.txt") == FileTxt
  {
  }

  lemma TestEntryName()
    ensures CopyInto(FileTxt, NameWidth) == TestName
  {
    assert CopyInto(FileTxt, NameWidth) == FileTxt + Zeros(24);
    assert TestName == FileTxt + TestName[8..];
    assert TestName[8..] == Zeros(24);
  }

  /** The entry of "file.txt" holding "hello,world!", byte for byte. */
  lemma TestEntryBytes()
    ensures EntryFor(FileTxt, HelloPlain).payload == TestPayload
    ensures Container.EncodeEntry(Base64, EntryFor(FileTxt, HelloPlain)) == TestEntry
  {
    EncodeHello();
    OneChunkPayload(HelloPlain);
    TestEntryName();
    var e := EntryFor(FileTxt, HelloPlain);
    assert HelloEncoded == TestPayload;
    assert U32BE(16) == TestSize;
    assert e.header.size == TestSize;
  }

  /** The test entry is exactly the entry of a file "file.txt" holding
      "hello,world!"; it reads back as a 32-byte name, a size of 16 and 16
      payload bytes, and its payload unpacks to "hello,world!". */
  lemma TestEntryVector()
    ensures Container.EncodeEntry(Base64, EntryFor(AsciiBytes("file.txt"), AsciiBytes("hello,world!"))) == TestEntry
    ensures Container.ReadEntry(Base64, TestEntry, 0)
      == Success(EntryFor(AsciiBytes("file.txt"), AsciiBytes("hello,world!")))
    ensures TrimZeros(TestEntry[..32]) == AsciiBytes("file.txt")
    ensures FromU32BE(TestEntry[32..36]) == 16
    ensures UnpackBase64OneToMemory(TestEntry[36..]) == Some(AsciiBytes("hello,world!"))
  {
    HelloLiterals();
    FileTxtLiteral();
    TestEntryBytes();
    var e := EntryFor(FileTxt, HelloPlain);
    EntryForConsistent(FileTxt, HelloPlain);
    Container.ReadEntryRoundTrip(Base64, e, [], 0);
    assert Container.EncodeEntry(Base64, e) + [] == TestEntry;
    TrimZerosCopyInto(FileTxt, NameWidth);
    assert TestEntry[..32] == e.header.name;
    assert TestEntry[32..36] == [0, 0, 0, 16];
    assert TestEntry[36..] == e.payload;
    PayloadRoundTrip(HelloPlain);
  }

  /** One file to put in a Base64 container: its base name and its bytes. */
  datatype Plain = Plain(name: seq<byte>, data: seq<byte>)

  function EntriesFor(files: seq<Plain>): (es: seq<Container.Entry>)
    ensures |es| == |files|
  {
    seq(|files|, i requires 0 <= i < |files| => EntryFor(files[i].name, files[i].data))
  }

  /** The `TPackBase64` header: destination name, author, type "B64", count. */
  function Base64ContainerHeader(dest: seq<byte>, count: nat): (h: ContainerHeader)
    ensures h.WellFormed()
  {
    ContainerHeader(CopyInto(dest, NameWidth), CopyInto(Author, AuthorWidth),
      CopyInto(B64TypeTag, TypeWidth), CopyInto(U32BE(count), NumberWidth))
  }

  /** `UnpackBase64ExtractInfo` on a Base64 container lists every file's name,
      in container order, as many as there are files (five for the test's
      container), each with the size its header records. */
  lemma ExtractInfoListsFiles(files: seq<Plain>, dest: seq<byte>)
    requires forall i :: 0 <= i < |files| ==> |files[i].name| <= NameWidth && NoTrailingZero(files[i].name)
    requires forall i :: 0 <= i < |files| ==> |EncodePayload(files[i].data)| < Uint32Limit
    requires |files| < Uint32Limit
    ensures Container.AllConsistent(Base64, EntriesFor(files))
    ensures var c := EncodeContainerHeader(Base64ContainerHeader(dest, |files|))
        + Container.EncodeEntries(Base64, EntriesFor(files));
      var info := Container.ExtractInfo(Base64, c);
      && info.Success?
      && |info.value.names| == |files|
      && forall i :: 0 <= i < |files| ==>
        info.value.names[i] == files[i].name && info.value.sizes[i] == |EncodePayload(files[i].data)|
  {
    var es := EntriesFor(files);
    var h := Base64ContainerHeader(dest, |files|);
    forall i | 0 <= i < |files|
      ensures Container.Consistent(Base64, es[i])
      ensures Container.RecordedSize(Base64, es[i].header) == |EncodePayload(files[i].data)|
      ensures TrimZeros(es[i].header.name) == files[i].name
    {
      EntryForConsistent(files[i].name, files[i].data);
      TrimZerosCopyInto(files[i].name, NameWidth);
    }
    U32Exact(|files|);
    assert h.number == U32BE(|files|);
    Container.ContainerRoundTrip(Base64, h, es);
  }

  /** `PackBase64WorkCalculate`: fails on an empty list, and otherwise
      succeeds with every size rounded up to a whole `Base64BufferSize`. */
  function PackBase64WorkCalculate(sizes: seq<nat>): (r: Result<nat, PackAes.WorkError>)
    ensures r.Success? <==> |sizes| > 0
    ensures r.Success? ==> r.value % Global.Base64BufferSize == 0
    ensures r.Success? ==> Arith.Sum(sizes) <= r.value <= Arith.Sum(sizes) + Global.Base64BufferSize * |sizes|
  {
    Arith.SumRoundedUpBounds(sizes, Global.Base64BufferSize);
    if |sizes| == 0 then Failure(PackAes.EmptyFileList)
    else Success(Arith.SumRoundedUp(sizes, Global.Base64BufferSize))
  }
}
