/** The AES packer: `PackAESOne` turns one file into an entry, `PackAES` (and
    its confined twin) joins the entries behind a container header, and
    `PackAESWorkCalculate` predicts the work for a progress bar. Reading the
    file, drawing the key and taking the base name happen outside the model:
    each source arrives as its base name, its bytes and its 16-byte key. */
module PackAes {

  import opened Bytes
  import opened Results
  import Arith
  import Global
  import opened Schema
  import opened AesCipher
  import Container
  import Workers

  /** `PackAESOne` always draws a 16-byte key. */
  type Key16 = k: seq<byte> | |k| == 16
    witness [0, 0, 0, 0, 0, 0, 0, 0, 0, 0, 0, 0, 0, 0, 0, 0]

  /** One file to pack: the base name `filepath.Split` yields, the bytes
      `ioutil.ReadAll` returned, and the key `rand.Read` filled in. */
  datatype Source = Source(name: seq<byte>, data: seq<byte>, key: Key16)

  const AesTypeTag: seq<byte> := AsciiBytes("AES")

  /** What one chunk worker leaves behind: the value it stored in its slot and
      whether it bumped the `Done` counter. */
  datatype ChunkSlot = ChunkSlot(dest: seq<byte>, counted: bool)

  /** `AESEncryptGo`: stores `AESEncrypt`'s output and counts the chunk as done
      only when the encryption succeeded; on failure the slot stays empty. */
  function AESEncryptGo(cipher: BlockFn, chunk: seq<byte>, key: seq<byte>): (s: ChunkSlot)
    ensures s.counted <==> ValidAesKeyLength(|key|)
    ensures s.counted ==> |s.dest| == Arith.RoundUp(|chunk|, BlockSize)
    ensures !s.counted ==> s.dest == []
  {
    match AESEncrypt(cipher, chunk, key)
    case Success(d) => ChunkSlot(d, true)
    case Failure(_) => ChunkSlot([], false)
  }

  /** The chunk slots after the barrier, slot `i` for chunk `i`. */
  function EncryptChunks(cipher: BlockFn, chunks: seq<seq<byte>>, key: seq<byte>): (slots: seq<ChunkSlot>)
    ensures |slots| == |chunks|
    ensures forall i :: 0 <= i < |chunks| ==> slots[i] == AESEncryptGo(cipher, chunks[i], key)
  {
    if |chunks| == 0 then []
    else [AESEncryptGo(cipher, chunks[0], key)] + EncryptChunks(cipher, chunks[1..], key)
  }

  /** `bytes.Join(rr, "")` over the chunk slots. */
  function JoinSlots(slots: seq<ChunkSlot>): seq<byte>
  {
    if |slots| == 0 then [] else slots[0].dest + JoinSlots(slots[1..])
  }

  /** How many chunk workers bumped `Done`. */
  function CountDone(slots: seq<ChunkSlot>): (n: nat)
    ensures n <= |slots|
    ensures n == |slots| <==> forall i :: 0 <= i < |slots| ==> slots[i].counted
  {
    if |slots| == 0 then 0
    else (if slots[0].counted then 1 else 0) + CountDone(slots[1..])
  }

  function Chunks(data: seq<byte>): seq<seq<byte>>
  {
    Split(data, Global.AESBufferSize)
  }

  /** The encrypted payload of one file: every chunk encrypted on its own and
      the results joined in chunk order. */
  function Payload(cipher: BlockFn, data: seq<byte>, key: Key16): seq<byte>
  {
    JoinSlots(EncryptChunks(cipher, Chunks(data), key))
  }

  /** The payload is the file rounded up to whole AES blocks: full chunks are
      never padded, so only the last chunk adds up to 15 bytes. */
  lemma {:induction false} PayloadLength(cipher: BlockFn, data: seq<byte>, key: Key16)
    ensures |Payload(cipher, data, key)| == Arith.RoundUp(|data|, BlockSize)
    decreases |data|
  {
    var chunks := Chunks(data);
    var slots := EncryptChunks(cipher, chunks, key);
    if |data| > Global.AESBufferSize {
      var rest := data[Global.AESBufferSize..];
      PayloadFront(cipher, data, key);
      PayloadLength(cipher, rest, key);
      assert |data| == |rest| + 8 * BlockSize;
      Arith.RoundUpAddMultiple(|rest|, BlockSize, 8);
    } else if |data| > 0 {
      assert chunks == [data];
      assert slots[1..] == [];
      assert JoinSlots(slots) == slots[0].dest;
    }
  }

  /** A file longer than one buffer: its payload is the full first buffer
      encrypted, unpadded, followed by the payload of the rest. */
  lemma PayloadFront(cipher: BlockFn, data: seq<byte>, key: Key16)
    requires |data| > Global.AESBufferSize
    ensures var rest := data[Global.AESBufferSize..];
      |Payload(cipher, data, key)| == Global.AESBufferSize + |Payload(cipher, rest, key)|
  {
    var rest := data[Global.AESBufferSize..];
    var chunks := Chunks(data);
    var slots := EncryptChunks(cipher, chunks, key);
    assert chunks[0] == data[..Global.AESBufferSize];
    assert chunks[1..] == Chunks(rest);
    assert slots[1..] == EncryptChunks(cipher, Chunks(rest), key);
    assert |slots[0].dest| == Global.AESBufferSize;
  }

  /** With a 16-byte key every chunk encryption succeeds, so `Done` grows by
      exactly the number of chunks. */
  lemma AllChunksCounted(cipher: BlockFn, chunks: seq<seq<byte>>, key: Key16)
    ensures CountDone(EncryptChunks(cipher, chunks, key)) == |chunks|
  {
  }

  datatype EntryResult = EntryResult(entry: seq<byte>, encrypted: nat)

  /** The `TPackAESOne` header filled by `BytesCopy`: zero-padded name, the key,
      OriginSize = length of the file, CryptSize = length of the payload. */
  function EntryHeaderFor(s: Source, payload: seq<byte>): (h: EntryHeader)
    ensures h.WellFormedFor(AES)
  {
    KeyedHeader(CopyInto(s.name, NameWidth), CopyInto(s.key, 16),
      CopyInto(U32BE(|s.data|), SizeWidth), CopyInto(U32BE(|payload|), SizeWidth))
  }

  /** `PackAESOne`: encrypts every chunk, then — only then — checks the base
      name: one longer than 32 bytes yields an empty entry and no error, even
      though the chunks were already encrypted and counted. */
  function PackAESOne(cipher: BlockFn, s: Source): (r: EntryResult)
    ensures r.entry == [] <==> |s.name| > NameWidth
    ensures r.encrypted == |Chunks(s.data)|
  {
    AllChunksCounted(cipher, Chunks(s.data), s.key);
    EntryOfSlots(s, EncryptChunks(cipher, Chunks(s.data), s.key))
  }

  /** An entry is the encoded `TPackAESOne` header followed by the payload. */
  lemma EntryOfSource(cipher: BlockFn, s: Source)
    requires |s.name| <= NameWidth
    ensures var payload := Payload(cipher, s.data, s.key);
      PackAESOne(cipher, s).entry == Container.EncodeEntry(AES, Container.Entry(EntryHeaderFor(s, payload), payload))
  {
  }

  /** The header fields read back: the name field is the base name
      zero-padded to 32 bytes, the key field is the key, OriginSize is the
      file length and CryptSize the payload length. */
  lemma EntryFields(s: Source, payload: seq<byte>)
    requires |s.data| < Uint32Limit && |payload| < Uint32Limit
    ensures var h := EntryHeaderFor(s, payload);
      && Container.Consistent(AES, Container.Entry(h, payload))
      && h.key == s.key
      && FromU32BE(h.originSize) == |s.data|
      && (|s.name| <= NameWidth ==> h.name[..|s.name|] == s.name)
  {
    var h := EntryHeaderFor(s, payload);
    U32Exact(|payload|);
    U32Exact(|s.data|);
    assert h.cryptSize == U32BE(|payload|);
    assert h.originSize == U32BE(|s.data|);
  }

  /** An entry reads back as its header and payload, and the payload is the
      file length rounded up to 16. */
  lemma PackAESOneLayout(cipher: BlockFn, s: Source)
    requires |s.name| <= NameWidth
    requires |s.data| <= Uint32Limit - BlockSize
    ensures var payload := Payload(cipher, s.data, s.key);
      var h := EntryHeaderFor(s, payload);
      && Container.Consistent(AES, Container.Entry(h, payload))
      && PackAESOne(cipher, s).entry == Container.EncodeEntry(AES, Container.Entry(h, payload))
      && h.name[..|s.name|] == s.name
      && h.key == s.key
      && FromU32BE(h.originSize) == |s.data|
      && |payload| == Arith.RoundUp(|s.data|, BlockSize)
  {
    var payload := Payload(cipher, s.data, s.key);
    PayloadLength(cipher, s.data, s.key);
    EntryFields(s, payload);
    EntryOfSource(cipher, s);
  }

  datatype PackError = PackOneFailed(index: nat, name: seq<byte>)

  /** The outcome of a pack and the final value of `Done`. `Success(None)` is
      the case where the call returns no error yet writes nothing. */
  datatype PackResult = PackResult(outcome: Result<Option<seq<byte>>, PackError>, done: nat)

  /** The first empty entry, scanning in source order. */
  function FirstEmpty(entries: seq<EntryResult>): (r: Option<nat>)
    ensures r.Some? ==> r.value < |entries| && entries[r.value].entry == []
    ensures r.Some? ==> forall j :: 0 <= j < r.value ==> entries[j].entry != []
    ensures r.None? ==> forall j :: 0 <= j < |entries| ==> entries[j].entry != []
  {
    if |entries| == 0 then None
    else if entries[0].entry == [] then Some(0)
    else match FirstEmpty(entries[1..])
      case None => None
      case Some(i) => Some(i + 1)
  }

  function SumEncrypted(entries: seq<EntryResult>): nat
  {
    if |entries| == 0 then 0 else entries[0].encrypted + SumEncrypted(entries[1..])
  }

  /** The total number of AES chunks in all sources. */
  function TotalChunks(src: seq<Source>): nat
  {
    if |src| == 0 then 0 else |Chunks(src[0].data)| + TotalChunks(src[1..])
  }

  function JoinEntries(entries: seq<EntryResult>): seq<byte>
  {
    if |entries| == 0 then [] else entries[0].entry + JoinEntries(entries[1..])
  }

  /** The `TPackAES` header: destination base name, author, type tag and the
      number of sources. */
  function ContainerHeaderFor(dest: seq<byte>, count: nat): (h: ContainerHeader)
    ensures h.WellFormed()
  {
    ContainerHeader(CopyInto(dest, NameWidth), CopyInto(Author, AuthorWidth),
      CopyInto(AesTypeTag, TypeWidth), CopyInto(U32BE(count), NumberWidth))
  }

  /** What `PackAES` does once every file's entry sits in its slot: report the
      first empty entry, silently give up on a destination name longer than 32
      bytes, or join header and entries in source order. */
  function Assemble(src: seq<Source>, entries: seq<EntryResult>, dest: seq<byte>): PackResult
    requires |entries| == |src|
  {
    var done := SumEncrypted(entries);
    match FirstEmpty(entries)
    case Some(i) => PackResult(Failure(PackOneFailed(i, src[i].name)), done)
    case None =>
      if |dest| > NameWidth then PackResult(Success(None), done)
      else PackResult(Success(Some(EncodeContainerHeader(ContainerHeaderFor(dest, |src|)) + JoinEntries(entries))), done)
  }

  /** `PackAES`, with the file workers' fan-out replaced by the map they compute. */
  function PackAES(cipher: BlockFn, src: seq<Source>, dest: seq<byte>): (r: PackResult)
    ensures r.outcome.Failure? <==> exists i :: 0 <= i < |src| && |src[i].name| > NameWidth
    ensures r.outcome.Failure? ==>
      var i := r.outcome.error.index;
      && i < |src| && |src[i].name| > NameWidth && r.outcome.error.name == src[i].name
      && forall j :: 0 <= j < i ==> |src[j].name| <= NameWidth
    ensures r.outcome == Success(None) <==>
      (forall i :: 0 <= i < |src| ==> |src[i].name| <= NameWidth) && |dest| > NameWidth
  {
    var entries := seq(|src|, i requires 0 <= i < |src| => PackAESOne(cipher, src[i]));
    assert forall i :: 0 <= i < |src| ==> (entries[i].entry == [] <==> |src[i].name| > NameWidth);
    Assemble(src, entries, dest)
  }

  /** When every name fits and so does the destination's, the pack writes the
      container header followed by the entries in source order. */
  lemma PackAESBytes(cipher: BlockFn, src: seq<Source>, dest: seq<byte>)
    requires forall i :: 0 <= i < |src| ==> |src[i].name| <= NameWidth
    requires |dest| <= NameWidth
    ensures PackAES(cipher, src, dest).outcome == Success(Some(
      EncodeContainerHeader(ContainerHeaderFor(dest, |src|))
      + JoinEntries(seq(|src|, i requires 0 <= i < |src| => PackAESOne(cipher, src[i])))))
  {
    var entries := seq(|src|, i requires 0 <= i < |src| => PackAESOne(cipher, src[i]));
    assert forall i :: 0 <= i < |src| ==> entries[i].entry != [];
    assert FirstEmpty(entries).None?;
  }

  /** `Done` is reset when a pack starts and ends at the number of chunks of all
      sources — whether or not the pack then fails or writes nothing. */
  lemma {:induction false} PackAESDone(cipher: BlockFn, src: seq<Source>, dest: seq<byte>)
    ensures PackAES(cipher, src, dest).done == TotalChunks(src)
  {
    SumEncryptedChunks(cipher, src);
  }

  lemma {:induction false} SumEncryptedChunks(cipher: BlockFn, src: seq<Source>)
    ensures SumEncrypted(seq(|src|, i requires 0 <= i < |src| => PackAESOne(cipher, src[i]))) == TotalChunks(src)
    decreases |src|
  {
    if |src| > 0 {
      var entries := seq(|src|, i requires 0 <= i < |src| => PackAESOne(cipher, src[i]));
      assert entries[1..] == seq(|src| - 1, i requires 0 <= i < |src| - 1 => PackAESOne(cipher, src[1..][i]));
      SumEncryptedChunks(cipher, src[1..]);
    }
  }

  /** The goroutines of `PackAESOne` (one `AESEncryptGo` per chunk) and of
      `PackAES` (one `PackAESOneGo` per file): each writes only its own slot and
      the slots are read after the barrier, so whatever order the workers finish
      in, the result is the sequential map. */
  method PackAESOneScheduled(cipher: BlockFn, s: Source, order: seq<nat>) returns (r: EntryResult)
    requires Workers.CompletionOrder(order, |Chunks(s.data)|)
    ensures r == PackAESOne(cipher, s)
  {
    var chunks := Chunks(s.data);
    var slots := Workers.RunPool(c => AESEncryptGo(cipher, c, s.key), chunks, order);
    assert slots == EncryptChunks(cipher, chunks, s.key);
    r := EntryOfSlots(s, slots);
  }

  method PackAESScheduled(cipher: BlockFn, src: seq<Source>, dest: seq<byte>, order: seq<nat>) returns (r: PackResult)
    requires Workers.CompletionOrder(order, |src|)
    ensures r == PackAES(cipher, src, dest)
  {
    var entries := Workers.RunPool(s => PackAESOne(cipher, s), src, order);
    assert entries == seq(|src|, i requires 0 <= i < |src| => PackAESOne(cipher, src[i]));
    r := Assemble(src, entries, dest);
  }

  /** The entry built from the chunk slots after the barrier. */
  function EntryOfSlots(s: Source, slots: seq<ChunkSlot>): EntryResult
  {
    var dest := JoinSlots(slots);
    if |s.name| > NameWidth then EntryResult([], CountDone(slots))
    else EntryResult(EncodeEntryHeader(AES, EntryHeaderFor(s, dest)) + dest, CountDone(slots))
  }

  /** `PackAESOneConfine`: the chunk workers behind a token channel of
      `ConfineBuffers` tokens. However the races resolve, the run is a legal
      schedule of every chunk worker, started in chunk order, with never more
      than `ConfineBuffers` in flight, and the entry is exactly the one the
      unconfined `PackAESOne` builds. */
  method PackAESOneConfine(cipher: BlockFn, s: Source, choices: seq<nat>) returns (r: EntryResult, trace: seq<Workers.Event>)
    ensures r == PackAESOne(cipher, s)
    ensures Workers.Schedule(trace, |Chunks(s.data)|)
    ensures Workers.AdmitsInOrder(trace)
    ensures Workers.Bounded(trace, Global.ConfineBuffers)
  {
    var chunks := Chunks(s.data);
    var slots;
    slots, trace := Workers.RunConfined(c => AESEncryptGo(cipher, c, s.key), chunks, Global.ConfineBuffers, choices);
    assert slots == EncryptChunks(cipher, chunks, s.key);
    r := EntryOfSlots(s, slots);
  }

  /** `PackAESConfine`: the file workers behind a token channel of
      `ConfineFiles` tokens, with never more than `ConfineFiles` in flight;
      the result, `Done` included, is exactly that of the unconfined
      `PackAES`. Each file worker of the source builds its entry with
      `PackAESOneConfine`; the model runs `PackAESOne` in its place, which
      gives the same entry by `PackAESOneConfine`'s contract. */
  method PackAESConfine(cipher: BlockFn, src: seq<Source>, dest: seq<byte>, choices: seq<nat>)
    returns (r: PackResult, trace: seq<Workers.Event>)
    ensures r == PackAES(cipher, src, dest)
    ensures Workers.Schedule(trace, |src|)
    ensures Workers.AdmitsInOrder(trace)
    ensures Workers.Bounded(trace, Global.ConfineFiles)
  {
    var entries;
    entries, trace := Workers.RunConfined(s => PackAESOne(cipher, s), src, Global.ConfineFiles, choices);
    assert entries == seq(|src|, i requires 0 <= i < |src| => PackAESOne(cipher, src[i]));
    r := Assemble(src, entries, dest);
  }

  /** The container reads back: the header names the destination, the author,
      the type "AES" and the number of sources, and entry `i` is source `i`'s
      entry, in source order. */
  lemma PackAESReadsBack(cipher: BlockFn, src: seq<Source>, dest: seq<byte>)
    requires forall i :: 0 <= i < |src| ==> |src[i].name| <= NameWidth
    requires forall i :: 0 <= i < |src| ==> |src[i].data| <= Uint32Limit - BlockSize
    requires |dest| <= NameWidth && |src| < Uint32Limit
    ensures PackAES(cipher, src, dest).outcome.Success?
    ensures PackAES(cipher, src, dest).outcome.value.Some?
    ensures var c := PackAES(cipher, src, dest).outcome.value.value;
      Container.ParseContainer(AES, c) == Success(Container.Unpacked(ContainerHeaderFor(dest, |src|), EntriesOf(cipher, src)))
  {
    var h := ContainerHeaderFor(dest, |src|);
    var es := EntriesOf(cipher, src);
    var entries := seq(|src|, i requires 0 <= i < |src| => PackAESOne(cipher, src[i]));
    PackAESBytes(cipher, src, dest);
    JoinEntriesEncode(cipher, src);
    assert JoinEntries(entries) == Container.EncodeEntries(AES, es);
    U32Exact(|src|);
    assert h.number == U32BE(|src|);
    assert FromU32BE(h.number) == |es|;
    assert Container.AllConsistent(AES, es);
    Container.ContainerRoundTrip(AES, h, es);
  }

  /** The entries a reader should find, one per source. */
  function EntriesOf(cipher: BlockFn, src: seq<Source>): (es: seq<Container.Entry>)
    ensures |es| == |src|
  {
    seq(|src|, i requires 0 <= i < |src| =>
      Container.Entry(EntryHeaderFor(src[i], Payload(cipher, src[i].data, src[i].key)), Payload(cipher, src[i].data, src[i].key)))
  }

  lemma {:induction false} JoinEntriesEncode(cipher: BlockFn, src: seq<Source>)
    requires forall i :: 0 <= i < |src| ==> |src[i].name| <= NameWidth
    requires forall i :: 0 <= i < |src| ==> |src[i].data| <= Uint32Limit - BlockSize
    ensures Container.AllConsistent(AES, EntriesOf(cipher, src))
    ensures JoinEntries(seq(|src|, i requires 0 <= i < |src| => PackAESOne(cipher, src[i])))
      == Container.EncodeEntries(AES, EntriesOf(cipher, src))
    decreases |src|
  {
    var es := EntriesOf(cipher, src);
    forall i | 0 <= i < |src|
      ensures Container.Consistent(AES, es[i])
    {
      PackAESOneLayout(cipher, src[i]);
    }
    if |src| > 0 {
      var entries := seq(|src|, i requires 0 <= i < |src| => PackAESOne(cipher, src[i]));
      assert entries[1..] == seq(|src| - 1, i requires 0 <= i < |src| - 1 => PackAESOne(cipher, src[1..][i]));
      assert es[1..] == EntriesOf(cipher, src[1..]);
      JoinEntriesEncode(cipher, src[1..]);
      PackAESOneLayout(cipher, src[0]);
    }
  }

  /** `ExtractInfo` on a packed container lists every source's base name (when
      it does not itself end in a zero byte) and its length, in source order. */
  lemma PackAESInfo(cipher: BlockFn, src: seq<Source>, dest: seq<byte>)
    requires forall i :: 0 <= i < |src| ==> |src[i].name| <= NameWidth && NoTrailingZero(src[i].name)
    requires forall i :: 0 <= i < |src| ==> |src[i].data| <= Uint32Limit - BlockSize
    requires |dest| <= NameWidth && |src| < Uint32Limit
    ensures PackAES(cipher, src, dest).outcome.Success?
    ensures PackAES(cipher, src, dest).outcome.value.Some?
    ensures var info := Container.ExtractInfo(AES, PackAES(cipher, src, dest).outcome.value.value);
      && info.Success?
      && |info.value.names| == |src|
      && forall i :: 0 <= i < |src| ==> info.value.names[i] == src[i].name && info.value.sizes[i] == |src[i].data|
  {
    PackAESReadsBack(cipher, src, dest);
    forall i | 0 <= i < |src|
      ensures TrimZeros(CopyInto(src[i].name, NameWidth)) == src[i].name
      ensures FromU32BE(CopyInto(U32BE(|src[i].data|), SizeWidth)) == |src[i].data|
    {
      TrimZerosCopyInto(src[i].name, NameWidth);
      U32Exact(|src[i].data|);
    }
  }

  /** The error a work estimate reports for an empty file list. */
  datatype WorkError = EmptyFileList

  /** `PackAESWorkCalculate`, given each source's size: fails on an empty list,
      otherwise adds up every size rounded up to a multiple of `AESBufferSize`
      (a size that already is one is left alone). */
  method PackAESWorkCalculate(sizes: seq<nat>) returns (r: Result<nat, WorkError>)
    ensures r.Failure? <==> |sizes| == 0
    ensures r.Success? ==> r.value == Arith.SumRoundedUp(sizes, Global.AESBufferSize)
    ensures r.Success? ==> r.value % Global.AESBufferSize == 0
    ensures r.Success? ==> Arith.Sum(sizes) <= r.value <= Arith.Sum(sizes) + Global.AESBufferSize * |sizes|
    ensures r.Success? ==> (r.value == Arith.Sum(sizes) <==> forall i :: 0 <= i < |sizes| ==> sizes[i] % Global.AESBufferSize == 0)
  {
    Arith.SumRoundedUpBounds(sizes, Global.AESBufferSize);
    if |sizes| == 0 {
      return Failure(EmptyFileList);
    }
    var sum := 0;
    var i := 0;
    while i < |sizes|
      invariant 0 <= i <= |sizes|
      invariant sum == Arith.SumRoundedUp(sizes[..i], Global.AESBufferSize)
      invariant sum % Global.AESBufferSize == 0
    {
      var size := sizes[i];
      if size % Global.AESBufferSize != 0 {
        var padding := Global.AESBufferSize - size % Global.AESBufferSize;
        size := size + padding;
      }
      assert sizes[..i + 1][..i] == sizes[..i];
      sum := sum + size;
      i := i + 1;
    }
    assert sizes[..i] == sizes;
    return Success(sum);
  }

  /** The sizes of the sources, in order: what the work estimate is given for
      the files it would otherwise stat. */
  function SizesOf(src: seq<Source>): (sizes: seq<nat>)
    ensures |sizes| == |src|
    ensures forall i :: 0 <= i < |src| ==> sizes[i] == |src[i].data|
  {
    seq(|src|, i requires 0 <= i < |src| => |src[i].data|)
  }

  /** The estimate is one `AESBufferSize` per chunk, so it is exactly
      `AESBufferSize` times the final `Done` of packing the same files. */
  lemma WorkMatchesDone(cipher: BlockFn, src: seq<Source>, dest: seq<byte>)
    ensures Arith.SumRoundedUp(SizesOf(src), Global.AESBufferSize) == Global.AESBufferSize * PackAES(cipher, src, dest).done
  {
    PackAESDone(cipher, src, dest);
    WorkIsChunks(src);
  }

  lemma {:induction false} WorkIsChunks(src: seq<Source>)
    ensures Arith.SumRoundedUp(SizesOf(src), Global.AESBufferSize) == Global.AESBufferSize * TotalChunks(src)
    decreases |src|
  {
    if |src| > 0 {
      var last := src[|src| - 1];
      var init := src[..|src| - 1];
      assert SizesOf(src)[..|src| - 1] == SizesOf(init);
      WorkIsChunks(init);
      ChunksOfSize(last.data);
      TotalChunksSnoc(init, last);
      assert src == init + [last];
    }
  }

  lemma {:induction false} TotalChunksSnoc(init: seq<Source>, last: Source)
    ensures TotalChunks(init + [last]) == TotalChunks(init) + |Chunks(last.data)|
    decreases |init|
  {
    if |init| == 0 {
      assert (init + [last])[1..] == [];
    } else {
      assert (init + [last])[1..] == init[1..] + [last];
      TotalChunksSnoc(init[1..], last);
    }
  }

  /** Rounding a size up to whole buffers counts one buffer per chunk. */
  lemma ChunksOfSize(data: seq<byte>)
    ensures Arith.RoundUp(|data|, Global.AESBufferSize) == Global.AESBufferSize * |Chunks(data)|
  {
    SplitCount(data, Global.AESBufferSize);
  }
}
