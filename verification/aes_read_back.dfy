/** The inverse of the AES packer: reading an entry's payload back into the
    file it came from. Qora's own AES unpacker is not part of this model; this
    module is the reference against which the packer's layout is checked —
    the payload is split into the same 128-byte buffers, each is CBC-decrypted
    with the key from the entry header as key and IV, and the result is cut to
    OriginSize, which drops the padding of the last buffer. */
module AesReadBack {

  import opened Bytes
  import opened Results
  import Arith
  import Global
  import opened Schema
  import opened AesCipher
  import Container
  import opened PackAes

  datatype ReadBackError =
    | NotBlockAligned
    | ShortPayload(origin: nat, available: nat)

  /** CBC-decrypts every piece on its own, with the key's first 16 bytes as IV,
      and joins the plain texts in order. */
  function DecryptPieces(decipher: BlockFn, key: Key16, pieces: seq<seq<byte>>): (r: Result<seq<byte>, ReadBackError>)
    ensures r.Success? <==> forall i :: 0 <= i < |pieces| ==> |pieces[i]| % BlockSize == 0
    ensures r.Success? ==> |r.value| == TotalLength(pieces)
  {
    if |pieces| == 0 then Success([])
    else if |pieces[0]| % BlockSize != 0 then Failure(NotBlockAligned)
    else
      match DecryptPieces(decipher, key, pieces[1..])
      case Failure(e) => Failure(e)
      case Success(rest) =>
        var iv: Block := key[..BlockSize];
        Success(CbcDecrypt(decipher, key, iv, pieces[0]) + rest)
  }

  /** The file an AES entry holds, given the inverse block function. */
  function UnpackAesEntry(decipher: BlockFn, e: Container.Entry): (r: Result<seq<byte>, ReadBackError>)
    requires Container.Consistent(AES, e)
    ensures r.Success? ==> |r.value| == FromU32BE(e.header.originSize)
    ensures r.Success? <==>
      (forall i :: 0 <= i < |Chunks(e.payload)| ==> |Chunks(e.payload)[i]| % BlockSize == 0)
      && FromU32BE(e.header.originSize) <= |e.payload|
  {
    var key: Key16 := e.header.key;
    var origin := FromU32BE(e.header.originSize);
    FlattenLength(Chunks(e.payload));
    match DecryptPieces(decipher, key, Chunks(e.payload))
    case Failure(err) => Failure(err)
    case Success(plain) =>
      if origin <= |plain| then Success(plain[..origin])
      else Failure(ShortPayload(origin, |plain|))
  }

  /** Decrypting one encrypted chunk gives the chunk back, followed by its
      padding. */
  lemma ChunkDecrypts(cipher: BlockFn, decipher: BlockFn, chunk: seq<byte>, key: Key16)
    requires Inverts(decipher, cipher, key)
    ensures var enc := AESEncryptGo(cipher, chunk, key).dest;
      var iv: Block := key[..BlockSize];
      && |enc| % BlockSize == 0
      && CbcDecrypt(decipher, key, iv, enc) == PKCS7Padding(chunk, BlockSize)
  {
    var iv: Block := key[..BlockSize];
    CbcRoundTrip(cipher, decipher, key, iv, PKCS7Padding(chunk, BlockSize));
  }

  /** Decrypting the payload buffer by buffer gives the file back, followed by
      the padding of its last chunk. */
  lemma {:induction false} PayloadRoundTrip(cipher: BlockFn, decipher: BlockFn, data: seq<byte>, key: Key16)
    requires Inverts(decipher, cipher, key)
    ensures var d := DecryptPieces(decipher, key, Chunks(Payload(cipher, data, key)));
      d.Success? && |data| <= |d.value| && d.value[..|data|] == data
    decreases |data|
  {
    var chunks := Chunks(data);
    var slots := EncryptChunks(cipher, chunks, key);
    var payload := Payload(cipher, data, key);
    var iv: Block := key[..BlockSize];
    if |data| == 0 {
      assert payload == [];
    } else {
      var enc := slots[0].dest;
      ChunkDecrypts(cipher, decipher, chunks[0], key);
      if |data| <= Global.AESBufferSize {
        assert chunks == [data];
        assert slots[1..] == [];
        assert JoinSlots(slots) == enc + JoinSlots(slots[1..]);
        assert payload == enc;
        Arith.RoundUpIsLeast(|data|, BlockSize, Global.AESBufferSize);
        assert Chunks(payload) == [payload];
        assert DecryptPieces(decipher, key, [payload]).value == CbcDecrypt(decipher, key, iv, payload);
      } else {
        var rest := data[Global.AESBufferSize..];
        assert chunks[1..] == Chunks(rest);
        assert slots[1..] == EncryptChunks(cipher, Chunks(rest), key);
        var restPayload := Payload(cipher, rest, key);
        assert payload == enc + restPayload;
        FullChunkNeedsNoPadding(cipher, chunks[0], key);
        PayloadLength(cipher, rest, key);
        SplitFront(enc, restPayload, Global.AESBufferSize);
        PayloadRoundTrip(cipher, decipher, rest, key);
        var pieces := Chunks(payload);
        assert pieces[1..] == Chunks(restPayload);
        var dr := DecryptPieces(decipher, key, Chunks(restPayload)).value;
        assert DecryptPieces(decipher, key, pieces).value == chunks[0] + dr;
        assert (chunks[0] + dr)[..|data|] == chunks[0] + dr[..|rest|];
        assert data == chunks[0] + rest;
      }
    }
  }

  /** Every entry `PackAESOne` writes unpacks to the file it was made from. */
  lemma UnpackAesEntryRoundTrip(cipher: BlockFn, decipher: BlockFn, s: Source)
    requires |s.data| <= Uint32Limit - BlockSize
    requires Inverts(decipher, cipher, s.key)
    ensures var payload := Payload(cipher, s.data, s.key);
      var e := Container.Entry(EntryHeaderFor(s, payload), payload);
      Container.Consistent(AES, e) && UnpackAesEntry(decipher, e) == Success(s.data)
  {
    var payload := Payload(cipher, s.data, s.key);
    PayloadLength(cipher, s.data, s.key);
    EntryFields(s, payload);
    PayloadRoundTrip(cipher, decipher, s.data, s.key);
    FlattenLength(Chunks(payload));
  }

  /** The whole container round trip: parse what `PackAES` wrote, and every
      entry, in source order, unpacks to its source file. */
  lemma PackAESRoundTrip(cipher: BlockFn, decipher: BlockFn, src: seq<Source>, dest: seq<byte>)
    requires forall i :: 0 <= i < |src| ==> |src[i].name| <= NameWidth
    requires forall i :: 0 <= i < |src| ==> |src[i].data| <= Uint32Limit - BlockSize
    requires forall i :: 0 <= i < |src| ==> Inverts(decipher, cipher, src[i].key)
    requires |dest| <= NameWidth && |src| < Uint32Limit
    ensures PackAES(cipher, src, dest).outcome.Success?
    ensures PackAES(cipher, src, dest).outcome.value.Some?
    ensures var u := Container.ParseContainer(AES, PackAES(cipher, src, dest).outcome.value.value);
      && u.Success?
      && |u.value.entries| == |src|
      && forall i :: 0 <= i < |src| ==> UnpackAesEntry(decipher, u.value.entries[i]) == Success(src[i].data)
  {
    PackAESReadsBack(cipher, src, dest);
    var es := EntriesOf(cipher, src);
    forall i | 0 <= i < |src|
      ensures UnpackAesEntry(decipher, es[i]) == Success(src[i].data)
    {
      UnpackAesEntryRoundTrip(cipher, decipher, src[i]);
    }
  }
}
