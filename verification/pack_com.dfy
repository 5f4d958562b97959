/** The fixed-width header schemas of a container: one container header shared
    by every algorithm, and one entry header per algorithm. Every field is a raw
    byte field of a fixed width; numbers are 4-byte big-endian fields. */
module Schema {

  import opened Bytes
  import opened Results

  const NameWidth: nat := 32
  const AuthorWidth: nat := 16
  const TypeWidth: nat := 8
  const NumberWidth: nat := 4
  const SizeWidth: nat := 4

  /** The container header is the same for every algorithm. */
  const ContainerHeaderSize: nat := NameWidth + AuthorWidth + TypeWidth + NumberWidth

  /** The producer identifier every packer writes into the Author field. */
  const Author: seq<byte> := AsciiBytes("Alopex6414")

  datatype Algorithm = AES | TripleDES | DES | RSA | Base64

  /** Width of the per-file key field; the Base64 entry header has none. */
  function KeyWidth(alg: Algorithm): nat
  {
    match alg
    case AES => 16
    case TripleDES => 24
    case DES => 8
    case RSA => 1024
    case Base64 => 0
  }

  /** `TPackAES`, `TPack3DES`, `TPackDES`, `TPackRSA` and `TPackBase64`. */
  datatype ContainerHeader = ContainerHeader(name: seq<byte>, author: seq<byte>, kind: seq<byte>, number: seq<byte>)
  {
    predicate WellFormed()
    {
      |name| == NameWidth && |author| == AuthorWidth && |kind| == TypeWidth && |number| == NumberWidth
    }
  }

  /** `TPackAESOne`, `TPack3DESOne`, `TPackDESOne` and `TPackRSAOne` share the
      keyed shape; `TPackBase64One` carries only a name and one size. */
  datatype EntryHeader =
    | KeyedHeader(name: seq<byte>, key: seq<byte>, originSize: seq<byte>, cryptSize: seq<byte>)
    | Base64Header(name: seq<byte>, size: seq<byte>)
  {
    predicate WellFormedFor(alg: Algorithm)
    {
      match this
      case KeyedHeader(n, k, o, c) =>
        alg != Base64 && |n| == NameWidth && |k| == KeyWidth(alg) && |o| == SizeWidth && |c| == SizeWidth
      case Base64Header(n, s) =>
        alg == Base64 && |n| == NameWidth && |s| == SizeWidth
    }
  }

  function EntryHeaderSize(alg: Algorithm): nat
  {
    if alg == Base64 then NameWidth + SizeWidth else NameWidth + KeyWidth(alg) + 2 * SizeWidth
  }

  datatype HeaderError = TruncatedHeader(needed: nat, available: nat)

  function EncodeContainerHeader(h: ContainerHeader): (r: seq<byte>)
    requires h.WellFormed()
    ensures |r| == 60
  {
    h.name + h.author + h.kind + h.number
  }

  function DecodeContainerHeader(b: seq<byte>): (r: Result<ContainerHeader, HeaderError>)
    ensures r.Success? <==> |b| >= ContainerHeaderSize
    ensures r.Success? ==> r.value.WellFormed()
  {
    if |b| < ContainerHeaderSize then Failure(TruncatedHeader(ContainerHeaderSize, |b|))
    else
      var f := b[..ContainerHeaderSize];
      Success(ContainerHeader(f[..32], f[32..48], f[48..56], f[56..60]))
  }

  /** Decoding reads back exactly the header that was encoded, whatever follows it. */
  lemma ContainerHeaderRoundTrip(h: ContainerHeader, rest: seq<byte>)
    requires h.WellFormed()
    ensures DecodeContainerHeader(EncodeContainerHeader(h) + rest) == Success(h)
  {
    var f := (EncodeContainerHeader(h) + rest)[..ContainerHeaderSize];
    assert f == EncodeContainerHeader(h);
    assert f[..32] == h.name;
    assert f[32..48] == h.author;
    assert f[48..56] == h.kind;
    assert f[56..60] == h.number;
  }

  /** Every 60-byte prefix is the encoding of the header decoded from it. */
  lemma ContainerHeaderComplete(b: seq<byte>)
    requires |b| >= ContainerHeaderSize
    ensures EncodeContainerHeader(DecodeContainerHeader(b).value) == b[..ContainerHeaderSize]
  {
    var f := b[..ContainerHeaderSize];
    assert f == f[..32] + f[32..48] + f[48..56] + f[56..60];
  }

  /** Keyed headers are 32 + key width + 4 + 4 bytes: 56 for AES, 64 for 3DES,
      48 for DES, 1064 for RSA; a Base64 header is 32 + 4 = 36 bytes. */
  function EncodeEntryHeader(alg: Algorithm, h: EntryHeader): (r: seq<byte>)
    requires h.WellFormedFor(alg)
    ensures |r| == EntryHeaderSize(alg)
    ensures alg == AES ==> |r| == 56
    ensures alg == TripleDES ==> |r| == 64
    ensures alg == DES ==> |r| == 48
    ensures alg == RSA ==> |r| == 1064
    ensures alg == Base64 ==> |r| == 36
  {
    match h
    case KeyedHeader(n, k, o, c) => n + k + o + c
    case Base64Header(n, s) => n + s
  }

  function DecodeEntryHeader(alg: Algorithm, b: seq<byte>): (r: Result<EntryHeader, HeaderError>)
    ensures r.Success? <==> |b| >= EntryHeaderSize(alg)
    ensures r.Success? ==> r.value.WellFormedFor(alg)
  {
    var size := EntryHeaderSize(alg);
    if |b| < size then Failure(TruncatedHeader(size, |b|))
    else
      var f := b[..size];
      if alg == Base64 then Success(Base64Header(f[..NameWidth], f[NameWidth..]))
      else
        var k := NameWidth + KeyWidth(alg);
        Success(KeyedHeader(f[..NameWidth], f[NameWidth..k], f[k..k + SizeWidth], f[k + SizeWidth..]))
  }

  lemma EntryHeaderRoundTrip(alg: Algorithm, h: EntryHeader, rest: seq<byte>)
    requires h.WellFormedFor(alg)
    ensures DecodeEntryHeader(alg, EncodeEntryHeader(alg, h) + rest) == Success(h)
  {
    var f := (EncodeEntryHeader(alg, h) + rest)[..EntryHeaderSize(alg)];
    assert f == EncodeEntryHeader(alg, h);
    match h
    case KeyedHeader(n, k, o, c) =>
      var w := NameWidth + KeyWidth(alg);
      assert f[..NameWidth] == n;
      assert f[NameWidth..w] == k;
      assert f[w..w + SizeWidth] == o;
      assert f[w + SizeWidth..] == c;
    case Base64Header(n, s) =>
      assert f[..NameWidth] == n;
      assert f[NameWidth..] == s;
  }

  lemma EntryHeaderComplete(alg: Algorithm, b: seq<byte>)
    requires |b| >= EntryHeaderSize(alg)
    ensures EncodeEntryHeader(alg, DecodeEntryHeader(alg, b).value) == b[..EntryHeaderSize(alg)]
  {
    var f := b[..EntryHeaderSize(alg)];
    if alg == Base64 {
      assert f == f[..NameWidth] + f[NameWidth..];
    } else {
      var k := NameWidth + KeyWidth(alg);
      assert f == f[..NameWidth] + f[NameWidth..k] + f[k..k + SizeWidth] + f[k + SizeWidth..];
    }
  }
}
