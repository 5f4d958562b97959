/** Sequential reading of a container: the 60-byte container header, then
    `Number` entries, each an entry header followed by exactly as many payload
    bytes as its size field declares. This is the inverse the packer's output
    is checked against. */
module Container {

  import opened Bytes
  import opened Results
  import opened Schema

  datatype UnpackError =
    | BadHeader(cause: HeaderError)
    | TruncatedEntry(index: nat, declared: nat, available: nat)
    | TrailingBytes(count: nat)

  /** Entry-header decoding looks only at the header's own bytes. */
  lemma DecodeEntryHeaderPrefix(alg: Algorithm, b: seq<byte>, c: seq<byte>)
    requires |b| >= EntryHeaderSize(alg) && |c| >= EntryHeaderSize(alg)
    requires b[..EntryHeaderSize(alg)] == c[..EntryHeaderSize(alg)]
    ensures DecodeEntryHeader(alg, b) == DecodeEntryHeader(alg, c)
  {
  }

  lemma DecodeContainerHeaderPrefix(b: seq<byte>, c: seq<byte>)
    requires |b| >= ContainerHeaderSize && |c| >= ContainerHeaderSize
    requires b[..ContainerHeaderSize] == c[..ContainerHeaderSize]
    ensures DecodeContainerHeader(b) == DecodeContainerHeader(c)
  {
  }

  datatype Entry = Entry(header: EntryHeader, payload: seq<byte>)

  /** The number of payload bytes the header announces: CryptSize for keyed
      entries, Size for Base64 entries. */
  function PayloadSize(alg: Algorithm, h: EntryHeader): (n: nat)
    requires h.WellFormedFor(alg)
    ensures n < Uint32Limit
  {
    match h
    case KeyedHeader(_, _, _, c) => FromU32BE(c)
    case Base64Header(_, s) => FromU32BE(s)
  }

  /** An entry whose header fits the schema and announces its own payload length. */
  predicate Consistent(alg: Algorithm, e: Entry)
  {
    e.header.WellFormedFor(alg) && PayloadSize(alg, e.header) == |e.payload|
  }

  predicate AllConsistent(alg: Algorithm, es: seq<Entry>)
  {
    forall i :: 0 <= i < |es| ==> Consistent(alg, es[i])
  }

  function EncodeEntry(alg: Algorithm, e: Entry): (r: seq<byte>)
    requires e.header.WellFormedFor(alg)
    ensures |r| == EntryHeaderSize(alg) + |e.payload|
  {
    EncodeEntryHeader(alg, e.header) + e.payload
  }

  function EncodeEntries(alg: Algorithm, es: seq<Entry>): seq<byte>
    requires AllConsistent(alg, es)
  {
    if |es| == 0 then [] else EncodeEntry(alg, es[0]) + EncodeEntries(alg, es[1..])
  }

  /** Reads one entry from the front of `b`: its header, then the number of
      payload bytes the header announces. */
  function ReadEntry(alg: Algorithm, b: seq<byte>, index: nat): (r: Result<Entry, UnpackError>)
    ensures r.Success? ==> Consistent(alg, r.value)
    ensures r.Success? ==> |EncodeEntry(alg, r.value)| <= |b|
  {
    match DecodeEntryHeader(alg, b)
    case Failure(e) => Failure(BadHeader(e))
    case Success(h) =>
      var start := EntryHeaderSize(alg);
      var size := PayloadSize(alg, h);
      if |b| - start < size then Failure(TruncatedEntry(index, size, |b| - start))
      else Success(Entry(h, b[start..start + size]))
  }

  /** The entry read is the encoding of exactly the bytes it consumed. */
  lemma ReadEntryComplete(alg: Algorithm, b: seq<byte>, index: nat)
    requires ReadEntry(alg, b, index).Success?
    ensures EncodeEntry(alg, ReadEntry(alg, b, index).value) == b[..|EncodeEntry(alg, ReadEntry(alg, b, index).value)|]
  {
    var start := EntryHeaderSize(alg);
    var e := ReadEntry(alg, b, index).value;
    var n := start + |e.payload|;
    assert EncodeEntryHeader(alg, e.header) == b[..start] by {
      EntryHeaderComplete(alg, b);
    }
    assert e.payload == b[start..n];
    TakeConcat(b, start, n);
  }

  lemma ReadEntryRoundTrip(alg: Algorithm, e: Entry, rest: seq<byte>, index: nat)
    requires Consistent(alg, e)
    ensures ReadEntry(alg, EncodeEntry(alg, e) + rest, index) == Success(e)
  {
    var b := EncodeEntry(alg, e) + rest;
    assert b == EncodeEntryHeader(alg, e.header) + (e.payload + rest);
    EntryHeaderRoundTrip(alg, e.header, e.payload + rest);
    var start := EntryHeaderSize(alg);
    assert b[start..start + |e.payload|] == e.payload;
  }

  /** Reads exactly `count` entries and requires the bytes to end there.
      `index` numbers the entries for error reports. */
  function ParseEntries(alg: Algorithm, b: seq<byte>, count: nat, index: nat): (r: Result<seq<Entry>, UnpackError>)
    ensures r.Success? ==> |r.value| == count && AllConsistent(alg, r.value)
    decreases count
  {
    if count == 0 then
      if |b| == 0 then Success([]) else Failure(TrailingBytes(|b|))
    else
      match ReadEntry(alg, b, index)
      case Failure(e) => Failure(e)
      case Success(first) =>
        match ParseEntries(alg, b[|EncodeEntry(alg, first)|..], count - 1, index + 1)
        case Failure(e) => Failure(e)
        case Success(rest) => Success([first] + rest)
  }

  /** Whatever was read successfully encodes back to exactly the bytes read. */
  lemma {:induction false} ParseEntriesComplete(alg: Algorithm, b: seq<byte>, count: nat, index: nat)
    requires ParseEntries(alg, b, count, index).Success?
    ensures EncodeEntries(alg, ParseEntries(alg, b, count, index).value) == b
    decreases count
  {
    if count > 0 {
      var first := ReadEntry(alg, b, index).value;
      var n := |EncodeEntry(alg, first)|;
      var es := ParseEntries(alg, b, count, index).value;
      ReadEntryComplete(alg, b, index);
      ParseEntriesComplete(alg, b[n..], count - 1, index + 1);
      assert es[0] == first;
      assert es[1..] == ParseEntries(alg, b[n..], count - 1, index + 1).value;
      assert b == b[..n] + b[n..];
    }
  }

  lemma {:induction false} ParseEntriesRoundTrip(alg: Algorithm, es: seq<Entry>, index: nat)
    requires AllConsistent(alg, es)
    ensures ParseEntries(alg, EncodeEntries(alg, es), |es|, index) == Success(es)
    decreases |es|
  {
    if |es| > 0 {
      var b := EncodeEntries(alg, es);
      var tail := EncodeEntries(alg, es[1..]);
      ReadEntryRoundTrip(alg, es[0], tail, index);
      assert b[|EncodeEntry(alg, es[0])|..] == tail;
      ParseEntriesRoundTrip(alg, es[1..], index + 1);
      assert [es[0]] + es[1..] == es;
    }
  }

  /** Reading the first entry of a prefix that still holds all of it gives the same entry. */
  lemma ReadEntryPrefix(alg: Algorithm, b: seq<byte>, k: nat, index: nat)
    requires ReadEntry(alg, b, index).Success?
    requires |EncodeEntry(alg, ReadEntry(alg, b, index).value)| <= k <= |b|
    ensures ReadEntry(alg, b[..k], index) == ReadEntry(alg, b, index)
  {
    var c := b[..k];
    var start := EntryHeaderSize(alg);
    var e := ReadEntry(alg, b, index).value;
    var size := |e.payload|;
    assert start + size <= k;
    SliceOfTake(b, k, 0, start);
    assert c[..start] == b[..start];
    DecodeEntryHeaderPrefix(alg, b, c);
    assert DecodeEntryHeader(alg, c) == Success(e.header);
    assert PayloadSize(alg, e.header) == size;
    SliceOfTake(b, k, start, start + size);
  }

  /** A prefix too short for the first entry cannot be read. */
  lemma ReadEntryShort(alg: Algorithm, b: seq<byte>, k: nat, index: nat)
    requires ReadEntry(alg, b, index).Success?
    requires k < |EncodeEntry(alg, ReadEntry(alg, b, index).value)|
    ensures ReadEntry(alg, b[..k], index).Failure?
  {
    var c := b[..k];
    var start := EntryHeaderSize(alg);
    if k >= start {
      assert c[..start] == b[..start];
      DecodeEntryHeaderPrefix(alg, b, c);
    }
  }

  /** Cutting any bytes off the end of a well-formed run of at least one entry
      makes reading it fail, instead of returning a short payload. */
  lemma {:induction false} TruncatedEntriesFail(alg: Algorithm, b: seq<byte>, count: nat, index: nat, k: nat)
    requires count > 0
    requires ParseEntries(alg, b, count, index).Success?
    requires k < |b|
    ensures ParseEntries(alg, b[..k], count, index).Failure?
    decreases count
  {
    var first := ReadEntry(alg, b, index).value;
    var n := |EncodeEntry(alg, first)|;
    assert ParseEntries(alg, b[n..], count - 1, index + 1).Success?;
    if k < n {
      ReadEntryShort(alg, b, k, index);
    } else {
      var c := b[..k];
      ReadEntryPrefix(alg, b, k, index);
      assert c[n..] == b[n..][..k - n];
      TruncatedEntriesFail(alg, b[n..], count - 1, index + 1, k - n);
      assert ParseEntries(alg, c[n..], count - 1, index + 1).Failure?;
    }
  }

  datatype Unpacked = Unpacked(header: ContainerHeader, entries: seq<Entry>)

  /** Reads the container header, then as many entries as its Number field says. */
  function ParseContainer(alg: Algorithm, b: seq<byte>): (r: Result<Unpacked, UnpackError>)
    ensures r.Success? ==> r.value.header.WellFormed()
    ensures r.Success? ==> |r.value.entries| == FromU32BE(r.value.header.number)
    ensures r.Success? ==> AllConsistent(alg, r.value.entries)
  {
    match DecodeContainerHeader(b)
    case Failure(e) => Failure(BadHeader(e))
    case Success(h) =>
      match ParseEntries(alg, b[ContainerHeaderSize..], FromU32BE(h.number), 0)
      case Failure(e) => Failure(e)
      case Success(es) => Success(Unpacked(h, es))
  }

  /** Once the header decodes, reading the container is reading its entries. */
  lemma ParseContainerBody(alg: Algorithm, b: seq<byte>)
    requires DecodeContainerHeader(b).Success?
    ensures var count := FromU32BE(DecodeContainerHeader(b).value.number);
      && (ParseContainer(alg, b).Success? <==> ParseEntries(alg, b[ContainerHeaderSize..], count, 0).Success?)
      && (ParseContainer(alg, b).Success? ==> ParseContainer(alg, b).value.entries == ParseEntries(alg, b[ContainerHeaderSize..], count, 0).value)
  {
  }

  /** A container that reads successfully is exactly its header and entries. */
  lemma ContainerComplete(alg: Algorithm, b: seq<byte>)
    requires ParseContainer(alg, b).Success?
    ensures EncodeContainerHeader(ParseContainer(alg, b).value.header)
      + EncodeEntries(alg, ParseContainer(alg, b).value.entries) == b
  {
    var h := DecodeContainerHeader(b).value;
    ContainerHeaderComplete(b);
    ParseEntriesComplete(alg, b[ContainerHeaderSize..], FromU32BE(h.number), 0);
    assert b == b[..ContainerHeaderSize] + b[ContainerHeaderSize..];
  }

  lemma ContainerRoundTrip(alg: Algorithm, h: ContainerHeader, es: seq<Entry>)
    requires h.WellFormed() && FromU32BE(h.number) == |es|
    requires AllConsistent(alg, es)
    ensures ParseContainer(alg, EncodeContainerHeader(h) + EncodeEntries(alg, es)) == Success(Unpacked(h, es))
  {
    var body := EncodeEntries(alg, es);
    var b := EncodeContainerHeader(h) + body;
    ContainerHeaderRoundTrip(h, body);
    assert b[ContainerHeaderSize..] == body;
    ParseEntriesRoundTrip(alg, es, 0);
  }

  /** Dropping any number of trailing bytes from a container holding at least
      one entry makes reading it fail. */
  lemma TruncatedContainerFails(alg: Algorithm, b: seq<byte>, k: nat)
    requires ParseContainer(alg, b).Success?
    requires |ParseContainer(alg, b).value.entries| > 0
    requires k < |b|
    ensures ParseContainer(alg, b[..k]).Failure?
  {
    ParseContainerBody(alg, b);
    if k >= ContainerHeaderSize {
      TruncatedBodyFails(alg, b, k);
    }
  }

  lemma TruncatedBodyFails(alg: Algorithm, b: seq<byte>, k: nat)
    requires DecodeContainerHeader(b).Success?
    requires FromU32BE(DecodeContainerHeader(b).value.number) > 0
    requires ParseEntries(alg, b[ContainerHeaderSize..], FromU32BE(DecodeContainerHeader(b).value.number), 0).Success?
    requires ContainerHeaderSize <= k < |b|
    ensures ParseContainer(alg, b[..k]).Failure?
  {
    var count := FromU32BE(DecodeContainerHeader(b).value.number);
    var c := b[..k];
    assert ParseEntries(alg, c[ContainerHeaderSize..], count, 0).Failure? by {
      DropOfTake(b, ContainerHeaderSize, k);
      TruncatedEntriesFail(alg, b[ContainerHeaderSize..], count, 0, k - ContainerHeaderSize);
    }
    assert DecodeContainerHeader(c) == DecodeContainerHeader(b) by {
      SliceOfTake(b, k, 0, ContainerHeaderSize);
      DecodeContainerHeaderPrefix(b, c);
    }
    ParseContainerBody(alg, c);
  }

  /** The original size an entry header records: OriginSize for keyed entries,
      Size for Base64 entries, which have no other size field. */
  function RecordedSize(alg: Algorithm, h: EntryHeader): nat
    requires h.WellFormedFor(alg)
  {
    match h
    case KeyedHeader(_, _, o, _) => FromU32BE(o)
    case Base64Header(_, s) => FromU32BE(s)
  }

  datatype Info = Info(names: seq<seq<byte>>, sizes: seq<nat>)

  /** `ExtractInfo`: lists each entry's name, with its zero padding removed, and
      its recorded size, in container order, without touching any payload. */
  function ExtractInfo(alg: Algorithm, b: seq<byte>): (r: Result<Info, UnpackError>)
    ensures r.Success? <==> ParseContainer(alg, b).Success?
    ensures r.Success? ==> |r.value.names| == |r.value.sizes| == |ParseContainer(alg, b).value.entries|
    ensures r.Success? ==> forall i :: 0 <= i < |r.value.names| ==>
      r.value.names[i] == TrimZeros(ParseContainer(alg, b).value.entries[i].header.name)
  {
    match ParseContainer(alg, b)
    case Failure(e) => Failure(e)
    case Success(u) =>
      var es := u.entries;
      Success(Info(
        seq(|es|, i requires 0 <= i < |es| => TrimZeros(es[i].header.name)),
        seq(|es|, i requires 0 <= i < |es| => RecordedSize(alg, es[i].header))))
  }
}
