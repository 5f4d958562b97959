/** Byte-level helpers of the `utils` package the packer relies on
    (`SplitByte`, `BytesCopy`, `IntToBytes`, `BytesToInt`) and `bytes.Join`. */
module Bytes {

  import Arith

  type byte = b: int | 0 <= b < 256

  /** Exclusive upper bound of a 4-byte unsigned field. */
  const Uint32Limit: int := 0x1_0000_0000

  function Zeros(n: nat): (z: seq<byte>)
    ensures |z| == n
    ensures forall i :: 0 <= i < n ==> z[i] == 0
  {
    seq(n, _ => 0)
  }

  /** `bytes.Join(parts, "")`: the parts one after another, in order. */
  function Flatten(parts: seq<seq<byte>>): (r: seq<byte>)
  {
    if |parts| == 0 then [] else parts[0] + Flatten(parts[1..])
  }

  /** The bytes of an ASCII string literal, as Go's `[]byte("...")` sees it. */
  function AsciiBytes(s: string): (r: seq<byte>)
    requires forall i :: 0 <= i < |s| ==> s[i] as int < 128
    ensures |r| == |s|
    ensures forall i :: 0 <= i < |s| ==> r[i] == s[i] as int
  {
    seq(|s|, i requires 0 <= i < |s| => s[i] as int)
  }

  /** Sum of the lengths of the parts. */
  function TotalLength(parts: seq<seq<byte>>): nat
  {
    if |parts| == 0 then 0 else |parts[0]| + TotalLength(parts[1..])
  }

  lemma {:induction false} FlattenLength(parts: seq<seq<byte>>)
    ensures |Flatten(parts)| == TotalLength(parts)
    decreases |parts|
  {
    if |parts| > 0 {
      FlattenLength(parts[1..]);
    }
  }

  /** `BytesCopy(&field, src)` where `field` was made with `make([]byte, width)`:
      Go's `copy` moves min(len(field), len(src)) bytes into a zeroed buffer. */
  function CopyInto(src: seq<byte>, width: nat): (r: seq<byte>)
    ensures |r| == width
    ensures forall i :: 0 <= i < width ==> r[i] == (if i < |src| then src[i] else 0)
  {
    if |src| <= width then src + Zeros(width - |src|) else src[..width]
  }

  /** Drops the zero bytes that pad a fixed-width name field on the right. */
  function TrimZeros(s: seq<byte>): (r: seq<byte>)
    ensures |r| <= |s| && r == s[..|r|]
    ensures forall i :: |r| <= i < |s| ==> s[i] == 0
    ensures |r| == 0 || r[|r| - 1] != 0
  {
    if |s| == 0 then []
    else if s[|s| - 1] == 0 then TrimZeros(s[..|s| - 1])
    else s
  }

  predicate NoTrailingZero(s: seq<byte>)
  {
    |s| == 0 || s[|s| - 1] != 0
  }

  /** A name that fits its field and does not itself end in a zero byte is
      recovered exactly from the zero-padded field. */
  lemma {:induction false} TrimZerosCopyInto(s: seq<byte>, width: nat)
    requires |s| <= width
    requires NoTrailingZero(s)
    ensures TrimZeros(CopyInto(s, width)) == s
    decreases width - |s|
  {
    var f := CopyInto(s, width);
    assert f[..|s|] == s;
  }

  /** `IntToBytes`: four bytes, most significant first, of n modulo 2^32. */
  function U32BE(n: nat): (r: seq<byte>)
    ensures |r| == 4
  {
    var m := n % Uint32Limit;
    [m / 0x100_0000, (m / 0x1_0000) % 0x100, (m / 0x100) % 0x100, m % 0x100]
  }

  /** `BytesToInt` on a 4-byte field, read as an unsigned big-endian value. */
  function FromU32BE(b: seq<byte>): (n: nat)
    requires |b| == 4
    ensures n < Uint32Limit
  {
    b[0] as int * 0x100_0000 + b[1] as int * 0x1_0000 + b[2] as int * 0x100 + b[3] as int
  }

  lemma U32RoundTrip(n: nat)
    ensures FromU32BE(U32BE(n)) == n % Uint32Limit
  {
    var m := n % Uint32Limit;
    var q1 := m / 0x100;
    var q2 := q1 / 0x100;
    var q3 := q2 / 0x100;
    assert m == q1 * 0x100 + m % 0x100;
    assert q1 == q2 * 0x100 + q1 % 0x100;
    assert q2 == q3 * 0x100 + q2 % 0x100;
    assert m == q2 * 0x1_0000 + (q1 % 0x100) * 0x100 + m % 0x100;
    Arith.DivModUnique(m, 0x1_0000, q2, (q1 % 0x100) * 0x100 + m % 0x100);
    assert m == q3 * 0x100_0000 + (q2 % 0x100) * 0x1_0000 + (q1 % 0x100) * 0x100 + m % 0x100;
    Arith.DivModUnique(m, 0x100_0000, q3, (q2 % 0x100) * 0x1_0000 + (q1 % 0x100) * 0x100 + m % 0x100);
  }

  /** A value that fits in 32 bits survives the round trip unchanged. */
  lemma U32Exact(n: nat)
    requires n < Uint32Limit
    ensures FromU32BE(U32BE(n)) == n
  {
    U32RoundTrip(n);
    assert n % Uint32Limit == n;
  }

  lemma U32Injective(b: seq<byte>)
    requires |b| == 4
    ensures U32BE(FromU32BE(b)) == b
  {
    var n := FromU32BE(b);
    var low := b[1] as int * 0x1_0000 + b[2] as int * 0x100 + b[3] as int;
    assert n % Uint32Limit == n;
    assert n / 0x100_0000 == b[0];
    assert (n / 0x1_0000) % 0x100 == b[1] by {
      assert n / 0x1_0000 == b[0] as int * 0x100 + b[1];
    }
    assert (n / 0x100) % 0x100 == b[2] by {
      assert n / 0x100 == b[0] as int * 0x1_0000 + b[1] as int * 0x100 + b[2];
    }
    assert n % 0x100 == b[3];
  }

  /** A slice that ends before the cut is the same slice of the whole. */
  lemma SliceOfTake(b: seq<byte>, k: nat, lo: nat, hi: nat)
    requires lo <= hi <= k <= |b|
    ensures b[..k][lo..hi] == b[lo..hi]
  {
  }

  /** A prefix is the shorter prefix followed by the bytes between them. */
  lemma TakeConcat(b: seq<byte>, i: nat, j: nat)
    requires i <= j <= |b|
    ensures b[..j] == b[..i] + b[i..j]
  {
  }

  /** Cutting at `k` and then dropping `lo` bytes, or the other way round. */
  lemma DropOfTake(b: seq<byte>, lo: nat, k: nat)
    requires lo <= k <= |b|
    ensures b[..k][lo..] == b[lo..][..k - lo]
  {
  }

  /** `SplitByte(data, size)`: consecutive slices of `size` bytes, the last one
      possibly shorter; no slice at all for empty data. */
  function Split(data: seq<byte>, size: nat): (chunks: seq<seq<byte>>)
    requires size > 0
    ensures Flatten(chunks) == data
    ensures forall i :: 0 <= i < |chunks| ==> 0 < |chunks[i]| <= size
    ensures forall i :: 0 <= i < |chunks| - 1 ==> |chunks[i]| == size
    decreases |data|
  {
    if |data| == 0 then []
    else if |data| <= size then [data]
    else [data[..size]] + Split(data[size..], size)
  }

  /** The number of slices is the size rounded up to whole slices. */
  lemma {:induction false} SplitCount(data: seq<byte>, size: nat)
    requires size > 0
    ensures |Split(data, size)| == (|data| + size - 1) / size
    decreases |data|
  {
    if |data| > size {
      SplitCount(data[size..], size);
      Arith.DivModShift(|data| - 1, size);
    }
  }

  /** Splitting a full slice followed by more bytes peels off that slice. */
  lemma SplitFront(a: seq<byte>, b: seq<byte>, size: nat)
    requires size > 0 && |a| == size && |b| > 0
    ensures Split(a + b, size) == [a] + Split(b, size)
  {
    assert (a + b)[..size] == a;
    assert (a + b)[size..] == b;
  }
}
