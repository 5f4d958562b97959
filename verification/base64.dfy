/** Base64 as section 4 of RFC 4648 defines it: the standard 64-character
    alphabet and `=` padding. Encoded text is kept as the bytes of its ASCII
    characters, since Go strings are byte strings. */
module Base64 {

  import opened Bytes
  import opened Results
  import Arith

  /** The pad character `=`. */
  const Pad: byte := 61

  /** The character for a 6-bit value, after Table 1 of RFC 4648: `A`-`Z`,
      `a`-`z`, `0`-`9`, `+`, `/`. */
  function Letter(v: nat): (c: byte)
    requires v < 64
    ensures c != Pad
    ensures SextetValue(c) == Some(v)
  {
    if v < 26 then 65 + v
    else if v < 52 then v + 71
    else if v < 62 then v - 4
    else if v == 62 then 43
    else 47
  }

  /** The 6-bit value of an alphabet character; `None` for any other byte,
      the pad character included. */
  function SextetValue(c: byte): (r: Option<nat>)
    ensures r.Some? ==> r.value < 64
    ensures c == Pad ==> r.None?
  {
    if 65 <= c <= 90 then Some(c - 65)
    else if 97 <= c <= 122 then Some(c - 71)
    else if 48 <= c <= 57 then Some(c + 4)
    else if c == 43 then Some(62)
    else if c == 47 then Some(63)
    else None
  }

  /** Every alphabet character is the letter of its own value. */
  lemma SextetLetter(c: byte)
    requires SextetValue(c).Some?
    ensures Letter(SextetValue(c).value) == c
  {
  }

  /** A full 24-bit group: three bytes become four characters. */
  function EncodeGroup(b0: byte, b1: byte, b2: byte): seq<byte>
  {
    [Letter(b0 / 4), Letter((b0 % 4) * 16 + b1 / 16), Letter((b1 % 16) * 4 + b2 / 64), Letter(b2 % 64)]
  }

  /** `Base64Encrypt`: groups of three bytes become four characters; a final
      group of one or two bytes is completed with zero bits and padded with
      `==` or `=`. */
  function Encode(d: seq<byte>): (t: seq<byte>)
    ensures |t| == 4 * ((|d| + 2) / 3)
    decreases |d|
  {
    if |d| == 0 then []
    else if |d| == 1 then [Letter(d[0] / 4), Letter((d[0] % 4) * 16), Pad, Pad]
    else if |d| == 2 then [Letter(d[0] / 4), Letter((d[0] % 4) * 16 + d[1] / 16), Letter((d[1] % 16) * 4), Pad]
    else EncodeGroup(d[0], d[1], d[2]) + Encode(d[3..])
  }

  /** Four alphabet characters back to three bytes. */
  function DecodeGroup(q: seq<byte>): (r: Option<seq<byte>>)
    requires |q| == 4
    ensures r.Some? ==> |r.value| == 3
  {
    match (SextetValue(q[0]), SextetValue(q[1]), SextetValue(q[2]), SextetValue(q[3]))
    case (Some(s0), Some(s1), Some(s2), Some(s3)) =>
      Some([s0 * 4 + s1 / 16, (s1 % 16) * 16 + s2 / 4, (s2 % 4) * 64 + s3])
    case _ => None
  }

  /** The last four characters, which may carry `==` or `=`. The bits a pad
      leaves unused must be zero (the canonical encoding of section 3.5 of RFC 4648). */
  function DecodeLast(q: seq<byte>): (r: Option<seq<byte>>)
    requires |q| == 4
    ensures r.Some? ==> 1 <= |r.value| <= 3
  {
    if q[2] == Pad && q[3] == Pad then
      match (SextetValue(q[0]), SextetValue(q[1]))
      case (Some(s0), Some(s1)) =>
        if s1 % 16 == 0 then Some([s0 * 4 + s1 / 16]) else None
      case _ => None
    else if q[3] == Pad then
      match (SextetValue(q[0]), SextetValue(q[1]), SextetValue(q[2]))
      case (Some(s0), Some(s1), Some(s2)) =>
        if s2 % 4 == 0 then Some([s0 * 4 + s1 / 16, (s1 % 16) * 16 + s2 / 4]) else None
      case _ => None
    else DecodeGroup(q)
  }

  /** `Base64Decrypt`: the text must be whole groups of four characters, with
      padding allowed only at the very end; anything else is rejected. */
  function Decode(t: seq<byte>): (r: Option<seq<byte>>)
    decreases |t|
  {
    if |t| == 0 then Some([])
    else if |t| < 4 then None
    else if |t| == 4 then DecodeLast(t)
    else
      match DecodeGroup(t[..4])
      case None => None
      case Some(g) =>
        match Decode(t[4..])
        case None => None
        case Some(rest) => Some(g + rest)
  }

  lemma GroupRoundTrip(b0: byte, b1: byte, b2: byte)
    ensures DecodeGroup(EncodeGroup(b0, b1, b2)) == Some([b0, b1, b2])
  {
    var s0 := b0 / 4;
    var s1 := (b0 % 4) * 16 + b1 / 16;
    var s2 := (b1 % 16) * 4 + b2 / 64;
    var s3 := b2 % 64;
    Arith.DivModUnique(s1, 16, b0 % 4, b1 / 16);
    Arith.DivModUnique(s2, 4, b1 % 16, b2 / 64);
    assert s0 * 4 + s1 / 16 == b0;
    assert (s1 % 16) * 16 + s2 / 4 == b1;
    assert (s2 % 4) * 64 + s3 == b2;
    assert EncodeGroup(b0, b1, b2) == [Letter(s0), Letter(s1), Letter(s2), Letter(s3)];
  }

  /** Decoding undoes encoding, for every byte string. */
  lemma {:induction false} DecodeEncode(d: seq<byte>)
    ensures Decode(Encode(d)) == Some(d)
    decreases |d|
  {
    if |d| == 1 {
      var q := Encode(d);
      var s1 := (d[0] % 4) * 16;
      assert s1 / 16 == d[0] % 4;
      assert SextetValue(q[0]) == Some(d[0] / 4);
      assert SextetValue(q[1]) == Some(s1);
      assert Decode(q) == DecodeLast(q);
      assert d == [d[0]];
    } else if |d| == 2 {
      var s1 := (d[0] % 4) * 16 + d[1] / 16;
      assert s1 / 16 == d[0] % 4 && s1 % 16 == d[1] / 16;
      assert d == [d[0], d[1]];
    } else if |d| >= 3 {
      var q := EncodeGroup(d[0], d[1], d[2]);
      var rest := Encode(d[3..]);
      GroupRoundTrip(d[0], d[1], d[2]);
      assert d == [d[0], d[1], d[2]] + d[3..];
      if |d| == 3 {
        assert Encode(d[3..]) == [];
        assert Encode(d) == q;
        assert DecodeLast(q) == DecodeGroup(q);
        assert Decode(q) == DecodeLast(q);
        assert d == [d[0], d[1], d[2]];
      } else {
        assert (q + rest)[..4] == q;
        assert (q + rest)[4..] == rest;
        DecodeEncode(d[3..]);
      }
    }
  }

  /** Four sextets packed into three bytes unpack to the same sextets. */
  lemma SextetsOfGroup(s0: nat, s1: nat, s2: nat, s3: nat)
    requires s0 < 64 && s1 < 64 && s2 < 64 && s3 < 64
    ensures var b0 := s0 * 4 + s1 / 16;
      var b1 := (s1 % 16) * 16 + s2 / 4;
      var b2 := (s2 % 4) * 64 + s3;
      && b0 < 256 && b1 < 256 && b2 < 256
      && b0 / 4 == s0 && (b0 % 4) * 16 + b1 / 16 == s1
      && (b1 % 16) * 4 + b2 / 64 == s2 && b2 % 64 == s3
  {
    Arith.DivModUnique(s1, 16, s1 / 16, s1 % 16);
    Arith.DivModUnique(s2, 4, s2 / 4, s2 % 4);
    assert s1 / 16 < 4 && s2 / 4 < 16;
    Arith.DivModUnique(s0 * 4 + s1 / 16, 4, s0, s1 / 16);
    Arith.DivModUnique((s1 % 16) * 16 + s2 / 4, 16, s1 % 16, s2 / 4);
    Arith.DivModUnique((s2 % 4) * 64 + s3, 64, s2 % 4, s3);
  }

  lemma GroupOfDecode(q: seq<byte>)
    requires |q| == 4 && DecodeGroup(q).Some?
    ensures var g := DecodeGroup(q).value; EncodeGroup(g[0], g[1], g[2]) == q
  {
    var s0 := SextetValue(q[0]).value;
    var s1 := SextetValue(q[1]).value;
    var s2 := SextetValue(q[2]).value;
    var s3 := SextetValue(q[3]).value;
    SextetsOfGroup(s0, s1, s2, s3);
    var g := DecodeGroup(q).value;
    assert g == [s0 * 4 + s1 / 16, (s1 % 16) * 16 + s2 / 4, (s2 % 4) * 64 + s3];
    SextetLetter(q[0]);
    SextetLetter(q[1]);
    SextetLetter(q[2]);
    SextetLetter(q[3]);
    assert EncodeGroup(g[0], g[1], g[2]) == [Letter(s0), Letter(s1), Letter(s2), Letter(s3)];
  }

  /** A last group with `==` re-encodes to itself. */
  lemma LastOfDecodeOne(q: seq<byte>)
    requires |q| == 4 && DecodeLast(q).Some? && q[2] == Pad && q[3] == Pad
    ensures Encode(DecodeLast(q).value) == q
  {
    var s0 := SextetValue(q[0]).value;
    var s1 := SextetValue(q[1]).value;
    SextetsOfGroup(s0, s1, 0, 0);
    var g := DecodeLast(q).value;
    assert g == [s0 * 4 + s1 / 16];
    SextetLetter(q[0]);
    SextetLetter(q[1]);
    assert Encode(g) == [Letter(s0), Letter(s1), Pad, Pad];
  }

  /** A last group with one `=` re-encodes to itself. */
  lemma LastOfDecodeTwo(q: seq<byte>)
    requires |q| == 4 && DecodeLast(q).Some? && q[2] != Pad && q[3] == Pad
    ensures Encode(DecodeLast(q).value) == q
  {
    var s0 := SextetValue(q[0]).value;
    var s1 := SextetValue(q[1]).value;
    var s2 := SextetValue(q[2]).value;
    SextetsOfGroup(s0, s1, s2, 0);
    var g := DecodeLast(q).value;
    assert g == [s0 * 4 + s1 / 16, (s1 % 16) * 16 + s2 / 4];
    SextetLetter(q[0]);
    SextetLetter(q[1]);
    SextetLetter(q[2]);
    assert Encode(g) == [Letter(s0), Letter(s1), Letter(s2), Pad];
  }

  lemma LastOfDecode(q: seq<byte>)
    requires |q| == 4 && DecodeLast(q).Some?
    ensures Encode(DecodeLast(q).value) == q
  {
    if q[3] == Pad {
      if q[2] == Pad {
        LastOfDecodeOne(q);
      } else {
        LastOfDecodeTwo(q);
      }
    } else {
      var g := DecodeLast(q).value;
      assert g == DecodeGroup(q).value;
      GroupOfDecode(q);
      assert g == [g[0], g[1], g[2]];
      assert Encode(g) == EncodeGroup(g[0], g[1], g[2]) + Encode(g[3..]);
    }
  }

  /** Only the canonical encoding decodes: whatever `Decode` accepts is exactly
      what `Encode` produces for the bytes it returns. */
  lemma {:induction false} EncodeDecode(t: seq<byte>)
    requires Decode(t).Some?
    ensures Encode(Decode(t).value) == t
    decreases |t|
  {
    if |t| == 4 {
      LastOfDecode(t);
    } else if |t| > 4 {
      var g := DecodeGroup(t[..4]).value;
      var rest := Decode(t[4..]).value;
      GroupOfDecode(t[..4]);
      EncodeDecode(t[4..]);
      var d := g + rest;
      assert d[..3] == g && d[3..] == rest;
      assert Encode(d) == EncodeGroup(d[0], d[1], d[2]) + Encode(d[3..]);
      assert t == t[..4] + t[4..];
    }
  }

  /** Input whose length is a multiple of three encodes without any pad, in
      exactly four characters per three bytes. */
  lemma {:induction false} NoPadWhenWholeGroups(d: seq<byte>)
    requires |d| % 3 == 0
    ensures |Encode(d)| == |d| / 3 * 4
    ensures forall i :: 0 <= i < |Encode(d)| ==> Encode(d)[i] != Pad
    decreases |d|
  {
    if |d| > 0 {
      NoPadWhenWholeGroups(d[3..]);
      var q := EncodeGroup(d[0], d[1], d[2]);
      assert Encode(d) == q + Encode(d[3..]);
    }
  }

  /** The bytes of the known vector's plain text, "hello,world!". */
  const HelloPlain: seq<byte> := [104, 101, 108, 108, 111, 44, 119, 111, 114, 108, 100, 33]

  /** The bytes of the known vector's encoding, "aGVsbG8sd29ybGQh". */
  const HelloEncoded: seq<byte> := [97, 71, 86, 115, 98, 71, 56, 115, 100, 50, 57, 121, 98, 71, 81, 104]

  lemma HelloLiterals()
    ensures AsciiBytes("hello,world!") == HelloPlain
    ensures AsciiBytes("aGVsbG8sd29ybGQh") == HelloEncoded
  {
  }

  lemma EncodeHello()
    ensures Encode(HelloPlain) == HelloEncoded
  {
    var d := HelloPlain;
    assert EncodeGroup(104, 101, 108) == [97, 71, 86, 115];
    assert EncodeGroup(108, 111, 44) == [98, 71, 56, 115];
    assert EncodeGroup(119, 111, 114) == [100, 50, 57, 121];
    assert EncodeGroup(108, 100, 33) == [98, 71, 81, 104];
    assert Encode(d[9..]) == EncodeGroup(108, 100, 33) + Encode(d[12..]);
    assert Encode(d[6..]) == EncodeGroup(119, 111, 114) + Encode(d[9..]);
    assert Encode(d[3..]) == EncodeGroup(108, 111, 44) + Encode(d[6..]);
    assert Encode(d) == EncodeGroup(104, 101, 108) + Encode(d[3..]);
  }

  /** The known vector: "hello,world!" encodes to "aGVsbG8sd29ybGQh" and back. */
  lemma HelloWorld()
    ensures Encode(AsciiBytes("hello,world!")) == AsciiBytes("aGVsbG8sd29ybGQh")
    ensures Decode(AsciiBytes("aGVsbG8sd29ybGQh")) == Some(AsciiBytes("hello,world!"))
  {
    HelloLiterals();
    EncodeHello();
    DecodeEncode(HelloPlain);
  }
}
