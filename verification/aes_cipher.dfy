/** `AESEncrypt` and `PKCS7Padding`: one chunk is padded to whole 16-byte
    blocks and encrypted in CBC mode (section 6.2 of NIST SP 800-38A) with the
    first 16 key bytes as the initialisation vector. The AES block function
    itself is a parameter: any length-preserving map from (key, block) to block. */
module AesCipher {

  import opened Bytes
  import opened Results
  import Arith
  import Global

  const BlockSize: nat := 16

  type Block = b: seq<byte> | |b| == BlockSize
    witness [0, 0, 0, 0, 0, 0, 0, 0, 0, 0, 0, 0, 0, 0, 0, 0]

  /** A block cipher: for a key, a map from one 16-byte block to another. */
  type BlockFn = (seq<byte>, Block) -> Block

  /** Holds when `decipher` undoes `cipher` under `key`. */
  ghost predicate Inverts(decipher: BlockFn, cipher: BlockFn, key: seq<byte>)
  {
    forall b: Block :: decipher(key, cipher(key, b)) == b
  }

  /** Appends `padding` copies of the byte `padding` (truncated to 8 bits, as
      Go's `byte(padding)` does), where `padding` tops the length up to the next
      multiple of `size` — and is zero when the length already is one. */
  function PKCS7Padding(src: seq<byte>, size: nat): (r: seq<byte>)
    requires size > 0
    ensures |src| <= |r| < |src| + size
    ensures r[..|src|] == src
    ensures |r| % size == 0
    ensures |src| % size == 0 <==> r == src
    ensures forall i :: |src| <= i < |r| ==> r[i] == (|r| - |src|) % 256
    ensures size <= 256 ==> forall i :: |src| <= i < |r| ==> r[i] == |r| - |src|
  {
    var padding := if |src| % size != 0 then size - |src| % size else 0;
    assert |src| + padding == Arith.RoundUp(|src|, size);
    src + seq(padding, _ => padding % 256)
  }

  /** Padding as section 6.3 of RFC 5652 defines it: always one to `k` bytes. */
  function Rfc5652Pad(src: seq<byte>, k: nat): (r: seq<byte>)
    requires 0 < k < 256
    ensures |src| < |r| <= |src| + k
  {
    var n := k - |src| % k;
    src + seq(n, _ => n)
  }

  /** The packer's padding agrees with RFC 5652 exactly on lengths that are not
      already a multiple of the block size; aligned input gets no padding block. */
  lemma PaddingMatchesRfc5652(src: seq<byte>, k: nat)
    requires 0 < k < 256
    ensures PKCS7Padding(src, k) == Rfc5652Pad(src, k) <==> |src| % k != 0
  {
    if |src| % k == 0 {
      assert |PKCS7Padding(src, k)| != |Rfc5652Pad(src, k)|;
    }
  }

  /** Because aligned input is left alone, padding alone cannot be undone: fifteen
      one-bytes and sixteen one-bytes pad to the same block. Recovering a chunk
      needs its original length, which the entry header's OriginSize carries. */
  lemma PaddingNotInjective()
    ensures seq(15, _ => 1) != seq(16, _ => 1)
    ensures PKCS7Padding(seq(15, _ => 1), 16) == PKCS7Padding(seq(16, _ => 1), 16)
  {
    var a: seq<byte> := seq(15, _ => 1);
    var b: seq<byte> := seq(16, _ => 1);
    assert |a| != |b|;
    var pa := PKCS7Padding(a, 16);
    assert |pa| == 16;
    assert forall i :: 0 <= i < 16 ==> pa[i] == 1 by {
      forall i | 0 <= i < 16 ensures pa[i] == 1 {
        if i < 15 {
          assert pa[..15][i] == a[i];
        }
      }
    }
  }

  function Pow2(k: nat): (p: nat)
    ensures p > 0
  {
    if k == 0 then 1 else 2 * Pow2(k - 1)
  }

  /** Bitwise exclusive or of the low `k` bits of `a` and `b`, bit by bit from
      the least significant one. */
  function XorBits(a: nat, b: nat, k: nat): (r: nat)
    ensures r < Pow2(k)
  {
    if k == 0 then 0
    else (if a % 2 != b % 2 then 1 else 0) + 2 * XorBits(a / 2, b / 2, k - 1)
  }

  lemma Pow2Eight()
    ensures Pow2(8) == 256
  {
    assert Pow2(4) == 16;
  }

  /** Exclusive or of two bytes, as Go's `^` on `byte`. */
  function Xor(a: byte, b: byte): (r: byte)
  {
    Pow2Eight();
    XorBits(a, b, 8)
  }

  /** The lowest bit of `a` and the rest above it, for a modulus of `2 * p`. */
  lemma ModDouble(a: nat, p: nat)
    requires p > 0
    ensures a % (2 * p) == a % 2 + 2 * ((a / 2) % p)
  {
    var h := a / 2;
    var q := h / p;
    var r := h % p;
    assert h == p * q + r;
    assert a == 2 * h + a % 2;
    assert 2 * (p * q) == q * (2 * p);
    assert a == q * (2 * p) + (a % 2 + 2 * r);
    Arith.DivModUnique(a, 2 * p, q, a % 2 + 2 * r);
  }

  /** The lowest bit of one exclusive-or step. */
  lemma XorStep(a: nat, b: nat, k: nat)
    requires k > 0
    ensures XorBits(a, b, k) % 2 == (if a % 2 != b % 2 then 1 else 0)
    ensures XorBits(a, b, k) / 2 == XorBits(a / 2, b / 2, k - 1)
  {
    var bit := if a % 2 != b % 2 then 1 else 0;
    var rest := XorBits(a / 2, b / 2, k - 1);
    Arith.DivModUnique(XorBits(a, b, k), 2, rest, bit);
  }

  /** Taking `b` out again restores the low `k` bits of `a`. */
  lemma {:induction false} XorBitsCancel(a: nat, b: nat, k: nat)
    ensures XorBits(XorBits(a, b, k), b, k) == a % Pow2(k)
  {
    if k > 0 {
      var x := XorBits(a, b, k);
      XorStep(a, b, k);
      XorBitsCancel(a / 2, b / 2, k - 1);
      assert (if x % 2 != b % 2 then 1 else 0) == a % 2;
      assert XorBits(x, b, k) == a % 2 + 2 * ((a / 2) % Pow2(k - 1));
      ModDouble(a, Pow2(k - 1));
    }
  }

  lemma XorCancel(a: byte, b: byte)
    ensures Xor(Xor(a, b), b) == a
  {
    Pow2Eight();
    XorBitsCancel(a, b, 8);
  }

  function XorBlock(a: Block, b: Block): (r: Block)
    ensures forall i :: 0 <= i < BlockSize ==> r[i] == Xor(a[i], b[i])
  {
    seq(BlockSize, i requires 0 <= i < BlockSize => Xor(a[i], b[i]))
  }

  lemma XorBlockCancel(a: Block, b: Block)
    ensures XorBlock(XorBlock(a, b), b) == a
  {
    forall i | 0 <= i < BlockSize
      ensures XorBlock(XorBlock(a, b), b)[i] == a[i]
    {
      XorCancel(a[i], b[i]);
    }
  }

  /** CBC encryption: each plain block is combined with the previous cipher
      block (the IV for the first) and passed through the block function. */
  function CbcEncrypt(cipher: BlockFn, key: seq<byte>, iv: Block, plain: seq<byte>): (c: seq<byte>)
    requires |plain| % BlockSize == 0
    ensures |c| == |plain|
    decreases |plain|
  {
    if |plain| == 0 then []
    else
      var out := cipher(key, XorBlock(plain[..BlockSize], iv));
      out + CbcEncrypt(cipher, key, out, plain[BlockSize..])
  }

  /** CBC decryption, the inverse direction of the same mode. */
  function CbcDecrypt(decipher: BlockFn, key: seq<byte>, iv: Block, c: seq<byte>): (p: seq<byte>)
    requires |c| % BlockSize == 0
    ensures |p| == |c|
    decreases |c|
  {
    if |c| == 0 then []
    else
      var blk: Block := c[..BlockSize];
      XorBlock(decipher(key, blk), iv) + CbcDecrypt(decipher, key, blk, c[BlockSize..])
  }

  lemma {:induction false} CbcRoundTrip(cipher: BlockFn, decipher: BlockFn, key: seq<byte>, iv: Block, plain: seq<byte>)
    requires |plain| % BlockSize == 0
    requires Inverts(decipher, cipher, key)
    ensures CbcDecrypt(decipher, key, iv, CbcEncrypt(cipher, key, iv, plain)) == plain
    decreases |plain|
  {
    if |plain| > 0 {
      var p0: Block := plain[..BlockSize];
      var out := cipher(key, XorBlock(p0, iv));
      var c := CbcEncrypt(cipher, key, iv, plain);
      assert c == out + CbcEncrypt(cipher, key, out, plain[BlockSize..]);
      assert c[..BlockSize] == out;
      assert c[BlockSize..] == CbcEncrypt(cipher, key, out, plain[BlockSize..]);
      XorBlockCancel(p0, iv);
      CbcRoundTrip(cipher, decipher, key, out, plain[BlockSize..]);
      assert plain == p0 + plain[BlockSize..];
    }
  }

  datatype CipherError = KeySizeError(size: nat)

  predicate ValidAesKeyLength(n: nat)
  {
    n == 16 || n == 24 || n == 32
  }

  /** `AESEncrypt(src, key)`: rejects keys that are not 16, 24 or 32 bytes long;
      otherwise pads `src` to whole blocks and encrypts it in CBC mode with
      `key[:16]` as IV. The cipher text is the padded length. */
  function AESEncrypt(cipher: BlockFn, src: seq<byte>, key: seq<byte>): (r: Result<seq<byte>, CipherError>)
    ensures r.Success? <==> ValidAesKeyLength(|key|)
    ensures r.Failure? ==> r.error == KeySizeError(|key|)
    ensures r.Success? ==> |r.value| == Arith.RoundUp(|src|, BlockSize)
    ensures r.Success? ==> |r.value| == |PKCS7Padding(src, BlockSize)|
  {
    if !ValidAesKeyLength(|key|) then Failure(KeySizeError(|key|))
    else
      var iv: Block := key[..BlockSize];
      Success(CbcEncrypt(cipher, key, iv, PKCS7Padding(src, BlockSize)))
  }

  /** The inverse of one chunk's encryption: CBC-decrypt with the same IV and
      keep the first `originLen` bytes, which drops the padding. */
  function AESDecryptChunk(decipher: BlockFn, c: seq<byte>, key: seq<byte>, originLen: nat): (r: Result<seq<byte>, CipherError>)
    requires |c| % BlockSize == 0 && originLen <= |c|
    ensures r.Success? <==> ValidAesKeyLength(|key|)
    ensures r.Success? ==> |r.value| == originLen
  {
    if !ValidAesKeyLength(|key|) then Failure(KeySizeError(|key|))
    else
      var iv: Block := key[..BlockSize];
      Success(CbcDecrypt(decipher, key, iv, c)[..originLen])
  }

  /** Decrypting an encrypted chunk with the inverse block function and the
      chunk's original length gives the chunk back. */
  lemma AesChunkRoundTrip(cipher: BlockFn, decipher: BlockFn, src: seq<byte>, key: seq<byte>)
    requires ValidAesKeyLength(|key|)
    requires Inverts(decipher, cipher, key)
    ensures AESEncrypt(cipher, src, key).Success?
    ensures AESDecryptChunk(decipher, AESEncrypt(cipher, src, key).value, key, |src|) == Success(src)
  {
    var iv: Block := key[..BlockSize];
    var padded := PKCS7Padding(src, BlockSize);
    CbcRoundTrip(cipher, decipher, key, iv, padded);
  }

  /** A full AES buffer is a whole number of blocks, so it is encrypted without
      any padding and its cipher text is exactly one buffer long. */
  lemma FullChunkNeedsNoPadding(cipher: BlockFn, chunk: seq<byte>, key: seq<byte>)
    requires |chunk| == Global.AESBufferSize
    requires ValidAesKeyLength(|key|)
    ensures PKCS7Padding(chunk, BlockSize) == chunk
    ensures |AESEncrypt(cipher, chunk, key).value| == Global.AESBufferSize
  {
  }
}
