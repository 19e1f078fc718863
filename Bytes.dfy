/** Bytes as the Python `bytes` type holds them, and the few operations on them the model needs. */
module Bytes {

  /** One octet, 0..255. */
  type byte = x: int | 0 <= x < 256

  /** The AES block size in bytes (`AES.block_size`); the IV and the AES-128 key have this length too. */
  const BlockSize: nat := 16

  /** The sixteen-byte quantities of AES-128: a key, an IV or one cipher block. */
  type Bytes16 = s: seq<byte> | |s| == BlockSize
    witness [0, 0, 0, 0, 0, 0, 0, 0, 0, 0, 0, 0, 0, 0, 0, 0]

  /** `n` zero bytes: `b'\0' * n`. */
  function Zeros(n: nat): (r: seq<byte>)
    ensures |r| == n
    ensures forall i :: 0 <= i < n ==> r[i] == 0
  {
    seq(n, _ => 0)
  }

  /** 2 to the power n. */
  function Pow2(n: nat): nat
  {
    if n == 0 then 1 else 2 * Pow2(n - 1)
  }

  /** Bitwise exclusive or of the low n bits of a and b, lowest bit first. */
  function XorBits(a: nat, b: nat, n: nat): (r: nat)
    requires a < Pow2(n) && b < Pow2(n)
    ensures r < Pow2(n)
    decreases n
  {
    if n == 0 then 0 else (a % 2 + b % 2) % 2 + 2 * XorBits(a / 2, b / 2, n - 1)
  }

  /** Bitwise exclusive or of two bytes. */
  function Xor(a: byte, b: byte): byte
  {
    assert Pow2(8) == 256;
    XorBits(a, b, 8)
  }

  /** Exclusive or with the same bits twice is the identity. */
  lemma {:induction false} XorBitsCancels(a: nat, b: nat, n: nat)
    requires a < Pow2(n) && b < Pow2(n)
    ensures XorBits(XorBits(a, b, n), b, n) == a
    decreases n
  {
    if n > 0 {
      var bit, rest := (a % 2 + b % 2) % 2, XorBits(a / 2, b / 2, n - 1);
      var r := XorBits(a, b, n);
      assert r == bit + 2 * rest;
      LowBit(bit, rest);
      XorBitsCancels(a / 2, b / 2, n - 1);
      BitCancels(a % 2, b % 2);
      assert XorBits(r, b, n) == (r % 2 + b % 2) % 2 + 2 * XorBits(r / 2, b / 2, n - 1);
    }
  }

  lemma LowBit(bit: int, rest: int)
    requires 0 <= bit < 2
    ensures (bit + 2 * rest) % 2 == bit && (bit + 2 * rest) / 2 == rest
  {
  }

  lemma BitCancels(x: int, y: int)
    requires 0 <= x < 2 && 0 <= y < 2
    ensures ((x + y) % 2 + y) % 2 == x
  {
  }

  lemma XorCancels(a: byte, b: byte)
    ensures Xor(Xor(a, b), b) == a
  {
    assert Pow2(8) == 256;
    XorBitsCancels(a, b, 8);
  }

  /** Byte-wise exclusive or of two blocks. */
  function XorBlock(a: Bytes16, b: Bytes16): (r: Bytes16)
    ensures forall i :: 0 <= i < BlockSize ==> r[i] == Xor(a[i], b[i])
  {
    seq(BlockSize, i requires 0 <= i < BlockSize => Xor(a[i], b[i]))
  }

  /** Exclusive or with the same block twice is the identity; CBC decryption relies on it. */
  lemma XorBlockCancels(a: Bytes16, b: Bytes16)
    ensures XorBlock(XorBlock(a, b), b) == a
  {
    var r := XorBlock(XorBlock(a, b), b);
    forall i | 0 <= i < BlockSize
      ensures r[i] == a[i]
    {
      XorCancels(a[i], b[i]);
    }
  }
}
