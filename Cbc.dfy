/**
 * Cipher block chaining (NIST SP 800-38A, section 6.2) over a 128-bit block cipher.
 * The block cipher itself (AES, FIPS 197, as PyCryptodome implements it) is not part of this
 * model: it is a parameter, a pair of keyed block functions, and the only fact used about it
 * is that decryption inverts encryption under the same key.
 */
module Cbc {
  import opened Bytes

  type Key = Bytes16
  type Block = Bytes16

  /** A 128-bit block cipher with a 128-bit key, as a pair of functions. */
  datatype BlockCipher = BlockCipher(enc: (Key, Block) -> Block, dec: (Key, Block) -> Block)

  /** The one property of the block cipher the model relies on. */
  ghost predicate Inverts(c: BlockCipher) {
    forall k: Key, b: Block :: c.dec(k, c.enc(k, b)) == b
  }

  /** CBC encryption: each block is xored with the previous cipher block (the IV first), then enciphered. */
  function Encrypt(c: BlockCipher, key: Key, iv: Block, p: seq<byte>): (r: seq<byte>)
    requires |p| % BlockSize == 0
    ensures |r| == |p|
    decreases |p|
  {
    if p == [] then []
    else
      var blk := c.enc(key, XorBlock(p[..BlockSize], iv));
      blk + Encrypt(c, key, blk, p[BlockSize..])
  }

  /** CBC decryption: each block is deciphered, then xored with the previous cipher block (the IV first). */
  function Decrypt(c: BlockCipher, key: Key, iv: Block, ct: seq<byte>): (r: seq<byte>)
    requires |ct| % BlockSize == 0
    ensures |r| == |ct|
    decreases |ct|
  {
    if ct == [] then []
    else XorBlock(c.dec(key, ct[..BlockSize]), iv) + Decrypt(c, key, ct[..BlockSize], ct[BlockSize..])
  }

  /** Under the same key and IV, CBC decryption undoes CBC encryption. */
  lemma {:induction false} DecryptEncrypt(c: BlockCipher, key: Key, iv: Block, p: seq<byte>)
    requires Inverts(c) && |p| % BlockSize == 0
    ensures Decrypt(c, key, iv, Encrypt(c, key, iv, p)) == p
    decreases |p|
  {
    if p != [] {
      var blk := c.enc(key, XorBlock(p[..BlockSize], iv));
      var ct := Encrypt(c, key, iv, p);
      assert ct == blk + Encrypt(c, key, blk, p[BlockSize..]);
      assert ct[..BlockSize] == blk && ct[BlockSize..] == Encrypt(c, key, blk, p[BlockSize..]);
      XorBlockCancels(p[..BlockSize], iv);
      DecryptEncrypt(c, key, blk, p[BlockSize..]);
      assert p == p[..BlockSize] + p[BlockSize..];
    }
  }
}
