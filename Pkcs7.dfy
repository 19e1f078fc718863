/**
 * PKCS#7 padding (RFC 5652, section 6.3) to the 16-byte AES block, as `pad` and `unpad`
 * of PyCryptodome's Crypto.Util.Padding compute it with their default 'pkcs7' style.
 */
module Pkcs7 {
  import opened Bytes
  import opened Wrappers

  datatype PaddingError =
    | ZeroLength    // "Zero-length input cannot be unpadded"
    | NotPadded     // "Input data is not padded": length not a multiple of the block size
    | BadPadLength  // "Padding is incorrect.": last byte 0 or larger than a block
    | BadPadBytes   // "PKCS#7 padding is incorrect.": trailing bytes disagree with the last

  /** `n` copies of the byte `n`. */
  function PadBytes(n: nat): (r: seq<byte>)
    requires n < 256
    ensures |r| == n && forall i :: 0 <= i < n ==> r[i] == n
  {
    seq(n, _ => n)
  }

  /** `pad(x, 16)`: appends 1 to 16 bytes, each equal to how many were appended. */
  function Pad(x: seq<byte>): (r: seq<byte>)
    ensures |r| % BlockSize == 0 && |x| < |r| <= |x| + BlockSize
    ensures r[..|x|] == x
    ensures forall i :: |x| <= i < |r| ==> r[i] == |r| - |x|
  {
    x + PadBytes(BlockSize - |x| % BlockSize)
  }

  /** `unpad(p, 16)`: the input without its padding, or the error PyCryptodome raises. */
  function Unpad(p: seq<byte>): (r: Result<seq<byte>, PaddingError>)
    ensures r.Ok? ==> |r.value| < |p| && r.value == p[..|r.value|]
  {
    if |p| == 0 then Err(ZeroLength)
    else if |p| % BlockSize != 0 then Err(NotPadded)
    else
      var n := p[|p| - 1] as int;
      if n < 1 || n > (if BlockSize < |p| then BlockSize else |p|) then Err(BadPadLength)
      else if p[|p| - n..] != PadBytes(n) then Err(BadPadBytes)
      else Ok(p[..|p| - n])
  }

  /** `unpad(pad(x, 16), 16) == x`. */
  lemma UnpadPad(x: seq<byte>)
    ensures Unpad(Pad(x)) == Ok(x)
  {
    var p := Pad(x);
    var n := BlockSize - |x| % BlockSize;
    assert p[|p| - 1] == n;
    assert p[|p| - n..] == PadBytes(n);
  }

  /** Unpad accepts only what Pad produces: a successful unpad re-pads to its input. */
  lemma PadUnpad(p: seq<byte>)
    requires Unpad(p).Ok?
    ensures Pad(Unpad(p).value) == p
  {
    var x := Unpad(p).value;
    var n := p[|p| - 1] as int;
    assert |x| == |p| - n;
    assert |x| % BlockSize == BlockSize - n by {
      assert |p| % BlockSize == 0 && 1 <= n <= BlockSize;
    }
    assert p == x + p[|p| - n..];
  }

  /** The strings Unpad accepts are exactly the padded ones. */
  lemma UnpadSucceedsIffPadded(p: seq<byte>)
    ensures Unpad(p).Ok? <==> exists x :: Pad(x) == p
  {
    if Unpad(p).Ok? {
      PadUnpad(p);
    }
    if x :| Pad(x) == p {
      UnpadPad(x);
    }
  }
}
