/**
 * UTF-8 as Python's `str.encode('utf-8')` and the strict `bytes.decode('utf-8')` define it
 * (RFC 3629, section 3 and 4). A Dafny `char` is a Unicode scalar value, so encoding is total;
 * decoding rejects truncated sequences, stray continuation bytes, overlong forms, surrogates
 * and values above U+10FFFF.
 */
module Utf8 {
  import opened Bytes
  import opened Wrappers

  /** A continuation byte 10xxxxxx. */
  predicate IsCont(b: byte) {
    0x80 <= b < 0xC0
  }

  /** The six data bits of a continuation byte. */
  function Payload(b: byte): (r: int)
    requires IsCont(b)
    ensures 0 <= r < 64
  {
    b as int - 0x80
  }

  /** A valid code point for a Unicode scalar value. */
  predicate IsScalar(cp: int) {
    0 <= cp < 0xD800 || 0xE000 <= cp < 0x110000
  }

  /** The bytes of one character: one byte below U+0080, two below U+0800, three below U+10000, four above. */
  function EncodeChar(c: char): (r: seq<byte>)
    ensures 1 <= |r| <= 4
    ensures r[0] < 0x80 || 0xC2 <= r[0] <= 0xF4
    ensures forall i :: 1 <= i < |r| ==> IsCont(r[i])
  {
    var cp := c as int;
    if cp < 0x80 then
      [cp]
    else if cp < 0x800 then
      [0xC0 + cp / 64, 0x80 + cp % 64]
    else if cp < 0x10000 then
      [0xE0 + cp / 4096, 0x80 + cp / 64 % 64, 0x80 + cp % 64]
    else
      [0xF0 + cp / 262144, 0x80 + cp / 4096 % 64, 0x80 + cp / 64 % 64, 0x80 + cp % 64]
  }

  /** `s.encode('utf-8')`. */
  function Encode(s: string): (r: seq<byte>)
    ensures |s| <= |r| <= 4 * |s|
  {
    if s == [] then [] else EncodeChar(s[0]) + Encode(s[1..])
  }

  /**
   * The first character of a non-empty byte string and how many bytes it takes,
   * or None when those bytes do not start a well-formed UTF-8 sequence.
   */
  function DecodeFirst(b: seq<byte>): (r: Option<(char, nat)>)
    requires |b| > 0
    ensures r.Some? ==> 1 <= r.value.1 <= |b| && r.value.1 <= 4
  {
    var b0 := b[0] as int;
    if b0 < 0x80 then
      Some((b0 as char, 1))
    else if 0xC2 <= b0 < 0xE0 then
      if |b| >= 2 && IsCont(b[1]) then
        Some((((b0 - 0xC0) * 64 + Payload(b[1])) as char, 2))
      else None
    else if 0xE0 <= b0 < 0xF0 then
      if |b| >= 3 && IsCont(b[1]) && IsCont(b[2]) then
        var cp := (b0 - 0xE0) * 4096 + Payload(b[1]) * 64 + Payload(b[2]);
        if 0x800 <= cp && IsScalar(cp) then Some((cp as char, 3)) else None
      else None
    else if 0xF0 <= b0 <= 0xF4 then
      if |b| >= 4 && IsCont(b[1]) && IsCont(b[2]) && IsCont(b[3]) then
        var cp := (b0 - 0xF0) * 262144 + Payload(b[1]) * 4096 + Payload(b[2]) * 64 + Payload(b[3]);
        if 0x10000 <= cp < 0x110000 then Some((cp as char, 4)) else None
      else None
    else
      None
  }

  /** `b.decode('utf-8')`: None where Python raises UnicodeDecodeError. */
  function Decode(b: seq<byte>): (r: Option<string>)
    decreases |b|
  {
    if b == [] then Some([])
    else
      match DecodeFirst(b)
      case None => None
      case Some((c, n)) =>
        match Decode(b[n..])
        case None => None
        case Some(rest) => Some([c] + rest)
  }

  /** Each decoded character takes one to four bytes. */
  lemma {:induction false} DecodeLength(b: seq<byte>)
    requires Decode(b).Some?
    ensures |Decode(b).value| <= |b| <= 4 * |Decode(b).value|
    decreases |b|
  {
    if b != [] {
      DecodeStep(b);
      DecodeLength(b[DecodeFirst(b).value.1..]);
    }
  }

  /** Decoding reads back the character just encoded, whatever follows it. */
  lemma DecodeFirstEncodeChar(c: char, rest: seq<byte>)
    ensures DecodeFirst(EncodeChar(c) + rest) == Some((c, |EncodeChar(c)|))
  {
    var cp := c as int;
    var e := EncodeChar(c);
    var b := e + rest;
    assert b[..|e|] == e;
    if cp < 0x80 {
    } else if cp < 0x800 {
      assert Payload(b[1]) == cp % 64;
      assert (cp / 64) * 64 + cp % 64 == cp;
    } else if cp < 0x10000 {
      assert Payload(b[1]) == cp / 64 % 64 && Payload(b[2]) == cp % 64;
      Digits3(cp);
    } else {
      assert Payload(b[1]) == cp / 4096 % 64 && Payload(b[2]) == cp / 64 % 64 && Payload(b[3]) == cp % 64;
      Digits4(cp);
    }
  }

  /** The bytes a successful DecodeFirst consumed are exactly the encoding of the character it produced. */
  lemma EncodeCharDecodeFirst(b: seq<byte>)
    requires |b| > 0 && DecodeFirst(b).Some?
    ensures EncodeChar(DecodeFirst(b).value.0) == b[..DecodeFirst(b).value.1]
  {
    var (c, n) := DecodeFirst(b).value;
    var b0 := b[0] as int;
    if n == 2 {
      Digits2Back(b0 - 0xC0, Payload(b[1]));
    } else if n == 3 {
      Digits3Back(b0 - 0xE0, Payload(b[1]), Payload(b[2]));
    } else if n == 4 {
      Digits4Back(b0 - 0xF0, Payload(b[1]), Payload(b[2]), Payload(b[3]));
    }
  }

  lemma Digits3(cp: int)
    requires 0 <= cp
    ensures (cp / 4096) * 4096 + (cp / 64 % 64) * 64 + cp % 64 == cp
  {
    var q := cp / 64;
    assert cp == q * 64 + cp % 64;
    assert q == (q / 64) * 64 + q % 64;
    assert cp / 4096 == q / 64;
  }

  lemma Digits4(cp: int)
    requires 0 <= cp
    ensures (cp / 262144) * 262144 + (cp / 4096 % 64) * 4096 + (cp / 64 % 64) * 64 + cp % 64 == cp
  {
    var q := cp / 64;
    var q2 := q / 64;
    assert cp == q * 64 + cp % 64;
    assert q == q2 * 64 + q % 64;
    assert cp / 4096 == q2;
    assert q2 == (q2 / 64) * 64 + q2 % 64;
    assert cp / 262144 == q2 / 64;
  }

  lemma Digits2Back(d: int, x: int)
    requires 0 <= d && 0 <= x < 64
    ensures (d * 64 + x) / 64 == d && (d * 64 + x) % 64 == x
  {
  }

  lemma Digits3Back(d: int, x: int, y: int)
    requires 0 <= d && 0 <= x < 64 && 0 <= y < 64
    ensures var cp := d * 4096 + x * 64 + y;
      cp / 4096 == d && cp / 64 % 64 == x && cp % 64 == y
  {
    var cp := d * 4096 + x * 64 + y;
    assert cp / 64 == d * 64 + x;
  }

  lemma Digits4Back(d: int, x: int, y: int, z: int)
    requires 0 <= d && 0 <= x < 64 && 0 <= y < 64 && 0 <= z < 64
    ensures var cp := d * 262144 + x * 4096 + y * 64 + z;
      cp / 262144 == d && cp / 4096 % 64 == x && cp / 64 % 64 == y && cp % 64 == z
  {
    var cp := d * 262144 + x * 4096 + y * 64 + z;
    assert cp / 64 == d * 4096 + x * 64 + y;
    assert cp / 4096 == d * 64 + x;
  }

  /** Every string survives `s.encode('utf-8').decode('utf-8')`. */
  lemma {:induction false} DecodeEncode(s: string)
    ensures Decode(Encode(s)) == Some(s)
    decreases |s|
  {
    if s != [] {
      var e := EncodeChar(s[0]);
      var b := Encode(s);
      assert b == e + Encode(s[1..]);
      DecodeFirstEncodeChar(s[0], Encode(s[1..]));
      assert b[|e|..] == Encode(s[1..]);
      DecodeEncode(s[1..]);
      assert [s[0]] + s[1..] == s;
    }
  }

  /** Decoding succeeds only on the encoding of what it returns: the two directions of one bijection. */
  lemma {:induction false} EncodeDecode(b: seq<byte>)
    requires Decode(b).Some?
    ensures Encode(Decode(b).value) == b
    decreases |b|
  {
    if b != [] {
      DecodeStep(b);
      var (c, n) := DecodeFirst(b).value;
      var rest := Decode(b[n..]).value;
      EncodeCharDecodeFirst(b);
      EncodeDecode(b[n..]);
      Reassemble(b, c, n, rest);
    }
  }

  /** A character's encoding followed by the encoding of the rest is the encoding of both. */
  lemma Reassemble(b: seq<byte>, c: char, n: nat, rest: string)
    requires n <= |b| && EncodeChar(c) == b[..n] && Encode(rest) == b[n..]
    ensures Encode([c] + rest) == b
  {
    EncodeCons(c, rest);
    assert b == b[..n] + b[n..];
  }

  /** Encoding distributes over appending one character. */
  lemma {:induction false} EncodeAppend(s: string, c: char)
    ensures Encode(s + [c]) == Encode(s) + EncodeChar(c)
    decreases |s|
  {
    if s == [] {
      assert [] + [c] == [c];
      assert Encode([c]) == EncodeChar(c) + Encode([]);
    } else {
      assert (s + [c])[0] == s[0] && (s + [c])[1..] == s[1..] + [c];
      EncodeAppend(s[1..], c);
    }
  }

  /** Encoding a string encodes its first character, then the rest. */
  lemma EncodeCons(c: char, rest: string)
    ensures Encode([c] + rest) == EncodeChar(c) + Encode(rest)
  {
    assert ([c] + rest)[0] == c && ([c] + rest)[1..] == rest;
  }

  /** A successful decode is its first character followed by the decode of the rest. */
  lemma DecodeStep(b: seq<byte>)
    requires b != [] && Decode(b).Some?
    ensures DecodeFirst(b).Some?
    ensures var n := DecodeFirst(b).value.1;
      && Decode(b[n..]).Some?
      && Decode(b).value == [DecodeFirst(b).value.0] + Decode(b[n..]).value
  {
  }
}
