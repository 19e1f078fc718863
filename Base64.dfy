/**
 * Base64 (RFC 4648, section 4) as Python's `base64.b64encode` and `base64.b64decode` compute it.
 * Encoding is the standard alphabet with `=` padding. Decoding follows CPython's non-strict
 * `binascii.a2b_base64`: a string with a non-ASCII character is refused outright; otherwise
 * characters outside the alphabet are skipped, `=` ends the input once it completes a quad,
 * and leftover data characters at the end are an error.
 */
module Base64 {
  import opened Bytes
  import opened Wrappers

  datatype Base64Error =
    | NonAscii          // `str.encode('ascii')` failed inside b64decode
    | ExcessDataChar    // one data character more than a multiple of four
    | IncorrectPadding  // two or three data characters left without the `=` that would end them

  /** The alphabet character for a six-bit value (RFC 4648, section 4, Table 1). */
  function Digit(v: int): (c: char)
    requires 0 <= v < 64
    ensures c as int < 128 && c != '='
  {
    if v < 26 then ('A' as int + v) as char
    else if v < 52 then ('a' as int + (v - 26)) as char
    else if v < 62 then ('0' as int + (v - 52)) as char
    else if v == 62 then '+'
    else '/'
  }

  /** The six-bit value of an alphabet character, -1 for every other character. */
  function Value(ch: char): (v: int)
    ensures -1 <= v < 64
    ensures 0 <= v ==> Digit(v) == ch
  {
    if 'A' <= ch <= 'Z' then ch as int - 'A' as int
    else if 'a' <= ch <= 'z' then ch as int - 'a' as int + 26
    else if '0' <= ch <= '9' then ch as int - '0' as int + 52
    else if ch == '+' then 62
    else if ch == '/' then 63
    else -1
  }

  lemma ValueDigit(v: int)
    requires 0 <= v < 64
    ensures Value(Digit(v)) == v
  {
  }

  /** The four characters for three bytes. */
  function Quad(a: byte, b: byte, c: byte): string
  {
    [Digit(a / 4), Digit(a % 4 * 16 + b / 16), Digit(b % 16 * 4 + c / 64), Digit(c % 64)]
  }

  predicate IsAscii(s: string) {
    forall i :: 0 <= i < |s| ==> s[i] as int < 128
  }

  /** `base64.b64encode(b).decode('utf-8')`; its output is ASCII, so the UTF-8 decode is the identity. */
  function Encode(b: seq<byte>): (r: string)
    ensures |r| == (|b| + 2) / 3 * 4
    ensures IsAscii(r)
    decreases |b|
  {
    if |b| == 0 then ""
    else if |b| == 1 then [Digit(b[0] / 4), Digit(b[0] % 4 * 16), '=', '=']
    else if |b| == 2 then [Digit(b[0] / 4), Digit(b[0] % 4 * 16 + b[1] / 16), Digit(b[1] % 16 * 4), '=']
    else Quad(b[0], b[1], b[2]) + Encode(b[3..])
  }

  /**
   * The decoder between two characters: how many data characters of the current quad it has
   * read, how many `=` it has counted since the last data character, the bits not yet
   * emitted, and the bytes emitted so far.
   */
  datatype Scan = Scan(quad: int, pads: int, left: int, out: seq<byte>)

  predicate ValidScan(st: Scan) {
    && 0 <= st.quad < 4
    && 0 <= st.pads
    && 0 <= st.left
    && (st.quad == 0 ==> st.left == 0)
    && (st.quad == 1 ==> st.left < 64)
    && (st.quad == 2 ==> st.left < 16)
    && (st.quad == 3 ==> st.left < 4)
  }

  /** The starting state, and the state after every complete quad. */
  function Start(out: seq<byte>): (st: Scan)
    ensures ValidScan(st)
  {
    Scan(0, 0, 0, out)
  }

  /** One data character of value v: the second, third and fourth each complete a byte. */
  function Feed(st: Scan, v: int): (r: Scan)
    requires ValidScan(st) && 0 <= v < 64
    ensures ValidScan(r) && r.quad == (st.quad + 1) % 4 && r.pads == 0
    ensures |r.out| == |st.out| + (if st.quad == 0 then 0 else 1)
  {
    if st.quad == 0 then Scan(1, 0, v, st.out)
    else if st.quad == 1 then Scan(2, 0, v % 16, st.out + [st.left * 4 + v / 16])
    else if st.quad == 2 then Scan(3, 0, v % 4, st.out + [st.left * 16 + v / 4])
    else Scan(0, 0, 0, st.out + [st.left * 64 + v])
  }

  /** The decoding loop of `binascii.a2b_base64` in its non-strict mode, one character at a time. */
  function Run(s: string, st: Scan): Result<seq<byte>, Base64Error>
    requires ValidScan(st)
    decreases |s|
  {
    if s == [] then
      if st.quad == 0 then Ok(st.out)
      else if st.quad == 1 then Err(ExcessDataChar)
      else Err(IncorrectPadding)
    else if s[0] == '=' then
      if st.quad >= 2 && st.quad + st.pads + 1 >= 4 then Ok(st.out)
      else Run(s[1..], if st.quad >= 2 then st.(pads := st.pads + 1) else st)
    else if Value(s[0]) < 0 then
      Run(s[1..], st)
    else
      Run(s[1..], Feed(st, Value(s[0])))
  }

  /** `base64.b64decode(s)`: Err where Python raises ValueError or binascii.Error. */
  function Decode(s: string): (r: Result<seq<byte>, Base64Error>)
    ensures r.Ok? ==> IsAscii(s) && 4 * |r.value| <= 3 * |s|
  {
    if IsAscii(s) then
      RunBound(s, Start([]));
      Run(s, Start([]))
    else
      Err(NonAscii)
  }

  /**
   * What the decoder may still emit: four units per byte already out, plus what the data
   * characters of an unfinished quad have paid for beyond the bytes they completed.
   */
  function Credit(st: Scan): int {
    4 * |st.out| + (if st.quad == 0 then 0 else 4 - st.quad)
  }

  /** Every input character pays for at most three quarters of an output byte. */
  lemma {:induction false} RunBound(s: string, st: Scan)
    requires ValidScan(st)
    ensures Run(s, st).Ok? ==> 4 * |Run(s, st).value| <= Credit(st) + 3 * |s|
    decreases |s|
  {
    if s != [] {
      if s[0] == '=' {
        if !(st.quad >= 2 && st.quad + st.pads + 1 >= 4) {
          RunBound(s[1..], if st.quad >= 2 then st.(pads := st.pads + 1) else st);
        }
      } else if Value(s[0]) < 0 {
        RunBound(s[1..], st);
      } else {
        RunBound(s[1..], Feed(st, Value(s[0])));
      }
    }
  }

  /** Six-bit groups recombine: a value put in the high bits and one in the low bits come apart again. */
  lemma Split16(hi: int, lo: int)
    requires 0 <= lo < 16
    ensures (hi * 16 + lo) / 16 == hi && (hi * 16 + lo) % 16 == lo
  {
  }

  lemma Split4(hi: int, lo: int)
    requires 0 <= lo < 4
    ensures (hi * 4 + lo) / 4 == hi && (hi * 4 + lo) % 4 == lo
  {
  }

  /** The decoder state after the first two characters of a group that starts with byte a. */
  lemma FeedTwo(a: byte, b: byte, out: seq<byte>)
    ensures Feed(Feed(Start(out), a / 4), a % 4 * 16 + b / 16) == Scan(2, 0, b / 16, out + [a])
  {
    Split16(a % 4, b / 16);
    assert a / 4 * 4 + a % 4 == a;
  }

  /** The third character of a group completes the second byte. */
  lemma FeedThird(a: byte, b: byte, c: byte, out: seq<byte>)
    ensures Feed(Scan(2, 0, b / 16, out + [a]), b % 16 * 4 + c / 64) == Scan(3, 0, c / 64, out + [a, b])
  {
    Split4(b % 16, c / 64);
    assert b / 16 * 16 + b % 16 == b;
    assert out + [a] + [b] == out + [a, b];
  }

  /** The fourth character of a group completes the third byte. */
  lemma FeedFourth(a: byte, b: byte, c: byte, out: seq<byte>)
    ensures Feed(Scan(3, 0, c / 64, out + [a, b]), c % 64) == Start(out + [a, b, c])
  {
    assert c / 64 * 64 + c % 64 == c;
    assert out + [a, b] + [c] == out + [a, b, c];
  }

  /** Decoding one encoded quad emits its three bytes and returns to the start of a quad. */
  lemma RunQuad(a: byte, b: byte, c: byte, rest: string, out: seq<byte>)
    ensures Run(Quad(a, b, c) + rest, Start(out)) == Run(rest, Start(out + [a, b, c]))
  {
    var s := Quad(a, b, c) + rest;
    var v0, v1, v2, v3 := a / 4, a % 4 * 16 + b / 16, b % 16 * 4 + c / 64, c % 64;
    var st2 := Scan(2, 0, b / 16, out + [a]);
    var st3 := Scan(3, 0, c / 64, out + [a, b]);
    calc {
      Run(s, Start(out));
      { RunData(s, Start(out), v0); }
      Run(s[1..], Feed(Start(out), v0));
      { RunData(s[1..], Feed(Start(out), v0), v1); FeedTwo(a, b, out); }
      Run(s[1..][1..], st2);
      { RunData(s[1..][1..], st2, v2); FeedThird(a, b, c, out); }
      Run(s[1..][1..][1..], st3);
      { RunData(s[1..][1..][1..], st3, v3); FeedFourth(a, b, c, out); }
      Run(s[1..][1..][1..][1..], Start(out + [a, b, c]));
      { assert s[1..][1..][1..][1..] == rest; }
      Run(rest, Start(out + [a, b, c]));
    }
  }

  /** A final single byte, encoded as two characters and `==`, is decoded and ends the input. */
  lemma RunTail1(bs: seq<byte>, out: seq<byte>)
    requires |bs| == 1
    ensures Run(Encode(bs), Start(out)) == Ok(out + bs)
  {
    var a := bs[0];
    var v0, v1 := a / 4, a % 4 * 16;
    var e := Encode(bs);
    assert e == [Digit(v0), Digit(v1), '=', '='];
    var st2 := Scan(2, 0, 0, out + [a]);
    calc {
      Run(e, Start(out));
      { RunData(e, Start(out), v0); }
      Run(e[1..], Feed(Start(out), v0));
      { RunData(e[1..], Feed(Start(out), v0), v1); FeedTwo(a, 0, out); }
      Run(e[1..][1..], st2);
      { assert e[1..][1..] == ['=', '=']; }
      Run(['='], st2.(pads := 1));
      Ok(out + [a]);
      { assert out + bs == out + [a]; }
      Ok(out + bs);
    }
  }

  /** Two final bytes, encoded as three characters and `=`, are decoded and end the input. */
  lemma RunTail2(bs: seq<byte>, out: seq<byte>)
    requires |bs| == 2
    ensures Run(Encode(bs), Start(out)) == Ok(out + bs)
  {
    var a, b := bs[0], bs[1];
    var v0, v1, v2 := a / 4, a % 4 * 16 + b / 16, b % 16 * 4;
    var e := Encode(bs);
    assert e == [Digit(v0), Digit(v1), Digit(v2), '='];
    var st2 := Scan(2, 0, b / 16, out + [a]);
    var st3 := Scan(3, 0, 0, out + [a, b]);
    calc {
      Run(e, Start(out));
      { RunData(e, Start(out), v0); }
      Run(e[1..], Feed(Start(out), v0));
      { RunData(e[1..], Feed(Start(out), v0), v1); FeedTwo(a, b, out); }
      Run(e[1..][1..], st2);
      { RunData(e[1..][1..], st2, v2); FeedThird(a, b, 0, out); }
      Run(e[1..][1..][1..], st3);
      { assert e[1..][1..][1..] == ['=']; }
      Ok(out + [a, b]);
      { assert out + bs == out + [a, b]; }
      Ok(out + bs);
    }
  }

  /** A data character feeds its value to the decoder. */
  lemma RunData(s: string, st: Scan, v: int)
    requires ValidScan(st) && 0 <= v < 64
    requires s != [] && s[0] == Digit(v)
    ensures Run(s, st) == Run(s[1..], Feed(st, v))
  {
    ValueDigit(v);
  }

  lemma {:induction false} RunEncode(b: seq<byte>, out: seq<byte>)
    ensures Run(Encode(b), Start(out)) == Ok(out + b)
    decreases |b|
  {
    if |b| == 0 {
      assert out + b == out;
    } else if |b| == 1 {
      RunTail1(b, out);
    } else if |b| == 2 {
      RunTail2(b, out);
    } else {
      var head, tail := [b[0], b[1], b[2]], b[3..];
      assert Encode(b) == Quad(b[0], b[1], b[2]) + Encode(tail);
      RunQuad(b[0], b[1], b[2], Encode(tail), out);
      RunEncode(tail, out + head);
      assert out + head + tail == out + b by {
        assert head + tail == b;
      }
    }
  }

  /** `b64decode(b64encode(b)) == b` for every byte string. */
  lemma DecodeEncode(b: seq<byte>)
    ensures Decode(Encode(b)) == Ok(b)
  {
    RunEncode(b, []);
    assert [] + b == b;
  }

  /** Data characters that stop short of a complete quad leave the decoder with an error. */
  lemma {:induction false} RunDataShort(s: string, st: Scan)
    requires ValidScan(st)
    requires forall i :: 0 <= i < |s| ==> 0 <= Value(s[i])
    requires (st.quad + |s|) % 4 != 0
    ensures Run(s, st).Err?
    decreases |s|
  {
    if s != [] {
      assert s[0] != '=' by {
        assert 0 <= Value(s[0]);
      }
      RunDataShort(s[1..], Feed(st, Value(s[0])));
    }
  }

  /** Cutting one to three characters off the end of an encoding always makes it undecodable. */
  lemma {:induction false} RunTruncated(b: seq<byte>, t: int, out: seq<byte>)
    requires |b| > 0 && 1 <= t <= 3
    ensures Run(Encode(b)[..|Encode(b)| - t], Start(out)).Err?
    decreases |b|
  {
    var e := Encode(b);
    var k := |e| - t;
    if |b| > 3 {
      var q, tail := Quad(b[0], b[1], b[2]), Encode(b[3..]);
      assert e == q + tail;
      assert e[..k] == q + tail[..|tail| - t];
      RunQuad(b[0], b[1], b[2], tail[..|tail| - t], out);
      RunTruncated(b[3..], t, out + [b[0], b[1], b[2]]);
    } else if |b| == 1 && t == 1 {
      var v0, v1 := b[0] / 4, b[0] % 4 * 16;
      ValueDigit(v0); ValueDigit(v1);
      var p := e[..k];
      var st2 := Feed(Feed(Start(out), v0), v1);
      assert p[1..][1..] == p[2..] && p[2..][1..] == [];
      calc {
        Run(p, Start(out));
        Run(p[1..], Feed(Start(out), v0));
        Run(p[2..], st2);
        Run([], st2.(pads := 1));
      }
    } else {
      forall i | 0 <= i < k
        ensures 0 <= Value(e[..k][i])
      {
        if |b| == 3 {
          assert e == Quad(b[0], b[1], b[2]) + Encode([]);
        }
        ValueDigit(b[0] / 4);
        ValueDigit(b[0] % 4 * 16);
        if |b| >= 2 {
          ValueDigit(b[0] % 4 * 16 + b[1] / 16);
          ValueDigit(b[1] % 16 * 4);
        }
        if |b| == 3 {
          ValueDigit(b[1] % 16 * 4 + b[2] / 64);
        }
      }
      RunDataShort(e[..k], Start(out));
    }
  }

  /** An encoded string cut short by one to three characters is rejected by the decoder. */
  lemma DecodeTruncated(b: seq<byte>, t: int)
    requires |b| > 0 && 1 <= t <= 3
    ensures Decode(Encode(b)[..|Encode(b)| - t]).Err?
  {
    RunTruncated(b, t, []);
  }
}
