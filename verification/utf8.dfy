/** UTF-8 as used by URL handling: the encoder of section 3 of RFC 3629
    (which `encodeURIComponent` applies before percent-encoding) and the
    decoder of the WHATWG Encoding Standard (which `URLSearchParams` applies
    after percent-decoding), including its U+FFFD error recovery. */
module Utf8 {

  type Byte = b: int | 0 <= b < 256

  const Replacement: char := '\U{FFFD}'

  /** The bytes that encode one Unicode scalar value. */
  function EncodeScalar(c: char): (bs: seq<Byte>)
    ensures 1 <= |bs| <= 4
    ensures (|bs| == 1) <==> c as int < 0x80
    ensures |bs| == 1 ==> bs[0] == c as int
    ensures |bs| > 1 ==> forall i :: 0 <= i < |bs| ==> bs[i] >= 0x80
  {
    var n := c as int;
    if n < 0x80 then [n]
    else if n < 0x800 then [0xC0 + n / 64, 0x80 + n % 64]
    else if n < 0x10000 then [0xE0 + n / 4096, 0x80 + (n / 64) % 64, 0x80 + n % 64]
    else [0xF0 + n / 262144, 0x80 + (n / 4096) % 64, 0x80 + (n / 64) % 64, 0x80 + n % 64]
  }

  /** UTF-8 encoding of a string. */
  function Encode(s: string): (bs: seq<Byte>)
    ensures |bs| >= |s|
  {
    if s == [] then [] else EncodeScalar(s[0]) + Encode(s[1..])
  }

  predicate InRange(b: Byte, lo: int, hi: int) {
    lo <= b <= hi
  }

  /** One step of the WHATWG UTF-8 decoder: the code point it emits and the
      number of bytes it consumes. On a malformed sequence it emits U+FFFD and
      consumes the bytes seen before the offending one, which is then read
      again as the start of the next sequence. */
  function DecodeOne(bs: seq<Byte>): (r: (char, nat))
    requires |bs| > 0
    ensures 1 <= r.1 <= |bs| && r.1 <= 4
  {
    var b := bs[0];
    if b < 0x80 then (b as char, 1)
    else if 0xC2 <= b <= 0xDF then
      if |bs| < 2 || !InRange(bs[1], 0x80, 0xBF) then (Replacement, 1)
      else (((b as int - 0xC0) * 64 + (bs[1] as int - 0x80)) as char, 2)
    else if 0xE0 <= b <= 0xEF then
      var lo := if b == 0xE0 then 0xA0 else 0x80;
      var hi := if b == 0xED then 0x9F else 0xBF;
      if |bs| < 2 || !InRange(bs[1], lo, hi) then (Replacement, 1)
      else if |bs| < 3 || !InRange(bs[2], 0x80, 0xBF) then (Replacement, 2)
      else ThreeByte(b, bs[1], bs[2])
    else if 0xF0 <= b <= 0xF4 then
      var lo := if b == 0xF0 then 0x90 else 0x80;
      var hi := if b == 0xF4 then 0x8F else 0xBF;
      if |bs| < 2 || !InRange(bs[1], lo, hi) then (Replacement, 1)
      else if |bs| < 3 || !InRange(bs[2], 0x80, 0xBF) then (Replacement, 2)
      else if |bs| < 4 || !InRange(bs[3], 0x80, 0xBF) then (Replacement, 3)
      else FourByte(b, bs[1], bs[2], bs[3])
    else (Replacement, 1)
  }

  function ThreeByte(b0: Byte, b1: Byte, b2: Byte): (r: (char, nat))
    requires 0xE0 <= b0 <= 0xEF
    requires InRange(b1, if b0 == 0xE0 then 0xA0 else 0x80, if b0 == 0xED then 0x9F else 0xBF)
    requires InRange(b2, 0x80, 0xBF)
    ensures r.1 == 3
  {
    var n := (b0 as int - 0xE0) * 4096 + (b1 as int - 0x80) * 64 + (b2 as int - 0x80);
    assert 0x800 <= n < 0x10000;
    assert n < 0xD800 || 0xE000 <= n;
    (n as char, 3)
  }

  function FourByte(b0: Byte, b1: Byte, b2: Byte, b3: Byte): (r: (char, nat))
    requires 0xF0 <= b0 <= 0xF4
    requires InRange(b1, if b0 == 0xF0 then 0x90 else 0x80, if b0 == 0xF4 then 0x8F else 0xBF)
    requires InRange(b2, 0x80, 0xBF) && InRange(b3, 0x80, 0xBF)
    ensures r.1 == 4
  {
    var n := (b0 as int - 0xF0) * 262144 + (b1 as int - 0x80) * 4096 + (b2 as int - 0x80) * 64 + (b3 as int - 0x80);
    assert 0x10000 <= n < 0x110000;
    (n as char, 4)
  }

  /** UTF-8 decode without BOM handling, replacing malformed input by U+FFFD. */
  function Decode(bs: seq<Byte>): (s: string)
    ensures |s| <= |bs|
    decreases |bs|
  {
    if bs == [] then []
    else
      var r := DecodeOne(bs);
      [r.0] + Decode(bs[r.1..])
  }

  /** Decoding the encoding of one scalar value, followed by anything, reads
      back exactly that scalar value and consumes exactly its bytes. */
  lemma DecodeOneEncoded(c: char, rest: seq<Byte>)
    ensures DecodeOne(EncodeScalar(c) + rest) == (c, |EncodeScalar(c)|)
  {
    var n := c as int;
    if n < 0x80 {
    } else if n < 0x800 {
      DecodeTwoBytes(c, rest);
    } else if n < 0x10000 {
      DecodeThreeBytes(c, rest);
    } else {
      DecodeFourBytes(c, rest);
    }
  }

  lemma DecodeTwoBytes(c: char, rest: seq<Byte>)
    requires 0x80 <= c as int < 0x800
    ensures DecodeOne(EncodeScalar(c) + rest) == (c, 2)
  {
    var n := c as int;
    var bs := EncodeScalar(c) + rest;
    assert bs[0] == 0xC0 + n / 64 && bs[1] == 0x80 + n % 64;
    assert (n / 64) * 64 + n % 64 == n;
  }

  lemma DecodeThreeBytes(c: char, rest: seq<Byte>)
    requires 0x800 <= c as int < 0x10000
    ensures DecodeOne(EncodeScalar(c) + rest) == (c, 3)
  {
    var n := c as int;
    var bs := EncodeScalar(c) + rest;
    var q := n / 64;
    assert bs[0] == 0xE0 + n / 4096 && bs[1] == 0x80 + q % 64 && bs[2] == 0x80 + n % 64;
    assert n / 4096 == q / 64;
    assert q * 64 + n % 64 == n;
    assert (q / 64) * 64 + q % 64 == q;
    assert 0xE0 + n / 4096 == 0xE0 ==> q % 64 >= 32;
    assert 0xE0 + n / 4096 == 0xED ==> q % 64 < 32;
  }

  lemma DecodeFourBytes(c: char, rest: seq<Byte>)
    requires 0x10000 <= c as int
    ensures DecodeOne(EncodeScalar(c) + rest) == (c, 4)
  {
    var n := c as int;
    var bs := EncodeScalar(c) + rest;
    var q := n / 64;
    var p := q / 64;
    assert n / 4096 == p;
    assert n / 262144 == p / 64;
    assert bs[0] == 0xF0 + p / 64 && bs[1] == 0x80 + p % 64 && bs[2] == 0x80 + q % 64 && bs[3] == 0x80 + n % 64;
    assert q * 64 + n % 64 == n;
    assert p * 64 + q % 64 == q;
    assert (p / 64) * 64 + p % 64 == p;
    assert 0xF0 + p / 64 == 0xF0 ==> p % 64 >= 16;
    assert 0xF0 + p / 64 == 0xF4 ==> p % 64 < 16;
  }

  /** Round trip: the WHATWG decoder inverts the RFC 3629 encoder. */
  lemma {:induction false} DecodeEncode(s: string)
    ensures Decode(Encode(s)) == s
  {
    if s != [] {
      var e := EncodeScalar(s[0]);
      var bs := Encode(s);
      assert bs == e + Encode(s[1..]);
      DecodeOneEncoded(s[0], Encode(s[1..]));
      assert bs[|e|..] == Encode(s[1..]);
      DecodeEncode(s[1..]);
    }
  }

  predicate IsAscii(s: string) {
    forall i :: 0 <= i < |s| ==> s[i] as int < 0x80
  }

  /** An ASCII string encodes to its own code units, one byte each. */
  lemma {:induction false} EncodeAscii(s: string)
    requires IsAscii(s)
    ensures |Encode(s)| == |s|
    ensures forall i :: 0 <= i < |s| ==> Encode(s)[i] == s[i] as int
  {
    if s != [] {
      EncodeAscii(s[1..]);
    }
  }

  /** An ASCII byte occurs in the encoding of `s` only as the encoding of
      that character: the bytes of longer sequences are all at least 0x80. */
  lemma {:induction false} EncodeAvoids(s: string, c: char)
    requires c as int < 0x80 && c !in s
    ensures c as int !in Encode(s)
  {
    if s != [] {
      EncodeAvoids(s[1..], c);
      assert c as int !in EncodeScalar(s[0]);
    }
  }

  /** Encoding distributes over concatenation. */
  lemma {:induction false} EncodeAppend(a: string, b: string)
    ensures Encode(a + b) == Encode(a) + Encode(b)
  {
    if a != [] {
      assert (a + b)[0] == a[0];
      assert (a + b)[1..] == a[1..] + b;
      EncodeAppend(a[1..], b);
    } else {
      assert a + b == b;
    }
  }
}
