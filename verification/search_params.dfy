/** `URLSearchParams`: the application/x-www-form-urlencoded parser of
    section 5.1 of the WHATWG URL Standard (split on `&`, split each piece on
    its first `=`, read `+` as a space, percent-decode, UTF-8 decode) and the
    `get` lookup, which returns the value of the first pair with that name. */
module SearchParams {
  import opened Wrappers
  import Utf8
  import Seqs
  import UriComponent

  type Byte = Utf8.Byte

  const Ampersand: Byte := 0x26
  const EqualsSign: Byte := 0x3D
  const PlusSign: Byte := 0x2B
  const PercentSign: Byte := 0x25
  const SpaceByte: Byte := 0x20

  datatype Pair = Pair(name: string, value: string)

  predicate IsHexByte(b: Byte) {
    (0x30 <= b <= 0x39) || (0x41 <= b <= 0x46) || (0x61 <= b <= 0x66)
  }

  function HexValue(b: Byte): (d: nat)
    requires IsHexByte(b)
    ensures d < 16
  {
    if b <= 0x39 then b - 0x30 else if b <= 0x46 then b - 0x41 + 10 else b - 0x61 + 10
  }

  /** Percent-decoding (section 1.3 of the WHATWG URL Standard): `%XY` with
      two hexadecimal digits becomes the byte XY; every other byte, including
      a `%` not followed by two hexadecimal digits, is kept. */
  function PercentDecode(bs: seq<Byte>): (r: seq<Byte>)
    ensures |r| <= |bs|
    ensures PercentSign !in bs ==> r == bs
  {
    if bs == [] then []
    else if bs[0] == PercentSign && |bs| >= 3 && IsHexByte(bs[1]) && IsHexByte(bs[2]) then
      [HexValue(bs[1]) * 16 + HexValue(bs[2])] + PercentDecode(bs[3..])
    else [bs[0]] + PercentDecode(bs[1..])
  }

  /** One `name=value` piece: split at the first `=` (none: the whole piece is
      the name and the value is empty), `+` read as a space, then decoded. */
  function ParsePiece(piece: seq<Byte>): Pair
  {
    var k := Seqs.FirstIndex(piece, EqualsSign);
    var name := if k == -1 then piece else piece[..k];
    var value := if k == -1 then [] else piece[k + 1..];
    Pair(DecodeComponent(name), DecodeComponent(value))
  }

  function DecodeComponent(bs: seq<Byte>): string {
    Utf8.Decode(PercentDecode(Seqs.Replace(bs, PlusSign, SpaceByte)))
  }

  /** The pairs of a form-encoded byte string; empty pieces are skipped. */
  function ParseBytes(bs: seq<Byte>): (pairs: seq<Pair>)
    ensures |pairs| <= |Seqs.Split(bs, Ampersand)|
    ensures bs == [] ==> pairs == []
  {
    ParsePieces(Seqs.Split(bs, Ampersand))
  }

  function ParsePieces(pieces: seq<seq<Byte>>): (pairs: seq<Pair>)
    ensures |pairs| <= |pieces|
  {
    if pieces == [] then []
    else (if pieces[0] == [] then [] else [ParsePiece(pieces[0])]) + ParsePieces(pieces[1..])
  }

  /** `new URLSearchParams(init)` for a string `init`: a leading `?` is
      dropped and the rest is parsed as UTF-8. */
  function Parse(init: string): (pairs: seq<Pair>)
    ensures init == "" || init == "?" ==> pairs == []
    ensures '&' !in init ==> |pairs| <= 1
    ensures '&' !in init && init != "" && init != "?" ==>
      pairs == [ParsePiece(Utf8.Encode(if init[0] == '?' then init[1..] else init))]
  {
    var body := if |init| > 0 && init[0] == '?' then init[1..] else init;
    var bs := Utf8.Encode(body);
    if '&' in init then ParseBytes(bs)
    else
      Utf8.EncodeAvoids(body, '&');
      if body == "" then ParseBytes(bs)
      else
        assert bs != [] by { Utf8.EncodeAppend([body[0]], body[1..]); assert [body[0]] + body[1..] == body; }
        ParseBytesSinglePiece(bs);
        ParseBytes(bs)
  }

  /** `params.get(name)`: the value of the first pair called `name`. */
  function Get(pairs: seq<Pair>, name: string): (r: Option<string>)
    ensures r.None? <==> forall i :: 0 <= i < |pairs| ==> pairs[i].name != name
    ensures r.Some? ==> Pair(name, r.value) in pairs
    ensures r.Some? ==>
      exists i :: 0 <= i < |pairs| && pairs[i] == Pair(name, r.value) && forall j :: 0 <= j < i ==> pairs[j].name != name
  {
    if pairs == [] then None
    else if pairs[0].name == name then Some(pairs[0].value)
    else Get(pairs[1..], name)
  }

  // ---------------------------------------------------------------------------
  // Percent-decoding inverts encodeURIComponent
  // ---------------------------------------------------------------------------

  lemma HexDigitValue(d: nat)
    requires d < 16
    ensures IsHexByte(UriComponent.HexDigit(d) as int)
    ensures HexValue(UriComponent.HexDigit(d) as int) == d
  {
  }

  /** The bytes of one `%XY` triple. */
  lemma EncodeTriple(d: Byte)
    ensures Utf8.Encode(['%', UriComponent.HexDigit(d / 16), UriComponent.HexDigit(d % 16)])
         == [PercentSign, UriComponent.HexDigit(d / 16) as int, UriComponent.HexDigit(d % 16) as int]
  {
    var t := ['%', UriComponent.HexDigit(d / 16), UriComponent.HexDigit(d % 16)];
    assert Utf8.IsAscii(t);
    Utf8.EncodeAscii(t);
  }

  /** One `%XY` triple decodes to the byte XY. */
  lemma PercentDecodeTriple(d: Byte, tail: seq<Byte>)
    ensures PercentDecode([PercentSign, UriComponent.HexDigit(d / 16) as int, UriComponent.HexDigit(d % 16) as int] + tail)
         == [d] + PercentDecode(tail)
  {
    HexDigitValue(d / 16);
    HexDigitValue(d % 16);
    var x := [PercentSign, UriComponent.HexDigit(d / 16) as int, UriComponent.HexDigit(d % 16) as int] + tail;
    assert x[3..] == tail;
  }

  /** The bytes of a run of `%XY` triples decode back to the bytes they encode. */
  lemma {:induction false} PercentDecodeTriples(bs: seq<Byte>, tail: seq<Byte>)
    ensures PercentDecode(Utf8.Encode(UriComponent.PercentBytes(bs)) + tail) == bs + PercentDecode(tail)
  {
    if bs != [] {
      var triple := ['%', UriComponent.HexDigit(bs[0] / 16), UriComponent.HexDigit(bs[0] % 16)];
      var more := UriComponent.PercentBytes(bs[1..]);
      assert UriComponent.PercentBytes(bs) == triple + more;
      Utf8.EncodeAppend(triple, more);
      EncodeTriple(bs[0]);
      var tb := [PercentSign, UriComponent.HexDigit(bs[0] / 16) as int, UriComponent.HexDigit(bs[0] % 16) as int];
      assert Utf8.Encode(UriComponent.PercentBytes(bs)) + tail == tb + (Utf8.Encode(more) + tail);
      PercentDecodeTriple(bs[0], Utf8.Encode(more) + tail);
      PercentDecodeTriples(bs[1..], tail);
      assert bs == [bs[0]] + bs[1..];
    } else {
      assert UriComponent.PercentBytes(bs) == [];
      assert Utf8.Encode([]) + tail == tail;
    }
  }

  /** The bytes of one encoded character decode to its UTF-8 bytes. */
  lemma PercentDecodeChar(c: char, tail: seq<Byte>)
    ensures PercentDecode(Utf8.Encode(UriComponent.EncodeChar(c)) + tail)
         == Utf8.EncodeScalar(c) + PercentDecode(tail)
  {
    if UriComponent.IsUnreserved(c) {
      assert Utf8.Encode([c]) == Utf8.EncodeScalar(c) + Utf8.Encode([]);
      assert Utf8.EncodeScalar(c) == [c as int];
      var x := [c as int] + tail;
      assert x[1..] == tail;
    } else {
      PercentDecodeTriples(Utf8.EncodeScalar(c), tail);
    }
  }

  /** Percent-decoding the (ASCII) output of `encodeURIComponent` yields the
      UTF-8 bytes of the original string. */
  lemma {:induction false} PercentDecodeEncode(s: string)
    ensures PercentDecode(Utf8.Encode(UriComponent.Encode(s))) == Utf8.Encode(s)
  {
    if s != [] {
      var e := UriComponent.EncodeChar(s[0]);
      var rest := UriComponent.Encode(s[1..]);
      assert UriComponent.Encode(s) == e + rest;
      Utf8.EncodeAppend(e, rest);
      PercentDecodeChar(s[0], Utf8.Encode(rest));
      PercentDecodeEncode(s[1..]);
    }
  }

  /** An ASCII value without `+` whose percent-decoding is the UTF-8
      encoding of `s` decodes to `s`. */
  lemma DecodeComponentOfAscii(e: string, s: string)
    requires Utf8.IsAscii(e) && '+' !in e
    requires PercentDecode(Utf8.Encode(e)) == Utf8.Encode(s)
    ensures DecodeComponent(Utf8.Encode(e)) == s
  {
    AsciiBytesAvoid(e, '+');
    var bs := Utf8.Encode(e);
    assert Seqs.Replace(bs, PlusSign, SpaceByte) == bs;
    Utf8.DecodeEncode(s);
  }

  /** Decoding a value produced by `encodeURIComponent` restores the text. */
  lemma DecodeComponentOfEncode(s: string)
    ensures DecodeComponent(Utf8.Encode(UriComponent.Encode(s))) == s
  {
    UriComponent.EncodedHasNoDelimiters(s);
    PercentDecodeEncode(s);
    DecodeComponentOfAscii(UriComponent.Encode(s), s);
  }

  /** A piece with no `&` is parsed as a single pair. */
  lemma ParseBytesSinglePiece(bs: seq<Byte>)
    requires bs != [] && Ampersand !in bs
    ensures ParseBytes(bs) == [ParsePiece(bs)]
  {
    assert Seqs.Split(bs, Ampersand) == [bs];
    assert ParsePieces([bs]) == [ParsePiece(bs)] + ParsePieces([]);
  }

  lemma {:induction false} ParsePiecesAppend(a: seq<seq<Byte>>, b: seq<seq<Byte>>)
    ensures ParsePieces(a + b) == ParsePieces(a) + ParsePieces(b)
  {
    if a == [] {
      assert a + b == b;
    } else {
      assert (a + b)[0] == a[0];
      assert (a + b)[1..] == a[1..] + b;
      ParsePiecesAppend(a[1..], b);
    }
  }

  /** The pairs of `x&y` are the pairs of `x` followed by those of `y`;
      with `ParseBytesSinglePiece` this determines the parse of every input. */
  lemma ParseBytesSplit(x: seq<Byte>, y: seq<Byte>)
    ensures ParseBytes(x + [Ampersand] + y) == ParseBytes(x) + ParseBytes(y)
  {
    Seqs.SplitAround(x, Ampersand, y);
    ParsePiecesAppend(Seqs.Split(x, Ampersand), Seqs.Split(y, Ampersand));
  }

  /** The same for a search string: the pairs of `x&y` are those of `x`
      followed by those of the bytes of `y` as they stand. Only the whole
      search string loses a leading `?`; a `?` right after `&` stays part of
      the next name, so the pairs of `y` alone are the same only when `y`
      does not start with `?`. */
  lemma ParseSplit(x: string, y: string)
    ensures Parse(x + "&" + y) == Parse(x) + ParseBytes(Utf8.Encode(y))
    ensures y == "" || y[0] != '?' ==> Parse(x + "&" + y) == Parse(x) + Parse(y)
  {
    var bx := if |x| > 0 && x[0] == '?' then x[1..] else x;
    ParseAsBytes(x, bx, y);
    ParseBytesSplit(Utf8.Encode(bx), Utf8.Encode(y));
    if y == "" || y[0] != '?' {
      ParseWithoutQuestionMark(y);
    }
  }

  /** `x&y` and `x` are parsed from the bytes after the same dropped `?`. */
  lemma ParseAsBytes(x: string, bx: string, y: string)
    requires bx == if |x| > 0 && x[0] == '?' then x[1..] else x
    ensures Parse(x) == ParseBytes(Utf8.Encode(bx))
    ensures Parse(x + "&" + y) == ParseBytes(Utf8.Encode(bx) + [Ampersand] + Utf8.Encode(y))
  {
    var s := x + "&" + y;
    var body := if |s| > 0 && s[0] == '?' then s[1..] else s;
    assert body == bx + "&" + y;
    Utf8.EncodeAppend(bx + "&", y);
    Utf8.EncodeAppend(bx, "&");
    assert Utf8.Encode("&") == [Ampersand];
  }

  /** A search string that does not start with `?` is parsed from its bytes as they stand. */
  lemma ParseWithoutQuestionMark(y: string)
    requires y == "" || y[0] != '?'
    ensures Parse(y) == ParseBytes(Utf8.Encode(y))
  {
  }

  /** A piece splits at its first `=`. */
  lemma ParsePieceAtEquals(nb: seq<Byte>, vb: seq<Byte>)
    requires EqualsSign !in nb
    ensures ParsePiece(nb + [EqualsSign] + vb) == Pair(DecodeComponent(nb), DecodeComponent(vb))
  {
    var piece := nb + [EqualsSign] + vb;
    var k := Seqs.FirstIndex(piece, EqualsSign);
    assert piece[|nb|] == EqualsSign;
    assert forall i :: 0 <= i < |nb| ==> piece[i] == nb[i];
    assert k == |nb|;
    assert piece[..k] == nb;
    assert piece[k + 1..] == vb;
  }

  /** The bytes of an ASCII string contain a given ASCII byte only where the
      string contains that character. */
  lemma AsciiBytesAvoid(t: string, c: char)
    requires Utf8.IsAscii(t) && c !in t
    ensures c as int !in Utf8.Encode(t)
  {
    Utf8.EncodeAscii(t);
    var bs := Utf8.Encode(t);
    forall i | 0 <= i < |bs| ensures bs[i] != c as int {
      assert bs[i] == t[i] as int;
      assert t[i] != c;
    }
  }

  /** A name made of unreserved characters decodes to itself. */
  lemma DecodeUnreservedName(name: string)
    requires forall i :: 0 <= i < |name| ==> UriComponent.IsUnreserved(name[i])
    ensures DecodeComponent(Utf8.Encode(name)) == name
  {
    assert Utf8.IsAscii(name) && '+' !in name && '%' !in name;
    AsciiBytesAvoid(name, '%');
    DecodeComponentOfAscii(name, name);
  }

  /** Looking up `name` in `?name=e` gives `s` whenever `e` is an ASCII value
      free of `&` and `+` whose percent-decoding is the UTF-8 encoding of `s`. */
  lemma GetOfQuery(name: string, e: string, s: string)
    requires name != []
    requires forall i :: 0 <= i < |name| ==> UriComponent.IsUnreserved(name[i])
    requires Utf8.IsAscii(e) && '&' !in e && '+' !in e
    requires PercentDecode(Utf8.Encode(e)) == Utf8.Encode(s)
    ensures Get(Parse("?" + name + "=" + e), name) == Some(s)
  {
    var body := name + "=" + e;
    assert "?" + name + "=" + e == "?" + body;
    ParseAfterQuestionMark(body);
    PairBytes(name, e);
    DecodeComponentOfAscii(e, s);
    DecodeUnreservedName(name);
    GetOfSinglePair(Utf8.Encode(body), Utf8.Encode(name), Utf8.Encode(e), name, s);
  }

  /** A leading `?` is dropped and the rest is parsed from its bytes. */
  lemma ParseAfterQuestionMark(body: string)
    ensures Parse("?" + body) == ParseBytes(Utf8.Encode(body))
  {
    assert ("?" + body)[1..] == body;
  }

  /** Bytes holding one `name=value` pair answer `get(name)` with the value. */
  lemma GetOfSinglePair(bs: seq<Byte>, nb: seq<Byte>, eb: seq<Byte>, name: string, s: string)
    requires bs == nb + [EqualsSign] + eb && Ampersand !in bs && EqualsSign !in nb
    requires DecodeComponent(nb) == name && DecodeComponent(eb) == s
    ensures Get(ParseBytes(bs), name) == Some(s)
  {
    ParseBytesSinglePiece(bs);
    ParsePieceAtEquals(nb, eb);
  }

  /** The bytes of `name=e`: the name's, an equals sign, the value's, and no
      ampersand when neither contains one. */
  lemma PairBytes(name: string, e: string)
    requires name != []
    requires forall i :: 0 <= i < |name| ==> UriComponent.IsUnreserved(name[i])
    requires Utf8.IsAscii(e) && '&' !in e
    ensures Utf8.Encode(name + "=" + e) == Utf8.Encode(name) + [EqualsSign] + Utf8.Encode(e)
    ensures Ampersand !in Utf8.Encode(name + "=" + e)
    ensures EqualsSign !in Utf8.Encode(name)
  {
    Utf8.EncodeAppend(name, "=");
    Utf8.EncodeAppend(name + "=", e);
    assert Utf8.Encode("=") == [EqualsSign] by {
      Utf8.EncodeAscii("=");
    }
    assert Utf8.IsAscii(name) && '&' !in name && '=' !in name;
    AsciiBytesAvoid(name, '&');
    AsciiBytesAvoid(name, '=');
    AsciiBytesAvoid(e, '&');
  }

  /** Round trip of a query string built with `encodeURIComponent`: parsing
      `?name=` followed by the encoding of `s` and looking up `name` gives
      back `s`. */
  lemma GetOfEncodedQuery(name: string, s: string)
    requires name != []
    requires forall i :: 0 <= i < |name| ==> UriComponent.IsUnreserved(name[i])
    ensures Get(Parse("?" + name + "=" + UriComponent.Encode(s)), name) == Some(s)
  {
    UriComponent.EncodedHasNoDelimiters(s);
    PercentDecodeEncode(s);
    GetOfQuery(name, UriComponent.Encode(s), s);
  }
}
