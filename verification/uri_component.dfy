/** `encodeURIComponent` (section 19.2.6.5 of ECMA-262): every code point
    outside the unreserved set is replaced by the percent-encoding, in upper
    case hexadecimal, of its UTF-8 bytes (section 2.1 of RFC 3986). Dafny
    strings hold Unicode scalar values, so the lone-surrogate `URIError`
    cannot arise. */
module UriComponent {
  import Utf8

  /** The characters `encodeURIComponent` leaves alone: letters, digits and
      `- _ . ! ~ * ' ( )`. */
  predicate IsUnreserved(c: char) {
    || ('a' <= c <= 'z') || ('A' <= c <= 'Z') || ('0' <= c <= '9')
    || c == '-' || c == '_' || c == '.' || c == '!' || c == '~'
    || c == '*' || c == '\'' || c == '(' || c == ')'
  }

  predicate IsUpperHexDigit(c: char) {
    ('0' <= c <= '9') || ('A' <= c <= 'F')
  }

  /** A character that may appear in the output of `encodeURIComponent`. */
  predicate IsEncodedChar(c: char) {
    IsUnreserved(c) || c == '%'
  }

  function HexDigit(d: nat): (c: char)
    requires d < 16
    ensures IsUpperHexDigit(c) && IsUnreserved(c)
  {
    if d < 10 then ('0' as int + d) as char else ('A' as int + d - 10) as char
  }

  /** `%XY` for every byte. */
  function PercentBytes(bs: seq<Utf8.Byte>): (r: string)
    ensures |r| == 3 * |bs|
    ensures forall i :: 0 <= i < |r| ==> r[i] == '%' || IsUpperHexDigit(r[i])
    ensures forall i :: 0 <= i < |r| ==> IsEncodedChar(r[i])
  {
    if bs == [] then [] else ['%', HexDigit(bs[0] / 16), HexDigit(bs[0] % 16)] + PercentBytes(bs[1..])
  }

  function EncodeChar(c: char): (r: string)
    ensures forall i :: 0 <= i < |r| ==> IsEncodedChar(r[i])
  {
    if IsUnreserved(c) then [c] else PercentBytes(Utf8.EncodeScalar(c))
  }

  /** `encodeURIComponent(s)`. */
  function Encode(s: string): (r: string)
    ensures |r| >= |s|
    ensures forall i :: 0 <= i < |r| ==> IsEncodedChar(r[i])
  {
    if s == [] then [] else EncodeChar(s[0]) + Encode(s[1..])
  }

  /** The encoding never contains the characters that delimit a query
      string (`&`, `=`, `#`) nor `+`, which form decoding reads as a space,
      and is printable ASCII. */
  lemma EncodedHasNoDelimiters(s: string)
    ensures '&' !in Encode(s) && '=' !in Encode(s) && '#' !in Encode(s) && '+' !in Encode(s)
    ensures '?' !in Encode(s)
    ensures Utf8.IsAscii(Encode(s))
    ensures forall i :: 0 <= i < |Encode(s)| ==> Encode(s)[i] as int > 0x20
  {
    var r := Encode(s);
    forall i | 0 <= i < |r|
      ensures r[i] != '&' && r[i] != '=' && r[i] != '#' && r[i] != '+' && r[i] != '?' && 0x20 < r[i] as int < 0x80
    {
      EncodedCharIsPlain(r[i]);
    }
  }

  lemma EncodedCharIsPlain(c: char)
    requires IsEncodedChar(c)
    ensures c != '&' && c != '=' && c != '#' && c != '+' && c != '?' && 0x20 < c as int < 0x80
  {
  }

  /** A string is left unchanged exactly when all of it is unreserved. */
  lemma {:induction false} EncodeIdentityIff(s: string)
    ensures Encode(s) == s <==> forall i :: 0 <= i < |s| ==> IsUnreserved(s[i])
  {
    if s != [] {
      EncodeIdentityIff(s[1..]);
      if !IsUnreserved(s[0]) {
        var e := EncodeChar(s[0]);
        assert |e| >= 3;
        assert |Encode(s)| >= 3 + |s[1..]|;
      } else {
        assert Encode(s) == [s[0]] + Encode(s[1..]);
        if Encode(s) == s {
          assert Encode(s[1..]) == Encode(s)[1..];
        }
      }
    }
  }
}
