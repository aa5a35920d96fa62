/** `encodeURIComponent` (ECMA-262 section 19.2.6.5): every character
    outside the unreserved set is written as the UTF-8 bytes of its code
    point (RFC 3629), each as `%` and two upper-case hexadecimal digits, as
    section 2.1 of RFC 3986 describes. A strict decoder is defined next to it
    as its partner, and the two are proved to round-trip. */
module Uri {
  import opened Outcomes

  type Byte = b: int | 0 <= b < 256

  /** The characters `encodeURIComponent` leaves alone: ASCII letters,
      digits and `- _ . ! ~ * ' ( )`. */
  predicate IsUnreserved(c: char) {
    || 'A' <= c <= 'Z' || 'a' <= c <= 'z' || '0' <= c <= '9'
    || c == '-' || c == '_' || c == '.' || c == '!' || c == '~'
    || c == '*' || c == '\'' || c == '(' || c == ')'
  }

  predicate IsContinuation(b: Byte) { 0x80 <= b < 0xC0 }

  /** The UTF-8 encoding of one Unicode scalar value: one byte below
      U+0080, two below U+0800, three below U+10000, four above; every byte
      after the first is a continuation byte. */
  function Utf8(c: char): (bs: seq<Byte>)
    ensures 1 <= |bs| <= 4
    ensures |bs| == 1 <==> c < '\U{80}'
    ensures |bs| == 1 ==> bs[0] == c as int
    ensures forall i :: 1 <= i < |bs| ==> IsContinuation(bs[i])
  {
    var cp := c as int;
    if cp < 0x80 then [cp]
    else if cp < 0x800 then [0xC0 + cp / 64, 0x80 + cp % 64]
    else if cp < 0x10000 then
      var q := cp / 64;
      [0xE0 + q / 64, 0x80 + q % 64, 0x80 + cp % 64]
    else
      var q := cp / 64;
      var q2 := q / 64;
      [0xF0 + q2 / 64, 0x80 + q2 % 64, 0x80 + q % 64, 0x80 + cp % 64]
  }

  /** The UTF-8 encoding of a whole string. */
  function Utf8Bytes(s: string): seq<Byte> {
    if s == [] then [] else Utf8(s[0]) + Utf8Bytes(s[1..])
  }

  function HexDigit(v: int): (c: char)
    requires 0 <= v < 16
  {
    if v < 10 then ('0' as int + v) as char else ('A' as int + v - 10) as char
  }

  /** The value of a hexadecimal digit of either case. */
  function HexValue(c: char): (r: Option<int>)
    ensures r.Some? ==> 0 <= r.value < 16
  {
    if '0' <= c <= '9' then Some(c as int - '0' as int)
    else if 'A' <= c <= 'F' then Some(c as int - 'A' as int + 10)
    else if 'a' <= c <= 'f' then Some(c as int - 'a' as int + 10)
    else None
  }

  /** One byte as `%` and two upper-case hexadecimal digits. */
  function PercentEncode(b: Byte): (r: string)
    ensures |r| == 3 && r[0] == '%' && IsUnreserved(r[1]) && IsUnreserved(r[2])
    ensures HexValue(r[1]) == Some(b / 16) && HexValue(r[2]) == Some(b % 16)
  {
    ['%', HexDigit(b / 16), HexDigit(b % 16)]
  }

  function PercentEncodeAll(bs: seq<Byte>): string {
    if bs == [] then [] else PercentEncode(bs[0]) + PercentEncodeAll(bs[1..])
  }

  /** One character: itself when unreserved, its percent-encoded UTF-8
      bytes otherwise. */
  function EncodeChar(c: char): string {
    if IsUnreserved(c) then [c] else PercentEncodeAll(Utf8(c))
  }

  lemma {:induction false} PercentEncodeAllShape(bs: seq<Byte>)
    ensures |PercentEncodeAll(bs)| == 3 * |bs|
    ensures forall i :: 0 <= i < |PercentEncodeAll(bs)| ==>
              IsUnreserved(PercentEncodeAll(bs)[i]) || PercentEncodeAll(bs)[i] == '%'
  {
    if bs != [] {
      PercentEncodeAllShape(bs[1..]);
    }
  }

  lemma EncodeCharShape(c: char)
    ensures |EncodeChar(c)| >= 1
    ensures forall i :: 0 <= i < |EncodeChar(c)| ==> IsUnreserved(EncodeChar(c)[i]) || EncodeChar(c)[i] == '%'
  {
    if !IsUnreserved(c) {
      PercentEncodeAllShape(Utf8(c));
    }
  }

  /** `encodeURIComponent`: the result uses only unreserved characters and
      `%`, is never shorter than the input, and leaves a string made only of
      unreserved characters as it is. */
  function EncodeUriComponent(s: string): (r: string)
    ensures forall i :: 0 <= i < |r| ==> IsUnreserved(r[i]) || r[i] == '%'
    ensures |r| >= |s|
    ensures (forall i :: 0 <= i < |s| ==> IsUnreserved(s[i])) ==> r == s
  {
    if s == [] then []
    else
      var head := EncodeChar(s[0]);
      var rest := EncodeUriComponent(s[1..]);
      EncodeCharShape(s[0]);
      assert forall i :: 1 <= i < |s| ==> s[1..][i - 1] == s[i];
      head + rest
  }

  // ---------------------------------------------------------------------
  // the decoding partner
  // ---------------------------------------------------------------------

  function Prepend<T>(x: seq<T>, r: Option<seq<T>>): Option<seq<T>> {
    match r
    case None => None
    case Some(rest) => Some(x + rest)
  }

  /** Reads back the bytes of a percent-encoded string: `%` with two
      hexadecimal digits is one byte, an unreserved character is its own
      code; anything else is rejected. */
  function PercentDecode(e: string): Option<seq<Byte>>
    decreases |e|
  {
    if e == [] then Some([])
    else if e[0] == '%' then
      if |e| < 3 then None
      else
        match (HexValue(e[1]), HexValue(e[2]))
        case (Some(h), Some(l)) => Prepend([h * 16 + l], PercentDecode(e[3..]))
        case _ => None
    else if IsUnreserved(e[0]) then Prepend([e[0] as int], PercentDecode(e[1..]))
    else None
  }

  /** Decodes the first scalar value of a UTF-8 byte string, with the number
      of bytes it took; overlong forms, surrogates and values above U+10FFFF
      are rejected. */
  function DecodeScalar(bs: seq<Byte>): (r: Option<(char, nat)>)
    requires bs != []
    ensures r.Some? ==> 1 <= r.value.1 <= |bs|
  {
    var b0: int := bs[0];
    if b0 < 0x80 then Some((b0 as char, 1))
    else if 0xC0 <= b0 < 0xE0 then
      if |bs| < 2 || !IsContinuation(bs[1]) then None
      else
        var cp := (b0 - 0xC0) * 64 + Low6(bs[1]);
        if cp < 0x80 then None else Some((cp as char, 2))
    else if 0xE0 <= b0 < 0xF0 then
      if |bs| < 3 || !IsContinuation(bs[1]) || !IsContinuation(bs[2]) then None
      else
        var cp := ((b0 - 0xE0) * 64 + Low6(bs[1])) * 64 + Low6(bs[2]);
        if cp < 0x800 || (0xD800 <= cp < 0xE000) then None else Some((cp as char, 3))
    else if 0xF0 <= b0 < 0xF8 then
      if |bs| < 4 || !IsContinuation(bs[1]) || !IsContinuation(bs[2]) || !IsContinuation(bs[3]) then None
      else
        var cp := (((b0 - 0xF0) * 64 + Low6(bs[1])) * 64 + Low6(bs[2])) * 64 + Low6(bs[3]);
        if cp < 0x10000 || cp >= 0x11_0000 then None else Some((cp as char, 4))
    else None
  }

  /** The six payload bits of a continuation byte. */
  function Low6(b: Byte): int
    requires IsContinuation(b)
  {
    b as int - 0x80
  }

  /** Decodes a whole UTF-8 byte string. */
  function Utf8Decode(bs: seq<Byte>): Option<string>
    decreases |bs|
  {
    if bs == [] then Some([])
    else
      match DecodeScalar(bs)
      case None => None
      case Some((c, n)) => Prepend([c], Utf8Decode(bs[n..]))
  }

  /** The inverse of `encodeURIComponent` on its image (a strict form of
      `decodeURIComponent`). */
  function DecodeUriComponent(e: string): Option<string> {
    match PercentDecode(e)
    case None => None
    case Some(bs) => Utf8Decode(bs)
  }

  // ---------------------------------------------------------------------
  // round trip
  // ---------------------------------------------------------------------

  lemma DecodeScalarUtf8(c: char, rest: seq<Byte>)
    ensures DecodeScalar(Utf8(c) + rest) == Some((c, |Utf8(c)|))
  {
    var cp := c as int;
    var bs := Utf8(c) + rest;
    if cp < 0x80 {
    } else if cp < 0x800 {
      assert (bs[0] - 0xC0) * 64 + Low6(bs[1]) == cp;
    } else if cp < 0x10000 {
      var q := cp / 64;
      assert (bs[0] - 0xE0) * 64 + Low6(bs[1]) == q;
      assert (q * 64) + Low6(bs[2]) == cp;
    } else {
      var q := cp / 64;
      var q2 := q / 64;
      assert (bs[0] - 0xF0) * 64 + Low6(bs[1]) == q2;
      assert q2 * 64 + Low6(bs[2]) == q;
      assert q * 64 + Low6(bs[3]) == cp;
    }
  }

  /** UTF-8 decoding undoes UTF-8 encoding. */
  lemma {:induction false} Utf8RoundTrip(s: string)
    ensures Utf8Decode(Utf8Bytes(s)) == Some(s)
  {
    if s != [] {
      var bs := Utf8Bytes(s);
      DecodeScalarUtf8(s[0], Utf8Bytes(s[1..]));
      assert bs[|Utf8(s[0])|..] == Utf8Bytes(s[1..]);
      Utf8RoundTrip(s[1..]);
      assert [s[0]] + s[1..] == s;
    }
  }

  lemma {:induction false} PercentDecodeEncodeAll(bs: seq<Byte>, e: string)
    ensures PercentDecode(PercentEncodeAll(bs) + e) == Prepend(bs, PercentDecode(e))
  {
    if bs == [] {
      assert PercentEncodeAll(bs) + e == e;
      PrependEmpty(PercentDecode(e));
    } else {
      var b := bs[0];
      var tail := PercentEncodeAll(bs[1..]) + e;
      assert PercentEncodeAll(bs) + e == PercentEncode(b) + tail;
      PercentDecodeByte(b, tail);
      PercentDecodeEncodeAll(bs[1..], e);
      PrependTwice([b], bs[1..], PercentDecode(e));
      assert [b] + bs[1..] == bs;
    }
  }

  lemma PrependEmpty<T>(r: Option<seq<T>>)
    ensures Prepend([], r) == r
  {
    if r.Some? {
      assert [] + r.value == r.value;
    }
  }

  lemma PrependTwice<T>(x: seq<T>, y: seq<T>, r: Option<seq<T>>)
    ensures Prepend(x, Prepend(y, r)) == Prepend(x + y, r)
  {
    if r.Some? {
      assert x + (y + r.value) == (x + y) + r.value;
    }
  }

  lemma PercentDecodeByte(b: Byte, e: string)
    ensures PercentDecode(PercentEncode(b) + e) == Prepend([b], PercentDecode(e))
  {
    var x := PercentEncode(b) + e;
    assert x[0] == '%' && x[1] == PercentEncode(b)[1] && x[2] == PercentEncode(b)[2];
    assert x[3..] == e;
    assert (b / 16) * 16 + b % 16 == b;
  }

  lemma PercentDecodeEncodeChar(c: char, e: string)
    ensures PercentDecode(EncodeChar(c) + e) == Prepend(Utf8(c), PercentDecode(e))
  {
    if IsUnreserved(c) {
      assert ([c] + e)[1..] == e;
    } else {
      PercentDecodeEncodeAll(Utf8(c), e);
    }
  }

  lemma {:induction false} PercentDecodeEncode(s: string)
    ensures PercentDecode(EncodeUriComponent(s)) == Some(Utf8Bytes(s))
  {
    if s != [] {
      PercentDecodeEncode(s[1..]);
      PercentDecodeEncodeChar(s[0], EncodeUriComponent(s[1..]));
    }
  }

  /** Decoding an encoded message gives the message back: the encoding
      loses nothing. */
  lemma UriRoundTrip(s: string)
    ensures DecodeUriComponent(EncodeUriComponent(s)) == Some(s)
  {
    PercentDecodeEncode(s);
    Utf8RoundTrip(s);
  }

  /** Different messages never share an encoding. */
  lemma EncodeUriComponentInjective(s: string, t: string)
    ensures EncodeUriComponent(s) == EncodeUriComponent(t) ==> s == t
  {
    UriRoundTrip(s);
    UriRoundTrip(t);
  }
}
