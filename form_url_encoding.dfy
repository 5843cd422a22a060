/**
 * `java.net.URLEncoder.encode(s, UTF_8)`: the `application/x-www-form-urlencoded`
 * form. Letters, digits and `. - * _` stay as they are, a space becomes `+`,
 * and every other character becomes `%HH` (upper-case hex) per UTF-8 byte.
 * The percent-decoder is the reference partner used to state the round trip.
 */
module FormUrlEncoding {
  import opened Wrappers
  import Utf8

  const HEX_DIGITS: string := "0123456789ABCDEF"

  /** The characters `URLEncoder` never encodes. */
  predicate IsUnreserved(c: char) {
    ('a' <= c <= 'z') || ('A' <= c <= 'Z') || ('0' <= c <= '9')
    || c == '.' || c == '-' || c == '*' || c == '_'
  }

  predicate IsUpperHex(c: char) {
    ('0' <= c <= '9') || ('A' <= c <= 'F')
  }

  /** The characters an encoded string may contain at all. */
  predicate IsEncodedChar(c: char) {
    IsUnreserved(c) || c == '+' || c == '%'
  }

  function HexDigit(n: int): (c: char)
    requires 0 <= n < 16
    ensures IsUpperHex(c)
  {
    HEX_DIGITS[n]
  }

  function HexValue(c: char): (n: int)
    requires IsUpperHex(c)
    ensures 0 <= n < 16
  {
    if c <= '9' then c as int - '0' as int else c as int - 'A' as int + 10
  }

  lemma HexValueOfDigit(n: int)
    requires 0 <= n < 16
    ensures HexValue(HexDigit(n)) == n
  {
  }

  function PercentEncode(bs: seq<Utf8.byte>): (t: string)
    ensures |t| == 3 * |bs|
  {
    if bs == [] then ""
    else ['%', HexDigit(bs[0] / 16), HexDigit(bs[0] % 16)] + PercentEncode(bs[1..])
  }

  function EncodeChar(c: char): string {
    if IsUnreserved(c) then [c]
    else if c == ' ' then "+"
    else PercentEncode(Utf8.EncodeChar(c))
  }

  function Encode(s: string): string {
    if s == [] then "" else EncodeChar(s[0]) + Encode(s[1..])
  }

  /** The bytes a form-encoded ASCII string stands for; `None` when it is malformed. */
  function DecodeToBytes(t: string): Option<seq<Utf8.byte>>
    decreases |t|
  {
    if t == [] then Some([])
    else if t[0] == '%' then
      if |t| >= 3 && IsUpperHex(t[1]) && IsUpperHex(t[2]) then
        match DecodeToBytes(t[3..])
        case None => None
        case Some(rest) => Some([HexValue(t[1]) * 16 + HexValue(t[2])] + rest)
      else None
    else if t[0] as int < 0x80 then
      var b: Utf8.byte := if t[0] == '+' then 0x20 else t[0] as int;
      match DecodeToBytes(t[1..])
      case None => None
      case Some(rest) => Some([b] + rest)
    else None
  }

  function Decode(t: string): Option<string> {
    match DecodeToBytes(t)
    case None => None
    case Some(bs) => Utf8.Decode(bs)
  }

  lemma {:induction false} DecodePercentEncoded(bs: seq<Utf8.byte>, rest: string)
    ensures DecodeToBytes(PercentEncode(bs) + rest)
            == (match DecodeToBytes(rest) case None => None case Some(tail) => Some(bs + tail))
  {
    if bs != [] {
      var head := ['%', HexDigit(bs[0] / 16), HexDigit(bs[0] % 16)];
      var u := PercentEncode(bs[1..]) + rest;
      Concat3(head, PercentEncode(bs[1..]), rest);
      DecodeTriple(bs[0], u);
      DecodePercentEncoded(bs[1..], rest);
      match DecodeToBytes(rest) {
        case None =>
        case Some(tail) => ConsSplit(bs, tail);
      }
    } else {
      assert PercentEncode(bs) + rest == rest;
      match DecodeToBytes(rest) {
        case None =>
        case Some(tail) => assert bs + tail == tail;
      }
    }
  }

  /** One `%HH` triple decodes to its byte, in front of whatever the rest decodes to. */
  lemma DecodeTriple(b: Utf8.byte, u: string)
    ensures DecodeToBytes(['%', HexDigit(b / 16), HexDigit(b % 16)] + u)
            == (match DecodeToBytes(u) case None => None case Some(tail) => Some([b] + tail))
  {
    var t := ['%', HexDigit(b / 16), HexDigit(b % 16)] + u;
    HexValueOfDigit(b / 16);
    HexValueOfDigit(b % 16);
    assert t[3..] == u;
  }

  lemma Concat3<T>(a: seq<T>, b: seq<T>, c: seq<T>)
    ensures (a + b) + c == a + (b + c)
  {
  }

  lemma ConsSplit<T>(xs: seq<T>, ys: seq<T>)
    requires xs != []
    ensures [xs[0]] + (xs[1..] + ys) == xs + ys
  {
    assert [xs[0]] + xs[1..] == xs;
  }

  lemma {:induction false} DecodeToBytesEncode(s: string)
    ensures DecodeToBytes(Encode(s)) == Some(Utf8.Encode(s))
  {
    if s != [] {
      var c := s[0];
      var rest := Encode(s[1..]);
      DecodeToBytesEncode(s[1..]);
      if IsUnreserved(c) || c == ' ' {
        var t := EncodeChar(c) + rest;
        assert t[1..] == rest;
      } else {
        DecodePercentEncoded(Utf8.EncodeChar(c), rest);
      }
    }
  }

  /** Percent-decoding the form undoes `URLEncoder.encode`, for every string. */
  lemma DecodeEncode(s: string)
    ensures Decode(Encode(s)) == Some(s)
  {
    DecodeToBytesEncode(s);
    Utf8.DecodeEncode(s);
  }

  lemma {:induction false} PercentEncodedChars(bs: seq<Utf8.byte>)
    ensures forall i | 0 <= i < |PercentEncode(bs)| :: IsEncodedChar(PercentEncode(bs)[i])
  {
    if bs != [] {
      PercentEncodedChars(bs[1..]);
      var t := PercentEncode(bs);
      forall i | 0 <= i < |t| ensures IsEncodedChar(t[i]) {
        if i >= 3 {
          assert t[i] == PercentEncode(bs[1..])[i - 3];
        }
      }
    }
  }

  /**
   * Every character of an encoded string is an unreserved character, `+` or
   * `%`; in particular the JSON punctuation `{ } " : ,` never appears raw.
   */
  lemma {:induction false} EncodedAlphabet(s: string)
    ensures forall i | 0 <= i < |Encode(s)| :: IsEncodedChar(Encode(s)[i])
  {
    if s != [] {
      EncodedAlphabet(s[1..]);
      var head := EncodeChar(s[0]);
      if !IsUnreserved(s[0]) && s[0] != ' ' {
        PercentEncodedChars(Utf8.EncodeChar(s[0]));
      }
      var t := Encode(s);
      forall i | 0 <= i < |t| ensures IsEncodedChar(t[i]) {
        if i >= |head| {
          assert t[i] == Encode(s[1..])[i - |head|];
        }
      }
    }
  }

  /** Unreserved characters are kept, a space becomes `+`, anything else `%HH` per UTF-8 byte. */
  lemma EncodeCharCases(c: char)
    ensures IsUnreserved(c) ==> EncodeChar(c) == [c]
    ensures c == ' ' ==> EncodeChar(c) == "+"
    ensures !IsUnreserved(c) && c != ' ' ==>
              |EncodeChar(c)| == 3 * |Utf8.EncodeChar(c)| && EncodeChar(c)[0] == '%'
    ensures !IsUnreserved(c) && c != ' ' ==> DecodeToBytes(EncodeChar(c)) == Some(Utf8.EncodeChar(c))
  {
    if !IsUnreserved(c) && c != ' ' {
      var bs := Utf8.EncodeChar(c);
      DecodePercentEncoded(bs, "");
      assert PercentEncode(bs) + "" == PercentEncode(bs);
      assert DecodeToBytes("") == Some([]);
      assert bs + [] == bs;
    }
  }
}
