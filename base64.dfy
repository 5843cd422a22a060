/**
 * `java.util.Base64.getEncoder()`: the basic encoding of section 4 of RFC 4648,
 * standard alphabet, `=` padding, no line breaks; with a decoder as partner.
 */
module Base64 {
  import opened Wrappers
  import Utf8

  /** The alphabet character for a 6-bit value. */
  function Symbol(n: int): (c: char)
    requires 0 <= n < 64
    ensures IsSymbol(c)
  {
    if n < 26 then ('A' as int + n) as char
    else if n < 52 then ('a' as int + (n - 26)) as char
    else if n < 62 then ('0' as int + (n - 52)) as char
    else if n == 62 then '+'
    else '/'
  }

  predicate IsSymbol(c: char) {
    ('A' <= c <= 'Z') || ('a' <= c <= 'z') || ('0' <= c <= '9') || c == '+' || c == '/'
  }

  function SymbolValue(c: char): (n: int)
    requires IsSymbol(c)
    ensures 0 <= n < 64
  {
    if 'A' <= c <= 'Z' then c as int - 'A' as int
    else if 'a' <= c <= 'z' then c as int - 'a' as int + 26
    else if '0' <= c <= '9' then c as int - '0' as int + 52
    else if c == '+' then 62
    else 63
  }

  lemma SymbolValueOfSymbol(n: int)
    requires 0 <= n < 64
    ensures SymbolValue(Symbol(n)) == n
  {
  }

  /** The four 6-bit groups of three bytes, most significant first. */
  function Sextet0(b0: Utf8.byte): (v: int)
    ensures 0 <= v < 64
  {
    b0 / 4
  }

  function Sextet1(b0: Utf8.byte, b1: Utf8.byte): (v: int)
    ensures 0 <= v < 64
  {
    (b0 % 4) * 16 + b1 / 16
  }

  function Sextet2(b1: Utf8.byte, b2: Utf8.byte): (v: int)
    ensures 0 <= v < 64
  {
    (b1 % 16) * 4 + b2 / 64
  }

  function Sextet3(b2: Utf8.byte): (v: int)
    ensures 0 <= v < 64
  {
    b2 % 64
  }

  /** The three bytes four 6-bit groups carry. */
  function Octet0(v0: int, v1: int): Utf8.byte
    requires 0 <= v0 < 64 && 0 <= v1 < 64
  {
    v0 * 4 + v1 / 16
  }

  function Octet1(v1: int, v2: int): Utf8.byte
    requires 0 <= v1 < 64 && 0 <= v2 < 64
  {
    (v1 % 16) * 16 + v2 / 4
  }

  function Octet2(v2: int, v3: int): Utf8.byte
    requires 0 <= v2 < 64 && 0 <= v3 < 64
  {
    (v2 % 4) * 64 + v3
  }

  lemma Octet0OfSextets(b0: Utf8.byte, b1: Utf8.byte)
    ensures Octet0(Sextet0(b0), Sextet1(b0, b1)) == b0
  {
    assert Sextet1(b0, b1) / 16 == b0 % 4;
  }

  lemma Octet1OfSextets(b0: Utf8.byte, b1: Utf8.byte, b2: Utf8.byte)
    ensures Octet1(Sextet1(b0, b1), Sextet2(b1, b2)) == b1
  {
    assert Sextet1(b0, b1) % 16 == b1 / 16;
    assert Sextet2(b1, b2) / 4 == b1 % 16;
  }

  lemma Octet2OfSextets(b1: Utf8.byte, b2: Utf8.byte)
    ensures Octet2(Sextet2(b1, b2), Sextet3(b2)) == b2
  {
    assert Sextet2(b1, b2) % 4 == b2 / 64;
  }

  /** Three bytes become four symbols; a one- or two-byte tail is padded with `=`. */
  function Encode(bs: seq<Utf8.byte>): (s: string)
    ensures |s| == 4 * ((|bs| + 2) / 3)
    decreases |bs|
  {
    if |bs| == 0 then ""
    else if |bs| == 1 then
      [Symbol(Sextet0(bs[0])), Symbol(Sextet1(bs[0], 0)), '=', '=']
    else if |bs| == 2 then
      [Symbol(Sextet0(bs[0])), Symbol(Sextet1(bs[0], bs[1])), Symbol(Sextet2(bs[1], 0)), '=']
    else
      [Symbol(Sextet0(bs[0])), Symbol(Sextet1(bs[0], bs[1])),
       Symbol(Sextet2(bs[1], bs[2])), Symbol(Sextet3(bs[2]))] + Encode(bs[3..])
  }

  /** The bytes a padded Base64 text stands for; `None` when it is malformed. */
  function Decode(s: string): Option<seq<Utf8.byte>>
    decreases |s|
  {
    if |s| == 0 then Some([])
    else if |s| < 4 || !IsSymbol(s[0]) || !IsSymbol(s[1]) then None
    else
      var b0 := Octet0(SymbolValue(s[0]), SymbolValue(s[1]));
      if |s| == 4 && s[2] == '=' && s[3] == '=' then Some([b0])
      else if !IsSymbol(s[2]) then None
      else
        var b1 := Octet1(SymbolValue(s[1]), SymbolValue(s[2]));
        if |s| == 4 && s[3] == '=' then Some([b0, b1])
        else if !IsSymbol(s[3]) then None
        else
          var b2 := Octet2(SymbolValue(s[2]), SymbolValue(s[3]));
          match Decode(s[4..])
          case None => None
          case Some(rest) => Some([b0, b1, b2] + rest)
  }

  lemma DecodeFull(v0: int, v1: int, v2: int, v3: int, rest: string)
    requires 0 <= v0 < 64 && 0 <= v1 < 64 && 0 <= v2 < 64 && 0 <= v3 < 64
    ensures Decode([Symbol(v0), Symbol(v1), Symbol(v2), Symbol(v3)] + rest)
            == (match Decode(rest)
                case None => None
                case Some(t) => Some([Octet0(v0, v1), Octet1(v1, v2), Octet2(v2, v3)] + t))
  {
    var s := [Symbol(v0), Symbol(v1), Symbol(v2), Symbol(v3)] + rest;
    SymbolValueOfSymbol(v0);
    SymbolValueOfSymbol(v1);
    SymbolValueOfSymbol(v2);
    SymbolValueOfSymbol(v3);
    assert s[4..] == rest;
  }

  lemma DecodeOnePadded(v0: int, v1: int)
    requires 0 <= v0 < 64 && 0 <= v1 < 64
    ensures Decode([Symbol(v0), Symbol(v1), '=', '=']) == Some([Octet0(v0, v1)])
  {
    SymbolValueOfSymbol(v0);
    SymbolValueOfSymbol(v1);
  }

  lemma DecodeTwoPadded(v0: int, v1: int, v2: int)
    requires 0 <= v0 < 64 && 0 <= v1 < 64 && 0 <= v2 < 64
    ensures Decode([Symbol(v0), Symbol(v1), Symbol(v2), '=']) == Some([Octet0(v0, v1), Octet1(v1, v2)])
  {
    SymbolValueOfSymbol(v0);
    SymbolValueOfSymbol(v1);
    SymbolValueOfSymbol(v2);
  }

  lemma DecodeEncodeOne(bs: seq<Utf8.byte>)
    requires |bs| == 1
    ensures Decode(Encode(bs)) == Some(bs)
  {
    DecodeOnePadded(Sextet0(bs[0]), Sextet1(bs[0], 0));
    Octet0OfSextets(bs[0], 0);
    assert [bs[0]] == bs;
  }

  lemma DecodeEncodeTwo(bs: seq<Utf8.byte>)
    requires |bs| == 2
    ensures Decode(Encode(bs)) == Some(bs)
  {
    DecodeTwoPadded(Sextet0(bs[0]), Sextet1(bs[0], bs[1]), Sextet2(bs[1], 0));
    Octet0OfSextets(bs[0], bs[1]);
    Octet1OfSextets(bs[0], bs[1], 0);
    assert [bs[0], bs[1]] == bs;
  }

  /** A group of three bytes becomes four symbols in front of the rest's encoding. */
  lemma EncodeGroup(bs: seq<Utf8.byte>)
    requires |bs| >= 3
    ensures Encode(bs) == [Symbol(Sextet0(bs[0])), Symbol(Sextet1(bs[0], bs[1])),
                           Symbol(Sextet2(bs[1], bs[2])), Symbol(Sextet3(bs[2]))] + Encode(bs[3..])
  {
  }

  /** One step of the round trip: a full group decodes back when the rest does. */
  lemma DecodeEncodeGroup(bs: seq<Utf8.byte>)
    requires |bs| >= 3
    requires Decode(Encode(bs[3..])) == Some(bs[3..])
    ensures Decode(Encode(bs)) == Some(bs)
  {
    var b0, b1, b2 := bs[0], bs[1], bs[2];
    var v0, v1, v2, v3 := Sextet0(b0), Sextet1(b0, b1), Sextet2(b1, b2), Sextet3(b2);
    var rest := Encode(bs[3..]);
    EncodeGroup(bs);
    DecodeFull(v0, v1, v2, v3, rest);
    Octet0OfSextets(b0, b1);
    Octet1OfSextets(b0, b1, b2);
    Octet2OfSextets(b1, b2);
    SplitGroup(bs);
  }

  lemma SplitGroup<T>(xs: seq<T>)
    requires |xs| >= 3
    ensures [xs[0], xs[1], xs[2]] + xs[3..] == xs
  {
  }

  /** Decoding undoes encoding, for every byte sequence. */
  lemma {:induction false} DecodeEncode(bs: seq<Utf8.byte>)
    ensures Decode(Encode(bs)) == Some(bs)
    decreases |bs|
  {
    if |bs| >= 3 {
      DecodeEncode(bs[3..]);
      DecodeEncodeGroup(bs);
    } else if |bs| == 2 {
      DecodeEncodeTwo(bs);
    } else if |bs| == 1 {
      DecodeEncodeOne(bs);
    }
  }

  /** The output uses only the alphabet and `=`, and `=` only in the last two places. */
  lemma {:induction false} EncodeAlphabet(bs: seq<Utf8.byte>)
    ensures forall i | 0 <= i < |Encode(bs)| ::
              IsSymbol(Encode(bs)[i]) || (Encode(bs)[i] == '=' && i >= |Encode(bs)| - 2)
    decreases |bs|
  {
    if |bs| >= 3 {
      var s := Encode(bs);
      var rest := Encode(bs[3..]);
      EncodeAlphabet(bs[3..]);
      forall i | 0 <= i < |s| ensures IsSymbol(s[i]) || (s[i] == '=' && i >= |s| - 2) {
        if i >= 4 {
          assert s[i] == rest[i - 4];
        }
      }
    }
  }
}
