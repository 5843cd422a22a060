/**
 * UTF-8 as `String.getBytes(StandardCharsets.UTF_8)` produces it, for strings
 * of Unicode scalar values, with a strict decoder as its partner.
 */
module Utf8 {
  import opened Wrappers

  type byte = x: int | 0 <= x < 256

  /** The one to four bytes that encode one scalar value. */
  function EncodeChar(c: char): (bs: seq<byte>)
    ensures 1 <= |bs| <= 4
    ensures |bs| == 1 <==> c as int < 0x80
    ensures |bs| == 1 ==> bs[0] == c as int
  {
    var v := c as int;
    if v < 0x80 then [v]
    else if v < 0x800 then [0xC0 + v / 64, 0x80 + v % 64]
    else if v < 0x10000 then [0xE0 + v / 4096, 0x80 + (v / 64) % 64, 0x80 + v % 64]
    else [0xF0 + v / 262144, 0x80 + (v / 4096) % 64, 0x80 + (v / 64) % 64, 0x80 + v % 64]
  }

  function Encode(s: string): (bs: seq<byte>)
    ensures |bs| >= |s|
  {
    if s == [] then [] else EncodeChar(s[0]) + Encode(s[1..])
  }

  predicate IsContinuation(b: byte) {
    0x80 <= b < 0xC0
  }

  predicate IsScalar(v: int) {
    (0 <= v < 0xD800) || (0xE000 <= v < 0x110000)
  }

  /** The first scalar value of `bs` and the number of bytes it takes, if well-formed. */
  function DecodeFirst(bs: seq<byte>): (r: Option<(char, nat)>)
    ensures r.Some? ==> 1 <= r.value.1 <= |bs|
  {
    if bs == [] then None
    else
      var b0: int := bs[0];
      if b0 < 0x80 then Some((b0 as char, 1))
      else if 0xC2 <= b0 < 0xE0 && |bs| >= 2 && IsContinuation(bs[1]) then
        var v: int := (b0 - 0xC0) * 64 + (bs[1] as int - 0x80);
        Some((v as char, 2))
      else if 0xE0 <= b0 < 0xF0 && |bs| >= 3 && IsContinuation(bs[1]) && IsContinuation(bs[2]) then
        var v: int := (b0 - 0xE0) * 4096 + (bs[1] as int - 0x80) * 64 + (bs[2] as int - 0x80);
        if 0x800 <= v && IsScalar(v) then Some((v as char, 3)) else None
      else if 0xF0 <= b0 < 0xF5 && |bs| >= 4 && IsContinuation(bs[1]) && IsContinuation(bs[2])
              && IsContinuation(bs[3]) then
        var v: int := (b0 - 0xF0) * 262144 + (bs[1] as int - 0x80) * 4096
          + (bs[2] as int - 0x80) * 64 + (bs[3] as int - 0x80);
        if 0x10000 <= v && IsScalar(v) then Some((v as char, 4)) else None
      else None
  }

  function Decode(bs: seq<byte>): Option<string>
    decreases |bs|
  {
    if bs == [] then Some("")
    else
      match DecodeFirst(bs)
      case None => None
      case Some((c, n)) =>
        match Decode(bs[n..])
        case None => None
        case Some(rest) => Some([c] + rest)
  }

  lemma DecodeFirstOfEncoded(c: char, rest: seq<byte>)
    ensures DecodeFirst(EncodeChar(c) + rest) == Some((c, |EncodeChar(c)|))
  {
    var v := c as int;
    var bs := EncodeChar(c) + rest;
    if v < 0x80 {
    } else if v < 0x800 {
      assert bs[0] == 0xC0 + v / 64 && bs[1] == 0x80 + v % 64;
      DecodeTwo(c, bs);
    } else if v < 0x10000 {
      assert bs[0] == 0xE0 + v / 4096 && bs[1] == 0x80 + (v / 64) % 64 && bs[2] == 0x80 + v % 64;
      DecodeThree(c, bs);
    } else {
      assert bs[0] == 0xF0 + v / 262144 && bs[1] == 0x80 + (v / 4096) % 64;
      assert bs[2] == 0x80 + (v / 64) % 64 && bs[3] == 0x80 + v % 64;
      DecodeFour(c, bs);
    }
  }

  /** The two-byte case of `DecodeFirstOfEncoded`; the two below take three and four bytes. */
  lemma DecodeTwo(c: char, bs: seq<byte>)
    requires 0x80 <= c as int < 0x800 && |bs| >= 2
    requires bs[0] == 0xC0 + (c as int) / 64 && bs[1] == 0x80 + (c as int) % 64
    ensures DecodeFirst(bs) == Some((c, 2))
  {
    var v := c as int;
    assert (v / 64) * 64 + v % 64 == v;
  }

  lemma DecodeThree(c: char, bs: seq<byte>)
    requires 0x800 <= c as int < 0x10000 && |bs| >= 3
    requires bs[0] == 0xE0 + (c as int) / 4096 && bs[1] == 0x80 + ((c as int) / 64) % 64
    requires bs[2] == 0x80 + (c as int) % 64
    ensures DecodeFirst(bs) == Some((c, 3))
  {
    var v := c as int;
    assert v / 4096 == (v / 64) / 64;
    assert (v / 4096) * 4096 + ((v / 64) % 64) * 64 + v % 64 == v;
  }

  lemma DecodeFour(c: char, bs: seq<byte>)
    requires 0x10000 <= c as int && |bs| >= 4
    requires bs[0] == 0xF0 + (c as int) / 262144 && bs[1] == 0x80 + ((c as int) / 4096) % 64
    requires bs[2] == 0x80 + ((c as int) / 64) % 64 && bs[3] == 0x80 + (c as int) % 64
    ensures DecodeFirst(bs) == Some((c, 4))
  {
    var v := c as int;
    assert v / 4096 == (v / 64) / 64;
    assert v / 262144 == (v / 4096) / 64;
    assert (v / 262144) * 262144 + ((v / 4096) % 64) * 4096 + ((v / 64) % 64) * 64 + v % 64 == v;
  }

  /** Decoding undoes encoding, for every string. */
  lemma {:induction false} DecodeEncode(s: string)
    ensures Decode(Encode(s)) == Some(s)
  {
    if s != [] {
      var head := EncodeChar(s[0]);
      var tail := Encode(s[1..]);
      DecodeFirstOfEncoded(s[0], tail);
      assert (head + tail)[|head|..] == tail;
      DecodeEncode(s[1..]);
      assert [s[0]] + s[1..] == s;
    }
  }

  /** Below U+0080 the encoding is one byte per character, the character's own code. */
  lemma {:induction false} EncodeAscii(s: string)
    requires forall i | 0 <= i < |s| :: s[i] as int < 0x80
    ensures |Encode(s)| == |s|
    ensures forall i | 0 <= i < |s| :: Encode(s)[i] == s[i] as int
  {
    if s != [] {
      EncodeAscii(s[1..]);
    }
  }
}
