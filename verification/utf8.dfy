/**
 * `str.encode()` with Python's default codec, UTF-8, and the matching
 * decoder that inverts it.
 */
module Utf8 {
  import opened Wrappers
  import opened Bytes

  predicate IsContinuation(b: byte)
  {
    0x80 <= b < 0xC0
  }

  /** The one to four UTF-8 octets of one Unicode scalar value. */
  function EncodeChar(c: char): (bs: seq<byte>)
    ensures 1 <= |bs| <= 4
    ensures (|bs| == 1) <==> (c as int) < 0x80
    ensures forall i :: 1 <= i < |bs| ==> IsContinuation(bs[i])
  {
    // six payload bits per continuation octet, lowest bits last
    var cp := c as int;
    var q1 := cp / 64;
    var q2 := q1 / 64;
    if cp < 0x80 then [cp]
    else if cp < 0x800 then [0xC0 + q1, 0x80 + cp % 64]
    else if cp < 0x1_0000 then [0xE0 + q2, 0x80 + q1 % 64, 0x80 + cp % 64]
    else [0xF0 + q2 / 64, 0x80 + q2 % 64, 0x80 + q1 % 64, 0x80 + cp % 64]
  }

  /** `s.encode()`: the concatenated encodings of the characters of `s`. */
  function Encode(s: string): (bs: seq<byte>)
    ensures |s| <= |bs| <= 4 * |s|
  {
    if s == [] then [] else EncodeChar(s[0]) + Encode(s[1..])
  }

  predicate IsScalar(cp: int)
  {
    0 <= cp < 0xD800 || 0xE000 <= cp < 0x11_0000
  }

  function Cont(b: byte): nat
  {
    if b >= 0x80 then b - 0x80 else 0
  }

  /**
   * The first character of `bs` and the number of octets it takes, or
   * `None` for a bad lead octet, a missing or bad continuation octet, an
   * over-long form, a surrogate or a value past U+10FFFF.
   */
  function DecodeChar(bs: seq<byte>): (r: Option<(char, nat)>)
    ensures r.Some? ==> 1 <= r.value.1 <= |bs|
  {
    if bs == [] then None
    else
      var b0 := bs[0];
      if b0 < 0x80 then Some((b0 as char, 1))
      else if 0xC0 <= b0 < 0xE0 && |bs| >= 2 && IsContinuation(bs[1]) then
        var cp := (b0 - 0xC0) * 64 + Cont(bs[1]);
        if 0x80 <= cp then Some((cp as char, 2)) else None
      else if 0xE0 <= b0 < 0xF0 && |bs| >= 3 && IsContinuation(bs[1]) && IsContinuation(bs[2]) then
        var cp := ((b0 - 0xE0) * 64 + Cont(bs[1])) * 64 + Cont(bs[2]);
        if 0x800 <= cp && IsScalar(cp) then Some((cp as char, 3)) else None
      else if 0xF0 <= b0 < 0xF8 && |bs| >= 4
              && IsContinuation(bs[1]) && IsContinuation(bs[2]) && IsContinuation(bs[3]) then
        var cp := (((b0 - 0xF0) * 64 + Cont(bs[1])) * 64 + Cont(bs[2])) * 64 + Cont(bs[3]);
        if 0x1_0000 <= cp && IsScalar(cp) then Some((cp as char, 4)) else None
      else None
  }

  /** `bs.decode()`, with `None` for the UnicodeDecodeError. */
  function Decode(bs: seq<byte>): (r: Option<string>)
    decreases |bs|
  {
    if bs == [] then Some([])
    else match DecodeChar(bs)
      case None => None
      case Some((c, n)) =>
        match Decode(bs[n..])
        case None => None
        case Some(rest) => Some([c] + rest)
  }

  /** Each character's encoding is decoded back to that character, whatever follows. */
  lemma DecodeEncodeChar(c: char, rest: seq<byte>)
    ensures DecodeChar(EncodeChar(c) + rest) == Some((c, |EncodeChar(c)|))
  {
    var cp := c as int;
    var bs := EncodeChar(c) + rest;
    var q1 := cp / 64;
    var q2 := q1 / 64;
    assert cp == q1 * 64 + cp % 64;
    assert q1 == q2 * 64 + q1 % 64;
    if cp < 0x80 {
    } else if cp < 0x800 {
      assert (bs[0] - 0xC0) * 64 + Cont(bs[1]) == cp;
    } else if cp < 0x1_0000 {
      assert (bs[0] - 0xE0) * 64 + Cont(bs[1]) == q1;
    } else {
      assert q2 == (q2 / 64) * 64 + q2 % 64;
      assert (bs[0] - 0xF0) * 64 + Cont(bs[1]) == q2;
      assert ((bs[0] - 0xF0) * 64 + Cont(bs[1])) * 64 + Cont(bs[2]) == q1;
    }
  }

  /** Decoding inverts encoding: `s.encode().decode() == s`. */
  lemma {:induction false} DecodeEncode(s: string)
    ensures Decode(Encode(s)) == Some(s)
  {
    if s != [] {
      var head := EncodeChar(s[0]);
      var rest := Encode(s[1..]);
      DecodeEncodeChar(s[0], rest);
      assert (head + rest)[|head|..] == rest;
      DecodeEncode(s[1..]);
      assert [s[0]] + s[1..] == s;
    }
  }

  /** ASCII text encodes octet for octet. */
  lemma {:induction false} EncodeAscii(s: string)
    requires forall i :: 0 <= i < |s| ==> (s[i] as int) < 0x80
    ensures |Encode(s)| == |s|
    ensures forall i :: 0 <= i < |s| ==> Encode(s)[i] == s[i] as int
  {
    if s != [] {
      EncodeAscii(s[1..]);
    }
  }
}
