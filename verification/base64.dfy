/**
 * `base64.b64encode`: the base 64 encoding of section 4 of RFC 4648
 * (alphabet `A-Z a-z 0-9 + /`, `=` padding), with a strict decoder as its
 * inverse.
 */
module Base64 {
  import opened Wrappers
  import opened Bytes

  type sextet = v: int | 0 <= v < 64

  /** The alphabet character for a 6-bit value (Table 1 of RFC 4648). */
  function Letter(v: sextet): (c: char)
    ensures IsLetter(c)
  {
    if v < 26 then (('A' as int) + v) as char
    else if v < 52 then (('a' as int) + v - 26) as char
    else if v < 62 then (('0' as int) + v - 52) as char
    else if v == 62 then '+'
    else '/'
  }

  predicate IsLetter(c: char)
  {
    'A' <= c <= 'Z' || 'a' <= c <= 'z' || '0' <= c <= '9' || c == '+' || c == '/'
  }

  /** The 6-bit value an alphabet character stands for. */
  function LetterValue(c: char): (v: sextet)
    requires IsLetter(c)
  {
    if 'A' <= c <= 'Z' then (c as int) - ('A' as int)
    else if 'a' <= c <= 'z' then (c as int) - ('a' as int) + 26
    else if '0' <= c <= '9' then (c as int) - ('0' as int) + 52
    else if c == '+' then 62
    else 63
  }

  lemma LetterRoundTrip(v: sextet)
    ensures IsLetter(Letter(v)) && LetterValue(Letter(v)) == v
  {
  }

  /** Three octets as four letters: the 24 bits split high bits first. */
  function EncodeGroup(b0: byte, b1: byte, b2: byte): string
  {
    [Letter(b0 / 4), Letter((b0 % 4) * 16 + b1 / 16), Letter((b1 % 16) * 4 + b2 / 64), Letter(b2 % 64)]
  }

  /**
   * `base64.b64encode(bs).decode()`: whole groups of three octets, then a
   * final group of one or two octets padded with `==` or `=`.
   */
  function Encode(bs: seq<byte>): (s: string)
    ensures |s| == 4 * ((|bs| + 2) / 3)
    decreases |bs|
  {
    if |bs| == 0 then []
    else if |bs| == 1 then [Letter(bs[0] / 4), Letter((bs[0] % 4) * 16), '=', '=']
    else if |bs| == 2 then
      [Letter(bs[0] / 4), Letter((bs[0] % 4) * 16 + bs[1] / 16), Letter((bs[1] % 16) * 4), '=']
    else
      GroupCount(|bs|);
      EncodeGroup(bs[0], bs[1], bs[2]) + Encode(bs[3..])
  }

  lemma GroupCount(n: nat)
    requires n >= 3
    ensures 4 + 4 * ((n - 3 + 2) / 3) == 4 * ((n + 2) / 3)
  {
  }

  /**
   * Strict decoding: a multiple of four letters, padding only in the last
   * group and only with zero filler bits; `None` for anything else.
   */
  function Decode(s: string): (r: Option<seq<byte>>)
    decreases |s|
  {
    if |s| == 0 then Some([])
    else if |s| < 4 then None
    else if |s| == 4 && IsLetter(s[0]) && IsLetter(s[1]) && s[2] == '=' && s[3] == '=' then
      var v0, v1 := LetterValue(s[0]), LetterValue(s[1]);
      if v1 % 16 == 0 then Some([v0 * 4 + v1 / 16]) else None
    else if |s| == 4 && IsLetter(s[0]) && IsLetter(s[1]) && IsLetter(s[2]) && s[3] == '=' then
      var v0, v1, v2 := LetterValue(s[0]), LetterValue(s[1]), LetterValue(s[2]);
      if v2 % 4 == 0 then Some([v0 * 4 + v1 / 16, (v1 % 16) * 16 + v2 / 4]) else None
    else if IsLetter(s[0]) && IsLetter(s[1]) && IsLetter(s[2]) && IsLetter(s[3]) then
      var v0, v1, v2, v3 := LetterValue(s[0]), LetterValue(s[1]), LetterValue(s[2]), LetterValue(s[3]);
      match Decode(s[4..])
      case None => None
      case Some(rest) => Some([v0 * 4 + v1 / 16, (v1 % 16) * 16 + v2 / 4, (v2 % 4) * 64 + v3] + rest)
    else None
  }

  /**
   * Letters, except that the last two characters may be padding; with
   * `whole`, letters only.
   */
  predicate WellPadded(s: string, whole: bool)
  {
    && (forall i :: 0 <= i < |s| ==> IsLetter(s[i]) || s[i] == '=')
    && (forall i :: 0 <= i < |s| - 2 ==> IsLetter(s[i]))
    && (whole ==> forall i :: 0 <= i < |s| ==> IsLetter(s[i]))
  }

  /** Every character of an encoding is an alphabet letter or trailing padding. */
  lemma {:induction false} EncodeAlphabet(bs: seq<byte>)
    ensures WellPadded(Encode(bs), |bs| % 3 == 0)
    decreases |bs|
  {
    if |bs| >= 3 {
      var g, tail := EncodeGroup(bs[0], bs[1], bs[2]), bs[3..];
      EncodeAlphabet(tail);
      EncodeLong(bs);
      GroupLetters(bs[0], bs[1], bs[2]);
      var whole := |bs| % 3 == 0;
      WholeGroups(|bs|);
      assert whole == (|tail| % 3 == 0);
      GroupThenPadded(g, Encode(tail), whole);
    } else {
      ShortAlphabet(bs);
    }
  }

  lemma ShortAlphabet(bs: seq<byte>)
    requires |bs| <= 2
    ensures WellPadded(Encode(bs), |bs| % 3 == 0)
  {
    if |bs| == 1 {
      var l0, l1 := Letter(bs[0] / 4), Letter((bs[0] % 4) * 16);
      assert Encode(bs) == [l0, l1, '=', '='];
      PaddedFour(l0, l1, '=', '=');
    } else if |bs| == 2 {
      var l0, l1, l2 := Letter(bs[0] / 4), Letter((bs[0] % 4) * 16 + bs[1] / 16), Letter((bs[1] % 16) * 4);
      assert Encode(bs) == [l0, l1, l2, '='];
      PaddedFour(l0, l1, l2, '=');
    }
  }

  /** A final group: two letters, then letters or padding. */
  lemma PaddedFour(a: char, b: char, c: char, d: char)
    requires IsLetter(a) && IsLetter(b)
    requires IsLetter(c) || c == '='
    requires IsLetter(d) || d == '='
    ensures WellPadded([a, b, c, d], false)
  {
  }

  lemma WholeGroups(n: nat)
    requires n >= 3
    ensures (n - 3) % 3 == n % 3
  {
  }

  lemma GroupLetters(b0: byte, b1: byte, b2: byte)
    ensures var g := EncodeGroup(b0, b1, b2);
            |g| == 4 && forall i :: 0 <= i < 4 ==> IsLetter(g[i])
  {
  }

  lemma GroupThenPadded(g: string, rest: string, whole: bool)
    requires |g| == 4 && forall i :: 0 <= i < 4 ==> IsLetter(g[i])
    requires WellPadded(rest, whole)
    ensures WellPadded(g + rest, whole)
  {
    var s := g + rest;
    forall i | 4 <= i < |s| ensures s[i] == rest[i - 4] {
    }
  }

  /** A final group of one octet decodes back to it. */
  lemma DecodeOne(b0: byte)
    ensures Decode(Encode([b0])) == Some([b0])
  {
    LetterRoundTrip(b0 / 4);
    LetterRoundTrip((b0 % 4) * 16);
  }

  /** A final group of two octets decodes back to them. */
  lemma DecodeTwo(b0: byte, b1: byte)
    ensures Decode(Encode([b0, b1])) == Some([b0, b1])
  {
    var s0: sextet, s1: sextet, s2: sextet := b0 / 4, (b0 % 4) * 16 + b1 / 16, (b1 % 16) * 4;
    LetterRoundTrip(s0);
    LetterRoundTrip(s1);
    LetterRoundTrip(s2);
    SextetsOctets(b0, b1, 0);
    var s := Encode([b0, b1]);
    assert s == [Letter(s0), Letter(s1), Letter(s2), '='];
    assert s[2] != '=';
  }

  /** The four letters of a whole group are letters, and their values give back the three octets. */
  lemma GroupValues(b0: byte, b1: byte, b2: byte)
    ensures var g := EncodeGroup(b0, b1, b2);
      && IsLetter(g[0]) && IsLetter(g[1]) && IsLetter(g[2]) && IsLetter(g[3])
      && var v0: int, v1: int, v2: int, v3: int := LetterValue(g[0]), LetterValue(g[1]), LetterValue(g[2]), LetterValue(g[3]);
      [v0 * 4 + v1 / 16, (v1 % 16) * 16 + v2 / 4, (v2 % 4) * 64 + v3] == [b0, b1, b2]
  {
    var s0: sextet, s1: sextet, s2: sextet, s3: sextet := b0 / 4, (b0 % 4) * 16 + b1 / 16, (b1 % 16) * 4 + b2 / 64, b2 % 64;
    LetterRoundTrip(s0);
    LetterRoundTrip(s1);
    LetterRoundTrip(s2);
    LetterRoundTrip(s3);
    SextetsOctets(b0, b1, b2);
  }

  /** The 24 bits of three octets, regrouped in four sextets and back. */
  lemma SextetsOctets(b0: byte, b1: byte, b2: byte)
    ensures var v0, v1, v2, v3 := b0 / 4, (b0 % 4) * 16 + b1 / 16, (b1 % 16) * 4 + b2 / 64, b2 % 64;
      && v0 * 4 + v1 / 16 == b0
      && (v1 % 16) * 16 + v2 / 4 == b1
      && (v2 % 4) * 64 + v3 == b2
  {
    assert ((b0 % 4) * 16 + b1 / 16) / 16 == b0 % 4;
    assert ((b0 % 4) * 16 + b1 / 16) % 16 == b1 / 16;
    assert ((b1 % 16) * 4 + b2 / 64) / 4 == b1 % 16;
    assert ((b1 % 16) * 4 + b2 / 64) % 4 == b2 / 64;
  }

  /** A whole group of three octets decodes back to them, in front of any decodable rest. */
  lemma DecodeGroup(b0: byte, b1: byte, b2: byte, rest: string, tail: seq<byte>)
    requires Decode(rest) == Some(tail)
    ensures Decode(EncodeGroup(b0, b1, b2) + rest) == Some([b0, b1, b2] + tail)
  {
    var s := EncodeGroup(b0, b1, b2) + rest;
    GroupValues(b0, b1, b2);
    assert s[..4] == EncodeGroup(b0, b1, b2);
    assert s[4..] == rest;
    assert !IsLetter('=');
  }

  /** Decoding inverts encoding, octet for octet. */
  lemma {:induction false} DecodeEncode(bs: seq<byte>)
    ensures Decode(Encode(bs)) == Some(bs)
    decreases |bs|
  {
    if |bs| == 1 {
      DecodeShort(bs);
    } else if |bs| == 2 {
      DecodeShort(bs);
    } else if |bs| >= 3 {
      var b0, b1, b2, tail := bs[0], bs[1], bs[2], bs[3..];
      assert bs == [b0, b1, b2] + tail;
      DecodeEncode(tail);
      DecodeStep(b0, b1, b2, tail);
    }
  }

  /** A final group of one or two octets decodes back to them. */
  lemma DecodeShort(bs: seq<byte>)
    requires 1 <= |bs| <= 2
    ensures Decode(Encode(bs)) == Some(bs)
  {
    if |bs| == 1 {
      assert [bs[0]] == bs;
      DecodeOne(bs[0]);
    } else {
      assert [bs[0], bs[1]] == bs;
      DecodeTwo(bs[0], bs[1]);
    }
  }

  /** Decoding the first whole group of an encoding puts its three octets in front of the rest. */
  lemma DecodeStep(b0: byte, b1: byte, b2: byte, tail: seq<byte>)
    requires Decode(Encode(tail)) == Some(tail)
    ensures Decode(Encode([b0, b1, b2] + tail)) == Some([b0, b1, b2] + tail)
  {
    var bs := [b0, b1, b2] + tail;
    assert bs[3..] == tail;
    EncodeLong(bs);
    var rest := Encode(tail);
    DecodeGroup(b0, b1, b2, rest, tail);
  }

  /** An encoding of three or more octets starts with the group of the first three. */
  lemma EncodeLong(bs: seq<byte>)
    requires |bs| >= 3
    ensures Encode(bs) == EncodeGroup(bs[0], bs[1], bs[2]) + Encode(bs[3..])
  {
  }
}
