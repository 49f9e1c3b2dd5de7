/**
 * The Python string built-ins the bridge relies on, modelled on `string`
 * (a sequence of Unicode scalar values): `str.split` on one separator
 * character, `str.splitlines`, `str.startswith`, the `in` substring test,
 * `int()` on text, and the `%d`, `%0Nd` and `%02X` renderings of integers.
 */
module PyStr {
  import opened Wrappers

  /** Number of occurrences of `c` in `s`. */
  function Count(s: string, c: char): (n: nat)
    ensures n <= |s|
    ensures n == 0 <==> c !in s
  {
    if s == [] then 0 else (if s[0] == c then 1 else 0) + Count(s[1..], c)
  }

  // ---------------------------------------------------------------------
  // str.split(sep) for a single-character separator
  // ---------------------------------------------------------------------

  /**
   * `s.split(sep)`: the maximal separator-free pieces between separators,
   * one more piece than there are separators (so never empty).
   */
  function Split(s: string, sep: char): (parts: seq<string>)
    ensures |parts| == Count(s, sep) + 1
    ensures forall i :: 0 <= i < |parts| ==> sep !in parts[i]
  {
    if s == [] then [""]
    else
      var rest := Split(s[1..], sep);
      if s[0] == sep then [""] + rest
      else [[s[0]] + rest[0]] + rest[1..]
  }

  /** `sep.join(parts)`, the inverse of `Split`. */
  function Join(parts: seq<string>, sep: char): (s: string)
    requires |parts| >= 1
  {
    if |parts| == 1 then parts[0] else parts[0] + [sep] + Join(parts[1..], sep)
  }

  /** Joining the pieces of a split gives back the original text. */
  lemma {:induction false} JoinSplit(s: string, sep: char)
    ensures Join(Split(s, sep), sep) == s
  {
    if s != [] {
      JoinSplit(s[1..], sep);
      var rest := Split(s[1..], sep);
      if s[0] != sep && |rest| > 1 {
        assert Join(rest, sep) == rest[0] + [sep] + Join(rest[1..], sep);
      }
    }
  }

  /** A separator-free text splits into itself alone. */
  lemma {:induction false} SplitNoSep(a: string, sep: char)
    requires sep !in a
    ensures Split(a, sep) == [a]
  {
    if a != [] {
      assert sep !in a[1..] by {
        forall x | x in a[1..] ensures x != sep { assert x in a; }
      }
      SplitNoSep(a[1..], sep);
      assert [a[0]] + a[1..] == a;
    }
  }

  /** A separator-free head followed by a separator is split off as the first piece. */
  lemma {:induction false} SplitCons(a: string, sep: char, b: string)
    requires sep !in a
    ensures Split(a + [sep] + b, sep) == [a] + Split(b, sep)
  {
    if a == [] {
      assert a + [sep] + b == [sep] + b;
      assert ([sep] + b)[1..] == b;
    } else {
      assert (a + [sep] + b)[1..] == a[1..] + [sep] + b;
      SplitCons(a[1..], sep, b);
      assert [a[0]] + a[1..] == a;
    }
  }

  /** Splitting a join of separator-free pieces recovers the pieces. */
  lemma {:induction false} SplitJoin(parts: seq<string>, sep: char)
    requires |parts| >= 1
    requires forall i :: 0 <= i < |parts| ==> sep !in parts[i]
    ensures Split(Join(parts, sep), sep) == parts
  {
    if |parts| == 1 {
      SplitNoSep(parts[0], sep);
    } else {
      SplitJoin(parts[1..], sep);
      SplitCons(parts[0], sep, Join(parts[1..], sep));
      assert [parts[0]] + parts[1..] == parts;
    }
  }

  // ---------------------------------------------------------------------
  // str.startswith and the `in` substring test
  // ---------------------------------------------------------------------

  predicate StartsWith(s: string, prefix: string)
  {
    |prefix| <= |s| && s[..|prefix|] == prefix
  }

  /** `sub in s`, scanning start positions from the left. */
  function Contains(s: string, sub: string): (found: bool)
    ensures found ==> |sub| <= |s|
    decreases |s|
  {
    StartsWith(s, sub) || (s != [] && Contains(s[1..], sub))
  }

  /** `sub` occurs in `s` at position `i`. */
  predicate OccursAt(s: string, sub: string, i: int)
  {
    0 <= i <= |s| - |sub| && s[i..i + |sub|] == sub
  }

  /** `sub in s` holds exactly when `sub` occurs at some position of `s`. */
  lemma {:induction false} ContainsIff(s: string, sub: string)
    ensures Contains(s, sub) <==> exists i :: OccursAt(s, sub, i)
    decreases |s|
  {
    if StartsWith(s, sub) {
      assert OccursAt(s, sub, 0);
    } else if s != [] {
      ContainsIff(s[1..], sub);
      if Contains(s[1..], sub) {
        var i :| OccursAt(s[1..], sub, i);
        assert s[1..][i..i + |sub|] == s[i + 1..i + 1 + |sub|];
        assert OccursAt(s, sub, i + 1);
      }
      if i :| OccursAt(s, sub, i) {
        assert i != 0;
        assert s[1..][i - 1..i - 1 + |sub|] == s[i..i + |sub|];
        assert OccursAt(s[1..], sub, i - 1);
      }
    }
  }

  // ---------------------------------------------------------------------
  // str.splitlines, for the terminators "\n", "\r" and "\r\n"
  // ---------------------------------------------------------------------

  predicate IsLineBreak(c: char)
  {
    c == '\n' || c == '\r'
  }

  predicate NoLineBreak(s: string)
  {
    forall i :: 0 <= i < |s| ==> !IsLineBreak(s[i])
  }

  /** Concatenating break-free texts gives a break-free text. */
  lemma AppendNoLineBreak(a: string, b: string)
    requires NoLineBreak(a) && NoLineBreak(b)
    ensures NoLineBreak(a + b)
  {
    forall i | |a| <= i < |a + b| ensures !IsLineBreak((a + b)[i]) {
      assert (a + b)[i] == b[i - |a|];
    }
  }

  /** Joining break-free parts with a separator that is not a break gives a break-free text. */
  lemma {:induction false} JoinNoLineBreak(parts: seq<string>, sep: char)
    requires |parts| >= 1 && !IsLineBreak(sep)
    requires forall i :: 0 <= i < |parts| ==> NoLineBreak(parts[i])
    ensures NoLineBreak(Join(parts, sep))
  {
    if |parts| > 1 {
      JoinNoLineBreak(parts[1..], sep);
      AppendNoLineBreak(parts[0], [sep]);
      AppendNoLineBreak(parts[0] + [sep], Join(parts[1..], sep));
    }
  }

  /** Index of the first line-break character of `s`, or `|s|`. */
  function LineEnd(s: string): (k: nat)
    ensures k <= |s|
    ensures NoLineBreak(s[..k])
    ensures k < |s| ==> IsLineBreak(s[k])
  {
    if s == [] || IsLineBreak(s[0]) then 0
    else
      var k := 1 + LineEnd(s[1..]);
      assert s[..k] == [s[0]] + s[1..][..k - 1];
      k
  }

  /** Width of the terminator at `k`: two for "\r\n", one otherwise. */
  function BreakWidth(s: string, k: nat): (w: nat)
    requires k < |s|
    ensures 1 <= w <= |s| - k
  {
    if s[k] == '\r' && k + 1 < |s| && s[k + 1] == '\n' then 2 else 1
  }

  /**
   * `s.splitlines()`: the lines of `s` without their terminators; a final
   * terminator does not start an extra empty line.
   */
  function SplitLines(s: string): (lines: seq<string>)
    ensures forall i :: 0 <= i < |lines| ==> NoLineBreak(lines[i])
    decreases |s|
  {
    if s == [] then []
    else
      var k := LineEnd(s);
      if k == |s| then [s]
      else [s[..k]] + SplitLines(s[k + BreakWidth(s, k)..])
  }

  /** The lines `ls`, each followed by the terminator `t`. */
  function Terminated(ls: seq<string>, t: string): string
  {
    if ls == [] then [] else ls[0] + t + Terminated(ls[1..], t)
  }

  /** Adding a line at the end adds it, terminated, at the end of the text. */
  lemma {:induction false} TerminatedSnoc(ls: seq<string>, l: string, t: string)
    ensures Terminated(ls + [l], t) == Terminated(ls, t) + l + t
  {
    if ls != [] {
      assert (ls + [l])[1..] == ls[1..] + [l];
      TerminatedSnoc(ls[1..], l, t);
    }
  }

  predicate IsTerminator(t: string)
  {
    t == "\n" || t == "\r" || t == "\r\n"
  }

  /** Terminated lines never start with the '\n' that would widen a preceding "\r". */
  lemma TerminatedFirst(ls: seq<string>, t: string)
    requires IsTerminator(t)
    requires forall i :: 0 <= i < |ls| ==> NoLineBreak(ls[i])
    ensures t == "\r" && Terminated(ls, t) != [] ==> Terminated(ls, t)[0] != '\n'
  {
    if ls != [] {
      assert Terminated(ls, t) == ls[0] + (t + Terminated(ls[1..], t));
      if ls[0] != [] {
        assert NoLineBreak(ls[0]);
        assert Terminated(ls, t)[0] == ls[0][0];
      }
    }
  }

  /** A terminator-free line followed by a terminator is split off as the first line. */
  lemma SplitLinesStep(l: string, t: string, rest: string)
    requires NoLineBreak(l) && IsTerminator(t)
    requires t == "\r" ==> rest == [] || rest[0] != '\n'
    ensures SplitLines(l + t + rest) == [l] + SplitLines(rest)
  {
    var s := l + (t + rest);
    assert s == l + t + rest;
    LineEndAt(l, t + rest);
    var k := |l|;
    assert s[..k] == l;
    assert s[k] == t[0];
    assert k + 1 < |s| ==> s[k + 1] == (t + rest)[1];
    var w := BreakWidth(s, k);
    assert w == |t|;
    assert s[k + w..] == rest;
  }

  /**
   * The same when a final line without terminator follows, as at the end
   * of a chunk of receiver output cut mid-line.
   */
  lemma {:induction false} SplitLinesOpenLast(ls: seq<string>, t: string, last: string)
    requires IsTerminator(t)
    requires forall i :: 0 <= i < |ls| ==> NoLineBreak(ls[i])
    requires last != [] && NoLineBreak(last)
    ensures SplitLines(Terminated(ls, t) + last) == ls + [last]
  {
    if ls == [] {
      assert Terminated(ls, t) + last == last;
      SplitLinesOneLine(last);
    } else {
      SplitLinesOpenLast(ls[1..], t, last);
      TerminatedFirst(ls[1..], t);
      SplitLinesOpenStep(ls[0], ls[1..], t, last);
      assert [ls[0]] + ls[1..] == ls;
    }
  }

  /** One step of the induction: the first line is split off the rest. */
  lemma SplitLinesOpenStep(l: string, ls: seq<string>, t: string, last: string)
    requires IsTerminator(t) && NoLineBreak(l)
    requires last != [] && NoLineBreak(last)
    requires t == "\r" && Terminated(ls, t) != [] ==> Terminated(ls, t)[0] != '\n'
    requires SplitLines(Terminated(ls, t) + last) == ls + [last]
    ensures SplitLines(Terminated([l] + ls, t) + last) == [l] + ls + [last]
  {
    var head := Terminated(ls, t);
    var rest := head + last;
    assert ([l] + ls)[1..] == ls;
    assert Terminated([l] + ls, t) == l + t + head;
    var text := Terminated([l] + ls, t) + last;
    AppendAssoc(l + t, head, last);
    assert text == l + t + rest;
    OpenRestFirst(head, last, t);
    SplitLinesStep(l, t, rest);
    assert SplitLines(text) == [l] + SplitLines(rest);
    assert [l] + (ls + [last]) == [l] + ls + [last];
  }

  lemma AppendAssoc(a: string, b: string, c: string)
    ensures (a + b) + c == a + (b + c)
  {
  }

  /** A non-empty break-free text is one line. */
  lemma SplitLinesOneLine(l: string)
    requires l != [] && NoLineBreak(l)
    ensures SplitLines(l) == [l]
  {
  }

  /** What follows a "\r" never starts with the '\n' that would widen it. */
  lemma OpenRestFirst(head: string, last: string, t: string)
    requires last != [] && NoLineBreak(last)
    requires t == "\r" && head != [] ==> head[0] != '\n'
    ensures t == "\r" ==> (head + last)[0] != '\n'
  {
    if head == [] {
      assert (head + last)[0] == last[0];
    } else {
      assert (head + last)[0] == head[0];
    }
  }

  /** A text made of terminator-free lines, each terminated the same way, splits back into those lines. */
  lemma {:induction false} SplitLinesTerminated(ls: seq<string>, t: string)
    requires IsTerminator(t)
    requires forall i :: 0 <= i < |ls| ==> NoLineBreak(ls[i])
    ensures SplitLines(Terminated(ls, t)) == ls
  {
    if ls != [] {
      var rest := Terminated(ls[1..], t);
      assert Terminated(ls, t) == ls[0] + t + rest;
      SplitLinesTerminated(ls[1..], t);
      TerminatedFirst(ls[1..], t);
      SplitLinesStep(ls[0], t, rest);
      assert [ls[0]] + ls[1..] == ls;
    }
  }

  /** The line end of a break-free head followed by a line break is the head's length. */
  lemma {:induction false} LineEndAt(a: string, b: string)
    requires NoLineBreak(a)
    requires b != [] && IsLineBreak(b[0])
    ensures LineEnd(a + b) == |a|
  {
    if a != [] {
      assert (a + b)[1..] == a[1..] + b;
      LineEndAt(a[1..], b);
    }
  }

  // ---------------------------------------------------------------------
  // Decimal text: str(n), `%0Nd` and int(text)
  // ---------------------------------------------------------------------

  predicate IsDigit(c: char)
  {
    '0' <= c <= '9'
  }

  predicate AllDigits(s: string)
  {
    forall i :: 0 <= i < |s| ==> IsDigit(s[i])
  }

  function DigitChar(d: nat): (c: char)
    requires d < 10
  {
    "0123456789"[d]
  }

  function DigitValue(c: char): (d: nat)
    requires IsDigit(c)
  {
    (c as int) - ('0' as int)
  }

  /** Value of a digit string, most significant digit first. */
  function DecValue(ds: string): nat
    requires AllDigits(ds)
  {
    if ds == [] then 0 else DecValue(ds[..|ds| - 1]) * 10 + DigitValue(ds[|ds| - 1])
  }

  /** Shortest decimal text of `n`, as `str(n)` prints a non-negative int. */
  function DecText(n: nat): (s: string)
    ensures s != [] && AllDigits(s)
  {
    if n < 10 then [DigitChar(n)] else DecText(n / 10) + [DigitChar(n % 10)]
  }

  /** Reading back the decimal text of `n` gives `n`. */
  lemma {:induction false} DecValueText(n: nat)
    ensures DecValue(DecText(n)) == n
  {
    if n >= 10 {
      DecValueText(n / 10);
      var s := DecText(n);
      assert s[..|s| - 1] == DecText(n / 10);
    }
  }

  /** Leading zeros do not change the value of a digit string. */
  lemma {:induction false} DecValueLeadingZeros(z: nat, ds: string)
    requires AllDigits(ds)
    ensures AllDigits(Zeros(z) + ds)
    ensures DecValue(Zeros(z) + ds) == DecValue(ds)
    decreases |ds|, z
  {
    if ds == [] {
      assert Zeros(z) + ds == Zeros(z);
      if z > 0 {
        assert Zeros(z)[..z - 1] == Zeros(z - 1);
        DecValueLeadingZeros(z - 1, []);
        assert Zeros(z - 1) + [] == Zeros(z - 1);
      }
    } else {
      var init := ds[..|ds| - 1];
      DecValueLeadingZeros(z, init);
      assert (Zeros(z) + ds)[..|Zeros(z) + ds| - 1] == Zeros(z) + init;
    }
  }

  function Zeros(z: nat): (s: string)
    ensures |s| == z && AllDigits(s)
    ensures forall i :: 0 <= i < z ==> s[i] == '0'
  {
    if z == 0 then [] else Zeros(z - 1) + "0"
  }

  /** `s` left-padded with '0' to at least `width` characters. */
  function PadZeros(s: string, width: nat): (r: string)
    ensures |r| == if |s| < width then width else |s|
    ensures AllDigits(s) ==> AllDigits(r)
  {
    if |s| < width then Zeros(width - |s|) + s else s
  }

  /** `f'{n:0{width}d}'`: sign, then zero-padded digits, `width` counting the sign. */
  function IntText(n: int, width: nat): (s: string)
    ensures |s| >= width && s != []
  {
    if n < 0 then "-" + PadZeros(DecText(-n), if width == 0 then 0 else width - 1)
    else PadZeros(DecText(n), width)
  }

  function Pow10(k: nat): (p: nat)
    ensures p >= 1
  {
    if k == 0 then 1 else 10 * Pow10(k - 1)
  }

  /** A number below `10^k` has at most `k` decimal digits. */
  lemma {:induction false} DecTextLength(n: nat, k: nat)
    requires 1 <= k && n < Pow10(k)
    ensures |DecText(n)| <= k
  {
    if n >= 10 {
      assert k >= 2;
      assert n / 10 < Pow10(k - 1);
      DecTextLength(n / 10, k - 1);
    }
  }

  /** `%02d` of a number below 100 is exactly two digits. */
  lemma TwoDigitText(n: nat)
    requires n < 100
    ensures |IntText(n, 2)| == 2 && AllDigits(IntText(n, 2))
  {
    if n >= 10 {
      assert DecText(n) == DecText(n / 10) + [DigitChar(n % 10)];
    }
  }

  /** Integer text holds digits only, after a minus sign for negative numbers. */
  lemma IntTextChars(n: int, width: nat)
    ensures var s := IntText(n, width);
            && s != []
            && (n >= 0 ==> AllDigits(s))
            && (n < 0 ==> s[0] == '-' && AllDigits(s[1..]))
  {
    var s := IntText(n, width);
    if n < 0 {
      assert s[1..] == PadZeros(DecText(-n), if width == 0 then 0 else width - 1);
    }
  }

  predicate IsSpace(c: char)
  {
    c == ' ' || c == '\t' || c == '\n' || c == '\r' || c == '\U{0B}' || c == '\U{0C}'
  }

  function TrimLeft(s: string): (r: string)
    ensures |r| <= |s| && r == s[|s| - |r|..]
    ensures r != [] ==> !IsSpace(r[0])
  {
    if s != [] && IsSpace(s[0]) then TrimLeft(s[1..]) else s
  }

  function TrimRight(s: string): (r: string)
    ensures |r| <= |s| && r == s[..|r|]
    ensures r != [] ==> !IsSpace(r[|r| - 1])
  {
    if s != [] && IsSpace(s[|s| - 1]) then TrimRight(s[..|s| - 1]) else s
  }

  /** `s.strip()` over ASCII whitespace. */
  function Strip(s: string): string
  {
    TrimRight(TrimLeft(s))
  }

  /** An optional sign and one or more decimal digits, nothing else. */
  function ParseSigned(t: string): (r: Option<int>)
  {
    if t == [] then None
    else
      var negative := t[0] == '-';
      var ds := if t[0] == '-' || t[0] == '+' then t[1..] else t;
      if ds != [] && AllDigits(ds) && |ds| <= MaxStrDigits then
        var v: int := DecValue(ds);
        Some(if negative then -v else v)
      else None
  }

  /**
   * The default limit on the digits `int()` converts from decimal text
   * (`sys.get_int_max_str_digits()` of CPython 3.11 and later); leading
   * zeros count toward it.
   */
  const MaxStrDigits: nat := 4300

  /**
   * `int(s)` on text: surrounding whitespace, an optional sign and from one
   * to `MaxStrDigits` decimal digits; anything else is the ValueError, here
   * `None`.
   */
  function ParseInt(s: string): (r: Option<int>)
    ensures r.Some? ==> 1 <= |Strip(s)| <= MaxStrDigits + 1
    ensures r.Some? && r.value < 0 ==> Strip(s)[0] == '-'
    ensures Strip(s) != [] && AllDigits(Strip(s)) && |Strip(s)| <= MaxStrDigits
            ==> r == Some(DecValue(Strip(s)) as int)
  {
    ParseSigned(Strip(s))
  }

  /** Text without surrounding whitespace is its own strip. */
  lemma StripNoSpace(s: string)
    requires s != [] && !IsSpace(s[0]) && !IsSpace(s[|s| - 1])
    ensures Strip(s) == s
  {
  }

  /** `int()` reads a bare digit string of at most `MaxStrDigits` digits. */
  lemma ParseIntDigits(ds: string)
    requires ds != [] && AllDigits(ds) && |ds| <= MaxStrDigits
    ensures ParseInt(ds) == Some(DecValue(ds) as int)
  {
    StripNoSpace(ds);
    assert ParseSigned(ds) == Some(DecValue(ds) as int);
  }

  /** `int()` reads a digit string after a minus sign as a negative number, up to the digit limit. */
  lemma ParseIntNegative(ds: string)
    requires ds != [] && AllDigits(ds) && |ds| <= MaxStrDigits
    ensures ParseInt("-" + ds) == Some(-(DecValue(ds) as int))
  {
    var s := "-" + ds;
    assert s[0] == '-' && s[|s| - 1] == ds[|ds| - 1];
    StripNoSpace(s);
    ParseSignedNegative(ds);
  }

  /** A minus sign before a digit string reads as the negative of its value. */
  lemma ParseSignedNegative(ds: string)
    requires ds != [] && AllDigits(ds) && |ds| <= MaxStrDigits
    ensures ParseSigned("-" + ds) == Some(-(DecValue(ds) as int))
  {
    var s := "-" + ds;
    assert s[1..] == ds;
  }

  /**
   * Past the limit, `int()` refuses a digit string whatever its value, with
   * or without a sign: its value is then never read.
   */
  lemma ParseIntTooManyDigits(sign: string, ds: string)
    requires sign == "" || sign == "-" || sign == "+"
    requires AllDigits(ds) && |ds| > MaxStrDigits
    ensures ParseInt(sign + ds) == None
  {
    var s := sign + ds;
    assert s[|s| - 1] == ds[|ds| - 1];
    assert s[0] == if sign == "" then ds[0] else sign[0];
    StripNoSpace(s);
    assert (if s[0] == '-' || s[0] == '+' then s[1..] else s) == ds;
  }

  /**
   * `int()` reads back every zero-padded rendering `f'{n:0{w}d}'` of a
   * non-negative `n` that stays within the digit limit.
   */
  lemma ParseIntText(n: nat, width: nat)
    requires |IntText(n, width)| <= MaxStrDigits
    ensures ParseInt(IntText(n, width)) == Some(n)
  {
    var ds := PadZeros(DecText(n), width);
    PaddedValue(n, width);
    ParseIntDigits(ds);
  }

  /** Zero-padded decimal text is a non-empty digit string with the padded number's value. */
  lemma PaddedValue(m: nat, w: nat)
    ensures var ds := PadZeros(DecText(m), w);
            ds != [] && AllDigits(ds) && DecValue(ds) == m
  {
    DecValueText(m);
    if |DecText(m)| < w {
      DecValueLeadingZeros(w - |DecText(m)|, DecText(m));
    }
  }

  // ---------------------------------------------------------------------
  // Hexadecimal text: `%02X`
  // ---------------------------------------------------------------------

  predicate IsHexDigit(c: char)
  {
    '0' <= c <= '9' || 'A' <= c <= 'F'
  }

  function HexDigitChar(d: nat): (c: char)
    requires d < 16
    ensures IsHexDigit(c)
  {
    "0123456789ABCDEF"[d]
  }

  function HexDigitValue(c: char): (d: nat)
    requires IsHexDigit(c)
    ensures d < 16
  {
    if c <= '9' then (c as int) - ('0' as int) else (c as int) - ('A' as int) + 10
  }

  /** Shortest upper-case hexadecimal text of `n`. */
  function HexText(n: nat): (s: string)
    ensures s != []
    ensures forall i :: 0 <= i < |s| ==> IsHexDigit(s[i])
  {
    if n < 16 then [HexDigitChar(n)] else HexText(n / 16) + [HexDigitChar(n % 16)]
  }

  /**
   * `f'{n:02X}'`: upper-case hexadecimal, zero-padded to two digits; values
   * from 256 on take more digits.
   */
  function Format02X(n: nat): (s: string)
    ensures |s| >= 2
    ensures forall i :: 0 <= i < |s| ==> IsHexDigit(s[i])
  {
    if n < 16 then "0" + HexText(n) else HexText(n)
  }

  /** Value of an upper-case hexadecimal digit string. */
  function HexValue(s: string): nat
    requires forall i :: 0 <= i < |s| ==> IsHexDigit(s[i])
  {
    if s == [] then 0 else HexValue(s[..|s| - 1]) * 16 + HexDigitValue(s[|s| - 1])
  }

  /** Reading back `%02X` text gives the number printed. */
  lemma {:induction false} HexValueFormat(n: nat)
    ensures HexValue(Format02X(n)) == n
  {
    HexValueText(n);
    if n < 16 {
      var s := Format02X(n);
      assert s[..|s| - 1] == "0";
      assert HexValue("0") == HexValue([]) * 16 + 0;
    }
  }

  lemma {:induction false} HexValueText(n: nat)
    ensures HexValue(HexText(n)) == n
  {
    var s := HexText(n);
    if n >= 16 {
      var q, r := n / 16, n % 16;
      HexDigitRoundTrip(r);
      HexValueText(q);
      assert s[..|s| - 1] == HexText(q);
      assert s[|s| - 1] == HexDigitChar(r);
      assert n == q * 16 + r;
    } else {
      HexDigitRoundTrip(n);
      assert s[..0] == [];
    }
  }

  lemma HexDigitRoundTrip(d: nat)
    requires d < 16
    ensures HexDigitValue(HexDigitChar(d)) == d
  {
  }

  /** `%02X` is exactly two digits precisely for values below 256. */
  lemma {:induction false} Format02XWidth(n: nat)
    ensures |Format02X(n)| == 2 <==> n < 256
    ensures n < 256 ==> Format02X(n) == [HexDigitChar(n / 16), HexDigitChar(n % 16)]
  {
    if n >= 256 {
      HexTextLong(n);
    } else if n < 16 {
      assert HexDigitChar(0) == '0';
    } else {
      assert HexText(n / 16) == [HexDigitChar(n / 16)];
    }
  }

  lemma {:induction false} HexTextLong(n: nat)
    requires n >= 256
    ensures |HexText(n)| >= 3
  {
    if n >= 4096 {
      HexTextLong(n / 16);
    }
  }
}
