/**
 * The NMEA 0183 GGA codec of `scripts/nmea_generator.py`: the checksum,
 * the synthetic fixed-position GGA sentence, and the fail-closed GGA
 * validator. The generator's clock and floating-point formatting reach the
 * model as ready-made field texts.
 */
module Nmea {
  import opened Wrappers
  import opened PyStr

  // ---------------------------------------------------------------------
  // Checksum
  // ---------------------------------------------------------------------

  /** `ord(c)`. Code points are below 2^21, so XORs of them fit 32 bits exactly. */
  function Ord(c: char): bv32
  {
    (c as int) as bv32
  }

  /** The left fold of XOR over the code points of `s`, starting from 0. */
  function XorFold(s: string): bv32
  {
    if s == [] then 0 else XorFold(s[..|s| - 1]) ^ Ord(s[|s| - 1])
  }

  /** The checksum text of a sentence body: the fold rendered `%02X`. */
  function Checksum(body: string): string
  {
    Format02X(XorFold(body) as nat)
  }

  /** `_calculate_checksum`: XOR every character code into an accumulator, then render it `%02X`. */
  method CalculateChecksum(nmea: string) returns (text: string)
    ensures text == Checksum(nmea)
  {
    var checksum: bv32 := 0;
    for i := 0 to |nmea|
      invariant checksum == XorFold(nmea[..i])
    {
      assert nmea[..i + 1][..i] == nmea[..i];
      checksum := checksum ^ Ord(nmea[i]);
    }
    assert nmea[..|nmea|] == nmea;
    text := Format02X(checksum as nat);
  }

  /** The fold over a concatenation is the XOR of the folds over its parts. */
  lemma {:induction false} XorFoldAppend(s: string, t: string)
    ensures XorFold(s + t) == XorFold(s) ^ XorFold(t)
    decreases |t|
  {
    if t == [] {
      assert s + t == s;
    } else {
      var t' := t[..|t| - 1];
      XorFoldAppend(s, t');
      assert (s + t)[..|s + t| - 1] == s + t';
      assert (s + t)[|s + t| - 1] == t[|t| - 1];
    }
  }

  predicate IsOctetText(s: string)
  {
    forall i :: 0 <= i < |s| ==> (s[i] as int) < 256
  }

  /** Over 8-bit characters the fold stays below 256. */
  lemma {:induction false} XorFoldOctet(s: string)
    requires IsOctetText(s)
    ensures XorFold(s) < 256
  {
    if s != [] {
      var init := s[..|s| - 1];
      assert IsOctetText(init) by {
        forall i | 0 <= i < |init| ensures (init[i] as int) < 256 { assert init[i] == s[i]; }
      }
      XorFoldOctet(init);
      OrdBelow256(s[|s| - 1]);
      XorBelow256(XorFold(init), Ord(s[|s| - 1]));
    }
  }

  lemma OrdBelow256(c: char)
    requires (c as int) < 256
    ensures Ord(c) < 256
  {
  }

  /** XOR of two values below 2^8 stays below 2^8. */
  lemma XorBelow256(a: bv32, b: bv32)
    requires a < 256 && b < 256
    ensures a ^ b < 256
  {
    assert a & 0xFFFF_FF00 == 0 && b & 0xFFFF_FF00 == 0;
    assert (a ^ b) & 0xFFFF_FF00 == (a & 0xFFFF_FF00) ^ (b & 0xFFFF_FF00);
  }

  /**
   * Over 8-bit characters the checksum is exactly two upper-case hex
   * digits whose value is the fold; the empty body gives "00".
   */
  lemma ChecksumTwoDigits(body: string)
    requires IsOctetText(body)
    ensures |Checksum(body)| == 2
    ensures forall i :: 0 <= i < 2 ==> IsHexDigit(Checksum(body)[i])
    ensures HexValue(Checksum(body)) == XorFold(body) as nat
    ensures body == [] ==> Checksum(body) == "00"
  {
    XorFoldOctet(body);
    Format02XWidth(XorFold(body) as nat);
    HexValueFormat(XorFold(body) as nat);
  }

  // ---------------------------------------------------------------------
  // Sentence assembly and the receiver-side checksum test
  // ---------------------------------------------------------------------

  /**
   * `f'${gga}*{checksum}'`: the body between `$` and `*`, then the
   * checksum, which over 8-bit text is two characters.
   */
  function Sentence(gga: string): (s: string)
    ensures StartsWith(s, "$" + gga + "*")
    ensures IsOctetText(gga) ==> |s| == |gga| + 4
  {
    var s := "$" + gga + "*" + Checksum(gga);
    assert IsOctetText(gga) ==> |Checksum(gga)| == 2 by {
      if IsOctetText(gga) {
        ChecksumTwoDigits(gga);
      }
    }
    assert s[..|gga| + 2] == "$" + gga + "*";
    s
  }

  /**
   * The test a receiver applies: a leading `$`, exactly one `*`, and the
   * text after it equal to the checksum of the text between the two.
   */
  predicate ChecksumValid(s: string)
  {
    && |s| >= 1 && s[0] == '$'
    && var parts := Split(s[1..], '*');
    |parts| == 2 && Checksum(parts[0]) == parts[1]
  }

  /** Recomputing the checksum over the text between `$` and `*` reproduces the suffix. */
  lemma SentenceChecksumValid(gga: string)
    requires '*' !in gga
    ensures ChecksumValid(Sentence(gga))
  {
    var s := Sentence(gga);
    var cs := Checksum(gga);
    assert '*' !in cs by {
      forall i | 0 <= i < |cs| ensures cs[i] != '*' { assert IsHexDigit(cs[i]); }
    }
    assert s[1..] == gga + ['*'] + cs;
    SplitCons(gga, '*', cs);
    SplitNoSep(cs, '*');
  }

  // ---------------------------------------------------------------------
  // The fixed-position GGA template
  // ---------------------------------------------------------------------

  /** Every finite Python float is smaller in magnitude than `10^FloatDigits`. */
  const FloatDigits: nat := 309
  const FloatBound: real := Pow10(FloatDigits) as real

  /** A finite double-precision value, as a real. */
  type Float = x: real | -FloatBound < x < FloatBound

  /** The configured fixed position, in signed degrees and metres. */
  datatype Fix = Fix(latitude: Float, longitude: Float, altitude: Float)

  /** The ranges of `time.gmtime()`: seconds run to 61 to allow for leap seconds. */
  type Hour = h: nat | h < 24
  type Minute = m: nat | m < 60
  type Second = s: nat | s <= 61

  /** UTC wall-clock time, as `time.gmtime()` gives it. */
  datatype Clock = Clock(hour: Hour, minute: Minute, second: Second)

  /** `time.strftime('%H%M%S', ...)`: always six digits. */
  function ClockText(t: Clock): (text: string)
    ensures |text| == 6 && AllDigits(text)
  {
    TwoDigitText(t.hour);
    TwoDigitText(t.minute);
    TwoDigitText(t.second);
    IntText(t.hour, 2) + IntText(t.minute, 2) + IntText(t.second, 2)
  }

  function Abs(x: real): real
  {
    if x >= 0.0 then x else -x
  }

  /** `int(x)` on a float: truncation toward zero. */
  function Trunc(x: real): int
  {
    if x >= 0.0 then x.Floor else -((-x).Floor)
  }

  /** The whole degrees of the latitude, taken of its magnitude as for the longitude. */
  function LatDegrees(fix: Fix): (d: nat)
    ensures d as real <= Abs(fix.latitude) < d as real + 1.0
  {
    Trunc(Abs(fix.latitude))
  }

  /** `int(abs(fix_longitude))`. */
  function LonDegrees(fix: Fix): (d: nat)
    ensures d as real <= Abs(fix.longitude) < d as real + 1.0
  {
    Trunc(Abs(fix.longitude))
  }

  function LatHemisphere(fix: Fix): char
  {
    if fix.latitude >= 0.0 then 'N' else 'S'
  }

  function LonHemisphere(fix: Fix): char
  {
    if fix.longitude >= 0.0 then 'E' else 'W'
  }

  /**
   * The fields of the GGA body in order: talker and type, UTC time,
   * latitude `ddmm.mmmm`, hemisphere, longitude `dddmm.mmmm`, hemisphere,
   * then the fix-quality fields. The minute texts are the float
   * renderings, passed in.
   */
  function GgaFields(fix: Fix, utc: Clock, latMinutes: string, lonMinutes: string, altitude: string): (fs: seq<string>)
    ensures |fs| == 15 && fs[0] == "GPGGA" && fs[6] == "1"
  {
    PositionFields(fix, utc, latMinutes, lonMinutes) + QualityFields(altitude)
  }

  function PositionFields(fix: Fix, utc: Clock, latMinutes: string, lonMinutes: string): (fs: seq<string>)
  {
    [ "GPGGA", ClockText(utc),
      IntText(LatDegreesAsWritten(fix), 2) + latMinutes, [LatHemisphere(fix)],
      IntText(LonDegrees(fix), 3) + lonMinutes, [LonHemisphere(fix)] ]
  }

  /**
   * Fix quality 1, 8 satellites, HDOP 0.9, the altitude text, `M`, geoid
   * separation 46.9, `M`, and two empty fields from the trailing `,,`.
   */
  function QualityFields(altitude: string): (fs: seq<string>)
  {
    [ "1", "08", "0.9", altitude, "M", "46.9", "M", "", "" ]
  }

  /** The comma-separated GGA body, without `$` and checksum. */
  function GgaBody(fix: Fix, utc: Clock, latMinutes: string, lonMinutes: string, altitude: string): string
  {
    Join(GgaFields(fix, utc, latMinutes, lonMinutes, altitude), ',')
  }

  /** `generate_gga_sentence`: the template body, checksummed and framed. */
  method GenerateGgaSentence(fix: Fix, utc: Clock, latMinutes: string, lonMinutes: string, altitude: string)
    returns (sentence: string)
    ensures sentence == Sentence(GgaBody(fix, utc, latMinutes, lonMinutes, altitude))
  {
    var gga := GgaBody(fix, utc, latMinutes, lonMinutes, altitude);
    var checksum := CalculateChecksum(gga);
    sentence := "$" + gga + "*" + checksum;
  }

  // ---------------------------------------------------------------------
  // The GGA validator
  // ---------------------------------------------------------------------

  /**
   * `is_gpgga_data_valid`: 14 or 15 comma-separated fields and a fix
   * quality (field 6) that reads as a non-zero integer. A field count out
   * of range, or a quality `int()` rejects, gives false.
   */
  function IsGpggaDataValid(nmea: string): (valid: bool)
    ensures valid ==> 13 <= Count(nmea, ',') <= 14
  {
    var fields := Split(nmea, ',');
    if |fields| < 14 || |fields| > 15 then false
    else
      match ParseInt(fields[6])
      case None => false
      case Some(quality) => quality != 0
  }

  /**
   * On 14 or 15 comma-free fields whose quality field reads as `q`, the
   * validator accepts exactly when `q` is non-zero (negative included).
   */
  lemma ValidIffQuality(fields: seq<string>, q: int)
    requires 14 <= |fields| <= 15
    requires forall i :: 0 <= i < |fields| ==> ',' !in fields[i]
    requires ParseInt(fields[6]) == Some(q)
    ensures IsGpggaDataValid(Join(fields, ',')) <==> q != 0
  {
    SplitJoin(fields, ',');
  }

  /** Whatever the quality field holds, a wrong field count is rejected. */
  lemma WrongCountInvalid(nmea: string)
    requires Count(nmea, ',') < 13 || Count(nmea, ',') > 14
    ensures !IsGpggaDataValid(nmea)
  {
  }

  /** A quality field `int()` rejects makes the sentence invalid, whatever else it holds. */
  lemma UnreadableQualityInvalid(fields: seq<string>)
    requires |fields| >= 7
    requires forall i :: 0 <= i < |fields| ==> ',' !in fields[i]
    requires ParseInt(fields[6]).None?
    ensures !IsGpggaDataValid(Join(fields, ','))
  {
    SplitJoin(fields, ',');
  }

  /**
   * A quality field of more digits than `int()` converts, leading zeros
   * included, makes the sentence invalid whatever its value.
   */
  lemma OverlongQualityInvalid(fields: seq<string>)
    requires |fields| >= 7
    requires forall i :: 0 <= i < |fields| ==> ',' !in fields[i]
    requires AllDigits(fields[6]) && |fields[6]| > MaxStrDigits
    ensures !IsGpggaDataValid(Join(fields, ','))
  {
    assert "" + fields[6] == fields[6];
    ParseIntTooManyDigits("", fields[6]);
    UnreadableQualityInvalid(fields);
  }

  /** Appending to the last part of a join is appending to the join. */
  lemma {:induction false} JoinAppendLast(parts: seq<string>, sep: char, tail: string)
    requires |parts| >= 1
    ensures Join(parts, sep) + tail == Join(parts[..|parts| - 1] + [parts[|parts| - 1] + tail], sep)
  {
    if |parts| > 1 {
      JoinAppendLast(parts[1..], sep, tail);
      var q := parts[..|parts| - 1] + [parts[|parts| - 1] + tail];
      assert q[1..] == parts[1..][..|parts[1..]| - 1] + [parts[1..][|parts[1..]| - 1] + tail];
    }
  }

  /** Prepending to the first part of a join is prepending to the join. */
  lemma JoinPrependFirst(parts: seq<string>, sep: char, head: string)
    requires |parts| >= 1
    ensures head + Join(parts, sep) == Join([head + parts[0]] + parts[1..], sep)
  {
    var q := [head + parts[0]] + parts[1..];
    assert q[1..] == parts[1..];
  }

  /** The sentence fields: the body fields, `$` on the first and `*checksum` on the last. */
  function SentenceFieldsOf(fs: seq<string>, cs: string): seq<string>
    requires |fs| == 15
  {
    ["$" + fs[0]] + fs[1..14] + [fs[14] + "*" + cs]
  }

  /** Framing a joined body with `$`, `*` and a checksum text joins the sentence fields. */
  lemma FrameJoin(fs: seq<string>, cs: string)
    requires |fs| == 15
    ensures "$" + Join(fs, ',') + "*" + cs == Join(SentenceFieldsOf(fs, cs), ',')
  {
    JoinAppendLast(fs, ',', "*" + cs);
    assert fs[14] + ("*" + cs) == fs[14] + "*" + cs;
    var fs' := fs[..14] + [fs[14] + "*" + cs];
    assert Join(fs, ',') + ("*" + cs) == Join(fs', ',');
    assert "$" + Join(fs, ',') + "*" + cs == "$" + (Join(fs, ',') + ("*" + cs));
    JoinPrependFirst(fs', ',', "$");
    assert fs'[1..] == fs[1..14] + [fs[14] + "*" + cs];
    assert [("$" + fs'[0])] + fs'[1..] == SentenceFieldsOf(fs, cs);
  }

  /** No field of `fs` contains `c`. */
  predicate FieldsFree(fs: seq<string>, c: char)
  {
    forall i :: 0 <= i < |fs| ==> c !in fs[i]
  }

  lemma FieldsFreeAppend(a: seq<string>, b: seq<string>, c: char)
    requires FieldsFree(a, c) && FieldsFree(b, c)
    ensures FieldsFree(a + b, c)
  {
    forall i | 0 <= i < |a + b| ensures c !in (a + b)[i] {
      if i >= |a| {
        assert (a + b)[i] == b[i - |a|];
      }
    }
  }

  /** None of the 15 body fields contains a comma or a line break. */
  lemma GgaFieldsFree(c: char, fix: Fix, utc: Clock, latMinutes: string, lonMinutes: string, altitude: string)
    requires c == ',' || IsLineBreak(c)
    requires c !in latMinutes && c !in lonMinutes && c !in altitude
    ensures var fs := GgaFields(fix, utc, latMinutes, lonMinutes, altitude);
            forall i :: 0 <= i < 15 ==> c !in fs[i]
  {
    PositionFieldsFree(c, fix, utc, latMinutes, lonMinutes);
    QualityFieldsFree(c, altitude);
    FieldsFreeAppend(PositionFields(fix, utc, latMinutes, lonMinutes), QualityFields(altitude), c);
  }

  lemma PositionFieldsFree(c: char, fix: Fix, utc: Clock, latMinutes: string, lonMinutes: string)
    requires c == ',' || IsLineBreak(c)
    requires c !in latMinutes && c !in lonMinutes
    ensures FieldsFree(PositionFields(fix, utc, latMinutes, lonMinutes), c)
  {
    var lat := IntText(LatDegreesAsWritten(fix), 2);
    var lon := IntText(LonDegrees(fix), 3);
    ClockTextFree(c, utc);
    IntTextFree(c, LatDegreesAsWritten(fix), 2);
    IntTextFree(c, LonDegrees(fix), 3);
    LiteralFieldsFree(c);
    NotInAppend(c, lat, latMinutes);
    NotInAppend(c, lon, lonMinutes);
    SixFieldsFree("GPGGA", ClockText(utc), lat + latMinutes, [LatHemisphere(fix)],
                  lon + lonMinutes, [LonHemisphere(fix)], c);
  }

  lemma NotInAppend(c: char, a: string, b: string)
    requires c !in a && c !in b
    ensures c !in a + b
  {
  }

  lemma SixFieldsFree(f0: string, f1: string, f2: string, f3: string, f4: string, f5: string, c: char)
    requires c !in f0 && c !in f1 && c !in f2 && c !in f3 && c !in f4 && c !in f5
    ensures FieldsFree([f0, f1, f2, f3, f4, f5], c)
  {
  }

  lemma QualityFieldsFree(c: char, altitude: string)
    requires c == ',' || IsLineBreak(c)
    requires c !in altitude
    ensures FieldsFree(QualityFields(altitude), c)
  {
    LiteralFieldsFree(c);
  }

  lemma ClockTextFree(c: char, utc: Clock)
    requires c == ',' || IsLineBreak(c)
    ensures c !in ClockText(utc)
  {
    IntTextFree(c, utc.hour, 2);
    IntTextFree(c, utc.minute, 2);
    IntTextFree(c, utc.second, 2);
  }

  lemma LiteralFieldsFree(c: char)
    requires c == ',' || IsLineBreak(c)
    ensures c !in "GPGGA" && c !in "1" && c !in "08" && c !in "0.9" && c !in "M" && c !in "46.9"
    ensures c !in "N" && c !in "S" && c !in "E" && c !in "W" && c !in ""
  {
  }

  /** None of the 15 sentence fields contains a comma. */
  lemma FieldsCommaFree(fs: seq<string>, cs: string)
    requires |fs| == 15
    requires forall i :: 0 <= i < 15 ==> ',' !in fs[i]
    requires forall i :: 0 <= i < |cs| ==> IsHexDigit(cs[i])
    ensures var out := SentenceFieldsOf(fs, cs);
            forall i :: 0 <= i < 15 ==> ',' !in out[i]
  {
    var out := SentenceFieldsOf(fs, cs);
    assert ',' !in cs by {
      forall i | 0 <= i < |cs| ensures cs[i] != ',' { assert IsHexDigit(cs[i]); }
    }
    forall i | 0 <= i < 15 ensures ',' !in out[i] {
      if i == 0 {
        assert out[0] == "$" + fs[0];
      } else if i == 14 {
        assert out[14] == fs[14] + "*" + cs;
      } else {
        assert out[i] == fs[i];
      }
    }
  }

  /** A `%0Nd` text holds digits and a sign only. */
  lemma IntTextFree(c: char, n: int, width: nat)
    requires !IsDigit(c) && c != '-'
    ensures c !in IntText(n, width)
  {
    var s := IntText(n, width);
    IntTextChars(n, width);
    forall i | 0 <= i < |s| ensures s[i] != c {
      if n < 0 && i > 0 {
        assert s[i] == s[1..][i - 1];
      }
    }
  }

  /** A sentence framed around 15 comma-free body fields splits into its sentence fields. */
  lemma SentenceSplit(fs: seq<string>)
    requires |fs| == 15
    requires forall i :: 0 <= i < 15 ==> ',' !in fs[i]
    ensures Split(Sentence(Join(fs, ',')), ',') == SentenceFieldsOf(fs, Checksum(Join(fs, ',')))
  {
    var gga := Join(fs, ',');
    var cs := Checksum(gga);
    FrameJoin(fs, cs);
    assert Sentence(gga) == "$" + gga + "*" + cs;
    FieldsCommaFree(fs, cs);
    SplitJoin(SentenceFieldsOf(fs, cs), ',');
  }

  /** A sentence framed around 15 comma-free fields with quality "1" passes the validator. */
  lemma FieldsValid(fs: seq<string>)
    requires |fs| == 15 && fs[6] == "1"
    requires forall i :: 0 <= i < 15 ==> ',' !in fs[i]
    ensures var s := Sentence(Join(fs, ','));
            |Split(s, ',')| == 15 && Split(s, ',')[6] == "1" && IsGpggaDataValid(s)
  {
    var s := Sentence(Join(fs, ','));
    SentenceSplit(fs);
    var out := SentenceFieldsOf(fs, Checksum(Join(fs, ',')));
    assert Split(s, ',') == out;
    assert out[6] == fs[6];
    ParseOne();
  }

  /**
   * A sentence built from the template with comma-free minute and altitude
   * texts has 15 fields, quality "1", and passes the validator.
   */
  lemma TemplateValid(fix: Fix, utc: Clock, latMinutes: string, lonMinutes: string, altitude: string)
    requires ',' !in latMinutes && ',' !in lonMinutes && ',' !in altitude
    ensures var s := Sentence(GgaBody(fix, utc, latMinutes, lonMinutes, altitude));
            |Split(s, ',')| == 15 && Split(s, ',')[6] == "1" && IsGpggaDataValid(s)
  {
    var fs := GgaFields(fix, utc, latMinutes, lonMinutes, altitude);
    GgaFieldsFree(',', fix, utc, latMinutes, lonMinutes, altitude);
    FieldsValid(fs);
  }

  lemma ParseOne()
    ensures ParseInt("1") == Some(1)
  {
    ParseIntText(1, 0);
    assert IntText(1, 0) == "1";
  }

  /** Framing a break-free `GPGGA` body with `$`, `*` and hex digits keeps it one line. */
  lemma FrameLine(gga: string, cs: string)
    requires NoLineBreak(gga) && StartsWith(gga, "GPGGA")
    requires forall i :: 0 <= i < |cs| ==> IsHexDigit(cs[i])
    ensures NoLineBreak("$" + gga + "*" + cs) && StartsWith("$" + gga + "*" + cs, "$GPGGA")
  {
    assert NoLineBreak(cs) by {
      forall i | 0 <= i < |cs| ensures !IsLineBreak(cs[i]) { assert IsHexDigit(cs[i]); }
    }
    AppendNoLineBreak("$", gga);
    AppendNoLineBreak("$" + gga, "*");
    AppendNoLineBreak("$" + gga + "*", cs);
    assert ("$" + gga + "*" + cs)[..6] == "$" + gga[..5];
  }

  /** Break-free fields headed `GPGGA`, joined and framed, make one line starting `$GPGGA`. */
  lemma SentenceLine(fs: seq<string>)
    requires |fs| >= 2 && fs[0] == "GPGGA"
    requires forall i :: 0 <= i < |fs| ==> NoLineBreak(fs[i])
    ensures NoLineBreak(Sentence(Join(fs, ','))) && StartsWith(Sentence(Join(fs, ',')), "$GPGGA")
  {
    var gga := Join(fs, ',');
    JoinNoLineBreak(fs, ',');
    JoinHead(fs);
    FrameLine(gga, Checksum(gga));
  }

  /** Fields headed `GPGGA` join into a text starting `GPGGA`. */
  lemma JoinHead(fs: seq<string>)
    requires |fs| >= 2 && fs[0] == "GPGGA"
    ensures StartsWith(Join(fs, ','), "GPGGA")
  {
    var gga := Join(fs, ',');
    assert gga == "GPGGA" + [','] + Join(fs[1..], ',');
    assert gga[..5] == "GPGGA";
  }

  /**
   * A sentence built from the template with break-free minute and
   * altitude texts is a single line that starts with `$GPGGA`.
   */
  lemma TemplateIsGpggaLine(fix: Fix, utc: Clock, latMinutes: string, lonMinutes: string, altitude: string)
    requires NoLineBreak(latMinutes) && NoLineBreak(lonMinutes) && NoLineBreak(altitude)
    ensures var s := Sentence(GgaBody(fix, utc, latMinutes, lonMinutes, altitude));
            NoLineBreak(s) && StartsWith(s, "$GPGGA")
  {
    var fs := GgaFields(fix, utc, latMinutes, lonMinutes, altitude);
    assert '\r' !in latMinutes && '\r' !in lonMinutes && '\r' !in altitude;
    assert '\n' !in latMinutes && '\n' !in lonMinutes && '\n' !in altitude;
    GgaFieldsFree('\r', fix, utc, latMinutes, lonMinutes, altitude);
    GgaFieldsFree('\n', fix, utc, latMinutes, lonMinutes, altitude);
    assert forall i :: 0 <= i < 15 ==> NoLineBreak(fs[i]);
    SentenceLine(fs);
  }

  // ---------------------------------------------------------------------
  // Latitude degrees: the code as written and the corrected form
  // ---------------------------------------------------------------------

  /**
   * `int(self.fix_latitude)` as written: the signed latitude, truncated
   * toward zero, which is the whole degrees of the magnitude carrying the
   * latitude's sign.
   */
  function LatDegreesAsWritten(fix: Fix): (d: int)
    ensures d == if fix.latitude >= 0.0 then LatDegrees(fix) as int else -(LatDegrees(fix) as int)
  {
    Trunc(fix.latitude)
  }

  /**
   * As written, every latitude at or south of 1 degree S prints its
   * degrees with a minus sign, although the hemisphere letter already
   * carries the sign.
   */
  lemma AsWrittenSouthernDegreesSigned(fix: Fix)
    requires fix.latitude <= -1.0
    ensures LatDegreesAsWritten(fix) < 0
    ensures IntText(LatDegreesAsWritten(fix), 2)[0] == '-'
    ensures LatHemisphere(fix) == 'S'
  {
    IntTextChars(LatDegreesAsWritten(fix), 2);
  }

  /**
   * As written, a latitude strictly between 1 degree S and the equator
   * truncates to 0 degrees, printed "00" beside 'S': the sign shows up only
   * in the minutes that line 34 computes.
   */
  lemma AsWrittenSubDegreeSouthern(fix: Fix)
    requires -1.0 < fix.latitude < 0.0
    ensures LatDegreesAsWritten(fix) == 0
    ensures IntText(LatDegreesAsWritten(fix), 2) == "00"
    ensures LatHemisphere(fix) == 'S'
  {
    assert LatDegrees(fix) == 0;
    assert DecText(0) == "0";
  }

  /** Latitude -33.5 (33 deg 30 min S): the degrees text is "-33", next to hemisphere 'S'. */
  lemma AsWrittenSouthernExample()
    ensures IntText(LatDegreesAsWritten(Fix(-33.5, 151.2, 10.0)), 2) == "-33"
  {
    var d := LatDegreesAsWritten(Fix(-33.5, 151.2, 10.0));
    assert d == -33;
    assert DecText(33) == "33";
  }

  /**
   * Corrected: the degrees text is digits only for every latitude, reads
   * back as the whole degrees of the magnitude, and the sign is carried by
   * the hemisphere letter alone.
   */
  lemma LatDegreesUnsigned(fix: Fix)
    ensures AllDigits(IntText(LatDegrees(fix), 2))
    ensures ParseInt(IntText(LatDegrees(fix), 2)) == Some(LatDegrees(fix) as int)
    ensures LatHemisphere(fix) == 'S' <==> fix.latitude < 0.0
  {
    var d := LatDegrees(fix);
    IntTextChars(d, 2);
    LatDegreesDigits(fix);
    ParseIntText(d, 2);
  }

  /** The degrees of a finite latitude have at most `FloatDigits` digits, far within `int()`'s limit. */
  lemma LatDegreesDigits(fix: Fix)
    ensures |IntText(LatDegrees(fix), 2)| <= FloatDigits
  {
    var d := LatDegrees(fix);
    var bound := Pow10(FloatDigits);
    BelowAsReal(d, Abs(fix.latitude), bound);
    DecTextLength(d, FloatDigits);
  }

  lemma BelowAsReal(d: nat, x: real, bound: nat)
    requires d as real <= x < bound as real
    ensures d < bound
  {
  }
}
