# NTRIP correction relay: GGA codec and caster session, in Dafny

This project models the core of a small RTK correction relay. The relay
connects to an NTRIP caster and to a GNSS receiver. It uploads the
receiver's `$GPGGA` position sentence to the caster, and forwards the RTCM3
correction data the caster returns to the receiver. The model covers:

- `Nmea` (`scripts/nmea_generator.py`): the NMEA 0183 checksum (XOR of the
  character codes, printed `%02X`), the assembly of the synthetic
  fixed-position GGA sentence, and the fail-closed GGA validator.
- `Ntrip` (`scripts/ntrip_client.py`): extraction of the first `$GPGGA`
  line from receiver output; the caster request and its Basic credentials;
  the lenient success rule of the handshake; the `\r\n\r\n` upload framing;
  the RTCM chunk-accumulation loop. The class `NtripClient` holds the two
  session flags (`ntripConnected`, `nmeaRequestSent`) that connect,
  disconnect, send and the RTCM loop update.
- Supporting modules: the Python built-ins these files rely on (`PyStr`:
  `str.split`, `str.splitlines`, `startswith`, `in`, `int()`, `%0Nd`,
  `%02X`), `str.encode()` as UTF-8 (`Utf8`), and `base64.b64encode` per
  section 4 of RFC 4648 (`Base64`). `PyStr.Join` is not called by either
  file. It is there as the inverse of `split`. Round-trip lemmas connect:
  - `split` and `Join`, in both directions;
  - `splitlines` and its lines, when all the lines share one terminator,
    with or without an unterminated last line;
  - `int()` and `%0Nd` text, within the interpreter's digit limit;
  - `%02X` and reading hex back;
  - `str.encode()` and UTF-8 decoding;
  - `b64encode` and strict Base64 decoding.

  `in` has a reference definition by position (`PyStr.ContainsIff`).
  `startswith` is only a definition.

Socket outcomes enter the model as parameters: whether a connect or send
succeeded, the octets a `recv` returned or `None` when it raised, and the
chunk sequence successive `recv` calls return. The RTCM parser is a
function parameter. The UTC clock enters as a `Clock` record of bounded
hour, minute and second, which `Nmea.ClockText` renders as `%H%M%S`. The
float renderings of the minutes and the altitude enter as ready-made texts.

The model follows the code as written; in particular:
- the request line says `HTTP/1.1`, not `HTTP/1.0`;
- an upload is framed with `\r\n\r\n`, not `\r\n`;
- a failed upload only clears `nmeaRequestSent`; it does not mark the
  session disconnected;
- a socket timeout while reading RTCM ends the loop without clearing
  `ntripConnected`; any other error, from `recv` or from the RTCM parser,
  clears it;
- the receiver gets the parsed frame's `payload`, not the raw octets read;
- the latitude degrees are printed signed, `int(latitude)`, as listed under
  "## Findings";
- the client never calls the GGA validator. The first `$GPGGA` line is
  uploaded unchecked, and so is `""` when the receiver output has none.

## Model

| member | source | states |
|---|---|---|
| Nmea.CalculateChecksum | scripts/nmea_generator.py:24-29 | The XOR loop over the character codes, printed `%02X`, equals the spec function `Checksum`, the left fold of XOR. |
| Nmea.XorFoldAppend | scripts/nmea_generator.py:26-28 | The checksum fold over `s + t` is the XOR of the folds over `s` and `t`. |
| Nmea.XorFoldOctet | scripts/nmea_generator.py:26-28 | Over characters below 256 the fold stays below 256. |
| Nmea.ChecksumTwoDigits | scripts/nmea_generator.py:24-29 | Over 8-bit text the checksum is exactly two upper-case hex digits whose value is the XOR fold; the empty body gives "00". |
| Nmea.SentenceChecksumValid | scripts/nmea_generator.py:48-49 | A sentence `$gga*cs` over a `*`-free body passes the receiver's test: split after `$` on `*` into two parts, and the second is the checksum of the first. |
| Nmea.Sentence | scripts/nmea_generator.py:49 | The sentence opens with `$`, the body and `*`; over 8-bit text the checksum after it adds exactly two characters. |
| Nmea.ClockText | scripts/nmea_generator.py:41 | `%H%M%S` of a `gmtime` time is six digits. |
| Nmea.GenerateGgaSentence | scripts/nmea_generator.py:31-49 | The generated sentence is `Sentence(GgaBody(...))`: the 15-field template body, with the signed latitude degrees of line 33, framed with `$`, `*` and its checksum. |
| Nmea.GgaFields | scripts/nmea_generator.py:42-46 | The template has 15 fields, headed `GPGGA`, with fix quality "1" at field 6. |
| Nmea.LatDegreesAsWritten | scripts/nmea_generator.py:33 | `int(self.fix_latitude)`: the whole degrees of the magnitude, carrying the latitude's sign. |
| Nmea.LonDegrees | scripts/nmea_generator.py:37 | `int(abs(longitude))`: a natural number at most the magnitude and within 1 of it. |
| Nmea.LatDegrees | scripts/nmea_generator.py:33 | The corrected latitude degrees, taken of the magnitude: a natural number within 1 below the magnitude. |
| Nmea.TemplateValid | scripts/nmea_generator.py:42-68 | A template sentence with comma-free minute and altitude texts splits into 15 fields, has quality "1", and passes `is_gpgga_data_valid`. |
| Nmea.TemplateIsGpggaLine | scripts/nmea_generator.py:42-49 | A template sentence with break-free texts is a single line that starts with `$GPGGA`. |
| Nmea.IsGpggaDataValid | scripts/nmea_generator.py:51-71 | Accepting implies 13 or 14 commas (14 or 15 fields). |
| Nmea.ValidIffQuality | scripts/nmea_generator.py:55-68 | With 14 or 15 comma-free fields whose quality field reads as `q`, the validator accepts exactly when `q != 0`, negatives included. |
| Nmea.WrongCountInvalid | scripts/nmea_generator.py:58-59 | A field count outside 14..15 is rejected whatever field 6 holds. |
| Nmea.UnreadableQualityInvalid | scripts/nmea_generator.py:62-71 | A quality field that `int()` rejects makes the joined sentence invalid, whatever the field count. |
| Nmea.OverlongQualityInvalid | scripts/nmea_generator.py:62-71 | A quality field of more than 4300 digits, leading zeros included, is rejected even when its value is non-zero. |
| Nmea.AsWrittenSouthernDegreesSigned | scripts/nmea_generator.py:33-35 | As written, a latitude at or below -1 prints its degrees with a leading '-', beside hemisphere 'S'. |
| Nmea.AsWrittenSubDegreeSouthern | scripts/nmea_generator.py:33-35 | As written, a latitude strictly between -1 and 0 truncates to 0 degrees, printed "00" beside hemisphere 'S'. |
| Nmea.AsWrittenSouthernExample | scripts/nmea_generator.py:33-35 | As written, latitude -33.5 prints degrees "-33". |
| Nmea.LatDegreesUnsigned | scripts/nmea_generator.py:33-35 | Corrected: for every finite latitude, the degrees text is digits only, `int()` reads it back, and the hemisphere is 'S' exactly for negative latitudes. |
| Nmea.LatDegreesDigits | scripts/nmea_generator.py:33 | The degrees of any finite latitude print in at most 309 digits, which is within `int()`'s digit limit. |
| Ntrip.ExtractGpggaSentence | scripts/ntrip_client.py:115-121 | The result is "" or one of the input's `splitlines()` lines, starting with `$GPGGA` and holding no line break. |
| Ntrip.FirstGpgga | scripts/ntrip_client.py:118-121 | The result is "" or one of the lines. |
| Ntrip.FirstGpggaMatches | scripts/ntrip_client.py:118-121 | First-match search: either no line matches and the result is "", or the result is a matching line with no matching line before it. |
| Ntrip.ExtractFromLines | scripts/ntrip_client.py:117-121 | On break-free lines that all end with the same terminator (`\n`, `\r` or `\r\n`), extraction returns the first `$GPGGA` line itself. |
| Ntrip.ExtractFromChunk | scripts/ntrip_client.py:115-121 | When the text is cut off mid-line, as a `recv(1024)` chunk (line 131) can be, the unterminated last line is searched too: extraction returns the first `$GPGGA` line among the terminated lines and the last one. |
| Ntrip.TemplateSentenceExtracted | scripts/ntrip_client.py:115-121 | A generated GGA sentence arriving as one terminated line is extracted whole, and its upload (line 194) reads as that line and an empty line. |
| Ntrip.HandshakeAccepted | scripts/ntrip_client.py:81 | A reply that starts with a success token is accepted, and an accepted reply has at least 10 characters. |
| Ntrip.HandshakeAcceptedIff | scripts/ntrip_client.py:81 | The reply is accepted exactly when one of `ICY 200 OK`, `HTTP/1.0 200 OK`, `HTTP/1.1 200 OK` occurs in it at some position. |
| Ntrip.ShortReplyRejected | scripts/ntrip_client.py:81 | A reply shorter than 10 characters is never accepted. |
| Ntrip.TokenReplyAccepted | scripts/ntrip_client.py:81 | A reply that starts with a success token is accepted, whatever follows. |
| Ntrip.Latin1Decode | scripts/ntrip_client.py:76 | ISO-8859-1 decoding keeps the length, and each character has its octet's code. |
| Ntrip.Latin1RoundTrip | scripts/ntrip_client.py:76 | Re-encoding the decoded reply gives back every octet. |
| Ntrip.Credentials | scripts/ntrip_client.py:52 | The credentials are whole groups of four characters, each a Base64 letter or `=`. |
| Ntrip.CredentialsDecode | scripts/ntrip_client.py:52 | The Basic credentials decode, Base64 then UTF-8, back to exactly `username:password`. |
| Ntrip.RequestLines | scripts/ntrip_client.py:65-71 | Six lines: the request line for `/mountpoint`, four headers, and the empty line. |
| Ntrip.Request | scripts/ntrip_client.py:65-72 | The request opens with `GET /mountpoint HTTP/1.1` and CRLF and ends with the blank line that closes the header, `\r\n\r\n`. |
| Ntrip.RequestIsTerminatedLines | scripts/ntrip_client.py:65-72 | The request text is its six lines, each ended by CRLF: request line, four headers, and the empty line. |
| Ntrip.RequestSplitsIntoLines | scripts/ntrip_client.py:65-72 | When mountpoint and host hold no line break, the caster reads exactly those six lines. |
| Ntrip.UploadFrame | scripts/ntrip_client.py:194 | The upload is the sentence followed by CRLF twice. |
| Ntrip.UploadFrameLines | scripts/ntrip_client.py:194 | A break-free sentence, framed with `\r\n\r\n`, reads as the sentence and one empty line. |
| Ntrip.FirstShort | scripts/ntrip_client.py:214-218 | The index of the first chunk shorter than `chunk_size`, with all earlier chunks full-sized; `None` when every chunk is full-sized. |
| Ntrip.FullChunksBeforeShort | scripts/ntrip_client.py:215-218 | When no read returns more than `chunk_size` octets, every chunk before the short one is exactly `chunk_size` long. |
| Ntrip.FlattenLength | scripts/ntrip_client.py:213-216 | The accumulated octets are as many as the chunks' lengths added up. |
| Ntrip.ReadOutcomeOf | scripts/ntrip_client.py:212-235 | The read loop gathers the chunks up to the first one shorter than `chunk_size`, all earlier ones full-sized. When no short chunk comes, the exception `recv` raises ends it: a timeout, or an error; a negative size is always an error. |
| Ntrip.NtripClient.constructor | scripts/ntrip_client.py:13-52 | Both flags start false; the credentials are Base64 of the UTF-8 of `username:password`. |
| Ntrip.NtripClient.ConnectNtripServer | scripts/ntrip_client.py:54-87 | The request is sent iff the TCP connect succeeded. The call succeeds iff the ISO-8859-1 reply holds a success token. `ntripConnected` becomes true on success and is kept otherwise; `nmeaRequestSent` is unchanged. |
| Ntrip.NtripClient.DisconnectNtripServer | scripts/ntrip_client.py:89-100 | `ntripConnected` is false afterwards, whatever shutdown and close do; `nmeaRequestSent` is unchanged. |
| Ntrip.NtripClient.SendNmeaToNtripServer | scripts/ntrip_client.py:186-201 | When disconnected, nothing is handed to `send` and the flags stay. When connected, the UTF-8 of `sentence + "\r\n\r\n"` is handed to `send`, and `nmeaRequestSent` becomes whether `send` returned. |
| Ntrip.NtripClient.HandleGnssMessage | scripts/ntrip_client.py:130-148 | Octets that are not UTF-8, an empty message and any message containing "COM" cause no upload. Otherwise, when connected, the UTF-8 of the message's first `$GPGGA` line (possibly "") plus `\r\n\r\n` is handed to `send`, and `nmeaRequestSent` becomes whether `send` returned. |
| Ntrip.NtripClient.GenerateGgaSentence | scripts/ntrip_client.py:166-184 | The client's inline copy yields the same framed, checksummed template sentence as the generator for the configured fix, signed latitude degrees included. |
| Ntrip.NtripClient.ReadRtcm | scripts/ntrip_client.py:212-218 | The loop's outcome is `ReadOutcomeOf`: the octets up to and including the first short chunk, or the timeout or error `recv` raised. |
| Ntrip.NtripClient.RtcmIteration | scripts/ntrip_client.py:206-235 | A pass runs only while `ntripConnected` holds, the loop's guard. Before a GGA upload succeeded the pass is skipped. A timeout ends the loop with the flags unchanged, and an empty read forwards nothing. A parsed frame's payload is forwarded. A `recv` error or a parse failure ends the loop and clears `ntripConnected`, and only these clear it. |
| PyStr.Split | scripts/nmea_generator.py:55 | `str.split(',')` gives one more piece than there are separators, none containing the separator. |
| PyStr.JoinSplit | scripts/nmea_generator.py:55 | Joining the pieces of a split gives back the text. |
| PyStr.SplitJoin | scripts/nmea_generator.py:55 | Splitting a join of separator-free parts gives back the parts. |
| PyStr.Contains | scripts/ntrip_client.py:81 | `sub in s` only when `s` is at least as long as `sub`. |
| PyStr.ContainsIff | scripts/ntrip_client.py:81 | The recursive `in` test holds exactly when the substring occurs at some position. |
| PyStr.SplitLines | scripts/ntrip_client.py:117 | Every line of `splitlines()` is free of line breaks. |
| PyStr.SplitLinesTerminated | scripts/ntrip_client.py:117 | `splitlines()` of break-free lines that all end with the same terminator gives back those lines. |
| PyStr.SplitLinesOpenLast | scripts/ntrip_client.py:117 | Same, followed by a non-empty break-free line with no terminator: `splitlines()` gives back the lines and that last line. |
| PyStr.ParseInt | scripts/nmea_generator.py:62 | `int()` succeeds only on text that is not blank after stripping and has at most 4300 digits; a negative result needs a leading `-`; a plain string of 1 to 4300 digits reads as its decimal value. |
| PyStr.ParseIntTooManyDigits | scripts/nmea_generator.py:62 | Digits beyond 4300, with or without a sign, make `int()` fail (`ValueError`), whatever their value. |
| PyStr.IntText | scripts/nmea_generator.py:43-44 | `%0Nd` text is non-empty and at least `N` characters long. |
| PyStr.TwoDigitText | scripts/nmea_generator.py:41 | `%02d` of a number below 100 is exactly two digits. |
| PyStr.ParseIntText | scripts/nmea_generator.py:62 | `int()` reads back the `%0Nd` text of any natural number whose text has at most 4300 digits. |
| PyStr.ParseIntNegative | scripts/nmea_generator.py:62 | `int()` reads a minus sign followed by 1 to 4300 digits as the negative number. |
| PyStr.DecTextLength | scripts/nmea_generator.py:43-44 | A number below `10^k` prints in at most `k` decimal digits. |
| PyStr.IntTextChars | scripts/nmea_generator.py:43-44 | `%0Nd` text is non-empty digits, after a '-' for negative numbers. |
| PyStr.Format02X | scripts/nmea_generator.py:29 | `%02X` text is at least two upper-case hex digits. |
| PyStr.HexValueFormat | scripts/nmea_generator.py:29 | Reading back `%02X` text gives the number printed. |
| PyStr.Format02XWidth | scripts/nmea_generator.py:29 | `%02X` has exactly two digits precisely below 256, and then they are the two hex digits of the value. |
| Utf8.Encode | scripts/ntrip_client.py:73 | `str.encode()` takes one to four octets per character. |
| Utf8.DecodeEncode | scripts/ntrip_client.py:52 | UTF-8 decoding inverts `str.encode()`, the encoding applied to the credentials, the request and the upload. |
| Utf8.EncodeAscii | scripts/ntrip_client.py:196 | ASCII text encodes to one octet per character, with the character's code. |
| Base64.Encode | scripts/ntrip_client.py:52 | The encoding has 4 characters per started group of 3 octets. |
| Base64.EncodeAlphabet | scripts/ntrip_client.py:52 | Every character is an alphabet letter or `=`; only the last two can be `=`; none is when the length is a multiple of 3. |
| Base64.DecodeEncode | scripts/ntrip_client.py:52 | Strict decoding inverts encoding. |

## Left out

- Sockets, threads and the `run` loop: connecting to the receiver, the
  daemon thread, `stop_event`, the sleeps and `KeyboardInterrupt`. Socket
  outcomes are parameters instead. `run` joins `send_nmea_thread`, which is
  never created (scripts/ntrip_client.py:265); this is not modelled.
- The outer `while self.ntrip_connected` loop of `read_rtcm_and_send_to_gnss`:
  `RtcmIteration` models one pass of it. Likewise `HandleGnssMessage` models
  one pass of `read_nmea_and_send_to_server`.
- `socket.send` may write only a prefix, and the source ignores the count it
  returns (scripts/ntrip_client.py:196). `SendNmeaToNtripServer` and
  `HandleGnssMessage` report the octets handed to `send`, not what reached
  the caster.
- The `send` of the request in `connect_ntrip_server`
  (scripts/ntrip_client.py:73) is outside any `try`. An exception there
  propagates to the caller; the model assumes it returns.
- `RTCMReader.parse` is a function parameter. RTCM3 framing and CRC are not
  modelled. `send_rtcm_to_gnss` only logs its own failures, so it changes no
  state; the model reports the forwarded payload.
- Float arithmetic and formatting (`%07.4f` minutes, `%.1f` altitude):
  the texts enter as parameters, so the negative minutes that line 34 gives
  for a southern latitude with a fractional part are a parameter too. Degrees (the latitude's
  signed, as written), hemispheres and the `%02d`/`%03d` padding are
  modelled.
- `time.gmtime`: the UTC time is a parameter.
- YAML loading, logging, colour output, and the receiver-side clients
  (`scripts/novatel_client.py`, `scripts/debug/novatel_client.py`): not part
  of this model.
- Ntrip.ReadRtcm: a `chunk_size` of 0 makes the source loop forever on empty
  reads; the model ends that loop when the given chunks run out, with the
  exception passed in.
- PyStr.SplitLines: only `\n`, `\r` and `\r\n` end a line. Python also splits
  on `\v`, `\f`, `\x1c`-`\x1e`, `\x85` and the Unicode line and paragraph separators.
- PyStr.ParseInt: `int()` is modelled as stripping space, tab, CR, LF, VT and
  FF, then an optional sign and ASCII digits. Python also strips `\x1c`-`\x1f`, `\x85`
  and other Unicode spaces. Underscores between digits and non-ASCII digits
  are not accepted here. The limit of 4300 digits is the default of
  `sys.get_int_max_str_digits()` in CPython 3.11 and later. Older
  interpreters without the limit also accept longer digit strings.
- PyStr.ParseIntText: stated for non-negative numbers. The validator parses
  only field 6 (scripts/nmea_generator.py:62), so no other template field is
  read back. The sign case is `PyStr.ParseIntNegative`.
- The coordinates of a `Fix` are reals of magnitude below `10^309`, the range
  of finite doubles. Rounding to a double, infinities and NaN are not
  modelled.
- Nmea.GgaFields: the altitude and minute texts are unconstrained
  parameters, so template validity is stated for comma-free texts.

## Findings

| source | as written | input that shows it | evidently intended | confidence | as-written member | corrected member |
|---|---|---|---|---|---|---|
| scripts/nmea_generator.py:33-35 (same code at scripts/ntrip_client.py:168-170) | `lat_deg = int(self.fix_latitude)` keeps the sign, truncating toward zero. Latitudes at or below -1 print negative degrees beside hemisphere `S`. Every southern latitude with a fractional part also prints negative minutes (line 34), so one between -1 and 0 prints `00` followed by negative minutes. | `fix_latitude = -33.5` gives the field `-33-30.0000,S` | degrees and minutes of the magnitude, `int(abs(lat))` as for the longitude, giving `3330.0000,S` | not executed | Nmea.AsWrittenSouthernExample | Nmea.LatDegreesUnsigned |
