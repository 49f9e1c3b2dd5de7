/**
 * The NTRIP client of `scripts/ntrip_client.py`: extraction of the GGA
 * line from receiver output, the caster handshake request and its success
 * rule, the GGA upload framing, the two session flags that connect,
 * disconnect and send update, and the RTCM chunk-accumulation loop.
 * Socket outcomes (a connect that fails, a reply, a send that raises, the
 * chunks `recv` returns) reach the model as parameters.
 */
module Ntrip {
  import opened Wrappers
  import opened Bytes
  import opened PyStr
  import Nmea
  import Utf8
  import Base64

  // ---------------------------------------------------------------------
  // GGA line extraction
  // ---------------------------------------------------------------------

  predicate IsGpggaLine(line: string)
  {
    StartsWith(line, "$GPGGA")
  }

  /** The first line, in order, that starts with `$GPGGA`, or "" when none does. */
  function FirstGpgga(lines: seq<string>): (r: string)
    ensures r == "" || r in lines
  {
    if lines == [] then ""
    else if IsGpggaLine(lines[0]) then lines[0]
    else FirstGpgga(lines[1..])
  }

  /** `extract_gpgga_sentence`: the first `$GPGGA` line of `data`, or "". */
  function ExtractGpggaSentence(data: string): (r: string)
    ensures r == "" || (r in SplitLines(data) && IsGpggaLine(r) && NoLineBreak(r))
  {
    var lines := SplitLines(data);
    var r := FirstGpgga(lines);
    FirstGpggaMatches(lines);
    r
  }

  /**
   * `FirstGpgga` is a first-match search: either no line matches and the
   * result is "", or the result is the line at some index `k` that matches
   * while no earlier line does.
   */
  lemma {:induction false} FirstGpggaMatches(lines: seq<string>)
    ensures var r := FirstGpgga(lines);
            || (r == "" && forall i :: 0 <= i < |lines| ==> !IsGpggaLine(lines[i]))
            || (exists k :: 0 <= k < |lines| && lines[k] == r && IsGpggaLine(r)
                  && forall j :: 0 <= j < k ==> !IsGpggaLine(lines[j]))
  {
    if lines != [] && !IsGpggaLine(lines[0]) {
      FirstGpggaMatches(lines[1..]);
      var r := FirstGpgga(lines);
      if r != "" || exists i :: 0 <= i < |lines[1..]| && IsGpggaLine(lines[1..][i]) {
        var k :| 0 <= k < |lines[1..]| && lines[1..][k] == r && IsGpggaLine(r)
                 && forall j :: 0 <= j < k ==> !IsGpggaLine(lines[1..][j]);
        assert lines[k + 1] == r;
        assert forall j :: 0 <= j < k + 1 ==> !IsGpggaLine(lines[j]) by {
          forall j | 0 <= j < k + 1 ensures !IsGpggaLine(lines[j]) {
            if j > 0 {
              assert lines[j] == lines[1..][j - 1];
            }
          }
        }
      } else {
        forall i | 0 <= i < |lines| ensures !IsGpggaLine(lines[i]) {
          if i > 0 {
            assert lines[i] == lines[1..][i - 1];
          }
        }
      }
    } else if lines != [] {
      assert lines[0] == FirstGpgga(lines);
    }
  }

  /**
   * On receiver output made of terminator-free lines, each ended by the same
   * terminator, extraction picks the first `$GPGGA` line itself.
   */
  lemma ExtractFromLines(lines: seq<string>, t: string)
    requires IsTerminator(t)
    requires forall i :: 0 <= i < |lines| ==> NoLineBreak(lines[i])
    ensures ExtractGpggaSentence(Terminated(lines, t)) == FirstGpgga(lines)
  {
    SplitLinesTerminated(lines, t);
  }

  /**
   * The same for a chunk of receiver output that ends inside a line: the
   * unterminated last line is searched too.
   */
  lemma ExtractFromChunk(lines: seq<string>, t: string, last: string)
    requires IsTerminator(t)
    requires forall i :: 0 <= i < |lines| ==> NoLineBreak(lines[i])
    requires last != [] && NoLineBreak(last)
    ensures ExtractGpggaSentence(Terminated(lines, t) + last) == FirstGpgga(lines + [last])
  {
    SplitLinesOpenLast(lines, t, last);
  }

  /**
   * A sentence of the generator's template, arriving from the receiver as
   * one terminated line, is what extraction returns, and the upload carries
   * it as a single line.
   */
  lemma TemplateSentenceExtracted(fix: Nmea.Fix, utc: Nmea.Clock, latMinutes: string, lonMinutes: string,
                                  altitude: string, t: string)
    requires IsTerminator(t)
    requires NoLineBreak(latMinutes) && NoLineBreak(lonMinutes) && NoLineBreak(altitude)
    ensures var s := Nmea.Sentence(Nmea.GgaBody(fix, utc, latMinutes, lonMinutes, altitude));
            ExtractGpggaSentence(s + t) == s && SplitLines(UploadFrame(s)) == [s, ""]
  {
    var s := Nmea.Sentence(Nmea.GgaBody(fix, utc, latMinutes, lonMinutes, altitude));
    Nmea.TemplateIsGpggaLine(fix, utc, latMinutes, lonMinutes, altitude);
    assert Terminated([s], t) == s + t;
    ExtractFromLines([s], t);
    UploadFrameLines(s);
  }

  // ---------------------------------------------------------------------
  // The caster handshake
  // ---------------------------------------------------------------------

  /** The status lines whose presence anywhere in the reply means success. */
  const SuccessTokens: seq<string> := ["ICY 200 OK", "HTTP/1.0 200 OK", "HTTP/1.1 200 OK"]

  /**
   * `any(success in response for success in [...])`: a reply that starts
   * with a token is accepted, and none shorter than the shortest token is.
   */
  function HandshakeAccepted(response: string): (accepted: bool)
    ensures accepted ==> |response| >= 10
    ensures (exists t :: t in SuccessTokens && StartsWith(response, t)) ==> accepted
  {
    Contains(response, "ICY 200 OK")
    || Contains(response, "HTTP/1.0 200 OK")
    || Contains(response, "HTTP/1.1 200 OK")
  }

  /** The reply is accepted exactly when one of the three tokens occurs in it at some position. */
  lemma HandshakeAcceptedIff(response: string)
    ensures HandshakeAccepted(response)
            <==> exists t, i :: t in SuccessTokens && OccursAt(response, t, i)
  {
    ContainsIff(response, "ICY 200 OK");
    ContainsIff(response, "HTTP/1.0 200 OK");
    ContainsIff(response, "HTTP/1.1 200 OK");
    if exists t, i :: t in SuccessTokens && OccursAt(response, t, i) {
      var t, i :| t in SuccessTokens && OccursAt(response, t, i);
      assert t == "ICY 200 OK" || t == "HTTP/1.0 200 OK" || t == "HTTP/1.1 200 OK";
    }
  }

  /**
   * ISO-8859-1 decoding of the caster's reply: every octet is the character
   * with the same code, so the decoding never fails.
   */
  function Latin1Decode(bs: seq<byte>): (s: string)
    ensures |s| == |bs|
    ensures forall i :: 0 <= i < |bs| ==> s[i] as int == bs[i]
  {
    if bs == [] then [] else [bs[0] as char] + Latin1Decode(bs[1..])
  }

  /** ISO-8859-1 encoding of characters below 256. */
  function Latin1Encode(s: string): (bs: seq<byte>)
    requires forall i :: 0 <= i < |s| ==> s[i] as int < 256
    ensures |bs| == |s|
  {
    if s == [] then [] else [s[0] as int as byte] + Latin1Encode(s[1..])
  }

  /** Decoding and encoding are inverse: no reply loses or changes an octet. */
  lemma {:induction false} Latin1RoundTrip(bs: seq<byte>)
    ensures Latin1Encode(Latin1Decode(bs)) == bs
  {
    if bs != [] {
      Latin1RoundTrip(bs[1..]);
    }
  }

  /** A reply shorter than the shortest token, `ICY 200 OK`, is never accepted. */
  lemma ShortReplyRejected(response: string)
    requires |response| < 10
    ensures !HandshakeAccepted(response)
  {
    HandshakeAcceptedIff(response);
  }

  /** A reply that starts with any of the tokens is accepted, whatever follows. */
  lemma TokenReplyAccepted(token: string, rest: string)
    requires token in SuccessTokens
    ensures HandshakeAccepted(token + rest)
  {
    HandshakeAcceptedIff(token + rest);
    assert (token + rest)[0..|token|] == token;
    assert OccursAt(token + rest, token, 0);
  }

  // ---------------------------------------------------------------------
  // The caster request
  // ---------------------------------------------------------------------

  /**
   * `base64.b64encode(f"{username}:{password}".encode()).decode()`: whole
   * four-character groups of the Base64 alphabet and `=` padding.
   */
  function Credentials(username: string, password: string): (c: string)
    ensures |c| % 4 == 0
    ensures forall i :: 0 <= i < |c| ==> Base64.IsLetter(c[i]) || c[i] == '='
  {
    var bs := Utf8.Encode(username + ":" + password);
    var c := Base64.Encode(bs);
    Base64.EncodeAlphabet(bs);
    GroupsOfFour((|bs| + 2) / 3);
    c
  }

  lemma GroupsOfFour(groups: int)
    ensures (4 * groups) % 4 == 0
  {
  }

  /** The credentials decode back to exactly `username:password`. */
  lemma CredentialsDecode(username: string, password: string)
    ensures Base64.Decode(Credentials(username, password)) == Some(Utf8.Encode(username + ":" + password))
    ensures Utf8.Decode(Utf8.Encode(username + ":" + password)) == Some(username + ":" + password)
  {
    Base64.DecodeEncode(Utf8.Encode(username + ":" + password));
    Utf8.DecodeEncode(username + ":" + password);
  }

  /** The lines of the request, without their CRLF terminators. */
  function RequestLines(mountpoint: string, host: string, credentials: string): (ls: seq<string>)
    ensures |ls| == 6 && StartsWith(ls[0], "GET /" + mountpoint + " ") && ls[5] == ""
  {
    [ "GET /" + mountpoint + " HTTP/1.1",
      "Host: " + host,
      "Ntrip-Version: Ntrip/1.0",
      "User-Agent: NTRIP PythonClient/1.0",
      "Authorization: Basic " + credentials,
      "" ]
  }

  /**
   * The request text of `connect_ntrip_server`: each line followed by
   * CRLF, so that it opens with the request line and ends with the empty
   * line that closes the header.
   */
  function Request(mountpoint: string, host: string, credentials: string): (r: string)
    ensures StartsWith(r, "GET /" + mountpoint + " HTTP/1.1\r\n")
    ensures |r| >= 4 && r[|r| - 4..] == "\r\n\r\n"
  {
    var first := ("GET /" + mountpoint + " HTTP/1.1") + "\r\n";
    var last := ("Authorization: Basic " + credentials) + "\r\n" + "" + "\r\n";
    var r := first
      + ("Host: " + host) + "\r\n"
      + "Ntrip-Version: Ntrip/1.0" + "\r\n"
      + "User-Agent: NTRIP PythonClient/1.0" + "\r\n"
      + ("Authorization: Basic " + credentials) + "\r\n"
      + "" + "\r\n";
    assert r[..|first|] == first;
    assert last[|last| - 4..] == "\r\n\r\n";
    assert r[|r| - 4..] == last[|last| - 4..];
    r
  }

  /** Six lines, each followed by `t`. */
  lemma TerminatedSix(a: string, b: string, c: string, d: string, e: string, f: string, t: string)
    ensures Terminated([a, b, c, d, e, f], t) == a + t + b + t + c + t + d + t + e + t + f + t
  {
    var l1, l2, l3, l4, l5 := [a], [a, b], [a, b, c], [a, b, c, d], [a, b, c, d, e];
    TerminatedSnoc([], a, t);
    assert [] + [a] == l1;
    TerminatedSnoc(l1, b, t);
    assert l1 + [b] == l2;
    TerminatedSnoc(l2, c, t);
    assert l2 + [c] == l3;
    TerminatedSnoc(l3, d, t);
    assert l3 + [d] == l4;
    TerminatedSnoc(l4, e, t);
    assert l4 + [e] == l5;
    TerminatedSnoc(l5, f, t);
    assert l5 + [f] == [a, b, c, d, e, f];
  }

  /** The request is its six lines, each CRLF-terminated, the last one empty. */
  lemma RequestIsTerminatedLines(mountpoint: string, host: string, credentials: string)
    ensures Request(mountpoint, host, credentials)
            == Terminated(RequestLines(mountpoint, host, credentials), "\r\n")
  {
    TerminatedSix("GET /" + mountpoint + " HTTP/1.1", "Host: " + host, "Ntrip-Version: Ntrip/1.0",
                  "User-Agent: NTRIP PythonClient/1.0", "Authorization: Basic " + credentials, "", "\r\n");
  }

  /** Every request line is break-free when mountpoint, host and credentials are. */
  lemma RequestLinesNoBreak(mountpoint: string, host: string, credentials: string)
    requires NoLineBreak(mountpoint) && NoLineBreak(host) && NoLineBreak(credentials)
    ensures var ls := RequestLines(mountpoint, host, credentials);
            forall i :: 0 <= i < |ls| ==> NoLineBreak(ls[i])
  {
    HeaderTextsNoBreak();
    AppendNoLineBreak("GET /", mountpoint);
    AppendNoLineBreak("GET /" + mountpoint, " HTTP/1.1");
    AppendNoLineBreak("Host: ", host);
    AppendNoLineBreak("Authorization: Basic ", credentials);
  }

  /** The fixed texts of the request hold no line break. */
  lemma HeaderTextsNoBreak()
    ensures NoLineBreak("GET /") && NoLineBreak(" HTTP/1.1") && NoLineBreak("Host: ")
    ensures NoLineBreak("Ntrip-Version: Ntrip/1.0")
    ensures NoLineBreak("User-Agent: NTRIP PythonClient/1.0")
    ensures NoLineBreak("Authorization: Basic ") && NoLineBreak("")
  {
  }

  /** Base64 text holds no line break. */
  lemma CredentialsNoBreak(username: string, password: string)
    ensures NoLineBreak(Credentials(username, password))
  {
    var cred := Credentials(username, password);
    Base64.EncodeAlphabet(Utf8.Encode(username + ":" + password));
    forall i | 0 <= i < |cred| ensures !IsLineBreak(cred[i]) {
      assert Base64.IsLetter(cred[i]) || cred[i] == '=';
    }
  }

  /**
   * When mountpoint and host hold no line break, a caster reading the
   * request line by line sees exactly the request line, the four headers
   * and the empty line that ends the header block.
   */
  lemma RequestSplitsIntoLines(mountpoint: string, host: string, username: string, password: string)
    requires NoLineBreak(mountpoint) && NoLineBreak(host)
    ensures var cred := Credentials(username, password);
            SplitLines(Request(mountpoint, host, cred)) == RequestLines(mountpoint, host, cred)
  {
    var cred := Credentials(username, password);
    CredentialsNoBreak(username, password);
    RequestIsTerminatedLines(mountpoint, host, cred);
    RequestLinesNoBreak(mountpoint, host, cred);
    SplitLinesTerminated(RequestLines(mountpoint, host, cred), "\r\n");
  }

  // ---------------------------------------------------------------------
  // GGA upload framing
  // ---------------------------------------------------------------------

  /** `f"{gpgga_sentence}\r\n\r\n"`: the sentence, then CRLF twice. */
  function UploadFrame(sentence: string): (f: string)
    ensures StartsWith(f, sentence) && f[|sentence|..] == "\r\n\r\n"
  {
    var f := sentence + "\r\n\r\n";
    assert f[..|sentence|] == sentence;
    f
  }

  /** The caster reads an upload as the sentence line followed by one empty line. */
  lemma UploadFrameLines(sentence: string)
    requires NoLineBreak(sentence)
    ensures SplitLines(UploadFrame(sentence)) == [sentence, ""]
  {
    var ls := [sentence, ""];
    assert Terminated(ls[1..], "\r\n") == "\r\n";
    assert UploadFrame(sentence) == Terminated(ls, "\r\n");
    SplitLinesTerminated([sentence, ""], "\r\n");
  }

  // ---------------------------------------------------------------------
  // RTCM chunk accumulation
  // ---------------------------------------------------------------------

  /** The octets of `chunks`, in order. */
  function Flatten(chunks: seq<seq<byte>>): (r: seq<byte>)
  {
    if chunks == [] then [] else Flatten(chunks[..|chunks| - 1]) + chunks[|chunks| - 1]
  }

  /**
   * The index of the first chunk shorter than `size`, which ends the read
   * loop; `None` when every chunk is full-sized.
   */
  function FirstShort(chunks: seq<seq<byte>>, size: int): (r: Option<nat>)
    ensures r.Some? ==> r.value < |chunks| && |chunks[r.value]| < size
    ensures r.Some? ==> forall j :: 0 <= j < r.value ==> |chunks[j]| >= size
    ensures r.None? ==> forall j :: 0 <= j < |chunks| ==> |chunks[j]| >= size
  {
    if chunks == [] then None
    else if |chunks[0]| < size then Some(0)
    else match FirstShort(chunks[1..], size)
      case None => None
      case Some(k) => Some(k + 1)
  }

  /**
   * `recv(chunk_size)` never returns more than `chunk_size` octets, so every
   * chunk before the short one is exactly `chunk_size` long.
   */
  lemma FullChunksBeforeShort(chunks: seq<seq<byte>>, size: int, k: nat)
    requires forall j :: 0 <= j < |chunks| ==> |chunks[j]| <= size
    requires FirstShort(chunks, size) == Some(k)
    ensures forall j :: 0 <= j < k ==> |chunks[j]| == size
  {
  }

  /** The octets gathered are the chunks' octets: lengths add up. */
  lemma {:induction false} FlattenLength(chunks: seq<seq<byte>>)
    ensures |Flatten(chunks)| == SumLengths(chunks)
  {
    if chunks != [] {
      FlattenLength(chunks[..|chunks| - 1]);
      SumLengthsLast(chunks);
    }
  }

  function SumLengths(chunks: seq<seq<byte>>): nat
  {
    if chunks == [] then 0 else |chunks[0]| + SumLengths(chunks[1..])
  }

  lemma {:induction false} SumLengthsLast(chunks: seq<seq<byte>>)
    requires chunks != []
    ensures SumLengths(chunks) == SumLengths(chunks[..|chunks| - 1]) + |chunks[|chunks| - 1]|
  {
    if |chunks| > 1 {
      SumLengthsLast(chunks[1..]);
      assert chunks[1..][..|chunks[1..]| - 1] == chunks[..|chunks| - 1][1..];
    }
  }

  /** A parsed RTCM3 frame: its message identity and payload octets. */
  datatype RtcmMessage = RtcmMessage(identity: nat, payload: seq<byte>)

  /** What one pass of the RTCM relay loop does. */
  datatype RtcmStep =
    | Skipped                            // no GGA sent yet: sleep and retry
    | NoData                             // an empty read
    | Forwarded(payload: seq<byte>)      // the parsed payload goes to the receiver
    | TimedOut                           // a socket timeout ends the loop
    | Dropped                            // any other error ends the loop and the session

  /**
   * How `recv` fails once the chunks it returned run out: `socket.timeout`
   * or any other exception (a reset connection, say).
   */
  datatype RecvEnd = Timeout | Error

  /** The outcome of the inner read loop: the octets gathered, or the exception it raised. */
  datatype ReadOutcome = Received(octets: seq<byte>) | Raised(end: RecvEnd)

  /**
   * The inner read loop over successive `recv(size)` results `chunks`,
   * after which `recv` raises `end`. A negative size makes the first
   * `recv` raise `ValueError`. Otherwise the loop gathers every chunk up
   * to and including the first one shorter than `size`; when no such
   * chunk comes, the exception ends it.
   */
  function ReadOutcomeOf(chunks: seq<seq<byte>>, size: int, end: RecvEnd): (r: ReadOutcome)
    ensures r.Received? ==>
              && 0 <= size
              && exists k :: && 0 <= k < |chunks| && |chunks[k]| < size
                             && (forall j :: 0 <= j < k ==> |chunks[j]| >= size)
                             && r.octets == Flatten(chunks[..k + 1])
    ensures r.Raised? ==> r.end == (if size < 0 then Error else end)
    ensures r.Raised? && 0 <= size ==> forall j :: 0 <= j < |chunks| ==> |chunks[j]| >= size
  {
    if size < 0 then Raised(Error)
    else match FirstShort(chunks, size)
      case Some(k) => Received(Flatten(chunks[..k + 1]))
      case None => Raised(end)
  }

  /** The configuration record `load_config` reads. */
  datatype Config = Config(
    gnssHost: string, gnssPort: int,
    ntripHost: string, ntripPort: int,
    mountpoint: string, username: string, password: string,
    fix: Nmea.Fix, chunkSize: int)

  /** The caster-side session state of `NtripClient`. */
  class NtripClient {
    const config: Config
    const credentials: string
    var ntripConnected: bool
    var nmeaRequestSent: bool

    /** `__init__`, after `load_config`: both flags start false. */
    constructor (config: Config)
      ensures this.config == config
      ensures credentials == Credentials(config.username, config.password)
      ensures !ntripConnected && !nmeaRequestSent
    {
      this.config := config;
      credentials := Credentials(config.username, config.password);
      ntripConnected := false;
      nmeaRequestSent := false;
    }

    /**
     * `connect_ntrip_server`. `tcpConnected` is whether the TCP connect
     * succeeded; `reply` is what `recv(1024)` returned, at most 1024
     * octets, or `None` when it raised.
     * The request is sent only after a successful connect. The call
     * succeeds, and marks the session connected, exactly when the reply,
     * read as ISO-8859-1, holds a success token; otherwise the flag keeps
     * its old value.
     */
    method ConnectNtripServer(tcpConnected: bool, reply: Option<seq<byte>>)
      returns (ok: bool, request: Option<seq<byte>>)
      requires reply.Some? ==> |reply.value| <= 1024
      modifies this
      ensures request == if tcpConnected then Some(Utf8.Encode(Request(config.mountpoint, config.ntripHost, credentials))) else None
      ensures ok == (tcpConnected && reply.Some? && HandshakeAccepted(Latin1Decode(reply.value)))
      ensures ntripConnected == (ok || old(ntripConnected))
      ensures nmeaRequestSent == old(nmeaRequestSent)
    {
      if !tcpConnected {
        return false, None;
      }
      var text := Request(config.mountpoint, config.ntripHost, credentials);
      request := Some(Utf8.Encode(text));
      if reply.None? {
        return false, request;
      }
      var response := Latin1Decode(reply.value);
      if HandshakeAccepted(response) {
        ntripConnected := true;
        return true, request;
      }
      return false, request;
    }

    /**
     * `disconnect_ntrip_server`: the flag is cleared first, so the session
     * is disconnected whether or not shutdown and close succeed.
     */
    method DisconnectNtripServer()
      modifies this
      ensures !ntripConnected
      ensures nmeaRequestSent == old(nmeaRequestSent)
    {
      ntripConnected := false;
    }

    /**
     * `send_nmea_to_ntrip_server`. When disconnected nothing is written and
     * the flags stay. When connected the UTF-8 octets of
     * `sentence + "\r\n\r\n"` are handed to `send`; `sendOk` says whether
     * `send` returned, and `nmeaRequestSent` becomes exactly that. `written`
     * is what was handed over: when `send` raised, or sent only a prefix
     * (its count is not checked), less of it reached the caster.
     */
    method SendNmeaToNtripServer(sentence: string, sendOk: bool) returns (written: Option<seq<byte>>)
      modifies this
      ensures !old(ntripConnected) ==> written == None && nmeaRequestSent == old(nmeaRequestSent)
      ensures old(ntripConnected) ==> written == Some(Utf8.Encode(UploadFrame(sentence))) && nmeaRequestSent == sendOk
      ensures ntripConnected == old(ntripConnected)
    {
      if !ntripConnected {
        return None;
      }
      var request := UploadFrame(sentence);
      written := Some(Utf8.Encode(request));
      nmeaRequestSent := sendOk;
    }

    /**
     * One pass of the receiver-reading loop of `read_nmea_and_send_to_server`
     * on the octets `received` from the receiver. Octets that are not UTF-8
     * raise in `decode` and are dropped; an empty message is not uploaded,
     * nor is an acknowledgement (any message containing "COM"); any other
     * message has its `$GPGGA` line uploaded, even when there is none and
     * the line is "". `written` is the octets handed to `send`.
     */
    method HandleGnssMessage(received: seq<byte>, sendOk: bool) returns (written: Option<seq<byte>>)
      modifies this
      ensures var m := Utf8.Decode(received);
              if m.Some? && m.value != "" && !Contains(m.value, "COM") && old(ntripConnected)
              then written == Some(Utf8.Encode(UploadFrame(ExtractGpggaSentence(m.value))))
                   && nmeaRequestSent == sendOk
              else written == None && nmeaRequestSent == old(nmeaRequestSent)
      ensures ntripConnected == old(ntripConnected)
    {
      var decoded := Utf8.Decode(received);
      if decoded.None? {
        return None;
      }
      var message := decoded.value;
      if message == "" || Contains(message, "COM") {
        return None;
      }
      var gpgga := ExtractGpggaSentence(message);
      written := SendNmeaToNtripServer(gpgga, sendOk);
    }

    /**
     * `generate_gga_sentence` of the client, a copy of the generator's: the
     * configured fix in the GGA template, checksummed and framed.
     */
    method GenerateGgaSentence(utc: Nmea.Clock, latMinutes: string, lonMinutes: string, altitude: string)
      returns (sentence: string)
      ensures sentence == Nmea.Sentence(Nmea.GgaBody(config.fix, utc, latMinutes, lonMinutes, altitude))
    {
      sentence := Nmea.GenerateGgaSentence(config.fix, utc, latMinutes, lonMinutes, altitude);
    }

    /**
     * The inner loop of `read_rtcm_and_send_to_gnss`: `recv(chunk_size)` is
     * appended until a chunk shorter than `chunk_size` arrives. `chunks` is
     * what successive `recv` calls return, and `end` what the next one
     * raises once they run out.
     */
    method ReadRtcm(chunks: seq<seq<byte>>, end: RecvEnd) returns (res: ReadOutcome)
      ensures res == ReadOutcomeOf(chunks, config.chunkSize, end)
    {
      if config.chunkSize < 0 {
        return Raised(Error);
      }
      var rtcmRes: seq<byte> := [];
      var i := 0;
      while i < |chunks|
        invariant 0 <= i <= |chunks|
        invariant rtcmRes == Flatten(chunks[..i])
        invariant forall j :: 0 <= j < i ==> |chunks[j]| >= config.chunkSize
      {
        var chunk := chunks[i];
        assert chunks[..i + 1][..i] == chunks[..i];
        rtcmRes := rtcmRes + chunk;
        i := i + 1;
        if |chunk| < config.chunkSize {
          FirstShortAt(chunks, config.chunkSize, i - 1);
          return Received(rtcmRes);
        }
      }
      FirstShortNone(chunks, config.chunkSize);
      return Raised(end);
    }

    /**
     * One pass of the `read_rtcm_and_send_to_gnss` loop, which runs only
     * while `ntripConnected` holds. Before any GGA
     * upload succeeded the pass is skipped. A timeout ends the loop and
     * leaves the session flags alone; an empty read forwards nothing; the
     * octets read go to the RTCM parser, whose payload is forwarded to the
     * receiver. Any other error, from `recv` or from the parser (`None`),
     * clears `ntripConnected` and ends the loop.
     */
    method RtcmIteration(chunks: seq<seq<byte>>, end: RecvEnd, parse: seq<byte> -> Option<RtcmMessage>)
      returns (step: RtcmStep)
      requires ntripConnected
      modifies this
      ensures !old(nmeaRequestSent) ==> step == Skipped
      ensures old(nmeaRequestSent) ==>
                step == match ReadOutcomeOf(chunks, config.chunkSize, end)
                  case Raised(Timeout) => TimedOut
                  case Raised(Error) => Dropped
                  case Received(data) =>
                    if data == [] then NoData
                    else if parse(data).None? then Dropped
                    else Forwarded(parse(data).value.payload)
      ensures ntripConnected == (old(ntripConnected) && step != Dropped)
      ensures nmeaRequestSent == old(nmeaRequestSent)
    {
      if !nmeaRequestSent {
        return Skipped;
      }
      var res := ReadRtcm(chunks, end);
      if res == Raised(Timeout) {
        return TimedOut;
      }
      if res.Raised? {
        ntripConnected := false;
        return Dropped;
      }
      var data := res.octets;
      if data == [] {
        return NoData;
      }
      var msg := parse(data);
      if msg.None? {
        ntripConnected := false;
        return Dropped;
      }
      return Forwarded(msg.value.payload);
    }
  }

  lemma {:induction false} FirstShortAt(chunks: seq<seq<byte>>, size: int, i: nat)
    requires i < |chunks| && |chunks[i]| < size
    requires forall j :: 0 <= j < i ==> |chunks[j]| >= size
    ensures FirstShort(chunks, size) == Some(i)
  {
    if i > 0 {
      FirstShortAt(chunks[1..], size, i - 1);
    }
  }

  /** With every chunk full-sized there is no short chunk. */
  lemma {:induction false} FirstShortNone(chunks: seq<seq<byte>>, size: int)
    requires forall j :: 0 <= j < |chunks| ==> |chunks[j]| >= size
    ensures FirstShort(chunks, size) == None
  {
    if chunks != [] {
      FirstShortNone(chunks[1..], size);
    }
  }
}
