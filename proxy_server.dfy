/**
 * One client connection of the proxy, `HandleClient`: read one request, check
 * its request line, refuse blocked hosts with a 403 page, otherwise rewrite the
 * request for the origin server, send it there and relay the response back.
 */
module ProxyServer {
  import opened Wrappers
  import opened Ascii
  import opened RequestLine
  import opened HttpUri
  import opened Blocklist
  import opened HostHeader
  import opened ResponseRelay
  import opened Substitution
  import opened Sequences

  /**
   * Where the connection ends: the `return`s of the source, and the calls that
   * can throw (`new Uri`, the two `Regex.Replace` calls, `new TcpClient`).
   */
  datatype Ending = Malformed | UriRejected | Blocked | ReplaceFailed | ConnectFailed | Relayed

  /** The host and port the proxy dials upstream. */
  datatype Endpoint = Endpoint(host: string, port: int)

  /**
   * What one connection produces: the bytes written to the client, the endpoint
   * dialled (if any), the bytes written to it and the console lines.
   */
  datatype Outcome = Outcome(ending: Ending, toClient: seq<byte>, dialed: Option<Endpoint>, toUpstream: seq<byte>, log: seq<string>)

  /** The console line written before the request is forwarded. */
  function ForwardLogLine(url: string): string {
    url + " - ..."
  }

  /**
   * The request text the source sends upstream: the request line, then the Host
   * header, rewritten by `Regex.Replace` with replacement strings that .NET
   * interprets. None where either call throws.
   */
  function ForwardedRequestAsWritten(request: string, verb: string, uri: Uri): Option<string> {
    match RewriteRequestLineAsWritten(request, verb, uri.pathAndQuery)
    case None => None
    case Some(rewritten) => RewriteHostAsWritten(rewritten, uri.host, uri.authority)
  }

  /**
   * The request text the code evidently means to send: the same two rewrites
   * with the path and query and the authority copied as they are.
   */
  function ForwardedRequest(request: string, verb: string, uri: Uri): string {
    RewriteHost(RewriteRequestLine(request, verb, uri.pathAndQuery), uri.host, uri.authority)
  }

  /** Text that .NET copies unchanged when it follows `$1` in a replacement string. */
  predicate CopiedLiterally(s: string) {
    '$' !in s && (s == [] || !IsDigit(s[0]))
  }

  /** `SendBlockedResponse`: the bytes written to the client and the console line. */
  function SendBlockedResponse(url: string): (r: (seq<byte>, string))
    ensures IsAsciiText(url) ==> Decode(r.0) == BlockedResponse(url)
    ensures r.1 == BlockedLogLine(url)
  {
    BlockedResponseAscii(url);
    (Encode(BlockedResponse(url)), BlockedLogLine(url))
  }

  /**
   * The handler. `clientRead` is what the single client read returns,
   * `parseUri` stands for `new Uri` (None where it throws), and `upstream` for
   * the origin server: None where `new TcpClient` throws, otherwise what its
   * successive reads return.
   */
  method HandleClient(clientRead: seq<byte>, parseUri: string -> Option<Uri>, upstream: Option<seq<seq<byte>>>)
    returns (o: Outcome)
    requires |clientRead| <= BufferSize
    requires upstream.Some? ==> forall k :: 0 <= k < |upstream.value| ==> |upstream.value[k]| <= BufferSize
    ensures var request := Decode(clientRead);
      match MatchRequestLine(request)
      case None =>
        o == Outcome(Malformed, [], None, [], [])
      case Some(line) =>
        match parseUri(line.url)
        case None =>
          o == Outcome(UriRejected, [], None, [], [])
        case Some(uri) =>
          if Blocklist.Blocked(uri.host, BlockedDomains) then
            o == Outcome(Blocked, Encode(BlockedResponse(line.url)), None, [], [BlockedLogLine(line.url)])
          else
            match ForwardedRequestAsWritten(request, line.verb, uri)
            case None =>
              o == Outcome(ReplaceFailed, [], None, [], [ForwardLogLine(line.url)])
            case Some(forwarded) =>
              o.dialed == Some(Endpoint(uri.host, uri.port)) &&
              match upstream
              case None =>
                o == Outcome(ConnectFailed, [], o.dialed, [], [ForwardLogLine(line.url)])
              case Some(received) =>
                o.ending == Relayed &&
                o.toUpstream == Encode(forwarded) &&
                o.toClient == Flatten(Delivered(received)) &&
                o.log == [ForwardLogLine(line.url)] + StatusLog(line.url, FirstStatus(Delivered(received)))
    ensures IsAsciiBytes(o.toUpstream)
    ensures o.ending == Malformed <==> MatchRequestLine(Decode(clientRead)).None?
    ensures o.ending in {Malformed, UriRejected} ==> o.toClient == [] && o.log == [] && o.dialed.None?
    ensures o.ending == Blocked ==> var url := MatchRequestLine(Decode(clientRead)).value.url;
      Decode(o.toClient) == BlockedResponse(url) && o.log == [url + " - 403 Blocked"] && o.dialed.None?
    ensures o.ending == ReplaceFailed ==> o.toClient == [] && o.dialed.None?
    ensures o.ending in {ReplaceFailed, ConnectFailed, Relayed} ==> var url := MatchRequestLine(Decode(clientRead)).value.url;
      1 <= |o.log| <= 2 && o.log[0] == url + " - ..." &&
      (|o.log| == 2 ==> exists code :: o.log[1] == url + " - " + code && |code| == 3)
    ensures o.dialed.None? ==> o.toUpstream == []
  {
    var buffer := new byte[BufferSize];
    var bytesRead := ReadChunk(buffer, [clientRead], 0);
    var request := Decode(buffer[..bytesRead]);
    var m := MatchRequestLine(request);
    if m.None? {
      return Outcome(Malformed, [], None, [], []);
    }
    var verb, fullUrl := m.value.verb, m.value.url;
    var parsed := parseUri(fullUrl);
    if parsed.None? {
      return Outcome(UriRejected, [], None, [], []);
    }
    var uri := parsed.value;
    var blocked := IsBlocked(uri);
    if blocked {
      CapturedUrlAscii(request);
      var (bytes, line) := SendBlockedResponse(fullUrl);
      return Outcome(Blocked, bytes, None, [], [line]);
    }
    var log := [ForwardLogLine(fullUrl)];
    var lineRewritten := RewriteRequestLineAsWritten(request, verb, uri.pathAndQuery);
    if lineRewritten.None? {
      return Outcome(ReplaceFailed, [], None, [], log);
    }
    var hostRewritten := RewriteHostAsWritten(lineRewritten.value, uri.host, uri.authority);
    if hostRewritten.None? {
      return Outcome(ReplaceFailed, [], None, [], log);
    }
    var modifiedRequest := hostRewritten.value;
    var target := Endpoint(uri.host, uri.port);
    if upstream.None? {
      return Outcome(ConnectFailed, [], Some(target), [], log);
    }
    var requestBytes := Encode(modifiedRequest);
    var toClient, statusLog := Relay(fullUrl, upstream.value);
    FirstStatusShape(Delivered(upstream.value));
    if |statusLog| > 0 {
      var code := FirstStatus(Delivered(upstream.value)).value;
      assert (log + statusLog)[1] == fullUrl + " - " + code;
    }
    return Outcome(Relayed, toClient, Some(target), requestBytes, log + statusLog);
  }

  lemma AsciiAppend(s: string, t: string)
    requires IsAsciiText(s) && IsAsciiText(t)
    ensures IsAsciiText(s + t)
  {
    assert forall i :: 0 <= i < |s + t| ==> (s + t)[i] == if i < |s| then s[i] else t[i - |s|];
  }

  /** The 403 page is plain ASCII around an ASCII URL, so the client gets exactly that text. */
  lemma BlockedResponseAscii(url: string)
    ensures IsAsciiText(url) ==> IsAsciiText(BlockedResponse(url))
  {
    if IsAsciiText(url) {
      var head := "HTTP/1.1 403 Forbidden\r\n" + "Content-Type: text/html\r\n\r\n" + "<html><body><h1>Blocked</h1>" + "<p>Access to ";
      var tail := " is blocked</p></body></html>";
      PageHeadAscii();
      PageBodyAscii();
      AsciiAppend("HTTP/1.1 403 Forbidden\r\n", "Content-Type: text/html\r\n\r\n");
      AsciiAppend("HTTP/1.1 403 Forbidden\r\n" + "Content-Type: text/html\r\n\r\n", "<html><body><h1>Blocked</h1>");
      AsciiAppend("HTTP/1.1 403 Forbidden\r\n" + "Content-Type: text/html\r\n\r\n" + "<html><body><h1>Blocked</h1>", "<p>Access to ");
      AsciiAppend(head, url);
      AsciiAppend(head + url, tail);
      DecodeEncode(BlockedResponse(url));
    }
  }

  /** The status line and headers of the 403 page are ASCII. */
  lemma PageHeadAscii()
    ensures IsAsciiText("HTTP/1.1 403 Forbidden\r\n")
    ensures IsAsciiText("Content-Type: text/html\r\n\r\n")
  {
  }

  /** The fixed parts of the body of the 403 page are ASCII. */
  lemma PageBodyAscii()
    ensures IsAsciiText("<html><body><h1>Blocked</h1>")
    ensures IsAsciiText("<p>Access to ")
    ensures IsAsciiText(" is blocked</p></body></html>")
  {
  }

  /**
   * What reaches the origin server after a request line ending in `\r\n`, when
   * the Host pattern occurs nowhere in the rewritten text: the method, a space,
   * the path and query, then the client's bytes from ` HTTP/1.x` on with every
   * byte from 0x80 up turned into `?`.
   */
  lemma ForwardedBytes(clientRead: seq<byte>, line: RequestLine, uri: Uri)
    requires MatchRequestLine(Decode(clientRead)) == Some(line)
    requires LineEndAt(Decode(clientRead), MatchEnd(line))
    requires var x := line.verb + " " + uri.pathAndQuery + Decode(clientRead)[UrlEnd(line)..];
      forall i :: 0 <= i <= |x| ==> !HostPatternAt(x, i, uri.host)
    ensures Encode(ForwardedRequest(Decode(clientRead), line.verb, uri)) ==
      Encode(line.verb + " " + uri.pathAndQuery) + Sanitize(clientRead[UrlEnd(line)..])
  {
    var request := Decode(clientRead);
    var e := UrlEnd(line);
    RewriteAfterMatch(request, line, uri.pathAndQuery);
    var x := line.verb + " " + uri.pathAndQuery + request[e..];
    RewriteHostWithoutMatch(x, uri.host, uri.authority);
    DecodeSuffix(clientRead, e);
    EncodeAppend(line.verb + " " + uri.pathAndQuery, request[e..]);
    EncodeDecode(clientRead[e..]);
  }

  /**
   * Without `\r\n` after the version digit the request line is not rewritten;
   * if the Host pattern does not occur either, the origin server gets the
   * client's bytes with only the bytes from 0x80 up changed (to `?`).
   */
  lemma UnterminatedLineForwardedAsIs(clientRead: seq<byte>, line: RequestLine, uri: Uri)
    requires MatchRequestLine(Decode(clientRead)) == Some(line)
    requires !LineEndAt(Decode(clientRead), MatchEnd(line))
    requires forall i :: 0 <= i <= |clientRead| ==> !HostPatternAt(Decode(clientRead), i, uri.host)
    ensures Encode(ForwardedRequest(Decode(clientRead), line.verb, uri)) == Sanitize(clientRead)
  {
    var request := Decode(clientRead);
    RewriteAfterMatch(request, line, uri.pathAndQuery);
    RewriteHostWithoutMatch(request, uri.host, uri.authority);
    EncodeDecode(clientRead);
  }

  /**
   * A request line ending in `\r\n` and one Host match, at client offset `j`:
   * the origin server gets the method, a space, the path and query, the
   * client's bytes up to the header, `Host: <authority>` and the client's bytes
   * after the matched header, with every byte from 0x80 up turned into `?`.
   * The Host pattern is looked for in the text after the request-line rewrite.
   */
  lemma ForwardedBytesWithHost(clientRead: seq<byte>, line: RequestLine, uri: Uri, j: nat)
    requires MatchRequestLine(Decode(clientRead)) == Some(line)
    requires LineEndAt(Decode(clientRead), MatchEnd(line))
    requires UrlEnd(line) <= j
    requires SoleMatchAt(line.verb + " " + uri.pathAndQuery + Decode(clientRead)[UrlEnd(line)..],
      |line.verb + " " + uri.pathAndQuery| + (j - UrlEnd(line)), uri.host)
    ensures j + MatchLength(uri.host) <= |clientRead|
    ensures Encode(ForwardedRequest(Decode(clientRead), line.verb, uri)) ==
      Encode(line.verb + " " + uri.pathAndQuery) + Sanitize(clientRead[UrlEnd(line)..j]) +
      Encode(HostPrefix + uri.authority) + Sanitize(clientRead[j + MatchLength(uri.host)..])
  {
    var request := Decode(clientRead);
    var p := line.verb + " " + uri.pathAndQuery;
    ForwardedTextWithHost(request, line, uri, j);
    EncodeForwarded(request, line.verb, uri,
      p + request[UrlEnd(line)..j] + (HostPrefix + uri.authority) + request[j + MatchLength(uri.host)..]);
    EncodeAroundHost(p, clientRead, uri, UrlEnd(line), j);
  }

  /** `ForwardedBytesWithHost` on the decoded text. */
  lemma ForwardedTextWithHost(request: string, line: RequestLine, uri: Uri, j: nat)
    requires MatchRequestLine(request) == Some(line)
    requires LineEndAt(request, MatchEnd(line))
    requires UrlEnd(line) <= j
    requires SoleMatchAt(line.verb + " " + uri.pathAndQuery + request[UrlEnd(line)..],
      |line.verb + " " + uri.pathAndQuery| + (j - UrlEnd(line)), uri.host)
    ensures j + MatchLength(uri.host) <= |request|
    ensures ForwardedRequest(request, line.verb, uri) ==
      line.verb + " " + uri.pathAndQuery + request[UrlEnd(line)..j] + (HostPrefix + uri.authority) + request[j + MatchLength(uri.host)..]
  {
    var p := line.verb + " " + uri.pathAndQuery;
    var r := p + request[UrlEnd(line)..];
    RewriteHostAfterPrefix(request, uri, p, UrlEnd(line), j);
    calc {
      ForwardedRequest(request, line.verb, uri);
      { RewriteAfterMatch(request, line, uri.pathAndQuery); ForwardedFromLine(request, line.verb, uri, r); }
      RewriteHost(r, uri.host, uri.authority);
    }
  }

  /** The Host rewrite of `p` followed by the request from `e` on, with one match, at request offset `j`. */
  lemma RewriteHostAfterPrefix(request: string, uri: Uri, p: string, e: nat, j: nat)
    requires e <= j <= |request|
    requires SoleMatchAt(p + request[e..], |p| + (j - e), uri.host)
    ensures j + MatchLength(uri.host) <= |request|
    ensures RewriteHost(p + request[e..], uri.host, uri.authority) ==
      p + request[e..j] + (HostPrefix + uri.authority) + request[j + MatchLength(uri.host)..]
  {
    var t := request[e..];
    RewriteHostSplice(p, t, uri.host, uri.authority, j - e);
    assert t[..j - e] == request[e..j];
    assert t[j - e + MatchLength(uri.host)..] == request[j + MatchLength(uri.host)..];
  }

  /** The forwarded text is the Host rewrite of whatever the request-line rewrite produced. */
  lemma ForwardedFromLine(request: string, verb: string, uri: Uri, r: string)
    requires RewriteRequestLine(request, verb, uri.pathAndQuery) == r
    ensures ForwardedRequest(request, verb, uri) == RewriteHost(r, uri.host, uri.authority)
  {
  }

  /**
   * Without `\r\n` after the version digit and with one Host match, at `j`:
   * the origin server gets the client's bytes with that header replaced by
   * `Host: <authority>` and every byte from 0x80 up turned into `?`.
   */
  lemma UnterminatedLineWithHost(clientRead: seq<byte>, line: RequestLine, uri: Uri, j: nat)
    requires MatchRequestLine(Decode(clientRead)) == Some(line)
    requires !LineEndAt(Decode(clientRead), MatchEnd(line))
    requires SoleMatchAt(Decode(clientRead), j, uri.host)
    ensures j + MatchLength(uri.host) <= |clientRead|
    ensures Encode(ForwardedRequest(Decode(clientRead), line.verb, uri)) ==
      Sanitize(clientRead[..j]) + Encode(HostPrefix + uri.authority) + Sanitize(clientRead[j + MatchLength(uri.host)..])
  {
    var request := Decode(clientRead);
    UnterminatedTextWithHost(request, line, uri, j);
    EncodeForwarded(request, line.verb, uri,
      request[..j] + (HostPrefix + uri.authority) + request[j + MatchLength(uri.host)..]);
    EncodeAroundHostAtStart(clientRead, uri, j);
  }

  /** `UnterminatedLineWithHost` on the decoded text. */
  lemma UnterminatedTextWithHost(request: string, line: RequestLine, uri: Uri, j: nat)
    requires MatchRequestLine(request) == Some(line)
    requires !LineEndAt(request, MatchEnd(line))
    requires SoleMatchAt(request, j, uri.host)
    ensures j + MatchLength(uri.host) <= |request|
    ensures ForwardedRequest(request, line.verb, uri) ==
      request[..j] + (HostPrefix + uri.authority) + request[j + MatchLength(uri.host)..]
  {
    RewriteHostSingleMatch(request, uri.host, uri.authority, j);
    calc {
      ForwardedRequest(request, line.verb, uri);
      { RewriteAfterMatch(request, line, uri.pathAndQuery); ForwardedFromLine(request, line.verb, uri, request); }
      RewriteHost(request, uri.host, uri.authority);
    }
  }

  /** Encoding text made of a prefix, two decoded slices and a header between them. */
  lemma EncodeAroundHeader(p: string, b: seq<byte>, e: nat, j: nat, k: nat, header: string)
    requires e <= j <= k <= |b|
    ensures Encode(p + Decode(b)[e..j] + header + Decode(b)[k..]) ==
      Encode(p) + Sanitize(b[e..j]) + Encode(header) + Sanitize(b[k..])
  {
    DecodeSlice(b, e, j);
    DecodeSuffix(b, k);
    EncodeDecode(b[e..j]);
    EncodeDecode(b[k..]);
    EncodeAppend(p + Decode(b)[e..j] + header, Decode(b)[k..]);
    EncodeAppend(p + Decode(b)[e..j], header);
    EncodeAppend(p, Decode(b)[e..j]);
  }

  /** Encoded bytes of the forwarded text are those of any text equal to it. */
  lemma EncodeForwarded(request: string, verb: string, uri: Uri, t: string)
    requires ForwardedRequest(request, verb, uri) == t
    ensures Encode(ForwardedRequest(request, verb, uri)) == Encode(t)
  {
  }

  /** `EncodeAroundHeader` for the rewritten Host header replacing a match at `j`. */
  lemma EncodeAroundHost(p: string, clientRead: seq<byte>, uri: Uri, e: nat, j: nat)
    requires e <= j && j + MatchLength(uri.host) <= |clientRead|
    ensures Encode(p + Decode(clientRead)[e..j] + (HostPrefix + uri.authority) + Decode(clientRead)[j + MatchLength(uri.host)..]) ==
      Encode(p) + Sanitize(clientRead[e..j]) + Encode(HostPrefix + uri.authority) + Sanitize(clientRead[j + MatchLength(uri.host)..])
  {
    EncodeAroundHeader(p, clientRead, e, j, j + MatchLength(uri.host), HostPrefix + uri.authority);
  }

  /** `EncodeAroundHost` with nothing before the first slice. */
  lemma EncodeAroundHostAtStart(clientRead: seq<byte>, uri: Uri, j: nat)
    requires j + MatchLength(uri.host) <= |clientRead|
    ensures Encode(Decode(clientRead)[..j] + (HostPrefix + uri.authority) + Decode(clientRead)[j + MatchLength(uri.host)..]) ==
      Sanitize(clientRead[..j]) + Encode(HostPrefix + uri.authority) + Sanitize(clientRead[j + MatchLength(uri.host)..])
  {
    var b := clientRead;
    EncodeAroundHost("", b, uri, 0, j);
    assert "" + Decode(b)[0..j] == Decode(b)[..j];
    assert b[0..j] == b[..j];
    assert Encode("") == [];
  }

  /**
   * When the path and query and the authority are copied literally by .NET,
   * the source sends exactly the intended request.
   */
  lemma ForwardedAgreesWhenLiteral(request: string, verb: string, uri: Uri)
    requires CopiedLiterally(uri.pathAndQuery) && CopiedLiterally(uri.authority)
    ensures ForwardedRequestAsWritten(request, verb, uri) == Some(ForwardedRequest(request, verb, uri))
  {
    AsWrittenAgreesWhenDollarFree(request, verb, uri.pathAndQuery);
    HostAsWrittenAgreesWhenSafe(RewriteRequestLine(request, verb, uri.pathAndQuery), uri.host, uri.authority);
  }

  /**
   * A path and query `/$99999999999` makes the first `Regex.Replace` throw, so
   * after the ` - ...` line nothing is dialled or sent.
   */
  lemma ForwardFailsOnHugeGroup(request: string, verb: string, uri: Uri)
    requires uri.pathAndQuery == "/$99999999999"
    ensures ForwardedRequestAsWritten(request, verb, uri) == None
  {
    AsWrittenRejectsHugeGroup(request, verb);
  }

  /** The captured URL is part of the decoded request, so it is ASCII. */
  lemma CapturedUrlAscii(text: string)
    requires IsAsciiText(text) && MatchRequestLine(text).Some?
    ensures IsAsciiText(MatchRequestLine(text).value.url)
  {
    var line := MatchRequestLine(text).value;
    var p := |line.verb| + 1 + |line.url|;
    forall i | 0 <= i < |line.url| ensures IsAsciiChar(line.url[i]) {
      assert line.url[i] == (line.verb + " " + line.url)[|line.verb| + 1 + i] == text[..p][|line.verb| + 1 + i];
    }
  }

  /** The relay logs at most one line, and that line carries a three-digit code. */
  lemma {:induction false} FirstStatusShape(chunks: seq<seq<byte>>)
    ensures FirstStatus(chunks).Some? ==> |FirstStatus(chunks).value| == 3
    decreases |chunks|
  {
    if chunks != [] {
      FirstStatusShape(chunks[..|chunks| - 1]);
      var last := chunks[|chunks| - 1];
      if ChunkStatus(last).Some? {
        ChunkStatusDigits(last);
      }
    }
  }
}
