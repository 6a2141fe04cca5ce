# ProxyServer: a verified model of one client connection

The proxy listens for HTTP clients that use the absolute-URI proxy form. For each
connection `HandleClient` does the following:

- It reads one buffer of at most 4096 bytes and decodes it as ASCII.
- It checks the request line against
  `^(GET|POST|PUT|DELETE|HEAD|OPTIONS) (http://[^ ]+) HTTP/1.[01]`.
- It refuses hosts that contain a blocklisted domain, with a fixed 403 page.
- Otherwise it rewrites the request line to origin form and the `Host` header to
  the URI's authority, encodes the text as ASCII and sends it to the origin.
- It relays every response chunk back to the client. The status code is logged
  once, for the first chunk that shows `HTTP/1.[01] ddd`.

The model treats one connection as a function of its inputs:

- what the client read returns;
- the parsed URI, given as a function, since .NET's `Uri` is not part of this model;
- the origin's successive reads, or `None` where the connection cannot be opened.

The result is an `Outcome`: how the connection ended, the bytes the client got,
the endpoint dialled, the bytes sent upstream and the console lines.

Modules, one per concern of `ProxyServer/Program.cs`:

- `Ascii` (ascii.dfy): `Encoding.ASCII` decoding and encoding, where bytes from 0x80 up decode to `?`.
- `Blocklist`, `HttpUri` (blocklist.dfy): `IsBlocked`, the 403 page and its log line.
- `RequestLine` (request_line.dfy): the request-line match and the anchored request-line rewrite.
- `HostHeader` (host_header.dfy): the global `Host:` rewrite. Each `.` in the host is a wildcard for any character except a line feed.
- `Substitution` (substitution.dfy): how .NET reads `$` in a replacement string.
  - `$n` and `${n}` with the longest digit run; the `$` stays literal when no group has that number.
  - `$$`, `$&`, `` $` ``, `$'`, `$+`, `$_`.
  - An exception for a group number above Int32.MaxValue.
- `ResponseRelay` (relay.dfy): the 4096-byte buffer, the relay loop and its `statusCodeLogged` flag.
- `ProxyServer` (proxy_server.dfy): `HandleClient` and `SendBlockedResponse`.
- `Wrappers` and `Sequences`: `Option`, and two facts about concatenation.

The substitution strings `"$1" + uri.PathAndQuery + "$2"` and `"$1" + uri.Authority`
are interpreted by .NET, not copied. The model keeps both readings of each rewrite:

- the **as-written** one, which goes through `Substitution.Parse`;
- the **literal** one, which splices the URI part in as text.

It proves where they agree and exhibits inputs where they do not (see Findings).
`HandleClient` follows the code as written: both replacement strings are interpreted,
and a replacement string that .NET rejects ends the connection after the ` - ...` line
(`ReplaceFailed`). The literal reading is what the code evidently means; the lemmas
about the forwarded bytes are stated for it, and `ForwardedAgreesWhenLiteral` carries
them over to the code whenever neither the path and query nor the authority contains
a `$` or starts with a digit.

## Model

| member | source | states |
|---|---|---|
| Ascii.Decode | ProxyServer/Program.cs:35 | `GetString` yields one character per byte, and every character is ASCII |
| Ascii.Encode | ProxyServer/Program.cs:62 | `GetBytes` yields one byte per character, and every byte is below 0x80 |
| Ascii.EncodeDecode | ProxyServer/Program.cs:35 | decoding and then encoding keeps each byte below 0x80 and turns every other byte into `?` (0x3F) |
| Ascii.DecodeEncode | ProxyServer/Program.cs:62 | encoding and then decoding gives back any ASCII text |
| Ascii.EncodeAppend | ProxyServer/Program.cs:62 | encoding distributes over concatenation |
| Ascii.DecodeSuffix | ProxyServer/Program.cs:35 | decoding commutes with taking a suffix |
| Ascii.DecodeSlice | ProxyServer/Program.cs:35 | decoding commutes with taking any slice |
| Ascii.SanitizeAscii | ProxyServer/Program.cs:35 | bytes that are already ASCII pass the round trip unchanged |
| Blocklist.ContainsSpec | ProxyServer/Program.cs:92 | ordinal `Contains` holds exactly when the domain occurs at some position of the host |
| Blocklist.IsBlocked | ProxyServer/Program.cs:88-95 | the loop with its early return answers true exactly when some listed domain is contained in the host |
| Blocklist.BlockedOrderFree | ProxyServer/Program.cs:12 | two lists with the same entries, in any order and with any repetition, give the same decision |
| Blocklist.BlockedByOccurrence | ProxyServer/Program.cs:12 | an occurrence of a listed domain anywhere in the host blocks it |
| Blocklist.AdmittedHasNoOccurrence | ProxyServer/Program.cs:12 | an admitted host contains no listed domain at any position |
| Blocklist.SubstringExamples | ProxyServer/Program.cs:12 | `sub.example.com` and `notgoogle.com` are blocked, and `localhost` is not |
| RequestLine.UrlRun | ProxyServer/Program.cs:37 | the run of non-spaces after `<method> http://` stays inside the text and holds no space |
| RequestLine.MatchWith | ProxyServer/Program.cs:37 | a match of one method's alternative captures that method, and its captures are `Recognised` |
| RequestLine.MatchFrom | ProxyServer/Program.cs:37 | trying the methods in order finds a listed method, and the match is that method's alternative |
| RequestLine.MatchRequestLine | ProxyServer/Program.cs:37-41 | a captured URL starts with `http://` and is longer than the scheme; it contains no space; the text starts with method, space, URL and ` HTTP/1.[01]` |
| RequestLine.ShapeUnique | ProxyServer/Program.cs:37 | the grammar reads a text in at most one way, with one method and one URL length |
| RequestLine.MatchWithExact | ProxyServer/Program.cs:37 | one alternative matches exactly the texts of its own grammar, both directions |
| RequestLine.MatchRequestLineExact | ProxyServer/Program.cs:37-41 | the matcher succeeds exactly on texts of the grammar `Shape`, and then returns the captures that the grammar fixes |
| RequestLine.MatchRewrite | ProxyServer/Program.cs:54 | where the rewrite pattern matches, group 2 lies after the method's space and leaves room for ` HTTP/1.x\r\n` |
| RequestLine.RewriteAfterMatch | ProxyServer/Program.cs:52-56 | after a recognised line followed by `\r\n`, the URL becomes the path and query and everything from ` HTTP/1.x` on is kept; without `\r\n` the text is unchanged |
| RequestLine.MatchRewriteAfterMatch | ProxyServer/Program.cs:52-56 | the rewrite pattern fires exactly when the recognised line is followed by `\r\n`, with group 2 at the URL's end |
| RequestLine.ReplaceBetweenGroups | ProxyServer/Program.cs:52-56 | replacing with the pieces `$1`, literal text, `$2` is the literal splice |
| RequestLine.AsWrittenAgreesWhenDollarFree | ProxyServer/Program.cs:52-56 | when the path has no `$` and does not start with a digit, the as-written rewrite equals the literal one |
| RequestLine.AsWrittenCollapsesDollars | ProxyServer/Program.cs:55 | with the path `/$$` the as-written rewrite sends `/$`, while the literal rewrite sends `/$$` |
| RequestLine.AsWrittenRejectsHugeGroup | ProxyServer/Program.cs:52-56 | with the path `/$99999999999` the as-written rewrite throws, whatever the request |
| Substitution.Parse | ProxyServer/Program.cs:55-57 | every group that a parsed replacement names exists in the pattern |
| Substitution.ParseLiteralText | ProxyServer/Program.cs:55-57 | text without `$` parses to its own characters as literals |
| Substitution.GroupThenLiteralText | ProxyServer/Program.cs:55-57 | `$n` for an existing group, followed by dollar-free text that does not start with a digit, is that group followed by the literals |
| Substitution.ParseDoubleDollar | ProxyServer/Program.cs:55 | `$$` reads as one literal dollar sign |
| Substitution.ParseBetweenGroups | ProxyServer/Program.cs:55 | `"$1" + x + "$2"` is group 1, the literals of `x`, group 2, when `x` is dollar-free and does not start with a digit |
| Substitution.ParseDoubledDollarPath | ProxyServer/Program.cs:55 | `"$1/$$$2"` parses as group 1, `/`, `$`, group 2 |
| Substitution.ParseAfterGroup | ProxyServer/Program.cs:57 | `"$1" + x` is group 1 followed by the literals of `x`, under the same condition on `x` |
| Substitution.ParseUnknownGroup | ProxyServer/Program.cs:57 | `$` before a number that names no group, within the Int32 range, stays a literal `$` |
| Substitution.ExpandLiterals | ProxyServer/Program.cs:55-57 | literal pieces produce exactly the text they were read from |
| Substitution.ExpandBetweenGroups | ProxyServer/Program.cs:55 | group 1, literals, group 2 expand to the groups' text with the literal text between them |
| Substitution.ExpandAfterGroup | ProxyServer/Program.cs:57 | group 1 and literals expand to group 1's text followed by the literal text |
| Substitution.GroupNumberAfterOne | ProxyServer/Program.cs:57 | `1` followed by one to eight digits is a group number from 10 up to Int32.MaxValue |
| Substitution.ParseOverflowingGroup | ProxyServer/Program.cs:55 | `$` before a digit run whose value exceeds Int32.MaxValue makes the parse fail, whatever follows |
| Substitution.GroupThenOverflow | ProxyServer/Program.cs:55 | group 1, dollar-free text, then such a `$` and digit run: the whole replacement is rejected |
| Substitution.ParseHugeGroupPath | ProxyServer/Program.cs:55 | `"$1/$99999999999$2"` is rejected |
| HostHeader.PatternShift | ProxyServer/Program.cs:57 | the pattern matches in a suffix exactly where it matches in the whole text, shifted |
| HostHeader.HostMatchesItself | ProxyServer/Program.cs:57 | the pattern built from a host matches `Host: ` followed by that host |
| HostHeader.RewriteHostWithoutMatch | ProxyServer/Program.cs:57 | text in which the pattern matches nowhere is left unchanged |
| HostHeader.RewriteHostAtFirstMatch | ProxyServer/Program.cs:57 | the text before the leftmost match is kept, that match becomes `Host: <authority>`, and the scan goes on after it |
| HostHeader.RewriteHostSingleMatch | ProxyServer/Program.cs:57 | a text with exactly one match: that match becomes `Host: <authority>` and every other character is kept |
| HostHeader.RewriteHostSplice | ProxyServer/Program.cs:57 | the same for a text in two parts, with the match inside the second |
| HostHeader.RewriteHostKeepsLiteralHeader | ProxyServer/Program.cs:57 | with the authority equal to the host, text whose every match reads `Host: <host>` is left unchanged |
| HostHeader.RewriteHostHeaderOnly | ProxyServer/Program.cs:57 | `Host: <host>` followed by match-free text: only that header changes, to the authority |
| HostHeader.RewriteHostRepeatsPort | ProxyServer/Program.cs:57 | the rewrite is not idempotent: when the header already carries the port, a second rewrite adds it again |
| HostHeader.ReplaceHostFromLiteral | ProxyServer/Program.cs:57 | the global replacement with the pieces of `"$1" + x` is the literal scan |
| HostHeader.HostAsWrittenAgreesWhenSafe | ProxyServer/Program.cs:57 | when the authority has no `$` and does not start with a digit, the as-written rewrite equals the literal one |
| HostHeader.DigitsAfterOneAreNoGroup | ProxyServer/Program.cs:57 | for an authority starting with a digit, `"$1" + authority` names no group and parses to its own characters |
| HostHeader.HostAsWrittenDropsPrefix | ProxyServer/Program.cs:57 | for such an authority the as-written rewrite of `Host: <host>` is `$1<authority>`, while the literal one is `Host: <authority>` |
| ResponseRelay.FindStatus | ProxyServer/Program.cs:76 | the leftmost position where `HTTP/1.[01] ddd` matches, or none when it matches nowhere |
| ResponseRelay.DeliveredCount | ProxyServer/Program.cs:69 | the chunks before the first read that returns 0 are all non-empty, and the read after them returns 0 |
| ResponseRelay.ReadChunk | ProxyServer/Program.cs:69 | a read copies its chunk into the front of the buffer and returns its length; past the last chunk it returns 0 |
| ResponseRelay.Relay | ProxyServer/Program.cs:65-83 | the client gets exactly the delivered chunks in order, and the log holds the status of the earliest chunk showing one |
| ResponseRelay.FlattenAppend | ProxyServer/Program.cs:71 | the client's bytes for two runs of chunks are the bytes of each, one after the other |
| ResponseRelay.DeliveredStopsAtEmpty | ProxyServer/Program.cs:69 | the chunks after the first empty read never reach the client |
| ResponseRelay.DeliveredAll | ProxyServer/Program.cs:69 | when no read is empty, every chunk is delivered |
| ResponseRelay.FirstStatusEarliest | ProxyServer/Program.cs:73-81 | the logged code is that of the earliest chunk showing a status |
| ResponseRelay.FirstStatusNone | ProxyServer/Program.cs:73-81 | nothing is logged exactly when no chunk shows a status |
| ResponseRelay.FirstStatusStable | ProxyServer/Program.cs:73-80 | once a status is logged, later chunks change nothing |
| ResponseRelay.ChunkStatusDigits | ProxyServer/Program.cs:76 | a logged code is three digits |
| ResponseRelay.ShortChunkShowsNoStatus | ProxyServer/Program.cs:76 | a chunk shorter than twelve bytes shows no status |
| ResponseRelay.SplitStatusIsMissed | ProxyServer/Program.cs:73-81 | `HTTP/1.1 2` and `00 OK` in two chunks log nothing, though the client's bytes show the status |
| ResponseRelay.WholeStatusIsLogged | ProxyServer/Program.cs:73-81 | a response whose first chunk starts with `HTTP/1.1 200` logs `200` |
| ProxyServer.SendBlockedResponse | ProxyServer/Program.cs:97-106 | the client decodes exactly the 403 page around the URL, and the one log line is `<url> - 403 Blocked` |
| ProxyServer.BlockedResponseAscii | ProxyServer/Program.cs:99-103 | the 403 page around an ASCII URL is ASCII, so encoding loses nothing |
| ProxyServer.HandleClient | ProxyServer/Program.cs:28-86 | the full outcome for every case:<br>- a malformed request line, or a URI that `new Uri` rejects, gives nothing;<br>- a blocked host gets the 403 page, one log line and no dial;<br>- otherwise the proxy logs `<url> - ...`;<br>- when either `Regex.Replace` throws on its replacement string, nothing else happens: no dial, no bytes;<br>- otherwise it dials the URI's host and port; when the connection opens, it sends the ASCII encoding of the request as the two interpreted rewrites leave it and relays the delivered chunks;<br>- the log ends with at most one `<url> - ddd` |
| ProxyServer.ForwardedAgreesWhenLiteral | ProxyServer/Program.cs:52-57 | when the path and query and the authority hold no `$` and do not start with a digit, the code sends exactly the intended request |
| ProxyServer.ForwardFailsOnHugeGroup | ProxyServer/Program.cs:52-55 | with the path and query `/$99999999999` the code forwards nothing |
| ProxyServer.ForwardedBytes | ProxyServer/Program.cs:52-63 | with `\r\n` after the version and no Host match, upstream gets `<method> <path and query>` and then the client's bytes from ` HTTP/1.x` on, with bytes from 0x80 up turned into `?` |
| ProxyServer.ForwardedBytesWithHost | ProxyServer/Program.cs:52-63 | with `\r\n` after the version and one Host match: `<method> <path and query>`, the client's bytes up to the header, `Host: <authority>`, the client's bytes after the matched header, with bytes from 0x80 up turned into `?` |
| ProxyServer.ForwardedTextWithHost | ProxyServer/Program.cs:52-57 | the same on the decoded text: the request line rewritten, the one Host match replaced, all else kept |
| ProxyServer.UnterminatedLineForwardedAsIs | ProxyServer/Program.cs:52-63 | without `\r\n` after the version and without a Host match, upstream gets the client's bytes with only bytes from 0x80 up changed, to `?` |
| ProxyServer.UnterminatedLineWithHost | ProxyServer/Program.cs:52-63 | without `\r\n` after the version and with one Host match, upstream gets the client's bytes with that header replaced by `Host: <authority>` and bytes from 0x80 up turned into `?` |
| ProxyServer.UnterminatedTextWithHost | ProxyServer/Program.cs:52-57 | the same on the decoded text: the request line kept, the one Host match replaced |
| ProxyServer.CapturedUrlAscii | ProxyServer/Program.cs:35-41 | the captured URL is ASCII, because it is part of the decoded request |
| ProxyServer.FirstStatusShape | ProxyServer/Program.cs:79 | the code the relay logs is three characters long |

## Left out

- `Main`, the listener, the accept loop and the thread per connection (ProxyServer/Program.cs:14-26). This is socket setup and concurrency, and connections share no mutable state.
- Sockets. The client read is a byte sequence, and the origin's reads are a sequence of chunks; the first empty chunk, or the end of the sequence, is a read that returns 0.
  - Writes are output sequences.
  - Each read is limited to 4096 bytes by a precondition, because `NetworkStream.Read` promises that for this buffer.
- The failure of the upstream connection and of the Uri constructor is an input (`None`):
  - The model records what was emitted before the exception: the ` - ...` line, for a failed connection.
  - It claims no recovery.
  - A transport error in the middle of the relay is not modelled.
- `System.Uri` parsing and normalisation: host lower-casing, default ports in `Authority`, percent-encoding. `HandleClient` receives the parse as a function.
- `Console.WriteLine` is the appended `log` sequence.
- HostHeader.HostPatternAt: the host is spliced into the pattern as text. Only `.` is given its regex meaning; all other characters are matched literally. So a host with other metacharacters is matched literally, for example the IPv6 brackets `[...]`, which .NET reads as a character class.
- HostHeader.RewriteHostAsWritten and RequestLine.RewriteRequestLineAsWritten: named groups `${name}` of the replacement language are not modelled. The two patterns the proxy builds have no named groups.
- RequestLine.MatchRewrite: the method is spliced into the rewrite pattern. It is one of six plain words, so it is matched literally.
- ResponseRelay.WholeStatusIsLogged: stated for a first chunk that starts with `HTTP/1.1 200`, not for every position of the status line in the chunk. FirstStatusEarliest covers the general case.
- A Host header that already names the target authority is meant to be kept as it is. The code keeps it only when the authority equals the host (RewriteHostKeepsLiteralHeader). With an explicit port, the pattern `Host: <host>` still matches the header's prefix and the port is added again (RewriteHostRepeatsPort). The model follows the code.
- Status logging is meant to look at the first response chunk only. The code inspects every chunk until one shows a status, and the model follows the code (FirstStatusEarliest).
- ProxyServer.ForwardedBytes, ForwardedBytesWithHost, UnterminatedLineForwardedAsIs and UnterminatedLineWithHost: stated for the literal reading of the two rewrites. They describe what the code sends when ForwardedAgreesWhenLiteral applies; for other paths and authorities the Findings describe what the code sends instead.
- ForwardedBytesWithHost and UnterminatedLineWithHost cover one Host match. Several matches are the repeated application of RewriteHostAtFirstMatch.

## Findings

| source | as written | input that shows it | evidently intended | confidence | as-written member | corrected member |
|---|---|---|---|---|---|---|
| ProxyServer/Program.cs:57 | the replacement `"$1" + uri.Authority` is read by .NET; when the authority starts with a digit, `$1` and those digits form one group number of at least 10, which names no group, so the `$1` is kept as text | a request to `http://10.0.0.1/` whose header is `Host: 10.0.0.1`: .NET writes `$110.0.0.1` in place of the header | `Host: 10.0.0.1` | not executed | HostHeader.HostAsWrittenDropsPrefix | HostHeader.RewriteHostHeaderOnly |
| ProxyServer/Program.cs:55 | the replacement `"$1" + uri.PathAndQuery + "$2"` is read by .NET, so `$` sequences in the path are interpreted | the path and query `/$$`: the origin is asked for `/$` | the path copied as it is, `/$$` | not executed | RequestLine.AsWrittenCollapsesDollars | RequestLine.RewriteAfterMatch |
| ProxyServer/Program.cs:52-56 | a `$` and a digit run above Int32.MaxValue in the path make the replacement string invalid, and `Regex.Replace` throws after the ` - ...` line | the path and query `/$99999999999`: nothing is dialled and nothing is sent upstream | the path copied as it is | not executed | ProxyServer.ForwardFailsOnHugeGroup | RequestLine.RewriteAfterMatch |
