/**
 * The request line: the anchored pattern that recognises a proxy-form request
 * (`^(GET|POST|PUT|DELETE|HEAD|OPTIONS) (http://[^ ]+) HTTP/1.[01]`) and the
 * anchored substitution that turns it into origin form
 * (`^(<method> )http://[^ ]+( HTTP/1.[01]\r\n)` replaced by `$1<path and query>$2`).
 * In both patterns `[^ ]` is any character but a space (line breaks included)
 * and the unescaped `.` is any character but a line feed.
 */
module RequestLine {
  import opened Wrappers
  import opened Substitution
  import opened Sequences

  const Methods: seq<string> := ["GET", "POST", "PUT", "DELETE", "HEAD", "OPTIONS"]
  const Scheme: string := "http://"

  /** The two captures of a recognised request line: the method and the absolute URL. */
  datatype RequestLine = RequestLine(verb: string, url: string)

  /** How far `[^ ]+` reaches from the start of `s`: up to the first space or the end. */
  function NonSpaceRun(s: string): (n: nat)
    ensures n <= |s|
    ensures forall i :: 0 <= i < n ==> s[i] != ' '
    ensures n < |s| ==> s[n] == ' '
  {
    if s != [] && s[0] != ' ' then 1 + NonSpaceRun(s[1..]) else 0
  }

  /** ` HTTP/1.[01]` at position `i` of `s`. */
  predicate VersionAt(s: string, i: nat) {
    i + 9 <= |s| && s[i..i + 7] == " HTTP/1" && s[i + 7] != '\n' && (s[i + 8] == '0' || s[i + 8] == '1')
  }

  /** `\r\n` at position `i` of `s`. */
  predicate LineEndAt(s: string, i: nat) {
    i + 2 <= |s| && s[i] == '\r' && s[i + 1] == '\n'
  }

  /** What must precede the URL's host part: the method, a space and the scheme. */
  function Lead(verb: string): string {
    verb + " " + Scheme
  }

  /**
   * The grammar for one method, stated directly: `text` starts with `verb`, a
   * space, `http://`, `n > 0` characters none of which is a space, and
   * ` HTTP/1.[01]`.
   */
  predicate ShapeWith(text: string, verb: string, n: nat) {
    n > 0 && |Lead(verb)| + n <= |text| && text[..|Lead(verb)|] == Lead(verb) &&
    (forall i :: |Lead(verb)| <= i < |Lead(verb)| + n ==> text[i] != ' ') &&
    VersionAt(text, |Lead(verb)| + n)
  }

  /** The grammar: the shape for method number `k`. */
  predicate Shape(text: string, k: nat, n: nat) {
    k < |Methods| && ShapeWith(text, Methods[k], n)
  }

  /** The captures that `ShapeWith(text, verb, n)` describes. */
  function CapturesWith(text: string, verb: string, n: nat): RequestLine
    requires ShapeWith(text, verb, n)
  {
    RequestLine(verb, Scheme + text[|Lead(verb)|..|Lead(verb)| + n])
  }

  function Captures(text: string, k: nat, n: nat): RequestLine
    requires Shape(text, k, n)
  {
    CapturesWith(text, Methods[k], n)
  }

  /**
   * What a match promises about its captures: the URL starts with `http://`,
   * has more after it and no space in it, and the text starts with the method,
   * a space, the URL and ` HTTP/1.[01]`.
   */
  predicate Recognised(text: string, line: RequestLine) {
    |line.url| > |Scheme| && line.url[..|Scheme|] == Scheme &&
    (forall i :: 0 <= i < |line.url| ==> line.url[i] != ' ') &&
    UrlEnd(line) <= |text| && text[..UrlEnd(line)] == line.verb + " " + line.url && VersionAt(text, UrlEnd(line))
  }

  /**
   * How far `[^ ]+` reaches after the method, a space and `http://`, when the
   * text starts with those; the two patterns share this much.
   */
  function UrlRun(text: string, verb: string): (n: Option<nat>)
    ensures n.Some? ==> |Lead(verb)| + n.value <= |text| && text[..|Lead(verb)|] == Lead(verb)
    ensures n.Some? ==> forall i :: |Lead(verb)| <= i < |Lead(verb)| + n.value ==> text[i] != ' '
  {
    var lead := Lead(verb);
    if |lead| <= |text| && text[..|lead|] == lead then
      var n := NonSpaceRun(text[|lead|..]);
      assert forall i :: |lead| <= i < |lead| + n ==> text[i] == text[|lead|..][i - |lead|];
      Some(n)
    else None
  }

  /** One alternative of the method group: `verb`, then the rest of the pattern. */
  function MatchWith(text: string, verb: string): (r: Option<RequestLine>)
    ensures r.Some? ==> r.value.verb == verb && Recognised(text, r.value)
  {
    var lead := Lead(verb);
    if UrlRun(text, verb).Some? && UrlRun(text, verb).value > 0 && VersionAt(text, |lead| + UrlRun(text, verb).value) then
      var n := UrlRun(text, verb).value;
      var url := Scheme + text[|lead|..|lead| + n];
      CapturedUrl(text, verb, n);
      Some(RequestLine(verb, url))
    else None
  }

  /** The URL capture after a run of `n` characters: the scheme and the run, with no space in it. */
  lemma CapturedUrl(text: string, verb: string, n: nat)
    requires UrlRun(text, verb) == Some(n)
    ensures var lead := Lead(verb); var url := Scheme + text[|lead|..|lead| + n];
      text[..|lead| + n] == verb + " " + url && forall i :: 0 <= i < |url| ==> url[i] != ' '
  {
    var lead := Lead(verb);
    var url := Scheme + text[|lead|..|lead| + n];
    assert text[..|lead| + n] == text[..|lead|] + text[|lead|..|lead| + n];
    forall i | 0 <= i < |url| ensures url[i] != ' ' {
      if i >= |Scheme| {
        assert url[i] == text[|lead| + (i - |Scheme|)];
      }
    }
  }

  /** The alternatives of the method group tried in order, from number `k` on. */
  function MatchFrom(text: string, k: nat): (r: Option<RequestLine>)
    ensures r.Some? ==> r.value.verb in Methods && Recognised(text, r.value) && r == MatchWith(text, r.value.verb)
    decreases |Methods| - k
  {
    if k >= |Methods| then None
    else
      match MatchWith(text, Methods[k])
      case Some(line) => Some(line)
      case None => MatchFrom(text, k + 1)
  }

  /**
   * `Regex.Match(request, "^(GET|POST|PUT|DELETE|HEAD|OPTIONS) (http://[^ ]+) HTTP/1.[01]")`:
   * the method and URL captures when the text starts with a request line.
   */
  function MatchRequestLine(text: string): (r: Option<RequestLine>)
    ensures r.Some? ==> r.value.verb in Methods && Recognised(text, r.value)
  {
    MatchFrom(text, 0)
  }

  /** Where the match ends: after ` HTTP/1.x`. */
  function MatchEnd(line: RequestLine): nat {
    |line.verb| + 1 + |line.url| + 9
  }

  /** Where the URL capture ends and ` HTTP/1.x` begins. */
  function UrlEnd(line: RequestLine): nat {
    |line.verb| + 1 + |line.url|
  }

  /** No method is a prefix of another, even with the space after it: the first two letters decide. */
  lemma LeadsDistinct(text: string, k1: nat, k2: nat)
    requires k1 < |Methods| && k2 < |Methods|
    requires |Lead(Methods[k1])| <= |text| && text[..|Lead(Methods[k1])|] == Lead(Methods[k1])
    requires |Lead(Methods[k2])| <= |text| && text[..|Lead(Methods[k2])|] == Lead(Methods[k2])
    ensures k1 == k2
  {
    assert Lead(Methods[k1])[0] == text[0] == Lead(Methods[k2])[0];
    assert Lead(Methods[k1])[1] == text[1] == Lead(Methods[k2])[1];
  }

  /** For one method the URL length is fixed: `[^ ]+` cannot stop short of the space. */
  lemma ShapeWithUnique(text: string, verb: string, n1: nat, n2: nat)
    requires ShapeWith(text, verb, n1) && ShapeWith(text, verb, n2)
    ensures n1 == n2
  {
    var l := |Lead(verb)|;
    assert text[l + n1] == ' ' && text[l + n2] == ' ';
  }

  /** The grammar admits at most one reading of a text: the method and the URL length are fixed. */
  lemma ShapeUnique(text: string, k1: nat, n1: nat, k2: nat, n2: nat)
    requires Shape(text, k1, n1) && Shape(text, k2, n2)
    ensures k1 == k2 && n1 == n2
  {
    LeadsDistinct(text, k1, k2);
    ShapeWithUnique(text, Methods[k1], n1, n2);
  }

  /** Under the grammar the URL run is exactly what `[^ ]+` reaches. */
  lemma ShapeRun(text: string, verb: string, n: nat)
    requires ShapeWith(text, verb, n)
    ensures UrlRun(text, verb) == Some(n)
  {
    var l := |Lead(verb)|;
    var rest := text[l..];
    assert rest[n] == text[l + n] == ' ';
    assert forall i :: 0 <= i < n ==> rest[i] == text[l + i];
  }

  /** One alternative matches exactly its own grammar. */
  lemma MatchWithExact(text: string, verb: string)
    ensures forall n :: ShapeWith(text, verb, n) ==> MatchWith(text, verb) == Some(CapturesWith(text, verb, n))
    ensures MatchWith(text, verb).Some? ==>
      exists n :: ShapeWith(text, verb, n) && MatchWith(text, verb).value == CapturesWith(text, verb, n)
  {
    forall n | ShapeWith(text, verb, n) ensures MatchWith(text, verb) == Some(CapturesWith(text, verb, n)) {
      ShapeRun(text, verb, n);
    }
    if MatchWith(text, verb).Some? {
      assert ShapeWith(text, verb, UrlRun(text, verb).value);
    }
  }

  lemma {:induction false} MatchFromFinds(text: string, k0: nat, k: nat, n: nat)
    requires k0 <= k && Shape(text, k, n)
    ensures MatchFrom(text, k0) == Some(Captures(text, k, n))
    decreases k - k0
  {
    MatchWithExact(text, Methods[k0]);
    if k0 < k {
      if MatchWith(text, Methods[k0]).Some? {
        var n0 :| ShapeWith(text, Methods[k0], n0);
        ShapeUnique(text, k0, n0, k, n);
      }
      MatchFromFinds(text, k0 + 1, k, n);
    }
  }

  lemma MatchFromShape(text: string, k0: nat)
    requires MatchFrom(text, k0).Some?
    ensures exists k, n :: Shape(text, k, n) && MatchFrom(text, k0).value == Captures(text, k, n)
  {
    var line := MatchFrom(text, k0).value;
    var k :| 0 <= k < |Methods| && Methods[k] == line.verb;
    MatchWithExact(text, line.verb);
    var n :| ShapeWith(text, line.verb, n) && line == CapturesWith(text, line.verb, n);
    assert Shape(text, k, n);
  }

  /**
   * The matcher recognises exactly the grammar: it succeeds when and only when
   * the text has the shape, and its captures are then the ones the shape fixes.
   */
  lemma MatchRequestLineExact(text: string)
    ensures forall k, n :: Shape(text, k, n) ==> MatchRequestLine(text) == Some(Captures(text, k, n))
    ensures MatchRequestLine(text).Some? ==>
      exists k, n :: Shape(text, k, n) && MatchRequestLine(text).value == Captures(text, k, n)
  {
    forall k, n | Shape(text, k, n) ensures MatchRequestLine(text) == Some(Captures(text, k, n)) {
      MatchFromFinds(text, 0, k, n);
    }
    if MatchRequestLine(text).Some? {
      MatchFromShape(text, 0);
    }
  }

  /**
   * Where group 2 (` HTTP/1.x\r\n`) of `^(<method> )http://[^ ]+( HTTP/1.[01]\r\n)`
   * begins, if that pattern matches `text`; the method is spliced in literally.
   */
  function MatchRewrite(text: string, verb: string): (g: Option<nat>)
    ensures g.Some? ==> |Lead(verb)| < g.value && g.value + 11 <= |text|
    ensures g.Some? ==> text[..|verb| + 1] == verb + " "
  {
    var lead := Lead(verb);
    if UrlRun(text, verb).Some? && UrlRun(text, verb).value > 0 && VersionAt(text, |lead| + UrlRun(text, verb).value) &&
      LineEndAt(text, |lead| + UrlRun(text, verb).value + 9)
    then
      assert text[..|verb| + 1] == lead[..|verb| + 1];
      Some(|lead| + UrlRun(text, verb).value)
    else None
  }

  /**
   * The request-line rewrite with the path and query spliced in literally:
   * group 1, then `pathAndQuery`, then everything from group 2 on.
   */
  function RewriteRequestLine(text: string, verb: string, pathAndQuery: string): string {
    match MatchRewrite(text, verb)
    case None => text
    case Some(g) => verb + " " + pathAndQuery + text[g..]
  }

  /**
   * The request-line rewrite as the source writes it: `"$1" + pathAndQuery + "$2"`
   * is a .NET replacement pattern, so a `$` in the path and query is not copied
   * literally. None where .NET rejects the pattern with an exception.
   */
  function RewriteRequestLineAsWritten(text: string, verb: string, pathAndQuery: string): Option<string> {
    match Parse("$1" + pathAndQuery + "$2", 3)
    case None => None
    case Some(pieces) => Some(ReplaceRequestLine(text, verb, pieces))
  }

  /** The anchored replacement with parsed replacement `pieces`: at most one match, at the start. */
  function ReplaceRequestLine(text: string, verb: string, pieces: seq<Piece>): string {
    match MatchRewrite(text, verb)
    case None => text
    case Some(g) => ReplaceMatched(text, verb, g, pieces)
  }

  /**
   * The replacement once the rewrite pattern has matched with group 2 at `g`:
   * group 0 is the whole match, group 1 the method and its space, group 2
   * ` HTTP/1.x\r\n`; the text after the match is kept.
   */
  function ReplaceMatched(text: string, verb: string, g: nat, pieces: seq<Piece>): string
    requires |verb| + 1 <= g && g + 11 <= |text|
  {
    var groups := [text[..g + 11], text[..|verb| + 1], text[g..g + 11]];
    Expand(pieces, groups, text, 0, g + 11) + text[g + 11..]
  }

  lemma ReplaceBetweenGroups(text: string, verb: string, pathAndQuery: string)
    ensures ReplaceRequestLine(text, verb, [Group(1)] + Literals(pathAndQuery) + [Group(2)]) ==
      RewriteRequestLine(text, verb, pathAndQuery)
  {
    var m := MatchRewrite(text, verb);
    if m.Some? {
      ReplaceMatchedBetweenGroups(text, verb, pathAndQuery, m.value);
    }
  }

  lemma ReplaceMatchedBetweenGroups(text: string, verb: string, pathAndQuery: string, g: nat)
    requires MatchRewrite(text, verb) == Some(g)
    ensures ReplaceRequestLine(text, verb, [Group(1)] + Literals(pathAndQuery) + [Group(2)]) ==
      verb + " " + pathAndQuery + text[g..]
  {
    ReplaceRequestLineAt(text, verb, [Group(1)] + Literals(pathAndQuery) + [Group(2)], g);
    ExpandSpliced(text, verb, pathAndQuery, g);
  }

  lemma ReplaceRequestLineAt(text: string, verb: string, pieces: seq<Piece>, g: nat)
    requires MatchRewrite(text, verb) == Some(g)
    ensures ReplaceRequestLine(text, verb, pieces) == ReplaceMatched(text, verb, g, pieces)
  {
  }

  /** Group 1, the literal path and query, and group 2, followed by the rest of the text. */
  lemma ExpandSpliced(text: string, verb: string, pathAndQuery: string, g: nat)
    requires |verb| + 1 <= g && g + 11 <= |text| && text[..|verb| + 1] == verb + " "
    ensures Expand([Group(1)] + Literals(pathAndQuery) + [Group(2)], [text[..g + 11], text[..|verb| + 1], text[g..g + 11]], text, 0, g + 11) +
      text[g + 11..] == verb + " " + pathAndQuery + text[g..]
  {
    var groups := [text[..g + 11], text[..|verb| + 1], text[g..g + 11]];
    ExpandBetweenGroups(pathAndQuery, groups, text, 0, g + 11);
    assert groups[1] == verb + " " && groups[2] == text[g..g + 11];
    SplicedTail(verb + " ", pathAndQuery, text, g);
  }

  lemma SplicedTail(head: string, x: string, text: string, g: nat)
    requires g + 11 <= |text|
    ensures head + x + text[g..g + 11] + text[g + 11..] == head + x + text[g..]
  {
    AppendAssoc(head + x, text[g..g + 11], text[g + 11..]);
    SliceSplit(text, g, g + 11);
  }

  /**
   * Recognition and rewrite agree: after a recognised request line the rewrite
   * fires exactly when `\r\n` follows the version digit; it then replaces the URL
   * by the path and query and keeps every character from ` HTTP/1.x` on, and
   * otherwise leaves the text as it is.
   */
  lemma RewriteAfterMatch(text: string, line: RequestLine, pathAndQuery: string)
    requires MatchRequestLine(text) == Some(line)
    ensures LineEndAt(text, MatchEnd(line)) ==>
      RewriteRequestLine(text, line.verb, pathAndQuery) == line.verb + " " + pathAndQuery + text[UrlEnd(line)..]
    ensures !LineEndAt(text, MatchEnd(line)) ==> RewriteRequestLine(text, line.verb, pathAndQuery) == text
  {
    assert MatchWith(text, line.verb) == Some(line);
    MatchRewriteAfterMatch(text, line);
  }

  /** After a request line matched by its method's alternative, the rewrite pattern matches exactly when `\r\n` follows, with group 2 at the URL's end. */
  lemma MatchRewriteAfterMatch(text: string, line: RequestLine)
    requires MatchWith(text, line.verb) == Some(line)
    ensures MatchRewrite(text, line.verb) == if LineEndAt(text, MatchEnd(line)) then Some(UrlEnd(line)) else None
  {
    MatchWithRun(text, line);
    MatchRewriteFromRun(text, line.verb, UrlRun(text, line.verb).value);
  }

  /** A match of one alternative rests on a URL run that reaches ` HTTP/1.x`, and the URL ends with the run. */
  lemma MatchWithRun(text: string, line: RequestLine)
    requires MatchWith(text, line.verb) == Some(line)
    ensures UrlRun(text, line.verb).Some?
    ensures var n := UrlRun(text, line.verb).value;
      n > 0 && VersionAt(text, |Lead(line.verb)| + n) && UrlEnd(line) == |Lead(line.verb)| + n
  {
    var n := UrlRun(text, line.verb).value;
    assert line.url == Scheme + text[|Lead(line.verb)|..|Lead(line.verb)| + n];
  }

  /** Given the URL run, the rewrite pattern matches exactly when `\r\n` follows ` HTTP/1.x`. */
  lemma MatchRewriteFromRun(text: string, verb: string, n: nat)
    requires UrlRun(text, verb) == Some(n) && n > 0 && VersionAt(text, |Lead(verb)| + n)
    ensures MatchRewrite(text, verb) == if LineEndAt(text, |Lead(verb)| + n + 9) then Some(|Lead(verb)| + n) else None
  {
  }

  /**
   * As written and spliced literally agree whenever the path and query hold no
   * `$` and do not start with a digit.
   */
  lemma AsWrittenAgreesWhenDollarFree(text: string, verb: string, pathAndQuery: string)
    requires '$' !in pathAndQuery
    requires pathAndQuery == [] || !IsDigit(pathAndQuery[0])
    ensures RewriteRequestLineAsWritten(text, verb, pathAndQuery) == Some(RewriteRequestLine(text, verb, pathAndQuery))
  {
    ParseBetweenGroups(pathAndQuery);
    ReplaceBetweenGroups(text, verb, pathAndQuery);
  }

  /**
   * What the source does with a path and query `/$$`: .NET reads `$$` as one
   * dollar sign, so the origin is asked for `/$` instead of `/$$`.
   */
  lemma AsWrittenCollapsesDollars(text: string, verb: string)
    requires MatchRewrite(text, verb).Some?
    ensures var g := MatchRewrite(text, verb).value;
      RewriteRequestLineAsWritten(text, verb, "/$$") == Some(verb + " /$" + text[g..]) &&
      RewriteRequestLine(text, verb, "/$$") == verb + " /$$" + text[g..]
  {
    ParseDoubledDollarPath();
    ReplaceBetweenGroups(text, verb, "/$");
    var g := MatchRewrite(text, verb).value;
    assert verb + " " + "/$" + text[g..] == verb + " /$" + text[g..];
    assert verb + " " + "/$$" + text[g..] == verb + " /$$" + text[g..];
  }

  /**
   * What the source does with a path and query `/$99999999999`: the number after
   * the second `$` exceeds Int32.MaxValue, so `Regex.Replace` throws instead of
   * rewriting, whatever the request.
   */
  lemma AsWrittenRejectsHugeGroup(text: string, verb: string)
    ensures RewriteRequestLineAsWritten(text, verb, "/$99999999999") == None
  {
    ParseHugeGroupPath();
  }
}
