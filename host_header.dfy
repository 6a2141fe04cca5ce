/**
 * The Host header rewrite: `Regex.Replace(request, "(Host: )" + host, "$1" + authority)`.
 * The host is spliced into the pattern unescaped, so each `.` in it matches any
 * character but a line feed; every other character of the host is matched
 * literally. The replacement is global: every non-overlapping occurrence, found
 * left to right, in headers and body alike.
 */
module HostHeader {
  import opened Wrappers
  import opened Substitution
  import opened Sequences

  const HostPrefix: string := "Host: "

  /** One character of the host, used as a pattern character, against one character of the text. */
  predicate PatternCharMatches(p: char, c: char) {
    if p == '.' then c != '\n' else c == p
  }

  /** The length of every match: `Host: ` and one character per character of the host. */
  function MatchLength(host: string): nat {
    |HostPrefix| + |host|
  }

  /** The characters of the host from number `j` on, as pattern characters, match `s` from position `i + j` on. */
  predicate HostCharsAt(s: string, i: nat, host: string, j: nat)
    decreases |host| - j
  {
    j >= |host| || (i + j < |s| && PatternCharMatches(host[j], s[i + j]) && HostCharsAt(s, i, host, j + 1))
  }

  /** The pattern `(Host: )<host>` matches `s` at position `i`. */
  predicate HostPatternAt(s: string, i: nat, host: string) {
    i + MatchLength(host) <= |s| && s[i..i + |HostPrefix|] == HostPrefix && HostCharsAt(s, i + |HostPrefix|, host, 0)
  }

  /**
   * The scan of `Regex.Replace` from position `i` on, with the authority spliced
   * in literally: at a match, `Host: <authority>` is emitted and the scan resumes
   * after the match; elsewhere one character is copied.
   */
  function RewriteHostFrom(s: string, i: nat, host: string, authority: string): string
    requires i <= |s|
    decreases |s| - i
  {
    if i + MatchLength(host) > |s| then s[i..]
    else if HostPatternAt(s, i, host) then HostPrefix + authority + RewriteHostFrom(s, i + MatchLength(host), host, authority)
    else [s[i]] + RewriteHostFrom(s, i + 1, host, authority)
  }

  /** The header rewrite with the authority spliced in literally. */
  function RewriteHost(s: string, host: string, authority: string): string {
    RewriteHostFrom(s, 0, host, authority)
  }

  /**
   * The global replacement with parsed replacement `pieces`, from position `i`
   * of the whole input on; group 0 is the match and group 1 is `Host: `.
   */
  function ReplaceHostFrom(input: string, i: nat, host: string, pieces: seq<Piece>): string
    requires i <= |input|
    decreases |input| - i
  {
    var n := MatchLength(host);
    if i + n > |input| then input[i..]
    else if HostPatternAt(input, i, host) then
      Expand(pieces, [input[i..i + n], HostPrefix], input, i, i + n) + ReplaceHostFrom(input, i + n, host, pieces)
    else [input[i]] + ReplaceHostFrom(input, i + 1, host, pieces)
  }

  /**
   * The header rewrite as the source writes it: `"$1" + authority` is a .NET
   * replacement pattern. None where .NET rejects it with an exception.
   */
  function RewriteHostAsWritten(s: string, host: string, authority: string): Option<string> {
    match Parse("$1" + authority, 2)
    case None => None
    case Some(pieces) => Some(ReplaceHostFrom(s, 0, host, pieces))
  }

  lemma {:induction false} HostCharsShift(s: string, k: nat, i: nat, host: string, j: nat)
    requires k <= |s|
    ensures HostCharsAt(s[k..], i, host, j) <==> HostCharsAt(s, k + i, host, j)
    decreases |host| - j
  {
    if j < |host| {
      HostCharsShift(s, k, i, host, j + 1);
      if i + j < |s[k..]| {
        assert s[k..][i + j] == s[k + i + j];
      }
    }
  }

  /** Matching in a suffix is matching in the whole text, shifted. */
  lemma PatternShift(s: string, k: nat, i: nat, host: string)
    requires k <= |s|
    ensures HostPatternAt(s[k..], i, host) <==> HostPatternAt(s, k + i, host)
  {
    if k + i + MatchLength(host) <= |s| {
      assert s[k..][i..i + |HostPrefix|] == s[k + i..k + i + |HostPrefix|];
      HostCharsShift(s, k, i + |HostPrefix|, host, 0);
    }
  }

  lemma {:induction false} HostCharsLiteral(s: string, i: nat, host: string, j: nat)
    requires i + |host| <= |s| && s[i..i + |host|] == host
    ensures HostCharsAt(s, i, host, j)
    decreases |host| - j
  {
    if j < |host| {
      assert s[i + j] == s[i..i + |host|][j];
      HostCharsLiteral(s, i, host, j + 1);
    }
  }

  /** The pattern made from a host matches `Host: ` followed by that host. */
  lemma HostMatchesItself(s: string, i: nat, host: string)
    requires i + MatchLength(host) <= |s| && s[i..i + MatchLength(host)] == HostPrefix + host
    ensures HostPatternAt(s, i, host)
  {
    var w := s[i..i + MatchLength(host)];
    assert s[i..i + |HostPrefix|] == w[..|HostPrefix|] == HostPrefix;
    assert s[i + |HostPrefix|..i + |HostPrefix| + |host|] == w[|HostPrefix|..] == host;
    HostCharsLiteral(s, i + |HostPrefix|, host, 0);
  }

  /** Text in which the pattern never matches from position `k` on comes through the scan unchanged. */
  lemma {:induction false} RewriteHostFromWithoutMatch(s: string, k: nat, host: string, authority: string)
    requires k <= |s|
    requires forall i :: k <= i <= |s| ==> !HostPatternAt(s, i, host)
    ensures RewriteHostFrom(s, k, host, authority) == s[k..]
    decreases |s| - k
  {
    if k + MatchLength(host) <= |s| {
      RewriteHostFromWithoutMatch(s, k + 1, host, authority);
      assert s[k..] == [s[k]] + s[k + 1..];
    }
  }

  /** Text in which the pattern never matches comes through the rewrite unchanged. */
  lemma RewriteHostWithoutMatch(s: string, host: string, authority: string)
    requires forall i :: 0 <= i <= |s| ==> !HostPatternAt(s, i, host)
    ensures RewriteHost(s, host, authority) == s
  {
    RewriteHostFromWithoutMatch(s, 0, host, authority);
  }

  /** Where the pattern does not match and a match still fits, the scan copies one character. */
  lemma RewriteHostFromSkip(s: string, k: nat, host: string, authority: string)
    requires k + MatchLength(host) <= |s| && !HostPatternAt(s, k, host)
    ensures RewriteHostFrom(s, k, host, authority) == [s[k]] + RewriteHostFrom(s, k + 1, host, authority)
  {
  }

  /** Where the pattern matches, the scan emits `Host: <authority>` and resumes after the match. */
  lemma RewriteHostFromTake(s: string, k: nat, host: string, authority: string)
    requires HostPatternAt(s, k, host)
    ensures RewriteHostFrom(s, k, host, authority) == HostPrefix + authority + RewriteHostFrom(s, k + MatchLength(host), host, authority)
  {
  }

  /**
   * The leftmost match at or after `k` is replaced by `Host: <authority>`,
   * everything before it is kept, and the scan resumes after the match.
   */
  lemma {:induction false} RewriteHostFromAtFirstMatch(s: string, k: nat, host: string, authority: string, i: nat)
    requires k <= i && HostPatternAt(s, i, host)
    requires forall j :: k <= j < i ==> !HostPatternAt(s, j, host)
    ensures RewriteHostFrom(s, k, host, authority) ==
      s[k..i] + (HostPrefix + authority + RewriteHostFrom(s, i + MatchLength(host), host, authority))
    decreases i - k
  {
    var replaced := HostPrefix + authority + RewriteHostFrom(s, i + MatchLength(host), host, authority);
    if k == i {
      assert s[k..i] == [];
    } else {
      RewriteHostFromAtFirstMatch(s, k + 1, host, authority, i);
      var later := RewriteHostFrom(s, k + 1, host, authority);
      RewriteHostFromSkip(s, k, host, authority);
      assert later == s[k + 1..i] + replaced;
      AppendAssoc([s[k]], s[k + 1..i], replaced);
      assert [s[k]] + s[k + 1..i] == s[k..i];
    }
  }

  /**
   * The rewrite keeps everything before the leftmost match, replaces that match
   * by `Host: <authority>` and goes on after it.
   */
  lemma RewriteHostAtFirstMatch(s: string, host: string, authority: string, i: nat)
    requires HostPatternAt(s, i, host)
    requires forall j :: 0 <= j < i ==> !HostPatternAt(s, j, host)
    ensures RewriteHost(s, host, authority) ==
      s[..i] + (HostPrefix + authority + RewriteHostFrom(s, i + MatchLength(host), host, authority))
  {
    RewriteHostFromAtFirstMatch(s, 0, host, authority, i);
    assert s[0..i] == s[..i];
  }

  /**
   * The scan finds exactly one match, at `i`: none starts before it, and none
   * starts after it ends (one overlapping it is never found).
   */
  predicate SoleMatchAt(s: string, i: nat, host: string) {
    HostPatternAt(s, i, host) &&
    (forall j :: 0 <= j < i ==> !HostPatternAt(s, j, host)) &&
    (forall j :: i + MatchLength(host) <= j <= |s| ==> !HostPatternAt(s, j, host))
  }

  /** A text with one match: that match becomes `Host: <authority>` and every other character is kept. */
  lemma RewriteHostSingleMatch(s: string, host: string, authority: string, i: nat)
    requires SoleMatchAt(s, i, host)
    ensures i + MatchLength(host) <= |s|
    ensures RewriteHost(s, host, authority) == s[..i] + (HostPrefix + authority) + s[i + MatchLength(host)..]
  {
    RewriteHostAtFirstMatch(s, host, authority, i);
    RewriteHostFromWithoutMatch(s, i + MatchLength(host), host, authority);
    AppendAssoc(s[..i], HostPrefix + authority, s[i + MatchLength(host)..]);
  }

  /** The single-match rewrite of a text in two parts, the match lying `a` characters into the second. */
  lemma RewriteHostSplice(p: string, t: string, host: string, authority: string, a: nat)
    requires SoleMatchAt(p + t, |p| + a, host)
    ensures a + MatchLength(host) <= |t|
    ensures RewriteHost(p + t, host, authority) == p + t[..a] + (HostPrefix + authority) + t[a + MatchLength(host)..]
  {
    RewriteHostSingleMatch(p + t, host, authority, |p| + a);
    SpliceSlices(p, t, a, MatchLength(host));
  }

  /**
   * With the default port the authority is the host itself; then a text that
   * already reads `Host: <host>` everywhere the pattern matches is left as it is.
   */
  lemma {:induction false} RewriteHostFromKeepsLiteralHeader(s: string, k: nat, host: string)
    requires k <= |s|
    requires forall i :: k <= i <= |s| && HostPatternAt(s, i, host) ==> s[i + |HostPrefix|..i + MatchLength(host)] == host
    ensures RewriteHostFrom(s, k, host, host) == s[k..]
    decreases |s| - k
  {
    if k + MatchLength(host) <= |s| {
      if HostPatternAt(s, k, host) {
        RewriteHostFromKeepsLiteralHeader(s, k + MatchLength(host), host);
        KeepLiteralMatch(s, k, host);
      } else {
        RewriteHostFromKeepsLiteralHeader(s, k + 1, host);
        KeepUnmatched(s, k, host);
      }
    }
  }

  lemma KeepLiteralMatch(s: string, k: nat, host: string)
    requires HostPatternAt(s, k, host) && s[k + |HostPrefix|..k + MatchLength(host)] == host
    requires RewriteHostFrom(s, k + MatchLength(host), host, host) == s[k + MatchLength(host)..]
    ensures RewriteHostFrom(s, k, host, host) == s[k..]
  {
    var n := MatchLength(host);
    RewriteHostFromTake(s, k, host, host);
    LiteralHeaderAt(s, k, host);
    AppendAssoc(HostPrefix, host, s[k + n..]);
    SliceSplit(s, k, k + n);
  }

  lemma KeepUnmatched(s: string, k: nat, host: string)
    requires k + MatchLength(host) <= |s| && !HostPatternAt(s, k, host)
    requires RewriteHostFrom(s, k + 1, host, host) == s[k + 1..]
    ensures RewriteHostFrom(s, k, host, host) == s[k..]
  {
    RewriteHostFromSkip(s, k, host, host);
    SliceSplit(s, k, k + 1);
    assert s[k..k + 1] == [s[k]];
  }

  /** A match whose host part is the host itself reads `Host: <host>`. */
  lemma LiteralHeaderAt(s: string, k: nat, host: string)
    requires HostPatternAt(s, k, host) && s[k + |HostPrefix|..k + MatchLength(host)] == host
    ensures s[k..k + MatchLength(host)] == HostPrefix + host
  {
    var n := MatchLength(host);
    assert s[k..k + n] == s[k..k + |HostPrefix|] + s[k + |HostPrefix|..k + n];
  }

  lemma RewriteHostKeepsLiteralHeader(s: string, host: string)
    requires forall i :: 0 <= i <= |s| && HostPatternAt(s, i, host) ==> s[i + |HostPrefix|..i + MatchLength(host)] == host
    ensures RewriteHost(s, host, host) == s
  {
    RewriteHostFromKeepsLiteralHeader(s, 0, host);
  }

  /** A text that reads `Host: <host>` followed by text without matches: only that header changes. */
  lemma RewriteHostHeaderOnly(host: string, t: string, authority: string)
    requires forall i :: 0 <= i <= |t| ==> !HostPatternAt(t, i, host)
    ensures RewriteHost(HostPrefix + host + t, host, authority) == HostPrefix + authority + t
  {
    var s := HostPrefix + host + t;
    var n := MatchLength(host);
    assert HostPatternAt(s, 0, host) by {
      assert s[0..n] == HostPrefix + host;
      HostMatchesItself(s, 0, host);
    }
    assert s[n..] == t;
    forall i | n <= i <= |s| ensures !HostPatternAt(s, i, host) {
      PatternShift(s, n, i - n, host);
    }
    RewriteHostFromWithoutMatch(s, n, host, authority);
  }

  /**
   * The rewrite is not idempotent: once the header carries the port,
   * `Host: <host>` is still found as its prefix, and a second rewrite adds the
   * port again.
   */
  lemma RewriteHostRepeatsPort(host: string, port: string, rest: string)
    requires forall i :: 0 <= i <= |rest| ==> !HostPatternAt(rest, i, host)
    requires var t := ":" + port + rest; forall i :: 0 <= i <= |t| ==> !HostPatternAt(t, i, host)
    ensures var once := RewriteHost(HostPrefix + host + rest, host, host + ":" + port);
      once == HostPrefix + host + ":" + port + rest &&
      RewriteHost(once, host, host + ":" + port) == HostPrefix + host + ":" + port + ":" + port + rest
  {
    var authority := host + ":" + port;
    var t := ":" + port + rest;
    RewriteHostHeaderOnly(host, rest, authority);
    calc {
      HostPrefix + authority + rest;
      { AppendAssoc(HostPrefix, host + ":", port); }
      HostPrefix + (host + ":") + port + rest;
      { AppendAssoc(HostPrefix, host, ":"); }
      HostPrefix + host + ":" + port + rest;
    }
    calc {
      HostPrefix + host + ":" + port + rest;
      { AppendAssoc(HostPrefix + host + ":", port, rest); }
      HostPrefix + host + ":" + (port + rest);
      { AppendAssoc(HostPrefix + host, ":", port + rest); }
      HostPrefix + host + (":" + (port + rest));
      { AppendAssoc(":", port, rest); }
      HostPrefix + host + t;
    }
    RewriteHostHeaderOnly(host, t, authority);
    calc {
      HostPrefix + authority + t;
      { AppendAssoc(HostPrefix + authority, ":" + port, rest); }
      HostPrefix + authority + (":" + port) + rest;
      { AppendAssoc(HostPrefix + authority, ":", port); }
      HostPrefix + authority + ":" + port + rest;
      { AppendAssoc(HostPrefix, host + ":", port); }
      HostPrefix + (host + ":") + port + ":" + port + rest;
      { AppendAssoc(HostPrefix, host, ":"); }
      HostPrefix + host + ":" + port + ":" + port + rest;
    }
  }

  /** The as-written scan with the pieces of `"$1" + x` is the literal scan. */
  lemma {:induction false} ReplaceHostFromLiteral(input: string, i: nat, host: string, x: string)
    requires i <= |input|
    ensures ReplaceHostFrom(input, i, host, [Group(1)] + Literals(x)) == RewriteHostFrom(input, i, host, x)
    decreases |input| - i
  {
    var n := MatchLength(host);
    if i + n <= |input| {
      if HostPatternAt(input, i, host) {
        ReplaceHostFromLiteral(input, i + n, host, x);
        ExpandAfterGroup(x, [input[i..i + n], HostPrefix], input, i, i + n);
      } else {
        ReplaceHostFromLiteral(input, i + 1, host, x);
      }
    }
  }

  /**
   * As written and spliced literally agree whenever the authority holds no `$`
   * and does not start with a digit.
   */
  lemma HostAsWrittenAgreesWhenSafe(s: string, host: string, authority: string)
    requires '$' !in authority
    requires authority == [] || !IsDigit(authority[0])
    ensures RewriteHostAsWritten(s, host, authority) == Some(RewriteHost(s, host, authority))
  {
    ParseAfterGroup(authority, 2);
    ReplaceHostFromLiteral(s, 0, host, authority);
  }

  /**
   * What the source does when the authority starts with a digit (an IPv4
   * address): `$1` and the digits after it name a group that does not exist, so
   * .NET keeps the `$1` as text and drops the `Host: ` prefix, sending
   * `$1<authority>` where `Host: <authority>` was meant.
   */
  lemma HostAsWrittenDropsPrefix(host: string, authority: string)
    requires authority != [] && IsDigit(authority[0]) && '$' !in authority
    requires DigitRun(authority) <= 8
    ensures RewriteHostAsWritten(HostPrefix + host, host, authority) == Some("$1" + authority)
    ensures RewriteHost(HostPrefix + host, host, authority) == HostPrefix + authority
  {
    var s := HostPrefix + host;
    var n := MatchLength(host);
    assert HostPatternAt(s, 0, host) by {
      assert s[0..n] == s;
      HostMatchesItself(s, 0, host);
    }
    var pieces := Literals("$1" + authority);
    DigitsAfterOneAreNoGroup(authority);
    calc {
      ReplaceHostFrom(s, 0, host, pieces);
      Expand(pieces, [s[0..n], HostPrefix], s, 0, n) + ReplaceHostFrom(s, n, host, pieces);
      { ExpandLiterals("$1" + authority, [s[0..n], HostPrefix], s, 0, n); }
      "$1" + authority + s[n..];
      { assert s[n..] == []; }
      "$1" + authority;
    }
    calc {
      RewriteHost(s, host, authority);
      HostPrefix + authority + RewriteHostFrom(s, n, host, authority);
      HostPrefix + authority + s[n..];
      { assert s[n..] == []; }
      HostPrefix + authority;
    }
  }

  /** `$1` followed by a digit reads as one group number of at least 10, and this pattern has two groups. */
  lemma DigitsAfterOneAreNoGroup(authority: string)
    requires authority != [] && IsDigit(authority[0]) && '$' !in authority
    requires DigitRun(authority) <= 8
    ensures Parse("$1" + authority, 2) == Some(Literals("$1" + authority))
  {
    var t := "1" + authority;
    assert '$' !in t by {
      assert forall i :: 0 < i < |t| ==> t[i] == authority[i - 1];
    }
    GroupNumberAfterOne(authority);
    ParseUnknownGroup(t, 2);
    assert Parse(t, 2) == Some(Literals(t)) by {
      ParseLiteralText(t, "", 2);
      assert t + "" == t;
      assert Literals(t) + [] == Literals(t);
    }
    var r := "$1" + authority;
    assert r == ['$'] + t;
    calc {
      Parse(r, 2);
      Prepend(Literal('$'), Parse(t, 2));
      Some([Literal('$')] + Literals(t));
      { LiteralsCons('$', t); }
      Some(Literals(r));
    }
  }
}
