/**
 * The parts of a parsed `System.Uri` that the handler reads. How .NET derives
 * them from the URL text (lower-casing, default ports, escaping) is outside
 * this model: the handler receives the parse as a function.
 */
module HttpUri {
  datatype Uri = Uri(host: string, port: int, authority: string, pathAndQuery: string)
}

/**
 * The blocklist decision: a host is refused when one of the listed domain
 * names occurs anywhere in it, compared character by character.
 */
module Blocklist {
  import opened HttpUri

  /** The refused domains, in the order the source lists them. */
  const BlockedDomains: seq<string> := ["example.com", "google.com"]

  /** `sub` occurs in `s` beginning at position `i`. */
  predicate OccursAt(s: string, sub: string, i: nat) {
    i + |sub| <= |s| && s[i..i + |sub|] == sub
  }

  /** Ordinal `String.Contains`, scanning the start positions left to right. */
  function Contains(s: string, sub: string): bool
    decreases |s|
  {
    if |sub| > |s| then false
    else if s[..|sub|] == sub then true
    else Contains(s[1..], sub)
  }

  /** The decision as a property of the list's contents: some listed domain occurs in the host. */
  ghost predicate Blocked(host: string, domains: seq<string>) {
    exists d :: d in domains && Contains(host, d)
  }

  lemma OccursShift(s: string, sub: string, i: nat)
    requires s != []
    ensures OccursAt(s[1..], sub, i) <==> OccursAt(s, sub, i + 1)
  {
    if i + 1 + |sub| <= |s| {
      assert s[1..][i..i + |sub|] == s[i + 1..i + 1 + |sub|];
    }
  }

  /** `Contains` is exactly the existence of an occurrence, at any position. */
  lemma {:induction false} ContainsSpec(s: string, sub: string)
    ensures Contains(s, sub) <==> exists i: nat :: OccursAt(s, sub, i)
    decreases |s|
  {
    if |sub| > |s| {
      assert forall i: nat :: !OccursAt(s, sub, i);
    } else if s[..|sub|] == sub {
      assert OccursAt(s, sub, 0);
    } else {
      ContainsSpec(s[1..], sub);
      if exists i: nat :: OccursAt(s, sub, i) {
        var i: nat :| OccursAt(s, sub, i);
        assert i != 0;
        OccursShift(s, sub, i - 1);
      }
      if exists i: nat :: OccursAt(s[1..], sub, i) {
        var i: nat :| OccursAt(s[1..], sub, i);
        OccursShift(s, sub, i);
      }
    }
  }

  /**
   * `IsBlocked`: the `foreach` over the list with an early `return true`.
   */
  method IsBlocked(uri: Uri) returns (blocked: bool)
    ensures blocked <==> Blocked(uri.host, BlockedDomains)
  {
    var k := 0;
    while k < |BlockedDomains|
      invariant 0 <= k <= |BlockedDomains|
      invariant forall j :: 0 <= j < k ==> !Contains(uri.host, BlockedDomains[j])
    {
      if Contains(uri.host, BlockedDomains[k]) {
        return true;
      }
      k := k + 1;
    }
    return false;
  }

  /** Reordering (or repeating) the list's entries does not change the decision. */
  lemma BlockedOrderFree(host: string, a: seq<string>, b: seq<string>)
    requires forall d :: d in a <==> d in b
    ensures Blocked(host, a) <==> Blocked(host, b)
  {
  }

  /** A host is refused when a listed domain occurs in it, wherever that is. */
  lemma BlockedByOccurrence(host: string, k: nat, i: nat)
    requires k < |BlockedDomains| && OccursAt(host, BlockedDomains[k], i)
    ensures Blocked(host, BlockedDomains)
  {
    ContainsSpec(host, BlockedDomains[k]);
  }

  /** A host is admitted only when no listed domain occurs in it anywhere. */
  lemma AdmittedHasNoOccurrence(host: string)
    requires !Blocked(host, BlockedDomains)
    ensures forall k, i: nat :: 0 <= k < |BlockedDomains| ==> !OccursAt(host, BlockedDomains[k], i)
  {
    forall k, i: nat | 0 <= k < |BlockedDomains| ensures !OccursAt(host, BlockedDomains[k], i) {
      ContainsSpec(host, BlockedDomains[k]);
      assert BlockedDomains[k] in BlockedDomains;
    }
  }

  /** Substring matching refuses subdomains and unrelated names that merely end in a listed domain. */
  lemma SubstringExamples()
    ensures Blocked("sub.example.com", BlockedDomains)
    ensures Blocked("notgoogle.com", BlockedDomains)
    ensures !Blocked("localhost", BlockedDomains)
  {
    assert "sub.example.com"[4..15] == "example.com";
    BlockedByOccurrence("sub.example.com", 0, 4);
    assert "notgoogle.com"[3..13] == "google.com";
    BlockedByOccurrence("notgoogle.com", 1, 3);
    forall d | d in BlockedDomains ensures !Contains("localhost", d) {
    }
  }

  /** The 403 page for a refused URL, as `SendBlockedResponse` builds it. */
  function BlockedResponse(url: string): string {
    "HTTP/1.1 403 Forbidden\r\n" +
    "Content-Type: text/html\r\n\r\n" +
    "<html><body><h1>Blocked</h1>" +
    "<p>Access to " + url + " is blocked</p></body></html>"
  }

  /** The one console line `SendBlockedResponse` writes. */
  function BlockedLogLine(url: string): string {
    url + " - 403 Blocked"
  }
}
