/**
 * The response relay: upstream chunks are read into one 4096-byte buffer and
 * written to the client as they come, until a read returns 0; the status code
 * of the first chunk that shows `HTTP/1.[01] (\d{3})` is logged once.
 */
module ResponseRelay {
  import opened Wrappers
  import opened Ascii
  import opened Substitution

  const BufferSize: nat := 4096

  /**
   * The unanchored status pattern `HTTP/1.[01] (\d{3})` matches at position `i`:
   * `HTTP/1`, any character but a line feed, `0` or `1`, a space, three digits.
   */
  predicate StatusAt(s: string, i: nat) {
    i + 12 <= |s| && s[i..i + 6] == "HTTP/1" && s[i + 6] != '\n' &&
    (s[i + 7] == '0' || s[i + 7] == '1') && s[i + 8] == ' ' &&
    IsDigit(s[i + 9]) && IsDigit(s[i + 10]) && IsDigit(s[i + 11])
  }

  /** The leftmost match at or after position `i`. */
  function FindStatus(s: string, i: nat): (r: Option<nat>)
    ensures r.Some? ==> i <= r.value && StatusAt(s, r.value)
    ensures r.Some? ==> forall j :: i <= j < r.value ==> !StatusAt(s, j)
    ensures r.None? ==> forall j :: i <= j ==> !StatusAt(s, j)
    decreases |s| - i
  {
    if i + 12 > |s| then None
    else if StatusAt(s, i) then Some(i)
    else FindStatus(s, i + 1)
  }

  /** The status code one chunk shows: group 1 of the leftmost match in its ASCII text. */
  function ChunkStatus(chunk: seq<byte>): Option<string> {
    var s := Decode(chunk);
    match FindStatus(s, 0)
    case None => None
    case Some(p) => Some(s[p + 9..p + 12])
  }

  /** The number of chunks delivered: those before the first read that returns 0. */
  function DeliveredCount(received: seq<seq<byte>>): (n: nat)
    ensures n <= |received|
    ensures forall k :: 0 <= k < n ==> received[k] != []
    ensures n < |received| ==> received[n] == []
  {
    if received == [] || received[0] == [] then 0 else 1 + DeliveredCount(received[1..])
  }

  function Delivered(received: seq<seq<byte>>): seq<seq<byte>> {
    received[..DeliveredCount(received)]
  }

  /** The chunks one after another. */
  function Flatten(chunks: seq<seq<byte>>): seq<byte> {
    if chunks == [] then [] else Flatten(chunks[..|chunks| - 1]) + chunks[|chunks| - 1]
  }

  /** The status code the relay logs for these chunks: that of the earliest chunk showing one. */
  function FirstStatus(chunks: seq<seq<byte>>): Option<string> {
    if chunks == [] then None
    else
      var earlier := FirstStatus(chunks[..|chunks| - 1]);
      if earlier.Some? then earlier else ChunkStatus(chunks[|chunks| - 1])
  }

  /** The console line the relay writes for a status, if any. */
  function StatusLog(url: string, status: Option<string>): seq<string> {
    match status
    case None => []
    case Some(code) => [url + " - " + code]
  }

  /** `NetworkStream.Read` into the buffer: read number `k` copies its chunk in and returns its length, or 0 past the end. */
  method ReadChunk(buffer: array<byte>, received: seq<seq<byte>>, k: nat) returns (count: nat)
    requires forall j :: 0 <= j < |received| ==> |received[j]| <= buffer.Length
    modifies buffer
    ensures count <= buffer.Length
    ensures k < |received| ==> count == |received[k]| && buffer[..count] == received[k]
    ensures k >= |received| ==> count == 0
  {
    if k >= |received| {
      return 0;
    }
    var chunk := received[k];
    forall i | 0 <= i < |chunk| {
      buffer[i] := chunk[i];
    }
    return |chunk|;
  }

  /**
   * The relay loop with its `statusCodeLogged` flag. It returns what the client
   * receives and the console lines the loop writes.
   */
  method Relay(url: string, received: seq<seq<byte>>) returns (toClient: seq<byte>, log: seq<string>)
    requires forall k :: 0 <= k < |received| ==> |received[k]| <= BufferSize
    ensures toClient == Flatten(Delivered(received))
    ensures log == StatusLog(url, FirstStatus(Delivered(received)))
  {
    var responseBuffer := new byte[BufferSize];
    toClient := [];
    log := [];
    var statusCodeLogged := false;
    var k := 0;
    var targetBytesRead := ReadChunk(responseBuffer, received, k);
    DeliveredCountStep(received, k);
    while targetBytesRead > 0
      invariant k <= DeliveredCount(received)
      invariant targetBytesRead <= responseBuffer.Length
      invariant targetBytesRead > 0 <==> k < DeliveredCount(received)
      invariant targetBytesRead > 0 ==> responseBuffer[..targetBytesRead] == received[k]
      invariant toClient == Flatten(received[..k])
      invariant statusCodeLogged <==> FirstStatus(received[..k]).Some?
      invariant log == StatusLog(url, FirstStatus(received[..k]))
      decreases |received| - k
    {
      var chunk := responseBuffer[..targetBytesRead];
      PrefixStep(received, k);
      toClient := toClient + chunk;
      if !statusCodeLogged {
        var response := Decode(chunk);
        var responseMatch := FindStatus(response, 0);
        if responseMatch.Some? {
          var p := responseMatch.value;
          assert ChunkStatus(chunk) == Some(response[p + 9..p + 12]);
          log := log + [url + " - " + response[p + 9..p + 12]];
          statusCodeLogged := true;
        } else {
          assert ChunkStatus(chunk).None?;
        }
      }
      k := k + 1;
      targetBytesRead := ReadChunk(responseBuffer, received, k);
      DeliveredCountStep(received, k);
    }
    assert received[..k] == Delivered(received);
  }

  /** A read within the delivered prefix returns data; the read just after it returns 0. */
  lemma DeliveredCountStep(received: seq<seq<byte>>, k: nat)
    ensures k < DeliveredCount(received) ==> k < |received| && received[k] != []
    ensures k == DeliveredCount(received) ==> k == |received| || received[k] == []
  {
  }

  /** One more chunk: the output grows by it, and it is inspected only while nothing is logged. */
  lemma PrefixStep(chunks: seq<seq<byte>>, k: nat)
    requires k < |chunks|
    ensures Flatten(chunks[..k + 1]) == Flatten(chunks[..k]) + chunks[k]
    ensures FirstStatus(chunks[..k + 1]) ==
      if FirstStatus(chunks[..k]).Some? then FirstStatus(chunks[..k]) else ChunkStatus(chunks[k])
  {
    assert chunks[..k + 1][..k] == chunks[..k];
  }

  /** Flattening distributes over concatenation of chunk lists. */
  lemma {:induction false} FlattenAppend(a: seq<seq<byte>>, b: seq<seq<byte>>)
    ensures Flatten(a + b) == Flatten(a) + Flatten(b)
    decreases |b|
  {
    if b != [] {
      var b' := b[..|b| - 1];
      assert (a + b)[..|a + b| - 1] == a + b';
      assert (a + b)[|a + b| - 1] == b[|b| - 1];
      FlattenAppend(a, b');
      assert Flatten(b) == Flatten(b') + b[|b| - 1];
    } else {
      assert a + b == a;
    }
  }

  /** Delivery stops at the first empty read: later chunks never reach the client. */
  lemma DeliveredStopsAtEmpty(before: seq<seq<byte>>, after: seq<seq<byte>>)
    requires forall k :: 0 <= k < |before| ==> before[k] != []
    ensures Delivered(before + [[]] + after) == before
  {
    var received := before + [[]] + after;
    assert received[|before|] == [];
    assert forall k :: 0 <= k < |before| ==> received[k] == before[k];
    var n := DeliveredCount(received);
    assert n == |before|;
    assert received[..n] == before;
  }

  /** With no empty read, every chunk is delivered. */
  lemma DeliveredAll(received: seq<seq<byte>>)
    requires forall k :: 0 <= k < |received| ==> received[k] != []
    ensures Delivered(received) == received
  {
    assert received[..|received|] == received;
  }

  /** No chunk shows a status: nothing is logged. Otherwise the logged code is the earliest chunk's. */
  lemma {:induction false} FirstStatusEarliest(chunks: seq<seq<byte>>, k: nat)
    requires k < |chunks| && ChunkStatus(chunks[k]).Some?
    requires forall j :: 0 <= j < k ==> ChunkStatus(chunks[j]).None?
    ensures FirstStatus(chunks) == ChunkStatus(chunks[k])
    decreases |chunks|
  {
    var init := chunks[..|chunks| - 1];
    if k < |chunks| - 1 {
      FirstStatusEarliest(init, k);
    } else {
      FirstStatusNone(init);
    }
  }

  /** `FirstStatus` finds nothing exactly when no chunk shows a status. */
  lemma {:induction false} FirstStatusNone(chunks: seq<seq<byte>>)
    ensures FirstStatus(chunks).None? <==> forall j :: 0 <= j < |chunks| ==> ChunkStatus(chunks[j]).None?
    decreases |chunks|
  {
    if chunks != [] {
      var init := chunks[..|chunks| - 1];
      FirstStatusNone(init);
      assert forall j :: 0 <= j < |init| ==> init[j] == chunks[j];
    }
  }

  /** Once a status is found, later chunks are not inspected: appending chunks changes nothing. */
  lemma {:induction false} FirstStatusStable(chunks: seq<seq<byte>>, more: seq<seq<byte>>)
    requires FirstStatus(chunks).Some?
    ensures FirstStatus(chunks + more) == FirstStatus(chunks)
    decreases |more|
  {
    if more != [] {
      var more' := more[..|more| - 1];
      assert (chunks + more)[..|chunks + more| - 1] == chunks + more';
      FirstStatusStable(chunks, more');
      assert FirstStatus(chunks + more) == FirstStatus(chunks + more');
    } else {
      assert chunks + more == chunks;
    }
  }

  /** A logged status code is three digits. */
  lemma ChunkStatusDigits(chunk: seq<byte>)
    requires ChunkStatus(chunk).Some?
    ensures var code := ChunkStatus(chunk).value;
      |code| == 3 && forall i :: 0 <= i < 3 ==> IsDigit(code[i])
  {
  }

  /** A chunk shorter than a status line shows no status. */
  lemma ShortChunkShowsNoStatus(chunk: seq<byte>)
    requires |chunk| < 12
    ensures ChunkStatus(chunk).None?
  {
  }

  lemma FlattenPair(x: seq<byte>, y: seq<byte>)
    ensures Flatten([x, y]) == x + y
  {
    assert [x, y][..1] == [x];
    assert [x][..0] == [];
    assert Flatten([x]) == [] + x == x;
  }

  lemma SplitTextShowsStatus(a: string, b: string)
    requires a == "HTTP/1.1 2" && b == "00 OK\r\n"
    ensures StatusAt(a + b, 0)
  {
    var s := a + b;
    assert forall k :: 0 <= k < 10 ==> s[k] == a[k];
    assert s[10] == '0' && s[11] == '0';
    assert s[0] == 'H' && s[1] == 'T' && s[2] == 'T' && s[3] == 'P' && s[4] == '/' && s[5] == '1';
    assert s[0..6] == "HTTP/1";
  }

  /** A status line split across two chunks is matched in neither, though the bytes the client gets show it. */
  lemma SplitStatusIsMissed()
    ensures var received := [Encode("HTTP/1.1 2"), Encode("00 OK\r\n")];
      FirstStatus(received).None? && StatusAt(Decode(Flatten(received)), 0)
  {
    var a, b := "HTTP/1.1 2", "00 OK\r\n";
    var x, y := Encode(a), Encode(b);
    ShortChunkShowsNoStatus(x);
    ShortChunkShowsNoStatus(y);
    FirstStatusNone([x, y]);
    FlattenPair(x, y);
    EncodeAppend(a, b);
    DecodeEncode(a + b);
    SplitTextShowsStatus(a, b);
  }

  lemma WholeTextShowsStatus(head: string, rest: string)
    requires head == "HTTP/1.1 200"
    ensures StatusAt(head + rest, 0) && (head + rest)[9..12] == "200"
  {
    var s := head + rest;
    assert forall k :: 0 <= k < 12 ==> s[k] == head[k];
    assert s[0] == 'H' && s[1] == 'T' && s[2] == 'T' && s[3] == 'P' && s[4] == '/' && s[5] == '1';
    assert s[0..6] == "HTTP/1";
    assert s[9] == '2' && s[10] == '0' && s[11] == '0';
    assert s[9..12] == "200";
  }

  /** A response whose first chunk starts with a complete status line: its code is logged. */
  lemma WholeStatusIsLogged(rest: string)
    requires IsAsciiText(rest)
    ensures FirstStatus([Encode("HTTP/1.1 200" + rest)]) == Some("200")
  {
    var head := "HTTP/1.1 200";
    assert IsAsciiText(head);
    var s := head + rest;
    assert IsAsciiText(s) by {
      assert forall k :: 0 <= k < |s| ==> s[k] == if k < |head| then head[k] else rest[k - |head|];
    }
    DecodeEncode(s);
    WholeTextShowsStatus(head, rest);
    FirstStatusEarliest([Encode(s)], 0);
  }
}
