/** What the proxy does with the parsing library: it collects a request from reads of any size, and rewrites
    the headers before it forwards them. */
module Proxy {
  import opened CStrings
  import opened OrderedHeaders
  import opened Heaps
  import opened HeaderTables
  import opened Messages
  import opened ParsedRequests
  import PrintLengths

  const MESSAGE_LEN: nat := 1024
  const BLANK: string := "\r\n\r\n"

  // ---------- Reassembly ----------

  /** strcmp(request + strlen(request) - 4, "\r\n\r\n") == 0, for a request of at least four bytes. */
  predicate EndsBlank(s: string) { |s| >= 4 && s[|s| - 4..] == BLANK }

  /** strcat of what each read delivers, up to the first NUL. */
  function Joined(chunks: seq<string>): string {
    if chunks == [] then "" else Joined(chunks[..|chunks| - 1]) + Text(chunks[|chunks| - 1])
  }

  /** A read adds what it delivers up to its first NUL. */
  lemma {:induction false} JoinedStopsAtNul(chunks: seq<string>, a: string, b: string)
    requires NUL !in a
    ensures Joined(chunks + [a + [NUL] + b]) == Joined(chunks) + a && Joined(chunks + [a]) == Joined(chunks) + a
  {
    var c := a + [NUL] + b;
    assert (chunks + [c])[..|chunks|] == chunks && (chunks + [a])[..|chunks|] == chunks;
    TextOfNulFree(a);
    ScanStops(c, 0, |c|, {NUL});
    assert c[|a|] == NUL && forall i | 0 <= i < |a| :: c[i] == a[i] && a[i] in a;
    assert Text(c) == a;
  }

  /** How the loop ends: with a request and the number of reads it took, or because a read delivered nothing. */
  datatype Outcome = Complete(request: string, taken: nat) | Lost(taken: nat)

  function Collect(chunks: seq<string>, k: nat): (o: Outcome)
    requires k <= |chunks|
    ensures k <= o.taken <= |chunks|
    decreases |chunks| - k
  {
    if EndsBlank(Joined(chunks[..k])) then Complete(Joined(chunks[..k]), k)
    else if k == |chunks| || chunks[k] == "" then Lost(k)
    else Collect(chunks, k + 1)
  }

  /** The loop. `request` has room for MESSAGE_LEN - 1 bytes, and strcat does not check. */
  method Reassemble(chunks: seq<string>) returns (o: Outcome)
    requires |Joined(chunks[..Collect(chunks, 0).taken])| < MESSAGE_LEN
    ensures o == Collect(chunks, 0)
  {
    var request, k := "", 0;
    assert chunks[..0] == [];
    while !EndsBlank(request)
      invariant k <= |chunks| && request == Joined(chunks[..k])
      invariant Collect(chunks, k) == Collect(chunks, 0)
      decreases |chunks| - k
    {
      if k == |chunks| || chunks[k] == "" { return Lost(k); }
      assert chunks[..k + 1][..k] == chunks[..k];
      request := request + Text(chunks[k]);
      k := k + 1;
    }
    return Complete(request, k);
  }

  /** The request is complete after the first `k` reads: they end with the blank line, and no fewer do. */
  ghost predicate CompleteAfter(chunks: seq<string>, k: nat) {
    k <= |chunks| && EndsBlank(Joined(chunks[..k])) && StillReading(chunks, k)
  }

  /** The connection is lost after the first `k` reads: without a blank line at any end, the next delivers nothing. */
  ghost predicate LostAfter(chunks: seq<string>, k: nat) {
    && k <= |chunks| && !EndsBlank(Joined(chunks[..k])) && StillReading(chunks, k)
    && (k == |chunks| || chunks[k] == "")
  }

  ghost predicate StillReading(chunks: seq<string>, k: nat)
    requires k <= |chunks|
  {
    forall j | 0 <= j < k :: chunks[j] != "" && !EndsBlank(Joined(chunks[..j]))
  }

  /** For all reads: the loop ends with a request exactly when one is complete, which is then all that was read, and
      with a lost connection exactly when it is lost before. */
  lemma {:induction false} CollectIs(chunks: seq<string>, k: nat, request: string)
    ensures Collect(chunks, 0) == Complete(request, k) <==> CompleteAfter(chunks, k) && request == Joined(chunks[..k])
    ensures Collect(chunks, 0) == Lost(k) <==> LostAfter(chunks, k)
  {
    CollectFrom(chunks, 0, k, request);
  }

  lemma {:induction false} CollectFrom(chunks: seq<string>, i: nat, k: nat, request: string)
    requires i <= |chunks| && StillReading(chunks, i)
    ensures Collect(chunks, i) == Complete(request, k) <==> CompleteAfter(chunks, k) && request == Joined(chunks[..k])
    ensures Collect(chunks, i) == Lost(k) <==> LostAfter(chunks, k)
    decreases |chunks| - i
  {
    hide EndsBlank, Joined;
    if !EndsBlank(Joined(chunks[..i])) && i < |chunks| && chunks[i] != "" {
      CollectFrom(chunks, i + 1, k, request);
    }
  }

  /** The request arrives in some number of nonempty reads. */
  ghost predicate IsSplit(chunks: seq<string>, request: string) {
    (forall i | 0 <= i < |chunks| :: chunks[i] != "" && NUL !in chunks[i]) && Joined(chunks) == request
  }

  ghost predicate BlankOnlyAtEnd(s: string) { forall i: nat | BlankAt(s, i) :: i + 4 == |s| }

  lemma {:induction false} JoinedPrefix(chunks: seq<string>, k: nat)
    requires k <= |chunks|
    ensures Joined(chunks[..k]) <= Joined(chunks)
    ensures (forall i | 0 <= i < |chunks| :: chunks[i] != "" && NUL !in chunks[i]) && k < |chunks| ==>
              |Joined(chunks[..k])| < |Joined(chunks)|
  {
    if k == |chunks| {
      assert chunks[..k] == chunks;
    } else {
      var front := chunks[..|chunks| - 1];
      JoinedPrefix(front, k);
      assert front[..k] == chunks[..k];
      if NUL !in chunks[|chunks| - 1] { TextOfNulFree(chunks[|chunks| - 1]); }
    }
  }

  lemma {:induction false} EndsBlankAt(s: string, prefix: string)
    requires prefix <= s && EndsBlank(prefix)
    ensures BlankAt(s, |prefix| - 4)
  {
    var tail := prefix[|prefix| - 4..];
    assert forall i | 0 <= i < 4 :: s[|prefix| - 4 + i] == tail[i];
  }

  lemma {:induction false} CollectsAll(chunks: seq<string>, request: string, k: nat)
    requires IsSplit(chunks, request) && EndsBlank(request) && BlankOnlyAtEnd(request) && k <= |chunks|
    ensures Collect(chunks, k) == Complete(request, |chunks|)
    decreases |chunks| - k
  {
    JoinedPrefix(chunks, k);
    if k < |chunks| {
      if EndsBlank(Joined(chunks[..k])) { EndsBlankAt(request, Joined(chunks[..k])); }
      CollectsAll(chunks, request, k + 1);
    } else {
      assert chunks[..k] == chunks;
    }
  }

  /** Stopping after exactly the whole request, for every way it can be split over reads, is the same as having
      no blank line before the end. */
  lemma {:induction false} ChunkingIndependence(request: string)
    requires EndsBlank(request) && NUL !in request
    ensures (forall chunks | IsSplit(chunks, request) :: Collect(chunks, 0) == Complete(request, |chunks|))
            <==> BlankOnlyAtEnd(request)
  {
    if BlankOnlyAtEnd(request) {
      forall chunks | IsSplit(chunks, request)
        ensures Collect(chunks, 0) == Complete(request, |chunks|)
      {
        CollectsAll(chunks, request, 0);
      }
    } else {
      var i: nat :| BlankAt(request, i) && i + 4 != |request|;
      EarlyStop(request, i + 4);
    }
  }

  /** A request with a blank line inside stops early when a read happens to end there. */
  lemma {:induction false} EarlyStop(request: string, cut: nat)
    requires NUL !in request && 4 <= cut < |request| && BlankAt(request, cut - 4)
    ensures var chunks := [request[..cut], request[cut..]];
            IsSplit(chunks, request) && Collect(chunks, 0) == Complete(request[..cut], 1)
  {
    var a, b := request[..cut], request[cut..];
    var chunks := [a, b];
    TextOfNulFree(a);
    TextOfNulFree(b);
    var none: seq<string> := [];
    assert chunks[..0] == none && chunks[..1] == [a] && [a][..0] == none;
    assert Joined([a]) == "" + a;
    assert Joined(chunks) == Joined([a]) + b == request;
    assert a[|a| - 4..] == BLANK;
  }

  // ---------- Header rewriting ----------

  const CONNECTION := Header("Connection", "close\n")
  const DROPPED: set<string> := {"Connection", "Accept-Encoding"}

  /** The headers whose key is not dropped, in order. */
  function Forwarded(hs: seq<Header>): seq<Header> {
    if hs == [] then []
    else Forwarded(hs[..|hs| - 1]) + if hs[|hs| - 1].key in DROPPED then [] else [hs[|hs| - 1]]
  }

  lemma {:induction false} ForwardedIsWithout(hs: seq<Header>)
    ensures Without(Without(hs, "Connection"), "Accept-Encoding") == Forwarded(hs)
  {
    if hs != [] {
      var front, last := hs[..|hs| - 1], hs[|hs| - 1];
      ForwardedIsWithout(front);
      var kept := if last.key == "Connection" then [] else [last];
      WithoutJoin(Without(front, "Connection"), kept, "Accept-Encoding");
      assert kept != [] ==> kept[..0] == [];
    }
  }

  lemma {:induction false} RewriteIs(hs: seq<Header>)
    ensures Without(Put(hs, "Connection", "close\n"), "Accept-Encoding") == Forwarded(hs) + [CONNECTION]
  {
    hide Forwarded;
    ForwardedIsWithout(hs);
    WithoutJoin(Without(hs, "Connection"), [CONNECTION], "Accept-Encoding");
    WithoutAbsent([CONNECTION], "Accept-Encoding");
  }

  lemma {:induction false} RewrittenBlock(hs: seq<Header>)
    ensures HeaderBlock(Forwarded(hs) + [CONNECTION]) == Head(hs)
  {
    hide Forwarded;
    var kept := Forwarded(hs);
    var all := kept + [CONNECTION];
    assert all[..|all| - 1] == kept;
    assert HeaderLine(CONNECTION) == "Connection: close\n\r\n";
  }

  /** The block that is forwarded: the original headers in order without the dropped ones, one Connection header
      with value "close\n", the blank line. */
  function Head(hs: seq<Header>): string { HeaderText(Forwarded(hs)) + "Connection: close\n\r\n" + CRLF }

  function Rewritten(o: Object): Object { o.(headers := Forwarded(o.headers) + [CONNECTION]) }

  /** What the rewriting makes of a table: the other headers as they were and in their order, one Connection header,
      and no Accept-Encoding. */
  lemma {:induction false} RewriteMeans(hs: seq<Header>, key: string)
    requires Distinct(hs)
    ensures var after := Forwarded(hs) + [CONNECTION];
            && Lookup(after, "Connection") == Some("close\n") && Lookup(after, "Accept-Encoding") == None
            && (key != "Connection" && key != "Accept-Encoding" ==> Lookup(after, key) == Lookup(hs, key))
            && Distinct(after)
  {
    RewriteIs(hs);
    hide Forwarded, Put, Without;
    PutDistinct(hs, "Connection", "close\n");
    WithoutDistinct(Put(hs, "Connection", "close\n"), "Accept-Encoding");
    LookupWithout(Put(hs, "Connection", "close\n"), "Accept-Encoding", key);
    LookupWithout(Put(hs, "Connection", "close\n"), "Accept-Encoding", "Connection");
    LookupWithout(Put(hs, "Connection", "close\n"), "Accept-Encoding", "Accept-Encoding");
  }

  /** Each header stays in its place exactly when it has another key, whatever stands around it. */
  lemma {:induction false} ForwardedAt(before: seq<Header>, h: Header, behind: seq<Header>)
    ensures Forwarded(before + [h] + behind)
         == Forwarded(before) + (if h.key == "Connection" || h.key == "Accept-Encoding" then [] else [h])
            + Forwarded(behind)
  {
    ForwardedJoin(before + [h], behind);
    ForwardedJoin(before, [h]);
    assert [h][..0] == [];
  }

  lemma {:induction false} ForwardedJoin(a: seq<Header>, b: seq<Header>)
    ensures Forwarded(a + b) == Forwarded(a) + Forwarded(b)
  {
    hide Without, Forwarded;
    ForwardedIsWithout(a + b);
    ForwardedIsWithout(a);
    ForwardedIsWithout(b);
    WithoutJoin(a, b, "Connection");
    WithoutJoin(Without(a, "Connection"), Without(b, "Connection"), "Accept-Encoding");
  }

  /** The buffer has the measured length, and the block stands at its start. */
  ghost predicate Written(head: array<char>, block: string)
    reads head
  {
    |block| <= head.Length == Measured(|block|) && head[..|block|] == block
  }

  /** The block is written into a buffer as long as it is measured; that it is not measured short is the one
      thing the code relies on. */
  method RewriteHeaders(pr: ParsedRequest) returns (head: array<char>, ret: int)
    requires pr.Valid() && pr.buf != null
    requires |Head(pr.table.Contents())| <= Measured(|Head(pr.table.Contents())|)
    modifies pr.table, pr.heap
    ensures pr.Valid() && pr.heap.live - pr.Owned() == old(pr.heap.live - pr.Owned())
    ensures pr.Value() == Rewritten(old(pr.Value()))
    ensures ret == 0 && Written(head, Head(old(pr.table.Contents())))
  {
    hide Forwarded, Head, Measured, HeaderBlock, Own, Entries, Distinct;
    RewrittenBlock(pr.table.Contents());
    EditHeaders(pr);
    head, ret := PrintHead(pr);
  }

  /** Adds the proxy's own Connection header and drops the client's choice of encoding. */
  method EditHeaders(pr: ParsedRequest)
    requires pr.Valid()
    modifies pr.table, pr.heap
    ensures pr.Valid() && pr.heap.live - pr.Owned() == old(pr.heap.live - pr.Owned())
    ensures pr.table.Contents() == Forwarded(old(pr.table.Contents())) + [CONNECTION]
    ensures pr.Value() == Rewritten(old(pr.Value()))
  {
    RewriteIs(pr.table.Contents());
    hide Forwarded, Without, Put, Own, Entries, Distinct;
    var _ := pr.SetHeader("Connection", "close\n");
    var _ := pr.RemoveHeader("Accept-Encoding");
  }

  /** The variable-length array and the print into it. */
  method PrintHead(pr: ParsedRequest) returns (head: array<char>, ret: int)
    requires pr.Valid() && pr.buf != null
    requires |HeaderBlock(pr.table.Contents())| <= Measured(|HeaderBlock(pr.table.Contents())|)
    ensures fresh(head) && ret == 0 && Written(head, HeaderBlock(pr.table.Contents()))
  {
    hide HeaderBlock, Own, Entries, Distinct, Measured;
    var size := pr.HeadersLen();
    head := new char[size];
    ret := pr.UnparseHeaders(head, size);
  }

  lemma {:induction false} ForwardedShrinks(hs: seq<Header>)
    ensures |HeaderText(Forwarded(hs))| <= |HeaderText(hs)|
  {
    hide Forwarded;
    ForwardedIsWithout(hs);
    PrintLengths.WithoutShrinks(hs, "Connection");
    PrintLengths.WithoutShrinks(Without(hs, "Connection"), "Accept-Encoding");
  }

  /** The head of every accepted request is short enough to be measured exactly. */
  lemma {:induction false} RewriteFits(request: string)
    requires Messages.Parse(request, []).Parsed?
    ensures |Head(Messages.Parse(request, []).headers)| < 0x8000_0000
  {
    var hs := Messages.Parse(request, []).headers;
    PrintLengths.HeadersFit(request);
    hide Messages.Parse, Forwarded;
    ForwardedShrinks(hs);
  }

  /** From a collected request to the rewritten header block. When the parse fails, nothing is set or written and the
      code goes back to collect another request; the object stays behind as the parse has left it. */
  method HandleRequest(heap: Heap, request: string) returns (req: ParsedRequest, head: array?<char>)
    requires heap.Valid() && InBounds(request)
    modifies heap
    ensures fresh(req) && req.Valid() && req.heap == heap && heap.live - req.Owned() == old(heap.live)
    ensures head != null <==> !LineRefused(request) && !Colonless(Text(request))
    ensures var r := Messages.Parse(request, []);
            if head != null then
              r.Parsed? && req.Value() == Rewritten(Assigned(r.fields, r.headers)) && head[..] == Head(r.headers)
            else req.Value() == Stored(Unassigned([]), r)
  {
    hide Messages.Parse, InBounds, LineRefused, Colonless, Head, Rewritten, Measured, Own, Entries, Distinct, Str;
    ParseOutcome(request, []);
    var ret;
    req, ret := ParseCollected(heap, request);
    if ret < 0 { return req, null; }
    RewriteFits(request);
    MeasuredExact(|Head(Messages.Parse(request, []).headers)|);
    head, ret := RewriteHeaders(req);
    assert head[..] == head[..head.Length];
  }

  method ParseCollected(heap: Heap, request: string) returns (req: ParsedRequest, ret: int)
    requires heap.Valid() && InBounds(request)
    modifies heap
    ensures fresh(req) && fresh(req.table) && req.Valid()
    ensures req.heap == heap && heap.live - req.Owned() == old(heap.live)
    ensures var r := Messages.Parse(request, []);
            && ret == (if r.Parsed? && r.ok then 0 else -1) && req.Value() == Stored(Unassigned([]), r)
            && (ret == 0 ==> req.buf != null && req.table.Contents() == r.headers)
  {
    hide Messages.Parse, InBounds, Own, Entries, Distinct, Str;
    req := new ParsedRequest(heap);
    ret := req.Parse(request);
  }
}
