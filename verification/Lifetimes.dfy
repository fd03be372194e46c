/** Whole lives of a request object: create, any sequence of calls, destroy. */
module Lifetimes {
  import opened CStrings
  import opened Heaps
  import opened OrderedHeaders
  import opened RequestLines
  import opened HeaderLines
  import opened Messages
  import opened ParsedRequests

  datatype Call = ParseCall(input: string) | SetCall(key: string, value: string) | RemoveCall(key: string)

  /** A parse that would read outside its buffers has no meaning; every other call has. */
  predicate Defined(obj: Object, call: Call) {
    call.ParseCall? && obj.Unassigned? ==> InBounds(call.input)
  }

  function Step(obj: Object, call: Call): Object {
    match call
    case SetCall(k, v) => obj.(headers := Put(obj.headers, k, v))
    case RemoveCall(k) => obj.(headers := Without(obj.headers, k))
    case ParseCall(input) =>
      if obj.Assigned? then obj else Stored(obj, Messages.Parse(input, obj.headers))
  }

  predicate AllDefined(obj: Object, calls: seq<Call>)
    decreases |calls|
  {
    calls == [] || (Defined(obj, calls[0]) && AllDefined(Step(obj, calls[0]), calls[1..]))
  }

  function Run(obj: Object, calls: seq<Call>): Object
    decreases |calls|
  {
    if calls == [] then obj else Run(Step(obj, calls[0]), calls[1..])
  }

  /** One call on the object does what `Step` says and is neutral for everybody else's heap blocks. */
  method Perform(pr: ParsedRequest, call: Call)
    requires pr.Valid() && Defined(pr.Value(), call)
    modifies pr, pr.table, pr.heap
    ensures pr.Valid() && pr.heap.live - pr.Owned() == old(pr.heap.live - pr.Owned())
    ensures pr.Value() == Step(old(pr.Value()), call)
  {
    match call
    case ParseCall(input) => var _ := pr.Parse(input);
    case SetCall(k, v) => var _ := pr.SetHeader(k, v);
    case RemoveCall(k) => var _ := pr.RemoveHeader(k);
  }

  /** Whatever happens between create and destroy, every heap block the object ever held is freed exactly
      once: `Free` is only ever called on a live block, and in the end nothing is left. */
  method Lifetime(heap: Heap, calls: seq<Call>) returns (ghost value: Object)
    requires heap.Valid() && AllDefined(Unassigned([]), calls)
    modifies heap
    ensures heap.Valid() && heap.live == old(heap.live)
    ensures value == Run(Unassigned([]), calls)
  {
    var pr := new ParsedRequest(heap);
    var i := 0;
    while i < |calls|
      invariant i <= |calls|
      invariant fresh(pr) && fresh(pr.table) && pr.heap == heap && pr.Valid()
      invariant pr.heap.live - pr.Owned() == old(heap.live)
      invariant AllDefined(pr.Value(), calls[i..])
      invariant Run(pr.Value(), calls[i..]) == Run(Unassigned([]), calls)
    {
      assert calls[i..][1..] == calls[i + 1..];
      Perform(pr, calls[i]);
      i := i + 1;
    }
    value := pr.Value();
    pr.Destroy();
  }

  // ---------- The header table over a whole life ----------

  /** What a call does to the header table: a parse makes one set for each header its loop finds. */
  function OpsOfCall(obj: Object, call: Call): seq<Op> {
    match call
    case SetCall(k, v) => [SetOp(k, v)]
    case RemoveCall(k) => [RemoveOp(k)]
    case ParseCall(input) =>
      if obj.Assigned? || LineRefused(input) then []
      else
        CrlfBeforeBlank(Text(input));
        Sets(SetsOf(Text(input), FindCrlf(Text(input), 0) + 2))
  }

  function OpsOf(obj: Object, calls: seq<Call>): seq<Op>
    decreases |calls|
  {
    if calls == [] then [] else OpsOfCall(obj, calls[0]) + OpsOf(Step(obj, calls[0]), calls[1..])
  }

  lemma {:induction false} CallIsOps(obj: Object, call: Call)
    requires Defined(obj, call)
    ensures Step(obj, call).headers == ApplyAll(obj.headers, OpsOfCall(obj, call))
  {
    hide Messages.Parse, InBounds, LineRefused, Colonless, Text, FindCrlf, PutAll, Sets, SetsOf, Without, Put;
    match call
    case ParseCall(input) =>
      if obj.Unassigned? {
        ParseOutcome(input, obj.headers);
        if !LineRefused(input) {
          ParsedIsSets(input, obj.headers);
          PutAllIsApplyAll(obj.headers, SetsOf(Text(input), FindCrlf(Text(input), 0) + 2));
        }
      }
    case SetCall(k, v) => assert [SetOp(k, v)][..0] == [];
    case RemoveCall(k) => assert [RemoveOp(k)][..0] == [];
  }

  lemma {:induction false} RunIsOps(obj: Object, calls: seq<Call>)
    requires AllDefined(obj, calls)
    ensures Run(obj, calls).headers == ApplyAll(obj.headers, OpsOf(obj, calls))
    decreases |calls|
  {
    hide Step, Defined, OpsOfCall;
    if calls != [] {
      CallIsOps(obj, calls[0]);
      RunIsOps(Step(obj, calls[0]), calls[1..]);
      ApplyAllJoin(obj.headers, OpsOfCall(obj, calls[0]), OpsOf(Step(obj, calls[0]), calls[1..]));
    }
  }

  /** After any sequence of parse, set and remove on a new object its live headers are the sets that no later
      operation on the same key undid or repeated, in the order they were made; a lookup finds the value last set
      and not since removed. */
  lemma {:induction false} LifeOfHeaders(calls: seq<Call>, key: string)
    requires AllDefined(Unassigned([]), calls)
    ensures var hs, ops := Run(Unassigned([]), calls).headers, OpsOf(Unassigned([]), calls);
            hs == Survivors(ops) && Distinct(hs) && Lookup(hs, key) == LastValue(ops, key)
  {
    var ops := OpsOf(Unassigned([]), calls);
    RunIsOps(Unassigned([]), calls);
    TableIsSurvivors(ops);
    TableIsDistinct(ops);
    LookupIsLastValue(ops, key);
  }

  // ---------- Retrying ----------

  function Attempts(inputs: seq<string>): seq<Call> {
    seq(|inputs|, i requires 0 <= i < |inputs| => ParseCall(inputs[i]))
  }

  /** An object that holds a request stays as it is. */
  lemma {:induction false} AssignedIsFinal(obj: Object, inputs: seq<string>)
    requires obj.Assigned?
    ensures AllDefined(obj, Attempts(inputs)) && Run(obj, Attempts(inputs)) == obj
    decreases |inputs|
  {
    if inputs != [] {
      assert Attempts(inputs)[1..] == Attempts(inputs[1..]);
      AssignedIsFinal(obj, inputs[1..]);
    }
  }

  /** A parse on a new object returns -1 when its request line is refused or its last header line, and everything
      behind it, is without a colon. Only the first leaves the object new; after the second it holds the request. */
  lemma {:induction false} FailedParse(input: string)
    requires InBounds(input)
    ensures var r := Messages.Parse(input, []);
            !(r.Parsed? && r.ok) <==> LineRefused(input) || Colonless(Text(input))
    ensures Step(Unassigned([]), ParseCall(input)) == Unassigned([]) <==> LineRefused(input)
    ensures Step(Unassigned([]), ParseCall(input)).Assigned? <==> !LineRefused(input)
  {
    ParseOutcome(input, []);
    hide Messages.Parse, LineRefused, Colonless;
  }

  /** So after any number of attempts an object is as good as new exactly when every request line was refused. */
  lemma {:induction false} RetryIsTransparent(inputs: seq<string>)
    requires AllDefined(Unassigned([]), Attempts(inputs))
    ensures Run(Unassigned([]), Attempts(inputs)) == Unassigned([])
       <==> forall i | 0 <= i < |inputs| :: LineRefused(inputs[i])
    decreases |inputs|
  {
    if inputs != [] {
      var rest := inputs[1..];
      assert Attempts(inputs)[1..] == Attempts(rest);
      FailedParse(inputs[0]);
      hide Messages.Parse, Step, LineRefused, InBounds;
      if LineRefused(inputs[0]) {
        RetryIsTransparent(rest);
        assert forall i | 0 < i < |inputs| :: inputs[i] == rest[i - 1];
        assert forall i | 0 <= i < |rest| :: rest[i] == inputs[i + 1];
      } else {
        AssignedIsFinal(Step(Unassigned([]), ParseCall(inputs[0])), rest);
      }
    }
  }

  /** Such a request: any acceptable request line, and a line without colon before the end. */
  lemma {:induction false} BadHeaderIsNotRefused(f: Fields)
    requires Proper(f) && NulFree(f) && CrlfFree(f) && |LineText(f)| < 1000
    ensures Messages.Parse(LineText(f) + CRLF + "x\r\n\r\n", []) == Parsed(false, f, [])
  {
    var rest := "x\r\n\r\n";
    ScanStops(rest, 0, |rest|, {':'});
    assert FindColon(rest, 0) == |rest|;
    assert Loop(rest, 0, []) == Done(false, []);
    assert BlankAt(rest, 1);
    hide Loop, Messages.Parse, LineText, Proper, NulFree, CrlfFree;
    ParseBehindLine(f, rest, 1, false, []);
  }
}
