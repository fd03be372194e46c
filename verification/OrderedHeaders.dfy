/** What the header table stores: an ordered map. Setting a key moves it to the end. */
module OrderedHeaders {
  import opened CStrings

  datatype Header = Header(key: string, value: string)

  function Without(hs: seq<Header>, key: string): seq<Header> {
    if hs == [] then []
    else Without(hs[..|hs| - 1], key) + if hs[|hs| - 1].key == key then [] else [hs[|hs| - 1]]
  }

  function Put(hs: seq<Header>, key: string, value: string): (r: seq<Header>) {
    Without(hs, key) + [Header(key, value)]
  }

  function Lookup(hs: seq<Header>, key: string): Option<string> {
    if hs == [] then None
    else if hs[|hs| - 1].key == key then Some(hs[|hs| - 1].value)
    else Lookup(hs[..|hs| - 1], key)
  }

  predicate Distinct(hs: seq<Header>) {
    forall i, j | 0 <= i < j < |hs| :: hs[i].key != hs[j].key
  }

  // ---------- Whole histories ----------

  datatype Op = SetOp(key: string, value: string) | RemoveOp(key: string)

  function Apply(hs: seq<Header>, op: Op): seq<Header> {
    match op
    case SetOp(k, v) => Put(hs, k, v)
    case RemoveOp(k) => Without(hs, k)
  }

  function ApplyAll(hs: seq<Header>, ops: seq<Op>): seq<Header> {
    if ops == [] then hs else Apply(ApplyAll(hs, ops[..|ops| - 1]), ops[|ops| - 1])
  }

  predicate Mentions(ops: seq<Op>, key: string) { exists i | 0 <= i < |ops| :: ops[i].key == key }

  /** What a set leaves behind when `later` follows it. */
  function Lasting(op: Op, later: seq<Op>): seq<Header> {
    if op.SetOp? && !Mentions(later, op.key) then [Header(op.key, op.value)] else []
  }

  /** The sets that no later operation on the same key undoes or repeats, in the order they happened. */
  function Survivors(ops: seq<Op>): seq<Header> {
    if ops == [] then [] else Lasting(ops[0], ops[1..]) + Survivors(ops[1..])
  }

  lemma {:induction false} WithoutJoin(a: seq<Header>, b: seq<Header>, key: string)
    ensures Without(a + b, key) == Without(a, key) + Without(b, key)
  {
    if b == [] {
      assert a + b == a;
    } else {
      assert (a + b)[..|a + b| - 1] == a + b[..|b| - 1];
      WithoutJoin(a, b[..|b| - 1], key);
    }
  }

  lemma {:induction false} WithoutKeys(hs: seq<Header>, key: string)
    ensures forall h | h in Without(hs, key) :: h in hs && h.key != key
  {
    if hs != [] {
      WithoutKeys(hs[..|hs| - 1], key);
    }
  }

  /** A key the map does not hold. */
  predicate Lacks(hs: seq<Header>, key: string) { forall h | h in hs :: h.key != key }

  lemma {:induction false} LookupLacks(hs: seq<Header>, key: string)
    ensures Lookup(hs, key) == None <==> Lacks(hs, key)
  {
    if hs != [] {
      LookupLacks(hs[..|hs| - 1], key);
      assert hs[|hs| - 1] in hs;
      assert forall h | h in hs :: h in hs[..|hs| - 1] || h == hs[|hs| - 1];
    }
  }

  lemma {:induction false} WithoutAbsent(hs: seq<Header>, key: string)
    requires Lacks(hs, key)
    ensures Without(hs, key) == hs
  {
    if hs != [] {
      var front, last := hs[..|hs| - 1], hs[|hs| - 1];
      assert hs == front + [last] && last in hs;
      assert Lacks(front, key);
      WithoutAbsent(front, key);
    }
  }

  lemma {:induction false} WithoutDistinct(hs: seq<Header>, key: string)
    requires Distinct(hs)
    ensures Distinct(Without(hs, key))
  {
    if hs != [] {
      var front := hs[..|hs| - 1];
      WithoutDistinct(front, key);
      WithoutKeys(front, key);
    }
  }

  lemma {:induction false} PutDistinct(hs: seq<Header>, key: string, value: string)
    requires Distinct(hs)
    ensures Distinct(Put(hs, key, value))
    ensures forall k :: Lookup(Put(hs, key, value), k) == if k == key then Some(value) else Lookup(hs, k)
  {
    WithoutDistinct(hs, key);
    WithoutKeys(hs, key);
    forall k
      ensures Lookup(Put(hs, key, value), k) == if k == key then Some(value) else Lookup(hs, k)
    {
      LookupWithout(hs, key, k);
      assert Put(hs, key, value)[..|Put(hs, key, value)| - 1] == Without(hs, key);
    }
  }

  lemma {:induction false} LookupWithout(hs: seq<Header>, key: string, k: string)
    ensures Lookup(Without(hs, key), k) == if k == key then None else Lookup(hs, k)
  {
    if hs != [] {
      var front, last := hs[..|hs| - 1], hs[|hs| - 1];
      LookupWithout(front, key, k);
      if last.key != key {
        assert Without(hs, key)[..|Without(hs, key)| - 1] == Without(front, key);
      } else {
        assert Without(hs, key) == Without(front, key);
      }
    }
  }

  lemma {:induction false} LastingStep(head: Op, rest: seq<Op>, op: Op)
    ensures Lasting(head, rest + [op]) == Without(Lasting(head, rest), op.key)
  {
    assert Mentions(rest + [op], head.key) <==> Mentions(rest, head.key) || op.key == head.key by {
      if Mentions(rest, head.key) {
        var i :| 0 <= i < |rest| && rest[i].key == head.key;
        assert (rest + [op])[i].key == head.key;
      }
      assert (rest + [op])[|rest|] == op;
    }
    var kept := Lasting(head, rest);
    if kept != [] {
      assert Without(kept[..0], op.key) == [];
    }
  }

  lemma {:induction false} SurvivorsCons(head: Op, rest: seq<Op>)
    ensures Survivors([head] + rest) == Lasting(head, rest) + Survivors(rest)
  {
    assert ([head] + rest)[1..] == rest;
  }

  lemma {:induction false} ApplyJoin(a: seq<Header>, b: seq<Header>, op: Op)
    ensures Apply(a + b, op) == Without(a, op.key) + Apply(b, op)
  {
    hide Without;
    WithoutJoin(a, b, op.key);
    if op.SetOp? { JoinRegroups(Without(a, op.key), Without(b, op.key), [Header(op.key, op.value)]); }
  }

  /** One more operation acts on the survivors as it acts on the table. */
  lemma {:induction false} SurvivorsStep(ops: seq<Op>, op: Op)
    ensures Survivors(ops + [op]) == Apply(Survivors(ops), op)
  {
    if ops == [] {
      SurvivorsCons(op, []);
      assert ops + [op] == [op] + [];
    } else {
      var head, rest := ops[0], ops[1..];
      SurvivorsStep(rest, op);
      calc {
        Survivors(ops + [op]);
        { assert ops + [op] == [head] + (rest + [op]); SurvivorsCons(head, rest + [op]); }
        Lasting(head, rest + [op]) + Survivors(rest + [op]);
        { LastingStep(head, rest, op); }
        Without(Lasting(head, rest), op.key) + Apply(Survivors(rest), op);
        { ApplyJoin(Lasting(head, rest), Survivors(rest), op); }
        Apply(Lasting(head, rest) + Survivors(rest), op);
      }
    }
  }

  /** After any history the table holds exactly the surviving sets, in the order they were made. */
  lemma {:induction false} TableIsSurvivors(ops: seq<Op>)
    ensures ApplyAll([], ops) == Survivors(ops)
  {
    hide Apply, Lasting;
    if ops != [] {
      var front, op := ops[..|ops| - 1], ops[|ops| - 1];
      TableIsSurvivors(front);
      SurvivorsStep(front, op);
      assert front + [op] == ops;
    }
  }

  lemma {:induction false} TableIsDistinct(ops: seq<Op>)
    ensures Distinct(ApplyAll([], ops))
  {
    if ops != [] {
      var front, op := ops[..|ops| - 1], ops[|ops| - 1];
      TableIsDistinct(front);
      if op.SetOp? {
        PutDistinct(ApplyAll([], front), op.key, op.value);
      } else {
        WithoutDistinct(ApplyAll([], front), op.key);
      }
    }
  }

  /** What `get` answers: the value of the last operation on the key, if that was a set. */
  function LastValue(ops: seq<Op>, key: string): Option<string> {
    if ops == [] then None
    else var op := ops[|ops| - 1];
      if op.key != key then LastValue(ops[..|ops| - 1], key)
      else if op.SetOp? then Some(op.value) else None
  }

  lemma {:induction false} LookupIsLastValue(ops: seq<Op>, key: string)
    ensures Lookup(ApplyAll([], ops), key) == LastValue(ops, key)
  {
    if ops != [] {
      var front, op := ops[..|ops| - 1], ops[|ops| - 1];
      LookupIsLastValue(front, key);
      TableIsDistinct(front);
      LookupWithout(ApplyAll([], front), op.key, key);
      if op.SetOp? { PutDistinct(ApplyAll([], front), op.key, op.value); }
    }
  }

  // ---------- Many sets in a row ----------

  function PutAll(table: seq<Header>, hs: seq<Header>): seq<Header>
    decreases |hs|
  {
    if hs == [] then table else PutAll(Put(table, hs[0].key, hs[0].value), hs[1..])
  }

  lemma {:induction false} PutAllFirst(table: seq<Header>, h: Header, later: seq<Header>)
    ensures PutAll(table, [h] + later) == PutAll(Put(table, h.key, h.value), later)
  {
    assert ([h] + later)[1..] == later;
  }

  lemma {:induction false} PutAllJoin(table: seq<Header>, a: seq<Header>, b: seq<Header>)
    ensures PutAll(table, a + b) == PutAll(PutAll(table, a), b)
    decreases |a|
  {
    if a == [] {
      assert a + b == b;
    } else {
      assert a + b == [a[0]] + (a[1..] + b) && a == [a[0]] + a[1..];
      PutAllFirst(table, a[0], a[1..] + b);
      PutAllJoin(Put(table, a[0].key, a[0].value), a[1..], b);
    }
  }

  function Sets(hs: seq<Header>): (ops: seq<Op>)
    ensures |ops| == |hs|
  {
    seq(|hs|, i requires 0 <= i < |hs| => SetOp(hs[i].key, hs[i].value))
  }

  lemma {:induction false} ApplyAllJoin(table: seq<Header>, a: seq<Op>, b: seq<Op>)
    ensures ApplyAll(table, a + b) == ApplyAll(ApplyAll(table, a), b)
  {
    if b == [] {
      assert a + b == a;
    } else {
      assert (a + b)[..|a + b| - 1] == a + b[..|b| - 1];
      ApplyAllJoin(table, a, b[..|b| - 1]);
    }
  }

  lemma {:induction false} PutAllIsApplyAll(table: seq<Header>, hs: seq<Header>)
    ensures PutAll(table, hs) == ApplyAll(table, Sets(hs))
    decreases |hs|
  {
    if hs != [] {
      var h, op, rest := hs[0], SetOp(hs[0].key, hs[0].value), hs[1..];
      PutAllIsApplyAll(Put(table, h.key, h.value), rest);
      assert Sets(hs) == [op] + Sets(rest);
      ApplyAllJoin(table, [op], Sets(rest));
      assert ApplyAll(table, [op]) == Put(table, h.key, h.value) by { assert [op][..0] == []; }
    }
  }

  /** Setting headers one after the other in an empty table leaves those that are not set again. */
  lemma {:induction false} PutAllIsSurvivors(hs: seq<Header>)
    ensures PutAll([], hs) == Survivors(Sets(hs))
  {
    PutAllIsApplyAll([], hs);
    TableIsSurvivors(Sets(hs));
  }

  lemma {:induction false} MentionsIsKey(hs: seq<Header>, key: string)
    ensures Mentions(Sets(hs), key) <==> !Lacks(hs, key)
  {
    if Mentions(Sets(hs), key) {
      var i :| 0 <= i < |hs| && Sets(hs)[i].key == key;
      assert hs[i] in hs;
    }
    if !Lacks(hs, key) {
      var h :| h in hs && h.key == key;
      var i :| 0 <= i < |hs| && hs[i] == h;
      assert Sets(hs)[i].key == key;
    }
  }

  /** The first of several sets survives unless its key is set again. */
  lemma {:induction false} SurvivorsUnfold(h: Header, rest: seq<Header>)
    ensures Survivors(Sets([h] + rest)) == (if Lacks(rest, h.key) then [h] else []) + Survivors(Sets(rest))
  {
    MentionsIsKey(rest, h.key);
    assert Sets([h] + rest) == [SetOp(h.key, h.value)] + Sets(rest);
    SurvivorsCons(SetOp(h.key, h.value), Sets(rest));
  }

  /** No key gets lost. */
  lemma {:induction false} SurvivorsKeys(hs: seq<Header>, key: string)
    ensures Lacks(Survivors(Sets(hs)), key) <==> Lacks(hs, key)
  {
    if hs != [] {
      var h, rest := hs[0], hs[1..];
      assert hs == [h] + rest;
      SurvivorsUnfold(h, rest);
      SurvivorsKeys(rest, key);
    }
  }

  lemma {:induction false} SurvivorsAreSets(hs: seq<Header>)
    ensures forall h <- Survivors(Sets(hs)) :: h in hs
  {
    if hs != [] {
      var h, rest := hs[0], hs[1..];
      assert hs == [h] + rest;
      SurvivorsUnfold(h, rest);
      SurvivorsAreSets(rest);
    }
  }

  /** Sets whose keys are all set again later leave nothing. */
  lemma {:induction false} CoveredLeaveNothing(hs: seq<Header>, later: seq<Header>)
    requires forall h <- hs :: !Lacks(later, h.key)
    ensures Survivors(Sets(hs + later)) == Survivors(Sets(later))
  {
    if hs == [] {
      assert hs + later == later;
    } else {
      var h, rest := hs[0], hs[1..];
      assert hs + later == [h] + (rest + later);
      CoveredLeaveNothing(rest, later);
      SurvivorsUnfold(h, rest + later);
      var x :| x in later && x.key == h.key;
      assert x in rest + later;
    }
  }

  lemma {:induction false} DistinctSurvive(hs: seq<Header>)
    requires Distinct(hs)
    ensures Survivors(Sets(hs)) == hs
  {
    if hs != [] {
      var h, rest := hs[0], hs[1..];
      assert hs == [h] + rest;
      DistinctSurvive(rest);
      SurvivorsUnfold(h, rest);
    }
  }
}
