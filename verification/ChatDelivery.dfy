/** What reaches the clients: the letters of a broadcast, the clients of a round, and the whole way of a message
    that nothing disturbs. */
module ChatDelivery {
  import opened CStrings
  import opened Acceptors
  import opened Chat
  import opened ChatSafety
  import opened ChatTrace

  // ---------- Letters ----------

  const LOWER := "abcdefghijklmnopqrstuvwxyz"
  const UPPER := "ABCDEFGHIJKLMNOPQRSTUVWXYZ"

  lemma {:induction false} Alphabets(k: nat)
    requires k < 26
    ensures LOWER[k] as int == 97 + k && UPPER[k] as int == 65 + k
  {
    assert LOWER[k] == ['a', 'b', 'c', 'd', 'e', 'f', 'g', 'h', 'i', 'j', 'k', 'l', 'm',
                        'n', 'o', 'p', 'q', 'r', 's', 't', 'u', 'v', 'w', 'x', 'y', 'z'][k];
  }

  /** Each letter of the one alphabet becomes the letter of the other at the same place, everything else stays. */
  lemma {:induction false} UpperIs(c: char)
    ensures forall k | 0 <= k < 26 && c == LOWER[k] :: ToUpper(c) == UPPER[k]
    ensures c !in LOWER ==> ToUpper(c) == c
    ensures ToUpper(c) !in LOWER
  {
    forall k | 0 <= k < 26
      ensures LOWER[k] as int == 97 + k && UPPER[k] as int == 65 + k
    {
      Alphabets(k);
    }
    if 'a' <= c <= 'z' { assert LOWER[c as int - 97] == c; }
  }

  /** In every run no broadcast holds a lower-case letter, and each nonempty one is as long as the message it is the
      image of. */
  lemma {:induction false} BroadcastsAreUpper(s: State, n: nat, events: seq<Event>, i: nat, c: Cast)
    requires n > 0 && Reachable(s, n, events) && i < |s.slots| && c in s.slots[i].casts && c.payload != ""
    ensures exists m :: m in s.slots[i].msgs && |m| == |c.payload| && IsUpperOf(c.payload, m)
  {
    var slot := s.slots[i];
    BroadcastsAreImages(s, n, events, i);
    var at: seq<nat> :| Picks(Payloads(slot.casts), Images(slot.msgs), at);
    PayloadIsThere(slot.casts, c);
    var j :| 0 <= j < |Payloads(slot.casts)| && Payloads(slot.casts)[j] == c.payload;
    var m := slot.msgs[at[j]];
    assert c.payload == UpperCase(m) && m in slot.msgs;
    ImageIsUpper(m);
  }

  /** Letter by letter, with the two alphabets. */
  ghost predicate IsUpperOf(image: string, m: string) {
    |image| == |m| && forall i | 0 <= i < |m| ::
      && image[i] !in LOWER
      && (m[i] !in LOWER ==> image[i] == m[i])
      && (forall k | 0 <= k < 26 :: m[i] == LOWER[k] ==> image[i] == UPPER[k])
  }

  lemma {:induction false} ImageIsUpper(m: string)
    ensures IsUpperOf(UpperCase(m), m)
  {
    hide ToUpper;
    forall i | 0 <= i < |m|
      ensures UpperCase(m)[i] !in LOWER && (m[i] !in LOWER ==> UpperCase(m)[i] == m[i])
      ensures forall k | 0 <= k < 26 :: m[i] == LOWER[k] ==> UpperCase(m)[i] == UPPER[k]
    {
      UpperIs(m[i]);
    }
  }

  lemma {:induction false} PayloadIsThere(casts: seq<Cast>, c: Cast)
    requires c in casts && c.payload != ""
    ensures c.payload in Payloads(casts)
  {
    var front, last := casts[..|casts| - 1], casts[|casts| - 1];
    assert casts == front + [last];
    if last != c { PayloadIsThere(front, c); }
  }

  // ---------- What waits to be sent ----------

  /** In every run, when a receive thread gives its buffer free after a message, the flag is set and the buffer holds
      the image of the message just read. */
  lemma {:induction false} PublishedWaits(s: State, n: nat, events: seq<Event>, k: nat)
    requires n > 0 && Reachable(s, n, events) && k < |s.receivers| && s.receivers[k].pc.Unlock?
    ensures InRange(s)
    ensures var slot := s.slots[s.receivers[k].slot];
            && slot.sendbool && slot.msgs != [] && slot.received <= |slot.buf|
            && slot.buf[..slot.received] == UpperCase(slot.msgs[|slot.msgs| - 1])
  {
    hide ClientLock, BufLocks, Balanced, SlotUse, Choices, Trace, Reachable, PhaseOf, UpperCase;
    ReachableInv(s, n, events);
    ReachableTraces(s, n, events);
    OwnPhase(s, ReceiveThread(k), s.receivers[k].slot);
    UnlockIsFresh(s.slots[s.receivers[k].slot]);
  }

  lemma {:induction false} UnlockIsFresh(slot: Slot)
    requires Trace(slot, Receiving(Unlock))
    ensures slot.sendbool && slot.msgs != [] && slot.received <= |slot.buf|
    ensures slot.buf[..slot.received] == UpperCase(slot.msgs[|slot.msgs| - 1])
  {
    hide Sub, Rounds, UpperCase;
  }

  // ---------- A round reaches everybody ----------

  ghost predicate Reached(c: Cast, x: nat) { exists d :: d in c.sent && d.target == x }

  ghost predicate NoSendFails(events: seq<Event>) { forall e <- events :: e.SendStep? ==> e.ok }

  /** The round has reached exactly the occupied ones of the first `j` slots. */
  ghost predicate ReachedUpTo(casts: seq<Cast>, occupied: seq<bool>, j: nat) {
    && casts != [] && j <= |occupied|
    && (forall d <- casts[|casts| - 1].sent :: d.target < j)
    && (forall x: nat | x < j :: Reached(casts[|casts| - 1], x) <==> occupied[x])
  }

  /** How far the round of a send thread has come, and so how many slots it has looked at. */
  function Progress(pc: SPc, n: nat): nat { if pc.Send? && pc.j < n then pc.j else n }

  ghost predicate RoundSoFar(s: State)
    requires InRange(s)
  {
    forall k | 0 <= k < |s.senders| && s.client == Some(SendThread(k)) ::
      ReachedUpTo(s.slots[s.senders[k].slot].casts, Occupied(s.slots), Progress(s.senders[k].pc, |s.slots|))
  }

  /** One step of a round: the client in slot `j` gets the bytes exactly when the slot is occupied and the send works. */
  lemma {:induction false} RoundStep(s: State, k: nat, ok: bool)
    requires Inv(s) && k < |s.senders| && s.senders[k].pc.Send? && s.senders[k].pc.j < |s.slots|
    requires s.slots[s.senders[k].slot].casts != []
    ensures var t, i, j := StepSender(s, k, ok), s.senders[k].slot, s.senders[k].pc.j;
            var was, more := s.slots[i].casts, t.slots[i].casts;
            var gets := if ok && s.slots[j].occupied then [Delivery(j, Payload(s.slots[i]))] else [];
            && t.senders[k].pc == Send(j + 1) && |more| == |was|
            && more[..|more| - 1] == was[..|was| - 1] && more[|more| - 1].payload == was[|was| - 1].payload
            && more[|more| - 1].sent == was[|was| - 1].sent + gets
  {
    hide ClientLock, BufLocks, Balanced, SlotUse, Choices, Payload;
    var i, j := s.senders[k].slot, s.senders[k].pc.j;
    var last := s.slots[i].casts[|s.slots[i].casts| - 1];
    assert last.sent + [] == last.sent;
  }

  lemma {:induction false} ReachedMore(c: Cast, d: Delivery, x: nat)
    ensures Reached(c.(sent := c.sent + [d]), x) <==> Reached(c, x) || d.target == x
  {
    var more := c.(sent := c.sent + [d]);
    assert d in more.sent;
    if Reached(c, x) {
      var e :| e in c.sent && e.target == x;
      assert e in more.sent;
    }
  }

  lemma {:induction false} ReachesOneMore(before: seq<Cast>, last: Cast, occupied: seq<bool>, j: nat, bytes: string)
    requires j < |occupied| && ReachedUpTo(before + [last], occupied, j)
    ensures occupied[j] ==> ReachedUpTo(before + [last.(sent := last.sent + [Delivery(j, bytes)])], occupied, j + 1)
    ensures !occupied[j] ==> ReachedUpTo(before + [last], occupied, j + 1)
  {
    var casts := before + [last];
    assert casts[|casts| - 1] == last;
    forall x: nat
      ensures Reached(last.(sent := last.sent + [Delivery(j, bytes)]), x) <==> Reached(last, x) || x == j
    {
      ReachedMore(last, Delivery(j, bytes), x);
    }
    assert !Reached(last, j);
  }

  lemma {:induction false} NothingReached(casts: seq<Cast>, bytes: string, occupied: seq<bool>)
    ensures ReachedUpTo(casts + [Cast(bytes, [])], occupied, 0)
  {
  }

  /** A thread's own step of the round. */
  lemma {:induction false} OwnStepKeepsRound(s: State, k: nat)
    requires Inv(s) && RoundSoFar(s) && k < |s.senders|
    ensures var t := StepSender(s, k, true);
            InRange(t) && Occupied(t.slots) == Occupied(s.slots)
            && (t.client == Some(SendThread(k)) ==>
                  ReachedUpTo(t.slots[t.senders[k].slot].casts, Occupied(t.slots), Progress(t.senders[k].pc, |t.slots|)))
  {
    var t, i, pc, n := StepSender(s, k, true), s.senders[k].slot, s.senders[k].pc, |s.slots|;
    var casts := s.slots[i].casts;
    SenderKeepsSlots(s, k, true);
    assert s.client == Some(SendThread(k)) <==> HoldsClient(s, SendThread(k));
    hide ClientLock, BufLocks, Balanced, SlotUse, Choices, Payload, ReachedUpTo;
    assert Occupied(t.slots) == Occupied(s.slots);
    if pc.SWantClient? {
      NothingReached(casts, Payload(s.slots[i]), Occupied(s.slots));
    } else if pc.Send? && pc.j < n {
      NotEmpty(casts, Occupied(s.slots), pc.j);
      var before, last := casts[..|casts| - 1], casts[|casts| - 1];
      assert casts == before + [last];
      ReachesOneMore(before, last, Occupied(s.slots), pc.j, Payload(s.slots[i]));
    }
  }

  lemma {:induction false} NotEmpty(casts: seq<Cast>, occupied: seq<bool>, j: nat)
    requires ReachedUpTo(casts, occupied, j)
    ensures casts != []
  {
  }

  /** The steps of the others leave the slots, the mutex and the round of its owner alone. */
  lemma {:induction false} OtherSendersKeepRound(s: State, k: nat, other: nat, ok: bool)
    requires Inv(s) && k < |s.senders| && other < |s.senders| && other != k && s.client == Some(SendThread(k))
    ensures var t, i := StepSender(s, other, ok), s.senders[k].slot;
            t.client == s.client && t.senders[k] == s.senders[k] && t.slots[i].casts == s.slots[i].casts
  {
    var r, i := s.senders[other], s.senders[k].slot;
    assert HoldsClient(s, SendThread(k)) && !HoldsClient(s, SendThread(other));
    assert HoldsBuf(s, SendThread(k), i);
    assert s.slots[i].lock == Some(SendThread(k));
    if r.slot == i { assert !HoldsBuf(s, SendThread(other), i); }
    hide ClientLock, BufLocks, Balanced, SlotUse, Choices, Payload;
  }

  lemma {:induction false} ReceiversKeepRound(s: State, k: nat, other: nat, input: string)
    requires Inv(s) && k < |s.senders| && other < |s.receivers| && s.client == Some(SendThread(k))
    ensures var t := StepReceiver(s, other, input);
            && t.client == s.client && t.senders == s.senders && |t.slots| == |s.slots|
            && forall i | 0 <= i < |s.slots| ::
                 t.slots[i].casts == s.slots[i].casts && t.slots[i].occupied == s.slots[i].occupied
  {
    assert HoldsClient(s, SendThread(k)) && !HoldsClient(s, ReceiveThread(other));
    hide ClientLock, BufLocks, Balanced, SlotUse, Choices;
  }

  lemma {:induction false} AcceptorKeepsRound(s: State, k: nat)
    requires Inv(s) && k < |s.senders| && s.client == Some(SendThread(k))
    ensures var t := StepAcceptor(s);
            t.client == s.client && t.slots == s.slots && |t.senders| >= |s.senders| && t.senders[k] == s.senders[k]
  {
    assert HoldsClient(s, SendThread(k)) && !HoldsClient(s, AcceptorThread);
    hide ClientLock, BufLocks, Balanced, SlotUse, Choices;
  }

  /** Nobody else can get `client_lock` for itself without its being free, nor become a sender's. */
  lemma {:induction false} RoundOwner(s: State, e: Event, k: nat)
    requires Inv(s) && Step(s, e).client == Some(SendThread(k))
    ensures s.client == Some(SendThread(k)) || (e.SendStep? && e.k == k && k < |s.senders|)
  {
    hide ClientLock, BufLocks, Balanced, SlotUse, Choices;
  }

  lemma {:induction false} StepKeepsRound(s: State, e: Event)
    requires Inv(s) && RoundSoFar(s) && (e.SendStep? ==> e.ok)
    ensures InRange(Step(s, e)) && RoundSoFar(Step(s, e))
  {
    var t := Step(s, e);
    StepKeepsInv(s, e);
    InvInRange(t);
    forall k | 0 <= k < |t.senders| && t.client == Some(SendThread(k))
      ensures ReachedUpTo(t.slots[t.senders[k].slot].casts, Occupied(t.slots), Progress(t.senders[k].pc, |t.slots|))
    {
      RoundOwner(s, e, k);
      if e.SendStep? && e.k == k {
        OwnStepKeepsRound(s, k);
      } else {
        OwnerExists(s, k);
        hide StepReceiver, StepSender, StepAcceptor, ReachedUpTo, Inv;
        match e
        case AcceptStep => AcceptorKeepsRound(s, k);
        case ReceiveStep(other, input) =>
          if other < |s.receivers| {
            ReceiversKeepRound(s, k, other, input);
            assert Occupied(t.slots) == Occupied(s.slots);
          }
        case SendStep(other, ok) =>
          if other < |s.senders| {
            OtherSendersKeepRound(s, k, other, ok);
            OwnStepKeepsRound(s, other);
          }
      }
    }
  }

  lemma {:induction false} OwnerExists(s: State, k: nat)
    requires Inv(s) && s.client == Some(SendThread(k))
    ensures k < |s.senders|
  {
    assert HoldsClient(s, SendThread(k));
  }

  lemma {:induction false} InvInRange(s: State)
    requires Inv(s)
    ensures InRange(s)
  {
  }

  lemma {:induction false} ReachableRounds(s: State, n: nat, events: seq<Event>)
    requires n > 0 && Reachable(s, n, events) && NoSendFails(events)
    ensures InRange(s) && RoundSoFar(s)
    decreases |events|
  {
    ReachableInv(s, n, events);
    InvInRange(s);
    hide Inv, Step, InRange, RoundSoFar;
    if events == [] {
      InitRounds(n);
    } else {
      var front, last := events[..|events| - 1], events[|events| - 1];
      var r :| Reachable(r, n, front) && InRange(r) && s == Step(r, last);
      assert last in events && forall e <- front :: e in events;
      ReachableInv(r, n, front);
      ReachableRounds(r, n, front);
      StepKeepsRound(r, last);
    }
  }

  lemma {:induction false} InitRounds(n: nat)
    requires n > 0
    ensures InRange(Init(n)) && RoundSoFar(Init(n))
  {
  }

  /** In every run in which no send fails, a round that is over has reached exactly the occupied slots. */
  lemma {:induction false} RoundsReachAll(s: State, n: nat, events: seq<Event>, k: nat, x: nat)
    requires n > 0 && Reachable(s, n, events) && NoSendFails(events)
    requires k < |s.senders| && s.senders[k].pc.UnlockClient? && x < |s.slots|
    ensures s.senders[k].slot < |s.slots| && s.slots[s.senders[k].slot].casts != []
    ensures var casts := s.slots[s.senders[k].slot].casts; Reached(casts[|casts| - 1], x) <==> s.slots[x].occupied
  {
    ReachableRounds(s, n, events);
    ReachableInv(s, n, events);
    assert HoldsClient(s, SendThread(k));
    hide BufLocks, Balanced, SlotUse, Choices, Reached;
    assert Occupied(s.slots)[x] == s.slots[x].occupied;
  }
}
