/** Which threads there are: every occupied slot is served, every receive thread has a send thread beside it, the next
    scan starts where the last one ended, and only the client's ";;;" stops the server. */
module ChatThreads {
  import opened CStrings
  import opened Acceptors
  import opened Chat
  import opened ChatSafety

  ghost predicate Serves(s: State, k: nat, i: nat) {
    k < |s.receivers| && s.receivers[k].slot == i && s.receivers[k].pc.Active()
  }

  /** An occupied slot has a receive thread, or the acceptor is about to create it. */
  ghost predicate Served(s: State) {
    forall i: nat | i < |s.slots| && s.slots[i].occupied ::
      (s.acceptor.Creating? && s.acceptor.slot == i) || exists k :: Serves(s, k, i)
  }

  /** The threads are created in pairs on the same slot. */
  ghost predicate Paired(s: State) {
    && |s.receivers| == |s.senders| + (if s.acceptor.CreatingSend? then 1 else 0)
    && (forall k | 0 <= k < |s.senders| :: s.senders[k].slot == s.receivers[k].slot)
    && (s.acceptor.CreatingSend? ==> s.receivers[|s.receivers| - 1].slot == s.acceptor.slot)
  }

  /** The slot that was chosen last. */
  function LastSlot(s: State): nat {
    if s.receivers == [] then 0 else s.receivers[|s.receivers| - 1].slot
  }

  ghost predicate Resumes(s: State)
    requires InRange(s)
  {
    match s.acceptor
    case Accepting(c) => c == LastSlot(s)
    case WantScan(c) => c == LastSlot(s)
    case Scanning(start, _) => start == LastSlot(s)
    case Leaving(c) => s.slots[c].occupied ==> c == LastSlot(s)
    case CreatingSend(c) => c == LastSlot(s)
    case _ => true
  }

  /** No client has sent the word that stops the server. */
  ghost predicate Quiet(s: State) {
    forall i: nat | i < |s.slots| :: forall m <- s.slots[i].msgs :: Str(m, 0) != ";;;"
  }

  ghost predicate Threads(s: State)
    requires InRange(s)
  {
    Served(s) && Paired(s) && Resumes(s) && (s.keepgoing <==> Quiet(s))
  }

  // ---------- The acceptor ----------

  lemma {:induction false} AcceptorKeepsServed(s: State)
    requires Inv(s) && Served(s)
    ensures Served(StepAcceptor(s))
  {
    var t, a := StepAcceptor(s), s.acceptor;
    hide ClientLock, BufLocks, Balanced, Choices, SlotUse;
    forall i: nat | i < |t.slots| && t.slots[i].occupied
      ensures (t.acceptor.Creating? && t.acceptor.slot == i) || exists k :: Serves(t, k, i)
    {
      if a.Creating? && a.slot == i {
        assert Serves(t, |s.receivers|, i);
      } else if s.slots[i].occupied {
        var k :| Serves(s, k, i);
        assert Serves(t, k, i);
      }
    }
  }

  lemma {:induction false} AcceptorKeepsRest(s: State)
    requires Inv(s) && Paired(s) && Resumes(s) && (s.keepgoing <==> Quiet(s))
    ensures var t := StepAcceptor(s); InRange(t) && Paired(t) && Resumes(t) && (t.keepgoing <==> Quiet(t))
  {
    var t := StepAcceptor(s);
    AcceptorKeepsSlots(s);
    hide ClientLock, BufLocks, Balanced, Choices, SlotUse, AcceptCall, Str;
    assert forall i: nat | i < |s.slots| :: t.slots[i].msgs == s.slots[i].msgs;
  }

  // ---------- The other threads ----------

  /** What a step of a receive thread means for the slots and the threads. */
  lemma {:induction false} ReceiveEffect(pc: RPc, slot: Slot, keepgoing: bool, clientFree: bool, input: string)
    ensures var next, after := ReceivePc(pc, slot, keepgoing, clientFree, input), ReceiveData(pc, slot, input);
            && (pc.Active() && !next.Active() <==> pc.Closing?)
            && after.occupied == (slot.occupied && !pc.Closing?)
            && after.msgs == (if pc.Fill? && pc.k >= |pc.msg| then slot.msgs + [pc.msg] else slot.msgs)
  {
  }

  lemma {:induction false} ReceiverKeepsServed(s: State, k: nat, input: string)
    requires Inv(s) && Served(s) && k < |s.receivers|
    ensures Served(StepReceiver(s, k, input))
  {
    var t, r := StepReceiver(s, k, input), s.receivers[k];
    ReceiveEffect(r.pc, s.slots[r.slot], s.keepgoing, s.client == None, input);
    hide ReceivePc, ReceiveData, ReceiveBufCall, ReceiveClientCall, Called, ClientLock, BufLocks, Balanced, Choices;
    forall i: nat | i < |t.slots| && t.slots[i].occupied
      ensures (t.acceptor.Creating? && t.acceptor.slot == i) || exists j :: Serves(t, j, i)
    {
      if !(s.acceptor.Creating? && s.acceptor.slot == i) {
        var j :| Serves(s, j, i);
        assert Serves(t, j, i);
      }
    }
  }

  lemma {:induction false} ReceiverKeepsPairs(s: State, k: nat, input: string)
    requires Inv(s) && Paired(s) && Resumes(s) && k < |s.receivers|
    ensures var t := StepReceiver(s, k, input); InRange(t) && Paired(t) && Resumes(t)
  {
    hide ReceivePc, ReceiveBufCall, ReceiveClientCall, Called, ClientLock, BufLocks, Balanced, Choices, SlotUse, Str;
    var t, r := StepReceiver(s, k, input), s.receivers[k];
    ReceiverKeepsSlots(s, k, input);
    ReceiveEffect(r.pc, s.slots[r.slot], s.keepgoing, s.client == None, input);
    hide ReceiveData;
    assert LastSlot(t) == LastSlot(s);
  }

  lemma {:induction false} ReceiverKeepsQuiet(s: State, k: nat, input: string)
    requires InRange(s) && (s.keepgoing <==> Quiet(s)) && k < |s.receivers|
    ensures var t := StepReceiver(s, k, input); t.keepgoing <==> Quiet(t)
  {
    hide ReceivePc, ReceiveData, ReceiveBufCall, ReceiveClientCall, Called, Str;
    var t, r := StepReceiver(s, k, input), s.receivers[k];
    ReceiveEffect(r.pc, s.slots[r.slot], s.keepgoing, s.client == None, input);
    hide ReceiveData, Quiet;
    if r.pc.Fill? && r.pc.k >= |r.pc.msg| {
      QuietMore(s, t, r.slot, [r.pc.msg]);
    } else {
      assert s.slots[r.slot].msgs + [] == s.slots[r.slot].msgs;
      QuietMore(s, t, r.slot, []);
    }
  }

  /** Messages that come in on one slot. */
  lemma {:induction false} QuietMore(s: State, t: State, i: nat, more: seq<string>)
    requires i < |s.slots| == |t.slots| && t.slots[i].msgs == s.slots[i].msgs + more
    requires forall j: nat | j < |s.slots| && j != i :: t.slots[j].msgs == s.slots[j].msgs
    ensures Quiet(t) <==> Quiet(s) && forall m <- more :: Str(m, 0) != ";;;"
  {
    hide Str;
    var before, after := s.slots[i].msgs, t.slots[i].msgs;
    assert forall m :: m in after <==> m in before || m in more;
    if Quiet(t) {
      forall j: nat | j < |s.slots|
        ensures forall m <- s.slots[j].msgs :: Str(m, 0) != ";;;"
      {
        assert forall m <- t.slots[j].msgs :: Str(m, 0) != ";;;";
      }
      assert forall m <- after :: Str(m, 0) != ";;;";
    }
  }

  lemma {:induction false} SenderKeepsThreads(s: State, k: nat, ok: bool)
    requires Inv(s) && Threads(s) && k < |s.senders|
    ensures var t := StepSender(s, k, ok); InRange(t) && Threads(t)
  {
    var t, r, n := StepSender(s, k, ok), s.senders[k], |s.slots|;
    var reaches := ok && r.pc.Send? && r.pc.j < n && s.slots[r.pc.j].occupied;
    SenderKeepsSlots(s, k, ok);
    SendEffect(r.pc, s.slots[r.slot], s.client == None, n, reaches);
    hide SendPc, SendData, SendBufCall, SendClientCall, Called, ClientLock, BufLocks, Balanced, Choices, SlotUse, Str;
    assert forall i: nat | i < n :: t.slots[i].occupied == s.slots[i].occupied && t.slots[i].msgs == s.slots[i].msgs;
    assert forall j: nat, i: nat :: Serves(t, j, i) <==> Serves(s, j, i);
    hide Serves;
  }

  lemma {:induction false} SendEffect(pc: SPc, slot: Slot, clientFree: bool, n: nat, reaches: bool)
    ensures var after := SendData(pc, slot, clientFree, n, reaches);
            after.occupied == slot.occupied && after.msgs == slot.msgs
  {
  }

  // ---------- Whole runs ----------

  lemma {:induction false} ReachableThreads(s: State, n: nat, events: seq<Event>)
    requires n > 0 && Reachable(s, n, events)
    ensures InRange(s) && Threads(s)
    decreases |events|
  {
    hide Inv, StepReceiver, StepSender, StepAcceptor, Init, InRange, Served, Paired, Resumes, Quiet;
    ReachableInv(s, n, events);
    InvInRange(s);
    if events == [] {
      InitThreads(n);
    } else {
      var front, last := events[..|events| - 1], events[|events| - 1];
      var r :| Reachable(r, n, front) && InRange(r) && s == Step(r, last);
      ReachableInv(r, n, front);
      ReachableThreads(r, n, front);
      match last
      case AcceptStep => AcceptorKeepsServed(r); AcceptorKeepsRest(r);
      case ReceiveStep(k, input) =>
        if k < |r.receivers| {
          ReceiverKeepsServed(r, k, input);
          ReceiverKeepsPairs(r, k, input);
          ReceiverKeepsQuiet(r, k, input);
        }
      case SendStep(k, ok) => if k < |r.senders| { SenderKeepsThreads(r, k, ok); }
    }
  }

  lemma {:induction false} InvInRange(s: State)
    requires Inv(s)
    ensures InRange(s)
  {
  }

  lemma {:induction false} InitThreads(n: nat)
    requires n > 0
    ensures InRange(Init(n)) && Threads(Init(n))
  {
  }

  /** In every run a slot is occupied only as long as a receive thread serves it or is about to be created for it. */
  lemma {:induction false} OccupiedIsServed(s: State, n: nat, events: seq<Event>, i: nat)
    requires n > 0 && Reachable(s, n, events) && i < |s.slots|
    ensures s.slots[i].occupied <==> (s.acceptor.Creating? && s.acceptor.slot == i) || exists k :: Serves(s, k, i)
  {
    ReachableThreads(s, n, events);
    ReachableInv(s, n, events);
    hide ClientLock, BufLocks, Balanced, Choices;
  }

  /** In every run each receive thread but the one just created has a send thread on the same slot, and no other. */
  lemma {:induction false} ThreadsArePaired(s: State, n: nat, events: seq<Event>)
    requires n > 0 && Reachable(s, n, events)
    ensures |s.receivers| == |s.senders| + (if s.acceptor.CreatingSend? then 1 else 0)
    ensures forall k | 0 <= k < |s.senders| :: s.senders[k].slot == s.receivers[k].slot
  {
    ReachableThreads(s, n, events);
    hide Served, Resumes, Quiet;
  }

  /** In every run the next scan starts at the slot that was chosen last, even after a connection was dropped. */
  lemma {:induction false} ScanResumes(s: State, n: nat, events: seq<Event>)
    requires n > 0 && Reachable(s, n, events)
    ensures s.acceptor.Accepting? || s.acceptor.WantScan? ==> s.acceptor.slot == LastSlot(s)
    ensures s.acceptor.Scanning? ==> s.acceptor.start == LastSlot(s)
  {
    ReachableThreads(s, n, events);
    hide Served, Paired, Quiet;
  }

  /** In every run the server goes on exactly as long as no client has sent ";;;". */
  lemma {:induction false} OnlyTheWordStops(s: State, n: nat, events: seq<Event>)
    requires n > 0 && Reachable(s, n, events)
    ensures s.keepgoing <==> forall i: nat | i < |s.slots| :: forall m <- s.slots[i].msgs :: Str(m, 0) != ";;;"
  {
    ReachableThreads(s, n, events);
    hide Served, Paired, Resumes, Str;
  }
}
