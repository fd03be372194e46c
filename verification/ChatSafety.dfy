/** What every step of the chat server keeps: who holds which mutex, and who uses which slot. */
module ChatSafety {
  import opened CStrings
  import opened Acceptors
  import opened Chat

  // ---------- Mutexes ----------

  /** The thread stands where it holds `client_lock`. */
  ghost predicate HoldsClient(s: State, t: Tid) {
    match t
    case AcceptorThread => s.acceptor.HoldsClient()
    case ReceiveThread(k) => k < |s.receivers| && s.receivers[k].pc.HoldsClient()
    case SendThread(k) => k < |s.senders| && s.senders[k].pc.HoldsClient()
  }

  /** The thread stands where it holds `buf_lock[i]`. */
  ghost predicate HoldsBuf(s: State, t: Tid, i: nat) {
    match t
    case AcceptorThread => false
    case ReceiveThread(k) => k < |s.receivers| && s.receivers[k].slot == i && s.receivers[k].pc.HoldsBuf()
    case SendThread(k) => k < |s.senders| && s.senders[k].slot == i && s.senders[k].pc.HoldsBuf()
  }

  /** The owner of a mutex is the one thread that stands where the mutex is held. */
  ghost predicate ClientLock(s: State) {
    forall t :: s.client == Some(t) <==> HoldsClient(s, t)
  }

  ghost predicate BufLocks(s: State) {
    forall t, i: nat | i < |s.slots| :: s.slots[i].lock == Some(t) <==> HoldsBuf(s, t, i)
  }

  /** Every round of a receive thread has locked and unlocked once, up to where the thread stands. */
  ghost predicate Balanced(s: State) {
    forall k | 0 <= k < |s.receivers| ::
      var r := s.receivers[k];
      && r.locks == r.unlocks + (if r.pc.HoldsBuf() then 1 else 0)
      && r.rounds == r.locks + (if r.pc.WantBuf? then 1 else 0)
  }

  // ---------- Slots ----------

  ghost predicate SlotUse(s: State)
    requires InRange(s)
  {
    && (forall k | 0 <= k < |s.receivers| && s.receivers[k].pc.Active() :: s.slots[s.receivers[k].slot].occupied)
    && (forall j, k | 0 <= j < k < |s.receivers| && s.receivers[j].pc.Active() && s.receivers[k].pc.Active() ::
          s.receivers[j].slot != s.receivers[k].slot)
    && (s.acceptor.Creating? ==> s.slots[s.acceptor.slot].occupied && NoReceiver(s, s.acceptor.slot))
  }

  ghost predicate NoReceiver(s: State, i: nat) {
    forall k | 0 <= k < |s.receivers| && s.receivers[k].pc.Active() :: s.receivers[k].slot != i
  }

  ghost predicate Choices(s: State)
    requires InRange(s)
  {
    ChoiceIsFree(s.acceptor, Occupied(s.slots)) && ScanIsExact(s.acceptor, Occupied(s.slots))
  }

  ghost predicate Inv(s: State) {
    InRange(s) && ClientLock(s) && BufLocks(s) && Balanced(s) && SlotUse(s) && Choices(s)
  }

  // ---------- Every step keeps them ----------

  lemma {:induction false} InitInv(n: nat)
    requires n > 0
    ensures Inv(Init(n))
  {
  }

  /** A thread comes to stand where it holds a mutex just by locking it while it is free, and leaves just by
      unlocking it. */
  ghost predicate Follows(call: MutexCall, free: bool, held: bool, holds: bool) {
    match call
    case NoCall => held == holds
    case LockCall => !held && holds == free
    case UnlockCall => held && !holds
  }

  /** What one step of a receive thread can do to its place, its slot and the two mutexes. */
  lemma {:induction false} ReceiveMoves(pc: RPc, slot: Slot, keepgoing: bool, clientFree: bool, input: string)
    requires |slot.buf| == MESSAGE_LEN && slot.received < MESSAGE_LEN && pc.Fits()
    ensures var next, after := ReceivePc(pc, slot, keepgoing, clientFree, input), ReceiveData(pc, slot, input);
            && next.Fits() && |after.buf| == MESSAGE_LEN && after.received < MESSAGE_LEN
            && Follows(ReceiveBufCall(pc), slot.lock == None, pc.HoldsBuf(), next.HoldsBuf())
            && Follows(ReceiveClientCall(pc), clientFree, pc.HoldsClient(), next.HoldsClient())
            && (ReceiveBufCall(pc).LockCall? <==> pc.WantBuf?)
            && (next.WantBuf? <==> (pc.Loop? && keepgoing) || (pc.WantBuf? && !next.HoldsBuf()))
            && (next.Active() ==> pc.Active())
            && after.occupied == (slot.occupied && !pc.Closing?)
            && (pc.Closing? ==> pc.HoldsClient() && !next.Active())
  {
  }

  lemma {:induction false} SendMoves(pc: SPc, slot: Slot, keepgoing: bool, clientFree: bool, n: nat, reaches: bool)
    requires |slot.buf| == MESSAGE_LEN && slot.received < MESSAGE_LEN
    ensures var next, after := SendPc(pc, slot, keepgoing, clientFree, n), SendData(pc, slot, clientFree, n, reaches);
            && after.buf == slot.buf && after.received == slot.received && after.occupied == slot.occupied
            && Follows(SendBufCall(pc, slot.sendbool), slot.lock == None, pc.HoldsBuf(), next.HoldsBuf())
            && Follows(SendClientCall(pc), clientFree, pc.HoldsClient(), next.HoldsClient())
            && (SendBufCall(pc, slot.sendbool).LockCall? <==> pc.SWantBuf? || pc.Waiting?)
  {
  }

  lemma {:induction false} AcceptMoves(a: Acceptor, occupied: seq<bool>, canLock: bool, keepgoing: bool)
    requires |occupied| > 0 && a.InRange(|occupied|)
    ensures Follows(AcceptCall(a), canLock, a.HoldsClient(), Advance(a, occupied, canLock, keepgoing).HoldsClient())
  {
  }

  // The three kinds of step, and for each the mutexes, the counters and the slots.

  lemma {:induction false} ReceiverKeepsChoices(s: State, k: nat, input: string)
    requires Inv(s) && k < |s.receivers|
    ensures var t := StepReceiver(s, k, input); InRange(t) && Choices(t)
  {
    var r, t := s.receivers[k], StepReceiver(s, k, input);
    ReceiveMoves(r.pc, s.slots[r.slot], s.keepgoing, s.client == None, input);
    hide ReceivePc, ReceiveData, ReceiveBufCall, ReceiveClientCall, Called, ChatInput, ChoiceIsFree, ScanIsExact,
      SlotUse, Balanced, BufLocks;
    if r.pc.Closing? {
      assert HoldsClient(s, ReceiveThread(k)) && !HoldsClient(s, AcceptorThread);
      assert Occupied(t.slots) == Occupied(s.slots)[r.slot := false];
      FreeKeepsChoice(s.acceptor, Occupied(s.slots), r.slot);
      FreeKeepsScan(s.acceptor, Occupied(s.slots), r.slot);
    } else {
      assert Occupied(t.slots) == Occupied(s.slots);
    }
  }

  lemma {:induction false} ReceiverKeepsSlots(s: State, k: nat, input: string)
    requires Inv(s) && k < |s.receivers|
    ensures var t := StepReceiver(s, k, input); InRange(t) && SlotUse(t) && Choices(t)
  {
    var r := s.receivers[k];
    ReceiveMoves(r.pc, s.slots[r.slot], s.keepgoing, s.client == None, input);
    ReceiverKeepsChoices(s, k, input);
    hide ReceivePc, ReceiveData, ReceiveBufCall, ReceiveClientCall, Called, ChatInput, Choices,
      Balanced, BufLocks, ClientLock;
  }

  lemma {:induction false} ReceiverKeepsLocks(s: State, k: nat, input: string)
    requires Inv(s) && k < |s.receivers|
    ensures var t := StepReceiver(s, k, input); ClientLock(t) && BufLocks(t)
  {
    var r, t := s.receivers[k], StepReceiver(s, k, input);
    ReceiveMoves(r.pc, s.slots[r.slot], s.keepgoing, s.client == None, input);
    hide ReceivePc, ReceiveData, ChatInput, SlotUse, Choices, Balanced, ReceiveBufCall, ReceiveClientCall;
    var me := ReceiveThread(k);
    assert HoldsClient(s, me) == r.pc.HoldsClient() && HoldsBuf(s, me, r.slot) == r.pc.HoldsBuf();
    forall x
      ensures t.client == Some(x) <==> HoldsClient(t, x)
    {
      assert s.client == Some(x) <==> HoldsClient(s, x);
    }
    forall x, i: nat | i < |t.slots|
      ensures t.slots[i].lock == Some(x) <==> HoldsBuf(t, x, i)
    {
      assert s.slots[i].lock == Some(x) <==> HoldsBuf(s, x, i);
    }
  }

  lemma {:induction false} ReceiverKeepsBalance(s: State, k: nat, input: string)
    requires Inv(s) && k < |s.receivers|
    ensures Balanced(StepReceiver(s, k, input))
  {
    var r := s.receivers[k];
    ReceiveMoves(r.pc, s.slots[r.slot], s.keepgoing, s.client == None, input);
    hide ReceivePc, ReceiveData, ChatInput, Choices, SlotUse, ClientLock, BufLocks, ReceiveBufCall, ReceiveClientCall;
  }

  lemma {:induction false} SenderKeepsSlots(s: State, k: nat, ok: bool)
    requires Inv(s) && k < |s.senders|
    ensures var t := StepSender(s, k, ok); InRange(t) && Balanced(t) && SlotUse(t) && Choices(t)
  {
    var r, n, t := s.senders[k], |s.slots|, StepSender(s, k, ok);
    var reaches := ok && r.pc.Send? && r.pc.j < n && s.slots[r.pc.j].occupied;
    SendMoves(r.pc, s.slots[r.slot], s.keepgoing, s.client == None, n, reaches);
    hide SendPc, SendData, SendBufCall, SendClientCall, Called, ChoiceIsFree, ScanIsExact, ClientLock, BufLocks;
    assert forall i | 0 <= i < n :: t.slots[i].occupied == s.slots[i].occupied;
    assert Occupied(t.slots) == Occupied(s.slots);
  }

  lemma {:induction false} SenderKeepsLocks(s: State, k: nat, ok: bool)
    requires Inv(s) && k < |s.senders|
    ensures var t := StepSender(s, k, ok); ClientLock(t) && BufLocks(t)
  {
    var r, n, t := s.senders[k], |s.slots|, StepSender(s, k, ok);
    var reaches := ok && r.pc.Send? && r.pc.j < n && s.slots[r.pc.j].occupied;
    SendMoves(r.pc, s.slots[r.slot], s.keepgoing, s.client == None, n, reaches);
    hide SendPc, SendData, SlotUse, Choices, Balanced, SendBufCall, SendClientCall;
    var me := SendThread(k);
    assert HoldsClient(s, me) == r.pc.HoldsClient() && HoldsBuf(s, me, r.slot) == r.pc.HoldsBuf();
    forall x
      ensures t.client == Some(x) <==> HoldsClient(t, x)
    {
      assert s.client == Some(x) <==> HoldsClient(s, x);
    }
    forall x, i: nat | i < |t.slots|
      ensures t.slots[i].lock == Some(x) <==> HoldsBuf(t, x, i)
    {
      assert s.slots[i].lock == Some(x) <==> HoldsBuf(s, x, i);
    }
  }

  lemma {:induction false} AcceptorKeepsSlots(s: State)
    requires Inv(s)
    ensures var t := StepAcceptor(s); InRange(t) && SlotUse(t) && Choices(t)
  {
    AdvanceKeeps(s.acceptor, Occupied(s.slots), s.client == None, s.keepgoing);
    assert Occupied(StepAcceptor(s).slots) == Marked(s.acceptor, Occupied(s.slots));
    hide ChoiceIsFree, ScanIsExact, ClientLock, BufLocks, Balanced;
  }

  lemma {:induction false} AcceptorKeepsLocks(s: State)
    requires Inv(s)
    ensures var t := StepAcceptor(s); ClientLock(t) && BufLocks(t) && Balanced(t)
  {
    var t := StepAcceptor(s);
    AcceptMoves(s.acceptor, Occupied(s.slots), s.client == None, s.keepgoing);
    hide Advance, AcceptCall, SlotUse, Choices;
    assert HoldsClient(s, AcceptorThread) == s.acceptor.HoldsClient();
    forall x
      ensures t.client == Some(x) <==> HoldsClient(t, x)
    {
      assert s.client == Some(x) <==> HoldsClient(s, x);
    }
    forall x, i: nat | i < |t.slots|
      ensures t.slots[i].lock == Some(x) <==> HoldsBuf(t, x, i)
    {
      assert s.slots[i].lock == Some(x) <==> HoldsBuf(s, x, i);
    }
  }

  lemma {:induction false} StepKeepsInv(s: State, e: Event)
    requires Inv(s)
    ensures Inv(Step(s, e))
  {
    hide StepReceiver, StepSender, StepAcceptor, InRange, ClientLock, BufLocks, Balanced, SlotUse, Choices;
    match e
    case AcceptStep =>
      AcceptorKeepsSlots(s);
      AcceptorKeepsLocks(s);
    case ReceiveStep(k, input) =>
      if k < |s.receivers| {
        ReceiverKeepsSlots(s, k, input);
        ReceiverKeepsLocks(s, k, input);
        ReceiverKeepsBalance(s, k, input);
      }
    case SendStep(k, ok) =>
      if k < |s.senders| {
        SenderKeepsSlots(s, k, ok);
        SenderKeepsLocks(s, k, ok);
      }
  }

  // ---------- Whole runs ----------

  /** `s` is what some interleaving of the threads leads to, from a server with `n` free slots. */
  ghost predicate Reachable(s: State, n: nat, events: seq<Event>)
    decreases |events|
  {
    if events == [] then s == Init(n)
    else exists r :: Reachable(r, n, events[..|events| - 1]) && InRange(r) && s == Step(r, events[|events| - 1])
  }

  lemma {:induction false} ReachableInv(s: State, n: nat, events: seq<Event>)
    requires n > 0 && Reachable(s, n, events)
    ensures Inv(s)
    decreases |events|
  {
    hide Inv, Step, Init;
    if events == [] {
      InitInv(n);
    } else {
      var front, last := events[..|events| - 1], events[|events| - 1];
      var r :| Reachable(r, n, front) && InRange(r) && s == Step(r, last);
      ReachableInv(r, n, front);
      StepKeepsInv(r, last);
    }
  }

  /** In every run: no two receive threads work on one slot between their creation and their clearing of
      `freeclients`, and the slot the acceptor is about to mark is free and has no such thread, although the
      lock was given back after the scan. */
  lemma {:induction false} SlotsAreSafe(s: State, n: nat, events: seq<Event>)
    requires n > 0 && Reachable(s, n, events)
    ensures forall j, k | 0 <= j < k < |s.receivers| && s.receivers[j].pc.Active() && s.receivers[k].pc.Active() ::
              s.receivers[j].slot != s.receivers[k].slot
    ensures forall i: nat | i < |s.slots| && s.acceptor.Chose(i) :: !s.slots[i].occupied && NoReceiver(s, i)
    ensures s.acceptor.Creating? ==> NoReceiver(s, s.acceptor.slot)
  {
    ReachableInv(s, n, events);
    assert forall i: nat | i < |s.slots| :: Occupied(s.slots)[i] == s.slots[i].occupied;
    hide ClientLock, BufLocks, Balanced;
  }

  /** In every run a connection is given up only when every slot is occupied. */
  lemma {:induction false} DropsOnlyWhenFull(s: State, n: nat, events: seq<Event>)
    requires n > 0 && Reachable(s, n, events) && s.acceptor.Leaving?
    ensures InRange(s)
    ensures StepAcceptor(s).acceptor.Accepting? <==> forall i | 0 <= i < |s.slots| :: s.slots[i].occupied
  {
    ReachableInv(s, n, events);
    AdvanceKeeps(s.acceptor, Occupied(s.slots), s.client == None, s.keepgoing);
    assert forall i | 0 <= i < |s.slots| :: Occupied(s.slots)[i] == s.slots[i].occupied;
    hide ClientLock, BufLocks, Balanced, SlotUse;
  }

  // ---------- Waiting ----------

  /** The thread is blocked on `client_lock`. */
  ghost predicate WantsClient(s: State, t: Tid) {
    match t
    case AcceptorThread => s.acceptor.WantsClient()
    case ReceiveThread(k) => k < |s.receivers| && s.receivers[k].pc.WantClient?
    case SendThread(k) => k < |s.senders| && s.senders[k].pc.SWantClient?
  }

  /** The thread is blocked on `buf_lock[i]`, be it at the end of a condition wait. */
  ghost predicate WantsBuf(s: State, t: Tid, i: nat) {
    match t
    case AcceptorThread => false
    case ReceiveThread(k) => k < |s.receivers| && s.receivers[k].slot == i && s.receivers[k].pc.WantBuf?
    case SendThread(k) =>
      k < |s.senders| && s.senders[k].slot == i && (s.senders[k].pc.SWantBuf? || s.senders[k].pc.Waiting?)
  }

  ghost predicate WaitsFor(s: State, t: Tid, u: Tid) {
    || (WantsClient(s, t) && s.client == Some(u))
    || exists i: nat :: i < |s.slots| && WantsBuf(s, t, i) && s.slots[i].lock == Some(u)
  }

  /** Who holds `client_lock` requests nothing; who holds a `buf_lock` requests at most `client_lock`. */
  lemma {:induction false} HoldersRequestLess(s: State, t: Tid)
    requires Inv(s)
    ensures HoldsClient(s, t) ==> !WantsClient(s, t) && forall i: nat :: !WantsBuf(s, t, i)
    ensures forall i: nat, j: nat | i < |s.slots| && HoldsBuf(s, t, i) :: !WantsBuf(s, t, j)
  {
  }

  lemma {:induction false} WaitEnds(s: State, t: Tid, u: Tid, v: Tid)
    requires Inv(s) && WaitsFor(s, t, u) && WaitsFor(s, u, v)
    ensures HoldsClient(s, v)
  {
    HoldersRequestLess(s, u);
    hide InRange, Balanced, SlotUse, Choices;
    assert s.client == Some(u) <==> HoldsClient(s, u);
    assert forall i: nat | i < |s.slots| && s.slots[i].lock == Some(u) :: HoldsBuf(s, u, i);
  }

  /** In every run a chain of threads, each waiting for a mutex of the next, has at most three members and is
      never a circle: the server cannot deadlock on its mutexes. */
  lemma {:induction false} NoCircularWait(s: State, n: nat, events: seq<Event>, path: seq<Tid>)
    requires n > 0 && Reachable(s, n, events)
    requires |path| >= 2 && forall i | 0 <= i < |path| - 1 :: WaitsFor(s, path[i], path[i + 1])
    ensures |path| <= 3 && path[0] != path[|path| - 1]
  {
    hide Inv, WaitsFor, Reachable, HoldsClient;
    ReachableInv(s, n, events);
    assert WaitsFor(s, path[0], path[1]);
    if |path| == 2 {
      NoSelfWait(s, path[0]);
    } else {
      assert WaitsFor(s, path[1], path[2]) && (|path| > 3 ==> WaitsFor(s, path[2], path[3]));
      WaitEnds(s, path[0], path[1], path[2]);
      HolderWaitsForNobody(s, path[2]);
    }
  }

  /** In every run the owner of `client_lock` requests nothing, and the owner of a `buf_lock` requests no `buf_lock`. */
  lemma {:induction false} LockOrder(s: State, n: nat, events: seq<Event>, t: Tid)
    requires n > 0 && Reachable(s, n, events)
    ensures s.client == Some(t) ==> !WantsClient(s, t) && forall i: nat :: !WantsBuf(s, t, i)
    ensures forall i: nat, j: nat | i < |s.slots| && s.slots[i].lock == Some(t) :: !WantsBuf(s, t, j)
  {
    hide Reachable, Inv, HoldsClient, HoldsBuf, WantsClient, WantsBuf;
    ReachableInv(s, n, events);
    OwnersStandInside(s, n, events);
    HoldersRequestLess(s, t);
  }

  lemma {:induction false} HolderWaitsForNobody(s: State, t: Tid)
    requires Inv(s) && HoldsClient(s, t)
    ensures forall u :: !WaitsFor(s, t, u)
  {
    HoldersRequestLess(s, t);
  }

  lemma {:induction false} NoSelfWait(s: State, t: Tid)
    requires Inv(s)
    ensures !WaitsFor(s, t, t)
  {
    HoldersRequestLess(s, t);
    hide InRange, Balanced, SlotUse, Choices;
    assert s.client == Some(t) ==> HoldsClient(s, t);
    assert forall i: nat | i < |s.slots| && s.slots[i].lock == Some(t) :: HoldsBuf(s, t, i);
  }

  /** In every run the owner of a mutex is the one thread that stands where it is held. */
  lemma {:induction false} OwnersStandInside(s: State, n: nat, events: seq<Event>)
    requires n > 0 && Reachable(s, n, events)
    ensures forall t, i: nat | i < |s.slots| :: s.slots[i].lock == Some(t) <==> HoldsBuf(s, t, i)
    ensures forall t :: s.client == Some(t) <==> HoldsClient(s, t)
    ensures InRange(s)
  {
    ReachableInv(s, n, events);
    hide InRange, SlotUse, Choices, Balanced;
  }

  /** The thread's next statement gives `client_lock` back. */
  ghost predicate UnlocksClient(s: State, t: Tid) {
    match t
    case AcceptorThread => AcceptCall(s.acceptor).UnlockCall?
    case ReceiveThread(k) => k < |s.receivers| && ReceiveClientCall(s.receivers[k].pc).UnlockCall?
    case SendThread(k) => k < |s.senders| && SendClientCall(s.senders[k].pc).UnlockCall?
  }

  /** The thread's next statement gives `buf_lock[i]` back, be it for a condition wait. */
  ghost predicate UnlocksBuf(s: State, t: Tid, i: nat)
    requires i < |s.slots|
  {
    match t
    case AcceptorThread => false
    case ReceiveThread(k) =>
      k < |s.receivers| && s.receivers[k].slot == i && ReceiveBufCall(s.receivers[k].pc).UnlockCall?
    case SendThread(k) =>
      k < |s.senders| && s.senders[k].slot == i && SendBufCall(s.senders[k].pc, s.slots[i].sendbool).UnlockCall?
  }

  /** In every run a thread that comes to an unlock statement owns the mutex it gives back. */
  lemma {:induction false} OnlyOwnersUnlock(s: State, n: nat, events: seq<Event>, t: Tid)
    requires n > 0 && Reachable(s, n, events)
    ensures UnlocksClient(s, t) ==> s.client == Some(t)
    ensures forall i: nat | i < |s.slots| :: UnlocksBuf(s, t, i) ==> s.slots[i].lock == Some(t)
  {
    OwnersStandInside(s, n, events);
    hide Reachable;
    assert UnlocksClient(s, t) ==> HoldsClient(s, t);
    assert forall i: nat | i < |s.slots| :: UnlocksBuf(s, t, i) ==> HoldsBuf(s, t, i);
  }

  /** In every run a receive thread at the head of its loop has released `buf_lock` exactly once per round. */
  lemma {:induction false} OneReleasePerRound(s: State, n: nat, events: seq<Event>, k: nat)
    requires n > 0 && Reachable(s, n, events) && k < |s.receivers|
    ensures var r := s.receivers[k];
            && r.unlocks <= r.locks <= r.rounds <= r.unlocks + 1
            && (r.pc.Loop? || r.pc.WantClient? || r.pc.HoldsClient() || r.pc.Gone? ==> r.unlocks == r.rounds)
  {
    ReachableInv(s, n, events);
    hide InRange, SlotUse, Choices, ClientLock, BufLocks;
  }
}
