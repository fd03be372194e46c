/** The whole way of one message when no other thread steps in between: read, converted, published, and sent to every
    occupied slot. */
module ChatUndisturbed {
  import opened CStrings
  import Acceptors
  import opened Chat
  import opened ChatSafety

  /** The same event `n` times. */
  function Repeat(s: State, e: Event, n: nat): State
    decreases n
  {
    if n == 0 || !InRange(s) then s else Repeat(Step(s, e), e, n - 1)
  }

  lemma {:induction false} RepeatSum(s: State, e: Event, m: nat, n: nat)
    ensures Repeat(s, e, m + n) == Repeat(Repeat(s, e, m), e, n)
    decreases m
  {
    hide Step, InRange;
    if m > 0 && InRange(s) { RepeatSum(Step(s, e), e, m - 1, n); }
  }

  // ---------- The receive thread ----------

  /** All but receive thread `k`, its place in the buffer and its messages is as it was. */
  ghost predicate OnlyReceiver(s: State, t: State, k: nat) {
    && |t.receivers| == |s.receivers| && |t.slots| == |s.slots| && k < |s.receivers|
    && t.acceptor == s.acceptor && t.client == s.client && t.senders == s.senders
    && t.receivers[k].slot == s.receivers[k].slot < |s.slots|
    && (forall j | 0 <= j < |s.receivers| && j != k :: t.receivers[j] == s.receivers[j])
    && (forall i | 0 <= i < |s.slots| && i != s.receivers[k].slot :: t.slots[i] == s.slots[i])
    && t.slots[s.receivers[k].slot].occupied == s.slots[s.receivers[k].slot].occupied
    && t.slots[s.receivers[k].slot].casts == s.slots[s.receivers[k].slot].casts
  }

  predicate Working(pc: RPc) { !pc.WantClient? && !pc.Closing? && !pc.Closed? && !pc.Gone? }

  lemma {:induction false} OneReceive(s: State, k: nat, input: string)
    requires Inv(s) && k < |s.receivers| && Working(s.receivers[k].pc)
    ensures var t, r := Step(s, ReceiveStep(k, input)), s.receivers[k];
            var slot := s.slots[r.slot];
            && Inv(t) && OnlyReceiver(s, t, k)
            && t.receivers[k].pc == ReceivePc(r.pc, slot, s.keepgoing, s.client == None, input)
            && t.slots[r.slot] == ReceiveData(r.pc, slot, input)
                                  .(lock := Called(slot.lock, ReceiveBufCall(r.pc), ReceiveThread(k)))
  {
    StepKeepsInv(s, ReceiveStep(k, input));
    hide Inv, Str;
    InvInRange(s);
  }

  lemma {:induction false} InvInRange(s: State)
    requires Inv(s)
    ensures InRange(s)
  {
  }

  lemma {:induction false} OnlyTrans(s: State, t: State, u: State, k: nat)
    requires OnlyReceiver(s, t, k) && OnlyReceiver(t, u, k)
    ensures OnlyReceiver(s, u, k)
  {
  }

  /** The slot holds the message as far as it has been copied. */
  ghost predicate Copied(slot: Slot, msg: string, j: nat) {
    j <= |msg| < MESSAGE_LEN == |slot.buf| && slot.buf[..j] == msg[..j]
  }

  ghost predicate Filled(slot: Slot, after: Slot, msg: string) {
    Copied(after, msg, |msg|) && after.received == |msg| && after.msgs == slot.msgs + [msg] && after.lock == slot.lock
  }

  lemma {:induction false} FillOne(slot: Slot, msg: string, j: nat, input: string)
    requires Copied(slot, msg, j)
    ensures var after := ReceiveData(Fill(msg, j), slot, input);
            && (j < |msg| ==> Copied(after, msg, j + 1) && after.msgs == slot.msgs)
            && (j == |msg| ==> Filled(slot, after.(lock := slot.lock), msg))
  {
    var after := ReceiveData(Fill(msg, j), slot, input);
    if j < |msg| {
      assert after.buf[..j + 1] == slot.buf[..j] + [msg[j]];
    } else {
      assert after.buf[..|msg|] == slot.buf[..|msg|];
    }
  }

  /** The message is copied into the buffer and recorded. */
  lemma {:induction false} FillAlone(s: State, k: nat, input: string, j: nat, msg: string)
    requires Inv(s) && k < |s.receivers| && s.receivers[k].slot < |s.slots| && s.receivers[k].pc == Fill(msg, j)
    requires Copied(s.slots[s.receivers[k].slot], msg, j)
    ensures var i, t := s.receivers[k].slot, Repeat(s, ReceiveStep(k, input), |msg| - j + 1);
            Inv(t) && OnlyReceiver(s, t, k) && t.receivers[k].pc == Upper(0) && Filled(s.slots[i], t.slots[i], msg)
    decreases MESSAGE_LEN - j
  {
    hide Inv, Step, InRange, OnlyReceiver, ReceiveData, Repeat;
    InvInRange(s);
    var i, e := s.receivers[k].slot, ReceiveStep(k, input);
    var t := Step(s, e);
    OneReceive(s, k, input);
    OnlySame(s, t, k);
    RepeatOnce(s, e, |msg| - j);
    FillOne(s.slots[i], msg, j, input);
    if j < |msg| {
      FillAlone(t, k, input, j + 1, msg);
      OnlyTrans(s, t, Repeat(t, e, |msg| - j), k);
    }
  }

  lemma {:induction false} RepeatOnce(s: State, e: Event, n: nat)
    requires Inv(s)
    ensures Repeat(s, e, n + 1) == Repeat(Step(s, e), e, n)
    ensures Repeat(s, e, 0) == s && Repeat(Step(s, e), e, 0) == Step(s, e)
  {
    InvInRange(s);
    hide Step, Inv, InRange;
  }

  /** The bytes are converted one by one. */
  lemma {:induction false} UpperAlone(s: State, k: nat, input: string, j: nat, msg: string)
    requires Inv(s) && k < |s.receivers| && s.receivers[k].slot < |s.slots| && s.receivers[k].pc == Upper(j)
    requires j <= |msg| == s.slots[s.receivers[k].slot].received < MESSAGE_LEN == |s.slots[s.receivers[k].slot].buf|
    requires forall x | 0 <= x < j :: s.slots[s.receivers[k].slot].buf[x] == ToUpper(msg[x])
    requires forall x | j <= x < |msg| :: s.slots[s.receivers[k].slot].buf[x] == msg[x]
    ensures var i := s.receivers[k].slot;
            var t := Repeat(s, ReceiveStep(k, input), |msg| - j + 1);
            && Inv(t) && OnlyReceiver(s, t, k) && t.receivers[k].pc == Publish
            && t.slots[i].received == |msg| && t.slots[i].msgs == s.slots[i].msgs
            && |t.slots[i].buf| == MESSAGE_LEN && t.slots[i].buf[..|msg|] == UpperCase(msg)
            && t.slots[i].lock == s.slots[i].lock
    decreases |msg| - j
  {
    hide Inv, Step, InRange, ToUpper, OnlyReceiver, Repeat;
    InvInRange(s);
    var i, e := s.receivers[k].slot, ReceiveStep(k, input);
    var t := Step(s, e);
    OneReceive(s, k, input);
    OnlySame(s, t, k);
    RepeatOnce(s, e, |msg| - j);
    if j < |msg| {
      UpperAlone(t, k, input, j + 1, msg);
      OnlyTrans(s, t, Repeat(t, e, |msg| - j), k);
    } else {
      assert t.slots[i].buf[..|msg|] == UpperCase(msg);
    }
  }

  /** From the head of its loop, with its buffer free, a receive thread reads a message, leaves the whole image of it in
      the buffer with the flag set, frees the buffer and stands at the head of its loop again. */
  lemma {:induction false} MessageIsPublished(s: State, k: nat, msg: string)
    requires Inv(s) && k < |s.receivers| && s.receivers[k].pc.Loop? && s.keepgoing && ChatInput(msg) && msg != ""
    requires s.receivers[k].slot < |s.slots| && s.slots[s.receivers[k].slot].lock == None
    ensures var i := s.receivers[k].slot;
            var t := Repeat(s, ReceiveStep(k, msg), 2 * |msg| + 7);
            && Inv(t) && OnlyReceiver(s, t, k) && t.receivers[k].pc.Loop? && t.slots[i].lock == None
            && t.slots[i].msgs == s.slots[i].msgs + [msg] && t.slots[i].sendbool
            && t.slots[i].received == |msg| <= |t.slots[i].buf| && t.slots[i].buf[..|msg|] == UpperCase(msg)
  {
    hide Step, Inv, InRange, ToUpper, ChatInput, OnlyReceiver, Repeat, UpperCase;
    var i, e, n := s.receivers[k].slot, ReceiveStep(k, msg), |msg|;
    var a := Repeat(s, e, 3);
    var b := Repeat(a, e, n + 1);
    var c := Repeat(b, e, n + 1);
    ToFill(s, k, msg);
    OnlySame(s, a, k);
    assert a.slots[i].buf[..0] == msg[..0];
    FillAlone(a, k, msg, 0, msg);
    OnlySame(a, b, k);
    assert forall x | 0 <= x < n :: b.slots[i].buf[x] == b.slots[i].buf[..n][x] == msg[..n][x];
    UpperAlone(b, k, msg, 0, msg);
    OnlySame(b, c, k);
    ToLoop(c, k, msg);
    OnlySame(c, Repeat(c, e, 2), k);
    RepeatSum(s, e, 3, n + 1);
    RepeatSum(s, e, n + 4, n + 1);
    RepeatSum(s, e, 2 * n + 5, 2);
    OnlyTrans(s, a, b, k);
    OnlyTrans(s, b, c, k);
    OnlyTrans(s, c, Repeat(c, e, 2), k);
  }

  lemma {:induction false} OnlySame(s: State, t: State, k: nat)
    requires OnlyReceiver(s, t, k)
    ensures k < |t.receivers| == |s.receivers| && t.receivers[k].slot == s.receivers[k].slot < |t.slots| == |s.slots|
  {
  }

  /** One step of a receive thread that is not on its way out. */
  lemma {:induction false} Receiving(s: State, k: nat, input: string, n: nat)
    requires Inv(s) && k < |s.receivers| && Working(s.receivers[k].pc) && s.receivers[k].slot < |s.slots|
    ensures var i, e, r := s.receivers[k].slot, ReceiveStep(k, input), s.receivers[k];
            var t, slot := Step(s, e), s.slots[i];
            && Inv(t) && OnlyReceiver(s, t, k) && Repeat(s, e, n + 1) == Repeat(t, e, n) && Repeat(t, e, 0) == t
            && |t.receivers| == |s.receivers| && |t.slots| == |s.slots| && t.client == s.client
            && t.receivers[k].slot == i && (!r.pc.Fill? ==> t.keepgoing == s.keepgoing)
            && t.receivers[k].pc == ReceivePc(r.pc, slot, s.keepgoing, s.client == None, input)
            && t.slots[i] == ReceiveData(r.pc, slot, input)
                             .(lock := Called(slot.lock, ReceiveBufCall(r.pc), ReceiveThread(k)))
  {
    InvInRange(s);
    KeepsGoing(s, k, input);
    hide Inv, Step, InRange, Repeat;
    OneReceive(s, k, input);
    RepeatOnce(s, ReceiveStep(k, input), n);
  }

  lemma {:induction false} KeepsGoing(s: State, k: nat, input: string)
    requires InRange(s) && k < |s.receivers|
    ensures !s.receivers[k].pc.Fill? ==> Step(s, ReceiveStep(k, input)).keepgoing == s.keepgoing
  {
  }

  lemma {:induction false} ToRead(s: State, k: nat, input: string)
    requires Inv(s) && k < |s.receivers| && s.receivers[k].pc.Loop? && s.keepgoing
    requires s.receivers[k].slot < |s.slots| && s.slots[s.receivers[k].slot].lock == None
    ensures var i, t := s.receivers[k].slot, Repeat(s, ReceiveStep(k, input), 2);
            && Inv(t) && OnlyReceiver(s, t, k) && t.receivers[k].pc.Read? && t.keepgoing && t.client == s.client
            && t.slots[i] == s.slots[i].(lock := Some(ReceiveThread(k)))
  {
    hide Inv, Step, InRange, Repeat, OnlyReceiver;
    var e := ReceiveStep(k, input);
    InvInRange(s);
    var t := Step(s, e);
    Receiving(s, k, input, 1);
    OnlySame(s, t, k);
    InvInRange(t);
    Receiving(t, k, input, 0);
    OnlySame(t, Step(t, e), k);
    OnlyTrans(s, t, Step(t, e), k);
  }

  lemma {:induction false} ToFill(s: State, k: nat, msg: string)
    requires Inv(s) && k < |s.receivers| && s.receivers[k].pc.Loop? && s.keepgoing && ChatInput(msg) && msg != ""
    requires s.receivers[k].slot < |s.slots| && s.slots[s.receivers[k].slot].lock == None
    ensures var i, t := s.receivers[k].slot, Repeat(s, ReceiveStep(k, msg), 3);
            && Inv(t) && OnlyReceiver(s, t, k) && t.receivers[k].pc == Fill(msg, 0) && |msg| < MESSAGE_LEN
            && |t.slots[i].buf| == MESSAGE_LEN && t.slots[i].msgs == s.slots[i].msgs
            && t.slots[i].lock == Some(ReceiveThread(k))
  {
    InvInRange(s);
    assert |s.slots[s.receivers[k].slot].buf| == MESSAGE_LEN;
    hide Inv, Step, InRange, Repeat, OnlyReceiver;
    var e := ReceiveStep(k, msg);
    var t := Repeat(s, e, 2);
    ToRead(s, k, msg);
    OnlySame(s, t, k);
    InvInRange(t);
    Receiving(t, k, msg, 0);
    OnlyTrans(s, t, Step(t, e), k);
    RepeatSum(s, e, 2, 1);
  }

  lemma {:induction false} ToLoop(s: State, k: nat, input: string)
    requires Inv(s) && k < |s.receivers| && s.receivers[k].pc.Publish? && s.receivers[k].slot < |s.slots|
    ensures var i, t := s.receivers[k].slot, Repeat(s, ReceiveStep(k, input), 2);
            && Inv(t) && OnlyReceiver(s, t, k) && t.receivers[k].pc.Loop?
            && t.slots[i] == s.slots[i].(sendbool := true, lock := None)
  {
    hide Inv, Step, InRange, Repeat, OnlyReceiver;
    var e := ReceiveStep(k, input);
    InvInRange(s);
    var t := Step(s, e);
    Receiving(s, k, input, 1);
    OnlySame(s, t, k);
    InvInRange(t);
    Receiving(t, k, input, 0);
    OnlyTrans(s, t, Step(t, e), k);
  }

  // ---------- A client that leaves ----------

  /** One step of a receive thread on its way out, between its wait for `client_lock` and its end. */
  lemma {:induction false} OneLeave(s: State, k: nat, input: string)
    requires Inv(s) && k < |s.receivers| && s.receivers[k].slot < |s.slots| && !Working(s.receivers[k].pc)
    ensures var t, r := Step(s, ReceiveStep(k, input)), s.receivers[k];
            var i := r.slot;
            && Inv(t) && |t.receivers| == |s.receivers| && |t.slots| == |s.slots| && t.receivers[k].slot == i
            && t.receivers[k].pc == ReceivePc(r.pc, s.slots[i], s.keepgoing, s.client == None, input)
            && t.client == Called(s.client, ReceiveClientCall(r.pc), ReceiveThread(k))
            && t.slots[i] == s.slots[i].(occupied := s.slots[i].occupied && !r.pc.Closing?)
  {
    StepKeepsInv(s, ReceiveStep(k, input));
    InvInRange(s);
    hide Inv, Str;
  }

  /** It takes `client_lock`, frees the slot, gives the lock back and is gone. */
  lemma {:induction false} SlotIsFreed(s: State, k: nat, input: string)
    requires Inv(s) && k < |s.receivers| && s.receivers[k].pc.WantClient? && s.client == None
    requires s.receivers[k].slot < |s.slots|
    ensures var i, t := s.receivers[k].slot, Repeat(s, ReceiveStep(k, input), 3);
            && Inv(t) && |t.receivers| == |s.receivers| && |t.slots| == |s.slots|
            && t.receivers[k].pc.Gone? && t.client == None && t.slots[i] == s.slots[i].(occupied := false)
  {
    hide Inv, Step, InRange, Repeat;
    var e := ReceiveStep(k, input);
    InvInRange(s);
    var t := Step(s, e);
    OneLeave(s, k, input);
    InvInRange(t);
    var u := Step(t, e);
    OneLeave(t, k, input);
    InvInRange(u);
    OneLeave(u, k, input);
    RepeatOnce(s, e, 2);
    RepeatOnce(t, e, 1);
    RepeatOnce(u, e, 0);
  }

  /** A client that leaves while nothing disturbs frees its slot; its send thread is woken with nothing to send. */
  lemma {:induction false} ClientLeaves(s: State, k: nat)
    requires Inv(s) && k < |s.receivers| && s.receivers[k].pc.Loop? && s.keepgoing && s.client == None
    requires s.receivers[k].slot < |s.slots| && s.slots[s.receivers[k].slot].lock == None
    ensures var i, t := s.receivers[k].slot, Repeat(s, ReceiveStep(k, ""), 8);
            && Inv(t) && |t.receivers| == |s.receivers| && |t.slots| == |s.slots|
            && t.receivers[k].pc.Gone? && t.client == None && t.slots[i].lock == None
            && t.slots[i] == s.slots[i].(occupied := false, sendbool := true, received := 0)
  {
    hide Inv, Step, InRange, Repeat, OnlyReceiver;
    var e := ReceiveStep(k, "");
    var a := Repeat(s, e, 2);
    var b := Repeat(a, e, 3);
    ToRead(s, k, "");
    OnlySame(s, a, k);
    Hangs(a, k);
    SlotIsFreed(b, k, "");
    RepeatSum(s, e, 2, 3);
    RepeatSum(s, e, 5, 3);
  }

  lemma {:induction false} Hangs(s: State, k: nat)
    requires Inv(s) && k < |s.receivers| && s.receivers[k].pc.Read? && s.client == None && s.receivers[k].slot < |s.slots|
    ensures var i, t := s.receivers[k].slot, Repeat(s, ReceiveStep(k, ""), 3);
            && Inv(t) && |t.receivers| == |s.receivers| && |t.slots| == |s.slots| && t.receivers[k].slot == i
            && t.receivers[k].pc.WantClient? && t.client == None
            && t.slots[i] == s.slots[i].(sendbool := true, received := 0, lock := None)
  {
    hide Inv, Step, InRange, Repeat, OnlyReceiver;
    var e := ReceiveStep(k, "");
    InvInRange(s);
    var t := Step(s, e);
    Receiving(s, k, "", 2);
    InvInRange(t);
    var u := Step(t, e);
    Receiving(t, k, "", 1);
    InvInRange(u);
    Receiving(u, k, "", 0);
  }

  // ---------- The send thread ----------

  /** All but send thread `k`, its flag and its rounds is as it was, the mutexes aside. */
  ghost predicate OnlySender(s: State, t: State, k: nat) {
    && |t.senders| == |s.senders| && |t.slots| == |s.slots| && k < |s.senders|
    && t.acceptor == s.acceptor && t.keepgoing == s.keepgoing && t.receivers == s.receivers
    && t.senders[k].slot == s.senders[k].slot < |s.slots|
    && (forall j | 0 <= j < |s.senders| && j != k :: t.senders[j] == s.senders[j])
    && (forall i | 0 <= i < |s.slots| && i != s.senders[k].slot :: t.slots[i] == s.slots[i])
    && var slot, after := s.slots[s.senders[k].slot], t.slots[s.senders[k].slot];
      after == slot.(sendbool := after.sendbool, lock := after.lock, casts := after.casts)
  }

  lemma {:induction false} OneSend(s: State, k: nat)
    requires Inv(s) && k < |s.senders|
    ensures var t, r, n := Step(s, SendStep(k, true)), s.senders[k], |s.slots|;
            var slot, free := s.slots[r.slot], s.client == None;
            var reaches := r.pc.Send? && r.pc.j < n && s.slots[r.pc.j].occupied;
            && Inv(t) && OnlySender(s, t, k)
            && t.senders[k].pc == SendPc(r.pc, slot, s.keepgoing, free, n)
            && t.client == Called(s.client, SendClientCall(r.pc), SendThread(k))
            && t.slots[r.slot] == SendData(r.pc, slot, free, n, reaches)
                                  .(lock := Called(slot.lock, SendBufCall(r.pc, slot.sendbool), SendThread(k)))
  {
    StepKeepsInv(s, SendStep(k, true));
    InvInRange(s);
    hide Inv, Payload;
    var r, n := s.senders[k], |s.slots|;
    SendLeaves(r.pc, s.slots[r.slot], s.client == None, n, r.pc.Send? && r.pc.j < n && s.slots[r.pc.j].occupied);
  }

  lemma {:induction false} SendLeaves(pc: SPc, slot: Slot, clientFree: bool, n: nat, reaches: bool)
    ensures var after := SendData(pc, slot, clientFree, n, reaches);
            after == slot.(sendbool := after.sendbool, casts := after.casts)
  {
  }

  lemma {:induction false} SenderTrans(s: State, t: State, u: State, k: nat)
    requires OnlySender(s, t, k) && OnlySender(t, u, k)
    ensures OnlySender(s, u, k)
  {
  }

  lemma {:induction false} SenderSame(s: State, t: State, k: nat)
    requires OnlySender(s, t, k)
    ensures k < |t.senders| && t.senders[k].slot == s.senders[k].slot < |t.slots| == |s.slots|
    ensures Occupied(t.slots) == Occupied(s.slots) && t.keepgoing == s.keepgoing
    ensures Payload(t.slots[s.senders[k].slot]) == Payload(s.slots[s.senders[k].slot])
  {
  }

  /** The deliveries of a round from slot `j` on. */
  function Deliveries(occupied: seq<bool>, j: nat, bytes: string): seq<Delivery>
    requires j <= |occupied|
    decreases |occupied| - j
  {
    if j == |occupied| then []
    else (if occupied[j] then [Delivery(j, bytes)] else []) + Deliveries(occupied, j + 1, bytes)
  }

  /** They reach every occupied slot once, in order, with the same bytes, and nobody else. */
  lemma {:induction false} DeliveriesAre(occupied: seq<bool>, j: nat, bytes: string)
    requires j <= |occupied|
    ensures var ds := Deliveries(occupied, j, bytes);
            && (forall x: nat | x < |occupied| :: Delivery(x, bytes) in ds <==> j <= x && occupied[x])
            && (forall d <- ds :: d.bytes == bytes && j <= d.target < |occupied|)
            && (forall a, b | 0 <= a < b < |ds| :: ds[a].target < ds[b].target)
    decreases |occupied| - j
  {
    if j < |occupied| {
      DeliveriesAre(occupied, j + 1, bytes);
      var rest := Deliveries(occupied, j + 1, bytes);
      assert Deliveries(occupied, j, bytes) == (if occupied[j] then [Delivery(j, bytes)] else []) + rest;
    }
  }

  /** The loop over the slots. */
  lemma {:induction false} SendsAlone(s: State, k: nat, j: nat, before: seq<Cast>, last: Cast)
    requires Inv(s) && k < |s.senders| && s.senders[k].slot < |s.slots| && s.senders[k].pc == Send(j) && j <= |s.slots|
    requires s.slots[s.senders[k].slot].casts == before + [last]
    ensures var i, t := s.senders[k].slot, Repeat(s, SendStep(k, true), |s.slots| - j + 1);
            var sent := last.sent + Deliveries(Occupied(s.slots), j, Payload(s.slots[i]));
            && Inv(t) && OnlySender(s, t, k) && t.senders[k].pc == UnlockClient && t.client == s.client
            && t.slots[i].casts == before + [last.(sent := sent)]
            && t.slots[i].lock == s.slots[i].lock && t.slots[i].sendbool == s.slots[i].sendbool
    decreases |s.slots| - j
  {
    hide Inv, Step, InRange, OnlySender, Repeat, Payload;
    InvInRange(s);
    var i, e, n := s.senders[k].slot, SendStep(k, true), |s.slots|;
    var t := Step(s, e);
    OneSend(s, k);
    SenderSame(s, t, k);
    RepeatOnce(s, e, n - j);
    assert (before + [last])[..|before + [last]| - 1] == before;
    if j < n {
      var bytes := Payload(s.slots[i]);
      var gets := if s.slots[j].occupied then [Delivery(j, bytes)] else [];
      var more := last.(sent := last.sent + gets);
      assert last.sent + [] == last.sent;
      assert t.slots[i].casts == before + [more];
      SendsAlone(t, k, j + 1, before, more);
      SenderTrans(s, t, Repeat(t, e, n - j), k);
      JoinRegroups(last.sent, gets, Deliveries(Occupied(s.slots), j + 1, bytes));
    } else {
      assert last.sent + [] == last.sent;
    }
  }

  /** From where a send thread waits for the flag, with both mutexes free, a set flag leads to one round: its bytes are
      those in the buffer, and it reaches every occupied slot. Then both mutexes are free again, and the flag is
      not set. */
  lemma {:induction false} FlagIsServed(s: State, k: nat)
    requires Inv(s) && k < |s.senders| && s.senders[k].pc.Spin? && s.client == None && s.senders[k].slot < |s.slots|
    requires var slot := s.slots[s.senders[k].slot]; slot.sendbool && slot.lock == None && (slot.occupied || s.keepgoing)
    ensures var i, t := s.senders[k].slot, Repeat(s, SendStep(k, true), |s.slots| + 9);
            var bytes := Payload(s.slots[i]);
            && Inv(t) && OnlySender(s, t, k) && t.senders[k].pc.SLoop? && t.client == None
            && t.slots[i].casts == s.slots[i].casts + [Cast(bytes, Deliveries(Occupied(s.slots), 0, bytes))]
            && t.slots[i].lock == None && !t.slots[i].sendbool
  {
    hide Inv, Step, InRange, OnlySender, Repeat, Payload, Deliveries;
    var i, e, n := s.senders[k].slot, SendStep(k, true), |s.slots|;
    var bytes := Payload(s.slots[i]);
    var a := Repeat(s, e, 6);
    var b := Repeat(a, e, n + 1);
    ToSend(s, k);
    SenderSame(s, a, k);
    SendsAlone(a, k, 0, s.slots[i].casts, Cast(bytes, []));
    SenderSame(a, b, k);
    FromSend(b, k);
    RepeatSum(s, e, 6, n + 1);
    RepeatSum(s, e, n + 7, 2);
    SenderTrans(s, a, b, k);
    SenderTrans(s, b, Repeat(b, e, 2), k);
    assert [] + Deliveries(Occupied(s.slots), 0, bytes) == Deliveries(Occupied(s.slots), 0, bytes);
  }

  /** One step of the send thread, as far as it does not look at the other slots. */
  lemma {:induction false} Sending(s: State, k: nat, n: nat)
    requires Inv(s) && k < |s.senders| && s.senders[k].slot < |s.slots| && !s.senders[k].pc.Send?
    ensures var i, t, r := s.senders[k].slot, Step(s, SendStep(k, true)), s.senders[k];
            && Inv(t) && OnlySender(s, t, k) && Repeat(s, SendStep(k, true), n + 1) == Repeat(t, SendStep(k, true), n)
            && Repeat(t, SendStep(k, true), 0) == t
            && t.senders[k] == Sender(i, SendPc(r.pc, s.slots[i], s.keepgoing, s.client == None, |s.slots|))
            && t.client == Called(s.client, SendClientCall(r.pc), SendThread(k))
            && t.slots[i] == SendData(r.pc, s.slots[i], s.client == None, |s.slots|, false)
                             .(lock := Called(s.slots[i].lock, SendBufCall(r.pc, s.slots[i].sendbool), SendThread(k)))
  {
    hide Inv, Step, InRange, Repeat, Payload;
    InvInRange(s);
    OneSend(s, k);
    RepeatOnce(s, SendStep(k, true), n);
  }

  lemma {:induction false} ToCheck(s: State, k: nat)
    requires Inv(s) && k < |s.senders| && s.senders[k].pc.Spin? && s.senders[k].slot < |s.slots|
    requires s.slots[s.senders[k].slot].sendbool && s.slots[s.senders[k].slot].lock == None
    ensures var i, t := s.senders[k].slot, Repeat(s, SendStep(k, true), 4);
            && Inv(t) && OnlySender(s, t, k) && t.senders[k].pc.Check? && t.client == s.client
            && t.slots[i] == s.slots[i].(lock := Some(SendThread(k)), sendbool := false)
  {
    hide Inv, Step, InRange, OnlySender, Repeat, Payload;
    var e := SendStep(k, true);
    InvInRange(s);
    var s1 := Step(s, e);
    Sending(s, k, 3);
    SenderSame(s, s1, k);
    InvInRange(s1);
    var s2 := Step(s1, e);
    Sending(s1, k, 2);
    SenderSame(s1, s2, k);
    SenderTrans(s, s1, s2, k);
    InvInRange(s2);
    var s3 := Step(s2, e);
    Sending(s2, k, 1);
    SenderSame(s2, s3, k);
    SenderTrans(s, s2, s3, k);
    InvInRange(s3);
    Sending(s3, k, 0);
    SenderTrans(s, s3, Step(s3, e), k);
  }

  lemma {:induction false} ToSend(s: State, k: nat)
    requires Inv(s) && k < |s.senders| && s.senders[k].pc.Spin? && s.client == None && s.senders[k].slot < |s.slots|
    requires var slot := s.slots[s.senders[k].slot]; slot.sendbool && slot.lock == None && (slot.occupied || s.keepgoing)
    ensures var i, t := s.senders[k].slot, Repeat(s, SendStep(k, true), 6);
            && Inv(t) && OnlySender(s, t, k) && t.senders[k].pc == Send(0)
            && t.client == Some(SendThread(k)) && t.slots[i].lock == Some(SendThread(k)) && !t.slots[i].sendbool
            && t.slots[i].casts == s.slots[i].casts + [Cast(Payload(s.slots[i]), [])]
  {
    hide Inv, Step, InRange, OnlySender, Repeat, Payload;
    var e := SendStep(k, true);
    var t := Repeat(s, e, 4);
    ToCheck(s, k);
    SenderSame(s, t, k);
    InvInRange(t);
    var u := Step(t, e);
    Sending(t, k, 1);
    SenderSame(t, u, k);
    SenderTrans(s, t, u, k);
    InvInRange(u);
    Sending(u, k, 0);
    SenderTrans(s, u, Step(u, e), k);
    RepeatSum(s, e, 4, 2);
  }

  lemma {:induction false} FromSend(s: State, k: nat)
    requires Inv(s) && k < |s.senders| && s.senders[k].pc.UnlockClient? && s.senders[k].slot < |s.slots|
    ensures var i, t := s.senders[k].slot, Repeat(s, SendStep(k, true), 2);
            && Inv(t) && OnlySender(s, t, k) && t.senders[k].pc.SLoop? && t.client == None
            && t.slots[i] == s.slots[i].(lock := None)
  {
    hide Inv, Step, InRange, OnlySender, Repeat, Payload;
    var e := SendStep(k, true);
    InvInRange(s);
    var t := Step(s, e);
    Sending(s, k, 1);
    SenderSame(s, t, k);
    InvInRange(t);
    Sending(t, k, 0);
    SenderTrans(s, t, Step(t, e), k);
  }

  /** When the server has been stopped and the client is gone, a woken send thread ends without a round. */
  lemma {:induction false} SenderEnds(s: State, k: nat)
    requires Inv(s) && k < |s.senders| && s.senders[k].pc.Spin? && s.senders[k].slot < |s.slots|
    requires var slot := s.slots[s.senders[k].slot]; slot.sendbool && slot.lock == None && !slot.occupied && !s.keepgoing
    ensures var i, t := s.senders[k].slot, Repeat(s, SendStep(k, true), 6);
            && Inv(t) && OnlySender(s, t, k) && t.senders[k].pc.SGone? && t.client == s.client
            && t.slots[i] == s.slots[i].(sendbool := false, lock := None)
  {
    hide Inv, Step, InRange, OnlySender, Repeat, Payload;
    var e := SendStep(k, true);
    var t := Repeat(s, e, 4);
    ToCheck(s, k);
    SenderSame(s, t, k);
    InvInRange(t);
    var u := Step(t, e);
    Sending(t, k, 1);
    SenderSame(t, u, k);
    SenderTrans(s, t, u, k);
    InvInRange(u);
    Sending(u, k, 0);
    SenderTrans(s, u, Step(u, e), k);
    RepeatSum(s, e, 4, 2);
  }

  // ---------- From client to clients ----------

  /** The whole way: a client sends a message while its two threads wait, and every connected client gets its image. */
  lemma {:induction false} MessageReachesAll(s: State, k: nat, j: nat, msg: string)
    requires Inv(s) && k < |s.receivers| && j < |s.senders| && s.receivers[k].slot == s.senders[j].slot < |s.slots|
    requires s.receivers[k].pc.Loop? && s.senders[j].pc.Spin? && s.keepgoing && s.client == None
    requires s.slots[s.senders[j].slot].lock == None && s.slots[s.senders[j].slot].occupied
    requires ChatInput(msg) && msg != ""
    ensures var i := s.senders[j].slot;
            var t := Repeat(Repeat(s, ReceiveStep(k, msg), 2 * |msg| + 7), SendStep(j, true), |s.slots| + 9);
            && Inv(t) && |t.slots| == |s.slots| && |t.receivers| == |s.receivers| && |t.senders| == |s.senders|
            && t.slots[i].msgs == s.slots[i].msgs + [msg]
            && t.slots[i].casts == s.slots[i].casts
                 + [Cast(UpperCase(msg), Deliveries(Occupied(s.slots), 0, UpperCase(msg)))]
            && t.client == None && t.slots[i].lock == None && t.receivers[k].pc.Loop? && t.senders[j].pc.SLoop?
  {
    hide Inv, Repeat, UpperCase, Deliveries, ChatInput;
    var i, t := s.senders[j].slot, Repeat(s, ReceiveStep(k, msg), 2 * |msg| + 7);
    MessageIsPublished(s, k, msg);
    assert Occupied(t.slots) == Occupied(s.slots);
    FlagIsServed(t, j);
  }

  /** A send thread goes on with another round exactly as long as the server runs and its client is there. */
  lemma {:induction false} SendLoopTest(s: State, k: nat)
    requires Inv(s) && k < |s.senders| && s.senders[k].pc.SLoop? && s.senders[k].slot < |s.slots|
    ensures var i, t := s.senders[k].slot, Repeat(s, SendStep(k, true), 1);
            && OnlySender(s, t, k) && t.slots == s.slots && t.client == s.client
            && t.senders[k].pc == if s.keepgoing && s.slots[i].occupied then Spin else SGone
  {
    hide Inv, Step, InRange, Repeat, Payload;
    InvInRange(s);
    Sending(s, k, 0);
  }

  // ---------- A client that connects ----------

  /** One step of the acceptor, as far as it only moves. */
  lemma {:induction false} OneAccept(s: State, n: nat)
    requires Inv(s)
    ensures var e, a := AcceptStep, s.acceptor;
            var b := Acceptors.Advance(a, Occupied(s.slots), s.client == None, s.keepgoing);
            var t := State(b, s.keepgoing, Called(s.client, AcceptCall(a), AcceptorThread),
                           if a.Assigning? then s.slots[a.slot := s.slots[a.slot].(occupied := true)] else s.slots,
                           if a.Creating? then s.receivers + [Receiver(a.slot, Loop, 0, 0, 0)] else s.receivers,
                           if a.CreatingSend? then s.senders + [Sender(a.slot, SLoop)] else s.senders);
            Step(s, e) == t && Inv(t) && Repeat(s, e, n + 1) == Repeat(t, e, n) && Repeat(t, e, 0) == t
  {
    StepKeepsInv(s, AcceptStep);
    hide Inv;
    InvInRange(s);
    RepeatOnce(s, AcceptStep, n);
  }

  /** `slot` is the first free one of a circular search from `start`, `d` slots on. */
  ghost predicate FirstFree(occupied: seq<bool>, start: nat, p: nat, d: nat) {
    && |occupied| > 0 && p <= d < |occupied| && !occupied[Acceptors.At(start, d, |occupied|)]
    && forall x: nat | p <= x < d :: occupied[Acceptors.At(start, x, |occupied|)]
  }

  lemma {:induction false} ScanAlone(s: State, start: nat, p: nat, d: nat)
    requires Inv(s) && s.acceptor == Acceptors.Scanning(start, p) && s.slots != []
    requires FirstFree(Occupied(s.slots), start, p, d)
    ensures var t := s.(acceptor := Acceptors.Leaving(Acceptors.At(start, d, |s.slots|)));
            Inv(t) && Repeat(s, AcceptStep, d - p + 1) == t
    decreases d - p
  {
    hide Inv, Repeat, Occupied;
    InvInRange(s);
    OneAccept(s, d - p);
    hide Step, InRange;
    if p < d { ScanAlone(s.(acceptor := Acceptors.Scanning(start, p + 1)), start, p + 1, d); }
  }

  /** While no other thread steps, a connection gets the first free slot from the last one chosen on, and both threads
      of its own, at the heads of their loops. */
  lemma {:induction false} ConnectionIsServed(s: State, start: nat, d: nat)
    requires Inv(s) && s.acceptor == Acceptors.Accepting(start) && s.keepgoing && s.client == None && s.slots != []
    requires FirstFree(Occupied(s.slots), start, 0, d)
    ensures var i := Acceptors.At(start, d, |s.slots|);
            Repeat(s, AcceptStep, d + 8) == State(Acceptors.Accepting(i), true, None,
              s.slots[i := s.slots[i].(occupied := true)],
              s.receivers + [Receiver(i, Loop, 0, 0, 0)], s.senders + [Sender(i, SLoop)])
  {
    hide Inv, Repeat, Occupied, FirstFree;
    var i, e := Acceptors.At(start, d, |s.slots|), AcceptStep;
    InvInRange(s);
    assert !Occupied(s.slots)[i] by { IsFree(Occupied(s.slots), start, d); }
    var b := s.(acceptor := Acceptors.Scanning(start, 0), client := Some(AcceptorThread));
    var c := b.(acceptor := Acceptors.Leaving(i));
    ToScan(s, start);
    ScanAlone(b, start, 0, d);
    FromScan(c, i);
    RepeatSum(s, e, 2, d + 1);
    RepeatSum(s, e, d + 3, 5);
  }

  lemma {:induction false} IsFree(occupied: seq<bool>, start: nat, d: nat)
    requires FirstFree(occupied, start, 0, d)
    ensures !occupied[Acceptors.At(start, d, |occupied|)]
  {
  }

  lemma {:induction false} ToScan(s: State, start: nat)
    requires Inv(s) && s.acceptor == Acceptors.Accepting(start) && s.keepgoing && s.client == None && s.slots != []
    ensures var t := s.(acceptor := Acceptors.Scanning(start, 0), client := Some(AcceptorThread));
            Inv(t) && Repeat(s, AcceptStep, 2) == t
  {
    hide Inv, Repeat, Occupied;
    InvInRange(s);
    var t := s.(acceptor := Acceptors.WantScan(start));
    OneAccept(s, 1);
    InvInRange(t);
    OneAccept(t, 0);
  }

  lemma {:induction false} FromScan(s: State, i: nat)
    requires Inv(s) && s.acceptor == Acceptors.Leaving(i) && i < |s.slots| && !s.slots[i].occupied
    ensures Repeat(s, AcceptStep, 5) == State(Acceptors.Accepting(i), s.keepgoing, None,
              s.slots[i := s.slots[i].(occupied := true)],
              s.receivers + [Receiver(i, Loop, 0, 0, 0)], s.senders + [Sender(i, SLoop)])
  {
    hide Inv, Repeat;
    InvInRange(s);
    var t := s.(acceptor := Acceptors.Found(i), client := None);
    OneAccept(s, 4);
    InvInRange(t);
    var u := t.(acceptor := Acceptors.Assigning(i), client := Some(AcceptorThread));
    OneAccept(t, 3);
    InvInRange(u);
    var v := u.(acceptor := Acceptors.Creating(i), client := None, slots := s.slots[i := s.slots[i].(occupied := true)]);
    OneAccept(u, 2);
    InvInRange(v);
    var w := v.(acceptor := Acceptors.CreatingSend(i), receivers := s.receivers + [Receiver(i, Loop, 0, 0, 0)]);
    OneAccept(v, 1);
    InvInRange(w);
    OneAccept(w, 0);
  }
}
