/** What the clients of the chat server can receive: in every interleaving the rounds of the send loop of a slot
    carry, in order and each at most once, the uppercase images of messages read on that slot. */
module ChatTrace {
  import opened CStrings
  import opened Chat
  import opened ChatSafety

  // ---------- Subsequences ----------

  /** `xs` is `ys` with elements left out. */
  predicate Sub(xs: seq<string>, ys: seq<string>)
    decreases |ys|
  {
    if ys == [] then xs == []
    else Sub(xs, Front(ys)) || (xs != [] && Last(xs) == Last(ys) && Sub(Front(xs), Front(ys)))
  }

  function Last(s: seq<string>): string requires s != [] { s[|s| - 1] }

  function Front(s: seq<string>): seq<string> requires s != [] { s[..|s| - 1] }

  ghost predicate Picks(xs: seq<string>, ys: seq<string>, at: seq<nat>) {
    && |at| == |xs|
    && (forall i | 0 <= i < |at| :: at[i] < |ys| && xs[i] == ys[at[i]])
    && (forall i, j | 0 <= i < j < |at| :: at[i] < at[j])
  }

  /** The positions the elements come from, strictly increasing. */
  lemma {:induction false} SubPicks(xs: seq<string>, ys: seq<string>)
    requires Sub(xs, ys)
    ensures exists at: seq<nat> :: Picks(xs, ys, at)
    decreases |ys|
  {
    if ys == [] {
      assert Picks(xs, ys, []);
    } else if Sub(xs, Front(ys)) {
      SubPicks(xs, Front(ys));
      var at: seq<nat> :| Picks(xs, Front(ys), at);
      assert Picks(xs, ys, at);
    } else {
      SubPicks(Front(xs), Front(ys));
      var at: seq<nat> :| Picks(Front(xs), Front(ys), at);
      assert Picks(xs, ys, at + [|ys| - 1]);
    }
  }

  lemma {:induction false} SubMore(xs: seq<string>, ys: seq<string>, y: string)
    requires Sub(xs, ys)
    ensures Sub(xs, ys + [y]) && Sub(xs + [y], ys + [y])
  {
    assert Front(ys + [y]) == ys && Front(xs + [y]) == xs;
  }

  // ---------- Histories ----------

  function Images(msgs: seq<string>): (r: seq<string>)
    ensures |r| == |msgs|
  {
    seq(|msgs|, i requires 0 <= i < |msgs| => UpperCase(msgs[i]))
  }

  /** The nonempty rounds, in order. */
  function Payloads(casts: seq<Cast>): seq<string> {
    if casts == [] then []
    else Payloads(casts[..|casts| - 1])
         + if casts[|casts| - 1].payload == "" then [] else [casts[|casts| - 1].payload]
  }

  /** A round sends the same bytes to every client it reaches, and to each at most once. */
  ghost predicate Uniform(c: Cast) {
    && (forall i | 0 <= i < |c.sent| :: c.sent[i].bytes == c.payload)
    && (forall i, j | 0 <= i < j < |c.sent| :: c.sent[i].target < c.sent[j].target)
  }

  // ---------- What holds of a slot, depending on where the owner of its mutex stands ----------

  datatype Phase = Idle | Receiving(rpc: RPc) | Sending(spc: SPc)

  ghost predicate Past(slot: Slot) { Sub(Payloads(slot.casts), Images(slot.msgs)) }

  /** The buffer holds the image of the last message, which no round has taken yet, or it is empty. */
  ghost predicate Fresh(slot: Slot) {
    && slot.received <= |slot.buf|
    && (slot.received == 0
        || (slot.msgs != [] && slot.buf[..slot.received] == UpperCase(slot.msgs[|slot.msgs| - 1])
            && Sub(Payloads(slot.casts), Images(slot.msgs[..|slot.msgs| - 1]))))
  }

  ghost predicate Quiet(slot: Slot) { Past(slot) && (slot.sendbool ==> Fresh(slot)) }

  /** The first `k` bytes of the last message are converted, the others still as they were read. */
  ghost predicate Converting(slot: Slot, k: nat) {
    && slot.msgs != [] && k <= slot.received <= |slot.buf|
    && var msg := slot.msgs[|slot.msgs| - 1];
      && |msg| == slot.received && slot.received > 0
      && (forall i | 0 <= i < k :: slot.buf[i] == ToUpper(msg[i]))
      && (forall i | k <= i < slot.received :: slot.buf[i] == msg[i])
      && Sub(Payloads(slot.casts), Images(slot.msgs[..|slot.msgs| - 1]))
  }

  ghost predicate Rounds(slot: Slot) { forall c | c in slot.casts :: Uniform(c) }

  /** A round is under way and has come to client `j`. */
  ghost predicate InRound(slot: Slot, j: nat) {
    && slot.casts != [] && slot.casts[|slot.casts| - 1].payload == Payload(slot)
    && forall d | d in slot.casts[|slot.casts| - 1].sent :: d.target < j
  }

  ghost predicate Trace(slot: Slot, phase: Phase) {
    && Rounds(slot)
    && match phase
       case Idle => Quiet(slot)
       case Receiving(pc) =>
         (match pc
          case Read => Past(slot)
          case Fill(msg, k) => Past(slot) && 0 < |msg| < |slot.buf| && k <= |msg| && slot.buf[..k] == msg[..k]
          case Upper(k) => Converting(slot, k)
          case Publish => slot.received > 0 && Fresh(slot) && Past(slot)
          case Hangup => slot.received == 0 && Past(slot)
          case Unlock => slot.received > 0 && Quiet(slot) && slot.sendbool
          case UnlockQuit => slot.received == 0 && Quiet(slot) && slot.sendbool
          case _ => Quiet(slot))
       case Sending(pc) =>
         (match pc
          case Take => Quiet(slot) && slot.sendbool
          case Check => !slot.sendbool && Fresh(slot) && Past(slot)
          case SWantClient => !slot.sendbool && Fresh(slot) && Past(slot)
          case Send(j) => !slot.sendbool && Past(slot) && InRound(slot, j)
          case _ => Quiet(slot))
  }

  ghost function PhaseOf(s: State, i: nat): Phase
    requires i < |s.slots|
  {
    match s.slots[i].lock
    case Some(ReceiveThread(k)) => if k < |s.receivers| then Receiving(s.receivers[k].pc) else Idle
    case Some(SendThread(k)) => if k < |s.senders| then Sending(s.senders[k].pc) else Idle
    case _ => Idle
  }

  ghost predicate Traces(s: State) {
    forall i: nat | i < |s.slots| :: Trace(s.slots[i], PhaseOf(s, i))
  }

  // ---------- One thread on its slot ----------

  ghost function RPhase(pc: RPc): Phase { if pc.HoldsBuf() then Receiving(pc) else Idle }

  ghost function SPhase(pc: SPc): Phase { if pc.HoldsBuf() then Sending(pc) else Idle }

  lemma {:induction false} FillKeeps(slot: Slot, msg: string, k: nat)
    requires |slot.buf| == MESSAGE_LEN && Trace(slot, Receiving(Fill(msg, k)))
    ensures Trace(ReceiveData(Fill(msg, k), slot, ""), Receiving(if k < |msg| then Fill(msg, k + 1) else Upper(0)))
  {
    var after := ReceiveData(Fill(msg, k), slot, "");
    if k < |msg| {
      assert after.buf[..k + 1] == slot.buf[..k] + [msg[k]];
    } else {
      assert after.msgs[..|after.msgs| - 1] == slot.msgs;
      assert forall i | 0 <= i < |msg| :: after.buf[i] == slot.buf[..k][i];
    }
  }

  lemma {:induction false} UpperKeeps(slot: Slot, k: nat)
    requires |slot.buf| == MESSAGE_LEN && Trace(slot, Receiving(Upper(k)))
    ensures Trace(ReceiveData(Upper(k), slot, ""), Receiving(if k < slot.received then Upper(k + 1) else Publish))
  {
    if k == slot.received {
      var msg := slot.msgs[|slot.msgs| - 1];
      assert slot.buf[..slot.received] == UpperCase(msg);
      FreshIsPast(slot);
    }
  }

  /** A message that no round has taken leaves the rounds a subsequence. */
  lemma {:induction false} FreshIsPast(slot: Slot)
    requires slot.msgs != [] && Sub(Payloads(slot.casts), Images(slot.msgs[..|slot.msgs| - 1]))
    ensures Past(slot)
  {
    var front, last := slot.msgs[..|slot.msgs| - 1], slot.msgs[|slot.msgs| - 1];
    SubMore(Payloads(slot.casts), Images(front), UpperCase(last));
    assert Images(slot.msgs) == Images(front) + [UpperCase(last)];
  }

  lemma {:induction false} ReceiveKeepsTrace(pc: RPc, slot: Slot, keepgoing: bool, clientFree: bool, input: string)
    requires |slot.buf| == MESSAGE_LEN && slot.received < MESSAGE_LEN && pc.Fits()
    requires pc.HoldsBuf() || pc.WantBuf?
    requires Trace(slot, RPhase(pc))
    requires pc.WantBuf? ==> slot.lock == None
    ensures Trace(ReceiveData(pc, slot, input), RPhase(ReceivePc(pc, slot, keepgoing, clientFree, input)))
  {
    match pc
    case Fill(msg, k) => FillKeeps(slot, msg, k);
    case Upper(k) => UpperKeeps(slot, k);
    case Read => assert slot.buf[..0] == "" && input[..0] == "";
    case _ =>
  }

  lemma {:induction false} RoundStarts(slot: Slot)
    requires slot.received <= |slot.buf| && Trace(slot, Sending(SWantClient))
    ensures Trace(slot.(casts := slot.casts + [Cast(Payload(slot), [])]), Sending(Send(0)))
  {
    var after := slot.(casts := slot.casts + [Cast(Payload(slot), [])]);
    assert after.casts[..|after.casts| - 1] == slot.casts;
    if slot.received > 0 {
      var front, last := slot.msgs[..|slot.msgs| - 1], slot.msgs[|slot.msgs| - 1];
      SubMore(Payloads(slot.casts), Images(front), UpperCase(last));
      assert Images(slot.msgs) == Images(front) + [UpperCase(last)];
    } else {
      assert Payload(slot) == "";
      assert Payloads(after.casts) == Payloads(slot.casts) + [] == Payloads(slot.casts);
    }
  }

  lemma {:induction false} RoundGoesOn(slot: Slot, j: nat)
    requires Trace(slot, Sending(Send(j)))
    ensures var last := slot.casts[|slot.casts| - 1];
            var after := slot.(casts := slot.casts[..|slot.casts| - 1]
                                        + [last.(sent := last.sent + [Delivery(j, Payload(slot))])]);
            Trace(after, Sending(Send(j + 1)))
  {
    var front, last := slot.casts[..|slot.casts| - 1], slot.casts[|slot.casts| - 1];
    var longer := last.(sent := last.sent + [Delivery(j, Payload(slot))]);
    assert Uniform(last) && Uniform(longer);
    assert (front + [longer])[..|front + [longer]| - 1] == front;
    assert forall c | c in front :: c in slot.casts;
  }

  lemma {:induction false} SendKeepsTrace(pc: SPc, slot: Slot, keepgoing: bool, clientFree: bool, n: nat, reaches: bool)
    requires |slot.buf| == MESSAGE_LEN && slot.received < MESSAGE_LEN
    requires pc.HoldsBuf() || ((pc.SWantBuf? || pc.Waiting?) && slot.lock == None)
    requires Trace(slot, SPhase(pc))
    ensures Trace(SendData(pc, slot, clientFree, n, reaches), SPhase(SendPc(pc, slot, keepgoing, clientFree, n)))
  {
    match pc
    case SWantClient => if clientFree { RoundStarts(slot); }
    case Send(j) => if j < n && reaches { RoundGoesOn(slot, j); }
    case _ =>
  }

  /** Neither the flag of the acceptor nor the mutex itself matters to the histories. */
  lemma {:induction false} TraceIgnores(slot: Slot, phase: Phase, occupied: bool, lock: Option<Tid>)
    requires Trace(slot, phase)
    ensures Trace(slot.(occupied := occupied, lock := lock), phase)
  {
    var after := slot.(occupied := occupied, lock := lock);
    assert Payload(after) == Payload(slot);
    hide Sub, Payloads, Images, Uniform;
  }

  // ---------- Every step of the server ----------

  /** The phase of a thread's own slot, when the thread holds or can take the mutex. */
  lemma {:induction false} OwnPhase(s: State, t: Tid, i: nat)
    requires Inv(s) && i < |s.slots| && HoldsBuf(s, t, i)
    ensures PhaseOf(s, i) == match t
                             case ReceiveThread(k) => Receiving(s.receivers[k].pc)
                             case SendThread(k) => Sending(s.senders[k].pc)
                             case AcceptorThread => Idle
  {
    hide InRange, ClientLock, Balanced, SlotUse, Choices;
    assert s.slots[i].lock == Some(t);
  }

  lemma {:induction false} ReceiverKeepsTraces(s: State, k: nat, input: string)
    requires Inv(s) && Traces(s) && k < |s.receivers|
    ensures Traces(StepReceiver(s, k, input))
  {
    var r, t := s.receivers[k], StepReceiver(s, k, input);
    var me, slot := ReceiveThread(k), s.slots[r.slot];
    var next := ReceivePc(r.pc, slot, s.keepgoing, s.client == None, input);
    StepKeepsInv(s, ReceiveStep(k, input));
    ReceiveMoves(r.pc, slot, s.keepgoing, s.client == None, input);
    hide Trace, ReceivePc, ReceiveData, ClientLock, Balanced, SlotUse, Choices, ChatInput;
    forall i: nat | i < |t.slots|
      ensures Trace(t.slots[i], PhaseOf(t, i))
    {
      assert Trace(s.slots[i], PhaseOf(s, i));
      if i != r.slot {
        OtherSlot(s, t, i, me);
      } else {
        OwnSlotReceiving(s, k, input);
      }
    }
  }

  /** A slot the stepping thread does not belong to. */
  lemma {:induction false} OtherSlot(s: State, t: State, i: nat, me: Tid)
    requires Inv(s) && i < |s.slots| == |t.slots| && t.slots[i] == s.slots[i]
    requires !HoldsBuf(s, me, i)
    requires forall k: nat | k < |s.receivers| && ReceiveThread(k) != me ::
               k < |t.receivers| && t.receivers[k] == s.receivers[k]
    requires forall k: nat | k < |s.senders| && SendThread(k) != me :: k < |t.senders| && t.senders[k] == s.senders[k]
    ensures PhaseOf(t, i) == PhaseOf(s, i)
  {
    hide InRange, ClientLock, Balanced, SlotUse, Choices;
    assert s.slots[i].lock != Some(me);
    if s.slots[i].lock.Some? { assert HoldsBuf(s, s.slots[i].lock.value, i); }
  }

  lemma {:induction false} OwnSlotReceiving(s: State, k: nat, input: string)
    requires Inv(s) && Traces(s) && k < |s.receivers|
    ensures var i, t := s.receivers[k].slot, StepReceiver(s, k, input); Trace(t.slots[i], PhaseOf(t, i))
  {
    var r, t := s.receivers[k], StepReceiver(s, k, input);
    var i, me, slot := r.slot, ReceiveThread(k), s.slots[r.slot];
    var next := ReceivePc(r.pc, slot, s.keepgoing, s.client == None, input);
    var data := ReceiveData(r.pc, slot, input);
    StepKeepsInv(s, ReceiveStep(k, input));
    ReceiveMoves(r.pc, slot, s.keepgoing, s.client == None, input);
    assert Trace(slot, PhaseOf(s, i));
    assert HoldsBuf(s, me, i) == r.pc.HoldsBuf();
    if r.pc.HoldsBuf() || next.HoldsBuf() {
      if r.pc.HoldsBuf() { OwnPhase(s, me, i); }
      ReceiveKeepsTrace(r.pc, slot, s.keepgoing, s.client == None, input);
      hide Trace, ReceivePc, ReceiveData;
      assert PhaseOf(t, i) == RPhase(next);
      TraceIgnores(data, RPhase(next), data.occupied, t.slots[i].lock);
    } else {
      assert data == slot.(occupied := data.occupied);
      TraceIgnores(slot, PhaseOf(s, i), data.occupied, slot.lock);
      hide Trace, ReceivePc, ReceiveData;
      assert PhaseOf(t, i) == PhaseOf(s, i);
    }
  }

  lemma {:induction false} SenderKeepsTraces(s: State, k: nat, ok: bool)
    requires Inv(s) && Traces(s) && k < |s.senders|
    ensures Traces(StepSender(s, k, ok))
  {
    var r, t := s.senders[k], StepSender(s, k, ok);
    hide Trace, SendPc, SendData, ClientLock, Balanced, SlotUse, Choices;
    forall i: nat | i < |t.slots|
      ensures Trace(t.slots[i], PhaseOf(t, i))
    {
      assert Trace(s.slots[i], PhaseOf(s, i));
      if i != r.slot {
        OtherSlot(s, t, i, SendThread(k));
      } else {
        OwnSlotSending(s, k, ok);
      }
    }
  }

  lemma {:induction false} OwnSlotSending(s: State, k: nat, ok: bool)
    requires Inv(s) && Traces(s) && k < |s.senders|
    ensures var i, t := s.senders[k].slot, StepSender(s, k, ok); Trace(t.slots[i], PhaseOf(t, i))
  {
    hide Trace, SendPc, SendData, SendBufCall, SendClientCall, ClientLock, Balanced, SlotUse, Choices;
    var r, t, n := s.senders[k], StepSender(s, k, ok), |s.slots|;
    var i, me, slot := r.slot, SendThread(k), s.slots[r.slot];
    var reaches := ok && r.pc.Send? && r.pc.j < n && s.slots[r.pc.j].occupied;
    var next := SendPc(r.pc, slot, s.keepgoing, s.client == None, n);
    var data := SendData(r.pc, slot, s.client == None, n, reaches);
    SendMoves(r.pc, slot, s.keepgoing, s.client == None, n, reaches);
    assert Trace(slot, PhaseOf(s, i));
    assert HoldsBuf(s, me, i) == r.pc.HoldsBuf();
    if r.pc.HoldsBuf() { OwnPhase(s, me, i); }
    if r.pc.HoldsBuf() || next.HoldsBuf() {
      SendKeepsTrace(r.pc, slot, s.keepgoing, s.client == None, n, reaches);
      assert PhaseOf(t, i) == SPhase(next);
      TraceIgnores(data, SPhase(next), data.occupied, t.slots[i].lock);
    } else {
      SendOutside(r.pc, slot, s.client == None, n, reaches);
      assert PhaseOf(t, i) == PhaseOf(s, i);
    }
  }

  /** Without the mutex a send thread leaves its slot alone. */
  lemma {:induction false} SendOutside(pc: SPc, slot: Slot, clientFree: bool, n: nat, reaches: bool)
    requires !pc.HoldsBuf()
    ensures SendData(pc, slot, clientFree, n, reaches) == slot && SendBufCall(pc, slot.sendbool) != UnlockCall
  {
  }

  lemma {:induction false} AcceptorKeepsTraces(s: State)
    requires Inv(s) && Traces(s)
    ensures Traces(StepAcceptor(s))
  {
    var t := StepAcceptor(s);
    hide Trace, ClientLock, Balanced, SlotUse, Choices;
    forall i: nat | i < |t.slots|
      ensures Trace(t.slots[i], PhaseOf(t, i))
    {
      var slot := s.slots[i];
      assert Trace(slot, PhaseOf(s, i));
      assert t.slots[i] == slot.(occupied := t.slots[i].occupied, lock := slot.lock);
      if slot.lock.Some? { assert HoldsBuf(s, slot.lock.value, i); }
      assert PhaseOf(t, i) == PhaseOf(s, i);
      TraceIgnores(slot, PhaseOf(s, i), t.slots[i].occupied, slot.lock);
    }
  }

  lemma {:induction false} ReachableTraces(s: State, n: nat, events: seq<Event>)
    requires n > 0 && Reachable(s, n, events)
    ensures Traces(s)
    decreases |events|
  {
    hide Inv, StepReceiver, StepSender, StepAcceptor, Init;
    if events == [] {
      InitTraces(n);
    } else {
      var front, last := events[..|events| - 1], events[|events| - 1];
      var r :| Reachable(r, n, front) && InRange(r) && s == Step(r, last);
      ReachableInv(r, n, front);
      ReachableTraces(r, n, front);
      match last
      case AcceptStep => AcceptorKeepsTraces(r);
      case ReceiveStep(k, input) => if k < |r.receivers| { ReceiverKeepsTraces(r, k, input); }
      case SendStep(k, ok) => if k < |r.senders| { SenderKeepsTraces(r, k, ok); }
    }
  }

  lemma {:induction false} InitTraces(n: nat)
    ensures Traces(Init(n))
  {
    assert Trace(FREE_SLOT, Idle);
  }

  lemma {:induction false} TraceIsPast(slot: Slot, phase: Phase)
    requires Trace(slot, phase)
    ensures Past(slot) && Rounds(slot)
  {
    if phase.Receiving? && phase.rpc.Upper? { FreshIsPast(slot); }
  }

  // ---------- What is broadcast, and what a client hears ----------

  /** The nonempty messages a client got in one round, and in all of them. */
  function InOneRound(sent: seq<Delivery>, j: nat): seq<string> {
    if sent == [] then []
    else InOneRound(sent[..|sent| - 1], j)
         + if sent[|sent| - 1].target == j && sent[|sent| - 1].bytes != "" then [sent[|sent| - 1].bytes] else []
  }

  function Heard(casts: seq<Cast>, j: nat): seq<string> {
    if casts == [] then [] else Heard(casts[..|casts| - 1], j) + InOneRound(casts[|casts| - 1].sent, j)
  }

  lemma {:induction false} NotYet(sent: seq<Delivery>, j: nat)
    requires forall i | 0 <= i < |sent| :: sent[i].target < j
    ensures InOneRound(sent, j) == []
  {
    if sent != [] { NotYet(sent[..|sent| - 1], j); }
  }

  /** A client hears a round at most once, and then hears its payload. */
  lemma {:induction false} OncePerRound(c: Cast, j: nat)
    requires Uniform(c)
    ensures InOneRound(c.sent, j) == [] || (c.payload != "" && InOneRound(c.sent, j) == [c.payload])
    decreases |c.sent|
  {
    if c.sent != [] {
      var front, last := c.sent[..|c.sent| - 1], c.sent[|c.sent| - 1];
      if last.target == j && last.bytes != "" {
        NotYet(front, j);
      } else {
        OncePerRound(c.(sent := front), j);
      }
    }
  }

  lemma {:induction false} SubTrans(xs: seq<string>, ys: seq<string>, zs: seq<string>)
    requires Sub(xs, ys) && Sub(ys, zs)
    ensures Sub(xs, zs)
    decreases |zs|, |ys|
  {
    if zs != [] && ys != [] {
      if Sub(ys, Front(zs)) {
        SubTrans(xs, ys, Front(zs));
      } else if Sub(xs, Front(ys)) {
        SubTrans(xs, Front(ys), Front(zs));
      } else {
        SubTrans(Front(xs), Front(ys), Front(zs));
      }
    }
  }

  lemma {:induction false} HeardIsSub(casts: seq<Cast>, j: nat)
    requires forall c | c in casts :: Uniform(c)
    ensures Sub(Heard(casts, j), Payloads(casts))
  {
    if casts != [] {
      var front, last := casts[..|casts| - 1], casts[|casts| - 1];
      HeardIsSub(front, j);
      OncePerRound(last, j);
      if last.payload != "" { SubMore(Heard(front, j), Payloads(front), last.payload); }
      assert Heard(front, j) + [] == Heard(front, j) && Payloads(front) + [] == Payloads(front);
    }
  }

  /** In every interleaving the nonempty rounds of a slot are, in order and each at most once, uppercase images of
      messages read on it, and no round sends anything else than the whole of one image. */
  lemma {:induction false} BroadcastsAreImages(s: State, n: nat, events: seq<Event>, i: nat)
    requires n > 0 && Reachable(s, n, events) && i < |s.slots|
    ensures exists at: seq<nat> :: Picks(Payloads(s.slots[i].casts), Images(s.slots[i].msgs), at)
    ensures forall c | c in s.slots[i].casts :: Uniform(c)
  {
    ReachableTraces(s, n, events);
    TraceIsPast(s.slots[i], PhaseOf(s, i));
    SubPicks(Payloads(s.slots[i].casts), Images(s.slots[i].msgs));
  }

  /** So every client hears, from every slot, an in-order selection of the uppercase images of its messages. */
  lemma {:induction false} ClientsHearImages(s: State, n: nat, events: seq<Event>, i: nat, j: nat)
    requires n > 0 && Reachable(s, n, events) && i < |s.slots|
    ensures exists at: seq<nat> :: Picks(Heard(s.slots[i].casts, j), Images(s.slots[i].msgs), at)
  {
    var slot := s.slots[i];
    ReachableTraces(s, n, events);
    TraceIsPast(slot, PhaseOf(s, i));
    HeardIsSub(slot.casts, j);
    SubTrans(Heard(slot.casts, j), Payloads(slot.casts), Images(slot.msgs));
    SubPicks(Heard(slot.casts, j), Images(slot.msgs));
  }
}
