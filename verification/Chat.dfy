/** The chat path of the chat server as interleaved steps: one acceptor, and a receive thread and a send thread
    per connection, which share the slot of the connection. A thread that is cancelled takes no more steps. */
module Chat {
  import opened CStrings
  import opened Acceptors

  const MESSAGE_LEN: nat := 1024

  datatype Tid = AcceptorThread | ReceiveThread(k: nat) | SendThread(k: nat)

  /** One round of the send loop: the bytes it found in the buffer, and what it sent to whom. */
  datatype Cast = Cast(payload: string, sent: seq<Delivery>)

  datatype Delivery = Delivery(target: nat, bytes: string)

  /** The globals of a slot, its mutex, and two histories: the messages read and the rounds of the send loop. */
  datatype Slot = Slot(occupied: bool, buf: string, received: nat, sendbool: bool, lock: Option<Tid>,
                       msgs: seq<string>, casts: seq<Cast>)

  const FREE_SLOT := Slot(false, seq(MESSAGE_LEN, _ => NUL), 0, false, None, [], [])

  /** Where a receive thread stands. `Fill` copies a message into the buffer byte by byte, `Upper` converts it. */
  datatype RPc = Loop | WantBuf | Read | Fill(msg: string, k: nat) | Upper(k: nat) | Publish | Unlock
               | Hangup | UnlockQuit | WantClient | Closing | Closed | Gone
  {
    predicate HoldsBuf() { Read? || Fill? || Upper? || Publish? || Unlock? || Hangup? || UnlockQuit? }
    predicate HoldsClient() { Closing? || Closed? }
    predicate Fits() { Fill? ==> |msg| < MESSAGE_LEN }
    /** From its creation until it has cleared `freeclients`. */
    predicate Active() { !Closed? && !Gone? }
  }

  /** Where a send thread stands. */
  datatype SPc = SLoop | Spin | SWantBuf | Test | Waiting | Take | Check | SWantClient | Send(j: nat)
               | UnlockClient | UnlockBuf | UnlockBreak | SGone
  {
    predicate HoldsBuf() {
      Test? || Take? || Check? || SWantClient? || Send? || UnlockClient? || UnlockBuf? || UnlockBreak?
    }
    predicate HoldsClient() { Send? || UnlockClient? }
  }

  /** `rounds` counts loop iterations, `locks` and `unlocks` the completed calls on `buf_lock` of the slot. */
  datatype Receiver = Receiver(slot: nat, pc: RPc, rounds: nat, locks: nat, unlocks: nat)

  datatype Sender = Sender(slot: nat, pc: SPc)

  datatype State = State(acceptor: Acceptor, keepgoing: bool, client: Option<Tid>, slots: seq<Slot>,
                         receivers: seq<Receiver>, senders: seq<Sender>)

  datatype Event =
    | AcceptStep
    | ReceiveStep(k: nat, input: string)  // `input`: what a read delivers; empty for an orderly disconnect
    | SendStep(k: nat, ok: bool)          // `ok`: whether a send reaches its client

  // ---------- Steps ----------

  function ToUpper(c: char): char { if 'a' <= c <= 'z' then (c as int - 32) as char else c }

  function UpperCase(s: string): string { seq(|s|, i requires 0 <= i < |s| => ToUpper(s[i])) }

  /** A read on the chat path: it fits, and is not one of the two transfer commands. */
  predicate ChatInput(msg: string) {
    |msg| < MESSAGE_LEN && !("uTake " <= msg) && !("iWant " <= msg)
  }

  function ReceivePc(pc: RPc, slot: Slot, keepgoing: bool, clientFree: bool, input: string): RPc {
    match pc
    case Loop => if keepgoing then WantBuf else WantClient
    case WantBuf => if slot.lock == None then Read else pc
    case Read => if !ChatInput(input) then pc else if input == "" then Hangup else Fill(input, 0)
    case Fill(msg, k) => if k < |msg| then Fill(msg, k + 1) else Upper(0)
    case Upper(k) => if k < slot.received then Upper(k + 1) else Publish
    case Publish => Unlock
    case Unlock => Loop
    case Hangup => UnlockQuit
    case UnlockQuit => WantClient
    case WantClient => if clientFree then Closing else pc
    case Closing => Closed
    case Closed => Gone
    case Gone => Gone
  }

  function ReceiveData(pc: RPc, slot: Slot, input: string): Slot {
    match pc
    case Read => if input == "" then slot.(received := 0) else slot
    case Fill(msg, k) =>
      if k < |msg| then (if k < |slot.buf| then slot.(buf := slot.buf[k := msg[k]]) else slot)
      else slot.(received := |msg|, msgs := slot.msgs + [msg],
                 buf := if |msg| < |slot.buf| then slot.buf[|msg| := NUL] else slot.buf)
    case Upper(k) =>
      if k < slot.received && k < |slot.buf| then slot.(buf := slot.buf[k := ToUpper(slot.buf[k])]) else slot
    case Publish => slot.(sendbool := true)
    case Hangup => slot.(sendbool := true)
    case Closing => slot.(occupied := false)
    case _ => slot
  }

  function SendPc(pc: SPc, slot: Slot, keepgoing: bool, clientFree: bool, n: nat): SPc {
    match pc
    case SLoop => if keepgoing && slot.occupied then Spin else SGone
    case Spin => if slot.sendbool then SWantBuf else pc
    case SWantBuf => if slot.lock == None then Test else pc
    case Test => if slot.sendbool then Take else Waiting
    case Waiting => if slot.lock == None then Test else pc
    case Take => Check
    case Check => if slot.occupied || keepgoing then SWantClient else UnlockBreak
    case SWantClient => if clientFree then Send(0) else pc
    case Send(j) => if j < n then Send(j + 1) else UnlockClient
    case UnlockClient => UnlockBuf
    case UnlockBuf => SLoop
    case UnlockBreak => SGone
    case SGone => SGone
  }

  /** `reaches`: the client in slot j is there and the send to it does not fail. */
  function SendData(pc: SPc, slot: Slot, clientFree: bool, n: nat, reaches: bool): Slot {
    match pc
    case Take => slot.(sendbool := false)
    case SWantClient => if clientFree then slot.(casts := slot.casts + [Cast(Payload(slot), [])]) else slot
    case Send(j) =>
      if j < n && reaches && slot.casts != [] then
        var last := slot.casts[|slot.casts| - 1];
        slot.(casts := slot.casts[..|slot.casts| - 1] + [last.(sent := last.sent + [Delivery(j, Payload(slot))])])
      else slot
    case _ => slot
  }

  /** The bytes a send takes: `received` bytes of the buffer, as they are at that moment. */
  function Payload(slot: Slot): string {
    if slot.received <= |slot.buf| then slot.buf[..slot.received] else slot.buf
  }

  // ---------- Mutexes ----------

  /** What a statement does to a mutex. */
  datatype MutexCall = NoCall | LockCall | UnlockCall

  /** pthread_mutex_lock waits while somebody owns the mutex; pthread_mutex_unlock frees it, whoever calls. */
  function Called(lock: Option<Tid>, call: MutexCall, me: Tid): Option<Tid> {
    match call
    case NoCall => lock
    case LockCall => if lock == None then Some(me) else lock
    case UnlockCall => None
  }

  function ReceiveBufCall(pc: RPc): MutexCall {
    match pc
    case WantBuf => LockCall
    case Unlock | UnlockQuit => UnlockCall
    case _ => NoCall
  }

  function ReceiveClientCall(pc: RPc): MutexCall {
    match pc
    case WantClient => LockCall
    case Closed => UnlockCall
    case _ => NoCall
  }

  /** A condition wait gives the mutex back and takes it again. */
  function SendBufCall(pc: SPc, sendbool: bool): MutexCall {
    match pc
    case SWantBuf | Waiting => LockCall
    case Test => if sendbool then NoCall else UnlockCall
    case UnlockBuf | UnlockBreak => UnlockCall
    case _ => NoCall
  }

  function SendClientCall(pc: SPc): MutexCall {
    match pc
    case SWantClient => LockCall
    case UnlockClient => UnlockCall
    case _ => NoCall
  }

  function AcceptCall(a: Acceptor): MutexCall {
    match a
    case WantScan(_) | Found(_) => LockCall
    case Leaving(_) | Assigning(_) => UnlockCall
    case _ => NoCall
  }

  function Occupied(slots: seq<Slot>): (o: seq<bool>)
    ensures |o| == |slots| && forall i | 0 <= i < |o| :: o[i] == slots[i].occupied
  {
    seq(|slots|, i requires 0 <= i < |slots| => slots[i].occupied)
  }

  predicate InRange(s: State) {
    && |s.slots| > 0 && s.acceptor.InRange(|s.slots|)
    && (forall k | 0 <= k < |s.receivers| :: s.receivers[k].slot < |s.slots| && s.receivers[k].pc.Fits())
    && (forall k | 0 <= k < |s.senders| :: s.senders[k].slot < |s.slots|)
    && (forall i | 0 <= i < |s.slots| :: |s.slots[i].buf| == MESSAGE_LEN && s.slots[i].received < MESSAGE_LEN)
  }

  function StepAcceptor(s: State): State
    requires InRange(s)
  {
    var a := s.acceptor;
    var b := Advance(a, Occupied(s.slots), s.client == None, s.keepgoing);
    State(b, s.keepgoing, Called(s.client, AcceptCall(a), AcceptorThread),
          if a.Assigning? then s.slots[a.slot := s.slots[a.slot].(occupied := true)] else s.slots,
          if a.Creating? then s.receivers + [Receiver(a.slot, Loop, 0, 0, 0)] else s.receivers,
          if a.CreatingSend? then s.senders + [Sender(a.slot, SLoop)] else s.senders)
  }

  function StepReceiver(s: State, k: nat, input: string): State
    requires InRange(s) && k < |s.receivers|
  {
    var r := s.receivers[k];
    var me, slot, pc := ReceiveThread(k), s.slots[r.slot], r.pc;
    var next := ReceivePc(pc, slot, s.keepgoing, s.client == None, input);
    var call := ReceiveBufCall(pc);
    var after := ReceiveData(pc, slot, input).(lock := Called(slot.lock, call, me));
    s.(keepgoing := s.keepgoing && !(pc.Fill? && pc.k >= |pc.msg| && Str(pc.msg, 0) == ";;;"),
       client := Called(s.client, ReceiveClientCall(pc), me),
       slots := s.slots[r.slot := after],
       receivers := s.receivers[k := Receiver(r.slot, next,
         if pc.Loop? && s.keepgoing then r.rounds + 1 else r.rounds,
         if call.LockCall? && slot.lock == None then r.locks + 1 else r.locks,
         if call.UnlockCall? then r.unlocks + 1 else r.unlocks)])
  }

  function StepSender(s: State, k: nat, ok: bool): State
    requires InRange(s) && k < |s.senders|
  {
    var t := s.senders[k];
    var me, slot, pc, n := SendThread(k), s.slots[t.slot], t.pc, |s.slots|;
    var next := SendPc(pc, slot, s.keepgoing, s.client == None, n);
    var reaches := ok && pc.Send? && pc.j < n && s.slots[pc.j].occupied;
    var after := SendData(pc, slot, s.client == None, n, reaches)
                 .(lock := Called(slot.lock, SendBufCall(pc, slot.sendbool), me));
    s.(client := Called(s.client, SendClientCall(pc), me),
       slots := s.slots[t.slot := after], senders := s.senders[k := Sender(t.slot, next)])
  }

  /** A step of a thread that does not exist yet, or has to wait, changes nothing. */
  function Step(s: State, e: Event): State
    requires InRange(s)
  {
    match e
    case AcceptStep => StepAcceptor(s)
    case ReceiveStep(k, input) => if k < |s.receivers| then StepReceiver(s, k, input) else s
    case SendStep(k, ok) => if k < |s.senders| then StepSender(s, k, ok) else s
  }

  function Init(n: nat): State { State(Accepting(0), true, None, seq(n, _ => FREE_SLOT), [], []) }
}
