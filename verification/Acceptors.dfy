/** The accept loop of both servers: a circular scan for a free slot under `client_lock`, which is given back
    before the lock is taken again for the assignment. */
module Acceptors {

  /** Where the accept loop stands; `slot` is the program's `clientcount`. */
  datatype Acceptor =
    | Accepting(slot: nat)
    | WantScan(slot: nat)                // waits for client_lock
    | Scanning(start: nat, probes: nat)  // holds it; `probes` slots were found occupied
    | Leaving(slot: nat)                 // holds it; the scan loop is over
    | Found(slot: nat)                   // waits for it again
    | Assigning(slot: nat)               // holds it
    | Creating(slot: nat)                // the slot is marked; its receive thread does not exist yet
    | CreatingSend(slot: nat)
    | Stopped
  {
    predicate HoldsClient() { Scanning? || Leaving? || Assigning? }

    predicate WantsClient() { WantScan? || Found? }

    /** The slot about to be marked as occupied. */
    predicate Chose(i: nat) { (Found? || Assigning?) && slot == i }

    predicate InRange(n: nat) {
      match this
      case Scanning(start, probes) => start < n && probes < n
      case Stopped => true
      case _ => slot < n
    }
  }

  function At(start: nat, d: nat, n: nat): (i: nat)
    requires n > 0
    ensures i < n
  {
    (start + d) % n
  }

  /** One step. It stutters when it has to wait for the lock. */
  function Advance(a: Acceptor, occupied: seq<bool>, canLock: bool, keepgoing: bool): Acceptor
    requires |occupied| > 0 && a.InRange(|occupied|)
  {
    var n := |occupied|;
    match a
    case Accepting(c) => if keepgoing then WantScan(c) else Stopped
    case WantScan(c) => if canLock then Scanning(c, 0) else a
    case Scanning(start, p) =>
      if !occupied[At(start, p, n)] then Leaving(At(start, p, n))
      else if p + 1 == n then Leaving(start)
      else Scanning(start, p + 1)
    case Leaving(c) => if occupied[c] then Accepting(c) else Found(c)
    case Found(c) => if canLock then Assigning(c) else a
    case Assigning(c) => Creating(c)
    case Creating(c) => CreatingSend(c)
    case CreatingSend(c) => Accepting(c)
    case Stopped => a
  }

  /** Marking the chosen slot is the only effect on the slots. */
  function Marked(a: Acceptor, occupied: seq<bool>): seq<bool>
    requires a.InRange(|occupied|)
  {
    if a.Assigning? then occupied[a.slot := true] else occupied
  }

  ghost predicate AllOccupied(occupied: seq<bool>) { forall i | 0 <= i < |occupied| :: occupied[i] }

  /** A full turn probes every slot. */
  lemma {:induction false} FullTurn(start: nat, n: nat, i: nat)
    requires start < n && i < n
    ensures exists d: nat :: d < n && At(start, d, n) == i
  {
    var d := if i >= start then i - start else i + n - start;
    AtIs(start, d, n);
  }

  // ---------- Slots that only the acceptor occupies ----------

  /** What holds while nobody else marks a slot; others may free slots, with or without the lock. */
  ghost predicate ChoiceIsFree(a: Acceptor, occupied: seq<bool>) {
    forall i | 0 <= i < |occupied| :: a.Chose(i) ==> !occupied[i]
  }

  /** What holds as well when slots are freed only under client_lock: the slots the scan has passed stay occupied. */
  ghost predicate ScanIsExact(a: Acceptor, occupied: seq<bool>) {
    var n := |occupied|;
    && n > 0
    && (a.Scanning? ==> forall d: nat | d < a.probes :: occupied[At(a.start, d, n)])
    && (a.Leaving? && a.slot < n && occupied[a.slot] ==> AllOccupied(occupied))
  }

  /** A step of the acceptor keeps both, and it gives a connection up only when every slot is occupied. */
  lemma {:induction false} AdvanceKeeps(a: Acceptor, occupied: seq<bool>, canLock: bool, keepgoing: bool)
    requires |occupied| > 0 && a.InRange(|occupied|) && ChoiceIsFree(a, occupied)
    ensures var b, after := Advance(a, occupied, canLock, keepgoing), Marked(a, occupied);
            && b.InRange(|occupied|) && |after| == |occupied| && ChoiceIsFree(b, after)
            && (ScanIsExact(a, occupied) ==> ScanIsExact(b, after))
            && (forall i | 0 <= i < |occupied| :: after[i] <==> occupied[i] || (a.Assigning? && a.slot == i))
            && (ScanIsExact(a, occupied) && a.Leaving? ==> (b.Accepting? <==> AllOccupied(occupied)))
  {
    var n := |occupied|;
    if a.Scanning? && occupied[At(a.start, a.probes, n)] && a.probes + 1 == n && ScanIsExact(a, occupied) {
      forall i | 0 <= i < n
        ensures occupied[i]
      {
        FullTurn(a.start, n, i);
      }
    }
  }

  /** A slot freed by somebody else, at any moment, leaves the choice free. */
  lemma {:induction false} FreeKeepsChoice(a: Acceptor, occupied: seq<bool>, i: nat)
    requires i < |occupied| && ChoiceIsFree(a, occupied)
    ensures ChoiceIsFree(a, occupied[i := false])
  {
  }

  /** While the acceptor is not inside the scan, freeing a slot does not disturb it. */
  lemma {:induction false} FreeKeepsScan(a: Acceptor, occupied: seq<bool>, i: nat)
    requires i < |occupied| && ScanIsExact(a, occupied) && !a.HoldsClient()
    ensures ScanIsExact(a, occupied[i := false])
  {
  }

  // ---------- The proxy: slots are freed without the lock ----------

  datatype ProxyEvent = AcceptStep(canLock: bool, keepgoing: bool) | FreeSlot(i: nat)

  datatype ProxyState = ProxyState(acceptor: Acceptor, occupied: seq<bool>)

  function ProxyStep(s: ProxyState, e: ProxyEvent): ProxyState
    requires |s.occupied| > 0 && s.acceptor.InRange(|s.occupied|)
  {
    match e
    case AcceptStep(canLock, keepgoing) =>
      ProxyState(Advance(s.acceptor, s.occupied, canLock, keepgoing), Marked(s.acceptor, s.occupied))
    case FreeSlot(i) =>
      if i < |s.occupied| then s.(occupied := s.occupied[i := false]) else s
  }

  ghost predicate ProxyReachable(s: ProxyState, n: nat, events: seq<ProxyEvent>)
    decreases |events|
  {
    if events == [] then s == ProxyState(Accepting(0), seq(n, _ => false))
    else exists r :: ProxyReachable(r, n, events[..|events| - 1]) && |r.occupied| > 0 && r.acceptor.InRange(|r.occupied|)
                     && s == ProxyStep(r, events[|events| - 1])
  }

  /** In every run the slot the proxy marks is free at that moment, although the lock was given back in between
      and end_thread frees slots without it. */
  lemma {:induction false} ProxyMarksFreeSlots(s: ProxyState, n: nat, events: seq<ProxyEvent>)
    requires n > 0 && ProxyReachable(s, n, events)
    ensures |s.occupied| == n && s.acceptor.InRange(n) && ChoiceIsFree(s.acceptor, s.occupied)
    decreases |events|
  {
    if events != [] {
      var last := events[|events| - 1];
      var r :| ProxyReachable(r, n, events[..|events| - 1]) && |r.occupied| > 0 && r.acceptor.InRange(|r.occupied|)
               && s == ProxyStep(r, last);
      ProxyMarksFreeSlots(r, n, events[..|events| - 1]);
      match last
      case AcceptStep(canLock, keepgoing) => AdvanceKeeps(r.acceptor, r.occupied, canLock, keepgoing);
      case FreeSlot(i) => if i < n { FreeKeepsChoice(r.acceptor, r.occupied, i); }
    }
  }

  // ---------- The locked scan as one loop ----------

  /** While the slots stand still the scan takes at most `n` probes and ends at the first free slot from
      `clientcount` on; it ends at an occupied slot only if there is no free one. */
  method Scan(occupied: array<bool>, clientcount: nat) returns (slot: nat, ghost probes: nat)
    requires clientcount < occupied.Length
    ensures slot < occupied.Length && probes <= occupied.Length
    ensures occupied[slot] <==> AllOccupied(occupied[..])
    ensures !occupied[slot] ==> slot == At(clientcount, probes, occupied.Length)
                                && forall d: nat | d < probes :: occupied[At(clientcount, d, occupied.Length)]
    ensures occupied[slot] ==> slot == clientcount
  {
    var n := occupied.Length;
    slot, probes := clientcount, 0;
    while occupied[slot]
      invariant probes < n && slot == At(clientcount, probes, n)
      invariant forall d: nat | d < probes :: occupied[At(clientcount, d, n)]
      decreases n - probes
    {
      NextProbe(clientcount, probes, n);
      slot, probes := (slot + 1) % n, probes + 1;
      if slot == clientcount {
        forall i | 0 <= i < n
          ensures occupied[i]
        {
          FullTurn(clientcount, n, i);
        }
        break;
      }
    }
  }

  lemma {:induction false} Wrap(x: nat, n: nat)
    requires x < 2 * n
    ensures x % n == if x < n then x else x - n
  {
  }

  lemma {:induction false} NextProbe(start: nat, p: nat, n: nat)
    requires start < n && p < n
    ensures (At(start, p, n) + 1) % n == At(start, p + 1, n)
    ensures At(start, p + 1, n) == start <==> p + 1 == n
  {
    hide At;
    assert At(start, p, n) == if start + p < n then start + p else start + p - n by { AtIs(start, p, n); }
    assert At(start, p + 1, n) == if start + p + 1 < n then start + p + 1 else start + p + 1 - n
      by { AtIs(start, p + 1, n); }
    Wrap(At(start, p, n) + 1, n);
  }

  lemma {:induction false} AtIs(start: nat, d: nat, n: nat)
    requires start < n && d <= n
    ensures At(start, d, n) == if start + d < n then start + d else start + d - n
  {
    Wrap(start + d, n);
  }
}
