/**
 Waiting for the signal stream in go/signal/client/grpc.go: one channel stands for all who wait, is closed by the next
 connect notification, and is replaced when somebody waits again. The status is read without the lock, so a waiter's
 two steps may have a connect notification between them.
 */
module StreamHandshake {
  datatype Status = StreamConnected | StreamDisconnected

  /** A channel that is only ever closed; closing it twice would panic. */
  class WaitChan {
    var closed: bool
    ghost var closes: nat
    ghost const born: nat

    /** `born` is the number of connect notifications before it was made. */
    constructor (ghost born: nat)
      ensures !closed && closes == 0 && this.born == born
    {
      this.born := born;
      closed, closes := false, 0;
    }

    method Close()
      requires !closed
      modifies this
      ensures closed && closes == old(closes) + 1
    {
      closed, closes := true, closes + 1;
    }
  }

  class Client {
    var status: Status
    var connectedCh: WaitChan?
    var hasListener: bool

    /** Every channel ever handed out, and the numbers of connect notifications and of calls to the listener. */
    ghost var handedOut: set<WaitChan>
    ghost var connects: nat
    ghost var listenerCalls: nat

    constructor (hasListener: bool)
      ensures Valid() && status == StreamDisconnected && handedOut == {} && connects == 0 && listenerCalls == 0
      ensures this.hasListener == hasListener
    {
      status, connectedCh, this.hasListener := StreamDisconnected, null, hasListener;
      handedOut, connects, listenerCalls := {}, 0, 0;
    }

    /** A channel is closed exactly when a connect came after it was made, once, and otherwise is the current one. */
    ghost predicate Settled(ch: WaitChan)
      reads this, ch
    {
      && ch.born <= connects
      && (ch.closed <==> ch.born < connects)
      && ch.closes == (if ch.closed then 1 else 0)
      && (ch.closed <==> connectedCh != ch)
    }

    ghost predicate Valid()
      reads this, handedOut
    {
      && (connectedCh != null ==> connectedCh in handedOut)
      && (forall ch :: ch in handedOut ==> Settled(ch))
    }

    method NotifyStreamDisconnected()
      requires Valid()
      modifies this`status
      ensures Valid() && status == StreamDisconnected
    {
      status := StreamDisconnected;
    }

    /** Releases everybody who waits. */
    method NotifyStreamConnected()
      requires Valid()
      modifies this, handedOut
      ensures Valid() && status == StreamConnected && connects == old(connects) + 1
      ensures handedOut == old(handedOut) && hasListener == old(hasListener)
      ensures forall ch :: ch in handedOut ==> ch.closed
      ensures listenerCalls == old(listenerCalls) + if hasListener then 1 else 0
    {
      status := StreamConnected;
      connects := connects + 1;
      if connectedCh != null {
        connectedCh.Close();
        connectedCh := null;
      }
      if hasListener {
        listenerCalls := listenerCalls + 1;
      }
    }

    method GetStreamStatusChan() returns (ch: WaitChan)
      requires Valid()
      modifies this`connectedCh, this`handedOut
      ensures Valid() && ch == connectedCh && ch in handedOut && !ch.closed && ch.born == connects
      ensures old(connectedCh) != null ==> ch == old(connectedCh) && handedOut == old(handedOut)
      ensures old(connectedCh) == null ==> fresh(ch) && handedOut == old(handedOut) + {ch}
    {
      if connectedCh == null {
        var made := new WaitChan(connects);
        connectedCh := made;
        handedOut := handedOut + {made};
      }
      ch := connectedCh;
    }
  }

  datatype Phase = Checking | Registering | Waiting | Returned

  /** One call of WaitStreamConnected. */
  class Waiter {
    var phase: Phase
    var ch: WaitChan?

    /** The number of connect notifications when the waiter got its channel. */
    ghost var registeredAt: nat

    constructor ()
      ensures phase == Checking && ch == null
    {
      phase, ch, registeredAt := Checking, null, 0;
    }

    /** A waiting one holds a channel of the client that was open when it registered. */
    ghost predicate Fits(c: Client)
      reads this, c
    {
      phase.Waiting? ==> ch != null && ch in c.handedOut && ch.born <= registeredAt <= c.connects
                         && (ch.born < c.connects <==> registeredAt < c.connects)
    }

    /** The unlocked look at the status. */
    method CheckStatus(c: Client)
      requires phase.Checking?
      modifies this`phase
      ensures phase == if c.status.StreamConnected? then Returned else Registering
    {
      phase := if c.status.StreamConnected? then Returned else Registering;
    }

    method Register(c: Client)
      requires phase.Registering? && c.Valid()
      modifies this, c`connectedCh, c`handedOut
      ensures c.Valid() && phase.Waiting? && ch != null && ch == c.connectedCh && !ch.closed && ch in c.handedOut
      ensures registeredAt == c.connects && Fits(c)
      ensures c.handedOut >= old(c.handedOut) && fresh(c.handedOut - old(c.handedOut))
    {
      var got := c.GetStreamStatusChan();
      ch, phase, registeredAt := got, Waiting, c.connects;
    }

    /** A waiter goes on when its channel is closed or the client's context is done. */
    method Wake(cancelled: bool) returns (woken: bool)
      requires phase.Waiting? && ch != null
      modifies this`phase
      ensures woken <==> old(ch.closed) || cancelled
      ensures phase == if woken then Returned else Waiting
    {
      woken := ch.closed || cancelled;
      if woken {
        phase := Returned;
      }
    }

    /** A waiter's channel is closed exactly when a connect notification came after it registered. */
    lemma ReleasedExactly(c: Client)
      requires c.Valid() && Fits(c) && phase.Waiting?
      ensures ch.closed <==> registeredAt < c.connects
      ensures !ch.closed ==> c.connectedCh == ch
      ensures ch.closes <= 1
    {
      assert c.Settled(ch);
    }
  }

  datatype Event =
    | Connects
    | Disconnects
    | Steps(waiter: nat, cancelled: bool)

  /** The next step of a waiter, when it has one. */
  method StepWaiter(c: Client, w: Waiter, cancelled: bool)
    requires c.Valid() && w.Fits(c)
    modifies w, c`connectedCh, c`handedOut
    ensures c.Valid() && w.Fits(c)
    ensures c.handedOut >= old(c.handedOut) && fresh(c.handedOut - old(c.handedOut))
    ensures w.phase.Returned? <==>
              match old(w.phase)
              case Checking => c.status.StreamConnected?
              case Registering => false
              case Waiting => cancelled || old(w.registeredAt) < c.connects
              case Returned => true
  {
    match w.phase {
      case Checking => w.CheckStatus(c);
      case Registering => w.Register(c);
      case Waiting =>
        w.ReleasedExactly(c);
        var _ := w.Wake(cancelled);
      case Returned =>
    }
  }

  /** Any interleaving of notifications and of any number of waiters keeps the channels settled. */
  method RunEvents(c: Client, waiters: seq<Waiter>, events: seq<Event>)
    requires c.Valid() && forall w :: w in waiters ==> w.Fits(c)
    modifies c, c.handedOut, waiters
    ensures c.Valid() && forall w :: w in waiters ==> w.Fits(c)
    ensures c.connects >= old(c.connects) && c.handedOut >= old(c.handedOut)
  {
    hide c.Settled;
    for i := 0 to |events|
      invariant c.Valid() && forall w :: w in waiters ==> w.Fits(c)
      invariant c.handedOut >= old(c.handedOut) && fresh(c.handedOut - old(c.handedOut))
      invariant c.connects >= old(c.connects)
    {
      match events[i] {
        case Connects => c.NotifyStreamConnected();
        case Disconnects => c.NotifyStreamDisconnected();
        case Steps(n, cancelled) =>
          if n < |waiters| {
            StepWaiter(c, waiters[n], cancelled);
          }
      }
    }
  }

  /** A connect notification between a waiter's two steps is missed: it waits although the stream is connected. */
  method LateWaiterWaits(c: Client, w: Waiter)
    requires c.Valid() && w.phase.Checking? && c.status.StreamDisconnected?
    modifies c, c.handedOut, w
    ensures c.Valid() && c.status.StreamConnected? && w.phase.Waiting? && w.ch != null && !w.ch.closed
  {
    w.CheckStatus(c);
    c.NotifyStreamConnected();
    w.Register(c);
  }
}
