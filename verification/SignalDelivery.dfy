/**
 Delivery of signal messages: the receiving loop of go/signal/client/grpc.go, the one-slot channel and the worker of
 go/signal/client/worker.go, as steps that interleave in any order, across reconnections and closings.

 A message is named by its place among the received ones, so that order and loss can be read off the numbers.
 */
module SignalDelivery {
  import opened Wrappers

  /** What the goroutine of a worker does. */
  datatype Phase = Waiting | Decrypting(msg: nat) | Handling(msg: nat) | Exited

  /** A worker: its goroutine, its channel of capacity one, and whether its context is cancelled. */
  datatype Worker = Worker(phase: Phase, channel: Option<nat>, cancelled: bool)

  /** The receiving loop: between streams, waiting for a message, or in AddMsg with one for some worker. */
  datatype Receiver = Disconnected | Receiving | Adding(msg: nat, worker: nat) | Panicked

  /** A message that a worker is done with, and whether it could be decrypted. */
  datatype Done = Done(msg: nat, decrypted: bool)

  /**
   `workers` are all workers ever started; `current` is the client's worker field. `received` counts the messages the
   streams gave, and `closed` says that Close was called at some time.
   */
  datatype State = State(
    receiver: Receiver,
    workers: seq<Worker>,
    current: Option<nat>,
    clientCancelled: bool,
    closing: bool,
    closed: bool,
    received: nat,
    done: seq<Done>)

  const INIT := State(Disconnected, [], None, false, false, false, 0, [])

  datatype Action =
    | Connect
    | StreamEnds
    | ReceiveMessage
    | Send
    | GiveUp
    | Take(worker: nat)
    | Decrypt(worker: nat, works: bool)
    | HandlerReturns(worker: nat)
    | Exit(worker: nat)
    | CancelClient
    | CloseCancels
    | CloseClears

  predicate AllExited(workers: seq<Worker>) {
    forall i :: 0 <= i < |workers| ==> workers[i].phase.Exited?
  }

  function SetWorker(s: State, i: nat, w: Worker): State
    requires i < |s.workers|
  {
    s.(workers := s.workers[i := w])
  }

  /** The state after a step, when the step can be taken. */
  function Next(s: State, a: Action): Option<State> {
    match a
    case Connect =>
      // a worker is started unless the client still has one
      if !s.receiver.Disconnected? then None
      else if s.current.Some? then Some(s.(receiver := Receiving))
      else Some(s.(receiver := Receiving, workers := s.workers + [Worker(Waiting, None, false)],
                current := Some(|s.workers|)))
    case StreamEnds => if s.receiver.Receiving? then Some(s.(receiver := Disconnected)) else None
    case ReceiveMessage =>
      if !s.receiver.Receiving? then None
      else Some(s.(received := s.received + 1,
                receiver := if s.current.Some? then Adding(s.received, s.current.value) else Panicked))
    case Send =>
      if !(s.receiver.Adding? && s.receiver.worker < |s.workers|) then None
      else
        var w := s.workers[s.receiver.worker];
        if w.channel.Some? then None
        else Some(SetWorker(s, s.receiver.worker, w.(channel := Some(s.receiver.msg))).(receiver := Receiving))
    case GiveUp => if s.receiver.Adding? && s.clientCancelled then Some(s.(receiver := Receiving)) else None
    case Take(i) =>
      if i < |s.workers| && s.workers[i].phase.Waiting? && s.workers[i].channel.Some?
      then Some(SetWorker(s, i, s.workers[i].(phase := Decrypting(s.workers[i].channel.value), channel := None)))
      else None
    case Decrypt(i, works) =>
      if !(i < |s.workers| && s.workers[i].phase.Decrypting?) then None
      else if works then Some(SetWorker(s, i, s.workers[i].(phase := Handling(s.workers[i].phase.msg))))
      else Some(Finish(s, i, s.workers[i].phase.msg, false))
    case HandlerReturns(i) =>
      // a handler that fails is only logged
      if i < |s.workers| && s.workers[i].phase.Handling? then Some(Finish(s, i, s.workers[i].phase.msg, true)) else None
    case Exit(i) =>
      if i < |s.workers| && s.workers[i].phase.Waiting? && s.workers[i].cancelled
      then Some(SetWorker(s, i, s.workers[i].(phase := Exited)))
      else None
    case CancelClient => Some(s.(clientCancelled := true))
    case CloseCancels =>
      // the context of the worker started last
      var t := s.(closing := true, closed := true);
      Some(if s.workers == [] then t
           else SetWorker(t, |s.workers| - 1, s.workers[|s.workers| - 1].(cancelled := true)))
    case CloseClears =>
      // Close waits for every started worker
      if s.closing && AllExited(s.workers) then Some(s.(closing := false, current := None)) else None
  }

  function Finish(s: State, i: nat, msg: nat, decrypted: bool): State
    requires i < |s.workers|
  {
    SetWorker(s, i, s.workers[i].(phase := Waiting)).(done := s.done + [Done(msg, decrypted)])
  }

  function RunOf(s: State, actions: seq<Action>): Option<State> {
    if actions == [] then Some(s)
    else match RunOf(s, actions[..|actions| - 1])
      case None => None
      case Some(t) => Next(t, actions[|actions| - 1])
  }

  // ---- where the messages are ----

  function DoneNumbers(done: seq<Done>): (ns: seq<nat>)
    ensures |ns| == |done| && forall i :: 0 <= i < |done| ==> ns[i] == done[i].msg
  {
    if done == [] then [] else DoneNumbers(done[..|done| - 1]) + [done[|done| - 1].msg]
  }

  function InPhase(p: Phase): seq<nat> {
    if p.Decrypting? || p.Handling? then [p.msg] else []
  }

  function InChannel(c: Option<nat>): seq<nat> {
    match c case None => [] case Some(n) => [n]
  }

  function Blocked(r: Receiver): seq<nat> {
    if r.Adding? then [r.msg] else []
  }

  /** What the client's worker holds: the message at work, then the buffered one. */
  function Held(s: State): seq<nat> {
    if s.current.Some? && s.current.value < |s.workers|
    then InPhase(s.workers[s.current.value].phase) + InChannel(s.workers[s.current.value].channel)
    else []
  }

  /** The messages in the order of their progress: done, at work, buffered, waiting to be buffered. */
  function Pipeline(s: State): seq<nat> {
    DoneNumbers(s.done) + Held(s) + Blocked(s.receiver)
  }

  predicate Increasing(ns: seq<nat>) {
    forall i, j :: 0 <= i < j < |ns| ==> ns[i] < ns[j]
  }

  predicate Below(ns: seq<nat>, n: nat) {
    forall i :: 0 <= i < |ns| ==> ns[i] < n
  }

  // ---- the invariant ----

  /** Every worker but the client's has exited, so at most one runs. */
  predicate OneWorker(s: State) {
    && (s.current.Some? ==> s.current.value == |s.workers| - 1)
    && (forall i :: 0 <= i < |s.workers| && s.current != Some(i) ==> s.workers[i].phase.Exited?)
  }

  /** The receiver adds to the client's worker, unless Close took that worker away. */
  predicate ReceiverFits(s: State) {
    && (s.receiver.Adding? ==>
          s.receiver.worker < |s.workers| && (s.current.Some? ==> s.receiver.worker == s.current.value))
    && (s.receiver.Panicked? ==> s.closed)
  }

  /** Before any closing, the receiver has a worker, which is not cancelled and has not exited. */
  predicate Open(s: State) {
    !s.closed ==>
      && !s.closing
      && (s.current.None? ==> s.receiver.Disconnected? && s.workers == [])
      && (s.current.Some? && s.current.value < |s.workers| ==>
            !s.workers[s.current.value].cancelled && !s.workers[s.current.value].phase.Exited?)
  }

  predicate Invariant(s: State) {
    && OneWorker(s) && ReceiverFits(s) && Open(s)
    && Increasing(Pipeline(s)) && Below(Pipeline(s), s.received)
  }

  /** Neither the client's context nor a worker was cancelled. */
  predicate Undisturbed(s: State) {
    !s.clientCancelled && !s.closed
  }

  /** Nothing is lost so far: every received message is somewhere in the pipeline. */
  predicate NoLoss(s: State) {
    Undisturbed(s) ==> |Pipeline(s)| == s.received
  }

  // ---- every step keeps the invariant ----

  lemma StepKeepsOneWorker(s: State, a: Action)
    requires OneWorker(s) && ReceiverFits(s) && Open(s) && Next(s, a).Some?
    ensures OneWorker(Next(s, a).value)
  {
    hide Next, OneWorker, ReceiverFits, Open;
    match a
    case Connect => ConnectKeepsOneWorker(s);
    case Send => SendKeepsOneWorker(s);
    case Take(i) => WorkKeepsOneWorker(s, a, i);
    case Decrypt(i, _) => WorkKeepsOneWorker(s, a, i);
    case HandlerReturns(i) => WorkKeepsOneWorker(s, a, i);
    case Exit(i) => WorkKeepsOneWorker(s, a, i);
    case CloseCancels | CloseClears => ClosingKeepsOneWorker(s, a);
    case StreamEnds | ReceiveMessage | GiveUp | CancelClient => OthersKeepOneWorker(s, a);
  }

  lemma ConnectKeepsOneWorker(s: State)
    requires OneWorker(s) && Next(s, Connect).Some?
    ensures OneWorker(Next(s, Connect).value)
  {
  }

  lemma SendKeepsOneWorker(s: State)
    requires OneWorker(s) && ReceiverFits(s) && Next(s, Send).Some?
    ensures OneWorker(Next(s, Send).value)
  {
  }

  lemma WorkKeepsOneWorker(s: State, a: Action, i: nat)
    requires a.Take? || a.Decrypt? || a.HandlerReturns? || a.Exit?
    requires a.worker == i && OneWorker(s) && Next(s, a).Some?
    ensures OneWorker(Next(s, a).value)
  {
    assert !s.workers[i].phase.Exited? && s.current == Some(i);
  }

  lemma ClosingKeepsOneWorker(s: State, a: Action)
    requires (a.CloseCancels? || a.CloseClears?) && OneWorker(s) && Next(s, a).Some?
    ensures OneWorker(Next(s, a).value)
  {
  }

  lemma OthersKeepOneWorker(s: State, a: Action)
    requires a.StreamEnds? || a.ReceiveMessage? || a.GiveUp? || a.CancelClient?
    requires OneWorker(s) && Next(s, a).Some?
    ensures OneWorker(Next(s, a).value)
  {
  }

  lemma StepKeepsReceiver(s: State, a: Action)
    requires OneWorker(s) && ReceiverFits(s) && Open(s) && Next(s, a).Some?
    ensures ReceiverFits(Next(s, a).value) && Open(Next(s, a).value)
  {
  }

  lemma DoneOneMore(done: seq<Done>, d: Done)
    ensures DoneNumbers(done + [d]) == DoneNumbers(done) + [d.msg]
  {
  }

  /** Steps that lose a message. */
  predicate Loses(s: State, a: Action) {
    a.GiveUp? || (a.CloseClears? && s.current.Some?) || (a.Send? && s.current.None?)
    || (a.ReceiveMessage? && s.current.None?)
  }

  lemma PipelineParts(s: State, t: State, more: seq<nat>)
    requires t.done == s.done && Held(t) == Held(s) && Blocked(t.receiver) == Blocked(s.receiver) + more
    ensures Pipeline(t) == Pipeline(s) + more
  {
    hide DoneNumbers, Held, Blocked;
  }

  /** Every other step appends the new message, or leaves the pipeline as it is. */
  lemma PipelineStep(s: State, a: Action)
    requires OneWorker(s) && ReceiverFits(s) && Next(s, a).Some? && !Loses(s, a)
    ensures Pipeline(Next(s, a).value) == Pipeline(s) + if a.ReceiveMessage? then [s.received] else []
  {
    hide Next, Pipeline, OneWorker, ReceiverFits, Loses;
    assert Pipeline(s) + [] == Pipeline(s);
    match a
    case Connect | StreamEnds | ReceiveMessage => PipelineReceives(s, a);
    case Decrypt(i, works) =>
      if works {
        PipelineKept(s, a);
      } else {
        PipelineFails(s, i);
      }
    case HandlerReturns(i) => PipelineReturns(s, i);
    case Send => PipelineSend(s);
    case Take(i) => PipelineTake(s, i);
    case GiveUp | CloseClears => PipelineNotLost(s, a);
    case _ => PipelineKept(s, a);
  }

  lemma PipelineReceives(s: State, a: Action)
    requires (a.Connect? || a.StreamEnds? || a.ReceiveMessage?) && Next(s, a).Some? && !Loses(s, a) && OneWorker(s)
    ensures Pipeline(Next(s, a).value) == Pipeline(s) + if a.ReceiveMessage? then [s.received] else []
  {
    hide Pipeline;
    PipelineParts(s, Next(s, a).value, if a.ReceiveMessage? then [s.received] else []);
  }

  lemma PipelineKept(s: State, a: Action)
    requires (a.Decrypt? && a.works) || a.Exit? || a.CancelClient? || a.CloseCancels?
    requires Next(s, a).Some?
    ensures Pipeline(Next(s, a).value) == Pipeline(s)
  {
    hide Pipeline;
    var t := Next(s, a).value;
    assert Held(t) == Held(s);
    PipelineParts(s, t, []);
    assert Pipeline(s) + [] == Pipeline(s);
  }

  /** Closing loses nothing when no worker is there. */
  lemma PipelineNotLost(s: State, a: Action)
    requires (a.GiveUp? || a.CloseClears?) && Next(s, a).Some? && !Loses(s, a)
    ensures Pipeline(Next(s, a).value) == Pipeline(s)
  {
    hide Pipeline;
    PipelineParts(s, Next(s, a).value, []);
    assert Pipeline(s) + [] == Pipeline(s);
  }

  lemma PipelineFails(s: State, i: nat)
    requires OneWorker(s) && Next(s, Decrypt(i, false)).Some?
    ensures Pipeline(Next(s, Decrypt(i, false)).value) == Pipeline(s)
  {
    hide Pipeline, OneWorker;
    PipelineFinish(s, i, s.workers[i].phase.msg, false);
  }

  lemma PipelineReturns(s: State, i: nat)
    requires OneWorker(s) && Next(s, HandlerReturns(i)).Some?
    ensures Pipeline(Next(s, HandlerReturns(i)).value) == Pipeline(s)
  {
    hide Pipeline, OneWorker;
    PipelineFinish(s, i, s.workers[i].phase.msg, true);
  }

  lemma PipelineSend(s: State)
    requires !Loses(s, Send) && ReceiverFits(s) && Next(s, Send).Some?
    ensures Pipeline(Next(s, Send).value) == Pipeline(s)
  {
    hide DoneNumbers;
    var t := Next(s, Send).value;
    assert Held(t) == Held(s) + [s.receiver.msg];
  }

  lemma PipelineTake(s: State, i: nat)
    requires OneWorker(s) && Next(s, Take(i)).Some?
    ensures Pipeline(Next(s, Take(i)).value) == Pipeline(s)
  {
    hide DoneNumbers;
    assert Held(Next(s, Take(i)).value) == Held(s);
  }

  lemma PipelineFinish(s: State, i: nat, msg: nat, decrypted: bool)
    requires OneWorker(s) && i < |s.workers| && InPhase(s.workers[i].phase) == [msg]
    ensures Pipeline(Finish(s, i, msg, decrypted)) == Pipeline(s)
  {
    hide DoneNumbers;
    DoneOneMore(s.done, Done(msg, decrypted));
    var t := Finish(s, i, msg, decrypted);
    assert Held(s) == [msg] + Held(t);
  }

  /** The others leave out the message they lose. */
  lemma LosingStep(s: State, a: Action)
    requires OneWorker(s) && ReceiverFits(s) && Next(s, a).Some? && Loses(s, a)
    ensures Pipeline(Next(s, a).value) ==
            if a.CloseClears? then DoneNumbers(s.done) + Blocked(s.receiver) else DoneNumbers(s.done) + Held(s)
  {
    hide DoneNumbers;
  }

  lemma LessIsIncreasing(a: seq<nat>, b: seq<nat>, c: seq<nat>, n: nat)
    requires Increasing(a + b + c) && Below(a + b + c, n)
    ensures Increasing(a + c) && Below(a + c, n) && Increasing(a + b) && Below(a + b, n)
  {
    var all, ac, ab := a + b + c, a + c, a + b;
    forall i | 0 <= i < |ac|
      ensures ac[i] == all[if i < |a| then i else i + |b|]
    {
    }
    forall i | 0 <= i < |ab|
      ensures ab[i] == all[i]
    {
    }
  }

  lemma StepKeepsInvariant(s: State, a: Action)
    requires Invariant(s) && Next(s, a).Some?
    ensures Invariant(Next(s, a).value)
  {
    hide Next, OneWorker, ReceiverFits, Open, Increasing, Below, Loses;
    StepKeepsOneWorker(s, a);
    StepKeepsReceiver(s, a);
    ReceivedCount(s, a);
    var t := Next(s, a).value;
    if Loses(s, a) {
      LosingStep(s, a);
      LessIsIncreasing(DoneNumbers(s.done), Held(s), Blocked(s.receiver), s.received);
      BelowMore(Pipeline(t), s.received, t.received);
    } else {
      PipelineStep(s, a);
      assert Pipeline(s) + [] == Pipeline(s);
      if a.ReceiveMessage? {
        IncreasingMore(Pipeline(s), s.received);
      }
    }
  }

  lemma ReceivedCount(s: State, a: Action)
    requires Next(s, a).Some?
    ensures Next(s, a).value.received == s.received + if a.ReceiveMessage? then 1 else 0
  {
  }

  lemma BelowMore(ns: seq<nat>, m: nat, n: nat)
    requires Below(ns, m) && m <= n
    ensures Below(ns, n)
  {
  }

  lemma IncreasingMore(ns: seq<nat>, n: nat)
    requires Increasing(ns) && Below(ns, n)
    ensures Increasing(ns + [n]) && Below(ns + [n], n + 1)
  {
  }

  lemma StepKeepsMessages(s: State, a: Action)
    requires Invariant(s) && NoLoss(s) && Next(s, a).Some?
    ensures NoLoss(Next(s, a).value)
  {
    var t := Next(s, a).value;
    if Undisturbed(t) {
      DisturbanceStays(s, a);
      OpenKeepsAll(s, a);
      PipelineStep(s, a);
      ReceivedCount(s, a);
      hide Next, Pipeline;
    }
  }

  lemma DisturbanceStays(s: State, a: Action)
    requires Next(s, a).Some? && Undisturbed(Next(s, a).value)
    ensures Undisturbed(s)
  {
  }

  lemma OpenKeepsAll(s: State, a: Action)
    requires OneWorker(s) && ReceiverFits(s) && Open(s) && Next(s, a).Some? && Undisturbed(s)
    ensures !Loses(s, a)
  {
  }

  /** Every interleaving, from the beginning. */
  lemma {:induction false} EveryRunKeepsInvariant(actions: seq<Action>)
    requires RunOf(INIT, actions).Some?
    ensures Invariant(RunOf(INIT, actions).value) && NoLoss(RunOf(INIT, actions).value)
  {
    hide Next, Invariant, NoLoss;
    if actions == [] {
      InitInvariant();
    } else {
      var front, last := actions[..|actions| - 1], actions[|actions| - 1];
      EveryRunKeepsInvariant(front);
      StepKeepsInvariant(RunOf(INIT, front).value, last);
      StepKeepsMessages(RunOf(INIT, front).value, last);
    }
  }

  lemma InitInvariant()
    ensures Invariant(INIT) && NoLoss(INIT)
  {
  }

  // ---- what this means ----

  predicate Running(w: Worker) {
    !w.phase.Exited?
  }

  /** At most one worker ever runs. */
  lemma AtMostOneWorkerRuns(actions: seq<Action>, i: nat, j: nat)
    requires RunOf(INIT, actions).Some?
    requires var s := RunOf(INIT, actions).value;
             i < |s.workers| && j < |s.workers| && Running(s.workers[i]) && Running(s.workers[j])
    ensures i == j
  {
    hide Next, Pipeline, RunOf;
    EveryRunKeepsInvariant(actions);
  }

  /** The numbers of the messages that reached the handler, in the order they did. */
  function HandledNumbers(s: State): seq<nat> {
    DecryptedNumbers(s.done)
    + if s.current.Some? && s.current.value < |s.workers| && s.workers[s.current.value].phase.Handling?
      then [s.workers[s.current.value].phase.msg] else []
  }

  function DecryptedNumbers(done: seq<Done>): seq<nat> {
    if done == [] then []
    else
      var front, last := DecryptedNumbers(done[..|done| - 1]), done[|done| - 1];
      if last.decrypted then front + [last.msg] else front
  }

  lemma IncreasingFront(ns: seq<nat>)
    requires Increasing(ns) && ns != []
    ensures Increasing(ns[..|ns| - 1]) && Below(ns[..|ns| - 1], ns[|ns| - 1])
  {
  }

  lemma {:induction false} DecryptedAreDone(done: seq<Done>, n: nat)
    requires Increasing(DoneNumbers(done)) && Below(DoneNumbers(done), n)
    ensures Increasing(DecryptedNumbers(done)) && Below(DecryptedNumbers(done), n)
    decreases |done|
  {
    hide DoneNumbers, Increasing, Below;
    if done == [] {
      NothingIncreases(n);
    } else {
      var front, last := done[..|done| - 1], done[|done| - 1];
      DoneOneMore(front, last);
      assert done == front + [last];
      var ns := DoneNumbers(done);
      IncreasingFront(ns);
      assert ns[..|ns| - 1] == DoneNumbers(front);
      LastIsBelow(ns, n);
      DecryptedAreDone(front, last.msg);
      BelowMore(DecryptedNumbers(front), last.msg, n);
      IncreasingMore(DecryptedNumbers(front), last.msg);
      BelowMore(DecryptedNumbers(front) + [last.msg], last.msg + 1, n);
    }
  }

  lemma {:induction false} DecryptedAre(done: seq<Done>, n: nat)
    ensures n in DecryptedNumbers(done) <==> Done(n, true) in done
  {
    if done != [] {
      var front, last := done[..|done| - 1], done[|done| - 1];
      DecryptedAre(front, n);
      assert done == front + [last];
    }
  }

  /**
   In every run the messages that reached the handler are those that were decrypted and are done, and the one that some
   worker's handler is at.
   */
  lemma HandledExactly(actions: seq<Action>, n: nat)
    requires RunOf(INIT, actions).Some?
    ensures var s := RunOf(INIT, actions).value;
            n in HandledNumbers(s) <==> Handled(s, n)
  {
    hide Next, RunOf, DecryptedNumbers, ReceiverFits, Open, Pipeline;
    EveryRunKeepsInvariant(actions);
    var s := RunOf(INIT, actions).value;
    DecryptedAre(s.done, n);
    if w :| w in s.workers && w.phase == Handling(n) {
      var i :| 0 <= i < |s.workers| && s.workers[i] == w;
      assert s.current == Some(i);
    }
  }

  /** The message is or was at the handler. */
  ghost predicate Handled(s: State, n: nat) {
    Done(n, true) in s.done || exists w :: w in s.workers && w.phase == Handling(n)
  }

  /** Some worker turns out to be able to decrypt the message in this step. */
  predicate Decrypts(s: State, a: Action, n: nat) {
    a.Decrypt? && a.works && a.worker < |s.workers| && s.workers[a.worker].phase == Decrypting(n)
  }

  lemma StepHandles(s: State, a: Action, n: nat)
    requires Next(s, a).Some?
    ensures Handled(Next(s, a).value, n) <==> Handled(s, n) || Decrypts(s, a, n)
  {
    hide Next, Handled;
    match a
    case Take(i) => WorkerHandles(s, a, i, n);
    case Decrypt(i, _) => WorkerHandles(s, a, i, n);
    case HandlerReturns(i) => WorkerHandles(s, a, i, n);
    case Exit(i) => WorkerHandles(s, a, i, n);
    case Send =>
      SendAdds(s);
      WorkerHandles(s, a, s.receiver.worker, n);
    case CloseCancels => CloseHandles(s, n);
    case Connect => ConnectHandles(s, n);
    case StreamEnds | ReceiveMessage | GiveUp | CancelClient | CloseClears => OthersHandle(s, a, n);
  }

  lemma SendAdds(s: State)
    requires Next(s, Send).Some?
    ensures s.receiver.Adding? && s.receiver.worker < |s.workers|
  {
  }

  lemma OthersHandle(s: State, a: Action, n: nat)
    requires a.StreamEnds? || a.ReceiveMessage? || a.GiveUp? || a.CancelClient? || a.CloseClears?
    requires Next(s, a).Some?
    ensures Handled(Next(s, a).value, n) <==> Handled(s, n)
  {
  }

  lemma ConnectHandles(s: State, n: nat)
    requires Next(s, Connect).Some?
    ensures Handled(Next(s, Connect).value, n) <==> Handled(s, n)
  {
  }

  lemma CloseHandles(s: State, n: nat)
    requires Next(s, CloseCancels).Some?
    ensures Handled(Next(s, CloseCancels).value, n) <==> Handled(s, n)
  {
    var t := Next(s, CloseCancels).value;
    if s.workers != [] {
      HandlingElsewhere(s.workers, t.workers, |s.workers| - 1, n);
    }
  }

  lemma HandlingElsewhere(before: seq<Worker>, after: seq<Worker>, i: nat, n: nat)
    requires i < |before| == |after| && forall j :: 0 <= j < |before| && j != i ==> after[j] == before[j]
    ensures (exists w :: w in after && w.phase == Handling(n)) <==>
            after[i].phase == Handling(n) || exists j :: 0 <= j < |before| && j != i && before[j].phase == Handling(n)
    ensures (exists w :: w in before && w.phase == Handling(n)) <==>
            before[i].phase == Handling(n) || exists j :: 0 <= j < |before| && j != i && before[j].phase == Handling(n)
  {
    if j :| 0 <= j < |before| && j != i && before[j].phase == Handling(n) {
      assert before[j] in before && after[j] in after;
    }
  }

  lemma WorkerHandles(s: State, a: Action, i: nat, n: nat)
    requires Next(s, a).Some?
    requires ((a.Take? || a.Decrypt? || a.HandlerReturns? || a.Exit?) && a.worker == i)
             || (a.Send? && s.receiver.Adding? && s.receiver.worker == i)
    ensures Handled(Next(s, a).value, n) <==> Handled(s, n) || Decrypts(s, a, n)
  {
    var t := Next(s, a).value;
    HandlingElsewhere(s.workers, t.workers, i, n);
    var ended, elsewhere := Done(n, true) in s.done,
                            exists j :: 0 <= j < |s.workers| && j != i && s.workers[j].phase == Handling(n);
    assert Handled(s, n) <==> ended || s.workers[i].phase == Handling(n) || elsewhere;
    assert Handled(t, n) <==> Done(n, true) in t.done || t.workers[i].phase == Handling(n) || elsewhere;
  }

  /** In every run the messages that reached the handler are exactly those that some worker decrypted. */
  lemma {:induction false} HandledByDecryption(actions: seq<Action>, n: nat)
    requires RunOf(INIT, actions).Some?
    ensures Handled(RunOf(INIT, actions).value, n) <==>
            exists j :: 0 <= j < |actions| && RunOf(INIT, actions[..j]).Some?
                        && Decrypts(RunOf(INIT, actions[..j]).value, actions[j], n)
  {
    hide Next, Decrypts, Handled;
    if actions == [] {
      NothingHandled(n);
    } else {
      var m := |actions| - 1;
      var front, last := actions[..m], actions[m];
      HandledByDecryption(front, n);
      StepHandles(RunOf(INIT, front).value, last, n);
      forall j | 0 <= j < m
        ensures front[..j] == actions[..j] && front[j] == actions[j]
      {
      }
      if Handled(RunOf(INIT, front).value, n) {
        var j :| 0 <= j < |front| && RunOf(INIT, front[..j]).Some?
                 && Decrypts(RunOf(INIT, front[..j]).value, front[j], n);
        assert actions[..j] == front[..j];
      }
    }
  }

  lemma NothingHandled(n: nat)
    ensures !Handled(INIT, n)
  {
  }

  lemma NothingIncreases(n: nat)
    ensures Increasing([]) && Below([], n)
  {
  }

  lemma LastIsBelow(ns: seq<nat>, n: nat)
    requires Below(ns, n) && ns != []
    ensures ns[|ns| - 1] < n
  {
  }

  /** Some of the received messages, in order. */
  ghost predicate InOrder<M>(some: seq<M>, all: seq<M>) {
    exists ns: seq<nat> :: Increasing(ns) && Below(ns, |all|) && |ns| == |some|
                           && forall i :: 0 <= i < |ns| ==> some[i] == all[ns[i]]
  }

  function MessagesAt<M>(all: seq<M>, ns: seq<nat>): (r: seq<M>)
    requires Below(ns, |all|)
    ensures |r| == |ns| && forall i :: 0 <= i < |ns| ==> r[i] == all[ns[i]]
  {
    seq(|ns|, i requires 0 <= i < |ns| => all[ns[i]])
  }

  lemma HandledIncrease(s: State)
    requires Invariant(s)
    ensures Increasing(HandledNumbers(s)) && Below(HandledNumbers(s), s.received)
  {
    hide Increasing, Below, OneWorker, ReceiverFits, Open, DecryptedNumbers, DoneNumbers, Blocked;
    LessIsIncreasing(DoneNumbers(s.done), Held(s), Blocked(s.receiver), s.received);
    FrontIncreases(DoneNumbers(s.done), Held(s), s.received);
    if s.current.Some? && s.current.value < |s.workers| && s.workers[s.current.value].phase.Handling? {
      var m := s.workers[s.current.value].phase.msg;
      assert Held(s)[0] == m;
      DecryptedAreDone(s.done, m);
      IncreasingMore(DecryptedNumbers(s.done), m);
      BelowMore(DecryptedNumbers(s.done) + [m], m + 1, s.received);
    } else {
      DecryptedAreDone(s.done, s.received);
      assert HandledNumbers(s) == DecryptedNumbers(s.done);
    }
  }

  /** The front of an increasing list increases too, and stays below the rest. */
  lemma FrontIncreases(a: seq<nat>, b: seq<nat>, n: nat)
    requires Increasing(a + b) && Below(a + b, n)
    ensures Increasing(a) && Below(a, n) && (b != [] ==> Below(a, b[0]) && b[0] < n)
  {
    var ab := a + b;
    assert forall i :: 0 <= i < |a| ==> ab[i] == a[i];
    if b != [] {
      assert ab[|a|] == b[0];
    }
  }

  /** In every run, whatever is cancelled, the handled messages are some of the received ones, in order. */
  lemma HandledInOrder<M>(actions: seq<Action>, messages: seq<M>)
    requires RunOf(INIT, actions).Some? && |messages| == RunOf(INIT, actions).value.received
    ensures Below(HandledNumbers(RunOf(INIT, actions).value), |messages|)
    ensures InOrder(MessagesAt(messages, HandledNumbers(RunOf(INIT, actions).value)), messages)
  {
    hide Next, RunOf, Invariant, HandledNumbers, NoLoss;
    EveryRunKeepsInvariant(actions);
    HandledIncrease(RunOf(INIT, actions).value);
  }

  /** Numbers that increase, stay below their count, and are that many, are all the numbers. */
  lemma {:induction false} NoGaps(ns: seq<nat>, n: nat)
    requires Increasing(ns) && Below(ns, n) && |ns| == n
    ensures forall i :: 0 <= i < n ==> ns[i] == i
    decreases n
  {
    if n > 0 {
      AtLeastIndex(ns, n - 1);
      var front := ns[..n - 1];
      assert forall i :: 0 <= i < n - 1 ==> front[i] == ns[i] && ns[i] < ns[n - 1];
      NoGaps(front, n - 1);
      assert forall i :: 0 <= i < n - 1 ==> ns[i] == front[i];
    }
  }

  lemma {:induction false} AtLeastIndex(ns: seq<nat>, i: nat)
    requires Increasing(ns) && i < |ns|
    ensures ns[i] >= i
  {
    if i > 0 {
      AtLeastIndex(ns, i - 1);
      assert ns[i - 1] < ns[i];
    }
  }

  /**
   As long as neither the client nor a worker was cancelled nothing is lost: the messages done are the first received
   ones in order, so only failed decryptions leave gaps in what is handled, and the received ones are those done, one at
   work, one buffered and one waiting for the buffer.
   */
  lemma NothingIsLost(actions: seq<Action>)
    requires RunOf(INIT, actions).Some? && Undisturbed(RunOf(INIT, actions).value)
    ensures var s := RunOf(INIT, actions).value;
            s.received == |s.done| + |Held(s)| + |Blocked(s.receiver)| && |Held(s)| <= 2 && |Blocked(s.receiver)| <= 1
            && (forall i :: 0 <= i < |s.done| ==> s.done[i].msg == i)
            && (forall i :: 0 <= i < s.received ==> Pipeline(s)[i] == i)
  {
    hide Next, RunOf, DoneNumbers;
    EveryRunKeepsInvariant(actions);
    var s := RunOf(INIT, actions).value;
    NoGaps(Pipeline(s), s.received);
    assert forall i :: 0 <= i < |s.done| ==> Pipeline(s)[i] == DoneNumbers(s.done)[i];
  }

  /** The client has no worker by these steps: after every Connect, Close cleared it. */
  predicate WorkerCleared(actions: seq<Action>) {
    forall i :: 0 <= i < |actions| && actions[i].Connect? ==> exists j :: i < j < |actions| && actions[j].CloseClears?
  }

  lemma ClearedOneMore(actions: seq<Action>, a: Action)
    ensures WorkerCleared(actions + [a]) <==> a.CloseClears? || (!a.Connect? && WorkerCleared(actions))
  {
    var more := actions + [a];
    assert more[|actions|] == a;
    assert forall i :: 0 <= i < |actions| ==> more[i] == actions[i];
    if WorkerCleared(more) && !a.CloseClears? {
      forall i | 0 <= i < |actions| && actions[i].Connect?
        ensures exists j :: i < j < |actions| && actions[j].CloseClears?
      {
        assert more[i].Connect?;
        var j :| i < j < |more| && more[j].CloseClears?;
        assert actions[j].CloseClears?;
      }
    }
    if !a.Connect? && WorkerCleared(actions) {
      forall i | 0 <= i < |more| && more[i].Connect?
        ensures exists j :: i < j < |more| && more[j].CloseClears?
      {
        var j :| i < j < |actions| && actions[j].CloseClears?;
        assert more[j].CloseClears?;
      }
    }
  }

  lemma StepClears(s: State, a: Action)
    requires Next(s, a).Some?
    ensures Next(s, a).value.current.None? <==> a.CloseClears? || (!a.Connect? && s.current.None?)
    ensures Next(s, a).value.receiver.Panicked? <==>
            s.receiver.Panicked? || (a.ReceiveMessage? && s.current.None?)
  {
  }

  /** Whether the client has a worker can be read off the steps. */
  lemma {:induction false} NoWorkerExactly(actions: seq<Action>)
    requires RunOf(INIT, actions).Some?
    ensures RunOf(INIT, actions).value.current.None? <==> WorkerCleared(actions)
  {
    hide Next, WorkerCleared;
    if actions == [] {
      NothingConnected();
    } else {
      var front, last := actions[..|actions| - 1], actions[|actions| - 1];
      NoWorkerExactly(front);
      StepClears(RunOf(INIT, front).value, last);
      ClearedOneMore(front, last);
      assert actions == front + [last];
    }
  }

  lemma NothingConnected()
    ensures WorkerCleared([])
  {
  }

  /** The step that makes the receiving loop panic. */
  predicate PanicsAt(actions: seq<Action>, j: nat) {
    j < |actions| && actions[j].ReceiveMessage? && WorkerCleared(actions[..j])
  }

  /**
   In every run the receiving loop panics exactly when some message is received while no Connect came after the last
   clearing of the worker.
   */
  lemma {:induction false} PanicsExactly(actions: seq<Action>)
    requires RunOf(INIT, actions).Some?
    ensures RunOf(INIT, actions).value.receiver.Panicked? <==> exists j :: PanicsAt(actions, j)
  {
    hide Next, WorkerCleared;
    if actions != [] {
      var n := |actions| - 1;
      var front, last := actions[..n], actions[n];
      PanicsExactly(front);
      NoWorkerExactly(front);
      StepClears(RunOf(INIT, front).value, last);
      forall j: nat | j < n
        ensures PanicsAt(front, j) <==> PanicsAt(actions, j)
      {
        assert front[..j] == actions[..j];
      }
      assert PanicsAt(actions, n) <==> last.ReceiveMessage? && WorkerCleared(front);
    }
  }

  /** The receiving loop only meets a missing worker after Close. */
  lemma NoPanicBeforeClose(actions: seq<Action>)
    requires RunOf(INIT, actions).Some? && !RunOf(INIT, actions).value.closed
    ensures !RunOf(INIT, actions).value.receiver.Panicked?
  {
    hide Next, RunOf, Pipeline;
    EveryRunKeepsInvariant(actions);
  }

  lemma RunMore(s: State, actions: seq<Action>, a: Action)
    ensures RunOf(s, actions + [a]) == match RunOf(s, actions) case None => None case Some(t) => Next(t, a)
  {
    hide Next;
    assert (actions + [a])[..|actions|] == actions;
  }

  /** A stream is open, and Close was called: its worker has exited and is no longer the client's. */
  const AFTER_CLOSE := State(Receiving, [Worker(Exited, None, true)], None, false, false, true, 0, [])

  lemma CloseWhileReceiving()
    ensures RunOf(INIT, [Connect, CloseCancels, Exit(0), CloseClears]) == Some(AFTER_CLOSE)
  {
    hide RunOf, Next;
    var s1 := State(Receiving, [Worker(Waiting, None, false)], Some(0), false, false, false, 0, []);
    var s2 := State(Receiving, [Worker(Waiting, None, true)], Some(0), false, true, true, 0, []);
    var s3 := State(Receiving, [Worker(Exited, None, true)], Some(0), false, true, true, 0, []);
    NoActions(INIT);
    FirstConnect(s1);
    CancelAndExit(s1, s2, s3);
    RunMore(INIT, [], Connect);
    assert [] + [Connect] == [Connect];
    RunMore(INIT, [Connect], CloseCancels);
    assert [Connect] + [CloseCancels] == [Connect, CloseCancels];
    RunMore(INIT, [Connect, CloseCancels], Exit(0));
    assert [Connect, CloseCancels] + [Exit(0)] == [Connect, CloseCancels, Exit(0)];
    RunMore(INIT, [Connect, CloseCancels, Exit(0)], CloseClears);
    assert [Connect, CloseCancels, Exit(0)] + [CloseClears] == [Connect, CloseCancels, Exit(0), CloseClears];
  }

  lemma FirstConnect(s1: State)
    requires s1 == State(Receiving, [Worker(Waiting, None, false)], Some(0), false, false, false, 0, [])
    ensures Next(INIT, Connect) == Some(s1)
  {
    assert INIT.workers + [Worker(Waiting, None, false)] == [Worker(Waiting, None, false)];
  }

  lemma CancelAndExit(s1: State, s2: State, s3: State)
    requires s1 == State(Receiving, [Worker(Waiting, None, false)], Some(0), false, false, false, 0, [])
    requires s2 == s1.(workers := [Worker(Waiting, None, true)], closing := true, closed := true)
    requires s3 == s2.(workers := [Worker(Exited, None, true)])
    ensures Next(s1, CloseCancels) == Some(s2) && Next(s2, Exit(0)) == Some(s3)
    ensures Next(s3, CloseClears) == Some(AFTER_CLOSE)
  {
    assert s1.workers[0 := Worker(Waiting, None, true)] == [Worker(Waiting, None, true)];
    assert s2.workers[0 := Worker(Exited, None, true)] == [Worker(Exited, None, true)];
  }

  /** Close can take the worker away from a stream that is still open; the next message then meets none. */
  lemma PanicAfterClose()
    ensures var s := RunOf(INIT, [Connect, CloseCancels, Exit(0), CloseClears] + [ReceiveMessage]);
            s.Some? && s.value.receiver.Panicked?
  {
    hide RunOf;
    CloseWhileReceiving();
    RunMore(INIT, [Connect, CloseCancels, Exit(0), CloseClears], ReceiveMessage);
  }

  lemma NoActions(s: State)
    ensures RunOf(s, []) == Some(s)
  {
  }

  // ---- progress ----

  /** Steps that move a message on. */
  predicate Moves(a: Action) {
    a.Send? || a.Take? || a.Decrypt? || a.HandlerReturns?
  }

  function PhaseWork(p: Phase): nat {
    if p.Decrypting? then 2 else if p.Handling? then 1 else 0
  }

  /** How many moves the messages on their way still need, at most. */
  function Work(s: State): nat {
    (if s.current.Some? && s.current.value < |s.workers|
     then PhaseWork(s.workers[s.current.value].phase) + (if s.workers[s.current.value].channel.Some? then 3 else 0)
     else 0)
    + if s.receiver.Adding? then 4 else 0
  }

  /** Every move takes work away. */
  lemma MovesMakeProgress(s: State, a: Action)
    requires Invariant(s) && Undisturbed(s) && Moves(a) && Next(s, a).Some?
    ensures Work(Next(s, a).value) < Work(s) && Undisturbed(Next(s, a).value)
    ensures Next(s, a).value.received == s.received
  {
    hide Pipeline, Increasing, Below;
  }

  /** While there is work some move can be taken: nothing deadlocks. */
  lemma SomeMoveIsPossible(s: State) returns (a: Action)
    requires Invariant(s) && Undisturbed(s) && Work(s) > 0
    ensures Moves(a) && Next(s, a).Some?
  {
    hide Pipeline, Increasing, Below;
    var i := s.current.value;
    match s.workers[i].phase
    case Decrypting(_) => a := Decrypt(i, true);
    case Handling(_) => a := HandlerReturns(i);
    case Waiting => a := if s.workers[i].channel.Some? then Take(i) else Send;
    case Exited => assert false;
  }

  /** However the moves are chosen, after at most that many every received message is done. */
  lemma {:induction false} MovesFinish(s: State, moves: seq<Action>)
    requires Invariant(s) && Undisturbed(s) && (forall a :: a in moves ==> Moves(a)) && RunOf(s, moves).Some?
    ensures var t := RunOf(s, moves).value;
            |moves| + Work(t) <= Work(s) && t.received == s.received && Undisturbed(t) && Invariant(t)
  {
    hide Next, Invariant, Undisturbed, Work, Moves;
    if moves != [] {
      var front, last := moves[..|moves| - 1], moves[|moves| - 1];
      assert last in moves;
      MovesFinish(s, front);
      MovesMakeProgress(RunOf(s, front).value, last);
      StepKeepsInvariant(RunOf(s, front).value, last);
    }
  }

  /** With no work left everything received is done. */
  lemma NoWorkMeansAllDone(s: State)
    requires Invariant(s) && NoLoss(s) && Undisturbed(s) && Work(s) == 0
    ensures |s.done| == s.received
  {
  }

  /** From any undisturbed state some moves lead to the state where all received messages are done. */
  lemma {:induction false} CanDrain(s: State) returns (moves: seq<Action>)
    requires Invariant(s) && NoLoss(s) && Undisturbed(s)
    ensures forall a :: a in moves ==> Moves(a)
    ensures RunOf(s, moves).Some? && RunOf(s, moves).value.received == s.received
    ensures |RunOf(s, moves).value.done| == s.received
    decreases Work(s)
  {
    hide Next, Invariant, NoLoss, Undisturbed, Moves, Work;
    if Work(s) == 0 {
      NoWorkMeansAllDone(s);
      moves := [];
    } else {
      var a := SomeMoveIsPossible(s);
      MovesMakeProgress(s, a);
      StepKeepsInvariant(s, a);
      StepKeepsMessages(s, a);
      var rest := CanDrain(Next(s, a).value);
      moves := [a] + rest;
      RunFirst(s, a, rest);
    }
  }

  lemma {:induction false} RunFirst(s: State, a: Action, rest: seq<Action>)
    requires Next(s, a).Some?
    ensures RunOf(s, [a] + rest) == RunOf(Next(s, a).value, rest)
  {
    hide Next;
    if rest == [] {
      assert [a][..0] == [];
      assert [a] + rest == [a];
    } else {
      var front := rest[..|rest| - 1];
      RunFirst(s, a, front);
      assert ([a] + rest)[..|rest|] == [a] + front;
    }
  }

  // ---- stopping ----

  /** Once the client is cancelled the receiving loop can leave its message and its stream, whatever the worker does. */
  lemma ReceiverStops(s: State) returns (actions: seq<Action>)
    requires s.clientCancelled && !s.receiver.Panicked?
    ensures RunOf(s, actions) == Some(s.(receiver := Disconnected))
  {
    hide RunOf;
    NoActions(s);
    match s.receiver
    case Disconnected => actions := [];
    case Receiving =>
      actions := [StreamEnds];
      RunMore(s, [], StreamEnds);
      assert [] + [StreamEnds] == [StreamEnds];
    case Adding(_, _) =>
      actions := [GiveUp, StreamEnds];
      RunMore(s, [], GiveUp);
      RunMore(s, [GiveUp], StreamEnds);
      assert [] + [GiveUp] == [GiveUp] && [GiveUp] + [StreamEnds] == [GiveUp, StreamEnds];
  }

  /** After a stream ended the next one is served by the worker that is there, or by a new one. */
  lemma StreamIsRenewed(s: State)
    requires s.receiver.Receiving?
    ensures var t := RunOf(s, [StreamEnds, Connect]);
            t.Some? && t.value.receiver.Receiving? && t.value.current.Some? && t.value.done == s.done
            && (s.current.Some? ==> t.value == s)
            && (s.current.None? ==> t.value.current == Some(|s.workers|)
                                    && t.value.workers == s.workers + [Worker(Waiting, None, false)])
  {
    hide RunOf;
    NoActions(s);
    RunMore(s, [], StreamEnds);
    RunMore(s, [StreamEnds], Connect);
    assert [] + [StreamEnds] == [StreamEnds] && [StreamEnds] + [Connect] == [StreamEnds, Connect];
  }

  /** The step that ends the work at hand of a worker whose context is cancelled, if there is any. */
  function Ending(s: State, i: nat): seq<Action>
    requires i < |s.workers|
  {
    match s.workers[i].phase
    case Decrypting(_) => [Decrypt(i, false), Exit(i)]
    case Handling(_) => [HandlerReturns(i), Exit(i)]
    case Waiting => [Exit(i)]
    case Exited => []
  }

  lemma WorkerEnds(s: State, i: nat)
    requires i < |s.workers| && s.workers[i].cancelled
    ensures var t := RunOf(s, Ending(s, i));
            t.Some? && t.value.closing == s.closing && t.value.current == s.current
            && |t.value.workers| == |s.workers| && t.value.workers[i].phase.Exited?
            && forall j :: 0 <= j < |s.workers| && j != i ==> t.value.workers[j] == s.workers[j]
  {
    hide RunOf;
    NoActions(s);
    match s.workers[i].phase
    case Decrypting(_) =>
      RunMore(s, [], Decrypt(i, false));
      RunMore(s, [Decrypt(i, false)], Exit(i));
      assert [] + [Decrypt(i, false)] == [Decrypt(i, false)];
      assert [Decrypt(i, false)] + [Exit(i)] == [Decrypt(i, false), Exit(i)];
    case Handling(_) =>
      RunMore(s, [], HandlerReturns(i));
      RunMore(s, [HandlerReturns(i)], Exit(i));
      assert [] + [HandlerReturns(i)] == [HandlerReturns(i)];
      assert [HandlerReturns(i)] + [Exit(i)] == [HandlerReturns(i), Exit(i)];
    case Waiting =>
      RunMore(s, [], Exit(i));
      assert [] + [Exit(i)] == [Exit(i)];
    case Exited =>
  }

  lemma CancelOnClose(s: State)
    ensures Next(s, CloseCancels).Some?
    ensures var t := Next(s, CloseCancels).value;
            t.closing && t.current == s.current && |t.workers| == |s.workers|
            && (s.workers != [] ==> t.workers[|s.workers| - 1] == s.workers[|s.workers| - 1].(cancelled := true))
            && forall i :: 0 <= i < |s.workers| - 1 ==> t.workers[i] == s.workers[i]
  {
  }

  /** Close can finish from every reachable state: it cancels the worker, which ends its work and exits. */
  lemma CloseFinishes(s: State) returns (actions: seq<Action>)
    requires OneWorker(s)
    ensures actions != [] && actions[0] == CloseCancels && actions[|actions| - 1] == CloseClears
    ensures forall i :: 0 < i < |actions| - 1 ==> actions[i].Decrypt? || actions[i].HandlerReturns? || actions[i].Exit?
    ensures var t := RunOf(s, actions);
            t.Some? && !t.value.closing && t.value.current.None? && AllExited(t.value.workers)
  {
    hide RunOf, Next;
    CancelOnClose(s);
    var t := Next(s, CloseCancels).value;
    var between := WorkersEnd(s, t);
    actions := [CloseCancels] + between + [CloseClears];
    RunFirst(s, CloseCancels, between);
    RunMore(s, [CloseCancels] + between, CloseClears);
    ClearOnClose(RunOf(t, between).value);
  }

  lemma ClearOnClose(s: State)
    requires s.closing && AllExited(s.workers)
    ensures Next(s, CloseClears) == Some(s.(closing := false, current := None))
  {
  }

  lemma WorkersEnd(s: State, t: State) returns (actions: seq<Action>)
    requires OneWorker(s) && t.closing && |t.workers| == |s.workers|
    requires s.workers != [] ==> t.workers[|s.workers| - 1] == s.workers[|s.workers| - 1].(cancelled := true)
    requires forall i :: 0 <= i < |s.workers| - 1 ==> t.workers[i] == s.workers[i]
    ensures forall a :: a in actions ==> a.Decrypt? || a.HandlerReturns? || a.Exit?
    ensures RunOf(t, actions).Some? && RunOf(t, actions).value.closing && AllExited(RunOf(t, actions).value.workers)
  {
    hide RunOf, Next;
    NoActions(t);
    if t.workers == [] {
      actions := [];
    } else {
      actions := Ending(t, |t.workers| - 1);
      WorkerEnds(t, |t.workers| - 1);
    }
  }

  /** A message waits for the buffer exactly while the slot is taken. */
  lemma SendExactly(s: State)
    requires s.receiver.Adding? && s.receiver.worker < |s.workers|
    ensures Next(s, Send).Some? <==> s.workers[s.receiver.worker].channel.None?
    ensures Next(s, Send).Some? ==>
              Next(s, Send).value.workers[s.receiver.worker].channel == Some(s.receiver.msg)
              && Next(s, Send).value.receiver.Receiving?
  {
  }
}
