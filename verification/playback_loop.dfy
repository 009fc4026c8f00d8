/** The playback engine as a single-threaded state machine: construction,
    `SendAsync`, `Dispose`, and one step of the request-processing loop. The
    background task and its interleaving with callers become a choice of
    which action runs next. */
module PlaybackLoop {
  import opened Wrappers
  import opened Messages
  import opened Recording
  import opened Matcher

  datatype Termination = Succeeded | Failed

  /** Where the loop is: waiting at the top of `while`, inside the `foreach`
      over a chosen group (the request being answered and the members not yet
      handled), or returned. */
  datatype Phase =
    | Idle
    | Emitting(request: Message, pending: seq<Entry>)
    | Stopped(how: Termination)

  datatype Engine = Engine(
    pool: seq<Entry>,            // _playbackMessages
    queue: seq<Message>,         // _processRequests, head first
    sent: seq<Message>,          // everything published on SentMessages
    received: seq<Message>,      // everything published on ReceivedMessages
    phase: Phase,
    cancelled: bool,             // _cancellationTokenSource.IsCancellationRequested
    sentDisposed: bool,          // _sentMessages disposed
    receivedDisposed: bool)      // _receivedMessages disposed

  /** The constructor: the pool is the whole recording and the loop is started. */
  function Create(recording: seq<Message>): (e: Engine)
    ensures MessagesOf(e.pool) == recording && UniqueIds(e.pool)
    ensures e.queue == [] && e.sent == [] && e.received == []
    ensures e.phase == Idle && !e.cancelled && !e.sentDisposed && !e.receivedDisposed
  {
    Engine(Load(recording), [], [], [], Idle, false, false, false)
  }

  /** `OnNext` on a disposed subject throws `ObjectDisposedException`. */
  datatype SendError = ObjectDisposed

  /** `SendAsync`: publish on the sent stream and enqueue for the loop. */
  function SendAsync(e: Engine, message: Message): (r: Result<Engine, SendError>)
    ensures r.Failure? <==> e.sentDisposed
    // the message goes to the end of the sent log and to the tail of the queue ...
    ensures r.Success? ==> r.value.sent == e.sent + [message] && r.value.queue == e.queue + [message]
    // ... and nothing else changes
    ensures r.Success? ==> r.value.(sent := e.sent, queue := e.queue) == e
  {
    if e.sentDisposed then Failure(ObjectDisposed)
    else Success(e.(sent := e.sent + [message], queue := e.queue + [message]))
  }

  /** `Dispose`: request cancellation, then dispose both subjects. */
  function Dispose(e: Engine): (r: Engine)
    ensures r.cancelled && r.sentDisposed && r.receivedDisposed
    ensures r.(cancelled := e.cancelled, sentDisposed := e.sentDisposed,
               receivedDisposed := e.receivedDisposed) == e
  {
    e.(cancelled := true, sentDisposed := true, receivedDisposed := true)
  }

  /** One step of `RequestProcessingLoop`. */
  function LoopStep(e: Engine): Engine
  {
    match e.phase
    case Stopped(_) => e
    case Idle =>
      if e.cancelled then e.(phase := Stopped(Succeeded))
      else if |e.queue| == 0 then e  // Task.Delay(50) and try again
      else
        var request := e.queue[0];
        (match SelectGroup(e.pool, request.header.messageType)
         case None => e.(queue := e.queue[1..])
         case Some(g) => e.(queue := e.queue[1..], phase := Emitting(request, g.members)))
    case Emitting(request, pending) =>
      if |pending| == 0 then e.(phase := Idle)
      else
        var m := pending[0];
        var pool' := RemoveFirst(e.pool, m.id);
        if m.msg.parentHeader.None? then
          // reading Version of a null parent header throws; the loop returns
          e.(pool := pool', phase := Stopped(Failed))
        else if e.receivedDisposed then
          e.(pool := pool', phase := Idle)
        else
          e.(pool := pool', received := e.received + [Reply(request, m.msg)],
             phase := Emitting(request, pending[1..]))
  }

  /** What one loop step may and may not do. */
  lemma LoopStepFrame(e: Engine)
    ensures var r := LoopStep(e);
      // the loop never touches the sent log or the flags
      && r.sent == e.sent && r.cancelled == e.cancelled
      && r.sentDisposed == e.sentDisposed && r.receivedDisposed == e.receivedDisposed
      // the received log only grows, one reply at a time, and not at all once disposed
      && e.received <= r.received && |r.received| <= |e.received| + 1
      && (e.receivedDisposed ==> r.received == e.received)
      // requests leave the queue from its head, one at a time
      && (r.queue == e.queue || (|e.queue| > 0 && r.queue == e.queue[1..]))
      // ... and only at the loop head, never in the middle of a group
      && (!e.phase.Idle? ==> r.queue == e.queue)
      // the pool only shrinks
      && |r.pool| <= |e.pool| && (forall x :: x in r.pool ==> x in e.pool)
      // a stopped loop stays stopped; it stops normally only when cancelled at the loop head
      && (e.phase.Stopped? ==> r == e)
      && (r.phase == Stopped(Succeeded) && !e.phase.Stopped? ==> e.phase == Idle && e.cancelled)
  {
    match e.phase
    case Stopped(_) =>
    case Idle =>
      if !e.cancelled && |e.queue| > 0 {
        var t := e.queue[0].header.messageType;
        if SelectGroup(e.pool, t).None? {
          assert LoopStep(e) == e.(queue := e.queue[1..]);
        } else {
          var g := SelectGroup(e.pool, t).value;
          assert LoopStep(e) == e.(queue := e.queue[1..], phase := Emitting(e.queue[0], g.members));
        }
      }
    case Emitting(request, pending) =>
      if |pending| > 0 {
        var m := pending[0];
        var pool' := RemoveFirst(e.pool, m.id);
        if m.msg.parentHeader.None? {
          assert LoopStep(e) == e.(pool := pool', phase := Stopped(Failed));
        } else if e.receivedDisposed {
          assert LoopStep(e) == e.(pool := pool', phase := Idle);
        } else {
          var reply := Reply(request, m.msg);
          assert LoopStep(e) == e.(pool := pool', received := e.received + [reply],
                                   phase := Emitting(request, pending[1..]));
          assert e.received <= e.received + [reply];
        }
      }
  }

  /** A caller's `SendAsync` and a loop step commute, except when the loop is
      polling an empty queue (there the send gives it something to dequeue):
      requests arriving while a group is emitted, or behind others, neither
      interrupt nor reorder what the loop does. */
  lemma SendCommutesWithLoopStep(e: Engine, message: Message)
    requires !e.sentDisposed
    requires !(e.phase == Idle && !e.cancelled && |e.queue| == 0)
    ensures SendAsync(e, message).Success? && SendAsync(LoopStep(e), message).Success?
    ensures LoopStep(SendAsync(e, message).value) == SendAsync(LoopStep(e), message).value
  {
    if e.phase == Idle && !e.cancelled {
      assert (e.queue + [message])[0] == e.queue[0];
      assert (e.queue + [message])[1..] == e.queue[1..] + [message];
    }
  }

  /** What can happen next: a caller sends, a caller disposes, or the loop
      takes a step. A send that throws leaves the engine as it was. */
  datatype Action = Send(message: Message) | DisposeCall | Work

  function Perform(e: Engine, a: Action): Engine
  {
    match a
    case Send(m) => (match SendAsync(e, m) case Success(e') => e' case Failure(_) => e)
    case DisposeCall => Dispose(e)
    case Work => LoopStep(e)
  }

  function Apply(e: Engine, actions: seq<Action>): Engine
    decreases |actions|
  {
    if |actions| == 0 then e else Apply(Perform(e, actions[0]), actions[1..])
  }

  /** `f` applied `n` times. */
  function Iterate<T>(f: T -> T, x: T, n: nat): T
    decreases n
  {
    if n == 0 then x else Iterate(f, f(x), n - 1)
  }

  /** `n` loop steps with no caller in between. */
  function Run(e: Engine, n: nat): Engine
  {
    Iterate(LoopStep, e, n)
  }

  /** The engine invariant: pool identities are distinct, and a group being
      emitted consists of distinct entries still in the pool, each with a
      parent header. */
  predicate Valid(e: Engine)
  {
    && UniqueIds(e.pool)
    && (e.phase.Emitting? ==>
          && Answerable(e.phase.pending)
          && UniqueIds(e.phase.pending)
          && forall x :: x in e.phase.pending ==> x in e.pool)
  }

  lemma LoopStepKeepsValid(e: Engine)
    requires Valid(e)
    ensures Valid(LoopStep(e))
  {
    match e.phase
    case Stopped(_) =>
    case Idle =>
      if !e.cancelled && |e.queue| > 0 {
        var t := e.queue[0].header.messageType;
        if SelectGroup(e.pool, t).Some? {
          var g := SelectGroup(e.pool, t).value;
          SelectedGroupAnswersType(e.pool, t);
          SelectGroupIsFirstKeyOfType(e.pool, t);
          WithKeyKeepsUnique(e.pool, g.key);
        }
      }
    case Emitting(request, pending) =>
      if |pending| > 0 {
        RemoveFirstIsDropId(e.pool, pending[0].id);
        DropIdsKeepsUnique(e.pool, {pending[0].id});
        UniqueTail(pending);
        TailStaysInPool(e.pool, pending);
      }
  }

  lemma {:induction false} ApplyKeepsValid(e: Engine, actions: seq<Action>)
    requires Valid(e)
    ensures Valid(Apply(e, actions))
    decreases |actions|
  {
    if |actions| > 0 {
      if actions[0].Work? {
        LoopStepKeepsValid(e);
      }
      ApplyKeepsValid(Perform(e, actions[0]), actions[1..]);
    }
  }

  /** Matched groups always carry parent headers, so whatever callers do, the
      loop of a freshly constructed engine never stops on an exception. */
  lemma NeverFails(recording: seq<Message>, actions: seq<Action>)
    ensures Apply(Create(recording), actions).phase != Stopped(Failed)
  {
    NeverFailsFrom(Create(recording), actions);
  }

  lemma {:induction false} NeverFailsFrom(e: Engine, actions: seq<Action>)
    requires Valid(e) && e.phase != Stopped(Failed)
    ensures Apply(e, actions).phase != Stopped(Failed)
    decreases |actions|
  {
    if |actions| > 0 {
      var e' := Perform(e, actions[0]);
      if actions[0].Work? {
        LoopStepKeepsValid(e);
      }
      NeverFailsFrom(e', actions[1..]);
    }
  }

  /** The recorded entry an action takes out of the pool: a loop step over a
      group member removes that member (line 69), whatever happens after;
      nothing else removes anything. */
  function StepTaken(e: Engine, a: Action): (taken: seq<Entry>)
    ensures |taken| <= 1
  {
    if a.Work? && e.phase.Emitting? && |e.phase.pending| > 0 then [e.phase.pending[0]] else []
  }

  /** The recorded entries taken out of the pool over a run of actions, in
      the order they were taken. */
  function Taken(e: Engine, actions: seq<Action>): seq<Entry>
    decreases |actions|
  {
    if |actions| == 0 then []
    else StepTaken(e, actions[0]) + Taken(Perform(e, actions[0]), actions[1..])
  }

  lemma ApplyCons(e: Engine, actions: seq<Action>)
    requires |actions| > 0
    ensures Apply(e, actions) == Apply(Perform(e, actions[0]), actions[1..])
    ensures Taken(e, actions) == StepTaken(e, actions[0]) + Taken(Perform(e, actions[0]), actions[1..])
    ensures Published(e, actions) == StepPublished(e, actions[0]) + Published(Perform(e, actions[0]), actions[1..])
  {
  }

  /** An action that takes no entry leaves the pool and the received log alone. */
  lemma StepWithoutTaking(e: Engine, a: Action)
    requires StepTaken(e, a) == []
    ensures Perform(e, a).pool == e.pool && Perform(e, a).received == e.received
  {
    if a.Work? {
      match e.phase
      case Stopped(_) =>
      case Idle =>
      case Emitting(_, _) =>
    }
  }

  /** A loop step over a group member removes exactly that member and
      publishes at most one reply. */
  lemma StepTaking(e: Engine, a: Action)
    requires Valid(e) && StepTaken(e, a) != []
    ensures var x := e.phase.pending[0];
      && x in e.pool
      && Perform(e, a).pool == DropIds(e.pool, {x.id})
      && |Perform(e, a).received| <= |e.received| + 1
  {
    var x := e.phase.pending[0];
    assert x in e.phase.pending;
    RemoveFirstIsDropId(e.pool, x.id);
    LoopStepFrame(e);
  }

  /** One action takes at most one entry, takes it out of the pool for good,
      keeps the engine valid, and publishes a reply only for an entry it took:
      the received log grows by exactly the replies built from that entry. */
  lemma StepConsumesOnce(e: Engine, a: Action)
    requires Valid(e)
    ensures var taken := StepTaken(e, a);
      && Valid(Perform(e, a))
      && ConsumedFrom(e.pool, Outcome(Perform(e, a).pool, taken, MessagesOf(taken)))
      && |Perform(e, a).received| <= |e.received| + |taken|
      && Perform(e, a).received == e.received + RepliesOf(StepPublished(e, a))
      && SourcesOf(StepPublished(e, a)) <= taken
  {
    StepPublishes(e, a);
    var taken := StepTaken(e, a);
    if a.Work? {
      LoopStepKeepsValid(e);
    }
    if taken == [] {
      StepWithoutTaking(e, a);
      DropAbsentIds(e.pool, {});
      assert IdSet(taken) == {};
    } else {
      var x := e.phase.pending[0];
      StepTaking(e, a);
      assert IdSet(taken) == {x.id};
      DropIdsKeepsUnique(e.pool, {x.id});
      assert |DropIds(e.pool, {x.id})| + 1 == |e.pool| by {
        RemoveFirstIsDropId(e.pool, x.id);
        assert x.id in IdSet(e.pool);
      }
    }
  }

  /** Chaining consumption over plain sequences of entries. */
  lemma ConsumptionChains(pool: seq<Entry>, mid: seq<Entry>, last: seq<Entry>,
                          first: seq<Entry>, second: seq<Entry>)
    requires UniqueIds(pool)
    requires ConsumedFrom(pool, Outcome(mid, first, MessagesOf(first)))
    requires ConsumedFrom(mid, Outcome(last, second, MessagesOf(second)))
    ensures ConsumedFrom(pool, Outcome(last, first + second, MessagesOf(first + second)))
  {
    ConsumedFromChains(pool, Outcome(mid, first, MessagesOf(first)), Outcome(last, second, MessagesOf(second)));
  }

  /** At-most-once consumption over a whole lifetime: whatever callers send or
      dispose, and wherever that falls between loop steps, the entries taken
      out of the pool are distinct recorded entries, none of them is ever in
      the pool again, the pool is the original minus exactly them, in order,
      and no more replies are published than entries taken. */
  lemma {:induction false} LifetimeConsumesAtMostOnce(e: Engine, actions: seq<Action>)
    requires Valid(e)
    ensures var taken := Taken(e, actions);
      && ConsumedFrom(e.pool, Outcome(Apply(e, actions).pool, taken, MessagesOf(taken)))
      && |Apply(e, actions).received| <= |e.received| + |taken|
    decreases |actions|
  {
    if |actions| == 0 {
      DropAbsentIds(e.pool, {});
      assert IdSet([]) == {};
    } else {
      var e1 := Perform(e, actions[0]);
      var first := StepTaken(e, actions[0]);
      var second := Taken(e1, actions[1..]);
      var last := Apply(e1, actions[1..]);
      assert Apply(e, actions) == last && Taken(e, actions) == first + second by {
        ApplyCons(e, actions);
      }
      StepConsumesOnce(e, actions[0]);
      LifetimeConsumesAtMostOnce(e1, actions[1..]);
      ConsumptionChains(e.pool, e1.pool, last.pool, first, second);
    }
  }

  /** From construction: every recorded message is taken at most once over
      the engine's lifetime. */
  lemma FromCreateConsumesAtMostOnce(recording: seq<Message>, actions: seq<Action>)
    ensures var e := Create(recording);
      var taken := Taken(e, actions);
      && ConsumedFrom(Load(recording), Outcome(Apply(e, actions).pool, taken, MessagesOf(taken)))
      && |Apply(e, actions).received| <= |taken| <= |recording|
  {
    LifetimeConsumesAtMostOnce(Create(recording), actions);
  }

  /** A reply on the received stream together with what it was built from:
      the live request it answers and the recorded entry it restamps. */
  datatype Publication = Publication(request: Message, source: Entry)

  /** Every source carries a parent header, so it can be restamped. */
  predicate Restampable(ps: seq<Publication>)
  {
    forall p :: p in ps ==> p.source.msg.parentHeader.Some?
  }

  function RepliesOf(ps: seq<Publication>): (rs: seq<Message>)
    requires Restampable(ps)
    ensures |rs| == |ps|
  {
    seq(|ps|, i requires 0 <= i < |ps| => Reply(ps[i].request, ps[i].source.msg))
  }

  function SourcesOf(ps: seq<Publication>): (es: seq<Entry>)
    ensures |es| == |ps|
  {
    seq(|ps|, i requires 0 <= i < |ps| => ps[i].source)
  }

  lemma PublicationsAppend(a: seq<Publication>, b: seq<Publication>)
    requires Restampable(a) && Restampable(b)
    ensures RepliesOf(a + b) == RepliesOf(a) + RepliesOf(b)
    ensures SourcesOf(a + b) == SourcesOf(a) + SourcesOf(b)
  {
    assert RepliesOf(a + b) == RepliesOf(a) + RepliesOf(b);
    assert SourcesOf(a + b) == SourcesOf(a) + SourcesOf(b);
  }

  /** What an action publishes: only a loop step over a group member with a
      parent header and a live received stream publishes (lines 77-90), and
      the member it publishes is the one it takes out of the pool. */
  function StepPublished(e: Engine, a: Action): (ps: seq<Publication>)
    ensures Restampable(ps)
    ensures SourcesOf(ps) <= StepTaken(e, a)
  {
    if a.Work? && e.phase.Emitting? && |e.phase.pending| > 0
       && e.phase.pending[0].msg.parentHeader.Some? && !e.receivedDisposed
    then [Publication(e.phase.request, e.phase.pending[0])]
    else []
  }

  /** What a run of actions publishes, in order. */
  function Published(e: Engine, actions: seq<Action>): (ps: seq<Publication>)
    ensures Restampable(ps)
    decreases |actions|
  {
    if |actions| == 0 then []
    else StepPublished(e, actions[0]) + Published(Perform(e, actions[0]), actions[1..])
  }

  /** The received log grows by exactly the replies an action publishes. */
  lemma StepPublishes(e: Engine, a: Action)
    ensures Perform(e, a).received == e.received + RepliesOf(StepPublished(e, a))
  {
    var ps := StepPublished(e, a);
    if ps == [] {
      LoopStepFrame(e);
      assert RepliesOf(ps) == [];
    } else {
      assert RepliesOf(ps) == [Reply(e.phase.request, e.phase.pending[0].msg)];
    }
  }

  lemma {:induction false} RunPublishes(e: Engine, actions: seq<Action>)
    ensures Apply(e, actions).received == e.received + RepliesOf(Published(e, actions))
    decreases |actions|
  {
    if |actions| == 0 {
      assert RepliesOf([]) == [];
    } else {
      var e1 := Perform(e, actions[0]);
      ApplyCons(e, actions);
      StepPublishes(e, actions[0]);
      RunPublishes(e1, actions[1..]);
      PublicationsAppend(StepPublished(e, actions[0]), Published(e1, actions[1..]));
    }
  }

  lemma {:induction false} RunPublishesTakenEntries(e: Engine, actions: seq<Action>)
    requires Valid(e)
    ensures forall x :: x in SourcesOf(Published(e, actions)) ==> x in Taken(e, actions)
    ensures UniqueIds(SourcesOf(Published(e, actions)))
    decreases |actions|
  {
    if |actions| == 0 {
      assert SourcesOf([]) == [];
    } else {
      var e1 := Perform(e, actions[0]);
      var first := StepTaken(e, actions[0]);
      var second := Taken(e1, actions[1..]);
      var ps := StepPublished(e, actions[0]);
      var rest := Published(e1, actions[1..]);
      ApplyCons(e, actions);
      PublicationsAppend(ps, rest);
      StepConsumesOnce(e, actions[0]);
      RunPublishesTakenEntries(e1, actions[1..]);
      if ps != [] {
        var x := first[0];
        assert SourcesOf(ps) == [x];
        LifetimeConsumesAtMostOnce(e, actions);
        assert (first + second)[0] == x && (first + second)[1..] == second;
        UniqueTail(first + second);
        assert x.id !in IdSet(SourcesOf(rest)) by {
          forall y | y in SourcesOf(rest)
            ensures y.id != x.id
          {
            assert y in second;
          }
        }
        UniqueCons(x, SourcesOf(rest));
      }
    }
  }

  /** Each recorded entry is published at most once over a whole lifetime:
      whatever callers send or dispose, and wherever that falls between loop
      steps, the received log grows by exactly the published replies, each
      built from the live request it answers and an entry the loop took out
      of the pool, and no two replies are built from the same entry. */
  lemma LifetimeRepliesAtMostOnce(e: Engine, actions: seq<Action>)
    requires Valid(e)
    ensures var r := Apply(e, actions);
      var ps := Published(e, actions);
      && e.received <= r.received
      && r.received == e.received + RepliesOf(ps)
      && (forall p :: p in ps ==> p.source in Taken(e, actions) && p.source in e.pool)
      && UniqueIds(SourcesOf(ps))
  {
    var ps := Published(e, actions);
    RunPublishes(e, actions);
    RunPublishesTakenEntries(e, actions);
    LifetimeConsumesAtMostOnce(e, actions);
    forall p | p in ps
      ensures p.source in Taken(e, actions)
    {
      var i :| 0 <= i < |ps| && ps[i] == p;
      assert SourcesOf(ps)[i] == p.source;
    }
  }

  /** From construction: every reply on the received stream is the recorded
      message at some position restamped for a live request, and no position
      of the recording is replayed twice. */
  lemma FromCreateRepliesAtMostOnce(recording: seq<Message>, actions: seq<Action>)
    ensures var e := Create(recording);
      var ps := Published(e, actions);
      && Apply(e, actions).received == RepliesOf(ps)
      && (forall p :: p in ps ==> p.source.id < |recording| && p.source.msg == recording[p.source.id])
      && UniqueIds(SourcesOf(ps))
  {
    var e := Create(recording);
    var ps := Published(e, actions);
    LifetimeRepliesAtMostOnce(e, actions);
    forall p | p in ps
      ensures p.source.id < |recording| && p.source.msg == recording[p.source.id]
    {
      var k :| 0 <= k < |e.pool| && e.pool[k] == p.source;
    }
  }

  /** Disposal quiescence: once disposed, nothing more is received or sent,
      whatever callers and the loop do afterwards. */
  lemma {:induction false} DisposalQuiescence(e: Engine, actions: seq<Action>)
    ensures Apply(Dispose(e), actions).received == e.received
    ensures Apply(Dispose(e), actions).sent == e.sent
  {
    QuiescentOnceDisposed(Dispose(e), actions);
  }

  lemma {:induction false} QuiescentOnceDisposed(e: Engine, actions: seq<Action>)
    requires e.receivedDisposed && e.sentDisposed
    ensures Apply(e, actions).received == e.received
    ensures Apply(e, actions).sent == e.sent
    decreases |actions|
  {
    if |actions| > 0 {
      LoopStepFrame(e);
      QuiescentOnceDisposed(Perform(e, actions[0]), actions[1..]);
    }
  }

  /** After the first step following `Dispose`, the loop has returned normally. */
  lemma DisposeStopsLoop(e: Engine)
    requires e.phase == Idle
    ensures LoopStep(Dispose(e)).phase == Stopped(Succeeded)
    ensures LoopStep(Dispose(e)).pool == e.pool
  {
  }

  /** Disposal in the middle of a group: the member being handled leaves the
      pool without being emitted, the `foreach` breaks, the loop then sees
      the cancellation and returns, and the later members stay in the pool. */
  lemma DisposedMidGroup(e: Engine)
    requires Valid(e) && e.phase.Emitting? && |e.phase.pending| > 0
    ensures var e' := Run(Dispose(e), 2);
      && e'.phase == Stopped(Succeeded)
      && e'.received == e.received
      && e'.pool == DropIds(e.pool, {e.phase.pending[0].id})
      && |e'.pool| == |e.pool| - 1
      && forall x :: x in e.phase.pending[1..] ==> x in e'.pool
  {
    var pending := e.phase.pending;
    var d := Dispose(e);
    assert pending[0] in pending;
    assert pending[0].id in IdSet(e.pool);
    RemoveFirstIsDropId(e.pool, pending[0].id);
    TailStaysInPool(e.pool, pending);
    assert Run(d, 2) == LoopStep(LoopStep(d)) by {
      RunStep(d, 1);
      RunStep(LoopStep(d), 0);
    }
  }

  lemma {:induction false} IterateAdds<T>(f: T -> T, x: T, a: nat, b: nat)
    ensures Iterate(f, x, a + b) == Iterate(f, Iterate(f, x, a), b)
    decreases a
  {
    if a > 0 {
      IterateAdds(f, f(x), a - 1, b);
    }
  }

  /** `a` steps to `y` followed by `b` steps to `z` is `a + b` steps to `z`. */
  lemma IterateChain<T>(f: T -> T, x: T, y: T, z: T, a: nat, b: nat)
    requires Iterate(f, x, a) == y && Iterate(f, y, b) == z
    ensures Iterate(f, x, a + b) == z
  {
    IterateAdds(f, x, a, b);
  }

  lemma RunAdds(e: Engine, a: nat, b: nat)
    ensures Run(e, a + b) == Run(Run(e, a), b)
  {
    IterateAdds(LoopStep, e, a, b);
  }

  lemma RunStep(e: Engine, n: nat)
    ensures Run(e, n + 1) == Run(LoopStep(e), n)
  {
  }

  lemma EmitStep(e: Engine)
    requires e.phase.Emitting? && |e.phase.pending| > 0 && !e.receivedDisposed
    requires e.phase.pending[0].msg.parentHeader.Some?
    ensures var m := e.phase.pending[0];
      LoopStep(e) == e.(pool := RemoveFirst(e.pool, m.id),
                        received := e.received + [Reply(e.phase.request, m.msg)],
                        phase := Emitting(e.phase.request, e.phase.pending[1..]))
  {
  }

  /** Emitting a group with the received stream live takes one step per member
      plus one to leave the `foreach`, and publishes exactly the replies the
      pure matcher computes, in order. */
  lemma {:induction false} EmittingPublishesGroup(e: Engine)
    requires e.phase.Emitting? && !e.receivedDisposed && Answerable(e.phase.pending)
    ensures var o := EmitGroup(e.pool, e.phase.request, e.phase.pending, false);
      Run(e, |e.phase.pending| + 1)
        == e.(phase := Idle, pool := o.pool, received := e.received + o.replies)
    decreases |e.phase.pending|
  {
    var request := e.phase.request;
    var pending := e.phase.pending;
    if |pending| == 0 {
      assert Run(e, 1) == LoopStep(e) by {
        RunStep(e, 0);
      }
      assert e.received + [] == e.received;
    } else {
      var m := pending[0];
      var e1 := e.(pool := RemoveFirst(e.pool, m.id), received := e.received + [Reply(request, m.msg)],
                   phase := Emitting(request, pending[1..]));
      var rest := EmitGroup(e1.pool, request, pending[1..], false);
      var y := e1.(phase := Idle, pool := rest.pool, received := e1.received + rest.replies);
      var o := EmitGroup(e.pool, request, pending, false);
      assert Iterate(LoopStep, e, 1) == e1 by {
        assert m in pending;
        EmitStep(e);
      }
      assert Iterate(LoopStep, e1, |pending|) == y by {
        EmittingPublishesGroup(e1);
      }
      assert y == e.(phase := Idle, pool := o.pool, received := e.received + o.replies) by {
        EmitTotals(e, e1);
      }
      IterateChain(LoopStep, e, e1, y, 1, |pending|);
    }
  }

  /** A request sent while a group is being emitted waits in the queue: the
      group is emitted exactly as without it, and the request is only queued
      behind the others. */
  lemma {:induction false} SendDuringGroup(e: Engine, message: Message)
    requires e.phase.Emitting? && !e.receivedDisposed && !e.sentDisposed && Answerable(e.phase.pending)
    ensures !Run(e, |e.phase.pending| + 1).sentDisposed
    ensures Run(SendAsync(e, message).value, |e.phase.pending| + 1)
              == SendAsync(Run(e, |e.phase.pending| + 1), message).value
    decreases |e.phase.pending|
  {
    var pending := e.phase.pending;
    var n := |pending|;
    var s := SendAsync(e, message).value;
    var e1 := LoopStep(e);
    assert LoopStep(s) == SendAsync(e1, message).value && !e1.sentDisposed by {
      SendCommutesWithLoopStep(e, message);
      LoopStepFrame(e);
    }
    assert Run(s, n + 1) == Run(LoopStep(s), n) && Run(e, n + 1) == Run(e1, n) by {
      RunStep(s, n);
      RunStep(e, n);
    }
    if n > 0 {
      assert e1.phase.Emitting? && e1.phase.pending == pending[1..] && e1.receivedDisposed == e.receivedDisposed by {
        assert pending[0] in pending;
        EmitStep(e);
      }
      SendDuringGroup(e1, message);
    }
  }

  /** Outcome of emitting a group split at its first member. */
  lemma EmitTotals(e: Engine, e1: Engine)
    requires e.phase.Emitting? && Answerable(e.phase.pending) && |e.phase.pending| > 0
    requires var request := e.phase.request;
      var m := e.phase.pending[0];
      e1 == e.(pool := RemoveFirst(e.pool, m.id), received := e.received + [Reply(request, m.msg)],
               phase := Emitting(request, e.phase.pending[1..]))
    ensures var request := e.phase.request;
      var rest := EmitGroup(e1.pool, request, e.phase.pending[1..], false);
      var o := EmitGroup(e.pool, request, e.phase.pending, false);
      e1.(phase := Idle, pool := rest.pool, received := e1.received + rest.replies)
        == e.(phase := Idle, pool := o.pool, received := e.received + o.replies)
  {
    var request := e.phase.request;
    var pending := e.phase.pending;
    var reply := Reply(request, pending[0].msg);
    var rest := EmitGroup(e1.pool, request, pending[1..], false);
    AppendAssoc(e.received, [reply], rest.replies);
  }

  lemma AppendAssoc<T>(a: seq<T>, b: seq<T>, c: seq<T>)
    ensures a + b + c == a + (b + c)
  {
  }

  /** Loop steps needed to serve request `request` from `pool`. */
  function StepsFor(pool: seq<Entry>, request: Message): nat
  {
    match SelectGroup(pool, request.header.messageType)
    case None => 1
    case Some(g) => |g.members| + 2
  }

  function StepsToDrain(pool: seq<Entry>, requests: seq<Message>): nat
    decreases |requests|
  {
    if |requests| == 0 then 0
    else StepsFor(pool, requests[0]) + StepsToDrain(Serve(pool, requests[0], false).pool, requests[1..])
  }

  /** Serving the request at the head of the queue, with no caller in between,
      dequeues it and publishes exactly the pure matcher's replies; a request
      without a recorded group is dropped with no reply. */
  lemma ServeHeadRequest(e: Engine)
    requires e.phase == Idle && !e.cancelled && !e.receivedDisposed && |e.queue| > 0
    ensures var o := Serve(e.pool, e.queue[0], false);
      Run(e, StepsFor(e.pool, e.queue[0]))
        == e.(queue := e.queue[1..], pool := o.pool, received := e.received + o.replies)
  {
    var request := e.queue[0];
    var t := request.header.messageType;
    assert Run(e, 1) == LoopStep(e) by {
      RunStep(e, 0);
    }
    match SelectGroup(e.pool, t)
    case None =>
      assert LoopStep(e) == e.(queue := e.queue[1..]);
      assert Serve(e.pool, request, false) == Outcome(e.pool, [], []);
      assert e.received + [] == e.received;
    case Some(g) =>
      var n := |g.members|;
      var e1 := e.(queue := e.queue[1..], phase := Emitting(request, g.members));
      assert LoopStep(e) == e1;
      SelectedGroupAnswersType(e.pool, t);
      var o := EmitGroup(e.pool, request, g.members, false);
      assert Serve(e.pool, request, false) == o;
      assert Run(e1, n + 1) == e1.(phase := Idle, pool := o.pool, received := e1.received + o.replies) by {
        EmittingPublishesGroup(e1);
      }
      assert Run(e, 1 + (n + 1)) == Run(e1, n + 1) by {
        RunAdds(e, 1, n + 1);
      }
  }

  /** FIFO service: with no caller in between, the loop drains the queue in
      order, serving each request completely before the next, and what it
      publishes is the concatenation of the replies to each request in turn. */
  lemma {:induction false} DrainServesInOrder(e: Engine)
    requires e.phase == Idle && !e.cancelled && !e.receivedDisposed
    ensures var o := ServeAll(e.pool, e.queue);
      Run(e, StepsToDrain(e.pool, e.queue))
        == e.(queue := [], pool := o.pool, received := e.received + o.replies)
    decreases |e.queue|
  {
    if |e.queue| == 0 {
      assert e.received + [] == e.received;
    } else {
      var first := Serve(e.pool, e.queue[0], false);
      var e1 := e.(queue := e.queue[1..], pool := first.pool, received := e.received + first.replies);
      var o := ServeAll(e.pool, e.queue);
      var target := e.(queue := [], pool := o.pool, received := e.received + o.replies);
      var n := StepsFor(e.pool, e.queue[0]);
      var m := StepsToDrain(e1.pool, e1.queue);
      assert Iterate(LoopStep, e, n) == e1 by {
        ServeHeadRequest(e);
      }
      assert Iterate(LoopStep, e1, m) == target by {
        DrainServesInOrder(e1);
        DrainTotals(e, e1);
      }
      assert StepsToDrain(e.pool, e.queue) == n + m by {
        DrainTotals(e, e1);
      }
      IterateChain(LoopStep, e, e1, target, n, m);
    }
  }

  /** Step count and outcome of a drain split at its first request. */
  lemma DrainTotals(e: Engine, e1: Engine)
    requires |e.queue| > 0
    requires var first := Serve(e.pool, e.queue[0], false);
      e1 == e.(queue := e.queue[1..], pool := first.pool, received := e.received + first.replies)
    ensures StepsToDrain(e.pool, e.queue) == StepsFor(e.pool, e.queue[0]) + StepsToDrain(e1.pool, e1.queue)
    ensures var o := ServeAll(e.pool, e.queue);
      var rest := ServeAll(e1.pool, e1.queue);
      e1.(queue := [], pool := rest.pool, received := e1.received + rest.replies)
        == e.(queue := [], pool := o.pool, received := e.received + o.replies)
  {
    var first := Serve(e.pool, e.queue[0], false);
    var rest := ServeAll(e1.pool, e1.queue);
    ServeAllHead(e.pool, e.queue);
    AppendAssoc(e.received, first.replies, rest.replies);
  }
}
