/** Serving one live request from the pool (the body of the loop once a
    request has been dequeued), and serving a whole queue of them in order. */
module Matcher {
  import opened Wrappers
  import opened Messages
  import opened Recording

  /** What serving leaves behind: the remaining pool, the recorded entries
      taken out of it, and the replies emitted, in emission order. */
  datatype Outcome = Outcome(pool: seq<Entry>, consumed: seq<Entry>, replies: seq<Message>)

  /** Every pending recorded message has a parent header to re-stamp. */
  predicate Answerable(pending: seq<Entry>)
  {
    forall e :: e in pending ==> e.msg.parentHeader.Some?
  }

  /** The `foreach` over a chosen group: each member is removed from the pool,
      rebuilt as a reply and emitted, unless the received stream is already
      disposed, in which case the removed member is not emitted and the loop
      breaks. */
  function EmitGroup(pool: seq<Entry>, request: Message, pending: seq<Entry>, disposed: bool): (o: Outcome)
    requires Answerable(pending)
    ensures disposed ==> o.replies == []
    ensures disposed && |pending| > 0 ==>
              o.pool == RemoveFirst(pool, pending[0].id) && o.consumed == [pending[0]]
    ensures !disposed ==> o.consumed == pending && |o.replies| == |pending|
    ensures !disposed ==> forall i :: 0 <= i < |o.replies| ==> o.replies[i] == Reply(request, pending[i].msg)
    ensures forall e :: e in o.pool ==> e in pool
    decreases |pending|
  {
    if |pending| == 0 then Outcome(pool, [], [])
    else
      var pool' := RemoveFirst(pool, pending[0].id);
      if disposed then Outcome(pool', [pending[0]], [])
      else
        var rest := EmitGroup(pool', request, pending[1..], disposed);
        Outcome(rest.pool, [pending[0]] + rest.consumed, [Reply(request, pending[0].msg)] + rest.replies)
  }

  /** Serve one dequeued request `request` against `pool`. */
  function Serve(pool: seq<Entry>, request: Message, disposed: bool): (o: Outcome)
    // no recorded group answers the request type: nothing emitted, pool unchanged
    ensures SelectGroup(pool, request.header.messageType).None? ==> o == Outcome(pool, [], [])
    ensures forall e :: e in o.pool ==> e in pool
  {
    match SelectGroup(pool, request.header.messageType)
    case None => Outcome(pool, [], [])
    case Some(g) =>
      SelectedGroupAnswersType(pool, request.header.messageType);
      EmitGroup(pool, request, g.members, disposed)
  }

  /** Every reply emitted for a request answers that request's id and carries
      its type as parent type. */
  lemma ServeAnswersRequest(pool: seq<Entry>, request: Message, disposed: bool)
    ensures forall m :: m in Serve(pool, request, disposed).replies ==>
              && m.parentHeader.Some?
              && m.parentHeader.value.messageId == request.header.messageId
              && m.parentHeader.value.messageType == request.header.messageType
  {
    var t := request.header.messageType;
    if SelectGroup(pool, t).Some? {
      var g := SelectGroup(pool, t).value;
      SelectedGroupAnswersType(pool, t);
      var o := Serve(pool, request, disposed);
      forall m | m in o.replies
        ensures m.parentHeader.Some?
        ensures m.parentHeader.value.messageId == request.header.messageId
        ensures m.parentHeader.value.messageType == t
      {
        var i :| 0 <= i < |o.replies| && o.replies[i] == m;
        assert g.members[i] in g.members;
        ReplyRestampsParent(request, g.members[i].msg);
      }
    }
  }

  /** Emitting a group whose members are distinct entries of the pool removes
      exactly those members: the pool shrinks by the group's size and the
      other entries keep their relative order. */
  lemma {:induction false} EmitGroupRemovesPending(pool: seq<Entry>, request: Message, pending: seq<Entry>)
    requires Answerable(pending)
    requires UniqueIds(pool) && UniqueIds(pending)
    requires forall e :: e in pending ==> e in pool
    ensures EmitGroup(pool, request, pending, false).pool == DropIds(pool, IdSet(pending))
    ensures |EmitGroup(pool, request, pending, false).pool| == |pool| - |pending|
    decreases |pending|
  {
    if |pending| == 0 {
      DropAbsentIds(pool, {});
      assert IdSet(pending) == {};
    } else {
      var p := pending[0];
      var tail := pending[1..];
      assert p in pending;
      var pool' := RemoveFirst(pool, p.id);
      assert p.id in IdSet(pool);
      RemoveFirstIsDropId(pool, p.id);
      DropIdsKeepsUnique(pool, {p.id});
      UniqueTail(pending);
      TailStaysInPool(pool, pending);
      EmitGroupRemovesPending(pool', request, tail);
      assert EmitGroup(pool, request, pending, false).pool == EmitGroup(pool', request, tail, false).pool;
      DropIdsTwice(pool, {p.id}, IdSet(tail));
      assert IdSet(pending) == {p.id} + IdSet(tail) by {
        assert pending == [p] + tail;
      }
    }
  }

  lemma TailStaysInPool(pool: seq<Entry>, pending: seq<Entry>)
    requires |pending| > 0 && UniqueIds(pending)
    requires forall e :: e in pending ==> e in pool
    ensures forall e :: e in pending[1..] ==> e in DropIds(pool, {pending[0].id})
  {
    forall e | e in pending[1..]
      ensures e in DropIds(pool, {pending[0].id})
    {
      var j :| 0 <= j < |pending[1..]| && pending[1..][j] == e;
      assert pending[j + 1] == e;
    }
  }

  /** Serving a request with the received stream live consumes exactly the
      selected group: the remaining pool is the old pool without the group's
      entries (same order), shorter by the group's size; replies come in the
      group's recorded order, one per member. */
  lemma ServeConsumesSelectedGroup(pool: seq<Entry>, request: Message)
    requires UniqueIds(pool)
    requires SelectGroup(pool, request.header.messageType).Some?
    ensures var g := SelectGroup(pool, request.header.messageType).value;
      var o := Serve(pool, request, false);
      && o.consumed == g.members
      && o.pool == DropIds(pool, IdSet(g.members))
      && |o.pool| == |pool| - |g.members|
      && UniqueIds(o.pool)
      && |o.replies| == |g.members|
      && (forall e :: e in g.members ==> e.msg.parentHeader.Some?)
      && (forall i :: 0 <= i < |o.replies| ==> o.replies[i] == Reply(request, g.members[i].msg))
  {
    var t := request.header.messageType;
    var g := SelectGroup(pool, t).value;
    SelectedGroupAnswersType(pool, t);
    SelectGroupIsFirstKeyOfType(pool, t);
    WithKeyKeepsUnique(pool, g.key);
    EmitGroupRemovesPending(pool, request, g.members);
    DropIdsKeepsUnique(pool, IdSet(g.members));
  }

  /** A sub-sequence of a pool with distinct identities has distinct identities. */
  lemma {:induction false} WithKeyKeepsUnique(pool: seq<Entry>, k: Key)
    requires UniqueIds(pool)
    ensures UniqueIds(WithKey(pool, k))
    decreases |pool|
  {
    if |pool| > 0 {
      UniqueTail(pool);
      WithKeyKeepsUnique(pool[1..], k);
      var rest := WithKey(pool[1..], k);
      if KeyOf(pool[0].msg) == k {
        var r := [pool[0]] + rest;
        forall i, j | 0 <= i < j < |r|
          ensures r[i].id != r[j].id
        {
          if i == 0 {
            assert r[j] in rest;
            var j' :| 0 <= j' < |pool[1..]| && pool[1..][j'] == r[j];
            assert pool[j' + 1] == r[j];
          } else {
            assert r[i] == rest[i - 1] && r[j] == rest[j - 1];
          }
        }
      }
    }
  }

  /** With the received stream already disposed, only the first member of the
      selected group leaves the pool and nothing is emitted; the later members
      stay in the pool. */
  lemma ServeStopsWhenDisposed(pool: seq<Entry>, request: Message)
    requires UniqueIds(pool)
    requires SelectGroup(pool, request.header.messageType).Some?
    ensures var g := SelectGroup(pool, request.header.messageType).value;
      var o := Serve(pool, request, true);
      && |g.members| > 0
      && o.replies == []
      && o.consumed == [g.members[0]]
      && o.pool == DropIds(pool, {g.members[0].id})
      && |o.pool| == |pool| - 1
      && (forall e :: e in g.members[1..] ==> e in o.pool)
  {
    var t := request.header.messageType;
    var g := SelectGroup(pool, t).value;
    SelectedGroupAnswersType(pool, t);
    SelectGroupIsFirstKeyOfType(pool, t);
    WithKeyKeepsUnique(pool, g.key);
    var o := Serve(pool, request, true);
    assert o == EmitGroup(pool, request, g.members, true);
    var p := g.members[0];
    assert p in g.members;
    assert p.id in IdSet(pool);
    RemoveFirstIsDropId(pool, p.id);
    TailStaysInPool(pool, g.members);
  }

  /** Serve the requests in FIFO order, each one fully before the next. */
  function ServeAll(pool: seq<Entry>, requests: seq<Message>): (o: Outcome)
    ensures forall e :: e in o.pool ==> e in pool
    decreases |requests|
  {
    if |requests| == 0 then Outcome(pool, [], [])
    else
      var first := Serve(pool, requests[0], false);
      var rest := ServeAll(first.pool, requests[1..]);
      Outcome(rest.pool, first.consumed + rest.consumed, first.replies + rest.replies)
  }

  /** The bookkeeping of consumption: `o` took distinct entries out of `pool`
      and left the rest, in order, with one reply per entry taken. */
  predicate ConsumedFrom(pool: seq<Entry>, o: Outcome)
  {
    && UniqueIds(o.consumed)
    && UniqueIds(o.pool)
    && (forall e :: e in o.consumed ==> e in pool && e.id !in IdSet(o.pool))
    && o.pool == DropIds(pool, IdSet(o.consumed))
    && |o.pool| + |o.consumed| == |pool|
    && |o.replies| == |o.consumed|
  }

  /** Serving one request with the received stream live takes each recorded
      entry at most once. */
  lemma ServeConsumesOnce(pool: seq<Entry>, request: Message)
    requires UniqueIds(pool)
    ensures ConsumedFrom(pool, Serve(pool, request, false))
  {
    var o := Serve(pool, request, false);
    match SelectGroup(pool, request.header.messageType)
    case None =>
      DropAbsentIds(pool, {});
      assert IdSet(o.consumed) == {};
    case Some(g) =>
      ServeConsumesSelectedGroup(pool, request);
      SelectedGroupAnswersType(pool, request.header.messageType);
      SelectGroupIsFirstKeyOfType(pool, request.header.messageType);
      WithKeyKeepsUnique(pool, g.key);
  }

  /** Consumption composes: taking `first` out of `pool` and then `second` out
      of what is left takes both, each entry at most once. */
  lemma ConsumedFromChains(pool: seq<Entry>, first: Outcome, second: Outcome)
    requires UniqueIds(pool)
    requires ConsumedFrom(pool, first)
    requires ConsumedFrom(first.pool, second)
    ensures ConsumedFrom(pool, Outcome(second.pool, first.consumed + second.consumed,
                                       first.replies + second.replies))
  {
    var c := first.consumed + second.consumed;
    var firstIds := IdSet(first.consumed);
    DropIdsTwice(pool, firstIds, IdSet(second.consumed));
    assert IdSet(c) == firstIds + IdSet(second.consumed);
    forall e | e in c
      ensures e in pool && e.id !in IdSet(second.pool)
    {
      if e !in first.consumed {
        assert e in second.consumed;
      }
    }
    forall i, j | 0 <= i < j < |c|
      ensures c[i].id != c[j].id
    {
      if j < |first.consumed| {
        assert c[i] == first.consumed[i] && c[j] == first.consumed[j];
      } else if i >= |first.consumed| {
        assert c[i] == second.consumed[i - |first.consumed|];
        assert c[j] == second.consumed[j - |first.consumed|];
      } else {
        assert c[i] == first.consumed[i] && c[i].id in firstIds;
        assert c[j] == second.consumed[j - |first.consumed|];
        assert c[j] in first.pool;
      }
    }
  }

  lemma ServeAllHead(pool: seq<Entry>, requests: seq<Message>)
    requires |requests| > 0
    ensures var first := Serve(pool, requests[0], false);
      var rest := ServeAll(first.pool, requests[1..]);
      ServeAll(pool, requests) == Outcome(rest.pool, first.consumed + rest.consumed, first.replies + rest.replies)
  {
  }

  /** At-most-once consumption over any run of requests: the consumed entries
      are distinct recorded messages of the initial pool, none of them is left
      in the pool, the pool is the initial one without them (same order), and
      there is exactly one reply per consumed entry. */
  lemma {:induction false} ServeAllConsumesAtMostOnce(pool: seq<Entry>, requests: seq<Message>)
    requires UniqueIds(pool)
    ensures ConsumedFrom(pool, ServeAll(pool, requests))
    decreases |requests|
  {
    if |requests| == 0 {
      DropAbsentIds(pool, {});
      assert IdSet([]) == {};
    } else {
      var first := Serve(pool, requests[0], false);
      ServeConsumesOnce(pool, requests[0]);
      ServeAllConsumesAtMostOnce(first.pool, requests[1..]);
      ConsumedFromChains(pool, first, ServeAll(first.pool, requests[1..]));
    }
  }
}
