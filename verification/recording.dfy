/** The pool of recorded messages: loading, removal by identity (`List.Remove`
    on reference-typed messages), and the LINQ `GroupBy(...).FirstOrDefault(...)`
    selection of the group that answers a request type. */
module Recording {
  import opened Wrappers
  import opened Messages

  /** A recorded message with its identity: its position in the recording.
      Two entries may hold equal messages and still be distinct objects. */
  datatype Entry = Entry(id: nat, msg: Message)

  predicate UniqueIds(pool: seq<Entry>)
  {
    forall i, j :: 0 <= i < j < |pool| ==> pool[i].id != pool[j].id
  }

  function IdSet(pool: seq<Entry>): set<nat>
  {
    set e | e in pool :: e.id
  }

  function MessagesOf(pool: seq<Entry>): (ms: seq<Message>)
    ensures |ms| == |pool|
  {
    seq(|pool|, i requires 0 <= i < |pool| => pool[i].msg)
  }

  /** The constructor's `AddRange`: the pool holds the recording, in order,
      each message a distinct object. */
  function Load(recording: seq<Message>): (pool: seq<Entry>)
    ensures MessagesOf(pool) == recording
    ensures UniqueIds(pool)
  {
    seq(|recording|, i requires 0 <= i < |recording| => Entry(i, recording[i]))
  }

  /** `List.Remove`: drop the first entry with this identity, if any. */
  function RemoveFirst(pool: seq<Entry>, id: nat): (r: seq<Entry>)
    ensures id !in IdSet(pool) ==> r == pool
    ensures id in IdSet(pool) ==> |r| == |pool| - 1
    ensures forall e :: e in r ==> e in pool
  {
    if |pool| == 0 then []
    else if pool[0].id == id then pool[1..]
    else [pool[0]] + RemoveFirst(pool[1..], id)
  }

  /** The entries whose identity is not in `ids`, in pool order. */
  function DropIds(pool: seq<Entry>, ids: set<nat>): (r: seq<Entry>)
    ensures forall e {:trigger e in r} :: e in r <==> e in pool && e.id !in ids
    ensures |r| <= |pool|
  {
    if |pool| == 0 then []
    else if pool[0].id in ids then DropIds(pool[1..], ids)
    else [pool[0]] + DropIds(pool[1..], ids)
  }

  /** The entries whose grouping key is `k`, in pool order. */
  function WithKey(pool: seq<Entry>, k: Key): (r: seq<Entry>)
    ensures forall e {:trigger e in r} :: e in r <==> e in pool && KeyOf(e.msg) == k
    ensures |r| <= |pool|
  {
    if |pool| == 0 then []
    else if KeyOf(pool[0].msg) == k then [pool[0]] + WithKey(pool[1..], k)
    else WithKey(pool[1..], k)
  }

  /** The entries whose grouping key is not `k`, in pool order. */
  function WithoutKey(pool: seq<Entry>, k: Key): (r: seq<Entry>)
    ensures forall e {:trigger e in r} :: e in r <==> e in pool && KeyOf(e.msg) != k
    ensures |r| <= |pool|
  {
    if |pool| == 0 then []
    else if KeyOf(pool[0].msg) == k then WithoutKey(pool[1..], k)
    else [pool[0]] + WithoutKey(pool[1..], k)
  }

  datatype Group = Group(key: Key, members: seq<Entry>)

  function GroupKeys(groups: seq<Group>): (ks: seq<Key>)
    ensures |ks| == |groups|
  {
    seq(|groups|, i requires 0 <= i < |groups| => groups[i].key)
  }

  /** LINQ `GroupBy`: one group per distinct key, groups in the order in which
      their keys first appear in the pool, members in pool order. */
  function GroupBy(pool: seq<Entry>): seq<Group>
    decreases |pool|
  {
    if |pool| == 0 then []
    else
      var k := KeyOf(pool[0].msg);
      assert WithoutKey(pool, k) == WithoutKey(pool[1..], k);
      [Group(k, WithKey(pool, k))] + GroupBy(WithoutKey(pool, k))
  }

  /** Every group is non-empty and holds exactly the entries with its key. */
  lemma {:induction false} GroupByMembersShareKey(pool: seq<Entry>)
    ensures forall g :: g in GroupBy(pool) ==> |g.members| > 0 && g.members == WithKey(pool, g.key)
    decreases |pool|
  {
    if |pool| > 0 {
      var k := KeyOf(pool[0].msg);
      var rest := WithoutKey(pool, k);
      var tail := GroupBy(rest);
      assert GroupBy(pool) == [Group(k, WithKey(pool, k))] + tail && |rest| < |pool| by {
        GroupByHead(pool);
      }
      assert pool[0] in WithKey(pool, k);
      GroupByMembersShareKey(rest);
      forall g | g in tail
        ensures |g.members| > 0 && g.members == WithKey(pool, g.key)
      {
        var e := g.members[0];
        assert e in WithKey(rest, g.key);
        assert e in rest;
        WithKeyIgnoresOtherKeys(pool, k);
      }
    }
  }

  /** A group's key is the key of some entry of the pool. */
  lemma GroupKeyOccurs(pool: seq<Entry>, g: Group)
    requires g in GroupBy(pool)
    ensures exists e :: e in pool && KeyOf(e.msg) == g.key
  {
    GroupByMembersShareKey(pool);
    var e := g.members[0];
    assert e in WithKey(pool, g.key);
  }

  lemma GroupByHead(pool: seq<Entry>)
    requires |pool| > 0
    ensures var k := KeyOf(pool[0].msg);
      && GroupBy(pool) == [Group(k, WithKey(pool, k))] + GroupBy(WithoutKey(pool, k))
      && |WithoutKey(pool, k)| < |pool|
  {
    var k := KeyOf(pool[0].msg);
    assert WithoutKey(pool, k) == WithoutKey(pool[1..], k);
  }

  /** After the entries of key `k` are dropped, no group has key `k`. */
  lemma NoGroupAfterDroppingKey(pool: seq<Entry>, k: Key)
    ensures forall g :: g in GroupBy(WithoutKey(pool, k)) ==> g.key != k
  {
    var rest := WithoutKey(pool, k);
    forall g | g in GroupBy(rest)
      ensures g.key != k
    {
      GroupKeyOccurs(rest, g);
    }
  }

  predicate DistinctKeys(groups: seq<Group>)
  {
    forall i, j :: 0 <= i < j < |groups| ==> groups[i].key != groups[j].key
  }

  /** No key is split over two groups. */
  lemma {:induction false} GroupByKeysDistinct(pool: seq<Entry>)
    ensures DistinctKeys(GroupBy(pool))
    decreases |pool|
  {
    if |pool| > 0 {
      var k := KeyOf(pool[0].msg);
      var rest := WithoutKey(pool, k);
      var tail := GroupBy(rest);
      var groups := [Group(k, WithKey(pool, k))] + tail;
      assert GroupBy(pool) == groups && |rest| < |pool| by {
        GroupByHead(pool);
      }
      assert DistinctKeys(tail) by {
        GroupByKeysDistinct(rest);
      }
      assert forall g :: g in tail ==> g.key != k by {
        NoGroupAfterDroppingKey(pool, k);
      }
      forall i, j | 0 <= i < j < |groups|
        ensures groups[i].key != groups[j].key
      {
        if i == 0 {
          var g := tail[j - 1];
          assert groups[j] == g && g in tail;
        } else {
          assert groups[i] == tail[i - 1] && groups[j] == tail[j - 1];
        }
      }
    }
  }

  /** Every entry of the pool lands in some group. */
  lemma {:induction false} GroupByCoversPool(pool: seq<Entry>)
    ensures forall e :: e in pool ==> KeyOf(e.msg) in GroupKeys(GroupBy(pool))
    decreases |pool|
  {
    if |pool| > 0 {
      var k := KeyOf(pool[0].msg);
      var rest := WithoutKey(pool, k);
      assert rest == WithoutKey(pool[1..], k);
      var tail := GroupBy(rest);
      var groups := GroupBy(pool);
      assert groups == [Group(k, WithKey(pool, k))] + tail;
      GroupByCoversPool(rest);
      forall e | e in pool
        ensures KeyOf(e.msg) in GroupKeys(groups)
      {
        if KeyOf(e.msg) == k {
          assert GroupKeys(groups)[0] == k;
        } else {
          assert e in rest;
          var i :| 0 <= i < |tail| && GroupKeys(tail)[i] == KeyOf(e.msg);
          assert GroupKeys(groups)[i + 1] == KeyOf(e.msg);
        }
      }
    }
  }

  /** Removing the entries of key `k` does not change the entries of any other key. */
  lemma {:induction false} WithKeyIgnoresOtherKeys(pool: seq<Entry>, k: Key)
    ensures forall k' :: k' != k ==> WithKey(WithoutKey(pool, k), k') == WithKey(pool, k')
    decreases |pool|
  {
    if |pool| > 0 {
      WithKeyIgnoresOtherKeys(pool[1..], k);
      if KeyOf(pool[0].msg) != k {
        var rest := WithoutKey(pool[1..], k);
        assert WithoutKey(pool, k) == [pool[0]] + rest;
        assert ([pool[0]] + rest)[1..] == rest;
      }
    }
  }

  /** `FirstOrDefault(g => g.Key.MsgType == type)` over the groups. */
  function FirstMatching(groups: seq<Group>, messageType: string): (r: Option<Group>)
    ensures r.Some? ==> r.value in groups && r.value.key.msgType == Some(messageType)
    ensures r.None? <==> forall g :: g in groups ==> g.key.msgType != Some(messageType)
  {
    if |groups| == 0 then None
    else if groups[0].key.msgType == Some(messageType) then Some(groups[0])
    else FirstMatching(groups[1..], messageType)
  }

  /** `FirstOrDefault` returns the first matching group: every group before
      the chosen one has a key of another type. */
  lemma {:induction false} FirstMatchingIsFirst(groups: seq<Group>, messageType: string)
    ensures var r := FirstMatching(groups, messageType);
      r.Some? ==>
        exists i :: (0 <= i < |groups| && groups[i] == r.value &&
                     forall j :: 0 <= j < i ==> groups[j].key.msgType != Some(messageType))
  {
    if |groups| > 0 && groups[0].key.msgType != Some(messageType) {
      var r := FirstMatching(groups[1..], messageType);
      FirstMatchingIsFirst(groups[1..], messageType);
      if r.Some? {
        var i :| 0 <= i < |groups[1..]| && groups[1..][i] == r.value &&
                 forall j :: 0 <= j < i ==> groups[1..][j].key.msgType != Some(messageType);
        assert groups[i + 1] == r.value;
        forall j | 0 <= j < i + 1
          ensures groups[j].key.msgType != Some(messageType)
        {
          if j > 0 {
            assert groups[j] == groups[1..][j - 1];
          }
        }
      }
    }
  }

  /** Lines 59-61 of the loop: the group of recorded replies chosen for a
      request of type `messageType`, or none. */
  function SelectGroup(pool: seq<Entry>, messageType: string): Option<Group>
  {
    FirstMatching(GroupBy(pool), messageType)
  }

  /** Reference definition of the match: a plain scan for the first recorded
      message whose parent header has the request's type. */
  function FirstIndexOfType(pool: seq<Entry>, messageType: string): (r: Option<nat>)
    ensures r.Some? ==> r.value < |pool| && KeyOf(pool[r.value].msg).msgType == Some(messageType)
    ensures r.Some? ==> forall j :: 0 <= j < r.value ==> KeyOf(pool[j].msg).msgType != Some(messageType)
    ensures r.None? ==> forall j :: 0 <= j < |pool| ==> KeyOf(pool[j].msg).msgType != Some(messageType)
  {
    if |pool| == 0 then None
    else if KeyOf(pool[0].msg).msgType == Some(messageType) then Some(0)
    else match FirstIndexOfType(pool[1..], messageType)
      case None => None
      case Some(i) => Some(i + 1)
  }

  function FirstKeyOfType(pool: seq<Entry>, messageType: string): Option<Key>
  {
    match FirstIndexOfType(pool, messageType)
    case None => None
    case Some(i) => Some(KeyOf(pool[i].msg))
  }

  /** The first key of a type, read off the head of the pool. */
  lemma FirstKeyOfTypeCons(x: Entry, rest: seq<Entry>, messageType: string)
    ensures FirstKeyOfType([x] + rest, messageType)
            == if KeyOf(x.msg).msgType == Some(messageType) then Some(KeyOf(x.msg))
               else FirstKeyOfType(rest, messageType)
  {
    var s := [x] + rest;
    assert s[0] == x && s[1..] == rest;
    if KeyOf(x.msg).msgType != Some(messageType) {
      match FirstIndexOfType(rest, messageType)
      case None =>
      case Some(i) =>
        assert s[i + 1] == rest[i];
    }
  }

  /** Dropping a key of another type does not change which key is met first. */
  lemma {:induction false} FirstKeyIgnoresOtherType(pool: seq<Entry>, k: Key, messageType: string)
    requires k.msgType != Some(messageType)
    ensures FirstKeyOfType(WithoutKey(pool, k), messageType) == FirstKeyOfType(pool, messageType)
    decreases |pool|
  {
    if |pool| > 0 {
      var x := pool[0];
      var tail := pool[1..];
      assert pool == [x] + tail;
      FirstKeyIgnoresOtherType(tail, k, messageType);
      FirstKeyOfTypeCons(x, tail, messageType);
      var rest := WithoutKey(tail, k);
      if KeyOf(x.msg) != k {
        assert WithoutKey(pool, k) == [x] + rest;
        FirstKeyOfTypeCons(x, rest, messageType);
      } else {
        assert WithoutKey(pool, k) == rest;
      }
    }
  }

  /** The group LINQ selects is the group of the first recorded message that
      answers a request of this type: all entries sharing that message's full
      `(MessageId, MessageType)` parent key, in pool order. No group is
      selected exactly when no recorded message answers this type. */
  lemma {:induction false} SelectGroupIsFirstKeyOfType(pool: seq<Entry>, messageType: string)
    ensures SelectGroup(pool, messageType).None? <==> FirstKeyOfType(pool, messageType).None?
    ensures SelectGroup(pool, messageType).Some? ==>
              var k := FirstKeyOfType(pool, messageType).value;
              SelectGroup(pool, messageType).value == Group(k, WithKey(pool, k))
    decreases |pool|
  {
    if |pool| > 0 {
      var k := KeyOf(pool[0].msg);
      var rest := WithoutKey(pool, k);
      assert rest == WithoutKey(pool[1..], k);
      var groups := GroupBy(pool);
      assert groups == [Group(k, WithKey(pool, k))] + GroupBy(rest);
      if k.msgType != Some(messageType) {
        assert groups[1..] == GroupBy(rest);
        SelectGroupIsFirstKeyOfType(rest, messageType);
        FirstKeyIgnoresOtherType(pool, k, messageType);
        WithKeyIgnoresOtherKeys(pool, k);
      }
    }
  }

  /** `List.Remove` removes the first occurrence of the identity and keeps the
      rest of the pool in order. */
  lemma {:induction false} RemoveFirstDropsFirstOccurrence(pool: seq<Entry>, id: nat, i: nat)
    requires i < |pool| && pool[i].id == id
    requires forall j :: 0 <= j < i ==> pool[j].id != id
    ensures RemoveFirst(pool, id) == pool[..i] + pool[i + 1..]
    decreases i
  {
    if i > 0 {
      RemoveFirstDropsFirstOccurrence(pool[1..], id, i - 1);
      assert pool[..i] == [pool[0]] + pool[1..][..i - 1];
      assert pool[i + 1..] == pool[1..][i..];
    }
  }

  lemma UniqueTail(pool: seq<Entry>)
    requires UniqueIds(pool) && |pool| > 0
    ensures UniqueIds(pool[1..])
    ensures pool[0].id !in IdSet(pool[1..])
  {
    forall i, j | 0 <= i < j < |pool[1..]|
      ensures pool[1..][i].id != pool[1..][j].id
    {
      assert pool[1..][i] == pool[i + 1] && pool[1..][j] == pool[j + 1];
    }
  }

  lemma UniqueCons(x: Entry, pool: seq<Entry>)
    requires UniqueIds(pool) && x.id !in IdSet(pool)
    ensures UniqueIds([x] + pool)
  {
    forall i, j | 0 <= i < j < |[x] + pool|
      ensures ([x] + pool)[i].id != ([x] + pool)[j].id
    {
      assert ([x] + pool)[j] == pool[j - 1];
      if i > 0 {
        assert ([x] + pool)[i] == pool[i - 1];
      } else {
        assert pool[j - 1] in pool;
      }
    }
  }

  /** Identities never reappear: a sub-pool of a pool with distinct
      identities has distinct identities. */
  lemma {:induction false} DropIdsKeepsUnique(pool: seq<Entry>, ids: set<nat>)
    requires UniqueIds(pool)
    ensures UniqueIds(DropIds(pool, ids))
    decreases |pool|
  {
    if |pool| > 0 {
      UniqueTail(pool);
      DropIdsKeepsUnique(pool[1..], ids);
      var rest := DropIds(pool[1..], ids);
      if pool[0].id !in ids {
        var r := [pool[0]] + rest;
        forall i, j | 0 <= i < j < |r|
          ensures r[i].id != r[j].id
        {
          if i == 0 {
            assert r[j] in rest;
            assert r[j] in pool[1..];
            var j' :| 0 <= j' < |pool[1..]| && pool[1..][j'] == r[j];
            assert pool[j' + 1] == r[j];
          } else {
            assert r[i] == rest[i - 1] && r[j] == rest[j - 1];
          }
        }
      }
    }
  }

  /** Dropping identities in two rounds is dropping them all at once. */
  lemma {:induction false} DropIdsTwice(pool: seq<Entry>, a: set<nat>, b: set<nat>)
    ensures DropIds(DropIds(pool, a), b) == DropIds(pool, a + b)
    decreases |pool|
  {
    if |pool| > 0 {
      DropIdsTwice(pool[1..], a, b);
      if pool[0].id !in a {
        var rest := DropIds(pool[1..], a);
        assert ([pool[0]] + rest)[1..] == rest;
      }
    }
  }

  /** Dropping identities no entry has changes nothing. */
  lemma {:induction false} DropAbsentIds(pool: seq<Entry>, ids: set<nat>)
    requires forall e :: e in pool ==> e.id !in ids
    ensures DropIds(pool, ids) == pool
    decreases |pool|
  {
    if |pool| > 0 {
      assert pool[0] in pool;
      DropAbsentIds(pool[1..], ids);
    }
  }

  /** With distinct identities, `List.Remove` drops exactly the entries with
      that identity. */
  lemma {:induction false} RemoveFirstIsDropId(pool: seq<Entry>, id: nat)
    requires UniqueIds(pool)
    ensures RemoveFirst(pool, id) == DropIds(pool, {id})
    decreases |pool|
  {
    if |pool| > 0 {
      UniqueTail(pool);
      if pool[0].id == id {
        forall e | e in pool[1..]
          ensures e.id !in {id}
        {
          var j :| 0 <= j < |pool[1..]| && pool[1..][j] == e;
          assert pool[j + 1] == e;
        }
        DropAbsentIds(pool[1..], {id});
      } else {
        RemoveFirstIsDropId(pool[1..], id);
      }
    }
  }

  /** The group chosen for a request type answers that type: it is non-empty,
      drawn from the pool, and every member has a parent header of that type. */
  lemma SelectedGroupAnswersType(pool: seq<Entry>, messageType: string)
    requires SelectGroup(pool, messageType).Some?
    ensures var g := SelectGroup(pool, messageType).value;
      && |g.members| > 0
      && (forall e :: e in g.members ==> e in pool)
      && (forall e :: e in g.members ==>
            e.msg.parentHeader.Some? && e.msg.parentHeader.value.messageType == messageType)
  {
    SelectGroupIsFirstKeyOfType(pool, messageType);
    var i := FirstIndexOfType(pool, messageType).value;
    assert pool[i] in WithKey(pool, KeyOf(pool[i].msg));
  }

  /** Grouping is by the full parent key: two recorded replies of the same
      type whose original requests had different ids are never taken together. */
  lemma SameTypeDifferentIdsNotMerged(pool: seq<Entry>, messageType: string, a: Entry, b: Entry)
    requires SelectGroup(pool, messageType).Some?
    requires a.msg.parentHeader.Some? && b.msg.parentHeader.Some?
    requires a.msg.parentHeader.value.messageId != b.msg.parentHeader.value.messageId
    ensures !(a in SelectGroup(pool, messageType).value.members
              && b in SelectGroup(pool, messageType).value.members)
  {
    SelectGroupIsFirstKeyOfType(pool, messageType);
  }
}
