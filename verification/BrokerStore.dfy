/** The broker's store of messages with reference counts, changed in place. */
module BrokerStore {
  import opened Bytes
  import opened BrokerMsgs

  function TotalBytes(list: seq<Stored>): nat {
    if list == [] then 0 else list[0].payloadLen + TotalBytes(list[1..])
  }

  lemma {:induction false} TotalBytesConcat(a: seq<Stored>, b: seq<Stored>)
    ensures TotalBytes(a + b) == TotalBytes(a) + TotalBytes(b)
  {
    if a == [] {
      assert a + b == b;
    } else {
      assert (a + b)[1..] == a[1..] + b;
      TotalBytesConcat(a[1..], b);
    }
  }

  predicate DistinctIds(list: seq<Stored>) {
    forall j, k :: 0 <= j < k < |list| ==> list[j].id != list[k].id
  }

  predicate IdsUpTo(list: seq<Stored>, last: nat) {
    forall k :: 0 <= k < |list| ==> 0 < list[k].id <= last
  }

  function Unlink(list: seq<Stored>, k: nat): seq<Stored>
    requires k < |list|
  {
    list[..k] + list[k + 1..]
  }

  lemma UnlinkBytes(list: seq<Stored>, k: nat)
    requires k < |list|
    ensures TotalBytes(list) == TotalBytes(Unlink(list, k)) + list[k].payloadLen
  {
    hide TotalBytes;
    assert list == list[..k] + ([list[k]] + list[k + 1..]);
    TotalBytesConcat([list[k]], list[k + 1..]);
    TotalBytesConcat(list[..k], [list[k]] + list[k + 1..]);
    TotalBytesConcat(list[..k], list[k + 1..]);
    TotalBytesOne(list[k]);
  }

  lemma UnlinkDistinct(list: seq<Stored>, k: nat, last: nat)
    requires k < |list| && DistinctIds(list) && IdsUpTo(list, last)
    ensures DistinctIds(Unlink(list, k)) && IdsUpTo(Unlink(list, k), last)
  {
    var rest := Unlink(list, k);
    assert forall j :: 0 <= j < |rest| ==> rest[j] == list[if j < k then j else j + 1];
  }

  lemma UnlinkMembers(list: seq<Stored>, k: nat, s: Stored)
    requires k < |list| && DistinctIds(list)
    ensures s in Unlink(list, k) <==> s in list && s != list[k]
  {
    hide DistinctIds;
    var rest := Unlink(list, k);
    if s in list && s != list[k] {
      var j :| 0 <= j < |list| && list[j] == s;
      assert rest[if j < k then j else j - 1] == s;
    }
    if s in rest {
      var j :| 0 <= j < |rest| && rest[j] == s;
      var i := if j < k then j else j + 1;
      assert rest[j] == list[i];
      Differ(list, i, k);
    }
  }

  lemma Differ(list: seq<Stored>, j: nat, k: nat)
    requires j < |list| && k < |list| && j != k && DistinctIds(list)
    ensures list[j] != list[k]
  {
    if j < k { assert list[j].id != list[k].id; } else { assert list[k].id != list[j].id; }
  }

  lemma LinkFirst(s: Stored, list: seq<Stored>, last: nat)
    requires DistinctIds(list) && IdsUpTo(list, last) && s.id == last + 1
    ensures DistinctIds([s] + list) && IdsUpTo([s] + list, last + 1) && s !in list
  {
    var all := [s] + list;
    assert forall j :: 1 <= j < |all| ==> all[j] == list[j - 1];
  }

  lemma TotalBytesOne(s: Stored)
    ensures TotalBytes([s]) == s.payloadLen
  {
    assert [s][1..] == [];
  }

  /** The messages that someone holds. */
  function HeldOf(list: seq<Stored>, refCount: map<Stored, int>): seq<Stored> {
    if list == [] then []
    else (if list[0] in refCount && refCount[list[0]] >= 1 then [list[0]] else []) + HeldOf(list[1..], refCount)
  }

  /** Entries may be gone; those that are left are as they were. */
  ghost predicate Narrowed(before: map<Stored, seq<nat>>, after: map<Stored, seq<nat>>) {
    forall s :: s in after ==> s in before && after[s] == before[s]
  }

  lemma NarrowedTwice(a: map<Stored, seq<nat>>, b: map<Stored, seq<nat>>, c: map<Stored, seq<nat>>)
    requires Narrowed(a, b) && Narrowed(b, c)
    ensures Narrowed(a, c)
  {
  }

  lemma NarrowedWithout(a: map<Stored, seq<nat>>, s: Stored)
    ensures Narrowed(a, a - {s})
  {
  }

  lemma NarrowedSame(a: map<Stored, seq<nat>>)
    ensures Narrowed(a, a)
  {
  }

  class Store {
    var list: seq<Stored>                 // newest first
    var refCount: map<Stored, int>
    var destIds: map<Stored, seq<nat>>    // the clients each message has been sent to
    var count: int
    var bytes: int
    var lastId: nat
    /** Who holds a message: one entry for each client message pointing at it and each outside holder. */
    ghost var holders: multiset<Stored>

    constructor ()
      ensures Valid() && list == [] && holders == multiset{}
    {
      list, refCount, destIds, count, bytes, lastId := [], map[], map[], 0, 0, 0;
      holders := multiset{};
    }

    ghost predicate Listed()
      reads this
    {
      && DistinctIds(list) && IdsUpTo(list, lastId)
      && count == |list| && bytes == TotalBytes(list)
      && (forall s :: s in list <==> s in refCount)
      && (forall s :: s in list <==> s in destIds)
    }

    /** Counts and bytes agree with the list, and every reference count with its holders. */
    ghost predicate Valid()
      reads this
    {
      && Listed()
      && (forall s :: s in refCount ==> refCount[s] == holders[s])
      && (forall s :: s in holders ==> s in refCount)
    }

    /** db__message_store: a new message, held by nobody yet. */
    method MessageStore(payloadLen: uint32, qos: nat, interval: nat, now: nat, sourceMid: uint16, hasTopic: bool)
      returns (s: Stored)
      requires Valid()
      modifies this
      ensures Valid() && holders == old(holders)
      ensures list == [s] + old(list) && s !in old(list) && destIds[s] == []
      ensures s == Stored(s.id, payloadLen, qos, if interval > 0 then now + interval else 0, sourceMid, hasTopic)
    {
      hide TotalBytes, DistinctIds, IdsUpTo;
      var expiry := if interval > 0 then now + interval else 0;
      count := count + 1;
      bytes := bytes + payloadLen;
      lastId := lastId + 1;
      s := Stored(lastId, payloadLen, qos, expiry, sourceMid, hasTopic);
      refCount := refCount[s := 0];
      destIds := destIds[s := []];
      TotalBytesOne(s);
      TotalBytesConcat([s], list);
      LinkFirst(s, list, lastId - 1);
      list := [s] + list;
    }

    /** db__msg_store_remove: unlinked, uncounted and freed. */
    method Remove(s: Stored)
      requires Listed() && s in list
      modifies `list, `refCount, `destIds, `count, `bytes
      ensures Listed() && refCount == old(refCount) - {s} && destIds == old(destIds) - {s}
      ensures exists k :: 0 <= k < |old(list)| && old(list)[k] == s && list == Unlink(old(list), k)
      ensures forall t :: t in list <==> t in old(list) && t != s
    {
      hide TotalBytes, DistinctIds, IdsUpTo;
      var k :| 0 <= k < |list| && list[k] == s;
      UnlinkBytes(list, k);
      UnlinkDistinct(list, k, lastId);
      forall t
        ensures t in Unlink(list, k) <==> t in list && t != s
      {
        UnlinkMembers(list, k, t);
      }
      list := list[..k] + list[k + 1..];
      count := count - 1;
      bytes := bytes - s.payloadLen;
      refCount := refCount - {s};
      destIds := destIds - {s};
    }

    /** Notes that the message has been sent to a client. */
    method Record(s: Stored, client: nat)
      requires Valid() && s in list
      modifies `destIds
      ensures Valid() && s in old(destIds) && destIds == old(destIds)[s := old(destIds)[s] + [client]]
    {
      hide TotalBytes, DistinctIds, IdsUpTo;
      destIds := destIds[s := destIds[s] + [client]];
    }

    method RefInc(s: Stored)
      requires Valid() && s in list
      modifies `refCount, `holders
      ensures Valid() && holders == old(holders) + multiset{s}
    {
      hide TotalBytes;
      refCount := refCount[s := refCount[s] + 1];
      holders := holders + multiset{s};
    }

    /** The last reference frees the message; no other does. */
    method RefDec(s: Stored)
      requires Valid() && s in holders
      modifies `list, `refCount, `destIds, `count, `bytes, `holders
      ensures Valid() && holders == old(holders) - multiset{s}
      ensures s in list <==> old(holders)[s] > 1
      ensures forall t :: t != s ==> (t in list <==> t in old(list))
      ensures Narrowed(old(destIds), destIds)
    {
      hide TotalBytes, DistinctIds, IdsUpTo, Narrowed;
      refCount := refCount[s := refCount[s] - 1];
      holders := holders - multiset{s};
      if refCount[s] == 0 {
        Remove(s);
        NarrowedWithout(old(destIds), s);
      } else {
        NarrowedSame(destIds);
      }
    }

    /** db__msg_store_compact: exactly the messages that somebody holds stay, in order. */
    method Compact()
      requires Valid()
      modifies `list, `refCount, `destIds, `count, `bytes
      ensures Valid() && list == HeldOf(old(list), old(refCount))
      ensures forall s :: s in list <==> s in holders
    {
      hide Listed, HeldOf;
      ghost var refs := refCount;
      ghost var all := HeldOf(list, refs);
      ghost var kept: seq<Stored>, rest := [], list;
      HeldNone([], refs);
      var i := 0;
      while i < |list|
        invariant list == kept + rest && i == |kept| && Valid()
        invariant all == kept + HeldOf(rest, refs)
        invariant forall s :: s in refCount ==> s in refs && refCount[s] == refs[s]
        invariant forall j :: 0 <= j < |kept| ==> kept[j] in holders
        decreases |list| - i
      {
        HeldNext(rest, refs);
        InStore(i);
        if refCount[list[i]] < 1 {
          UnlinkAt(i);
        } else {
          kept := kept + [rest[0]];
          i := i + 1;
        }
        rest := rest[1..];
      }
      HeldNone(rest, refs);
      AllInStore();
    }

    lemma KnownIsListed(s: Stored)
      requires Valid() && s in destIds
      ensures s in list
    {
    }

    lemma InStore(k: nat)
      requires Listed() && k < |list|
      ensures list[k] in refCount
    {
      assert list[k] in list;
    }

    lemma AllInStore()
      requires Listed()
      ensures forall s :: s in list <==> s in refCount
    {
    }

    method UnlinkAt(i: nat)
      requires Valid() && i < |list| && list[i] in refCount
      requires refCount[list[i]] < 1
      modifies `list, `refCount, `destIds, `count, `bytes
      ensures Valid() && list == Unlink(old(list), i)
      ensures forall s :: s in refCount ==> s in old(refCount) && refCount[s] == old(refCount)[s]
    {
      hide TotalBytes, IdsUpTo, DistinctIds;
      ghost var before := list;
      Remove(list[i]);
      ghost var k :| 0 <= k < |before| && before[k] == before[i] && list == Unlink(before, k);
      if k != i { Differ(before, k, i); }
    }
  }

  lemma HeldNone(list: seq<Stored>, refCount: map<Stored, int>)
    ensures list == [] ==> HeldOf(list, refCount) == []
  {
  }

  lemma HeldNext(list: seq<Stored>, refCount: map<Stored, int>)
    requires list != []
    ensures HeldOf(list, refCount) ==
            (if list[0] in refCount && refCount[list[0]] >= 1 then [list[0]] else []) + HeldOf(list[1..], refCount)
  {
  }
}
