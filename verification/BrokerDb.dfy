/**
 The broker's message database as one client sees it: what happens to its lists, and that nobody
 else's references change.
 */
module BrokerDb {
  import opened Bytes
  import opened BrokerMsgs
  import opened BrokerLists
  import opened BrokerStore

  /** One entry less on both sides leaves the others the same. */
  lemma OneLess(all: multiset<Stored>, mine: multiset<Stored>, s: Stored)
    requires mine + multiset{s} <= all
    ensures mine <= all - multiset{s} && s in all
    ensures (all - multiset{s}) - mine == all - (mine + multiset{s})
  {
  }

  lemma Swapped(a: multiset<Stored>, b: multiset<Stored>, s: multiset<Stored>)
    ensures (a + s) + b == (a + b) + s && b + (a + s) == (b + a) + s
  {
  }

  lemma OneMore(all: multiset<Stored>, mine: multiset<Stored>, s: Stored)
    requires mine <= all
    ensures mine + multiset{s} <= all + multiset{s}
    ensures (all + multiset{s}) - (mine + multiset{s}) == all - mine
  {
  }

  /** A client of the broker, with its two directions (struct mosquitto). */
  class Context {
    const id: nat
    const store: Store
    const cfg: Config
    const msgsIn: MsgData
    const msgsOut: MsgData
    const mqtt5: bool
    const bridge: Bridge
    var hasId: bool
    var connected: bool
    var active: bool
    var cleanStart: bool
    var maxQos: nat
    var isDropping: bool
    var lazyReconnect: bool
    /** The highest maximum either direction has had. */
    ghost var peakIn: uint16
    ghost var peakOut: uint16

    /** context__init: both directions start with the configured maximum. */
    constructor (id: nat, store: Store, cfg: Config, mqtt5: bool, bridge: Bridge, maximum: uint16)
      requires store.Valid()
      ensures Valid() && Held() == multiset{} && this.store == store && this.cfg == cfg
      ensures fresh(msgsIn) && fresh(msgsOut) && Right()
      ensures msgsIn.View() == msgsOut.View() == Exact([], [], maximum, maximum)
    {
      this.id, this.store, this.cfg, this.mqtt5, this.bridge := id, store, cfg, mqtt5, bridge;
      hasId, connected, active, cleanStart, maxQos, isDropping, lazyReconnect := true, true, true, false, 2, false, false;
      msgsIn := new MsgData(maximum);
      msgsOut := new MsgData(maximum);
      peakIn, peakOut := maximum, maximum;
    }

    function Facts(): Client
      reads this
    {
      Client(hasId, mqtt5, connected, active, maxQos, bridge)
    }

    /** The messages of the store this client points at. */
    ghost function Held(): multiset<Stored>
      reads msgsIn, msgsOut
    {
      AllRefs(msgsIn.View()) + AllRefs(msgsOut.View())
    }

    /** The references of everybody else. */
    ghost function Others(): multiset<Stored>
      reads msgsIn, msgsOut, store
    {
      store.holders - Held()
    }

    /** No deleted message is still counted. */
    ghost predicate Right()
      reads msgsIn, msgsOut
    {
      msgsIn.stale == NO_STALE && msgsOut.stale == NO_STALE
    }

    /** All sixteen counters then agree with a recount of the four lists. */
    lemma CountersAreRight()
      requires Valid() && Right()
      ensures msgsIn.InflightTally() == Recount(msgsIn.inflight) && msgsIn.QueuedTally() == Recount(msgsIn.queued)
      ensures msgsOut.InflightTally() == Recount(msgsOut.inflight) && msgsOut.QueuedTally() == Recount(msgsOut.queued)
    {
      hide Recount;
      RightWithoutStale(msgsIn.View());
      RightWithoutStale(msgsOut.View());
    }

    /** Nothing this client points at has been freed. */
    ghost predicate Attached()
      reads msgsIn, msgsOut, store
    {
      msgsIn != msgsOut && store.Valid() && Held() <= store.holders
    }

    /** Neither queue has grown beyond its limit. */
    ghost predicate Bounded()
      reads `peakIn, `peakOut, msgsIn, msgsOut
    {
      && msgsIn.maximum <= peakIn && QueueBounded(cfg, msgsIn.queued, peakIn)
      && msgsOut.maximum <= peakOut && QueueBounded(cfg, msgsOut.queued, peakOut)
    }

    ghost predicate Valid()
      reads `peakIn, `peakOut, msgsIn, msgsOut, store
    {
      Attached() && msgsIn.Counted() && msgsOut.Counted() && Bounded()
    }

    /** db__message_remove: out of the list, out of the counters, one reference less. */
    method MessageRemove(data: MsgData, k: nat)
      requires Attached() && (data == msgsIn || data == msgsOut) && k < |data.inflight|
      modifies data, store
      ensures Attached() && Others() == old(Others())
      ensures data.View() == old(data.View()).(inflight := Without(old(data.inflight), k))
      ensures data.InflightTally() == Minus(old(data.InflightTally()), old(data.inflight)[k])
      ensures data.QueuedTally() == old(data.QueuedTally()) && (old(data.Counted()) ==> data.Counted())
      ensures Narrowed(old(store.destIds), store.destIds)
    {
      hide InflightCount, QueuedCount, AllRefs, Without, store.Valid, Narrowed, Minus;
      var m := data.inflight[k];
      ghost var before := Held();
      data.Unlink(k);
      Swapped(AllRefs(data.View()), AllRefs((if data == msgsIn then msgsOut else msgsIn).View()), multiset{m.store});
      LetGo(m.store, before);
    }

    /** The store lets go of a message that has just left a list of this client. */
    method LetGo(s: Stored, ghost before: multiset<Stored>)
      requires msgsIn != msgsOut && store.Valid() && before <= store.holders && before == Held() + multiset{s}
      modifies store
      ensures Attached() && Others() == old(store.holders) - before && Narrowed(old(store.destIds), store.destIds)
    {
      hide AllRefs, store.Valid, Narrowed, Held;
      OneLess(store.holders, Held(), s);
      store.RefDec(s);
    }

    method DropOutgoing(k: nat)
      requires Valid() && k < |msgsOut.inflight|
      modifies msgsOut, store
      ensures Valid() && Others() == old(Others()) && Narrowed(old(store.destIds), store.destIds)
      ensures msgsOut.View() == old(msgsOut.View()).(inflight := Without(old(msgsOut.inflight), k))
    {
      hide Recount, AllRefs, Without, store.Valid, Narrowed;
      MessageRemove(msgsOut, k);
    }

    method DropIncoming(k: nat)
      requires Valid() && k < |msgsIn.inflight|
      modifies msgsIn, store
      ensures Valid() && Others() == old(Others())
      ensures msgsIn.View() == old(msgsIn.View()).(inflight := Without(old(msgsIn.inflight), k))
    {
      hide Recount, AllRefs, Without, store.Valid, Narrowed;
      MessageRemove(msgsIn, k);
    }

    method ChangeOutgoing(k: nat, m: ClientMsg)
      requires Valid() && k < |msgsOut.inflight| && SameMessage(msgsOut.inflight[k], m)
      modifies msgsOut
      ensures Valid() && Others() == old(Others())
      ensures msgsOut.View() == old(msgsOut.View()).(inflight := old(msgsOut.inflight)[k := m])
    {
      hide Recount, AllRefs, store.Valid;
      msgsOut.SetInflight(k, m);
    }

    method PromoteOutgoing(packets: int)
      requires Valid()
      modifies msgsOut
      ensures Valid() && Others() == old(Others())
      ensures msgsOut.View() == Promote(cfg, old(msgsOut.View()), packets)
    {
      hide Recount, AllRefs, store.Valid, Promote, QueueBounded;
      PromoteKeepsOrder(cfg, msgsOut.View(), packets);
      SuffixKeepsBound(cfg, msgsOut.View(), Promote(cfg, msgsOut.View(), packets), peakOut);
      msgsOut.PromoteQueued(cfg, packets);
    }

    method IncrementSendQuota()
      requires Valid()
      modifies msgsOut
      ensures Valid() && Others() == old(Others())
      ensures msgsOut.View() == old(msgsOut.View()).(quota := Increment(old(msgsOut.quota), msgsOut.maximum))
    {
      hide Recount, Refs, store.Valid;
      if msgsOut.quota < msgsOut.maximum as nat { msgsOut.quota := msgsOut.quota + 1; }
    }

    // ----- Writing to the client -----

    /** A QoS 1 or 2 PUBLISH: sent it waits for its answer, too big it goes. */
    method WritePublish(k: nat, waiting: MsgState, sent: Rc) returns (rc: Rc)
      requires Valid() && k < |msgsOut.inflight|
      modifies msgsOut, store
      ensures Valid() && Others() == old(Others()) && Narrowed(old(store.destIds), store.destIds)
      ensures var d := old(msgsOut.View());
              (rc, msgsOut.View()) ==
              if sent == Success then
                (Success, d.(inflight := d.inflight[k := d.inflight[k].(state := waiting, dup := true)]))
              else if sent == OversizePacket then (Success, d.(inflight := Without(d.inflight, k)))
              else (sent, d)
    {
      hide Valid, Others, Without, Narrowed;
      NarrowedSame(store.destIds);
      if sent == Success {
        ChangeOutgoing(k, msgsOut.inflight[k].(state := waiting, dup := true));
      } else if sent == OversizePacket {
        DropOutgoing(k);
      } else {
        return sent;
      }
      return Success;
    }

    /** A QoS 0 PUBLISH goes, sent or too big. */
    method WriteQos0(k: nat, sent: Rc) returns (rc: Rc)
      requires Valid() && k < |msgsOut.inflight|
      modifies msgsOut, store
      ensures Valid() && Others() == old(Others()) && Narrowed(old(store.destIds), store.destIds)
      ensures var d := old(msgsOut.View());
              (rc, msgsOut.View()) ==
              if sent == Success || sent == OversizePacket then (Success, d.(inflight := Without(d.inflight, k))) else (sent, d)
    {
      hide Valid, Others, Without, Narrowed;
      NarrowedSame(store.destIds);
      if sent != Success && sent != OversizePacket { return sent; }
      DropOutgoing(k);
      return Success;
    }

    method WritePubrel(k: nat, sent: Rc) returns (rc: Rc)
      requires Valid() && k < |msgsOut.inflight|
      modifies msgsOut
      ensures Valid() && Others() == old(Others())
      ensures var d := old(msgsOut.View());
              (rc, msgsOut.View()) ==
              if sent == Success then (Success, d.(inflight := d.inflight[k := d.inflight[k].(state := WaitForPubcomp)]))
              else (sent, d)
    {
      hide Valid, Others;
      if sent != Success { return sent; }
      ChangeOutgoing(k, msgsOut.inflight[k].(state := WaitForPubcomp));
      return Success;
    }

    method ExpireOutgoing(k: nat)
      requires Valid() && k < |msgsOut.inflight|
      modifies msgsOut, store
      ensures Valid() && Others() == old(Others()) && Narrowed(old(store.destIds), store.destIds)
      ensures var d := old(msgsOut.View());
              msgsOut.View() == d.(inflight := Without(d.inflight, k),
                                   quota := if d.inflight[k].qos > 0 then Increment(d.quota, d.maximum) else d.quota)
    {
      hide Valid, Others, Without, Narrowed, Increment;
      var m := msgsOut.inflight[k];
      DropOutgoing(k);
      if m.qos > 0 { IncrementSendQuota(); }
    }

    /** A message that has not expired is written as its state calls for. */
    method WriteDue(k: nat, sent: Rc, now: nat) returns (rc: Rc)
      requires Valid() && k < |msgsOut.inflight| && !Expired(msgsOut.inflight[k], now)
      modifies msgsOut, store
      ensures Valid() && Others() == old(Others()) && Narrowed(old(store.destIds), store.destIds)
      ensures (rc, msgsOut.View()) == WriteSingle(old(msgsOut.View()), k, sent, now)
    {
      hide Valid, Others, Without, Narrowed, Increment, Expired;
      NarrowedSame(store.destIds);
      match msgsOut.inflight[k].state {
        case PublishQos0 => rc := WriteQos0(k, sent);
        case PublishQos1 => rc := WritePublish(k, WaitForPuback, sent);
        case PublishQos2 => rc := WritePublish(k, WaitForPubrec, sent);
        case ResendPubrel => rc := WritePubrel(k, sent);
        case _ => return Success;
      }
    }

    method WriteInflightOutSingle(k: nat, sent: Rc, now: nat) returns (rc: Rc)
      requires Valid() && k < |msgsOut.inflight|
      modifies msgsOut, store
      ensures Valid() && Others() == old(Others()) && Narrowed(old(store.destIds), store.destIds)
      ensures (rc, msgsOut.View()) == WriteSingle(old(msgsOut.View()), k, sent, now)
    {
      hide Valid, Others, Without, Narrowed, Increment;
      var m := msgsOut.inflight[k];
      if m.store.expiry != 0 && now > m.store.expiry {
        ExpireOutgoing(k);
        return Success;
      }
      rc := WriteDue(k, sent, now);
    }

    method WriteInflightOutFrom(start: nat, send: nat -> Rc, now: nat) returns (rc: Rc)
      requires Valid()
      modifies msgsOut, store
      ensures Valid() && Others() == old(Others()) && Narrowed(old(store.destIds), store.destIds)
      ensures (rc, msgsOut.View()) == WriteFrom(old(msgsOut.View()), start, 0, send, now)
    {
      hide Valid, Others, WriteSingle, Narrowed;
      NarrowedSame(store.destIds);
      var k: nat, n: nat := start, 0;
      while k < |msgsOut.inflight|
        invariant Valid() && Others() == old(Others()) && Narrowed(old(store.destIds), store.destIds)
        invariant WriteFrom(msgsOut.View(), k, n, send, now) == WriteFrom(old(msgsOut.View()), start, 0, send, now)
        decreases |msgsOut.inflight| - k
      {
        var before := |msgsOut.inflight|;
        ghost var dest := store.destIds;
        SingleLength(msgsOut.View(), k, send(n), now);
        rc := WriteInflightOutSingle(k, send(n), now);
        NarrowedTwice(old(store.destIds), dest, store.destIds);
        if rc != Success { return; }
        if |msgsOut.inflight| == before { k := k + 1; }
        n := n + 1;
      }
      return Success;
    }

    method WriteInflightOutAll(send: nat -> Rc, now: nat) returns (rc: Rc)
      requires Valid()
      modifies msgsOut, store
      ensures Valid() && Others() == old(Others())
      ensures (rc, msgsOut.View()) == if !active || !connected then (Success, old(msgsOut.View()))
                                      else WriteFrom(old(msgsOut.View()), 0, 0, send, now)
    {
      if !active || !connected { return Success; }
      rc := WriteInflightOutFrom(0, send, now);
    }

    method WriteInflightOutLatest(send: nat -> Rc, now: nat) returns (rc: Rc)
      requires Valid()
      modifies msgsOut, store
      ensures Valid() && Others() == old(Others())
      ensures (rc, msgsOut.View()) == WriteLatest(active && connected, old(msgsOut.View()), send, now)
      ensures Narrowed(old(store.destIds), store.destIds)
    {
      hide Valid, Others, WriteFrom, Narrowed;
      NarrowedSame(store.destIds);
      if !active || !connected || |msgsOut.inflight| == 0 { return Success; }
      var tail: nat := |msgsOut.inflight| - 1;
      while tail != 0 && IsPublish(msgsOut.inflight[tail])
        invariant tail < |msgsOut.inflight|
        invariant LatestFrom(msgsOut.inflight, tail) == LatestFrom(msgsOut.inflight, |msgsOut.inflight| - 1)
      {
        tail := tail - 1;
      }
      if tail != 0 { tail := tail + 1; }
      rc := WriteInflightOutFrom(tail, send, now);
    }

    method WriteQueuedOut(packets: int) returns (rc: Rc)
      requires Valid()
      modifies msgsOut
      ensures Valid() && Others() == old(Others()) && rc == Success
      ensures msgsOut.View() == if active then Promote(cfg, old(msgsOut.View()), packets) else old(msgsOut.View())
    {
      hide Valid, Others, Promote;
      if active { PromoteOutgoing(packets); }
      return Success;
    }

    // ----- Acknowledgements -----

    method MessageDeleteOutgoing(mid: uint16, expected: MsgState, qos: nat, packets: int, send: nat -> Rc, now: nat)
      returns (rc: Rc)
      requires Valid()
      modifies msgsOut, store
      ensures Valid() && Others() == old(Others())
      ensures (rc, msgsOut.View()) ==
              Deleted(cfg, active && connected, old(msgsOut.View()), mid, expected, qos, packets, send, now)
    {
      hide Valid, Others, Promote, Without, WriteLatest;
      var i := 0;
      while i < |msgsOut.inflight|
        invariant i <= |msgsOut.inflight| && forall j :: 0 <= j < i ==> msgsOut.inflight[j].mid != mid
        invariant Valid() && Others() == old(Others()) && msgsOut.View() == old(msgsOut.View())
      {
        var m := msgsOut.inflight[i];
        if m.mid == mid {
          assert i == Find(msgsOut.inflight, mid);
          if m.qos != qos { return Protocol; }
          if qos == 2 && m.state != expected { return Protocol; }
          DropOutgoing(i);
          break;
        }
        i := i + 1;
      }
      PromoteOutgoing(packets);
      rc := WriteInflightOutLatest(send, now);
    }

    method MessageUpdateOutgoing(mid: uint16, state: MsgState, qos: nat) returns (rc: Rc)
      requires Valid()
      modifies msgsOut
      ensures Valid() && Others() == old(Others())
      ensures (rc, msgsOut.View()) == Updated(old(msgsOut.View()), mid, state, qos)
    {
      hide Valid, Others;
      var i := 0;
      while i < |msgsOut.inflight|
        invariant i <= |msgsOut.inflight| && forall j :: 0 <= j < i ==> msgsOut.inflight[j].mid != mid
      {
        if msgsOut.inflight[i].mid == mid {
          assert i == Find(msgsOut.inflight, mid);
          if msgsOut.inflight[i].qos != qos { return Protocol; }
          ChangeOutgoing(i, msgsOut.inflight[i].(state := state));
          return Success;
        }
        i := i + 1;
      }
      return NotFound;
    }

    /** handle__pubackcomp. */
    method HandlePubackcomp(mid: uint16, qos: nat, headerOk: bool, parsed: Rc, packets: int, send: nat -> Rc, now: nat)
      returns (rc: Rc)
      requires Valid()
      modifies msgsOut, store
      ensures Valid() && Others() == old(Others())
      ensures (rc, msgsOut.View()) ==
              Acknowledged(cfg, Facts(), old(msgsOut.View()), mid, qos, headerOk, parsed, packets, send, now)
    {
      hide Valid, Others, Deleted;
      if !active { return Protocol; }
      if !headerOk { return MalformedPacket; }
      IncrementSendQuota();
      if parsed != Success { return parsed; }
      rc := MessageDeleteOutgoing(mid, WaitForPubcomp, qos, packets, send, now);
    }

    /** handle__pubrec. */
    method HandlePubrec(mid: uint16, parsed: Rc, reason: byte, pubrel: Rc, packets: int, send: nat -> Rc, now: nat)
      returns (rc: Rc)
      requires Valid()
      modifies msgsOut, store
      ensures Valid() && Others() == old(Others())
      ensures (rc, msgsOut.View()) ==
              Received(cfg, Facts(), old(msgsOut.View()), mid, parsed, reason, pubrel, packets, send, now)
    {
      hide Valid, Others, Deleted, Updated;
      if !active { return Protocol; }
      if parsed != Success { return parsed; }
      if reason < 0x80 {
        rc := MessageUpdateOutgoing(mid, WaitForPubcomp, 2);
      } else {
        rc := MessageDeleteOutgoing(mid, WaitForPubrec, 2, packets, send, now);
        return;
      }
      if rc != NotFound && rc != Success { return; }
      return pubrel;
    }

    // ----- Limits and the receive quota -----

    method TakeReceiveQuota()
      requires Valid()
      modifies msgsIn
      ensures Valid() && Others() == old(Others())
      ensures msgsIn.View() == old(msgsIn.View()).(quota := Decrement(old(msgsIn.quota)))
    {
      hide Recount, Refs, store.Valid;
      msgsIn.DecrementQuota();
    }

    /** What sending a PUBACK, a PUBCOMP or a refusing PUBREC does. */
    method ReturnReceiveQuota()
      requires Valid()
      modifies msgsIn
      ensures Valid() && Others() == old(Others()) && msgsIn.View() == Returned(old(msgsIn.View()))
    {
      hide Recount, Refs, store.Valid;
      msgsIn.IncrementQuota();
    }

    /** The Receive Maximum of a CONNECT packet (property__process_connect). */
    method LimitOutgoing(value: uint16) returns (rc: Rc)
      requires Valid()
      modifies `peakOut, msgsOut
      ensures Valid() && Others() == old(Others())
      ensures (rc, msgsOut.View()) == if value == 0 then (Protocol, old(msgsOut.View()))
                                      else (Success, old(msgsOut.View()).(maximum := value, quota := value))
    {
      hide Recount, Refs, store.Valid;
      if value == 0 { return Protocol; }
      msgsOut.SetMaximum(value);
      if peakOut < value { peakOut := value; }
      return Success;
    }

    /** The Receive Maximum of a CONNACK that a bridge gets. */
    method LimitBridge(value: uint16, packets: int)
      requires Valid()
      modifies `peakOut, msgsIn, msgsOut, store
      ensures Valid() && Others() == old(Others())
      ensures var (i, o) := old((msgsIn.View(), msgsOut.View()));
              (msgsIn.View(), msgsOut.View()) ==
              if value == o.maximum then (i, o)
              else (BrokerMsgs.ResetIncoming(cfg, i, packets), BrokerMsgs.ResetOutgoing(cfg, o.(maximum := value), packets))
    {
      hide Recount, Refs, store.Valid, BrokerMsgs.ResetOutgoing, BrokerMsgs.ResetIncoming;
      if msgsOut.maximum == value { return; }
      msgsOut.maximum := value;
      if peakOut < value { peakOut := value; }
      ReconnectReset(packets);
    }

    // ----- A login -----

    method ForgetInflight(data: MsgData, k: nat)
      requires Attached() && (data == msgsIn || data == msgsOut) && k < |data.inflight| && data.Counted()
      modifies data, store
      ensures Attached() && Others() == old(Others()) && data.Counted()
      ensures data.View() == old(data.View()).(inflight := Without(old(data.inflight), k),
                                               stale := Stale(old(data.stale.inflight) + [old(data.inflight)[k]], old(data.stale.queued)))
    {
      hide InflightCount, QueuedCount, AllRefs, Without, store.Valid, Narrowed;
      ghost var before := Held();
      var s := data.inflight[k].store;
      data.ForgetInflight(k);
      Swapped(AllRefs(data.View()), AllRefs((if data == msgsIn then msgsOut else msgsIn).View()), multiset{s});
      LetGo(s, before);
    }

    method ForgetQueued(data: MsgData, k: nat)
      requires Attached() && (data == msgsIn || data == msgsOut) && k < |data.queued| && data.Counted()
      modifies data, store
      ensures Attached() && Others() == old(Others()) && data.Counted()
      ensures data.View() == old(data.View()).(queued := Without(old(data.queued), k),
                                               stale := Stale(old(data.stale.inflight), old(data.stale.queued) + [old(data.queued)[k]]))
    {
      hide InflightCount, QueuedCount, AllRefs, Without, store.Valid, Narrowed;
      ghost var before := Held();
      var s := data.queued[k].store;
      data.ForgetQueued(k);
      Swapped(AllRefs(data.View()), AllRefs((if data == msgsIn then msgsOut else msgsIn).View()), multiset{s});
      LetGo(s, before);
    }

    /** connection_check_acl on the messages in flight. */
    method CheckInflight(data: MsgData, denied: Stored -> bool)
      requires Attached() && (data == msgsIn || data == msgsOut) && data.Counted()
      modifies data, store
      ensures Attached() && Others() == old(Others()) && data.Counted()
      ensures data.View() == old(data.View()).(
                inflight := Permitted(old(data.inflight), denied),
                stale := Stale(old(data.stale.inflight) + BrokerMsgs.Denied(old(data.inflight), denied), old(data.stale.queued)))
    {
      hide Attached, Others, data.Counted, Without, CheckedSoFar, Permitted, BrokerMsgs.Denied;
      ghost var kept: seq<ClientMsg>, rest := [], data.inflight;
      ghost var before := data.View();
      CheckStart(before.inflight, before.stale.inflight, denied);
      var i := 0;
      while i < |data.inflight|
        invariant i == |kept| && CheckedSoFar(before.inflight, before.stale.inflight, data.inflight, data.stale.inflight, kept, rest, denied)
        invariant data.View() == before.(inflight := data.inflight, stale := before.stale.(inflight := data.stale.inflight))
        invariant Attached() && Others() == old(Others()) && data.Counted()
        decreases |rest|
      {
        CheckNext(before.inflight, before.stale.inflight, data.inflight, data.stale.inflight, kept, rest, denied);
        var m := data.inflight[i];
        if denied(m.store) {
          ForgetInflight(data, i);
        } else {
          kept := kept + [m];
          i := i + 1;
        }
        rest := rest[1..];
      }
      CheckDone(before.inflight, before.stale.inflight, data.inflight, data.stale.inflight, kept, rest, denied);
    }

    method CheckQueued(data: MsgData, denied: Stored -> bool)
      requires Attached() && (data == msgsIn || data == msgsOut) && data.Counted()
      modifies data, store
      ensures Attached() && Others() == old(Others()) && data.Counted()
      ensures data.View() == old(data.View()).(
                queued := Permitted(old(data.queued), denied),
                stale := Stale(old(data.stale.inflight), old(data.stale.queued) + BrokerMsgs.Denied(old(data.queued), denied)))
    {
      hide Attached, Others, data.Counted, Without, CheckedSoFar, Permitted, BrokerMsgs.Denied;
      ghost var kept: seq<ClientMsg>, rest := [], data.queued;
      ghost var before := data.View();
      CheckStart(before.queued, before.stale.queued, denied);
      var i := 0;
      while i < |data.queued|
        invariant i == |kept| && CheckedSoFar(before.queued, before.stale.queued, data.queued, data.stale.queued, kept, rest, denied)
        invariant data.View() == before.(queued := data.queued, stale := before.stale.(queued := data.stale.queued))
        invariant Attached() && Others() == old(Others()) && data.Counted()
        decreases |rest|
      {
        CheckNext(before.queued, before.stale.queued, data.queued, data.stale.queued, kept, rest, denied);
        var m := data.queued[i];
        if denied(m.store) {
          ForgetQueued(data, i);
        } else {
          kept := kept + [m];
          i := i + 1;
        }
        rest := rest[1..];
      }
      CheckDone(before.queued, before.stale.queued, data.queued, data.stale.queued, kept, rest, denied);
    }

    /** All four lists of another context and their counters. */
    method MoveLists(found: Context)
      requires msgsIn != msgsOut && found.msgsIn != found.msgsOut && {msgsIn, msgsOut} !! {found.msgsIn, found.msgsOut}
      requires found.msgsIn.Counted() && found.msgsOut.Counted()
      modifies msgsIn, msgsOut, found.msgsIn, found.msgsOut
      ensures msgsIn.Counted() && msgsOut.Counted() && found.msgsIn.Counted() && found.msgsOut.Counted()
      ensures Held() == old(found.Held()) && found.Held() == multiset{}
      ensures msgsIn.View() == Inherited(old(msgsIn.View()), old(found.msgsIn.View()))
      ensures msgsOut.View() == Inherited(old(msgsOut.View()), old(found.msgsOut.View()))
      ensures found.msgsIn.View() == found.msgsOut.View() == Exact([], [], 0, 0)
    {
      hide AllRefs, msgsIn.Counted;
      msgsIn.TakeFrom(found.msgsIn);
      msgsOut.TakeFrom(found.msgsOut);
    }

    /** The session of another context moves here with its counters; the own quotas and maxima stay. */
    method MoveFrom(found: Context)
      requires Valid() && found.Valid() && found.cfg == cfg && found.store == store
      requires {msgsIn, msgsOut} !! {found.msgsIn, found.msgsOut} && this != found
      modifies `peakIn, `peakOut, msgsIn, msgsOut, found.msgsIn, found.msgsOut
      ensures Valid() && found.Valid() && Held() == old(found.Held()) && found.Held() == multiset{}
      ensures msgsIn.View() == Inherited(old(msgsIn.View()), old(found.msgsIn.View()))
      ensures msgsOut.View() == Inherited(old(msgsOut.View()), old(found.msgsOut.View()))
      ensures found.msgsIn.View() == found.msgsOut.View() == Exact([], [], 0, 0)
    {
      hide Held, store.Valid, Recount, msgsIn.Counted;
      RecountNone([]);
      if peakIn < found.peakIn { peakIn := found.peakIn; }
      if peakOut < found.peakOut { peakOut := found.peakOut; }
      MoveLists(found);
    }

    /** The permission check at a login: all four lists; deniedIn and deniedOut tell what is no longer permitted. */
    method CheckAcl(deniedIn: Stored -> bool, deniedOut: Stored -> bool)
      requires Valid()
      modifies msgsIn, msgsOut, store
      ensures Valid() && Others() == old(Others())
      ensures msgsIn.View() == Checked(old(msgsIn.View()), deniedIn)
      ensures msgsOut.View() == Checked(old(msgsOut.View()), deniedOut)
    {
      hide Attached, Others, Recount, Refs, QueueBounded;
      Distinct();
      CheckKeepsBound(cfg, msgsIn.View(), deniedIn, peakIn);
      CheckKeepsBound(cfg, msgsOut.View(), deniedOut, peakOut);
      CheckInflight(msgsIn, deniedIn);
      CheckQueued(msgsIn, deniedIn);
      CheckInflight(msgsOut, deniedOut);
      CheckQueued(msgsOut, deniedOut);
    }

    method MessageRemoveIncoming(mid: uint16) returns (rc: Rc)
      requires Valid()
      modifies msgsIn, store
      ensures Valid() && Others() == old(Others())
      ensures (rc, msgsIn.View()) == RemovedIncoming(old(msgsIn.View()), mid)
    {
      hide Valid, Others, Without;
      var i := 0;
      while i < |msgsIn.inflight|
        invariant i <= |msgsIn.inflight| && forall j :: 0 <= j < i ==> msgsIn.inflight[j].mid != mid
      {
        if msgsIn.inflight[i].mid == mid {
          assert i == Find(msgsIn.inflight, mid);
          if msgsIn.inflight[i].store.qos != 2 { return Protocol; }
          DropIncoming(i);
          return Success;
        }
        i := i + 1;
      }
      return NotFound;
    }

    // ----- A new message -----

    /** A message takes its place in a list, with a reference and a place in the counters. */
    method Link(data: MsgData, m: ClientMsg)
      requires Valid() && (data == msgsIn || data == msgsOut) && m.store in store.list
      requires m.state == Queued ==> QueueBounded(cfg, data.queued + [m], if data == msgsIn then peakIn else peakOut)
      modifies data, store`refCount, store`holders
      ensures Valid() && Others() == old(Others())
      ensures data.View() == if m.state == Queued then old(data.View()).(queued := old(data.queued) + [m])
                             else old(data.View()).(inflight := old(data.inflight) + [m])
    {
      hide Recount, AllRefs, store.Valid, QueueBounded;
      ghost var all, mine := store.holders, Held();
      OneMore(all, mine, m.store);
      Swapped(AllRefs(data.View()), AllRefs((if data == msgsIn then msgsOut else msgsIn).View()), multiset{m.store});
      store.RefInc(m.store);
      data.Append(m);
    }

    method DecrementSendQuota()
      requires Valid()
      modifies msgsOut
      ensures Valid() && Others() == old(Others())
      ensures msgsOut.View() == old(msgsOut.View()).(quota := Decrement(old(msgsOut.quota)))
    {
      hide Recount, Refs, store.Valid;
      msgsOut.DecrementQuota();
    }

    /** With the message at its end the queue is still within its limit. */
    ghost predicate Fits(dir: Direction, m: ClientMsg)
      reads `peakIn, `peakOut, msgsIn, msgsOut
    {
      m.state == Queued ==>
        if dir == Outgoing then QueueBounded(cfg, msgsOut.queued + [m], peakOut)
        else QueueBounded(cfg, msgsIn.queued + [m], peakIn)
    }

    /** A message that the checks let into the queue fits. */
    lemma AdmittedFits(dir: Direction, m: ClientMsg, qos: nat, retain: bool, sent: bool, packets: int)
      requires Valid() && qos <= 2
      requires var d := (if dir == Outgoing then msgsOut else msgsIn).View();
               var decision := Decide(cfg, Facts(), d, dir, qos, retain, sent, packets);
               decision.Admit? && decision.state == m.state
      ensures Fits(dir, m)
    {
      hide Recount, Ready, QueueReady, QueueBounded;
      if m.state == Queued {
        var data := if dir == Outgoing then msgsOut else msgsIn;
        AppendKeepsBound(cfg, data.View(), connected, qos, m, if dir == Outgoing then peakOut else peakIn);
      }
    }

    /** The references, counters and quota of a message on its way in. */
    method Enqueue(dir: Direction, m: ClientMsg)
      requires Valid() && m.store in store.list && Fits(dir, m)
      modifies (if dir == Outgoing then msgsOut else msgsIn), store`refCount, store`holders
      ensures Valid() && Others() == old(Others())
      ensures (if dir == Outgoing then msgsOut else msgsIn).View()
              == Admitted(old((if dir == Outgoing then msgsOut else msgsIn).View()), dir, m)
    {
      Distinct();
      hide Valid, Others;
      Link(if dir == Outgoing then msgsOut else msgsIn, m);
      if dir == Outgoing && m.qos > 0 && m.state != Queued { DecrementSendQuota(); }
    }

    /** Whether the client is noted as a destination of the message. */
    predicate Records(dir: Direction, retain: bool) {
      !cfg.allowDuplicateMessages && dir == Outgoing && !retain
    }

    /** Whether a wanted message goes in flight, is queued or is dropped. */
    method DecidePlace(dir: Direction, qos: nat, packets: int) returns (decision: Decision)
      requires Valid() && qos <= 2
      ensures decision ==
              PlaceFor(cfg, connected, (if dir == Outgoing then msgsOut else msgsIn).View(), dir, qos, packets)
    {
      hide Valid, Ready, QueueReady, InflightCount, QueuedCount;
      var data := if dir == Outgoing then msgsOut else msgsIn;
      CountersAgree(data);
      if connected {
        var ready := data.ReadyForFlight(cfg, dir, qos, packets);
        if ready {
          if dir == Outgoing {
            match qos {
              case 0 => return Admit(PublishQos0, Success);
              case 1 => return Admit(PublishQos1, Success);
              case _ => return Admit(PublishQos2, Success);
            }
          } else if qos == 2 {
            return Admit(WaitForPubrel, Success);
          } else {
            return Ignore(Nomem);
          }
        }
        if qos == 0 { return Drop; }
        var room := data.ReadyForQueue(cfg, connected, qos);
        return if room then Admit(Queued, Protocol) else Drop;
      } else {
        var room := data.ReadyForQueue(cfg, connected, qos);
        return if room then Admit(Queued, Success) else Drop;
      }
    }

    /** The checks of db__message_insert, in order. */
    method DecideInsert(dir: Direction, qos: nat, retain: bool, stored: Stored, packets: int) returns (decision: Decision)
      requires Valid() && stored in store.destIds && qos <= 2
      ensures var d := (if dir == Outgoing then msgsOut else msgsIn).View();
              decision == Decide(cfg, Facts(), d, dir, qos, retain, id in store.destIds[stored], packets)
    {
      hide Valid, PlaceFor;
      if !hasId { return Ignore(Success); }
      if !mqtt5 && !cfg.allowDuplicateMessages && dir == Outgoing && !retain {
        if id in store.destIds[stored] { return Ignore(Success); }
      }
      if !connected {
        if qos == 0 && !cfg.queueQos0Messages {
          if bridge.NoBridge? { return Ignore(Protocol); }
          if !bridge.lazy { return Ignore(Protocol); }
        }
        if bridge.Bridge? && bridge.cleanStartLocal { return Ignore(Protocol); }
      }
      decision := DecidePlace(dir, qos, packets);
    }

    method MessageInsert(mid: uint16, dir: Direction, qos: nat, retain: bool, stored: Stored, update: bool,
                         packets: int, packets2: int, send: nat -> Rc, now: nat) returns (rc: Rc)
      requires Valid() && stored in store.list && stored in store.destIds && qos <= 2
      modifies `isDropping, `lazyReconnect, (if dir == Outgoing then msgsOut else msgsIn), store
      ensures Valid() && Others() == old(Others())
      ensures var d := old((if dir == Outgoing then msgsOut else msgsIn).View());
              var m := ClientMsg(stored, mid, qos, Invalid, false, retain);
              var sent := id in old(store.destIds[stored]);
              var decision := Decide(cfg, Facts(), d, dir, qos, retain, sent, packets);
              && (rc, (if dir == Outgoing then msgsOut else msgsIn).View())
                 == Inserted(cfg, Facts(), d, dir, m, qos, sent, update, packets, packets2, send, now)
              && isDropping == (old(isDropping) || decision.Drop?)
              && Narrowed(if decision.Admit? && Records(dir, retain)
                          then old(store.destIds)[stored := old(store.destIds[stored]) + [id]]
                          else old(store.destIds), store.destIds)
              && lazyReconnect == (old(lazyReconnect) || (decision.Admit? && WakesBridge(
                   if dir == Outgoing
                   then Admitted(d, dir, m.(state := decision.state, qos := if qos > maxQos then maxQos else qos))
                   else old(msgsOut.View()))))
    {
      hide Valid, Others, Decide, Admitted, WriteLatest, Promote, Narrowed, WakesBridge, Fits;
      NarrowedSame(store.destIds);
      var decision := DecideInsert(dir, qos, retain, stored, packets);
      match decision {
        case Ignore(result) => return result;
        case Drop =>
          isDropping := true;
          return Protocol;
        case Admit(state, result) =>
          var m := ClientMsg(stored, mid, if qos > maxQos then maxQos else qos, state, false, retain);
          AdmittedFits(dir, m, qos, retain, id in store.destIds[stored], packets);
          rc := FinishInsert(dir, m, result, update, packets2, send, now);
      }
    }

    /** A bridge that connects on demand has enough messages waiting. */
    predicate WakesBridge(d: Lists)
      reads `connected
    {
      bridge.Bridge? && bridge.lazy && !connected && |d.inflight + d.stale.inflight| + |d.queued + d.stale.queued| >= bridge.threshold
    }

    lemma CountsAreLengths()
      requires Valid()
      ensures msgsOut.inflightCount == |msgsOut.inflight + msgsOut.stale.inflight|
      ensures msgsOut.queuedCount == |msgsOut.queued + msgsOut.stale.queued|
    {
      hide Recount;
      RecountBounds(msgsOut.inflight);
      RecountBounds(msgsOut.queued);
      RecountBounds(msgsOut.stale.inflight);
      RecountBounds(msgsOut.stale.queued);
    }

    method WakeBridge()
      requires Valid()
      modifies `lazyReconnect
      ensures lazyReconnect == (old(lazyReconnect) || WakesBridge(msgsOut.View()))
    {
      hide Valid;
      CountsAreLengths();
      if bridge.Bridge? && bridge.lazy && !connected
         && msgsOut.inflightCount + msgsOut.queuedCount >= bridge.threshold {
        lazyReconnect := true;
      }
    }

    method FinishInsert(dir: Direction, m: ClientMsg, rc0: Rc, update: bool, packets2: int, send: nat -> Rc, now: nat)
      returns (rc: Rc)
      requires Valid() && m.store in store.list && m.store in store.destIds && Fits(dir, m)
      modifies `lazyReconnect, (if dir == Outgoing then msgsOut else msgsIn), store
      ensures Valid() && Others() == old(Others())
      ensures var d := Admitted(old((if dir == Outgoing then msgsOut else msgsIn).View()), dir, m);
              (rc, (if dir == Outgoing then msgsOut else msgsIn).View()) ==
              if dir == Incoming || !update then (rc0, d)
              else
                var (rc2, written) := WriteLatest(active && connected, d, send, now);
                if rc2 != Success then (rc2, written)
                else (Success, if active then Promote(cfg, written, packets2) else written)
      ensures Narrowed(if Records(dir, m.retain)
                       then old(store.destIds)[m.store := old(store.destIds[m.store]) + [id]]
                       else old(store.destIds), store.destIds)
      ensures lazyReconnect ==
              (old(lazyReconnect) ||
               WakesBridge(if dir == Outgoing then Admitted(old(msgsOut.View()), dir, m) else old(msgsOut.View())))
    {
      hide Valid, Others, Admitted, WriteLatest, Promote, Narrowed, WakesBridge, Fits;
      Distinct();
      Enqueue(dir, m);
      if !cfg.allowDuplicateMessages && dir == Outgoing && !m.retain { NoteDestination(m.store); }
      NarrowedSame(store.destIds);
      WakeBridge();
      if dir == Outgoing && update {
        rc := WriteInflightOutLatest(send, now);
        if rc != Success { return; }
        rc := WriteQueuedOut(packets2);
        return;
      }
      return rc0;
    }

    method NoteDestination(s: Stored)
      requires Valid() && s in store.destIds
      modifies store`destIds
      ensures Valid() && Others() == old(Others())
      ensures store.destIds == old(store.destIds)[s := old(store.destIds)[s] + [id]]
    {
      hide InflightCount, QueuedCount, AllRefs, store.Valid, QueueBounded;
      store.KnownIsListed(s);
      store.Record(s, id);
    }

    lemma CountersAgree(data: MsgData)
      requires Valid() && (data == msgsIn || data == msgsOut)
      ensures data.Counted()
    {
    }

    method ReleaseQueued()
      requires Valid()
      modifies msgsIn
      ensures Valid() && Others() == old(Others())
      ensures msgsIn.View() == ReleaseQueue(cfg, old(msgsIn.View()), 0, 0)
    {
      hide Recount, AllRefs, store.Valid, ReleaseQueue, QueueBounded;
      ReleaseKeepsOrder(cfg, msgsIn.View(), 0, 0);
      SuffixKeepsBound(cfg, msgsIn.View(), ReleaseQueue(cfg, msgsIn.View(), 0, 0), peakIn);
      msgsIn.ReleaseQueued(cfg);
    }

    // ----- Deleting everything -----

    method FreeFirstInflight(data: MsgData)
      requires Attached() && (data == msgsIn || data == msgsOut) && data.inflight != []
      modifies data, store
      ensures Attached() && Others() == old(Others())
      ensures data.View() == old(data.View()).(inflight := old(data.inflight)[1..])
    {
      hide InflightCount, QueuedCount, AllRefs, store.Valid, Narrowed;
      ghost var before := Held();
      var s := data.inflight[0].store;
      data.PopInflight();
      Swapped(AllRefs(data.View()), AllRefs((if data == msgsIn then msgsOut else msgsIn).View()), multiset{s});
      LetGo(s, before);
    }

    method FreeFirstQueued(data: MsgData)
      requires Attached() && (data == msgsIn || data == msgsOut) && data.queued != []
      modifies data, store
      ensures Attached() && Others() == old(Others())
      ensures data.View() == old(data.View()).(queued := old(data.queued)[1..])
    {
      hide InflightCount, QueuedCount, AllRefs, store.Valid, Narrowed;
      ghost var before := Held();
      var s := data.queued[0].store;
      data.PopQueued();
      Swapped(AllRefs(data.View()), AllRefs((if data == msgsIn then msgsOut else msgsIn).View()), multiset{s});
      LetGo(s, before);
    }

    /** db__messages_delete_list on both lists; the counters are not touched yet. */
    method DeleteLists(data: MsgData)
      requires Attached() && (data == msgsIn || data == msgsOut)
      modifies data, store
      ensures Attached() && Others() == old(Others())
      ensures data.View() == old(data.View()).(inflight := [], queued := [])
    {
      hide Attached, Others;
      while |data.inflight| > 0
        invariant Attached() && Others() == old(Others())
        invariant data.queued == old(data.queued) && data.quota == old(data.quota) && data.maximum == old(data.maximum)
        invariant data.stale == old(data.stale)
        decreases |data.inflight|
      {
        FreeFirstInflight(data);
      }
      while |data.queued| > 0
        invariant Attached() && Others() == old(Others())
        invariant data.inflight == [] && data.quota == old(data.quota) && data.maximum == old(data.maximum)
        invariant data.stale == old(data.stale)
        decreases |data.queued|
      {
        FreeFirstQueued(data);
      }
    }

    method ZeroCounters(data: MsgData)
      requires Attached() && (data == msgsIn || data == msgsOut) && data.inflight == [] && data.queued == []
      modifies data
      ensures Attached() && Others() == old(Others()) && data.Counted()
      ensures data.View() == old(data.View()).(stale := NO_STALE)
    {
      hide InflightCount, QueuedCount, Refs, store.Valid;
      data.ZeroCounters();
      NothingCounted(data.View());
    }

    method DeleteIncoming()
      requires Valid()
      modifies msgsIn, store
      ensures Valid() && Others() == old(Others())
      ensures msgsIn.View() == old(msgsIn.View()).(inflight := [], queued := [], stale := NO_STALE)
    {
      hide Attached, Others, AllRefs, Recount;
      Distinct();
      DeleteLists(msgsIn);
      ZeroCounters(msgsIn);
      RecountNone(msgsIn.queued);
    }

    method DeleteOutgoing()
      requires Valid()
      modifies msgsOut, store
      ensures Valid() && Others() == old(Others())
      ensures msgsOut.View() == old(msgsOut.View()).(inflight := [], queued := [], stale := NO_STALE)
    {
      hide Attached, Others, AllRefs, Recount;
      Distinct();
      DeleteLists(msgsOut);
      ZeroCounters(msgsOut);
      RecountNone(msgsOut.queued);
    }

    /** db__messages_delete. */
    method MessagesDelete(forceFree: bool)
      requires Valid()
      modifies msgsIn, msgsOut, store
      ensures Valid() && Others() == old(Others())
      ensures msgsIn.View() ==
              if forceFree || cleanStart || (bridge.Bridge? && bridge.cleanStart)
              then old(msgsIn.View()).(inflight := [], queued := [], stale := NO_STALE) else old(msgsIn.View())
      ensures msgsOut.View() ==
              if forceFree || (bridge.Bridge? && bridge.cleanStartLocal) || (bridge.NoBridge? && cleanStart)
              then old(msgsOut.View()).(inflight := [], queued := [], stale := NO_STALE) else old(msgsOut.View())
    {
      hide Valid, Others;
      Distinct();
      if forceFree || cleanStart || (bridge.Bridge? && bridge.cleanStart) { DeleteIncoming(); }
      if forceFree || (bridge.Bridge? && bridge.cleanStartLocal) || (bridge.NoBridge? && cleanStart) {
        DeleteOutgoing();
      }
    }

    lemma Distinct()
      requires Valid()
      ensures msgsIn != msgsOut
    {
    }

    // ----- Reconnects -----

    /** The in-flight loop of db__message_reconnect_reset_incoming. */
    method KeepIncoming()
      requires Attached() && msgsIn.InflightTally() == ZERO && msgsIn.QueuedTally() == ZERO && msgsIn.stale == NO_STALE
      modifies msgsIn, store
      ensures Attached() && Others() == old(Others())
      ensures msgsIn.View() == old(msgsIn.View()).(inflight := KeepQos2(old(msgsIn.inflight)),
                                                   quota := Charged(old(msgsIn.inflight), old(msgsIn.quota)))
      ensures msgsIn.InflightTally() == Recount(msgsIn.inflight) && msgsIn.QueuedTally() == ZERO
    {
      hide Recount, Attached, Others, Narrowed, Without, Plus, Minus, KeptSoFar, KeepQos2, Charged;
      ghost var kept: seq<ClientMsg>, rest := [], msgsIn.inflight;
      ghost var before := msgsIn.View();
      KeepStart(before.inflight, before.quota);
      RecountNone(kept);
      var i := 0;
      while i < |msgsIn.inflight|
        invariant i == |kept| && KeptSoFar(before.inflight, before.quota, msgsIn.inflight, msgsIn.quota, kept, rest)
        invariant msgsIn.View() == before.(inflight := msgsIn.inflight, quota := msgsIn.quota)
        invariant Attached() && Others() == old(Others())
        invariant msgsIn.InflightTally() == Recount(kept) && msgsIn.QueuedTally() == ZERO
        decreases |rest|
      {
        KeepNext(before.inflight, before.quota, msgsIn.inflight, msgsIn.quota, kept, rest);
        var m := msgsIn.inflight[i];
        CountAndCharge(i);
        Appended(kept, m);
        PlusMinus(Recount(kept), m);
        if m.qos != 2 {
          MessageRemove(msgsIn, i);
        } else {
          kept := kept + [m];
          i := i + 1;
        }
        rest := rest[1..];
      }
      KeepDone(before.inflight, before.quota, msgsIn.inflight, msgsIn.quota, kept, rest);
    }

    /** Counts a message in flight and takes it off the receive quota. */
    method CountAndCharge(i: nat)
      requires Attached() && i < |msgsIn.inflight|
      modifies msgsIn
      ensures Attached() && Others() == old(Others())
      ensures msgsIn.View() == old(msgsIn.View()).(
                quota := if old(msgsIn.inflight)[i].qos > 0 then Decrement(old(msgsIn.quota)) else old(msgsIn.quota))
      ensures msgsIn.InflightTally() == Plus(old(msgsIn.InflightTally()), old(msgsIn.inflight)[i])
      ensures msgsIn.QueuedTally() == old(msgsIn.QueuedTally())
    {
      hide Refs, store.Valid;
      msgsIn.AddToInflightStats(msgsIn.inflight[i]);
      if msgsIn.inflight[i].qos > 0 { msgsIn.DecrementQuota(); }
    }

    method ReconnectResetIncoming(packets: int)
      requires Attached()
      modifies msgsIn, store
      ensures Attached() && msgsIn.Counted() && Others() == old(Others())
      ensures msgsIn.View() == ResetIncoming(cfg, old(msgsIn.View()), packets)
    {
      hide Recount, Refs, store.Valid, WalkQueue, KeepQos2, Charged;
      msgsIn.ZeroCounters();
      msgsIn.quota := msgsIn.maximum as nat;
      KeepIncoming();
      msgsIn.WalkQueued(cfg, Incoming, packets);
    }

    /** db__message_reconnect_reset: whatever the counters were, all of them agree afterwards. */
    method ReconnectReset(packets: int)
      requires Attached() && Bounded()
      modifies msgsIn, msgsOut, store
      ensures Valid() && Others() == old(Others())
      ensures msgsOut.View() == ResetOutgoing(cfg, old(msgsOut.View()), packets)
      ensures msgsIn.View() == ResetIncoming(cfg, old(msgsIn.View()), packets)
    {
      hide Recount, Refs, store.Valid, BrokerMsgs.ResetOutgoing, BrokerMsgs.ResetIncoming, QueueBounded;
      ResetKeepsBound(cfg, msgsOut.View(), msgsIn.View(), packets, peakOut, peakIn);
      msgsOut.ReconnectResetOutgoing(cfg, packets);
      ReconnectResetIncoming(packets);
    }

    /** db__message_store_find: the first stored message with this source identifier, in flight first. */
    method MessageStoreFind(mid: uint16) returns (rc: Rc, found: Option<Stored>)
      ensures var all := msgsIn.inflight + msgsIn.queued;
              var k := FindSource(all, mid);
              (rc, found) == if k < |all| then (Success, Some(all[k].store)) else (Nomem, None)
    {
      ghost var all := msgsIn.inflight + msgsIn.queued;
      var i := 0;
      while i < |msgsIn.inflight|
        invariant i <= |msgsIn.inflight| && forall j :: 0 <= j < i ==> all[j].store.sourceMid != mid
      {
        assert msgsIn.inflight[i] == all[i];
        if msgsIn.inflight[i].store.sourceMid == mid { return Success, Some(msgsIn.inflight[i].store); }
        i := i + 1;
      }
      var k := 0;
      while k < |msgsIn.queued|
        invariant k <= |msgsIn.queued|
        invariant forall j :: 0 <= j < |msgsIn.inflight| + k ==> all[j].store.sourceMid != mid
      {
        assert msgsIn.queued[k] == all[|msgsIn.inflight| + k];
        if msgsIn.queued[k].store.sourceMid == mid { return Success, Some(msgsIn.queued[k].store); }
        k := k + 1;
      }
      return Nomem, None;
    }

    /** Whether the broker takes one more message from this client, from the counters. */
    method MayTake(qos: nat) returns (ok: bool)
      requires Valid()
      ensures ok == MayStore(cfg, connected, msgsIn.View(), qos)
    {
      hide Valid, Ready, QueueReady, InflightCount, QueuedCount;
      if qos == 0 { return true; }
      CountersAgree(msgsIn);
      ok := msgsIn.ReadyForFlight(cfg, Incoming, qos, 0);
      if !ok { ok := msgsIn.ReadyForQueue(cfg, connected, qos); }
    }

    method MessageWriteQueuedIn(send: nat -> Rc) returns (rc: Rc)
      requires Valid()
      modifies msgsIn
      ensures Valid() && Others() == old(Others())
      ensures (rc, msgsIn.View()) == if !active then (Success, old(msgsIn.View()))
                                     else QueuedIn(old(msgsIn.View()), 0, msgsOut.maximum, 0, send)
    {
      hide Recount, AllRefs, store.Valid, QueuedIn, QueueBounded;
      if !active { return Success; }
      QueuedInKeepsOrder(msgsIn.View(), 0, msgsOut.maximum, 0, send);
      SuffixKeepsBound(cfg, msgsIn.View(), QueuedIn(msgsIn.View(), 0, msgsOut.maximum, 0, send).1, peakIn);
      rc := msgsIn.WriteQueuedIn(msgsOut.maximum, send);
    }
  }

  lemma ResetKeepsBound(cfg: Config, o: Lists, i: Lists, packets: int, peakOut: nat, peakIn: nat)
    requires QueueBounded(cfg, o.queued, peakOut) && QueueBounded(cfg, i.queued, peakIn)
    ensures QueueBounded(cfg, ResetOutgoing(cfg, o, packets).queued, peakOut)
    ensures QueueBounded(cfg, ResetIncoming(cfg, i, packets).queued, peakIn)
    ensures ResetOutgoing(cfg, o, packets).maximum == o.maximum && ResetIncoming(cfg, i, packets).maximum == i.maximum
  {
    hide QueueBounded, WalkQueue, Charged;
    var o2 := Restarted(o);
    WalkKeepsOrder(cfg, o2, 0, Outgoing, packets);
    SuffixKeepsBound(cfg, o2, ResetOutgoing(cfg, o, packets), peakOut);
    var i2 := RestartedIncoming(i);
    WalkKeepsOrder(cfg, i2, 0, Incoming, packets);
    SuffixKeepsBound(cfg, i2, ResetIncoming(cfg, i, packets), peakIn);
  }

  /** A permission check under way: kept has been passed, rest is still to come. */
  ghost predicate CheckedSoFar(before: seq<ClientMsg>, staleBefore: seq<ClientMsg>, msgs: seq<ClientMsg>, stale: seq<ClientMsg>,
                               kept: seq<ClientMsg>, rest: seq<ClientMsg>, denied: Stored -> bool)
  {
    && msgs == kept + rest && Permitted(before, denied) == kept + Permitted(rest, denied)
    && staleBefore + Denied(before, denied) == stale + Denied(rest, denied)
  }

  lemma CheckStart(msgs: seq<ClientMsg>, stale: seq<ClientMsg>, denied: Stored -> bool)
    ensures CheckedSoFar(msgs, stale, msgs, stale, [], msgs, denied)
  {
  }

  lemma CheckNext(before: seq<ClientMsg>, staleBefore: seq<ClientMsg>, msgs: seq<ClientMsg>, stale: seq<ClientMsg>,
                  kept: seq<ClientMsg>, rest: seq<ClientMsg>, denied: Stored -> bool)
    requires CheckedSoFar(before, staleBefore, msgs, stale, kept, rest, denied) && |kept| < |msgs|
    ensures var k := |kept|;
            && rest != [] && msgs[k] == rest[0]
            && if denied(msgs[k].store)
               then CheckedSoFar(before, staleBefore, Without(msgs, k), stale + [msgs[k]], kept, rest[1..], denied)
               else CheckedSoFar(before, staleBefore, msgs, stale, kept + [msgs[k]], rest[1..], denied)
  {
    DropMiddle(kept, rest);
    Grouped(stale, [rest[0]], Denied(rest[1..], denied));
    Grouped(kept, [rest[0]], Permitted(rest[1..], denied));
    Grouped(kept, [rest[0]], rest[1..]);
  }

  lemma CheckDone(before: seq<ClientMsg>, staleBefore: seq<ClientMsg>, msgs: seq<ClientMsg>, stale: seq<ClientMsg>,
                  kept: seq<ClientMsg>, rest: seq<ClientMsg>, denied: Stored -> bool)
    requires CheckedSoFar(before, staleBefore, msgs, stale, kept, rest, denied) && |msgs| <= |kept|
    ensures msgs == Permitted(before, denied) && stale == staleBefore + Denied(before, denied)
  {
    assert rest == [];
    Joined(kept);
    Joined(stale);
  }

  /** The reset of the messages in flight to the broker, under way. */
  ghost predicate KeptSoFar(before: seq<ClientMsg>, quotaBefore: nat, msgs: seq<ClientMsg>, quota: nat,
                            kept: seq<ClientMsg>, rest: seq<ClientMsg>)
  {
    msgs == kept + rest && KeepQos2(before) == kept + KeepQos2(rest) && Charged(before, quotaBefore) == Charged(rest, quota)
  }

  lemma KeepStart(msgs: seq<ClientMsg>, quota: nat)
    ensures KeptSoFar(msgs, quota, msgs, quota, [], msgs)
  {
  }

  lemma KeepNext(before: seq<ClientMsg>, quotaBefore: nat, msgs: seq<ClientMsg>, quota: nat,
                 kept: seq<ClientMsg>, rest: seq<ClientMsg>)
    requires KeptSoFar(before, quotaBefore, msgs, quota, kept, rest) && |kept| < |msgs|
    ensures var k := |kept|;
            var left := if msgs[k].qos > 0 then Decrement(quota) else quota;
            && rest != [] && msgs[k] == rest[0]
            && if msgs[k].qos != 2
               then KeptSoFar(before, quotaBefore, Without(msgs, k), left, kept, rest[1..])
               else KeptSoFar(before, quotaBefore, msgs, left, kept + [msgs[k]], rest[1..])
  {
    DropMiddle(kept, rest);
    Grouped(kept, [rest[0]], KeepQos2(rest[1..]));
    Grouped(kept, [rest[0]], rest[1..]);
  }

  lemma KeepDone(before: seq<ClientMsg>, quotaBefore: nat, msgs: seq<ClientMsg>, quota: nat,
                 kept: seq<ClientMsg>, rest: seq<ClientMsg>)
    requires KeptSoFar(before, quotaBefore, msgs, quota, kept, rest) && |msgs| <= |kept|
    ensures msgs == KeepQos2(before) == kept && quota == Charged(before, quotaBefore)
  {
    assert rest == [];
    Joined(kept);
  }

  lemma PlusMinus(t: Tally, m: ClientMsg)
    ensures Minus(Plus(t, m), m) == t
  {
  }

  lemma DropMiddle(kept: seq<ClientMsg>, rest: seq<ClientMsg>)
    requires rest != []
    ensures Without(kept + rest, |kept|) == kept + rest[1..]
  {
  }

  lemma SingleLength(d: Lists, k: nat, sent: Rc, now: nat)
    requires k < |d.inflight|
    ensures var e := WriteSingle(d, k, sent, now).1;
            |d.inflight| - 1 <= |e.inflight| <= |d.inflight|
  {
  }
}
