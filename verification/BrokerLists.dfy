/**
 The two message lists of a client in one direction as they work: lists, quota and eight
 counters changed in place.
 */
module BrokerLists {
  import opened Bytes
  import opened BrokerMsgs

  /** The two lists of one direction and their counters (struct mosquitto_msg_data). */
  class MsgData {
    var inflight: seq<ClientMsg>
    var queued: seq<ClientMsg>
    var quota: nat
    var maximum: uint16

    var inflightCount: int
    var inflightBytes: int
    var inflightCount12: int
    var inflightBytes12: int
    var queuedCount: int
    var queuedBytes: int
    var queuedCount12: int
    var queuedBytes12: int
    /** Messages that are gone from the lists but not from the counters. */
    ghost var stale: Stale

    constructor (maximum: uint16)
      ensures Counted() && View() == Exact([], [], maximum, maximum)
    {
      hide InflightCount, QueuedCount;
      NothingCounted(Exact([], [], maximum, maximum));
      stale := NO_STALE;
      inflight, queued, quota, this.maximum := [], [], maximum as nat, maximum;
      inflightCount, inflightBytes, inflightCount12, inflightBytes12 := 0, 0, 0, 0;
      queuedCount, queuedBytes, queuedCount12, queuedBytes12 := 0, 0, 0, 0;
    }

    ghost function View(): Lists
      reads this
    {
      Lists(inflight, queued, quota, maximum, stale)
    }

    function InflightTally(): Tally
      reads this
    {
      Tally(inflightCount, inflightBytes, inflightCount12, inflightBytes12)
    }

    function QueuedTally(): Tally
      reads this
    {
      Tally(queuedCount, queuedBytes, queuedCount12, queuedBytes12)
    }

    /** All eight counters agree with a recount of the lists and of what is still counted. */
    ghost predicate Counted()
      reads this
    {
      InflightTally() == InflightCount(View()) && QueuedTally() == QueuedCount(View())
    }

    method AddToInflightStats(m: ClientMsg)
      modifies `inflightCount, `inflightBytes, `inflightCount12, `inflightBytes12
      ensures InflightTally() == Plus(old(InflightTally()), m)
    {
      inflightCount := inflightCount + 1;
      inflightBytes := inflightBytes + m.store.payloadLen;
      if m.qos != 0 {
        inflightCount12 := inflightCount12 + 1;
        inflightBytes12 := inflightBytes12 + m.store.payloadLen;
      }
    }

    method RemoveFromInflightStats(m: ClientMsg)
      modifies `inflightCount, `inflightBytes, `inflightCount12, `inflightBytes12
      ensures InflightTally() == Minus(old(InflightTally()), m)
    {
      inflightCount := inflightCount - 1;
      inflightBytes := inflightBytes - m.store.payloadLen;
      if m.qos != 0 {
        inflightCount12 := inflightCount12 - 1;
        inflightBytes12 := inflightBytes12 - m.store.payloadLen;
      }
    }

    method AddToQueuedStats(m: ClientMsg)
      modifies `queuedCount, `queuedBytes, `queuedCount12, `queuedBytes12
      ensures QueuedTally() == Plus(old(QueuedTally()), m)
    {
      queuedCount := queuedCount + 1;
      queuedBytes := queuedBytes + m.store.payloadLen;
      if m.qos != 0 {
        queuedCount12 := queuedCount12 + 1;
        queuedBytes12 := queuedBytes12 + m.store.payloadLen;
      }
    }

    method RemoveFromQueuedStats(m: ClientMsg)
      modifies `queuedCount, `queuedBytes, `queuedCount12, `queuedBytes12
      ensures QueuedTally() == Minus(old(QueuedTally()), m)
    {
      queuedCount := queuedCount - 1;
      queuedBytes := queuedBytes - m.store.payloadLen;
      if m.qos != 0 {
        queuedCount12 := queuedCount12 - 1;
        queuedBytes12 := queuedBytes12 - m.store.payloadLen;
      }
    }

    /** Moves the head of the queue in flight, with its share of the counters and of the quota. */
    method DequeueFirst()
      requires queued != []
      modifies this
      ensures View() == Dequeue(old(View()))
      ensures InflightTally() == Plus(old(InflightTally()), old(queued)[0])
      ensures QueuedTally() == Minus(old(QueuedTally()), old(queued)[0])
      ensures |queued| == |old(queued)| - 1 && (old(Counted()) ==> Counted())
      ensures AllRefs(View()) == old(AllRefs(View()))
    {
      hide InflightCount, QueuedCount, AllRefs, Plus, Minus;
      var m := queued[0];
      DequeueCounts(View());
      queued := queued[1..];
      inflight := inflight + [m];
      if quota > 0 { quota := quota - 1; }
      RemoveFromQueuedStats(m);
      AddToInflightStats(m);
    }

    /** Takes the k-th message out of flight and out of the counters. */
    method Unlink(k: nat)
      requires k < |inflight|
      modifies this
      ensures View() == old(View()).(inflight := Without(old(inflight), k))
      ensures InflightTally() == Minus(old(InflightTally()), old(inflight)[k]) && QueuedTally() == old(QueuedTally())
      ensures old(Counted()) ==> Counted()
      ensures old(AllRefs(View())) == AllRefs(View()) + multiset{old(inflight)[k].store}
    {
      hide InflightCount, QueuedCount, AllRefs, Without, Plus, Minus;
      var m := inflight[k];
      UnlinkCounts(View(), k);
      inflight := Without(inflight, k);
      RemoveFromInflightStats(m);
    }

    /** Puts a message at the end of the list its state calls for, and into the counters. */
    method Append(m: ClientMsg)
      modifies this
      ensures View() == if m.state == Queued then old(View()).(queued := old(queued) + [m])
                        else old(View()).(inflight := old(inflight) + [m])
      ensures old(Counted()) ==> Counted()
      ensures AllRefs(View()) == old(AllRefs(View())) + multiset{m.store}
    {
      hide InflightCount, QueuedCount, AllRefs, Plus, Minus;
      AppendCounts(View(), m);
      if m.state == Queued {
        queued := queued + [m];
        AddToQueuedStats(m);
      } else {
        inflight := inflight + [m];
        AddToInflightStats(m);
      }
    }

    /** db__ready_for_flight, from the counters. */
    method ReadyForFlight(cfg: Config, dir: Direction, qos: nat, packets: int) returns (ready: bool)
      ensures ready == Ready(cfg, InflightTally(), quota, maximum, dir, qos, packets)
    {
      var validBytes: bool, validCount: bool;
      if maximum == 0 && cfg.maxInflightBytes == 0 { return true; }
      if qos == 0 {
        if cfg.maxQueuedMessages == 0 && cfg.maxInflightBytes == 0 { return true; }
        validBytes := inflightBytes - cfg.maxInflightBytes < cfg.maxQueuedBytes;
        if dir == Outgoing {
          validCount := packets < cfg.maxQueuedMessages;
        } else {
          validCount := inflightCount - maximum < cfg.maxQueuedMessages;
        }
        if cfg.maxQueuedMessages == 0 { return validBytes; }
        if cfg.maxQueuedBytes == 0 { return validCount; }
      } else {
        validBytes := inflightBytes12 < cfg.maxInflightBytes;
        validCount := quota > 0;
        if maximum == 0 { return validBytes; }
        if cfg.maxInflightBytes == 0 { return validCount; }
      }
      return validBytes && validCount;
    }

    /** db__ready_for_queue, from the counters. */
    method ReadyForQueue(cfg: Config, connected: bool, qos: nat) returns (ready: bool)
      ensures ready == QueueReady(cfg, QueuedTally(), maximum, connected, qos)
    {
      var adjustBytes: int := cfg.maxInflightBytes;
      if cfg.maxQueuedMessages == 0 && cfg.maxQueuedBytes == 0 { return true; }
      if qos == 0 && !cfg.queueQos0Messages { return false; }
      var sourceBytes := queuedBytes12;
      var sourceCount := queuedCount12;
      var adjustCount: int := maximum;
      if !connected { adjustBytes, adjustCount := 0, 0; }
      var validBytes := sourceBytes - adjustBytes < cfg.maxQueuedBytes;
      var validCount := sourceCount - adjustCount < cfg.maxQueuedMessages;
      if cfg.maxQueuedBytes == 0 { return validCount; }
      if cfg.maxQueuedMessages == 0 { return validBytes; }
      return validBytes && validCount;
    }

    /** A change of state on the k-th message in flight touches no counter and no reference. */
    method SetInflight(k: nat, m: ClientMsg)
      requires k < |inflight| && SameMessage(inflight[k], m) && Counted()
      modifies `inflight
      ensures View() == old(View()).(inflight := old(inflight)[k := m])
      ensures Counted() && AllRefs(View()) == old(AllRefs(View()))
    {
      UpdatedIsSame(inflight, inflight[k := m], k);
      inflight := inflight[k := m];
    }

    /** The loop that puts queued messages in flight while there is room. */
    method PromoteQueued(cfg: Config, packets: int)
      requires Counted()
      modifies this
      ensures View() == Promote(cfg, old(View()), packets)
      ensures Counted() && AllRefs(View()) == old(AllRefs(View()))
    {
      hide Ready, Recount, Refs, Dequeue;
      while |queued| > 0
        invariant Promote(cfg, View(), packets) == Promote(cfg, old(View()), packets)
        invariant Counted() && AllRefs(View()) == old(AllRefs(View()))
        decreases |queued|
      {
        var ready := ReadyForFlight(cfg, Outgoing, queued[0].qos, packets);
        if !ready { break; }
        MarkQueued(0, ToPublish(queued[0]));
        DequeueFirst();
      }
    }

    method MarkQueued(k: nat, m: ClientMsg)
      requires k < |queued| && SameMessage(queued[k], m)
      modifies `queued
      ensures View() == old(View()).(queued := old(queued)[k := m])
      ensures (old(Counted()) ==> Counted()) && AllRefs(View()) == old(AllRefs(View()))
    {
      UpdatedIsSame(queued, queued[k := m], k);
      queued := queued[k := m];
    }

    /**
     The queue loop of a reconnect. It starts from queued counters of zero and counts each
     message as it passes, while the head of the queue moves away.
     */
    method WalkQueued(cfg: Config, dir: Direction, packets: int)
      requires InflightTally() == Recount(inflight) && QueuedTally() == ZERO && stale == NO_STALE
      modifies this
      ensures View() == WalkQueue(cfg, old(View()), 0, dir, packets)
      ensures Counted() && AllRefs(View()) == old(AllRefs(View()))
    {
      hide Ready, Recount, Refs, ToPublish, Plus, Minus;
      var k := 0;
      RecountNone(queued[..0]);
      RecountNone([]);
      while k < |queued|
        invariant k <= |queued| && stale == NO_STALE
        invariant InflightTally() == Recount(inflight) && QueuedTally() == Recount(queued[..k])
        invariant WalkQueue(cfg, View(), k, dir, packets) == WalkQueue(cfg, old(View()), 0, dir, packets)
        invariant AllRefs(View()) == old(AllRefs(View()))
        decreases |queued| - k
      {
        CountedOneMore(queued, k);
        AddToQueuedStats(queued[k]);
        var ready := ReadyForFlight(cfg, dir, queued[k].qos, packets);
        if ready {
          ghost var before := queued;
          MarkedIsSame(queued[k]);
          MarkCounts(queued, k, ToPublish(queued[k]));
          MarkQueued(k, ToPublish(queued[k]));
          Appended(inflight, queued[0]);
          HeadCounts(queued, k);
          DequeueFirst();
        } else {
          k := k + 1;
        }
      }
      assert queued[..k] == queued;
    }

    /** db__message_write_queued_in, once the client is active. */
    method WriteQueuedIn(outMaximum: uint16, send: nat -> Rc) returns (rc: Rc)
      requires Counted()
      modifies this
      ensures (rc, View()) == QueuedIn(old(View()), 0, outMaximum, 0, send)
      ensures Counted() && AllRefs(View()) == old(AllRefs(View()))
    {
      hide Recount, AllRefs, Dequeue;
      var k: nat, n: nat := 0, 0;
      while k < |queued|
        invariant QueuedIn(View(), k, outMaximum, n, send) == QueuedIn(old(View()), 0, outMaximum, 0, send)
        invariant Counted() && AllRefs(View()) == old(AllRefs(View()))
        decreases |queued| - k
      {
        if outMaximum != 0 && quota == 0 { break; }
        if queued[k].qos == 2 {
          MarkQueued(k, queued[k].(state := SendPubrec));
          TakeHead();
          if send(n) != Success { return send(n); }
          AnswerExamined(k);
          n := n + 1;
        } else {
          k := k + 1;
        }
      }
      return Success;
    }

    /** The queue loop of db__message_release_incoming. */
    method ReleaseQueued(cfg: Config)
      requires Counted()
      modifies this
      ensures View() == ReleaseQueue(cfg, old(View()), 0, 0)
      ensures Counted() && AllRefs(View()) == old(AllRefs(View()))
    {
      hide Recount, AllRefs, Dequeue, Ready;
      var k: nat := 0;
      while k < |queued|
        invariant ReleaseQueue(cfg, View(), k, 0) == ReleaseQueue(cfg, old(View()), 0, 0)
        invariant Counted() && AllRefs(View()) == old(AllRefs(View()))
        decreases |queued| - k
      {
        var ready := ReadyForFlight(cfg, Incoming, queued[k].qos, 0);
        if ready { break; }
        if queued[k].qos == 2 {
          MarkQueued(k, queued[k].(state := WaitForPubrel));
          TakeHead();
        } else {
          k := k + 1;
        }
      }
    }

    method TakeHead()
      requires queued != [] && Counted()
      modifies this
      ensures View() == Dequeue(old(View())) && |queued| == |old(queued)| - 1 && inflight != []
      ensures Counted() && AllRefs(View()) == old(AllRefs(View()))
    {
      hide Recount, AllRefs;
      DequeueFirst();
    }

    method AnswerExamined(k: nat)
      requires inflight != [] && k <= |queued| && Counted()
      modifies this
      ensures View() == Answered(old(View()), k) && |queued| == |old(queued)|
      ensures Counted() && AllRefs(View()) == old(AllRefs(View()))
    {
      hide Recount, AllRefs;
      if k == 0 {
        var last := |inflight| - 1;
        SetInflight(last, inflight[last].(state := WaitForPubrel));
      } else {
        MarkQueued(k - 1, queued[k - 1].(state := WaitForPubrel));
      }
    }

    method PopInflight()
      requires inflight != []
      modifies `inflight
      ensures View() == old(View()).(inflight := old(inflight)[1..])
      ensures old(AllRefs(View())) == AllRefs(View()) + multiset{old(inflight)[0].store}
    {
      inflight := inflight[1..];
    }

    method PopQueued()
      requires queued != []
      modifies `queued
      ensures View() == old(View()).(queued := old(queued)[1..])
      ensures old(AllRefs(View())) == AllRefs(View()) + multiset{old(queued)[0].store}
    {
      queued := queued[1..];
    }

    /** Takes the k-th message out of flight, but not out of the counters. */
    method ForgetInflight(k: nat)
      requires k < |inflight|
      modifies `inflight, `stale
      ensures View() == old(View()).(inflight := Without(old(inflight), k),
                                     stale := Stale(old(stale.inflight) + [old(inflight)[k]], old(stale.queued)))
      ensures old(Counted()) ==> Counted()
      ensures old(AllRefs(View())) == AllRefs(View()) + multiset{old(inflight)[k].store}
    {
      hide InflightCount, QueuedCount, AllRefs, Without;
      ForgetInflightCounts(View(), k);
      stale := stale.(inflight := stale.inflight + [inflight[k]]);
      inflight := Without(inflight, k);
    }

    method ForgetQueued(k: nat)
      requires k < |queued|
      modifies `queued, `stale
      ensures View() == old(View()).(queued := Without(old(queued), k),
                                     stale := Stale(old(stale.inflight), old(stale.queued) + [old(queued)[k]]))
      ensures old(Counted()) ==> Counted()
      ensures old(AllRefs(View())) == AllRefs(View()) + multiset{old(queued)[k].store}
    {
      hide InflightCount, QueuedCount, AllRefs, Without;
      ForgetQueuedCounts(View(), k);
      stale := stale.(queued := stale.queued + [queued[k]]);
      queued := Without(queued, k);
    }

    method IncrementQuota()
      modifies `quota
      ensures quota == Increment(old(quota), maximum)
    {
      if quota < maximum as nat { quota := quota + 1; }
    }

    /** The limit a peer announces, and a full quota with it. */
    method SetMaximum(value: uint16)
      modifies `quota, `maximum
      ensures View() == old(View()).(maximum := value, quota := value)
    {
      maximum := value;
      quota := maximum as nat;
    }

    method CopyCounters(other: MsgData)
      modifies `inflightCount, `inflightBytes, `inflightCount12, `inflightBytes12,
               `queuedCount, `queuedBytes, `queuedCount12, `queuedBytes12
      ensures InflightTally() == old(other.InflightTally()) && QueuedTally() == old(other.QueuedTally())
    {
      inflightCount, inflightBytes := other.inflightCount, other.inflightBytes;
      inflightCount12, inflightBytes12 := other.inflightCount12, other.inflightBytes12;
      queuedCount, queuedBytes := other.queuedCount, other.queuedBytes;
      queuedCount12, queuedBytes12 := other.queuedCount12, other.queuedBytes12;
    }

    method Blank()
      modifies this
      ensures View() == Exact([], [], 0, 0) && InflightTally() == ZERO && QueuedTally() == ZERO
    {
      inflight, queued, quota, maximum := [], [], 0, 0;
      ZeroCounters();
    }

    /** Takes over the lists and counters of another session, which is left blank; quota and maximum stay. */
    method TakeFrom(other: MsgData)
      requires this != other
      modifies this, other
      ensures View() == Inherited(old(View()), old(other.View()))
      ensures other.View() == Exact([], [], 0, 0) && other.Counted() && (old(other.Counted()) ==> Counted())
      ensures AllRefs(View()) == old(AllRefs(other.View())) && AllRefs(other.View()) == multiset{}
    {
      hide InflightCount, QueuedCount, AllRefs;
      NothingCounted(Exact([], [], 0, 0));
      TakenOverCounts(View(), other.View());
      inflight, queued, stale := other.inflight, other.queued, other.stale;
      CopyCounters(other);
      other.Blank();
    }

    method DecrementQuota()
      modifies `quota
      ensures quota == Decrement(old(quota))
    {
      if quota > 0 { quota := quota - 1; }
    }

    method ZeroCounters()
      modifies `inflightCount, `inflightBytes, `inflightCount12, `inflightBytes12,
               `queuedCount, `queuedBytes, `queuedCount12, `queuedBytes12, `stale
      ensures InflightTally() == ZERO && QueuedTally() == ZERO && stale == NO_STALE
    {
      stale := NO_STALE;
      inflightBytes, inflightBytes12, inflightCount, inflightCount12 := 0, 0, 0, 0;
      queuedBytes, queuedBytes12, queuedCount, queuedCount12 := 0, 0, 0, 0;
    }

    /** The in-flight loop of a reconnect: counts, charges the quota and sets the states. */
    method RestartInflight()
      requires InflightTally() == ZERO && QueuedTally() == ZERO
      modifies `inflight, `quota, `inflightCount, `inflightBytes, `inflightCount12, `inflightBytes12
      ensures inflight == ResetInflight(old(inflight)) && quota == Charged(old(inflight), old(quota))
      ensures InflightTally() == Recount(inflight) && Refs(inflight) == Refs(old(inflight))
    {
      hide Recount, Refs, Plus;
      ghost var done: seq<ClientMsg>, pending := [], inflight;
      ghost var all := ResetInflight(inflight);
      Joined(inflight);
      Joined(all);
      RecountNone(done);
      var i := 0;
      while i < |inflight|
        invariant inflight == done + pending && i == |done|
        invariant InflightTally() == Recount(done)
        invariant all == done + ResetInflight(pending)
        invariant Charged(pending, quota) == Charged(old(inflight), old(quota))
        invariant Refs(inflight) == Refs(old(inflight))
        decreases |pending|
      {
        var m := inflight[i];
        AddToInflightStats(m);
        if m.qos > 0 && quota > 0 { quota := quota - 1; }
        match m.qos {
          case 0 => m := m.(state := PublishQos0);
          case 1 => m := m.(state := PublishQos1);
          case 2 =>
            if m.state == WaitForPubcomp {
              m := m.(state := ResendPubrel);
            } else {
              m := m.(state := PublishQos2);
            }
          case _ =>
        }
        UpdatedIsSame(inflight, inflight[i := m], i);
        ResetCount(done, pending[0], m);
        Advance(done, pending, m);
        Grouped(done, [m], ResetInflight(pending[1..]));
        inflight := inflight[i := m];
        done, pending := done + [m], pending[1..];
        i := i + 1;
      }
      Joined(done);
    }

    /** db__message_reconnect_reset_outgoing: whatever the counters were, they agree afterwards. */
    method ReconnectResetOutgoing(cfg: Config, packets: int)
      modifies this
      ensures View() == ResetOutgoing(cfg, old(View()), packets)
      ensures Counted() && AllRefs(View()) == old(AllRefs(View()))
    {
      hide Recount, Refs, WalkQueue, ResetInflight, Charged, InflightCount, QueuedCount;
      ZeroCounters();
      quota := maximum as nat;
      RestartInflight();
      WalkQueued(cfg, Outgoing, packets);
    }
  }

  lemma DequeueCounts(d: Lists)
    requires d.queued != []
    ensures InflightCount(Dequeue(d)) == Plus(InflightCount(d), d.queued[0])
    ensures QueuedCount(Dequeue(d)) == Minus(QueuedCount(d), d.queued[0])
    ensures AllRefs(Dequeue(d)) == AllRefs(d)
  {
    hide Recount, Refs;
    Appended(d.inflight, d.queued[0]);
    HeadRemoved(d.queued);
  }

  lemma UnlinkCounts(d: Lists, k: nat)
    requires k < |d.inflight|
    ensures var e := d.(inflight := Without(d.inflight, k));
            && InflightCount(e) == Minus(InflightCount(d), d.inflight[k]) && QueuedCount(e) == QueuedCount(d)
            && AllRefs(d) == AllRefs(e) + multiset{d.inflight[k].store}
  {
    hide Recount, Refs, Without;
    Removed(d.inflight, k);
  }

  lemma AppendCounts(d: Lists, m: ClientMsg)
    ensures var e := d.(queued := d.queued + [m]);
            && QueuedCount(e) == Plus(QueuedCount(d), m) && InflightCount(e) == InflightCount(d)
            && AllRefs(e) == AllRefs(d) + multiset{m.store}
    ensures var e := d.(inflight := d.inflight + [m]);
            && InflightCount(e) == Plus(InflightCount(d), m) && QueuedCount(e) == QueuedCount(d)
            && AllRefs(e) == AllRefs(d) + multiset{m.store}
  {
    hide Recount, Refs;
    Appended(d.queued, m);
    Appended(d.inflight, m);
  }

  lemma ForgetInflightCounts(d: Lists, k: nat)
    requires k < |d.inflight|
    ensures var e := d.(inflight := Without(d.inflight, k), stale := d.stale.(inflight := d.stale.inflight + [d.inflight[k]]));
            && InflightCount(e) == InflightCount(d) && QueuedCount(e) == QueuedCount(d)
            && AllRefs(d) == AllRefs(e) + multiset{d.inflight[k].store}
  {
    hide Recount, Refs, Without;
    Removed(d.inflight, k);
    Appended(d.stale.inflight, d.inflight[k]);
  }

  lemma ForgetQueuedCounts(d: Lists, k: nat)
    requires k < |d.queued|
    ensures var e := d.(queued := Without(d.queued, k), stale := d.stale.(queued := d.stale.queued + [d.queued[k]]));
            && InflightCount(e) == InflightCount(d) && QueuedCount(e) == QueuedCount(d)
            && AllRefs(d) == AllRefs(e) + multiset{d.queued[k].store}
  {
    hide Recount, Refs, Without;
    Removed(d.queued, k);
    Appended(d.stale.queued, d.queued[k]);
  }

  lemma TakenOverCounts(d: Lists, other: Lists)
    ensures var e := d.(inflight := other.inflight, queued := other.queued, stale := other.stale);
            && InflightCount(e) == InflightCount(other) && QueuedCount(e) == QueuedCount(other)
            && AllRefs(e) == AllRefs(other)
    ensures AllRefs(Exact([], [], 0, 0)) == multiset{}
  {
    hide Recount, Refs;
    NoneReferred([]);
  }

  lemma HeadRemoved(msgs: seq<ClientMsg>)
    requires msgs != []
    ensures Recount(msgs[1..]) == Minus(Recount(msgs), msgs[0])
    ensures Refs(msgs) == multiset{msgs[0].store} + Refs(msgs[1..])
  {
  }

  lemma CountedOneMore(msgs: seq<ClientMsg>, k: nat)
    requires k < |msgs|
    ensures Recount(msgs[..k + 1]) == Plus(Recount(msgs[..k]), msgs[k])
  {
    Appended(msgs[..k], msgs[k]);
    assert msgs[..k + 1] == msgs[..k] + [msgs[k]];
  }

  lemma MarkCounts(msgs: seq<ClientMsg>, k: nat, m: ClientMsg)
    requires k < |msgs| && SameMessage(m, msgs[k])
    ensures SameMessage(msgs[k], m) && Recount(msgs[k := m][..k + 1]) == Recount(msgs[..k + 1])
  {
    UpdatedIsSame(msgs[..k + 1], msgs[k := m][..k + 1], k);
  }

  lemma HeadCounts(msgs: seq<ClientMsg>, k: nat)
    requires k < |msgs|
    ensures Recount(msgs[1..][..k]) == Minus(Recount(msgs[..k + 1]), msgs[0])
  {
    HeadRemoved(msgs[..k + 1]);
    assert msgs[..k + 1][1..] == msgs[1..][..k];
  }

  lemma ResetCount(done: seq<ClientMsg>, m: ClientMsg, n: ClientMsg)
    requires n == m.(state := n.state)
    ensures Recount(done + [n]) == Plus(Recount(done), m)
  {
    Appended(done, n);
  }

  lemma Joined<T>(s: seq<T>)
    ensures [] + s == s && s + [] == s
  {
  }

  lemma Grouped<T>(a: seq<T>, b: seq<T>, c: seq<T>)
    ensures (a + b) + c == a + (b + c)
  {
  }

  lemma Advance(done: seq<ClientMsg>, pending: seq<ClientMsg>, m: ClientMsg)
    requires pending != []
    ensures (done + pending)[|done| := m] == (done + [m]) + pending[1..]
  {
  }
}
