/**
 The client's message engine as it works: lists, quotas and counters changed in place. Each
 method is proved to take the step that ClientQos and ClientReceive give it, so what is proved
 there about runs holds of this class.
 */
module ClientEngine {
  import opened Bytes
  import opened ClientQos
  import opened ClientReceive

  /** What happens to a client: calls by the application and packets from the peer. */
  datatype Event =
    | Publishes(qos: nat)
    | Reconnects
    | GotConnack(limit: Limit, reason: byte)
    | GotPuback(mid: uint16, reason: byte)
    | GotPubcomp(mid: uint16, reason: byte)
    | GotPubrec(mid: uint16, reason: byte)
    | GotPubrel(mid: uint16, reason: byte)
    | GotPublish(mid: uint16, qos: nat, dup: bool)

  /** Packets other than CONNACK are refused until the client is active. */
  function ActiveAfter(active: bool, e: Event): bool {
    match e
    case Reconnects => false
    case GotConnack(_, reason) => active || reason == 0
    case _ => active
  }

  /** What an event is to the outgoing half. */
  function OutPart(active: bool, e: Event): seq<OutEvent> {
    match e
    case Publishes(qos) => [OutEvent.Publish(qos)]
    case Reconnects => [Reconnect]
    case GotConnack(limit, reason) => [Connack(limit, reason)]
    case GotPuback(mid, reason) => if active then [Ack(mid, 1, reason)] else []
    case GotPubcomp(mid, reason) => if active then [Ack(mid, 2, reason)] else []
    case GotPubrec(mid, reason) => if active then [OutEvent.Pubrec(mid, reason)] else []
    case _ => []
  }

  /** What an event is to the incoming half. */
  function InPart(active: bool, e: Event): seq<InEvent> {
    match e
    case Reconnects => [Reset]
    case GotConnack(_, _) => [Reset]
    case GotPubrel(mid, reason) => if active then [InEvent.Pubrel(mid, reason)] else []
    case GotPublish(mid, qos, dup) => if active then [Arrive(mid, qos, dup)] else []
    case _ => []
  }

  function OutEvents(active: bool, es: seq<Event>): seq<OutEvent>
    decreases |es|
  {
    if es == [] then [] else OutPart(active, es[0]) + OutEvents(ActiveAfter(active, es[0]), es[1..])
  }

  function InEvents(active: bool, es: seq<Event>): seq<InEvent>
    decreases |es|
  {
    if es == [] then [] else InPart(active, es[0]) + InEvents(ActiveAfter(active, es[0]), es[1..])
  }

  lemma {:induction false} RunOutConcat(v5: bool, o: Out, a: seq<OutEvent>, b: seq<OutEvent>)
    ensures RunOut(v5, o, a + b) == RunOut(v5, RunOut(v5, o, a), b)
    decreases |a|
  {
    hide StepOut;
    if a == [] {
      assert a + b == b;
    } else {
      assert (a + b)[1..] == a[1..] + b;
      RunOutConcat(v5, StepOut(v5, o, a[0]), a[1..], b);
    }
  }

  lemma {:induction false} RunInConcat(v5: bool, i: In, a: seq<InEvent>, b: seq<InEvent>)
    ensures RunIn(v5, i, a + b) == RunIn(v5, RunIn(v5, i, a), b)
    decreases |a|
  {
    hide StepIn;
    if a == [] {
      assert a + b == b;
    } else {
      assert (a + b)[1..] == a[1..] + b;
      RunInConcat(v5, StepIn(v5, i, a[0]), a[1..], b);
    }
  }

  lemma RunOne(v5: bool, o: Out, e: OutEvent, i: In, f: InEvent)
    ensures RunOut(v5, o, [e]) == StepOut(v5, o, e) && RunOut(v5, o, []) == o
    ensures RunIn(v5, i, [f]) == StepIn(v5, i, f) && RunIn(v5, i, []) == i
  {
    hide StepOut, StepIn;
    assert [e][1..] == [] && [f][1..] == [];
    assert RunOut(v5, StepOut(v5, o, e), []) == StepOut(v5, o, e);
    assert RunIn(v5, StepIn(v5, i, f), []) == StepIn(v5, i, f);
  }

  class Client {
    const v5: bool
    var active: bool
    var lastMid: uint16

    // msgs_out
    var outgoing: seq<Msg>
    var sendQuota: nat
    var sendMaximum: uint16
    var outgoingLen: int

    // msgs_in
    var incoming: seq<Msg>
    var receiveQuota: nat
    var receiveMaximum: uint16
    var incomingLen: int

    // what was published, sent, accepted and handed to on_message
    var published: nat
    var sent: seq<Wire>
    var answered: seq<Wire>
    var accepted: seq<Msg>
    var delivered: seq<Msg>

    constructor (v5: bool, sendMaximum: uint16, receiveMaximum: uint16)
      ensures this.v5 == v5 && !active
      ensures OutView() == Start(sendMaximum) && InView() == StartIn(receiveMaximum)
    {
      this.v5, active, lastMid := v5, false, 0;
      outgoing, sendQuota, this.sendMaximum, outgoingLen := [], sendMaximum as nat, sendMaximum, 0;
      incoming, receiveQuota, this.receiveMaximum, incomingLen := [], receiveMaximum as nat, receiveMaximum, 0;
      published, sent, answered, accepted, delivered := 0, [], [], [], [];
    }

    function OutView(): Out
      reads `outgoing, `sendQuota, `sendMaximum, `outgoingLen, `sent, `published, `lastMid
    {
      Out(outgoing, sendQuota, sendMaximum, outgoingLen, sent, published, lastMid)
    }

    function InView(): In
      reads `incoming, `receiveQuota, `receiveMaximum, `incomingLen, `accepted, `delivered, `answered
    {
      In(incoming, receiveQuota, receiveMaximum, incomingLen, accepted, delivered, answered)
    }

    // ----- Quotas and identifiers -----

    method IncrementSendQuota()
      modifies `sendQuota
      ensures sendQuota == Increment(old(sendQuota), sendMaximum)
    {
      if sendQuota < sendMaximum as nat { sendQuota := sendQuota + 1; }
    }

    method DecrementSendQuota()
      modifies `sendQuota
      ensures sendQuota == Decrement(old(sendQuota))
    {
      if sendQuota > 0 { sendQuota := sendQuota - 1; }
    }

    method IncrementReceiveQuota()
      modifies `receiveQuota
      ensures receiveQuota == Increment(old(receiveQuota), receiveMaximum)
    {
      if receiveQuota < receiveMaximum as nat { receiveQuota := receiveQuota + 1; }
    }

    method DecrementReceiveQuota()
      modifies `receiveQuota
      ensures receiveQuota == Decrement(old(receiveQuota))
    {
      if receiveQuota > 0 { receiveQuota := receiveQuota - 1; }
    }

    method GenerateMid() returns (mid: uint16)
      modifies `lastMid
      ensures mid == lastMid == NextMid(old(lastMid)) && mid != 0
    {
      lastMid := if lastMid == 0xFFFF then 0 else lastMid + 1;
      if lastMid == 0 { lastMid := lastMid + 1; }
      mid := lastMid;
    }

    // ----- The lists -----

    method ReleaseToInflight()
      modifies `outgoing, `sendQuota, `sent
      ensures OutView() == ReleaseOut(old(OutView()))
    {
      hide Release, AsPublish;
      ghost var all := Release(outgoing, sendQuota);
      ghost var done: seq<Msg>, pending, wire: seq<Wire> := [], outgoing, [];
      Empty(outgoing);
      Empty(all.wire);
      Empty(all.msgs);
      var i := 0;
      while i < |outgoing|
        invariant outgoing == done + pending && i == |done|
        invariant sent == old(sent) + wire
        invariant var rest := Release(pending, sendQuota);
                  all.msgs == done + rest.msgs && all.quota == rest.quota && all.wire == wire + rest.wire
        decreases |pending|
      {
        ReleaseStep(pending, sendQuota);
        if sendQuota == 0 {
          Empty(wire);
          return;
        }
        var cur := outgoing[i];
        if cur.qos > 0 && cur.state == Invalid {
          if cur.qos == 1 {
            cur := cur.(state := WaitForPuback);
          } else if cur.qos == 2 {
            cur := cur.(state := WaitForPubrec);
          }
          outgoing := outgoing[i := cur];
          sent := sent + [AsPublish(cur)];
          Regroup(wire, [AsPublish(cur)], Release(pending[1..], Decrement(sendQuota)).wire);
          wire := wire + [AsPublish(cur)];
          DecrementSendQuota();
        }
        Advance(done, pending, cur);
        Regroup(done, [cur], Release(pending[1..], sendQuota).msgs);
        done, pending := done + [cur], pending[1..];
        i := i + 1;
      }
      ReleaseNone(pending, sendQuota);
      Empty(done);
      Empty(wire);
    }

    method QueueOutgoing(m: Msg)
      modifies `outgoing, `outgoingLen, `sendQuota, `sent
      ensures OutView() == ReleaseOut(old(OutView()).(msgs := old(outgoing) + [m], queueLen := old(outgoingLen) + 1))
    {
      outgoing := outgoing + [m];
      outgoingLen := outgoingLen + 1;
      ReleaseToInflight();
    }

    method QueueIncoming(m: Msg)
      modifies `incoming, `incomingLen
      ensures InView() == old(InView()).(held := old(incoming) + [m], queueLen := old(incomingLen) + 1)
    {
      incoming := incoming + [m];
      incomingLen := incomingLen + 1;
    }

    method RemoveOutgoing(mid: uint16, qos: nat) returns (rc: Rc)
      modifies `outgoing, `outgoingLen
      ensures (rc, OutView()) == RemoveOut(old(OutView()), mid, qos)
    {
      var i := 0;
      while i < |outgoing|
        invariant i <= |outgoing| && forall j :: 0 <= j < i ==> outgoing[j].mid != mid
      {
        if outgoing[i].mid == mid {
          assert i == Find(outgoing, mid);
          if outgoing[i].qos != qos { return Protocol; }
          outgoing := outgoing[..i] + outgoing[i + 1..];
          outgoingLen := outgoingLen - 1;
          return Success;
        }
        i := i + 1;
      }
      return NotFound;
    }

    method UpdateOutgoing(mid: uint16, state: MsgState, qos: nat) returns (rc: Rc)
      modifies `outgoing
      ensures (rc, OutView()) == UpdateOut(old(OutView()), mid, state, qos)
    {
      var i := 0;
      while i < |outgoing|
        invariant i <= |outgoing| && forall j :: 0 <= j < i ==> outgoing[j].mid != mid
      {
        if outgoing[i].mid == mid {
          assert i == Find(outgoing, mid);
          if outgoing[i].qos != qos { return Protocol; }
          outgoing := outgoing[i := outgoing[i].(state := state)];
          return Success;
        }
        i := i + 1;
      }
      return NotFound;
    }

    /** Returns the removed message when rc is Success. */
    method RemoveIncoming(mid: uint16, qos: nat) returns (rc: Rc, removed: seq<Msg>)
      modifies `incoming, `incomingLen
      ensures var k := Find(old(incoming), mid);
              if k == |old(incoming)| then rc == NotFound && removed == [] && InView() == old(InView())
              else if old(incoming)[k].qos != qos then rc == Protocol && removed == [] && InView() == old(InView())
              else rc == Success && removed == [old(incoming)[k]]
                   && InView() == old(InView()).(held := Without(old(incoming), k), queueLen := old(incomingLen) - 1)
    {
      removed := [];
      var i := 0;
      while i < |incoming|
        invariant i <= |incoming| && forall j :: 0 <= j < i ==> incoming[j].mid != mid
      {
        if incoming[i].mid == mid {
          assert i == Find(incoming, mid);
          if incoming[i].qos != qos { return Protocol, []; }
          removed := [incoming[i]];
          incoming := incoming[..i] + incoming[i + 1..];
          incomingLen := incomingLen - 1;
          return Success, removed;
        }
        i := i + 1;
      }
      return NotFound, [];
    }

    method ResetIncoming()
      modifies `incoming, `receiveQuota, `incomingLen
      ensures InView() == ResetIn(old(InView()))
    {
      receiveQuota := receiveMaximum as nat;
      incomingLen := 0;
      var i := 0;
      assert incoming[0..] == incoming;
      while i < |incoming|
        invariant i <= |incoming|
        invariant incoming[..i] + Kept(incoming[i..]) == Kept(old(incoming))
        invariant ChargedQuota(incoming[i..], receiveQuota) == ChargedQuota(old(incoming), receiveMaximum)
        invariant incomingLen + |incoming| - i == |old(incoming)|
        decreases |incoming| - i
      {
        ghost var before := incoming;
        assert before[i..][1..] == before[i + 1..];
        incomingLen := incomingLen + 1;
        if incoming[i].qos != 2 {
          incoming := incoming[..i] + incoming[i + 1..];
          assert incoming[i..] == before[i + 1..] && incoming[..i] == before[..i];
        } else {
          DecrementReceiveQuota();
          assert incoming[..i + 1] == incoming[..i] + [incoming[i]];
          i := i + 1;
        }
      }
      assert incoming[..i] + [] == incoming;
    }

    method ResetOutgoing(updateQuotaOnly: bool)
      modifies `outgoing, `sendQuota, `outgoingLen
      ensures OutView() == ResetOut(old(OutView()), updateQuotaOnly)
    {
      hide ResetMsgs;
      sendQuota := sendMaximum as nat;
      outgoingLen := 0;
      ghost var all := ResetMsgs(outgoing, sendQuota, updateQuotaOnly);
      ghost var done: seq<Msg>, pending := [], outgoing;
      Empty(outgoing);
      Empty(all);
      var i := 0;
      while i < |outgoing|
        invariant outgoing == done + pending && i == |done| && |outgoing| == |old(outgoing)| && outgoingLen == i
        invariant sendQuota == if i < sendMaximum as int then sendMaximum as int - i else 0
        invariant all == done + ResetMsgs(pending, sendQuota, updateQuotaOnly)
        decreases |pending|
      {
        ResetStep(pending, sendQuota, updateQuotaOnly);
        outgoingLen := outgoingLen + 1;
        var m := outgoing[i];
        if sendQuota != 0 {
          DecrementSendQuota();
          if !updateQuotaOnly {
            if m.qos == 1 {
              m := m.(state := PublishQos1);
            } else if m.qos == 2 {
              if m.state == WaitForPubrec {
                m := m.(state := PublishQos2);
              } else if m.state == WaitForPubcomp {
                m := m.(state := ResendPubrel);
              }
            }
          }
        } else {
          m := m.(state := Invalid);
        }
        outgoing := outgoing[i := m];
        Advance(done, pending, m);
        Regroup(done, [m], ResetMsgs(pending[1..], sendQuota, updateQuotaOnly));
        done, pending := done + [m], pending[1..];
        i := i + 1;
      }
      ResetNone(pending, sendQuota, updateQuotaOnly);
      Empty(done);
    }

    method ReconnectReset(updateQuotaOnly: bool)
      modifies `incoming, `receiveQuota, `incomingLen, `outgoing, `sendQuota, `outgoingLen
      ensures InView() == ResetIn(old(InView())) && OutView() == ResetOut(old(OutView()), updateQuotaOnly)
    {
      ResetIncoming();
      ResetOutgoing(updateQuotaOnly);
    }

    method RetryCheck()
      modifies `outgoing, `sent
      ensures OutView() == RetryOut(old(OutView()))
    {
      hide RetryAll, AsPublish;
      ghost var all := RetryAll(outgoing);
      ghost var done: seq<Msg>, pending, wire: seq<Wire> := [], outgoing, [];
      Empty(outgoing);
      Empty(all.0);
      Empty(all.1);
      var i := 0;
      while i < |outgoing|
        invariant outgoing == done + pending && i == |done|
        invariant sent == old(sent) + wire
        invariant all.0 == done + RetryAll(pending).0 && all.1 == wire + RetryAll(pending).1
        decreases |pending|
      {
        RetryStep(pending);
        var m := outgoing[i];
        ghost var out := RetryWire(m);
        match m.state {
          case PublishQos1 | PublishQos2 =>
            m := m.(dup := true);
            sent := sent + [AsPublish(m)];
          case WaitForPubrel =>
            m := m.(dup := true);
            sent := sent + [SentPubrec(m.mid)];
          case ResendPubrel | WaitForPubcomp =>
            m := m.(dup := true);
            sent := sent + [SentPubrel(m.mid)];
          case _ =>
        }
        outgoing := outgoing[i := m];
        Advance(done, pending, m);
        Regroup(done, [m], RetryAll(pending[1..]).0);
        Regroup(wire, out, RetryAll(pending[1..]).1);
        done, pending, wire := done + [m], pending[1..], wire + out;
        i := i + 1;
      }
      RetryNone(pending);
      Empty(done);
      Empty(wire);
    }

    // ----- The entry points -----

    /** mosquitto_publish_v5 with QoS 1 or 2, after its checks. */
    method Publish(qos: nat)
      modifies `lastMid, `published, `outgoing, `outgoingLen, `sendQuota, `sent
      ensures OutView() == PublishOut(old(OutView()), qos)
    {
      var mid := GenerateMid();
      var m := Msg(mid, qos, Invalid, false, published);
      published := published + 1;
      QueueOutgoing(m);
    }

    /**
     handle__pubackcomp; parsed is what reading the packet behind its header gives. A packet that
     cannot be read returns quota like one with identifier 0.
     */
    method HandlePubackcomp(headerOk: bool, parsed: Rc, mid: uint16, qos: nat, reason: byte) returns (rc: Rc)
      modifies `outgoing, `outgoingLen, `sendQuota, `sent
      ensures if !old(active) then rc == Protocol && OutView() == old(OutView())
              else if !headerOk then rc == MalformedPacket && OutView() == old(OutView())
              else if parsed != Success then rc == parsed && OutView() == AckOut(v5, old(OutView()), 0, qos, reason).1
              else (rc, OutView()) == AckOut(v5, old(OutView()), mid, qos, reason)
    {
      if !active { return Protocol; }
      if !headerOk { return MalformedPacket; }
      IncrementSendQuota();
      if parsed != Success { return parsed; }
      if mid == 0 { return Protocol; }
      if !AckReasonOk(v5, qos, reason) { return Protocol; }
      rc := RemoveOutgoing(mid, qos);
      if rc != Success && rc != NotFound { return; }
      ReleaseToInflight();
      return Success;
    }

    method HandlePubrec(parsed: Rc, mid: uint16, reason: byte) returns (rc: Rc)
      modifies `outgoing, `outgoingLen, `sendQuota, `sent
      ensures if !old(active) then rc == Protocol && OutView() == old(OutView())
              else if parsed != Success then rc == parsed && OutView() == old(OutView())
              else (rc, OutView()) == PubrecOut(v5, old(OutView()), mid, reason)
    {
      if !active { return Protocol; }
      if parsed != Success { return parsed; }
      if mid == 0 { return Protocol; }
      if !PubrecReasonOk(v5, reason) { return Protocol; }
      if reason < 0x80 || !v5 {
        rc := UpdateOutgoing(mid, WaitForPubcomp, 2);
      } else {
        rc := RemoveOutgoing(mid, 2);
        IncrementSendQuota();
        ReleaseToInflight();
        return Success;
      }
      if rc != NotFound && rc != Success { return; }
      sent := sent + [SentPubrel(mid)];
      return Success;
    }

    method HandlePubrel(parsed: Rc, mid: uint16, reason: byte) returns (rc: Rc)
      modifies `incoming, `incomingLen, `receiveQuota, `answered, `delivered
      ensures if !old(active) then rc == Protocol && InView() == old(InView())
              else if parsed != Success then rc == parsed && InView() == old(InView())
              else (rc, InView()) == PubrelIn(v5, old(InView()), mid, reason)
    {
      if !active { return Protocol; }
      if parsed != Success { return parsed; }
      if mid == 0 { return Protocol; }
      if v5 && reason != 0 && reason != 0x92 { return Protocol; }
      IncrementReceiveQuota();
      answered := answered + [SentPubcomp(mid)];
      var removed;
      rc, removed := RemoveIncoming(mid, 2);
      if rc == Success {
        delivered := delivered + removed;
      } else if rc == NotFound {
        return Success;
      }
    }

    /** handle__publish, once the packet is decoded. */
    method HandlePublish(mid: uint16, qos: nat, dup: bool) returns (rc: Rc)
      modifies `incoming, `incomingLen, `receiveQuota, `answered, `accepted, `delivered
      ensures if !old(active) then rc == Protocol && InView() == old(InView())
              else (rc, InView()) == ReceiveIn(v5, old(InView()), mid, qos, dup)
    {
      if !active { return Protocol; }
      if qos > 0 {
        if v5 && receiveQuota == 0 { return Protocol; }
        if mid == 0 { return Protocol; }
      }
      match qos {
        case 0 =>
          var m := Msg(0, 0, Invalid, dup, |accepted|);
          accepted := accepted + [m];
          delivered := delivered + [m];
          return Success;
        case 1 =>
          var m := Msg(mid, 1, Invalid, dup, |accepted|);
          accepted := accepted + [m];
          DecrementReceiveQuota();
          IncrementReceiveQuota();
          answered := answered + [SentPuback(mid)];
          delivered := delivered + [m];
          return Success;
        case 2 =>
          var m := Msg(mid, 2, WaitForPubrel, dup, |accepted|);
          accepted := accepted + [m];
          DecrementReceiveQuota();
          answered := answered + [SentPubrec(mid)];
          QueueIncoming(m);
          return Success;
        case _ =>
          return Protocol;
      }
    }

    method HandleConnack(limit: Limit, reason: byte) returns (rc: Rc)
      modifies `active, `sendMaximum, `incoming, `receiveQuota, `incomingLen, `outgoing, `sendQuota, `outgoingLen, `sent
      ensures (rc, OutView()) == ConnackOut(old(OutView()), limit, reason)
      ensures InView() == ResetIn(old(InView())) && active == (old(active) || reason == 0)
    {
      hide RetryOut, ResetIn, ResetMsgs;
      if limit.ReceiveMaximum? { sendMaximum := limit.value; }
      sendQuota := sendMaximum as nat;
      ReconnectReset(true);
      match reason {
        case 0 =>
          active := true;
          RetryCheck();
          return Success;
        case 1 | 2 | 3 | 4 | 5 =>
          return ConnRefused;
        case _ =>
          return Protocol;
      }
    }

    method Reconnect()
      modifies `active, `incoming, `receiveQuota, `incomingLen, `outgoing, `sendQuota, `outgoingLen
      ensures OutView() == ResetOut(old(OutView()), false) && InView() == ResetIn(old(InView())) && !active
    {
      active := false;
      ReconnectReset(false);
    }

    // ----- Runs -----

    method Handle(e: Event)
      modifies this
      ensures active == ActiveAfter(old(active), e)
      ensures OutView() == RunOut(v5, old(OutView()), OutPart(old(active), e))
      ensures InView() == RunIn(v5, old(InView()), InPart(old(active), e))
    {
      hide RunOut, RunIn, PublishOut, ResetOut, ConnackOut, AckOut, PubrecOut, ResetIn, PubrelIn, ReceiveIn;
      var rc;
      ghost var was, o, i := active, OutView(), InView();
      match e {
        case Publishes(qos) => Publish(qos);
        case Reconnects => Reconnect();
        case GotConnack(limit, reason) => rc := HandleConnack(limit, reason);
        case GotPuback(mid, reason) => rc := HandlePubackcomp(true, Success, mid, 1, reason);
        case GotPubcomp(mid, reason) => rc := HandlePubackcomp(true, Success, mid, 2, reason);
        case GotPubrec(mid, reason) => rc := HandlePubrec(Success, mid, reason);
        case GotPubrel(mid, reason) => rc := HandlePubrel(Success, mid, reason);
        case GotPublish(mid, qos, dup) => rc := HandlePublish(mid, qos, dup);
      }
      HandledSteps(v5, was, e, o, i);
    }

    /** Any run of the class is a run of the two state machines, whatever the events are. */
    method HandleAll(es: seq<Event>)
      modifies this
      ensures OutView() == RunOut(v5, old(OutView()), OutEvents(old(active), es))
      ensures InView() == RunIn(v5, old(InView()), InEvents(old(active), es))
    {
      hide StepOut, StepIn, OutPart, InPart, ActiveAfter;
      ghost var o, i, was := OutView(), InView(), active;
      var k := 0;
      assert es[0..] == es;
      while k < |es|
        invariant k <= |es|
        invariant RunOut(v5, OutView(), OutEvents(active, es[k..])) == RunOut(v5, o, OutEvents(was, es))
        invariant RunIn(v5, InView(), InEvents(active, es[k..])) == RunIn(v5, i, InEvents(was, es))
      {
        assert es[k..][0] == es[k] && es[k..][1..] == es[k + 1..];
        RunOutConcat(v5, OutView(), OutPart(active, es[k]), OutEvents(ActiveAfter(active, es[k]), es[k + 1..]));
        RunInConcat(v5, InView(), InPart(active, es[k]), InEvents(ActiveAfter(active, es[k]), es[k + 1..]));
        Handle(es[k]);
        k := k + 1;
      }
    }
  }

  lemma Empty<T>(s: seq<T>)
    ensures [] + s == s && s + [] == s
  {
  }

  lemma Regroup<T>(a: seq<T>, b: seq<T>, c: seq<T>)
    ensures (a + b) + c == a + (b + c)
  {
  }

  lemma Advance(done: seq<Msg>, pending: seq<Msg>, m: Msg)
    requires pending != []
    ensures (done + pending)[|done| := m] == (done + [m]) + pending[1..]
    ensures m == pending[0] ==> done + pending == (done + [m]) + pending[1..]
  {
  }

  lemma ReleaseStep(msgs: seq<Msg>, quota: nat)
    requires msgs != []
    ensures Release(msgs, quota) ==
            if quota == 0 then Released(msgs, 0, [])
            else if msgs[0].qos > 0 && msgs[0].state == Invalid then
              var rest := Release(msgs[1..], Decrement(quota));
              Released([FirstSend(msgs[0])] + rest.msgs, rest.quota, [AsPublish(msgs[0])] + rest.wire)
            else
              var rest := Release(msgs[1..], quota);
              Released([msgs[0]] + rest.msgs, rest.quota, rest.wire)
    ensures AsPublish(FirstSend(msgs[0])) == AsPublish(msgs[0])
  {
  }

  lemma ReleaseNone(msgs: seq<Msg>, quota: nat)
    ensures msgs == [] ==> Release(msgs, quota) == Released([], quota, [])
  {
  }

  lemma ResetStep(msgs: seq<Msg>, quota: nat, updateQuotaOnly: bool)
    requires msgs != []
    ensures ResetMsgs(msgs, quota, updateQuotaOnly) ==
            if quota != 0 then
              [if updateQuotaOnly then msgs[0] else msgs[0].(state := ResetState(msgs[0]))]
              + ResetMsgs(msgs[1..], quota - 1, updateQuotaOnly)
            else [msgs[0].(state := Invalid)] + ResetMsgs(msgs[1..], 0, updateQuotaOnly)
  {
  }

  lemma ResetNone(msgs: seq<Msg>, quota: nat, updateQuotaOnly: bool)
    ensures msgs == [] ==> ResetMsgs(msgs, quota, updateQuotaOnly) == []
  {
  }

  lemma RetryStep(msgs: seq<Msg>)
    requires msgs != []
    ensures var (rest, wire) := RetryAll(msgs[1..]);
            RetryAll(msgs) == ([Retried(msgs[0])] + rest, RetryWire(msgs[0]) + wire)
  {
  }

  lemma RetryNone(msgs: seq<Msg>)
    ensures msgs == [] ==> RetryAll(msgs) == ([], [])
  {
  }

  /** What a client does to its outgoing half on one event. */
  function OutAfter(v5: bool, active: bool, e: Event, o: Out): Out {
    match e
    case Publishes(qos) => PublishOut(o, qos)
    case Reconnects => ResetOut(o, false)
    case GotConnack(limit, reason) => ConnackOut(o, limit, reason).1
    case GotPuback(mid, reason) => if active then AckOut(v5, o, mid, 1, reason).1 else o
    case GotPubcomp(mid, reason) => if active then AckOut(v5, o, mid, 2, reason).1 else o
    case GotPubrec(mid, reason) => if active then PubrecOut(v5, o, mid, reason).1 else o
    case _ => o
  }

  /** What a client does to its incoming half on one event. */
  function InAfter(v5: bool, active: bool, e: Event, i: In): In {
    match e
    case Reconnects => ResetIn(i)
    case GotConnack(_, _) => ResetIn(i)
    case GotPubrel(mid, reason) => if active then PubrelIn(v5, i, mid, reason).1 else i
    case GotPublish(mid, qos, dup) => if active then ReceiveIn(v5, i, mid, qos, dup).1 else i
    case _ => i
  }

  lemma HandledSteps(v5: bool, active: bool, e: Event, o: Out, i: In)
    ensures RunOut(v5, o, OutPart(active, e)) == OutAfter(v5, active, e, o)
    ensures RunIn(v5, i, InPart(active, e)) == InAfter(v5, active, e, i)
  {
    hide PublishOut, ResetOut, ConnackOut, AckOut, PubrecOut, ResetIn, PubrelIn, ReceiveIn, RunOut, RunIn;
    var a, b := OutPart(active, e), InPart(active, e);
    RunOne(v5, o, if a == [] then Reconnect else a[0], i, if b == [] then Reset else b[0]);
  }

  /**
   What every run of a client keeps. While acknowledgements name messages that were sent, never
   more messages are in flight than the maximum, even if it changes; with a fixed maximum the
   account is exact and messages are first sent in the order they were published. Whatever
   arrives, nothing accepted is lost or delivered twice.
   */
  lemma EveryRunIsSafe(v5: bool, active: bool, sendMaximum: uint16, receiveMaximum: uint16, es: seq<Event>)
    ensures var i := RunIn(v5, StartIn(receiveMaximum), InEvents(active, es));
            && Conserved(i)
            && forall j, k :: 0 <= j < k < |i.delivered| ==> i.delivered[j].serial != i.delivered[k].serial
    ensures ExpectedRun(v5, Start(sendMaximum), OutEvents(active, es)) ==>
              var o := RunOut(v5, Start(sendMaximum), OutEvents(active, es));
              && ListOk(o) && WithinMaximum(o)
              && (KeepsLimits(sendMaximum, OutEvents(active, es)) ==> Orderly(o))
  {
    hide RunOut, RunIn, OutEvents, InEvents, ExpectedRun, KeepsLimits;
    NothingLostOrRepeated(v5, StartIn(receiveMaximum), InEvents(active, es));
    StartsWithin(sendMaximum);
    if ExpectedRun(v5, Start(sendMaximum), OutEvents(active, es)) {
      NeverOverMaximum(v5, Start(sendMaximum), OutEvents(active, es));
      if KeepsLimits(sendMaximum, OutEvents(active, es)) {
        AlwaysOrderly(v5, Start(sendMaximum), OutEvents(active, es));
      }
    }
  }
}
