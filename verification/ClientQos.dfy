/**
 The client's QoS 1 and 2 message flow as a state machine: what each step does to the two
 in-flight lists and their quotas. The class in ClientEngine is proved to take these steps.
 Every send is assumed to succeed.
 */
module ClientQos {
  import opened Bytes

  datatype MsgState =
    | Invalid        // accepted but not yet sent: waiting for quota
    | PublishQos1
    | WaitForPuback
    | PublishQos2
    | WaitForPubrec
    | ResendPubrel
    | WaitForPubrel
    | WaitForPubcomp

  /** A message in a list; serial stands for its topic, payload and properties. */
  datatype Msg = Msg(mid: uint16, qos: nat, state: MsgState, dup: bool, serial: nat)

  /** What goes out on the wire. */
  datatype Wire =
    | SentPublish(mid: uint16, qos: nat, dup: bool, serial: nat)
    | SentPuback(mid: uint16)
    | SentPubrec(mid: uint16)
    | SentPubrel(mid: uint16)
    | SentPubcomp(mid: uint16)

  /** The saturating quotas of util_mosq.c. */
  function Increment(quota: nat, maximum: nat): nat {
    if quota < maximum then quota + 1 else quota
  }

  function Decrement(quota: nat): nat {
    if quota > 0 then quota - 1 else quota
  }

  /** mosquitto__mid_generate: 16 bits, never 0. */
  function NextMid(last: uint16): uint16 {
    if last == 0xFFFF then 1 else last + 1
  }

  // ----- The outgoing half -----

  datatype Out = Out(
    msgs: seq<Msg>, quota: nat, maximum: uint16, queueLen: int, wire: seq<Wire>, accepted: nat, lastMid: uint16)

  function FirstSend(m: Msg): Msg
  {
    m.(state := if m.qos == 1 then WaitForPuback else if m.qos == 2 then WaitForPubrec else m.state)
  }

  function AsPublish(m: Msg): Wire { SentPublish(m.mid, m.qos, m.dup, m.serial) }

  datatype Released = Released(msgs: seq<Msg>, quota: nat, wire: seq<Wire>)

  /** message__release_to_inflight: waiting messages are sent in list order while quota lasts. */
  function Release(msgs: seq<Msg>, quota: nat): Released {
    if msgs == [] || quota == 0 then Released(msgs, quota, [])
    else
      var m := msgs[0];
      if m.qos > 0 && m.state == Invalid then
        var rest := Release(msgs[1..], Decrement(quota));
        Released([FirstSend(m)] + rest.msgs, rest.quota, [AsPublish(m)] + rest.wire)
      else
        var rest := Release(msgs[1..], quota);
        Released([m] + rest.msgs, rest.quota, rest.wire)
  }

  function ReleaseOut(o: Out): Out {
    var r := Release(o.msgs, o.quota);
    o.(msgs := r.msgs, quota := r.quota, wire := o.wire + r.wire)
  }

  /** mosquitto_publish_v5 with QoS 1 or 2: append as waiting, then release. */
  function PublishOut(o: Out, qos: nat): Out {
    var mid := NextMid(o.lastMid);
    ReleaseOut(o.(msgs := o.msgs + [Msg(mid, qos, Invalid, false, o.accepted)],
                  queueLen := o.queueLen + 1, accepted := o.accepted + 1, lastMid := mid))
  }

  /** The index of the first message with this identifier, or the length of the list. */
  function Find(msgs: seq<Msg>, mid: uint16): (k: nat)
    ensures k <= |msgs|
    ensures k < |msgs| ==> msgs[k].mid == mid
    ensures forall j :: 0 <= j < k ==> msgs[j].mid != mid
  {
    if msgs == [] || msgs[0].mid == mid then 0 else 1 + Find(msgs[1..], mid)
  }

  function Without(msgs: seq<Msg>, k: nat): seq<Msg>
    requires k < |msgs|
  {
    msgs[..k] + msgs[k + 1..]
  }

  /** message__remove on the outgoing list. */
  function RemoveOut(o: Out, mid: uint16, qos: nat): (Rc, Out) {
    var k := Find(o.msgs, mid);
    if k == |o.msgs| then (NotFound, o)
    else if o.msgs[k].qos != qos then (Protocol, o)
    else (Success, o.(msgs := Without(o.msgs, k), queueLen := o.queueLen - 1))
  }

  /** The MQTT 5 reason codes accepted in PUBACK (QoS 1) and PUBCOMP (QoS 2). */
  predicate AckReasonOk(v5: bool, qos: nat, reason: byte) {
    v5 ==> if qos == 1 then reason in {0, 0x10, 0x80, 0x83, 0x87, 0x90, 0x91, 0x97, 0x99} else reason in {0, 0x92}
  }

  /** PUBACK for QoS 1 and PUBCOMP for QoS 2: quota is returned first, then the packet is looked at. */
  function AckOut(v5: bool, o: Out, mid: uint16, qos: nat, reason: byte): (Rc, Out) {
    var returned := o.(quota := Increment(o.quota, o.maximum));
    if mid == 0 || !AckReasonOk(v5, qos, reason) then (Protocol, returned)
    else
      var (rc, removed) := RemoveOut(returned, mid, qos);
      if rc == Success || rc == NotFound then (Success, ReleaseOut(removed)) else (rc, removed)
  }

  /** message__out_update. */
  function UpdateOut(o: Out, mid: uint16, state: MsgState, qos: nat): (Rc, Out) {
    var k := Find(o.msgs, mid);
    if k == |o.msgs| then (NotFound, o)
    else if o.msgs[k].qos != qos then (Protocol, o)
    else (Success, o.(msgs := o.msgs[k := o.msgs[k].(state := state)]))
  }

  predicate PubrecReasonOk(v5: bool, reason: byte) {
    v5 ==> reason in {0, 0x10, 0x80, 0x83, 0x87, 0x90, 0x91, 0x97}
  }

  /** PUBREC: PUBREL goes out, or an MQTT 5 error reason ends the exchange. */
  function PubrecOut(v5: bool, o: Out, mid: uint16, reason: byte): (Rc, Out) {
    if mid == 0 || !PubrecReasonOk(v5, reason) then (Protocol, o)
    else if reason < 0x80 || !v5 then
      var (rc, updated) := UpdateOut(o, mid, WaitForPubcomp, 2);
      if rc == Success || rc == NotFound then (Success, updated.(wire := updated.wire + [SentPubrel(mid)]))
      else (rc, updated)
    else
      var (rc, removed) := RemoveOut(o, mid, 2);
      (Success, ReleaseOut(removed.(quota := Increment(removed.quota, removed.maximum))))
  }

  /** The state a message gets when the connection is lost and quota is left for it. */
  function ResetState(m: Msg): MsgState {
    if m.qos == 1 then PublishQos1
    else if m.qos == 2 && m.state == WaitForPubrec then PublishQos2
    else if m.qos == 2 && m.state == WaitForPubcomp then ResendPubrel
    else m.state
  }

  /** The outgoing loop of message__reconnect_reset. */
  function ResetMsgs(msgs: seq<Msg>, quota: nat, updateQuotaOnly: bool): seq<Msg> {
    if msgs == [] then []
    else if quota != 0 then
      [if updateQuotaOnly then msgs[0] else msgs[0].(state := ResetState(msgs[0]))]
      + ResetMsgs(msgs[1..], quota - 1, updateQuotaOnly)
    else [msgs[0].(state := Invalid)] + ResetMsgs(msgs[1..], 0, updateQuotaOnly)
  }

  function ResetOut(o: Out, updateQuotaOnly: bool): Out {
    o.(msgs := ResetMsgs(o.msgs, o.maximum, updateQuotaOnly),
       quota := if |o.msgs| < o.maximum then o.maximum - |o.msgs| else 0,
       queueLen := |o.msgs|)
  }

  function Retried(m: Msg): Msg {
    if m.state in {PublishQos1, PublishQos2, WaitForPubrel, ResendPubrel, WaitForPubcomp} then m.(dup := true) else m
  }

  function RetryWire(m: Msg): seq<Wire> {
    match m.state
    case PublishQos1 => [AsPublish(m.(dup := true))]
    case PublishQos2 => [AsPublish(m.(dup := true))]
    case WaitForPubrel => [SentPubrec(m.mid)]
    case ResendPubrel => [SentPubrel(m.mid)]
    case WaitForPubcomp => [SentPubrel(m.mid)]
    case _ => []
  }

  /** message__retry_check: the list is walked in order. */
  function RetryAll(msgs: seq<Msg>): (seq<Msg>, seq<Wire>) {
    if msgs == [] then ([], [])
    else
      var (rest, wire) := RetryAll(msgs[1..]);
      ([Retried(msgs[0])] + rest, RetryWire(msgs[0]) + wire)
  }

  function RetryOut(o: Out): Out {
    var (msgs, wire) := RetryAll(o.msgs);
    o.(msgs := msgs, wire := o.wire + wire)
  }

  datatype Limit = Unchanged | ReceiveMaximum(value: uint16)

  /** CONNACK: a new limit and a second reset for the quota, then, unless it refuses, the resend. */
  function ConnackOut(o: Out, limit: Limit, reason: byte): (Rc, Out) {
    var reset := ResetOut(if limit.ReceiveMaximum? then o.(maximum := limit.value) else o, true);
    if reason == 0 then (Success, RetryOut(reset))
    else (if reason <= 5 then ConnRefused else Protocol, reset)
  }

  // ----- Runs of the outgoing half -----

  datatype OutEvent =
    | Publish(qos: nat)
    | Ack(mid: uint16, ackQos: nat, reason: byte)
    | Pubrec(mid: uint16, reason: byte)
    | Reconnect
    | Connack(limit: Limit, reason: byte)

  function StepOut(v5: bool, o: Out, e: OutEvent): Out {
    match e
    case Publish(qos) => PublishOut(o, qos)
    case Ack(mid, qos, reason) => AckOut(v5, o, mid, qos, reason).1
    case Pubrec(mid, reason) => PubrecOut(v5, o, mid, reason).1
    case Reconnect => ResetOut(o, false)
    case Connack(limit, reason) => ConnackOut(o, limit, reason).1
  }

  /** The acknowledgement names a message that has been sent, with the right QoS. */
  predicate NamesSent(o: Out, mid: uint16, qos: nat) {
    var k := Find(o.msgs, mid);
    mid != 0 && k < |o.msgs| && o.msgs[k].qos == qos && o.msgs[k].state != Invalid
  }

  /** What the peer and the caller are assumed to do. */
  predicate Expected(v5: bool, o: Out, e: OutEvent) {
    match e
    case Publish(qos) => qos == 1 || qos == 2
    case Ack(mid, qos, reason) => (qos == 1 || qos == 2) && NamesSent(o, mid, qos) && AckReasonOk(v5, qos, reason)
    case Pubrec(mid, _) => NamesSent(o, mid, 2)
    case Reconnect => true
    case Connack(_, _) => true
  }

  function Start(maximum: uint16): Out {
    Out([], maximum, maximum, 0, [], 0, 0)
  }

  function RunOut(v5: bool, o: Out, es: seq<OutEvent>): Out
    decreases |es|
  {
    if es == [] then o else RunOut(v5, StepOut(v5, o, es[0]), es[1..])
  }

  predicate ExpectedRun(v5: bool, o: Out, es: seq<OutEvent>)
    decreases |es|
  {
    es == [] || (Expected(v5, o, es[0]) && ExpectedRun(v5, StepOut(v5, o, es[0]), es[1..]))
  }

  /** Messages sent and not yet acknowledged. */
  function Active(msgs: seq<Msg>): nat {
    if msgs == [] then 0 else (if msgs[0].state == Invalid then 0 else 1) + Active(msgs[1..])
  }

  predicate WithinMaximum(o: Out) {
    Active(o.msgs) + o.quota <= o.maximum
  }

  predicate ListOk(o: Out) {
    o.queueLen == |o.msgs| && forall k :: 0 <= k < |o.msgs| ==> o.msgs[k].qos == 1 || o.msgs[k].qos == 2
  }

  // ----- The number of active messages -----

  lemma {:induction false} ActiveConcat(a: seq<Msg>, b: seq<Msg>)
    ensures Active(a + b) == Active(a) + Active(b)
  {
    if a == [] {
      assert a + b == b;
    } else {
      ActiveConcat(a[1..], b);
      assert (a + b)[1..] == a[1..] + b;
    }
  }

  lemma {:induction false} ActiveBound(msgs: seq<Msg>)
    ensures Active(msgs) <= |msgs|
    ensures Active(msgs) == |msgs| <==> forall k :: 0 <= k < |msgs| ==> msgs[k].state != Invalid
  {
    if msgs == [] {
    } else {
      ActiveBound(msgs[1..]);
      assert forall k :: 1 <= k < |msgs| ==> msgs[k] == msgs[1..][k - 1];
    }
  }

  lemma ActiveWithout(msgs: seq<Msg>, k: nat)
    requires k < |msgs|
    ensures Active(msgs) == Active(Without(msgs, k)) + if msgs[k].state == Invalid then 0 else 1
  {
    assert msgs == msgs[..k] + msgs[k..];
    assert msgs[k..][1..] == msgs[k + 1..];
    ActiveConcat(msgs[..k], msgs[k..]);
    ActiveConcat(msgs[..k], msgs[k + 1..]);
  }

  lemma ActiveUpdate(msgs: seq<Msg>, k: nat, m: Msg)
    requires k < |msgs| && (m.state == Invalid <==> msgs[k].state == Invalid)
    ensures Active(msgs[k := m]) == Active(msgs)
  {
    assert msgs[k := m] == msgs[..k] + ([m] + msgs[k + 1..]);
    assert msgs == msgs[..k] + ([msgs[k]] + msgs[k + 1..]);
    ActiveConcat(msgs[..k], [m] + msgs[k + 1..]);
    ActiveConcat(msgs[..k], [msgs[k]] + msgs[k + 1..]);
  }

  /** Releasing moves quota to messages one for one. */
  lemma {:induction false} ReleaseBalance(msgs: seq<Msg>, quota: nat)
    requires forall k :: 0 <= k < |msgs| ==> msgs[k].qos == 1 || msgs[k].qos == 2
    ensures var r := Release(msgs, quota);
            && Active(r.msgs) + r.quota == Active(msgs) + quota && |r.msgs| == |msgs|
            && forall k :: 0 <= k < |msgs| ==>
                 r.msgs[k].mid == msgs[k].mid && r.msgs[k].qos == msgs[k].qos && r.msgs[k].serial == msgs[k].serial
  {
    if msgs == [] || quota == 0 {
    } else {
      var next := if msgs[0].state == Invalid then quota - 1 else quota;
      ReleaseBalance(msgs[1..], next);
      var r := Release(msgs[1..], next);
      assert ([FirstSend(msgs[0])] + r.msgs)[1..] == r.msgs && ([msgs[0]] + r.msgs)[1..] == r.msgs;
    }
  }

  /** After a reset no more messages are active than the maximum has been charged for. */
  lemma {:induction false} ResetBalance(msgs: seq<Msg>, quota: nat, updateQuotaOnly: bool)
    ensures var after := ResetMsgs(msgs, quota, updateQuotaOnly);
            && |after| == |msgs|
            && Active(after) <= (if |msgs| < quota then |msgs| else quota)
            && forall k :: 0 <= k < |msgs| ==>
                 after[k].mid == msgs[k].mid && after[k].qos == msgs[k].qos && after[k].serial == msgs[k].serial
  {
    if msgs == [] {
    } else {
      ResetBalance(msgs[1..], if quota == 0 then 0 else quota - 1, updateQuotaOnly);
    }
  }

  lemma {:induction false} RetryKeeps(msgs: seq<Msg>)
    ensures var after := RetryAll(msgs).0;
            && |after| == |msgs| && Active(after) == Active(msgs)
            && forall k :: 0 <= k < |msgs| ==> after[k].(dup := msgs[k].dup) == msgs[k]
  {
    if msgs == [] {
    } else {
      RetryKeeps(msgs[1..]);
    }
  }

  lemma ReleaseOutBalance(o: Out)
    requires ListOk(o)
    ensures var r := ReleaseOut(o);
            && ListOk(r) && r.maximum == o.maximum
            && Active(r.msgs) + r.quota == Active(o.msgs) + o.quota
  {
    ReleaseBalance(o.msgs, o.quota);
  }

  // ----- Never more in flight than the receiver allows -----

  lemma StepWithin(v5: bool, o: Out, e: OutEvent)
    requires Expected(v5, o, e) && ListOk(o) && WithinMaximum(o)
    ensures ListOk(StepOut(v5, o, e)) && WithinMaximum(StepOut(v5, o, e))
  {
    hide AckOut, PubrecOut, AckReasonOk, Find, Release, RetryAll, ResetMsgs;
    match e
    case Publish(qos) =>
      var mid := NextMid(o.lastMid);
      var m := Msg(mid, qos, Invalid, false, o.accepted);
      ActiveConcat(o.msgs, [m]);
      assert Active([m]) == 0;
      ReleaseOutBalance(o.(msgs := o.msgs + [m], queueLen := o.queueLen + 1, accepted := o.accepted + 1, lastMid := mid));
    case Ack(mid, qos, reason) =>
      AckBalance(v5, o, mid, qos, reason);
    case Pubrec(mid, reason) =>
      PubrecBalance(v5, o, mid, reason);
    case Reconnect =>
      ResetBalance(o.msgs, o.maximum, false);
    case Connack(limit, _) =>
      var limited := if limit.ReceiveMaximum? then o.(maximum := limit.value) else o;
      ResetBalance(limited.msgs, limited.maximum, true);
      RetryKeeps(ResetOut(limited, true).msgs);
  }

  lemma AckBalance(v5: bool, o: Out, mid: uint16, qos: nat, reason: byte)
    requires ListOk(o) && WithinMaximum(o) && NamesSent(o, mid, qos) && AckReasonOk(v5, qos, reason)
    ensures var after := AckOut(v5, o, mid, qos, reason).1;
            && ListOk(after) && after.maximum == o.maximum
            && Active(after.msgs) + after.quota == Active(o.msgs) + o.quota
  {
    var k := Find(o.msgs, mid);
    ActiveWithout(o.msgs, k);
    var returned := o.(quota := Increment(o.quota, o.maximum));
    ReleaseOutBalance(RemoveOut(returned, mid, qos).1);
  }

  lemma PubrecBalance(v5: bool, o: Out, mid: uint16, reason: byte)
    requires ListOk(o) && WithinMaximum(o) && NamesSent(o, mid, 2)
    ensures var after := PubrecOut(v5, o, mid, reason).1;
            && ListOk(after) && after.maximum == o.maximum
            && Active(after.msgs) + after.quota == Active(o.msgs) + o.quota
  {
    var k := Find(o.msgs, mid);
    if reason < 0x80 || !v5 {
      ActiveUpdate(o.msgs, k, o.msgs[k].(state := WaitForPubcomp));
    } else {
      ActiveWithout(o.msgs, k);
      var removed := RemoveOut(o, mid, 2).1;
      ReleaseOutBalance(removed.(quota := Increment(removed.quota, removed.maximum)));
    }
  }

  /**
   In every run in which acknowledgements name messages that were sent, across reconnects and
   changes of the Receive Maximum, messages in flight and remaining quota together stay within
   the maximum, and queue_len is the length of the list.
   */
  lemma {:induction false} NeverOverMaximum(v5: bool, o: Out, es: seq<OutEvent>)
    requires ListOk(o) && WithinMaximum(o) && ExpectedRun(v5, o, es)
    ensures ListOk(RunOut(v5, o, es)) && WithinMaximum(RunOut(v5, o, es))
    decreases |es|
  {
    hide StepOut, ListOk, WithinMaximum, Expected;
    if es == [] {
    } else {
      StepWithin(v5, o, es[0]);
      NeverOverMaximum(v5, StepOut(v5, o, es[0]), es[1..]);
    }
  }

  lemma StartsWithin(maximum: uint16)
    ensures ListOk(Start(maximum)) && WithinMaximum(Start(maximum)) && Orderly(Start(maximum))
  {
  }

  // ----- A fixed maximum: exact accounting, and first transmissions in order -----

  predicate KeepsLimit(maximum: uint16, e: OutEvent) {
    e.Connack? && e.limit.ReceiveMaximum? ==> e.limit.value == maximum
  }

  /** The serials of messages sent for the first time, in the order of sending. */
  function FirstSent(wire: seq<Wire>): seq<nat> {
    if wire == [] then [] else FirstSerial(wire[0]) + FirstSent(wire[1..])
  }

  function FirstSerial(w: Wire): seq<nat> {
    if w.SentPublish? && !w.dup then [w.serial] else []
  }

  predicate Upto(s: seq<nat>, n: nat) {
    |s| == n && forall k :: 0 <= k < n ==> s[k] == k
  }

  predicate Ascending(msgs: seq<Msg>) {
    forall j, k :: 0 <= j < k < |msgs| ==> msgs[j].serial < msgs[k].serial
  }

  /** The first a messages have been sent, the others wait in the order they were accepted. */
  predicate Split(msgs: seq<Msg>, a: nat, accepted: nat) {
    && a <= |msgs| && |msgs| - a <= accepted
    && (forall k :: 0 <= k < |msgs| ==> (msgs[k].state == Invalid <==> a <= k))
    && (forall k :: a <= k < |msgs| ==> !msgs[k].dup && msgs[k].serial == accepted - |msgs| + k)
    && (forall k :: 0 <= k < |msgs| ==> msgs[k].serial < accepted)
    && Ascending(msgs)
  }

  /** Quota and messages in flight make up the maximum, and exactly the rest has never been sent. */
  predicate Accounted(o: Out, a: nat) {
    && ListOk(o) && Split(o.msgs, a, o.accepted)
    && a + o.quota == o.maximum
    && Upto(FirstSent(o.wire), o.accepted - (|o.msgs| - a))
  }

  /** Besides, a message waits only when there is no quota. */
  predicate Orderly(o: Out) {
    var a := Active(o.msgs);
    Accounted(o, a) && (a < |o.msgs| ==> o.quota == 0)
  }

  lemma {:induction false} FirstSentConcat(a: seq<Wire>, b: seq<Wire>)
    ensures FirstSent(a + b) == FirstSent(a) + FirstSent(b)
  {
    hide FirstSerial, FirstSent;
    if a == [] {
      NothingSent(a);
      assert a + b == b && [] + FirstSent(b) == FirstSent(b);
    } else {
      FirstSentConcat(a[1..], b);
      assert (a + b)[1..] == a[1..] + b && (a + b)[0] == a[0];
      FirstSentNext(a);
      FirstSentNext(a + b);
      Grouped(FirstSerial(a[0]), FirstSent(a[1..]), FirstSent(b));
    }
  }

  lemma FirstSentNext(wire: seq<Wire>)
    requires wire != []
    ensures FirstSent(wire) == FirstSerial(wire[0]) + FirstSent(wire[1..])
  {
  }

  lemma NothingSent(wire: seq<Wire>)
    ensures wire == [] ==> FirstSent(wire) == []
  {
  }

  lemma Grouped(a: seq<nat>, b: seq<nat>, c: seq<nat>)
    ensures a + (b + c) == a + b + c
  {
  }

  lemma {:induction false} ActiveOfPrefix(msgs: seq<Msg>, a: nat)
    requires a <= |msgs|
    requires forall k :: 0 <= k < |msgs| ==> (msgs[k].state == Invalid <==> a <= k)
    ensures Active(msgs) == a
  {
    if msgs == [] {
    } else {
      if a == 0 { ActiveOfPrefix(msgs[1..], 0); } else { ActiveOfPrefix(msgs[1..], a - 1); }
    }
  }

  /** Only the messages from a on wait. */
  predicate WaitsFrom(msgs: seq<Msg>, a: nat) {
    forall k :: 0 <= k < |msgs| ==> (msgs[k].state == Invalid <==> a <= k) && (msgs[k].qos == 1 || msgs[k].qos == 2)
  }

  /** The messages from a up to a + n have been sent for the first time. */
  predicate SentFrom(msgs: seq<Msg>, a: nat, n: nat, after: seq<Msg>) {
    |after| == |msgs| &&
    forall k :: 0 <= k < |msgs| ==> after[k] == if a <= k < a + n then FirstSend(msgs[k]) else msgs[k]
  }

  predicate WireOf(msgs: seq<Msg>, a: nat, n: nat, wire: seq<Wire>)
    requires a + n <= |msgs|
  {
    |wire| == n && forall i :: 0 <= i < n ==> wire[i] == AsPublish(msgs[a + i])
  }

  /** When the waiting messages are the tail of the list, releasing sends the first n of them. */
  lemma {:induction false} ReleaseTail(msgs: seq<Msg>, a: nat, quota: nat, n: nat)
    requires a <= |msgs| && n == if quota < |msgs| - a then quota else |msgs| - a
    requires WaitsFrom(msgs, a)
    ensures var r := Release(msgs, quota);
            SentFrom(msgs, a, n, r.msgs) && r.quota == quota - n && WireOf(msgs, a, n, r.wire)
  {
    hide FirstSend, AsPublish;
    if msgs == [] || quota == 0 {
    } else {
      var tail := msgs[1..];
      if a == 0 {
        ReleaseTail(tail, 0, quota - 1, n - 1);
        SentFromCons(msgs, 0, n, Release(tail, quota - 1).msgs);
        WireHead(msgs, n, Release(tail, quota - 1).wire);
      } else {
        ReleaseTail(tail, a - 1, quota, n);
        SentFromCons(msgs, a, n, Release(tail, quota).msgs);
        WireTail(msgs, a, n, Release(tail, quota).wire);
        assert [] + Release(tail, quota).wire == Release(tail, quota).wire;
      }
    }
  }

  lemma WireHead(msgs: seq<Msg>, n: nat, wire: seq<Wire>)
    requires 0 < n <= |msgs| && WireOf(msgs[1..], 0, n - 1, wire)
    ensures WireOf(msgs, 0, n, [AsPublish(msgs[0])] + wire)
  {
    hide AsPublish;
    var all := [AsPublish(msgs[0])] + wire;
    forall i | 0 <= i < n
      ensures all[i] == AsPublish(msgs[i])
    {
      if i > 0 { assert all[i] == wire[i - 1] && msgs[i] == msgs[1..][i - 1]; }
    }
  }

  lemma WireTail(msgs: seq<Msg>, a: nat, n: nat, wire: seq<Wire>)
    requires 0 < a && a + n <= |msgs| && WireOf(msgs[1..], a - 1, n, wire)
    ensures WireOf(msgs, a, n, wire)
  {
    hide AsPublish;
    forall i | 0 <= i < n
      ensures wire[i] == AsPublish(msgs[a + i])
    {
      assert msgs[a + i] == msgs[1..][a - 1 + i];
    }
  }

  lemma SentFromCons(msgs: seq<Msg>, a: nat, n: nat, rest: seq<Msg>)
    requires msgs != [] && (a > 0 || n > 0)
    requires SentFrom(msgs[1..], if a == 0 then 0 else a - 1, if a == 0 then n - 1 else n, rest)
    ensures SentFrom(msgs, a, n, [if a == 0 then FirstSend(msgs[0]) else msgs[0]] + rest)
  {
    hide FirstSend;
    var after := [if a == 0 then FirstSend(msgs[0]) else msgs[0]] + rest;
    assert forall k :: 1 <= k < |msgs| ==> after[k] == rest[k - 1] && msgs[k] == msgs[1..][k - 1];
  }

  lemma {:induction false} FirstSentOfRelease(wire: seq<Wire>, first: nat)
    requires forall i :: 0 <= i < |wire| ==> wire[i].SentPublish? && !wire[i].dup && wire[i].serial == first + i
    ensures |FirstSent(wire)| == |wire| && forall i :: 0 <= i < |wire| ==> FirstSent(wire)[i] == first + i
  {
    if wire == [] {
    } else {
      FirstSentOfRelease(wire[1..], first + 1);
    }
  }

  /** Releasing what can be released makes an accounted state orderly. */
  lemma ReleaseOrders(o: Out, a: nat)
    requires Accounted(o, a)
    ensures Orderly(ReleaseOut(o)) && ReleaseOut(o).maximum == o.maximum
  {
    hide Release, FirstSent, Active;
    var n := if o.quota < |o.msgs| - a then o.quota else |o.msgs| - a;
    ReleaseTail(o.msgs, a, o.quota, n);
    var r := Release(o.msgs, o.quota);
    var after := ReleaseOut(o);
    FirstSentOfRelease(r.wire, o.accepted - |o.msgs| + a);
    FirstSentConcat(o.wire, r.wire);
    assert forall k :: 0 <= k < |r.msgs| ==> r.msgs[k].serial == o.msgs[k].serial && r.msgs[k].qos == o.msgs[k].qos;
    ActiveOfPrefix(after.msgs, a + n);
  }

  lemma PublishOrderly(o: Out, qos: nat)
    requires Orderly(o) && (qos == 1 || qos == 2)
    ensures Orderly(PublishOut(o, qos)) && PublishOut(o, qos).maximum == o.maximum
  {
    hide Active, FirstSent, Release;
    var mid := NextMid(o.lastMid);
    var next := o.(msgs := o.msgs + [Msg(mid, qos, Invalid, false, o.accepted)],
                   queueLen := o.queueLen + 1, accepted := o.accepted + 1, lastMid := mid);
    ReleaseOrders(next, Active(o.msgs));
  }

  lemma WithoutSplit(msgs: seq<Msg>, a: nat, accepted: nat, k: nat)
    requires Split(msgs, a, accepted) && k < a
    ensures Split(Without(msgs, k), a - 1, accepted)
  {
    var w := Without(msgs, k);
    assert forall j :: 0 <= j < |w| ==> w[j] == msgs[if j < k then j else j + 1];
  }

  lemma WithoutQos(msgs: seq<Msg>, k: nat)
    requires k < |msgs|
    requires forall j :: 0 <= j < |msgs| ==> msgs[j].qos == 1 || msgs[j].qos == 2
    ensures forall j :: 0 <= j < |Without(msgs, k)| ==> Without(msgs, k)[j].qos == 1 || Without(msgs, k)[j].qos == 2
  {
  }

  lemma AckOrderly(v5: bool, o: Out, mid: uint16, qos: nat, reason: byte)
    requires Orderly(o) && NamesSent(o, mid, qos) && AckReasonOk(v5, qos, reason)
    ensures var after := AckOut(v5, o, mid, qos, reason).1;
            Orderly(after) && after.maximum == o.maximum
  {
    hide AckReasonOk, Active, FirstSent, Release, Find, Split, Without;
    var k := Find(o.msgs, mid);
    var a := Active(o.msgs);
    assert k < a by { SentIsBefore(o.msgs, a, o.accepted, k); }
    WithoutSplit(o.msgs, a, o.accepted, k);
    WithoutQos(o.msgs, k);
    WithoutLength(o.msgs, k);
    ReleaseOrders(RemoveOut(o.(quota := Increment(o.quota, o.maximum)), mid, qos).1, a - 1);
  }

  lemma WithoutLength(msgs: seq<Msg>, k: nat)
    requires k < |msgs|
    ensures |Without(msgs, k)| == |msgs| - 1
  {
  }

  lemma SentIsBefore(msgs: seq<Msg>, a: nat, accepted: nat, k: nat)
    requires Split(msgs, a, accepted) && k < |msgs| && msgs[k].state != Invalid
    ensures k < a
  {
  }

  lemma UpdateOrderly(o: Out, k: nat, m: Msg, w: Wire)
    requires Orderly(o) && k < |o.msgs| && o.msgs[k].state != Invalid && m.state != Invalid
    requires m.(state := o.msgs[k].state) == o.msgs[k] && !w.SentPublish?
    ensures Orderly(o.(msgs := o.msgs[k := m], wire := o.wire + [w]))
  {
    hide Active, FirstSent;
    ActiveUpdate(o.msgs, k, m);
    FirstSentConcat(o.wire, [w]);
    NoFirstSend(w);
    assert FirstSent(o.wire) + [] == FirstSent(o.wire);
  }

  lemma PubrecOrderly(v5: bool, o: Out, mid: uint16, reason: byte)
    requires Orderly(o) && NamesSent(o, mid, 2)
    ensures Orderly(PubrecOut(v5, o, mid, reason).1) && PubrecOut(v5, o, mid, reason).1.maximum == o.maximum
  {
    hide Active, FirstSent, Release, Find, Without, Split;
    var k := Find(o.msgs, mid);
    if reason < 0x80 || !v5 {
      hide Orderly;
      UpdateOrderly(o, k, o.msgs[k].(state := WaitForPubcomp), SentPubrel(mid));
    } else {
      var a := Active(o.msgs);
      SentIsBefore(o.msgs, a, o.accepted, k);
      WithoutSplit(o.msgs, a, o.accepted, k);
      WithoutQos(o.msgs, k);
      WithoutLength(o.msgs, k);
      var removed := RemoveOut(o, mid, 2).1;
      ReleaseOrders(removed.(quota := Increment(removed.quota, removed.maximum)), a - 1);
    }
  }

  lemma NoFirstSend(w: Wire)
    requires w.SentPublish? ==> w.dup
    ensures FirstSent([w]) == [] && FirstSent([]) == []
  {
  }

  /** What a reset does to each message, by its place in the list. */
  lemma {:induction false} ResetAt(msgs: seq<Msg>, quota: nat, updateQuotaOnly: bool, k: nat)
    requires k < |msgs|
    ensures |ResetMsgs(msgs, quota, updateQuotaOnly)| == |msgs|
    ensures ResetMsgs(msgs, quota, updateQuotaOnly)[k] ==
            if k >= quota then msgs[k].(state := Invalid)
            else if updateQuotaOnly then msgs[k] else msgs[k].(state := ResetState(msgs[k]))
  {
    var next := if quota == 0 then 0 else quota - 1;
    ResetBalance(msgs, quota, updateQuotaOnly);
    if k == 0 {
    } else {
      ResetAt(msgs[1..], next, updateQuotaOnly, k - 1);
    }
  }

  lemma ResetOrderly(o: Out, updateQuotaOnly: bool)
    requires Orderly(o)
    ensures Orderly(ResetOut(o, updateQuotaOnly)) && ResetOut(o, updateQuotaOnly).maximum == o.maximum
  {
    hide Active, FirstSent, ResetMsgs;
    var a := Active(o.msgs);
    var after := ResetOut(o, updateQuotaOnly);
    ResetBalance(o.msgs, o.maximum, updateQuotaOnly);
    forall k | 0 <= k < |o.msgs|
      ensures after.msgs[k].state == Invalid <==> a <= k
    {
      ResetAt(o.msgs, o.maximum, updateQuotaOnly, k);
    }
    forall k | 0 <= k < |o.msgs|
      ensures after.msgs[k].dup == o.msgs[k].dup
    {
      ResetAt(o.msgs, o.maximum, updateQuotaOnly, k);
    }
    ActiveOfPrefix(after.msgs, a);
  }

  lemma {:induction false} RetryAt(msgs: seq<Msg>, k: nat)
    requires k < |msgs|
    ensures |RetryAll(msgs).0| == |msgs| && RetryAll(msgs).0[k] == Retried(msgs[k])
  {
    RetryKeeps(msgs);
    if k == 0 {
    } else {
      RetryAt(msgs[1..], k - 1);
    }
  }

  /** Resending never counts as a first transmission. */
  lemma {:induction false} RetrySendsNoFirst(msgs: seq<Msg>)
    ensures FirstSent(RetryAll(msgs).1) == []
  {
    if msgs == [] {
    } else {
      RetrySendsNoFirst(msgs[1..]);
      FirstSentConcat(RetryWire(msgs[0]), RetryAll(msgs[1..]).1);
      if |RetryWire(msgs[0])| == 1 {
        NoFirstSend(RetryWire(msgs[0])[0]);
        assert RetryWire(msgs[0]) == [RetryWire(msgs[0])[0]];
      }
    }
  }

  lemma RetryOrderly(o: Out)
    requires Orderly(o)
    ensures Orderly(RetryOut(o)) && RetryOut(o).maximum == o.maximum
  {
    hide Active, FirstSent, RetryAll, RetryWire;
    var a := Active(o.msgs);
    RetryKeeps(o.msgs);
    RetrySendsNoFirst(o.msgs);
    FirstSentConcat(o.wire, RetryAll(o.msgs).1);
    assert FirstSent(o.wire) + [] == FirstSent(o.wire);
    var after := RetryOut(o);
    forall k | 0 <= k < |o.msgs|
      ensures after.msgs[k] == Retried(o.msgs[k])
    {
      RetryAt(o.msgs, k);
    }
    ActiveOfPrefix(after.msgs, a);
  }

  lemma StepOrderly(v5: bool, o: Out, e: OutEvent)
    requires Expected(v5, o, e) && KeepsLimit(o.maximum, e) && Orderly(o)
    ensures Orderly(StepOut(v5, o, e)) && StepOut(v5, o, e).maximum == o.maximum
  {
    hide Orderly;
    match e
    case Publish(qos) => PublishOrderly(o, qos);
    case Ack(mid, qos, reason) => AckOrderly(v5, o, mid, qos, reason);
    case Pubrec(mid, reason) => PubrecOrderly(v5, o, mid, reason);
    case Reconnect => ResetOrderly(o, false);
    case Connack(limit, reason) =>
      assert o.(maximum := o.maximum) == o;
      ResetOrderly(o, true);
      RetryOrderly(ResetOut(o, true));
  }

  predicate KeepsLimits(maximum: uint16, es: seq<OutEvent>) {
    forall k :: 0 <= k < |es| ==> KeepsLimit(maximum, es[k])
  }

  /**
   With a fixed maximum every run keeps the exact account: messages in flight and quota add up
   to the maximum, waiting messages form the tail of the list and wait only when the quota is 0,
   and first transmissions happen in the order of the publish calls, none left out.
   */
  lemma {:induction false} AlwaysOrderly(v5: bool, o: Out, es: seq<OutEvent>)
    requires Orderly(o) && ExpectedRun(v5, o, es) && KeepsLimits(o.maximum, es)
    ensures Orderly(RunOut(v5, o, es))
    decreases |es|
  {
    hide StepOut, Orderly, Expected, KeepsLimit;
    if es == [] {
    } else {
      StepOrderly(v5, o, es[0]);
      assert forall k :: 1 <= k < |es| ==> es[k] == es[1..][k - 1];
      AlwaysOrderly(v5, StepOut(v5, o, es[0]), es[1..]);
    }
  }

  /** The serials of resent PUBLISH packets. */
  function Resent(wire: seq<Wire>): seq<nat> {
    if wire == [] then []
    else if wire[0].SentPublish? && wire[0].dup then [wire[0].serial] + Resent(wire[1..])
    else Resent(wire[1..])
  }

  predicate Rising(s: seq<nat>) {
    forall j, k :: 0 <= j < k < |s| ==> s[j] < s[k]
  }

  predicate InterruptedPublish(m: Msg) { m.state == PublishQos1 || m.state == PublishQos2 }

  /** The serials of the messages whose PUBLISH the lost connection interrupted, in list order. */
  function Interrupted(msgs: seq<Msg>): seq<nat> {
    if msgs == [] then []
    else (if InterruptedPublish(msgs[0]) then [msgs[0].serial] else []) + Interrupted(msgs[1..])
  }

  lemma {:induction false} InterruptedAbove(msgs: seq<Msg>, least: nat)
    requires Ascending(msgs) && (msgs != [] ==> least <= msgs[0].serial)
    ensures forall j :: 0 <= j < |Interrupted(msgs)| ==> least <= Interrupted(msgs)[j]
  {
    if msgs == [] {
    } else {
      InterruptedAbove(msgs[1..], least);
    }
  }

  /**
   message__retry_check resends exactly the interrupted messages, each once, in the order in
   which mosquitto_publish_v5 accepted them.
   */
  lemma {:induction false} RetryInOrder(msgs: seq<Msg>)
    requires Ascending(msgs)
    ensures Resent(RetryAll(msgs).1) == Interrupted(msgs) && Rising(Interrupted(msgs))
  {
    hide RetryWire, Resent;
    if msgs == [] {
      NothingResent();
    } else {
      RetryInOrder(msgs[1..]);
      InterruptedAbove(msgs[1..], msgs[0].serial + 1);
      RetryResends(msgs[0], RetryAll(msgs[1..]).1);
    }
  }

  lemma NothingResent()
    ensures Resent([]) == []
  {
  }

  lemma RetryResends(m: Msg, wire: seq<Wire>)
    ensures Resent(RetryWire(m) + wire) ==
            (if InterruptedPublish(m) then [m.serial] else []) + Resent(wire)
  {
    var w := RetryWire(m);
    if w == [] {
      assert w + wire == wire;
    } else {
      assert (w + wire)[1..] == wire;
    }
  }

  // ----- Packet identifiers -----

  /** The identifier given out by the n-th call from now. */
  function NthMid(last: uint16, n: nat): uint16 {
    if n == 0 then last else NextMid(NthMid(last, n - 1))
  }

  lemma {:induction false} NthMidIs(last: uint16, n: nat)
    requires n > 0
    ensures NthMid(last, n) as int == (last as int + n - 1) % 65535 + 1
  {
    if n == 1 {
    } else {
      NthMidIs(last, n - 1);
    }
  }

  /** Any 65535 identifiers in a row are distinct and not 0; then they repeat. */
  lemma MidsRepeatAfter65535(last: uint16, i: nat, j: nat)
    requires 0 < i < j
    ensures NthMid(last, i) != 0 && (NthMid(last, i) == NthMid(last, j) <==> (j - i) % 65535 == 0)
  {
    NthMidIs(last, i);
    NthMidIs(last, j);
    SameRemainder(last as int + i - 1, last as int + j - 1);
  }

  lemma SameRemainder(a: int, b: int)
    ensures a % 65535 == b % 65535 <==> (b - a) % 65535 == 0
  {
  }

  // ----- Where the accounting breaks -----

  /**
   PUBACK and PUBCOMP return quota before looking for the message. In an orderly state the
   account stays exact if and only if the acknowledgement names a message that was sent, with
   an accepted reason, or the quota is already full; otherwise one more message than allowed
   can be in flight.
   */
  lemma AckKeepsAccountExactly(v5: bool, o: Out, mid: uint16, qos: nat, reason: byte)
    requires Orderly(o)
    ensures var after := AckOut(v5, o, mid, qos, reason).1;
            var exact := (NamesSent(o, mid, qos) && AckReasonOk(v5, qos, reason)) || o.quota == o.maximum;
            Active(after.msgs) + after.quota == if exact then o.maximum else o.maximum + 1
  {
    hide FirstSent, Release, Without, AckReasonOk;
    var k := Find(o.msgs, mid);
    var returned := o.(quota := Increment(o.quota, o.maximum));
    if mid != 0 && AckReasonOk(v5, qos, reason) {
      if NamesSent(o, mid, qos) {
        AckOrderly(v5, o, mid, qos, reason);
      } else if k == |o.msgs| {
        ReleaseOutBalance(returned);
      } else if o.msgs[k].qos == qos {
        ActiveWithout(o.msgs, k);
        WithoutQos(o.msgs, k);
        WithoutLength(o.msgs, k);
        ReleaseOutBalance(RemoveOut(returned, mid, qos).1);
      }
    }
  }

  predicate NamesWaiting(o: Out, mid: uint16) {
    var k := Find(o.msgs, mid);
    k < |o.msgs| && o.msgs[k].qos == 2 && o.msgs[k].state == Invalid
  }

  /**
   A PUBREC keeps the account exact if and only if it is refused, or names a sent message, or, on
   success, does not name a waiting one, or, with an error reason, finds the quota full.
   */
  lemma PubrecKeepsAccountExactly(v5: bool, o: Out, mid: uint16, reason: byte)
    requires Orderly(o)
    ensures var after := PubrecOut(v5, o, mid, reason).1;
            var exact := mid == 0 || !PubrecReasonOk(v5, reason) || NamesSent(o, mid, 2) ||
                         (if reason < 0x80 || !v5 then !NamesWaiting(o, mid) else o.quota == o.maximum);
            Active(after.msgs) + after.quota == if exact then o.maximum else o.maximum + 1
  {
    hide FirstSent, Release, Without, PubrecReasonOk;
    var k := Find(o.msgs, mid);
    if mid != 0 && PubrecReasonOk(v5, reason) {
      if NamesSent(o, mid, 2) {
        PubrecOrderly(v5, o, mid, reason);
      } else if reason < 0x80 || !v5 {
        if NamesWaiting(o, mid) { ActiveWoken(o.msgs, k, o.msgs[k].(state := WaitForPubcomp)); }
      } else {
        var removed := RemoveOut(o, mid, 2).1;
        if k < |o.msgs| && o.msgs[k].qos == 2 {
          ActiveWithout(o.msgs, k);
          WithoutQos(o.msgs, k);
          WithoutLength(o.msgs, k);
        }
        ReleaseOutBalance(removed.(quota := Increment(removed.quota, removed.maximum)));
      }
    }
  }

  lemma ActiveWoken(msgs: seq<Msg>, k: nat, m: Msg)
    requires k < |msgs| && msgs[k].state == Invalid && m.state != Invalid
    ensures Active(msgs[k := m]) == Active(msgs) + 1
  {
    assert msgs[k := m] == msgs[..k] + ([m] + msgs[k + 1..]);
    assert msgs == msgs[..k] + ([msgs[k]] + msgs[k + 1..]);
    ActiveConcat(msgs[..k], [m] + msgs[k + 1..]);
    ActiveConcat(msgs[..k], [msgs[k]] + msgs[k + 1..]);
  }

  lemma ResetActive(msgs: seq<Msg>, quota: nat)
    ensures var n := if |msgs| < quota then |msgs| else quota;
            Active(ResetMsgs(msgs, quota, true)) == Active(msgs[..n])
  {
    hide ResetMsgs, Active;
    var n := if |msgs| < quota then |msgs| else quota;
    var reset := ResetMsgs(msgs, quota, true);
    ResetBalance(msgs, quota, true);
    forall k | 0 <= k < |msgs|
      ensures reset[k] == if k >= quota then msgs[k].(state := Invalid) else msgs[k]
    {
      ResetAt(msgs, quota, true, k);
    }
    assert reset == reset[..n] + reset[n..];
    assert reset[..n] == msgs[..n];
    ActiveConcat(reset[..n], reset[n..]);
    ActiveOfPrefix(reset[n..], 0);
  }

  /**
   A new Receive Maximum is charged for the first messages of the list, sent or not, and nothing
   is released. The account is exact afterwards if and only if none of those messages waits.
   */
  lemma ConnackKeepsAccountExactly(o: Out, limit: Limit, reason: byte)
    requires ListOk(o)
    ensures var after := ConnackOut(o, limit, reason).1;
            Active(after.msgs) + after.quota == after.maximum <==>
            forall k :: 0 <= k < |o.msgs| && k < after.maximum ==> o.msgs[k].state != Invalid
  {
    hide RetryAll, ResetMsgs, Active;
    var limited := if limit.ReceiveMaximum? then o.(maximum := limit.value) else o;
    RetryKeeps(ResetOut(limited, true).msgs);
    ResetActive(o.msgs, limited.maximum);
    var n := if |o.msgs| < limited.maximum then |o.msgs| else limited.maximum as nat;
    ActiveBound(o.msgs[..n]);
    assert forall k :: 0 <= k < n ==> o.msgs[..n][k] == o.msgs[k];
  }

  // ----- What a changed limit does to messages -----

  /** What a release would send if quota lasted: the waiting messages, in order. */
  function WaitingWire(msgs: seq<Msg>): seq<Wire> {
    if msgs == [] then []
    else (if msgs[0].state == Invalid then [AsPublish(msgs[0])] else []) + WaitingWire(msgs[1..])
  }

  /** A release sends the first of the waiting messages, as many as there is quota for. */
  lemma {:induction false} ReleaseSendsWaiting(msgs: seq<Msg>, quota: nat)
    requires forall k :: 0 <= k < |msgs| ==> msgs[k].qos == 1 || msgs[k].qos == 2
    ensures var w := WaitingWire(msgs);
            Release(msgs, quota).wire == w[..if quota < |w| then quota else |w|]
  {
    hide AsPublish, FirstSend;
    if msgs == [] || quota == 0 {
    } else {
      ReleaseSendsWaiting(msgs[1..], if msgs[0].state == Invalid then quota - 1 else quota);
    }
  }

  /** Whatever a release sends is the PUBLISH of a waiting message. */
  lemma {:induction false} WaitingFrom(msgs: seq<Msg>, i: nat) returns (k: nat)
    requires i < |WaitingWire(msgs)|
    ensures k < |msgs| && msgs[k].state == Invalid && WaitingWire(msgs)[i] == AsPublish(msgs[k])
  {
    hide AsPublish;
    if msgs[0].state == Invalid && i == 0 {
      k := 0;
    } else {
      var j := WaitingFrom(msgs[1..], if msgs[0].state == Invalid then i - 1 else i);
      k := j + 1;
    }
  }

  lemma {:induction false} WaitingHas(msgs: seq<Msg>, k: nat)
    requires k < |msgs| && msgs[k].state == Invalid
    ensures AsPublish(msgs[k]) in WaitingWire(msgs)
  {
    hide AsPublish;
    if k == 0 {
    } else {
      WaitingHas(msgs[1..], k - 1);
    }
  }

  function Limited(o: Out, limit: Limit): Out { if limit.ReceiveMaximum? then o.(maximum := limit.value) else o }

  /** Each message after a CONNACK that accepts: beyond the limit it waits, otherwise it is resent if its state asks for it. */
  lemma AfterConnack(o: Out, limit: Limit, k: nat)
    requires k < |o.msgs|
    ensures var after := ConnackOut(o, limit, 0).1;
            && |after.msgs| == |o.msgs| && after.maximum == Limited(o, limit).maximum
            && after.msgs[k] == if k >= after.maximum then o.msgs[k].(state := Invalid) else Retried(o.msgs[k])
  {
    hide ResetMsgs, RetryAll, Retried;
    var reset := ResetOut(Limited(o, limit), true);
    ResetAt(o.msgs, Limited(o, limit).maximum, true, k);
    RetryAt(reset.msgs, k);
    WaitingIsNotRetried(o.msgs[k]);
  }

  lemma WaitingIsNotRetried(m: Msg)
    ensures Retried(m.(state := Invalid)) == m.(state := Invalid) && Retried(m).state == m.state && Retried(m).serial == m.serial
  {
  }

  lemma ConnackKeepsAscending(o: Out, limit: Limit)
    requires ListOk(o) && Ascending(o.msgs)
    ensures var after := ConnackOut(o, limit, 0).1;
            && |after.msgs| == |o.msgs| && Ascending(after.msgs)
            && forall k :: 0 <= k < |o.msgs| ==> after.msgs[k].serial == o.msgs[k].serial && after.msgs[k].qos == o.msgs[k].qos
  {
    hide ConnackOut;
    var after := ConnackOut(o, limit, 0).1;
    if o.msgs != [] { AfterConnack(o, limit, 0); } else { EmptyConnack(o, limit); }
    forall k | 0 <= k < |o.msgs|
      ensures after.msgs[k].serial == o.msgs[k].serial && after.msgs[k].qos == o.msgs[k].qos
    {
      AfterConnack(o, limit, k);
    }
  }

  lemma EmptyConnack(o: Out, limit: Limit)
    requires o.msgs == []
    ensures ConnackOut(o, limit, 0).1.msgs == []
  {
  }

  /**
   A message that has been sent waits again after a CONNACK, and the next releases with quota for
   it publish it once more with the duplicate flag it had, whether or not its PUBREC has come, if
   and only if its index reaches the new maximum.
   */
  lemma SentAgainExactly(o: Out, limit: Limit, k: nat)
    requires ListOk(o) && Ascending(o.msgs) && k < |o.msgs| && o.msgs[k].state != Invalid
    ensures var after := ConnackOut(o, limit, 0).1;
            var again := Release(after.msgs, |after.msgs|).wire;
            && (k >= after.maximum ==> AsPublish(o.msgs[k]) in again)
            && (k < after.maximum ==> forall i :: 0 <= i < |again| ==> again[i].SentPublish? && again[i].serial != o.msgs[k].serial)
  {
    hide ConnackOut, WaitingWire, Release, Retried;
    var after := ConnackOut(o, limit, 0).1;
    var w := WaitingWire(after.msgs);
    ConnackKeepsAscending(o, limit);
    AfterConnack(o, limit, k);
    WaitingIsNotRetried(o.msgs[k]);
    ReleaseSendsWaiting(after.msgs, |after.msgs|);
    WaitingIsShorter(after.msgs);
    assert w[..|w|] == w;
    if k < after.maximum {
      forall i | 0 <= i < |w|
        ensures w[i].SentPublish? && w[i].serial != o.msgs[k].serial
      {
        var j := WaitingFrom(after.msgs, i);
        assert j != k && after.msgs[j].serial != after.msgs[k].serial;
      }
    } else {
      WaitingHas(after.msgs, k);
    }
  }

  lemma {:induction false} WaitingIsShorter(msgs: seq<Msg>)
    ensures |WaitingWire(msgs)| <= |msgs|
  {
    if msgs == [] {
    } else {
      WaitingIsShorter(msgs[1..]);
    }
  }

  lemma {:induction false} InterruptedHas(msgs: seq<Msg>, k: nat)
    requires k < |msgs| && Ascending(msgs)
    ensures msgs[k].serial in Interrupted(msgs) <==> InterruptedPublish(msgs[k])
  {
    if k == 0 {
      if |msgs| > 1 { InterruptedAbove(msgs[1..], msgs[0].serial + 1); }
    } else {
      InterruptedHas(msgs[1..], k - 1);
    }
  }

  /**
   A message that has never been sent goes out with the duplicate flag on the connection after a
   reconnect if and only if it has QoS 1 and its index is below the maximum then and the one that
   the CONNACK sets.
   */
  lemma FirstSentAsDuplicateExactly(o: Out, limit: Limit, k: nat)
    requires ListOk(o) && Ascending(o.msgs) && k < |o.msgs| && o.msgs[k].state == Invalid
    ensures var lost := ResetOut(o, false);
            var resent := RetryAll(ResetOut(Limited(lost, limit), true).msgs).1;
            && ConnackOut(lost, limit, 0).1.wire == lost.wire + resent
            && (o.msgs[k].serial in Resent(resent) <==>
                o.msgs[k].qos == 1 && k < o.maximum && k < Limited(lost, limit).maximum)
  {
    hide ResetMsgs, RetryAll, Resent, Interrupted;
    var lost := ResetOut(o, false);
    var reset := ResetOut(Limited(lost, limit), true);
    forall j | 0 <= j < |o.msgs|
      ensures |lost.msgs| == |reset.msgs| == |o.msgs| && reset.msgs[j].serial == o.msgs[j].serial
    {
      ResetAt(o.msgs, o.maximum, false, j);
      ResetAt(lost.msgs, reset.maximum, true, j);
    }
    ResetAt(o.msgs, o.maximum, false, k);
    ResetAt(lost.msgs, reset.maximum, true, k);
    RetryInOrder(reset.msgs);
    InterruptedHas(reset.msgs, k);
  }

  /** With a fixed maximum that cannot happen: a waiting message never has an index below it. */
  lemma OrderlyWaitsBeyond(o: Out, k: nat)
    requires Orderly(o) && k < |o.msgs| && o.msgs[k].state == Invalid
    ensures k >= o.maximum
  {
    hide FirstSent;
  }

  // ----- The failures from the start of a run -----

  lemma RunOne(v5: bool, o: Out, e: OutEvent, es: seq<OutEvent>)
    ensures RunOut(v5, o, [e] + es) == RunOut(v5, StepOut(v5, o, e), es)
  {
    assert ([e] + es)[1..] == es;
  }

  lemma RunThree(v5: bool, o: Out, a: OutEvent, b: OutEvent, c: OutEvent)
    ensures RunOut(v5, o, [a, b, c]) == StepOut(v5, StepOut(v5, StepOut(v5, o, a), b), c)
  {
    hide StepOut;
    assert [a, b, c] == [a] + [b, c] && [b, c] == [b] + [c] && [c] == [c] + [];
    RunOne(v5, o, a, [b, c]);
    RunOne(v5, StepOut(v5, o, a), b, [c]);
    RunOne(v5, StepOut(v5, StepOut(v5, o, a), b), c, []);
  }

  /** Two publishes when one message may be in flight: the second waits. */
  lemma TwoPublished(v5: bool, qos: nat)
    requires qos == 1 || qos == 2
    ensures var sent := Msg(1, qos, if qos == 1 then WaitForPuback else WaitForPubrec, false, 0);
            StepOut(v5, StepOut(v5, Start(1), Publish(qos)), Publish(qos))
            == Out([sent, Msg(2, qos, Invalid, false, 1)], 0, 1, 2, [SentPublish(1, qos, false, 0)], 2, 2)
  {
    var first := Msg(1, qos, Invalid, false, 0);
    var sent := FirstSend(first);
    var second := Msg(2, qos, Invalid, false, 1);
    FirstReleased(first);
    assert [] + [first] == [first] && [] + [AsPublish(first)] == [AsPublish(first)];
    assert [AsPublish(first)] + [] == [AsPublish(first)];
    assert StepOut(v5, Start(1), Publish(qos)) == Out([sent], 0, 1, 1, [SentPublish(1, qos, false, 0)], 1, 1);
    assert [sent] + [second] == [sent, second];
  }

  lemma FirstReleased(first: Msg)
    requires first.qos > 0 && first.state == Invalid
    ensures Release([first], 1) == Released([FirstSend(first)], 0, [AsPublish(first)])
  {
    assert [first][1..] == [];
    assert [FirstSend(first)] + [] == [FirstSend(first)];
  }

  lemma SecondReleased(sent: Msg, qos: nat)
    requires sent.state != Invalid && (qos == 1 || qos == 2)
    ensures var second := Msg(2, qos, Invalid, false, 1);
            Release([sent, second], 1) == Released([sent, FirstSend(second)], 0, [AsPublish(second)])
  {
    var second := Msg(2, qos, Invalid, false, 1);
    FirstReleased(second);
    assert [sent, second][1..] == [second];
  }

  /** A PUBACK for an identifier that was never used: two messages in flight, where one is allowed. */
  lemma UnknownAckExample()
    ensures var o := RunOut(false, Start(1), [Publish(1), Publish(1), Ack(9, 1, 0)]);
            Active(o.msgs) == 2 && o.maximum == 1
  {
    RunThree(false, Start(1), Publish(1), Publish(1), Ack(9, 1, 0));
    TwoPublished(false, 1);
    var sent, second := Msg(1, 1, WaitForPuback, false, 0), Msg(2, 1, Invalid, false, 1);
    SecondReleased(sent, 1);
    assert [sent, second][1..] == [second] && [second][1..] == [];
    assert [sent, FirstSend(second)][1..] == [FirstSend(second)] && [FirstSend(second)][1..] == [];
  }

  /** The same after a PUBREC with an error reason. */
  lemma UnknownPubrecExample()
    ensures var o := RunOut(true, Start(1), [Publish(2), Publish(2), Pubrec(9, 0x80)]);
            Active(o.msgs) == 2 && o.maximum == 1
  {
    RunThree(true, Start(1), Publish(2), Publish(2), Pubrec(9, 0x80));
    TwoPublished(true, 2);
    var sent, second := Msg(1, 2, WaitForPubrec, false, 0), Msg(2, 2, Invalid, false, 1);
    SecondReleased(sent, 2);
    var o := Out([sent, second], 0, 1, 2, [SentPublish(1, 2, false, 0)], 2, 2);
    assert Find([sent, second], 9) == 2 && RemoveOut(o, 9, 2) == (NotFound, o);
    assert PubrecReasonOk(true, 0x80);
    assert PubrecOut(true, o, 9, 0x80).1 == ReleaseOut(o.(quota := 1));
    assert [sent, second][1..] == [second] && [second][1..] == [];
    assert [sent, FirstSend(second)][1..] == [FirstSend(second)] && [FirstSend(second)][1..] == [];
  }

  /** A CONNACK raises the limit to 2: the second message could go, but waits, with no quota left. */
  lemma RaisedLimitExample()
    ensures var o := RunOut(true, Start(1), [Publish(1), Publish(1), Connack(ReceiveMaximum(2), 0)]);
            Active(o.msgs) == 1 && |o.msgs| == 2 && o.quota == 0 && o.maximum == 2
  {
    RunThree(true, Start(1), Publish(1), Publish(1), Connack(ReceiveMaximum(2), 0));
    TwoPublished(true, 1);
    var sent, second := Msg(1, 1, WaitForPuback, false, 0), Msg(2, 1, Invalid, false, 1);
    assert [sent, second][1..] == [second] && [second][1..] == [];
    assert ResetMsgs([second], 1, true) == [second];
    assert ResetMsgs([sent, second], 2, true) == [sent, second];
    RetryKeeps([sent, second]);
    assert Active([second]) == 0 && Active([sent, second]) == 1;
  }

  lemma RunMore(v5: bool, o: Out, es: seq<OutEvent>, e: OutEvent)
    requires ExpectedRun(v5, o, es) && Expected(v5, RunOut(v5, o, es), e)
    ensures RunOut(v5, o, es + [e]) == StepOut(v5, RunOut(v5, o, es), e) && ExpectedRun(v5, o, es + [e])
    decreases |es|
  {
    hide StepOut, Expected;
    if es == [] {
      assert es + [e] == [e] + [];
      RunOne(v5, o, e, []);
      assert ([e] + [])[1..] == [] && ([e] + [])[0] == e;
    } else {
      assert (es + [e])[1..] == es[1..] + [e] && (es + [e])[0] == es[0];
      RunMore(v5, StepOut(v5, o, es[0]), es[1..], e);
    }
  }

  lemma TwoInFlight()
    ensures var es := [Publish(2), Publish(2)];
            && ExpectedRun(true, Start(2), es)
            && RunOut(true, Start(2), es)
               == Out([Msg(1, 2, WaitForPubrec, false, 0), Msg(2, 2, WaitForPubrec, false, 1)], 0, 2, 2,
                      [SentPublish(1, 2, false, 0), SentPublish(2, 2, false, 1)], 2, 2)
  {
    hide ExpectedRun, RunOut, StepOut;
    NoEvents(true, Start(2));
    RunMore(true, Start(2), [], Publish(2));
    PublishedFirst();
    assert [] + [Publish(2)] == [Publish(2)];
    RunMore(true, Start(2), [Publish(2)], Publish(2));
    PublishedSecond();
    assert [Publish(2)] + [Publish(2)] == [Publish(2), Publish(2)];
  }

  /** Two QoS 2 messages in flight, both with their PUBREC. */
  lemma BothReceived()
    ensures var es := [Publish(2), Publish(2), Pubrec(1, 0), Pubrec(2, 0)];
            var wire := [SentPublish(1, 2, false, 0), SentPublish(2, 2, false, 1), SentPubrel(1), SentPubrel(2)];
            && ExpectedRun(true, Start(2), es)
            && RunOut(true, Start(2), es)
               == Out([Msg(1, 2, WaitForPubcomp, false, 0), Msg(2, 2, WaitForPubcomp, false, 1)], 0, 2, 2, wire, 2, 2)
  {
    hide ExpectedRun, RunOut, StepOut, Expected;
    var a, b := Msg(1, 2, WaitForPubrec, false, 0), Msg(2, 2, WaitForPubrec, false, 1);
    var a2, b2 := a.(state := WaitForPubcomp), b.(state := WaitForPubcomp);
    var pa, pb := SentPublish(1, 2, false, 0), SentPublish(2, 2, false, 1);
    var es, es2 := [Publish(2), Publish(2)], [Publish(2), Publish(2), Pubrec(1, 0)];
    TwoInFlight();
    var o := Out([a, b], 0, 2, 2, [pa, pb], 2, 2);
    PubrecStep(o, 1, 0);
    RunMore(true, Start(2), es, Pubrec(1, 0));
    assert es + [Pubrec(1, 0)] == es2;
    var o2 := Out([a2, b], 0, 2, 2, [pa, pb, SentPubrel(1)], 2, 2);
    assert o2.msgs == o.msgs[0 := a2] && o2.wire == o.wire + [SentPubrel(1)];
    PubrecStep(o2, 2, 1);
    RunMore(true, Start(2), es2, Pubrec(2, 0));
    assert es2 + [Pubrec(2, 0)] == [Publish(2), Publish(2), Pubrec(1, 0), Pubrec(2, 0)];
    assert o2.msgs[1 := b2] == [a2, b2] && o2.wire + [SentPubrel(2)] == [pa, pb, SentPubrel(1), SentPubrel(2)];
  }

  lemma NoEvents(v5: bool, o: Out)
    ensures RunOut(v5, o, []) == o && ExpectedRun(v5, o, [])
  {
  }

  lemma PublishedFirst()
    ensures StepOut(true, Start(2), Publish(2))
            == Out([Msg(1, 2, WaitForPubrec, false, 0)], 1, 2, 1, [SentPublish(1, 2, false, 0)], 1, 1)
  {
    var m := Msg(1, 2, Invalid, false, 0);
    assert [] + [m] == [m] && [m][1..] == [];
    assert Release([m][1..], 1) == Released([], 1, []);
    assert Release([m], 2) == Released([FirstSend(m)] + [], 1, [AsPublish(m)] + []);
  }

  lemma PublishedSecond()
    ensures StepOut(true, Out([Msg(1, 2, WaitForPubrec, false, 0)], 1, 2, 1, [SentPublish(1, 2, false, 0)], 1, 1), Publish(2))
            == Out([Msg(1, 2, WaitForPubrec, false, 0), Msg(2, 2, WaitForPubrec, false, 1)], 0, 2, 2,
                   [SentPublish(1, 2, false, 0), SentPublish(2, 2, false, 1)], 2, 2)
  {
    var sent := Msg(1, 2, WaitForPubrec, false, 0);
    SecondReleased(sent, 2);
    assert [sent] + [Msg(2, 2, Invalid, false, 1)] == [sent, Msg(2, 2, Invalid, false, 1)];
  }

  lemma PubrecStep(o: Out, mid: uint16, k: nat)
    requires mid != 0 && k < |o.msgs| && k == Find(o.msgs, mid) && o.msgs[k].qos == 2 && o.msgs[k].state != Invalid
    ensures Expected(true, o, Pubrec(mid, 0))
    ensures StepOut(true, o, Pubrec(mid, 0))
            == o.(msgs := o.msgs[k := o.msgs[k].(state := WaitForPubcomp)], wire := o.wire + [SentPubrel(mid)])
  {
  }

  /**
   Both messages are past their PUBREC when a CONNACK lowers the limit to one; the PUBCOMP for the
   first then publishes the second again as if it were new, behind its PUBREL.
   */
  lemma PublishedAgainExample()
    ensures var es := [Publish(2), Publish(2), Pubrec(1, 0), Pubrec(2, 0), Connack(ReceiveMaximum(1), 0), Ack(1, 2, 0)];
            && ExpectedRun(true, Start(2), es)
            && RunOut(true, Start(2), es).wire
               == [SentPublish(1, 2, false, 0), SentPublish(2, 2, false, 1), SentPubrel(1), SentPubrel(2), SentPubrel(1),
                   SentPublish(2, 2, false, 1)]
  {
    hide ExpectedRun, RunOut, StepOut;
    BothReceived();
    var es := [Publish(2), Publish(2), Pubrec(1, 0), Pubrec(2, 0)];
    var o := RunOut(true, Start(2), es);
    ConnackStep(o);
    RunMore(true, Start(2), es, Connack(ReceiveMaximum(1), 0));
    var es2 := es + [Connack(ReceiveMaximum(1), 0)];
    var o2 := RunOut(true, Start(2), es2);
    AckStep(o2);
    RunMore(true, Start(2), es2, Ack(1, 2, 0));
    assert es2 + [Ack(1, 2, 0)] == [Publish(2), Publish(2), Pubrec(1, 0), Pubrec(2, 0), Connack(ReceiveMaximum(1), 0), Ack(1, 2, 0)];
  }

  lemma ConnackStep(o: Out)
    requires var a, b := Msg(1, 2, WaitForPubcomp, false, 0), Msg(2, 2, WaitForPubcomp, false, 1); o.msgs == [a, b]
    ensures var a, b := Msg(1, 2, WaitForPubcomp, true, 0), Msg(2, 2, Invalid, false, 1);
            StepOut(true, o, Connack(ReceiveMaximum(1), 0))
            == o.(msgs := [a, b], quota := 0, maximum := 1, queueLen := 2, wire := o.wire + [SentPubrel(1)])
  {
    var a, b := Msg(1, 2, WaitForPubcomp, false, 0), Msg(2, 2, Invalid, false, 1);
    assert o.msgs[1..] == [Msg(2, 2, WaitForPubcomp, false, 1)] && o.msgs[1..][1..] == [];
    assert ResetMsgs(o.msgs[1..], 0, true) == [b];
    assert ResetMsgs(o.msgs, 1, true) == [a, b];
    assert [a, b][1..] == [b] && [b][1..] == [];
    RetryTwo(a, b);
    assert RetryWire(a) + [] == [SentPubrel(1)];
  }

  lemma RetryTwo(a: Msg, b: Msg)
    ensures RetryAll([a, b]) == ([Retried(a), Retried(b)], RetryWire(a) + RetryWire(b))
  {
    hide Retried, RetryWire;
    assert [a, b][1..] == [b] && [b][1..] == [];
    assert [Retried(b)] + [] == [Retried(b)] && RetryWire(b) + [] == RetryWire(b);
    assert RetryAll([b]) == ([Retried(b)], RetryWire(b));
    assert [Retried(a)] + [Retried(b)] == [Retried(a), Retried(b)];
  }

  lemma AckStep(o: Out)
    requires o.msgs == [Msg(1, 2, WaitForPubcomp, true, 0), Msg(2, 2, Invalid, false, 1)] && o.quota == 0 && o.maximum == 1
    ensures Expected(true, o, Ack(1, 2, 0))
    ensures StepOut(true, o, Ack(1, 2, 0)).wire == o.wire + [SentPublish(2, 2, false, 1)]
  {
    var b := Msg(2, 2, Invalid, false, 1);
    assert Find(o.msgs, 1) == 0 && Without(o.msgs, 0) == [b];
    FirstReleased(b);
  }

  /** A message that waits when the limit is raised is sent for the first time after the next reconnect, as a duplicate. */
  lemma FirstSentAsDuplicateExample()
    ensures var es := [Publish(1), Publish(1), Connack(ReceiveMaximum(2), 0), Reconnect, Connack(Unchanged, 0)];
            && ExpectedRun(true, Start(1), es)
            && RunOut(true, Start(1), es).wire
               == [SentPublish(1, 1, false, 0), SentPublish(1, 1, true, 0), SentPublish(2, 1, true, 1)]
  {
    hide ExpectedRun, RunOut, StepOut;
    var a, b := Msg(1, 1, WaitForPuback, false, 0), Msg(2, 1, Invalid, false, 1);
    NoEvents(true, Start(1));
    RunMore(true, Start(1), [], Publish(1));
    assert [] + [Publish(1)] == [Publish(1)];
    RunMore(true, Start(1), [Publish(1)], Publish(1));
    assert [Publish(1)] + [Publish(1)] == [Publish(1), Publish(1)];
    TwoPublished(true, 1);
    var o := Out([a, b], 0, 1, 2, [SentPublish(1, 1, false, 0)], 2, 2);
    RaiseStep(o);
    RunMore(true, Start(1), [Publish(1), Publish(1)], Connack(ReceiveMaximum(2), 0));
    var es := [Publish(1), Publish(1)] + [Connack(ReceiveMaximum(2), 0)];
    var o2 := o.(maximum := 2);
    LoseStep(o2);
    RunMore(true, Start(1), es, Reconnect);
    var o3 := o2.(msgs := [a.(state := PublishQos1), b.(state := PublishQos1)]);
    ResendStep(o3);
    RunMore(true, Start(1), es + [Reconnect], Connack(Unchanged, 0));
    assert es + [Reconnect] + [Connack(Unchanged, 0)]
        == [Publish(1), Publish(1), Connack(ReceiveMaximum(2), 0), Reconnect, Connack(Unchanged, 0)];
    assert o.wire + [SentPublish(1, 1, true, 0), SentPublish(2, 1, true, 1)]
        == [SentPublish(1, 1, false, 0), SentPublish(1, 1, true, 0), SentPublish(2, 1, true, 1)];
  }

  lemma RaiseStep(o: Out)
    requires o == Out([Msg(1, 1, WaitForPuback, false, 0), Msg(2, 1, Invalid, false, 1)], 0, 1, 2, [SentPublish(1, 1, false, 0)], 2, 2)
    ensures StepOut(true, o, Connack(ReceiveMaximum(2), 0)) == o.(maximum := 2)
  {
    var a, b := o.msgs[0], o.msgs[1];
    assert [a, b][1..] == [b] && [b][1..] == [] && o.msgs == [a, b];
    assert ResetMsgs([b], 1, true) == [b];
    assert ResetMsgs([a, b], 2, true) == [a, b];
    RetryTwo(a, b);
  }

  lemma LoseStep(o: Out)
    requires o == Out([Msg(1, 1, WaitForPuback, false, 0), Msg(2, 1, Invalid, false, 1)], 0, 2, 2, [SentPublish(1, 1, false, 0)], 2, 2)
    ensures StepOut(true, o, Reconnect) == o.(msgs := [o.msgs[0].(state := PublishQos1), o.msgs[1].(state := PublishQos1)])
  {
    var a, b := o.msgs[0], o.msgs[1];
    assert [a, b][1..] == [b] && [b][1..] == [] && o.msgs == [a, b];
    assert ResetMsgs([b], 1, false) == [b.(state := PublishQos1)];
  }

  lemma ResendStep(o: Out)
    requires o.msgs == [Msg(1, 1, PublishQos1, false, 0), Msg(2, 1, PublishQos1, false, 1)] && o.maximum == 2
    ensures StepOut(true, o, Connack(Unchanged, 0)).wire == o.wire + [SentPublish(1, 1, true, 0), SentPublish(2, 1, true, 1)]
  {
    var a, b := o.msgs[0], o.msgs[1];
    assert [a, b][1..] == [b] && [b][1..] == [] && o.msgs == [a, b];
    assert ResetMsgs([b], 1, true) == [b];
    assert ResetMsgs([a, b], 2, true) == [a, b];
    RetryTwo(a, b);
  }
}
