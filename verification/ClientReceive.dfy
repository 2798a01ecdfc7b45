/**
 The client's receiving half: QoS 2 messages are held between PUBLISH and PUBREL. Every send is
 assumed to succeed. The class in ClientEngine is proved to take these steps.
 */
module ClientReceive {
  import opened Bytes
  import opened ClientQos

  /**
   msgs_in, with two logs: every message that was accepted, and every message that was handed
   to on_message, both in order.
   */
  datatype In = In(held: seq<Msg>, quota: nat, maximum: uint16, queueLen: int,
                   accepted: seq<Msg>, delivered: seq<Msg>, wire: seq<Wire>)

  /** handle__publish after decoding; the identifier of a QoS 0 message is 0. */
  function ReceiveIn(v5: bool, i: In, mid: uint16, qos: nat, dup: bool): (Rc, In) {
    if qos == 0 then
      var m := Msg(0, 0, Invalid, dup, |i.accepted|);
      (Success, i.(accepted := i.accepted + [m], delivered := i.delivered + [m]))
    else if v5 && i.quota == 0 then (Protocol, i)
    else if mid == 0 then (Protocol, i)
    else if qos == 1 then
      var m := Msg(mid, 1, Invalid, dup, |i.accepted|);
      (Success, i.(accepted := i.accepted + [m], delivered := i.delivered + [m], wire := i.wire + [SentPuback(mid)],
                   quota := Increment(Decrement(i.quota), i.maximum)))
    else if qos == 2 then
      var m := Msg(mid, 2, WaitForPubrel, dup, |i.accepted|);
      (Success, i.(accepted := i.accepted + [m], held := i.held + [m], queueLen := i.queueLen + 1,
                   wire := i.wire + [SentPubrec(mid)], quota := Decrement(i.quota)))
    else (Protocol, i)
  }

  /** An identifier of 0, or an MQTT 5 reason other than success and identifier not found. */
  predicate PubrelRefused(v5: bool, mid: uint16, reason: byte) {
    mid == 0 || (v5 && reason != 0 && reason != 0x92)
  }

  /** handle__pubrel: PUBCOMP goes out first, whatever is held. */
  function PubrelIn(v5: bool, i: In, mid: uint16, reason: byte): (Rc, In) {
    if PubrelRefused(v5, mid, reason) then (Protocol, i)
    else
      var answered := i.(quota := Increment(i.quota, i.maximum), wire := i.wire + [SentPubcomp(mid)]);
      var k := Find(i.held, mid);
      if k == |i.held| then (Success, answered)
      else if i.held[k].qos != 2 then (Protocol, answered)
      else (Success, answered.(held := Without(i.held, k), queueLen := i.queueLen - 1,
                               delivered := i.delivered + [i.held[k]]))
  }

  /** The incoming loop of message__reconnect_reset: only QoS 2 messages stay. */
  function Kept(held: seq<Msg>): seq<Msg> {
    if held == [] then []
    else if held[0].qos != 2 then Kept(held[1..])
    else [held[0]] + Kept(held[1..])
  }

  function ChargedQuota(held: seq<Msg>, quota: nat): nat {
    if held == [] then quota
    else ChargedQuota(held[1..], if held[0].qos != 2 then quota else Decrement(quota))
  }

  function ResetIn(i: In): In {
    i.(held := Kept(i.held), quota := ChargedQuota(i.held, i.maximum), queueLen := |i.held|)
  }

  // ----- Runs -----

  datatype InEvent =
    | Arrive(mid: uint16, qos: nat, dup: bool)
    | Pubrel(mid: uint16, reason: byte)
    | Reset

  function StepIn(v5: bool, i: In, e: InEvent): In {
    match e
    case Arrive(mid, qos, dup) => ReceiveIn(v5, i, mid, qos, dup).1
    case Pubrel(mid, reason) => PubrelIn(v5, i, mid, reason).1
    case Reset => ResetIn(i)
  }

  function RunIn(v5: bool, i: In, es: seq<InEvent>): In
    decreases |es|
  {
    if es == [] then i else RunIn(v5, StepIn(v5, i, es[0]), es[1..])
  }

  function StartIn(maximum: uint16): In {
    In([], maximum, maximum, 0, [], [], [])
  }

  predicate AllHeld(held: seq<Msg>) {
    forall k :: 0 <= k < |held| ==> held[k].qos == 2 && held[k].state == WaitForPubrel && held[k].mid != 0
  }

  predicate Numbered(accepted: seq<Msg>) {
    forall k :: 0 <= k < |accepted| ==> accepted[k].serial == k
  }

  /** Accepted messages are exactly those delivered and those still held. */
  predicate Conserved(i: In) {
    && multiset(i.accepted) == multiset(i.delivered) + multiset(i.held)
    && Numbered(i.accepted) && AllHeld(i.held) && i.queueLen == |i.held|
  }

  lemma MultisetWithout(s: seq<Msg>, k: nat)
    requires k < |s|
    ensures multiset(s) == multiset(Without(s, k)) + multiset{s[k]}
  {
    assert s == s[..k] + [s[k]] + s[k + 1..];
  }

  lemma {:induction false} KeepsAllHeld(held: seq<Msg>, quota: nat)
    requires AllHeld(held)
    ensures Kept(held) == held && ChargedQuota(held, quota) == if |held| <= quota then quota - |held| else 0
  {
    if held == [] {
    } else {
      KeepsAllHeld(held[1..], Decrement(quota));
      assert held == [held[0]] + held[1..];
    }
  }

  lemma ArriveConserves(v5: bool, i: In, mid: uint16, qos: nat, dup: bool)
    requires Conserved(i)
    ensures Conserved(ReceiveIn(v5, i, mid, qos, dup).1)
  {
    var after := ReceiveIn(v5, i, mid, qos, dup).1;
    if after != i {
      var m := after.accepted[|i.accepted|];
      assert multiset(i.accepted + [m]) == multiset(i.accepted) + multiset{m};
      if qos == 2 {
        assert multiset(i.held + [m]) == multiset(i.held) + multiset{m};
      } else {
        assert multiset(i.delivered + [m]) == multiset(i.delivered) + multiset{m};
      }
    }
  }

  lemma WithoutHeld(held: seq<Msg>, k: nat)
    requires k < |held| && AllHeld(held)
    ensures AllHeld(Without(held, k)) && |Without(held, k)| == |held| - 1
  {
  }

  lemma PubrelConserves(v5: bool, i: In, mid: uint16, reason: byte)
    requires Conserved(i)
    ensures Conserved(PubrelIn(v5, i, mid, reason).1)
  {
    hide Find, Without, AllHeld, Numbered;
    var k := Find(i.held, mid);
    if k < |i.held| {
      MultisetWithout(i.held, k);
      WithoutHeld(i.held, k);
      assert multiset(i.delivered + [i.held[k]]) == multiset(i.delivered) + multiset{i.held[k]};
      assert i.held[k].qos == 2 by { IsHeld(i.held, k); }
    }
  }

  lemma IsHeld(held: seq<Msg>, k: nat)
    requires k < |held| && AllHeld(held)
    ensures held[k].qos == 2
  {
  }

  lemma ConservedStep(v5: bool, i: In, e: InEvent)
    requires Conserved(i)
    ensures Conserved(StepIn(v5, i, e))
  {
    hide Kept, ChargedQuota, Find, ReceiveIn, PubrelIn;
    match e
    case Arrive(mid, qos, dup) => ArriveConserves(v5, i, mid, qos, dup);
    case Pubrel(mid, reason) => PubrelConserves(v5, i, mid, reason);
    case Reset => KeepsAllHeld(i.held, i.maximum);
  }

  /**
   Over every run, with any identifiers, duplicates and reconnects, the accepted messages are
   exactly those delivered and those held, each once; queue_len is the number held.
   */
  lemma {:induction false} NothingLostOrRepeated(v5: bool, i: In, es: seq<InEvent>)
    requires Conserved(i)
    ensures var after := RunIn(v5, i, es);
            && Conserved(after)
            && forall j, k :: 0 <= j < k < |after.delivered| ==> after.delivered[j].serial != after.delivered[k].serial
    decreases |es|
  {
    hide StepIn, Conserved;
    if es != [] {
      ConservedStep(v5, i, es[0]);
      NothingLostOrRepeated(v5, StepIn(v5, i, es[0]), es[1..]);
    } else {
      forall j, k | 0 <= j < k < |i.delivered|
        ensures i.delivered[j].serial != i.delivered[k].serial
      {
        DeliveredOnce(i, j, k);
      }
    }
  }

  lemma {:induction false} NumberedOnce(accepted: seq<Msg>, m: Msg)
    requires Numbered(accepted)
    ensures multiset(accepted)[m] <= 1
    ensures m in multiset(accepted) ==> m.serial < |accepted| && accepted[m.serial] == m
  {
    if accepted == [] {
    } else {
      var n := |accepted| - 1;
      NumberedOnce(accepted[..n], m);
      assert accepted == accepted[..n] + [accepted[n]];
    }
  }

  lemma CountedTwice(s: seq<Msg>, j: nat, k: nat)
    requires j < k < |s| && s[j] == s[k]
    ensures multiset(s)[s[j]] >= 2
  {
    assert s == s[..k] + s[k..];
    assert s[j] in s[..k] && s[j] in s[k..];
  }

  lemma DeliveredOnce(i: In, j: nat, k: nat)
    requires Conserved(i) && j < k < |i.delivered|
    ensures i.delivered[j].serial != i.delivered[k].serial
  {
    var a, b := i.delivered[j], i.delivered[k];
    NumberedOnce(i.accepted, a);
    NumberedOnce(i.accepted, b);
    assert a in multiset(i.delivered) && b in multiset(i.delivered);
    if a == b { CountedTwice(i.delivered, j, k); }
  }

  /** A PUBREL delivers the oldest message held under its identifier, and nothing if there is none. */
  lemma PubrelDelivers(v5: bool, i: In, mid: uint16, reason: byte)
    requires Conserved(i) && !PubrelRefused(v5, mid, reason)
    ensures var (rc, after) := PubrelIn(v5, i, mid, reason);
            && rc == Success
            && ((exists m :: m in i.held && m.mid == mid) <==> |after.delivered| == |i.delivered| + 1)
            && ((forall m :: m in i.held ==> m.mid != mid) ==> after.delivered == i.delivered && after.held == i.held)
            && (|after.delivered| > |i.delivered| ==>
                  var m := after.delivered[|i.delivered|];
                  && m in i.held && m.mid == mid
                  && forall o :: o in i.held && o.mid == mid ==> m == o || o in after.held)
  {
    var k := Find(i.held, mid);
    if k < |i.held| {
      MultisetWithout(i.held, k);
      forall o | o in i.held && o.mid == mid && o != i.held[k]
        ensures o in Without(i.held, k)
      {
        assert o in multiset(i.held);
      }
    }
  }

  /** QoS 0 and 1 messages are delivered at once, so in the order in which they were accepted. */
  function Direct(log: seq<Msg>): seq<Msg> {
    if log == [] then []
    else Direct(log[..|log| - 1]) + if log[|log| - 1].qos < 2 then [log[|log| - 1]] else []
  }

  lemma DirectAppend(log: seq<Msg>, m: Msg)
    ensures Direct(log + [m]) == Direct(log) + if m.qos < 2 then [m] else []
  {
    assert (log + [m])[..|log|] == log;
  }

  lemma {:induction false} DirectInOrder(v5: bool, i: In, es: seq<InEvent>)
    requires Conserved(i) && Direct(i.delivered) == Direct(i.accepted)
    ensures Direct(RunIn(v5, i, es).delivered) == Direct(RunIn(v5, i, es).accepted)
    decreases |es|
  {
    hide Kept, ChargedQuota, Find, Direct, Conserved, Without;
    if es == [] {
    } else {
      ConservedStep(v5, i, es[0]);
      match es[0] {
        case Arrive(mid, qos, dup) =>
          var m := Msg(if qos == 0 then 0 else mid, qos, if qos == 2 then WaitForPubrel else Invalid, dup, |i.accepted|);
          DirectAppend(i.accepted, m);
          DirectAppend(i.delivered, m);
        case Pubrel(mid, _) =>
          var k := Find(i.held, mid);
          if k < |i.held| { DirectAppend(i.delivered, i.held[k]); }
        case Reset =>
      }
      DirectInOrder(v5, StepIn(v5, i, es[0]), es[1..]);
    }
  }

  // ----- The receive quota -----

  predicate Charged(i: In) {
    Conserved(i) && i.quota + |i.held| == i.maximum
  }

  predicate Holds(i: In, mid: uint16) {
    exists k :: 0 <= k < |i.held| && i.held[k].mid == mid
  }

  /** PUBRELs name held messages. */
  predicate ReleasesHeld(v5: bool, i: In, es: seq<InEvent>)
    decreases |es|
  {
    es == [] || ((es[0].Pubrel? ==> PubrelRefused(v5, es[0].mid, es[0].reason) || Holds(i, es[0].mid)) && ReleasesHeld(v5, StepIn(v5, i, es[0]), es[1..]))
  }

  lemma QuotaStep(i: In, e: InEvent)
    requires AllHeld(i.held) && i.quota + |i.held| == i.maximum
    requires e.Pubrel? ==> PubrelRefused(true, e.mid, e.reason) || Holds(i, e.mid)
    ensures var after := StepIn(true, i, e);
            after.quota + |after.held| == i.maximum && after.maximum == i.maximum
  {
    hide Kept, ChargedQuota, Find, Without, AllHeld;
    match e
    case Arrive(_, _, _) =>
    case Pubrel(mid, _) =>
      var k := Find(i.held, mid);
      if k < |i.held| {
        WithoutHeld(i.held, k);
        IsHeld(i.held, k);
      }
    case Reset => KeepsAllHeld(i.held, i.maximum);
  }

  lemma ChargedStep(i: In, e: InEvent)
    requires Charged(i) && (e.Pubrel? ==> PubrelRefused(true, e.mid, e.reason) || Holds(i, e.mid))
    ensures Charged(StepIn(true, i, e)) && StepIn(true, i, e).maximum == i.maximum
  {
    hide StepIn, AllHeld, Numbered;
    ConservedStep(true, i, e);
    QuotaStep(i, e);
  }

  /** On MQTT 5 every run keeps receive quota plus held messages equal to the maximum. */
  lemma {:induction false} QuotaIsExact(i: In, es: seq<InEvent>)
    requires Charged(i) && ReleasesHeld(true, i, es)
    ensures Charged(RunIn(true, i, es)) && RunIn(true, i, es).maximum == i.maximum
    decreases |es|
  {
    hide StepIn, Charged, Holds;
    if es == [] {
    } else {
      ChargedStep(i, es[0]);
      QuotaIsExact(StepIn(true, i, es[0]), es[1..]);
    }
  }

  /** A PUBREL keeps the account exact if and only if it names a held message or the quota is full. */
  lemma PubrelKeepsQuotaExactly(v5: bool, i: In, mid: uint16, reason: byte)
    requires Charged(i) && !PubrelRefused(v5, mid, reason)
    ensures var after := PubrelIn(v5, i, mid, reason).1;
            && (Charged(after) <==> Holds(i, mid) || i.quota == i.maximum)
            && after.quota + |after.held| == if Holds(i, mid) || i.quota == i.maximum then i.maximum else i.maximum + 1
  {
    hide Find;
    ConservedStep(v5, i, Pubrel(mid, reason));
    var k := Find(i.held, mid);
    if Holds(i, mid) {
      var j :| 0 <= j < |i.held| && i.held[j].mid == mid;
      assert k < |i.held|;
    }
  }

  /** Before MQTT 5 nothing limits arrivals: a QoS 1 or 2 message that finds no quota breaks the account. */
  lemma OldProtocolChargesWhileQuotaLasts(i: In, mid: uint16, qos: nat, dup: bool)
    requires Charged(i) && mid != 0
    ensures Charged(ReceiveIn(false, i, mid, qos, dup).1) <==>
            i.quota > 0 || qos == 0 || qos > 2 || (qos == 1 && i.maximum == 0)
  {
    ConservedStep(false, i, Arrive(mid, qos, dup));
  }

  // ----- Retransmissions -----

  predicate DistinctIds(held: seq<Msg>) {
    forall j, k :: 0 <= j < k < |held| ==> held[j].mid != held[k].mid
  }

  /**
   A QoS 2 PUBLISH is held without looking for its identifier, so a retransmission is held a
   second time: the held identifiers stay distinct if and only if this one was not held.
   */
  lemma RetransmissionIsHeldTwice(v5: bool, i: In, mid: uint16, dup: bool)
    requires Conserved(i) && DistinctIds(i.held) && mid != 0 && (v5 ==> i.quota > 0)
    ensures DistinctIds(ReceiveIn(v5, i, mid, 2, dup).1.held) <==> !Holds(i, mid)
  {
    var after := ReceiveIn(v5, i, mid, 2, dup).1;
    if Holds(i, mid) {
      var k :| 0 <= k < |i.held| && i.held[k].mid == mid;
      assert after.held[k].mid == after.held[|i.held|].mid;
    }
  }

  predicate HeldTwice(held: seq<Msg>, mid: uint16) {
    exists j, k :: 0 <= j < k < |held| && held[j].mid == mid && held[k].mid == mid
  }

  /** With distinct identifiers one PUBREL ends an exchange; a message held twice stays behind. */
  lemma PubrelEndsExchange(v5: bool, i: In, mid: uint16, reason: byte)
    requires Conserved(i) && !PubrelRefused(v5, mid, reason) && Holds(i, mid)
    ensures var after := PubrelIn(v5, i, mid, reason).1;
            && (DistinctIds(i.held) ==> !Holds(after, mid) && DistinctIds(after.held))
            && (HeldTwice(i.held, mid) ==> Holds(after, mid))
  {
    hide Find, AllHeld, Numbered, Without, DistinctIds, HeldTwice;
    var k := Find(i.held, mid);
    var x :| 0 <= x < |i.held| && i.held[x].mid == mid;
    assert k < |i.held|;
    IsHeld(i.held, k);
    OneLess(i.held, k);
  }

  lemma OneLess(held: seq<Msg>, k: nat)
    requires k < |held|
    ensures var w := Without(held, k);
            && (DistinctIds(held) ==> DistinctIds(w) && forall n :: 0 <= n < |w| ==> w[n].mid != held[k].mid)
            && (HeldTwice(held, held[k].mid) ==> exists n :: 0 <= n < |w| && w[n].mid == held[k].mid)
  {
    var w := Without(held, k);
    assert forall n :: 0 <= n < |w| ==> w[n] == held[if n < k then n else n + 1];
    if HeldTwice(held, held[k].mid) {
      var a, b :| 0 <= a < b < |held| && held[a].mid == held[k].mid && held[b].mid == held[k].mid;
      var other := if a == k then b else a;
      assert w[if other < k then other else other - 1] == held[other];
    }
  }

  // ----- The failures from the start of a run -----

  lemma RunOneIn(v5: bool, i: In, e: InEvent, es: seq<InEvent>)
    ensures RunIn(v5, i, [e] + es) == RunIn(v5, StepIn(v5, i, e), es)
  {
    assert ([e] + es)[1..] == es;
  }

  lemma RunTwoIn(v5: bool, i: In, a: InEvent, b: InEvent)
    ensures RunIn(v5, i, [a, b]) == StepIn(v5, StepIn(v5, i, a), b)
  {
    hide StepIn;
    assert [a, b] == [a] + [b] && [b] == [b] + [];
    RunOneIn(v5, i, a, [b]);
    RunOneIn(v5, StepIn(v5, i, a), b, []);
  }

  /** A PUBREL for an identifier that is not held: a message is held, and the full quota is back. */
  lemma UnknownPubrelExample()
    ensures var i := RunIn(true, StartIn(1), [Arrive(1, 2, false), Pubrel(9, 0)]);
            |i.held| == 1 && i.quota == 1 && i.maximum == 1
  {
    RunTwoIn(true, StartIn(1), Arrive(1, 2, false), Pubrel(9, 0));
    var m := Msg(1, 2, WaitForPubrel, false, 0);
    assert [] + [m] == [m] && [m][1..] == [];
  }

  /** A QoS 2 message and its retransmission, then two PUBRELs for the one identifier: delivered twice. */
  lemma DeliveredTwiceExample()
    ensures var i := RunIn(false, RunIn(false, StartIn(20), [Arrive(1, 2, false), Arrive(1, 2, true)]), [Pubrel(1, 0), Pubrel(1, 0)]);
            |i.delivered| == 2 && i.delivered[0].mid == i.delivered[1].mid == 1 && i.held == []
  {
    var a, b := Msg(1, 2, WaitForPubrel, false, 0), Msg(1, 2, WaitForPubrel, true, 1);
    var i := RunIn(false, StartIn(20), [Arrive(1, 2, false), Arrive(1, 2, true)]);
    RunTwoIn(false, StartIn(20), Arrive(1, 2, false), Arrive(1, 2, true));
    assert [] + [a] == [a] && [a] + [b] == [a, b] && i.held == [a, b];
    RunTwoIn(false, i, Pubrel(1, 0), Pubrel(1, 0));
    assert Without([a, b], 0) == [b] && Without([b], 0) == [];
    assert Find([a, b], 1) == 0 && Find([b], 1) == 0;
    assert [] + [a] == [a] && [a] + [b] == [a, b];
  }
}
