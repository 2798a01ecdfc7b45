/**
 The broker's two message lists per client and direction, as values: what each list operation
 does, and what a recount of a list is. The classes in BrokerDb are proved to do this in place.
 */
module BrokerMsgs {
  import opened Bytes

  datatype MsgState =
    | Invalid
    | PublishQos0
    | PublishQos1
    | WaitForPuback
    | PublishQos2
    | WaitForPubrec
    | ResendPubrel
    | WaitForPubrel
    | ResendPubcomp
    | WaitForPubcomp
    | SendPubrec
    | Queued

  /** A stored message; its reference count is kept by the store. expiry is 0 for none. */
  datatype Stored = Stored(id: nat, payloadLen: uint32, qos: nat, expiry: nat, sourceMid: uint16, hasTopic: bool)

  /** A client message: a stored message on its way to or from one client. */
  datatype ClientMsg = ClientMsg(store: Stored, mid: uint16, qos: nat, state: MsgState, dup: bool, retain: bool)

  datatype Direction = Incoming | Outgoing

  datatype Config = Config(maxQueuedMessages: nat, maxQueuedBytes: nat, maxInflightBytes: nat,
                           queueQos0Messages: bool, allowDuplicateMessages: bool)

  /** The counters of one list: all messages and those with QoS above 0. */
  datatype Tally = Tally(count: int, bytes: int, count12: int, bytes12: int)

  function Plus(t: Tally, m: ClientMsg): Tally {
    Tally(t.count + 1, t.bytes + m.store.payloadLen,
          if m.qos != 0 then t.count12 + 1 else t.count12,
          if m.qos != 0 then t.bytes12 + m.store.payloadLen else t.bytes12)
  }

  function Minus(t: Tally, m: ClientMsg): Tally {
    Tally(t.count - 1, t.bytes - m.store.payloadLen,
          if m.qos != 0 then t.count12 - 1 else t.count12,
          if m.qos != 0 then t.bytes12 - m.store.payloadLen else t.bytes12)
  }

  function Sum(a: Tally, b: Tally): Tally {
    Tally(a.count + b.count, a.bytes + b.bytes, a.count12 + b.count12, a.bytes12 + b.bytes12)
  }

  const ZERO := Tally(0, 0, 0, 0)

  /** The recount of a list. */
  function Recount(msgs: seq<ClientMsg>): Tally {
    if msgs == [] then ZERO else Plus(Recount(msgs[1..]), msgs[0])
  }

  /** The stored messages a list points at, one reference for each client message. */
  function Refs(msgs: seq<ClientMsg>): multiset<Stored> {
    if msgs == [] then multiset{} else multiset{msgs[0].store} + Refs(msgs[1..])
  }

  lemma RecountNone(msgs: seq<ClientMsg>)
    ensures msgs == [] ==> Recount(msgs) == ZERO
  {
  }

  lemma SumOfPlus(a: Tally, b: Tally, m: ClientMsg)
    ensures Sum(Plus(a, m), b) == Plus(Sum(a, b), m)
  {
  }

  lemma SumOfZero(b: Tally)
    ensures Sum(ZERO, b) == b && Sum(b, ZERO) == b
  {
  }

  lemma {:induction false} RecountConcat(a: seq<ClientMsg>, b: seq<ClientMsg>)
    ensures Recount(a + b) == Sum(Recount(a), Recount(b))
  {
    hide Plus, Sum;
    if a == [] {
      assert a + b == b;
      SumOfZero(Recount(b));
    } else {
      assert (a + b)[1..] == a[1..] + b;
      RecountConcat(a[1..], b);
      SumOfPlus(Recount(a[1..]), Recount(b), a[0]);
    }
  }

  lemma {:induction false} RefsConcat(a: seq<ClientMsg>, b: seq<ClientMsg>)
    ensures Refs(a + b) == Refs(a) + Refs(b)
  {
    if a == [] {
      assert a + b == b;
    } else {
      assert (a + b)[1..] == a[1..] + b;
      RefsConcat(a[1..], b);
    }
  }

  lemma One(m: ClientMsg)
    ensures Recount([m]) == Plus(ZERO, m) && Refs([m]) == multiset{m.store}
  {
    assert [m][1..] == [];
  }

  lemma Appended(msgs: seq<ClientMsg>, m: ClientMsg)
    ensures Recount(msgs + [m]) == Plus(Recount(msgs), m)
    ensures Refs(msgs + [m]) == Refs(msgs) + multiset{m.store}
  {
    hide Recount, Refs;
    One(m);
    RecountConcat(msgs, [m]);
    RefsConcat(msgs, [m]);
  }

  function Without(msgs: seq<ClientMsg>, k: nat): seq<ClientMsg>
    requires k < |msgs|
  {
    msgs[..k] + msgs[k + 1..]
  }

  lemma Removed(msgs: seq<ClientMsg>, k: nat)
    requires k < |msgs|
    ensures Recount(Without(msgs, k)) == Minus(Recount(msgs), msgs[k])
    ensures Refs(msgs) == Refs(Without(msgs, k)) + multiset{msgs[k].store}
  {
    hide Recount, Refs;
    assert msgs == msgs[..k] + ([msgs[k]] + msgs[k + 1..]);
    One(msgs[k]);
    RecountConcat([msgs[k]], msgs[k + 1..]);
    RecountConcat(msgs[..k], [msgs[k]] + msgs[k + 1..]);
    RecountConcat(msgs[..k], msgs[k + 1..]);
    RefsConcat([msgs[k]], msgs[k + 1..]);
    RefsConcat(msgs[..k], [msgs[k]] + msgs[k + 1..]);
    RefsConcat(msgs[..k], msgs[k + 1..]);
  }

  lemma {:induction false} RefAt(msgs: seq<ClientMsg>, k: nat)
    requires k < |msgs|
    ensures msgs[k].store in Refs(msgs)
  {
    if k == 0 {
    } else {
      RefAt(msgs[1..], k - 1);
    }
  }

  /** A change of state or dup alone. */
  predicate SameMessage(a: ClientMsg, b: ClientMsg) {
    a.(state := Invalid, dup := false) == b.(state := Invalid, dup := false)
  }

  predicate SameMessages(a: seq<ClientMsg>, b: seq<ClientMsg>) {
    |a| == |b| && forall k :: 0 <= k < |a| ==> SameMessage(a[k], b[k])
  }

  lemma {:induction false} SameCounts(a: seq<ClientMsg>, b: seq<ClientMsg>)
    requires SameMessages(a, b)
    ensures Recount(a) == Recount(b) && Refs(a) == Refs(b)
  {
    if a == [] {
    } else {
      assert SameMessage(a[0], b[0]);
      SameCounts(a[1..], b[1..]);
    }
  }

  // ----- The lists of one direction -----

  /** Messages that are deleted but still counted: what a permission check at a login leaves. */
  datatype Stale = Stale(inflight: seq<ClientMsg>, queued: seq<ClientMsg>)

  datatype Lists = Lists(inflight: seq<ClientMsg>, queued: seq<ClientMsg>, quota: nat, maximum: uint16, stale: Stale)

  const NO_STALE := Stale([], [])

  /** Lists whose counters agree with them. */
  function Exact(inflight: seq<ClientMsg>, queued: seq<ClientMsg>, quota: nat, maximum: uint16): Lists {
    Lists(inflight, queued, quota, maximum, NO_STALE)
  }

  /** What the counters of each list say. */
  function InflightCount(d: Lists): Tally { Sum(Recount(d.inflight), Recount(d.stale.inflight)) }

  function QueuedCount(d: Lists): Tally { Sum(Recount(d.queued), Recount(d.stale.queued)) }

  lemma NothingCounted(d: Lists)
    requires d.inflight == [] && d.queued == [] && d.stale == NO_STALE
    ensures InflightCount(d) == QueuedCount(d) == ZERO
  {
    hide Recount, Sum;
    RecountNone(d.inflight);
    RecountNone(d.queued);
    RecountNone(d.stale.inflight);
    RecountNone(d.stale.queued);
    SumOfZero(ZERO);
  }

  function AllRefs(d: Lists): multiset<Stored> { Refs(d.inflight) + Refs(d.queued) }

  /** db__ready_for_flight, from the in-flight counters. */
  function Ready(cfg: Config, t: Tally, quota: nat, maximum: uint16, dir: Direction, qos: nat, packets: int): bool {
    if maximum == 0 && cfg.maxInflightBytes == 0 then true
    else if qos == 0 then
      var validBytes := t.bytes - cfg.maxInflightBytes < cfg.maxQueuedBytes;
      var validCount := if dir == Outgoing then packets < cfg.maxQueuedMessages
                        else t.count - maximum < cfg.maxQueuedMessages;
      if cfg.maxQueuedMessages == 0 && cfg.maxInflightBytes == 0 then true
      else if cfg.maxQueuedMessages == 0 then validBytes
      else if cfg.maxQueuedBytes == 0 then validCount
      else validBytes && validCount
    else
      var validBytes := t.bytes12 < cfg.maxInflightBytes;
      var validCount := quota > 0;
      if maximum == 0 then validBytes
      else if cfg.maxInflightBytes == 0 then validCount
      else validBytes && validCount
  }

  predicate ReadyFor(cfg: Config, d: Lists, dir: Direction, qos: nat, packets: int) {
    Ready(cfg, InflightCount(d), d.quota, d.maximum, dir, qos, packets)
  }

  /** db__ready_for_queue, from the queued counters. */
  function QueueReady(cfg: Config, t: Tally, maximum: uint16, connected: bool, qos: nat): bool {
    if cfg.maxQueuedMessages == 0 && cfg.maxQueuedBytes == 0 then true
    else if qos == 0 && !cfg.queueQos0Messages then false
    else
      var adjustBytes := if connected then cfg.maxInflightBytes else 0;
      var adjustCount := if connected then maximum as int else 0;
      var validBytes := t.bytes12 - adjustBytes < cfg.maxQueuedBytes;
      var validCount := t.count12 - adjustCount < cfg.maxQueuedMessages;
      if cfg.maxQueuedBytes == 0 then validCount
      else if cfg.maxQueuedMessages == 0 then validBytes
      else validBytes && validCount
  }

  function Decrement(quota: nat): nat { if quota > 0 then quota - 1 else quota }

  function Increment(quota: nat, maximum: nat): nat { if quota < maximum then quota + 1 else quota }

  /** The state in which a message is waiting to be published. */
  function PublishState(qos: nat, otherwise: MsgState): MsgState {
    match qos
    case 0 => PublishQos0
    case 1 => PublishQos1
    case 2 => PublishQos2
    case _ => otherwise
  }

  function ToPublish(m: ClientMsg): ClientMsg { m.(state := PublishState(m.qos, m.state)) }

  /** db__message_dequeue_first. */
  function Dequeue(d: Lists): Lists
    requires d.queued != []
  {
    d.(inflight := d.inflight + [d.queued[0]], queued := d.queued[1..], quota := Decrement(d.quota))
  }

  /** Queued messages go in flight from the head while there is room. */
  function Promote(cfg: Config, d: Lists, packets: int): Lists
    decreases |d.queued|
  {
    if d.queued == [] || !ReadyFor(cfg, d, Outgoing, d.queued[0].qos, packets) then d
    else Promote(cfg, Dequeue(d.(queued := d.queued[0 := ToPublish(d.queued[0])])), packets)
  }

  /**
   The queue loop of a reconnect: from the k-th queued message on, each that finds room is
   marked to be published, and the head of the queue, whichever it is, goes in flight.
   */
  function WalkQueue(cfg: Config, d: Lists, k: nat, dir: Direction, packets: int): Lists
    decreases |d.queued| - k
  {
    if k >= |d.queued| then d
    else if ReadyFor(cfg, d, dir, d.queued[k].qos, packets) then
      WalkQueue(cfg, Dequeue(d.(queued := d.queued[k := ToPublish(d.queued[k])])), k, dir, packets)
    else WalkQueue(cfg, d, k + 1, dir, packets)
  }

  function ResetState(m: ClientMsg): MsgState {
    match m.qos
    case 0 => PublishQos0
    case 1 => PublishQos1
    case 2 => if m.state == WaitForPubcomp then ResendPubrel else PublishQos2
    case _ => m.state
  }

  function ResetInflight(msgs: seq<ClientMsg>): seq<ClientMsg> {
    if msgs == [] then [] else [msgs[0].(state := ResetState(msgs[0]))] + ResetInflight(msgs[1..])
  }

  /** What is left of the quota after a charge for each message with QoS above 0. */
  function Charged(msgs: seq<ClientMsg>, quota: nat): nat {
    if msgs == [] then quota else Charged(msgs[1..], if msgs[0].qos > 0 then Decrement(quota) else quota)
  }

  /** The outgoing lists as the queue loop of a reconnect finds them. */
  function Restarted(d: Lists): Lists {
    d.(inflight := ResetInflight(d.inflight), quota := Charged(d.inflight, d.maximum), stale := NO_STALE)
  }

  /** db__message_reconnect_reset_outgoing. */
  function ResetOutgoing(cfg: Config, d: Lists, packets: int): Lists {
    WalkQueue(cfg, Restarted(d), 0, Outgoing, packets)
  }

  /** The lists of one direction after a takeover: the own quota and maximum with the other's messages. */
  function Inherited(mine: Lists, theirs: Lists): Lists {
    mine.(inflight := theirs.inflight, queued := theirs.queued, stale := theirs.stale)
  }

  function KeepQos2(msgs: seq<ClientMsg>): seq<ClientMsg> {
    if msgs == [] then []
    else if msgs[0].qos != 2 then KeepQos2(msgs[1..])
    else [msgs[0]] + KeepQos2(msgs[1..])
  }

  /** The incoming lists as the queue loop of a reconnect finds them. */
  function RestartedIncoming(d: Lists): Lists {
    d.(inflight := KeepQos2(d.inflight), quota := Charged(d.inflight, d.maximum), stale := NO_STALE)
  }

  /** db__message_reconnect_reset_incoming. */
  function ResetIncoming(cfg: Config, d: Lists, packets: int): Lists {
    WalkQueue(cfg, RestartedIncoming(d), 0, Incoming, packets)
  }

  /** The queue loop of db__message_release_incoming: it goes on while there is no room. */
  function ReleaseQueue(cfg: Config, d: Lists, k: nat, packets: int): Lists
    decreases |d.queued| - k
  {
    if k >= |d.queued| || ReadyFor(cfg, d, Incoming, d.queued[k].qos, packets) then d
    else if d.queued[k].qos == 2 then
      ReleaseQueue(cfg, Dequeue(d.(queued := d.queued[k := d.queued[k].(state := WaitForPubrel)])), k, packets)
    else ReleaseQueue(cfg, d, k + 1, packets)
  }

  // ----- Writing to the client -----

  predicate Expired(m: ClientMsg, now: nat) {
    m.store.expiry != 0 && now > m.store.expiry
  }

  datatype Fate =
    | Fails(rc: Rc)              // the send failed: the message stays as it is
    | Stays                      // there is nothing to send
    | Becomes(m: ClientMsg)      // sent: it waits for an answer
    | Leaves                     // sent with nothing to wait for, or too big to send
    | Expires

  /** What writing a message does to it, when a send would return sent. */
  function FateOf(m: ClientMsg, sent: Rc, now: nat): Fate {
    if Expired(m, now) then Expires
    else match m.state
      case PublishQos0 =>
        if sent == Success || sent == OversizePacket then Leaves else Fails(sent)
      case PublishQos1 =>
        if sent == Success then Becomes(m.(state := WaitForPuback, dup := true))
        else if sent == OversizePacket then Leaves else Fails(sent)
      case PublishQos2 =>
        if sent == Success then Becomes(m.(state := WaitForPubrec, dup := true))
        else if sent == OversizePacket then Leaves else Fails(sent)
      case ResendPubrel =>
        if sent == Success then Becomes(m.(state := WaitForPubcomp)) else Fails(sent)
      case _ => Stays
  }

  /** db__message_write_inflight_out_single on the k-th message. */
  function WriteSingle(d: Lists, k: nat, sent: Rc, now: nat): (Rc, Lists)
    requires k < |d.inflight|
  {
    var m := d.inflight[k];
    match FateOf(m, sent, now)
    case Fails(rc) => (rc, d)
    case Stays => (Success, d)
    case Becomes(n) => (Success, d.(inflight := d.inflight[k := n]))
    case Leaves => (Success, d.(inflight := Without(d.inflight, k)))
    case Expires => (Success, d.(inflight := Without(d.inflight, k),
                                 quota := if m.qos > 0 then Increment(d.quota, d.maximum) else d.quota))
  }

  /** The messages from the k-th on, in order, until a send fails; the n-th send returns send(n). */
  function WriteFrom(d: Lists, k: nat, n: nat, send: nat -> Rc, now: nat): (Rc, Lists)
    decreases |d.inflight| - k
  {
    if k >= |d.inflight| then (Success, d)
    else
      var (rc, e) := WriteSingle(d, k, send(n), now);
      if rc != Success then (rc, e)
      else WriteFrom(e, if |e.inflight| == |d.inflight| then k + 1 else k, n + 1, send, now)
  }

  predicate IsPublish(m: ClientMsg) { m.state == PublishQos0 || m.state == PublishQos1 || m.state == PublishQos2 }

  /** Where db__message_write_inflight_out_latest starts, looking back from the k-th message. */
  function LatestFrom(msgs: seq<ClientMsg>, k: nat): (start: nat)
    requires k < |msgs|
    ensures start <= k + 1
  {
    if k == 0 then 0
    else if IsPublish(msgs[k]) then LatestFrom(msgs, k - 1)
    else k + 1
  }

  function WriteLatest(canSend: bool, d: Lists, send: nat -> Rc, now: nat): (Rc, Lists) {
    if !canSend || d.inflight == [] then (Success, d)
    else WriteFrom(d, LatestFrom(d.inflight, |d.inflight| - 1), 0, send, now)
  }

  /** PUBACK, PUBCOMP or a refusing PUBREC: where the message is, what becomes of the lists. */
  function Find(msgs: seq<ClientMsg>, mid: uint16): (k: nat)
    ensures k <= |msgs|
    ensures k < |msgs| ==> msgs[k].mid == mid
    ensures forall j :: 0 <= j < k ==> msgs[j].mid != mid
  {
    if msgs == [] || msgs[0].mid == mid then 0 else 1 + Find(msgs[1..], mid)
  }

  predicate Refuses(d: Lists, mid: uint16, expected: MsgState, qos: nat) {
    var k := Find(d.inflight, mid);
    k < |d.inflight| && (d.inflight[k].qos != qos || (qos == 2 && d.inflight[k].state != expected))
  }

  /** The lists without the first message in flight with this identifier. */
  function Unlisted(d: Lists, mid: uint16): Lists {
    var k := Find(d.inflight, mid);
    if k < |d.inflight| then d.(inflight := Without(d.inflight, k)) else d
  }

  /** db__message_delete_outgoing up to the sending. */
  function DeleteOutgoing(cfg: Config, d: Lists, mid: uint16, packets: int): Lists {
    Promote(cfg, Unlisted(d, mid), packets)
  }

  function Deleted(cfg: Config, canSend: bool, d: Lists, mid: uint16, expected: MsgState, qos: nat,
                   packets: int, send: nat -> Rc, now: nat): (Rc, Lists) {
    if Refuses(d, mid, expected, qos) then (Protocol, d)
    else WriteLatest(canSend, DeleteOutgoing(cfg, d, mid, packets), send, now)
  }

  function Returned(d: Lists): Lists { d.(quota := Increment(d.quota, d.maximum)) }

  /**
   handle__pubackcomp: the quota is returned before the rest of the packet is read; reading it
   gives parsed.
   */
  function Acknowledged(cfg: Config, c: Client, d: Lists, mid: uint16, qos: nat, headerOk: bool, parsed: Rc,
                        packets: int, send: nat -> Rc, now: nat): (Rc, Lists) {
    if !c.active then (Protocol, d)
    else if !headerOk then (MalformedPacket, d)
    else if parsed != Success then (parsed, Returned(d))
    else Deleted(cfg, c.active && c.connected, Returned(d), mid, WaitForPubcomp, qos, packets, send, now)
  }

  function Updated(d: Lists, mid: uint16, state: MsgState, qos: nat): (Rc, Lists) {
    var k := Find(d.inflight, mid);
    if k == |d.inflight| then (NotFound, d)
    else if d.inflight[k].qos != qos then (Protocol, d)
    else (Success, d.(inflight := d.inflight[k := d.inflight[k].(state := state)]))
  }

  /** handle__pubrec; sending the PUBREL returns pubrel. */
  function Received(cfg: Config, c: Client, d: Lists, mid: uint16, parsed: Rc, reason: byte, pubrel: Rc,
                    packets: int, send: nat -> Rc, now: nat): (Rc, Lists) {
    if !c.active then (Protocol, d)
    else if parsed != Success then (parsed, d)
    else if reason >= 0x80 then Deleted(cfg, c.active && c.connected, d, mid, WaitForPubrec, 2, packets, send, now)
    else
      var (rc, e) := Updated(d, mid, WaitForPubcomp, 2);
      (if rc == Success || rc == NotFound then pubrel else rc, e)
  }

  // ----- A message for a client -----

  datatype Bridge = NoBridge | Bridge(lazy: bool, cleanStart: bool, cleanStartLocal: bool, threshold: nat)

  /** What db__message_insert looks at in the client. */
  datatype Client = Client(hasId: bool, mqtt5: bool, connected: bool, active: bool, maxQos: nat, bridge: Bridge)

  datatype Decision =
    | Ignore(rc: Rc)               // nothing happens
    | Drop                         // dropped because the queue is full
    | Admit(state: MsgState, rc: Rc)

  function Decide(cfg: Config, c: Client, d: Lists, dir: Direction, qos: nat, retain: bool,
                  alreadySent: bool, packets: int): Decision {
    if !c.hasId then Ignore(Success)
    else if !c.mqtt5 && !cfg.allowDuplicateMessages && dir == Outgoing && !retain && alreadySent then Ignore(Success)
    else if !c.connected && qos == 0 && !cfg.queueQos0Messages && (c.bridge.NoBridge? || !c.bridge.lazy) then Ignore(Protocol)
    else if !c.connected && c.bridge.Bridge? && c.bridge.cleanStartLocal then Ignore(Protocol)
    else PlaceFor(cfg, c.connected, d, dir, qos, packets)
  }

  /** In flight, in the queue or nowhere, for a message that is wanted. */
  function PlaceFor(cfg: Config, connected: bool, d: Lists, dir: Direction, qos: nat, packets: int): Decision {
    if connected && ReadyFor(cfg, d, dir, qos, packets) then
      if dir == Outgoing then Admit(PublishState(qos, Invalid), Success)
      else if qos == 2 then Admit(WaitForPubrel, Success)
      else Ignore(Nomem)
    else if connected && qos == 0 then Drop
    else if QueueReady(cfg, QueuedCount(d), d.maximum, connected, qos) then
      Admit(Queued, if connected then Protocol else Success)
    else Drop
  }

  /** The lists once the message is in. */
  function Admitted(d: Lists, dir: Direction, m: ClientMsg): Lists {
    if m.state == Queued then d.(queued := d.queued + [m])
    else d.(inflight := d.inflight + [m],
            quota := if dir == Outgoing && m.qos > 0 then Decrement(d.quota) else d.quota)
  }

  /** db__message_insert: the result and the lists; packets2 is the packet count after the writing. */
  function Inserted(cfg: Config, c: Client, d: Lists, dir: Direction, m: ClientMsg, qos: nat, alreadySent: bool,
                    update: bool, packets: int, packets2: int, send: nat -> Rc, now: nat): (Rc, Lists) {
    match Decide(cfg, c, d, dir, qos, m.retain, alreadySent, packets)
    case Ignore(rc) => (rc, d)
    case Drop => (Protocol, d)
    case Admit(state, rc) =>
      var admitted := Admitted(d, dir, m.(state := state, qos := if qos > c.maxQos then c.maxQos else qos));
      if dir == Incoming || !update then (rc, admitted)
      else
        var (rc2, written) := WriteLatest(c.active && c.connected, admitted, send, now);
        if rc2 != Success then (rc2, written)
        else (Success, if c.active then Promote(cfg, written, packets2) else written)
  }

  /**
   db__message_write_queued_in from the k-th queued message on; the n-th PUBREC returns send(n).
   Whether to stop depends on the outgoing maximum and the incoming quota.
   */
  function QueuedIn(d: Lists, k: nat, outMaximum: uint16, n: nat, send: nat -> Rc): (Rc, Lists)
    decreases |d.queued| - k
  {
    if k >= |d.queued| || (outMaximum != 0 && d.quota == 0) then (Success, d)
    else if d.queued[k].qos != 2 then QueuedIn(d, k + 1, outMaximum, n, send)
    else
      var e := Dequeue(d.(queued := d.queued[k := d.queued[k].(state := SendPubrec)]));
      if send(n) != Success then (send(n), e)
      else QueuedIn(Answered(e, k), k, outMaximum, n + 1, send)
  }

  /** The examined message, now last in flight or still queued, waits for PUBREL. */
  function Answered(d: Lists, k: nat): Lists
    requires d.inflight != [] && k <= |d.queued|
  {
    var last := |d.inflight| - 1;
    if k == 0 then d.(inflight := d.inflight[last := d.inflight[last].(state := WaitForPubrel)])
    else d.(queued := d.queued[k - 1 := d.queued[k - 1].(state := WaitForPubrel)])
  }

  datatype Taken = Taken(rc: Rc, left: seq<ClientMsg>, deleted: bool)

  /**
   The in-flight loop of db__message_release_incoming: every message with this identifier is
   routed, the n-th routing returning route(n), and taken out; a denied message, which has no
   topic, is only taken out.
   */
  function TakeAll(msgs: seq<ClientMsg>, mid: uint16, route: nat -> Rc, n: nat): Taken {
    if msgs == [] then Taken(Success, [], false)
    else if msgs[0].mid != mid then
      var rest := TakeAll(msgs[1..], mid, route, n);
      rest.(left := [msgs[0]] + rest.left)
    else if msgs[0].store.qos != 2 then Taken(Protocol, msgs, false)
    else if msgs[0].store.hasTopic && route(n) != Success then Taken(Nomem, msgs, false)
    else TakeAll(msgs[1..], mid, route, if msgs[0].store.hasTopic then n + 1 else n).(deleted := true)
  }

  function OtherIds(msgs: seq<ClientMsg>, mid: uint16): seq<ClientMsg> {
    if msgs == [] then [] else (if msgs[0].mid == mid then [] else [msgs[0]]) + OtherIds(msgs[1..], mid)
  }

  /** db__message_release_incoming. */
  function ReleaseIncoming(cfg: Config, d: Lists, mid: uint16, route: nat -> Rc): (Rc, Lists) {
    var t := TakeAll(d.inflight, mid, route, 0);
    if t.rc != Success then (t.rc, d.(inflight := t.left))
    else (if t.deleted then Success else NotFound, ReleaseQueue(cfg, d.(inflight := t.left), 0, 0))
  }

  /** handle__pubrel in the broker; sending the PUBCOMP returns pubcomp. */
  function Completed(cfg: Config, active: bool, d: Lists, mid: uint16, parsed: Rc, route: nat -> Rc, pubcomp: Rc): (Rc, Lists) {
    if !active then (Protocol, d)
    else if parsed != Success then (parsed, d)
    else
      var (rc, e) := ReleaseIncoming(cfg, d, mid, route);
      if rc == Success || rc == NotFound then (pubcomp, Returned(e)) else (rc, e)
  }

  // ----- A PUBLISH from a client -----

  /** db__message_store_find: where the first message from this client with the identifier is. */
  function FindSource(msgs: seq<ClientMsg>, mid: uint16): (k: nat)
    ensures k <= |msgs|
    ensures k < |msgs| ==> msgs[k].store.sourceMid == mid
    ensures forall j :: 0 <= j < k ==> msgs[j].store.sourceMid != mid
  {
    if msgs == [] || msgs[0].store.sourceMid == mid then 0 else 1 + FindSource(msgs[1..], mid)
  }

  /** db__message_remove_incoming. */
  function RemovedIncoming(d: Lists, mid: uint16): (Rc, Lists) {
    var k := Find(d.inflight, mid);
    if k == |d.inflight| then (NotFound, d)
    else if d.inflight[k].store.qos != 2 then (Protocol, d)
    else (Success, d.(inflight := Without(d.inflight, k)))
  }

  /** What of a PUBLISH decides its fate; same tells whether a stored message has its QoS, topic and payload. */
  datatype Publication = Publication(mid: uint16, qos: nat, retain: bool, same: Stored -> bool)

  /** The message of this client that is stored under the identifier. */
  function Known(d: Lists, p: Publication): Option<Stored> {
    var all := d.inflight + d.queued;
    var k := FindSource(all, p.mid);
    if p.qos > 0 && k < |all| then Some(all[k].store) else None
  }

  /** The identifier is taken by another message, which is cleared away. */
  predicate Reused(d: Lists, p: Publication) {
    Known(d, p).Some? && p.mid != 0 && !p.same(Known(d, p).value)
  }

  function Cleared(d: Lists, p: Publication): Lists {
    if Reused(d, p) then RemovedIncoming(d, p.mid).1 else d
  }

  /** A retransmission of a message that is still stored. */
  function Recognised(d: Lists, p: Publication): Option<Stored> {
    if Reused(d, p) then None else Known(d, p)
  }

  predicate MayStore(cfg: Config, connected: bool, d: Lists, qos: nat) {
    qos == 0 || ReadyFor(cfg, d, Incoming, qos, 0) || QueueReady(cfg, QueuedCount(d), d.maximum, connected, qos)
  }

  /** The incoming lists once a message is accepted; s is the stored message, acked whether a QoS 1 message is answered. */
  function Accepted(cfg: Config, c: Client, d: Lists, p: Publication, s: Stored, dup: bool, acked: bool): Lists {
    match s.qos
    case 1 => var charged := d.(quota := Decrement(d.quota)); if acked then Returned(charged) else charged
    case 2 =>
      if dup then d
      else Inserted(cfg, c, d, Incoming, ClientMsg(s, s.sourceMid, 2, MsgState.Invalid, false, p.retain), 2, false, false,
                    0, 0, _ => Success, 0).1
    case _ => d
  }

  /**
   The incoming lists after handle__publish, once the packet is decoded and allowed: newest is what
   would be stored, send what answering the queued messages returns.
   */
  function Arrived(cfg: Config, c: Client, d: Lists, p: Publication, newest: Stored, acked: bool,
                   outMaximum: uint16, send: nat -> Rc): Lists
  {
    var e := Cleared(d, p);
    var stored := Recognised(d, p);
    if !c.active then d
    else if stored.Some? then QueuedIn(Accepted(cfg, c, e, p, stored.value, true, acked), 0, outMaximum, 0, send).1
    else ArrivedNew(cfg, c, e, p, newest, acked, outMaximum, send)
  }

  /** The same for a message that is not stored yet. */
  function ArrivedNew(cfg: Config, c: Client, d: Lists, p: Publication, newest: Stored, acked: bool,
                      outMaximum: uint16, send: nat -> Rc): Lists
  {
    if MayStore(cfg, c.connected, d, p.qos) then QueuedIn(Accepted(cfg, c, d, p, newest, false, acked), 0, outMaximum, 0, send).1
    else if p.qos == 1 || (p.qos == 2 && c.mqtt5) then Returned(d)
    else d
  }

  // ----- Order and content -----

  lemma SameAfterMark(a: seq<ClientMsg>, b: seq<ClientMsg>, k: nat, m: ClientMsg)
    requires k < |b| && SameMessage(m, b[k])
    ensures SameMessages(a + b[k := m], a + b)
  {
  }

  lemma SameTransitive(a: seq<ClientMsg>, b: seq<ClientMsg>, c: seq<ClientMsg>)
    requires SameMessages(a, b) && SameMessages(b, c)
    ensures SameMessages(a, c)
  {
  }

  lemma DequeueKeepsOrder(d: Lists)
    requires d.queued != []
    ensures Dequeue(d).inflight + Dequeue(d).queued == d.inflight + d.queued
  {
  }

  /** A reconnect moves messages from queue to flight and loses, repeats or reorders none. */
  lemma {:induction false} WalkKeepsOrder(cfg: Config, d: Lists, k: nat, dir: Direction, packets: int)
    ensures var after := WalkQueue(cfg, d, k, dir, packets);
            && SameMessages(after.inflight + after.queued, d.inflight + d.queued)
            && d.inflight <= after.inflight && after.maximum == d.maximum && after.stale == d.stale
    decreases |d.queued| - k
  {
    hide Ready, Recount, SameMessage, ReadyFor, ToPublish;
    if k >= |d.queued| {
      SameReflexive(d.inflight + d.queued);
    } else if ReadyFor(cfg, d, dir, d.queued[k].qos, packets) {
      MarkedIsSame(d.queued[k]);
      var marked := d.(queued := d.queued[k := ToPublish(d.queued[k])]);
      SameAfterMark(d.inflight, d.queued, k, ToPublish(d.queued[k]));
      DequeueKeepsOrder(marked);
      WalkKeepsOrder(cfg, Dequeue(marked), k, dir, packets);
      var after := WalkQueue(cfg, d, k, dir, packets);
      SameTransitive(after.inflight + after.queued, marked.inflight + marked.queued, d.inflight + d.queued);
    } else {
      WalkKeepsOrder(cfg, d, k + 1, dir, packets);
    }
  }

  lemma SameReflexive(s: seq<ClientMsg>)
    ensures SameMessages(s, s)
  {
  }

  lemma MarkedIsSame(m: ClientMsg)
    ensures SameMessage(ToPublish(m), m) && SameMessage(m.(state := WaitForPubrel), m)
  {
  }

  lemma {:induction false} ReleaseKeepsOrder(cfg: Config, d: Lists, k: nat, packets: int)
    ensures var after := ReleaseQueue(cfg, d, k, packets);
            && SameMessages(after.inflight + after.queued, d.inflight + d.queued)
            && d.inflight <= after.inflight && after.maximum == d.maximum && after.stale == d.stale
    decreases |d.queued| - k
  {
    hide Ready, Recount, SameMessage, ReadyFor;
    if k >= |d.queued| || ReadyFor(cfg, d, Incoming, d.queued[k].qos, packets) {
      SameReflexive(d.inflight + d.queued);
    } else if d.queued[k].qos == 2 {
      MarkedIsSame(d.queued[k]);
      var m := d.queued[k].(state := WaitForPubrel);
      var marked := d.(queued := d.queued[k := m]);
      SameAfterMark(d.inflight, d.queued, k, m);
      DequeueKeepsOrder(marked);
      ReleaseKeepsOrder(cfg, Dequeue(marked), k, packets);
      var after := ReleaseQueue(cfg, d, k, packets);
      SameTransitive(after.inflight + after.queued, marked.inflight + marked.queued, d.inflight + d.queued);
    } else {
      ReleaseKeepsOrder(cfg, d, k + 1, packets);
    }
  }

  lemma {:induction false} PromoteKeepsOrder(cfg: Config, d: Lists, packets: int)
    ensures var after := Promote(cfg, d, packets);
            && SameMessages(after.inflight + after.queued, d.inflight + d.queued)
            && d.inflight <= after.inflight && after.maximum == d.maximum && after.stale == d.stale
    decreases |d.queued|
  {
    hide Ready, Recount, SameMessage, ReadyFor, ToPublish;
    if d.queued == [] || !ReadyFor(cfg, d, Outgoing, d.queued[0].qos, packets) {
      SameReflexive(d.inflight + d.queued);
    } else {
      MarkedIsSame(d.queued[0]);
      var marked := d.(queued := d.queued[0 := ToPublish(d.queued[0])]);
      SameAfterMark(d.inflight, d.queued, 0, ToPublish(d.queued[0]));
      DequeueKeepsOrder(marked);
      PromoteKeepsOrder(cfg, Dequeue(marked), packets);
      var after := Promote(cfg, d, packets);
      SameTransitive(after.inflight + after.queued, marked.inflight + marked.queued, d.inflight + d.queued);
    }
  }

  // ----- Which messages a reconnect puts in flight -----

  /** No message behind the head finds room. */
  predicate NoneBehindReady(cfg: Config, d: Lists, dir: Direction, packets: int) {
    forall j :: 0 < j < |d.queued| ==> !ReadyFor(cfg, d, dir, d.queued[j].qos, packets)
  }

  predicate AllWaiting(msgs: seq<ClientMsg>) {
    forall k :: 0 <= k < |msgs| ==> msgs[k].state == Queued && msgs[k].qos <= 2
  }

  /** A message in flight that still has the queued state is never sent. */
  predicate Stranded(msgs: seq<ClientMsg>) {
    exists k :: 0 <= k < |msgs| && msgs[k].state == Queued
  }

  lemma {:induction false} WalkFindsNone(cfg: Config, d: Lists, k: nat, dir: Direction, packets: int)
    requires forall j :: k <= j < |d.queued| ==> !ReadyFor(cfg, d, dir, d.queued[j].qos, packets)
    ensures WalkQueue(cfg, d, k, dir, packets) == d
    decreases |d.queued| - k
  {
    if k >= |d.queued| {
    } else {
      WalkFindsNone(cfg, d, k + 1, dir, packets);
    }
  }

  /** Once a message behind the head is the first to find room, the head is stranded. */
  lemma {:induction false} WalkStrands(cfg: Config, d: Lists, k: nat, j: nat, dir: Direction, packets: int)
    requires AllWaiting(d.queued) && 0 < k <= j < |d.queued|
    requires ReadyFor(cfg, d, dir, d.queued[j].qos, packets)
    ensures Stranded(WalkQueue(cfg, d, k, dir, packets).inflight)
    decreases |d.queued| - k
  {
    hide Ready, Recount;
    if ReadyFor(cfg, d, dir, d.queued[k].qos, packets) {
      var next := Dequeue(d.(queued := d.queued[k := ToPublish(d.queued[k])]));
      assert next.inflight[|d.inflight|] == d.queued[0];
      WalkKeepsOrder(cfg, next, k, dir, packets);
      var after := WalkQueue(cfg, d, k, dir, packets);
      assert after.inflight[|d.inflight|].state == Queued;
    } else {
      WalkStrands(cfg, d, k + 1, j, dir, packets);
    }
  }

  lemma {:induction false} PromoteStrandsNone(cfg: Config, d: Lists, packets: int)
    requires AllWaiting(d.queued) && !Stranded(d.inflight)
    ensures !Stranded(Promote(cfg, d, packets).inflight) && AllWaiting(Promote(cfg, d, packets).queued)
    decreases |d.queued|
  {
    hide Ready, Recount, ReadyFor;
    if d.queued == [] || !ReadyFor(cfg, d, Outgoing, d.queued[0].qos, packets) {
    } else {
      PromoteStrandsNone(cfg, Dequeue(d.(queued := d.queued[0 := ToPublish(d.queued[0])])), packets);
    }
  }

  /** As long as the head finds room, the reconnect loop promotes like every other loop. */
  lemma {:induction false} WalkPromotes(cfg: Config, d: Lists, packets: int)
    ensures WalkQueue(cfg, d, 0, Outgoing, packets) == WalkQueue(cfg, Promote(cfg, d, packets), 0, Outgoing, packets)
    decreases |d.queued|
  {
    hide Ready, Recount, ReadyFor, ToPublish;
    if d.queued == [] || !ReadyFor(cfg, d, Outgoing, d.queued[0].qos, packets) {
    } else {
      WalkPromotes(cfg, Dequeue(d.(queued := d.queued[0 := ToPublish(d.queued[0])])), packets);
    }
  }

  lemma {:induction false} PromoteStops(cfg: Config, d: Lists, packets: int)
    ensures var p := Promote(cfg, d, packets);
            p.queued != [] ==> !ReadyFor(cfg, p, Outgoing, p.queued[0].qos, packets)
    decreases |d.queued|
  {
    hide Ready, Recount, ReadyFor, ToPublish;
    if d.queued == [] || !ReadyFor(cfg, d, Outgoing, d.queued[0].qos, packets) {
    } else {
      PromoteStops(cfg, Dequeue(d.(queued := d.queued[0 := ToPublish(d.queued[0])])), packets);
    }
  }

  /**
   On a reconnect the loop marks the message it examines but moves the head. It strands no
   message, and then does exactly what Promote does, if and only if no message behind the first
   one that finds no room finds room itself.
   */
  lemma ReconnectStrandsExactly(cfg: Config, d: Lists, packets: int)
    requires AllWaiting(d.queued) && !Stranded(d.inflight)
    ensures var (after, p) := (WalkQueue(cfg, d, 0, Outgoing, packets), Promote(cfg, d, packets));
            && (!Stranded(after.inflight) <==> NoneBehindReady(cfg, p, Outgoing, packets))
            && (NoneBehindReady(cfg, p, Outgoing, packets) ==> after == p)
  {
    hide Ready, Recount, ReadyFor;
    var p := Promote(cfg, d, packets);
    WalkPromotes(cfg, d, packets);
    PromoteStops(cfg, d, packets);
    PromoteStrandsNone(cfg, d, packets);
    if NoneBehindReady(cfg, p, Outgoing, packets) {
      WalkFindsNone(cfg, p, 0, Outgoing, packets);
    } else {
      var j :| 0 < j < |p.queued| && ReadyFor(cfg, p, Outgoing, p.queued[j].qos, packets);
      WalkStrands(cfg, p, 1, j, Outgoing, packets);
    }
  }

  /** A queue without QoS 0 messages strands none. */
  lemma NoQos0NoneStranded(cfg: Config, d: Lists, packets: int)
    requires AllWaiting(d.queued) && !Stranded(d.inflight)
    requires forall k :: 0 <= k < |d.queued| ==> d.queued[k].qos > 0
    ensures !Stranded(WalkQueue(cfg, d, 0, Outgoing, packets).inflight)
  {
    hide Recount;
    var p := Promote(cfg, d, packets);
    ReconnectStrandsExactly(cfg, d, packets);
    PromoteStops(cfg, d, packets);
    PromoteKeepsOrder(cfg, d, packets);
    forall j | 0 <= j < |p.queued|
      ensures p.queued[j].qos > 0
    {
      var n := |p.inflight| - |d.inflight|;
      assert (p.inflight + p.queued)[|p.inflight| + j] == p.queued[j];
      assert (d.inflight + d.queued)[|p.inflight| + j] == d.queued[n + j];
      assert SameMessage(p.queued[j], d.queued[n + j]);
    }
  }

  lemma {:induction false} RestartedIsPublish(msgs: seq<ClientMsg>)
    requires forall k :: 0 <= k < |msgs| ==> msgs[k].qos <= 2
    ensures !Stranded(ResetInflight(msgs))
  {
    if msgs == [] {
    } else {
      RestartedIsPublish(msgs[1..]);
      var rest := ResetInflight(msgs[1..]);
      forall k | 0 <= k < |ResetInflight(msgs)|
        ensures ResetInflight(msgs)[k].state != Queued
      {
        if k > 0 { assert ResetInflight(msgs)[k] == rest[k - 1]; }
      }
    }
  }

  /**
   The whole reset, for any lists a client can have: it leaves a message in flight that is never
   sent if and only if, once the head of the queue finds no room, a message behind it does.
   */
  lemma ResetStrandsExactly(cfg: Config, d: Lists, packets: int)
    requires AllWaiting(d.queued) && forall k :: 0 <= k < |d.inflight| ==> d.inflight[k].qos <= 2
    ensures Stranded(ResetOutgoing(cfg, d, packets).inflight) <==>
            !NoneBehindReady(cfg, Promote(cfg, Restarted(d), packets), Outgoing, packets)
  {
    hide NoneBehindReady, Promote, WalkQueue;
    RestartedIsPublish(d.inflight);
    ReconnectStrandsExactly(cfg, Restarted(d), packets);
  }

  lemma ChargedOne(m: ClientMsg)
    requires m.qos > 0
    ensures Charged([m], 1) == 0
  {
    assert [m][1..] == [];
  }

  /** A QoS 0 message behind a QoS 1 message, when one in flight uses up the quota: the QoS 1 message is stranded. */
  lemma StrandedExample(s: Stored)
    ensures var cfg := Config(100, 0, 0, true, true);
            var zero := ClientMsg(s, 1, 1, WaitForPuback, true, false);
            var first := ClientMsg(s, 2, 1, Queued, false, false);
            var second := ClientMsg(s, 3, 0, Queued, false, false);
            ResetOutgoing(cfg, Exact([zero], [first, second], 0, 1), 0)
            == Exact([zero.(state := PublishQos1), first], [ToPublish(second)], 0, 1)
  {
    var cfg := Config(100, 0, 0, true, true);
    var zero := ClientMsg(s, 1, 1, WaitForPuback, true, false);
    var first := ClientMsg(s, 2, 1, Queued, false, false);
    var second := ClientMsg(s, 3, 0, Queued, false, false);
    assert [zero][1..] == [];
    assert ResetInflight([zero]) == [zero.(state := PublishQos1)];
    ChargedOne(zero);
    var d := Exact([zero.(state := PublishQos1)], [first, second], 0, 1);
    assert !ReadyFor(cfg, d, Outgoing, 1, 0) && ReadyFor(cfg, d, Outgoing, 0, 0);
    var next := Dequeue(d.(queued := [first, ToPublish(second)]));
    assert WalkQueue(cfg, next, 1, Outgoing, 0) == next;
    assert d.queued[1 := ToPublish(second)] == [first, ToPublish(second)];
    assert WalkQueue(cfg, d, 1, Outgoing, 0) == next;
  }

  // ----- What a PUBREL releases -----

  lemma StaysFull(cfg: Config, d: Lists, packets: int)
    requires d.queued != [] && !ReadyFor(cfg, d, Incoming, 2, packets)
    ensures !ReadyFor(cfg, Dequeue(d), Incoming, 2, packets)
  {
    hide Recount;
    Appended(d.inflight, d.queued[0]);
  }

  function Released(msgs: seq<ClientMsg>): seq<ClientMsg> {
    if msgs == [] then [] else [msgs[0].(state := WaitForPubrel)] + Released(msgs[1..])
  }

  /**
   The test in this loop is the wrong way round: queued QoS 2 messages go in flight if and only
   if there is no room, and then all of them do.
   */
  lemma {:induction false} ReleasesOnlyWhenFull(cfg: Config, d: Lists, packets: int)
    requires forall k :: 0 <= k < |d.queued| ==> d.queued[k].qos == 2
    ensures var after := ReleaseQueue(cfg, d, 0, packets);
            if ReadyFor(cfg, d, Incoming, 2, packets) then after == d
            else after.queued == [] && after.inflight == d.inflight + Released(d.queued)
    decreases |d.queued|
  {
    hide Ready, Recount, ReadyFor;
    if d.queued == [] {
      assert d.inflight + [] == d.inflight;
    } else if !ReadyFor(cfg, d, Incoming, 2, packets) {
      var m := d.queued[0].(state := WaitForPubrel);
      var marked := d.(queued := d.queued[0 := m]);
      ReadyIgnoresQueue(cfg, d, marked, 2, packets);
      StaysFull(cfg, marked, packets);
      var next := Dequeue(marked);
      assert next.queued == d.queued[1..];
      ReleasesOnlyWhenFull(cfg, next, packets);
      assert d.inflight + [m] + Released(d.queued[1..]) == d.inflight + Released(d.queued);
    }
  }

  lemma ReadyIgnoresQueue(cfg: Config, d: Lists, e: Lists, qos: nat, packets: int)
    requires e == d.(queued := e.queued)
    ensures ReadyFor(cfg, d, Incoming, qos, packets) == ReadyFor(cfg, e, Incoming, qos, packets)
  {
  }

  /**
   When no error stops it, a PUBREL takes out every message with its identifier, so also a
   retransmission that was held a second time, and keeps the others in order.
   */
  lemma {:induction false} TakesEveryMatch(msgs: seq<ClientMsg>, mid: uint16, route: nat -> Rc, n: nat)
    ensures var t := TakeAll(msgs, mid, route, n);
            && (t.rc == Success ==> t.left == OtherIds(msgs, mid) && (t.deleted <==> exists k :: 0 <= k < |msgs| && msgs[k].mid == mid))
            && (t.rc == Protocol ==> exists k :: 0 <= k < |msgs| && msgs[k].mid == mid && msgs[k].store.qos != 2)
  {
    if msgs == [] {
    } else {
      TakesEveryMatch(msgs[1..], mid, route, n);
      TakesEveryMatch(msgs[1..], mid, route, n + 1);
      assert forall k :: 1 <= k < |msgs| ==> msgs[k] == msgs[1..][k - 1];
      var t := TakeAll(msgs, mid, route, n);
      if t.rc == Success && msgs[0].mid != mid && t.deleted {
        var k :| 0 <= k < |msgs[1..]| && msgs[1..][k].mid == mid;
        assert msgs[k + 1].mid == mid;
      }
      if t.rc == Protocol && !(msgs[0].mid == mid && msgs[0].store.qos != 2) {
        var k :| 0 <= k < |msgs[1..]| && msgs[1..][k].mid == mid && msgs[1..][k].store.qos != 2;
        assert msgs[k + 1].mid == mid;
      }
    }
  }

  // ----- The quota -----

  /** Quota and in-flight messages with QoS above 0 make up the maximum. */
  predicate Balanced(d: Lists) { d.quota + Recount(d.inflight).count12 == d.maximum }

  /** Taking a message off the queue charges the quota whatever its QoS. */
  lemma DequeueBalancedExactly(d: Lists)
    requires d.queued != [] && Balanced(d)
    ensures Balanced(Dequeue(d)) <==> (d.queued[0].qos != 0 <==> d.quota > 0)
  {
    Appended(d.inflight, d.queued[0]);
  }

  lemma {:induction false} RecountBounds(msgs: seq<ClientMsg>)
    ensures var t := Recount(msgs);
            t.count == |msgs| && 0 <= t.count12 <= t.count && 0 <= t.bytes12 <= t.bytes
  {
    if msgs == [] {
    } else {
      RecountBounds(msgs[1..]);
    }
  }

  lemma {:induction false} ChargedIs(msgs: seq<ClientMsg>, quota: nat)
    ensures Charged(msgs, quota) == if Recount(msgs).count12 <= quota then quota - Recount(msgs).count12 else 0
  {
    RecountBounds(msgs);
    if msgs == [] {
    } else {
      RecountBounds(msgs[1..]);
      ChargedIs(msgs[1..], if msgs[0].qos > 0 then Decrement(quota) else quota);
    }
  }

  lemma WriteBalance(d: Lists, k: nat, sent: Rc, now: nat)
    requires k < |d.inflight| && Balanced(d)
    ensures Balanced(WriteSingle(d, k, sent, now).1) <==>
            !(FateOf(d.inflight[k], sent, now).Leaves? && d.inflight[k].qos > 0)
  {
    hide Recount, FateOf, Without;
    var m := d.inflight[k];
    Removed(d.inflight, k);
    RecountBounds(Without(d.inflight, k));
    if FateOf(m, sent, now).Becomes? {
      BecomesSame(m, sent, now);
      UpdatedIsSame(d.inflight, d.inflight[k := FateOf(m, sent, now).m], k);
    }
  }

  lemma BecomesSame(m: ClientMsg, sent: Rc, now: nat)
    ensures FateOf(m, sent, now).Becomes? ==> SameMessage(m, FateOf(m, sent, now).m)
  {
  }

  /** A message that is too big for the client leaves without returning its quota; nothing else does. */
  lemma WriteBalancedExactly(d: Lists, k: nat, sent: Rc, now: nat)
    requires k < |d.inflight| && Balanced(d)
    requires d.inflight[k].state == PublishQos0 ==> d.inflight[k].qos == 0
    ensures var m := d.inflight[k];
            Balanced(WriteSingle(d, k, sent, now).1) <==>
            !(sent == OversizePacket && m.qos > 0 && !Expired(m, now) && (m.state == PublishQos1 || m.state == PublishQos2))
  {
    hide Balanced, WriteSingle;
    WriteBalance(d, k, sent, now);
  }

  lemma UpdatedIsSame(a: seq<ClientMsg>, b: seq<ClientMsg>, k: nat)
    requires k < |a| && |b| == |a| && SameMessage(a[k], b[k]) && b == a[k := b[k]]
    ensures Recount(a) == Recount(b) && Refs(a) == Refs(b)
  {
    hide Recount, Refs;
    assert SameMessages(a, b);
    SameCounts(a, b);
  }

  /** Nothing is left to publish, expired or otherwise, from k on. */
  predicate NonePending(msgs: seq<ClientMsg>, k: nat, now: nat) {
    forall j :: k <= j < |msgs| ==> !Pending(msgs[j], now)
  }

  predicate Pending(m: ClientMsg, now: nat) { IsPublish(m) || m.state == ResendPubrel || Expired(m, now) }

  lemma FateIsSent(m: ClientMsg, sent: Rc, now: nat)
    ensures var f := FateOf(m, sent, now);
            && (f.Stays? ==> !Pending(m, now))
            && (f.Becomes? ==> !Pending(f.m, now))
            && (f.Fails? ==> f.rc != Success)
  {
  }

  /** Unless a send fails, everything from k on that was due has gone out; nothing before k changes. */
  lemma {:induction false} WriteSendsAll(d: Lists, k: nat, n: nat, send: nat -> Rc, now: nat)
    requires k <= |d.inflight|
    ensures var (rc, e) := WriteFrom(d, k, n, send, now);
            && k <= |e.inflight| && e.inflight[..k] == d.inflight[..k] && e.queued == d.queued
            && (rc == Success ==> NonePending(e.inflight, k, now))
    decreases |d.inflight| - k
  {
    hide Without, Increment, FateOf;
    if k == |d.inflight| {
    } else {
      FateIsSent(d.inflight[k], send(n), now);
      var (rc, e) := WriteSingle(d, k, send(n), now);
      WithoutKeeps(d.inflight, k);
      if rc == Success {
        var next := if |e.inflight| == |d.inflight| then k + 1 else k;
        WriteSendsAll(e, next, n + 1, send, now);
        var f := WriteFrom(e, next, n + 1, send, now).1;
        if next == k + 1 { PrefixShrinks(f.inflight, e.inflight, k); }
      }
    }
  }

  lemma PrefixShrinks(a: seq<ClientMsg>, b: seq<ClientMsg>, k: nat)
    requires k < |a| && k < |b| && a[..k + 1] == b[..k + 1]
    ensures a[..k] == b[..k] && a[k] == b[k]
  {
    assert a[..k] == a[..k + 1][..k] && b[..k] == b[..k + 1][..k];
    assert a[k] == a[..k + 1][k] && b[k] == b[..k + 1][k];
  }

  lemma WithoutKeeps(msgs: seq<ClientMsg>, k: nat)
    requires k < |msgs|
    ensures |Without(msgs, k)| == |msgs| - 1 && Without(msgs, k)[..k] == msgs[..k]
  {
  }

  lemma {:induction false} LatestIsTail(msgs: seq<ClientMsg>, k: nat)
    requires k < |msgs|
    ensures var start := LatestFrom(msgs, k);
            && (forall j :: start <= j <= k && j > 0 ==> IsPublish(msgs[j]))
            && (start > 0 ==> !IsPublish(msgs[start - 1]) && start > 1)
  {
    if k == 0 || !IsPublish(msgs[k]) {
    } else {
      LatestIsTail(msgs, k - 1);
    }
  }

  /**
   Looking only at the end of the list finds every message to be published if and only if none
   stands before one that has been published.
   */
  lemma LatestFindsAllExactly(msgs: seq<ClientMsg>)
    requires msgs != []
    ensures var start := LatestFrom(msgs, |msgs| - 1);
            (forall j :: 0 <= j < start ==> !IsPublish(msgs[j])) <==>
            (forall j, k :: 0 <= j < k < |msgs| && IsPublish(msgs[j]) ==> IsPublish(msgs[k]))
  {
    var start := LatestFrom(msgs, |msgs| - 1);
    LatestIsTail(msgs, |msgs| - 1);
  }

  // ----- How long a queue can get -----

  /** Every limit that is set still has room. */
  predicate WithinLimits(cfg: Config, t: Tally, maximum: uint16, connected: bool) {
    && (cfg.maxQueuedMessages == 0 || t.count12 < cfg.maxQueuedMessages + if connected then maximum as int else 0)
    && (cfg.maxQueuedBytes == 0 || t.bytes12 < cfg.maxQueuedBytes + if connected then cfg.maxInflightBytes else 0)
  }

  /** What the counters have to be for a message to be queued; a limit of 0 is none. */
  lemma QueueReadyExactly(cfg: Config, t: Tally, maximum: uint16, connected: bool, qos: nat)
    ensures QueueReady(cfg, t, maximum, connected, qos) <==>
            && WithinLimits(cfg, t, maximum, connected)
            && (qos > 0 || cfg.queueQos0Messages || (cfg.maxQueuedMessages == 0 && cfg.maxQueuedBytes == 0))
  {
  }

  /** Queued messages with QoS above 0 stay within the configured number and the highest in-flight maximum. */
  predicate QueueBounded(cfg: Config, msgs: seq<ClientMsg>, peak: nat) {
    cfg.maxQueuedMessages > 0 ==> Recount(msgs).count12 <= cfg.maxQueuedMessages + peak
  }

  /** Queueing a message when there is room keeps the bound. */
  lemma AppendKeepsBound(cfg: Config, d: Lists, connected: bool, qos: nat, m: ClientMsg, peak: nat)
    requires QueueBounded(cfg, d.queued, peak) && d.maximum <= peak
    requires m.qos > 0 ==> QueueReady(cfg, QueuedCount(d), d.maximum, connected, qos)
    ensures QueueBounded(cfg, d.queued + [m], peak)
  {
    hide Recount;
    RecountBounds(d.stale.queued);
    Appended(d.queued, m);
  }

  /** Taking messages off the head of the queue keeps it. */
  lemma SuffixKeepsBound(cfg: Config, d: Lists, e: Lists, peak: nat)
    requires SameMessages(e.inflight + e.queued, d.inflight + d.queued) && |d.inflight| <= |e.inflight|
    requires QueueBounded(cfg, d.queued, peak)
    ensures QueueBounded(cfg, e.queued, peak)
  {
    hide Recount, SameMessage;
    var n := |e.inflight| - |d.inflight|;
    assert n <= |d.queued| by { assert |e.inflight + e.queued| == |d.inflight + d.queued|; }
    var head, tail := d.queued[..n], d.queued[n..];
    assert d.queued == head + tail;
    forall k | 0 <= k < |tail|
      ensures SameMessage(e.queued[k], tail[k])
    {
      assert (e.inflight + e.queued)[|e.inflight| + k] == e.queued[k];
      assert (d.inflight + d.queued)[|e.inflight| + k] == tail[k];
    }
    SameCounts(e.queued, tail);
    RecountConcat(head, tail);
    RecountBounds(head);
  }

  lemma {:induction false} QueuedInKeepsOrder(d: Lists, k: nat, outMaximum: uint16, n: nat, send: nat -> Rc)
    ensures var e := QueuedIn(d, k, outMaximum, n, send).1;
            && SameMessages(e.inflight + e.queued, d.inflight + d.queued)
            && |d.inflight| <= |e.inflight| && SameMessages(e.inflight[..|d.inflight|], d.inflight)
            && e.maximum == d.maximum && e.stale == d.stale
    decreases |d.queued| - k
  {
    hide SameMessage;
    SameReflexive(d.inflight + d.queued);
    SameReflexive(d.inflight);
    assert d.inflight[..|d.inflight|] == d.inflight;
    if k >= |d.queued| || (outMaximum != 0 && d.quota == 0) {
    } else if d.queued[k].qos != 2 {
      QueuedInKeepsOrder(d, k + 1, outMaximum, n, send);
    } else {
      var m := d.queued[k].(state := SendPubrec);
      var marked := d.(queued := d.queued[k := m]);
      var e := Dequeue(marked);
      PubrecIsSame(d.queued[k]);
      SameAfterMark(d.inflight, d.queued, k, m);
      DequeueKeepsOrder(marked);
      assert e.inflight[..|d.inflight|] == d.inflight;
      if send(n) == Success {
        var f := Answered(e, k);
        AnsweredIsSame(e, k);
        QueuedInKeepsOrder(f, k, outMaximum, n + 1, send);
        var last := QueuedIn(f, k, outMaximum, n + 1, send).1;
        SameTransitive(last.inflight + last.queued, f.inflight + f.queued, e.inflight + e.queued);
        SameTransitive(last.inflight + last.queued, e.inflight + e.queued, d.inflight + d.queued);
        SamePrefix(last.inflight, f.inflight, |d.inflight|);
        SameTransitive(last.inflight[..|d.inflight|], f.inflight[..|d.inflight|], d.inflight);
      }
    }
  }

  lemma PubrecIsSame(m: ClientMsg)
    ensures SameMessage(m.(state := SendPubrec), m)
  {
  }

  lemma AnsweredIsSame(d: Lists, k: nat)
    requires d.inflight != [] && k <= |d.queued|
    ensures var e := Answered(d, k);
            && SameMessages(e.inflight + e.queued, d.inflight + d.queued) && |e.inflight| == |d.inflight|
            && e.inflight[..|d.inflight| - 1] == d.inflight[..|d.inflight| - 1]
  {
  }

  lemma SamePrefix(a: seq<ClientMsg>, b: seq<ClientMsg>, n: nat)
    requires n <= |b| <= |a| && SameMessages(a[..|b|], b)
    ensures SameMessages(a[..n], b[..n])
  {
    assert forall k :: 0 <= k < n ==> a[..|b|][k] == a[..n][k] && b[k] == b[..n][k];
  }

  /** The messages of an offline client with QoS 0. */
  function Waiting(s: Stored, n: nat): seq<ClientMsg> {
    if n == 0 then [] else Waiting(s, n - 1) + [ClientMsg(s, 0, 0, Queued, false, true)]
  }

  lemma {:induction false} WaitingIsUncounted(s: Stored, n: nat)
    ensures Recount(Waiting(s, n)).count12 == 0 && |Waiting(s, n)| == n
  {
    hide Recount;
    if n == 0 {
      RecountNone(Waiting(s, 0));
    } else {
      WaitingIsUncounted(s, n - 1);
      Appended(Waiting(s, n - 1), ClientMsg(s, 0, 0, Queued, false, true));
    }
  }

  /**
   QoS 0 messages queued for an offline client are not counted, so however small the limit is,
   any number of them can be queued, one insertion after the other.
   */
  lemma Qos0QueueIsUnbounded(s: Stored, n: nat, maximum: uint16, send: nat -> Rc)
    ensures var cfg := Config(1, 0, 0, true, false);
            var offline := Client(true, false, false, false, 2, NoBridge);
            var d := Exact([], Waiting(s, n), maximum, maximum);
            && Recount(d.queued).count12 == 0 && |d.queued| == n
            && Inserted(cfg, offline, d, Outgoing, ClientMsg(s, 0, 0, MsgState.Invalid, false, true), 0, false, false, 0, 0, send, 0)
               == (Success, d.(queued := Waiting(s, n + 1)))
  {
    hide Recount, Ready, WriteLatest, Promote;
    WaitingIsUncounted(s, n);
    var cfg := Config(1, 0, 0, true, false);
    var offline := Client(true, false, false, false, 2, NoBridge);
    var d := Exact([], Waiting(s, n), maximum, maximum);
    RecountNone(d.stale.queued);
    assert QueueReady(cfg, QueuedCount(d), maximum, false, 0);
    assert Decide(cfg, offline, d, Outgoing, 0, true, false, 0) == Admit(Queued, Success);
  }

  // ----- What an insertion decides -----

  /** A client that is not there, or a QoS 0 message for an offline client that nobody keeps. */
  predicate Unwanted(cfg: Config, c: Client, qos: nat) {
    || !c.hasId
    || (!c.connected && qos == 0 && !cfg.queueQos0Messages && (c.bridge.NoBridge? || !c.bridge.lazy))
    || (!c.connected && c.bridge.Bridge? && c.bridge.cleanStartLocal)
  }

  /** The message has been sent to this client before, and that matters. */
  predicate Duplicate(cfg: Config, c: Client, dir: Direction, retain: bool, alreadySent: bool) {
    !c.mqtt5 && !cfg.allowDuplicateMessages && dir == Outgoing && !retain && alreadySent
  }

  /**
   What becomes of a message: in flight exactly when the client is connected and there is room;
   queued exactly when there is none, or nobody connected, and every limit of the queue still
   has room; a QoS 0 message is never queued for a connected client; duplicates and unwanted
   messages change nothing; and only a full queue drops a message with QoS above 0.
   */
  lemma DecisionIs(cfg: Config, c: Client, d: Lists, dir: Direction, qos: nat, retain: bool, alreadySent: bool, packets: int)
    requires qos <= 2
    ensures var decision := Decide(cfg, c, d, dir, qos, retain, alreadySent, packets);
            var open := !Unwanted(cfg, c, qos) && !Duplicate(cfg, c, dir, retain, alreadySent);
            var room := c.connected && ReadyFor(cfg, d, dir, qos, packets);
            var space := WithinLimits(cfg, QueuedCount(d), d.maximum, c.connected);
            && (!open ==> decision.Ignore?)
            && (decision.Admit? && decision.state != Queued <==> open && room && (dir == Outgoing || qos == 2))
            && (qos > 0 ==> (decision.Admit? && decision.state == Queued <==> open && !room && space)
                            && (decision.Drop? <==> open && !room && !space))
            && (c.connected && qos == 0 ==> !(decision.Admit? && decision.state == Queued))
            && (decision.Admit? && decision.state != Queued && dir == Outgoing ==> decision.state == PublishState(qos, MsgState.Invalid))
  {
    hide Recount, Ready, QueueReady;
    QueueReadyExactly(cfg, QueuedCount(d), d.maximum, c.connected, qos);
  }

  // ----- The permission check at a login -----

  /** The messages a client may still have; denied tells which it may not. */
  function Permitted(msgs: seq<ClientMsg>, denied: Stored -> bool): seq<ClientMsg> {
    if msgs == [] then [] else (if denied(msgs[0].store) then [] else [msgs[0]]) + Permitted(msgs[1..], denied)
  }

  function Denied(msgs: seq<ClientMsg>, denied: Stored -> bool): seq<ClientMsg> {
    if msgs == [] then [] else (if denied(msgs[0].store) then [msgs[0]] else []) + Denied(msgs[1..], denied)
  }

  /** connection_check_acl on both lists of a direction: what is not permitted goes, and stays counted. */
  function Checked(d: Lists, denied: Stored -> bool): Lists {
    d.(inflight := Permitted(d.inflight, denied), queued := Permitted(d.queued, denied),
       stale := Stale(d.stale.inflight + Denied(d.inflight, denied), d.stale.queued + Denied(d.queued, denied)))
  }

  lemma {:induction false} PermittedCounts(msgs: seq<ClientMsg>, denied: Stored -> bool)
    ensures Recount(msgs) == Sum(Recount(Permitted(msgs, denied)), Recount(Denied(msgs, denied)))
    ensures Refs(msgs) == Refs(Permitted(msgs, denied)) + Refs(Denied(msgs, denied))
  {
    hide Recount, Refs, Sum;
    if msgs == [] {
      RecountNone(msgs);
      NoneReferred(msgs);
      SumOfZero(ZERO);
    } else {
      PermittedCounts(msgs[1..], denied);
      var keep, drop := Permitted(msgs[1..], denied), Denied(msgs[1..], denied);
      Divided(msgs, keep, drop);
      assert [] + keep == keep && [] + drop == drop;
    }
  }

  lemma NoneReferred(msgs: seq<ClientMsg>)
    ensures msgs == [] ==> Refs(msgs) == multiset{}
  {
  }

  /** A list divided in two, whichever part the first message goes to. */
  lemma Divided(msgs: seq<ClientMsg>, a: seq<ClientMsg>, b: seq<ClientMsg>)
    requires msgs != [] && Recount(msgs[1..]) == Sum(Recount(a), Recount(b)) && Refs(msgs[1..]) == Refs(a) + Refs(b)
    ensures Recount(msgs) == Sum(Recount([msgs[0]] + a), Recount(b)) == Sum(Recount(a), Recount([msgs[0]] + b))
    ensures Refs(msgs) == Refs([msgs[0]] + a) + Refs(b) == Refs(a) + Refs([msgs[0]] + b)
  {
    hide Recount, Refs, Plus, Sum;
    assert msgs == [msgs[0]] + msgs[1..];
    HeadCounted(msgs[0], msgs[1..]);
    HeadCounted(msgs[0], a);
    HeadCounted(msgs[0], b);
    PlusEither(Recount(a), Recount(b), msgs[0]);
    Grouping(multiset{msgs[0].store}, Refs(a), Refs(b));
  }

  lemma HeadCounted(m: ClientMsg, msgs: seq<ClientMsg>)
    ensures Recount([m] + msgs) == Plus(Recount(msgs), m)
    ensures Refs([m] + msgs) == multiset{m.store} + Refs(msgs)
  {
    assert ([m] + msgs)[1..] == msgs;
  }

  lemma PlusEither(a: Tally, b: Tally, m: ClientMsg)
    ensures Plus(Sum(a, b), m) == Sum(Plus(a, m), b) == Sum(a, Plus(b, m))
  {
  }

  lemma Grouping(m: multiset<Stored>, a: multiset<Stored>, b: multiset<Stored>)
    ensures m + (a + b) == (m + a) + b == a + (m + b)
  {
  }

  /** What the counters say about lists that were right before. */
  predicate CountersRight(d: Lists) {
    InflightCount(d) == Recount(d.inflight) && QueuedCount(d) == Recount(d.queued)
  }

  lemma {:induction false} NoneDenied(msgs: seq<ClientMsg>, denied: Stored -> bool)
    ensures Denied(msgs, denied) == [] <==> forall k :: 0 <= k < |msgs| ==> !denied(msgs[k].store)
    ensures Denied(msgs, denied) == [] ==> Permitted(msgs, denied) == msgs
  {
    if msgs == [] {
    } else {
      NoneDenied(msgs[1..], denied);
      assert forall k :: 0 < k < |msgs| ==> msgs[k] == msgs[1..][k - 1];
      assert msgs == [msgs[0]] + msgs[1..];
    }
  }

  /** The counters of a direction are right if and only if no deleted message is still counted. */
  lemma RightWithoutStale(d: Lists)
    ensures CountersRight(d) <==> d.stale == NO_STALE
  {
    hide Recount;
    RecountBounds(d.stale.inflight);
    RecountBounds(d.stale.queued);
    RecountNone(d.stale.inflight);
    RecountNone(d.stale.queued);
  }

  /**
   The permission check deletes messages without uncounting them: the counters stay right if and
   only if it deletes none, and they do not change with what is deleted.
   */
  lemma CheckKeepsCountersExactly(d: Lists, denied: Stored -> bool)
    requires CountersRight(d)
    ensures var e := Checked(d, denied);
            && InflightCount(e) == Recount(d.inflight) && QueuedCount(e) == Recount(d.queued)
            && (CountersRight(e) <==> forall k :: 0 <= k < |d.inflight + d.queued| ==> !denied((d.inflight + d.queued)[k].store))
  {
    hide Recount, Refs, CountersRight;
    var e := Checked(d, denied);
    RightWithoutStale(d);
    RightWithoutStale(e);
    PermittedCounts(d.inflight, denied);
    PermittedCounts(d.queued, denied);
    NoneDenied(d.inflight, denied);
    NoneDenied(d.queued, denied);
    assert [] + Denied(d.inflight, denied) == Denied(d.inflight, denied);
    assert [] + Denied(d.queued, denied) == Denied(d.queued, denied);
    BothLists(d.inflight, d.queued, denied);
  }

  lemma BothLists(a: seq<ClientMsg>, b: seq<ClientMsg>, denied: Stored -> bool)
    ensures (forall k :: 0 <= k < |a + b| ==> !denied((a + b)[k].store)) <==>
            (forall k :: 0 <= k < |a| ==> !denied(a[k].store)) && (forall k :: 0 <= k < |b| ==> !denied(b[k].store))
  {
    assert forall k :: 0 <= k < |a| ==> (a + b)[k] == a[k];
    assert forall k :: 0 <= k < |b| ==> (a + b)[|a| + k] == b[k];
  }

  lemma CheckKeepsBound(cfg: Config, d: Lists, denied: Stored -> bool, peak: nat)
    requires QueueBounded(cfg, d.queued, peak)
    ensures QueueBounded(cfg, Permitted(d.queued, denied), peak)
  {
    hide Recount, Refs;
    PermittedCounts(d.queued, denied);
    RecountBounds(Denied(d.queued, denied));
  }

  /**
   A message in flight that is no longer permitted at a takeover: no message is left, but it is
   still counted, and the quota taken for it is not returned.
   */
  lemma DeniedStaysCountedExample(s: Stored)
    ensures var cfg := Config(100, 0, 0, true, true);
            var m := ClientMsg(s, 1, 1, WaitForPuback, true, false);
            var d := Checked(ResetOutgoing(cfg, Exact([m], [], 20, 20), 0), (s: Stored) => true);
            d.inflight == [] && d.queued == [] && d.quota == 19 && InflightCount(d).count == 1
  {
    hide Recount, WalkQueue;
    var cfg := Config(100, 0, 0, true, true);
    var m := ClientMsg(s, 1, 1, WaitForPuback, true, false);
    var n := m.(state := PublishQos1);
    var denied := (s: Stored) => true;
    OneRestarts(m);
    NothingQueued(cfg, Exact([n], [], 19, 20), 0, Outgoing, 0);
    OneDenied(n, denied);
    RightWithoutStale(Exact([n], [], 19, 20));
    CheckKeepsCountersExactly(Exact([n], [], 19, 20), denied);
    One(n);
  }

  lemma OneRestarts(m: ClientMsg)
    requires m.qos == 1
    ensures Restarted(Exact([m], [], 20, 20)) == Exact([m.(state := PublishQos1)], [], 19, 20)
  {
    assert [m][1..] == [];
    assert ResetInflight([m]) == [m.(state := PublishQos1)];
    ChargedIs([m], 20);
    One(m);
  }

  lemma OneDenied(m: ClientMsg, denied: Stored -> bool)
    requires denied(m.store)
    ensures Permitted([m], denied) == Permitted([], denied) == []
  {
    assert [m][1..] == [];
  }

  // ----- Retransmissions to the broker -----

  /** The messages of a direction, in flight before queued. */
  function AllOf(d: Lists): seq<ClientMsg> { d.inflight + d.queued }

  /** A QoS 2 message that is sent again while the first copy is still stored adds nothing. */
  lemma RetransmissionAddsNothing(cfg: Config, c: Client, d: Lists, p: Publication, newest: Stored, acked: bool,
                                  outMaximum: uint16, send: nat -> Rc)
    requires p.qos == 2 && Recognised(d, p).Some? && Recognised(d, p).value.qos == 2
    ensures SameMessages(AllOf(Arrived(cfg, c, d, p, newest, acked, outMaximum, send)), AllOf(d))
  {
    hide QueuedIn, SameMessages;
    SameReflexive(AllOf(d));
    QueuedInKeepsOrder(d, 0, outMaximum, 0, send);
  }

  /** Once a QoS 2 message is in a list, it is recognised when it comes again. */
  lemma StoredIsRecognised(d: Lists, p: Publication, k: nat)
    requires p.qos == 2 && k < |AllOf(d)| && AllOf(d)[k].store.sourceMid == p.mid
    requires forall j :: 0 <= j < |AllOf(d)| && AllOf(d)[j].store.sourceMid == p.mid ==> p.same(AllOf(d)[j].store)
    ensures Recognised(d, p).Some? && p.same(Recognised(d, p).value)
  {
    var all := d.inflight + d.queued;
    assert all[k].store.sourceMid == p.mid;
    assert FindSource(all, p.mid) < |all|;
  }

  /**
   A reused identifier clears the old message away if and only if that is in flight to the broker
   with QoS 2; a message that is only queued stays, and then there are two with the identifier.
   */
  lemma ReusedIsClearedExactly(d: Lists, p: Publication)
    requires Reused(d, p)
    requires forall k :: 0 <= k < |AllOf(d)| ==> AllOf(d)[k].mid == AllOf(d)[k].store.sourceMid
    ensures var k := Find(d.inflight, p.mid);
            && (Cleared(d, p) == d.(inflight := if k < |d.inflight| && d.inflight[k].store.qos == 2
                                                then Without(d.inflight, k) else d.inflight))
            && (AllOf(Cleared(d, p)) == AllOf(d) <==> k == |d.inflight| || d.inflight[k].store.qos != 2)
            && (k < |d.inflight| ==> d.inflight[k].store == Known(d, p).value)
  {
    hide Without;
    var k := Find(d.inflight, p.mid);
    var all := AllOf(d);
    if k < |d.inflight| {
      WithoutKeeps(d.inflight, k);
      FindsSame(all, d.inflight, p.mid, k);
    }
  }

  lemma FindsSame(all: seq<ClientMsg>, msgs: seq<ClientMsg>, mid: uint16, k: nat)
    requires msgs <= all && k == Find(msgs, mid) < |msgs|
    requires forall j :: 0 <= j < |all| ==> all[j].mid == all[j].store.sourceMid
    ensures FindSource(all, mid) == k && all[k] == msgs[k]
  {
    assert forall j :: 0 <= j < |msgs| ==> all[j] == msgs[j];
  }

  // ----- What leaves the stale messages as they are -----

  lemma {:induction false} WriteKeepsStale(d: Lists, k: nat, n: nat, send: nat -> Rc, now: nat)
    ensures var e := WriteFrom(d, k, n, send, now).1; e.stale == d.stale && e.maximum == d.maximum
    decreases |d.inflight| - k
  {
    if k >= |d.inflight| {
    } else {
      var (rc, e) := WriteSingle(d, k, send(n), now);
      if rc == Success {
        WriteKeepsStale(e, if |e.inflight| == |d.inflight| then k + 1 else k, n + 1, send, now);
      }
    }
  }

  lemma LatestKeepsStale(canSend: bool, d: Lists, send: nat -> Rc, now: nat)
    ensures var e := WriteLatest(canSend, d, send, now).1; e.stale == d.stale && e.maximum == d.maximum
  {
    hide WriteFrom;
    if canSend && d.inflight != [] { WriteKeepsStale(d, LatestFrom(d.inflight, |d.inflight| - 1), 0, send, now); }
  }

  lemma DeletedKeepsStale(cfg: Config, canSend: bool, d: Lists, mid: uint16, expected: MsgState, qos: nat,
                          packets: int, send: nat -> Rc, now: nat)
    ensures Deleted(cfg, canSend, d, mid, expected, qos, packets, send, now).1.stale == d.stale
  {
    hide Promote, WriteLatest, Refuses;
    PromoteKeepsOrder(cfg, Unlisted(d, mid), packets);
    LatestKeepsStale(canSend, DeleteOutgoing(cfg, d, mid, packets), send, now);
  }

  lemma AcknowledgedKeepsStale(cfg: Config, c: Client, d: Lists, mid: uint16, qos: nat, headerOk: bool, parsed: Rc,
                               packets: int, send: nat -> Rc, now: nat)
    ensures Acknowledged(cfg, c, d, mid, qos, headerOk, parsed, packets, send, now).1.stale == d.stale
  {
    hide Deleted;
    DeletedKeepsStale(cfg, c.active && c.connected, Returned(d), mid, WaitForPubcomp, qos, packets, send, now);
  }

  lemma ReceivedKeepsStale(cfg: Config, c: Client, d: Lists, mid: uint16, parsed: Rc, reason: byte, pubrel: Rc,
                           packets: int, send: nat -> Rc, now: nat)
    ensures Received(cfg, c, d, mid, parsed, reason, pubrel, packets, send, now).1.stale == d.stale
  {
    hide Deleted;
    DeletedKeepsStale(cfg, c.active && c.connected, d, mid, WaitForPubrec, 2, packets, send, now);
  }

  lemma InsertedKeepsStale(cfg: Config, c: Client, d: Lists, dir: Direction, m: ClientMsg, qos: nat, alreadySent: bool,
                           update: bool, packets: int, packets2: int, send: nat -> Rc, now: nat)
    ensures var e := Inserted(cfg, c, d, dir, m, qos, alreadySent, update, packets, packets2, send, now).1;
            e.stale == d.stale && e.maximum == d.maximum
  {
    hide Decide, WriteLatest, Promote;
    match Decide(cfg, c, d, dir, qos, m.retain, alreadySent, packets)
    case Admit(state, rc) =>
      var e := Admitted(d, dir, m.(state := state, qos := if qos > c.maxQos then c.maxQos else qos));
      var written := WriteLatest(c.active && c.connected, e, send, now).1;
      LatestKeepsStale(c.active && c.connected, e, send, now);
      PromoteKeepsOrder(cfg, written, packets2);
    case _ =>
  }

  /** After a reset no deleted message is counted. */
  lemma ResetIsRight(cfg: Config, d: Lists, packets: int)
    ensures ResetOutgoing(cfg, d, packets).stale == NO_STALE && ResetIncoming(cfg, d, packets).stale == NO_STALE
  {
    hide WalkQueue;
    WalkKeepsOrder(cfg, Restarted(d), 0, Outgoing, packets);
    WalkKeepsOrder(cfg, RestartedIncoming(d), 0, Incoming, packets);
  }

  lemma CheckFindsNone(d: Lists, denied: Stored -> bool)
    requires forall s :: !denied(s)
    ensures Checked(d, denied) == d
  {
    NoneDenied(d.inflight, denied);
    NoneDenied(d.queued, denied);
    assert d.stale.inflight + [] == d.stale.inflight && d.stale.queued + [] == d.stale.queued;
  }

  // ----- The quota in an acknowledgement -----

  /**
   PUBACK and PUBCOMP: up to the promotion of queued messages, quota and messages in flight stay
   in balance if and only if the acknowledged message goes, or the quota was full.
   */
  lemma AckBalancedExactly(d: Lists, mid: uint16, qos: nat)
    requires Balanced(d) && qos > 0
    ensures var found := Find(d.inflight, mid) < |d.inflight| && !Refuses(d, mid, WaitForPubcomp, qos);
            && (found ==> Balanced(Unlisted(Returned(d), mid)))
            && (!found ==> (Balanced(Returned(d)) <==> d.quota == d.maximum))
  {
    hide Recount, Without;
    var k := Find(d.inflight, mid);
    RecountBounds(d.inflight);
    if k < |d.inflight| {
      Removed(d.inflight, k);
      RecountBounds(Without(d.inflight, k));
    }
  }

  /** A PUBREC that refuses a message takes it out of flight without returning its quota. */
  lemma RefusedTakesQuotaExactly(d: Lists, mid: uint16)
    requires Balanced(d) && !Refuses(d, mid, WaitForPubrec, 2)
    ensures Balanced(Unlisted(d, mid)) <==> Find(d.inflight, mid) == |d.inflight|
  {
    hide Recount, Without;
    var k := Find(d.inflight, mid);
    if k < |d.inflight| { Removed(d.inflight, k); }
  }

  /** The only message a client may have in flight is refused: no message is in flight, and no quota is left. */
  lemma RefusedTakesQuotaExample(s: Stored, send: nat -> Rc)
    ensures var cfg := Config(100, 0, 0, true, true);
            var c := Client(true, true, true, true, 2, NoBridge);
            var m := ClientMsg(s, 1, 2, WaitForPubrec, true, false);
            Received(cfg, c, Exact([m], [], 0, 1), 1, Success, 0x97, Success, 0, send, 0) == (Success, Exact([], [], 0, 1))
  {
    var m := ClientMsg(s, 1, 2, WaitForPubrec, true, false);
    assert Find([m], 1) == 0;
    assert Without([m], 0) == [];
  }

  // ----- The failures at inputs that can occur -----

  lemma NothingQueued(cfg: Config, d: Lists, k: nat, dir: Direction, packets: int)
    ensures d.queued == [] ==> WalkQueue(cfg, d, k, dir, packets) == d
  {
  }

  /** The queue of an offline client, then a reconnect: a QoS 0 message takes quota that nobody returns. */
  lemma Qos0TakesQuotaExample(s: Stored, send: nat -> Rc)
    requires send(0) == Success
    ensures var cfg := Config(100, 0, 0, true, true);
            var d := ResetOutgoing(cfg, Exact([], Waiting(s, 1), 1, 1), 0);
            WriteFrom(d, 0, 0, send, 0) == (Success, Exact([], [], 0, 1))
  {
    hide Recount;
    var cfg := Config(100, 0, 0, true, true);
    var m := ClientMsg(s, 0, 0, Queued, false, true);
    assert Waiting(s, 0) == [] && Waiting(s, 1) == [m];
    var d := Exact([], [m], 1, 1);
    var next := Exact([ToPublish(m)], [], 0, 1);
    assert d.queued[0 := ToPublish(m)] == [ToPublish(m)] && [ToPublish(m)][1..] == [] && [] + [ToPublish(m)] == [ToPublish(m)];
    assert ReadyFor(cfg, d, Outgoing, 0, 0);
    NothingQueued(cfg, next, 0, Outgoing, 0);
    assert WalkQueue(cfg, d, 0, Outgoing, 0) == next;
    assert Without(next.inflight, 0) == [];
  }

  /** A message that is too big for the client takes the only quota with it. */
  lemma OversizeTakesQuotaExample(s: Stored, send: nat -> Rc)
    requires send(0) == OversizePacket
    ensures var cfg := Config(100, 0, 0, true, true);
            var c := Client(true, true, true, true, 2, NoBridge);
            var m := ClientMsg(s, 1, 1, MsgState.Invalid, false, false);
            Inserted(cfg, c, Exact([], [], 1, 1), Outgoing, m, 1, false, true, 0, 0, send, 0)
            == (Success, Exact([], [], 0, 1))
  {
    var cfg := Config(100, 0, 0, true, true);
    var c := Client(true, true, true, true, 2, NoBridge);
    var m := ClientMsg(s, 1, 1, PublishQos1, false, false);
    assert Decide(cfg, c, Exact([], [], 1, 1), Outgoing, 1, false, false, 0) == Admit(PublishQos1, Success);
    var d := Exact([m], [], 0, 1);
    assert Admitted(Exact([], [], 1, 1), Outgoing, m) == d;
    assert Without(d.inflight, 0) == [];
    assert WriteFrom(d, 0, 0, send, 0) == (Success, Exact([], [], 0, 1));
  }

  /** A reconnect whose first send fails: the message stays behind one that waits, and is not looked at again. */
  lemma LatestMissesExample(s: Stored, send: nat -> Rc)
    requires send(0) == NoConn
    ensures var cfg := Config(100, 0, 0, true, true);
            var a := ClientMsg(s, 1, 1, WaitForPuback, true, false);
            var b := ClientMsg(s, 2, 2, WaitForPubcomp, true, false);
            var d := ResetOutgoing(cfg, Exact([a, b], [], 0, 2), 0);
            && d == Exact([a.(state := PublishQos1), b.(state := ResendPubrel)], [], 0, 2)
            && WriteFrom(d, 0, 0, send, 0) == (NoConn, d)
            && IsPublish(d.inflight[0]) && LatestFrom(d.inflight, 1) == 2
  {
    var cfg := Config(100, 0, 0, true, true);
    var a := ClientMsg(s, 1, 1, WaitForPuback, true, false);
    var b := ClientMsg(s, 2, 2, WaitForPubcomp, true, false);
    assert [a, b][1..] == [b] && [b][1..] == [];
    assert ResetInflight([b]) == [b.(state := ResendPubrel)];
    assert ResetInflight([a, b]) == [a.(state := PublishQos1), b.(state := ResendPubrel)];
    assert Charged([b], 1) == 0 && Charged([a, b], 2) == 0;
    var d := Exact([a.(state := PublishQos1), b.(state := ResendPubrel)], [], 0, 2);
    NothingQueued(cfg, d, 0, Outgoing, 0);
    assert ResetOutgoing(cfg, Exact([a, b], [], 0, 2), 0) == d;
  }

  /** The incoming lists after a QoS 2 message, a reconnect and two more messages. */
  function ThreeArrivals(cfg: Config, c: Client, a: ClientMsg, b: ClientMsg, e: ClientMsg, send: nat -> Rc): Lists {
    var first := Inserted(cfg, c, Exact([], [], 1, 1), Incoming, a, 2, false, false, 0, 0, send, 0).1;
    var reset := ResetIncoming(cfg, first, 0);
    var second := Inserted(cfg, c, reset, Incoming, b, 2, false, false, 0, 0, send, 0).1;
    Inserted(cfg, c, second, Incoming, e, 2, false, false, 0, 0, send, 0).1
  }

  /** One PUBREL then puts two messages in flight, where only one is allowed. */
  lemma ReleasesTooManyExample(s: Stored, send: nat -> Rc, route: nat -> Rc)
    requires s.qos == 2 && !s.hasTopic
    ensures var cfg := Config(100, 0, 0, true, true);
            var c := Client(true, true, true, true, 2, NoBridge);
            var m := ClientMsg(s, 1, 2, MsgState.Invalid, false, false);
            var d := ThreeArrivals(cfg, c, m, m.(mid := 2), m.(mid := 3), send);
            ReleaseIncoming(cfg, d, 1, route) ==
            (Success, Exact([m.(mid := 2, state := WaitForPubrel), m.(mid := 3, state := WaitForPubrel)], [], 0, 1))
  {
    hide Recount, ReadyFor, Inserted, ReleaseQueue, ResetIncoming, ToPublish;
    var cfg := Config(100, 0, 0, true, true);
    var c := Client(true, true, true, true, 2, NoBridge);
    var m := ClientMsg(s, 1, 2, MsgState.Invalid, false, false);
    var held, q2, q3 := m.(state := WaitForPubrel), m.(mid := 2, state := Queued), m.(mid := 3, state := Queued);
    FirstArrives(cfg, c, m, send);
    ArrivalIsKept(cfg, Exact([held], [], 1, 1), held);
    SecondIsQueued(cfg, c, Exact([held], [], 0, 1), m.(mid := 2), send);
    assert [] + [q2] == [q2] && [q2] + [q3] == [q2, q3];
    SecondIsQueued(cfg, c, Exact([held], [q2], 0, 1), m.(mid := 3), send);
    assert ThreeArrivals(cfg, c, m, m.(mid := 2), m.(mid := 3), send) == Exact([held], [q2, q3], 0, 1);
    assert [held][1..] == [] && TakeAll([], 1, route, 0) == Taken(Success, [], false);
    assert TakeAll([held], 1, route, 0) == Taken(Success, [], true);
    var d := Exact([], [q2, q3], 0, 1);
    assert ReleaseIncoming(cfg, Exact([held], [q2, q3], 0, 1), 1, route) == (Success, ReleaseQueue(cfg, d, 0, 0));
    NoRoom(cfg, d);
    ReleasesOnlyWhenFull(cfg, d, 0);
    assert [q2, q3][1..] == [q3] && [q3][1..] == [];
    assert Released([q3]) == [q3.(state := WaitForPubrel)];
    assert Released([q2, q3]) == [q2.(state := WaitForPubrel), q3.(state := WaitForPubrel)];
    ReleaseKeepsQuota(cfg, d, 0, 0);
    assert d.inflight + Released(d.queued) == Released(d.queued);
  }

  lemma NoRoom(cfg: Config, d: Lists)
    requires cfg == Config(100, 0, 0, true, true) && d.quota == 0 && d.maximum > 0
    ensures !ReadyFor(cfg, d, Incoming, 2, 0)
  {
    hide Recount;
  }

  lemma FirstArrives(cfg: Config, c: Client, m: ClientMsg, send: nat -> Rc)
    requires cfg == Config(100, 0, 0, true, true) && c == Client(true, true, true, true, 2, NoBridge) && m.qos == 2
    ensures Inserted(cfg, c, Exact([], [], 1, 1), Incoming, m, 2, false, false, 0, 0, send, 0).1
            == Exact([m.(state := WaitForPubrel)], [], 1, 1)
  {
    assert [] + [m.(state := WaitForPubrel)] == [m.(state := WaitForPubrel)];
  }

  lemma ArrivalIsKept(cfg: Config, d: Lists, m: ClientMsg)
    requires d == Exact([m], [], 1, 1) && m.qos == 2
    ensures ResetIncoming(cfg, d, 0) == Exact([m], [], 0, 1)
  {
    assert [m][1..] == [] && KeepQos2([m]) == [m] + KeepQos2([]) && Charged([m], 1) == Charged([], 0);
    NothingQueued(cfg, Exact([m], [], 0, 1), 0, Incoming, 0);
  }

  lemma SecondIsQueued(cfg: Config, c: Client, d: Lists, m: ClientMsg, send: nat -> Rc)
    requires cfg == Config(100, 0, 0, true, true) && c == Client(true, true, true, true, 2, NoBridge)
    requires m.qos == 2 && d.quota == 0 && d.maximum == 1 && |d.queued| <= 1 && d.stale == NO_STALE
    ensures Inserted(cfg, c, d, Incoming, m, 2, false, false, 0, 0, send, 0).1 == d.(queued := d.queued + [m.(state := Queued)])
  {
    hide Recount, ReadyFor;
    RecountBounds(d.queued);
    RecountNone(d.stale.queued);
    NoRoom(cfg, d);
  }

  lemma {:induction false} ReleaseKeepsQuota(cfg: Config, d: Lists, k: nat, packets: int)
    ensures d.quota == 0 ==> ReleaseQueue(cfg, d, k, packets).quota == 0
    ensures var e := ReleaseQueue(cfg, d, k, packets); e.maximum == d.maximum && e.stale == d.stale
    decreases |d.queued| - k
  {
    hide Ready, Recount, ReadyFor;
    if k >= |d.queued| || ReadyFor(cfg, d, Incoming, d.queued[k].qos, packets) {
    } else if d.queued[k].qos == 2 {
      ReleaseKeepsQuota(cfg, Dequeue(d.(queued := d.queued[k := d.queued[k].(state := WaitForPubrel)])), k, packets);
    } else {
      ReleaseKeepsQuota(cfg, d, k + 1, packets);
    }
  }
}
