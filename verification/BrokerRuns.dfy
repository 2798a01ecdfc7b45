/**
 The whole broker: all clients and the store. In every state that any sequence of operations
 reaches, every reference count agrees with its holders, no queue exceeds its limit, and all
 counters agree with a recount unless a permission check at a login has deleted a message.
 */
module BrokerRuns {
  import opened Bytes
  import opened BrokerMsgs
  import opened BrokerLists
  import opened BrokerStore
  import opened BrokerDb

  function Total(held: seq<multiset<Stored>>): multiset<Stored> {
    if held == [] then multiset{} else held[0] + Total(held[1..])
  }

  lemma {:induction false} TotalHolds(held: seq<multiset<Stored>>, i: nat)
    requires i < |held|
    ensures held[i] <= Total(held)
  {
    if i == 0 {
    } else {
      TotalHolds(held[1..], i - 1);
    }
  }

  lemma {:induction false} TotalChanges(held: seq<multiset<Stored>>, i: nat, h: multiset<Stored>)
    requires i < |held|
    ensures Total(held[i := h]) + held[i] == Total(held) + h
  {
    if i == 0 {
      assert held[0 := h][1..] == held[1..];
      Exchange(held[0], h, Total(held[1..]));
    } else {
      TotalChanges(held[1..], i - 1, h);
      assert held[i := h][1..] == held[1..][i - 1 := h];
      Regroup(held[0], Total(held[1..][i - 1 := h]), held[i]);
      Regroup(held[0], Total(held[1..]), h);
    }
  }

  lemma Exchange(a: multiset<Stored>, b: multiset<Stored>, c: multiset<Stored>)
    ensures (b + c) + a == (a + c) + b
  {
  }

  lemma Regroup(a: multiset<Stored>, b: multiset<Stored>, c: multiset<Stored>)
    ensures (a + b) + c == a + (b + c)
  {
  }

  /** If one client's share changes and the rest does not, the sum follows. */
  lemma Rebalance(before: multiset<Stored>, after: multiset<Stored>, mine: multiset<Stored>, mine2: multiset<Stored>,
                  outside: multiset<Stored>, total: multiset<Stored>, total2: multiset<Stored>)
    requires mine <= before && mine2 <= after && before - mine == after - mine2
    requires before == outside + total && total2 + mine == total + mine2
    ensures after == outside + total2
  {
    forall s
      ensures after[s] == outside[s] + total2[s]
    {
      assert (before - mine)[s] == (after - mine2)[s];
      assert (total2 + mine)[s] == (total + mine2)[s];
    }
  }

  /** What calls into other code return: packet counts, sends, the time. */
  datatype World = World(packets: int, packets2: int, send: nat -> Rc, now: nat)

  /** One subscriber a message goes to, with what is its own: identifier, QoS, retain flag and surroundings. */
  datatype Dest = Dest(client: nat, mid: uint16, qos: nat, retain: bool, world: World)

  /** An operation on one client's lists. */
  datatype ClientOp =
    | Flags(hasId: bool, connected: bool, active: bool, cleanStart: bool, maxQos: nat)
    | Puback(mid: uint16, qos: nat, headerOk: bool, parsed: Rc)         // or PUBCOMP, with QoS 2
    | Pubrec(mid: uint16, parsed: Rc, reason: byte, pubrel: Rc)
    | Insert(mid: uint16, dir: Direction, qos: nat, retain: bool, stored: Stored, update: bool)
    | RemoveIncoming(mid: uint16)
    | TakeQuota
    | ReturnQuota
    | LimitClient(value: uint16)
    | LimitBridge(value: uint16)
    | Reconnect
    | CheckAcl(deniedIn: Stored -> bool, deniedOut: Stored -> bool)
    | DeleteAll(forceFree: bool)
    | WriteAll
    | WriteLatest
    | WriteQueuedOut
    | WriteQueuedIn

  /** Everything but a permission check that denies something. */
  ghost predicate Harmless(op: ClientOp) {
    op.CheckAcl? ==> forall s :: !op.deniedIn(s) && !op.deniedOut(s)
  }

  /** Carries out one operation on a client. */
  method Perform(c: Context, op: ClientOp, w: World)
    requires c.Valid()
    modifies c, c.msgsIn, c.msgsOut, c.store
    ensures c.Valid() && c.Others() == old(c.Others())
    ensures old(c.Right()) && Harmless(op) ==> c.Right()
  {
    hide c.Valid, c.Others, Harmless, c.Right;
    match op {
      case Flags(hasId, connected, active, cleanStart, maxQos) =>
        SetFlags(c, hasId, connected, active, cleanStart, maxQos);
      case Puback(mid, qos, headerOk, parsed) => PerformPuback(c, mid, qos, headerOk, parsed, w);
      case Pubrec(mid, parsed, reason, pubrel) => PerformPubrec(c, mid, parsed, reason, pubrel, w);
      case Insert(mid, dir, qos, retain, stored, update) =>
        if stored in c.store.list && stored in c.store.destIds && qos <= 2 {
          PerformInsert(c, mid, dir, qos, retain, stored, update, w);
        }
      case RemoveIncoming(mid) => PerformRemoval(c, mid);
      case TakeQuota => PerformQuota(c, true);
      case ReturnQuota => PerformQuota(c, false);
      case LimitClient(value) => PerformLimit(c, value);
      case LimitBridge(value) => PerformBridgeLimit(c, value, w);
      case Reconnect => PerformReset(c, w);
      case CheckAcl(deniedIn, deniedOut) => PerformCheck(c, op);
      case DeleteAll(forceFree) => PerformDelete(c, forceFree);
      case WriteQueuedIn => PerformAnswers(c, w);
      case WriteAll => PerformWriteAll(c, w);
      case WriteLatest => PerformWriteLatest(c, w);
      case WriteQueuedOut => PerformPromotion(c, w);
    }
  }

  method SetFlags(c: Context, hasId: bool, connected: bool, active: bool, cleanStart: bool, maxQos: nat)
    requires c.Valid()
    modifies c
    ensures c.Valid() && c.Others() == old(c.Others()) && c.Right() == old(c.Right())
  {
    hide c.Attached, c.Others, Recount, QueueBounded;
    c.hasId, c.connected, c.active, c.cleanStart, c.maxQos := hasId, connected, active, cleanStart, maxQos;
  }

  method PerformPuback(c: Context, mid: uint16, qos: nat, headerOk: bool, parsed: Rc, w: World)
    requires c.Valid()
    modifies c.msgsOut, c.store
    ensures c.Valid() && c.Others() == old(c.Others()) && (old(c.Right()) ==> c.Right())
  {
    DistinctLists(c);
    hide c.Valid, c.Others, Acknowledged;
    AcknowledgedKeepsStale(c.cfg, c.Facts(), c.msgsOut.View(), mid, qos, headerOk, parsed, w.packets, w.send, w.now);
    var rc := c.HandlePubackcomp(mid, qos, headerOk, parsed, w.packets, w.send, w.now);
  }

  method PerformPubrec(c: Context, mid: uint16, parsed: Rc, reason: byte, pubrel: Rc, w: World)
    requires c.Valid()
    modifies c.msgsOut, c.store
    ensures c.Valid() && c.Others() == old(c.Others()) && (old(c.Right()) ==> c.Right())
  {
    DistinctLists(c);
    hide c.Valid, c.Others, Received;
    ReceivedKeepsStale(c.cfg, c.Facts(), c.msgsOut.View(), mid, parsed, reason, pubrel, w.packets, w.send, w.now);
    var rc := c.HandlePubrec(mid, parsed, reason, pubrel, w.packets, w.send, w.now);
  }

  /** db__message_insert with what a caller can see of the lists. */
  method InsertInto(c: Context, mid: uint16, dir: Direction, qos: nat, retain: bool, stored: Stored, update: bool, w: World)
    requires c.Valid() && stored in c.store.list && stored in c.store.destIds && qos <= 2
    modifies c`isDropping, c`lazyReconnect, (if dir == Outgoing then c.msgsOut else c.msgsIn), c.store
    ensures c.Valid() && c.Others() == old(c.Others())
    ensures var data := if dir == Outgoing then c.msgsOut else c.msgsIn;
            && data.View() == Inserted(c.cfg, old(c.Facts()), old(data.View()), dir,
                                       ClientMsg(stored, mid, qos, MsgState.Invalid, false, retain), qos,
                                       c.id in old(c.store.destIds[stored]), update, w.packets, w.packets2, w.send, w.now).1
            && data.stale == old(data.stale) && data.maximum == old(data.maximum)
  {
    hide c.Valid, c.Others, Inserted, Decide, Admitted, c.WakesBridge, Narrowed, c.Records;
    ghost var d := (if dir == Outgoing then c.msgsOut else c.msgsIn).View();
    InsertedKeepsStale(c.cfg, c.Facts(), d, dir, ClientMsg(stored, mid, qos, MsgState.Invalid, false, retain), qos,
                       c.id in c.store.destIds[stored], update, w.packets, w.packets2, w.send, w.now);
    var rc := c.MessageInsert(mid, dir, qos, retain, stored, update, w.packets, w.packets2, w.send, w.now);
  }

  method PerformInsert(c: Context, mid: uint16, dir: Direction, qos: nat, retain: bool, stored: Stored, update: bool, w: World)
    requires c.Valid() && stored in c.store.list && stored in c.store.destIds && qos <= 2
    modifies c, c.msgsIn, c.msgsOut, c.store
    ensures c.Valid() && c.Others() == old(c.Others()) && (old(c.Right()) ==> c.Right())
  {
    DistinctLists(c);
    hide c.Valid, c.Others, Inserted;
    InsertInto(c, mid, dir, qos, retain, stored, update, w);
  }

  method PerformRemoval(c: Context, mid: uint16)
    requires c.Valid()
    modifies c.msgsIn, c.store
    ensures c.Valid() && c.Others() == old(c.Others()) && (old(c.Right()) ==> c.Right())
  {
    DistinctLists(c);
    hide c.Valid, c.Others;
    var rc := c.MessageRemoveIncoming(mid);
  }

  method PerformQuota(c: Context, take: bool)
    requires c.Valid()
    modifies c.msgsIn
    ensures c.Valid() && c.Others() == old(c.Others()) && (old(c.Right()) ==> c.Right())
  {
    DistinctLists(c);
    hide c.Valid, c.Others;
    if take { c.TakeReceiveQuota(); } else { c.ReturnReceiveQuota(); }
  }

  method PerformLimit(c: Context, value: uint16)
    requires c.Valid()
    modifies c`peakOut, c.msgsOut
    ensures c.Valid() && c.Others() == old(c.Others()) && (old(c.Right()) ==> c.Right())
  {
    DistinctLists(c);
    hide c.Valid, c.Others;
    var rc := c.LimitOutgoing(value);
  }

  method PerformBridgeLimit(c: Context, value: uint16, w: World)
    requires c.Valid()
    modifies c`peakOut, c.msgsIn, c.msgsOut, c.store
    ensures c.Valid() && c.Others() == old(c.Others()) && (old(c.Right()) ==> c.Right())
  {
    hide c.Valid, c.Others, ResetOutgoing, ResetIncoming;
    ResetIsRight(c.cfg, c.msgsIn.View(), w.packets);
    ResetIsRight(c.cfg, c.msgsOut.View().(maximum := value), w.packets);
    c.LimitBridge(value, w.packets);
  }

  method PerformReset(c: Context, w: World)
    requires c.Valid()
    modifies c.msgsIn, c.msgsOut, c.store
    ensures c.Valid() && c.Others() == old(c.Others()) && c.Right()
  {
    hide c.Others, c.Attached, ResetOutgoing, ResetIncoming, Recount;
    ResetIsRight(c.cfg, c.msgsIn.View(), w.packets);
    ResetIsRight(c.cfg, c.msgsOut.View(), w.packets);
    c.ReconnectReset(w.packets);
  }

  method PerformCheck(c: Context, op: ClientOp)
    requires c.Valid() && op.CheckAcl?
    modifies c.msgsIn, c.msgsOut, c.store
    ensures c.Valid() && c.Others() == old(c.Others()) && (old(c.Right()) && Harmless(op) ==> c.Right())
  {
    hide c.Valid, c.Others, Checked;
    if Harmless(op) {
      CheckFindsNone(c.msgsIn.View(), op.deniedIn);
      CheckFindsNone(c.msgsOut.View(), op.deniedOut);
    }
    c.CheckAcl(op.deniedIn, op.deniedOut);
  }

  method PerformDelete(c: Context, forceFree: bool)
    requires c.Valid()
    modifies c.msgsIn, c.msgsOut, c.store
    ensures c.Valid() && c.Others() == old(c.Others()) && (old(c.Right()) ==> c.Right())
  {
    hide c.Valid, c.Others;
    c.MessagesDelete(forceFree);
  }

  method PerformAnswers(c: Context, w: World)
    requires c.Valid()
    modifies c.msgsIn
    ensures c.Valid() && c.Others() == old(c.Others()) && (old(c.Right()) ==> c.Right())
  {
    DistinctLists(c);
    hide c.Valid, c.Others, QueuedIn;
    QueuedInKeepsOrder(c.msgsIn.View(), 0, c.msgsOut.maximum, 0, w.send);
    var rc := c.MessageWriteQueuedIn(w.send);
  }

  method PerformWriteAll(c: Context, w: World)
    requires c.Valid()
    modifies c.msgsOut, c.store
    ensures c.Valid() && c.Others() == old(c.Others()) && (old(c.Right()) ==> c.Right())
  {
    DistinctLists(c);
    hide c.Valid, c.Others, WriteFrom;
    WriteKeepsStale(c.msgsOut.View(), 0, 0, w.send, w.now);
    var rc := c.WriteInflightOutAll(w.send, w.now);
  }

  method PerformWriteLatest(c: Context, w: World)
    requires c.Valid()
    modifies c.msgsOut, c.store
    ensures c.Valid() && c.Others() == old(c.Others()) && (old(c.Right()) ==> c.Right())
  {
    DistinctLists(c);
    hide c.Valid, c.Others, BrokerMsgs.WriteLatest;
    LatestKeepsStale(c.active && c.connected, c.msgsOut.View(), w.send, w.now);
    var rc := c.WriteInflightOutLatest(w.send, w.now);
  }

  method PerformPromotion(c: Context, w: World)
    requires c.Valid()
    modifies c.msgsOut
    ensures c.Valid() && c.Others() == old(c.Others()) && (old(c.Right()) ==> c.Right())
  {
    DistinctLists(c);
    hide c.Valid, c.Others, Promote;
    PromoteKeepsOrder(c.cfg, c.msgsOut.View(), w.packets);
    var rc := c.WriteQueuedOut(w.packets);
  }

  predicate NoMessages(c: Context)
    reads c.msgsIn, c.msgsOut
  {
    c.msgsIn.inflight == [] && c.msgsIn.queued == [] && c.msgsOut.inflight == [] && c.msgsOut.queued == []
  }

  lemma DistinctLists(c: Context)
    requires c.Valid()
    ensures c.msgsIn != c.msgsOut
  {
    c.Distinct();
  }

  /** An operation on the broker; clients are numbered. */
  datatype Op =
    | ForClient(i: nat, op: ClientOp)
    | StoreNew(payloadLen: uint32, qos: nat, interval: nat, sourceMid: uint16, hasTopic: bool)
    | Hold(stored: Stored)                                // an outside holder takes a reference
    | LetGo(stored: Stored)                               // and drops it
    | Route(stored: Stored, dests: seq<Dest>)
    | Publish(i: nat, publication: Publication, payloadLen: uint32, interval: nat, routed: Rc, dests: seq<Dest>)
    | Pubrel(i: nat, mid: uint16, parsed: Rc, audience: nat -> seq<Dest>, route: nat -> Rc, pubcomp: Rc)
    | Compact
    | Join(id: nat, mqtt5: bool, bridge: Bridge)
    | Login(found: nat, id: nat, mqtt5: bool, limit: Option<uint16>)   // a new connection takes over a session
    | Leave(i: nat)

  class Broker {
    const store: Store
    const cfg: Config
    /** The configured maximum of messages in flight. */
    const maximum: uint16
    var clients: seq<Context>
    /** What each client points at. */
    ghost var held: seq<multiset<Stored>>
    /** Other holders: retained messages, wills, callers in progress. */
    var outside: multiset<Stored>
    /** No permission check has deleted a message so far. */
    ghost var noneDenied: bool

    constructor (cfg: Config, maximum: uint16)
      ensures Valid() && fresh(store) && clients == [] && outside == multiset{} && noneDenied
    {
      store := new Store();
      this.cfg, this.maximum := cfg, maximum;
      clients, held, outside, noneDenied := [], [], multiset{}, true;
    }

    ghost function Data(): set<MsgData>
      reads `clients
    {
      (set c | c in clients :: c.msgsIn) + (set c | c in clients :: c.msgsOut)
    }

    static ghost predicate Separate(c: Context, d: Context) {
      c != d && {c.msgsIn, c.msgsOut} !! {d.msgsIn, d.msgsOut}
    }

    /** What every client shares with the broker; it never changes. */
    ghost predicate Mine(c: Context) {
      c.store == store && c.cfg == cfg && c.msgsIn != c.msgsOut
    }

    /** No two clients share lists. */
    ghost predicate Apart()
      reads `clients
    {
      AllApart(clients)
    }

    ghost predicate AllApart(cs: seq<Context>) {
      && (forall i :: 0 <= i < |cs| ==> Mine(cs[i]))
      && (forall i, j :: 0 <= i < j < |cs| ==> Separate(cs[i], cs[j]))
    }

    lemma StillApart(cs: seq<Context>, i: nat)
      requires AllApart(cs) && i < |cs|
      ensures AllApart(Cut(cs, i))
    {
      hide Cut;
      CutAt(cs, i);
    }

    ghost predicate CountedFor(c: Context, mine: multiset<Stored>)
      reads `noneDenied, c, c.msgsIn, c.msgsOut
    {
      && c.msgsIn.Counted() && c.msgsOut.Counted() && mine == c.Held()
      && c.Bounded() && (noneDenied ==> c.Right())
    }

    ghost predicate Counted(i: nat)
      requires i < |clients| == |held|
      reads `clients, `held, `noneDenied, clients[i], clients[i].msgsIn, clients[i].msgsOut
    {
      CountedFor(clients[i], held[i])
    }

    /**
     Every counter agrees with its list and with what is still counted, no queue exceeds its
     limit; every reference count is the number of client messages pointing at the message plus
     its outside holders; none of them points at a freed message.
     */
    ghost predicate Valid()
      reads this, store, clients, Data()
    {
      && Apart() && |held| == |clients|
      && (forall i :: 0 <= i < |clients| ==> Counted(i))
      && store.Valid() && store.holders == outside + Total(held)
    }

    lemma ClientIsValid(i: nat)
      requires Valid() && i < |clients|
      ensures clients[i].Valid() && Mine(clients[i]) && (noneDenied ==> clients[i].Right())
      ensures held[i] == clients[i].Held()
    {
      TotalHolds(held, i);
      assert Counted(i);
    }

    /** What holds for every client, spelled out: the counters and the limit of its queues. */
    lemma ClientInvariants(i: nat)
      requires Valid() && i < |clients|
      ensures var c := clients[i];
              && (noneDenied ==> c.msgsOut.InflightTally() == Recount(c.msgsOut.inflight))
              && (noneDenied ==> c.msgsOut.QueuedTally() == Recount(c.msgsOut.queued))
              && (noneDenied ==> c.msgsIn.InflightTally() == Recount(c.msgsIn.inflight))
              && (noneDenied ==> c.msgsIn.QueuedTally() == Recount(c.msgsIn.queued))
              && QueueBounded(cfg, c.msgsOut.queued, c.peakOut) && QueueBounded(cfg, c.msgsIn.queued, c.peakIn)
    {
      hide Recount, QueueBounded, Total;
      ClientIsValid(i);
      if noneDenied { clients[i].CountersAreRight(); }
    }

    /** A reference count spelled out. */
    lemma ReferenceCountIs(s: Stored)
      requires Valid() && s in store.list
      ensures store.refCount[s] == outside[s] + Total(held)[s]
    {
    }

    // ----- One client -----

    /** An operation on one client's lists leaves those of the others alone. */
    twostate lemma OthersCounted(i: nat)
      requires old(Valid()) && clients == old(clients) && held == old(held) && i < |clients|
      requires noneDenied ==> old(noneDenied)
      requires forall d :: d in Data() && d != clients[i].msgsIn && d != clients[i].msgsOut ==> unchanged(d)
      requires forall c :: c in clients && c != clients[i] ==> unchanged(c)
      ensures forall j :: 0 <= j < |clients| && j != i ==> Counted(j)
    {
      hide store.Valid, Total, Recount, Refs, QueueBounded;
      forall j | 0 <= j < |clients| && j != i
        ensures Counted(j)
      {
        assert old(Counted(j));
        var c := clients[j];
        assert c.msgsIn in Data() && c.msgsOut in Data();
        if j < i {
          assert Separate(c, clients[i]);
        } else {
          assert Separate(clients[i], c);
        }
      }
    }

    /** Books the change that an operation made to what one client points at. */
    ghost method Settle(i: nat, before: multiset<Stored>)
      requires Apart() && |held| == |clients| && i < |clients|
      requires forall j :: 0 <= j < |clients| && j != i ==> Counted(j)
      requires clients[i].Valid() && (noneDenied ==> clients[i].Right())
      requires before == outside + Total(held) && before - held[i] == clients[i].Others()
      modifies `held
      ensures Valid()
    {
      hide Recount, Refs, store.Valid, Total, QueueBounded;
      var mine := clients[i].Held();
      TotalHolds(held, i);
      TotalChanges(held, i, mine);
      Rebalance(before, store.holders, held[i], mine, outside, Total(held), Total(held[i := mine]));
      held := held[i := mine];
      forall j | 0 <= j < |clients|
        ensures Counted(j)
      {
        if j != i { assert old(Counted(j)); }
      }
    }

    method StepClient(i: nat, op: ClientOp, w: World)
      requires Valid() && i < |clients|
      modifies `held, `noneDenied, store, clients[i], clients[i].msgsIn, clients[i].msgsOut
      ensures Valid() && outside == old(outside)
      ensures noneDenied == (old(noneDenied) && Harmless(op))
    {
      hide Recount, Refs, store.Valid, Total, QueueBounded, Harmless;
      ClientIsValid(i);
      ghost var before := store.holders;
      Perform(clients[i], op, w);
      noneDenied := noneDenied && Harmless(op);
      OthersCounted(i);
      Settle(i, before);
    }

    // ----- The store -----

    lemma HolderIsListed(s: Stored)
      requires Valid() && s in store.holders
      ensures s in store.list && s in store.destIds
    {
    }

    method StoreNew(payloadLen: uint32, qos: nat, interval: nat, now: nat, sourceMid: uint16, hasTopic: bool)
      returns (s: Stored)
      requires Valid()
      modifies store
      ensures Valid() && s in store.list && store.holders == old(store.holders)
      ensures s == Stored(s.id, payloadLen, qos, if interval > 0 then now + interval else 0, sourceMid, hasTopic)
    {
      hide Recount, Refs, store.Valid, Total;
      s := store.MessageStore(payloadLen, qos, interval, now, sourceMid, hasTopic);
    }

    method TakeReference(s: Stored)
      requires Valid() && s in store.list
      modifies `outside, store
      ensures Valid() && outside == old(outside) + multiset{s} && s in store.list
    {
      hide Recount, Refs, store.Valid, Total;
      store.RefInc(s);
      Exchange(outside, multiset{s}, Total(held));
      Regroup(outside, multiset{s}, Total(held));
      outside := outside + multiset{s};
      HolderIsListed(s);
    }

    method DropReference(s: Stored)
      requires Valid() && s in outside
      modifies `outside, store
      ensures Valid() && outside == old(outside) - multiset{s}
    {
      hide Recount, Refs, store.Valid, Total;
      OutsideLess(outside, Total(held), s);
      store.RefDec(s);
      outside := outside - multiset{s};
    }

    method CompactStore()
      requires Valid()
      modifies store
      ensures Valid() && store.list == HeldOf(old(store.list), old(store.refCount))
    {
      hide Recount, Refs, store.Valid, Total;
      store.Compact();
    }

    // ----- Routing -----

    /** A message for one client: db__message_insert with update, on its outgoing lists. */
    method Deliver(i: nat, mid: uint16, qos: nat, retain: bool, s: Stored, w: World)
      requires Valid() && i < |clients| && s in store.list && s in store.destIds && qos <= 2
      modifies `held, store, clients[i], clients[i].msgsOut
      ensures Valid() && clients[i].Facts() == old(clients[i].Facts())
      ensures clients[i].msgsOut.maximum == old(clients[i].msgsOut.maximum)
      ensures clients[i].msgsOut.View() ==
              Inserted(cfg, old(clients[i].Facts()), old(clients[i].msgsOut.View()), Outgoing,
                       ClientMsg(s, mid, qos, MsgState.Invalid, false, retain), qos, clients[i].id in old(store.destIds[s]), true,
                       w.packets, w.packets2, w.send, w.now).1
    {
      hide Recount, Refs, store.Valid, Total, Inserted, Decide;
      ClientIsValid(i);
      ghost var before := store.holders;
      InsertInto(clients[i], mid, Outgoing, qos, retain, s, true, w);
      OthersCounted(i);
      Settle(i, before);
    }

    /**
     sub__messages_queue, seen from the store: a reference is taken, the message goes to some
     clients, and the reference is dropped. Incoming lists are not touched.
     */
    method RouteTo(s: Stored, dests: seq<Dest>)
      requires Valid() && s in store.list
      modifies `held, `outside, store, clients, Data()
      ensures Valid() && outside == old(outside)
      ensures forall j :: 0 <= j < |clients| ==> Receiving(clients[j]) == old(Receiving(clients[j]))
    {
      hide Valid, Refs, Recount, Inserted, Receiving;
      TakeReference(s);
      var k := 0;
      while k < |dests|
        invariant k <= |dests| && Valid() && outside == old(outside) + multiset{s}
        invariant forall j :: 0 <= j < |clients| ==> Receiving(clients[j]) == old(Receiving(clients[j]))
      {
        OutsideIsListed(s);
        RouteOne(s, dests[k]);
        k := k + 1;
      }
      DropReference(s);
      AddedAndTaken(old(outside), s);
    }

    /** What routing a message to a client does not change. */
    static ghost function Receiving(c: Context): (Client, uint16, Lists)
      reads c, c.msgsOut, c.msgsIn
    {
      (c.Facts(), c.msgsOut.maximum, c.msgsIn.View())
    }

    method RouteOne(s: Stored, dest: Dest)
      requires Valid() && s in store.list && s in store.destIds
      modifies `held, store, clients, Data()
      ensures Valid()
      ensures forall j :: 0 <= j < |clients| ==> Receiving(clients[j]) == old(Receiving(clients[j]))
    {
      hide Valid, Refs, Recount, Inserted;
      if dest.client < |clients| && dest.qos <= 2 {
        ClientsApart(dest.client);
        Deliver(dest.client, dest.mid, dest.qos, dest.retain, s, dest.world);
      }
    }

    lemma OutsideIsListed(s: Stored)
      requires Valid() && s in outside
      ensures s in store.list && s in store.destIds
    {
      HolderIsListed(s);
    }

    lemma ClientsApart(i: nat)
      requires Valid() && i < |clients|
      ensures clients[i].msgsOut in Data() && clients[i].msgsIn in Data()
      ensures forall j :: 0 <= j < |clients| ==> clients[j].msgsIn != clients[i].msgsOut
      ensures forall j :: 0 <= j < |clients| && j != i ==> clients[j] != clients[i] && clients[j].msgsOut != clients[i].msgsOut
    {
      forall j | 0 <= j < |clients|
        ensures clients[j].msgsIn != clients[i].msgsOut
        ensures j != i ==> clients[j] != clients[i] && clients[j].msgsOut != clients[i].msgsOut
      {
        if j < i { assert Separate(clients[j], clients[i]); }
        if i < j { assert Separate(clients[i], clients[j]); }
      }
    }

    // ----- PUBREL -----

    method DropIncoming(i: nat, k: nat)
      requires Valid() && i < |clients| && k < |clients[i].msgsIn.inflight|
      modifies `held, store, clients[i].msgsIn
      ensures Valid()
      ensures clients[i].msgsIn.View() ==
              old(clients[i].msgsIn.View()).(inflight := Without(old(clients[i].msgsIn.inflight), k))
    {
      hide Recount, Refs, store.Valid, Total, Without;
      ClientIsValid(i);
      ghost var before := store.holders;
      clients[i].DropIncoming(k);
      OthersCounted(i);
      Settle(i, before);
    }

    method ReleaseQueued(i: nat)
      requires Valid() && i < |clients|
      modifies `held, clients[i].msgsIn
      ensures Valid()
      ensures clients[i].msgsIn.View() == ReleaseQueue(cfg, old(clients[i].msgsIn.View()), 0, 0)
    {
      hide Recount, Refs, store.Valid, Total, ReleaseQueue;
      ClientIsValid(i);
      ghost var before := store.holders;
      ReleaseKeepsOrder(cfg, clients[i].msgsIn.View(), 0, 0);
      clients[i].ReleaseQueued();
      OthersCounted(i);
      Settle(i, before);
    }

    lemma IncomingIsListed(i: nat, k: nat)
      requires Valid() && i < |clients| && k < |clients[i].msgsIn.inflight|
      ensures clients[i].msgsIn.inflight[k].store in store.list
    {
      hide Total, Recount;
      ClientIsValid(i);
      RefAt(clients[i].msgsIn.inflight, k);
      HolderIsListed(clients[i].msgsIn.inflight[k].store);
    }

    /** Routes one held message, unless it was denied, and takes it out of flight. */
    method ReleaseOne(i: nat, k: nat, routed: Rc, dests: seq<Dest>) returns (rc: Rc)
      requires Valid() && i < |clients| && k < |clients[i].msgsIn.inflight|
      modifies `held, `outside, store, clients, Data()
      ensures Valid() && outside == old(outside)
      ensures var d := old(clients[i].msgsIn.View());
              (rc, clients[i].msgsIn.View()) ==
              if d.inflight[k].store.hasTopic && routed != Success then (Nomem, d)
              else (Success, d.(inflight := Without(d.inflight, k)))
    {
      hide Valid, Refs, Recount, Without;
      ClientsApart(i);
      var m := clients[i].msgsIn.inflight[k];
      if m.store.hasTopic {
        IncomingIsListed(i, k);
        RouteTo(m.store, dests);
        if routed != Success { return Nomem; }
      }
      DropIncoming(i, k);
      return Success;
    }

    /** The in-flight loop; audience(n) are the clients the n-th released message goes to. */
    method TakeIncoming(i: nat, mid: uint16, route: nat -> Rc, audience: nat -> seq<Dest>)
      returns (rc: Rc, deleted: bool)
      requires Valid() && i < |clients|
      modifies `held, `outside, store, clients, Data()
      ensures Valid() && outside == old(outside)
      ensures var t := TakeAll(old(clients[i].msgsIn.inflight), mid, route, 0);
              && (rc, deleted) == (t.rc, t.deleted)
              && clients[i].msgsIn.View() == old(clients[i].msgsIn.View()).(inflight := t.left)
    {
      hide Valid, Data, Refs, Recount, Inserted, TakeAll, TakenSoFar, Without;
      var data := clients[i].msgsIn;
      ghost var before := data.View();
      ghost var all := TakeAll(data.inflight, mid, route, 0);
      ghost var kept: seq<ClientMsg>, rest := [], data.inflight;
      TakeStart(data.inflight, mid, route);
      var n: nat := 0;
      deleted := false;
      var k: nat := 0;
      while k < |data.inflight|
        invariant Valid() && outside == old(outside) && k == |kept|
        invariant data.View() == before.(inflight := data.inflight)
        invariant TakenSoFar(all, data.inflight, kept, deleted, rest, mid, route, n)
        decreases |rest|
      {
        TakeNext(all, data.inflight, kept, deleted, rest, mid, route, n);
        var m := data.inflight[k];
        if m.mid == mid {
          if m.store.qos != 2 { return Protocol, deleted; }
          rc := ReleaseOne(i, k, route(n), audience(n));
          if rc != Success { return; }
          if m.store.hasTopic { n := n + 1; }
          deleted := true;
        } else {
          kept := kept + [m];
          k := k + 1;
        }
        rest := rest[1..];
      }
      TakeLast(all, data.inflight, kept, deleted, rest, mid, route, n);
      rc := Success;
    }

    /** db__message_release_incoming. */
    method ReleaseIncoming(i: nat, mid: uint16, route: nat -> Rc, audience: nat -> seq<Dest>) returns (rc: Rc)
      requires Valid() && i < |clients|
      modifies `held, `outside, store, clients, Data()
      ensures Valid() && outside == old(outside)
      ensures (rc, clients[i].msgsIn.View())
              == BrokerMsgs.ReleaseIncoming(cfg, old(clients[i].msgsIn.View()), mid, route)
    {
      hide Valid, Refs, Recount, TakeAll, ReleaseQueue;
      var deleted;
      rc, deleted := TakeIncoming(i, mid, route, audience);
      if rc != Success { return; }
      ClientsApart(i);
      ReleaseQueued(i);
      rc := if deleted then Success else NotFound;
    }

    method TakeQuota(i: nat)
      requires Valid() && i < |clients|
      modifies `held, clients[i].msgsIn
      ensures Valid()
      ensures clients[i].msgsIn.View() == old(clients[i].msgsIn.View()).(quota := Decrement(old(clients[i].msgsIn.quota)))
    {
      hide Recount, Refs, store.Valid, Total, QueueBounded;
      ClientIsValid(i);
      ghost var before := store.holders;
      clients[i].TakeReceiveQuota();
      OthersCounted(i);
      Settle(i, before);
    }

    method ReturnQuota(i: nat)
      requires Valid() && i < |clients|
      modifies `held, clients[i].msgsIn
      ensures Valid() && clients[i].msgsIn.View() == Returned(old(clients[i].msgsIn.View()))
    {
      hide Recount, Refs, store.Valid, Total, QueueBounded;
      ClientIsValid(i);
      ghost var before := store.holders;
      clients[i].ReturnReceiveQuota();
      OthersCounted(i);
      Settle(i, before);
    }

    /** handle__pubrel: sending the PUBCOMP returns the quota, also for an unknown identifier. */
    method HandlePubrel(i: nat, mid: uint16, parsed: Rc, route: nat -> Rc, audience: nat -> seq<Dest>, pubcomp: Rc)
      returns (rc: Rc)
      requires Valid() && i < |clients|
      modifies `held, `outside, store, clients, Data()
      ensures Valid() && outside == old(outside)
      ensures (rc, clients[i].msgsIn.View())
              == Completed(cfg, old(clients[i].active), old(clients[i].msgsIn.View()), mid, parsed, route, pubcomp)
    {
      hide Valid, Refs, Recount, BrokerMsgs.ReleaseIncoming;
      if !clients[i].active { return Protocol; }
      if parsed != Success { return parsed; }
      rc := ReleaseIncoming(i, mid, route, audience);
      if rc != NotFound && rc != Success { return; }
      ClientsApart(i);
      ReturnQuota(i);
      return pubcomp;
    }

    // ----- PUBLISH -----

    method ClearReused(i: nat, mid: uint16)
      requires Valid() && i < |clients|
      modifies `held, store, clients[i].msgsIn
      ensures Valid() && clients[i].msgsIn.View() == RemovedIncoming(old(clients[i].msgsIn.View()), mid).1
    {
      hide Recount, Refs, store.Valid, Total, QueueBounded, Without;
      ClientIsValid(i);
      ghost var before := store.holders;
      var rc := clients[i].MessageRemoveIncoming(mid);
      OthersCounted(i);
      Settle(i, before);
    }

    /** db__message_insert on the incoming lists. */
    method InsertIncoming(i: nat, s: Stored, retain: bool)
      requires Valid() && i < |clients| && s in store.list && s.qos == 2
      modifies `held, store, clients[i], clients[i].msgsIn
      ensures Valid() && clients[i].Facts() == old(clients[i].Facts())
      ensures clients[i].msgsIn.View() ==
              Inserted(cfg, old(clients[i].Facts()), old(clients[i].msgsIn.View()), Incoming,
                       ClientMsg(s, s.sourceMid, 2, MsgState.Invalid, false, retain), 2, false, false, 0, 0, _ => Success, 0).1
    {
      hide Recount, Refs, store.Valid, Total, Inserted, Decide;
      ClientIsValid(i);
      ListedIsKnown(s);
      ghost var before := store.holders;
      var w := World(0, 0, _ => Success, 0);
      ghost var m := ClientMsg(s, s.sourceMid, 2, MsgState.Invalid, false, retain);
      IncomingIgnores(cfg, clients[i].Facts(), clients[i].msgsIn.View(), m, 2, clients[i].id in store.destIds[s], w.send);
      InsertInto(clients[i], s.sourceMid, Incoming, 2, retain, s, false, w);
      OthersCounted(i);
      Settle(i, before);
    }

    lemma ListedIsKnown(s: Stored)
      requires Valid() && s in store.list
      ensures s in store.destIds
    {
    }

    method AnswerQueued(i: nat, send: nat -> Rc)
      requires Valid() && i < |clients|
      modifies `held, clients[i].msgsIn
      ensures Valid()
      ensures clients[i].msgsIn.View() ==
              if !clients[i].active then old(clients[i].msgsIn.View())
              else QueuedIn(old(clients[i].msgsIn.View()), 0, clients[i].msgsOut.maximum, 0, send).1
    {
      hide Recount, Refs, store.Valid, Total, QueueBounded, QueuedIn;
      ClientIsValid(i);
      ghost var before := store.holders;
      QueuedInKeepsOrder(clients[i].msgsIn.View(), 0, clients[i].msgsOut.maximum, 0, send);
      var rc := clients[i].MessageWriteQueuedIn(send);
      OthersCounted(i);
      Settle(i, before);
    }

    lemma HeldIsListed(i: nat, k: nat)
      requires Valid() && i < |clients|
      requires var d := clients[i].msgsIn; k < |d.inflight + d.queued|
      ensures var d := clients[i].msgsIn; (d.inflight + d.queued)[k].store in store.list
    {
      hide Total, Recount;
      ClientIsValid(i);
      var d := clients[i].msgsIn;
      RefAt(d.inflight + d.queued, k);
      RefsConcat(d.inflight, d.queued);
      HolderIsListed((d.inflight + d.queued)[k].store);
    }

    /** The switch of handle__publish on the QoS of the stored message. */
    method Accept(i: nat, p: Publication, s: Stored, dup: bool, acked: bool, dests: seq<Dest>)
      requires Valid() && i < |clients| && s in store.list
      modifies `held, `outside, store, clients, Data()
      ensures Valid() && outside == old(outside)
      ensures clients[i].msgsIn.View() == Accepted(cfg, old(clients[i].Facts()), old(clients[i].msgsIn.View()), p, s, dup, acked)
      ensures clients[i].Facts() == old(clients[i].Facts()) && clients[i].msgsOut.maximum == old(clients[i].msgsOut.maximum)
    {
      hide Valid, Data, Refs, Recount, Inserted;
      ClientsApart(i);
      match s.qos {
        case 0 => RouteTo(s, dests);
        case 1 =>
          TakeQuota(i);
          RouteTo(s, dests);
          ClientsApart(i);
          if acked { ReturnQuota(i); }
        case 2 =>
          if !dup { InsertIncoming(i, s, p.retain); }
        case _ =>
      }
    }

    method FindStored(i: nat, mid: uint16) returns (found: Option<Stored>)
      requires Valid() && i < |clients|
      ensures Valid() && (found.Some? ==> found.value in store.list)
      ensures var all := clients[i].msgsIn.inflight + clients[i].msgsIn.queued;
              var k := FindSource(all, mid);
              found == if k < |all| then Some(all[k].store) else None
    {
      hide Recount, Refs, store.Valid, Total;
      ghost var all := clients[i].msgsIn.inflight + clients[i].msgsIn.queued;
      if FindSource(all, mid) < |all| { HeldIsListed(i, FindSource(all, mid)); }
      var rc;
      rc, found := clients[i].MessageStoreFind(mid);
    }

    /** The stored message that this packet repeats; another one under its identifier is cleared away. */
    method Recognise(i: nat, p: Publication) returns (stored: Option<Stored>)
      requires Valid() && i < |clients|
      modifies `held, store, clients[i].msgsIn
      ensures Valid() && (stored.Some? ==> stored.value in store.list)
      ensures stored == Recognised(old(clients[i].msgsIn.View()), p)
      ensures clients[i].msgsIn.View() == Cleared(old(clients[i].msgsIn.View()), p)
    {
      hide Valid, Refs, Recount, RemovedIncoming;
      stored := None;
      if p.qos > 0 {
        stored := FindStored(i, p.mid);
      }
      if stored.Some? && p.mid != 0 && !p.same(stored.value) {
        ClearReused(i, p.mid);
        stored := None;
      }
    }

    /**
     handle__publish, once the packet is decoded and allowed; routed is the result of
     sub__messages_queue, newest the message stored for this packet, if one is.
     */
    method HandlePublish(i: nat, p: Publication, payloadLen: uint32, interval: nat, now: nat,
                         routed: Rc, dests: seq<Dest>, send: nat -> Rc)
      returns (rc: Rc, ghost newest: Stored)
      requires Valid() && i < |clients| && p.qos <= 2
      modifies `held, `outside, store, clients, Data()
      ensures Valid() && outside == old(outside)
      ensures newest == Stored(newest.id, payloadLen, p.qos, if interval > 0 then now + interval else 0, p.mid, true)
      ensures var acked := routed == Success || !clients[i].mqtt5 || routed == NoSubscribers;
              clients[i].msgsIn.View() ==
              Arrived(cfg, old(clients[i].Facts()), old(clients[i].msgsIn.View()), p, newest, acked,
                      old(clients[i].msgsOut.maximum), send)
    {
      hide Valid, Refs, Recount, ArrivedNew, Accepted, QueuedIn, Cleared, Recognised;
      newest := Stored(0, payloadLen, p.qos, if interval > 0 then now + interval else 0, p.mid, true);
      if !clients[i].active { return Protocol, newest; }
      ClientsApart(i);
      var acked := routed == Success || !clients[i].mqtt5 || routed == NoSubscribers;
      var stored := Recognise(i, p);
      if stored.Some? {
        AcceptAndAnswer(i, p, stored.value, true, acked, dests, send);
        return Success, newest;
      }
      rc, newest := PublishNew(i, p, payloadLen, interval, now, acked, dests, send);
    }

    method PublishNew(i: nat, p: Publication, payloadLen: uint32, interval: nat, now: nat,
                      acked: bool, dests: seq<Dest>, send: nat -> Rc)
      returns (rc: Rc, ghost newest: Stored)
      requires Valid() && i < |clients| && clients[i].active
      modifies `held, `outside, store, clients, Data()
      ensures Valid() && outside == old(outside)
      ensures newest == Stored(newest.id, payloadLen, p.qos, if interval > 0 then now + interval else 0, p.mid, true)
      ensures clients[i].msgsIn.View() ==
              ArrivedNew(cfg, old(clients[i].Facts()), old(clients[i].msgsIn.View()), p, newest, acked,
                         old(clients[i].msgsOut.maximum), send)
    {
      hide Valid, Refs, Recount, MayStore, Accepted, QueuedIn;
      var ok := MayTake(i, p.qos);
      if !ok {
        ClientsApart(i);
        RefusePublish(i, p);
        return Nomem, Stored(0, payloadLen, p.qos, if interval > 0 then now + interval else 0, p.mid, true);
      }
      var s := StoreNew(payloadLen, p.qos, interval, now, p.mid, true);
      AcceptAndAnswer(i, p, s, false, acked, dests, send);
      return Success, s;
    }

    /** A PUBACK or PUBREC that refuses the message: in MQTT 3 a PUBREC cannot, and returns no quota. */
    method RefusePublish(i: nat, p: Publication)
      requires Valid() && i < |clients|
      modifies `held, clients[i].msgsIn
      ensures Valid()
      ensures clients[i].msgsIn.View() ==
              if p.qos == 1 || (p.qos == 2 && clients[i].mqtt5) then Returned(old(clients[i].msgsIn.View()))
              else old(clients[i].msgsIn.View())
    {
      hide Valid;
      if p.qos == 1 || (p.qos == 2 && clients[i].mqtt5) { ReturnQuota(i); }
    }

    method AcceptAndAnswer(i: nat, p: Publication, s: Stored, dup: bool, acked: bool, dests: seq<Dest>, send: nat -> Rc)
      requires Valid() && i < |clients| && s in store.list && clients[i].active
      modifies `held, `outside, store, clients, Data()
      ensures Valid() && outside == old(outside)
      ensures clients[i].msgsIn.View() ==
              QueuedIn(Accepted(cfg, old(clients[i].Facts()), old(clients[i].msgsIn.View()), p, s, dup, acked), 0,
                       old(clients[i].msgsOut.maximum), 0, send).1
    {
      hide Valid, Refs, Recount, Accepted, QueuedIn;
      Accept(i, p, s, dup, acked, dests);
      ClientsApart(i);
      AnswerQueued(i, send);
    }

    method MayTake(i: nat, qos: nat) returns (ok: bool)
      requires Valid() && i < |clients|
      ensures ok == MayStore(cfg, clients[i].connected, clients[i].msgsIn.View(), qos)
    {
      hide Recount, Refs, store.Valid, Total, MayStore;
      ClientIsValid(i);
      ok := clients[i].MayTake(qos);
    }

    // ----- Clients come and go -----

    /** context__init. */
    method Join(id: nat, mqtt5: bool, bridge: Bridge) returns (c: Context)
      requires Valid()
      modifies `clients, `held
      ensures Valid() && fresh(c) && fresh(c.msgsIn) && fresh(c.msgsOut) && clients == old(clients) + [c]
      ensures c.msgsIn.View() == c.msgsOut.View() == Exact([], [], maximum, maximum)
    {
      hide Recount, Refs, store.Valid, Total, QueueBounded;
      c := new Context(id, store, cfg, mqtt5, bridge, maximum);
      AddClient(c);
    }

    method AddClient(c: Context)
      requires Valid() && Mine(c) && c.Valid() && c.Right() && c.Held() == multiset{}
      requires forall i :: 0 <= i < |clients| ==> Separate(clients[i], c)
      modifies `clients, `held
      ensures Valid() && clients == old(clients) + [c]
    {
      hide Recount, Refs, store.Valid, Total, QueueBounded;
      TotalAppend(held, multiset{});
      clients := clients + [c];
      held := held + [multiset{}];
      forall i | 0 <= i < |clients|
        ensures Counted(i)
      {
        if i < |clients| - 1 { assert old(Counted(i)); }
      }
    }

    method DeleteMessages(i: nat)
      requires Valid() && i < |clients|
      modifies `held, store, clients[i].msgsIn, clients[i].msgsOut
      ensures Valid()
      ensures AllRefs(clients[i].msgsIn.View()) == AllRefs(clients[i].msgsOut.View()) == multiset{}
    {
      hide Recount, Refs, store.Valid, Total, QueueBounded;
      ClientIsValid(i);
      ghost var before := store.holders;
      clients[i].MessagesDelete(true);
      NoRefs(clients[i].msgsIn.View());
      NoRefs(clients[i].msgsOut.View());
      OthersCounted(i);
      Settle(i, before);
    }

    /** A client is freed: its messages first, then the client. */
    method FreeClient(i: nat)
      requires Valid() && i < |clients|
      modifies `clients, `held, store, clients[i].msgsIn, clients[i].msgsOut
      ensures Valid() && clients == Cut(old(clients), i) && outside == old(outside)
    {
      hide Valid, AllRefs;
      DeleteMessages(i);
      Leave(i);
    }

    lemma HoldsNone(i: nat)
      requires Valid() && i < |clients| && AllRefs(clients[i].msgsIn.View()) == AllRefs(clients[i].msgsOut.View()) == multiset{}
      ensures held[i] == multiset{}
    {
      hide AllRefs, store.Valid, Total;
      assert Counted(i);
    }

    /** A client that points at nothing leaves the list. */
    method Leave(i: nat)
      requires Valid() && i < |clients| && AllRefs(clients[i].msgsIn.View()) == AllRefs(clients[i].msgsOut.View()) == multiset{}
      modifies `clients, `held
      ensures Valid() && clients == Cut(old(clients), i)
    {
      hide AllRefs, store.Valid, Total, CountedFor, Cut, AllApart;
      HoldsNone(i);
      StillApart(clients, i);
      TotalWithout(held, i);
      CutAt(clients, i);
      CutAt(held, i);
      clients := Cut(clients, i);
      held := Cut(held, i);
      forall j | 0 <= j < |clients|
        ensures Counted(j)
      {
        assert old(Counted(if j < i then j else j + 1));
      }
    }

    // ----- A session changes hands -----

    twostate predicate Untouched(k: nat)
      requires clients == old(clients) && k < |clients|
      reads this, clients[k], clients[k].msgsIn, clients[k].msgsOut
    {
      unchanged(clients[k]) && unchanged(clients[k].msgsIn) && unchanged(clients[k].msgsOut)
    }

    /** Some clients' lists change, those of the others do not. */
    twostate lemma RestCounted(touched: set<nat>)
      requires old(Valid()) && clients == old(clients) && held == old(held) && (noneDenied ==> old(noneDenied))
      requires forall k :: 0 <= k < |clients| && k !in touched ==> Untouched(k)
      ensures forall k :: 0 <= k < |clients| && k !in touched ==> Counted(k)
    {
      hide store.Valid, Total, Recount, Refs, QueueBounded;
      forall k | 0 <= k < |clients| && k !in touched
        ensures Counted(k)
      {
        assert old(Counted(k)) && Untouched(k);
      }
    }

    lemma TwoApart(i: nat, j: nat)
      requires Apart() && i < |clients| && j < |clients| && i != j
      ensures Separate(clients[i], clients[j])
    {
      if j < i { assert Separate(clients[j], clients[i]); }
    }

    /** Books that one client now points at what another pointed at. */
    ghost method SettleMove(i: nat, j: nat)
      requires Apart() && |held| == |clients| && i < |clients| && j < |clients| && i != j
      requires forall k :: 0 <= k < |clients| && k != i && k != j ==> Counted(k)
      requires clients[i].Valid() && clients[j].Valid()
      requires noneDenied ==> clients[i].Right() && clients[j].Right()
      requires held[i] == multiset{} == clients[j].Held() && held[j] == clients[i].Held()
      requires store.holders == outside + Total(held)
      modifies `held
      ensures Valid()
    {
      hide AllRefs, store.Valid, Total, QueueBounded, InflightCount, QueuedCount;
      TotalMoves(held, i, j);
      held := held[i := held[j]][j := multiset{}];
      forall k | 0 <= k < |clients|
        ensures Counted(k)
      {
        if k != i && k != j { assert old(Counted(k)); }
      }
    }

    method MoveSession(i: nat, j: nat)
      requires Valid() && i < |clients| && j < |clients| && i != j && NoMessages(clients[i])
      modifies `held, clients[i]
      modifies clients[i].msgsIn, clients[i].msgsOut, clients[j].msgsIn, clients[j].msgsOut
      ensures Valid()
      ensures clients[i].msgsIn.View() == Inherited(old(clients[i].msgsIn.View()), old(clients[j].msgsIn.View()))
      ensures clients[i].msgsOut.View() == Inherited(old(clients[i].msgsOut.View()), old(clients[j].msgsOut.View()))
      ensures clients[j].msgsIn.View() == clients[j].msgsOut.View() == Exact([], [], 0, 0)
    {
      hide AllRefs, store.Valid, Total, QueueBounded, InflightCount, QueuedCount;
      ClientIsValid(i);
      ClientIsValid(j);
      TwoApart(i, j);
      HoldsNothing(clients[i]);
      forall k | 0 <= k < |clients| && k != i && k != j
        ensures Separate(clients[k], clients[i]) && Separate(clients[k], clients[j])
      {
        TwoApart(k, i);
        TwoApart(k, j);
      }
      clients[i].MoveFrom(clients[j]);
      RestCounted({i, j});
      SettleMove(i, j);
    }

    method ResetClient(i: nat, packets: int)
      requires Valid() && i < |clients|
      modifies `held, store, clients[i].msgsIn, clients[i].msgsOut
      ensures Valid()
      ensures clients[i].msgsIn.View() == ResetIncoming(cfg, old(clients[i].msgsIn.View()), packets)
      ensures clients[i].msgsOut.View() == ResetOutgoing(cfg, old(clients[i].msgsOut.View()), packets)
    {
      hide Recount, Refs, store.Valid, Total, QueueBounded, ResetIncoming, ResetOutgoing;
      ClientIsValid(i);
      ghost var before := store.holders;
      ResetIsRight(cfg, clients[i].msgsIn.View(), packets);
      ResetIsRight(cfg, clients[i].msgsOut.View(), packets);
      clients[i].ReconnectReset(packets);
      OthersCounted(i);
      Settle(i, before);
    }

    /** A session with messages moves to a new client, which is then reset. */
    method TakeOver(i: nat, j: nat, packets: int)
      requires Valid() && i < |clients| && j < |clients| && i != j
      requires NoMessages(clients[i])
      modifies `held, store, clients[i], clients[i].msgsIn, clients[i].msgsOut, clients[j].msgsIn, clients[j].msgsOut
      ensures Valid()
      ensures var (c, d) := (clients[i], clients[j]);
              var some := old(!NoMessages(d));
              && c.msgsIn.View() == (if some then ResetIncoming(cfg, Inherited(old(c.msgsIn.View()), old(d.msgsIn.View())), packets)
                                     else old(c.msgsIn.View()))
              && c.msgsOut.View() == (if some then ResetOutgoing(cfg, Inherited(old(c.msgsOut.View()), old(d.msgsOut.View())), packets)
                                      else old(c.msgsOut.View()))
              && (some ==> d.msgsIn.View() == d.msgsOut.View() == Exact([], [], 0, 0))
    {
      hide Valid, ResetIncoming, ResetOutgoing;
      var d := clients[j];
      if NoMessages(d) { return; }
      TwoSeparate(i, j);
      MoveSession(i, j);
      ResetClient(i, packets);
    }

    lemma TwoSeparate(i: nat, j: nat)
      requires Valid() && i < |clients| && j < |clients| && i != j
      ensures Separate(clients[i], clients[j])
    {
      TwoApart(i, j);
    }

    method LimitClient(i: nat, value: uint16) returns (rc: Rc)
      requires Valid() && i < |clients|
      modifies `held, clients[i], clients[i].msgsOut
      ensures Valid()
      ensures (rc, clients[i].msgsOut.View()) ==
              if value == 0 then (Protocol, old(clients[i].msgsOut.View()))
              else (Success, old(clients[i].msgsOut.View()).(maximum := value, quota := value))
    {
      hide Recount, Refs, store.Valid, Total, QueueBounded;
      ClientIsValid(i);
      ghost var before := store.holders;
      rc := clients[i].LimitOutgoing(value);
      OthersCounted(i);
      Settle(i, before);
    }

    /** A new connection, which may announce a Receive Maximum. */
    method Connect(id: nat, mqtt5: bool, limit: Option<uint16>) returns (rc: Rc)
      requires Valid()
      modifies `clients, `held
      ensures Valid() && |clients| == |old(clients)| + 1 && clients[..|old(clients)|] == old(clients)
      ensures var c := clients[|old(clients)|];
              fresh(c) && fresh(c.msgsIn) && fresh(c.msgsOut) && NoMessages(c) && Data() == old(Data()) + {c.msgsIn, c.msgsOut}
    {
      hide Valid;
      var c := Join(id, mqtt5, NoBridge);
      if limit.None? { return Success; }
      ClientsApart(|clients| - 1);
      rc := LimitClient(|clients| - 1, limit.value);
    }

    /** A new connection takes over the session of client found. */
    method Login(found: nat, id: nat, mqtt5: bool, limit: Option<uint16>, packets: int)
      requires Valid()
      modifies `clients, `held, store, Data()
      ensures Valid() && OldOrFresh(old(clients), old(Data()))
    {
      hide Valid, Data, Refs, Recount, ResetIncoming, ResetOutgoing, NoMessages, Inherited;
      var i := |clients|;
      var rc := Connect(id, mqtt5, limit);
      if rc != Success || found >= i { return; }
      TwoSeparate(i, found);
      ClientsApart(found);
      TakeOver(i, found, packets);
    }

    // ----- Runs -----

    /** Every client and every list was there before, or is new. */
    twostate predicate OldOrFresh(before: seq<Context>, data: set<MsgData>)
      reads this
    {
      && (forall i :: 0 <= i < |clients| ==> clients[i] in before || fresh(clients[i]))
      && (forall d :: d in Data() ==> d in data || fresh(d))
    }

    /** An operation after which no counter can be wrong that was right. */
    static ghost predicate Innocent(op: Op) { op.ForClient? ==> Harmless(op.op) }

    method Step(op: Op, w: World)
      requires Valid()
      modifies this, store, clients, Data()
      ensures Valid() && OldOrFresh(old(clients), old(Data()))
      ensures old(noneDenied) && Innocent(op) ==> noneDenied
    {
      hide Valid, Refs, Recount, Inserted, Arrived, Completed, Harmless;
      match op {
        case ForClient(i, clientOp) =>
          if i < |clients| {
            ClientsApart(i);
            StepClient(i, clientOp, w);
          }
        case StoreNew(payloadLen, qos, interval, sourceMid, hasTopic) =>
          var s := StoreNew(payloadLen, qos, interval, w.now, sourceMid, hasTopic);
        case Hold(stored) =>
          if stored in store.list { TakeReference(stored); }
        case LetGo(stored) =>
          if stored in outside { DropReference(stored); }
        case Route(stored, dests) =>
          if stored in store.list { RouteTo(stored, dests); }
        case Publish(i, publication, payloadLen, interval, routed, dests) =>
          if i < |clients| && publication.qos <= 2 {
            var rc, newest := HandlePublish(i, publication, payloadLen, interval, w.now, routed, dests, w.send);
          }
        case Pubrel(i, mid, parsed, audience, route, pubcomp) =>
          if i < |clients| { var rc := HandlePubrel(i, mid, parsed, route, audience, pubcomp); }
        case Compact => CompactStore();
        case Join(id, mqtt5, bridge) => var c := Join(id, mqtt5, bridge);
        case Login(found, id, mqtt5, limit) => Login(found, id, mqtt5, limit, w.packets);
        case Leave(i) =>
          if i < |clients| {
            ClientsApart(i);
            FreeClient(i);
          }
      }
    }

    /**
     Every sequence of operations keeps every reference count right and every queue within its
     limit, and the counters too if no permission check denies anything.
     */
    method Run(ops: seq<Op>, w: nat -> World)
      requires Valid()
      modifies this, store, clients, Data()
      ensures Valid()
      ensures old(noneDenied) && (forall k :: 0 <= k < |ops| ==> Innocent(ops[k])) ==> noneDenied
    {
      hide Valid, Innocent;
      for k := 0 to |ops|
        invariant Valid()
        invariant forall i :: 0 <= i < |clients| ==> clients[i] in old(clients) || fresh(clients[i])
        invariant forall d :: d in Data() ==> d in old(Data()) || fresh(d)
        invariant old(noneDenied) && (forall j :: 0 <= j < k ==> Innocent(ops[j])) ==> noneDenied
      {
        Step(ops[k], w(k));
      }
    }
  }

  /** A message from a client goes in whatever has been sent to that client, and nothing is sent. */
  lemma IncomingIgnores(cfg: Config, c: Client, d: Lists, m: ClientMsg, qos: nat, alreadySent: bool, send: nat -> Rc)
    ensures Inserted(cfg, c, d, Incoming, m, qos, alreadySent, false, 0, 0, send, 0).1
            == Inserted(cfg, c, d, Incoming, m, qos, false, false, 0, 0, _ => Success, 0).1
  {
    hide PlaceFor;
  }

  /** What one client points at becomes what another points at. */
  lemma TotalMoves(held: seq<multiset<Stored>>, i: nat, j: nat)
    requires i < |held| && j < |held| && i != j && held[i] == multiset{}
    ensures Total(held[i := held[j]][j := multiset{}]) == Total(held)
  {
    hide Total;
    var given := held[i := held[j]];
    TotalChanges(held, i, held[j]);
    TotalChanges(given, j, multiset{});
    Cancelled(Total(given[j := multiset{}]), Total(held), held[j]);
  }

  lemma Cancelled(a: multiset<Stored>, b: multiset<Stored>, c: multiset<Stored>)
    requires a + c == b + c
    ensures a == b
  {
    forall s
      ensures a[s] == b[s]
    {
      assert (a + c)[s] == (b + c)[s];
    }
  }

  lemma HoldsNothing(c: Context)
    requires NoMessages(c)
    ensures c.Held() == multiset{}
  {
    NoRefs(c.msgsIn.View());
    NoRefs(c.msgsOut.View());
  }

  lemma NoRefs(d: Lists)
    requires d.inflight == [] && d.queued == []
    ensures AllRefs(d) == multiset{}
  {
  }

  lemma {:induction false} TotalAppend(held: seq<multiset<Stored>>, h: multiset<Stored>)
    ensures Total(held + [h]) == Total(held) + h
  {
    if held == [] {
      assert [h][1..] == [];
    } else {
      assert (held + [h])[1..] == held[1..] + [h];
      TotalAppend(held[1..], h);
      Regroup(held[0], Total(held[1..]), h);
    }
  }

  /** The list without its i-th member. */
  function Cut<T>(s: seq<T>, i: nat): seq<T>
    requires i < |s|
  {
    s[..i] + s[i + 1..]
  }

  lemma CutAt<T>(s: seq<T>, i: nat)
    requires i < |s|
    ensures |Cut(s, i)| == |s| - 1
    ensures forall j :: 0 <= j < |s| - 1 ==> Cut(s, i)[j] == s[if j < i then j else j + 1]
  {
  }

  lemma {:induction false} TotalWithout(held: seq<multiset<Stored>>, i: nat)
    requires i < |held| && held[i] == multiset{}
    ensures Total(Cut(held, i)) == Total(held)
  {
    if i == 0 {
      assert held[..0] + held[1..] == held[1..];
    } else {
      TotalWithout(held[1..], i - 1);
      assert Cut(held, i)[1..] == Cut(held[1..], i - 1);
    }
  }

  /** The loop under way: its result, from what is kept, what is left and whether anything was taken. */
  ghost predicate TakenSoFar(all: Taken, msgs: seq<ClientMsg>, kept: seq<ClientMsg>, deleted: bool, rest: seq<ClientMsg>,
                             mid: uint16, route: nat -> Rc, n: nat)
  {
    var t := TakeAll(rest, mid, route, n);
    msgs == kept + rest && all == Taken(t.rc, kept + t.left, deleted || t.deleted)
  }

  lemma TakeStart(msgs: seq<ClientMsg>, mid: uint16, route: nat -> Rc)
    ensures TakenSoFar(TakeAll(msgs, mid, route, 0), msgs, [], false, msgs, mid, route, 0)
  {
    hide TakeAll;
    Joined(msgs);
    Joined(TakeAll(msgs, mid, route, 0).left);
  }

  lemma TakeNext(all: Taken, msgs: seq<ClientMsg>, kept: seq<ClientMsg>, deleted: bool, rest: seq<ClientMsg>,
                 mid: uint16, route: nat -> Rc, n: nat)
    requires TakenSoFar(all, msgs, kept, deleted, rest, mid, route, n) && |kept| < |msgs|
    ensures var k := |kept|;
            var m := msgs[k];
            && rest != []
            && if m.mid != mid then TakenSoFar(all, msgs, kept + [m], deleted, rest[1..], mid, route, n)
               else if m.store.qos != 2 then all == Taken(Protocol, msgs, deleted)
               else if m.store.hasTopic && route(n) != Success then all == Taken(Nomem, msgs, deleted)
               else TakenSoFar(all, Without(msgs, k), kept, true, rest[1..], mid, route, if m.store.hasTopic then n + 1 else n)
  {
    DropMiddle(kept, rest);
    Grouped(kept, [rest[0]], rest[1..]);
    Grouped(kept, [rest[0]], TakeAll(rest[1..], mid, route, n).left);
  }

  lemma TakeLast(all: Taken, msgs: seq<ClientMsg>, kept: seq<ClientMsg>, deleted: bool, rest: seq<ClientMsg>,
                 mid: uint16, route: nat -> Rc, n: nat)
    requires TakenSoFar(all, msgs, kept, deleted, rest, mid, route, n) && |msgs| <= |kept|
    ensures all == Taken(Success, msgs, deleted)
  {
    assert rest == [];
    Joined(kept);
  }

  lemma OutsideLess(outside: multiset<Stored>, total: multiset<Stored>, s: Stored)
    requires s in outside
    ensures s in outside + total && (outside + total) - multiset{s} == (outside - multiset{s}) + total
  {
  }

  lemma AddedAndTaken(a: multiset<Stored>, s: Stored)
    ensures (a + multiset{s}) - multiset{s} == a
  {
  }
}
