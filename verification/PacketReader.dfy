/**
 packet__read: a reader that can be interrupted after any byte and resumed. The specification is
 an automaton fed one byte at a time, with a pause where a call ends. A pause changes nothing
 unless a packet with a command byte of 0 is under way.
 */
module PacketReader {
  import opened Bytes
  import opened Wire
  import opened PacketData
  import opened Properties
  import opened Publish

  /** A packet handed to handle__packet. */
  datatype Delivery = Delivery(command: byte, body: bytes)

  /** How much of the current packet has been seen. */
  datatype Progress =
    | InLength(command: byte, count: nat, value: nat)
    | InBody(command: byte, length: nat, got: bytes)
    | WantLength(count: nat, value: nat)   // the next byte is taken for the command, then the length goes on
    | WantBody(length: nat, got: bytes)    // likewise in the middle of a body
    | Broken                               // the remaining length needs a fifth byte

  /** Between two packets. */
  const IDLE: Progress := WantLength(0, 0)

  datatype Seen = Seen(at: Progress, out: seq<Delivery>)

  function Feed(p: Progress, b: byte): Seen {
    match p
    case WantLength(n, v) => Seen(InLength(b, n, v), [])
    case WantBody(len, got) => Seen(InBody(b, len, got), [])
    case InLength(c, n, v) =>
      if n >= 4 then Seen(Broken, [])
      else
        var value := v + b % 0x80 * Pow128(n);
        if b >= 0x80 then Seen(InLength(c, n + 1, value), [])
        else if value == 0 then Seen(IDLE, [Delivery(c, [])])
        else Seen(InBody(c, value, []), [])
    case InBody(c, len, got) =>
      if |got| + 1 >= len then Seen(IDLE, [Delivery(c, got + [b])])
      else Seen(InBody(c, len, got + [b]), [])
    case Broken => Seen(Broken, [])
  }

  /** The automaton on a whole stream. */
  function FeedAll(p: Progress, s: bytes): Seen
    decreases |s|
  {
    if s == [] then Seen(p, [])
    else
      var first := Feed(p, s[0]);
      var rest := FeedAll(first.at, s[1..]);
      Seen(rest.at, first.out + rest.out)
  }

  function Then(a: Seen, b: Seen): Seen {
    Seen(b.at, a.out + b.out)
  }

  lemma {:induction false} FeedConcat(p: Progress, s: bytes, t: bytes)
    ensures FeedAll(p, s + t) == Then(FeedAll(p, s), FeedAll(FeedAll(p, s).at, t))
    decreases |s|
  {
    hide Feed;
    if s == [] {
      assert s + t == t;
    } else {
      var first := Feed(p, s[0]);
      FeedConcat(first.at, s[1..], t);
      assert (s + t)[1..] == s[1..] + t;
      assert first.out + (FeedAll(first.at, s[1..]).out + FeedAll(FeedAll(p, s).at, t).out)
          == first.out + FeedAll(first.at, s[1..]).out + FeedAll(FeedAll(p, s).at, t).out;
    }
  }

  // ----- Pauses -----

  /** A packet is under way whose command byte was 0, which the reader takes for "no command yet". */
  predicate ZeroAt(p: Progress) { (p.InLength? || p.InBody?) && p.command == 0 }

  /** The end of a call: a zero command is forgotten, and the next byte will be taken for it. */
  function Paused(p: Progress): Progress {
    if !ZeroAt(p) then p
    else match p
      case InLength(_, n, v) => WantLength(n, v)
      case InBody(_, len, got) => WantBody(len, got)
  }

  datatype Event = Byte(b: byte) | Pause

  function OnEvent(p: Progress, e: Event): Seen {
    match e
    case Byte(b) => Feed(p, b)
    case Pause => Seen(Paused(p), [])
  }

  /** The reader on a stream cut by the ends of calls. */
  function Run(p: Progress, es: seq<Event>): Seen
    decreases |es|
  {
    if es == [] then Seen(p, [])
    else
      var first := OnEvent(p, es[0]);
      Then(first, Run(first.at, es[1..]))
  }

  function BytesOf(es: seq<Event>): bytes {
    if es == [] then [] else (if es[0].Byte? then [es[0].b] else []) + BytesOf(es[1..])
  }

  /** While bytes are still to come, no packet with a zero command is under way. */
  predicate Tame(p: Progress, s: bytes)
    decreases |s|
  {
    s == [] || (!ZeroAt(p) && Tame(Feed(p, s[0]).at, s[1..]))
  }

  lemma TameNothing(p: Progress)
    ensures Tame(p, [])
  {
  }

  lemma TameFirst(command: byte, s: bytes)
    requires Tame(InLength(command, 0, 0), s)
    ensures Tame(IDLE, [command] + s)
  {
    assert ([command] + s)[1..] == s;
  }

  lemma {:induction false} TameConcat(p: Progress, s: bytes, t: bytes)
    requires Tame(p, s) && Tame(FeedAll(p, s).at, t)
    ensures Tame(p, s + t)
    decreases |s|
  {
    hide Feed;
    if s == [] {
      assert s + t == t;
    } else {
      assert (s + t)[1..] == s[1..] + t;
      TameConcat(Feed(p, s[0]).at, s[1..], t);
    }
  }

  lemma {:induction false} TamePrefix(p: Progress, s: bytes, t: bytes)
    requires Tame(p, s) && t <= s
    ensures Tame(p, t)
    decreases |s|
  {
    hide Feed;
    if t == [] {
    } else {
      TamePrefix(Feed(p, s[0]).at, s[1..], t[1..]);
    }
  }

  /** On a tame stream it does not matter where the calls end. */
  lemma {:induction false} PausesDoNotMatter(p: Progress, es: seq<Event>)
    requires Tame(p, BytesOf(es))
    ensures var (cut, whole) := (Run(p, es), FeedAll(p, BytesOf(es)));
            Paused(cut.at) == Paused(whole.at) && cut.out == whole.out
    decreases |es|
  {
    hide Feed, FeedAll, Run, BytesOf, Tame, Paused;
    BytesStep(es);
    if es == [] {
      FeedNothing(p);
      RunNothing(p, es, Seen(p, []));
    } else {
      RunStep(p, es);
      var rest := BytesOf(es[1..]);
      match es[0]
      case Byte(b) =>
        FeedStep(p, BytesOf(es));
        TameStep(p, BytesOf(es));
        PausesDoNotMatter(Feed(p, b).at, es[1..]);
      case Pause =>
        PausedTwice(p, rest);
        PausesDoNotMatter(Paused(p), es[1..]);
    }
  }

  lemma BytesStep(es: seq<Event>)
    ensures if es == [] then BytesOf(es) == []
            else if es[0].Pause? then BytesOf(es) == BytesOf(es[1..])
            else BytesOf(es) != [] && BytesOf(es)[0] == es[0].b && BytesOf(es)[1..] == BytesOf(es[1..])
  {
  }

  lemma TameStep(p: Progress, s: bytes)
    requires Tame(p, s) && s != []
    ensures Tame(Feed(p, s[0]).at, s[1..])
  {
  }

  /** On a tame stream a pause changes nothing, unless nothing follows. */
  lemma PausedTwice(p: Progress, s: bytes)
    requires Tame(p, s)
    ensures Tame(Paused(p), s) && Paused(FeedAll(Paused(p), s).at) == Paused(FeedAll(p, s).at)
    ensures FeedAll(Paused(p), s).out == FeedAll(p, s).out
  {
    hide Feed;
    if s != [] { assert Paused(p) == p; }
  }

  /** Wherever the calls end, after any part of the stream, the same has been delivered and is in progress. */
  ghost predicate CutsDoNotMatter(s: bytes) {
    forall es: seq<Event> {:trigger Run(IDLE, es)} :: BytesOf(es) <= s ==>
      var (cut, whole) := (Run(IDLE, es), FeedAll(IDLE, BytesOf(es)));
      Paused(cut.at) == Paused(whole.at) && cut.out == whole.out
  }

  /**
   What the reader makes of a stream does not depend on how it is cut if and only if no packet
   in it starts with a command byte of 0 that something follows.
   */
  lemma CutsMatterExactly(s: bytes)
    ensures CutsDoNotMatter(s) <==> Tame(IDLE, s)
  {
    hide Run, FeedAll, BytesOf;
    if Tame(IDLE, s) {
      forall es | BytesOf(es) <= s
        ensures var (cut, whole) := (Run(IDLE, es), FeedAll(IDLE, BytesOf(es)));
                Paused(cut.at) == Paused(whole.at) && cut.out == whole.out
      {
        TamePrefix(IDLE, s, BytesOf(es));
        PausesDoNotMatter(IDLE, es);
      }
    } else {
      var n := ZeroFollowed(IDLE, s);
      var before, b := s[..n], s[n];
      var es := ByteEvents(before) + [Pause, Byte(b)];
      CutAfterZero(before, b);
      assert s[..n + 1] == before + [b] && s[..n + 1] <= s;
    }
  }

  /** Where a zero command is followed by another byte. */
  lemma {:induction false} ZeroFollowed(p: Progress, s: bytes) returns (n: nat)
    requires !Tame(p, s) && !p.WantBody?
    requires (p.WantLength? ==> p == IDLE) && (ZeroAt(p) ==> p == InLength(0, 0, 0))
    ensures n < |s| && FeedAll(p, s[..n]).at == InLength(0, 0, 0)
    decreases |s|
  {
    if ZeroAt(p) {
      n := 0;
    } else {
      var m := ZeroFollowed(Feed(p, s[0]).at, s[1..]);
      n := m + 1;
      assert s[..n][1..] == s[1..][..m] && s[..n][0] == s[0];
    }
  }

  function ByteEvents(s: bytes): seq<Event> {
    if s == [] then [] else [Byte(s[0])] + ByteEvents(s[1..])
  }

  lemma {:induction false} RunBytes(p: Progress, s: bytes)
    ensures Run(p, ByteEvents(s)) == FeedAll(p, s) && BytesOf(ByteEvents(s)) == s
    decreases |s|
  {
    hide Feed;
    if s == [] {
    } else {
      RunBytes(Feed(p, s[0]).at, s[1..]);
      assert ByteEvents(s)[1..] == ByteEvents(s[1..]) && ByteEvents(s)[0] == Byte(s[0]);
      assert [s[0]] + s[1..] == s;
    }
  }

  lemma {:induction false} RunConcat(p: Progress, es: seq<Event>, fs: seq<Event>)
    ensures Run(p, es + fs) == Then(Run(p, es), Run(Run(p, es).at, fs))
    decreases |es|
  {
    hide OnEvent, Run, Then;
    if es == [] {
      assert es + fs == fs;
      RunNothing(p, es, Run(p, fs));
    } else {
      var first := OnEvent(p, es[0]);
      RunConcat(first.at, es[1..], fs);
      assert (es + fs)[1..] == es[1..] + fs && (es + fs)[0] == es[0];
      RunStep(p, es);
      RunStep(p, es + fs);
      ThenThen(first, Run(first.at, es[1..]), Run(Run(p, es).at, fs));
    }
  }

  lemma RunNothing(p: Progress, es: seq<Event>, after: Seen)
    ensures es == [] ==> Run(p, es) == Seen(p, []) && Then(Run(p, es), after) == after
  {
  }

  lemma ThenThen(a: Seen, b: Seen, c: Seen)
    ensures Then(a, Then(b, c)) == Then(Then(a, b), c) && Then(a, b).at == b.at
  {
  }

  lemma RunStep(p: Progress, es: seq<Event>)
    requires es != []
    ensures Run(p, es) == Then(OnEvent(p, es[0]), Run(OnEvent(p, es[0]).at, es[1..]))
  {
  }

  lemma {:induction false} BytesOfConcat(es: seq<Event>, fs: seq<Event>)
    ensures BytesOf(es + fs) == BytesOf(es) + BytesOf(fs)
  {
    if es == [] {
      assert es + fs == fs;
    } else {
      BytesOfConcat(es[1..], fs);
      assert (es + fs)[1..] == es[1..] + fs && (es + fs)[0] == es[0];
      Regroup(if es[0].Byte? then [es[0].b] else [], BytesOf(es[1..]), BytesOf(fs));
    }
  }

  lemma RunOne(p: Progress, e: Event)
    ensures Run(p, [e]) == OnEvent(p, e) && BytesOf([e]) == if e.Byte? then [e.b] else []
  {
    var none: seq<Event> := [e][1..];
    assert none == [] && Run(OnEvent(p, e).at, none) == Seen(OnEvent(p, e).at, []);
  }

  /** A pause behind a zero command makes the next byte the command. */
  lemma CutAfterZero(before: bytes, b: byte)
    requires FeedAll(IDLE, before).at == InLength(0, 0, 0)
    ensures var es := ByteEvents(before) + [Pause, Byte(b)];
            var (cut, whole) := (Run(IDLE, es), FeedAll(IDLE, before + [b]));
            BytesOf(es) == before + [b] && !(Paused(cut.at) == Paused(whole.at) && cut.out == whole.out)
  {
    hide FeedAll, Run, BytesOf, Feed;
    var es := ByteEvents(before);
    RunBytes(IDLE, before);
    assert [Pause, Byte(b)] == [Pause] + [Byte(b)];
    RunConcat(IDLE, es, [Pause, Byte(b)]);
    RunConcat(InLength(0, 0, 0), [Pause], [Byte(b)]);
    BytesOfConcat(es, [Pause, Byte(b)]);
    BytesOfConcat([Pause], [Byte(b)]);
    RunOne(InLength(0, 0, 0), Pause);
    RunOne(IDLE, Byte(b));
    FeedConcat(IDLE, before, [b]);
    FeedOne(InLength(0, 0, 0), b);
    FeedCommand(b);
    AfterZero(b);
  }

  lemma AfterZero(b: byte)
    ensures var seen := Feed(InLength(0, 0, 0), b);
            Paused(seen.at) != Paused(InLength(b, 0, 0)) || seen.out != []
  {
  }

  lemma FeedOne(p: Progress, b: byte)
    ensures FeedAll(p, [b]) == Feed(p, b)
  {
    hide Feed;
    var none: bytes := [b][1..];
    assert none == [];
  }

  /** Bytes of a body, taken together. */
  lemma {:induction false} FeedBody(c: byte, len: nat, got: bytes, s: bytes)
    requires |got| < len && |got| + |s| <= len
    ensures FeedAll(InBody(c, len, got), s) ==
            if |got| + |s| == len then Seen(IDLE, [Delivery(c, got + s)]) else Seen(InBody(c, len, got + s), [])
    ensures c != 0 ==> Tame(InBody(c, len, got), s)
    decreases |s|
  {
    if s == [] {
      assert got + s == got;
    } else {
      assert got + [s[0]] + s[1..] == got + s;
      if |got| + 1 < len {
        FeedBody(c, len, got + [s[0]], s[1..]);
      } else {
        assert s == [s[0]];
        FeedOne(InBody(c, len, got), s[0]);
        assert s[1..] == [];
      }
    }
  }

  /** The bytes of an encoded remaining length bring the automaton to its value. */
  lemma {:induction false} FeedLength(c: byte, n: nat, low: nat, rest: nat)
    requires n < 4 && rest < Pow128(4 - n) && (n > 0 ==> rest > 0) && low < Pow128(n)
    ensures var total := low + rest * Pow128(n);
            FeedAll(InLength(c, n, low), EncodeVarint(rest)) ==
            if total == 0 then Seen(IDLE, [Delivery(c, [])]) else Seen(InBody(c, total, []), [])
    ensures c != 0 ==> Tame(InLength(c, n, low), EncodeVarint(rest))
    decreases 4 - n
  {
    hide FeedAll, Feed, Pow128;
    SplitTotal(low, rest, n);
    PowSplit(n);
    var e := EncodeVarint(rest);
    FeedStep(InLength(c, n, low), e);
    if rest < 0x80 {
      FeedLast(c, n, low, rest);
      FeedNothing(Feed(InLength(c, n, low), rest).at);
      assert e == [rest] && e[1..] == [];
    } else {
      var digit, high := rest % 0x80, rest / 0x80;
      assert e[0] == 0x80 + digit && e[1..] == EncodeVarint(high);
      FeedMore(c, n, low, e[0]);
      FeedLength(c, n + 1, low + digit * Pow128(n), high);
    }
  }

  /** The value of the remaining digits, split into the next one and the rest. */
  lemma SplitTotal(low: nat, rest: nat, n: nat)
    requires n < 4 && low < Pow128(n)
    ensures low + rest * Pow128(n) == low + rest % 0x80 * Pow128(n) + rest / 0x80 * Pow128(n + 1)
    ensures low + rest % 0x80 * Pow128(n) < Pow128(n + 1)
    ensures rest > 0 ==> rest * Pow128(n) > 0
    ensures n == 0 ==> low == 0
  {
    PowBounds(n);
    MulBound(Pow128(n), rest % 0x80);
    MulShift(Pow128(n), rest % 0x80, rest / 0x80);
    if rest > 0 { MulPositive(rest, Pow128(n)); }
  }

  lemma PowSplit(n: nat)
    requires n < 4
    ensures Pow128(4 - n) == 0x80 * Pow128(3 - n)
    ensures n == 3 ==> Pow128(3 - n) == 1
  {
  }

  lemma FeedLast(c: byte, n: nat, low: nat, b: byte)
    requires n < 4 && b < 0x80
    ensures var total := low + b * Pow128(n);
            Feed(InLength(c, n, low), b) ==
            if total == 0 then Seen(IDLE, [Delivery(c, [])]) else Seen(InBody(c, total, []), [])
  {
  }

  lemma FeedMore(c: byte, n: nat, low: nat, b: byte)
    requires n < 4 && b >= 0x80
    ensures Feed(InLength(c, n, low), b) == Seen(InLength(c, n + 1, low + b % 0x80 * Pow128(n)), [])
  {
  }

  lemma FeedStep(p: Progress, s: bytes)
    requires s != []
    ensures FeedAll(p, s) == Then(Feed(p, s[0]), FeedAll(Feed(p, s[0]).at, s[1..]))
  {
    hide Feed;
  }

  lemma MulPositive(a: nat, b: nat)
    requires a > 0 && b > 0
    ensures a * b > 0
  {
  }

  /** A frame on the wire is delivered as it is, and the reader is idle after it. */
  lemma FrameIsDelivered(command: byte, body: bytes)
    requires |body| < VARINT_LIMIT
    ensures FeedAll(IDLE, Frame(command, body)) == Seen(IDLE, [Delivery(command, body)])
    ensures command != 0 ==> Tame(IDLE, Frame(command, body))
  {
    hide Feed, EncodeVarint, Tame;
    PowLimit();
    var e := EncodeVarint(|body|);
    FeedLength(command, 0, 0, |body|);
    FeedConcat(InLength(command, 0, 0), e, body);
    FeedOne(IDLE, command);
    FeedConcat(IDLE, [command], e + body);
    assert Frame(command, body) == [command] + (e + body);
    assert Feed(IDLE, command) == Seen(InLength(command, 0, 0), []) by { FeedCommand(command); }
    if body != [] {
      FeedBody(command, |body|, [], body);
      assert [] + body == body;
    } else {
      assert e + body == e;
      TameNothing(IDLE);
    }
    if command != 0 {
      TameConcat(InLength(command, 0, 0), e, body);
      TameFirst(command, e + body);
    }
  }

  lemma FeedCommand(command: byte)
    ensures Feed(IDLE, command) == Seen(InLength(command, 0, 0), [])
  {
  }

  function Frames(ds: seq<Delivery>): bytes {
    if ds == [] then [] else Frame(ds[0].command, ds[0].body) + Frames(ds[1..])
  }

  /** A stream of frames is delivered frame by frame, in order, with nothing left over. */
  lemma {:induction false} FramesAreDelivered(ds: seq<Delivery>)
    requires forall k :: 0 <= k < |ds| ==> ds[k].command != 0 && |ds[k].body| < VARINT_LIMIT
    ensures FeedAll(IDLE, Frames(ds)) == Seen(IDLE, ds) && Tame(IDLE, Frames(ds))
  {
    hide FeedAll, Frame, Tame;
    if ds == [] {
      FeedNothing(IDLE);
      TameNothing(IDLE);
    } else {
      FrameIsDelivered(ds[0].command, ds[0].body);
      FramesAreDelivered(ds[1..]);
      FeedConcat(IDLE, Frame(ds[0].command, ds[0].body), Frames(ds[1..]));
      TameConcat(IDLE, Frame(ds[0].command, ds[0].body), Frames(ds[1..]));
    }
  }

  /** However little of the stream has come in: what is out is the beginning of what was sent. */
  lemma PrefixIsDelivered(ds: seq<Delivery>, consumed: bytes)
    requires forall k :: 0 <= k < |ds| ==> ds[k].command != 0 && |ds[k].body| < VARINT_LIMIT
    requires consumed <= Frames(ds)
    ensures FeedAll(IDLE, consumed).out <= ds
    ensures consumed == Frames(ds) ==> FeedAll(IDLE, consumed) == Seen(IDLE, ds)
    ensures Tame(IDLE, consumed)
  {
    hide FeedAll, Frames, Tame;
    FramesAreDelivered(ds);
    TamePrefix(IDLE, Frames(ds), consumed);
    FeedConcat(IDLE, consumed, Frames(ds)[|consumed|..]);
    assert consumed + Frames(ds)[|consumed|..] == Frames(ds);
  }

  predicate Encodable(m: Message) {
    m.qos <= 2 && |m.topic| <= 0xFFFF && AllTyped(m.properties)
  }

  ghost predicate Sendable(v5: bool, quota: nat, m: Message)
    requires Encodable(m)
  {
    Sound(v5, quota, m) && |PublishBody(v5, m)| < VARINT_LIMIT
  }

  /** The packets send__real_publish makes of a list of messages. */
  function Sent(v5: bool, ms: seq<Message>): seq<Delivery>
    requires forall k :: 0 <= k < |ms| ==> Encodable(ms[k])
  {
    seq(|ms|, k requires 0 <= k < |ms| && Encodable(ms[k]) => Delivery(PublishCommand(ms[k]), PublishBody(v5, ms[k])))
  }

  /**
   Messages encoded one after the other, cut into any chunks and reassembled, are decoded to the
   same messages in the same order.
   */
  lemma PublishedMessagesArrive(v5: bool, quota: nat, ms: seq<Message>, es: seq<Event>)
    requires forall k :: 0 <= k < |ms| ==> Encodable(ms[k])
    requires forall k :: 0 <= k < |ms| ==> Sendable(v5, quota, ms[k])
    requires BytesOf(es) <= Frames(Sent(v5, ms))
    ensures var got := Run(IDLE, es).out;
            && |got| <= |ms|
            && (BytesOf(es) == Frames(Sent(v5, ms)) ==> |got| == |ms|)
            && forall k :: 0 <= k < |got| ==>
                 |got[k].body| < VARINT_LIMIT &&
                 DecodePublish(v5, quota, got[k].command, got[k].body) == Decoded(ms[k])
  {
    hide FeedAll, Run, Tame, Frames, DecodePublish, Sound, PublishBody, PublishCommand;
    var consumed := BytesOf(es);
    var ds := Sent(v5, ms);
    forall k | 0 <= k < |ms|
      ensures ds[k].command != 0 && DecodePublish(v5, quota, ds[k].command, ds[k].body) == Decoded(ms[k])
    {
      PublishRoundTrip(v5, quota, ms[k]);
      PublishIsNotZero(ms[k]);
    }
    PrefixIsDelivered(ds, consumed);
    PausesDoNotMatter(IDLE, es);
    var got := Run(IDLE, es).out;
    assert forall k :: 0 <= k < |got| ==> got[k] == ds[k];
  }

  lemma PublishIsNotZero(m: Message)
    requires m.qos <= 2
    ensures PublishCommand(m) != 0
  {
  }

  lemma FeedNothing(p: Progress)
    ensures FeedAll(p, []) == Seen(p, [])
  {
  }

  // ----- The reader -----

  datatype Errno = WouldBlock | ConnectionReset | Interrupted | OtherError

  /** The byte source: each read yields any part of what is asked for, the end of file or an error. */
  class Network {
    var incoming: bytes
    ghost var last: int  // the result of the latest read

    constructor (stream: bytes)
      ensures incoming == stream
    {
      incoming := stream;
    }

    /** net__read: a positive count of bytes, 0 at the end of file, negative for an error. */
    method Read(max: nat) returns (length: int, data: bytes, errno: Errno)
      modifies this
      ensures last == length <= max && length <= |old(incoming)|
      ensures length > 0 ==> data == old(incoming)[..length] && incoming == old(incoming)[length..]
      ensures length <= 0 ==> incoming == old(incoming)
    {
      length :| -1 <= length <= max && length <= |incoming|;
      errno :| true;
      last := length;
      data := [];
      if length > 0 {
        data, incoming := incoming[..length], incoming[length..];
      }
    }
  }

  function ErrnoResult(errno: Errno): Rc {
    match errno
    case WouldBlock => Success
    case ConnectionReset => ConnLost
    case Interrupted => Success
    case OtherError => Rc.Errno
  }

  class Reader {
    const network: Network
    const inPacket: Packet
    var delivered: seq<Delivery>
    /** The bytes consumed, with the ends of the calls. */
    ghost var events: seq<Event>

    constructor (network: Network)
      ensures this.network == network && fresh(inPacket) && fresh(inPacket.payload)
      ensures events == [] && delivered == [] && Rested()
    {
      this.network := network;
      var packet := new Packet(0, 0);
      packet.Cleanup();
      inPacket := packet;
      delivered, events := [], [];
    }

    ghost function History(): Seen
      reads this
    {
      Run(IDLE, events)
    }

    /** The fields of in_packet are the progress of the automaton. */
    ghost predicate Matches(p: Progress)
      reads this, inPacket, inPacket.payload
    {
      match p
      case WantLength(n, v) => n <= 4 && v < Pow128(n) && Counting(0, n, v)
      case WantBody(len, got) => |got| < len && BodySoFar(0, len) && inPacket.payload[..inPacket.pos] == got
      case InLength(c, n, v) => n <= 4 && v < Pow128(n) && Counting(c, n, v)
      case InBody(c, len, got) => |got| < len && BodySoFar(c, len) && inPacket.payload[..inPacket.pos] == got
      case Broken => inPacket.remainingCount == -5
    }

    /** Reading the remaining length: count is kept negative until it is complete. */
    ghost predicate Counting(c: byte, n: nat, v: nat)
      reads this, inPacket
    {
      && inPacket.command == c && inPacket.remainingCount + n == 0
      && inPacket.remainingLength == v && inPacket.remainingMult == Pow128(n)
      && inPacket.toProcess == 0 && inPacket.pos == 0 && inPacket.payload.Length == 0
    }

    ghost predicate BodySoFar(c: byte, len: nat)
      reads this, inPacket
    {
      && inPacket.command == c && inPacket.remainingCount > 0
      && len < VARINT_LIMIT && inPacket.remainingLength == len == inPacket.payload.Length
      && inPacket.pos + inPacket.toProcess == len
    }

    ghost predicate Valid()
      reads this, inPacket, inPacket.payload
    {
      Matches(History().at) && delivered == History().out
    }

    /** Between two calls. */
    ghost predicate Rested()
      reads this, inPacket, inPacket.payload
    {
      Valid() && !ZeroAt(History().at)
    }

    /** A whole packet is in the buffer and not yet handed over. */
    ghost predicate Complete(body: bytes)
      reads this, inPacket
    {
      History() == Seen(IDLE, delivered + [Delivery(inPacket.command, body)])
    }

    /** What has been read and what is still to come make up the same stream. */
    twostate predicate SameStream()
      reads this, network, inPacket
    {
      && BytesOf(events) + network.incoming == old(BytesOf(events) + network.incoming)
      && old(events) <= events
      && (inPacket.payload == old(inPacket.payload) || fresh(inPacket.payload))
    }

    /** On a stream without zero commands the calls have done what one uninterrupted walk would do. */
    lemma UncutHistory()
      requires Rested() && Tame(IDLE, BytesOf(events))
      ensures delivered == FeedAll(IDLE, BytesOf(events)).out && History().at == Paused(FeedAll(IDLE, BytesOf(events)).at)
    {
      hide FeedAll, Run, Tame;
      PausesDoNotMatter(IDLE, events);
    }

    /** One read, with the bytes entered in the history. */
    method Receive(max: nat) returns (length: int, data: bytes, errno: Errno)
      modifies network, this`events
      ensures SameStream() && network.last == length <= max
      ensures length > 0 ==> |data| == length
      ensures length > 0 ==> History() == Then(old(History()), FeedAll(old(History()).at, data))
      ensures length <= 0 ==> events == old(events)
    {
      hide FeedAll, Run;
      ghost var whole := network.incoming;
      length, data, errno := network.Read(max);
      if length > 0 {
        assert whole == data + network.incoming;
        assert BytesOf(events) + whole == BytesOf(events) + data + network.incoming;
        RunConcat(IDLE, events, ByteEvents(data));
        BytesOfConcat(events, ByteEvents(data));
        RunBytes(History().at, data);
        events := events + ByteEvents(data);
      }
    }

    /** The call returns. */
    ghost method EndCall()
      requires Valid()
      modifies this`events
      ensures Rested() && SameStream() && History() == Then(old(History()), Seen(Paused(old(History()).at), []))
    {
      hide Run;
      RunConcat(IDLE, events, [Pause]);
      BytesOfConcat(events, [Pause]);
      RunOne(History().at, Pause);
      events := events + [Pause];
    }

    /** The byte that is taken for the command. */
    method ReadCommand() returns (rc: Rc, more: bool)
      requires Rested() && (History().at.WantLength? || History().at.WantBody?)
      modifies this`events, inPacket`command, network
      ensures SameStream() && Valid()
      ensures if more then History().at.InLength? || History().at.InBody? else network.last <= 0
    {
      hide Run;
      var length, data, errno := Receive(1);
      if length == 1 {
        inPacket.command := data[0];
        assert data == [data[0]];
        FeedOne(old(History()).at, data[0]);
        return Success, true;
      } else if length == 0 {
        return ConnLost, false;
      } else {
        return ErrnoResult(errno), false;
      }
    }

    /** The remaining length is complete: the packet is empty, or its body comes next. */
    ghost predicate LengthDone()
      reads this, inPacket
    {
      && inPacket.remainingLength < VARINT_LIMIT
      && inPacket.pos == inPacket.toProcess == inPacket.payload.Length == 0
      && if inPacket.remainingLength == 0 then Complete([])
         else History() == Seen(InBody(inPacket.command, inPacket.remainingLength, []), delivered)
    }

    /** One byte of the remaining length. */
    method AddLengthByte(b: byte, ghost before: Seen)
      requires before.at.InLength? && Matches(before.at) && delivered == before.out
      requires History() == Then(before, Feed(before.at, b))
      modifies inPacket`remainingCount, inPacket`remainingLength, inPacket`remainingMult
      ensures inPacket.remainingCount == old(inPacket.remainingCount) - 1
      ensures inPacket.remainingCount < -4 ==> Valid() && History().at.Broken?
      ensures inPacket.remainingCount >= -4 && b >= 0x80 ==> Valid() && History().at.InLength?
      ensures inPacket.remainingCount >= -4 && b < 0x80 ==> LengthDone()
    {
      hide Run;
      inPacket.remainingCount := inPacket.remainingCount - 1;
      if inPacket.remainingCount >= -4 {
        ghost var n := before.at.count;
        PowBounds(n);
        MulBound(Pow128(n), b % 0x80);
        var digit: int := b % 0x80;
        inPacket.remainingLength := inPacket.remainingLength + digit * inPacket.remainingMult;
        inPacket.remainingMult := inPacket.remainingMult * 0x80;
      }
    }

    /** The loop over the bytes of the remaining length. */
    method ReadLength() returns (rc: Rc, more: bool)
      requires Valid() && History().at.InLength?
      modifies this`events, inPacket`remainingCount, inPacket`remainingLength, inPacket`remainingMult, network
      ensures SameStream()
      ensures if more then LengthDone() && inPacket.remainingCount > 0 else Valid()
      ensures !more ==> network.last <= 0 || (History().at.Broken? && rc == MalformedPacket)
    {
      hide Feed, FeedAll, Run, BytesOf;
      var reading := true;
      ghost var steps := 5 + inPacket.remainingCount;
      while reading
        invariant SameStream()
        invariant reading ==> Valid() && History().at.InLength? && steps == 5 + inPacket.remainingCount
        invariant !reading ==> LengthDone() && -4 <= inPacket.remainingCount < 0
        decreases reading, steps
      {
        ghost var before := History();
        var length, data, errno := Receive(1);
        if length == 1 {
          assert data == [data[0]];
          FeedOne(before.at, data[0]);
          AddLengthByte(data[0], before);
          if inPacket.remainingCount < -4 {
            return MalformedPacket, false;
          }
          reading := data[0] >= 0x80;
          steps := steps - 1;
        } else if length == 0 {
          return ConnLost, false;
        } else {
          return ErrnoResult(errno), false;
        }
      }
      inPacket.remainingCount := -inPacket.remainingCount;
      return Success, true;
    }

    /** The loop over the rest of the packet. */
    method ReadBody() returns (rc: Rc, more: bool)
      requires Valid() && History().at.InBody?
      modifies this`events, inPacket`pos, inPacket`toProcess, inPacket.payload, network
      ensures SameStream()
      ensures if more then Complete(inPacket.payload[..]) && inPacket.payload.Length == inPacket.remainingLength
              else Valid() && network.last <= 0
    {
      hide Feed, FeedAll, Run, BytesOf, Tame;
      while inPacket.toProcess > 0
        invariant SameStream() && inPacket.payload == old(inPacket.payload)
        invariant BodySoFar(inPacket.command, inPacket.remainingLength)
        invariant inPacket.toProcess > 0 ==> Valid() && History().at.InBody?
        invariant inPacket.toProcess == 0 ==> Complete(inPacket.payload[..])
        decreases inPacket.toProcess
      {
        ghost var at := History().at;
        var length, data, errno := Receive(inPacket.toProcess);
        if length > 0 {
          forall i | 0 <= i < length {
            inPacket.payload[inPacket.pos + i] := data[i];
          }
          assert inPacket.payload[..inPacket.pos + length] == at.got + data;
          FeedBody(at.command, at.length, at.got, data);
          inPacket.toProcess := inPacket.toProcess - length;
          inPacket.pos := inPacket.pos + length;
          assert inPacket.toProcess == 0 ==> inPacket.payload[..] == inPacket.payload[..inPacket.pos];
        } else {
          return ErrnoResult(errno), false;
        }
      }
      return Success, true;
    }

    /** handle__packet and the cleanup after it; the handler's result is arbitrary. */
    method HandOver() returns (rc: Rc)
      requires Complete(inPacket.payload[..])
      modifies this`delivered, inPacket
      ensures Valid() && History().at == IDLE
      ensures delivered == old(delivered + [Delivery(inPacket.command, inPacket.payload[..])])
      ensures fresh(inPacket.payload)
    {
      hide Run;
      inPacket.pos := 0;
      delivered := delivered + [Delivery(inPacket.command, inPacket.payload[..])];
      rc :| true;
      inPacket.Cleanup();
    }

    /**
     packet__read. After any number of calls, however the reads were cut or interrupted, what was
     delivered and what is in progress are those of the automaton on the bytes consumed and the
     ends of the calls. A call ends when a read yields nothing, when it has handed over a packet,
     or with a fifth length byte.
     */
    method PacketRead() returns (rc: Rc)
      requires Rested() && !History().at.Broken?
      modifies this, inPacket, inPacket.payload, network
      ensures SameStream() && Rested()
      ensures if |delivered| > |old(delivered)| then |delivered| == |old(delivered)| + 1 && History().at == IDLE
              else network.last <= 0 || (History().at.Broken? && rc == MalformedPacket)
    {
      hide Run, Feed, FeedAll, BytesOf;
      rc := ReadPacket();
      EndCall();
    }

    method ReadPacket() returns (rc: Rc)
      requires Rested() && !History().at.Broken?
      modifies this, inPacket, inPacket.payload, network
      ensures SameStream() && Valid()
      ensures if |delivered| > |old(delivered)| then |delivered| == |old(delivered)| + 1 && History().at == IDLE
              else network.last <= 0 || (History().at.Broken? && rc == MalformedPacket)
    {
      hide Feed, FeedAll, Run, BytesOf;
      var more := true;
      if inPacket.command == 0 {
        rc, more := ReadCommand();
        if !more {
          return;
        }
      }
      if inPacket.remainingCount <= 0 {
        rc, more := ReadLength();
        if !more {
          return;
        }
        if inPacket.remainingLength > 0 {
          inPacket.payload := new byte[inPacket.remainingLength];
          inPacket.toProcess := inPacket.remainingLength;
          assert inPacket.payload[..0] == [];
        } else {
          assert inPacket.payload[..] == [];
        }
      }
      if inPacket.toProcess > 0 {
        rc, more := ReadBody();
        if !more {
          return;
        }
      }
      rc := HandOver();
    }

    /** Any number of calls, as long as the length field is not malformed. */
    method PacketReads(calls: nat)
      requires Rested()
      modifies this, inPacket, inPacket.payload, network
      ensures SameStream() && Rested()
      ensures Tame(IDLE, BytesOf(events)) ==> delivered == FeedAll(IDLE, BytesOf(events)).out
    {
      hide Run, FeedAll, BytesOf, Tame;
      var k := 0;
      while k < calls && inPacket.remainingCount >= -4
        invariant SameStream() && Rested()
      {
        var rc := PacketRead();
        k := k + 1;
      }
      if Tame(IDLE, BytesOf(events)) { UncutHistory(); }
    }
  }
}
