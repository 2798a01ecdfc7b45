/** The gateway's serial frames: serialising, checksums and resynchronising reception. */
module SerialFrame {
  import opened Bytes

  const START: byte := 0x23
  const END: byte := 0x0D
  /** The longest body ReceivePacket accepts: two address bytes and the data. */
  const MAX_BODY: nat := 129
  /** The room for slave ids. */
  const MAX_SLAVES: nat := 127

  datatype Body = Body(high: byte, low: byte, data: bytes)

  /** A response frame: header, body, tail. */
  datatype Frame = Frame(idx: byte, target: byte, command: byte, error: byte, length: byte,
                         body: Body, checksum: byte, end: byte)

  function BodyBytes(length: byte, body: Body): bytes {
    if length > 0 then [body.high, body.low] + body.data else []
  }

  /** Everything the checksum covers. */
  function Covered(f: Frame): bytes {
    [START, f.idx, f.target, f.command, f.error, f.length] + BodyBytes(f.length, f.body)
  }

  function Wire(f: Frame): bytes { Covered(f) + [f.checksum, f.end] }

  function ByteSum(s: bytes): nat {
    if s == [] then 0 else s[0] + ByteSum(s[1..])
  }

  predicate ValidChecksum(f: Frame) { f.checksum == ByteSum(Covered(f)) % 256 }

  /** A body of no bytes, or of two address bytes and the data, as the length says. */
  predicate WellFormed(f: Frame) {
    if f.length == 0 then f.body == Body(0, 0, []) else 2 <= f.length <= MAX_BODY && |f.body.data| == f.length - 2
  }

  lemma {:induction false} ByteSumConcat(a: bytes, b: bytes)
    ensures ByteSum(a + b) == ByteSum(a) + ByteSum(b)
  {
    if a == [] {
      assert a + b == b;
    } else {
      assert (a + b)[1..] == a[1..] + b;
      ByteSumConcat(a[1..], b);
    }
  }

  lemma ByteSumAppend(a: bytes, b: byte)
    ensures ByteSum(a + [b]) == ByteSum(a) + b
  {
    ByteSumConcat(a, [b]);
    assert [b][1..] == [];
  }

  // ----- The packet classes -----

  /** Adds bytes to an 8-bit checksum, which wraps. */
  method AddToChecksum(checksum: byte, s: bytes) returns (sum: byte)
    ensures sum == (checksum + ByteSum(s)) % 256
  {
    sum := checksum;
    hide ByteSum;
    var i := 0;
    ZeroSum();
    while i < |s|
      invariant i <= |s|
      invariant sum == (checksum + ByteSum(s[..i])) % 256
    {
      AddWraps(checksum + ByteSum(s[..i]), s[i]);
      ByteSumAppend(s[..i], s[i]);
      assert s[..i + 1] == s[..i] + [s[i]];
      sum := (sum + s[i]) % 256;
      i := i + 1;
    }
    assert s[..i] == s;
  }

  class ResponsePacket {
    const frame: Frame
    /** The constructor has read a second body byte that is not there. */
    const outOfBounds: bool
    var packet: bytes     // serialised on first use

    /** The body vector is taken apart: address bytes first. A body of one byte has no second one to read. */
    constructor (idx: byte, target: byte, command: byte, error: byte, length: byte, body: bytes, checksum: byte, end: byte)
      ensures packet == [] && (outOfBounds <==> |body| == 1)
      ensures |body| != 1 ==> frame == Frame(idx, target, command, error, length, Taken(body), checksum, end)
    {
      var b := Body(0, 0, []);
      outOfBounds := |body| == 1;
      if |body| > 1 {
        b := Body(body[0], body[1], body[2..]);
      }
      frame := Frame(idx, target, command, error, length, b, checksum, end);
      packet := [];
    }

    ghost predicate Valid()
      reads this
    {
      packet == [] || packet == Wire(frame)
    }

    method Packet() returns (p: bytes)
      requires Valid()
      modifies this
      ensures Valid() && p == packet == Wire(frame)
    {
      if |packet| == 0 {
        packet := [START, frame.idx, frame.target, frame.command, frame.error, frame.length];
        packet := AppendBody(packet, frame.length, frame.body);
        packet := packet + [frame.checksum, frame.end];
      }
      return packet;
    }

    method Checksum() returns (checksum: byte)
      ensures checksum == ByteSum(Covered(frame)) % 256
    {
      checksum := SumWithBody([START, frame.idx, frame.target, frame.command, frame.error, frame.length],
                              frame.length, frame.body);
    }

    method HasValidChecksum() returns (valid: bool)
      ensures valid == ValidChecksum(frame)
    {
      var checksum := Checksum();
      return checksum == frame.checksum;
    }
  }

  method AppendBody(header: bytes, length: byte, body: Body) returns (p: bytes)
    ensures p == header + BodyBytes(length, body)
  {
    p := header;
    if length > 0 {
      p := p + [body.high];
      p := p + [body.low];
      for i := 0 to |body.data|
        invariant p == header + ([body.high, body.low] + body.data[..i])
      {
        p := p + [body.data[i]];
      }
    }
  }

  method SumWithBody(header: bytes, length: byte, body: Body) returns (checksum: byte)
    ensures checksum == ByteSum(header + BodyBytes(length, body)) % 256
  {
    hide ByteSum;
    checksum := AddToChecksum(0, header);
    ByteSumConcat(header, BodyBytes(length, body));
    if length > 0 {
      ByteSumConcat([body.high, body.low], body.data);
      checksum := AddToChecksum(checksum, [body.high, body.low]);
      AddWraps(ByteSum(header), ByteSum([body.high, body.low]));
      AddWraps(ByteSum(header) + ByteSum([body.high, body.low]), ByteSum(body.data));
      checksum := AddToChecksum(checksum, body.data);
    } else {
      assert header + [] == header;
    }
  }

  lemma AddWraps(a: nat, b: nat)
    ensures (a % 256 + b) % 256 == (a + b) % 256
  {
  }

  function Taken(body: bytes): Body
    requires |body| != 1
  {
    if body == [] then Body(0, 0, []) else Body(body[0], body[1], body[2..])
  }

  // ----- Requests -----

  /** What a request's checksum covers; the length is what is asked for, not the length of the body. */
  function RequestCovered(idx: byte, target: byte, command: byte, length: byte, body: Body): bytes {
    [START, idx, target, command, length] + BodyBytes(length, body)
  }

  class RequestPacket {
    const idx: byte
    const target: byte
    const command: byte
    const length: byte
    const body: Body
    const checksum: byte
    var packet: bytes

    constructor (idx: byte, target: byte, command: byte, length: byte, body: Body)
      ensures Valid() && packet == []
      ensures this.idx == idx && this.target == target && this.command == command
      ensures this.length == length && this.body == body
    {
      this.idx, this.target, this.command, this.length, this.body := idx, target, command, length, body;
      packet := [];
      var sum := SumWithBody([START, idx, target, command, length], length, body);
      checksum := sum;
    }

    /** Without a body: the checksum covers the header alone, and the body is all zeros. */
    constructor HeaderOnly(idx: byte, target: byte, command: byte, length: byte)
      ensures Valid() && packet == []
      ensures this.idx == idx && this.target == target && this.command == command
      ensures this.length == length && body == Body(0, 0, [])
    {
      this.idx, this.target, this.command, this.length, body := idx, target, command, length, Body(0, 0, []);
      packet := [];
      var sum := AddToChecksum(0, [START, idx, target, command, length]);
      checksum := sum;
      new;
      HeaderChecksumSuffices(idx, target, command, length);
    }

    /** The stored checksum is the one a receiver computes, whichever way the packet was made. */
    ghost predicate Valid()
      reads this
    {
      && checksum == ByteSum(RequestCovered(idx, target, command, length, body)) % 256
      && (packet == [] || packet == RequestCovered(idx, target, command, length, body) + [checksum, END])
    }

    method Packet() returns (p: bytes)
      requires Valid()
      modifies this
      ensures Valid() && p == packet == RequestCovered(idx, target, command, length, body) + [checksum, END]
    {
      if |packet| == 0 {
        var sum := SumWithBody([START, idx, target, command, length], length, body);
        packet := [START, idx, target, command, length];
        packet := AppendBody(packet, length, body);
        packet := packet + [sum, END];
      }
      return packet;
    }

    method HasValidChecksum() returns (valid: bool)
      requires Valid()
      ensures valid
    {
      var sum := SumWithBody([START, idx, target, command, length], length, body);
      return sum == checksum;
    }
  }

  lemma HeaderChecksumSuffices(idx: byte, target: byte, command: byte, length: byte)
    ensures ByteSum(RequestCovered(idx, target, command, length, Body(0, 0, []))) ==
            ByteSum([START, idx, target, command, length])
  {
    hide ByteSum;
    var rest := BodyBytes(length, Body(0, 0, []));
    ByteSumConcat([START, idx, target, command, length], rest);
    ZeroSum();
    if length > 0 { assert rest == [0, 0]; }
  }

  lemma ZeroSum()
    ensures ByteSum([0, 0]) == 0 && ByteSum([]) == 0
  {
    assert [0, 0][1..] == [0] && [0][1..] == [];
  }

  // ----- Reception -----

  datatype Outcome =
    | Received(frame: Frame)
    | Failed(code: nat)
    | OutOfBounds             // a body of one byte: its second byte is read although there is none

  const FAIL_HEADER: nat := 1
  const FAIL_OVER_MAX: nat := 2
  const FAIL_BODY: nat := 3
  const FAIL_TAIL: nat := 4

  function Min(a: nat, b: nat): nat { if a <= b then a else b }

  function Zeros(n: nat): bytes { seq(n, _ => 0) }

  /** n bytes, the missing ones left zero. */
  function Padded(s: bytes, n: nat): (p: bytes)
    ensures |p| == n && forall i :: 0 <= i < n ==> p[i] == if i < |s| then s[i] else 0
  {
    s[..Min(n, |s|)] + Zeros(n - Min(n, |s|))
  }

  function Rest(s: bytes, n: nat): bytes { s[Min(n, |s|)..] }

  /** After the start byte: five header bytes, the body and the two bytes of the tail. */
  function ReceiveFrame(s: bytes): (Outcome, bytes) {
    var h := Padded(s, 5);
    var s1 := Rest(s, 5);
    if h[4] > MAX_BODY then (Failed(FAIL_OVER_MAX), s1)
    else if h[4] > 0 && s1 == [] then (Failed(FAIL_BODY), s1)
    else
      var body := Padded(s1, h[4]);
      var s2 := Rest(s1, h[4]);
      var t := Padded(s2, 2);
      if s2 == [] then (Failed(FAIL_TAIL), s2)
      else if |body| == 1 then (OutOfBounds, Rest(s2, 2))
      else (Received(Frame(h[0], h[1], h[2], h[3], h[4], Taken(body), t[0], t[1])), Rest(s2, 2))
  }

  /** ReceivePacket: bytes are skipped up to a start byte that something follows. */
  function Receive(s: bytes): (Outcome, bytes) {
    if s == [] then (Failed(FAIL_HEADER), [])
    else if s[0] == START && |s| > 1 then ReceiveFrame(s[1..])
    else Receive(s[1..])
  }

  /** A serial port all of whose input has arrived. */
  class SerialPort {
    var pending: bytes

    method Available() returns (some: bool)
      ensures some == (pending != [])
    {
      return |pending| > 0;
    }

    method Read(size: nat) returns (s: bytes)
      modifies this
      ensures s == old(pending)[..Min(size, |old(pending)|)] && pending == Rest(old(pending), size)
    {
      var n := Min(size, |pending|);
      s := pending[..n];
      pending := pending[n..];
    }

    /** Byte by byte; the end mark and the size are looked at once there are as many bytes as the mark has. */
    method ReadLine(size: nat, eol: bytes) returns (s: bytes)
      modifies this
      ensures var n := LineLength(old(pending), 0, size, eol);
              s == old(pending)[..n] && pending == old(pending)[n..]
    {
      s := [];
      while true
        invariant |s| <= |old(pending)| && s == old(pending)[..|s|] && pending == old(pending)[|s|..]
        invariant LineLength(old(pending), |s|, size, eol) == LineLength(old(pending), 0, size, eol)
        decreases |pending|
      {
        if |pending| > 0 { NextByte(old(pending), |s|); }
        var b := Read(1);
        if |b| == 0 { break; }
        s := s + b;
        if |s| < |eol| { continue; }
        if s[|s| - |eol|..] == eol { break; }
        if |s| == size { break; }
      }
    }
  }

  predicate EndsWith(s: bytes, eol: bytes) { |eol| <= |s| && s[|s| - |eol|..] == eol }

  lemma NextByte(s: bytes, n: nat)
    requires n < |s|
    ensures s[n..][..1] == [s[n]] && s[n..][1..] == s[n + 1..] && s[..n] + [s[n]] == s[..n + 1]
  {
  }

  /** The read ends behind n bytes, by the mark or by the size. */
  predicate StopsAt(s: bytes, n: nat, size: nat, eol: bytes)
    requires n <= |s|
  {
    n > 0 && n >= |eol| && (EndsWith(s[..n], eol) || n == size)
  }

  /** How many bytes are read when n have been. */
  function LineLength(s: bytes, n: nat, size: nat, eol: bytes): (length: nat)
    requires n <= |s|
    ensures n <= length <= |s|
    decreases |s| - n
  {
    if n == |s| then n
    else if StopsAt(s, n + 1, size, eol) then n + 1
    else LineLength(s, n + 1, size, eol)
  }

  /** The read ends at the first stop, or at the end of input. */
  lemma {:induction false} LineEndsAtFirstStop(s: bytes, n: nat, size: nat, eol: bytes)
    requires n <= |s|
    ensures var length := LineLength(s, n, size, eol);
            && (length == |s| || StopsAt(s, length, size, eol))
            && forall k :: n < k < length ==> !StopsAt(s, k, size, eol)
    decreases |s| - n
  {
    hide StopsAt;
    if n == |s| || StopsAt(s, n + 1, size, eol) {
    } else {
      LineEndsAtFirstStop(s, n + 1, size, eol);
    }
  }

  /**
   The buffer has the given size. No input makes the read go beyond it if and only if the size is
   positive and not below the length of the end mark.
   */
  lemma StaysInBufferExactly(size: nat, eol: bytes)
    ensures (forall s: bytes :: LineLength(s, 0, size, eol) <= size) <==> 0 < size && |eol| <= size
  {
    if 0 < size && |eol| <= size {
      forall s: bytes
        ensures LineLength(s, 0, size, eol) <= size
      {
        LineEndsAtFirstStop(s, 0, size, eol);
        if size < |s| { assert StopsAt(s, size, size, eol); }
      }
    } else {
      var s := Zeros(size + 1);
      LineEndsAtFirstStop(s, 0, size, eol);
      assert LineLength(s, 0, size, eol) > size;
    }
  }

  /** An end mark as long as the size stops nothing. */
  lemma ShortLine(s: bytes, size: nat, eol: bytes)
    requires size == |eol| > 0
    ensures var n := LineLength(s, 0, size, eol); n == Min(size, |s|) && s[n..] == Rest(s, size)
  {
    LineEndsAtFirstStop(s, 0, size, eol);
    if size < |s| { assert StopsAt(s, size, size, eol); }
  }

  /** The end mark passed to the port: the decimal digits of END, so two bytes. */
  const END_MARK: bytes := [0x31, 0x33]

  method ReceivePacket(port: SerialPort) returns (outcome: Outcome)
    modifies port
    ensures (outcome, port.pending) == Receive(old(port.pending))
  {
    hide Padded, Rest, ReceiveFrame;
    while true
      invariant Receive(port.pending) == Receive(old(port.pending))
      decreases |port.pending|
    {
      var some := port.Available();
      if !some { break; }
      ghost var before := port.pending;
      FirstByte(before);
      var first := port.Read(1);
      if first[0] == START {
        var header := port.Read(5);
        NothingLeft(before[1..], 5);
        if |header| > 0 {
          outcome := ReceiveAfterHeader(port, header, before[1..]);
          return;
        }
      }
    }
    return Failed(FAIL_HEADER);
  }

  /** The rest of ReceivePacket once some of the header has been read. */
  method ReceiveAfterHeader(port: SerialPort, header: bytes, ghost s: bytes) returns (outcome: Outcome)
    requires header == s[..Min(5, |s|)] && port.pending == Rest(s, 5)
    modifies port
    ensures (outcome, port.pending) == ReceiveFrame(s)
  {
    var h := header + Zeros(5 - |header|);
    var length := h[4];
    if length > MAX_BODY { return Failed(FAIL_OVER_MAX); }
    var body := Zeros(length);
    if length > 0 {
      var got := port.Read(length);
      if |got| == 0 { return Failed(FAIL_BODY); }
      body := got + Zeros(length - |got|);
    }
    ghost var left := port.pending;
    var tail := port.ReadLine(2, END_MARK);
    ShortLine(left, 2, END_MARK);
    if |tail| == 0 { return Failed(FAIL_TAIL); }
    var t := tail + Zeros(2 - |tail|);
    var packet := new ResponsePacket(h[0], h[1], h[2], h[3], length, body, t[0], t[1]);
    if packet.outOfBounds { return OutOfBounds; }
    return Received(packet.frame);
  }

  lemma FirstByte(s: bytes)
    requires s != []
    ensures Rest(s, 1) == s[1..] && s[..Min(1, |s|)] == [s[0]]
  {
  }

  lemma NothingLeft(s: bytes, n: nat)
    ensures |Rest(s, n)| <= |s|
    ensures s == [] ==> Rest(s, n) == []
  {
  }

  // ----- What is received -----

  predicate Noise(s: bytes) { forall i :: 0 <= i < |s| ==> s[i] != START }

  lemma {:induction false} NoiseIsSkipped(noise: bytes, s: bytes)
    requires Noise(noise)
    ensures Receive(noise + s) == Receive(s)
  {
    hide ReceiveFrame;
    if noise == [] {
      assert noise + s == s;
    } else {
      assert noise[0] != START && (noise + s)[0] == noise[0];
      assert (noise + s)[1..] == noise[1..] + s;
      NoiseIsSkipped(noise[1..], s);
    }
  }

  /** The parts of a frame after its start byte. */
  lemma WireParts(f: Frame)
    requires WellFormed(f)
    ensures var h := [f.idx, f.target, f.command, f.error, f.length];
            && Wire(f) == [START] + (h + (BodyBytes(f.length, f.body) + [f.checksum, f.end]))
            && |BodyBytes(f.length, f.body)| == f.length != 1 && Taken(BodyBytes(f.length, f.body)) == f.body
  {
  }

  lemma Exactly(a: bytes, b: bytes)
    ensures Padded(a + b, |a|) == a && Rest(a + b, |a|) == b
  {
  }

  lemma FrameIsReceived(f: Frame, rest: bytes)
    requires WellFormed(f)
    ensures ReceiveFrame(Wire(f)[1..] + rest) == (Received(f), rest)
  {
    hide Padded, Rest, Wire, Taken;
    WireParts(f);
    var h, b, t := [f.idx, f.target, f.command, f.error, f.length], BodyBytes(f.length, f.body), [f.checksum, f.end];
    assert Wire(f)[1..] + rest == h + (b + (t + rest));
    Exactly(h, b + (t + rest));
    Exactly(b, t + rest);
    Exactly(t, rest);
    assert (t + rest)[0] == f.checksum;
  }

  /** Noise is skipped, the frame comes back with every field, and the next call goes on behind it. */
  lemma FrameAfterNoise(noise: bytes, f: Frame, rest: bytes)
    requires Noise(noise) && WellFormed(f)
    ensures Receive(noise + Wire(f) + rest) == (Received(f), rest)
  {
    hide ReceiveFrame;
    NoiseIsSkipped(noise, Wire(f) + rest);
    assert noise + Wire(f) + rest == noise + (Wire(f) + rest);
    FrameIsReceived(f, rest);
    assert (Wire(f) + rest)[1..] == Wire(f)[1..] + rest;
  }

  datatype Piece = Piece(noise: bytes, frame: Frame)

  function Stream(pieces: seq<Piece>): bytes {
    if pieces == [] then [] else pieces[0].noise + Wire(pieces[0].frame) + Stream(pieces[1..])
  }

  function FramesOf(pieces: seq<Piece>): seq<Outcome> {
    if pieces == [] then [] else [Received(pieces[0].frame)] + FramesOf(pieces[1..])
  }

  /** What n calls return, and the input left. */
  function ReceiveMany(s: bytes, n: nat): (seq<Outcome>, bytes)
    decreases n
  {
    if n == 0 then ([], s)
    else
      var (first, rest) := Receive(s);
      var (more, left) := ReceiveMany(rest, n - 1);
      ([first] + more, left)
  }

  /** Successive calls return the frames of a stream in order, whatever noise is between them. */
  lemma {:induction false} FramesInOrder(pieces: seq<Piece>, rest: bytes)
    requires forall k :: 0 <= k < |pieces| ==> Noise(pieces[k].noise) && WellFormed(pieces[k].frame)
    ensures ReceiveMany(Stream(pieces) + rest, |pieces|) == (FramesOf(pieces), rest)
  {
    hide Receive, Wire;
    if pieces == [] {
      assert Stream(pieces) + rest == rest;
    } else {
      var p := pieces[0];
      FramesInOrder(pieces[1..], rest);
      FrameAfterNoise(p.noise, p.frame, Stream(pieces[1..]) + rest);
      assert Stream(pieces) + rest == p.noise + Wire(p.frame) + (Stream(pieces[1..]) + rest);
    }
  }

  /** s is noise, then the frame, then rest; or the input stops before an end byte that reads as 0. */
  ghost predicate ArrivedAs(s: bytes, noise: bytes, f: Frame, rest: bytes) {
    Noise(noise) && WellFormed(f) &&
    (s == noise + Wire(f) + rest || (rest == [] && f.end == 0 && s + [0] == noise + Wire(f)))
  }

  lemma CutFrameIsReceived(s: bytes, f: Frame)
    requires WellFormed(f) && f.end == 0 && s + [0] == Wire(f)
    ensures s[0] == START && |s| > 1 && ReceiveFrame(s[1..]) == (Received(f), [])
  {
    hide Padded, Rest, Taken;
    WireParts(f);
    var h, b := [f.idx, f.target, f.command, f.error, f.length], BodyBytes(f.length, f.body);
    assert s == Wire(f)[..|s|] == [START] + (h + (b + [f.checksum]));
    assert s[1..] == h + (b + [f.checksum]);
    Exactly(h, b + [f.checksum]);
    Exactly(b, [f.checksum]);
    CutTail(f.checksum);
  }

  lemma CutTail(b: byte)
    ensures Padded([b], 2) == [b, 0] && Rest([b], 2) == []
  {
  }

  /** When something is left behind n bytes, all n were there. */
  lemma Whole(s: bytes, n: nat)
    requires Rest(s, n) != []
    ensures |s| > n && s == Padded(s, n) + Rest(s, n)
  {
  }

  lemma TailParts(s: bytes)
    requires s != []
    ensures var t := Padded(s, 2);
            s == t + Rest(s, 2) || (Rest(s, 2) == [] && t[1] == 0 && s + [0] == t)
    ensures |Padded(s, 2)| == 2
  {
  }

  lemma TakenBytes(length: byte, body: bytes)
    requires |body| == length != 1
    ensures BodyBytes(length, Taken(body)) == body
    ensures length <= MAX_BODY ==> forall f: Frame :: f.length == length && f.body == Taken(body) ==> WellFormed(f)
  {
  }

  lemma ReceivedAfterStart(s: bytes)
    requires ReceiveFrame(s).0.Received?
    ensures ArrivedAs([START] + s, [], ReceiveFrame(s).0.frame, ReceiveFrame(s).1)
  {
    hide Padded, Rest, Taken, Wire, BodyBytes, WellFormed;
    var (outcome, rest) := ReceiveFrame(s);
    var f := outcome.frame;
    var h := Padded(s, 5);
    var s1 := Rest(s, 5);
    var body := Padded(s1, h[4]);
    var s2 := Rest(s1, h[4]);
    var t := Padded(s2, 2);
    Whole(s1, h[4]);
    Whole(s, 5);
    TailParts(s2);
    TakenBytes(h[4], body);
    WireParts(f);
    assert h == [f.idx, f.target, f.command, f.error, f.length] && t == [f.checksum, f.end];
    assert Wire(f) == [START] + h + body + t;
    if s2 == t + rest {
      assert [START] + s == [] + Wire(f) + rest;
    } else {
      assert [START] + s + [0] == [START] + h + body + (s2 + [0]);
      assert [START] + s + [0] == [] + Wire(f);
    }
  }

  lemma {:induction false} ReceivedFrom(s: bytes) returns (noise: bytes)
    requires Receive(s).0.Received?
    ensures ArrivedAs(s, noise, Receive(s).0.frame, Receive(s).1)
  {
    hide ReceiveFrame, Wire, WellFormed;
    if s[0] == START && |s| > 1 {
      ReceivedAfterStart(s[1..]);
      assert [START] + s[1..] == s;
      noise := [];
    } else {
      var shorter := ReceivedFrom(s[1..]);
      noise := [s[0]] + shorter;
      var (outcome, rest) := Receive(s);
      LaterStart(s, shorter, outcome.frame, rest);
    }
  }

  lemma LaterStart(s: bytes, noise: bytes, f: Frame, rest: bytes)
    requires s != [] && ArrivedAs(s[1..], noise, f, rest) && (s[0] != START || |s| == 1)
    ensures ArrivedAs(s, [s[0]] + noise, f, rest)
  {
    assert |Wire(f)| >= 8;
    assert s == [s[0]] + s[1..];
    if s[1..] == noise + Wire(f) + rest {
      assert s == [s[0]] + noise + Wire(f) + rest;
    } else {
      assert s + [0] == [s[0]] + (s[1..] + [0]);
      assert s + [0] == [s[0]] + noise + Wire(f);
    }
  }

  /**
   ReceivePacket returns a frame if and only if the input is noise free of the start byte, then
   that frame, then what is left; the one other case is an input that ends just before an end
   byte, which then reads as 0.
   */
  lemma ReceivedExactly(s: bytes, f: Frame, rest: bytes)
    ensures Receive(s) == (Received(f), rest) <==> exists noise :: ArrivedAs(s, noise, f, rest)
  {
    hide Receive, ArrivedAs;
    if Receive(s) == (Received(f), rest) {
      var noise := ReceivedFrom(s);
    }
    if noise :| ArrivedAs(s, noise, f, rest) {
      ArrivedIsReceived(s, noise, f, rest);
    }
  }

  lemma ArrivedIsReceived(s: bytes, noise: bytes, f: Frame, rest: bytes)
    requires ArrivedAs(s, noise, f, rest)
    ensures Receive(s) == (Received(f), rest)
  {
    hide ReceiveFrame;
    if s == noise + Wire(f) + rest {
      FrameAfterNoise(noise, f, rest);
    } else {
      WireParts(f);
      var cut := s[|noise|..];
      assert (s + [0])[..|noise|] == noise;
      assert s == noise + cut && cut + [0] == Wire(f);
      NoiseIsSkipped(noise, cut);
      CutFrameIsReceived(cut, f);
    }
  }

  /** No header is found if and only if no start byte has anything behind it; the input is then used up. */
  lemma {:induction false} NoHeaderExactly(s: bytes)
    ensures Receive(s) == (Failed(FAIL_HEADER), []) <==> forall i :: 0 <= i < |s| - 1 ==> s[i] != START
  {
    if s == [] {
    } else if s[0] == START && |s| > 1 {
      assert s[0] == START;
    } else {
      NoHeaderExactly(s[1..]);
      assert forall i :: 1 <= i < |s| ==> s[i] == s[1..][i - 1];
    }
  }

  /** Noise, a start byte, four more bytes, a body length of 1, the body byte, and something behind it. */
  ghost predicate OneByteBody(s: bytes, noise: bytes, h: bytes, b: byte, rest: bytes) {
    Noise(noise) && |h| == 4 && rest != [] && s == noise + ([START] + (h + ([1, b] + rest)))
  }

  lemma OutOfBoundsAfterStart(s: bytes)
    ensures ReceiveFrame(s).0 == OutOfBounds <==> |s| > 6 && s[4] == 1
    ensures |s| > 6 && s[4] == 1 ==>
              s == s[..4] + ([1, s[5]] + s[6..]) && ReceiveFrame(s).1 == Rest(s[6..], 2)
  {
    if |s| > 6 && s[4] == 1 { assert Rest(Rest(s, 5), 1) == s[6..]; }
  }

  lemma {:induction false} OutOfBoundsFrom(s: bytes) returns (noise: bytes, h: bytes, b: byte, rest: bytes)
    requires Receive(s).0 == OutOfBounds
    ensures OneByteBody(s, noise, h, b, rest) && Receive(s).1 == Rest(rest, 2)
  {
    hide ReceiveFrame, Rest;
    if s[0] == START && |s| > 1 {
      OutOfBoundsAfterStart(s[1..]);
      noise, h, b, rest := [], s[1..][..4], s[1..][5], s[1..][6..];
      assert s == [START] + s[1..];
    } else {
      noise, h, b, rest := OutOfBoundsFrom(s[1..]);
      var tail := [START] + (h + ([1, b] + rest));
      assert s == [s[0]] + s[1..] && [s[0]] + (noise + tail) == ([s[0]] + noise) + tail;
      noise := [s[0]] + noise;
    }
  }

  /**
   Receiving reads behind the body if and only if the input is noise, a start byte, four bytes, a
   length of 1, one byte of body and at least one more byte. Of what is behind the body two bytes
   are used up, or the one that is there.
   */
  lemma OutOfBoundsExactly(s: bytes, left: bytes)
    ensures Receive(s) == (OutOfBounds, left) <==>
            exists noise, h, b, rest :: OneByteBody(s, noise, h, b, rest) && left == Rest(rest, 2)
  {
    hide Receive, ReceiveFrame, Rest, OneByteBody;
    if Receive(s) == (OutOfBounds, left) {
      var noise, h, b, rest := OutOfBoundsFrom(s);
    }
    if noise, h, b, rest :| OneByteBody(s, noise, h, b, rest) && left == Rest(rest, 2) {
      OneByteIsOutOfBounds(s, noise, h, b, rest);
    }
  }

  lemma OneByteIsOutOfBounds(s: bytes, noise: bytes, h: bytes, b: byte, rest: bytes)
    requires OneByteBody(s, noise, h, b, rest)
    ensures Receive(s) == (OutOfBounds, Rest(rest, 2))
  {
    hide ReceiveFrame, Rest;
    var body := h + ([1, b] + rest);
    var framed := [START] + body;
    NoiseIsSkipped(noise, framed);
    OutOfBoundsAfterStart(body);
    assert framed[1..] == body && body[6..] == rest;
  }

  /** Eight bytes that do it: a frame for which only the length is wrong. */
  lemma OutOfBoundsExample()
    ensures Receive([START, 0x21, 0xFF, 0xC1, 0, 1, 0x20, END]) == (OutOfBounds, [])
  {
    var s := [START, 0x21, 0xFF, 0xC1, 0, 1, 0x20, END];
    var noise: bytes, rest: bytes := [], [END];
    assert s == noise + ([START] + ([0x21, 0xFF, 0xC1, 0] + ([1, 0x20] + rest)));
    OneByteIsOutOfBounds(s, noise, [0x21, 0xFF, 0xC1, 0], 0x20, rest);
  }

  // ----- Slave ids -----

  /** GetSlaveIds: the data of any received frame fits the array. */
  method CopySlaveIds(f: Frame) returns (ids: array<byte>)
    requires WellFormed(f)
    ensures fresh(ids) && ids.Length == MAX_SLAVES && |f.body.data| <= MAX_SLAVES
    ensures ids[..] == f.body.data + Zeros(MAX_SLAVES - |f.body.data|)
  {
    ids := new byte[MAX_SLAVES](_ => 0);
    for i := 0 to |f.body.data|
      invariant forall j :: 0 <= j < i ==> ids[j] == f.body.data[j]
      invariant forall j :: i <= j < MAX_SLAVES ==> ids[j] == 0
    {
      ids[i] := f.body.data[i];
    }
  }

  // ----- The slave count -----

  datatype SlaveCount =
    | Count(n: byte)
    | NoCount                 // nothing received, or a wrong checksum
    | Undefined               // data is read that is not there

  function CountOf(outcome: Outcome): SlaveCount {
    match outcome
    case OutOfBounds => Undefined
    case Failed(_) => NoCount
    case Received(f) =>
      if !ValidChecksum(f) then NoCount else if f.body.data == [] then Undefined else Count(f.body.data[0])
  }

  /** GetSlaveCount, once the request has gone out. */
  method GetSlaveCount(port: SerialPort) returns (count: SlaveCount)
    modifies port
    ensures (count, port.pending) == var (outcome, left) := Receive(old(port.pending)); (CountOf(outcome), left)
  {
    hide Receive, ByteSum;
    var outcome := ReceivePacket(port);
    match outcome {
      case OutOfBounds => return Undefined;
      case Failed(_) => return NoCount;
      case Received(f) =>
        var sum := SumWithBody([START, f.idx, f.target, f.command, f.error, f.length], f.length, f.body);
        if sum != f.checksum { return NoCount; }
        if |f.body.data| == 0 { return Undefined; }
        return Count(f.body.data[0]);
    }
  }

  /**
   For a frame that arrives whole, with a valid checksum, there is a count to read if and only if
   its length is at least 3; it is then the ninth byte of the frame.
   */
  lemma SlaveCountExactly(noise: bytes, f: Frame, rest: bytes)
    requires Noise(noise) && WellFormed(f) && ValidChecksum(f)
    ensures var count := CountOf(Receive(noise + Wire(f) + rest).0);
            && (count == Undefined <==> f.length < 3)
            && (f.length >= 3 ==> count == Count(Wire(f)[8]))
  {
    hide Receive, ByteSum;
    FrameAfterNoise(noise, f, rest);
  }

  /** A response without a body has a valid checksum and no count. */
  lemma UndefinedCountExample()
    ensures CountOf(Receive([START, 0, 0, 0, 0, 0, START, END]).0) == Undefined
  {
    var f := Frame(0, 0, 0, 0, 0, Body(0, 0, []), START, END);
    HeaderIsStart(f);
    FrameAfterNoise([], f, []);
    assert [] + Wire(f) + [] == [START, 0, 0, 0, 0, 0, START, END];
  }

  lemma HeaderIsStart(f: Frame)
    requires f == Frame(0, 0, 0, 0, 0, Body(0, 0, []), START, f.end)
    ensures WellFormed(f) && ValidChecksum(f)
  {
    hide ByteSum;
    ByteSumConcat([START, 0, 0, 0], [0, 0]);
    ByteSumConcat([START, 0], [0, 0]);
    ByteSumConcat([START], [0]);
    ByteSumOne(START);
    ByteSumOne(0);
    ZeroSum();
    assert Covered(f) == [START, 0, 0, 0] + [0, 0] && [START, 0, 0, 0] == [START, 0] + [0, 0] && [START, 0] == [START] + [0];
  }

  // ----- The checksum -----

  predicate FrameBytes(w: bytes) {
    |w| >= 8 && w[0] == START && |w| == w[5] as int + 8 && w[5] != 1 && w[5] <= MAX_BODY
  }

  /** The frame whose bytes these are. */
  function FrameOf(w: bytes): Frame
    requires FrameBytes(w)
  {
    Frame(w[1], w[2], w[3], w[4], w[5], Taken(w[6..|w| - 2]), w[|w| - 2], w[|w| - 1])
  }

  lemma FrameOfBytes(w: bytes)
    requires FrameBytes(w)
    ensures WellFormed(FrameOf(w)) && Wire(FrameOf(w)) == w && Covered(FrameOf(w)) == w[..|w| - 2]
  {
    var f := FrameOf(w);
    var b := w[6..|w| - 2];
    assert BodyBytes(f.length, f.body) == b;
    assert w[..6] == [START, f.idx, f.target, f.command, f.error, f.length];
    assert w[..|w| - 2] == w[..6] + b;
    assert w == w[..|w| - 2] + [f.checksum, f.end];
  }

  lemma BytesOfFrame(f: Frame)
    requires WellFormed(f)
    ensures FrameBytes(Wire(f)) && FrameOf(Wire(f)) == f
  {
    var w := Wire(f);
    WireParts(f);
    assert w[6..|w| - 2] == BodyBytes(f.length, f.body);
  }

  lemma ByteSumAltered(s: bytes, k: nat, b: byte)
    requires k < |s|
    ensures ByteSum(s[k := b]) == ByteSum(s) - s[k] + b
  {
    hide ByteSum;
    assert s == s[..k] + ([s[k]] + s[k + 1..]);
    assert s[k := b] == s[..k] + ([b] + s[k + 1..]);
    ByteSumConcat(s[..k], [s[k]] + s[k + 1..]);
    ByteSumConcat(s[..k], [b] + s[k + 1..]);
    ByteSumConcat([s[k]], s[k + 1..]);
    ByteSumConcat([b], s[k + 1..]);
    ByteSumOne(s[k]);
    ByteSumOne(b);
  }

  lemma ByteSumOne(b: byte)
    ensures ByteSum([b]) == b
  {
    assert [b][1..] == [];
  }

  lemma SmallChange(sum: nat, a: byte, b: byte)
    requires a != b && sum >= a
    ensures (sum - a + b) % 256 != sum % 256
  {
  }

  /**
   A frame with a valid checksum in which one byte other than start and length is altered is
   still received as a frame, and its checksum is valid if and only if that byte is the last one.
   */
  lemma OneByteAltered(f: Frame, k: nat, b: byte, noise: bytes, rest: bytes)
    requires WellFormed(f) && ValidChecksum(f) && Noise(noise)
    requires k < |Wire(f)| && k != 0 && k != 5 && b != Wire(f)[k]
    ensures var w := Wire(f)[k := b];
            && FrameBytes(w)
            && Receive(noise + w + rest) == (Received(FrameOf(w)), rest)
            && (ValidChecksum(FrameOf(w)) <==> k == |w| - 1)
  {
    hide Receive, ByteSum, Covered;
    var w := Wire(f);
    BytesOfFrame(f);
    FrameOfBytes(w);
    var v := w[k := b];
    FrameOfBytes(v);
    FrameAfterNoise(noise, FrameOf(v), rest);
    var n := |w| - 2;
    if k < n {
      assert v[..n] == w[..n][k := b];
      ByteSumAltered(w[..n], k, b);
      ByteSumHas(w[..n], k);
      SmallChange(ByteSum(w[..n]), w[k], b);
    } else {
      assert v[..n] == w[..n];
    }
  }

  /** A frame whose end byte is 0 instead of a carriage return passes as valid. */
  lemma AlteredEndExample()
    ensures var f := Frame(0, 0, 0, 0, 0, Body(0, 0, []), START, 0);
            Receive([START, 0, 0, 0, 0, 0, START, 0]) == (Received(f), []) && ValidChecksum(f)
  {
    var f := Frame(0, 0, 0, 0, 0, Body(0, 0, []), START, 0);
    HeaderIsStart(f);
    FrameAfterNoise([], f, []);
    assert [] + Wire(f) + [] == [START, 0, 0, 0, 0, 0, START, 0];
  }

  lemma {:induction false} ByteSumHas(s: bytes, k: nat)
    requires k < |s|
    ensures ByteSum(s) >= s[k]
  {
    if k == 0 {
    } else {
      ByteSumHas(s[1..], k - 1);
    }
  }
}
