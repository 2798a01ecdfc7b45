/**
 packet__queue and packet__write: a queue of outgoing packets, written to a socket that may take
 any part of what it is offered. What was queued is always what was sent plus what is left.
 */
module PacketWriter {
  import opened Bytes
  import opened PacketData
  import opened PacketReader

  const CMD_DISCONNECT_NIBBLE: int := 14

  function Concat(parts: seq<bytes>): bytes {
    if parts == [] then [] else parts[0] + Concat(parts[1..])
  }

  lemma {:induction false} ConcatAppend(parts: seq<bytes>, last: bytes)
    ensures Concat(parts + [last]) == Concat(parts) + last
  {
    if parts == [] {
      var none: seq<bytes> := [last][1..];
      assert none == [] && parts + [last] == [last];
    } else {
      ConcatAppend(parts[1..], last);
      assert (parts + [last])[1..] == parts[1..] + [last];
    }
  }

  datatype Link = Closed | ConnectPending | Open

  class Writer {
    var sent: bytes                  // what the socket has taken
    ghost var last: int              // the result of the latest write
    var link: Link
    var currentOutPacket: Packet?
    var outPacket: seq<Packet>
    var outPacketCount: int
    ghost var queued: bytes          // everything ever queued, in queue order
    ghost var contents: seq<bytes>   // the packets still waiting
    ghost var current: bytes         // the whole of the packet being written

    constructor (link: Link)
      ensures this.link == link && Valid()
      ensures queued == [] && sent == [] && outPacket == [] && currentOutPacket == null
    {
      this.link, sent := link, [];
      currentOutPacket, outPacket, outPacketCount := null, [], 0;
      queued, contents, current := [], [], [];
    }

    /** net__write: the socket takes any non-empty part of the data, or refuses with an error. */
    method NetWrite(data: bytes) returns (length: int, errno: Errno)
      modifies this`sent, this`last
      ensures last == length <= |data|
      ensures sent == old(sent) + if length > 0 then data[..length] else []
    {
      length :| -1 <= length <= |data|;
      errno :| true;
      last := length;
      if length > 0 {
        sent := sent + data[..length];
      }
    }

    ghost predicate Waiting(p: Packet, bytes: bytes)
      reads p, p.payload
    {
      p.pos == 0 && p.toProcess == p.packetLength == p.payload.Length && p.payload[..] == bytes
    }

    ghost predicate InProgress(p: Packet, bytes: bytes)
      reads p, p.payload
    {
      p.pos + p.toProcess == p.packetLength == p.payload.Length && p.payload[..] == bytes
    }

    ghost predicate QueueValid()
      reads this`outPacket, this`outPacketCount, this`contents, outPacket, set p | p in outPacket :: p.payload
    {
      && outPacketCount == |outPacket| == |contents|
      && (forall i :: 0 <= i < |outPacket| ==> Waiting(outPacket[i], contents[i]))
      && (forall i, j :: 0 <= i < j < |outPacket| ==> outPacket[i] != outPacket[j])
    }

    ghost predicate CurrentValid()
      reads this`outPacket, this`currentOutPacket, this`current, currentOutPacket, if currentOutPacket == null then {} else {currentOutPacket.payload}
    {
      currentOutPacket != null ==> InProgress(currentOutPacket, current) && currentOutPacket !in outPacket
    }

    /** What is left of the packet being written. */
    ghost function Left(): bytes
      requires CurrentValid()
      reads this`outPacket, this`currentOutPacket, this`current, currentOutPacket, if currentOutPacket == null then {} else {currentOutPacket.payload}
    {
      if currentOutPacket == null then [] else current[currentOutPacket.pos..]
    }

    ghost predicate Valid()
      reads this, outPacket, set p | p in outPacket :: p.payload
      reads currentOutPacket, if currentOutPacket == null then {} else {currentOutPacket.payload}
    {
      && QueueValid() && CurrentValid()
      && queued == sent + Left() + Concat(contents)
    }

    /** The next waiting packet, if there is one, becomes the current packet. */
    method Advance()
      requires QueueValid()
      modifies this`currentOutPacket, this`outPacket, this`outPacketCount, this`contents, this`current
      ensures QueueValid() && CurrentValid()
      ensures old(outPacket) == [] ==>
                outPacket == [] && currentOutPacket == null && contents == old(contents)
      ensures old(outPacket) != [] ==>
                && outPacket == old(outPacket)[1..] && contents == old(contents)[1..]
                && currentOutPacket == old(outPacket)[0] && currentOutPacket.pos == 0
                && current == old(contents)[0]
      ensures Left() + Concat(contents) == Concat(old(contents))
    {
      currentOutPacket := null;
      if outPacket != [] {
        currentOutPacket := outPacket[0];
        current := contents[0];
        outPacket := outPacket[1..];
        contents := contents[1..];
        outPacketCount := outPacketCount - 1;
      }
    }

    /** The append of packet__queue. */
    method Append(packet: Packet)
      requires QueueValid() && CurrentValid() && packet.packetLength == packet.payload.Length
      requires packet !in outPacket && packet != currentOutPacket
      modifies this`outPacket, this`outPacketCount, this`contents, packet`pos, packet`toProcess
      ensures QueueValid() && CurrentValid() && Left() == old(Left())
      ensures contents == old(contents) + [packet.payload[..]] && outPacket == old(outPacket) + [packet]
      ensures Concat(contents) == Concat(old(contents)) + packet.payload[..]
    {
      packet.pos := 0;
      packet.toProcess := packet.packetLength;
      ConcatAppend(contents, packet.payload[..]);
      outPacket := outPacket + [packet];
      contents := contents + [packet.payload[..]];
      outPacketCount := outPacketCount + 1;
    }

    /** packet__queue: append, then write at once unless called back or threaded. */
    method Queue(packet: Packet, writeNow: bool) returns (rc: Rc)
      requires Valid() && packet.packetLength == packet.payload.Length
      requires packet !in outPacket && packet != currentOutPacket
      modifies this, packet, outPacket, currentOutPacket
      ensures Valid() && queued == old(queued + packet.payload[..])
      ensures old(sent) <= sent <= queued
      ensures !writeNow ==> sent == old(sent) && outPacketCount == old(outPacketCount) + 1
    {
      hide Concat;
      ghost var bytes := packet.payload[..];
      Append(packet);
      queued := queued + bytes;
      if writeNow {
        rc := Write();
      } else {
        rc := Success;
      }
    }

    /** One write moved the cursor: the rest of the state is as it was. */
    method Step(length: uint32)
      requires QueueValid() && CurrentValid() && currentOutPacket != null && length <= |Left()|
      modifies currentOutPacket`pos, currentOutPacket`toProcess
      ensures QueueValid() && CurrentValid()
      ensures currentOutPacket.toProcess == old(currentOutPacket.toProcess) - length
      ensures old(Left()) == old(Left())[..length] + Left()
    {
      currentOutPacket.toProcess := currentOutPacket.toProcess - length;
      currentOutPacket.pos := currentOutPacket.pos + length;
    }

    /** The part of the buffer the next write is offered. */
    method Pending() returns (data: bytes)
      requires CurrentValid() && currentOutPacket != null
      ensures data == Left() && |data| == currentOutPacket.toProcess
    {
      var packet := currentOutPacket;
      data := packet.payload[packet.pos..packet.pos + packet.toProcess];
    }

    /** The inner loop: writes the current packet until it is gone or the socket refuses. */
    method WriteCurrent() returns (rc: Rc, done: bool)
      requires Valid() && currentOutPacket != null
      modifies currentOutPacket`pos, currentOutPacket`toProcess, this`sent, this`last
      ensures Valid() && old(sent) <= sent
      ensures if done then Left() == [] else last <= 0
    {
      hide Concat, QueueValid, CurrentValid, Left;
      var data := Pending();
      while currentOutPacket.toProcess > 0
        invariant QueueValid() && CurrentValid() && data == Left() && |data| == currentOutPacket.toProcess
        invariant queued == sent + Left() + Concat(contents)
        invariant old(sent) <= sent
        decreases currentOutPacket.toProcess
      {
        var length, errno := NetWrite(data);
        if length > 0 {
          Step(length);
          data := Pending();
        } else {
          return ErrnoResult(errno), false;
        }
      }
      return Success, true;
    }

    /** A packet is out: the next one becomes current and the old one is cleaned up. */
    method Finish()
      requires Valid() && currentOutPacket != null && Left() == []
      modifies this`currentOutPacket, this`outPacket, this`outPacketCount, this`contents, this`current, this`link
      modifies currentOutPacket
      ensures Valid()
      ensures if old(outPacket) == [] then currentOutPacket == null && outPacket == []
              else currentOutPacket == old(outPacket)[0] && outPacket == old(outPacket)[1..]
      ensures link == if old(currentOutPacket.command) / 0x10 == CMD_DISCONNECT_NIBBLE then Closed else old(link)
    {
      var packet := currentOutPacket;
      if packet.command / 0x10 == CMD_DISCONNECT_NIBBLE {
        link := Closed;
      }
      Next();
      packet.Cleanup();
    }

    method Next()
      requires Valid() && currentOutPacket != null && Left() == []
      modifies this`currentOutPacket, this`outPacket, this`outPacketCount, this`contents, this`current
      ensures Valid() && old(currentOutPacket) !in outPacket && currentOutPacket != old(currentOutPacket)
      ensures if old(outPacket) == [] then currentOutPacket == null && outPacket == []
              else currentOutPacket == old(outPacket)[0] && outPacket == old(outPacket)[1..]
    {
      hide Concat;
      Advance();
    }

    lemma Drained()
      requires Valid() && currentOutPacket == null && outPacket == []
      ensures sent == queued
    {
    }

    /** packet__write. */
    method Write() returns (rc: Rc)
      requires Valid()
      modifies this, outPacket, currentOutPacket
      ensures Valid() && queued == old(queued)
      ensures old(sent) <= sent <= queued
      ensures old(link).Closed? ==> rc == NoConn && sent == old(sent)
      ensures old(link).ConnectPending? ==> sent == old(sent)
      ensures old(link).Open? ==> link.Closed? || last <= 0 || (sent == queued && currentOutPacket == null)
      ensures link == old(link) || link.Closed?
    {
      hide Concat, QueueValid, CurrentValid, Left;
      if link.Closed? {
        return NoConn;
      }
      if outPacket != [] && currentOutPacket == null {
        Start();
      }
      if link.ConnectPending? {
        return Success;
      }
      while currentOutPacket != null
        invariant Valid() && queued == old(queued) && link == old(link) && old(sent) <= sent
        invariant currentOutPacket == null ==> outPacket == []
        invariant currentOutPacket == null || currentOutPacket == old(currentOutPacket) || currentOutPacket in old(outPacket)
        invariant forall p :: p in outPacket ==> p in old(outPacket)
        decreases |outPacket|, if currentOutPacket == null then 0 else 1
      {
        var done;
        rc, done := WriteCurrent();
        if !done {
          return;
        }
        Finish();
        if link.Closed? {
          return Success;
        }
      }
      Drained();
      return Success;
    }

    /** The first step of packet__write: pick up a waiting packet. */
    method Start()
      requires Valid() && outPacket != [] && currentOutPacket == null
      modifies this`currentOutPacket, this`outPacket, this`outPacketCount, this`contents, this`current
      ensures Valid()
      ensures currentOutPacket == old(outPacket)[0] && outPacket == old(outPacket)[1..]
    {
      hide Concat;
      Advance();
    }
  }
}
