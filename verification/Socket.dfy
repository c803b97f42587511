/** A connected TCP socket and the framing loops of the query client and server: filling a buffer
  from short reads, and pushing a buffer out in bounded send calls. */
module Sockets {
  import opened Bytes
  import opened Frames

  /** How a read of a known number of bytes ends: all of them came, the peer closed first, or the
    socket threw. */
  datatype ReadEnd = Full | Eof | Threw

  /** `now` is `was` followed by the sends of `planned`, by all of them exactly if `ok`. */
  ghost predicate SentUpTo(was: seq<Buf>, planned: seq<Buf>, now: seq<Buf>, ok: bool) {
    && |was| <= |now| <= |was| + |planned|
    && now == was + planned[..|now| - |was|]
    && (ok <==> |now| == |was| + |planned|)
  }

  lemma SentSoFar(was: seq<Buf>, done: seq<Buf>, rest: seq<Buf>)
    ensures SentUpTo(was, done + rest, was + done, rest == [])
  {
    assert (done + rest)[..|done|] == done;
  }

  lemma NextChunk(chunks: seq<Buf>, done: seq<Buf>, package: Buf, from: nat, n: nat, max: nat)
    requires max > 0 && from < |package| && n == Min(|package| - from, max)
    requires chunks == done + Chunks(package[from..], max)
    ensures Chunks(package[from..], max) != []
    ensures chunks == done + [package[from..from + n]] + Chunks(package[from + n..], max)
  {
    hide Chunks;
    ChunksStep(package, from, n, max);
    Associative(done, [package[from..from + n]], Chunks(package[from + n..], max));
  }

  class Socket {
    /** The buffers of the successful send calls, oldest first. */
    var sends: seq<Buf>
    /** The bytes the peer gets through before the connection ends, less those already read. */
    var incoming: Buf

    constructor (incoming: Buf)
      ensures sends == [] && this.incoming == incoming
    {
      sends := [];
      this.incoming := incoming;
    }

    /** All or an exception (`ok` is false). */
    method Send(buffer: array<Byte>, from: nat, len: nat) returns (ok: bool)
      requires from + len <= buffer.Length
      modifies this`sends
      ensures sends == if ok then old(sends) + [buffer[from..from + len]] else old(sends)
    {
      ok := *;
      if ok {
        sends := sends + [buffer[from..from + len]];
      }
    }

    /** Between 1 and `len` bytes, however the network cut them; 0 at the end of the connection; -1
      for an exception. */
    method Recv(buffer: array<Byte>, from: nat, len: nat) returns (n: int)
      requires 0 < len && from + len <= buffer.Length
      modifies this`incoming, buffer
      ensures -1 <= n <= Min(len, |old(incoming)|)
      ensures n == 0 ==> old(incoming) == []
      ensures incoming == old(incoming)[if n < 0 then 0 else n..]
      ensures buffer[..] == Splice(old(buffer[..]), from, old(incoming)[..if n < 0 then 0 else n])
    {
      var throws := *;
      if throws {
        n := -1;
      } else if incoming == [] {
        n := 0;
      } else {
        n :| 1 <= n <= len && n <= |incoming|;
        CopyInto(buffer, from, incoming[..n]);
        incoming := incoming[n..];
      }
    }

    /** The receive loop: fill `buffer`, asking for at most `limit` bytes at a time. It takes nothing
      behind the buffer's last byte, however the reads are cut. */
    method RecvAll(buffer: array<Byte>, limit: nat) returns (end: ReadEnd)
      requires limit > 0
      modifies this`incoming, buffer
      ensures end == Full ==> (
        && |old(incoming)| >= buffer.Length
        && buffer[..] == old(incoming)[..buffer.Length]
        && incoming == old(incoming)[buffer.Length..])
      ensures end == Eof ==> |old(incoming)| < buffer.Length && incoming == []
      ensures end == Threw ==>
        exists n :: 0 <= n <= Min(buffer.Length, |old(incoming)|) && incoming == old(incoming)[n..]
    {
      var leftToRecv: nat, totalReceived: nat := buffer.Length, 0;
      while leftToRecv != 0
        invariant leftToRecv + totalReceived == buffer.Length
        invariant 0 <= totalReceived <= |old(incoming)|
        invariant incoming == old(incoming)[totalReceived..]
        invariant buffer[..totalReceived] == old(incoming)[..totalReceived]
      {
        ghost var was := buffer[..];
        var n := Recv(buffer, totalReceived, Min(leftToRecv, limit));
        if n <= 0 {
          return if n == 0 then Eof else Threw;
        }
        assert buffer[..totalReceived] == was[..totalReceived];
        totalReceived := totalReceived + n;
        leftToRecv := leftToRecv - n;
      }
      assert buffer[..totalReceived] == buffer[..];
      return Full;
    }

    /** The send loop: `buffer` in sends of at most `max` bytes. If a send throws, an initial part
      of those sends has happened. */
    method SendAll(buffer: array<Byte>, max: nat) returns (ok: bool)
      requires max > 0
      modifies this`sends
      ensures SentUpTo(old(sends), Chunks(buffer[..], max), sends, ok)
    {
      hide Chunks, SentUpTo;
      ghost var package := buffer[..];
      ghost var chunks, done := Chunks(package, max), [];
      assert package[0..] == package;
      var sizeLeft: nat, totalSent: nat := buffer.Length, 0;
      while sizeLeft > 0
        invariant sizeLeft + totalSent == buffer.Length
        invariant chunks == done + Chunks(package[totalSent..], max)
        invariant sends == old(sends) + done
      {
        var sizeToSend := Min(sizeLeft, max);
        NextChunk(chunks, done, package, totalSent, sizeToSend, max);
        assert buffer[totalSent..totalSent + sizeToSend] == package[totalSent..totalSent + sizeToSend];
        ok := Send(buffer, totalSent, sizeToSend);
        if !ok {
          SentSoFar(old(sends), done, Chunks(package[totalSent..], max));
          return;
        }
        done := done + [buffer[totalSent..totalSent + sizeToSend]];
        sizeLeft := sizeLeft - sizeToSend;
        totalSent := totalSent + sizeToSend;
      }
      ok := true;
      ChunksEnd(max);
      assert package[totalSent..] == [];
      SentSoFar(old(sends), done, []);
    }

    /** Pack `payload` behind its header and send it, header included, in bounded sends. */
    method SendFrame(flags: U32, payload: Buf) returns (ok: bool)
      requires |payload| < WORD
      modifies this`sends
      ensures SentUpTo(old(sends), Chunks(Encode(Frame(flags, payload)), MAXIMUM_PACKAGE_BUFFER_SIZE), sends, ok)
    {
      var sentBuffer := new Byte[HEADER_SIZE + |payload|](_ => 0);
      CopyInto(sentBuffer, HEADER_SIZE, payload);
      CopyInto(sentBuffer, 0, HToNl(|payload|));
      assert sentBuffer[..4] == HToNl(|payload|) && sentBuffer[8..] == payload;
      CopyInto(sentBuffer, 4, HToNl(flags));
      assert sentBuffer[..4] == HToNl(|payload|) && sentBuffer[4..8] == HToNl(flags) && sentBuffer[8..] == payload;
      assert sentBuffer[..] == sentBuffer[..4] + sentBuffer[4..8] + sentBuffer[8..];
      assert sentBuffer[..] == Encode(Frame(flags, payload));
      ok := SendAll(sentBuffer, MAXIMUM_PACKAGE_BUFFER_SIZE);
    }

    /** Read one package: the header, then as many payload bytes as it announces. For every way the
      reads may be cut this is `Decode` of the bytes that arrive, and nothing behind the package is
      taken. */
    method RecvFrame() returns (end: ReadEnd, frame: Frame)
      modifies this`incoming
      ensures end == Full ==> Decode(old(incoming)) == Some((frame, incoming))
      ensures end == Eof ==> Decode(old(incoming)) == None
      ensures |incoming| <= |old(incoming)|
      ensures incoming == old(incoming)[|old(incoming)| - |incoming|..]
      ensures Decode(old(incoming)).Some? ==>
        |Decode(old(incoming)).value.1| <= |incoming|
    {
      frame := Frame(0, []);
      var header := new Byte[HEADER_SIZE](_ => 0);
      end := RecvAll(header, HEADER_SIZE);
      if end != Full {
        return;
      }
      var size := NToHl(header[..4]);
      var flags := NToHl(header[4..8]);
      assert header[..4] == old(incoming)[..4] && header[4..8] == old(incoming)[4..8];

      var recvBuffer := new Byte[size](_ => 0);
      end := RecvAll(recvBuffer, MAXIMUM_PACKAGE_BUFFER_SIZE);
      if end == Full {
        frame := Frame(flags, recvBuffer[..]);
        assert old(incoming)[8..][..size] == old(incoming)[8..8 + size];
      }
    }
  }
}
