// Frames the server writes (src/frame.c) and the queue of bytes the socket has
// not taken yet (send_frame in src/server.c).
module Outbound {
  import opened Bytes
  import opened Protocol
  import Safety

  /* ----- Frames as bytes, and back ----- */

  datatype OutFrame = OutFrame(first: byte, payload: seq<byte>)

  function LengthField(n: nat): seq<byte> {
    if n <= 125 then [n]
    else if n < 0x1_0000 then [126] + ToBigEndian(n, 2)
    else [127] + ToBigEndian(n, 8)
  }

  function Encode(f: OutFrame): seq<byte> {
    [f.first] + LengthField(|f.payload|) + f.payload
  }

  function EncodeAll(frames: seq<OutFrame>): seq<byte> {
    if frames == [] then [] else Encode(frames[0]) + EncodeAll(frames[1..])
  }

  // Reads an unmasked length field, in any of the three forms.
  function ReadLength(s: seq<byte>): Option<(nat, nat)> {
    if s == [] || s[0] >= 128 then None
    else if s[0] <= 125 then Some((s[0], 1))
    else
      var width := if s[0] == 126 then 2 else 8;
      if |s| < 1 + width then None else Some((BigEndian(s[1..1 + width]), 1 + width))
  }

  function ReadFrame(s: seq<byte>): (r: Option<(OutFrame, nat)>)
    ensures r.Some? ==> 0 < r.value.1 <= |s|
  {
    if s == [] then None
    else match ReadLength(s[1..])
      case None => None
      case Some((size, width)) =>
        if |s| < 1 + width + size then None
        else Some((OutFrame(s[0], s[1 + width..1 + width + size]), 1 + width + size))
  }

  // All frames of a byte string that consists of whole frames.
  function ReadAll(s: seq<byte>): Option<seq<OutFrame>>
    decreases |s|
  {
    if s == [] then Some([])
    else match ReadFrame(s)
      case None => None
      case Some((f, n)) =>
        match ReadAll(s[n..])
        case None => None
        case Some(rest) => Some([f] + rest)
  }

  lemma LengthReadBack(n: nat, rest: seq<byte>)
    requires n < 0x1_0000_0000_0000_0000
    ensures ReadLength(LengthField(n) + rest) == Some((n, |LengthField(n)|))
  {
    Pow256Values();
    if n > 125 {
      var width := if n < 0x1_0000 then 2 else 8;
      assert (LengthField(n) + rest)[1..1 + width] == ToBigEndian(n, width);
      BigEndianRoundTrip(n, width);
    }
  }

  // The three forms of a frame, octet by octet.
  lemma EncodeIs(f: OutFrame)
    ensures var n := |f.payload|;
      if n <= 125 then Encode(f) == [f.first, n] + f.payload
      else if n <= 65535 then Encode(f) == [f.first, 126, n / 256, n % 256] + f.payload
      else n < 0x1_0000_0000_0000_0000 ==>
        && |Encode(f)| == 10 + n && Encode(f)[..2] == [f.first, 127]
        && BigEndian(Encode(f)[2..10]) == n && Encode(f)[10..] == f.payload
  {
    var n := |f.payload|;
    if 125 < n <= 65535 {
      assert ToBigEndian(n, 2) == [n / 256, n % 256];
    } else if 65535 < n < 0x1_0000_0000_0000_0000 {
      Pow256Values();
      BigEndianRoundTrip(n, 8);
      assert Encode(f)[2..10] == ToBigEndian(n, 8);
    }
  }

  // No field that reads as n is shorter than the one that is written.
  lemma LengthIsShortest(n: nat, s: seq<byte>, width: nat)
    requires ReadLength(s) == Some((n, width))
    ensures |LengthField(n)| <= width
  {
    Pow256Values();
  }

  lemma FrameReadBack(f: OutFrame, rest: seq<byte>)
    requires |f.payload| < 0x1_0000_0000_0000_0000
    ensures ReadFrame(Encode(f) + rest) == Some((f, |Encode(f)|))
  {
    var s := Encode(f) + rest;
    assert s[1..] == LengthField(|f.payload|) + (f.payload + rest);
    LengthReadBack(|f.payload|, f.payload + rest);
    var w := |LengthField(|f.payload|)|;
    assert s[1 + w..1 + w + |f.payload|] == f.payload;
  }

  predicate AllSmall(frames: seq<OutFrame>) {
    forall i | 0 <= i < |frames| :: |frames[i].payload| < 0x1_0000_0000_0000_0000
  }

  // The wire bytes of any list of frames parse back to that list alone.
  lemma {:induction false} FramesReadBack(frames: seq<OutFrame>)
    requires AllSmall(frames)
    ensures ReadAll(EncodeAll(frames)) == Some(frames)
  {
    if frames != [] {
      var f, rest := frames[0], EncodeAll(frames[1..]);
      FrameReadBack(f, rest);
      assert (Encode(f) + rest)[|Encode(f)|..] == rest;
      FramesReadBack(frames[1..]);
      assert [f] + frames[1..] == frames;
    }
  }

  /* ----- The first byte ----- */

  // The opcode is or-ed into 128 as an unsigned byte, so that INVALID, the
  // type outside a message, sets every bit.
  function FirstByteFor(opcode: int): byte
    requires opcode in {INVALID, TEXT, BINARY, CLOSE, PING, PONG}
  {
    if opcode == INVALID then 255 else 128 + opcode
  }

  // A final frame without reserved bits and with this opcode.
  predicate Announces(first: byte, opcode: int) {
    first >= 128 && first / 16 % 8 == 0 && first % 16 == opcode
  }

  // Every type but INVALID is announced as itself.
  lemma FirstByteIs(opcode: int)
    requires opcode in {INVALID, TEXT, BINARY, CLOSE, PING, PONG}
    ensures opcode != INVALID ==> Announces(FirstByteFor(opcode), opcode)
    ensures FirstByteFor(-1) == 255 && FirstByteFor(1) == 129 && FirstByteFor(2) == 130
    ensures FirstByteFor(8) == 136 && FirstByteFor(9) == 137 && FirstByteFor(10) == 138
  {
  }

  // A message reads back as itself, but it announces a data frame if and only
  // if a message of the peer is in progress: a server that speaks at any
  // other time sends all reserved bits and opcode 15.
  lemma MessageReadBack(messageType: int, message: seq<byte>)
    requires messageType in {INVALID, TEXT, BINARY} && |message| < 0x1_0000_0000_0000_0000
    ensures var f := OutFrame(FirstByteFor(messageType), message);
      && ReadAll(Encode(f)) == Some([f])
      && (Announces(f.first, TEXT) || Announces(f.first, BINARY) <==> messageType != INVALID)
      && (messageType != INVALID ==> Announces(f.first, messageType))
      && (messageType == INVALID ==> f.first / 16 % 8 == 7 && f.first % 16 == 15)
  {
    var f := OutFrame(FirstByteFor(messageType), message);
    FramesReadBack([f]);
    assert EncodeAll([f]) == Encode(f) + EncodeAll([]);
    assert Encode(f) + [] == Encode(f);
  }

  // The bytes of the final frame that carries payload.
  function FrameOf(opcode: int, payload: seq<byte>): seq<byte>
    requires opcode in {INVALID, TEXT, BINARY, CLOSE, PING, PONG}
  {
    Encode(OutFrame(FirstByteFor(opcode), payload))
  }

  /* ----- Replies to the peer ----- */

  function ReplyFrames(log: seq<Event>): seq<OutFrame> {
    if log == [] then []
    else
      (match log[0]
       case Deliver(_, _) => []
       case Pong(payload) => [OutFrame(FirstByteFor(PONG), payload)]
       case CloseReply(payload) => [OutFrame(FirstByteFor(CLOSE), payload)])
      + ReplyFrames(log[1..])
  }

  predicate AllControl(frames: seq<OutFrame>) {
    forall i | 0 <= i < |frames| ::
      && |frames[i].payload| <= CONTROL_FRAME_BUFFER_SIZE
      && (Announces(frames[i].first, PONG) || Announces(frames[i].first, CLOSE))
  }

  lemma {:induction false} ReplyFramesFit(log: seq<Event>)
    requires forall i | 0 <= i < |log| :: Safety.EventOk(log[i])
    ensures AllControl(ReplyFrames(log))
  {
    if log != [] {
      assert Safety.EventOk(log[0]);
      ReplyFramesFit(log[1..]);
    }
  }

  // One more reply is one more frame: a pong or a close frame with its payload.
  lemma {:induction false} ReplyFramesGrow(log: seq<Event>, e: Event)
    ensures ReplyFrames([]) == []
    ensures ReplyFrames(log + [e]) == ReplyFrames(log) +
      (match e
       case Deliver(_, _) => []
       case Pong(payload) => [OutFrame(138, payload)]
       case CloseReply(payload) => [OutFrame(136, payload)])
    decreases log
  {
    if log == [] {
      assert [e][1..] == [];
    } else {
      assert (log + [e])[1..] == log[1..] + [e];
      ReplyFramesGrow(log[1..], e);
    }
  }

  // The frame of reply i comes after those of the replies before it.
  lemma {:induction false} ReplyFrameAt(log: seq<Event>, i: nat)
    requires i < |log|
    ensures var k := |ReplyFrames(log[..i])|;
      if log[i].Deliver? then |ReplyFrames(log[..i + 1])| == k
      else
        && |ReplyFrames(log[..i + 1])| == k + 1 <= |ReplyFrames(log)|
        && ReplyFrames(log)[k] == OutFrame(if log[i].Pong? then 138 else 136, log[i].payload)
    decreases |log|
  {
    var n := |log| - 1;
    assert log == log[..n] + [log[n]] && log[..n + 1] == log;
    ReplyFramesGrow(log[..n], log[n]);
    if i < n {
      ReplyFrameAt(log[..n], i);
      assert log[..n][..i] == log[..i] && log[..n][..i + 1] == log[..i + 1];
    }
  }

  // Whatever a peer sends, the replies it is owed are well-formed control
  // frames, and their bytes read back as exactly these: one for each pong and
  // each close reply, in order.
  lemma RepliesReadBack(host: Host, bytes: seq<byte>)
    ensures var log := Fold(host, INITIAL, bytes).log;
      var frames := ReplyFrames(log);
      && AllControl(frames) && ReadAll(EncodeAll(frames)) == Some(frames)
      && |frames| == |set i | 0 <= i < |log| && !log[i].Deliver?|
      && forall i | 0 <= i < |log| && !log[i].Deliver? ::
           var k := |ReplyFrames(log[..i])|;
           k < |frames| && frames[k] == OutFrame(if log[i].Pong? then 138 else 136, log[i].payload)
  {
    Safety.EveryRunIsSafe(host, bytes);
    var log := Fold(host, INITIAL, bytes).log;
    ReplyFramesFit(log);
    FramesReadBack(ReplyFrames(log));
    ReplyCount(log);
    forall i | 0 <= i < |log| && !log[i].Deliver?
      ensures var k := |ReplyFrames(log[..i])|;
        k < |ReplyFrames(log)| && ReplyFrames(log)[k] == OutFrame(if log[i].Pong? then 138 else 136, log[i].payload)
    {
      ReplyFrameAt(log, i);
    }
  }

  lemma {:induction false} ReplyCount(log: seq<Event>)
    ensures |ReplyFrames(log)| == |set i | 0 <= i < |log| && !log[i].Deliver?|
    decreases |log|
  {
    if log != [] {
      var n := |log| - 1;
      assert log == log[..n] + [log[n]];
      ReplyCount(log[..n]);
      ReplyFramesGrow(log[..n], log[n]);
      var before := set i | 0 <= i < n && !log[..n][i].Deliver?;
      assert (set i | 0 <= i < |log| && !log[i].Deliver?) == before + (if log[n].Deliver? then {} else {n});
    }
  }

  /* ----- What the socket does with bytes it is offered ----- */

  const WOULD_BLOCK: int64 := -1

  // What the calls to come will return: at most that many bytes, 0,
  // WOULD_BLOCK or another error.  When it is used up, they would block.
  type Script = seq<int64>

  // Bytes offered to the socket until it stops taking them.
  datatype Sending = Sending(taken: nat, failed: bool, script: Script)

  function SendAll(script: Script, size: nat): (r: Sending)
    ensures r.taken <= size && (r.failed ==> r.taken < size)
  {
    if size == 0 then Sending(0, false, script)
    else if script == [] then Sending(0, false, [])
    else if script[0] <= 0 then Sending(0, script[0] != WOULD_BLOCK, script[1..])
    else
      var sent := if script[0] > size then size else script[0];
      var more := SendAll(script[1..], size - sent);
      more.(taken := sent + more.taken)
  }

  // The first call that takes nothing, and what those before it may take.
  function Stop(script: Script): (k: nat)
    ensures k <= |script| && (k < |script| ==> script[k] <= 0)
    ensures forall i | 0 <= i < k :: script[i] > 0
  {
    if script == [] || script[0] <= 0 then 0 else 1 + Stop(script[1..])
  }

  function Sum(script: Script): int {
    if script == [] then 0 else script[0] + Sum(script[1..])
  }

  function Offered(script: Script): int {
    Sum(script[..Stop(script)])
  }

  // The socket reports a failure before it has taken size bytes.
  predicate BreaksOff(script: Script, size: nat) {
    && Offered(script) < size
    && Stop(script) < |script| && script[Stop(script)] != WOULD_BLOCK
  }

  lemma {:induction false} SendAllIs(script: Script, size: nat)
    ensures Offered(script) >= 0
    ensures SendAll(script, size).taken == (if Offered(script) < size then Offered(script) else size)
    ensures SendAll(script, size).failed <==> BreaksOff(script, size)
    decreases script
  {
    if script != [] && script[0] > 0 {
      var k, sent := Stop(script[1..]), if script[0] > size then size else script[0];
      assert script[..1 + k][1..] == script[1..][..k];
      SendAllIs(script[1..], size - sent);
    }
  }

  predicate NoFailure(script: Script) {
    forall i | 0 <= i < |script| :: script[i] > 0 || script[i] == WOULD_BLOCK
  }

  lemma {:induction false} NoFailureStays(script: Script, size: nat)
    requires NoFailure(script)
    ensures NoFailure(SendAll(script, size).script) && !BreaksOff(script, size)
    decreases script
  {
    SendAllIs(script, size);
    if size > 0 && script != [] && script[0] > 0 {
      NoFailureStays(script[1..], size - if script[0] > size then size else script[0]);
    }
  }

  /* ----- The pending-output queue ----- */

  // A connection's outgoing side: what the socket has taken so far, what it is
  // still to be offered, and how it will answer.
  datatype Link = Link(accepted: seq<byte>, pending: seq<byte>, script: Script)

  predicate Succeeds(l: Link, bytes: seq<byte>) {
    !SendAll(l.script, |l.pending + bytes|).failed
  }

  // One call with more bytes to send.  If all goes well, what the socket has
  // not taken is pending.  If the socket fails, what was kept in the queue
  // stays there as a whole, including the bytes just taken from it, and a
  // frame that was not kept is forgotten.
  function LinkAfter(l: Link, bytes: seq<byte>): Link {
    var all := l.pending + bytes;
    var r := SendAll(l.script, |all|);
    Link(l.accepted + all[..r.taken], if !r.failed then all[r.taken..] else if l.pending != [] then all else [], r.script)
  }

  ghost predicate Attempted(l: Link, bytes: seq<byte>, m: Link, ok: bool) {
    m == LinkAfter(l, bytes) && ok == Succeeds(l, bytes)
  }

  predicate Harmless(l: Link, bytes: seq<byte>) {
    !BreaksOff(l.script, |l.pending + bytes|) || (l.pending != [] && Stop(l.script) == 0)
  }

  predicate Conserved(l: Link, bytes: seq<byte>, m: Link) {
    m.accepted + m.pending == l.accepted + l.pending + bytes
  }

  // Nothing is lost, repeated or reordered if and only if the socket does not
  // fail before it has taken everything, or fails at once and bytes were
  // pending.
  lemma ConservedIff(l: Link, bytes: seq<byte>)
    ensures Conserved(l, bytes, LinkAfter(l, bytes)) <==> Harmless(l, bytes)
  {
    var all, m := l.pending + bytes, LinkAfter(l, bytes);
    var n := SendAll(l.script, |all|).taken;
    SendAllIs(l.script, |all|);
    assert l.accepted + l.pending + bytes == l.accepted + all && all == all[..n] + all[n..];
    if Stop(l.script) == 0 {
      assert n == 0 && all[..n] == [] && all[n..] == all;
    } else {
      assert Sum(l.script[..Stop(l.script)]) > 0 by {
        SumPositive(l.script[..Stop(l.script)]);
      }
    }
    if SendAll(l.script, |all|).failed && !Harmless(l, bytes) {
      assert |m.accepted + m.pending| != |l.accepted + all|;
    } else {
      assert m.accepted + m.pending == l.accepted + all;
    }
  }

  lemma NothingSent(l: Link)
    ensures Conserved(l, [], l)
  {
  }

  lemma ConservedThen(l: Link, sent: seq<byte>, m: Link, bytes: seq<byte>, n: Link)
    requires Conserved(l, sent, m)
    ensures Conserved(m, bytes, n) <==> Conserved(l, sent + bytes, n)
  {
    assert l.accepted + l.pending + (sent + bytes) == l.accepted + l.pending + sent + bytes;
  }

  lemma {:induction false} SumPositive(script: Script)
    requires script != [] && forall i | 0 <= i < |script| :: script[i] > 0
    ensures Sum(script) > 0
  {
    if |script| > 1 {
      SumPositive(script[1..]);
    }
  }

  // A call without failure leaves nothing pending if and only if the socket
  // offers to take everything.
  lemma EmptiedIff(l: Link, bytes: seq<byte>)
    requires !BreaksOff(l.script, |l.pending + bytes|)
    ensures LinkAfter(l, bytes).pending == [] <==> Offered(l.script) >= |l.pending + bytes|
  {
    SendAllIs(l.script, |l.pending + bytes|);
  }

  // A frame of two bytes of which the socket takes one before it fails.
  lemma FrameCutShort(a: byte, b: byte)
    ensures var l := Link([], [], [1, 0]);
      && BreaksOff(l.script, 2) && !Succeeds(l, [a, b])
      && LinkAfter(l, [a, b]) == Link([a], [], [])
  {
    var l := Link([], [], [1, 0]);
    SendAllIs(l.script, 2);
    assert l.script[1..] == [0] && l.pending + [a, b] == [a, b];
    assert SendAll([0], 1) == Sending(0, true, []);
  }

  // The same with the two bytes pending: the next call repeats the first.
  lemma ByteRepeated(a: byte, b: byte)
    ensures var l := Link([], [a, b], [1, 0, 2]);
      && LinkAfter(l, []) == Link([a], [a, b], [2])
      && LinkAfter(LinkAfter(l, []), []) == Link([a, a, b], [], [])
  {
    var l := Link([], [a, b], [1, 0, 2]);
    assert l.script[1..] == [0, 2] && [0, 2][1..] == [2] && l.pending + [] == [a, b];
    assert SendAll([0, 2], 1) == Sending(0, true, [2]);
    assert SendAll([2], 2) == Sending(2, false, []);
  }

  // Appending to a pending buffer and sending that.
  lemma SentTogether(l: Link, bytes: seq<byte>, m: Link, ok: bool)
    requires l.pending != [] && Attempted(l.(pending := l.pending + bytes), [], m, ok)
    ensures Attempted(l, bytes, m, ok)
  {
    assert l.pending + bytes + [] == l.pending + bytes;
  }

  // A frame sent with nothing pending before it.
  lemma FreshSent(l: Link, bytes: seq<byte>, n: nat, failed: bool, script: Script)
    requires l.pending == [] && SendAll(l.script, |bytes|) == Sending(n, failed, script)
    ensures n <= |bytes| && (failed ==> n < |bytes|)
    ensures Attempted(l, bytes, Link(l.accepted + bytes[..n], if failed then [] else bytes[n..], script), !failed)
  {
    assert l.pending + bytes == bytes;
  }

  // What is pending sent again, from its beginning.
  lemma PendingSent(l: Link, n: nat, failed: bool, script: Script)
    requires l.pending != [] && SendAll(l.script, |l.pending|) == Sending(n, failed, script)
    ensures n <= |l.pending| && (failed ==> n < |l.pending|)
    ensures Attempted(l, [], Link(l.accepted + l.pending[..n], if failed then l.pending else l.pending[n..], script), !failed)
  {
    assert l.pending + [] == l.pending;
  }

  lemma SliceOfSlice(s: seq<byte>, a: nat, b: nat, c: nat)
    requires a <= b <= c <= |s|
    ensures s[a..c][..b - a] == s[a..b] && s[a..c][b - a..] == s[b..c]
  {
  }

  class Wire {
    var accepted: seq<byte>
    var script: Script

    method Send(buf: array<byte>, start: nat, size: int64) returns (sent: int64)
      requires 0 < size && start + size <= buf.Length
      modifies this
      ensures script == if old(script) == [] then [] else old(script)[1..]
      ensures sent == if old(script) == [] then WOULD_BLOCK else if old(script)[0] > size then size else old(script)[0]
      ensures accepted == old(accepted) + buf[start..start + (if sent > 0 then sent else 0)]
    {
      if script == [] {
        sent := WOULD_BLOCK;
      } else {
        sent := if script[0] > size then size else script[0];
        script := script[1..];
      }
      accepted := accepted + buf[start..start + (if sent > 0 then sent else 0)];
    }
  }

  // The outgoing side a sender and its socket stand for.
  ghost function LinkOf(sender: Sender, wire: Wire): Link
    requires sender.Valid()
    reads sender, sender.sendBuffer, wire
  {
    Link(wire.accepted, sender.Pending(), wire.script)
  }

  class Sender {
    var sendBuffer: array?<byte>
    var sendBufferSize: uint64
    var sendStart: uint64
    // Whether the event loop has been asked to report a writable socket.
    var writeNotify: bool

    // A pending buffer holds unsent bytes, and exactly then is notification on.
    ghost predicate Valid()
      reads this
    {
      && (if sendBuffer == null then sendBufferSize == sendStart == 0
          else sendBuffer.Length == sendBufferSize && sendStart < sendBufferSize)
      && writeNotify == (sendBuffer != null)
    }

    // What is still to be sent.
    ghost function Pending(): seq<byte>
      requires Valid()
      reads this, sendBuffer
    {
      if sendBuffer == null then [] else sendBuffer[sendStart..sendBufferSize]
    }

    lemma QueueIs()
      requires Valid()
      ensures writeNotify == (sendBuffer != null) == (Pending() != [])
    {
    }

    constructor ()
      ensures Valid() && Pending() == []
    {
      sendBuffer, sendBufferSize, sendStart, writeNotify := null, 0, 0, false;
    }

    // Puts the unsent bytes and the new frame into one buffer; nothing has
    // been sent of it.
    method Append(frame: array<byte>, size: uint64)
      requires Valid() && sendBuffer != null && frame != sendBuffer
      requires size <= frame.Length && sendBufferSize - sendStart + size < 0x1_0000_0000_0000_0000
      modifies `sendBuffer, `sendBufferSize, `sendStart
      ensures Valid() && fresh(sendBuffer) && sendStart == 0 && sendBufferSize <= old(sendBufferSize) + size
      ensures Pending() == old(Pending()) + frame[..size]
    {
      var pending: uint64 := sendBufferSize - sendStart;
      var joined := new byte[pending + size];
      forall k | 0 <= k < pending {
        joined[k] := sendBuffer[sendStart + k];
      }
      forall k | 0 <= k < size {
        joined[pending + k] := frame[k];
      }
      sendBuffer, sendBufferSize, sendStart := joined, pending + size, 0;
      assert joined[0..pending + size] == joined[..pending] + joined[pending..];
    }

    // Sends buf[from..size] until the socket takes no more.
    static method SendLoop(wire: Wire, buf: array<byte>, from: uint64, size: uint64)
      returns (total: uint64, failed: bool)
      requires from <= size <= buf.Length && size < 0x8000_0000_0000_0000
      modifies wire
      ensures from <= total <= size && wire.accepted == old(wire.accepted) + buf[from..total]
      ensures SendAll(old(wire.script), size - from) == Sending(total - from, failed, wire.script)
    {
      total := from;
      while total < size
        invariant from <= total <= size
        invariant wire.accepted == old(wire.accepted) + buf[from..total]
        invariant var rest := SendAll(wire.script, size - total);
          SendAll(old(wire.script), size - from) == rest.(taken := total - from + rest.taken)
      {
        var sent := wire.Send(buf, total, size - total);
        if sent <= 0 {
          return total, sent != WOULD_BLOCK;
        }
        assert buf[from..total + sent] == buf[from..total] + buf[total..total + sent];
        total := total + sent;
      }
      failed := false;
    }

    ghost predicate Fits(size: int)
      requires Valid()
      reads this
    {
      sendBufferSize + size < 0x8000_0000_0000_0000
    }

    // Carries on with the pending bytes.
    method SendPending(wire: Wire) returns (ok: bool)
      requires Valid() && sendBuffer != null && sendBufferSize < 0x8000_0000_0000_0000
      modifies this, wire
      ensures Valid() && sendBufferSize <= old(sendBufferSize)
      ensures sendBuffer in {null, old(sendBuffer)}
      ensures Attempted(old(LinkOf(this, wire)), [], LinkOf(this, wire), ok)
    {
      ghost var l, all, from := LinkOf(this, wire), Pending(), sendStart;
      hide Attempted, SendAll;
      var totalBytesSent, failed := SendLoop(wire, sendBuffer, sendStart, sendBufferSize);
      PendingSent(l, totalBytesSent - from, failed, wire.script);
      SliceOfSlice(sendBuffer[..], from, totalBytesSent, sendBufferSize);
      if totalBytesSent == sendBufferSize {
        sendBuffer, sendStart, sendBufferSize, writeNotify := null, 0, 0, false;
        return true;
      }
      if !failed {
        sendStart := totalBytesSent;
      }
      ok := !failed;
    }

    // Sends a frame with nothing pending before it; what is left of it becomes
    // pending.
    method SendFresh(wire: Wire, frame: array<byte>, size: uint64) returns (ok: bool)
      requires Valid() && sendBuffer == null && size <= frame.Length && size < 0x8000_0000_0000_0000
      modifies this, wire
      ensures Valid() && sendBufferSize <= size && (sendBuffer != null ==> fresh(sendBuffer))
      ensures Attempted(old(LinkOf(this, wire)), frame[..size], LinkOf(this, wire), ok)
    {
      ghost var l, all := LinkOf(this, wire), frame[..size];
      hide Attempted, SendAll;
      var totalBytesSent, failed := SendLoop(wire, frame, 0, size);
      FreshSent(l, all, totalBytesSent, failed, wire.script);
      assert frame[0..totalBytesSent] == all[..totalBytesSent];
      if totalBytesSent == size {
        assert all[size..] == [];
        return true;
      }
      if failed {
        return false;
      }
      Keep(frame, totalBytesSent, size);
      assert frame[totalBytesSent..size] == all[totalBytesSent..];
      return true;
    }

    // What is left of a frame becomes pending.
    method Keep(frame: array<byte>, from: uint64, size: uint64)
      requires from < size <= frame.Length
      modifies this
      ensures Valid() && fresh(sendBuffer) && sendBufferSize == size - from
      ensures Pending() == frame[from..size]
    {
      sendBufferSize, sendStart, writeNotify := size - from, 0, true;
      sendBuffer := new byte[sendBufferSize];
      forall k | 0 <= k < sendBufferSize {
        sendBuffer[k] := frame[from + k];
      }
    }

    // Submits a frame, or with null carries on with what is pending.
    method SendFrame(wire: Wire, frame: array?<byte>, size: uint64) returns (ok: bool)
      requires Valid() && Fits(size)
      requires if frame == null then size == 0 else size <= frame.Length && frame != sendBuffer
      modifies this, wire
      ensures Valid() && sendBufferSize <= old(sendBufferSize) + size
      ensures sendBuffer in {null, old(sendBuffer)} || fresh(sendBuffer)
      ensures Attempted(old(LinkOf(this, wire)), if frame == null then [] else old(frame[..size]), LinkOf(this, wire), ok)
      ensures writeNotify == (sendBuffer != null) && (sendBuffer != null ==> sendStart < sendBufferSize)
    {
      if frame == null && sendBuffer == null {
        return true;
      }
      hide Attempted;
      if sendBuffer == null {
        ok := SendFresh(wire, frame, size);
        return;
      }
      if frame == null {
        ok := SendPending(wire);
        return;
      }
      ghost var l, bytes := LinkOf(this, wire), frame[..size];
      Append(frame, size);
      ok := SendPending(wire);
      SentTogether(l, bytes, LinkOf(this, wire), ok);
    }

    static method Assemble(first: byte, lengthByte: byte, digits: seq<byte>, message: array<byte>, size: nat)
      returns (frame: array<byte>)
      requires size <= message.Length
      ensures fresh(frame) && frame[..] == [first] + ([lengthByte] + digits) + message[..size]
    {
      var head := [first] + ([lengthByte] + digits);
      frame := new byte[|head| + size];
      forall k | 0 <= k < |head| {
        frame[k] := head[k];
      }
      forall k | 0 <= k < size {
        frame[|head| + k] := message[k];
      }
      assert frame[..] == frame[..|head|] + frame[|head|..];
    }

    method SendDataFrame(wire: Wire, messageType: int, message: array<byte>, size: uint64) returns (ok: bool)
      requires Valid() && size <= message.Length && messageType in {INVALID, TEXT, BINARY}
      requires Fits(|FrameOf(messageType, message[..size])|)
      modifies this, wire
      ensures Valid() && sendBufferSize <= old(sendBufferSize) + |FrameOf(messageType, old(message[..size]))|
      ensures sendBuffer in {null, old(sendBuffer)} || fresh(sendBuffer)
      ensures Attempted(old(LinkOf(this, wire)), FrameOf(messageType, old(message[..size])), LinkOf(this, wire), ok)
    {
      var payloadSize: byte, sizeLength: nat := 127, 8;
      if size <= 125 {
        payloadSize, sizeLength := size, 0;
      } else if size <= 65535 {
        payloadSize, sizeLength := 126, 2;
      }
      var digits := ToBigEndian(size, sizeLength);
      assert [payloadSize] + digits == LengthField(size);
      var finalFrame := Assemble(FirstByteFor(messageType), payloadSize, digits, message, size);
      WholeFrame(finalFrame, 2 + sizeLength + size, messageType, message[..size]);
      hide LengthField, Attempted, FirstByteFor, FrameOf, Encode;
      ok := SendFrame(wire, finalFrame, 2 + sizeLength + size);
    }

    // Pongs and close frames; no caller passes more than 125 bytes.
    method SendControlFrame(wire: Wire, opcode: int, message: array<byte>, size: uint8) returns (ok: bool)
      requires Valid() && size <= message.Length && opcode in {CLOSE, PING, PONG}
      requires Fits(|FrameOf(opcode, message[..size])|) && size <= CONTROL_FRAME_BUFFER_SIZE
      modifies this, wire
      ensures Valid() && sendBufferSize <= old(sendBufferSize) + |FrameOf(opcode, old(message[..size]))|
      ensures sendBuffer in {null, old(sendBuffer)} || fresh(sendBuffer)
      ensures Attempted(old(LinkOf(this, wire)), FrameOf(opcode, old(message[..size])), LinkOf(this, wire), ok)
    {
      assert [size % 128] + [] == LengthField(size);
      var frame := Assemble(FirstByteFor(opcode), size % 128, [], message, size);
      WholeFrame(frame, size + 2, opcode, message[..size]);
      hide LengthField, Attempted, FirstByteFor, FrameOf, Encode;
      ok := SendFrame(wire, frame, size + 2);
    }
  }

  lemma WholeFrame(frame: array<byte>, size: nat, opcode: int, message: seq<byte>)
    requires opcode in {INVALID, TEXT, BINARY, CLOSE, PING, PONG}
    requires frame.Length == size && frame[..] == [FirstByteFor(opcode)] + LengthField(|message|) + message
    ensures frame[..size] == FrameOf(opcode, message)
  {
  }

  // What a handler asks for, or the event loop reporting a writable socket.
  datatype Request = Message(messageType: int, message: seq<byte>) | Control(opcode: int, payload: seq<byte>) | Flush

  predicate Sendable(r: Request) {
    match r
    case Message(messageType, message) => messageType in {INVALID, TEXT, BINARY} && |message| < 0x1_0000_0000_0000_0000
    case Control(opcode, payload) => opcode in {CLOSE, PING, PONG} && |payload| <= CONTROL_FRAME_BUFFER_SIZE
    case Flush => true
  }

  function FramesFor(r: Request): seq<OutFrame>
    requires Sendable(r)
  {
    match r
    case Message(messageType, message) => [OutFrame(FirstByteFor(messageType), message)]
    case Control(opcode, payload) => [OutFrame(FirstByteFor(opcode), payload)]
    case Flush => []
  }

  function BytesFor(r: Request): seq<byte>
    requires Sendable(r)
  {
    match r
    case Message(messageType, message) => FrameOf(messageType, message)
    case Control(opcode, payload) => FrameOf(opcode, payload)
    case Flush => []
  }

  predicate AllSendable(requests: seq<Request>) {
    forall r | r in requests :: Sendable(r)
  }

  function Submitted(requests: seq<Request>): seq<OutFrame>
    requires AllSendable(requests)
  {
    if requests == [] then [] else FramesFor(requests[0]) + Submitted(requests[1..])
  }

  lemma SubmittedBytes(requests: seq<Request>)
    requires AllSendable(requests) && requests != []
    ensures EncodeAll(Submitted(requests)) == BytesFor(requests[0]) + EncodeAll(Submitted(requests[1..]))
  {
    var rest := Submitted(requests[1..]);
    match requests[0]
    case Flush =>
      assert Submitted(requests) == rest;
    case _ =>
      var frames := FramesFor(requests[0]);
      assert (frames + rest)[1..] == rest;
  }

  lemma NothingSubmitted(requests: seq<Request>)
    requires requests == []
    ensures EncodeAll(Submitted(requests)) == []
  {
  }

  // One more request is one more frame, with its payload, or none for a flush.
  lemma {:induction false} SubmittedGrow(requests: seq<Request>, r: Request)
    requires AllSendable(requests) && Sendable(r)
    ensures AllSendable(requests + [r]) && Submitted([]) == []
    ensures Submitted(requests + [r]) == Submitted(requests) +
      (match r
       case Message(messageType, message) =>
         [OutFrame(if messageType == 1 then 129 else if messageType == 2 then 130 else 255, message)]
       case Control(opcode, payload) =>
         [OutFrame(if opcode == 8 then 136 else if opcode == 9 then 137 else 138, payload)]
       case Flush => [])
    decreases requests
  {
    if requests == [] {
      assert requests + [r] == [r] && [r][1..] == [];
    } else {
      assert (requests + [r])[1..] == requests[1..] + [r];
      SubmittedGrow(requests[1..], r);
    }
  }

  // Whatever was asked for reads back from the bytes sent for it.
  lemma {:induction false} SubmittedReadBack(requests: seq<Request>)
    requires AllSendable(requests)
    ensures ReadAll(EncodeAll(Submitted(requests))) == Some(Submitted(requests))
  {
    SubmittedSmall(requests);
    FramesReadBack(Submitted(requests));
  }

  lemma {:induction false} SubmittedSmall(requests: seq<Request>)
    requires AllSendable(requests)
    ensures AllSmall(Submitted(requests))
  {
    if requests != [] {
      var frames := FramesFor(requests[0]);
      assert AllSmall(frames) by {
        assert requests[0] in requests;
      }
      SubmittedSmall(requests[1..]);
    }
  }

  method Submit(sender: Sender, wire: Wire, r: Request) returns (ok: bool)
    requires Sendable(r) && sender.Valid() && sender.Fits(|BytesFor(r)|)
    modifies sender, wire
    ensures sender.Valid() && sender.sendBufferSize <= old(sender.sendBufferSize) + |BytesFor(r)|
    ensures sender.sendBuffer in {null, old(sender.sendBuffer)} || fresh(sender.sendBuffer)
    ensures Attempted(old(LinkOf(sender, wire)), BytesFor(r), LinkOf(sender, wire), ok)
  {
    hide Attempted, FrameOf;
    match r {
      case Flush =>
        ok := sender.SendFrame(wire, null, 0);
      case Message(messageType, message) =>
        var text := ArrayOf(message);
        ok := sender.SendDataFrame(wire, messageType, text, |message|);
      case Control(opcode, payload) =>
        var text := ArrayOf(payload);
        ok := sender.SendControlFrame(wire, opcode, text, |payload|);
    }
  }

  method ArrayOf(s: seq<byte>) returns (a: array<byte>)
    ensures fresh(a) && a.Length == |s| && a[..|s|] == s
  {
    a := new byte[|s|](k requires 0 <= k < |s| => s[k]);
  }

  /* ----- Runs ----- */

  // One request after the other, whatever their results.
  function RunAll(l: Link, requests: seq<Request>): Link
    requires AllSendable(requests)
    decreases requests
  {
    if requests == [] then l else RunAll(LinkAfter(l, BytesFor(requests[0])), requests[1..])
  }

  predicate AllHarmless(l: Link, requests: seq<Request>)
    requires AllSendable(requests)
    decreases requests
  {
    requests == [] ||
    (&& Harmless(l, BytesFor(requests[0]))
     && AllHarmless(LinkAfter(l, BytesFor(requests[0])), requests[1..]))
  }

  // After a run without harm, the bytes on the wire and those pending are
  // together exactly the frames submitted, in order.
  lemma {:induction false} RunConserves(l: Link, requests: seq<Request>)
    requires AllSendable(requests) && AllHarmless(l, requests)
    ensures Conserved(l, EncodeAll(Submitted(requests)), RunAll(l, requests))
    decreases requests
  {
    hide LinkAfter, Harmless, EncodeAll, Submitted, Conserved;
    if requests == [] {
      NothingSubmitted(requests);
      NothingSent(l);
    } else {
      var bytes, tail := BytesFor(requests[0]), EncodeAll(Submitted(requests[1..]));
      ConservedIff(l, bytes);
      RunConserves(LinkAfter(l, bytes), requests[1..]);
      SubmittedBytes(requests);
      ConservedThen(l, bytes, LinkAfter(l, bytes), tail, RunAll(l, requests));
    }
  }

  // A socket that never fails does no harm.
  lemma {:induction false} NoFailureNoHarm(l: Link, requests: seq<Request>)
    requires AllSendable(requests) && NoFailure(l.script)
    ensures AllHarmless(l, requests)
    decreases requests
  {
    if requests != [] {
      var bytes := BytesFor(requests[0]);
      NoFailureStays(l.script, |l.pending + bytes|);
      NoFailureNoHarm(LinkAfter(l, bytes), requests[1..]);
    }
  }

  // The bytes on the wire are the beginning of what was submitted, also after
  // a call that did harm, if it was the first to do so.
  lemma {:induction false} PrefixUntilHarm(l: Link, requests: seq<Request>, last: Request)
    requires AllSendable(requests) && Sendable(last) && AllHarmless(l, requests)
    ensures LinkAfter(RunAll(l, requests), BytesFor(last)).accepted
         <= l.accepted + l.pending + EncodeAll(Submitted(requests)) + BytesFor(last)
  {
    RunConserves(l, requests);
    var m, bytes := RunAll(l, requests), BytesFor(last);
    var n := SendAll(m.script, |m.pending + bytes|).taken;
    assert m.accepted + (m.pending + bytes) == m.accepted + m.pending + bytes;
    assert m.accepted + (m.pending + bytes)[..n] <= m.accepted + (m.pending + bytes);
  }

  // The condition is exact: at the first call that does harm, something has
  // been lost or repeated.
  lemma HarmLoses(l: Link, requests: seq<Request>, last: Request)
    requires AllSendable(requests) && Sendable(last) && AllHarmless(l, requests)
    requires !Harmless(RunAll(l, requests), BytesFor(last))
    ensures !Conserved(l, EncodeAll(Submitted(requests)) + BytesFor(last), LinkAfter(RunAll(l, requests), BytesFor(last)))
  {
    hide LinkAfter, Harmless, EncodeAll, Conserved;
    RunConserves(l, requests);
    var m, bytes := RunAll(l, requests), BytesFor(last);
    ConservedIff(m, bytes);
    ConservedThen(l, EncodeAll(Submitted(requests)), m, bytes, LinkAfter(m, bytes));
  }

  // Any run of messages, control frames and flushes, with any partial sends.
  // As in the event loop, the results of the calls are ignored.
  method RunRequests(sender: Sender, wire: Wire, requests: seq<Request>)
    requires AllSendable(requests) && sender.Valid() && sender.Fits(|EncodeAll(Submitted(requests))|)
    modifies sender, wire
    ensures sender.Valid() && sender.writeNotify == (sender.sendBuffer != null) == (sender.Pending() != [])
    ensures LinkOf(sender, wire) == RunAll(old(LinkOf(sender, wire)), requests)
    ensures AllHarmless(old(LinkOf(sender, wire)), requests) ==>
      Conserved(old(LinkOf(sender, wire)), EncodeAll(Submitted(requests)), LinkOf(sender, wire))
    ensures NoFailure(old(wire.script)) ==>
      && Conserved(old(LinkOf(sender, wire)), EncodeAll(Submitted(requests)), LinkOf(sender, wire))
      && (old(wire.accepted + sender.Pending()) == [] && sender.sendBuffer == null ==>
            ReadAll(wire.accepted) == Some(Submitted(requests)))
  {
    ghost var l, total := LinkOf(sender, wire), sender.sendBufferSize + |EncodeAll(Submitted(requests))|;
    hide EncodeAll, Submitted, BytesFor, Sendable, ReadAll, LinkAfter, AllHarmless, Conserved;
    assert requests[0..] == requests;
    for i := 0 to |requests|
      invariant sender.Valid() && RunAll(LinkOf(sender, wire), requests[i..]) == RunAll(l, requests)
      invariant sender.sendBufferSize + |EncodeAll(Submitted(requests[i..]))| <= total
    {
      assert requests[i..][0] == requests[i] && requests[i..][1..] == requests[i + 1..];
      SubmittedBytes(requests[i..]);
      var _ := Submit(sender, wire, requests[i]);
    }
    RunResult(l, requests);
    sender.QueueIs();
  }

  lemma RunResult(l: Link, requests: seq<Request>)
    requires AllSendable(requests)
    ensures var m := RunAll(l, requests);
      && (AllHarmless(l, requests) ==> Conserved(l, EncodeAll(Submitted(requests)), m))
      && (NoFailure(l.script) ==>
            && Conserved(l, EncodeAll(Submitted(requests)), m)
            && (l.accepted + l.pending == [] && m.pending == [] ==>
                  ReadAll(m.accepted) == Some(Submitted(requests))))
  {
    hide RunAll, AllHarmless, ReadAll, EncodeAll;
    if NoFailure(l.script) {
      NoFailureNoHarm(l, requests);
    }
    if AllHarmless(l, requests) {
      RunConserves(l, requests);
    }
    SubmittedReadBack(requests);
    var m := RunAll(l, requests);
    assert m.accepted + [] == m.accepted;
    assert l.accepted + l.pending + EncodeAll(Submitted(requests)) == (l.accepted + l.pending) + EncodeAll(Submitted(requests));
    assert [] + EncodeAll(Submitted(requests)) == EncodeAll(Submitted(requests));
  }
}
