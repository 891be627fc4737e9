// The receive loop (src/server.c): a socket that cuts the stream at will, the
// chunk loop, and the switch to receiving straight into the message buffer.
module Server {
  import opened Bytes
  import opened Protocol
  import opened ClientState
  import opened Frames

  const WOULD_BLOCK: int32 := -1
  const PEER_CLOSED: int32 := 0

  /* ----- The socket ----- */

  // What the calls to come will return: at most that many bytes, PEER_CLOSED,
  // WOULD_BLOCK or another error.  When it is used up, they would block.
  type Script = seq<int32>

  function Answer(script: Script, available: nat, size: int32): (n: int32)
    requires size > 0
    ensures n <= size && (n > 0 ==> n <= available && script != [] && n <= script[0])
  {
    if script == [] then WOULD_BLOCK
    else if script[0] <= 0 then script[0]
    else if available == 0 then WOULD_BLOCK
    else
      var n := if script[0] > size then size else script[0];
      if n > available then available else n
  }

  // The entry that decides one call, if there is one, and those left.
  function Entry(script: Script): Script {
    if script == [] then [] else [script[0]]
  }

  function Later(script: Script): Script {
    if script == [] then [] else script[1..]
  }

  // The peer's remaining bytes and the results to come.
  class Socket {
    var stream: seq<byte>
    var script: Script

    method Recv(buf: array<byte>, start: nat, size: int32) returns (nbytes: int32)
      requires 0 < size && start + size <= buf.Length
      modifies this, buf
      ensures nbytes == Answer(old(script), |old(stream)|, size) && script == Later(old(script))
      ensures if nbytes > 0 then stream == old(stream)[nbytes..] && buf[start..start + nbytes] == old(stream)[..nbytes]
              else stream == old(stream)
      ensures forall i | 0 <= i < buf.Length && !(start <= i < start + nbytes) :: buf[i] == old(buf[i])
    {
      if script == [] {
        return WOULD_BLOCK;
      }
      nbytes := script[0];
      script := script[1..];
      if nbytes > 0 {
        nbytes := if nbytes > size then size else nbytes;
        nbytes := if nbytes > |stream| then |stream| else nbytes;
        if nbytes == 0 {
          return WOULD_BLOCK;
        }
        forall k | 0 <= k < nbytes {
          buf[start + k] := stream[k];
        }
        stream := stream[nbytes..];
      }
    }
  }

  // The frame whose header is complete takes what it can.
  method HandleFrame(client: Client, buf: array<byte>, start: nat, size: int32, ghost input: seq<byte>)
    returns (read: int64)
    requires client.Valid() && client.maskSize == 4
    requires SizeOf(client.View()) > 0 ==> size > 0 && Waiting(client.View())
    requires buf !in {client.currentHeader, client.mask, client.control.buffer}
    requires 0 <= size && start + size <= |input| && SameFrom(buf, input, start)
    requires buf == client.data.buffer ==> client.AimedAtBuffer(start, size)
    modifies client, client.control, client.data, client.control.buffer, client.data.buffer, buf
    ensures client.control.buffer == old(client.control.buffer)
    ensures client.data.buffer in {null, old(client.data.buffer)} || fresh(client.data.buffer)
    ensures client.Shape() && (read >= 0 ==> client.Valid() && Waiting(client.View()) && read <= size)
    ensures read >= 0 && size > 0 && old(SizeOf(client.View())) > 0 ==> read > 0
    ensures read >= 0 ==> if buf == old(client.data.buffer) then read == size else SameFrom(buf, input, start + read)
    ensures Took(client.host, Settle(client.host, SessionOf(old(client.View()))), input, start, size, read,
                 SessionOf(client.View()), client.log)
  {
    HeaderBeforeKey(client.View());
    hide Ok, SessionOf, Took, Fold, Settle, Step, Client.View, Waiting;
    client.Fields();
    if client.currentFrameType == CONTROL_FRAME {
      read := client.HandleControlFrame(buf, start, size, input);
    } else {
      read := client.HandleDataFrame(buf, start, size, input);
    }
  }

  // The header, or what is left of it.
  method ReadHeader(client: Client, buf: array<byte>, start: nat, size: int32, ghost input: seq<byte>)
    returns (read: int8)
    requires client.Valid() && client.maskSize < 4
    requires buf !in {client.currentHeader, client.mask, client.control.buffer} && buf != client.data.buffer
    requires 0 < size && start + size <= |input| && SameFrom(buf, input, start)
    modifies client, client.control, client.data, client.currentHeader, client.mask
    ensures client.control.buffer == old(client.control.buffer) && client.data.buffer == old(client.data.buffer)
    ensures client.Shape() && (read >= 0 ==> client.Valid() && 0 < read <= size)
    ensures read >= 0 ==> client.maskSize == 4 || read == size
    ensures read >= 0 ==> (Waiting(client.View()) <==> (client.maskSize == 4 ==> SizeOf(client.View()) > 0))
    ensures Took(client.host, SessionOf(old(client.View())), input, start, size, read,
                 Settle(client.host, SessionOf(client.View())), client.log)
  {
    hide Ok, SessionOf, Took, Fold, Settle, Step, Client.View, Waiting;
    ghost var now, host := buf[..], client.host;
    client.Fields();
    SettledBeforeKey(host, client.View());
    read := client.ExtractHeaderData(buf, start, size, now);
    client.Fields();
    TookWindow(host, SessionOf(old(client.View())), now, input, start, size, read,
               Settle(host, SessionOf(client.View())), client.log);
    if read >= 0 {
      WaitingForFirst(client.View());
    }
  }

  // One turn of the inner loop: a header, or what is left of one, and payload.
  // It takes at least one byte.
  method ProcessStep(client: Client, buf: array<byte>, start: nat, size: int32, ghost input: seq<byte>)
    returns (read: int)
    requires client.Valid() && Waiting(client.View())
    requires buf !in {client.currentHeader, client.mask, client.control.buffer}
    requires 0 < size && start + size <= |input| && SameFrom(buf, input, start)
    requires buf == client.data.buffer ==> client.AimedAtBuffer(start, size)
    modifies client, client.control, client.data, client.currentHeader, client.mask
    modifies client.control.buffer, client.data.buffer, buf
    ensures client.control.buffer == old(client.control.buffer)
    ensures client.data.buffer in {null, old(client.data.buffer)} || fresh(client.data.buffer)
    ensures client.Shape() && (read >= 0 ==> client.Valid() && Waiting(client.View()) && 0 < read <= size)
    ensures read >= 0 ==> if buf == old(client.data.buffer) then read == size else SameFrom(buf, input, start + read)
    ensures Took(client.host, SessionOf(old(client.View())), input, start, size, read,
                 SessionOf(client.View()), client.log)
  {
    hide Ok, SessionOf, Took, Fold, Settle, Step, Client.View, Waiting;
    ghost var host, s0, log0 := client.host, SessionOf(client.View()), client.log;
    client.Fields();
    read := 0;
    TookNone(host, s0, input, start, size, log0);
    if client.maskSize != 4 {
      read := ReadHeader(client, buf, start, size, input);
      client.Fields();
      if read < 0 {
        TookFailed(host, s0, input, start, size, read, Settle(host, SessionOf(client.View())),
                   SessionOf(client.View()), client.log);
        return -1;
      }
      if read == size
         && (client.maskSize < 4
             || (client.currentFrameType == CONTROL_FRAME && client.control.payloadSize > 0)
             || (client.currentFrameType == DATA_FRAME && client.data.payloadSize > 0)) {
        WaitingIsSettled(host, client.View());
        return;
      }
      HeaderBeforeKey(client.View());
    } else {
      WaitingIsSettled(host, client.View());
    }
    ghost var s1, log1 := Settle(host, SessionOf(client.View())), client.log;
    var more := HandleFrame(client, buf, start + read, size - read, input);
    TookThen(host, s0, input, start, size, read, s1, more, SessionOf(client.View()), log1, client.log);
    read := if more < 0 then -1 else read + more;
  }

  // The inner loop: everything received, or up to the end of the connection.
  method ProcessChunk(client: Client, buf: array<byte>, start: nat, nbytes: int32, ghost input: seq<byte>)
    returns (alive: bool)
    requires client.Valid() && Waiting(client.View())
    requires buf !in {client.currentHeader, client.mask, client.control.buffer}
    requires 0 < nbytes && start + nbytes <= |input| && SameFrom(buf, input, start)
    requires buf == client.data.buffer ==> client.AimedAtBuffer(start, nbytes)
    modifies client, client.control, client.data, client.currentHeader, client.mask
    modifies client.control.buffer, client.data.buffer, buf
    ensures client.control.buffer == old(client.control.buffer)
    ensures client.data.buffer in {null, old(client.data.buffer)} || fresh(client.data.buffer)
    ensures client.Shape() && (alive ==> client.Valid() && Waiting(client.View()))
    ensures Took(client.host, SessionOf(old(client.View())), input, start, nbytes, if alive then nbytes else -1,
                 SessionOf(client.View()), client.log)
  {
    hide Ok, SessionOf, Took, Fold, Settle, Step, Client.View, Waiting, SameFrom;
    ghost var host, s0 := client.host, SessionOf(client.View());
    TookNone(host, s0, input, start, nbytes, client.log);
    var totalRead := 0;
    while totalRead != nbytes
      invariant 0 <= totalRead <= nbytes
      invariant client.control.buffer == old(client.control.buffer)
      invariant client.data.buffer in {null, old(client.data.buffer)} || fresh(client.data.buffer)
      invariant client.Valid() && Waiting(client.View())
      invariant totalRead < nbytes ==> SameFrom(buf, input, start + totalRead)
      invariant totalRead < nbytes && buf == client.data.buffer ==>
        client.AimedAtBuffer(start + totalRead, nbytes - totalRead)
      invariant Took(host, s0, input, start, nbytes, totalRead, SessionOf(client.View()), client.log)
      decreases nbytes - totalRead
    {
      ghost var s1, log1 := SessionOf(client.View()), client.log;
      var read := ProcessStep(client, buf, start + totalRead, nbytes - totalRead, input);
      TookThen(host, s0, input, start, nbytes, totalRead, s1, read, SessionOf(client.View()), log1, client.log);
      if read < 0 {
        return false;
      }
      totalRead := totalRead + read;
    }
    return true;
  }

  // Receiving leaves the state of the client alone, even when the bytes go
  // into its message buffer.
  method ReceiveInto(client: Client, sock: Socket, buf: array<byte>, start: nat, size: int32) returns (nbytes: int32)
    requires client.Shape() && buf !in {client.currentHeader, client.mask, client.control.buffer}
    requires buf == client.data.buffer ==> client.data.filledSize <= start
    requires 0 < size && start + size <= buf.Length
    modifies sock, buf
    ensures client.Shape() && client.View() == old(client.View())
    ensures nbytes == Answer(old(sock.script), |old(sock.stream)|, size) && sock.script == Later(old(sock.script))
    ensures sock.stream == Beyond(old(sock.stream), nbytes) && Held(buf, start, nbytes, old(sock.stream))
  {
    nbytes := sock.Recv(buf, start, size);
    assert client.data.buffer != null ==>
      client.data.buffer[..client.data.filledSize] == old(client.data.buffer[..client.data.filledSize]);
  }

  // The chunk just received, if any, is what s begins with.
  ghost predicate Held(buf: array<byte>, start: nat, nbytes: int, s: seq<byte>)
    reads buf
  {
    nbytes > 0 ==> start + nbytes <= buf.Length && nbytes <= |s| && buf[start..start + nbytes] == s[..nbytes]
  }

  // What is left of a stream after a call that returned nbytes.
  function Beyond(s: seq<byte>, nbytes: int): seq<byte>
    requires nbytes <= |s|
  {
    if nbytes > 0 then s[nbytes..] else s
  }

  // Whether to receive into the message buffer: enough of it is unused.
  predicate Direct(v: View) {
    |v.mask| == 4 && v.frameType == DATA_FRAME && v.data.bufferSize - |v.data.content| > BUFFER_SIZE
  }

  // How much to ask for: in the message buffer, up to the end of the frame.
  function Room(v: View): int {
    if Direct(v) then v.data.payloadSize - (|v.data.content| - v.data.offset) else BUFFER_SIZE
  }

  // Receives where there is most room: in the message buffer, up to the end of
  // the current frame, if enough of it is unused, and else in the local array.
  method ReceiveNext(client: Client, local: array<byte>, sock: Socket)
    returns (buf: array<byte>, start: nat, nbytes: int32)
    requires client.Valid() && Waiting(client.View()) && local.Length == BUFFER_SIZE
    requires local !in {client.currentHeader, client.mask, client.control.buffer, client.data.buffer}
    modifies sock, local, client.data.buffer
    ensures client.Shape() && client.View() == old(client.View())
    ensures var direct := client.maskSize == 4 && client.currentFrameType == DATA_FRAME
                          && client.data.bufferSize - client.data.filledSize > 4096;
      && (direct <==> Direct(client.View()))
      && (if direct then buf == client.data.buffer && (nbytes > 0 ==> client.AimedAtBuffer(start, nbytes)) else buf == local)
      && Room(client.View())
         == if direct then client.data.payloadSize - (client.data.filledSize - client.data.currentFragmentOffset) else 4096
    ensures 0 < Room(old(client.View())) < 0x8000_0000
    ensures nbytes == Answer(old(sock.script), |old(sock.stream)|, Room(old(client.View())))
    ensures sock.script == Later(old(sock.script)) && sock.stream == Beyond(old(sock.stream), nbytes)
    ensures Held(buf, start, nbytes, old(sock.stream))
  {
    var size: int32;
    ghost var v := client.View();
    client.Fields();
    if client.maskSize == 4 && client.currentFrameType == DATA_FRAME
       && client.data.bufferSize - client.data.filledSize > BUFFER_SIZE {
      DirectReadSafe(v);
      buf, start := client.data.buffer, client.data.filledSize;
      size := client.data.payloadSize - (client.data.filledSize - client.data.currentFragmentOffset);
    } else {
      buf, start, size := local, 0, BUFFER_SIZE;
    }
    assert size == Room(v) && (buf == client.data.buffer <==> Direct(v));
    hide Ok, Client.View, Waiting, Direct, Room, Answer;
    nbytes := ReceiveInto(client, sock, buf, start, size);
  }

  /* ----- How a run of calls ends ----- */

  // Why handling a readable socket came to an end: nothing more to receive,
  // the peer is gone, or the client was closed by what it received.
  datatype Outcome = Suspended | PeerGone | Ended

  ghost predicate Split<T>(whole: seq<T>, taken: seq<T>, left: seq<T>) {
    whole == taken + left
  }

  // What a client that stood for s0 must stand for after receiving all of bytes.
  ghost predicate Agrees(client: Client, s0: Session, bytes: seq<byte>, outcome: Outcome)
    reads client, client.control, client.data, client.currentHeader, client.mask
    reads client.control.buffer, client.data.buffer
  {
    && client.Shape()
    && Fold(client.host, s0, bytes) == (if outcome.Ended? then Closed(client.log) else SessionOf(client.View()))
    && (!outcome.Ended? ==> client.Valid() && Waiting(client.View()))
  }

  predicate AllPositive(calls: Script) {
    forall i | 0 <= i < |calls| :: calls[i] > 0
  }

  predicate NoFailure(calls: Script) {
    forall i | 0 <= i < |calls| :: calls[i] > 0 || calls[i] == WOULD_BLOCK
  }

  function Positives(calls: Script): nat {
    if calls == [] then 0 else (if calls[0] > 0 then 1 else 0) + Positives(calls[1..])
  }

  function Blocked(calls: Script): nat {
    if calls == [] then 0 else (if calls[0] == WOULD_BLOCK then 1 else 0) + Blocked(calls[1..])
  }

  lemma {:induction false} CountsAdd(a: Script, b: Script)
    ensures Positives(a + b) == Positives(a) + Positives(b) && Blocked(a + b) == Blocked(a) + Blocked(b)
    decreases a
  {
    if a == [] {
      assert a + b == b;
    } else {
      assert (a + b)[1..] == a[1..] + b;
      CountsAdd(a[1..], b);
    }
  }

  lemma {:induction false} CountsPositive(calls: Script)
    requires AllPositive(calls)
    ensures Positives(calls) == |calls| && Blocked(calls) == 0
  {
    if calls != [] {
      CountsPositive(calls[1..]);
    }
  }

  predicate Fatal(result: int32) {
    result <= 0 && result != WOULD_BLOCK
  }

  // These entries of the script decided the calls while the socket was
  // reported readable wakeups times, and received bytes came of it; stream and
  // script are what is left.  The client is suspended only when each report led
  // to a call that would block, or there is nothing left to receive; the peer
  // is gone only when the last call said so or failed; only a call that
  // received something ended the connection.  Every call took what there was.
  ghost predicate Justified(outcome: Outcome, wakeups: nat, calls: Script, received: nat,
                            stream: seq<byte>, script: Script)
  {
    && NoFailure(if outcome.Suspended? || calls == [] then calls else calls[..|calls| - 1])
    && (Positives(calls) <= received || stream == [])
    && match outcome
       case Suspended =>
         if Blocked(calls) < wakeups then stream == [] || script == []
         else Blocked(calls) == wakeups && (calls == [] || calls[|calls| - 1] == WOULD_BLOCK)
       case PeerGone => Blocked(calls) < wakeups && calls != [] && Fatal(calls[|calls| - 1])
       case Ended => Blocked(calls) < wakeups && calls != [] && calls[|calls| - 1] > 0
  }

  // All calls so far received something, k bytes together.
  ghost predicate Receiving(stream0: seq<byte>, script0: Script, k: nat, calls: Script, stream: seq<byte>, script: Script) {
    && k <= |stream0| && stream == stream0[k..] && script0 == calls + script
    && AllPositive(calls) && |calls| <= k
  }

  // The same, and one more call has returned nbytes, not counted in k.
  ghost predicate Answered(stream0: seq<byte>, script0: Script, k: nat, calls: Script, nbytes: int,
                           stream: seq<byte>, script: Script)
  {
    && script0 == calls + script && k <= |stream0|
    && nbytes <= |stream0| - k && stream == Beyond(stream0[k..], nbytes)
    && if nbytes <= 0 && AllPositive(calls) then
         nbytes == WOULD_BLOCK && (stream == [] || (script == [] && |calls| <= k))
       else
         && calls != [] && AllPositive(calls[..|calls| - 1]) && |calls| <= k + 1
         && if nbytes > 0 then nbytes <= calls[|calls| - 1] else nbytes == calls[|calls| - 1]
  }

  lemma NoCalls(stream: seq<byte>, script: Script)
    ensures Receiving(stream, script, 0, [], stream, script)
  {
  }

  lemma CallAnswered(stream0: seq<byte>, script0: Script, k: nat, calls: Script,
                     stream: seq<byte>, script: Script, size: int32, nbytes: int32)
    requires Receiving(stream0, script0, k, calls, stream, script)
    requires size > 0 && nbytes == Answer(script, |stream|, size)
    ensures nbytes <= |stream| && |Later(script)| <= |script| && (nbytes > 0 ==> |Later(script)| < |script|)
    ensures Answered(stream0, script0, k, calls + Entry(script), nbytes, Beyond(stream, nbytes), Later(script))
  {
    var longer := calls + Entry(script);
    if script == [] {
      assert longer == calls;
    } else {
      assert longer[..|longer| - 1] == calls && longer[|calls|] == script[0];
      assert AllPositive(longer) <==> script[0] > 0;
    }
  }

  lemma ChunkTaken(stream0: seq<byte>, script0: Script, k: nat, calls: Script, nbytes: nat,
                   stream: seq<byte>, script: Script)
    requires Answered(stream0, script0, k, calls, nbytes, stream, script) && nbytes > 0
    ensures k + nbytes <= |stream0| && stream == stream0[k + nbytes..]
    ensures Receiving(stream0, script0, k + nbytes, calls, stream, script)
    ensures calls != [] && calls[|calls| - 1] >= nbytes
  {
  }

  lemma EndJustified(stream0: seq<byte>, script0: Script, k: nat, calls: Script, stream: seq<byte>, script: Script)
    requires Receiving(stream0, script0, k, calls, stream, script) && calls != []
    ensures k <= |stream0| && Split(stream0, stream0[..k], stream) && Split(script0, calls, script)
    ensures Justified(Ended, 1, calls, k, stream, script)
  {
    CountsPositive(calls);
  }

  lemma StopJustified(stream0: seq<byte>, script0: Script, k: nat, calls: Script, nbytes: int,
                      stream: seq<byte>, script: Script)
    requires Answered(stream0, script0, k, calls, nbytes, stream, script) && nbytes <= 0
    ensures k <= |stream0| && Split(stream0, stream0[..k], stream) && Split(script0, calls, script)
    ensures Justified(if nbytes == WOULD_BLOCK then Suspended else PeerGone, 1, calls, k, stream, script)
  {
    if AllPositive(calls) {
      CountsPositive(calls);
    } else {
      var most, last := calls[..|calls| - 1], calls[|calls| - 1];
      assert calls == most + [last];
      CountsAdd(most, [last]);
      CountsPositive(most);
    }
  }

  // How many of these bytes came before the last call, at least.
  function Before(bytes: seq<byte>, calls: Script): (n: nat)
    requires calls != [] && calls[|calls| - 1] > 0
    ensures n <= |bytes|
  {
    var last := calls[|calls| - 1];
    if last < |bytes| then |bytes| - last else 0
  }

  // The connection was open before the bytes of the last call.
  ghost predicate OpenBefore(host: Host, s0: Session, bytes: seq<byte>, calls: Script) {
    && calls != [] && calls[|calls| - 1] > 0
    && Fold(host, s0, bytes[..Before(bytes, calls)]).Open?
  }

  // A connection that is open was open all the time.
  lemma StillOpen(host: Host, s0: Session, stream: seq<byte>, j: nat, k: nat)
    requires j <= k <= |stream| && Fold(host, s0, stream[..k]).Open?
    ensures Fold(host, s0, stream[..j]).Open?
  {
    assert stream[..k] == stream[..j] + stream[j..k];
    FoldConcat(host, s0, stream[..j], stream[j..k]);
    if Fold(host, s0, stream[..j]).Closed? {
      ClosedStaysClosed(host, Fold(host, s0, stream[..j]), stream[j..k]);
    }
  }

  lemma WasOpen(host: Host, s0: Session, stream: seq<byte>, k: nat, n: nat, calls: Script)
    requires k + n <= |stream| && calls != [] && n <= calls[|calls| - 1] && calls[|calls| - 1] > 0
    requires Fold(host, s0, stream[..k]).Open?
    ensures OpenBefore(host, s0, stream[..k + n], calls)
  {
    hide Fold;
    var j := Before(stream[..k + n], calls);
    StillOpen(host, s0, stream, j, k);
    assert stream[..k + n][..j] == stream[..j];
  }

  // One chunk, the next nbytes bytes of the stream after the k received before.
  method TakeChunk(client: Client, buf: array<byte>, start: nat, nbytes: int32,
                   ghost s0: Session, ghost stream: seq<byte>, ghost k: nat) returns (alive: bool)
    requires client.Valid() && Waiting(client.View())
    requires buf !in {client.currentHeader, client.mask, client.control.buffer}
    requires 0 < nbytes && start + nbytes <= buf.Length
    requires buf == client.data.buffer ==> client.AimedAtBuffer(start, nbytes)
    requires k + nbytes <= |stream| && buf[start..start + nbytes] == stream[k..k + nbytes]
    requires Fold(client.host, s0, stream[..k]) == SessionOf(client.View())
    modifies client, client.control, client.data, client.currentHeader, client.mask
    modifies client.control.buffer, client.data.buffer, buf
    ensures client.control.buffer == old(client.control.buffer)
    ensures client.data.buffer in {null, old(client.data.buffer)} || fresh(client.data.buffer)
    ensures client.Shape() && (alive ==> client.Valid() && Waiting(client.View()))
    ensures Fold(client.host, s0, stream[..k + nbytes])
         == if alive then SessionOf(client.View()) else Closed(client.log)
  {
    hide Ok, SessionOf, Took, Fold, Settle, Step, Client.View, Waiting;
    ghost var input := buf[..];
    alive := ProcessChunk(client, buf, start, nbytes, input);
    TookChunk(client.host, s0, stream, k, input, start, nbytes, alive, SessionOf(client.View()), client.log);
  }

  // The whole outcome of serving a client that stood for s0, through wakeups
  // reports of a readable socket with this stream and script.
  ghost predicate Served(client: Client, sock: Socket, s0: Session, stream: seq<byte>, script: Script, wakeups: nat,
                         outcome: Outcome, received: seq<byte>, calls: Script)
    reads client, client.control, client.data, client.currentHeader, client.mask
    reads client.control.buffer, client.data.buffer, sock
  {
    && Split(stream, received, sock.stream) && Split(script, calls, sock.script)
    && Agrees(client, s0, received, outcome)
    && Justified(outcome, wakeups, calls, |received|, sock.stream, sock.script)
    && (outcome.Ended? ==> OpenBefore(client.host, s0, received, calls))
  }

  // Between two turns of the outer loop, for a client with this view: k bytes
  // are handled and nbytes more, if any, have been received at this place, in
  // the message buffer if direct.
  ghost predicate Between(host: Host, v: View, direct: bool, start: nat, nbytes: int, s0: Session, stream: seq<byte>,
                          script: Script, k: nat, calls: Script, left: seq<byte>, later: Script)
  {
    && Handled(host, v, s0, stream, k)
    && (direct && nbytes > 0 ==> Aimed(v, start, nbytes))
    && Answered(stream, script, k, calls, nbytes, left, later)
  }

  ghost predicate Handled(host: Host, v: View, s0: Session, stream: seq<byte>, k: nat) {
    Ok(v) && Waiting(v) && k <= |stream| && Fold(host, s0, stream[..k]) == SessionOf(v)
  }

  // The connection has ended with the bytes up to k.
  ghost predicate Ending(host: Host, log: seq<Event>, s0: Session, stream: seq<byte>, script: Script, k: nat,
                         calls: Script, left: seq<byte>, later: Script)
  {
    && k <= |stream| && Fold(host, s0, stream[..k]) == Closed(log) && OpenBefore(host, s0, stream[..k], calls)
    && Split(stream, stream[..k], left) && Split(script, calls, later) && Justified(Ended, 1, calls, k, left, later)
  }

  // What AimedAtBuffer says, in terms of the view.
  predicate Aimed(v: View, start: nat, size: int) {
    && v.frameType == DATA_FRAME && |v.mask| == 4
    && start == |v.data.content| > v.data.offset
    && 0 < size <= v.data.offset + v.data.payloadSize - start
  }

  // The first call.
  method ReceiveFirst(client: Client, sock: Socket, local: array<byte>) returns (nbytes: int32, ghost calls: Script)
    requires client.Valid() && Waiting(client.View()) && local.Length == BUFFER_SIZE
    requires local !in {client.currentHeader, client.mask, client.control.buffer, client.data.buffer}
    modifies sock, local
    ensures client.Shape() && Held(local, 0, nbytes, old(sock.stream)[0..])
    ensures Between(client.host, client.View(), false, 0, nbytes, SessionOf(old(client.View())), old(sock.stream),
                    old(sock.script), 0, calls, sock.stream, sock.script)
  {
    ghost var stream, script := sock.stream, sock.script;
    FoldNothing(client.host, SessionOf(client.View()), stream);
    NoCalls(stream, script);
    WholeStream(stream);
    hide Ok, SessionOf, Fold, Client.View, Waiting, Answered, Receiving, Answer, Held, Beyond, Entry, Later;
    nbytes := ReceiveInto(client, sock, local, 0, BUFFER_SIZE);
    CallAnswered(stream, script, 0, [], stream, script, BUFFER_SIZE, nbytes);
    calls := [] + Entry(script);
  }

  // The chunk of a turn.
  method HandleChunk(client: Client, ghost sock: Socket, buf: array<byte>, start: nat, nbytes: int32,
                     ghost s0: Session, ghost stream: seq<byte>, ghost script: Script, ghost k: nat, ghost calls: Script)
    returns (alive: bool)
    requires client.Shape() && nbytes > 0 && k <= |stream| && Held(buf, start, nbytes, stream[k..])
    requires Between(client.host, client.View(), buf == client.data.buffer, start, nbytes, s0, stream, script, k, calls,
                     sock.stream, sock.script)
    requires buf !in {client.currentHeader, client.mask, client.control.buffer}
    modifies client, client.control, client.data, client.currentHeader, client.mask
    modifies client.control.buffer, client.data.buffer, buf
    ensures client.control.buffer == old(client.control.buffer)
    ensures client.data.buffer in {null, old(client.data.buffer)} || fresh(client.data.buffer)
    ensures k + nbytes <= |stream|
    ensures alive ==> client.Shape() && Handled(client.host, client.View(), s0, stream, k + nbytes)
    ensures alive ==> Receiving(stream, script, k + nbytes, calls, sock.stream, sock.script)
    ensures !alive ==> client.Shape() && Ending(client.host, client.log, s0, stream, script, k + nbytes, calls, sock.stream, sock.script)
  {
    ChunkTaken(stream, script, k, calls, nbytes, sock.stream, sock.script);
    EndJustified(stream, script, k + nbytes, calls, sock.stream, sock.script);
    HeldChunk(buf, start, nbytes, stream, k);
    WasOpen(client.host, s0, stream, k, nbytes, calls);
    client.Fields();
    hide Ok, SessionOf, Fold, Client.View, Waiting, Receiving, OpenBefore, Justified, Answered, Held;
    alive := TakeChunk(client, buf, start, nbytes, s0, stream, k);
  }

  // The next call of a turn.
  method ReceiveMore(client: Client, sock: Socket, local: array<byte>,
                     ghost s0: Session, ghost stream: seq<byte>, ghost script: Script, ghost k: nat, ghost calls: Script)
    returns (buf: array<byte>, start: nat, nbytes: int32, ghost longer: Script)
    requires client.Shape() && Handled(client.host, client.View(), s0, stream, k)
    requires Receiving(stream, script, k, calls, sock.stream, sock.script)
    requires local.Length == BUFFER_SIZE
    requires local !in {client.currentHeader, client.mask, client.control.buffer, client.data.buffer}
    modifies sock, local, client.data.buffer
    ensures client.Shape() && (buf == local || buf == client.data.buffer)
    ensures k <= |stream| && Held(buf, start, nbytes, stream[k..])
    ensures Between(client.host, client.View(), buf == client.data.buffer, start, nbytes, s0, stream, script, k, longer,
                    sock.stream, sock.script)
    ensures |sock.script| <= |old(sock.script)| && (nbytes > 0 ==> |sock.script| < |old(sock.script)|)
  {
    ghost var left, later, size := sock.stream, sock.script, Room(client.View());
    assert left == stream[k..];
    hide Ok, SessionOf, Fold, Client.View, Waiting;
    hide Receiving, Answered, Answer, Direct, Room, Held, Beyond, Entry, Later;
    buf, start, nbytes := ReceiveNext(client, local, sock);
    client.Fields();
    CallAnswered(stream, script, k, calls, left, later, size, nbytes);
    longer := calls + Entry(later);
  }

  // A turn of the outer loop.
  method TakeTurn(client: Client, sock: Socket, local: array<byte>, chunk: array<byte>, from: nat, size: int32,
                  ghost s0: Session, ghost stream: seq<byte>, ghost script: Script, ghost k: nat, ghost calls: Script)
    returns (alive: bool, buf: array<byte>, start: nat, nbytes: int32, ghost longer: Script)
    requires client.Shape() && size > 0 && k <= |stream| && Held(chunk, from, size, stream[k..])
    requires Between(client.host, client.View(), chunk == client.data.buffer, from, size, s0, stream, script, k, calls,
                     sock.stream, sock.script)
    requires local.Length == BUFFER_SIZE && (chunk == local || chunk == client.data.buffer)
    requires local !in {client.currentHeader, client.mask, client.control.buffer, client.data.buffer}
    modifies client, client.control, client.data, client.currentHeader, client.mask
    modifies client.control.buffer, client.data.buffer, sock, local
    ensures client.control.buffer == old(client.control.buffer)
    ensures client.data.buffer == null || client.data.buffer == old(client.data.buffer) || fresh(client.data.buffer)
    ensures buf == local || buf == client.data.buffer
    ensures k + size <= |stream|
    ensures alive ==> client.Shape() && Held(buf, start, nbytes, stream[k + size..])
    ensures alive ==> Between(client.host, client.View(), buf == client.data.buffer, start, nbytes, s0, stream, script,
                              k + size, longer, sock.stream, sock.script)
    ensures alive ==> |sock.script| <= |old(sock.script)| && (nbytes > 0 ==> |sock.script| < |old(sock.script)|)
    ensures !alive ==> client.Shape() && longer == calls
    ensures !alive ==> Ending(client.host, client.log, s0, stream, script, k + size, calls, sock.stream, sock.script)
  {
    assert client.Shape();
    hide *;
    alive := HandleChunk(client, sock, chunk, from, size, s0, stream, script, k, calls);
    buf, start, nbytes, longer := local, 0, 0, calls;
    if alive {
      buf, start, nbytes, longer := ReceiveMore(client, sock, local, s0, stream, script, k + size, calls);
    }
  }

  // The outer loop, after the first call.
  method TakeTurns(client: Client, sock: Socket, local: array<byte>, first: int32,
                   ghost s0: Session, ghost stream: seq<byte>, ghost script: Script, ghost call: Script)
    returns (alive: bool, nbytes: int32, ghost k: nat, ghost calls: Script)
    requires client.Shape() && Held(local, 0, first, stream[0..])
    requires Between(client.host, client.View(), false, 0, first, s0, stream, script, 0, call, sock.stream, sock.script)
    requires local.Length == BUFFER_SIZE
    requires local !in {client.currentHeader, client.mask, client.control.buffer, client.data.buffer}
    modifies client, client.control, client.data, client.currentHeader, client.mask
    modifies client.control.buffer, client.data.buffer, sock, local
    ensures client.control.buffer == old(client.control.buffer)
    ensures client.data.buffer in {null, old(client.data.buffer)} || fresh(client.data.buffer)
    ensures client.Shape() && (alive ==> nbytes <= 0)
    ensures alive ==> Between(client.host, client.View(), false, 0, nbytes, s0, stream, script, k, calls,
                              sock.stream, sock.script)
    ensures !alive ==> Ending(client.host, client.log, s0, stream, script, k, calls, sock.stream, sock.script)
  {
    hide *;
    var buf, start := local, 0;
    alive, nbytes, k, calls := true, first, 0, call;
    while nbytes > 0
      invariant client.control.buffer == old(client.control.buffer)
      invariant client.data.buffer == null || client.data.buffer == old(client.data.buffer) || fresh(client.data.buffer)
      invariant client.data.buffer != local && (buf == local || buf == client.data.buffer)
      invariant client.Shape() && k <= |stream| && Held(buf, start, nbytes, stream[k..])
      invariant Between(client.host, client.View(), buf == client.data.buffer, start, nbytes, s0, stream, script, k, calls,
                        sock.stream, sock.script)
      decreases |sock.script| + (if nbytes > 0 then 1 else 0)
    {
      ghost var n: nat := k + nbytes;
      alive, buf, start, nbytes, calls := TakeTurn(client, sock, local, buf, start, nbytes, s0, stream, script, k, calls);
      k := n;
      if !alive {
        return;
      }
    }
    NothingArrived(client.host, client.View(), buf == client.data.buffer, start, nbytes, s0, stream, script, k, calls,
                   sock.stream, sock.script);
  }

  lemma NothingArrived(host: Host, v: View, direct: bool, start: nat, nbytes: int, s0: Session, stream: seq<byte>,
                       script: Script, k: nat, calls: Script, left: seq<byte>, later: Script)
    requires nbytes <= 0 && Between(host, v, direct, start, nbytes, s0, stream, script, k, calls, left, later)
    ensures Between(host, v, false, 0, nbytes, s0, stream, script, k, calls, left, later)
  {
  }

  lemma EndServed(client: Client, sock: Socket, s0: Session, stream: seq<byte>, script: Script, k: nat, calls: Script)
    requires client.Shape() && Ending(client.host, client.log, s0, stream, script, k, calls, sock.stream, sock.script)
    ensures k <= |stream| && Served(client, sock, s0, stream, script, 1, Ended, stream[..k], calls)
  {
  }

  lemma StopServed(client: Client, sock: Socket, nbytes: int32, s0: Session, stream: seq<byte>, script: Script, k: nat,
                   calls: Script)
    requires client.Shape() && nbytes <= 0
    requires Between(client.host, client.View(), false, 0, nbytes, s0, stream, script, k, calls, sock.stream, sock.script)
    ensures k <= |stream|
    ensures Served(client, sock, s0, stream, script, 1, if nbytes == WOULD_BLOCK then Suspended else PeerGone, stream[..k], calls)
  {
    StopJustified(stream, script, k, calls, nbytes, sock.stream, sock.script);
  }

  // Receives and handles until the socket has nothing more to give or the
  // connection ends; calls are the entries of the script that decided how.
  method HandleClientData(client: Client, sock: Socket)
    returns (outcome: Outcome, ghost received: seq<byte>, ghost calls: Script)
    requires client.Valid() && Waiting(client.View())
    modifies client, client.control, client.data, client.currentHeader, client.mask
    modifies client.control.buffer, client.data.buffer, sock
    ensures client.control.buffer == old(client.control.buffer)
    ensures client.data.buffer in {null, old(client.data.buffer)} || fresh(client.data.buffer)
    ensures Served(client, sock, SessionOf(old(client.View())), old(sock.stream), old(sock.script), 1, outcome, received, calls)
  {
    ghost var s0, stream, script, k: nat := SessionOf(client.View()), sock.stream, sock.script, 0;
    var local := new byte[BUFFER_SIZE];
    hide *;
    var alive: bool, nbytes: int32;
    nbytes, calls := ReceiveFirst(client, sock, local);
    alive, nbytes, k, calls := TakeTurns(client, sock, local, nbytes, s0, stream, script, calls);
    if !alive {
      EndServed(client, sock, s0, stream, script, k, calls);
      return Ended, stream[..k], calls;
    }
    StopServed(client, sock, nbytes, s0, stream, script, k, calls);
    return if nbytes == WOULD_BLOCK then Suspended else PeerGone, stream[..k], calls;
  }

  lemma WholeStream(stream: seq<byte>)
    ensures stream[0..] == stream
  {
  }

  lemma HeldChunk(buf: array<byte>, start: nat, nbytes: nat, stream: seq<byte>, k: nat)
    requires k + nbytes <= |stream| && Held(buf, start, nbytes, stream[k..]) && nbytes > 0
    ensures start + nbytes <= buf.Length && buf[start..start + nbytes] == stream[k..k + nbytes]
  {
  }

  lemma AgreesLater(client: Client, s0: Session, s1: Session, a: seq<byte>, b: seq<byte>, outcome: Outcome)
    requires Fold(client.host, s0, a) == s1 && Agrees(client, s1, b, outcome)
    ensures Agrees(client, s0, a + b, outcome)
  {
    FoldConcat(client.host, s0, a, b);
  }

  // Another wake-up of a suspended connection.
  lemma JustifiedLater(wakeups: nat, limit: nat, calls: Script, received: nat, stream: seq<byte>, script: Script,
                       outcome: Outcome, more: Script, also: nat, stream1: seq<byte>, script1: Script)
    requires Justified(Suspended, wakeups, calls, received, stream, script) && wakeups < limit
    requires Justified(outcome, 1, more, also, stream1, script1)
    requires script == more + script1 && |stream1| <= |stream|
    ensures Justified(outcome, if outcome.Suspended? then wakeups + 1 else limit, calls + more, received + also, stream1, script1)
  {
    CountsAdd(calls, more);
    hide Positives, Blocked;
    if more == [] {
      assert calls + more == calls;
    } else {
      var longer := calls + more;
      assert longer[|longer| - 1] == more[|more| - 1];
      assert longer[..|longer| - 1] == calls + more[..|more| - 1];
    }
  }

  lemma OpenBeforeLater(host: Host, s0: Session, a: seq<byte>, b: seq<byte>, calls: Script, more: Script)
    requires Fold(host, s0, a).Open? && OpenBefore(host, Fold(host, s0, a), b, more)
    ensures OpenBefore(host, s0, a + b, calls + more)
  {
    hide Fold;
    assert (calls + more)[|calls + more| - 1] == more[|more| - 1];
    var j := Before(b, more);
    FoldConcat(host, s0, a, b[..j]);
    assert (a + b)[..|a| + j] == a + b[..j];
    StillOpen(host, s0, a + b, Before(a + b, calls + more), |a| + j);
  }

  // A connection from its upgrade on: the socket is reported readable up to
  // wakeups times, and each time everything available is received.
  method ServeConnection(socketfd: int, host: Host, sock: Socket, wakeups: nat)
    returns (client: Client, outcome: Outcome, ghost received: seq<byte>, ghost calls: Script)
    modifies sock
    ensures client.host == host
    ensures Served(client, sock, INITIAL, old(sock.stream), old(sock.script), wakeups, outcome, received, calls)
  {
    ghost var stream, script := sock.stream, sock.script;
    client := Accept(socketfd, host);
    outcome, received, calls := Suspended, [], [];
    Untouched(stream, script);
    hide Ok, SessionOf, Fold, Client.View, Waiting, OpenBefore, Justified, Split;
    for i := 0 to wakeups
      invariant client.host == host && outcome.Suspended?
      invariant fresh(client) && fresh(client.control) && fresh(client.data)
      invariant fresh(client.currentHeader) && fresh(client.mask) && fresh(client.control.buffer)
      invariant client.data.buffer != null ==> fresh(client.data.buffer)
      invariant Split(stream, received, sock.stream) && Split(script, calls, sock.script)
      invariant Agrees(client, INITIAL, received, outcome)
      invariant Justified(Suspended, i, calls, |received|, sock.stream, sock.script)
    {
      ghost var before, s1, earlier := received, SessionOf(client.View()), calls;
      ghost var left, later, more, also := sock.stream, sock.script, [], [];
      assert client.Valid() && Waiting(client.View()) && Fold(host, INITIAL, before) == s1 && s1.Open?;
      hide Agrees;
      outcome, more, also := HandleClientData(client, sock);
      AgreesLater(client, INITIAL, s1, before, more, outcome);
      SplitMore(stream, before, left, more, sock.stream);
      SplitMore(script, earlier, later, also, sock.script);
      JustifiedLater(i, wakeups, earlier, |before|, left, later, outcome, also, |more|, sock.stream, sock.script);
      received, calls := before + more, earlier + also;
      if outcome.Ended? {
        OpenBeforeLater(host, INITIAL, before, more, earlier, also);
      }
      if !outcome.Suspended? {
        return;
      }
    }
  }

  lemma Untouched(stream: seq<byte>, script: Script)
    ensures Split(stream, [], stream) && Split(script, [], script)
    ensures Justified(Suspended, 0, [], 0, stream, script)
  {
  }

  lemma SplitMore<T>(whole: seq<T>, taken: seq<T>, left: seq<T>, more: seq<T>, rest: seq<T>)
    requires Split(whole, taken, left) && left == more + rest
    ensures Split(whole, taken + more, rest)
  {
  }

  method Accept(socketfd: int, host: Host) returns (client: Client)
    ensures client.host == host && Agrees(client, INITIAL, [], Suspended)
    ensures fresh(client) && fresh(client.control) && fresh(client.data)
    ensures fresh(client.currentHeader) && fresh(client.mask) && fresh(client.control.buffer)
    ensures client.data.buffer == null
  {
    client := new Client(socketfd, host);
    InitialIsWaiting(client.View());
    hide Ok, SessionOf, Client.View, Waiting;
  }
}
