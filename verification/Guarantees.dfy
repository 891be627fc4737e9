// What the receive loop inherits from the protocol machine: statements about
// the real fields of a client after any run.
module Guarantees {
  import opened Bytes
  import opened Protocol
  import opened ClientState
  import opened Frames
  import opened Server
  import Endings
  import Safety
  import Sessions

  // However the same stream is cut, and whichever of the buffering paths that
  // selects: the run that received less has delivered and replied a part of
  // what the other has, and all of it if it came to the end of the connection,
  // which the other then did as well.
  lemma CutsDoNotMatter(a: Client, b: Client, stream: seq<byte>, ra: seq<byte>, rb: seq<byte>, endA: Outcome, endB: Outcome)
    requires a.host == b.host && ra <= stream && rb <= stream
    requires Agrees(a, INITIAL, ra, endA) && Agrees(b, INITIAL, rb, endB)
    ensures |ra| <= |rb| ==> a.log <= b.log && (endA.Ended? ==> endB.Ended? && a.log == b.log)
    ensures |rb| <= |ra| ==> b.log <= a.log && (endB.Ended? ==> endA.Ended? && a.log == b.log)
    ensures endA.Ended? && endB.Ended? ==> a.log == b.log
  {
    hide Agrees;
    assert stream[..|ra|] == ra && stream[..|rb|] == rb;
    if |ra| <= |rb| {
      assert ra + rb[|ra|..] == rb;
      MoreReceived(a, b, ra, rb[|ra|..], endA, endB);
    }
    if |rb| <= |ra| {
      assert rb + ra[|rb|..] == ra;
      MoreReceived(b, a, rb, ra[|rb|..], endB, endA);
    }
  }

  lemma MoreReceived(a: Client, b: Client, ra: seq<byte>, more: seq<byte>, endA: Outcome, endB: Outcome)
    requires a.host == b.host
    requires Agrees(a, INITIAL, ra, endA) && Agrees(b, INITIAL, ra + more, endB)
    ensures a.log <= b.log && (endA.Ended? ==> endB.Ended? && a.log == b.log)
  {
    hide Agrees, Fold;
    LogIsFolded(a, ra, endA);
    LogIsFolded(b, ra + more, endB);
    var s := Fold(a.host, INITIAL, ra);
    FoldConcat(a.host, INITIAL, ra, more);
    Safety.LogOnlyGrows(a.host, s, more);
    if s.Closed? {
      ClosedStaysClosed(a.host, s, more);
    }
  }

  lemma LogIsFolded(client: Client, received: seq<byte>, outcome: Outcome)
    requires Agrees(client, INITIAL, received, outcome)
    ensures var s := Fold(client.host, INITIAL, received);
      s.log == client.log && (s.Closed? <==> outcome.Ended?)
  {
    hide Fold, Ok, PhaseOf;
    client.Fields();
  }

  // A peer that writes these messages: what has been received of them so far
  // has led to a part of the deliveries and pongs that are due, to all of them
  // when everything has arrived, and the connection ends only at the wish of
  // the host.
  lemma {:induction false} DeliveredExactly(client: Client, received: seq<byte>, rest: seq<byte>, outcome: Outcome,
                                            ms: seq<Sessions.Message>)
    requires Agrees(client, INITIAL, received, outcome)
    requires forall i | 0 <= i < |ms| :: Sessions.Legal(ms[i])
    requires received + rest == Sessions.EncodeSession(ms)
    ensures client.log <= Sessions.ExpectedAll(ms)
    ensures if outcome.Ended? then client.host.wantsClose(client.log) || client.host.pongLost(client.log)
            else rest == [] ==> client.log == Sessions.ExpectedAll(ms)
  {
    hide Agrees, Fold;
    var host := client.host;
    var s := Fold(host, INITIAL, received);
    LogIsFolded(client, received, outcome);
    FoldConcat(host, INITIAL, received, rest);
    Safety.LogOnlyGrows(host, s, rest);
    WholeSession(host, ms);
    if s.Closed? {
      ClosedStaysClosed(host, s, rest);
    }
    assert received + [] == received;
  }

  lemma {:induction false} WholeSession(host: Host, ms: seq<Sessions.Message>)
    requires forall i | 0 <= i < |ms| :: Sessions.Legal(ms[i])
    ensures var s := Fold(host, INITIAL, Sessions.EncodeSession(ms));
      if s.Closed? then s.log <= Sessions.ExpectedAll(ms) && (host.wantsClose(s.log) || host.pongLost(s.log))
      else s.log == Sessions.ExpectedAll(ms)
  {
    var bytes := Sessions.EncodeSession(ms);
    hide Sessions.EncodeSession, Fold;
    ChunkIndependence(host, INITIAL, [bytes]);
    assert Concat([bytes]) == bytes + Concat([]) == bytes;
    Sessions.SessionRoundTrip(host, ms, [bytes]);
    assert [] + Sessions.ExpectedAll(ms) == Sessions.ExpectedAll(ms);
  }

  // No delivery waits for bytes behind the message: once the bytes of some
  // messages are received, whatever follows them, they have been delivered and
  // their pings answered, unless the host has ended the connection.
  lemma {:induction false} DeliveredPromptly(client: Client, received: seq<byte>, outcome: Outcome, ms: seq<Sessions.Message>)
    requires Agrees(client, INITIAL, received, outcome) && !outcome.Ended?
    requires forall i | 0 <= i < |ms| :: Sessions.Legal(ms[i])
    requires Sessions.EncodeSession(ms) <= received
    ensures Sessions.ExpectedAll(ms) <= client.log
  {
    var bytes := Sessions.EncodeSession(ms);
    hide Agrees, Fold, Sessions.EncodeSession;
    assert received == bytes + received[|bytes|..];
    OpenUntil(client, bytes, received[|bytes|..], outcome);
    WholeSession(client.host, ms);
  }

  lemma OpenUntil(client: Client, bytes: seq<byte>, more: seq<byte>, outcome: Outcome)
    requires Agrees(client, INITIAL, bytes + more, outcome) && !outcome.Ended?
    ensures var s := Fold(client.host, INITIAL, bytes); s.Open? && s.log <= client.log
  {
    hide Agrees, Fold;
    LogIsFolded(client, bytes + more, outcome);
    var s := Fold(client.host, INITIAL, bytes);
    FoldConcat(client.host, INITIAL, bytes, more);
    Safety.LogOnlyGrows(client.host, s, more);
    if s.Closed? {
      ClosedStaysClosed(client.host, s, more);
    }
  }

  // When recv never fails and has at least one positive answer for every byte
  // of the stream, and the socket is reported readable once more than recv
  // would block, then everything is received unless the connection ends.
  lemma AllReceived(client: Client, sock: Socket, s0: Session, stream: seq<byte>, script: Script, wakeups: nat,
                    outcome: Outcome, received: seq<byte>, calls: Script)
    requires Served(client, sock, s0, stream, script, wakeups, outcome, received, calls)
    requires NoFailure(script) && Positives(script) >= |stream| && Blocked(script) < wakeups
    ensures outcome.Ended? || (outcome.Suspended? && received == stream && sock.stream == [])
  {
    CountsAdd(calls, sock.script);
    assert forall i | 0 <= i < |calls| :: calls[i] == script[i];
    assert sock.script == [] ==> calls == script;
    assert sock.stream == [] ==> received == stream;
  }

  // A session served to the end.
  lemma {:induction false} SessionServed(client: Client, sock: Socket, stream: seq<byte>, script: Script, wakeups: nat,
                      outcome: Outcome, received: seq<byte>, calls: Script, ms: seq<Sessions.Message>)
    requires Served(client, sock, INITIAL, stream, script, wakeups, outcome, received, calls)
    requires NoFailure(script) && Positives(script) >= |stream| && Blocked(script) < wakeups
    requires forall i | 0 <= i < |ms| :: Sessions.Legal(ms[i])
    requires stream == Sessions.EncodeSession(ms)
    ensures client.log <= Sessions.ExpectedAll(ms)
    ensures client.log == Sessions.ExpectedAll(ms) || client.host.wantsClose(client.log) || client.host.pongLost(client.log)
  {
    AllReceived(client, sock, INITIAL, stream, script, wakeups, outcome, received, calls);
    assert received + sock.stream == stream;
    hide Agrees, Fold, Sessions.EncodeSession, Sessions.ExpectedAll, Justified, OpenBefore;
    DeliveredExactly(client, received, sock.stream, outcome, ms);
  }

  // A message at which the handler asks to close, or a pong that is lost, is
  // the last thing the client does.
  lemma HostIsHeeded(client: Client, received: seq<byte>, outcome: Outcome, i: nat)
    requires Agrees(client, INITIAL, received, outcome) && i < |client.log|
    requires (client.log[i].Deliver? && client.host.wantsClose(client.log[..i + 1]))
          || (client.log[i].Pong? && client.host.pongLost(client.log[..i + 1]))
    ensures i == |client.log| - 1 && outcome.Ended?
  {
    hide Agrees, Fold;
    LogIsFolded(client, received, outcome);
    Endings.HostIsHeeded(client.host, received);
  }

  // A connection that has ended did so with one of the bytes received: a close
  // frame was sent, the host ended it, or a fragmented control frame began.
  lemma EndedBecause(client: Client, received: seq<byte>, outcome: Outcome) returns (n: nat)
    requires Agrees(client, INITIAL, received, outcome) && outcome.Ended?
    ensures n < |received|
    ensures var s, k := Fold(client.host, INITIAL, received[..n]), |client.log| - 1;
      && s.Open? && s.log <= client.log
      && (if client.log == s.log then s.phase.Start? && received[n] in {8, 9, 10}
          else
            && |s.log| == k
            && (client.log[k].CloseReply?
                || (client.log[k].Deliver? && client.host.wantsClose(client.log))
                || (client.log[k].Pong? && client.host.pongLost(client.log))))
  {
    hide Agrees, Fold;
    LogIsFolded(client, received, outcome);
    n := Endings.EndedBecause(client.host, INITIAL, received);
    assert client.log[..|client.log|] == client.log;
  }

  // Whatever the peer sends: delivered text is well-formed as a whole, pongs
  // and close bodies fit a control frame, a close reply comes last.
  lemma AlwaysSafe(client: Client, received: seq<byte>, outcome: Outcome)
    requires Agrees(client, INITIAL, received, outcome)
    ensures Safety.LogOk(client.log)
    ensures !outcome.Ended? ==> Safety.SessionOk(SessionOf(client.View()))
  {
    LogIsFolded(client, received, outcome);
    Safety.EveryRunIsSafe(client.host, received);
  }

  // The message buffer holds the completed fragments, unmasked, then what has
  // arrived of the current one, still masked from its own first byte on.
  lemma BufferContents(client: Client, received: seq<byte>, outcome: Outcome)
    requires Agrees(client, INITIAL, received, outcome) && !outcome.Ended?
    ensures var s, d := Fold(client.host, INITIAL, received), client.data;
      && s.Open? && d.opcode == s.messageType && d.isFirst == (d.opcode != INVALID)
      && d.currentFragmentOffset <= d.filledSize <= d.bufferSize <= MAX_PAYLOAD_SIZE
      && (d.buffer == null ==> s.message == [])
      && (d.buffer != null ==>
            && d.buffer.Length == d.bufferSize
            && d.buffer[..d.currentFragmentOffset] == s.message
            && (if s.phase.Payload? && s.phase.kind.Data?
                then s.phase.got == Bytes.Unmask(s.phase.key, d.buffer[d.currentFragmentOffset..d.filledSize])
                else d.filledSize == d.currentFragmentOffset))
  {
    hide Fold;
    var v, d := client.View(), client.data;
    if d.buffer != null {
      assert d.buffer[..d.filledSize][..d.currentFragmentOffset] == d.buffer[..d.currentFragmentOffset];
      assert d.buffer[..d.filledSize][d.currentFragmentOffset..] == d.buffer[d.currentFragmentOffset..d.filledSize];
    }
  }

  // After whole frames, legal or not: the type and the buffered bytes are those
  // of the message the frames leave unfinished, if they leave one.
  lemma {:induction false} FragmentsBuffered(client: Client, frames: seq<Sessions.Frame>, outcome: Outcome)
    requires Sessions.AllWritable(frames)
    requires Agrees(client, INITIAL, Sessions.EncodeAll(frames), outcome) && !outcome.Ended?
    ensures var d, fragments := client.data, Sessions.Unfinished(frames);
      && (d.isFirst <==> Sessions.EndsInMessage(frames))
      && d.opcode == (if fragments == [] then INVALID else fragments[0].opcode)
      && d.filledSize == d.currentFragmentOffset
      && (if d.buffer == null then [] else d.buffer[..d.filledSize]) == Sessions.Payloads(fragments)
  {
    BufferContents(client, Sessions.EncodeAll(frames), outcome);
    hide Fold, Agrees;
    Sessions.FramesReceived(client.host, INITIAL, frames);
    Sessions.MessageInProgress(client.host, frames);
  }
}
