// The receiving side of sections 5 and 7 of RFC 6455 as a machine that takes
// one byte at a time.  It has no buffers and no fast paths; it is what the
// chunked, buffer-reusing Client is proved to agree with.
module Protocol {
  import opened Bytes
  import Utf8

  const BUFFER_SIZE := 4096
  const MAX_PAYLOAD_SIZE := 100 * 1024 * 1024
  const CONTROL_FRAME_BUFFER_SIZE := 125

  const CONTINUATION := 0
  const TEXT := 1
  const BINARY := 2
  const THRESHOLD := 7
  const CLOSE := 8
  const PING := 9
  const PONG := 10
  const INVALID := -1

  const EMPTY_FRAME := 0
  const NORMAL := 1000
  const AWAY := 1001
  const PROTOCOL_ERROR := 1002
  const INVALID_TYPE := 1003
  const INVALID_ENCODING := 1007
  const VIOLATION := 1008
  const TOO_LARGE := 1009
  const INVALID_EXTENSION := 1010
  const UNEXPECTED_CONDITION := 1011

  type StatusCode = c: int | 0 <= c < 0x1_0000

  // What a connection makes visible: messages handed to the application and
  // frames submitted for sending.
  datatype Event =
    | Deliver(opcode: int, message: seq<byte>)
    | Pong(payload: seq<byte>)
    | CloseReply(payload: seq<byte>)

  // The surroundings, as functions of everything that has happened so far:
  // whether the message handler asks to close, whether sending a pong fails.
  datatype Host = Host(wantsClose: seq<Event> -> bool, pongLost: seq<Event> -> bool)

  datatype Kind = Data(fin: bool) | Control(opcode: int)

  datatype Phase =
    | Start
    | Length(kind: Kind)
    | Extended(kind: Kind, width: nat, digits: seq<byte>)
    | Key(kind: Kind, size: nat, part: PartialMask)
    | Payload(kind: Kind, size: nat, key: Mask, got: seq<byte>)

  // messageType is INVALID when no message is in progress; message is the
  // unmasked payload of its completed fragments.
  datatype Session =
    | Open(phase: Phase, messageType: int, message: seq<byte>, log: seq<Event>)
    | Closed(log: seq<Event>)

  /* ----- Closing ----- */

  function StatusPayload(code: StatusCode): seq<byte> {
    if code == EMPTY_FRAME then [] else [code / 256, code % 256]
  }

  function Fail(s: Session, code: StatusCode): Session {
    Closed(s.log + [CloseReply(StatusPayload(code))])
  }

  function ReplyCode(code: StatusCode): int {
    if code == AWAY then NORMAL
    else if code in {NORMAL, PROTOCOL_ERROR, INVALID_TYPE, INVALID_ENCODING, VIOLATION,
                     TOO_LARGE, INVALID_EXTENSION, UNEXPECTED_CONDITION} then 0
    else -1
  }

  ghost function CloseReplyFor(payload: seq<byte>): seq<byte> {
    if |payload| == 0 then StatusPayload(NORMAL)
    else if |payload| == 1 then StatusPayload(PROTOCOL_ERROR)
    else
      Pow256Values();
      var reply := ReplyCode(BigEndian(payload[..2]));
      if reply == -1 then StatusPayload(EMPTY_FRAME)
      else if !Utf8.WellFormed(payload[2..]) then StatusPayload(INVALID_ENCODING)
      else (if reply > 0 then StatusPayload(reply) else payload[..2]) + payload[2..]
  }

  /* ----- One byte ----- */

  function FirstByte(s: Session, b: byte): Session
    requires s.Open?
  {
    var fin, rsv, opcode := b >= 128, b / 16 % 8, b % 16;
    if rsv != 0 || BINARY < opcode < CLOSE || opcode > PONG then Fail(s, PROTOCOL_ERROR)
    else if opcode > THRESHOLD then
      if !fin then Closed(s.log) else s.(phase := Length(Control(opcode)))
    else if (opcode == CONTINUATION) == (s.messageType == INVALID) then Fail(s, PROTOCOL_ERROR)
    else
      s.(phase := Length(Data(fin)),
         messageType := if opcode == CONTINUATION then s.messageType else opcode)
  }

  function LengthByte(s: Session, kind: Kind, b: byte): Session
    requires s.Open?
  {
    var n := b % 128;
    if b < 128 then Fail(s, INVALID_TYPE)
    else if n <= 125 then s.(phase := Key(kind, n, []))
    else if kind.Control? then Fail(s, PROTOCOL_ERROR)
    else s.(phase := Extended(kind, if n == 126 then 2 else 8, []))
  }

  function ExtendedByte(s: Session, kind: Kind, width: nat, got: seq<byte>): Session
    requires s.Open?
  {
    if |got| < width then s.(phase := Extended(kind, width, got))
    else if BigEndian(got) > MAX_PAYLOAD_SIZE then Fail(s, TOO_LARGE)
    else s.(phase := Key(kind, BigEndian(got), []))
  }

  function PayloadByte(s: Session, kind: Kind, size: nat, key: Mask, got: seq<byte>, b: byte): Session
    requires s.Open?
  {
    if kind.Data? && got == [] && |s.message| + size > MAX_PAYLOAD_SIZE then Fail(s, TOO_LARGE)
    else s.(phase := Payload(kind, size, key, got + [Xor(b, key[|got| % 4])]))
  }

  function Consume(s: Session, b: byte): Session {
    if s.Closed? then s
    else match s.phase
      case Start => FirstByte(s, b)
      case Length(kind) => LengthByte(s, kind, b)
      case Extended(kind, width, got) => ExtendedByte(s, kind, width, got + [b])
      case Key(kind, size, part) =>
        s.(phase := if |part| < 3 then Key(kind, size, part + [b]) else Payload(kind, size, part + [b], []))
      case Payload(kind, size, key, got) => PayloadByte(s, kind, size, key, got, b)
  }

  /* ----- One frame ----- */

  ghost function CompleteControl(host: Host, s: Session, opcode: int, payload: seq<byte>): Session
    requires s.Open?
  {
    if opcode == CLOSE then Closed(s.log + [CloseReply(CloseReplyFor(payload))])
    else
      var log := if opcode == PING then s.log + [Pong(payload)] else s.log;
      if opcode == PING && host.pongLost(log) then Closed(log)
      else s.(phase := Start, log := log)
  }

  ghost function CompleteData(host: Host, s: Session, fin: bool, payload: seq<byte>): Session
    requires s.Open?
  {
    var message := s.message + payload;
    if !fin then s.(phase := Start, message := message)
    else if s.messageType == TEXT && !Utf8.WellFormed(message) then Fail(s, INVALID_ENCODING)
    else
      var log := s.log + [Deliver(s.messageType, message)];
      if host.wantsClose(log) then Closed(log) else Open(Start, INVALID, [], log)
  }

  // Acts on a frame whose payload is complete; empty payloads are complete
  // as soon as the key is.
  ghost function Settle(host: Host, s: Session): Session {
    if s.Open? && s.phase.Payload? && |s.phase.got| == s.phase.size then
      match s.phase.kind
      case Control(opcode) => CompleteControl(host, s, opcode, s.phase.got)
      case Data(fin) => CompleteData(host, s, fin, s.phase.got)
    else s
  }

  ghost function Step(host: Host, s: Session, b: byte): Session {
    Settle(host, Consume(s, b))
  }

  ghost function Fold(host: Host, s: Session, bytes: seq<byte>): Session
    decreases bytes
  {
    if bytes == [] then s else Fold(host, Step(host, s, bytes[0]), bytes[1..])
  }

  const INITIAL := Open(Start, INVALID, [], [])

  /* ----- The fold does not see how the stream is cut ----- */

  lemma {:induction false} FoldConcat(host: Host, s: Session, a: seq<byte>, b: seq<byte>)
    ensures Fold(host, s, a + b) == Fold(host, Fold(host, s, a), b)
    decreases a
  {
    if a == [] {
      assert a + b == b;
    } else {
      FoldConcat(host, Step(host, s, a[0]), a[1..], b);
      assert (a + b)[1..] == a[1..] + b;
    }
  }

  lemma {:induction false} ChunkIndependence(host: Host, s: Session, chunks: seq<seq<byte>>)
    ensures FoldChunks(host, s, chunks) == Fold(host, s, Concat(chunks))
    decreases chunks
  {
    if chunks != [] {
      FoldConcat(host, s, chunks[0], Concat(chunks[1..]));
      ChunkIndependence(host, Fold(host, s, chunks[0]), chunks[1..]);
    }
  }

  ghost function FoldChunks(host: Host, s: Session, chunks: seq<seq<byte>>): Session
    decreases chunks
  {
    if chunks == [] then s else FoldChunks(host, Fold(host, s, chunks[0]), chunks[1..])
  }

  lemma FoldNothing(host: Host, s: Session, bytes: seq<byte>)
    ensures Fold(host, s, bytes[..0]) == s
  {
  }

  lemma {:induction false} ClosedStaysClosed(host: Host, s: Session, bytes: seq<byte>)
    requires s.Closed?
    ensures Fold(host, s, bytes) == s
    decreases bytes
  {
    if bytes != [] {
      ClosedStaysClosed(host, s, bytes[1..]);
    }
  }

  // The two facts above for adjacent windows of one buffer.
  lemma FoldSlice(host: Host, s: Session, all: seq<byte>, a: nat, b: nat, c: nat)
    requires a <= b <= c <= |all|
    ensures Fold(host, s, all[a..c]) == Fold(host, Fold(host, s, all[a..b]), all[b..c])
    ensures Fold(host, s, all[a..b]).Closed? ==> Fold(host, s, all[a..c]) == Fold(host, s, all[a..b])
  {
    assert all[a..c] == all[a..b] + all[b..c];
    FoldConcat(host, s, all[a..b], all[b..c]);
    if Fold(host, s, all[a..b]).Closed? {
      ClosedStaysClosed(host, Fold(host, s, all[a..b]), all[b..c]);
    }
  }

  // A reader that starts in s0 and is offered input[start..start + size] has
  // either taken the first read of these bytes and arrived in s1, or has
  // reported (read < 0) that the connection ends among them, with this log.
  ghost predicate Took(host: Host, s0: Session, input: seq<byte>, start: nat, size: nat, read: int,
                       s1: Session, log: seq<Event>)
  {
    start + size <= |input| &&
    if read < 0 then Fold(host, s0, input[start..start + size]) == Closed(log)
    else read <= size && Fold(host, s0, input[start..start + read]) == s1
  }

  lemma TookNone(host: Host, s: Session, input: seq<byte>, start: nat, size: nat, log: seq<Event>)
    requires start + size <= |input|
    ensures Took(host, s, input, start, size, 0, s, log)
  {
  }

  // After a failure the state that was reached is irrelevant.
  lemma TookFailed(host: Host, s0: Session, input: seq<byte>, start: nat, size: nat,
                   read: int, s1: Session, s2: Session, log: seq<Event>)
    requires read < 0 && Took(host, s0, input, start, size, read, s1, log)
    ensures Took(host, s0, input, start, size, -1, s2, log)
  {
  }

  lemma TookOne(host: Host, s0: Session, input: seq<byte>, start: nat, size: nat, s1: Session, log: seq<Event>)
    requires 0 < size && start + size <= |input|
    ensures s1 == Step(host, s0, input[start]) ==> Took(host, s0, input, start, size, 1, s1, log)
    ensures Closed(log) == Step(host, s0, input[start]) ==> Took(host, s0, input, start, size, -1, s1, log)
  {
    assert input[start..start + 1] == [input[start]];
    FoldSlice(host, s0, input, start, start + 1, start + size);
  }

  lemma TookThen(host: Host, s0: Session, input: seq<byte>, start: nat, size: nat,
                 read: nat, s1: Session, more: int, s2: Session, log1: seq<Event>, log2: seq<Event>)
    requires Took(host, s0, input, start, size, read, s1, log1)
    requires Took(host, s1, input, start + read, size - read, more, s2, log2)
    ensures Took(host, s0, input, start, size, if more < 0 then -1 else read + more, s2, log2)
  {
    hide Fold;
    if more < 0 {
      FoldSlice(host, s0, input, start, start + read, start + size);
    } else {
      FoldSlice(host, s0, input, start, start + read, start + read + more);
    }
  }

  // The outcome of the bytes up to and including read decides.
  lemma TookDone(host: Host, s0: Session, input: seq<byte>, start: nat, size: nat,
                 read: nat, alive: bool, s1: Session, log: seq<Event>)
    requires read <= size && start + size <= |input|
    requires Fold(host, s0, input[start..start + read]) == if alive then s1 else Closed(log)
    ensures Took(host, s0, input, start, size, if alive then read else -1, s1, log)
  {
    FoldSlice(host, s0, input, start, start + read, start + size);
  }

  // Only the window matters.
  lemma TookWindow(host: Host, s0: Session, input: seq<byte>, other: seq<byte>, start: nat, size: nat, read: int,
                   s1: Session, log: seq<Event>)
    requires Took(host, s0, input, start, size, read, s1, log)
    requires |input| == |other| && forall i | start <= i < |input| :: input[i] == other[i]
    ensures Took(host, s0, other, start, size, read, s1, log)
  {
    assert input[start..start + size] == other[start..start + size];
    if read >= 0 {
      assert input[start..start + read] == other[start..start + read];
    }
  }

  // A chunk, wherever it was put, is the next part of the stream.
  lemma TookChunk(host: Host, s0: Session, stream: seq<byte>, k: nat, input: seq<byte>, start: nat, size: nat,
                  alive: bool, s1: Session, log: seq<Event>)
    requires k + size <= |stream| && start + size <= |input|
    requires input[start..start + size] == stream[k..k + size]
    requires Took(host, Fold(host, s0, stream[..k]), input, start, size, if alive then size else -1, s1, log)
    ensures Fold(host, s0, stream[..k + size]) == if alive then s1 else Closed(log)
  {
    FoldConcat(host, s0, stream[..k], stream[k..k + size]);
    assert stream[..k + size] == stream[..k] + stream[k..k + size];
  }

  // Digits of an extended length taken in bulk.
  lemma {:induction false} ExtendedRun(host: Host, s: Session, kind: Kind, width: nat,
                                       digits: seq<byte>, more: seq<byte>)
    requires s.Open? && s.phase == Extended(kind, width, digits)
    requires |digits| + |more| <= width && more != []
    ensures Fold(host, s, more) == ExtendedByte(s, kind, width, digits + more)
    decreases more
  {
    var next := ExtendedByte(s, kind, width, digits + [more[0]]);
    assert Step(host, s, more[0]) == next;
    assert digits + more == digits + [more[0]] + more[1..];
    if |more| > 1 {
      ExtendedRun(host, next, kind, width, digits + [more[0]], more[1..]);
    } else {
      assert digits + more == digits + [more[0]];
    }
  }

  // Bytes of a payload taken in bulk: raw is the masked part already taken.
  lemma {:induction false} PayloadRun(host: Host, s: Session, kind: Kind, size: nat, key: Mask,
                                      raw: seq<byte>, more: seq<byte>)
    requires s.Open? && s.phase == Payload(kind, size, key, Unmask(key, raw))
    requires |raw| + |more| <= size && more != []
    requires kind.Data? && raw == [] ==> |s.message| + size <= MAX_PAYLOAD_SIZE
    ensures Fold(host, s, more) == Settle(host, s.(phase := Payload(kind, size, key, Unmask(key, raw + more))))
    decreases more
  {
    UnmaskAppend(key, raw, more[0]);
    var next := s.(phase := Payload(kind, size, key, Unmask(key, raw + [more[0]])));
    assert Consume(s, more[0]) == next;
    assert raw + more == raw + [more[0]] + more[1..];
    if |more| > 1 {
      PayloadRun(host, next, kind, size, key, raw + [more[0]], more[1..]);
    } else {
      assert raw + more == raw + [more[0]];
    }
  }

  // The whole refusal happens on the first payload byte.
  lemma PayloadRefused(host: Host, s: Session, bytes: seq<byte>)
    requires s.Open? && s.phase.Payload? && s.phase.got == [] && s.phase.kind.Data?
    requires |s.message| + s.phase.size > MAX_PAYLOAD_SIZE && bytes != []
    ensures Fold(host, s, bytes) == Fail(s, TOO_LARGE)
  {
    ClosedStaysClosed(host, Fail(s, TOO_LARGE), bytes[1..]);
  }
}
