// What holds in every state a connection can reach, whatever the peer sends.
module Safety {
  import opened Bytes
  import opened Protocol
  import Utf8

  // A close frame body: empty, or one of the codes the server may send
  // followed by well-formed text (section 5.5.1 of RFC 6455).
  ghost predicate CloseBodyOk(payload: seq<byte>) {
    payload == [] ||
    (&& 2 <= |payload| <= CONTROL_FRAME_BUFFER_SIZE
     && BigEndian(payload[..2]) in {NORMAL, PROTOCOL_ERROR, INVALID_TYPE, INVALID_ENCODING, VIOLATION,
                                    TOO_LARGE, INVALID_EXTENSION, UNEXPECTED_CONDITION}
     && Utf8.WellFormed(payload[2..]))
  }

  ghost predicate EventOk(e: Event) {
    match e
    case Deliver(opcode, message) =>
      && opcode in {TEXT, BINARY}
      && |message| <= MAX_PAYLOAD_SIZE
      && (opcode == TEXT ==> Utf8.WellFormed(message))
    case Pong(payload) => |payload| <= CONTROL_FRAME_BUFFER_SIZE
    case CloseReply(payload) => CloseBodyOk(payload)
  }

  // A close reply is the last thing that happens.
  ghost predicate LogOk(log: seq<Event>) {
    forall i | 0 <= i < |log| :: EventOk(log[i]) && (log[i].CloseReply? ==> i == |log| - 1)
  }

  ghost predicate KindOk(kind: Kind, messageType: int) {
    match kind
    case Control(opcode) => CLOSE <= opcode <= PONG
    case Data(_) => messageType != INVALID
  }

  ghost predicate SizeOk(kind: Kind, size: nat) {
    size <= if kind.Control? then CONTROL_FRAME_BUFFER_SIZE else MAX_PAYLOAD_SIZE
  }

  ghost predicate PhaseOk(phase: Phase, messageType: int, stored: nat) {
    match phase
    case Start => true
    case Length(kind) => KindOk(kind, messageType)
    case Extended(kind, width, digits) =>
      KindOk(kind, messageType) && kind.Data? && width in {2, 8} && |digits| < width
    case Key(kind, size, _) => KindOk(kind, messageType) && SizeOk(kind, size)
    case Payload(kind, size, _, got) =>
      && KindOk(kind, messageType) && SizeOk(kind, size) && |got| < size
      && (kind.Data? && got != [] ==> stored + size <= MAX_PAYLOAD_SIZE)
  }

  // messageType is INVALID exactly when no message is in progress.
  ghost predicate SessionOk(s: Session) {
    && LogOk(s.log)
    && (s.Open? ==>
          && s.messageType in {INVALID, TEXT, BINARY}
          && (s.messageType == INVALID ==> s.message == [])
          && |s.message| <= MAX_PAYLOAD_SIZE
          && PhaseOk(s.phase, s.messageType, |s.message|)
          && forall i | 0 <= i < |s.log| :: !s.log[i].CloseReply?)
  }

  lemma StatusPayloadOk(code: StatusCode)
    requires code == EMPTY_FRAME || code in {NORMAL, PROTOCOL_ERROR, INVALID_TYPE, INVALID_ENCODING, TOO_LARGE}
    ensures CloseBodyOk(StatusPayload(code))
  {
    Utf8.WellFormedEmpty();
    if code != EMPTY_FRAME {
      var p := StatusPayload(code);
      assert p[..2][..1] == [p[0]] && p[2..] == [];
      assert BigEndian([p[0]]) == p[0];
    }
  }

  lemma CloseReplyOk(payload: seq<byte>)
    requires |payload| <= CONTROL_FRAME_BUFFER_SIZE
    ensures CloseBodyOk(CloseReplyFor(payload))
  {
    StatusPayloadOk(EMPTY_FRAME);
    StatusPayloadOk(NORMAL);
    StatusPayloadOk(PROTOCOL_ERROR);
    StatusPayloadOk(INVALID_ENCODING);
    if |payload| >= 2 {
      var reply := CloseReplyFor(payload);
      Pow256Values();
      var code := ReplyCode(BigEndian(payload[..2]));
      var head := if code > 0 then StatusPayload(NORMAL) else payload[..2];
      if code != -1 && Utf8.WellFormed(payload[2..]) {
        assert reply == head + payload[2..];
        assert reply[..2] == head && reply[2..] == payload[2..];
        assert StatusPayload(NORMAL)[..2] == StatusPayload(NORMAL);
      }
    }
  }

  lemma FailOk(s: Session, code: StatusCode)
    requires s.Open? && SessionOk(s)
    requires code in {PROTOCOL_ERROR, INVALID_TYPE, INVALID_ENCODING, TOO_LARGE}
    ensures SessionOk(Fail(s, code))
  {
    StatusPayloadOk(code);
  }

  // The state between Consume and Settle, in which a payload may be complete.
  ghost predicate NearlyOk(s: Session) {
    SessionOk(s) ||
    (&& s.Open? && s.phase.Payload? && |s.phase.got| == s.phase.size
     && SessionOk(s.(phase := Start))
     && KindOk(s.phase.kind, s.messageType) && SizeOk(s.phase.kind, s.phase.size)
     && (s.phase.kind.Data? && s.phase.got != [] ==> |s.message| + s.phase.size <= MAX_PAYLOAD_SIZE))
  }

  lemma FirstByteOk(s: Session, b: byte)
    requires s.Open? && SessionOk(s)
    ensures SessionOk(FirstByte(s, b))
  {
    FailOk(s, PROTOCOL_ERROR);
  }

  lemma LengthByteOk(s: Session, kind: Kind, b: byte)
    requires s.Open? && SessionOk(s) && KindOk(kind, s.messageType)
    ensures SessionOk(LengthByte(s, kind, b))
  {
    FailOk(s, INVALID_TYPE);
    FailOk(s, PROTOCOL_ERROR);
  }

  lemma ExtendedByteOk(s: Session, kind: Kind, width: nat, digits: seq<byte>)
    requires s.Open? && SessionOk(s) && KindOk(kind, s.messageType) && kind.Data? && width in {2, 8}
    ensures SessionOk(ExtendedByte(s, kind, width, digits))
  {
    FailOk(s, TOO_LARGE);
  }

  lemma ConsumeNearlyOk(s: Session, b: byte)
    requires SessionOk(s)
    ensures NearlyOk(Consume(s, b))
  {
    if s.Open? {
      match s.phase {
        case Start => FirstByteOk(s, b);
        case Length(kind) => LengthByteOk(s, kind, b);
        case Extended(kind, width, digits) => ExtendedByteOk(s, kind, width, digits + [b]);
        case Key(_, _, _) =>
        case Payload(kind, size, key, got) =>
          FailOk(s, TOO_LARGE);
          hide LogOk, EventOk;
      }
    }
  }

  lemma CompleteControlOk(host: Host, s: Session, opcode: int, payload: seq<byte>)
    requires s.Open? && SessionOk(s.(phase := Start)) && |payload| <= CONTROL_FRAME_BUFFER_SIZE
    ensures SessionOk(CompleteControl(host, s, opcode, payload))
  {
    CloseReplyOk(payload);
  }

  lemma CompleteDataOk(host: Host, s: Session, fin: bool, payload: seq<byte>)
    requires s.Open? && SessionOk(s.(phase := Start)) && s.messageType != INVALID
    requires |s.message| + |payload| <= MAX_PAYLOAD_SIZE
    ensures SessionOk(CompleteData(host, s, fin, payload))
  {
    FailOk(s.(phase := Start), INVALID_ENCODING);
  }

  lemma {:induction false} StepOk(host: Host, s: Session, b: byte)
    requires SessionOk(s)
    ensures SessionOk(Step(host, s, b))
  {
    ConsumeNearlyOk(s, b);
    var t := Consume(s, b);
    if t.Open? && t.phase.Payload? && |t.phase.got| == t.phase.size {
      match t.phase.kind {
        case Control(opcode) => CompleteControlOk(host, t, opcode, t.phase.got);
        case Data(fin) => CompleteDataOk(host, t, fin, t.phase.got);
      }
    }
  }

  lemma {:induction false} FoldOk(host: Host, s: Session, bytes: seq<byte>)
    requires SessionOk(s)
    ensures SessionOk(Fold(host, s, bytes))
    decreases bytes
  {
    if bytes != [] {
      StepOk(host, s, bytes[0]);
      FoldOk(host, Step(host, s, bytes[0]), bytes[1..]);
    }
  }

  // Every reachable state, whatever bytes arrive and whatever the host does.
  lemma EveryRunIsSafe(host: Host, bytes: seq<byte>)
    ensures SessionOk(Fold(host, INITIAL, bytes))
  {
    FoldOk(host, INITIAL, bytes);
  }

  lemma StepLogGrows(host: Host, s: Session, b: byte)
    ensures s.log <= Step(host, s, b).log
  {
    assert s.log <= Consume(s, b).log;
  }

  lemma {:induction false} LogOnlyGrows(host: Host, s: Session, bytes: seq<byte>)
    ensures s.log <= Fold(host, s, bytes).log
    decreases bytes
  {
    hide Step;
    if bytes != [] {
      StepLogGrows(host, s, bytes[0]);
      LogOnlyGrows(host, Step(host, s, bytes[0]), bytes[1..]);
    }
  }

  // Between frames, the first byte of the next one closes the connection in
  // exactly the cases of sections 5.2, 5.4 and 5.5 of RFC 6455, and closes it
  // silently only for a fragmented control frame.
  lemma FirstByteCloses(host: Host, s: Session, b: byte)
    requires s.Open? && s.phase.Start?
    ensures var opcode := b % 16;
      var reservedBits, reservedOpcode := b / 16 % 8 != 0, opcode in {3, 4, 5, 6, 7, 11, 12, 13, 14, 15};
      var fragmentedControl := opcode in {CLOSE, PING, PONG} && b < 128;
      var nothingToContinue := opcode == CONTINUATION && s.messageType == INVALID;
      var messageInMessage := opcode in {TEXT, BINARY} && s.messageType != INVALID;
      && (Step(host, s, b).Closed? <==>
            reservedBits || reservedOpcode || fragmentedControl || nothingToContinue || messageInMessage)
      && (Step(host, s, b) == Closed(s.log) <==>
            fragmentedControl && !reservedBits && !reservedOpcode)
      && (Step(host, s, b) == Closed(s.log + [CloseReply([3, 234])]) <==>
            reservedBits || reservedOpcode || nothingToContinue || messageInMessage)
  {
    assert |Fail(s, PROTOCOL_ERROR).log| == |s.log| + 1;
  }

  // The second byte closes it with 1003 for lack of a mask, and with 1002 for a
  // control frame that claims more than 125 bytes; in no other case.
  lemma LengthByteCloses(host: Host, s: Session, kind: Kind, b: byte)
    requires s.Open? && s.phase == Length(kind)
    ensures Step(host, s, b).Closed? <==> b < 128 || (kind.Control? && b > 128 + CONTROL_FRAME_BUFFER_SIZE)
    ensures b < 128 <==> Step(host, s, b) == Closed(s.log + [CloseReply([3, 235])])
    ensures b >= 128 && kind.Control? && b > 128 + CONTROL_FRAME_BUFFER_SIZE <==>
      Step(host, s, b) == Closed(s.log + [CloseReply([3, 234])])
  {
    if Step(host, s, b).Closed? {
      assert (s.log + [CloseReply([3, 235])])[|s.log|] == CloseReply([3, 235]);
      assert (s.log + [CloseReply([3, 234])])[|s.log|] == CloseReply([3, 234]);
    }
  }
}
