// The other end of the connection: frames and whole sessions as a client
// writes them (sections 5.2 to 5.5 of RFC 6455), and what becomes of them.
module Sessions {
  import opened Bytes
  import opened Protocol
  import Utf8

  // The three ways to write a payload length; the longer ones may be used for
  // short payloads as well.
  datatype Form = Short | Medium | Long

  datatype Frame = Frame(fin: bool, opcode: nat, form: Form, key: Mask, payload: seq<byte>)

  predicate Fits(form: Form, size: nat) {
    match form
    case Short => size <= 125
    case Medium => size < 0x1_0000
    case Long => size < 0x1_0000_0000_0000_0000
  }

  predicate Writable(f: Frame) {
    f.opcode < 16 && Fits(f.form, |f.payload|)
  }

  function FirstOf(f: Frame): byte
    requires Writable(f)
  {
    (if f.fin then 128 else 0) + f.opcode
  }

  function Width(form: Form): nat {
    match form case Short => 0 case Medium => 2 case Long => 8
  }

  function LengthOf(f: Frame): seq<byte>
    requires Writable(f)
  {
    [128 + match f.form case Short => |f.payload| case Medium => 126 case Long => 127]
    + ToBigEndian(|f.payload|, Width(f.form))
  }

  function Encode(f: Frame): seq<byte>
    requires Writable(f)
  {
    [FirstOf(f)] + LengthOf(f) + f.key + Unmask(f.key, f.payload)
  }

  /* ----- What a whole frame does ----- */

  ghost function Receive(host: Host, s: Session, f: Frame): Session
    requires s.Open?
  {
    if BINARY < f.opcode < CLOSE || f.opcode > PONG then Fail(s, PROTOCOL_ERROR)
    else if f.opcode >= CLOSE then
      if !f.fin then Closed(s.log)
      else if !f.form.Short? then Fail(s, PROTOCOL_ERROR)
      else CompleteControl(host, s, f.opcode, f.payload)
    else if (f.opcode == CONTINUATION) == (s.messageType == INVALID) then Fail(s, PROTOCOL_ERROR)
    else if |f.payload| > MAX_PAYLOAD_SIZE then Fail(s, TOO_LARGE)
    else if f.payload != [] && |s.message| + |f.payload| > MAX_PAYLOAD_SIZE then Fail(s, TOO_LARGE)
    else
      var messageType := if f.opcode == CONTINUATION then s.messageType else f.opcode;
      CompleteData(host, s.(messageType := messageType), f.fin, f.payload)
  }

  ghost function ReceiveAll(host: Host, s: Session, frames: seq<Frame>): Session
    decreases frames
  {
    if frames == [] || s.Closed? then s
    else ReceiveAll(host, Receive(host, s, frames[0]), frames[1..])
  }

  lemma KeyTaken(host: Host, s: Session, kind: Kind, size: nat, key: Mask)
    requires s.Open? && s.phase == Key(kind, size, [])
    ensures Fold(host, s, key) == Settle(host, s.(phase := Payload(kind, size, key, [])))
  {
    var s1 := s.(phase := Key(kind, size, key[..1]));
    var s2 := s.(phase := Key(kind, size, key[..2]));
    var s3 := s.(phase := Key(kind, size, key[..3]));
    assert key[1..][1..] == key[2..] && key[2..][1..] == key[3..] && key[3..] == [key[3]];
    assert Step(host, s, key[0]) == s1;
    assert Step(host, s1, key[1]) == s2 by { assert key[..1] + [key[1]] == key[..2]; }
    assert Step(host, s2, key[2]) == s3 by { assert key[..2] + [key[2]] == key[..3]; }
    assert key[..3] + [key[3]] == key;
    calc {
      Fold(host, s, key);
      Fold(host, s1, key[1..]);
      Fold(host, s2, key[2..]);
      Fold(host, s3, key[3..]);
      Step(host, s3, key[3]);
    }
  }

  // Key and masked payload of a frame within the limits.
  lemma BodyTaken(host: Host, s: Session, kind: Kind, key: Mask, payload: seq<byte>)
    requires s.Open? && s.phase == Key(kind, |payload|, [])
    ensures Fold(host, s, key + Unmask(key, payload))
         == if kind.Data? && payload != [] && |s.message| + |payload| > MAX_PAYLOAD_SIZE then Fail(s, TOO_LARGE)
            else Settle(host, s.(phase := Payload(kind, |payload|, key, payload)))
  {
    var masked := Unmask(key, payload);
    var t := s.(phase := Payload(kind, |payload|, key, []));
    FoldConcat(host, s, key, masked);
    KeyTaken(host, s, kind, |payload|, key);
    FoldNothing(host, t, masked);
    if payload != [] {
      if kind.Data? && |s.message| + |payload| > MAX_PAYLOAD_SIZE {
        PayloadRefused(host, t, masked);
      } else {
        PayloadRun(host, t, kind, |payload|, key, [], masked);
        UnmaskTwice(key, payload);
        assert [] + masked == masked;
      }
    }
  }

  // The length field of a data frame.
  lemma LengthTaken(host: Host, s: Session, fin: bool, f: Frame)
    requires Writable(f) && s.Open? && s.phase == Length(Data(fin))
    ensures Fold(host, s, LengthOf(f))
         == if |f.payload| > MAX_PAYLOAD_SIZE then Fail(s, TOO_LARGE) else s.(phase := Key(Data(fin), |f.payload|, []))
  {
    var field, width := LengthOf(f), Width(f.form);
    var digits := ToBigEndian(|f.payload|, width);
    assert field[1..] == digits;
    if f.form.Short? {
      assert digits == [];
      assert Step(host, s, field[0]) == s.(phase := Key(Data(fin), |f.payload|, []));
    } else {
      var t := s.(phase := Extended(Data(fin), width, []));
      assert Step(host, s, field[0]) == t;
      ExtendedRun(host, t, Data(fin), width, [], digits);
      assert [] + digits == digits;
      Pow256Values();
      BigEndianRoundTrip(|f.payload|, width);
    }
  }

  lemma AfterFirst(host: Host, s: Session, f: Frame, rest: seq<byte>)
    requires Writable(f) && s.Open? && s.phase.Start?
    ensures var t := Step(host, s, FirstOf(f));
      && Fold(host, s, [FirstOf(f)] + rest) == Fold(host, t, rest)
      && (BINARY < f.opcode < CLOSE || f.opcode > PONG ==> t == Fail(s, PROTOCOL_ERROR))
      && (CLOSE <= f.opcode <= PONG ==> t == if f.fin then s.(phase := Length(Control(f.opcode))) else Closed(s.log))
      && (f.opcode <= BINARY ==>
            t == if (f.opcode == CONTINUATION) == (s.messageType == INVALID) then Fail(s, PROTOCOL_ERROR)
                 else s.(phase := Length(Data(f.fin)),
                         messageType := if f.opcode == CONTINUATION then s.messageType else f.opcode))
  {
    assert ([FirstOf(f)] + rest)[1..] == rest;
  }

  lemma ControlBody(host: Host, s: Session, f: Frame)
    requires Writable(f) && s.Open? && s.phase == Length(Control(f.opcode))
    ensures Fold(host, s, LengthOf(f) + f.key + Unmask(f.key, f.payload))
         == if f.form.Short? then CompleteControl(host, s, f.opcode, f.payload) else Fail(s, PROTOCOL_ERROR)
  {
    var body := f.key + Unmask(f.key, f.payload);
    var rest := LengthOf(f) + f.key + Unmask(f.key, f.payload);
    var t := s.(phase := Key(Control(f.opcode), |f.payload|, []));
    assert rest[0] == LengthOf(f)[0];
    if f.form.Short? {
      assert rest[1..] == body;
      assert Step(host, s, rest[0]) == t;
      BodyTaken(host, t, Control(f.opcode), f.key, f.payload);
    } else {
      ClosedStaysClosed(host, Fail(s, PROTOCOL_ERROR), rest[1..]);
    }
  }

  lemma DataBody(host: Host, s: Session, f: Frame)
    requires Writable(f) && s.Open? && s.phase == Length(Data(f.fin))
    ensures Fold(host, s, LengthOf(f) + f.key + Unmask(f.key, f.payload))
         == if |f.payload| > MAX_PAYLOAD_SIZE then Fail(s, TOO_LARGE)
            else if f.payload != [] && |s.message| + |f.payload| > MAX_PAYLOAD_SIZE then Fail(s, TOO_LARGE)
            else CompleteData(host, s, f.fin, f.payload)
  {
    var body := f.key + Unmask(f.key, f.payload);
    assert LengthOf(f) + f.key + Unmask(f.key, f.payload) == LengthOf(f) + body;
    FoldConcat(host, s, LengthOf(f), body);
    LengthTaken(host, s, f.fin, f);
    if |f.payload| > MAX_PAYLOAD_SIZE {
      ClosedStaysClosed(host, Fail(s, TOO_LARGE), body);
    } else {
      BodyTaken(host, s.(phase := Key(Data(f.fin), |f.payload|, [])), Data(f.fin), f.key, f.payload);
    }
  }

  // The bytes of any frame, legal or not, do what the frame does.
  lemma FrameReceived(host: Host, s: Session, f: Frame)
    requires Writable(f) && s.Open? && s.phase.Start?
    ensures Fold(host, s, Encode(f)) == Receive(host, s, f)
  {
    var rest := LengthOf(f) + f.key + Unmask(f.key, f.payload);
    assert Encode(f) == [FirstOf(f)] + rest;
    AfterFirst(host, s, f, rest);
    var t := Step(host, s, FirstOf(f));
    if t.Closed? {
      ClosedStaysClosed(host, t, rest);
    } else if f.opcode >= CLOSE {
      ControlBody(host, t, f);
    } else {
      DataBody(host, t, f);
    }
  }

  // A data frame that is in order is refused as too large if and only if the
  // message would exceed the limit with it; one more byte is too much.
  lemma TooLargeIff(host: Host, s: Session, f: Frame)
    requires Writable(f) && s.Open? && s.phase.Start? && |s.message| <= MAX_PAYLOAD_SIZE
    requires f.opcode <= BINARY && (f.opcode == CONTINUATION <==> s.messageType != INVALID)
    ensures Fold(host, s, Encode(f)) == Closed(s.log + [CloseReply([3, 241])])
       <==> |s.message| + |f.payload| > 104_857_600
  {
    FrameReceived(host, s, f);
    var refusal := Fail(s, TOO_LARGE);
    if |s.message| + |f.payload| <= MAX_PAYLOAD_SIZE {
      var r := Fold(host, s, Encode(f));
      if r.Closed? {
        assert |r.log| == |s.log| + 1 == |refusal.log|;
        assert refusal.log[|s.log|] == CloseReply([3, 241]);
        assert r.log[|s.log|] != CloseReply([3, 241]);
      }
    }
  }

  /* ----- Messages in fragments, with pings and pongs in between ----- */

  // What may precede the last fragment of a message.
  datatype Piece =
    | Fragment(form: Form, key: Mask, payload: seq<byte>)
    | Signal(opcode: nat, key: Mask, payload: seq<byte>)

  datatype Message = Message(opcode: nat, pieces: seq<Piece>, last: Piece)

  predicate LegalPiece(p: Piece) {
    match p
    case Fragment(form, _, payload) => Fits(form, |payload|)
    case Signal(opcode, _, payload) => (opcode == PING || opcode == PONG) && |payload| <= CONTROL_FRAME_BUFFER_SIZE
  }

  // The application data of the fragments.
  function Content(pieces: seq<Piece>): seq<byte> {
    if pieces == [] then []
    else (if pieces[0].Fragment? then pieces[0].payload else []) + Content(pieces[1..])
  }

  function Text(m: Message): seq<byte> {
    Content(m.pieces) + m.last.payload
  }

  ghost predicate Legal(m: Message) {
    && (m.opcode == TEXT || m.opcode == BINARY)
    && (forall i | 0 <= i < |m.pieces| :: LegalPiece(m.pieces[i]))
    && m.last.Fragment? && LegalPiece(m.last)
    && |Text(m)| <= MAX_PAYLOAD_SIZE
    && (m.opcode == TEXT ==> Utf8.WellFormed(Text(m)))
  }

  function FrameOf(p: Piece, opcode: nat, fin: bool): Frame {
    match p
    case Fragment(form, key, payload) => Frame(fin, opcode, form, key, payload)
    case Signal(op, key, payload) => Frame(true, op, Short, key, payload)
  }

  // Only the first fragment carries the message's opcode.
  function FramesOf(opcode: nat, pieces: seq<Piece>, last: Piece): seq<Frame> {
    if pieces == [] then [FrameOf(last, opcode, true)]
    else
      [FrameOf(pieces[0], opcode, false)]
      + FramesOf(if pieces[0].Fragment? then CONTINUATION else opcode, pieces[1..], last)
  }

  function FramesOfAll(ms: seq<Message>): seq<Frame> {
    if ms == [] then [] else FramesOf(ms[0].opcode, ms[0].pieces, ms[0].last) + FramesOfAll(ms[1..])
  }

  // Every ping is answered with its own payload.
  function Pongs(pieces: seq<Piece>): seq<Event> {
    if pieces == [] then []
    else
      (if pieces[0].Signal? && pieces[0].opcode == PING then [Event.Pong(pieces[0].payload)] else [])
      + Pongs(pieces[1..])
  }

  function Expected(m: Message): seq<Event> {
    Pongs(m.pieces) + [Deliver(m.opcode, Text(m))]
  }

  function ExpectedAll(ms: seq<Message>): seq<Event> {
    if ms == [] then [] else Expected(ms[0]) + ExpectedAll(ms[1..])
  }

  // All that was expected has happened, or a part of it, up to an event after
  // which the host ended the connection.
  ghost predicate Done(host: Host, s: Session, before: seq<Event>, expected: seq<Event>) {
    if s.Open? then s == Open(Start, INVALID, [], before + expected)
    else before < s.log <= before + expected && (host.wantsClose(s.log) || host.pongLost(s.log))
  }

  // s is inside a message of this type, or about to begin one.
  ghost predicate Within(s: Session, messageType: nat, opcode: nat) {
    && s.Open? && s.phase.Start? && messageType in {TEXT, BINARY}
    && (if opcode == CONTINUATION then s.messageType == messageType
        else opcode == messageType && s.messageType == INVALID && s.message == [])
  }

  lemma FragmentReceived(host: Host, s: Session, messageType: nat, opcode: nat, p: Piece)
    requires Within(s, messageType, opcode) && p.Fragment?
    requires |s.message| + |p.payload| <= MAX_PAYLOAD_SIZE
    ensures Receive(host, s, FrameOf(p, opcode, false))
         == s.(messageType := messageType, message := s.message + p.payload)
  {
  }

  lemma SignalReceived(host: Host, s: Session, p: Piece)
    requires s.Open? && s.phase.Start? && p.Signal? && LegalPiece(p)
    ensures var log := s.log + (if p.opcode == PING then [Event.Pong(p.payload)] else []);
      Receive(host, s, FrameOf(p, 0, false))
      == if p.opcode == PING && host.pongLost(log) then Closed(log) else s.(log := log)
  {
    assert s.log + [] == s.log;
  }

  lemma LastReceived(host: Host, s: Session, messageType: nat, opcode: nat, p: Piece)
    requires Within(s, messageType, opcode) && p.Fragment?
    requires |s.message| + |p.payload| <= MAX_PAYLOAD_SIZE
    requires messageType == TEXT ==> Utf8.WellFormed(s.message + p.payload)
    ensures Done(host, Receive(host, s, FrameOf(p, opcode, true)), s.log, [Deliver(messageType, s.message + p.payload)])
  {
  }

  lemma DoneLater(host: Host, s: Session, before: seq<Event>, e1: seq<Event>, e2: seq<Event>)
    requires Done(host, s, before + e1, e2)
    ensures Done(host, s, before, e1 + e2)
  {
    assert before + (e1 + e2) == (before + e1) + e2;
  }

  lemma DoneEarly(host: Host, s: Session, before: seq<Event>, e1: seq<Event>, e2: seq<Event>)
    requires s.Closed? && Done(host, s, before, e1)
    ensures Done(host, s, before, e1 + e2)
  {
    assert before + (e1 + e2) == (before + e1) + e2;
  }

  lemma ReceiveFirst(host: Host, s: Session, opcode: nat, pieces: seq<Piece>, last: Piece)
    requires s.Open? && pieces != []
    ensures ReceiveAll(host, s, FramesOf(opcode, pieces, last))
         == ReceiveAll(host, Receive(host, s, FrameOf(pieces[0], opcode, false)),
                       FramesOf(if pieces[0].Fragment? then CONTINUATION else opcode, pieces[1..], last))
  {
    hide Receive;
    var frames := FramesOf(opcode, pieces, last);
    assert frames[1..] == FramesOf(if pieces[0].Fragment? then CONTINUATION else opcode, pieces[1..], last);
  }

  ghost predicate Receivable(s: Session, messageType: nat, pieces: seq<Piece>, last: Piece) {
    && s.Open? && last.Fragment? && LegalPiece(last)
    && (forall i | 0 <= i < |pieces| :: LegalPiece(pieces[i]))
    && |s.message| + |Content(pieces)| + |last.payload| <= MAX_PAYLOAD_SIZE
    && (messageType == TEXT ==> Utf8.WellFormed(Whole(s, pieces, last)))
  }

  ghost function Whole(s: Session, pieces: seq<Piece>, last: Piece): seq<byte>
    requires s.Open? && last.Fragment?
  {
    s.message + (Content(pieces) + last.payload)
  }

  lemma {:induction false} PiecesReceived(host: Host, s: Session, messageType: nat, opcode: nat,
                                          pieces: seq<Piece>, last: Piece)
    requires Within(s, messageType, opcode) && Receivable(s, messageType, pieces, last)
    ensures Done(host, ReceiveAll(host, s, FramesOf(opcode, pieces, last)), s.log,
                 Pongs(pieces) + [Deliver(messageType, Whole(s, pieces, last))])
    decreases pieces
  {
    hide Receive, Done, FramesOf;
    var delivery := [Deliver(messageType, Whole(s, pieces, last))];
    if pieces == [] {
      OnlyLast(host, s, messageType, opcode, last);
      assert Pongs([]) + delivery == delivery;
    } else {
      ReceiveFirst(host, s, opcode, pieces, last);
      if pieces[0].Fragment? {
        FragmentReceived(host, s, messageType, opcode, pieces[0]);
        var t := s.(messageType := messageType, message := s.message + pieces[0].payload);
        assert Whole(t, pieces[1..], last) == Whole(s, pieces, last);
        PiecesReceived(host, t, messageType, CONTINUATION, pieces[1..], last);
        assert Pongs(pieces) == Pongs(pieces[1..]);
      } else {
        AfterSignal(host, s, messageType, opcode, pieces, last);
        var pong := if pieces[0].opcode == PING then [Event.Pong(pieces[0].payload)] else [];
        var t := s.(log := s.log + pong);
        if Receive(host, s, FrameOf(pieces[0], opcode, false)).Open? {
          PiecesReceived(host, t, messageType, opcode, pieces[1..], last);
          DoneLater(host, ReceiveAll(host, t, FramesOf(opcode, pieces[1..], last)), s.log, pong,
                    Pongs(pieces[1..]) + delivery);
        }
      }
    }
  }

  // Only the message as a whole counts.
  lemma CompletedAlike(host: Host, s: Session, t: Session, p: seq<byte>, q: seq<byte>)
    requires s.Open? && t.Open? && s.log == t.log && s.messageType == t.messageType
    requires s.message + p == t.message + q
    ensures CompleteData(host, s, true, p) == CompleteData(host, t, true, q)
  {
  }

  lemma UnfragmentedReceived(host: Host, s: Session, messageType: nat, opcode: nat, last: Piece)
    requires Within(s, messageType, opcode) && last.Fragment?
    requires |s.message| + |last.payload| <= MAX_PAYLOAD_SIZE
    ensures ReceiveAll(host, s, FramesOf(opcode, [], last))
         == CompleteData(host, s.(messageType := messageType), true, last.payload)
  {
    hide CompleteData;
    var frames := FramesOf(opcode, [], last);
    assert frames == [FrameOf(last, opcode, true)] && frames[1..] == [];
    assert Receive(host, s, frames[0]) == CompleteData(host, s.(messageType := messageType), true, last.payload);
  }

  // Where a message is cut into fragments makes no difference, not even to
  // the verdict on its text.
  lemma {:induction false} FragmentationDoesNotMatter(host: Host, s: Session, messageType: nat, opcode: nat,
                                                      pieces: seq<Piece>, last: Piece)
    requires Within(s, messageType, opcode) && last.Fragment?
    requires forall i | 0 <= i < |pieces| :: pieces[i].Fragment?
    requires |s.message| + |Content(pieces)| + |last.payload| <= MAX_PAYLOAD_SIZE
    ensures ReceiveAll(host, s, FramesOf(opcode, pieces, last))
         == CompleteData(host, s.(messageType := messageType), true, Content(pieces) + last.payload)
    decreases pieces
  {
    if pieces == [] {
      assert Content(pieces) + last.payload == last.payload;
      UnfragmentedReceived(host, s, messageType, opcode, last);
    } else {
      hide Receive, FramesOf, CompleteData;
      ReceiveFirst(host, s, opcode, pieces, last);
      FragmentReceived(host, s, messageType, opcode, pieces[0]);
      var t := s.(messageType := messageType, message := s.message + pieces[0].payload);
      FragmentationDoesNotMatter(host, t, messageType, CONTINUATION, pieces[1..], last);
      assert t.message + (Content(pieces[1..]) + last.payload) == s.message + (Content(pieces) + last.payload);
      CompletedAlike(host, t, s.(messageType := messageType), Content(pieces[1..]) + last.payload,
                     Content(pieces) + last.payload);
    }
  }

  lemma OnlyLast(host: Host, s: Session, messageType: nat, opcode: nat, last: Piece)
    requires Within(s, messageType, opcode) && Receivable(s, messageType, [], last)
    ensures Done(host, ReceiveAll(host, s, FramesOf(opcode, [], last)), s.log,
                 [Deliver(messageType, Whole(s, [], last))])
  {
    hide Receive;
    assert Content([]) + last.payload == last.payload;
    LastReceived(host, s, messageType, opcode, last);
    var frames := FramesOf(opcode, [], last);
    assert frames == [FrameOf(last, opcode, true)] && frames[1..] == [];
  }

  lemma AfterSignal(host: Host, s: Session, messageType: nat, opcode: nat, pieces: seq<Piece>, last: Piece)
    requires s.Open? && s.phase.Start? && Receivable(s, messageType, pieces, last) && pieces != [] && pieces[0].Signal?
    ensures var pong := if pieces[0].opcode == PING then [Event.Pong(pieces[0].payload)] else [];
      var delivery := [Deliver(messageType, Whole(s, pieces, last))];
      var t := Receive(host, s, FrameOf(pieces[0], opcode, false));
      && Receivable(s.(log := s.log + pong), messageType, pieces[1..], last)
      && Whole(s, pieces, last) == Whole(s, pieces[1..], last)
      && Pongs(pieces) + delivery == pong + (Pongs(pieces[1..]) + delivery)
      && (if t.Open? then t == s.(log := s.log + pong)
          else forall frames :: Done(host, ReceiveAll(host, t, frames), s.log, Pongs(pieces) + delivery))
  {
    hide Receive;
    SignalReceived(host, s, pieces[0]);
    assert Content(pieces) == Content(pieces[1..]);
    var pong := if pieces[0].opcode == PING then [Event.Pong(pieces[0].payload)] else [];
    var delivery := [Deliver(messageType, Whole(s, pieces, last))];
    assert Pongs(pieces) + delivery == pong + (Pongs(pieces[1..]) + delivery);
    var t := Receive(host, s, FrameOf(pieces[0], opcode, false));
    if t.Closed? {
      DoneEarly(host, t, s.log, pong, Pongs(pieces[1..]) + delivery);
    }
  }

  lemma MessageReceived(host: Host, log: seq<Event>, m: Message)
    requires Legal(m)
    ensures Done(host, ReceiveAll(host, Open(Start, INVALID, [], log), FramesOf(m.opcode, m.pieces, m.last)),
                 log, Expected(m))
  {
    assert Whole(Open(Start, INVALID, [], log), m.pieces, m.last) == Text(m);
    PiecesReceived(host, Open(Start, INVALID, [], log), m.opcode, m.opcode, m.pieces, m.last);
  }

  lemma {:induction false} ReceiveAllConcat(host: Host, s: Session, a: seq<Frame>, b: seq<Frame>)
    ensures ReceiveAll(host, s, a + b) == ReceiveAll(host, ReceiveAll(host, s, a), b)
    decreases a
  {
    if a == [] || s.Closed? {
      assert s.Open? ==> a + b == b;
    } else {
      assert (a + b)[1..] == a[1..] + b;
      ReceiveAllConcat(host, Receive(host, s, a[0]), a[1..], b);
    }
  }

  lemma {:induction false} MessagesReceived(host: Host, log: seq<Event>, ms: seq<Message>)
    requires forall i | 0 <= i < |ms| :: Legal(ms[i])
    ensures Done(host, ReceiveAll(host, Open(Start, INVALID, [], log), FramesOfAll(ms)), log, ExpectedAll(ms))
    decreases ms
  {
    hide Receive, FramesOf, Expected;
    if ms == [] {
      assert log + [] == log;
    } else {
      var s, m := Open(Start, INVALID, [], log), ms[0];
      var frames := FramesOf(m.opcode, m.pieces, m.last);
      var t := ReceiveAll(host, s, frames);
      ReceiveAllConcat(host, s, frames, FramesOfAll(ms[1..]));
      MessageReceived(host, log, m);
      if t.Open? {
        MessagesReceived(host, log + Expected(m), ms[1..]);
        DoneLater(host, ReceiveAll(host, t, FramesOfAll(ms[1..])), log, Expected(m), ExpectedAll(ms[1..]));
      } else {
        DoneEarly(host, t, log, Expected(m), ExpectedAll(ms[1..]));
      }
    }
  }

  /* ----- The message in progress ----- */

  // Whether the last data frame among these is not final.
  predicate EndsInMessage(frames: seq<Frame>) {
    frames != [] &&
    var n := |frames| - 1;
    if frames[n].opcode >= CLOSE then EndsInMessage(frames[..n]) else !frames[n].fin
  }

  // The data frames since the last final one.
  function Unfinished(frames: seq<Frame>): seq<Frame> {
    if frames == [] then []
    else
      var n := |frames| - 1;
      if frames[n].opcode >= CLOSE then Unfinished(frames[..n])
      else if frames[n].fin then []
      else Unfinished(frames[..n]) + [frames[n]]
  }

  function Payloads(frames: seq<Frame>): seq<byte> {
    if frames == [] then [] else Payloads(frames[..|frames| - 1]) + frames[|frames| - 1].payload
  }

  // After any frames that leave the connection open, a message is in progress
  // if and only if the last data frame was not final; it then has the type of
  // its first fragment, and the payloads of all of them so far.
  lemma {:induction false} MessageInProgress(host: Host, frames: seq<Frame>)
    requires ReceiveAll(host, INITIAL, frames).Open?
    ensures var s, fragments := ReceiveAll(host, INITIAL, frames), Unfinished(frames);
      && s.phase.Start?
      && (s.messageType != INVALID <==> EndsInMessage(frames))
      && (EndsInMessage(frames) <==> fragments != [])
      && s.messageType == (if fragments == [] then INVALID else fragments[0].opcode)
      && (forall i | 0 < i < |fragments| :: fragments[i].opcode == CONTINUATION)
      && s.message == Payloads(fragments)
    decreases |frames|
  {
    if frames != [] {
      var n := |frames| - 1;
      var front, last := frames[..n], frames[n];
      assert frames == front + [last];
      ReceiveAllConcat(host, INITIAL, front, [last]);
      var s := ReceiveAll(host, INITIAL, front);
      assert s.Open? ==> [last][1..] == [];
      MessageInProgress(host, front);
      var fragments := Unfinished(front);
      assert (fragments + [last])[..|fragments|] == fragments;
      assert [] + last.payload == last.payload;
    }
  }

  /* ----- From frames to the bytes on the wire ----- */

  predicate AllWritable(frames: seq<Frame>) {
    forall i | 0 <= i < |frames| :: Writable(frames[i])
  }

  function EncodeAll(frames: seq<Frame>): seq<byte>
    requires AllWritable(frames)
  {
    if frames == [] then [] else Encode(frames[0]) + EncodeAll(frames[1..])
  }

  lemma StartsAgain(host: Host, s: Session, f: Frame)
    requires s.Open? && s.phase.Start?
    ensures Receive(host, s, f).Open? ==> Receive(host, s, f).phase.Start?
  {
  }

  lemma {:induction false} FramesReceived(host: Host, s: Session, frames: seq<Frame>)
    requires AllWritable(frames) && (s.Open? ==> s.phase.Start?)
    ensures Fold(host, s, EncodeAll(frames)) == ReceiveAll(host, s, frames)
    decreases frames
  {
    if s.Closed? {
      ClosedStaysClosed(host, s, EncodeAll(frames));
    } else if frames != [] {
      FoldConcat(host, s, Encode(frames[0]), EncodeAll(frames[1..]));
      FrameReceived(host, s, frames[0]);
      StartsAgain(host, s, frames[0]);
      FramesReceived(host, Receive(host, s, frames[0]), frames[1..]);
    }
  }

  lemma {:induction false} PiecesWritable(opcode: nat, pieces: seq<Piece>, last: Piece)
    requires opcode < 16 && last.Fragment? && LegalPiece(last)
    requires forall i | 0 <= i < |pieces| :: LegalPiece(pieces[i])
    ensures AllWritable(FramesOf(opcode, pieces, last))
    decreases pieces
  {
    if pieces != [] {
      PiecesWritable(if pieces[0].Fragment? then CONTINUATION else opcode, pieces[1..], last);
    }
  }

  lemma {:induction false} MessagesWritable(ms: seq<Message>)
    requires forall i | 0 <= i < |ms| :: Legal(ms[i])
    ensures AllWritable(FramesOfAll(ms))
  {
    if ms != [] {
      PiecesWritable(ms[0].opcode, ms[0].pieces, ms[0].last);
      MessagesWritable(ms[1..]);
    }
  }

  ghost function EncodeSession(ms: seq<Message>): seq<byte>
    requires forall i | 0 <= i < |ms| :: Legal(ms[i])
  {
    MessagesWritable(ms);
    EncodeAll(FramesOfAll(ms))
  }

  // Any messages, fragmented anyhow, masked with any keys, with any legal
  // length forms and any pings and pongs in between, cut into chunks anyhow:
  // they are delivered whole and in order, and each ping is answered in kind.
  lemma {:induction false} SessionRoundTrip(host: Host, ms: seq<Message>, chunks: seq<seq<byte>>)
    requires forall i | 0 <= i < |ms| :: Legal(ms[i])
    requires Concat(chunks) == EncodeSession(ms)
    ensures Done(host, FoldChunks(host, INITIAL, chunks), [], ExpectedAll(ms))
  {
    MessagesWritable(ms);
    ChunkIndependence(host, INITIAL, chunks);
    FramesReceived(host, INITIAL, FramesOfAll(ms));
    MessagesReceived(host, [], ms);
  }
}
