// What each kind of frame leads to, in the bytes of the wire, and why a
// connection ends.
module Endings {
  import opened Bytes
  import opened Protocol
  import Sessions
  import Utf8

  /* ----- Control frames ----- */

  // The reply to a close frame, by the code it carries.
  lemma CloseReplyIs(payload: seq<byte>)
    ensures payload == [] ==> CloseReplyFor(payload) == [3, 232]
    ensures |payload| == 1 ==> CloseReplyFor(payload) == [3, 234]
    ensures |payload| >= 2 ==>
      var code, reason := 256 * (payload[0] as int) + payload[1], payload[2..];
      CloseReplyFor(payload)
      == if code !in {1000, 1001, 1002, 1003, 1007, 1008, 1009, 1010, 1011} then []
         else if !Utf8.WellFormed(reason) then [3, 239]
         else if code == 1001 then [3, 232] + reason
         else payload
  {
    if |payload| >= 2 {
      BigEndianValues(payload[..2]);
      hide BigEndian, Utf8.WellFormed;
      assert payload[..2] + payload[2..] == payload;
    }
  }

  // The bytes of a final, masked control frame.
  function ControlFrame(opcode: byte, key: Mask, payload: seq<byte>): seq<byte>
    requires opcode < 16 && |payload| <= CONTROL_FRAME_BUFFER_SIZE
  {
    [128 + opcode, 128 + |payload|] + key + Unmask(key, payload)
  }

  lemma ControlReceived(host: Host, s: Session, opcode: byte, key: Mask, payload: seq<byte>)
    requires s.Open? && s.phase.Start? && CLOSE <= opcode <= PONG && |payload| <= CONTROL_FRAME_BUFFER_SIZE
    ensures Fold(host, s, ControlFrame(opcode, key, payload)) == CompleteControl(host, s, opcode, payload)
  {
    var f := Sessions.Frame(true, opcode, Sessions.Short, key, payload);
    assert Sessions.LengthOf(f) == [128 + |payload|];
    assert Sessions.Encode(f) == ControlFrame(opcode, key, payload);
    Sessions.FrameReceived(host, s, f);
  }

  // A close frame is answered once, and that is the end.
  lemma CloseAnswered(host: Host, s: Session, key: Mask, payload: seq<byte>)
    requires s.Open? && s.phase.Start? && |payload| <= 125
    ensures var r := Fold(host, s, ControlFrame(8, key, payload));
      && r.Closed? && |r.log| == |s.log| + 1 && s.log <= r.log && r.log[|s.log|].CloseReply?
      && var reply := r.log[|s.log|].payload;
         if payload == [] then reply == [3, 232]
         else if |payload| == 1 then reply == [3, 234]
         else
           var code, reason := 256 * (payload[0] as int) + payload[1], payload[2..];
           if code !in {1000, 1001, 1002, 1003, 1007, 1008, 1009, 1010, 1011} then reply == []
           else if !Utf8.WellFormed(reason) then reply == [3, 239]
           else if code == 1001 then reply == [3, 232] + reason
           else reply == payload
  {
    ControlReceived(host, s, 8, key, payload);
    CloseReplyIs(payload);
    hide CloseReplyFor, Fold, Utf8.WellFormed;
  }

  // A ping is answered with its payload, and ends the connection if and only
  // if that cannot be sent; a pong changes nothing.
  lemma PingAnswered(host: Host, s: Session, key: Mask, payload: seq<byte>)
    requires s.Open? && s.phase.Start? && |payload| <= 125
    ensures var log := s.log + [Pong(payload)];
      Fold(host, s, ControlFrame(9, key, payload)) == if host.pongLost(log) then Closed(log) else s.(log := log)
    ensures Fold(host, s, ControlFrame(10, key, payload)) == s
  {
    ControlReceived(host, s, 9, key, payload);
    ControlReceived(host, s, 10, key, payload);
  }

  /* ----- Data frames ----- */

  // The three forms of the length, and the refusal on the last byte of it.
  lemma LengthForms(host: Host, s: Session, fin: bool, n: byte, digits: seq<byte>)
    requires s.Open? && s.phase == Length(Data(fin))
    ensures n <= 125 ==> Fold(host, s, [128 + n]) == s.(phase := Key(Data(fin), n, []))
    ensures |digits| == 2 ==>
      Fold(host, s, [254] + digits) == s.(phase := Key(Data(fin), 256 * (digits[0] as int) + digits[1], []))
    ensures |digits| == 8 ==>
      var size := BigEndian(digits);
      Fold(host, s, [255] + digits)
      == if size > 104_857_600 then Closed(s.log + [CloseReply([3, 241])]) else s.(phase := Key(Data(fin), size, []))
    ensures |digits| == 8 ==> Fold(host, s, [255] + digits[..7]).Open?
  {
    if n <= 125 {
      assert [128 + n][1..] == [];
    }
    if |digits| == 2 {
      DigitsRead(host, s, fin, 2, digits);
      BigEndianValues(digits);
    } else if |digits| == 8 {
      DigitsRead(host, s, fin, 8, digits);
      DigitsRead(host, s, fin, 8, digits[..7]);
    }
  }

  lemma DigitsRead(host: Host, s: Session, fin: bool, width: nat, digits: seq<byte>)
    requires s.Open? && s.phase == Length(Data(fin)) && width in {2, 8} && 0 < |digits| <= width
    ensures Fold(host, s, [if width == 2 then 254 else 255] + digits) == ExtendedByte(s, Data(fin), width, digits)
  {
    var first: byte := if width == 2 then 254 else 255;
    var t := s.(phase := Extended(Data(fin), width, []));
    assert ([first] + digits)[1..] == digits && Step(host, s, first) == t;
    ExtendedRun(host, t, Data(fin), width, [], digits);
    assert [] + digits == digits;
  }

  // A final data frame that is in order and within the limit: ill-formed text
  // is refused with 1007, and everything else is delivered; after that the
  // connection ends if and only if the handler asks for it.
  lemma MessageEnds(host: Host, s: Session, f: Sessions.Frame)
    requires Sessions.Writable(f) && s.Open? && s.phase.Start? && f.fin
    requires f.opcode in {0, 1, 2} && (f.opcode == 0 <==> s.messageType != -1)
    requires |s.message| + |f.payload| <= 104_857_600
    ensures var opcode, message := if f.opcode == 0 then s.messageType else f.opcode, s.message + f.payload;
      var delivered := s.log + [Deliver(opcode, message)];
      Fold(host, s, Sessions.Encode(f))
      == if opcode == 1 && !Utf8.WellFormed(message) then Closed(s.log + [CloseReply([3, 239])])
         else if host.wantsClose(delivered) then Closed(delivered)
         else Open(Start, -1, [], delivered)
  {
    Sessions.FrameReceived(host, s, f);
    hide Fold, Sessions.Encode;
  }

  /* ----- The host has the last word ----- */

  // Event i was one after which the host ends the connection.
  ghost predicate Ends(host: Host, log: seq<Event>, i: nat)
    requires i < |log|
  {
    || (log[i].Deliver? && host.wantsClose(log[..i + 1]))
    || (log[i].Pong? && host.pongLost(log[..i + 1]))
  }

  ghost predicate Heeded(host: Host, s: Session) {
    forall i | 0 <= i < |s.log| && Ends(host, s.log, i) :: i == |s.log| - 1 && s.Closed?
  }

  lemma HeededWithEvent(host: Host, s: Session, e: Event, t: Session)
    requires s.Open? && Heeded(host, s) && t.log == s.log + [e]
    requires Ends(host, t.log, |s.log|) ==> t.Closed?
    ensures Heeded(host, t)
  {
    forall i | 0 <= i < |s.log| ensures !Ends(host, t.log, i) {
      assert t.log[i] == s.log[i] && t.log[..i + 1] == s.log[..i + 1];
      assert Ends(host, t.log, i) == Ends(host, s.log, i);
    }
  }

  // One byte adds at most one event, and the host is asked about it.
  lemma StepHeeded(host: Host, s: Session, b: byte)
    requires Heeded(host, s)
    ensures Heeded(host, Step(host, s, b))
  {
    var t := Step(host, s, b);
    hide Utf8.WellFormed, CloseReplyFor;
    if t.log != s.log {
      var e := t.log[|s.log|];
      assert t.log == s.log + [e];
      assert t.log[..|s.log| + 1] == t.log;
      HeededWithEvent(host, s, e, t);
    }
  }

  lemma {:induction false} FoldHeeded(host: Host, s: Session, bytes: seq<byte>)
    requires Heeded(host, s)
    ensures Heeded(host, Fold(host, s, bytes))
    decreases bytes
  {
    hide Step;
    if bytes != [] {
      StepHeeded(host, s, bytes[0]);
      FoldHeeded(host, Step(host, s, bytes[0]), bytes[1..]);
    }
  }

  // In every run, a delivery at which the handler asks to close, or a pong
  // that is lost, is the last event, and the connection is closed.
  lemma HostIsHeeded(host: Host, bytes: seq<byte>)
    ensures var s := Fold(host, INITIAL, bytes);
      forall i | 0 <= i < |s.log| ::
        (s.log[i].Deliver? && host.wantsClose(s.log[..i + 1])) || (s.log[i].Pong? && host.pongLost(s.log[..i + 1])) ==>
        i == |s.log| - 1 && s.Closed?
  {
    var s := Fold(host, INITIAL, bytes);
    assert forall i | 0 <= i < |s.log| :: Ends(host, s.log, i) <==>
      (s.log[i].Deliver? && host.wantsClose(s.log[..i + 1])) || (s.log[i].Pong? && host.pongLost(s.log[..i + 1]));
    FoldHeeded(host, INITIAL, bytes);
  }

  // The connection ends with a byte for one of three reasons: a close frame is
  // sent, the host ends it, or the byte begins a fragmented control frame.
  ghost predicate Reason(host: Host, s: Session, b: byte, log: seq<Event>) {
    || (log == s.log && s.Open? && s.phase.Start? && b in {8, 9, 10})
    || (|log| == |s.log| + 1 && s.log <= log && (log[|s.log|].CloseReply? || Ends(host, log, |s.log|)))
  }

  lemma StepReason(host: Host, s: Session, b: byte)
    requires s.Open?
    ensures var t := Step(host, s, b); t.Closed? ==> Reason(host, s, b, t.log)
  {
    var t := Step(host, s, b);
    hide Utf8.WellFormed, CloseReplyFor;
    if t.Closed? && |t.log| == |s.log| + 1 {
      assert t.log[..|s.log| + 1] == t.log;
    }
  }

  // Every connection that has ended did so at one byte of the stream, for one
  // of these reasons.
  lemma {:induction false} EndedBecause(host: Host, s: Session, bytes: seq<byte>) returns (n: nat)
    requires s.Open? && Fold(host, s, bytes).Closed?
    ensures n < |bytes| && Fold(host, s, bytes[..n]).Open?
    ensures Reason(host, Fold(host, s, bytes[..n]), bytes[n], Fold(host, s, bytes).log)
    decreases bytes
  {
    var t := Step(host, s, bytes[0]);
    StepReason(host, s, bytes[0]);
    hide Step;
    if t.Closed? {
      n := 0;
      ClosedStaysClosed(host, t, bytes[1..]);
      assert bytes[..0] == [];
    } else {
      var m := EndedBecause(host, t, bytes[1..]);
      n := m + 1;
      assert bytes[..n][0] == bytes[0] && bytes[..n][1..] == bytes[1..][..m];
    }
  }

  /* ----- Examples of section 5.7 of RFC 6455 ----- */

  // "Hello", and the key and the masked form given there.
  const HELLO: seq<byte> := [0x48, 0x65, 0x6c, 0x6c, 0x6f]
  const KEY: Mask := [0x37, 0xfa, 0x21, 0x3d]
  const MASKED: seq<byte> := [0x7f, 0x9f, 0x4d, 0x51, 0x58]

  lemma HelloOctets()
    ensures Xor(0x48, 0x37) == 0x7f && Xor(0x65, 0xfa) == 0x9f && Xor(0x6c, 0x21) == 0x4d
    ensures Xor(0x6c, 0x3d) == 0x51 && Xor(0x6f, 0x37) == 0x58
  {
    hide Xor, XorBits, Pow2;
    XorValue(0x48, 0x37);
    XorValue(0x65, 0xfa);
    XorValue(0x6c, 0x21);
    XorValue(0x6c, 0x3d);
    XorValue(0x6f, 0x37);
  }

  lemma HelloMasked()
    ensures Unmask(KEY, HELLO) == MASKED
  {
    HelloOctets();
    hide Xor;
  }

  lemma HelloIsText()
    ensures Utf8.WellFormed(HELLO)
  {
    Utf8.AutomatonCorrect(HELLO);
  }

  // A single-frame masked text message, and a masked ping.
  lemma HelloReceived(host: Host)
    ensures Fold(host, INITIAL, [0x81, 0x85] + KEY + MASKED).log == [Deliver(1, HELLO)]
    ensures Fold(host, INITIAL, [0x89, 0x85] + KEY + MASKED).log == [Pong(HELLO)]
  {
    HelloMasked();
    HelloIsText();
    var f := Sessions.Frame(true, 1, Sessions.Short, KEY, HELLO);
    assert Sessions.LengthOf(f) == [0x85];
    assert Sessions.Encode(f) == [0x81, 0x85] + KEY + MASKED;
    MessageEnds(host, INITIAL, f);
    PingAnswered(host, INITIAL, KEY, HELLO);
    assert [] + HELLO == HELLO;
  }

  // An unmasked one is refused.
  lemma UnmaskedRefused(host: Host)
    ensures Fold(host, INITIAL, [0x81, 0x05] + HELLO) == Closed([CloseReply([3, 235])])
  {
    var bytes := [0x81, 0x05] + HELLO;
    var t := INITIAL.(phase := Length(Data(true)), messageType := TEXT);
    assert Step(host, INITIAL, 0x81) == t;
    assert bytes[1..] == [0x05] + HELLO && bytes[1..][1..] == HELLO;
    assert Step(host, t, 0x05) == Closed([CloseReply([3, 235])]);
    ClosedStaysClosed(host, Closed([CloseReply([3, 235])]), HELLO);
  }
}
