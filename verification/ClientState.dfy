// What the fields of a client mean, on values: the state read from the heap,
// the invariant every operation keeps, and the protocol state it stands for.
module ClientState {
  import opened Bytes
  import opened Protocol

  const NO_FRAME := -1
  const CONTROL_FRAME := 0
  const DATA_FRAME := 1
  const MAX_FRAME_HEADER_SIZE := 9
  const MAX_PAYLOAD_VALUE := 127

  // content is buffer[..filled_size]
  datatype FrameView = FrameView(
    isFirst: bool, isFinal: bool, opcode: int, payloadSize: nat, bufferSize: nat, offset: nat, content: seq<byte>)

  datatype View = View(
    headerSize: nat, header: seq<byte>, mask: seq<byte>, frameType: int,
    control: FrameView, data: FrameView, log: seq<Event>)

  // The length field is complete: current_header holds all of it.
  predicate LengthKnown(v: View) {
    && |v.header| == MAX_FRAME_HEADER_SIZE
    && v.headerSize > 0
    && (v.frameType == DATA_FRAME ==>
          && (v.header[0] == 126 ==> v.headerSize == 3)
          && (v.header[0] == 127 ==> v.headerSize == 9))
  }

  predicate ControlOk(v: View) {
    && v.control.offset == 0
    && v.control.bufferSize == CONTROL_FRAME_BUFFER_SIZE
    && |v.control.content| <= v.control.payloadSize <= CONTROL_FRAME_BUFFER_SIZE
    && (if v.frameType == CONTROL_FRAME then CLOSE <= v.control.opcode <= PONG
        else v.control.opcode == INVALID && v.control.payloadSize == 0)
    && (|v.mask| < 4 ==> v.control.content == [])
  }

  // Between frames the unused part of the buffer is smaller than BUFFER_SIZE;
  // within a frame so is what will be left over when it is complete.
  predicate DataOk(d: FrameView) {
    && (d.opcode == INVALID || d.opcode == TEXT || d.opcode == BINARY)
    && d.isFirst == (d.opcode != INVALID)
    && (d.opcode == INVALID ==> d.content == [])
    && d.offset <= |d.content| <= d.bufferSize <= MAX_PAYLOAD_SIZE
    && (d.bufferSize == 0 <==> d.content == [])
    && |d.content| <= d.offset + d.payloadSize
    && d.payloadSize <= MAX_PAYLOAD_SIZE
    && (if |d.content| == d.offset then d.bufferSize < d.offset + BUFFER_SIZE
        else d.offset + d.payloadSize <= d.bufferSize < d.offset + d.payloadSize + BUFFER_SIZE)
  }

  predicate HeaderOk(v: View) {
    && |v.header| == MAX_FRAME_HEADER_SIZE
    && |v.mask| <= 4
    && NO_FRAME <= v.frameType <= DATA_FRAME
    && (v.frameType == NO_FRAME ==> v.headerSize == 0)
    && (v.frameType != DATA_FRAME ==> v.data.payloadSize == 0)
    && (v.frameType == DATA_FRAME ==> v.data.opcode != INVALID)
    && (v.headerSize == 0 ==> v.control.payloadSize == 0)
    && (!LengthKnown(v) ==> v.mask == [] && v.data.payloadSize == 0)
    && (v.headerSize > 0 ==> LengthFieldOk(v))
    && (|v.mask| < 4 ==> |v.data.content| == v.data.offset)
  }

  predicate LengthFieldOk(v: View)
    requires |v.header| == MAX_FRAME_HEADER_SIZE && v.headerSize > 0
  {
    var n := v.header[0];
    if n <= 125 then
      v.headerSize == 1 && n == (if v.frameType == CONTROL_FRAME then v.control.payloadSize else v.data.payloadSize)
    else
      && v.frameType == DATA_FRAME
      && n <= 127
      && v.headerSize <= (if n == 126 then 3 else 9)
      && (LengthKnown(v) ==> v.data.payloadSize == BigEndian(v.header[1..v.headerSize]))
  }

  predicate Ok(v: View) {
    ControlOk(v) && DataOk(v.data) && HeaderOk(v)
  }

  /* ----- The protocol state a client stands for ----- */

  function KindOf(v: View): Kind {
    if v.frameType == CONTROL_FRAME then Control(v.control.opcode) else Data(v.data.isFinal)
  }

  function SizeOf(v: View): nat {
    if v.frameType == CONTROL_FRAME then v.control.payloadSize else v.data.payloadSize
  }

  // The still masked bytes of the current frame's payload.
  function Pending(v: View): seq<byte>
    requires v.data.offset <= |v.data.content|
  {
    if v.frameType == CONTROL_FRAME then v.control.content else v.data.content[v.data.offset..]
  }

  function PhaseOf(v: View): Phase
    requires Ok(v)
  {
    if v.frameType == NO_FRAME then Start
    else if v.headerSize == 0 then Length(KindOf(v))
    else if !LengthKnown(v) then
      Extended(KindOf(v), if v.header[0] == 126 then 2 else 8, v.header[1..v.headerSize])
    else if |v.mask| < 4 then Key(KindOf(v), SizeOf(v), v.mask)
    else Payload(KindOf(v), SizeOf(v), v.mask, Unmask(v.mask, Pending(v)))
  }

  function SessionOf(v: View): (s: Session)
    ensures Ok(v) ==> s.Open?
    ensures s.log == v.log
  {
    if Ok(v) then Open(PhaseOf(v), v.data.opcode, v.data.content[..v.data.offset], v.log)
    else Closed(v.log)
  }

  /* ----- Taking the first byte ----- */

  // The state after an accepted first byte.
  function WithFirstByte(v: View, b: byte): View {
    var fin, opcode := b >= 128, b % 16;
    if opcode > THRESHOLD then
      v.(frameType := CONTROL_FRAME, control := v.control.(isFirst := true, isFinal := fin, opcode := opcode))
    else
      v.(frameType := DATA_FRAME,
         data := v.data.(isFirst := true, isFinal := fin,
                         opcode := if v.data.opcode == INVALID then opcode else v.data.opcode))
  }

  predicate FirstByteRefused(v: View, b: byte) {
    var rsv, opcode := b / 16 % 8, b % 16;
    || rsv != 0 || BINARY < opcode < CLOSE || opcode > PONG
    || (opcode <= THRESHOLD && ((opcode == CONTINUATION) == (v.data.opcode == INVALID)))
  }

  lemma FirstByteTaken(host: Host, v: View, b: byte)
    requires Ok(v) && v.frameType == NO_FRAME
    ensures FirstByteRefused(v, b) ==> Step(host, SessionOf(v), b) == Fail(SessionOf(v), PROTOCOL_ERROR)
    ensures !FirstByteRefused(v, b) && b % 16 > THRESHOLD && b < 128 ==> Step(host, SessionOf(v), b) == Closed(v.log)
    ensures !FirstByteRefused(v, b) && (b % 16 <= THRESHOLD || b >= 128) ==>
      Ok(WithFirstByte(v, b)) && SessionOf(WithFirstByte(v, b)) == Step(host, SessionOf(v), b)
    ensures v.control.opcode == INVALID && (v.data.isFirst <==> v.data.opcode != INVALID)
  {
  }

  /* ----- Taking length bytes ----- */

  // The state after the length byte is stored; only the short form is
  // complete with it.
  function WithLengthByte(v: View, n: byte): View
    requires |v.header| == MAX_FRAME_HEADER_SIZE
  {
    var w := v.(headerSize := 1, header := v.header[0 := n]);
    if n > 125 then w
    else if v.frameType == CONTROL_FRAME then w.(control := v.control.(payloadSize := n))
    else w.(data := v.data.(payloadSize := n))
  }

  lemma LengthByteTaken(host: Host, v: View, b: byte)
    requires Ok(v) && v.frameType != NO_FRAME && v.headerSize == 0
    ensures b < 128 ==> Step(host, SessionOf(v), b) == Fail(SessionOf(v), INVALID_TYPE)
    ensures b >= 128 && v.frameType == CONTROL_FRAME && b % 128 > 125 ==>
      Step(host, SessionOf(v), b) == Fail(SessionOf(v), PROTOCOL_ERROR)
    ensures var w := WithLengthByte(v, b % 128);
      b >= 128 && (v.frameType == CONTROL_FRAME ==> b % 128 <= 125) ==>
      && Ok(w) && SessionOf(w) == Step(host, SessionOf(v), b)
      && (if b % 128 > 125 then v.frameType == DATA_FRAME else LengthKnown(w))
  {
  }

  // w is v with more length digits; the size is set once they are all there.
  predicate DigitsTaken(v: View, w: View, bytes: seq<byte>) {
    && |v.header| == |w.header| == MAX_FRAME_HEADER_SIZE
    && 0 < v.headerSize && v.headerSize + |bytes| == w.headerSize <= (if v.header[0] == 126 then 3 else 9)
    && w.header[..w.headerSize] == v.header[..v.headerSize] + bytes
    && w == v.(headerSize := w.headerSize, header := w.header, data := v.data.(payloadSize := w.data.payloadSize))
    && w.data.payloadSize == if LengthKnown(w) then BigEndian(w.header[1..w.headerSize]) else 0
  }

  lemma NoDigitsTaken(v: View, w: View)
    requires Ok(v) && v.frameType == DATA_FRAME && v.header[0] >= 126 && DigitsTaken(v, w, [])
    ensures Ok(w) && SessionOf(w) == SessionOf(v)
  {
    var n := v.headerSize;
    assert w.header[..n] == v.header[..n];
    assert w.header[0] == w.header[..n][0] == v.header[0];
    assert w.header[1..n] == w.header[..n][1..] == v.header[..n][1..] == v.header[1..n];
  }

  lemma SomeDigitsTaken(v: View, w: View, bytes: seq<byte>)
    requires Ok(v) && v.frameType == DATA_FRAME && v.header[0] >= 126
    requires DigitsTaken(v, w, bytes) && bytes != []
    ensures !LengthKnown(v) && w.header[0] == v.header[0]
    ensures w.header[1..w.headerSize] == v.header[1..v.headerSize] + bytes
    ensures w.data.payloadSize <= MAX_PAYLOAD_SIZE ==> Ok(w)
  {
    assert w.header[0] == w.header[..w.headerSize][0] == v.header[0];
    assert w.header[1..w.headerSize] == w.header[..w.headerSize][1..];
  }

  lemma DigitsTakenSession(host: Host, v: View, w: View, bytes: seq<byte>)
    requires Ok(v) && v.frameType == DATA_FRAME && v.header[0] >= 126
    requires DigitsTaken(v, w, bytes)
    ensures if w.data.payloadSize > MAX_PAYLOAD_SIZE then
      Fold(host, SessionOf(v), bytes) == Fail(SessionOf(v), TOO_LARGE)
      else Ok(w) && Fold(host, SessionOf(v), bytes) == SessionOf(w)
  {
    if bytes == [] {
      NoDigitsTaken(v, w);
    } else {
      SomeDigitsTaken(v, w, bytes);
      var width := if v.header[0] == 126 then 2 else 8;
      ExtendedRun(host, SessionOf(v), KindOf(v), width, v.header[1..v.headerSize], bytes);
    }
  }

  /* ----- Re-entry and the masking key ----- */

  // The test that decides whether the length is still to be read also fires
  // for a complete 126 or 127 form whose value looks short; it never fires
  // for the short form and never misses an incomplete length.
  lemma ReentryTest(v: View)
    requires Ok(v) && v.headerSize > 0
    ensures !LengthKnown(v) ==> SizeOf(v) <= MAX_PAYLOAD_VALUE && v.header[0] != SizeOf(v)
    ensures v.header[0] != SizeOf(v) ==> v.header[0] >= 126 || SizeOf(v) > MAX_PAYLOAD_VALUE
    ensures v.header[0] >= 126 ==> v.frameType == DATA_FRAME
  {
  }

  lemma MaskByteTaken(host: Host, v: View, w: View, b: byte)
    requires Ok(v) && LengthKnown(v) && |v.mask| < 4
    requires w == v.(mask := v.mask + [b])
    ensures Ok(w) && LengthKnown(w) && Settle(host, SessionOf(w)) == Step(host, SessionOf(v), b)
    ensures |w.mask| < 4 ==> Settle(host, SessionOf(w)) == SessionOf(w)
  {
  }

  lemma HeaderBeforeKey(v: View)
    requires Ok(v) && v.mask != []
    ensures LengthKnown(v) && v.frameType in {CONTROL_FRAME, DATA_FRAME}
  {
  }

  lemma SettledBeforeKey(host: Host, v: View)
    requires Ok(v) && |v.mask| < 4
    ensures Settle(host, SessionOf(v)) == SessionOf(v)
    ensures |v.data.content| == v.data.offset && v.control.content == []
  {
  }

  /* ----- Taking payload bytes ----- */

  // A frame whose payload is complete has been acted upon.
  predicate Waiting(v: View) {
    |v.mask| == 4 ==> v.data.offset <= |v.data.content| && |Pending(v)| < SizeOf(v)
  }

  lemma WaitingIsSettled(host: Host, v: View)
    requires Ok(v) && Waiting(v)
    ensures Settle(host, SessionOf(v)) == SessionOf(v)
    ensures |v.mask| == 4 ==> SizeOf(v) > 0
  {
  }

  lemma InitialIsWaiting(v: View)
    requires Ok(v) && SessionOf(v) == INITIAL
    ensures Waiting(v)
  {
  }

  lemma WaitingForFirst(v: View)
    requires |v.data.content| == v.data.offset && v.control.content == []
    ensures Waiting(v) <==> (|v.mask| == 4 ==> SizeOf(v) > 0)
  {
  }

  function PayloadPhase(v: View, raw: seq<byte>): Phase
    requires |v.mask| == 4
  {
    Payload(KindOf(v), SizeOf(v), v.mask, Unmask(v.mask, raw))
  }

  // more has been received, of which nothing lies beyond the current frame.
  lemma PayloadTaken(host: Host, v: View, more: seq<byte>)
    requires Ok(v) && |v.mask| == 4 && |Pending(v)| + |more| <= SizeOf(v)
    requires more == [] ==> SizeOf(v) == 0
    requires v.frameType == DATA_FRAME && Pending(v) == [] && more != [] ==>
               v.data.offset + v.data.payloadSize <= MAX_PAYLOAD_SIZE
    ensures Fold(host, Settle(host, SessionOf(v)), more)
         == Settle(host, SessionOf(v).(phase := PayloadPhase(v, Pending(v) + more)))
  {
    if more == [] {
      assert Pending(v) + more == Pending(v);
    } else {
      PayloadRun(host, SessionOf(v), KindOf(v), SizeOf(v), v.mask, Pending(v), more);
    }
  }

  lemma ControlPayloadComplete(host: Host, v: View, more: seq<byte>)
    requires Ok(v) && v.frameType == CONTROL_FRAME && |v.mask| == 4
    requires |v.control.content| + |more| == v.control.payloadSize && (more == [] ==> v.control.payloadSize == 0)
    ensures Fold(host, Settle(host, SessionOf(v)), more)
         == CompleteControl(host, SessionOf(v), v.control.opcode, Unmask(v.mask, v.control.content + more))
  {
    PayloadTaken(host, v, more);
  }

  lemma ControlPayloadStored(host: Host, v: View, w: View, more: seq<byte>)
    requires Ok(v) && v.frameType == CONTROL_FRAME && |v.mask| == 4 && more != []
    requires |v.control.content| + |more| <= v.control.payloadSize
    requires w == v.(control := v.control.(content := v.control.content + more))
    ensures Ok(w)
    ensures |w.control.content| < w.control.payloadSize ==>
      Waiting(w) && Fold(host, Settle(host, SessionOf(v)), more) == SessionOf(w)
    ensures |w.control.content| == w.control.payloadSize ==>
      Fold(host, Settle(host, SessionOf(v)), more)
      == CompleteControl(host, SessionOf(w), w.control.opcode, Unmask(w.mask, w.control.content))
  {
    PayloadTaken(host, v, more);
  }

  // A client between frames, after a control frame.
  function ControlReset(v: View): View {
    v.(headerSize := 0, mask := [], frameType := NO_FRAME,
       control := v.control.(isFirst := false, isFinal := false, opcode := INVALID, payloadSize := 0, content := []))
  }

  lemma ControlResetOk(v: View, log: seq<Event>)
    requires Ok(v) && v.frameType == CONTROL_FRAME
    ensures Ok(ControlReset(v).(log := log))
    ensures var s := SessionOf(v); SessionOf(ControlReset(v).(log := log)) == s.(phase := Start, log := log)
  {
  }

  /* ----- Data frames ----- */

  // bufferSize has room for the whole of the current frame and little more.
  predicate Reserved(d: FrameView, bufferSize: nat) {
    && d.offset + d.payloadSize <= bufferSize <= MAX_PAYLOAD_SIZE
    && bufferSize < d.offset + d.payloadSize + BUFFER_SIZE
  }

  // The state once more is in the buffer, whose size may have changed for it.
  function Buffered(v: View, bufferSize: nat, more: seq<byte>): View {
    v.(data := v.data.(content := v.data.content + more, bufferSize := bufferSize))
  }

  lemma BufferedTwice(v: View, bufferSize: nat, more: seq<byte>)
    ensures Buffered(Buffered(v, bufferSize, []), bufferSize, more) == Buffered(v, bufferSize, more)
  {
    assert v.data.content + [] == v.data.content;
  }

  lemma BufferFacts(v: View)
    requires Ok(v)
    ensures v.data.offset <= |v.data.content| <= v.data.offset + v.data.payloadSize
    ensures v.data.offset < |v.data.content| ==> Reserved(v.data, v.data.bufferSize)
    ensures v.data.bufferSize <= MAX_PAYLOAD_SIZE
    ensures Buffered(v, v.data.bufferSize, []) == v
  {
    assert v.data.content + [] == v.data.content;
  }

  // w is where s0 gets to with taken, if the frame completed by it, if any,
  // has not been acted upon yet.
  ghost predicate Received(host: Host, s0: Session, w: View, taken: seq<byte>) {
    && Ok(w) && w.frameType == DATA_FRAME && |w.mask| == 4
    && Fold(host, s0, taken)
       == if Waiting(w) then SessionOf(w)
          else CompleteData(host, SessionOf(w), w.data.isFinal, Unmask(w.mask, Pending(w)))
  }

  lemma BufferedSession(v: View, bufferSize: nat, more: seq<byte>)
    requires Ok(v) && v.frameType == DATA_FRAME && |v.mask| == 4
    requires |v.data.content| + |more| <= v.data.offset + v.data.payloadSize
    requires if more == [] then v.data.payloadSize == 0 && bufferSize == v.data.bufferSize
             else Reserved(v.data, bufferSize)
    ensures var w := Buffered(v, bufferSize, more);
      && Ok(w) && Pending(w) == Pending(v) + more
      && SessionOf(w) == SessionOf(v).(phase := PayloadPhase(v, Pending(v) + more))
  {
    var w := Buffered(v, bufferSize, more);
    assert Pending(w) == Pending(v) + more;
    assert w.data.content[..w.data.offset] == v.data.content[..v.data.offset];
  }

  lemma DataPayloadStored(host: Host, v: View, bufferSize: nat, more: seq<byte>)
    requires Ok(v) && v.frameType == DATA_FRAME && |v.mask| == 4
    requires |v.data.content| + |more| <= v.data.offset + v.data.payloadSize
    requires if more == [] then v.data.payloadSize == 0 && bufferSize == v.data.bufferSize
             else Reserved(v.data, bufferSize)
    ensures Received(host, Settle(host, SessionOf(v)), Buffered(v, bufferSize, more), more)
  {
    BufferedSession(v, bufferSize, more);
    assert more != [] ==> v.data.offset + v.data.payloadSize <= MAX_PAYLOAD_SIZE;
    PayloadTaken(host, v, more);
    hide Ok, SessionOf, Fold, CompleteData, CompleteControl;
  }

  lemma DataPayloadInPlace(host: Host, v: View, raw: seq<byte>)
    requires Ok(v) && v.frameType == DATA_FRAME && |v.mask| == 4
    requires v.data.content == [] && |raw| == v.data.payloadSize
    ensures Fold(host, Settle(host, SessionOf(v)), raw)
         == CompleteData(host, SessionOf(v), v.data.isFinal, Unmask(v.mask, raw))
  {
    assert Pending(v) + raw == raw;
    PayloadTaken(host, v, raw);
  }

  lemma DataPayloadRefused(host: Host, v: View, more: seq<byte>)
    requires Ok(v) && v.frameType == DATA_FRAME && |v.mask| == 4 && Waiting(v) && more != []
    requires v.data.offset + v.data.payloadSize > MAX_PAYLOAD_SIZE
    ensures Fold(host, Settle(host, SessionOf(v)), more) == Fail(SessionOf(v), TOO_LARGE)
  {
    WaitingIsSettled(host, v);
    PayloadRefused(host, SessionOf(v), more);
  }

  // Receiving straight into the message buffer is safe: the test on the unused
  // part alone implies that space for the frame is reserved, that the window
  // up to the end of the frame is not empty, and that it lies in the buffer.
  lemma DirectReadSafe(v: View)
    requires Ok(v) && Waiting(v) && v.frameType == DATA_FRAME && |v.mask| == 4
    requires v.data.bufferSize - |v.data.content| > BUFFER_SIZE
    ensures var window := v.data.payloadSize - (|v.data.content| - v.data.offset);
      && v.data.offset < |v.data.content|
      && 0 < window && |v.data.content| + window <= v.data.bufferSize
  {
  }

  // The state after a fragment that is not the last of its message.
  function FragmentReset(v: View): View {
    v.(headerSize := 0, mask := [], frameType := NO_FRAME,
       data := v.data.(payloadSize := 0, offset := |v.data.content|))
  }

  // The pending bytes of the current frame replaced by their unmasked form.
  function WithPlain(v: View, plain: seq<byte>): View
    requires v.data.offset <= |v.data.content|
  {
    v.(data := v.data.(content := v.data.content[..v.data.offset] + plain))
  }

  lemma FragmentComplete(host: Host, v: View, plain: seq<byte>)
    requires Ok(v) && v.frameType == DATA_FRAME && |Pending(v)| == v.data.payloadSize == |plain|
    ensures var w := FragmentReset(WithPlain(v, plain));
      Ok(w) && SessionOf(w) == CompleteData(host, SessionOf(v), false, plain)
  {
    var w := FragmentReset(WithPlain(v, plain));
    assert w.data.content[..w.data.offset] == v.data.content[..v.data.offset] + plain;
  }

  // The state after a message.
  function MessageReset(v: View): View {
    v.(headerSize := 0, mask := [], frameType := NO_FRAME,
       data := v.data.(isFirst := false, isFinal := false, opcode := INVALID, payloadSize := 0,
                       bufferSize := 0, offset := 0, content := []))
  }

  lemma MessageComplete(v: View)
    requires Ok(v) && v.frameType == DATA_FRAME
    ensures forall log :: Ok(MessageReset(v).(log := log))
    ensures forall log :: SessionOf(MessageReset(v).(log := log)) == Open(Start, INVALID, [], log)
  {
  }

  lemma BufferedMessageComplete(v: View, plain: seq<byte>, log: seq<Event>)
    requires Ok(v) && v.frameType == DATA_FRAME && |Pending(v)| == |plain|
    ensures Ok(MessageReset(WithPlain(v, plain)).(log := log))
    ensures SessionOf(MessageReset(WithPlain(v, plain)).(log := log)) == Open(Start, INVALID, [], log)
  {
  }
}