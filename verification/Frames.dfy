// A connected client and the functions that take frames apart (src/frame.c),
// over the real fields and buffers.
module Frames {
  import opened Bytes
  import opened Protocol
  import opened ClientState
  import Utf8

  class Frame {
    var isFirst: bool
    var isFinal: bool
    var opcode: int
    var payloadSize: uint64
    var filledSize: uint64
    var bufferSize: uint64
    var currentFragmentOffset: uint64
    var buffer: array?<byte>

    constructor (size: uint64)
      ensures !isFirst && !isFinal && opcode == INVALID
      ensures payloadSize == filledSize == currentFragmentOffset == 0 && bufferSize == size
      ensures if size == 0 then buffer == null else buffer != null && fresh(buffer) && buffer.Length == size
    {
      isFirst, isFinal, opcode := false, false, INVALID;
      payloadSize, filledSize, bufferSize, currentFragmentOffset := 0, 0, size, 0;
      if size > 0 {
        buffer := new byte[size];
      } else {
        buffer := null;
      }
    }
  }

  // buf still holds input from index k on.
  ghost predicate SameFrom(buf: array<byte>, input: seq<byte>, k: nat)
    reads buf
  {
    buf.Length == |input| && forall i | k <= i < |input| :: buf[i] == input[i]
  }

  lemma SameSlice(buf: array<byte>, input: seq<byte>, a: nat, b: nat)
    requires SameFrom(buf, input, a) && a <= b <= |input|
    ensures buf[a..b] == input[a..b]
  {
  }

  class Client {
    const socketfd: int
    const host: Host

    var headerSize: uint8
    const currentHeader: array<byte>
    var maskSize: uint8
    const mask: array<byte>
    var currentFrameType: int8
    const control: Frame
    const data: Frame

    // Everything handed to the application or submitted for sending so far.
    var log: seq<Event>

    ghost predicate Shape()
      reads this, control, data
    {
      && currentHeader.Length == MAX_FRAME_HEADER_SIZE
      && mask.Length == 4
      && control != data
      && control.buffer != null && control.buffer.Length == control.bufferSize == CONTROL_FRAME_BUFFER_SIZE
      && (if data.buffer == null then data.bufferSize == 0 else
            && data.buffer.Length == data.bufferSize > 0
            && data.buffer !in {currentHeader, mask, control.buffer})
      && control.filledSize <= control.bufferSize
      && data.filledSize <= data.bufferSize
      && headerSize <= MAX_FRAME_HEADER_SIZE
      && maskSize <= 4
    }

    ghost function View(): View
      requires Shape()
      reads this, control, data, currentHeader, mask, control.buffer, data.buffer
    {
      ClientState.View(
        headerSize, currentHeader[..], mask[..maskSize], currentFrameType,
        FrameView(control.isFirst, control.isFinal, control.opcode, control.payloadSize, control.bufferSize,
                  control.currentFragmentOffset, control.buffer[..control.filledSize]),
        FrameView(data.isFirst, data.isFinal, data.opcode, data.payloadSize, data.bufferSize,
                  data.currentFragmentOffset, if data.buffer == null then [] else data.buffer[..data.filledSize]),
        log)
    }

    ghost predicate Valid()
      reads this, control, data, currentHeader, mask, control.buffer, data.buffer
    {
      Shape() && Ok(View())
    }

    // The scalar fields, for proofs in which the view itself stays hidden.
    lemma Fields()
      requires Shape()
      ensures View().headerSize == headerSize && View().frameType == currentFrameType && View().log == log
      ensures View().header == currentHeader[..] && |View().mask| == maskSize
      ensures |View().control.content| == control.filledSize
      ensures SizeOf(View()) == if currentFrameType == CONTROL_FRAME then control.payloadSize else data.payloadSize
      ensures var d := View().data;
        && d.payloadSize == data.payloadSize && d.offset == data.currentFragmentOffset
        && |d.content| == data.filledSize && d.isFinal == data.isFinal && d.bufferSize == data.bufferSize
    {
    }

    constructor (socketfd: int, host: Host)
      ensures Valid() && SessionOf(View()) == INITIAL && this.host == host && this.socketfd == socketfd
      ensures fresh(control) && fresh(data) && fresh(currentHeader) && fresh(mask) && fresh(control.buffer)
      ensures data.buffer == null
    {
      this.socketfd, this.host := socketfd, host;
      headerSize, maskSize, currentFrameType, log := 0, 0, NO_FRAME, [];
      currentHeader := new byte[MAX_FRAME_HEADER_SIZE];
      mask := new byte[4];
      control := new Frame(CONTROL_FRAME_BUFFER_SIZE);
      data := new Frame(0);
    }

    method SendCloseStatus(code: StatusCode)
      modifies `log
      ensures log == old(log) + [CloseReply(StatusPayload(code))]
    {
      log := log + [CloseReply(StatusPayload(code))];
    }

    /* ----- Headers ----- */

    static predicate AreRsvBitsValid(rsv1: bool, rsv2: bool, rsv3: bool) {
      !rsv1 && !rsv2 && !rsv3
    }

    static lemma RsvBits(b: byte)
      ensures AreRsvBitsValid(b / 64 % 2 == 1, b / 32 % 2 == 1, b / 16 % 2 == 1) <==> b / 16 % 8 == 0
    {
    }

    method GetFrameType(b: byte) returns (accepted: bool)
      requires Valid() && currentFrameType == NO_FRAME
      modifies `currentFrameType, `log, control, data
      ensures control.buffer == old(control.buffer) && control.filledSize == old(control.filledSize)
      ensures data.buffer == old(data.buffer) && data.filledSize == old(data.filledSize)
      ensures data.currentFragmentOffset == old(data.currentFragmentOffset)
      ensures Shape() && (accepted ==> Valid() && headerSize == 0 && currentFrameType != NO_FRAME)
      ensures accepted ==> SessionOf(View()) == Step(host, SessionOf(old(View())), b)
      ensures !accepted ==> Step(host, SessionOf(old(View())), b) == Closed(log)
    {
      ghost var v := View();
      FirstByteTaken(host, v, b);
      hide Ok, SessionOf, Step;
      var isFinalFrame := b > 127;
      RsvBits(b);
      if !AreRsvBitsValid(b / 64 % 2 == 1, b / 32 % 2 == 1, b / 16 % 2 == 1) {
        SendCloseStatus(PROTOCOL_ERROR);
        return false;
      }
      var opcode := b % 16;
      if BINARY < opcode < CLOSE || opcode > PONG {
        SendCloseStatus(PROTOCOL_ERROR);
        return false;
      }
      var isControl := opcode > THRESHOLD;
      var frame := if isControl then control else data;
      if isControl {
        if !isFinalFrame {
          return false;
        }
        frame.isFirst := true;
        currentFrameType := CONTROL_FRAME;
      } else {
        if opcode != CONTINUATION && frame.opcode == INVALID {
          frame.isFirst := true;
        } else if (opcode == CONTINUATION && frame.opcode == INVALID)
               || (opcode != CONTINUATION && frame.opcode != INVALID) {
          SendCloseStatus(PROTOCOL_ERROR);
          return false;
        }
        currentFrameType := DATA_FRAME;
      }
      frame.isFinal := isFinalFrame;
      if frame.opcode == INVALID {
        frame.opcode := opcode;
      }
      assert View() == WithFirstByte(v, b);
      return true;
    }

    // Copies length digits into current_header until it holds limit bytes or
    // the input ends.
    method CollectLength(limit: uint8, buf: array<byte>, start: nat, size: int32) returns (read: int8)
      requires Shape() && buf != currentHeader
      requires 1 <= headerSize <= limit <= MAX_FRAME_HEADER_SIZE
      requires 0 <= size && start + size <= buf.Length
      modifies `headerSize, currentHeader
      ensures Shape() && 0 <= read <= size && (headerSize == limit || read == size)
      ensures headerSize == old(headerSize) + read <= limit
      ensures currentHeader[..headerSize] == old(currentHeader[..headerSize]) + buf[start..start + read]
      ensures View() == old(View()).(headerSize := headerSize, header := currentHeader[..])
    {
      read := 0;
      var filled: uint8 := headerSize;
      while filled < limit && read < size
        invariant 0 <= read <= size && filled == headerSize + read <= limit
        invariant currentHeader[..filled] == old(currentHeader[..headerSize]) + buf[start..start + read]
      {
        currentHeader[filled] := buf[start + read];
        filled := filled + 1;
        read := read + 1;
      }
      headerSize := filled;
    }

    // The length byte: the mask bit must be set and a control frame must use
    // the short form.
    method GetLengthByte(b: byte) returns (accepted: bool)
      requires Valid() && currentFrameType != NO_FRAME && headerSize == 0
      modifies `headerSize, `log, currentHeader, control`payloadSize, data`payloadSize
      ensures Shape() && (accepted ==> Valid() && headerSize == 1)
      ensures accepted ==> SessionOf(View()) == Step(host, SessionOf(old(View())), b)
      ensures accepted && currentHeader[0] >= 126 ==> currentFrameType == DATA_FRAME
      ensures accepted && currentHeader[0] < 126 ==> LengthKnown(View())
      ensures !accepted ==> Step(host, SessionOf(old(View())), b) == Closed(log)
    {
      ghost var v := View();
      LengthByteTaken(host, v, b);
      hide Ok, SessionOf, Step;
      var hasMask := b / 128;
      if hasMask == 0 {
        SendCloseStatus(INVALID_TYPE);
        return false;
      }
      var payloadLength: uint8 := b % 128;
      var isControl := currentFrameType == CONTROL_FRAME;
      if payloadLength >= MAX_PAYLOAD_VALUE - 1 && isControl {
        SendCloseStatus(PROTOCOL_ERROR);
        return false;
      }
      currentHeader[0] := payloadLength;
      headerSize := 1;
      if payloadLength < MAX_PAYLOAD_VALUE - 1 {
        var frame := if isControl then control else data;
        frame.payloadSize := payloadLength;
      }
      assert currentHeader[..] == v.header[0 := payloadLength];
      assert View() == WithLengthByte(v, payloadLength);
      return true;
    }

    // Stores the digits of the 126 and 127 forms and, once complete, the size.
    method StoreDigits(buf: array<byte>, start: nat, size: int32) returns (read: int8)
      requires Valid() && currentFrameType == DATA_FRAME && maskSize < 4
      requires headerSize > 0 && currentHeader[0] >= 126
      requires buf != currentHeader && 0 <= size && start + size <= buf.Length
      modifies `headerSize, currentHeader, data`payloadSize
      ensures Shape() && 0 <= read <= size && read <= 8 && (LengthKnown(View()) || read == size)
      ensures DigitsTaken(old(View()), View(), buf[start..start + read])
    {
      var limit := if currentHeader[0] == MAX_PAYLOAD_VALUE - 1 then 3 else MAX_FRAME_HEADER_SIZE;
      ghost var h := currentHeader[..];
      read := CollectLength(limit, buf, start, size);
      assert currentHeader[0] == currentHeader[..headerSize][0] == h[0];
      if headerSize == limit {
        Pow256Values();
        data.payloadSize := BigEndian(currentHeader[1..limit]);
      }
    }

    // In this and the following methods input is the content of buf on entry,
    // and the contracts speak of the window input[start..start + size].
    method GetExtendedLength(buf: array<byte>, start: nat, size: int32, ghost input: seq<byte>) returns (read: int8)
      requires Valid() && currentFrameType == DATA_FRAME && maskSize < 4
      requires headerSize > 0 && currentHeader[0] >= 126
      requires buf != currentHeader && buf[..] == input && 0 <= size && start + size <= |input|
      modifies `headerSize, `log, currentHeader, data`payloadSize
      ensures Shape() && (read >= 0 ==> Valid()) && read <= 8
      ensures read >= 0 ==> read <= size && (LengthKnown(View()) || read == size)
      ensures Took(host, SessionOf(old(View())), input, start, size, read, SessionOf(View()), log)
    {
      ghost var v := View();
      hide Ok, SessionOf, Took, Fold, Step, DigitsTaken;
      read := StoreDigits(buf, start, size);
      ghost var w := View();
      assert buf[start..start + read] == input[start..start + read];
      DigitsTakenSession(host, v, w, input[start..start + read]);
      TookDone(host, SessionOf(v), input, start, size, read, w.data.payloadSize <= MAX_PAYLOAD_SIZE, SessionOf(w),
               v.log + [CloseReply(StatusPayload(TOO_LARGE))]);
      if data.payloadSize > MAX_PAYLOAD_SIZE {
        SendCloseStatus(TOO_LARGE);
        TookFailed(host, SessionOf(v), input, start, size, -1, SessionOf(w), SessionOf(View()), log);
        return -1;
      }
      TookDone(host, SessionOf(v), input, start, size, read, true, SessionOf(w), log);
    }

    method GetPayloadData(buf: array<byte>, start: nat, size: int32, ghost input: seq<byte>) returns (read: int8)
      requires Valid() && currentFrameType != NO_FRAME && maskSize < 4
      requires headerSize == 0 || currentHeader[0] >= 126
      requires buf != currentHeader && buf[..] == input && 0 < size && start + size <= |input|
      modifies `headerSize, `log, currentHeader, control`payloadSize, data`payloadSize
      ensures Shape() && (read >= 0 ==> Valid()) && read <= 9
      ensures read >= 0 ==> read <= size && (LengthKnown(View()) || read == size)
      ensures Took(host, SessionOf(old(View())), input, start, size, read, SessionOf(View()), log)
    {
      hide Ok, SessionOf, Took, Fold, Step, View, LengthKnown;
      Fields();
      if headerSize > 0 {
        ReentryTest(View());
      }
      ghost var s0 := SessionOf(View());
      read := 0;
      TookNone(host, s0, input, start, size, log);
      if headerSize == 0 {
        var accepted := GetLengthByte(buf[start]);
        assert buf[start] == input[start];
        TookOne(host, s0, input, start, size, SessionOf(View()), log);
        if !accepted {
          return -1;
        }
        read := 1;
        if currentHeader[0] < MAX_PAYLOAD_VALUE - 1 {
          return;
        }
        assert buf[..] == input;
      }
      ghost var s1, log1 := SessionOf(View()), log;
      var more := GetExtendedLength(buf, start + read, size - read, input);
      TookThen(host, s0, input, start, size, read, s1, more, SessionOf(View()), log1, log);
      read := if more < 0 then -1 else read + more;
    }

    method CollectMask(buf: array<byte>, start: nat, size: int32, ghost input: seq<byte>) returns (read: int8)
      requires Valid() && maskSize < 4 && (LengthKnown(View()) || size == 0)
      requires buf != mask && buf[..] == input && 0 <= size && start + size <= |input|
      modifies `maskSize, mask
      ensures Valid() && 0 <= read <= 4 && read <= size && (size > 0 ==> read > 0)
      ensures maskSize == 4 || read == size
      ensures Took(host, SessionOf(old(View())), input, start, size, read, Settle(host, SessionOf(View())), log)
    {
      hide Ok, SessionOf, Took, Fold, Step, Settle, View, LengthKnown;
      ghost var s0 := SessionOf(View());
      read := 0;
      Fields();
      TookNone(host, s0, input, start, size, log);
      SettledBeforeKey(host, View());
      while read < size && maskSize < 4
        invariant Valid() && 0 <= read <= size && read <= maskSize <= 4
        invariant read < size ==> LengthKnown(View())
        invariant read == 0 ==> maskSize < 4
        invariant maskSize < 4 ==> Settle(host, SessionOf(View())) == SessionOf(View())
        invariant Took(host, s0, input, start, size, read, Settle(host, SessionOf(View())), log)
      {
        ghost var v := View();
        Fields();
        StoreMaskByte(buf[start + read]);
        assert buf[start + read] == input[start + read];
        MaskByteTaken(host, v, View(), input[start + read]);
        Fields();
        TookOne(host, SessionOf(v), input, start + read, size - read, Settle(host, SessionOf(View())), log);
        TookThen(host, s0, input, start, size, read, SessionOf(v), 1, Settle(host, SessionOf(View())), log, log);
        read := read + 1;
      }
    }

    method StoreMaskByte(b: byte)
      requires Shape() && maskSize < 4
      modifies `maskSize, mask
      ensures Shape() && maskSize == old(maskSize) + 1
      ensures View() == old(View()).(mask := old(View()).mask + [b])
    {
      ghost var v := View();
      mask[maskSize] := b;
      maskSize := maskSize + 1;
      assert mask[..maskSize] == v.mask + [b];
    }

    // The header after its first byte: the length unless it is known, then the key.
    method ExtractLengthAndMask(buf: array<byte>, start: nat, size: int32, ghost input: seq<byte>) returns (read: int8)
      requires Valid() && currentFrameType != NO_FRAME && maskSize < 4
      requires buf !in {mask, currentHeader} && buf[..] == input && 0 < size && start + size <= |input|
      modifies `headerSize, `maskSize, `log, currentHeader, mask, control`payloadSize, data`payloadSize
      ensures Shape() && (read >= 0 ==> Valid()) && read <= 13
      ensures read >= 0 ==> 0 < read <= size && (maskSize == 4 || read == size)
      ensures Took(host, SessionOf(old(View())), input, start, size, read, Settle(host, SessionOf(View())), log)
    {
      hide Ok, SessionOf, Took, Fold, Step, Settle, View;
      ghost var s0 := SessionOf(View());
      read := 0;
      TookNone(host, s0, input, start, size, log);
      var currentFrame := if currentFrameType == CONTROL_FRAME then control else data;
      Fields();
      if headerSize > 0 {
        ReentryTest(View());
      }
      if headerSize == 0
         || (currentFrame.payloadSize <= MAX_PAYLOAD_VALUE && currentHeader[0] != currentFrame.payloadSize) {
        read := GetPayloadData(buf, start, size, input);
        if read < 0 {
          TookFailed(host, s0, input, start, size, read, SessionOf(View()), Settle(host, SessionOf(View())), log);
          return -1;
        }
        assert buf[..] == input;
      }
      ghost var s1, log1 := SessionOf(View()), log;
      var more := CollectMask(buf, start + read, size - read, input);
      TookThen(host, s0, input, start, size, read, s1, more, Settle(host, SessionOf(View())), log1, log);
      read := read + more;
    }

    method ExtractHeaderData(buf: array<byte>, start: nat, size: int32, ghost input: seq<byte>) returns (headerRead: int8)
      requires Valid() && maskSize < 4
      requires buf !in {mask, currentHeader} && buf[..] == input && 0 < size && start + size <= |input|
      modifies this, control, data, currentHeader, mask
      ensures control.buffer == old(control.buffer) && control.filledSize == old(control.filledSize)
      ensures data.buffer == old(data.buffer) && data.filledSize == old(data.filledSize)
      ensures data.currentFragmentOffset == old(data.currentFragmentOffset)
      ensures Shape() && (headerRead >= 0 ==> Valid()) && headerRead <= 14
      ensures headerRead >= 0 ==> 0 < headerRead <= size && (maskSize == 4 || headerRead == size)
      ensures Took(host, SessionOf(old(View())), input, start, size, headerRead, Settle(host, SessionOf(View())), log)
    {
      hide Ok, SessionOf, Took, Fold, Step, Settle, View;
      ghost var s0 := SessionOf(View());
      headerRead := 0;
      TookNone(host, s0, input, start, size, log);
      if currentFrameType == NO_FRAME {
        var accepted := GetFrameType(buf[start]);
        assert buf[start] == input[start];
        TookOne(host, s0, input, start, size, SessionOf(View()), log);
        if !accepted {
          TookFailed(host, s0, input, start, size, -1, SessionOf(View()), Settle(host, SessionOf(View())), log);
          return -1;
        }
        headerRead := 1;
        Fields();
        SettledBeforeKey(host, View());
        if headerRead == size {
          return;
        }
        assert buf[..] == input;
      }
      ghost var s1, log1 := SessionOf(View()), log;
      var read := ExtractLengthAndMask(buf, start + headerRead, size - headerRead, input);
      TookThen(host, s0, input, start, size, headerRead, s1, read, Settle(host, SessionOf(View())), log1, log);
      headerRead := if read < 0 then -1 else headerRead + read;
    }

    /* ----- Payloads ----- */

    method UnmaskPayload(buf: array<byte>, start: nat, size: nat)
      requires mask.Length == 4 && buf != mask && start + size <= buf.Length
      modifies buf
      ensures buf[..] == old(buf[..start]) + Bytes.Unmask(mask[..], old(buf[start..start + size])) + old(buf[start + size..])
    {
      for i := 0 to size
        invariant forall k | 0 <= k < buf.Length ::
          buf[k] == if start <= k < start + i then Xor(old(buf[k]), mask[(k - start) % 4]) else old(buf[k])
      {
        buf[start + i] := Xor(buf[start + i], mask[i % 4]);
      }
    }

    static method CopyBytes(dst: array<byte>, at: nat, src: array<byte>, start: nat, size: nat)
      requires dst != src && at + size <= dst.Length && start + size <= src.Length
      modifies dst
      ensures dst[..at] == old(dst[..at]) && dst[at..at + size] == src[start..start + size]
      ensures dst[at + size..] == old(dst[at + size..])
    {
      forall k | 0 <= k < size {
        dst[at + k] := src[start + k];
      }
    }

    // Answers a close frame; its payload may be overwritten.
    method HandleCloseFrame(buf: array<byte>, start: nat)
      requires start + control.payloadSize <= buf.Length && control.payloadSize <= CONTROL_FRAME_BUFFER_SIZE
      modifies `log, buf
      ensures log == old(log) + [CloseReply(CloseReplyFor(old(buf[start..start + control.payloadSize])))]
    {
      var size := control.payloadSize;
      ghost var payload := buf[start..start + size];
      if size == 0 {
        SendCloseStatus(NORMAL);
        return;
      }
      if size == 1 {
        SendCloseStatus(PROTOCOL_ERROR);
        return;
      }
      Pow256Values();
      var statusCode := BigEndian(buf[start..start + 2]);
      assert payload[..2] == buf[start..start + 2];
      hide BigEndian, Utf8.WellFormed;
      var newStatusCode := ReplyCode(statusCode);
      if newStatusCode == -1 {
        SendCloseStatus(EMPTY_FRAME);
        return;
      }
      EchoClose(buf, start, size, newStatusCode);
    }

    // Replies with the same code or another one, and with the same reason if
    // it is well-formed.
    method EchoClose(buf: array<byte>, start: nat, size: nat, newStatusCode: StatusCode)
      requires 2 <= size && start + size <= buf.Length
      modifies `log, buf
      ensures var payload := old(buf[start..start + size]);
        log == old(log) + [CloseReply(
          if !Utf8.WellFormed(payload[2..]) then StatusPayload(INVALID_ENCODING)
          else (if newStatusCode > 0 then StatusPayload(newStatusCode) else payload[..2]) + payload[2..])]
    {
      hide Utf8.WellFormed;
      ghost var payload := buf[start..start + size];
      ghost var head := if newStatusCode > 0 then StatusPayload(newStatusCode) else payload[..2];
      if newStatusCode > 0 {
        buf[start], buf[start + 1] := newStatusCode / 256, newStatusCode % 256;
      }
      assert buf[start..start + size] == head + payload[2..];
      assert buf[start + 2..start + size] == payload[2..];
      var valid := Utf8.ValidateUtf8(buf, start + 2, size - 2);
      if !valid {
        SendCloseStatus(INVALID_ENCODING);
        return;
      }
      log := log + [CloseReply(buf[start..start + size])];
    }

    // Acts on the unmasked payload at buf[start..]; s is any session with
    // this log.
    method AnswerControlFrame(buf: array<byte>, start: nat, ghost s: Session) returns (handled: bool)
      requires start + control.payloadSize <= buf.Length && control.payloadSize <= CONTROL_FRAME_BUFFER_SIZE
      requires s.Open? && s.log == log
      modifies `log, buf
      ensures handled ==> buf[..] == old(buf[..])
      ensures CompleteControl(host, s, control.opcode, old(buf[start..start + control.payloadSize]))
           == if handled then s.(phase := Start, log := log) else Closed(log)
    {
      if control.opcode == CLOSE {
        HandleCloseFrame(buf, start);
        return false;
      }
      if control.opcode == PING {
        log := log + [Pong(buf[start..start + control.payloadSize])];
        var isSent := !host.pongLost(log);
        if !isSent {
          return false;
        }
      }
      return true;
    }

    method ResetHeader()
      requires Shape()
      modifies `headerSize, `maskSize, `currentFrameType
      ensures Shape() && maskSize == 0
      ensures View() == old(View()).(headerSize := 0, mask := [], frameType := NO_FRAME)
    {
      headerSize := 0;
      maskSize := 0;
      currentFrameType := NO_FRAME;
    }

    method ResetControlFrame()
      requires Shape()
      modifies `headerSize, `maskSize, `currentFrameType, control
      ensures control.buffer == old(control.buffer) && maskSize == 0
      ensures Shape() && View() == ControlReset(old(View()))
    {
      control.filledSize := 0;
      control.isFinal := false;
      control.isFirst := false;
      control.payloadSize := 0;
      control.opcode := INVALID;
      ResetHeader();
    }

    // Unmasks, answers and resets once all of raw is at buf[start..].
    method FinishControlFrame(buf: array<byte>, start: nat, ghost raw: seq<byte>) returns (handled: bool)
      requires Valid() && currentFrameType == CONTROL_FRAME && maskSize == 4
      requires buf !in {currentHeader, mask} && buf != data.buffer
      requires start + control.payloadSize <= buf.Length && buf[start..start + control.payloadSize] == raw
      modifies this, control, buf
      ensures control.buffer == old(control.buffer)
      ensures handled ==> forall i | start + |raw| <= i < buf.Length :: buf[i] == old(buf[i])
      ensures Shape() && (handled ==> Valid() && maskSize == 0)
      ensures CompleteControl(host, SessionOf(old(View())), old(control.opcode), Bytes.Unmask(old(View()).mask, raw))
           == if handled then SessionOf(View()) else Closed(log)
    {
      ghost var v := View();
      hide Ok, SessionOf, CompleteControl;
      ghost var payload := Bytes.Unmask(v.mask, raw);
      assert mask[..] == v.mask;
      UnmaskPayload(buf, start, control.payloadSize);
      assert buf[start..start + control.payloadSize] == payload;
      handled := AnswerControlFrame(buf, start, SessionOf(v));
      if handled {
        ControlResetOk(v, log);
        ResetControlFrame();
        assert View() == ControlReset(v).(log := log);
      }
    }

    method StoreControlPayload(buf: array<byte>, start: nat, size: int32) returns (stored: uint8)
      requires Valid() && buf != control.buffer && buf != data.buffer
      requires |View().control.content| <= control.payloadSize && 0 <= size && start + size <= buf.Length
      modifies control`filledSize, control.buffer
      ensures stored == if size < control.payloadSize - old(control.filledSize) then size
                        else control.payloadSize - old(control.filledSize)
      ensures Shape()
      ensures View() == old(View()).(control := old(View()).control.(
                          content := old(View()).control.content + buf[start..start + stored]))
    {
      ghost var v := View();
      stored := control.payloadSize - control.filledSize;
      stored := if stored >= size then size else stored;
      CopyBytes(control.buffer, control.filledSize, buf, start, stored);
      control.filledSize := control.filledSize + stored;
      assert control.buffer[..control.filledSize] == v.control.content + buf[start..start + stored];
      assert View().data == v.data;
    }

    // The path that gathers the payload in the client's own buffer.
    method GatherControlFrame(buf: array<byte>, start: nat, size: int32, ghost input: seq<byte>) returns (read: int8)
      requires Valid() && currentFrameType == CONTROL_FRAME && maskSize == 4
      requires control.payloadSize > 0 && size > 0 && Waiting(View())
      requires buf !in {currentHeader, mask, control.buffer} && buf != data.buffer
      requires start + size <= |input| && SameFrom(buf, input, start)
      modifies this, control, control.buffer
      ensures control.buffer == old(control.buffer)
      ensures Shape() && (read >= 0 ==> Valid() && Waiting(View()))
      ensures read >= 0 ==> 0 < read <= size && (maskSize == 0 || read == size)
      ensures Took(host, Settle(host, SessionOf(old(View()))), input, start, size, read, SessionOf(View()), log)
    {
      ghost var v, s0 := View(), Settle(host, SessionOf(View()));
      assert |v.control.content| < control.payloadSize <= CONTROL_FRAME_BUFFER_SIZE;
      hide Ok, SessionOf, Took, Fold, Settle, CompleteControl;
      read := StoreControlPayload(buf, start, size);
      ghost var w, stored := View(), read;
      assert buf[start..start + read] == input[start..start + read];
      ControlPayloadStored(host, v, w, input[start..start + read]);
      if control.filledSize < control.payloadSize {
        TookDone(host, s0, input, start, size, read, true, SessionOf(View()), log);
        return;
      }
      assert control.buffer[0..control.payloadSize] == w.control.content;
      var handled := FinishControlFrame(control.buffer, 0, w.control.content);
      TookDone(host, s0, input, start, size, read, handled, SessionOf(View()), log);
      read := if handled then read else -1;
    }

    method HandleControlFrame(buf: array<byte>, start: nat, size: int32, ghost input: seq<byte>) returns (read: int8)
      requires Valid() && currentFrameType == CONTROL_FRAME && maskSize == 4
      requires control.payloadSize > 0 ==> size > 0 && Waiting(View())
      requires buf !in {currentHeader, mask, control.buffer} && buf != data.buffer
      requires 0 <= size && start + size <= |input| && SameFrom(buf, input, start)
      modifies this, control, control.buffer, buf
      ensures control.buffer == old(control.buffer)
      ensures Shape() && (read >= 0 ==> Valid() && Waiting(View()))
      ensures read >= 0 ==> read <= size && SameFrom(buf, input, start + read)
      ensures read >= 0 ==> (maskSize == 0 || read == size) && (old(control.payloadSize) > 0 ==> read > 0)
      ensures Took(host, Settle(host, SessionOf(old(View()))), input, start, size, read, SessionOf(View()), log)
    {
      ghost var v, s0 := View(), Settle(host, SessionOf(View()));
      assert control.filledSize == |v.control.content| <= control.payloadSize <= CONTROL_FRAME_BUFFER_SIZE;
      hide Ok, SessionOf, Took, Fold, Settle, CompleteControl, View;
      if control.filledSize == 0 && size >= control.payloadSize {
        read := control.payloadSize;
        ghost var raw := input[start..start + read];
        assert v.control.content + raw == raw == buf[start..start + read];
        ControlPayloadComplete(host, v, raw);
        var handled := FinishControlFrame(buf, start, raw);
        TookDone(host, s0, input, start, size, read, handled, SessionOf(View()), log);
        read := if handled then read else -1;
      } else {
        read := GatherControlFrame(buf, start, size, input);
      }
    }

    // Makes room for the whole of the current frame.  Nothing is reserved, and
    // the connection is refused, exactly when message and frame together
    // exceed MAX_PAYLOAD_SIZE.
    method ReserveSpace() returns (reserved: bool)
      requires Valid() && currentFrameType == DATA_FRAME && maskSize == 4 && data.payloadSize > 0
      modifies `log, data`buffer, data`bufferSize
      ensures Shape() && (data.buffer == old(data.buffer) || fresh(data.buffer))
      ensures reserved <==> data.currentFragmentOffset + data.payloadSize <= MAX_PAYLOAD_SIZE
      ensures if reserved
        then && data.buffer != null && Reserved(old(View()).data, data.bufferSize)
             && View() == Buffered(old(View()), data.bufferSize, [])
        else data.buffer == old(data.buffer) && data.bufferSize == old(data.bufferSize)
             && log == old(log) + [CloseReply(StatusPayload(TOO_LARGE))]
    {
      ghost var v := View();
      if data.buffer == null {
        data.buffer := new byte[data.payloadSize];
        data.bufferSize := data.payloadSize;
      } else if data.bufferSize - data.currentFragmentOffset < data.payloadSize {
        var remainingSpace: uint64 := data.payloadSize - (data.bufferSize - data.currentFragmentOffset);
        if data.bufferSize + remainingSpace > MAX_PAYLOAD_SIZE {
          SendCloseStatus(TOO_LARGE);
          return false;
        }
        RoundedUp(data.bufferSize + remainingSpace);
        Resize((data.bufferSize + remainingSpace + BUFFER_SIZE - 1) / BUFFER_SIZE * BUFFER_SIZE);
      }
      return true;
    }

    static lemma RoundedUp(n: nat)
      ensures n <= (n + BUFFER_SIZE - 1) / BUFFER_SIZE * BUFFER_SIZE < n + BUFFER_SIZE
      ensures n <= MAX_PAYLOAD_SIZE ==> (n + BUFFER_SIZE - 1) / BUFFER_SIZE * BUFFER_SIZE <= MAX_PAYLOAD_SIZE
    {
      assert MAX_PAYLOAD_SIZE == 25600 * BUFFER_SIZE;
    }

    // A larger buffer with the same contents.
    method Resize(newSize: uint64)
      requires Shape() && data.buffer != null && data.bufferSize <= newSize
      modifies data`buffer, data`bufferSize
      ensures Shape() && data.buffer != null && fresh(data.buffer) && data.bufferSize == newSize
      ensures View() == Buffered(old(View()), newSize, [])
    {
      ghost var v := View();
      var temp := new byte[newSize];
      CopyBytes(temp, 0, data.buffer, 0, data.filledSize);
      data.buffer := temp;
      data.bufferSize := newSize;
      assert temp[..data.filledSize] == temp[0..data.filledSize] == v.data.content;
    }

    method AppendToBuffer(buf: array<byte>, start: nat, size: nat, ghost bytes: seq<byte>)
      requires Shape() && data.buffer != null && buf != data.buffer
      requires start + size <= buf.Length && data.filledSize + size <= data.bufferSize
      requires buf[start..start + size] == bytes
      modifies data`filledSize, data.buffer
      ensures Shape() && data.filledSize == old(data.filledSize) + size
      ensures View() == Buffered(old(View()), data.bufferSize, bytes)
    {
      ghost var v := View();
      CopyBytes(data.buffer, data.filledSize, buf, start, size);
      data.filledSize := data.filledSize + size;
      assert data.buffer[..data.filledSize] == v.data.content + bytes;
    }

    // The bytes are in the message buffer already.
    method AcceptDirect(size: nat, ghost bytes: seq<byte>)
      requires Shape() && data.buffer != null && data.filledSize + size <= data.bufferSize
      requires data.buffer[data.filledSize..data.filledSize + size] == bytes
      modifies data`filledSize
      ensures Shape() && data.filledSize == old(data.filledSize) + size
      ensures View() == Buffered(old(View()), data.bufferSize, bytes)
    {
      ghost var filled := data.filledSize;
      data.filledSize := data.filledSize + size;
      assert data.buffer[..data.filledSize] == data.buffer[..filled] + data.buffer[filled..data.filledSize];
    }

    // Validates and hands over the unmasked message at dat[at..]; s is any
    // session with this log and this message type.
    method DeliverMessage(dat: array<byte>, at: nat, ghost s: Session, ghost payload: seq<byte>) returns (alive: bool)
      requires s.Open? && s.log == log && s.messageType == data.opcode
      requires var length := if data.bufferSize == 0 then data.payloadSize else data.filledSize;
        at + length <= dat.Length && dat[at..at + length] == s.message + payload
      modifies `log
      ensures CompleteData(host, s, true, payload) == if alive then Open(Start, INVALID, [], log) else Closed(log)
    {
      var length := if data.bufferSize == 0 then data.payloadSize else data.filledSize;
      if data.opcode == TEXT {
        var isValid := Utf8.ValidateUtf8(dat, at, length);
        if !isValid {
          SendCloseStatus(INVALID_ENCODING);
          return false;
        }
      }
      log := log + [Deliver(data.opcode, dat[at..at + length])];
      alive := !host.wantsClose(log);
    }

    method ResetMessage()
      requires Shape()
      modifies `headerSize, `maskSize, `currentFrameType, data
      ensures Shape() && maskSize == 0 && data.buffer == null
      ensures View() == MessageReset(old(View()))
    {
      ResetHeader();
      data.isFinal := false;
      data.isFirst := false;
      data.payloadSize := 0;
      data.opcode := INVALID;
      data.currentFragmentOffset := 0;
      if data.bufferSize > 0 {
        data.bufferSize := 0;
        data.filledSize := 0;
        data.buffer := null;
      }
    }

    method ResetFragment()
      requires Shape()
      modifies `headerSize, `maskSize, `currentFrameType, data`currentFragmentOffset, data`payloadSize
      ensures Shape() && maskSize == 0
      ensures View() == FragmentReset(old(View()))
    {
      data.currentFragmentOffset := data.filledSize;
      ResetHeader();
      data.payloadSize := 0;
    }

    // The message is handed over, and unless that closes the client the next
    // one can begin.
    method DeliverAndReset(dat: array<byte>, at: nat, ghost s: Session, ghost payload: seq<byte>) returns (alive: bool)
      requires Shape() && s.Open? && s.log == log && s.messageType == data.opcode
      requires var length := if data.bufferSize == 0 then data.payloadSize else data.filledSize;
        at + length <= dat.Length && dat[at..at + length] == s.message + payload
      modifies this, data
      ensures Shape() && data.buffer in {null, old(data.buffer)}
      ensures alive ==> maskSize == 0 && View() == MessageReset(old(View())).(log := log)
      ensures CompleteData(host, s, true, payload) == if alive then Open(Start, INVALID, [], log) else Closed(log)
    {
      hide CompleteData;
      ghost var v := View();
      alive := DeliverMessage(dat, at, s, payload);
      if alive {
        assert View() == v.(log := log);
        hide View;
        ResetMessage();
      }
    }

    method UnmaskReceived(buf: array<byte>, start: nat, ghost raw: seq<byte>)
      requires Valid() && maskSize == 4 && buf !in {currentHeader, mask, control.buffer}
      requires data.buffer == null && start + data.payloadSize <= buf.Length
      requires buf[start..start + data.payloadSize] == raw
      modifies buf
      ensures Shape() && View() == old(View())
      ensures buf[start..start + data.payloadSize] == Bytes.Unmask(View().mask, raw)
      ensures forall i | start + |raw| <= i < buf.Length :: buf[i] == old(buf[i])
    {
      hide Ok;
      ghost var plain := Bytes.Unmask(View().mask, raw);
      assert mask[..] == View().mask;
      UnmaskPayload(buf, start, data.payloadSize);
      assert buf[start..start + data.payloadSize] == plain;
    }

    // A final frame, complete in buf itself.
    method FinishInPlace(buf: array<byte>, start: nat, ghost raw: seq<byte>) returns (alive: bool)
      requires Valid() && currentFrameType == DATA_FRAME && maskSize == 4
      requires data.filledSize == 0 && data.isFinal && buf !in {currentHeader, mask, control.buffer}
      requires start + data.payloadSize <= buf.Length && buf[start..start + data.payloadSize] == raw
      modifies this, data, buf
      ensures Shape() && (alive ==> Valid() && maskSize == 0) && data.buffer in {null, old(data.buffer)}
      ensures alive ==> forall i | start + |raw| <= i < buf.Length :: buf[i] == old(buf[i])
      ensures CompleteData(host, SessionOf(old(View())), true, Bytes.Unmask(old(View()).mask, raw))
           == if alive then SessionOf(View()) else Closed(log)
    {
      ghost var v := View();
      ghost var s, plain := SessionOf(v), Bytes.Unmask(v.mask, raw);
      assert data.buffer == null && v.data.content == [] && v.data.content[..v.data.offset] == [];
      assert s.Open? && s.log == log && s.messageType == data.opcode && s.message == [];
      MessageComplete(v);
      Fields();
      hide Ok, SessionOf, CompleteData, View;
      UnmaskReceived(buf, start, raw);
      assert s.message + plain == plain;
      alive := DeliverAndReset(buf, start, s, plain);
    }

    // Unmasks the current fragment inside the message buffer.
    method UnmaskPending()
      requires Valid() && maskSize == 4 && currentFrameType == DATA_FRAME
      requires data.filledSize == data.currentFragmentOffset + data.payloadSize
      modifies data.buffer
      ensures Shape() && View() == WithPlain(old(View()), Bytes.Unmask(old(View()).mask, Pending(old(View()))))
    {
      ghost var v := View();
      ghost var plain := Bytes.Unmask(v.mask, Pending(v));
      assert mask[..] == v.mask && v.data.offset <= |v.data.content|;
      hide Ok;
      if data.buffer != null {
        UnmaskPayload(data.buffer, data.currentFragmentOffset, data.payloadSize);
        assert data.buffer[..data.filledSize] == v.data.content[..v.data.offset] + plain;
      }
    }

    // A frame whose payload is complete in the message buffer.
    method FinishBuffered() returns (alive: bool)
      requires Valid() && currentFrameType == DATA_FRAME && maskSize == 4
      requires data.filledSize == data.currentFragmentOffset + data.payloadSize
      requires data.isFinal ==> data.buffer != null
      modifies this, data, data.buffer
      ensures Shape() && (alive ==> Valid() && maskSize == 0) && data.buffer in {null, old(data.buffer)}
      ensures CompleteData(host, SessionOf(old(View())), old(data.isFinal),
                           Bytes.Unmask(old(View()).mask, Pending(old(View()))))
           == if alive then SessionOf(View()) else Closed(log)
    {
      ghost var v := View();
      ghost var plain := Bytes.Unmask(v.mask, Pending(v));
      ghost var s := SessionOf(v);
      assert s.messageType == data.opcode && s.message == v.data.content[..v.data.offset];
      FragmentComplete(host, v, plain);
      hide Ok, SessionOf, CompleteData;
      UnmaskPending();
      if data.isFinal {
        assert data.buffer[0..data.filledSize] == View().data.content == s.message + plain;
        alive := DeliverAndReset(data.buffer, 0, s, plain);
        BufferedMessageComplete(v, plain, log);
      } else {
        ResetFragment();
        alive := true;
      }
    }

    // A final frame that fits into the input, with nothing buffered before it.
    method HandleInPlace(buf: array<byte>, start: nat, size: int32, ghost input: seq<byte>) returns (read: int64)
      requires Valid() && currentFrameType == DATA_FRAME && maskSize == 4
      requires data.filledSize == 0 && size >= data.payloadSize && data.isFinal
      requires buf !in {currentHeader, mask, control.buffer}
      requires start + size <= |input| && SameFrom(buf, input, start)
      modifies this, data, buf
      ensures data.buffer in {null, old(data.buffer)}
      ensures Shape() && (read >= 0 ==> Valid() && maskSize == 0)
      ensures read >= 0 ==> read == old(data.payloadSize) && SameFrom(buf, input, start + read)
      ensures Took(host, Settle(host, SessionOf(old(View()))), input, start, size, read, SessionOf(View()), log)
    {
      ghost var v := View();
      hide Ok, SessionOf, Took, Fold, Settle, CompleteData, View;
      read := data.payloadSize;
      ghost var raw := input[start..start + read];
      SameSlice(buf, input, start, start + read);
      Fields();
      DataPayloadInPlace(host, v, raw);
      var alive := FinishInPlace(buf, start, raw);
      TookDone(host, Settle(host, SessionOf(v)), input, start, size, read, alive, SessionOf(View()), log);
      read := if alive then read else -1;
    }

    // Acts on the current frame if the read bytes just received, the first of
    // the window, complete it.
    method FinishIfComplete(ghost s0: Session, ghost input: seq<byte>, ghost start: nat, ghost size: nat, read0: int64)
      returns (read: int64)
      requires Valid() && 0 <= read0 <= size && start + size <= |input|
      requires Received(host, s0, View(), input[start..start + read0])
      requires data.filledSize == data.currentFragmentOffset + data.payloadSize && data.isFinal ==> data.buffer != null
      modifies this, data, data.buffer
      ensures data.buffer in {null, old(data.buffer)}
      ensures Shape() && (read >= 0 ==> Valid() && Waiting(View()) && read == read0)
      ensures read >= 0 ==>
        maskSize == 0 || old(data.filledSize) < old(data.currentFragmentOffset) + old(data.payloadSize)
      ensures Took(host, s0, input, start, size, read, SessionOf(View()), log)
    {
      ghost var taken := input[start..start + read0];
      Fields();
      BufferFacts(View());
      hide Ok, SessionOf, Took, Fold, CompleteData, View;
      var currentFrameSize: uint64 := data.filledSize - data.currentFragmentOffset;
      if currentFrameSize < data.payloadSize {
        TookDone(host, s0, input, start, size, read0, true, SessionOf(View()), log);
        return read0;
      }
      var alive := FinishBuffered();
      Fields();
      TookDone(host, s0, input, start, size, read0, alive, SessionOf(View()), log);
      read := if alive then read0 else -1;
    }

    // The input was received straight into the message buffer.
    method HandleDirect(start: nat, size: int32, ghost input: seq<byte>) returns (read: int64)
      requires Valid() && currentFrameType == DATA_FRAME && maskSize == 4 && data.buffer != null
      requires 0 < size && start + size <= |input| && SameFrom(data.buffer, input, start)
      requires start == data.filledSize > data.currentFragmentOffset
      requires start + size <= data.currentFragmentOffset + data.payloadSize
      modifies this, data, data.buffer
      ensures data.buffer in {null, old(data.buffer)}
      ensures Shape() && (read >= 0 ==> Valid() && Waiting(View()) && read == size)
      ensures Took(host, Settle(host, SessionOf(old(View()))), input, start, size, read, SessionOf(View()), log)
    {
      ghost var v, bufferSize, taken := View(), data.bufferSize, input[start..start + size];
      Fields();
      BufferFacts(v);
      DataPayloadStored(host, v, bufferSize, taken);
      SameSlice(data.buffer, input, start, start + size);
      hide Ok, SessionOf, Took, Fold, Settle, View, Received, Buffered;
      AcceptDirect(size, taken);
      read := FinishIfComplete(Settle(host, SessionOf(v)), input, start, size, size);
    }

    // Copies what belongs to the current frame; v is the state before the
    // buffer was resized for it.
    method CopyReserved(buf: array<byte>, start: nat, size: int32, ghost input: seq<byte>, ghost v: View)
      returns (read: int64)
      requires Ok(v) && v.frameType == DATA_FRAME && |v.mask| == 4 && Waiting(v)
      requires Shape() && data.buffer != null
      requires View() == Buffered(v, data.bufferSize, []) && Reserved(v.data, data.bufferSize)
      requires buf != data.buffer && 0 < size && start + size <= |input| && SameFrom(buf, input, start)
      modifies this, data, data.buffer
      ensures data.buffer in {null, old(data.buffer)}
      ensures Shape() && (read >= 0 ==> Valid() && Waiting(View()))
      ensures read >= 0 ==> 0 < read <= size && (maskSize == 0 || read == size)
      ensures Took(host, Settle(host, SessionOf(v)), input, start, size, read, SessionOf(View()), log)
    {
      Fields();
      BufferFacts(v);
      assert data.filledSize == |v.data.content| && data.payloadSize == v.data.payloadSize;
      assert data.currentFragmentOffset == v.data.offset && |v.data.content| < v.data.offset + v.data.payloadSize;
      hide Ok, SessionOf, Took, Fold, Settle, View, Received, Buffered;
      var toCopySize: uint64 := data.payloadSize - (data.filledSize - data.currentFragmentOffset);
      toCopySize := if toCopySize >= size then size else toCopySize;
      ghost var taken := input[start..start + toCopySize];
      SameSlice(buf, input, start, start + toCopySize);
      AppendToBuffer(buf, start, toCopySize, taken);
      BufferedTwice(v, data.bufferSize, taken);
      DataPayloadStored(host, v, data.bufferSize, taken);
      Fields();
      read := FinishIfComplete(Settle(host, SessionOf(v)), input, start, size, toCopySize);
    }

    method HandleCopied(buf: array<byte>, start: nat, size: int32, ghost input: seq<byte>) returns (read: int64)
      requires Valid() && currentFrameType == DATA_FRAME && maskSize == 4
      requires data.payloadSize > 0 && size > 0 && Waiting(View())
      requires buf != data.buffer && start + size <= |input| && SameFrom(buf, input, start)
      modifies this, data, data.buffer
      ensures data.buffer in {null, old(data.buffer)} || fresh(data.buffer)
      ensures Shape() && (read >= 0 ==> Valid() && Waiting(View()))
      ensures read >= 0 ==> 0 < read <= size && (maskSize == 0 || read == size)
      ensures Took(host, Settle(host, SessionOf(old(View()))), input, start, size, read, SessionOf(View()), log)
    {
      ghost var v := View();
      assert SessionOf(v).log == log;
      Fields();
      hide Ok, SessionOf, Took, Fold, Settle, View, Buffered;
      var reserved := ReserveSpace();
      if reserved {
        read := CopyReserved(buf, start, size, input, v);
      } else {
        DataPayloadRefused(host, v, input[start..start + size]);
        TookDone(host, Settle(host, SessionOf(v)), input, start, size, size, false, SessionOf(View()), log);
        read := -1;
      }
    }

    method HandleEmpty(start: nat, size: int32, ghost input: seq<byte>) returns (read: int64)
      requires Valid() && currentFrameType == DATA_FRAME && maskSize == 4 && data.payloadSize == 0
      requires data.isFinal ==> data.filledSize > 0
      requires 0 <= size && start + size <= |input|
      modifies this, data, data.buffer
      ensures data.buffer in {null, old(data.buffer)}
      ensures Shape() && (read >= 0 ==> Valid() && maskSize == 0 && read == 0)
      ensures Took(host, Settle(host, SessionOf(old(View()))), input, start, size, read, SessionOf(View()), log)
    {
      ghost var v := View();
      Fields();
      BufferFacts(v);
      assert input[start..start] == [];
      DataPayloadStored(host, v, data.bufferSize, []);
      hide Ok, SessionOf, Took, Fold, Settle, View, Received, Buffered;
      read := FinishIfComplete(Settle(host, SessionOf(v)), input, start, size, 0);
    }

    // The window buf[start..start + size] lies in the message buffer, behind
    // the bytes already there and within the current frame.
    ghost predicate AimedAtBuffer(start: nat, size: int)
      reads this, data
    {
      && currentFrameType == DATA_FRAME && maskSize == 4
      && start == data.filledSize > data.currentFragmentOffset
      && 0 < size <= data.currentFragmentOffset + data.payloadSize - start
    }

    method HandleDataFrame(buf: array<byte>, start: nat, size: int32, ghost input: seq<byte>) returns (read: int64)
      requires Valid() && currentFrameType == DATA_FRAME && maskSize == 4
      requires data.payloadSize > 0 ==> size > 0 && Waiting(View())
      requires buf !in {currentHeader, mask, control.buffer}
      requires 0 <= size && start + size <= |input| && SameFrom(buf, input, start)
      requires buf == data.buffer ==> AimedAtBuffer(start, size)
      modifies this, data, data.buffer, buf
      ensures data.buffer in {null, old(data.buffer)} || fresh(data.buffer)
      ensures Shape() && (read >= 0 ==> Valid() && Waiting(View()))
      ensures read >= 0 ==> read <= size && (maskSize == 0 || read == size)
      ensures read >= 0 ==> if buf == old(data.buffer) then read == size else SameFrom(buf, input, start + read)
      ensures read >= 0 && old(data.payloadSize) > 0 ==> read > 0
      ensures Took(host, Settle(host, SessionOf(old(View()))), input, start, size, read, SessionOf(View()), log)
    {
      assert data.isFirst;
      hide Ok, SessionOf, Took, Fold, Settle, View;
      Fields();
      if data.filledSize == 0 && size >= data.payloadSize && data.isFinal && data.isFirst {
        read := HandleInPlace(buf, start, size, input);
        Fields();
      } else if buf == data.buffer && start < data.bufferSize {
        read := HandleDirect(start, size, input);
      } else if data.payloadSize > 0 {
        read := HandleCopied(buf, start, size, input);
      } else {
        read := HandleEmpty(start, size, input);
        Fields();
      }
    }
  }
}
