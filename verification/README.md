# Nitrows, modelled and verified

Nitrows is a WebSocket server library written in C. This project models its
server side of the framing protocol (RFC 6455) and the small algorithms beside
it, and proves what they promise.

The centre is the inbound path. `Protocol.dfy` is a pure decoder that takes one
byte at a time and emits deliveries, pongs and close replies. `Frames.dfy` and
`Server.dfy` are the code: a `Client` whose fields and arrays are updated in
place, a header that can stop at any byte and resume, four ways to get at a
payload (in the receive buffer, received straight into the message buffer,
copied with growth, empty), and the loop that switches between them.
`ClientState.dfy` says which protocol state the fields stand for and what
always holds of them. The main theorem is the contract of
`Server.HandleClientData`, the predicate `Server.Served`: for every stream and
every way `recv` cuts it, everything `recv` gives is taken until it would block
or fails, the fields end up standing for the fold of the byte decoder over what
was received, and the connection ends exactly when the decoder says so.
Everything proved of the fold (`Safety.dfy`, `Sessions.dfy`) is therefore true
of the fields of a client (`Guarantees.dfy`).

| file | models |
|---|---|
| `Bytes.dfy` | machine integers, masking keys, network byte order |
| `Utf8.dfy` | the UTF-8 table and loop, against the grammar of section 4 of RFC 3629 |
| `Protocol.dfy` | the byte-at-a-time decoder and its fold |
| `ClientState.dfy` | the fields of a client as a value, their invariant, the protocol state they stand for |
| `Frames.dfy` | `src/frame.c`, inbound |
| `Server.dfy` | the receive loop of `src/server.c` |
| `Safety.dfy` | what holds in every state of every run |
| `Sessions.dfy` | a client-side encoder and the round trip |
| `Endings.dfy` | what each kind of frame leads to, in octets, and why a connection ends |
| `Guarantees.dfy` | all of these, as statements about the real fields |
| `Outbound.dfy` | the encoders of `src/frame.c` and `send_frame` |
| `EventLoop.dfy` | the descriptor array of `src/events.c`, poll variant |
| `ClientTable.dfy` | the hash table of `src/clients.c` |
| `Base64.dfy` | `src/base64.h` |

## What the code does that its design does not say

- A server that sends a message while no message of the peer is in progress
  takes the opcode from `data_frame.type`, which is then INVALID (-1), and
  writes 255 as the first byte: all reserved bits and opcode 15.
  `Outbound.MessageReadBack` gives the exact condition: the frame announces a
  data message if and only if a message of the peer is in progress.
- When a call of `send` fails, `send_frame` returns without recording what the
  same call had already sent. Of a new frame the rest is forgotten
  (`Outbound.FrameCutShort`: two bytes, of which `send` takes one and then
  fails); bytes that were queued are sent again by the next call
  (`Outbound.ByteRepeated`). `Outbound.ConservedIff` gives the exact condition
  on what `send` will answer: nothing is lost or repeated if and only if it
  offers to take everything before the first failure, or would block first, or
  fails at once while bytes were queued. The event loop ignores the result
  (`src/server.c:31`), so the runs of `Outbound.RunRequests` go on after a
  failure.
- A missing mask is answered with 1003, a fragmented control frame closes
  without a reply, longer length forms than needed are accepted, 1001 is
  answered with 1000, and a code that is not in the table with an empty close
  frame whatever the reason says. `is_first` stays set throughout a message, so
  that a final continuation frame after empty fragments is still handled in
  place.

## Model

| member | source | states |
|---|---|---|
| Server.HandleClientData | src/server.c:242-313 | For every stream and every way `recv` cuts it: bytes received and left are the stream, results used and left are what `recv` answers; the fields and log stand for the fold of the byte decoder over the bytes received; the client is suspended only when `recv` would block or nothing is left, gone only when it said so or failed, ended only when the decoder closes within the bytes of the last call |
| Server.ServeConnection | src/server.c:20-36 | The same from a fresh connection over any number of wake-ups, with the state carried across calls; a wake-up is over only when `recv` would block or nothing is left |
| Server.TakeTurns | src/server.c:252-299 | The outer loop goes on while `recv` gives bytes, and ends with all of them handled or with the connection |
| Server.TakeTurn | src/server.c:252-299 | A turn handles its chunk and, unless that ends the connection, makes the next call; every positive answer takes bytes |
| Server.StopJustified | src/server.c:252-311 | After a call that received nothing, all calls before it received something, and its result says whether the peer is gone |
| Server.JustifiedLater | src/server.c:252-311 | Another wake-up of a suspended client keeps the account of the calls |
| Server.StillOpen | src/server.c:252-287 | What is open after some bytes was open after fewer |
| Server.AgreesLater | src/server.c:252-299 | Two runs in a row agree with the fold over both their inputs |
| Server.ProcessChunk | src/server.c:253-287 | The inner loop takes all of a chunk and has the effect of folding it, or the connection ends within it; the test `!=` never overshoots |
| Server.ProcessStep | src/server.c:255-286 | One turn takes at least one byte and at most what is there, or ends the connection; afterwards no frame with a complete payload, empty ones included, is left unhandled |
| Server.TakeChunk | src/server.c:252-287 | A chunk at any place of either buffer continues the fold over the whole stream |
| Server.ReceiveNext | src/server.c:289-298 | `recv` is asked for exactly the rest of the frame, into the message buffer behind the bytes received so far, if more than BUFFER_SIZE of it is unused, and else for BUFFER_SIZE bytes into the local array; the chunk comes from the stream unchanged, and so is the client's state |
| Server.ReadHeader | src/server.c:260-267 | The header part takes at least one byte and all of its input unless it completes the key |
| Server.HandleFrame | src/server.c:277-286 | Either handler has the effect of the decoder on the bytes it takes, and takes some if the payload is not empty |
| ClientState.DirectReadSafe | src/server.c:290-298 | The test on the unused part alone implies that space is reserved, that the receive window is not empty, ends with the current frame and lies in the buffer |
| Protocol.ChunkIndependence | src/server.c:252-287 | Folding chunk by chunk is folding their concatenation |
| Protocol.FoldConcat | src/server.c:252-287 | The decoder can be stopped and resumed at any byte |
| Protocol.ClosedStaysClosed | src/server.c:262-265 | Nothing is taken after the end of a connection |
| Guarantees.CutsDoNotMatter | src/server.c:252-299 | Of two connections fed the same stream, cut and buffered differently and received up to different points, the one that received less has delivered and replied a part of what the other has; if it has ended, the other has as well, with the same deliveries and replies |
| Guarantees.LogIsFolded | src/server.c:252-287 | The deliveries and replies of a run are those of the decoder |
| Guarantees.DeliveredExactly | src/frame.c:326-478 | Of a session of legal messages, of which any beginning has been received: the log is a part of the deliveries and pongs due, all of them when everything is received, and the connection has ended only at the wish of the host |
| Guarantees.DeliveredPromptly | src/frame.c:326-478 | Once the bytes of some messages are received, whatever follows, they are delivered and their pings answered, unless the connection has ended |
| Guarantees.AllReceived | src/server.c:252-299 | If `recv` never fails, has a positive answer for every byte and the socket is reported readable once more than it would block, everything is received or the connection ends |
| Guarantees.SessionServed | src/server.c:242-313 | A legal session served under these conditions is delivered in full, in order, unless the host ends the connection, and then a part of it |
| Guarantees.AlwaysSafe | src/frame.c:274-478 | Whatever is received, every delivered text is well-formed as a whole, every reply fits a control frame, a close reply comes last and the state is consistent |
| Guarantees.HostIsHeeded | src/frame.c:448-451 | When the handler asks to close, or a pong is lost, it is the last thing the client does, and the run has ended |
| Guarantees.EndedBecause | src/server.c:262-285 | A run that has ended did so with a byte received, for one of the three reasons |
| Guarantees.BufferContents | src/frame.c:337-386 | In every reachable state the buffer holds the unmasked completed fragments, then the masked received part of the current one, its key starting at its own first byte; offset <= filled <= size <= MAX_PAYLOAD_SIZE, and `is_first` is set exactly while there is a type |
| Guarantees.FragmentsBuffered | src/frame.c:452-476 | After whole frames of any kind, type, `is_first` and buffer are those of the message left unfinished: set if and only if the last data frame is not final, with the payloads of its fragments |
| Frames.Client.ExtractHeaderData | src/frame.c:16-49 | A header split anywhere, resumed any number of times, has the effect of reading it byte by byte; a call takes all its input or completes the key, and its 8-bit count does not wrap |
| Frames.Client.ExtractLengthAndMask | src/frame.c:31-49 | Length and key, guarded by the re-entry test, do what the decoder does |
| ClientState.ReentryTest | src/frame.c:33-34 | The re-entry test fires for every incomplete length, never for a complete short form, and for a complete long form only when its value looks short |
| Frames.Client.GetFrameType | src/frame.c:51-101 | The first byte is accepted or refused as the decoder does, with the same log, and leaves the message buffer alone |
| ClientState.FirstByteTaken | src/frame.c:51-101 | Refused, silently closed or accepted, the fields stand for the decoder's next state; `is_first` holds exactly while a message is in progress |
| Frames.Client.GetPayloadData | src/frame.c:105-191 | Any part of a length field, first or resumed, is taken as the decoder takes it; a complete field is left as it is |
| Frames.Client.GetLengthByte | src/frame.c:107-128 | The first length byte: 1003 without a mask, 1002 for a long control frame, else stored |
| ClientState.LengthByteTaken | src/frame.c:107-147 | The fields after the length byte stand for the decoder's next state in each case |
| Frames.Client.GetExtendedLength | src/frame.c:148-189 | Digits of both long forms in network order; a size above the limit is refused as soon as it is complete |
| ClientState.DigitsTakenSession | src/frame.c:148-189 | Digits stored in bulk are digits folded one by one, up to and including the refusal |
| Frames.Client.CollectMask | src/frame.c:42-48 | Key bytes are appended until there are four |
| Frames.Client.UnmaskPayload | src/frame.c:196-200 | Exactly the window is unmasked, key phase 0 at its first byte; the rest of the array is unchanged |
| Bytes.UnmaskTwice | src/frame.c:196-200 | Masking twice with the same key is the identity |
| Bytes.UnmaskAppend | src/frame.c:196-200 | The next byte is unmasked with the key byte of its own position |
| Bytes.XorDigits | src/frame.c:198 | A binary digit of the result is set if and only if exactly one of the two operands has it |
| Bytes.UnmaskDigits | src/frame.c:196-200 | Digit by digit, octet i is combined by exclusive or with octet i modulo 4 of the key |
| Bytes.BigEndianRoundTrip | src/frame.c:161-178 | Reading network byte order inverts writing it |
| Bytes.BigEndianFirst | src/frame.c:161-178 | The first octet is the most significant |
| Bytes.BigEndianValues | src/frame.c:161-178 | The values of two and of eight octets, written out |
| Frames.Client.HandleCloseFrame | src/frame.c:209-245 | The reply to a close frame is the one the specification gives for its payload, computed in place |
| Safety.CloseReplyOk | src/frame.c:209-272 | Whatever a close frame carries, the reply is empty or a code of the table, never 1001, followed by well-formed text, and at most 125 bytes |
| Endings.CloseReplyIs | src/frame.c:209-272 | The reply by the code received: 1000 to nothing, 1002 to one octet, nothing to an unknown code, 1007 to an ill-formed reason, 1000 and the reason to 1001, and else the payload itself |
| Endings.CloseAnswered | src/frame.c:301-304 | The bytes of any masked close frame lead to this one reply and to the end |
| Endings.PingAnswered | src/frame.c:306-313 | The bytes of any masked ping lead to a pong with its payload, and to the end if and only if that cannot be sent; those of a pong lead to nothing |
| Frames.Client.HandleControlFrame | src/frame.c:274-324 | A control frame, in place or gathered over many chunks, has the decoder's effect, and the next header can begin |
| Frames.Client.GatherControlFrame | src/frame.c:286-298 | Every copy lands in the 125-byte buffer, and the received prefix stays in order |
| Frames.Client.FinishControlFrame | src/frame.c:300-323 | A complete control frame is unmasked, answered, and leaves the data frame as it was |
| ClientState.ControlResetOk | src/frame.c:314-322 | After a control frame the fields stand for the state before it, with the longer log |
| Frames.Client.HandleDataFrame | src/frame.c:326-478 | All four buffering paths have the decoder's effect on the bytes they take; a frame with payload takes at least one, and all input unless the frame is complete |
| Frames.Client.HandleInPlace | src/frame.c:337-339 | The whole of a final frame, used in the receive buffer, which is unchanged behind it |
| Frames.Client.HandleDirect | src/frame.c:340-344 | Bytes received straight into the message buffer count as taken |
| Frames.Client.HandleCopied | src/frame.c:345-372 | Bytes copied, the buffer growing first if needed, or refused as too large |
| Frames.Client.HandleEmpty | src/frame.c:373-386 | An empty frame completes at once |
| Frames.Client.ReserveSpace | src/frame.c:347-365 | Refused if and only if message and frame together exceed MAX_PAYLOAD_SIZE; otherwise the contents are kept, the frame fits and rounding up does not exceed the limit |
| ClientState.BufferedSession | src/frame.c:366-371 | After storing more of the current payload, with a reserved buffer, the invariant holds and the state has advanced by these bytes |
| ClientState.DataPayloadStored | src/frame.c:366-386 | Storing payload has the effect of folding it, completion of the frame included |
| ClientState.DataPayloadInPlace | src/frame.c:337-339 | A whole payload folded at once is a completed data frame |
| ClientState.DataPayloadRefused | src/frame.c:351-355 | When there is no room, the decoder refuses on the first payload byte |
| Frames.Client.DeliverMessage | src/frame.c:388-451 | The message is delivered, or refused for its encoding, as the completed frame demands; the length is the payload's or the buffer's, whichever is in use |
| Frames.Client.FinishBuffered | src/frame.c:376-459 | A frame complete in the buffer is unmasked there and delivered or kept as a fragment |
| Frames.Client.FinishInPlace | src/frame.c:379-478 | A frame complete in the receive buffer is unmasked and delivered there, leaving nothing behind |
| ClientState.FragmentComplete | src/frame.c:452-459 | After a fragment the invariant holds, with the fragment part of the message |
| ClientState.BufferedMessageComplete | src/frame.c:462-476 | After a buffered message the fields stand for a fresh start |
| Safety.EveryRunIsSafe | src/frame.c:16-478 | In every reachable state: a valid message type or none, and none means nothing stored; a data frame only with a type; sizes within the limits, control frames at most 125 bytes, only well-formed text delivered, a close reply only at the end |
| Safety.StepOk | src/frame.c:16-478 | Every byte keeps these |
| Safety.LogOnlyGrows | src/server.c:252-287 | What was delivered or replied is never taken back |
| Safety.FirstByteCloses | src/frame.c:51-101 | The first byte closes if and only if a reserved bit or opcode, a fragmented control frame, a continuation of nothing, or a message within a message; silently if and only if it is a fragmented control frame and nothing else, and otherwise with 1002 |
| Safety.LengthByteCloses | src/frame.c:105-183 | The second byte closes if and only if the mask is missing, with 1003, or a control frame claims more than 125 bytes, with 1002 |
| Endings.LengthForms | src/frame.c:105-191 | What the three forms of a length are read as, and the refusal with 1009 on the last octet of the longest, not before |
| Endings.MessageEnds | src/frame.c:388-476 | A final data frame in order and within the limit: ill-formed text is refused with 1007, everything else is delivered, and then the connection ends if and only if the handler asks for it |
| Endings.HostIsHeeded | src/frame.c:448-451 | In every run a delivery at which the handler asks to close, or a lost pong, is the last event, and the connection is closed |
| Endings.EndedBecause | src/server.c:262-285 | Every ended connection ended with one byte of the stream: a close frame was sent, the host ended it, or a fragmented control frame began |
| Endings.HelloReceived | src/frame.c:16-478 | The masked text message and ping of section 5.7 of RFC 6455 are delivered and answered |
| Endings.UnmaskedRefused | src/frame.c:109-114 | The unmasked message of that section is refused with 1003 |
| Sessions.FrameReceived | src/frame.c:16-478 | The bytes of any masked frame, with any opcode, length form, key and payload, legal or not, have exactly the effect of the frame |
| Sessions.TooLargeIff | src/frame.c:185-189 | A data frame in order is refused with 1009 if and only if message and payload together exceed 104857600 bytes |
| Sessions.MessageInProgress | src/frame.c:51-101 | After any frames that leave the connection open, there is a message type if and only if the last data frame was not final; it is that of the first fragment, all later ones are continuations, and the stored message is their payloads |
| Sessions.PiecesReceived | src/frame.c:274-478 | From the middle of a message, any fragments and any pings and pongs between them deliver the whole message and answer each ping |
| Sessions.FragmentationDoesNotMatter | src/frame.c:388-459 | Where a message is cut into fragments changes nothing, not even the verdict on its text |
| Sessions.FramesReceived | src/server.c:252-287 | The bytes of any list of frames have the effect of the frames in turn |
| Sessions.MessagesReceived | src/frame.c:274-478 | Any list of legal messages is delivered in order, up to where the host ends the connection |
| Sessions.SessionRoundTrip | src/frame.c:274-478 | The same from the bytes, cut into chunks anyhow |
| Utf8.AutomatonCorrect | src/utf8.h:16-61 | The table accepts exactly the byte sequences of the grammar of section 4 of RFC 3629, at every length |
| Utf8.TableEntry | src/utf8.h:16-42 | Every entry of the 400 is the class, or the transition, the grammar needs |
| Utf8.RunExpects | src/utf8.h:49-58 | From each of the nine states, exactly the right continuations are accepted |
| Utf8.CharIffScalar | src/utf8.h:16-42 | The grammar's characters are exactly the encodings of scalar values: no overlong forms, surrogates or values above U+10FFFF |
| Utf8.RejectedPrefix | src/utf8.h:55-57 | Stopping at the reject state changes nothing: no continuation is well-formed |
| Utf8.WellFormedConcat | src/utf8.h:49-60 | After well-formed text the automaton is back at its beginning: what follows is judged on its own |
| Utf8.ValidateUtf8 | src/utf8.h:44-61 | True if and only if the text is well-formed |
| Outbound.LengthReadBack | src/frame.c:554-571 | The length field reads back as the size, whatever follows |
| Outbound.LengthIsShortest | src/frame.c:554-562 | No field that reads as the size is shorter than the one written |
| Outbound.EncodeIs | src/frame.c:552-573 | The three forms of a frame, octet by octet |
| Outbound.FirstByteIs | src/frame.c:492-553 | Text, binary, close, ping and pong frames begin with 129, 130, 136, 137 and 138, final and without reserved bits; outside a message with 255 |
| Outbound.FramesReadBack | src/frame.c:552-573 | The bytes of any list of frames read back as that list |
| Outbound.MessageReadBack | src/frame.c:522-573 | A message reads back whole, and as a data frame if and only if a message of the peer is in progress; otherwise with all reserved bits and opcode 15 |
| Outbound.ReplyFramesGrow | src/frame.c:489-509 | One more pong or close reply is one more frame, with first byte 138 or 136 and its payload; a delivery is none |
| Outbound.RepliesReadBack | src/frame.c:489-509 | The replies of any run are well-formed final control frames, one for each pong and close reply of the log, in order and with their payloads, and their bytes read back as these |
| Outbound.SubmittedGrow | src/frame.c:489-573 | One more request is one more frame, with the first byte of its opcode and its payload; a flush is none |
| Outbound.SubmittedReadBack | src/frame.c:489-573 | The bytes of any run of submissions read back as the frames submitted |
| Outbound.ConservedIff | src/server.c:348-392 | Nothing is lost, repeated or reordered by a call if and only if the answers of `send` offer to take everything before the first failure, or would block first, or fail at once with bytes queued |
| Outbound.SendAllIs | src/server.c:354-384 | What the send loop takes is what the answers before the first non-positive one offer, up to the size; it fails if and only if that is less than the size and the next answer is not that it would block |
| Outbound.EmptiedIff | src/server.c:365-375 | A call without failure leaves nothing pending if and only if everything is offered to be taken |
| Outbound.FrameCutShort | src/server.c:389-391 | A run in which a frame of two bytes loses one |
| Outbound.ByteRepeated | src/server.c:389-391 | A run in which a queued byte is sent twice |
| Outbound.RunConserves | src/server.c:315-393 | Over any run of calls each of which meets that condition, the bytes on the wire and those pending are the frames submitted, in order |
| Outbound.HarmLoses | src/server.c:315-393 | At the first call that does not, they are not |
| Outbound.PrefixUntilHarm | src/server.c:315-393 | Up to and including that call, the bytes on the wire are the beginning of what was submitted |
| Outbound.NoFailureNoHarm | src/server.c:377-388 | If `send` takes something or would block, every time, every call of every run meets the condition |
| Outbound.Sender.SendFrame | src/server.c:315-393 | Result, bytes taken, bytes pending and answers left are those the answers of `send` determine: the socket takes a prefix of pending bytes and frame, and the rest is pending, or on failure all that was queued; a pending buffer has unsent bytes, and write notification is on exactly when there is one |
| Outbound.Sender.Append | src/server.c:326-345 | Pending bytes and frame are joined in order, with nothing of them marked as sent |
| Outbound.Sender.SendLoop | src/server.c:354-363 | Exactly the bytes the answers determine are passed over, in order, and failure is 0 or an error other than that it would block |
| Outbound.Sender.SendPending | src/server.c:323-384 | Pending bytes are sent from where the last call stopped, with the determined result; the buffer goes when it is empty |
| Outbound.Sender.SendFresh | src/server.c:348-388 | What the socket does not take of a frame becomes pending, or on failure is forgotten, as the answers determine |
| Outbound.Sender.SendDataFrame | src/frame.c:522-582 | The bytes sent and queued, and the result, are those of sending the encoding of the message |
| Outbound.Sender.SendControlFrame | src/frame.c:489-520 | The bytes sent and queued, and the result, are those of sending the encoding of the control frame |
| Outbound.RunRequests | src/server.c:315-393 | Any run of messages, control frames and flushes, with any answers of `send` and their results ignored, ends in the state these determine; with a socket that never fails the bytes on the wire and those pending are the frames submitted, in order, and once nothing is pending the wire reads back as these |
| EventLoop.DeletedKeepsOthers | src/events.c:230-249 | Filling the hole with the last entry removes that descriptor and nothing else |
| EventLoop.AddedKeepsOthers | src/events.c:206-208 | Exactly one entry is added |
| EventLoop.NotifiedKeepsOthers | src/events.c:211-228 | Only the write flag of one descriptor changes |
| EventLoop.AmortisedBound | src/events.c:196-265 | Over any run of adds and deletes, doubling and halving move at most three entries per operation and 24 more |
| EventLoop.NeverSparse | src/events.c:251-264 | In every reachable state the array has its initial size of 16 or is at least a third full |
| EventLoop.ResizedIff | src/events.c:196-264 | It doubles exactly when it is full before an addition, and halves exactly when it is larger than 16 and less than a third full after a deletion; then all that is kept is moved, and else nothing |
| EventLoop.AddPaid | src/events.c:196-209 | An add keeps count <= size, at least a third of a grown array in use, a size of 16 times a power of two, and the potential paid for |
| EventLoop.DeletePaid | src/events.c:246-264 | So does a delete |
| EventLoop.EventArray.AddToEventLoop | src/events.c:196-209 | The array holds the old entries and the new one, at the cost of the model |
| EventLoop.EventArray.SetWriteNotify | src/events.c:211-228 | The first entry of the descriptor is changed, if there is one |
| EventLoop.EventArray.DeleteFromEventLoop | src/events.c:230-265 | The array holds the entries with the hole filled, at the cost of the model; an unknown descriptor changes nothing |
| EventLoop.EventArray.Find | src/events.c:212-221 | The search loop finds the first entry, or the end |
| ClientTable.Table.InitClient | src/clients.c:8-36 | The table stands for the old clients with the new one first, also when its descriptor is in use; the new one is at the start of its protocol |
| ClientTable.Table.GetClient | src/clients.c:38-57 | The answer is the latest client with this descriptor, for every descriptor |
| ClientTable.Table.DeleteClient | src/clients.c:88-125 | The clients lose this one, if it is there, and nothing else |
| ClientTable.RunIsMap | src/clients.c:8-125 | After any run of initialisations and deletions in which no descriptor is in use twice, looking up any descriptor gives what the finite map has for it |
| ClientTable.RemovedKeepsOthers | src/clients.c:88-125 | Deleting a client leaves what is found for every other descriptor |
| ClientTable.HiddenUntilRemoved | src/clients.c:30-34 | A second client with the same descriptor is found instead of the first until it is deleted |
| ClientTable.LookupInBucket | src/clients.c:42-50 | Searching the bucket of a descriptor finds what searching all clients would |
| ClientTable.RemovedBucket | src/clients.c:89-118 | Deleting a client changes its own bucket only |
| ClientTable.PushRefines | src/clients.c:30-34 | Head insertion of any new node keeps every list equal to its bucket of the clients, latest first |
| ClientTable.RemoveRefines | src/clients.c:99-118 | Taking the first node of a client out of its list keeps every list equal to its bucket, without that client |
| ClientTable.Relink | src/clients.c:109-118 | The list without the node still links all the others, in order |
| Base64.DecodeEncode | src/base64.h:17-36 | Decoding the encoder's output by section 4 of RFC 4648 returns the input, at every length |
| Base64.EncodeDecode | src/base64.h:17-36 | And every text that decodes is the encoding of what it decodes to |
| Base64.EncodeLength | src/base64.h:18-35 | The output has 4 * ceil(n / 3) characters, padding only in the last two places and as much as required |
| Base64.ShortVectors | src/base64.h:17-36 | "f" and "fo" of section 10 of RFC 4648 |
| Base64.LongVector | src/base64.h:17-36 | "foobar" of that section |
| Base64.Base64Encode | src/base64.h:17-36 | Both loops together write the encoding and nothing behind it |

## Left out

- Extensions: a client negotiates none (`indices_count == 0`), so
  `src/frame.c:401-439`, `src/frame.c:531-551`, `src/extension.c` and
  `src/permessage-deflate.c` are not modelled, nor are the `rsv` fields, which
  are then never set.
- The HTTP upgrade: `src/header.c` and `handle_upgrade`; a connection starts with
  a fresh client.
- Sockets, clocks and `errno`: `recv` and `send` follow an arbitrary script of
  results; the message handler and the loss of a pong are arbitrary functions of
  what has happened so far. A handler's request to close is
  `Host.wantsClose`; the status field itself is not kept.
- Handlers that call back into the same client's receive path: not modelled.
- The inbound log and the outbound queue are two models. `Host.pongLost` stands
  for `send_frame` failing on a pong, and `Outbound.RepliesReadBack` takes the
  replies of a run to their bytes.
- Allocation always succeeds. `realloc` is a new array with a copy, and freeing
  is forgetting; double frees and leaks are not expressed.
- `char` is a signed byte, so that `byte > CHAR_MAX` is `byte >= 128`. Machine
  integers are ranges of `int`, and every assignment to one is proved to fit.
- The test whether the receive pointer lies in the message buffer
  (`src/frame.c:340`) is a test for the same array and an index inside it.
- C functions are cut into smaller methods; the order of their effects is kept.
- Outbound.Sender.SendFrame: requires less than 2^63 bytes in the queue, the range of the signed sizes
  in `src/server.c:319-321`.
- Outbound.Sender.SendControlFrame: requires at most 125 bytes, which every caller keeps; more would be
  cut off by the 7-bit length.
- ClientTable.RunIsMap: requires that no descriptor is in use twice, as the one caller of
  `init_client` makes sure (`src/server.c:21-24`); the methods themselves do not.
- EventLoop.AddedKeepsOthers: requires a descriptor without an entry; the operating system does not
  hand out an open descriptor twice.
- Base64.Base64Encode: lengths are unbounded, where `src/base64.h:18-20` uses `int`.
- The epoll and kqueue variants of `src/events.c`, printing, `src/net.c`,
  `src/handlers.c` and `src/nitrows.c`.
- `get_reply_code` and `are_rsv_bits_valid` on their own: one switch and one
  conjunction, used inside the statements above.
