# TN5250 receive path and message codec

This project models how the library turns a TCP byte stream into 5250 events,
and how it reads and writes 5250 messages, and proves what those parts promise.

- **Telnet and EOR framing** (`ProtocolHandler`, with `HandlerSpec` as its
  specification). A lexer takes one token at a time off the receive buffer:
  data, doubled and undoubled 0xFF, subnegotiation bytes, commands. Each token
  has an effect on the handler. `HandlerRuns` proves what every run keeps,
  `HandlerCuts` when the reads matter, `HandlerTokens` how any stream divides,
  `HandlerReplies` what is answered, `HandlerStates` which states are reported,
  `HandlerFraming`, `HandlerStream` and `HandlerSeed` what a receiver recovers,
  and `HandlerTolerance` exactly how far its tolerance goes.
- **A second Telnet parser** (`TelnetClient`, `TelnetClientProofs`,
  `TelnetClientUnits`), a six-state automaton. `Agreement` proves when the two parsers deliver the same.
- **GDS records** (`Gds`): the chain of length fields in one EOR-delimited
  block and its repair (section 3 of RFC 1205).
- **The 5250 decoder** (`Decoder`, `DecoderSpec`, `DecoderProofs`): the framing
  loop that resynchronises on lengths, and the walk that divides a payload into
  pieces; reports and display are functions of the pieces. `DecoderRecords`
  prints records byte by byte beside the callbacks they must lead to, and
  `DecoderCover` shows that every record is such a printout.
- **The codec** (`Orders`, `Messages` and their `...Spec` and `...Proofs`
  modules): marshal and unmarshal of orders, commands and messages. `OrderGaps`
  and `MessagePayloads` tell from the bytes what any buffer and any message is
  read as.
- **End to end** (`EndToEnd`): sender, handler and decoder together.

Each source class is a class with the same fields and loops. Its callbacks are
appended to a ghost trace, and each method is proved equal to a function of the
old state. The theorems are about those functions. A loop body or loop of a
long source function may be a method of its own.

`processed`, a local that a lambda of `processTelnetData` changes, is a field
here, empty between reads. Orders and commands are held by value, as in the
source's `std::variant`.

What the code does where its comments, or a reader, might expect otherwise:

- Until the handshake is complete, and no longer, how the stream is cut can
  change what is data and what is a command (`HandlerCuts.CutFreeExactly`). As
  long as END-OF-RECORD is not negotiated it cannot even then.
- A doubled 0xFF inside a subnegotiation becomes application data; between
  records it opens the next record (`HandlerTolerance.SubnegotiationSpills`).
- A server seed with a byte 0x00 to 0x03 or 0xFF is not recovered, although the
  host escapes it: the scan does not undo the escaping of RFC 1572, and the
  subnegotiation never holds a 0xFF.
- The display filter is not idempotent on every payload
  (`DecoderProofs.TriggerShownTwice`).
- `Decoder::reset` leaves the waiting bytes in place.
- The decoder wants at least one byte after the variable header;
  `Message::unmarshal` does not.
- A structured field whose length has the high byte 0x04 ends the field list.
- `message.h` says that `recordLength` does not count its own two bytes; the
  code counts them, as the decoder does. `Message::unmarshal` ignores the value.
- An unknown command takes the rest of the message and leaves a default Clear
  Screen; `Message::unmarshal` appends to the commands already there.
- The decoder and the codec read the length of a start field differently and
  know different orders; nothing here says that they agree on orders.

## Model

| member | source | states |
|---|---|---|
| HandlerRuns.Conservation | tn5250/client/protocol_handler.cpp:66-177 | In every run from construction, over any list of calls: the wire bytes of the tokens consumed and then the unread buffer are exactly the bytes received; the bytes passed to `appendData` are exactly the delivered blocks before repair and then the record in progress; the handshake buffer is empty between calls; a non-empty record buffer means framing is on; a block differs from its bytes only by length repair |
| HandlerRuns.HandshakeSafety | tn5250/client/protocol_handler.cpp:217-275 | In every run `onConnected` fires at most once and exactly when the handshake has completed, every delivery comes after it, and completion implies binary mode and a terminal type sent or data received |
| HandlerRuns.CompleteExactly | tn5250/client/protocol_handler.cpp:472-497 | Between calls the handshake is complete if and only if the terminal type has been sent or application data has been received |
| HandlerRuns.NothingReverts | tn5250/client/protocol_handler.cpp:46-58 | Over any further calls no flag is lowered and no history lost; a completed handler never reports a second connection, not even after its socket is reopened |
| HandlerRuns.ApplyKeeps | tn5250/client/protocol_handler.cpp:88-153 | One token keeps all run invariants and is taken off the wire exactly once |
| HandlerFraming.ChunkIndependence | tn5250/client/protocol_handler.cpp:66-167 | Once framed, any cutting into reads gives the same fields, unread tail and full history as one read |
| HandlerFraming.DrainAppend | tn5250/client/protocol_handler.cpp:88-157 | The token loop can be interrupted at any byte and resumed, in any state |
| HandlerFraming.BareTolerance | tn5250/client/protocol_handler.cpp:95-136 | A framed receiver recovers a non-empty record whose 0xFF bytes are each doubled or bare, a bare one being followed by a byte other than 0xFF and 0xEF and, at the start of the record, below 0xEF; under any cutting it is one delivery of the repaired record |
| HandlerTolerance.RecoveredExactly | tn5250/client/protocol_handler.cpp:95-136 | A framed receiver recovers a record from an encoding whose every bare 0xFF stands before a byte other than 0xFF, under any cutting, if and only if no bare one stands before 0xEF and none that starts the record stands before 0xEF to 0xFE |
| HandlerTolerance.BareAtStartLost | tn5250/client/protocol_handler.cpp:107-148 | At the start of a record a bare 0xFF before any of 0xEF to 0xFE is consumed as that command, with its option byte if it takes one, and no data results; 0xFA opens a subnegotiation |
| HandlerTolerance.BareBeforeEorSplits | tn5250/client/protocol_handler.cpp:129-134 | A bare 0xFF before 0xEF inside a record delivers the record so far |
| HandlerTolerance.SubnegotiationSpills | tn5250/client/protocol_handler.cpp:95-98 | A record behind a subnegotiation is delivered with the 0xFF bytes of the subnegotiation in front, so as it was sent if and only if there are none |
| HandlerFraming.SenderReceiver | tn5250/client/protocol_handler.cpp:338-373 | What any handler sends for a list of `sendGDS` calls with payloads up to 65525 bytes, cut anywhere, reaches a framed receiver as exactly those records, one delivery each, in order, unrepaired |
| HandlerFraming.NegotiationFrames | tn5250/client/protocol_handler.cpp:226-230 | Offering END-OF-RECORD and asking for the terminal type makes any handler with clean buffers a framed receiver |
| HandlerStream.RecordsAmongCommands | tn5250/client/protocol_handler.cpp:88-177 | From any interleaving of tolerably encoded records and Telnet commands, under any cutting, a framed receiver delivers exactly the records, repaired, one each and in order, and is ready again |
| HandlerCuts.CutFreeExactly | tn5250/client/protocol_handler.cpp:66-167 | In every state a run can reach: what the handler makes of streams (elements, unread tail, open subnegotiation, server seed) is the same for every cutting into reads if and only if the handshake is complete |
| HandlerCuts.CompleteChunkIndependence | tn5250/client/protocol_handler.cpp:75-157 | Once the handshake is complete no cutting matters, also where END-OF-RECORD is negotiated in mid-stream and framing starts; a record is open after all cuttings or after none |
| HandlerCuts.CutMattersBeforeHandshake | tn5250/client/protocol_handler.cpp:75-110 | Before the handshake completes, one cut turns a command behind two data bytes into two data bytes, for all such bytes |
| HandlerCuts.RunDrained | tn5250/client/protocol_handler.cpp:88-157 | Between calls of any run the receive buffer holds no complete token |
| HandlerSeed.SeedRecovered | tn5250/client/protocol_handler.cpp:286-308 | A seed sent in a NEW-ENVIRON request, which may go on to ask for all variables, escaped as RFC 1572 and RFC 855 ask and cut into reads anywhere, is the seed the handler then holds if and only if it has no byte 0x00 to 0x03 and no 0xFF |
| HandlerSeed.SubnegotiationCuts | tn5250/client/protocol_handler.cpp:88-153 | However one subnegotiation is cut into reads, and whether or not the handshake completes meanwhile, the handler makes the same of it |
| HandlerSeed.LastSeedWins | tn5250/client/protocol_handler.cpp:287-306 | From any list of variables, named or not, the scan takes the seed of the last VAR or USERVAR name that starts with IBMRSEED and goes on, and passes over the text of values |
| HandlerTokens.StreamDivided | tn5250/client/protocol_handler.cpp:88-153 | Any stream without an offer of END-OF-RECORD, malformed commands included, in any reads: the handler reads the tokens its bytes divide into (a 0xFF before a byte below 0xEF being data outside a subnegotiation) and leaves an unfinished one waiting |
| HandlerTokens.EveryStream | tn5250/client/protocol_handler.cpp:88-153 | Every stream divides into such tokens and at most one unfinished one |
| HandlerTokens.OneBlockPerRead | tn5250/client/protocol_handler.cpp:159-166 | Without framing, a read delivers exactly the application bytes it brought, as one block, or nothing if it brought none, also when it completes the handshake |
| HandlerReplies.RepliesFollow | tn5250/client/protocol_handler.cpp:217-316 | Whatever arrives in whatever reads, everything sent is the answers to the elements read, in order and once each, with the option codes written out, and the seed a NEW-ENVIRON reply carries; END-OF-RECORD offers and nothing else raise `eor`; BINARY offers and the completed handshake and nothing else raise binary mode |
| HandlerReplies.OptionsAnswered | tn5250/client/protocol_handler.cpp:217-316 | From any well-formed commands and subnegotiations outside a record, in any state of the handshake and any reads, exactly their answers are sent, in order: WILL gets DO for 0, 1, 3, 25 and DONT otherwise, DO gets WILL for 0, 24, 25, 39 and WONT otherwise, WONT and DONT get none; flags and seed end as they ask |
| HandlerReplies.OptionsAmongData | tn5250/client/protocol_handler.cpp:217-316 | The same for streams with application data while END-OF-RECORD is not negotiated |
| HandlerReplies.QuietCuts | tn5250/client/protocol_handler.cpp:88-166 | Reads that bring no application data may be cut anywhere, in every state: all fields and the whole history come out the same |
| HandlerReplies.OpeningSent | tn5250/client/protocol_handler.cpp:377-382 | Opening the connection sends DO and WILL for BINARY and then for END-OF-RECORD, in bytes |
| HandlerReplies.DataSentAsPutGet | tn5250/client/protocol_handler.cpp:318-336 | `sendData` is `sendGDS` of opcode 3 without flags |
| HandlerStates.CallMoves | tn5250/client/protocol_handler.cpp:39-58 | Every call leaves the handler Negotiating, Disconnected, Connected if its bytes completed the handshake, or where it was, and reports that exactly if it is a change |
| HandlerStates.RunTellsStates | tn5250/client/protocol_handler.cpp:39-44 | In every run the state is the one last reported, and every report was a change |
| Agreement.ChunkIndependence | tn5250/client/protocol_handler.cpp:88-166 | If END-OF-RECORD is not negotiated by the end of a stream, the elements lexed, the unread tail, the open subnegotiation and the server seed do not depend on the cutting, even across the handshake |
| Agreement.HandlerOnStream | tn5250/client/protocol_handler.cpp:88-153 | On every well-formed stream without END-OF-RECORD the handler lexes each element, a 0xFF of a subnegotiation coming out as application data ahead of it |
| Agreement.ParsersAgree | tn5250/telnet/client.cpp:43-109 | On every such stream, cut in any two ways, the handler lexes and handles the elements the client reports, in the same order, if and only if no subnegotiation carries a 0xFF |
| Agreement.CallbacksAgree | tn5250/client/protocol_handler.cpp:88-166 | On every such stream, cut in any two ways, the bytes the handler has delivered between calls are those the client has reported as application data if and only if no subnegotiation carries a 0xFF; the subnegotiations acted on are then the same too |
| Agreement.ApplyScans | tn5250/client/protocol_handler.cpp:122-152 | What a token reports and its effect on subnegotiation state depend on nothing but that state and the token |
| EndToEnd.NoStall | tn5250/client/decoder.cpp:31-46 | A decoder with an empty buffer takes a repaired block apart at its chain boundaries, skipping and keeping nothing, if and only if the chain of the block as received closes or its tail is a 12A0 record of 10 to 65535 bytes |
| EndToEnd.NoBleeding | tn5250/client/decoder.cpp:28-46 | Blocks that their lengths tile are decoded each as if alone, and the decoder's buffer is empty after them |
| EndToEnd.SentIsDecoded | tn5250/client/protocol_handler.cpp:338-373 | From `sendGDS` through a cut stream, a framed handler and a decoder: each message's opcode and payload are reported in order and the decoder is left empty |
| EndToEnd.SentHeaderRead | tn5250/message/message.cpp:29-69 | The message codec reads the header of a record sent as its own length, type 12A0, the flags and the opcode given |
| Gds.PartsAndTail | tn5250/client/protocol_handler.cpp:183-190 | The records of the length chain and the tail where it breaks are the whole block, in order |
| Gds.RepairChain | tn5250/client/protocol_handler.cpp:196-205 | The repaired block is the old chain followed by its tail as one more record |
| Gds.RepairTilesExactly | tn5250/client/protocol_handler.cpp:191-205 | The repaired block is tiled by its lengths if and only if the block was, or its tail is a 12A0 record of 10 to 65535 bytes |
| Gds.RepairIsLocal | tn5250/client/protocol_handler.cpp:202-205 | Repair keeps the size and changes at most the two length bytes at the chain break |
| Gds.RepairIdempotent | tn5250/client/protocol_handler.cpp:179-206 | Repairing twice is repairing once |
| Gds.RecordTiles | tn5250/client/protocol_handler.cpp:338-355 | A record built from a payload up to 65525 bytes names its own length and is one link |
| Gds.OneLinkExactly | tn5250/client/protocol_handler.cpp:338-355 | The record built from a payload is, after the receiver's repair, one link of the length chain if and only if the payload has at most 65525 bytes |
| ProtocolHandler.ProtocolHandler.constructor | tn5250/client/protocol_handler.cpp:33-37 | The state every run starts from |
| ProtocolHandler.ProtocolHandler.SetState | tn5250/client/protocol_handler.cpp:39-44 | A state change is reported only when the state differs |
| ProtocolHandler.ProtocolHandler.OnSocketConnected | tn5250/client/protocol_handler.cpp:46-49 | Refines the call of the run model |
| ProtocolHandler.ProtocolHandler.OnBytesReceived | tn5250/client/protocol_handler.cpp:51-53 | Refines the call of the run model |
| ProtocolHandler.ProtocolHandler.OnSocketDisconnected | tn5250/client/protocol_handler.cpp:55-58 | Refines the call of the run model |
| ProtocolHandler.ProtocolHandler.AppendData | tn5250/client/protocol_handler.cpp:75-86 | Data goes to the record buffer behind earlier data of the read when framing, else to the read |
| ProtocolHandler.ProtocolHandler.ProcessTelnetData | tn5250/client/protocol_handler.cpp:66-167 | A read drains every complete token and then delivers or keeps the rest |
| ProtocolHandler.ProtocolHandler.DrainReceiveBuffer | tn5250/client/protocol_handler.cpp:88-157 | The index-driven loop consumes exactly the complete tokens and erases their bytes |
| ProtocolHandler.ProtocolHandler.ConsumeToken | tn5250/client/protocol_handler.cpp:88-153 | One turn consumes the token the lexer finds and applies its effect, or waits |
| ProtocolHandler.ProtocolHandler.ConsumeIac | tn5250/client/protocol_handler.cpp:91-145 | The same for a turn that starts at IAC |
| ProtocolHandler.ProtocolHandler.ConsumeStandalone | tn5250/client/protocol_handler.cpp:122-139 | SE closes a subnegotiation, EOR flushes a record when framing, other commands do nothing |
| ProtocolHandler.ProtocolHandler.EndRead | tn5250/client/protocol_handler.cpp:159-166 | Left-over data is delivered, or completes the handshake and is delivered then |
| ProtocolHandler.ProtocolHandler.FlushRecord | tn5250/client/protocol_handler.cpp:169-177 | A non-empty record buffer becomes one delivery of its repaired form |
| ProtocolHandler.ProtocolHandler.RepairGdsRecordLength | tn5250/client/protocol_handler.cpp:179-206 | The patched copy is the repair of the block |
| ProtocolHandler.ProtocolHandler.WalkChain | tn5250/client/protocol_handler.cpp:183-190 | The loop stops where the chain of length fields breaks |
| ProtocolHandler.ProtocolHandler.SendTelnetCommand | tn5250/client/protocol_handler.cpp:208-215 | Sends IAC, command, option |
| ProtocolHandler.ProtocolHandler.HandleTelnetCommand | tn5250/client/protocol_handler.cpp:217-275 | Each option is answered and raises its flag as specified; SB opens a subnegotiation |
| ProtocolHandler.ProtocolHandler.HandleSubnegotiation | tn5250/client/protocol_handler.cpp:277-316 | The reply and the seed of a subnegotiation |
| ProtocolHandler.ProtocolHandler.ReadServerSeed | tn5250/client/protocol_handler.cpp:286-308 | The scan loop finds the last IBMRSEED name's seed |
| ProtocolHandler.ProtocolHandler.FindNameEnd | tn5250/client/protocol_handler.cpp:292-298 | The inner loop finds the end of a name |
| ProtocolHandler.ProtocolHandler.SendData | tn5250/client/protocol_handler.cpp:318-336 | Sends a put/get record, framed |
| ProtocolHandler.ProtocolHandler.SendGDS | tn5250/client/protocol_handler.cpp:338-356 | Sends the record of its arguments, framed |
| ProtocolHandler.ProtocolHandler.SendRawData | tn5250/client/protocol_handler.cpp:358-373 | Sends the data with 0xFF doubled, then IAC EOR |
| ProtocolHandler.ProtocolHandler.EscapeRecord | tn5250/client/protocol_handler.cpp:359-370 | The loop doubles every 0xFF and appends IAC EOR |
| ProtocolHandler.ProtocolHandler.PerformHandshake | tn5250/client/protocol_handler.cpp:377-382 | The four opening commands, in order |
| ProtocolHandler.ProtocolHandler.SendDeviceName | tn5250/client/protocol_handler.cpp:384-399 | Records the reply, raises both flags and checks the handshake |
| ProtocolHandler.ProtocolHandler.ProcessHandshakeData | tn5250/client/protocol_handler.cpp:472-477 | Data before completion raises binary mode and checks the handshake |
| ProtocolHandler.ProtocolHandler.CheckHandshakeComplete | tn5250/client/protocol_handler.cpp:479-497 | Completes at most once, then delivers what was held back |
| TelnetClientProofs.ChunkIndependence | tn5250/telnet/client.cpp:43-109 | However the stream is cut, the client says the same and ends in the same automaton state |
| TelnetClientProofs.PrintParse | tn5250/telnet/client.cpp:43-109 | The printed form of any list of elements, cut anywhere, is reported back as exactly that list up to merging adjacent data |
| TelnetClientProofs.PrintInjective | tn5250/telnet/client.cpp:43-109 | Two different lists of elements never share a printed form |
| TelnetClientProofs.RunKeepsValid | tn5250/telnet/client.cpp:46-53 | Application data is pending only in the Data state, so it is always reported ahead of a later command |
| TelnetClientProofs.RunEscaped | tn5250/telnet/client.cpp:85-105 | Doubled bytes inside a subnegotiation are collected undoubled |
| TelnetClientUnits.StreamDivided | tn5250/telnet/client.cpp:43-109 | Any stream, malformed commands included, in any reads: the client reports exactly what the units say that its bytes divide into, and nothing of an unfinished one; 0xFF before another byte than 0xFF and SE inside a subnegotiation is dropped with it |
| TelnetClientUnits.EveryStream | tn5250/telnet/client.cpp:43-109 | Every stream divides into such units and at most one unfinished one |
| TelnetClient.Client.constructor | tn5250/telnet/client.cpp:21-24 | The initial state |
| TelnetClient.Client.FlushAppData | tn5250/telnet/client.cpp:30-35 | Reports pending data if there is any |
| TelnetClient.Client.Reset | tn5250/telnet/client.cpp:37-41 | Returns to Data with both buffers empty |
| TelnetClient.Client.Feed | tn5250/telnet/client.cpp:43-109 | The per-byte loop is the automaton run over the data and then a flush |
| DecoderProofs.PiecesTile | tn5250/client/decoder.cpp:104-398 | The pieces of a payload, joined, are the payload |
| DecoderProofs.NothingLeaks | tn5250/client/decoder.cpp:103-403 | The display is the shown pieces in order, each lies in a Write To Display body, and every piece is of the kind that the payload bytes from it on announce; no other byte reaches it |
| DecoderRecords.BodyRead | tn5250/client/decoder.cpp:222-347 | A body printed byte by byte from orders, characters, start-of-headers, structured fields and STRPCCMD requests, the last one cut off by the end of the payload or not, shows exactly the orders and characters, reports exactly its headers and requests, and ends right behind the last item |
| DecoderRecords.PayloadRead | tn5250/client/decoder.cpp:103-398 | A payload printed byte by byte from commands leads to exactly the callbacks written out for each, and shows exactly the shown items of its bodies |
| DecoderRecords.RecordsRead | tn5250/client/decoder.cpp:28-405 | Any list of records, printed from opcode and commands and cut into reads anywhere, fires exactly the callbacks written out for them, in order, and leaves the buffer empty |
| DecoderRecords.OddRecords | tn5250/client/decoder.cpp:48-71 | What is reported of a record that is too short, of another type, or has a bad variable header |
| DecoderCover.EveryBody | tn5250/client/decoder.cpp:222-347 | Every body is printed from such items, up to the next ESC or the end |
| DecoderCover.EveryPayload | tn5250/client/decoder.cpp:103-398 | Every payload is printed from such commands |
| DecoderCover.ShownExactly | tn5250/client/decoder.cpp:103-403 | The display and the reports of any payload are those of the commands it is printed from |
| DecoderCover.EveryRecord | tn5250/client/decoder.cpp:48-405 | What is reported of any 12A0 record with a sound header is what is written out for its printout |
| DecoderProofs.FilterIdempotent | tn5250/client/decoder.cpp:214-349 | Wrapping the display of any payload as one Write To Display body and decoding again shows the same if and only if no tail of the shown pieces, joined, starts with the STRPCCMD marker; nothing but that command's own header is then reported |
| DecoderProofs.IdempotentWithoutTrigger | tn5250/client/decoder.cpp:214-349 | So it shows the same whenever the display has no 0x80 |
| DecoderProofs.NoTriggerNoTrigger | tn5250/client/decoder.cpp:273-276 | A payload without 0x80 has a display without 0x80 |
| DecoderProofs.TriggerShownTwice | tn5250/client/decoder.cpp:273-323 | A payload where it does not: text kept apart by a start-of-header is shown once and taken as a command the second time |
| DecoderProofs.FieldsReachCallback | tn5250/client/decoder.cpp:184-213 | Structured fields reach the callback whole, embedded 0x04 bytes kept, and parsing resumes right after them, if and only if no length has the high byte 0x04 |
| DecoderProofs.FieldsWalk | tn5250/client/decoder.cpp:195-206 | The length walk ends where the fields end under that same condition |
| DecoderProofs.CuttingsTile | tn5250/client/decoder.cpp:32-46 | The framing loop takes every byte off once, in order, or leaves it waiting |
| DecoderProofs.ChunkIndependence | tn5250/client/decoder.cpp:28-46 | Callbacks and waiting bytes do not depend on the cutting, one-byte resynchronisation included |
| DecoderProofs.TilesExactly | tn5250/client/decoder.cpp:33-46 | A block is cut without a skipped or a waiting byte if and only if its lengths tile it, and then at those boundaries |
| Decoder.Decoder.constructor | tn5250/client/decoder.cpp:25-26 | Waiting for a command, empty buffer, no callbacks fired |
| Decoder.Decoder.Reset | tn5250/client/decoder.cpp:409 | Sets the parser state, and leaves buffer and history alone |
| Decoder.Decoder.ParseData | tn5250/client/decoder.cpp:28-407 | The framing loop takes off the cuttings of the buffer, reports them in order and keeps the remainder |
| Decoder.Decoder.FrameTurn | tn5250/client/decoder.cpp:33-46 | One turn waits, skips one byte or takes one record |
| Decoder.Decoder.ProcessRecord | tn5250/client/decoder.cpp:48-78 | The header checks, in order, and what each failure reports |
| Decoder.Decoder.ProcessOpcode | tn5250/client/decoder.cpp:80-405 | What each opcode reports |
| Decoder.Decoder.WalkPayload | tn5250/client/decoder.cpp:103-398 | The walk ends, indexes in range, reports the events of the pieces and returns their display |
| Decoder.Decoder.TopTurn | tn5250/client/decoder.cpp:105-397 | One turn handles the first piece of what is left, or stops at a truncated end |
| Decoder.Decoder.Command | tn5250/client/decoder.cpp:107-213 | A command other than Write To Display is consumed and reported as its piece |
| Decoder.Decoder.ErrorCode | tn5250/client/decoder.cpp:118-128 | Error text up to the next ESC |
| Decoder.Decoder.Roll | tn5250/client/decoder.cpp:129-148 | The short and the long form of a roll command |
| Decoder.Decoder.StructuredFields | tn5250/client/decoder.cpp:184-213 | The walked fields are handed over, after an error report if a length is bad |
| Decoder.Decoder.ReadToEsc | tn5250/client/decoder.cpp:119-125 | The loop reads exactly the bytes before the next ESC |
| Decoder.Decoder.WalkFields | tn5250/client/decoder.cpp:193-206 | The loop stops where the fields' walk does and knows whether a length was bad |
| Decoder.Decoder.StartOfHeader | tn5250/client/decoder.cpp:226-239 | The header's extent, cut at the payload's end, and the keys its length covers |
| Decoder.Decoder.TopHeader | tn5250/client/decoder.cpp:371-384 | The same outside any command |
| Decoder.Decoder.WriteToDisplay | tn5250/client/decoder.cpp:214-349 | Control characters, keyboard unlock and then the body |
| Decoder.Decoder.WalkBody | tn5250/client/decoder.cpp:222-347 | The body loop reports and shows exactly the body's pieces and stops at ESC or the end |
| Decoder.Decoder.BodyTurn | tn5250/client/decoder.cpp:224-345 | One turn takes one body piece |
| Decoder.Decoder.OrderLength | tn5250/client/decoder.cpp:240-345 | The extent of an order or character, cut at the payload's end |
| Decoder.Decoder.PcCommand | tn5250/client/decoder.cpp:273-323 | The wait flag and command of a STRPCCMD request |
| Decoder.Decoder.ReadPrintable | tn5250/client/decoder.cpp:310-316 | The loop stops after 123 bytes, at the first byte below 0x40 or at the end |
| Decoder.Decoder.StartField | tn5250/client/decoder.cpp:324-342 | The extent of a start field with its control words, as truncation leaves it |
| OrderProofs.ListRoundTrip | tn5250/message/command/order/order.cpp:127-165 | Any list of well-formed orders is read back from its wire form |
| OrderProofs.OrderRoundTrip | tn5250/message/command/order/order.cpp:32-118 | A well-formed order in front of another, or of the end, is read back whole |
| OrderProofs.SfRoundTrip | tn5250/message/command/order/orders/order_sf_start_field.cpp:28-129 | A start field is read back from in front of anything |
| OrderProofs.WordsRoundTrip | tn5250/message/command/order/orders/order_sf_start_field.cpp:55-66 | Control words are read back up to the attribute byte |
| OrderProofs.Canonicalisation | tn5250/message/command/order/order.cpp:127-165 | For every buffer, writing what was read and reading it again gives the same orders up to the length of a truncated last start field, and writing once more gives the same bytes |
| OrderProofs.ParsedIsCanonical | tn5250/message/command/order/orders/order_sf_start_field.cpp:28-97 | Every order read is well-formed but for the length of a start field that the buffer's end cuts off |
| OrderGaps.GapsSkipped | tn5250/message/command/order/order.cpp:143-161 | Orders printed byte by byte, with gaps free of order codes in front, between and behind, are read as exactly those orders |
| OrderGaps.ShortOrderFails | tn5250/message/command/order/order.cpp:153-158 | One order at the end with too few bytes, and no order of the buffer is returned |
| OrderGaps.ShortExactly | tn5250/message/command/order/order.cpp:32-118 | Which bytes behind an order code are too few, for a start field by where its attribute byte stands |
| OrderGaps.EveryBuffer | tn5250/message/command/order/order.cpp:127-165 | Every buffer is gaps and orders in turn and a last gap, with or without a short order behind it |
| OrderGaps.ReadExactly | tn5250/message/command/order/order.cpp:127-165 | A buffer is read as a list of orders if and only if it holds them, each behind a gap, and then a last gap |
| Orders.SetBufferAddress.Unmarshal | tn5250/message/command/order/orders/order_sba_set_buffer_address.cpp:28-71 | The fields and the bytes read; the text loop stops at the next order code |
| Orders.SetBufferAddress.Marshal | tn5250/message/command/order/orders/order_sba_set_buffer_address.cpp:79-86 | The wire form of the fields |
| Orders.StartField.Unmarshal | tn5250/message/command/order/orders/order_sf_start_field.cpp:28-97 | The fields and the bytes read, or failure and the fields overwritten by then |
| Orders.StartField.ReadControlWords | tn5250/message/command/order/orders/order_sf_start_field.cpp:55-66 | The loop takes pairs up to the attribute byte |
| Orders.StartField.Marshal | tn5250/message/command/order/orders/order_sf_start_field.cpp:105-129 | The wire form of the fields, the text's length truncated to 16 bits |
| Orders.UnmarshalOrder | tn5250/message/command/order/order.cpp:32-118 | The dispatch reads the order its first byte names, or fails |
| Orders.UnmarshalAll | tn5250/message/command/order/order.cpp:127-165 | The loop returns the orders of the buffer, or none if one fails |
| Orders.SkipToOrder | tn5250/message/command/order/order.cpp:145-151 | The inner loop stops at the next order code or the end |
| MessageProofs.MessageRoundTrip | tn5250/message/message.cpp:29-159 | For any encodable message with sound commands, reading back what was written consumes every byte and restores it, lengths as written, if and only if no Write To Display stands in front of another command |
| MessageProofs.CommandsRoundTrip | tn5250/message/message.cpp:71-90 | A list of commands with at most a last Write To Display is read back |
| MessageProofs.ParsedWtdLast | tn5250/message/command/commands/command_wtd_write_to_display.cpp:65-84 | A Write To Display swallows the rest, so no command is ever read after one |
| MessagePayloads.MessageRead | tn5250/message/message.cpp:29-93 | Any header and payload read into any message: header fields stored, commands appended to those there; an unknown command takes all that is left and leaves a Clear Screen without a code; a refused ending fails and keeps the commands before it |
| MessagePayloads.RejectedExactly | tn5250/message/message.cpp:29-93 | A buffer is rejected if and only if its header is too short, its variable header is shorter than 4 or cut off, or its payload ends, after short commands, in text that starts no command, a cut-off command or a body that yields no order |
| MessagePayloads.EveryPayload | tn5250/message/message.cpp:70-92 | Every payload is short commands and one such ending |
| MessageProofs.DecoderFramesMessage | tn5250/client/decoder.cpp:33-78 | The decoder cuts a marshalled 12A0 message as exactly one record and takes it with the same opcode and payload offset if and only if it has a command |
| Messages.CommandWtdWriteToDisplay.Unmarshal | tn5250/message/command/commands/command_wtd_write_to_display.cpp:28-87 | The fields and orders read, or failure and the fields overwritten by then |
| Messages.CommandWtdWriteToDisplay.Marshal | tn5250/message/command/commands/command_wtd_write_to_display.cpp:95-113 | The loop writes the header and then each order, and gives up at the first order if an error text was already set |
| Messages.UnmarshalCommand | tn5250/message/command/command.cpp:21-75 | The dispatch; failure and unknown codes leave the caller's command alone, whatever it was |
| Messages.Message.UnmarshalHeader | tn5250/message/header/header.cpp:33-45 | The three fixed header fields, or failure |
| Messages.Message.Unmarshal | tn5250/message/message.cpp:29-93 | The bytes read and every field, also the fields left by each failure |
| Messages.Message.UnmarshalCommands | tn5250/message/message.cpp:70-92 | The loop appends the commands read and keeps them when a later one fails |
| Messages.Message.Marshal | tn5250/message/message.cpp:95-159 | The wire form, or nothing if it is too large |
| Messages.Message.Padding | tn5250/message/message.cpp:149-153 | The loop pads a long variable header with zeros |
| Messages.Message.MarshalPayload | tn5250/message/message.cpp:104-119 | The loop joins the commands' wire forms |

## Left out

- ProtocolHandler.ProtocolHandler.SendDeviceName: does not model the bytes of the reply, only that it was sent, because they are configuration text.
- ProtocolHandler.ProtocolHandler.HandleSubnegotiation: does not model the bytes of the NEW-ENVIRON reply, only that it was sent and with which server seed; the password substitute and client seed come from foreign cryptography.
- OrderProofs.ListRoundTrip: start fields carry texts up to 65535 bytes, as much as their length can say.
- `IBMRSeed`, code pages, `devices`, `describe` functions, hex and binary printers: foreign calls, data tables and printing.
- Log and error texts: an event records that one was issued, and for the decoder which.
- Absent callbacks, and callbacks that call back into a parser.
- Socket timing and the heartbeat payload.
- `sendTelnetCommand` beyond its bytes, `Connecting` and `Error` states: nothing in the code enters them.
- RA, IC, SOH, Clear Unit and Read MDT Fields objects: modelled as values inside the dispatch, not as classes, because they are fixed-size copies of bytes.
- `Header::marshal`, which `Message::marshal` does not use.
- 32-bit and `int` index arithmetic: indexes are unbounded, so buffers beyond 2 GB are not modelled.
- Screen semantics of orders: the repository has no screen buffer.
