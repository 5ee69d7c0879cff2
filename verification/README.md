# Verified models of the Vision proxy stream and of the panel's reconcilers

A Dafny model of the parts of this repository whose correctness is hard to see from one function at a
time, with proofs. `dafny verify dfyconfig.toml` checks all of it.

**Vision framing** (`node-aesingflow/Xray-core/proxy/proxy.go`). A writer wraps what it is given in frames
(command, two lengths, content, padding; a user id in front of the first), and after End or Direct sends
raw bytes, after Direct on another connection. A reader strips the framing byte by byte, across any
buffer boundaries. Both directions of a connection share one `TrafficState`, in which a TLS filter
decides when to stop. The files build on each other:

- `Bytes`, `Frames`: byte strings and the wire grammar, without reference to any code.
- `FrameParser`, `FramedStream`: what `XtlsUnpadding` does to one byte, to a frame, to a whole stream.
- `Reading`, `ReadBoundaries`: the reader as a state machine, and exactly which read boundaries it survives.
- `Filter`, `Sniffing`: the TLS sniffing under every interleaving of readers and writers, step by step, and as
  a function of the packets shown.
- `Writing`: the writer as a state machine, and what any run of it sends.
- `EndToEnd`: writer, wire and reader together.
- `Buffers`, `Records`, `Padding`, `TrafficState`, `Connections`, `VisionWriting`, `VisionReading`: the code
  itself, as classes over byte arrays that are changed in place, proved against those state machines.
- `Relay`: reading such an object again and again, from what arrives to what is handed on.
- `Splice`: the copy loop that hands over to the kernel.

**Feature resolver** (`node-aesingflow/Xray-core/core/xray.go`): `Resolver` is a state machine whose steps
are the critical sections and the callbacks, interleaved in any way; `Instance` is the code.

**Panel** (`backend/`): `LocalizedTexts`, `InboundSync`, `HashedSet`, `StreamSettings`, `RawCache`,
`InternalSquads` and `NodesSystemCache`, over the JSON values of `Json` where the code works on JSON.
`Collections` holds what several of them share.

## Where the code falls short

These are proved of the code as it is, each with the exact condition under which it does hold.

- The reader chooses its mode after every read without looking at how much of a header is left
  (`proxy.go:246`). A read that ends inside the header of an End or Direct frame, behind the command byte,
  with only zero length bytes before the end (`Reading.HeaderCut`), makes it believe that the frame is over.
  Two equivalences decide what that means. `Reading.ReadingExact` is about the reader's mode, which is
  wrong after every such read. `Reading.HandedOnExact` is about the bytes: they are right after every buffer
  iff no first buffer is under 21 bytes, no raw buffer that is unpadded starts with the user id, the next
  read behind a cut in an End header is still filtered, and behind a cut in a Direct header there are neither
  leftovers nor further bytes. `ReadBoundaries.HeaderCutExample` and `HeaderCutRecovers` are one stream of
  27 bytes that goes wrong when it is read unfiltered and right when it is filtered.
- `XtlsUnpadding` looks for the user id only at the start of a buffer with at least 21 bytes
  (`proxy.go:575`). So the first buffer must hold 21 bytes, and no raw buffer after the terminator may
  start with the user id: `FramedStream.UnpaddingExact` is the equivalence.
- The four numbers of a test seed can give the random source no range, or ask for negative padding; both
  stop the program. `Padding.SafeSeedExact` says for which they never do; the default seed is one of those.
- `ReshapeMultiBuffer` cuts a buffer in two and drops what does not fit the second half:
  `Padding.ReshapeExact`. Buffers of at most 8192 bytes never lose anything.
- One run of `syncInbounds` that deletes or creates rows does not update the others. `InboundSync.OneRunExact`
  says that one run makes all fields equal iff nothing is to be deleted or created, or every row that is
  kept was up to date; `InboundSync.TwoRuns` shows that a second run always does, and
  `InboundSync.OneRunIsNotEnough` is an example.
- `cleanLocalizedTexts` empties a text that has none of the active locales, and the empty object is no
  longer checked. `LocalizedTexts.CleanExact` says that a cleaned tree has no issues iff every text had all
  of the locales or none.
- `fastEquals` also holds of sets that differ: exactly if they have the same size, and what each has alone
  has the same XOR (`HashedSet.FastEqualsExact`). For one exchanged string that is a collision of the two
  hashes (`HashedSet.ExchangeExact`), and `HashedSet.Collision` is one.
- `getMany` and `getOne` treat malformed or falsy cached values differently: `NodesSystemCache.Redis.OneExact`
  says for which nodes, and `ManyExact` for which batches.

## Model

| member | source | states |
|---|---|---|
| Frames.EncodeAllAppend | node-aesingflow/Xray-core/proxy/proxy.go:519-555 | The wire form of a list of frames is that of its parts, one behind the other |
| Frames.CarriedAll | node-aesingflow/Xray-core/proxy/proxy.go:558-639 | A stream that has been read to its end has carried every content in order, and then the raw bytes |
| Frames.CarriedGrows | node-aesingflow/Xray-core/proxy/proxy.go:558-639 | Reading on only adds to what has been carried, at most one byte of it for each byte read |
| Frames.EncodeBytes | node-aesingflow/Xray-core/proxy/proxy.go:545-553 | The command, the two lengths with the high byte first, the content and the padding stand where the source writes them |
| FrameParser.RunSplit | node-aesingflow/Xray-core/proxy/proxy.go:583-635 | From any parser state, reading a buffer and then another is reading both at once: same state, same output |
| FrameParser.RunHeader | node-aesingflow/Xray-core/proxy/proxy.go:584-602 | What the four parser fields hold after any number of header bytes, both 16-bit lengths exact |
| FrameParser.RunFramePrefix | node-aesingflow/Xray-core/proxy/proxy.go:583-635 | Wherever reading stops in a frame, the parser has handed on exactly that part of its content, and no header or padding byte |
| FrameParser.RunFrame | node-aesingflow/Xray-core/proxy/proxy.go:583-635 | A whole frame gives its content, and leaves the parser at the next header after Continue, in its initial state after any other command |
| FramedStream.RunStream | node-aesingflow/Xray-core/proxy/proxy.go:558-639 | After any number of bytes of a stream of frames and raw bytes, the parser has handed on exactly what those bytes carry |
| FramedStream.InitialAt | node-aesingflow/Xray-core/proxy/proxy.go:622-634 | The parser is back in its initial state exactly once an End or Direct frame has been read to its end |
| FramedStream.PieceExact | node-aesingflow/Xray-core/proxy/proxy.go:574-581 | One buffer hands on exactly its payload iff it is not a first buffer under 21 bytes and not a raw buffer that starts with the user id; and then the parser stays in step |
| FramedStream.UnpaddingExact | node-aesingflow/Xray-core/proxy/proxy.go:558-639 | However a framed stream is cut into buffers, what was handed on is right after each of them iff every buffer is well cut in that sense |
| FramedStream.UnpadAllPayload | node-aesingflow/Xray-core/proxy/proxy.go:558-639 | Well-cut buffers from any position hand on exactly the payload of the bytes they hold |
| FramedStream.UnpaddingUndoesPadding | node-aesingflow/Xray-core/proxy/proxy.go:519-639 | Round trip: the buffers of a whole stream give the contents of its frames and then its raw bytes |
| FramedStream.CutsDoNotMatter | node-aesingflow/Xray-core/proxy/proxy.go:558-639 | Two ways of cutting the same bytes leave the same parser state and hand on the same bytes |
| Reading.SwitchesOnce | node-aesingflow/Xray-core/proxy/proxy.go:230-285 | Whatever arrives, the switch that drains input and rawInput happens at most once, and every later read is handed on as it is |
| Reading.LooksFinishedAt | node-aesingflow/Xray-core/proxy/proxy.go:246-252 | The test behind the choice of mode takes a stream for finished exactly after its terminator and at a header cut |
| Reading.ReadExact | node-aesingflow/Xray-core/proxy/proxy.go:230-256 | One read leaves the reader in the mode that the bytes so far call for iff its buffers are well cut and it does not end at a header cut |
| Reading.ReadingExact | node-aesingflow/Xray-core/proxy/proxy.go:205-287 | After any number of reads the reader is in the right mode iff every one of them is well cut and none ends at a header cut |
| Reading.RightExact | node-aesingflow/Xray-core/proxy/proxy.go:205-287 | One read hands on the right bytes after each of its buffers, and leftovers only behind Direct, iff it meets a condition on its buffers, its end, its leftovers, and whether it is filtered |
| Reading.HandedOnExact | node-aesingflow/Xray-core/proxy/proxy.go:205-287 | For any number of reads, the bytes handed on are right after every buffer iff every read meets that condition |
| Reading.OkIsRight | node-aesingflow/Xray-core/proxy/proxy.go:246-256 | Reads that keep the mode right also hand on the right bytes |
| Reading.ReadingPayload | node-aesingflow/Xray-core/proxy/proxy.go:205-287 | Reads that meet it hand on, together, exactly the payload of the bytes they read, followed by the leftovers iff they reached Direct |
| Reading.UnknownCommand | node-aesingflow/Xray-core/proxy/proxy.go:246-256 | A frame with a command above 2 changes no mode; its content and everything behind it are handed on, and the parser waits for a user id again |
| ReadBoundaries.HeaderCutIsInside | node-aesingflow/Xray-core/proxy/proxy.go:246-252 | Reads that never end inside a header are never header cuts |
| ReadBoundaries.EndHeaderCutLoses | node-aesingflow/Xray-core/proxy/proxy.go:246-252 | After a read that ends at a header cut of an End frame, the next read outside filtering hands on wrong bytes |
| ReadBoundaries.DirectHeaderCutLoses | node-aesingflow/Xray-core/proxy/proxy.go:246-285 | A read that ends at a header cut of a Direct frame drains header bytes as if they were payload |
| ReadBoundaries.HeaderCutExample | node-aesingflow/Xray-core/proxy/proxy.go:246-252 | A stream of 27 bytes in two reads of 22 and 5 that does not give its one byte of payload |
| ReadBoundaries.HeaderCutRecovers | node-aesingflow/Xray-core/proxy/proxy.go:237-256 | The same reads while packets are still filtered give that byte, though the mode was wrong between them |
| EndToEnd.StreamOf | node-aesingflow/Xray-core/proxy/proxy.go:340-427 | What any writer has sent on the framed connection is a framed stream with raw bytes only behind a terminator |
| EndToEnd.ReadsSoFar | node-aesingflow/Xray-core/proxy/proxy.go:205-287 | Reads of a writer's stream that meet the condition of Reading.HandedOnExact, and raw reads after Direct, have handed on the payload read and then the raw bytes |
| EndToEnd.Delivery | node-aesingflow/Xray-core/proxy/proxy.go:205-427 | End to end: for any run of a writer, whatever the filter says at each call, any reads that meet the condition of Reading.HandedOnExact hand on a prefix of what the writer was given, and all of it once everything has been read |
| Relay.CopyTimes | node-aesingflow/Xray-core/proxy/proxy.go:205-287 | Any number of reads of one VisionReader, handed on to a sink: each takes exactly one arrival, from the framed connection up to the read that reaches Direct and from the raw one after it, and the bytes together are those of the reader machine for these arrivals |
| Relay.CopyDelivers | node-aesingflow/Xray-core/proxy/proxy.go:205-427 | So Delivery holds of the object: if the arrivals are what a writer sent and the reads meet the condition of Reading.HandedOnExact, the sink gets a prefix of what the writer was given, and all of it once everything has been read |
| EndToEnd.NothingYet | node-aesingflow/Xray-core/proxy/proxy.go:375-415 | A writer that has not sent a frame has been given no bytes |
| Filter.ScanKeepsInv | node-aesingflow/Xray-core/proxy/proxy.go:642-693 | One call keeps: EnableXtls needs TLS 1.2 or above, TLS, a listed cipher other than 0x1305 and no packets left to filter; an unfinished ServerHello needs TLS 1.2 or above |
| Filter.InterleavingKeepsInv | node-aesingflow/Xray-core/proxy/proxy.go:642-693 | Every interleaving of readers and writers over one TrafficState keeps that invariant |
| Filter.Frozen | node-aesingflow/Xray-core/proxy/proxy.go:257-259 | Once no packets are left to filter, no later call changes the cipher, a flag or a counter |
| Filter.CountsDown | node-aesingflow/Xray-core/proxy/proxy.go:642-693 | Over all calls of all readers and writers, either every packet has been counted or filtering has ended, so it ends after eight packets at the latest |
| Filter.InterleavingExplained | node-aesingflow/Xray-core/proxy/proxy.go:642-693 | In every such state the cipher comes from a ServerHello that was seen, and EnableXtls from a packet with the TLS 1.3 version |
| Filter.DirectCopyNeedsTls13 | node-aesingflow/Xray-core/proxy/proxy.go:642-693 | From a new connection, direct copy is enabled only after a ServerHello with a suite from 0x1301 to 0x1304 and the TLS 1.3 version were seen |
| Sniffing.SniffingExact | node-aesingflow/Xray-core/proxy/proxy.go:642-693 | From a new connection, under every interleaving: cipher, flags and counters as a function of the packets shown, undecided after them or decided by the first that completes a ServerHello or shows the version in it |
| Sniffing.XtlsExact | node-aesingflow/Xray-core/proxy/proxy.go:671-682 | EnableXtls is set iff such a packet comes within the packets shown, has the six bytes of the TLS 1.3 version within the ServerHello, and the last cipher suite shown is 0x1301, 0x1302, 0x1303 or 0x1304 |
| Sniffing.FilteringExact | node-aesingflow/Xray-core/proxy/proxy.go:642-693 | Packets are still to be filtered iff fewer than eight have been shown and none of them decides |
| Sniffing.HelloWithVersion | node-aesingflow/Xray-core/proxy/proxy.go:650-682 | From any state, a ServerHello of at least 79 bytes with the version in it ends filtering, sets TLS, TLS 1.2 and the cipher, to the two bytes behind the session id, and enables Xtls exactly for those four suites |
| Sniffing.HelloWithoutVersion | node-aesingflow/Xray-core/proxy/proxy.go:650-687 | From any state, a ServerHello that is complete without the version ends filtering and leaves EnableXtls as it was |
| Sniffing.ClientHelloCounts | node-aesingflow/Xray-core/proxy/proxy.go:646-664 | Where no ServerHello is open, a ClientHello sets TLS and counts one packet, and nothing else |
| Records.RecordsExact | node-aesingflow/Xray-core/proxy/proxy.go:430-481 | The record loop accepts exactly the concatenations of whole application data records with at least one byte of payload |
| Records.ScanRecords | node-aesingflow/Xray-core/proxy/proxy.go:430-481 | The byte loop over headerLen and recordLen decides that recursive definition |
| Records.IsCompleteRecord | node-aesingflow/Xray-core/proxy/proxy.go:430-481 | True iff the joined bytes are zero or more whole records, so the split into buffers does not matter |
| Padding.SafeSeedExact | node-aesingflow/Xray-core/proxy/proxy.go:525-540 | No content that fits a frame ever stops the program, in the random source or by negative padding, iff the seed passes a test on its four numbers |
| Padding.SafeIsEnough | node-aesingflow/Xray-core/proxy/proxy.go:525-540 | With such a seed the padding also leaves the frame within one buffer |
| Padding.DefaultSeedIsSafe | node-aesingflow/Xray-core/proxy/proxy.go:309-311 | The default seed passes the test |
| Padding.DrawnExact | node-aesingflow/Xray-core/proxy/proxy.go:525-540 | With a safe seed: exactly which amounts of padding can be drawn, for long and for short padding, and what is left when they do not fit |
| Padding.CutExact | node-aesingflow/Xray-core/proxy/proxy.go:496-500 | A long buffer is cut at the last 0x17 0x03 0x03 in it if that lies between 21 and 8171, and otherwise at 4096 |
| Padding.ReshapeExact | node-aesingflow/Xray-core/proxy/proxy.go:484-516 | Reshaping keeps the byte stream iff no buffer is so long that its second half does not fit a new one |
| Padding.ReshapeFits | node-aesingflow/Xray-core/proxy/proxy.go:484-516 | From pooled buffers the stream is kept and every piece is at most 8192 - 21 bytes |
| Padding.ReshapeMultiBuffer | node-aesingflow/Xray-core/proxy/proxy.go:484-516 | The buffers cut in place, and the new ones, hold exactly the reshaped pieces |
| Padding.XtlsPadding | node-aesingflow/Xray-core/proxy/proxy.go:519-555 | Stops the program exactly if the random source has no range or the drawn padding is negative; otherwise the new buffer holds the user id, if still unsent, and the wire form of one frame with that command, content and a drawn amount of zero padding, both lengths exact in 16 bits and all within 8192 bytes |
| Buffers.Buffer.Write | node-aesingflow/Xray-core/common/buf/buffer.go:266-273 | Appends as much as there is room for |
| Buffers.Buffer.Extend | node-aesingflow/Xray-core/common/buf/buffer.go:148-157 | Appends zero bytes |
| Buffers.Buffer.ReadBytes | node-aesingflow/Xray-core/common/buf/buffer.go:302-310 | Takes bytes off the front |
| TrafficState.TrafficState.constructor | node-aesingflow/Xray-core/proxy/proxy.go:144-174 | A new state: eight packets to filter, both directions padding and at the start of a stream |
| TrafficState.XtlsFilterTls | node-aesingflow/Xray-core/proxy/proxy.go:642-693 | The fields assigned in place become those of the filter function for the packets of the buffers; it stops the program only at a buffer whose cipher suite would lie outside its array |
| TrafficState.UnpadFrames | node-aesingflow/Xray-core/proxy/proxy.go:583-635 | The loop, which takes content and padding in chunks, refines the parser that reads byte by byte |
| TrafficState.XtlsUnpadding | node-aesingflow/Xray-core/proxy/proxy.go:558-639 | The remaining counters and the returned buffer are those of the parser for this direction; nothing else of the state changes |
| Writing.PlanGrammar | node-aesingflow/Xray-core/proxy/proxy.go:378-415 | In one call the commands are Continue and then at most one End or Direct; padding stops exactly with it, and direct copy is set exactly with Direct; pieces are left unframed only behind End |
| Writing.PlanEndsWhen | node-aesingflow/Xray-core/proxy/proxy.go:378-415 | Padding ends in a call exactly if one of its reshaped pieces opens application data within whole records while TLS was seen, unless Xtls is enabled and direct copy switched off, or comes when TLS 1.2 has not been seen and at most one packet is left to filter; it ends with Direct exactly if Xtls is enabled |
| Writing.PlanExact | node-aesingflow/Xray-core/proxy/proxy.go:378-415 | Every command, every choice of long padding, where the loop breaks, and both flags of a call, told from the bytes of its pieces and the shared state |
| Writing.WriteExact | node-aesingflow/Xray-core/proxy/proxy.go:374-417 | So of the whole call: the frames that a padding writer adds, what it leaves unframed, and its flags, with whole records as the record grammar has them |
| Writing.IncompleteKeepsPadding | node-aesingflow/Xray-core/proxy/proxy.go:379-413 | Bytes that are not whole records give Continue frames only, and padding goes on, if TLS 1.2 was seen or more than one packet is left to filter |
| Writing.RecordsEndPadding | node-aesingflow/Xray-core/proxy/proxy.go:382-402 | Whole records of which a reshaped piece opens application data end padding in that call, the last frame Direct iff Xtls is enabled and End otherwise |
| Writing.PaddingsExact | node-aesingflow/Xray-core/proxy/proxy.go:374-415 | How long the padding of each frame may be: long for the nil buffer, for data, and on TLS connections up to the first data |
| Writing.WriteKeeps | node-aesingflow/Xray-core/proxy/proxy.go:340-427 | One call keeps the form of what was sent, adds exactly the data it was given, and frames nothing behind a terminator |
| Writing.WriterRun | node-aesingflow/Xray-core/proxy/proxy.go:340-427 | Any run of one writer sends Continue frames, then at most one End or Direct, raw bytes only after that, on the raw connection iff it was Direct, and in all exactly the data given, in order |
| Writing.NoDirectWhenDisabled | node-aesingflow/Xray-core/proxy/proxy.go:386-404 | With direct copy switched off no run ever leaves the framed connection |
| Writing.EmitWire | node-aesingflow/Xray-core/proxy/proxy.go:340-427 | What one call adds to the framed connection: its frames, behind the user id iff they are the first, and its unframed pieces |
| VisionWriting.VisionWriter.constructor | node-aesingflow/Xray-core/proxy/proxy.go:306-322 | A new writer has sent nothing and is in the first state of the machine, of the link for its direction, with the seed it is given, or the default if that is short |
| VisionWriting.VisionWriter.Choose | node-aesingflow/Xray-core/proxy/proxy.go:379-413 | Command, padding length class, flags and break of one turn are those of the machine |
| VisionWriting.VisionWriter.PadAll | node-aesingflow/Xray-core/proxy/proxy.go:377-415 | The loop that overwrites buffers by their frames carries out the plan of the machine, the user id on the first frame only |
| VisionWriting.VisionWriter.MoveOn | node-aesingflow/Xray-core/proxy/proxy.go:352-365 | After Direct the writer moves to the raw connection, once, and notes whether the inbound connection waits for it |
| VisionWriting.VisionWriter.WriteMultiBuffer | node-aesingflow/Xray-core/proxy/proxy.go:340-427 | If sending succeeds, all bytes on both connections and all flags are those of the machine for this call; it fails iff the connection in use is broken, and then the flags are those of the machine and each connection has carried a part of those bytes; the program stops only over an unsafe seed or a suite out of range, with nothing sent; an inbound that waits may splice exactly after the first raw write of a downlink writer |
| VisionReading.VisionReader.constructor | node-aesingflow/Xray-core/proxy/proxy.go:192-203 | A new reader is valid in the first state of the machine, of the link for its direction |
| VisionReading.VisionReader.UnpadBuffers | node-aesingflow/Xray-core/proxy/proxy.go:238-245 | The loop over the buffers, which drops empty ones, hands on what the parser hands on for all of them |
| VisionReading.VisionReader.Switch | node-aesingflow/Xray-core/proxy/proxy.go:261-285 | input and then rawInput are appended and released, later reads are raw, and an outbound that waits may splice if there is an inbound with a connection |
| VisionReading.VisionReader.ReadMultiBuffer | node-aesingflow/Xray-core/proxy/proxy.go:205-287 | Exactly one arrival is taken, from the connection that the reader reads, and the other one is untouched; the bytes returned and the new mode are those of the machine for it; the reader moves to the raw connection iff the mode is direct; while filtering lasts, the filter has been shown exactly the non-empty unpadded buffers, with their cipher suites |
| Connections.ReadFrom | node-aesingflow/Xray-core/common/buf/multi_buffer.go:79-96 | Everything that was received, in pooled buffers |
| Splice.CopyLoop | node-aesingflow/Xray-core/proxy/proxy.go:766-814 | For any timing of CanSpliceCopy: nil iff the connection ends by EOF and nothing was to be written over a broken connection, and then the bytes copied and spliced are the whole source and the counters grew by them; splicing starts at the first turn that finds inbound and all outbounds at 1 |
| Splice.SpliceRest | node-aesingflow/Xray-core/proxy/proxy.go:776-797 | The kernel takes the rest of the stream, nil iff that ends by EOF and could be written, and all three counters grow by what it wrote |
| Splice.CopyRawConnIfExist | node-aesingflow/Xray-core/proxy/proxy.go:741-815 | Exactly when the fallback is chosen, and otherwise exactly when the result is nil, and the other promises of the loop |
| Resolver.AddKeepsInv | node-aesingflow/Xray-core/core/xray.go:322-376 | Adding a feature keeps: each registration is in exactly one of fired, released, pending or pending-optional; what waits lacks a dependency, what was released has them all |
| Resolver.RunKeepsInv | node-aesingflow/Xray-core/core/xray.go:282-376 | Any interleaving of the critical sections and callbacks keeps that, also when callbacks call back in |
| Resolver.FiresOnce | node-aesingflow/Xray-core/core/xray.go:282-376 | If no registration is made twice, each is in exactly one place exactly once, so no callback fires twice |
| Resolver.OrderIndependence | node-aesingflow/Xray-core/core/xray.go:282-376 | The same registrations and features in any two orders end with the same callbacks fired and the same waiting |
| Resolver.FinalCounts | node-aesingflow/Xray-core/core/xray.go:282-376 | At rest exactly the registrations whose dependencies are all provided have fired, as often as they were registered |
| Resolver.CheckExact | node-aesingflow/Xray-core/core/xray.go:238-243 | No pending resolution is left iff no required callback lacks a dependency |
| Resolver.FiredExact | node-aesingflow/Xray-core/core/xray.go:282-376 | Told from the calls made: at rest a callback has fired as often as it was registered if a feature of every type it asks for was added, and otherwise waits as often, in the list for required or for optional ones |
| Resolver.CheckMeans | node-aesingflow/Xray-core/core/xray.go:238-243 | The check passes iff for every required callback that was registered a feature of every type it asks for was added |
| Instance.GetFeature | node-aesingflow/Xray-core/core/xray.go:38-45 | Finds the first feature of a type, and fails iff there is none |
| Instance.CallbackResolution | node-aesingflow/Xray-core/core/xray.go:47-79 | Every parameter of a released callback gets the first registered feature that can be passed for it |
| Instance.Partition | node-aesingflow/Xray-core/core/xray.go:334-371 | Splits the waiting list, in order, into what can be called and what waits on, which is nil exactly when empty |
| Instance.Instance.RequireFeatures | node-aesingflow/Xray-core/core/xray.go:282-319 | Is one registration step; the callback is called at once iff all dependencies are there, and otherwise put behind the list for required or for optional ones |
| Instance.Instance.AddFeature | node-aesingflow/Xray-core/core/xray.go:322-376 | Is one addition step, and then calls the callbacks that have become ready, in the order of registration, required ones first; both lists keep the others in order; nothing when running |
| Instance.Instance.AllResolved | node-aesingflow/Xray-core/core/xray.go:238-243 | The nil check passes iff every required callback has its dependencies |
| LocalizedTexts.TrimTwice | backend/libs/subscription-page/models/subscription-page-config.validator.ts:103 | Trimming a trimmed string changes nothing |
| LocalizedTexts.TrimExact | backend/libs/subscription-page/models/subscription-page-config.validator.ts:103 | Trimming takes the white space off both ends and nothing else, and leaves nothing iff there is nothing else |
| LocalizedTexts.IssuesExact | backend/libs/subscription-page/models/subscription-page-config.validator.ts:27-56 | No issue is reported iff every localised text in the tree has a non-blank value for every required locale |
| LocalizedTexts.IssueIsThere | backend/libs/subscription-page/models/subscription-page-config.validator.ts:27-56 | Every issue names a path to a localised text in the tree and a required locale that has no value there or a blank one |
| LocalizedTexts.IssueIsReported | backend/libs/subscription-page/models/subscription-page-config.validator.ts:27-56 | Every such path and locale is reported |
| LocalizedTexts.IssuesOnce | backend/libs/subscription-page/models/subscription-page-config.validator.ts:27-56 | With distinct keys and distinct locales no issue is reported twice |
| LocalizedTexts.CheckLocalizedText | backend/libs/subscription-page/models/subscription-page-config.validator.ts:27-56 | Appends exactly those issues, with their paths, in order |
| LocalizedTexts.CleanTwice | backend/libs/subscription-page/models/subscription-page-config.validator.ts:91-121 | Cleaning is idempotent on every JSON tree |
| LocalizedTexts.CleanedExact | backend/libs/subscription-page/models/subscription-page-config.validator.ts:91-121 | On every tree, cleaning leaves each localised text with exactly the active locales that had a value that is not blank, trimmed, and keeps the keys, the order and the values of everything else |
| LocalizedTexts.NotTextStays | backend/libs/subscription-page/models/subscription-page-config.validator.ts:116-120 | Cleaning an object's properties neither makes it a localised text nor stops it from being one |
| LocalizedTexts.CleanExact | backend/libs/subscription-page/models/subscription-page-config.validator.ts:91-121 | A cleaned tree is complete for the active locales iff every text in it had all of them or none |
| LocalizedTexts.CleanKeepsValid | backend/libs/subscription-page/models/subscription-page-config.validator.ts:27-121 | A tree without issues has none after cleaning with the same locales |
| LocalizedTexts.CleanedTree | backend/libs/subscription-page/models/subscription-page-config.validator.ts:27-121 | After cleaning a tree without issues, every text in it has exactly the active locales, trimmed and not empty |
| LocalizedTexts.CleanHidesExample | backend/libs/subscription-page/models/subscription-page-config.validator.ts:91-121 | A text without any active locale has an issue before cleaning and none after it |
| LocalizedTexts.CleanLocalizedTexts | backend/libs/subscription-page/models/subscription-page-config.validator.ts:91-121 | The recursion that fills fresh objects and arrays computes the cleaned tree |
| InboundSync.OneRun | backend/src/modules/config-profiles/config-profile.service.ts:348-452 | After one run the rows have the tags and types of the config, tags are unique, and what was kept keeps its uuid |
| InboundSync.OneRunMeans | backend/src/modules/config-profiles/config-profile.service.ts:348-452 | Told from rows and config: a row is still there iff the config has its tag and type, and an inbound whose tag and type no row had is stored as it is under a new uuid |
| InboundSync.TwoRuns | backend/src/modules/config-profiles/config-profile.service.ts:348-452 | After two runs the rows equal the config field by field, and a third has nothing to do |
| InboundSync.OneRunExact | backend/src/modules/config-profiles/config-profile.service.ts:376-440 | One run makes the rows equal the config field by field iff it has nothing to delete or create, or every row it keeps was up to date |
| InboundSync.OneRunIsNotEnough | backend/src/modules/config-profiles/config-profile.service.ts:376-440 | A row kept beside a created one can still differ from the config after one run |
| InboundSync.CreatedUnique | backend/src/modules/config-profiles/config-profile.service.ts:367-379 | No prefix of the creations, after the deletions, has two rows with one tag |
| InboundSync.InboundsToRemove | backend/src/modules/config-profiles/config-profile.service.ts:353-356 | Exactly the rows whose tag is gone or has another type |
| InboundSync.InboundsToAdd | backend/src/modules/config-profiles/config-profile.service.ts:358-365 | Exactly the inbounds of the config that no row has with that tag and type, in order |
| InboundSync.InboundsToUpdate | backend/src/modules/config-profiles/config-profile.service.ts:382-429 | Every entity ends with the fields of the config's inbound, and is listed iff that changed it |
| InboundSync.SyncInbounds | backend/src/modules/config-profiles/config-profile.service.ts:348-452 | One run leaves the rows of the function above, writes nothing if nothing differs, and fails exactly if another profile has one of the new tags |
| InboundSync.UpdateConfigProfile | backend/src/modules/config-profiles/config-profile.service.ts:259-302 | In its transaction the run either succeeds with the config's tags and types or leaves the rows as they were |
| HashedSet.XorTake | backend/libs/hashed-set/src/hashed-set.ts:5-47 | The XOR over a set does not depend on which element is taken first |
| HashedSet.XorToggle | backend/libs/hashed-set/src/hashed-set.ts:31-47 | Adding a new element and deleting it again restores both words |
| HashedSet.Djb2Dual | backend/libs/hashed-set/src/hashed-set.ts:14-29 | The loop computes both 32-bit words of the string hash |
| HashedSet.HighExact | backend/libs/hashed-set/src/hashed-set.ts:14-29 | The high word is 5381 * 33^n + sum of c[i] * 33^(n-1-i), modulo 2^32 |
| HashedSet.LowExact | backend/libs/hashed-set/src/hashed-set.ts:14-29 | The low word is 5387 * 65^n + 37 * sum of c[i] * 65^(n-1-i), modulo 2^32 |
| HashedSet.HashedSet.constructor | backend/libs/hashed-set/src/hashed-set.ts:5-12 | Both words are the XOR over the distinct elements |
| HashedSet.HashedSet.Add | backend/libs/hashed-set/src/hashed-set.ts:31-38 | Adds the element and keeps that |
| HashedSet.HashedSet.Delete | backend/libs/hashed-set/src/hashed-set.ts:40-47 | Removes the element and keeps that |
| HashedSet.EqualSetsAreFastEqual | backend/libs/hashed-set/src/hashed-set.ts:62-74 | Equal sets satisfy fastEquals however they came about |
| HashedSet.FastEqualsExact | backend/libs/hashed-set/src/hashed-set.ts:62-74 | fastEquals holds iff the sizes agree and so do the XORs over what each set has alone |
| HashedSet.ExchangeExact | backend/libs/hashed-set/src/hashed-set.ts:62-74 | For sets that differ by one exchanged string, fastEquals holds iff the two hashes agree |
| HashedSet.Collision | backend/libs/hashed-set/src/hashed-set.ts:14-29 | Two different strings of three code units agree in both words |
| HashedSet.FastEqualIsNotEqual | backend/libs/hashed-set/src/hashed-set.ts:72-74 | Two sets that differ and still satisfy fastEquals |
| StreamSettings.StreamExact | backend/prisma/seed/seeders/6_sync-inbounds.ts:28-46 | Stream settings change iff network or ALPN did not name aesingflow; afterwards they do; every other field stays |
| StreamSettings.TlsExact | backend/prisma/seed/seeders/6_sync-inbounds.ts:35-46 | TLS settings keep every other field, and ALPN its entries, in order, in front |
| StreamSettings.InboundExact | backend/prisma/seed/seeders/6_sync-inbounds.ts:26-47 | Only an aesingflow inbound that is not settled changes, and only in its stream settings |
| StreamSettings.NormalTwice | backend/prisma/seed/seeders/6_sync-inbounds.ts:13-50 | Normalising is idempotent on every config |
| StreamSettings.NormalExact | backend/prisma/seed/seeders/6_sync-inbounds.ts:13-50 | Other fields and other inbounds stay, and every aesingflow inbound with stream settings is settled |
| StreamSettings.NormalKeeps | backend/prisma/seed/seeders/6_sync-inbounds.ts:13-50 | Of every aesingflow inbound with stream settings: every key but network and tlsSettings keeps its value, every TLS key but alpn keeps its value, and alpn is as it was, or the old array with aesingflow behind it, or aesingflow alone; every other inbound and field is as it was |
| StreamSettings.NormalizeAesingFlowStreamSettings | backend/prisma/seed/seeders/6_sync-inbounds.ts:13-50 | Computes the normal form, and reports a change exactly if the output differs from the input |
| RawCache.Cache.CachedByKeys | backend/src/common/raw-cache/raw-cache.service.ts:106-136 | Through a coherent cache any id list, repeated ids included, gives exactly the values of the ids that exist; only missed ids are fetched; the cache stays coherent, keeps what it held, and then holds every result beside it and nothing else |
| RawCache.Cache.SetMany | backend/src/common/raw-cache/raw-cache.service.ts:74-88 | Every row is cached with the value that the store gives for it |
| InternalSquads.AffectedExact | backend/src/modules/internal-squads/internal-squad.service.ts:142-156 | A profile is affected iff its part of the squad differs before and after, and none is iff the squad is the same |
| InternalSquads.AffectedMeans | backend/src/modules/internal-squads/internal-squad.service.ts:116-156 | A profile is affected iff one of its inbounds comes into the squad or leaves it |
| InternalSquads.AffectedProfiles | backend/src/modules/internal-squads/internal-squad.service.ts:142-156 | The loop over both maps lists each profile whose sets differ, once |
| InternalSquads.ProfilesMap | backend/src/modules/internal-squads/internal-squad.service.ts:120-126 | The loop groups the inbounds by profile |
| InternalSquads.UpdateInternalSquad | backend/src/modules/internal-squads/internal-squad.service.ts:92-205 | Exactly the profiles of which an inbound comes or goes are restarted, each once; which inputs give which error; no other squad changes; refused inbounds leave the squad alone |
| NodesSystemCache.Redis.OneExact | backend/src/modules/nodes/nodes-system-cache.service.ts:40-84 | Reading a node by pipeline or alone gives the same, in value and in throwing, iff its cached info and stats are both there, and truthy or one malformed, or one is missing and neither malformed; or its versions make both throw |
| NodesSystemCache.Redis.OneMeans | backend/src/modules/nodes/nodes-system-cache.service.ts:66-84 | When getOne throws, and every field of its result, told from the stored texts |
| NodesSystemCache.Redis.AssembleMeans | backend/src/modules/nodes/nodes-system-cache.service.ts:40-61 | When one turn of getMany throws, and every field of its result, told from the five replies, failed ones included |
| NodesSystemCache.Redis.NodeAtIsPiped | backend/src/modules/nodes/nodes-system-cache.service.ts:40-61 | The index arithmetic picks the five replies of the node at that position |
| NodesSystemCache.Redis.ManyExact | backend/src/modules/nodes/nodes-system-cache.service.ts:13-84 | Without failed commands the batched result is getOne of every node, repeated nodes included, in values and in throwing, iff it throws or every node meets that condition |
| NodesSystemCache.GetMany | backend/src/modules/nodes/nodes-system-cache.service.ts:13-64 | Fills the map from the replies, a failed command counting as missing, and is getOne of every node exactly under that condition |
| NodesSystemCache.Redis.TotalIsSum | backend/src/modules/nodes/nodes-system-cache.service.ts:96-106 | Without failed commands the total is the sum of getOne's online users over the nodes |
| NodesSystemCache.GetTotalOnlineUsers | backend/src/modules/nodes/nodes-system-cache.service.ts:96-106 | Adds up the replies, a failed command counting as nobody |

## Left out

Vision:

- VisionReading.VisionReader.ReadMultiBuffer: expects fresh pooled buffers from the connection below, as buf.NewReader gives them.
- VisionWriting.VisionWriter.Prepare: a nil buffer is only passed alone, as the callers do; in a longer list it would stop the original in Bytes.
- Data races: a call of a reader or writer is one step. The original has no lock around TrafficState.
- Releasing buffers to the pool, and negative or out-of-range arguments of Advance, Resize and BytesRange; the methods of `Buffer` are modelled for the arguments that this code passes.
- Stats counters of the reader and writer, UnwrapRawConn, logging and timers. The environment flag for direct copy is a parameter.
- The quality of the random padding: any value in range may be drawn.
- Splice.CopyRawConnIfExist: buffers are byte strings here, and `readV`, the fallback, is only named as the result.

Resolver:

- Reflection: types are numbers, and a feature can be passed wherever its own type is asked for. Errors that callbacks return, Start and Close of features, and the essential features that initialisation adds.

Panel:

- LocalizedTexts.CleanLocalizedTexts: asks for JSON objects with distinct keys, none of them `__proto__`, which a JavaScript assignment would not store.
- LocalizedTexts.CheckLocalizedText: the path of an issue is a list of steps, not the string built from them; strings hold no lone surrogates.
- validateSvgReferences, a plain search, and the zod schemas around it.
- InboundSync.SyncInbounds: the config's tags are unique, which the config validator enforces (backend/src/common/helpers/xray-config/xray-config.validator.ts:458-471); JSON equality of rawInbound is equality of strings.
- The loop of the seed's own syncInbounds over all profiles, which repeats the same steps for each.
- RawCache.Cache.CachedByKeys: entries may vanish between calls, but their time to live, and the JSON text of a value, are not modelled.
- NodesSystemCache.GetMany: the replies of one pipeline are of one moment; `Number` of a text that is no number is some number, not NaN.
- InternalSquads.UpdateInternalSquad: the queue accepts every restart; the squad that is returned to the caller is not modelled.
- Redis, Prisma and the queues themselves: maps, sets and sequences with unique keys stand for them.
