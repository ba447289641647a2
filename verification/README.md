# nano_ros: model and proofs

nano_ros lets a microcontroller board take part in a ROS system. A code generator turns message
definitions into C structs and serializers and checks their sizes; Micro-CDR writes the bytes; a framed
byte stream carries them between the board's library and an agent on the host; and a registration protocol
tells the agent which topics the board has. This project models those four pieces and proves what they
promise, each by itself and together. `dafny verify dfyconfig.toml` checks all of it.

## How it is organised

| modules | what they model |
|---|---|
| `Bytes`, `Options`, `Crc`, `Protocol` | bytes, values that may be missing, the CRC-16, constants and frames |
| `StreamParser`, `Framing`, `Delivery`, `Channel` | the byte-at-a-time parser, the encoder, and what arrives over noise, damage and partial reads |
| `Cdr`, `MicroCdr`, `Slots`, `UcdrBuffer` | the standard's layout, the buffer machine along its stream, the slots in memory the stream is made of, and the buffer with its pointers into them |
| `FieldTree`, `SizeAnalysis`, `SizeTheorems`, `LongestMessages`, `EmptyArrays`, `Widths` | message types, the generator's worst-case size, its soundness and precision, the longest message of a type, what arrays of length zero do to the bound, and how wide the primitive types are |
| `Serde`, `GeneratedCode`, `Received`, `Truncation`, `Publishing` | the generated (de)serializers as interpreters of message types, what is read from any bytes, messages cut short, and the payload of a publish |
| `WireFormat` | what goes over the wire, byte by byte, with the constants written out |
| `Registration`, `Board`, `BoardTheorems`, `AgentNode`, `AgentTheorems`, `ClientHandler` | registration frames, the board's library and the agent's loop, each with what it does in any state, and the agent's ROS node |
| `Session`, `SessionTheorems`, `Progress` | board and agent joined by two byte channels: the invariant, safety, progress |
| `Traffic`, `EndToEnd` | the messages of whole sessions, in both directions and from board to board |
| `Emission`, `EmissionTheorems`, `TopicIds` | the order of generated definitions, and topic ids |

State the original updates in place is a class whose methods keep it the same way (the parser struct, the
`ucdrBuffer`, `CdrPos`, the static state of `nano_ros.c`, the agent, the generator's sets). Each such method
is proved to do what a function on values says, and the theorems are about those functions. The functions
with their logs are the model's reading of what a run does: `calls` is every invocation of the frame
callback, `loaded` every frame put into the board's transmit buffer, `delivered` every message handed to a
subscriber's callback on the board, `sent` every frame the agent handed to its transport.

A fragmented Micro-CDR buffer lies in slots at any addresses of one memory that do not overlap. The class
`UcdrBuffer.Ucdr` keeps the library's pointers into it. Its stream, the contents of the slots in the order they
are handed out, is a ghost field its invariant ties to the memory, and so are the bytes around the slots,
which no call changes. Every copy and every load has to lie inside one slot.

Reads and writes move any number of bytes the transport pleases; an agent's `send_frame` completes. Time,
logging, rclcpp and the file system do not appear. Bytes are eight bits wide, the CRC register sixteen, the
topic index of the board wraps at 256, and the alignment shortcut cuts the offset to 32 bits, as in the code.

## Where the code falls short of what one would expect

* **Damage the CRC cannot see.** Two damaged adjacent bytes of a frame behind its magic, other than the length,
  are always detected, except when they are the last payload byte and the low CRC byte and the damage inverts
  exactly the bits 0x89 and 0xA1. `Crc.StraddleDetected` and `Framing.DamagedFrame` state the exact condition,
  and `Framing.SomeDamageEscapes` damages any frame with a payload in that way. Damage to magic or length can
  make the parser take other bytes for a frame; whatever it has read, the next frame behind 1031 bytes without
  a sync is delivered (`Delivery.Recovers`).
* **A truncated message that deserializes.** `ucdr_deserialize_string` keeps the length in a local nobody
  initialises. When the length itself is cut off and the local happens to hold zero, the call returns true
  although the buffer is in the error state (`Serde.StringTrueDespiteError`). `Truncation.MisleadsIff` says when
  that can happen to a whole message: iff it was cut at the length of a string that has only strings behind it.
  For a type that does not end in a string true means success (`Truncation.LastLeafTells`); an empty payload
  for a type with one string is taken for a message (`Truncation.NothingMisleads`).
* **Arrays of length zero.** The size analysis adds nothing for them, the serializer still pads. The bound
  holds for all messages of a type iff it holds for the longest one, whose size the type tells
  (`LongestMessages.BoundExact`); without such arrays it always does. A type without strings keeps its bound iff
  it is as long with its empty arrays as without them (`EmptyArrays.BoundWithEmptyArrays`). A byte and an empty
  array of doubles take twelve bytes where five are promised (`EmptyArrays.EmptyArrayCounts`), a full string and
  such an array 268 where 264 are (`EmptyArrays.EmptyArrayBehindString`), but a byte, such an array and a double
  what is promised (`EmptyArrays.EmptyArrayFree`).
* **Type names that end in `_t`.** The generator finds back from a struct to its functions by stripping
  that suffix as often as it occurs. `Emission.TrimExact`: it gets the right name iff the type's own name does not
  end in it; from `x_t` it gets to `x` (`Emission.TrimTooMuch`).
* **Unknown qualities of service.** The agent refuses such a topic, and the board carries on without
  noticing: the client gets exactly the other topics (`SessionTheorems.RegistrationCorrect`).
* **Topic number 255.** The agent accepts it, but its client's table ends at 254: the topic is written behind it
  (`ClientHandler.ClientHandlerNode.OnClientConnect`). Generated ids stay below (`ClientHandler.EveryTopicConnected`).
* **Messages without a callback.** The board follows a null pointer for a DATA frame whose topic it does not
  have or publishes itself. It gets none as long as the agent forwards only what its client has subscribed to
  (`EndToEnd.OnlySubscribersCalled`).

## What callers must provide

Boards have 1 to 255 topics with names of at most 128 bytes (the generated build checks see to the length;
a longer name is dropped silently by the board, which is modelled, but then nothing is promised about the
session). There are no arrays of strings, and the size bound is for types whose longest message meets
it, which are all that have no arrays of length zero. A message to be serialized holds strings of at most 255 characters without the
terminator and 0 or 1 in a bool. Slots handed out by the on-full callback have at least eight bytes and do not
overlap. The encoder's caller passes a header whose length is that of the payload, except for the agent's
DISCOVER, whose frame the model builds from the variable the agent reuses.

## Model

| member | source | states |
|---|---|---|
| Bytes.PutLength | common/include/protocol.h:46-52 | a length on the wire is two bytes, low byte first, and reads back |
| Bytes.GetPutU16 | common/src/nros_stream_parser.c:6-13 | the CRC's two bytes on the wire read back to the register |
| Bytes.PutGetU16 | common/src/nros_stream_parser.c:6-13 | any two bytes are the wire form of the register they decode to |
| Crc.Crc16Update | common/src/nros_stream_parser.c:25-32 | the eight-step loop computes the register update |
| Crc.Crc16Buf | common/src/nros_stream_parser.c:34-38 | the loop over a buffer folds the update from the start value |
| Crc.FoldConcat | common/src/nros_stream_parser.c:34-38 | the CRC of two parts is the CRC of the second continued from the first |
| Crc.ShiftsLinear | common/src/nros_stream_parser.c:27-30 | shifting the register is linear over XOR |
| Crc.UpdateInjective | common/src/nros_stream_parser.c:25-32 | for each byte the update is one-to-one on the register |
| Crc.FoldInjective | common/src/nros_stream_parser.c:34-38 | so is any number of updates with the same bytes |
| Crc.ClosedForm | common/src/nros_stream_parser.c:25-32 | the loop equals a table-free closed form of the update |
| Crc.PairInjective | common/src/nros_stream_parser.c:25-38 | two different pairs of bytes lead to different registers |
| Crc.WindowDetected | common/src/nros_stream_parser.c:25-38 | byte strings of any equal length that agree outside two adjacent bytes have equal CRCs iff they are equal |
| Crc.StraddleDetected | common/src/nros_stream_parser.c:25-38 | damage to the last byte covered and the low CRC byte goes unseen iff there is none or it is the one pair of masks |
| Crc.StartContributes | common/src/nros_stream_parser.c:34-38 | the CRC of data is that from a zero register, XOR sixteen ones shifted eight times for every byte |
| Crc.LeadingZeroSeen | common/src/nros_stream_parser.c:34-38 | a zero byte in front changes the CRC of any data |
| Crc.CheckValue | common/include/nros_stream_parser.h:10 | the CRC of the digits one to nine is 0x29B1, the published check value of this CRC |
| StreamParser.NrosStreamParser.constructor | common/src/nros_stream_parser.c:40-43 | a fresh parser hunts, with counters at zero |
| StreamParser.NrosStreamParser.Init | common/src/nros_stream_parser.c:40-43 | the same for a parser that was in use |
| StreamParser.NrosStreamParser.ResetToHunt | common/src/nros_stream_parser.c:19-23 | back to hunting; a resync is counted only when asked for |
| StreamParser.NrosStreamParser.Feed | common/src/nros_stream_parser.c:45-119 | feeding data runs the byte machine over it; indices stay in range and the running CRC is that of header and payload so far |
| StreamParser.NrosStreamParser.FeedByte | common/src/nros_stream_parser.c:46-117 | one turn of the loop is one step of the machine |
| StreamParser.NrosStreamParser.HuntByte | common/src/nros_stream_parser.c:50-58 | the two-byte window that looks for the sync |
| StreamParser.NrosStreamParser.HeaderByte | common/src/nros_stream_parser.c:60-86 | collecting the six header bytes |
| StreamParser.NrosStreamParser.HeaderComplete | common/src/nros_stream_parser.c:66-85 | an oversize length goes back to hunting with the last byte kept, any other starts payload or CRC |
| StreamParser.NrosStreamParser.PayloadByte | common/src/nros_stream_parser.c:88-96 | collecting payload while the CRC runs along |
| StreamParser.NrosStreamParser.CrcByte | common/src/nros_stream_parser.c:98-115 | the second CRC byte decides between a callback and a counted failure |
| StreamParser.HeaderRoundTrip | common/src/nros_stream_parser.c:66-83 | six bytes with the magic are the encoding of the header they decode to |
| StreamParser.RunConcat | common/src/nros_stream_parser.c:45-119 | feeding two pieces is feeding their concatenation |
| StreamParser.CallsGrow | common/src/nros_stream_parser.c:45-119 | callbacks made are never taken back |
| Framing.EncodeFrame | common/src/nros_stream_parser.c:121-145 | zero and an untouched buffer when it does not fit, else header, payload and CRC, and nothing behind them |
| WireFormat.FrameBytes | common/src/nros_stream_parser.c:121-145 | a frame is 0xAA 0x55, type, topic, length low byte first, payload, and the CRC of all that, low byte first |
| WireFormat.DiscoverBytes | nano_ros_agent/src/agent.cpp:124-130 | the agent's question is AA 55 05 00 00 00 1A E3 |
| WireFormat.DoneBytes | libnanoros/src/nano_ros.c:109-121 | the end of the registration is AA 55 04 00 00 00 AE 95 |
| WireFormat.AckBytes | nano_ros_agent/src/agent.cpp:56-66 | an acknowledgement is a frame of type 3 with the id, length two, and id and status as payload |
| WireFormat.RegistrationBytes | libnanoros/src/nano_ros.c:133-153 | a registration is a frame of type 1: id, quality of service, the two lengths, type name, topic name |
| WireFormat.WordBytes | external/micro_cdr/Micro-CDR-2.0.2/src/c/types/basic.c:66-69 | a 32-bit integer is four bytes from the least to the most significant |
| WireFormat.SyncInLastByte | common/src/nros_stream_parser.c:70-79 | behind a header that announces too much, a frame whose sync starts with its last byte is delivered |
| Framing.FeedBody | common/src/nros_stream_parser.c:45-119 | header and payload of a frame take a hunting parser to exactly that point |
| Framing.FeedFrame | common/src/nros_stream_parser.c:45-145 | parsing undoes encoding: the frame is delivered by its last byte and not before |
| Framing.DamagedFrame | common/src/nros_stream_parser.c:45-145 | a frame damaged in two adjacent bytes outside magic and length is delivered iff it is undamaged or the damage is the one that escapes; otherwise one failure is counted |
| Framing.DamageDetected | common/src/nros_stream_parser.c:98-115 | the CRC comparison succeeds in exactly those cases |
| Framing.SomeDamageEscapes | common/src/nros_stream_parser.c:98-115 | every frame with a payload can be damaged so that a hunting parser delivers one with another last payload byte in its place |
| Delivery.ChunkingIrrelevant | common/src/nros_stream_parser.c:45-119 | how the stream is cut into feed calls makes no difference |
| Delivery.FeedNoise | common/src/nros_stream_parser.c:50-58 | bytes without a sync change nothing but the window |
| Delivery.StreamDelivery | common/src/nros_stream_parser.c:45-145 | over noise and damage exactly the undamaged frames arrive, in order, and the failures counted are the damaged ones |
| Delivery.CorruptionTolerance | common/src/nros_stream_parser.c:40-145 | the same for a fresh parser fed in any chunks |
| Delivery.Soundness | common/src/nros_stream_parser.c:45-145 | any input at all is the delivered frames' encodings with gaps between them |
| Delivery.CallbackSound | common/src/nros_stream_parser.c:98-115 | when the callback fires the bytes so far end with the encoding of what it delivers |
| Delivery.SyncsConserved | common/src/nros_stream_parser.c:45-119 | syncs found are callbacks, CRC failures, resyncs and the frame in progress |
| Delivery.BackToHunt | common/src/nros_stream_parser.c:45-119 | a parser in a frame is hunting again within as many bytes as the frame can still have |
| Delivery.HuntingWithin1030 | common/src/nros_stream_parser.c:45-119 | at most 1030 bytes after any sync the parser has been hunting again |
| Delivery.NoiseHunts | common/src/nros_stream_parser.c:45-119 | 1030 bytes without a sync leave the parser hunting, whatever frame it was in |
| Delivery.Recovers | common/src/nros_stream_parser.c:45-145 | whatever was read before, damage of any kind included, the frame behind 1031 bytes without a sync is delivered last and the parser hunts |
| Cdr.PadLeast | external/micro_cdr/Micro-CDR-2.0.2/src/c/common.c:172-177 | the padding brings a position to a multiple of the width, and no shorter one does |
| Cdr.SizeConcat | external/micro_cdr/Micro-CDR-2.0.2/src/c/common.c:172-177 | the size of calls in a row adds up from where the first ones end |
| Cdr.ImageHolds | external/micro_cdr/Micro-CDR-2.0.2/src/c/common.c:172-177 | the standard's layout holds every value at its aligned place |
| Cdr.ImageFrame | external/micro_cdr/Micro-CDR-2.0.2/src/c/common.c:172-177 | and touches nothing else |
| MicroCdr.AlignmentIsPad | external/micro_cdr/Micro-CDR-2.0.2/src/c/common.c:172-177 | the masked formula is the distance to the next multiple |
| MicroCdr.ShortcutSound | external/micro_cdr/Micro-CDR-2.0.2/src/c/common.c:172-186 | the shortcut and the cut to 32 bits agree with the plain formula while the last width divides the offset |
| MicroCdr.MoveRefines | external/micro_cdr/Micro-CDR-2.0.2/src/c/types/basic.c:56-123 | slots, callback and shortcut notwithstanding, every call moves the cursor along the stream as on one plain buffer, and keeps the shortcut's invariant |
| MicroCdr.PutExact | external/micro_cdr/Micro-CDR-2.0.2/src/c/types/basic.c:22-123 | along the stream a serialize call succeeds iff padding and value fit in all remaining slots, and then writes exactly the value behind the padding |
| MicroCdr.GetExact | external/micro_cdr/Micro-CDR-2.0.2/src/c/types/basic.c:142-244 | along the stream a deserialize call succeeds iff they are there, and reads exactly that place |
| MicroCdr.ErrorSticks | external/micro_cdr/Micro-CDR-2.0.2/src/c/common.c:28-72 | with the error flag set no call writes a byte, moves the cursor or clears the flag |
| MicroCdr.PutAllExact | external/micro_cdr/Micro-CDR-2.0.2/src/c/types/basic.c:22-139 | calls in a row succeed iff their CDR size fits, and then leave the standard's layout |
| MicroCdr.PutAllSticks | external/micro_cdr/Micro-CDR-2.0.2/src/c/common.c:28-72 | after an error no number of calls changes anything |
| MicroCdr.PutAllSame | external/micro_cdr/Micro-CDR-2.0.2/src/c/types/array.c:33-58 | slots make no difference to the stream that is written nor to the position |
| MicroCdr.GetAllSame | external/micro_cdr/Micro-CDR-2.0.2/src/c/types/array.c:60-85 | nor to what is read from the stream |
| MicroCdr.PutAllSlot | external/micro_cdr/Micro-CDR-2.0.2/src/c/common.c:211-221 | without further slots the buffer keeps its bounds, so its length is what was written |
| MicroCdr.ResetWrites | external/micro_cdr/Micro-CDR-2.0.2/src/c/common.c:140-154 | after a reset calls write from the start of the slot again, whatever was written and whatever failed |
| Slots.WriteGathered | external/micro_cdr/Micro-CDR-2.0.2/src/c/types/basic.c:74-112 | writing inside one of the slots, wherever they lie, writes the stream at that place and nothing outside the slots |
| Slots.ReadGathered | external/micro_cdr/Micro-CDR-2.0.2/src/c/types/basic.c:195-233 | reading inside one slot reads the stream at that place |
| Slots.OnePlace | external/micro_cdr/Micro-CDR-2.0.2/src/c/common.c:35-47 | an address belongs to one place of the stream only |
| Slots.Determined | external/micro_cdr/Micro-CDR-2.0.2/src/c/common.c:35-47 | the stream and the bytes around the slots determine the memory |
| UcdrBuffer.FragmentationTransparent | external/micro_cdr/Micro-CDR-2.0.2/src/c/types/array.c:33-58 | after any serialize calls the slots, wherever they lie, hold one after the other what a plain buffer would hold, at the same position, and no other memory with the same bytes around them does |
| UcdrBuffer.Ucdr.InitBufferOriginOffset | external/micro_cdr/Micro-CDR-2.0.2/src/c/common.c:103-131 | initial state of a buffer with slots to come, at any addresses that do not overlap |
| UcdrBuffer.Ucdr.FromStart | external/micro_cdr/Micro-CDR-2.0.2/src/c/common.c:86-92 | initial state of a buffer over the rest of an array |
| UcdrBuffer.Ucdr.ResetBufferOffset | external/micro_cdr/Micro-CDR-2.0.2/src/c/common.c:146-154 | back to the start, error cleared |
| UcdrBuffer.Ucdr.AlignTo | external/micro_cdr/Micro-CDR-2.0.2/src/c/common.c:156-170 | for one of the four widths: moves to the next multiple but not past the slot, and remembers the width |
| UcdrBuffer.AlignExact | external/micro_cdr/Micro-CDR-2.0.2/src/c/common.c:156-170 | aligning brings the offset to the next multiple; the cursor follows iff the padding fits in the slot, else it stops at its end |
| UcdrBuffer.Ucdr.PaddingFor | external/micro_cdr/Micro-CDR-2.0.2/src/c/common.c:179-186 | the alignment shortcut |
| UcdrBuffer.Ucdr.OnFullBuffer | external/micro_cdr/Micro-CDR-2.0.2/src/c/common.c:35-47 | the callback hands out the next slot, wherever it lies, or sets the error flag |
| UcdrBuffer.Ucdr.CheckFinalBufferBehavior | external/micro_cdr/Micro-CDR-2.0.2/src/c/common.c:35-47 | asks for a slot only at the end of this one |
| UcdrBuffer.Ucdr.CheckFinalBufferBehaviorArray | external/micro_cdr/Micro-CDR-2.0.2/src/c/common.c:49-72 | how much of an array this slot takes |
| UcdrBuffer.Ucdr.AdvanceBuffer | external/micro_cdr/Micro-CDR-2.0.2/src/c/common.c:188-209 | advances over slots, and the last width becomes one |
| UcdrBuffer.Ucdr.CopyIn | external/micro_cdr/Micro-CDR-2.0.2/src/c/types/basic.c:74-112 | a copy must lie inside one slot; it writes the stream there, and the bytes around the slots stay |
| UcdrBuffer.Ucdr.CopyOut | external/micro_cdr/Micro-CDR-2.0.2/src/c/types/basic.c:195-233 | a load must lie inside one slot and yields the stream there |
| UcdrBuffer.Ucdr.StoreAcross | external/micro_cdr/Micro-CDR-2.0.2/src/c/types/basic.c:75-84 | the first bytes go to the end of the last slot, the others to the start of this one |
| UcdrBuffer.Ucdr.FetchAcross | external/micro_cdr/Micro-CDR-2.0.2/src/c/types/basic.c:195-204 | and are read from there |
| UcdrBuffer.Ucdr.CrossSlot | external/micro_cdr/Micro-CDR-2.0.2/src/c/types/basic.c:75-79 | from the end of a slot to the start of the next one, which takes any value, or into the error state |
| UcdrBuffer.Ucdr.SerializeByte | external/micro_cdr/Micro-CDR-2.0.2/src/c/types/basic.c:22-31 | writes a one-byte value |
| UcdrBuffer.Ucdr.SerializeWord | external/micro_cdr/Micro-CDR-2.0.2/src/c/types/basic.c:56-123 | pads and writes a value of two, four or eight bytes, inside the slots |
| UcdrBuffer.Ucdr.SplitWord | external/micro_cdr/Micro-CDR-2.0.2/src/c/types/basic.c:74-112 | a value between two slots goes partly into each, or nowhere, and nothing outside the slots changes |
| UcdrBuffer.Ucdr.ArrayToBuffer | external/micro_cdr/Micro-CDR-2.0.2/src/c/types/array.c:33-58 | copies an array slot by slot as far as it fits |
| UcdrBuffer.Ucdr.SerializeArray | external/micro_cdr/Micro-CDR-2.0.2/src/c/types/array.c:87-126 | pads once and writes an array, inside the slots |
| UcdrBuffer.Ucdr.DeserializeByte | external/micro_cdr/Micro-CDR-2.0.2/src/c/types/basic.c:142-151 | reads a one-byte value |
| UcdrBuffer.Ucdr.DeserializeWord | external/micro_cdr/Micro-CDR-2.0.2/src/c/types/basic.c:176-244 | skips padding and reads a wider value |
| UcdrBuffer.Ucdr.LoadSplitWord | external/micro_cdr/Micro-CDR-2.0.2/src/c/types/basic.c:195-232 | a value between two slots is put together again |
| UcdrBuffer.Ucdr.BufferToArray | external/micro_cdr/Micro-CDR-2.0.2/src/c/types/array.c:60-85 | reads an array slot by slot |
| UcdrBuffer.Ucdr.DeserializeArray | external/micro_cdr/Micro-CDR-2.0.2/src/c/types/array.c:128-166 | skips padding and reads an array |
| UcdrBuffer.StoreAllIs | external/micro_cdr/Micro-CDR-2.0.2/src/c/types/array.c:45-56 | the copy loop over slots writes one uncut piece of the stream, up to the end of the last slot |
| UcdrBuffer.ShortcutAlwaysSound | external/micro_cdr/Micro-CDR-2.0.2/src/c/common.c:156-209 | after any calls of reset, align, advance, transfer or a rejected sequence length, unless in error, shortcut and plain formula agree |
| FieldTree.Prim.Align | nano_ros_codegen/src/msg_file_parser.rs:66-74 | a value is aligned to a width; which one `Widths.ValueSize` says |
| Widths.ValueSize | nano_ros_codegen/src/msg_file_parser.rs:66-85 | alone in a message a primitive takes as many bytes as tell its values apart, 2 to the 8th, 16th, 32nd or 64th of them by its name, behind a byte twice as many; max_payload_size is the same plus four |
| Widths.EveryValueOnce | nano_ros_codegen/src/msg_file_parser.rs:66-85 | every value of a type is held by just one content of a field |
| Widths.NoOtherValue | nano_ros_codegen/src/msg_file_parser.rs:66-85 | and no content holds anything else |
| FieldTree.FlattenInjective | nano_ros_codegen/src/codegen.rs:28-80 | a message of a type is determined by what the generated code visits |
| FieldTree.OpsConcat | nano_ros_codegen/src/codegen.rs:103-108 | the calls for two lists of leaves are the calls for one after those for the other |
| SizeAnalysis.CdrPos.AddField | nano_ros_codegen/src/codegen.rs:220-234 | one step of the analysis, with the loop over possible residues |
| SizeAnalysis.CdrPos.AddPrimitive | nano_ros_codegen/src/codegen.rs:236-245 | a string costs its length and 256 bytes and loses the position |
| SizeAnalysis.MaxCdrSize | nano_ros_codegen/src/codegen.rs:249-260 | the recursion over the tree computes the analysis of its leaves in order |
| SizeAnalysis.MaxFieldSize | nano_ros_codegen/src/codegen.rs:252-257 | likewise for one field, with loops for arrays |
| SizeTheorems.AddSound | nano_ros_codegen/src/codegen.rs:220-234 | the residue stays right, the count is never too small, and too large only by what the position gains in modulus |
| SizeTheorems.WorstPad | nano_ros_codegen/src/codegen.rs:224-226 | the worst padding is at least the real one and at most align - m more |
| SizeTheorems.StringSound | nano_ros_codegen/src/codegen.rs:236-243 | the same for a string, with seven bytes and the unused characters as credit |
| SizeTheorems.MaxSizeSound | nano_ros_codegen/src/codegen.rs:249-260 | for any leaves from any covered position: the final position is congruent to r modulo m, the bound holds, and the amortised overestimate is bounded |
| SizeTheorems.SizeSound | nano_ros_codegen/src/codegen.rs:263-265 | no message, header included, is larger than max_payload_size, which exceeds it by the credit at most |
| SizeTheorems.SizePrecise | nano_ros_codegen/src/codegen.rs:249-265 | exact for types without strings; else at most seven bytes and the unused characters per string |
| SizeTheorems.SizeOfFullStrings | nano_ros_codegen/src/codegen.rs:249-265 | with all strings full the overestimate is at most seven bytes per string |
| LongestMessages.NoneLonger | nano_ros_codegen/src/codegen.rs:103-108 | no message of a type, from any position, ends behind the longest one from the same or a later position |
| LongestMessages.FullIsLongest | external/micro_cdr/Micro-CDR-2.0.2/src/c/types/string.c:24-29 | a message whose strings are full is exactly that long |
| LongestMessages.FullConforms | nano_ros_codegen/src/codegen.rs:103-108 | every type has such a message |
| LongestMessages.BoundExact | nano_ros_codegen/src/codegen.rs:249-265 | for every type, with or without strings and arrays of length zero: no message is larger than max_payload_size iff the longest, computed from the type, is not |
| LongestMessages.BoundWithoutEmpties | nano_ros_codegen/src/codegen.rs:249-265 | without arrays of length zero it is not |
| EmptyArrays.EmptiesUnseen | nano_ros_codegen/src/codegen.rs:252-257 | the analysis of a type is that of the type without its arrays of length zero |
| EmptyArrays.KeptShorter | external/micro_cdr/Micro-CDR-2.0.2/src/c/types/array.c:92-108 | leaving out arrays of length zero never makes a message longer, from any position on |
| EmptyArrays.BoundWithEmptyArrays | nano_ros_codegen/src/codegen.rs:249-265 | for a type without strings the bound holds iff its size with the empty arrays is its size without them, both known from the type; with strings it holds for every message no longer than without them, and for all messages iff it holds for the longest (`LongestMessages.BoundExact`) |
| EmptyArrays.EmptyArrayCounts | external/micro_cdr/Micro-CDR-2.0.2/src/c/types/array.c:92-108 | every message of a byte and an empty array of doubles takes twelve bytes, five are promised |
| EmptyArrays.EmptyArrayFree | external/micro_cdr/Micro-CDR-2.0.2/src/c/types/array.c:92-108 | with a double behind them the bound of twenty bytes is met exactly |
| EmptyArrays.EmptyArrayBehindString | external/micro_cdr/Micro-CDR-2.0.2/src/c/types/array.c:92-108 | every message of a full string and an empty array of doubles takes 268 bytes, 264 are promised |
| Serde.Chars | external/micro_cdr/Micro-CDR-2.0.2/src/c/types/string.c:39-46 | the characters of a char array are those before the first terminator |
| Serde.ReadLeafBack | external/micro_cdr/Micro-CDR-2.0.2/src/c/types/sequence.c:27-64 | a leaf that stands in memory is read back, strings through length and terminator |
| Serde.ReadLeavesBack | nano_ros_codegen/src/codegen.rs:111-118 | so are all leaves of a message, ending right behind them |
| Serde.ReadLeavesStick | external/micro_cdr/Micro-CDR-2.0.2/src/c/common.c:28-72 | once in error the deserializer moves nothing, and returns true iff only strings are left whose stale lengths are zero |
| Serde.StringTrueDespiteError | external/micro_cdr/Micro-CDR-2.0.2/src/c/types/string.c:39-46 | a string call returns true in the error state iff its length is cut off and the uninitialised local holds zero |
| Serde.TrueDespiteError | nano_ros_codegen/src/codegen.rs:111-118 | the same for a whole message, call by call: exactly when the first failing call is such a string and only such strings follow |
| Received.StringRead | external/micro_cdr/Micro-CDR-2.0.2/src/c/types/sequence.c:27-64 | once its four length bytes arrived, a string above 256 bytes or longer than what follows is refused with the error flag set, an empty one keeps the destination, any other yields its bytes up to the first terminator |
| Received.LeafRead | external/micro_cdr/Micro-CDR-2.0.2/src/c/types/basic.c:142-244 | any other leaf is read iff all of it arrived, and is the bytes behind the padding, of which a bool keeps whether its byte is zero |
| Received.NoneOverruns | external/micro_cdr/Micro-CDR-2.0.2/src/c/types/sequence.c:33-36 | whatever bytes arrive, when a message is read without an error no string in it overran its destination |
| Received.OverlongRefused | external/micro_cdr/Micro-CDR-2.0.2/src/c/types/sequence.c:33-36 | a message with a string that is too long is refused with the error flag set |
| Truncation.LastLeafTells | nano_ros_codegen/src/codegen.rs:111-118 | for a type whose last leaf is no string the deserializer returns true iff the buffer is not in error |
| Truncation.FrontRead | nano_ros_codegen/src/codegen.rs:111-118 | from the first bytes of a message a leaf that arrived completely is read back |
| Truncation.CutRead | nano_ros_codegen/src/codegen.rs:111-118 | a leaf that did not puts the buffer in error |
| Truncation.CutExact | nano_ros_codegen/src/codegen.rs:111-118 | from the first bytes of a message there is no error iff all of it arrived; true in spite of an error iff the cut is in the length of a string and from there on only strings follow, with stale zeros |
| Truncation.MisleadsIff | external/micro_cdr/Micro-CDR-2.0.2/src/c/types/string.c:39-46 | true in spite of an error is possible iff the bytes that arrived end in the padding or length of a string with only strings behind it |
| Truncation.NothingMisleads | external/micro_cdr/Micro-CDR-2.0.2/src/c/types/string.c:39-46 | a type with one string, no bytes, a stale zero: true, with whatever the destination held |
| GeneratedCode.SerializePrim | nano_ros_codegen/src/codegen.rs:44-57 | one call for a primitive |
| GeneratedCode.SerializeString | external/micro_cdr/Micro-CDR-2.0.2/src/c/types/string.c:24-29 | length with terminator, then the characters |
| GeneratedCode.SerializeField | nano_ros_codegen/src/codegen.rs:28-61 | the call or calls for one field |
| GeneratedCode.SerializeFields | nano_ros_codegen/src/codegen.rs:103-108 | the generated serializer makes the calls of the message in order; it returns true iff there are none or the buffer is not in error |
| GeneratedCode.SerializeItems | nano_ros_codegen/src/codegen.rs:33-37 | the loop over an array of structs |
| GeneratedCode.DeserializePrim | nano_ros_codegen/src/codegen.rs:74-81 | one call for a primitive, a bool becoming 0 or 1 |
| GeneratedCode.DeserializeString | external/micro_cdr/Micro-CDR-2.0.2/src/c/types/sequence.c:27-64 | a length beyond the capacity sets the error flag; a length of zero returns true at once; what that makes of any bytes `Received.StringRead` says |
| GeneratedCode.DeserializeField | nano_ros_codegen/src/codegen.rs:63-80 | the call or calls for one field |
| GeneratedCode.DeserializeFields | nano_ros_codegen/src/codegen.rs:111-118 | the generated deserializer reads the leaves of its type in order into a message of that type |
| GeneratedCode.DeserializeItems | nano_ros_codegen/src/codegen.rs:68-72 | the loop over an array of structs |
| GeneratedCode.SerializerExact | nano_ros_codegen/src/codegen.rs:103-108 | the serializer returns true iff the message's CDR size fits, and then the layout is the standard's and the cursor right behind it |
| GeneratedCode.CodecRoundTrip | nano_ros_codegen/src/codegen.rs:82-121 | the deserializer returns the message that was serialized and stops where the serializer stopped, whatever the slots of either stream |
| Publishing.WritePayload | libnanoros/src/nano_ros.c:401-418 | encapsulation header, the bytes 00 01 00 00, and message stand in the payload buffer iff they fit |
| Publishing.CheckedTopicFits | nano_ros_codegen/src/codegen.rs:279-285 | a message of a topic that passed the build check, where the bound checked is one, fits with header and CRC in one buffer |
| Publishing.PayloadReadsBack | libnanoros/src/nano_ros.c:406-418 | the payload starts 00 01 00 00, and behind that is a stream of its own, from which the message reads back completely |
| Publishing.LeadingString | libnanoros/src/nano_ros.c:406-418 | the header declares little-endian CDR and a string at the front is just that: length with terminator least significant byte first, characters, terminator |
| Registration.RegistrationRoundTrip | nano_ros_agent/src/agent.cpp:29-54 | the agent decodes exactly the topic the board encoded, and refuses it iff its quality of service is unknown |
| WireFormat.RegistrationDecoded | nano_ros_agent/src/agent.cpp:29-54 | any registration at all: malformed iff shorter than it announces, else refused iff the quality of service is above five, else exactly the topic it spells out |
| AgentTheorems.RegistrationAnswered | nano_ros_agent/src/agent.cpp:117-141 | every registration, well-formed or not, is answered in the same turn with its id and the verdict, and its topic is kept iff that is ok |
| Board.NanoRos.constructor | libnanoros/src/nano_ros.c:61-69 | the static state before anything runs |
| Board.NanoRos.NrosInit | libnanoros/src/nano_ros.c:382-399 | the parser starts over; false, and no topic is entered, when the transport is not ready; else every number of a topic leads to the last topic that has it |
| Board.InitialisedReady | libnanoros/src/nano_ros.c:382-399 | from power-up this makes the board the sessions start with |
| Board.NanoRos.LoadNextRegistrationFrame | libnanoros/src/nano_ros.c:108-160 | the next registration or the end of them goes to the transmitter; a name too long is dropped |
| Board.NanoRos.RegisterTopicsStart | libnanoros/src/nano_ros.c:162-172 | registration starts over unless a frame is being sent |
| Board.NanoRos.TxFrameComplete | libnanoros/src/nano_ros.c:178-202 | the transmitter is idle, and registration complete when its last frame is out |
| Board.NanoRos.NrosDispatch | libnanoros/src/nano_ros.c:224-273 | what each frame of the agent makes the board do, whether nros_init succeeded or not; a DATA frame calls the callback of the topic its number leads to, null for none and for a topic the board publishes |
| Board.NanoRos.HostAck | libnanoros/src/nano_ros.c:240-262 | an acknowledgement nobody waits for is ignored; during registration it brings on the next topic or the end |
| Board.NanoRos.TxPoll | libnanoros/src/nano_ros.c:305-325 | a partial write takes the next bytes of the frame, the last one completes it |
| Board.NanoRos.RxPoll | libnanoros/src/nano_ros.c:363-375 | a read of at most 64 bytes is parsed and its frames dispatched in order |
| Board.NanoRos.NrosPublish | libnanoros/src/nano_ros.c:401-450 | publishing succeeds iff idle, registered and fitting, always for a checked topic; the frame is header, payload and CRC, and nothing is sent otherwise |
| BoardTheorems.DispatchSends | libnanoros/src/nano_ros.c:108-273 | on any board and any frame: a question makes an idle board send its first registration, an awaited acknowledgement the next one or the end, a name above 128 bytes none, and nothing else is sent; a frame still being sent is overwritten exactly when such an acknowledgement comes early |
| BoardTheorems.PublishIff | libnanoros/src/nano_ros.c:401-450 | on any board: a frame is sent iff its payload has at most 1016 bytes, the board is idle and registration is complete, and replaces none |
| AgentNode.AgentLoop.DecodeRegistrationFrame | nano_ros_agent/src/agent.cpp:29-54 | malformed, unknown quality of service, or accepted, with the topic decoded |
| AgentNode.AgentLoop.FrameDispatch | nano_ros_agent/src/agent.cpp:148-181 | what each frame of the board makes the agent do |
| AgentNode.AgentLoop.SpawnClient | nano_ros_agent/src/agent.cpp:183-196 | the client is created with the topics collected so far |
| AgentNode.AgentLoop.RecvFrame | nano_ros_agent/src/transport/serial.cpp:311-358 | bytes read are parsed, completed frames queued, the first one returned |
| AgentNode.AgentLoop.SendFrame | nano_ros_agent/src/transport/serial.cpp:125-151 | the encoding is written, or nothing when it exceeds the buffer |
| AgentNode.AgentLoop.AckClient | nano_ros_agent/src/agent.cpp:56-68 | the acknowledgement carries id and status |
| AgentNode.AgentLoop.RunTurn | nano_ros_agent/src/agent.cpp:117-141 | one turn: at most one frame in, then DISCOVER, one queued message of any size and the acknowledgement out, in this order; a message too large for a frame is dropped |
| AgentTheorems.DispatchDoes | nano_ros_agent/src/agent.cpp:148-181 | on any agent and any frame: the verdict on a registration, the topic kept, the message passed on, the client made, and data without a client a fault |
| AgentTheorems.TurnWrites | nano_ros_agent/src/agent.cpp:117-141 | on any agent: what a turn writes, with the payload received last behind a question that announces none |
| Channel.Delivered | common/src/nros_stream_parser.c:45-119 | what a parser has delivered is a prefix of what was sent, and all of it iff no byte is on the way |
| Channel.Consume | common/src/nros_stream_parser.c:45-119 | reading any part of the bytes on the way leaves the rest on the way |
| Channel.Send | common/src/nros_stream_parser.c:121-145 | a frame written behind them is on the way too |
| Session.InvStart | libnanoros/src/nano_ros.c:382-399 | the session's invariant holds at power-up |
| Session.InvWrites | libnanoros/src/nano_ros.c:305-325 | a partial write of the board keeps it |
| Session.InvReads | libnanoros/src/nano_ros.c:369-375 | so does a read with all the frames it completes |
| Session.InvPublishes | libnanoros/src/nano_ros.c:401-450 | so does an attempt to publish |
| Session.InvTurns | nano_ros_agent/src/agent.cpp:117-141 | so does a turn of the agent |
| Session.AckFindsIdle | libnanoros/src/nano_ros.c:240-261 | an acknowledgement that reaches the board during registration finds its transmitter idle and answers the last topic sent |
| Session.OneAhead | libnanoros/src/nano_ros.c:249-261 | the board is at most one frame ahead of the agent |
| SessionTheorems.RunInv | nano_ros_agent/src/agent.cpp:117-141 | the invariant holds after every sequence of steps |
| SessionTheorems.RegistrationCorrect | nano_ros_agent/src/agent.cpp:151-178 | whenever the client exists it was given exactly the accepted topics in the board's order; when the board may publish the agent has them all |
| SessionTheorems.AcceptedExactly | nano_ros_agent/src/agent.cpp:49-53 | the accepted topics are those with a known quality of service, each once, in order |
| SessionTheorems.OrderingSafe | nano_ros_agent/src/agent.cpp:151-154 | the agent never uses a client that does not exist, and the board never overwrites a frame it is sending |
| SessionTheorems.PublishedInOrder | nano_ros_agent/src/agent.cpp:151-154 | what reaches the client is a prefix of the data frames the board sends |
| Progress.SomethingMoves | libnanoros/src/nano_ros.c:377-380 | until registration is complete some step can move a byte |
| Progress.EveryByteCounts | libnanoros/src/nano_ros.c:305-325 | every step takes exactly the bytes it moves off the measure |
| Progress.EndsInTime | libnanoros/src/nano_ros.c:178-202 | registration takes no more productive steps than the measure, whoever goes first |
| Progress.CanFinish | libnanoros/src/nano_ros.c:178-202 | from every reachable state registration can be completed |
| Traffic.BoardLogs | libnanoros/src/nano_ros.c:401-450 | a step of the board adds to the data frames it sends just the publish that succeeded, and calls one callback for each data frame received |
| Traffic.AgentLogs | nano_ros_agent/src/agent.cpp:117-141 | a turn of the agent adds to the data frames it sends just the queued message that fits |
| Traffic.MessagesInOrder | nano_ros_agent/src/agent.cpp:148-154 | in every first session the client is given exactly the successful publishes and the callbacks exactly the messages the client queued, each a prefix in order, and all of them once nothing is on the way |
| EndToEnd.PayloadDecodes | libnanoros/src/nano_ros.c:401-418 | what is published decodes to its message behind the encapsulation header, whatever was in memory |
| EndToEnd.PublishedDecode | libnanoros/src/nano_ros.c:401-450 | in every first session each payload given to the client is that of the corresponding successful publish and decodes to its message |
| EndToEnd.ForwardedArrives | libnanoros/src/nano_ros.c:229-239 | a message forwarded for a generated id is dispatched to the callback of just that topic, null iff the board publishes it |
| EndToEnd.OnlySubscribersCalled | nano_ros_codegen/src/codegen.rs:346-353 | when all that is forwarded is what the client has subscribed to, each message calls the callback of a topic with its id which the board subscribes to |
| EndToEnd.QueuedMayGo | nano_ros_agent/src/agent.cpp:131-135 | what the client's callback queues may be forwarded in any turn once the client exists |
| EndToEnd.QueuedIsDelivered | libnanoros/src/nano_ros.c:229-239 | and a board that is ready makes of it just one call, to the topic with that id, with what followed the encapsulation header |
| EndToEnd.BoardToBoard | nano_ros_agent/src/client_handler.cpp:48-76 | over two whole sessions: a message published on one board and queued by the other agent's client for a topic is dispatched to that topic's callback, if it has one, and decodes to the message that was published |
| Emission.TrimSuffix | nano_ros_codegen/src/codegen.rs:89-93 | stripping leaves a prefix without the suffix |
| Emission.TrimExact | nano_ros_codegen/src/codegen.rs:171-174 | from struct name to function prefix iff the type's name does not end in the suffix |
| Emission.TrimTooMuch | nano_ros_codegen/src/codegen.rs:171-174 | from the struct of a type x_t the generator gets to the functions of x |
| Emission.Generator.Generate | nano_ros_codegen/src/codegen.rs:82-166 | the memoised recursion, for structs and for functions |
| Emission.GenerateAll | nano_ros_codegen/src/codegen.rs:395-406 | over all topics with the shared set |
| EmissionTheorems.VisitGood | nano_ros_codegen/src/codegen.rs:123-166 | writing one type keeps the order, and a type begun is never asked for inside itself |
| EmissionTheorems.EmissionOrdered | nano_ros_codegen/src/codegen.rs:395-406 | every definition is written once and every topic's type is there |
| EmissionTheorems.OrderedAt | nano_ros_codegen/src/codegen.rs:123-166 | each definition comes after all those it uses |
| EmissionTheorems.StructsMatchFunctions | nano_ros_codegen/src/codegen.rs:399-406 | structs and function pairs come out for the same types in the same order |
| TopicIds.GenerateTopicIds | nano_ros_codegen/src/codegen.rs:297-322 | ids are handed out in order per direction; an error iff there are more than 128 publishers or 127 subscribers |
| TopicIds.IdRanges | nano_ros_codegen/src/codegen.rs:297-322 | subscribers get 0 to 126, publishers 127 to 254 |
| TopicIds.IdsDistinct | nano_ros_codegen/src/codegen.rs:297-322 | no two topics get the same id |
| TopicIds.IdsInOrder | nano_ros_codegen/src/codegen.rs:297-322 | later topics of a direction get higher ids |
| TopicIds.IdsDense | nano_ros_codegen/src/codegen.rs:297-322 | none is skipped: subscribers are numbered 0, 1, 2 and so on, publishers 127, 128, 129 and so on |
| TopicIds.DirectionRecovered | nano_ros_agent/src/client_handler.cpp:32-34 | the agent's test on the id recovers the direction |
| TopicIds.InitTopicMap | libnanoros/src/nano_ros.c:394-396 | the index holds the last topic with each id; other ids keep what they had |
| TopicIds.IndexAgrees | libnanoros/src/nano_ros.c:394-396 | with generated ids every id leads to its own topic |
| ClientHandler.ClientHandlerNode.OnClientConnect | nano_ros_agent/src/client_handler.cpp:10-46 | every topic gets a handle of the direction its id says and the profile its quality of service asks for, later ones replacing earlier ones with the same id; the table overruns iff one has id 255 |
| ClientHandler.NamedQosKept | nano_ros_agent/src/client_handler.cpp:10-26 | a quality of service the generator knows by name is known to the agent, and is what ROS is asked for |
| ClientHandler.ClientHandlerNode.ClientSubscriptionCallback | nano_ros_agent/src/client_handler.cpp:48-65 | a message loses its encapsulation header and is queued as a DATA frame, type 2, and is dropped when it has none |
| ClientHandler.EveryTopicConnected | nano_ros_agent/src/client_handler.cpp:10-46 | after a session every accepted topic of a board with generated ids is within the table and connected as itself, in its own direction, with a profile no other known quality of service has |
| ClientHandler.SubscribedIsSubscriber | nano_ros_agent/src/client_handler.cpp:28-46 | what the client subscribes to is an accepted topic of the board which the board subscribes to |
| ClientHandler.MessageArrives | nano_ros_agent/src/client_handler.cpp:48-76 | a message published by one board, framed, parsed, stripped, framed and parsed again deserializes to itself on another board |

## Left out

- Opposite endianness: the branches that reverse bytes, of which the one that splits a value between slots does not place them as the contiguous case does; nano_ros never leaves the native order.
- UcdrBuffer.Ucdr.InitBufferOriginOffset: no slots of fewer than eight bytes behind the first one, because a value could then need a third slot, which the library does not handle; and no slots that overlap or are handed out again, because what was written there first is then gone.
- UcdrBuffer.Ucdr.AlignTo: for widths one, two, four and eight only; the masked formula is the distance to the next multiple just for powers of two, and nothing in the repository aligns to anything else.
- Transports: serial, CAN, USB and Ethernet, their timeouts and errors; only the byte channels with partial reads and writes are modelled, and the CAN transport's own framing is not.
- A second registration: the agent asks once, and a publish cannot come between a registration and its acknowledgement; `registration_complete` and `new_topics_` are never cleared in the code, so nothing is claimed for a second DISCOVER.
- Frames that reach the agent before its first DISCOVER: in a first session there are none, which the invariant shows.
- Recovery inside an oversize header: only its last byte is looked at again, so a sync in the discarded bytes is not found.
- Arrays of strings: the generator emits a call for characters, so they are not part of the type language.
- Received strings without a terminator: the model reads as characters what comes before the first zero byte or the end.
- Float values: four or eight bytes of any content.
- Callbacks: invocations are logged with their topic and payload; what a subscriber's callback does is not modelled, nor what following a null pointer does, which the log shows as a missing topic. Which topics have one is told from their ids, as the generator numbers them.
- What the write behind the client's table for id 255 hits, and the handle of that topic.
- `client_publish` for ids that are not publishers; and what rclcpp makes of a profile.
- File search, `.msg` parsing, TOML and argument parsing, the text around definitions, prototypes and the user functions: only the order and names of definitions are modelled.
- `ThreadSafeQueue` and threads: the queue's next message is an input of the agent's turn.
