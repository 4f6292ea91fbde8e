# The AMQP client engine and the expiring store, verified

This project models the AMQP 0-9-1 client engine under `Modules/RabbitMQ` and the time-bucketed store
`MapExpires` under `include/Tools`, in Dafny 4.11. `dafny verify dfyconfig.toml` checks it.

The engine, from the bottom up:

- `Wire.dfy`: big-endian integers, bounds-checked writing and reading.
- `FieldTable.dfy`, `FieldTableCodec.dfy`: field tables, their pure encoding and decoding (section
  4.2.5.5 of the AMQP 0-9-1 specification), and the routines that back-patch sizes and loop over entries.
- `Codegen.dfy`, `Framing.dfy`: the generator of method codecs with its bit packing (section 4.2.5.2),
  what its output does when it is run, and the output for four methods as it is in the library.
- `Properties.dfy`: flags and property lists (section 4.2.6.1).
- `Frames.dfy`, `FrameParser.dfy`, `FrameCodec.dfy`: frames (section 4.2.3), the incremental parser as a
  class over its buffers, refined to a one-shot parse, and the round trip through serialisation.
- `Octets.dfy`: methods, properties and frames octet by octet, as numbers.
- `Outbound.dfy`: partial sends, one frame, and publishing in fragments.
- `FrameQueue.dfy`, `Receiving.dfy`, `Demux.dfy`: the linked queue, receiving, waiting for any frame, for a
  frame of a channel and for the reply to a request.
- `Content.dfy`, `Consumer.dfy`: reading messages from a connection that many channels share, and the way
  from publisher to consumer (section 4.2.6).
- `Pools.dfy`, `ChannelPools.dfy`, `PoolSafety.dfy`, `PooledFrames.dfy`: the page allocator, the table of
  channel pools, a state machine for the lifetime of pool memory, and that parser, queue and pools
  together run it.
- `Capabilities.dfy`: cloning, searching and merging tables.
- `Url.dfy`, `UrlEncoding.dfy`: the URL parser that decodes in its own buffer, and `urlEncode`.
- `Tune.dfy`: negotiated limits.

`Expiry.dfy` is the store.

Loops, buffers, linked lists and objects of the source are methods, arrays and classes, each proved
against functions on values; lemmas state what is promised about those functions. Sockets, the receiving
side of the network and `sscanf` on anything but two hexadecimal digits are parameters. Where the code does
not keep a property for all inputs, the exact condition is stated in a lemma whose name ends in `Iff` or
that is listed with "exactly when" below, next to a concrete input for which the property fails:

- A table does not survive encoding when a key is longer than 255 octets, a boolean is neither 0 nor 1 or
  a kind is unknown (`TableRoundTripIff`).
- A decoded table or array may reach past its declared size (`TableEndsAsDeclaredIff`,
  `ArrayEndsAsDeclaredIff`).
- The first frame of a connection is read as it was sent only when its first payload octet is 0
  (`FirstFrameIntactIff`).
- Waiting for a channel drops the frames that are queued ahead of the match (`OthersSurviveIff`).
- A message whose headers have an empty key can be sent but not read (`PublishThenRead`).
- A client that asks for no frame limit ignores that of the server (`AgreedIsWithin`).
- Two tables can only be merged when nothing in them is refused, as two empty tables are (`MergedIff`); merging
  a table with itself is refused when a table in it is empty (`MergeSelfIff`).
- Merging takes a table from `base` that is not there when `add` has tables twice under a key (`StraysIff`).
- A frame that a caller has kept may not be put back when its channel has been released meanwhile
  (`KeptFrameMayBePutBackIff`).

## Model

| member | source | states |
|---|---|---|
| `Wire.PutUint` | `Modules/RabbitMQ/amqp_private.h:183-193` | `amqp_encode_N`: the offset advances by the width whether or not it fits; the big-endian octets are written exactly when they end within the buffer, and nothing else changes |
| `Wire.PutBytes` | `Modules/RabbitMQ/amqp_private.h:292-308` | `amqp_encode_bytes`: an empty string is accepted at any offset; any other is written exactly when it ends within the buffer |
| `Wire.GetUint` | `Modules/RabbitMQ/amqp_private.h:195-204` | `amqp_decode_N` succeeds exactly when the integer ends within the buffer, and yields a value of that width |
| `Wire.GetBytes` | `Modules/RabbitMQ/amqp_private.h:310-321` | `amqp_decode_bytes` succeeds exactly when the string ends within the buffer, and yields that many octets |
| `Wire.GetPutUint` | `Modules/RabbitMQ/amqp_private.h:213-290` | every integer of every width is read back from where it was written |
| `Wire.UnbeBe` | `Modules/RabbitMQ/amqp_private.h:213-290` | `amqp_dN` undoes `amqp_eN` for every value of the width |
| `Wire.BeUnbe` | `Modules/RabbitMQ/amqp_private.h:213-290` | `amqp_eN` undoes `amqp_dN` for all octets |
| `Wire.BigEndian` | `Modules/RabbitMQ/amqp_private.h:213-290` | the octets of an integer, digit by digit in base 256, the highest first |
| `Wire.ReadBigEndian` | `Modules/RabbitMQ/amqp_private.h:213-290` | and the integer that octets stand for |
| `Wire.Powers` | `Modules/RabbitMQ/codegen.py:68-78` | the powers of two that are used as values of bits |
| `FieldTable.ScalarRoundTrip` | `Modules/RabbitMQ/amqp_table.c:173-266` | casting a signed or unsigned integer to the unsigned wire type and back gives the value; a boolean has to be 0 or 1 |
| `FieldTable.TwosComplement` | `Modules/RabbitMQ/amqp_table.c:173-266` | both casts are two's complement: the number on the wire is the value modulo 2 to the power of its bits, and a value read is the number on the wire modulo that |
| `FieldTable.ScalarFormats` | `include/RabbitMQ/rabbitmq-c/amqp.h:427-451` | the octet, the size and the range of each scalar kind are those of a table of numbers, in both directions |
| `FieldTable.ScalarOctets` | `Modules/RabbitMQ/amqp_table.c:330-420` | every scalar of every kind: its octets as numbers, and that they are decoded to it |
| `FieldTable.StructuredOctets` | `Modules/RabbitMQ/amqp_table.c:330-420` | the octets of the other kinds: kind, size and contents |
| `FieldTable.OtherKindsAreBad` | `Modules/RabbitMQ/amqp_table.c:262-263` | any other kind octet is malformed |
| `FieldTable.OctetSamples` | `Modules/RabbitMQ/amqp_table.c:173-420` | an 8-bit -2 is 98 254, true is 116 1, in both directions |
| `FieldTable.ShortNumberSamples` | `Modules/RabbitMQ/amqp_table.c:173-420` | the same for 16 bits, signed and unsigned |
| `FieldTable.LongNumberSample` | `Modules/RabbitMQ/amqp_table.c:206-207` | a 32-bit -1 is 73 255 255 255 255 and is read from there |
| `FieldTable.LonglongNumberSample` | `Modules/RabbitMQ/amqp_table.c:173-420` | the same for a 64-bit -2 |
| `FieldTable.StringSamples` | `Modules/RabbitMQ/amqp_table.c:173-420` | text is kind 83, octets are kind 120, nothing is kind 86, in both directions |
| `FieldTable.ArraySample` | `Modules/RabbitMQ/amqp_table.c:27-91` | an array of two values, in both directions |
| `FieldTable.TableSample` | `Modules/RabbitMQ/amqp_table.c:93-171` | a table of two entries, in both directions |
| `FieldTable.Limit` | `Modules/RabbitMQ/amqp_table.c:27-48` | a declared size is accepted exactly when it and the octets it declares are in the buffer |
| `FieldTable.DecTable` | `Modules/RabbitMQ/amqp_table.c:93-171` | on arbitrary octets: decoding terminates, never reads past the buffer, and ends at or behind the declared size |
| `FieldTable.DecArray` | `Modules/RabbitMQ/amqp_table.c:27-91` | the same for arrays |
| `FieldTable.DecYields` | `Modules/RabbitMQ/amqp_table.c:173-266` | whatever the octets, a decoded value has the C type of its kind, a known kind at every depth, keys of at most 255 octets and booleans 0 or 1 |
| `FieldTable.DecTableYields` | `Modules/RabbitMQ/amqp_table.c:93-171` | the same for a decoded table |
| `FieldTable.DecEnc` | `Modules/RabbitMQ/amqp_table.c:173-266` | every value, however deeply nested, is decoded from its encoding, with the offset the encoder reached |
| `FieldTable.DecEncTable` | `Modules/RabbitMQ/amqp_table.c:93-171` | the same for tables, back-patched sizes included |
| `FieldTable.TableRoundTripIff` | `Modules/RabbitMQ/amqp_table.c:295-328` | a table comes back exactly when its keys have at most 255 octets, its booleans are 0 or 1 and its kinds are known, at every depth |
| `FieldTable.AlteredTables` | `Modules/RabbitMQ/amqp_table.c:173-266` | concrete tables that do not: a boolean of 2 comes back as 1, and a key of 256 octets does not come back |
| `FieldTable.DecOfPrefix` | `Modules/RabbitMQ/amqp_table.c:173-266` | decoding a value from a part of a buffer gives what decoding it from the whole gives, as far as that does not reach beyond the part |
| `FieldTable.TableOfPrefix` | `Modules/RabbitMQ/amqp_table.c:93-171` | the same for tables |
| `FieldTable.ArrayOfPrefix` | `Modules/RabbitMQ/amqp_table.c:27-91` | the same for arrays |
| `FieldTable.TableEndsAsDeclaredIff` | `Modules/RabbitMQ/amqp_table.c:93-171` | a decoded table ends where it declares to exactly when it can be decoded from a buffer that ends there; fields are checked against the buffer only |
| `FieldTable.ArrayEndsAsDeclaredIff` | `Modules/RabbitMQ/amqp_table.c:27-91` | the same for arrays |
| `FieldTable.TableMayExceedDeclaredSize` | `Modules/RabbitMQ/amqp_table.c:116-160` | a concrete table that is read past its declared size, and is malformed in a buffer that ends there |
| `FieldTableCodec.EncodeTable` | `Modules/RabbitMQ/amqp_table.c:295-328` | the back-patching encoder succeeds exactly when the pure length-prefixed encoding fits and all kinds are known; then the buffer holds that encoding; in every case nothing outside [start, limit) is touched, and the status is that of the first failure |
| `FieldTableCodec.EncodeEntry` | `Modules/RabbitMQ/amqp_table.c:302-318` | the same for one entry of the loop |
| `FieldTableCodec.EncodeArray` | `Modules/RabbitMQ/amqp_table.c:270-293` | the same for arrays |
| `FieldTableCodec.EncodeFieldValue` | `Modules/RabbitMQ/amqp_table.c:330-420` | the same for values of every kind |
| `FieldTableCodec.ValueStatusIff` | `Modules/RabbitMQ/amqp_table.c:330-420` | the status of encoding a value is OK exactly when it is known at every depth and fits; an invalid parameter means an unknown kind |
| `FieldTableCodec.ValuesStatusIff` | `Modules/RabbitMQ/amqp_table.c:270-293` | the same for the values of an array |
| `FieldTableCodec.EntriesStatusIff` | `Modules/RabbitMQ/amqp_table.c:295-328` | the same for the entries of a table |
| `FieldTableCodec.FailureSamples` | `Modules/RabbitMQ/amqp_table.c:302-420` | a concrete failure of each kind with its status |
| `FieldTableCodec.DecodeTable` | `Modules/RabbitMQ/amqp_table.c:93-171` | the loop with its growing entry array computes the recursive decoder |
| `FieldTableCodec.DecodeArray` | `Modules/RabbitMQ/amqp_table.c:27-91` | the same for arrays |
| `FieldTableCodec.DecodeFieldValue` | `Modules/RabbitMQ/amqp_table.c:173-266` | the same for values of every kind |
| `Codegen.BitEncoder.FlushBits` | `Modules/RabbitMQ/codegen.py:58-62` | pending bits are put out and forgotten |
| `Codegen.BitEncoder.EncodeBit` | `Modules/RabbitMQ/codegen.py:68-78` | the lines for a bit: a cleared octet at the first of eight, a flush after the eighth |
| `Codegen.BitDecoder.DecodeBit` | `Modules/RabbitMQ/codegen.py:37-47` | the lines for a bit: an octet is read for the first of eight |
| `Codegen.GenEncodeMethodFields` | `Modules/RabbitMQ/codegen.py:285-296` | the encoder state machine emits the lines of the recursive description, for every list of argument types |
| `Codegen.GenDecodeMethodFields` | `Modules/RabbitMQ/codegen.py:254-266` | the same for the decoder |
| `Codegen.FieldRoundTrip` | `Modules/RabbitMQ/codegen.py:81-160` | each single field type is decoded from what its encoder writes |
| `Codegen.PendingOctet` | `Modules/RabbitMQ/codegen.py:50-78` | bits that are pending when another field is emitted are in the octet that is written in front of it |
| `Codegen.BitRunOctets` | `Modules/RabbitMQ/codegen.py:50-78` | a run of n bits takes exactly ceil(n / 8) octets, the octet in progress counted |
| `Codegen.EncoderAccepts` | `Modules/RabbitMQ/codegen.py:285-296` | the emitted encoder encodes every structure whose strings fit their length octets and whose kinds are known |
| `Codegen.MethodRoundTrip` | `Modules/RabbitMQ/codegen.py:254-296` | for every list of argument types, bits in any places: the emitted decoder gives back the structure that the emitted encoder took, at the same offset, whatever its memory held |
| `Codegen.MethodRoundTripIff` | `Modules/RabbitMQ/codegen.py:254-296` | it does exactly when the booleans are 0 or 1 and the tables portable |
| `Codegen.DecoderAssigns` | `Modules/RabbitMQ/codegen.py:254-266` | on arbitrary octets a decoder that succeeds has assigned every member something portable |
| `Codegen.FieldOctets` | `Modules/RabbitMQ/codegen.py:81-160` | the range and the octets of each field type, as numbers; a short string of more than 255 octets is refused |
| `Codegen.BitIsDigit` | `Modules/RabbitMQ/codegen.py:68-78` | bit j of the bit buffer is the digit of value 2 to the power of j |
| `Codegen.BitRunValue` | `Modules/RabbitMQ/codegen.py:50-78` | a run of at most eight bits with no bit behind it makes one octet, the sum of 2 to the power of j over the bits that are set |
| `Codegen.BitRunIsRead` | `Modules/RabbitMQ/codegen.py:34-47` | the decoder reads that octet, and bit j is octet / 2^j modulo 2 |
| `Codegen.EncodeMethod` | `Modules/RabbitMQ/amqp_framing.c:1614-2321` | a case of `amqp_encode_method`: run with its offset and bit buffer, the emitted code writes the pure encoding if it fits, and nothing outside its room; the status is that of the first line that fails |
| `Codegen.MemberFailures` | `Modules/RabbitMQ/amqp_framing.c:1676-1685` | concrete failures of members with their statuses |
| `Codegen.PutMember` | `Modules/RabbitMQ/amqp_framing.c:1676-1685` | one emitted call of an encoder writes the field or fails inside its room |
| `Framing.TuneCode` | `Modules/RabbitMQ/amqp_framing.c:356-370` | the code in the library for connection.tune is what the generator emits |
| `Framing.QueueDeclareCode` | `Modules/RabbitMQ/amqp_framing.c:799-826` | the same for queue.declare: five bits in one octet in front of a table |
| `Framing.BasicPublishCode` | `Modules/RabbitMQ/amqp_framing.c:1103-1128` | the same for basic.publish: two bits at the end |
| `Framing.BasicDeliverCode` | `Modules/RabbitMQ/amqp_framing.c:1159-1195` | the same for basic.deliver: a bit between other fields |
| `Properties.AllotFlags` | `Modules/RabbitMQ/codegen.py:659-667` | the loop gives the k-th property the bit 16 * (k / 15) + 15 - k % 15 |
| `Properties.FlagsAreDistinct` | `Modules/RabbitMQ/codegen.py:659-667` | for any number of properties: no two share a flag, and none takes the continuation bit of its word |
| `Properties.FlagsFit` | `Modules/RabbitMQ/codegen.py:659-667` | a property has a bit of the 32-bit mask exactly when it is one of the first 30 |
| `Properties.FlagsRoundTrip` | `Modules/RabbitMQ/amqp_framing.c:1411-1428` | the flag words are read back as the flags with the continuation bit merged in |
| `Properties.FlagsRestoredIff` | `Modules/RabbitMQ/amqp_framing.c:1411-1428` | the flags come back unchanged exactly when bit 16 is clear and bit 0 says whether a second word is needed |
| `Properties.FlaggedRestored` | `Modules/RabbitMQ/amqp_framing.c:1411-1428` | the flag of every property comes back, whatever the others are |
| `Properties.MembersRoundTrip` | `Modules/RabbitMQ/amqp_framing.c:1475-1587` | the flagged members come back in order, the others are left alone |
| `Properties.PropertiesRoundTrip` | `Modules/RabbitMQ/amqp_framing.c:1411-1587` | for all presence combinations and field values: flags and flagged members come back, at the same offset |
| `Properties.EncodeFlagWords` | `Modules/RabbitMQ/amqp_framing.c:2331-2345` | the do-loop writes the flag words or fails inside its room |
| `Properties.EncodeProperties` | `Modules/RabbitMQ/amqp_framing.c:2323-2445` | it succeeds exactly when the class is known and the encoding fits, and writes that encoding; the flag words come before the class is looked at, and the status is that of the first failure |
| `Properties.EncodeMembers` | `Modules/RabbitMQ/amqp_framing.c:2360-2445` | the flagged members are written in order |
| `Properties.DecodeFlagWords` | `Modules/RabbitMQ/amqp_framing.c:1411-1428` | the do-loop computes the recursive reading of flag words |
| `Properties.DecodeProperties` | `Modules/RabbitMQ/amqp_framing.c:1411-1587` | the decoder computes the recursive reading of flags and members, and reads the flags before it looks at the class |
| `Octets.TuneOctets` | `Modules/RabbitMQ/amqp_framing.c:356-370` | connection.tune with given limits, as numbers, in both directions |
| `Octets.QueueDeclareOctets` | `Modules/RabbitMQ/amqp_framing.c:1935-1958` | queue.declare of an exclusive queue: the octet of the bits is 4, in both directions |
| `Octets.PublishOctets` | `Modules/RabbitMQ/amqp_framing.c:1103-1128` | basic.publish, immediate: the octet of the bits is 2, in both directions |
| `Octets.DeliverOctets` | `Modules/RabbitMQ/amqp_framing.c:1159-1195` | basic.deliver, redelivered, in both directions |
| `Octets.BasicFormat` | `include/RabbitMQ/rabbitmq-c/framing.h:816-839` | each basic property has the flag value and the type of a table of numbers |
| `Octets.FlagOctets` | `Modules/RabbitMQ/amqp_framing.c:2331-2345` | the flag words as numbers: fifteen flags each, and in the lowest bit whether another follows |
| `Octets.FlagsAreRead` | `Modules/RabbitMQ/amqp_framing.c:1411-1428` | and how they are read |
| `Octets.ClassIsRead` | `Modules/RabbitMQ/amqp_framing.c:1429-1587` | the classes without properties, the status for others and for missing flags |
| `Octets.BasicOctets` | `Modules/RabbitMQ/amqp_framing.c:1411-2445` | content-type and delivery-mode as numbers, in both directions |
| `Frames.ParseFrameStable` | `Modules/RabbitMQ/amqp_connection.c:205-381` | a frame that is complete, or broken, is not changed by what follows it |
| `Frames.ParseStreamAppend` | `Modules/RabbitMQ/amqp_connection.c:205-381` | a stream can be cut anywhere: parsing the second part behind the unfinished frame of the first gives the parse of the whole |
| `Frames.PartialIsIncomplete` | `Modules/RabbitMQ/amqp_connection.c:205-381` | what a parse leaves over is an unfinished frame |
| `Frames.UnderrunIff` | `Modules/RabbitMQ/amqp_connection.c:322-343` | the frames that are excluded: complete method frames with fewer than 4 octets of payload, and header frames with fewer than 12 |
| `Frames.ShortFrameIsThere` | `Modules/RabbitMQ/amqp_connection.c:205-381` | a stream that is excluded contains such a frame |
| `Frames.ShortFrameIsAtTheEnd` | `Modules/RabbitMQ/amqp_connection.c:205-381` | up to its last octet the stream is parsed like any other: all frames in front of it, then an unfinished one |
| `FrameParser.Parser.ReturnToIdle` | `Modules/RabbitMQ/amqp_connection.c:180-186` | the parser is between frames and holds nothing |
| `FrameParser.Parser.ConsumeData` | `Modules/RabbitMQ/amqp_connection.c:188-203` | as much as is available and fits goes behind what is there already |
| `FrameParser.Parser.BeginFirst` | `Modules/RabbitMQ/amqp_connection.c:231-253` | the first eight octets of a connection: the outcome is that of the one-shot parse of a protocol header or of a first frame |
| `FrameParser.Parser.BeginBody` | `Modules/RabbitMQ/amqp_connection.c:253-299` | a complete header: the outcome is that of the one-shot parse of all that has arrived |
| `FrameParser.Parser.FinishFrame` | `Modules/RabbitMQ/amqp_connection.c:303-374` | a complete body: the outcome is that of the one-shot parse, and the parser is idle again |
| `FrameParser.Parser.HandleInput` | `Modules/RabbitMQ/amqp_connection.c:205-381` | one call on any chunk in any state: the frame, the error, the number of octets consumed and the state afterwards are those of the one-shot parse of everything since the last frame; a call on input that is not empty consumes some |
| `FrameParser.Parser.Drain` | `Modules/RabbitMQ/amqp_socket.c:690-738` | calling it until a receive buffer is empty yields the frames of the one-shot parse |
| `FrameParser.Parser.Feed` | `Modules/RabbitMQ/amqp_connection.c:205-381` | for every stream and every split into chunks: the frames and the first error are those of the one-shot parse |
| `FrameParser.ParseConnectionAppend` | `Modules/RabbitMQ/amqp_connection.c:205-381` | a connection can be cut anywhere, also in its first eight octets |
| `FrameCodec.FrameRoundTrip` | `Modules/RabbitMQ/amqp_connection.c:432-506` | every frame that can be sent is parsed back from its octets, whatever follows, and properties without a flag are blank |
| `FrameCodec.FirstFrameIsParsed` | `Modules/RabbitMQ/amqp_connection.c:231-290` | a first frame is parsed as if the first octet of its payload were 0; one without payload is refused |
| `FrameCodec.FirstFrameIntactIff` | `Modules/RabbitMQ/amqp_connection.c:58-64` | the first frame of a connection is parsed as what was sent exactly when its first payload octet is 0: eight octets are read and seven copied |
| `FrameCodec.FirstFrameMisread` | `Modules/RabbitMQ/amqp_connection.c:58-64` | a concrete first frame that is read as another one |
| `FrameCodec.StreamRoundTrip` | `Modules/RabbitMQ/amqp_connection.c:432-506` | any sequence of such frames is parsed back frame by frame |
| `Octets.FrameIsFound` | `Modules/RabbitMQ/amqp_connection.c:253-315` | any octets: what is incomplete, too large, or does not end in 206, with the numbers that size and channel are |
| `Octets.MethodIsRead` | `Modules/RabbitMQ/amqp_connection.c:322-336` | a frame of type 1 is a method, with its id and its arguments, or the status of its failure |
| `Octets.HeaderIsRead` | `Modules/RabbitMQ/amqp_connection.c:338-356` | a frame of type 2 is a content header, with class, body size and properties, or the status of its failure |
| `Octets.PayloadIsRead` | `Modules/RabbitMQ/amqp_connection.c:358-373` | type 3 is a body and type 8 a heartbeat; frames of any other type are ignored |
| `Octets.FrameIsWritten` | `Modules/RabbitMQ/amqp_connection.c:432-506` | every frame as numbers: type 1, 2, 3 or 8, channel, size, method id or class, weight 0 and body size, and 206 at the end |
| `Octets.TuneFrame` | `Modules/RabbitMQ/amqp_connection.c:322-336` | the frame of connection.tune, octet by octet, in both directions |
| `Octets.HeaderFrame` | `Modules/RabbitMQ/amqp_connection.c:338-356` | the header frame of a persistent message |
| `Octets.BodyFrame` | `Modules/RabbitMQ/amqp_connection.c:358-362` | a body frame |
| `Octets.HeartbeatFrame` | `Modules/RabbitMQ/amqp_connection.c:364-373` | a heartbeat, a frame of an unknown type, one with a wrong end, and one that is too large |
| `Octets.ProtocolHeaderIsRead` | `Modules/RabbitMQ/amqp_connection.c:231-253` | the protocol header of another version |
| `Outbound.TrySend` | `Modules/RabbitMQ/amqp_socket.c:250-276` | whatever the socket takes, retries or refuses, a prefix of the data has been accepted without gap or repeat; all of it if the socket works; what is returned is determined by the behaviour of the socket |
| `Outbound.TriedKeepsWorking` | `Modules/RabbitMQ/amqp_socket.c:250-276` | of that outcome: a socket that works takes everything |
| `Outbound.Socket.Attempt` | `Modules/RabbitMQ/amqp_socket.c:233-276` | one send, and the poll when nothing is taken: the accepted octets are the next ones |
| `Outbound.Sender.EncodePayload` | `Modules/RabbitMQ/amqp_connection.c:441-497` | the payload of each frame type is written behind the header, or fails inside its room |
| `Outbound.Sender.FrameToBytes` | `Modules/RabbitMQ/amqp_connection.c:432-506` | it succeeds exactly when the frame has an encoding that fits the buffer; then the buffer holds type, channel, size, payload and end marker; the status is that of the encoder of the payload |
| `Outbound.FrameFailures` | `Modules/RabbitMQ/amqp_connection.c:441-497` | the statuses of an unknown method, an unknown class, a frame that cannot be sent, and no room |
| `Outbound.Sender.SendFrame` | `Modules/RabbitMQ/amqp_connection.c:513-564` | over all interruptions the socket accepts a prefix of the frame, the whole frame exactly when the result is OK, and nothing of a frame that does not fit; status and number of octets are determined by the behaviour of the socket |
| `Outbound.SendsKeepsWorking` | `Modules/RabbitMQ/amqp_connection.c:513-564` | of that outcome: it is OK exactly when everything is taken, and always when the socket works |
| `Outbound.SendingSamples` | `Modules/RabbitMQ/amqp_connection.c:528-558` | the time of the caller is up, that of the heartbeat is, nothing or an error is received meanwhile, or sending goes on |
| `Outbound.Sender.BasicPublish` | `Modules/RabbitMQ/amqp_api.c:158-247` | the octets accepted are a prefix of method, header and body frames, all of them exactly when the result is OK; the first failure ends it with its status |
| `Outbound.NextFragment` | `Modules/RabbitMQ/amqp_api.c:221-243` | one round of the loop cuts off the next fragment |
| `Outbound.StreamBytesAppend` | `Modules/RabbitMQ/amqp_connection.c:513-564` | frames sent one after the other are one stream |
| `Outbound.FittingAppend` | `Modules/RabbitMQ/amqp_api.c:188-246` | what can be sent of a sequence of frames ends before the first that does not fit |
| `Capabilities.CloneTable` | `Modules/RabbitMQ/amqp_table.c:568-597` | a clone equals the original; it is refused exactly when a key is empty or a kind unknown, at any depth |
| `Capabilities.CloneValue` | `Modules/RabbitMQ/amqp_table.c:444-549` | the same for values |
| `Capabilities.CloneableAre` | `Modules/RabbitMQ/amqp_table.c:444-597` | what can be cloned, kind by kind: keys are not empty and kinds are known at every depth |
| `Capabilities.GetEntryByKey` | `Modules/RabbitMQ/amqp_table.c:626-636` | the first entry with the key is found |
| `Capabilities.MergeCapabilities` | `Modules/RabbitMQ/amqp_socket.c:1147-1201` | the loops over the temporary entry array compute the recursive merge, errors included, and succeed exactly when the tables can be merged |
| `Capabilities.MergedIff` | `Modules/RabbitMQ/amqp_socket.c:1147-1201` | for all tables: they are merged exactly when they are not both empty, every key is non-empty, every value that no later entry replaces can be cloned, and wherever a table meets a table, `base` has one for that key and the two can be merged |
| `Capabilities.RefusedInputs` | `Modules/RabbitMQ/amqp_socket.c:1155-1160` | concrete merges that are refused: the same empty table on both sides, and an empty key |
| `Capabilities.MergeLookup` | `Modules/RabbitMQ/amqp_socket.c:1147-1201` | when two tables can be merged, they are, and each key of the result stands for the value in `add`, the merge where both have tables, or the value in `base` |
| `Capabilities.MergePrecedence` | `Modules/RabbitMQ/amqp_socket.c:1167-1195` | the same law written out: `add` goes before `base`, and two tables become a table of which it holds again |
| `Capabilities.MergeSample` | `Modules/RabbitMQ/amqp_socket.c:1167-1195` | a value that is replaced, and one that is appended |
| `Capabilities.MergePath` | `Modules/RabbitMQ/amqp_socket.c:1147-1201` | the same law for key paths of any length |
| `Capabilities.MergeOrder` | `Modules/RabbitMQ/amqp_socket.c:1167-1195` | keys of `base` come first in their order, then the new keys of `add` in theirs |
| `Capabilities.StraysIff` | `Modules/RabbitMQ/amqp_socket.c:1171-1187` | the library takes a table from `base` that is not there exactly when a table in `add` comes behind another one for the same key, `base` has no table under it, and nothing has ended the merge before; or when that happens inside two tables that are merged |
| `Capabilities.StraysFromNothingIff` | `Modules/RabbitMQ/amqp_socket.c:1171-1187` | with an empty `base`: exactly when some table in `add` comes behind another one for the same key |
| `Capabilities.StrayInputs` | `Modules/RabbitMQ/amqp_socket.c:1171-1187` | concrete inputs, with and without the key in `base`, and repeated keys that are harmless |
| `Capabilities.NoStray` | `Modules/RabbitMQ/amqp_socket.c:1171-1187` | so it never happens when the keys of `add` are unique |
| `Capabilities.MergeSelf` | `Modules/RabbitMQ/amqp_socket.c:1147-1201` | merging a table with itself gives it back |
| `Capabilities.MergeSelfIff` | `Modules/RabbitMQ/amqp_socket.c:1147-1201` | it does exactly when no table in it is empty and it can be cloned |
| `FrameQueue.Queue.Enqueue` | `Modules/RabbitMQ/amqp_socket.c:830-846` | the frame is appended to the linked list; head, tail and links stay consistent |
| `FrameQueue.Queue.PutBack` | `Modules/RabbitMQ/amqp_socket.c:848-864` | the frame is prepended |
| `FrameQueue.Queue.Dequeue` | `Modules/RabbitMQ/amqp_socket.c:921-928` | the first frame is taken |
| `FrameQueue.Queue.TakeOnChannel` | `Modules/RabbitMQ/amqp_socket.c:873-885` | the earliest frame of the channel is taken, and exactly the frames behind it are left |
| `FrameQueue.Queue.CutAfter` | `Modules/RabbitMQ/amqp_socket.c:877-880` | the list is made to begin behind a link |
| `Receiving.ConnectionAdvances` | `Modules/RabbitMQ/amqp_connection.c:205-381` | what is still to come after one look of the parser at what has arrived |
| `Receiving.Receiver.ConsumeOneFrame` | `Modules/RabbitMQ/amqp_socket.c:630-647` | one step through the receive buffer does not change the frames that will be read in all |
| `Receiving.Receiver.Receive` | `Modules/RabbitMQ/amqp_socket.c:649-688` | receiving more changes nothing about what is to come; at the end an unfinished frame is left |
| `Receiving.Receiver.WaitFrame` | `Modules/RabbitMQ/amqp_socket.c:740-803` | the next frame that is not a heartbeat is returned, or the status that ends the connection |
| `Demux.TakeAny` | `Modules/RabbitMQ/amqp_socket.c:911-932` | queue then wire lose their first frame, if there is one |
| `Demux.Connection.ReadFrame` | `Modules/RabbitMQ/amqp_socket.c:740-803` | the next frame of the wire; the queue is untouched |
| `Demux.Connection.ConsumeOneFrame` | `Modules/RabbitMQ/amqp_socket.c:630-647` | one step through the receive buffer: a frame, or none yet, in front of what is still to come |
| `Demux.Connection.TryRecv` | `Modules/RabbitMQ/amqp_socket.c:690-738` | what is in the receive buffer goes behind the queue in order, every heartbeat included; the rest is still to come |
| `Demux.Connection.PutAside` | `Modules/RabbitMQ/amqp_socket.c:830-846` | the frame goes behind the queue; the wire is untouched |
| `Demux.Connection.PutBack` | `Modules/RabbitMQ/amqp_socket.c:848-864` | the frame goes in front of the queue; the wire is untouched |
| `Demux.Connection.WaitFrame` | `Modules/RabbitMQ/amqp_socket.c:906-932` | the first frame of queue then wire, which keep the rest |
| `Demux.Connection.WaitFrameOnChannel` | `Modules/RabbitMQ/amqp_socket.c:866-904` | the earliest queued frame of the channel and exactly the suffix behind it; else the first on the wire, the frames before it being queued in order |
| `Demux.Connection.WaitOnWire` | `Modules/RabbitMQ/amqp_socket.c:888-903` | the second part of it |
| `Demux.Connection.TakeQueued` | `Modules/RabbitMQ/amqp_socket.c:873-885` | the first part of it |
| `Demux.Connection.TakeFirst` | `Modules/RabbitMQ/amqp_socket.c:921-928` | a queued frame goes before the wire |
| `Demux.FirstReply` | `Modules/RabbitMQ/amqp_socket.c:1036-1048` | the index of the first frame that is an expected reply or channel.close on the channel, or connection.close on channel 0 |
| `Demux.RepliesAre` | `Modules/RabbitMQ/amqp_socket.c:1047-1055` | a reply is a method of an expected id, or number 0x00140028, on the channel, or number 0x000A0032 on channel 0 |
| `Demux.ReplySamples` | `Modules/RabbitMQ/amqp_socket.c:1047-1083` | queue.declare on channel 1: what is taken for its reply, what is not, and which of them is an exception |
| `Demux.Connection.SimpleRpc` | `Modules/RabbitMQ/amqp_socket.c:1011-1091` | the request is sent, or the status of sending it is returned; then the first reply decides: it is normal exactly when its id is expected, a server exception otherwise; the queue afterwards is the old one followed by exactly the earlier frames: none lost, duplicated or reordered |
| `Demux.Connection.ReadReply` | `Modules/RabbitMQ/amqp_socket.c:1028-1090` | its loop |
| `Consumer.CloneProperties` | `Modules/RabbitMQ/amqp_consumer.c:11-89` | flagged members are copied, the others zero; refused exactly when the headers cannot be cloned |
| `Consumer.ReadMessage` | `Modules/RabbitMQ/amqp_consumer.c:170-282` | result, queue and wire are those of reading by the pure waiting function; an unexpected frame is put back |
| `Consumer.ReadBody` | `Modules/RabbitMQ/amqp_consumer.c:236-274` | the loop fills a buffer of the announced size with the fragments of the channel |
| `Consumer.ConsumeMessage` | `Modules/RabbitMQ/amqp_consumer.c:110-168` | a delivery is followed by its message; anything else is put back; the envelope has the channel and the arguments of the delivery |
| `Content.ClonedReceived` | `Modules/RabbitMQ/amqp_consumer.c:11-89` | the clone of received properties depends only on what was sent |
| `Content.EnvelopeIsDemultiplexed` | `Modules/RabbitMQ/amqp_consumer.c:122-160` | a frame that is no delivery leaves queue then wire unchanged; a delivery yields its channel, its arguments and the message of its channel by itself, exactly when that is complete, and else what ended it |
| `Content.TakeNextOnChannel` | `Modules/RabbitMQ/amqp_socket.c:866-904` | waiting for a channel takes the next of its frames over queue and wire, and leaves the rest of them |
| `Content.OthersSurviveIff` | `Modules/RabbitMQ/amqp_socket.c:873-885` | the frames of other channels all survive exactly when none is queued ahead of the match |
| `Content.QueuedFrameIsLost` | `Modules/RabbitMQ/amqp_socket.c:873-885` | a concrete queue that loses a frame of another channel |
| `Content.BodyIsDemultiplexed` | `Modules/RabbitMQ/amqp_consumer.c:236-274` | reading a body from shared queue and wire is reading it from the frames of its channel alone |
| `Content.MessageIsDemultiplexed` | `Modules/RabbitMQ/amqp_consumer.c:170-282` | the same for messages: result and remaining frames of the channel |
| `Content.MethodsOfConsumers` | `Modules/RabbitMQ/amqp_consumer.c:122-257` | the method numbers of closing and of deliveries |
| `Content.MessageOutcomes` | `Modules/RabbitMQ/amqp_consumer.c:170-235` | what reading a message comes to, by its first frame: closed, not a header (which stays), properties refused, or what the body comes to |
| `Content.BodyOutcomes` | `Modules/RabbitMQ/amqp_consumer.c:236-274` | what reading a body comes to after any number of fragments: ended, closed, malformed, too long, complete, or not yet |
| `Content.FragmentsOfBody` | `Modules/RabbitMQ/amqp_api.c:220-243` | the fragments are the body, all but the last are full, and there are ceil(len / (frame_max - 8)) of them |
| `Content.PublishedFramesAre` | `Modules/RabbitMQ/amqp_api.c:188-243` | a publish is method 0x003C0028, a header of class 60 with the size of the body, and fragments of it that fill frames but for the last |
| `Content.MessageAsSent` | `Modules/RabbitMQ/amqp_consumer.c:11-89` | a message that is read has the body, and of each of the fourteen properties the value sent if its flag was set, by the numbers of the flags |
| `Content.CeilingBounds` | `Modules/RabbitMQ/amqp_api.c:220-243` | that count is the quotient rounded up |
| `Content.FragmentsAssemble` | `Modules/RabbitMQ/amqp_consumer.c:236-274` | fragments are put together again, wherever a body has got to |
| `Content.ContentAssembles` | `Modules/RabbitMQ/amqp_consumer.c:170-282` | the decoded content of a message is read as that message, or refused exactly when its headers cannot be cloned |
| `Content.DecodingsOnChannel` | `Modules/RabbitMQ/amqp_connection.c:205-381` | serialising and parsing moves no frame to another channel |
| `Content.PublishedMessageIsRead` | `Modules/RabbitMQ/amqp_consumer.c:170-282` | end to end: frames of any channels, serialised and parsed, and others queued before; a channel that carries a published message yields exactly its body and flagged properties, and keeps what follows |
| `Content.PublishThenRead` | `Modules/RabbitMQ/amqp_api.c:158-247` | what `amqp_basic_publish` makes of a message, serialised, parsed and read, is the message, for every body, frame size from 20 on and encodable property set whose header fits a frame; refused exactly when the headers cannot be cloned |
| `Content.NamelessHeader` | `Modules/RabbitMQ/amqp_consumer.c:29-38` | concrete properties that are encodable and refused: a header with an empty key |
| `Consumer.PublishedContentIsRead` | `Modules/RabbitMQ/amqp_consumer.c:170-282` | over the classes: `amqp_basic_publish` has returned OK after any interruptions, and the octets behind the method frame reach a connection in any chunks; reading from the channel gives the message, whatever is queued for others |
| `Consumer.MultiplexedContentIsRead` | `Modules/RabbitMQ/amqp_consumer.c:170-282` | the same for a connection on which frames of other channels come between and behind the fragments, part of the content may be queued already, and the last frame may be unfinished: the message is read, and the rest of its channel is left |
| `Content.ContentFits` | `Modules/RabbitMQ/amqp_api.c:204-243` | every frame of a message fits the frame size when its header does |
| `Content.PublishedFramesFit` | `Modules/RabbitMQ/amqp_api.c:158-247` | all frames of a publish fit exactly when its method and its header do |
| `Pools.RoundedCoversIff` | `Modules/RabbitMQ/amqp_mem.c:86-86` | rounding up to 8 octets covers the amount exactly up to SIZE_MAX - 7, where it wraps |
| `Pools.RoundedSamples` | `Modules/RabbitMQ/amqp_mem.c:86-86` | multiples of 8 stay, others are rounded up to the next |
| `Pools.PlaceSamples` | `Modules/RabbitMQ/amqp_mem.c:81-127` | concrete allocations: in a page, behind another one, of nothing, too large for a page, and in the next page |
| `Pools.PlacesAreApart` | `Modules/RabbitMQ/amqp_mem.c:81-127` | no two allocations since a recycle share an octet |
| `Pools.PlacedBefore` | `Modules/RabbitMQ/amqp_mem.c:81-127` | every allocation lies inside its page and before the cursor |
| `Pools.CursorIsAligned` | `Modules/RabbitMQ/amqp_mem.c:81-127` | what is used of a page is a multiple of 8 and at most the page size |
| `Pools.NextFit` | `Modules/RabbitMQ/amqp_mem.c:99-124` | with n pages in use and S octets served from pages, 2 * S > (n - 1) * pagesize |
| `Pools.CursorGrows` | `Modules/RabbitMQ/amqp_mem.c:99-124` | more allocations never need fewer pages |
| `Pools.ReplayAddsNoPage` | `Modules/RabbitMQ/amqp_mem.c:47-52` | a repeated run of allocations needs no page that is not there |
| `Pools.Pool.constructor` | `Modules/RabbitMQ/amqp_mem.c:20-32` | an empty pool, with pages of 4096 octets unless told otherwise |
| `Pools.Pool.Recycle` | `Modules/RabbitMQ/amqp_mem.c:47-52` | nothing is in use and the pages are kept |
| `Pools.Pool.Empty` | `Modules/RabbitMQ/amqp_mem.c:54-57` | the pages are given up, too |
| `Pools.Pool.Alloc` | `Modules/RabbitMQ/amqp_mem.c:81-127` | the address is that of the place the amounts since the last recycle determine, however many pages there were; a page is added only when all are in use |
| `Pools.Pool.GivenAreApart` | `Modules/RabbitMQ/amqp_mem.c:81-127` | addresses given out are aligned, lie in a block of the pool and do not overlap |
| `Pools.Pool.ReplayedAddresses` | `Modules/RabbitMQ/amqp_mem.c:47-52` | after a recycle the same amounts get the same addresses in the pages |
| `Pools.Pool.Replay` | `Modules/RabbitMQ/amqp_mem.c:47-127` | a pool is recycled and asked for amounts that fit its pages: no page is added; the same amounts as before get the same addresses in them |
| `ChannelPools.PoolTable.Get` | `Modules/RabbitMQ/amqp_mem.c:188-202` | the 16 chains are a map from channels to pools |
| `ChannelPools.PoolTable.GetOrCreate` | `Modules/RabbitMQ/amqp_mem.c:161-186` | a channel keeps its one pool, or gets a new one with pages of the frame size the connection has at the time; all others keep theirs |
| `ChannelPools.PoolTable.Allocate` | `Modules/RabbitMQ/amqp_mem.c:81-127` | the pool of the channel is asked for the amount and no other pool for anything; no pool is recycled, and every pool stays valid |
| `ChannelPools.PoolTable.MaybeReleaseOnChannel` | `Modules/RabbitMQ/amqp_connection.c:406-430` | the pool of the channel is recycled exactly when the parser is idle and no frame of the channel is queued; no other pool changes |
| `ChannelPools.PoolTable.IsQueued` | `Modules/RabbitMQ/amqp_connection.c:413-423` | the walk through the queue finds a frame of the channel exactly when there is one |
| `ChannelPools.PoolTable.ReleaseAll` | `Modules/RabbitMQ/amqp_connection.c:387-398` | every pool is recycled unless a frame of its channel is queued |
| `ChannelPools.PoolTable.ReleaseChain` | `Modules/RabbitMQ/amqp_connection.c:391-397` | the same for the channels of one bucket, each being looked at once |
| `PoolSafety.NextSafe` | `Modules/RabbitMQ/amqp_connection.c:205-430` | each step of the machine keeps all memory of queued frames and of the frame being received in the current epoch of its pool |
| `PoolSafety.RunIsSafe` | `Modules/RabbitMQ/amqp_connection.c:205-430` | so does every run |
| `PoolSafety.EveryRunIsSafe` | `Modules/RabbitMQ/amqp_connection.c:44-86` | in particular every run of a new connection |
| `PoolSafety.EpochAfterStep` | `Modules/RabbitMQ/amqp_connection.c:387-430` | the epoch of a pool grows by one exactly when no frame of its channel is queued and it, or all, are released between frames, or when it is that of channel 0 and a heartbeat has arrived; no other step changes it |
| `PoolSafety.RecycledOnlyWhenFree` | `Modules/RabbitMQ/amqp_connection.c:406-430` | no step recycles a pool while a frame of its channel is queued or being received |
| `PoolSafety.EpochAfterRun` | `Modules/RabbitMQ/amqp_connection.c:205-430` | over a run the epoch of a pool stays the same exactly when no step of it is such a release |
| `PoolSafety.OnlyReleasesRecycle` | `Modules/RabbitMQ/amqp_connection.c:406-430` | on a channel other than 0 nothing but releasing it, or all, can be one |
| `PoolSafety.KeptFrameMayBePutBackIff` | `Modules/RabbitMQ/amqp_socket.c:848-864` | after any run a caller takes any frame from the queue; after any further run it may be put back exactly when no step of that run was a release of its channel, or of all, with no frame of the channel queued and none being received (or a heartbeat, for channel 0) |
| `PoolSafety.ReceivedFrameMayBePutBackIff` | `Modules/RabbitMQ/amqp_socket.c:848-864` | the same for a frame that was returned as it was received |
| `PoolSafety.KeptFrameIsSafe` | `Modules/RabbitMQ/amqp_socket.c:848-864` | so it has its memory and may be put back after any run that does not release its channel or all |
| `PoolSafety.ReceivedFrameIsSafe` | `Modules/RabbitMQ/amqp_socket.c:848-864` | the same for a frame that was returned as it was received |
| `PoolSafety.KeptFrameIsLost` | `Modules/RabbitMQ/amqp_socket.c:848-864` | a concrete run after which a kept frame has lost its memory |
| `PooledFrames.Engine.HandleInput` | `Modules/RabbitMQ/amqp_connection.c:205-381` | a call of the parser, with what it does to the pool of the channel and what is done with the frame, is a run of the machine: its phase, queue and epochs are those of parser, queue and pools again; the frame is that of the parse, and goes behind the queue, in front of it, or not into it |
| `PooledFrames.Engine.BeginFrame` | `Modules/RabbitMQ/amqp_connection.c:256-291` | a complete header: a buffer for the whole frame comes from the pool of the channel |
| `PooledFrames.Engine.EndFrame` | `Modules/RabbitMQ/amqp_connection.c:315-374` | a complete frame is decoded into that pool and returned, queued, put back or dropped as a heartbeat; what each pool is asked for is stated |
| `PooledFrames.Engine.TakeFirst` | `Modules/RabbitMQ/amqp_socket.c:911-932` | taking the head of the queue, and putting it back at once, is a step of the machine; the rest of the queue is kept |
| `PooledFrames.Engine.TakeOnChannel` | `Modules/RabbitMQ/amqp_socket.c:873-885` | the same for the first frame of a channel |
| `PooledFrames.Engine.Enqueue` | `Modules/RabbitMQ/amqp_socket.c:805-846` | link and copy of a queued frame come from the pool of its channel as it is now, and from no other |
| `PooledFrames.Engine.PutBack` | `Modules/RabbitMQ/amqp_socket.c:848-864` | the same for a frame that is put back |
| `PooledFrames.Engine.Release` | `Modules/RabbitMQ/amqp_connection.c:406-430` | releasing is a step of the machine: the same pool is recycled, or none |
| `PooledFrames.Engine.ReleaseAll` | `Modules/RabbitMQ/amqp_connection.c:387-398` | the same for all pools |
| `PooledFrames.Engine.QueuedFramesAreSafe` | `Modules/RabbitMQ/amqp_connection.c:387-430` | after any sequence of those calls: the pool of a queued frame has not been recycled since the buffer, the copy and the link of the frame were allocated |
| `PooledFrames.Engine.ReceivedFrameIsSafe` | `Modules/RabbitMQ/amqp_connection.c:387-430` | nor has the pool that holds the buffer of a frame that is being received |
| `PooledFrames.Engine.HeldFrameIsSafe` | `Modules/RabbitMQ/amqp_connection.c:387-430` | whatever parser, queue and pools have done since a frame was taken, the pool of its channel has not been recycled unless the channel, or all, were released |
| `Url.FindDelim` | `Modules/RabbitMQ/amqp_url.c:30-78` | the scan in the buffer gives the delimiter and the text of the scan on strings; writing never overtakes reading, so that the text ends before the rest begins and nothing ahead of it changes |
| `Url.Store` | `Modules/RabbitMQ/amqp_url.c:68-75` | one character written behind what has been read leaves the rest alone |
| `Url.ParseUrl` | `Modules/RabbitMQ/amqp_url.c:81-188` | the status and every component, read from the buffer in the end, are those of the parser on strings: no scan damages an earlier component |
| `Url.ParseAuthority` | `Modules/RabbitMQ/amqp_url.c:100-122` | user, password and host are told apart by the delimiters behind them |
| `Url.ParseHost` | `Modules/RabbitMQ/amqp_url.c:124-152` | an address in brackets, or the text that turned out to be the host |
| `Url.ParseAddress` | `Modules/RabbitMQ/amqp_url.c:124-138` | the address up to its closing bracket, which only an empty host may precede |
| `Url.ParseBehindAddress` | `Modules/RabbitMQ/amqp_url.c:139-147` | nothing may stand between the bracket and the next delimiter |
| `Url.ParsePort` | `Modules/RabbitMQ/amqp_url.c:154-168` | a port has to be a number from 0 to 65535 as `strtol` reads it |
| `Url.ParseVhost` | `Modules/RabbitMQ/amqp_url.c:170-182` | a virtual host has to end the URL |
| `Url.TextIsTerminated` | `Modules/RabbitMQ/amqp_url.c:51-54` | text followed by a zero is the C string at that place |
| `UrlEncoding.UrlEncode` | `Modules/Tools/StringUtils.cpp:444-467` | the loop computes the escaping of each character |
| `UrlEncoding.EscapesAre` | `Modules/Tools/StringUtils.cpp:446-462` | which characters are copied, and the digits of the others, as numbers |
| `UrlEncoding.EncodedSample` | `Modules/Tools/StringUtils.cpp:444-467` | a text with a blank and a slash |
| `UrlEncoding.CharIsScanned` | `Modules/RabbitMQ/amqp_url.c:56-75` | one character, escaped or not, is scanned as that character |
| `UrlEncoding.EncodedIsScanned` | `Modules/RabbitMQ/amqp_url.c:30-78` | any text of characters 1 to 127 is scanned back from its encoding up to the delimiter |
| `UrlEncoding.PortIsRead` | `Modules/RabbitMQ/amqp_url.c:159-168` | every port number is read back from its decimal digits |
| `UrlEncoding.AddressIsScanned` | `Modules/RabbitMQ/amqp_url.c:30-78` | between brackets colons and at signs are text |
| `UrlEncoding.HostIsParsed` | `Modules/RabbitMQ/amqp_url.c:124-152` | a name, or an address in brackets with colons in it, is found as the host, with or without a port and a virtual host behind it |
| `UrlEncoding.UrlRoundTrip` | `Modules/RabbitMQ/amqp_url.c:81-188` | a URL of any form is parsed to what is in it: with or without encryption, user, password, port and virtual host, by name or by address in brackets; what is missing is guest, localhost, 5672 or 5671, and / |
| `UrlEncoding.SchemeIsRequired` | `Modules/RabbitMQ/amqp_url.c:87-99` | a URL of another scheme is refused |
| `UrlEncoding.HostEndsBadly` | `Modules/RabbitMQ/amqp_url.c:124-186` | so is a host that ends in a question mark, a hash or a closing bracket, or stands before an opening one |
| `UrlEncoding.PortIsTooLarge` | `Modules/RabbitMQ/amqp_url.c:159-168` | and a port above 65535 |
| `UrlEncoding.VhostEndsBadly` | `Modules/RabbitMQ/amqp_url.c:170-182` | and a virtual host with anything but the end behind it |
| `UrlEncoding.EscapeIsBad` | `Modules/RabbitMQ/amqp_url.c:56-75` | and an escape that is none or stands for more than 127 |
| `UrlEncoding.PortSamples` | `Modules/RabbitMQ/amqp_url.c:159-168` | white space and a sign may come first, nothing may follow, an empty port is none |
| `UrlEncoding.EscapeSamples` | `Modules/RabbitMQ/amqp_url.c:56-75` | digits of both cases, 127 and 128 |
| `UrlEncoding.DelimitersAre` | `Modules/RabbitMQ/amqp_url.c:30-55` | the delimiters, as numbers |
| `Expiry.ReduceConserves` | `include/Tools/MapExpires.h:127-194` | the multiset of unmarked (time, key, value) before is that of the kept and the collected entries together |
| `Expiry.BucketConserves` | `include/Tools/MapExpires.h:147-177` | the same for one bucket |
| `Expiry.OldIsCollected` | `include/Tools/MapExpires.h:147-157` | only unmarked entries older than the purge time are collected, and older buckets are left empty |
| `Expiry.OnlyEmptyAreErased` | `include/Tools/MapExpires.h:180-189` | the buckets that are erased have no entries |
| `Expiry.NothingOldIsKept` | `include/Tools/MapExpires.h:127-194` | after reducing no bucket older than the purge time has entries |
| `Expiry.ReduceKeepsCurrent` | `include/Tools/MapExpires.h:79-97` | a lookup that finds an unmarked entry that is not old, or nothing, finds the same after reducing |
| `Expiry.UnmarkedAre` | `include/Tools/MapExpires.h:131-143` | shrinking leaves the entries without a mark and no others |
| `Expiry.UnmarkedInOrder` | `include/Tools/MapExpires.h:131-143` | in their order |
| `Expiry.BucketIsReduced` | `include/Tools/MapExpires.h:147-177` | what is left of a bucket, and what is collected: nothing of an old one or of one that was read in full, the unread entries of a marked list, all of any other |
| `Expiry.BucketsAreReduced` | `include/Tools/MapExpires.h:145-178` | reducing does that to every bucket |
| `Expiry.ReadIsDropped` | `include/Tools/MapExpires.h:127-194` | what is absent after reducing: entries that were read in a marked list, and all entries of a list that was read in full |
| `Expiry.MapExpires.Reduce` | `include/Tools/MapExpires.h:127-194` | all of that for the method, and the store is empty or begins with a bucket that is not |
| `Expiry.MapExpires.ReduceBucket` | `include/Tools/MapExpires.h:147-177` | the body of its loop |
| `Expiry.MapExpires.ShrinkToFit` | `include/Tools/MapExpires.h:131-143` | the unmarked entries in order, in a list without a mark |
| `Expiry.MapExpires.DiscardIfRead` | `include/Tools/MapExpires.h:159-176` | a list of marked entries only is given up; a list whose first entry is marked is marked |
| `Expiry.MapExpires.EraseEmpty` | `include/Tools/MapExpires.h:180-189` | the empty buckets in front are erased, and only those |
| `Expiry.MapExpires.EmplaceBack` | `include/Tools/MapExpires.h:48-54` | a bucket is appended; its unmarked entries are the only ones added |
| `Expiry.MapExpires.Find` | `include/Tools/MapExpires.h:107-123` | the entry of the key in the first bucket that has it |
| `Tune.AgreedIsWithin` | `Modules/RabbitMQ/amqp_socket.c:1370-1383` | the agreed channel limit respects both sides; the frame size does exactly when the client asks for a limit or the server for none; heartbeats stay off when the client has them off |
| `Tune.AgreedIsGreatest` | `Modules/RabbitMQ/amqp_socket.c:1370-1383` | and they are the greatest such limits, as is the heartbeat |
| `Tune.AgreedSamples` | `Modules/RabbitMQ/amqp_socket.c:1370-1383` | concrete logins: without limits, above and below those of the server, and to a server without any |
| `Tune.ServerLimitIgnored` | `Modules/RabbitMQ/amqp_socket.c:1375-1378` | a concrete login on which the frame size of the server is lost |
| `Tune.Tuning.TuneConnection` | `Modules/RabbitMQ/amqp_connection.c:109-143` | channel_max, frame_max and heartbeat are set, a negative heartbeat to 0, and the send buffer is reallocated to the frame size, or kept when there is no memory |
| `Tune.Tuning.constructor` | `Modules/RabbitMQ/amqp_connection.c:44-56` | a new connection has the initial frame size and no other limit |
| `Tune.Tuning.Login` | `Modules/RabbitMQ/amqp_socket.c:1213-1389` | the parameters are refused exactly out of their ranges, which are given as numbers; the limits of the connection are the agreed ones; the send buffer has the agreed frame size, which is within that of client and server, and at least 4096 if theirs are; there may be none exactly when the client asks for 0 |
| `Tune.SentIsWithinLimits` | `Modules/RabbitMQ/amqp_connection.c:109-143` | after a login every frame that reaches the socket is within the frame size of client and server |

## Left out

- Real sockets, name resolution, TLS, polling and clocks: a socket is a sequence of outcomes, what will be received is a sequence of chunks with a final status, and times are parameters.
- Heartbeat timing: heartbeats are disabled, as this repository logs in; received heartbeats are dropped, and a receive during an interrupted send is its status only.
- Failing allocations: `malloc`, `calloc` and `realloc` succeed.
- The sixty-odd methods one by one: the codec theorems hold for every list of argument types, the set of known methods is a parameter, and four methods are compared line by line.
- Memory that is not initialised: members without a flag in a received property list, and structures from a pool, hold blank values in the parsers; `ClonedReceived` and `MethodRoundTrip` show that it does not matter.
- Flag words behind the second one: the shift by 32 is undefined in C and contributes nothing here. The words of a mask do not overlap, so that merging them is written as addition.
- Floating-point fields are their bit patterns; strings are octets; byte order of the host is not modelled.
- FrameParser.Parser.HandleInput: requires that a method payload has at least 4 octets and a header payload at least 12, because the C code lets a length wrap around below zero otherwise. The state after an error is not described: the library closes the connection.
- FrameParser.Parser.FinishFrame: the same restriction.
- FrameParser.Parser.BeginBody: the same restriction.
- FrameParser.Parser.BeginFirst: the same restriction.
- FrameParser.Parser.Feed: the same restriction, for the whole stream.
- FrameParser.Parser.Drain: the same restriction; it is the loop over a receive buffer alone, and queueing is in `Demux.Connection.TryRecv`.
- FrameParser.Parser: a frame buffer is an array of its own; that the library takes it from the pool of the channel is in `PooledFrames.Engine`, next to the call of the parser. Decoded strings are values.
- FieldTable.DecEnc: buffers below 4 GiB, as sizes on the wire have 32 bits.
- Outbound.Sender.FrameToBytes: requires that a body fragment fits the buffer, which the library checks only by how it cuts bodies.
- Outbound.Sender.SendFrame: more than one deadline is not told apart; a time-out is that of the caller or that of the heartbeat.
- Demux.Connection.SimpleRpc: nothing is said about the connection after a library exception while waiting, which closes the socket.
- Capabilities.CloneValue: an array without values but with a pointer is refused with `AMQP_STATUS_NO_MEMORY` by the library, because its pool gives NULL for no octets; a value has no pointer here. Arrays that the library has decoded without values have none.
- Capabilities.MergeCapabilities: requires that no table is taken from `base` that is not there (`StraysIff`); the library dereferences NULL there when `base` does not have the key, and reads the wrong member of a union when it has something else under it.
- Consumer.ReadMessage: requires that header frames of the channel are of the basic class, as the library takes for granted.
- Consumer.ConsumeMessage: the same for all channels; the strings of the envelope are the arguments of the delivery.
- PooledFrames.Engine.HandleInput: addresses in pools are not followed into frames; what a frame is decoded into is one allocation. An error ends the run.
- ChannelPools.PoolTable.ReleaseAll: the abort when the parser is not idle is not modelled.
- Tune.Tuning.Login: the exchange before connection.tune (protocol header, mechanisms, credentials) and sending connection.tune-ok are not part of it; whether `realloc` to no octets gives NULL is a parameter, as it is left to the C library. That the old buffer is gone then is not described.
- Tune.Tuning.TuneConnection: the times of the next heartbeats are not part of it, nor the abort when the parser is not idle.
- Url.ParseUrl: the components after a failure are not described.
- UrlEncoding.UrlEncode: characters of 7 bits; others would index its table with a negative number.
- Expiry.MapExpires.Reduce: a `std::map` is the sequence of its entries in key order; a map that was moved from is empty.
- Broker wrappers, RPC programs, Redis, ODBC, HTTP, logging, configuration and compression: plumbing over libraries that are not in the repository.
- Lookup switches for names and error strings, and generated one-line wrappers: they would only add easy members.
