/** Arguments of some of the methods in `amqp_framing.c`, and the code the generator emits for them. */
module Framing {
  import opened Codegen

  const CONNECTION_TUNE_METHOD: nat := 0x000A001E
  const CONNECTION_CLOSE_METHOD: nat := 0x000A0032
  const CHANNEL_CLOSE_METHOD: nat := 0x00140028
  const QUEUE_DECLARE_METHOD: nat := 0x0032000A
  const BASIC_PUBLISH_METHOD: nat := 0x003C0028
  const BASIC_DELIVER_METHOD: nat := 0x003C003C

  /** channel-max, frame-max, heartbeat */
  const TUNE: seq<FieldType> := [Short, Long, Short]

  /** ticket, queue, passive, durable, exclusive, auto-delete, nowait, arguments */
  const QUEUE_DECLARE: seq<FieldType> := [Short, Shortstr, Bit, Bit, Bit, Bit, Bit, FieldTable]

  /** ticket, exchange, routing-key, mandatory, immediate */
  const BASIC_PUBLISH: seq<FieldType> := [Short, Shortstr, Shortstr, Bit, Bit]

  /** consumer-tag, delivery-tag, redelivered, exchange, routing-key */
  const BASIC_DELIVER: seq<FieldType> := [Shortstr, Longlong, Bit, Shortstr, Shortstr]

  /** The generator emits the encoder and the decoder of connection.tune that are in the library. */
  lemma TuneCode()
    ensures EncoderLines(TUNE, 0, 0) == [PutField(Short, 0), PutField(Long, 1), PutField(Short, 2)]
    ensures DecoderLines(TUNE, 0, 0) == [GetField(Short, 0), GetField(Long, 1), GetField(Short, 2)]
  {
    assert EncoderLines(TUNE, 2, 0) == [PutField(Short, 2)];
    assert DecoderLines(TUNE, 2, 0) == [GetField(Short, 2)];
  }

  /** And those of queue.declare: five bits share one octet, which is written before the table. */
  lemma QueueDeclareCode()
    ensures EncoderLines(QUEUE_DECLARE, 0, 0)
            == [PutField(Short, 0), PutField(Shortstr, 1), ClearBits, OrBit(2, 0), OrBit(3, 1), OrBit(4, 2),
                OrBit(5, 3), OrBit(6, 4), PutBits, PutField(FieldTable, 7)]
    ensures DecoderLines(QUEUE_DECLARE, 0, 0)
            == [GetField(Short, 0), GetField(Shortstr, 1), GetBits, TestBit(2, 0), TestBit(3, 1), TestBit(4, 2),
                TestBit(5, 3), TestBit(6, 4), GetField(FieldTable, 7)]
  {
    hide EncoderLines, DecoderLines;
    QueueDeclareEncoder();
    QueueDeclareDecoder();
  }

  lemma QueueDeclareEncoder()
    ensures EncoderLines(QUEUE_DECLARE, 0, 0)
            == [PutField(Short, 0), PutField(Shortstr, 1), ClearBits, OrBit(2, 0), OrBit(3, 1), OrBit(4, 2),
                OrBit(5, 3), OrBit(6, 4), PutBits, PutField(FieldTable, 7)]
  {
    assert EncoderLines(QUEUE_DECLARE, 7, 5) == [PutBits, PutField(FieldTable, 7)];
    assert EncoderLines(QUEUE_DECLARE, 5, 3) == [OrBit(5, 3), OrBit(6, 4), PutBits, PutField(FieldTable, 7)];
    assert EncoderLines(QUEUE_DECLARE, 3, 1)
        == [OrBit(3, 1), OrBit(4, 2), OrBit(5, 3), OrBit(6, 4), PutBits, PutField(FieldTable, 7)];
  }

  lemma QueueDeclareDecoder()
    ensures DecoderLines(QUEUE_DECLARE, 0, 0)
            == [GetField(Short, 0), GetField(Shortstr, 1), GetBits, TestBit(2, 0), TestBit(3, 1), TestBit(4, 2),
                TestBit(5, 3), TestBit(6, 4), GetField(FieldTable, 7)]
  {
    assert DecoderLines(QUEUE_DECLARE, 7, 5) == [GetField(FieldTable, 7)];
    assert DecoderLines(QUEUE_DECLARE, 5, 3) == [TestBit(5, 3), TestBit(6, 4), GetField(FieldTable, 7)];
    assert DecoderLines(QUEUE_DECLARE, 3, 1)
        == [TestBit(3, 1), TestBit(4, 2), TestBit(5, 3), TestBit(6, 4), GetField(FieldTable, 7)];
  }

  /** And those of basic.publish: the octet of a trailing run of bits is written at the end. */
  lemma BasicPublishCode()
    ensures EncoderLines(BASIC_PUBLISH, 0, 0)
            == [PutField(Short, 0), PutField(Shortstr, 1), PutField(Shortstr, 2), ClearBits, OrBit(3, 0), OrBit(4, 1),
                PutBits]
    ensures DecoderLines(BASIC_PUBLISH, 0, 0)
            == [GetField(Short, 0), GetField(Shortstr, 1), GetField(Shortstr, 2), GetBits, TestBit(3, 0), TestBit(4, 1)]
  {
    assert EncoderLines(BASIC_PUBLISH, 5, 2) == [PutBits];
    assert EncoderLines(BASIC_PUBLISH, 3, 0) == [ClearBits, OrBit(3, 0), OrBit(4, 1), PutBits];
    assert DecoderLines(BASIC_PUBLISH, 3, 0) == [GetBits, TestBit(3, 0), TestBit(4, 1)];
  }

  /** And those of basic.deliver: a lone bit between other arguments has an octet of its own. */
  lemma BasicDeliverCode()
    ensures EncoderLines(BASIC_DELIVER, 0, 0)
            == [PutField(Shortstr, 0), PutField(Longlong, 1), ClearBits, OrBit(2, 0), PutBits, PutField(Shortstr, 3),
                PutField(Shortstr, 4)]
    ensures DecoderLines(BASIC_DELIVER, 0, 0)
            == [GetField(Shortstr, 0), GetField(Longlong, 1), GetBits, TestBit(2, 0), GetField(Shortstr, 3),
                GetField(Shortstr, 4)]
  {
    assert EncoderLines(BASIC_DELIVER, 3, 1) == [PutBits, PutField(Shortstr, 3), PutField(Shortstr, 4)];
    assert DecoderLines(BASIC_DELIVER, 3, 1) == [GetField(Shortstr, 3), GetField(Shortstr, 4)];
  }
}
