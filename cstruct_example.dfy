/** The two example messages: a header, and a message type that extends it. */
module CStructExample {
  import opened Wrappers
  import opened CStruct

  /** `Header`: a 25-byte character array, a `c_double` and a `c_uint32`. */
  function Header(): (c: StructClass)
    ensures ClassSize(c) == 37 && |Fields(c)| == 3
    ensures IsInstanceOf(c, CStructBase)
  {
    Subclass("Header", CStructBase,
      [Field("id", CharArray(25)), Field("timestamp", Scalar(8)), Field("message_type", Scalar(4))])
  }

  /** `MessageTypeA(Header)`: the header's fields, then a 10-byte character array. */
  function MessageTypeA(): (c: StructClass)
    ensures ClassSize(c) == 47 && |Fields(c)| == 4
    ensures IsInstanceOf(c, Header()) && Fields(c)[..3] == Fields(Header())
  {
    Subclass("MessageTypeA", Header(), [Field("message_data_a", CharArray(10))])
  }

  /** `Header.from_bytes(header.to_bytes())` reconstructs the header. */
  lemma HeaderRoundTrip(h: Struct, e: Endian)
    requires h.cls == Header() && Valid(h)
    ensures |Encode(Fields(Header()), h.values, e)| == 37
    ensures Decode(Header(), Encode(Fields(Header()), h.values, e), e) == Success(h)
  {
    RoundTrip(h, e);
  }

  /** `MessageTypeA(*header, data)`: the header's fields in order, then the new one. */
  lemma MessageFromHeader(h: Struct, data: seq<Byte>)
    requires h.cls == Header() && Valid(h) && |data| == 10
    ensures Construct(MessageTypeA(), Iter(h) + [data]).Success?
    ensures var m := Construct(MessageTypeA(), Iter(h) + [data]).value;
      Valid(m) && Iter(m)[..3] == Iter(h) && Iter(m)[3] == data
  {
    assert Iter(h) + [data] == h.values + [data];
    assert (h.values + [data])[..3] == h.values;
  }

  /** `MessageTypeA.from_bytes(messageA.to_bytes())` reconstructs the message. */
  lemma MessageRoundTrip(m: Struct, e: Endian)
    requires m.cls == MessageTypeA() && Valid(m)
    ensures |Encode(Fields(MessageTypeA()), m.values, e)| == 47
    ensures Decode(MessageTypeA(), Encode(Fields(MessageTypeA()), m.values, e), e) == Success(m)
  {
    RoundTrip(m, e);
  }

  /** `Header.from_bytes(messageA_bytes[:Header.size()])` gives the header the
      message was built from. */
  lemma HeaderOfMessage(h: Struct, data: seq<Byte>, e: Endian)
    requires h.cls == Header() && Valid(h) && |data| == 10
    ensures var m := Struct(MessageTypeA(), h.values + [data]);
      Valid(m) && |Encode(Fields(MessageTypeA()), m.values, e)| == 47 &&
      Decode(Header(), Encode(Fields(MessageTypeA()), m.values, e)[..37], e) == Success(h)
  {
    var m := Struct(MessageTypeA(), h.values + [data]);
    assert (h.values + [data])[..3] == h.values;
    assert Valid(m);
    EncodeLength(Fields(MessageTypeA()), m.values, e);
    PrefixDecode(m, Header(), e);
  }

  /** `header.equals(messageA)` holds, since a message is an instance of
      `Header` and the comparison stops at the header's fields; the reverse
      comparison answers NotImplemented. */
  lemma HeaderEqualsMessage(h: Struct, data: seq<Byte>)
    requires h.cls == Header() && Valid(h) && |data| == 10
    ensures var m := Struct(MessageTypeA(), h.values + [data]);
      Valid(m) && Equals(h, m) == Answer(true) && Equals(m, h) == NotImplemented
  {
    var m := Struct(MessageTypeA(), h.values + [data]);
    assert Valid(m);
    EqualsMeaning(h, m);
    EqualsMeaning(m, h);
    assert !IsInstanceOf(Header(), MessageTypeA());
  }
}
