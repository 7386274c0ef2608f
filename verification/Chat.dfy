/** Chat messages as the client sends them: which of them fit a frame, and what becomes of the others. */
module Chat {
  import opened Wire
  import opened Messages
  import opened Schemas
  import opened Writer
  import opened Sizes
  import opened Fields
  import opened Packets
  import opened Frames

  const PKT_C_CHAT: uint16 := 1032

  function ChatSchema(): Schema { Schema([Field(1, KString)]) }

  function ChatPacket(text: seq<byte>): Msg { Msg([VBytes(text)], []) }

  function ChatLetter(text: seq<byte>): Letter { Letter(ChatSchema(), PKT_C_CHAT, ChatPacket(text)) }

  lemma {:induction false} ChatConforms(text: seq<byte>)
    ensures ValidSchema(ChatSchema()) && Conforms(ChatSchema(), ChatPacket(text))
  {
    ConsecutiveValid(ChatSchema());
    var S, m := ChatSchema(), ChatPacket(text);
    assert ValConforms(S.fields[0].kind, m.vals[0]);
  }

  /** A tag, a length prefix and the text. */
  lemma {:induction false} ChatLength(text: seq<byte>)
    requires |text| <= INT_MAX
    ensures Conforms(ChatSchema(), ChatPacket(text))
    ensures var size := if text == [] then 0 else 1 + |EncodeVarint(|text|)| + |text|;
      LongSize(ChatSchema(), ChatPacket(text)) == size == |Serialize(ChatSchema(), ChatPacket(text))|
  {
    hide Serialize, LongSize, FieldSize, VarintSize, EncodeVarint, Conforms, ValidSchema;
    var S, m := ChatSchema(), ChatPacket(text);
    ChatConforms(text);
    LongSizeExact(S, m);
    MessageSize(S, m);
    SumOf1(S, m);
    StringSize(S.fields[0], m.vals[0]);
    VarintSizeExact(|text|);
    assert |EncodeVarint(|text|)| <= 5 by {
      assert Pow128(5) == 0x8_0000_0000;
      VarintLength(|text|, 5);
    }
  }

  /** The client sets no limit on the text. A message is framed, with its text, exactly as long as the text has at
      most 65527 bytes. */
  lemma {:induction false} ChatFits(text: seq<byte>)
    ensures Conforms(ChatSchema(), ChatPacket(text))
    ensures |Serialize(ChatSchema(), ChatPacket(text))| <= MAX_PAYLOAD <==> |text| <= 65527
    ensures Postable(ChatLetter(text)) <==> |text| <= 65527
  {
    hide Serialize, Conforms, LongSize, ValidSchema;
    ChatConforms(text);
    if |text| <= INT_MAX {
      ChatLength(text);
      Prefix(|text|);
    } else {
      PartBound(ChatSchema(), ChatPacket(text), 0);
    }
  }

  /** The length of the prefix around the limit. */
  lemma {:induction false} Prefix(n: nat)
    ensures |EncodeVarint(n)| <= 3 <==> n < 0x20_0000
    ensures 0x4000 <= n < 0x20_0000 ==> |EncodeVarint(n)| == 3
  {
    assert Pow128(2) == 0x4000 && Pow128(3) == 0x20_0000;
    VarintLength(n, 2);
    VarintLength(n, 3);
  }

  function Letters(n: nat): (text: seq<byte>)
    ensures |text| == n && forall i | 0 <= i < n :: text[i] == 0x61
  {
    seq(n, _ => 0x61)
  }

  /** Two texts of letters that lose their message. With 65536 letters the sizes wrap to 4 and 8, and the frame
      goes out as a header and four bytes into which nothing was written; with 65528 letters the packet size
      wraps to 0, and the buffer has no room for the header. */
  lemma {:induction false} ChatOverflows()
    ensures ValidSchema(ChatSchema())
    ensures forall n: nat :: Conforms(ChatSchema(), ChatPacket(Letters(n)))
    ensures var size := LongSize(ChatSchema(), ChatPacket(Letters(65536)));
      size == 65540 && DataSize(size) == 4 && PacketSize(size) == 8
    ensures var size := LongSize(ChatSchema(), ChatPacket(Letters(65528)));
      size == 65532 && DataSize(size) == 65532 && PacketSize(size) == 0
  {
    hide LongSize, Conforms, ValidSchema, EncodeVarint;
    forall n: nat ensures Conforms(ChatSchema(), ChatPacket(Letters(n))) && ValidSchema(ChatSchema()) {
      ChatConforms(Letters(n));
    }
    ChatConforms([]);
    ChatLength(Letters(65536));
    ChatLength(Letters(65528));
    Prefix(65536);
    Prefix(65528);
  }
}
