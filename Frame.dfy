/** The header check and payload slice of `decodeNodeId`, and the
    classification of the decoded radio message. The protobuf parser is a
    foreign library; it is a parameter here (`decoder`), returning `None`
    where the parser or the JSON field lookups raise. */
module Frame {
  import opened Wrappers

  type byte = x: int | 0 <= x < 256
  type uint32 = x: int | 0 <= x < 0x1_0000_0000

  const MAGIC_0: byte := 0x94
  const MAGIC_1: byte := 0xC3
  const MAX_PAYLOAD: nat := 512
  const HEADER_SIZE: nat := 4
  /** `BROADCAST_ADDR`. */
  const BROADCAST_ADDR: uint32 := 0xFFFF_FFFF

  /** Which member of the `payload_variant` oneof is set. */
  datatype Variant = PacketVariant | OtherVariant

  /** `decoded.portnum` of a packet. */
  datatype PortNum = TextMessageApp | OtherPort

  /** What the proxy reads of a parsed `FromRadio` message: the variant, the
      packet's destination and sender, and its port number, which is absent
      (`None`) when the packet has no `decoded` part or the JSON rendering
      omits the field. A sender of 0 is omitted from the JSON rendering. */
  datatype FromRadio = FromRadio(variant: Variant, to: uint32, portnum: Option<PortNum>, sender: uint32)

  /** The result of `decodeNodeId`: `False`, or the sending node. */
  datatype Attribution = NotAttributable | Sender(node: uint32)

  function Min(a: int, b: int): int {
    if a <= b then a else b
  }

  /** The big-endian length field `data[2] << 8 | data[3]`. */
  function DeclaredLength(data: seq<byte>): (n: nat)
    requires |data| >= HEADER_SIZE
    ensures n < 0x1_0000
  {
    (data[2] as int) * 256 + data[3] as int
  }

  /** The header check: at least four bytes, the magic pair, a declared
      length of at most 512. */
  predicate HasValidHeader(data: seq<byte>) {
    && |data| >= HEADER_SIZE
    && data[0] == MAGIC_0 && data[1] == MAGIC_1
    && DeclaredLength(data) <= MAX_PAYLOAD
  }

  /** The bytes handed to the parser: `data[4:4 + data_len]`, which Python
      silently cuts short at the end of the chunk. */
  function FramePayload(data: seq<byte>): (r: Option<seq<byte>>)
    ensures r.Some? <==> HasValidHeader(data)
    ensures r.Some? ==>
      && |r.value| == Min(DeclaredLength(data), |data| - HEADER_SIZE)
      && |r.value| <= MAX_PAYLOAD
      && r.value == data[HEADER_SIZE..HEADER_SIZE + |r.value|]
  {
    if HasValidHeader(data) then
      Some(data[HEADER_SIZE..Min(HEADER_SIZE + DeclaredLength(data), |data|)])
    else None
  }

  /** The classification after the parse. The test at line 170 compares the
      JSON object of the packet with the numbers `BROADCAST_ADDR` and 0; an
      object never equals a number, so that test never excludes anything and
      the destination `to` does not take part. A missing port number or a
      zero sender raises a `KeyError`, which the caller turns into `False`. */
  function Classify(m: Option<FromRadio>): (r: Attribution)
    ensures r.Sender? <==>
      m.Some? && m.value.variant == PacketVariant && m.value.portnum == Some(TextMessageApp) && m.value.sender != 0
    ensures r.Sender? ==> r.node == m.value.sender && r.node != 0
  {
    match m
    case None => NotAttributable
    case Some(msg) =>
      if msg.variant != PacketVariant then NotAttributable
      else if msg.portnum != Some(TextMessageApp) then NotAttributable
      else if msg.sender == 0 then NotAttributable
      else Sender(msg.sender)
  }

  /** `decodeNodeId(data)`: a chunk is attributed to a node only when its
      header is valid and the parsed payload is a text-message packet with a
      sender; every other case, the short chunk included, is `False`. */
  function DecodeNodeId(data: seq<byte>, decoder: seq<byte> -> Option<FromRadio>): (r: Attribution)
    ensures !HasValidHeader(data) ==> r == NotAttributable
    ensures r.Sender? <==>
      && HasValidHeader(data)
      && var m := decoder(FramePayload(data).value);
      && m.Some? && m.value.variant == PacketVariant && m.value.portnum == Some(TextMessageApp)
      && m.value.sender != 0
    ensures r.Sender? ==> r.node != 0 && r.node == decoder(FramePayload(data).value).value.sender
  {
    match FramePayload(data)
    case None => NotAttributable
    case Some(payload) => Classify(decoder(payload))
  }

  /** Bytes after the declared end of a complete frame are never looked at. */
  lemma TrailingBytesIgnored(data: seq<byte>, extra: seq<byte>, decoder: seq<byte> -> Option<FromRadio>)
    requires HasValidHeader(data) && |data| == HEADER_SIZE + DeclaredLength(data)
    ensures DecodeNodeId(data + extra, decoder) == DecodeNodeId(data, decoder)
  {
    var whole := data + extra;
    assert whole[..HEADER_SIZE] == data[..HEADER_SIZE];
    assert DeclaredLength(whole) == DeclaredLength(data);
    assert whole[0] == data[0] && whole[1] == data[1];
    assert HasValidHeader(whole);
    assert FramePayload(whole).value == whole[HEADER_SIZE..|data|] == data[HEADER_SIZE..];
    assert FramePayload(data).value == data[HEADER_SIZE..];
  }

  /** A frame cut short by the end of the chunk is not held back: its
      truncated payload goes to the parser as it is. */
  lemma PartialFrameParsedTruncated(data: seq<byte>)
    requires HasValidHeader(data) && |data| < HEADER_SIZE + DeclaredLength(data)
    ensures FramePayload(data) == Some(data[HEADER_SIZE..])
  {
    var p := FramePayload(data).value;
    assert |p| == |data| - HEADER_SIZE;
    assert p == data[HEADER_SIZE..|data|];
    assert data[HEADER_SIZE..|data|] == data[HEADER_SIZE..];
  }

  /** A short chunk, a wrong magic pair or an oversized length is never
      attributed, whatever the parser would say. */
  lemma BadHeaderNotAttributable(data: seq<byte>, decoder: seq<byte> -> Option<FromRadio>)
    requires |data| < HEADER_SIZE || data[0] != MAGIC_0 || data[1] != MAGIC_1 || DeclaredLength(data) > MAX_PAYLOAD
    ensures DecodeNodeId(data, decoder) == NotAttributable
  {
  }

  /** A text message to the broadcast address, or to 0, is still attributed
      to its sender. */
  lemma BroadcastStillAttributed(data: seq<byte>, decoder: seq<byte> -> Option<FromRadio>, msg: FromRadio)
    requires HasValidHeader(data) && decoder(FramePayload(data).value) == Some(msg)
    requires msg.variant == PacketVariant && msg.portnum == Some(TextMessageApp) && msg.sender != 0
    requires msg.to == BROADCAST_ADDR || msg.to == 0
    ensures DecodeNodeId(data, decoder) == Sender(msg.sender)
  {
  }
}
