/** The frames of the upload protocol, version 1: a 24-byte little-endian header and a payload. */
module WifiProtocol {
  import opened Words
  import opened OtaSlot
  import Crc32

  const PROTOCOL_MAGIC: nat := 0x3141544F
  const PROTOCOL_VERSION: nat := 1
  const FRAME_HEADER_SIZE: nat := 24
  const MAX_FRAME_PAYLOAD: nat := 4096
  const BEGIN_PAYLOAD_SIZE: nat := 12
  const STATUS_PAYLOAD_SIZE: nat := 20
  const RESPONSE_BIT: nat := 0x8000

  const MSG_QUERY: nat := 1
  const MSG_BEGIN: nat := 2
  const MSG_DATA: nat := 3
  const MSG_END: nat := 4
  const MSG_ABORT: nat := 5
  const MSG_REBOOT: nat := 6

  // ----- the host's own constants -----

  const HOST_MAGIC: nat := 0x3141544F
  const HOST_VERSION: nat := 1
  const HOST_RESPONSE_BIT: nat := 0x8000
  const HOST_BEGIN: nat := 2
  const HOST_DATA: nat := 3
  const HOST_END: nat := 4

  datatype FrameHeader = FrameHeader(magic: nat, version: nat, kind: nat, sequence: nat, offset: nat, length: nat,
    crc: nat)

  predicate Fits(f: FrameHeader) {
    && f.magic < TWO_TO_THE_32 && f.version < TWO_TO_THE_16 && f.kind < TWO_TO_THE_16 && f.sequence < TWO_TO_THE_32
    && f.offset < TWO_TO_THE_32 && f.length < TWO_TO_THE_32 && f.crc < TWO_TO_THE_32
  }

  function Encode(f: FrameHeader): (bytes: seq<byte>)
    requires Fits(f)
    ensures |bytes| == FRAME_HEADER_SIZE
  {
    StoreU32(f.magic) + StoreU16(f.version) + StoreU16(f.kind) + StoreU32(f.sequence)
    + StoreU32(f.offset) + StoreU32(f.length) + StoreU32(f.crc)
  }

  function Decode(bytes: seq<byte>): (f: FrameHeader)
    requires |bytes| == FRAME_HEADER_SIZE
    ensures Fits(f)
  {
    FrameHeader(U32(bytes[0..4]), U16(bytes[4..6]), U16(bytes[6..8]), U32(bytes[8..12]),
                U32(bytes[12..16]), U32(bytes[16..20]), U32(bytes[20..24]))
  }

  /** Both ends read the frame the other end wrote. */
  lemma DecodeEncode(f: FrameHeader)
    requires Fits(f)
    ensures Decode(Encode(f)) == f
  {
    hide StoreU32, StoreU16, U32, U16;
    var b := Encode(f);
    U32Store(f.magic);
    U16Store(f.version);
    U16Store(f.kind);
    U32Store(f.sequence);
    U32Store(f.offset);
    U32Store(f.length);
    U32Store(f.crc);
    assert b[0..4] == StoreU32(f.magic) && b[4..6] == StoreU16(f.version) && b[6..8] == StoreU16(f.kind);
    assert b[8..12] == StoreU32(f.sequence) && b[12..16] == StoreU32(f.offset);
    assert b[16..20] == StoreU32(f.length) && b[20..24] == StoreU32(f.crc);
  }

  /** Where the fields of a frame header lie, and in which byte order. */
  lemma FrameLayout(f: FrameHeader)
    requires Fits(f)
    ensures var b := Encode(f);
            && Field(b, 0, 4, f.magic) && Field(b, 4, 2, f.version) && Field(b, 6, 2, f.kind)
            && Field(b, 8, 4, f.sequence) && Field(b, 12, 4, f.offset) && Field(b, 16, 4, f.length)
            && Field(b, 20, 4, f.crc)
  {
    var b := Encode(f);
    hide StoreU32, StoreU16, Field;
    assert b[0..4] == StoreU32(f.magic) && b[4..6] == StoreU16(f.version) && b[6..8] == StoreU16(f.kind);
    assert b[8..12] == StoreU32(f.sequence) && b[12..16] == StoreU32(f.offset);
    assert b[16..20] == StoreU32(f.length) && b[20..24] == StoreU32(f.crc);
    hide Encode;
    Field32(b, 0, f.magic);
    Field16(b, 4, f.version);
    Field16(b, 6, f.kind);
    Field32(b, 8, f.sequence);
    Field32(b, 12, f.offset);
    Field32(b, 16, f.length);
    Field32(b, 20, f.crc);
  }

  /** Both ends' magic reads "OTA1" on the wire. */
  lemma MagicOnTheWire(f: FrameHeader)
    requires Fits(f) && (f.magic == PROTOCOL_MAGIC || f.magic == HOST_MAGIC)
    ensures Encode(f)[..4] == ['O' as byte, 'T' as byte, 'A' as byte, '1' as byte]
  {
    FrameLayout(f);
    var b := Encode(f);
    assert Weight(1) == 0x100 && Weight(2) == 0x1_0000 && Weight(3) == 0x100_0000;
    assert b[0 + 0] as nat == 0x4F && b[0 + 1] as nat == 0x54 && b[0 + 2] as nat == 0x41 && b[0 + 3] as nat == 0x31;
  }

  /** The CRC of a payload; an empty one has CRC 0. */
  function PayloadCrc(payload: seq<byte>): (crc: nat)
    ensures crc < TWO_TO_THE_32
  {
    if payload == [] then 0 else Crc32.Crc(payload)
  }

  function WithResponseBit(kind: nat): (k: nat)
    requires kind < TWO_TO_THE_16
    ensures RESPONSE_BIT <= k < TWO_TO_THE_16
  {
    if kind >= RESPONSE_BIT then kind else kind + RESPONSE_BIT
  }

  /** A result code is zero or negative and travels as two's complement. */
  function StatusWord(result: Status): (w: nat)
    ensures w < TWO_TO_THE_32
    ensures w == 0 <==> result == Ok
  {
    if result == Ok then 0 else TWO_TO_THE_32 - result.Code()
  }

  function Response(kind: nat, sequence: nat, result: Status, payload: seq<byte>): (bytes: seq<byte>)
    requires kind < TWO_TO_THE_16 && sequence < TWO_TO_THE_32 && |payload| < TWO_TO_THE_32
    ensures |bytes| == FRAME_HEADER_SIZE + |payload|
  {
    Encode(FrameHeader(PROTOCOL_MAGIC, PROTOCOL_VERSION, WithResponseBit(kind), sequence, StatusWord(result),
                       |payload|, PayloadCrc(payload))) + payload
  }

  function Request(kind: nat, sequence: nat, offset: nat, payload: seq<byte>): (bytes: seq<byte>)
    requires kind < TWO_TO_THE_16 && sequence < TWO_TO_THE_32 && offset < TWO_TO_THE_32 && |payload| < TWO_TO_THE_32
    ensures |bytes| == FRAME_HEADER_SIZE + |payload|
  {
    Encode(FrameHeader(HOST_MAGIC, HOST_VERSION, kind, sequence, offset, |payload|, PayloadCrc(payload))) + payload
  }

  function BeginPayload(size: nat, crc: nat, flags: nat): (b: seq<byte>)
    requires size < TWO_TO_THE_32 && crc < TWO_TO_THE_32 && flags < TWO_TO_THE_32
    ensures |b| == BEGIN_PAYLOAD_SIZE
  {
    StoreU32(size) + StoreU32(crc) + StoreU32(flags)
  }

  lemma BeginPayloadFields(size: nat, crc: nat, flags: nat)
    requires size < TWO_TO_THE_32 && crc < TWO_TO_THE_32 && flags < TWO_TO_THE_32
    ensures var b := BeginPayload(size, crc, flags);
            U32(b[0..4]) == size && U32(b[4..8]) == crc && U32(b[8..12]) == flags
  {
    hide StoreU32, U32;
    var b := BeginPayload(size, crc, flags);
    U32Store(size);
    U32Store(crc);
    U32Store(flags);
    assert b[0..4] == StoreU32(size) && b[4..8] == StoreU32(crc) && b[8..12] == StoreU32(flags);
  }

  /** What the device makes of the bytes at the head of the connection. */
  datatype Inbound =
    | Short
    | Malformed(kind: nat, sequence: nat)
    | Rejected(kind: nat, sequence: nat, error: Status, consumed: nat)
    | Good(kind: nat, sequence: nat, offset: nat, payload: seq<byte>, consumed: nat)

  function Parse(incoming: seq<byte>): (r: Inbound)
    ensures !r.Short? ==> r.kind < TWO_TO_THE_16 && r.sequence < TWO_TO_THE_32
    ensures r.Rejected? || r.Good? ==> FRAME_HEADER_SIZE <= r.consumed <= |incoming| && r.kind < RESPONSE_BIT
    ensures r.Good? ==> |r.payload| <= MAX_FRAME_PAYLOAD && r.offset < TWO_TO_THE_32
  {
    if |incoming| < FRAME_HEADER_SIZE then Short
    else
      var f := Decode(incoming[..FRAME_HEADER_SIZE]);
      if f.magic != PROTOCOL_MAGIC || f.version != PROTOCOL_VERSION || f.kind >= RESPONSE_BIT
        || f.length > MAX_FRAME_PAYLOAD then
        Malformed(f.kind, f.sequence)
      else if |incoming| < FRAME_HEADER_SIZE + f.length then Short
      else
        var end := FRAME_HEADER_SIZE + f.length;
        var payload := incoming[FRAME_HEADER_SIZE..end];
        if payload != [] && Crc32.Crc(payload) != f.crc then Rejected(f.kind, f.sequence, ErrTransferCrc, end)
        else if payload == [] && f.crc != 0 then Rejected(f.kind, f.sequence, ErrProtocol, end)
        else Good(f.kind, f.sequence, f.offset, payload, end)
  }

  /** A client's request arrives as it was meant, whatever comes behind it. */
  lemma ParseRequest(kind: nat, sequence: nat, offset: nat, payload: seq<byte>, more: seq<byte>)
    requires kind < RESPONSE_BIT && sequence < TWO_TO_THE_32 && offset < TWO_TO_THE_32 && |payload| <= MAX_FRAME_PAYLOAD
    ensures Parse(Request(kind, sequence, offset, payload) + more)
         == Good(kind, sequence, offset, payload, FRAME_HEADER_SIZE + |payload|)
  {
    hide Encode, Decode, Crc32.Crc;
    var f := FrameHeader(PROTOCOL_MAGIC, PROTOCOL_VERSION, kind, sequence, offset, |payload|, PayloadCrc(payload));
    var incoming := Request(kind, sequence, offset, payload) + more;
    DecodeEncode(f);
    assert incoming[..FRAME_HEADER_SIZE] == Encode(f);
    assert incoming[FRAME_HEADER_SIZE..FRAME_HEADER_SIZE + |payload|] == payload;
  }

  /** What the client makes of a response to its request: the body, unless anything is wrong. */
  datatype Answer = Failed | Answered(body: seq<byte>)

  function ParseResponse(bytes: seq<byte>, kind: nat, sequence: nat): Answer
    requires kind < RESPONSE_BIT
  {
    if |bytes| < FRAME_HEADER_SIZE then Failed
    else
      var f := Decode(bytes[..FRAME_HEADER_SIZE]);
      if f.magic != HOST_MAGIC || f.version != HOST_VERSION || f.kind != kind + HOST_RESPONSE_BIT
        || f.sequence != sequence then Failed
      else if |bytes| < FRAME_HEADER_SIZE + f.length then Failed
      else
        var body := bytes[FRAME_HEADER_SIZE..FRAME_HEADER_SIZE + f.length];
        if PayloadCrc(body) != f.crc || f.offset != 0 then Failed else Answered(body)
  }

  /** The client takes a response as success exactly when the device answered OK. */
  lemma ParseOwnResponse(kind: nat, sequence: nat, result: Status, payload: seq<byte>)
    requires kind < RESPONSE_BIT && sequence < TWO_TO_THE_32 && |payload| < TWO_TO_THE_32
    ensures ParseResponse(Response(kind, sequence, result, payload), kind, sequence)
         == if result == Ok then Answered(payload) else Failed
  {
    hide Encode, Decode, Crc32.Crc;
    var f := FrameHeader(PROTOCOL_MAGIC, PROTOCOL_VERSION, WithResponseBit(kind), sequence, StatusWord(result),
                         |payload|, PayloadCrc(payload));
    var bytes := Response(kind, sequence, result, payload);
    DecodeEncode(f);
    assert bytes[..FRAME_HEADER_SIZE] == Encode(f);
    assert bytes[FRAME_HEADER_SIZE..FRAME_HEADER_SIZE + |payload|] == payload;
  }
}
