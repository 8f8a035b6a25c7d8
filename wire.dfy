/**
  The link-layer formats shared by the MicroBlaze firmware and the PC sender:
  the transfer frame with its two fragment headers (EtherType 0x88B5), and the
  acknowledgement frame (EtherType 0x88B7), together with the fixed constants
  both sides agree on.
*/
module Wire {
  import opened Bytes

  const EthHeaderSize: nat := 14
  /** FRAGMENT_HEADER_SIZE_FIRST, struct.calcsize("<IIIII") */
  const FirstHeaderSize: nat := 20
  /** FRAGMENT_HEADER_SIZE, struct.calcsize("<IIII") */
  const HeaderSize: nat := 16
  /** MAX_PKT_LEN: the size of the firmware's receive buffer */
  const MaxPacketLength: nat := 1518
  /** FRAGMENT_SIZE on the PC side: header plus data of one fragment */
  const FragmentSize: nat := 1400
  /** sizeof(AckPacket), struct.calcsize("<IIB3x") */
  const AckPacketSize: nat := 12

  /** The EtherType bytes of a transfer frame (0x88B5), big-endian. */
  const TransferTypeHi: Byte := 0x88
  const TransferTypeLo: Byte := 0xB5
  /** ACK_ETHER_TYPE (0x88B7), big-endian. */
  const AckTypeHi: Byte := 0x88
  const AckTypeLo: Byte := 0xB7

  /** AUDIO_TENSOR_ID: the stream that carries the spectrogram. */
  const AudioTensorId: U32 := 99
  /** AUDIO_BUFFER_SIZE = 124 * 129 */
  const AudioBufferSize: nat := 124 * 129
  /** TOTAL_TENSORS: entries of the tensor offset and size tables. */
  const TotalTensors: nat := 18

  const FpgaMac: seq<Byte> := [0x02, 0xAA, 0xBB, 0xCC, 0xDD, 0xEE]
  const PcMac: seq<Byte> := [0x9C, 0xEB, 0xE8, 0xAE, 0x7E, 0xF5]

  /** The frame the PC sends: `Ether(dst=FPGA, src=PC, type=0x88B5) / payload`. */
  function TransferFrame(payload: seq<Byte>): (r: seq<Byte>)
    ensures |r| == EthHeaderSize + |payload|
    ensures r[12] == TransferTypeHi && r[13] == TransferTypeLo
    ensures r[EthHeaderSize..] == payload
  {
    FpgaMac + PcMac + [TransferTypeHi, TransferTypeLo] + payload
  }

  /** `struct.pack("<IIIII", id, 0, total, size, len)`: header of fragment 0. */
  function FirstHeader(tensorId: U32, total: U32, tensorSize: U32, payloadLength: U32): (r: seq<Byte>)
    ensures |r| == FirstHeaderSize
  {
    PutU32s([tensorId, 0, total, tensorSize, payloadLength])
  }

  /** `struct.pack("<IIII", id, index, total, len)`: header of a later fragment. */
  function NextHeader(tensorId: U32, index: U32, total: U32, payloadLength: U32): (r: seq<Byte>)
    ensures |r| == HeaderSize
  {
    PutU32s([tensorId, index, total, payloadLength])
  }

  /** The firmware's `get_u32(header_ptr + 4*i)` reads back every field the
      sender packed into a first-fragment header, whatever follows it. */
  lemma FirstHeaderFields(tensorId: U32, total: U32, tensorSize: U32, payloadLength: U32, data: seq<Byte>)
    ensures var f := TransferFrame(FirstHeader(tensorId, total, tensorSize, payloadLength) + data);
      && |f| == EthHeaderSize + FirstHeaderSize + |data|
      && GetU32(f, 14) == tensorId && GetU32(f, 18) == 0 && GetU32(f, 22) == total
      && GetU32(f, 26) == tensorSize && GetU32(f, 30) == payloadLength
      && f[EthHeaderSize + FirstHeaderSize..] == data
  {
    var xs := [tensorId, 0, total, tensorSize, payloadLength];
    var pre := FpgaMac + PcMac + [TransferTypeHi, TransferTypeLo];
    var f := TransferFrame(FirstHeader(tensorId, total, tensorSize, payloadLength) + data);
    assert f == pre + PutU32s(xs) + data;
    GetPutU32sAt(xs, 0, pre, data);
    GetPutU32sAt(xs, 1, pre, data);
    GetPutU32sAt(xs, 2, pre, data);
    GetPutU32sAt(xs, 3, pre, data);
    GetPutU32sAt(xs, 4, pre, data);
  }

  /** The same for the 16-byte header of a later fragment. */
  lemma NextHeaderFields(tensorId: U32, index: U32, total: U32, payloadLength: U32, data: seq<Byte>)
    ensures var f := TransferFrame(NextHeader(tensorId, index, total, payloadLength) + data);
      && |f| == EthHeaderSize + HeaderSize + |data|
      && GetU32(f, 14) == tensorId && GetU32(f, 18) == index
      && GetU32(f, 22) == total && GetU32(f, 26) == payloadLength
      && f[EthHeaderSize + HeaderSize..] == data
  {
    var xs := [tensorId, index, total, payloadLength];
    var pre := FpgaMac + PcMac + [TransferTypeHi, TransferTypeLo];
    var f := TransferFrame(NextHeader(tensorId, index, total, payloadLength) + data);
    assert f == pre + PutU32s(xs) + data;
    GetPutU32sAt(xs, 0, pre, data);
    GetPutU32sAt(xs, 1, pre, data);
    GetPutU32sAt(xs, 2, pre, data);
    GetPutU32sAt(xs, 3, pre, data);
  }

  /** An acknowledgement as `send_ack` fills it: status 1 is ACK, 0 is NACK. */
  datatype Ack = Ack(tensorId: U32, fragmentIndex: U32, status: Byte)

  /** The `AckPacket` struct copied byte for byte on the little-endian
      MicroBlaze: two words, the status byte and three zero bytes. */
  function AckPayload(a: Ack): (r: seq<Byte>)
    ensures |r| == AckPacketSize
  {
    PutU32(a.tensorId) + PutU32(a.fragmentIndex) + [a.status, 0, 0, 0]
  }

  /** The whole frame `send_ack` transmits (Microblaze/ACC.c:116-132). */
  function AckFrame(a: Ack): (r: seq<Byte>)
    ensures |r| == EthHeaderSize + AckPacketSize
    ensures r[..6] == PcMac && r[6..12] == FpgaMac
    ensures r[12] == AckTypeHi && r[13] == AckTypeLo
  {
    PcMac + FpgaMac + [AckTypeHi, AckTypeLo] + AckPayload(a)
  }

  /** `struct.unpack("<IIB", payload[:9])` on the PC side. */
  function UnpackAck(payload: seq<Byte>): (r: (U32, U32, Byte))
    requires |payload| >= 9
  {
    (GetU32(payload, 0), GetU32(payload, 4), payload[8])
  }

  /** The PC decodes exactly the tensor id, fragment index and status the
      firmware packed, from the first 9 bytes of the frame's payload. */
  lemma AckRoundTrip(a: Ack)
    ensures |AckFrame(a)[EthHeaderSize..]| >= 9
    ensures UnpackAck(AckFrame(a)[EthHeaderSize..]) == (a.tensorId, a.fragmentIndex, a.status)
  {
    var p := AckFrame(a)[EthHeaderSize..];
    assert p == AckPayload(a);
    GetPutU32(a.tensorId, [], PutU32(a.fragmentIndex) + [a.status, 0, 0, 0]);
    assert p == [] + PutU32(a.tensorId) + (PutU32(a.fragmentIndex) + [a.status, 0, 0, 0]);
    GetPutU32(a.fragmentIndex, PutU32(a.tensorId), [a.status, 0, 0, 0]);
    assert p == PutU32(a.tensorId) + PutU32(a.fragmentIndex) + [a.status, 0, 0, 0];
  }
}
