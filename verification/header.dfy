/**
  The PowerUDP header codec of the data channel (Projeto_client.c): the
  8-byte header `seq_num:u32be, ack:u8, flags:u8, length:u16be`, the data
  packet built by envia_powerudp, the ACK/NAK packet built by envia_acknak,
  and the decoding done by ler_header and inline in recebe_powerudp_com_ack.
*/
module Header {
  import opened Common

  /** sizeof(PowerUDPHeader): 4 + 1 + 1 + 2 bytes, no padding. */
  const HeaderSize: nat := 8
  /** BUFLEN: the size of the send buffer and of the receiver's buffer. */
  const BufLen: nat := 512
  /** The largest payload envia_powerudp's 512-byte buffer can hold. */
  const MaxPayload: nat := BufLen - HeaderSize

  /** Values of the `ack` byte. */
  const KindData: u8 := 0
  const KindAck: u8 := 1
  const KindNak: u8 := 2

  /** PowerUDPHeader with its fields in host order. */
  datatype PowerUdpHeader = PowerUdpHeader(seqNum: u32, ack: u8, flags: u8, length: u16)

  /** The header's wire image: the struct after htonl/htons, copied byte for byte. */
  function EncodeHeader(h: PowerUdpHeader): (b: Bytes)
    ensures |b| == HeaderSize
  {
    U32ToBe(h.seqNum) + [h.ack, h.flags] + U16ToBe(h.length)
  }

  /**
    The memcpy of the first 8 received bytes into the struct followed by
    ntohl/ntohs. Nothing is checked: `length` is whatever the sender wrote.
  */
  function DecodeHeader(received: Bytes): PowerUdpHeader
    requires |received| >= HeaderSize
  {
    PowerUdpHeader(BeToU32(received), received[4], received[5], BeToU16(received[6..]))
  }

  /** Decoding undoes encoding, whatever bytes follow the header. */
  lemma LemmaDecodeEncode(h: PowerUdpHeader, rest: Bytes)
    ensures DecodeHeader(EncodeHeader(h) + rest) == h
  {
    var b := EncodeHeader(h) + rest;
    assert b[..4] == ToBe(h.seqNum, 4);
    assert b[6..][..2] == ToBe(h.length, 2);
    LemmaFromToBe(h.seqNum, 4);
    LemmaFromToBe(h.length, 2);
  }

  /** Encoding undoes decoding: the header fields carry all of the first 8 bytes. */
  lemma LemmaEncodeDecode(received: Bytes)
    requires |received| >= HeaderSize
    ensures EncodeHeader(DecodeHeader(received)) == received[..HeaderSize]
  {
    LemmaToFromBe(received[..4]);
    LemmaToFromBe(received[6..][..2]);
    assert received[..HeaderSize] == received[..4] + [received[4], received[5]] + received[6..][..2];
  }

  /**
    ler_header: fails (returns -1) exactly when fewer than 8 bytes arrived;
    otherwise the header held by the first 8 bytes, whatever follows them.
    The `length` field is not compared with the number of bytes received.
  */
  function ReadHeader(received: Bytes): (r: Option<PowerUdpHeader>)
    ensures r.None? <==> |received| < HeaderSize
    ensures r.Some? ==> U32ToBe(r.value.seqNum) == received[..4] && U16ToBe(r.value.length) == received[6..8]
    ensures r.Some? ==> r.value.ack == received[4] && r.value.flags == received[5]
  {
    if |received| < HeaderSize then None
    else
      LemmaToFromBe(received[..4]);
      LemmaToFromBe(received[6..][..2]);
      assert received[6..][..2] == received[6..8];
      Some(DecodeHeader(received))
  }

  /** A bare header, as envia_acknak sends, reads back as itself. */
  lemma LemmaReadBareHeader(h: PowerUdpHeader)
    ensures ReadHeader(EncodeHeader(h)) == Some(h)
  {
    var none: Bytes := [];
    LemmaDecodeEncode(h, none);
    assert EncodeHeader(h) + none == EncodeHeader(h);
  }

  /** A NUL-terminated string's contents that fit envia_powerudp's buffer. */
  predicate SendablePayload(payload: Bytes)
  {
    0 !in payload && |payload| <= MaxPayload
  }

  /**
    envia_powerudp: a data packet (ack 0, flags 0, length = strlen) followed
    by the payload bytes without their terminator. The 512-byte buffer bounds
    the payload at 504 bytes; longer strings overflow it.
  */
  function EncodeData(seqNum: u32, payload: Bytes): (packet: Bytes)
    requires SendablePayload(payload)
    ensures |packet| == HeaderSize + |payload| <= BufLen
    ensures ReadHeader(packet) == Some(PowerUdpHeader(seqNum, KindData, 0, |payload|))
    ensures packet[HeaderSize..] == payload
  {
    var h := PowerUdpHeader(seqNum, KindData, 0, |payload|);
    LemmaDecodeEncode(h, payload);
    var packet := EncodeHeader(h) + payload;
    assert packet[HeaderSize..] == payload;
    packet
  }

  /**
    envia_acknak: a bare header acknowledging (tipo 1) or refusing (tipo 2)
    seqNum, with flags 0 and length 0.
  */
  function EncodeControl(seqNum: u32, tipo: u8): (packet: Bytes)
    ensures |packet| == HeaderSize
    ensures ReadHeader(packet) == Some(PowerUdpHeader(seqNum, tipo, 0, 0))
  {
    var h := PowerUdpHeader(seqNum, tipo, 0, 0);
    LemmaReadBareHeader(h);
    EncodeHeader(h)
  }
}
