/**
 * The XMODEM-CRC frame as xmodem_handle_packet reads it. The header byte
 * (SOH or STX) has already been consumed; what follows it lands in a
 * 1028-byte buffer:
 *
 *   [number][255 - number][payload: 128 or 1024 bytes][crc hi][crc lo]
 *
 * `CheckErrors` is the accumulated verdict of the four independent checks
 * (UART status, packet number, number complement, CRC), and the lemmas
 * relate it to the frame an honest sender builds.
 */
module XmodemPacket {
  import opened Hal
  import opened XmodemCrc

  // Protocol bytes.
  const SOH: byte := 0x01
  const STX: byte := 0x02
  const EOT: byte := 0x04
  const ACK: byte := 0x06
  const NAK: byte := 0x15
  const CAN: byte := 0x18
  const C: byte := 0x43

  // Frame geometry (offsets into the buffer that follows the header).
  const PACKET_128_SIZE: nat := 128
  const PACKET_1024_SIZE: nat := 1024
  const NUMBER_INDEX: nat := 0
  const COMPLEMENT_INDEX: nat := 1
  const DATA_INDEX: nat := 2
  const CRC_SIZE: nat := 2
  const BUFFER_SIZE: nat := PACKET_1024_SIZE + DATA_INDEX + CRC_SIZE

  /** xmodem_status: a bit set of errors, or X_ERROR for all of them. */
  type Status = bv8
  const X_OK: Status := 0x00
  const X_ERROR_CRC: Status := 0x01
  const X_ERROR_NUMBER: Status := 0x02
  const X_ERROR_UART: Status := 0x04
  const X_ERROR_FLASH: Status := 0x08
  const X_ERROR: Status := 0xFF

  /** The payload size a header announces; 0 for a header that is not a
      data header. */
  function PayloadSize(header: byte): (size: nat)
    ensures size != 0 <==> header == SOH || header == STX
    ensures size % PACKET_128_SIZE == 0 && size <= PACKET_1024_SIZE
  {
    if header == SOH then PACKET_128_SIZE
    else if header == STX then PACKET_1024_SIZE
    else 0
  }

  /** Bytes read after the header: number, complement, payload, CRC. */
  function FrameLength(size: nat): nat {
    size + DATA_INDEX + CRC_SIZE
  }

  /** The CRC the sender put in the last two bytes, high byte first. */
  function ReceivedCrc(frame: seq<byte>, length: nat): (c: bv16)
    requires CRC_SIZE <= length <= |frame|
    ensures (c >> 8) as byte == frame[length - 2]
    ensures (c & 0xFF) as byte == frame[length - 1]
  {
    ((frame[length - 2] as bv16) << 8) | (frame[length - 1] as bv16)
  }

  /** The payload part of a frame. */
  function Payload(frame: seq<byte>, size: nat): (p: seq<byte>)
    requires DATA_INDEX + size <= |frame|
    ensures |p| == size
    ensures forall i :: 0 <= i < size ==> p[i] == frame[DATA_INDEX + i]
  {
    frame[DATA_INDEX..DATA_INDEX + size]
  }

  /** The two trailer bytes a sender appends for CRC `c`. */
  function CrcBytes(c: bv16): (r: seq<byte>)
    ensures |r| == CRC_SIZE
  {
    [(c >> 8) as byte, (c & 0xFF) as byte]
  }

  /** Reading back the trailer yields the CRC that was written. */
  lemma CrcBytesRoundTrip(prefix: seq<byte>, c: bv16, rest: seq<byte>)
    ensures ReceivedCrc(prefix + CrcBytes(c) + rest, |prefix| + CRC_SIZE) == c
  {
    var f := prefix + CrcBytes(c) + rest;
    assert f[|prefix|] == (c >> 8) as byte && f[|prefix| + 1] == (c & 0xFF) as byte;
    assert (((c >> 8) as byte) as bv16) << 8 == c & 0xFF00;
    assert ((c & 0xFF) as byte) as bv16 == c & 0x00FF;
  }

  /** Number and complement as checked: the number is the expected one and
      the two bytes add up to 255 in integer arithmetic (no wrap). */
  predicate NumberOk(expected: byte, frame: seq<byte>)
    requires COMPLEMENT_INDEX < |frame|
  {
    frame[NUMBER_INDEX] == expected
    && frame[NUMBER_INDEX] as int + frame[COMPLEMENT_INDEX] as int == 255
  }

  /** The CRC computed over the payload equals the one in the trailer. */
  predicate CrcOk(frame: seq<byte>, size: nat)
    requires FrameLength(size) <= |frame|
  {
    Crc16(Payload(frame, size)) == ReceivedCrc(frame, FrameLength(size))
  }

  /** The status xmodem_handle_packet has accumulated for a data frame
      before it touches the flash: every failing check adds its bit. */
  function CheckErrors(expected: byte, commOk: bool, frame: seq<byte>, size: nat): (st: Status)
    requires FrameLength(size) <= |frame|
    ensures st & X_ERROR_UART != 0 <==> !commOk
    ensures st & X_ERROR_NUMBER != 0 <==> !NumberOk(expected, frame)
    ensures st & X_ERROR_CRC != 0 <==> !CrcOk(frame, size)
    ensures st == X_OK <==> commOk && NumberOk(expected, frame) && CrcOk(frame, size)
    ensures st & X_ERROR_FLASH == 0 && st != X_ERROR
  {
    (if commOk then X_OK else X_ERROR_UART)
    | (if NumberOk(expected, frame) then X_OK else X_ERROR_NUMBER)
    | (if CrcOk(frame, size) then X_OK else X_ERROR_CRC)
  }

  /** The frame a sender transmits for packet `n` (after the header). */
  function BuildFrame(n: byte, payload: seq<byte>): (f: seq<byte>)
    ensures |f| == FrameLength(|payload|)
    ensures f[NUMBER_INDEX] == n && f[COMPLEMENT_INDEX] == 0xFF - n
    ensures Payload(f, |payload|) == payload
  {
    [n, 0xFF - n] + payload + CrcBytes(Crc16(payload))
  }

  /** The first `n` bytes of `buf` are the bytes of `data` (the rest of the
      buffer is whatever it held before). */
  predicate Delivered(buf: seq<byte>, data: seq<byte>, n: nat)
    requires n <= |buf| && n <= |data|
  {
    buf[..n] == data[..n]
  }

  /** The trailer of a sender's frame carries the CRC of its payload. */
  lemma BuiltFrameTrailer(n: byte, payload: seq<byte>)
    ensures ReceivedCrc(BuildFrame(n, payload), FrameLength(|payload|)) == Crc16(payload)
  {
    assert BuildFrame(n, payload) == [n, 0xFF - n] + payload + CrcBytes(Crc16(payload)) + [];
    CrcBytesRoundTrip([n, 0xFF - n] + payload, Crc16(payload), []);
  }

  /** Only the first `length` bytes decide the trailer. */
  lemma ReceivedCrcPrefix(a: seq<byte>, b: seq<byte>, length: nat)
    requires CRC_SIZE <= length <= |a| && length <= |b|
    requires a[..length] == b[..length]
    ensures ReceivedCrc(a, length) == ReceivedCrc(b, length)
  {
    assert a[length - 2] == a[..length][length - 2] == b[length - 2];
    assert a[length - 1] == a[..length][length - 1] == b[length - 1];
  }

  /** Only the first `FrameLength(size)` bytes decide the payload. */
  lemma PayloadPrefix(a: seq<byte>, b: seq<byte>, size: nat)
    requires FrameLength(size) <= |a| && FrameLength(size) <= |b|
    requires a[..FrameLength(size)] == b[..FrameLength(size)]
    ensures Payload(a, size) == Payload(b, size)
  {
    forall i | 0 <= i < size
      ensures Payload(a, size)[i] == Payload(b, size)[i]
    {
      assert a[DATA_INDEX + i] == a[..FrameLength(size)][DATA_INDEX + i];
    }
  }

  /** The fields of a received buffer that holds a sender's frame. */
  lemma BuiltFrameFields(n: byte, payload: seq<byte>, buf: seq<byte>)
    requires FrameLength(|payload|) <= |buf|
    requires Delivered(buf, BuildFrame(n, payload), FrameLength(|payload|))
    ensures buf[NUMBER_INDEX] == n && buf[COMPLEMENT_INDEX] == 0xFF - n
    ensures Payload(buf, |payload|) == payload
    ensures ReceivedCrc(buf, FrameLength(|payload|)) == Crc16(payload)
  {
    var size := |payload|;
    var f := BuildFrame(n, payload);
    assert buf[..FrameLength(size)] == f[..FrameLength(size)];
    assert buf[0] == buf[..FrameLength(size)][0] == f[0];
    assert buf[1] == buf[..FrameLength(size)][1] == f[1];
    PayloadPrefix(buf, f, size);
    BuiltFrameTrailer(n, payload);
    ReceivedCrcPrefix(buf, f, FrameLength(size));
  }

  /** A frame built by the sender for the expected packet number, received
      without UART error, passes every check, and its payload is the one
      the sender checksummed. */
  lemma SenderFrameAccepted(n: byte, payload: seq<byte>, buf: seq<byte>)
    requires |payload| == PACKET_128_SIZE || |payload| == PACKET_1024_SIZE
    requires FrameLength(|payload|) <= |buf|
    requires Delivered(buf, BuildFrame(n, payload), FrameLength(|payload|))
    ensures Payload(buf, |payload|) == payload
    ensures CheckErrors(n, true, buf, |payload|) == X_OK
  {
    BuiltFrameFields(n, payload, buf);
    ComplementMeaning(buf);
    assert NumberOk(n, buf);
    assert CrcOk(buf, |payload|);
  }

  /** A frame whose payload differs in exactly one byte from the payload the
      sender checksummed is rejected with the CRC bit set. */
  lemma CorruptedPayloadRejected(expected: byte, commOk: bool, buf: seq<byte>, sent: seq<byte>, k: nat)
    requires FrameLength(|sent|) <= |buf|
    requires ReceivedCrc(buf, FrameLength(|sent|)) == Crc16(sent)
    requires k < |sent| && buf[DATA_INDEX + k] != sent[k]
    requires forall i :: 0 <= i < |sent| && i != k ==> buf[DATA_INDEX + i] == sent[i]
    ensures CheckErrors(expected, commOk, buf, |sent|) & X_ERROR_CRC != 0
    ensures CheckErrors(expected, commOk, buf, |sent|) != X_OK
  {
    var got := Payload(buf, |sent|);
    CrcDetectsSingleByteError(got, sent, k);
  }

  /** The complement check accepts exactly the byte 255 - number. */
  lemma ComplementMeaning(frame: seq<byte>)
    requires COMPLEMENT_INDEX < |frame|
    ensures frame[NUMBER_INDEX] as int + frame[COMPLEMENT_INDEX] as int == 255
        <==> frame[COMPLEMENT_INDEX] == 0xFF - frame[NUMBER_INDEX]
  {
    var a := frame[NUMBER_INDEX];
    var b := frame[COMPLEMENT_INDEX];
    if b == 0xFF - a {
      assert (0xFF - a) as int == 255 - a as int;
    }
  }

  /** A frame for any other packet number than the expected one (a repeat
      of the previous packet, say) is rejected with the number bit set,
      however good its CRC. */
  lemma OtherNumberRejected(expected: byte, n: byte, payload: seq<byte>, buf: seq<byte>)
    requires n != expected
    requires FrameLength(|payload|) <= |buf|
    requires Delivered(buf, BuildFrame(n, payload), FrameLength(|payload|))
    ensures CheckErrors(expected, true, buf, |payload|) == X_ERROR_NUMBER
  {
    BuiltFrameFields(n, payload, buf);
    assert !NumberOk(expected, buf);
    assert CrcOk(buf, |payload|);
  }
}
