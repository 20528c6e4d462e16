/**
 The frames of the upgrade protocol (upgrade.h, is_pkt_valid, generate_ack_frame): layout, byte order on the
 little-endian target, the validity check, and the acknowledgement built from a 32-bit word.
 */
module Frame {
  import opened Crc32

  const HEADER_LEN: nat := 8
  const TYPE_LEN: nat := 2
  const PAYLOAD_POS: nat := 14
  const CRC_LEN: nat := 4
  const CMD_LEN: nat := 4
  const IV_LEN: nat := 16
  const TAG_LEN: nat := 16
  const MAX_PLAINTEXT_LEN: nat := 1024
  const MAX_SEQ_NUM: nat := 1023
  const TAIL: bv8 := 0x5D

  const AUTHENTICATED_FRAME: bv16 := 0x0800
  const DATA_FRAME: bv16 := 0x0801
  const COMMAND_FRAME: bv16 := 0x0802
  const ACK_FRAME: bv16 := 0x0803

  const PASS: bv32 := 0xFFFF_0000
  const FAIL: bv32 := 0xFFFF_0001
  const INVALID: bv32 := 0xFFFF_0002
  const TYPE_ERR: bv32 := 0xFFFF_0003
  const CMD_ERR: bv32 := 0xFFFF_0003
  const SEQ_ERR: bv32 := 0xFFFF_0004
  const LEN_ERR: bv32 := 0xFFFF_0005
  const CRC_ERR: bv32 := 0xFFFF_0006
  const DECRYPT_ERR: bv32 := 0xFFFF_0007
  const FLASH_WR_ERR: bv32 := 0xFFFF_0008

  const GET_VERSION: bv32 := 0x55AA_0400
  const GET_CRC: bv32 := 0x55AA_0401
  const EXEC: bv32 := 0x55AA_0402

  function Header(): (h: seq<bv8>)
    ensures |h| == HEADER_LEN
  {
    [0x5B, 0x55, 0x50, 0x47, 0x52, 0x41, 0x44, 0x45]
  }

  // The memory a handler can reach from the first byte of a packet: the frame, then whatever follows it. It is as
  // long as the largest length field allows a check to look.
  const VIEW: nat := 65554

  type View = v: seq<bv8> | |v| == VIEW witness seq(VIEW, _ => 0)

  /* Byte order. */

  function Load16(b0: bv8, b1: bv8): bv16 {
    (b0 as bv16) | ((b1 as bv16) << 8)
  }

  function Swap16(n: bv16): bv16 {
    ((n & 0xFF) << 8) | ((n & 0xFF00) >> 8)
  }

  function Swap32(n: bv32): bv32 {
    ((n & 0xFF) << 24) | ((n & 0xFF00) << 8) | ((n & 0xFF_0000) >> 8) | ((n & 0xFF00_0000) >> 24)
  }

  function Stored16(n: bv16): seq<bv8> {
    [(n & 0xFF) as bv8, (n >> 8) as bv8]
  }

  function Stored32(n: bv32): (s: seq<bv8>)
    ensures |s| == 4
  {
    [(n & 0xFF) as bv8, ((n >> 8) & 0xFF) as bv8, ((n >> 16) & 0xFF) as bv8, (n >> 24) as bv8]
  }

  // A field in network order.
  function Net16(s: seq<bv8>, at: nat): bv16
    requires at + 2 <= |s|
  {
    Swap16(Load16(s[at], s[at + 1]))
  }

  function Net32(s: seq<bv8>, at: nat): bv32
    requires at + 4 <= |s|
  {
    Swap32(Load32(s[at], s[at + 1], s[at + 2], s[at + 3]))
  }

  function TypeOf(v: View): bv16 {
    Net16(v, 8)
  }

  function SeqOf(v: View): nat {
    Net16(v, 10) as nat
  }

  function LenOf(v: View): (n: nat)
    ensures n < 0x1_0000
  {
    Net16(v, 12) as nat
  }

  function CommandOf(v: View): bv32 {
    Net32(v, 10)
  }

  function IvOf(v: View): (iv: seq<bv8>)
    ensures |iv| == IV_LEN
  {
    v[10..26]
  }

  function TagOf(v: View): (tag: seq<bv8>)
    ensures |tag| == TAG_LEN
  {
    v[26..42]
  }

  function PayloadOf(v: View): (p: seq<bv8>)
    ensures |p| == LenOf(v)
  {
    v[PAYLOAD_POS..PAYLOAD_POS + LenOf(v)]
  }

  lemma TypesDiffer()
    ensures AUTHENTICATED_FRAME != DATA_FRAME && AUTHENTICATED_FRAME != COMMAND_FRAME
    ensures DATA_FRAME != COMMAND_FRAME
    ensures AUTHENTICATED_FRAME != ACK_FRAME && DATA_FRAME != ACK_FRAME && COMMAND_FRAME != ACK_FRAME
  {}

  /* Validity. */

  datatype Verdict = Valid | Invalid(ack: bv32)

  // The bytes under the CRC of a data frame.
  function Covered(v: View): (s: seq<bv8>)
    ensures |s| >= PAYLOAD_POS
  {
    v[..PAYLOAD_POS + LenOf(v)]
  }

  // is_pkt_valid, given the CRC it has calculated of those bytes.
  function Check(v: View, calculated: bv32): Verdict {
    var kind := TypeOf(v);
    if kind == AUTHENTICATED_FRAME then
      if v[HEADER_LEN + TYPE_LEN + IV_LEN + TAG_LEN] != TAIL then Invalid(Swap32(INVALID)) else Valid
    else if kind == DATA_FRAME then
      var end := PAYLOAD_POS + LenOf(v);
      if v[end + CRC_LEN] != TAIL then Invalid(Swap32(INVALID))
      else if Net32(v, end) != calculated then Invalid(Swap32(CRC_ERR))
      else Valid
    else if kind == ACK_FRAME then Invalid(Swap32(INVALID))
    else if kind == COMMAND_FRAME then
      if v[HEADER_LEN + TYPE_LEN + CMD_LEN] != TAIL then Invalid(Swap32(INVALID)) else Valid
    else Invalid(Swap32(INVALID))
  }

  function Validate(v: View): Verdict {
    Check(v, Crc(Covered(v)))
  }

  // The word a packet that is not valid is answered with: that of a wrong CRC exactly if it is a data frame whose tail
  // is where it should be, that of an invalid packet otherwise.
  lemma RefusedWord(v: View)
    requires Validate(v) != Valid
    ensures Validate(v) == Invalid(Swap32(
      if TypeOf(v) == 0x0801 && v[18 + LenOf(v)] == 0x5D then 0xFFFF_0006 else 0xFFFF_0002))
  {
    hide TypeOf, LenOf, Net32, Swap32, Crc;
    TypesDiffer();
  }

  lemma NetInjective(a0: bv8, a1: bv8, a2: bv8, a3: bv8, b0: bv8, b1: bv8, b2: bv8, b3: bv8)
    requires Swap32(Load32(a0, a1, a2, a3)) == Swap32(Load32(b0, b1, b2, b3))
    ensures a0 == b0 && a1 == b1 && a2 == b2 && a3 == b3
  {}

  lemma SameField(v: View, w: View, at: nat)
    requires at + 4 <= VIEW && Net32(v, at) == Net32(w, at)
    ensures v[at..at + 4] == w[at..at + 4]
  {
    hide Swap32, Load32;
    NetInjective(v[at], v[at + 1], v[at + 2], v[at + 3], w[at], w[at + 1], w[at + 2], w[at + 3]);
  }

  predicate SameLayout(v: View, w: View) {
    && TypeOf(w) == TypeOf(v)
    && LenOf(w) == LenOf(v)
    && w[PAYLOAD_POS + LenOf(v) + CRC_LEN] == v[PAYLOAD_POS + LenOf(v) + CRC_LEN]
  }

  // A valid data frame of which at most four neighbouring covered bytes (header, sequence or payload) are altered,
  // the type, length, CRC field and tail being as they were, is rejected.
  lemma BurstRejected(v: View, w: View, at: nat, n: nat)
    requires TypeOf(v) == DATA_FRAME && Validate(v) == Valid && SameLayout(v, w)
    requires n <= 4 && at + n <= PAYLOAD_POS + LenOf(v)
    requires v[..at] == w[..at] && v[at..at + n] != w[at..at + n]
    requires v[at + n..PAYLOAD_POS + LenOf(v) + CRC_LEN] == w[at + n..PAYLOAD_POS + LenOf(v) + CRC_LEN]
    ensures Validate(w) == Invalid(Swap32(CRC_ERR))
  {
    hide Crc, TypeOf, LenOf, Swap32, Load32;
    var end := PAYLOAD_POS + LenOf(v);
    var rest := v[at + n..end];
    assert rest == v[at + n..end + CRC_LEN][..end - at - n];
    assert w[at + n..end] == w[at + n..end + CRC_LEN][..end - at - n];
    assert v[..end] == v[..at] + v[at..at + n] + rest;
    assert w[..end] == v[..at] + w[at..at + n] + rest;
    BurstDetected(v[..at], v[at..at + n], w[at..at + n], rest);
    forall i | end <= i < end + CRC_LEN
      ensures v[i] == w[i]
    {
      assert v[i] == v[at + n..end + CRC_LEN][i - at - n];
      assert w[i] == w[at + n..end + CRC_LEN][i - at - n];
    }
  }

  // So is one whose CRC field alone is altered, in any way.
  lemma CrcFieldRejected(v: View, w: View)
    requires TypeOf(v) == DATA_FRAME && Validate(v) == Valid && SameLayout(v, w)
    requires v[..PAYLOAD_POS + LenOf(v)] == w[..PAYLOAD_POS + LenOf(v)]
    requires v[PAYLOAD_POS + LenOf(v)..PAYLOAD_POS + LenOf(v) + CRC_LEN]
          != w[PAYLOAD_POS + LenOf(v)..PAYLOAD_POS + LenOf(v) + CRC_LEN]
    ensures Validate(w) == Invalid(Swap32(CRC_ERR))
  {
    hide Crc, TypeOf, LenOf, Swap32, Load32;
    var end := PAYLOAD_POS + LenOf(v);
    if Net32(v, end) == Net32(w, end) {
      SameField(v, w, end);
    }
  }

  /* Acknowledgements. */

  // What *ack starts as: the two fields as they were loaded.
  function DataAck(v: View): bv32 {
    ((Load16(v[10], v[11]) as bv32) << 16) | (Load16(v[12], v[13]) as bv32)
  }

  function AckFrame(ack: bv32): (f: seq<bv8>)
    ensures |f| == 15
  {
    Header() + Stored16(Swap16(ACK_FRAME)) + Stored32(ack) + [TAIL]
  }

  lemma DataAckBytes(a0: bv8, a1: bv8, b0: bv8, b1: bv8)
    ensures Stored32(((Load16(a0, a1) as bv32) << 16) | (Load16(b0, b1) as bv32)) == [b0, b1, a0, a1]
  {}

  lemma StatusBytes(status: bv32)
    requires status & 0xFFFF_0000 == 0xFFFF_0000
    ensures Stored32(Swap32(status))[0] == 0xFF && Stored32(Swap32(status))[1] == 0xFF
  {}

  lemma LongestLength()
    ensures Swap16(Load16(0xFF, 0xFF)) == 0xFFFF
  {}

  lemma AckParts(ack: bv32)
    ensures AckFrame(ack)[..8] == Header()
    ensures AckFrame(ack)[8] == Stored16(Swap16(ACK_FRAME))[0] && AckFrame(ack)[9] == Stored16(Swap16(ACK_FRAME))[1]
    ensures AckFrame(ack)[10..14] == Stored32(ack)
  {
    hide Swap16;
  }

  lemma AckType()
    ensures Swap16(Load16(Stored16(Swap16(ACK_FRAME))[0], Stored16(Swap16(ACK_FRAME))[1])) == ACK_FRAME
  {}

  lemma DataAckParts(v: View)
    ensures AckFrame(DataAck(v))[10..14] == [v[12], v[13], v[10], v[11]]
  {
    hide AckFrame, Stored32, Load16;
    AckParts(DataAck(v));
    DataAckBytes(v[10], v[11], v[12], v[13]);
  }

  lemma AckKind()
    ensures Stored16(Swap16(ACK_FRAME)) == [0x08, 0x03]
  {}

  lemma Stored32Loads(n: bv32)
    ensures Load32(Stored32(n)[0], Stored32(n)[1], Stored32(n)[2], Stored32(n)[3]) == n
  {}

  // The acknowledgement of any word, byte by byte: header, type, the word with its lowest byte first, tail.
  lemma AckBytes(ack: bv32)
    ensures
      var f := AckFrame(ack);
      && f[..10] == [0x5B, 0x55, 0x50, 0x47, 0x52, 0x41, 0x44, 0x45, 0x08, 0x03]
      && Load32(f[10], f[11], f[12], f[13]) == ack && f[14] == 0x5D
  {
    hide Stored16, Swap16, Stored32, Load32;
    var f := AckFrame(ack);
    AckKind();
    Stored32Loads(ack);
    assert f == Header() + [0x08, 0x03] + Stored32(ack) + [TAIL];
  }

  // A host that reads the word of a status frame in network order gets the status back.
  lemma StatusRoundTrip(status: bv32)
    ensures Net32(AckFrame(Swap32(status)), 10) == status
    ensures AckFrame(Swap32(status))[14] == 0x5D
  {
    hide AckFrame, Swap32, Load32;
    AckBytes(Swap32(status));
    SwapTwice(status);
  }

  lemma SwapTwice(n: bv32)
    ensures Swap32(Swap32(n)) == n
  {}

  // Decoding the acknowledgement of a data frame gives back its length and its sequence number, in that order.
  lemma AckRoundTrip(v: View)
    ensures Net16(AckFrame(DataAck(v)), 10) as nat == LenOf(v)
    ensures Net16(AckFrame(DataAck(v)), 12) as nat == SeqOf(v)
    ensures AckFrame(DataAck(v))[..8] == Header() && Net16(AckFrame(DataAck(v)), 8) == ACK_FRAME
    ensures AckFrame(DataAck(v))[14] == 0x5D
  {
    hide AckFrame, DataAck, Swap16, Load16, Load32, Stored16;
    var f := AckFrame(DataAck(v));
    AckBytes(DataAck(v));
    DataAckParts(v);
    assert forall i :: 10 <= i < 14 ==> f[i] == f[10..14][i - 10];
    AckParts(DataAck(v));
    AckType();
  }

  lemma ShortLength(v: View)
    requires LenOf(v) <= MAX_PLAINTEXT_LEN
    ensures !(v[12] == 0xFF && v[13] == 0xFF)
  {
    hide Swap16, Load16;
    LongestLength();
  }

  // It is never the acknowledgement of a status word, whatever the status, once the length has been accepted.
  lemma AckIsNoStatus(v: View, status: bv32)
    requires LenOf(v) <= MAX_PLAINTEXT_LEN
    requires status & 0xFFFF_0000 == 0xFFFF_0000
    ensures AckFrame(DataAck(v)) != AckFrame(Swap32(status))
  {
    hide AckFrame, DataAck, Swap32, Stored32, LenOf;
    ShortLength(v);
    DataAckParts(v);
    AckParts(Swap32(status));
    StatusBytes(status);
  }

  // generate_ack_frame
  method GenerateAckFrame(buffer: array<bv8>, ack: bv32)
    requires buffer.Length == 15
    modifies buffer
    ensures buffer[..] == AckFrame(ack)
  {
    hide Header, Stored32, Swap16, Stored16;
    var kind := Stored16(Swap16(ACK_FRAME));
    Stored16Length(Swap16(ACK_FRAME));
    var word := Stored32(ack);
    forall i | 0 <= i < HEADER_LEN {
      buffer[i] := Header()[i];
    }
    for i := 0 to TYPE_LEN
      invariant buffer[..HEADER_LEN + i] == Header() + kind[..i]
    {
      buffer[HEADER_LEN + i] := kind[i];
    }
    for i := 0 to CRC_LEN
      invariant buffer[..HEADER_LEN + TYPE_LEN + i] == Header() + kind + word[..i]
    {
      buffer[HEADER_LEN + TYPE_LEN + i] := word[i];
    }
    buffer[14] := TAIL;
    assert buffer[..14] == Header() + kind + word;
  }

  lemma Stored16Length(n: bv16)
    ensures |Stored16(n)| == 2
  {}
}
