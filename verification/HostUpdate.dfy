/**
 The frames as a host builds them (the vector and tag, a chunk of the file, a command), and that the firmware takes
 exactly such frames and reads them back as they were meant.
 */
module HostUpdate {
  import opened Frame
  import Crc32

  /* Encoding. */

  function Sent16(n: bv16): (s: seq<bv8>)
    ensures |s| == 2
  {
    [(n >> 8) as bv8, (n & 0xFF) as bv8]
  }

  function Sent32(n: bv32): (s: seq<bv8>)
    ensures |s| == 4
  {
    [(n >> 24) as bv8, ((n >> 16) & 0xFF) as bv8, ((n >> 8) & 0xFF) as bv8, (n & 0xFF) as bv8]
  }

  function Double(w: bv16, bit: bool): bv16 {
    if bit then (w << 1) | 1 else w << 1
  }

  lemma DoubleReads(w: bv16, bit: bool)
    requires w as nat < 0x8000
    ensures Double(w, bit) as nat == 2 * (w as nat) + if bit then 1 else 0
  {
    TopClear(w);
    DoubleEven(w);
    DoubleOdd(w);
  }

  lemma TopClear(w: bv16)
    ensures w & 0x8000 != 0 ==> w as nat >= 0x8000
  {}

  lemma DoubleEven(w: bv16)
    requires w & 0x8000 == 0
    ensures (w << 1) as nat == 2 * (w as nat)
  {}

  lemma DoubleOdd(w: bv16)
    requires w & 0x8000 == 0
    ensures ((w << 1) | 1) as nat == 2 * (w as nat) + 1
  {}

  // The 16-bit word that holds a number, bit by bit.
  function Word16(n: nat): (w: bv16)
    requires n < 0x1_0000
    ensures w as nat == n
  {
    hide Double;
    if n == 0 then 0
    else
      var half := Word16(n / 2);
      DoubleReads(half, n % 2 == 1);
      Double(half, n % 2 == 1)
  }

  function AuthenticationFrame(iv: seq<bv8>, tag: seq<bv8>): seq<bv8> {
    Header() + Sent16(AUTHENTICATED_FRAME) + iv + tag + [TAIL]
  }

  function DataBody(n: nat, payload: seq<bv8>): seq<bv8>
    requires n < 0x1_0000 && |payload| < 0x1_0000
  {
    Header() + Sent16(DATA_FRAME) + Sent16(Word16(n)) + Sent16(Word16(|payload|)) + payload
  }

  function DataFrame(n: nat, payload: seq<bv8>): seq<bv8>
    requires n < 0x1_0000 && |payload| < 0x1_0000
  {
    DataBody(n, payload) + Sent32(Crc32.Crc(DataBody(n, payload))) + [TAIL]
  }

  function CommandFrame(command: bv32): seq<bv8> {
    Header() + Sent16(COMMAND_FRAME) + Sent32(command) + [TAIL]
  }

  // The handler's view begins with a frame.
  predicate Carries(v: View, frame: seq<bv8>) {
    |frame| <= VIEW && v[..|frame|] == frame
  }

  /* What the firmware makes of it. */

  lemma Sent16Read(n: bv16)
    ensures Swap16(Load16(Sent16(n)[0], Sent16(n)[1])) == n
  {}

  lemma Sent32Read(n: bv32)
    ensures Swap32(Crc32.Load32(Sent32(n)[0], Sent32(n)[1], Sent32(n)[2], Sent32(n)[3])) == n
  {}

  lemma Field16(v: View, at: nat, n: bv16)
    requires at + 2 <= VIEW && v[at..at + 2] == Sent16(n)
    ensures Net16(v, at) == n
  {
    hide Swap16, Load16, Sent16;
    Sent16Read(n);
    assert v[at] == v[at..at + 2][0] && v[at + 1] == v[at..at + 2][1];
  }

  lemma Field32(v: View, at: nat, n: bv32)
    requires at + 4 <= VIEW && v[at..at + 4] == Sent32(n)
    ensures Net32(v, at) == n
  {
    hide Swap32, Crc32.Load32, Sent32;
    Sent32Read(n);
    var field := v[at..at + 4];
    assert v[at] == field[0] && v[at + 1] == field[1] && v[at + 2] == field[2] && v[at + 3] == field[3];
  }

  lemma AuthenticationReads(v: View, iv: seq<bv8>, tag: seq<bv8>)
    requires |iv| == IV_LEN && |tag| == TAG_LEN && Carries(v, AuthenticationFrame(iv, tag))
    ensures Validate(v) == Valid && TypeOf(v) == AUTHENTICATED_FRAME && IvOf(v) == iv && TagOf(v) == tag
  {
    hide Sent16, Swap32, Net16;
    var f := AuthenticationFrame(iv, tag);
    assert v[8..10] == f[8..10] == Sent16(AUTHENTICATED_FRAME);
    Field16(v, 8, AUTHENTICATED_FRAME);
    assert v[10..26] == f[10..26] == iv;
    assert v[26..42] == f[26..42] == tag;
    assert v[42] == f[42];
  }

  lemma CommandReads(v: View, command: bv32)
    requires Carries(v, CommandFrame(command))
    ensures Validate(v) == Valid && TypeOf(v) == COMMAND_FRAME && CommandOf(v) == command
  {
    hide Sent16, Sent32, Swap32, Net16, Net32;
    var f := CommandFrame(command);
    assert v[8..10] == f[8..10] == Sent16(COMMAND_FRAME);
    Field16(v, 8, COMMAND_FRAME);
    assert v[10..14] == f[10..14] == Sent32(command);
    Field32(v, 10, command);
    assert v[14] == f[14];
  }

  lemma BodyParts(n: nat, payload: seq<bv8>)
    requires n < 0x1_0000 && |payload| < 0x1_0000
    ensures
      var b := DataBody(n, payload);
      && |b| == PAYLOAD_POS + |payload|
      && b[8..10] == Sent16(DATA_FRAME) && b[10..12] == Sent16(Word16(n))
      && b[12..14] == Sent16(Word16(|payload|)) && b[14..] == payload
  {
    hide Sent16, Word16;
  }

  lemma CarriedParts(v: View, body: seq<bv8>, check: seq<bv8>, tail: bv8)
    requires |check| == 4 && Carries(v, body + check + [tail])
    ensures
      var end := |body|;
      end + 5 <= VIEW && v[..end] == body && v[end..end + 4] == check && v[end + 4] == tail
  {
    var f := body + check + [tail];
    var end := |body|;
    assert v[..end] == v[..|f|][..end] == f[..end];
    assert v[end..end + 4] == v[..|f|][end..end + 4] == f[end..end + 4];
    assert v[end + 4] == v[..|f|][end + 4];
  }

  lemma FrameParts(v: View, n: nat, payload: seq<bv8>)
    requires n < 0x1_0000 && |payload| < 0x1_0000 && Carries(v, DataFrame(n, payload))
    ensures
      var end := PAYLOAD_POS + |payload|;
      var b := DataBody(n, payload);
      v[..end] == b && v[end..end + 4] == Sent32(Crc32.Crc(b)) && v[end + 4] == TAIL
  {
    hide Sent32, Crc32.Crc, DataBody, Carries;
    BodyParts(n, payload);
    var b := DataBody(n, payload);
    CarriedParts(v, b, Sent32(Crc32.Crc(b)), TAIL);
  }

  lemma DataFields(v: View, n: nat, payload: seq<bv8>)
    requires n < 0x1_0000 && |payload| < 0x1_0000 && Carries(v, DataFrame(n, payload))
    ensures TypeOf(v) == DATA_FRAME && SeqOf(v) == n && LenOf(v) == |payload|
  {
    hide Sent16, Net16, DataBody, Carries;
    var b := DataBody(n, payload);
    FrameParts(v, n, payload);
    BodyParts(n, payload);
    var body := v[..PAYLOAD_POS + |payload|];
    assert v[8..10] == body[8..10];
    Field16(v, 8, DATA_FRAME);
    assert v[10..12] == body[10..12];
    Field16(v, 10, Word16(n));
    assert v[12..14] == body[12..14];
    Field16(v, 12, Word16(|payload|));
  }

  lemma DataPayload(v: View, n: nat, payload: seq<bv8>)
    requires n < 0x1_0000 && |payload| < 0x1_0000 && Carries(v, DataFrame(n, payload)) && LenOf(v) == |payload|
    ensures PayloadOf(v) == payload
  {
    hide DataBody, DataFrame, Carries, LenOf, PayloadOf, Sent16, Sent32, Word16, Crc32.Crc;
    FrameParts(v, n, payload);
    BodyParts(n, payload);
    PayloadIs(v, payload);
  }

  lemma DataCrc(v: View, n: nat, payload: seq<bv8>)
    requires n < 0x1_0000 && |payload| < 0x1_0000 && Carries(v, DataFrame(n, payload))
    ensures
      var end := PAYLOAD_POS + |payload|;
      end + 5 <= VIEW && Net32(v, end) == Crc32.Crc(v[..end]) && v[end + 4] == TAIL
  {
    hide DataBody, DataFrame, Carries, Sent16, Sent32, Net32, Word16, Crc32.Crc;
    var end := PAYLOAD_POS + |payload|;
    FrameParts(v, n, payload);
    BodySize(n, payload);
    CrcField(v, DataBody(n, payload), end);
  }

  lemma BodySize(n: nat, payload: seq<bv8>)
    requires n < 0x1_0000 && |payload| < 0x1_0000
    ensures |DataBody(n, payload)| == PAYLOAD_POS + |payload|
  {
    hide Sent16, Word16;
  }

  lemma CrcField(v: View, body: seq<bv8>, end: nat)
    requires end + 4 <= VIEW && v[..end] == body && v[end..end + 4] == Sent32(Crc32.Crc(body))
    ensures Net32(v, end) == Crc32.Crc(v[..end])
  {
    hide Sent32, Net32, Crc32.Crc;
    Field32(v, end, Crc32.Crc(body));
  }

  // A data frame is read back as the host built it, for every number, payload and content of the memory behind it.
  lemma DataReads(v: View, n: nat, payload: seq<bv8>)
    requires n < 0x1_0000 && |payload| < 0x1_0000 && Carries(v, DataFrame(n, payload))
    ensures Validate(v) == Valid && TypeOf(v) == DATA_FRAME
    ensures SeqOf(v) == n && LenOf(v) == |payload| && PayloadOf(v) == payload
  {
    hide Validate, Net32, Crc32.Crc, DataFrame, Carries, TypeOf, SeqOf, LenOf, PayloadOf;
    DataFields(v, n, payload);
    DataPayload(v, n, payload);
    DataCrc(v, n, payload);
    ValidIfChecked(v);
  }

  lemma PayloadIs(v: View, payload: seq<bv8>)
    requires LenOf(v) == |payload| && v[..PAYLOAD_POS + |payload|][PAYLOAD_POS..] == payload
    ensures PayloadOf(v) == payload
  {
    hide LenOf;
  }

  lemma ValidIfChecked(v: View)
    requires TypeOf(v) == DATA_FRAME
    ensures
      var end := PAYLOAD_POS + LenOf(v);
      Validate(v) == Valid <==> Net32(v, end) == Crc32.Crc(v[..end]) && v[end + 4] == TAIL
  {
    hide Net32, Swap32, TypeOf, LenOf, Crc32.Crc;
    TypesDiffer();
  }

  /* Nothing else is accepted. */

  lemma Sent16Inverse(b0: bv8, b1: bv8)
    ensures Sent16(Swap16(Load16(b0, b1))) == [b0, b1]
  {}

  lemma Sent32Inverse(b0: bv8, b1: bv8, b2: bv8, b3: bv8)
    ensures Sent32(Swap32(Crc32.Load32(b0, b1, b2, b3))) == [b0, b1, b2, b3]
  {}

  function ToNat(w: bv16): nat {
    w as nat
  }

  function FromNat(n: nat): bv16
    requires n < 0x1_0000
  {
    n as bv16
  }

  lemma ThereAndBack(w: bv16)
    ensures ToNat(w) < 0x1_0000 && FromNat(ToNat(w)) == w
  {}

  lemma SameNat(a: bv16, b: bv16)
    requires ToNat(a) == ToNat(b)
    ensures a == b
  {
    hide ToNat, FromNat;
    ThereAndBack(a);
    ThereAndBack(b);
  }

  lemma SameWord16(a: bv16, b: bv16)
    requires a as nat == b as nat
    ensures a == b
  {
    assert ToNat(a) == ToNat(b);
    SameNat(a, b);
  }

  lemma NumberField(v: View, at: nat)
    requires at + 2 <= VIEW
    ensures Net16(v, at) as nat < 0x1_0000 && v[at..at + 2] == Sent16(Word16(Net16(v, at) as nat))
  {
    hide Sent16, Word16, Net16;
    Field16Inverse(v, at);
    SameWord16(Net16(v, at), Word16(Net16(v, at) as nat));
  }

  lemma FiveParts(v: View, end: nat)
    requires PAYLOAD_POS <= end <= VIEW
    ensures v[..end] == v[..8] + v[8..10] + v[10..12] + v[12..14] + v[14..end]
  {}

  lemma Field16Inverse(v: View, at: nat)
    requires at + 2 <= VIEW
    ensures v[at..at + 2] == Sent16(Net16(v, at))
  {
    hide Sent16, Swap16, Load16;
    Sent16Inverse(v[at], v[at + 1]);
  }

  lemma Field32Inverse(v: View, at: nat)
    requires at + 4 <= VIEW
    ensures v[at..at + 4] == Sent32(Net32(v, at))
  {
    hide Sent32, Swap32, Crc32.Load32;
    Sent32Inverse(v[at], v[at + 1], v[at + 2], v[at + 3]);
  }

  predicate CarriesAuthentication(v: View, iv: seq<bv8>, tag: seq<bv8>) {
    |iv| == IV_LEN && |tag| == TAG_LEN && Carries(v, AuthenticationFrame(iv, tag))
  }

  predicate CarriesData(v: View, n: nat, payload: seq<bv8>) {
    n < 0x1_0000 && |payload| < 0x1_0000 && Carries(v, DataFrame(n, payload))
  }

  predicate CarriesCommand(v: View, command: bv32) {
    Carries(v, CommandFrame(command))
  }

  lemma AuthenticationBuilt(v: View)
    requires v[..8] == Header() && Validate(v) == Valid && TypeOf(v) == AUTHENTICATED_FRAME
    ensures CarriesAuthentication(v, IvOf(v), TagOf(v))
  {
    hide Sent16, Net16, Swap32;
    Field16Inverse(v, 8);
    assert v[..43] == v[..8] + v[8..10] + v[10..26] + v[26..42] + [v[42]];
  }

  lemma CommandBuilt(v: View)
    requires v[..8] == Header() && Validate(v) == Valid && TypeOf(v) == COMMAND_FRAME
    ensures CarriesCommand(v, CommandOf(v))
  {
    hide Sent16, Sent32, Net16, Net32, Swap32;
    Field16Inverse(v, 8);
    Field32Inverse(v, 10);
    assert v[..15] == v[..8] + v[8..10] + v[10..14] + [v[14]];
  }

  lemma BodyBuilt(v: View)
    requires v[..8] == Header() && TypeOf(v) == DATA_FRAME
    ensures SeqOf(v) < 0x1_0000 && v[..PAYLOAD_POS + LenOf(v)] == DataBody(SeqOf(v), PayloadOf(v))
  {
    hide Sent16, Net16, Word16, Header;
    Field16Inverse(v, 8);
    NumberField(v, 10);
    NumberField(v, 12);
    FiveParts(v, PAYLOAD_POS + LenOf(v));
  }

  lemma DataBuilt(v: View)
    requires v[..8] == Header() && Validate(v) == Valid && TypeOf(v) == DATA_FRAME
    ensures CarriesData(v, SeqOf(v), PayloadOf(v))
  {
    hide Validate, Sent32, Net32, DataBody, TypeOf, SeqOf, Crc32.Crc;
    BodyBuilt(v);
    var end := PAYLOAD_POS + LenOf(v);
    Field32Inverse(v, end);
    ValidIfChecked(v);
    FrameIs(v, end);
  }

  lemma FrameIs(v: View, end: nat)
    requires end + 5 <= VIEW
    ensures v[..end + 5] == v[..end] + v[end..end + 4] + [v[end + 4]]
  {}

  // Behind the header, the firmware takes exactly the frames a host can build: for every content of the memory a
  // handler can reach, the packet is valid if and only if it begins with one.
  lemma AcceptedExactly(v: View)
    requires v[..8] == Header()
    ensures
      Validate(v) == Valid
      <==> || (exists iv, tag :: CarriesAuthentication(v, iv, tag))
           || (exists n, payload :: CarriesData(v, n, payload))
           || (exists command :: CarriesCommand(v, command))
  {
    hide CarriesAuthentication, CarriesData, CarriesCommand, TypeOf, SeqOf, IvOf, TagOf, PayloadOf, CommandOf;
    if Validate(v) == Valid {
      ValidTypes(v);
      if TypeOf(v) == AUTHENTICATED_FRAME {
        AuthenticationBuilt(v);
      } else if TypeOf(v) == DATA_FRAME {
        DataBuilt(v);
      } else {
        CommandBuilt(v);
      }
    }
    CarriedAccepted(v);
  }

  lemma ValidTypes(v: View)
    requires Validate(v) == Valid
    ensures TypeOf(v) == AUTHENTICATED_FRAME || TypeOf(v) == DATA_FRAME || TypeOf(v) == COMMAND_FRAME
  {
    hide TypeOf, Net32, LenOf, Crc32.Crc, Swap32;
  }

  lemma CarriedAccepted(v: View)
    ensures (exists iv, tag :: CarriesAuthentication(v, iv, tag)) ==> Validate(v) == Valid
    ensures (exists n, payload :: CarriesData(v, n, payload)) ==> Validate(v) == Valid
    ensures (exists command :: CarriesCommand(v, command)) ==> Validate(v) == Valid
  {
    hide Validate, Carries;
    if iv, tag :| CarriesAuthentication(v, iv, tag) {
      AuthenticationReads(v, iv, tag);
    }
    if n, payload :| CarriesData(v, n, payload) {
      DataReads(v, n, payload);
    }
    if command :| CarriesCommand(v, command) {
      CommandReads(v, command);
    }
  }
}
