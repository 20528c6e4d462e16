/**
 What the host is told, on every device and whatever fails: which word answers which packet, that the acknowledgement
 of a data frame is given for accepted frames alone, and when a refusal ends the session. The words, the frames and the
 times are spelled out here, byte by byte.
 */
module UpgradeReplies {
  import opened NorFlash
  import opened Frame
  import opened Gcm
  import opened Clock
  import opened Upgrade
  import FlashService
  import UpgradeIntegrity
  import UpgradeMisread
  import UpgradeRefinement
  import UpgradeSafety
  import Crc32

  /* Words. */

  // The word a host reads when the firmware sends `ack`.
  function Word(ack: bv32): bv32 {
    Swap32(ack)
  }

  lemma WordOf(status: bv32)
    ensures Word(Swap32(status)) == status
  {
    hide Swap32;
    SwapTwice(status);
  }

  lemma SwapInjective(a: bv32, b: bv32)
    requires Swap32(a) == Swap32(b)
    ensures a == b
  {}

  // Handling a data frame in a session.
  function DataWord(node: Node, v: View, gcmOk: bool): bv32 {
    if SeqOf(v) > 1023 || node.session.number + 1 != SeqOf(v) then 0xFFFF_0004
    else if LenOf(v) > 1024 || LenOf(v) == 0 then 0xFFFF_0005
    else if !gcmOk then 0xFFFF_0007
    else 0xFFFF_0008
  }

  // The word a refused packet is answered with.
  function RefusalWord(node: Node, v: View, gcmOk: bool): bv32 {
    if Validate(v) != Valid then
      if TypeOf(v) == 0x0801 && v[18 + LenOf(v)] == 0x5D then 0xFFFF_0006 else 0xFFFF_0002
    else if TypeOf(v) == 0x0800 || !node.session.authenticated then 0xFFFF_0001
    else if TypeOf(v) == 0x0801 then DataWord(node, v, gcmOk)
    else 0xFFFF_0003
  }

  lemma ValidKinds(v: View)
    requires Validate(v) == Valid
    ensures TypeOf(v) == 0x0800 || TypeOf(v) == 0x0801 || TypeOf(v) == 0x0802
  {
    hide TypeOf, LenOf, Net32, Swap32, Crc32.Crc;
  }

  lemma DataRefused(cipher: Cipher, node: Node, v: View, gcmOk: bool)
    requires node.dev.Valid()
    ensures
      var a := HandleData(cipher, node, v, gcmOk);
      if a.rc == SUCCESS then a.ack == DataAck(v) else a.ack == Swap32(DataWord(node, v, gcmOk))
  {
    hide SeqOf, LenOf, PayloadOf, Swap32, Crypt, DataAck, DataWrite, Intact, Padded;
  }

  lemma CommandRefused(node: Node, v: View, now: nat)
    requires node.dev.Valid()
    ensures
      var a := HandleCommand(node, v, now);
      && (a.rc == SUCCESS <==> CommandOf(v) in {0x55AA_0400, 0x55AA_0401, 0x55AA_0402})
      && (a.rc != SUCCESS ==> a.ack == Swap32(0xFFFF_0003))
      && (CommandOf(v) == 0x55AA_0400 ==> a.ack == Swap32(0x0001_0000))
      && (CommandOf(v) == 0x55AA_0402 ==> a.ack == Swap32(0xFFFF_0000))
  {
    hide CommandOf, Swap32, ImageCrc;
  }

  // Every packet that is refused, in every state of every device, is answered with the word of its fault.
  lemma RefusedWithWord(cipher: Cipher, node: Node, v: View, gcmOk: bool, now: nat)
    requires node.dev.Valid()
    ensures
      var a := Handle(cipher, node, v, gcmOk, now);
      a.rc != SUCCESS ==> a.ack == Swap32(RefusalWord(node, v, gcmOk))
  {
    hide Validate, TypeOf, LenOf, SeqOf, CommandOf, IvOf, TagOf, Swap32, HandleData, HandleCommand, DataWord;
    if Validate(v) != Valid {
      RefusedWord(v);
    } else {
      ValidKinds(v);
      TypesDiffer();
      DataRefused(cipher, node, v, gcmOk);
      CommandRefused(node, v, now);
    }
  }

  // And every one that is accepted with its own: the end of authentication and EXEC with the same word, a data frame
  // with its length and number.
  lemma AcceptedWithWord(cipher: Cipher, node: Node, v: View, gcmOk: bool, now: nat)
    requires node.dev.Valid()
    ensures
      var a := Handle(cipher, node, v, gcmOk, now);
      a.rc == SUCCESS ==>
        && Validate(v) == Valid
        && (TypeOf(v) == 0x0800 ==> a.ack == Swap32(0xFFFF_0000))
        && (TypeOf(v) == 0x0801 ==> a.ack == DataAck(v))
        && (TypeOf(v) == 0x0802 && CommandOf(v) == 0x55AA_0400 ==> a.ack == Swap32(0x0001_0000))
        && (TypeOf(v) == 0x0802 && CommandOf(v) == 0x55AA_0402 ==> a.ack == Swap32(0xFFFF_0000))
  {
    hide Validate, TypeOf, LenOf, SeqOf, CommandOf, IvOf, TagOf, Swap32, DataAck, HandleData, HandleCommand, DataWord;
    TypesDiffer();
    DataRefused(cipher, node, v, gcmOk);
    CommandRefused(node, v, now);
  }

  lemma RefusalWords(node: Node, v: View, gcmOk: bool)
    ensures 0xFFFF_0001 <= RefusalWord(node, v, gcmOk) <= 0xFFFF_0008
    ensures RefusalWord(node, v, gcmOk) & 0xFFFF_0000 == 0xFFFF_0000
  {
    hide Validate, TypeOf, LenOf, SeqOf;
  }

  // No refused packet gets an acknowledgement that belongs to any data frame of acceptable length, or the word of
  // success.
  lemma RefusalIsNoAck(cipher: Cipher, node: Node, v: View, gcmOk: bool, now: nat, frame: View)
    requires node.dev.Valid() && Handle(cipher, node, v, gcmOk, now).rc != SUCCESS && LenOf(frame) <= 1024
    ensures AckFrame(Handle(cipher, node, v, gcmOk, now).ack) != AckFrame(DataAck(frame))
    ensures AckFrame(Handle(cipher, node, v, gcmOk, now).ack) != AckFrame(Swap32(0xFFFF_0000))
  {
    hide Handle, RefusalWord, AckFrame, DataAck, LenOf, Swap32, Crc32.Load32;
    var ack := Handle(cipher, node, v, gcmOk, now).ack;
    var word := RefusalWord(node, v, gcmOk);
    RefusedWithWord(cipher, node, v, gcmOk, now);
    RefusalWords(node, v, gcmOk);
    AckIsNoStatus(frame, word);
    if AckFrame(ack) == AckFrame(Swap32(0xFFFF_0000)) {
      AckBytes(ack);
      AckBytes(Swap32(0xFFFF_0000));
      SwapInjective(word, 0xFFFF_0000);
    }
  }

  lemma DataAckIsNoWord(v: View, word: bv32)
    requires LenOf(v) <= 1024 && word & 0xFFFF_0000 == 0xFFFF_0000
    ensures DataAck(v) != Swap32(word)
  {
    hide AckFrame, DataAck, LenOf, Swap32;
    AckIsNoStatus(v, word);
  }

  // On every device, whatever fails: a data frame of acceptable length is answered with its acknowledgement exactly if
  // it was accepted.
  lemma AcknowledgedExactly(cipher: Cipher, node: Node, v: View, gcmOk: bool, now: nat)
    requires node.dev.Valid() && TypeOf(v) == 0x0801 && LenOf(v) <= 1024
    ensures
      var a := Handle(cipher, node, v, gcmOk, now);
      a.ack == DataAck(v) <==> a.rc == SUCCESS
  {
    hide Handle, RefusalWord, DataAck, TypeOf, LenOf, Swap32;
    AcceptedWithWord(cipher, node, v, gcmOk, now);
    RefusedWithWord(cipher, node, v, gcmOk, now);
    RefusalWords(node, v, gcmOk);
    DataAckIsNoWord(v, RefusalWord(node, v, gcmOk));
  }

  /* What a frame takes to be accepted. */

  function Dropped(outcomes: seq<Outcome>, k: nat): seq<Outcome> {
    if k <= |outcomes| then outcomes[k..] else []
  }

  // Flash commands for one page: an erase before every eighth.
  function PageCommands(page: nat): nat {
    if page % 8 == 0 then 2 else 1
  }

  function FrameCommands(n: nat, len: nat): nat {
    PageCommands(2 * n) + if len > 512 then 1 else 0
  }

  lemma FirstDoneSplits(outcomes: seq<Outcome>, j: nat, k: nat)
    ensures FlashService.FirstDone(outcomes, j + k)
       <==> FlashService.FirstDone(outcomes, j) && FlashService.FirstDone(Dropped(outcomes, j), k)
    ensures Dropped(Dropped(outcomes, j), k) == Dropped(outcomes, j + k)
  {
    var rest := Dropped(outcomes, j);
    assert forall i :: 0 <= i < |rest| ==> rest[i] == outcomes[j + i];
    if FlashService.FirstDone(outcomes, j) && FlashService.FirstDone(rest, k) {
      forall i | 0 <= i < j + k && i < |outcomes|
        ensures outcomes[i].Done?
      {
        assert i >= j ==> outcomes[i] == rest[i - j];
      }
    }
  }

  lemma OneDone(dev: Device)
    ensures FlashService.FirstDone(dev.outcomes, 1) <==> dev.Next().Done?
    ensures dev.Consumed().outcomes == Dropped(dev.outcomes, 1)
  {}

  lemma EraseOutcome(dev: Device, page: nat)
    requires dev.Valid() && page < PAGES
    ensures
      var e := FlashService.ErasePage(dev, HIGH_BASE + page * PAGE, FlashService.ERASE_PAGES_8);
      && (e.rc == SUCCESS <==> FlashService.FirstDone(dev.outcomes, 1))
      && e.dev.outcomes == Dropped(dev.outcomes, 1)
  {
    hide Overwrite, Residue, Ones, FlashService.OrCode, EraseStart, EraseCount, FlashService.FirstDone, Dropped;
    var t := FlashService.Translate(dev, HIGH_BASE + page * PAGE);
    OneDone(t.dev);
  }

  lemma WriteOutcome(dev: Device, page: nat, bytes: seq<bv8>)
    requires dev.Valid() && page < PAGES && |bytes| == PAGE
    ensures
      var w := FlashService.Write(dev, HIGH_BASE + page * PAGE, bytes, false);
      && (w.rc == SUCCESS <==> FlashService.FirstDone(dev.outcomes, 1))
      && (w.rc == SUCCESS ==> w.dev.outcomes == Dropped(dev.outcomes, 1))
  {
    hide FlashService.WritePages, FlashService.WriteOne, FlashService.FirstDone, Dropped;
    var t := FlashService.Translate(dev, HIGH_BASE + page * PAGE);
    var d := FlashService.SetWaitStates(t.dev, t.efc, 6);
    FlashService.WriteOneOutcome(d, t.efc, t.page, 0, bytes, false);
    OneDone(d);
    OnePageOutcome(d, t.efc, t.page, bytes);
  }

  lemma OnePageOutcome(dev: Device, efc: Efc, page: nat, bytes: seq<bv8>)
    requires dev.Valid() && page < PAGES && |bytes| == PAGE
    ensures FlashService.WritePages(dev, efc, page, 0, bytes, false)
         == (var w := FlashService.WriteOne(dev, efc, page, 0, bytes, false);
             if w.rc == SUCCESS then Reply(w.dev, SUCCESS) else w)
  {
    hide FlashService.WriteOne;
    assert bytes[..PAGE] == bytes && bytes[PAGE..] == [];
  }

  lemma PageOutcome(dev: Device, page: nat, bytes: seq<bv8>)
    requires dev.Valid() && page < PAGES && |bytes| == PAGE
    ensures
      var w := PageWrite(dev, HIGH_BASE + page * PAGE, bytes);
      && (w.rc == SUCCESS <==> FlashService.FirstDone(dev.outcomes, PageCommands(page)))
      && (w.rc == SUCCESS ==> w.dev.outcomes == Dropped(dev.outcomes, PageCommands(page)))
  {
    hide FlashService.ErasePage, FlashService.Write, FlashService.FirstDone, Dropped;
    if page % PAGES_TO_ERASE == 0 {
      EraseOutcome(dev, page);
      var e := FlashService.ErasePage(dev, HIGH_BASE + page * PAGE, FlashService.ERASE_PAGES_8);
      WriteOutcome(e.dev, page, bytes);
      FirstDoneSplits(dev.outcomes, 1, 1);
    } else {
      WriteOutcome(dev, page, bytes);
    }
  }

  lemma FrameOutcome(dev: Device, n: nat, text: seq<bv8>)
    requires dev.Valid() && n <= MAX_SEQ_NUM && 1 <= |text| <= MAX_PLAINTEXT_LEN
    ensures DataWrite(dev, n * MAX_PLAINTEXT_LEN + HIGH_BASE, Padded(text), |text|).rc == SUCCESS
       <==> FlashService.FirstDone(dev.outcomes, FrameCommands(n, |text|))
  {
    hide PageWrite, DataWrite, Padded, FlashService.FirstDone, Dropped, PageCommands;
    var buffer := Padded(text);
    var address := HIGH_BASE + 2 * n * PAGE;
    UpgradeRefinement.DataWriteUnrolls(dev, address, buffer, |text|);
    PageOutcome(dev, 2 * n, buffer[..PAGE]);
    if |text| > PAGE {
      PageOutcome(PageWrite(dev, address, buffer[..PAGE]).dev, 2 * n + 1, buffer[PAGE..]);
      FirstDoneSplits(dev.outcomes, PageCommands(2 * n), 1);
      OddPage(n);
    }
  }

  lemma OddPage(n: nat)
    ensures PageCommands(2 * n + 1) == 1
  {}

  // On every device a packet is accepted exactly in these cases: an authentication whose tag the cipher confirms; in a
  // session, the next data frame, of acceptable length, that the cipher decrypts, whose flash commands all succeed and
  // that reads back from the spare bank as it was decrypted; in a session, one of the three commands.
  lemma AcceptedExactly(cipher: Cipher, node: Node, v: View, gcmOk: bool, now: nat)
    requires node.dev.Valid()
    ensures
      var a := Handle(cipher, node, v, gcmOk, now);
      var text := Crypt(cipher, node.session.iv, PayloadOf(v));
      a.rc == SUCCESS
      <==> && Validate(v) == Valid
           && if TypeOf(v) == 0x0800 then gcmOk && cipher.tag(IvOf(v)) == TagOf(v)
              else if TypeOf(v) == 0x0801 then
                && UpgradeMisread.IsStored(node, v, gcmOk)
                && FlashService.FirstDone(node.dev.outcomes, FrameCommands(SeqOf(v), LenOf(v)))
                && UpgradeIntegrity.At(a.node.dev.Cells(true), SeqOf(v), text)
              else node.session.authenticated && CommandOf(v) in {0x55AA_0400, 0x55AA_0401, 0x55AA_0402}
  {
    hide Validate, TypeOf, LenOf, SeqOf, PayloadOf, CommandOf, IvOf, TagOf, Swap32, HandleCommand, StoreFrame, Crypt;
    hide FrameCommands, FlashService.FirstDone, UpgradeIntegrity.At, DataAck, ImageCrc;
    if Validate(v) == Valid {
      ValidKinds(v);
      TypesDiffer();
      CommandRefused(node, v, now);
      if TypeOf(v) == 0x0801 && UpgradeMisread.IsStored(node, v, gcmOk) {
        StoredExactly(cipher, node, v, gcmOk, now);
      }
    }
  }

  lemma StoredExactly(cipher: Cipher, node: Node, v: View, gcmOk: bool, now: nat)
    requires node.dev.Valid() && UpgradeMisread.IsStored(node, v, gcmOk)
    ensures
      var a := Handle(cipher, node, v, gcmOk, now);
      var text := Crypt(cipher, node.session.iv, PayloadOf(v));
      && (a.rc == SUCCESS
          <==> && FlashService.FirstDone(node.dev.outcomes, FrameCommands(SeqOf(v), LenOf(v)))
               && UpgradeIntegrity.At(a.node.dev.Cells(true), SeqOf(v), text))
      && (a.rc != SUCCESS ==> UpgradeSafety.AtRest(a.node.session))
  {
    hide Handle, UpgradeMisread.IsStored, Validate, TypeOf, LenOf, SeqOf, Swap32, Crypt, DataWrite, Padded;
    hide FrameCommands, FlashService.FirstDone, DataAck;
    UpgradeMisread.IsStoredWrites(cipher, node, v, gcmOk, now);
    UpgradeMisread.StoredSize(node, v, gcmOk);
    FrameOutcome(node.dev, SeqOf(v), Crypt(cipher, node.session.iv, PayloadOf(v)));
  }

  // A packet ends the session it comes into exactly if it is a valid authentication that fails, a valid data frame with
  // a number the protocol knows but not the next one, or a frame that could not be stored. Any other refusal leaves the
  // session as it is.
  lemma SessionEndsExactly(cipher: Cipher, node: Node, v: View, gcmOk: bool, now: nat)
    requires node.dev.Valid() && node.session.authenticated
    ensures
      var a := Handle(cipher, node, v, gcmOk, now);
      && (!a.node.session.authenticated
          <==> && a.rc != SUCCESS && Validate(v) == Valid
               && (|| TypeOf(v) == 0x0800
                   || (TypeOf(v) == 0x0801 && SeqOf(v) <= 1023 && SeqOf(v) != node.session.number + 1)
                   || UpgradeMisread.IsStored(node, v, gcmOk)))
      && (a.rc != SUCCESS && a.node.session.authenticated ==> a.node.session == node.session)
  {
    hide Validate, TypeOf, LenOf, SeqOf, PayloadOf, CommandOf, IvOf, TagOf, Swap32, HandleCommand, StoreFrame, Crypt;
    hide DataAck, ImageCrc;
    if Validate(v) == Valid {
      ValidKinds(v);
      TypesDiffer();
      UpgradeIntegrity.CommandStores(node, v, now);
      if TypeOf(v) == 0x0801 && UpgradeMisread.IsStored(node, v, gcmOk) {
        StoredExactly(cipher, node, v, gcmOk, now);
        StoredSession(cipher, node, v, gcmOk, now);
      }
    }
  }

  lemma StoredSession(cipher: Cipher, node: Node, v: View, gcmOk: bool, now: nat)
    requires node.dev.Valid() && UpgradeMisread.IsStored(node, v, gcmOk)
    ensures
      var a := Handle(cipher, node, v, gcmOk, now);
      a.rc == SUCCESS ==> a.node.session.authenticated
  {
    hide Handle, Validate, TypeOf, LenOf, SeqOf, Swap32, Crypt, DataWrite, Padded, DataAck, Intact;
    UpgradeMisread.IsStoredWrites(cipher, node, v, gcmOk, now);
    UpgradeMisread.StoredSize(node, v, gcmOk);
  }

  /* Known answers. */

  // A device after a reset.
  lemma AfterReset(dev: Device)
    ensures Boot(dev) == Node(
      Session(false, -1, 0, [0xCA, 0xFE, 0xBA, 0xBE, 0xFA, 0xCE, 0xDB, 0xAD,
                             0xDE, 0xCA, 0xF8, 0x88, 0x33, 0xD4, 0x82, 0xFE]),
      Timer(false, 0, 0), dev)
  {}

  // The reply that carries these four bytes.
  function Reply15(b0: bv8, b1: bv8, b2: bv8, b3: bv8): seq<bv8> {
    [0x5B, 0x55, 0x50, 0x47, 0x52, 0x41, 0x44, 0x45, 0x08, 0x03, b0, b1, b2, b3, 0x5D]
  }

  lemma FrameOf(ack: bv32)
    ensures AckFrame(ack) == Reply15(Stored32(ack)[0], Stored32(ack)[1], Stored32(ack)[2], Stored32(ack)[3])
  {
    hide Swap16, Stored16, Stored32;
    AckKind();
  }

  lemma StatusFrames()
    ensures Stored32(Swap32(0xFFFF_0000)) == [0xFF, 0xFF, 0x00, 0x00]
    ensures Stored32(Swap32(0xFFFF_0001)) == [0xFF, 0xFF, 0x00, 0x01]
    ensures Stored32(Swap32(0x0001_0000)) == [0x00, 0x01, 0x00, 0x00]
    ensures Stored32(Swap32(0)) == [0x00, 0x00, 0x00, 0x00]
  {}

  // A data frame that is accepted is answered with its own length and number fields, as they came.
  lemma DataByTheByte(v: View)
    ensures AckFrame(DataAck(v)) == Reply15(v[12], v[13], v[10], v[11])
  {
    hide Stored32, Load16;
    FrameOf(DataAck(v));
    DataAckBytes(v[10], v[11], v[12], v[13]);
  }

  lemma CommandFields(v: View, last: bv8)
    requires v[8..15] == [0x08, 0x02, 0x55, 0xAA, 0x04, last, 0x5D] && last <= 0x0F
    ensures Validate(v) == Valid && TypeOf(v) == 0x0802
    ensures last == 0x00 ==> CommandOf(v) == 0x55AA_0400
    ensures last == 0x01 ==> CommandOf(v) == 0x55AA_0401
    ensures last == 0x02 ==> CommandOf(v) == 0x55AA_0402
  {
    hide Swap16, Swap32, Load16, Crc32.Load32, Crc32.Crc, LenOf;
    var f := v[8..15];
    assert v[8] == f[0] && v[9] == f[1] && v[10] == f[2] && v[11] == f[3] && v[12] == f[4] && v[13] == f[5];
    assert v[14] == f[6];
    CommandNumbers();
  }

  lemma CommandNumbers()
    ensures Swap16(Load16(0x08, 0x02)) == 0x0802
    ensures Swap32(Crc32.Load32(0x55, 0xAA, 0x04, 0x00)) == 0x55AA_0400
    ensures Swap32(Crc32.Load32(0x55, 0xAA, 0x04, 0x01)) == 0x55AA_0401
    ensures Swap32(Crc32.Load32(0x55, 0xAA, 0x04, 0x02)) == 0x55AA_0402
  {}

  lemma FiresAfterThreeSeconds(time: nat)
    requires time % WRAP + 3001 < WRAP
    ensures !Fires(Timer(true, 0, Tick(time)), Tick(time + 3000))
    ensures Fires(Timer(true, 0, Tick(time)), Tick(time + 3001))
  {
    Later(time, 3000);
    Later(time, 3001);
  }

  lemma Later(time: nat, d: nat)
    requires time % WRAP + d < WRAP
    ensures Tick(time + d) == Tick(time) + d
  {
    assert time == WRAP * (time / WRAP) + time % WRAP;
  }

  // EXEC, byte by byte: the answer, and the poll at which the switch fires; outside a session neither.
  lemma ExecByTheByte(cipher: Cipher, node: Node, v: View, gcmOk: bool, time: nat)
    requires Ready(node) && v[8..15] == [0x08, 0x02, 0x55, 0xAA, 0x04, 0x02, 0x5D]
    requires time % WRAP + 3001 < WRAP
    ensures
      var a := Handle(cipher, node, v, gcmOk, Tick(time));
      if node.session.authenticated then
        && AckFrame(a.ack) == Reply15(0xFF, 0xFF, 0x00, 0x00)
        && !Fires(a.node.timer, Tick(time + 3000)) && Fires(a.node.timer, Tick(time + 3001))
      else AckFrame(a.ack) == Reply15(0xFF, 0xFF, 0x00, 0x01) && a.node.timer == node.timer
  {
    hide Validate, TypeOf, CommandOf, Swap32, Stored32, AckFrame, HandleData, IvOf, TagOf, Fires, Tick, Reply15;
    CommandFields(v, 0x02);
    TypesDiffer();
    FiresAfterThreeSeconds(time);
    StatusFrames();
    FrameOf(Swap32(0xFFFF_0000));
    FrameOf(Swap32(0xFFFF_0001));
  }

  // GET_VERSION, and GET_CRC before any frame.
  lemma QueriesByTheByte(cipher: Cipher, node: Node, v: View, gcmOk: bool, now: nat)
    requires node.dev.Valid() && node.session.authenticated
    ensures v[8..15] == [0x08, 0x02, 0x55, 0xAA, 0x04, 0x00, 0x5D]
        ==> AckFrame(Handle(cipher, node, v, gcmOk, now).ack) == Reply15(0x00, 0x01, 0x00, 0x00)
    ensures v[8..15] == [0x08, 0x02, 0x55, 0xAA, 0x04, 0x01, 0x5D] && node.session.fileLen == 0
        ==> AckFrame(Handle(cipher, node, v, gcmOk, now).ack) == Reply15(0x00, 0x00, 0x00, 0x00)
  {
    hide Validate, TypeOf, CommandOf, Swap32, Stored32, AckFrame, HandleData, IvOf, TagOf;
    TypesDiffer();
    StatusFrames();
    FrameOf(Swap32(0x0001_0000));
    FrameOf(Swap32(0));
    if v[8..15] == [0x08, 0x02, 0x55, 0xAA, 0x04, 0x00, 0x5D] {
      CommandFields(v, 0x00);
    }
    if v[8..15] == [0x08, 0x02, 0x55, 0xAA, 0x04, 0x01, 0x5D] {
      CommandFields(v, 0x01);
    }
  }

  // Authentication, byte by byte.
  lemma AuthenticationByTheByte(cipher: Cipher, node: Node, v: View, gcmOk: bool, now: nat)
    requires node.dev.Valid() && v[8..10] == [0x08, 0x00] && v[42] == 0x5D
    ensures
      var a := Handle(cipher, node, v, gcmOk, now);
      if gcmOk && cipher.tag(v[10..26]) == v[26..42] then
        AckFrame(a.ack) == Reply15(0xFF, 0xFF, 0x00, 0x00) && a.node.session == Session(true, -1, 0, v[10..26])
      else AckFrame(a.ack) == Reply15(0xFF, 0xFF, 0x00, 0x01) && a.node.session == Session(false, -1, 0, v[10..26])
  {
    hide Swap16, Swap32, Load16, Stored32, AckFrame, Crc32.Crc, LenOf, HandleData;
    AuthenticationNumber();
    assert v[8] == v[8..10][0] && v[9] == v[8..10][1];
    StatusFrames();
    FrameOf(Swap32(0xFFFF_0000));
    FrameOf(Swap32(0xFFFF_0001));
  }

  lemma AuthenticationNumber()
    ensures Swap16(Load16(0x08, 0x00)) == 0x0800
  {}
}
