/**
 What an accepted data frame is worth on a flash that may fail at any moment: because every write is read back, the
 frames a session has accepted are in the bank mapped high, whatever commands or reads failed on the way, and the CRC
 the firmware reports is the CRC of those frames.
 */
module UpgradeIntegrity {
  import opened NorFlash
  import opened Numbers
  import opened Frame
  import opened Gcm
  import Clock
  import opened Upgrade
  import opened Protocol
  import opened Installation
  import FlashService
  import UpgradeSafety
  import Crc32

  /* How far down a write can reach. */

  // In both banks the cells below `at` are as they were, and the mapping has not moved.
  ghost predicate KeptBelow(dev: Device, dev': Device, at: nat)
    requires dev.Valid() && dev'.Valid() && at <= BANK
  {
    && dev'.bank0.cells[..at] == dev.bank0.cells[..at]
    && dev'.bank1.cells[..at] == dev.bank1.cells[..at]
    && dev'.gpnvm == dev.gpnvm
  }

  lemma KeptLower(dev: Device, dev': Device, at: nat, less: nat)
    requires dev.Valid() && dev'.Valid() && less <= at <= BANK && KeptBelow(dev, dev', at)
    ensures KeptBelow(dev, dev', less)
  {
    assert dev.bank0.cells[..less] == dev.bank0.cells[..at][..less];
    assert dev'.bank0.cells[..less] == dev'.bank0.cells[..at][..less];
    assert dev.bank1.cells[..less] == dev.bank1.cells[..at][..less];
    assert dev'.bank1.cells[..less] == dev'.bank1.cells[..at][..less];
  }

  lemma OverwriteAbove(cells: seq<bv8>, at: nat, bytes: seq<bv8>)
    requires at + |bytes| <= |cells|
    ensures Overwrite(cells, at, bytes)[..at] == cells[..at]
  {}

  lemma ProgramKeepsBelow(dev: Device, efc: Efc, page: nat, erase: bool)
    requires dev.Valid() && page < PAGES
    ensures KeptBelow(dev, ProgramPage(dev, efc, page, erase).dev, page * PAGE)
  {
    hide Overwrite, And, Residue;
    var bank := dev.Of(efc);
    var at := page * PAGE;
    match dev.Next()
    case Done =>
      OverwriteAbove(bank.cells, at, if erase then bank.latch else And(bank.cells[at..at + PAGE], bank.latch));
    case Failed(_, residue) => OverwriteAbove(bank.cells, at, Residue(residue, PAGE));
  }

  lemma WriteOneKeepsBelow(dev: Device, efc: Efc, page: nat, offset: nat, bytes: seq<bv8>, erase: bool)
    requires dev.Valid() && page < PAGES && offset + |bytes| <= PAGE
    ensures KeptBelow(dev, FlashService.WriteOne(dev, efc, page, offset, bytes, erase).dev, page * PAGE)
  {
    hide Read, ProgramPage;
    var l := FlashService.ComputeAddress(dev, efc, page, 0);
    var buffer := Read(l.dev, l.address, 0, offset) + bytes
                + Read(l.dev, l.address, offset + |bytes|, PAGE - offset - |bytes|);
    ProgramKeepsBelow(Latch(l.dev, l.address, buffer), efc, page, erase);
  }

  lemma {:induction false} WritePagesKeepsBelow(
    dev: Device, efc: Efc, page: nat, offset: nat, data: seq<bv8>, erase: bool)
    requires dev.Valid() && offset < PAGE && page * PAGE + offset + |data| <= BANK
    ensures KeptBelow(dev, FlashService.WritePages(dev, efc, page, offset, data, erase).dev, page * PAGE)
    decreases |data|
  {
    hide FlashService.WriteOne;
    if data != [] {
      var size := Min(PAGE - offset, |data|);
      var r := FlashService.WriteOne(dev, efc, page, offset, data[..size], erase);
      WriteOneKeepsBelow(dev, efc, page, offset, data[..size], erase);
      if r.rc == 0 && size < |data| {
        WritePagesKeepsBelow(r.dev, efc, page + 1, 0, data[size..], erase);
        KeptLower(r.dev, FlashService.WritePages(r.dev, efc, page + 1, 0, data[size..], erase).dev,
                  (page + 1) * PAGE, page * PAGE);
      }
    }
  }

  lemma WriteKeepsBelow(dev: Device, page: nat, bytes: seq<bv8>)
    requires dev.Valid() && page < PAGES && |bytes| == PAGE
    ensures KeptBelow(dev, FlashService.Write(dev, HIGH_BASE + page * PAGE, bytes, false).dev, page * PAGE)
  {
    hide FlashService.WritePages;
    var t := FlashService.Translate(dev, HIGH_BASE + page * PAGE);
    WritePagesKeepsBelow(FlashService.SetWaitStates(t.dev, t.efc, 6), t.efc, t.page, t.offset, bytes, false);
  }

  lemma EraseKeepsBelow(dev: Device, page: nat)
    requires dev.Valid() && page < PAGES && page % PAGES_TO_ERASE == 0
    ensures
      var e := FlashService.ErasePage(dev, HIGH_BASE + page * PAGE, FlashService.ERASE_PAGES_8);
      KeptBelow(dev, e.dev, page * PAGE)
  {
    hide FlashService.OrCode, EraseStart, EraseCount, Overwrite, Residue, Ones;
    FlashService.EightPages(page);
    var t := FlashService.Translate(dev, HIGH_BASE + page * PAGE);
    var cells := t.dev.Of(t.efc).cells;
    var size := EraseCount(FlashService.OrCode(page, 1)) * PAGE;
    match t.dev.Next()
    case Done => OverwriteAbove(cells, page * PAGE, Ones(size));
    case Failed(_, residue) => OverwriteAbove(cells, page * PAGE, Residue(residue, size));
  }

  lemma PageWriteKeepsBelow(dev: Device, page: nat, bytes: seq<bv8>)
    requires dev.Valid() && page < PAGES && |bytes| == PAGE
    ensures KeptBelow(dev, PageWrite(dev, HIGH_BASE + page * PAGE, bytes).dev, page * PAGE)
  {
    hide FlashService.ErasePage, FlashService.Write;
    if page % PAGES_TO_ERASE == 0 {
      EraseKeepsBelow(dev, page);
      var e := FlashService.ErasePage(dev, HIGH_BASE + page * PAGE, FlashService.ERASE_PAGES_8);
      WriteKeepsBelow(e.dev, page, bytes);
    } else {
      WriteKeepsBelow(dev, page, bytes);
    }
  }

  lemma {:induction false} DataWriteKeepsBelow(dev: Device, page: nat, buffer: seq<bv8>, left: int)
    requires dev.Valid() && page * PAGE + |buffer| <= BANK && |buffer| % PAGE == 0 && left <= |buffer|
    ensures KeptBelow(dev, DataWrite(dev, HIGH_BASE + page * PAGE, buffer, left).dev, page * PAGE)
    decreases left
  {
    hide PageWrite;
    if left > 0 {
      var w := PageWrite(dev, HIGH_BASE + page * PAGE, buffer[..PAGE]);
      PageWriteKeepsBelow(dev, page, buffer[..PAGE]);
      if w.rc == SUCCESS {
        assert HIGH_BASE + page * PAGE + PAGE == HIGH_BASE + (page + 1) * PAGE;
        var rest := DataWrite(w.dev, HIGH_BASE + (page + 1) * PAGE, buffer[PAGE..], left - PAGE);
        DataWriteKeepsBelow(w.dev, page + 1, buffer[PAGE..], left - PAGE);
        KeptLower(w.dev, rest.dev, (page + 1) * PAGE, page * PAGE);
      }
    }
  }

  /* What a session has accepted. */

  // A frame in its place in a bank.
  predicate At(cells: seq<bv8>, k: nat, text: seq<bv8>) {
    var at := k * MAX_PLAINTEXT_LEN;
    at + |text| <= |cells| && cells[at..at + |text|] == text
  }

  predicate Holds(dev: Device, k: nat, text: seq<bv8>) {
    At(dev.Cells(true), k, text)
  }

  ghost predicate Stored(node: Node, texts: seq<seq<bv8>>)
    requires node.dev.Valid()
  {
    node.session.authenticated ==>
      && Frames(texts) && |texts| == node.session.number + 1 <= MAX_SEQ_NUM + 1
      && node.session.fileLen == Total(texts)
      && forall k :: 0 <= k < |texts| ==> Holds(node.dev, k, texts[k])
  }

  lemma SliceKept(cells: seq<bv8>, cells': seq<bv8>, end: nat, at: nat, n: nat)
    requires at + n <= end <= |cells| && end <= |cells'| && cells'[..end] == cells[..end]
    ensures cells'[at..at + n] == cells[at..at + n]
  {
    assert cells[at..at + n] == cells[..end][at..at + n];
    assert cells'[at..at + n] == cells'[..end][at..at + n];
  }

  lemma KeptHolds(dev: Device, dev': Device, n: nat, k: nat, text: seq<bv8>)
    requires dev.Valid() && dev'.Valid() && k < n <= MAX_SEQ_NUM && |text| <= MAX_PLAINTEXT_LEN
    requires KeptBelow(dev, dev', n * MAX_PLAINTEXT_LEN) && Holds(dev, k, text)
    ensures Holds(dev', k, text)
  {
    var at := k * MAX_PLAINTEXT_LEN;
    var end := n * MAX_PLAINTEXT_LEN;
    assert at + |text| <= end;
    var efc := dev.Mapped(true);
    assert dev'.Mapped(true) == efc;
    SliceKept(dev.Of(efc).cells, dev'.Of(efc).cells, end, at, |text|);
  }

  lemma StoreFrameStores(node: Node, texts: seq<seq<bv8>>, text: seq<bv8>, ack: bv32)
    requires node.dev.Valid() && node.session.authenticated && Stored(node, texts)
    requires |texts| <= MAX_SEQ_NUM && 1 <= |text| <= MAX_PLAINTEXT_LEN
    ensures
      var a := StoreFrame(node, |texts|, text, ack);
      Stored(a.node, if a.rc == SUCCESS then texts + [text] else texts)
  {
    hide DataWrite, Padded, KeptBelow, Holds, Total, Intact, Frames;
    var n := |texts|;
    var address := n * MAX_PLAINTEXT_LEN + HIGH_BASE;
    var w := DataWrite(node.dev, address, Padded(text), |text|);
    DataWriteKeepsBelow(node.dev, 2 * n, Padded(text), |text|);
    ImageExtends(texts, text);
    if w.rc == SUCCESS && Intact(w.dev, address, text) {
      IntactHolds(w.dev, n, text);
      AllHold(node.dev, w.dev, texts);
    }
  }

  lemma AllHold(dev: Device, dev': Device, texts: seq<seq<bv8>>)
    requires dev.Valid() && dev'.Valid() && Frames(texts) && |texts| <= MAX_SEQ_NUM
    requires KeptBelow(dev, dev', |texts| * MAX_PLAINTEXT_LEN)
    requires forall k :: 0 <= k < |texts| ==> Holds(dev, k, texts[k])
    ensures forall k :: 0 <= k < |texts| ==> Holds(dev', k, texts[k])
  {
    hide KeptBelow, Holds;
    forall k | 0 <= k < |texts|
      ensures Holds(dev', k, texts[k])
    {
      KeptHolds(dev, dev', |texts|, k, texts[k]);
    }
  }

  lemma IntactHolds(dev: Device, n: nat, text: seq<bv8>)
    requires dev.Valid() && n <= MAX_SEQ_NUM && |text| <= MAX_PLAINTEXT_LEN
    requires Intact(dev, n * MAX_PLAINTEXT_LEN + HIGH_BASE, text)
    ensures Holds(dev, n, text)
  {}

  // The frames accepted since the session began, decrypted.
  function Taken(cipher: Cipher, texts: seq<seq<bv8>>, node: Node, e: Event): seq<seq<bv8>>
    requires Ready(node)
  {
    match e
    case Packet(v, gcmOk, time) =>
      if Handle(cipher, node, v, gcmOk, Clock.Tick(time)).rc != SUCCESS then texts
      else if TypeOf(v) == AUTHENTICATED_FRAME then []
      else if TypeOf(v) == DATA_FRAME then texts + [Crypt(cipher, node.session.iv, PayloadOf(v))]
      else texts
    case _ => texts
  }

  function TakenIn(cipher: Cipher, dev: Device, events: seq<Event>): seq<seq<bv8>>
    requires dev.Valid()
    decreases |events|
  {
    if events == [] then []
    else
      var before := events[..|events| - 1];
      Taken(cipher, TakenIn(cipher, dev, before), Run(cipher, Boot(dev), before), events[|events| - 1])
  }

  lemma DataStores(cipher: Cipher, node: Node, texts: seq<seq<bv8>>, v: View, gcmOk: bool)
    requires node.dev.Valid() && node.session.authenticated && Stored(node, texts)
    ensures
      var a := HandleData(cipher, node, v, gcmOk);
      Stored(a.node, if a.rc == SUCCESS then texts + [Crypt(cipher, node.session.iv, PayloadOf(v))] else texts)
  {
    hide StoreFrame, SeqOf, LenOf, PayloadOf, Crypt, Swap32, DataAck, Holds, At, Total;
    if SeqOf(v) == |texts| <= MAX_SEQ_NUM && 1 <= LenOf(v) <= MAX_PLAINTEXT_LEN && gcmOk {
      StoreFrameStores(node, texts, Crypt(cipher, node.session.iv, PayloadOf(v)), DataAck(v));
    }
  }

  lemma CommandStores(node: Node, v: View, now: nat)
    requires node.dev.Valid()
    ensures
      var a := HandleCommand(node, v, now);
      a.node.session == node.session && a.node.dev == node.dev
  {
    hide CommandOf, ImageCrc, Swap32;
  }

  lemma PacketStores(cipher: Cipher, node: Node, texts: seq<seq<bv8>>, v: View, gcmOk: bool, time: nat)
    requires Ready(node) && Stored(node, texts)
    ensures Stored(Handle(cipher, node, v, gcmOk, Clock.Tick(time)).node,
                   Taken(cipher, texts, node, Packet(v, gcmOk, time)))
  {
    hide Validate, TypeOf, IvOf, TagOf, HandleData, HandleCommand, Holds, Total, Frames, Swap32, PayloadOf, Crypt;
    NoFrames();
    TypesDiffer();
    if node.session.authenticated {
      DataStores(cipher, node, texts, v, gcmOk);
      CommandStores(node, v, Clock.Tick(time));
    }
  }

  lemma StepStores(cipher: Cipher, node: Node, texts: seq<seq<bv8>>, e: Event)
    requires Ready(node) && Stored(node, texts)
    ensures Stored(Step(cipher, node, e), Taken(cipher, texts, node, e))
  {
    hide Handle, Holds, Total, Frames, CodeSwitching, TypeOf, PayloadOf, Crypt;
    if e.Packet? {
      PacketStores(cipher, node, texts, e.view, e.gcmOk, e.time);
    }
  }

  lemma NoFrames()
    ensures Frames([]) && Total([]) == 0
  {}

  // In every run on every device, with commands and reads failing at will: while a session lasts, each frame it has
  // answered with success is in the bank mapped high, byte for byte, at 1024 times its number.
  lemma {:induction false} RunStores(cipher: Cipher, dev: Device, events: seq<Event>)
    requires dev.Valid()
    ensures Stored(Run(cipher, Boot(dev), events), TakenIn(cipher, dev, events))
    decreases |events|
  {
    hide Step, Taken, Stored;
    if events == [] {
      BootStored(dev);
    } else {
      var before := events[..|events| - 1];
      RunStores(cipher, dev, before);
      StepStores(cipher, Run(cipher, Boot(dev), before), TakenIn(cipher, dev, before), events[|events| - 1]);
    }
  }

  lemma BootStored(dev: Device)
    requires dev.Valid()
    ensures Stored(Boot(dev), [])
  {}

  /* The CRC that is reported. */

  lemma {:induction false} HeldConcat(dev: Device, texts: seq<seq<bv8>>)
    requires dev.Valid() && Frames(texts) && Full(texts) && |texts| <= MAX_SEQ_NUM + 1
    requires forall k :: 0 <= k < |texts| ==> Holds(dev, k, texts[k])
    ensures dev.Cells(true)[..MAX_PLAINTEXT_LEN * |texts|] == Concat(texts)
    decreases |texts|
  {
    if texts != [] {
      var n := |texts| - 1;
      HeldConcat(dev, texts[..n]);
      assert Holds(dev, n, texts[n]);
      var cells := dev.Cells(true);
      var at := MAX_PLAINTEXT_LEN * n;
      assert cells[..MAX_PLAINTEXT_LEN * |texts|] == cells[..at] + cells[at..at + MAX_PLAINTEXT_LEN];
    }
  }

  lemma HeldFile(dev: Device, texts: seq<seq<bv8>>)
    requires dev.Valid() && Frames(texts) && FullButLast(texts) && texts != [] && |texts| <= MAX_SEQ_NUM + 1
    requires forall k :: 0 <= k < |texts| ==> Holds(dev, k, texts[k])
    ensures Total(texts) <= BANK && dev.Cells(true)[..Total(texts)] == Concat(texts)
  {
    hide Full, FullButLast, Frames, Concat, Total, Holds;
    var n := |texts| - 1;
    var front := texts[..n];
    AllFull(texts);
    FullFrames(front);
    assert forall k :: 0 <= k < n ==> front[k] == texts[k];
    HeldConcat(dev, front);
    LastAdds(texts);
    HeldSlice(dev, n, texts[n]);
    assert Total(texts) == MAX_PLAINTEXT_LEN * n + |texts[n]|;
  }

  lemma LastAdds(texts: seq<seq<bv8>>)
    requires Frames(texts) && texts != []
    ensures
      var n := |texts| - 1;
      Concat(texts) == Concat(texts[..n]) + texts[n] && Total(texts) == Total(texts[..n]) + |texts[n]|
  {}

  lemma HeldSlice(dev: Device, n: nat, text: seq<bv8>)
    requires dev.Valid() && Holds(dev, n, text)
    ensures
      var at := MAX_PLAINTEXT_LEN * n;
      at + |text| <= BANK && dev.Cells(true)[..at + |text|] == dev.Cells(true)[..at] + text
  {
    var cells := dev.Cells(true);
    var at := MAX_PLAINTEXT_LEN * n;
    assert cells[..at + |text|] == cells[..at] + cells[at..at + |text|];
  }

  // In every such run a GET_CRC handled in a session is answered with the CRC of the frames the session has accepted,
  // if all but the last were full and they do not fill the bank.
  lemma CrcIsOfAccepted(cipher: Cipher, dev: Device, events: seq<Event>, v: View, gcmOk: bool, time: nat)
    requires dev.Valid() && Run(cipher, Boot(dev), events).session.authenticated
    requires Validate(v) == Valid && TypeOf(v) == COMMAND_FRAME && CommandOf(v) == GET_CRC
    requires FullButLast(TakenIn(cipher, dev, events)) && 0 < |Concat(TakenIn(cipher, dev, events))| < BANK
    ensures ReplyTo(cipher, Run(cipher, Boot(dev), events), Packet(v, gcmOk, time))
         == [Sent(SUCCESS, Swap32(Crc32.Crc(Concat(TakenIn(cipher, dev, events)))))]
  {
    hide Validate, TypeOf, CommandOf, Swap32, Crc32.Crc, Holds, At, Full, FullButLast, TakenIn, Run;
    var texts := TakenIn(cipher, dev, events);
    var node := Run(cipher, Boot(dev), events);
    RunStores(cipher, dev, events);
    ImageOfFullFrames(texts);
    HeldFile(node.dev, texts);
    CommandsDiffer();
    TypesDiffer();
  }

  // And when the switch fires in a session and GPNVM2 does flip, what runs after the reset is what the session has
  // accepted, frame by frame, whatever failed before.
  lemma SwitchRunsAccepted(cipher: Cipher, dev: Device, events: seq<Event>, time: nat)
    requires dev.Valid() && Run(cipher, Boot(dev), events).session.authenticated
    requires UpgradeSafety.FiresAt(Run(cipher, Boot(dev), events), Clocked(time))
    ensures
      var before := Run(cipher, Boot(dev), events).dev;
      var after := Step(cipher, Run(cipher, Boot(dev), events), Clocked(time)).dev;
      var texts := TakenIn(cipher, dev, events);
      after.Swapped() != before.Swapped() ==>
        forall k :: 0 <= k < |texts| ==> At(after.Cells(false), k, texts[k])
  {
    hide Run, TakenIn, UpgradeSafety.FiresAt, Step, Total, At;
    RunStores(cipher, dev, events);
    UpgradeSafety.FiringSwaps(cipher, Run(cipher, Boot(dev), events), Clocked(time));
  }
}
