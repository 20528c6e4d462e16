/**
 The firmware behaves as the protocol machine: with a flash whose commands and reads work, every run of packets,
 polls and resets keeps the two in step, image for image and reply for reply.
 */
module UpgradeRefinement {
  import opened NorFlash
  import opened Frame
  import opened Gcm
  import opened Clock
  import opened Upgrade
  import opened Protocol
  import FlashService
  import Crc32

  /* Storing one frame. */

  lemma AndErased(cells: seq<bv8>, at: nat, bytes: seq<bv8>)
    requires at + |bytes| <= |cells| && Erased(cells, at, at + |bytes|)
    ensures FlashService.Patched(cells, at, bytes, false) == Overwrite(cells, at, bytes)
  {
    assert cells[at..at + |bytes|] == Ones(|bytes|);
    AndOnes(bytes);
  }

  // The bank when a page is about to be programmed: eight pages have been erased if it is the first of them.
  function Cleared(cells: seq<bv8>, page: nat): (s: seq<bv8>)
    requires |cells| == BANK && page < PAGES
    ensures |s| == BANK
  {
    if page % 8 == 0 then Overwrite(cells, page * PAGE, Ones(8 * PAGE)) else cells
  }

  // One round of data_write, on a page that is erased or about to be.
  lemma PageWriteExact(dev: Device, page: nat, bytes: seq<bv8>)
    requires dev.Valid() && dev.Works() && page < PAGES && |bytes| == PAGE
    ensures
      var r := PageWrite(dev, HIGH_BASE + page * PAGE, bytes);
      && r.rc == SUCCESS
      && FlashService.Changed(dev, r.dev, dev.Mapped(true),
                              FlashService.Patched(Cleared(dev.Cells(true), page), page * PAGE, bytes, false))
  {
    hide FlashService.Patched, FlashService.Write, FlashService.ErasePage, Overwrite, Ones;
    var address := HIGH_BASE + page * PAGE;
    if page % 8 == 0 {
      FlashService.EraseExact(dev, address, FlashService.ERASE_PAGES_8);
      var e := FlashService.ErasePage(dev, address, FlashService.ERASE_PAGES_8);
      FlashService.WriteExact(e.dev, address, bytes, false);
    } else {
      FlashService.WriteExact(dev, address, bytes, false);
    }
  }

  // Both pages of frame n, when the place of the frame is erased already.
  lemma TwoPages(cells: seq<bv8>, at: nat, buffer: seq<bv8>)
    requires |buffer| == MAX_PLAINTEXT_LEN && at + MAX_PLAINTEXT_LEN <= |cells|
    requires Erased(cells, at, at + MAX_PLAINTEXT_LEN)
    ensures
      var first := Overwrite(cells, at, buffer[..PAGE]);
      && Erased(first, at + PAGE, at + MAX_PLAINTEXT_LEN)
      && Overwrite(first, at + PAGE, buffer[PAGE..]) == Overwrite(cells, at, buffer)
      && (buffer[PAGE..] == Ones(PAGE) ==> first == Overwrite(cells, at, buffer))
  {
    OverwriteTwice(cells, at, buffer[..PAGE], buffer[PAGE..]);
    assert buffer == buffer[..PAGE] + buffer[PAGE..];
    var first := Overwrite(cells, at, buffer[..PAGE]);
    if buffer[PAGE..] == Ones(PAGE) {
      assert Overwrite(first, at + PAGE, buffer[PAGE..]) == first;
    }
  }

  lemma FirstPage(dev: Device, n: nat, buffer: seq<bv8>)
    requires dev.Valid() && dev.Works() && n <= MAX_SEQ_NUM && |buffer| == MAX_PLAINTEXT_LEN
    requires Erased(dev.Cells(true), n * MAX_PLAINTEXT_LEN, BlockEnd(n))
    ensures
      var at := n * MAX_PLAINTEXT_LEN;
      var r := PageWrite(dev, HIGH_BASE + at, buffer[..PAGE]);
      && r.rc == SUCCESS
      && FlashService.Changed(dev, r.dev, dev.Mapped(true), Overwrite(Opened(dev.Cells(true), n), at, buffer[..PAGE]))
  {
    hide FlashService.Patched, Overwrite, Ones, PageWrite, BlockEnd, Erased;
    var at := n * MAX_PLAINTEXT_LEN;
    OpenedErased(dev.Cells(true), n);
    ErasedPart(Opened(dev.Cells(true), n), at, BlockEnd(n + 1), at + PAGE);
    AndErased(Opened(dev.Cells(true), n), at, buffer[..PAGE]);
    PageWriteExact(dev, 2 * n, buffer[..PAGE]);
  }

  lemma SecondPage(dev: Device, n: nat, buffer: seq<bv8>, cells: seq<bv8>)
    requires dev.Valid() && dev.Works() && n <= MAX_SEQ_NUM && |buffer| == MAX_PLAINTEXT_LEN
    requires |cells| == BANK && Erased(cells, n * MAX_PLAINTEXT_LEN, BlockEnd(n))
    requires dev.Cells(true) == Overwrite(Opened(cells, n), n * MAX_PLAINTEXT_LEN, buffer[..PAGE])
    ensures
      var at := n * MAX_PLAINTEXT_LEN;
      var r := PageWrite(dev, HIGH_BASE + at + PAGE, buffer[PAGE..]);
      && r.rc == SUCCESS
      && FlashService.Changed(dev, r.dev, dev.Mapped(true), Overwrite(Opened(cells, n), at, buffer))
  {
    hide FlashService.Patched, Overwrite, Ones, PageWrite, BlockEnd, Erased;
    var at := n * MAX_PLAINTEXT_LEN;
    OpenedErased(cells, n);
    ErasedPart(Opened(cells, n), at, BlockEnd(n + 1), at + MAX_PLAINTEXT_LEN);
    TwoPages(Opened(cells, n), at, buffer);
    AndErased(dev.Cells(true), at + PAGE, buffer[PAGE..]);
    PageWriteExact(dev, 2 * n + 1, buffer[PAGE..]);
  }

  lemma DataWriteUnrolls(dev: Device, address: nat, buffer: seq<bv8>, left: nat)
    requires dev.Valid() && HIGH_BASE <= address && address + MAX_PLAINTEXT_LEN <= HIGH_BASE + BANK
    requires |buffer| == MAX_PLAINTEXT_LEN && 1 <= left <= MAX_PLAINTEXT_LEN
    ensures
      var first := PageWrite(dev, address, buffer[..PAGE]);
      DataWrite(dev, address, buffer, left)
      == if first.rc != SUCCESS || left <= PAGE then first
         else PageWrite(first.dev, address + PAGE, buffer[PAGE..])
  {
    hide PageWrite;
    var first := PageWrite(dev, address, buffer[..PAGE]);
    assert buffer[PAGE..][..PAGE] == buffer[PAGE..];
    if first.rc == SUCCESS && left > PAGE {
      var second := PageWrite(first.dev, address + PAGE, buffer[PAGE..]);
      assert DataWrite(first.dev, address + PAGE, buffer[PAGE..], left - PAGE)
          == if second.rc != SUCCESS then second
             else DataWrite(second.dev, address + PAGE + PAGE, buffer[PAGE..][PAGE..], left - PAGE - PAGE);
    }
  }

  // data_write puts the padded frame in its place and leaves the rest of the bank as the protocol says.
  lemma DataWriteExact(dev: Device, n: nat, text: seq<bv8>)
    requires dev.Valid() && dev.Works() && n <= MAX_SEQ_NUM && 1 <= |text| <= MAX_PLAINTEXT_LEN
    requires Erased(dev.Cells(true), n * MAX_PLAINTEXT_LEN, BlockEnd(n))
    ensures
      var r := DataWrite(dev, n * MAX_PLAINTEXT_LEN + HIGH_BASE, Padded(text), |text|);
      && r.rc == SUCCESS
      && FlashService.Changed(dev, r.dev, dev.Mapped(true), Place(dev.Cells(true), n, text))
  {
    hide Overwrite, Opened, PageWrite, BlockEnd, Erased, Padded, DataWrite;
    var buffer := Padded(text);
    var cells := dev.Cells(true);
    var at := n * MAX_PLAINTEXT_LEN;
    DataWriteUnrolls(dev, HIGH_BASE + at, buffer, |text|);
    FirstPage(dev, n, buffer);
    var first := PageWrite(dev, HIGH_BASE + at, buffer[..PAGE]);
    if |text| > PAGE {
      SecondPage(first.dev, n, buffer, cells);
    } else {
      PaddedTail(text);
      OpenedErased(cells, n);
      ErasedPart(Opened(cells, n), at, BlockEnd(n + 1), at + MAX_PLAINTEXT_LEN);
      TwoPages(Opened(cells, n), at, buffer);
    }
  }

  lemma ErasedPart(cells: seq<bv8>, from: nat, to: nat, less: nat)
    requires Erased(cells, from, to) && less <= to
    ensures Erased(cells, from, less)
  {}

  lemma PaddedTail(text: seq<bv8>)
    requires |text| <= PAGE
    ensures Padded(text)[PAGE..] == Ones(PAGE)
  {}

  /* The relation. */

  predicate SameSession(session: Session, staging: Staging)
    requires staging.Staging? ==> Frames(staging.frames)
  {
    match staging
    case Idle => !session.authenticated && session.number == -1 && session.fileLen == 0
    case Staging(iv, frames) =>
      session.authenticated && session.iv == iv && session.number + 1 == |frames| && session.fileLen == Total(frames)
  }

  predicate SameTimer(timer: Timer, pending: Switch) {
    && timer.last < WRAP
    && match pending
       case Unarmed => !timer.armed
       case Armed(since, polled) =>
         && timer.armed && since <= polled && Marks(timer.last, polled)
         && timer.count == Counted(since, polled) <= SWITCHING_INTERVAL
  }

  ghost predicate SameDevice(dev: Device, m: Model) {
    dev.Valid() && dev.Works() && dev.Cells(false) == m.low && dev.Cells(true) == m.high
  }

  ghost predicate Related(node: Node, m: Model) {
    && WellFormed(m)
    && SameDevice(node.dev, m)
    && SameSession(node.session, m.staging)
    && SameTimer(node.timer, m.pending)
  }

  ghost predicate SameAnswer(a: Answer, r: Reaction) {
    a.rc == r.rc && a.ack == r.ack && Related(a.node, r.model)
  }

  lemma StoreRefines(node: Node, m: Model, text: seq<bv8>, ack: bv32)
    requires Related(node, m) && m.staging.Staging? && |m.staging.frames| <= MAX_SEQ_NUM
    requires 1 <= |text| <= MAX_PLAINTEXT_LEN
    requires WellFormed(Placed(m, text))
    ensures SameAnswer(StoreFrame(node, |m.staging.frames|, text, ack), Reaction(Placed(m, text), SUCCESS, ack))
  {
    hide DataWrite, Padded, Place, Image, Erased, BlockEnd, Overwrite;
    var n := |m.staging.frames|;
    DataWriteExact(node.dev, n, text);
    ImageExtends(m.staging.frames, text);
    var w := DataWrite(node.dev, n * MAX_PLAINTEXT_LEN + HIGH_BASE, Padded(text), |text|);
    PlacedIntact(m.high, n, text);
    assert Intact(w.dev, n * MAX_PLAINTEXT_LEN + HIGH_BASE, text);
  }

  function Placed(m: Model, text: seq<bv8>): Model
    requires WellFormed(m) && m.staging.Staging? && |m.staging.frames| <= MAX_SEQ_NUM
    requires 1 <= |text| <= MAX_PLAINTEXT_LEN
  {
    m.(staging := m.staging.(frames := m.staging.frames + [text]), high := Place(m.high, |m.staging.frames|, text))
  }

  // What check_integrity reads back.
  lemma PlacedIntact(cells: seq<bv8>, n: nat, text: seq<bv8>)
    requires |cells| == BANK && n <= MAX_SEQ_NUM && |text| <= MAX_PLAINTEXT_LEN
    ensures Place(cells, n, text)[n * MAX_PLAINTEXT_LEN..n * MAX_PLAINTEXT_LEN + |text|] == text
  {
    hide Opened;
  }

  lemma DataRefines(cipher: Cipher, node: Node, m: Model, v: View, gcmOk: bool)
    requires Related(node, m) && m.staging.Staging?
    ensures SameAnswer(HandleData(cipher, node, v, gcmOk), Accept(cipher, m, v, gcmOk))
  {
    hide StoreFrame, Place, Crypt, SeqOf, LenOf, PayloadOf, SameTimer, DataAck, Swap32;
    AcceptWellFormed(cipher, m, v, gcmOk);
    if SeqOf(v) == |m.staging.frames| && SeqOf(v) <= MAX_SEQ_NUM && 1 <= LenOf(v) <= MAX_PLAINTEXT_LEN && gcmOk {
      StoreRefines(node, m, Crypt(cipher, m.staging.iv, PayloadOf(v)), DataAck(v));
    }
  }

  lemma ImageRead(node: Node, m: Model)
    requires Related(node, m) && m.staging.Staging? && Total(m.staging.frames) < BANK
    ensures Read(node.dev, HIGH_BASE, 0, node.session.fileLen) == Image(m.staging.frames)[..Total(m.staging.frames)]
  {
    hide Image, Erased, SameTimer;
    var frames := m.staging.frames;
    assert m.high[..Total(frames)] == m.high[..MAX_PLAINTEXT_LEN * |frames|][..Total(frames)];
  }

  lemma CommandRefines(node: Node, m: Model, v: View, time: nat)
    requires Related(node, m) && m.staging.Staging?
    ensures SameAnswer(HandleCommand(node, v, Tick(time)), Obey(m, v, time))
  {
    hide CommandOf, Image, Crc32.Crc, Swap32, Read, Erased, Total;
    if Total(m.staging.frames) < BANK {
      ImageRead(node, m);
    }
  }

  lemma PacketRefines(cipher: Cipher, node: Node, m: Model, v: View, gcmOk: bool, time: nat)
    requires Related(node, m)
    ensures SameAnswer(Handle(cipher, node, v, gcmOk, Tick(time)), React(cipher, m, v, gcmOk, time))
  {
    hide Validate, TypeOf, HandleData, HandleCommand, Accept, Obey, IvOf, TagOf, SameTimer, Swap32;
    if m.staging.Staging? {
      DataRefines(cipher, node, m, v, gcmOk);
      CommandRefines(node, m, v, time);
    }
    EmptyImage();
  }

  // While polls come less than 2^31 ms apart the switch fires at a poll exactly when the counter has seen more than
  // three seconds since the latest EXEC: real time, less one millisecond for each time it wrapped.
  lemma FiresExactly(timer: Timer, m: Model, time: nat)
    requires SameTimer(timer, m.pending) && Timely(m, Clocked(time))
    ensures Fires(timer, Tick(time)) <==> (m.pending.Armed? && Counted(m.pending.since, time) > SWITCHING_INTERVAL)
  {
    hide Counted, Marks, Elapsed;
    if m.pending.Armed? {
      MarkedElapsed(timer.last, m.pending.polled, time);
      CountedAdds(m.pending.since, m.pending.polled, time);
      CountedAtMost(m.pending.polled, time);
    }
  }

  lemma PollTimer(node: Node, m: Model, time: nat)
    requires SameTimer(node.timer, m.pending) && Timely(m, Clocked(time)) && !Fires(node.timer, Tick(time))
    ensures SameTimer(Poll(node, Tick(time)).timer, Wait(m, time).pending)
  {
    hide Counted, Marks, Elapsed, Fires;
    FiresExactly(node.timer, m, time);
    if m.pending.Armed? {
      MarkedElapsed(node.timer.last, m.pending.polled, time);
      CountedAdds(m.pending.since, m.pending.polled, time);
      CountedAtMost(m.pending.polled, time);
      TickMarks(time);
    }
  }

  lemma PollRefines(node: Node, m: Model, time: nat)
    requires Related(node, m) && Timely(m, Clocked(time))
    ensures Related(Poll(node, Tick(time)), Wait(m, time))
  {
    hide Erased, BlockEnd, Image, Total, CodeSwitching, Counted, Marks, Elapsed, Fires;
    FiresExactly(node.timer, m, time);
    SwitchFlips(node.dev);
    if !Fires(node.timer, Tick(time)) {
      PollTimer(node, m, time);
    }
  }

  lemma StepRefines(cipher: Cipher, node: Node, m: Model, e: Event)
    requires Related(node, m) && Timely(m, e)
    ensures Related(Step(cipher, node, e), Next(cipher, m, e))
    ensures ReplyTo(cipher, node, e) == AnswerTo(cipher, m, e)
  {
    hide Handle, React, Poll, Wait, Erased, Image, Total, BlockEnd;
    match e
    case Packet(v, gcmOk, time) => PacketRefines(cipher, node, m, v, gcmOk, time);
    case Clocked(time) => PollRefines(node, m, time);
    case Reset =>
  }

  // Every timely run of the firmware ends in the state, and sends the replies, that the protocol machine gives.
  lemma {:induction false} RunRefines(cipher: Cipher, node: Node, m: Model, events: seq<Event>)
    requires Related(node, m) && TimelyRun(cipher, m, events)
    ensures Related(Run(cipher, node, events), Course(cipher, m, events))
    ensures Replies(cipher, node, events) == Answers(cipher, m, events)
    decreases |events|
  {
    hide SameSession, Step, Next, Timely, ReplyTo, AnswerTo, Erased, Image, Total, BlockEnd;
    if events != [] {
      var before := events[..|events| - 1];
      RunRefines(cipher, node, m, before);
      StepRefines(cipher, Run(cipher, node, before), Course(cipher, m, before), events[|events| - 1]);
    }
  }

  // The machine that holds the two images of a device, fresh from reset.
  function MachineOf(dev: Device): (m: Model)
    requires dev.Valid()
    ensures WellFormed(m)
  {
    Model(dev.Cells(false), dev.Cells(true), Idle, Unarmed)
  }

  lemma BootRelated(dev: Device)
    requires dev.Valid() && dev.Works()
    ensures Related(Boot(dev), MachineOf(dev))
  {}

  // So from every reset on a working flash, whatever the two images are and whichever is running, the firmware does as
  // the machine does.
  lemma BootRefines(cipher: Cipher, dev: Device, events: seq<Event>)
    requires dev.Valid() && dev.Works()
    requires TimelyRun(cipher, MachineOf(dev), events)
    ensures
      var end := Course(cipher, MachineOf(dev), events);
      var after := Run(cipher, Boot(dev), events);
      && after.dev.Cells(false) == end.low && after.dev.Cells(true) == end.high
      && Replies(cipher, Boot(dev), events) == Answers(cipher, MachineOf(dev), events)
  {
    hide WellFormed, Course, TimelyRun, Run, Replies, Answers, SameSession, SameTimer;
    BootRelated(dev);
    RunRefines(cipher, Boot(dev), MachineOf(dev), events);
  }
}
