/**
 What holds of the upgrade session on every device, whatever fails: the session variables stay consistent, a
 packet that is turned away changes nothing or ends the session, and the image that is running is not written to.
 */
module UpgradeSafety {
  import opened NorFlash
  import opened Frame
  import opened Gcm
  import opened Clock
  import opened Upgrade
  import FlashService

  /* The session variables. */

  predicate Consistent(session: Session) {
    if session.authenticated then
      && 0 <= session.number + 1 <= MAX_SEQ_NUM + 1
      && session.number + 1 <= session.fileLen <= MAX_PLAINTEXT_LEN * (session.number + 1)
    else session.number == -1 && session.fileLen == 0
  }

  predicate AtRest(session: Session) {
    !session.authenticated && session.number == -1 && session.fileLen == 0
  }

  // How the session may move when a packet is handled: stay, be reset, begin with a vector whose tag matched, or
  // take in the next frame.
  ghost predicate Moves(cipher: Cipher, v: View, before: Session, rc: nat, after: Session) {
    || after == before
    || (rc != SUCCESS && AtRest(after))
    || (&& rc == SUCCESS && TypeOf(v) == AUTHENTICATED_FRAME && cipher.tag(IvOf(v)) == TagOf(v)
        && after == Session(true, -1, 0, IvOf(v)))
    || (&& rc == SUCCESS && TypeOf(v) == DATA_FRAME && before.authenticated
        && SeqOf(v) == before.number + 1 <= MAX_SEQ_NUM && 1 <= LenOf(v) <= MAX_PLAINTEXT_LEN
        && after == before.(number := SeqOf(v), fileLen := (before.fileLen + LenOf(v)) % WRAP))
  }

  lemma HandleMoves(cipher: Cipher, node: Node, v: View, gcmOk: bool, now: nat)
    requires node.dev.Valid()
    ensures
      var a := Handle(cipher, node, v, gcmOk, now);
      && Moves(cipher, v, node.session, a.rc, a.node.session)
      && (a.rc != SUCCESS ==> a.node.session == node.session || AtRest(a.node.session))
  {
    hide Validate, TypeOf, IvOf, TagOf, SeqOf, LenOf, PayloadOf, Crypt, CommandOf, Swap32, DataWrite, Intact, Padded;
  }

  // Reached states: the session began with an authentication whose tag matched, and `frames` counts what it took in.
  datatype History = History(granted: bool, iv: seq<bv8>, frames: nat)

  function Recorded(cipher: Cipher, h: History, node: Node, e: Event): History
    requires Ready(node)
  {
    match e
    case Packet(v, gcmOk, time) =>
      var a := Handle(cipher, node, v, gcmOk, Tick(time));
      if a.rc != SUCCESS then h
      else if TypeOf(v) == AUTHENTICATED_FRAME then History(cipher.tag(IvOf(v)) == TagOf(v), IvOf(v), 0)
      else if TypeOf(v) == DATA_FRAME then h.(frames := h.frames + 1)
      else h
    case _ => h
  }

  function Recording(cipher: Cipher, dev: Device, events: seq<Event>): History
    requires dev.Valid()
    decreases |events|
  {
    if events == [] then History(false, [], 0)
    else
      var before := events[..|events| - 1];
      Recorded(cipher, Recording(cipher, dev, before), Run(cipher, Boot(dev), before), events[|events| - 1])
  }

  ghost predicate Accounted(session: Session, h: History) {
    && Consistent(session)
    && (session.authenticated ==> h.granted && session.iv == h.iv && session.number + 1 == h.frames)
  }

  lemma StepAccounted(cipher: Cipher, node: Node, h: History, e: Event)
    requires Ready(node) && Accounted(node.session, h)
    ensures Accounted(Step(cipher, node, e).session, Recorded(cipher, h, node, e))
  {
    hide Handle, TypeOf, IvOf, TagOf, SeqOf, LenOf, CodeSwitching;
    if e.Packet? {
      HandleMoves(cipher, node, e.view, e.gcmOk, Tick(e.time));
      TypesDiffer();
      if TypeOf(e.view) == AUTHENTICATED_FRAME {
        AuthenticationAnswer(cipher, node, e.view, e.gcmOk, Tick(e.time));
      } else if TypeOf(e.view) == DATA_FRAME {
        DataAnswer(cipher, node, e.view, e.gcmOk, Tick(e.time));
      }
    }
  }

  lemma AuthenticationAnswer(cipher: Cipher, node: Node, v: View, gcmOk: bool, now: nat)
    requires node.dev.Valid() && TypeOf(v) == AUTHENTICATED_FRAME
    ensures
      var a := Handle(cipher, node, v, gcmOk, now);
      a.rc == SUCCESS ==> cipher.tag(IvOf(v)) == TagOf(v) && a.node.session == Session(true, -1, 0, IvOf(v))
  {
    hide TypeOf, IvOf, TagOf, Swap32;
  }

  lemma DataAnswer(cipher: Cipher, node: Node, v: View, gcmOk: bool, now: nat)
    requires node.dev.Valid() && TypeOf(v) == DATA_FRAME
    ensures
      var a := Handle(cipher, node, v, gcmOk, now);
      a.rc == SUCCESS ==> node.session.authenticated && a.node.session.number == node.session.number + 1
  {
    hide TypeOf, SeqOf, LenOf, PayloadOf, Crypt, Swap32, DataWrite, Intact, Padded, DataAck;
  }

  // In every reachable state, on any device: without a session the counters are at rest; with one, its vector is that
  // of an authentication whose tag matched, the sequence number counts the frames accepted since, and file_len lies
  // between one and 1024 bytes per frame, so below the size of a bank.
  lemma {:induction false} SessionInvariant(cipher: Cipher, dev: Device, events: seq<Event>)
    requires dev.Valid()
    ensures Accounted(Run(cipher, Boot(dev), events).session, Recording(cipher, dev, events))
    decreases |events|
  {
    hide Step, Recorded, Accounted;
    if events == [] {
      BootAccounted(dev);
    } else {
      var before := events[..|events| - 1];
      SessionInvariant(cipher, dev, before);
      StepAccounted(cipher, Run(cipher, Boot(dev), before), Recording(cipher, dev, before), events[|events| - 1]);
    }
  }

  lemma BootAccounted(dev: Device)
    ensures Accounted(Boot(dev).session, History(false, [], 0))
  {}

  /* The running image. */

  // The condition under which translate_address cannot take the bank mapped low for the other one.
  predicate Trusted(dev: Device) {
    !dev.Swapped() || dev.ReadsWork()
  }

  ghost predicate LowKept(dev: Device, dev': Device) {
    && dev'.gpnvm == dev.gpnvm
    && (dev.ReadsWork() ==> dev'.ReadsWork())
    && (Trusted(dev) ==> dev'.Cells(false) == dev.Cells(false))
  }

  lemma PageWriteKeepsLow(dev: Device, address: nat, bytes: seq<bv8>)
    requires dev.Valid() && HIGH_BASE <= address && |bytes| == PAGE && address + PAGE <= HIGH_BASE + BANK
    ensures LowKept(dev, PageWrite(dev, address, bytes).dev)
  {
    hide FlashService.ErasePage, FlashService.Write, FlashService.Translate;
    FlashService.TranslateHits(dev, address);
    FlashService.EraseContained(dev, address, FlashService.ERASE_PAGES_8);
    var e := FlashService.ErasePage(dev, address, FlashService.ERASE_PAGES_8).dev;
    FlashService.TranslateHits(e, address);
    FlashService.WriteContained(e, address, bytes, false);
    FlashService.WriteContained(dev, address, bytes, false);
  }

  lemma {:induction false} DataWriteKeepsLow(dev: Device, address: nat, buffer: seq<bv8>, left: int)
    requires dev.Valid() && HIGH_BASE <= address && address + |buffer| <= HIGH_BASE + BANK
    requires |buffer| % PAGE == 0 && left <= |buffer|
    ensures LowKept(dev, DataWrite(dev, address, buffer, left).dev)
    decreases left
  {
    hide PageWrite;
    if left > 0 {
      PageWriteKeepsLow(dev, address, buffer[..PAGE]);
      var w := PageWrite(dev, address, buffer[..PAGE]);
      if w.rc == SUCCESS {
        DataWriteKeepsLow(w.dev, address + PAGE, buffer[PAGE..], left - PAGE);
      }
    }
  }

  // No packet moves the mapping, whatever fails while it is handled; nor, if the device can be trusted to read
  // GPNVM2, does one change a byte of the image mapped low.
  lemma PacketKeepsLow(cipher: Cipher, node: Node, v: View, gcmOk: bool, now: nat)
    requires node.dev.Valid()
    ensures LowKept(node.dev, Handle(cipher, node, v, gcmOk, now).node.dev)
  {
    hide Validate, TypeOf, SeqOf, LenOf, PayloadOf, CommandOf, Crypt, Swap32, DataWrite, Intact, Padded, DataAck;
    hide IvOf, TagOf;
    if SeqOf(v) <= MAX_SEQ_NUM && LenOf(v) <= MAX_PLAINTEXT_LEN {
      DataWriteKeepsLow(node.dev, SeqOf(v) * MAX_PLAINTEXT_LEN + HIGH_BASE,
                        Padded(Crypt(cipher, node.session.iv, PayloadOf(v))), LenOf(v));
    }
  }

  // The condition is needed. An erase meant for the bank mapped high spares the image that is running exactly when
  // GPNVM2 is clear or can be read (the block not being blank already).
  lemma EraseSparesLow(dev: Device, page: nat)
    requires dev.Valid() && dev.CommandsWork() && page < PAGES && page % PAGES_TO_ERASE == 0
    requires dev.Cells(false)[page * PAGE..(page + 8) * PAGE] != Ones(8 * PAGE)
    ensures
      (FlashService.ErasePage(dev, HIGH_BASE + page * PAGE, FlashService.ERASE_PAGES_8).dev.Cells(false)
       == dev.Cells(false))
      <==> !(dev.Swapped() && dev.Misread())
  {
    hide FlashService.OrCode, EraseStart, EraseCount, Overwrite, Ones;
    FlashService.EightPages(page);
    OverwrittenBlock(dev.Cells(false), page * PAGE, Ones(8 * PAGE));
  }

  // Such a device: GPNVM2 set, its next read failing, and the spare bank blank.
  function Misreading(): (dev: Device)
    ensures dev.Valid() && dev.Swapped()
  {
    Device(Bank(Ones(BANK), Ones(PAGE), {}, 0), Bank(seq(BANK, _ => 0), Ones(PAGE), {}, 0), {2}, [], [true])
  }

  lemma MisreadErasesLow()
    ensures FlashService.ErasePage(Misreading(), HIGH_BASE, FlashService.ERASE_PAGES_8).rc == SUCCESS
    ensures FlashService.ErasePage(Misreading(), HIGH_BASE, FlashService.ERASE_PAGES_8).dev.Cells(false)
         != Misreading().Cells(false)
  {
    hide Overwrite;
    assert Misreading().Cells(false)[0..8 * PAGE][0] != Ones(8 * PAGE)[0];
    EraseSparesLow(Misreading(), 0);
  }

  lemma OverwrittenBlock(cells: seq<bv8>, at: nat, bytes: seq<bv8>)
    requires at + |bytes| <= |cells|
    ensures Overwrite(cells, at, bytes)[at..at + |bytes|] == bytes
  {}

  // A poll that fires, in a run of the machine.
  predicate FiresAt(node: Node, e: Event)
    requires Ready(node)
  {
    e.Clocked? && Fires(node.timer, Tick(e.time))
  }

  predicate NeverFires(cipher: Cipher, node: Node, events: seq<Event>)
    requires Ready(node)
    decreases |events|
  {
    events == []
    || (&& NeverFires(cipher, node, events[..|events| - 1])
        && !FiresAt(Run(cipher, node, events[..|events| - 1]), events[|events| - 1]))
  }

  lemma StepKeepsLow(cipher: Cipher, node: Node, e: Event)
    requires Ready(node) && !FiresAt(node, e)
    ensures LowKept(node.dev, Step(cipher, node, e).dev)
  {
    hide Handle, CodeSwitching;
    if e.Packet? {
      PacketKeepsLow(cipher, node, e.view, e.gcmOk, Tick(e.time));
    }
  }

  // Over every run in which the switch does not fire, with commands failing at will, the mapping stays as it is and
  // the image mapped low keeps every byte.
  lemma {:induction false} RunKeepsLow(cipher: Cipher, node: Node, events: seq<Event>)
    requires Ready(node) && NeverFires(cipher, node, events)
    ensures LowKept(node.dev, Run(cipher, node, events).dev)
    decreases |events|
  {
    hide Step, FiresAt;
    if events != [] {
      var before := events[..|events| - 1];
      RunKeepsLow(cipher, node, before);
      StepKeepsLow(cipher, Run(cipher, node, before), events[|events| - 1]);
    }
  }

  // When it does fire, the two banks keep their cells and their places are exchanged, exactly if GPNVM2 could be read
  // where that matters and the command worked; the session is gone either way.
  lemma FiringSwaps(cipher: Cipher, node: Node, e: Event)
    requires Ready(node) && FiresAt(node, e)
    ensures
      var after := Step(cipher, node, e);
      && after == Boot(after.dev)
      && after.dev.bank0 == node.dev.bank0 && after.dev.bank1 == node.dev.bank1
      && ((after.dev.Swapped() != node.dev.Swapped())
          <==> ((node.dev.Swapped() ==> !node.dev.Misread()) && node.dev.Next().Done?))
  {
    hide CodeSwitching;
    SwitchFlips(node.dev);
  }

  /* When the switch fires. */

  predicate ExecHandled(node: Node, e: Event) {
    && e.Packet? && node.session.authenticated
    && Validate(e.view) == Valid && TypeOf(e.view) == COMMAND_FRAME && CommandOf(e.view) == EXEC
  }

  // The time of the latest EXEC handled since the last reset, and that of the last reading the timer has stored.
  datatype Arming = Disarmed | ArmedAt(since: nat, last: nat)

  function Rearmed(a: Arming, node: Node, e: Event): Arming
    requires Ready(node)
  {
    match e
    case Packet(_, _, time) => if ExecHandled(node, e) then ArmedAt(time, time) else a
    case Clocked(time) =>
      if a.Disarmed? then a
      else if FiresAt(node, e) then Disarmed
      else if Elapsed(node.timer.last, Tick(time)) == 0 then a
      else a.(last := time)
    case Reset => Disarmed
  }

  function ArmingOf(cipher: Cipher, dev: Device, events: seq<Event>): Arming
    requires dev.Valid()
    decreases |events|
  {
    if events == [] then Disarmed
    else
      var before := events[..|events| - 1];
      Rearmed(ArmingOf(cipher, dev, before), Run(cipher, Boot(dev), before), events[|events| - 1])
  }

  predicate Forward(a: Arming, e: Event) {
    a.ArmedAt? ==>
      match e
      case Packet(_, _, time) => a.last <= time
      case Clocked(time) => a.last <= time
      case Reset => true
  }

  predicate ForwardRun(cipher: Cipher, dev: Device, events: seq<Event>)
    requires dev.Valid()
    decreases |events|
  {
    events == []
    || (&& ForwardRun(cipher, dev, events[..|events| - 1])
        && Forward(ArmingOf(cipher, dev, events[..|events| - 1]), events[|events| - 1]))
  }

  predicate Tracks(timer: Timer, a: Arming) {
    && timer.last < WRAP
    && match a
       case Disarmed => !timer.armed
       case ArmedAt(since, last) =>
         timer.armed && since <= last && timer.last == Tick(last) && timer.count <= last - since
  }

  lemma HandleTimer(cipher: Cipher, node: Node, v: View, gcmOk: bool, time: nat)
    requires node.dev.Valid()
    ensures Handle(cipher, node, v, gcmOk, Tick(time)).node.timer
         == if ExecHandled(node, Packet(v, gcmOk, time)) then Timer(true, 0, Tick(time)) else node.timer
  {
    hide Validate, TypeOf, SeqOf, LenOf, PayloadOf, CommandOf, Crypt, Swap32, DataWrite, Intact, Padded, DataAck;
    hide IvOf, TagOf;
  }

  lemma StepTracks(cipher: Cipher, node: Node, a: Arming, e: Event)
    requires Ready(node) && Tracks(node.timer, a) && Forward(a, e)
    ensures Tracks(Step(cipher, node, e).timer, Rearmed(a, node, e))
    ensures FiresAt(node, e) ==> a.ArmedAt? && e.time - a.since > SWITCHING_INTERVAL
  {
    hide Handle, ExecHandled, CodeSwitching, Elapsed, Tick;
    if e.Packet? {
      HandleTimer(cipher, node, e.view, e.gcmOk, e.time);
    } else if e.Clocked? && a.ArmedAt? {
      ElapsedAtMost(a.last, e.time);
    }
  }

  lemma {:induction false} RunTracks(cipher: Cipher, dev: Device, events: seq<Event>)
    requires dev.Valid() && ForwardRun(cipher, dev, events)
    ensures Tracks(Run(cipher, Boot(dev), events).timer, ArmingOf(cipher, dev, events))
    decreases |events|
  {
    hide Step, Rearmed, Forward;
    if events != [] {
      var before := events[..|events| - 1];
      RunTracks(cipher, dev, before);
      StepTracks(cipher, Run(cipher, Boot(dev), before), ArmingOf(cipher, dev, before), events[|events| - 1]);
    }
  }

  // In every run in which time does not go back, however far apart the polls and however often the counter wraps, the
  // switch fires only after an EXEC was handled in an authenticated session since the last reset, and only when more
  // than three seconds have really passed since the latest one.
  lemma SwitchIsLate(cipher: Cipher, dev: Device, events: seq<Event>, time: nat)
    requires dev.Valid() && ForwardRun(cipher, dev, events + [Clocked(time)])
    requires FiresAt(Run(cipher, Boot(dev), events), Clocked(time))
    ensures ArmingOf(cipher, dev, events).ArmedAt?
    ensures time - ArmingOf(cipher, dev, events).since > SWITCHING_INTERVAL
  {
    hide FiresAt;
    assert (events + [Clocked(time)])[..|events|] == events;
    RunTracks(cipher, dev, events);
    StepTracks(cipher, Run(cipher, Boot(dev), events), ArmingOf(cipher, dev, events), Clocked(time));
  }
}
