/**
 The flash service (flash_efc.c, SAM4SD32 branches) as functions from a device to a device and a return code,
 and what its operations do to the two physical banks.
 */
module FlashService {
  import opened NorFlash
  import opened Numbers

  const RC_OK: nat := 0
  const RC_YES: nat := 1
  const RC_NO: nat := 0
  const RC_ERROR: nat := 0x10
  const RC_INVALID: nat := 0x11
  const GPNVM_NUM_MAX: nat := 3
  const GPNVM2: nat := 2
  const ERASE_PAGES_8: nat := 1
  const ERASE_PAGES_INVALID: nat := 4

  datatype Target = Target(dev: Device, efc: Efc, page: nat, offset: nat)
  datatype Located = Located(dev: Device, address: nat)

  function IsGpnvmSet(dev: Device, bit: nat): Reply {
    if bit >= GPNVM_NUM_MAX then Reply(dev, RC_INVALID)
    else if dev.Misread() then Reply(dev.ReadConsumed(), RC_ERROR)
    else Reply(dev.ReadConsumed(), if bit in dev.gpnvm then RC_YES else RC_NO)
  }

  function SetGpnvm(dev: Device, bit: nat): Reply {
    if bit >= GPNVM_NUM_MAX then Reply(dev, RC_INVALID)
    else
      var q := IsGpnvmSet(dev, bit);
      if q.rc == RC_YES then Reply(q.dev, RC_OK)
      else
        var r := ChangeGpnvm(q.dev, bit, true);
        Reply(r.dev, if r.rc == 0 then RC_OK else RC_ERROR)
  }

  function ClearGpnvm(dev: Device, bit: nat): Reply {
    if bit >= GPNVM_NUM_MAX then Reply(dev, RC_INVALID)
    else
      var q := IsGpnvmSet(dev, bit);
      if q.rc == RC_NO then Reply(q.dev, RC_OK)
      else
        var r := ChangeGpnvm(q.dev, bit, false);
        Reply(r.dev, if r.rc == 0 then RC_OK else RC_ERROR)
  }

  function Translate(dev: Device, address: nat): (t: Target)
    requires Mappable(address)
    ensures t.offset < PAGE && t.page * PAGE + t.offset == Offset(address)
  {
    var q := IsGpnvmSet(dev, GPNVM2);
    if address >= HIGH_BASE then
      Target(q.dev, if q.rc == RC_YES then Efc0 else Efc1, (address - HIGH_BASE) / PAGE, (address - HIGH_BASE) % PAGE)
    else
      Target(q.dev, if q.rc == RC_YES then Efc1 else Efc0, (address - LOW_BASE) / PAGE, (address - LOW_BASE) % PAGE)
  }

  function ComputeAddress(dev: Device, efc: Efc, page: nat, offset: nat): Located {
    var q := IsGpnvmSet(dev, GPNVM2);
    var base := if efc == Efc0 then if q.rc == RC_YES then HIGH_BASE else LOW_BASE
                else if q.rc == RC_YES then LOW_BASE else HIGH_BASE;
    Located(q.dev, base + page * PAGE + offset)
  }

  // Bitwise or of two numbers below 4.
  function OrBits(a: nat, b: nat): (o: nat)
    requires a < 4 && b < 4
    ensures o < 4
  {
    (if a % 2 == 1 || b % 2 == 1 then 1 else 0) + (if a >= 2 || b >= 2 then 2 else 0)
  }

  // Bitwise or of a page number with an erase code below 4.
  function OrCode(page: nat, code: nat): nat
    requires code < 4
  {
    page - page % 4 + OrBits(page % 4, code)
  }

  function ErasePage(dev: Device, address: nat, code: nat): (r: Reply)
    requires dev.Valid() && InFlash(address) && Offset(address) < BANK
    ensures r.dev.Valid()
  {
    if code >= ERASE_PAGES_INVALID || address % PAGE != 0 then Reply(dev, RC_INVALID)
    else
      var t := Translate(dev, address);
      var r := ErasePages(t.dev, t.efc, OrCode(t.page, code));
      Reply(r.dev, if r.rc == 0 then RC_OK else RC_ERROR)
  }

  function SetWaitStates(dev: Device, efc: Efc, n: nat): Device {
    dev.With(efc, dev.Of(efc).(waitStates := n))
  }

  // One round of the loop in flash_write: assemble a page, store it, program it.
  function WriteOne(dev: Device, efc: Efc, page: nat, offset: nat, bytes: seq<bv8>, erase: bool): (r: Reply)
    requires dev.Valid() && page < PAGES && offset + |bytes| <= PAGE
    ensures r.dev.Valid()
  {
    var l := ComputeAddress(dev, efc, page, 0);
    var buffer := Read(l.dev, l.address, 0, offset) + bytes
                + Read(l.dev, l.address, offset + |bytes|, PAGE - offset - |bytes|);
    ProgramPage(Latch(l.dev, l.address, buffer), efc, page, erase)
  }

  function WritePages(dev: Device, efc: Efc, page: nat, offset: nat, data: seq<bv8>, erase: bool): (r: Reply)
    requires dev.Valid() && offset < PAGE && page * PAGE + offset + |data| <= BANK
    ensures r.dev.Valid()
    decreases |data|
  {
    if data == [] then Reply(dev, RC_OK)
    else
      var size := Min(PAGE - offset, |data|);
      var r := WriteOne(dev, efc, page, offset, data[..size], erase);
      if r.rc != 0 then r else WritePages(r.dev, efc, page + 1, 0, data[size..], erase)
  }

  // The wait states are put back only when every page was written.
  function Write(dev: Device, address: nat, data: seq<bv8>, erase: bool): (r: Reply)
    requires dev.Valid() && InFlash(address) && Offset(address) + |data| <= BANK
    ensures r.dev.Valid()
  {
    var t := Translate(dev, address);
    var saved := t.dev.Of(t.efc).waitStates;
    var r := WritePages(SetWaitStates(t.dev, t.efc, 6), t.efc, t.page, t.offset, data, erase);
    if r.rc != 0 then r else Reply(SetWaitStates(r.dev, t.efc, saved), RC_OK)
  }

  /* Address translation against the real map. */

  // Translation names the bank that is really mapped at the address, except when GPNVM2 is set and could not be read.
  lemma TranslateHits(dev: Device, address: nat)
    requires Mappable(address)
    ensures Translate(dev, address).efc == dev.Mapped(High(address)) <==> !(dev.Swapped() && dev.Misread())
  {}

  // compute_address undoes translate_address exactly when both saw the same value of GPNVM2.
  lemma ComputeInvertsTranslate(dev: Device, address: nat)
    requires Mappable(address)
    ensures
      var t := Translate(dev, address);
      (ComputeAddress(t.dev, t.efc, t.page, t.offset).address == address)
      <==> (dev.Swapped() ==> dev.Misread() == dev.ReadConsumed().Misread())
  {}

  lemma ComputeHits(dev: Device, efc: Efc, page: nat)
    requires dev.ReadsWork() && page < PAGES
    ensures
      var l := ComputeAddress(dev, efc, page, 0);
      && InFlash(l.address) && Offset(l.address) == page * PAGE
      && dev.Mapped(High(l.address)) == efc
      && l.dev == dev.ReadConsumed()
  {}

  /* What a write leaves, when every command and every read works. */

  function Patched(cells: seq<bv8>, at: nat, data: seq<bv8>, erase: bool): (s: seq<bv8>)
    requires at + |data| <= |cells|
    ensures |s| == |cells|
  {
    Overwrite(cells, at, if erase then data else And(cells[at..at + |data|], data))
  }

  // dev' differs from dev in nothing a program can see but the cells of one bank, now `cells`.
  ghost predicate Changed(dev: Device, dev': Device, efc: Efc, cells: seq<bv8>) {
    && dev'.Of(efc).cells == cells
    && dev'.Of(efc).locked == dev.Of(efc).locked
    && dev'.Of(efc).waitStates == dev.Of(efc).waitStates
    && dev'.Of(Other(efc)) == dev.Of(Other(efc))
    && dev'.gpnvm == dev.gpnvm
    && dev'.Works()
  }

  function Buffered(cells: seq<bv8>, at: nat, offset: nat, bytes: seq<bv8>): (s: seq<bv8>)
    requires offset + |bytes| <= PAGE && at + PAGE <= |cells|
    ensures |s| == PAGE
  {
    cells[at..at + offset] + bytes + cells[at + offset + |bytes|..at + PAGE]
  }

  lemma BufferedPatches(cells: seq<bv8>, at: nat, offset: nat, bytes: seq<bv8>, erase: bool)
    requires offset + |bytes| <= PAGE && at + PAGE <= |cells|
    ensures Patched(cells, at, Buffered(cells, at, offset, bytes), erase) == Patched(cells, at + offset, bytes, erase)
  {
    hide Overwrite, And;
    if erase {
      OverwriteInner(cells, at, offset, bytes, PAGE);
    } else {
      var pre := cells[at..at + offset];
      var held := cells[at + offset..at + offset + |bytes|];
      var post := cells[at + offset + |bytes|..at + PAGE];
      ThreeSlices(cells, at, offset, |bytes|);
      AndInner(pre, held, bytes, post);
      OverwriteInner(cells, at, offset, And(held, bytes), PAGE);
    }
  }

  lemma ThreeSlices(cells: seq<bv8>, at: nat, offset: nat, n: nat)
    requires offset + n <= PAGE && at + PAGE <= |cells|
    ensures cells[at..at + PAGE]
         == cells[at..at + offset] + cells[at + offset..at + offset + n] + cells[at + offset + n..at + PAGE]
  {}

  lemma ProgramPatches(dev: Device, efc: Efc, page: nat, erase: bool)
    requires dev.Valid() && dev.Works() && page < PAGES
    ensures
      var r := ProgramPage(dev, efc, page, erase);
      && r.rc == 0
      && Changed(dev, r.dev, efc, Patched(dev.Of(efc).cells, page * PAGE, dev.Of(efc).latch, erase))
  {}

  function Loaded(dev: Device, efc: Efc, bytes: seq<bv8>): (d: Device)
    requires dev.Valid() && |bytes| == PAGE
    ensures d.Valid()
  {
    dev.ReadConsumed().With(efc, dev.Of(efc).(latch := bytes))
  }

  lemma LoadedKeeps(dev: Device, efc: Efc, bytes: seq<bv8>)
    requires dev.Valid() && dev.Works() && |bytes| == PAGE
    ensures Changed(dev, Loaded(dev, efc, bytes), efc, dev.Of(efc).cells)
    ensures Loaded(dev, efc, bytes).Of(efc).latch == bytes
  {}

  lemma WriteOneLoads(dev: Device, efc: Efc, page: nat, offset: nat, bytes: seq<bv8>, erase: bool)
    requires dev.Valid() && dev.ReadsWork() && page < PAGES && offset + |bytes| <= PAGE
    ensures WriteOne(dev, efc, page, offset, bytes, erase)
         == ProgramPage(Loaded(dev, efc, Buffered(dev.Of(efc).cells, page * PAGE, offset, bytes)), efc, page, erase)
  {
    ComputeHits(dev, efc, page);
    var l := ComputeAddress(dev, efc, page, 0);
    assert Read(l.dev, l.address, 0, offset) + bytes + Read(l.dev, l.address, offset + |bytes|, PAGE - offset - |bytes|)
        == Buffered(dev.Of(efc).cells, page * PAGE, offset, bytes);
  }

  lemma WriteOneExact(dev: Device, efc: Efc, page: nat, offset: nat, bytes: seq<bv8>, erase: bool)
    requires dev.Valid() && dev.Works() && page < PAGES && offset + |bytes| <= PAGE
    ensures
      var r := WriteOne(dev, efc, page, offset, bytes, erase);
      && r.rc == 0
      && Changed(dev, r.dev, efc, Patched(dev.Of(efc).cells, page * PAGE + offset, bytes, erase))
  {
    hide Patched, WriteOne, Loaded, ProgramPage;
    var buffer := Buffered(dev.Of(efc).cells, page * PAGE, offset, bytes);
    WriteOneLoads(dev, efc, page, offset, bytes, erase);
    LoadedKeeps(dev, efc, buffer);
    ProgramPatches(Loaded(dev, efc, buffer), efc, page, erase);
    BufferedPatches(dev.Of(efc).cells, page * PAGE, offset, bytes, erase);
  }

  lemma PatchedNothing(cells: seq<bv8>, at: nat, erase: bool)
    requires at <= |cells|
    ensures Patched(cells, at, [], erase) == cells
  {}

  lemma PatchedTwice(cells: seq<bv8>, at: nat, a: seq<bv8>, b: seq<bv8>, erase: bool)
    requires at + |a| + |b| <= |cells|
    ensures Patched(Patched(cells, at, a, erase), at + |a|, b, erase) == Patched(cells, at, a + b, erase)
  {
    hide Overwrite, And;
    if erase {
      OverwriteTwice(cells, at, a, b);
    } else {
      var heldA := cells[at..at + |a|];
      var heldB := cells[at + |a|..at + |a| + |b|];
      BehindOverwrite(cells, at, And(heldA, a), |b|);
      AndConcat(heldA, heldB, a, b);
      assert cells[at..at + |a + b|] == heldA + heldB;
      OverwriteTwice(cells, at, And(heldA, a), And(heldB, b));
    }
  }

  lemma BehindOverwrite(cells: seq<bv8>, at: nat, x: seq<bv8>, n: nat)
    requires at + |x| + n <= |cells|
    ensures Overwrite(cells, at, x)[at + |x|..at + |x| + n] == cells[at + |x|..at + |x| + n]
  {}

  lemma AndConcat(heldA: seq<bv8>, heldB: seq<bv8>, a: seq<bv8>, b: seq<bv8>)
    requires |heldA| == |a| && |heldB| == |b|
    ensures And(heldA + heldB, a + b) == And(heldA, a) + And(heldB, b)
  {
    hide AndByte;
  }

  lemma PatchedRounds(cells: seq<bv8>, page: nat, offset: nat, data: seq<bv8>, size: nat, erase: bool)
    requires offset < PAGE && page * PAGE + offset + |data| <= |cells|
    requires 0 < size == Min(PAGE - offset, |data|) && (page + 1) * PAGE <= |cells|
    ensures Patched(Patched(cells, page * PAGE + offset, data[..size], erase), (page + 1) * PAGE, data[size..], erase)
         == Patched(cells, page * PAGE + offset, data, erase)
  {
    hide Patched;
    assert data == data[..size] + data[size..];
    if size < |data| {
      PatchedTwice(cells, page * PAGE + offset, data[..size], data[size..], erase);
    } else {
      assert data[..size] == data && data[size..] == [];
      PatchedNothing(Patched(cells, page * PAGE + offset, data, erase), (page + 1) * PAGE, erase);
    }
  }

  lemma {:induction false} WritePagesExact(dev: Device, efc: Efc, page: nat, offset: nat, data: seq<bv8>, erase: bool)
    requires dev.Valid() && dev.Works() && offset < PAGE && page * PAGE + offset + |data| <= BANK
    ensures
      var r := WritePages(dev, efc, page, offset, data, erase);
      && r.rc == RC_OK
      && Changed(dev, r.dev, efc, Patched(dev.Of(efc).cells, page * PAGE + offset, data, erase))
    decreases |data|
  {
    hide Patched, WriteOne;
    var cells := dev.Of(efc).cells;
    if data == [] {
      PatchedNothing(cells, page * PAGE + offset, erase);
    } else {
      var size := Min(PAGE - offset, |data|);
      var r := WriteOne(dev, efc, page, offset, data[..size], erase);
      WriteOneExact(dev, efc, page, offset, data[..size], erase);
      WritePagesExact(r.dev, efc, page + 1, 0, data[size..], erase);
      PatchedRounds(cells, page, offset, data, size, erase);
    }
  }

  // flash_write replaces (or, without erase, ANDs into) exactly the bytes it was given, in the bank mapped at the
  // address, across any number of pages; everything else a program can see is as before.
  lemma WriteExact(dev: Device, address: nat, data: seq<bv8>, erase: bool)
    requires dev.Valid() && dev.Works() && InFlash(address) && Offset(address) + |data| <= BANK
    ensures
      var r := Write(dev, address, data, erase);
      && r.rc == RC_OK
      && Changed(dev, r.dev, dev.Mapped(High(address)),
                 Patched(dev.Cells(High(address)), Offset(address), data, erase))
  {
    hide Patched, WritePages;
    var t := Translate(dev, address);
    WritePagesExact(SetWaitStates(t.dev, t.efc, 6), t.efc, t.page, t.offset, data, erase);
  }

  /* What no failure can change. */

  ghost predicate Untouched(dev: Device, dev': Device, efc: Efc) {
    && dev'.Of(efc).cells == dev.Of(efc).cells
    && dev'.Of(Efc0).locked == dev.Of(Efc0).locked
    && dev'.Of(Efc1).locked == dev.Of(Efc1).locked
    && dev'.gpnvm == dev.gpnvm
    && (dev.ReadsWork() ==> dev'.ReadsWork())
  }

  lemma ProgramContained(dev: Device, efc: Efc, page: nat, erase: bool)
    requires dev.Valid() && page < PAGES
    ensures Untouched(dev, ProgramPage(dev, efc, page, erase).dev, Other(efc))
  {
    hide Overwrite, And, Residue;
  }

  lemma WriteOneContained(dev: Device, efc: Efc, page: nat, offset: nat, bytes: seq<bv8>, erase: bool)
    requires dev.Valid() && page < PAGES && offset + |bytes| <= PAGE
    ensures Untouched(dev, WriteOne(dev, efc, page, offset, bytes, erase).dev, Other(efc))
  {
    hide ProgramPage, Read;
    var l := ComputeAddress(dev, efc, page, 0);
    var buffer := Read(l.dev, l.address, 0, offset) + bytes
                + Read(l.dev, l.address, offset + |bytes|, PAGE - offset - |bytes|);
    ProgramContained(Latch(l.dev, l.address, buffer), efc, page, erase);
  }

  lemma {:induction false} WritePagesContained(
    dev: Device, efc: Efc, page: nat, offset: nat, data: seq<bv8>, erase: bool)
    requires dev.Valid() && offset < PAGE && page * PAGE + offset + |data| <= BANK
    ensures Untouched(dev, WritePages(dev, efc, page, offset, data, erase).dev, Other(efc))
    decreases |data|
  {
    hide WriteOne;
    if data != [] {
      var size := Min(PAGE - offset, |data|);
      var r := WriteOne(dev, efc, page, offset, data[..size], erase);
      WriteOneContained(dev, efc, page, offset, data[..size], erase);
      if r.rc == 0 {
        WritePagesContained(r.dev, efc, page + 1, 0, data[size..], erase);
      }
    }
  }

  // Whatever fails on the way, a write stays inside the bank that translate_address named.
  lemma WriteContained(dev: Device, address: nat, data: seq<bv8>, erase: bool)
    requires dev.Valid() && InFlash(address) && Offset(address) + |data| <= BANK
    ensures Untouched(dev, Write(dev, address, data, erase).dev, Other(Translate(dev, address).efc))
  {
    hide WritePages;
    var t := Translate(dev, address);
    WritePagesContained(SetWaitStates(t.dev, t.efc, 6), t.efc, t.page, t.offset, data, erase);
  }

  lemma EraseContained(dev: Device, address: nat, code: nat)
    requires dev.Valid() && InFlash(address) && Offset(address) < BANK
    ensures Untouched(dev, ErasePage(dev, address, code).dev, Other(Translate(dev, address).efc))
  {
    hide Overwrite, Residue, OrCode;
  }

  /* When a write gets through, and what becomes of the wait states. */

  // Pages that a write of `size` bytes from an offset into its first page touches.
  function Rounds(offset: nat, size: nat): nat {
    if size == 0 then 0 else (offset + size + PAGE - 1) / PAGE
  }

  predicate FirstDone(outcomes: seq<Outcome>, n: nat) {
    forall i :: 0 <= i < n && i < |outcomes| ==> outcomes[i].Done?
  }

  predicate SameWaitStates(dev: Device, dev': Device) {
    dev'.bank0.waitStates == dev.bank0.waitStates && dev'.bank1.waitStates == dev.bank1.waitStates
  }

  lemma WriteOneOutcome(dev: Device, efc: Efc, page: nat, offset: nat, bytes: seq<bv8>, erase: bool)
    requires dev.Valid() && page < PAGES && offset + |bytes| <= PAGE
    ensures
      var r := WriteOne(dev, efc, page, offset, bytes, erase);
      && (r.rc == RC_OK <==> dev.Next().Done?)
      && r.dev.outcomes == dev.Consumed().outcomes
      && SameWaitStates(dev, r.dev)
  {
    hide Overwrite, And, Read, Residue;
  }

  lemma FirstDoneStep(dev: Device, n: nat)
    requires n > 0
    ensures FirstDone(dev.outcomes, n) <==> dev.Next().Done? && FirstDone(dev.Consumed().outcomes, n - 1)
  {
    var later := dev.Consumed().outcomes;
    if dev.outcomes != [] {
      assert forall i :: 0 <= i < |later| ==> later[i] == dev.outcomes[i + 1];
      if dev.Next().Done? && FirstDone(later, n - 1) {
        forall i | 0 <= i < n && i < |dev.outcomes|
          ensures dev.outcomes[i].Done?
        {
          assert i == 0 || dev.outcomes[i] == later[i - 1];
        }
      }
    }
  }

  lemma RoundsStep(offset: nat, size: nat)
    requires offset < PAGE && size > 0
    ensures Rounds(offset, size) == 1 + Rounds(0, size - Min(PAGE - offset, size))
  {}

  lemma {:induction false} WritePagesOutcome(
    dev: Device, efc: Efc, page: nat, offset: nat, data: seq<bv8>, erase: bool)
    requires dev.Valid() && offset < PAGE && page * PAGE + offset + |data| <= BANK
    ensures
      var r := WritePages(dev, efc, page, offset, data, erase);
      && (r.rc == RC_OK <==> FirstDone(dev.outcomes, Rounds(offset, |data|)))
      && SameWaitStates(dev, r.dev)
    decreases |data|
  {
    hide WriteOne, FirstDone, Rounds;
    if data == [] {
      NoRounds(dev.outcomes, offset);
    } else {
      var size := Min(PAGE - offset, |data|);
      var r := WriteOne(dev, efc, page, offset, data[..size], erase);
      WriteOneOutcome(dev, efc, page, offset, data[..size], erase);
      RoundsStep(offset, |data|);
      FirstDoneStep(dev, Rounds(offset, |data|));
      if r.rc == RC_OK {
        WritePagesOutcome(r.dev, efc, page + 1, 0, data[size..], erase);
      }
    }
  }

  lemma NoRounds(outcomes: seq<Outcome>, offset: nat)
    ensures FirstDone(outcomes, Rounds(offset, 0)) && FirstFlags(outcomes, Rounds(offset, 0)) == 0
  {}

  // On every device: a write succeeds exactly when the command of each page it touches does. The controller it works on
  // is set to six wait states; it gets its own back exactly then, or if it had six. The other keeps its own.
  lemma WaitStatesRestored(dev: Device, address: nat, data: seq<bv8>, erase: bool)
    requires dev.Valid() && InFlash(address) && Offset(address) + |data| <= BANK
    ensures
      var r := Write(dev, address, data, erase);
      var efc := Translate(dev, address).efc;
      var done := FirstDone(dev.outcomes, Rounds(Offset(address) % PAGE, |data|));
      && (r.rc == RC_OK <==> done)
      && (!done ==> r.dev.Of(efc).waitStates == 6)
      && (r.dev.Of(efc).waitStates == dev.Of(efc).waitStates <==> done || dev.Of(efc).waitStates == 6)
      && r.dev.Of(Other(efc)).waitStates == dev.Of(Other(efc)).waitStates
  {
    hide WritePages, FirstDone, Rounds;
    var t := Translate(dev, address);
    assert t.offset == Offset(address) % PAGE;
    WritePagesOutcome(SetWaitStates(t.dev, t.efc, 6), t.efc, t.page, t.offset, data, erase);
  }

  // The error flags of the first command that fails among the next n, 0 if none does.
  function FirstFlags(outcomes: seq<Outcome>, n: nat): nat
    decreases n
  {
    if n == 0 || outcomes == [] then 0
    else match outcomes[0]
         case Done => FirstFlags(outcomes[1..], n - 1)
         case Failed(flags, _) => flags
  }

  lemma WriteOneFlags(dev: Device, efc: Efc, page: nat, offset: nat, bytes: seq<bv8>, erase: bool)
    requires dev.Valid() && page < PAGES && offset + |bytes| <= PAGE
    ensures
      var r := WriteOne(dev, efc, page, offset, bytes, erase);
      && r.rc == (match dev.Next() case Done => 0 case Failed(flags, _) => flags)
      && r.dev.outcomes == dev.Consumed().outcomes
  {
    hide Overwrite, And, Read, Residue;
  }

  lemma {:induction false} WritePagesFlags(
    dev: Device, efc: Efc, page: nat, offset: nat, data: seq<bv8>, erase: bool)
    requires dev.Valid() && offset < PAGE && page * PAGE + offset + |data| <= BANK
    ensures WritePages(dev, efc, page, offset, data, erase).rc == FirstFlags(dev.outcomes, Rounds(offset, |data|))
    decreases |data|
  {
    hide WriteOne, Rounds;
    if data == [] {
      NoRounds(dev.outcomes, offset);
    } else {
      var size := Min(PAGE - offset, |data|);
      var r := WriteOne(dev, efc, page, offset, data[..size], erase);
      WriteOneFlags(dev, efc, page, offset, data[..size], erase);
      RoundsStep(offset, |data|);
      FlagsStep(dev, Rounds(offset, |data|));
      if r.rc == 0 {
        WritePagesFlags(r.dev, efc, page + 1, 0, data[size..], erase);
      }
    }
  }

  lemma FlagsStep(dev: Device, n: nat)
    requires n > 0
    ensures FirstFlags(dev.outcomes, n)
         == (match dev.Next()
            case Done => FirstFlags(dev.Consumed().outcomes, n - 1)
            case Failed(flags, _) => flags)
  {}

  // What flash_write answers, on every device: the error flags of the first command that fails, or 0.
  lemma WriteAnswers(dev: Device, address: nat, data: seq<bv8>, erase: bool)
    requires dev.Valid() && InFlash(address) && Offset(address) + |data| <= BANK
    ensures Write(dev, address, data, erase).rc == FirstFlags(dev.outcomes, Rounds(Offset(address) % PAGE, |data|))
  {
    hide WritePages, FirstFlags, Rounds;
    var t := Translate(dev, address);
    WritePagesFlags(SetWaitStates(t.dev, t.efc, 6), t.efc, t.page, t.offset, data, erase);
  }

  // What flash_erase_page answers, on every device.
  lemma EraseAnswers(dev: Device, address: nat, code: nat)
    requires dev.Valid() && InFlash(address) && Offset(address) < BANK
    ensures ErasePage(dev, address, code).rc
         == if code >= 4 || address % 512 != 0 then 0x11 else if dev.Next().Done? then 0 else 0x10
  {
    hide Overwrite, Residue, Ones, OrCode, EraseStart, EraseCount;
  }

  // flash_is_gpnvm_set answers yes or no truly, or not at all.
  lemma GpnvmReadsExactly(dev: Device, bit: nat)
    ensures
      var r := IsGpnvmSet(dev, bit);
      && (r.rc == 1 <==> bit < 3 && !dev.Misread() && bit in dev.gpnvm)
      && (r.rc == 0 <==> bit < 3 && !dev.Misread() && bit !in dev.gpnvm)
      && (r.rc == 0x10 <==> bit < 3 && dev.Misread())
      && (r.rc == 0x11 <==> bit >= 3)
      && r.dev == (if bit < 3 then dev.ReadConsumed() else dev)
  {}

  // flash_set_gpnvm and flash_clear_gpnvm, on every device: success means that the bit is as asked for, and comes about
  // exactly if the bit already reads so or the command works; failure changes nothing, and no other bit ever changes.
  lemma GpnvmChangesExactly(dev: Device, bit: nat, setBit: bool)
    ensures
      var r := if setBit then SetGpnvm(dev, bit) else ClearGpnvm(dev, bit);
      var already := !dev.Misread() && (bit in dev.gpnvm <==> setBit);
      && (r.rc == 0 <==> bit < 3 && (already || dev.Next().Done?))
      && r.dev.gpnvm == (if r.rc != 0 then dev.gpnvm else if setBit then dev.gpnvm + {bit} else dev.gpnvm - {bit})
      && (r.rc != 0 ==> r.rc == if bit >= 3 then 0x11 else 0x10)
      && r.dev.outcomes == (if bit >= 3 || already then dev.outcomes else dev.Consumed().outcomes)
      && r.dev.bank0 == dev.bank0 && r.dev.bank1 == dev.bank1
  {}

  // A device with no wait states whose second command fails.
  function SecondFails(): (dev: Device)
    ensures dev.Valid() && dev.bank0.waitStates == 0 && !dev.Swapped() && dev.outcomes == [Done, Failed(1, [])]
  {
    var bank := Bank(Ones(BANK), Ones(PAGE), {}, 0);
    Device(bank, bank, {}, [Done, Failed(1, [])], [])
  }

  // Writing two pages on it leaves the running bank at six.
  lemma WaitStatesLost(data: seq<bv8>)
    requires |data| == 2 * PAGE
    ensures SecondFails().Of(Efc0).waitStates == 0
    ensures Write(SecondFails(), LOW_BASE, data, false).dev.Of(Efc0).waitStates == 6
  {
    hide Write, SecondFails;
    var dev := SecondFails();
    WaitStatesRestored(dev, LOW_BASE, data, false);
    assert dev.outcomes[1].Failed?;
  }

  /* Erasing. */

  predicate Agrees(page: nat, code: nat) {
    page % 4 == 0 || page % 4 == code || code == 3
  }

  lemma OrCodeParts(page: nat, code: nat)
    requires code < 4
    ensures OrCode(page, code) / 4 == page / 4 && OrCode(page, code) % 4 == OrBits(page % 4, code)
  {
    assert page == 4 * (page / 4) + page % 4;
  }

  lemma OrBitsAgree(a: nat, b: nat)
    requires a < 4 && b < 4
    ensures OrBits(a, b) == b <==> Agrees(a, b)
  {}

  lemma BlockOf8(page: nat)
    ensures page % 8 == 4 * (page / 4 % 2) + page % 4
  {}

  lemma BlockOf16(page: nat)
    ensures page % 16 == 4 * (page / 4 % 4) + page % 4
  {}

  lemma BlockOf32(page: nat)
    ensures page % 32 == 4 * (page / 4 % 8) + page % 4
  {}

  // Or-ing the erase code into the page number asks for as many pages as the code says exactly when the low bits of the
  // page number add nothing to it; the block is always the aligned one of its size that holds the page.
  lemma OrCodeExact(page: nat, code: nat)
    requires page < PAGES && code < 4
    ensures OrCode(page, code) < PAGES
    ensures EraseCount(OrCode(page, code)) == EraseCount(OrBits(page % 4, code))
    ensures EraseCount(OrCode(page, code)) == EraseCount(code) <==> Agrees(page, code)
    ensures EraseStart(OrCode(page, code)) == page - page % EraseCount(OrCode(page, code))
  {
    hide OrCode, OrBits;
    OrCodeParts(page, code);
    OrBitsAgree(page % 4, code);
    BlockOf8(page);
    BlockOf16(page);
    BlockOf32(page);
  }

  // The case the upgrader uses.
  lemma EightPages(page: nat)
    requires page < PAGES && page % 8 == 0
    ensures OrCode(page, ERASE_PAGES_8) < PAGES
    ensures EraseCount(OrCode(page, ERASE_PAGES_8)) == 8 && EraseStart(OrCode(page, ERASE_PAGES_8)) == page
  {
    hide OrCode, EraseStart;
    OrCodeExact(page, ERASE_PAGES_8);
  }

  lemma ErasePagesExact(dev: Device, efc: Efc, arg: nat)
    requires dev.Valid() && dev.Works() && arg < PAGES
    ensures
      var r := ErasePages(dev, efc, arg);
      && r.rc == 0
      && Changed(dev, r.dev, efc,
                 Overwrite(dev.Of(efc).cells, EraseStart(arg) * PAGE, Ones(EraseCount(arg) * PAGE)))
  {
    hide Overwrite, Ones, EraseCount, EraseStart;
  }

  // flash_erase_page, for every address in a bank and every code: refused without effect, or the aligned block whose
  // size the code and the low bits of the page number ask for together is set to ones, and nothing else changes.
  lemma EraseExact(dev: Device, address: nat, code: nat)
    requires dev.Valid() && dev.Works() && InFlash(address) && Offset(address) < BANK
    ensures
      var r := ErasePage(dev, address, code);
      if code >= ERASE_PAGES_INVALID || address % PAGE != 0 then r == Reply(dev, RC_INVALID)
      else
        var page := Offset(address) / PAGE;
        var count := EraseCount(OrBits(page % 4, code));
        var start := page - page % count;
        && 0 <= start && start + count <= PAGES && r.rc == RC_OK
        && Changed(dev, r.dev, dev.Mapped(High(address)),
                   Overwrite(dev.Cells(High(address)), start * PAGE, Ones(count * PAGE)))
  {
    hide Overwrite, Ones, EraseCount, EraseStart, OrCode, OrBits, ErasePages;
    if code < ERASE_PAGES_INVALID && address % PAGE == 0 {
      var t := Translate(dev, address);
      OrCodeExact(t.page, code);
      ErasePagesExact(t.dev, t.efc, OrCode(t.page, code));
    }
  }
}
