/**
 The dual-bank flash of the SAM4SD32 as its two controllers (EFC0, EFC1) present it: NOR cells that an erase
 sets to 0xFF and programming can only clear, one page latch and a set of lock bits per bank, and the
 general-purpose non-volatile bits, of which number 2 decides which bank is mapped low.

 What the hardware will report is fixed in advance by two scripts, so that a statement about every device is a
 statement about every sequence of failures: `outcomes` for commands that act, `misreads` for reads of the
 GPNVM bits. A script that has run out stands for success.
 */
module NorFlash {
  const PAGE: nat := 512
  const PAGES: nat := 2048
  const BANK: nat := 0x10_0000
  const REGION: nat := 8192
  const REGIONS: nat := 128
  const LOW_BASE: nat := 0x40_0000
  const HIGH_BASE: nat := 0x50_0000

  type ErrorFlags = n: nat | n > 0 witness 1

  // A failed erase or program leaves `residue` in the cells it addressed.
  datatype Outcome = Done | Failed(flags: ErrorFlags, residue: seq<bv8>)

  datatype Efc = Efc0 | Efc1

  datatype Bank = Bank(cells: seq<bv8>, latch: seq<bv8>, locked: set<nat>, waitStates: nat) {
    predicate Valid() {
      && |cells| == BANK && |latch| == PAGE
      && forall r :: r in locked ==> r < REGIONS
    }
  }

  datatype Device = Device(bank0: Bank, bank1: Bank, gpnvm: set<nat>, outcomes: seq<Outcome>, misreads: seq<bool>) {
    predicate Valid() {
      bank0.Valid() && bank1.Valid()
    }

    predicate Swapped() {
      2 in gpnvm
    }

    // The controller whose bank is mapped at HIGH_BASE, or at LOW_BASE.
    function Mapped(high: bool): Efc {
      if Swapped() == high then Efc0 else Efc1
    }

    function Of(efc: Efc): Bank {
      if efc == Efc0 then bank0 else bank1
    }

    function With(efc: Efc, bank: Bank): Device {
      if efc == Efc0 then this.(bank0 := bank) else this.(bank1 := bank)
    }

    function Cells(high: bool): seq<bv8> {
      Of(Mapped(high)).cells
    }

    predicate CommandsWork() {
      forall i :: 0 <= i < |outcomes| ==> outcomes[i].Done?
    }

    predicate ReadsWork() {
      forall i :: 0 <= i < |misreads| ==> !misreads[i]
    }

    predicate Works() {
      CommandsWork() && ReadsWork()
    }

    function Next(): Outcome {
      if outcomes == [] then Done else outcomes[0]
    }

    function Consumed(): Device {
      if outcomes == [] then this else this.(outcomes := outcomes[1..])
    }

    predicate Misread() {
      misreads != [] && misreads[0]
    }

    function ReadConsumed(): Device {
      if misreads == [] then this else this.(misreads := misreads[1..])
    }
  }

  // A device after a command, and the error flags the command left (0 for success).
  datatype Reply = Reply(dev: Device, rc: nat)

  function Other(efc: Efc): Efc {
    if efc == Efc0 then Efc1 else Efc0
  }

  /* Cell contents. */

  function Ones(n: nat): (s: seq<bv8>)
    ensures |s| == n
  {
    seq(n, _ => 0xFF)
  }

  function AndByte(a: bv8, b: bv8): bv8 {
    a & b
  }

  // What programming `written` over `held` leaves in NOR cells.
  function And(held: seq<bv8>, written: seq<bv8>): (s: seq<bv8>)
    requires |held| == |written|
    ensures |s| == |held|
  {
    seq(|held|, i requires 0 <= i < |held| => AndByte(held[i], written[i]))
  }

  function Overwrite(cells: seq<bv8>, at: nat, bytes: seq<bv8>): (s: seq<bv8>)
    requires at + |bytes| <= |cells|
    ensures |s| == |cells|
  {
    cells[..at] + bytes + cells[at + |bytes|..]
  }

  function Residue(residue: seq<bv8>, n: nat): (s: seq<bv8>)
    ensures |s| == n
  {
    seq(n, i requires 0 <= i < n => if i < |residue| then residue[i] else 0xFF)
  }

  /* Commands. */

  // WP, or EWP when `erase`: the latch goes to a page and is set back to ones.
  function ProgramPage(dev: Device, efc: Efc, page: nat, erase: bool): (r: Reply)
    requires dev.Valid() && page < PAGES
    ensures r.dev.Valid()
  {
    var bank := dev.Of(efc);
    var at := page * PAGE;
    match dev.Next()
    case Done =>
      var bytes := if erase then bank.latch else And(bank.cells[at..at + PAGE], bank.latch);
      Reply(dev.Consumed().With(efc, bank.(cells := Overwrite(bank.cells, at, bytes), latch := Ones(PAGE))), 0)
    case Failed(flags, residue) =>
      Reply(dev.Consumed().With(efc, bank.(cells := Overwrite(bank.cells, at, Residue(residue, PAGE)))), flags)
  }

  // EPA: the low two bits of the argument choose 4, 8, 16 or 32 pages, the rest the aligned block.
  function EraseCount(arg: nat): nat {
    if arg % 4 == 0 then 4 else if arg % 4 == 1 then 8 else if arg % 4 == 2 then 16 else 32
  }

  function EraseStart(arg: nat): (start: nat)
    requires arg < PAGES
    ensures start <= arg < start + EraseCount(arg) <= PAGES
  {
    var block := arg / 4;
    4 * (if arg % 4 == 0 then block
         else if arg % 4 == 1 then block - block % 2
         else if arg % 4 == 2 then block - block % 4
         else block - block % 8)
  }

  function ErasePages(dev: Device, efc: Efc, arg: nat): (r: Reply)
    requires dev.Valid() && arg < PAGES
    ensures r.dev.Valid()
  {
    var bank := dev.Of(efc);
    var at := EraseStart(arg) * PAGE;
    var size := EraseCount(arg) * PAGE;
    var bytes := match dev.Next() case Done => Ones(size) case Failed(_, residue) => Residue(residue, size);
    var rc := match dev.Next() case Done => 0 case Failed(flags, _) => flags;
    Reply(dev.Consumed().With(efc, bank.(cells := Overwrite(bank.cells, at, bytes))), rc)
  }

  // SLB and CLB on the region of a page. Past the last page there is no region to change.
  function ChangeLock(dev: Device, efc: Efc, page: nat, lock: bool): (r: Reply)
    requires dev.Valid()
    ensures r.dev.Valid()
  {
    var bank := dev.Of(efc);
    var region := if page < PAGES then {page / (REGION / PAGE)} else {};
    match dev.Next()
    case Done =>
      Reply(dev.Consumed().With(efc, bank.(locked := if lock then bank.locked + region else bank.locked - region)), 0)
    case Failed(flags, _) => Reply(dev.Consumed(), flags)
  }

  // SGPB and CGPB.
  function ChangeGpnvm(dev: Device, bit: nat, setBit: bool): (r: Reply) {
    match dev.Next()
    case Done => Reply(dev.Consumed().(gpnvm := if setBit then dev.gpnvm + {bit} else dev.gpnvm - {bit}), 0)
    case Failed(flags, _) => Reply(dev.Consumed(), flags)
  }

  /* The memory map. */

  predicate InFlash(address: nat) {
    LOW_BASE <= address <= HIGH_BASE + BANK
  }

  predicate High(address: nat) {
    address >= HIGH_BASE
  }

  // Addresses whose page number fits the 16 bits it is kept in.
  predicate Mappable(address: nat) {
    LOW_BASE <= address < HIGH_BASE + 0x1_0000 * PAGE
  }

  function Offset(address: nat): (o: nat)
    requires Mappable(address)
    ensures InFlash(address) ==> o <= BANK
  {
    if High(address) then address - HIGH_BASE else address - LOW_BASE
  }

  // n bytes read through the map, starting skip bytes after an address.
  function Read(dev: Device, address: nat, skip: nat, n: nat): (s: seq<bv8>)
    requires dev.Valid() && InFlash(address) && Offset(address) + skip + n <= BANK
    ensures |s| == n
  {
    dev.Cells(High(address))[Offset(address) + skip..Offset(address) + skip + n]
  }

  // A whole page stored through the map lands in the latch of the bank mapped there.
  function Latch(dev: Device, address: nat, bytes: seq<bv8>): (d: Device)
    requires dev.Valid() && InFlash(address) && |bytes| == PAGE
    ensures d.Valid()
  {
    var efc := dev.Mapped(High(address));
    dev.With(efc, dev.Of(efc).(latch := bytes))
  }

  // One 32-bit store of such a page.
  function LatchWord(dev: Device, address: nat, word: nat, bytes: seq<bv8>): (d: Device)
    requires dev.Valid() && InFlash(address) && |bytes| == 4 && word < PAGE / 4
    ensures d.Valid()
  {
    var efc := dev.Mapped(High(address));
    dev.With(efc, dev.Of(efc).(latch := Overwrite(dev.Of(efc).latch, 4 * word, bytes)))
  }

  /* Facts about cell contents. */

  lemma AndSame(a: bv8)
    ensures AndByte(a, a) == a
    ensures AndByte(0xFF, a) == a
  {}

  // Programming never sets a bit; it clears those, and only those, that are 0 in what is programmed.
  lemma AndBits(held: bv8, written: bv8, bit: bv8)
    requires bit in {0x01, 0x02, 0x04, 0x08, 0x10, 0x20, 0x40, 0x80}
    ensures AndByte(held, written) & bit == bit <==> held & bit == bit && written & bit == bit
  {}

  lemma AndOnes(bytes: seq<bv8>)
    ensures And(Ones(|bytes|), bytes) == bytes
  {
    forall i | 0 <= i < |bytes|
      ensures And(Ones(|bytes|), bytes)[i] == bytes[i]
    {
      AndSame(bytes[i]);
    }
  }

  lemma AndInner(pre: seq<bv8>, held: seq<bv8>, bytes: seq<bv8>, post: seq<bv8>)
    requires |held| == |bytes|
    ensures And(pre + held + post, pre + bytes + post) == pre + And(held, bytes) + post
  {
    forall i | 0 <= i < |pre + held + post|
      ensures And(pre + held + post, pre + bytes + post)[i] == (pre + And(held, bytes) + post)[i]
    {
      AndSame((pre + held + post)[i]);
    }
  }

  lemma OverwriteInner(cells: seq<bv8>, at: nat, pre: nat, bytes: seq<bv8>, n: nat)
    requires pre + |bytes| <= n && at + n <= |cells|
    ensures Overwrite(cells, at, cells[at..at + pre] + bytes + cells[at + pre + |bytes|..at + n])
         == Overwrite(cells, at + pre, bytes)
  {}

  lemma OverwriteTwice(cells: seq<bv8>, at: nat, a: seq<bv8>, b: seq<bv8>)
    requires at + |a| + |b| <= |cells|
    ensures Overwrite(Overwrite(cells, at, a), at + |a|, b) == Overwrite(cells, at, a + b)
  {}
}
