/**
 What a failed read of GPNVM2 costs while a frame is being stored. With the banks swapped, translate_address then
 takes the running bank for the spare one, and compute_address the other way round; here, with flash commands that
 work, is exactly which reads and which contents let a packet change the running image.
 */
module UpgradeMisread {
  import opened NorFlash
  import opened Frame
  import opened Gcm
  import opened Upgrade
  import opened HostUpdate
  import opened Protocol
  import FlashService
  import Crc32
  import UpgradeRefinement
  import UpgradeSafety

  /* The running bank of a swapped device, as erasing and writing a page of the other one see it. */

  datatype Running = Running(cells: seq<bv8>, latch: seq<bv8>, misreads: seq<bool>) {
    predicate Valid() {
      |cells| == BANK && |latch| == PAGE
    }

    // The i-th read from now fails.
    predicate Fails(i: nat) {
      i < |misreads| && misreads[i]
    }

    function After(n: nat): Running {
      this.(misreads := if n <= |misreads| then misreads[n..] else [])
    }

    function Page(page: nat): (s: seq<bv8>)
      requires Valid() && page < PAGES
      ensures |s| == PAGE
    {
      cells[page * PAGE..(page + 1) * PAGE]
    }
  }

  function RunningOf(dev: Device): (r: Running)
    ensures dev.Valid() ==> r.Valid()
  {
    Running(dev.bank1.cells, dev.bank1.latch, dev.misreads)
  }

  predicate Astray(dev: Device) {
    dev.Valid() && dev.CommandsWork() && dev.Swapped()
  }

  // Eight pages are erased where the one read says.
  function Erasing(r: Running, page: nat): (s: Running)
    requires r.Valid() && page + 8 <= PAGES
    ensures s.Valid()
  {
    r.After(1).(cells := if r.Fails(0) then Overwrite(r.cells, page * PAGE, Ones(8 * PAGE)) else r.cells)
  }

  // The first read chooses the bank that is programmed, the second the one whose latch is filled.
  function Writing(r: Running, page: nat, bytes: seq<bv8>): (s: Running)
    requires r.Valid() && page < PAGES && |bytes| == PAGE
    ensures s.Valid()
  {
    var latch := if r.Fails(0) != r.Fails(1) then bytes else r.latch;
    if r.Fails(0)
    then Running(Overwrite(r.cells, page * PAGE, And(r.Page(page), latch)), Ones(PAGE), r.After(2).misreads)
    else r.After(2).(latch := latch)
  }

  function PageStored(r: Running, page: nat, bytes: seq<bv8>): (s: Running)
    requires r.Valid() && page < PAGES && |bytes| == PAGE
    ensures s.Valid()
  {
    Writing(if page % PAGES_TO_ERASE == 0 then Erasing(r, page) else r, page, bytes)
  }

  lemma EraseRuns(dev: Device, page: nat)
    requires Astray(dev) && page < PAGES && page % PAGES_TO_ERASE == 0
    ensures
      var e := FlashService.ErasePage(dev, HIGH_BASE + page * PAGE, FlashService.ERASE_PAGES_8);
      e.rc == SUCCESS && Astray(e.dev) && RunningOf(e.dev) == Erasing(RunningOf(dev), page)
  {
    hide FlashService.OrCode, EraseStart, EraseCount, Overwrite, Ones;
    FlashService.EightPages(page);
  }

  lemma WriteRuns(dev: Device, page: nat, bytes: seq<bv8>)
    requires Astray(dev) && page < PAGES && |bytes| == PAGE
    ensures
      var w := FlashService.Write(dev, HIGH_BASE + page * PAGE, bytes, false);
      w.rc == SUCCESS && Astray(w.dev) && RunningOf(w.dev) == Writing(RunningOf(dev), page, bytes)
  {
    hide Overwrite, Ones, And, FlashService.WriteOne, FlashService.WritePages;
    var t := FlashService.Translate(dev, HIGH_BASE + page * PAGE);
    var d := FlashService.SetWaitStates(t.dev, t.efc, 6);
    assert t.page == page && t.offset == 0;
    WriteOneRuns(d, t.efc, page, bytes);
    OnePage(d, t.efc, page, bytes);
  }

  // One round, on the controller a read has already chosen.
  lemma WriteOneRuns(dev: Device, efc: Efc, page: nat, bytes: seq<bv8>)
    requires Astray(dev) && page < PAGES && |bytes| == PAGE
    ensures
      var w := FlashService.WriteOne(dev, efc, page, 0, bytes, false);
      var r := RunningOf(dev);
      var latch := if (efc == Efc1) != r.Fails(0) then bytes else r.latch;
      && w.rc == SUCCESS && Astray(w.dev)
      && RunningOf(w.dev) == if efc == Efc1
                             then Running(Overwrite(r.cells, page * PAGE, And(r.Page(page), latch)), Ones(PAGE),
                                          r.After(1).misreads)
                             else r.After(1).(latch := latch)
  {
    hide Overwrite, Ones, And;
    var l := FlashService.ComputeAddress(dev, efc, page, 0);
    assert Read(l.dev, l.address, 0, 0) + bytes + Read(l.dev, l.address, PAGE, 0) == bytes;
  }

  lemma OnePage(dev: Device, efc: Efc, page: nat, bytes: seq<bv8>)
    requires dev.Valid() && page < PAGES && |bytes| == PAGE
    ensures
      var w := FlashService.WriteOne(dev, efc, page, 0, bytes, false);
      w.rc == SUCCESS ==> FlashService.WritePages(dev, efc, page, 0, bytes, false) == w
  {
    hide FlashService.WriteOne;
    assert bytes[..PAGE] == bytes && bytes[PAGE..] == [];
  }

  lemma PageWriteRuns(dev: Device, page: nat, bytes: seq<bv8>)
    requires Astray(dev) && page < PAGES && |bytes| == PAGE
    ensures
      var w := PageWrite(dev, HIGH_BASE + page * PAGE, bytes);
      w.rc == SUCCESS && Astray(w.dev) && RunningOf(w.dev) == PageStored(RunningOf(dev), page, bytes)
  {
    hide FlashService.ErasePage, FlashService.Write, Erasing, Writing;
    if page % PAGES_TO_ERASE == 0 {
      EraseRuns(dev, page);
      var e := FlashService.ErasePage(dev, HIGH_BASE + page * PAGE, FlashService.ERASE_PAGES_8);
      WriteRuns(e.dev, page, bytes);
    } else {
      WriteRuns(dev, page, bytes);
    }
  }

  /* One page. */

  // What a page of the running bank holds after it may have been erased, and may have been programmed.
  function PageLeft(held: seq<bv8>, wiped: bool, hit: bool, written: seq<bv8>): (s: seq<bv8>)
    requires |held| == |written| == PAGE
    ensures |s| == PAGE
  {
    var before := if wiped then Ones(PAGE) else held;
    if hit then And(before, written) else before
  }

  // The contents on which that does no harm: what was erased was blank, or is programmed back as it was; what was only
  // programmed has no bit left to clear.
  predicate PageSpared(held: seq<bv8>, wiped: bool, hit: bool, written: seq<bv8>)
    requires |held| == |written| == PAGE
  {
    if wiped && hit then written == held
    else if wiped then held == Ones(PAGE)
    else if hit then And(held, written) == held
    else true
  }

  lemma PageSparedExact(held: seq<bv8>, wiped: bool, hit: bool, written: seq<bv8>)
    requires |held| == |written| == PAGE
    ensures PageLeft(held, wiped, hit, written) == held <==> PageSpared(held, wiped, hit, written)
  {
    hide And, Ones;
    AndOnes(written);
  }

  // Reads that come before the two of the write.
  function ErasingReads(page: nat): nat {
    if page % PAGES_TO_ERASE == 0 then 1 else 0
  }

  predicate Wiped(r: Running, page: nat) {
    page % PAGES_TO_ERASE == 0 && r.Fails(0)
  }

  predicate Hit(r: Running, page: nat) {
    r.Fails(ErasingReads(page))
  }

  // What the latch of the running bank holds when a page is programmed.
  function Latched(r: Running, page: nat, bytes: seq<bv8>): (s: seq<bv8>)
    requires r.Valid() && |bytes| == PAGE
    ensures |s| == PAGE
  {
    if r.Fails(ErasingReads(page)) != r.Fails(ErasingReads(page) + 1) then bytes else r.latch
  }

  lemma FailsAfter(r: Running, n: nat, i: nat)
    ensures r.After(n).Fails(i) == r.Fails(n + i)
    ensures r.After(n).After(i).misreads == r.After(n + i).misreads
  {}

  lemma EraseThenPage(cells: seq<bv8>, page: nat, x: seq<bv8>)
    requires |cells| == BANK && page + 8 <= PAGES && |x| == PAGE
    ensures
      var erased := Overwrite(cells, page * PAGE, Ones(8 * PAGE));
      && erased[page * PAGE..(page + 1) * PAGE] == Ones(PAGE)
      && Overwrite(erased, page * PAGE, x) == Overwrite(cells, page * PAGE, x + Ones(7 * PAGE))
      && Ones(8 * PAGE) == Ones(PAGE) + Ones(7 * PAGE)
  {}

  lemma PageBack(cells: seq<bv8>, page: nat)
    requires |cells| == BANK && page < PAGES
    ensures Overwrite(cells, page * PAGE, cells[page * PAGE..(page + 1) * PAGE] + []) == cells
  {}

  // If the block of a page was erased by mistake, its pages from the k-th on had been blank.
  predicate RestBlank(r: Running, page: nat, k: nat)
    requires r.Valid() && page < PAGES && k <= 8
  {
    Wiped(r, page) ==> r.cells[(page + k) * PAGE..(page + 8) * PAGE] == Ones((8 - k) * PAGE)
  }

  // The other pages of such a block.
  function Rest(r: Running, page: nat): seq<bv8> {
    if Wiped(r, page) then Ones(7 * PAGE) else []
  }

  lemma PageStoredLeaves(r: Running, page: nat, bytes: seq<bv8>)
    requires r.Valid() && page < PAGES && |bytes| == PAGE
    ensures
      var s := PageStored(r, page, bytes);
      var left := PageLeft(r.Page(page), Wiped(r, page), Hit(r, page), Latched(r, page, bytes));
      && s.cells == Overwrite(r.cells, page * PAGE, left + Rest(r, page))
      && s.latch == (if Hit(r, page) then Ones(PAGE) else Latched(r, page, bytes))
      && s.misreads == r.After(ErasingReads(page) + 2).misreads
  {
    hide Overwrite, Ones, And;
    var left := PageLeft(r.Page(page), Wiped(r, page), Hit(r, page), Latched(r, page, bytes));
    if page % PAGES_TO_ERASE == 0 {
      FailsAfter(r, 1, 0);
      FailsAfter(r, 1, 1);
      FailsAfter(r, 1, 2);
      EraseThenPage(r.cells, page, left);
    }
    PageBack(r.cells, page);
    assert left + [] == left;
  }

  lemma OverwriteSame(cells: seq<bv8>, at: nat, x: seq<bv8>)
    requires at + |x| <= |cells|
    ensures Overwrite(cells, at, x) == cells <==> cells[at..at + |x|] == x
  {
    assert Overwrite(cells, at, x)[at..at + |x|] == x;
  }

  lemma SliceParts(cells: seq<bv8>, at: nat, x: seq<bv8>, y: seq<bv8>)
    requires at + |x| + |y| <= |cells|
    ensures cells[at..at + |x + y|] == x + y <==>
            cells[at..at + |x|] == x && cells[at + |x|..at + |x| + |y|] == y
  {
    var all := cells[at..at + |x + y|];
    assert all[..|x|] == cells[at..at + |x|] && all[|x|..] == cells[at + |x|..at + |x| + |y|];
    assert all == all[..|x|] + all[|x|..];
    assert (x + y)[..|x|] == x && (x + y)[|x|..] == y;
  }

  // One round of data_write, commands working: the running image comes through exactly if the banks are not swapped,
  // or the contents of the page and, where the erase went astray, of the seven after it allow for what was done there.
  lemma PageWriteSparesLow(dev: Device, page: nat, bytes: seq<bv8>)
    requires dev.Valid() && dev.CommandsWork() && page < PAGES && |bytes| == PAGE
    ensures
      var r := RunningOf(dev);
      (PageWrite(dev, HIGH_BASE + page * PAGE, bytes).dev.Cells(false) == dev.Cells(false))
      <==> (dev.Swapped() ==>
              && PageSpared(r.Page(page), Wiped(r, page), Hit(r, page), Latched(r, page, bytes))
              && RestBlank(r, page, 1))
  {
    hide PageWrite, PageStored, PageLeft, PageSpared, Overwrite, Ones, Hit, Latched;
    var r := RunningOf(dev);
    UpgradeSafety.PageWriteKeepsLow(dev, HIGH_BASE + page * PAGE, bytes);
    if dev.Swapped() {
      PageWriteRuns(dev, page, bytes);
      PageStoredLeaves(r, page, bytes);
      var left := PageLeft(r.Page(page), Wiped(r, page), Hit(r, page), Latched(r, page, bytes));
      OverwriteSame(r.cells, page * PAGE, left + Rest(r, page));
      SliceParts(r.cells, page * PAGE, left, Rest(r, page));
      PageSparedExact(r.Page(page), Wiped(r, page), Hit(r, page), Latched(r, page, bytes));
    }
  }

  /* One frame. */

  // What programming the second page of frame n has to do with: the erase belonged to the first page.
  function Later(r: Running, n: nat): Running {
    r.After(ErasingReads(2 * n) + 2)
  }

  predicate HitLater(r: Running, n: nat, text: seq<bv8>) {
    |text| > PAGE && Later(r, n).Fails(0)
  }

  function LatchedFirst(r: Running, n: nat, text: seq<bv8>): (s: seq<bv8>)
    requires r.Valid() && |text| <= MAX_PLAINTEXT_LEN
    ensures |s| == PAGE
  {
    Latched(r, 2 * n, Padded(text)[..PAGE])
  }

  function LatchedLater(r: Running, n: nat, text: seq<bv8>): (s: seq<bv8>)
    requires r.Valid() && |text| <= MAX_PLAINTEXT_LEN
    ensures |s| == PAGE
  {
    if Later(r, n).Fails(0) != Later(r, n).Fails(1) then Padded(text)[PAGE..]
    else if Hit(r, 2 * n) then Ones(PAGE)
    else LatchedFirst(r, n, text)
  }

  // The contents of a running image that storing frame n would leave as they are.
  predicate FrameSpared(r: Running, n: nat, text: seq<bv8>)
    requires r.Valid() && n <= MAX_SEQ_NUM && |text| <= MAX_PLAINTEXT_LEN
  {
    var page := 2 * n;
    && PageSpared(r.Page(page), Wiped(r, page), Hit(r, page), LatchedFirst(r, n, text))
    && PageSpared(r.Page(page + 1), Wiped(r, page), HitLater(r, n, text), LatchedLater(r, n, text))
    && RestBlank(r, page, 2)
  }

  function FrameStored(r: Running, n: nat, text: seq<bv8>): (s: Running)
    requires r.Valid() && n <= MAX_SEQ_NUM && |text| <= MAX_PLAINTEXT_LEN
    ensures s.Valid()
  {
    var first := PageStored(r, 2 * n, Padded(text)[..PAGE]);
    if |text| > PAGE then PageStored(first, 2 * n + 1, Padded(text)[PAGE..]) else first
  }

  lemma DataWriteRuns(dev: Device, n: nat, text: seq<bv8>)
    requires Astray(dev) && n <= MAX_SEQ_NUM && 1 <= |text| <= MAX_PLAINTEXT_LEN
    ensures
      var w := DataWrite(dev, n * MAX_PLAINTEXT_LEN + HIGH_BASE, Padded(text), |text|);
      w.rc == SUCCESS && Astray(w.dev) && RunningOf(w.dev) == FrameStored(RunningOf(dev), n, text)
  {
    hide PageWrite, PageStored, DataWrite, Padded;
    var buffer := Padded(text);
    var address := HIGH_BASE + 2 * n * PAGE;
    UpgradeRefinement.DataWriteUnrolls(dev, address, buffer, |text|);
    PageWriteRuns(dev, 2 * n, buffer[..PAGE]);
    if |text| > PAGE {
      PageWriteRuns(PageWrite(dev, address, buffer[..PAGE]).dev, 2 * n + 1, buffer[PAGE..]);
    }
  }

  // Both pages and the rest of the block, as one change of the bank.
  lemma TwoPagesLeft(cells: seq<bv8>, page: nat, x: seq<bv8>, rest: seq<bv8>, y: seq<bv8>)
    requires |cells| == BANK && page + 2 <= PAGES && |x| == |y| == PAGE
    requires rest == [] || (rest == Ones(7 * PAGE) && page + 8 <= PAGES)
    ensures
      var first := Overwrite(cells, page * PAGE, x + rest);
      && first[(page + 1) * PAGE..(page + 2) * PAGE]
         == (if rest == [] then cells[(page + 1) * PAGE..(page + 2) * PAGE] else Ones(PAGE))
      && Overwrite(first, (page + 1) * PAGE, y)
         == Overwrite(cells, page * PAGE, x + (y + if rest == [] then [] else Ones(6 * PAGE)))
  {}

  lemma OnePageLeft(cells: seq<bv8>, page: nat, x: seq<bv8>, rest: seq<bv8>)
    requires |cells| == BANK && page + 2 <= PAGES && |x| == PAGE
    requires rest == [] || (rest == Ones(7 * PAGE) && page + 8 <= PAGES)
    ensures
      var y := if rest == [] then cells[(page + 1) * PAGE..(page + 2) * PAGE] else Ones(PAGE);
      Overwrite(cells, page * PAGE, x + rest)
      == Overwrite(cells, page * PAGE, x + (y + if rest == [] then [] else Ones(6 * PAGE)))
  {
    if rest != [] {
      assert Ones(7 * PAGE) == Ones(PAGE) + Ones(6 * PAGE);
    }
  }

  function SecondLeft(r: Running, n: nat, text: seq<bv8>): (s: seq<bv8>)
    requires r.Valid() && n <= MAX_SEQ_NUM && |text| <= MAX_PLAINTEXT_LEN
    ensures |s| == PAGE
  {
    PageLeft(r.Page(2 * n + 1), Wiped(r, 2 * n), HitLater(r, n, text), LatchedLater(r, n, text))
  }

  function FirstLeft(r: Running, n: nat, text: seq<bv8>): (s: seq<bv8>)
    requires r.Valid() && n <= MAX_SEQ_NUM && |text| <= MAX_PLAINTEXT_LEN
    ensures |s| == PAGE
  {
    PageLeft(r.Page(2 * n), Wiped(r, 2 * n), Hit(r, 2 * n), LatchedFirst(r, n, text))
  }

  function BlockRest(r: Running, n: nat): seq<bv8> {
    if Wiped(r, 2 * n) then Ones(6 * PAGE) else []
  }

  lemma SecondStored(r: Running, n: nat, text: seq<bv8>)
    requires r.Valid() && n <= MAX_SEQ_NUM && PAGE < |text| <= MAX_PLAINTEXT_LEN
    ensures
      var first := PageStored(r, 2 * n, Padded(text)[..PAGE]);
      var held := if Wiped(r, 2 * n) then Ones(PAGE) else r.Page(2 * n + 1);
      first.Page(2 * n + 1) == held ==>
        PageStored(first, 2 * n + 1, Padded(text)[PAGE..]).cells
        == Overwrite(first.cells, (2 * n + 1) * PAGE, SecondLeft(r, n, text))
  {
    hide PageStored, PageLeft, Overwrite, Ones, Padded, Hit, Wiped, Latched, LatchedLater, Later;
    var page := 2 * n;
    var bytes := Padded(text)[PAGE..];
    var first := PageStored(r, page, Padded(text)[..PAGE]);
    PageStoredLeaves(r, page, Padded(text)[..PAGE]);
    PageStoredLeaves(first, page + 1, bytes);
    LaterReads(r, first, page + 1, n);
    LaterLatch(r, first, n, text);
    LeftLater(r.Page(page + 1), Wiped(r, page), HitLater(r, n, text), LatchedLater(r, n, text));
    assert SecondLeft(r, n, text) + [] == SecondLeft(r, n, text);
  }

  lemma LaterReads(r: Running, first: Running, page: nat, n: nat)
    requires first.misreads == r.After(ErasingReads(2 * n) + 2).misreads && page % 2 == 1
    ensures !Wiped(first, page) && Rest(first, page) == [] && Hit(first, page) == Later(r, n).Fails(0)
    ensures first.Fails(ErasingReads(page)) == Later(r, n).Fails(0)
    ensures first.Fails(ErasingReads(page) + 1) == Later(r, n).Fails(1)
  {
    hide Ones;
  }

  lemma LaterLatch(r: Running, first: Running, n: nat, text: seq<bv8>)
    requires r.Valid() && first.Valid() && n <= MAX_SEQ_NUM && |text| <= MAX_PLAINTEXT_LEN
    requires first.misreads == r.After(ErasingReads(2 * n) + 2).misreads
    requires first.latch == if Hit(r, 2 * n) then Ones(PAGE) else Latched(r, 2 * n, Padded(text)[..PAGE])
    ensures Latched(first, 2 * n + 1, Padded(text)[PAGE..]) == LatchedLater(r, n, text)
  {
    hide Ones, Padded, Hit;
    LaterReads(r, first, 2 * n + 1, n);
  }

  // A page that was erased before is like one found blank.
  lemma LeftLater(held: seq<bv8>, wiped: bool, hit: bool, written: seq<bv8>)
    requires |held| == |written| == PAGE
    ensures PageLeft(if wiped then Ones(PAGE) else held, false, hit, written) == PageLeft(held, wiped, hit, written)
  {
    hide Ones, And;
  }

  lemma FrameLeaves(r: Running, n: nat, text: seq<bv8>)
    requires r.Valid() && n <= MAX_SEQ_NUM && 1 <= |text| <= MAX_PLAINTEXT_LEN
    ensures FrameStored(r, n, text).cells
         == Overwrite(r.cells, 2 * n * PAGE, FirstLeft(r, n, text) + (SecondLeft(r, n, text) + BlockRest(r, n)))
  {
    hide PageStored, Overwrite, Ones, And, Padded, Hit, PageLeft, LatchedLater, Later;
    var page := 2 * n;
    PageStoredLeaves(r, page, Padded(text)[..PAGE]);
    if |text| > PAGE {
      TwoPagesLeft(r.cells, page, FirstLeft(r, n, text), Rest(r, page), SecondLeft(r, n, text));
      SecondStored(r, n, text);
    } else {
      OnePageLeft(r.cells, page, FirstLeft(r, n, text), Rest(r, page));
      NotHit(r.Page(page + 1), Wiped(r, page), LatchedLater(r, n, text));
    }
  }

  lemma NotHit(held: seq<bv8>, wiped: bool, written: seq<bv8>)
    requires |held| == |written| == PAGE
    ensures PageLeft(held, wiped, false, written) == if wiped then Ones(PAGE) else held
  {}

  lemma FrameSparedExact(r: Running, n: nat, text: seq<bv8>)
    requires r.Valid() && n <= MAX_SEQ_NUM && 1 <= |text| <= MAX_PLAINTEXT_LEN
    ensures FrameStored(r, n, text).cells == r.cells <==> FrameSpared(r, n, text)
  {
    hide FrameStored, PageLeft, PageSpared, Overwrite, Ones, Hit, HitLater, LatchedFirst, LatchedLater;
    var page := 2 * n;
    var x, y, z := FirstLeft(r, n, text), SecondLeft(r, n, text), BlockRest(r, n);
    FrameLeaves(r, n, text);
    OverwriteSame(r.cells, page * PAGE, x + (y + z));
    SliceParts(r.cells, page * PAGE, x, y + z);
    SliceParts(r.cells, (page + 1) * PAGE, y, z);
    PageSparedExact(r.Page(page), Wiped(r, page), Hit(r, page), LatchedFirst(r, n, text));
    PageSparedExact(r.Page(page + 1), Wiped(r, page), HitLater(r, n, text), LatchedLater(r, n, text));
  }

  /* A packet. */

  // The guards a packet passes before anything is written.
  predicate IsStored(node: Node, v: View, gcmOk: bool) {
    && Validate(v) == Valid && TypeOf(v) == DATA_FRAME && node.session.authenticated
    && node.session.number + 1 == SeqOf(v) <= MAX_SEQ_NUM && 1 <= LenOf(v) <= MAX_PLAINTEXT_LEN && gcmOk
  }

  lemma NotStored(cipher: Cipher, node: Node, v: View, gcmOk: bool, now: nat)
    requires node.dev.Valid() && !IsStored(node, v, gcmOk)
    ensures Handle(cipher, node, v, gcmOk, now).node.dev == node.dev
  {
    hide Validate, TypeOf, SeqOf, LenOf, PayloadOf, CommandOf, Crypt, Swap32, StoreFrame, DataAck, IvOf, TagOf;
    hide ImageCrc;
  }

  lemma IsStoredWrites(cipher: Cipher, node: Node, v: View, gcmOk: bool, now: nat)
    requires node.dev.Valid() && IsStored(node, v, gcmOk)
    ensures
      var text := Crypt(cipher, node.session.iv, PayloadOf(v));
      Handle(cipher, node, v, gcmOk, now) == StoreFrame(node, SeqOf(v), text, DataAck(v))
  {
    hide Validate, TypeOf, SeqOf, LenOf, PayloadOf, Crypt, Swap32, StoreFrame, DataAck;
    TypesDiffer();
  }

  // With flash commands that work and whatever reads fail: a packet leaves the running image as it is exactly if it
  // does not get as far as being stored, or the banks are not swapped, or the contents allow for it.
  lemma PacketSparesLow(cipher: Cipher, node: Node, v: View, gcmOk: bool, now: nat)
    requires node.dev.Valid() && node.dev.CommandsWork()
    ensures
      var text := Crypt(cipher, node.session.iv, PayloadOf(v));
      (Handle(cipher, node, v, gcmOk, now).node.dev.Cells(false) == node.dev.Cells(false))
      <==> (IsStored(node, v, gcmOk) && node.dev.Swapped() ==> FrameSpared(RunningOf(node.dev), SeqOf(v), text))
  {
    hide Handle, IsStored, FrameSpared, FrameStored, Validate, TypeOf, SeqOf, LenOf, PayloadOf, Crypt, DataAck;
    hide DataWrite, Intact, Padded;
    UpgradeSafety.PacketKeepsLow(cipher, node, v, gcmOk, now);
    if !IsStored(node, v, gcmOk) {
      NotStored(cipher, node, v, gcmOk, now);
    } else if node.dev.Swapped() {
      var text := Crypt(cipher, node.session.iv, PayloadOf(v));
      StoredSize(node, v, gcmOk);
      IsStoredWrites(cipher, node, v, gcmOk, now);
      DataWriteRuns(node.dev, SeqOf(v), text);
      FrameSparedExact(RunningOf(node.dev), SeqOf(v), text);
    }
  }

  lemma StoredSize(node: Node, v: View, gcmOk: bool)
    requires IsStored(node, v, gcmOk)
    ensures SeqOf(v) <= MAX_SEQ_NUM && 1 <= |PayloadOf(v)| <= MAX_PLAINTEXT_LEN
  {
    hide Validate, TypeOf, SeqOf;
  }

  /* What the host is told. */

  // Only the read that directs the erase fails.
  predicate FirstFails(r: Running) {
    r.Fails(0) && forall i :: 1 <= i < |r.misreads| ==> !r.misreads[i]
  }

  predicate BlankAt(cells: seq<bv8>, at: nat, n: nat) {
    at + n <= |cells| && cells[at..at + n] == Ones(n)
  }

  lemma MisdirectedErase(dev: Device, page: nat)
    requires Astray(dev) && FirstFails(RunningOf(dev)) && page < PAGES && page % PAGES_TO_ERASE == 0
    ensures
      var e := FlashService.ErasePage(dev, HIGH_BASE + page * PAGE, FlashService.ERASE_PAGES_8);
      e.rc == SUCCESS && e.dev.Valid() && e.dev.Works() && e.dev.Swapped() && e.dev.Cells(true) == dev.Cells(true)
  {
    hide EraseStart, EraseCount, Overwrite, Ones, FlashService.OrCode;
    FlashService.EightPages(page);
  }

  lemma OpenedBlank(cells: seq<bv8>, n: nat)
    requires |cells| == BANK && n <= MAX_SEQ_NUM && n % 4 == 0
    requires BlankAt(cells, n * MAX_PLAINTEXT_LEN, 4 * MAX_PLAINTEXT_LEN)
    ensures Opened(cells, n) == cells && Erased(cells, n * MAX_PLAINTEXT_LEN, (n + 4) * MAX_PLAINTEXT_LEN)
  {
    var at := n * MAX_PLAINTEXT_LEN;
    forall i | at <= i < at + 4 * MAX_PLAINTEXT_LEN
      ensures cells[i] == 0xFF
    {
      assert cells[i] == cells[at..at + 4 * MAX_PLAINTEXT_LEN][i - at];
    }
  }

  // The first page of a frame reaches the spare bank although its erase went astray.
  lemma FirstPageLands(dev: Device, n: nat, buffer: seq<bv8>)
    requires Astray(dev) && FirstFails(RunningOf(dev)) && n <= MAX_SEQ_NUM && n % 4 == 0
    requires BlankAt(dev.Cells(true), n * MAX_PLAINTEXT_LEN, 4 * MAX_PLAINTEXT_LEN) && |buffer| == MAX_PLAINTEXT_LEN
    ensures
      var at := n * MAX_PLAINTEXT_LEN;
      var w := PageWrite(dev, HIGH_BASE + at, buffer[..PAGE]);
      && w.rc == SUCCESS && w.dev.Valid() && w.dev.Works() && w.dev.Swapped()
      && w.dev.Cells(true) == Overwrite(dev.Cells(true), at, buffer[..PAGE])
  {
    hide FlashService.ErasePage, FlashService.Write, Overwrite, FlashService.Patched, Erased;
    var at := n * MAX_PLAINTEXT_LEN;
    MisdirectedErase(dev, 2 * n);
    var e := FlashService.ErasePage(dev, HIGH_BASE + at, FlashService.ERASE_PAGES_8);
    FlashService.WriteExact(e.dev, HIGH_BASE + at, buffer[..PAGE], false);
    OpenedBlank(dev.Cells(true), n);
    UpgradeRefinement.ErasedPart(dev.Cells(true), at, (n + 4) * MAX_PLAINTEXT_LEN, at + PAGE);
    UpgradeRefinement.AndErased(dev.Cells(true), at, buffer[..PAGE]);
  }

  lemma FrameLands(dev: Device, n: nat, text: seq<bv8>)
    requires Astray(dev) && FirstFails(RunningOf(dev)) && n <= MAX_SEQ_NUM && n % 4 == 0
    requires BlankAt(dev.Cells(true), n * MAX_PLAINTEXT_LEN, 4 * MAX_PLAINTEXT_LEN) && 1 <= |text| <= MAX_PLAINTEXT_LEN
    ensures
      var w := DataWrite(dev, n * MAX_PLAINTEXT_LEN + HIGH_BASE, Padded(text), |text|);
      w.rc == SUCCESS && w.dev.Valid() && w.dev.Swapped() && w.dev.Cells(true) == Place(dev.Cells(true), n, text)
  {
    hide Overwrite, PageWrite, Erased, Padded, DataWrite, Opened, BlankAt, FirstFails, BlockEnd;
    var at := n * MAX_PLAINTEXT_LEN;
    var cells := dev.Cells(true);
    var buffer := Padded(text);
    UpgradeRefinement.DataWriteUnrolls(dev, HIGH_BASE + at, buffer, |text|);
    FirstPageLands(dev, n, buffer);
    OpenedBlank(cells, n);
    NothingBefore(cells, n);
    if |text| > PAGE {
      UpgradeRefinement.SecondPage(PageWrite(dev, HIGH_BASE + at, buffer[..PAGE]).dev, n, buffer, cells);
    } else {
      UpgradeRefinement.PaddedTail(text);
      UpgradeRefinement.ErasedPart(cells, at, (n + 4) * MAX_PLAINTEXT_LEN, at + MAX_PLAINTEXT_LEN);
      UpgradeRefinement.TwoPages(cells, at, buffer);
    }
  }

  lemma NothingBefore(cells: seq<bv8>, n: nat)
    requires n % 4 == 0
    ensures Erased(cells, n * MAX_PLAINTEXT_LEN, BlockEnd(n))
  {}

  // A misread that goes unnoticed. The frame opens a block that was blank already in the spare bank; the erase it
  // orders hits the running one. The frame is stored, read back and acknowledged, and a block of the running image is
  // gone.
  lemma AcknowledgedAllTheSame(cipher: Cipher, node: Node, v: View, gcmOk: bool, now: nat)
    requires Astray(node.dev) && IsStored(node, v, gcmOk) && FirstFails(RunningOf(node.dev)) && SeqOf(v) % 4 == 0
    requires BlankAt(node.dev.Cells(true), SeqOf(v) * MAX_PLAINTEXT_LEN, 4 * MAX_PLAINTEXT_LEN)
    requires !BlankAt(node.dev.Cells(false), SeqOf(v) * MAX_PLAINTEXT_LEN, 4 * MAX_PLAINTEXT_LEN)
    ensures
      var a := Handle(cipher, node, v, gcmOk, now);
      var text := Crypt(cipher, node.session.iv, PayloadOf(v));
      && a.rc == SUCCESS && a.ack == DataAck(v)
      && a.node.dev.Cells(true) == Place(node.dev.Cells(true), SeqOf(v), text)
      && a.node.dev.Swapped() && a.node.dev.Cells(false) != node.dev.Cells(false)
  {
    hide Handle, Validate, TypeOf, SeqOf, LenOf, PayloadOf, Crypt, DataAck, DataWrite, Padded, Place, FrameSpared;
    hide BlankAt, FirstFails;
    var n := SeqOf(v);
    var text := Crypt(cipher, node.session.iv, PayloadOf(v));
    StoredSize(node, v, gcmOk);
    IsStoredWrites(cipher, node, v, gcmOk, now);
    FrameLands(node.dev, n, text);
    UpgradeRefinement.PlacedIntact(node.dev.Cells(true), n, text);
    PacketSparesLow(cipher, node, v, gcmOk, now);
    if FrameSpared(RunningOf(node.dev), n, text) {
      BlankIfSpared(RunningOf(node.dev), n, text);
    }
  }

  lemma BlankIfSpared(r: Running, n: nat, text: seq<bv8>)
    requires r.Valid() && n <= MAX_SEQ_NUM && n % 4 == 0 && 1 <= |text| <= MAX_PLAINTEXT_LEN
    requires FirstFails(r) && FrameSpared(r, n, text)
    ensures BlankAt(r.cells, n * MAX_PLAINTEXT_LEN, 4 * MAX_PLAINTEXT_LEN)
  {
    hide LatchedFirst, LatchedLater;
    var at := n * MAX_PLAINTEXT_LEN;
    assert Later(r, n).Fails(0) == r.Fails(3);
    assert r.cells[at..at + 8 * PAGE] == r.Page(2 * n) + r.Page(2 * n + 1) + r.cells[at + 2 * PAGE..at + 8 * PAGE];
  }

  // A frame in memory that is zero behind it.
  function Alone(frame: seq<bv8>): (v: View)
    requires |frame| <= VIEW
    ensures Carries(v, frame)
  {
    var v := frame + seq(VIEW - |frame|, _ => 0);
    assert v[..|frame|] == frame;
    v
  }

  // A device in a session that has just begun.
  function Beginning(dev: Device): Node {
    Node(Session(true, -1, 0, InitialIv()), Timer(false, 0, 0), dev)
  }

  lemma MisreadingIs()
    ensures
      var dev := UpgradeSafety.Misreading();
      && Astray(dev) && FirstFails(RunningOf(dev))
      && BlankAt(dev.Cells(true), 0, 4 * MAX_PLAINTEXT_LEN) && !BlankAt(dev.Cells(false), 0, 4 * MAX_PLAINTEXT_LEN)
  {
    var dev := UpgradeSafety.Misreading();
    assert dev.Cells(false)[0..4 * MAX_PLAINTEXT_LEN][0] != Ones(4 * MAX_PLAINTEXT_LEN)[0];
  }

  lemma DataFrameFits(payload: seq<bv8>)
    requires |payload| <= MAX_PLAINTEXT_LEN
    ensures |DataFrame(0, payload)| <= VIEW
  {
    hide Crc32.Crc, Sent32, DataBody;
    BodyParts(0, payload);
  }

  function FirstFrame(payload: seq<bv8>): (v: View)
    requires 1 <= |payload| <= MAX_PLAINTEXT_LEN
    ensures Carries(v, DataFrame(0, payload))
  {
    DataFrameFits(payload);
    Alone(DataFrame(0, payload))
  }

  // One: whatever the first frame of an update holds.
  lemma FirstFrameErasesRunning(cipher: Cipher, payload: seq<bv8>)
    requires 1 <= |payload| <= MAX_PLAINTEXT_LEN
    ensures
      var node := Beginning(UpgradeSafety.Misreading());
      var a := Handle(cipher, node, FirstFrame(payload), true, 0);
      a.rc == SUCCESS && a.node.dev.Swapped() && a.node.dev.Cells(false) != node.dev.Cells(false)
  {
    hide Handle, Validate, TypeOf, SeqOf, LenOf, PayloadOf, DataAck, DataFrame, UpgradeSafety.Misreading, BlankAt;
    hide FirstFails, FirstFrame, Place, Crypt;
    var v := FirstFrame(payload);
    DataReads(v, 0, payload);
    MisreadingIs();
    AcknowledgedAllTheSame(cipher, Beginning(UpgradeSafety.Misreading()), v, true, 0);
  }
}
