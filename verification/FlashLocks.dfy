/**
 Region locks of flash_efc.c: which 8 KiB regions flash_lock and flash_unlock change, and what flash_is_locked
 counts as it walks the stream of 32-bit status words.
 */
module FlashLocks {
  import opened NorFlash
  import opened Numbers
  import opened FlashService

  // The range widened to whole regions.
  function ActualStart(start: nat): nat {
    start - start % REGION
  }

  function ActualEnd(end: nat): nat {
    end - end % REGION + REGION - 1
  }

  lemma Widened(start: nat, end: nat)
    ensures ActualStart(start) % REGION == 0 && ActualStart(start) <= start < ActualStart(start) + REGION
    ensures (ActualEnd(end) + 1) % REGION == 0 && end <= ActualEnd(end) < end + REGION
  {
    assert start - start % REGION == REGION * (start / REGION);
    assert end - end % REGION + REGION == REGION * (end / REGION + 1);
  }

  function RegionOf(address: nat): nat
    requires InFlash(address)
  {
    Offset(address) / REGION
  }

  lemma PageRegion(page: nat, address: nat)
    requires InFlash(address) && page * PAGE <= Offset(address) < (page + 1) * PAGE
    ensures page / (REGION / PAGE) == RegionOf(address)
  {
    assert page == 16 * (page / 16) + page % 16;
  }

  function ChangeLocks(dev: Device, efc: Efc, page: nat, endPage: nat, lock: bool): (r: Reply)
    requires dev.Valid()
    ensures r.dev.Valid()
    decreases endPage - page
  {
    if page >= endPage then Reply(dev, RC_OK)
    else
      var r := ChangeLock(dev, efc, page, lock);
      if r.rc != 0 then r else ChangeLocks(r.dev, efc, page + REGION / PAGE, endPage, lock)
  }

  // flash_lock, or flash_unlock. The range decides the controller by its start alone.
  function LockRange(dev: Device, start: nat, end: nat, lock: bool): (r: Reply)
    requires dev.Valid() && InFlash(start) && InFlash(end)
    ensures r.dev.Valid()
  {
    var first := Translate(dev, ActualStart(start));
    var last := Translate(first.dev, ActualEnd(end));
    ChangeLocks(last.dev, first.efc, first.page, last.page, lock)
  }

  predicate Within(r: nat, lo: nat, hi: nat) {
    lo <= r < hi
  }

  function Regions(lo: nat, hi: nat): set<nat> {
    set r: nat | r < hi && Within(r, lo, hi)
  }

  ghost predicate Relocked(dev: Device, dev': Device, efc: Efc, locked: set<nat>) {
    && dev'.Of(efc).locked == locked
    && dev'.Of(efc).cells == dev.Of(efc).cells
    && dev'.Of(Other(efc)) == dev.Of(Other(efc))
    && dev'.gpnvm == dev.gpnvm
  }

  function Relock(locked: set<nat>, regions: set<nat>, lock: bool): set<nat> {
    if lock then locked + regions else locked - regions
  }

  lemma RegionPages(lo: nat, hi: nat)
    requires lo < hi
    ensures Regions(lo, hi) == {lo} + Regions(lo + 1, hi)
  {}

  lemma {:induction false} ChangeLocksExact(dev: Device, efc: Efc, lo: nat, hi: nat, lock: bool)
    requires dev.Valid() && dev.CommandsWork() && hi <= REGIONS
    ensures
      var r := ChangeLocks(dev, efc, 16 * lo, 16 * hi + 15, lock);
      && r.rc == RC_OK
      && Relocked(dev, r.dev, efc, Relock(dev.Of(efc).locked, Regions(lo, Min(hi + 1, REGIONS)), lock))
    decreases hi + 1 - lo
  {
    hide Regions;
    if lo > hi {
      NoRegions(lo, Min(hi + 1, REGIONS));
    } else {
      var r := ChangeLock(dev, efc, 16 * lo, lock);
      assert 16 * lo / (REGION / PAGE) == lo;
      ChangeLocksExact(r.dev, efc, lo + 1, hi, lock);
      if lo < REGIONS {
        RegionPages(lo, Min(hi + 1, REGIONS));
      } else {
        NoRegions(lo, REGIONS);
        NoRegions(lo + 1, REGIONS);
      }
    }
  }

  lemma NoRegions(lo: nat, hi: nat)
    requires lo >= hi
    ensures Regions(lo, hi) == {}
  {}

  lemma ActualPages(dev: Device, start: nat, end: nat)
    requires InFlash(start) && InFlash(end)
    ensures InFlash(ActualStart(start)) && High(ActualStart(start)) == High(start)
    ensures Mappable(ActualEnd(end)) && High(ActualEnd(end)) == High(end)
    ensures Translate(dev, ActualStart(start)).page == 16 * RegionOf(start)
    ensures Translate(dev, ActualEnd(end)).page == 16 * RegionOf(end) + 15
    ensures RegionOf(start) <= REGIONS && RegionOf(end) <= REGIONS
  {
  }

  // The regions of a bank that flash_lock adds to the locked ones, and flash_unlock removes: in the bank mapped at the
  // start, from the number of the region holding the start to the number of the region holding the end.
  function Ranged(start: nat, end: nat, high: bool): set<nat>
    requires InFlash(start) && InFlash(end)
  {
    if high == High(start) then Regions(RegionOf(start), Min(RegionOf(end) + 1, REGIONS)) else {}
  }

  lemma LockRangeExact(dev: Device, start: nat, end: nat, lock: bool)
    requires dev.Valid() && dev.Works() && InFlash(start) && InFlash(end)
    ensures
      var r := LockRange(dev, start, end, lock);
      && r.rc == RC_OK
      && (forall high ::
            var bank := dev.Of(dev.Mapped(high));
            && r.dev.Of(dev.Mapped(high)).locked == Relock(bank.locked, Ranged(start, end, high), lock)
            && r.dev.Cells(high) == bank.cells)
      && r.dev.gpnvm == dev.gpnvm
  {
    hide ChangeLocks, ActualStart, ActualEnd, Regions;
    ActualPages(dev, start, end);
    var first := Translate(dev, ActualStart(start));
    ActualPages(first.dev, start, end);
    var last := Translate(first.dev, ActualEnd(end));
    ChangeLocksExact(last.dev, first.efc, RegionOf(start), RegionOf(end), lock);
  }

  // How many of the next n commands work before one fails.
  function Leading(outcomes: seq<Outcome>, n: nat): (k: nat)
    ensures k <= n
    decreases n
  {
    if n == 0 then 0
    else if outcomes == [] then n
    else if outcomes[0].Failed? then 0
    else 1 + Leading(outcomes[1..], n - 1)
  }

  lemma LeadingStep(dev: Device, n: nat)
    requires n > 0
    ensures Leading(dev.outcomes, n) == if dev.Next().Done? then 1 + Leading(dev.Consumed().outcomes, n - 1) else 0
  {}

  lemma {:induction false} ChangeLocksStop(dev: Device, efc: Efc, lo: nat, hi: nat, lock: bool)
    requires dev.Valid() && lo <= hi + 1 && hi <= REGIONS
    ensures
      var r := ChangeLocks(dev, efc, 16 * lo, 16 * hi + 15, lock);
      var done := Leading(dev.outcomes, hi + 1 - lo);
      && r.rc == FirstFlags(dev.outcomes, hi + 1 - lo)
      && Relocked(dev, r.dev, efc, Relock(dev.Of(efc).locked, Regions(lo, Min(lo + done, REGIONS)), lock))
    decreases hi + 1 - lo
  {
    hide Regions, Leading, FirstFlags;
    if lo > hi {
      NoRegions(lo, Min(lo, REGIONS));
      NothingToDo(dev.outcomes);
    } else {
      var r := ChangeLock(dev, efc, 16 * lo, lock);
      assert 16 * lo / (REGION / PAGE) == lo;
      LeadingStep(dev, hi + 1 - lo);
      FlagsStep(dev, hi + 1 - lo);
      if r.rc == 0 {
        ChangeLocksStop(r.dev, efc, lo + 1, hi, lock);
        var end := Min(lo + Leading(dev.outcomes, hi + 1 - lo), REGIONS);
        if lo < REGIONS {
          RegionPages(lo, end);
        } else {
          NoRegions(lo, REGIONS);
          NoRegions(lo + 1, REGIONS);
        }
      } else {
        NoRegions(lo, Min(lo, REGIONS));
      }
    }
  }

  lemma NothingToDo(outcomes: seq<Outcome>)
    ensures Leading(outcomes, 0) == 0 && FirstFlags(outcomes, 0) == 0
  {}

  // On every device: flash_lock and flash_unlock work through the regions from the start on and stop at the first
  // command that fails; its error flags are the answer, and the regions before it stay changed.
  lemma LockRangeStops(dev: Device, start: nat, end: nat, lock: bool)
    requires dev.Valid() && InFlash(start) && InFlash(end) && RegionOf(start) <= RegionOf(end)
    ensures
      var r := LockRange(dev, start, end, lock);
      var efc := Translate(dev, start).efc;
      var n := RegionOf(end) + 1 - RegionOf(start);
      var stop := Min(RegionOf(start) + Leading(dev.outcomes, n), REGIONS);
      && r.rc == FirstFlags(dev.outcomes, n)
      && Relocked(dev, r.dev, efc, Relock(dev.Of(efc).locked, Regions(RegionOf(start), stop), lock))
  {
    hide ChangeLocks, ActualStart, ActualEnd, Regions, Leading, FirstFlags;
    ActualPages(dev, start, end);
    var first := Translate(dev, ActualStart(start));
    ActualPages(first.dev, start, end);
    var last := Translate(first.dev, ActualEnd(end));
    ChangeLocksStop(last.dev, first.efc, RegionOf(start), RegionOf(end), lock);
  }

  predicate Shares(region: nat, high: bool, a: nat, start: nat, end: nat) {
    start <= a <= end && InFlash(a) && High(a) == high && RegionOf(a) == region
  }

  // A region of the bank mapped high, or low, has an address in common with the range.
  ghost predicate Meets(region: nat, high: bool, start: nat, end: nat) {
    region < REGIONS && exists a :: Shares(region, high, a, start, end)
  }

  ghost predicate ChangesWhatMeets(start: nat, end: nat)
    requires InFlash(start) && InFlash(end)
  {
    forall high, region :: region in Ranged(start, end, high) <==> Meets(region, high, start, end)
  }

  lemma SameBankMeets(start: nat, end: nat, high: bool, region: nat)
    requires InFlash(start) && InFlash(end) && start <= end && (High(start) <==> High(end))
    ensures region in Ranged(start, end, high) <==> Meets(region, high, start, end)
  {
    if region in Ranged(start, end, high) {
      var base := if high then HIGH_BASE else LOW_BASE;
      var a := if region == RegionOf(start) then start else base + region * REGION;
      assert Shares(region, high, a, start, end);
    }
  }

  // Those are the regions that meet the range exactly when the range does not reach from one bank into the other; then
  // the whole of the second bank is left alone.
  lemma RegionsMeet(start: nat, end: nat)
    requires InFlash(start) && InFlash(end) && start <= end
    ensures ChangesWhatMeets(start, end) <==> (High(start) <==> High(end))
  {
    if High(start) == High(end) {
      forall high, region
        ensures region in Ranged(start, end, high) <==> Meets(region, high, start, end)
      {
        SameBankMeets(start, end, high, region);
      }
    } else {
      assert Shares(0, true, HIGH_BASE, start, end);
      assert Meets(0, true, start, end) && 0 !in Ranged(start, end, true);
    }
  }

  /* Counting. */

  // The w-th word read back after GLB, least significant bit first.
  function StatusWord(locked: set<nat>, w: nat): (s: seq<bool>)
    ensures |s| == 32
  {
    seq(32, b requires 0 <= b < 32 => 32 * w + b in locked)
  }

  // How many of the regions lo .. hi - 1 are locked.
  function LockedCount(locked: set<nat>, lo: nat, hi: nat): nat
    decreases hi - lo
  {
    if lo >= hi then 0 else LockedCount(locked, lo, hi - 1) + if hi - 1 in locked then 1 else 0
  }

  lemma NextRegion(lo: nat, hi: nat)
    requires lo <= hi
    ensures Regions(lo, hi + 1) == Regions(lo, hi) + {hi} && hi !in Regions(lo, hi)
  {}

  lemma SizeWith(locked: set<nat>, regions: set<nat>, r: nat)
    requires r !in regions
    ensures |locked * (regions + {r})| == |locked * regions| + if r in locked then 1 else 0
  {
    if r in locked {
      assert locked * (regions + {r}) == locked * regions + {r};
    } else {
      assert locked * (regions + {r}) == locked * regions;
    }
  }

  lemma {:induction false} LockedCountIsSize(locked: set<nat>, lo: nat, hi: nat)
    ensures LockedCount(locked, lo, hi) == |locked * Regions(lo, hi)|
    decreases hi - lo
  {
    hide Regions;
    if lo < hi {
      LockedCountIsSize(locked, lo, hi - 1);
      NextRegion(lo, hi - 1);
      SizeWith(locked, Regions(lo, hi - 1), hi - 1);
    } else {
      NoRegions(lo, hi);
      assert locked * {} == {};
    }
  }

  // The number of regions flash_is_locked looks at is computed in 32 bits.
  function RegionsLookedAt(start: nat, end: nat): nat
    requires InFlash(start) && InFlash(end)
  {
    (RegionOf(end) - RegionOf(start) + 1) % 0x1_0000_0000
  }

  // Beyond the last region the result register reads as zero.
  lemma {:induction false} NothingBeyond(bank: Bank, lo: nat, hi: nat)
    requires bank.Valid() && lo <= REGIONS <= hi
    ensures LockedCount(bank.locked, lo, hi) == LockedCount(bank.locked, lo, REGIONS)
    decreases hi
  {
    if hi > REGIONS {
      NothingBeyond(bank, lo, hi - 1);
    }
  }

  // Every range the assertion in flash_is_locked lets in, but for those that end one past the low bank: the count is
  // the number of locked regions from the one holding the start to the one holding the end.
  lemma CountInBank(bank: Bank, start: nat, end: nat)
    requires bank.Valid() && InFlash(start) && start <= end
    requires if High(start) then end <= HIGH_BASE + BANK else end < HIGH_BASE
    ensures LockedCount(bank.locked, RegionOf(start), RegionOf(start) + RegionsLookedAt(start, end))
         == |bank.locked * Regions(RegionOf(start), RegionOf(end) + 1)|
  {
    LockedCountIsSize(bank.locked, RegionOf(start), RegionOf(end) + 1);
  }

  lemma {:induction false} CountSplits(locked: set<nat>, lo: nat, mid: nat, hi: nat)
    requires lo <= mid <= hi
    ensures LockedCount(locked, lo, hi) == LockedCount(locked, lo, mid) + LockedCount(locked, mid, hi)
    decreases hi
  {
    if mid < hi {
      CountSplits(locked, lo, mid, hi - 1);
    }
  }

  // The assertion in flash_is_locked also lets in the address one past the low bank, which translates to the first
  // page of the other one. The answer is then the number of locked regions from start to the end of the bank
  // exactly when the count wraps round (start in region 2 or later) or regions 1 to 127 are all unlocked.
  lemma CountAtBankEnd(bank: Bank, start: nat)
    requires bank.Valid() && LOW_BASE <= start < HIGH_BASE
    ensures
      var first := RegionOf(start);
      (LockedCount(bank.locked, first, first + RegionsLookedAt(start, HIGH_BASE))
         == LockedCount(bank.locked, first, REGIONS))
      <==> (first >= 2 || LockedCount(bank.locked, 1, REGIONS) == 0)
  {
    var first := RegionOf(start);
    if first >= 2 {
      NothingBeyond(bank, first, first + RegionsLookedAt(start, HIGH_BASE));
    } else if first == 0 {
      CountSplits(bank.locked, 0, 1, REGIONS);
    }
  }
}
