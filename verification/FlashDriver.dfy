/**
 The flash service in the form flash_efc.c gives it: methods that drive the two controllers in place and share
 one page buffer. Each is proved to compute the function of FlashService or FlashLocks that specifies it.
 */
module FlashDriver {
  import opened NorFlash
  import opened Numbers
  import opened FlashService
  import opened FlashLocks

  class Flash {
    var dev: Device
    const pageBuffer: array<bv8>

    ghost predicate Valid()
      reads this
    {
      dev.Valid() && pageBuffer.Length == PAGE
    }

    constructor (dev: Device)
      requires dev.Valid()
      ensures Valid() && this.dev == dev && fresh(pageBuffer)
    {
      this.dev := dev;
      pageBuffer := new bv8[PAGE](_ => 0);
    }

    method IsGpnvm(bit: nat) returns (rc: nat)
      modifies this`dev
      ensures Reply(dev, rc) == IsGpnvmSet(old(dev), bit)
    {
      if bit >= GPNVM_NUM_MAX {
        return RC_INVALID;
      }
      var failed := dev.Misread();
      dev := dev.ReadConsumed();
      if failed {
        return RC_ERROR;
      }
      return if bit in dev.gpnvm then RC_YES else RC_NO;
    }

    method ChangeGpnvmBit(bit: nat, setBit: bool) returns (rc: nat)
      modifies this`dev
      ensures Reply(dev, rc) == if setBit then SetGpnvm(old(dev), bit) else ClearGpnvm(old(dev), bit)
    {
      if bit >= GPNVM_NUM_MAX {
        return RC_INVALID;
      }
      var q := IsGpnvm(bit);
      if q == (if setBit then RC_YES else RC_NO) {
        return RC_OK;
      }
      var r := ChangeGpnvm(dev, bit, setBit);
      dev := r.dev;
      return if r.rc == 0 then RC_OK else RC_ERROR;
    }

    method TranslateAddress(address: nat) returns (efc: Efc, page: nat, offset: nat)
      requires Mappable(address)
      modifies this`dev
      ensures Target(dev, efc, page, offset) == Translate(old(dev), address)
      ensures old(Valid()) ==> Valid()
    {
      var q := IsGpnvm(GPNVM2);
      if address >= HIGH_BASE {
        efc := if q == RC_YES then Efc0 else Efc1;
        page := (address - HIGH_BASE) / PAGE;
        offset := (address - HIGH_BASE) % PAGE;
      } else {
        efc := if q == RC_YES then Efc1 else Efc0;
        page := (address - LOW_BASE) / PAGE;
        offset := (address - LOW_BASE) % PAGE;
      }
    }

    method AddressOf(efc: Efc, page: nat, offset: nat) returns (address: nat)
      modifies this`dev
      ensures Located(dev, address) == ComputeAddress(old(dev), efc, page, offset)
    {
      var q := IsGpnvm(GPNVM2);
      if efc == Efc0 {
        address := (if q == RC_YES then HIGH_BASE else LOW_BASE) + page * PAGE + offset;
      } else {
        address := (if q == RC_YES then LOW_BASE else HIGH_BASE) + page * PAGE + offset;
      }
    }

    method Erase(address: nat, code: nat) returns (rc: nat)
      requires Valid() && InFlash(address) && Offset(address) < BANK
      modifies this`dev
      ensures Valid() && Reply(dev, rc) == ErasePage(old(dev), address, code)
    {
      if code >= ERASE_PAGES_INVALID || address % PAGE != 0 {
        return RC_INVALID;
      }
      var efc, page, _ := TranslateAddress(address);
      var r := ErasePages(dev, efc, OrCode(page, code));
      dev := r.dev;
      return if r.rc == 0 then RC_OK else RC_ERROR;
    }

    // The three copies that fill the page buffer.
    method FillBuffer(address: nat, offset: nat, bytes: seq<bv8>)
      requires Valid() && InFlash(address) && Offset(address) + PAGE <= BANK && offset + |bytes| <= PAGE
      modifies pageBuffer
      ensures pageBuffer[..] == Read(dev, address, 0, offset) + bytes
                              + Read(dev, address, offset + |bytes|, PAGE - offset - |bytes|)
    {
      var pre := Read(dev, address, 0, offset);
      var post := Read(dev, address, offset + |bytes|, PAGE - offset - |bytes|);
      var page := pre + bytes + post;
      forall i | 0 <= i < PAGE {
        pageBuffer[i] := page[i];
      }
    }

    // The 32-bit stores of the page buffer into the latch.
    method StoreBuffer(address: nat)
      requires Valid() && InFlash(address)
      modifies this`dev
      ensures Valid() && dev == Latch(old(dev), address, pageBuffer[..])
    {
      ghost var efc := dev.Mapped(High(address));
      for word := 0 to PAGE / 4
        invariant Valid()
        invariant |dev.Of(efc).latch| == PAGE
        invariant dev == old(dev).With(efc, old(dev).Of(efc).(latch := dev.Of(efc).latch))
        invariant dev.Of(efc).latch[..4 * word] == pageBuffer[..4 * word]
      {
        dev := LatchWord(dev, address, word, pageBuffer[4 * word..4 * word + 4]);
        assert dev.Of(efc).latch[..4 * word + 4] == pageBuffer[..4 * word] + pageBuffer[4 * word..4 * word + 4];
      }
      assert dev.Of(efc).latch == pageBuffer[..];
    }

    method WriteRound(efc: Efc, page: nat, offset: nat, bytes: seq<bv8>, erase: bool) returns (rc: nat)
      requires Valid() && page < PAGES && offset + |bytes| <= PAGE
      modifies this`dev, pageBuffer
      ensures Valid() && Reply(dev, rc) == WriteOne(old(dev), efc, page, offset, bytes, erase)
    {
      hide ProgramPage, Latch, Read;
      var address := AddressOf(efc, page, 0);
      FillBuffer(address, offset, bytes);
      StoreBuffer(address);
      var r := ProgramPage(dev, efc, page, erase);
      dev := r.dev;
      rc := r.rc;
    }

    method WriteData(address: nat, data: seq<bv8>, erase: bool) returns (rc: nat)
      requires Valid() && InFlash(address) && Offset(address) + |data| <= BANK
      modifies this`dev, pageBuffer
      ensures Valid() && Reply(dev, rc) == Write(old(dev), address, data, erase)
    {
      hide WriteOne;
      var efc: Efc, page: nat, offset: nat := TranslateAddress(address);
      var saved := dev.Of(efc).waitStates;
      dev := SetWaitStates(dev, efc, 6);
      ghost var whole := WritePages(dev, efc, page, offset, data, erase);
      var left := data;
      while |left| > 0
        invariant Valid() && offset < PAGE && page * PAGE + offset + |left| <= BANK
        invariant WritePages(dev, efc, page, offset, left, erase) == whole
      {
        var size := Min(PAGE - offset, |left|);
        rc := WriteRound(efc, page, offset, left[..size], erase);
        if rc != 0 {
          return;
        }
        left := left[size..];
        page := page + 1;
        offset := 0;
      }
      dev := SetWaitStates(dev, efc, saved);
      rc := RC_OK;
    }

    method ChangeRegionLocks(start: nat, end: nat, lock: bool) returns (rc: nat, actualStart: nat, actualEnd: nat)
      requires Valid() && InFlash(start) && InFlash(end)
      modifies this`dev
      ensures Valid() && Reply(dev, rc) == LockRange(old(dev), start, end, lock)
      ensures actualStart % REGION == 0 && actualStart <= start < actualStart + REGION
      ensures (actualEnd + 1) % REGION == 0 && end <= actualEnd < end + REGION
    {
      hide ChangeLock, ActualStart, ActualEnd, Translate;
      Widened(start, end);
      actualStart := ActualStart(start);
      actualEnd := ActualEnd(end);
      ActualPages(dev, start, end);
      var efc, page, _ := TranslateAddress(actualStart);
      ActualPages(dev, start, end);
      var _, endPage, _ := TranslateAddress(actualEnd);
      ghost var whole := ChangeLocks(dev, efc, page, endPage, lock);
      while page < endPage
        invariant Valid() && ChangeLocks(dev, efc, page, endPage, lock) == whole
      {
        var r := ChangeLock(dev, efc, page, lock);
        dev := r.dev;
        rc := r.rc;
        if rc != 0 {
          return;
        }
        page := page + REGION / PAGE;
      }
      rc := RC_OK;
    }

    // A failed status command answers its error flags in place of a count.
    method CountLocked(start: nat, end: nat) returns (n: nat)
      requires Valid() && InFlash(start) && start <= end
      requires if High(start) then end <= HIGH_BASE + BANK else end <= HIGH_BASE
      modifies this`dev
      ensures
        var t := Translate(old(dev), start);
        var q := Translate(t.dev, end);
        && dev == q.dev.Consumed()
        && n == match q.dev.Next()
                case Failed(flags, _) => flags
                case Done =>
                  LockedCount(dev.Of(t.efc).locked, RegionOf(start), RegionOf(start) + RegionsLookedAt(start, end))
    {
      hide LockedCount;
      var efc: Efc, startPage: nat, _ := TranslateAddress(start);
      var _, endPage: nat, _ := TranslateAddress(end);
      PageRegion(startPage, start);
      PageRegion(endPage, end);
      var first, last := startPage / (REGION / PAGE), endPage / (REGION / PAGE);
      var outcome := dev.Next();
      dev := dev.Consumed();
      if outcome.Failed? {
        return outcome.flags;
      }
      n := WalkStatus(dev.Of(efc).locked, first, (last - first + 1) % 0x1_0000_0000);
    }

    // The part of flash_is_locked after the status command: skip whole words, then count bits.
    static method WalkStatus(locked: set<nat>, first: nat, total: nat) returns (n: nat)
      ensures n == LockedCount(locked, first, first + total)
    {
      var skipped: nat, word: nat := 0, 0;
      var status := StatusWord(locked, word);
      while !(skipped <= first < skipped + 32)
        invariant skipped == 32 * word <= first && status == StatusWord(locked, word)
        decreases first - skipped
      {
        word := word + 1;
        status := StatusWord(locked, word);
        skipped := skipped + 32;
      }
      var bit: nat := first - skipped;
      var count: nat := total;
      n := 0;
      while count > 0
        invariant count <= total && bit < 32 && status == StatusWord(locked, word)
        invariant 32 * word + bit == first + total - count
        invariant n == LockedCount(locked, first, first + total - count)
      {
        if status[bit] {
          n := n + 1;
        }
        count := count - 1;
        bit := bit + 1;
        if bit == 32 {
          word := word + 1;
          status := StatusWord(locked, word);
          bit := 0;
        }
      }
    }
  }
}
