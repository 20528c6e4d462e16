/**
 The upgrade session in the form upgrade.c gives it: static variables and buffers updated in place, byte loops, and
 the flash driven through its service. Each method is proved to compute the function of Upgrade that specifies it.
 */
module UpgradeDriver {
  import opened NorFlash
  import opened Frame
  import opened Gcm
  import opened Clock
  import opened Upgrade
  import opened FlashDriver
  import Crc32
  import FlashService

  class Updater {
    const cipher: Cipher
    const flash: Flash
    const crcTable: array<bv32>
    const plaintext: array<bv8>
    const cryptoIv: array<bv8>
    var cipherFound: bool
    var isAuthenticated: bool
    var prePktSeq: int
    var fileLen: nat
    var switchingTimer: Timer

    ghost predicate Valid()
      reads this, flash, crcTable
    {
      && flash.Valid() && switchingTimer.last < WRAP
      && crcTable.Length == 256
      && (if cipherFound then Crc32.IsTable(Crc32.Shift8(Crc32.Shift), crcTable[..])
          else Crc32.IsUnbuilt(crcTable[..]) && !isAuthenticated)
      && plaintext.Length == MAX_PLAINTEXT_LEN && cryptoIv.Length == IV_LEN
      && plaintext != cryptoIv && flash.pageBuffer != plaintext && flash.pageBuffer != cryptoIv
    }

    // The state the static variables stand for.
    ghost function State(): Node
      reads this, flash, cryptoIv
    {
      Node(Session(isAuthenticated, prePktSeq, fileLen, cryptoIv[..]), switchingTimer, flash.dev)
    }

    // The static variables as a reset leaves them.
    constructor (cipher: Cipher, flash: Flash)
      requires flash.Valid()
      ensures Valid() && this.cipher == cipher && this.flash == flash && !cipherFound
      ensures State() == Boot(flash.dev) && flash.dev == old(flash.dev)
      ensures fresh(crcTable) && fresh(plaintext) && fresh(cryptoIv)
    {
      this.cipher, this.flash := cipher, flash;
      crcTable := new bv32[256](_ => 0);
      plaintext := new bv8[MAX_PLAINTEXT_LEN](_ => 0);
      cryptoIv := new bv8[IV_LEN](i requires 0 <= i < IV_LEN => InitialIv()[i]);
      cipherFound := false;
      isAuthenticated, prePktSeq, fileLen := false, -1, 0;
      switchingTimer := Timer(false, 0, 0);
      new;
      assert cryptoIv[..] == InitialIv();
    }

    // `found` says whether the cipher library knows AES.
    method UpgradeInit(found: bool) returns (rc: nat)
      requires Valid() && !cipherFound
      modifies this, crcTable
      ensures Valid() && cipherFound == found && State() == old(State())
      ensures rc == if found then SUCCESS else FAILURE
    {
      hide Crc32.IsTable, Crc32.IsUnbuilt;
      if !found {
        return FAILURE;
      }
      Crc32.InitTable(crcTable);
      cipherFound := true;
      return SUCCESS;
    }

    method IsPktValid(v: View) returns (verdict: Verdict)
      requires Valid()
      ensures verdict == Check(v, if cipherFound then Crc32.Crc(Covered(v)) else 0xFFFF_FFFF)
    {
      hide Crc32.Crc, TypeOf, LenOf, Net32, Swap32, Covered, Crc32.IsTable, Crc32.IsUnbuilt, Crc32.TableRegister;
      var kind := TypeOf(v);
      if kind == AUTHENTICATED_FRAME {
        if v[HEADER_LEN + TYPE_LEN + IV_LEN + TAG_LEN] != TAIL {
          return Invalid(Swap32(INVALID));
        }
      } else if kind == DATA_FRAME {
        var end := PAYLOAD_POS + LenOf(v);
        if v[end + CRC_LEN] != TAIL {
          return Invalid(Swap32(INVALID));
        }
        var calculated := Crc32.CalcCrc(crcTable, Covered(v));
        if Net32(v, end) != calculated {
          return Invalid(Swap32(CRC_ERR));
        }
      } else if kind == ACK_FRAME {
        return Invalid(Swap32(INVALID));
      } else if kind == COMMAND_FRAME {
        if v[HEADER_LEN + TYPE_LEN + CMD_LEN] != TAIL {
          return Invalid(Swap32(INVALID));
        }
      } else {
        return Invalid(Swap32(INVALID));
      }
      return Verdict.Valid;
    }

    method UpgradeStart()
      requires Valid() && cipherFound
      modifies this
      ensures Valid()
      ensures State() == old(State()).(session := Started(old(State()).session)) && cipherFound
    {
      isAuthenticated, prePktSeq, fileLen := true, -1, 0;
    }

    method UpgradeEnd()
      requires Valid()
      modifies this
      ensures Valid()
      ensures State() == old(State()).(session := Ended(old(State()).session)) && cipherFound == old(cipherFound)
    {
      isAuthenticated, prePktSeq, fileLen := false, -1, 0;
    }

    // The vector is copied before anything is checked, the cipher too; then the tags are compared byte by byte.
    method AuthenticatingFrame(iv: seq<bv8>, tag: seq<bv8>, gcmOk: bool) returns (ok: bool)
      requires Valid() && |iv| == IV_LEN && |tag| == TAG_LEN
      modifies cryptoIv
      ensures Valid() && cryptoIv[..] == iv
      ensures ok == (cipherFound && gcmOk && cipher.tag(iv) == tag)
    {
      hide Crc32.IsTable, Crc32.IsUnbuilt;
      for i := 0 to IV_LEN
        invariant cryptoIv[..i] == iv[..i]
      {
        cryptoIv[i] := iv[i];
      }
      assert cryptoIv[..] == iv;
      if !cipherFound {
        return false;
      }
      if !gcmOk {
        return false;
      }
      var computed := cipher.tag(cryptoIv[..]);
      if |computed| != TAG_LEN {
        return false;
      }
      for i := 0 to TAG_LEN
        invariant forall j :: 0 <= j < i ==> computed[j] == tag[j]
      {
        if computed[i] != tag[i] {
          return false;
        }
      }
      assert computed == tag;
      return true;
    }

    // Set the buffer to ones, then decrypt into it; what a failing decryption leaves there is not looked at again.
    method DataDecrypt(payload: seq<bv8>, gcmOk: bool) returns (ok: bool)
      requires Valid() && |payload| <= MAX_PLAINTEXT_LEN
      modifies plaintext
      ensures Valid() && cryptoIv[..] == old(cryptoIv[..])
      ensures ok == (cipherFound && gcmOk)
      ensures ok ==> plaintext[..] == Padded(Crypt(cipher, cryptoIv[..], payload))
      ensures ok ==> forall i :: 0 <= i < |payload| ==> payload[i] ^ plaintext[i] == cipher.stream(cryptoIv[..], i)
      ensures ok ==> forall i :: |payload| <= i < MAX_PLAINTEXT_LEN ==> plaintext[i] == 0xFF
      ensures !cipherFound ==> plaintext[..] == old(plaintext[..])
    {
      hide Crypt, Padded, Crc32.IsTable, Crc32.IsUnbuilt;
      if !cipherFound {
        return false;
      }
      forall i | 0 <= i < MAX_PLAINTEXT_LEN {
        plaintext[i] := 0xFF;
      }
      if !gcmOk {
        return false;
      }
      ghost var iv := cryptoIv[..];
      var text := Crypt(cipher, cryptoIv[..], payload);
      forall i | 0 <= i < |payload| {
        plaintext[i] := text[i];
      }
      assert cryptoIv[..] == iv;
      PaddedIs(plaintext[..], text);
      CryptRevealsStream(cipher, iv, payload);
      return true;
    }

    method WriteImage(address: nat, left: nat) returns (rc: nat)
      requires Valid() && HIGH_BASE <= address && address + MAX_PLAINTEXT_LEN <= HIGH_BASE + BANK
      requires left <= MAX_PLAINTEXT_LEN
      modifies flash`dev, flash.pageBuffer
      ensures Valid() && Reply(flash.dev, rc) == DataWrite(old(flash.dev), address, plaintext[..], left)
    {
      hide PageWrite, FlashService.Write, FlashService.ErasePage, Crc32.IsTable, Crc32.IsUnbuilt;
      var of: nat := 0;
      var remaining: int := left;
      ghost var whole := DataWrite(flash.dev, address, plaintext[..], left);
      while remaining > 0
        invariant Valid() && of % PAGE == 0 && of + remaining == left
        invariant of <= MAX_PLAINTEXT_LEN && remaining <= MAX_PLAINTEXT_LEN - of
        invariant DataWrite(flash.dev, address + of, plaintext[of..], remaining) == whole
      {
        ghost var rest := plaintext[of..];
        rc := WriteImagePage(address + of, plaintext[of..of + PAGE]);
        assert rest[..PAGE] == plaintext[of..of + PAGE] && rest[PAGE..] == plaintext[of + PAGE..];
        if rc != SUCCESS {
          return;
        }
        of := of + PAGE;
        remaining := remaining - PAGE;
      }
      rc := SUCCESS;
    }

    method WriteImagePage(address: nat, bytes: seq<bv8>) returns (rc: nat)
      requires Valid() && HIGH_BASE <= address && |bytes| == PAGE && address + PAGE <= HIGH_BASE + BANK
      modifies flash`dev, flash.pageBuffer
      ensures Valid() && Reply(flash.dev, rc) == PageWrite(old(flash.dev), address, bytes)
    {
      hide FlashService.Write, FlashService.ErasePage, Crc32.IsTable, Crc32.IsUnbuilt;
      var page := (address - HIGH_BASE) / PAGE;
      if page % PAGES_TO_ERASE == 0 {
        rc := flash.Erase(address, FlashService.ERASE_PAGES_8);
        if rc != SUCCESS {
          return;
        }
      }
      rc := flash.WriteData(address, bytes, false);
    }

    method CheckIntegrity(address: nat, n: nat) returns (ok: bool)
      requires Valid() && n <= MAX_PLAINTEXT_LEN && InFlash(address) && Offset(address) + n <= BANK
      ensures ok == Intact(flash.dev, address, plaintext[..n])
    {
      var page := Read(flash.dev, address, 0, n);
      for i := 0 to n
        invariant page[..i] == plaintext[..i]
      {
        if page[i] != plaintext[i] {
          return false;
        }
      }
      return true;
    }

    // handle_upgrade_packet for a data frame in an authenticated session.
    method HandleDataFrame(v: View, gcmOk: bool) returns (rc: nat, ack: bv32)
      requires Valid() && isAuthenticated
      modifies this, flash`dev, flash.pageBuffer, plaintext
      ensures Valid() && cipherFound && Answer(State(), rc, ack) == HandleData(cipher, old(State()), v, gcmOk)
    {
      hide DataWrite, SeqOf, LenOf, PayloadOf, Crypt, DataAck, Swap32, Padded, Crc32.IsTable, Intact;
      var number := SeqOf(v);
      var length := LenOf(v);
      if number > MAX_SEQ_NUM {
        return FAILURE, Swap32(SEQ_ERR);
      }
      if prePktSeq + 1 != number {
        UpgradeEnd();
        return FAILURE, Swap32(SEQ_ERR);
      }
      if length > MAX_PLAINTEXT_LEN || length == 0 {
        return FAILURE, Swap32(LEN_ERR);
      }
      var decrypted := DataDecrypt(PayloadOf(v), gcmOk);
      if !decrypted {
        return FAILURE, Swap32(DECRYPT_ERR);
      }
      ghost var text := Crypt(cipher, cryptoIv[..], PayloadOf(v));
      PaddedStart(text);
      prePktSeq := number;
      var address := number * MAX_PLAINTEXT_LEN + HIGH_BASE;
      rc := WriteImage(address, length);
      if rc != SUCCESS {
        UpgradeEnd();
        return FAILURE, Swap32(FLASH_WR_ERR);
      }
      var ok := CheckIntegrity(address, length);
      if !ok {
        UpgradeEnd();
        return FAILURE, Swap32(FLASH_WR_ERR);
      }
      fileLen := (fileLen + length) % WRAP;
      return SUCCESS, DataAck(v);
    }

    method HandleCommandFrame(v: View, now: nat) returns (rc: nat, ack: bv32)
      requires Valid() && now < WRAP && isAuthenticated
      modifies this
      ensures Valid() && cipherFound && Answer(State(), rc, ack) == HandleCommand(old(State()), v, now)
    {
      hide CommandOf, Swap32, Crc32.IsTable, Crc32.Crc, Read;
      var command := CommandOf(v);
      if command == GET_VERSION {
        return SUCCESS, Swap32(APP_VERSION);
      } else if command == GET_CRC {
        var crc := 0;
        if 0 < fileLen < BANK {
          crc := Crc32.CalcCrc(crcTable, Read(flash.dev, HIGH_BASE, 0, fileLen));
        }
        return SUCCESS, Swap32(crc);
      } else if command == EXEC {
        switchingTimer := Timer(true, 0, now);
        return SUCCESS, Swap32(PASS);
      }
      return FAILURE, Swap32(CMD_ERR);
    }

    method HandleUpgradePacket(v: View, gcmOk: bool, now: nat) returns (rc: nat, ack: bv32)
      requires Valid() && now < WRAP
      modifies this, flash`dev, flash.pageBuffer, plaintext, cryptoIv
      ensures Valid() && cipherFound == old(cipherFound)
      ensures Answer(State(), rc, ack)
           == if cipherFound then Handle(cipher, old(State()), v, gcmOk, now) else HandleUnready(old(State()), v)
    {
      hide Check, Covered, TypeOf, IvOf, TagOf, Swap32, HandleData, HandleCommand, Crc32.IsTable, Crc32.IsUnbuilt;
      var verdict := IsPktValid(v);
      if verdict.Invalid? {
        return FAILURE, verdict.ack;
      }
      if TypeOf(v) == AUTHENTICATED_FRAME {
        var ok := AuthenticatingFrame(IvOf(v), TagOf(v), gcmOk);
        if !ok {
          UpgradeEnd();
          return FAILURE, Swap32(FAIL);
        }
        UpgradeStart();
        return SUCCESS, Swap32(PASS);
      }
      if !isAuthenticated {
        return FAILURE, Swap32(FAIL);
      }
      if TypeOf(v) == DATA_FRAME {
        rc, ack := HandleDataFrame(v, gcmOk);
      } else if TypeOf(v) == COMMAND_FRAME {
        rc, ack := HandleCommandFrame(v, now);
      } else {
        return FAILURE, Swap32(TYPE_ERR);
      }
    }

    method SwitchCode()
      requires Valid()
      modifies flash`dev
      ensures Valid() && flash.dev == CodeSwitching(old(flash.dev))
    {
      var rc := flash.IsGpnvm(FlashService.GPNVM2);
      if rc == FlashService.RC_YES {
        rc := flash.ChangeGpnvmBit(FlashService.GPNVM2, false);
      } else {
        rc := flash.ChangeGpnvmBit(FlashService.GPNVM2, true);
      }
    }

    // What a reset, and upgrade_init after it, leave of the static variables.
    method Restart()
      requires Valid()
      modifies this, cryptoIv
      ensures Valid() && State() == Boot(flash.dev) && cipherFound == old(cipherFound)
    {
      forall i | 0 <= i < IV_LEN {
        cryptoIv[i] := InitialIv()[i];
      }
      isAuthenticated, prePktSeq, fileLen := false, -1, 0;
      switchingTimer := Timer(false, 0, 0);
      assert cryptoIv[..] == InitialIv();
    }

    // switching_timer_poll
    method PollTimer(now: nat)
      requires Valid() && now < WRAP
      modifies this, flash`dev, cryptoIv
      ensures Valid() && State() == Poll(old(State()), now) && cipherFound == old(cipherFound)
    {
      hide CodeSwitching, Crc32.IsTable, Crc32.IsUnbuilt;
      if !switchingTimer.armed {
        return;
      }
      var last := switchingTimer.last;
      var diff := if now >= last then now - last else WRAP - 1 - last + now;
      if diff != 0 {
        switchingTimer := switchingTimer.(last := now, count := (switchingTimer.count + diff) % WRAP);
        if switchingTimer.count > SWITCHING_INTERVAL {
          SwitchCode();
          Restart();
        }
      }
    }
  }

  lemma PaddedIs(buffer: seq<bv8>, text: seq<bv8>)
    requires |text| <= MAX_PLAINTEXT_LEN == |buffer|
    requires forall i :: 0 <= i < MAX_PLAINTEXT_LEN ==> buffer[i] == if i < |text| then text[i] else 0xFF
    ensures buffer == Padded(text)
  {}

  lemma PaddedStart(text: seq<bv8>)
    requires |text| <= MAX_PLAINTEXT_LEN
    ensures Padded(text)[..|text|] == text
  {}
}
