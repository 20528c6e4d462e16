/**
 CRC-32 (IEEE 802.3, section 3.2.9; the algorithm of section 8 of RFC 1952) as a register fed one bit at a time, and
 the table-driven form of upgrade.c, which is proved to compute it for every message. Any change confined to four
 neighbouring bytes of a message changes its CRC.

 Facts about machine words are kept to lemmas of one line; everything that needs induction is proved in
 LinearFeedback, for a register `f` of which only the laws below are known.
 */
module Crc32 {
  import opened LinearFeedback

  /* The definition. */

  // One step of the register, reflected: the bit that falls out feeds the polynomial back.
  function Shift(c: bv32): bv32 {
    if c & 1 == 1 then (c >> 1) ^ 0xEDB8_8320 else c >> 1
  }

  function Xor(a: bv32, b: bv32): bv32 {
    a ^ b
  }

  function LowBit(w: bv32): bv32 {
    w & 1
  }

  function DropBit(w: bv32): bv32 {
    w >> 1
  }

  function Widen(b: bv8): bv32 {
    b as bv32
  }

  // The bits of a message, the lowest of each byte first.
  function Bits(s: seq<bv8>): seq<bv32>
    decreases |s|
  {
    if s == [] then [] else Digits(LowBit, DropBit, Widen(s[0]), 8) + Bits(s[1..])
  }

  function Crc(s: seq<bv8>): bv32 {
    !Fold(Shift, Xor, 0xFFFF_FFFF, Bits(s))
  }

  /* Whole bytes. */

  function LowByte(w: bv32): bv32 {
    w & 0xFF
  }

  function DropByte(w: bv32): bv32 {
    w >> 8
  }

  function Shift8(f: bv32 -> bv32): bv32 -> bv32 {
    c => Iterate(f, c, 8)
  }

  function Words(s: seq<bv8>): (ws: seq<bv32>)
    ensures |ws| == |s|
    ensures forall i :: 0 <= i < |s| ==> ws[i] == Widen(s[i])
    decreases |s|
  {
    if s == [] then [] else [Widen(s[0])] + Words(s[1..])
  }

  // The register of a message, taken in byte by byte.
  function Bytewise(g: bv32 -> bv32, s: seq<bv8>): bv32 {
    Fold(g, Xor, 0xFFFF_FFFF, Words(s))
  }

  ghost predicate Laws(f: bv32 -> bv32) {
    && Linear(f, Xor)
    && Injective(f)
    && Splits(f, Xor, LowBit, DropBit)
  }

  lemma {:induction false} BitsAreBytes(f: bv32 -> bv32, c: bv32, s: seq<bv8>)
    requires Laws(f)
    ensures Fold(f, Xor, c, Bits(s)) == Fold(Shift8(f), Xor, c, Words(s))
    decreases |s|
  {
    if s != [] {
      var w := Widen(s[0]);
      FoldConcat(f, Xor, c, Digits(LowBit, DropBit, w, 8), Bits(s[1..]));
      ByteFold(f, c, s[0]);
      BitsAreBytes(f, Shift8(f)(Xor(c, w)), s[1..]);
      assert Words(s)[1..] == Words(s[1..]);
    }
  }

  lemma ByteFold(f: bv32 -> bv32, c: bv32, b: bv8)
    requires Laws(f)
    ensures Fold(f, Xor, c, Digits(LowBit, DropBit, Widen(b), 8)) == Shift8(f)(Xor(c, Widen(b)))
  {
    FoldDigits(f, Xor, LowBit, DropBit, c, Widen(b), 8);
    ByteDrains(b);
  }

  lemma ByteDrains(b: bv8)
    ensures Iterate(DropBit, Widen(b), 8) == 0
  {}

  /* The laws of the register. */

  function HighBits(w: bv32): bv32 { w & 0xFFFF_FFFE }

  lemma SplitBit(c: bv32, w: bv32)
    ensures Xor(c, w) == Xor(Xor(c, LowBit(w)), HighBits(w))
  {}

  lemma ShiftHigh(w: bv32)
    ensures Shift(HighBits(w)) == DropBit(w)
  {}

  lemma XorFacts(a: bv32, b: bv32)
    ensures (a ^ b) >> 1 == (a >> 1) ^ (b >> 1)
    ensures (a ^ b) & 1 == (a & 1) ^ (b & 1)
    ensures a & 1 == 0 || a & 1 == 1
    ensures b & 1 == 0 || b & 1 == 1
  {}

  lemma XorFlip(a: bv32, b: bv32, p: bv32)
    ensures (a ^ p) ^ b == (a ^ b) ^ p
    ensures a ^ (b ^ p) == (a ^ b) ^ p
    ensures (a ^ p) ^ (b ^ p) == a ^ b
  {}

  lemma ShiftXor(a: bv32, b: bv32)
    ensures Shift(a ^ b) == Shift(a) ^ Shift(b)
  {
    XorFacts(a, b);
    XorFlip(a >> 1, b >> 1, 0xEDB8_8320);
  }

  lemma ShiftInjects(a: bv32, b: bv32)
    requires Shift(a) == Shift(b)
    ensures a == b
  {}

  lemma ShiftIsLinear()
    ensures Linear(Shift, Xor)
  {
    forall x: bv32, y: bv32
      ensures Shift(Xor(x, y)) == Xor(Shift(x), Shift(y))
    {
      ShiftXor(x, y);
    }
  }

  lemma ShiftIsInjective()
    ensures Injective(Shift)
  {
    forall x: bv32, y: bv32 | Shift(x) == Shift(y)
      ensures x == y
    {
      ShiftInjects(x, y);
    }
  }

  lemma ShiftSplitsBits()
    ensures Splits(Shift, Xor, LowBit, DropBit)
  {
    ShiftIsLinear();
    forall c: bv32, w: bv32
      ensures Xor(c, w) == Xor(Xor(c, LowBit(w)), HighBits(w))
    {
      SplitBit(c, w);
    }
    forall w: bv32
      ensures Shift(HighBits(w)) == DropBit(w)
    {
      ShiftHigh(w);
    }
    SplitsByRest(Shift, Xor, LowBit, DropBit, HighBits);
  }

  lemma ShiftLaws()
    ensures Laws(Shift)
  {
    ShiftIsLinear();
    ShiftIsInjective();
    ShiftSplitsBits();
  }

  ghost predicate ByteLaws(g: bv32 -> bv32) {
    && Linear(g, Xor)
    && Injective(g)
    && Splits(g, Xor, LowByte, DropByte)
  }

  lemma Shift8IsInjective(f: bv32 -> bv32)
    requires Laws(f)
    ensures Injective(Shift8(f))
  {
    forall x: bv32, y: bv32 | Shift8(f)(x) == Shift8(f)(y)
      ensures x == y
    {
      IterateInjective(f, x, y, 8);
    }
  }

  lemma Shift8IsLinear(f: bv32 -> bv32)
    requires Laws(f)
    ensures Linear(Shift8(f), Xor)
  {
    forall x: bv32, y: bv32
      ensures Shift8(f)(Xor(x, y)) == Xor(Shift8(f)(x), Shift8(f)(y))
    {
      IterateLinear(f, Xor, x, y, 8);
    }
  }

  lemma Shift8SplitsBytes(f: bv32 -> bv32)
    requires Laws(f)
    ensures Splits(Shift8(f), Xor, LowByte, DropByte)
  {
    forall c: bv32, w: bv32
      ensures Shift8(f)(Xor(c, w)) == Xor(Shift8(f)(Xor(c, LowByte(w))), DropByte(w))
    {
      Shift8Splits(f, c, w);
    }
  }

  lemma Shift8Laws(f: bv32 -> bv32)
    requires Laws(f)
    ensures ByteLaws(Shift8(f))
  {
    Shift8IsLinear(f);
    Shift8IsInjective(f);
    Shift8SplitsBytes(f);
  }

  lemma Shift8Splits(f: bv32 -> bv32, c: bv32, w: bv32)
    requires Laws(f)
    ensures Shift8(f)(Xor(c, w)) == Xor(Shift8(f)(Xor(c, LowByte(w))), DropByte(w))
  {
    FoldDigits(f, Xor, LowBit, DropBit, c, w, 8);
    FoldDigits(f, Xor, LowBit, DropBit, c, w & 0xFF, 8);
    SameLowBits(w);
    Drained(w);
  }

  lemma SameLowBits(w: bv32)
    ensures Digits(LowBit, DropBit, w, 8) == Digits(LowBit, DropBit, w & 0xFF, 8)
  {}

  lemma Drained(w: bv32)
    ensures Iterate(DropBit, w, 8) == DropByte(w)
    ensures Iterate(DropBit, w & 0xFF, 8) == 0
  {}

  /* The table. */

  function Slot(b: bv8): nat {
    b as nat
  }

  function Index(c: bv32, b: bv8): bv8 {
    ((c & 0xFF) ^ (b as bv32)) as bv8
  }

  ghost predicate IsTable(g: bv32 -> bv32, t: seq<bv32>) {
    |t| == 256 && forall b: bv8 :: t[Slot(b)] == g(Widen(b))
  }

  ghost predicate Filled(g: bv32 -> bv32, t: seq<bv32>, n: nat) {
    |t| == 256 && forall b: bv8 :: Slot(b) < n ==> t[Slot(b)] == g(Widen(b))
  }

  lemma SlotUnique(b: bv8)
    ensures Slot(b) < 256 && Slot(b) as bv8 == b
  {}

  lemma FilledStep(g: bv32 -> bv32, t: seq<bv32>, i: nat, after: seq<bv32>)
    requires i < 256 && Filled(g, t, i)
    requires after == t[i := g(Widen(i as bv8))]
    ensures Filled(g, after, i + 1)
  {
    forall b: bv8 | Slot(b) < i + 1
      ensures after[Slot(b)] == g(Widen(b))
    {
      SlotUnique(b);
    }
  }

  lemma FilledAll(g: bv32 -> bv32, t: seq<bv32>)
    requires Filled(g, t, 256)
    ensures IsTable(g, t)
  {
    forall b: bv8
      ensures t[Slot(b)] == g(Widen(b))
    {
      SlotUnique(b);
    }
  }

  // init_crc32_table
  method InitTable(table: array<bv32>)
    requires table.Length == 256
    modifies table
    ensures IsTable(Shift8(Shift), table[..])
  {
    hide Shift, Widen, Slot;
    for i := 0 to 256
      invariant Filled(Shift8(Shift), table[..], i)
    {
      var entry := Widen(i as bv8);
      var crc := entry;
      ghost var before := table[..];
      for j := 0 to 8
        invariant table[..] == before
        invariant Iterate(Shift, crc, 8 - j) == Shift8(Shift)(entry)
      {
        ShiftCases(crc);
        if crc & 1 == 1 {
          crc := (crc >> 1) ^ 0xEDB8_8320;
        } else {
          crc := crc >> 1;
        }
      }
      FilledStep(Shift8(Shift), table[..], i, table[..][i := crc]);
      table[i] := crc;
    }
    FilledAll(Shift8(Shift), table[..]);
  }

  lemma ShiftCases(c: bv32)
    ensures Shift(c) == if c & 1 == 1 then (c >> 1) ^ 0xEDB8_8320 else c >> 1
  {}

  lemma IndexIsLow(c: bv32, b: bv8)
    ensures Widen(Index(c, b)) == LowByte(Xor(c, Widen(b)))
    ensures DropByte(Xor(c, Widen(b))) == DropByte(c)
  {}

  lemma XorZero(x: bv32)
    ensures Xor(0, x) == x
  {}

  // A table entry and what is left of the register.
  function Mix(entry: bv32, c: bv32): bv32 {
    entry ^ (c >> 8)
  }

  lemma XorShifted(e: bv32, c: bv32)
    ensures Xor(e, DropByte(c)) == Mix(e, c)
  {}

  // One look-up is one byte of the definition.
  lemma TableStep(g: bv32 -> bv32, t: seq<bv32>, c: bv32, b: bv8)
    requires ByteLaws(g) && IsTable(g, t)
    ensures Slot(Index(c, b)) < 256
    ensures Mix(t[Slot(Index(c, b))], c) == g(Xor(c, Widen(b)))
  {
    hide Slot, Index, Xor, LowByte, DropByte, Widen, Mix;
    SlotUnique(Index(c, b));
    IndexIsLow(c, b);
    XorZero(Xor(c, Widen(b)));
    XorZero(LowByte(Xor(c, Widen(b))));
    SplitAlone(g, Xor, LowByte, DropByte, 0, Xor(c, Widen(b)));
    XorShifted(t[Slot(Index(c, b))], c);
  }

  lemma {:induction false} WordsConcat(s: seq<bv8>, t: seq<bv8>)
    ensures Words(s + t) == Words(s) + Words(t)
    decreases |s|
  {
    hide Widen;
    if s == [] {
      assert s + t == t;
    } else {
      assert (s + t)[1..] == s[1..] + t;
      WordsConcat(s[1..], t);
    }
  }

  lemma BytewiseStep(g: bv32 -> bv32, s: seq<bv8>, i: nat)
    requires i < |s|
    ensures Bytewise(g, s[..i + 1]) == g(Xor(Bytewise(g, s[..i]), Widen(s[i])))
  {
    WordsConcat(s[..i], [s[i]]);
    assert s[..i + 1] == s[..i] + [s[i]];
    assert Words([s[i]]) == [Widen(s[i])];
    FoldConcat(g, Xor, 0xFFFF_FFFF, Words(s[..i]), [Widen(s[i])]);
    assert [Widen(s[i])][1..] == [];
  }

  // Bit by bit and byte by byte give the same register.
  lemma CrcIsBytewise(s: seq<bv8>)
    ensures Crc(s) == !Bytewise(Shift8(Shift), s)
  {
    ShiftLaws();
    BitsAreBytes(Shift, 0xFFFF_FFFF, s);
  }

  function Invert(c: bv32): bv32 {
    !c
  }

  // What calc_crc makes of any table.
  function TableRegister(t: seq<bv32>, s: seq<bv8>): bv32
    requires |t| == 256
    decreases |s|
  {
    if s == [] then 0xFFFF_FFFF
    else
      var c := TableRegister(t, s[..|s| - 1]);
      SlotUnique(Index(c, s[|s| - 1]));
      Mix(t[Slot(Index(c, s[|s| - 1]))], c)
  }

  // calc_crc: with the table of init_crc32_table it computes the CRC, for every message.
  method CalcCrc(table: array<bv32>, buf: seq<bv8>) returns (ret: bv32)
    requires table.Length == 256
    ensures ret == Invert(TableRegister(table[..], buf))
    ensures IsTable(Shift8(Shift), table[..]) ==> ret == Crc(buf)
    ensures IsUnbuilt(table[..]) && |buf| >= 4 ==> ret == 0xFFFF_FFFF
  {
    hide Slot, Index, Crc, Shift8, IsTable, IsUnbuilt, TableRegister, Mix, Invert;
    RegisterStart(table[..], buf[..0]);
    ret := 0xFFFF_FFFF;
    for i := 0 to |buf|
      invariant ret == TableRegister(table[..], buf[..i])
    {
      RegisterStep(table[..], buf, i);
      ret := Mix(table[Slot(Index(ret, buf[i]))], ret);
    }
    assert buf[..|buf|] == buf;
    if IsTable(Shift8(Shift), table[..]) {
      TableComputes(table[..], buf);
    }
    if IsUnbuilt(table[..]) && |buf| >= 4 {
      UnbuiltDrains(table[..], buf);
      NotZero();
    }
    ret := Invert(ret);
  }

  lemma NotZero()
    ensures Invert(0) == 0xFFFF_FFFF
  {}

  lemma RegisterStart(t: seq<bv32>, s: seq<bv8>)
    requires |t| == 256 && s == []
    ensures TableRegister(t, s) == 0xFFFF_FFFF
  {}

  lemma RegisterStep(t: seq<bv32>, s: seq<bv8>, i: nat)
    requires |t| == 256 && i < |s|
    ensures
      var c := TableRegister(t, s[..i]);
      Slot(Index(c, s[i])) < 256 && TableRegister(t, s[..i + 1]) == Mix(t[Slot(Index(c, s[i]))], c)
  {
    hide Slot, Index, Mix;
    assert s[..i + 1][..i] == s[..i];
    SlotUnique(Index(TableRegister(t, s[..i]), s[i]));
  }

  lemma {:induction false} TableBytewise(g: bv32 -> bv32, t: seq<bv32>, s: seq<bv8>)
    requires |t| == 256 && ByteLaws(g) && IsTable(g, t)
    ensures TableRegister(t, s) == Bytewise(g, s)
    decreases |s|
  {
    hide Slot, Index, Xor, Widen, Mix, ByteLaws, IsTable, Bytewise;
    if s == [] {
      BytewiseNothing(g, s);
    } else {
      var i := |s| - 1;
      TableBytewise(g, t, s[..i]);
      BytewiseStep(g, s, i);
      assert s[..i + 1] == s;
      TableStep(g, t, TableRegister(t, s[..i]), s[i]);
    }
  }

  // Table-driven and bit by bit: the same, for every message.
  lemma TableComputes(t: seq<bv32>, s: seq<bv8>)
    requires |t| == 256 && IsTable(Shift8(Shift), t)
    ensures Invert(TableRegister(t, s)) == Crc(s)
  {
    hide Shift, Shift8, Laws, ByteLaws, Crc, Bytewise, TableRegister;
    ShiftLaws();
    Shift8Laws(Shift);
    TableBytewise(Shift8(Shift), t, s);
    CrcIsBytewise(s);
  }

  // The table before init_crc32_table.
  ghost predicate IsUnbuilt(t: seq<bv32>) {
    |t| == 256 && forall i :: 0 <= i < 256 ==> t[i] == 0
  }

  lemma FourShifts(c: bv32)
    ensures Mix(0, Mix(0, Mix(0, Mix(0, c)))) == 0 && Mix(0, 0) == 0
  {}

  lemma UnbuiltStep(t: seq<bv32>, s: seq<bv8>)
    requires IsUnbuilt(t) && s != []
    ensures TableRegister(t, s) == Mix(0, TableRegister(t, s[..|s| - 1]))
  {
    hide Slot, Index, Mix;
    SlotUnique(Index(TableRegister(t, s[..|s| - 1]), s[|s| - 1]));
  }

  lemma {:induction false} UnbuiltDrains(t: seq<bv32>, s: seq<bv8>)
    requires |t| == 256 && IsUnbuilt(t) && |s| >= 4
    ensures TableRegister(t, s) == 0
    decreases |s|
  {
    hide TableRegister, IsUnbuilt, Mix;
    UnbuiltStep(t, s);
    if |s| > 4 {
      UnbuiltDrains(t, s[..|s| - 1]);
      FourShifts(0);
    } else {
      UnbuiltStep(t, s[..3]);
      UnbuiltStep(t, s[..2]);
      UnbuiltStep(t, s[..1]);
      assert s[..3][..2] == s[..2] && s[..2][..1] == s[..1] && s[..1][..0] == s[..0];
      FourShifts(TableRegister(t, s[..0]));
    }
  }

  lemma BytewiseNothing(g: bv32 -> bv32, s: seq<bv8>)
    requires s == []
    ensures Bytewise(g, s) == 0xFFFF_FFFF
  {
    assert Words(s) == [];
  }

  /* Error detection. */

  function Load32(b0: bv8, b1: bv8, b2: bv8, b3: bv8): bv32 {
    (b0 as bv32) | ((b1 as bv32) << 8) | ((b2 as bv32) << 16) | ((b3 as bv32) << 24)
  }

  lemma WordBytes(b0: bv8, b1: bv8, b2: bv8, b3: bv8)
    ensures var w := Load32(b0, b1, b2, b3);
      && LowByte(w) == Widen(b0)
      && LowByte(DropByte(w)) == Widen(b1)
      && LowByte(DropByte(DropByte(w))) == Widen(b2)
      && LowByte(DropByte(DropByte(DropByte(w)))) == Widen(b3)
  {}

  lemma WordDrains(w: bv32)
    ensures Iterate(DropByte, w, 4) == 0
  {}

  lemma WordDigits(b0: bv8, b1: bv8, b2: bv8, b3: bv8)
    ensures Digits(LowByte, DropByte, Load32(b0, b1, b2, b3), 4) == [Widen(b0), Widen(b1), Widen(b2), Widen(b3)]
  {
    WordBytes(b0, b1, b2, b3);
    DigitsFour(LowByte, DropByte, Load32(b0, b1, b2, b3));
  }

  lemma FourWords(x: seq<bv8>)
    requires |x| == 4
    ensures Words(x) == [Widen(x[0]), Widen(x[1]), Widen(x[2]), Widen(x[3])]
  {
    hide Widen;
  }

  lemma WordInjective(b0: bv8, b1: bv8, b2: bv8, b3: bv8, c0: bv8, c1: bv8, c2: bv8, c3: bv8)
    requires Load32(b0, b1, b2, b3) == Load32(c0, c1, c2, c3)
    ensures b0 == c0 && b1 == c1 && b2 == c2 && b3 == c3
  {}

  lemma XorUnique(a: bv32, b: bv32, c: bv32)
    ensures Xor(c, a) == Xor(c, b) ==> a == b
    ensures Xor(a, c) == Xor(b, c) ==> a == b
  {}

  lemma SameWord(g: bv32 -> bv32, c: bv32, v: bv32, w: bv32)
    requires ByteLaws(g)
    requires Fold(g, Xor, c, Digits(LowByte, DropByte, v, 4)) == Fold(g, Xor, c, Digits(LowByte, DropByte, w, 4))
    ensures v == w
  {
    WordDrains(v);
    WordDrains(w);
    FoldDigitsInjective(g, Xor, LowByte, DropByte, c, v, w, 4);
    XorUnique(v, w, c);
  }

  lemma FourDiffer(g: bv32 -> bv32, c: bv32, x: seq<bv8>, y: seq<bv8>)
    requires ByteLaws(g)
    requires |x| == |y| == 4
    requires Fold(g, Xor, c, Words(x)) == Fold(g, Xor, c, Words(y))
    ensures x == y
  {
    hide Widen, Load32, LowByte, DropByte, Xor, Fold, Digits, ByteLaws;
    FourWords(x);
    FourWords(y);
    WordDigits(x[0], x[1], x[2], x[3]);
    WordDigits(y[0], y[1], y[2], y[3]);
    SameWord(g, c, Load32(x[0], x[1], x[2], x[3]), Load32(y[0], y[1], y[2], y[3]));
    WordInjective(x[0], x[1], x[2], x[3], y[0], y[1], y[2], y[3]);
  }

  lemma BurstChanges(g: bv32 -> bv32, p: seq<bv8>, x: seq<bv8>, y: seq<bv8>, s: seq<bv8>)
    requires ByteLaws(g)
    requires |x| == |y| <= 4
    requires Bytewise(g, p + x + s) == Bytewise(g, p + y + s)
    ensures x == y
  {
    var c := Bytewise(g, p);
    BytewiseParts(g, p, x, s);
    BytewiseParts(g, p, y, s);
    XorCancels();
    FoldInjective(g, Xor, Fold(g, Xor, c, Words(x)), Fold(g, Xor, c, Words(y)), Words(s));
    var z := seq(4 - |x|, _ => 0 as bv8);
    WordsConcat(x, z);
    WordsConcat(y, z);
    FoldConcat(g, Xor, c, Words(x), Words(z));
    FoldConcat(g, Xor, c, Words(y), Words(z));
    FourDiffer(g, c, x + z, y + z);
    assert x == (x + z)[..|x|] && y == (y + z)[..|x|];
  }

  lemma XorCancels()
    ensures Cancels(Xor)
  {
    forall x, y, z | Xor(x, z) == Xor(y, z)
      ensures x == y
    {
      XorUnique(x, y, z);
    }
  }

  lemma BytewiseParts(g: bv32 -> bv32, p: seq<bv8>, x: seq<bv8>, s: seq<bv8>)
    ensures Bytewise(g, p + x + s) == Fold(g, Xor, Fold(g, Xor, Bytewise(g, p), Words(x)), Words(s))
  {
    WordsConcat(p, x);
    WordsConcat(p + x, s);
    FoldConcat(g, Xor, 0xFFFF_FFFF, Words(p) + Words(x), Words(s));
    FoldConcat(g, Xor, 0xFFFF_FFFF, Words(p), Words(x));
  }

  // Two messages that differ only inside four neighbouring bytes have different CRCs.
  lemma BurstDetected(p: seq<bv8>, x: seq<bv8>, y: seq<bv8>, s: seq<bv8>)
    requires |x| == |y| <= 4 && x != y
    ensures Crc(p + x + s) != Crc(p + y + s)
  {
    hide Crc, Bytewise, Shift, Shift8, ByteLaws, Laws;
    CrcIsBytewise(p + x + s);
    CrcIsBytewise(p + y + s);
    NotInjective(Bytewise(Shift8(Shift), p + x + s), Bytewise(Shift8(Shift), p + y + s));
    if Crc(p + x + s) == Crc(p + y + s) {
      ShiftLaws();
      Shift8Laws(Shift);
      BurstChanges(Shift8(Shift), p, x, y, s);
    }
  }

  lemma NotInjective(a: bv32, b: bv32)
    ensures !a == !b ==> a == b
  {}

  /* A known answer. */

  // The nine ASCII digits 1 to 9.
  function CheckMessage(): (s: seq<bv8>)
    ensures |s| == 9
  {
    [0x31, 0x32, 0x33, 0x34, 0x35, 0x36, 0x37, 0x38, 0x39]
  }

  function CheckRegisters(): (s: seq<bv32>)
    ensures |s| == 10
  {
    [0xFFFF_FFFF, 0x7C23_1048, 0xB0AC_BB32, 0x77B7_9C2D, 0x641C_1F5C,
     0x340A_C5E3, 0xF68D_2C9E, 0xAFFC_9660, 0x651F_2550, 0x340B_C6D9]
  }

  lemma CheckInputs()
    ensures Xor(CheckRegisters()[0], Widen(CheckMessage()[0])) == 0xFFFF_FFCE
    ensures Xor(CheckRegisters()[1], Widen(CheckMessage()[1])) == 0x7C23_107A
    ensures Xor(CheckRegisters()[2], Widen(CheckMessage()[2])) == 0xB0AC_BB01
    ensures Xor(CheckRegisters()[3], Widen(CheckMessage()[3])) == 0x77B7_9C19
    ensures Xor(CheckRegisters()[4], Widen(CheckMessage()[4])) == 0x641C_1F69
    ensures Xor(CheckRegisters()[5], Widen(CheckMessage()[5])) == 0x340A_C5D5
    ensures Xor(CheckRegisters()[6], Widen(CheckMessage()[6])) == 0xF68D_2CA9
    ensures Xor(CheckRegisters()[7], Widen(CheckMessage()[7])) == 0xAFFC_9658
    ensures Xor(CheckRegisters()[8], Widen(CheckMessage()[8])) == 0x651F_2569
  {}

  lemma CheckOutputs()
    ensures Shift8(Shift)(0xFFFF_FFCE) == CheckRegisters()[1]
    ensures Shift8(Shift)(0x7C23_107A) == CheckRegisters()[2]
    ensures Shift8(Shift)(0xB0AC_BB01) == CheckRegisters()[3]
    ensures Shift8(Shift)(0x77B7_9C19) == CheckRegisters()[4]
    ensures Shift8(Shift)(0x641C_1F69) == CheckRegisters()[5]
    ensures Shift8(Shift)(0x340A_C5D5) == CheckRegisters()[6]
    ensures Shift8(Shift)(0xF68D_2CA9) == CheckRegisters()[7]
    ensures Shift8(Shift)(0xAFFC_9658) == CheckRegisters()[8]
    ensures Shift8(Shift)(0x651F_2569) == CheckRegisters()[9]
  {}

  lemma CheckStep(i: nat)
    requires i < 9
    ensures Shift8(Shift)(Xor(CheckRegisters()[i], Widen(CheckMessage()[i]))) == CheckRegisters()[i + 1]
  {
    hide Shift8, Xor, Widen, CheckRegisters, CheckMessage;
    CheckInputs();
    CheckOutputs();
    assert i == 0 || i == 1 || i == 2 || i == 3 || i == 4 || i == 5 || i == 6 || i == 7 || i == 8;
  }

  lemma {:induction false} CheckPrefix(i: nat)
    requires i <= 9
    ensures Bytewise(Shift8(Shift), CheckMessage()[..i]) == CheckRegisters()[i]
  {
    hide CheckMessage, Widen, Xor, Shift8, Bytewise;
    if i == 0 {
      BytewiseNothing(Shift8(Shift), CheckMessage()[..0]);
    } else {
      CheckPrefix(i - 1);
      CheckStep(i - 1);
      BytewiseStep(Shift8(Shift), CheckMessage(), i - 1);
    }
  }

  // The check value published for this CRC.
  lemma CheckValue()
    ensures Crc(CheckMessage()) == 0xCBF4_3926
  {
    hide Bytewise, CheckMessage, Crc, Shift8;
    CheckPrefix(9);
    assert CheckMessage()[..9] == CheckMessage();
    CrcIsBytewise(CheckMessage());
  }
}
