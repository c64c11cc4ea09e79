/** The size of a base address register: how a device chooses it, what it answers when all ones are
    written to the register, and what the enumeration makes of the answer. */
module BarRegister {
  import opened Bits

  const FOUR_GB: nat := 0x1_0000_0000

  lemma Powers()
    ensures Pow2(4) == 16 && Pow2(12) == 0x1000 && Pow2(20) == 0x100000 && Pow2(32) == FOUR_GB
  {
    assert Pow2(4) == 16 && Pow2(8) == 256;
    Pow2Add(4, 8);
    Pow2Add(8, 12);
    Pow2Add(12, 20);
  }

  // ----- rounding up to a power of two -----

  /** `number | number >> k` */
  function Smear(number: nat, k: nat): nat {
    DivSmaller(number, Pow2(k));
    Or(number, number / Pow2(k))
  }

  /** `round_up_to_power_of_2` */
  function RoundUp(number: nat): nat
    requires number > 0
  {
    Smear(Smear(Smear(Smear(Smear(number - 1, 1), 2), 4), 8), 16) + 1
  }

  /** The place of the highest one. */
  function Top(n: nat): (t: nat)
    requires n > 0
  {
    if n == 1 then 0 else 1 + Top(n / 2)
  }

  lemma {:induction false} TopBounds(n: nat)
    requires n > 0
    ensures Pow2(Top(n)) <= n < Pow2(Top(n) + 1) && Bit(n, Top(n))
  {
    if n == 1 {
      assert Pow2(0) == 1 && Pow2(1) == 2;
    } else {
      TopBounds(n / 2);
      HalfBit(n, Top(n));
    }
  }

  /** `x` lies below the place `top`, and the `count` places from there down are ones. */
  ghost predicate OnesFrom(x: nat, top: nat, count: nat) {
    x < Pow2(top + 1) && forall i :: 0 <= i <= top && top < i + count ==> Bit(x, i)
  }

  lemma {:induction false} OrBelow(x: nat, y: nat, w: nat)
    requires x < Pow2(w) && y < Pow2(w)
    ensures 0 <= Or(x, y) < Pow2(w)
    decreases w
  {
    hide And;
    if w == 0 {
      assert x == 0 && y == 0;
      AndZero(0);
    } else {
      OrBelow(x / 2, y / 2, w - 1);
      OrHalves(x, y);
    }
  }

  lemma SmearDoubles(x: nat, top: nat, count: nat)
    requires OnesFrom(x, top, count)
    ensures OnesFrom(Smear(x, count), top, 2 * count)
  {
    hide Or, Pow2, Bit;
    DivSmaller(x, Pow2(count));
    OrBelow(x, x / Pow2(count), top + 1);
    forall i | 0 <= i <= top && top < i + 2 * count ensures Bit(Smear(x, count), i) {
      BitOfOr(x, x / Pow2(count), i);
      BitShift(x, count, i);
      if top >= i + count { assert Bit(x, i + count); }
    }
  }

  lemma DivSmaller(x: nat, d: nat)
    requires d > 0
    ensures 0 <= x / d <= x
  {
    var q, r := x / d, x % d;
    assert x == q * d + r;
    if q < 0 {
      MulLe(q, -1, d);
    } else {
      MulLe(1, d, q);
      assert d * q == q * d;
    }
  }

  lemma AllOnes(x: nat, top: nat, count: nat)
    requires OnesFrom(x, top, count) && count > top
    ensures x == Pow2(top + 1) - 1
  {
    hide Pow2, Bit;
    var w := top + 1;
    DivModUnique(-1, Pow2(w), -1, Pow2(w) - 1);
    forall i | 0 <= i < w ensures Bit(x, i) == Bit(Pow2(w) - 1, i) {
      BitOfMod(-1, w, i);
      MinusOne(i);
    }
    Extensional(x, Pow2(w) - 1, w);
  }

  lemma MinusOne(i: nat)
    ensures Bit(-1, i)
  {
    hide Pow2;
    DivModUnique(-1, Pow2(i), -1, Pow2(i) - 1);
  }

  lemma RoundUpByTop(number: nat)
    requires 1 < number <= FOUR_GB
    ensures RoundUp(number) == Pow2(Top(number - 1) + 1)
  {
    var n := number - 1;
    var top := Top(n);
    Powers();
    hide Pow2, Smear, Top;
    TopBounds(n);
    if top > 31 { Pow2Mono(32, top); }
    assert OnesFrom(n, top, 1);
    SmearDoubles(n, top, 1);
    SmearDoubles(Smear(n, 1), top, 2);
    SmearDoubles(Smear(Smear(n, 1), 2), top, 4);
    SmearDoubles(Smear(Smear(Smear(n, 1), 2), 4), top, 8);
    SmearDoubles(Smear(Smear(Smear(Smear(n, 1), 2), 4), 8), top, 16);
    AllOnes(Smear(Smear(Smear(Smear(Smear(n, 1), 2), 4), 8), 16), top, 32);
  }

  /** Up to 4 GB the five shifts give the least power of two that is not below the number. */
  lemma RoundUpIsLeast(number: nat)
    requires 0 < number <= FOUR_GB
    ensures exists k :: RoundUp(number) == Pow2(k)
    ensures forall k: nat :: Pow2(k) >= number <==> Pow2(k) >= RoundUp(number)
  {
    hide RoundUp, Top, Pow2;
    if number == 1 {
      SmearNothing();
    } else {
      RoundUpByTop(number);
      var top := Top(number - 1);
      TopBounds(number - 1);
      forall k: nat ensures Pow2(k) >= number <==> Pow2(k) >= Pow2(top + 1) {
        if k <= top { Pow2Mono(k, top); } else { Pow2Mono(top + 1, k); }
      }
    }
  }

  lemma SmearNothing()
    ensures RoundUp(1) == 1 == Pow2(0)
  {
    hide Pow2, Smear;
    ByOne(0);
    forall k: nat ensures Smear(0, k) == 0 { SmearZero(k); }
  }

  lemma SmearZero(k: nat)
    ensures Smear(0, k) == 0
  {
    hide Pow2, And;
    DivModUnique(0, Pow2(k), 0, 0);
    AndZero(0);
  }

  // ----- the register -----

  /** `get_bar_size`: no registers behind it, no BAR; else at least 4 KB. */
  function BarLength(registers: nat): nat {
    if registers == 0 then 0 else RoundUp(if registers > 0x1000 then registers else 0x1000)
  }

  /** The bits of the register that can be written: `~(bar_size - 1) & 0xFFFFFFFF`. */
  function BarMask(length: nat): (mask: nat)
    ensures mask <= 0xFFFFFFFF
  {
    And(0 - length, 0xFFFFFFFF)
  }

  /** What a register that holds `flags` answers after all ones were written to it. */
  function ReadBack(length: nat, flags: nat): int {
    Or(AndNot(flags, BarMask(length)), And(0xFFFFFFFF, BarMask(length)))
  }

  /** `_get_bar0_size` */
  function SizeOfAnswer(data: int): int {
    if data == 0 then data else 0xFFFFFFFF - data + 1
  }

  lemma MaskIs(length: nat)
    ensures BarMask(length) == if length % FOUR_GB == 0 then 0 else FOUR_GB - length % FOUR_GB
  {
    Powers();
    hide And, Pow2;
    AndMask(0 - length, 32);
    var q, r := length / FOUR_GB, length % FOUR_GB;
    if r == 0 {
      DivModUnique(0 - length, FOUR_GB, -q, 0);
    } else {
      DivModUnique(0 - length, FOUR_GB, -q - 1, FOUR_GB - r);
    }
  }

  lemma OnesAndMask(mask: nat)
    requires mask <= 0xFFFFFFFF
    ensures And(0xFFFFFFFF, mask) == mask
  {
    Powers();
    hide And, Pow2;
    AndComm(0xFFFFFFFF, mask);
    AndMask(mask, 32);
  }

  /** The size found is that of the BAR, but for the bits above the register and for the flags in its low
      bits, which are read back with the mask. */
  lemma SizeFound(length: nat, flags: nat)
    requires length % 16 == 0 && flags < 16
    ensures SizeOfAnswer(ReadBack(length, flags)) ==
              if length % FOUR_GB == 0 && flags == 0 then 0
              else (if length % FOUR_GB == 0 then FOUR_GB else length % FOUR_GB) - flags
  {
    Powers();
    hide And, Pow2;
    var mask := BarMask(length);
    MaskIs(length);
    OnesAndMask(mask);
    assert mask % 16 == 0;
    AndDisjoint(mask, flags, 4);
    AndComm(mask, flags);
  }

  /** A BAR of `length` is found as it is exactly when it has none of the flags set and ends within 32 bits. */
  lemma SizeFoundIff(length: nat, flags: nat)
    requires length % 16 == 0 && flags < 16 && length > 0
    ensures SizeOfAnswer(ReadBack(length, flags)) == length <==> flags == 0 && length < FOUR_GB
  {
    hide SizeOfAnswer, ReadBack;
    SizeFound(length, flags);
  }

  /** The length of a BAR is the least power of two that holds its registers and a page of 4 KB; without
      registers there is no BAR. */
  lemma BarLengthIsLeast(registers: nat)
    requires registers <= FOUR_GB
    ensures registers == 0 ==> BarLength(registers) == 0
    ensures registers > 0 ==> exists k :: BarLength(registers) == Pow2(k)
    ensures registers > 0 ==> forall k: nat :: Pow2(k) >= BarLength(registers) <==> Pow2(k) >= registers && k >= 12
    ensures BarLength(registers) % 16 == 0
  {
    hide RoundUp, Pow2;
    if registers > 0 {
      BarOfRegisters(registers);
    }
  }

  lemma BarOfRegisters(registers: nat)
    requires 0 < registers <= FOUR_GB
    ensures exists k :: BarLength(registers) == Pow2(k)
    ensures forall k: nat :: Pow2(k) >= BarLength(registers) <==> Pow2(k) >= registers && k >= 12
    ensures BarLength(registers) % 16 == 0
  {
    Powers();
    hide RoundUp, Pow2;
    var n := if registers > 0x1000 then registers else 0x1000;
    RoundUpIsLeast(n);
    forall k: nat ensures Pow2(k) >= 0x1000 <==> k >= 12 {
      if k >= 12 { Pow2Mono(12, k); } else { Pow2Mono(k, 11); TwiceBelow(11); }
    }
    var k: nat :| RoundUp(n) == Pow2(k);
    assert Pow2(k) >= RoundUp(n);
    Pow2Add(4, k - 4);
    DivModUnique(Pow2(k), 16, Pow2(k - 4), 0);
  }

  lemma TwiceBelow(k: nat)
    ensures Pow2(k) < Pow2(k + 1)
  {}

  lemma AnswerIsLength(length: nat)
    ensures SizeOfAnswer(ReadBack(length, 0)) == length % FOUR_GB
  {
    hide And, BarMask;
    MaskIs(length);
    OnesAndMask(BarMask(length));
    AndZero(BarMask(length));
  }

  /** The size that the enumeration finds for a BAR without flags is its length, if that is below 4 GB,
      and 0 where there is no BAR. */
  function DetectedSize(length: nat): (size: nat)
    ensures size == length % FOUR_GB
  {
    AnswerIsLength(length);
    SizeOfAnswer(ReadBack(length, 0))
  }
}
