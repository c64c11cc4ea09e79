/** Memory and configuration requests of CXL.io: what is written into the header fields, and what is
    read out of them. A field keeps the low bits of what is assigned to it. */
module CxlIoCodec {
  import opened Bits
  import opened BitBuffer
  import opened LittleEndian
  import opened Outcomes

  function Reverse<T>(s: seq<T>): (r: seq<T>)
    ensures |r| == |s| && forall i :: 0 <= i < |s| ==> r[i] == s[|s| - 1 - i]
  {
    if s == [] then [] else Reverse(s[1..]) + [s[0]]
  }

  lemma ReverseTwice<T>(s: seq<T>)
    ensures Reverse(Reverse(s)) == s
  {}

  // ----- memory requests -----

  /** The number of DWORDs that [addr, addr + length) touches. */
  function Dwords(addr: nat, length: nat): nat {
    (addr % 4 + length + 3) / 4
  }

  /** Byte `i` after the aligned address is enabled: by the first byte enables in the first DWORD, by
      the last ones in the last DWORD, and always in between. */
  predicate Enabled(first: nat, last: nat, dwords: nat, i: nat) {
    && i < 4 * dwords
    && (if i / 4 == 0 then Bit(first, i) else if i / 4 == dwords - 1 then Bit(last, i % 4) else true)
  }

  /** `((1 << length) - 1) << offset` */
  function BytesEnabled(offset: nat, length: nat): (b: nat) {
    MulLe(0, Pow2(length) - 1, Pow2(offset));
    (Pow2(length) - 1) * Pow2(offset)
  }

  lemma BitOfBytesEnabled(offset: nat, length: nat, i: nat)
    ensures Bit(BytesEnabled(offset, length), i) <==> offset <= i < offset + length
  {
    hide Pow2, Bit;
    var b, ones := BytesEnabled(offset, length), Pow2(length) - 1;
    DivModUnique(b, Pow2(offset), ones, 0);
    if i < offset {
      BitOfMod(b, offset, i);
      BitOfZero(i);
    } else {
      BitShift(b, offset, i - offset);
      DivModUnique(ones, Pow2(length), 0, ones);
      DivModUnique(-1, Pow2(length), -1, ones);
      BitOfMod(-1, length, i - offset);
      MinusOne(i - offset);
    }
  }

  lemma MinusOne(i: nat)
    ensures Bit(-1, i)
  {
    DivModUnique(-1, Pow2(i), -1, Pow2(i) - 1);
  }

  function FirstEnables(offset: nat, length: nat): (e: nat) {
    And(BytesEnabled(offset, length), 0xF)
  }

  function LastEnables(offset: nat, length: nat, dwords: nat): (e: nat) {
    if dwords > 1 then And(BytesEnabled(offset, length) / Pow2((dwords - 1) * 4), 0xF) else 0
  }

  lemma DwordsAre(addr: nat, length: nat)
    ensures Dwords(addr, length) == (addr % 4 + length + 3) / 4
  {}

  /** The enables fit their fields. */
  lemma EnablesFit(offset: nat, length: nat, dwords: nat)
    ensures And(BytesEnabled(offset, length), 0xF) % 16 == FirstEnables(offset, length)
    ensures dwords > 1 ==>
              BytesEnabled(offset, length) / Pow2((dwords - 1) * 4) >= 0
              && And(BytesEnabled(offset, length) / Pow2((dwords - 1) * 4), 0xF) % 16 == LastEnables(offset, length, dwords)
    ensures dwords <= 1 ==> LastEnables(offset, length, dwords) == 0
  {
    hide And, BytesEnabled, Pow2;
    LowFour(BytesEnabled(offset, length));
    if dwords > 1 {
      LowFour(BytesEnabled(offset, length) / Pow2((dwords - 1) * 4));
    }
  }

  lemma LowFour(x: nat)
    ensures And(x, 0xF) == x % Pow2(4) && And(x, 0xF) < 16
  {
    AndMask(x, 4);
    assert Pow2(4) == 16;
  }

  /** The byte enables describe exactly the bytes of the request (section 2.2.5 of the PCI Express
      Base Specification). */
  lemma ByteEnablesExact(addr: nat, length: nat, i: nat)
    ensures var o, n := addr % 4, Dwords(addr, length);
            Enabled(FirstEnables(o, length), LastEnables(o, length, n), n, i) <==> o <= i < o + length
  {
    hide Pow2, Bit, BytesEnabled, And;
    var o, n := addr % 4, Dwords(addr, length);
    var b := BytesEnabled(o, length);
    BitOfBytesEnabled(o, length, i);
    LowFour(b);
    BitOfMod(b, 4, i);
    if n > 1 && i / 4 == n - 1 {
      var up := (n - 1) * 4;
      LowFour(b / Pow2(up));
      BitOfMod(b / Pow2(up), 4, i % 4);
      BitShift(b, up, i % 4);
    }
  }

  const ADDRESS_BITS: nat := 64

  class CxlIoMemReqPacket {
    var lengthUpper: nat // 2 bits
    var lengthLower: nat // 8 bits
    var firstDwBe: nat // 4 bits
    var lastDwBe: nat // 4 bits
    var addrUpper: nat // 56 bits, the bytes of the address from the highest on
    var addrLower: nat // 6 bits

    method Fill(addr: nat, length: nat) returns (r: Outcome<bool>)
      modifies this
      ensures r == if addr < Pow2(ADDRESS_BITS) then Returned(true) else Raised(OverflowError)
      ensures forall i: nat :: Enabled(firstDwBe, lastDwBe, Dwords(addr, length), i) <==> addr % 4 <= i < addr % 4 + length
      ensures GetDataSize() == 4 * (Dwords(addr, length) % 256)
      ensures r.Returned? ==> GetAddress() == addr - addr % 4
      ensures r.Raised? ==> addrUpper == old(addrUpper) && addrLower == old(addrLower)
    {
      hide Dwords, FirstEnables, LastEnables, UpperField, Pow2, Enabled, GetAddress, GetDataSize;
      FillLength(addr, length);
      r := FillAddress(addr);
      forall i: nat ensures Enabled(firstDwBe, lastDwBe, Dwords(addr, length), i) <==> addr % 4 <= i < addr % 4 + length {
        ByteEnablesExact(addr, length, i);
      }
      DataSizeRoundTrip(this, addr, length);
      if r.Returned? {
        AddressRoundTrip(this, addr);
      }
    }

    method FillLength(addr: nat, length: nat)
      modifies this`lengthUpper, this`lengthLower, this`firstDwBe, this`lastDwBe
      ensures firstDwBe == FirstEnables(addr % 4, length) && lastDwBe == LastEnables(addr % 4, length, Dwords(addr, length))
      ensures lengthUpper == 0 && lengthLower == Dwords(addr, length) % 256
    {
      hide And, BytesEnabled, Pow2, FirstEnables, LastEnables, Dwords;
      var addressOffset := addr % 4;
      var lengthDword := (addressOffset + length + 3) / 4;
      EnablesFit(addressOffset, length, lengthDword);
      assert lengthDword == Dwords(addr, length) by { DwordsAre(addr, length); }
      UpperLengthLost(lengthDword);
      Low(lengthDword);
      lengthUpper := And(lengthDword, 0x300) % 4;
      lengthLower := And(lengthDword, 0xFF) % 256;
      var enabled := BytesEnabled(addressOffset, length);
      firstDwBe := And(enabled, 0xF) % 16;
      lastDwBe := 0;
      if lengthDword > 1 {
        var shifted := enabled / Pow2((lengthDword - 1) * 4);
        lastDwBe := And(shifted, 0xF) % 16;
      }
    }

    method FillAddress(addr: nat) returns (r: Outcome<bool>)
      modifies this`addrUpper, this`addrLower
      ensures r == if addr < Pow2(ADDRESS_BITS) then Returned(true) else Raised(OverflowError)
      ensures r.Returned? ==> addrUpper == UpperField(addr) && addrLower == addr % 256 / 4
      ensures r.Raised? ==> addrUpper == old(addrUpper) && addrLower == old(addrLower)
    {
      hide And, Pow2, ToBytes, FromBytes;
      SevenBytes(addr);
      if addr / 256 >= Pow2(56) {
        return Raised(OverflowError);
      }
      var addrUpperBytes := Reverse(ToBytes(addr / 256, 7));
      addrUpper := FromBytes(addrUpperBytes);
      Low(addr);
      addrLower := And(addr, 0xFF) / 4 % 64;
      return Returned(true);
    }

    function GetAddress(): int
      reads this
    {
      var high := FromBytes(Reverse(ToBytes(addrUpper, 7)));
      Or(Or(0, high * 256), addrLower * 4)
    }

    function GetDataSize(): int
      reads this
    {
      Or(lengthUpper * 256, And(lengthLower, 0xFF)) * 4
    }
  }

  /** `length_dword & 0x300` has nothing in the two bits the field keeps. */
  lemma UpperLengthLost(n: nat)
    ensures And(n, 0x300) % 4 == 0
  {
    assert Pow2(2) == 4 && Pow2(8) == 256;
    hide And, Pow2;
    AndField(n, 2, 8);
    var f := n / 256 % 4;
    assert f * 256 % 4 == 0;
  }

  lemma Low(n: nat)
    ensures And(n, 0xFF) == n % 256
  {
    assert Pow2(8) == 256;
    hide And, Pow2;
    AndMask(n, 8);
  }

  lemma SevenBytes(addr: nat)
    ensures addr / 256 < Pow2(56) <==> addr < Pow2(ADDRESS_BITS)
  {
    TopByte();
    hide Pow2;
    var p := Pow2(56);
    assert addr / 256 < p <==> addr < 256 * p;
  }

  lemma TopByte()
    ensures Pow2(ADDRESS_BITS) == 256 * Pow2(56)
  {
    assert Pow2(8) == 256;
    hide Pow2;
    Pow2Add(8, 56);
  }

  /** The high bytes of the address, the highest first. */
  function UpperField(addr: nat): nat {
    FromBytes(Reverse(ToBytes(addr / 256, 7)))
  }

  lemma UpperRoundTrip(addr: nat)
    requires addr < Pow2(ADDRESS_BITS)
    ensures FromBytes(Reverse(ToBytes(UpperField(addr), 7))) == addr / 256
  {
    hide Pow2, ToBytes, FromBytes;
    SevenBytes(addr);
    var b := ToBytes(addr / 256, 7);
    ToFromBytes(Reverse(b));
    ReverseTwice(b);
    FromToBytes(addr / 256, 7);
    assert 8 * 7 == 56;
    DivModUnique(addr / 256, Pow2(56), 0, addr / 256);
  }

  /** The address comes back rounded down to a DWORD. */
  lemma AddressRoundTrip(p: CxlIoMemReqPacket, addr: nat)
    requires addr < Pow2(ADDRESS_BITS) && p.addrUpper == UpperField(addr) && p.addrLower == addr % 256 / 4
    ensures p.GetAddress() == addr - addr % 4
  {
    hide Pow2, ToBytes, FromBytes, And, Or, Reverse, UpperField;
    UpperRoundTrip(addr);
    JoinAddress(addr / 256, addr % 256 / 4);
    RoundedParts(addr);
  }

  lemma JoinAddress(high: nat, low: nat)
    requires low < 64
    ensures Or(Or(0, high * 256), low * 4) == high * 256 + low * 4
  {
    assert Pow2(8) == 256;
    hide Pow2, And;
    AndZero(high * 256);
    DivModUnique(high * 256, 256, high, 0);
    AndDisjoint(high * 256, low * 4, 8);
  }

  lemma RoundedParts(addr: nat)
    ensures addr / 256 * 256 + addr % 256 / 4 * 4 == addr - addr % 4
  {}

  /** The data size comes back exactly for requests of at most 255 DWORDs: the upper two bits of the
      length are lost. */
  lemma DataSizeRoundTrip(p: CxlIoMemReqPacket, addr: nat, length: nat)
    requires p.lengthUpper == 0 && p.lengthLower == Dwords(addr, length) % 256
    ensures p.GetDataSize() == 4 * (Dwords(addr, length) % 256)
    ensures p.GetDataSize() == 4 * Dwords(addr, length) <==> Dwords(addr, length) < 256
  {
    hide And, Or, Dwords;
    LowerOnly(p.lengthLower);
  }

  lemma LowerOnly(lower: nat)
    requires lower < 256
    ensures Or(0, And(lower, 0xFF)) == lower
  {
    hide And;
    Low(lower);
    AndZero(lower);
  }

  // ----- configuration requests -----

  /** The enables of `size` bytes from `offset` on. */
  function CfgEnables(offset: nat, size: nat): nat {
    BytesEnabled(offset, size)
  }

  function PopCount(x: nat): nat {
    if x == 0 then 0 else x % 2 + PopCount(x / 2)
  }

  /** The position of the lowest one bit. */
  function Lowest(x: nat): nat
    requires x > 0
  {
    if x % 2 == 1 then 0 else 1 + Lowest(x / 2)
  }

  lemma {:induction false} ClearLowest(x: nat)
    requires x > 0
    ensures And(x, x - 1) < x && PopCount(And(x, x - 1)) == PopCount(x) - 1
  {
    hide And, PopCount, Lowest;
    var h := x / 2;
    DoubleIs(h);
    if x % 2 == 1 {
      AndEven(x, h);
      AndSelf(h);
    } else {
      ClearLowest(h);
      AndOdd(x, h - 1);
      DoubleIs(And(h, h - 1));
    }
  }

  /** `be & (1 << pos)` tells bit `pos`. */
  lemma TestBit(be: nat, pos: nat)
    ensures And(be, Pow2(pos)) == 0 <==> !Bit(be, pos)
  {
    assert Pow2(1) == 2;
    assert (Pow2(1) - 1) * Pow2(pos) == Pow2(pos);
    hide And, Pow2;
    AndField(be, 1, pos);
  }

  lemma {:induction false} LowestIs(x: nat, pos: nat)
    requires x > 0 && (forall i :: 0 <= i < pos ==> !Bit(x, i)) && Bit(x, pos)
    ensures Lowest(x) == pos
    decreases pos
  {
    hide Bit;
    BitZero(x);
    if pos > 0 {
      assert !Bit(x, 0);
      HalfBit(x, pos);
      forall i | 0 <= i < pos - 1 ensures !Bit(x / 2, i) {
        HalfBit(x, i + 1);
        assert !Bit(x, i + 1);
      }
      LowestIs(x / 2, pos - 1);
    }
  }

  lemma {:induction false} HasLowest(x: nat)
    requires x > 0
    ensures Bit(x, Lowest(x))
  {
    hide Bit;
    BitZero(x);
    if x % 2 == 0 {
      HasLowest(x / 2);
      HalfBit(x, Lowest(x));
    }
  }

  lemma DoubleIs(h: nat)
    ensures h > 0 ==> Lowest(2 * h) == 1 + Lowest(h)
    ensures PopCount(2 * h) == PopCount(h)
    ensures Lowest(2 * h + 1) == 0 && PopCount(2 * h + 1) == 1 + PopCount(h)
  {
    DivModUnique(2 * h, 2, h, 0);
    DivModUnique(2 * h + 1, 2, h, 1);
  }

  lemma MoreOnes(offset: nat, size: nat)
    ensures offset > 0 ==> CfgEnables(offset, size) == 2 * CfgEnables(offset - 1, size)
    ensures CfgEnables(0, size + 1) == 2 * CfgEnables(0, size) + 1
    ensures CfgEnables(0, 0) == 0
  {
    if offset > 0 {
      MulTwo(Pow2(size) - 1, Pow2(offset - 1));
    }
  }

  /** Contiguous enables: where they start and how many there are. */
  lemma {:induction false} Contiguous(offset: nat, size: nat)
    requires size > 0
    ensures CfgEnables(offset, size) > 0
    ensures Lowest(CfgEnables(offset, size)) == offset && PopCount(CfgEnables(offset, size)) == size
    decreases offset + size
  {
    hide CfgEnables, Lowest, PopCount;
    if offset > 0 {
      MoreOnes(offset, size);
      Contiguous(offset - 1, size);
      DoubleIs(CfgEnables(offset - 1, size));
    } else {
      MoreOnes(0, size - 1);
      DoubleIs(CfgEnables(0, size - 1));
      if size > 1 {
        Contiguous(0, size - 1);
      } else {
        NoneCounted();
      }
    }
  }

  lemma NoneCounted()
    ensures PopCount(0) == 0
  {}

  class CxlIoCfgReqPacket {
    var firstDwBe: nat // 4 bits
    var extRegNum: nat // 4 bits
    var regNum: nat // 6 bits
    var value: nat // 4 bytes, of a write

    constructor ()
    {
      firstDwBe, extRegNum, regNum, value := 0, 0, 0, 0;
    }

    predicate Valid()
      reads this
    {
      firstDwBe < 16 && extRegNum < 16 && regNum < 64
    }

    method Fill(cfgAddr: nat, size: nat) returns (r: Outcome<bool>)
      modifies this`firstDwBe, this`extRegNum, this`regNum
      ensures r == if cfgAddr > 0xFFF || cfgAddr % 4 + size > 4 then Raised(Unsupported) else Returned(true)
      ensures r.Returned? ==>
                Valid() && firstDwBe == CfgEnables(cfgAddr % 4, size) && extRegNum == cfgAddr / 256 && regNum == cfgAddr / 4 % 64
    {
      hide And, Pow2, CfgEnables;
      LowTwo(cfgAddr);
      if cfgAddr > 0xFFF { return Raised(Unsupported); }
      var offset := And(cfgAddr, 0x03);
      if offset + size > 4 { return Raised(Unsupported); }
      var be := 0;
      NoEnables(offset);
      for k := 0 to size
        invariant offset == cfgAddr % 4 + k && be == CfgEnables(cfgAddr % 4, k)
      {
        MoreEnables(cfgAddr % 4, k);
        be := Or(be, Pow2(offset));
        offset := offset + 1;
      }
      FewEnables(cfgAddr % 4, size);
      firstDwBe := be % 16;
      RegisterBits(cfgAddr);
      extRegNum := And(cfgAddr / 256, 0x0F) % 16;
      regNum := And(cfgAddr / 4, 0x3F) % 64;
      return Returned(true);
    }

    /** Where the enabled bytes start and how many there are. The first loop needs an enabled byte to
        stop. */
    method GetCfgAddrWriteInfo() returns (cfgAddr: nat, size: nat)
      requires Valid() && firstDwBe > 0
      ensures cfgAddr == (extRegNum * 64 + regNum) * 4 + Lowest(firstDwBe) && size == PopCount(firstDwBe)
    {
      hide And, Or, Pow2, Bit, Lowest, PopCount;
      RegisterNumber(extRegNum, regNum);
      var number := Or(extRegNum * 64, regNum);
      var be, b, pos := firstDwBe, 1, 0;
      HasLowest(be);
      TestBit(be, 0);
      OneIsPow2();
      while And(be, b) == 0
        invariant b == Pow2(pos) && pos <= Lowest(firstDwBe)
        invariant forall i :: 0 <= i < pos ==> !Bit(be, i)
        decreases Lowest(firstDwBe) - pos
      {
        TestBit(be, pos);
        NextPow2(pos);
        b := b * 2;
        pos := pos + 1;
      }
      TestBit(be, pos);
      LowestIs(be, pos);
      cfgAddr := number * 4 + pos;
      size := 0;
      while be != 0
        invariant be >= 0 && size + PopCount(be) == PopCount(firstDwBe)
        decreases be
      {
        ClearLowest(be);
        be := And(be, be - 1);
        size := size + 1;
      }
      NoneCounted();
    }

    /** `CxlIoCfgWrPacket.create` */
    method CreateWrite(cfgAddr: nat, size: nat, v: int) returns (r: Outcome<bool>)
      modifies this
      ensures r == if cfgAddr > 0xFFF || cfgAddr % 4 + size > 4 then Raised(Unsupported)
                   else if 0 <= v * Pow2(8 * (cfgAddr % 4)) < Pow2(32) then Returned(true)
                   else Raised(OverflowError)
      ensures r.Returned? ==>
                && Valid() && firstDwBe == CfgEnables(cfgAddr % 4, size) && extRegNum == cfgAddr / 256 && regNum == cfgAddr / 4 % 64
                && value == v * Pow2(8 * (cfgAddr % 4))
    {
      hide And, Pow2, CfgEnables;
      var offset := cfgAddr % 4;
      r := Fill(cfgAddr, size);
      if r.Raised? { return; }
      var shifted := v * Pow2(8 * offset);
      if shifted < 0 || shifted >= Pow2(32) { return Raised(OverflowError); }
      value := shifted;
    }

    method GetValue() returns (v: nat)
      requires Valid() && firstDwBe > 0
      ensures v == Slice(value, 8 * Lowest(firstDwBe), 8 * PopCount(firstDwBe))
    {
      hide And, Pow2, Slice, Lowest, PopCount;
      var cfgAddr, size := GetCfgAddrWriteInfo();
      LowestBelowFour(firstDwBe);
      OffsetOf(extRegNum * 64 + regNum, Lowest(firstDwBe));
      var offset := cfgAddr % 4;
      var bitOffset := offset % 4 * 8;
      MaskedSlice(value, bitOffset, size * 8);
      v := And(value / Pow2(bitOffset), Pow2(size * 8) - 1);
    }
  }

  lemma OffsetOf(number: nat, offset: nat)
    requires offset < 4
    ensures (number * 4 + offset) % 4 == offset && offset % 4 == offset
  {}

  lemma MaskedSlice(n: nat, o: nat, w: nat)
    ensures And(n / Pow2(o), Pow2(w) - 1) == Slice(n, o, w)
  {
    hide And, Pow2;
    AndMask(n / Pow2(o), w);
  }

  /** Every legal write request comes back: address, size, and the low bytes of the value, which are
      all of it exactly when it fits the size. */
  method CfgWriteRoundTrip(cfgAddr: nat, size: nat, v: nat) returns (cfgAddr': nat, size': nat, v': nat)
    requires cfgAddr <= 0xFFF && size > 0 && cfgAddr % 4 + size <= 4
    requires v * Pow2(8 * (cfgAddr % 4)) < Pow2(32)
    ensures cfgAddr' == cfgAddr && size' == size
    ensures v' == v % Pow2(8 * size) && (v' == v <==> v < Pow2(8 * size))
  {
    hide And, Pow2, CfgEnables, Lowest, PopCount;
    var p := new CxlIoCfgReqPacket();
    MulLe(0, v, Pow2(8 * (cfgAddr % 4)));
    var r := p.CreateWrite(cfgAddr, size, v);
    Contiguous(cfgAddr % 4, size);
    cfgAddr', size' := p.GetCfgAddrWriteInfo();
    v' := p.GetValue();
    RegisterAddress(cfgAddr);
    ShiftedSlice(v, 8 * (cfgAddr % 4), 8 * size);
    ModIsSelf(v, Pow2(8 * size));
  }

  lemma ShiftedSlice(v: nat, o: nat, w: nat)
    ensures Slice(v * Pow2(o), o, w) == v % Pow2(w)
  {
    hide Pow2;
    DivModUnique(v * Pow2(o), Pow2(o), v, 0);
  }

  lemma ModIsSelf(v: nat, d: nat)
    requires d > 0
    ensures v % d == v <==> v < d
  {
    if v < d {
      DivModUnique(v, d, 0, v);
    }
  }

  lemma RegisterAddress(n: nat)
    requires n <= 0xFFF
    ensures (n / 256 * 64 + n / 4 % 64) * 4 + n % 4 == n
  {}

  /** Without an enabled byte the first loop has nothing to stop at. */
  lemma FirstLoopStopsIff(be: nat)
    ensures (exists pos: nat :: And(be, Pow2(pos)) != 0) <==> be > 0
  {
    hide And, Pow2, Bit;
    if be > 0 {
      HasLowest(be);
      TestBit(be, Lowest(be));
    } else {
      forall pos: nat ensures And(be, Pow2(pos)) == 0 {
        AndZero(Pow2(pos));
      }
    }
  }

  /** A request that is filled in has something to stop at exactly when its size is not 0. */
  lemma FilledLoopStopsIff(offset: nat, size: nat)
    ensures (exists pos: nat :: And(CfgEnables(offset, size), Pow2(pos)) != 0) <==> size > 0
  {
    hide And, Pow2, CfgEnables, Lowest, PopCount;
    FirstLoopStopsIff(CfgEnables(offset, size));
    if size > 0 { Contiguous(offset, size); } else { NoEnables(offset); }
  }

  /** A request of size 0 is accepted, and the first loop does not stop for it. */
  method EmptyRequest(cfgAddr: nat) returns (p: CxlIoCfgReqPacket)
    requires cfgAddr <= 0xFFF
    ensures p.Valid() && p.firstDwBe == 0 && forall pos: nat :: And(p.firstDwBe, Pow2(pos)) == 0
  {
    hide And, Pow2, CfgEnables;
    p := new CxlIoCfgReqPacket();
    var r := p.Fill(cfgAddr, 0);
    NoEnables(cfgAddr % 4);
    FirstLoopStopsIff(0);
  }

  lemma OneIsPow2()
    ensures Pow2(0) == 1
  {}

  lemma NextPow2(n: nat)
    ensures Pow2(n + 1) == 2 * Pow2(n)
  {}

  lemma {:induction false} LowestBelow(x: nat, w: nat)
    requires 0 < x < Pow2(w)
    ensures Lowest(x) < w
    decreases w
  {
    if x % 2 == 0 {
      LowestBelow(x / 2, w - 1);
    }
  }

  lemma LowestBelowFour(x: nat)
    requires 0 < x < 16
    ensures Lowest(x) < 4
  {
    assert Pow2(4) == 16;
    LowestBelow(x, 4);
  }

  lemma RegisterNumber(ext: nat, reg: nat)
    requires reg < 64
    ensures Or(ext * 64, reg) == ext * 64 + reg
  {
    assert Pow2(6) == 64;
    hide And, Pow2;
    DivModUnique(ext * 64, 64, ext, 0);
    AndDisjoint(ext * 64, reg, 6);
  }

  lemma LowTwo(n: nat)
    ensures And(n, 3) == n % 4
  {
    assert Pow2(2) == 4;
    hide And, Pow2;
    AndMask(n, 2);
  }

  lemma RegisterBits(n: nat)
    requires n <= 0xFFF
    ensures And(n / 256, 0x0F) % 16 == n / 256 && And(n / 4, 0x3F) % 64 == n / 4 % 64
  {
    hide And;
    LowFour(n / 256);
    LowSix(n / 4);
  }

  lemma LowSix(n: nat)
    ensures And(n, 0x3F) == n % 64
  {
    assert Pow2(6) == 64;
    hide And, Pow2;
    AndMask(n, 6);
  }

  lemma NoEnables(offset: nat)
    ensures CfgEnables(offset, 0) == 0
  {}

  lemma EnablesBelow(offset: nat, k: nat)
    ensures CfgEnables(offset, k) == Pow2(offset + k) - Pow2(offset)
  {
    hide Pow2;
    Pow2Add(offset, k);
    assert (Pow2(k) - 1) * Pow2(offset) == Pow2(offset) * Pow2(k) - Pow2(offset);
  }

  lemma MoreEnables(offset: nat, k: nat)
    ensures Or(CfgEnables(offset, k), Pow2(offset + k)) == CfgEnables(offset, k + 1)
  {
    NextPow2(offset + k);
    hide Pow2, CfgEnables, Or;
    EnablesBelow(offset, k);
    EnablesBelow(offset, k + 1);
    OrHighLow(CfgEnables(offset, k), 1, offset + k);
  }

  lemma FewEnables(offset: nat, size: nat)
    requires offset + size <= 4
    ensures CfgEnables(offset, size) < 16
  {
    assert Pow2(4) == 16;
    hide Pow2, CfgEnables;
    EnablesBelow(offset, size);
    Pow2Mono(offset + size, 4);
  }
}
