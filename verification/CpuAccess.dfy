/** Processor loads and stores that span many lines, through a cache that evicts as it goes.

    The memory behind the cache answers the cache's requests and nobody else uses the lines; what
    state it lets a line be filled in is left open. An access may start inside a line: the cache takes
    it for the line, host memory for the bytes from the address on. */
module CpuAccess {
  import opened Bits
  import opened CoherenceTypes
  import opened DeviceCache
  import opened LittleEndian
  import opened Outcomes

  datatype AddrType = Dram | CxlCached | CxlCachedBi

  datatype MemRange = MemRange(base: nat, size: nat, kind: AddrType)

  const LINE_BITS: nat := 512

  predicate InRange(ranges: seq<MemRange>, a: nat) {
    exists i :: 0 <= i < |ranges| && ranges[i].base <= a < ranges[i].base + ranges[i].size
  }

  /** The kind of the first range that has the address. */
  function KindOf(ranges: seq<MemRange>, a: nat): Option<AddrType> {
    if ranges == [] then None
    else if ranges[0].base <= a < ranges[0].base + ranges[0].size then Some(ranges[0].kind)
    else KindOf(ranges[1..], a)
  }

  /** Range `i` has the address and none before it does. */
  predicate FirstIn(ranges: seq<MemRange>, a: nat, i: nat)
    requires i < |ranges|
  {
    && ranges[i].base <= a < ranges[i].base + ranges[i].size
    && forall j :: 0 <= j < i ==> !(ranges[j].base <= a < ranges[j].base + ranges[j].size)
  }

  lemma FirstLater(ranges: seq<MemRange>, a: nat, i: nat)
    requires ranges != [] && i < |ranges[1..]| && FirstIn(ranges[1..], a, i)
    requires !(ranges[0].base <= a < ranges[0].base + ranges[0].size)
    ensures FirstIn(ranges, a, i + 1)
  {
    forall j | 0 <= j < i + 1 ensures !(ranges[j].base <= a < ranges[j].base + ranges[j].size) {
      if j > 0 { assert ranges[1..][j - 1] == ranges[j]; }
    }
  }

  lemma {:induction false} KindOfRange(ranges: seq<MemRange>, a: nat)
    ensures KindOf(ranges, a).Some? <==> InRange(ranges, a)
  {
    if ranges != [] && !(ranges[0].base <= a < ranges[0].base + ranges[0].size) {
      KindOfRange(ranges[1..], a);
      if InRange(ranges, a) {
        var i :| 0 <= i < |ranges| && ranges[i].base <= a < ranges[i].base + ranges[i].size;
        assert ranges[1..][i - 1] == ranges[i];
      }
      if InRange(ranges[1..], a) {
        var i :| 0 <= i < |ranges[1..]| && ranges[1..][i].base <= a < ranges[1..][i].base + ranges[1..][i].size;
        assert ranges[i + 1] == ranges[1..][i];
      }
    }
  }

  /** The kind is that of the first range that has the address. */
  lemma {:induction false} KindIsFirst(ranges: seq<MemRange>, a: nat) returns (i: nat)
    requires KindOf(ranges, a).Some?
    ensures i < |ranges| && FirstIn(ranges, a, i) && ranges[i].kind == KindOf(ranges, a).value
  {
    if ranges[0].base <= a < ranges[0].base + ranges[0].size {
      i := 0;
    } else {
      var k := KindIsFirst(ranges[1..], a);
      FirstLater(ranges, a, k);
      i := k + 1;
    }
  }

  // ----- lines of memory, through the cache -----

  /** The last value stored to the line. */
  function Latest(view: map<nat, Copy>, mem: map<nat, nat>, a: nat): nat {
    if a in view then view[a].data else MemoryRead(mem, a)
  }

  ghost predicate SameLines(view: map<nat, Copy>, mem: map<nat, nat>, view': map<nat, Copy>, mem': map<nat, nat>) {
    forall a: nat :: Latest(view', mem', a) == Latest(view, mem, a)
  }

  ghost predicate LineWritten(view: map<nat, Copy>, mem: map<nat, nat>, addr: nat, data: nat, view': map<nat, Copy>, mem': map<nat, nat>) {
    forall a: nat :: Latest(view', mem', a) == if a == addr then data else Latest(view, mem, a)
  }

  lemma WriteBackKeepsLines(view: map<nat, Copy>, mem: map<nat, nat>, v: nat)
    requires v in view
    ensures SameLines(view, mem, view - {v}, mem[v := view[v].data])
  {}

  lemma FillKeepsLines(view: map<nat, Copy>, mem: map<nat, nat>, a: nat, state: CacheState)
    requires a !in view
    ensures SameLines(view, mem, view[a := Copy(state, MemoryRead(mem, a))], mem)
  {}

  lemma WriteChangesLine(view: map<nat, Copy>, mem: map<nat, nat>, view0: map<nat, Copy>, mem0: map<nat, nat>, a: nat, d: nat)
    requires SameLines(view0, mem0, view, mem)
    ensures LineWritten(view0, mem0, a, d, view[a := Copy(Modified, d)], mem)
  {
    forall b: nat ensures Latest(view[a := Copy(Modified, d)], mem, b) == if b == a then d else Latest(view0, mem0, b) {
      assert Latest(view, mem, b) == Latest(view0, mem0, b);
    }
  }

  lemma SameLinesRefl(view: map<nat, Copy>, mem: map<nat, nat>)
    ensures SameLines(view, mem, view, mem)
  {}

  lemma SameAt(v0: map<nat, Copy>, m0: map<nat, nat>, v1: map<nat, Copy>, m1: map<nat, nat>, a: nat)
    requires SameLines(v0, m0, v1, m1)
    ensures Latest(v1, m1, a) == Latest(v0, m0, a)
  {}

  lemma WrittenAfterSame(v0: map<nat, Copy>, m0: map<nat, nat>, v1: map<nat, Copy>, m1: map<nat, nat>, addr: nat, data: nat,
                         v2: map<nat, Copy>, m2: map<nat, nat>)
    requires SameLines(v0, m0, v1, m1) && LineWritten(v1, m1, addr, data, v2, m2)
    ensures LineWritten(v0, m0, addr, data, v2, m2)
  {
    forall a: nat ensures Latest(v2, m2, a) == if a == addr then data else Latest(v0, m0, a) {
      assert Latest(v1, m1, a) == Latest(v0, m0, a);
    }
  }

  lemma SameLinesTrans(v0: map<nat, Copy>, m0: map<nat, nat>, v1: map<nat, Copy>, m1: map<nat, nat>, v2: map<nat, Copy>, m2: map<nat, nat>)
    requires SameLines(v0, m0, v1, m1) && SameLines(v1, m1, v2, m2)
    ensures SameLines(v0, m0, v2, m2)
  {
    forall a: nat ensures Latest(v2, m2, a) == Latest(v0, m0, a) {
      assert Latest(v1, m1, a) == Latest(v0, m0, a);
    }
  }

  // ----- what a load asks the memory for -----

  /** The 64 bytes of memory from any address on. */
  function BytesFrom(mem: map<nat, nat>, a: nat): nat {
    Joined(MemoryRead(mem, LineStart(a)), MemoryRead(mem, LineStart(a) + BLK_SIZE), a % BLK_SIZE)
  }

  /** 64 bytes from byte `o` of a line on, the last of which are in the next line. */
  function Joined(line: nat, next: nat, o: nat): nat
    requires o < BLK_SIZE
  {
    hide Pow2;
    MulLe(0, next % Pow2(8 * o), Pow2(8 * (BLK_SIZE - o)));
    line / Pow2(8 * o) + next % Pow2(8 * o) * Pow2(8 * (BLK_SIZE - o))
  }

  lemma JoinedWhole(line: nat, next: nat)
    ensures Joined(line, next, 0) == line
  {
    assert Pow2(0) == 1;
    hide Pow2;
    assert line / 1 == line && next % 1 == 0;
  }

  /** Host memory is read from the address on; a request to a CXL device names the line. */
  function Fetched(ranges: seq<MemRange>, mem: map<nat, nat>, a: nat): nat {
    if KindOf(ranges, a) == Some(Dram) then BytesFrom(mem, a) else MemoryRead(mem, LineStart(a))
  }

  /** The address is the first of its line, or the memory is asked for the line in any case. */
  predicate WholeLine(ranges: seq<MemRange>, a: nat) {
    Aligned(a) || KindOf(ranges, a) != Some(Dram)
  }

  lemma WholeLineFetched(ranges: seq<MemRange>, mem: map<nat, nat>, a: nat)
    requires WholeLine(ranges, a)
    ensures Fetched(ranges, mem, a) == MemoryRead(mem, LineStart(a))
  {
    JoinedWhole(MemoryRead(mem, LineStart(a)), MemoryRead(mem, LineStart(a) + BLK_SIZE));
  }

  /** Memory was changed by write-backs of last values at most. */
  ghost predicate WroteBack(view: map<nat, Copy>, mem: map<nat, nat>, mem': map<nat, nat>) {
    forall a: nat :: MemoryRead(mem', a) == MemoryRead(mem, a) || MemoryRead(mem', a) == Latest(view, mem, a)
  }

  /** A load of 64 bytes: of a cached line it gives the line, and no line changes. Otherwise it gives what
      memory answers after any write-back; this becomes the value of the line if the line is cached then. */
  ghost predicate LoadDone(ranges: seq<MemRange>, view: map<nat, Copy>, mem: map<nat, nat>, addr: nat,
                           view': map<nat, Copy>, mem': map<nat, nat>, data: nat) {
    if LineStart(addr) in view then SameLines(view, mem, view', mem') && data == Latest(view, mem, LineStart(addr))
    else
      && WroteBack(view, mem, mem') && data == Fetched(ranges, mem', addr)
      && forall a: nat :: Latest(view', mem', a) == if a == LineStart(addr) && a in view' then data else Latest(view, mem, a)
  }

  /** A load of a whole line gives its last value and changes no line. */
  lemma WholeLineLoad(ranges: seq<MemRange>, view: map<nat, Copy>, mem: map<nat, nat>, addr: nat,
                      view': map<nat, Copy>, mem': map<nat, nat>, data: nat)
    requires LoadDone(ranges, view, mem, addr, view', mem', data) && WholeLine(ranges, addr)
    ensures SameLines(view, mem, view', mem') && data == Latest(view, mem, LineStart(addr))
  {
    hide WholeLine;
    WholeLineFetched(ranges, mem', addr);
    if LineStart(addr) !in view {
      assert MemoryRead(mem', LineStart(addr)) == MemoryRead(mem, LineStart(addr));
    }
  }

  lemma WroteBackRefl(view: map<nat, Copy>, mem: map<nat, nat>)
    ensures WroteBack(view, mem, mem)
  {}

  lemma WroteBackTwice(v0: map<nat, Copy>, m0: map<nat, nat>, v1: map<nat, Copy>, m1: map<nat, nat>, m2: map<nat, nat>)
    requires SameLines(v0, m0, v1, m1) && WroteBack(v0, m0, m1) && WroteBack(v1, m1, m2)
    ensures WroteBack(v0, m0, m2)
  {
    forall a: nat ensures MemoryRead(m2, a) == MemoryRead(m0, a) || MemoryRead(m2, a) == Latest(v0, m0, a) {
      assert MemoryRead(m2, a) == MemoryRead(m1, a) || MemoryRead(m2, a) == Latest(v1, m1, a);
      assert MemoryRead(m1, a) == MemoryRead(m0, a) || MemoryRead(m1, a) == Latest(v0, m0, a);
      assert Latest(v1, m1, a) == Latest(v0, m0, a);
    }
  }

  lemma WroteBackLine(view: map<nat, Copy>, mem: map<nat, nat>, v: nat)
    requires v in view
    ensures WroteBack(view, mem, mem[v := view[v].data])
  {}

  /** A write-back that keeps all lines, and then the load. */
  lemma LoadAfterWriteBack(ranges: seq<MemRange>, v0: map<nat, Copy>, m0: map<nat, nat>, v1: map<nat, Copy>, m1: map<nat, nat>, addr: nat,
                           v2: map<nat, Copy>, m2: map<nat, nat>, data: nat)
    requires LineStart(addr) !in v0 && LineStart(addr) !in v1
    requires SameLines(v0, m0, v1, m1) && WroteBack(v0, m0, m1)
    requires LoadDone(ranges, v1, m1, addr, v2, m2, data)
    ensures LoadDone(ranges, v0, m0, addr, v2, m2, data)
  {
    hide Fetched;
    forall a: nat ensures MemoryRead(m2, a) == MemoryRead(m0, a) || MemoryRead(m2, a) == Latest(v0, m0, a) {
      assert MemoryRead(m2, a) == MemoryRead(m1, a) || MemoryRead(m2, a) == Latest(v1, m1, a);
      assert MemoryRead(m1, a) == MemoryRead(m0, a) || MemoryRead(m1, a) == Latest(v0, m0, a);
      assert Latest(v1, m1, a) == Latest(v0, m0, a);
    }
    forall a: nat ensures Latest(v2, m2, a) == if a == LineStart(addr) && a in v2 then data else Latest(v0, m0, a) {
      assert Latest(v1, m1, a) == Latest(v0, m0, a);
    }
  }

  /** The memory's answer fills the line, or the line is not kept. */
  lemma FillIsLoad(ranges: seq<MemRange>, view: map<nat, Copy>, mem: map<nat, nat>, addr: nat, state: CacheState, fill: bool)
    requires LineStart(addr) !in view
    ensures var data := Fetched(ranges, mem, addr);
            LoadDone(ranges, view, mem, addr, if fill then view[LineStart(addr) := Copy(state, data)] else view, mem, data)
  {
    hide Fetched;
    WroteBackRefl(view, mem);
  }

  // ----- accesses inside a line -----

  /** A miss in host memory keeps all lines, whatever memory holds, exactly at the start of a line. */
  lemma MissKeepsLines(view: map<nat, Copy>, a: nat, state: CacheState)
    requires LineStart(a) !in view
    ensures (forall mem: map<nat, nat> :: SameLines(view, mem, view[LineStart(a) := Copy(state, BytesFrom(mem, a))], mem)) <==> Aligned(a)
  {
    hide BytesFrom, SameLines;
    if Aligned(a) {
      forall mem: map<nat, nat> ensures SameLines(view, mem, view[LineStart(a) := Copy(state, BytesFrom(mem, a))], mem) {
        AlignedBytes(mem, a);
        FillKeepsLines(view, mem, LineStart(a), state);
      }
    } else {
      OneIsMissed(view, a, state);
    }
  }

  lemma AlignedBytes(mem: map<nat, nat>, a: nat)
    requires Aligned(a)
    ensures BytesFrom(mem, a) == MemoryRead(mem, LineStart(a))
  {
    JoinedWhole(MemoryRead(mem, LineStart(a)), MemoryRead(mem, LineStart(a) + BLK_SIZE));
  }

  lemma JoinedLowByte(o: nat)
    requires 0 < o < BLK_SIZE
    ensures Joined(1, 0, o) == 0
  {
    ShiftedOne(o);
    hide Pow2;
    DivModUnique(0, Pow2(8 * o), 0, 0);
    DivModUnique(1, Pow2(8 * o), 0, 1);
  }

  lemma ShiftedOne(o: nat)
    requires o > 0
    ensures Pow2(8 * o) > 1
  {
    assert Pow2(1) == 2;
    hide Pow2;
    Pow2Mono(1, 8 * o);
  }

  /** The line 1 turns into 0. */
  lemma OneIsMissed(view: map<nat, Copy>, a: nat, state: CacheState)
    requires LineStart(a) !in view && !Aligned(a)
    ensures var mem := map[LineStart(a) := 1]; !SameLines(view, mem, view[LineStart(a) := Copy(state, BytesFrom(mem, a))], mem)
  {
    var mem := map[LineStart(a) := 1];
    LineStartFacts(1, a);
    JoinedLowByte(a % BLK_SIZE);
    assert BytesFrom(mem, a) == 0;
    var filled := view[LineStart(a) := Copy(state, BytesFrom(mem, a))];
    assert Latest(filled, mem, LineStart(a)) != Latest(view, mem, LineStart(a));
  }

  /** Loads of an address change no line, whatever is cached and stored, exactly when they are of whole lines. */
  lemma LoadKeepsLines(ranges: seq<MemRange>, a: nat)
    ensures (forall view: map<nat, Copy>, mem: map<nat, nat>, view': map<nat, Copy>, mem': map<nat, nat>, data: nat ::
               LoadDone(ranges, view, mem, a, view', mem', data) ==> SameLines(view, mem, view', mem'))
            <==> WholeLine(ranges, a)
  {
    hide LoadDone, SameLines, BytesFrom;
    if WholeLine(ranges, a) {
      forall view: map<nat, Copy>, mem: map<nat, nat>, view': map<nat, Copy>, mem': map<nat, nat>, data: nat
        | LoadDone(ranges, view, mem, a, view', mem', data) ensures SameLines(view, mem, view', mem')
      {
        WholeLineLoad(ranges, view, mem, a, view', mem', data);
      }
    } else {
      var mem := map[LineStart(a) := 1];
      FillIsLoad(ranges, map[], mem, a, Exclusive, true);
      OneIsMissed(map[], a, Exclusive);
    }
  }

  /** The 64 bytes from any address on, as stored last. */
  function MeantBytes(view: map<nat, Copy>, mem: map<nat, nat>, a: nat): nat {
    Joined(Latest(view, mem, LineStart(a)), Latest(view, mem, LineStart(a) + BLK_SIZE), a % BLK_SIZE)
  }

  /** Loads of an address give the bytes stored last from the address on, whatever is cached and stored,
      exactly at the start of a line. */
  lemma LoadGivesMeantBytes(ranges: seq<MemRange>, a: nat)
    ensures (forall view: map<nat, Copy>, mem: map<nat, nat>, view': map<nat, Copy>, mem': map<nat, nat>, data: nat ::
               LoadDone(ranges, view, mem, a, view', mem', data) ==> data == MeantBytes(view, mem, a))
            <==> Aligned(a)
  {
    hide LoadDone, Joined;
    if Aligned(a) {
      forall view: map<nat, Copy>, mem: map<nat, nat>, view': map<nat, Copy>, mem': map<nat, nat>, data: nat
        | LoadDone(ranges, view, mem, a, view', mem', data) ensures data == MeantBytes(view, mem, a)
      {
        WholeLineLoad(ranges, view, mem, a, view', mem', data);
        JoinedWhole(Latest(view, mem, LineStart(a)), Latest(view, mem, LineStart(a) + BLK_SIZE));
      }
    } else {
      HitGivesLine(ranges, a);
      JoinedLowByte(a % BLK_SIZE);
    }
  }

  lemma HitGivesLine(ranges: seq<MemRange>, a: nat)
    ensures var view := map[LineStart(a) := Copy(Exclusive, 1)]; LoadDone(ranges, view, map[], a, view, map[], 1)
    ensures Latest(map[LineStart(a) := Copy(Exclusive, 1)], map[], LineStart(a)) == 1
    ensures Latest(map[LineStart(a) := Copy(Exclusive, 1)], map[], LineStart(a) + BLK_SIZE) == 0
  {}

  /** The byte stored last at an address. */
  function ByteIn(view: map<nat, Copy>, mem: map<nat, nat>, b: nat): nat {
    Latest(view, mem, LineStart(b)) / Pow2(8 * (b % BLK_SIZE)) % 256
  }

  /** Bytes of two lines one after the other. */
  lemma JoinedByte(line: nat, next: nat, o: nat, j: nat)
    requires line < Pow2(LINE_BITS) && o < BLK_SIZE && j < BLK_SIZE
    ensures Joined(line, next, o) / Pow2(8 * j) % 256 ==
              if o + j < BLK_SIZE then line / Pow2(8 * (o + j)) % 256 else next / Pow2(8 * (o + j - BLK_SIZE)) % 256
  {
    hide Pow2, ToBytes;
    var joined, m := Joined(line, next, o), BLK_SIZE - o;
    JoinedParts(line, next, o);
    if j < m {
      ToBytesOfMod(joined, m, m);
      ByteAt(joined, m, j);
      ByteAt(joined % Pow2(8 * m), m, j);
      DivPow2(line, 8 * o, 8 * j);
    } else {
      DivPow2(joined, 8 * m, 8 * (j - m));
      ToBytesOfMod(next, o, o);
      ByteAt(next, o, j - m);
      ByteAt(next % Pow2(8 * o), o, j - m);
    }
  }

  lemma JoinedParts(line: nat, next: nat, o: nat)
    requires line < Pow2(LINE_BITS) && o < BLK_SIZE
    ensures Joined(line, next, o) % Pow2(8 * (BLK_SIZE - o)) == line / Pow2(8 * o)
    ensures Joined(line, next, o) / Pow2(8 * (BLK_SIZE - o)) == next % Pow2(8 * o)
  {
    hide Pow2;
    var p, q := Pow2(8 * o), Pow2(8 * (BLK_SIZE - o));
    Pow2Add(8 * o, 8 * (BLK_SIZE - o));
    var low := line / p;
    assert line == low * p + line % p;
    assert q * p == p * q;
    if low >= q { MulLe(q, low, p); }
    if low < 0 { MulLe(low, -1, p); }
    DivModUnique(Joined(line, next, o), q, next % p, low);
  }

  lemma BytePlace(a: nat, j: nat)
    requires j < BLK_SIZE
    ensures LineStart(a + j) == if a % BLK_SIZE + j < BLK_SIZE then LineStart(a) else LineStart(a) + BLK_SIZE
    ensures (a + j) % BLK_SIZE == if a % BLK_SIZE + j < BLK_SIZE then a % BLK_SIZE + j else a % BLK_SIZE + j - BLK_SIZE
  {}

  /** The bytes meant by a load of any address are those stored last at the address and behind it, and what a
      miss in host memory reads are those that memory holds, also where they go on into the next line. */
  lemma MeantByteAt(view: map<nat, Copy>, mem: map<nat, nat>, a: nat, j: nat)
    requires j < BLK_SIZE
    ensures Latest(view, mem, LineStart(a)) < Pow2(LINE_BITS) ==>
              MeantBytes(view, mem, a) / Pow2(8 * j) % 256 == ByteIn(view, mem, a + j)
    ensures MemoryRead(mem, LineStart(a)) < Pow2(LINE_BITS) ==>
              BytesFrom(mem, a) / Pow2(8 * j) % 256 == ByteIn(map[], mem, a + j)
  {
    hide Pow2, Joined, LineStart;
    var o, start := a % BLK_SIZE, LineStart(a);
    BytePlace(a, j);
    if Latest(view, mem, start) < Pow2(LINE_BITS) {
      JoinedByte(Latest(view, mem, start), Latest(view, mem, start + BLK_SIZE), o, j);
    }
    if MemoryRead(mem, start) < Pow2(LINE_BITS) {
      JoinedByte(MemoryRead(mem, start), MemoryRead(mem, start + BLK_SIZE), o, j);
    }
  }

  /** The 64 bytes of the value are stored from the address on, and no other byte changes. */
  ghost predicate BytesStored(view: map<nat, Copy>, mem: map<nat, nat>, a: nat, data: nat, view': map<nat, Copy>, mem': map<nat, nat>) {
    forall b: nat :: ByteIn(view', mem', b) == if a <= b < a + BLK_SIZE then data / Pow2(8 * (b - a)) % 256 else ByteIn(view, mem, b)
  }

  lemma StoredAtStart(view: map<nat, Copy>, mem: map<nat, nat>, a: nat, data: nat, view': map<nat, Copy>, mem': map<nat, nat>)
    requires Aligned(a) && LineWritten(view, mem, a, data, view', mem')
    ensures BytesStored(view, mem, a, data, view', mem')
  {
    hide Pow2, Latest, LineStart;
    forall b: nat ensures ByteIn(view', mem', b) == if a <= b < a + BLK_SIZE then data / Pow2(8 * (b - a)) % 256 else ByteIn(view, mem, b) {
      ByteInLine(a, b);
      assert Latest(view', mem', LineStart(b)) == if LineStart(b) == a then data else Latest(view, mem, LineStart(b));
    }
  }

  lemma ByteInLine(a: nat, b: nat)
    requires Aligned(a)
    ensures LineStart(b) == a <==> a <= b < a + BLK_SIZE
    ensures LineStart(b) == a ==> b % BLK_SIZE == b - a
  {}

  lemma StoredElsewhere(view: map<nat, Copy>, mem: map<nat, nat>, a: nat, view': map<nat, Copy>, mem': map<nat, nat>)
    requires !Aligned(a) && LineWritten(view, mem, LineStart(a), 1, view', mem')
    ensures !BytesStored(view, mem, a, 1, view', mem')
  {
    ShiftedOne(a % BLK_SIZE);
    assert Pow2(0) == 1;
    hide Pow2;
    assert Latest(view', mem', LineStart(a)) == 1;
    DivModUnique(1, Pow2(8 * (a % BLK_SIZE)), 0, 1);
    assert ByteIn(view', mem', a) == 0;
    assert 1 / Pow2(8 * (a - a)) % 256 == 1;
  }

  /** A store puts its 64 bytes at the start of the line: they are stored where they are meant, for all
      values, exactly at the start of a line. */
  lemma StorePutsMeantBytes(view: map<nat, Copy>, mem: map<nat, nat>, a: nat)
    ensures (forall data: nat, view': map<nat, Copy>, mem': map<nat, nat> ::
               LineWritten(view, mem, LineStart(a), data, view', mem') ==> BytesStored(view, mem, a, data, view', mem'))
            <==> Aligned(a)
  {
    hide LineWritten, BytesStored;
    LineStartFacts(1, a);
    if Aligned(a) {
      forall data: nat, view': map<nat, Copy>, mem': map<nat, nat> | LineWritten(view, mem, LineStart(a), data, view', mem')
        ensures BytesStored(view, mem, a, data, view', mem')
      {
        StoredAtStart(view, mem, a, data, view', mem');
      }
    } else {
      var view' := view[LineStart(a) := Copy(Modified, 1)];
      SameLinesRefl(view, mem);
      WriteChangesLine(view, mem, view, mem, LineStart(a), 1);
      StoredElsewhere(view, mem, a, view', mem);
    }
  }

  /** The suspended operation is about `addr`, and its victim is still cached as it was sent. */
  predicate InFlight(op: Operation, view: map<nat, Copy>, addr: nat) {
    match op
    case Idle => false
    case LoadEvict(a, v, d, _) => a == addr && v in view && view[v].data == d && LineStart(a) !in view
    case StoreEvict(a, v, d, _, _) => a == addr && v in view && view[v].data == d
    case LoadFill(a) => a == addr && LineStart(a) !in view
    case StoreInv(a, _) => a == addr
    case StoreUpgrade(a, _) => a == addr
  }

  predicate Carries(op: Operation, data: nat) {
    match op
    case StoreEvict(_, _, _, _, d) => d == data
    case StoreInv(_, d) => d == data
    case StoreUpgrade(_, d) => d == data
    case _ => false
  }

  class CxlMemoryHub {
    const cache: CacheController
    var ranges: seq<MemRange>
    var memory: map<nat, nat>

    ghost predicate Valid()
      reads this, cache
    {
      cache.Valid() && cache.op.Idle? && cache.requests == []
    }

    /** The last value stored to the line at `a`. */
    ghost function Line(a: nat): nat
      requires cache.Structure()
      reads this, cache
    {
      Latest(cache.View(), memory, a)
    }

    constructor (assocBit: nat, setBit: nat, ranges: seq<MemRange>, memory: map<nat, nat>)
      ensures Valid() && fresh(cache) && this.ranges == ranges
      ensures forall a: nat :: Line(a) == MemoryRead(memory, a)
    {
      cache := new CacheController(assocBit, setBit);
      this.ranges := ranges;
      this.memory := memory;
    }

    /** The memory side takes the cache's request. */
    method Serve(ghost addr: nat) returns (rsp: CacheResponse)
      requires cache.Valid() && InFlight(cache.op, cache.View(), addr) && cache.requests == [cache.op.Request()]
      modifies this`memory, cache`requests
      ensures cache.requests == []
      ensures cache.op.WritesBack() ==> memory == old(memory)[cache.op.victim := cache.op.wbData]
      ensures !cache.op.WritesBack() ==> memory == old(memory)
      ensures cache.op.LoadFill? ==> rsp.status != RspMiss && rsp.data == Fetched(ranges, memory, addr)
      ensures cache.op.StoreInv? || cache.op.StoreUpgrade? ==> rsp.status == RspI
    {
      var r := cache.requests[0];
      cache.requests := cache.requests[1..];
      if r.kind in {WriteBack, WriteBackClean} {
        memory := memory[r.addr := r.data];
        rsp := CacheResponse(Ok, 0);
      } else if r.kind == SnpData {
        var status: ResponseStatus :| status != RspMiss;
        rsp := CacheResponse(status, Fetched(ranges, memory, r.addr));
      } else {
        rsp := CacheResponse(RspI, 0);
      }
    }

    /** One answer of the memory side, up to the operation's next wait or its end. */
    method Continue(ghost addr: nat, ghost store: bool, ghost data: nat) returns (done: bool, read: nat)
      requires cache.Valid() && InFlight(cache.op, cache.View(), addr) && cache.requests == [cache.op.Request()]
      requires if store then Carries(cache.op, data) else cache.op.LoadEvict? || cache.op.LoadFill?
      modifies this`memory, cache
      ensures cache.Valid() && (done <==> !old(cache.op).WritesBack())
      ensures !done ==>
                && InFlight(cache.op, cache.View(), addr) && cache.requests == [cache.op.Request()]
                && !cache.op.WritesBack()
                && (if store then Carries(cache.op, data) else cache.op.LoadFill?)
      ensures done ==> cache.op.Idle? && cache.requests == []
      ensures done && store ==> LineWritten(old(cache.View()), old(memory), LineStart(addr), data, cache.View(), memory)
      ensures !done ==> SameLines(old(cache.View()), old(memory), cache.View(), memory) && WroteBack(old(cache.View()), old(memory), memory)
      ensures done && !store ==> LoadDone(ranges, old(cache.View()), old(memory), addr, cache.View(), memory, read)
    {
      hide CacheController.Valid, CacheController.Structure, CacheController.View, SameLines, LineWritten, WroteBack, LoadDone, Fetched;
      ghost var view, op := cache.View(), cache.op;
      SameLinesRefl(view, memory);
      var rsp := Serve(addr);
      done, read := cache.Resume(rsp);
      if op.WritesBack() {
        WriteBackKeepsLines(view, old(memory), op.victim);
        WroteBackLine(view, old(memory), op.victim);
      } else if op.LoadFill? {
        FillIsLoad(ranges, view, memory, addr, FilledState(rsp.status), FilledState(rsp.status) != Invalid);
      } else {
        WriteChangesLine(view, memory, view, memory, LineStart(addr), data);
      }
    }

    method CoherentLoad(addr: nat) returns (data: nat)
      requires Valid()
      modifies this`memory, cache
      ensures Valid() && LoadDone(ranges, old(cache.View()), old(memory), addr, cache.View(), memory, data)
      ensures WholeLine(ranges, addr) ==>
                data == old(Line(LineStart(addr))) && SameLines(old(cache.View()), old(memory), cache.View(), memory)
    {
      hide CacheController.Valid, CacheController.Structure, CacheController.View, SameLines, LineWritten, WroteBack, WholeLine, Fetched;
      ghost var view0, memory0 := cache.View(), memory;
      SameLinesRefl(view0, memory0);
      WroteBackRefl(view0, memory0);
      var done, evict, victim;
      done, data, evict, victim := cache.CacheCoherentLoad(addr);
      hide LoadDone;
      while !done
        invariant cache.Valid()
        invariant if done then cache.op.Idle? && cache.requests == [] && LoadDone(ranges, view0, memory0, addr, cache.View(), memory, data)
                  else InFlight(cache.op, cache.View(), addr) && cache.requests == [cache.op.Request()]
                       && (cache.op.LoadEvict? || cache.op.LoadFill?)
                       && LineStart(addr) !in view0 && LineStart(addr) !in cache.View()
                       && SameLines(view0, memory0, cache.View(), memory) && WroteBack(view0, memory0, memory)
        decreases if done then 0 else if cache.op.WritesBack() then 2 else 1
      {
        ghost var view, mem := cache.View(), memory;
        ghost var first := cache.op.WritesBack();
        done, data := Continue(addr, false, 0);
        if done {
          LoadAfterWriteBack(ranges, view0, memory0, view, mem, addr, cache.View(), memory, data);
        } else {
          SameLinesTrans(view0, memory0, view, mem, cache.View(), memory);
          WroteBackTwice(view0, memory0, view, mem, memory);
        }
      }
      if WholeLine(ranges, addr) {
        WholeLineLoad(ranges, view0, memory0, addr, cache.View(), memory, data);
      }
    }

    method CoherentStore(addr: nat, data: nat)
      requires Valid()
      modifies this`memory, cache
      ensures Valid()
      ensures LineWritten(old(cache.View()), old(memory), LineStart(addr), data, cache.View(), memory)
    {
      hide CacheController.Valid, CacheController.Structure, CacheController.View, SameLines, LineWritten, WroteBack;
      ghost var view0, memory0 := cache.View(), memory;
      SameLinesRefl(view0, memory0);
      var done, _, _ := cache.CacheCoherentStore(addr, data);
      WriteChangesLine(view0, memory0, view0, memory0, LineStart(addr), data);
      while !done
        invariant cache.Valid()
        invariant if done then cache.op.Idle? && cache.requests == []
                  else InFlight(cache.op, cache.View(), addr) && cache.requests == [cache.op.Request()]
                       && Carries(cache.op, data)
        invariant if done then LineWritten(view0, memory0, LineStart(addr), data, cache.View(), memory)
                  else SameLines(view0, memory0, cache.View(), memory)
        decreases if done then 0 else if cache.op.WritesBack() then 2 else 1
      {
        ghost var view, mem := cache.View(), memory;
        var read;
        done, read := Continue(addr, true, data);
        if done {
          WrittenAfterSame(view0, memory0, view, mem, LineStart(addr), data, cache.View(), memory);
        } else {
          SameLinesTrans(view0, memory0, view, mem, cache.View(), memory);
        }
      }
    }

    /** `get_mem_addr_type`: the kind of the first range that has the address. */
    method FindRange(addr: nat) returns (kind: Option<AddrType>)
      ensures kind == KindOf(ranges, addr) && (kind.Some? <==> InRange(ranges, addr))
    {
      KindOfRange(ranges, addr);
      assert ranges[0..] == ranges;
      for i := 0 to |ranges|
        invariant KindOf(ranges, addr) == KindOf(ranges[i..], addr)
      {
        assert ranges[i..][1..] == ranges[i + 1..];
        if ranges[i].base <= addr < ranges[i].base + ranges[i].size { return Some(ranges[i].kind); }
      }
      return None;
    }

    /** Outside all ranges the result is `False`, which Python then uses as the number 0. */
    method Load(addr: nat, size: nat) returns (r: Outcome<nat>)
      requires Valid()
      modifies this`memory, cache
      ensures Valid()
      ensures !InRange(ranges, addr) ==> r == Returned(0)
      ensures InRange(ranges, addr) && size != BLK_SIZE ==> r == Raised(AssertionError)
      ensures !InRange(ranges, addr) || size != BLK_SIZE ==> cache.View() == old(cache.View()) && memory == old(memory)
      ensures InRange(ranges, addr) && size == BLK_SIZE ==>
                r.Returned? && LoadDone(ranges, old(cache.View()), old(memory), addr, cache.View(), memory, r.value)
      ensures WholeLine(ranges, addr) ==> SameLines(old(cache.View()), old(memory), cache.View(), memory)
      ensures WholeLine(ranges, addr) && InRange(ranges, addr) && size == BLK_SIZE ==> r == Returned(old(Line(LineStart(addr))))
    {
      hide SameLines, LoadDone, WholeLine, CacheController.Valid, CacheController.Structure, CacheController.View;
      SameLinesRefl(cache.View(), memory);
      var kind := FindRange(addr);
      if kind.None? { return Returned(0); }
      if size != BLK_SIZE { return Raised(AssertionError); }
      var data := CoherentLoad(addr);
      return Returned(data);
    }

    method Store(addr: nat, size: nat, data: nat) returns (r: Outcome<bool>)
      requires Valid()
      modifies this`memory, cache
      ensures Valid()
      ensures r == if !InRange(ranges, addr) then Returned(false)
                   else if size != BLK_SIZE then Raised(AssertionError)
                   else Returned(true)
      ensures if r == Returned(true) then LineWritten(old(cache.View()), old(memory), LineStart(addr), data, cache.View(), memory)
              else SameLines(old(cache.View()), old(memory), cache.View(), memory)
    {
      hide SameLines, LineWritten, CacheController.Valid, CacheController.Structure, CacheController.View;
      SameLinesRefl(cache.View(), memory);
      var kind := FindRange(addr);
      if kind.None? { return Returned(false); }
      if size != BLK_SIZE { return Raised(AssertionError); }
      CoherentStore(addr, data);
      return Returned(true);
    }
  }

  // ----- many lines -----

  /** How many of the `n` lines from `addr` lie in a range before the first one that does not. */
  function Reach(ranges: seq<MemRange>, addr: nat, n: nat): (c: nat)
    ensures c <= n && forall k :: 0 <= k < c ==> InRange(ranges, addr + k * BLK_SIZE)
    ensures c < n ==> !InRange(ranges, addr + c * BLK_SIZE)
  {
    if n == 0 then 0
    else
      var c := Reach(ranges, addr, n - 1);
      if c == n - 1 && InRange(ranges, addr + c * BLK_SIZE) then n else c
  }

  /** The `k`-th 64-byte part of a value. */
  function Part(value: nat, k: nat): nat {
    value / Pow2(LINE_BITS * k) % Pow2(LINE_BITS)
  }

  /** The first `c` lines from `addr` have the parts of `value`; all others are as before. */
  ghost predicate PartsStored(v0: map<nat, Copy>, m0: map<nat, nat>, addr: nat, value: nat, c: nat, v1: map<nat, Copy>, m1: map<nat, nat>) {
    && (forall k: nat :: k < c ==> Latest(v1, m1, addr + k * BLK_SIZE) == Part(value, k))
    && (forall a: nat :: (forall k: nat :: k < c ==> a != addr + k * BLK_SIZE) ==> Latest(v1, m1, a) == Latest(v0, m0, a))
  }

  lemma NextPartStored(v0: map<nat, Copy>, m0: map<nat, nat>, addr: nat, value: nat, c: nat, v1: map<nat, Copy>, m1: map<nat, nat>,
                       v2: map<nat, Copy>, m2: map<nat, nat>)
    requires PartsStored(v0, m0, addr, value, c, v1, m1)
    requires LineWritten(v1, m1, addr + c * BLK_SIZE, Part(value, c), v2, m2)
    ensures PartsStored(v0, m0, addr, value, c + 1, v2, m2)
  {
    forall k: nat | k < c + 1 ensures Latest(v2, m2, addr + k * BLK_SIZE) == Part(value, k) {}
    forall a: nat | forall k: nat :: k < c + 1 ==> a != addr + k * BLK_SIZE
      ensures Latest(v2, m2, a) == Latest(v0, m0, a)
    {
      assert a != addr + c * BLK_SIZE;
      assert forall k: nat :: k < c ==> a != addr + k * BLK_SIZE;
    }
  }

  lemma NothingStored(view: map<nat, Copy>, mem: map<nat, nat>, addr: nat, value: nat)
    ensures PartsStored(view, mem, addr, value, 0, view, mem)
    ensures value / Pow2(LINE_BITS * 0) == value
  {}

  lemma PartsThenSame(v0: map<nat, Copy>, m0: map<nat, nat>, addr: nat, value: nat, c: nat, v1: map<nat, Copy>, m1: map<nat, nat>,
                      v2: map<nat, Copy>, m2: map<nat, nat>)
    requires PartsStored(v0, m0, addr, value, c, v1, m1) && SameLines(v1, m1, v2, m2)
    ensures PartsStored(v0, m0, addr, value, c, v2, m2)
  {
    forall k: nat | k < c ensures Latest(v2, m2, addr + k * BLK_SIZE) == Part(value, k) {
      SameAt(v1, m1, v2, m2, addr + k * BLK_SIZE);
    }
    forall a: nat | forall k: nat :: k < c ==> a != addr + k * BLK_SIZE
      ensures Latest(v2, m2, a) == Latest(v0, m0, a)
    {
      SameAt(v1, m1, v2, m2, a);
    }
  }

  lemma ShiftPart(value: nat, k: nat)
    ensures (value / Pow2(LINE_BITS * k)) / Pow2(LINE_BITS) == value / Pow2(LINE_BITS * (k + 1))
  {
    DivPow2(value, LINE_BITS * k, LINE_BITS);
  }

  /** `value & ((1 << (64 * 8)) - 1)` */
  function LowLine(ghost value: nat, rest: nat, ghost k: nat): (low: nat)
    requires rest == value / Pow2(LINE_BITS * k)
    ensures low == Part(value, k)
  {
    AndMask(rest, LINE_BITS);
    And(rest, Pow2(LINE_BITS) - 1)
  }

  /** The lines, as the cache and the memory behind it hold them. */
  datatype MemState = MemState(view: map<nat, Copy>, mem: map<nat, nat>)

  ghost predicate OneLoad(ranges: seq<MemRange>, s: MemState, addr: nat, t: MemState, value: nat) {
    if InRange(ranges, addr) then LoadDone(ranges, s.view, s.mem, addr, t.view, t.mem, value) else t == s && value == 0
  }

  /** One load after the other, 64 bytes apart. */
  ghost predicate LoadRun(ranges: seq<MemRange>, states: seq<MemState>, addr: nat, values: seq<nat>) {
    && |states| == |values| + 1
    && forall k :: 0 <= k < |values| ==> OneLoad(ranges, states[k], addr + k * BLK_SIZE, states[k + 1], values[k])
  }

  lemma NoLoads(ranges: seq<MemRange>, s: MemState, addr: nat)
    ensures LoadRun(ranges, [s], addr, [])
  {}

  lemma OneMoreLoad(ranges: seq<MemRange>, states: seq<MemState>, addr: nat, values: seq<nat>, t: MemState, value: nat)
    requires LoadRun(ranges, states, addr, values) && OneLoad(ranges, states[|values|], addr + |values| * BLK_SIZE, t, value)
    ensures LoadRun(ranges, states + [t], addr, values + [value])
  {
    hide OneLoad;
    var states', values' := states + [t], values + [value];
    forall k | 0 <= k < |values'| ensures OneLoad(ranges, states'[k], addr + k * BLK_SIZE, states'[k + 1], values'[k]) {
      if k < |values| {
        assert states'[k] == states[k] && states'[k + 1] == states[k + 1] && values'[k] == values[k];
      }
    }
  }

  lemma OneLoadLess(ranges: seq<MemRange>, states: seq<MemState>, addr: nat, values: seq<nat>)
    requires LoadRun(ranges, states, addr, values) && values != []
    ensures LoadRun(ranges, states[..|values|], addr, values[..|values| - 1])
    ensures OneLoad(ranges, states[|values| - 1], addr + (|values| - 1) * BLK_SIZE, states[|values|], values[|values| - 1])
  {
    hide OneLoad;
  }

  /** Every load is of a whole line. */
  ghost predicate WholeLines(ranges: seq<MemRange>, addr: nat, size: nat) {
    forall k: nat :: k * BLK_SIZE < size ==> WholeLine(ranges, addr + k * BLK_SIZE)
  }

  lemma AlignedIsWhole(ranges: seq<MemRange>, addr: nat, size: nat)
    requires Aligned(addr)
    ensures WholeLines(ranges, addr, size)
    ensures forall k: nat :: LineStart(addr + k * BLK_SIZE) == addr + k * BLK_SIZE
  {
    forall k: nat ensures Aligned(addr + k * BLK_SIZE) && LineStart(addr + k * BLK_SIZE) == addr + k * BLK_SIZE {
      LineStartFacts(1, addr + k * BLK_SIZE);
    }
  }

  /** What a load of the line of the `k`-th address from `addr` gives. */
  function Reading(ranges: seq<MemRange>, view: map<nat, Copy>, mem: map<nat, nat>, addr: nat, k: nat): nat {
    if InRange(ranges, addr + k * BLK_SIZE) then Latest(view, mem, LineStart(addr + k * BLK_SIZE)) else 0
  }

  lemma OneWholeLoad(ranges: seq<MemRange>, s: MemState, addr: nat, k: nat, t: MemState, value: nat)
    requires OneLoad(ranges, s, addr + k * BLK_SIZE, t, value) && WholeLine(ranges, addr + k * BLK_SIZE)
    ensures SameLines(s.view, s.mem, t.view, t.mem) && value == Reading(ranges, s.view, s.mem, addr, k)
  {
    hide LoadDone, SameLines, WholeLine;
    if InRange(ranges, addr + k * BLK_SIZE) {
      WholeLineLoad(ranges, s.view, s.mem, addr + k * BLK_SIZE, t.view, t.mem, value);
    } else {
      SameLinesRefl(s.view, s.mem);
    }
  }

  lemma ReadingSame(ranges: seq<MemRange>, v0: map<nat, Copy>, m0: map<nat, nat>, v1: map<nat, Copy>, m1: map<nat, nat>, addr: nat, k: nat)
    requires SameLines(v0, m0, v1, m1)
    ensures Reading(ranges, v0, m0, addr, k) == Reading(ranges, v1, m1, addr, k)
  {
    SameAt(v0, m0, v1, m1, LineStart(addr + k * BLK_SIZE));
  }

  /** Loads of whole lines change no line and give what the lines hold. */
  lemma {:induction false} WholeLoads(ranges: seq<MemRange>, states: seq<MemState>, addr: nat, values: seq<nat>)
    requires LoadRun(ranges, states, addr, values) && forall k :: 0 <= k < |values| ==> WholeLine(ranges, addr + k * BLK_SIZE)
    ensures var s, t := states[0], states[|values|];
            && SameLines(s.view, s.mem, t.view, t.mem)
            && forall k :: 0 <= k < |values| ==> values[k] == Reading(ranges, s.view, s.mem, addr, k)
    decreases |values|
  {
    hide SameLines, OneLoad, WholeLine, Reading;
    var n := |values| - 1;
    if values == [] {
      SameLinesRefl(states[0].view, states[0].mem);
    } else {
      OneLoadLess(ranges, states, addr, values);
      WholeLoads(ranges, states[..n + 1], addr, values[..n]);
      var s, t, u := states[0], states[n], states[n + 1];
      OneWholeLoad(ranges, t, addr, n, u, values[n]);
      SameLinesTrans(s.view, s.mem, t.view, t.mem, u.view, u.mem);
      ReadingSame(ranges, s.view, s.mem, t.view, t.mem, addr, n);
      forall k | 0 <= k < |values| ensures values[k] == Reading(ranges, s.view, s.mem, addr, k) {
        if k < n { assert values[..n][k] == values[k]; }
      }
    }
  }

  /** The little-endian bytes of the values, one after the other. */
  predicate ValueBytes(values: seq<nat>, bytes: seq<Byte>) {
    |bytes| <= |values| * BLK_SIZE && forall i :: 0 <= i < |bytes| ==> bytes[i] == values[i / BLK_SIZE] / Pow2(8 * (i % BLK_SIZE)) % 256
  }

  lemma MoreValueBytes(values: seq<nat>, bytes: seq<Byte>, value: nat, n: nat)
    requires ValueBytes(values, bytes) && |bytes| == |values| * BLK_SIZE && n <= BLK_SIZE
    ensures ValueBytes(values + [value], bytes + ToBytes(value, BLK_SIZE)[..n])
  {
    hide ToBytes, Pow2;
    var values', after := values + [value], bytes + ToBytes(value, BLK_SIZE)[..n];
    forall i | 0 <= i < |after| ensures after[i] == values'[i / BLK_SIZE] / Pow2(8 * (i % BLK_SIZE)) % 256 {
      if i >= |bytes| {
        DivModUnique(i, BLK_SIZE, |values|, i - |bytes|);
        ByteAt(value, BLK_SIZE, i - |bytes|);
      } else {
        assert values'[i / BLK_SIZE] == values[i / BLK_SIZE];
      }
    }
  }

  lemma NoValueBytes()
    ensures ValueBytes([], [])
  {}

  /** The first `n` values fit 64 bytes. */
  predicate Fit(values: seq<nat>, n: nat)
    requires n <= |values|
  {
    forall k :: 0 <= k < n ==> values[k] < Pow2(LINE_BITS)
  }

  lemma OneMoreFits(values: seq<nat>, value: nat)
    requires Fit(values, |values|)
    ensures Fit(values + [value], |values|)
    ensures value < Pow2(LINE_BITS) ==> Fit(values + [value], |values| + 1)
  {
    hide Pow2;
  }

  lemma NothingFits()
    ensures Fit([], 0)
  {}

  predicate BytesOf(ranges: seq<MemRange>, view: map<nat, Copy>, mem: map<nat, nat>, addr: nat, bytes: seq<Byte>) {
    forall i :: 0 <= i < |bytes| ==>
      bytes[i] == Reading(ranges, view, mem, addr, i / BLK_SIZE) / Pow2(8 * (i % BLK_SIZE)) % 256
  }

  /** Some line of the access does not fit 64 bytes. */
  ghost predicate Overflows(ranges: seq<MemRange>, view: map<nat, Copy>, mem: map<nat, nat>, addr: nat, size: nat) {
    exists k: nat :: k * BLK_SIZE < size && Reading(ranges, view, mem, addr, k) >= Pow2(LINE_BITS)
  }

  lemma WholeBytes(ranges: seq<MemRange>, s: MemState, addr: nat, values: seq<nat>, bytes: seq<Byte>)
    requires forall k :: 0 <= k < |values| ==> values[k] == Reading(ranges, s.view, s.mem, addr, k)
    requires ValueBytes(values, bytes) && Fit(values, |values|)
    ensures BytesOf(ranges, s.view, s.mem, addr, bytes)
    ensures !Overflows(ranges, s.view, s.mem, addr, |bytes|)
  {
    hide Pow2, Reading;
  }

  lemma WholeOverflow(ranges: seq<MemRange>, s: MemState, addr: nat, values: seq<nat>, size: nat)
    requires forall k :: 0 <= k < |values| ==> values[k] == Reading(ranges, s.view, s.mem, addr, k)
    requires values != [] && values[|values| - 1] >= Pow2(LINE_BITS) && (|values| - 1) * BLK_SIZE < size
    ensures Overflows(ranges, s.view, s.mem, addr, size)
  {
    hide Pow2, Reading;
  }

  // ----- the round trip -----

  lemma OnePart(v0: map<nat, Copy>, m0: map<nat, nat>, addr: nat, value: nat, v1: map<nat, Copy>, m1: map<nat, nat>)
    requires LineWritten(v0, m0, addr, value, v1, m1) && value < Pow2(8 * BLK_SIZE)
    ensures PartsStored(v0, m0, addr, value, 1, v1, m1)
  {
    hide Pow2;
    WholePart(value);
    assert addr + 0 * BLK_SIZE == addr;
  }

  lemma WholePart(value: nat)
    requires value < Pow2(LINE_BITS)
    ensures Part(value, 0) == value
  {
    assert Pow2(0) == 1;
    hide Pow2;
    DivModUnique(value, Pow2(LINE_BITS), 0, value);
  }

  lemma StoredReadsBack(ranges: seq<MemRange>, v0: map<nat, Copy>, m0: map<nat, nat>, addr: nat, value: nat, c: nat,
                        v1: map<nat, Copy>, m1: map<nat, nat>, n: nat)
    requires PartsStored(v0, m0, addr, value, c, v1, m1) && n <= c * BLK_SIZE && Aligned(addr)
    ensures !Overflows(ranges, v1, m1, addr, n)
  {
    hide Pow2, InRange, LineStart;
    AlignedIsWhole(ranges, addr, n);
    forall k: nat | k * BLK_SIZE < n ensures Reading(ranges, v1, m1, addr, k) < Pow2(LINE_BITS) {
      assert k < c;
      assert Latest(v1, m1, addr + k * BLK_SIZE) == Part(value, k);
    }
  }

  lemma AllReached(ranges: seq<MemRange>, addr: nat, n: nat)
    requires forall k: nat :: k < n ==> InRange(ranges, addr + k * BLK_SIZE)
    ensures Reach(ranges, addr, n) == n
    ensures n > 0 ==> InRange(ranges, addr)
  {
    assert n > 0 ==> addr + 0 * BLK_SIZE == addr && InRange(ranges, addr + 0 * BLK_SIZE);
  }

  /** A byte of a part is a byte of the value. */
  lemma ByteOfPart(value: nat, k: nat, j: nat)
    requires j < BLK_SIZE
    ensures Part(value, k) / Pow2(8 * j) % 256 == value / Pow2(8 * (k * BLK_SIZE + j)) % 256
  {
    hide Pow2, ToBytes;
    var x := value / Pow2(LINE_BITS * k);
    ToBytesOfMod(x, BLK_SIZE, BLK_SIZE);
    ByteAt(x, BLK_SIZE, j);
    ByteAt(Part(value, k), BLK_SIZE, j);
    DivPow2(value, LINE_BITS * k, 8 * j);
    assert LINE_BITS * k + 8 * j == 8 * (k * BLK_SIZE + j);
  }

  lemma StoredBytes(ranges: seq<MemRange>, v0: map<nat, Copy>, m0: map<nat, nat>, addr: nat, value: nat, c: nat,
                    v1: map<nat, Copy>, m1: map<nat, nat>, bytes: seq<Byte>)
    requires PartsStored(v0, m0, addr, value, c, v1, m1) && BytesOf(ranges, v1, m1, addr, bytes) && Aligned(addr)
    requires |bytes| <= c * BLK_SIZE && forall k: nat :: k < c ==> InRange(ranges, addr + k * BLK_SIZE)
    ensures bytes == ToBytes(value, |bytes|)
  {
    hide Pow2, ToBytes, InRange, Part, LineStart;
    AlignedIsWhole(ranges, addr, |bytes|);
    forall i | 0 <= i < |bytes| ensures bytes[i] == ToBytes(value, |bytes|)[i] {
      var k, j := i / BLK_SIZE, i % BLK_SIZE;
      assert k < c && InRange(ranges, addr + k * BLK_SIZE);
      ByteOfPart(value, k, j);
      ByteAt(value, |bytes|, i);
    }
  }

  /** What the loads of an access come to when they are all of whole lines. */
  lemma WholeAccess(ranges: seq<MemRange>, states: seq<MemState>, addr: nat, values: seq<nat>, size: nat, r: Outcome<seq<Byte>>)
    requires LoadRun(ranges, states, addr, values) && |values| * BLK_SIZE < size + BLK_SIZE
    requires match r
             case Returned(bytes) => |bytes| == size && ValueBytes(values, bytes) && Fit(values, |values|)
             case Raised(_) => values != [] && values[|values| - 1] >= Pow2(LINE_BITS)
    ensures |states| == |values| + 1
    ensures WholeLines(ranges, addr, size) ==>
              var s, t := states[0], states[|values|];
              && SameLines(s.view, s.mem, t.view, t.mem)
              && (r.Returned? ==> BytesOf(ranges, s.view, s.mem, addr, r.value))
              && (r.Raised? <==> Overflows(ranges, s.view, s.mem, addr, size))
  {
    hide SameLines, BytesOf, Reading, Overflows, Pow2, WholeLine, OneLoad, ValueBytes, Fit;
    if WholeLines(ranges, addr, size) {
      WholeLoads(ranges, states, addr, values);
      if r.Returned? {
        WholeBytes(ranges, states[0], addr, values, r.value);
      } else {
        WholeOverflow(ranges, states[0], addr, values, size);
      }
    }
  }

  class Cpu {
    const hub: CxlMemoryHub

    constructor (hub: CxlMemoryHub)
      ensures this.hub == hub
    {
      this.hub := hub;
    }

    /** The loop of a long store. */
    method StoreLines(addr: nat, size: nat, value: nat) returns (res: Outcome<bool>)
      requires hub.Valid() && Aligned(addr) && size % BLK_SIZE == 0
      modifies hub`memory, hub.cache
      ensures hub.Valid()
      ensures res == Returned(Reach(hub.ranges, addr, size / BLK_SIZE) == size / BLK_SIZE)
      ensures PartsStored(old(hub.cache.View()), old(hub.memory), addr, value, Reach(hub.ranges, addr, size / BLK_SIZE),
                          hub.cache.View(), hub.memory)
    {
      hide SameLines, LineWritten, PartsStored, InRange, Part, Reach, Pow2, CacheController.Valid, CacheController.Structure, CacheController.View;
      ghost var view0, memory0 := hub.cache.View(), hub.memory;
      ghost var n := size / BLK_SIZE;
      NothingStored(view0, memory0, addr, value);
      var left, rest, chunkCount := size, value, 0;
      res := Returned(true);
      while left > 0
        invariant hub.Valid()
        invariant 0 <= chunkCount <= n && left == size - chunkCount * BLK_SIZE
        invariant rest == value / Pow2(LINE_BITS * chunkCount)
        invariant chunkCount <= Reach(hub.ranges, addr, n)
        invariant PartsStored(view0, memory0, addr, value, chunkCount, hub.cache.View(), hub.memory)
        invariant res == Returned(true)
      {
        var low := LowLine(value, rest, chunkCount);
        ghost var view, mem := hub.cache.View(), hub.memory;
        LineStartFacts(1, addr + chunkCount * BLK_SIZE);
        res := hub.Store(addr + chunkCount * BLK_SIZE, BLK_SIZE, low);
        if res != Returned(true) {
          PartsThenSame(view0, memory0, addr, value, chunkCount, view, mem, hub.cache.View(), hub.memory);
          return;
        }
        NextPartStored(view0, memory0, addr, value, chunkCount, view, mem, hub.cache.View(), hub.memory);
        ShiftPart(value, chunkCount);
        left := left - BLK_SIZE;
        chunkCount := chunkCount + 1;
        rest := rest / Pow2(LINE_BITS);
      }
    }

    /** A long store writes the parts of the value, low part first, up to the first line outside
        all memory ranges. */
    method Store(addr: nat, size: nat, value: nat) returns (res: Outcome<bool>)
      requires hub.Valid()
      modifies hub`memory, hub.cache
      ensures hub.Valid()
      ensures size > BLK_SIZE && (addr % BLK_SIZE != 0 || size % BLK_SIZE != 0) ==>
                res == Raised(Misaligned) && SameLines(old(hub.cache.View()), old(hub.memory), hub.cache.View(), hub.memory)
      ensures size > BLK_SIZE && addr % BLK_SIZE == 0 && size % BLK_SIZE == 0 ==>
                var c := Reach(hub.ranges, addr, size / BLK_SIZE);
                && res == Returned(c == size / BLK_SIZE)
                && PartsStored(old(hub.cache.View()), old(hub.memory), addr, value, c, hub.cache.View(), hub.memory)
      ensures size <= BLK_SIZE && InRange(hub.ranges, addr) ==>
                res == if size == BLK_SIZE then Returned(true) else Raised(AssertionError)
      ensures size <= BLK_SIZE && !InRange(hub.ranges, addr) ==> res == Returned(false)
      ensures size <= BLK_SIZE ==>
                if res == Returned(true) then LineWritten(old(hub.cache.View()), old(hub.memory), LineStart(addr), value, hub.cache.View(), hub.memory)
                else SameLines(old(hub.cache.View()), old(hub.memory), hub.cache.View(), hub.memory)
    {
      SameLinesRefl(hub.cache.View(), hub.memory);
      hide SameLines, LineWritten, PartsStored, InRange, Part;
      if size <= BLK_SIZE {
        res := hub.Store(addr, size, value);
        return;
      }
      if addr % BLK_SIZE != 0 || size % BLK_SIZE != 0 {
        return Raised(Misaligned);
      }
      res := StoreLines(addr, size, value);
    }

    /** Byte by byte what the loads give; one that does not fit 64 bytes fails the conversion. */
    method LoadBytes(addr: nat, size: nat) returns (r: Outcome<seq<Byte>>, ghost states: seq<MemState>, ghost values: seq<nat>)
      requires hub.Valid()
      modifies hub`memory, hub.cache
      ensures hub.Valid() && LoadRun(hub.ranges, states, addr, values)
      ensures states[0] == old(MemState(hub.cache.View(), hub.memory))
      ensures states[|values|] == MemState(hub.cache.View(), hub.memory)
      ensures match r
              case Returned(bytes) =>
                && |bytes| == size && |values| * BLK_SIZE < size + BLK_SIZE
                && ValueBytes(values, bytes) && Fit(values, |values|)
              case Raised(e) =>
                && e == OverflowError && values != [] && (|values| - 1) * BLK_SIZE < size
                && Fit(values, |values| - 1) && values[|values| - 1] >= Pow2(LINE_BITS)
      ensures WholeLines(hub.ranges, addr, size) ==>
                && SameLines(old(hub.cache.View()), old(hub.memory), hub.cache.View(), hub.memory)
                && (r.Returned? ==> BytesOf(hub.ranges, old(hub.cache.View()), old(hub.memory), addr, r.value))
                && (r.Raised? <==> Overflows(hub.ranges, old(hub.cache.View()), old(hub.memory), addr, size))
    {
      hide SameLines, BytesOf, InRange, Reading, Overflows, Pow2, CacheController.Valid, CacheController.Structure, CacheController.View, WholeLine, WholeLines;
      hide LoadRun, LoadDone, ValueBytes, Fit;
      ghost var start := MemState(hub.cache.View(), hub.memory);
      var end, offset, result, lineLimit := addr + size, addr, [], Pow2(LINE_BITS);
      states, values := [start], [];
      NoLoads(hub.ranges, start, addr);
      NoValueBytes();
      NothingFits();
      while offset < end
        invariant hub.Valid() && hub.ranges == old(hub.ranges)
        invariant offset == addr + |values| * BLK_SIZE < end + BLK_SIZE
        invariant |result| == if offset < end then |values| * BLK_SIZE else size
        invariant |states| == |values| + 1 && states[0] == start && states[|values|] == MemState(hub.cache.View(), hub.memory)
        invariant LoadRun(hub.ranges, states, addr, values) && ValueBytes(values, result) && Fit(values, |values|)
      {
        ghost var before := MemState(hub.cache.View(), hub.memory);
        var line := hub.Load(offset, BLK_SIZE);
        ghost var after := MemState(hub.cache.View(), hub.memory);
        assert OneLoad(hub.ranges, before, offset, after, line.value);
        OneMoreLoad(hub.ranges, states, addr, values, after, line.value);
        OneMoreFits(values, line.value);
        states := states + [after];
        if line.value >= lineLimit {
          values := values + [line.value];
          WholeAccess(hub.ranges, states, addr, values, size, Raised(OverflowError));
          return Raised(OverflowError), states, values;
        }
        var chunk := if end - offset < BLK_SIZE then end - offset else BLK_SIZE;
        var chunkData := ToBytes(line.value, BLK_SIZE);
        MoreValueBytes(values, result, line.value, chunk);
        values := values + [line.value];
        result := result + chunkData[..chunk];
        offset := offset + BLK_SIZE;
      }
      WholeAccess(hub.ranges, states, addr, values, size, Returned(result));
      return Returned(result), states, values;
    }

    /** The chunked round trip, through whatever the cache evicts on the way: after a store of any
        number of whole lines, loading any prefix gives the little-endian bytes of the value. */
    method StoreThenLoadBytes(addr: nat, size: nat, value: nat, n: nat) returns (res: Outcome<bool>, bytes: Outcome<seq<Byte>>)
      requires hub.Valid() && Aligned(addr) && size % BLK_SIZE == 0 && size > 0 && n <= size
      requires value < Pow2(8 * size)
      requires forall k: nat :: k * BLK_SIZE < size ==> InRange(hub.ranges, addr + k * BLK_SIZE)
      modifies hub`memory, hub.cache
      ensures hub.Valid() && res == Returned(true) && bytes == Returned(ToBytes(value, n))
      ensures PartsStored(old(hub.cache.View()), old(hub.memory), addr, value, size / BLK_SIZE, hub.cache.View(), hub.memory)
    {
      hide SameLines, LineWritten, PartsStored, BytesOf, Overflows, Part, CacheController.Valid, CacheController.Structure, CacheController.View, InRange, Pow2;
      hide LoadRun, LoadDone, ValueBytes, Fit, WholeLines, WholeLine, LineStart, Reach;
      ghost var view0, memory0 := hub.cache.View(), hub.memory;
      AllReached(hub.ranges, addr, size / BLK_SIZE);
      LineStartFacts(1, addr);
      res := Store(addr, size, value);
      if size == BLK_SIZE {
        OnePart(view0, memory0, addr, value, hub.cache.View(), hub.memory);
      }
      ghost var view, mem := hub.cache.View(), hub.memory;
      AlignedIsWhole(hub.ranges, addr, n);
      LineStartFacts(1, addr);
      ghost var states, values;
      bytes, states, values := LoadBytes(addr, n);
      StoredReadsBack(hub.ranges, view0, memory0, addr, value, size / BLK_SIZE, view, mem, n);
      if bytes.Returned? {
        StoredBytes(hub.ranges, view0, memory0, addr, value, size / BLK_SIZE, view, mem, bytes.value);
      }
      PartsThenSame(view0, memory0, addr, value, size / BLK_SIZE, view, mem, hub.cache.View(), hub.memory);
    }
  }
}
