/** The page-sparse memory emulator behaves as one flat array of bytes. */
module SparseMemory {
  import opened Bits
  import opened LittleEndian
  import opened Outcomes

  const PAGE_SZ: nat := 4096
  const SENTINEL: Byte := 0xFE

  type Page = seq<Byte>

  /** A `memoryview`: `length` bytes of `obj` from `start` on. The emulator goes through the object
      itself, not through the view. */
  datatype View = View(obj: seq<Byte>, start: nat, length: nat)
  {
    predicate Valid() {
      start + length <= |obj|
    }

    /** What the view shows. */
    function Contents(): seq<Byte>
      requires Valid()
    {
      obj[start..start + length]
    }
  }

  function RoundDown(a: nat): nat {
    a / PAGE_SZ * PAGE_SZ
  }

  predicate OnPage(a: nat) {
    a % PAGE_SZ == 0
  }

  lemma NextPage(a: nat)
    requires OnPage(a)
    ensures OnPage(a + PAGE_SZ)
  {}

  lemma PagesApart(a: nat, b: nat)
    requires OnPage(a) && OnPage(b) && a < b
    ensures a + PAGE_SZ <= b
  {}

  predicate Paged(memory: map<nat, Page>) {
    forall p :: p in memory ==> OnPage(p) && |memory[p]| == PAGE_SZ
  }

  /** The byte at an address: never written pages are full of the sentinel. */
  function FlatByte(memory: map<nat, Page>, a: nat): Byte
    requires Paged(memory)
  {
    if RoundDown(a) in memory then memory[RoundDown(a)][a % PAGE_SZ] else SENTINEL
  }

  function FlatRange(memory: map<nat, Page>, addr: nat, n: nat): (b: seq<Byte>)
    requires Paged(memory)
    ensures |b| == n && forall i :: 0 <= i < n ==> b[i] == FlatByte(memory, addr + i)
  {
    seq<Byte>(n, i requires 0 <= i < n => FlatByte(memory, addr + i))
  }

  function FreshPage(): (p: Page)
    ensures |p| == PAGE_SZ && forall i :: 0 <= i < PAGE_SZ ==> p[i] == SENTINEL
  {
    seq(PAGE_SZ, _ => SENTINEL)
  }

  /** `b` with the bytes from `at` on replaced by `c`. */
  function Overwrite(b: seq<Byte>, at: nat, c: seq<Byte>): (r: seq<Byte>)
    requires at + |c| <= |b|
    ensures |r| == |b|
    ensures forall i :: 0 <= i < |b| ==> r[i] == if at <= i < at + |c| then c[i - at] else b[i]
  {
    b[..at] + c + b[at + |c|..]
  }

  /** The flat memory after a write. */
  ghost predicate Written(before: map<nat, Page>, after: map<nat, Page>, addr: nat, bytes: seq<Byte>)
    requires Paged(before) && Paged(after)
  {
    forall a: nat :: FlatByte(after, a) == if addr <= a < addr + |bytes| then bytes[a - addr] else FlatByte(before, a)
  }

  lemma PageOf(page: nat, a: nat)
    requires OnPage(page)
    ensures RoundDown(a) == page <==> page <= a < page + PAGE_SZ
    ensures RoundDown(a) == page ==> a % PAGE_SZ == a - page
  {}

  /** Writing part of one page writes those bytes of the flat memory. */
  lemma PageWrite(memory: map<nat, Page>, page: nat, at: nat, c: seq<Byte>)
    requires Paged(memory) && OnPage(page) && at + |c| <= PAGE_SZ
    ensures var old_ := if page in memory then memory[page] else FreshPage();
            var after := memory[page := Overwrite(old_, at, c)];
            Paged(after) && Written(memory, after, page + at, c)
  {
    var old_ := if page in memory then memory[page] else FreshPage();
    var after := memory[page := Overwrite(old_, at, c)];
    forall a: nat
      ensures FlatByte(after, a) == if page + at <= a < page + at + |c| then c[a - page - at] else FlatByte(memory, a)
    {
      PageOf(page, a);
    }
  }

  lemma WrittenTwice(m0: map<nat, Page>, m1: map<nat, Page>, m2: map<nat, Page>, addr: nat, b: seq<Byte>, c: seq<Byte>)
    requires Paged(m0) && Paged(m1) && Paged(m2)
    requires Written(m0, m1, addr, b) && Written(m1, m2, addr + |b|, c)
    ensures Written(m0, m2, addr, b + c)
  {
    forall a: nat ensures FlatByte(m2, a) == if addr <= a < addr + |b + c| then (b + c)[a - addr] else FlatByte(m0, a) {
      assert FlatByte(m1, a) == if addr <= a < addr + |b| then b[a - addr] else FlatByte(m0, a);
    }
  }

  lemma NothingWritten(memory: map<nat, Page>, addr: nat)
    requires Paged(memory)
    ensures Written(memory, memory, addr, [])
  {}

  lemma JoinedWrite(m0: map<nat, Page>, m1: map<nat, Page>, m2: map<nat, Page>, addr: nat, obj: seq<Byte>, k: nat, n: nat, at: nat)
    requires Paged(m0) && Paged(m1) && Paged(m2) && k + n <= |obj| && (n > 0 ==> at == addr + k)
    requires Written(m0, m1, addr, obj[..k]) && Written(m1, m2, at, obj[k..k + n])
    ensures Written(m0, m2, addr, obj[..k + n])
  {
    hide Written, FlatByte, Paged;
    assert obj[..k] + obj[k..k + n] == obj[..k + n];
    if n == 0 {
      assert obj[k..k] == [];
      NothingChanged(m1, m2, at, addr + k);
    }
    WrittenTwice(m0, m1, m2, addr, obj[..k], obj[k..k + n]);
  }

  lemma NothingChanged(m0: map<nat, Page>, m1: map<nat, Page>, addr: nat, addr': nat)
    requires Paged(m0) && Paged(m1) && Written(m0, m1, addr, [])
    ensures Written(m0, m1, addr', [])
  {}

  lemma RoundedDown(a: nat)
    ensures OnPage(RoundDown(a)) && RoundDown(a) + a % PAGE_SZ == a < RoundDown(a) + PAGE_SZ
  {}

  /** How far the access has come when it gets to address `to`. */
  function Progress(addr: nat, count: nat, to: nat): (n: nat)
    requires addr <= to
    ensures n <= count
  {
    if count < to - addr then count else to - addr
  }

  /** The part of the access that lies in the page `page`, when it has come to address `curr` in it. */
  lemma PartInPage(addr: nat, count: nat, page: nat, curr: nat)
    requires addr <= curr && page <= curr < page + PAGE_SZ
    ensures var got := Progress(addr, count, curr);
            var end := got + page + PAGE_SZ - curr;
            var stop := if count < end then count else end;
            && got <= stop == Progress(addr, count, page + PAGE_SZ)
            && curr - page + (stop - got) <= PAGE_SZ
            && (stop > got ==> curr == addr + got)
  {}

  lemma Started(addr: nat, count: nat)
    ensures Progress(addr, count, addr) == 0
  {}

  lemma Arrived(addr: nat, count: nat, to: nat)
    requires addr + count <= to
    ensures Progress(addr, count, to) == count
  {}

  lemma UpdatedTwice<K, V>(m: map<K, V>, k: K, x: V, y: V)
    ensures m[k := x][k := y] == m[k := y]
  {}

  /** The pages that exist afterwards: the old ones, and all from `lo` up to before `hi`. */
  ghost predicate PagesAdded(before: map<nat, Page>, after: map<nat, Page>, lo: nat, hi: nat) {
    forall p: nat :: p in after <==> p in before || (OnPage(p) && lo <= p < hi)
  }

  lemma NoPageAdded(memory: map<nat, Page>, lo: nat)
    ensures PagesAdded(memory, memory, lo, lo)
  {}

  lemma PageAdded(m0: map<nat, Page>, m1: map<nat, Page>, m2: map<nat, Page>, lo: nat, page: nat)
    requires PagesAdded(m0, m1, lo, page) && m2.Keys == m1.Keys + {page} && OnPage(page) && lo <= page
    ensures PagesAdded(m0, m2, lo, page + PAGE_SZ)
  {
    NextPage(page);
    forall p: nat ensures p in m2 <==> p in m0 || (OnPage(p) && lo <= p < page + PAGE_SZ) {
      assert p in m2 <==> p in m2.Keys;
      assert p in m1 <==> p in m1.Keys;
    }
  }

  /** Part of one page; a page that was never written reads as the sentinel. */
  function PageBytes(memory: map<nat, Page>, page: nat, at: nat, n: nat): (bytes: seq<Byte>)
    requires Paged(memory) && at + n <= PAGE_SZ
    ensures |bytes| == n
  {
    if page !in memory then seq(n, _ => SENTINEL) else memory[page][at..at + n]
  }

  /** Bytes taken from one page are those of the flat memory. */
  lemma PageRead(memory: map<nat, Page>, page: nat, at: nat, bytes: seq<Byte>)
    requires Paged(memory) && OnPage(page) && at + |bytes| <= PAGE_SZ
    requires bytes == PageBytes(memory, page, at, |bytes|)
    ensures forall i :: 0 <= i < |bytes| ==> bytes[i] == FlatByte(memory, page + at + i)
  {
    forall i | 0 <= i < |bytes| ensures bytes[i] == FlatByte(memory, page + at + i) {
      PageOf(page, page + at + i);
    }
  }

  /** The first `k` bytes of the object have been read from memory. */
  predicate Filled(memory: map<nat, Page>, addr: nat, before: seq<Byte>, k: nat, obj: seq<Byte>)
    requires Paged(memory)
  {
    && k <= |obj| == |before|
    && forall i :: 0 <= i < |obj| ==> obj[i] == if i < k then FlatByte(memory, addr + i) else before[i]
  }

  lemma FilledNothing(memory: map<nat, Page>, addr: nat, obj: seq<Byte>)
    requires Paged(memory)
    ensures Filled(memory, addr, obj, 0, obj)
  {}

  lemma FillMore(memory: map<nat, Page>, addr: nat, before: seq<Byte>, k: nat, obj: seq<Byte>, page: nat, at: nat, bytes: seq<Byte>)
    requires Paged(memory) && OnPage(page) && at + |bytes| <= PAGE_SZ && Filled(memory, addr, before, k, obj)
    requires bytes == PageBytes(memory, page, at, |bytes|)
    requires k + |bytes| <= |obj| && (bytes != [] ==> page + at == addr + k)
    ensures Filled(memory, addr, before, k + |bytes|, Overwrite(obj, k, bytes))
  {
    hide FlatByte;
    PageRead(memory, page, at, bytes);
    var after := Overwrite(obj, k, bytes);
    forall i | 0 <= i < |after| ensures after[i] == if i < k + |bytes| then FlatByte(memory, addr + i) else before[i] {
      if k <= i < k + |bytes| {
        assert bytes[i - k] == FlatByte(memory, page + at + (i - k));
      }
    }
  }

  lemma FilledAll(memory: map<nat, Page>, addr: nat, before: seq<Byte>, k: nat, obj: seq<Byte>)
    requires Paged(memory) && Filled(memory, addr, before, k, obj)
    ensures obj == FlatRange(memory, addr, k) + before[k..]
  {
    hide FlatByte;
  }

  class Simple64BitEmulator {
    var memory: map<nat, Page>

    predicate Valid()
      reads this
    {
      Paged(memory)
    }

    constructor ()
      ensures Valid() && memory == map[]
    {
      memory := map[];
    }

    method WritePage(page: nat, at: nat, bytes: seq<Byte>)
      requires Valid() && OnPage(page) && at + |bytes| <= PAGE_SZ
      modifies this
      ensures Valid() && Written(old(memory), memory, page + at, bytes) && memory.Keys == old(memory).Keys + {page}
    {
      hide Overwrite, FreshPage, Written;
      PageWrite(memory, page, at, bytes);
      if page !in memory {
        memory := memory[page := FreshPage()];
        UpdatedTwice(old(memory), page, memory[page], Overwrite(memory[page], at, bytes));
      }
      memory := memory[page := Overwrite(memory[page], at, bytes)];
    }

    /** Page by page, up to the page of the byte after the last one. */
    method Write(addr: nat, buf: View) returns (r: Outcome<bool>)
      requires Valid() && buf.Valid()
      modifies this
      ensures Valid()
      ensures r == if buf.obj == [] then Raised(ValueError) else Returned(true)
      ensures r.Raised? ==> memory == old(memory)
      ensures r.Returned? ==>
                && Written(old(memory), memory, addr, buf.obj[..buf.length])
                && PagesAdded(old(memory), memory, RoundDown(addr), RoundDown(addr + buf.length) + PAGE_SZ)
    {
      hide Written, PagesAdded, FlatByte, RoundDown, Paged, Progress, OnPage;
      if buf.obj == [] { return Raised(ValueError); }
      var count := buf.length;
      var first, last := RoundDown(addr), RoundDown(addr + count);
      var pageAddr, offsetWithinPage, written, currAddr := first, addr % PAGE_SZ, 0, addr;
      ghost var m0 := memory;
      RoundedDown(addr);
      RoundedDown(addr + count);
      NothingWritten(m0, addr);
      NoPageAdded(m0, first);
      Started(addr, count);
      assert buf.obj[..0] == [];
      while pageAddr <= last
        invariant Valid() && OnPage(pageAddr) && first <= pageAddr <= last + PAGE_SZ
        invariant addr <= currAddr == if pageAddr == first then addr else pageAddr
        invariant written == Progress(addr, count, currAddr)
        invariant Written(m0, memory, addr, buf.obj[..written])
        invariant PagesAdded(m0, memory, first, pageAddr)
        decreases last + PAGE_SZ - pageAddr
      {
        PartInPage(addr, count, pageAddr, currAddr);
        var end := written + pageAddr + PAGE_SZ - currAddr;
        var bytes := buf.obj[written..if count < end then count else end];
        ghost var m1 := memory;
        WritePage(pageAddr, if pageAddr == first then offsetWithinPage else 0, bytes);
        JoinedWrite(m0, m1, memory, addr, buf.obj, written, |bytes|, pageAddr + (if pageAddr == first then offsetWithinPage else 0));
        PageAdded(m0, m1, memory, first, pageAddr);
        NextPage(pageAddr);
        currAddr := pageAddr + PAGE_SZ;
        pageAddr := pageAddr + PAGE_SZ;
        written := written + |bytes|;
      }
      PagesApart(last, pageAddr);
      Arrived(addr, count, currAddr);
      return Returned(true);
    }

    /** The object behind the buffer after the read. */
    method Read(addr: nat, buf: View) returns (r: Outcome<seq<Byte>>)
      requires Valid() && buf.Valid()
      ensures r == if buf.obj == [] then Raised(ValueError)
                   else Returned(FlatRange(memory, addr, buf.length) + buf.obj[buf.length..])
    {
      FilledNothing(memory, addr, buf.obj);
      hide FlatByte, RoundDown, FlatRange, Overwrite, Progress, Filled, OnPage, Paged, PageBytes;
      if buf.obj == [] { return Raised(ValueError); }
      var count := buf.length;
      var first, last := RoundDown(addr), RoundDown(addr + count);
      var pageAddr, offsetWithinPage, got, currAddr, obj := first, addr % PAGE_SZ, 0, addr, buf.obj;
      RoundedDown(addr);
      RoundedDown(addr + count);
      Started(addr, count);
      while pageAddr <= last
        invariant OnPage(pageAddr) && first <= pageAddr <= last + PAGE_SZ
        invariant addr <= currAddr == if pageAddr == first then addr else pageAddr
        invariant got == Progress(addr, count, currAddr)
        invariant Filled(memory, addr, buf.obj, got, obj)
        decreases last + PAGE_SZ - pageAddr
      {
        PartInPage(addr, count, pageAddr, currAddr);
        var end := got + pageAddr + PAGE_SZ - currAddr;
        var length := (if count < end then count else end) - got;
        var at := if pageAddr == first then offsetWithinPage else 0;
        var bytes := PageBytes(memory, pageAddr, at, length);
        FillMore(memory, addr, buf.obj, got, obj, pageAddr, at, bytes);
        obj := Overwrite(obj, got, bytes);
        NextPage(pageAddr);
        currAddr := pageAddr + PAGE_SZ;
        pageAddr := pageAddr + PAGE_SZ;
        got := got + length;
      }
      PagesApart(last, pageAddr);
      Arrived(addr, count, currAddr);
      FilledAll(memory, addr, buf.obj, count, obj);
      return Returned(obj);
    }
  }

  // ----- every run -----

  datatype Op = Op(addr: nat, bytes: seq<Byte>)

  /** The byte last written to an address, or the sentinel. */
  function LastWritten(ops: seq<Op>, a: nat): Byte {
    if ops == [] then SENTINEL
    else
      var op := ops[|ops| - 1];
      if op.addr <= a < op.addr + |op.bytes| then op.bytes[a - op.addr] else LastWritten(ops[..|ops| - 1], a)
  }

  /** Over every sequence of writes, to any addresses and of any lengths, the pages hold the last byte
      written everywhere; pages created without being written change nothing. */
  lemma {:induction false} RunIsFlat(states: seq<map<nat, Page>>, ops: seq<Op>, a: nat)
    requires |states| == |ops| + 1 && states[0] == map[]
    requires forall k :: 0 <= k < |states| ==> Paged(states[k])
    requires forall k :: 0 <= k < |ops| ==> Written(states[k], states[k + 1], ops[k].addr, ops[k].bytes)
    ensures FlatByte(states[|ops|], a) == LastWritten(ops, a)
    decreases |ops|
  {
    hide Written;
    if ops != [] {
      var k := |ops| - 1;
      RunIsFlat(states[..k + 1], ops[..k], a);
      ByteWritten(states[k], states[k + 1], ops[k].addr, ops[k].bytes, a);
    }
  }

  lemma ByteWritten(before: map<nat, Page>, after: map<nat, Page>, addr: nat, bytes: seq<Byte>, a: nat)
    requires Paged(before) && Paged(after) && Written(before, after, addr, bytes)
    ensures FlatByte(after, a) == if addr <= a < addr + |bytes| then bytes[a - addr] else FlatByte(before, a)
  {}

  /** What was written is read back. */
  lemma ReadAfterWrite(before: map<nat, Page>, after: map<nat, Page>, addr: nat, bytes: seq<Byte>)
    requires Paged(before) && Paged(after) && Written(before, after, addr, bytes)
    ensures FlatRange(after, addr, |bytes|) == bytes
  {
    forall i | 0 <= i < |bytes| ensures FlatRange(after, addr, |bytes|)[i] == bytes[i] {
      ByteWritten(before, after, addr, bytes, addr + i);
    }
  }

  /** A write takes its bytes from the start of the object behind the view: it stores what the view
      shows exactly when the object starts with that, as it does for a view of the whole object. */
  lemma WriteOfView(before: map<nat, Page>, after: map<nat, Page>, addr: nat, buf: View)
    requires Paged(before) && Paged(after) && buf.Valid()
    requires Written(before, after, addr, buf.obj[..buf.length])
    ensures Written(before, after, addr, buf.Contents()) <==> buf.obj[..buf.length] == buf.Contents()
    ensures buf.start == 0 ==> buf.obj[..buf.length] == buf.Contents()
  {
    ReadAfterWrite(before, after, addr, buf.obj[..buf.length]);
    if Written(before, after, addr, buf.Contents()) {
      ReadAfterWrite(before, after, addr, buf.Contents());
    }
  }

  /** After a read the view shows the bytes of the memory. */
  predicate ShowsRead(memory: map<nat, Page>, addr: nat, buf: View)
    requires Paged(memory) && buf.Valid()
  {
    var flat := FlatRange(memory, addr, buf.length);
    buf.(obj := flat + buf.obj[buf.length..]).Contents() == flat
  }

  lemma WholeViewIsFilled(memory: map<nat, Page>, addr: nat, buf: View)
    requires Paged(memory) && buf.Valid() && (buf.start == 0 || buf.length == 0)
    ensures ShowsRead(memory, addr, buf)
  {}

  /** A read leaves the last byte of a view that starts later as it was. */
  lemma LastByteIsMissed(memory: map<nat, Page>, addr: nat, buf: View)
    requires Paged(memory) && buf.Valid() && buf.start > 0 && buf.length > 0
    requires FlatByte(memory, addr + (buf.length - 1)) != buf.obj[buf.start + buf.length - 1]
    ensures !ShowsRead(memory, addr, buf)
  {
    hide FlatByte;
    var flat, i := FlatRange(memory, addr, buf.length), buf.length - 1;
    var shown := buf.(obj := flat + buf.obj[buf.length..]).Contents();
    assert shown[i] == buf.obj[buf.start + i] && flat[i] == FlatByte(memory, addr + i);
  }

  lemma OneByteMemory(page: nat, b: Byte) returns (memory: map<nat, Page>)
    requires OnPage(page)
    ensures Paged(memory) && FlatByte(memory, page) == b
  {
    memory := map[page := Overwrite(FreshPage(), 0, [b])];
    PageWrite(map[], page, 0, [b]);
    assert map[][page := Overwrite(FreshPage(), 0, [b])] == memory;
    ByteWritten(map[], memory, page, [b], page);
  }

  lemma LaterViewIsNotFilled(buf: View) returns (memory: map<nat, Page>, addr: nat)
    requires buf.Valid() && buf.start > 0 && buf.length > 0
    ensures Paged(memory) && !ShowsRead(memory, addr, buf)
  {
    var n := buf.length - 1;
    addr := PAGE_SZ * (n + 1) - n;
    var page := PAGE_SZ * (n + 1);
    DivModUnique(page, PAGE_SZ, n + 1, 0);
    memory := OneByteMemory(page, if buf.obj[buf.start + n] == 0 then 1 else 0);
    assert addr + n == page;
    LastByteIsMissed(memory, addr, buf);
  }

  /** A read fills the object behind the view from its start: the view shows the memory, whatever that
      holds, exactly when it starts where the object does or is empty. */
  lemma ReadOfView(buf: View)
    requires buf.Valid()
    ensures (forall memory: map<nat, Page>, addr: nat :: Paged(memory) ==> ShowsRead(memory, addr, buf))
            <==> buf.start == 0 || buf.length == 0
  {
    hide ShowsRead, Paged;
    if buf.start == 0 || buf.length == 0 {
      forall memory: map<nat, Page>, addr: nat | Paged(memory) ensures ShowsRead(memory, addr, buf) {
        WholeViewIsFilled(memory, addr, buf);
      }
    } else {
      var memory, addr := LaterViewIsNotFilled(buf);
    }
  }
}
