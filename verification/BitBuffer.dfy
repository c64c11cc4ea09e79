/** A shareable byte array with unaligned bit access, read as one little-endian integer. */
module BitBuffer {
  import opened Bits
  import opened LittleEndian
  import opened Outcomes

  // ----- slices of an integer -----

  /** The `w` bits of `n` from bit `o` on. */
  function Slice(n: int, o: nat, w: nat): (s: nat) {
    n / Pow2(o) % Pow2(w)
  }

  /** `n` with those bits replaced by the low bits of `v`. */
  function Insert(n: nat, o: nat, w: nat, v: int): int {
    n / Pow2(o + w) * Pow2(o + w) + v % Pow2(w) * Pow2(o) + n % Pow2(o)
  }

  lemma SliceBound(n: int, o: nat, w: nat)
    ensures Slice(n, o, w) < Pow2(w)
  {}

  /** Two neighbouring slices are one. */
  lemma SliceJoin(n: int, o: nat, w1: nat, w2: nat)
    ensures Slice(n, o, w1 + w2) == Slice(n, o + w1, w2) * Pow2(w1) + Slice(n, o, w1)
  {
    hide Pow2;
    DivPow2(n, o, w1);
    DivPow2(n / Pow2(o), w1, w2);
  }

  /** A slice of a slice. */
  lemma SliceSlice(n: int, o: nat, w: nat, k: nat, u: nat)
    requires k + u <= w
    ensures Slice(Slice(n, o, w), k, u) == Slice(n, o + k, u)
  {
    hide Pow2;
    var x := n / Pow2(o);
    DivPow2(n, o, k);
    ModSlice(x, k, u, w);
  }

  /** The high part of a number cut at `w` bits does not matter for a slice below. */
  lemma ModSlice(x: int, k: nat, u: nat, w: nat)
    requires k + u <= w
    ensures Slice(x % Pow2(w), k, u) == Slice(x, k, u)
  {
    hide Pow2;
    Pow2Add(k, u);
    Pow2Add(k + u, w - k - u);
    CutAbove(x, Pow2(k), Pow2(u), Pow2(w - k - u), Pow2(w));
  }

  lemma CutAbove(x: int, a: nat, b: nat, c: nat, d: nat)
    requires a > 0 && b > 0 && c > 0 && d > 0 && d == a * b * c
    ensures x % d / a % b == x / a % b
  {
    var q, r := x / d, x % d;
    assert x == q * d + r;
    var y := r / a;
    assert q * d == (q * c * b) * a;
    DivModUnique(x, a, q * c * b + y, r % a);
    assert q * c * b + y == (q * c + y / b) * b + y % b;
    DivModUnique(q * c * b + y, b, q * c + y / b, y % b);
  }

  /** The three parts of an insertion. */
  lemma InsertParts(n: nat, o: nat, w: nat, v: int)
    ensures Insert(n, o, w, v) >= 0
    ensures Insert(n, o, w, v) / Pow2(o + w) == n / Pow2(o + w)
    ensures Insert(n, o, w, v) % Pow2(o + w) == v % Pow2(w) * Pow2(o) + n % Pow2(o)
    ensures Insert(n, o, w, v) % Pow2(o) == n % Pow2(o)
    ensures Slice(Insert(n, o, w, v), o, w) == v % Pow2(w)
  {
    hide Pow2;
    var a, b, m := Pow2(o), Pow2(w), v % Pow2(w);
    Pow2Add(o, w);
    InsertArith(n / (a * b), m, n % a, a, b);
  }

  lemma InsertArith(h: nat, m: nat, l: nat, a: nat, b: nat)
    requires m < b && l < a
    ensures a * b > 0 && h * (a * b) >= 0 && m * a >= 0
    ensures var x := h * (a * b) + m * a + l;
            x / (a * b) == h && x % (a * b) == m * a + l && x % a == l && x / a % b == m
  {
    var x := h * (a * b) + m * a + l;
    MulLe(m, b - 1, a);
    MulLe(0, m, a);
    MulGe(b, a);
    MulLe(0, h, a * b);
    assert (b - 1) * a == a * b - a && b * a == a * b;
    DivModUnique(x, a * b, h, m * a + l);
    assert h * (a * b) == (h * b) * a;
    DivModUnique(x, a, h * b + m, l);
    DivModUnique(h * b + m, b, h, m);
  }

  /** What was inserted is read back. */
  lemma SliceOfInsert(n: nat, o: nat, w: nat, v: int)
    ensures Insert(n, o, w, v) >= 0
    ensures Slice(Insert(n, o, w, v), o, w) == v % Pow2(w)
  {
    InsertParts(n, o, w, v);
  }

  /** An insertion changes no slice beside it. */
  lemma InsertFrame(n: nat, o: nat, w: nat, v: int, p: nat, u: nat)
    requires p + u <= o || o + w <= p
    ensures Insert(n, o, w, v) >= 0
    ensures Slice(Insert(n, o, w, v), p, u) == Slice(n, p, u)
  {
    hide Pow2, Insert;
    var m := Insert(n, o, w, v);
    InsertParts(n, o, w, v);
    if p + u <= o {
      ModSlice(m, p, u, o);
      ModSlice(n, p, u, o);
    } else {
      DivPow2(m, o + w, p - o - w);
      DivPow2(n, o + w, p - o - w);
    }
  }

  lemma BitIsSlice(n: int, i: nat)
    ensures Bit(n, i) <==> Slice(n, i, 1) == 1
  {
    assert Pow2(1) == 2;
  }

  /** An insertion bit by bit. */
  lemma BitOfInsert(n: nat, o: nat, w: nat, v: int, i: nat)
    ensures Insert(n, o, w, v) >= 0
    ensures Bit(Insert(n, o, w, v), i) == if o <= i < o + w then Bit(v, i - o) else Bit(n, i)
  {
    hide Pow2, Insert, Slice, Bit;
    var m := Insert(n, o, w, v);
    BitIsSlice(n, i);
    BitIsSlice(m, i);
    if o <= i < o + w {
      BitIsSlice(v, i - o);
      SliceOfInsert(n, o, w, v);
      SliceSlice(m, o, w, i - o, 1);
      ModSlice(v, i - o, 1, w);
    } else {
      InsertFrame(n, o, w, v, i, 1);
    }
  }

  /** Two neighbouring insertions are one. */
  lemma InsertJoin(n: nat, o: nat, w1: nat, w2: nat, v: int)
    ensures Insert(n, o, w1, v) >= 0
    ensures Insert(Insert(n, o, w1, v), o + w1, w2, v / Pow2(w1)) == Insert(n, o, w1 + w2, v)
  {
    hide Pow2;
    var m := Insert(n, o, w1, v);
    InsertParts(n, o, w1, v);
    DivPow2(m, o + w1, w2);
    DivPow2(n, o + w1, w2);
    DivPow2(v, w1, w2);
    Pow2Add(o, w1);
    var hi, lo := v / Pow2(w1) % Pow2(w2), v % Pow2(w1);
    JoinArith(hi, lo, Pow2(o), Pow2(w1), Pow2(o + w1));
    assert m / Pow2(o + w1 + w2) == n / Pow2(o + w1 + w2);
    assert o + (w1 + w2) == o + w1 + w2;
  }

  lemma JoinArith(hi: int, lo: int, a: nat, b: nat, c: nat)
    requires c == a * b
    ensures hi * c + lo * a == (hi * b + lo) * a
  {
    assert hi * (a * b) == (hi * b) * a;
  }

  /** A number is what a slice and the rest say. */
  lemma InsertUnique(n: nat, m: nat, o: nat, w: nat, v: int)
    requires m / Pow2(o + w) == n / Pow2(o + w) && m % Pow2(o) == n % Pow2(o) && Slice(m, o, w) == v % Pow2(w)
    ensures m == Insert(n, o, w, v)
  {
    hide Pow2;
    DivPow2(m, o, w);
    assert m == m / Pow2(o + w) * Pow2(o + w) + m % Pow2(o + w);
  }

  // ----- bytes and the integer -----

  lemma PartsOfBytes(p: seq<Byte>, m: seq<Byte>, s: seq<Byte>)
    ensures var n := FromBytes(p + m + s);
            && n / Pow2(8 * |p| + 8 * |m|) == FromBytes(s)
            && n % Pow2(8 * |p|) == FromBytes(p)
            && Slice(n, 8 * |p|, 8 * |m|) == FromBytes(m)
  {
    hide Pow2, FromBytes;
    var a, b := Pow2(8 * |p|), Pow2(8 * |m|);
    assert p + m + s == p + (m + s);
    FromBytesConcat(p, m + s);
    FromBytesConcat(m, s);
    FromBytesBound(p);
    FromBytesBound(m);
    Pow2Add(8 * |p|, 8 * |m|);
    ThreeParts(FromBytes(s), FromBytes(m), FromBytes(p), a, b);
  }

  lemma ThreeParts(h: nat, m: nat, l: nat, a: nat, b: nat)
    requires m < b && l < a
    ensures a * b > 0
    ensures var x := l + a * (m + b * h); x / (a * b) == h && x % a == l && x / a % b == m
  {
    InsertArith(h, m, l, a, b);
    Regroup(h, m, a, b);
  }

  lemma Regroup(h: nat, m: nat, a: nat, b: nat)
    ensures a * (m + b * h) == h * (a * b) + m * a
  {
    assert a * (m + b * h) == a * m + a * (b * h);
    assert a * (b * h) == (a * b) * h == h * (a * b);
  }

  /** A byte, and a run of bytes, are slices of the integer. */
  lemma BytesAreSlice(b: seq<Byte>, i: nat, k: nat)
    requires i + k <= |b|
    ensures Slice(FromBytes(b), 8 * i, 8 * k) == FromBytes(b[i..i + k])
  {
    assert b == b[..i] + b[i..i + k] + b[i + k..];
    PartsOfBytes(b[..i], b[i..i + k], b[i + k..]);
  }

  lemma ByteIsSlice(b: seq<Byte>, i: nat, k: nat, u: nat)
    requires i < |b| && k + u <= 8
    ensures Slice(FromBytes(b), 8 * i + k, u) == Slice(b[i], k, u)
  {
    hide Pow2, Slice;
    BytesAreSlice(b, i, 1);
    assert b[i..i + 1] == [b[i]] && FromBytes([b[i]]) == b[i];
    SliceSlice(FromBytes(b), 8 * i, 8, k, u);
  }

  /** Overwriting bytes is an insertion. */
  lemma SpliceIsInsert(b: seq<Byte>, i: nat, c: seq<Byte>)
    requires i + |c| <= |b|
    ensures FromBytes(b[..i] + c + b[i + |c|..]) == Insert(FromBytes(b), 8 * i, 8 * |c|, FromBytes(c))
  {
    hide Pow2, FromBytes, Insert;
    var k := i + |c|;
    assert b == b[..i] + b[i..k] + b[k..];
    PartsOfBytes(b[..i], b[i..k], b[k..]);
    PartsOfBytes(b[..i], c, b[k..]);
    FromBytesBound(c);
    DivModUnique(FromBytes(c), Pow2(8 * |c|), 0, FromBytes(c));
    InsertUnique(FromBytes(b), FromBytes(b[..i] + c + b[k..]), 8 * i, 8 * |c|, FromBytes(c));
  }

  /** A number below 2^w stays below when a slice of it is replaced. */
  lemma InsertStaysBelow(x: nat, w: nat, k: nat, u: nat, v: int)
    requires x < Pow2(w) && k + u <= w
    ensures 0 <= Insert(x, k, u, v) < Pow2(w)
  {
    hide Pow2, Insert;
    InsertParts(x, k, u, v);
    DivPow2(x, k + u, w - k - u);
    DivPow2(Insert(x, k, u, v), k + u, w - k - u);
    DivModUnique(x, Pow2(w), 0, x);
    QuotientZero(Insert(x, k, u, v), Pow2(w));
  }

  lemma QuotientZero(y: int, d: nat)
    requires d > 0 && y / d == 0
    ensures 0 <= y < d
  {
    assert y == y / d * d + y % d;
  }

  /** Replacing part of a slice within the slice is replacing that part. */
  lemma InsertInside(n: nat, o: nat, w: nat, k: nat, u: nat, v: int)
    requires k + u <= w
    ensures Insert(n, o, w, Insert(Slice(n, o, w), k, u, v)) == Insert(n, o + k, u, v)
  {
    hide Pow2, Insert;
    var x := Slice(n, o, w);
    var y := Insert(x, k, u, v);
    var m := Insert(n, o, w, y);
    InsertStaysBelow(x, w, k, u, v);
    DivModUnique(y, Pow2(w), 0, y);
    InsertParts(n, o, w, y);
    InsertParts(x, k, u, v);
    assert Slice(m, o, w) == y;
    LowPart(m, o, w, k);
    LowPart(n, o, w, k);
    HighPart(m, o, w, k + u);
    HighPart(n, o, w, k + u);
    SliceSlice(m, o, w, k, u);
    InsertUnique(n, m, o + k, u, v);
  }

  lemma LowPart(n: nat, o: nat, w: nat, k: nat)
    requires k <= w
    ensures n % Pow2(o + k) == Slice(n, o, w) % Pow2(k) * Pow2(o) + n % Pow2(o)
  {
    hide Pow2;
    DivPow2(n, o, k);
    SliceSlice(n, o, w, 0, k);
    ByOne(Slice(n, o, w));
  }

  lemma ByOne(x: int)
    ensures x / Pow2(0) == x
  {}

  lemma HighPart(n: nat, o: nat, w: nat, k: nat)
    requires k <= w
    ensures n / Pow2(o + k) == n / Pow2(o + w) * Pow2(w - k) + Slice(n, o, w) / Pow2(k)
  {
    hide Pow2;
    SliceSlice(n, o, w, k, w - k);
    DivPow2(n, o + k, w - k);
    assert o + k + (w - k) == o + w;
    SliceBound(n, o, w);
    DivPow2(Slice(n, o, w), k, w - k);
    DivModUnique(Slice(n, o, w), Pow2(w), 0, Slice(n, o, w));
    var q := Slice(n, o, w) / Pow2(k);
    QuotientZero2(q, Pow2(w - k));
    var x := n / Pow2(o + k);
    assert x == x / Pow2(w - k) * Pow2(w - k) + x % Pow2(w - k);
  }

  lemma QuotientZero2(q: int, d: nat)
    requires d > 0 && q / d == 0
    ensures q % d == q
  {
    assert q == q / d * d + q % d;
  }

  // ----- one byte -----

  /** `(x & ~mask) | ((v << k) & mask)` with `mask = ((1 << u) - 1) << k` */
  lemma MaskedIsInsert(x: nat, k: nat, u: nat, v: int)
    ensures (Pow2(u) - 1) * Pow2(k) >= 0
    ensures var mask := (Pow2(u) - 1) * Pow2(k);
            && 0 <= AndNot(x, mask) <= x
            && Or(AndNot(x, mask), And(v * Pow2(k), mask)) == Insert(x, k, u, v)
  {
    hide Pow2, And, Insert;
    var mask := (Pow2(u) - 1) * Pow2(k);
    AndField(x, u, k);
    AndField(v * Pow2(k), u, k);
    DivModUnique(v * Pow2(k), Pow2(k), v, 0);
    var z := v % Pow2(u) * Pow2(k);
    var y := AndNot(x, mask);
    assert y == x - Slice(x, k, u) * Pow2(k);
    AndShifted(y, v % Pow2(u), k, z);
    ClearedSlice(x, k, u);
    AndDisjoint(y / Pow2(k), v % Pow2(u), u);
    assert Or(y, z) == y + z;
    InsertIsDifference(x, k, u, v);
  }

  lemma ClearedSlice(x: nat, k: nat, u: nat)
    ensures (x - Slice(x, k, u) * Pow2(k)) / Pow2(k) % Pow2(u) == 0
  {
    hide Pow2;
    ClearedArith(x, x / Pow2(k), Pow2(k), Pow2(u));
  }

  lemma ClearedArith(x: nat, q: nat, a: nat, b: nat)
    requires a > 0 && b > 0 && q == x / a
    ensures (x - q % b * a) / a % b == 0
  {
    assert (q - q % b) * a == q * a - q % b * a;
    DivModUnique(x - q % b * a, a, q - q % b, x % a);
    DivModUnique(q - q % b, b, q / b, 0);
  }

  lemma InsertIsDifference(x: nat, k: nat, u: nat, v: int)
    ensures Insert(x, k, u, v) == x - Slice(x, k, u) * Pow2(k) + v % Pow2(u) * Pow2(k)
  {
    hide Pow2;
    DivPow2(x, k, u);
    Recompose(x, Pow2(k + u));
  }

  lemma Recompose(x: int, d: nat)
    requires d > 0
    ensures x == x / d * d + x % d
  {}

  /** Replacing a slice of one byte replaces it in the integer. */
  lemma MergeIsInsert(b: seq<Byte>, j: nat, k: nat, u: nat, v: int)
    requires j < |b| && k + u <= 8
    ensures 0 <= Insert(b[j], k, u, v) < 256
    ensures var y: Byte := Insert(b[j], k, u, v);
            FromBytes(b[j := y]) == Insert(FromBytes(b), 8 * j + k, u, v)
  {
    hide Pow2, Insert, Slice;
    EightBits();
    InsertStaysBelow(b[j], 8, k, u, v);
    var y: Byte := Insert(b[j], k, u, v);
    BytesAreSlice(b, j, 1);
    assert b[j..j + 1] == [b[j]] && FromBytes([b[j]]) == b[j];
    assert b[j := y] == b[..j] + [y] + b[j + 1..] && FromBytes([y]) == y;
    SpliceIsInsert(b, j, [y]);
    InsertInside(FromBytes(b), 8 * j, 8, k, u, v);
  }

  // ----- the buffer -----

  /** A `bytearray`: bytes that are changed in place, and whose number can grow. */
  class ByteStore {
    var bytes: seq<Byte>

    constructor (size: nat)
      ensures bytes == seq(size, _ => 0)
    {
      bytes := seq(size, _ => 0);
    }
  }

  /** `offset` and `size` make a view: several views may share one store. */
  class ShareableByteArray {
    const data: ByteStore
    const offset: nat
    const size: nat

    constructor (size: nat)
      ensures fresh(data) && data.bytes == seq(size, _ => 0) && this.size == size && offset == 0
    {
      data := new ByteStore(size);
      this.size := size;
      offset := 0;
    }

    /** A view of part of `parent`'s store. */
    constructor Shared(size: nat, parent: ShareableByteArray, offset: nat)
      requires parent.size > 0
      ensures data == parent.data && this.size == size && this.offset == offset
    {
      data := parent.data;
      this.size := size;
      this.offset := offset;
    }

    /** The whole store, little-endian. */
    ghost function Number(): nat
      reads data
    {
      FromBytes(data.bytes)
    }

    /** The slice lies in the store. */
    predicate InBounds(o: nat, w: nat)
      reads data
    {
      w >= 1 && offset + (o + w - 1) / 8 < |data.bytes|
    }

    method MergeByte(index: nat, k: nat, u: nat, value: int)
      requires offset + index < |data.bytes| && k + u <= 8
      modifies data
      ensures Number() == Insert(old(Number()), 8 * (offset + index) + k, u, value) && |data.bytes| == |old(data.bytes)|
    {
      hide Insert, And, Pow2, FromBytes;
      var j := offset + index;
      ghost var b := data.bytes;
      MaskedIsInsert(b[j], k, u, value);
      MergeIsInsert(b, j, k, u, value);
      var mask := (Pow2(u) - 1) * Pow2(k);
      data.bytes := data.bytes[j := AndNot(data.bytes[j], mask)];
      data.bytes := data.bytes[j := Or(data.bytes[j], And(value * Pow2(k), mask))];
      assert data.bytes == b[j := data.bytes[j]];
    }

    method WriteBits(o: nat, width: nat, value: int)
      requires InBounds(o, width)
      modifies data
      ensures Number() == Insert(old(Number()), 8 * offset + o, width, value) && |data.bytes| == |old(data.bytes)|
    {
      hide Insert, And, Pow2, FromBytes;
      var byteOffset, bitOffset := o / 8, o % 8;
      var byteEnd, bitEnd := (o + width - 1) / 8, (o + width - 1) % 8;
      if byteOffset == byteEnd {
        MergeByte(byteOffset, bitOffset, width, value);
        return;
      }
      ghost var n := Number();
      var rest := value;
      MergeByte(byteOffset, bitOffset, 8 - bitOffset, rest);
      rest := rest / Pow2(8 - bitOffset);
      ghost var finished := 8 - bitOffset;
      for i := byteOffset + 1 to byteEnd
        invariant finished == 8 * i - o && |data.bytes| == |old(data.bytes)|
        invariant rest == value / Pow2(finished)
        invariant Number() == Insert(n, 8 * offset + o, finished, value)
      {
        InsertJoin(n, 8 * offset + o, finished, 8, value);
        DivPow2(value, finished, 8);
        PutByte(i, rest);
        rest := rest / Pow2(8);
        finished := finished + 8;
      }
      InsertJoin(n, 8 * offset + o, finished, bitEnd + 1, value);
      MergeByte(byteEnd, 0, bitEnd + 1, rest);
    }

    /** `self[i] = value & 0xFF` */
    method PutByte(index: nat, value: int)
      requires offset + index < |data.bytes|
      modifies data
      ensures Number() == Insert(old(Number()), 8 * (offset + index), 8, value) && |data.bytes| == |old(data.bytes)|
    {
      hide Insert, And, Pow2, FromBytes;
      var j := offset + index;
      ghost var b := data.bytes;
      EightBits();
      AndMask(value, 8);
      data.bytes := data.bytes[j := And(value, 0xFF)];
      WholeByte(b, j, value);
      assert data.bytes == b[j := data.bytes[j]];
    }

    method ReadBits(o: nat, width: nat) returns (r: nat)
      requires InBounds(o, width)
      ensures r == Slice(Number(), 8 * offset + o, width)
    {
      hide Insert, And, Pow2, FromBytes, Slice, JoinHigh, FieldOf;
      var byteOffset, bitOffset := o / 8, o % 8;
      var byteEnd, bitEnd := (o + width - 1) / 8, (o + width - 1) % 8;
      ghost var n := Number();
      if byteOffset == byteEnd {
        r := FieldOf(data.bytes, offset + byteOffset, bitOffset, width);
        return;
      }
      r := FieldOf(data.bytes, offset + byteEnd, 0, bitEnd + 1);
      ghost var got := bitEnd + 1;
      for i := byteEnd downto byteOffset + 1
        invariant got == o + width - 8 * i
        invariant r == Slice(n, 8 * (offset + i), got)
      {
        ByteAtSlice(data.bytes, offset + i);
        JoinSlices(n, 8 * (offset + i), 8, got);
        r := JoinHigh(r, data.bytes[offset + i], 8);
        got := got + 8;
      }
      JoinSlices(n, 8 * offset + o, 8 - bitOffset, got);
      var low := FieldOf(data.bytes, offset + byteOffset, bitOffset, 8 - bitOffset);
      assert 8 * (offset + byteOffset) + bitOffset == 8 * offset + o;
      r := JoinHigh(r, low, 8 - bitOffset);
    }

    /** `data[start:end + 1] = value.to_bytes(length)`: the value must fit; a range past the end of
        the store is cut there, and the store grows. */
    method WriteBytes(start: nat, end: nat, value: int) returns (r: Outcome<bool>)
      requires start <= end
      modifies data
      ensures r == if 0 <= value < Pow2(8 * (end - start + 1)) then Returned(true) else Raised(OverflowError)
      ensures r.Raised? ==> data.bytes == old(data.bytes)
      ensures r.Returned? ==>
                && |data.bytes| == Max(|old(data.bytes)|, Min(offset + start, |old(data.bytes)|) + end - start + 1)
                && Number() == Insert(old(Number()), 8 * Min(offset + start, |old(data.bytes)|), 8 * (end - start + 1), value)
    {
      hide Insert, Pow2, FromBytes, ToBytes;
      var length := end - start + 1;
      if value < 0 || value >= Pow2(8 * length) {
        return Raised(OverflowError);
      }
      var bytes := ToBytes(value, length);
      FromToBytes(value, length);
      DivModUnique(value, Pow2(8 * length), 0, value);
      var b := data.bytes;
      var lo, hi := Min(offset + start, |b|), Min(offset + end + 1, |b|);
      CutSpliceIsInsert(b, lo, bytes);
      data.bytes := b[..lo] + bytes + b[hi..];
      return Returned(true);
    }

    /** `copy_from`: byte after byte. */
    method CopyFrom(source: seq<Byte>, dest: nat)
      requires offset + dest + |source| <= |data.bytes|
      modifies data
      ensures Number() == Insert(old(Number()), 8 * (offset + dest), 8 * |source|, FromBytes(source))
      ensures |data.bytes| == |old(data.bytes)|
    {
      hide Insert, Pow2, FromBytes, Slice;
      ghost var n, v := Number(), FromBytes(source);
      InsertNothing(n, 8 * (offset + dest), v);
      for k := 0 to |source|
        invariant Number() == Insert(n, 8 * (offset + dest), 8 * k, v) && |data.bytes| == |old(data.bytes)|
      {
        InsertJoin(n, 8 * (offset + dest), 8 * k, 8, v);
        PutByte(dest + k, source[k]);
        NextByte(source, k);
        InsertCongruent(Insert(n, 8 * (offset + dest), 8 * k, v), 8 * (offset + dest + k), 8, source[k], v / Pow2(8 * k));
      }
    }

    /** `data[start:end + 1]`: bytes past the end of the store are not there, and count as zero. */
    method ReadBytes(start: nat, end: nat) returns (r: nat)
      requires start <= end
      ensures r == Slice(Number(), 8 * (offset + start), 8 * (end - start + 1))
    {
      hide Slice, FromBytes;
      var b := data.bytes;
      CutBytesAreSlice(b, offset + start, end - start + 1);
      r := FromBytes(b[Min(offset + start, |b|)..Min(offset + end + 1, |b|)]);
    }
  }

  function Min(a: int, b: int): int {
    if a < b then a else b
  }

  function Max(a: int, b: int): int {
    if a < b then b else a
  }

  function Zeros(z: nat): (b: seq<Byte>)
    ensures |b| == z && forall i :: 0 <= i < z ==> b[i] == 0
  {
    seq(z, _ => 0)
  }

  lemma ZeroBytes(b: seq<Byte>, z: nat)
    ensures FromBytes(b + Zeros(z)) == FromBytes(b)
  {
    hide Zeros, FromBytes;
    FromBytesConcat(b, Zeros(z));
    ZerosAreZero(Zeros(z));
  }

  lemma {:induction false} ZerosAreZero(b: seq<Byte>)
    requires forall i :: 0 <= i < |b| ==> b[i] == 0
    ensures FromBytes(b) == 0
  {
    if b != [] {
      ZerosAreZero(b[1..]);
    }
  }

  /** The tail of padded bytes. */
  lemma PaddedTail(b: seq<Byte>, z: nat, i: nat)
    requires i <= |b| + z
    ensures (b + Zeros(z))[i..] == if i <= |b| then b[i..] + Zeros(z) else Zeros(|b| + z - i)
  {
    hide Zeros;
  }

  /** Overwriting, also past the end, is an insertion. */
  lemma CutSpliceIsInsert(b: seq<Byte>, lo: nat, c: seq<Byte>)
    requires lo <= |b|
    ensures FromBytes(b[..lo] + c + b[Min(lo + |c|, |b|)..]) == Insert(FromBytes(b), 8 * lo, 8 * |c|, FromBytes(c))
  {
    hide Pow2, FromBytes, Insert, Zeros;
    if lo + |c| <= |b| {
      SpliceIsInsert(b, lo, c);
    } else {
      var z := lo + |c| - |b|;
      var b' := b + Zeros(z);
      ZeroBytes(b, z);
      SpliceIsInsert(b', lo, c);
      assert b'[..lo] == b[..lo] && b'[lo + |c|..] == [] == b[|b|..];
    }
  }

  lemma CutBytesAreSlice(b: seq<Byte>, i: nat, k: nat)
    ensures Slice(FromBytes(b), 8 * i, 8 * k) == FromBytes(b[Min(i, |b|)..Min(i + k, |b|)])
  {
    hide Pow2, FromBytes, Slice, Zeros;
    if i + k <= |b| {
      BytesAreSlice(b, i, k);
    } else {
      var z := i + k - |b|;
      var b' := b + Zeros(z);
      ZeroBytes(b, z);
      BytesAreSlice(b', i, k);
      assert b'[i..i + k] == b'[i..];
      PaddedTail(b, z, i);
      if i <= |b| {
        ZeroBytes(b[i..], z);
        assert b[i..|b|] == b[i..];
      } else {
        ZerosAreZero(Zeros(k));
        ZerosAreZero(b[|b|..|b|]);
      }
    }
  }

  lemma InsertNothing(n: nat, o: nat, v: int)
    ensures Insert(n, o, 0, v) == n
  {
    var m := v;
    assert Pow2(0) == 1 && m % 1 == 0;
  }

  lemma NextByte(b: seq<Byte>, k: nat)
    requires k < |b|
    ensures b[k] % Pow2(8) == FromBytes(b) / Pow2(8 * k) % Pow2(8)
  {
    EightBits();
    ByteAtSlice(b, k);
  }

  /** Only the low bits of the value are inserted. */
  lemma InsertCongruent(n: nat, o: nat, w: nat, u: int, v: int)
    requires u % Pow2(w) == v % Pow2(w)
    ensures Insert(n, o, w, u) == Insert(n, o, w, v)
  {}

  lemma WholeByte(b: seq<Byte>, j: nat, v: int)
    requires j < |b|
    ensures 0 <= v % 256 && FromBytes(b[j := v % 256]) == Insert(FromBytes(b), 8 * j, 8, v)
  {
    InsertAll(b[j], v);
    hide Pow2, Insert, FromBytes;
    MergeIsInsert(b, j, 0, 8, v);
  }

  lemma InsertAll(x: Byte, v: int)
    ensures Insert(x, 0, 8, v) == v % 256
  {
    EightBits();
    assert Pow2(0) == 1;
  }

  lemma ByteAtSlice(b: seq<Byte>, j: nat)
    requires j < |b|
    ensures Slice(FromBytes(b), 8 * j, 8) == b[j] && b[j] < Pow2(8)
  {
    EightBits();
    hide Pow2, Slice;
    BytesAreSlice(b, j, 1);
    assert b[j..j + 1] == [b[j]] && FromBytes([b[j]]) == b[j];
  }

  /** `(b[j] & mask) >> k` */
  function FieldOf(b: seq<Byte>, j: nat, k: nat, u: nat): (r: nat)
    requires j < |b| && k + u <= 8
    ensures r == Slice(FromBytes(b), 8 * j + k, u)
  {
    hide Pow2, And, FromBytes, Slice;
    ByteIsSlice(b, j, k, u);
    AndField(b[j], u, k);
    FieldDown(b[j], k, u);
    And(b[j], (Pow2(u) - 1) * Pow2(k)) / Pow2(k)
  }

  lemma FieldDown(x: nat, k: nat, u: nat)
    ensures x / Pow2(k) % Pow2(u) * Pow2(k) / Pow2(k) == Slice(x, k, u)
  {
    hide Pow2;
    DivModUnique(x / Pow2(k) % Pow2(u) * Pow2(k), Pow2(k), x / Pow2(k) % Pow2(u), 0);
  }

  lemma OrIsSum(high: nat, low: nat, k: nat)
    requires low < Pow2(k)
    ensures high * Pow2(k) >= 0
    ensures Or(high * Pow2(k), low) == high * Pow2(k) + low
  {
    hide Pow2, And;
    MulLe(0, high, Pow2(k));
    DivModUnique(high * Pow2(k), Pow2(k), high, 0);
    AndDisjoint(high * Pow2(k), low, k);
  }

  /** `(high << k) | low` */
  function JoinHigh(high: nat, low: nat, k: nat): nat
    requires low < Pow2(k)
  {
    OrIsSum(high, low, k);
    Or(high * Pow2(k), low)
  }

  /** Neighbouring slices are joined into one. */
  lemma JoinSlices(n: int, o: nat, w1: nat, w2: nat)
    ensures Slice(n, o, w1) < Pow2(w1)
    ensures JoinHigh(Slice(n, o + w1, w2), Slice(n, o, w1), w1) == Slice(n, o, w1 + w2)
  {
    hide Pow2, Slice;
    SliceBound(n, o, w1);
    SliceJoin(n, o, w1, w2);
    OrIsSum(Slice(n, o + w1, w2), Slice(n, o, w1), w1);
  }
}
