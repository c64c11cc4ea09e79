/** Bytes and the little-endian integers they stand for. */
module LittleEndian {
  import opened Bits

  type Byte = b: nat | b < 256

  /** The low `n` bytes of `v`. */
  function ToBytes(v: int, n: nat): (b: seq<Byte>)
    ensures |b| == n
    decreases n
  {
    if n == 0 then [] else [v % 256] + ToBytes(v / 256, n - 1)
  }

  function FromBytes(b: seq<Byte>): nat {
    if b == [] then 0 else b[0] + 256 * FromBytes(b[1..])
  }

  lemma EightBits()
    ensures Pow2(8) == 256
  {}

  lemma Pow256(n: nat)
    requires n > 0
    ensures Pow2(8 * n) == 256 * Pow2(8 * (n - 1))
  {
    EightBits();
    hide Pow2;
    Pow2Add(8, 8 * (n - 1));
  }

  lemma {:induction false} FromBytesBound(b: seq<Byte>)
    ensures FromBytes(b) < Pow2(8 * |b|)
  {
    if b != [] {
      FromBytesBound(b[1..]);
      Pow256(|b|);
    }
  }

  /** Writing and reading back keeps what fits. */
  lemma {:induction false} FromToBytes(v: int, n: nat)
    ensures FromBytes(ToBytes(v, n)) == v % Pow2(8 * n)
    decreases n
  {
    if n > 0 {
      FromToBytes(v / 256, n - 1);
      Pow256(n);
      DivDiv(v, 256, Pow2(8 * (n - 1)));
      assert ToBytes(v, n)[1..] == ToBytes(v / 256, n - 1);
    }
  }

  lemma {:induction false} ToFromBytes(b: seq<Byte>)
    ensures ToBytes(FromBytes(b), |b|) == b
  {
    if b != [] {
      ToFromBytes(b[1..]);
      DivModUnique(FromBytes(b), 256, FromBytes(b[1..]), b[0]);
    }
  }

  /** Every byte of `v`. */
  lemma {:induction false} ByteAt(v: int, n: nat, i: nat)
    requires i < n
    ensures ToBytes(v, n)[i] == v / Pow2(8 * i) % 256
    decreases n
  {
    if i > 0 {
      ByteAt(v / 256, n - 1, i - 1);
      Pow256(i);
      DivDiv(v, 256, Pow2(8 * (i - 1)));
    } else {
      assert v / 1 == v;
    }
  }

  /** Only the low bytes matter. */
  lemma {:induction false} ToBytesOfMod(v: int, m: nat, n: nat)
    requires n <= m
    ensures ToBytes(v % Pow2(8 * m), n) == ToBytes(v, n)
    decreases n
  {
    if n > 0 {
      ToBytesOfMod(v / 256, m - 1, n - 1);
      Pow256(m);
      DivDiv(v, 256, Pow2(8 * (m - 1)));
      DivModUnique(v % Pow2(8 * m), 256, (v / 256) % Pow2(8 * (m - 1)), v % 256);
    }
  }

  lemma {:induction false} FromBytesConcat(a: seq<Byte>, b: seq<Byte>)
    ensures FromBytes(a + b) == FromBytes(a) + Pow2(8 * |a|) * FromBytes(b)
  {
    if a == [] {
      assert a + b == b;
    } else {
      hide Pow2;
      FromBytesConcat(a[1..], b);
      assert (a + b)[1..] == a[1..] + b;
      Pow256(|a|);
      ShiftedSum(a[0], FromBytes(a[1..]), Pow2(8 * (|a| - 1)), FromBytes(b));
    }
  }

  lemma ShiftedSum(x: nat, f: nat, p: nat, y: nat)
    ensures x + 256 * (f + p * y) == x + 256 * f + 256 * p * y
  {}
}
