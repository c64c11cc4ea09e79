/** Host-managed device memory decoders: the bit slicing that turns a host address into a device
    address, the interleaved choice of a target, and the tables of committed decoders. */
module HdmDecoder {
  import opened Bits
  import opened Outcomes

  /** IG 0..6 stands for 256 B .. 16 KB. */
  predicate ValidIg(ig: nat) {
    ig <= 6
  }

  /** IW 0..4 stands for 1, 2, 4, 8, 16 ways and 8..10 for 3, 6, 12 ways. */
  predicate ValidIw(iw: nat) {
    iw <= 4 || 8 <= iw <= 10
  }

  function Granularity(ig: nat): (g: nat)
    ensures g > 0
  {
    Pow2(ig + 8)
  }

  function Ways(iw: nat): (w: nat)
    ensures w > 0
  {
    if iw < 8 then Pow2(iw) else 3 * Pow2(iw - 8)
  }

  /** The codes stand for 256 B to 16 KB and for 1, 2, 3, 4, 6, 8, 12 and 16 ways, each of them for one. */
  lemma CodesExact(g: nat, w: nat)
    ensures (exists ig :: ValidIg(ig) && Granularity(ig) == g) <==> g in {0x100, 0x200, 0x400, 0x800, 0x1000, 0x2000, 0x4000}
    ensures (exists iw :: ValidIw(iw) && Ways(iw) == w) <==> w in {1, 2, 3, 4, 6, 8, 12, 16}
    ensures forall ig, ig' :: ValidIg(ig) && ValidIg(ig') && Granularity(ig) == Granularity(ig') ==> ig == ig'
    ensures forall iw, iw' :: ValidIw(iw) && ValidIw(iw') && Ways(iw) == Ways(iw') ==> iw == iw'
  {
    GranularityCodes();
    WayCodes();
    hide Granularity, Ways;
    if g in {0x100, 0x200, 0x400, 0x800, 0x1000, 0x2000, 0x4000} {
      var ig := if g == 0x100 then 0 else if g == 0x200 then 1 else if g == 0x400 then 2 else if g == 0x800 then 3
                else if g == 0x1000 then 4 else if g == 0x2000 then 5 else 6;
      assert ValidIg(ig) && Granularity(ig) == g;
    }
    if w in {1, 2, 3, 4, 6, 8, 12, 16} {
      var iw := if w == 1 then 0 else if w == 2 then 1 else if w == 4 then 2 else if w == 8 then 3 else if w == 16 then 4
                else if w == 3 then 8 else if w == 6 then 9 else 10;
      assert ValidIw(iw) && Ways(iw) == w;
    }
  }

  lemma GranularityCodes()
    ensures Granularity(0) == 0x100 && Granularity(1) == 0x200 && Granularity(2) == 0x400 && Granularity(3) == 0x800
    ensures Granularity(4) == 0x1000 && Granularity(5) == 0x2000 && Granularity(6) == 0x4000
  {}

  lemma WayCodes()
    ensures Ways(0) == 1 && Ways(1) == 2 && Ways(2) == 4 && Ways(3) == 8 && Ways(4) == 16
    ensures Ways(8) == 3 && Ways(9) == 6 && Ways(10) == 12
  {}

  const OFFSET_BITS: nat := 52

  /** `(number >> start) & ((1 << (end - start + 1)) - 1)` */
  function GetBitRange(number: int, start: nat, end: nat): (bits: nat)
    requires start <= end
    ensures bits == number / Pow2(start) % Pow2(end - start + 1)
  {
    AndMask(number / Pow2(start), end - start + 1);
    And(number / Pow2(start), Pow2(end - start + 1) - 1)
  }

  // ----- one device decoder -----

  datatype DeviceDecoder = DeviceDecoder(base: nat, size: nat, ig: nat, iw: nat, dpaSkip: nat)
  {
    predicate Valid() {
      ValidIg(ig) && ValidIw(iw)
    }

    predicate Contains(hpa: nat) {
      base <= hpa < base + size
    }

    function DpaHigh(offset: int): nat
      requires Valid()
    {
      if iw < 8 then GetBitRange(offset, ig + 8 + iw, 51) else GetBitRange(offset, ig + iw, 51) / 3
    }

    function GetDpa(hpa: nat): int
      requires Valid()
    {
      var low := GetBitRange(hpa - base, 0, ig + 7);
      Or(low, DpaHigh(hpa - base) * Pow2(ig + 8))
    }

    function GetHpa(dpa: nat): nat {
      dpa + base
    }
  }

  /** The decode as the specification words it: the offset within the granule, and the granule's
      number among those of this device. */
  function Decoded(offset: nat, g: nat, w: nat): nat
    requires g > 0 && w > 0 && g * w > 0
  {
    offset % g + g * (offset / (g * w))
  }

  /** The device address for any offset: the high part is cut to 52 bits. */
  lemma DpaIsSliced(d: DeviceDecoder, hpa: nat)
    requires d.Valid() && d.base <= hpa
    ensures var x := (hpa - d.base) / Pow2(HighStart(d.iw, d.ig));
            d.GetDpa(hpa) == (hpa - d.base) % Granularity(d.ig)
                             + Granularity(d.ig) * (x % Pow2(OFFSET_BITS - HighStart(d.iw, d.ig)) / Third(d.iw))
  {
    hide Pow2, And, Or, GetBitRange, DeviceDecoder.DpaHigh;
    var offset := hpa - d.base;
    HighIsSliced(d, offset);
    DivByOne(offset);
    OrHighLow(GetBitRange(offset, 0, d.ig + 7), d.DpaHigh(offset), d.ig + 8);
  }

  lemma HighIsSliced(d: DeviceDecoder, offset: nat)
    requires d.Valid()
    ensures d.DpaHigh(offset)
         == offset / Pow2(HighStart(d.iw, d.ig)) % Pow2(OFFSET_BITS - HighStart(d.iw, d.ig)) / Third(d.iw)
  {
    hide Pow2, And, GetBitRange;
  }

  lemma DivByOne(x: int)
    ensures x / Pow2(0) == x
  {}

  /** Where the granule number starts in the offset, before the division by three. */
  function HighStart(iw: nat, ig: nat): (s: nat)
    requires ValidIg(ig) && ValidIw(iw)
    ensures s < OFFSET_BITS
  {
    if iw < 8 then ig + 8 + iw else ig + iw
  }

  function Third(iw: nat): (t: nat)
    ensures t > 0
  {
    if iw < 8 then 1 else 3
  }

  lemma SpanIsPower(iw: nat, ig: nat)
    requires ValidIg(ig) && ValidIw(iw)
    ensures Granularity(ig) * Ways(iw) == Pow2(HighStart(iw, ig)) * Third(iw)
    ensures Granularity(ig) * Ways(iw) > 0
  {
    hide Pow2;
    if iw < 8 {
      Pow2Add(ig + 8, iw);
    } else {
      Pow2Add(ig + 8, iw - 8);
      assert Pow2(ig + 8) * (3 * Pow2(iw - 8)) == Pow2(ig + 8) * Pow2(iw - 8) * 3;
    }
  }

  /** Cutting `x` below `m` before a division by at most three changes the quotient exactly when
      something was cut. */
  lemma CutQuotient(x: nat, m: nat, t: nat)
    requires 0 < t <= 3 && m >= 3
    ensures x % m / t == x / t <==> x < m
  {
    var q, r := x / m, x % m;
    assert x == q * m + r;
    if x >= m {
      if q < 1 {
        MulLe(q, 0, m);
      }
      MulGe(q, m);
      LargerQuotient(r, x, t);
    } else {
      DivModUnique(x, m, 0, x);
    }
  }

  lemma LargerQuotient(r: nat, x: nat, t: nat)
    requires 0 < t <= 3 && x >= r + 3
    ensures r / t < x / t
  {
    if t == 1 {
      assert r / 1 == r && x / 1 == x;
    } else if t == 2 {
      assert r / 2 < x / 2;
    } else {
      assert r / 3 < x / 3;
    }
  }

  lemma {:induction false} HighBitsFit(offset: nat, s: nat)
    requires s <= OFFSET_BITS
    ensures offset / Pow2(s) < Pow2(OFFSET_BITS - s) <==> offset < Pow2(OFFSET_BITS)
  {
    hide Pow2;
    var p, m := Pow2(s), Pow2(OFFSET_BITS - s);
    Pow2Add(s, OFFSET_BITS - s);
    var q, r := offset / p, offset % p;
    assert offset == q * p + r;
    if q < m {
      MulLe(q, m - 1, p);
      assert (m - 1) * p == p * m - p;
    } else {
      MulLe(m, q, p);
    }
  }

  /** The bit slicing is the specified decode for all eight way encodings, exactly for the offsets
      below 2^52. */
  lemma DeviceDecodeExact(d: DeviceDecoder, hpa: nat)
    requires d.Valid() && d.base <= hpa
    ensures Granularity(d.ig) * Ways(d.iw) > 0
    ensures d.GetDpa(hpa) == Decoded(hpa - d.base, Granularity(d.ig), Ways(d.iw)) <==> hpa - d.base < Pow2(OFFSET_BITS)
  {
    hide Pow2, Granularity, Ways, HighStart, Third, DeviceDecoder.GetDpa, Decoded;
    DpaIsSliced(d, hpa);
    SpanIsPower(d.iw, d.ig);
    SmallestCut(d.iw, d.ig);
    var s := HighStart(d.iw, d.ig);
    CutDecoded(hpa - d.base, Granularity(d.ig), Ways(d.iw), Pow2(s), Pow2(OFFSET_BITS - s), Third(d.iw));
    HighBitsFit(hpa - d.base, s);
  }

  lemma CutDecoded(offset: nat, g: nat, w: nat, p: nat, m: nat, t: nat)
    requires g > 0 && w > 0 && p > 0 && m >= 3 && 0 < t <= 3 && g * w == p * t
    ensures g * w > 0
    ensures offset % g + g * (offset / p % m / t) == Decoded(offset, g, w) <==> offset / p < m
  {
    DivDiv(offset, p, t);
    CutQuotient(offset / p, m, t);
    MulCancel(g, offset / p % m / t, offset / p / t);
  }

  lemma SmallestCut(iw: nat, ig: nat)
    requires ValidIg(ig) && ValidIw(iw)
    ensures Pow2(OFFSET_BITS - HighStart(iw, ig)) >= 3 && Third(iw) <= 3
  {
    Pow2Mono(2, OFFSET_BITS - HighStart(iw, ig));
    assert Pow2(2) == 4;
  }

  lemma MulCancel(g: nat, a: nat, b: nat)
    requires g > 0
    ensures g * a == g * b <==> a == b
  {
    if a < b {
      MulLe(a, b - 1, g);
      assert (b - 1) * g == g * b - g;
    } else if b < a {
      MulLe(b, a - 1, g);
      assert (a - 1) * g == g * a - g;
    }
  }

  // ----- the interleaved choice of a target -----

  datatype TargetDecoder = TargetDecoder(base: nat, size: nat, ig: nat, iw: nat, targets: seq<nat>)
  {
    predicate Contains(hpa: nat) {
      base <= hpa < base + size
    }

    function TargetIndex(hpa: nat): nat {
      hpa / Granularity(ig) % Pow2(iw)
    }

    function GetTarget(hpa: nat): Outcome<nat> {
      if TargetIndex(hpa) < |targets| then Returned(targets[TargetIndex(hpa)]) else Raised(IndexError)
    }

    /** A power of two of distinct targets, on a range that starts and ends on a whole stripe. */
    predicate Interleaves() {
      && ValidIg(ig) && iw <= 4 && |targets| == Pow2(iw)
      && (forall i, j :: 0 <= i < j < |targets| ==> targets[i] != targets[j])
      && base % Stripe() == 0 && size % Stripe() == 0
      && size <= Pow2(OFFSET_BITS)
    }

    /** One granule of every target. */
    function Stripe(): (s: nat)
      ensures s > 0
    {
      MulGe(Granularity(ig), Pow2(iw));
      Granularity(ig) * Pow2(iw)
    }

    /** The decoder of the devices behind the targets. */
    function Device(): DeviceDecoder {
      DeviceDecoder(base, size, ig, iw, 0)
    }
  }

  /** The host address of byte `dpa` of the `i`-th device. */
  function HostAddress(base: nat, g: nat, w: nat, i: nat, dpa: nat): nat
    requires g > 0
  {
    base + (dpa / g * w + i) * g + dpa % g
  }

  /** The number of a stripe, of the granule within it and of the byte within that. */
  lemma StripeParts(base: nat, offset: nat, g: nat, w: nat)
    requires g > 0 && w > 0 && g * w > 0 && base % (g * w) == 0
    ensures (base + offset) / g % w == offset / g % w
    ensures offset == (offset / (g * w) * w + offset / g % w) * g + offset % g
  {
    var b, x := base / (g * w), offset / g;
    DivDiv(offset, g, w);
    assert base == b * (g * w);
    assert b * (g * w) == b * w * g;
    assert offset == x * g + offset % g;
    assert (b * w + x) * g == b * w * g + x * g;
    DivModUnique(base + offset, g, b * w + x, offset % g);
    assert x == x / w * w + x % w;
    assert b * w + x / w * w == (b + x / w) * w;
    DivModUnique(b * w + x, w, b + x / w, x % w);
  }

  lemma DecodedParts(offset: nat, g: nat, w: nat)
    requires g > 0 && w > 0 && g * w > 0
    ensures Decoded(offset, g, w) / g == offset / (g * w) && Decoded(offset, g, w) % g == offset % g
  {
    DivModUnique(Decoded(offset, g, w), g, offset / (g * w), offset % g);
  }

  lemma DecodedBound(offset: nat, size: nat, g: nat, w: nat)
    requires g > 0 && w > 0 && g * w > 0 && size % (g * w) == 0
    ensures size / w == size / (g * w) * g
    ensures offset < size <==> offset / (g * w) < size / (g * w)
    ensures Decoded(offset, g, w) < size / w <==> offset < size
  {
    var s, n, q := g * w, size / (g * w), offset / (g * w);
    assert size == n * s && n * s == n * g * w;
    DivModUnique(size, w, n * g, 0);
    assert offset == q * s + offset % s;
    if q < n {
      MulLe(q, n - 1, s);
      assert (n - 1) * s == n * s - s;
      MulLe(q, n - 1, g);
      assert (n - 1) * g == n * g - g;
    } else {
      MulLe(n, q, s);
      MulLe(n, q, g);
    }
  }

  /** From a host address of the range to a target and a device address, and back. */
  lemma HostAddressRecovered(d: TargetDecoder, hpa: nat)
    requires d.Interleaves() && d.Contains(hpa)
    ensures d.TargetIndex(hpa) < |d.targets| && d.GetTarget(hpa) == Returned(d.targets[d.TargetIndex(hpa)])
    ensures 0 <= d.Device().GetDpa(hpa) < d.size / Pow2(d.iw)
    ensures HostAddress(d.base, Granularity(d.ig), Pow2(d.iw), d.TargetIndex(hpa), d.Device().GetDpa(hpa)) == hpa
  {
    hide Pow2, DeviceDecoder.GetDpa;
    var offset, g, w := hpa - d.base, Granularity(d.ig), Pow2(d.iw);
    DeviceDecodeExact(d.Device(), hpa);
    StripeParts(d.base, offset, g, w);
    DecodedParts(offset, g, w);
    DecodedBound(offset, d.size, g, w);
  }

  lemma StripeUnique(g: nat, w: nat, i: nat, dpa: nat)
    requires g > 0 && w > 0 && g * w > 0 && i < w
    ensures var offset := (dpa / g * w + i) * g + dpa % g;
            offset >= 0 && offset / g % w == i && Decoded(offset, g, w) == dpa
  {
    var offset := (dpa / g * w + i) * g + dpa % g;
    MulLe(0, dpa / g, w);
    MulLe(0, dpa / g * w + i, g);
    DivModUnique(offset, g, dpa / g * w + i, dpa % g);
    DivModUnique(dpa / g * w + i, w, dpa / g, i);
    DivDiv(offset, g, w);
  }

  /** From a target and a device address to the host address, and back. */
  lemma TargetRecovered(d: TargetDecoder, i: nat, dpa: nat)
    requires d.Interleaves() && i < |d.targets| && dpa < d.size / Pow2(d.iw)
    ensures var hpa := HostAddress(d.base, Granularity(d.ig), Pow2(d.iw), i, dpa);
            d.Contains(hpa) && d.TargetIndex(hpa) == i && d.Device().GetDpa(hpa) == dpa
  {
    hide Pow2, DeviceDecoder.GetDpa, Granularity, Decoded;
    var g, w := Granularity(d.ig), Pow2(d.iw);
    var hpa := HostAddress(d.base, g, w, i, dpa);
    var offset := (dpa / g * w + i) * g + dpa % g;
    SpanIsPower(d.iw, d.ig);
    StripeUnique(g, w, i, dpa);
    StripeParts(d.base, offset, g, w);
    DecodedBound(offset, d.size, g, w);
    DeviceDecodeExact(d.Device(), hpa);
  }

  /** Interleaving is a bijection between the host range and targets x [0, size / ways). */
  lemma InterleaveBijection(d: TargetDecoder)
    requires d.Interleaves()
    ensures forall x, y ::
              (d.Contains(x) && d.Contains(y) && d.GetTarget(x) == d.GetTarget(y) && d.Device().GetDpa(x) == d.Device().GetDpa(y)) ==> x == y
    ensures forall port, dpa: nat {:trigger Reached(d, port, dpa)} :: port in d.targets && dpa < d.size / Pow2(d.iw) ==> Reached(d, port, dpa)
    ensures forall x :: d.Contains(x) ==> d.GetTarget(x).Returned? && d.GetTarget(x).value in d.targets
                                          && 0 <= d.Device().GetDpa(x) < d.size / Pow2(d.iw)
  {
    hide Pow2, DeviceDecoder.GetDpa, Granularity, HostAddress;
    forall x | d.Contains(x)
      ensures d.GetTarget(x).Returned? && d.GetTarget(x).value in d.targets && 0 <= d.Device().GetDpa(x) < d.size / Pow2(d.iw)
    {
      HostAddressRecovered(d, x);
    }
    forall x, y | d.Contains(x) && d.Contains(y) && d.GetTarget(x) == d.GetTarget(y) && d.Device().GetDpa(x) == d.Device().GetDpa(y)
      ensures x == y
    {
      HostAddressRecovered(d, x);
      HostAddressRecovered(d, y);
    }
    forall port, dpa: nat | port in d.targets && dpa < d.size / Pow2(d.iw)
      ensures Reached(d, port, dpa)
    {
      var i :| 0 <= i < |d.targets| && d.targets[i] == port;
      TargetRecovered(d, i, dpa);
    }
  }

  /** Some host address of the range goes to this byte of this target. */
  ghost predicate Reached(d: TargetDecoder, port: nat, dpa: nat)
    requires ValidIg(d.ig) && ValidIw(d.iw)
  {
    exists hpa :: d.Contains(hpa) && d.GetTarget(hpa) == Returned(port) && d.Device().GetDpa(hpa) == dpa
  }

  // ----- tables of decoders -----

  /** `get_decoder_count` */
  function DecoderCount(code: nat): Outcome<nat> {
    if code == 0 then Returned(1)
    else if code <= 8 then Returned(code * 2)
    else if code <= 12 then Returned((code - 9) * 4 + 20)
    else Raised(Unsupported)
  }

  /** The counts of section 8.2.4.19.1 of CXL 3.0: 1, even numbers to 16, and multiples of 4 from 20 to 32. */
  lemma CountsExact(n: nat)
    ensures (exists code :: DecoderCount(code) == Returned(n)) <==> n == 1 || (n % 2 == 0 && 2 <= n <= 16) || (n % 4 == 0 && 20 <= n <= 32)
  {
    if n == 1 {
      assert DecoderCount(0) == Returned(n);
    } else if n % 2 == 0 && 2 <= n <= 16 {
      assert DecoderCount(n / 2) == Returned(n);
    } else if n % 4 == 0 && 20 <= n <= 32 {
      assert DecoderCount((n - 20) / 4 + 9) == Returned(n);
    }
  }

  /** The thirteen register values that have a meaning stand for more and more decoders. */
  lemma CountsRise(code: nat, code': nat)
    requires code < code'
    ensures DecoderCount(code').Returned? <==> code' <= 12
    ensures code' <= 12 ==> DecoderCount(code).Returned? && DecoderCount(code).value < DecoderCount(code').value
  {}

  /** The first decoder that contains the address decodes it. */
  function LookupDpa(decoders: seq<DeviceDecoder>, hpa: nat): Option<int>
    requires forall i :: 0 <= i < |decoders| ==> decoders[i].Valid()
  {
    if decoders == [] then None
    else if decoders[0].Contains(hpa) then Some(decoders[0].GetDpa(hpa))
    else LookupDpa(decoders[1..], hpa)
  }

  lemma {:induction false} LookupFirst(decoders: seq<DeviceDecoder>, hpa: nat, k: nat)
    requires forall i :: 0 <= i < |decoders| ==> decoders[i].Valid()
    requires k <= |decoders| && forall i :: 0 <= i < k ==> !decoders[i].Contains(hpa)
    requires k < |decoders| ==> decoders[k].Contains(hpa)
    ensures LookupDpa(decoders, hpa) == if k < |decoders| then Some(decoders[k].GetDpa(hpa)) else None
    decreases k
  {
    hide DeviceDecoder.GetDpa;
    if k > 0 {
      LookupFirst(decoders[1..], hpa, k - 1);
    }
  }

  /** Always decoder 0, and nothing when it is interleaved. */
  function LookupHpa(decoders: seq<DeviceDecoder>, dpa: nat): Option<nat>
    requires decoders != []
  {
    if decoders[0].iw != 0 then None else Some(decoders[0].GetHpa(dpa))
  }

  datatype DecoderInfo = DecoderInfo(base: nat, size: nat, ig: nat, iw: nat, dpaSkip: nat, targets: seq<nat>)

  /** What a commit leaves: the fields are set in order, so a bad interleave code raises after the
      range has been changed. */
  function CommittedDevice(d: DeviceDecoder, info: DecoderInfo): DeviceDecoder {
    var ranged := d.(base := info.base, size := info.size, dpaSkip := info.dpaSkip);
    if !ValidIg(info.ig) then ranged
    else if !ValidIw(info.iw) then ranged.(ig := info.ig)
    else ranged.(ig := info.ig, iw := info.iw)
  }

  lemma {:induction false} LookupSplit(x: seq<DeviceDecoder>, y: seq<DeviceDecoder>, hpa: nat)
    requires forall i :: 0 <= i < |x| ==> x[i].Valid()
    requires forall i :: 0 <= i < |y| ==> y[i].Valid()
    ensures forall i :: 0 <= i < |x + y| ==> (x + y)[i].Valid()
    ensures LookupDpa(x + y, hpa) == if LookupDpa(x, hpa).Some? then LookupDpa(x, hpa) else LookupDpa(y, hpa)
    decreases |x|
  {
    hide DeviceDecoder.GetDpa;
    if x == [] {
      assert x + y == y;
    } else {
      LookupSplit(x[1..], y, hpa);
      assert (x + y)[1..] == x[1..] + y;
    }
  }

  /** After a commit, an address that no earlier decoder contains is decoded with the range and the codes
      that were committed, if it is in that range, and by the later decoders if it is not. A bad code leaves
      the old one, behind the new range. */
  lemma DeviceCommitDecodes(decoders: seq<DeviceDecoder>, index: nat, info: DecoderInfo, hpa: nat)
    requires index < |decoders| && forall i :: 0 <= i < |decoders| ==> decoders[i].Valid()
    ensures var after := decoders[index := CommittedDevice(decoders[index], info)];
            var ig := if ValidIg(info.ig) then info.ig else decoders[index].ig;
            var iw := if ValidIg(info.ig) && ValidIw(info.iw) then info.iw else decoders[index].iw;
            && (forall i :: 0 <= i < |after| ==> after[i].Valid())
            && after[index].dpaSkip == info.dpaSkip
            && Granularity(ig) * Ways(iw) > 0
            && (LookupDpa(decoders[..index], hpa).Some? ==> LookupDpa(after, hpa) == LookupDpa(decoders, hpa))
            && (LookupDpa(decoders[..index], hpa) == None && info.base <= hpa < info.base + info.size && hpa - info.base < Pow2(OFFSET_BITS) ==>
                  LookupDpa(after, hpa) == Some(Decoded(hpa - info.base, Granularity(ig), Ways(iw))))
            && (LookupDpa(decoders[..index], hpa) == None && !(info.base <= hpa < info.base + info.size) ==>
                  LookupDpa(after, hpa) == LookupDpa(decoders[index + 1..], hpa))
  {
    hide DeviceDecoder.GetDpa, Granularity, Ways, Decoded, Pow2;
    var d := CommittedDevice(decoders[index], info);
    var before, behind := decoders[..index], decoders[index + 1..];
    assert decoders[index := d] == before + ([d] + behind);
    assert decoders == before + ([decoders[index]] + behind);
    LookupSplit(before, [d] + behind, hpa);
    LookupSplit(before, [decoders[index]] + behind, hpa);
    LookupSplit([d], behind, hpa);
    assert [d][1..] == [];
    SpanIsPower(d.iw, d.ig);
    if d.Contains(hpa) {
      DeviceDecodeExact(d, hpa);
    }
  }

  class DeviceHdmDecoderManager {
    var decoders: seq<DeviceDecoder>

    predicate Valid()
      reads this
    {
      decoders != [] && forall i :: 0 <= i < |decoders| ==> decoders[i].Valid()
    }

    constructor (countCode: nat)
      requires DecoderCount(countCode).Returned?
      ensures Valid() && |decoders| == DecoderCount(countCode).value
      ensures forall hpa :: LookupDpa(decoders, hpa) == None
    {
      decoders := seq(DecoderCount(countCode).value, _ => DeviceDecoder(0, 0, 0, 0, 0));
      new;
      forall hpa ensures LookupDpa(decoders, hpa) == None {
        LookupFirst(decoders, hpa, |decoders|);
      }
    }

    method GetDecoderFromHpa(hpa: nat) returns (found: Option<nat>)
      ensures match found
              case Some(k) => k < |decoders| && decoders[k].Contains(hpa) && forall i :: 0 <= i < k ==> !decoders[i].Contains(hpa)
              case None => forall i :: 0 <= i < |decoders| ==> !decoders[i].Contains(hpa)
    {
      for k := 0 to |decoders|
        invariant forall i :: 0 <= i < k ==> !decoders[i].Contains(hpa)
      {
        if decoders[k].Contains(hpa) { return Some(k); }
      }
      return None;
    }

    method GetDpa(hpa: nat) returns (dpa: Option<int>)
      requires Valid()
      ensures dpa == LookupDpa(decoders, hpa)
    {
      var found := GetDecoderFromHpa(hpa);
      LookupFirst(decoders, hpa, if found.Some? then found.value else |decoders|);
      dpa := if found.Some? then Some(decoders[found.value].GetDpa(hpa)) else None;
    }

    /** Always the first decoder, and only without interleaving. */
    method GetHpa(dpa: nat) returns (hpa: Option<nat>)
      requires Valid()
      ensures hpa == LookupHpa(decoders, dpa)
    {
      if decoders[0].iw != 0 { return None; }
      return Some(decoders[0].GetHpa(dpa));
    }

    method Commit(index: nat, info: DecoderInfo) returns (r: Outcome<bool>)
      requires Valid()
      modifies this
      ensures Valid()
      ensures decoders == if index < |old(decoders)| then old(decoders)[index := CommittedDevice(old(decoders)[index], info)]
                          else old(decoders)
      ensures r == if index >= |old(decoders)| then Raised(IndexError)
                   else if ValidIg(info.ig) && ValidIw(info.iw) then Returned(true) else Raised(ValueError)
    {
      if index >= |decoders| { return Raised(IndexError); }
      var d := decoders[index].(dpaSkip := info.dpaSkip, base := info.base, size := info.size);
      decoders := decoders[index := d];
      if !ValidIg(info.ig) { return Raised(ValueError); }
      d := d.(ig := info.ig);
      decoders := decoders[index := d];
      if !ValidIw(info.iw) { return Raised(ValueError); }
      d := d.(iw := info.iw);
      decoders := decoders[index := d];
      return Returned(true);
    }
  }

  /** Without interleaving the device address is the offset. */
  lemma OneWayIsOffset(d: DeviceDecoder, hpa: nat)
    requires d.Valid() && d.iw == 0 && d.Contains(hpa) && d.size <= Pow2(OFFSET_BITS)
    ensures d.GetDpa(hpa) == hpa - d.base
  {
    OneWay();
    hide Pow2, DeviceDecoder.GetDpa, Granularity, Ways, Decoded;
    DeviceDecodeExact(d, hpa);
    DecodedOneWay(hpa - d.base, Granularity(d.ig));
  }

  lemma OneWay()
    ensures Ways(0) == 1
  {}

  lemma DecodedOneWay(offset: nat, g: nat)
    requires g > 0
    ensures g * 1 > 0 && Decoded(offset, g, 1) == offset
  {
    var q := offset / g;
    assert offset == q * g + offset % g && q * g == g * q;
  }

  /** The bytes of the other devices' granules in front of an offset. */
  function Skipped(offset: nat, g: nat, w: nat): int
    requires g > 0 && w > 0 && g * w > 0
  {
    (offset / g - offset / (g * w)) * g
  }

  lemma DecodedAndSkipped(offset: nat, g: nat, w: nat)
    requires g > 0 && w > 0 && g * w > 0
    ensures Decoded(offset, g, w) + Skipped(offset, g, w) == offset
  {
    var a, b := offset / g, offset / (g * w);
    assert offset == a * g + offset % g;
    assert (a - b) * g == a * g - b * g && b * g == g * b;
  }

  /** A device address goes back to the host address it came from exactly when decoder 0 is not
      interleaved and starts as far above the decoder that was used as that one skips bytes of other
      devices: the way back only knows decoder 0. */
  lemma HostAddressRoundTrip(decoders: seq<DeviceDecoder>, k: nat, hpa: nat)
    requires forall i :: 0 <= i < |decoders| ==> decoders[i].Valid()
    requires k < |decoders| && decoders[k].Contains(hpa) && forall i :: 0 <= i < k ==> !decoders[i].Contains(hpa)
    requires hpa - decoders[k].base < Pow2(OFFSET_BITS)
    ensures var d, offset := decoders[k], hpa - decoders[k].base;
            && Granularity(d.ig) * Ways(d.iw) > 0
            && match LookupDpa(decoders, hpa)
               case Some(dpa) =>
                 && dpa >= 0
                 && (LookupHpa(decoders, dpa) == Some(hpa) <==>
                       decoders[0].iw == 0 && decoders[0].base == d.base + Skipped(offset, Granularity(d.ig), Ways(d.iw)))
               case None => false
  {
    hide DeviceDecoder.GetDpa, Pow2, Granularity, Ways, Decoded, Skipped;
    var d, offset := decoders[k], hpa - decoders[k].base;
    LookupFirst(decoders, hpa, k);
    DeviceDecodeExact(d, hpa);
    DecodedAndSkipped(offset, Granularity(d.ig), Ways(d.iw));
    DecodedAtLeastZero(offset, Granularity(d.ig), Ways(d.iw));
  }

  lemma DecodedAtLeastZero(offset: nat, g: nat, w: nat)
    requires g > 0 && w > 0 && g * w > 0
    ensures Decoded(offset, g, w) >= 0
  {}

  /** Of decoders that are not interleaved, those that start where decoder 0 does are undone. */
  lemma OneWayRoundTrip(decoders: seq<DeviceDecoder>, k: nat, hpa: nat)
    requires forall i :: 0 <= i < |decoders| ==> decoders[i].Valid()
    requires k < |decoders| && decoders[k].Contains(hpa) && forall i :: 0 <= i < k ==> !decoders[i].Contains(hpa)
    requires hpa - decoders[k].base < Pow2(OFFSET_BITS) && decoders[k].iw == 0
    ensures match LookupDpa(decoders, hpa)
            case Some(dpa) =>
              dpa >= 0 && (LookupHpa(decoders, dpa) == Some(hpa) <==> decoders[0].iw == 0 && decoders[0].base == decoders[k].base)
            case None => false
  {
    OneWay();
    hide DeviceDecoder.GetDpa, Pow2, Granularity, Ways, Skipped;
    HostAddressRoundTrip(decoders, k, hpa);
    NothingSkipped(hpa - decoders[k].base, Granularity(decoders[k].ig));
  }

  lemma NothingSkipped(offset: nat, g: nat)
    requires g > 0
    ensures g * 1 > 0 && Skipped(offset, g, 1) == 0
  {
    assert g * 1 == g && (offset / g - offset / g) * g == 0;
  }

  /** Two decoders that start at the same address, the first of them interleaved: an address that only
      the second contains is decoded, and nothing leads back. */
  lemma InterleavedFirstDecoderLosesAddress(first: DeviceDecoder, second: DeviceDecoder, hpa: nat)
    requires first.Valid() && second.Valid() && first.iw != 0 && second.iw == 0 && first.base == second.base
    requires !first.Contains(hpa) && second.Contains(hpa) && second.size <= Pow2(OFFSET_BITS)
    ensures LookupDpa([first, second], hpa) == Some(hpa - second.base) && LookupHpa([first, second], hpa - second.base) == None
  {
    hide DeviceDecoder.GetDpa, Pow2;
    OneWayIsOffset(second, hpa);
    LookupFirst([first, second], hpa, 1);
  }

  lemma AddressLostAtConcreteInput()
    ensures var decoders := [DeviceDecoder(0, 0x1000, 0, 1, 0), DeviceDecoder(0, 0x2000, 0, 0, 0)];
            LookupDpa(decoders, 0x1800) == Some(0x1800) && LookupHpa(decoders, 0x1800) == None
  {
    SmallOffset();
    hide LookupDpa, LookupHpa, Pow2;
    InterleavedFirstDecoderLosesAddress(DeviceDecoder(0, 0x1000, 0, 1, 0), DeviceDecoder(0, 0x2000, 0, 0, 0), 0x1800);
  }

  lemma SmallOffset()
    ensures 0x2000 <= Pow2(OFFSET_BITS)
  {
    Thirteen();
    hide Pow2;
    Pow2Mono(13, OFFSET_BITS);
  }

  lemma Thirteen()
    ensures Pow2(13) == 0x2000
  {}

  function CommittedTarget(d: TargetDecoder, info: DecoderInfo): TargetDecoder {
    var ranged := d.(base := info.base, size := info.size);
    if !ValidIg(info.ig) then ranged
    else if !ValidIw(info.iw) then ranged.(ig := info.ig)
    else TargetDecoder(info.base, info.size, info.ig, info.iw, info.targets)
  }

  /** The first decoder that contains the address chooses the target. */
  function LookupTarget(decoders: seq<TargetDecoder>, hpa: nat): Outcome<Option<nat>> {
    if decoders == [] then Returned(None)
    else if decoders[0].Contains(hpa) then
      match decoders[0].GetTarget(hpa)
      case Returned(t) => Returned(Some(t))
      case Raised(e) => Raised(e)
    else LookupTarget(decoders[1..], hpa)
  }

  lemma {:induction false} LookupFirstTarget(decoders: seq<TargetDecoder>, hpa: nat, k: nat)
    requires k <= |decoders| && forall i :: 0 <= i < k ==> !decoders[i].Contains(hpa)
    requires k < |decoders| ==> decoders[k].Contains(hpa)
    ensures LookupTarget(decoders, hpa) ==
              if k == |decoders| then Returned(None)
              else match decoders[k].GetTarget(hpa) case Returned(t) => Returned(Some(t)) case Raised(e) => Raised(e)
    decreases k
  {
    hide TargetDecoder.GetTarget;
    if k > 0 {
      LookupFirstTarget(decoders[1..], hpa, k - 1);
    }
  }

  lemma {:induction false} TargetSplit(x: seq<TargetDecoder>, y: seq<TargetDecoder>, hpa: nat)
    ensures LookupTarget(x + y, hpa) == if LookupTarget(x, hpa) != Returned(None) then LookupTarget(x, hpa) else LookupTarget(y, hpa)
    decreases |x|
  {
    hide TargetDecoder.GetTarget;
    if x == [] {
      assert x + y == y;
    } else {
      TargetSplit(x[1..], y, hpa);
      assert (x + y)[1..] == x[1..] + y;
    }
  }

  /** The target that the granule of an address selects in a list. */
  function Selected(targets: seq<nat>, ig: nat, iw: nat, hpa: nat): Outcome<Option<nat>> {
    var i := hpa / Granularity(ig) % Pow2(iw);
    if i < |targets| then Returned(Some(targets[i])) else Raised(IndexError)
  }

  /** The same for targets. With a bad code the list stays the old one, too. */
  lemma TargetCommitDecodes(decoders: seq<TargetDecoder>, index: nat, info: DecoderInfo, hpa: nat)
    requires index < |decoders|
    ensures var after, old' := decoders[index := CommittedTarget(decoders[index], info)], decoders[index];
            var good := ValidIg(info.ig) && ValidIw(info.iw);
            && (LookupTarget(decoders[..index], hpa) != Returned(None) ==> LookupTarget(after, hpa) == LookupTarget(decoders, hpa))
            && (LookupTarget(decoders[..index], hpa) == Returned(None) && info.base <= hpa < info.base + info.size ==>
                  LookupTarget(after, hpa)
                    == if good then Selected(info.targets, info.ig, info.iw, hpa)
                       else Selected(old'.targets, if ValidIg(info.ig) then info.ig else old'.ig, old'.iw, hpa))
            && (LookupTarget(decoders[..index], hpa) == Returned(None) && !(info.base <= hpa < info.base + info.size) ==>
                  LookupTarget(after, hpa) == LookupTarget(decoders[index + 1..], hpa))
  {
    hide Granularity, Pow2;
    var d := CommittedTarget(decoders[index], info);
    var before, behind := decoders[..index], decoders[index + 1..];
    assert decoders[index := d] == before + ([d] + behind);
    assert decoders == before + ([decoders[index]] + behind);
    TargetSplit(before, [d] + behind, hpa);
    TargetSplit(before, [decoders[index]] + behind, hpa);
    TargetSplit([d], behind, hpa);
    assert [d][1..] == [];
  }

  /** The decoders of a switch (targets are ports) and of a PBR edge port (targets are DPIDs). */
  class TargetDecoderManager {
    var decoders: seq<TargetDecoder>

    constructor (countCode: nat)
      requires DecoderCount(countCode).Returned?
      ensures |decoders| == DecoderCount(countCode).value
      ensures forall i :: 0 <= i < |decoders| ==> decoders[i].size == 0
    {
      decoders := seq(DecoderCount(countCode).value, _ => TargetDecoder(0, 0, 0, 0, []));
    }

    method GetTarget(hpa: nat) returns (r: Outcome<Option<nat>>)
      ensures r == LookupTarget(decoders, hpa)
    {
      for k := 0 to |decoders|
        invariant forall i :: 0 <= i < k ==> !decoders[i].Contains(hpa)
      {
        if decoders[k].Contains(hpa) {
          LookupFirstTarget(decoders, hpa, k);
          var t := decoders[k].GetTarget(hpa);
          return match t case Returned(target) => Returned(Some(target)) case Raised(e) => Raised(e);
        }
      }
      LookupFirstTarget(decoders, hpa, |decoders|);
      return Returned(None);
    }

    /** The bound check is off by one: the index just past the table raises instead of being refused. */
    method Commit(index: nat, info: DecoderInfo) returns (r: Outcome<bool>)
      modifies this
      ensures decoders == if index < |old(decoders)| then old(decoders)[index := CommittedTarget(old(decoders)[index], info)]
                          else old(decoders)
      ensures r == if index > |old(decoders)| then Returned(false)
                   else if index == |old(decoders)| then Raised(IndexError)
                   else if ValidIg(info.ig) && ValidIw(info.iw) then Returned(true) else Raised(ValueError)
    {
      if index > |decoders| { return Returned(false); }
      if index == |decoders| { return Raised(IndexError); }
      var d := decoders[index].(base := info.base, size := info.size);
      decoders := decoders[index := d];
      if !ValidIg(info.ig) { return Raised(ValueError); }
      d := d.(ig := info.ig);
      decoders := decoders[index := d];
      if !ValidIw(info.iw) { return Raised(ValueError); }
      d := d.(iw := info.iw, targets := info.targets);
      decoders := decoders[index := d];
      return Returned(true);
    }
  }
}
