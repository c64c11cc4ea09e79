/** Register structures with write masks: which bits a write can reach, also when it is handed down
    into nested structures or runs past the end of one. */
module MaskedRegisters {
  import opened Bits
  import opened BitBuffer
  import opened LittleEndian
  import opened Outcomes
  import opened StructureLayout

  // ----- writing under a mask -----

  /** `(cur & ~m) | (v & m)` */
  function Merge(cur: nat, v: int, m: nat): int {
    Or(AndNot(cur, m), And(v, m))
  }

  lemma BitOfMerge(cur: nat, v: int, m: nat, i: nat)
    ensures Bit(Merge(cur, v, m), i) == if Bit(m, i) then Bit(v, i) else Bit(cur, i)
  {
    hide And, Bit;
    BitOfOr(AndNot(cur, m), And(v, m), i);
    BitOfAndNot(cur, m, i);
    BitOfAnd(v, m, i);
  }

  lemma {:induction false} OrBelow(x: nat, y: nat, w: nat)
    requires x < Pow2(w) && y < Pow2(w)
    ensures 0 <= Or(x, y) < Pow2(w)
    decreases w
  {
    if w > 0 {
      OrHalves(x, y);
      OrBelow(x / 2, y / 2, w - 1);
    } else {
      AndZero(0);
    }
  }

  lemma MergeBelow(cur: nat, v: int, m: nat, w: nat)
    requires cur < Pow2(w) && m < Pow2(w)
    ensures 0 <= Merge(cur, v, m) < Pow2(w)
  {
    OrBelow(AndNot(cur, m), And(v, m), w);
  }

  /** Two masks one after the other act as their conjunction. */
  lemma MergeMerge(cur: nat, v: int, m: nat, e: nat, w: nat)
    requires cur < Pow2(w) && m < Pow2(w) && e < Pow2(w)
    ensures And(m, e) < Pow2(w)
    ensures Merge(cur, Merge(cur, v, m), e) == Merge(cur, v, And(m, e))
  {
    hide Pow2, And, Bit, Merge;
    var x, y := Merge(cur, Merge(cur, v, m), e), Merge(cur, v, And(m, e));
    MergeBelow(cur, Merge(cur, v, m), e, w);
    MergeBelow(cur, v, And(m, e), w);
    forall i | 0 <= i < w ensures Bit(x, i) == Bit(y, i) {
      BitOfMerge(cur, Merge(cur, v, m), e, i);
      BitOfMerge(cur, v, m, i);
      BitOfMerge(cur, v, And(m, e), i);
      BitOfAnd(m, e, i);
    }
    Extensional(x, y, w);
  }

  /** A masked write of a slice changes the bits in the slice that the mask has, to those of the
      value, and no other bit. */
  lemma MaskedWriteBit(n: nat, o: nat, w: nat, v: int, e: nat, i: nat)
    requires e < Pow2(w)
    ensures Insert(n, o, w, Merge(Slice(n, o, w), v, e)) >= 0
    ensures Bit(Insert(n, o, w, Merge(Slice(n, o, w), v, e)), i) ==
              if o <= i < o + w && Bit(e, i - o) then Bit(v, i - o) else Bit(n, i)
  {
    hide Pow2, Insert, Slice, Merge, Bit;
    BitOfInsert(n, o, w, Merge(Slice(n, o, w), v, e), i);
    if o <= i < o + w {
      BitOfMerge(Slice(n, o, w), v, e, i - o);
      BitOfSlice(n, o, w, i - o);
    }
  }

  lemma BitOfSlice(n: int, o: nat, w: nat, i: nat)
    requires i < w
    ensures Bit(Slice(n, o, w), i) == Bit(n, o + i)
  {
    hide Pow2, Slice, Bit;
    BitIsSlice(Slice(n, o, w), i);
    SliceSlice(n, o, w, i, 1);
    BitIsSlice(n, o + i);
  }

  // ----- the masks of a layout -----

  function Start(f: Field): nat {
    if f.BitField? then f.start else 8 * f.start
  }

  function Width(f: Field): nat {
    if f.BitField? then Length(f) else 8 * Length(f)
  }

  /** The mask of one field: all ones, none when it is read-only, the field's own mask, or the masks
      of the structure inside. */
  function FieldMask(f: Field): int
    decreases f, 1
  {
    match f
    case BitField(_, _, _, readOnly) => if readOnly then 0 else -1
    case ByteField(_, _, _, _, Some(m)) => m
    case ByteField(_, _, _, readOnly, None) => if readOnly then 0 else -1
    case StructureField(_, _, _, _, _) => LevelMask(f)
  }

  /** The mask of the structure object in a structure field. */
  function LevelMask(f: Field): nat
    requires f.StructureField?
    decreases f, 0
  {
    match f.mask
    case Some(m) => m
    case None => MaskOf(f.layout, |f.layout|)
  }

  function MaskOf(fields: seq<Field>, k: nat): nat
    requires k <= |fields|
    decreases fields, k
  {
    if k == 0 then 0
    else
      var m := MaskOf(fields, k - 1);
      InsertParts(m, Start(fields[k - 1]), Width(fields[k - 1]), FieldMask(fields[k - 1]));
      Insert(m, Start(fields[k - 1]), Width(fields[k - 1]), FieldMask(fields[k - 1]))
  }

  /** No mask is given for any structure on the path, nor for the field at its end. */
  predicate Unmasked(fields: seq<Field>, path: seq<nat>)
    requires IsPath(fields, path)
    decreases |path|
  {
    var f := fields[path[0]];
    match f
    case BitField(_, _, _, _) => true
    case ByteField(_, _, _, _, mask) => mask == None
    case StructureField(_, _, layout, _, mask) => mask == None && Unmasked(layout, path[1..])
  }

  predicate ReadOnlyAt(fields: seq<Field>, path: seq<nat>)
    requires IsPath(fields, path)
    decreases |path|
  {
    match fields[path[0]]
    case BitField(_, _, _, readOnly) => readOnly
    case ByteField(_, _, _, readOnly, _) => readOnly
    case StructureField(_, _, layout, _, _) => ReadOnlyAt(layout, path[1..])
  }

  lemma {:induction false} MaskOfField(fields: seq<Field>, k: nat, i: nat)
    requires Sound(fields) && i < k <= |fields|
    ensures Slice(MaskOf(fields, k), Start(fields[i]), Width(fields[i])) == FieldMask(fields[i]) % Pow2(Width(fields[i]))
    decreases k
  {
    hide Insert, Slice, Pow2, FieldMask;
    var f := fields[k - 1];
    if i == k - 1 {
      SliceOfInsert(MaskOf(fields, k - 1), Start(f), Width(f), FieldMask(f));
    } else {
      MaskOfField(fields, k - 1, i);
      Ordered(fields, i, k - 1);
      LastFieldEnds(fields, i);
      InsertFrame(MaskOf(fields, k - 1), Start(f), Width(f), FieldMask(f), Start(fields[i]), Width(fields[i]));
    }
  }

  /** What the mask of a layout has on a leaf: the mask of the outermost structure on the path that was
      given one, or else the leaf's own mask, or else all ones or none. */
  function MaskAt(fields: seq<Field>, path: seq<nat>): nat
    requires Sound(fields) && IsPath(fields, path)
    decreases |path|
  {
    var f := fields[path[0]];
    match f
    case BitField(_, _, _, readOnly) => if readOnly then 0 else Pow2(Width(f)) - 1
    case ByteField(_, _, _, _, Some(m)) => m % Pow2(Width(f))
    case ByteField(_, _, _, readOnly, None) => if readOnly then 0 else Pow2(Width(f)) - 1
    case StructureField(_, _, layout, _, Some(m)) =>
      var leaf := LeafAt(layout, 0, path[1..]);
      Slice(m, leaf.start, leaf.width)
    case StructureField(_, _, layout, _, None) => MaskAt(layout, path[1..])
  }

  lemma {:induction false} LeafMask(fields: seq<Field>, path: seq<nat>)
    requires Sound(fields) && IsPath(fields, path)
    ensures var leaf := LeafAt(fields, 0, path);
            Slice(MaskOf(fields, |fields|), leaf.start, leaf.width) == MaskAt(fields, path)
    decreases |path|
  {
    hide Insert, Slice, Pow2;
    var i := path[0];
    var f := fields[i];
    MaskOfField(fields, |fields|, i);
    LastFieldEnds(fields, i);
    if f.StructureField? {
      LeafMask(f.layout, path[1..]);
      var leaf := LeafAt(f.layout, 0, path[1..]);
      LeafShift(f.layout, f.start, path[1..]);
      LeafInField(f.layout, 0, path[1..]);
      LeafInLayout(f.layout, path[1]);
      SliceSlice(MaskOf(fields, |fields|), Start(f), Width(f), leaf.start, leaf.width);
      ModSlice(FieldMask(f), leaf.start, leaf.width, Width(f));
    } else {
      AllOnes(Width(f));
    }
  }

  /** No structure on the path is given a mask of its own. */
  predicate StructuresUnmasked(fields: seq<Field>, path: seq<nat>)
    requires IsPath(fields, path)
    decreases |path|
  {
    match fields[path[0]]
    case StructureField(_, _, layout, _, mask) => mask == None && StructuresUnmasked(layout, path[1..])
    case _ => true
  }

  /** Without any mask given on the path: all ones on a leaf that can be written, none on a read-only one. */
  lemma {:induction false} UnmaskedLeaf(fields: seq<Field>, path: seq<nat>)
    requires Sound(fields) && IsPath(fields, path) && Unmasked(fields, path)
    ensures StructuresUnmasked(fields, path)
    ensures MaskAt(fields, path) == if ReadOnlyAt(fields, path) then 0 else Pow2(LeafAt(fields, 0, path).width) - 1
    decreases |path|
  {
    hide Pow2;
    var f := fields[path[0]];
    LastFieldEnds(fields, path[0]);
    if f.StructureField? {
      UnmaskedLeaf(f.layout, path[1..]);
      LeafShift(f.layout, f.start, path[1..]);
    }
  }

  lemma AllOnes(w: nat)
    ensures -1 % Pow2(w) == Pow2(w) - 1 && 0 % Pow2(w) == 0
  {
    DivModUnique(-1, Pow2(w), -1, Pow2(w) - 1);
    DivModUnique(0, Pow2(w), 0, 0);
  }

  lemma {:induction false} LeafShift(fields: seq<Field>, offset: nat, path: seq<nat>)
    requires Sound(fields) && IsPath(fields, path)
    ensures LeafAt(fields, offset, path) == LeafAt(fields, 0, path).(start := LeafAt(fields, 0, path).start + 8 * offset)
    decreases |path|
  {
    var f := fields[path[0]];
    if f.StructureField? {
      LeafShift(f.layout, offset + f.start, path[1..]);
      LeafShift(f.layout, f.start, path[1..]);
    }
  }

  // ----- the masks a write meets -----

  /** The first field, from position `i` on, that has the byte. */
  function FieldAt(fields: seq<Field>, o: nat, i: nat): (r: Option<nat>)
    requires i <= |fields|
    ensures r.Some? ==> i <= r.value < |fields| && fields[r.value].start <= o <= fields[r.value].end
    decreases |fields| - i
  {
    if i == |fields| then None
    else if fields[i].start <= o <= fields[i].end then Some(i)
    else FieldAt(fields, o, i + 1)
  }

  /** The structure field a write at byte `o` is handed to. */
  function StructureAt(fields: seq<Field>, o: nat): (r: Option<nat>)
    ensures r.Some? ==> r.value < |fields| && fields[r.value].StructureField? && fields[r.value].start <= o
  {
    if HasBits(fields) then None
    else
      match FieldAt(fields, o, 0)
      case None => None
      case Some(i) => if fields[i].StructureField? then Some(i) else None
  }

  /** The bits of the write that pass the masks of all structures it is handed through. */
  function Effective(fields: seq<Field>, mask: nat, start: nat, end: nat): (e: nat)
    requires start <= end
    ensures e < Pow2(8 * (end - start + 1))
    decreases fields
  {
    var m := Slice(mask, 8 * start, 8 * (end - start + 1));
    match StructureAt(fields, start)
    case None => m
    case Some(i) =>
      var f := fields[i];
      And(m, Effective(f.layout, LevelMask(f), start - f.start, end - f.start))
  }

  /** Nothing gets past the mask of the structure written, nor past that of the structure inside it
      that the write is handed to. */
  lemma EffectiveWithin(fields: seq<Field>, mask: nat, start: nat, end: nat, j: nat)
    requires start <= end && Bit(Effective(fields, mask, start, end), j)
    ensures Bit(mask, 8 * start + j)
    ensures match StructureAt(fields, start)
            case None => true
            case Some(i) => Bit(Effective(fields[i].layout, LevelMask(fields[i]), start - fields[i].start, end - fields[i].start), j)
  {
    hide Bit, Pow2, Slice, And, StructureAt, LevelMask;
    var w := 8 * (end - start + 1);
    var m := Slice(mask, 8 * start, w);
    SliceBound(mask, 8 * start, w);
    if StructureAt(fields, start).Some? {
      var f := fields[StructureAt(fields, start).value];
      BitOfAnd(m, Effective(f.layout, LevelMask(f), start - f.start, end - f.start), j);
    }
    if j >= w {
      BitBeyond(m, w, j);
    } else {
      BitOfSlice(mask, 8 * start, w, j);
    }
  }

  /** The bytes of the shared store, as an integer and a number of bytes. */
  datatype Store = Store(n: nat, length: nat)

  datatype Write = Write(start: nat, end: nat, value: int)

  /** The store after a write to a structure at byte `offset`. */
  function Written(fields: seq<Field>, mask: nat, offset: nat, s: Store, w: Write): (r: Store)
    requires w.start <= w.end
  {
    var at, width := Min(offset + w.start, s.length), 8 * (w.end - w.start + 1);
    var merged := Merge(Slice(s.n, 8 * (offset + w.start), width), w.value, Effective(fields, mask, w.start, w.end));
    InsertParts(s.n, 8 * at, width, merged);
    Store(Insert(s.n, 8 * at, width, merged), Max(s.length, at + w.end - w.start + 1))
  }

  // ----- the structures -----

  /** The object of a structure field, with its masks. */
  ghost predicate InnerMasked(f: Field, view: ShareableByteArray, s: BitMaskedBitStructure?)
    requires f.StructureField?
  {
    && s != null && s.fields == f.layout && s.mask == LevelMask(f) && s.view.data == view.data
    && s.view.offset == view.offset + f.start && s.Valid()
  }

  lemma OnlyBits(fields: seq<Field>)
    requires FieldsValid(fields) && HasBits(fields)
    ensures MasksFit(fields, |fields|)
  {}

  /** The mask bytes of a structure inside hold its mask. */
  lemma MaskBytes(fields: seq<Field>, i: nat)
    requires Sound(fields) && i < |fields| && fields[i].StructureField? && fields[i].mask == None
    ensures FromBytes(ToBytes(LevelMask(fields[i]), Length(fields[i]))) == MaskOf(fields[i].layout, |fields[i].layout|)
  {
    var f := fields[i];
    hide Pow2, FromBytes, ToBytes, MaskOf;
    LevelMaskIs(f);
    FromToBytes(LevelMask(f), Length(f));
    LastFieldEnds(fields, i);
    MaskOfBelow(f.layout, |f.layout|);
    Pow2Mono(8 * ByteSize(f.layout), 8 * Length(f));
    DivModUnique(LevelMask(f), Pow2(8 * Length(f)), 0, LevelMask(f));
  }

  class BitMaskedBitStructure {
    const fields: seq<Field>
    const view: ShareableByteArray
    const nested: seq<BitMaskedBitStructure?>
    // the integer of `_bitmask_bytes`, which is not written after construction
    const mask: nat

    ghost predicate Valid()
      decreases fields
    {
      && Sound(fields) && ByteSize(fields) <= view.size && |nested| == |fields|
      && forall i :: 0 <= i < |fields| && fields[i].StructureField? ==>
           && nested[i] != null
           && nested[i].fields == fields[i].layout
           && nested[i].mask == LevelMask(fields[i])
           && nested[i].view.data == view.data
           && nested[i].view.offset == view.offset + fields[i].start
           && nested[i].Valid()
    }

    constructor (fields: seq<Field>, view: ShareableByteArray, nested: seq<BitMaskedBitStructure?>, mask: nat)
      ensures this.fields == fields && this.view == view && this.nested == nested && this.mask == mask
    {
      this.fields := fields;
      this.view := view;
      this.nested := nested;
      this.mask := mask;
    }

    /** `__init__` on a given view: the layout, the objects inside and the defaults as for any structure,
        and then the masks. */
    static method Build(fields: seq<Field>, view: ShareableByteArray) returns (r: Outcome<BitMaskedBitStructure>)
      requires view.offset + view.size <= |view.data.bytes|
      modifies view.data
      ensures var written := Defaults(fields, |fields|, view.offset, old(view.Number()));
              && (r.Returned? <==> Sound(fields) && ByteSize(fields) <= view.size && written.Returned? && AllMasksFit(fields))
              && (r.Returned? ==> view.Number() == written.value && |view.data.bytes| == |old(view.data.bytes)|)
      ensures r.Returned? <==> Sound(fields) && ByteSize(fields) <= view.size && DefaultsFit(fields) && AllMasksFit(fields)
      ensures r.Returned? ==> Initialised(fields, view.offset, old(view.Number()), view.Number())
      ensures r.Returned? ==> r.value.Valid() && r.value.fields == fields && r.value.view == view && r.value.mask == MaskOf(fields, |fields|)
    {
      hide Sound, Defaults, AllMasksFit, MaskOf, DefaultsFit, Initialised;
      var plain := UnalignedBitStructure.Build(fields, view);
      if plain.Raised? { return Raised(plain.error); }
      r := WithMasks(plain.value, None);
    }

    /** The masks of a structure and of those inside it; `given` is the mask that the field gives it. */
    static method WithMasks(s: UnalignedBitStructure, given: Option<nat>) returns (r: Outcome<BitMaskedBitStructure>)
      requires s.Valid()
      ensures r.Returned? <==> AllMasksFit(s.fields)
      ensures r.Returned? ==>
                && r.value.Valid() && r.value.fields == s.fields && r.value.view == s.view
                && r.value.mask == match given case Some(m) => m case None => MaskOf(s.fields, |s.fields|)
      decreases s.fields
    {
      hide Sound, MaskOf, MasksFit;
      var nested: seq<BitMaskedBitStructure?> := [];
      for i := 0 to |s.fields|
        invariant |nested| == i
        invariant forall j :: 0 <= j < i && s.fields[j].StructureField? ==>
                    InnerMasked(s.fields[j], s.view, nested[j]) && AllMasksFit(s.fields[j].layout)
      {
        if s.fields[i].StructureField? {
          var inner := WithMasks(s.nested[i], s.fields[i].mask);
          if inner.Raised? { return Raised(inner.error); }
          nested := nested + [inner.value];
        } else {
          nested := nested + [null];
        }
      }
      var mask := CreateMasks(s, nested);
      if mask.Raised? { return Raised(mask.error); }
      var m := if given.Some? then given.value else mask.value;
      var masked := new BitMaskedBitStructure(s.fields, s.view, nested, m);
      return Returned(masked);
    }

    /** The mask bytes of the structure itself, as an integer. */
    static method CreateMasks(s: UnalignedBitStructure, nested: seq<BitMaskedBitStructure?>) returns (r: Outcome<nat>)
      requires s.Valid() && |nested| == |s.fields|
      requires forall j :: 0 <= j < |s.fields| && s.fields[j].StructureField? ==> InnerMasked(s.fields[j], s.view, nested[j])
      ensures r.Returned? <==> MasksFit(s.fields, |s.fields|)
      ensures r.Returned? ==> r.value == MaskOf(s.fields, |s.fields|)
    {
      hide Sound, MaskOf, FromBytes, ToBytes, Pow2;
      SoundIsValid(s.fields);
      if s.fields != [] && s.fields[0].BitField? {
        OnlyBits(s.fields);
        var mask := CreateBitFieldMasks(s.fields);
        return Returned(mask);
      }
      var inner: seq<seq<Byte>> := [];
      for i := 0 to |s.fields|
        invariant |inner| == i
        invariant forall j :: 0 <= j < i && s.fields[j].StructureField? && s.fields[j].mask == None ==>
                    |inner[j]| == Length(s.fields[j]) && FromBytes(inner[j]) == MaskOf(s.fields[j].layout, |s.fields[j].layout|)
      {
        var f := s.fields[i];
        if f.StructureField? && f.mask == None {
          MaskBytes(s.fields, i);
          inner := inner + [ToBytes(nested[i].mask, Length(f))];
        } else {
          inner := inner + [[]];
        }
      }
      var bitmask := new ShareableByteArray(s.view.size);
      ZerosAreZero(bitmask.data.bytes);
      assert bitmask.Number() == 0;
      var done := CreateByteFieldMasks(s.fields, inner, bitmask);
      if done.Raised? { return Raised(done.error); }
      var mask := FromBytes(bitmask.data.bytes);
      return Returned(mask);
    }

    method GetStructureField(o: nat) returns (r: Option<nat>)
      ensures r == StructureAt(fields, o)
    {
      if fields != [] && fields[0].BitField? { return None; }
      for i := 0 to |fields|
        invariant FieldAt(fields, o, 0) == FieldAt(fields, o, i)
      {
        if fields[i].start <= o <= fields[i].end {
          return if fields[i].StructureField? then Some(i) else None;
        }
      }
      return None;
    }

    /** A write is masked here, then handed to the structure its first byte lies in, if any, which
        masks it again; what is written in the end goes to the shared store. */
    method WriteBytes(start: nat, end: nat, value: int) returns (r: Outcome<bool>)
      requires Valid() && start <= end
      modifies view.data
      ensures r == Returned(true)
      ensures Store(view.Number(), |view.data.bytes|) ==
                Written(fields, mask, view.offset, Store(old(view.Number()), |old(view.data.bytes)|), Write(start, end, value))
      decreases fields
    {
      hide Insert, Slice, Pow2, Merge, And, StructureAt, LevelMask, FromBytes, Sound;
      var w := 8 * (end - start + 1);
      var m := Slice(mask, 8 * start, w);
      SliceBound(mask, 8 * start, w);
      var current := view.ReadBytes(start, end);
      SliceBound(view.Number(), 8 * (view.offset + start), w);
      MergeBelow(current, value, m, w);
      var merged := Merge(current, value, m);
      var field := GetStructureField(start);
      if field.Some? {
        var f := fields[field.value];
        MergeMerge(current, value, m, Effective(f.layout, LevelMask(f), start - f.start, end - f.start), w);
        r := nested[field.value].WriteBytes(start - f.start, end - f.start, merged);
      } else {
        r := view.WriteBytes(start, end, merged);
      }
    }
  }

  // ----- what no write can change -----

  predicate Contains(s: Store, offset: nat, size: nat) {
    s.n < Pow2(8 * s.length) && offset + size <= s.length
  }

  lemma SliceBeyond(n: nat, w: nat, o: nat, u: nat)
    requires n < Pow2(w) && w <= o
    ensures Slice(n, o, u) == 0
  {
    Pow2Mono(w, o);
    DivModUnique(n, Pow2(o), 0, n);
    DivModUnique(0, Pow2(u), 0, 0);
  }

  lemma {:induction false} EffectiveBeyond(fields: seq<Field>, mask: nat, size: nat, start: nat, end: nat)
    requires mask < Pow2(8 * size) && size <= start <= end
    ensures Effective(fields, mask, start, end) == 0
  {
    hide Pow2, Slice, StructureAt, LevelMask;
    SliceBeyond(mask, 8 * size, 8 * start, 8 * (end - start + 1));
    if StructureAt(fields, start).Some? {
      var f := fields[StructureAt(fields, start).value];
      AndZero(Effective(f.layout, LevelMask(f), start - f.start, end - f.start));
    }
  }

  /** One write, bit by bit: it changes exactly the bits of its range that pass all the masks on its
      way, to the bits of the value, whether or not it runs past the end of a structure or of the
      store. */
  lemma WriteBit(fields: seq<Field>, mask: nat, offset: nat, size: nat, s: Store, w: Write, i: nat)
    requires w.start <= w.end && mask < Pow2(8 * size) && Contains(s, offset, size)
    ensures Bit(Written(fields, mask, offset, s, w).n, i) ==
              var o := 8 * (offset + w.start);
              if o <= i < o + 8 * (w.end - w.start + 1) && Bit(Effective(fields, mask, w.start, w.end), i - o)
              then Bit(w.value, i - o) else Bit(s.n, i)
  {
    hide Pow2, Insert, Slice, Merge, Bit, Effective;
    var o, width, e := 8 * (offset + w.start), 8 * (w.end - w.start + 1), Effective(fields, mask, w.start, w.end);
    if offset + w.start <= s.length {
      MaskedWriteBit(s.n, o, width, w.value, e, i);
    } else {
      EffectiveBeyond(fields, mask, size, w.start, w.end);
      SliceBeyond(s.n, 8 * s.length, o, width);
      SliceBeyond(s.n, 8 * s.length, 8 * s.length, width);
      MaskedWriteBit(s.n, 8 * s.length, width, w.value, 0, i);
      BitOfZero(if o <= i then i - o else 0);
      BitOfZero(if 8 * s.length <= i then i - 8 * s.length else 0);
    }
  }

  lemma WriteKeepsContained(fields: seq<Field>, mask: nat, offset: nat, size: nat, s: Store, w: Write)
    requires w.start <= w.end && Contains(s, offset, size)
    ensures Contains(Written(fields, mask, offset, s, w), offset, size)
  {
    hide Pow2, Insert, Slice, Merge, Effective;
    var at, width := Min(offset + w.start, s.length), 8 * (w.end - w.start + 1);
    var t := Written(fields, mask, offset, s, w);
    Pow2Mono(8 * s.length, 8 * t.length);
    InsertStaysBelow(s.n, 8 * t.length, 8 * at, width,
                     Merge(Slice(s.n, 8 * (offset + w.start), width), w.value, Effective(fields, mask, w.start, w.end)));
  }

  predicate Proper(writes: seq<Write>) {
    forall k :: 0 <= k < |writes| ==> writes[k].start <= writes[k].end
  }

  function Run(fields: seq<Field>, mask: nat, offset: nat, s: Store, writes: seq<Write>): Store
    requires Proper(writes)
    decreases |writes|
  {
    if writes == [] then s else Run(fields, mask, offset, Written(fields, mask, offset, s, writes[0]), writes[1..])
  }

  /** No sequence of writes, wherever they start and end and whatever they are handed through, changes
      a bit that the mask of the structure written does not have, nor a bit before the structure. */
  lemma {:induction false} RunKeepsMaskedBits(fields: seq<Field>, mask: nat, offset: nat, size: nat, s: Store, writes: seq<Write>, i: nat)
    requires Proper(writes) && mask < Pow2(8 * size) && Contains(s, offset, size)
    requires 8 * offset <= i ==> !Bit(mask, i - 8 * offset)
    ensures Bit(Run(fields, mask, offset, s, writes).n, i) == Bit(s.n, i)
    ensures Contains(Run(fields, mask, offset, s, writes), offset, size)
    decreases |writes|
  {
    hide Pow2, Bit, Written, Effective;
    if writes != [] {
      var w := writes[0];
      WriteBit(fields, mask, offset, size, s, w, i);
      WriteKeepsContained(fields, mask, offset, size, s, w);
      var o := 8 * (offset + w.start);
      if o <= i && Bit(Effective(fields, mask, w.start, w.end), i - o) {
        EffectiveWithin(fields, mask, w.start, w.end, i - o);
      }
      RunKeepsMaskedBits(fields, mask, offset, size, Written(fields, mask, offset, s, w), writes[1..], i);
    }
  }

  /** The write reaches the bit through all the masks on its way. */
  predicate Reaches(fields: seq<Field>, mask: nat, offset: nat, w: Write, i: nat)
    requires w.start <= w.end
  {
    var o := 8 * (offset + w.start);
    o <= i < o + 8 * (w.end - w.start + 1) && Bit(Effective(fields, mask, w.start, w.end), i - o)
  }

  /** What the last write that reaches the bit has for it. */
  predicate LastBit(fields: seq<Field>, mask: nat, offset: nat, s: Store, writes: seq<Write>, i: nat)
    requires Proper(writes)
    decreases |writes|
  {
    if writes == [] then Bit(s.n, i)
    else
      var w := writes[|writes| - 1];
      if Reaches(fields, mask, offset, w, i) then Bit(w.value, i - 8 * (offset + w.start))
      else LastBit(fields, mask, offset, s, writes[..|writes| - 1], i)
  }

  lemma {:induction false} RunLast(fields: seq<Field>, mask: nat, offset: nat, s: Store, writes: seq<Write>)
    requires Proper(writes) && writes != []
    ensures Run(fields, mask, offset, s, writes)
         == Written(fields, mask, offset, Run(fields, mask, offset, s, writes[..|writes| - 1]), writes[|writes| - 1])
    decreases |writes|
  {
    hide Written;
    var n := |writes| - 1;
    if n == 0 {
      assert writes[1..] == [];
    } else {
      RunLast(fields, mask, offset, Written(fields, mask, offset, s, writes[0]), writes[1..]);
      assert writes[1..][..n - 1] == writes[..n][1..];
    }
  }

  /** After every sequence of writes a bit is what the last write that reaches it had for it. */
  lemma {:induction false} RunIsLastBit(fields: seq<Field>, mask: nat, offset: nat, size: nat, s: Store, writes: seq<Write>, i: nat)
    requires Proper(writes) && mask < Pow2(8 * size) && Contains(s, offset, size)
    ensures Bit(Run(fields, mask, offset, s, writes).n, i) == LastBit(fields, mask, offset, s, writes, i)
    ensures Contains(Run(fields, mask, offset, s, writes), offset, size)
    decreases |writes|
  {
    hide Pow2, Bit, Written, Effective;
    if writes != [] {
      var n := |writes| - 1;
      RunIsLastBit(fields, mask, offset, size, s, writes[..n], i);
      RunLast(fields, mask, offset, s, writes);
      WriteBit(fields, mask, offset, size, Run(fields, mask, offset, s, writes[..n]), writes[n], i);
      WriteKeepsContained(fields, mask, offset, size, Run(fields, mask, offset, s, writes[..n]), writes[n]);
    }
  }

  lemma {:induction false} MaskOfBelow(fields: seq<Field>, k: nat)
    requires Sound(fields) && k <= |fields|
    ensures MaskOf(fields, k) < Pow2(8 * ByteSize(fields))
    decreases k
  {
    hide Pow2, Insert, FieldMask;
    if k > 0 {
      MaskOfBelow(fields, k - 1);
      LeafInLayout(fields, k - 1);
      LastFieldEnds(fields, k - 1);
      InsertStaysBelow(MaskOf(fields, k - 1), 8 * ByteSize(fields), Start(fields[k - 1]), Width(fields[k - 1]), FieldMask(fields[k - 1]));
    }
  }

  lemma ZeroSliceBits(n: nat, o: nat, w: nat, i: nat)
    requires Slice(n, o, w) == 0 && i < w
    ensures !Bit(n, o + i)
  {
    hide Slice, Bit, Pow2;
    BitOfSlice(n, o, w, i);
    BitOfZero(i);
  }

  lemma SlicesEqual(n: nat, m: nat, o: nat, w: nat)
    requires forall j :: o <= j < o + w ==> Bit(n, j) == Bit(m, j)
    ensures Slice(n, o, w) == Slice(m, o, w)
  {
    hide Slice, Bit, Pow2;
    SliceBound(n, o, w);
    SliceBound(m, o, w);
    forall i | 0 <= i < w ensures Bit(Slice(n, o, w), i) == Bit(Slice(m, o, w), i) {
      BitOfSlice(n, o, w, i);
      BitOfSlice(m, o, w, i);
      assert Bit(n, o + i) == Bit(m, o + i);
    }
    Extensional(Slice(n, o, w), Slice(m, o, w), w);
  }

  /** Over every sequence of writes, wherever they start and end, a bit of a leaf that the mask of the
      layout does not have keeps its value. */
  lemma MaskedBitNeverChanges(fields: seq<Field>, offset: nat, s: Store, writes: seq<Write>, path: seq<nat>, j: nat)
    requires Sound(fields) && IsPath(fields, path) && j < LeafAt(fields, 0, path).width && !Bit(MaskAt(fields, path), j)
    requires Proper(writes) && Contains(s, offset, ByteSize(fields))
    ensures var leaf := LeafAt(fields, offset, path);
            Bit(Get(Run(fields, MaskOf(fields, |fields|), offset, s, writes).n, leaf), j) == Bit(Get(s.n, leaf), j)
  {
    hide Slice, Bit, Pow2, MaskOf, MaskAt, Run;
    var mask, leaf := MaskOf(fields, |fields|), LeafAt(fields, 0, path);
    var t := Run(fields, mask, offset, s, writes);
    MaskOfBelow(fields, |fields|);
    LeafMask(fields, path);
    LeafShift(fields, offset, path);
    BitOfSlice(mask, leaf.start, leaf.width, j);
    var i := leaf.start + 8 * offset + j;
    assert i - 8 * offset == leaf.start + j;
    RunKeepsMaskedBits(fields, mask, offset, ByteSize(fields), s, writes, i);
    BitOfSlice(t.n, leaf.start + 8 * offset, leaf.width, j);
    BitOfSlice(s.n, leaf.start + 8 * offset, leaf.width, j);
  }

  /** A leaf with an empty mask keeps its value: read-only fields, and fields given the mask 0. */
  lemma ReadOnlyNeverChanges(fields: seq<Field>, offset: nat, s: Store, writes: seq<Write>, path: seq<nat>)
    requires Sound(fields) && IsPath(fields, path) && MaskAt(fields, path) == 0
    requires Proper(writes) && Contains(s, offset, ByteSize(fields))
    ensures var leaf := LeafAt(fields, offset, path);
            Get(Run(fields, MaskOf(fields, |fields|), offset, s, writes).n, leaf) == Get(s.n, leaf)
  {
    hide Slice, Bit, Pow2, MaskOf, MaskAt, Run;
    var leaf := LeafAt(fields, offset, path);
    var n, m := Run(fields, MaskOf(fields, |fields|), offset, s, writes).n, s.n;
    LeafShift(fields, offset, path);
    SliceBound(n, leaf.start, leaf.width);
    SliceBound(m, leaf.start, leaf.width);
    forall j | 0 <= j < leaf.width ensures Bit(Get(n, leaf), j) == Bit(Get(m, leaf), j) {
      BitOfZero(j);
      MaskedBitNeverChanges(fields, offset, s, writes, path, j);
    }
    Extensional(Get(n, leaf), Get(m, leaf), leaf.width);
  }

  // ----- which bits some write can change -----

  /** Some byte up to `b` lies in no structure field, so that a write from there meets this mask alone. */
  predicate Direct(fields: seq<Field>, b: nat)
    requires FieldsValid(fields)
  {
    || HasBits(fields) || ByteSize(fields) <= b
    || exists k :: 0 <= k < |fields| && !fields[k].StructureField? && fields[k].start <= b
  }

  /** A write can reach bit `i`: the mask has it, and either a byte field lies in front of it (or it lies
      in none of the structures), or it can be reached through the structure the write starts in. */
  predicate CanReach(fields: seq<Field>, mask: nat, i: nat)
    requires Sound(fields)
    decreases fields
  {
    && Bit(mask, i)
    && (|| Direct(fields, i / 8)
        || exists k :: 0 <= k < |fields| && fields[k].StructureField? && 8 * fields[k].start <= i
             && CanReach(fields[k].layout, LevelMask(fields[k]), i - 8 * fields[k].start))
  }

  /** The write changes bit `i` if its value differs there. */
  predicate Passes(fields: seq<Field>, mask: nat, w: Write, i: nat) {
    && w.start <= w.end && 8 * w.start <= i < 8 * (w.end + 1)
    && Bit(Effective(fields, mask, w.start, w.end), i - 8 * w.start)
  }

  lemma {:induction false} FieldAtByte(fields: seq<Field>, o: nat, k: nat) returns (i: nat)
    requires FieldsValid(fields) && !HasBits(fields) && k < |fields| && o <= fields[k].end
    ensures i <= k && fields[i].start <= o <= fields[i].end && FieldAt(fields, o, 0) == Some(i)
    decreases k
  {
    StartOfField(fields, k);
    if fields[k].start <= o {
      i := k;
      FieldAtIs(fields, o, 0, k);
    } else {
      i := FieldAtByte(fields, o, k - 1);
    }
  }

  lemma NoStructureIsDirect(fields: seq<Field>, o: nat, b: nat)
    requires FieldsValid(fields) && StructureAt(fields, o) == None && o <= b
    ensures Direct(fields, b)
  {
    if !HasBits(fields) && o < ByteSize(fields) {
      var i := FieldAtByte(fields, o, |fields| - 1);
      assert !fields[i].StructureField? && fields[i].start <= b;
    }
  }

  lemma DirectHasByte(fields: seq<Field>, b: nat) returns (o: nat)
    requires FieldsValid(fields) && Direct(fields, b)
    ensures o <= b && StructureAt(fields, o) == None
  {
    if HasBits(fields) {
      o := b;
    } else if ByteSize(fields) <= b {
      o := b;
      BeyondAllFields(fields, b, 0);
    } else {
      var k :| 0 <= k < |fields| && !fields[k].StructureField? && fields[k].start <= b;
      o := fields[k].start;
      LastFieldEnds(fields, k);
      FieldAtIs(fields, o, 0, k);
    }
  }

  lemma {:induction false} BeyondAllFields(fields: seq<Field>, o: nat, i: nat)
    requires FieldsValid(fields) && !HasBits(fields) && ByteSize(fields) <= o && i <= |fields|
    ensures FieldAt(fields, o, i) == None
    decreases |fields| - i
  {
    if i < |fields| {
      LastFieldEnds(fields, i);
      BeyondAllFields(fields, o, i + 1);
    }
  }

  /** What passes can be reached. */
  lemma {:induction false} PassingIsReached(fields: seq<Field>, mask: nat, w: Write, i: nat)
    requires Sound(fields) && Passes(fields, mask, w, i)
    ensures CanReach(fields, mask, i)
    decreases fields
  {
    hide Bit, Effective, LevelMask, StructureAt, Direct;
    EffectiveWithin(fields, mask, w.start, w.end, i - 8 * w.start);
    assert 8 * w.start + (i - 8 * w.start) == i;
    SoundIsValid(fields);
    var at := StructureAt(fields, w.start);
    if at == None {
      NoStructureIsDirect(fields, w.start, i / 8);
    } else {
      var f := fields[at.value];
      var inner := Write(w.start - f.start, w.end - f.start, w.value);
      assert i - 8 * f.start - 8 * inner.start == i - 8 * w.start;
      PassingIsReached(f.layout, LevelMask(f), inner, i - 8 * f.start);
    }
  }

  /** All masks that are given fit what they are given for, as construction demands. */
  predicate AllMasksFit(fields: seq<Field>) {
    MasksFit(fields, |fields|) && forall i :: 0 <= i < |fields| && fields[i].StructureField? ==> AllMasksFit(fields[i].layout)
  }

  lemma LevelMaskBelow(fields: seq<Field>, k: nat)
    requires Sound(fields) && AllMasksFit(fields) && k < |fields| && fields[k].StructureField?
    ensures LevelMask(fields[k]) < Pow2(8 * Length(fields[k]))
  {
    hide Pow2;
    var f := fields[k];
    LastFieldEnds(fields, k);
    if f.mask == None {
      MaskOfBelow(f.layout, |f.layout|);
      Pow2Mono(8 * ByteSize(f.layout), 8 * Length(f));
    }
  }

  /** What can be reached passes in some write. */
  lemma {:induction false} ReachedPasses(fields: seq<Field>, mask: nat, i: nat, value: int) returns (w: Write)
    requires Sound(fields) && AllMasksFit(fields) && CanReach(fields, mask, i)
    ensures Passes(fields, mask, w, i) && w.value == value
    decreases fields
  {
    hide Bit, LevelMask, StructureAt, Direct, Pow2, Slice, And;
    SoundIsValid(fields);
    if Direct(fields, i / 8) {
      var o := DirectHasByte(fields, i / 8);
      w := Write(o, i / 8, value);
      BitOfSlice(mask, 8 * o, 8 * (i / 8 - o + 1), i - 8 * o);
    } else {
      var k :| 0 <= k < |fields| && fields[k].StructureField? && 8 * fields[k].start <= i
               && CanReach(fields[k].layout, LevelMask(fields[k]), i - 8 * fields[k].start);
      var f := fields[k];
      var inner := ReachedPasses(f.layout, LevelMask(f), i - 8 * f.start, value);
      LevelMaskBelow(fields, k);
      if 8 * Length(f) <= i - 8 * f.start {
        BitBeyond(LevelMask(f), 8 * Length(f), i - 8 * f.start);
      }
      w := Write(f.start + inner.start, f.start + inner.end, value);
      PassesOutside(fields, mask, k, inner, w, i);
    }
  }

  lemma PassesOutside(fields: seq<Field>, mask: nat, k: nat, inner: Write, w: Write, i: nat)
    requires Sound(fields) && k < |fields| && fields[k].StructureField? && Bit(mask, i)
    requires w == Write(fields[k].start + inner.start, fields[k].start + inner.end, inner.value)
    requires 8 * fields[k].start <= i < 8 * (fields[k].end + 1)
    requires Passes(fields[k].layout, LevelMask(fields[k]), inner, i - 8 * fields[k].start)
    ensures Passes(fields, mask, w, i)
  {
    hide Bit, LevelMask, Pow2, Slice, And;
    var f := fields[k];
    SoundIsValid(fields);
    LastFieldEnds(fields, k);
    FieldAtIs(fields, w.start, 0, k);
    var m := Slice(mask, 8 * w.start, 8 * (w.end - w.start + 1));
    BitOfSlice(mask, 8 * w.start, 8 * (w.end - w.start + 1), i - 8 * w.start);
    assert 8 * w.start + (i - 8 * w.start) == i;
    assert i - 8 * f.start - 8 * inner.start == i - 8 * w.start;
    var e := Effective(f.layout, LevelMask(f), inner.start, inner.end);
    BitOfAnd(m, e, i - 8 * w.start);
    assert w.start - f.start == inner.start && w.end - f.start == inner.end;
  }

  /** A bit that no write can reach keeps its value over every run. */
  lemma {:induction false} UnreachedNeverChanges(fields: seq<Field>, mask: nat, offset: nat, size: nat, s: Store, writes: seq<Write>, i: nat)
    requires Sound(fields) && Proper(writes) && mask < Pow2(8 * size) && Contains(s, offset, size)
    requires !CanReach(fields, mask, i)
    ensures Bit(Run(fields, mask, offset, s, writes).n, 8 * offset + i) == Bit(s.n, 8 * offset + i)
    decreases |writes|
  {
    hide Pow2, Bit, Written, Effective, CanReach;
    if writes != [] {
      var w := writes[0];
      WriteBit(fields, mask, offset, size, s, w, 8 * offset + i);
      WriteKeepsContained(fields, mask, offset, size, s, w);
      assert 8 * offset + i - 8 * (offset + w.start) == i - 8 * w.start;
      if Passes(fields, mask, w, i) {
        PassingIsReached(fields, mask, w, i);
      }
      UnreachedNeverChanges(fields, mask, offset, size, Written(fields, mask, offset, s, w), writes[1..], i);
    }
  }

  /** A bit that can be reached is changed by some write, in whatever state. */
  lemma ReachedCanChange(fields: seq<Field>, mask: nat, offset: nat, size: nat, s: Store, i: nat) returns (w: Write)
    requires Sound(fields) && AllMasksFit(fields) && mask < Pow2(8 * size) && Contains(s, offset, size)
    requires CanReach(fields, mask, i)
    ensures w.start <= w.end
    ensures Bit(Written(fields, mask, offset, s, w).n, 8 * offset + i) != Bit(s.n, 8 * offset + i)
  {
    hide Pow2, Bit, Written, Effective, CanReach;
    w := ReachedPasses(fields, mask, i, if Bit(s.n, 8 * offset + i) then 0 else -1);
    WriteBit(fields, mask, offset, size, s, w, 8 * offset + i);
    assert 8 * offset + i - 8 * (offset + w.start) == i - 8 * w.start;
    BitOfZero(i - 8 * w.start);
    BitOfOnes(i - 8 * w.start);
  }

  // a read-only byte behind a byte field, in a structure whose field is given a mask
  const INNERMOST: seq<Field> := [ByteField(0, 0, 0, true, None)]
  const MIDDLE: seq<Field> := [ByteField(0, 0, 0, false, None), StructureField(1, 1, INNERMOST, 0, None)]
  const OUTERMOST: seq<Field> := [StructureField(0, 1, MIDDLE, 0, Some(0xFFFF))]

  lemma LayoutIsSound()
    ensures Sound(INNERMOST) && Sound(MIDDLE) && Sound(OUTERMOST)
  {
    assert Sound(INNERMOST);
    assert Sound(MIDDLE);
  }

  /** A mask given for a structure replaces the masks inside it for writes that are not handed further
      down: a write that starts in the byte field reaches the read-only byte behind it. */
  lemma CrossingWriteReachesReadOnly()
    ensures Sound(OUTERMOST) && IsPath(OUTERMOST, [0, 1, 0]) && ReadOnlyAt(OUTERMOST, [0, 1, 0])
    ensures CanReach(OUTERMOST, 0xFFFF, 8)
    ensures Passes(OUTERMOST, 0xFFFF, Write(0, 1, 0xFFFF), 8)
  {
    LayoutIsSound();
    assert [0, 1, 0][1..] == [1, 0] && [1, 0][1..] == [0];
    assert IsPath(INNERMOST, [0]) && IsPath(MIDDLE, [1, 0]);
    SixteenOnes();
    hide Bit, Pow2, Slice, And, Sound;
    var w := Write(0, 1, 0xFFFF);
    assert StructureAt(MIDDLE, 0) == None;
    assert Effective(MIDDLE, 0xFFFF, 0, 1) == Slice(0xFFFF, 0, 16);
    assert Passes(MIDDLE, 0xFFFF, w, 8);
    PassesOutside(OUTERMOST, 0xFFFF, 0, w, w, 8);
    assert Passes(OUTERMOST, 0xFFFF, w, 8);
    PassingIsReached(OUTERMOST, 0xFFFF, w, 8);
  }

  lemma Sixteen()
    ensures Pow2(16) == 0x10000
  {
    Pow2Add(8, 8);
    assert Pow2(8) == 256;
  }

  lemma SixteenOnes()
    ensures Bit(0xFFFF, 8) && Bit(Slice(0xFFFF, 0, 16), 8)
  {
    Sixteen();
    hide Pow2, Bit, Slice;
    AllOnes(16);
    BitOfMod(-1, 16, 8);
    BitOfOnes(8);
    BitOfSlice(0xFFFF, 0, 16, 8);
  }

  // ----- what a write sets -----

  lemma {:induction false} FieldAtIs(fields: seq<Field>, o: nat, i: nat, k: nat)
    requires Consecutive(fields) && i <= k < |fields| && fields[k].start <= o <= fields[k].end
    ensures FieldAt(fields, o, i) == Some(k)
    decreases k - i
  {
    if i < k {
      Ordered(fields, i, k);
      FieldAtIs(fields, o, i + 1, k);
    }
  }

  predicate IsByteLeaf(fields: seq<Field>, path: seq<nat>)
    requires IsPath(fields, path)
    decreases |path|
  {
    match fields[path[0]]
    case BitField(_, _, _, _) => false
    case ByteField(_, _, _, _, _) => true
    case StructureField(_, _, layout, _, _) => IsByteLeaf(layout, path[1..])
  }

  function FirstByte(fields: seq<Field>, path: seq<nat>): nat
    requires IsPath(fields, path)
    decreases |path|
  {
    var f := fields[path[0]];
    if f.StructureField? then f.start + FirstByte(f.layout, path[1..]) else f.start
  }

  function Bytes(fields: seq<Field>, path: seq<nat>): nat
    requires IsPath(fields, path)
    decreases |path|
  {
    var f := fields[path[0]];
    if f.StructureField? then Bytes(f.layout, path[1..]) else Length(f)
  }

  lemma {:induction false} ByteLeaf(fields: seq<Field>, path: seq<nat>)
    requires Sound(fields) && IsPath(fields, path) && IsByteLeaf(fields, path)
    ensures LeafAt(fields, 0, path) == Leaf(8 * FirstByte(fields, path), 8 * Bytes(fields, path), true)
    ensures Bytes(fields, path) > 0
    ensures fields[path[0]].start <= FirstByte(fields, path) <= fields[path[0]].end
    decreases |path|
  {
    var f := fields[path[0]];
    LastFieldEnds(fields, path[0]);
    if f.StructureField? {
      ByteLeaf(f.layout, path[1..]);
      LeafShift(f.layout, f.start, path[1..]);
      LeafInField(fields, 0, path);
    }
  }

  /** The bits of a leaf that all masks on its path have. */
  function PathMask(fields: seq<Field>, mask: nat, path: seq<nat>): (m: nat)
    requires Sound(fields) && IsPath(fields, path)
    decreases |path|
  {
    var leaf, f := LeafAt(fields, 0, path), fields[path[0]];
    var m := Slice(mask, leaf.start, leaf.width);
    if f.StructureField? then And(m, PathMask(f.layout, LevelMask(f), path[1..])) else m
  }

  lemma {:induction false} EffectiveOnRegister(fields: seq<Field>, mask: nat, path: seq<nat>)
    requires Sound(fields) && IsPath(fields, path) && IsByteLeaf(fields, path)
    ensures Bytes(fields, path) > 0
    ensures var first, count := FirstByte(fields, path), Bytes(fields, path);
            Effective(fields, mask, first, first + count - 1) == PathMask(fields, mask, path)
    decreases |path|
  {
    hide Pow2, Slice, And, LeafAt, FieldMask, LevelMask, Sound;
    var f, first, count := fields[path[0]], FirstByte(fields, path), Bytes(fields, path);
    ByteLeaf(fields, path);
    SoundIsValid(fields);
    FieldAtIs(fields, first, 0, path[0]);
    if f.StructureField? {
      SoundInside(fields, path[0]);
      EffectiveOnRegister(f.layout, LevelMask(f), path[1..]);
    }
  }

  lemma SoundInside(fields: seq<Field>, i: nat)
    requires Sound(fields) && i < |fields| && fields[i].StructureField?
    ensures Sound(fields[i].layout)
  {}

  lemma LevelMaskIs(f: Field)
    requires f.StructureField? && f.mask == None
    ensures LevelMask(f) == MaskOf(f.layout, |f.layout|)
  {}

  /** A write of exactly one register sets exactly the bits that the masks on its path have: the
      register ends as `(old & ~m) | (value & m)`. */
  lemma RegisterWrite(fields: seq<Field>, mask: nat, offset: nat, s: Store, path: seq<nat>, value: int)
    requires Sound(fields) && IsPath(fields, path) && IsByteLeaf(fields, path)
    requires Contains(s, offset, ByteSize(fields))
    ensures Bytes(fields, path) > 0
    ensures var leaf, first := LeafAt(fields, offset, path), FirstByte(fields, path);
            Get(Written(fields, mask, offset, s, Write(first, first + Bytes(fields, path) - 1, value)).n, leaf)
            == Merge(Get(s.n, leaf), value, PathMask(fields, mask, path))
  {
    hide Pow2, Slice, Insert, Bit, LeafAt, Effective, PathMask, Merge;
    var first, count := FirstByte(fields, path), Bytes(fields, path);
    EffectiveOnRegister(fields, mask, path);
    ByteLeaf(fields, path);
    LeafShift(fields, offset, path);
    LeafInLayout(fields, path[0]);
    SoundIsValid(fields);
    LeafInField(fields, 0, path);
    var o, w, m := 8 * (offset + first), 8 * count, PathMask(fields, mask, path);
    assert 8 * (first + count - 1 - first + 1) == w;
    SliceBound(s.n, o, w);
    MergeBelow(Slice(s.n, o, w), value, m, w);
    SliceOfInsert(s.n, o, w, Merge(Slice(s.n, o, w), value, m));
    DivModUnique(Merge(Slice(s.n, o, w), value, m), Pow2(w), 0, Merge(Slice(s.n, o, w), value, m));
  }

  /** Under structures without masks of their own that mask is the register's own. */
  lemma {:induction false} OwnMask(fields: seq<Field>, path: seq<nat>)
    requires Sound(fields) && IsPath(fields, path) && StructuresUnmasked(fields, path)
    ensures PathMask(fields, MaskOf(fields, |fields|), path) == MaskAt(fields, path)
    decreases |path|
  {
    hide Pow2, Slice, MaskOf, And, LeafAt, FieldMask, LevelMask, Sound;
    var f := fields[path[0]];
    LeafMask(fields, path);
    if f.StructureField? {
      SoundInside(fields, path[0]);
      OwnMask(f.layout, path[1..]);
      LevelMaskIs(f);
      AndSelf(MaskAt(fields, path));
    }
  }

  /** Without any mask given on the way, a register that can be written is set to the value. */
  lemma WritableRegisterIsSet(fields: seq<Field>, offset: nat, s: Store, path: seq<nat>, value: int)
    requires Sound(fields) && IsPath(fields, path) && IsByteLeaf(fields, path) && Unmasked(fields, path) && !ReadOnlyAt(fields, path)
    requires Contains(s, offset, ByteSize(fields))
    ensures Bytes(fields, path) > 0
    ensures var leaf, first := LeafAt(fields, offset, path), FirstByte(fields, path);
            Get(Written(fields, MaskOf(fields, |fields|), offset, s, Write(first, first + Bytes(fields, path) - 1, value)).n, leaf)
            == value % Pow2(leaf.width)
  {
    hide Pow2, Slice, MaskOf, Merge, Written, LeafAt, PathMask, MaskAt;
    RegisterWrite(fields, MaskOf(fields, |fields|), offset, s, path, value);
    UnmaskedLeaf(fields, path);
    OwnMask(fields, path);
    LeafShift(fields, offset, path);
    var leaf := LeafAt(fields, offset, path);
    SliceBound(s.n, leaf.start, leaf.width);
    MergeAll(Get(s.n, leaf), value, leaf.width);
  }

  /** A write that starts at byte `o` is handed down the path: the byte lies in every structure on it. */
  predicate HandedDown(fields: seq<Field>, path: seq<nat>, o: nat)
    requires IsPath(fields, path)
    decreases |path|
  {
    var f := fields[path[0]];
    f.BitField? || (f.start <= o <= f.end && (f.StructureField? ==> HandedDown(f.layout, path[1..], o - f.start)))
  }

  /** The bits of the write that pass are, on a leaf it is handed down to, those of all masks on the path. */
  lemma {:induction false} EffectiveOnLeaf(fields: seq<Field>, mask: nat, path: seq<nat>, w: Write, j: nat)
    requires Sound(fields) && IsPath(fields, path) && HandedDown(fields, path, w.start) && w.start <= w.end
    requires var leaf := LeafAt(fields, 0, path); 8 * w.start <= leaf.start && leaf.start + leaf.width <= 8 * (w.end + 1) && j < leaf.width
    ensures Bit(Effective(fields, mask, w.start, w.end), LeafAt(fields, 0, path).start - 8 * w.start + j) == Bit(PathMask(fields, mask, path), j)
    decreases |path|
  {
    hide Pow2, Slice, And, Bit, LeafAt, LevelMask, Sound;
    var f, leaf := fields[path[0]], LeafAt(fields, 0, path);
    var width := 8 * (w.end - w.start + 1);
    var i := leaf.start - 8 * w.start + j;
    SoundIsValid(fields);
    BitOfSlice(mask, 8 * w.start, width, i);
    BitOfSlice(mask, leaf.start, leaf.width, j);
    assert 8 * w.start + i == leaf.start + j;
    if f.BitField? {
      assert HasBits(fields) by { KindOfField(fields, path[0]); }
    } else {
      FieldAtIs(fields, w.start, 0, path[0]);
      KindOfField(fields, path[0]);
      if f.StructureField? {
        SoundInside(fields, path[0]);
        LeafInside(fields, path);
        var inner := Write(w.start - f.start, w.end - f.start, w.value);
        EffectiveOnLeaf(f.layout, LevelMask(f), path[1..], inner, j);
        BitOfAnd(Slice(mask, 8 * w.start, width), Effective(f.layout, LevelMask(f), inner.start, inner.end), i);
        BitOfAnd(Slice(mask, leaf.start, leaf.width), PathMask(f.layout, LevelMask(f), path[1..]), j);
      }
    }
  }

  lemma KindOfField(fields: seq<Field>, k: nat)
    requires FieldsValid(fields) && k < |fields|
    ensures HasBits(fields) <==> fields[k].BitField?
  {
    StartOfField(fields, k);
  }

  lemma LeafInside(fields: seq<Field>, path: seq<nat>)
    requires Sound(fields) && IsPath(fields, path) && fields[path[0]].StructureField?
    ensures Sound(fields[path[0]].layout)
    ensures var f := fields[path[0]];
            var leaf := LeafAt(f.layout, 0, path[1..]);
            LeafAt(fields, 0, path) == leaf.(start := leaf.start + 8 * f.start)
  {
    LeafShift(fields[path[0]].layout, fields[path[0]].start, path[1..]);
  }

  lemma {:induction false} PathMaskBelow(fields: seq<Field>, mask: nat, path: seq<nat>)
    requires Sound(fields) && IsPath(fields, path)
    ensures PathMask(fields, mask, path) < Pow2(LeafAt(fields, 0, path).width)
  {
    hide Pow2, Slice, And, LeafAt;
    SliceBound(mask, LeafAt(fields, 0, path).start, LeafAt(fields, 0, path).width);
  }

  /** A write that is handed down to a leaf, a bit field or a byte field at any depth, and covers it leaves
      in it the old bits outside the masks on the path, and inside them those the value has for the leaf. */
  lemma FieldWrite(fields: seq<Field>, mask: nat, offset: nat, s: Store, path: seq<nat>, w: Write)
    requires Sound(fields) && IsPath(fields, path) && HandedDown(fields, path, w.start) && w.start <= w.end
    requires var leaf := LeafAt(fields, 0, path); 8 * w.start <= leaf.start && leaf.start + leaf.width <= 8 * (w.end + 1)
    requires Contains(s, offset, ByteSize(fields))
    ensures var leaf := LeafAt(fields, offset, path);
            Get(Written(fields, mask, offset, s, w).n, leaf)
            == Merge(Get(s.n, leaf), Slice(w.value, LeafAt(fields, 0, path).start - 8 * w.start, leaf.width), PathMask(fields, mask, path))
  {
    hide Pow2, Slice, Insert, Bit, LeafAt, Effective, PathMask, Merge, Sound;
    var leaf, inside := LeafAt(fields, offset, path), LeafAt(fields, 0, path);
    SoundIsValid(fields);
    LeafShift(fields, offset, path);
    LeafEnds(fields, path);
    var o := inside.start - 8 * w.start;
    var new_, v, m := Written(fields, mask, offset, s, w).n, Slice(w.value, o, leaf.width), PathMask(fields, mask, path);
    SliceBound(s.n, leaf.start, leaf.width);
    SliceBound(new_, leaf.start, leaf.width);
    PathMaskBelow(fields, mask, path);
    MergeBelow(Get(s.n, leaf), v, m, leaf.width);
    forall j | 0 <= j < leaf.width ensures Bit(Get(new_, leaf), j) == Bit(Merge(Get(s.n, leaf), v, m), j) {
      BitOfMerge(Get(s.n, leaf), v, m, j);
      EffectiveOnLeaf(fields, mask, path, w, j);
      MaskedWriteBit(s.n, 8 * (offset + w.start), 8 * (w.end - w.start + 1), w.value, Effective(fields, mask, w.start, w.end), leaf.start + j);
      assert leaf.start + j - 8 * (offset + w.start) == o + j;
      BitOfSlice(new_, leaf.start, leaf.width, j);
      BitOfSlice(s.n, leaf.start, leaf.width, j);
      BitOfSlice(w.value, o, leaf.width, j);
    }
    Extensional(Get(new_, leaf), Merge(Get(s.n, leaf), v, m), leaf.width);
  }

  lemma LeafEnds(fields: seq<Field>, path: seq<nat>)
    requires Sound(fields) && IsPath(fields, path)
    ensures var leaf := LeafAt(fields, 0, path); leaf.width > 0 && leaf.start + leaf.width <= 8 * ByteSize(fields)
  {
    LeafInField(fields, 0, path);
    LeafInLayout(fields, path[0]);
  }

  /** Without any mask given on the way, a write handed down to a field sets it to its part of the value if
      it can be written, and leaves it as it was if it is read-only. */
  lemma UnmaskedFieldWrite(fields: seq<Field>, offset: nat, s: Store, path: seq<nat>, w: Write)
    requires Sound(fields) && IsPath(fields, path) && HandedDown(fields, path, w.start) && w.start <= w.end && Unmasked(fields, path)
    requires var leaf := LeafAt(fields, 0, path); 8 * w.start <= leaf.start && leaf.start + leaf.width <= 8 * (w.end + 1)
    requires Contains(s, offset, ByteSize(fields))
    ensures var leaf := LeafAt(fields, offset, path);
            Get(Written(fields, MaskOf(fields, |fields|), offset, s, w).n, leaf)
            == if ReadOnlyAt(fields, path) then Get(s.n, leaf) else Slice(w.value, LeafAt(fields, 0, path).start - 8 * w.start, leaf.width)
  {
    hide Pow2, Slice, MaskOf, Merge, Written, LeafAt, PathMask, MaskAt, Sound;
    var leaf := LeafAt(fields, offset, path);
    var v := Slice(w.value, LeafAt(fields, 0, path).start - 8 * w.start, leaf.width);
    FieldWrite(fields, MaskOf(fields, |fields|), offset, s, path, w);
    UnmaskedLeaf(fields, path);
    OwnMask(fields, path);
    LeafShift(fields, offset, path);
    SliceBound(s.n, leaf.start, leaf.width);
    SliceBound(w.value, LeafAt(fields, 0, path).start - 8 * w.start, leaf.width);
    if ReadOnlyAt(fields, path) {
      MergeNone(Get(s.n, leaf), v);
    } else {
      MergeAll(Get(s.n, leaf), v, leaf.width);
      DivModUnique(v, Pow2(leaf.width), 0, v);
    }
  }

  lemma MergeNone(cur: nat, v: int)
    ensures Merge(cur, v, 0) == cur
  {
    AndZero(0);
  }

  lemma MergeAll(cur: nat, v: int, w: nat)
    requires cur < Pow2(w)
    ensures Merge(cur, v, Pow2(w) - 1) == v % Pow2(w)
  {
    hide Pow2, And;
    AndMask(cur, w);
    AndMask(v, w);
    DivModUnique(cur, Pow2(w), 0, cur);
    AndZero(v % Pow2(w));
  }

  lemma BitOfOnes(i: nat)
    ensures Bit(-1, i)
  {
    DivModUnique(-1, Pow2(i), -1, Pow2(i) - 1);
  }

  // ----- building the masks -----

  function EndBit(fields: seq<Field>, k: nat): nat
    requires k <= |fields|
  {
    if k == 0 then 0 else BitAfter(fields[k - 1], 0)
  }

  lemma {:induction false} MaskOfPrefixBelow(fields: seq<Field>, k: nat)
    requires Sound(fields) && k <= |fields|
    ensures MaskOf(fields, k) < Pow2(EndBit(fields, k))
    decreases k
  {
    if k > 0 {
      hide Pow2, Insert, FieldMask;
      MaskOfPrefixBelow(fields, k - 1);
      LastFieldEnds(fields, k - 1);
      if k > 1 { LastFieldEnds(fields, k - 2); }
      StartOfField(fields, k - 1);
      if k > 1 { StartOfField(fields, k - 2); }
      assert EndBit(fields, k - 1) == Start(fields[k - 1]);
      Pow2Mono(EndBit(fields, k - 1), EndBit(fields, k));
      InsertStaysBelow(MaskOf(fields, k - 1), EndBit(fields, k), Start(fields[k - 1]), Width(fields[k - 1]), FieldMask(fields[k - 1]));
    }
  }

  /** Above everything set so far, or-ing in is inserting. */
  lemma InsertOnTop(m: nat, o: nat, w: nat, v: int)
    requires m < Pow2(o)
    ensures Insert(m, o, w, v) == m + v % Pow2(w) * Pow2(o)
  {
    hide Pow2;
    Pow2Mono(o, o + w);
    DivModUnique(m, Pow2(o), 0, m);
    DivModUnique(m, Pow2(o + w), 0, m);
  }

  /** `_create_bit_field_masks`, before the mask is written into the mask bytes. */
  method CreateBitFieldMasks(fields: seq<Field>) returns (bitmask: nat)
    requires Sound(fields) && HasBits(fields)
    ensures bitmask == MaskOf(fields, |fields|)
  {
    hide Pow2, Insert, And, MaskOf;
    bitmask := 0;
    assert MaskOf(fields, 0) == 0 by { NoMask(fields); }
    for i := 0 to |fields|
      invariant bitmask == MaskOf(fields, i)
    {
      var f := fields[i];
      LastFieldEnds(fields, i);
      MaskOfPrefixBelow(fields, i);
      NextMask(fields, i);
      StartsAtEnd(fields, i);
      var width := f.end - f.start + 1;
      AllOnes(width);
      InsertOnTop(bitmask, f.start, width, if f.readOnly then 0 else -1);
      if !f.readOnly {
        OrHighLow(bitmask, Pow2(width) - 1, f.start);
        bitmask := Or(bitmask, (Pow2(width) - 1) * Pow2(f.start));
      }
    }
  }

  lemma NoMask(fields: seq<Field>)
    ensures MaskOf(fields, 0) == 0
  {}

  lemma NextMask(fields: seq<Field>, k: nat)
    requires k < |fields|
    ensures MaskOf(fields, k + 1) == Insert(MaskOf(fields, k), Start(fields[k]), Width(fields[k]), FieldMask(fields[k]))
  {}

  lemma StartsAtEnd(fields: seq<Field>, k: nat)
    requires FieldsValid(fields) && k < |fields|
    ensures EndBit(fields, k) == Start(fields[k])
  {
    StartOfField(fields, k);
    if k > 0 { StartOfField(fields, k - 1); }
    LastFieldEnds(fields, k);
    if k > 0 { LastFieldEnds(fields, k - 1); }
  }

  /** Masks given for fields fit them. */
  predicate MasksFit(fields: seq<Field>, k: nat)
    requires k <= |fields|
  {
    forall i :: 0 <= i < k && !fields[i].BitField? && fields[i].mask.Some? ==> fields[i].mask.value < Pow2(8 * Length(fields[i]))
  }

  /** `_create_byte_field_mask` and `_create_structure_field_mask` for all fields; `inner` are the mask
      bytes of the structures inside. A mask that does not fit its field raises. */
  method CreateByteFieldMasks(fields: seq<Field>, inner: seq<seq<Byte>>, bitmask: ShareableByteArray) returns (r: Outcome<bool>)
    requires Sound(fields) && !HasBits(fields) && |inner| == |fields|
    requires forall i :: 0 <= i < |fields| && fields[i].StructureField? && fields[i].mask == None ==>
               |inner[i]| == Length(fields[i]) && FromBytes(inner[i]) == MaskOf(fields[i].layout, |fields[i].layout|)
    requires bitmask.offset == 0 && ByteSize(fields) <= |bitmask.data.bytes| && bitmask.Number() == 0
    modifies bitmask.data
    ensures r.Returned? <==> MasksFit(fields, |fields|)
    ensures r.Returned? ==> bitmask.Number() == MaskOf(fields, |fields|)
  {
    hide Pow2, Insert, MaskOf, Sound, FromBytes;
    NoMask(fields);
    for i := 0 to |fields|
      invariant bitmask.Number() == MaskOf(fields, i) && |bitmask.data.bytes| == |old(bitmask.data.bytes)|
      invariant MasksFit(fields, i)
    {
      var f := fields[i];
      SoundIsValid(fields);
      LastFieldEnds(fields, i);
      NextMask(fields, i);
      AllOnes(Width(f));
      if f.StructureField? && f.mask == None {
        bitmask.CopyFrom(inner[i], f.start);
      } else {
        var value := if f.mask.Some? then f.mask.value else if f.readOnly then 0 else Pow2(8 * (f.end - f.start + 1)) - 1;
        r := bitmask.WriteBytes(f.start, f.end, value);
        if r.Raised? { return; }
        if f.mask == None && !f.readOnly {
          DivModUnique(value, Pow2(Width(f)), 0, value);
          InsertCongruent(MaskOf(fields, i), Start(f), Width(f), value, FieldMask(f));
        }
      }
    }
    return Returned(true);
  }

  lemma SoundIsValid(fields: seq<Field>)
    requires Sound(fields)
    ensures FieldsValid(fields)
  {}
}
