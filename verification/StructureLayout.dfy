/** Structures of named fields laid over a shared byte array. */
module StructureLayout {
  import opened Bits
  import opened BitBuffer
  import opened Outcomes

  /** Bit fields count bits, the others bytes; both ends belong to the field. `readOnly` stands for
      the attributes RO and HW_INIT; a `mask` replaces the write mask of the field. */
  datatype Field =
    | BitField(start: nat, end: nat, default: nat, readOnly: bool)
    | ByteField(start: nat, end: nat, default: nat, readOnly: bool, mask: Option<nat>)
    | StructureField(start: nat, end: nat, layout: seq<Field>, default: nat, mask: Option<nat>)

  // ----- which layouts are accepted -----

  predicate OneKind(fields: seq<Field>) {
    (forall i :: 0 <= i < |fields| ==> fields[i].BitField?) || (forall i :: 0 <= i < |fields| ==> !fields[i].BitField?)
  }

  /** Where the field at position `i` has to start. */
  function NextStart(fields: seq<Field>, i: nat): nat
    requires i <= |fields|
  {
    if i == 0 then 0 else fields[i - 1].end + 1
  }

  /** Each of the first `k` fields starts where the one before it ends. */
  predicate ConsecutiveTo(fields: seq<Field>, k: nat)
    requires k <= |fields|
  {
    && (k > 0 ==> fields[0].start == 0)
    && (forall i :: 0 < i < k ==> fields[i].start == fields[i - 1].end + 1)
    && (forall i :: 0 <= i < k ==> fields[i].start <= fields[i].end)
  }

  predicate Consecutive(fields: seq<Field>) {
    ConsecutiveTo(fields, |fields|)
  }

  predicate HasBits(fields: seq<Field>) {
    fields != [] && fields[0].BitField?
  }

  predicate FieldsValid(fields: seq<Field>) {
    && OneKind(fields) && Consecutive(fields)
    && (HasBits(fields) ==> (fields[|fields| - 1].end + 1) % 8 == 0)
  }

  function ByteSize(fields: seq<Field>): nat
    requires FieldsValid(fields)
  {
    var units := if fields == [] then 0 else fields[|fields| - 1].end + 1;
    if HasBits(fields) then units / 8 else units
  }

  /** The layout and all layouts inside it are accepted, and each fits its field. */
  predicate Sound(fields: seq<Field>) {
    && FieldsValid(fields)
    && forall i :: 0 <= i < |fields| && fields[i].StructureField? ==>
         Sound(fields[i].layout) && ByteSize(fields[i].layout) <= fields[i].end - fields[i].start + 1
  }

  lemma StartOfField(fields: seq<Field>, i: nat)
    requires FieldsValid(fields) && i < |fields|
    ensures fields[i].start == NextStart(fields, i) && fields[i].start <= fields[i].end
    ensures HasBits(fields) <==> fields[i].BitField?
  {}

  lemma Ordered(fields: seq<Field>, i: nat, j: nat)
    requires Consecutive(fields) && i < j < |fields|
    ensures fields[i].end < fields[j].start
    decreases j
  {
    if i + 1 < j {
      Ordered(fields, i, j - 1);
    }
  }

  /** A layout whose first fields start in the right places goes on so exactly when the next field does,
      too. */
  lemma NextConsecutive(fields: seq<Field>, i: nat)
    requires i < |fields| && ConsecutiveTo(fields, i)
    ensures ConsecutiveTo(fields, i + 1) <==> fields[i].start == NextStart(fields, i) && fields[i].start <= fields[i].end
    ensures Consecutive(fields) ==> ConsecutiveTo(fields, i + 1)
  {
    if i > 0 {
      assert ConsecutiveTo(fields, i + 1) ==> fields[i].start == fields[i - 1].end + 1;
    }
  }

  /** `_check_if_fields_are_valid`, for fields of fixed size. */
  method CheckIfFieldsAreValid(fields: seq<Field>) returns (r: Outcome<nat>)
    requires fields != []
    ensures r == if FieldsValid(fields) then Returned(fields[|fields| - 1].end) else Raised(Unsupported)
  {
    var oneKind := CheckKinds(fields);
    hide Consecutive, ConsecutiveTo, OneKind;
    if !oneKind {
      return Raised(Unsupported);
    }
    var lastOffset: int := -1;
    NothingConsecutive(fields);
    for i := 0 to |fields|
      invariant lastOffset == NextStart(fields, i) - 1
      invariant ConsecutiveTo(fields, i)
    {
      NextConsecutive(fields, i);
      if fields[i].start != lastOffset + 1 {
        return Raised(Unsupported);
      }
      if fields[i].end < fields[i].start {
        return Raised(Unsupported);
      }
      lastOffset := fields[i].end;
    }
    assert Consecutive(fields) by { WholeConsecutive(fields); }
    if fields[0].BitField? && (lastOffset + 1) % 8 != 0 {
      return Raised(Unsupported);
    }
    return Returned(lastOffset);
  }

  lemma NothingConsecutive(fields: seq<Field>)
    ensures ConsecutiveTo(fields, 0)
  {}

  lemma WholeConsecutive(fields: seq<Field>)
    requires ConsecutiveTo(fields, |fields|)
    ensures Consecutive(fields)
  {}

  /** Bit fields are not mixed with other fields. */
  method CheckKinds(fields: seq<Field>) returns (oneKind: bool)
    ensures oneKind == OneKind(fields)
  {
    var bitFields, otherFields := 0, 0;
    for i := 0 to |fields|
      invariant bitFields >= 0 && otherFields >= 0
      invariant bitFields == 0 <==> forall j :: 0 <= j < i ==> !fields[j].BitField?
      invariant otherFields == 0 <==> forall j :: 0 <= j < i ==> fields[j].BitField?
    {
      if fields[i].BitField? {
        bitFields := bitFields + 1;
      } else {
        otherFields := otherFields + 1;
      }
    }
    oneKind := !(bitFields > 0 && otherFields > 0);
  }

  // ----- leaves -----

  /** A bit range of the array; whole bytes are set by value, bits by truncation. */
  datatype Leaf = Leaf(start: nat, width: nat, bytes: bool)

  /** A path of field positions down to a bit or byte field. */
  predicate IsPath(fields: seq<Field>, path: seq<nat>)
    decreases |path|
  {
    && path != [] && path[0] < |fields|
    && if fields[path[0]].StructureField? then IsPath(fields[path[0]].layout, path[1..]) else |path| == 1
  }

  /** Where the field at `path` lies, for a structure at byte `offset`. */
  function LeafAt(fields: seq<Field>, offset: nat, path: seq<nat>): Leaf
    requires Sound(fields) && IsPath(fields, path)
    decreases |path|
  {
    var f := fields[path[0]];
    match f
    case BitField(start, end, _, _) => Leaf(8 * offset + start, end - start + 1, false)
    case ByteField(start, end, _, _, _) => Leaf(8 * (offset + start), 8 * (end - start + 1), true)
    case StructureField(start, _, layout, _, _) => LeafAt(layout, offset + start, path[1..])
  }

  predicate Disjoint(a: Leaf, b: Leaf) {
    a.start + a.width <= b.start || b.start + b.width <= a.start
  }

  /** The bits of a field of a structure at byte `offset`. */
  function FirstBit(f: Field, offset: nat): nat {
    8 * offset + if f.BitField? then f.start else 8 * f.start
  }

  function BitAfter(f: Field, offset: nat): nat {
    8 * offset + if f.BitField? then f.end + 1 else 8 * (f.end + 1)
  }

  lemma {:induction false} LeafInField(fields: seq<Field>, offset: nat, path: seq<nat>)
    requires Sound(fields) && IsPath(fields, path)
    ensures var leaf, f := LeafAt(fields, offset, path), fields[path[0]];
            FirstBit(f, offset) <= leaf.start && leaf.start + leaf.width <= BitAfter(f, offset) && leaf.width > 0
    decreases |path|
  {
    var f := fields[path[0]];
    if f.StructureField? {
      LeafInField(f.layout, offset + f.start, path[1..]);
      LeafInLayout(f.layout, path[1]);
    }
  }

  /** A field ends where the layout ends, or before. */
  lemma LeafInLayout(fields: seq<Field>, i: nat)
    requires Sound(fields) && i < |fields|
    ensures BitAfter(fields[i], 0) <= 8 * ByteSize(fields)
  {
    if i + 1 < |fields| {
      Ordered(fields, i, |fields| - 1);
    }
  }

  /** Different leaves of a layout do not overlap, however deep they lie. */
  lemma {:induction false} LeavesDisjoint(fields: seq<Field>, offset: nat, p: seq<nat>, q: seq<nat>)
    requires Sound(fields) && IsPath(fields, p) && IsPath(fields, q) && p != q
    ensures Disjoint(LeafAt(fields, offset, p), LeafAt(fields, offset, q))
    decreases |p|
  {
    var i, j := p[0], q[0];
    if i == j {
      var f := fields[i];
      if f.StructureField? {
        LeavesDisjoint(f.layout, offset + f.start, p[1..], q[1..]);
      }
    } else {
      LeafInField(fields, offset, p);
      LeafInField(fields, offset, q);
      Ordered(fields, if i < j then i else j, if i < j then j else i);
    }
  }

  /** Every structure inside fills its field. */
  predicate Exact(fields: seq<Field>)
    requires Sound(fields)
  {
    forall i :: 0 <= i < |fields| && fields[i].StructureField? ==>
      && Sound(fields[i].layout)
      && ByteSize(fields[i].layout) == fields[i].end - fields[i].start + 1
      && Exact(fields[i].layout)
  }

  /** Then the leaves tile the buffer: every bit is in one. */
  lemma {:induction false} LeavesCover(fields: seq<Field>, offset: nat, bit: nat) returns (path: seq<nat>)
    requires Sound(fields) && Exact(fields) && 8 * offset <= bit < 8 * (offset + ByteSize(fields))
    ensures IsPath(fields, path)
    ensures var leaf := LeafAt(fields, offset, path); leaf.start <= bit < leaf.start + leaf.width
    decreases fields
  {
    var i := FieldOfBit(fields, offset, bit, |fields| - 1);
    var f := fields[i];
    if f.StructureField? {
      var rest := LeavesCover(f.layout, offset + f.start, bit);
      path := [i] + rest;
      assert path[1..] == rest;
    } else {
      path := [i];
    }
  }

  lemma {:induction false} FieldOfBit(fields: seq<Field>, offset: nat, bit: nat, last: nat) returns (i: nat)
    requires Sound(fields) && last < |fields| && 8 * offset <= bit < BitAfter(fields[last], offset)
    ensures i < |fields| && FirstBit(fields[i], offset) <= bit < BitAfter(fields[i], offset)
    decreases last
  {
    if FirstBit(fields[last], offset) <= bit {
      i := last;
    } else {
      StartOfField(fields, last);
      i := FieldOfBit(fields, offset, bit, last - 1);
    }
  }

  // ----- setting and reading leaves of the integer -----

  function Get(n: nat, leaf: Leaf): nat {
    Slice(n, leaf.start, leaf.width)
  }

  function Set(n: nat, leaf: Leaf, v: int): int {
    Insert(n, leaf.start, leaf.width, v)
  }

  /** The record law: after setting one leaf, that leaf reads as the value and every other leaf as
      before. */
  lemma RecordLaw(fields: seq<Field>, offset: nat, p: seq<nat>, q: seq<nat>, n: nat, v: int)
    requires Sound(fields) && IsPath(fields, p) && IsPath(fields, q)
    ensures var leaf := LeafAt(fields, offset, p);
            && Set(n, leaf, v) >= 0
            && Get(Set(n, leaf, v), LeafAt(fields, offset, q)) ==
                 if p == q then v % Pow2(leaf.width) else Get(n, LeafAt(fields, offset, q))
  {
    hide Insert, Slice, Pow2;
    var a, b := LeafAt(fields, offset, p), LeafAt(fields, offset, q);
    SliceOfInsert(n, a.start, a.width, v);
    if p != q {
      LeavesDisjoint(fields, offset, p, q);
      InsertFrame(n, a.start, a.width, v, b.start, b.width);
    }
  }

  // ----- defaults -----

  function Length(f: Field): nat {
    if f.start <= f.end then f.end - f.start + 1 else 0
  }

  /** The array after the default of a field of a structure at byte `offset`. */
  function WithDefault(f: Field, offset: nat, n: nat): (r: Outcome<int>)
    ensures r.Returned? ==> r.value >= 0
    decreases f
  {
    match f
    case BitField(start, _, default, _) =>
      InsertParts(n, 8 * offset + start, Length(f), default);
      Returned(Insert(n, 8 * offset + start, Length(f), default))
    case ByteField(start, _, default, _, _) => WithBytes(n, offset + start, Length(f), default)
    case StructureField(start, _, layout, default, _) =>
      match Defaults(layout, |layout|, offset + start, n)
      case Raised(e) => Raised(e)
      case Returned(m) => WithBytes(m, offset + start, Length(f), default)
  }

  /** The array after the defaults of the first `k` fields. */
  function Defaults(fields: seq<Field>, k: nat, offset: nat, n: nat): (r: Outcome<int>)
    requires k <= |fields|
    ensures r.Returned? ==> r.value >= 0
    decreases fields, k
  {
    if k == 0 then Returned(n)
    else
      match Defaults(fields, k - 1, offset, n)
      case Raised(e) => Raised(e)
      case Returned(m) => WithDefault(fields[k - 1], offset, m)
  }

  lemma {:induction false} FailureStays(fields: seq<Field>, k: nat, offset: nat, n: nat)
    requires k <= |fields| && Defaults(fields, k, offset, n).Raised?
    ensures Defaults(fields, |fields|, offset, n).Raised?
    decreases |fields| - k
  {
    if k < |fields| {
      FailureStays(fields, k + 1, offset, n);
    }
  }

  function WithBytes(n: nat, first: nat, length: nat, v: nat): (r: Outcome<int>)
    ensures r.Returned? ==> r.value >= 0
  {
    if v == 0 then Returned(n)
    else if v >= Pow2(8 * length) then Raised(OverflowError)
    else
      InsertParts(n, 8 * first, 8 * length, v);
      Returned(Insert(n, 8 * first, 8 * length, v))
  }

  // ----- what a structure reads as when it is built -----

  /** All defaults fit their fields. Bit fields take the low bits of any default. */
  predicate DefaultsFit(fields: seq<Field>) {
    forall i :: 0 <= i < |fields| ==> DefaultFits(fields[i])
  }

  predicate DefaultFits(f: Field) {
    match f
    case BitField(_, _, _, _) => true
    case ByteField(_, _, default, _, _) => default < Pow2(8 * Length(f))
    case StructureField(_, _, layout, default, _) => default < Pow2(8 * Length(f)) && DefaultsFit(layout)
  }

  lemma {:induction false} DefaultsFailIff(fields: seq<Field>, k: nat, offset: nat, n: nat)
    requires k <= |fields|
    ensures Defaults(fields, k, offset, n).Returned? <==> forall i :: 0 <= i < k ==> DefaultFits(fields[i])
    decreases fields, k
  {
    hide Insert, Pow2;
    if k > 0 {
      DefaultsFailIff(fields, k - 1, offset, n);
      if Defaults(fields, k - 1, offset, n).Returned? {
        var f := fields[k - 1];
        if f.StructureField? {
          DefaultsFailIff(f.layout, |f.layout|, offset + f.start, Defaults(fields, k - 1, offset, n).value);
        }
      }
    }
  }

  /** What the default of the leaf at `path`, or of a structure around it, makes the leaf read; none of
      them, if they are 0. The outermost structure comes last, and bit fields are always written. */
  function Initial(fields: seq<Field>, path: seq<nat>): Option<nat>
    requires Sound(fields) && IsPath(fields, path)
    decreases |path|
  {
    match fields[path[0]]
    case BitField(start, end, default, _) => Some(default % Pow2(end - start + 1))
    case ByteField(_, _, default, _, _) => if default > 0 then Some(default) else None
    case StructureField(_, _, layout, default, _) =>
      if default > 0 then Some(Get(default, LeafAt(layout, 0, path[1..]))) else Initial(layout, path[1..])
  }

  function OrElse(v: Option<nat>, other: nat): nat {
    match v
    case None => other
    case Some(x) => x
  }

  /** Every leaf of the array `m` reads its default, or as it read in `n` if it has none. */
  ghost predicate Initialised(fields: seq<Field>, offset: nat, n: nat, m: nat)
    requires Sound(fields)
  {
    forall path: seq<nat> :: IsPath(fields, path) ==>
      Get(m, LeafAt(fields, offset, path)) == OrElse(Initial(fields, path), Get(n, LeafAt(fields, offset, path)))
  }

  /** The same for one field. */
  ghost predicate FieldInitialised(f: Field, offset: nat, n: nat, m: nat) {
    match f
    case BitField(start, _, default, _) => Slice(m, 8 * offset + start, Length(f)) == default % Pow2(Length(f))
    case ByteField(start, _, default, _, _) =>
      Slice(m, 8 * (offset + start), 8 * Length(f)) == if default > 0 then default else Slice(n, 8 * (offset + start), 8 * Length(f))
    case StructureField(start, _, layout, default, _) =>
      if default > 0 then Slice(m, 8 * (offset + start), 8 * Length(f)) == default
      else Sound(layout) && Initialised(layout, offset + start, n, m)
  }

  predicate SoundField(f: Field) {
    && f.start <= f.end
    && (f.StructureField? ==> Sound(f.layout) && ByteSize(f.layout) <= Length(f))
  }

  /** The slice has no bit of the field. */
  predicate Outside(f: Field, offset: nat, p: nat, u: nat) {
    p + u <= FirstBit(f, offset) || BitAfter(f, offset) <= p
  }

  lemma {:induction false} WithDefaultFrame(f: Field, offset: nat, n: nat, p: nat, u: nat)
    requires SoundField(f) && Outside(f, offset, p, u) && WithDefault(f, offset, n).Returned?
    ensures Slice(WithDefault(f, offset, n).value, p, u) == Slice(n, p, u)
    decreases f, 0
  {
    hide Insert, Slice, Pow2, Sound, ByteSize;
    var first, length := 8 * (offset + f.start), 8 * Length(f);
    match f
    case BitField(start, _, default, _) => InsertFrame(n, 8 * offset + start, Length(f), default, p, u);
    case ByteField(_, _, default, _, _) => InsertFrame(n, first, length, default, p, u);
    case StructureField(start, _, layout, default, _) =>
      var m := Defaults(layout, |layout|, offset + start, n).value;
      forall i | 0 <= i < |layout| ensures Outside(layout[i], offset + start, p, u) {
        LeafInLayout(layout, i);
      }
      DefaultsFrame(layout, |layout|, offset + start, n, p, u);
      InsertFrame(m, first, length, default, p, u);
  }

  /** The defaults change no bit outside their fields. */
  lemma {:induction false} DefaultsFrame(fields: seq<Field>, k: nat, offset: nat, n: nat, p: nat, u: nat)
    requires Sound(fields) && k <= |fields| && Defaults(fields, k, offset, n).Returned?
    requires forall i :: 0 <= i < k ==> Outside(fields[i], offset, p, u)
    ensures Slice(Defaults(fields, k, offset, n).value, p, u) == Slice(n, p, u)
    decreases fields, k
  {
    hide WithDefault, Slice, Outside, ByteSize;
    if k > 0 {
      DefaultsFrame(fields, k - 1, offset, n, p, u);
      SoundOfField(fields, k - 1);
      WithDefaultFrame(fields[k - 1], offset, Defaults(fields, k - 1, offset, n).value, p, u);
    }
  }

  lemma SoundOfField(fields: seq<Field>, i: nat)
    requires Sound(fields) && i < |fields|
    ensures SoundField(fields[i])
  {
    StartOfField(fields, i);
  }

  lemma {:induction false} LeafShift(fields: seq<Field>, offset: nat, path: seq<nat>)
    requires Sound(fields) && IsPath(fields, path)
    ensures var leaf, rel := LeafAt(fields, offset, path), LeafAt(fields, 0, path);
            leaf.start == 8 * offset + rel.start && leaf.width == rel.width
    decreases |path|
  {
    var f := fields[path[0]];
    if f.StructureField? {
      LeafShift(f.layout, offset + f.start, path[1..]);
      LeafShift(f.layout, f.start, path[1..]);
    }
  }

  /** A leaf of a structure that is written whole reads its part of the value. */
  lemma LeafOfWhole(f: Field, offset: nat, n: nat, path: seq<nat>)
    requires f.StructureField? && SoundField(f) && IsPath(f.layout, path) && f.default < Pow2(8 * Length(f))
    ensures var leaf := LeafAt(f.layout, offset + f.start, path);
            && Insert(n, 8 * (offset + f.start), 8 * Length(f), f.default) >= 0
            && Get(Insert(n, 8 * (offset + f.start), 8 * Length(f), f.default), leaf) == Get(f.default, LeafAt(f.layout, 0, path))
  {
    hide Insert, Slice, Pow2, Sound, ByteSize;
    var first, length := 8 * (offset + f.start), 8 * Length(f);
    var rel := LeafAt(f.layout, 0, path);
    LeafShift(f.layout, offset + f.start, path);
    LeafInField(f.layout, 0, path);
    LeafInLayout(f.layout, path[0]);
    SliceOfInsert(n, first, length, f.default);
    SliceSlice(Insert(n, first, length, f.default), first, length, rel.start, rel.width);
    DivModUnique(f.default, Pow2(length), 0, f.default);
  }

  /** After its own default, a field reads it. */
  lemma {:induction false} FieldReadBack(fields: seq<Field>, offset: nat, n: nat, path: seq<nat>)
    requires Sound(fields) && IsPath(fields, path) && WithDefault(fields[path[0]], offset, n).Returned?
    ensures Get(WithDefault(fields[path[0]], offset, n).value, LeafAt(fields, offset, path))
         == OrElse(Initial(fields, path), Get(n, LeafAt(fields, offset, path)))
    decreases |path|, 0
  {
    hide Insert, Slice, Pow2, ByteSize;
    var f := fields[path[0]];
    SoundOfField(fields, path[0]);
    match f
    case BitField(start, _, default, _) => SliceOfInsert(n, 8 * offset + start, Length(f), default);
    case ByteField(start, _, default, _, _) =>
      SliceOfInsert(n, 8 * (offset + start), 8 * Length(f), default);
      if default > 0 { DivModUnique(default, Pow2(8 * Length(f)), 0, default); }
    case StructureField(start, _, layout, default, _) =>
      DefaultsReadBack(layout, |layout|, offset + start, n, path[1..]);
      if default > 0 {
        LeafOfWhole(f, offset, Defaults(layout, |layout|, offset + start, n).value, path[1..]);
      }
  }

  /** The law of defaults: once the fields up to that of a leaf have theirs, the leaf reads what its
      default or that of the outermost structure around it with one says, and else as before. */
  lemma {:induction false} DefaultsReadBack(fields: seq<Field>, k: nat, offset: nat, n: nat, path: seq<nat>)
    requires Sound(fields) && IsPath(fields, path) && path[0] < k <= |fields| && Defaults(fields, k, offset, n).Returned?
    ensures Get(Defaults(fields, k, offset, n).value, LeafAt(fields, offset, path))
         == OrElse(Initial(fields, path), Get(n, LeafAt(fields, offset, path)))
    decreases |path|, k
  {
    hide WithDefault, Slice, Initial, ByteSize;
    var leaf, m := LeafAt(fields, offset, path), Defaults(fields, k - 1, offset, n).value;
    LeafInField(fields, offset, path);
    if path[0] == k - 1 {
      forall i | 0 <= i < k - 1 ensures Outside(fields[i], offset, leaf.start, leaf.width) {
        Ordered(fields, i, k - 1);
      }
      DefaultsFrame(fields, k - 1, offset, n, leaf.start, leaf.width);
      FieldReadBack(fields, offset, m, path);
    } else {
      DefaultsReadBack(fields, k - 1, offset, n, path);
      Ordered(fields, path[0], k - 1);
      SoundOfField(fields, k - 1);
      WithDefaultFrame(fields[k - 1], offset, m, leaf.start, leaf.width);
    }
  }

  lemma AllReadBack(fields: seq<Field>, offset: nat, n: nat)
    requires Sound(fields) && Defaults(fields, |fields|, offset, n).Returned?
    ensures Initialised(fields, offset, n, Defaults(fields, |fields|, offset, n).value)
  {
    hide Defaults, Slice, Initial, Sound;
    forall path: seq<nat> | IsPath(fields, path)
      ensures Get(Defaults(fields, |fields|, offset, n).value, LeafAt(fields, offset, path))
           == OrElse(Initial(fields, path), Get(n, LeafAt(fields, offset, path)))
    {
      DefaultsReadBack(fields, |fields|, offset, n, path);
    }
  }

  lemma FieldAllReadBack(f: Field, offset: nat, n: nat)
    requires SoundField(f) && WithDefault(f, offset, n).Returned?
    ensures FieldInitialised(f, offset, n, WithDefault(f, offset, n).value)
  {
    hide Insert, Slice, Pow2, Sound, ByteSize, Initialised;
    match f
    case BitField(start, _, default, _) => SliceOfInsert(n, 8 * offset + start, Length(f), default);
    case ByteField(start, _, default, _, _) =>
      SliceOfInsert(n, 8 * (offset + start), 8 * Length(f), default);
      if default > 0 { DivModUnique(default, Pow2(8 * Length(f)), 0, default); }
    case StructureField(start, _, layout, default, _) =>
      if default > 0 {
        SliceOfInsert(Defaults(layout, |layout|, offset + start, n).value, 8 * (offset + start), 8 * Length(f), default);
        DivModUnique(default, Pow2(8 * Length(f)), 0, default);
      } else {
        AllReadBack(layout, offset + start, n);
      }
  }

  // ----- structures -----

  /** The object of a structure field. */
  ghost predicate Inner(f: Field, view: ShareableByteArray, s: UnalignedBitStructure?)
    requires f.StructureField?
  {
    && s != null && s.fields == f.layout && s.view.data == view.data
    && s.view.offset == view.offset + f.start && s.view.size == Length(f) && s.Valid()
  }

  lemma LastFieldEnds(fields: seq<Field>, i: nat)
    requires FieldsValid(fields) && i < |fields|
    ensures fields[i].start <= fields[i].end
    ensures HasBits(fields) ==> fields[i].BitField? && fields[i].end < 8 * ByteSize(fields)
    ensures !HasBits(fields) ==> !fields[i].BitField? && fields[i].end < ByteSize(fields)
  {
    if i + 1 < |fields| {
      Ordered(fields, i, |fields| - 1);
    }
  }

  /** A structure object: a view of the shared array, and one structure object for each structure
      field, with its own view of the same array. */
  class UnalignedBitStructure {
    const fields: seq<Field>
    const view: ShareableByteArray
    const nested: seq<UnalignedBitStructure?>

    ghost predicate Valid()
      decreases fields
    {
      && Sound(fields) && ByteSize(fields) <= view.size && |nested| == |fields|
      && forall i :: 0 <= i < |fields| && fields[i].StructureField? ==>
           && nested[i] != null
           && nested[i].fields == fields[i].layout
           && nested[i].view.data == view.data
           && nested[i].view.offset == view.offset + fields[i].start
           && nested[i].view.size == Length(fields[i])
           && nested[i].Valid()
    }

    /** The store has all bytes of the view. */
    predicate Backed()
      reads view.data
    {
      view.offset + view.size <= |view.data.bytes|
    }

    /** `_add_bit_field`, `_add_byte_field`, `_add_structured_field` */
    static method AddField(f: Field, view: ShareableByteArray) returns (r: Outcome<UnalignedBitStructure?>)
      requires f.start <= f.end && 0 < view.size
      requires view.offset + (if f.BitField? then f.end / 8 else f.end) < |view.data.bytes|
      modifies view.data
      ensures var written := WithDefault(f, view.offset, old(view.Number()));
              && (r.Returned? <==> written.Returned? && (f.StructureField? ==> Sound(f.layout) && ByteSize(f.layout) <= Length(f)))
              && (r.Returned? ==> view.Number() == written.value && |view.data.bytes| == |old(view.data.bytes)|)
      ensures r.Returned? ==> FieldInitialised(f, view.offset, old(view.Number()), view.Number())
      ensures r.Returned? && f.StructureField? ==> Inner(f, view, r.value)
      decreases f
    {
      hide Insert, Pow2, Sound, Slice, Initialised, FieldInitialised;
      ghost var written := WithDefault(f, view.offset, view.Number());
      if SoundField(f) && written.Returned? {
        FieldAllReadBack(f, view.offset, view.Number());
      }
      if f.BitField? {
        view.WriteBits(f.start, f.end - f.start + 1, f.default);
      } else if f.ByteField? {
        if f.default > 0 {
          var w := view.WriteBytes(f.start, f.end, f.default);
          if w.Raised? { return Raised(w.error); }
        }
      } else {
        var inner := new ShareableByteArray.Shared(f.end - f.start + 1, view, view.offset + f.start);
        var b := Build(f.layout, inner);
        if b.Raised? { return Raised(b.error); }
        if f.default > 0 {
          var w := inner.WriteBytes(0, f.end - f.start, f.default);
          if w.Raised? { return Raised(w.error); }
        }
        return Returned(b.value);
      }
      return Returned(null);
    }

    /** `__init__` on a given view: check the layout, build the structures inside, and write the
        defaults in the order of the fields. */
    static method Build(fields: seq<Field>, view: ShareableByteArray) returns (r: Outcome<UnalignedBitStructure>)
      requires view.offset + view.size <= |view.data.bytes|
      modifies view.data
      ensures var written := Defaults(fields, |fields|, view.offset, old(view.Number()));
              && (r.Returned? <==> Sound(fields) && ByteSize(fields) <= view.size && written.Returned?)
              && (r.Returned? ==> view.Number() == written.value && |view.data.bytes| == |old(view.data.bytes)|)
      ensures r.Returned? <==> Sound(fields) && ByteSize(fields) <= view.size && DefaultsFit(fields)
      ensures r.Returned? ==> Initialised(fields, view.offset, old(view.Number()), view.Number())
      ensures r.Returned? ==> r.value.Valid() && r.value.fields == fields && r.value.view == view
      decreases fields
    {
      hide WithDefault, Initialised, DefaultFits, FieldInitialised;
      DefaultsFailIff(fields, |fields|, view.offset, view.Number());
      if fields != [] {
        var last := CheckIfFieldsAreValid(fields);
        if last.Raised? {
          return Raised(last.error);
        }
        if (if fields[0].BitField? then last.value >= 8 * view.size else last.value >= view.size) {
          return Raised(Unsupported);
        }
      }
      var nested: seq<UnalignedBitStructure?> := [];
      ghost var n := view.Number();
      for i := 0 to |fields|
        invariant |nested| == i && |view.data.bytes| == |old(view.data.bytes)|
        invariant Defaults(fields, i, view.offset, n) == Returned(view.Number())
        invariant forall j :: 0 <= j < i && fields[j].StructureField? ==>
                    Inner(fields[j], view, nested[j]) && Sound(fields[j].layout) && ByteSize(fields[j].layout) <= Length(fields[j])
      {
        LastFieldEnds(fields, i);
        var added := AddField(fields[i], view);
        if added.Raised? {
          if Defaults(fields, i + 1, view.offset, n).Raised? {
            FailureStays(fields, i + 1, view.offset, n);
          }
          return Raised(added.error);
        }
        nested := nested + [added.value];
      }
      AllReadBack(fields, view.offset, n);
      var s := new UnalignedBitStructure(fields, view, nested);
      return Returned(s);
    }

    constructor (fields: seq<Field>, view: ShareableByteArray, nested: seq<UnalignedBitStructure?>)
      ensures this.fields == fields && this.view == view && this.nested == nested
    {
      this.fields := fields;
      this.view := view;
      this.nested := nested;
    }

    /** Assign to the leaf at `path`. */
    method SetLeaf(path: seq<nat>, value: int) returns (r: Outcome<bool>)
      requires Valid() && Backed() && IsPath(fields, path)
      modifies view.data
      ensures var leaf := LeafAt(fields, view.offset, path);
              && r == (if leaf.bytes && !(0 <= value < Pow2(leaf.width)) then Raised(OverflowError) else Returned(true))
              && view.Number() == (if r.Returned? then Set(old(view.Number()), leaf, value) else old(view.Number()))
              && |view.data.bytes| == |old(view.data.bytes)|
      decreases |path|
    {
      hide Insert, Pow2;
      var f := fields[path[0]];
      LeafInLayout(fields, path[0]);
      match f
      case BitField(start, end, _, _) =>
        view.WriteBits(start, end - start + 1, value);
        r := Returned(true);
      case ByteField(start, end, _, _, _) =>
        r := view.WriteBytes(start, end, value);
      case StructureField(_, _, _, _, _) =>
        r := nested[path[0]].SetLeaf(path[1..], value);
    }

    method GetLeaf(path: seq<nat>) returns (value: nat)
      requires Valid() && Backed() && IsPath(fields, path)
      ensures value == Get(view.Number(), LeafAt(fields, view.offset, path))
      decreases |path|
    {
      hide Slice, Pow2;
      var f := fields[path[0]];
      LeafInLayout(fields, path[0]);
      match f
      case BitField(start, end, _, _) =>
        value := view.ReadBits(start, end - start + 1);
      case ByteField(start, end, _, _, _) =>
        value := view.ReadBytes(start, end);
      case StructureField(_, _, _, _, _) =>
        value := nested[path[0]].GetLeaf(path[1..]);
    }
  }
}
