/** The set-associative write-back cache of a device, with the coroutines of its load and store
    cut at the points where they wait for the coherency agent. */
module DeviceCache {
  import opened Bits
  import opened CoherenceTypes
  import opened Outcomes

  datatype CacheBlock = CacheBlock(state: CacheState, tag: nat, priority: nat, data: nat)

  const BLK_BIT: nat := 6
  const BLK_SIZE: nat := 64

  // ----- addresses -----

  /** A line, as the cache names it. */
  datatype Line = Line(index: nat, tag: nat)

  function LineOf(numSet: nat, a: nat): (line: Line)
    requires numSet > 0
    ensures line.index < numSet
  {
    Line((a / BLK_SIZE) % numSet, (a / BLK_SIZE) / numSet)
  }

  function AddrOf(numSet: nat, line: Line): nat {
    (line.tag * numSet + line.index) * BLK_SIZE
  }

  predicate Aligned(a: nat) {
    a % BLK_SIZE == 0
  }

  /** The first address of the line an address lies in. */
  function LineStart(a: nat): (start: nat)
    ensures Aligned(start) && start <= a < start + BLK_SIZE
  {
    a / BLK_SIZE * BLK_SIZE
  }

  lemma LineStartFacts(numSet: nat, a: nat)
    requires numSet > 0
    ensures LineOf(numSet, LineStart(a)) == LineOf(numSet, a)
    ensures Aligned(a) <==> LineStart(a) == a
  {
    assert LineStart(a) / BLK_SIZE == a / BLK_SIZE;
  }

  /** Tag and set identify the line: address split and reassembly are inverse. */
  lemma SplitAndReassemble(numSet: nat, a: nat)
    requires numSet > 0 && Aligned(a)
    ensures AddrOf(numSet, LineOf(numSet, a)) == a
  {
    var line := a / BLK_SIZE;
    assert line == line / numSet * numSet + line % numSet;
  }

  lemma ReassembleAndSplit(numSet: nat, line: Line)
    requires line.index < numSet
    ensures Aligned(AddrOf(numSet, line)) && LineOf(numSet, AddrOf(numSet, line)) == line
  {
    DivModUnique((line.tag * numSet + line.index) * 64, 64, line.tag * numSet + line.index, 0);
    DivModUnique(line.tag * numSet + line.index, numSet, line.tag, line.index);
  }

  // ----- recency -----

  /** When `b` was last touched. */
  function LastTouch<T(==)>(log: seq<T>, b: T): (t: nat)
    requires b in log
    ensures t < |log| && log[t] == b
    ensures forall i :: t < i < |log| ==> log[i] != b
  {
    if log[|log| - 1] == b then |log| - 1 else LastTouch(log[..|log| - 1], b)
  }

  lemma LastTouchAppend<T>(log: seq<T>, x: T, b: T)
    requires b == x || b in log
    ensures b in log + [x]
    ensures LastTouch(log + [x], b) == if b == x then |log| else LastTouch(log, b)
  {
    assert (log + [x])[..|log|] == log;
    assert (log + [x])[|log|] == x;
  }

  /** Priorities are the times of the last touch. */
  predicate Recency(blocks: seq<CacheBlock>, counter: nat, log: seq<nat>) {
    && counter == |log|
    && forall b :: 0 <= b < |blocks| && blocks[b].state != Invalid ==>
         b in log && blocks[b].priority == LastTouch(log, b)
  }

  lemma TouchKeepsRecency(blocks: seq<CacheBlock>, counter: nat, log: seq<nat>, b: nat, block: CacheBlock)
    requires Recency(blocks, counter, log) && b < |blocks|
    requires block.state != Invalid ==> block.priority == counter
    ensures Recency(blocks[b := block], counter + 1, log + [b])
  {
    forall i | 0 <= i < |blocks| && blocks[b := block][i].state != Invalid
      ensures i in log + [b] && blocks[b := block][i].priority == LastTouch(log + [b], i)
    {
      LastTouchAppend(log, b, i);
    }
  }

  /** Valid blocks have distinct priorities below the counter of their set. */
  lemma PrioritiesDistinct(blocks: seq<CacheBlock>, counter: nat, log: seq<nat>, b: nat, c: nat)
    requires Recency(blocks, counter, log) && b < |blocks| && c < |blocks| && b != c
    requires blocks[b].state != Invalid && blocks[c].state != Invalid
    ensures blocks[b].priority != blocks[c].priority && blocks[b].priority < counter
  {
    assert log[LastTouch(log, b)] == b && log[LastTouch(log, c)] == c;
  }

  /** Block `blk` was last touched before any other one. */
  predicate LeastRecent(log: seq<nat>, count: nat, blk: nat) {
    forall b :: 0 <= b < count && b != blk ==> blk in log && b in log && LastTouch(log, blk) < LastTouch(log, b)
  }

  lemma LeastIsLeastRecent(blocks: seq<CacheBlock>, counter: nat, log: seq<nat>, blk: nat)
    requires Recency(blocks, counter, log) && blk < |blocks|
    requires forall b :: 0 <= b < |blocks| ==> blocks[b].state != Invalid && blocks[blk].priority <= blocks[b].priority
    ensures LeastRecent(log, |blocks|, blk)
  {
    forall b | 0 <= b < |blocks| && b != blk
      ensures blk in log && b in log && LastTouch(log, blk) < LastTouch(log, b)
    {
      PrioritiesDistinct(blocks, counter, log, blk, b);
    }
  }

  // ----- the blocks and the lines they hold -----

  type Blocks = seq<seq<CacheBlock>>

  function Put(cache: Blocks, s: nat, b: nat, block: CacheBlock): Blocks
    requires s < |cache| && b < |cache[s]|
  {
    cache[s := cache[s][b := block]]
  }

  predicate Shape(numSet: nat, numAssoc: nat, cache: Blocks) {
    |cache| == numSet && forall s :: 0 <= s < numSet ==> |cache[s]| == numAssoc
  }

  /** `slot` gives the way of each cached line; a valid block holds exactly one line, and a line is
      in at most one block of its set. */
  predicate SlotsAgree(numSet: nat, numAssoc: nat, cache: Blocks, slot: map<Line, nat>) {
    && Shape(numSet, numAssoc, cache)
    && (forall line :: line in slot ==>
          && line.index < numSet && slot[line] < numAssoc
          && cache[line.index][slot[line]].state != Invalid
          && cache[line.index][slot[line]].tag == line.tag)
    && (forall s, b :: 0 <= s < numSet && 0 <= b < numAssoc && cache[s][b].state != Invalid ==>
          Line(s, cache[s][b].tag) in slot && slot[Line(s, cache[s][b].tag)] == b)
  }

  /** No two valid blocks of a set have the same tag. */
  lemma TagsUnique(numSet: nat, numAssoc: nat, cache: Blocks, slot: map<Line, nat>, s: nat, b: nat, c: nat)
    requires SlotsAgree(numSet, numAssoc, cache, slot) && s < numSet && b < numAssoc && c < numAssoc
    requires cache[s][b].state != Invalid && cache[s][c].state != Invalid
    requires cache[s][b].tag == cache[s][c].tag
    ensures b == c
  {
    assert slot[Line(s, cache[s][b].tag)] == b;
  }

  predicate InSets(numSet: nat, lines: map<Line, Copy>) {
    forall line :: line in lines ==> line.index < numSet
  }

  /** The lines in the cache, with their state and data. */
  function Held(numSet: nat, numAssoc: nat, cache: Blocks, slot: map<Line, nat>): (lines: map<Line, Copy>)
    requires SlotsAgree(numSet, numAssoc, cache, slot)
    ensures InSets(numSet, lines)
    ensures lines.Keys == slot.Keys
    ensures forall line :: line in lines ==> lines[line].state != Invalid
  {
    map line | line in slot :: Copy(cache[line.index][slot[line]].state, cache[line.index][slot[line]].data)
  }

  /** Changing the priority, the data or the valid state of a block moves no line. */
  lemma RewriteKeepsSlots(numSet: nat, numAssoc: nat, cache: Blocks, slot: map<Line, nat>, s: nat, b: nat, block: CacheBlock)
    requires SlotsAgree(numSet, numAssoc, cache, slot) && s < numSet && b < numAssoc
    requires block.tag == cache[s][b].tag && (block.state == Invalid <==> cache[s][b].state == Invalid)
    ensures SlotsAgree(numSet, numAssoc, Put(cache, s, b, block), slot)
  {}

  /** Invalidating a block removes exactly its line. */
  lemma InvalidateRemovesLine(numSet: nat, numAssoc: nat, cache: Blocks, slot: map<Line, nat>, line: Line, block: CacheBlock)
    requires SlotsAgree(numSet, numAssoc, cache, slot) && line in slot && block.state == Invalid
    ensures SlotsAgree(numSet, numAssoc, Put(cache, line.index, slot[line], block), slot - {line})
    ensures Held(numSet, numAssoc, Put(cache, line.index, slot[line], block), slot - {line})
         == Held(numSet, numAssoc, cache, slot) - {line}
  {
    InvalidatedSlots(numSet, numAssoc, cache, slot, line, block);
    InvalidatedHeld(numSet, numAssoc, cache, slot, line, block);
  }

  lemma InvalidatedSlots(numSet: nat, numAssoc: nat, cache: Blocks, slot: map<Line, nat>, line: Line, block: CacheBlock)
    requires SlotsAgree(numSet, numAssoc, cache, slot) && line in slot && block.state == Invalid
    ensures SlotsAgree(numSet, numAssoc, Put(cache, line.index, slot[line], block), slot - {line})
  {}

  lemma InvalidatedHeld(numSet: nat, numAssoc: nat, cache: Blocks, slot: map<Line, nat>, line: Line, block: CacheBlock)
    requires SlotsAgree(numSet, numAssoc, cache, slot) && line in slot && block.state == Invalid
    requires SlotsAgree(numSet, numAssoc, Put(cache, line.index, slot[line], block), slot - {line})
    ensures Held(numSet, numAssoc, Put(cache, line.index, slot[line], block), slot - {line})
         == Held(numSet, numAssoc, cache, slot) - {line}
  {
    forall x | x in slot && x != line ensures Put(cache, line.index, slot[line], block)[x.index][slot[x]] == cache[x.index][slot[x]] {
      OtherSlot(numSet, numAssoc, cache, slot, line, x);
    }
  }

  /** Two lines are never in the same block. */
  lemma OtherSlot(numSet: nat, numAssoc: nat, cache: Blocks, slot: map<Line, nat>, x: Line, y: Line)
    requires SlotsAgree(numSet, numAssoc, cache, slot) && x in slot && y in slot && x != y
    ensures x.index != y.index || slot[x] != slot[y]
  {}

  /** Filling an invalid block adds exactly its line. */
  lemma FillAddsLine(numSet: nat, numAssoc: nat, cache: Blocks, slot: map<Line, nat>, line: Line, b: nat, block: CacheBlock)
    requires SlotsAgree(numSet, numAssoc, cache, slot) && line !in slot && line.index < numSet && b < numAssoc
    requires cache[line.index][b].state == Invalid
    requires block.state != Invalid && block.tag == line.tag
    ensures SlotsAgree(numSet, numAssoc, Put(cache, line.index, b, block), slot[line := b])
    ensures Held(numSet, numAssoc, Put(cache, line.index, b, block), slot[line := b])
         == Held(numSet, numAssoc, cache, slot)[line := Copy(block.state, block.data)]
  {
    FilledSlots(numSet, numAssoc, cache, slot, line, b, block);
    FilledHeld(numSet, numAssoc, cache, slot, line, b, block);
  }

  lemma FilledSlots(numSet: nat, numAssoc: nat, cache: Blocks, slot: map<Line, nat>, line: Line, b: nat, block: CacheBlock)
    requires SlotsAgree(numSet, numAssoc, cache, slot) && line !in slot && line.index < numSet && b < numAssoc
    requires cache[line.index][b].state == Invalid
    requires block.state != Invalid && block.tag == line.tag
    ensures SlotsAgree(numSet, numAssoc, Put(cache, line.index, b, block), slot[line := b])
  {}

  lemma FilledHeld(numSet: nat, numAssoc: nat, cache: Blocks, slot: map<Line, nat>, line: Line, b: nat, block: CacheBlock)
    requires SlotsAgree(numSet, numAssoc, cache, slot) && line !in slot && line.index < numSet && b < numAssoc
    requires cache[line.index][b].state == Invalid && block.state != Invalid
    requires SlotsAgree(numSet, numAssoc, Put(cache, line.index, b, block), slot[line := b])
    ensures Held(numSet, numAssoc, Put(cache, line.index, b, block), slot[line := b])
         == Held(numSet, numAssoc, cache, slot)[line := Copy(block.state, block.data)]
  {
    forall x | x in slot ensures Put(cache, line.index, b, block)[x.index][slot[x]] == cache[x.index][slot[x]] {
      assert cache[x.index][slot[x]].state != Invalid;
    }
  }

  lemma UpdateTwice<K, V>(m: map<K, V>, k: K, x: V, y: V)
    ensures m[k := x][k := y] == m[k := y]
  {}

  lemma RemoveAbsent<K, V>(m: map<K, V>, k: K)
    requires k !in m
    ensures m - {k} == m
  {}

  lemma PutTwice(cache: Blocks, s: nat, b: nat, x: CacheBlock, y: CacheBlock)
    requires s < |cache| && b < |cache[s]|
    ensures Put(Put(cache, s, b, x), s, b, y) == Put(cache, s, b, y)
  {
    assert cache[s][b := x][b := y] == cache[s][b := y];
  }

  // ----- the same, by address -----

  lemma AddrInjective(numSet: nat, x: Line, y: Line)
    requires x.index < numSet && y.index < numSet && AddrOf(numSet, x) == AddrOf(numSet, y)
    ensures x == y
  {
    ReassembleAndSplit(numSet, x);
    ReassembleAndSplit(numSet, y);
  }

  function ByAddr(numSet: nat, lines: map<Line, Copy>): map<nat, Copy>
    requires InSets(numSet, lines)
  {
    assert forall x, y :: x in lines && y in lines && AddrOf(numSet, x) == AddrOf(numSet, y) ==> x == y by {
      forall x, y | x in lines && y in lines && AddrOf(numSet, x) == AddrOf(numSet, y) ensures x == y {
        AddrInjective(numSet, x, y);
      }
    }
    map line | line in lines :: AddrOf(numSet, line) := lines[line]
  }

  lemma ByAddrMembers(numSet: nat, lines: map<Line, Copy>)
    requires InSets(numSet, lines)
    ensures forall line :: line in lines ==>
              AddrOf(numSet, line) in ByAddr(numSet, lines) && ByAddr(numSet, lines)[AddrOf(numSet, line)] == lines[line]
    ensures forall a :: a in ByAddr(numSet, lines) ==> exists line :: line in lines && AddrOf(numSet, line) == a
  {
    hide AddrOf;
    forall x, y | x in lines && y in lines && AddrOf(numSet, x) == AddrOf(numSet, y) ensures x == y {
      AddrInjective(numSet, x, y);
    }
  }

  lemma ByAddrHas(numSet: nat, lines: map<Line, Copy>, line: Line)
    requires InSets(numSet, lines) && line.index < numSet
    ensures AddrOf(numSet, line) in ByAddr(numSet, lines) <==> line in lines
    ensures line in lines ==> ByAddr(numSet, lines)[AddrOf(numSet, line)] == lines[line]
  {
    hide ByAddr, AddrOf;
    ByAddrMembers(numSet, lines);
    if AddrOf(numSet, line) in ByAddr(numSet, lines) {
      var x :| x in lines && AddrOf(numSet, x) == AddrOf(numSet, line);
      AddrInjective(numSet, x, line);
    }
  }

  lemma ByAddrRemove(numSet: nat, lines: map<Line, Copy>, line: Line)
    requires InSets(numSet, lines) && line.index < numSet
    ensures ByAddr(numSet, lines - {line}) == ByAddr(numSet, lines) - {AddrOf(numSet, line)}
  {
    hide ByAddr, AddrOf;
    var before, after, a := ByAddr(numSet, lines), ByAddr(numSet, lines - {line}), AddrOf(numSet, line);
    ByAddrMembers(numSet, lines);
    ByAddrMembers(numSet, lines - {line});
    ByAddrHas(numSet, lines - {line}, line);
    forall b | b in before && b != a ensures b in after && after[b] == before[b] {
      var x :| x in lines && AddrOf(numSet, x) == b;
      assert x in lines - {line};
    }
    forall b | b in after ensures b in before - {a} {
      var x :| x in lines - {line} && AddrOf(numSet, x) == b;
    }
  }

  lemma ByAddrUpdate(numSet: nat, lines: map<Line, Copy>, line: Line, copy: Copy)
    requires InSets(numSet, lines) && line.index < numSet
    ensures ByAddr(numSet, lines[line := copy]) == ByAddr(numSet, lines)[AddrOf(numSet, line) := copy]
  {
    hide ByAddr, AddrOf;
    var before, after, a := ByAddr(numSet, lines), ByAddr(numSet, lines[line := copy]), AddrOf(numSet, line);
    ByAddrMembers(numSet, lines);
    ByAddrMembers(numSet, lines[line := copy]);
    forall b | b in before && b != a ensures b in after && after[b] == before[b] {
      var x :| x in lines && AddrOf(numSet, x) == b;
      assert x in lines[line := copy] && lines[line := copy][x] == lines[x];
    }
    forall b | b in after && b != a ensures b in before {
      var x :| x in lines[line := copy] && AddrOf(numSet, x) == b;
    }
    assert line in lines[line := copy];
  }

  // ----- the masks -----

  function BlkMask(): nat {
    Pow2(BLK_BIT) - 1
  }

  function SetMask(setBit: nat): (m: nat) {
    AndField(0, setBit, BLK_BIT);
    (Pow2(setBit) - 1) * Pow2(BLK_BIT)
  }

  lemma LowMask(setBit: nat)
    ensures Or(SetMask(setBit), BlkMask()) == Pow2(setBit + BLK_BIT) - 1
  {
    hide And, Pow2;
    Pow2Add(setBit, BLK_BIT);
    DivModUnique(SetMask(setBit), Pow2(BLK_BIT), Pow2(setBit) - 1, 0);
    AndDisjoint(SetMask(setBit), BlkMask(), BLK_BIT);
  }

  lemma TagBits(setBit: nat, addr: nat)
    ensures AndNot(addr, Or(SetMask(setBit), BlkMask())) / Pow2(setBit + BLK_BIT) == LineOf(Pow2(setBit), addr).tag
  {
    BlkSize();
    hide And, AndNot, Or, SetMask, BlkMask, Pow2;
    LowMask(setBit);
    ClearLowBits(addr, setBit + BLK_BIT);
    DivPow2(addr, BLK_BIT, setBit);
  }

  /** `(addr & tag_mask) >> (set_bit + blk_bit)` */
  function ExtractTag(setBit: nat, addr: nat): (tag: int)
    ensures tag == LineOf(Pow2(setBit), addr).tag
  {
    TagBits(setBit, addr);
    AndNot(addr, Or(SetMask(setBit), BlkMask())) / Pow2(setBit + BLK_BIT)
  }

  /** `(addr & set_mask) >> blk_bit` */
  function ExtractSet(setBit: nat, addr: nat): (s: nat)
    ensures s == LineOf(Pow2(setBit), addr).index
  {
    AndField(addr, setBit, BLK_BIT);
    assert Pow2(BLK_BIT) == BLK_SIZE;
    DivModUnique(And(addr, SetMask(setBit)), BLK_SIZE, (addr / BLK_SIZE) % Pow2(setBit), 0);
    And(addr, SetMask(setBit)) / Pow2(BLK_BIT)
  }

  lemma BlkSize()
    ensures Pow2(BLK_BIT) == BLK_SIZE
  {}

  lemma TagAndSet(tag: nat, p: nat, s: nat)
    requires s < p
    ensures tag * (p * BLK_SIZE) >= 0 && s * BLK_SIZE < p * BLK_SIZE
    ensures tag * (p * BLK_SIZE) + s * BLK_SIZE == (tag * p + s) * BLK_SIZE
  {
    assert tag * (p * BLK_SIZE) == (tag * p) * BLK_SIZE;
    assert tag * p >= 0;
  }

  lemma TagAboveSet(setBit: nat, tag: nat, s: nat)
    requires s < Pow2(setBit)
    ensures tag * Pow2(setBit + BLK_BIT) >= 0
    ensures And(tag * Pow2(setBit + BLK_BIT), s * Pow2(BLK_BIT)) == 0
    ensures tag * Pow2(setBit + BLK_BIT) + s * Pow2(BLK_BIT) == AddrOf(Pow2(setBit), Line(s, tag))
  {
    BlkSize();
    hide Pow2, And;
    Pow2Add(setBit, BLK_BIT);
    TagAndSet(tag, Pow2(setBit), s);
    DivModUnique(tag * Pow2(setBit + BLK_BIT), Pow2(setBit + BLK_BIT), tag, 0);
    AndDisjoint(tag * Pow2(setBit + BLK_BIT), s * Pow2(BLK_BIT), setBit + BLK_BIT);
  }

  /** `tag << (set_bit + blk_bit) | set << blk_bit` */
  function AssembleAddr(setBit: nat, tag: nat, s: nat): (addr: int)
    requires s < Pow2(setBit)
    ensures addr == AddrOf(Pow2(setBit), Line(s, tag))
  {
    TagAboveSet(setBit, tag, s);
    Or(tag * Pow2(setBit + BLK_BIT), s * Pow2(BLK_BIT))
  }

  lemma LookByAddr(numSet: nat, lines: map<Line, Copy>, a: nat)
    requires numSet > 0 && InSets(numSet, lines)
    ensures StateOf(ByAddr(numSet, lines), LineStart(a)) == StateOf(lines, LineOf(numSet, a))
    ensures DataOf(ByAddr(numSet, lines), LineStart(a)) == DataOf(lines, LineOf(numSet, a))
    ensures LineStart(a) in ByAddr(numSet, lines) <==> LineOf(numSet, a) in lines
  {
    LineStartFacts(numSet, a);
    SplitAndReassemble(numSet, LineStart(a));
    ByAddrHas(numSet, lines, LineOf(numSet, a));
  }

  lemma SnoopByAddr(numSet: nat, lines: map<Line, Copy>, kind: RequestType, a: nat)
    requires numSet > 0 && InSets(numSet, lines) && Aligned(a)
    ensures ByAddr(numSet, Snooped(lines, kind, LineOf(numSet, a))) == Snooped(ByAddr(numSet, lines), kind, a)
  {
    var line := LineOf(numSet, a);
    LookByAddr(numSet, lines, a);
    SplitAndReassemble(numSet, a);
    if line in lines {
      ByAddrHas(numSet, lines, line);
      ByAddrUpdate(numSet, lines, line, lines[line].(state := Shared));
      ByAddrRemove(numSet, lines, line);
    }
  }

  // ----- the order of accesses -----

  /** The lines of a set were last touched in the order in which they were last accessed. */
  ghost predicate LogOrder(slot: map<Line, nat>, touches: seq<seq<nat>>, log: seq<Line>) {
    && (forall x :: x in slot ==> x in log && x.index < |touches| && slot[x] in touches[x.index])
    && (forall x, y :: x in slot && y in slot && x.index == y.index && x != y ==>
          (LastTouch(touches[x.index], slot[x]) < LastTouch(touches[y.index], slot[y]) <==> LastTouch(log, x) < LastTouch(log, y)))
  }

  lemma {:induction false} LastTouchSkips(log: seq<nat>, more: seq<nat>, b: nat)
    requires b in log && forall k :: 0 <= k < |more| ==> more[k] != b
    ensures b in log + more && LastTouch(log + more, b) == LastTouch(log, b)
    decreases |more|
  {
    if more == [] {
      assert log + more == log;
    } else {
      var n := |more| - 1;
      LastTouchSkips(log, more[..n], b);
      assert log + more == (log + more[..n]) + [more[n]];
      LastTouchAppend(log + more[..n], more[n], b);
    }
  }

  lemma LastTouchIsEnd(log: seq<nat>, more: seq<nat>, b: nat)
    requires more != [] && more[|more| - 1] == b
    ensures b in log + more && LastTouch(log + more, b) == |log + more| - 1
  {
    var n := |more| - 1;
    assert log + more == (log + more[..n]) + [b];
    LastTouchAppend(log + more[..n], b, b);
  }

  /** Nothing but the accessed line is in the way `b` afterwards, and the other lines are where they were. */
  ghost predicate Accessed(slot: map<Line, nat>, slotAfter: map<Line, nat>, line: Line, b: nat) {
    && (line in slotAfter ==> slotAfter[line] == b)
    && (forall x :: x in slotAfter && x != line ==> x in slot && slotAfter[x] == slot[x] && (x.index == line.index ==> slot[x] != b))
  }

  /** An access touches the way of its line, last of all. */
  lemma AccessKeepsOrder(slot: map<Line, nat>, touches: seq<seq<nat>>, log: seq<Line>, line: Line, b: nat, more: seq<nat>, slotAfter: map<Line, nat>)
    requires LogOrder(slot, touches, log) && Accessed(slot, slotAfter, line, b) && line.index < |touches|
    requires more != [] && forall k :: 0 <= k < |more| ==> more[k] == b
    ensures LogOrder(slotAfter, touches[line.index := touches[line.index] + more], log + [line])
  {
    hide LastTouch;
    var after, log' := touches[line.index := touches[line.index] + more], log + [line];
    LastTouchIsEnd(touches[line.index], more, b);
    LastTouchAppend(log, line, line);
    forall x | x in slotAfter && x != line
      ensures x in log' && x.index < |after| && slotAfter[x] in after[x.index]
      ensures LastTouch(after[x.index], slotAfter[x]) == LastTouch(touches[x.index], slot[x]) && LastTouch(log', x) == LastTouch(log, x)
    {
      LastTouchAppend(log, line, x);
      if x.index == line.index {
        LastTouchSkips(touches[x.index], more, slot[x]);
      }
    }
  }

  lemma TwoTouches(touches: seq<seq<nat>>, s: nat, b: nat)
    requires s < |touches|
    ensures touches[s := touches[s] + [b]][s := touches[s := touches[s] + [b]][s] + [b]] == touches[s := touches[s] + [b, b]]
  {
    assert (touches[s] + [b]) + [b] == touches[s] + [b, b];
  }

  lemma ThreeTouches(touches: seq<seq<nat>>, s: nat, b: nat)
    requires s < |touches|
    ensures touches[s := touches[s] + [b]][s := touches[s := touches[s] + [b]][s] + [b, b]] == touches[s := touches[s] + [b, b, b]]
  {
    assert (touches[s] + [b]) + [b, b] == touches[s] + [b, b, b];
  }

  lemma RemovalKeepsOrder(slot: map<Line, nat>, touches: seq<seq<nat>>, log: seq<Line>, line: Line)
    requires LogOrder(slot, touches, log)
    ensures LogOrder(slot - {line}, touches, log)
  {}

  lemma NothingLogged(touches: seq<seq<nat>>)
    ensures LogOrder(map[], touches, [])
  {}

  /** A line that is or becomes the one in its way is accessed there. */
  lemma AccessedInWay(numSet: nat, numAssoc: nat, cacheAfter: Blocks, slot: map<Line, nat>, slotAfter: map<Line, nat>, line: Line, b: nat)
    requires SlotsAgree(numSet, numAssoc, cacheAfter, slotAfter)
    requires slotAfter == slot[line := b]
    ensures Accessed(slot, slotAfter, line, b)
  {
    forall x | x in slotAfter && x != line ensures x in slot && slotAfter[x] == slot[x] && (x.index == line.index ==> slot[x] != b) {
      OtherSlot(numSet, numAssoc, cacheAfter, slotAfter, x, line);
    }
  }

  lemma AccessedAndRemoved(numSet: nat, numAssoc: nat, cache: Blocks, slot: map<Line, nat>, line: Line)
    requires SlotsAgree(numSet, numAssoc, cache, slot) && line in slot
    ensures Accessed(slot, slot - {line}, line, slot[line])
    ensures Accessed(slot, slot, line, slot[line])
  {
    forall x | x in slot && x != line ensures x.index == line.index ==> slot[x] != slot[line] {
      OtherSlot(numSet, numAssoc, cache, slot, x, line);
    }
  }

  /** `victim` was accessed before all other cached lines of its set. */
  ghost predicate AccessedFirst(lines: set<Line>, log: seq<Line>, victim: Line) {
    forall x :: x in lines && x.index == victim.index && x != victim ==>
      victim in log && x in log && LastTouch(log, victim) < LastTouch(log, x)
  }

  lemma LeastRecentIsFirst(numSet: nat, numAssoc: nat, cache: Blocks, slot: map<Line, nat>, touches: seq<seq<nat>>, log: seq<Line>, victim: Line)
    requires SlotsAgree(numSet, numAssoc, cache, slot) && LogOrder(slot, touches, log) && victim in slot
    requires victim.index < |touches| && LeastRecent(touches[victim.index], numAssoc, slot[victim])
    ensures AccessedFirst(slot.Keys, log, victim)
  {
    forall x | x in slot.Keys && x.index == victim.index && x != victim
      ensures victim in log && x in log && LastTouch(log, victim) < LastTouch(log, x)
    {
      OtherSlot(numSet, numAssoc, cache, slot, victim, x);
    }
  }

  // ----- one change of the cache -----

  ghost predicate Consistent(numSet: nat, numAssoc: nat, cache: Blocks, setcnt: seq<nat>, slot: map<Line, nat>, touches: seq<seq<nat>>) {
    && Shape(numSet, numAssoc, cache) && SlotsAgree(numSet, numAssoc, cache, slot)
    && |setcnt| == |touches| == numSet
    && forall s :: 0 <= s < numSet ==> setcnt[s] == |touches[s]| && Recency(cache[s], setcnt[s], touches[s])
  }

  lemma RewriteBlock(numSet: nat, numAssoc: nat, cache: Blocks, slot: map<Line, nat>, s: nat, b: nat, block: CacheBlock)
    requires SlotsAgree(numSet, numAssoc, cache, slot) && s < numSet && b < numAssoc
    requires block.tag == cache[s][b].tag && (block.state == Invalid <==> cache[s][b].state == Invalid)
    ensures SlotsAgree(numSet, numAssoc, Put(cache, s, b, block), slot)
    ensures Held(numSet, numAssoc, Put(cache, s, b, block), slot)
         == if block.state == Invalid then Held(numSet, numAssoc, cache, slot)
            else Held(numSet, numAssoc, cache, slot)[Line(s, block.tag) := Copy(block.state, block.data)]
    ensures block.state == cache[s][b].state && block.data == cache[s][b].data ==>
              Held(numSet, numAssoc, Put(cache, s, b, block), slot) == Held(numSet, numAssoc, cache, slot)
  {
    RewriteKeepsSlots(numSet, numAssoc, cache, slot, s, b, block);
  }

  lemma ShapeOf(numSet: nat, numAssoc: nat, cache: Blocks, setcnt: seq<nat>, slot: map<Line, nat>, touches: seq<seq<nat>>)
    requires Consistent(numSet, numAssoc, cache, setcnt, slot, touches)
    ensures Shape(numSet, numAssoc, cache) && SlotsAgree(numSet, numAssoc, cache, slot) && |setcnt| == |touches| == numSet
  {}

  lemma TouchKeepsConsistent(numSet: nat, numAssoc: nat, cache: Blocks, setcnt: seq<nat>, slot: map<Line, nat>, touches: seq<seq<nat>>,
                             s: nat, b: nat, block: CacheBlock)
    requires Consistent(numSet, numAssoc, cache, setcnt, slot, touches) && s < numSet && b < numAssoc
    requires SlotsAgree(numSet, numAssoc, Put(cache, s, b, block), slot)
    requires block.priority == setcnt[s]
    ensures Consistent(numSet, numAssoc, Put(cache, s, b, block), setcnt[s := setcnt[s] + 1], slot, touches[s := touches[s] + [b]])
  {
    hide SlotsAgree, Recency;
    TouchKeepsRecency(cache[s], setcnt[s], touches[s], b, block);
  }

  /** The slots after a block is given a tag and a state. */
  function SlotAfter(numSet: nat, numAssoc: nat, cache: Blocks, slot: map<Line, nat>, tag: nat, s: nat, b: nat, state: CacheState): map<Line, nat>
    requires SlotsAgree(numSet, numAssoc, cache, slot) && s < numSet && b < numAssoc
  {
    if state != Invalid then slot[Line(s, tag) := b]
    else if cache[s][b].state != Invalid then slot - {Line(s, cache[s][b].tag)}
    else slot
  }

  function HeldAfter(numSet: nat, numAssoc: nat, cache: Blocks, slot: map<Line, nat>, tag: nat, s: nat, b: nat, state: CacheState): map<Line, Copy>
    requires SlotsAgree(numSet, numAssoc, cache, slot) && s < numSet && b < numAssoc
  {
    var lines := Held(numSet, numAssoc, cache, slot);
    if state != Invalid then lines[Line(s, tag) := Copy(state, cache[s][b].data)]
    else if cache[s][b].state != Invalid then lines - {Line(s, cache[s][b].tag)}
    else lines
  }

  lemma RetagBlock(numSet: nat, numAssoc: nat, cache: Blocks, slot: map<Line, nat>, s: nat, b: nat, block: CacheBlock)
    requires SlotsAgree(numSet, numAssoc, cache, slot) && s < numSet && b < numAssoc
    requires block.state != Invalid ==>
               if cache[s][b].state != Invalid then cache[s][b].tag == block.tag else Line(s, block.tag) !in slot
    requires block.data == cache[s][b].data
    ensures SlotsAgree(numSet, numAssoc, Put(cache, s, b, block), SlotAfter(numSet, numAssoc, cache, slot, block.tag, s, b, block.state))
    ensures Held(numSet, numAssoc, Put(cache, s, b, block), SlotAfter(numSet, numAssoc, cache, slot, block.tag, s, b, block.state))
         == HeldAfter(numSet, numAssoc, cache, slot, block.tag, s, b, block.state)
    ensures block.state != Invalid && cache[s][b].state != Invalid ==>
              SlotAfter(numSet, numAssoc, cache, slot, block.tag, s, b, block.state) == slot
  {
    if cache[s][b].state == Invalid {
      if block.state != Invalid {
        FillAddsLine(numSet, numAssoc, cache, slot, Line(s, block.tag), b, block);
      }
    } else if block.state == Invalid {
      InvalidateRemovesLine(numSet, numAssoc, cache, slot, Line(s, cache[s][b].tag), block);
    } else {
      assert slot[Line(s, block.tag) := b] == slot;
      RewriteBlock(numSet, numAssoc, cache, slot, s, b, block);
    }
  }

  lemma PutKeepsConsistent(numSet: nat, numAssoc: nat, cache: Blocks, setcnt: seq<nat>, slot: map<Line, nat>, touches: seq<seq<nat>>,
                           s: nat, b: nat, block: CacheBlock, slotAfter: map<Line, nat>)
    requires Consistent(numSet, numAssoc, cache, setcnt, slot, touches) && s < numSet && b < numAssoc
    requires SlotsAgree(numSet, numAssoc, Put(cache, s, b, block), slotAfter)
    requires block.state != Invalid ==> b in touches[s] && block.priority == LastTouch(touches[s], b)
    ensures Consistent(numSet, numAssoc, Put(cache, s, b, block), setcnt, slotAfter, touches)
  {}

  // ----- what a waiting operation relies on -----

  /** The way reserved for `line` is free, and no way holds the line. */
  predicate Reserved(cache: Blocks, slot: map<Line, nat>, line: Line, way: nat)
    requires line.index < |cache| && way < |cache[line.index]|
  {
    line !in slot && cache[line.index][way].state == Invalid
  }

  /** The block with the line's tag is in the way that was found, or a snoop has invalidated it. */
  predicate Occupied(cache: Blocks, slot: map<Line, nat>, line: Line, way: nat)
    requires line.index < |cache| && way < |cache[line.index]|
  {
    && cache[line.index][way].tag == line.tag
    && if line in slot then slot[line] == way else cache[line.index][way].state == Invalid
  }

  predicate Suspended(numSet: nat, numAssoc: nat, cache: Blocks, slot: map<Line, nat>, op: Operation, way: nat)
    requires numSet > 0 && Shape(numSet, numAssoc, cache)
  {
    op.Idle? ||
    (&& way < numAssoc
     && match op
        case LoadEvict(a, v, _, _) => Evicting(numSet, numAssoc, cache, slot, a, v, way)
        case StoreEvict(a, v, _, _, _) => Evicting(numSet, numAssoc, cache, slot, a, v, way)
        case LoadFill(a) => Reserved(cache, slot, LineOf(numSet, a), way)
        case StoreInv(a, _) => Reserved(cache, slot, LineOf(numSet, a), way)
        case StoreUpgrade(a, _) => Occupied(cache, slot, LineOf(numSet, a), way))
  }

  predicate Evicting(numSet: nat, numAssoc: nat, cache: Blocks, slot: map<Line, nat>, a: nat, victim: nat, way: nat)
    requires numSet > 0 && Shape(numSet, numAssoc, cache) && way < numAssoc
  {
    && Aligned(victim) && LineOf(numSet, a) !in slot
    && LineOf(numSet, victim).index == LineOf(numSet, a).index
    && Occupied(cache, slot, LineOf(numSet, victim), way)
  }

  /** A way that is reserved or occupied for a line can be given the line. */
  lemma MayFill(numSet: nat, numAssoc: nat, cache: Blocks, slot: map<Line, nat>, line: Line, way: nat)
    requires SlotsAgree(numSet, numAssoc, cache, slot) && line.index < numSet && way < numAssoc
    requires Reserved(cache, slot, line, way) || Occupied(cache, slot, line, way)
    ensures if cache[line.index][way].state != Invalid then cache[line.index][way].tag == line.tag else line !in slot
  {}

  /** The line in a valid block. */
  lemma BlockLine(numSet: nat, numAssoc: nat, cache: Blocks, slot: map<Line, nat>, s: nat, b: nat)
    requires SlotsAgree(numSet, numAssoc, cache, slot) && s < numSet && b < numAssoc
    requires cache[s][b].state != Invalid
    ensures var line := Line(s, cache[s][b].tag);
            && line in slot && slot[line] == b
            && Held(numSet, numAssoc, cache, slot)[line] == Copy(cache[s][b].state, cache[s][b].data)
  {}

  /** The block of a cached line. */
  lemma SlotBlock(numSet: nat, numAssoc: nat, cache: Blocks, slot: map<Line, nat>, line: Line)
    requires SlotsAgree(numSet, numAssoc, cache, slot) && line in slot
    ensures line.index < numSet && slot[line] < numAssoc && Occupied(cache, slot, line, slot[line])
    ensures var block := cache[line.index][slot[line]];
            block.state != Invalid && Held(numSet, numAssoc, cache, slot)[line] == Copy(block.state, block.data)
  {}

  /** A snoop touches one valid block and at most invalidates it: nothing a waiting operation
      relies on changes. */
  lemma SnoopKeepsSuspended(numSet: nat, numAssoc: nat, cache: Blocks, slot: map<Line, nat>, op: Operation, way: nat,
                            line: Line, block: CacheBlock, slotAfter: map<Line, nat>)
    requires numSet > 0 && SlotsAgree(numSet, numAssoc, cache, slot) && Suspended(numSet, numAssoc, cache, slot, op, way)
    requires line in slot && block.tag == line.tag
    requires slotAfter == if block.state == Invalid then slot - {line} else slot
    ensures Suspended(numSet, numAssoc, Put(cache, line.index, slot[line], block), slotAfter, op, way)
  {
    var after := Put(cache, line.index, slot[line], block);
    if op.LoadEvict? || op.StoreEvict? {
      SnoopKeepsOccupied(numSet, numAssoc, cache, slot, LineOf(numSet, op.victim), way, line, block, slotAfter);
    } else if op.StoreUpgrade? {
      SnoopKeepsOccupied(numSet, numAssoc, cache, slot, LineOf(numSet, op.addr), way, line, block, slotAfter);
    } else if !op.Idle? {
      assert Reserved(after, slotAfter, LineOf(numSet, op.addr), way);
    }
  }

  lemma SnoopKeepsOccupied(numSet: nat, numAssoc: nat, cache: Blocks, slot: map<Line, nat>, held: Line, way: nat,
                           line: Line, block: CacheBlock, slotAfter: map<Line, nat>)
    requires SlotsAgree(numSet, numAssoc, cache, slot) && held.index < numSet && way < numAssoc
    requires Occupied(cache, slot, held, way)
    requires line in slot && block.tag == line.tag
    requires slotAfter == if block.state == Invalid then slot - {line} else slot
    ensures Occupied(Put(cache, line.index, slot[line], block), slotAfter, held, way)
  {}

  // ----- the controller -----

  class CacheController {
    const setBit: nat
    const numSet: nat
    const numAssoc: nat
    var cache: Blocks
    var setcnt: seq<nat>
    // requests sent to the coherency agent and not yet fetched by it
    var requests: seq<CacheRequest>
    // the load or store waiting for the agent, and the way it has reserved
    var op: Operation
    var way: nat
    ghost var slot: map<Line, nat>
    ghost var touches: seq<seq<nat>>
    // the lines accessed, by a load, a store, an eviction or a snoop that finds them
    ghost var log: seq<Line>

    ghost predicate Structure()
      reads this`cache, this`setcnt, this`slot, this`touches
    {
      numSet == Pow2(setBit) && numAssoc > 0 && Consistent(numSet, numAssoc, cache, setcnt, slot, touches)
    }

    ghost function Lines(): map<Line, Copy>
      requires Structure()
      reads this`cache, this`setcnt, this`slot, this`touches
    {
      Held(numSet, numAssoc, cache, slot)
    }

    ghost predicate Valid()
      reads this`cache, this`setcnt, this`slot, this`touches, this`op, this`way, this`log
      ensures Valid() ==> Structure()
    {
      Structure() && Suspended(numSet, numAssoc, cache, slot, op, way) && LogOrder(slot, touches, log)
    }

    /** The cached lines by address. */
    ghost function View(): map<nat, Copy>
      requires Structure()
      reads this`cache, this`setcnt, this`slot, this`touches
    {
      ByAddr(numSet, Lines())
    }

    lemma Parts()
      requires Structure()
      ensures numSet == Pow2(setBit) && numAssoc > 0 && |setcnt| == |touches| == numSet
      ensures SlotsAgree(numSet, numAssoc, cache, slot) && Shape(numSet, numAssoc, cache)
      ensures Lines() == Held(numSet, numAssoc, cache, slot)
    {}

    constructor (assocBit: nat, setBit: nat)
      ensures Valid() && View() == map[] && op == Idle && requests == [] && log == []
      ensures this.setBit == setBit && numAssoc == Pow2(assocBit)
    {
      this.setBit := setBit;
      numSet := Pow2(setBit);
      numAssoc := Pow2(assocBit);
      cache := seq(Pow2(setBit), _ => seq(Pow2(assocBit), _ => CacheBlock(Invalid, 0, 0, 0)));
      setcnt := seq(Pow2(setBit), _ => 0);
      requests := [];
      op := Idle;
      way := 0;
      slot := map[];
      touches := seq(Pow2(setBit), _ => []);
      log := [];
    }

    method PriorityUpdate(s: nat, b: nat)
      requires Structure() && s < numSet && b < numAssoc
      modifies this`cache, this`setcnt, this`touches
      ensures Structure() && Lines() == old(Lines())
      ensures cache == Put(old(cache), s, b, old(cache[s][b]).(priority := old(setcnt[s])))
      ensures setcnt == old(setcnt)[s := old(setcnt[s]) + 1]
      ensures touches == old(touches)[s := old(touches[s]) + [b]]
    {
      hide SlotsAgree, Recency, Held, Consistent;
      ShapeOf(numSet, numAssoc, cache, setcnt, slot, touches);
      var block := cache[s][b].(priority := setcnt[s]);
      RewriteBlock(numSet, numAssoc, cache, slot, s, b, block);
      TouchKeepsConsistent(numSet, numAssoc, cache, setcnt, slot, touches, s, b, block);
      cache := Put(cache, s, b, block);
      setcnt := setcnt[s := setcnt[s] + 1];
      touches := touches[s := touches[s] + [b]];
    }

    method UpdateBlockState(tag: nat, s: nat, b: nat, state: CacheState)
      requires Structure() && s < numSet && b < numAssoc
      requires state != Invalid ==>
                 if cache[s][b].state != Invalid then cache[s][b].tag == tag else Line(s, tag) !in slot
      modifies this`cache, this`setcnt, this`touches, this`slot
      ensures Structure()
      ensures cache == Put(old(cache), s, b, CacheBlock(state, tag,
                if state != Invalid then old(setcnt[s]) else old(cache[s][b].priority), old(cache[s][b].data)))
      ensures state != Invalid ==>
                slot == old(slot)[Line(s, tag) := b] && Lines() == old(Lines())[Line(s, tag) := Copy(state, old(cache[s][b].data))]
      ensures state == Invalid && old(cache[s][b].state) != Invalid ==>
                var line := Line(s, old(cache[s][b].tag));
                slot == old(slot) - {line} && Lines() == old(Lines()) - {line}
      ensures state == Invalid && old(cache[s][b].state) == Invalid ==> slot == old(slot) && Lines() == old(Lines())
      ensures state != Invalid && old(cache[s][b].state) != Invalid ==> slot == old(slot)
      ensures touches == if state != Invalid then old(touches)[s := old(touches[s]) + [b]] else old(touches)
    {
      hide SlotsAgree, Recency, Held;
      if state != Invalid {
        PriorityUpdate(s, b);
        LastTouchAppend(old(touches[s]), b, b);
      }
      var block := cache[s][b].(tag := tag, state := state);
      PutTwice(old(cache), s, b, cache[s][b], block);
      RetagBlock(numSet, numAssoc, cache, slot, s, b, block);
      ghost var after := SlotAfter(numSet, numAssoc, cache, slot, tag, s, b, state);
      PutKeepsConsistent(numSet, numAssoc, cache, setcnt, slot, touches, s, b, block, after);
      slot := after;
      cache := Put(cache, s, b, block);
    }

    method DataRead(s: nat, b: nat) returns (data: nat)
      requires Structure() && s < numSet && b < numAssoc
      modifies this`cache, this`setcnt, this`touches
      ensures Structure() && Lines() == old(Lines()) && data == old(cache[s][b].data)
      ensures cache == Put(old(cache), s, b, old(cache[s][b]).(priority := old(setcnt[s])))
      ensures touches == old(touches)[s := old(touches[s]) + [b]]
    {
      hide SlotsAgree, Recency, Held;
      PriorityUpdate(s, b);
      data := cache[s][b].data;
    }

    method DataWrite(s: nat, b: nat, data: nat)
      requires Structure() && s < numSet && b < numAssoc && cache[s][b].state != Invalid
      modifies this`cache, this`setcnt, this`touches
      ensures Structure()
      ensures cache == Put(old(cache), s, b, old(cache[s][b]).(priority := old(setcnt[s]), data := data))
      ensures Lines() == old(Lines())[Line(s, old(cache[s][b].tag)) := Copy(old(cache[s][b].state), data)]
      ensures touches == old(touches)[s := old(touches[s]) + [b]]
    {
      hide SlotsAgree, Recency, Held;
      PriorityUpdate(s, b);
      var block := cache[s][b].(data := data);
      PutTwice(old(cache), s, b, cache[s][b], block);
      RewriteBlock(numSet, numAssoc, cache, slot, s, b, block);
      LastTouchAppend(old(touches[s]), b, b);
      PutKeepsConsistent(numSet, numAssoc, cache, setcnt, slot, touches, s, b, block, slot);
      cache := Put(cache, s, b, block);
    }

    // ----- searches -----

    /** The first block of least priority. */
    method FindReplaceBlock(s: nat) returns (minIdx: nat)
      requires Structure() && s < numSet
      ensures minIdx < numAssoc
      ensures forall b :: 0 <= b < numAssoc ==> cache[s][minIdx].priority <= cache[s][b].priority
      ensures forall b :: 0 <= b < minIdx ==> cache[s][minIdx].priority < cache[s][b].priority
    {
      var minPriority := cache[s][0].priority;
      minIdx := 0;
      for idx := 1 to numAssoc
        invariant minIdx < idx && minPriority == cache[s][minIdx].priority
        invariant forall b :: 0 <= b < idx ==> minPriority <= cache[s][b].priority
        invariant forall b :: 0 <= b < minIdx ==> minPriority < cache[s][b].priority
      {
        if cache[s][idx].priority < minPriority {
          minPriority := cache[s][idx].priority;
          minIdx := idx;
        }
      }
    }

    method FindInvalidBlock(s: nat) returns (blk: Option<nat>)
      requires Structure() && s < numSet
      ensures match blk
              case Some(b) => b < numAssoc && cache[s][b].state == Invalid
              case None => forall b :: 0 <= b < numAssoc ==> cache[s][b].state != Invalid
    {
      for b := 0 to numAssoc
        invariant forall i :: 0 <= i < b ==> cache[s][i].state != Invalid
      {
        if cache[s][b].state == Invalid { return Some(b); }
      }
      return None;
    }

    method FindValidBlock(tag: nat, s: nat) returns (blk: Option<nat>)
      requires Structure() && s < numSet
      ensures match blk
              case Some(b) => Line(s, tag) in slot && slot[Line(s, tag)] == b
              case None => Line(s, tag) !in slot
    {
      for b := 0 to numAssoc
        invariant forall i :: 0 <= i < b ==> !(cache[s][i].tag == tag && cache[s][i].state != Invalid)
      {
        if cache[s][b].tag == tag && cache[s][b].state != Invalid { return Some(b); }
      }
      return None;
    }

    // ----- snoops from the agent -----

    /** A line that a snoop finds is accessed, also when it is taken. */
    lemma SnoopInOrder(line: Line, b: nat, more: seq<nat>, cacheBefore: Blocks, slotBefore: map<Line, nat>, before: seq<seq<nat>>)
      requires SlotsAgree(numSet, numAssoc, cacheBefore, slotBefore) && line in slotBefore && slotBefore[line] == b
      requires |before| == numSet && LogOrder(slotBefore, before, log)
      requires slot == slotBefore || slot == slotBefore - {line}
      requires more != [] && forall k :: 0 <= k < |more| ==> more[k] == b
      requires line.index < numSet && touches == before[line.index := before[line.index] + more]
      ensures LogOrder(slot, touches, log + [line])
    {
      hide LogOrder, Accessed, SlotsAgree;
      AccessedAndRemoved(numSet, numAssoc, cacheBefore, slotBefore, line);
      AccessKeepsOrder(slotBefore, before, log, line, b, more, slot);
    }

    /** Read the block and leave it in the state the snoop asks for. */
    method SnoopBlock(kind: RequestType, s: nat, b: nat) returns (data: nat)
      requires Structure() && s < numSet && b < numAssoc && cache[s][b].state != Invalid
      requires kind in {SnpData, SnpInv, SnpCur}
      modifies this`cache, this`setcnt, this`touches, this`slot
      ensures Structure() && data == old(cache[s][b].data)
      ensures cache == Put(old(cache), s, b, cache[s][b]) && cache[s][b].tag == old(cache[s][b].tag)
      ensures cache[s][b].state == (if kind == SnpData then Shared else if kind == SnpInv then Invalid else old(cache[s][b].state))
      ensures slot == if kind == SnpInv then old(slot) - {Line(s, old(cache[s][b].tag))} else old(slot)
      ensures Lines() == Snooped(old(Lines()), kind, Line(s, old(cache[s][b].tag)))
      ensures touches == old(touches)[s := old(touches[s]) + if kind == SnpData then [b, b] else [b]]
    {
      hide SlotsAgree, Recency, Held;
      BlockLine(numSet, numAssoc, cache, slot, s, b);
      data := DataRead(s, b);
      ghost var read := cache[s][b];
      if kind == SnpData {
        UpdateBlockState(cache[s][b].tag, s, b, Shared);
      } else if kind == SnpInv {
        UpdateBlockState(cache[s][b].tag, s, b, Invalid);
      }
      PutTwice(old(cache), s, b, read, cache[s][b]);
      TwoTouches(old(touches), s, b);
    }

    /** The snoop of a line that was found. */
    method SnoopFound(kind: RequestType, line: Line, b: nat) returns (data: nat, prevState: CacheState)
      requires Valid() && line in slot && slot[line] == b && kind in {SnpData, SnpInv, SnpCur}
      modifies this`cache, this`setcnt, this`touches, this`slot, this`log
      ensures Valid() && Lines() == Snooped(old(Lines()), kind, line) && log == old(log) + [line]
      ensures line in old(Lines()) && data == old(Lines())[line].data && prevState == old(Lines())[line].state
    {
      hide Recency, Suspended, LogOrder, Accessed, SlotsAgree, Held, Snooped, CacheController.Structure, CacheController.Lines;
      Parts();
      SlotBlock(numSet, numAssoc, cache, slot, line);
      prevState := cache[line.index][b].state;
      data := SnoopBlock(kind, line.index, b);
      Parts();
      SnoopKeepsSuspended(numSet, numAssoc, old(cache), old(slot), op, way, line, cache[line.index][b], slot);
      SnoopInOrder(line, b, if kind == SnpData then [b, b] else [b], old(cache), old(slot), old(touches));
      log := log + [line];
    }

    method CohToCacheStateLookup(kind: RequestType, addr: nat)
      returns (blk: Option<nat>, data: nat, prevState: CacheState)
      requires Valid() && Aligned(addr) && kind in {SnpData, SnpInv, SnpCur}
      modifies this`cache, this`setcnt, this`touches, this`slot, this`log
      ensures Valid() && Lines() == Snooped(old(Lines()), kind, LineOf(numSet, addr))
      ensures blk == None <==> LineOf(numSet, addr) !in old(slot)
      ensures log == old(log) + if blk.Some? then [LineOf(numSet, addr)] else []
      ensures prevState == StateOf(old(Lines()), LineOf(numSet, addr)) && data == DataOf(old(Lines()), LineOf(numSet, addr))
    {
      hide Recency, Suspended, LogOrder, SlotsAgree, Held, CacheController.Structure, CacheController.Lines;
      Parts();
      data, prevState := 0, Invalid;
      blk := FindValidBlock(ExtractTag(setBit, addr), ExtractSet(setBit, addr));
      if blk.Some? {
        data, prevState := SnoopFound(kind, LineOf(numSet, addr), blk.value);
      }
    }

    method RunCohRequest(kind: RequestType, addr: nat) returns (rsp: CacheResponse)
      requires Valid() && Aligned(addr) && kind in {SnpData, SnpInv, SnpCur}
      modifies this`cache, this`setcnt, this`touches, this`slot, this`log
      ensures Valid() && View() == Snooped(old(View()), kind, addr)
      ensures rsp == CacheResponse(SnoopAnswer(kind, StateOf(old(View()), addr)), DataOf(old(View()), addr))
      ensures log == old(log) + if addr in old(View()) then [LineOf(numSet, addr)] else []
    {
      hide Recency, SlotsAgree, Suspended, ByAddr, LineOf, Held, LogOrder;
      LookByAddr(numSet, Lines(), addr);
      LineStartFacts(numSet, addr);
      SnoopByAddr(numSet, Lines(), kind, addr);
      var blk, data, prevState := CohToCacheStateLookup(kind, addr);
      if blk.None? {
        rsp := CacheResponse(RspMiss, data);
      } else if kind == SnpData {
        var status := RspS;
        if prevState == Modified { status := RspM; } else if prevState == Exclusive { status := RspE; }
        rsp := CacheResponse(status, data);
      } else if kind == SnpInv {
        rsp := CacheResponse(RspI, data);
      } else {
        rsp := CacheResponse(RspV, data);
      }
    }

    // ----- loads and stores, up to where they wait -----

    /** A free block of the set, or else the block whose last touch is oldest, read for write-back. */
    method ChooseBlock(s: nat) returns (blk: nat, evict: bool, victim: nat, data: nat, dirty: bool)
      requires Structure() && s < numSet
      modifies this`cache, this`setcnt, this`touches
      ensures Structure() && Lines() == old(Lines()) && blk < numAssoc
      ensures evict <==> forall b :: 0 <= b < numAssoc ==> old(cache[s][b].state) != Invalid
      ensures cache[s][blk].state == old(cache[s][blk].state) && cache[s][blk].tag == old(cache[s][blk].tag)
      ensures evict ==>
                && cache[s][blk].state != Invalid
                && victim == AddrOf(numSet, Line(s, cache[s][blk].tag))
                && data == cache[s][blk].data && dirty == (cache[s][blk].state == Modified)
      ensures evict ==> LeastRecent(old(touches[s]), numAssoc, blk)
      ensures touches == if evict then old(touches)[s := old(touches[s]) + [blk]] else old(touches)
      ensures !evict ==> cache[s][blk].state == Invalid
    {
      hide SlotsAgree, Recency, Held, LeastRecent, AddrOf;
      victim, data, dirty := 0, 0, false;
      var free := FindInvalidBlock(s);
      if free.Some? {
        return free.value, false, 0, 0, false;
      }
      evict := true;
      blk := FindReplaceBlock(s);
      LeastIsLeastRecent(cache[s], setcnt[s], touches[s], blk);
      victim := AssembleAddr(setBit, cache[s][blk].tag, s);
      dirty := cache[s][blk].state == Modified;
      data := DataRead(s, blk);
    }

    method Send(next: Operation)
      requires !next.Idle?
      modifies this`op, this`requests
      ensures op == next && requests == old(requests) + [next.Request()]
    {
      op := next;
      requests := requests + [next.Request()];
    }

    /** `set` is full when all its ways are valid. */
    ghost predicate SetFull(addr: nat)
      requires Structure()
      reads this`cache, this`setcnt, this`slot, this`touches
    {
      forall b :: 0 <= b < numAssoc ==> cache[LineOf(numSet, addr).index][b].state != Invalid
    }

    /** The line in way `blk` is the least recently touched of its set. */
    ghost predicate Oldest(addr: nat, blk: nat)
      requires Structure()
      reads this`cache, this`setcnt, this`slot, this`touches
    {
      LeastRecent(touches[LineOf(numSet, addr).index], numAssoc, blk)
    }

    /** Find the line, or prepare a way for it. */
    method Prepare(addr: nat) returns (hit: bool, blk: nat, evict: bool, victim: nat, data: nat, dirty: bool)
      requires Structure()
      modifies this`cache, this`setcnt, this`touches
      ensures Structure() && Lines() == old(Lines()) && blk < numAssoc
      ensures hit <==> LineOf(numSet, addr) in slot
      ensures hit ==> slot[LineOf(numSet, addr)] == blk && cache == old(cache)
      ensures !hit ==> (evict <==> old(SetFull(addr)))
      ensures !hit && evict ==> old(Oldest(addr, blk))
      ensures touches == (if !hit && evict then old(touches)[LineOf(numSet, addr).index := old(touches[LineOf(numSet, addr).index]) + [blk]]
                          else old(touches))
      ensures !hit && evict ==> Leaving(addr, victim, blk, data, dirty)
      ensures !hit && !evict ==> Reserved(cache, slot, LineOf(numSet, addr), blk)
    {
      hide Recency, LeastRecent;
      evict, victim, data, dirty := false, 0, 0, false;
      var tag, s := ExtractTag(setBit, addr), ExtractSet(setBit, addr);
      var found := FindValidBlock(tag, s);
      if found.Some? {
        return true, found.value, false, 0, 0, false;
      }
      hit := false;
      blk, evict, victim, data, dirty := ChooseBlock(s);
      if evict {
        ReassembleAndSplit(numSet, Line(s, cache[s][blk].tag));
      }
    }

    /** What is sent for an eviction describes the line in way `blk`. */
    ghost predicate Leaving(addr: nat, victim: nat, blk: nat, data: nat, dirty: bool)
      requires Structure() && blk < numAssoc
      reads this`cache, this`setcnt, this`slot, this`touches
    {
      var line := LineOf(numSet, victim);
      && Evicting(numSet, numAssoc, cache, slot, addr, victim, blk)
      && line in slot && data == Lines()[line].data && dirty == (Lines()[line].state == Modified)
    }

    /** Give the block the line, with its state and data. */
    method FillLine(s: nat, tag: nat, blk: nat, state: CacheState, data: nat)
      requires Structure() && s < numSet && blk < numAssoc && state != Invalid
      requires if cache[s][blk].state != Invalid then cache[s][blk].tag == tag else Line(s, tag) !in slot
      modifies this`cache, this`setcnt, this`touches, this`slot
      ensures Structure() && Lines() == old(Lines())[Line(s, tag) := Copy(state, data)]
      ensures slot == old(slot)[Line(s, tag) := blk] && touches == old(touches)[s := old(touches[s]) + [blk, blk]]
    {
      hide SlotsAgree, Recency, Held;
      UpdateTwice(Lines(), Line(s, tag), Copy(state, cache[s][blk].data), Copy(state, data));
      UpdateBlockState(tag, s, blk, state);
      DataWrite(s, blk, data);
      TwoTouches(old(touches), s, blk);
    }

    /** The block that held the victim is free once the write-back is done. */
    method FreeLine(s: nat, tag: nat, blk: nat, ghost victim: Line)
      requires Structure() && s < numSet && blk < numAssoc
      requires victim.index == s && Occupied(cache, slot, victim, blk) && Line(s, tag) !in slot
      modifies this`cache, this`setcnt, this`touches, this`slot
      ensures Structure() && Lines() == old(Lines()) - {victim} && slot == old(slot) - {victim} && touches == old(touches)
      ensures Reserved(cache, slot, Line(s, tag), blk)
    {
      hide Recency;
      if victim !in slot {
        RemoveAbsent(Lines(), victim);
        RemoveAbsent(slot, victim);
      }
      UpdateBlockState(tag, s, blk, Invalid);
    }

    method Fill(addr: nat, blk: nat, state: CacheState, data: nat)
      requires Structure() && blk < numAssoc && state != Invalid
      requires Reserved(cache, slot, LineOf(numSet, addr), blk) || Occupied(cache, slot, LineOf(numSet, addr), blk)
      modifies this`cache, this`setcnt, this`touches, this`slot
      ensures Structure() && View() == old(View())[LineStart(addr) := Copy(state, data)]
      ensures slot == old(slot)[LineOf(numSet, addr) := blk]
      ensures touches == old(touches)[LineOf(numSet, addr).index := old(touches[LineOf(numSet, addr).index]) + [blk, blk]]
    {
      hide SlotsAgree, Recency, Held, ByAddr, Reserved, Occupied;
      ByAddrUpdate(numSet, Lines(), LineOf(numSet, addr), Copy(state, data));
      LineStartFacts(numSet, addr);
      SplitAndReassemble(numSet, LineStart(addr));
      MayFill(numSet, numAssoc, cache, slot, LineOf(numSet, addr), blk);
      FillLine(ExtractSet(setBit, addr), ExtractTag(setBit, addr), blk, state, data);
    }

    /** The block becomes exclusive with the data it has. */
    method Upgrade(addr: nat, blk: nat) returns (ghost stale: nat)
      requires Structure() && blk < numAssoc && Occupied(cache, slot, LineOf(numSet, addr), blk)
      modifies this`cache, this`setcnt, this`touches, this`slot
      ensures Structure() && View() == old(View())[LineStart(addr) := Copy(Exclusive, stale)]
      ensures slot == old(slot)[LineOf(numSet, addr) := blk]
      ensures touches == old(touches)[LineOf(numSet, addr).index := old(touches[LineOf(numSet, addr).index]) + [blk]]
      ensures Occupied(cache, slot, LineOf(numSet, addr), blk)
    {
      hide SlotsAgree, Recency, Held, ByAddr;
      var tag, s := ExtractTag(setBit, addr), ExtractSet(setBit, addr);
      stale := cache[s][blk].data;
      ByAddrUpdate(numSet, Lines(), LineOf(numSet, addr), Copy(Exclusive, stale));
      LineStartFacts(numSet, addr);
      SplitAndReassemble(numSet, LineStart(addr));
      MayFill(numSet, numAssoc, cache, slot, LineOf(numSet, addr), blk);
      UpdateBlockState(tag, s, blk, Exclusive);
    }

    /** Writing a line into its way is an access of the line. */
    method Install(addr: nat, blk: nat, state: CacheState, data: nat)
      requires Structure() && LogOrder(slot, touches, log) && blk < numAssoc && state != Invalid
      requires Reserved(cache, slot, LineOf(numSet, addr), blk) || Occupied(cache, slot, LineOf(numSet, addr), blk)
      modifies this`cache, this`setcnt, this`touches, this`slot, this`log
      ensures Structure() && LogOrder(slot, touches, log) && log == old(log) + [LineOf(numSet, addr)]
      ensures View() == old(View())[LineStart(addr) := Copy(state, data)]
    {
      hide SlotsAgree, Recency, LastTouch, LineOf, ByAddr, Held, LogOrder, Reserved, Occupied;
      Fill(addr, blk, state, data);
      FillInOrder(LineOf(numSet, addr), blk, [blk, blk], old(slot), old(touches));
      log := log + [LineOf(numSet, addr)];
    }

    /** A store to a line that was shared: the block becomes exclusive, then takes the data. */
    method InstallUpgraded(addr: nat, blk: nat, data: nat)
      requires Structure() && LogOrder(slot, touches, log) && blk < numAssoc
      requires Occupied(cache, slot, LineOf(numSet, addr), blk)
      modifies this`cache, this`setcnt, this`touches, this`slot, this`log
      ensures Structure() && LogOrder(slot, touches, log) && log == old(log) + [LineOf(numSet, addr)]
      ensures View() == old(View())[LineStart(addr) := Copy(Modified, data)]
    {
      hide SlotsAgree, Recency, LastTouch, LineOf, ByAddr, Held, LogOrder, Reserved, Occupied;
      ghost var stale := Upgrade(addr, blk);
      UpdateTwice(old(View()), LineStart(addr), Copy(Exclusive, stale), Copy(Modified, data));
      Fill(addr, blk, Modified, data);
      UpdateTwice(old(slot), LineOf(numSet, addr), blk, blk);
      ThreeTouches(old(touches), LineOf(numSet, addr).index, blk);
      FillInOrder(LineOf(numSet, addr), blk, [blk, blk, blk], old(slot), old(touches));
      log := log + [LineOf(numSet, addr)];
    }

    method FreeVictim(addr: nat, victim: nat)
      requires Structure() && way < numAssoc && Evicting(numSet, numAssoc, cache, slot, addr, victim, way)
      modifies this`cache, this`setcnt, this`touches, this`slot
      ensures Structure() && View() == old(View()) - {victim} && slot == old(slot) - {LineOf(numSet, victim)} && touches == old(touches)
      ensures Reserved(cache, slot, LineOf(numSet, addr), way)
    {
      hide SlotsAgree, Recency, Held, ByAddr;
      ByAddrRemove(numSet, Lines(), LineOf(numSet, victim));
      SplitAndReassemble(numSet, victim);
      FreeLine(ExtractSet(setBit, addr), ExtractTag(setBit, addr), way, LineOf(numSet, victim));
    }

    /** The line that leaves was accessed first; reading it for the write-back is an access. */
    lemma EvictionInOrder(addr: nat, victim: nat, blk: nat, before: seq<seq<nat>>)
      requires Structure() && |before| == numSet && LogOrder(slot, before, log) && blk < numAssoc
      requires Evicting(numSet, numAssoc, cache, slot, addr, victim, blk) && LineOf(numSet, victim) in slot
      requires LeastRecent(before[LineOf(numSet, addr).index], numAssoc, blk)
      requires touches == before[LineOf(numSet, addr).index := before[LineOf(numSet, addr).index] + [blk]]
      ensures LineOf(numSet, victim).index == LineOf(numSet, addr).index
      ensures AccessedFirst(slot.Keys, log, LineOf(numSet, victim))
      ensures LogOrder(slot, touches, log + [LineOf(numSet, victim)])
    {
      hide LogOrder, Accessed, AccessedFirst, LeastRecent, SlotsAgree, Recency, LineOf;
      var v := LineOf(numSet, victim);
      LeastRecentIsFirst(numSet, numAssoc, cache, slot, before, log, v);
      AccessedAndRemoved(numSet, numAssoc, cache, slot, v);
      AccessKeepsOrder(slot, before, log, v, blk, [blk], slot);
    }

    /** A line that is written into its way is accessed. */
    lemma FillInOrder(line: Line, b: nat, more: seq<nat>, slotBefore: map<Line, nat>, before: seq<seq<nat>>)
      requires Structure() && |before| == numSet && LogOrder(slotBefore, before, log) && line.index < numSet
      requires slot == slotBefore[line := b] && more != [] && forall k :: 0 <= k < |more| ==> more[k] == b
      requires touches == before[line.index := before[line.index] + more]
      ensures LogOrder(slot, touches, log + [line])
    {
      hide LogOrder, Accessed, SlotsAgree, Recency;
      AccessedInWay(numSet, numAssoc, cache, slotBefore, slot, line, b);
      AccessKeepsOrder(slotBefore, before, log, line, b, more, slot);
    }

    /** Runs up to the first wait; `done` when it needs none. */
    method CacheCoherentLoad(addr: nat) returns (done: bool, data: nat, evict: bool, victim: nat)
      requires Valid() && op.Idle?
      modifies this
      ensures Valid() && View() == old(View())
      ensures done <==> LineStart(addr) in View()
      ensures done ==> data == View()[LineStart(addr)].data && op == Idle && requests == old(requests)
      ensures !done ==> (evict <==> old(SetFull(addr)))
      ensures !done && evict ==> var w := way; old(Oldest(addr, w))
      ensures !done && evict ==> AccessedFirst(old(slot).Keys, old(log), LineOf(numSet, victim)) && LineOf(numSet, victim) in old(slot)
      ensures !done && evict ==> LineOf(numSet, victim).index == LineOf(numSet, addr).index
      ensures log == old(log) + if done then [LineOf(numSet, addr)] else if evict then [LineOf(numSet, victim)] else []
      ensures !done && evict ==>
                victim in View() && op == LoadEvict(addr, victim, View()[victim].data, View()[victim].state == Modified)
      ensures !done && !evict ==> op == LoadFill(addr)
      ensures !done ==> !op.Idle? && requests == old(requests) + [op.Request()]
    {
      hide SlotsAgree, Recency, LastTouch, LineOf, ByAddr, Held, LogOrder, Accessed, AccessedFirst, LeastRecent;
      LookByAddr(numSet, Lines(), addr);
      var hit, blk, wbData, dirty;
      hit, blk, evict, victim, wbData, dirty := Prepare(addr);
      done, data := hit, 0;
      if hit {
        SlotBlock(numSet, numAssoc, cache, slot, LineOf(numSet, addr));
        data := DataRead(ExtractSet(setBit, addr), blk);
        AccessedAndRemoved(numSet, numAssoc, cache, slot, LineOf(numSet, addr));
        AccessKeepsOrder(slot, old(touches), log, LineOf(numSet, addr), blk, [blk], slot);
        log := log + [LineOf(numSet, addr)];
      } else if evict {
        LookByAddr(numSet, Lines(), victim);
        EvictionInOrder(addr, victim, blk, old(touches));
        log := log + [LineOf(numSet, victim)];
        way := blk;
        Send(LoadEvict(addr, victim, wbData, dirty));
      } else {
        way := blk;
        Send(LoadFill(addr));
      }
    }

    method CacheCoherentStore(addr: nat, data: nat) returns (done: bool, evict: bool, victim: nat)
      requires Valid() && op.Idle?
      modifies this
      ensures Valid()
      ensures done <==> StateOf(old(View()), LineStart(addr)) in {Exclusive, Modified}
      ensures done ==> View() == old(View())[LineStart(addr) := Copy(Modified, data)] && op == Idle && requests == old(requests)
      ensures !done ==> View() == old(View())
      ensures !done && LineStart(addr) in View() ==> op == StoreUpgrade(addr, data)
      ensures !done && LineStart(addr) !in View() ==> (evict <==> old(SetFull(addr)))
      ensures !done && LineStart(addr) !in View() && evict ==> var w := way; old(Oldest(addr, w))
      ensures !done && LineStart(addr) !in View() && evict ==>
                && AccessedFirst(old(slot).Keys, old(log), LineOf(numSet, victim)) && LineOf(numSet, victim) in old(slot)
                && LineOf(numSet, victim).index == LineOf(numSet, addr).index
      ensures log == old(log) + if done then [LineOf(numSet, addr)]
                                else if LineStart(addr) !in View() && evict then [LineOf(numSet, victim)] else []
      ensures !done && LineStart(addr) !in View() && evict ==>
                victim in View() && op == StoreEvict(addr, victim, View()[victim].data, View()[victim].state == Modified, data)
      ensures !done && LineStart(addr) !in View() && !evict ==> op == StoreInv(addr, data)
      ensures !done ==> !op.Idle? && requests == old(requests) + [op.Request()]
    {
      hide SlotsAgree, Recency, LastTouch, LineOf, ByAddr, Held, LogOrder, Accessed, AccessedFirst, LeastRecent;
      LookByAddr(numSet, Lines(), addr);
      var hit, blk, wbData, dirty;
      hit, blk, evict, victim, wbData, dirty := Prepare(addr);
      done := false;
      if hit {
        var s := ExtractSet(setBit, addr);
        SlotBlock(numSet, numAssoc, cache, slot, LineOf(numSet, addr));
        if cache[s][blk].state == Shared {
          way := blk;
          Send(StoreUpgrade(addr, data));
        } else {
          Install(addr, blk, Modified, data);
          done := true;
        }
      } else if evict {
        LookByAddr(numSet, Lines(), victim);
        EvictionInOrder(addr, victim, blk, old(touches));
        log := log + [LineOf(numSet, victim)];
        way := blk;
        Send(StoreEvict(addr, victim, wbData, dirty, data));
      } else {
        way := blk;
        Send(StoreInv(addr, data));
      }
    }

    /** Takes the agent's answer and runs to the next wait or to the end. */
    method Resume(rsp: CacheResponse) returns (done: bool, data: nat)
      requires Valid() && !op.Idle?
      requires op.LoadFill? ==> rsp.status != RspMiss
      requires op.StoreInv? || op.StoreUpgrade? ==> rsp.status == RspI
      modifies this
      ensures Valid() && (done <==> !old(op).WritesBack())
      ensures old(op).WritesBack() ==>
                && View() == old(View()) - {old(op).victim}
                && op == (if old(op).LoadEvict? then LoadFill(old(op).addr) else StoreInv(old(op).addr, old(op).data))
                && requests == old(requests) + [op.Request()]
      ensures done ==> op == Idle && requests == old(requests)
      ensures log == old(log) + if old(op).WritesBack() || (old(op).LoadFill? && FilledState(rsp.status) == Invalid) then []
                                else [LineOf(numSet, old(op).addr)]
      ensures old(op).LoadFill? ==>
                && data == rsp.data
                && View() == if FilledState(rsp.status) == Invalid then old(View())
                             else old(View())[LineStart(old(op).addr) := Copy(FilledState(rsp.status), rsp.data)]
      ensures old(op).StoreInv? || old(op).StoreUpgrade? ==>
                View() == old(View())[LineStart(old(op).addr) := Copy(Modified, old(op).data)]
    {
      hide SlotsAgree, Recency, LastTouch, LineOf, ByAddr, Held, LogOrder, Accessed, AccessedFirst, LeastRecent, Reserved, Occupied;
      data := 0;
      match op
      case LoadEvict(a, v, _, _) =>
        FreeVictim(a, v);
        RemovalKeepsOrder(old(slot), touches, log, LineOf(numSet, v));
        Send(LoadFill(a));
        done := false;
      case StoreEvict(a, v, _, _, d) =>
        FreeVictim(a, v);
        RemovalKeepsOrder(old(slot), touches, log, LineOf(numSet, v));
        Send(StoreInv(a, d));
        done := false;
      case LoadFill(a) =>
        data := rsp.data;
        if FilledState(rsp.status) != Invalid {
          Install(a, way, FilledState(rsp.status), data);
        }
        op := Idle;
        done := true;
      case StoreInv(a, d) =>
        Install(a, way, Modified, d);
        op := Idle;
        done := true;
      case StoreUpgrade(a, d) =>
        InstallUpgraded(a, way, d);
        op := Idle;
        done := true;
    }
  }
}
