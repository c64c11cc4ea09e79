/** First enumeration of a PCI hierarchy: bus numbers, memory slots and bridge windows. */
module PciScan {
  import opened BarRegister
  import opened Bits
  import opened Outcomes

  // ----- the hardware -----

  /** One function position of a bus. `barLength` is the length of the function's BAR0; 0 when it has none. */
  datatype Slot =
    | Empty
    | Endpoint(multi: bool, barLength: nat)
    | Bridge(multi: bool, barLength: nat, below: seq<Slot>)

  const SLOTS: nat := 256 // 32 devices of 8 functions
  const MB: nat := 0x100000
  const MEMORY_END: nat := 0x1_0000_0000

  /** What a scan takes for the size of the BAR: its length, within 32 bits. */
  function SizeOf(slot: Slot): nat
    requires slot != Empty
  {
    slot.barLength % MEMORY_END
  }

  predicate MultiFunction(slot: Slot) {
    match slot
    case Empty => false
    case Endpoint(multi, _) => multi
    case Bridge(multi, _, _) => multi
  }

  /** The scan reads function 0 of every device, and the others only when a function of the device
      says it has several. */
  predicate Visited(slots: seq<Slot>, i: nat)
    requires i < |slots|
  {
    && slots[i] != Empty
    && (i % 8 != 0 ==> MultiFunction(slots[i / 8 * 8]))
  }

  // ----- what a scan records -----

  /** Register values of a memory window. */
  datatype Window = Window(baseReg: nat, limitReg: nat)

  datatype Found =
    | Leaf(bdf: nat, barBase: nat, barSize: nat)
    | Node(bdf: nat, barBase: nat, barSize: nat,
           secondary: nat, subordinate: nat, window: Option<Window>, below: seq<Found>)

  /** `(addr & 0xFFF00000) >> 16` */
  function AddrToReg(addr: nat): (reg: nat)
    ensures reg == addr / MB % 4096 * 16
  {
    hide And, Pow2;
    Powers();
    AndField(addr, 12, 20);
    DivModUnique(addr / MB % 4096 * MB, 0x10000, addr / MB % 4096 * 16, 0);
    And(addr, 0xFFF00000) / 0x10000
  }

  lemma RegisterField(reg: nat)
    ensures And(reg, 0xFFF0) == reg / 16 % 4096 * 16
  {
    hide And, Pow2;
    Powers();
    AndField(reg, 12, 4);
  }

  /** `(reg & 0xFFF0) << 16` */
  function BaseAddr(reg: nat): (addr: nat)
    ensures addr == reg / 16 % 4096 * MB
  {
    RegisterField(reg);
    And(reg, 0xFFF0) * 0x10000
  }

  /** `((reg & 0xFFF0) << 16) | 0xFFFFF` */
  function LimitAddr(reg: nat): (addr: int)
    ensures addr == reg / 16 % 4096 * MB + (MB - 1)
  {
    hide And, Pow2;
    Powers();
    var m := reg / 16 % 4096;
    DivModUnique(m * MB, MB, m, 0);
    AndDisjoint(m * MB, MB - 1, 20);
    Or(BaseAddr(reg), MB - 1)
  }

  /** A window register keeps the twelve address bits of the megabyte. */
  lemma WindowRegisterRoundTrip(m: nat)
    requires m < 4096
    ensures BaseAddr(AddrToReg(m * MB)) == m * MB
    ensures LimitAddr(AddrToReg(m * MB + (MB - 1))) == m * MB + (MB - 1)
  {
    hide And, Pow2, AddrToReg, BaseAddr, LimitAddr;
    DivModUnique(m * MB, MB, m, 0);
    DivModUnique(m * MB + (MB - 1), MB, m, MB - 1);
  }

  // ----- the scan as a function -----

  /** One function. `bus` is the last bus number given out, `mem` the next free memory. */
  function ScanOne(slot: Slot, bdf: nat, bus: nat, mem: nat): (r: (Found, nat, nat))
    requires slot != Empty
    ensures r.1 >= bus && r.2 >= mem
    decreases slot
  {
    var size := SizeOf(slot);
    var next := if size > 0 then mem + MB else mem;
    match slot
    case Bridge(_, _, below) =>
      var (sub, last, end) := Scan(below, 0, bus + 1, bus + 1, next);
      var window := if next != end then Some(Window(AddrToReg(next), AddrToReg(end - 1))) else None;
      (Node(bdf, mem, size, bus + 1, last, window, sub), last, end)
    case Endpoint(_, _) => (Leaf(bdf, mem, size), bus, next)
  }

  /** From position `i` of bus `busNo` on. */
  function Scan(slots: seq<Slot>, i: nat, busNo: nat, bus: nat, mem: nat): (r: (seq<Found>, nat, nat))
    requires i <= |slots|
    ensures r.1 >= bus && r.2 >= mem
    decreases slots, |slots| - i
  {
    if i == |slots| then ([], bus, mem)
    else if !Visited(slots, i) then Scan(slots, i + 1, busNo, bus, mem)
    else
      var (node, bus', mem') := ScanOne(slots[i], busNo * SLOTS + i, bus, mem);
      var (rest, last, end) := Scan(slots, i + 1, busNo, bus', mem');
      ([node] + rest, last, end)
  }

  predicate WellFormed(slots: seq<Slot>) {
    |slots| == SLOTS && forall i :: 0 <= i < |slots| && slots[i].Bridge? ==> WellFormed(slots[i].below)
  }

  /** At most one bus, for the part of a bus that was scanned already. */
  predicate Fits(slots: seq<Slot>) {
    |slots| <= SLOTS && forall i :: 0 <= i < |slots| && slots[i].Bridge? ==> WellFormed(slots[i].below)
  }

  // ----- bus numbers -----

  /** How many bridges a scan meets. */
  function Bridges(slots: seq<Slot>, i: nat): nat
    requires i <= |slots|
    decreases slots, |slots| - i
  {
    if i == |slots| then 0
    else if Visited(slots, i) && slots[i].Bridge? then 1 + Bridges(slots[i].below, 0) + Bridges(slots, i + 1)
    else Bridges(slots, i + 1)
  }

  /** Bus numbers are given out depth first, from `bus + 1` to `last`, and the functions of a bus
      carry its number. */
  predicate Numbered(nodes: seq<Found>, busNo: nat, bus: nat, last: nat)
    decreases nodes
  {
    if nodes == [] then bus == last
    else
      && nodes[0].bdf / SLOTS == busNo
      && match nodes[0]
         case Leaf(_, _, _) => Numbered(nodes[1..], busNo, bus, last)
         case Node(_, _, _, secondary, subordinate, _, below) =>
           && secondary == bus + 1
           && Numbered(below, secondary, secondary, subordinate)
           && Numbered(nodes[1..], busNo, subordinate, last)
  }

  lemma {:induction false} ScanNumbers(slots: seq<Slot>, i: nat, busNo: nat, bus: nat, mem: nat)
    requires Fits(slots) && i <= |slots|
    ensures var (found, last, _) := Scan(slots, i, busNo, bus, mem);
            Numbered(found, busNo, bus, last) && last == bus + Bridges(slots, i)
    decreases slots, |slots| - i
  {
    hide AddrToReg;
    if i < |slots| {
      if !Visited(slots, i) {
        ScanNumbers(slots, i + 1, busNo, bus, mem);
      } else {
        DivModUnique(busNo * SLOTS + i, SLOTS, busNo, i);
        if slots[i].Bridge? {
          ScanNumbers(slots[i].below, 0, bus + 1, bus + 1, if SizeOf(slots[i]) > 0 then mem + MB else mem);
        }
        var (_, bus', mem') := ScanOne(slots[i], busNo * SLOTS + i, bus, mem);
        ScanNumbers(slots, i + 1, busNo, bus', mem');
      }
    }
  }

  /** The buses below these functions, in the order they were numbered. */
  function Buses(nodes: seq<Found>): seq<nat>
    decreases nodes
  {
    if nodes == [] then []
    else if nodes[0].Leaf? then Buses(nodes[1..])
    else [nodes[0].secondary] + Buses(nodes[0].below) + Buses(nodes[1..])
  }

  function UpTo(from: nat, to: nat): seq<nat>
    requires from <= to + 1
  {
    seq(to + 1 - from, k requires 0 <= k < to + 1 - from => from + k)
  }

  /** The numbers used are contiguous, each once. */
  lemma {:induction false} BusesContiguous(nodes: seq<Found>, busNo: nat, bus: nat, last: nat)
    requires Numbered(nodes, busNo, bus, last)
    ensures bus <= last && Buses(nodes) == UpTo(bus + 1, last)
    decreases nodes
  {
    if nodes != [] {
      if nodes[0].Leaf? {
        BusesContiguous(nodes[1..], busNo, bus, last);
      } else {
        var sub := nodes[0].subordinate;
        BusesContiguous(nodes[0].below, bus + 1, bus + 1, sub);
        BusesContiguous(nodes[1..], busNo, sub, last);
        UpToSplit(bus + 1, bus + 1, sub);
        UpToSplit(bus + 1, sub, last);
      }
    }
  }

  lemma UpToSplit(from: nat, mid: nat, to: nat)
    requires from <= mid + 1 && mid <= to
    ensures UpTo(from, mid) + UpTo(mid + 1, to) == UpTo(from, to)
  {}

  /** A bridge's [secondary, subordinate] is exactly the buses of its subtree, and the ranges of
      siblings follow one another. */
  lemma {:induction false} BridgeRanges(nodes: seq<Found>, busNo: nat, bus: nat, last: nat, j: nat)
    requires Numbered(nodes, busNo, bus, last) && j < |nodes| && nodes[j].Node?
    ensures bus < nodes[j].secondary <= nodes[j].subordinate <= last
    ensures [nodes[j].secondary] + Buses(nodes[j].below) == UpTo(nodes[j].secondary, nodes[j].subordinate)
    ensures Numbered(nodes[j].below, nodes[j].secondary, nodes[j].secondary, nodes[j].subordinate)
    ensures forall k :: j < k < |nodes| && nodes[k].Node? ==> nodes[j].subordinate < nodes[k].secondary
    decreases |nodes|
  {
    BusesContiguous(nodes, busNo, bus, last);
    if j > 0 {
      var sub := if nodes[0].Leaf? then bus else nodes[0].subordinate;
      if nodes[0].Node? {
        BusesContiguous(nodes[0].below, bus + 1, bus + 1, sub);
      }
      BridgeRanges(nodes[1..], busNo, sub, last, j - 1);
      assert nodes[1..][j - 1] == nodes[j];
      forall k | j < k < |nodes| && nodes[k].Node? ensures nodes[j].subordinate < nodes[k].secondary {
        assert nodes[1..][k - 1] == nodes[k];
      }
    } else {
      var sub := nodes[0].subordinate;
      BusesContiguous(nodes[0].below, bus + 1, bus + 1, sub);
      BusesContiguous(nodes[1..], busNo, sub, last);
      UpToSplit(bus + 1, bus + 1, sub);
      forall k | 0 < k < |nodes| && nodes[k].Node? ensures sub < nodes[k].secondary {
        BridgeRanges(nodes[1..], busNo, sub, last, k - 1);
        assert nodes[1..][k - 1] == nodes[k];
      }
    }
  }

  /** For every bridge at every depth: its range is exactly the buses of its subtree, and ends before
      that of every later bridge on the same bus begins. */
  predicate RangesExact(nodes: seq<Found>)
    decreases nodes
  {
    nodes != [] ==>
      && (nodes[0].Node? ==>
            && nodes[0].secondary <= nodes[0].subordinate
            && [nodes[0].secondary] + Buses(nodes[0].below) == UpTo(nodes[0].secondary, nodes[0].subordinate)
            && RangesExact(nodes[0].below)
            && forall k :: 0 < k < |nodes| && nodes[k].Node? ==> nodes[0].subordinate < nodes[k].secondary)
      && RangesExact(nodes[1..])
  }

  lemma {:induction false} NumberedRanges(nodes: seq<Found>, busNo: nat, bus: nat, last: nat)
    requires Numbered(nodes, busNo, bus, last)
    ensures RangesExact(nodes)
    decreases nodes
  {
    hide Buses, UpTo;
    if nodes != [] {
      if nodes[0].Node? {
        BridgeRanges(nodes, busNo, bus, last, 0);
        NumberedRanges(nodes[0].below, bus + 1, bus + 1, nodes[0].subordinate);
        NumberedRanges(nodes[1..], busNo, nodes[0].subordinate, last);
      } else {
        NumberedRanges(nodes[1..], busNo, bus, last);
      }
    }
  }

  // ----- configuration requests find their bus -----

  /** The functions a configuration request for bus `b` reaches, at each level through the first
      port whose range has it. */
  function RouteBus(nodes: seq<Found>, b: nat): Option<seq<Found>>
    decreases nodes
  {
    if nodes == [] then None
    else if nodes[0].Node? && nodes[0].secondary <= b <= nodes[0].subordinate then
      if b == nodes[0].secondary then Some(nodes[0].below) else RouteBus(nodes[0].below, b)
    else RouteBus(nodes[1..], b)
  }

  /** Every bus number given out is routed to the bus that was scanned under that number, and no
      other number is routed anywhere. */
  lemma {:induction false} BusRouting(nodes: seq<Found>, busNo: nat, bus: nat, last: nat, b: nat)
    requires Numbered(nodes, busNo, bus, last)
    ensures RouteBus(nodes, b).Some? <==> bus < b <= last
    ensures match RouteBus(nodes, b)
            case Some(list) => forall k :: 0 <= k < |list| ==> list[k].bdf / SLOTS == b
            case None => true
    decreases nodes
  {
    if nodes != [] {
      if nodes[0].Leaf? {
        BusRouting(nodes[1..], busNo, bus, last, b);
      } else {
        var sub := nodes[0].subordinate;
        BusesContiguous(nodes[0].below, bus + 1, bus + 1, sub);
        BusesContiguous(nodes[1..], busNo, sub, last);
        BusRouting(nodes[1..], busNo, sub, last, b);
        BusRouting(nodes[0].below, bus + 1, bus + 1, sub, b);
        OnOneBus(nodes[0].below, bus + 1, bus + 1, sub);
      }
    }
  }

  lemma {:induction false} OnOneBus(nodes: seq<Found>, busNo: nat, bus: nat, last: nat)
    requires Numbered(nodes, busNo, bus, last)
    ensures forall k :: 0 <= k < |nodes| ==> nodes[k].bdf / SLOTS == busNo
    decreases nodes
  {
    if nodes != [] {
      OnOneBus(nodes[1..], busNo, if nodes[0].Leaf? then bus else nodes[0].subordinate, last);
      forall k | 0 <= k < |nodes| ensures nodes[k].bdf / SLOTS == busNo {
        assert k > 0 ==> nodes[k] == nodes[1..][k - 1];
      }
    }
  }

  // ----- configuration requests during the scan -----

  /** The fabric while it is scanned: on each bus, from the root down to the bus that is read, the
      functions found so far, and the bridge whose scan is going on. */
  datatype Open = Here(done: seq<Found>) | Into(done: seq<Found>, secondary: nat, rest: Open)

  /** Where a scan is: the positions of the bridges it is behind, and the position that is read. */
  predicate ScanPath(slots: seq<Slot>, path: seq<nat>)
    decreases |path|
  {
    && path != [] && path[0] < |slots|
    && (|path| > 1 ==> Visited(slots, path[0]) && slots[path[0]].Bridge? && ScanPath(slots[path[0]].below, path[1..]))
  }

  /** The positions before `p`. */
  function ScanTo(slots: seq<Slot>, p: nat, busNo: nat, bus: nat, mem: nat): (r: (seq<Found>, nat, nat))
    requires p <= |slots|
    ensures r.1 >= bus
  {
    Scan(slots[..p], 0, busNo, bus, mem)
  }

  function BelowStart(slot: Slot, mem: nat): nat
    requires slot.Bridge?
  {
    if SizeOf(slot) > 0 then mem + MB else mem
  }

  function Snapshot(slots: seq<Slot>, busNo: nat, bus: nat, mem: nat, path: seq<nat>): Open
    requires ScanPath(slots, path)
    decreases |path|
  {
    var (done, last, end) := ScanTo(slots, path[0], busNo, bus, mem);
    if |path| == 1 then Here(done)
    else Into(done, last + 1, Snapshot(slots[path[0]].below, last + 1, last + 1, BelowStart(slots[path[0]], end), path[1..]))
  }

  /** The number of the bus that is read. */
  function CurrentBus(slots: seq<Slot>, busNo: nat, bus: nat, mem: nat, path: seq<nat>): nat
    requires ScanPath(slots, path)
    decreases |path|
  {
    if |path| == 1 then busNo
    else
      var (_, last, end) := ScanTo(slots, path[0], busNo, bus, mem);
      CurrentBus(slots[path[0]].below, last + 1, last + 1, BelowStart(slots[path[0]], end), path[1..])
  }

  predicate Claimed(nodes: seq<Found>, b: nat) {
    exists k :: 0 <= k < |nodes| && nodes[k].Node? && nodes[k].secondary <= b <= nodes[k].subordinate
  }

  /** The finished bridges of a bus have exactly the numbers that are routed behind them. */
  lemma {:induction false} ClaimedIsRouted(nodes: seq<Found>, busNo: nat, bus: nat, last: nat, b: nat)
    requires Numbered(nodes, busNo, bus, last)
    ensures Claimed(nodes, b) <==> RouteBus(nodes, b).Some?
    decreases |nodes|
  {
    BusRouting(nodes, busNo, bus, last, b);
    if nodes != [] {
      var rest := nodes[1..];
      var sub := if nodes[0].Node? then nodes[0].subordinate else bus;
      ClaimedIsRouted(rest, busNo, sub, last, b);
      BusRouting(rest, busNo, sub, last, b);
      BusesContiguous(rest, busNo, sub, last);
      if nodes[0].Node? {
        BusesContiguous(nodes[0].below, bus + 1, bus + 1, sub);
        if bus < b <= sub { assert nodes[0].secondary <= b <= nodes[0].subordinate; }
      }
      if Claimed(rest, b) {
        var k :| 0 <= k < |rest| && rest[k].Node? && rest[k].secondary <= b <= rest[k].subordinate;
        assert nodes[k + 1] == rest[k];
      }
      if Claimed(nodes, b) {
        var k :| 0 <= k < |nodes| && nodes[k].Node? && nodes[k].secondary <= b <= nodes[k].subordinate;
        assert k > 0 ==> rest[k - 1] == nodes[k];
      }
    }
  }

  /** A request for bus `b`, which is not the bus it is on, gets to the bus that is read: on each bus no
      finished bridge has the number, and the open one does, whose range ends at 0xFF. */
  predicate Arrives(o: Open, b: nat) {
    match o
    case Here(_) => false
    case Into(done, secondary, rest) =>
      !Claimed(done, b) && secondary <= b <= 0xFF && (if b == secondary then rest.Here? else Arrives(rest, b))
  }

  /** What the positions before `p` give out is handed on to those from `p` on. */
  lemma {:induction false} ScanSplit(slots: seq<Slot>, i: nat, p: nat, busNo: nat, bus: nat, mem: nat)
    requires i <= p <= |slots|
    ensures var (done, last, end) := Scan(slots[..p], i, busNo, bus, mem);
            var rest := Scan(slots, p, busNo, last, end);
            Scan(slots, i, busNo, bus, mem) == (done + rest.0, rest.1, rest.2)
    decreases p - i
  {
    hide ScanOne;
    var before := slots[..p];
    if i == p {
      assert Scan(before, i, busNo, bus, mem) == ([], bus, mem);
      NothingBefore(Scan(slots, p, busNo, bus, mem).0);
    } else {
      assert before[i] == slots[i] && before[i / 8 * 8] == slots[i / 8 * 8];
      if !Visited(slots, i) {
        ScanSplit(slots, i + 1, p, busNo, bus, mem);
      } else {
        var (node, bus', mem') := ScanOne(slots[i], busNo * SLOTS + i, bus, mem);
        ScanSplit(slots, i + 1, p, busNo, bus', mem');
        var (done, last, end) := Scan(before, i + 1, busNo, bus', mem');
        JoinAssoc([node], done, Scan(slots, p, busNo, last, end).0);
      }
    }
  }

  lemma NothingBefore(nodes: seq<Found>)
    ensures [] + nodes == nodes
  {}

  lemma BusesOfPrefix(slots: seq<Slot>, p: nat, busNo: nat, bus: nat, mem: nat, b: nat)
    requires WellFormed(slots) && p <= |slots| && b > ScanTo(slots, p, busNo, bus, mem).1
    ensures !Claimed(ScanTo(slots, p, busNo, bus, mem).0, b)
  {
    hide Scan, Numbered, Bridges;
    ScanNumbers(slots[..p], 0, busNo, bus, mem);
    var (done, last, _) := ScanTo(slots, p, busNo, bus, mem);
    forall k | 0 <= k < |done| && done[k].Node? ensures done[k].subordinate < b {
      BridgeRanges(done, busNo, bus, last, k);
    }
  }

  /** While a bus below the root is read, requests for it get there exactly when its number fits the
      0xFF that every open bridge has for its last bus; it does if the last number given out fits. */
  lemma {:induction false} ReadableWhileScanned(slots: seq<Slot>, busNo: nat, bus: nat, mem: nat, path: seq<nat>)
    requires WellFormed(slots) && ScanPath(slots, path) && |path| > 1
    ensures var current := CurrentBus(slots, busNo, bus, mem, path);
            && bus < current <= Scan(slots, 0, busNo, bus, mem).1
            && (Arrives(Snapshot(slots, busNo, bus, mem, path), current) <==> current <= 0xFF)
    decreases |path|
  {
    hide Scan, ScanTo, Claimed, Snapshot, CurrentBus, BelowStart, WellFormed;
    var p := path[0];
    var slot := slots[p];
    var (done, last, end) := ScanTo(slots, p, busNo, bus, mem);
    OneLevelDown(slots, busNo, bus, mem, path);
    ScanBehind(slots, p, busNo, bus, mem);
    WellFormedBelow(slots, p);
    if |path| > 2 {
      ReadableWhileScanned(slot.below, last + 1, last + 1, BelowStart(slot, end), path[1..]);
    } else {
      OnThisBus(slot.below, last + 1, last + 1, BelowStart(slot, end), path[1..]);
    }
    var below := Snapshot(slot.below, last + 1, last + 1, BelowStart(slot, end), path[1..]);
    var current := CurrentBus(slots, busNo, bus, mem, path);
    assert current >= last + 1 && (current == last + 1 <==> |path| == 2);
    BusesOfPrefix(slots, p, busNo, bus, mem, current);
    assert below.Here? <==> |path| == 2 by { OnThisBusOnly(slot.below, last + 1, last + 1, BelowStart(slot, end), path[1..]); }
  }

  lemma OneLevelDown(slots: seq<Slot>, busNo: nat, bus: nat, mem: nat, path: seq<nat>)
    requires ScanPath(slots, path) && |path| > 1
    ensures path[0] < |slots| && Visited(slots, path[0]) && slots[path[0]].Bridge? && ScanPath(slots[path[0]].below, path[1..])
    ensures var (done, last, end) := ScanTo(slots, path[0], busNo, bus, mem);
            var below, start := slots[path[0]].below, BelowStart(slots[path[0]], end);
            && CurrentBus(slots, busNo, bus, mem, path) == CurrentBus(below, last + 1, last + 1, start, path[1..])
            && Snapshot(slots, busNo, bus, mem, path) == Into(done, last + 1, Snapshot(below, last + 1, last + 1, start, path[1..]))
  {
    hide ScanTo, BelowStart;
  }

  lemma OnThisBus(slots: seq<Slot>, busNo: nat, bus: nat, mem: nat, path: seq<nat>)
    requires ScanPath(slots, path) && |path| == 1
    ensures CurrentBus(slots, busNo, bus, mem, path) == busNo && Snapshot(slots, busNo, bus, mem, path).Here?
  {
    hide ScanTo;
  }

  lemma OnThisBusOnly(slots: seq<Slot>, busNo: nat, bus: nat, mem: nat, path: seq<nat>)
    requires ScanPath(slots, path)
    ensures Snapshot(slots, busNo, bus, mem, path).Here? <==> |path| == 1
  {
    hide ScanTo;
  }

  lemma WellFormedBelow(slots: seq<Slot>, p: nat)
    requires WellFormed(slots) && p < |slots| && slots[p].Bridge?
    ensures WellFormed(slots[p].below)
  {}

  /** The scan behind the bridge at `p` gives out no more than the whole scan. */
  lemma ScanBehind(slots: seq<Slot>, p: nat, busNo: nat, bus: nat, mem: nat)
    requires p < |slots| && Visited(slots, p) && slots[p].Bridge?
    ensures var (_, last, end) := ScanTo(slots, p, busNo, bus, mem);
            last + 1 <= Scan(slots[p].below, 0, last + 1, last + 1, BelowStart(slots[p], end)).1 <= Scan(slots, 0, busNo, bus, mem).1
  {
    hide Scan, ScanOne, BelowStart;
    ScanSplit(slots, 0, p, busNo, bus, mem);
    var (_, last, end) := ScanTo(slots, p, busNo, bus, mem);
    ScanVisits(slots, p, busNo, last, end);
    LastBehind(slots[p], busNo * SLOTS + p, last, end);
  }

  lemma LastBehind(slot: Slot, bdf: nat, bus: nat, mem: nat)
    requires slot.Bridge?
    ensures ScanOne(slot, bdf, bus, mem).1 == Scan(slot.below, 0, bus + 1, bus + 1, BelowStart(slot, mem)).1
  {
    hide Scan;
  }

  // ----- memory -----

  datatype Bar = Bar(bdf: nat, base: nat, size: nat)

  function OwnBar(node: Found): seq<Bar> {
    if node.barSize > 0 then [Bar(node.bdf, node.barBase, node.barSize)] else []
  }

  /** The BARs of these functions and of everything below them, in the order they were placed. */
  function Bars(nodes: seq<Found>): seq<Bar>
    decreases nodes
  {
    if nodes == [] then [] else OwnBar(nodes[0]) + BarsBelow(nodes[0]) + Bars(nodes[1..])
  }

  function BarsBelow(node: Found): seq<Bar>
    decreases node
  {
    if node.Node? then Bars(node.below) else []
  }

  /** Where the slots below a function start and end, when its own starts at `mem`. */
  function Next(node: Found, mem: nat): nat {
    if node.barSize > 0 then mem + MB else mem
  }

  function Stop(node: Found, mem: nat): nat {
    Next(node, mem) + MB * |BarsBelow(node)|
  }

  function WindowOver(start: nat, stop: nat): Option<Window>
    requires start <= stop
  {
    if start == stop then None else Some(Window(AddrToReg(start), AddrToReg(stop - 1)))
  }

  /** One slot of a megabyte after the other from `mem` to `end`, and each bridge's window on the
      slots below it. */
  predicate Placed(nodes: seq<Found>, mem: nat, end: nat)
    decreases nodes
  {
    if nodes == [] then mem == end
    else PlacedNode(nodes[0], mem) && Placed(nodes[1..], Stop(nodes[0], mem), end)
  }

  predicate PlacedNode(node: Found, mem: nat)
    decreases node
  {
    && node.barBase == mem
    && (node.Node? ==>
          && Placed(node.below, Next(node, mem), Stop(node, mem))
          && node.window == WindowOver(Next(node, mem), Stop(node, mem)))
  }

  lemma {:induction false} ScanPlaces(slots: seq<Slot>, i: nat, busNo: nat, bus: nat, mem: nat)
    requires i <= |slots|
    ensures var (found, _, end) := Scan(slots, i, busNo, bus, mem);
            Placed(found, mem, end) && end == mem + MB * |Bars(found)|
    decreases slots, |slots| - i, 1
  {
    hide AddrToReg, Placed, PlacedNode, Bars, BarsBelow, ScanOne;
    if i == |slots| {
      NothingPlaced(mem);
    } else if !Visited(slots, i) {
      ScanPlaces(slots, i + 1, busNo, bus, mem);
    } else {
      var (node, bus', mem') := ScanOne(slots[i], busNo * SLOTS + i, bus, mem);
      ScanPlacesOne(slots[i], busNo * SLOTS + i, bus, mem);
      ScanPlaces(slots, i + 1, busNo, bus', mem');
      PlacedJoin(node, Scan(slots, i + 1, busNo, bus', mem').0, mem, Scan(slots, i + 1, busNo, bus', mem').2);
    }
  }

  lemma {:induction false} ScanPlacesOne(slot: Slot, bdf: nat, bus: nat, mem: nat)
    requires slot != Empty
    ensures var (node, _, end) := ScanOne(slot, bdf, bus, mem);
            PlacedNode(node, mem) && end == Stop(node, mem)
    decreases slot
  {
    hide AddrToReg, Placed, Bars, Scan;
    if slot.Bridge? {
      ScanPlaces(slot.below, 0, bus + 1, bus + 1, if SizeOf(slot) > 0 then mem + MB else mem);
    }
  }

  lemma NothingPlaced(mem: nat)
    ensures Placed([], mem, mem) && Bars([]) == []
  {}

  lemma BarsJoin(node: Found, rest: seq<Found>)
    ensures Bars([node] + rest) == OwnBar(node) + BarsBelow(node) + Bars(rest)
  {
    assert ([node] + rest)[1..] == rest;
  }

  lemma PlacedJoin(node: Found, rest: seq<Found>, mem: nat, end: nat)
    requires PlacedNode(node, mem) && Placed(rest, Stop(node, mem), end) && end == Stop(node, mem) + MB * |Bars(rest)|
    ensures Placed([node] + rest, mem, end) && end == mem + MB * |Bars([node] + rest)|
  {
    hide PlacedNode, Bars, BarsBelow;
    assert ([node] + rest)[1..] == rest;
    BarsJoin(node, rest);
  }

  /** The k-th BAR has the k-th megabyte: BARs of at most a megabyte do not overlap, and the space
      used is a megabyte for each. */
  lemma {:induction false} BarSlots(nodes: seq<Found>, mem: nat, end: nat)
    requires Placed(nodes, mem, end)
    ensures end == mem + MB * |Bars(nodes)|
    ensures forall k :: 0 <= k < |Bars(nodes)| ==> Bars(nodes)[k].base == mem + MB * k && Bars(nodes)[k].size > 0
    decreases nodes
  {
    hide WindowOver;
    if nodes != [] {
      var node := nodes[0];
      if node.Node? {
        BarSlots(node.below, Next(node, mem), Stop(node, mem));
      }
      BarSlots(nodes[1..], Stop(node, mem), end);
      BarSlotsJoin(OwnBar(node), BarsBelow(node), Bars(nodes[1..]), mem, Next(node, mem), Stop(node, mem));
    }
  }

  /** The bars from `mem` on have one megabyte each. */
  predicate InSlots(bars: seq<Bar>, mem: nat) {
    forall k :: 0 <= k < |bars| ==> bars[k].base == mem + MB * k && bars[k].size > 0
  }

  lemma BarSlotsJoin(own: seq<Bar>, below: seq<Bar>, rest: seq<Bar>, mem: nat, next: nat, stop: nat)
    requires InSlots(own, mem) && InSlots(below, next) && InSlots(rest, stop)
    requires next == mem + MB * |own| && stop == next + MB * |below|
    ensures InSlots(own + below + rest, mem)
  {
    InSlotsJoin(own, below, mem, next);
    InSlotsJoin(own + below, rest, mem, stop);
  }

  lemma InSlotsJoin(x: seq<Bar>, y: seq<Bar>, mem: nat, next: nat)
    requires InSlots(x, mem) && InSlots(y, next) && next == mem + MB * |x|
    ensures InSlots(x + y, mem)
  {}

  predicate SmallBars(nodes: seq<Found>) {
    Small(Bars(nodes))
  }

  predicate Small(bars: seq<Bar>) {
    forall k :: 0 <= k < |bars| ==> bars[k].size <= MB
  }

  lemma SmallJoin(x: seq<Bar>, y: seq<Bar>)
    ensures Small(x + y) <==> Small(x) && Small(y)
  {
    if Small(x + y) {
      forall k | 0 <= k < |x| ensures x[k].size <= MB { assert x[k] == (x + y)[k]; }
      forall k | 0 <= k < |y| ensures y[k].size <= MB { assert y[k] == (x + y)[|x| + k]; }
    }
  }

  lemma SmallParts(nodes: seq<Found>)
    requires nodes != [] && SmallBars(nodes)
    ensures Small(OwnBar(nodes[0])) && Small(BarsBelow(nodes[0])) && SmallBars(nodes[1..])
    ensures nodes[0].barSize <= MB
  {
    hide Small, BarsBelow;
    var own, below := OwnBar(nodes[0]), BarsBelow(nodes[0]);
    SmallJoin(own + below, Bars(nodes[1..]));
    SmallJoin(own, below);
    assert nodes[0].barSize <= MB by { SmallOwn(nodes[0]); }
  }

  lemma SmallOwn(node: Found)
    requires Small(OwnBar(node))
    ensures node.barSize <= MB
  {
    if node.barSize > 0 { assert OwnBar(node)[0].size == node.barSize; }
  }

  /** BARs of at most a megabyte do not overlap. */
  predicate Apart(bars: seq<Bar>) {
    forall i, j :: 0 <= i < j < |bars| ==> bars[i].base + bars[i].size <= bars[j].base
  }

  lemma BarsApart(nodes: seq<Found>, mem: nat, end: nat)
    requires Placed(nodes, mem, end) && SmallBars(nodes)
    ensures Apart(Bars(nodes))
  {
    hide Placed, Bars;
    BarSlots(nodes, mem, end);
  }

  /** A programmed window decodes to exactly the slots of the BARs below the bridge; a bridge has no
      window exactly when there are none. */
  predicate WindowExact(node: Found)
    requires node.Node?
  {
    var bars := Bars(node.below);
    match node.window
    case None => bars == []
    case Some(w) => bars != [] && BaseAddr(w.baseReg) == bars[0].base
                    && LimitAddr(w.limitReg) == bars[|bars| - 1].base + (MB - 1)
  }

  predicate WindowBefore(v: Option<Window>, w: Option<Window>) {
    v.Some? && w.Some? ==> LimitAddr(v.value.limitReg) < BaseAddr(w.value.baseReg)
  }

  /** For every bridge at every depth: its window is exact, and ends before the window of every later
      bridge on the same bus begins. */
  predicate WindowsExact(nodes: seq<Found>)
    decreases nodes
  {
    nodes != [] ==>
      && (nodes[0].Node? ==>
            && WindowExact(nodes[0]) && WindowsExact(nodes[0].below)
            && forall k :: 0 < k < |nodes| && nodes[k].Node? ==> WindowBefore(nodes[0].window, nodes[k].window))
      && WindowsExact(nodes[1..])
  }

  /** The window of a placed bridge is the range of the slots below it. */
  lemma NodeWindow(node: Found, m: nat, a: nat)
    requires node.Node? && PlacedNode(node, m * MB) && Stop(node, m * MB) <= 0x1_0000_0000
    ensures node.window.Some? <==> BarsBelow(node) != []
    ensures node.window.Some? ==>
              && BaseAddr(node.window.value.baseReg) == Next(node, m * MB)
              && LimitAddr(node.window.value.limitReg) == Stop(node, m * MB) - 1
  {
    hide AddrToReg, BaseAddr, LimitAddr, Placed, BarsBelow;
    var next := if node.barSize > 0 then m + 1 else m;
    if BarsBelow(node) != [] {
      WindowOfSlots(next, next + |BarsBelow(node)|);
    }
  }

  lemma {:induction false} PlacedWindows(nodes: seq<Found>, m: nat, end: nat)
    requires Placed(nodes, m * MB, end) && end <= 0x1_0000_0000
    ensures WindowsExact(nodes)
    decreases nodes
  {
    hide BaseAddr, LimitAddr, Bars, BarsBelow, WindowOver, WindowExact, WindowBefore;
    if nodes != [] {
      var node := nodes[0];
      var stop := (if node.barSize > 0 then m + 1 else m) + |BarsBelow(node)|;
      assert Stop(node, m * MB) == stop * MB;
      PlacedEnds(nodes[1..], stop * MB, end);
      PlacedWindows(nodes[1..], stop, end);
      if node.Node? {
        PlacedWindows(node.below, if node.barSize > 0 then m + 1 else m, Stop(node, m * MB));
        PlacedWindow(node, m);
        forall k | 0 < k < |nodes| && nodes[k].Node? ensures WindowBefore(node.window, nodes[k].window) {
          LaterWindow(node, m, nodes[1..], stop, end, k - 1);
        }
      }
    }
  }

  lemma PlacedEnds(nodes: seq<Found>, mem: nat, end: nat)
    requires Placed(nodes, mem, end)
    ensures mem <= end
  {
    hide Placed, Bars;
    BarSlots(nodes, mem, end);
  }

  lemma PlacedWindow(node: Found, m: nat)
    requires node.Node? && PlacedNode(node, m * MB) && Stop(node, m * MB) <= 0x1_0000_0000
    ensures WindowExact(node)
  {
    hide BaseAddr, LimitAddr, Bars, Placed, WindowOver;
    NodeWindow(node, m, 0);
    BarSlots(node.below, Next(node, m * MB), Stop(node, m * MB));
  }

  lemma {:induction false} LaterWindow(node: Found, m: nat, rest: seq<Found>, n: nat, end: nat, k: nat)
    requires node.Node? && PlacedNode(node, m * MB) && Stop(node, m * MB) <= n * MB
    requires Placed(rest, n * MB, end) && end <= 0x1_0000_0000 && k < |rest| && rest[k].Node?
    ensures WindowBefore(node.window, rest[k].window)
    decreases k
  {
    hide BaseAddr, LimitAddr, Bars, BarsBelow, WindowOver, PlacedNode;
    var stop := (if rest[0].barSize > 0 then n + 1 else n) + |BarsBelow(rest[0])|;
    assert Stop(rest[0], n * MB) == stop * MB;
    PlacedEnds(rest[1..], stop * MB, end);
    if k > 0 {
      LaterWindow(node, m, rest[1..], stop, end, k - 1);
    } else {
      NodeWindow(node, m, 0);
      NodeWindow(rest[0], n, 0);
    }
  }

  lemma WindowOfSlots(m: nat, n: nat)
    requires m < n <= 4096
    ensures BaseAddr(AddrToReg(m * MB)) == m * MB && LimitAddr(AddrToReg(n * MB - 1)) == n * MB - 1
  {
    hide AddrToReg, BaseAddr, LimitAddr;
    WindowRegisterRoundTrip(m);
    WindowRegisterRoundTrip(n - 1);
    assert (n - 1) * MB + (MB - 1) == n * MB - 1;
  }

  // ----- memory requests find their device -----

  /** Where a BAR ends up. Its size is asked for by writing all ones, and a base that equals the size
      mask is taken for the answer and not recorded, so that the ones stay. */
  function SetBase(base: nat, size: nat): nat {
    if base + size == MEMORY_END then MEMORY_END - 1 else base
  }

  predicate BarHas(node: Found, a: nat) {
    var base := SetBase(node.barBase, node.barSize);
    base <= a < base + node.barSize
  }

  /** A window that was never programmed is [0, 0]. */
  predicate InWindow(window: Option<Window>, a: nat) {
    match window
    case None => a == 0
    case Some(w) => BaseAddr(w.baseReg) <= a <= LimitAddr(w.limitReg)
  }

  /** The function a memory request reaches. A BAR with base 0 counts as not set. A request is handed to
      the first bridge that has it in its BARs, of which BAR1 stays [0, 0], or in its window; that
      bridge passes on what is in its window. */
  function RouteMem(nodes: seq<Found>, a: nat): Option<nat>
    decreases nodes
  {
    if nodes == [] then None
    else if BarHas(nodes[0], a) && SetBase(nodes[0].barBase, nodes[0].barSize) != 0 then Some(nodes[0].bdf)
    else if nodes[0].Node? && InWindow(nodes[0].window, a) then RouteMem(nodes[0].below, a)
    else if nodes[0].Node? && (BarHas(nodes[0], a) || a == 0) then None
    else RouteMem(nodes[1..], a)
  }

  /** The first BAR that has the address. */
  function BarAt(bars: seq<Bar>, a: nat): (r: Option<Bar>)
    ensures r == None <==> forall k :: 0 <= k < |bars| ==> !(bars[k].base <= a < bars[k].base + bars[k].size)
    ensures r.Some? ==> r.value in bars && r.value.base <= a < r.value.base + r.value.size
  {
    if bars == [] then None
    else if bars[0].base <= a < bars[0].base + bars[0].size then Some(bars[0])
    else BarAt(bars[1..], a)
  }

  lemma {:induction false} BarAtConcat(x: seq<Bar>, y: seq<Bar>, a: nat)
    ensures BarAt(x + y, a) == if BarAt(x, a) == None then BarAt(y, a) else BarAt(x, a)
  {
    if x == [] {
      assert x + y == y;
    } else {
      BarAtConcat(x[1..], y, a);
      assert (x + y)[1..] == x[1..] + y;
    }
  }

  lemma NoBars(a: nat)
    ensures BarAt([], a) == None
  {}

  lemma OwnBarAt(node: Found, a: nat)
    ensures BarAt(OwnBar(node), a) == if node.barBase <= a < node.barBase + node.barSize then Some(Bar(node.bdf, node.barBase, node.barSize)) else None
  {}

  /** The first of three places that has the address. */
  lemma BarAtParts(nodes: seq<Found>, a: nat)
    requires nodes != []
    ensures var own, below := BarAt(OwnBar(nodes[0]), a), BarAt(BarsBelow(nodes[0]), a);
            BarAt(Bars(nodes), a) == if own.Some? then own else if below.Some? then below else BarAt(Bars(nodes[1..]), a)
  {
    hide BarAt, BarsBelow, OwnBar;
    BarAtConcat(OwnBar(nodes[0]) + BarsBelow(nodes[0]), Bars(nodes[1..]), a);
    BarAtConcat(OwnBar(nodes[0]), BarsBelow(nodes[0]), a);
  }

  /** No BAR is outside the megabytes that were given out. */
  lemma Outside(nodes: seq<Found>, mem: nat, end: nat, a: nat)
    requires Placed(nodes, mem, end) && SmallBars(nodes)
    requires a < mem || end <= a
    ensures BarAt(Bars(nodes), a) == None
  {
    hide Placed, Bars;
    BarSlots(nodes, mem, end);
  }

  /** Who answers at the address, when this is the BAR that has it. */
  function Answer(bar: Option<Bar>, a: nat): Option<nat> {
    match bar
    case None => None
    case Some(b) => if b.base == 0 || (b.base + b.size == MEMORY_END && a != MEMORY_END - 1) then None else Some(b.bdf)
  }

  /** Nothing answers at address 0. */
  lemma {:induction false} NothingAtZero(nodes: seq<Found>)
    ensures RouteMem(nodes, 0) == None
    decreases nodes
  {
    hide InWindow;
    if nodes != [] {
      if nodes[0].Node? { NothingAtZero(nodes[0].below); }
      NothingAtZero(nodes[1..]);
    }
  }

  lemma InWindowOf(node: Found, m: nat, a: nat)
    requires node.Node? && PlacedNode(node, m * MB) && Stop(node, m * MB) <= MEMORY_END && a > 0
    ensures InWindow(node.window, a) <==> Next(node, m * MB) <= a < Stop(node, m * MB)
  {
    hide BaseAddr, LimitAddr, Placed, BarsBelow, WindowOver, PlacedNode;
    NodeWindow(node, m, a);
    NoWindowBelow(node, m * MB);
  }

  lemma NoWindowBelow(node: Found, mem: nat)
    ensures BarsBelow(node) == [] ==> Stop(node, mem) == Next(node, mem)
  {
    hide BarsBelow;
  }

  /** Below 4 GB every address of every BAR is routed to the function it belongs to, but for a BAR at 0
      and for one that ends at 4 GB; an address outside the BARs is routed to none. */
  lemma {:induction false} Answers(nodes: seq<Found>, m: nat, end: nat, a: nat)
    requires Placed(nodes, m * MB, end) && SmallBars(nodes) && end <= MEMORY_END && 0 < a < MEMORY_END
    ensures RouteMem(nodes, a) == Answer(BarAt(Bars(nodes), a), a)
    decreases nodes
  {
    hide InWindow, BarAt, SmallBars, Small, OwnBar, Bars, WindowOver;
    if nodes == [] {
      NoBars(a);
      assert Bars(nodes) == [] by { NothingPlaced(0); }
    } else {
      var node, rest := nodes[0], nodes[1..];
      var next := if node.barSize > 0 then m + 1 else m;
      var stop := next + |BarsBelow(node)|;
      assert Next(node, m * MB) == next * MB && Stop(node, m * MB) == stop * MB;
      SmallParts(nodes);
      PlacedEnds(rest, stop * MB, end);
      Answers(rest, stop, end, a);
      OwnBarAt(node, a);
      BarAtParts(nodes, a);
      if a < stop * MB { Outside(rest, stop * MB, end, a); }
      if node.Node? {
        SmallBelow(node);
        Answers(node.below, next, stop * MB, a);
        InWindowOf(node, m, a);
        if a < next * MB || stop * MB <= a { Outside(node.below, next * MB, stop * MB, a); }
      } else {
        NoBars(a);
      }
    }
  }

  lemma SmallBelow(node: Found)
    requires node.Node? && Small(BarsBelow(node))
    ensures SmallBars(node.below)
  {}

  /** The function whose BAR it is. */
  function Owner(bar: Option<Bar>): Option<nat> {
    match bar
    case None => None
    case Some(b) => Some(b.bdf)
  }

  /** A BAR that ends at 4 GB is left at the last byte and claims addresses from there on. */
  predicate Stray(node: Found, a: nat) {
    node.barBase + node.barSize == MEMORY_END && MEMORY_END <= a < MEMORY_END - 1 + node.barSize
  }

  /** The address is in a BAR at 0, or in a BAR that ends at 4 GB but not its last byte, or beyond 4 GB
      where such a BAR strays. */
  predicate Misrouted(nodes: seq<Found>, m: nat, a: nat) {
    || LostBar(Bars(nodes), m, a)
    || exists k :: 0 <= k < |nodes| && Stray(nodes[k], a)
  }

  predicate LostBar(bars: seq<Bar>, m: nat, a: nat) {
    && bars != []
    && (|| (m == 0 && a < bars[0].size)
        || (bars[|bars| - 1].base + bars[|bars| - 1].size == MEMORY_END && bars[|bars| - 1].base <= a < MEMORY_END - 1))
  }

  lemma BarAtUnique(bars: seq<Bar>, k: nat, a: nat)
    requires Apart(bars) && k < |bars| && bars[k].base <= a < bars[k].base + bars[k].size
    ensures BarAt(bars, a) == Some(bars[k])
  {}

  lemma WhichLost(bars: seq<Bar>, m: nat, a: nat)
    requires InSlots(bars, m * MB) && Small(bars) && (m + |bars|) * MB <= MEMORY_END && a < MEMORY_END
    ensures (if a == 0 then None else Answer(BarAt(bars, a), a)) != Owner(BarAt(bars, a)) <==> LostBar(bars, m, a)
  {
    hide BarAt;
    assert Apart(bars);
    var at := BarAt(bars, a);
    if at.Some? {
      var k :| 0 <= k < |bars| && bars[k] == at.value;
      assert bars[k].base == m * MB + MB * k;
      if bars != [] && bars[|bars| - 1].base <= a < bars[|bars| - 1].base + bars[|bars| - 1].size { BarAtUnique(bars, |bars| - 1, a); }
      if bars[0].base <= a < bars[0].base + bars[0].size { BarAtUnique(bars, 0, a); }
    }
  }

  lemma WindowsEnd(window: Option<Window>, a: nat)
    requires a >= MEMORY_END
    ensures !InWindow(window, a)
  {
    hide BaseAddr, LimitAddr;
  }

  lemma {:induction false} Beyond(nodes: seq<Found>, m: nat, end: nat, a: nat)
    requires Placed(nodes, m * MB, end) && SmallBars(nodes) && end <= MEMORY_END && a >= MEMORY_END
    ensures RouteMem(nodes, a) == None <==> forall k :: 0 <= k < |nodes| ==> !Stray(nodes[k], a)
    decreases |nodes|
  {
    hide InWindow, SmallBars, Small, Bars, BarsBelow, WindowOver;
    if nodes != [] {
      var node, rest := nodes[0], nodes[1..];
      var stop := (if node.barSize > 0 then m + 1 else m) + |BarsBelow(node)|;
      assert Stop(node, m * MB) == stop * MB;
      SmallParts(nodes);
      PlacedEnds(rest, stop * MB, end);
      Beyond(rest, stop, end, a);
      if node.Node? { WindowsEnd(node.window, a); }
      assert BarHas(node, a) <==> Stray(node, a);
      assert (forall k :: 0 <= k < |nodes| ==> !Stray(nodes[k], a)) <==> !Stray(node, a) && forall k :: 0 <= k < |rest| ==> !Stray(rest[k], a) by {
        FirstAndRest(nodes, a);
      }
    }
  }

  lemma FirstAndRest(nodes: seq<Found>, a: nat)
    requires nodes != []
    ensures (forall k :: 0 <= k < |nodes| ==> !Stray(nodes[k], a)) <==>
              !Stray(nodes[0], a) && forall k :: 0 <= k < |nodes[1..]| ==> !Stray(nodes[1..][k], a)
  {
    hide Stray;
    var rest := nodes[1..];
    if !Stray(nodes[0], a) && forall k :: 0 <= k < |rest| ==> !Stray(rest[k], a) {
      forall k | 0 <= k < |nodes| ensures !Stray(nodes[k], a) {
        if k > 0 { assert !Stray(rest[k - 1], a); }
      }
    }
    if forall k :: 0 <= k < |nodes| ==> !Stray(nodes[k], a) {
      forall k | 0 <= k < |rest| ensures !Stray(rest[k], a) { assert rest[k] == nodes[k + 1]; }
    }
  }

  /** A request is routed to the function whose BAR has the address, or to none if there is none,
      exactly when the address is not misrouted: in no BAR that starts at 0 or ends at 4 GB. */
  lemma MemRouting(nodes: seq<Found>, m: nat, end: nat, a: nat)
    requires Placed(nodes, m * MB, end) && SmallBars(nodes) && end <= MEMORY_END
    ensures RouteMem(nodes, a) == Owner(BarAt(Bars(nodes), a)) <==> !Misrouted(nodes, m, a)
  {
    hide RouteMem, BarAt, Bars, Placed, SmallBars, Small;
    BarSlots(nodes, m * MB, end);
    if a < MEMORY_END {
      SmallIs(nodes);
      WhichLost(Bars(nodes), m, a);
      if a == 0 { NothingAtZero(nodes); } else { Answers(nodes, m, end, a); }
    } else {
      Beyond(nodes, m, end, a);
      Outside(nodes, m * MB, end, a);
      LostBelow(Bars(nodes), m, a, end);
    }
  }

  lemma SmallIs(nodes: seq<Found>)
    requires SmallBars(nodes)
    ensures Small(Bars(nodes))
  {}

  lemma LostBelow(bars: seq<Bar>, m: nat, a: nat, end: nat)
    requires BarAt(bars, a) == None && InSlots(bars, m * MB) && a >= MEMORY_END
    ensures !LostBar(bars, m, a)
  {
    if bars != [] && m == 0 { assert bars[0].base == 0; }
  }

  /** A scan that starts at address 0 gives the first BAR away: neither the first bridge, which has no
      window, nor the function it belongs to takes the request. */
  lemma AddressZeroLost()
    ensures var nodes := [Node(8, 0, 0, 1, 1, None, []), Leaf(16, 0, MB)];
            Placed(nodes, 0, MB) && RouteMem(nodes, 0) == None && BarAt(Bars(nodes), 0) == Some(Bar(16, 0, MB))
  {
    var nodes := [Node(8, 0, 0, 1, 1, None, []), Leaf(16, 0, MB)];
    NothingAtZero(nodes);
    assert nodes[1..] == [Leaf(16, 0, MB)] && nodes[1..][1..] == [];
    assert Bars(nodes[1..]) == [Bar(16, 0, MB)];
    assert BarsBelow(nodes[0]) == [] && OwnBar(nodes[0]) == [];
    assert Bars(nodes) == Bars(nodes[1..]);
  }

  /** A BAR of one megabyte in the last megabyte below 4 GB is never set. */
  lemma LastMegabyteLost()
    ensures var nodes := [Leaf(8, MEMORY_END - MB, MB)];
            && Placed(nodes, MEMORY_END - MB, MEMORY_END)
            && RouteMem(nodes, MEMORY_END - MB) == None && BarAt(Bars(nodes), MEMORY_END - MB) == Some(Bar(8, MEMORY_END - MB, MB))
  {
    var nodes := [Leaf(8, MEMORY_END - MB, MB)];
    assert nodes[1..] == [];
    assert Bars(nodes) == [Bar(8, MEMORY_END - MB, MB)];
  }

  // ----- the found tree is the hardware -----

  /** The positions of a bus that are visited, in order. */
  function Present(slots: seq<Slot>, i: nat): (p: seq<nat>)
    requires i <= |slots|
    ensures forall k :: 0 <= k < |p| ==> i <= p[k] < |slots| && Visited(slots, p[k])
    decreases |slots| - i
  {
    if i == |slots| then []
    else (if Visited(slots, i) then [i] else []) + Present(slots, i + 1)
  }

  /** Every function that can be seen is found, once and in its place. */
  predicate Mirrors(slots: seq<Slot>, i: nat, nodes: seq<Found>)
    requires i <= |slots|
    decreases slots, 0
  {
    var p := Present(slots, i);
    |nodes| == |p| && forall k :: 0 <= k < |p| ==> Matches(slots[p[k]], p[k], nodes[k])
  }

  predicate Matches(slot: Slot, position: nat, node: Found)
    requires slot != Empty
    decreases slot
  {
    && node.bdf % SLOTS == position
    && node.barSize == slot.barLength % MEMORY_END
    && (slot.Bridge? <==> node.Node?)
    && (slot.Bridge? ==> Mirrors(slot.below, 0, node.below))
  }

  lemma {:induction false} MirrorsOneMore(slots: seq<Slot>, i: nat, node: Found, rest: seq<Found>)
    requires i < |slots| && Visited(slots, i)
    requires Matches(slots[i], i, node) && Mirrors(slots, i + 1, rest)
    ensures Mirrors(slots, i, [node] + rest)
  {
    hide Matches;
    var p, q := Present(slots, i), Present(slots, i + 1);
    forall k | 0 <= k < |p| ensures Matches(slots[p[k]], p[k], ([node] + rest)[k]) {
      if k > 0 {
        assert p[k] == q[k - 1] && ([node] + rest)[k] == rest[k - 1];
      }
    }
  }

  lemma {:induction false} ScanMirrors(slots: seq<Slot>, i: nat, busNo: nat, bus: nat, mem: nat)
    requires WellFormed(slots) && i <= |slots|
    ensures Mirrors(slots, i, Scan(slots, i, busNo, bus, mem).0)
    decreases slots, |slots| - i
  {
    hide AddrToReg, Mirrors;
    if i == |slots| {
      NothingMirrored(slots);
    } else if !Visited(slots, i) {
      ScanMirrors(slots, i + 1, busNo, bus, mem);
      SkipMirrored(slots, i, Scan(slots, i + 1, busNo, bus, mem).0);
    } else {
      DivModUnique(busNo * SLOTS + i, SLOTS, busNo, i);
      var next := if SizeOf(slots[i]) > 0 then mem + MB else mem;
      if slots[i].Bridge? {
        ScanMirrors(slots[i].below, 0, bus + 1, bus + 1, next);
      }
      var (node, bus', mem') := ScanOne(slots[i], busNo * SLOTS + i, bus, mem);
      ScanMirrors(slots, i + 1, busNo, bus', mem');
      MirrorsOneMore(slots, i, node, Scan(slots, i + 1, busNo, bus', mem').0);
    }
  }

  lemma NothingMirrored(slots: seq<Slot>)
    ensures Mirrors(slots, |slots|, [])
  {}

  lemma SkipMirrored(slots: seq<Slot>, i: nat, nodes: seq<Found>)
    requires i < |slots| && !Visited(slots, i) && Mirrors(slots, i + 1, nodes)
    ensures Mirrors(slots, i, nodes)
  {
    hide Matches;
    assert Present(slots, i) == Present(slots, i + 1);
  }

  lemma {:induction false} PresentMembers(slots: seq<Slot>, i: nat, x: nat)
    requires i <= |slots|
    ensures x in Present(slots, i) <==> i <= x < |slots| && Visited(slots, x)
    decreases |slots| - i
  {
    hide Visited;
    if i < |slots| {
      PresentMembers(slots, i + 1, x);
    }
  }

  lemma {:induction false} PresentRises(slots: seq<Slot>, i: nat)
    requires i <= |slots|
    ensures forall j, k :: 0 <= j < k < |Present(slots, i)| ==> Present(slots, i)[j] < Present(slots, i)[k]
    decreases |slots| - i
  {
    hide Visited;
    if i < |slots| {
      PresentRises(slots, i + 1);
    }
  }

  /** A function is found exactly when there is one at its position and it is function 0 of its device, or
      function 0 is there and says that the device has several; each is found once. This holds on every
      bus, as the functions behind a bridge mirror the bus there. */
  lemma FoundIff(slots: seq<Slot>, nodes: seq<Found>, d: nat, f: nat)
    requires |slots| == SLOTS && Mirrors(slots, 0, nodes) && d < 32 && f < 8
    ensures (exists k :: 0 <= k < |nodes| && nodes[k].bdf % SLOTS == 8 * d + f) <==>
              slots[8 * d + f] != Empty && (f == 0 || (slots[8 * d] != Empty && slots[8 * d].multi))
    ensures forall j, k :: 0 <= j < k < |nodes| ==> nodes[j].bdf % SLOTS < nodes[k].bdf % SLOTS
  {
    hide Mirrors, Present, Visited;
    PositionsOf(slots, nodes);
    PresentMembers(slots, 0, 8 * d + f);
    PresentRises(slots, 0);
    VisitedIff(slots, d, f);
    var p := Present(slots, 0);
    if 8 * d + f in p {
      var k :| 0 <= k < |p| && p[k] == 8 * d + f;
      assert nodes[k].bdf % SLOTS == 8 * d + f;
    }
    if k :| 0 <= k < |nodes| && nodes[k].bdf % SLOTS == 8 * d + f {
      assert p[k] == 8 * d + f;
    }
  }

  lemma PositionsOf(slots: seq<Slot>, nodes: seq<Found>)
    requires Mirrors(slots, 0, nodes)
    ensures |nodes| == |Present(slots, 0)| && forall k :: 0 <= k < |nodes| ==> nodes[k].bdf % SLOTS == Present(slots, 0)[k]
  {
    hide Present, Visited;
  }

  lemma VisitedIff(slots: seq<Slot>, d: nat, f: nat)
    requires |slots| == SLOTS && d < 32 && f < 8
    ensures Visited(slots, 8 * d + f) <==> slots[8 * d + f] != Empty && (f == 0 || (slots[8 * d] != Empty && slots[8 * d].multi))
  {}

  predicate SmallSlots(slots: seq<Slot>) {
    forall i :: 0 <= i < |slots| && slots[i] != Empty ==>
      slots[i].barLength <= MB && (slots[i].Bridge? ==> SmallSlots(slots[i].below))
  }

  lemma SmallBarsJoin(node: Found, rest: seq<Found>)
    requires node.barSize <= MB && SmallBars(rest) && (node.Node? ==> SmallBars(node.below))
    ensures SmallBars([node] + rest)
  {
    BarsJoin(node, rest);
    hide Bars;
    SmallJoin(OwnBar(node), BarsBelow(node));
    SmallJoin(OwnBar(node) + BarsBelow(node), Bars(rest));
  }

  lemma {:induction false} ScanKeepsBarsSmall(slots: seq<Slot>, i: nat, busNo: nat, bus: nat, mem: nat)
    requires SmallSlots(slots) && i <= |slots|
    ensures SmallBars(Scan(slots, i, busNo, bus, mem).0)
    decreases slots, |slots| - i
  {
    hide AddrToReg, SmallBars;
    if i == |slots| {
      NoSmallBars();
    } else if !Visited(slots, i) {
      ScanKeepsBarsSmall(slots, i + 1, busNo, bus, mem);
    } else {
      var next := if SizeOf(slots[i]) > 0 then mem + MB else mem;
      if slots[i].Bridge? {
        ScanKeepsBarsSmall(slots[i].below, 0, bus + 1, bus + 1, next);
      }
      var (node, bus', mem') := ScanOne(slots[i], busNo * SLOTS + i, bus, mem);
      ScanKeepsBarsSmall(slots, i + 1, busNo, bus', mem');
      SmallBarsJoin(node, Scan(slots, i + 1, busNo, bus', mem').0);
    }
  }

  lemma NoSmallBars()
    ensures SmallBars([])
  {}

  /** A first scan of any hierarchy: it finds what is there, numbers the buses without gaps, gives every
      bridge the range of the buses behind it, uses a megabyte for each BAR, and leaves a fabric in which
      every bus number is routed. */
  lemma FirstScan(slots: seq<Slot>, root: nat, mem: nat, b: nat)
    requires WellFormed(slots)
    ensures var (found, last, end) := Scan(slots, 0, root, root, mem);
            && Mirrors(slots, 0, found)
            && last == root + Bridges(slots, 0) && Buses(found) == UpTo(root + 1, last)
            && RangesExact(found)
            && (RouteBus(found, b).Some? <==> root < b <= last)
            && Placed(found, mem, end) && end == mem + MB * |Bars(found)|
  {
    hide Scan, RouteBus, Buses, Bars, Mirrors, UpTo, RangesExact, Placed;
    var (found, last, end) := Scan(slots, 0, root, root, mem);
    ScanMirrors(slots, 0, root, root, mem);
    ScanNumbers(slots, 0, root, root, mem);
    BusesContiguous(found, root, root, last);
    NumberedRanges(found, root, root, last);
    BusRouting(found, root, root, last, b);
    ScanPlaces(slots, 0, root, root, mem);
  }

  /** The memory it gives out from a whole megabyte on, if this ends at 4 GB at the latest: BARs do not
      overlap, the windows of all bridges are exact and disjoint, and a request is routed to the owner of
      its address unless that is in a BAR at 0 or one that ends at 4 GB. */
  lemma FirstScanMemory(slots: seq<Slot>, root: nat, m: nat, a: nat)
    requires WellFormed(slots) && SmallSlots(slots)
    ensures var (found, _, end) := Scan(slots, 0, root, root, m * MB);
            && Apart(Bars(found))
            && (end <= MEMORY_END ==>
                  && WindowsExact(found)
                  && (RouteMem(found, a) == Owner(BarAt(Bars(found), a)) <==> !Misrouted(found, m, a)))
  {
    hide Scan, RouteMem, Bars, BarAt, SmallBars, Placed, Apart, WindowsExact, Misrouted;
    var (found, _, end) := Scan(slots, 0, root, root, m * MB);
    ScanPlaces(slots, 0, root, root, m * MB);
    ScanKeepsBarsSmall(slots, 0, root, root, m * MB);
    BarsApart(found, m * MB, end);
    if end <= MEMORY_END {
      PlacedWindows(found, m, end);
      MemRouting(found, m, end, a);
    }
  }

  // ----- the driver -----

  /** The registers of a function that the scan writes; those of the window may never be written. */
  datatype Registers =
    Registers(bar0: nat, secondary: nat, subordinate: nat, memoryBase: Option<nat>, memoryLimit: Option<nat>)

  const POWER_ON: Registers := Registers(0, 0, 0, None, None)

  function RegistersOf(node: Found): Registers {
    var bar0 := if node.barSize > 0 then node.barBase else 0;
    match node
    case Leaf(_, _, _) => Registers(bar0, 0, 0, None, None)
    case Node(_, _, _, secondary, subordinate, None, _) => Registers(bar0, secondary, subordinate, None, None)
    case Node(_, _, _, secondary, subordinate, Some(w), _) =>
      Registers(bar0, secondary, subordinate, Some(w.baseReg), Some(w.limitReg))
  }

  /** The registers of all these functions and of those below them. */
  function Programmed(nodes: seq<Found>): map<nat, Registers>
    decreases nodes
  {
    if nodes == [] then map[]
    else ProgrammedNode(nodes[0]) + Programmed(nodes[1..])
  }

  function ProgrammedNode(node: Found): map<nat, Registers>
    decreases node
  {
    map[node.bdf := RegistersOf(node)] + if node.Node? then Programmed(node.below) else map[]
  }

  lemma {:induction false} ProgrammedAppend(nodes: seq<Found>, node: Found)
    ensures Programmed(nodes + [node]) == Programmed(nodes) + ProgrammedNode(node)
  {
    if nodes == [] {
      assert nodes + [node] == [node];
      assert ProgrammedNode(node) + map[] == ProgrammedNode(node) == map[] + ProgrammedNode(node);
    } else {
      ProgrammedAppend(nodes[1..], node);
      assert (nodes + [node])[1..] == nodes[1..] + [node];
      MergeAssoc(ProgrammedNode(nodes[0]), Programmed(nodes[1..]), ProgrammedNode(node));
    }
  }

  lemma MergeAssoc<K, V>(a: map<K, V>, b: map<K, V>, c: map<K, V>)
    ensures (a + b) + c == a + (b + c)
  {}

  /** The functions written lie on the scanned bus or on the buses numbered below it. */
  lemma {:induction false} ProgrammedKeys(nodes: seq<Found>, busNo: nat, bus: nat, last: nat)
    requires Numbered(nodes, busNo, bus, last) && busNo <= bus
    ensures forall k :: k in Programmed(nodes) ==> busNo <= k / SLOTS <= last
    decreases nodes
  {
    hide RegistersOf;
    BusesContiguous(nodes, busNo, bus, last);
    if nodes != [] {
      assert ProgrammedNode(nodes[0]).Keys == {nodes[0].bdf} + if nodes[0].Node? then Programmed(nodes[0].below).Keys else {};
      if nodes[0].Leaf? {
        ProgrammedKeys(nodes[1..], busNo, bus, last);
      } else {
        var sub := nodes[0].subordinate;
        BusesContiguous(nodes[0].below, bus + 1, bus + 1, sub);
        BusesContiguous(nodes[1..], busNo, sub, last);
        ProgrammedKeys(nodes[0].below, bus + 1, bus + 1, sub);
        ProgrammedKeys(nodes[1..], busNo, sub, last);
      }
    }
  }

  // ----- the fabric routes by the registers -----

  /** The window that the registers stand for; a register that was never written stands for 0. */
  predicate WindowDecodes(regs: Registers, a: nat) {
    && (match regs.memoryBase case None => 0 case Some(v) => BaseAddr(v)) <= a
    && a <= (match regs.memoryLimit case None => 0 case Some(v) => LimitAddr(v))
  }

  /** The BAR that the register stands for, of a function that has one. */
  predicate BarDecodes(regs: Registers, size: nat, a: nat) {
    SetBase(regs.bar0, size) <= a < SetBase(regs.bar0, size) + size
  }

  /** `RouteBus` by the bus numbers in the registers. */
  function RouteBusBy(config: map<nat, Registers>, nodes: seq<Found>, b: nat): Option<seq<Found>>
    decreases nodes
  {
    if nodes == [] then None
    else
      var regs := RegsOf(config, nodes[0].bdf);
      if nodes[0].Node? && regs.secondary <= b <= regs.subordinate then
        if b == regs.secondary then Some(nodes[0].below) else RouteBusBy(config, nodes[0].below, b)
      else RouteBusBy(config, nodes[1..], b)
  }

  /** `RouteMem` by the BARs and windows in the registers. */
  function RouteMemBy(config: map<nat, Registers>, nodes: seq<Found>, a: nat): Option<nat>
    decreases nodes
  {
    if nodes == [] then None
    else
      var regs := RegsOf(config, nodes[0].bdf);
      if BarDecodes(regs, nodes[0].barSize, a) && SetBase(regs.bar0, nodes[0].barSize) != 0 then Some(nodes[0].bdf)
      else if nodes[0].Node? && WindowDecodes(regs, a) then RouteMemBy(config, nodes[0].below, a)
      else if nodes[0].Node? && (BarDecodes(regs, nodes[0].barSize, a) || a == 0) then None
      else RouteMemBy(config, nodes[1..], a)
  }

  function RegsOf(config: map<nat, Registers>, bdf: nat): Registers {
    if bdf in config then config[bdf] else POWER_ON
  }

  /** Every function has the registers that were meant for it. */
  ghost predicate Wired(config: map<nat, Registers>, nodes: seq<Found>)
    decreases nodes
  {
    nodes != [] ==>
      && RegsOf(config, nodes[0].bdf) == RegistersOf(nodes[0])
      && (nodes[0].Node? ==> Wired(config, nodes[0].below))
      && Wired(config, nodes[1..])
  }

  lemma {:induction false} WiredRoutes(config: map<nat, Registers>, nodes: seq<Found>, a: nat)
    requires Wired(config, nodes)
    ensures RouteMemBy(config, nodes, a) == RouteMem(nodes, a) && RouteBusBy(config, nodes, a) == RouteBus(nodes, a)
    decreases nodes
  {
    hide BaseAddr, LimitAddr;
    if nodes != [] {
      if nodes[0].Node? {
        WiredRoutes(config, nodes[0].below, a);
      }
      WiredRoutes(config, nodes[1..], a);
    }
  }

  /** On every bus the functions are in the order of their positions. */
  predicate Ordered(nodes: seq<Found>)
    decreases nodes
  {
    nodes != [] ==>
      && (nodes[0].Node? ==> Ordered(nodes[0].below))
      && (|nodes| > 1 ==> nodes[0].bdf < nodes[1].bdf)
      && Ordered(nodes[1..])
  }

  lemma ProgrammedCons(nodes: seq<Found>)
    requires nodes != []
    ensures Programmed(nodes).Keys == {nodes[0].bdf} + (if nodes[0].Node? then Programmed(nodes[0].below).Keys else {}) + Programmed(nodes[1..]).Keys
  {
    hide RegistersOf;
    assert ProgrammedNode(nodes[0]).Keys == {nodes[0].bdf} + if nodes[0].Node? then Programmed(nodes[0].below).Keys else {};
  }

  lemma NothingToProgram()
    ensures Programmed([]) == map[]
  {}

  /** What is written to the bus itself is written from its first function on. */
  lemma {:induction false} FirstKey(nodes: seq<Found>, busNo: nat, bus: nat, last: nat)
    requires Numbered(nodes, busNo, bus, last) && busNo <= bus && Ordered(nodes)
    ensures forall k :: k in Programmed(nodes) && k / SLOTS == busNo ==> nodes != [] && nodes[0].bdf <= k
    ensures forall k :: k in Programmed(nodes) && k / SLOTS != busNo ==> bus < k / SLOTS <= last
    decreases nodes
  {
    hide Programmed, Buses, UpTo;
    BusesContiguous(nodes, busNo, bus, last);
    if nodes == [] {
      NothingToProgram();
    } else {
      ProgrammedCons(nodes);
      if nodes[0].Leaf? {
        FirstKey(nodes[1..], busNo, bus, last);
      } else {
        var sub := nodes[0].subordinate;
        BusesContiguous(nodes[0].below, bus + 1, bus + 1, sub);
        BusesContiguous(nodes[1..], busNo, sub, last);
        ProgrammedKeys(nodes[0].below, bus + 1, bus + 1, sub);
        FirstKey(nodes[1..], busNo, sub, last);
      }
    }
  }

  ghost predicate Within(part: map<nat, Registers>, config: map<nat, Registers>) {
    forall k :: k in part ==> k in config && config[k] == part[k]
  }

  /** No function's registers are written over by those of another. */
  lemma {:induction false} ProgrammedIsWired(config: map<nat, Registers>, nodes: seq<Found>, busNo: nat, bus: nat, last: nat)
    requires Numbered(nodes, busNo, bus, last) && busNo <= bus && Ordered(nodes)
    requires Within(Programmed(nodes), config)
    ensures Wired(config, nodes)
    decreases nodes
  {
    hide RegistersOf, Within, Buses, UpTo, ProgrammedNode;
    if nodes != [] {
      var node, rest := nodes[0], nodes[1..];
      var sub := if node.Node? then node.subordinate else bus;
      if node.Node? {
        BusesContiguous(node.below, bus + 1, bus + 1, sub);
        ProgrammedKeys(node.below, bus + 1, bus + 1, sub);
      }
      FirstKey(rest, busNo, sub, last);
      PartsWithin(node, Programmed(rest), config);
      ProgrammedIsWired(config, rest, busNo, sub, last);
      if node.Node? {
        ProgrammedIsWired(config, node.below, bus + 1, bus + 1, sub);
      }
    }
  }

  lemma PartsWithin(node: Found, rest: map<nat, Registers>, config: map<nat, Registers>)
    requires Within(ProgrammedNode(node) + rest, config)
    requires node.bdf !in rest && (node.Node? ==> node.bdf !in Programmed(node.below) && Programmed(node.below).Keys !! rest.Keys)
    ensures RegsOf(config, node.bdf) == RegistersOf(node) && Within(rest, config)
    ensures node.Node? ==> Within(Programmed(node.below), config)
  {
    hide RegistersOf, Programmed;
    var all := ProgrammedNode(node) + rest;
    assert node.bdf in all && all[node.bdf] == RegistersOf(node);
    forall k | k in rest ensures k in config && config[k] == rest[k] {
      assert k in all && all[k] == rest[k];
    }
    if node.Node? {
      var below := Programmed(node.below);
      forall k | k in below ensures k in config && config[k] == below[k] {
        assert k !in rest && k != node.bdf;
        assert k in all && all[k] == below[k];
      }
    }
  }

  lemma {:induction false} ScanOrders(slots: seq<Slot>, i: nat, busNo: nat, bus: nat, mem: nat)
    requires i <= |slots|
    ensures var found := Scan(slots, i, busNo, bus, mem).0;
            Ordered(found) && (found != [] ==> found[0].bdf >= busNo * SLOTS + i)
    decreases slots, |slots| - i
  {
    hide AddrToReg;
    if i < |slots| {
      if !Visited(slots, i) {
        ScanOrders(slots, i + 1, busNo, bus, mem);
      } else {
        if slots[i].Bridge? {
          ScanOrders(slots[i].below, 0, bus + 1, bus + 1, if SizeOf(slots[i]) > 0 then mem + MB else mem);
        }
        var (node, bus', mem') := ScanOne(slots[i], busNo * SLOTS + i, bus, mem);
        ScanOrders(slots, i + 1, busNo, bus', mem');
        assert ([node] + Scan(slots, i + 1, busNo, bus', mem').0)[1..] == Scan(slots, i + 1, busNo, bus', mem').0;
      }
    }
  }

  /** After the scan the fabric, which only has the registers, routes every bus number and every address
      as the found tree says. */
  lemma FirstScanRegisters(slots: seq<Slot>, root: nat, mem: nat, before: map<nat, Registers>, a: nat)
    requires WellFormed(slots)
    ensures var found, config := Scan(slots, 0, root, root, mem).0, before + Programmed(Scan(slots, 0, root, root, mem).0);
            && RouteBusBy(config, found, a) == RouteBus(found, a)
            && RouteMemBy(config, found, a) == RouteMem(found, a)
    ensures var found := Scan(slots, 0, root, root, mem).0;
            && (forall k :: k in Bdfs(found) <==> k in Programmed(found))
            && forall i, j :: 0 <= i < j < |Bdfs(found)| ==> Bdfs(found)[i] != Bdfs(found)[j]
  {
    hide Scan, Numbered, Ordered, Programmed, Bdfs, Wired, RouteBusBy, RouteBus, RouteMemBy, RouteMem;
    var (found, last, _) := Scan(slots, 0, root, root, mem);
    ScanNumbers(slots, 0, root, root, mem);
    ScanOrders(slots, 0, root, root, mem);
    ProgrammedIsWired(before + Programmed(found), found, root, root, last);
    WiredRoutes(before + Programmed(found), found, a);
    DevicesOnce(found, root, root, last);
  }

  /** The functions in the order they were found, each before those below it. */
  function Bdfs(nodes: seq<Found>): seq<nat>
    decreases nodes
  {
    if nodes == [] then [] else BdfsOfNode(nodes[0]) + Bdfs(nodes[1..])
  }

  function BdfsOfNode(node: Found): seq<nat>
    decreases node
  {
    [node.bdf] + if node.Node? then Bdfs(node.below) else []
  }

  /** The devices in the list are those that were programmed, and none is in it twice. */
  lemma {:induction false} DevicesOnce(nodes: seq<Found>, busNo: nat, bus: nat, last: nat)
    requires Numbered(nodes, busNo, bus, last) && busNo <= bus && Ordered(nodes)
    ensures forall k :: k in Bdfs(nodes) <==> k in Programmed(nodes)
    ensures forall i, j :: 0 <= i < j < |Bdfs(nodes)| ==> Bdfs(nodes)[i] != Bdfs(nodes)[j]
    decreases nodes
  {
    hide Programmed, Buses, UpTo;
    if nodes == [] {
      NothingToProgram();
    } else {
      var node, rest := nodes[0], nodes[1..];
      var sub := if node.Node? then node.subordinate else bus;
      if node.Node? {
        BusesContiguous(node.below, bus + 1, bus + 1, sub);
        ProgrammedKeys(node.below, bus + 1, bus + 1, sub);
        DevicesOnce(node.below, bus + 1, bus + 1, sub);
      }
      FirstKey(rest, busNo, sub, last);
      DevicesOnce(rest, busNo, sub, last);
      ProgrammedCons(nodes);
      ApartJoin(BdfsOfNode(node), Bdfs(rest));
    }
  }

  lemma ApartJoin(x: seq<nat>, y: seq<nat>)
    requires (forall i, j :: 0 <= i < j < |x| ==> x[i] != x[j]) && (forall i, j :: 0 <= i < j < |y| ==> y[i] != y[j])
    requires forall k :: k in x ==> k !in y
    ensures forall i, j :: 0 <= i < j < |x + y| ==> (x + y)[i] != (x + y)[j]
  {
    forall i, j | 0 <= i < j < |x + y| ensures (x + y)[i] != (x + y)[j] {
      if i < |x| <= j { assert x[i] in x && y[j - |x|] in y; }
    }
  }

  lemma {:induction false} BdfsAppend(nodes: seq<Found>, node: Found)
    ensures Bdfs(nodes + [node]) == Bdfs(nodes) + BdfsOfNode(node)
    decreases |nodes|
  {
    hide BdfsOfNode;
    if nodes == [] {
      assert nodes + [node] == [node];
      assert Bdfs([node]) == BdfsOfNode(node) + [];
    } else {
      BdfsAppend(nodes[1..], node);
      assert (nodes + [node])[1..] == nodes[1..] + [node];
      JoinAssoc(BdfsOfNode(nodes[0]), Bdfs(nodes[1..]), BdfsOfNode(node));
    }
  }

  lemma JoinAssoc<T>(a: seq<T>, b: seq<T>, c: seq<T>)
    ensures (a + b) + c == a + (b + c)
  {}

  function Joined(found: seq<Found>, rest: (seq<Found>, nat, nat)): (seq<Found>, nat, nat) {
    (found + rest.0, rest.1, rest.2)
  }

  lemma JoinNothing(rest: (seq<Found>, nat, nat))
    ensures Joined([], rest) == rest
  {
    assert [] + rest.0 == rest.0;
  }

  lemma JoinOne(found: seq<Found>, node: Found, rest: (seq<Found>, nat, nat))
    ensures Joined(found, ([node] + rest.0, rest.1, rest.2)) == Joined(found + [node], rest)
  {
    JoinAssoc(found, [node], rest.0);
  }

  lemma JoinEnd(found: seq<Found>, bus: nat, mem: nat)
    ensures Joined(found, ([], bus, mem)) == (found, bus, mem)
  {
    assert found + [] == found;
  }

  lemma ScanSkips(slots: seq<Slot>, i: nat, busNo: nat, bus: nat, mem: nat)
    requires i < |slots| && !Visited(slots, i)
    ensures Scan(slots, i, busNo, bus, mem) == Scan(slots, i + 1, busNo, bus, mem)
  {}

  lemma ScanVisits(slots: seq<Slot>, i: nat, busNo: nat, bus: nat, mem: nat)
    requires i < |slots| && Visited(slots, i)
    ensures var (node, bus', mem') := ScanOne(slots[i], busNo * SLOTS + i, bus, mem);
            var rest := Scan(slots, i + 1, busNo, bus', mem');
            Scan(slots, i, busNo, bus, mem) == ([node] + rest.0, rest.1, rest.2)
  {}

  lemma ScanEnds(slots: seq<Slot>, busNo: nat, bus: nat, mem: nat)
    ensures Scan(slots, |slots|, busNo, bus, mem) == ([], bus, mem)
  {}

  lemma NothingProgrammed(config: map<nat, Registers>, devices: seq<nat>)
    ensures config + Programmed([]) == config && devices + Bdfs([]) == devices
  {}

  /** The bridge as found when the scan behind it ends. */
  function BridgeNode(bdf: nat, barBase: nat, size: nat, bus: nat, memoryStart: nat, behind: (seq<Found>, nat, nat)): (node: Found)
    requires memoryStart <= behind.2
    ensures node.Node? && node.bdf == bdf && node.below == behind.0
  {
    Node(bdf, barBase, size, bus + 1, behind.1, WindowOver(memoryStart, behind.2), behind.0)
  }

  lemma BridgeFound(slot: Slot, bdf: nat, bus: nat, mem: nat)
    requires slot.Bridge?
    ensures var size := SizeOf(slot);
            var next := if size > 0 then mem + MB else mem;
            var behind := Scan(slot.below, 0, bus + 1, bus + 1, next);
            ScanOne(slot, bdf, bus, mem) == (BridgeNode(bdf, mem, size, bus, next, behind), behind.1, behind.2)
  {
    hide Scan, AddrToReg;
  }

  lemma EndpointFound(slot: Slot, bdf: nat, bus: nat, mem: nat)
    requires slot.Endpoint?
    ensures var size := SizeOf(slot);
            ScanOne(slot, bdf, bus, mem) == (Leaf(bdf, mem, size), bus, if size > 0 then mem + MB else mem)
  {}

  /** The scan behind a bridge does not write to the bridge. */
  lemma NotBelow(below: seq<Slot>, bdf: nat, bus: nat, mem: nat)
    requires WellFormed(below) && bdf / SLOTS <= bus
    ensures bdf !in Programmed(Scan(below, 0, bus + 1, bus + 1, mem).0)
    ensures forall k :: k in Programmed(Scan(below, 0, bus + 1, bus + 1, mem).0) ==> bus < k / SLOTS
  {
    hide Scan, Programmed, Numbered, Bridges;
    ScanNumbers(below, 0, bus + 1, bus + 1, mem);
    var (sub, last, _) := Scan(below, 0, bus + 1, bus + 1, mem);
    ProgrammedKeys(sub, bus + 1, bus + 1, last);
  }

  function WithWindow(regs: Registers, window: Option<Window>): Registers {
    match window
    case None => regs
    case Some(w) => regs.(memoryBase := Some(w.baseReg), memoryLimit := Some(w.limitReg))
  }

  lemma RegistersOfBridge(node: Found, bdf: nat, barBase: nat, size: nat, bus: nat, memoryStart: nat, behind: (seq<Found>, nat, nat))
    requires memoryStart <= behind.2 && node == BridgeNode(bdf, barBase, size, bus, memoryStart, behind)
    ensures node.Node? && node.bdf == bdf && node.below == behind.0
    ensures RegistersOf(node) ==
              WithWindow(Registers(if size > 0 then barBase else 0, bus + 1, 0xFF, None, None), WindowOver(memoryStart, behind.2)).(subordinate := behind.1)
  {}

  lemma NoWindow(mem: nat, regs: Registers)
    ensures WithWindow(regs, WindowOver(mem, mem)) == regs
  {}

  lemma Overwritten<K, V>(m: map<K, V>, k: K, v: V, w: V)
    ensures m[k := v][k := w] == m[k := w]
  {}

  /** A bridge's registers are written before and after those of the bus behind it. */
  lemma WriteOverMerge(before: map<nat, Registers>, mid: map<nat, Registers>, after: map<nat, Registers>, bdf: nat, regs: Registers,
                       below: map<nat, Registers>)
    requires bdf !in below && bdf in mid && mid == before[bdf := mid[bdf]]
    requires after == (mid + below)[bdf := regs]
    ensures after == before + (map[bdf := regs] + below)
  {}

  ghost predicate AddedKeys(added: map<nat, Registers>, bdf: nat, bus: nat, last: nat) {
    forall k :: k in added ==> k == bdf || bus < k / SLOTS <= last
  }

  /** What the scan of one function writes. */
  lemma NodeKeys(slot: Slot, bdf: nat, bus: nat, mem: nat)
    requires slot != Empty && (slot.Bridge? ==> WellFormed(slot.below))
    ensures var (node, last, _) := ScanOne(slot, bdf, bus, mem);
            AddedKeys(ProgrammedNode(node), bdf, bus, last)
  {
    hide AddrToReg, Scan, Programmed;
    if slot.Bridge? {
      var next := if SizeOf(slot) > 0 then mem + MB else mem;
      ScanNumbers(slot.below, 0, bus + 1, bus + 1, next);
      var (sub, last, _) := Scan(slot.below, 0, bus + 1, bus + 1, next);
      ProgrammedKeys(sub, bus + 1, bus + 1, last);
    }
  }

  /** The functions written so far lie on buses up to `bus`, and before position `i` on `busNo`. */
  ghost predicate KeysUpTo(config: map<nat, Registers>, busNo: nat, bus: nat, i: nat) {
    forall k :: k in config ==> k / SLOTS <= bus && (k / SLOTS == busNo ==> k < busNo * SLOTS + i)
  }

  lemma NoKeysYet(config: map<nat, Registers>, busNo: nat)
    requires forall k :: k in config ==> k / SLOTS < busNo
    ensures KeysUpTo(config, busNo, busNo, 0)
  {}

  lemma KeysBelow(config: map<nat, Registers>, busNo: nat, bus: nat, i: nat)
    requires KeysUpTo(config, busNo, bus, i) && i < SLOTS
    ensures forall k :: k in config ==> k / SLOTS <= bus
    ensures busNo * SLOTS + i !in config
  {
    DivModUnique(busNo * SLOTS + i, SLOTS, busNo, i);
  }

  lemma KeysSkip(config: map<nat, Registers>, busNo: nat, bus: nat, i: nat)
    requires KeysUpTo(config, busNo, bus, i)
    ensures KeysUpTo(config, busNo, bus, i + 1)
  {}

  lemma KeysGrow(config: map<nat, Registers>, added: map<nat, Registers>, busNo: nat, bus: nat, i: nat, last: nat)
    requires KeysUpTo(config, busNo, bus, i) && busNo <= bus <= last && i < SLOTS
    requires AddedKeys(added, busNo * SLOTS + i, bus, last)
    ensures KeysUpTo(config + added, busNo, last, i + 1)
  {
    DivModUnique(busNo * SLOTS + i, SLOTS, busNo, i);
  }

  class PciBusDriver {
    // the functions found, by BDF
    var devices: seq<nat>
    // the configuration registers written so far
    var config: map<nat, Registers>

    constructor ()
      ensures devices == [] && config == map[]
    {
      devices := [];
      config := map[];
    }

    function Get(bdf: nat): Registers
      reads this`config
    {
      if bdf in config then config[bdf] else POWER_ON
    }

    method SetBar0(bdf: nat, value: nat)
      modifies this`config
      ensures config == old(config)[bdf := old(Get(bdf)).(bar0 := value)]
    {
      config := config[bdf := Get(bdf).(bar0 := value)];
    }

    method SetSecondaryBus(bdf: nat, bus: nat)
      modifies this`config
      ensures config == old(config)[bdf := old(Get(bdf)).(secondary := bus)]
    {
      config := config[bdf := Get(bdf).(secondary := bus)];
    }

    method SetSubordinateBus(bdf: nat, bus: nat)
      modifies this`config
      ensures config == old(config)[bdf := old(Get(bdf)).(subordinate := bus)]
    {
      config := config[bdf := Get(bdf).(subordinate := bus)];
    }

    method SetMemoryBase(bdf: nat, addr: nat)
      modifies this`config
      ensures config == old(config)[bdf := old(Get(bdf)).(memoryBase := Some(AddrToReg(addr)))]
    {
      config := config[bdf := Get(bdf).(memoryBase := Some(AddrToReg(addr)))];
    }

    method SetMemoryLimit(bdf: nat, addr: nat)
      modifies this`config
      ensures config == old(config)[bdf := old(Get(bdf)).(memoryLimit := Some(AddrToReg(addr)))]
    {
      config := config[bdf := Get(bdf).(memoryLimit := Some(AddrToReg(addr)))];
    }

    /** A bridge with memory below it gets its window. */
    method SetWindow(bdf: nat, memoryStart: nat, memoryEnd: nat)
      requires memoryStart <= memoryEnd
      modifies this`config
      ensures config == (if memoryStart == memoryEnd then old(config)
                         else old(config)[bdf := WithWindow(old(Get(bdf)), WindowOver(memoryStart, memoryEnd))])
    {
      hide AddrToReg;
      if memoryStart != memoryEnd {
        SetMemoryBase(bdf, memoryStart);
        SetMemoryLimit(bdf, memoryEnd - 1);
      }
    }

    /** Ones were written to the BAR; what is read back tells its length. */
    method GetBar0Size(slot: Slot) returns (size: nat)
      requires slot != Empty
      ensures size == slot.barLength % MEMORY_END
    {
      size := DetectedSize(slot.barLength);
    }

    /** Write all ones, read the size back, and place the BAR if there is one. */
    method CheckBarSizeAndSet(bdf: nat, memoryBase: nat, slot: Slot) returns (size: nat)
      requires slot != Empty
      modifies this`config
      ensures size == slot.barLength % MEMORY_END
      ensures config == old(config)[bdf := old(Get(bdf)).(bar0 := if size > 0 then memoryBase else 0)]
    {
      SetBar0(bdf, 0xFFFFFFFF);
      size := GetBar0Size(slot);
      if size > 0 {
        SetBar0(bdf, memoryBase);
      } else {
        SetBar0(bdf, 0);
      }
    }

    /** The bus behind a bridge, with the bridge's own registers. */
    method ScanBridge(bdf: nat, ghost before: map<nat, Registers>, below: seq<Slot>, barBase: nat, size: nat, bus: nat, memoryStart: nat)
      returns (node: Found, lastBus: nat, memoryEnd: nat)
      requires WellFormed(below) && bdf / SLOTS <= bus
      requires (forall k :: k in before ==> k / SLOTS <= bus) && bdf !in before
      requires config == before[bdf := POWER_ON.(bar0 := if size > 0 then barBase else 0)]
      modifies this
      ensures var behind := Scan(below, 0, bus + 1, bus + 1, memoryStart);
              lastBus == behind.1 && memoryEnd == behind.2 && node == BridgeNode(bdf, barBase, size, bus, memoryStart, behind)
      ensures config == before + ProgrammedNode(node)
      ensures devices == old(devices) + Bdfs(node.below)
      decreases below, 1
    {
      hide Scan, AddrToReg, Programmed, Bdfs, WellFormed, RegistersOf, BridgeNode, WindowOver;
      SetSecondaryBus(bdf, bus + 1);
      SetSubordinateBus(bdf, 0xFF);
      ghost var mid := config;
      var sub;
      sub, lastBus, memoryEnd := ScanBus(below, bus + 1, memoryStart);
      ghost var scanned := config;
      NotBelow(below, bdf, bus, memoryStart);
      assert Get(bdf) == mid[bdf];
      SetWindow(bdf, memoryStart, memoryEnd);
      NoWindow(memoryStart, mid[bdf]);
      Overwritten(scanned, bdf, Get(bdf), Get(bdf).(subordinate := lastBus));
      SetSubordinateBus(bdf, lastBus);
      node := BridgeNode(bdf, barBase, size, bus, memoryStart, (sub, lastBus, memoryEnd));
      RegistersOfBridge(node, bdf, barBase, size, bus, memoryStart, (sub, lastBus, memoryEnd));
      WriteOverMerge(before, mid, config, bdf, RegistersOf(node), Programmed(sub));
    }

    /** One function: its BAR, and if it is a bridge everything behind it. */
    method ScanFunction(slot: Slot, bdf: nat, bus: nat, memoryStart: nat) returns (node: Found, lastBus: nat, memoryEnd: nat)
      requires slot != Empty && (slot.Bridge? ==> WellFormed(slot.below)) && bdf / SLOTS <= bus
      requires (forall k :: k in config ==> k / SLOTS <= bus) && bdf !in config
      modifies this
      ensures (node, lastBus, memoryEnd) == ScanOne(slot, bdf, bus, memoryStart)
      ensures config == old(config) + ProgrammedNode(node)
      ensures devices == old(devices) + BdfsOfNode(node)
      decreases slot, 2
    {
      hide Scan, ScanOne, AddrToReg, Programmed, Bdfs, BridgeNode, WindowOver;
      lastBus, memoryEnd := bus, memoryStart;
      devices := devices + [bdf];
      var size := CheckBarSizeAndSet(bdf, memoryEnd, slot);
      if size > 0 {
        memoryEnd := memoryEnd + MB;
      }
      if slot.Bridge? {
        BridgeFound(slot, bdf, bus, memoryStart);
        node, lastBus, memoryEnd := ScanBridge(bdf, old(config), slot.below, memoryStart, size, bus, memoryEnd);
      } else {
        EndpointFound(slot, bdf, bus, memoryStart);
        node := Leaf(bdf, memoryStart, size);
      }
    }

    /** `_scan_bus` of a bus none of whose functions has been found before. */
    method ScanBus(slots: seq<Slot>, busNo: nat, memoryStart: nat) returns (found: seq<Found>, bus: nat, memory: nat)
      requires WellFormed(slots) && forall k :: k in config ==> k / SLOTS < busNo
      modifies this
      ensures (found, bus, memory) == Scan(slots, 0, busNo, busNo, memoryStart)
      ensures config == old(config) + Programmed(found)
      ensures devices == old(devices) + Bdfs(found)
      decreases slots, 0
    {
      hide AddrToReg, Scan, ScanOne, Programmed, ProgrammedNode, Bdfs, BdfsOfNode, Joined, KeysUpTo, AddedKeys;
      bus, memory, found := busNo, memoryStart, [];
      var multiFunctionDevices: set<nat> := {};
      NothingProgrammed(config, devices);
      NoKeysYet(config, busNo);
      JoinNothing(Scan(slots, 0, busNo, busNo, memoryStart));
      assert |slots| == SLOTS;
      for i := 0 to SLOTS
        invariant bus >= busNo
        invariant Joined(found, Scan(slots, i, busNo, bus, memory)) == Scan(slots, 0, busNo, busNo, memoryStart)
        invariant config == old(config) + Programmed(found)
        invariant devices == old(devices) + Bdfs(found)
        invariant KeysUpTo(config, busNo, bus, i)
        invariant forall d: nat :: d in multiFunctionDevices <==> d * 8 < i && MultiFunction(slots[d * 8])
      {
        if i % 8 != 0 && i / 8 !in multiFunctionDevices {
          ScanSkips(slots, i, busNo, bus, memory);
          KeysSkip(config, busNo, bus, i);
          continue;
        }
        var slot := slots[i];
        if slot == Empty {
          ScanSkips(slots, i, busNo, bus, memory);
          KeysSkip(config, busNo, bus, i);
          continue;
        }
        if MultiFunction(slot) {
          multiFunctionDevices := multiFunctionDevices + {i / 8};
        }
        var node;
        DivModUnique(busNo * SLOTS + i, SLOTS, busNo, i);
        NodeKeys(slot, busNo * SLOTS + i, bus, memory);
        ScanVisits(slots, i, busNo, bus, memory);
        KeysBelow(config, busNo, bus, i);
        ghost var known, busBefore := config, bus;
        node, bus, memory := ScanFunction(slot, busNo * SLOTS + i, bus, memory);
        KeysGrow(known, ProgrammedNode(node), busNo, busBefore, i, bus);
        ProgrammedAppend(found, node);
        MergeAssoc(old(config), Programmed(found), ProgrammedNode(node));
        BdfsAppend(found, node);
        JoinAssoc(old(devices), Bdfs(found), BdfsOfNode(node));
        JoinOne(found, node, Scan(slots, i + 1, busNo, bus, memory));
        found := found + [node];
      }
      ScanEnds(slots, busNo, bus, memory);
      JoinEnd(found, bus, memory);
    }
  }
}
