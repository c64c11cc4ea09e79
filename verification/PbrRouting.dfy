/** Port-based routing: the DPID routing tables a fabric manager programs, and the data plane that
    decodes an address to a DPID, encapsulates, looks the DPID up and decapsulates. */
module PbrRouting {
  import opened Bits
  import opened HdmDecoder
  import opened Outcomes

  // ----- routing tables -----

  const DRT_TABLE_SIZE: nat := 4096

  datatype EntryType = INVALID | PHYSICAL_PORT | RGT_INDEX | RESERVED

  datatype DrtEntry = DrtEntry(entryType: EntryType, routingTarget: nat)

  datatype ReturnCode = SUCCESS | INVALID_INPUT

  type Table = seq<DrtEntry>

  /** A table has one entry for each DPID, and none of the reserved type. */
  predicate TableOk(t: Table) {
    |t| == DRT_TABLE_SIZE && forall i :: 0 <= i < |t| ==> t[i].entryType != RESERVED
  }

  predicate TablesOk(tables: seq<Table>) {
    forall k :: 0 <= k < |tables| ==> TableOk(tables[k])
  }

  /** What makes a write of the table acceptable. */
  predicate Writable(tables: seq<Table>, drtIndex: int, start: int, entries: seq<DrtEntry>) {
    && 0 <= drtIndex < |tables|
    && 0 <= start && start + |entries| <= DRT_TABLE_SIZE
    && forall i :: 0 <= i < |entries| ==> entries[i].entryType != RESERVED
  }

  /** The tables after a request: all entries are written, or none. */
  function AfterSet(tables: seq<Table>, drtIndex: int, start: int, entries: seq<DrtEntry>): seq<Table>
    requires TablesOk(tables)
  {
    if Writable(tables, drtIndex, start, entries) then
      tables[drtIndex := tables[drtIndex][..start] + entries + tables[drtIndex][start + |entries|..]]
    else tables
  }

  lemma SetKeepsTables(tables: seq<Table>, drtIndex: int, start: int, entries: seq<DrtEntry>)
    requires TablesOk(tables)
    ensures TablesOk(AfterSet(tables, drtIndex, start, entries)) && |AfterSet(tables, drtIndex, start, entries)| == |tables|
  {
    if Writable(tables, drtIndex, start, entries) {
      assert TableOk(tables[drtIndex]);
      assert TableOk(tables[drtIndex][..start] + entries + tables[drtIndex][start + |entries|..]);
    }
  }

  /** A request writes its entries exactly if its table exists, they fit the 4096 and none is reserved; then
      these entries and no others change. */
  lemma SetIsAllOrNothing(tables: seq<Table>, drtIndex: int, start: int, entries: seq<DrtEntry>, k: nat, dpid: nat)
    requires TablesOk(tables) && k < |tables| && dpid < 4096
    ensures var accepted := 0 <= drtIndex < |tables| && 0 <= start && start + |entries| <= 4096
                            && !exists i :: 0 <= i < |entries| && entries[i].entryType == RESERVED;
            var after := AfterSet(tables, drtIndex, start, entries);
            && |tables[k]| == 4096 && |after| == |tables| && |after[k]| == 4096
            && after[k][dpid] == if accepted && k == drtIndex && start <= dpid < start + |entries| then entries[dpid - start] else tables[k][dpid]
  {
    SizeOf(tables, k);
    SetKeepsTables(tables, drtIndex, start, entries);
    SizeOf(AfterSet(tables, drtIndex, start, entries), k);
  }

  datatype Request = Request(drtIndex: int, start: int, entries: seq<DrtEntry>)

  /** Requests are all or nothing, over every run. */
  function AfterAll(tables: seq<Table>, requests: seq<Request>): seq<Table>
    requires TablesOk(tables)
    decreases |requests|
  {
    if requests == [] then tables
    else
      var r := requests[0];
      SetKeepsTables(tables, r.drtIndex, r.start, r.entries);
      AfterAll(AfterSet(tables, r.drtIndex, r.start, r.entries), requests[1..])
  }

  /** The entry that the last acceptable request for a DPID has written. */
  function LastSet(tables: seq<Table>, requests: seq<Request>, k: nat, dpid: nat): DrtEntry
    requires TablesOk(tables) && k < |tables| && dpid < DRT_TABLE_SIZE
    decreases |requests|
  {
    assert TableOk(tables[k]);
    if requests == [] then tables[k][dpid]
    else
      var r := requests[|requests| - 1];
      if Writable(tables, r.drtIndex, r.start, r.entries) && r.drtIndex == k && r.start <= dpid < r.start + |r.entries|
      then r.entries[dpid - r.start]
      else LastSet(tables, requests[..|requests| - 1], k, dpid)
  }

  lemma {:induction false} AfterAllLast(tables: seq<Table>, requests: seq<Request>)
    requires TablesOk(tables) && requests != []
    ensures var n, r := |requests| - 1, requests[|requests| - 1];
            var before := AfterAll(tables, requests[..n]);
            TablesOk(before) && AfterAll(tables, requests) == AfterSet(before, r.drtIndex, r.start, r.entries)
    decreases |requests|
  {
    hide AfterSet;
    var n, r0 := |requests| - 1, requests[0];
    SetKeepsTables(tables, r0.drtIndex, r0.start, r0.entries);
    var next := AfterSet(tables, r0.drtIndex, r0.start, r0.entries);
    if n == 0 {
      assert requests[1..] == [];
    } else {
      AfterAllLast(next, requests[1..]);
      assert requests[1..][..n - 1] == requests[..n][1..];
      assert requests[1..][n - 1] == requests[n];
    }
  }

  /** Over every run of requests, acceptable or not, the tables keep their size and have no reserved
      entry, and every entry is the one last written to it by a request accepted as a whole. */
  lemma {:induction false} TablesOverRuns(tables: seq<Table>, requests: seq<Request>, k: nat, dpid: nat)
    requires TablesOk(tables) && k < |tables| && dpid < DRT_TABLE_SIZE
    ensures TablesOk(AfterAll(tables, requests)) && |AfterAll(tables, requests)| == |tables|
    ensures |AfterAll(tables, requests)[k]| == DRT_TABLE_SIZE
    ensures AfterAll(tables, requests)[k][dpid] == LastSet(tables, requests, k, dpid)
    decreases |requests|
  {
    hide TableOk;
    if requests != [] {
      var n, r := |requests| - 1, requests[|requests| - 1];
      TablesOverRuns(tables, requests[..n], k, dpid);
      AfterAllLast(tables, requests);
      var before := AfterAll(tables, requests[..n]);
      SetKeepsTables(before, r.drtIndex, r.start, r.entries);
      SizeOf(before, if 0 <= r.drtIndex < |before| then r.drtIndex else k);
      SizeOf(AfterAll(tables, requests), k);
    } else {
      SizeOf(tables, k);
    }
  }

  lemma SizeOf(tables: seq<Table>, k: nat)
    requires TablesOk(tables) && k < |tables|
    ensures |tables[k]| == DRT_TABLE_SIZE
  {
    assert TableOk(tables[k]);
  }

  class PbrSwitchManager {
    var tables: seq<Table>

    predicate Valid()
      reads this
    {
      TablesOk(tables)
    }

    constructor (numDrts: nat)
      ensures Valid() && |tables| == numDrts
      ensures forall k, d :: 0 <= k < numDrts && 0 <= d < |tables[k]| ==> tables[k][d] == DrtEntry(INVALID, 0)
    {
      tables := seq(numDrts, _ => seq(DRT_TABLE_SIZE, _ => DrtEntry(INVALID, 0)));
    }

    method GetDrt(drtIndex: int, start: int, count: nat) returns (r: Option<seq<DrtEntry>>)
      requires Valid()
      ensures r == if 0 <= drtIndex < |tables| && 0 <= start && start + count <= |tables[drtIndex]|
                   then Some(tables[drtIndex][start..start + count]) else None
    {
      if drtIndex < 0 || drtIndex >= |tables| { return None; }
      SizeOf(tables, drtIndex);
      var end := start + count;
      if start < 0 || end > DRT_TABLE_SIZE { return None; }
      return Some(tables[drtIndex][start..end]);
    }

    method SetDrt(drtIndex: int, start: int, entries: seq<DrtEntry>) returns (code: ReturnCode)
      requires Valid()
      modifies this
      ensures Valid() && tables == AfterSet(old(tables), drtIndex, start, entries)
      ensures code == if Writable(old(tables), drtIndex, start, entries) then SUCCESS else INVALID_INPUT
    {
      hide TableOk;
      SetKeepsTables(tables, drtIndex, start, entries);
      if drtIndex < 0 || drtIndex >= |tables| { return INVALID_INPUT; }
      var end := start + |entries|;
      if start < 0 || end > DRT_TABLE_SIZE { return INVALID_INPUT; }
      for i := 0 to |entries|
        invariant forall j :: 0 <= j < i ==> entries[j].entryType != RESERVED
      {
        if entries[i].entryType == RESERVED { return INVALID_INPUT; }
      }
      SizeOf(tables, drtIndex);
      var table := tables[drtIndex];
      for i := 0 to |entries|
        invariant table == tables[drtIndex][..start] + entries[..i] + tables[drtIndex][start + i..]
      {
        table := table[start + i := entries[i]];
      }
      assert entries[..|entries|] == entries;
      tables := tables[drtIndex := table];
      return SUCCESS;
    }
  }

  // ----- packets and routing -----

  /** `NoInner` is a PBR packet that came over the wire: its inner packet is not attached. */
  datatype Packet =
    | Hbr(address: Option<nat>, payload: nat)
    | Pbr(spid: nat, dpid: nat, inner: Packet)
    | NoInner(spid: nat, dpid: nat, payload: nat)
  {
    predicate IsPbr() {
      Pbr? || NoInner?
    }
  }

  /** SPID and DPID have twelve bits in the header. */
  function Encapsulate(spid: nat, dpid: nat, inner: Packet): Packet {
    Pbr(spid % DRT_TABLE_SIZE, dpid % DRT_TABLE_SIZE, inner)
  }

  function Decapsulated(p: Packet): Packet
    requires p.IsPbr()
  {
    if p.Pbr? then p.inner else p
  }

  datatype Egress = Egress(port: nat, packet: Packet)

  /** Where a PBR packet leaves the switch, if anywhere. */
  function PbrEgress(tables: seq<Table>, ports: nat, p: Packet): Option<Egress>
    requires TablesOk(tables) && p.IsPbr()
  {
    if tables == [] || p.dpid >= |tables[0]| then None
    else
      var e := tables[0][p.dpid];
      if e.entryType == PHYSICAL_PORT && e.routingTarget < ports then Some(Egress(e.routingTarget, Decapsulated(p))) else None
  }

  /** Where any packet leaves; decoding may raise. */
  function RouteOf(tables: seq<Table>, decoders: Option<seq<TargetDecoder>>, ports: nat, ingress: nat, p: Packet): Outcome<Option<Egress>>
    requires TablesOk(tables)
  {
    if p.IsPbr() then Returned(PbrEgress(tables, ports, p))
    else if decoders == None || p.address == None then Returned(None)
    else
      match LookupTarget(decoders.value, p.address.value)
      case Raised(e) => Raised(e)
      case Returned(None) => Returned(None)
      case Returned(Some(dpid)) => Returned(PbrEgress(tables, ports, Encapsulate(ingress, dpid, p)))
  }

  class PbrSwitchRouter {
    const manager: PbrSwitchManager
    const decoders: TargetDecoderManager?
    var egress: seq<seq<Packet>>

    constructor (manager: PbrSwitchManager, decoders: TargetDecoderManager?, ports: nat)
      ensures this.manager == manager && this.decoders == decoders && egress == seq(ports, _ => [])
    {
      this.manager := manager;
      this.decoders := decoders;
      egress := seq(ports, _ => []);
    }

    /** A plain packet is encapsulated and routed once more; nothing else comes back here. */
    method RoutePacket(ingress: nat, packet: Packet) returns (r: Outcome<bool>)
      requires manager.Valid()
      modifies this`egress
      ensures var table := if decoders == null then None else Some(decoders.decoders);
              match RouteOf(manager.tables, table, |old(egress)|, ingress, packet)
              case Raised(e) => r == Raised(e) && egress == old(egress)
              case Returned(None) => r == Returned(false) && egress == old(egress)
              case Returned(Some(out)) =>
                && r == Returned(true) && out.port < |old(egress)|
                && egress == old(egress)[out.port := old(egress)[out.port] + [out.packet]]
      decreases if packet.IsPbr() then 0 else 1
    {
      hide LookupTarget, TablesOk;
      if packet.IsPbr() {
        var drt := manager.GetDrt(0, packet.dpid, 1);
        if drt.None? { return Returned(false); }
        var entry := drt.value[0];
        if entry.entryType != PHYSICAL_PORT { return Returned(false); }
        var port := entry.routingTarget;
        if port >= |egress| { return Returned(false); }
        if packet.Pbr? {
          egress := egress[port := egress[port] + [packet.inner]];
        } else {
          egress := egress[port := egress[port] + [packet]];
        }
        return Returned(true);
      }
      if decoders == null || packet.address == None { return Returned(false); }
      var dpid := decoders.GetTarget(packet.address.value);
      match dpid
      case Raised(e) => return Raised(e);
      case Returned(None) => return Returned(false);
      case Returned(Some(d)) => r := RoutePacket(ingress, Encapsulate(ingress, d, packet));
    }
  }

  /** End to end: a plain packet leaves at a port, unchanged, exactly when some decoder turns its address
      into a DPID whose twelve bits are routed to that port; otherwise it is dropped, as it is without an
      address or without decoders. What the decoder raises is raised. */
  lemma PlainPacketDelivery(tables: seq<Table>, decoders: seq<TargetDecoder>, ports: nat, ingress: nat, address: nat, payload: nat, port: nat, out: Packet)
    requires TablesOk(tables) && tables != [] && |tables[0]| == DRT_TABLE_SIZE
    ensures var p := Hbr(Some(address), payload);
            RouteOf(tables, Some(decoders), ports, ingress, p) == Returned(Some(Egress(port, out))) <==>
              match LookupTarget(decoders, address)
              case Returned(Some(dpid)) => out == p && port < ports && tables[0][dpid % DRT_TABLE_SIZE] == DrtEntry(PHYSICAL_PORT, port)
              case _ => false
    ensures RouteOf(tables, Some(decoders), ports, ingress, Hbr(Some(address), payload)).Raised? <==> LookupTarget(decoders, address).Raised?
    ensures RouteOf(tables, None, ports, ingress, Hbr(Some(address), payload)) == Returned(None)
    ensures RouteOf(tables, Some(decoders), ports, ingress, Hbr(None, payload)) == Returned(None)
  {
    hide LookupTarget, TablesOk;
  }

  /** A packet that has its PBR header already leaves at a port exactly when the first table routes its DPID
      there, whatever the decoders say: as it is when it came over the wire, and without its header when its
      inner packet is attached. Otherwise it is dropped, and nothing is raised. */
  lemma PbrPacketDelivery(tables: seq<Table>, decoders: Option<seq<TargetDecoder>>, ports: nat, ingress: nat, p: Packet, port: nat, out: Packet)
    requires TablesOk(tables) && p.IsPbr()
    ensures RouteOf(tables, decoders, ports, ingress, p) == Returned(Some(Egress(port, out))) <==>
              && tables != [] && p.dpid < DRT_TABLE_SIZE && tables[0][p.dpid] == DrtEntry(PHYSICAL_PORT, port) && port < ports
              && out == match p
                        case Pbr(_, _, inner) => inner
                        case _ => p
    ensures RouteOf(tables, decoders, ports, ingress, p).Returned?
  {
    if tables != [] { SizeOf(tables, 0); }
  }

  /** With the interleaved decoder of section 8.2.4.19 of CXL 3.0 the port is the one routed for the
      twelve bits of the DPID of the address's granule. */
  lemma InterleavedDelivery(tables: seq<Table>, decoders: seq<TargetDecoder>, k: nat, ports: nat, ingress: nat, address: nat, payload: nat)
    requires TablesOk(tables) && tables != [] && |tables[0]| == DRT_TABLE_SIZE
    requires k < |decoders| && decoders[k].Contains(address)
    requires forall i :: 0 <= i < k ==> !decoders[i].Contains(address)
    requires |decoders[k].targets| == Pow2(decoders[k].iw)
    ensures decoders[k].TargetIndex(address) < |decoders[k].targets|
    ensures var p, e := Hbr(Some(address), payload), tables[0][decoders[k].targets[decoders[k].TargetIndex(address)] % DRT_TABLE_SIZE];
            RouteOf(tables, Some(decoders), ports, ingress, p) ==
              Returned(if e.entryType == PHYSICAL_PORT && e.routingTarget < ports then Some(Egress(e.routingTarget, p)) else None)
  {
    hide LookupTarget, TablesOk, Pow2;
    LookupFirstTarget(decoders, address, k);
  }

  /** A DPID is looked up as it was decoded exactly when it has at most twelve bits, and the same holds for
      the SPID that is sent along. */
  lemma DpidKept(spid: nat, dpid: nat, inner: Packet)
    ensures var p := Encapsulate(spid, dpid, inner);
            && (p.dpid == dpid <==> dpid < DRT_TABLE_SIZE) && (p.spid == spid <==> spid < DRT_TABLE_SIZE)
            && p.dpid < DRT_TABLE_SIZE && p.spid < DRT_TABLE_SIZE && Decapsulated(p) == inner
  {}

  predicate SameRoute(tables: seq<Table>, ports: nat, p: Packet, q: Packet)
    requires TablesOk(tables) && p.IsPbr() && q.IsPbr()
  {
    PbrEgress(tables, ports, p) == PbrEgress(tables, ports, q)
  }

  /** A table that routes one DPID to port 0 and no other anywhere. */
  function OnlyRouted(d: nat): (tables: seq<Table>)
    requires d < DRT_TABLE_SIZE
    ensures TablesOk(tables) && |tables| == 1 && |tables[0]| == DRT_TABLE_SIZE
    ensures forall i :: 0 <= i < DRT_TABLE_SIZE ==> tables[0][i] == if i == d then DrtEntry(PHYSICAL_PORT, 0) else DrtEntry(INVALID, 0)
  {
    var t: Table := seq(DRT_TABLE_SIZE, i => if i == d then DrtEntry(PHYSICAL_PORT, 0) else DrtEntry(INVALID, 0));
    assert TableOk(t);
    [t]
  }

  /** Two decoded DPIDs cannot be told apart by any table exactly when their low twelve bits agree. */
  lemma DpidsSharingRoutes(spid: nat, a: nat, b: nat, inner: Packet)
    ensures (forall tables: seq<Table>, ports: nat :: TablesOk(tables) ==>
               SameRoute(tables, ports, Encapsulate(spid, a, inner), Encapsulate(spid, b, inner)))
            <==> a % DRT_TABLE_SIZE == b % DRT_TABLE_SIZE
  {
    var p, q := Encapsulate(spid, a, inner), Encapsulate(spid, b, inner);
    if p.dpid != q.dpid {
      hide TablesOk, TableOk, OnlyRouted;
      assert !SameRoute(OnlyRouted(p.dpid), 1, p, q);
    }
  }
}
