/** Many logical devices behind one link.

    Requests of LD `i` enter at upstream `i`, are relayed, stamped with the LD-ID, share one chain
    of queues to the device, are split by LD-ID and served by the memory of that LD; the responses
    share one chain back and are split again. The queues are unbounded; a packet moves from one
    queue to the next without a suspension in between. */
module LdFabric {
  import opened HdmDecoder
  import opened Outcomes

  datatype Packet<T> = Packet(ld: nat, body: T)

  datatype Req = MemRd(addr: nat) | MemInv(addr: nat) | MemWr(addr: nat, data: nat) | Other

  datatype Rsp = MemData(data: nat) | Cmp

  /** The LD-ID field of the CXL.mem headers has four bits. */
  const LD_IDS: nat := 16

  // ----- chains of queues -----

  /** Queues from the entry (first) to the exit (last) of a relayed path. */
  type Chain<T> = seq<seq<T>>

  /** The packets on a chain, oldest first. */
  function Flat<T>(c: Chain<T>): seq<T> {
    if c == [] then [] else Flat(c[1..]) + c[0]
  }

  function Push<T>(c: Chain<T>, x: T): Chain<T>
    requires c != []
  {
    c[0 := c[0] + [x]]
  }

  predicate Ready<T>(c: Chain<T>) {
    c != [] && c[|c| - 1] != []
  }

  function Front<T>(c: Chain<T>): T
    requires Ready(c)
  {
    c[|c| - 1][0]
  }

  function Pop<T>(c: Chain<T>): Chain<T>
    requires Ready(c)
  {
    c[|c| - 1 := c[|c| - 1][1..]]
  }

  predicate CanRelay<T>(c: Chain<T>, k: nat) {
    k + 1 < |c| && c[k] != []
  }

  /** One turn of a bind relay: from queue `k` to the next. */
  function Relay<T>(c: Chain<T>, k: nat): Chain<T>
    requires CanRelay(c, k)
  {
    c[k := c[k][1..]][k + 1 := c[k + 1] + [c[k][0]]]
  }

  lemma FlatPush<T>(c: Chain<T>, x: T)
    requires c != []
    ensures Flat(Push(c, x)) == Flat(c) + [x]
  {
    assert Push(c, x)[1..] == c[1..];
  }

  lemma Assoc<T>(a: seq<T>, b: seq<T>, c: seq<T>)
    ensures (a + b) + c == a + (b + c)
  {}

  lemma {:induction false} FlatPop<T>(c: Chain<T>)
    requires Ready(c)
    ensures Flat(c) == [Front(c)] + Flat(Pop(c))
  {
    var x := Front(c);
    if |c| == 1 {
      assert c[1..] == [] && Pop(c)[1..] == [];
      assert c[0] == [x] + c[0][1..];
      assert Flat(c) == c[0] && Flat(Pop(c)) == c[0][1..];
    } else {
      FlatPop(c[1..]);
      assert Pop(c)[1..] == Pop(c[1..]);
      assert Flat(Pop(c)) == Flat(Pop(c[1..])) + c[0];
      Assoc([x], Flat(Pop(c[1..])), c[0]);
    }
  }

  /** Relaying keeps the packets and their order. */
  lemma {:induction false} FlatRelay<T>(c: Chain<T>, k: nat)
    requires CanRelay(c, k)
    ensures Flat(Relay(c, k)) == Flat(c)
    decreases k
  {
    var d := Relay(c, k);
    if k == 0 {
      assert c[0] == [c[0][0]] + c[0][1..];
      assert d[1..] == Push(c[1..], c[0][0]);
      FlatPush(c[1..], c[0][0]);
    } else {
      FlatRelay(c[1..], k - 1);
      assert d[1..] == Relay(c[1..], k - 1);
    }
  }

  // ----- packets of one LD -----

  /** What the packets of LD `i` carry, in order. */
  function Of<T>(s: seq<Packet<T>>, i: nat): seq<T> {
    if s == [] then []
    else (if s[0].ld == i then [s[0].body] else []) + Of(s[1..], i)
  }

  function Bodies<T>(s: seq<Packet<T>>): (b: seq<T>)
    ensures |b| == |s|
  {
    if s == [] then [] else [s[0].body] + Bodies(s[1..])
  }

  lemma {:induction false} OfAppend<T>(s: seq<Packet<T>>, x: Packet<T>, i: nat)
    ensures Of(s + [x], i) == Of(s, i) + if x.ld == i then [x.body] else []
  {
    if s == [] {
      assert s + [x] == [x];
    } else {
      OfAppend(s[1..], x, i);
      assert (s + [x])[1..] == s[1..] + [x];
    }
  }

  lemma {:induction false} BodiesAppend<T>(s: seq<Packet<T>>, x: Packet<T>)
    ensures Bodies(s + [x]) == Bodies(s) + [x.body]
  {
    if s == [] {
      assert s + [x] == [x];
    } else {
      BodiesAppend(s[1..], x);
      assert (s + [x])[1..] == s[1..] + [x];
    }
  }

  predicate LdsBelow<T>(s: seq<Packet<T>>, n: nat) {
    forall k :: 0 <= k < |s| ==> s[k].ld < n
  }

  // ----- the memory of one LD -----

  datatype Ld = Ld(decoders: seq<DeviceDecoder>, mem: map<int, nat>, running: bool)
  {
    predicate Valid() {
      forall i :: 0 <= i < |decoders| ==> decoders[i].Valid()
    }

    /** An address no decoder covers reads as zero and ignores writes; an opcode the manager does
        not support ends its loop. */
    function Execute(r: Req): (Ld, seq<Rsp>)
      requires Valid()
    {
      match r
      case MemRd(a) => (this, [MemData(Read(a))])
      case MemInv(a) => (this, [MemData(Read(a))])
      case MemWr(a, d) => (Written(a, d), [Cmp])
      case Other => (this.(running := false), [])
    }

    function Read(a: nat): nat
      requires Valid()
    {
      match LookupDpa(decoders, a)
      case Some(dpa) => if dpa in mem then mem[dpa] else 0
      case None => 0
    }

    function Written(a: nat, d: nat): Ld
      requires Valid()
    {
      match LookupDpa(decoders, a)
      case Some(dpa) => this.(mem := mem[dpa := d])
      case None => this
    }

    /** The memory alone, run on a list of requests. */
    function Run(rs: seq<Req>): (Ld, seq<Rsp>)
      requires Valid()
      decreases |rs|
    {
      if rs == [] || !running then (this, [])
      else
        var (next, out) := Execute(rs[0]);
        var (last, rest) := next.Run(rs[1..]);
        (last, out + rest)
    }
  }

  lemma {:induction false} RunAppend(ld: Ld, rs: seq<Req>, r: Req)
    requires ld.Valid()
    ensures ld.Run(rs).0.Valid()
    ensures ld.Run(rs + [r]) ==
              var (mid, out) := ld.Run(rs);
              if mid.running then (mid.Execute(r).0, out + mid.Execute(r).1) else (mid, out)
    decreases |rs|
  {
    hide Ld.Execute;
    if ld.running {
      var (next, out) := ld.Execute((rs + [r])[0]);
      ExecuteValid(ld, (rs + [r])[0]);
      if rs == [] {
        assert rs + [r] == [r] && next.Run([]) == (next, []);
        assert [] + out == out + [];
      } else {
        RunAppend(next, rs[1..], r);
        assert (rs + [r])[1..] == rs[1..] + [r];
        var (mid, rest) := next.Run(rs[1..]);
        Assoc(out, rest, mid.Execute(r).1);
      }
    }
  }

  lemma ExecuteValid(ld: Ld, r: Req)
    requires ld.Valid()
    ensures ld.Execute(r).0.Valid()
  {}

  // ----- what a memory answers -----

  /** How many requests are answered: those before the first unsupported one. */
  function Answered(rs: seq<Req>): (k: nat)
    ensures k <= |rs|
  {
    if rs == [] || rs[0] == Other then 0 else 1 + Answered(rs[1..])
  }

  /** The data of the last of the first `k` requests that writes the device address, or else what was
      there at first. */
  function LastData(decoders: seq<DeviceDecoder>, initial: map<int, nat>, rs: seq<Req>, k: nat, dpa: int): nat
    requires k <= |rs| && forall i :: 0 <= i < |decoders| ==> decoders[i].Valid()
  {
    if k == 0 then (if dpa in initial then initial[dpa] else 0)
    else if rs[k - 1].MemWr? && LookupDpa(decoders, rs[k - 1].addr) == Some(dpa) then rs[k - 1].data
    else LastData(decoders, initial, rs, k - 1, dpa)
  }

  /** A read is answered by the data written last to its device address, or 0 where no decoder has the
      address; a write is acknowledged. */
  predicate IsAnswer(decoders: seq<DeviceDecoder>, initial: map<int, nat>, rs: seq<Req>, k: nat, rsp: Rsp)
    requires k < |rs| && forall i :: 0 <= i < |decoders| ==> decoders[i].Valid()
  {
    match rs[k]
    case MemWr(_, _) => rsp == Cmp
    case Other => false
    case _ =>
      match LookupDpa(decoders, rs[k].addr)
      case Some(dpa) => rsp == MemData(LastData(decoders, initial, rs, k, dpa))
      case None => rsp == MemData(0)
  }

  /** The first answers to a list of requests. */
  predicate AreAnswers(ld: Ld, rs: seq<Req>, rsps: seq<Rsp>)
    requires ld.Valid() && |rsps| <= |rs|
  {
    forall k :: 0 <= k < |rsps| ==> IsAnswer(ld.decoders, ld.mem, rs, k, rsps[k])
  }

  lemma {:induction false} LastDataShift(ld: Ld, rs: seq<Req>, k: nat, dpa: int)
    requires ld.Valid() && rs != [] && 0 < k <= |rs|
    ensures ld.Execute(rs[0]).0.Valid() && ld.Execute(rs[0]).0.decoders == ld.decoders
    ensures LastData(ld.decoders, ld.mem, rs, k, dpa) == LastData(ld.decoders, ld.Execute(rs[0]).0.mem, rs[1..], k - 1, dpa)
    decreases k
  {
    hide LookupDpa;
    if k > 1 {
      LastDataShift(ld, rs, k - 1, dpa);
      assert rs[1..][k - 2] == rs[k - 1];
    }
  }

  lemma FirstAnswer(ld: Ld, rs: seq<Req>)
    requires ld.Valid() && rs != [] && rs[0] != Other
    ensures |ld.Execute(rs[0]).1| == 1 && IsAnswer(ld.decoders, ld.mem, rs, 0, ld.Execute(rs[0]).1[0])
    ensures ld.Execute(rs[0]).0.running == ld.running
  {
    hide LookupDpa;
  }

  lemma LaterAnswer(ld: Ld, rs: seq<Req>, k: nat, rsp: Rsp)
    requires ld.Valid() && rs != [] && 0 < k < |rs|
    ensures ld.Execute(rs[0]).0.Valid()
    ensures IsAnswer(ld.decoders, ld.mem, rs, k, rsp) <==> IsAnswer(ld.decoders, ld.Execute(rs[0]).0.mem, rs[1..], k - 1, rsp)
  {
    hide LookupDpa, Ld.Execute, LastData;
    LastDataShift(ld, rs, k, 0);
    if !rs[k].Other? && !rs[k].MemWr? && LookupDpa(ld.decoders, rs[k].addr).Some? {
      LastDataShift(ld, rs, k, LookupDpa(ld.decoders, rs[k].addr).value);
    }
    assert rs[1..][k - 1] == rs[k];
  }

  /** An LD's memory is a memory: every request before an unsupported one is answered, in order, and
      every read by what was written last. */
  lemma {:induction false} MemoryLaw(ld: Ld, rs: seq<Req>)
    requires ld.Valid() && ld.running
    ensures |ld.Run(rs).1| == Answered(rs) && AreAnswers(ld, rs, ld.Run(rs).1)
    decreases |rs|
  {
    hide Ld.Execute, LookupDpa, LastData, IsAnswer;
    if rs != [] {
      var (next, out) := ld.Execute(rs[0]);
      ExecuteValid(ld, rs[0]);
      if rs[0] == Other {
        StopsAtOther(ld, rs[0]);
      } else {
        FirstAnswer(ld, rs);
        LastDataShift(ld, rs, 1, 0);
        MemoryLaw(next, rs[1..]);
        var rest := next.Run(rs[1..]).1;
        forall k | 0 <= k < |out + rest| ensures IsAnswer(ld.decoders, ld.mem, rs, k, (out + rest)[k]) {
          if k > 0 {
            LaterAnswer(ld, rs, k, rest[k - 1]);
          }
        }
      }
    }
  }

  lemma StopsAtOther(ld: Ld, r: Req)
    requires ld.Valid() && r == Other
    ensures ld.Execute(r).1 == [] && !ld.Execute(r).0.running
  {}

  // ----- the fabric -----

  datatype Fabric = Fabric(
    down: seq<Chain<Packet<Req>>>, // per LD, from its host to the PPB
    link: Chain<Packet<Req>>,      // from the PPB to the device
    inbox: seq<seq<Packet<Req>>>,  // per LD, in the device
    lds: seq<Ld>,
    back: Chain<Packet<Rsp>>,      // from the device to the PPB
    up: seq<Chain<Packet<Rsp>>>,   // per LD, from the PPB to its host
    linkBroken: bool,              // a packet of an unknown LD has stopped the processor of the link
    backBroken: bool)              // or the one of the way back

  datatype Label =
    | Issue(i: nat, packet: Packet<Req>)
    | RelayDown(i: nat, k: nat)
    | Stamp(i: nat)
    | RelayLink(k: nat)
    | Split
    | Manage(i: nat)
    | RelayBack(k: nat)
    | RouteUp
    | RelayUp(i: nat, k: nat)
    | Deliver(i: nat)

  /** `n` LDs, every path with at least one queue. */
  predicate Wired(f: Fabric, n: nat) {
    && |f.down| == |f.inbox| == |f.lds| == |f.up| == n
    && f.link != [] && f.back != []
    && (forall i :: 0 <= i < n ==> f.down[i] != [] && f.up[i] != [] && f.lds[i].Valid())
  }

  predicate Enabled(f: Fabric, n: nat, l: Label)
    requires Wired(f, n)
  {
    match l
    case Issue(i, _) => i < n
    case RelayDown(i, k) => i < n && CanRelay(f.down[i], k)
    case Stamp(i) => i < n && Ready(f.down[i])
    case RelayLink(k) => CanRelay(f.link, k)
    case Split => Ready(f.link) && !f.linkBroken
    case Manage(i) => i < n && f.inbox[i] != [] && f.lds[i].running
    case RelayBack(k) => CanRelay(f.back, k)
    case RouteUp => Ready(f.back) && !f.backBroken
    case RelayUp(i, k) => i < n && CanRelay(f.up[i], k)
    case Deliver(i) => i < n && Ready(f.up[i])
  }

  /** The PPB overwrites the LD-ID, in a field of four bits. */
  function Stamped<T>(p: Packet<T>, i: nat): Packet<T> {
    p.(ld := i % LD_IDS)
  }

  function PushAll<T>(c: Chain<Packet<T>>, ld: nat, bodies: seq<T>): Chain<Packet<T>>
    requires c != [] && |bodies| <= 1
  {
    if bodies == [] then c else Push(c, Packet(ld, bodies[0]))
  }

  function Step(f: Fabric, n: nat, l: Label): Fabric
    requires Wired(f, n) && Enabled(f, n, l)
  {
    match l
    case Issue(i, p) => f.(down := f.down[i := Push(f.down[i], p)])
    case RelayDown(i, k) => f.(down := f.down[i := Relay(f.down[i], k)])
    case Stamp(i) =>
      f.(down := f.down[i := Pop(f.down[i])], link := Push(f.link, Stamped(Front(f.down[i]), i)))
    case RelayLink(k) => f.(link := Relay(f.link, k))
    case Split =>
      var p := Front(f.link);
      if p.ld >= n then f.(link := Pop(f.link), linkBroken := true)
      else f.(link := Pop(f.link), inbox := f.inbox[p.ld := f.inbox[p.ld] + [p]])
    case Manage(i) =>
      var p := f.inbox[i][0];
      var (ld, out) := f.lds[i].Execute(p.body);
      f.(inbox := f.inbox[i := f.inbox[i][1..]], lds := f.lds[i := ld], back := PushAll(f.back, p.ld, out))
    case RelayBack(k) => f.(back := Relay(f.back, k))
    case RouteUp =>
      var p := Front(f.back);
      if p.ld >= n then f.(back := Pop(f.back), backBroken := true)
      else f.(back := Pop(f.back), up := f.up[p.ld := Push(f.up[p.ld], p)])
    case RelayUp(i, k) => f.(up := f.up[i := Relay(f.up[i], k)])
    case Deliver(i) => f.(up := f.up[i := Pop(f.up[i])])
  }

  /** A packet that names no LD is lost, and stops the processor that meets it and no other. */
  lemma UnknownIdStops(f: Fabric, n: nat, l: Label)
    requires Wired(f, n) && Enabled(f, n, l)
    requires (l == Split && Front(f.link).ld >= n) || (l == RouteUp && Front(f.back).ld >= n)
    ensures var g := Step(f, n, l);
            && Wired(g, n) && !Enabled(g, n, l)
            && g.inbox == f.inbox && g.up == f.up && g.lds == f.lds && g.down == f.down
            && (l == Split ==> g.back == f.back && g.backBroken == f.backBroken && g.link == Pop(f.link))
            && (l == RouteUp ==> g.link == f.link && g.linkBroken == f.linkBroken && g.back == Pop(f.back))
  {
    StepWired(f, n, l);
  }

  // ----- what one LD sees -----

  /** Requests on their way to LD `i`, oldest first. */
  function Requests(f: Fabric, n: nat, i: nat): seq<Req>
    requires Wired(f, n) && i < n
  {
    Bodies(f.inbox[i]) + Of(Flat(f.link), i) + Bodies(Flat(f.down[i]))
  }

  /** Responses on their way from LD `i`, oldest first. */
  function Responses(f: Fabric, n: nat, i: nat): seq<Rsp>
    requires Wired(f, n) && i < n
  {
    Bodies(Flat(f.up[i])) + Of(Flat(f.back), i)
  }

  /** Every packet past its stamp carries the ID of a known LD, and an LD only holds its own. */
  predicate Addressed(f: Fabric, n: nat)
    requires Wired(f, n)
  {
    && n <= LD_IDS && !f.linkBroken && !f.backBroken
    && LdsBelow(Flat(f.link), n) && LdsBelow(Flat(f.back), n)
    && (forall i :: 0 <= i < n ==> forall k :: 0 <= k < |f.inbox[i]| ==> f.inbox[i][k].ld == i)
  }

  datatype View = View(requests: seq<Req>, ld: Ld, responses: seq<Rsp>)

  function ViewOf(f: Fabric, n: nat, i: nat): View
    requires Wired(f, n) && i < n
  {
    View(Requests(f, n, i), f.lds[i], Responses(f, n, i))
  }

  lemma {:induction false} OfBelow<T>(s: seq<Packet<T>>, n: nat, i: nat)
    requires LdsBelow(s, n) && n <= i
    ensures Of(s, i) == []
  {
    if s != [] {
      OfBelow(s[1..], n, i);
    }
  }

  lemma IssueStep(f: Fabric, n: nat, j: nat, p: Packet<Req>, i: nat)
    requires Wired(f, n) && Addressed(f, n) && j < n && i < n
    ensures var g := Step(f, n, Issue(j, p));
            && Wired(g, n) && Addressed(g, n)
            && ViewOf(g, n, i) == if i == j then ViewOf(f, n, i).(requests := Requests(f, n, i) + [p.body]) else ViewOf(f, n, i)
  {
    hide Flat, Of, Bodies, Push;
    FlatPush(f.down[j], p);
    BodiesAppend(Flat(f.down[j]), p);
    Assoc(Bodies(f.inbox[i]) + Of(Flat(f.link), i), Bodies(Flat(f.down[j])), [p.body]);
    PushSome(f.down[j], p);
  }

  lemma PushSome<T>(c: Chain<T>, x: T)
    requires c != []
    ensures Push(c, x) != []
  {}

  lemma RelayStep(f: Fabric, n: nat, l: Label, i: nat)
    requires Wired(f, n) && Addressed(f, n) && Enabled(f, n, l) && i < n
    requires l.RelayDown? || l.RelayLink? || l.RelayBack? || l.RelayUp?
    ensures Wired(Step(f, n, l), n) && Addressed(Step(f, n, l), n)
    ensures ViewOf(Step(f, n, l), n, i) == ViewOf(f, n, i)
  {
    hide Flat, Of, Bodies;
    match l
    case RelayDown(j, k) => FlatRelay(f.down[j], k);
    case RelayLink(k) => FlatRelay(f.link, k);
    case RelayBack(k) => FlatRelay(f.back, k);
    case RelayUp(j, k) => FlatRelay(f.up[j], k);
  }

  lemma StampStep(f: Fabric, n: nat, j: nat, i: nat)
    requires Wired(f, n) && Addressed(f, n) && Enabled(f, n, Stamp(j)) && i < n
    ensures Wired(Step(f, n, Stamp(j)), n) && Addressed(Step(f, n, Stamp(j)), n)
    ensures ViewOf(Step(f, n, Stamp(j)), n, i) == ViewOf(f, n, i)
  {
    hide Flat, Of, Bodies, Push, Pop, Front;
    var p := Stamped(Front(f.down[j]), j);
    FlatPop(f.down[j]);
    PopSome(f.down[j]);
    PushSome(f.link, p);
    FlatPush(f.link, p);
    OfAppend(Flat(f.link), p, i);
    BodiesHead(Front(f.down[j]), Flat(Pop(f.down[j])));
    Assoc(Bodies(f.inbox[i]), Of(Flat(f.link), i), [p.body]);
    Assoc(Bodies(f.inbox[i]) + Of(Flat(f.link), i), [p.body], Bodies(Flat(Pop(f.down[j]))));
  }

  lemma PopSome<T>(c: Chain<T>)
    requires Ready(c)
    ensures Pop(c) != []
  {}

  lemma BodiesHead<T>(p: Packet<T>, s: seq<Packet<T>>)
    ensures Bodies([p] + s) == [p.body] + Bodies(s)
  {
    assert ([p] + s)[1..] == s;
  }

  lemma OfHead<T>(p: Packet<T>, s: seq<Packet<T>>, i: nat)
    ensures Of([p] + s, i) == (if p.ld == i then [p.body] else []) + Of(s, i)
  {
    assert ([p] + s)[1..] == s;
  }

  lemma SplitStep(f: Fabric, n: nat, i: nat)
    requires Wired(f, n) && Addressed(f, n) && Enabled(f, n, Split) && i < n
    ensures Wired(Step(f, n, Split), n) && Addressed(Step(f, n, Split), n)
    ensures ViewOf(Step(f, n, Split), n, i) == ViewOf(f, n, i)
  {
    hide Flat, Of, Bodies, Push, Pop, Front;
    var p, rest := Front(f.link), Flat(Pop(f.link));
    FlatPop(f.link);
    PopSome(f.link);
    assert Flat(f.link)[0] == p && Flat(f.link)[1..] == rest;
    assert LdsBelow(rest, n);
    OfHead(p, rest, i);
    BodiesAppend(f.inbox[p.ld], p);
    Assoc(Bodies(f.inbox[i]), [p.body], Of(rest, i));
    assert Of(rest, i) == [] + Of(rest, i);
  }

  lemma ManageStep(f: Fabric, n: nat, j: nat, i: nat)
    requires Wired(f, n) && Addressed(f, n) && Enabled(f, n, Manage(j)) && i < n
    ensures Wired(Step(f, n, Manage(j)), n) && Addressed(Step(f, n, Manage(j)), n)
    ensures i != j ==> ViewOf(Step(f, n, Manage(j)), n, i) == ViewOf(f, n, i)
    ensures i == j ==>
              var v := ViewOf(f, n, i);
              && v.requests != []
              && (var (ld, out) := v.ld.Execute(v.requests[0]);
                  ViewOf(Step(f, n, Manage(j)), n, i) == View(v.requests[1..], ld, v.responses + out))
  {
    hide Flat, Of, Bodies, Push, Ld.Execute;
    var p, rest := f.inbox[j][0], f.inbox[j][1..];
    assert f.inbox[j] == [p] + rest;
    BodiesHead(p, rest);
    ExecuteValid(f.lds[j], p.body);
    ExecuteOnce(f.lds[j], p.body);
    var (ld, out) := f.lds[j].Execute(p.body);
    if out != [] {
      var q := Packet(p.ld, out[0]);
      assert out == [q.body];
      FlatPush(f.back, q);
      PushSome(f.back, q);
      OfAppend(Flat(f.back), q, i);
    }
    if i == j {
      Assoc([p.body], Bodies(rest), Of(Flat(f.link), i));
      Assoc([p.body], Bodies(rest) + Of(Flat(f.link), i), Bodies(Flat(f.down[i])));
      Assoc(Bodies(Flat(f.up[i])), Of(Flat(f.back), i), out);
    }
  }

  lemma ExecuteOnce(ld: Ld, r: Req)
    requires ld.Valid()
    ensures |ld.Execute(r).1| <= 1
  {}

  lemma RouteUpStep(f: Fabric, n: nat, i: nat)
    requires Wired(f, n) && Addressed(f, n) && Enabled(f, n, RouteUp) && i < n
    ensures Wired(Step(f, n, RouteUp), n) && Addressed(Step(f, n, RouteUp), n)
    ensures ViewOf(Step(f, n, RouteUp), n, i) == ViewOf(f, n, i)
  {
    hide Flat, Of, Bodies, Push, Pop, Front;
    var p, rest := Front(f.back), Flat(Pop(f.back));
    FlatPop(f.back);
    PopSome(f.back);
    assert Flat(f.back)[0] == p && Flat(f.back)[1..] == rest;
    assert LdsBelow(rest, n);
    OfHead(p, rest, i);
    FlatPush(f.up[p.ld], p);
    PushSome(f.up[p.ld], p);
    BodiesAppend(Flat(f.up[p.ld]), p);
    Assoc(Bodies(Flat(f.up[i])), [p.body], Of(rest, i));
    assert Of(rest, i) == [] + Of(rest, i);
  }

  lemma DeliverStep(f: Fabric, n: nat, j: nat, i: nat)
    requires Wired(f, n) && Addressed(f, n) && Enabled(f, n, Deliver(j)) && i < n
    ensures Wired(Step(f, n, Deliver(j)), n) && Addressed(Step(f, n, Deliver(j)), n)
    ensures i != j ==> ViewOf(Step(f, n, Deliver(j)), n, i) == ViewOf(f, n, i)
    ensures i == j ==>
              var v := ViewOf(f, n, i);
              && v.responses == [Front(f.up[i]).body] + Responses(Step(f, n, Deliver(j)), n, i)
              && ViewOf(Step(f, n, Deliver(j)), n, i) == v.(responses := Responses(Step(f, n, Deliver(j)), n, i))
  {
    hide Flat, Of, Bodies, Pop, Front;
    var p, rest := Front(f.up[j]), Flat(Pop(f.up[j]));
    FlatPop(f.up[j]);
    PopSome(f.up[j]);
    BodiesHead(p, rest);
    Assoc([p.body], Bodies(rest), Of(Flat(f.back), i));
  }

  // ----- every run -----

  /** What host `i` has put in and taken out. */
  datatype History = History(issued: seq<seq<Req>>, delivered: seq<seq<Rsp>>)

  predicate Records(h: History, n: nat) {
    |h.issued| == |h.delivered| == n
  }

  function NoRecords(n: nat): (h: History)
    ensures Records(h, n)
  {
    History(seq(n, _ => []), seq(n, _ => []))
  }

  function Recorded(h: History, f: Fabric, n: nat, l: Label): (after: History)
    requires Wired(f, n) && Enabled(f, n, l) && Records(h, n)
    ensures Records(after, n)
  {
    match l
    case Issue(i, p) => h.(issued := h.issued[i := h.issued[i] + [p.body]])
    case Deliver(i) => h.(delivered := h.delivered[i := h.delivered[i] + [Front(f.up[i]).body]])
    case _ => h
  }

  /** One step moves one LD one step, or nothing at all. */
  lemma StepView(f: Fabric, n: nat, l: Label, i: nat)
    requires Wired(f, n) && Addressed(f, n) && Enabled(f, n, l) && i < n
    ensures Wired(Step(f, n, l), n) && Addressed(Step(f, n, l), n)
    ensures var v, v' := ViewOf(f, n, i), ViewOf(Step(f, n, l), n, i);
            match l
            case Issue(j, p) => v' == if i == j then v.(requests := v.requests + [p.body]) else v
            case Manage(j) =>
              if i != j then v' == v
              else v.requests != [] && v' == View(v.requests[1..], v.ld.Execute(v.requests[0]).0, v.responses + v.ld.Execute(v.requests[0]).1)
            case Deliver(j) =>
              if i != j then v' == v
              else v.responses == [Front(f.up[i]).body] + v'.responses && v' == v.(responses := v'.responses)
            case _ => v' == v
  {
    hide Step, Addressed, Requests, Responses, Ld.Execute, Front;
    match l
    case Issue(j, p) => IssueStep(f, n, j, p, i);
    case RelayDown(_, _) => RelayStep(f, n, l, i);
    case Stamp(j) => StampStep(f, n, j, i);
    case RelayLink(_) => RelayStep(f, n, l, i);
    case Split => SplitStep(f, n, i);
    case Manage(j) => ManageStep(f, n, j, i);
    case RelayBack(_) => RelayStep(f, n, l, i);
    case RouteUp => RouteUpStep(f, n, i);
    case RelayUp(_, _) => RelayStep(f, n, l, i);
    case Deliver(j) => DeliverStep(f, n, j, i);
  }

  /** The responses host `i` has received, those under way and those its memory will give to the
      requests under way are, in order, what that memory alone gives to all requests of host `i`. */
  predicate InOrder(v: View, issued: seq<Req>, delivered: seq<Rsp>, start: Ld)
    requires v.ld.Valid() && start.Valid()
  {
    && v.ld.Run(v.requests).0 == start.Run(issued).0
    && delivered + v.responses + v.ld.Run(v.requests).1 == start.Run(issued).1
  }

  lemma SubmitKeepsOrder(v: View, r: Req, issued: seq<Req>, delivered: seq<Rsp>, start: Ld)
    requires v.ld.Valid() && start.Valid() && InOrder(v, issued, delivered, start)
    ensures InOrder(v.(requests := v.requests + [r]), issued + [r], delivered, start)
  {
    hide Ld.Run, Ld.Execute;
    RunAppend(v.ld, v.requests, r);
    RunAppend(start, issued, r);
    var (mid, out) := v.ld.Run(v.requests);
    if mid.running {
      Assoc(delivered + v.responses, out, mid.Execute(r).1);
    }
  }

  lemma ExecuteKeepsOrder(v: View, issued: seq<Req>, delivered: seq<Rsp>, start: Ld)
    requires v.ld.Valid() && start.Valid() && InOrder(v, issued, delivered, start)
    requires v.requests != [] && v.ld.running
    ensures var (ld, out) := v.ld.Execute(v.requests[0]);
            ld.Valid() && InOrder(View(v.requests[1..], ld, v.responses + out), issued, delivered, start)
  {
    hide Ld.Execute;
    ExecuteValid(v.ld, v.requests[0]);
    var (ld, out) := v.ld.Execute(v.requests[0]);
    var rest := ld.Run(v.requests[1..]).1;
    Assoc(delivered, v.responses, out);
    Assoc(delivered + v.responses, out, rest);
  }

  ghost predicate AllInOrder(f: Fabric, n: nat, h: History, start: seq<Ld>)
    requires Wired(f, n) && Records(h, n)
  {
    && |start| == n && (forall i :: 0 <= i < n ==> start[i].Valid())
    && (forall i :: 0 <= i < n ==> InOrder(ViewOf(f, n, i), h.issued[i], h.delivered[i], start[i]))
  }

  lemma StepKeepsOrder(f: Fabric, n: nat, h: History, start: seq<Ld>, l: Label, i: nat)
    requires Wired(f, n) && Addressed(f, n) && Enabled(f, n, l) && Records(h, n) && AllInOrder(f, n, h, start) && i < n
    ensures Wired(Step(f, n, l), n) && Records(Recorded(h, f, n, l), n)
    ensures var h' := Recorded(h, f, n, l);
            InOrder(ViewOf(Step(f, n, l), n, i), h'.issued[i], h'.delivered[i], start[i])
  {
    hide Step, Addressed, InOrder, Requests, Responses, Ld.Execute, Ld.Run, Front;
    StepView(f, n, l, i);
    var v := ViewOf(f, n, i);
    assert InOrder(v, h.issued[i], h.delivered[i], start[i]);
    match l
    case Issue(j, p) => if i == j { SubmitKeepsOrder(v, p.body, h.issued[i], h.delivered[i], start[i]); }
    case Manage(j) => if i == j { ExecuteKeepsOrder(v, h.issued[i], h.delivered[i], start[i]); }
    case Deliver(j) => if i == j { DeliverKeepsOrder(v, ViewOf(Step(f, n, l), n, i), Front(f.up[i]).body, h.issued[i], h.delivered[i], start[i]); }
    case _ =>
  }

  lemma DeliverKeepsOrder(v: View, v': View, x: Rsp, issued: seq<Req>, delivered: seq<Rsp>, start: Ld)
    requires v.ld.Valid() && start.Valid() && InOrder(v, issued, delivered, start)
    requires v.responses == [x] + v'.responses && v' == v.(responses := v'.responses)
    ensures InOrder(v', issued, delivered + [x], start)
  {
    hide Ld.Run;
    Assoc(delivered, [x], v'.responses);
  }

  lemma StepWired(f: Fabric, n: nat, l: Label)
    requires Wired(f, n) && Enabled(f, n, l)
    ensures Wired(Step(f, n, l), n)
  {
    if l.Manage? {
      ExecuteValid(f.lds[l.i], f.inbox[l.i][0].body);
    }
  }

  predicate Possible(f: Fabric, n: nat, labels: seq<Label>)
    requires Wired(f, n)
    decreases |labels|
  {
    labels != [] ==> Enabled(f, n, labels[0]) && (StepWired(f, n, labels[0]); Possible(Step(f, n, labels[0]), n, labels[1..]))
  }

  /** The fabric and the history after a run. */
  function Run(f: Fabric, n: nat, h: History, labels: seq<Label>): (end: (Fabric, History))
    requires Wired(f, n) && Records(h, n) && Possible(f, n, labels)
    ensures Wired(end.0, n) && Records(end.1, n)
    decreases |labels|
  {
    if labels == [] then (f, h)
    else
      StepWired(f, n, labels[0]);
      Run(Step(f, n, labels[0]), n, Recorded(h, f, n, labels[0]), labels[1..])
  }

  lemma {:induction false} RunKeepsOrder(f: Fabric, n: nat, h: History, start: seq<Ld>, labels: seq<Label>)
    requires Wired(f, n) && Records(h, n) && Possible(f, n, labels)
    requires n > 0 && Addressed(f, n) && AllInOrder(f, n, h, start)
    ensures Addressed(Run(f, n, h, labels).0, n)
    ensures AllInOrder(Run(f, n, h, labels).0, n, Run(f, n, h, labels).1, start)
    decreases |labels|
  {
    hide Step, Addressed, InOrder, Requests, Responses;
    if labels != [] {
      var l := labels[0];
      StepWired(f, n, l);
      StepView(f, n, l, 0);
      forall i | 0 <= i < n
        ensures InOrder(ViewOf(Step(f, n, l), n, i), Recorded(h, f, n, l).issued[i], Recorded(h, f, n, l).delivered[i], start[i])
      {
        StepKeepsOrder(f, n, h, start, l, i);
      }
      RunKeepsOrder(Step(f, n, l), n, Recorded(h, f, n, l), start, labels[1..]);
    }
  }

  // ----- from empty queues -----

  function EmptyChain<T>(queues: nat): Chain<T> {
    seq(queues, _ => [])
  }

  lemma {:induction false} EmptyChainFlat<T>(c: Chain<T>)
    requires forall k :: 0 <= k < |c| ==> c[k] == []
    ensures Flat(c) == []
  {
    if c != [] {
      EmptyChainFlat(c[1..]);
    }
  }

  predicate AllQueuesEmpty(f: Fabric) {
    && (forall k :: 0 <= k < |f.link| ==> f.link[k] == [])
    && (forall k :: 0 <= k < |f.back| ==> f.back[k] == [])
    && (forall i :: 0 <= i < |f.down| ==> forall k :: 0 <= k < |f.down[i]| ==> f.down[i][k] == [])
    && (forall i :: 0 <= i < |f.up| ==> forall k :: 0 <= k < |f.up[i]| ==> f.up[i][k] == [])
    && (forall i :: 0 <= i < |f.inbox| ==> f.inbox[i] == [])
  }

  lemma EmptyIsInOrder(f: Fabric, n: nat)
    requires Wired(f, n) && AllQueuesEmpty(f) && n <= LD_IDS && !f.linkBroken && !f.backBroken
    ensures Addressed(f, n)
    ensures AllInOrder(f, n, NoRecords(n), f.lds)
  {
    hide Flat;
    EmptyChainFlat(f.link);
    EmptyChainFlat(f.back);
    forall i | 0 <= i < n ensures InOrder(ViewOf(f, n, i), [], [], f.lds[i]) {
      EmptyChainFlat(f.down[i]);
      EmptyChainFlat(f.up[i]);
    }
  }

  /** Isolation and order, for every run: what host `i` has received is a prefix of the answers its
      own memory gives, run alone on the requests of host `i`; and it is all of them when nothing
      of LD `i` is under way (or its manager has stopped at an unsupported opcode). Each answer to a read
      is the data that host `i` itself has written last to the same device address. */
  lemma EachLdIsPrivate(f: Fabric, n: nat, labels: seq<Label>, i: nat)
    requires Wired(f, n) && AllQueuesEmpty(f) && n <= LD_IDS && !f.linkBroken && !f.backBroken && i < n
    requires Possible(f, n, labels)
    ensures var (g, h) := Run(f, n, NoRecords(n), labels);
            var all := f.lds[i].Run(h.issued[i]).1;
            && h.delivered[i] <= all
            && (f.lds[i].running ==> |h.delivered[i]| <= |h.issued[i]| && AreAnswers(f.lds[i], h.issued[i], h.delivered[i]))
            && (Responses(g, n, i) == [] && (Requests(g, n, i) == [] || !g.lds[i].running) ==>
                  h.delivered[i] == all && (f.lds[i].running ==> |h.delivered[i]| == Answered(h.issued[i])))
  {
    hide Step, Addressed, Requests, Responses, Flat;
    var h0 := NoRecords(n);
    EmptyIsInOrder(f, n);
    RunKeepsOrder(f, n, h0, f.lds, labels);
    var (g, h) := Run(f, n, h0, labels);
    var v := ViewOf(g, n, i);
    assert InOrder(v, h.issued[i], h.delivered[i], f.lds[i]);
    Assoc(h.delivered[i], v.responses, v.ld.Run(v.requests).1);
    if f.lds[i].running {
      hide Ld.Run, IsAnswer;
      MemoryLaw(f.lds[i], h.issued[i]);
    }
  }

  // ----- nothing is left behind -----

  /** Nothing but a new request can happen. */
  ghost predicate Still(f: Fabric, n: nat)
    requires Wired(f, n)
  {
    forall l: Label :: !l.Issue? ==> !Enabled(f, n, l)
  }

  lemma IdleChain<T>(c: Chain<T>)
    requires !Ready(c) && forall k: nat :: !CanRelay(c, k)
    ensures Flat(c) == []
  {
    forall k | 0 <= k < |c| ensures c[k] == [] {
      assert !CanRelay(c, k);
    }
    EmptyChainFlat(c);
  }

  /** A fabric that has come to rest has delivered every response, and has served every request
      except those behind an unsupported opcode. */
  lemma RestIsComplete(f: Fabric, n: nat, i: nat)
    requires Wired(f, n) && Addressed(f, n) && Still(f, n) && i < n
    ensures Responses(f, n, i) == []
    ensures Requests(f, n, i) == [] || !f.lds[i].running
  {
    hide Flat;
    assert !Enabled(f, n, Split) && !Enabled(f, n, RouteUp) && !Enabled(f, n, Stamp(i)) && !Enabled(f, n, Deliver(i));
    forall k: nat ensures !CanRelay(f.link, k) { assert !Enabled(f, n, RelayLink(k)); }
    forall k: nat ensures !CanRelay(f.back, k) { assert !Enabled(f, n, RelayBack(k)); }
    forall k: nat ensures !CanRelay(f.down[i], k) { assert !Enabled(f, n, RelayDown(i, k)); }
    forall k: nat ensures !CanRelay(f.up[i], k) { assert !Enabled(f, n, RelayUp(i, k)); }
    IdleChain(f.link);
    IdleChain(f.back);
    IdleChain(f.down[i]);
    IdleChain(f.up[i]);
    assert !Enabled(f, n, Manage(i));
  }

  // ----- it does come to rest -----

  /** What is on a chain, each packet weighed by the hops it has to go, and `base` more after them. */
  function Load<T>(c: Chain<T>, base: nat): nat
  {
    if c == [] then 0 else |c[0]| * (|c| + base) + Load(c[1..], base)
  }

  lemma LoadPush<T>(c: Chain<T>, x: T, base: nat)
    requires c != []
    ensures Load(Push(c, x), base) == Load(c, base) + |c| + base
  {
    assert Push(c, x)[1..] == c[1..];
    OneMore(|c[0]|, |c| + base);
  }

  lemma OneMore(k: nat, w: nat)
    ensures (k + 1) * w == k * w + w
  {}

  lemma {:induction false} LoadPop<T>(c: Chain<T>, base: nat)
    requires Ready(c)
    ensures Load(c, base) == Load(Pop(c), base) + 1 + base
    decreases |c|
  {
    if |c| == 1 {
      assert Pop(c)[1..] == c[1..] == [];
      OneMore(|c[0]| - 1, 1 + base);
    } else {
      LoadPop(c[1..], base);
      assert Pop(c)[1..] == Pop(c[1..]);
    }
  }

  lemma {:induction false} LoadRelay<T>(c: Chain<T>, k: nat, base: nat)
    requires CanRelay(c, k)
    ensures Load(c, base) == Load(Relay(c, k), base) + 1
    decreases k
  {
    var d := Relay(c, k);
    if k == 0 {
      assert d[1..] == Push(c[1..], c[0][0]);
      LoadPush(c[1..], c[0][0], base);
      OneMore(|c[0]| - 1, |c| + base);
    } else {
      LoadRelay(c[1..], k - 1, base);
      assert d[1..] == Relay(c[1..], k - 1);
    }
  }

  function Loads<T>(cs: seq<Chain<T>>, base: nat): nat {
    if cs == [] then 0 else Load(cs[0], base) + Loads(cs[1..], base)
  }

  lemma {:induction false} LoadsUpdate<T>(cs: seq<Chain<T>>, i: nat, c: Chain<T>, base: nat)
    requires i < |cs|
    ensures Loads(cs[i := c], base) + Load(cs[i], base) == Loads(cs, base) + Load(c, base)
    decreases i
  {
    if i == 0 {
      assert cs[0 := c][1..] == cs[1..];
    } else {
      LoadsUpdate(cs[1..], i - 1, c, base);
      assert cs[i := c][1..] == cs[1..][i - 1 := c];
    }
  }

  /** Queues of requests in the device, as chains of one queue. */
  function Inboxes(inbox: seq<seq<Packet<Req>>>): (cs: seq<Chain<Packet<Req>>>)
    ensures |cs| == |inbox|
  {
    seq(|inbox|, i requires 0 <= i < |inbox| => [inbox[i]])
  }

  /** No way back of an LD has more than `u` queues. */
  predicate UpTo(f: Fabric, u: nat) {
    forall i :: 0 <= i < |f.up| ==> |f.up[i]| <= u
  }

  /** How many turns the processes can take, at most, before all they can do is done. */
  function Work(f: Fabric, u: nat): nat {
    Loads(f.up, 0) + Load(f.back, u) + Loads(Inboxes(f.inbox), |f.back| + u)
    + Load(f.link, |f.back| + u + 1) + Loads(f.down, |f.link| + |f.back| + u + 1)
  }

  lemma DownWork(f: Fabric, n: nat, u: nat, l: Label)
    requires Wired(f, n) && UpTo(f, u) && Enabled(f, n, l) && (l.RelayDown? || l.Stamp? || l.RelayLink?)
    ensures UpTo(Step(f, n, l), u) && Work(Step(f, n, l), u) < Work(f, u)
  {
    hide Load, Loads, Push, Pop, Front, Relay, Inboxes;
    var base := |f.link| + |f.back| + u + 1;
    match l
    case RelayDown(i, k) =>
      LoadRelay(f.down[i], k, base);
      LoadsUpdate(f.down, i, Relay(f.down[i], k), base);
    case Stamp(i) =>
      LoadPop(f.down[i], base);
      LoadsUpdate(f.down, i, Pop(f.down[i]), base);
      LoadPush(f.link, Stamped(Front(f.down[i]), i), |f.back| + u + 1);
      PushLength(f.link, Stamped(Front(f.down[i]), i));
    case RelayLink(k) =>
      LoadRelay(f.link, k, |f.back| + u + 1);
      RelayLength(f.link, k);
  }

  lemma DeviceWork(f: Fabric, n: nat, u: nat, l: Label)
    requires Wired(f, n) && UpTo(f, u) && Enabled(f, n, l) && (l.Split? || l.Manage?)
    ensures UpTo(Step(f, n, l), u) && Work(Step(f, n, l), u) < Work(f, u)
  {
    hide Load, Loads, Push, Pop, Front, Inboxes, Ld.Execute;
    var base := |f.back| + u;
    match l
    case Split =>
      LoadPop(f.link, base + 1);
      PopLength(f.link);
      var p := Front(f.link);
      if p.ld < n {
        InboxUpdate(f.inbox, p.ld, f.inbox[p.ld] + [p]);
        LoadsUpdate(Inboxes(f.inbox), p.ld, [f.inbox[p.ld] + [p]], base);
        QueueLoad(f.inbox[p.ld], base);
        QueueLoad(f.inbox[p.ld] + [p], base);
        OneMore(|f.inbox[p.ld]|, 1 + base);
      }
    case Manage(i) =>
      var p, rest := f.inbox[i][0], f.inbox[i][1..];
      InboxUpdate(f.inbox, i, rest);
      LoadsUpdate(Inboxes(f.inbox), i, [rest], base);
      QueueLoad(f.inbox[i], base);
      QueueLoad(rest, base);
      OneMore(|rest|, 1 + base);
      var out := f.lds[i].Execute(p.body).1;
      ExecuteOnce(f.lds[i], p.body);
      if out != [] {
        LoadPush(f.back, Packet(p.ld, out[0]), u);
        PushLength(f.back, Packet(p.ld, out[0]));
      }
  }

  lemma UpWork(f: Fabric, n: nat, u: nat, l: Label)
    requires Wired(f, n) && UpTo(f, u) && Enabled(f, n, l) && (l.RelayBack? || l.RouteUp? || l.RelayUp? || l.Deliver?)
    ensures UpTo(Step(f, n, l), u) && Work(Step(f, n, l), u) < Work(f, u)
  {
    hide Load, Loads, Push, Pop, Front, Relay, Inboxes;
    match l
    case RelayBack(k) =>
      LoadRelay(f.back, k, u);
      RelayLength(f.back, k);
    case RouteUp =>
      LoadPop(f.back, u);
      PopLength(f.back);
      var p := Front(f.back);
      if p.ld < n {
        LoadPush(f.up[p.ld], p, 0);
        PushLength(f.up[p.ld], p);
        LoadsUpdate(f.up, p.ld, Push(f.up[p.ld], p), 0);
      }
    case RelayUp(i, k) =>
      LoadRelay(f.up[i], k, 0);
      RelayLength(f.up[i], k);
      LoadsUpdate(f.up, i, Relay(f.up[i], k), 0);
    case Deliver(i) =>
      LoadPop(f.up[i], 0);
      PopLength(f.up[i]);
      LoadsUpdate(f.up, i, Pop(f.up[i]), 0);
  }

  lemma PushLength<T>(c: Chain<T>, x: T)
    requires c != []
    ensures |Push(c, x)| == |c|
  {}

  lemma PopLength<T>(c: Chain<T>)
    requires Ready(c)
    ensures |Pop(c)| == |c|
  {}

  lemma RelayLength<T>(c: Chain<T>, k: nat)
    requires CanRelay(c, k)
    ensures |Relay(c, k)| == |c|
  {}

  lemma InboxUpdate(inbox: seq<seq<Packet<Req>>>, i: nat, q: seq<Packet<Req>>)
    requires i < |inbox|
    ensures Inboxes(inbox[i := q]) == Inboxes(inbox)[i := [q]] && Inboxes(inbox)[i] == [inbox[i]]
  {}

  lemma QueueLoad<T>(q: seq<T>, base: nat)
    ensures Load([q], base) == |q| * (1 + base)
  {
    assert [q][1..] == [];
  }

  /** Every turn of every process brings the fabric nearer to rest: between two requests the processes
      can take only so many turns, in whatever order. */
  lemma EveryTurnIsProgress(f: Fabric, n: nat, u: nat, l: Label)
    requires Wired(f, n) && UpTo(f, u) && Enabled(f, n, l) && !l.Issue?
    ensures UpTo(Step(f, n, l), u) && Work(Step(f, n, l), u) < Work(f, u)
  {
    hide Step, Work, Enabled, Wired, UpTo;
    match l
    case RelayDown(_, _) => DownWork(f, n, u, l);
    case Stamp(_) => DownWork(f, n, u, l);
    case RelayLink(_) => DownWork(f, n, u, l);
    case Split => DeviceWork(f, n, u, l);
    case Manage(_) => DeviceWork(f, n, u, l);
    case _ => UpWork(f, n, u, l);
  }

  // ----- every request is answered -----

  predicate NoIssue(labels: seq<Label>) {
    forall k :: 0 <= k < |labels| ==> !labels[k].Issue?
  }

  /** The requests that host `i` makes in a run. */
  function IssuedBy(labels: seq<Label>, i: nat): seq<Req>
    decreases |labels|
  {
    if labels == [] then []
    else (if labels[0].Issue? && labels[0].i == i then [labels[0].packet.body] else []) + IssuedBy(labels[1..], i)
  }

  lemma {:induction false} IssuedInRun(f: Fabric, n: nat, h: History, labels: seq<Label>, i: nat)
    requires Wired(f, n) && Records(h, n) && Possible(f, n, labels) && i < n
    ensures Run(f, n, h, labels).1.issued[i] == h.issued[i] + IssuedBy(labels, i)
    decreases |labels|
  {
    hide Step;
    if labels != [] {
      StepWired(f, n, labels[0]);
      IssuedInRun(Step(f, n, labels[0]), n, Recorded(h, f, n, labels[0]), labels[1..], i);
    }
  }

  lemma {:induction false} NothingIssued(labels: seq<Label>, more: seq<Label>, i: nat)
    requires NoIssue(more)
    ensures IssuedBy(labels + more, i) == IssuedBy(labels, i)
    decreases |labels|, |more|
  {
    if labels != [] {
      assert (labels + more)[1..] == labels[1..] + more;
      NothingIssued(labels[1..], more, i);
    } else {
      assert labels + more == more;
      if more != [] {
        assert [] + more[1..] == more[1..];
        NothingIssued([], more[1..], i);
      }
    }
  }

  lemma {:induction false} RunOn(f: Fabric, n: nat, h: History, labels: seq<Label>, more: seq<Label>)
    requires Wired(f, n) && Records(h, n) && Possible(f, n, labels)
    requires Possible(Run(f, n, h, labels).0, n, more)
    ensures Possible(f, n, labels + more)
    ensures Run(f, n, h, labels + more) == Run(Run(f, n, h, labels).0, n, Run(f, n, h, labels).1, more)
    decreases |labels|
  {
    hide Step, Enabled;
    if labels == [] {
      assert labels + more == more;
    } else {
      StepWired(f, n, labels[0]);
      assert (labels + more)[0] == labels[0] && (labels + more)[1..] == labels[1..] + more;
      RunOn(Step(f, n, labels[0]), n, Recorded(h, f, n, labels[0]), labels[1..], more);
    }
  }

  /** Without new requests the processes bring the fabric to rest. */
  lemma {:induction false} RestReached(f: Fabric, n: nat, u: nat, h: History) returns (more: seq<Label>)
    requires Wired(f, n) && UpTo(f, u) && Records(h, n)
    ensures NoIssue(more) && Possible(f, n, more) && Still(Run(f, n, h, more).0, n)
    decreases Work(f, u)
  {
    hide Step, Enabled, Work, UpTo;
    if Still(f, n) {
      more := [];
    } else {
      var l: Label :| !l.Issue? && Enabled(f, n, l);
      StepWired(f, n, l);
      EveryTurnIsProgress(f, n, u, l);
      var rest := RestReached(Step(f, n, l), n, u, Recorded(h, f, n, l));
      more := [l] + rest;
      assert more[1..] == rest;
    }
  }

  lemma {:induction false} LongestUp<T>(up: seq<Chain<T>>) returns (u: nat)
    ensures forall i :: 0 <= i < |up| ==> |up[i]| <= u
  {
    if up == [] {
      u := 0;
    } else {
      var v := LongestUp(up[1..]);
      u := if |up[0]| > v then |up[0]| else v;
      forall i | 0 <= i < |up| ensures |up[i]| <= u {
        if i > 0 { assert up[i] == up[1..][i - 1]; }
      }
    }
  }

  /** However far a run has got, the processes can go on, without new requests, to where every host has
      all the answers its own memory gives to all the requests it has made. */
  lemma EveryRequestIsAnswered(f: Fabric, n: nat, labels: seq<Label>) returns (more: seq<Label>)
    requires Wired(f, n) && AllQueuesEmpty(f) && 0 < n <= LD_IDS && !f.linkBroken && !f.backBroken
    requires Possible(f, n, labels)
    ensures NoIssue(more) && Possible(f, n, labels + more)
    ensures forall i :: 0 <= i < n ==>
              Run(f, n, NoRecords(n), labels + more).1.delivered[i] == f.lds[i].Run(IssuedBy(labels, i)).1
  {
    hide Step, Enabled, Run, Possible, AllQueuesEmpty, Addressed, Requests, Responses, Flat, Still;
    var h0 := NoRecords(n);
    var (g, h) := Run(f, n, h0, labels);
    var u := LongestUp(g.up);
    more := RestReached(g, n, u, h);
    RunOn(f, n, h0, labels, more);
    EmptyIsInOrder(f, n);
    RunKeepsOrder(f, n, h0, f.lds, labels + more);
    forall i | 0 <= i < n ensures Run(f, n, h0, labels + more).1.delivered[i] == f.lds[i].Run(IssuedBy(labels, i)).1 {
      RestIsComplete(Run(f, n, h0, labels + more).0, n, i);
      EachLdIsPrivate(f, n, labels + more, i);
      IssuedInRun(f, n, h0, labels + more, i);
      NothingIssued(labels, more, i);
      assert h0.issued[i] + IssuedBy(labels, i) == IssuedBy(labels, i);
    }
  }

  /** The LD-ID field holds sixteen values: a request of LD `j` is addressed to LD `j` exactly
      when `j` is one of them, and to LD `j % 16` otherwise. */
  lemma StampReachesItsLd(f: Fabric, n: nat, j: nat)
    requires Wired(f, n) && j < n && Ready(f.down[j])
    ensures var sent, link := Front(f.down[j]).body, Flat(Step(f, n, Stamp(j)).link);
            && Of(link, j % LD_IDS) == Of(Flat(f.link), j % LD_IDS) + [sent]
            && (Of(link, j) == Of(Flat(f.link), j) + [sent] <==> j < LD_IDS)
  {
    hide Flat, Of, Push, Front;
    var p := Stamped(Front(f.down[j]), j);
    FlatPush(f.link, p);
    OfAppend(Flat(f.link), p, j % LD_IDS);
    OfAppend(Flat(f.link), p, j);
    if j >= LD_IDS {
      assert |Of(Flat(f.link), j) + [p.body]| == |Of(Flat(f.link), j)| + 1;
    }
  }

  // ----- the processes -----

  /** The queues of a PPB with a multi-logical device behind it, and one turn of each process that
      serves them. */
  class MldFabric {
    const n: nat
    var down: seq<Chain<Packet<Req>>>
    var link: Chain<Packet<Req>>
    var inbox: seq<seq<Packet<Req>>>
    var lds: seq<Ld>
    var back: Chain<Packet<Rsp>>
    var up: seq<Chain<Packet<Rsp>>>
    var linkBroken: bool
    var backBroken: bool

    function State(): Fabric
      reads this
    {
      Fabric(down, link, inbox, lds, back, up, linkBroken, backBroken)
    }

    ghost predicate Valid()
      reads this
    {
      Wired(State(), n)
    }

    constructor (lds: seq<Ld>, hops: nat)
      requires hops > 0 && forall i :: 0 <= i < |lds| ==> lds[i].Valid()
      ensures Valid() && n == |lds| && this.lds == lds && !linkBroken && !backBroken && AllQueuesEmpty(State())
    {
      n := |lds|;
      down := seq(|lds|, _ => EmptyChain(hops));
      link := EmptyChain(hops);
      inbox := seq(|lds|, _ => []);
      this.lds := lds;
      back := EmptyChain(hops);
      up := seq(|lds|, _ => EmptyChain(hops));
      linkBroken := false;
      backBroken := false;
    }

    /** A host puts a request on its connection. */
    method PutRequest(i: nat, packet: Packet<Req>)
      requires Valid() && i < n
      modifies this`down
      ensures Valid() && State() == Step(old(State()), n, Issue(i, packet))
    {
      down := down[i := Push(down[i], packet)];
    }

    /** `GenericBindProcessor._process`: take a packet and put it on the next queue. */
    static method Process<T>(chain: Chain<T>, k: nat) returns (moved: Chain<T>)
      requires CanRelay(chain, k)
      ensures moved == Relay(chain, k) && Flat(moved) == Flat(chain)
    {
      FlatRelay(chain, k);
      var packet := chain[k][0];
      moved := chain[k := chain[k][1..]];
      moved := moved[k + 1 := moved[k + 1] + [packet]];
    }

    method BindDown(i: nat, k: nat)
      requires Valid() && i < n && CanRelay(down[i], k)
      modifies this`down
      ensures Valid() && State() == Step(old(State()), n, RelayDown(i, k))
    {
      var moved := Process(down[i], k);
      down := down[i := moved];
    }

    method BindUp(i: nat, k: nat)
      requires Valid() && i < n && CanRelay(up[i], k)
      modifies this`up
      ensures Valid() && State() == Step(old(State()), n, RelayUp(i, k))
    {
      var moved := Process(up[i], k);
      up := up[i := moved];
    }

    method ForwardLink(k: nat)
      requires Valid() && CanRelay(link, k)
      modifies this`link
      ensures Valid() && State() == Step(old(State()), n, RelayLink(k))
    {
      link := Process(link, k);
    }

    /** The device's outgoing CXL.mem processor and the relays of the switch. */
    method ForwardBack(k: nat)
      requires Valid() && CanRelay(back, k)
      modifies this`back
      ensures Valid() && State() == Step(old(State()), n, RelayBack(k))
    {
      back := Process(back, k);
    }

    /** `PpbDownRouting.mem_process`: overwrite the LD-ID and pass the packet on. */
    method PpbDownMemProcess(i: nat)
      requires Valid() && i < n && Ready(down[i])
      modifies this`down, this`link
      ensures Valid() && State() == Step(old(State()), n, Stamp(i))
    {
      var packet := Front(down[i]);
      down := down[i := Pop(down[i])];
      packet := packet.(ld := i % LD_IDS);
      link := Push(link, packet);
    }

    /** The LD branch of `_process_incoming_packets`: an unknown LD-ID raises and stops it. */
    method ProcessIncomingPacket()
      requires Valid() && Ready(link) && !linkBroken
      modifies this`link, this`inbox, this`linkBroken
      ensures Valid() && State() == Step(old(State()), n, Split)
    {
      var packet := Front(link);
      link := Pop(link);
      if packet.ld >= n {
        linkBroken := true;
        return;
      }
      inbox := inbox[packet.ld := inbox[packet.ld] + [packet]];
    }

    /** `CxlMemManager._process_host_to_target` of LD `i`: the answer carries the LD-ID of the request. */
    method ProcessHostToTarget(i: nat)
      requires Valid() && i < n && inbox[i] != [] && lds[i].running
      modifies this`inbox, this`lds, this`back
      ensures Valid() && State() == Step(old(State()), n, Manage(i))
    {
      hide Ld.Read, Ld.Written;
      ghost var before := State();
      StepWired(before, n, Manage(i));
      var packet, ld := inbox[i][0], lds[i];
      inbox := inbox[i := inbox[i][1..]];
      match packet.body
      case MemRd(a) =>
        lds := lds[i := ld];
        back := Push(back, Packet(packet.ld, MemData(ld.Read(a))));
      case MemInv(a) =>
        lds := lds[i := ld];
        back := Push(back, Packet(packet.ld, MemData(ld.Read(a))));
      case MemWr(a, d) =>
        lds := lds[i := ld.Written(a, d)];
        back := Push(back, Packet(packet.ld, Cmp));
      case Other =>
        lds := lds[i := ld.(running := false)];
    }

    /** `PpbUpRouting.mem_process`: the LD-ID chooses the upstream connection. */
    method PpbUpMemProcess()
      requires Valid() && Ready(back) && !backBroken
      modifies this`back, this`up, this`backBroken
      ensures Valid() && State() == Step(old(State()), n, RouteUp)
    {
      var packet := Front(back);
      back := Pop(back);
      if packet.ld >= n {
        backBroken := true;
        return;
      }
      up := up[packet.ld := Push(up[packet.ld], packet)];
    }

    /** A host takes a response from its connection. */
    method GetResponse(i: nat) returns (rsp: Packet<Rsp>)
      requires Valid() && i < n && Ready(up[i])
      modifies this`up
      ensures Valid() && State() == Step(old(State()), n, Deliver(i)) && rsp == Front(old(up[i]))
    {
      rsp := Front(up[i]);
      up := up[i := Pop(up[i])];
    }
  }
}
