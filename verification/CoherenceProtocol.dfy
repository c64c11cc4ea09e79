/** The device coherence stack as a transition system.

    One cache (seen as a map from line address to its valid copy), one coherency agent with its
    INIT/START/WAIT state and host snoop filter, the device memory, and a host that is only known
    by the rules in `HostAllows`. Every step runs up to the next point where the program can be
    suspended. `held` records what the host was granted and has not given back; `flat` is the last
    value that reached the device for each line: the reference the whole stack must behave like. */
module CoherenceProtocol {
  import opened CoherenceTypes

  datatype Grant = HeldShared | HeldExclusive

  datatype System = System(
    cache: map<nat, Copy>,
    op: Operation,
    queue: seq<CacheRequest>,
    agent: AgentState,
    packet: CacheRequest,
    snoopFilter: set<nat>,
    mem: map<nat, nat>,
    held: map<nat, Grant>,
    flat: map<nat, nat>)

  /** What a step shows to the outside. */
  datatype Event =
    | Silent
    | Loaded(addr: nat, data: nat)
    | Stored(addr: nat)
    | Completed(addr: nat, rsp: Ndr, hasData: bool, data: nat)
    | BackSnooped(addr: nat, kind: RequestType)
    | AssertionFailed

  /** `victim` is the line the cache chooses to evict when the set is full. */
  datatype Label =
    | BeginLoad(addr: nat, evict: bool, victim: nat)
    | BeginStore(addr: nat, data: nat, evict: bool, victim: nat)
    | AgentFetch
    | AgentRun
    | HostBiRsp(answer: BiRsp)
    | HostReq(addr: nat, opcode: ReqOpcode, snoop: SnoopType, meta: MetaValue)
    | HostRwD(addr: nat, meta: MetaValue, data: nat)
    | HostDrop(addr: nat)
    | HostDowngrade(addr: nat)

  // ----- processor operations -----

  function Send(s: System, op: Operation): System
    requires !op.Idle?
  {
    s.(op := op, queue := s.queue + [op.Request()])
  }

  function DoBeginLoad(s: System, a: nat, evict: bool, v: nat): (System, Event)
    requires a !in s.cache && evict ==> v in s.cache
  {
    if a in s.cache then (s, Loaded(a, s.cache[a].data))
    else if evict then
      (Send(s, LoadEvict(a, v, s.cache[v].data, s.cache[v].state == Modified)), Silent)
    else (Send(s, LoadFill(a)), Silent)
  }

  function WriteLine(s: System, a: nat, d: nat): System {
    s.(cache := s.cache[a := Copy(Modified, d)], flat := s.flat[a := d], op := Idle)
  }

  function DoBeginStore(s: System, a: nat, d: nat, evict: bool, v: nat): (System, Event)
    requires a !in s.cache && evict ==> v in s.cache
  {
    if a in s.cache then
      if s.cache[a].state == Shared then (Send(s, StoreUpgrade(a, d)), Silent)
      else (WriteLine(s, a, d), Stored(a))
    else if evict then
      (Send(s, StoreEvict(a, v, s.cache[v].data, s.cache[v].state == Modified, d)), Silent)
    else (Send(s, StoreInv(a, d)), Silent)
  }

  /** The suspended operation takes the agent's answer and runs on. */
  function Resume(s: System, rsp: CacheResponse): (System, Event)
  {
    match s.op
    case Idle => (s, AssertionFailed)
    case LoadEvict(a, v, _, _) => (Send(s.(cache := s.cache - {v}), LoadFill(a)), Silent)
    case StoreEvict(a, v, _, _, d) => (Send(s.(cache := s.cache - {v}), StoreInv(a, d)), Silent)
    case LoadFill(a) =>
      if rsp.status == RspMiss then (s, AssertionFailed)
      else if FilledState(rsp.status) == Invalid then (s.(op := Idle), Loaded(a, rsp.data))
      else if a in s.cache then (s, AssertionFailed)
      else (s.(cache := s.cache[a := Copy(FilledState(rsp.status), rsp.data)], op := Idle), Loaded(a, rsp.data))
    case StoreInv(a, d) =>
      if rsp.status != RspI then (s, AssertionFailed) else (WriteLine(s, a, d), Stored(a))
    case StoreUpgrade(a, d) =>
      if rsp.status != RspI then (s, AssertionFailed) else (WriteLine(s, a, d), Stored(a))
  }

  // ----- the agent -----

  function Answer(s: System, status: ResponseStatus, data: nat): (System, Event) {
    Resume(s.(agent := Init), CacheResponse(status, data))
  }

  function DoAgentRun(s: System): (System, Event) {
    var a := s.packet.addr;
    match s.packet.kind
    case Read => Answer(s, Ok, MemoryRead(s.mem, a))
    case Write => Answer(s.(mem := s.mem[a := s.packet.data]), Ok, 0)
    case WriteBack => Answer(s.(mem := s.mem[a := s.packet.data]), Ok, 0)
    case WriteBackClean => Answer(s.(mem := s.mem[a := s.packet.data]), Ok, 0)
    case SnpData =>
      if a in s.snoopFilter then (s.(agent := Wait), BackSnooped(a, SnpData))
      else Answer(s, RspI, MemoryRead(s.mem, a))
    case SnpInv =>
      if a in s.snoopFilter then
        (s.(agent := Wait, snoopFilter := s.snoopFilter - {a}), BackSnooped(a, SnpInv))
      else Answer(s, RspI, 0)
    case SnpCur =>
      if a in s.snoopFilter then (s.(agent := Wait), BackSnooped(a, SnpCur))
      else Answer(s, RspV, 0)
  }

  function GivenBack(s: System, opcode: BiRsp): map<nat, Grant> {
    var a := s.packet.addr;
    if opcode == BiRspI then s.held - {a} else if a in s.held then s.held[a := HeldShared] else s.held
  }

  /** The answer also says what the host gave back: all of the line (I) or its ownership (S). */
  function DoHostBiRsp(s: System, opcode: BiRsp): (System, Event) {
    Answer(s.(held := GivenBack(s, opcode)), if opcode == BiRspI then RspI else RspS, MemoryRead(s.mem, s.packet.addr))
  }

  // ----- the host -----

  function SnoopKind(t: SnoopType): RequestType {
    match t case HostSnpData => SnpData case HostSnpInv => SnpInv case HostSnpCur => SnpCur
  }

  function DataRead(opcode: ReqOpcode): bool {
    opcode != MemInv
  }

  /** The completion the agent sends for a request, from the cache's answer to its snoop. */
  function Completion(status: ResponseStatus, snoop: SnoopType, meta: MetaValue): Ndr {
    if status == RspMiss then
      if snoop == HostSnpData || (snoop == HostSnpInv && meta == MetaAny) then CmpE else Cmp
    else if status == RspS || status == RspM then CmpS
    else if status == RspI && meta == MetaAny then CmpE
    else Cmp
  }

  /** A snooped line is written to memory only for this kind of request. */
  predicate Flushes(opcode: ReqOpcode, snoop: SnoopType, meta: MetaValue) {
    snoop == HostSnpInv && meta == MetaInvalid && opcode == MemRd
  }

  function DoHostReq(s: System, a: nat, opcode: ReqOpcode, snoop: SnoopType, meta: MetaValue): (System, Event) {
    var status := SnoopAnswer(SnoopKind(snoop), StateOf(s.cache, a));
    var rsp := Completion(status, snoop, meta);
    var data := if status != RspMiss then DataOf(s.cache, a)
                else if DataRead(opcode) then MemoryRead(s.mem, a) else 0;
    (s.(cache := Snooped(s.cache, SnoopKind(snoop), a),
        mem := if status != RspMiss && Flushes(opcode, snoop, meta) then s.mem[a := data] else s.mem,
        snoopFilter := if rsp == Cmp then s.snoopFilter else s.snoopFilter + {a},
        held := match rsp case Cmp => s.held case CmpS => s.held[a := HeldShared] case CmpE => s.held[a := HeldExclusive]),
     Completed(a, rsp, DataRead(opcode), data))
  }

  /** The meta value of a write says what the host keeps: the line (ANY), a shared copy, nothing. */
  function DoHostRwD(s: System, a: nat, meta: MetaValue, d: nat): (System, Event) {
    (s.(cache := Snooped(s.cache, if meta == MetaShared then SnpData else SnpInv, a),
        mem := s.mem[a := d],
        flat := s.flat[a := d],
        snoopFilter := if meta == MetaInvalid then s.snoopFilter - {a} else s.snoopFilter,
        held := match meta
                case MetaAny => s.held
                case MetaShared => s.held[a := HeldShared]
                case MetaInvalid => s.held - {a}),
     Completed(a, Cmp, false, 0))
  }

  // ----- the transition system -----

  predicate HoldsExclusive(s: System, a: nat) {
    a in s.held && s.held[a] == HeldExclusive
  }

  /** Rules for the host: no request for a line whose back snoop is outstanding, BISnpInv is
      answered by BIRsp-I, and a write keeps a copy only of a line the host owns. */
  predicate HostAllows(s: System, l: Label) {
    match l
    case HostReq(a, _, _, _) => !(s.agent == Wait && s.packet.addr == a)
    case HostRwD(a, meta, _) => meta != MetaInvalid ==> HoldsExclusive(s, a)
    case HostBiRsp(opcode) => s.packet.kind == SnpInv ==> opcode == BiRspI
    case HostDowngrade(a) => HoldsExclusive(s, a)
    case _ => true
  }

  predicate Enabled(s: System, l: Label) {
    && HostAllows(s, l)
    && match l
       case BeginLoad(a, evict, v) => s.op.Idle? && (a !in s.cache && evict ==> v in s.cache)
       case BeginStore(a, _, evict, v) => s.op.Idle? && (a !in s.cache && evict ==> v in s.cache)
       case AgentFetch => s.agent == Init && s.queue != []
       case AgentRun => s.agent == Start
       case HostBiRsp(_) => s.agent == Wait
       case _ => true
  }

  function Step(s: System, l: Label): (System, Event)
    requires Enabled(s, l)
  {
    match l
    case BeginLoad(a, evict, v) => DoBeginLoad(s, a, evict, v)
    case BeginStore(a, d, evict, v) => DoBeginStore(s, a, d, evict, v)
    case AgentFetch => (s.(packet := s.queue[0], queue := s.queue[1..], agent := Start), Silent)
    case AgentRun => DoAgentRun(s)
    case HostBiRsp(opcode) => DoHostBiRsp(s, opcode)
    case HostReq(a, opcode, snoop, meta) => DoHostReq(s, a, opcode, snoop, meta)
    case HostRwD(a, meta, d) => DoHostRwD(s, a, meta, d)
    case HostDrop(a) => (s.(held := s.held - {a}), Silent)
    case HostDowngrade(a) => (s.(held := s.held[a := HeldShared]), Silent)
  }

  function InitialSystem(mem: map<nat, nat>): System {
    System(map[], Idle, [], Init, CacheRequest(Read, 0, 0), {}, mem, map[], mem)
  }

  lemma PowerOn(mem: map<nat, nat>)
    ensures Invariant(InitialSystem(mem)) && Flat(InitialSystem(mem))
    ensures CleanIsMemory(InitialSystem(mem)) && CleanLeaves(InitialSystem(mem))
    ensures var s := InitialSystem(mem);
            && s.op == Idle && s.queue == [] && s.agent == Init && s.snoopFilter == {}
            && forall a: nat :: a !in s.cache && a !in s.held && MemoryRead(s.mem, a) == MemoryRead(mem, a)
  {}

  /** `labels` can be taken one after the other from `s`. */
  predicate Possible(s: System, labels: seq<Label>)
    decreases |labels|
  {
    labels != [] ==> Enabled(s, labels[0]) && Possible(Step(s, labels[0]).0, labels[1..])
  }

  function Run(s: System, labels: seq<Label>): System
    requires Possible(s, labels)
    decreases |labels|
  {
    if labels == [] then s else Run(Step(s, labels[0]).0, labels[1..])
  }

  // ----- invariants -----

  /** The suspended operation, the request queue and the agent tell the same story. */
  predicate Control(s: System) {
    if s.op.Idle? then s.queue == [] && s.agent == Init
    else
      var r := s.op.Request();
      && (if s.agent == Init then s.queue == [r] else s.queue == [] && s.packet == r)
      && (s.agent == Wait ==> !s.op.WritesBack())
  }

  /** The line an operation is about stays out of the cache until it is filled, and the victim
      of an eviction keeps the data that was sent. */
  predicate Pending(s: System) {
    match s.op
    case Idle => true
    case LoadEvict(a, v, d, _) => a !in s.cache && a != v && (v in s.cache ==> s.cache[v].data == d)
    case StoreEvict(a, v, d, _, _) => a !in s.cache && a != v && (v in s.cache ==> s.cache[v].data == d)
    case LoadFill(a) => a !in s.cache
    case StoreInv(a, _) => a !in s.cache
    case StoreUpgrade(a, _) => a in s.cache ==> s.cache[a].state == Shared
  }

  predicate OnlyValidCopies(s: System) {
    forall a :: a in s.cache ==> s.cache[a].state != Invalid
  }

  /** A line the host owns is not cached by the device; a line it shares is at most shared. */
  predicate SingleWriter(s: System) {
    forall a :: a in s.held && a in s.cache ==> s.held[a] == HeldShared && s.cache[a].state == Shared
  }

  predicate InvalidationOutstanding(s: System, a: nat) {
    s.agent == Wait && s.packet.kind == SnpInv && s.packet.addr == a
  }

  predicate Tracked(s: System) {
    forall a :: a in s.held ==> a in s.snoopFilter || InvalidationOutstanding(s, a)
  }

  predicate Invariant(s: System) {
    Control(s) && Pending(s) && OnlyValidCopies(s) && SingleWriter(s) && Tracked(s)
  }

  lemma BeginLoadKeepsInvariant(s: System, a: nat, evict: bool, v: nat)
    requires Invariant(s) && Enabled(s, BeginLoad(a, evict, v))
    ensures Invariant(DoBeginLoad(s, a, evict, v).0) && DoBeginLoad(s, a, evict, v).1 != AssertionFailed
  {}

  lemma BeginStoreKeepsInvariant(s: System, a: nat, d: nat, evict: bool, v: nat)
    requires Invariant(s) && Enabled(s, BeginStore(a, d, evict, v))
    ensures Invariant(DoBeginStore(s, a, d, evict, v).0) && DoBeginStore(s, a, d, evict, v).1 != AssertionFailed
  {}

  lemma FetchKeepsInvariant(s: System)
    requires Invariant(s) && Enabled(s, AgentFetch)
    ensures Invariant(Step(s, AgentFetch).0)
  {}

  /** The next request of an operation after its write-back. */
  lemma WrittenBackKeepsInvariant(s: System, status: ResponseStatus, data: nat)
    requires s.op.WritesBack() && s.queue == [] && Pending(s) && OnlyValidCopies(s) && SingleWriter(s)
    requires forall a :: a in s.held ==> a in s.snoopFilter
    ensures Invariant(Answer(s, status, data).0) && Answer(s, status, data).1 != AssertionFailed
  {
    var t := Answer(s, status, data).0;
    assert Control(t) && Pending(t);
  }

  lemma FilledKeepsInvariant(s: System, status: ResponseStatus, data: nat)
    requires s.op.LoadFill? && s.queue == [] && Pending(s) && OnlyValidCopies(s) && SingleWriter(s)
    requires forall a :: a in s.held ==> a in s.snoopFilter
    requires status in {RspI, RspS} && (s.op.addr in s.held ==> status == RspS && s.held[s.op.addr] == HeldShared)
    ensures Invariant(Answer(s, status, data).0) && Answer(s, status, data).1 != AssertionFailed
  {
    var t := Answer(s, status, data).0;
    assert Control(t) && Pending(t);
  }

  lemma StoredKeepsInvariant(s: System, data: nat)
    requires (s.op.StoreInv? || s.op.StoreUpgrade?) && s.queue == [] && OnlyValidCopies(s) && SingleWriter(s)
    requires forall a :: a in s.held ==> a in s.snoopFilter
    requires s.op.addr !in s.held
    ensures Invariant(Answer(s, RspI, data).0) && Answer(s, RspI, data).1 != AssertionFailed
  {
    var t := Answer(s, RspI, data).0;
    assert Control(t) && Pending(t);
  }

  lemma ResumeKeepsInvariant(s: System, status: ResponseStatus, data: nat)
    requires !s.op.Idle? && s.queue == [] && Pending(s) && OnlyValidCopies(s) && SingleWriter(s)
    requires forall a :: a in s.held ==> a in s.snoopFilter
    requires s.op.LoadFill? ==> status in {RspI, RspS}
    requires s.op.StoreInv? || s.op.StoreUpgrade? ==> status == RspI
    requires !s.op.WritesBack() ==>
               && (status == RspI ==> s.op.addr !in s.held)
               && (status == RspS && s.op.addr in s.held ==> s.held[s.op.addr] == HeldShared)
    ensures Invariant(Answer(s, status, data).0) && Answer(s, status, data).1 != AssertionFailed
  {
    hide Invariant, Pending, OnlyValidCopies, SingleWriter, Answer;
    if s.op.WritesBack() {
      WrittenBackKeepsInvariant(s, status, data);
    } else if s.op.LoadFill? {
      FilledKeepsInvariant(s, status, data);
    } else {
      StoredKeepsInvariant(s, data);
    }
  }

  /** The request the agent works on is the one the operation waits for. */
  lemma AgentServesOperation(s: System)
    requires Control(s) && s.agent != Init
    ensures !s.op.Idle? && s.queue == [] && s.packet == s.op.Request()
  {}

  lemma BackSnoopKeepsInvariant(s: System)
    requires Invariant(s) && s.agent == Start && !s.op.WritesBack() && s.packet.addr in s.snoopFilter
    ensures Invariant(DoAgentRun(s).0) && DoAgentRun(s).1 != AssertionFailed
  {
    var t := DoAgentRun(s).0;
    assert Control(t) && Pending(t);
  }

  lemma AgentRunKeepsInvariant(s: System)
    requires Invariant(s) && s.agent == Start
    ensures Invariant(DoAgentRun(s).0) && DoAgentRun(s).1 != AssertionFailed
  {
    hide Answer, Pending, OnlyValidCopies, SingleWriter;
    var a := s.packet.addr;
    AgentServesOperation(s);
    if s.op.WritesBack() {
      SameCopies(s, s.(mem := s.mem[a := s.packet.data]));
      ResumeKeepsInvariant(s.(mem := s.mem[a := s.packet.data]), Ok, 0);
    } else if a !in s.snoopFilter {
      assert a !in s.held;
      ResumeKeepsInvariant(s, RspI, if s.packet.kind == SnpData then MemoryRead(s.mem, a) else 0);
    } else {
      BackSnoopKeepsInvariant(s);
    }
  }

  lemma SameCopies(s: System, t: System)
    requires t.cache == s.cache && t.held == s.held && t.op == s.op
    ensures Pending(s) ==> Pending(t)
    ensures OnlyValidCopies(s) ==> OnlyValidCopies(t)
    ensures SingleWriter(s) ==> SingleWriter(t)
  {}

  lemma BiRspKeepsInvariant(s: System, opcode: BiRsp)
    requires Invariant(s) && Enabled(s, HostBiRsp(opcode))
    ensures Invariant(DoHostBiRsp(s, opcode).0) && DoHostBiRsp(s, opcode).1 != AssertionFailed
  {
    var a, held := s.packet.addr, GivenBack(s, opcode);
    ResumeKeepsInvariant(s.(held := held), if opcode == BiRspI then RspI else RspS, MemoryRead(s.mem, a));
  }

  lemma HostReqKeepsInvariant(s: System, a: nat, opcode: ReqOpcode, snoop: SnoopType, meta: MetaValue)
    requires Invariant(s) && Enabled(s, HostReq(a, opcode, snoop, meta))
    ensures Invariant(DoHostReq(s, a, opcode, snoop, meta).0)
  {}

  lemma HostRwDKeepsInvariant(s: System, a: nat, meta: MetaValue, d: nat)
    requires Invariant(s) && Enabled(s, HostRwD(a, meta, d))
    ensures Invariant(DoHostRwD(s, a, meta, d).0)
  {}

  lemma HostGivesBack(s: System, l: Label)
    requires Invariant(s) && Enabled(s, l) && (l.HostDrop? || l.HostDowngrade?)
    ensures Invariant(Step(s, l).0) && Step(s, l).1 != AssertionFailed
  {}

  lemma StepKeepsInvariant(s: System, l: Label)
    requires Invariant(s) && Enabled(s, l)
    ensures Invariant(Step(s, l).0) && Step(s, l).1 != AssertionFailed
  {
    hide Invariant, DoAgentRun, DoHostBiRsp, DoBeginLoad, DoBeginStore;
    match l
    case AgentRun => AgentRunKeepsInvariant(s);
    case HostBiRsp(opcode) => BiRspKeepsInvariant(s, opcode);
    case BeginLoad(a, evict, v) => BeginLoadKeepsInvariant(s, a, evict, v);
    case BeginStore(a, d, evict, v) => BeginStoreKeepsInvariant(s, a, d, evict, v);
    case AgentFetch => FetchKeepsInvariant(s);
    case HostReq(a, opcode, snoop, meta) => HostReqKeepsInvariant(s, a, opcode, snoop, meta);
    case HostRwD(a, meta, d) => HostRwDKeepsInvariant(s, a, meta, d);
    case _ => HostGivesBack(s, l);
  }

  /** Single writer over all runs. */
  lemma {:induction false} RunKeepsInvariant(s: System, labels: seq<Label>)
    requires Invariant(s) && Possible(s, labels)
    ensures Invariant(Run(s, labels))
    decreases |labels|
  {
    if labels != [] {
      StepKeepsInvariant(s, labels[0]);
      RunKeepsInvariant(Step(s, labels[0]).0, labels[1..]);
    }
  }

  // ----- progress -----

  /** How many agent steps the suspended operation is away from its end, at most. */
  function Rank(s: System): nat {
    if s.op.Idle? then 0
    else (if s.op.WritesBack() then 3 else 0) + match s.agent case Init => 3 case Start => 2 case Wait => 1
  }

  lemma AgentIsNotStuck(s: System)
    requires Invariant(s) && !s.op.Idle?
    ensures Enabled(s, if s.agent == Init then AgentFetch else if s.agent == Start then AgentRun else HostBiRsp(BiRspI))
  {}

  lemma AnswerRank(s: System, status: ResponseStatus, data: nat)
    requires !s.op.Idle? && Answer(s, status, data).1 != AssertionFailed
    ensures Rank(Answer(s, status, data).0) == if s.op.WritesBack() then 3 else 0
  {}

  lemma AgentLowersRank(s: System, l: Label)
    requires Control(s) && !s.op.Idle? && Enabled(s, l) && (l.AgentFetch? || l.AgentRun? || l.HostBiRsp?)
    requires Step(s, l).1 != AssertionFailed
    ensures Rank(Step(s, l).0) < Rank(s)
  {
    hide Answer, MemoryRead;
    if !l.AgentFetch? { AgentServesOperation(s); }
    if l.AgentRun? {
      var a := s.packet.addr;
      if s.op.WritesBack() {
        AnswerRank(s.(mem := s.mem[a := s.packet.data]), Ok, 0);
      } else if a !in s.snoopFilter {
        AnswerRank(s, RspI, if s.packet.kind == SnpData then MemoryRead(s.mem, a) else 0);
      }
    } else if l.HostBiRsp? {
      AnswerRank(s.(held := GivenBack(s, l.answer)), if l.answer == BiRspI then RspI else RspS, MemoryRead(s.mem, s.packet.addr));
    }
  }

  lemma OthersKeepRank(s: System, l: Label)
    requires !s.op.Idle? && Enabled(s, l) && !(l.AgentFetch? || l.AgentRun? || l.HostBiRsp?)
    ensures Rank(Step(s, l).0) == Rank(s)
  {}

  /** An operation is never stuck: the agent, or the host's answer to the outstanding back
      snoop, can always take a step, each such step brings the operation nearer to its end, and
      nothing the host does sets it back. */
  lemma OperationsComplete(s: System, l: Label)
    requires Invariant(s) && !s.op.Idle?
    ensures Enabled(s, if s.agent == Init then AgentFetch else if s.agent == Start then AgentRun else HostBiRsp(BiRspI))
    ensures Enabled(s, l) ==> if l.AgentFetch? || l.AgentRun? || l.HostBiRsp? then Rank(Step(s, l).0) < Rank(s)
                              else Rank(Step(s, l).0) == Rank(s)
  {
    hide Enabled, Step, Rank, Control, Pending, OnlyValidCopies, SingleWriter, Tracked;
    AgentIsNotStuck(s);
    if Enabled(s, l) {
      if l.AgentFetch? || l.AgentRun? || l.HostBiRsp? {
        StepKeepsInvariant(s, l);
        AgentLowersRank(s, l);
      } else {
        OthersKeepRank(s, l);
      }
    }
  }

  // ----- the stack behaves like one flat memory -----

  /** The device side knows the last value of the line, and a write-back in flight carries it. */
  predicate FlatAt(s: System, a: nat) {
    var latest := MemoryRead(s.flat, a);
    && (if a in s.cache then s.cache[a].data == latest else MemoryRead(s.mem, a) == latest)
    && (s.op.WritesBack() && s.op.victim == a ==> s.op.wbData == latest)
  }

  ghost predicate Flat(s: System) {
    forall a: nat :: FlatAt(s, a)
  }

  /** The two host requests that lose a value: a write to a line while an older value of it is
      being written back, and an invalidating read that takes a line whose value is not in memory
      without writing it there. */
  predicate Hazard(s: System, l: Label) {
    match l
    case HostRwD(a, _, d) => s.op.WritesBack() && s.op.victim == a && s.op.wbData != d
    case HostReq(a, opcode, snoop, meta) =>
      && snoop == HostSnpInv && a in s.cache
      && s.cache[a].data != MemoryRead(s.mem, a)
      && !Flushes(opcode, snoop, meta)
    case _ => false
  }

  /** Whatever is read is the last value that reached the device. */
  predicate ReadsLatest(s: System, e: Event) {
    match e
    case Loaded(a, d) => d == MemoryRead(s.flat, a)
    case Completed(a, _, true, d) => d == MemoryRead(s.flat, a)
    case _ => true
  }

  lemma FlatAfterHazard(s: System, l: Label)
    requires Invariant(s) && Flat(s) && Enabled(s, l) && Hazard(s, l)
    ensures !FlatAt(Step(s, l).0, l.addr)
  {
    assert FlatAt(s, l.addr);
  }

  lemma FlatAfterWriteBack(s: System, status: ResponseStatus, data: nat, a: nat)
    requires s.op.WritesBack()
    requires a == s.op.victim ==> MemoryRead(s.mem, a) == MemoryRead(s.flat, a)
    requires FlatAt(s.(op := Idle), a)
    ensures FlatAt(Answer(s, status, data).0, a)
  {}

  lemma FlatAfterFill(s: System, status: ResponseStatus, data: nat, a: nat)
    requires s.op.LoadFill? && Pending(s)
    requires data == MemoryRead(s.mem, s.op.addr) && MemoryRead(s.mem, s.op.addr) == MemoryRead(s.flat, s.op.addr)
    requires FlatAt(s.(op := Idle), a)
    ensures FlatAt(Answer(s, status, data).0, a)
  {}

  lemma FlatAfterStored(s: System, status: ResponseStatus, data: nat, a: nat)
    requires s.op.StoreInv? || s.op.StoreUpgrade?
    requires FlatAt(s.(op := Idle), a)
    ensures FlatAt(Answer(s, status, data).0, a)
  {}

  /** Taking the agent's answer keeps the refinement when the memory is right and a line that
      is filled is filled from memory. */
  lemma FlatAfterAnswer(s: System, status: ResponseStatus, data: nat, a: nat)
    requires !s.op.Idle? && Pending(s)
    requires s.op.LoadFill? ==> data == MemoryRead(s.mem, s.op.addr) && MemoryRead(s.mem, s.op.addr) == MemoryRead(s.flat, s.op.addr)
    requires s.op.WritesBack() && a == s.op.victim ==> MemoryRead(s.mem, a) == MemoryRead(s.flat, a)
    requires FlatAt(s.(op := Idle), a)
    ensures FlatAt(Answer(s, status, data).0, a)
  {
    hide Answer, FlatAt, Pending, MemoryRead;
    if s.op.WritesBack() {
      FlatAfterWriteBack(s, status, data, a);
    } else if s.op.LoadFill? {
      FlatAfterFill(s, status, data, a);
    } else {
      FlatAfterStored(s, status, data, a);
    }
  }

  lemma FlatAfterHost(s: System, l: Label, a: nat)
    requires Invariant(s) && Flat(s) && Enabled(s, l) && !Hazard(s, l)
    requires l.HostReq? || l.HostRwD? || l.HostDrop? || l.HostDowngrade?
    ensures FlatAt(Step(s, l).0, a)
  {
    assert FlatAt(s, a);
  }

  lemma FlatWithoutOperation(s: System, a: nat)
    requires FlatAt(s, a)
    ensures FlatAt(s.(op := Idle), a)
  {}

  /** The write-back carries the last value of the victim. */
  lemma FlatAfterVictim(s: System, a: nat)
    requires Pending(s) && s.op.WritesBack() && FlatAt(s, a) && FlatAt(s, s.op.victim)
    ensures var t := s.(mem := s.mem[s.op.victim := s.op.wbData]);
            FlatAt(t.(op := Idle), a) && MemoryRead(t.mem, s.op.victim) == MemoryRead(t.flat, s.op.victim)
  {}

  lemma FlatAfterAgent(s: System, a: nat)
    requires Invariant(s) && Flat(s) && s.agent == Start
    ensures FlatAt(DoAgentRun(s).0, a)
  {
    assert FlatAt(s, a) && FlatAt(s, s.packet.addr);
    hide Answer, Flat, MemoryRead, FlatAt, Pending, OnlyValidCopies, SingleWriter, Tracked;
    AgentServesOperation(s);
    var p := s.packet;
    if s.op.WritesBack() {
      var t := s.(mem := s.mem[p.addr := p.data]);
      SameCopies(s, t);
      FlatAfterVictim(s, a);
      FlatAfterAnswer(t, Ok, 0, a);
    } else if p.addr !in s.snoopFilter {
      FlatWithoutOperation(s, a);
      if s.op.LoadFill? { FilledFromMemory(s); }
      FlatAfterAnswer(s, RspI, if p.kind == SnpData then MemoryRead(s.mem, p.addr) else 0, a);
    } else {
      FlatAfterBackSnoop(s, a);
    }
  }

  lemma FlatAfterBackSnoop(s: System, a: nat)
    requires FlatAt(s, a) && s.agent == Start && s.packet.kind in {SnpData, SnpInv} && s.packet.addr in s.snoopFilter
    ensures FlatAt(DoAgentRun(s).0, a)
  {}

  lemma FlatAfterBiRsp(s: System, answer: BiRsp, a: nat)
    requires Invariant(s) && Flat(s) && s.agent == Wait
    ensures FlatAt(DoHostBiRsp(s, answer).0, a)
  {
    assert FlatAt(s, a);
    hide Answer, Flat, MemoryRead, FlatAt, Pending, OnlyValidCopies, SingleWriter, Tracked, GivenBack;
    AgentServesOperation(s);
    var t := s.(held := GivenBack(s, answer));
    PendingAlone(s, t);
    SameFlat(s, t, a);
    FlatWithoutOperation(t, a);
    if s.op.LoadFill? { FilledFromMemory(s); }
    FlatAfterAnswer(t, if answer == BiRspI then RspI else RspS, MemoryRead(s.mem, s.packet.addr), a);
  }

  lemma PendingAlone(s: System, t: System)
    requires t.cache == s.cache && t.op == s.op && Pending(s)
    ensures Pending(t)
  {}

  lemma SameFlat(s: System, t: System, a: nat)
    requires t.cache == s.cache && t.op == s.op && t.mem == s.mem && t.flat == s.flat && FlatAt(s, a)
    ensures FlatAt(t, a)
  {}

  lemma FlatAfterBegin(s: System, l: Label, a: nat)
    requires Invariant(s) && Flat(s) && Enabled(s, l) && (l.BeginLoad? || l.BeginStore? || l.AgentFetch?)
    ensures FlatAt(Step(s, l).0, a)
  {
    assert FlatAt(s, a);
  }

  lemma FlatAfterStep(s: System, l: Label, a: nat)
    requires Invariant(s) && Flat(s) && Enabled(s, l) && !Hazard(s, l)
    ensures FlatAt(Step(s, l).0, a)
  {
    match l
    case AgentRun => FlatAfterAgent(s, a);
    case HostBiRsp(answer) => FlatAfterBiRsp(s, answer, a);
    case BeginLoad(_, _, _) => FlatAfterBegin(s, l, a);
    case BeginStore(_, _, _, _) => FlatAfterBegin(s, l, a);
    case AgentFetch => FlatAfterBegin(s, l, a);
    case _ => FlatAfterHost(s, l, a);
  }

  /** Exactly the hazards break the refinement; nothing else does. */
  lemma StepKeepsFlat(s: System, l: Label)
    requires Invariant(s) && Flat(s) && Enabled(s, l)
    ensures Flat(Step(s, l).0) <==> !Hazard(s, l)
  {
    if Hazard(s, l) {
      FlatAfterHazard(s, l);
    } else {
      forall a: nat ensures FlatAt(Step(s, l).0, a) { FlatAfterStep(s, l, a); }
    }
  }

  lemma HostReadsLatest(s: System, l: Label)
    requires l.HostReq? && FlatAt(s, l.addr) && OnlyValidCopies(s)
    ensures ReadsLatest(s, DoHostReq(s, l.addr, l.opcode, l.snoop, l.meta).1)
  {}

  lemma AnswerReadsLatest(s: System, flat: map<nat, nat>, status: ResponseStatus, data: nat)
    requires s.flat == flat && (s.op.LoadFill? ==> data == MemoryRead(flat, s.op.addr))
    ensures ReadsLatest(s, Answer(s, status, data).1)
  {}

  lemma FilledFromMemory(s: System)
    requires Invariant(s) && Flat(s) && s.op.LoadFill? && s.agent != Init
    ensures s.packet == CacheRequest(SnpData, s.op.addr, 0)
    ensures MemoryRead(s.mem, s.op.addr) == MemoryRead(s.flat, s.op.addr)
  {
    assert FlatAt(s, s.op.addr);
  }

  lemma AgentReadsLatest(s: System)
    requires Invariant(s) && Flat(s) && s.agent == Start
    ensures ReadsLatest(s, DoAgentRun(s).1)
  {
    hide Answer, Flat, MemoryRead, Pending, OnlyValidCopies, SingleWriter, Tracked;
    AgentServesOperation(s);
    var a := s.packet.addr;
    if s.op.LoadFill? { FilledFromMemory(s); }
    if s.op.WritesBack() {
      AnswerReadsLatest(s.(mem := s.mem[a := s.packet.data]), s.flat, Ok, 0);
    } else if a !in s.snoopFilter {
      AnswerReadsLatest(s, s.flat, RspI, if s.packet.kind == SnpData then MemoryRead(s.mem, a) else 0);
    }
  }

  lemma BiRspReadsLatest(s: System, answer: BiRsp)
    requires Invariant(s) && Flat(s) && s.agent == Wait
    ensures ReadsLatest(s, DoHostBiRsp(s, answer).1)
  {
    hide Answer, Flat, MemoryRead, Pending, OnlyValidCopies, SingleWriter, Tracked;
    AgentServesOperation(s);
    if s.op.LoadFill? { FilledFromMemory(s); }
    var held := GivenBack(s, answer);
    AnswerReadsLatest(s.(held := held), s.flat, if answer == BiRspI then RspI else RspS, MemoryRead(s.mem, s.packet.addr));
  }

  lemma StepReadsLatest(s: System, l: Label)
    requires Invariant(s) && Flat(s) && Enabled(s, l)
    ensures ReadsLatest(s, Step(s, l).1)
  {
    hide DoHostReq, DoAgentRun, DoHostBiRsp, OnlyValidCopies, Pending, SingleWriter, Tracked;
    match l
    case HostReq(a, _, _, _) =>
      assert FlatAt(s, a);
      HostReadsLatest(s, l);
    case BeginLoad(a, _, _) => assert FlatAt(s, a);
    case AgentRun => AgentReadsLatest(s);
    case HostBiRsp(answer) => BiRspReadsLatest(s, answer);
    case _ =>
  }

  // over whole runs

  predicate HazardFree(s: System, labels: seq<Label>)
    requires Possible(s, labels)
    decreases |labels|
  {
    labels != [] ==> !Hazard(s, labels[0]) && HazardFree(Step(s, labels[0]).0, labels[1..])
  }

  ghost predicate AlwaysFlat(s: System, labels: seq<Label>)
    requires Possible(s, labels)
    decreases |labels|
  {
    Flat(s) && (labels != [] ==> AlwaysFlat(Step(s, labels[0]).0, labels[1..]))
  }

  predicate AllReadsLatest(s: System, labels: seq<Label>)
    requires Possible(s, labels)
    decreases |labels|
  {
    labels != [] ==>
      && ReadsLatest(s, Step(s, labels[0]).1)
      && AllReadsLatest(Step(s, labels[0]).0, labels[1..])
  }

  /** A run refines the flat memory in all its states exactly when it meets no hazard. */
  lemma {:induction false} RunIsFlatIffHazardFree(s: System, labels: seq<Label>)
    requires Invariant(s) && Flat(s) && Possible(s, labels)
    ensures AlwaysFlat(s, labels) <==> HazardFree(s, labels)
    decreases |labels|
  {
    if labels != [] {
      var s' := Step(s, labels[0]).0;
      StepKeepsInvariant(s, labels[0]);
      StepKeepsFlat(s, labels[0]);
      if Flat(s') {
        RunIsFlatIffHazardFree(s', labels[1..]);
      }
    }
  }

  /** No lost update: in a run without hazards, every device load and every host read returns
      the last value stored to its line. */
  lemma {:induction false} NoLostUpdate(s: System, labels: seq<Label>)
    requires Invariant(s) && Flat(s) && Possible(s, labels) && HazardFree(s, labels)
    ensures AllReadsLatest(s, labels)
    decreases |labels|
  {
    if labels != [] {
      StepReadsLatest(s, labels[0]);
      StepKeepsInvariant(s, labels[0]);
      StepKeepsFlat(s, labels[0]);
      NoLostUpdate(Step(s, labels[0]).0, labels[1..]);
    }
  }

  /** The read that shows a lost value. */
  function ReadBack(a: nat): Label {
    HostReq(a, MemRd, HostSnpCur, MetaAny)
  }

  lemma StaleRead(s: System, a: nat)
    requires !(s.agent == Wait && s.packet.addr == a)
    requires (if a in s.cache then s.cache[a].data else MemoryRead(s.mem, a)) != MemoryRead(s.flat, a)
    requires a in s.cache ==> s.cache[a].state != Invalid
    ensures Possible(s, [ReadBack(a)]) && !AllReadsLatest(s, [ReadBack(a)])
  {
    assert !ReadsLatest(s, Step(s, ReadBack(a)).1);
  }

  lemma OneMore(s: System, l: Label, rest: seq<Label>)
    requires Enabled(s, l) && Possible(Step(s, l).0, rest)
    ensures Possible(s, [l] + rest)
    ensures !AllReadsLatest(Step(s, l).0, rest) ==> !AllReadsLatest(s, [l] + rest)
  {
    hide Enabled, Step, ReadsLatest;
    assert ([l] + rest)[1..] == rest;
  }

  lemma AnswerToWriteBack(s: System, status: ResponseStatus, data: nat)
    requires s.op.WritesBack()
    ensures var t := Answer(s, status, data).0;
            t.agent == Init && t.flat == s.flat && t.mem == s.mem && t.cache == s.cache - {s.op.victim}
  {}

  /** The write-back that is under way puts its value over the one the host has just written. */
  lemma WriteBackWins(s: System)
    requires Control(s) && s.op.WritesBack() && s.agent == Start
    ensures Enabled(s, AgentRun)
    ensures var t := Step(s, AgentRun).0;
            && t.agent == Init && t.flat == s.flat
            && t.cache == s.cache - {s.op.victim} && MemoryRead(t.mem, s.op.victim) == s.op.wbData
  {
    hide Answer;
    AgentServesOperation(s);
    AnswerToWriteBack(s.(mem := s.mem[s.op.victim := s.op.wbData]), Ok, 0);
  }

  lemma WriteBackLoses(s: System) returns (labels: seq<Label>)
    requires Control(s) && s.op.WritesBack() && s.op.wbData != MemoryRead(s.flat, s.op.victim)
    ensures 0 < |labels| <= 3 && Possible(s, labels) && !AllReadsLatest(s, labels)
  {
    hide Step, Possible, AllReadsLatest;
    if s.agent == Init {
      var t := s.(packet := s.queue[0], queue := s.queue[1..], agent := Start);
      assert Enabled(s, AgentFetch) && Step(s, AgentFetch).0 == t by { FetchIs(s); }
      var rest := AgentRunLoses(t);
      OneMore(s, AgentFetch, rest);
      labels := [AgentFetch] + rest;
    } else {
      labels := AgentRunLoses(s);
    }
  }

  lemma FetchIs(s: System)
    requires s.agent == Init && s.queue != []
    ensures Enabled(s, AgentFetch) && Step(s, AgentFetch).0 == s.(packet := s.queue[0], queue := s.queue[1..], agent := Start)
  {}

  lemma AgentRunLoses(s: System) returns (labels: seq<Label>)
    requires Control(s) && s.op.WritesBack() && s.agent == Start && s.op.wbData != MemoryRead(s.flat, s.op.victim)
    ensures 0 < |labels| <= 2 && Possible(s, labels) && !AllReadsLatest(s, labels)
  {
    hide Step, Possible, AllReadsLatest, Enabled, Control;
    var a := s.op.victim;
    WriteBackWins(s);
    StaleRead(Step(s, AgentRun).0, a);
    OneMore(s, AgentRun, [ReadBack(a)]);
    labels := [AgentRun] + [ReadBack(a)];
  }

  /** Every hazard can be seen: within three more steps the host reads a value that is not the last. */
  lemma HazardIsObservable(s: System, l: Label) returns (labels: seq<Label>)
    requires Invariant(s) && Flat(s) && Enabled(s, l) && Hazard(s, l)
    ensures 0 < |labels| <= 3 && Possible(Step(s, l).0, labels) && !AllReadsLatest(Step(s, l).0, labels)
  {
    hide Possible, AllReadsLatest, Invariant, OnlyValidCopies, SingleWriter, Tracked;
    StepKeepsInvariant(s, l);
    var t := Step(s, l).0;
    if l.HostReq? {
      assert FlatAt(s, l.addr);
      StaleRead(t, l.addr);
      labels := [ReadBack(l.addr)];
    } else {
      ControlHolds(t);
      labels := WriteBackLoses(t);
    }
  }

  lemma ControlHolds(s: System)
    requires Invariant(s)
    ensures Control(s)
  {}

  /** A run that meets a hazard loses an update: after the hazard the host can read an older value, in a
      run that agrees with the given one up to the hazard. */
  lemma {:induction false} HazardLosesUpdate(s: System, labels: seq<Label>) returns (n: nat, tail: seq<Label>)
    requires Invariant(s) && Flat(s) && Possible(s, labels) && !HazardFree(s, labels)
    ensures n <= |labels| && |tail| <= 3
    ensures Possible(s, labels[..n] + tail) && !AllReadsLatest(s, labels[..n] + tail)
    decreases |labels|
  {
    hide Invariant, Flat, Hazard, Enabled, Step, ReadsLatest;
    var l := labels[0];
    if Hazard(s, l) {
      n := 1;
      tail := HazardIsObservable(s, l);
      OneMore(s, l, tail);
      assert labels[..1] == [l];
    } else {
      StepKeepsInvariant(s, l);
      StepKeepsFlat(s, l);
      var k;
      k, tail := HazardLosesUpdate(Step(s, l).0, labels[1..]);
      n := k + 1;
      OneMore(s, l, labels[1..][..k] + tail);
      assert [l] + (labels[1..][..k] + tail) == labels[..n] + tail;
    }
  }

  /** The host only reads coherently: no invalidating request, no write. */
  predicate HostOnlyReads(labels: seq<Label>) {
    forall i :: 0 <= i < |labels| ==>
      !labels[i].HostRwD? && (labels[i].HostReq? ==> labels[i].snoop != HostSnpInv)
  }

  lemma {:induction false} ReadersMeetNoHazard(s: System, labels: seq<Label>)
    requires Possible(s, labels) && HostOnlyReads(labels)
    ensures HazardFree(s, labels)
    decreases |labels|
  {
    if labels != [] {
      assert !Hazard(s, labels[0]);
      ReadersMeetNoHazard(Step(s, labels[0]).0, labels[1..]);
    }
  }

  /** From power-on: any device loads, stores and evictions, interleaved with host reads. */
  lemma DeviceNeverLosesAnUpdate(mem: map<nat, nat>, labels: seq<Label>)
    requires Possible(InitialSystem(mem), labels) && HostOnlyReads(labels)
    ensures AllReadsLatest(InitialSystem(mem), labels)
    ensures AlwaysFlat(InitialSystem(mem), labels)
  {
    var s := InitialSystem(mem);
    PowerOn(mem);
    ReadersMeetNoHazard(s, labels);
    NoLostUpdate(s, labels);
    RunIsFlatIffHazardFree(s, labels);
  }

  // ----- what each side gets -----

  /** A line filled from the answer to a data snoop has the state of the copy that was found; from the answer
      to an invalidating one it is owned, and from that to a current one it is not kept. */
  lemma FilledAsFound(copy: CacheState)
    requires copy != Invalid
    ensures FilledState(SnoopAnswer(SnpData, copy)) == copy
    ensures FilledState(SnoopAnswer(SnpInv, copy)) == Exclusive == FilledState(Ok)
    ensures FilledState(SnoopAnswer(SnpCur, copy)) == Invalid
  {}

  /** No line but `a` changes hands, and none but `a` changes in the cache, in memory or in the filter. */
  ghost predicate OnlyAt(s: System, t: System, a: nat) {
    && s.cache - {a} == t.cache - {a} && s.held - {a} == t.held - {a}
    && s.snoopFilter - {a} == t.snoopFilter - {a}
    && forall b: nat :: b != a ==> MemoryRead(t.mem, b) == MemoryRead(s.mem, b)
  }

  /** A data snoop gives the host the line for itself when the device has no copy, shares one that is
      shared or modified, and grants nothing on an exclusive one; the completion says what was granted. */
  lemma DataSnoopGrants(s: System, a: nat, opcode: ReqOpcode, meta: MetaValue)
    requires OnlyValidCopies(s) && Enabled(s, HostReq(a, opcode, HostSnpData, meta))
    ensures var (t, e) := Step(s, HostReq(a, opcode, HostSnpData, meta));
            && OnlyAt(s, t, a) && t.mem == s.mem
            && e.Completed? && e.addr == a && (e.hasData <==> opcode != MemInv)
            && (a !in s.cache ==> e.rsp == CmpE && HoldsExclusive(t, a) && a in t.snoopFilter && a !in t.cache)
            && (a in s.cache ==> t.cache == s.cache[a := Copy(Shared, s.cache[a].data)])
            && (a in s.cache && s.cache[a].state in {Shared, Modified} ==>
                  e.rsp == CmpS && a in t.held && t.held[a] == HeldShared && a in t.snoopFilter)
            && (a in s.cache && s.cache[a].state == Exclusive ==> e.rsp == Cmp && t.held == s.held && t.snoopFilter == s.snoopFilter)
  {
    hide MemoryRead;
  }

  /** An invalidating snoop takes the device's copy; the host gets the line for itself if it asks for any
      state, and nothing otherwise. Memory is written when a copy is taken by a read that wants none. */
  lemma InvalidatingSnoopGrants(s: System, a: nat, opcode: ReqOpcode, meta: MetaValue)
    requires OnlyValidCopies(s) && Enabled(s, HostReq(a, opcode, HostSnpInv, meta))
    ensures var (t, e) := Step(s, HostReq(a, opcode, HostSnpInv, meta));
            && OnlyAt(s, t, a) && a !in t.cache
            && e.Completed? && e.addr == a && (e.hasData <==> opcode != MemInv)
            && (meta == MetaAny ==> e.rsp == CmpE && HoldsExclusive(t, a) && a in t.snoopFilter)
            && (meta != MetaAny ==> e.rsp == Cmp && t.held == s.held && t.snoopFilter == s.snoopFilter)
            && t.mem == (if a in s.cache && meta == MetaInvalid && opcode == MemRd then s.mem[a := s.cache[a].data] else s.mem)
  {}

  /** A snoop for the current value changes nothing. */
  lemma CurrentSnoopGrants(s: System, a: nat, opcode: ReqOpcode, meta: MetaValue)
    requires OnlyValidCopies(s) && Enabled(s, HostReq(a, opcode, HostSnpCur, meta))
    ensures var (t, e) := Step(s, HostReq(a, opcode, HostSnpCur, meta));
            && t == s && e.Completed? && e.addr == a && e.rsp == Cmp && (e.hasData <==> opcode != MemInv)
  {
    hide MemoryRead;
  }

  /** The data of a completion is the device's copy, or memory's if there is none. */
  lemma CompletionData(s: System, a: nat, opcode: ReqOpcode, snoop: SnoopType, meta: MetaValue)
    requires OnlyValidCopies(s) && Enabled(s, HostReq(a, opcode, snoop, meta)) && opcode != MemInv
    ensures Step(s, HostReq(a, opcode, snoop, meta)).1.data == if a in s.cache then s.cache[a].data else MemoryRead(s.mem, a)
  {
    hide MemoryRead;
  }

  /** After a request the host may write the line and keep it exactly when it held the line for itself
      before, or the request was a data snoop of a line the device did not have, or an invalidating one for
      any state. */
  lemma WhoMayKeepWriting(s: System, a: nat, opcode: ReqOpcode, snoop: SnoopType, meta: MetaValue, data: nat)
    requires Invariant(s) && Enabled(s, HostReq(a, opcode, snoop, meta))
    ensures HostAllows(Step(s, HostReq(a, opcode, snoop, meta)).0, HostRwD(a, MetaAny, data)) <==>
              HoldsExclusive(s, a) || (snoop == HostSnpData && a !in s.cache) || (snoop == HostSnpInv && meta == MetaAny)
  {
    hide DoHostReq, Control, Pending, Tracked;
    match snoop
    case HostSnpData => DataSnoopGrants(s, a, opcode, meta);
    case HostSnpInv => InvalidatingSnoopGrants(s, a, opcode, meta);
    case HostSnpCur => CurrentSnoopGrants(s, a, opcode, meta);
  }

  /** A host write is in memory, and leaves the device no copy. */
  lemma HostWriteTakes(s: System, a: nat, meta: MetaValue, d: nat)
    requires Invariant(s) && Enabled(s, HostRwD(a, meta, d))
    ensures var (t, e) := Step(s, HostRwD(a, meta, d));
            && OnlyAt(s, t, a) && e == Completed(a, Cmp, false, 0) && MemoryRead(t.mem, a) == d && a !in t.cache
            && (meta == MetaAny ==> HoldsExclusive(t, a) && t.snoopFilter == s.snoopFilter)
            && (meta == MetaShared ==> a in t.held && t.held[a] == HeldShared && t.snoopFilter == s.snoopFilter)
            && (meta == MetaInvalid ==> a !in t.held && a !in t.snoopFilter)
  {
    hide Control, Pending, Tracked;
  }

  /** The agent asks the host exactly for the lines in its filter, and takes a line out of it exactly when
      it asks the host to give it back. */
  lemma AgentAsksHost(s: System)
    requires Invariant(s) && s.agent == Start
    ensures var (t, e) := Step(s, AgentRun);
            && (e.BackSnooped? <==> !s.op.WritesBack() && s.op.addr in s.snoopFilter)
            && (e.BackSnooped? ==> e.addr == s.op.addr && e.kind == (if s.op.LoadFill? then SnpData else SnpInv) && t.agent == Wait)
            && t.snoopFilter == (if e.BackSnooped? && e.kind == SnpInv then s.snoopFilter - {s.op.addr} else s.snoopFilter)
            && t.held == s.held && !e.Completed? && (!e.BackSnooped? ==> t.agent == Init)
  {
    hide MemoryRead, OnlyValidCopies, SingleWriter, Tracked;
    AgentServesOperation(s);
  }

  /** Where the cache fails: on an answer nobody waits for, on a fill of a line it has, on a load's answer without a
      state, and on any answer to a request for ownership but RspI. */
  lemma AnswerFailsIff(s: System, status: ResponseStatus, data: nat)
    ensures Answer(s, status, data).1 == AssertionFailed <==>
              || s.op == Idle
              || (s.op.LoadFill? && (status == RspMiss || (status != RspV && s.op.addr in s.cache)))
              || ((s.op.StoreInv? || s.op.StoreUpgrade?) && status != RspI)
    ensures !Answer(s, status, data).1.BackSnooped? && !Answer(s, status, data).1.Completed?
  {}

  /** Whatever kind of snoop the agent runs, the host is asked exactly for a line in the filter, and one that it
      is to give up leaves the filter. */
  lemma SnoopAsksOnce(s: System)
    requires s.agent == Start && s.packet.kind in {SnpData, SnpInv, SnpCur}
    ensures Step(s, AgentRun).1.BackSnooped? <==> s.packet.addr in s.snoopFilter
    ensures s.packet.addr in s.snoopFilter ==>
            var (t, e) := Step(s, AgentRun);
            && e == BackSnooped(s.packet.addr, s.packet.kind) && t.agent == Wait && !Enabled(t, AgentRun)
            && (t.snoopFilter == s.snoopFilter <==> s.packet.kind != SnpInv) && t.snoopFilter <= s.snoopFilter
            && t.snoopFilter + {s.packet.addr} == s.snoopFilter && t.cache == s.cache && t.mem == s.mem && t.held == s.held
  {
    hide Answer, MemoryRead;
    AnswerFailsIff(s, RspI, MemoryRead(s.mem, s.packet.addr));
    AnswerFailsIff(s, RspI, 0);
    AnswerFailsIff(s, RspV, 0);
  }

  /** What the host gives up: a line dropped is not held, a line downgraded is shared, and with its answer to a
      back snoop it gives up the line (I) or what it owned of it (S). No other line changes hands. */
  lemma HostGivesUp(s: System, l: Label)
    requires Enabled(s, l) && (l.HostDrop? || l.HostDowngrade? || l.HostBiRsp?)
    ensures var t := Step(s, l).0;
            var a := if l.HostBiRsp? then s.packet.addr else l.addr;
            && t.held - {a} == s.held - {a} && t.mem == s.mem && t.snoopFilter == s.snoopFilter
            && (l.HostDrop? || l == HostBiRsp(BiRspI) ==> a !in t.held)
            && (l.HostDowngrade? || (l == HostBiRsp(BiRspS) && a in s.held) ==> a in t.held && t.held[a] == HeldShared)
            && (!l.HostBiRsp? ==> t.cache == s.cache && t.op == s.op && t.queue == s.queue && t.agent == s.agent)
  {
    hide MemoryRead, Answer;
    if l.HostBiRsp? {
      AnswerIsForDevice(s.(held := GivenBack(s, l.answer)), if l.answer == BiRspI then RspI else RspS, MemoryRead(s.mem, s.packet.addr));
    }
  }

  lemma AnswerIsForDevice(s: System, status: ResponseStatus, data: nat)
    ensures var t := Answer(s, status, data).0; t.held == s.held && t.mem == s.mem && t.snoopFilter == s.snoopFilter
  {}

  /** A load the agent answers itself, or after the host gave the line back, fills the line for the device
      alone; if the host keeps it shared, so does the device. It returns what memory holds. */
  lemma LoadGets(s: System, l: Label)
    requires Invariant(s) && Enabled(s, l) && s.op.LoadFill?
    requires (l == AgentRun && s.op.addr !in s.snoopFilter) || l.HostBiRsp?
    ensures var (t, e) := Step(s, l);
            var state := if l == HostBiRsp(BiRspS) then Shared else Exclusive;
            && t.op == Idle && e == Loaded(s.op.addr, MemoryRead(s.mem, s.op.addr))
            && t.cache == s.cache[s.op.addr := Copy(state, MemoryRead(s.mem, s.op.addr))] && t.mem == s.mem
  {
    hide MemoryRead, OnlyValidCopies, SingleWriter, Tracked;
    AgentServesOperation(s);
  }

  /** A store ends with the value in the line, modified. */
  lemma StoreGets(s: System, l: Label)
    requires Invariant(s) && Enabled(s, l) && (s.op.StoreInv? || s.op.StoreUpgrade?)
    requires (l == AgentRun && s.op.addr !in s.snoopFilter) || l.HostBiRsp?
    ensures var (t, e) := Step(s, l);
            && t.op == Idle && e == Stored(s.op.addr)
            && t.cache == s.cache[s.op.addr := Copy(Modified, s.op.data)] && t.mem == s.mem
  {
    hide MemoryRead, OnlyValidCopies, SingleWriter, Tracked;
    AgentServesOperation(s);
  }

  /** A write-back puts the value sent into memory and frees the victim, and the operation goes on to ask for
      its line: to read it for a load, for itself for a store. */
  lemma WriteBackGets(s: System)
    requires Invariant(s) && s.agent == Start && s.op.WritesBack()
    ensures var (t, e) := Step(s, AgentRun);
            && e == Silent && MemoryRead(t.mem, s.op.victim) == s.op.wbData && t.cache == s.cache - {s.op.victim}
            && t.queue == [CacheRequest(if s.op.LoadEvict? then SnpData else SnpInv, s.op.addr, 0)]
            && t.op == (if s.op.LoadEvict? then LoadFill(s.op.addr) else StoreInv(s.op.addr, s.op.data))
  {
    hide OnlyValidCopies, SingleWriter, Tracked;
    AgentServesOperation(s);
  }

  /** A hit loads the line's value at once; a store hits where the device has the line for itself, and asks
      for a line it shares. A miss first asks for the write-back of the victim, if one has to leave, as clean
      unless the victim is modified. */
  lemma BeginGets(s: System, a: nat, d: nat, evict: bool, v: nat)
    requires Invariant(s) && s.op.Idle? && (a !in s.cache && evict ==> v in s.cache)
    ensures var (t, e) := Step(s, BeginLoad(a, evict, v));
            && (a in s.cache ==> t == s && e == Loaded(a, s.cache[a].data))
            && (a !in s.cache ==>
                  e == Silent && t.cache == s.cache && t.queue == [if evict then Leaving(s, v) else CacheRequest(SnpData, a, 0)])
    ensures var (t, e) := Step(s, BeginStore(a, d, evict, v));
            && (a in s.cache && s.cache[a].state != Shared ==> e == Stored(a) && t.cache == s.cache[a := Copy(Modified, d)] && t.queue == [])
            && (a in s.cache && s.cache[a].state == Shared ==> e == Silent && t.cache == s.cache && t.queue == [CacheRequest(SnpInv, a, 0)])
            && (a !in s.cache ==>
                  e == Silent && t.cache == s.cache && t.queue == [if evict then Leaving(s, v) else CacheRequest(SnpInv, a, 0)])
  {
    hide MemoryRead, OnlyValidCopies, SingleWriter, Tracked;
  }

  /** The request that writes a line back. */
  function Leaving(s: System, v: nat): CacheRequest
    requires v in s.cache
  {
    CacheRequest(if s.cache[v].state == Modified then WriteBack else WriteBackClean, v, s.cache[v].data)
  }

  // ----- clean lines and memory -----

  /** Every line that is not modified equals memory. */
  predicate CleanIsMemory(s: System) {
    forall a :: a in s.cache && s.cache[a].state != Modified ==> s.cache[a].data == MemoryRead(s.mem, a)
  }

  /** A host read that makes a modified line shared, without writing it to memory. */
  predicate Demotes(s: System, l: Label) {
    && l.HostReq? && l.snoop == HostSnpData
    && l.addr in s.cache && s.cache[l.addr].state == Modified && s.cache[l.addr].data != MemoryRead(s.mem, l.addr)
  }

  lemma DemotedIsNotMemory(s: System, l: Label)
    requires Demotes(s, l)
    ensures !CleanIsMemory(DoHostReq(s, l.addr, l.opcode, l.snoop, l.meta).0)
  {
    var t := DoHostReq(s, l.addr, l.opcode, l.snoop, l.meta).0;
    assert l.addr in t.cache && t.cache[l.addr] == Copy(Shared, s.cache[l.addr].data);
  }

  lemma HostReqKeepsClean(s: System, l: Label)
    requires CleanIsMemory(s) && l.HostReq? && !Demotes(s, l)
    ensures CleanIsMemory(DoHostReq(s, l.addr, l.opcode, l.snoop, l.meta).0)
  {}

  lemma HostRwDKeepsClean(s: System, a: nat, meta: MetaValue, d: nat)
    requires Invariant(s) && CleanIsMemory(s) && Enabled(s, HostRwD(a, meta, d))
    ensures CleanIsMemory(DoHostRwD(s, a, meta, d).0)
  {
    hide Control, Pending, Tracked;
    assert meta == MetaShared ==> a !in s.cache;
  }

  lemma AnswerKeepsClean(s: System, status: ResponseStatus, data: nat)
    requires CleanIsMemory(s) && (s.op.LoadFill? ==> data == MemoryRead(s.mem, s.op.addr))
    ensures CleanIsMemory(Answer(s, status, data).0)
  {}

  /** A write-back changes memory at its victim, which leaves the cache. */
  lemma WriteBackKeepsClean(s: System, data: nat)
    requires CleanIsMemory(s) && s.op.WritesBack()
    ensures CleanIsMemory(Answer(s.(mem := s.mem[s.op.victim := data]), Ok, 0).0)
  {}

  lemma SameCleanness(s: System, t: System)
    requires CleanIsMemory(s) && t.cache == s.cache && t.mem == s.mem
    ensures CleanIsMemory(t)
  {}

  lemma AgentRunKeepsClean(s: System)
    requires Control(s) && CleanIsMemory(s) && s.agent == Start
    ensures CleanIsMemory(DoAgentRun(s).0)
  {
    hide Answer, MemoryRead, CleanIsMemory;
    AgentServesOperation(s);
    var a := s.packet.addr;
    if s.op.WritesBack() {
      WriteBackKeepsClean(s, s.packet.data);
    } else if a !in s.snoopFilter {
      AnswerKeepsClean(s, RspI, if s.packet.kind == SnpData then MemoryRead(s.mem, a) else 0);
    } else {
      SameCleanness(s, DoAgentRun(s).0);
    }
  }

  lemma BiRspKeepsClean(s: System, answer: BiRsp)
    requires Control(s) && CleanIsMemory(s) && s.agent == Wait
    ensures CleanIsMemory(DoHostBiRsp(s, answer).0)
  {
    hide Answer, MemoryRead, CleanIsMemory, GivenBack;
    AgentServesOperation(s);
    var t := s.(held := GivenBack(s, answer));
    SameCleanness(s, t);
    AnswerKeepsClean(t, if answer == BiRspI then RspI else RspS, MemoryRead(s.mem, s.packet.addr));
  }

  lemma OthersKeepClean(s: System, l: Label)
    requires CleanIsMemory(s) && Enabled(s, l)
    requires l.BeginLoad? || l.BeginStore? || l.AgentFetch? || l.HostDrop? || l.HostDowngrade?
    ensures CleanIsMemory(Step(s, l).0)
  {}

  /** Exactly the demotions make a clean line differ from memory. */
  lemma StepKeepsClean(s: System, l: Label)
    requires Invariant(s) && CleanIsMemory(s) && Enabled(s, l)
    ensures CleanIsMemory(Step(s, l).0) <==> !Demotes(s, l)
  {
    hide CleanIsMemory, DoHostReq, DoHostRwD, DoAgentRun, DoHostBiRsp, DoBeginLoad, DoBeginStore;
    hide Control, Pending, OnlyValidCopies, SingleWriter, Tracked;
    match l
    case AgentRun => AgentRunKeepsClean(s);
    case HostBiRsp(answer) => BiRspKeepsClean(s, answer);
    case HostReq(_, _, _, _) => if Demotes(s, l) { DemotedIsNotMemory(s, l); } else { HostReqKeepsClean(s, l); }
    case HostRwD(a, meta, d) => HostRwDKeepsClean(s, a, meta, d);
    case _ => OthersKeepClean(s, l);
  }

  predicate DemotionFree(s: System, labels: seq<Label>)
    requires Possible(s, labels)
    decreases |labels|
  {
    labels != [] ==> !Demotes(s, labels[0]) && DemotionFree(Step(s, labels[0]).0, labels[1..])
  }

  predicate AlwaysClean(s: System, labels: seq<Label>)
    requires Possible(s, labels)
    decreases |labels|
  {
    CleanIsMemory(s) && (labels != [] ==> AlwaysClean(Step(s, labels[0]).0, labels[1..]))
  }

  /** Clean lines equal memory in all states of a run exactly when nothing is demoted in it. */
  lemma {:induction false} RunIsCleanIffDemotionFree(s: System, labels: seq<Label>)
    requires Invariant(s) && CleanIsMemory(s) && Possible(s, labels)
    ensures AlwaysClean(s, labels) <==> DemotionFree(s, labels)
    decreases |labels|
  {
    hide Invariant, CleanIsMemory, Demotes, Enabled, Step;
    if labels != [] {
      var s' := Step(s, labels[0]).0;
      StepKeepsInvariant(s, labels[0]);
      StepKeepsClean(s, labels[0]);
      if CleanIsMemory(s') {
        RunIsCleanIffDemotionFree(s', labels[1..]);
      }
    }
  }

  /** Leaving out the write of WRITE_BACK_CLEAN, that is answering it without touching memory, keeps the
      last value of the line exactly when memory has the data already. */
  lemma SkippedCleanWrite(s: System)
    requires Invariant(s) && Flat(s) && s.agent == Start && s.packet.kind == WriteBackClean
    ensures FlatAt(Answer(s, Ok, 0).0, s.packet.addr) <==> MemoryRead(s.mem, s.packet.addr) == s.packet.data
  {
    hide Pending, OnlyValidCopies, SingleWriter, Tracked;
    AgentServesOperation(s);
    assert FlatAt(s, s.packet.addr);
    WriteBackEnds(s);
  }

  /** After its write-back the victim is in memory alone. */
  lemma WriteBackEnds(s: System)
    requires s.op.WritesBack()
    ensures var t := Answer(s, Ok, 0).0;
            t.mem == s.mem && t.flat == s.flat && s.op.victim !in t.cache && !t.op.WritesBack()
  {}

  /** The line that leaves under WRITE_BACK_CLEAN is not modified. */
  predicate CleanLeaves(s: System) {
    s.op.WritesBack() && !s.op.dirty && s.op.victim in s.cache ==> s.cache[s.op.victim].state != Modified
  }

  lemma NoWriteBackAfterAnswer(s: System, status: ResponseStatus, data: nat)
    ensures !Answer(s, status, data).0.op.WritesBack()
  {}

  lemma AgentKeepsCleanLeaves(s: System, l: Label)
    requires CleanLeaves(s) && Enabled(s, l) && (l.AgentRun? || l.HostBiRsp?)
    ensures CleanLeaves(Step(s, l).0)
  {
    hide Answer, MemoryRead, GivenBack;
    forall t: System, status: ResponseStatus, data: nat ensures !Answer(t, status, data).0.op.WritesBack() {
      NoWriteBackAfterAnswer(t, status, data);
    }
  }

  lemma SnoopKeepsCleanLeaves(s: System, t: System, kind: RequestType, a: nat)
    requires CleanLeaves(s) && t.op == s.op && t.cache == Snooped(s.cache, kind, a)
    ensures CleanLeaves(t)
  {}

  lemma StepKeepsCleanLeaves(s: System, l: Label)
    requires CleanLeaves(s) && Enabled(s, l)
    ensures CleanLeaves(Step(s, l).0)
  {
    hide MemoryRead, Completion, Flushes, Snooped, DoAgentRun, DoHostBiRsp;
    match l
    case AgentRun => AgentKeepsCleanLeaves(s, l);
    case HostBiRsp(_) => AgentKeepsCleanLeaves(s, l);
    case HostReq(a, _, snoop, _) => SnoopKeepsCleanLeaves(s, Step(s, l).0, SnoopKind(snoop), a);
    case HostRwD(a, meta, _) => SnoopKeepsCleanLeaves(s, Step(s, l).0, if meta == MetaShared then SnpData else SnpInv, a);
    case _ =>
  }

  lemma RedundantCleanWrite(s: System)
    requires Invariant(s) && Flat(s) && CleanIsMemory(s) && CleanLeaves(s) && s.agent == Start && s.packet.kind == WriteBackClean
    ensures MemoryRead(s.mem, s.packet.addr) == s.packet.data
  {
    hide OnlyValidCopies, SingleWriter, Tracked;
    AgentServesOperation(s);
    assert FlatAt(s, s.packet.addr);
  }

  /** In a run without hazards and demotions every WRITE_BACK_CLEAN could be left out. */
  lemma {:induction false} CleanWritesAreRedundant(s: System, labels: seq<Label>)
    requires Invariant(s) && Flat(s) && CleanIsMemory(s) && CleanLeaves(s)
    requires Possible(s, labels) && HazardFree(s, labels) && DemotionFree(s, labels)
    ensures var t := Run(s, labels);
            t.agent == Start && t.packet.kind == WriteBackClean ==> FlatAt(Answer(t, Ok, 0).0, t.packet.addr)
    decreases |labels|
  {
    hide Invariant, Flat, CleanIsMemory, CleanLeaves, Hazard, Demotes, Enabled, Step, Answer, FlatAt;
    if labels == [] {
      if s.agent == Start && s.packet.kind == WriteBackClean {
        RedundantCleanWrite(s);
        SkippedCleanWrite(s);
      }
    } else {
      StepKeepsInvariant(s, labels[0]);
      StepKeepsFlat(s, labels[0]);
      StepKeepsClean(s, labels[0]);
      StepKeepsCleanLeaves(s, labels[0]);
      CleanWritesAreRedundant(Step(s, labels[0]).0, labels[1..]);
    }
  }

  // ----- concrete runs -----

  /** A store to line 0 with nothing cached, taken to its end. */
  function AfterStore(value: nat): System {
    System(map[0 := Copy(Modified, value)], Idle, [], Init, CacheRequest(SnpInv, 0, 0), {}, map[], map[], map[0 := value])
  }

  lemma RunFirst(s: System, l: Label, rest: seq<Label>)
    requires Enabled(s, l) && Possible(Step(s, l).0, rest)
    ensures Possible(s, [l] + rest) && Run(s, [l] + rest) == Run(Step(s, l).0, rest)
  {
    hide Enabled, Step;
    assert ([l] + rest)[1..] == rest;
  }

  lemma StoreStarted(value: nat)
    ensures var s, l := InitialSystem(map[]), BeginStore(0, value, false, 0);
            && Enabled(s, l)
            && Step(s, l).0 == System(map[], StoreInv(0, value), [CacheRequest(SnpInv, 0, 0)], Init, CacheRequest(Read, 0, 0), {}, map[], map[], map[])
  {}

  lemma StoreFetched(value: nat)
    ensures var s := System(map[], StoreInv(0, value), [CacheRequest(SnpInv, 0, 0)], Init, CacheRequest(Read, 0, 0), {}, map[], map[], map[]);
            && Enabled(s, AgentFetch)
            && Step(s, AgentFetch).0 == System(map[], StoreInv(0, value), [], Start, CacheRequest(SnpInv, 0, 0), {}, map[], map[], map[])
  {
    assert [CacheRequest(SnpInv, 0, 0)][1..] == [];
  }

  lemma StoreFinished(value: nat)
    ensures var s := System(map[], StoreInv(0, value), [], Start, CacheRequest(SnpInv, 0, 0), {}, map[], map[], map[]);
            Enabled(s, AgentRun) && Step(s, AgentRun).0 == AfterStore(value)
  {}

  lemma AfterStoreIsReached(value: nat)
    ensures var labels := [BeginStore(0, value, false, 0), AgentFetch, AgentRun];
            Possible(InitialSystem(map[]), labels) && Run(InitialSystem(map[]), labels) == AfterStore(value)
  {
    hide Enabled, Step, Possible, Run;
    StoreStarted(value);
    StoreFetched(value);
    StoreFinished(value);
    var s0 := InitialSystem(map[]);
    var s1 := Step(s0, BeginStore(0, value, false, 0)).0;
    var s2 := Step(s1, AgentFetch).0;
    NoSteps(AfterStore(value));
    RunFirst(s2, AgentRun, []);
    RunFirst(s1, AgentFetch, [AgentRun] + []);
    RunFirst(s0, BeginStore(0, value, false, 0), [AgentFetch] + ([AgentRun] + []));
    var labels := [BeginStore(0, value, false, 0), AgentFetch, AgentRun];
    assert [BeginStore(0, value, false, 0)] + ([AgentFetch] + ([AgentRun] + [])) == labels;
  }

  lemma NoSteps(s: System)
    ensures Possible(s, []) && Run(s, []) == s
  {}

  /** A host read demotes a modified line to Shared without writing memory: a clean line does not equal
      memory, and leaving out the write of its WRITE_BACK_CLEAN would lose the value. */
  lemma CleanIsNotMemory(value: nat)
    requires value != 0
    ensures var l := HostReq(0, MemRd, HostSnpData, MetaShared);
            && Demotes(AfterStore(value), l)
            && (var s := Step(AfterStore(value), l).0;
                && s.cache[0] == Copy(Shared, value) && MemoryRead(s.mem, 0) != value
                && (var t := Step(s, BeginLoad(64, true, 0)).0;
                    && t.queue == [CacheRequest(WriteBackClean, 0, value)]
                    && (var u := Step(t, AgentFetch).0; u.agent == Start && !FlatAt(Answer(u, Ok, 0).0, 0))))
  {}

  /** A host write that arrives while the same line is being evicted is overwritten by the older
      value, and the host then reads that older value. */
  lemma HostWriteLostToEviction(stored: nat, written: nat)
    requires stored != written
    ensures var s1 := Step(AfterStore(stored), BeginLoad(64, true, 0)).0;
            var s2 := Step(s1, HostRwD(0, MetaInvalid, written)).0;
            && Enabled(s2, AgentFetch)
            && (var s3 := Step(s2, AgentFetch).0;
                && Enabled(s3, AgentRun)
                && (var s4 := Step(s3, AgentRun).0;
                    && Enabled(s4, HostReq(0, MemRd, HostSnpCur, MetaAny))
                    && Step(s4, HostReq(0, MemRd, HostSnpCur, MetaAny)).1 == Completed(0, Cmp, true, stored)
                    && MemoryRead(s4.flat, 0) == written))
  {}

  /** An ownership read of a modified line hands the value out as clean (Cmp-E): after the host
      drops the line silently, as it may, the value is gone. */
  lemma OwnershipReadForgetsValue(value: nat)
    requires value != 0
    ensures var l := HostReq(0, MemRd, HostSnpInv, MetaAny);
            && Hazard(AfterStore(value), l)
            && Step(AfterStore(value), l).1 == Completed(0, CmpE, true, value)
            && (var s := Step(Step(AfterStore(value), l).0, HostDrop(0)).0;
                && s.held == map[]
                && Step(s, HostReq(0, MemRd, HostSnpCur, MetaAny)).1 == Completed(0, Cmp, true, 0))
  {}
}
