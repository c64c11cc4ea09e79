/** The CXL.mem device coherency agent on top of the cache controller. Every method runs from one
    suspension point to the next and is one step of CoherenceProtocol. */
module MemDcoh {
  import opened CoherenceTypes
  import opened DeviceCache
  import opened CoherenceProtocol
  import opened Outcomes

  /** Packets for the host. */
  datatype S2M = NdrPacket(opcode: Ndr) | DrsPacket(data: nat) | BiSnpPacket(addr: nat, kind: RequestType)

  datatype M2SReq = M2SReq(addr: nat, opcode: ReqOpcode, snoop: SnoopType, meta: MetaValue)
  datatype M2SRwD = M2SRwD(addr: nat, meta: MetaValue, data: nat)

  /** The step ends the processor's operation. */
  predicate Ends(e: Event) {
    e.Loaded? || e.Stored?
  }

  /** What a call reports about the processor's operation is what the step shows. */
  predicate Reports(e: Event, done: bool, data: nat) {
    (done <==> Ends(e)) && (e.Loaded? ==> data == e.data)
  }

  function PacketsOf(e: Event): seq<S2M> {
    match e
    case Completed(_, rsp, hasData, data) => [NdrPacket(rsp)] + if hasData then [DrsPacket(data)] else []
    case BackSnooped(a, kind) => [BiSnpPacket(a, kind)]
    case _ => []
  }

  /** A request is answered by one completion, which says what the host now has, and by the line's value
      unless it only wanted to invalidate. */
  lemma RequestPackets(s: System, a: nat, opcode: ReqOpcode, snoop: SnoopType, meta: MetaValue)
    requires OnlyValidCopies(s) && Enabled(s, HostReq(a, opcode, snoop, meta))
    ensures var code := if (snoop == HostSnpData && a !in s.cache) || (snoop == HostSnpInv && meta == MetaAny) then CmpE
                        else if snoop == HostSnpData && s.cache[a].state != Exclusive then CmpS else Cmp;
            var value := if a in s.cache then s.cache[a].data else MemoryRead(s.mem, a);
            PacketsOf(Step(s, HostReq(a, opcode, snoop, meta)).1)
              == if opcode == MemInv then [NdrPacket(code)] else [NdrPacket(code), DrsPacket(value)]
  {
    hide Step, MemoryRead;
    if opcode != MemInv {
      CompletionData(s, a, opcode, snoop, meta);
    }
    match snoop
    case HostSnpData => DataSnoopGrants(s, a, opcode, meta);
    case HostSnpInv => InvalidatingSnoopGrants(s, a, opcode, meta);
    case HostSnpCur => CurrentSnoopGrants(s, a, opcode, meta);
  }

  /** A write is answered by one completion, and the agent sends the host one back snoop for each line in its
      filter that the device asks for, and nothing else. */
  lemma OtherPackets(s: System, a: nat, meta: MetaValue, d: nat)
    requires Invariant(s)
    ensures Enabled(s, HostRwD(a, meta, d)) ==> PacketsOf(Step(s, HostRwD(a, meta, d)).1) == [NdrPacket(Cmp)]
    ensures s.agent == Start ==>
              PacketsOf(Step(s, AgentRun).1)
                == if s.op.WritesBack() || s.op.addr !in s.snoopFilter then []
                   else [BiSnpPacket(s.op.addr, if s.op.LoadFill? then SnpData else SnpInv)]
  {
    hide Invariant, DoAgentRun, DoHostRwD;
    if Enabled(s, HostRwD(a, meta, d)) {
      HostWriteTakes(s, a, meta, d);
    }
    if s.agent == Start {
      AgentAsksHost(s);
    }
  }

  /** The steps of one turn of the main loop: the device side first, then at most one packet of each
      host channel. */
  function TurnLabels(s: System, birsp: Option<BiRsp>, req: Option<M2SReq>, rwd: Option<M2SRwD>): seq<Label> {
    DeviceLabels(s) + BiRspLabels(s, birsp) + ReqLabels(req) + RwDLabels(rwd)
  }

  function DeviceLabels(s: System): seq<Label> {
    if s.agent == Init then (if s.queue != [] then [AgentFetch] else [])
    else if s.agent == Start then [AgentRun] else []
  }

  function BiRspLabels(s: System, birsp: Option<BiRsp>): seq<Label> {
    if s.agent == Init || birsp == None then [] else [HostBiRsp(birsp.value)]
  }

  function ReqLabels(req: Option<M2SReq>): seq<Label> {
    match req
    case None => []
    case Some(r) => [HostReq(r.addr, r.opcode, r.snoop, r.meta)]
  }

  function RwDLabels(rwd: Option<M2SRwD>): seq<Label> {
    match rwd
    case None => []
    case Some(w) => [HostRwD(w.addr, w.meta, w.data)]
  }

  lemma {:induction false} RunInTwo(s: System, a: seq<Label>, b: seq<Label>)
    ensures Possible(s, a + b) <==> Possible(s, a) && Possible(Run(s, a), b)
    ensures Possible(s, a + b) ==> Run(s, a + b) == Run(Run(s, a), b)
    decreases |a|
  {
    hide Step, Enabled;
    if a == [] {
      assert a + b == b;
    } else {
      assert (a + b)[0] == a[0] && (a + b)[1..] == a[1..] + b;
      if Enabled(s, a[0]) {
        RunInTwo(Step(s, a[0]).0, a[1..], b);
      }
    }
  }

  /** A turn has at most one step of each of its four parts. */
  lemma OneStep(s: System, labels: seq<Label>)
    requires |labels| <= 1
    ensures Possible(s, labels) <==> (labels == [] || Enabled(s, labels[0]))
    ensures Possible(s, labels) ==> Run(s, labels) == if labels == [] then s else Step(s, labels[0]).0
  {
    hide Step, Enabled;
    if labels != [] {
      assert labels[1..] == [];
    }
  }

  /** A turn has the source's order: the device side, the host's answer unless the agent was in INIT, the host's
      request, the host's write. */
  lemma TurnOrder(s: System, birsp: Option<BiRsp>, req: Option<M2SReq>, rwd: Option<M2SRwD>)
    requires Possible(s, TurnLabels(s, birsp, req, rwd))
    ensures var device := s.agent == Start || (s.agent == Init && s.queue != []);
            var answered := s.agent != Init && birsp.Some?;
            && (device ==> Enabled(s, if s.agent == Start then AgentRun else AgentFetch))
            && var s1 := if device then Step(s, if s.agent == Start then AgentRun else AgentFetch).0 else s;
            && (answered ==> Enabled(s1, HostBiRsp(birsp.value)))
            && var s2 := if answered then Step(s1, HostBiRsp(birsp.value)).0 else s1;
            && (req.Some? ==> Enabled(s2, HostReq(req.value.addr, req.value.opcode, req.value.snoop, req.value.meta)))
            && var s3 := if req.Some? then Step(s2, HostReq(req.value.addr, req.value.opcode, req.value.snoop, req.value.meta)).0 else s2;
            && (rwd.Some? ==> Enabled(s3, HostRwD(rwd.value.addr, rwd.value.meta, rwd.value.data)))
            && var s4 := if rwd.Some? then Step(s3, HostRwD(rwd.value.addr, rwd.value.meta, rwd.value.data)).0 else s3;
               Run(s, TurnLabels(s, birsp, req, rwd)) == s4
  {
    hide Step, Enabled, Possible, Run;
    var device, answer, request, write := DeviceLabels(s), BiRspLabels(s, birsp), ReqLabels(req), RwDLabels(rwd);
    RunInTwo(s, device + answer + request, write);
    RunInTwo(s, device + answer, request);
    RunInTwo(s, device, answer);
    OneStep(s, device);
    OneStep(Run(s, device), answer);
    OneStep(Run(s, device + answer), request);
    OneStep(Run(s, device + answer + request), write);
  }

  class CxlMemDcoh {
    const cache: CacheController
    var state: AgentState
    var packet: CacheRequest
    var sfHost: set<nat>
    var memory: map<nat, nat>
    var toHost: seq<S2M>
    ghost var held: map<nat, Grant>
    ghost var flat: map<nat, nat>

    ghost function Sys(): System
      requires cache.Structure()
      reads this, cache
    {
      System(cache.View(), cache.op, cache.requests, state, packet, sfHost, memory, held, flat)
    }

    ghost predicate Valid()
      reads this, cache
    {
      CacheValid() && Invariant(Sys())
    }

    /** Lines are named by their first address. */
    ghost predicate CacheValid()
      reads cache
    {
      cache.Valid() && (!cache.op.Idle? ==> Aligned(cache.op.addr))
    }

    constructor (assocBit: nat, setBit: nat, memory: map<nat, nat>)
      ensures Valid() && Sys() == InitialSystem(memory) && toHost == [] && fresh(cache)
    {
      hide Invariant, Flat, Consistent, Suspended, ByAddr, Held;
      cache := new CacheController(assocBit, setBit);
      state := Init;
      packet := CacheRequest(Read, 0, 0);
      sfHost := {};
      this.memory := memory;
      toHost := [];
      held := map[];
      flat := memory;
      new;
      PowerOn(memory);
    }

    // ----- the device's processor -----

    method Load(addr: nat) returns (done: bool, data: nat, evict: bool, victim: nat)
      requires Valid() && cache.op.Idle? && Aligned(addr)
      modifies cache
      ensures Valid()
      ensures Enabled(old(Sys()), BeginLoad(addr, evict, victim))
      ensures Sys() == Step(old(Sys()), BeginLoad(addr, evict, victim)).0
      ensures Reports(Step(old(Sys()), BeginLoad(addr, evict, victim)).1, done, data)
    {
      hide Invariant, CacheController.Valid, CacheController.Structure, CacheController.View;
      LineStartFacts(1, addr);
      done, data, evict, victim := cache.CacheCoherentLoad(addr);
      StepKeepsInvariant(old(Sys()), BeginLoad(addr, evict, victim));
    }

    method Store(addr: nat, data: nat) returns (done: bool, evict: bool, victim: nat)
      requires Valid() && cache.op.Idle? && Aligned(addr)
      modifies cache, this`flat
      ensures Valid()
      ensures Enabled(old(Sys()), BeginStore(addr, data, evict, victim))
      ensures Sys() == Step(old(Sys()), BeginStore(addr, data, evict, victim)).0
      ensures done <==> Ends(Step(old(Sys()), BeginStore(addr, data, evict, victim)).1)
    {
      hide Control, Pending, SingleWriter, Tracked, CacheController.Valid, CacheController.Structure, CacheController.View;
      LineStartFacts(1, addr);
      done, evict, victim := cache.CacheCoherentStore(addr, data);
      if done {
        flat := flat[addr := data];
      }
      StepKeepsInvariant(old(Sys()), BeginStore(addr, data, evict, victim));
    }

    /** The answer reaches the waiting operation, which runs on before anything else does. */
    method Respond(rsp: CacheResponse) returns (done: bool, data: nat)
      requires CacheValid() && !cache.op.Idle?
      requires Answer(Sys(), rsp.status, rsp.data).1 != AssertionFailed
      modifies cache, this`flat, this`state
      ensures CacheValid()
      ensures Sys() == Answer(old(Sys()), rsp.status, rsp.data).0
      ensures Reports(Answer(old(Sys()), rsp.status, rsp.data).1, done, data)
      ensures PacketsOf(Answer(old(Sys()), rsp.status, rsp.data).1) == []
    {
      hide CacheController.Valid, CacheController.Structure, CacheController.View;
      ghost var op := cache.op;
      LineStartFacts(1, op.addr);
      done, data := cache.Resume(rsp);
      if op.StoreInv? || op.StoreUpgrade? {
        flat := flat[op.addr := op.data];
      }
      state := Init;
    }

    // ----- the agent -----

    /** The main loop takes the next device request. */
    method Fetch()
      requires Valid() && Enabled(Sys(), AgentFetch)
      modifies cache`requests, this`packet, this`state
      ensures Valid() && Sys() == Step(old(Sys()), AgentFetch).0
    {
      hide Invariant, CacheController.Valid, CacheController.Structure, CacheController.View;
      StepKeepsInvariant(Sys(), AgentFetch);
      packet := cache.requests[0];
      cache.requests := cache.requests[1..];
      state := Start;
    }

    /** A snoop request of the device: answered at once, or turned into a back snoop of the host. */
    method ProcessSnoop() returns (done: bool, data: nat)
      requires CacheValid() && !cache.op.Idle? && state == Start && packet.kind in {SnpData, SnpInv, SnpCur}
      requires Step(Sys(), AgentRun).1 != AssertionFailed
      modifies cache, this
      ensures CacheValid() && Sys() == Step(old(Sys()), AgentRun).0
      ensures toHost == old(toHost) + PacketsOf(Step(old(Sys()), AgentRun).1)
      ensures Reports(Step(old(Sys()), AgentRun).1, done, data)
    {
      hide Answer, CacheController.Valid, CacheController.Structure, CacheController.View;
      done, data := false, 0;
      var dpa := packet.addr;
      if dpa !in sfHost {
        if packet.kind == SnpData {
          done, data := Respond(CacheResponse(RspI, MemoryRead(memory, dpa)));
        } else if packet.kind == SnpInv {
          done, data := Respond(CacheResponse(RspI, 0));
        } else {
          done, data := Respond(CacheResponse(RspV, 0));
        }
      } else {
        toHost := toHost + [BiSnpPacket(dpa, packet.kind)];
        if packet.kind == SnpInv {
          sfHost := sfHost - {dpa};
        }
        state := Wait;
      }
    }

    /** A write of the device goes to memory, whether or not the line was modified. */
    method ProcessWrite() returns (done: bool, data: nat)
      requires CacheValid() && !cache.op.Idle? && state == Start && packet.kind in {Write, WriteBack, WriteBackClean}
      requires Step(Sys(), AgentRun).1 != AssertionFailed
      modifies cache, this
      ensures CacheValid() && Sys() == Step(old(Sys()), AgentRun).0
      ensures toHost == old(toHost) && PacketsOf(Step(old(Sys()), AgentRun).1) == []
      ensures Reports(Step(old(Sys()), AgentRun).1, done, data)
    {
      hide Answer, CacheController.Valid, CacheController.Structure, CacheController.View;
      memory := memory[packet.addr := packet.data];
      done, data := Respond(CacheResponse(Ok, 0));
    }

    /** The request the agent has started on. */
    method RunRequest() returns (done: bool, data: nat)
      requires CacheValid() && !cache.op.Idle? && state == Start
      requires Step(Sys(), AgentRun).1 != AssertionFailed
      modifies cache, this
      ensures CacheValid() && Sys() == Step(old(Sys()), AgentRun).0
      ensures toHost == old(toHost) + PacketsOf(Step(old(Sys()), AgentRun).1)
      ensures Reports(Step(old(Sys()), AgentRun).1, done, data)
    {
      hide Answer, CacheController.Valid, CacheController.Structure, CacheController.View;
      if packet.kind == Read {
        done, data := Respond(CacheResponse(Ok, MemoryRead(memory, packet.addr)));
      } else if packet.kind in {Write, WriteBack, WriteBackClean} {
        done, data := ProcessWrite();
      } else {
        done, data := ProcessSnoop();
      }
    }

    /** `_process_cache_to_dcoh`: nothing to do while a back snoop is outstanding. */
    method ProcessCacheToDcoh() returns (done: bool, data: nat)
      requires Valid() && state != Init
      modifies cache, this
      ensures Valid()
      ensures old(state) == Wait ==> Sys() == old(Sys()) && toHost == old(toHost) && !done
      ensures old(state) == Start ==>
                && Sys() == Step(old(Sys()), AgentRun).0
                && toHost == old(toHost) + PacketsOf(Step(old(Sys()), AgentRun).1)
                && Reports(Step(old(Sys()), AgentRun).1, done, data)
    {
      done, data := false, 0;
      if state == Wait { return; }
      hide Step, Pending, OnlyValidCopies, SingleWriter, Tracked, CacheController.Valid, CacheController.Structure, CacheController.View;
      StepKeepsInvariant(Sys(), AgentRun);
      done, data := RunRequest();
    }

    /** `_process_cxl_m2s_birsp_packet` */
    method ProcessBiRsp(opcode: BiRsp) returns (done: bool, data: nat)
      requires Valid() && Enabled(Sys(), HostBiRsp(opcode))
      modifies cache, this
      ensures Valid() && Sys() == Step(old(Sys()), HostBiRsp(opcode)).0 && toHost == old(toHost)
      ensures Reports(Step(old(Sys()), HostBiRsp(opcode)).1, done, data)
    {
      hide CacheController.Valid, CacheController.Structure, CacheController.View;
      StepKeepsInvariant(Sys(), HostBiRsp(opcode));
      held := GivenBack(Sys(), opcode);
      var dpa := packet.addr;
      var value := MemoryRead(memory, dpa);
      done, data := Respond(CacheResponse(if opcode == BiRspS then RspS else RspI, value));
    }

    /** How the host's request is completed, from the cache's answer to its snoop. */
    method Complete(addr: nat, opcode: ReqOpcode, snoop: SnoopType, meta: MetaValue, rsp: CacheResponse)
      returns (rspCode: Ndr, sfIn: bool, data: nat, dataFlush: bool)
      requires (rsp.status == RspI <==> snoop == HostSnpInv && rsp.status != RspMiss)
      requires rsp.status in {RspS, RspM} ==> snoop == HostSnpData
      ensures rspCode == CmpE <==> (snoop == HostSnpData && rsp.status == RspMiss) || (snoop == HostSnpInv && meta == MetaAny)
      ensures rspCode == CmpS <==> rsp.status in {RspS, RspM}
      ensures rspCode == Completion(rsp.status, snoop, meta) && (sfIn <==> rspCode != Cmp)
      ensures dataFlush <==> rsp.status != RspMiss && Flushes(opcode, snoop, meta)
      ensures data == if rsp.status != RspMiss then rsp.data
                      else if DataRead(opcode) then MemoryRead(memory, addr) else 0
    {
      rspCode, sfIn, data, dataFlush := Cmp, false, 0, false;
      if rsp.status == RspMiss {
        if snoop == HostSnpData {
          rspCode, sfIn := CmpE, true;
        } else if snoop == HostSnpInv {
          if meta == MetaAny {
            rspCode, sfIn := CmpE, true;
          }
        }
        if opcode in {MemRd, MemRdData} {
          data := MemoryRead(memory, addr);
        }
      } else {
        if rsp.status in {RspS, RspM} {
          rspCode, sfIn := CmpS, true;
        } else if rsp.status == RspI {
          if meta == MetaAny {
            rspCode, sfIn := CmpE, true;
          } else if meta == MetaInvalid {
            if opcode == MemRd {
              dataFlush := true;
            }
          }
        }
        data := rsp.data;
      }
    }

    /** The snoop filter follows what the host is granted, and a flushed line goes to memory. */
    method Update(addr: nat, rspCode: Ndr, sfIn: bool, data: nat, dataFlush: bool)
      modifies this`sfHost, this`memory, this`held
      ensures sfHost == if sfIn then old(sfHost) + {addr} else old(sfHost)
      ensures memory == if dataFlush then old(memory)[addr := data] else old(memory)
      ensures held == match rspCode
                      case Cmp => old(held)
                      case CmpS => old(held)[addr := HeldShared]
                      case CmpE => old(held)[addr := HeldExclusive]
    {
      if sfIn {
        sfHost := sfHost + {addr};
      }
      if dataFlush {
        memory := memory[addr := data];
      }
      held := match rspCode
              case Cmp => held
              case CmpS => held[addr := HeldShared]
              case CmpE => held[addr := HeldExclusive];
    }

    method SendCompletion(opcode: ReqOpcode, rspCode: Ndr, data: nat)
      modifies this`toHost
      ensures toHost == old(toHost) + [NdrPacket(rspCode)] + if DataRead(opcode) then [DrsPacket(data)] else []
    {
      toHost := toHost + [NdrPacket(rspCode)];
      if opcode in {MemRd, MemRdData} {
        toHost := toHost + [DrsPacket(data)];
      }
    }

    /** `_process_cxl_m2s_req_packet`, after address translation. */
    method ProcessM2SReq(addr: nat, opcode: ReqOpcode, snoop: SnoopType, meta: MetaValue)
      requires Valid() && Aligned(addr) && Enabled(Sys(), HostReq(addr, opcode, snoop, meta))
      modifies cache, this
      ensures Valid() && Sys() == Step(old(Sys()), HostReq(addr, opcode, snoop, meta)).0
      ensures toHost == old(toHost) + PacketsOf(Step(old(Sys()), HostReq(addr, opcode, snoop, meta)).1)
    {
      hide Invariant, Enabled, DoAgentRun, DoHostBiRsp, DoHostRwD, DoBeginLoad, DoBeginStore, StateOf, DataOf, Snooped, Completion, Flushes, MemoryRead;
      hide CacheController.Valid, CacheController.Structure, CacheController.View;
      StepKeepsInvariant(Sys(), HostReq(addr, opcode, snoop, meta));
      var rsp := cache.RunCohRequest(SnoopKind(snoop), addr);
      var rspCode, sfIn, data, dataFlush := Complete(addr, opcode, snoop, meta, rsp);
      Update(addr, rspCode, sfIn, data, dataFlush);
      SendCompletion(opcode, rspCode, data);
    }

    /** A host write goes to memory; its meta value says what the host keeps. */
    method Accept(addr: nat, meta: MetaValue, data: nat)
      modifies this`sfHost, this`memory, this`toHost, this`flat, this`held
      ensures sfHost == if meta == MetaInvalid then old(sfHost) - {addr} else old(sfHost)
      ensures memory == old(memory)[addr := data] && flat == old(flat)[addr := data] && toHost == old(toHost) + [NdrPacket(Cmp)]
      ensures held == match meta
                      case MetaAny => old(held)
                      case MetaShared => old(held)[addr := HeldShared]
                      case MetaInvalid => old(held) - {addr}
    {
      if meta == MetaInvalid {
        sfHost := sfHost - {addr};
      }
      memory := memory[addr := data];
      toHost := toHost + [NdrPacket(Cmp)];
      flat := flat[addr := data];
      held := match meta case MetaAny => held case MetaShared => held[addr := HeldShared] case MetaInvalid => held - {addr};
    }

    /** `_process_cxl_m2s_rwd_packet`, after address translation. */
    method ProcessM2SRwD(addr: nat, meta: MetaValue, data: nat)
      requires Valid() && Aligned(addr) && Enabled(Sys(), HostRwD(addr, meta, data))
      modifies cache, this
      ensures Valid() && Sys() == Step(old(Sys()), HostRwD(addr, meta, data)).0
      ensures toHost == old(toHost) + PacketsOf(Step(old(Sys()), HostRwD(addr, meta, data)).1)
    {
      hide Invariant, Enabled, DoAgentRun, DoHostBiRsp, DoHostReq, DoBeginLoad, DoBeginStore, StateOf, DataOf, Snooped, SnoopAnswer;
      hide CacheController.Valid, CacheController.Structure, CacheController.View;
      StepKeepsInvariant(Sys(), HostRwD(addr, meta, data));
      var kind := if meta == MetaShared then SnpData else SnpInv;
      var _ := cache.RunCohRequest(kind, addr);
      Accept(addr, meta, data);
    }

    /** One turn of `_cxl_mem_dcoh_main_loop`, for a host that keeps its rules. */
    method MainLoopTurn(birsp: Option<BiRsp>, req: Option<M2SReq>, rwd: Option<M2SRwD>)
      requires Valid() && Possible(Sys(), TurnLabels(Sys(), birsp, req, rwd))
      requires (req.Some? ==> Aligned(req.value.addr)) && (rwd.Some? ==> Aligned(rwd.value.addr))
      modifies cache, this
      ensures Valid() && Sys() == Run(old(Sys()), TurnLabels(old(Sys()), birsp, req, rwd))
    {
      hide Invariant, Step, Enabled, Possible, Run, DeviceLabels, BiRspLabels, ReqLabels, RwDLabels, CacheController.Valid, CacheController.Structure, CacheController.View;
      ghost var s := Sys();
      ghost var device, answer, request, write := DeviceLabels(s), BiRspLabels(s, birsp), ReqLabels(req), RwDLabels(rwd);
      RunInTwo(s, device + answer + request, write);
      RunInTwo(s, device + answer, request);
      RunInTwo(s, device, answer);
      AgentTurn(birsp);
      if req.Some? {
        RequestStep(Sys(), req.value);
        ProcessM2SReq(req.value.addr, req.value.opcode, req.value.snoop, req.value.meta);
      } else {
        NoRequest(Sys());
      }
      if rwd.Some? {
        WriteStep(Sys(), rwd.value);
        ProcessM2SRwD(rwd.value.addr, rwd.value.meta, rwd.value.data);
      } else {
        NoWrite(Sys());
      }
    }

    /** The device side of a turn, with the host's answer to a back snoop. */
    method AgentTurn(birsp: Option<BiRsp>)
      requires Valid()
      requires Possible(Sys(), DeviceLabels(Sys())) && Possible(Run(Sys(), DeviceLabels(Sys())), BiRspLabels(Sys(), birsp))
      modifies cache, this
      ensures Valid() && Sys() == Run(Run(old(Sys()), DeviceLabels(old(Sys()))), BiRspLabels(old(Sys()), birsp))
    {
      hide Invariant, Step, Enabled, Possible, Run, CacheController.Valid, CacheController.Structure, CacheController.View;
      ghost var s := Sys();
      OneStep(s, DeviceLabels(s));
      OneStep(Run(s, DeviceLabels(s)), BiRspLabels(s, birsp));
      if state == Init {
        if cache.requests != [] {
          Fetch();
        }
      } else {
        var done, data := ProcessCacheToDcoh();
        if birsp.Some? {
          done, data := ProcessBiRsp(birsp.value);
        }
      }
    }
  }

  lemma RequestStep(s: System, r: M2SReq)
    ensures var l := HostReq(r.addr, r.opcode, r.snoop, r.meta);
            && (Possible(s, ReqLabels(Some(r))) <==> Enabled(s, l))
            && (Enabled(s, l) ==> Run(s, ReqLabels(Some(r))) == Step(s, l).0)
  {
    hide Step, Enabled, Possible, Run;
    OneStep(s, ReqLabels(Some(r)));
  }

  lemma WriteStep(s: System, w: M2SRwD)
    ensures var l := HostRwD(w.addr, w.meta, w.data);
            && (Possible(s, RwDLabels(Some(w))) <==> Enabled(s, l))
            && (Enabled(s, l) ==> Run(s, RwDLabels(Some(w))) == Step(s, l).0)
  {
    hide Step, Enabled, Possible, Run;
    OneStep(s, RwDLabels(Some(w)));
  }

  lemma NoRequest(s: System)
    ensures Possible(s, ReqLabels(None)) && Run(s, ReqLabels(None)) == s
  {}

  lemma NoWrite(s: System)
    ensures Possible(s, RwDLabels(None)) && Run(s, RwDLabels(None)) == s
  {}
}
