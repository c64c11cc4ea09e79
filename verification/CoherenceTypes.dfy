/** Messages and states shared by the cache controller, the coherency agent and the protocol. */
module CoherenceTypes {

  datatype CacheState = Invalid | Shared | Exclusive | Modified

  /** A valid line of the cache. */
  datatype Copy = Copy(state: CacheState, data: nat)

  datatype RequestType = Read | Write | SnpData | SnpInv | SnpCur | WriteBack | WriteBackClean

  datatype CacheRequest = CacheRequest(kind: RequestType, addr: nat, data: nat)

  datatype ResponseStatus = Ok | RspV | RspM | RspE | RspS | RspI | RspMiss

  datatype CacheResponse = CacheResponse(status: ResponseStatus, data: nat)

  datatype AgentState = Init | Start | Wait

  // CXL.mem fields used by the agent (MetaField NO_OP traffic is not part of this model)
  datatype ReqOpcode = MemInv | MemRd | MemRdData
  datatype SnoopType = HostSnpData | HostSnpInv | HostSnpCur
  datatype MetaValue = MetaInvalid | MetaAny | MetaShared
  datatype Ndr = Cmp | CmpS | CmpE
  datatype BiRsp = BiRspI | BiRspS

  /** The state a processor operation is suspended in, waiting for the agent's answer.
      `dirty` tells WRITE_BACK from WRITE_BACK_CLEAN. */
  datatype Operation =
    | Idle
    | LoadEvict(addr: nat, victim: nat, wbData: nat, dirty: bool)
    | LoadFill(addr: nat)
    | StoreEvict(addr: nat, victim: nat, wbData: nat, dirty: bool, data: nat)
    | StoreInv(addr: nat, data: nat)
    | StoreUpgrade(addr: nat, data: nat)
  {
    predicate WritesBack() {
      LoadEvict? || StoreEvict?
    }

    /** The request the operation has sent to the agent. */
    function Request(): CacheRequest
      requires !Idle?
    {
      match this
      case LoadEvict(_, v, d, dirty) => CacheRequest(if dirty then WriteBack else WriteBackClean, v, d)
      case StoreEvict(_, v, d, dirty, _) => CacheRequest(if dirty then WriteBack else WriteBackClean, v, d)
      case LoadFill(a) => CacheRequest(SnpData, a, 0)
      case StoreInv(a, _) => CacheRequest(SnpInv, a, 0)
      case StoreUpgrade(a, _) => CacheRequest(SnpInv, a, 0)
    }
  }

  /** Memory files are created full of zero bytes. */
  function MemoryRead(mem: map<nat, nat>, a: nat): nat {
    if a in mem then mem[a] else 0
  }

  /** The state a line is filled in, from the agent's answer. */
  function FilledState(status: ResponseStatus): CacheState
    requires status != RspMiss
  {
    match status
    case Ok => Exclusive
    case RspS => Shared
    case RspE => Exclusive
    case RspI => Exclusive
    case RspV => Invalid
    case RspM => Modified
  }

  /** The cache's answer to a snoop that finds `copy` (none: the line is not cached). */
  function SnoopAnswer(kind: RequestType, copy: CacheState): ResponseStatus
  {
    if copy == Invalid then RspMiss
    else match kind
      case SnpData => if copy == Modified then RspM else if copy == Exclusive then RspE else RspS
      case SnpInv => RspI
      case _ => RspV
  }

  // ----- the cache -----

  function StateOf<K>(cache: map<K, Copy>, a: K): CacheState {
    if a in cache then cache[a].state else Invalid
  }

  function DataOf<K>(cache: map<K, Copy>, a: K): nat {
    if a in cache then cache[a].data else 0
  }

  /** What a snoop leaves in the cache. */
  function Snooped<K>(cache: map<K, Copy>, kind: RequestType, a: K): map<K, Copy> {
    if a !in cache then cache
    else if kind == SnpData then cache[a := cache[a].(state := Shared)]
    else if kind == SnpInv then cache - {a}
    else cache
  }
}
