/** Isolation of addresses: the backend's real set, the blocked_ips table, and the mode belt
    that every primitive checks for itself. */
module Firewall {
  datatype State = State(backend: set<string>, recorded: set<string>)

  datatype Reply = InvalidAddress | NoOp | BackendFailed | Done

  /** How a primitive ends, from the validity of the address, the stored mode and the
      backend's return code. */
  function ReplyOf(valid: bool, mode: string, ok: bool): Reply {
    if !valid then InvalidAddress
    else if mode != "real" then NoOp
    else if !ok then BackendFailed
    else Done
  }

  function AfterBlock(s: State, ip: string, reply: Reply): State {
    if reply.Done? then State(s.backend + {ip}, s.recorded + {ip}) else s
  }

  function AfterUnblock(s: State, ip: string, reply: Reply): State {
    if reply.Done? then State(s.backend - {ip}, s.recorded - {ip}) else s
  }

  /** Both sets change together, by this one address, and only when the address is valid, the
      mode is real and the backend reports success. */
  lemma PrimitivesInPlainTerms(s: State, ip: string, valid: bool, mode: string, ok: bool, other: string)
    ensures var done := valid && mode == "real" && ok;
            var reply := ReplyOf(valid, mode, ok);
            var b, u := AfterBlock(s, ip, reply), AfterUnblock(s, ip, reply);
            && (reply == Done <==> done)
            && (reply == InvalidAddress <==> !valid)
            && (reply == NoOp <==> valid && mode != "real")
            && (other in b.backend <==> other in s.backend || (done && other == ip))
            && (other in b.recorded <==> other in s.recorded || (done && other == ip))
            && (other in u.backend <==> other in s.backend && !(done && other == ip))
            && (other in u.recorded <==> other in s.recorded && !(done && other == ip))
  {}

  class Firewall {
    var backend: set<string>
    var recorded: set<string>

    function Snapshot(): State
      reads this
    {
      State(backend, recorded)
    }

    constructor (backend: set<string>, recorded: set<string>)
      ensures Snapshot() == State(backend, recorded)
    {
      this.backend, this.recorded := backend, recorded;
    }

    /** `block_ip`. */
    method BlockIp(ip: string, valid: bool, mode: string, ok: bool) returns (reply: Reply)
      modifies this
      ensures reply == ReplyOf(valid, mode, ok)
      ensures Snapshot() == AfterBlock(old(Snapshot()), ip, reply)
      ensures valid && mode == "real" && ok ==> backend == old(backend) + {ip} && recorded == old(recorded) + {ip}
    {
      if !valid { return InvalidAddress; }
      if mode != "real" { return NoOp; }
      if !ok { return BackendFailed; }
      backend := backend + {ip};
      recorded := recorded + {ip};
      return Done;
    }

    /** `unblock_ip`. */
    method UnblockIp(ip: string, valid: bool, mode: string, ok: bool) returns (reply: Reply)
      modifies this
      ensures reply == ReplyOf(valid, mode, ok)
      ensures Snapshot() == AfterUnblock(old(Snapshot()), ip, reply)
      ensures valid && mode == "real" && ok ==> backend == old(backend) - {ip} && recorded == old(recorded) - {ip}
    {
      if !valid { return InvalidAddress; }
      if mode != "real" { return NoOp; }
      if !ok { return BackendFailed; }
      backend := backend - {ip};
      recorded := recorded - {ip};
      return Done;
    }
  }
}
