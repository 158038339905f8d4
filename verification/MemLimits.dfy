/** The order in which ns_set_memory_param of lib/env_nsops.c writes the memory limits of a
    container, in exact arithmetic. */
module MemLimits {
  import opened Common

  const PAGE_COUNTER_MAX: nat := 0x7fff_ffff_ffff_ffff

  /** CG_MEM_LIMIT and CG_SWAP_LIMIT; the second one counts memory and swap together. */
  datatype Limits = Limits(mem: nat, memsw: nat)

  /** The limits the kernel keeps. */
  predicate Ordered(l: Limits) {
    l.mem <= l.memsw <= PAGE_COUNTER_MAX
  }

  /** physpages and swappages, in pages. */
  datatype Request = Request(phys: Option<nat>, swap: Option<nat>)

  function Capped(x: nat): nat {
    if x > PAGE_COUNTER_MAX then PAGE_COUNTER_MAX else x
  }

  /** The limits a request asks for; what it does not name is taken as it is, and so without
      swappages the old limit of both counts as the swap to be added to the new memory. */
  function Asked(pagesize: nat, l: Limits, req: Request): Limits {
    if req.phys.None? && req.swap.None? then l
    else
      var mem := if req.phys.Some? then pagesize * req.phys.value else l.mem;
      var swap := if req.swap.Some? then pagesize * req.swap.value else l.memsw;
      Limits(if req.phys.Some? then Capped(mem) else l.mem, Capped(swap + mem))
  }

  function AskedAll(pagesize: nat, l: Limits, reqs: seq<Request>): Limits {
    if |reqs| == 0 then l else Asked(pagesize, AskedAll(pagesize, l, reqs[..|reqs| - 1]), reqs[|reqs| - 1])
  }

  /** Over every run of requests the limits stay in order. */
  lemma {:induction false} RunKeepsOrder(pagesize: nat, l: Limits, reqs: seq<Request>)
    requires Ordered(l)
    ensures Ordered(AskedAll(pagesize, l, reqs))
  {
    if |reqs| > 0 {
      RunKeepsOrder(pagesize, l, reqs[..|reqs| - 1]);
    }
  }

  /** A request made twice changes nothing the second time, except where it names memory alone:
      then the limit of both grows by that memory until it is at its maximum. */
  lemma RepeatExactly(pagesize: nat, l: Limits, req: Request)
    requires Ordered(l)
    ensures var once := Asked(pagesize, l, req);
      Asked(pagesize, once, req) == once <==>
      req.phys.None? || req.swap.Some? || pagesize * req.phys.value == 0 || once.memsw == PAGE_COUNTER_MAX
  {
  }

  /** The memory cgroup. Each write is checked against the other limit. */
  class MemCgroup {
    var limits: Limits
    /** Every state it was in. */
    ghost var history: seq<Limits>

    constructor (limits: Limits)
      ensures this.limits == limits && history == [limits]
    {
      this.limits, history := limits, [limits];
    }

    method Write(next: Limits) returns (ok: bool)
      modifies this
      ensures ok == Ordered(next)
      ensures limits == if ok then next else old(limits)
      ensures history == if ok then old(history) + [next] else old(history)
    {
      ok := Ordered(next);
      if ok {
        limits := next;
        history := history + [next];
      }
    }

    method SetMem(mem: nat) returns (ok: bool)
      modifies this
      ensures var next := old(limits).(mem := mem);
        ok == Ordered(next)
        && limits == (if ok then next else old(limits))
        && history == (if ok then old(history) + [next] else old(history))
    {
      ok := Write(limits.(mem := mem));
    }

    method SetMemsw(memsw: nat) returns (ok: bool)
      modifies this
      ensures var next := old(limits).(memsw := memsw);
        ok == Ordered(next)
        && limits == (if ok then next else old(limits))
        && history == (if ok then old(history) + [next] else old(history))
    {
      ok := Write(limits.(memsw := memsw));
    }

    /** No write is rejected, every state on the way is in order, and the limits end as asked for. */
    method SetMemoryParam(pagesize: nat, req: Request) returns (ok: bool)
      requires Ordered(limits)
      modifies this
      ensures ok && limits == Asked(pagesize, old(limits), req)
      ensures req.phys.Some? && req.swap.Some? ==>
        limits == Limits(Capped(pagesize * req.phys.value), Capped(pagesize * (req.phys.value + req.swap.value)))
      ensures old(history) <= history && forall i :: |old(history)| <= i < |history| ==> Ordered(history[i])
      ensures |history| - |old(history)| ==
        if req.phys.Some? then 3 else if req.swap.Some? then 1 else 0
    {
      if req.phys.None? && req.swap.None? {
        return true;
      }
      var cur := limits;
      var x := if req.swap.Some? then pagesize * req.swap.value else cur.memsw;
      x := x + if req.phys.Some? then pagesize * req.phys.value else cur.mem;
      var newMs := Capped(x);
      if req.phys.Some? {
        var newMem := Capped(pagesize * req.phys.value);
        if newMs < cur.mem {
          ok := SetMem(newMem);
          if !ok {
            return;
          }
          ok := SetMemsw(newMs);
          if !ok {
            return;
          }
        } else {
          ok := SetMemsw(newMs);
          if !ok {
            return;
          }
          ok := SetMem(newMem);
          if !ok {
            return;
          }
        }
      }
      ok := SetMemsw(newMs);
    }
  }
}
