/** Resource limits: do_prlimit, the prlimit64 call on top of it, and the conversions between
    the machine's unsigned long and the 64-bit interface, for both word sizes.
  */
module Rlimits {

  const EPERM: int := 1
  const ESRCH: int := 3
  const EINVAL: int := 22

  const RLIMIT_CPU: nat := 0
  const RLIMIT_NOFILE: nat := 7
  const RLIM_NLIMITS: nat := 16

  datatype Option<T> = None | Some(value: T)

  datatype Word = Bits32 | Bits64

  const RLIM64_INFINITY: nat := 0xFFFF_FFFF_FFFF_FFFF

  /** ULONG_MAX, which is also RLIM_INFINITY. */
  function Infinity(w: Word): nat {
    match w
    case Bits32 => 0xFFFF_FFFF
    case Bits64 => 0xFFFF_FFFF_FFFF_FFFF
  }

  datatype Rlimit = Rlimit(cur: nat, max: nat)

  predicate Fits(w: Word, r: Rlimit) {
    r.cur <= Infinity(w) && r.max <= Infinity(w)
  }

  // ---------------------------------------------------------------------------
  // Conversions

  predicate IsInfinity64(w: Word, v: nat) {
    match w
    case Bits32 => v >= Infinity(w)
    case Bits64 => v == RLIM64_INFINITY
  }

  function Widen(w: Word, v: nat): nat {
    if v == Infinity(w) then RLIM64_INFINITY else v
  }

  /** The cast to unsigned long keeps the low bits. */
  function Narrow(w: Word, v: nat): nat {
    if IsInfinity64(w, v) then Infinity(w) else v % (Infinity(w) + 1)
  }

  function ToRlim64(w: Word, r: Rlimit): Rlimit {
    Rlimit(Widen(w, r.cur), Widen(w, r.max))
  }

  function FromRlim64(w: Word, r: Rlimit): Rlimit {
    Rlimit(Narrow(w, r.cur), Narrow(w, r.max))
  }

  /** Narrowing saturates at the word's infinity, hence is monotone; the cast never drops a bit. */
  lemma NarrowSaturates(w: Word, a: nat, b: nat)
    requires a <= b <= RLIM64_INFINITY
    ensures Narrow(w, a) == if a <= Infinity(w) then a else Infinity(w)
    ensures Narrow(w, a) <= Narrow(w, b)
  {
  }

  /** A limit that goes out through the 64-bit interface comes back the same. */
  lemma NarrowUndoesWiden(w: Word, r: Rlimit)
    requires Fits(w, r)
    ensures FromRlim64(w, ToRlim64(w, r)) == r
  {
  }

  // ---------------------------------------------------------------------------
  // do_prlimit and prlimit64

  /** alive: the process still has its signal handlers; lsm: the answer of the security hook. */
  datatype Env = Env(alive: bool, capable: bool, lsm: int)

  /** `was` is the limit reported to a caller who asked for the old value. */
  datatype Outcome = Outcome(ret: int, limits: seq<Rlimit>, was: Option<Rlimit>)

  function Stored(resource: nat, r: Rlimit): Rlimit {
    if resource == RLIMIT_CPU && r.cur == 0 then r.(cur := 1) else r
  }

  function DoPrlimit(limits: seq<Rlimit>, nrOpen: nat, resource: nat, next: Option<Rlimit>, env: Env): Outcome
    requires |limits| == RLIM_NLIMITS
  {
    if resource >= RLIM_NLIMITS then Outcome(-EINVAL, limits, None)
    else if next.Some? && next.value.cur > next.value.max then Outcome(-EINVAL, limits, None)
    else if next.Some? && resource == RLIMIT_NOFILE && next.value.max > nrOpen then Outcome(-EPERM, limits, None)
    else if !env.alive then Outcome(-ESRCH, limits, None)
    else if next.None? then Outcome(0, limits, Some(limits[resource]))
    else if next.value.max > limits[resource].max && !env.capable then Outcome(-EPERM, limits, None)
    else if env.lsm != 0 then Outcome(env.lsm, limits, None)
    else Outcome(0, limits[resource := Stored(resource, next.value)], Some(limits[resource]))
  }

  /** found: a process with the given pid exists; permission: the answer of the permission check. */
  function DoPrlimit64(w: Word, limits: seq<Rlimit>, nrOpen: nat, found: bool, permission: int,
                     resource: nat, next: Option<Rlimit>, env: Env): Outcome
    requires |limits| == RLIM_NLIMITS
  {
    if !found then Outcome(-ESRCH, limits, None)
    else if permission != 0 then Outcome(permission, limits, None)
    else
      var narrow := if next.Some? then Some(FromRlim64(w, next.value)) else None;
      var o := DoPrlimit(limits, nrOpen, resource, narrow, env);
      o.(was := if o.was.Some? then Some(ToRlim64(w, o.was.value)) else None)
  }

  /** The limits of one process, stored in a table that is overwritten in place. */
  class Signal {
    const rlim: array<Rlimit>
    const nrOpen: nat

    constructor (initial: seq<Rlimit>, nrOpen: nat)
      requires |initial| == RLIM_NLIMITS
      ensures rlim[..] == initial && this.nrOpen == nrOpen && fresh(rlim)
    {
      rlim := new Rlimit[RLIM_NLIMITS](i requires 0 <= i < RLIM_NLIMITS => initial[i]);
      this.nrOpen := nrOpen;
      new;
      assert rlim[..] == initial;
    }

    method Prlimit(resource: nat, request: Option<Rlimit>, env: Env) returns (ret: int, was: Option<Rlimit>)
      requires rlim.Length == RLIM_NLIMITS
      modifies rlim
      ensures ret == 0 ==> resource < RLIM_NLIMITS && was == Some(old(rlim[resource]))
      ensures ret == 0 && request.Some? ==>
                rlim[resource] == if resource == RLIMIT_CPU && request.value.cur == 0 then Rlimit(1, request.value.max)
                                  else request.value
      ensures forall i :: 0 <= i < RLIM_NLIMITS && !(ret == 0 && request.Some? && i == resource) ==>
                rlim[i] == old(rlim[i])
      ensures Outcome(ret, rlim[..], was) == DoPrlimit(old(rlim[..]), nrOpen, resource, request, env)
    {
      ret, was := 0, None;
      var next := request;
      if resource >= RLIM_NLIMITS {
        return -EINVAL, None;
      }
      if next.Some? {
        if next.value.cur > next.value.max {
          return -EINVAL, None;
        }
        if resource == RLIMIT_NOFILE && next.value.max > nrOpen {
          return -EPERM, None;
        }
      }
      if !env.alive {
        return -ESRCH, None;
      }
      if next.Some? {
        if next.value.max > rlim[resource].max && !env.capable {
          ret := -EPERM;
        }
        if ret == 0 {
          ret := env.lsm;
        }
        if resource == RLIMIT_CPU && next.value.cur == 0 {
          next := Some(Rlimit(1, next.value.max));
        }
      }
      if ret == 0 {
        was := Some(rlim[resource]);
        if next.Some? {
          rlim[resource] := next.value;
        }
      }
    }

    method Prlimit64(w: Word, found: bool, permission: int, resource: nat, request: Option<Rlimit>, env: Env)
      returns (ret: int, was: Option<Rlimit>)
      requires rlim.Length == RLIM_NLIMITS
      modifies rlim
      ensures Outcome(ret, rlim[..], was) ==
              DoPrlimit64(w, old(rlim[..]), nrOpen, found, permission, resource, request, env)
    {
      var next := None;
      if request.Some? {
        next := Some(FromRlim64(w, request.value));
      }
      if !found {
        return -ESRCH, None;
      }
      if permission != 0 {
        return permission, None;
      }
      ret, was := Prlimit(resource, next, env);
      if ret == 0 && was.Some? {
        was := Some(ToRlim64(w, was.value));
      }
    }
  }

  // ---------------------------------------------------------------------------
  // Runs

  datatype Event = Event(resource: nat, next: Option<Rlimit>, env: Env)

  function After(limits: seq<Rlimit>, nrOpen: nat, es: seq<Event>): (r: seq<Rlimit>)
    requires |limits| == RLIM_NLIMITS
    ensures |r| == RLIM_NLIMITS
    decreases es
  {
    if es == [] then limits
    else After(DoPrlimit(limits, nrOpen, es[0].resource, es[0].next, es[0].env).limits, nrOpen, es[1..])
  }

  /** Asking for immediate CPU expiry under a zero hard limit stores this inverted pair. */
  const CPU_INVERTED: Rlimit := Rlimit(1, 0)

  predicate Ordered(resource: nat, r: Rlimit) {
    r.cur <= r.max || (resource == RLIMIT_CPU && r == CPU_INVERTED)
  }

  ghost predicate AllOrdered(limits: seq<Rlimit>) {
    |limits| == RLIM_NLIMITS && forall i :: 0 <= i < |limits| ==> Ordered(i, limits[i])
  }

  /** Every run keeps the soft limit at or below the hard one, except for the inverted CPU pair. */
  lemma {:induction false} SoftStaysBelowHard(limits: seq<Rlimit>, nrOpen: nat, es: seq<Event>)
    requires AllOrdered(limits)
    ensures AllOrdered(After(limits, nrOpen, es))
    decreases es
  {
    if es == [] {
    } else {
      SoftStaysBelowHard(DoPrlimit(limits, nrOpen, es[0].resource, es[0].next, es[0].env).limits, nrOpen, es[1..]);
    }
  }

  /** The guards of do_prlimit, apart from the security hook: a live process, a soft limit not
      above the hard one, a file limit within the system's, and a hard limit that does not rise
      without the capability. */
  predicate MayStore(limits: seq<Rlimit>, nrOpen: nat, resource: nat, r: Rlimit, env: Env)
    requires |limits| == RLIM_NLIMITS
  {
    && resource < RLIM_NLIMITS && env.alive && r.cur <= r.max
    && (resource == RLIMIT_NOFILE ==> r.max <= nrOpen)
    && (r.max <= limits[resource].max || env.capable)
  }

  /** A call that will store its request for the given resource. */
  predicate Stores(limits: seq<Rlimit>, nrOpen: nat, e: Event, resource: nat)
    requires |limits| == RLIM_NLIMITS
  {
    e.resource == resource && e.next.Some? && e.env.lsm == 0 && MayStore(limits, nrOpen, resource, e.next.value, e.env)
  }

  /** A request that meets the guards is stored and reports the old limit; a read afterwards, in
      any environment, gives the request, or one second for a CPU limit of zero; the other
      limits stay. */
  lemma StoredIsReadBack(limits: seq<Rlimit>, nrOpen: nat, resource: nat, r: Rlimit, env: Env, env': Env)
    requires |limits| == RLIM_NLIMITS && MayStore(limits, nrOpen, resource, r, env) && env.lsm == 0 && env'.alive
    ensures var write := DoPrlimit(limits, nrOpen, resource, Some(r), env);
            && write.ret == 0 && write.was == Some(limits[resource]) && |write.limits| == RLIM_NLIMITS
            && (forall i :: 0 <= i < RLIM_NLIMITS && i != resource ==> write.limits[i] == limits[i])
            && var read := DoPrlimit(write.limits, nrOpen, resource, None, env');
               && read.ret == 0 && read.limits == write.limits
               && read.was == Some(if resource == RLIMIT_CPU && r.cur == 0 then Rlimit(1, r.max) else r)
  {
  }

  /** Every other call changes nothing and, unless it is a read, reports nothing. EINVAL is for an
      unknown resource or a soft limit above the hard one; EPERM for a file limit above the
      system's, or a risen hard limit; ESRCH for a process that is gone; anything else is the
      hook's. */
  lemma RefusedWith(limits: seq<Rlimit>, nrOpen: nat, e: Event)
    requires |limits| == RLIM_NLIMITS
    ensures var o := DoPrlimit(limits, nrOpen, e.resource, e.next, e.env);
            var valid := e.resource < RLIM_NLIMITS && (e.next.Some? ==> e.next.value.cur <= e.next.value.max);
            var files := valid && e.next.Some? && e.resource == RLIMIT_NOFILE && e.next.value.max > nrOpen;
            var rises := valid && e.next.Some? && e.next.value.max > limits[e.resource].max && !e.env.capable;
            && (o.ret != 0 ==> o.limits == limits && o.was == None)
            && (!valid ==> o.ret == -EINVAL)
            && (files || (valid && e.env.alive && rises) ==> o.ret == -EPERM)
            && (valid && !files && !e.env.alive ==> o.ret == -ESRCH)
            && (e.next.Some? && MayStore(limits, nrOpen, e.resource, e.next.value, e.env) ==> o.ret == e.env.lsm)
            && (e.next.None? && valid && e.env.alive ==> o == Outcome(0, limits, Some(limits[e.resource])))
  {
  }

  /** What the 64-bit interface makes of a value that passes through an unsigned long. */
  function Saturated(w: Word, v: nat): nat {
    if v >= Infinity(w) then RLIM64_INFINITY else v
  }

  /** The same through prlimit64: what is read back is the request, with everything that an
      unsigned long cannot hold turned into infinity. Without such a process, or without
      permission, nothing happens. */
  lemma StoredIsReadBack64(w: Word, limits: seq<Rlimit>, nrOpen: nat, found: bool, permission: int,
                           resource: nat, r: Rlimit, env: Env, env': Env)
    requires |limits| == RLIM_NLIMITS && r.cur <= RLIM64_INFINITY && r.max <= RLIM64_INFINITY
    requires MayStore(limits, nrOpen, resource, FromRlim64(w, r), env) && env.lsm == 0 && env'.alive
    ensures var write := DoPrlimit64(w, limits, nrOpen, found, permission, resource, Some(r), env);
            && |write.limits| == RLIM_NLIMITS
            && (!found ==> write == Outcome(-ESRCH, limits, None))
            && (found && permission != 0 ==> write == Outcome(permission, limits, None))
            && (found && permission == 0 ==>
                  && write.ret == 0 && write.was == Some(ToRlim64(w, limits[resource]))
                  && (forall i :: 0 <= i < RLIM_NLIMITS && i != resource ==> write.limits[i] == limits[i])
                  && var cur := if resource == RLIMIT_CPU && r.cur == 0 then 1 else Saturated(w, r.cur);
                     DoPrlimit64(w, write.limits, nrOpen, true, 0, resource, None, env').was ==
                     Some(Rlimit(cur, Saturated(w, r.max))))
  {
    StoredIsReadBack(limits, nrOpen, resource, FromRlim64(w, r), env, env');
    NarrowSaturates(w, r.cur, r.cur);
    NarrowSaturates(w, r.max, r.max);
  }

  /** The last request of a run that was stored for a resource. */
  function LastStored(limits: seq<Rlimit>, nrOpen: nat, es: seq<Event>, resource: nat): Option<Rlimit>
    requires |limits| == RLIM_NLIMITS
    decreases es
  {
    if es == [] then None
    else
      var e := es[0];
      var later := LastStored(DoPrlimit(limits, nrOpen, e.resource, e.next, e.env).limits, nrOpen, es[1..], resource);
      if later.Some? then later else if Stores(limits, nrOpen, e, resource) then e.next else None
  }

  /** Over whole runs every limit is the last request stored for it, with one second for a CPU
      limit of zero, or else what it was at the start. */
  lemma {:induction false} LastRequestDecides(limits: seq<Rlimit>, nrOpen: nat, es: seq<Event>, resource: nat)
    requires |limits| == RLIM_NLIMITS && resource < RLIM_NLIMITS
    ensures var last := LastStored(limits, nrOpen, es, resource);
            After(limits, nrOpen, es)[resource] ==
              if last.None? then limits[resource]
              else if resource == RLIMIT_CPU && last.value.cur == 0 then Rlimit(1, last.value.max)
              else last.value
    decreases es
  {
    if es == [] {
    } else {
      var e := es[0];
      RefusedWith(limits, nrOpen, e);
      if e.next.Some? && e.resource < RLIM_NLIMITS && Stores(limits, nrOpen, e, e.resource) {
        StoredIsReadBack(limits, nrOpen, e.resource, e.next.value, e.env, e.env);
      }
      LastRequestDecides(DoPrlimit(limits, nrOpen, e.resource, e.next, e.env).limits, nrOpen, es[1..], resource);
    }
  }

  /** One call leaves the soft CPU limit above the hard one exactly if it stores a request for
      {0, 0}, or stores no CPU limit and found it so. */
  lemma InversionArisesExactly(limits: seq<Rlimit>, nrOpen: nat, e: Event)
    requires AllOrdered(limits)
    ensures var cpu := DoPrlimit(limits, nrOpen, e.resource, e.next, e.env).limits[RLIMIT_CPU];
            cpu.cur > cpu.max <==>
              if Stores(limits, nrOpen, e, RLIMIT_CPU) then e.next.value == Rlimit(0, 0)
              else limits[RLIMIT_CPU].cur > limits[RLIMIT_CPU].max
  {
  }

  ghost predicate SomeInverted(limits: seq<Rlimit>) {
    exists i :: 0 <= i < |limits| && limits[i].cur > limits[i].max
  }

  /** Over whole runs: some soft limit is above its hard limit at the end exactly if the last
      stored CPU request asked for {0, 0}, or there was none and the CPU limit was so at the
      start. */
  lemma InversionOverRuns(limits: seq<Rlimit>, nrOpen: nat, es: seq<Event>)
    requires AllOrdered(limits)
    ensures var last := LastStored(limits, nrOpen, es, RLIMIT_CPU);
            SomeInverted(After(limits, nrOpen, es))
            <==> if last.Some? then last.value == Rlimit(0, 0)
                 else limits[RLIMIT_CPU].cur > limits[RLIMIT_CPU].max
  {
    var end := After(limits, nrOpen, es);
    SoftStaysBelowHard(limits, nrOpen, es);
    assert SomeInverted(end) <==> end[RLIMIT_CPU].cur > end[RLIMIT_CPU].max;
    LastRequestDecides(limits, nrOpen, es, RLIMIT_CPU);
    LastStoredIsOrdered(limits, nrOpen, es, RLIMIT_CPU);
  }

  lemma {:induction false} LastStoredIsOrdered(limits: seq<Rlimit>, nrOpen: nat, es: seq<Event>, resource: nat)
    requires |limits| == RLIM_NLIMITS
    ensures var last := LastStored(limits, nrOpen, es, resource); last.Some? ==> last.value.cur <= last.value.max
    decreases es
  {
    if es == [] {
    } else {
      var e := es[0];
      LastStoredIsOrdered(DoPrlimit(limits, nrOpen, e.resource, e.next, e.env).limits, nrOpen, es[1..], resource);
    }
  }

  /** From any ordered table the exception is one unprivileged call away. */
  lemma InversionIsReachable(limits: seq<Rlimit>, nrOpen: nat)
    requires AllOrdered(limits)
    ensures exists e: Event :: !e.env.capable && After(limits, nrOpen, [e])[RLIMIT_CPU] == CPU_INVERTED
  {
    var e := Event(RLIMIT_CPU, Some(Rlimit(0, 0)), Env(true, false, 0));
    var o := DoPrlimit(limits, nrOpen, e.resource, e.next, e.env);
    assert After(limits, nrOpen, [e]) == After(o.limits, nrOpen, [e][1..]) == o.limits;
  }

  /** Without the capability no run raises a hard limit. */
  lemma {:induction false} HardLimitsNeverRise(limits: seq<Rlimit>, nrOpen: nat, es: seq<Event>)
    requires |limits| == RLIM_NLIMITS
    requires forall i :: 0 <= i < |es| ==> !es[i].env.capable
    ensures forall i :: 0 <= i < RLIM_NLIMITS ==> After(limits, nrOpen, es)[i].max <= limits[i].max
    decreases es
  {
    if es == [] {
    } else {
      assert !es[0].env.capable;
      HardLimitsNeverRise(DoPrlimit(limits, nrOpen, es[0].resource, es[0].next, es[0].env).limits, nrOpen, es[1..]);
    }
  }

  /** What holds of a process's limits from the start: ordered, in range, files within the
      system-wide bound, and a CPU limit that is set or infinite. */
  ghost predicate Sane(w: Word, limits: seq<Rlimit>, nrOpen: nat) {
    && AllOrdered(limits)
    && (forall i :: 0 <= i < |limits| ==> Fits(w, limits[i]))
    && limits[RLIMIT_NOFILE].max <= nrOpen
    && limits[RLIMIT_CPU].cur != 0
  }

  ghost predicate InRange(w: Word, es: seq<Event>) {
    forall i :: 0 <= i < |es| && es[i].next.Some? ==> Fits(w, es[i].next.value)
  }

  /** Even with the capability, no run lifts the file limit above a fixed sysctl_nr_open, and
      none brings the CPU soft limit back to zero, the value that means "never set". */
  lemma {:induction false} LimitsStaySane(w: Word, limits: seq<Rlimit>, nrOpen: nat, es: seq<Event>)
    requires Sane(w, limits, nrOpen) && InRange(w, es)
    ensures Sane(w, After(limits, nrOpen, es), nrOpen)
    decreases es
  {
    if es == [] {
    } else {
      assert es[0].next.Some? ==> Fits(w, es[0].next.value);
      assert forall i :: 0 <= i < |es[1..]| ==> es[1..][i] == es[i + 1];
      LimitsStaySane(w, DoPrlimit(limits, nrOpen, es[0].resource, es[0].next, es[0].env).limits, nrOpen, es[1..]);
    }
  }

  /** Reading a limit through prlimit64 and writing the same value back succeeds and changes
      nothing, in every state a run can reach and without the capability, exactly unless the
      limit is the inverted CPU pair; then the write is refused as invalid. */
  lemma ReadBackWritesBack(w: Word, start: seq<Rlimit>, nrOpen: nat, es: seq<Event>, resource: nat, env: Env)
    requires Sane(w, start, nrOpen) && InRange(w, es)
    requires resource < RLIM_NLIMITS && env.alive && env.lsm == 0
    ensures var limits := After(start, nrOpen, es);
            var read := DoPrlimit64(w, limits, nrOpen, true, 0, resource, None, env);
            && read.ret == 0 && read.limits == limits && read.was.Some?
            && var write := DoPrlimit64(w, limits, nrOpen, true, 0, resource, read.was, env);
               && write.limits == limits
               && (write.ret == 0 <==> !(resource == RLIMIT_CPU && limits[resource] == CPU_INVERTED))
               && (write.ret != 0 ==> write.ret == -EINVAL)
  {
    LimitsStaySane(w, start, nrOpen, es);
    var limits := After(start, nrOpen, es);
    NarrowUndoesWiden(w, limits[resource]);
    assert limits[resource := limits[resource]] == limits;
  }
}
