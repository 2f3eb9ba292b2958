/** The memory-layout fields that prctl(PR_SET_MM) lets a task overwrite, on a 64-bit kernel:
    all at once through PR_SET_MM_MAP, or one at a time.
  */
module MmLayout {

  const EPERM: int := 1
  const EFAULT: int := 14
  const EINVAL: int := 22

  datatype Field =
    | StartCode | EndCode | StartData | EndData | StartBrk | Brk
    | StartStack | ArgStart | ArgEnd | EnvStart | EnvEnd

  datatype Layout = Layout(
    startCode: nat, endCode: nat, startData: nat, endData: nat, startBrk: nat, brk: nat,
    startStack: nat, argStart: nat, argEnd: nat, envStart: nat, envEnd: nat)
  {
    function Get(f: Field): nat {
      match f
      case StartCode => startCode
      case EndCode => endCode
      case StartData => startData
      case EndData => endData
      case StartBrk => startBrk
      case Brk => brk
      case StartStack => startStack
      case ArgStart => argStart
      case ArgEnd => argEnd
      case EnvStart => envStart
      case EnvEnd => envEnd
    }

    function Set(f: Field, v: nat): Layout {
      match f
      case StartCode => this.(startCode := v)
      case EndCode => this.(endCode := v)
      case StartData => this.(startData := v)
      case EndData => this.(endData := v)
      case StartBrk => this.(startBrk := v)
      case Brk => this.(brk := v)
      case StartStack => this.(startStack := v)
      case ArgStart => this.(argStart := v)
      case ArgEnd => this.(argEnd := v)
      case EnvStart => this.(envStart := v)
      case EnvEnd => this.(envEnd := v)
    }
  }

  /** RLIMIT_DATA */
  datatype Limit = Unlimited | AtMost(bytes: nat)

  /** mmap_min_addr, TASK_SIZE, the size of the saved auxiliary vector and the data limit, fixed
      for a run. */
  datatype Bounds = Bounds(minAddr: nat, taskSize: nat, auxvBytes: nat, dataLimit: Limit)

  /** admin, resource: the capabilities; vma: the address is followed by a mapping; exe: result
      of switching the executable; copyOk, auxvOk: the reads of user memory succeed. */
  datatype Env = Env(admin: bool, resource: bool, vma: bool, exe: int, copyOk: bool, auxvOk: bool)

  /** What PR_SET_MM_MAP carries besides the layout; an absent exe_fd is the value -1. */
  datatype Extras = Extras(auxv: nat, auxvSize: nat, exeFd: bool)

  const NO_EXTRAS: Extras := Extras(0, 0, false)

  // ---------------------------------------------------------------------------
  // validate_prctl_map

  /** The table the validation loop runs through. */
  function Offsets(): seq<Field> {
    [StartCode, EndCode, StartData, EndData, StartBrk, Brk, StartStack, ArgStart, ArgEnd, EnvStart, EnvEnd]
  }

  predicate InBounds(b: Bounds, l: Layout, f: Field) {
    b.minAddr <= l.Get(f) < b.taskSize
  }

  predicate Ordered(l: Layout) {
    && l.startCode < l.endCode
    && l.startData < l.endData < l.startBrk <= l.brk
    && l.argStart <= l.argEnd
    && l.envStart <= l.envEnd
  }

  /** Heap plus data segment, which is what the limit counts. */
  function DataSize(l: Layout): int {
    (l.brk - l.startBrk) + (l.endData - l.startData)
  }

  predicate WithinLimit(b: Bounds, l: Layout) {
    b.dataLimit.AtMost? ==> DataSize(l) <= b.dataLimit.bytes
  }

  /** The layout a successful call leaves behind. */
  ghost predicate Allowed(b: Bounds, l: Layout) {
    && (forall f :: InBounds(b, l, f))
    && Ordered(l)
    && WithinLimit(b, l)
  }

  ghost predicate Accepted(b: Bounds, l: Layout, x: Extras, env: Env) {
    && Allowed(b, l)
    && (x.auxvSize != 0 ==> x.auxv != 0 && x.auxvSize <= b.auxvBytes)
    && (x.exeFd ==> env.admin)
  }

  /** The checks in the order the kernel makes them, with the loop over the field table. */
  method Validate(b: Bounds, l: Layout, x: Extras, env: Env) returns (error: int)
    ensures error == if Accepted(b, l, x, env) then 0 else -EINVAL
  {
    var fields := Offsets();
    for i := 0 to |fields|
      invariant forall k :: 0 <= k < i ==> InBounds(b, l, fields[k])
    {
      var v := l.Get(fields[i]);
      if v >= b.taskSize || v < b.minAddr {
        assert !InBounds(b, l, fields[i]);
        return -EINVAL;
      }
    }
    OffsetsCoverFields(b, l);
    if !(l.startCode < l.endCode) || !(l.startData < l.endData) || !(l.startBrk <= l.brk)
       || !(l.argStart <= l.argEnd) || !(l.envStart <= l.envEnd) {
      return -EINVAL;
    }
    if l.startBrk <= l.endData || l.brk <= l.endData {
      return -EINVAL;
    }
    if !WithinLimit(b, l) {
      return -EINVAL;
    }
    if x.auxvSize != 0 {
      if x.auxv == 0 || x.auxvSize > b.auxvBytes {
        return -EINVAL;
      }
    }
    if x.exeFd && !env.admin {
      return -EINVAL;
    }
    error := 0;
  }

  lemma OffsetsCoverFields(b: Bounds, l: Layout)
    requires forall k :: 0 <= k < |Offsets()| ==> InBounds(b, l, Offsets()[k])
    ensures forall f :: InBounds(b, l, f)
  {
    forall f ensures InBounds(b, l, f) {
      assert Offsets()[Position(f)] == f;
    }
  }

  /** Fields in the order of the table, which for each ordered pair is the order of addresses. */
  function Position(f: Field): (k: nat)
    ensures k < |Offsets()| && Offsets()[k] == f
  {
    match f
    case StartCode => 0
    case EndCode => 1
    case StartData => 2
    case EndData => 3
    case StartBrk => 4
    case Brk => 5
    case StartStack => 6
    case ArgStart => 7
    case ArgEnd => 8
    case EnvStart => 9
    case EnvEnd => 10
  }

  // ---------------------------------------------------------------------------
  // The two ways to set the layout

  datatype Call =
    | SetMap(layout: Layout, extras: Extras)
    | SetField(field: Field, addr: nat)

  /** These fields may only point below an existing mapping. */
  predicate OnStack(f: Field) {
    f in {StartStack, ArgStart, ArgEnd, EnvStart, EnvEnd}
  }

  ghost function Result(b: Bounds, l: Layout, call: Call, env: Env): int {
    match call
    case SetMap(m, x) =>
      if !env.copyOk then -EFAULT
      else if !Accepted(b, m, x, env) then -EINVAL
      else if x.auxvSize != 0 && !env.auxvOk then -EFAULT
      else if x.exeFd then env.exe
      else 0
    case SetField(f, addr) =>
      if !env.resource then -EPERM
      else if addr >= b.taskSize || addr < b.minAddr then -EINVAL
      else if !Accepted(b, l.Set(f, addr), NO_EXTRAS, env) then -EINVAL
      else if OnStack(f) && !env.vma then -EFAULT
      else 0
  }

  ghost function After(b: Bounds, l: Layout, call: Call, env: Env): Layout {
    if Result(b, l, call, env) != 0 then l
    else
      match call
      case SetMap(m, _) => m
      case SetField(f, addr) => l.Set(f, addr)
  }

  class Mm {
    var layout: Layout

    constructor (l: Layout)
      ensures layout == l
    {
      layout := l;
    }

    method SetMap(b: Bounds, m: Layout, x: Extras, env: Env) returns (error: int)
      modifies this
      ensures error == Result(b, old(layout), Call.SetMap(m, x), env)
      ensures layout == After(b, old(layout), Call.SetMap(m, x), env)
    {
      if !env.copyOk {
        return -EFAULT;
      }
      error := Validate(b, m, x, env);
      if error != 0 {
        return;
      }
      if x.auxvSize != 0 && !env.auxvOk {
        return -EFAULT;
      }
      if x.exeFd {
        error := env.exe;
        if error != 0 {
          return;
        }
      }
      layout := m;
    }

    method SetField(b: Bounds, f: Field, addr: nat, env: Env) returns (error: int)
      modifies this
      ensures error == Result(b, old(layout), Call.SetField(f, addr), env)
      ensures layout == After(b, old(layout), Call.SetField(f, addr), env)
    {
      if !env.resource {
        return -EPERM;
      }
      if addr >= b.taskSize || addr < b.minAddr {
        return -EINVAL;
      }
      var m := layout.Set(f, addr);
      error := Validate(b, m, NO_EXTRAS, env);
      if error != 0 {
        return;
      }
      if OnStack(f) && !env.vma {
        return -EFAULT;
      }
      layout := m;
    }
  }

  // ---------------------------------------------------------------------------
  // Runs

  datatype Event = Event(call: Call, env: Env)

  ghost function Finally(b: Bounds, l: Layout, es: seq<Event>): Layout
    decreases es
  {
    if es == [] then l else Finally(b, After(b, l, es[0].call, es[0].env), es[1..])
  }

  ghost predicate SomeSuccess(b: Bounds, l: Layout, es: seq<Event>)
    decreases es
  {
    es != [] && (Result(b, l, es[0].call, es[0].env) == 0 ||
                 SomeSuccess(b, After(b, l, es[0].call, es[0].env), es[1..]))
  }

  /** Whatever the layout was, after any run with at least one success it is in bounds, ordered
      and within the data limit; with none it is untouched. */
  lemma {:induction false} OneSuccessSettlesLayout(b: Bounds, l: Layout, es: seq<Event>)
    ensures SomeSuccess(b, l, es) || Allowed(b, l) ==> Allowed(b, Finally(b, l, es))
    ensures !SomeSuccess(b, l, es) ==> Finally(b, l, es) == l
    decreases es
  {
    if es == [] {
    } else {
      var l' := After(b, l, es[0].call, es[0].env);
      assert Result(b, l, es[0].call, es[0].env) == 0 ==> Allowed(b, l');
      OneSuccessSettlesLayout(b, l', es[1..]);
    }
  }

  /** PR_SET_MM_MAP stores exactly the layout it was given, executable and auxiliary vector or not,
      if and only if every address is in bounds, the pairs are ordered, the heap starts after the
      data and both fit the limit, the vector is there and fits, the executable may be and is
      switched, and the copies succeed; else it stores nothing. */
  lemma MapCallStores(b: Bounds, l: Layout, m: Layout, x: Extras, env: Env)
    ensures var call := SetMap(m, x);
            var ok := && (forall f :: b.minAddr <= m.Get(f) < b.taskSize)
                      && m.startCode < m.endCode && m.startData < m.endData && m.startBrk <= m.brk
                      && m.argStart <= m.argEnd && m.envStart <= m.envEnd
                      && m.startBrk > m.endData && m.brk > m.endData
                      && (b.dataLimit.AtMost? ==>
                            (m.brk - m.startBrk) + (m.endData - m.startData) <= b.dataLimit.bytes)
                      && (x.auxvSize > 0 ==> x.auxv != 0 && x.auxvSize <= b.auxvBytes)
                      && (x.exeFd ==> env.admin);
            var auxv := x.auxvSize == 0 || env.auxvOk;
            && (Result(b, l, call, env) == 0 <==> env.copyOk && ok && auxv && (x.exeFd ==> env.exe == 0))
            && After(b, l, call, env) == (if Result(b, l, call, env) == 0 then m else l)
            && (!env.copyOk || (ok && !auxv) ==> Result(b, l, call, env) == -EFAULT)
            && (env.copyOk && !ok ==> Result(b, l, call, env) == -EINVAL)
            && (env.copyOk && ok && auxv && x.exeFd ==> Result(b, l, call, env) == env.exe)
  {
    if forall f :: b.minAddr <= m.Get(f) < b.taskSize {
      assert forall f :: InBounds(b, m, f);
    } else {
      var f :| !(b.minAddr <= m.Get(f) < b.taskSize);
      assert !InBounds(b, m, f);
    }
  }

  /** A single-field call needs the capability, else EPERM; the layout it makes must be allowed,
      else EINVAL; the stack, argument and environment fields need a mapping, else EFAULT. What
      it stores differs from what was there in that field only. */
  lemma FieldCallStores(b: Bounds, l: Layout, f: Field, addr: nat, env: Env)
    ensures var r := Result(b, l, SetField(f, addr), env);
            var m := After(b, l, SetField(f, addr), env);
            var mapped := f in {StartStack, ArgStart, ArgEnd, EnvStart, EnvEnd} ==> env.vma;
            && r == (if !env.resource then -EPERM else if !Allowed(b, l.Set(f, addr)) then -EINVAL
                     else if !mapped then -EFAULT else 0)
            && (r != 0 ==> m == l)
            && (r == 0 ==> forall g :: m.Get(g) == if g == f then addr else l.Get(g))
  {
    var m := l.Set(f, addr);
    forall g ensures m.Get(g) == if g == f then addr else l.Get(g) {
      GetAfterSet(l, f, addr, g);
    }
    if Allowed(b, m) {
      assert InBounds(b, m, f);
    }
  }

  datatype Option<T> = None | Some(value: T)

  /** The value the last successful call of a run that names a field gave it. */
  ghost function LastWritten(b: Bounds, l: Layout, es: seq<Event>, f: Field): Option<nat>
    decreases es
  {
    if es == [] then None
    else
      var call, env := es[0].call, es[0].env;
      var later := LastWritten(b, After(b, l, call, env), es[1..], f);
      if later.Some? then later
      else if Result(b, l, call, env) != 0 then None
      else
        match call
        case SetMap(m, _) => Some(m.Get(f))
        case SetField(g, addr) => if g == f then Some(addr) else None
  }

  /** Over whole runs every field holds what the last successful call gave it, or else what it
      held at the start. */
  lemma {:induction false} LastWriteDecides(b: Bounds, l: Layout, es: seq<Event>, f: Field)
    ensures var last := LastWritten(b, l, es, f);
            Finally(b, l, es).Get(f) == if last.Some? then last.value else l.Get(f)
    decreases es
  {
    if es == [] {
    } else {
      var call, env := es[0].call, es[0].env;
      match call {
        case SetMap(m, x) => MapCallStores(b, l, m, x, env);
        case SetField(g, addr) => FieldCallStores(b, l, g, addr, env);
      }
      LastWriteDecides(b, After(b, l, call, env), es[1..], f);
    }
  }

  /** Setting one field succeeds exactly when setting the whole layout with that field replaced
      would, given the capability and, for the stack fields, a mapping; and then it has the
      same effect. The separate test of the address is redundant. */
  lemma FieldCallIsMapCall(b: Bounds, l: Layout, f: Field, addr: nat, env: Env)
    requires env.copyOk
    ensures var one := SetField(f, addr);
            var all := SetMap(l.Set(f, addr), NO_EXTRAS);
            && (Result(b, l, one, env) == 0 <==>
                  Result(b, l, all, env) == 0 && env.resource && (OnStack(f) ==> env.vma))
            && (Result(b, l, one, env) == 0 ==> After(b, l, one, env) == After(b, l, all, env))
  {
    assert l.Set(f, addr).Get(f) == addr;
    if Accepted(b, l.Set(f, addr), NO_EXTRAS, env) {
      assert InBounds(b, l.Set(f, addr), f);
    }
  }

  // ---------------------------------------------------------------------------
  // Which layouts single-field calls lead to, when each of them must leave an allowed layout

  /** Only single-field calls, all in the environment `env`. */
  ghost predicate FieldCalls(es: seq<Event>, env: Env) {
    forall i :: 0 <= i < |es| ==> es[i].call.SetField? && es[i].env == env
  }

  ghost predicate CanReach(b: Bounds, l: Layout, m: Layout, env: Env) {
    exists es :: FieldCalls(es, env) && Finally(b, l, es) == m
  }

  /** The calls can be made at all: the capability is held and mappings exist. */
  predicate Usable(env: Env) {
    env.resource && env.vma
  }

  lemma {:induction false} FinallyConcat(b: Bounds, l: Layout, es: seq<Event>, fs: seq<Event>)
    ensures Finally(b, l, es + fs) == Finally(b, Finally(b, l, es), fs)
    decreases es
  {
    if es == [] {
      assert es + fs == fs;
    } else {
      FinallyConcat(b, After(b, l, es[0].call, es[0].env), es[1..], fs);
      assert (es + fs)[1..] == es[1..] + fs;
    }
  }

  lemma ReachThen(b: Bounds, l: Layout, m: Layout, k: Layout, env: Env)
    requires CanReach(b, l, m, env) && CanReach(b, m, k, env)
    ensures CanReach(b, l, k, env)
  {
    var es :| FieldCalls(es, env) && Finally(b, l, es) == m;
    var fs :| FieldCalls(fs, env) && Finally(b, m, fs) == k;
    FinallyConcat(b, l, es, fs);
    assert FieldCalls(es + fs, env);
  }

  lemma ReachSelf(b: Bounds, l: Layout, env: Env)
    ensures CanReach(b, l, l, env)
  {
    assert FieldCalls([], env) && Finally(b, l, []) == l;
  }

  predicate InRange(b: Bounds, v: nat) {
    b.minAddr <= v < b.taskSize
  }

  lemma GetAfterSet(l: Layout, f: Field, v: nat, g: Field)
    ensures l.Set(f, v).Get(g) == if f == g then v else l.Get(g)
  {
    match f
    case StartCode | EndCode | StartData =>
    case EndData | StartBrk | Brk =>
    case StartStack | ArgStart | ArgEnd =>
    case EnvStart | EnvEnd =>
  }

  lemma SetKeepsBounds(b: Bounds, l: Layout, f: Field, v: nat)
    requires (forall g :: InBounds(b, l, g)) && InRange(b, v)
    ensures forall g :: InBounds(b, l.Set(f, v), g)
  {
    var m := l.Set(f, v);
    forall g ensures InBounds(b, m, g) {
      assert InBounds(b, l, g);
      assert m.Get(g) == if f == g then v else l.Get(g) by {
        GetAfterSet(l, f, v, g);
      }
    }
  }

  /** One call: the field must be in range and the resulting layout ordered and within the limit. */
  lemma ReachField(b: Bounds, l: Layout, f: Field, v: nat, env: Env)
    requires Usable(env) && Allowed(b, l) && InRange(b, v)
    requires Ordered(l.Set(f, v)) && WithinLimit(b, l.Set(f, v))
    ensures Allowed(b, l.Set(f, v)) && CanReach(b, l, l.Set(f, v), env)
  {
    var m := l.Set(f, v);
    SetKeepsBounds(b, l, f, v);
    var es := [Event(SetField(f, v), env)];
    assert Finally(b, l, es) == Finally(b, m, es[1..]) == m;
    assert FieldCalls(es, env);
  }

  /** Two calls, in the first order that is possible. */
  lemma ReachPair(b: Bounds, l: Layout, f: Field, v: nat, g: Field, w: nat, env: Env)
    requires Usable(env) && Allowed(b, l) && InRange(b, v) && InRange(b, w) && f != g
    requires Ordered(l.Set(f, v)) || Ordered(l.Set(g, w))
    requires WithinLimit(b, l.Set(f, v)) && WithinLimit(b, l.Set(g, w))
    requires Ordered(l.Set(f, v).Set(g, w)) && WithinLimit(b, l.Set(f, v).Set(g, w))
    ensures Allowed(b, l.Set(f, v).Set(g, w)) && CanReach(b, l, l.Set(f, v).Set(g, w), env)
  {
    SetsCommute(l, f, v, g, w);
    if Ordered(l.Set(f, v)) {
      ReachField(b, l, f, v, env);
      ReachField(b, l.Set(f, v), g, w, env);
      ReachThen(b, l, l.Set(f, v), l.Set(f, v).Set(g, w), env);
    } else {
      ReachField(b, l, g, w, env);
      ReachField(b, l.Set(g, w), f, v, env);
      ReachThen(b, l, l.Set(g, w), l.Set(f, v).Set(g, w), env);
    }
  }

  lemma SetsCommute(l: Layout, f: Field, v: nat, g: Field, w: nat)
    requires f != g
    ensures l.Set(f, v).Set(g, w) == l.Set(g, w).Set(f, v)
  {
  }

  /** The target's data segment and heap, everything else from `l`. */
  function WithData(l: Layout, m: Layout): Layout {
    l.(startData := m.startData, endData := m.endData, startBrk := m.startBrk, brk := m.brk)
  }

  lemma ReachCode(b: Bounds, l: Layout, m: Layout, env: Env)
    requires Usable(env) && Allowed(b, l) && Allowed(b, m)
    ensures var k := l.(startCode := m.startCode, endCode := m.endCode); Allowed(b, k) && CanReach(b, l, k, env)
  {
    FieldsInRange(b, m);
    ReachPair(b, l, StartCode, m.startCode, EndCode, m.endCode, env);
  }

  lemma ReachArg(b: Bounds, l: Layout, m: Layout, env: Env)
    requires Usable(env) && Allowed(b, l) && Allowed(b, m)
    ensures var k := l.(argStart := m.argStart, argEnd := m.argEnd); Allowed(b, k) && CanReach(b, l, k, env)
  {
    FieldsInRange(b, m);
    ReachPair(b, l, ArgStart, m.argStart, ArgEnd, m.argEnd, env);
  }

  lemma ReachEnv(b: Bounds, l: Layout, m: Layout, env: Env)
    requires Usable(env) && Allowed(b, l) && Allowed(b, m)
    ensures var k := l.(envStart := m.envStart, envEnd := m.envEnd); Allowed(b, k) && CanReach(b, l, k, env)
  {
    FieldsInRange(b, m);
    ReachPair(b, l, EnvStart, m.envStart, EnvEnd, m.envEnd, env);
  }

  /** The fields that the limit does not count go straight to their targets. */
  lemma ReachOtherFields(b: Bounds, l: Layout, m: Layout, env: Env)
    requires Usable(env) && Allowed(b, l) && Allowed(b, m) && WithData(l, m) == l
    ensures CanReach(b, l, m, env)
  {
    FieldsInRange(b, m);
    var l1 := l.(startCode := m.startCode, endCode := m.endCode);
    var l2 := l1.(argStart := m.argStart, argEnd := m.argEnd);
    var l3 := l2.(envStart := m.envStart, envEnd := m.envEnd);
    ReachCode(b, l, m, env);
    ReachArg(b, l1, m, env);
    ReachEnv(b, l2, m, env);
    ReachField(b, l3, StartStack, m.startStack, env);
    ReachThen(b, l, l1, l2, env);
    ReachThen(b, l, l2, l3, env);
    ReachThen(b, l, l3, m, env);
  }

  lemma FieldsInRange(b: Bounds, l: Layout)
    requires Allowed(b, l)
    ensures InRange(b, l.startCode) && InRange(b, l.endCode) && InRange(b, l.startData) && InRange(b, l.endData)
    ensures InRange(b, l.startBrk) && InRange(b, l.brk) && InRange(b, l.startStack) && InRange(b, l.argStart)
    ensures InRange(b, l.argEnd) && InRange(b, l.envStart) && InRange(b, l.envEnd)
  {
    assert InBounds(b, l, StartCode) && InBounds(b, l, EndCode) && InBounds(b, l, StartData) && InBounds(b, l, EndData);
    assert InBounds(b, l, StartBrk) && InBounds(b, l, Brk) && InBounds(b, l, StartStack) && InBounds(b, l, ArgStart);
    assert InBounds(b, l, ArgEnd) && InBounds(b, l, EnvStart) && InBounds(b, l, EnvEnd);
  }

  /** A data segment of one byte and an empty heap: the smallest size there is. */
  function Compact(l: Layout, data: nat, heap: nat): Layout {
    l.(startData := data, endData := data + 1, startBrk := heap, brk := heap)
  }

  predicate RoomToMove(b: Bounds) {
    b.dataLimit.AtMost? ==> b.dataLimit.bytes >= 2
  }

  /** Shrinking, and growing back, never exceeds the limit. */
  lemma ReachCompact(b: Bounds, l: Layout, env: Env)
    requires Usable(env) && Allowed(b, l)
    ensures var c := Compact(l, l.startData, l.startBrk);
            Allowed(b, c) && CanReach(b, l, c, env) && CanReach(b, c, l, env)
  {
    FieldsInRange(b, l);
    var c := Compact(l, l.startData, l.startBrk);
    ReachPair(b, l, EndData, c.endData, Brk, c.brk, env);
    ReachPair(b, c, EndData, l.endData, Brk, l.brk, env);
  }

  /** An empty heap moves by one byte: stretch, then let go of the other end. */
  lemma NudgeHeap(b: Bounds, l: Layout, data: nat, heap: nat, heap': nat, env: Env)
    requires Usable(env) && RoomToMove(b) && Allowed(b, Compact(l, data, heap))
    requires InRange(b, heap') && data + 1 < heap' && (heap' == heap + 1 || heap == heap' + 1)
    ensures Allowed(b, Compact(l, data, heap')) && CanReach(b, Compact(l, data, heap), Compact(l, data, heap'), env)
  {
    var c := Compact(l, data, heap);
    ReachPair(b, c, StartBrk, heap', Brk, heap', env);
    assert c.Set(StartBrk, heap').Set(Brk, heap') == Compact(l, data, heap');
  }

  /** So does a data segment of one byte. */
  lemma NudgeData(b: Bounds, l: Layout, data: nat, data': nat, heap: nat, env: Env)
    requires Usable(env) && RoomToMove(b) && Allowed(b, Compact(l, data, heap))
    requires InRange(b, data') && data' + 1 < heap && (data' == data + 1 || data == data' + 1)
    ensures Allowed(b, Compact(l, data', heap)) && CanReach(b, Compact(l, data, heap), Compact(l, data', heap), env)
  {
    var c := Compact(l, data, heap);
    FieldsInRange(b, c);
    ReachPair(b, c, StartData, data', EndData, data' + 1, env);
    assert c.Set(StartData, data').Set(EndData, data' + 1) == Compact(l, data', heap);
  }

  lemma {:induction false} MoveHeap(b: Bounds, l: Layout, data: nat, heap: nat, heap': nat, env: Env)
    requires Usable(env) && RoomToMove(b) && Allowed(b, Compact(l, data, heap))
    requires InRange(b, heap') && data + 1 < heap'
    ensures Allowed(b, Compact(l, data, heap')) && CanReach(b, Compact(l, data, heap), Compact(l, data, heap'), env)
    decreases if heap < heap' then heap' - heap else heap - heap'
  {
    var c := Compact(l, data, heap);
    FieldsInRange(b, c);
    if heap == heap' {
      ReachSelf(b, c, env);
    } else {
      var next := if heap < heap' then heap + 1 else heap - 1;
      NudgeHeap(b, l, data, heap, next, env);
      MoveHeap(b, l, data, next, heap', env);
      ReachThen(b, c, Compact(l, data, next), Compact(l, data, heap'), env);
    }
  }

  lemma {:induction false} MoveData(b: Bounds, l: Layout, data: nat, data': nat, heap: nat, env: Env)
    requires Usable(env) && RoomToMove(b) && Allowed(b, Compact(l, data, heap))
    requires InRange(b, data') && data' + 1 < heap
    ensures Allowed(b, Compact(l, data', heap)) && CanReach(b, Compact(l, data, heap), Compact(l, data', heap), env)
    decreases if data < data' then data' - data else data - data'
  {
    var c := Compact(l, data, heap);
    FieldsInRange(b, c);
    if data == data' {
      ReachSelf(b, c, env);
    } else {
      var next := if data < data' then data + 1 else data - 1;
      NudgeData(b, l, data, next, heap, env);
      MoveData(b, l, next, data', heap, env);
      ReachThen(b, c, Compact(l, next, heap), Compact(l, data', heap), env);
    }
  }

  function Max(a: nat, b: nat): nat {
    if a < b then b else a
  }

  /** Shrink; move the heap clear; move the data segment; bring the heap back; grow. */
  lemma ReachData(b: Bounds, l: Layout, m: Layout, env: Env)
    requires Usable(env) && RoomToMove(b) && Allowed(b, l) && Allowed(b, m)
    ensures Allowed(b, WithData(l, m)) && CanReach(b, l, WithData(l, m), env)
  {
    FieldsInRange(b, l);
    FieldsInRange(b, m);
    var t := WithData(l, m);
    assert Allowed(b, t) by {
      forall f ensures InBounds(b, t, f) {
        assert InBounds(b, l, f) && InBounds(b, m, f);
      }
    }
    var clear := Max(l.startBrk, m.startBrk);
    ReachCompact(b, l, env);
    MoveHeap(b, l, l.startData, l.startBrk, clear, env);
    MoveData(b, l, l.startData, m.startData, clear, env);
    MoveHeap(b, l, m.startData, clear, m.startBrk, env);
    ReachCompact(b, t, env);
    var c0, c1, c2, c3 := Compact(l, l.startData, l.startBrk), Compact(l, l.startData, clear),
                          Compact(l, m.startData, clear), Compact(l, m.startData, m.startBrk);
    assert c3 == Compact(t, t.startData, t.startBrk);
    ReachThen(b, l, c0, c1, env);
    ReachThen(b, l, c1, c2, env);
    ReachThen(b, l, c2, c3, env);
    ReachThen(b, l, c3, t, env);
  }

  /** Under a limit of one byte nothing the limit counts can ever move. */
  lemma {:induction false} OneByteFreezes(b: Bounds, l: Layout, es: seq<Event>, env: Env)
    requires b.dataLimit == AtMost(1) && Allowed(b, l) && FieldCalls(es, env)
    ensures WithData(l, Finally(b, l, es)) == l
    decreases es
  {
    if es == [] {
    } else {
      var e := es[0];
      assert e.call.SetField? && e.env == env;
      var l' := After(b, l, e.call, e.env);
      assert Allowed(b, l') && WithData(l, l') == l;
      OneByteFreezes(b, l', es[1..], env);
    }
  }

  /** Exactly when single-field calls lead from any allowed layout to any other, once they can be
      made at all: unless the data limit is exactly one byte and there is more than one place
      for the data segment and the heap. */
  lemma FieldCallsReachExactly(b: Bounds, env: Env)
    requires Usable(env)
    ensures (forall l, m :: Allowed(b, l) && Allowed(b, m) ==> CanReach(b, l, m, env)) <==>
              b.dataLimit != AtMost(1) || b.taskSize <= b.minAddr + 3
  {
    if b.dataLimit != AtMost(1) || b.taskSize <= b.minAddr + 3 {
      forall l, m | Allowed(b, l) && Allowed(b, m) ensures CanReach(b, l, m, env) {
        var t := WithData(l, m);
        FieldsInRange(b, l);
        FieldsInRange(b, m);
        if RoomToMove(b) {
          ReachData(b, l, m, env);
        } else {
          assert t == l;
          ReachSelf(b, l, env);
        }
        ReachOtherFields(b, t, m, env);
        ReachThen(b, l, t, m, env);
      }
    } else {
      var a := b.minAddr;
      var l := Layout(a, a + 1, a, a + 1, a + 2, a + 2, a, a, a, a, a);
      var m := l.(startBrk := a + 3, brk := a + 3);
      forall es | FieldCalls(es, env) ensures Finally(b, l, es) != m {
        OneByteFreezes(b, l, es, env);
      }
      assert Allowed(b, l) && Allowed(b, m) && !CanReach(b, l, m, env);
    }
  }
}
