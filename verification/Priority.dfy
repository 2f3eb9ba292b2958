/** setpriority and getpriority over whatever list of tasks `which` and `who` select. */
module Priority {

  const EPERM: int := 1
  const ESRCH: int := 3
  const EACCES: int := 13
  const EINVAL: int := 22

  const MIN_NICE: int := -20
  const MAX_NICE: int := 19

  const PRIO_PROCESS: int := 0
  const PRIO_USER: int := 2

  /** What the kernel answers about one task: permission to touch it, permission to raise its
      priority, and the security hook's verdict. */
  datatype Task = Task(id: int, permitted: bool, canNice: bool, lsm: int)

  function Clamp(niceval: int): int {
    if niceval < MIN_NICE then MIN_NICE else if niceval > MAX_NICE then MAX_NICE else niceval
  }

  predicate ValidWhich(which: int) {
    PRIO_PROCESS <= which <= PRIO_USER
  }

  ghost predicate Distinct(tasks: seq<Task>) {
    forall i, j :: 0 <= i < j < |tasks| ==> tasks[i].id != tasks[j].id
  }

  // ---------------------------------------------------------------------------
  // Reference: each task taken by itself

  /** The reason a task refuses the new value, or 0. */
  function Refusal(p: Task, was: int, niceval: int): int {
    if !p.permitted then -EPERM
    else if niceval < was && !p.canNice then -EACCES
    else p.lsm
  }

  /** The refusals of a list of tasks, one for each. */
  function Refusals(tasks: seq<Task>, nice: map<int, int>, niceval: int): (r: seq<int>)
    requires forall p :: p in tasks ==> p.id in nice
    ensures |r| == |tasks|
  {
    seq(|tasks|, i requires 0 <= i < |tasks| => Refusal(tasks[i], nice[tasks[i].id], niceval))
  }

  ghost predicate Accepts(tasks: seq<Task>, nice: map<int, int>, niceval: int, id: int)
    requires id in nice
  {
    exists p :: p in tasks && p.id == id && Refusal(p, nice[id], niceval) == 0
  }

  /** Exactly the selected tasks that do not refuse take the new value. */
  ghost function NiceAfter(tasks: seq<Task>, nice: map<int, int>, niceval: int): map<int, int> {
    map id | id in nice :: if Accepts(tasks, nice, niceval, id) then niceval else nice[id]
  }

  /** The best priority among the given tasks, on the scale 1 to 40; -ESRCH if there is none. */
  ghost predicate IsBest(tasks: seq<Task>, nice: map<int, int>, r: int)
    requires forall p :: p in tasks ==> p.id in nice
  {
    if tasks == [] then r == -ESRCH
    else (exists p :: p in tasks && r == 20 - nice[p.id]) && forall p :: p in tasks ==> r >= 20 - nice[p.id]
  }

  /** The code the fold ends with. A success turns a standing -ESRCH into 0 and leaves any other
      code; a refusal replaces whatever stands. */
  function Folded(refusals: seq<int>): int {
    if refusals == [] then -ESRCH
    else
      var last, before := refusals[|refusals| - 1], Folded(refusals[..|refusals| - 1]);
      if last != 0 then last else if before == -ESRCH then 0 else before
  }

  // ---------------------------------------------------------------------------
  // The calls

  class Scheduler {
    var nice: map<int, int>

    constructor (nice: map<int, int>)
      ensures this.nice == nice
    {
      this.nice := nice;
    }

    method SetOnePrio(p: Task, niceval: int, error: int) returns (r: int)
      requires p.id in nice
      modifies this
      ensures !p.permitted ==> r == -EPERM
      ensures p.permitted && niceval < old(nice)[p.id] && !p.canNice ==> r == -EACCES
      ensures p.permitted && (niceval >= old(nice)[p.id] || p.canNice) && p.lsm != 0 ==> r == p.lsm
      ensures var refusal := Refusal(p, old(nice)[p.id], niceval);
              && r == (if refusal != 0 then refusal else if error == -ESRCH then 0 else error)
              && nice == if refusal != 0 then old(nice) else old(nice)[p.id := niceval]
    {
      if !p.permitted {
        return -EPERM;
      }
      if niceval < nice[p.id] && !p.canNice {
        return -EACCES;
      }
      if p.lsm != 0 {
        return p.lsm;
      }
      r := error;
      if r == -ESRCH {
        r := 0;
      }
      nice := nice[p.id := niceval];
    }

    method SetPriority(which: int, tasks: seq<Task>, niceval: int) returns (error: int)
      requires Distinct(tasks) && forall p :: p in tasks ==> p.id in nice
      modifies this
      ensures !ValidWhich(which) ==> error == -EINVAL && nice == old(nice)
      ensures ValidWhich(which) ==> error == Folded(Refusals(tasks, old(nice), Clamp(niceval)))
      ensures ValidWhich(which) ==> nice == NiceAfter(tasks, old(nice), Clamp(niceval))
    {
      if which > PRIO_USER || which < PRIO_PROCESS {
        return -EINVAL;
      }
      error := -ESRCH;
      var v := niceval;
      if v < MIN_NICE {
        v := MIN_NICE;
      }
      if v > MAX_NICE {
        v := MAX_NICE;
      }
      ghost var refusals := Refusals(tasks, nice, v);
      assert NiceAfter([], nice, v) == nice;
      for i := 0 to |tasks|
        invariant error == Folded(refusals[..i])
        invariant nice == NiceAfter(tasks[..i], old(nice), v)
      {
        OneMoreTask(tasks, i, old(nice), v);
        error := SetOnePrio(tasks[i], v, error);
        assert refusals[..i + 1][..i] == refusals[..i];
      }
      assert refusals[..|tasks|] == refusals && tasks[..|tasks|] == tasks;
    }

    method GetPriority(which: int, tasks: seq<Task>) returns (r: int)
      requires forall p :: p in tasks ==> p.id in nice && MIN_NICE <= nice[p.id] <= MAX_NICE
      ensures if ValidWhich(which) then IsBest(tasks, nice, r) else r == -EINVAL
    {
      if which > PRIO_USER || which < PRIO_PROCESS {
        return -EINVAL;
      }
      r := -ESRCH;
      for i := 0 to |tasks|
        invariant i == 0 ==> r == -ESRCH
        invariant i > 0 ==> exists k :: 0 <= k < i && r == 20 - nice[tasks[k].id]
        invariant forall k :: 0 <= k < i ==> r >= 20 - nice[tasks[k].id]
      {
        var niceval := MAX_NICE - nice[tasks[i].id] + 1;
        if niceval > r {
          r := niceval;
        }
      }
    }
  }

  lemma OneMoreTask(tasks: seq<Task>, i: nat, nice: map<int, int>, niceval: int)
    requires Distinct(tasks) && i < |tasks| && tasks[i].id in nice
    ensures var p, before := tasks[i], NiceAfter(tasks[..i], nice, niceval);
            && before[p.id] == nice[p.id]
            && NiceAfter(tasks[..i + 1], nice, niceval) ==
               if Refusal(p, nice[p.id], niceval) == 0 then before[p.id := niceval] else before
  {
  }

  // ---------------------------------------------------------------------------
  // What the folded code means

  /** i is the last task that refused. */
  ghost predicate LastRefusal(refusals: seq<int>, i: int) {
    0 <= i < |refusals| && refusals[i] != 0 && forall k :: i < k < |refusals| ==> refusals[k] == 0
  }

  /** Exactly: with no task the code is -ESRCH; if all accept it is 0; otherwise it is the last
      refusal, unless that is a hook's -ESRCH followed by a success, which hides it. */
  lemma {:induction false} FoldedMeans(refusals: seq<int>)
    ensures refusals == [] ==> Folded(refusals) == -ESRCH
    ensures refusals != [] && (forall k :: 0 <= k < |refusals| ==> refusals[k] == 0) ==> Folded(refusals) == 0
    ensures forall i :: LastRefusal(refusals, i) ==>
              Folded(refusals) == if refusals[i] == -ESRCH && i < |refusals| - 1 then 0 else refusals[i]
    decreases |refusals|
  {
    if refusals == [] {
    } else {
      var front := refusals[..|refusals| - 1];
      FoldedMeans(front);
      forall i | LastRefusal(refusals, i)
        ensures Folded(refusals) == if refusals[i] == -ESRCH && i < |refusals| - 1 then 0 else refusals[i]
      {
        if i < |front| {
          assert LastRefusal(front, i);
        }
      }
    }
  }

  lemma {:induction false} SomeLastRefusal(refusals: seq<int>, k: int) returns (i: int)
    requires 0 <= k < |refusals| && refusals[k] != 0
    ensures LastRefusal(refusals, i)
    decreases |refusals| - k
  {
    if j :| k < j < |refusals| && refusals[j] != 0 {
      i := SomeLastRefusal(refusals, j);
    } else {
      i := k;
    }
  }

  /** The code is 0 exactly if there was a task and the last refusal, if any, was an -ESRCH with a
      success after it. */
  lemma ZeroExactly(refusals: seq<int>)
    ensures Folded(refusals) == 0 <==>
              refusals != [] && forall i :: LastRefusal(refusals, i) ==> refusals[i] == -ESRCH && i < |refusals| - 1
  {
    FoldedMeans(refusals);
    if k :| 0 <= k < |refusals| && refusals[k] != 0 {
      var i := SomeLastRefusal(refusals, k);
    }
  }

  /** As long as no refusal is -ESRCH, 0 means that there was a task and all accepted, and any
      other code is the last refusal or says there was no task. */
  lemma ZeroMeansAllAccepted(refusals: seq<int>)
    requires forall k :: 0 <= k < |refusals| ==> refusals[k] != -ESRCH
    ensures Folded(refusals) == 0 <==>
              refusals != [] && forall k :: 0 <= k < |refusals| ==> refusals[k] == 0
    ensures Folded(refusals) == -ESRCH <==> refusals == []
    ensures forall i :: LastRefusal(refusals, i) ==> Folded(refusals) == refusals[i]
  {
    FoldedMeans(refusals);
    if k :| 0 <= k < |refusals| && refusals[k] != 0 {
      var i := SomeLastRefusal(refusals, k);
    }
  }

  /** After a setpriority that returned 0, getpriority on the same selection returns 20 minus the
      clamped value. */
  lemma SetThenGet(tasks: seq<Task>, nice: map<int, int>, niceval: int, r: int)
    requires forall p :: p in tasks ==> p.id in nice && p.lsm != -ESRCH
    requires Folded(Refusals(tasks, nice, Clamp(niceval))) == 0
    requires IsBest(tasks, NiceAfter(tasks, nice, Clamp(niceval)), r)
    ensures r == 20 - Clamp(niceval)
  {
    var refusals := Refusals(tasks, nice, Clamp(niceval));
    ZeroMeansAllAccepted(refusals);
    forall p | p in tasks ensures NiceAfter(tasks, nice, Clamp(niceval))[p.id] == Clamp(niceval) {
      var k :| 0 <= k < |tasks| && tasks[k] == p;
      assert refusals[k] == 0;
    }
  }

  // ---------------------------------------------------------------------------
  // Sequences of setpriority calls

  datatype Call = Call(which: int, tasks: seq<Task>, niceval: int)

  ghost function After(nice: map<int, int>, calls: seq<Call>): map<int, int>
    decreases calls
  {
    if calls == [] then nice else After(NiceAfterCall(nice, calls[0]), calls[1..])
  }

  ghost function NiceAfterCall(nice: map<int, int>, c: Call): map<int, int> {
    if ValidWhich(c.which) then NiceAfter(c.tasks, nice, Clamp(c.niceval)) else nice
  }

  /** The value of -20 to 19 nearest to v. */
  ghost predicate Nearest(v: int, r: int) {
    -20 <= r <= 19 && forall x :: -20 <= x <= 19 ==> Distance(v, r) <= Distance(v, x)
  }

  function Distance(a: int, b: int): int {
    if a < b then b - a else a - b
  }

  lemma ClampIsNearest(v: int, r: int)
    ensures Clamp(v) == r <==> Nearest(v, r)
  {
    var c := Clamp(v);
    assert Distance(v, c) == if v < -20 then -20 - v else if v > 19 then v - 19 else 0;
    if Nearest(v, r) {
      assert Distance(v, r) <= Distance(v, c);
    }
  }

  /** The call sets this task: it is selected with permission and the hook agrees, and the value
      is no lower than the present one or the task may be raised. */
  ghost predicate Sets(nice: map<int, int>, c: Call, id: int, r: int)
    requires id in nice
  {
    && 0 <= c.which <= 2 && Nearest(c.niceval, r)
    && exists p :: p in c.tasks && p.id == id && p.permitted && p.lsm == 0 && (r >= nice[id] || p.canNice)
  }

  /** Whatever else a call selects, a task's value changes exactly as its own permissions say. */
  lemma OneCall(nice: map<int, int>, c: Call, id: int)
    requires id in nice
    ensures id in NiceAfterCall(nice, c)
    ensures forall r :: Sets(nice, c, id, r) ==> NiceAfterCall(nice, c)[id] == r
    ensures (forall r :: !Sets(nice, c, id, r)) ==> NiceAfterCall(nice, c)[id] == nice[id]
  {
    ClampIsNearest(c.niceval, Clamp(c.niceval));
    forall r | Sets(nice, c, id, r) ensures NiceAfterCall(nice, c)[id] == r {
      ClampIsNearest(c.niceval, r);
      var p :| p in c.tasks && p.id == id && p.permitted && p.lsm == 0 && (r >= nice[id] || p.canNice);
      assert Refusal(p, nice[id], r) == 0;
    }
    if ValidWhich(c.which) && Accepts(c.tasks, nice, Clamp(c.niceval), id) {
      assert Sets(nice, c, id, Clamp(c.niceval));
    }
  }

  ghost predicate MayRaise(calls: seq<Call>, id: int) {
    exists i, p :: 0 <= i < |calls| && p in calls[i].tasks && p.id == id && p.canNice
  }

  /** A task that may not be raised never gets a lower value, over any sequence of calls, and a
      task in range stays in range. */
  lemma {:induction false} NiceOnlyRises(nice: map<int, int>, calls: seq<Call>, id: int)
    requires id in nice
    ensures id in After(nice, calls)
    ensures !MayRaise(calls, id) ==> After(nice, calls)[id] >= nice[id]
    ensures -20 <= nice[id] <= 19 ==> -20 <= After(nice, calls)[id] <= 19
    decreases calls
  {
    if calls == [] {
    } else {
      var c, next := calls[0], NiceAfterCall(nice, calls[0]);
      OneCall(nice, c, id);
      if r :| Sets(nice, c, id, r) {
        assert !MayRaise(calls, id) ==> r >= nice[id];
      }
      NiceOnlyRises(next, calls[1..], id);
      if MayRaise(calls[1..], id) {
        var i, p :| 0 <= i < |calls[1..]| && p in calls[1..][i].tasks && p.id == id && p.canNice;
        assert p in calls[i + 1].tasks;
      }
    }
  }

  /** And so a permitted task that may not be raised can be brought to exactly the values from its
      present one up to 19. */
  ghost predicate CanBecome(nice: map<int, int>, id: int, v: int)
    requires id in nice
  {
    exists calls :: !MayRaise(calls, id) && id in After(nice, calls) && After(nice, calls)[id] == v
  }

  lemma WithinReachExactly(nice: map<int, int>, id: int, v: int)
    requires id in nice && -20 <= nice[id] <= 19
    ensures CanBecome(nice, id, v) <==> nice[id] <= v <= 19
  {
    if CanBecome(nice, id, v) {
      var calls :| !MayRaise(calls, id) && id in After(nice, calls) && After(nice, calls)[id] == v;
      NiceOnlyRises(nice, calls, id);
    }
    if nice[id] <= v <= 19 {
      var p := Task(id, true, false, 0);
      var c := Call(0, [p], v);
      OneCall(nice, c, id);
      assert p in c.tasks && Nearest(v, v);
      assert Sets(nice, c, id, v);
      assert After(nice, [c]) == After(NiceAfterCall(nice, c), [c][1..]) == NiceAfterCall(nice, c);
      assert !MayRaise([c], id);
    }
  }

  /** Two tasks, the first refused by a security hook with -ESRCH: setpriority(5) returns 0 and
      the first keeps its value. */
  lemma HookCanHideRefusal()
    ensures var tasks := [Task(1, true, true, -ESRCH), Task(2, true, true, 0)];
            var nice := map[1 := 0, 2 := 0];
            && Folded(Refusals(tasks, nice, Clamp(5))) == 0
            && NiceAfter(tasks, nice, Clamp(5)) == map[1 := 0, 2 := 5]
  {
    var tasks := [Task(1, true, true, -ESRCH), Task(2, true, true, 0)];
    var nice := map[1 := 0, 2 := 0];
    assert Refusals(tasks, nice, 5) == [-ESRCH, 0];
    ZeroExactly([-ESRCH, 0]);
    assert tasks[1] in tasks;
  }
}
