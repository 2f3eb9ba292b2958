/** Process groups and sessions: setpgid, setsid, and the fork, exec and exit that run between
    them, as POSIX.1-2017 describes process groups and sessions.

    A process is known by the pid of its thread-group leader; other threads only matter because
    naming one of them in setpgid is an error.
  */
module Sessions {

  const EPERM: int := 1
  const ESRCH: int := 3
  const EACCES: int := 13
  const EINVAL: int := 22

  /** `forked` is PF_FORKNOEXEC; `leader` is the session-leader bit of the signal struct. */
  datatype Proc = Proc(parent: int, pgid: int, sid: int, leader: bool, forked: bool)

  /** `threads` holds the thread ids that are not thread-group leaders. */
  datatype Table = Table(procs: map<int, Proc>, threads: set<int>)

  // ---------------------------------------------------------------------------
  // The two calls

  /** The process the call names, after the two zero conventions. */
  function Target(cur: int, pid: int): int {
    if pid == 0 then cur else pid
  }

  function Group(cur: int, pid: int, pgid: int): int {
    if pgid == 0 then Target(cur, pid) else pgid
  }

  predicate InGroup(t: Table, member: int, pgid: int) {
    member in t.procs && t.procs[member].pgid == pgid
  }

  ghost predicate GroupExists(t: Table, pgid: int) {
    exists p :: InGroup(t, p, pgid)
  }

  /** `member` stands for the kernel's choice of a task of the group `pgid`, if there is one. */
  ghost predicate PicksMember(t: Table, pgid: int, member: int) {
    GroupExists(t, pgid) ==> InGroup(t, member, pgid)
  }

  /** The result of setpgid; `lsm` is what the security hook answers. */
  function SetpgidResult(t: Table, cur: int, pid: int, pgid: int, member: int, lsm: int): int
    requires cur in t.procs
  {
    var p := Target(cur, pid);
    var g := Group(cur, pid, pgid);
    if g < 0 then -EINVAL
    else if p in t.threads then -EINVAL
    else if p !in t.procs then -ESRCH
    else if t.procs[p].parent == cur && t.procs[p].sid != t.procs[cur].sid then -EPERM
    else if t.procs[p].parent == cur && !t.procs[p].forked then -EACCES
    else if t.procs[p].parent != cur && p != cur then -ESRCH
    else if t.procs[p].leader then -EPERM
    else if g != p && (!InGroup(t, member, g) || t.procs[member].sid != t.procs[cur].sid) then -EPERM
    else lsm
  }

  function AfterSetpgid(t: Table, cur: int, pid: int, pgid: int, member: int, lsm: int): Table
    requires cur in t.procs
  {
    var p := Target(cur, pid);
    if SetpgidResult(t, cur, pid, pgid, member, lsm) == 0 && p in t.procs
    then t.(procs := t.procs[p := t.procs[p].(pgid := Group(cur, pid, pgid))])
    else t
  }

  ghost predicate MaySetsid(t: Table, cur: int)
    requires cur in t.procs
  {
    !t.procs[cur].leader && !GroupExists(t, cur)
  }

  ghost function SetsidResult(t: Table, cur: int): int
    requires cur in t.procs
  {
    if MaySetsid(t, cur) then cur else -EPERM
  }

  ghost function AfterSetsid(t: Table, cur: int): Table
    requires cur in t.procs
  {
    if MaySetsid(t, cur)
    then t.(procs := t.procs[cur := t.procs[cur].(leader := true, sid := cur, pgid := cur)])
    else t
  }

  // ---------------------------------------------------------------------------
  // The task table as the kernel updates it

  class Tasks {
    var procs: map<int, Proc>
    var threads: set<int>

    ghost function Now(): Table
      reads this
    {
      Table(procs, threads)
    }

    method Setpgid(cur: int, pid: int, pgid: int, member: int, lsm: int) returns (err: int)
      requires cur in procs
      modifies this
      ensures var p := if pid == 0 then cur else pid;
              var g := if pgid == 0 then p else pgid;
              threads == old(threads) &&
              if err == 0 then p in old(procs) && procs == old(procs)[p := old(procs)[p].(pgid := g)]
              else procs == old(procs)
      ensures err == SetpgidResult(old(Now()), cur, pid, pgid, member, lsm)
      ensures Now() == AfterSetpgid(old(Now()), cur, pid, pgid, member, lsm)
    {
      var p, g := pid, pgid;
      if p == 0 {
        p := cur;
      }
      if g == 0 {
        g := p;
      }
      if g < 0 || p in threads {
        return -EINVAL;
      }
      if p !in procs {
        return -ESRCH;
      }
      if procs[p].parent == cur {
        if procs[p].sid != procs[cur].sid {
          return -EPERM;
        }
        if !procs[p].forked {
          return -EACCES;
        }
      } else if p != cur {
        return -ESRCH;
      }
      if procs[p].leader {
        return -EPERM;
      }
      if g != p {
        if !(member in procs && procs[member].pgid == g) || procs[member].sid != procs[cur].sid {
          return -EPERM;
        }
      }
      err := lsm;
      if err == 0 && procs[p].pgid != g {
        procs := procs[p := procs[p].(pgid := g)];
      }
    }

    method Setsid(cur: int) returns (err: int)
      requires cur in procs
      modifies this
      ensures err == SetsidResult(old(Now()), cur)
      ensures Now() == AfterSetsid(old(Now()), cur)
    {
      err := -EPERM;
      if procs[cur].leader {
        return;
      }
      if p :| p in procs.Keys && procs[p].pgid == cur {
        assert InGroup(Now(), p, cur);
        return;
      }
      var me := procs[cur].(leader := true);
      if me.sid != cur {
        me := me.(sid := cur);
      }
      if me.pgid != cur {
        me := me.(pgid := cur);
      }
      procs := procs[cur := me];
      err := cur;
    }
  }

  // ---------------------------------------------------------------------------
  // Runs

  datatype Event =
    | Setpgid(cur: int, pid: int, pgid: int, member: int, lsm: int)
    | Setsid(cur: int)
    | Fork(cur: int, child: int)
    | Exec(cur: int)
    | SpawnThread(tid: int)
    | Exit(cur: int, reaper: int)

  /** A number is free for a new task while no task, group or session uses it. */
  ghost predicate Fresh(t: Table, pid: int) {
    && pid > 0 && pid !in t.procs && pid !in t.threads
    && forall p :: p in t.procs ==> t.procs[p].pgid != pid && t.procs[p].sid != pid
  }

  ghost predicate Enabled(t: Table, e: Event) {
    match e
    case Setpgid(cur, pid, pgid, member, lsm) =>
      cur in t.procs && PicksMember(t, Group(cur, pid, pgid), member)
    case Setsid(cur) => cur in t.procs
    case Fork(cur, child) => cur in t.procs && Fresh(t, child)
    case Exec(cur) => cur in t.procs
    case SpawnThread(tid) => Fresh(t, tid)
    case Exit(cur, reaper) =>
      // children go to a process that is not one of them
      && cur in t.procs && reaper in t.procs
      && reaper != cur && t.procs[reaper].parent != cur
  }

  ghost function Step(t: Table, e: Event): Table
    requires Enabled(t, e)
  {
    match e
    case Setpgid(cur, pid, pgid, member, lsm) => AfterSetpgid(t, cur, pid, pgid, member, lsm)
    case Setsid(cur) => AfterSetsid(t, cur)
    case Fork(cur, child) =>
      t.(procs := t.procs[child := t.procs[cur].(parent := cur, leader := false, forked := true)])
    case Exec(cur) => t.(procs := t.procs[cur := t.procs[cur].(forked := false)])
    case SpawnThread(tid) => t.(threads := t.threads + {tid})
    case Exit(cur, reaper) =>
      t.(procs := map p | p in t.procs && p != cur ::
                    if t.procs[p].parent == cur then t.procs[p].(parent := reaper) else t.procs[p])
  }

  ghost predicate Run(t: Table, es: seq<Event>, u: Table)
    decreases es
  {
    if es == [] then t == u else Enabled(t, es[0]) && Run(Step(t, es[0]), es[1..], u)
  }

  // ---------------------------------------------------------------------------
  // The invariant

  /** All members of a group are in one session. */
  ghost predicate GroupsWithinSessions(t: Table) {
    forall p, q :: p in t.procs && q in t.procs && t.procs[p].pgid == t.procs[q].pgid ==>
      t.procs[p].sid == t.procs[q].sid
  }

  /** A group named by a live process is in that process's session, even after the process
      itself has moved to another group. */
  ghost predicate GroupsFollowNamesakes(t: Table) {
    forall p, q :: p in t.procs && q in t.procs && t.procs[q].pgid == p ==>
      t.procs[q].sid == t.procs[p].sid
  }

  /** A session leader leads its own session and its own group. */
  ghost predicate LeadersInPlace(t: Table) {
    forall p :: p in t.procs && t.procs[p].leader ==> t.procs[p].sid == p && t.procs[p].pgid == p
  }

  /** A session is named by a live process only if that process leads it. */
  ghost predicate SessionsHaveLeaders(t: Table) {
    forall p, q :: p in t.procs && q in t.procs && t.procs[q].sid == p ==> t.procs[p].leader
  }

  ghost predicate Inv(t: Table) {
    && GroupsWithinSessions(t) && GroupsFollowNamesakes(t)
    && LeadersInPlace(t) && SessionsHaveLeaders(t)
    && (forall p :: p in t.procs ==> p > 0 && p !in t.threads && t.procs[p].parent != p)
  }

  lemma SetpgidKeepsInv(t: Table, cur: int, pid: int, pgid: int, member: int, lsm: int)
    requires Inv(t) && Enabled(t, Setpgid(cur, pid, pgid, member, lsm))
    ensures Inv(AfterSetpgid(t, cur, pid, pgid, member, lsm))
  {
  }

  lemma SetsidKeepsInv(t: Table, cur: int)
    requires Inv(t) && cur in t.procs
    ensures Inv(AfterSetsid(t, cur))
  {
    assert forall p :: p in t.procs && t.procs[p].pgid == cur ==> InGroup(t, p, cur);
  }

  lemma StepKeepsInv(t: Table, e: Event)
    requires Inv(t) && Enabled(t, e)
    ensures Inv(Step(t, e))
  {
    match e
    case Setpgid(cur, pid, pgid, member, lsm) => SetpgidKeepsInv(t, cur, pid, pgid, member, lsm);
    case Setsid(cur) => SetsidKeepsInv(t, cur);
    case Fork(cur, child) => ForkKeepsInv(t, cur, child);
    case Exec(_) =>
    case SpawnThread(_) =>
    case Exit(cur, reaper) => ExitKeepsInv(t, cur, reaper);
  }

  lemma ForkKeepsInv(t: Table, cur: int, child: int)
    requires Inv(t) && Enabled(t, Fork(cur, child))
    ensures Inv(Step(t, Fork(cur, child)))
  {
  }

  lemma ExitKeepsInv(t: Table, cur: int, reaper: int)
    requires Inv(t) && Enabled(t, Exit(cur, reaper))
    ensures Inv(Step(t, Exit(cur, reaper)))
  {
  }

  lemma {:induction false} RunKeepsInv(t: Table, es: seq<Event>, u: Table)
    requires Inv(t) && Run(t, es, u)
    ensures Inv(u)
    decreases es
  {
    if es == [] {
    } else {
      StepKeepsInv(t, es[0]);
      RunKeepsInv(Step(t, es[0]), es[1..], u);
    }
  }

  /** The first process, before it has called anything: group and session 0. */
  const BOOT: Table := Table(map[1 := Proc(0, 0, 0, false, false)], {})

  ghost predicate Reachable(t: Table) {
    exists es :: Run(BOOT, es, t)
  }

  // ---------------------------------------------------------------------------
  // Main results

  /** What every run keeps. */
  lemma SessionsStayConsistent(t: Table)
    requires Reachable(t)
    ensures GroupsWithinSessions(t) && GroupsFollowNamesakes(t)
    ensures LeadersInPlace(t) && SessionsHaveLeaders(t)
    ensures Inv(t)
  {
    var es :| Run(BOOT, es, t);
    RunKeepsInv(BOOT, es, t);
  }

  /** The target is the caller, or its child in the same session that has not called exec. */
  predicate MayMove(t: Table, cur: int, p: int)
    requires cur in t.procs
  {
    && p in t.procs
    && (p == cur || (t.procs[p].parent == cur && t.procs[p].forked && t.procs[p].sid == t.procs[cur].sid))
  }

  /** The group is to be the target's own, or exists in the caller's session. */
  ghost predicate MayJoin(t: Table, cur: int, p: int, g: int)
    requires cur in t.procs
  {
    g == p || (GroupExists(t, g) &&
               forall q :: q in t.procs && t.procs[q].pgid == g ==> t.procs[q].sid == t.procs[cur].sid)
  }

  ghost predicate MaySetpgid(t: Table, cur: int, p: int, g: int)
    requires cur in t.procs
  {
    g >= 0 && MayMove(t, cur, p) && !t.procs[p].leader && MayJoin(t, cur, p, g)
  }

  /** setpgid accepts exactly the live process itself, or a child in the caller's session that
      has not called exec, when it leads no session and the group is its own pid or an existing
      group of the caller's session. Which member of that group the kernel looks at is
      irrelevant. What it accepts is left to the security hook. */
  lemma SetpgidAcceptsExactly(t: Table, cur: int, pid: int, pgid: int, member: int, lsm: int)
    requires Inv(t) && cur in t.procs && PicksMember(t, Group(cur, pid, pgid), member)
    ensures var p := if pid == 0 then cur else pid;
            var g := if pgid == 0 then p else pgid;
            && (SetpgidResult(t, cur, pid, pgid, member, lsm) == 0 <==> lsm == 0 && MaySetpgid(t, cur, p, g))
            && (MaySetpgid(t, cur, p, g) ==> SetpgidResult(t, cur, pid, pgid, member, lsm) == lsm)
  {
    var g := Group(cur, pid, pgid);
    if InGroup(t, member, g) {
      assert GroupExists(t, g);
    }
  }

  /** Which error a refused call gets: EINVAL for a negative group or a thread, ESRCH for a
      target that is neither the caller nor its child, EACCES for a child of the session that
      has called exec, EPERM for everything else. */
  lemma SetpgidRefusesWith(t: Table, cur: int, pid: int, pgid: int, member: int)
    requires Inv(t) && cur in t.procs && PicksMember(t, Group(cur, pid, pgid), member)
    ensures var p := if pid == 0 then cur else pid;
            var g := if pgid == 0 then p else pgid;
            var r := SetpgidResult(t, cur, pid, pgid, member, 0);
            var valid := g >= 0 && p !in t.threads;
            var child := p in t.procs && t.procs[p].parent == cur;
            && (r == -EINVAL <==> !valid)
            && (r == -ESRCH <==> valid && !child && p != cur)
            && (r == -EACCES <==> valid && child && t.procs[p].sid == t.procs[cur].sid && !t.procs[p].forked)
            && (r == -EPERM <==>
                  || (valid && child && t.procs[p].sid != t.procs[cur].sid)
                  || (valid && MayMove(t, cur, p) && (t.procs[p].leader || !MayJoin(t, cur, p, g))))
  {
    var g := Group(cur, pid, pgid);
    if InGroup(t, member, g) {
      assert GroupExists(t, g);
    }
  }

  /** An accepted call puts the target, and nothing else, into the group, which then exists; a
      refused one changes nothing. */
  lemma SetpgidMoves(t: Table, cur: int, pid: int, pgid: int, member: int, lsm: int)
    requires Inv(t) && cur in t.procs && PicksMember(t, Group(cur, pid, pgid), member)
    ensures var p := if pid == 0 then cur else pid;
            var g := if pgid == 0 then p else pgid;
            var u := AfterSetpgid(t, cur, pid, pgid, member, lsm);
            if lsm == 0 && MaySetpgid(t, cur, p, g) then
              && u.threads == t.threads && u.procs.Keys == t.procs.Keys
              && u.procs[p] == t.procs[p].(pgid := g)
              && (forall q :: q in t.procs && q != p ==> u.procs[q] == t.procs[q])
              && GroupExists(u, g)
            else u == t
  {
    SetpgidAcceptsExactly(t, cur, pid, pgid, member, lsm);
    var p, g := Target(cur, pid), Group(cur, pid, pgid);
    var u := AfterSetpgid(t, cur, pid, pgid, member, lsm);
    if lsm == 0 && MaySetpgid(t, cur, p, g) {
      assert InGroup(u, p, g);
    }
  }

  // ---------------------------------------------------------------------------
  // Where a process is, over runs: the last event that moved it decides

  datatype Option<T> = None | Some(value: T)

  /** The group an event puts p into: by an accepted setpgid on p, by its own setsid, or by being
      forked. */
  ghost function MovedTo(t: Table, e: Event, p: int): Option<int>
    requires Enabled(t, e)
  {
    match e
    case Setpgid(cur, pid, pgid, _, lsm) =>
      var q := if pid == 0 then cur else pid;
      var g := if pgid == 0 then q else pgid;
      if q == p && lsm == 0 && MaySetpgid(t, cur, q, g) then Some(g) else None
    case Setsid(cur) => if cur == p && !GroupExists(t, p) then Some(p) else None
    case Fork(cur, child) => if child == p then Some(t.procs[cur].pgid) else None
    case _ => None
  }

  /** The session an event puts p into: by its own setsid, or by being forked. */
  ghost function JoinedSession(t: Table, e: Event, p: int): Option<int>
    requires Enabled(t, e)
  {
    match e
    case Setsid(cur) => if cur == p && !GroupExists(t, p) then Some(p) else None
    case Fork(cur, child) => if child == p then Some(t.procs[cur].sid) else None
    case _ => None
  }

  /** Whether p still runs its parent's program: forked, and no exec since. */
  ghost function LoadedBy(e: Event, p: int): Option<bool> {
    match e
    case Fork(_, child) => if child == p then Some(true) else None
    case Exec(cur) => if cur == p then Some(false) else None
    case _ => None
  }

  /** What the last events of a run say of p that say anything. */
  datatype Place = Place(group: Option<int>, session: Option<int>, loaded: Option<bool>)

  function Later<T>(first: Option<T>, later: Option<T>): Option<T> {
    if later.Some? then later else first
  }

  ghost function LastPlace(t: Table, es: seq<Event>, p: int): Place
    decreases es
  {
    if es == [] || !Enabled(t, es[0]) then Place(None, None, None)
    else
      var rest := LastPlace(Step(t, es[0]), es[1..], p);
      Place(Later(MovedTo(t, es[0], p), rest.group), Later(JoinedSession(t, es[0], p), rest.session),
            Later(LoadedBy(es[0], p), rest.loaded))
  }

  function Else<T>(o: Option<T>, was: T): T {
    if o.Some? then o.value else was
  }

  /** One event: p is where the event put it, or where it was. */
  lemma StepPlaces(t: Table, e: Event, p: int)
    requires Inv(t) && Enabled(t, e) && p in Step(t, e).procs
    ensures var u := Step(t, e);
            if e.Fork? && e.child == p then
              MovedTo(t, e, p) == Some(u.procs[p].pgid) && JoinedSession(t, e, p) == Some(u.procs[p].sid)
              && LoadedBy(e, p) == Some(u.procs[p].forked)
            else
              && p in t.procs
              && u.procs[p].pgid == Else(MovedTo(t, e, p), t.procs[p].pgid)
              && u.procs[p].sid == Else(JoinedSession(t, e, p), t.procs[p].sid)
              && u.procs[p].forked == Else(LoadedBy(e, p), t.procs[p].forked)
  {
    match e
    case Setpgid(cur, pid, pgid, member, lsm) => SetpgidMoves(t, cur, pid, pgid, member, lsm);
    case Setsid(cur) => assert t.procs[cur].leader ==> InGroup(t, cur, cur);
    case _ =>
  }

  /** Over any run a live process is in the group of the last accepted setpgid on it or of its
      own setsid, else in the one it was forked with; in the session of its own setsid, else in
      the one it was forked with; and it counts as forked exactly until its first exec. */
  lemma {:induction false} LastMoveDecides(t: Table, es: seq<Event>, u: Table, p: int)
    requires Inv(t) && Run(t, es, u) && p in u.procs
    ensures var last := LastPlace(t, es, p);
            if p in t.procs then
              && u.procs[p].pgid == Else(last.group, t.procs[p].pgid)
              && u.procs[p].sid == Else(last.session, t.procs[p].sid)
              && u.procs[p].forked == Else(last.loaded, t.procs[p].forked)
            else
              last == Place(Some(u.procs[p].pgid), Some(u.procs[p].sid), Some(u.procs[p].forked))
    decreases es
  {
    if es == [] {
    } else {
      StepKeepsInv(t, es[0]);
      LastMoveDecides(Step(t, es[0]), es[1..], u, p);
      if p in Step(t, es[0]).procs {
        StepPlaces(t, es[0], p);
      }
    }
  }

  /** The calls by which a process moves itself, or leaves. */
  predicate MovesItself(e: Event, p: int) {
    (e.Setpgid? || e.Setsid? || e.Exit?) && e.cur == p
  }

  /** Once a process has called exec, nobody else moves it: over any run in which it makes none of
      these calls itself, it keeps its group and its session. */
  lemma {:induction false} OthersCannotMoveIt(t: Table, es: seq<Event>, u: Table, p: int)
    requires Inv(t) && Run(t, es, u) && p in t.procs && !t.procs[p].forked
    requires forall i :: 0 <= i < |es| ==> !MovesItself(es[i], p)
    ensures p in u.procs && u.procs[p].pgid == t.procs[p].pgid && u.procs[p].sid == t.procs[p].sid
    decreases es
  {
    if es == [] {
    } else {
      assert !MovesItself(es[0], p);
      StepKeepsInv(t, es[0]);
      OthersCannotMoveIt(Step(t, es[0]), es[1..], u, p);
    }
  }

  /** A process changes session only by its own setsid, whatever setpgid calls are made on it. */
  lemma {:induction false} OnlySetsidChangesSession(t: Table, es: seq<Event>, u: Table, p: int)
    requires Inv(t) && Run(t, es, u) && p in t.procs
    requires forall i :: 0 <= i < |es| ==> !((es[i].Setsid? || es[i].Exit?) && es[i].cur == p)
    ensures p in u.procs && u.procs[p].sid == t.procs[p].sid
    decreases es
  {
    if es == [] {
    } else {
      assert !((es[0].Setsid? || es[0].Exit?) && es[0].cur == p);
      StepKeepsInv(t, es[0]);
      OnlySetsidChangesSession(Step(t, es[0]), es[1..], u, p);
    }
  }

  /** setsid fails exactly when the group named by the caller's pid exists; the separate test of
      the leader bit never decides. */
  lemma SetsidFailsExactly(t: Table, cur: int)
    requires Reachable(t) && cur in t.procs
    ensures SetsidResult(t, cur) == -EPERM <==> GroupExists(t, cur)
    ensures SetsidResult(t, cur) == cur <==> !GroupExists(t, cur)
  {
    SessionsStayConsistent(t);
    assert t.procs[cur].leader ==> InGroup(t, cur, cur);
  }

  /** A successful setsid leaves the caller alone in a new session and a new group. */
  lemma SetsidStartsEmptySession(t: Table, cur: int)
    requires Reachable(t) && cur in t.procs && SetsidResult(t, cur) == cur
    ensures var u := AfterSetsid(t, cur);
            && u.procs[cur].leader
            && (forall q :: q in u.procs ==> (u.procs[q].sid == cur <==> q == cur))
            && (forall q :: q in u.procs ==> (u.procs[q].pgid == cur <==> q == cur))
            && (forall q :: q in t.procs && q != cur ==> q in u.procs && u.procs[q] == t.procs[q])
  {
    SessionsStayConsistent(t);
    assert forall q :: q in t.procs && t.procs[q].pgid == cur ==> InGroup(t, q, cur);
  }

  lemma {:induction false} LeaderStays(t: Table, es: seq<Event>, u: Table, cur: int)
    requires Inv(t) && Run(t, es, u)
    requires cur in t.procs && t.procs[cur].leader
    requires forall i :: 0 <= i < |es| ==> !(es[i].Exit? && es[i].cur == cur)
    ensures cur in u.procs && u.procs[cur].leader
    decreases es
  {
    if es == [] {
    } else {
      StepKeepsInv(t, es[0]);
      assert !(es[0].Exit? && es[0].cur == cur);
      LeaderStays(Step(t, es[0]), es[1..], u, cur);
    }
  }

  /** setsid succeeds at most once per process: after a success, until the process exits, every
      further setsid fails and its session and group stay its own pid. */
  lemma SetsidSucceedsOnce(t: Table, cur: int, es: seq<Event>, u: Table)
    requires Reachable(t) && cur in t.procs && SetsidResult(t, cur) == cur
    requires Run(AfterSetsid(t, cur), es, u)
    requires forall i :: 0 <= i < |es| ==> !(es[i].Exit? && es[i].cur == cur)
    ensures cur in u.procs && SetsidResult(u, cur) == -EPERM
    ensures u.procs[cur].sid == cur && u.procs[cur].pgid == cur
  {
    SessionsStayConsistent(t);
    SetsidKeepsInv(t, cur);
    LeaderStays(AfterSetsid(t, cur), es, u, cur);
    RunKeepsInv(AfterSetsid(t, cur), es, u);
  }
}
