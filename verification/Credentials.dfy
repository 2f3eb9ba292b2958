/** The calls that change user and group ids: setreuid, setuid, setresuid, setfsuid and their
    group counterparts.

    Arguments are ids already translated into the kernel's own numbering: `Unchanged` is the
    value -1, `Unmapped` an id with no translation. What the model cannot see of the
    surrounding kernel, such as the capability test and the security hook, is answered anew
    for each call by an `Env`.
  */
module Credentials {

  const EPERM: int := 1
  const EAGAIN: int := 11
  const ENOMEM: int := 12
  const EINVAL: int := 22

  datatype Arg = Unchanged | Unmapped | Id(k: int)

  /** `user` is the id whose user struct the credentials hold. */
  datatype Cred = Cred(uid: int, euid: int, suid: int, fsuid: int, user: int)

  datatype GroupCred = GroupCred(gid: int, egid: int, sgid: int, fsgid: int)

  /** capable: the set-id capability is held; memory: prepare_creds succeeds; userFound:
      alloc_uid succeeds; lsm: the value of the security hook. */
  datatype Env = Env(capable: bool, memory: bool, userFound: bool, lsm: int)

  datatype Call =
    | Setreuid(ruid: Arg, euid: Arg)
    | Setuid(uid: Arg)
    | Setresuid(ruid: Arg, euid: Arg, suid: Arg)
    | Setfsuid(uid: Arg)

  /** `ret` is the value returned to the caller, `committed` whether commit_creds was reached. */
  datatype Outcome = Outcome(ret: int, cred: Cred, committed: bool)

  // ---------------------------------------------------------------------------
  // The calls as transformations of the credentials

  function Pick(a: Arg, was: int): int {
    if a.Id? then a.k else was
  }

  function Fail(was: Cred, err: int): Outcome {
    Outcome(-err, was, false)
  }

  /** set_user when the uid changed, then the security hook, then commit. */
  function Commit(was: Cred, next: Cred, env: Env): Outcome {
    if next.uid != was.uid && !env.userFound then Fail(was, EAGAIN)
    else if env.lsm < 0 then Outcome(env.lsm, was, false)
    else Outcome(0, next.(user := if next.uid != was.uid then next.uid else was.user), true)
  }

  function DoSetreuid(was: Cred, ruid: Arg, euid: Arg, env: Env): Outcome {
    if ruid.Unmapped? || euid.Unmapped? then Fail(was, EINVAL)
    else if !env.memory then Fail(was, ENOMEM)
    else if ruid.Id? && ruid.k !in {was.uid, was.euid} && !env.capable then Fail(was, EPERM)
    else if euid.Id? && euid.k !in {was.uid, was.euid, was.suid} && !env.capable then Fail(was, EPERM)
    else
      var e := Pick(euid, was.euid);
      var s := if ruid.Id? || (euid.Id? && euid.k != was.uid) then e else was.suid;
      Commit(was, Cred(Pick(ruid, was.uid), e, s, e, was.user), env)
  }

  function DoSetuid(was: Cred, uid: Arg, env: Env): Outcome {
    if !uid.Id? then Fail(was, EINVAL)
    else if !env.memory then Fail(was, ENOMEM)
    else if env.capable then Commit(was, Cred(uid.k, uid.k, uid.k, uid.k, was.user), env)
    else if uid.k !in {was.uid, was.suid} then Fail(was, EPERM)
    else Commit(was, was.(euid := uid.k, fsuid := uid.k), env)
  }

  function DoSetresuid(was: Cred, ruid: Arg, euid: Arg, suid: Arg, env: Env): Outcome {
    var mine := {was.uid, was.euid, was.suid};
    if ruid.Unmapped? || euid.Unmapped? || suid.Unmapped? then Fail(was, EINVAL)
    else if !env.memory then Fail(was, ENOMEM)
    else if !env.capable && ((ruid.Id? && ruid.k !in mine) || (euid.Id? && euid.k !in mine) ||
                             (suid.Id? && suid.k !in mine)) then Fail(was, EPERM)
    else
      var e := Pick(euid, was.euid);
      Commit(was, Cred(Pick(ruid, was.uid), e, Pick(suid, was.suid), e, was.user), env)
  }

  /** Always returns the previous fsuid, whether or not anything changed. */
  function DoSetfsuid(was: Cred, uid: Arg, env: Env): Outcome {
    if uid.Id? && env.memory && uid.k != was.fsuid && env.lsm == 0
       && (uid.k in {was.uid, was.euid, was.suid, was.fsuid} || env.capable)
    then Outcome(was.fsuid, was.(fsuid := uid.k), true)
    else Outcome(was.fsuid, was, false)
  }

  function Do(was: Cred, call: Call, env: Env): Outcome {
    match call
    case Setreuid(r, e) => DoSetreuid(was, r, e, env)
    case Setuid(u) => DoSetuid(was, u, env)
    case Setresuid(r, e, s) => DoSetresuid(was, r, e, s, env)
    case Setfsuid(u) => DoSetfsuid(was, u, env)
  }

  // ---------------------------------------------------------------------------
  // The calls as the kernel performs them: a fresh copy is edited field by field and then
  // either committed or dropped

  class Task {
    var cred: Cred

    constructor (c: Cred)
      ensures cred == c
    {
      cred := c;
    }

    method Setreuid(ruid: Arg, euid: Arg, env: Env) returns (ret: int)
      modifies this
      ensures Outcome(ret, cred, ret == 0) == DoSetreuid(old(cred), ruid, euid, env)
    {
      if ruid.Unmapped? {
        return -EINVAL;
      }
      if euid.Unmapped? {
        return -EINVAL;
      }
      if !env.memory {
        return -ENOMEM;
      }
      var next := cred;
      if ruid != Unchanged {
        next := next.(uid := ruid.k);
        if cred.uid != ruid.k && cred.euid != ruid.k && !env.capable {
          return -EPERM;
        }
      }
      if euid != Unchanged {
        next := next.(euid := euid.k);
        if cred.uid != euid.k && cred.euid != euid.k && cred.suid != euid.k && !env.capable {
          return -EPERM;
        }
      }
      if next.uid != cred.uid {
        if !env.userFound {
          return -EAGAIN;
        }
        next := next.(user := next.uid);
      }
      if ruid != Unchanged || (euid != Unchanged && euid.k != cred.uid) {
        next := next.(suid := next.euid);
      }
      next := next.(fsuid := next.euid);
      if env.lsm < 0 {
        return env.lsm;
      }
      cred := next;
      ret := 0;
    }

    method Setuid(uid: Arg, env: Env) returns (ret: int)
      modifies this
      ensures Outcome(ret, cred, ret == 0) == DoSetuid(old(cred), uid, env)
    {
      if uid == Unchanged || uid == Unmapped {
        return -EINVAL;
      }
      if !env.memory {
        return -ENOMEM;
      }
      var next := cred;
      if env.capable {
        next := next.(suid := uid.k, uid := uid.k);
        if uid.k != cred.uid {
          if !env.userFound {
            return -EAGAIN;
          }
          next := next.(user := next.uid);
        }
      } else if uid.k != cred.uid && uid.k != next.suid {
        return -EPERM;
      }
      next := next.(fsuid := uid.k, euid := uid.k);
      if env.lsm < 0 {
        return env.lsm;
      }
      cred := next;
      ret := 0;
    }

    method Setresuid(ruid: Arg, euid: Arg, suid: Arg, env: Env) returns (ret: int)
      modifies this
      ensures Outcome(ret, cred, ret == 0) == DoSetresuid(old(cred), ruid, euid, suid, env)
    {
      if ruid == Unmapped || euid == Unmapped || suid == Unmapped {
        return -EINVAL;
      }
      if !env.memory {
        return -ENOMEM;
      }
      if !env.capable {
        if ruid != Unchanged && ruid.k != cred.uid && ruid.k != cred.euid && ruid.k != cred.suid {
          return -EPERM;
        }
        if euid != Unchanged && euid.k != cred.uid && euid.k != cred.euid && euid.k != cred.suid {
          return -EPERM;
        }
        if suid != Unchanged && suid.k != cred.uid && suid.k != cred.euid && suid.k != cred.suid {
          return -EPERM;
        }
      }
      var next := cred;
      if ruid != Unchanged {
        next := next.(uid := ruid.k);
        if ruid.k != cred.uid {
          if !env.userFound {
            return -EAGAIN;
          }
          next := next.(user := next.uid);
        }
      }
      if euid != Unchanged {
        next := next.(euid := euid.k);
      }
      if suid != Unchanged {
        next := next.(suid := suid.k);
      }
      next := next.(fsuid := next.euid);
      if env.lsm < 0 {
        return env.lsm;
      }
      cred := next;
      ret := 0;
    }

    method Setfsuid(uid: Arg, env: Env) returns (ret: int)
      modifies this
      ensures ret == DoSetfsuid(old(cred), uid, env).ret && cred == DoSetfsuid(old(cred), uid, env).cred
    {
      ret := cred.fsuid;
      if !uid.Id? || !env.memory {
        return;
      }
      if uid.k == cred.uid || uid.k == cred.euid || uid.k == cred.suid || uid.k == cred.fsuid || env.capable {
        if uid.k != cred.fsuid {
          if env.lsm == 0 {
            cred := cred.(fsuid := uid.k);
          }
        }
      }
    }
  }

  // ---------------------------------------------------------------------------
  // The group calls: no user struct and no security hook

  datatype GroupOutcome = GroupOutcome(ret: int, cred: GroupCred)

  function DoSetregid(was: GroupCred, rgid: Arg, egid: Arg, env: Env): GroupOutcome {
    if rgid.Unmapped? || egid.Unmapped? then GroupOutcome(-EINVAL, was)
    else if !env.memory then GroupOutcome(-ENOMEM, was)
    else if rgid.Id? && !(was.gid == rgid.k || was.egid == rgid.k || env.capable) then GroupOutcome(-EPERM, was)
    else if egid.Id? && !(was.gid == egid.k || was.egid == egid.k || was.sgid == egid.k || env.capable)
    then GroupOutcome(-EPERM, was)
    else
      var n := was.(gid := Pick(rgid, was.gid), egid := Pick(egid, was.egid));
      var n' := if rgid.Id? || (egid.Id? && egid.k != was.gid) then n.(sgid := n.egid) else n;
      GroupOutcome(0, n'.(fsgid := n'.egid))
  }

  function DoSetgid(was: GroupCred, gid: Arg, env: Env): GroupOutcome {
    if !gid.Id? then GroupOutcome(-EINVAL, was)
    else if !env.memory then GroupOutcome(-ENOMEM, was)
    else if env.capable then GroupOutcome(0, GroupCred(gid.k, gid.k, gid.k, gid.k))
    else if gid.k == was.gid || gid.k == was.sgid then GroupOutcome(0, was.(egid := gid.k, fsgid := gid.k))
    else GroupOutcome(-EPERM, was)
  }

  predicate Foreign(was: GroupCred, a: Arg) {
    a.Id? && a.k != was.gid && a.k != was.egid && a.k != was.sgid
  }

  function DoSetresgid(was: GroupCred, rgid: Arg, egid: Arg, sgid: Arg, env: Env): GroupOutcome {
    if rgid.Unmapped? || egid.Unmapped? || sgid.Unmapped? then GroupOutcome(-EINVAL, was)
    else if !env.memory then GroupOutcome(-ENOMEM, was)
    else if !env.capable && (Foreign(was, rgid) || Foreign(was, egid) || Foreign(was, sgid))
    then GroupOutcome(-EPERM, was)
    else
      var n := was.(gid := Pick(rgid, was.gid), egid := Pick(egid, was.egid), sgid := Pick(sgid, was.sgid));
      GroupOutcome(0, n.(fsgid := n.egid))
  }

  function DoSetfsgid(was: GroupCred, gid: Arg, env: Env): GroupOutcome {
    if !gid.Id? || !env.memory then GroupOutcome(was.fsgid, was)
    else if (gid.k == was.gid || gid.k == was.egid || gid.k == was.sgid || gid.k == was.fsgid || env.capable)
            && gid.k != was.fsgid
    then GroupOutcome(was.fsgid, was.(fsgid := gid.k))
    else GroupOutcome(was.fsgid, was)
  }

  /** The group call that corresponds to a user call. */
  function DoGroup(was: GroupCred, call: Call, env: Env): GroupOutcome {
    match call
    case Setreuid(r, e) => DoSetregid(was, r, e, env)
    case Setuid(u) => DoSetgid(was, u, env)
    case Setresuid(r, e, s) => DoSetresgid(was, r, e, s, env)
    case Setfsuid(u) => DoSetfsgid(was, u, env)
  }

  // ---------------------------------------------------------------------------
  // Runs

  datatype Event = Event(call: Call, env: Env)

  function After(c: Cred, es: seq<Event>): Cred
    decreases es
  {
    if es == [] then c else After(Do(c, es[0].call, es[0].env).cred, es[1..])
  }

  ghost predicate Unprivileged(es: seq<Event>) {
    forall i :: 0 <= i < |es| ==> !es[i].env.capable
  }

  function Ids(c: Cred): set<int> {
    {c.uid, c.euid, c.suid}
  }

  function AllIds(c: Cred): set<int> {
    {c.uid, c.euid, c.suid, c.fsuid}
  }

  /** Without the capability, no run brings in an id that was not there from the start. */
  lemma {:induction false} NoNewIds(c: Cred, es: seq<Event>)
    requires Unprivileged(es)
    ensures Ids(After(c, es)) <= Ids(c)
    ensures AllIds(After(c, es)) <= AllIds(c)
    decreases es
  {
    if es == [] {
    } else {
      var d := Do(c, es[0].call, es[0].env).cred;
      assert !es[0].env.capable;
      assert Ids(d) <= Ids(c) && AllIds(d) <= AllIds(c);
      NoNewIds(d, es[1..]);
    }
  }

  ghost predicate CanBecome(c: Cred, r: int, e: int, s: int) {
    exists es :: Unprivileged(es) && var d := After(c, es); d.uid == r && d.euid == e && d.suid == s
  }

  /** Exactly the mixtures of its own three ids are within reach of a task without the
      capability. */
  lemma WithinReachExactly(c: Cred, r: int, e: int, s: int)
    ensures CanBecome(c, r, e, s) <==> {r, e, s} <= Ids(c)
  {
    forall es | Unprivileged(es) ensures Ids(After(c, es)) <= Ids(c) {
      NoNewIds(c, es);
    }
    if CanBecome(c, r, e, s) {
      var es :| Unprivileged(es) && var d := After(c, es); d.uid == r && d.euid == e && d.suid == s;
      assert {r, e, s} == Ids(After(c, es));
    }
    if {r, e, s} <= Ids(c) {
      assert r in {r, e, s} && e in {r, e, s} && s in {r, e, s};
      var mix := [Event(Setresuid(Id(r), Id(e), Id(s)), Env(false, true, true, 0))];
      var d := Do(c, mix[0].call, mix[0].env).cred;
      assert After(c, mix) == After(d, mix[1..]) == d;
      assert Unprivileged(mix) && d.uid == r && d.euid == e && d.suid == s;
    }
  }

  /** Dropping to one id is permanent: after a successful setreuid(u, u), or a successful setuid(u)
      with the capability, no run without the capability changes any of the four ids. */
  lemma DropIsPermanent(c: Cred, u: int, drop: Event, es: seq<Event>)
    requires || drop.call == Setreuid(Id(u), Id(u))
             || (drop.call == Setuid(Id(u)) && drop.env.capable)
    requires Do(c, drop.call, drop.env).ret == 0
    requires Unprivileged(es)
    ensures AllIds(After(c, [drop] + es)) == {u}
    ensures After(c, [drop] + es).user == Do(c, drop.call, drop.env).cred.user
  {
    var d := Do(c, drop.call, drop.env).cred;
    assert Do(c, drop.call, drop.env).committed;
    assert ([drop] + es)[1..] == es;
    assert AllIds(d) == {u};
    NoNewIds(d, es);
    assert After(c, [drop] + es).uid in AllIds(After(c, [drop] + es));
    UserKeptWithUid(d, es);
  }

  lemma {:induction false} UserKeptWithUid(c: Cred, es: seq<Event>)
    requires c.uid == c.euid == c.suid == c.fsuid && Unprivileged(es)
    ensures After(c, es).user == c.user
    decreases es
  {
    if es == [] {
    } else {
      assert !es[0].env.capable;
      assert Do(c, es[0].call, es[0].env).cred == c;
      UserKeptWithUid(c, es[1..]);
    }
  }

  // ---------------------------------------------------------------------------
  // Which calls are accepted, and what they leave

  /** An id the caller may take as its real, effective or saved id, out of `mine`. */
  predicate MayTake(a: Arg, mine: set<int>, capable: bool) {
    a.Id? ==> a.k in mine || capable
  }

  predicate WellFormed(call: Call) {
    match call
    case Setreuid(r, e) => !r.Unmapped? && !e.Unmapped?
    case Setuid(u) => u.Id?
    case Setresuid(r, e, s) => !r.Unmapped? && !e.Unmapped? && !s.Unmapped?
    case Setfsuid(u) => u.Id?
  }

  predicate Permitted(was: Cred, call: Call, capable: bool) {
    match call
    case Setreuid(r, e) =>
      MayTake(r, {was.uid, was.euid}, capable) && MayTake(e, {was.uid, was.euid, was.suid}, capable)
    case Setuid(u) => MayTake(u, {was.uid, was.suid}, capable)
    case Setresuid(r, e, s) =>
      var mine := {was.uid, was.euid, was.suid};
      MayTake(r, mine, capable) && MayTake(e, mine, capable) && MayTake(s, mine, capable)
    case Setfsuid(u) => MayTake(u, {was.uid, was.euid, was.suid, was.fsuid}, capable)
  }

  /** The real id the call asks for differs from the present one. */
  predicate NewUser(was: Cred, call: Call, capable: bool) {
    match call
    case Setreuid(r, _) => r.Id? && r.k != was.uid
    case Setuid(u) => capable && u.Id? && u.k != was.uid
    case Setresuid(r, _, _) => r.Id? && r.k != was.uid
    case Setfsuid(_) => false
  }

  /** setreuid, setuid and setresuid commit exactly if the ids have a translation, memory is
      there, the ids are permitted, a new real id finds its user struct, and the hook agrees;
      and the first of these that fails gives the code. */
  lemma CommitsExactly(was: Cred, call: Call, env: Env)
    requires !call.Setfsuid?
    ensures var o := Do(was, call, env);
            var user := NewUser(was, call, env.capable) ==> env.userFound;
            && (o.committed <==>
                  WellFormed(call) && env.memory && Permitted(was, call, env.capable) && user && env.lsm >= 0)
            && (if !WellFormed(call) then o.ret == -EINVAL
                else if !env.memory then o.ret == -ENOMEM
                else if !Permitted(was, call, env.capable) then o.ret == -EPERM
                else if !user then o.ret == -EAGAIN
                else if env.lsm < 0 then o.ret == env.lsm
                else o.ret == 0)
  {
  }

  /** The ids after a call that committed: those asked for; the saved id follows the effective
      one if setreuid names a real id or an effective id other than the real one; the
      filesystem id follows the effective one; the user struct follows the real one. */
  lemma IdsAfter(was: Cred, call: Call, env: Env)
    requires Do(was, call, env).committed && !call.Setfsuid?
    ensures var c := Do(was, call, env).cred;
            && c.fsuid == c.euid
            && c.user == (if c.uid != was.uid then c.uid else was.user)
            && match call
               case Setreuid(r, e) =>
                 && c.uid == (if r == Unchanged then was.uid else r.k)
                 && c.euid == (if e == Unchanged then was.euid else e.k)
                 && c.suid == (if r == Unchanged && (e == Unchanged || e.k == was.uid) then was.suid else c.euid)
               case Setuid(u) =>
                 && c.euid == u.k
                 && (if env.capable then c.uid == c.suid == u.k else c.uid == was.uid && c.suid == was.suid)
               case Setresuid(r, e, s) =>
                 && c.uid == (if r == Unchanged then was.uid else r.k)
                 && c.euid == (if e == Unchanged then was.euid else e.k)
                 && c.suid == (if s == Unchanged then was.suid else s.k)
  {
  }

  /** setfsuid changes the filesystem id, and only that, exactly if the id is another one that is
      permitted and nothing else fails. */
  lemma SetfsuidExactly(was: Cred, u: Arg, env: Env)
    ensures var o := Do(was, Setfsuid(u), env);
            && (o.committed <==>
                  && u.Id? && u.k != was.fsuid && env.memory && env.lsm == 0
                  && Permitted(was, Setfsuid(u), env.capable))
            && o.cred == if o.committed then was.(fsuid := u.k) else was
  {
  }

  /** A set-user-id program that gives up its effective id by setuid to its real id can take the
      saved id back later, without the capability, exactly if it did not hold the capability when
      it gave it up, or there was nothing to give up. */
  lemma RegainExactly(was: Cred, env: Env, env': Env)
    requires env.memory && env.lsm >= 0 && !env'.capable && env'.memory && env'.lsm >= 0
    ensures var one := Do(was, Setuid(Id(was.uid)), env);
            var two := Do(one.cred, Setuid(Id(was.suid)), env');
            && one.ret == 0 && one.cred.euid == one.cred.fsuid == was.uid
            && (two.ret == 0 <==> !env.capable || was.suid == was.uid)
            && (two.ret == 0 ==> two.cred == was.(euid := was.suid, fsuid := was.suid))
  {
    CommitsExactly(was, Setuid(Id(was.uid)), env);
    IdsAfter(was, Setuid(Id(was.uid)), env);
  }

  // ---------------------------------------------------------------------------
  // Relations between the calls

  /** The setresuid call that does what a given call does. */
  function AsSetresuid(was: Cred, call: Call, env: Env): Call {
    match call
    case Setreuid(r, e) =>
      Setresuid(r, e, if r.Id? || (e.Id? && e.k != was.uid) then Id(Pick(e, was.euid)) else Unchanged)
    case Setuid(u) => if env.capable then Setresuid(u, u, u) else Setresuid(Unchanged, u, Unchanged)
    case _ => call
  }

  /** Every successful setreuid or setuid equals a setresuid call that is permitted in the same
      environment. The converse fails: see SetresuidDoesMore. */
  lemma SetresuidSubsumes(was: Cred, call: Call, env: Env)
    requires call.Setreuid? || call.Setuid?
    requires Do(was, call, env).committed
    ensures AsSetresuid(was, call, env).Setresuid?
    ensures Do(was, AsSetresuid(was, call, env), env) == Do(was, call, env)
  {
  }

  /** No setreuid or setuid call, with or without the capability, can set the saved id to the
      real id and leave the two others alone as this setresuid call does. */
  lemma SetresuidDoesMore(call: Call, env: Env)
    requires call.Setreuid? || call.Setuid?
    ensures var c := Cred(1, 2, 3, 2, 1);
            && Do(c, Setresuid(Unchanged, Unchanged, Id(1)), Env(false, true, true, 0)) ==
               Outcome(0, Cred(1, 2, 1, 2, 1), true)
            && Do(c, call, env).cred != Cred(1, 2, 1, 2, 1)
  {
  }

  /** Swapping the real and effective ids by setreuid twice restores both, and needs no
      capability either time. */
  lemma SwapTwiceRestores(was: Cred, env: Env, env': Env)
    requires env.memory && env.userFound && env.lsm >= 0
    requires env'.memory && env'.userFound && env'.lsm >= 0
    ensures var one := Do(was, Setreuid(Id(was.euid), Id(was.uid)), env);
            var two := Do(one.cred, Setreuid(Id(one.cred.euid), Id(one.cred.uid)), env');
            && one.committed && one.cred.uid == was.euid && one.cred.euid == was.uid
            && two.committed && two.cred.uid == was.uid && two.cred.euid == was.euid
            && (was.user == was.uid ==> two.cred.user == was.user)
  {
  }

  function AsGroup(c: Cred): GroupCred {
    GroupCred(c.uid, c.euid, c.suid, c.fsuid)
  }

  function AfterGroup(g: GroupCred, es: seq<Event>): GroupCred
    decreases es
  {
    if es == [] then g else AfterGroup(DoGroup(g, es[0].call, es[0].env).cred, es[1..])
  }

  ghost predicate NothingElseFails(es: seq<Event>) {
    forall i :: 0 <= i < |es| ==> es[i].env.userFound && es[i].env.lsm == 0
  }

  /** Each group call does what the user call does when set_user and the hook succeed. */
  lemma GroupStepSimulates(c: Cred, call: Call, env: Env)
    ensures var o := Do(c, call, env.(userFound := true, lsm := 0));
            DoGroup(AsGroup(c), call, env) == GroupOutcome(o.ret, AsGroup(o.cred))
  {
  }

  /** The group calls follow the user calls step for step, results included, whenever set_user
      and the security hook succeed. */
  lemma {:induction false} GroupCallsSimulate(c: Cred, es: seq<Event>)
    requires NothingElseFails(es)
    ensures AfterGroup(AsGroup(c), es) == AsGroup(After(c, es))
    ensures forall i :: 0 <= i < |es| ==>
              DoGroup(AfterGroup(AsGroup(c), es[..i]), es[i].call, es[i].env).ret ==
              Do(After(c, es[..i]), es[i].call, es[i].env).ret
    decreases es
  {
    if es == [] {
    } else {
      var e := es[0];
      var d := Do(c, e.call, e.env).cred;
      assert e.env.userFound && e.env.lsm == 0;
      assert e.env.(userFound := true, lsm := 0) == e.env;
      GroupStepSimulates(c, e.call, e.env);
      GroupCallsSimulate(d, es[1..]);
      forall i | 0 <= i < |es|
        ensures DoGroup(AfterGroup(AsGroup(c), es[..i]), es[i].call, es[i].env).ret ==
                Do(After(c, es[..i]), es[i].call, es[i].env).ret
      {
        if i > 0 {
          assert es[..i][1..] == es[1..][..i - 1];
          assert es[i] == es[1..][i - 1];
        }
      }
    }
  }

  // ---------------------------------------------------------------------------
  // What every committed call leaves behind

  /** The credentials together with the last call that committed. */
  datatype History = Fresh | Last(call: Call)

  function LastCommitted(c: Cred, es: seq<Event>, h: History): History
    decreases es
  {
    if es == [] then h
    else
      var o := Do(c, es[0].call, es[0].env);
      LastCommitted(o.cred, es[1..], if o.committed then Last(es[0].call) else h)
  }

  ghost predicate Settled(c: Cred, h: History) {
    c.user == c.uid && (c.fsuid != c.euid ==> h.Last? && h.call.Setfsuid?)
  }

  /** In every run the user struct is the one for the uid, and fsuid differs from euid only if
      the last committed call was setfsuid. */
  lemma {:induction false} CredentialsStaySettled(c: Cred, es: seq<Event>, h: History)
    requires Settled(c, h)
    ensures Settled(After(c, es), LastCommitted(c, es, h))
    decreases es
  {
    if es == [] {
    } else {
      var o := Do(c, es[0].call, es[0].env);
      CredentialsStaySettled(o.cred, es[1..], if o.committed then Last(es[0].call) else h);
    }
  }

  /** A call that does not commit changes nothing, and apart from setfsuid the caller can tell:
      the result is negative exactly then. */
  lemma FailureLeavesCredentials(c: Cred, call: Call, env: Env)
    ensures !Do(c, call, env).committed ==> Do(c, call, env).cred == c
    ensures !call.Setfsuid? ==> (Do(c, call, env).committed <==> Do(c, call, env).ret == 0)
    ensures !call.Setfsuid? ==> (!Do(c, call, env).committed <==> Do(c, call, env).ret < 0)
    ensures call.Setfsuid? ==> Do(c, call, env).ret == c.fsuid
  {
  }
}
