/** PR_SET_CHILD_SUBREAPER: marking every descendant of the caller with has_child_subreaper by a
    walk that skips the subtrees of tasks already marked and of child reapers.

    The process tree is kept the way the kernel links it: each task has a list of children and
    each child is followed by its siblings. The flags are sets of pids.
  */
module Subreaper {

  datatype Forest = Nil | Task(pid: int, children: Forest, siblings: Forest)

  function Pids(f: Forest): set<int> {
    match f
    case Nil => {}
    case Task(p, kids, sibs) => {p} + Pids(kids) + Pids(sibs)
  }

  /** Every pid occurs once. */
  ghost predicate Distinct(f: Forest) {
    match f
    case Nil => true
    case Task(p, kids, sibs) =>
      && p !in Pids(kids) && p !in Pids(sibs) && Pids(kids) !! Pids(sibs)
      && Distinct(kids) && Distinct(sibs)
  }

  // ---------------------------------------------------------------------------
  // The walk

  /** The flags after the kernel's walk over a list of children. */
  function Pruned(f: Forest, has: set<int>, reapers: set<int>): set<int> {
    match f
    case Nil => has
    case Task(p, kids, sibs) =>
      if p in has || p in reapers then Pruned(sibs, has, reapers)
      else Pruned(sibs, Pruned(kids, has + {p}, reapers), reapers)
  }

  lemma {:induction false} PrunedGrows(f: Forest, has: set<int>, reapers: set<int>)
    ensures has <= Pruned(f, has, reapers)
    decreases f
  {
    if f.Nil? {
    } else if f.pid in has || f.pid in reapers {
      PrunedGrows(f.siblings, has, reapers);
    } else {
      PrunedGrows(f.children, has + {f.pid}, reapers);
      PrunedGrows(f.siblings, Pruned(f.children, has + {f.pid}, reapers), reapers);
    }
  }

  /** What a walk cut only at child reapers reaches. */
  function Unpruned(f: Forest, reapers: set<int>): set<int> {
    match f
    case Nil => {}
    case Task(p, kids, sibs) =>
      (if p in reapers then {} else {p} + Unpruned(kids, reapers)) + Unpruned(sibs, reapers)
  }

  /** The flag is inherited: below a task that has it or is a subreaper itself (for the top of
      the list: if `above`), every child that is not a child reaper has it. */
  ghost predicate Inherited(f: Forest, has: set<int>, subs: set<int>, reapers: set<int>, above: bool) {
    match f
    case Nil => true
    case Task(p, kids, sibs) =>
      && (above && p !in reapers ==> p in has)
      && Inherited(kids, has, subs, reapers, p in has || p in subs)
      && Inherited(sibs, has, subs, reapers, above)
  }

  lemma {:induction false} UnprunedWithin(f: Forest, reapers: set<int>)
    ensures Unpruned(f, reapers) <= Pids(f)
  {
    if f.Nil? {
    } else {
      UnprunedWithin(f.children, reapers);
      UnprunedWithin(f.siblings, reapers);
    }
  }

  /** Inheritance depends only on the flags of tasks in the list, and gets weaker with
      `above`. */
  lemma {:induction false} Frame(f: Forest, has: set<int>, has': set<int>, subs: set<int>, subs': set<int>,
                                 reapers: set<int>, reapers': set<int>, above: bool, above': bool)
    requires Inherited(f, has, subs, reapers, above) && (above' ==> above)
    requires forall p :: p in Pids(f) ==> (p in has <==> p in has') && (p in subs' ==> p in subs)
    requires forall p :: p in Pids(f) ==> (p in reapers <==> p in reapers')
    ensures Inherited(f, has', subs', reapers', above')
  {
    if f.Nil? {
    } else {
      var p := f.pid;
      assert p in Pids(f);
      Frame(f.children, has, has', subs, subs', reapers, reapers', p in has || p in subs, p in has' || p in subs');
      Frame(f.siblings, has, has', subs, subs', reapers, reapers', above, above');
    }
  }

  /** Below a task that has the flag there is nothing left to mark. */
  lemma {:induction false} NothingLeftBelow(f: Forest, has: set<int>, subs: set<int>, reapers: set<int>)
    requires Inherited(f, has, subs, reapers, true)
    ensures Unpruned(f, reapers) <= has
  {
    if f.Nil? {
    } else {
      NothingLeftBelow(f.siblings, has, subs, reapers);
      if f.pid !in reapers {
        NothingLeftBelow(f.children, has, subs, reapers);
      }
    }
  }

  /** The pruned walk marks exactly what the unpruned one would. */
  lemma {:induction false} PruningIsExact(f: Forest, has: set<int>, subs: set<int>, reapers: set<int>)
    requires Distinct(f) && Inherited(f, has, subs, reapers, false)
    ensures Pruned(f, has, reapers) == has + Unpruned(f, reapers)
  {
    if f.Nil? {
    } else {
      var p, kids, sibs := f.pid, f.children, f.siblings;
      UnprunedWithin(kids, reapers);
      var has' := has;
      if p in has && p !in reapers {
        NothingLeftBelow(kids, has, subs, reapers);
      } else if p !in reapers {
        Frame(kids, has, has + {p}, subs, subs, reapers, reapers, p in has || p in subs, false);
        PruningIsExact(kids, has + {p}, subs, reapers);
        has' := has + {p} + Unpruned(kids, reapers);
      }
      Frame(sibs, has, has', subs, subs, reapers, reapers, false, false);
      PruningIsExact(sibs, has', subs, reapers);
    }
  }

  /** ... and leaves the flag inherited by the whole list. */
  lemma {:induction false} MarkingInherits(f: Forest, has: set<int>, subs: set<int>, reapers: set<int>)
    requires Distinct(f) && Inherited(f, has, subs, reapers, false)
    ensures Inherited(f, has + Unpruned(f, reapers), subs, reapers, true)
  {
    if f.Nil? {
    } else {
      var p, kids, sibs := f.pid, f.children, f.siblings;
      var has' := has + Unpruned(f, reapers);
      UnprunedWithin(kids, reapers);
      UnprunedWithin(sibs, reapers);
      if p in reapers {
        Frame(kids, has, has', subs, subs, reapers, reapers, p in has || p in subs, p in has' || p in subs);
      } else {
        Frame(kids, has, has, subs, subs, reapers, reapers, p in has || p in subs, false);
        MarkingInherits(kids, has, subs, reapers);
        Frame(kids, has + Unpruned(kids, reapers), has', subs, subs, reapers, reapers, true, true);
      }
      MarkingInherits(sibs, has, subs, reapers);
      Frame(sibs, has + Unpruned(sibs, reapers), has', subs, subs, reapers, reapers, true, true);
    }
  }

  // ---------------------------------------------------------------------------
  // The whole tree: prctl, fork and exit

  datatype State = State(forest: Forest, has: set<int>, subs: set<int>, reapers: set<int>)

  function Kids(f: Forest, me: int): Forest {
    match f
    case Nil => Nil
    case Task(p, kids, sibs) =>
      if p == me then kids else if me in Pids(kids) then Kids(kids, me) else Kids(sibs, me)
  }

  /** The tasks of a list, without their descendants. */
  function Roots(f: Forest): set<int> {
    match f
    case Nil => {}
    case Task(p, kids, sibs) => {p} + Roots(sibs)
  }

  /** One list after the other. */
  function Join(f: Forest, g: Forest): Forest {
    match f
    case Nil => g
    case Task(p, kids, sibs) => f.(siblings := Join(sibs, g))
  }

  /** `heir` gets the tasks of g as further children. */
  function Adopt(f: Forest, heir: int, g: Forest): Forest {
    match f
    case Nil => Nil
    case Task(p, kids, sibs) =>
      if p == heir then f.(children := Join(kids, g))
      else if heir in Pids(kids) then f.(children := Adopt(kids, heir, g))
      else f.(siblings := Adopt(sibs, heir, g))
  }

  /** The forest without a task and its descendants. */
  function Drop(f: Forest, gone: int): Forest {
    match f
    case Nil => Nil
    case Task(p, kids, sibs) =>
      if p == gone then sibs else Task(p, Drop(kids, gone), Drop(sibs, gone))
  }

  datatype Event =
    | SetSubreaper(me: int, on: bool)
    | Fork(parent: int, child: int, reaper: bool)
    | Exit(gone: int, heir: int)

  ghost predicate Enabled(s: State, e: Event) {
    match e
    case SetSubreaper(me, _) => me in Pids(s.forest)
    case Fork(parent, child, _) =>
      parent in Pids(s.forest) && child !in Pids(s.forest) + s.has + s.subs + s.reapers
    case Exit(gone, heir) =>
      // the children go to an ancestor in the same pid namespace: no child reaper in between
      heir in Pids(s.forest) && gone in Unpruned(Kids(s.forest, heir), s.reapers)
  }

  /** A new task inherits the flag from a parent that has it or is a subreaper. */
  function Step(s: State, e: Event): State {
    match e
    case SetSubreaper(me, on) =>
      if on then s.(subs := s.subs + {me}, has := Pruned(Kids(s.forest, me), s.has, s.reapers))
      else s.(subs := s.subs - {me})
    case Fork(parent, child, reaper) =>
      s.(forest := Adopt(s.forest, parent, Task(child, Nil, Nil)),
         has := s.has + (if parent in s.has || parent in s.subs then {child} else {}),
         reapers := s.reapers + (if reaper then {child} else {}))
    case Exit(gone, heir) =>
      s.(forest := Adopt(Drop(s.forest, gone), heir, Kids(s.forest, gone)),
         has := s.has - {gone}, subs := s.subs - {gone})
  }

  /** The flags of a tree whose tasks the kernel updates one by one. */
  class Tree {
    const forest: Forest
    const reapers: set<int>
    var has: set<int>
    var subs: set<int>

    constructor (s: State)
      ensures Now() == s
    {
      forest, has, subs, reapers := s.forest, s.has, s.subs, s.reapers;
    }

    ghost function Now(): State
      reads this
    {
      State(forest, has, subs, reapers)
    }

    /** The visitor: marks a task and tells the walk whether to enter its children. */
    method Propagate(pid: int) returns (descend: bool)
      modifies this`has
      ensures descend <==> pid !in old(has) && pid !in reapers
      ensures has == if descend then old(has) + {pid} else old(has)
    {
      if pid in has || pid in reapers {
        return false;
      }
      has := has + {pid};
      return true;
    }

    method Walk(f: Forest)
      modifies this`has
      ensures has == Pruned(f, old(has), reapers)
      decreases f
    {
      var rest := f;
      while rest.Task?
        invariant Pruned(rest, has, reapers) == Pruned(f, old(has), reapers)
        invariant rest == f || rest < f
        decreases rest
      {
        var descend := Propagate(rest.pid);
        if descend {
          Walk(rest.children);
        }
        rest := rest.siblings;
      }
    }

    method SetChildSubreaper(me: int, on: bool)
      modifies this
      ensures me in subs <==> on
      ensures forall q :: q != me ==> (q in subs <==> q in old(subs))
      ensures old(has) <= has && (!on ==> has == old(has))
      ensures Now() == Step(old(Now()), SetSubreaper(me, on))
    {
      PrunedGrows(Kids(forest, me), has, reapers);
      if !on {
        subs := subs - {me};
        return;
      }
      subs := subs + {me};
      Walk(Kids(forest, me));
    }
  }

  // ---------------------------------------------------------------------------
  // Every run keeps the flag inherited

  ghost predicate Inv(s: State) {
    Distinct(s.forest) && Inherited(s.forest, s.has, s.subs, s.reapers, false)
  }

  lemma {:induction false} KidsFacts(f: Forest, me: int, has: set<int>, subs: set<int>, reapers: set<int>, above: bool)
    requires Distinct(f) && me in Pids(f) && Inherited(f, has, subs, reapers, above)
    ensures Pids(Kids(f, me)) <= Pids(f) && me !in Pids(Kids(f, me)) && Distinct(Kids(f, me))
    ensures Inherited(Kids(f, me), has, subs, reapers, me in has || me in subs)
  {
    if f.pid == me {
    } else if me in Pids(f.children) {
      KidsFacts(f.children, me, has, subs, reapers, f.pid in has || f.pid in subs);
    } else {
      KidsFacts(f.siblings, me, has, subs, reapers, above);
    }
  }

  /** Marking below `me` keeps inheritance everywhere in the list. */
  lemma {:induction false} SetKeepsInherited(f: Forest, me: int, has: set<int>, subs: set<int>, reapers: set<int>, above: bool)
    requires Distinct(f) && me in Pids(f) && Inherited(f, has, subs, reapers, above)
    ensures Inherited(f, has + Unpruned(Kids(f, me), reapers), subs + {me}, reapers, above)
  {
    var p, kids, sibs := f.pid, f.children, f.siblings;
    var has', subs' := has + Unpruned(Kids(f, me), reapers), subs + {me};
    KidsFacts(f, me, has, subs, reapers, above);
    UnprunedWithin(Kids(f, me), reapers);
    var inKids := p in has || p in subs;
    if p == me {
      Frame(kids, has, has, subs, subs, reapers, reapers, inKids, false);
      MarkingInherits(kids, has, subs, reapers);
      Frame(kids, has', has', subs, subs', reapers, reapers, true, true);
      Frame(sibs, has, has', subs, subs', reapers, reapers, above, above);
    } else if me in Pids(kids) {
      KidsFacts(kids, me, has, subs, reapers, inKids);
      SetKeepsInherited(kids, me, has, subs, reapers, inKids);
      Frame(sibs, has, has', subs, subs', reapers, reapers, above, above);
    } else {
      KidsFacts(sibs, me, has, subs, reapers, above);
      SetKeepsInherited(sibs, me, has, subs, reapers, above);
      Frame(kids, has, has', subs, subs', reapers, reapers, inKids, inKids);
    }
  }

  lemma {:induction false} JoinFacts(f: Forest, g: Forest, has: set<int>, subs: set<int>, reapers: set<int>, above: bool)
    requires Distinct(f) && Distinct(g) && Pids(f) !! Pids(g)
    requires Inherited(f, has, subs, reapers, above) && Inherited(g, has, subs, reapers, above)
    ensures Pids(Join(f, g)) == Pids(f) + Pids(g) && Distinct(Join(f, g))
    ensures Inherited(Join(f, g), has, subs, reapers, above)
  {
    if f.Nil? {
    } else {
      JoinFacts(f.siblings, g, has, subs, reapers, above);
    }
  }

  /** Adding tasks that have the flag if their new parent passes it on keeps inheritance. */
  lemma {:induction false} AdoptKeepsInherited(f: Forest, heir: int, g: Forest, has: set<int>, subs: set<int>,
                                               reapers: set<int>, above: bool)
    requires Distinct(f) && heir in Pids(f) && Distinct(g) && Pids(f) !! Pids(g)
    requires Inherited(f, has, subs, reapers, above)
    requires Inherited(g, has, subs, reapers, heir in has || heir in subs)
    ensures Pids(Adopt(f, heir, g)) == Pids(f) + Pids(g) && Distinct(Adopt(f, heir, g))
    ensures Inherited(Adopt(f, heir, g), has, subs, reapers, above)
  {
    var flagged := f.pid in has || f.pid in subs;
    if f.pid == heir {
      JoinFacts(f.children, g, has, subs, reapers, flagged);
    } else if heir in Pids(f.children) {
      AdoptKeepsInherited(f.children, heir, g, has, subs, reapers, flagged);
    } else {
      AdoptKeepsInherited(f.siblings, heir, g, has, subs, reapers, above);
    }
  }

  lemma {:induction false} DropFacts(f: Forest, gone: int, has: set<int>, subs: set<int>, reapers: set<int>, above: bool)
    requires Distinct(f) && Inherited(f, has, subs, reapers, above)
    ensures Pids(Drop(f, gone)) <= Pids(f) && gone !in Pids(Drop(f, gone))
    ensures gone in Pids(f) ==> Pids(Drop(f, gone)) !! Pids(Kids(f, gone))
    ensures gone !in Pids(f) ==> Drop(f, gone) == f
    ensures Distinct(Drop(f, gone)) && Inherited(Drop(f, gone), has, subs, reapers, above)
  {
    if f.Nil? {
    } else {
      DropFacts(f.children, gone, has, subs, reapers, f.pid in has || f.pid in subs);
      DropFacts(f.siblings, gone, has, subs, reapers, above);
      if gone in Pids(f) {
        KidsFacts(f, gone, has, subs, reapers, above);
        if gone in Pids(f.children) {
          KidsFacts(f.children, gone, has, subs, reapers, f.pid in has || f.pid in subs);
        } else if gone in Pids(f.siblings) {
          KidsFacts(f.siblings, gone, has, subs, reapers, above);
        }
      }
    }
  }

  /** An ancestor is not dropped with its descendant. */
  lemma {:induction false} AncestorStays(f: Forest, heir: int, gone: int)
    requires Distinct(f) && heir in Pids(f) && gone in Pids(Kids(f, heir))
    ensures heir in Pids(Drop(f, gone)) && gone in Pids(f) && heir != gone
  {
    if f.pid == heir {
    } else if heir in Pids(f.children) {
      AncestorStays(f.children, heir, gone);
    } else {
      AncestorStays(f.siblings, heir, gone);
    }
  }

  /** The children of an exiting task go to an ancestor that passes the flag on only if the
      exiting task had it. */
  lemma ExitKeepsInv(s: State, gone: int, heir: int)
    requires Inv(s) && Enabled(s, Exit(gone, heir))
    ensures Inv(Step(s, Exit(gone, heir)))
  {
    var t := Step(s, Exit(gone, heir));
    var f, kids := s.forest, Kids(s.forest, gone);
    UnprunedWithin(Kids(f, heir), s.reapers);
    AncestorStays(f, heir, gone);
    KidsFacts(f, heir, s.has, s.subs, s.reapers, false);
    KidsFacts(f, gone, s.has, s.subs, s.reapers, false);
    DropFacts(f, gone, s.has, s.subs, s.reapers, false);
    if heir in s.has || heir in s.subs {
      NothingLeftBelow(Kids(f, heir), s.has, s.subs, s.reapers);
    }
    Frame(Drop(f, gone), s.has, t.has, s.subs, t.subs, s.reapers, s.reapers, false, false);
    Frame(kids, s.has, t.has, s.subs, t.subs, s.reapers, s.reapers, gone in s.has || gone in s.subs,
          heir in t.has || heir in t.subs);
    AdoptKeepsInherited(Drop(f, gone), heir, kids, t.has, t.subs, t.reapers, false);
  }

  lemma StepKeepsInv(s: State, e: Event)
    requires Inv(s) && Enabled(s, e)
    ensures Inv(Step(s, e))
  {
    var t := Step(s, e);
    match e
    case SetSubreaper(me, on) =>
      if on {
        SetMarksExactly(s, me);
        SetKeepsInherited(s.forest, me, s.has, s.subs, s.reapers, false);
      } else {
        Frame(s.forest, s.has, s.has, s.subs, t.subs, s.reapers, s.reapers, false, false);
      }
    case Fork(parent, child, _) =>
      Frame(s.forest, s.has, t.has, s.subs, t.subs, s.reapers, t.reapers, false, false);
      AdoptKeepsInherited(s.forest, parent, Task(child, Nil, Nil), t.has, t.subs, t.reapers, false);
    case Exit(gone, heir) => ExitKeepsInv(s, gone, heir);
  }

  lemma SetMarksExactly(s: State, me: int)
    requires Inv(s) && me in Pids(s.forest)
    ensures Step(s, SetSubreaper(me, true)).has == s.has + Unpruned(Kids(s.forest, me), s.reapers)
  {
    var kids := Kids(s.forest, me);
    var flagged := me in s.has || me in s.subs;
    KidsFacts(s.forest, me, s.has, s.subs, s.reapers, false);
    Frame(kids, s.has, s.has, s.subs, s.subs, s.reapers, s.reapers, flagged, false);
    PruningIsExact(kids, s.has, s.subs, s.reapers);
  }

  ghost predicate Run(s: State, es: seq<Event>, t: State)
    decreases es
  {
    if es == [] then s == t else Enabled(s, es[0]) && Run(Step(s, es[0]), es[1..], t)
  }

  lemma {:induction false} RunKeepsInv(s: State, es: seq<Event>, t: State)
    requires Inv(s) && Run(s, es, t)
    ensures Inv(t)
    decreases es
  {
    if es == [] {
    } else {
      StepKeepsInv(s, es[0]);
      RunKeepsInv(Step(s, es[0]), es[1..], t);
    }
  }

  // ---------------------------------------------------------------------------
  // What the unpruned walk reaches: the ends of chains of children without a child reaper

  /** Each link is a child of the one before, the first is in the list, and none is a child
      reaper. */
  ghost predicate Chain(f: Forest, reapers: set<int>, links: seq<int>)
    decreases links
  {
    && links != [] && links[0] in Roots(f) && links[0] !in reapers
    && (|links| == 1 || Chain(Kids(f, links[0]), reapers, links[1..]))
  }

  ghost predicate ChainTo(f: Forest, reapers: set<int>, p: int) {
    exists links :: Chain(f, reapers, links) && links[|links| - 1] == p
  }

  lemma {:induction false} RootsWithin(f: Forest)
    ensures Roots(f) <= Pids(f)
  {
    if f.Nil? {
    } else {
      RootsWithin(f.siblings);
    }
  }

  lemma {:induction false} DistinctKids(f: Forest, me: int)
    requires Distinct(f)
    ensures Distinct(Kids(f, me))
  {
    if f.Nil? {
    } else {
      DistinctKids(f.children, me);
      DistinctKids(f.siblings, me);
    }
  }

  lemma {:induction false} ReachedByChain(f: Forest, reapers: set<int>, p: int) returns (links: seq<int>)
    requires Distinct(f) && p in Unpruned(f, reapers)
    ensures Chain(f, reapers, links) && links[|links| - 1] == p
    decreases f
  {
    var q, kids, sibs := f.pid, f.children, f.siblings;
    if p in Unpruned(sibs, reapers) {
      links := ReachedByChain(sibs, reapers, p);
      RootsWithin(sibs);
      assert Kids(f, links[0]) == Kids(sibs, links[0]);
    } else if p == q {
      links := [q];
    } else {
      var rest := ReachedByChain(kids, reapers, p);
      links := [q] + rest;
      assert links[1..] == rest;
    }
  }

  /** A list member that is no child reaper is reached, and so is all that its children reach. */
  lemma {:induction false} RootIsReached(f: Forest, reapers: set<int>, c: int)
    requires Distinct(f) && c in Roots(f) && c !in reapers
    ensures c in Unpruned(f, reapers) && Unpruned(Kids(f, c), reapers) <= Unpruned(f, reapers)
  {
    if f.pid == c {
    } else {
      RootsWithin(f.siblings);
      RootIsReached(f.siblings, reapers, c);
    }
  }

  lemma {:induction false} ChainIsReached(f: Forest, reapers: set<int>, links: seq<int>)
    requires Distinct(f) && Chain(f, reapers, links)
    ensures links[|links| - 1] in Unpruned(f, reapers)
    decreases links
  {
    RootIsReached(f, reapers, links[0]);
    if |links| == 1 {
    } else {
      DistinctKids(f, links[0]);
      ChainIsReached(Kids(f, links[0]), reapers, links[1..]);
    }
  }

  lemma UnprunedMeans(f: Forest, reapers: set<int>, p: int)
    requires Distinct(f)
    ensures p in Unpruned(f, reapers) <==> ChainTo(f, reapers, p)
  {
    if p in Unpruned(f, reapers) {
      var links := ReachedByChain(f, reapers, p);
    }
    if ChainTo(f, reapers, p) {
      var links :| Chain(f, reapers, links) && links[|links| - 1] == p;
      ChainIsReached(f, reapers, links);
    }
  }

  /** The first process alone, a child reaper without flags. */
  const BOOT: State := State(Task(1, Nil, Nil), {}, {}, {1})

  // ---------------------------------------------------------------------------
  // The tree: who is whose child after a fork or an exit

  lemma {:induction false} RootsOfJoin(f: Forest, g: Forest)
    ensures Roots(Join(f, g)) == Roots(f) + Roots(g) && Pids(Join(f, g)) == Pids(f) + Pids(g)
  {
    if f.Nil? {
    } else {
      RootsOfJoin(f.siblings, g);
    }
  }

  lemma {:induction false} KidsOfJoin(f: Forest, g: Forest, q: int)
    requires Pids(f) !! Pids(g)
    ensures q in Pids(f) ==> Kids(Join(f, g), q) == Kids(f, q)
    ensures q in Pids(g) ==> Kids(Join(f, g), q) == Kids(g, q)
  {
    if f.Nil? {
    } else {
      KidsOfJoin(f.siblings, g, q);
    }
  }

  lemma {:induction false} PidsOfAdopt(f: Forest, heir: int, g: Forest)
    requires heir in Pids(f)
    ensures Pids(Adopt(f, heir, g)) == Pids(f) + Pids(g) && Roots(Adopt(f, heir, g)) == Roots(f)
  {
    if f.pid == heir {
      RootsOfJoin(f.children, g);
    } else if heir in Pids(f.children) {
      PidsOfAdopt(f.children, heir, g);
    } else {
      PidsOfAdopt(f.siblings, heir, g);
    }
  }

  /** After an adoption the heir has the adopted as further children; nobody else's children
      change. */
  lemma {:induction false} KidsOfAdopt(f: Forest, heir: int, g: Forest, q: int)
    requires Distinct(f) && heir in Pids(f) && Pids(f) !! Pids(g) && Distinct(g)
    ensures q in Pids(f) ==>
              Roots(Kids(Adopt(f, heir, g), q)) == Roots(Kids(f, q)) + (if q == heir then Roots(g) else {})
    ensures q in Pids(g) ==> Kids(Adopt(f, heir, g), q) == Kids(g, q)
  {
    var p, kids, sibs := f.pid, f.children, f.siblings;
    if p == heir {
      RootsOfJoin(kids, g);
      KidsOfJoin(kids, g, q);
    } else if heir in Pids(kids) {
      PidsOfAdopt(kids, heir, g);
      KidsOfAdopt(kids, heir, g, q);
    } else {
      PidsOfAdopt(sibs, heir, g);
      KidsOfAdopt(sibs, heir, g, q);
    }
  }

  /** A dropped task takes its descendants along, and nothing else. */
  lemma {:induction false} PidsOfDrop(f: Forest, gone: int)
    requires Distinct(f)
    ensures Pids(Drop(f, gone)) == if gone in Pids(f) then Pids(f) - {gone} - Pids(Kids(f, gone)) else Pids(f)
  {
    if f.Nil? {
    } else {
      PidsOfDrop(f.children, gone);
      PidsOfDrop(f.siblings, gone);
      if gone in Pids(f.children) {
        KidsWithin(f.children, gone);
      } else {
        KidsWithin(f.siblings, gone);
      }
    }
  }

  lemma {:induction false} KidsWithin(f: Forest, q: int)
    ensures Pids(Kids(f, q)) <= Pids(f)
  {
    if f.Nil? {
    } else {
      KidsWithin(f.children, q);
      KidsWithin(f.siblings, q);
    }
  }

  lemma {:induction false} RootsOfDrop(f: Forest, gone: int)
    requires Distinct(f)
    ensures Roots(Drop(f, gone)) == Roots(f) - {gone}
  {
    if f.Nil? {
    } else {
      RootsOfDrop(f.siblings, gone);
      RootsWithin(f.siblings);
    }
  }

  lemma {:induction false} KidsOfDrop(f: Forest, gone: int, q: int)
    requires Distinct(f)
    ensures q in Pids(Drop(f, gone)) ==> Roots(Kids(Drop(f, gone), q)) == Roots(Kids(f, q)) - {gone}
    ensures gone in Pids(f) && q in Pids(Kids(f, gone)) ==> Kids(f, q) == Kids(Kids(f, gone), q)
  {
    if f.Nil? {
    } else {
      var p, kids, sibs := f.pid, f.children, f.siblings;
      PidsOfDrop(kids, gone);
      PidsOfDrop(sibs, gone);
      if p == gone {
        KidsWithin(sibs, q);
        RootsWithin(Kids(sibs, q));
      } else {
        RootsOfDrop(kids, gone);
        KidsWithin(kids, gone);
        KidsWithin(sibs, gone);
        KidsOfDrop(kids, gone, q);
        KidsOfDrop(sibs, gone, q);
      }
    }
  }

  /** The list of tasks and the parent of each, after every event. */
  lemma FamilyAfter(s: State, e: Event, q: int)
    requires Inv(s) && Enabled(s, e) && q in Pids(Step(s, e).forest)
    ensures var t := Step(s, e);
            match e
            case SetSubreaper(_, _) => t.forest == s.forest
            case Fork(parent, child, _) =>
              && Pids(t.forest) == Pids(s.forest) + {child}
              && Roots(Kids(t.forest, q)) ==
                 (if q == child then {} else Roots(Kids(s.forest, q))) + (if q == parent then {child} else {})
            case Exit(gone, heir) =>
              && Pids(t.forest) == Pids(s.forest) - {gone}
              && Roots(Kids(t.forest, q)) ==
                 (Roots(Kids(s.forest, q)) - {gone}) + (if q == heir then Roots(Kids(s.forest, gone)) else {})
    ensures forall r :: r in Step(s, e).reapers <==> r in s.reapers || (e.Fork? && e.reaper && r == e.child)
  {
    match e
    case SetSubreaper(_, _) =>
    case Fork(parent, child, _) =>
      PidsOfAdopt(s.forest, parent, Task(child, Nil, Nil));
      KidsOfAdopt(s.forest, parent, Task(child, Nil, Nil), q);
    case Exit(gone, heir) =>
      PidsAfterExit(s, gone, heir);
      FamilyAfterExit(s, gone, heir, q);
  }

  lemma PidsAfterExit(s: State, gone: int, heir: int)
    requires Inv(s) && Enabled(s, Exit(gone, heir))
    ensures Pids(Step(s, Exit(gone, heir)).forest) == Pids(s.forest) - {gone}
    ensures heir in Pids(Drop(s.forest, gone)) && gone in Pids(s.forest) && gone !in Pids(Kids(s.forest, gone))
    ensures Distinct(Kids(s.forest, gone)) && Distinct(Drop(s.forest, gone))
    ensures Pids(Drop(s.forest, gone)) !! Pids(Kids(s.forest, gone))
  {
    var f, kids := s.forest, Kids(s.forest, gone);
    UnprunedWithin(Kids(f, heir), s.reapers);
    AncestorStays(f, heir, gone);
    KidsFacts(f, gone, s.has, s.subs, s.reapers, false);
    DropFacts(f, gone, s.has, s.subs, s.reapers, false);
    PidsOfDrop(f, gone);
    PidsOfAdopt(Drop(f, gone), heir, kids);
  }

  lemma FamilyAfterExit(s: State, gone: int, heir: int, q: int)
    requires Inv(s) && Enabled(s, Exit(gone, heir)) && q in Pids(Step(s, Exit(gone, heir)).forest)
    ensures var t := Step(s, Exit(gone, heir));
            && Roots(Kids(t.forest, q)) ==
               (Roots(Kids(s.forest, q)) - {gone}) + (if q == heir then Roots(Kids(s.forest, gone)) else {})
  {
    var f, kids := s.forest, Kids(s.forest, gone);
    PidsAfterExit(s, gone, heir);
    PidsOfAdopt(Drop(f, gone), heir, kids);
    KidsOfDrop(f, gone, q);
    KidsOfAdopt(Drop(f, gone), heir, kids, q);
    if q in Pids(kids) {
      // a descendant does not have its ancestor among its children
      KidsWithin(kids, q);
      RootsWithin(Kids(kids, q));
    }
  }

  // ---------------------------------------------------------------------------
  // The two flags over runs

  datatype Option<T> = None | Some(value: T)

  /** What an event says of p's is_child_subreaper: its own prctl sets or clears it, its exit
      ends it. */
  function SubreaperBy(e: Event, p: int): Option<bool> {
    match e
    case SetSubreaper(me, on) => if me == p then Some(on) else None
    case Fork(_, _, _) => None
    case Exit(gone, _) => if gone == p then Some(false) else None
  }

  /** What an event says of p's has_child_subreaper: it is set by a prctl of a task from which a
      chain without a child reaper leads to p, and by being forked from a task that has either
      flag; it ends with p. */
  ghost function MarkedBy(s: State, e: Event, p: int): Option<bool> {
    match e
    case SetSubreaper(me, on) => if on && ChainTo(Kids(s.forest, me), s.reapers, p) then Some(true) else None
    case Fork(parent, child, _) => if child == p && (parent in s.has || parent in s.subs) then Some(true) else None
    case Exit(gone, _) => if gone == p then Some(false) else None
  }

  ghost function LastSubreaper(es: seq<Event>, p: int): Option<bool>
    decreases es
  {
    if es == [] then None
    else
      var later := LastSubreaper(es[1..], p);
      if later.Some? then later else SubreaperBy(es[0], p)
  }

  ghost function LastMark(s: State, es: seq<Event>, p: int): Option<bool>
    decreases es
  {
    if es == [] then None
    else
      var later := LastMark(Step(s, es[0]), es[1..], p);
      if later.Some? then later else MarkedBy(s, es[0], p)
  }

  lemma StepMarks(s: State, e: Event, p: int)
    requires Inv(s) && Enabled(s, e)
    ensures var mark := MarkedBy(s, e, p);
            p in Step(s, e).has <==> if mark.Some? then mark.value else p in s.has
  {
    if e.SetSubreaper? && e.on {
      SetMarksExactly(s, e.me);
      DistinctKids(s.forest, e.me);
      UnprunedMeans(Kids(s.forest, e.me), s.reapers, p);
    }
  }

  /** Over any run, a task is a subreaper if and only if the last that its own prctl calls or its
      exit said of it was so; and it has has_child_subreaper if and only if the last that marked
      it, or its exit, said so. */
  lemma {:induction false} LastEventDecidesFlags(s: State, es: seq<Event>, t: State, p: int)
    requires Inv(s) && Run(s, es, t)
    ensures var sub, mark := LastSubreaper(es, p), LastMark(s, es, p);
            && (p in t.subs <==> if sub.Some? then sub.value else p in s.subs)
            && (p in t.has <==> if mark.Some? then mark.value else p in s.has)
    decreases es
  {
    if es == [] {
    } else {
      StepKeepsInv(s, es[0]);
      StepMarks(s, es[0], p);
      LastEventDecidesFlags(Step(s, es[0]), es[1..], t, p);
    }
  }

  lemma {:induction false} StaysAlive(s: State, es: seq<Event>, t: State, me: int)
    requires Inv(s) && Run(s, es, t) && me in Pids(s.forest) && me in s.subs
    requires forall i :: 0 <= i < |es| ==> SubreaperBy(es[i], me) != Some(false)
    ensures me in Pids(t.forest) && me in t.subs
    decreases es
  {
    if es == [] {
    } else {
      assert SubreaperBy(es[0], me) != Some(false);
      StepKeepsInv(s, es[0]);
      PidsAfter(s, es[0]);
      StaysAlive(Step(s, es[0]), es[1..], t, me);
    }
  }

  lemma PidsAfter(s: State, e: Event)
    requires Inv(s) && Enabled(s, e)
    ensures Pids(Step(s, e).forest) ==
              match e
              case SetSubreaper(_, _) => Pids(s.forest)
              case Fork(_, child, _) => Pids(s.forest) + {child}
              case Exit(gone, _) => Pids(s.forest) - {gone}
  {
    match e
    case SetSubreaper(_, _) =>
    case Fork(parent, child, _) => PidsOfAdopt(s.forest, parent, Task(child, Nil, Nil));
    case Exit(gone, heir) => PidsAfterExit(s, gone, heir);
  }

  /** After prctl(PR_SET_CHILD_SUBREAPER, 1), for as long as the caller lives and does not switch
      it off, whatever is forked or exits in between, every task that a chain of children without
      a child reaper links to the caller has the flag. */
  lemma SubreaperCoversItsTree(es: seq<Event>, s: State, me: int, fs: seq<Event>, t: State, p: int)
    requires Run(BOOT, es, s) && me in Pids(s.forest)
    requires Run(Step(s, SetSubreaper(me, true)), fs, t)
    requires forall i :: 0 <= i < |fs| ==> fs[i] != SetSubreaper(me, false) && !(fs[i].Exit? && fs[i].gone == me)
    ensures me in Pids(t.forest) && me in t.subs
    ensures ChainTo(Kids(t.forest, me), t.reapers, p) ==> p in t.has
  {
    var on := SetSubreaper(me, true);
    RunKeepsInv(BOOT, es, s);
    StepKeepsInv(s, on);
    RunKeepsInv(Step(s, on), fs, t);
    StaysAlive(Step(s, on), fs, t, me);
    KidsFacts(t.forest, me, t.has, t.subs, t.reapers, false);
    NothingLeftBelow(Kids(t.forest, me), t.has, t.subs, t.reapers);
    UnprunedMeans(Kids(t.forest, me), t.reapers, p);
  }

  /** In every run of prctl, fork and exit the pruned walk is exact: it marks a task if and only if
      a chain of children without a child reaper leads from the caller to it, and the premise of
      the pruning, inheritance, holds again afterwards. */
  lemma PrunedWalkIsExactInEveryRun(es: seq<Event>, s: State, me: int)
    requires Run(BOOT, es, s) && me in Pids(s.forest)
    ensures var t := Step(s, SetSubreaper(me, true));
            && (forall p :: p in t.has <==> p in s.has || ChainTo(Kids(s.forest, me), s.reapers, p))
            && Inherited(t.forest, t.has, t.subs, t.reapers, false)
            && Inherited(Kids(t.forest, me), t.has, t.subs, t.reapers, true)
  {
    RunKeepsInv(BOOT, es, s);
    SetMarksExactly(s, me);
    StepKeepsInv(s, SetSubreaper(me, true));
    var t := Step(s, SetSubreaper(me, true));
    KidsFacts(t.forest, me, t.has, t.subs, t.reapers, false);
    forall p ensures p in t.has <==> p in s.has || ChainTo(Kids(s.forest, me), s.reapers, p) {
      UnprunedMeans(Kids(s.forest, me), s.reapers, p);
    }
  }
}
