/** The animal module: an exchange sort of an array of names, a list counting each name, and a
    list of the counted names that pass a filter.
  */
module Animals {

  // ---------------------------------------------------------------------------
  // strcmp

  /** Negative, zero or positive like the C function; a name that ends first is smaller. */
  function Strcmp(s: string, t: string): int {
    if s == [] && t == [] then 0
    else if s == [] then -1
    else if t == [] then 1
    else if s[0] != t[0] then s[0] as int - t[0] as int
    else Strcmp(s[1..], t[1..])
  }

  lemma {:induction false} StrcmpZero(s: string, t: string)
    ensures Strcmp(s, t) == 0 <==> s == t
    decreases |s|
  {
    if s != [] && t != [] && s[0] == t[0] {
      StrcmpZero(s[1..], t[1..]);
      assert s == [s[0]] + s[1..] && t == [t[0]] + t[1..];
    }
  }

  lemma {:induction false} StrcmpFlips(s: string, t: string)
    ensures Strcmp(s, t) > 0 <==> Strcmp(t, s) < 0
    decreases |s|
  {
    if s != [] && t != [] && s[0] == t[0] {
      StrcmpFlips(s[1..], t[1..]);
    }
  }

  lemma {:induction false} StrcmpTransitive(s: string, t: string, u: string)
    requires Strcmp(s, t) <= 0 && Strcmp(t, u) <= 0
    ensures Strcmp(s, u) <= 0
    decreases |s|
  {
    if s != [] && t != [] && u != [] && s[0] == t[0] == u[0] {
      StrcmpTransitive(s[1..], t[1..], u[1..]);
    }
  }

  /** Dictionary order: at the first place where they differ, s has ended or has the smaller
      character. */
  ghost predicate Precedes(s: string, t: string) {
    exists k :: PrecedesAt(s, t, k)
  }

  predicate PrecedesAt(s: string, t: string, k: int) {
    0 <= k <= |s| && k < |t| && s[..k] == t[..k] && (k == |s| || s[k] < t[k])
  }

  /** strcmp is negative exactly on names in dictionary order. */
  lemma {:induction false} StrcmpIsDictionaryOrder(s: string, t: string)
    ensures Strcmp(s, t) < 0 <==> Precedes(s, t)
    decreases |s|
  {
    if s == [] || t == [] || s[0] != t[0] {
      assert forall k :: 0 < k <= |s| && k <= |t| ==> s[..k][0] == s[0] && t[..k][0] == t[0];
      assert Precedes(s, t) <==> PrecedesAt(s, t, 0);
    } else {
      var s', t' := s[1..], t[1..];
      StrcmpIsDictionaryOrder(s', t');
      assert s == [s[0]] + s' && t == [t[0]] + t';
      if k :| PrecedesAt(s', t', k) {
        assert s[..k + 1] == [s[0]] + s'[..k] && t[..k + 1] == [t[0]] + t'[..k];
        assert PrecedesAt(s, t, k + 1);
      }
      if k :| PrecedesAt(s, t, k) {
        assert k > 0 && s'[..k - 1] == s[..k][1..] && t'[..k - 1] == t[..k][1..];
        assert PrecedesAt(s', t', k - 1);
      }
    }
  }

  predicate Le(s: string, t: string) {
    Strcmp(s, t) <= 0
  }

  predicate Lt(s: string, t: string) {
    Strcmp(s, t) < 0
  }

  ghost predicate Ascending(names: seq<string>) {
    forall i, j :: 0 <= i < j < |names| ==> Le(names[i], names[j])
  }

  // ---------------------------------------------------------------------------
  // The two lists

  datatype Node = Node(name: string, count: int)

  ghost predicate StrictlyAscending(nodes: seq<Node>) {
    forall i, j :: 0 <= i < j < |nodes| ==> Lt(nodes[i].name, nodes[j].name)
  }

  ghost predicate TrueCounts(nodes: seq<Node>, names: seq<string>) {
    forall k :: 0 <= k < |nodes| ==> nodes[k].name in names && nodes[k].count == multiset(names)[nodes[k].name]
  }

  predicate Lists(nodes: seq<Node>, name: string) {
    exists k :: 0 <= k < |nodes| && nodes[k].name == name
  }

  /** Each distinct name has one node with its true number of occurrences, and the nodes are in
      strictly ascending order. */
  ghost predicate Tallies(nodes: seq<Node>, names: seq<string>) {
    && StrictlyAscending(nodes)
    && TrueCounts(nodes, names)
    && (forall x :: x in names ==> Lists(nodes, x))
  }

  function Total(nodes: seq<Node>): int {
    if nodes == [] then 0 else Total(nodes[..|nodes| - 1]) + nodes[|nodes| - 1].count
  }

  predicate Passes(node: Node, animal: string, count: int) {
    (Strcmp(animal, "none") == 0 || Strcmp(node.name, animal) == 0) && node.count > count
  }

  /** The nodes that pass, in order. */
  function Passing(nodes: seq<Node>, animal: string, count: int): seq<Node> {
    if nodes == [] then []
    else
      var last := nodes[|nodes| - 1];
      Passing(nodes[..|nodes| - 1], animal, count) + if Passes(last, animal, count) then [last] else []
  }

  // ---------------------------------------------------------------------------
  // The module

  class AnimalModule {
    const animals: array<string>
    const filterAnimal: string
    const filterCount: int
    var nodes: seq<Node>
    var filtered: seq<Node>
    var nodeCounter: int
    var filteredNodeCounter: int

    constructor (animals: array<string>, filterAnimal: string, filterCount: int)
      ensures this.animals == animals && this.filterAnimal == filterAnimal && this.filterCount == filterCount
      ensures nodeCounter == 0 && filteredNodeCounter == 0
    {
      this.animals := animals;
      this.filterAnimal := filterAnimal;
      this.filterCount := filterCount;
      nodes, filtered, nodeCounter, filteredNodeCounter := [], [], 0, 0;
    }

    method Exchange(i: nat, j: nat)
      requires i < animals.Length && j < animals.Length
      modifies animals
      ensures animals[i] == old(animals[j]) && animals[j] == old(animals[i])
      ensures forall k :: 0 <= k < animals.Length && k != i && k != j ==> animals[k] == old(animals[k])
      ensures multiset(animals[..]) == multiset(old(animals[..]))
    {
      var temp := animals[i];
      animals[i] := animals[j];
      animals[j] := temp;
    }

    /** The first j names are in their final places. */
    ghost predicate Placed(j: nat)
      requires j <= animals.Length
      reads animals
    {
      forall p, q :: 0 <= p < q < animals.Length && p < j ==> Le(animals[p], animals[q])
    }

    /** The inner loop: brings a smallest remaining name to place j. */
    method SelectInto(j: nat)
      requires j < animals.Length && Placed(j)
      modifies animals
      ensures Placed(j + 1)
      ensures multiset(animals[..]) == multiset(old(animals[..]))
    {
      StrcmpZero(animals[j], animals[j]);
      for i := j to animals.Length
        invariant Placed(j)
        invariant forall k :: j <= k < i ==> Le(animals[j], animals[k])
        invariant multiset(animals[..]) == multiset(old(animals[..]))
      {
        if Strcmp(animals[j], animals[i]) > 0 {
          StrcmpFlips(animals[j], animals[i]);
          StrcmpZero(animals[i], animals[i]);
          forall k | j <= k < i ensures Le(animals[i], animals[k]) {
            StrcmpTransitive(animals[i], animals[j], animals[k]);
          }
          Exchange(i, j);
        }
      }
    }

    method SortAnimals()
      modifies animals
      ensures Ascending(animals[..])
      ensures multiset(animals[..]) == multiset(old(animals[..]))
    {
      for j := 0 to animals.Length
        invariant Placed(j)
        invariant multiset(animals[..]) == multiset(old(animals[..]))
      {
        SelectInto(j);
      }
    }

    /** The search through the list built so far. */
    method Find(name: string) returns (found: bool, at: nat)
      ensures found ==> at < |nodes| && nodes[at].name == name
      ensures !found ==> forall k :: 0 <= k < |nodes| ==> nodes[k].name != name
    {
      at := 0;
      while at < |nodes|
        invariant at <= |nodes|
        invariant forall k :: 0 <= k < at ==> nodes[k].name != name
      {
        StrcmpZero(name, nodes[at].name);
        if Strcmp(name, nodes[at].name) == 0 {
          return true, at;
        }
        at := at + 1;
      }
      found := false;
    }

    /** One turn of the counting loop, after the names in `seen`. */
    method CountOne(name: string, ghost seen: seq<string>)
      requires Tallies(nodes, seen) && forall x :: x in seen ==> Le(x, name)
      modifies this`nodes, this`nodeCounter
      ensures Tallies(nodes, seen + [name]) && Total(nodes) == old(Total(nodes)) + 1
      ensures nodeCounter - |nodes| == old(nodeCounter - |nodes|)
    {
      var found, at := Find(name);
      if found {
        OneMore(nodes, seen, at);
        nodes := nodes[at := nodes[at].(count := nodes[at].count + 1)];
      } else {
        NewName(nodes, seen, name);
        nodes := nodes + [Node(name, 1)];
        nodeCounter := nodeCounter + 1;
      }
    }

    method CountAnimals()
      requires Ascending(animals[..])
      modifies this`nodes, this`nodeCounter
      ensures Tallies(nodes, animals[..]) && Total(nodes) == animals.Length
      ensures nodeCounter == old(nodeCounter) + |nodes|
    {
      nodes := [];
      for i := 0 to animals.Length
        invariant Tallies(nodes, animals[..i]) && Total(nodes) == i
        invariant nodeCounter == old(nodeCounter) + |nodes|
      {
        assert forall k :: 0 <= k < i ==> Le(animals[..][k], animals[..][i]);
        CountOne(animals[i], animals[..i]);
        assert animals[..i + 1] == animals[..i] + [animals[i]];
      }
      assert animals[..animals.Length] == animals[..];
    }

    method FilterAnimals()
      modifies this`filtered, this`filteredNodeCounter
      ensures filtered == Passing(nodes, filterAnimal, filterCount)
      ensures filteredNodeCounter == old(filteredNodeCounter) + |filtered|
    {
      filtered := [];
      for i := 0 to |nodes|
        invariant filtered == Passing(nodes[..i], filterAnimal, filterCount)
        invariant filteredNodeCounter == old(filteredNodeCounter) + |filtered|
      {
        assert nodes[..i + 1][..i] == nodes[..i];
        if Strcmp(filterAnimal, "none") == 0 {
          if nodes[i].count > filterCount {
            filtered := filtered + [nodes[i]];
            filteredNodeCounter := filteredNodeCounter + 1;
          }
        } else if Strcmp(nodes[i].name, filterAnimal) == 0 && nodes[i].count > filterCount {
          filtered := filtered + [nodes[i]];
          filteredNodeCounter := filteredNodeCounter + 1;
        }
      }
      assert nodes[..|nodes|] == nodes;
    }

    /** linkedlist_create, on a freshly loaded module. */
    method Create()
      requires nodeCounter == 0 && filteredNodeCounter == 0
      modifies this, animals
      ensures Ascending(animals[..]) && multiset(animals[..]) == multiset(old(animals[..]))
      ensures Tallies(nodes, animals[..]) && Total(nodes) == animals.Length
      ensures filtered == Passing(nodes, filterAnimal, filterCount)
      ensures nodeCounter == |nodes| && filteredNodeCounter == |filtered|
    {
      SortAnimals();
      CountAnimals();
      FilterAnimals();
    }
  }

  // ---------------------------------------------------------------------------
  // Lemmas about the lists

  lemma {:induction false} TotalUpdate(nodes: seq<Node>, at: nat, node: Node)
    requires at < |nodes|
    ensures Total(nodes[at := node]) == Total(nodes) - nodes[at].count + node.count
    decreases |nodes|
  {
    var n := |nodes| - 1;
    if at < n {
      TotalUpdate(nodes[..n], at, node);
      assert nodes[at := node][..n] == nodes[..n][at := node];
    } else {
      assert nodes[at := node][..n] == nodes[..n];
    }
  }

  lemma CountsSnoc(names: seq<string>, x: string, y: string)
    ensures multiset(names + [x])[y] == multiset(names)[y] + if x == y then 1 else 0
  {
  }

  /** Counting one more occurrence of a name already listed. */
  lemma OneMore(nodes: seq<Node>, names: seq<string>, at: nat)
    requires Tallies(nodes, names) && at < |nodes|
    ensures var nodes' := nodes[at := nodes[at].(count := nodes[at].count + 1)];
            Tallies(nodes', names + [nodes[at].name]) && Total(nodes') == Total(nodes) + 1
  {
    var node := nodes[at].(count := nodes[at].count + 1);
    var nodes' := nodes[at := node];
    var x := nodes[at].name;
    TotalUpdate(nodes, at, node);
    OneMoreCounts(nodes, names, at);
    forall y | y in names + [x] ensures Lists(nodes', y) {
      assert Lists(nodes, y);
      var k :| 0 <= k < |nodes| && nodes[k].name == y;
      assert nodes'[k].name == y;
    }
  }

  lemma OneMoreCounts(nodes: seq<Node>, names: seq<string>, at: nat)
    requires StrictlyAscending(nodes) && TrueCounts(nodes, names) && at < |nodes|
    ensures TrueCounts(nodes[at := nodes[at].(count := nodes[at].count + 1)], names + [nodes[at].name])
  {
    var x := nodes[at].name;
    var nodes' := nodes[at := nodes[at].(count := nodes[at].count + 1)];
    forall k | 0 <= k < |nodes'|
      ensures nodes'[k].name in names + [x] && nodes'[k].count == multiset(names + [x])[nodes'[k].name]
    {
      CountsSnoc(names, x, nodes[k].name);
      if k != at {
        DistinctNames(nodes, k, at);
      }
    }
  }

  lemma DistinctNames(nodes: seq<Node>, i: nat, j: nat)
    requires StrictlyAscending(nodes) && i < |nodes| && j < |nodes| && i != j
    ensures nodes[i].name != nodes[j].name
  {
    StrcmpZero(nodes[i].name, nodes[j].name);
    StrcmpZero(nodes[j].name, nodes[i].name);
  }

  /** Listing a name for the first time, when no earlier name is greater. */
  lemma NewName(nodes: seq<Node>, names: seq<string>, x: string)
    requires Tallies(nodes, names)
    requires forall k :: 0 <= k < |nodes| ==> nodes[k].name != x
    requires forall y :: y in names ==> Le(y, x)
    ensures Tallies(nodes + [Node(x, 1)], names + [x]) && Total(nodes + [Node(x, 1)]) == Total(nodes) + 1
  {
    var nodes' := nodes + [Node(x, 1)];
    assert nodes'[..|nodes|] == nodes;
    assert x !in names by {
      assert !Lists(nodes, x);
    }
    NewNameAscends(nodes, names, x);
    NewNameCounts(nodes, names, x);
    forall y | y in names + [x] ensures Lists(nodes', y) {
      if y in names {
        assert Lists(nodes, y);
        var k :| 0 <= k < |nodes| && nodes[k].name == y;
        assert nodes'[k].name == y;
      } else {
        assert nodes'[|nodes|].name == y;
      }
    }
  }

  lemma NewNameAscends(nodes: seq<Node>, names: seq<string>, x: string)
    requires StrictlyAscending(nodes) && TrueCounts(nodes, names) && x !in names
    requires forall y :: y in names ==> Le(y, x)
    ensures StrictlyAscending(nodes + [Node(x, 1)])
  {
    forall k | 0 <= k < |nodes| ensures Lt(nodes[k].name, x) {
      StrcmpZero(nodes[k].name, x);
    }
  }

  lemma NewNameCounts(nodes: seq<Node>, names: seq<string>, x: string)
    requires TrueCounts(nodes, names) && x !in names
    ensures TrueCounts(nodes + [Node(x, 1)], names + [x])
  {
  }

  lemma {:induction false} PassingMembers(nodes: seq<Node>, animal: string, count: int, node: Node)
    ensures node in Passing(nodes, animal, count) <==> node in nodes && Passes(node, animal, count)
    decreases |nodes|
  {
    if nodes == [] {
    } else {
      var front := nodes[..|nodes| - 1];
      PassingMembers(front, animal, count, node);
      assert nodes == front + [nodes[|nodes| - 1]];
    }
  }

  lemma {:induction false} PassingAscends(nodes: seq<Node>, animal: string, count: int)
    requires StrictlyAscending(nodes)
    ensures StrictlyAscending(Passing(nodes, animal, count))
    decreases |nodes|
  {
    if nodes == [] {
    } else {
      var front, last := nodes[..|nodes| - 1], nodes[|nodes| - 1];
      var r := Passing(front, animal, count);
      PassingAscends(front, animal, count);
      forall i | 0 <= i < |r| ensures Lt(r[i].name, last.name) {
        PassingMembers(front, animal, count, r[i]);
      }
    }
  }

  /** End to end: the filtered list holds, in strictly ascending order, exactly the names of the
      original array whose number of occurrences there exceeds the filter's, with that number;
      only the filter's animal if it names one. */
  lemma FilteredExactly(names: seq<string>, sorted: seq<string>, nodes: seq<Node>, animal: string, count: int, node: Node)
    requires multiset(sorted) == multiset(names) && Tallies(nodes, sorted)
    ensures var r := Passing(nodes, animal, count);
            && StrictlyAscending(r)
            && (node in r <==>
                  && node.name in names && node.count == multiset(names)[node.name]
                  && (animal == "none" || node.name == animal) && node.count > count)
  {
    PassingAscends(nodes, animal, count);
    PassingMembers(nodes, animal, count, node);
    StrcmpZero(animal, "none");
    StrcmpZero(node.name, animal);
    assert node.name in names <==> node.name in multiset(names);
    assert node.name in sorted <==> node.name in multiset(sorted);
    if node.name in sorted && node.count == multiset(names)[node.name] {
      assert Lists(nodes, node.name);
      var k :| 0 <= k < |nodes| && nodes[k].name == node.name;
      assert nodes[k] == node;
    }
  }
}
