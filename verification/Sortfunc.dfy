/** The added sortfunc system call: a bubble sort, largest first, of the first 256 entries of a
    buffer copied from the caller. The loop is stated for any number of entries.
  */
module Sortfunc {

  const ENOMEM: int := 12
  const EINVAL: int := 22
  const ELEMENTS: nat := 256

  ghost predicate Descending(s: seq<int>) {
    forall i, j :: 0 <= i < j < |s| ==> s[i] >= s[j]
  }

  /** Same entries, the same number of times. */
  ghost predicate Permutation(s: seq<int>, t: seq<int>) {
    |s| == |t| && multiset(s) == multiset(t)
  }

  method SwapNext(a: array<int>, j: nat)
    requires j + 1 < a.Length
    modifies a
    ensures a[j] == old(a[j + 1]) && a[j + 1] == old(a[j])
    ensures forall k :: 0 <= k < a.Length && k != j && k != j + 1 ==> a[k] == old(a[k])
    ensures Permutation(a[..], old(a[..]))
  {
    var temp := a[j];
    a[j] := a[j + 1];
    a[j + 1] := temp;
  }

  /** The entries from `from` on are in their final places. */
  ghost predicate Settled(a: array<int>, from: int, n: int)
    requires 0 <= from <= n <= a.Length
    reads a
  {
    forall i, j :: 0 <= i < j < n && from <= j ==> a[i] >= a[j]
  }

  /** One pass of the inner loop carries the smallest open entry to the end of the open part. */
  method Pass(a: array<int>, open: nat, n: nat)
    requires 0 < open <= n <= a.Length && Settled(a, open, n)
    modifies a
    ensures Settled(a, open - 1, n)
    ensures a[n..] == old(a[n..]) && Permutation(a[..], old(a[..]))
  {
    for j := 0 to open - 1
      invariant Settled(a, open, n)
      invariant forall i :: 0 <= i < j ==> a[i] >= a[j]
      invariant forall k :: n <= k < a.Length ==> a[k] == old(a[k])
      invariant Permutation(a[..], old(a[..]))
    {
      if a[j] < a[j + 1] {
        SwapNext(a, j);
      }
    }
  }

  method BubbleSort(a: array<int>, n: nat)
    requires n <= a.Length
    modifies a
    ensures Descending(a[..n])
    ensures Permutation(a[..n], old(a[..n])) && a[n..] == old(a[n..])
  {
    var i := 0;
    while i < n - 1
      invariant 0 <= i <= n
      invariant Settled(a, n - i, n)
      invariant a[n..] == old(a[n..]) && Permutation(a[..], old(a[..]))
    {
      Pass(a, n - i, n);
      i := i + 1;
    }
    PrefixPermutation(a[..], old(a[..]), n);
    assert a[..][..n] == a[..n];
  }

  lemma PrefixPermutation(s: seq<int>, t: seq<int>, n: nat)
    requires Permutation(s, t) && n <= |s| && s[n..] == t[n..]
    ensures Permutation(s[..n], t[..n])
  {
    assert s == s[..n] + s[n..] && t == t[..n] + t[n..];
    assert multiset(s[..n]) == multiset(s) - multiset(s[n..]);
    assert multiset(t[..n]) == multiset(t) - multiset(t[n..]);
  }

  /** The call itself. Too small a size is refused after the copy in; a failed allocation before
      it. The faults of the two copies are ignored by the kernel and not modelled. */
  method Sort(buffer: array<int>, size: int, sorted: array<int>, memory: bool) returns (ret: int)
    requires size <= buffer.Length && size <= sorted.Length
    modifies sorted
    ensures ret == if !memory then -ENOMEM else if size < ELEMENTS then -EINVAL else 0
    ensures ret != 0 ==> sorted[..] == old(sorted[..])
    ensures ret == 0 ==>
              && Descending(sorted[..ELEMENTS])
              && Permutation(sorted[..ELEMENTS], old(buffer[..ELEMENTS]))
              && sorted[ELEMENTS..size] == old(buffer[ELEMENTS..size])
              && sorted[size..] == old(sorted[size..])
  {
    if !memory {
      return -ENOMEM;
    }
    if size < 0 || size < ELEMENTS {
      return -EINVAL;
    }
    var buffk := new int[size](i requires 0 <= i < size reads buffer => buffer[i]);
    assert buffk[..] == buffer[..size];
    BubbleSort(buffk, ELEMENTS);
    assert buffer[..size][..ELEMENTS] == buffer[..ELEMENTS];
    CopyOut(buffk, sorted);
    assert sorted[..ELEMENTS] == sorted[..size][..ELEMENTS] == buffk[..ELEMENTS];
    assert sorted[ELEMENTS..size] == sorted[..size][ELEMENTS..] == buffk[ELEMENTS..];
    ret := 0;
  }

  method CopyOut(from: array<int>, to: array<int>)
    requires from != to && from.Length <= to.Length
    modifies to
    ensures to[..from.Length] == from[..] && to[from.Length..] == old(to[from.Length..])
  {
    forall i | 0 <= i < from.Length {
      to[i] := from[i];
    }
  }

  lemma HeadIsLargest(s: seq<int>, x: int)
    requires Descending(s) && x in s
    ensures s[0] >= x
  {
  }

  lemma TailPermutation(s: seq<int>, t: seq<int>)
    requires s != [] && t != [] && s[0] == t[0] && Permutation(s, t)
    ensures Permutation(s[1..], t[1..])
  {
    assert s == [s[0]] + s[1..] && t == [t[0]] + t[1..];
    assert multiset(s[1..]) == multiset(s) - multiset{s[0]};
    assert multiset(t[1..]) == multiset(t) - multiset{t[0]};
  }

  /** What the call stores is determined by what it was given: there is one descending
      arrangement. */
  lemma {:induction false} DescendingIsUnique(s: seq<int>, t: seq<int>)
    requires Descending(s) && Descending(t) && Permutation(s, t)
    ensures s == t
    decreases |s|
  {
    if s == [] {
    } else {
      assert s[0] in multiset(t) && t[0] in multiset(s);
      HeadIsLargest(s, t[0]);
      HeadIsLargest(t, s[0]);
      TailPermutation(s, t);
      DescendingIsUnique(s[1..], t[1..]);
      assert s == [s[0]] + s[1..] && t == [t[0]] + t[1..];
    }
  }
}
