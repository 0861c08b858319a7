/** Binary max-heaps ordered by exponent, in an array, with the contracts of the standard
    algorithms make_heap, push_heap and pop_heap. */
module Heaps {
  import opened AbelianGroups

  function Parent(i: nat): (p: nat)
    requires i > 0
    ensures p < i
  {
    (i - 1) / 2
  }

  /** No element of the first `n` has a larger exponent than its parent. */
  ghost predicate IsHeap<T>(s: seq<BaseAndExponent<T>>, n: nat) {
    n <= |s| && forall k :: 0 < k < n ==> s[k].exponent <= s[Parent(k)].exponent
  }

  /** The root of a heap has the largest exponent. */
  lemma {:induction false} RootIsLargest<T>(s: seq<BaseAndExponent<T>>, n: nat, k: nat)
    requires IsHeap(s, n) && k < n
    ensures s[k].exponent <= s[0].exponent
  {
    if k > 0 { RootIsLargest(s, n, Parent(k)); }
  }

  method Swap<T>(a: array<BaseAndExponent<T>>, i: nat, j: nat)
    requires i < a.Length && j < a.Length
    modifies a
    ensures a[..] == old(a[..])[i := old(a[j])][j := old(a[i])]
    ensures multiset(a[..]) == multiset(old(a[..]))
  {
    a[i], a[j] := a[j], a[i];
  }

  /** The heap order except between `hole` and its children; those are still below its parent. */
  ghost predicate HeapBelow<T>(s: seq<BaseAndExponent<T>>, n: nat, hole: nat) {
    && n <= |s|
    && (forall k :: 0 < k < n && Parent(k) != hole ==> s[k].exponent <= s[Parent(k)].exponent)
    && (forall k :: 0 < k < n && Parent(k) == hole && hole > 0 ==> s[k].exponent <= s[Parent(hole)].exponent)
  }

  /** The heap order except between `hole` and its parent; its children are still below that. */
  ghost predicate HeapAbove<T>(s: seq<BaseAndExponent<T>>, n: nat, hole: nat) {
    && n <= |s|
    && (forall k :: 0 < k < n && k != hole ==> s[k].exponent <= s[Parent(k)].exponent)
    && (forall k :: 0 < k < n && Parent(k) == hole && hole > 0 ==> s[k].exponent <= s[Parent(hole)].exponent)
  }

  /** The element at n-1 joins the heap before it. */
  method PushHeap<T>(a: array<BaseAndExponent<T>>, n: nat)
    requires 1 <= n <= a.Length && IsHeap(a[..], n - 1)
    modifies a
    ensures IsHeap(a[..], n)
    ensures multiset(a[..]) == multiset(old(a[..]))
    ensures forall k :: n <= k < a.Length ==> a[k] == old(a[k])
  {
    var i := n - 1;
    while i > 0 && a[Parent(i)].exponent < a[i].exponent
      invariant 0 <= i < n && HeapAbove(a[..], n, i)
      invariant multiset(a[..]) == multiset(old(a[..]))
      invariant forall k :: n <= k < a.Length ==> a[k] == old(a[k])
    {
      SiftedUp(a[..], n, i);
      Swap(a, i, Parent(i));
      i := Parent(i);
    }
  }

  lemma SiftedUp<T>(s: seq<BaseAndExponent<T>>, n: nat, i: nat)
    requires 0 < i < n && HeapAbove(s, n, i) && s[Parent(i)].exponent < s[i].exponent
    ensures HeapAbove(s[i := s[Parent(i)]][Parent(i) := s[i]], n, Parent(i))
  {}

  lemma SiftedDown<T>(s: seq<BaseAndExponent<T>>, n: nat, i: nat, c: nat)
    requires 0 < c < n && Parent(c) == i && HeapBelow(s, n, i) && s[i].exponent <= s[c].exponent
    requires forall k :: 0 < k < n && Parent(k) == i ==> s[k].exponent <= s[c].exponent
    ensures HeapBelow(s[i := s[c]][c := s[i]], n, c)
  {}

  /** The child of `i` with the larger exponent. */
  method LargerChild<T>(a: array<BaseAndExponent<T>>, n: nat, i: nat) returns (c: nat)
    requires 2 * i + 1 < n <= a.Length
    ensures 0 < c < n && Parent(c) == i
    ensures forall k :: 0 < k < n && Parent(k) == i ==> a[k].exponent <= a[c].exponent
  {
    c := 2 * i + 1;
    if c + 1 < n && a[c].exponent < a[c + 1].exponent {
      c := c + 1;
    }
    assert forall k :: 0 < k < n && Parent(k) == i ==> k == 2 * i + 1 || k == 2 * i + 2;
  }

  /** Restores the order from `i` down. */
  method SiftDown<T>(a: array<BaseAndExponent<T>>, n: nat)
    requires n <= a.Length && HeapBelow(a[..], n, 0)
    modifies a
    ensures IsHeap(a[..], n)
    ensures multiset(a[..]) == multiset(old(a[..]))
    ensures forall k :: n <= k < a.Length ==> a[k] == old(a[k])
  {
    var i := 0;
    while 2 * i + 1 < n
      invariant 0 <= i && HeapBelow(a[..], n, i)
      invariant multiset(a[..]) == multiset(old(a[..]))
      invariant forall k :: n <= k < a.Length ==> a[k] == old(a[k])
    {
      var c := LargerChild(a, n, i);
      if a[c].exponent <= a[i].exponent {
        return;
      }
      hide HeapBelow, Parent;
      SiftedDown(a[..], n, i, c);
      Swap(a, i, c);
      i := c;
    }
    assert forall k :: 0 < k < n ==> Parent(k) != i;
  }

  /** The root moves to n-1 and the rest stays a heap. */
  method PopHeap<T>(a: array<BaseAndExponent<T>>, n: nat)
    requires 1 <= n <= a.Length && IsHeap(a[..], n)
    modifies a
    ensures IsHeap(a[..], n - 1) && a[n - 1] == old(a[0])
    ensures multiset(a[..]) == multiset(old(a[..]))
    ensures forall k :: n <= k < a.Length ==> a[k] == old(a[k])
  {
    Swap(a, 0, n - 1);
    SiftDown(a, n - 1);
  }

  method MakeHeap<T>(a: array<BaseAndExponent<T>>)
    modifies a
    ensures IsHeap(a[..], a.Length)
    ensures multiset(a[..]) == multiset(old(a[..]))
  {
    for i := 0 to a.Length
      invariant IsHeap(a[..], i)
      invariant multiset(a[..]) == multiset(old(a[..]))
    {
      PushHeap(a, i + 1);
    }
  }
}
