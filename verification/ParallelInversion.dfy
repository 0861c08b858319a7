/** Inverting many field elements with one inversion at the bottom of a recursion on pairwise
    products (ecp.cpp, ParallelInvert). */
module ParallelInversion {
  import opened Fields

  /** b·inv(ab) == inv(a), when neither is zero. */
  lemma PairInverse<E(!new)>(F: Field<E>, a: E, b: E)
    requires IsField(F)
    ensures F.inv(F.mul(a, b)) == F.zero <==> a == F.zero || b == F.zero
    ensures F.inv(F.mul(a, b)) != F.zero ==> F.mul(b, F.inv(F.mul(a, b))) == F.inv(a)
    ensures F.inv(F.mul(a, b)) != F.zero ==> F.mul(a, F.inv(F.mul(a, b))) == F.inv(b)
  {
    var p := F.mul(a, b);
    InvInv(F, p);
    NoZeroDivisors(F, a, b);
    if p != F.zero {
      Laws1(F, p);
      Assoc(F, a, b, F.inv(p));
      InvUnique(F, a, F.mul(b, F.inv(p)));
      Comm(F, a, b);
      Assoc(F, b, a, F.inv(p));
      InvUnique(F, b, F.mul(a, F.inv(p)));
    }
  }

  /** Every element of the array is replaced by its inverse, zeros included. */
  method ParallelInvert<E(!new, ==)>(F: Field<E>, a: array<E>)
    requires IsField(F)
    modifies a
    ensures forall k :: 0 <= k < a.Length ==> a[k] == F.inv(old(a[k]))
    decreases a.Length
  {
    var n := a.Length;
    if n == 1 {
      a[0] := F.inv(a[0]);
    } else if n > 1 {
      var vec := new E[(n + 1) / 2](_ => F.zero);
      MultiplyPairs(F, a, vec);
      ghost var products := vec[..];
      ParallelInvert(F, vec);
      assert forall k :: 0 <= k < vec.Length ==> vec[k] == F.inv(products[k]);
      SplitPairs(F, a, vec);
    }
  }

  /** The first loop: neighbours are multiplied, an odd element out is copied. */
  method MultiplyPairs<E(!new, ==)>(F: Field<E>, a: array<E>, vec: array<E>)
    requires a.Length > 1 && vec.Length == (a.Length + 1) / 2 && a != vec
    modifies vec
    ensures forall k :: 0 <= k < a.Length / 2 ==> vec[k] == F.mul(a[2 * k], a[2 * k + 1])
    ensures a.Length % 2 == 1 ==> vec[a.Length / 2] == a[a.Length - 1]
  {
    var n := a.Length;
    var it := 0;
    for i := 0 to n / 2
      invariant it == 2 * i
      invariant forall k :: 0 <= k < i ==> vec[k] == F.mul(a[2 * k], a[2 * k + 1])
    {
      vec[i] := F.mul(a[it], a[it + 1]);
      it := it + 2;
    }
    if n % 2 == 1 {
      vec[n / 2] := a[it];
    }
  }

  /** The second loop: each inverted product gives back the two inverses, unless it is zero. */
  method SplitPairs<E(!new, ==)>(F: Field<E>, a: array<E>, vec: array<E>)
    requires IsField(F) && a.Length > 1 && vec.Length == (a.Length + 1) / 2 && a != vec
    requires forall k :: 0 <= k < a.Length / 2 ==> vec[k] == F.inv(F.mul(a[2 * k], a[2 * k + 1]))
    requires a.Length % 2 == 1 ==> vec[a.Length / 2] == F.inv(a[a.Length - 1])
    modifies a
    ensures forall k :: 0 <= k < a.Length ==> a[k] == F.inv(old(a[k]))
  {
    hide IsField;
    var n := a.Length;
    var it := 0;
    for i := 0 to n / 2
      invariant it == 2 * i
      invariant forall k :: 0 <= k < it ==> a[k] == F.inv(old(a[k]))
      invariant forall k :: it <= k < n ==> a[k] == old(a[k])
    {
      PairInverse(F, a[it], a[it + 1]);
      assert vec[i] == F.inv(F.mul(old(a[2 * i]), old(a[2 * i + 1])));
      if vec[i] == F.zero {
        a[it] := F.inv(a[it]);
        a[it + 1] := F.inv(a[it + 1]);
      } else {
        a[it], a[it + 1] := a[it + 1], a[it];
        a[it] := F.mul(a[it], vec[i]);
        a[it + 1] := F.mul(a[it + 1], vec[i]);
      }
      it := it + 2;
    }
    if n % 2 == 1 {
      a[it] := vec[n / 2];
    }
  }
}
