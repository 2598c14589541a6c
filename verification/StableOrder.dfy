/** A stable sort by a small numeric key, written as one pass per key value. */
module StableOrder {

  /** The elements with key r, in their own order. */
  function Pick<T>(key: T -> nat, xs: seq<T>, r: nat): seq<T> {
    if xs == [] then []
    else (if key(xs[0]) == r then [xs[0]] else []) + Pick(key, xs[1..], r)
  }

  /** The elements with keys below k, key by key. */
  function PickBelow<T>(key: T -> nat, xs: seq<T>, k: nat): seq<T> {
    if k == 0 then [] else PickBelow(key, xs, k - 1) + Pick(key, xs, k - 1)
  }

  /** The elements satisfying p, in their own order. */
  function Filter<T>(p: T -> bool, xs: seq<T>): seq<T> {
    if xs == [] then [] else (if p(xs[0]) then [xs[0]] else []) + Filter(p, xs[1..])
  }

  lemma {:induction false} PickAppend<T>(key: T -> nat, a: seq<T>, b: seq<T>, r: nat)
    ensures Pick(key, a + b, r) == Pick(key, a, r) + Pick(key, b, r)
  {
    if a == [] {
      assert a + b == b;
    } else {
      assert (a + b)[0] == a[0] && (a + b)[1..] == a[1..] + b;
      PickAppend(key, a[1..], b, r);
      var head := if key(a[0]) == r then [a[0]] else [];
      assert head + (Pick(key, a[1..], r) + Pick(key, b, r)) == head + Pick(key, a[1..], r) + Pick(key, b, r);
    }
  }

  lemma PickSnoc<T>(key: T -> nat, xs: seq<T>, j: nat, r: nat)
    requires j < |xs|
    ensures Pick(key, xs[..j + 1], r) == Pick(key, xs[..j], r) + if key(xs[j]) == r then [xs[j]] else []
  {
    assert xs[..j + 1] == xs[..j] + [xs[j]];
    PickAppend(key, xs[..j], [xs[j]], r);
    assert [xs[j]][1..] == [];
  }

  lemma {:induction false} FilterAppend<T>(p: T -> bool, a: seq<T>, b: seq<T>)
    ensures Filter(p, a + b) == Filter(p, a) + Filter(p, b)
  {
    if a == [] {
      assert a + b == b;
    } else {
      assert (a + b)[0] == a[0] && (a + b)[1..] == a[1..] + b;
      FilterAppend(p, a[1..], b);
      var head := if p(a[0]) then [a[0]] else [];
      assert head + (Filter(p, a[1..]) + Filter(p, b)) == head + Filter(p, a[1..]) + Filter(p, b);
    }
  }

  /** With the law for concatenations, this says all there is to say of a filter. */
  lemma FilterOne<T>(p: T -> bool, x: T)
    ensures Filter(p, []) == [] && Filter(p, [x]) == if p(x) then [x] else []
  {
    assert [x][1..] == [];
  }

  lemma {:induction false} PickHasKey<T>(key: T -> nat, xs: seq<T>, r: nat)
    ensures forall x | x in Pick(key, xs, r) :: x in xs && key(x) == r
  {
    if xs != [] {
      PickHasKey(key, xs[1..], r);
    }
  }

  /** Elements that all have key q: picking q keeps them all, picking another key keeps none. */
  lemma {:induction false} PickUniform<T>(key: T -> nat, xs: seq<T>, q: nat, r: nat)
    requires forall x | x in xs :: key(x) == q
    ensures Pick(key, xs, r) == if r == q then xs else []
  {
    if xs != [] {
      assert forall x | x in xs[1..] :: x in xs;
      PickUniform(key, xs[1..], q, r);
    }
  }

  lemma PickNothing<T>(key: T -> nat, r: nat)
    ensures Pick(key, [], r) == []
  {
  }

  lemma PickOfPick<T>(key: T -> nat, xs: seq<T>, q: nat, r: nat)
    ensures Pick(key, Pick(key, xs, q), r) == if r == q then Pick(key, xs, q) else []
  {
    PickHasKey(key, xs, q);
    PickUniform(key, Pick(key, xs, q), q, r);
  }

  /** Stability: the elements of each key keep their order. */
  lemma {:induction false} PickOfPickBelow<T>(key: T -> nat, xs: seq<T>, k: nat, r: nat)
    ensures Pick(key, PickBelow(key, xs, k), r) == if r < k then Pick(key, xs, r) else []
  {
    hide Pick;
    if k == 0 {
      PickNothing(key, r);
    } else {
      PickOfPickBelow(key, xs, k - 1, r);
      PickAppend(key, PickBelow(key, xs, k - 1), Pick(key, xs, k - 1), r);
      PickOfPick(key, xs, k - 1, r);
      if r == k - 1 {
        assert [] + Pick(key, xs, r) == Pick(key, xs, r);
      }
    }
  }

  lemma {:induction false} PickBelowIsSorted<T>(key: T -> nat, xs: seq<T>, k: nat)
    ensures forall x | x in PickBelow(key, xs, k) :: x in xs && key(x) < k
    ensures forall i, j | 0 <= i < j < |PickBelow(key, xs, k)| ::
              key(PickBelow(key, xs, k)[i]) <= key(PickBelow(key, xs, k)[j])
  {
    if k > 0 {
      PickBelowIsSorted(key, xs, k - 1);
      PickHasKey(key, xs, k - 1);
    }
  }

  lemma PickOfCons<T>(key: T -> nat, xs: seq<T>, r: nat)
    requires xs != []
    ensures multiset(Pick(key, xs, r))
         == multiset(Pick(key, xs[1..], r)) + if key(xs[0]) == r then multiset{xs[0]} else multiset{}
  {
  }

  /** One more element goes in with its key, wherever that is. */
  lemma {:induction false} PickBelowOfCons<T>(key: T -> nat, xs: seq<T>, k: nat)
    requires xs != []
    ensures var one := if key(xs[0]) < k then multiset{xs[0]} else multiset{};
            multiset(PickBelow(key, xs, k)) == multiset(PickBelow(key, xs[1..], k)) + one
  {
    hide Pick;
    if k > 0 {
      PickBelowOfCons(key, xs, k - 1);
      PickOfCons(key, xs, k - 1);
    }
  }

  lemma {:induction false} PickBelowOfNothing<T>(key: T -> nat, k: nat)
    ensures PickBelow(key, [], k) == []
  {
    if k > 0 {
      PickBelowOfNothing(key, k - 1);
    }
  }

  lemma {:induction false} PickBelowIsPermutation<T>(key: T -> nat, xs: seq<T>, k: nat)
    requires forall x | x in xs :: key(x) < k
    ensures multiset(PickBelow(key, xs, k)) == multiset(xs)
  {
    hide PickBelow;
    if xs == [] {
      PickBelowOfNothing(key, k);
    } else {
      assert forall x | x in xs[1..] :: x in xs;
      PickBelowIsPermutation(key, xs[1..], k);
      PickBelowOfCons(key, xs, k);
      assert xs == [xs[0]] + xs[1..];
    }
  }

  /** The result is determined by the per-key selections, so sorting twice is sorting once. */
  lemma {:induction false} PickBelowByPicks<T>(key: T -> nat, a: seq<T>, b: seq<T>, k: nat)
    requires forall r: nat | r < k :: Pick(key, a, r) == Pick(key, b, r)
    ensures PickBelow(key, a, k) == PickBelow(key, b, k)
  {
    if k > 0 {
      PickBelowByPicks(key, a, b, k - 1);
    }
  }

  lemma PickBelowIsIdempotent<T>(key: T -> nat, xs: seq<T>, k: nat)
    ensures PickBelow(key, PickBelow(key, xs, k), k) == PickBelow(key, xs, k)
  {
    forall r: nat | r < k ensures Pick(key, PickBelow(key, xs, k), r) == Pick(key, xs, r) {
      PickOfPickBelow(key, xs, k, r);
    }
    PickBelowByPicks(key, PickBelow(key, xs, k), xs, k);
  }

  lemma {:induction false} FilterOfPick<T>(key: T -> nat, p: T -> bool, xs: seq<T>, r: nat, q: nat)
    requires forall x | x in xs && p(x) :: key(x) == q
    ensures Filter(p, Pick(key, xs, r)) == if r == q then Filter(p, xs) else []
  {
    if xs != [] {
      assert forall x | x in xs[1..] :: x in xs;
      FilterOfPick(key, p, xs[1..], r, q);
      FilterAppend(p, if key(xs[0]) == r then [xs[0]] else [], Pick(key, xs[1..], r));
      assert [xs[0]][1..] == [];
    }
  }

  /** Any class of elements that share one key keeps its own order. */
  lemma {:induction false} FilterOfPickBelow<T>(key: T -> nat, p: T -> bool, xs: seq<T>, k: nat, q: nat)
    requires forall x | x in xs && p(x) :: key(x) == q
    ensures Filter(p, PickBelow(key, xs, k)) == if q < k then Filter(p, xs) else []
  {
    if k > 0 {
      FilterOfPickBelow(key, p, xs, k - 1, q);
      FilterOfPick(key, p, xs, k - 1, q);
      FilterAppend(p, PickBelow(key, xs, k - 1), Pick(key, xs, k - 1));
    }
  }
}
