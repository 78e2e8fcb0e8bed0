/** Sorting that leaves equals in their order, as JavaScript's Array.prototype.sort does. */
module StableSort {
  ghost predicate Preorder<T(!new)>(leq: (T, T) -> bool) {
    && (forall a, b :: leq(a, b) || leq(b, a))
    && (forall a, b, c :: leq(a, b) && leq(b, c) ==> leq(a, c))
  }

  function Insert<T>(x: T, ys: seq<T>, leq: (T, T) -> bool): seq<T> {
    if ys == [] || leq(x, ys[0]) then [x] + ys else [ys[0]] + Insert(x, ys[1..], leq)
  }

  function Sort<T>(xs: seq<T>, leq: (T, T) -> bool): seq<T> {
    if xs == [] then [] else Insert(xs[0], Sort(xs[1..], leq), leq)
  }

  ghost predicate Ordered<T>(xs: seq<T>, leq: (T, T) -> bool) {
    forall i, j | 0 <= i < j < |xs| :: leq(xs[i], xs[j])
  }

  function Only<T>(xs: seq<T>, p: T -> bool): seq<T> {
    if xs == [] then [] else (if p(xs[0]) then [xs[0]] else []) + Only(xs[1..], p)
  }

  lemma {:induction false} InsertMembers<T>(x: T, ys: seq<T>, leq: (T, T) -> bool)
    ensures multiset(Insert(x, ys, leq)) == multiset(ys) + multiset{x}
  {
    if ys != [] && !leq(x, ys[0]) {
      InsertMembers(x, ys[1..], leq);
      assert ys == [ys[0]] + ys[1..];
    }
  }

  lemma {:induction false} InsertOrdered<T(!new)>(x: T, ys: seq<T>, leq: (T, T) -> bool)
    requires Preorder(leq) && Ordered(ys, leq)
    ensures Ordered(Insert(x, ys, leq), leq)
  {
    var r := Insert(x, ys, leq);
    if ys != [] && !leq(x, ys[0]) {
      var t := Insert(x, ys[1..], leq);
      InsertOrdered(x, ys[1..], leq);
      InsertMembers(x, ys[1..], leq);
      forall j | 0 <= j < |t| ensures leq(ys[0], t[j]) {
        assert t[j] in multiset(t);
        if t[j] != x {
          assert t[j] in ys[1..];
        }
      }
      assert r == [ys[0]] + t;
    } else {
      assert r == [x] + ys;
    }
  }

  lemma {:induction false} InsertStable<T(!new)>(x: T, ys: seq<T>, leq: (T, T) -> bool, p: T -> bool)
    requires forall a, b :: p(a) && p(b) ==> leq(a, b)
    ensures Only(Insert(x, ys, leq), p) == (if p(x) then [x] else []) + Only(ys, p)
  {
    hide Only;
    if ys == [] || leq(x, ys[0]) {
      OnlyFirst(x, ys, p);
    } else {
      assert p(x) ==> !p(ys[0]);
      InsertStable(x, ys[1..], leq, p);
      OnlyFirst(ys[0], Insert(x, ys[1..], leq), p);
      OnlyFirst(ys[0], ys[1..], p);
      assert ys == [ys[0]] + ys[1..];
    }
  }

  lemma OnlyFirst<T(!new)>(y: T, ys: seq<T>, p: T -> bool)
    ensures Only([y] + ys, p) == (if p(y) then [y] else []) + Only(ys, p)
  {
    assert ([y] + ys)[1..] == ys;
  }

  /** The result has the same elements, in order. */
  lemma {:induction false} SortOrdered<T(!new)>(xs: seq<T>, leq: (T, T) -> bool)
    requires Preorder(leq)
    ensures multiset(Sort(xs, leq)) == multiset(xs) && Ordered(Sort(xs, leq), leq)
  {
    if xs != [] {
      SortOrdered(xs[1..], leq);
      InsertMembers(xs[0], Sort(xs[1..], leq), leq);
      InsertOrdered(xs[0], Sort(xs[1..], leq), leq);
      assert xs == [xs[0]] + xs[1..];
    }
  }

  /** Elements that the order does not tell apart stay in their order. */
  lemma {:induction false} SortStable<T(!new)>(xs: seq<T>, leq: (T, T) -> bool, p: T -> bool)
    requires forall a, b :: p(a) && p(b) ==> leq(a, b)
    ensures Only(Sort(xs, leq), p) == Only(xs, p)
  {
    if xs != [] {
      SortStable(xs[1..], leq, p);
      InsertStable(xs[0], Sort(xs[1..], leq), leq, p);
    }
  }
}
