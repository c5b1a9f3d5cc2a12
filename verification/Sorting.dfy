/** Stable sorting by a given order, and what sorted sequences are determined by. */
module Sorting {

  ghost predicate TotalPreorder<T(!new)>(le: (T, T) -> bool) {
    && (forall a, b :: le(a, b) || le(b, a))
    && (forall a, b, c :: le(a, b) && le(b, c) ==> le(a, c))
  }

  ghost predicate Sorted<T>(xs: seq<T>, le: (T, T) -> bool) {
    forall i, j :: 0 <= i < j < |xs| ==> le(xs[i], xs[j])
  }

  // Sorted, with no two elements on a par.
  ghost predicate Strict<T>(xs: seq<T>, le: (T, T) -> bool) {
    forall i, j :: 0 <= i < j < |xs| ==> !le(xs[j], xs[i])
  }

  ghost predicate NoTwoAlike<T>(xs: seq<T>, le: (T, T) -> bool) {
    forall i, j :: 0 <= i < j < |xs| ==> !le(xs[i], xs[j]) || !le(xs[j], xs[i])
  }

  // The elements on a par with `x`, in order.
  function Alike<T>(xs: seq<T>, x: T, le: (T, T) -> bool): seq<T> {
    if xs == [] then []
    else
      var init, last := Alike(xs[..|xs| - 1], x, le), xs[|xs| - 1];
      if le(last, x) && le(x, last) then init + [last] else init
  }

  // `r` is what a stable sort makes of `xs`.
  ghost predicate IsSortOf<T(!new)>(r: seq<T>, xs: seq<T>, le: (T, T) -> bool) {
    && Sorted(r, le) && multiset(r) == multiset(xs)
    && (forall x :: Alike(r, x, le) == Alike(xs, x, le))
    && (NoTwoAlike(xs, le) ==> Strict(r, le))
  }

  // `sort_by`: a stable sort.
  method SortBy<T(!new)>(xs: seq<T>, le: (T, T) -> bool) returns (r: seq<T>)
    requires TotalPreorder(le)
    ensures IsSortOf(r, xs, le)
  {
    r := [];
    assert xs[..0] == [];
    for i := 0 to |xs|
      invariant IsSortOf(r, xs[..i], le)
    {
      var inserted := Insert(r, xs[i], le);
      InsertionExtends(r, xs[..i], xs[i], inserted, xs[..i + 1], le);
      r := inserted;
    }
    assert xs[..|xs|] == xs;
  }

  // `r` is `sorted` with `x` inserted.
  ghost predicate IsInsertion<T(!new)>(r: seq<T>, sorted: seq<T>, x: T, le: (T, T) -> bool) {
    && Sorted(r, le) && multiset(r) == multiset(sorted) + multiset{x}
    && (forall y :: Alike(r, y, le) == Alike(sorted, y, le) + IfAlike(x, y, le))
    && (Strict(sorted, le) && (forall y :: y in sorted ==> !le(y, x) || !le(x, y)) ==> Strict(r, le))
  }

  function IfAlike<T>(x: T, y: T, le: (T, T) -> bool): seq<T> {
    if le(x, y) && le(y, x) then [x] else []
  }

  // Inserts behind every element that is not greater.
  method Insert<T(!new)>(sorted: seq<T>, x: T, le: (T, T) -> bool) returns (r: seq<T>)
    requires TotalPreorder(le) && Sorted(sorted, le)
    ensures IsInsertion(r, sorted, x, le)
  {
    var i := |sorted|;
    while i > 0 && !le(sorted[i - 1], x)
      invariant 0 <= i <= |sorted|
      invariant forall j :: i <= j < |sorted| ==> !le(sorted[j], x)
    {
      i := i - 1;
    }
    r := sorted[..i] + [x] + sorted[i..];
    InsertedSorted(sorted, i, x, le);
    InsertedElements(sorted, i, x);
    InsertedStable(sorted, i, x, le);
  }

  lemma InsertionExtends<T(!new)>(sorted: seq<T>, xs: seq<T>, x: T, r: seq<T>, more: seq<T>, le: (T, T) -> bool)
    requires IsSortOf(sorted, xs, le) && IsInsertion(r, sorted, x, le) && more == xs + [x]
    ensures IsSortOf(r, more, le)
  {
    SameElements(sorted, xs);
    forall y ensures Alike(r, y, le) == Alike(more, y, le) {
      assert Alike(sorted, y, le) == Alike(xs, y, le);
      AlikeSnoc(xs, x, y, le);
    }
    if NoTwoAlike(more, le) {
      PrefixNoTwoAlike(xs, x, le);
    }
  }

  lemma PrefixNoTwoAlike<T>(xs: seq<T>, x: T, le: (T, T) -> bool)
    requires NoTwoAlike(xs + [x], le)
    ensures NoTwoAlike(xs, le) && forall y :: y in xs ==> !le(y, x) || !le(x, y)
  {
    var more := xs + [x];
    assert forall i :: 0 <= i < |xs| ==> more[i] == xs[i];
    assert more[|xs|] == x;
  }

  lemma InsertedAt<T>(sorted: seq<T>, i: nat, x: T, j: nat)
    requires i <= |sorted| && j <= |sorted|
    ensures (sorted[..i] + [x] + sorted[i..])[j] == if j < i then sorted[j] else if j == i then x else sorted[j - 1]
  {
  }

  lemma InsertedSorted<T(!new)>(sorted: seq<T>, i: nat, x: T, le: (T, T) -> bool)
    requires TotalPreorder(le) && Sorted(sorted, le) && i <= |sorted|
    requires i > 0 ==> le(sorted[i - 1], x)
    requires forall j :: i <= j < |sorted| ==> !le(sorted[j], x)
    ensures Sorted(sorted[..i] + [x] + sorted[i..], le)
    ensures Strict(sorted, le) && (forall y :: y in sorted ==> !le(y, x) || !le(x, y)) ==>
      Strict(sorted[..i] + [x] + sorted[i..], le)
  {
    var r := sorted[..i] + [x] + sorted[i..];
    forall j | 0 <= j < i ensures le(sorted[j], x) {
      assert le(sorted[j], sorted[i - 1]) || j == i - 1;
    }
    forall a, b | 0 <= a < b < |r| ensures le(r[a], r[b]) {
      InsertedAt(sorted, i, x, a);
      InsertedAt(sorted, i, x, b);
    }
    if Strict(sorted, le) && forall y :: y in sorted ==> !le(y, x) || !le(x, y) {
      forall a, b | 0 <= a < b < |r| ensures !le(r[b], r[a]) {
        InsertedAt(sorted, i, x, a);
        InsertedAt(sorted, i, x, b);
        assert a < i ==> sorted[a] in sorted;
      }
    }
  }

  lemma InsertedElements<T>(sorted: seq<T>, i: nat, x: T)
    requires i <= |sorted|
    ensures multiset(sorted[..i] + [x] + sorted[i..]) == multiset(sorted) + multiset{x}
  {
    assert sorted == sorted[..i] + sorted[i..];
  }

  lemma SameElements<T>(a: seq<T>, b: seq<T>)
    requires multiset(a) == multiset(b)
    ensures forall x :: x in a <==> x in b
  {
    assert forall x :: x in a <==> x in multiset(a);
    assert forall x :: x in b <==> x in multiset(b);
  }

  lemma {:induction false} AlikeConcat<T>(a: seq<T>, b: seq<T>, x: T, le: (T, T) -> bool)
    ensures Alike(a + b, x, le) == Alike(a, x, le) + Alike(b, x, le)
  {
    if b == [] {
      assert a + b == a;
    } else {
      assert (a + b)[..|a + b| - 1] == a + b[..|b| - 1];
      AlikeConcat(a, b[..|b| - 1], x, le);
    }
  }

  lemma {:induction false} NoneAlike<T>(xs: seq<T>, x: T, le: (T, T) -> bool)
    requires forall j :: 0 <= j < |xs| ==> !le(xs[j], x)
    ensures Alike(xs, x, le) == []
  {
    if xs != [] {
      NoneAlike(xs[..|xs| - 1], x, le);
    }
  }

  lemma StaysGreater<T(!new)>(z: T, x: T, y: T, le: (T, T) -> bool)
    requires TotalPreorder(le) && le(y, x) && !le(z, x)
    ensures !le(z, y)
  {
  }

  // Behind the place of insertion there are only greater elements.
  lemma InsertedStable<T(!new)>(sorted: seq<T>, i: nat, x: T, le: (T, T) -> bool)
    requires TotalPreorder(le) && i <= |sorted|
    requires forall j :: i <= j < |sorted| ==> !le(sorted[j], x)
    ensures forall y :: Alike(sorted[..i] + [x] + sorted[i..], y, le) == Alike(sorted, y, le) + IfAlike(x, y, le)
  {
    forall y ensures Alike(sorted[..i] + [x] + sorted[i..], y, le) == Alike(sorted, y, le) + IfAlike(x, y, le) {
      if le(x, y) && le(y, x) {
        forall j | i <= j < |sorted| ensures !le(sorted[j], y) {
          StaysGreater(sorted[j], x, y, le);
        }
      }
      AlikeInserted(sorted[..i], sorted[i..], x, y, le);
      assert sorted == sorted[..i] + sorted[i..];
    }
  }

  lemma AlikeInserted<T>(front: seq<T>, back: seq<T>, x: T, y: T, le: (T, T) -> bool)
    requires le(x, y) && le(y, x) ==> forall j :: 0 <= j < |back| ==> !le(back[j], y)
    ensures Alike(front + [x] + back, y, le) == Alike(front + back, y, le) + IfAlike(x, y, le)
  {
    AlikeConcat(front, back, y, le);
    AlikeConcat(front + [x], back, y, le);
    AlikeSnoc(front, x, y, le);
    if le(x, y) && le(y, x) {
      NoneAlike(back, y, le);
    }
  }

  lemma AlikeSnoc<T>(xs: seq<T>, x: T, y: T, le: (T, T) -> bool)
    ensures Alike(xs + [x], y, le) == Alike(xs, y, le) + IfAlike(x, y, le)
  {
    assert (xs + [x])[..|xs|] == xs;
  }

  // There is only one way to list elements in strict order.
  lemma {:induction false} SameStrict<T(!new)>(a: seq<T>, b: seq<T>, le: (T, T) -> bool)
    requires TotalPreorder(le) && Strict(a, le) && Strict(b, le)
    requires forall x :: x in a <==> x in b
    ensures a == b
  {
    EmptyTogether(a, b);
    if a != [] {
      FirstAgrees(a, b, le);
      forall x ensures x in a[1..] <==> x in b[1..] {
        TailMember(a, x, le);
        TailMember(b, x, le);
      }
      SameStrict(a[1..], b[1..], le);
      assert a == [a[0]] + a[1..] && b == [b[0]] + b[1..];
    }
  }

  lemma EmptyTogether<T>(a: seq<T>, b: seq<T>)
    requires forall x :: x in a <==> x in b
    ensures a == [] <==> b == []
  {
    if a != [] {
      assert a[0] in b;
    }
    if b != [] {
      assert b[0] in a;
    }
  }

  lemma FirstAgrees<T(!new)>(a: seq<T>, b: seq<T>, le: (T, T) -> bool)
    requires TotalPreorder(le) && Strict(a, le) && Strict(b, le) && a != [] && b != []
    requires a[0] in b && b[0] in a
    ensures a[0] == b[0]
  {
    var i :| 0 <= i < |b| && b[i] == a[0];
    var j :| 0 <= j < |a| && a[j] == b[0];
    var x, y := a[0], b[0];
    assert le(x, y) || le(y, x);
  }

  lemma TailMember<T(!new)>(a: seq<T>, x: T, le: (T, T) -> bool)
    requires TotalPreorder(le) && Strict(a, le) && a != []
    ensures x in a[1..] <==> x in a && x != a[0]
  {
    assert a == [a[0]] + a[1..];
    var first := a[0];
    assert le(first, first);
  }
}
