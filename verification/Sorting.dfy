/** The stable sort the catalog tools rely on, and what determines its result. */
module Sorting {

  ghost predicate TotalPreorder<T(!new)>(leq: (T, T) -> bool) {
    && (forall a, b :: leq(a, b) || leq(b, a))
    && (forall a, b, c :: leq(a, b) && leq(b, c) ==> leq(a, c))
  }

  ghost predicate Sorted<T>(xs: seq<T>, leq: (T, T) -> bool) {
    forall i, j | 0 <= i < j < |xs| :: leq(xs[i], xs[j])
  }

  predicate SameRank<T>(a: T, b: T, leq: (T, T) -> bool) {
    leq(a, b) && leq(b, a)
  }

  /** The elements that tie with `x`, in order. */
  function Ties<T>(xs: seq<T>, x: T, leq: (T, T) -> bool): seq<T> {
    if xs == [] then []
    else Tie(xs[0], x, leq) + Ties(xs[1..], x, leq)
  }

  function Tie<T>(a: T, x: T, leq: (T, T) -> bool): seq<T> {
    if SameRank(a, x, leq) then [a] else []
  }

  function Insert<T>(x: T, xs: seq<T>, leq: (T, T) -> bool): (r: seq<T>)
    ensures multiset(r) == multiset([x]) + multiset(xs)
  {
    if xs == [] then [x]
    else if leq(x, xs[0]) then [x] + xs
    else
      assert xs == [xs[0]] + xs[1..];
      [xs[0]] + Insert(x, xs[1..], leq)
  }

  /** A stable sort; `StableSortIsUnique` says that no other result is possible for one. */
  function StableSort<T>(xs: seq<T>, leq: (T, T) -> bool): (r: seq<T>)
    ensures multiset(r) == multiset(xs)
  {
    if xs == [] then []
    else
      assert xs == [xs[0]] + xs[1..];
      Insert(xs[0], StableSort(xs[1..], leq), leq)
  }

  lemma {:induction false} InsertSorts<T(!new)>(x: T, xs: seq<T>, leq: (T, T) -> bool)
    requires TotalPreorder(leq) && Sorted(xs, leq)
    ensures Sorted(Insert(x, xs, leq), leq)
  {
    if xs != [] && !leq(x, xs[0]) {
      InsertSorts(x, xs[1..], leq);
      var rest := Insert(x, xs[1..], leq);
      forall j | 0 <= j < |rest|
        ensures leq(xs[0], rest[j])
      {
        assert rest[j] in multiset(rest);
        assert rest[j] == x || rest[j] in xs[1..];
      }
    }
  }

  lemma {:induction false} StableSortSorts<T(!new)>(xs: seq<T>, leq: (T, T) -> bool)
    requires TotalPreorder(leq)
    ensures Sorted(StableSort(xs, leq), leq)
  {
    if xs != [] {
      StableSortSorts(xs[1..], leq);
      InsertSorts(xs[0], StableSort(xs[1..], leq), leq);
    }
  }

  lemma NotBothTie<T(!new)>(x: T, z: T, y: T, leq: (T, T) -> bool)
    requires TotalPreorder(leq) && !leq(x, z)
    ensures Tie(x, y, leq) == [] || Tie(z, y, leq) == []
  {
  }

  lemma TiesOfCons<T>(a: T, xs: seq<T>, y: T, leq: (T, T) -> bool)
    ensures Ties([a] + xs, y, leq) == Tie(a, y, leq) + Ties(xs, y, leq)
  {
    assert ([a] + xs)[1..] == xs;
  }

  /** Two pieces of which one is empty can change places. */
  lemma Exchange<T>(p: seq<T>, q: seq<T>, r: seq<T>)
    requires p == [] || q == []
    ensures p + (q + r) == q + (p + r)
  {
    assert [] + r == r && [] + (q + r) == q + r && [] + (p + r) == p + r;
  }

  lemma {:induction false} InsertKeepsTies<T(!new)>(x: T, xs: seq<T>, y: T, leq: (T, T) -> bool)
    requires TotalPreorder(leq)
    ensures Ties(Insert(x, xs, leq), y, leq) == Tie(x, y, leq) + Ties(xs, y, leq)
  {
    if xs == [] || leq(x, xs[0]) {
      assert [x] + xs == Insert(x, xs, leq);
      TiesOfCons(x, xs, y, leq);
    } else {
      var z, rest := xs[0], xs[1..];
      InsertKeepsTies(x, rest, y, leq);
      NotBothTie(x, z, y, leq);
      TiesOfCons(z, Insert(x, rest, leq), y, leq);
      Exchange(Tie(x, y, leq), Tie(z, y, leq), Ties(rest, y, leq));
    }
  }

  /** Elements that tie keep their order. */
  lemma {:induction false} StableSortIsStable<T(!new)>(xs: seq<T>, y: T, leq: (T, T) -> bool)
    requires TotalPreorder(leq)
    ensures Ties(StableSort(xs, leq), y, leq) == Ties(xs, y, leq)
  {
    if xs != [] {
      StableSortIsStable(xs[1..], y, leq);
      InsertKeepsTies(xs[0], StableSort(xs[1..], leq), y, leq);
    }
  }

  lemma {:induction false} FirstTie<T>(xs: seq<T>, y: T, leq: (T, T) -> bool)
    ensures Ties(xs, y, leq) != [] <==> exists i :: 0 <= i < |xs| && SameRank(xs[i], y, leq)
  {
    if xs != [] {
      FirstTie(xs[1..], y, leq);
      if i :| 0 <= i < |xs| && SameRank(xs[i], y, leq) {
        assert i == 0 || xs[1..][i - 1] == xs[i];
      }
      if i :| 0 <= i < |xs[1..]| && SameRank(xs[1..][i], y, leq) {
        assert xs[i + 1] == xs[1..][i];
      }
    }
  }

  ghost predicate Pointwise<T(!new)>(xs: seq<T>, ys: seq<T>, r: (T, T) -> bool) {
    |xs| == |ys| && forall i | 0 <= i < |xs| :: r(xs[i], ys[i])
  }

  /** Sorted sequences whose ties are related one by one are related one by one, and tie there. */
  lemma {:induction false} SortedAgreeByTies<T(!new)>(xs: seq<T>, ys: seq<T>, leq: (T, T) -> bool, r: (T, T) -> bool)
    requires TotalPreorder(leq) && Sorted(xs, leq) && Sorted(ys, leq)
    requires forall x :: Pointwise(Ties(xs, x, leq), Ties(ys, x, leq), r)
    ensures Pointwise(xs, ys, r)
    ensures forall i | 0 <= i < |xs| :: SameRank(xs[i], ys[i], leq)
  {
    EmptyTogether(xs, ys, leq, r);
    if xs != [] {
      HeadsTie(xs, ys, leq, r);
      assert Pointwise(Ties(xs, xs[0], leq), Ties(ys, xs[0], leq), r);
      assert Ties(xs, xs[0], leq)[0] == xs[0] && Ties(ys, xs[0], leq)[0] == ys[0];
      forall x
        ensures Pointwise(Ties(xs[1..], x, leq), Ties(ys[1..], x, leq), r)
      {
        assert Pointwise(Ties(xs, x, leq), Ties(ys, x, leq), r);
        TailTies(xs, x, leq);
        TailTies(ys, x, leq);
        assert SameRank(xs[0], x, leq) <==> SameRank(ys[0], x, leq);
        if SameRank(xs[0], x, leq) {
          PointwiseTail(xs[0], Ties(xs[1..], x, leq), ys[0], Ties(ys[1..], x, leq), r);
        }
      }
      SortedAgreeByTies(xs[1..], ys[1..], leq, r);
    }
  }

  lemma EmptyTogether<T(!new)>(xs: seq<T>, ys: seq<T>, leq: (T, T) -> bool, r: (T, T) -> bool)
    requires TotalPreorder(leq)
    requires forall x :: Pointwise(Ties(xs, x, leq), Ties(ys, x, leq), r)
    ensures xs == [] <==> ys == []
  {
    if xs != [] {
      var x := xs[0];
      assert SameRank(x, x, leq) && Pointwise(Ties(xs, x, leq), Ties(ys, x, leq), r);
      FirstTie(xs, x, leq);
      FirstTie(ys, x, leq);
    }
    if ys != [] {
      var y := ys[0];
      assert SameRank(y, y, leq) && Pointwise(Ties(xs, y, leq), Ties(ys, y, leq), r);
      FirstTie(xs, y, leq);
      FirstTie(ys, y, leq);
    }
  }

  lemma PointwiseTail<T(!new)>(x: T, xs: seq<T>, y: T, ys: seq<T>, r: (T, T) -> bool)
    requires Pointwise([x] + xs, [y] + ys, r)
    ensures Pointwise(xs, ys, r)
  {
    assert forall i | 0 <= i < |xs| :: xs[i] == ([x] + xs)[i + 1] && ys[i] == ([y] + ys)[i + 1];
  }

  lemma TailTies<T>(xs: seq<T>, x: T, leq: (T, T) -> bool)
    requires xs != []
    ensures SameRank(xs[0], x, leq) ==> Ties(xs, x, leq) == [xs[0]] + Ties(xs[1..], x, leq)
    ensures !SameRank(xs[0], x, leq) ==> Ties(xs, x, leq) == Ties(xs[1..], x, leq)
  {
  }

  lemma HeadsTie<T(!new)>(xs: seq<T>, ys: seq<T>, leq: (T, T) -> bool, r: (T, T) -> bool)
    requires TotalPreorder(leq) && Sorted(xs, leq) && Sorted(ys, leq) && xs != [] && ys != []
    requires forall x :: Pointwise(Ties(xs, x, leq), Ties(ys, x, leq), r)
    ensures SameRank(xs[0], ys[0], leq)
  {
    var x, y := xs[0], ys[0];
    assert SameRank(x, x, leq) && SameRank(y, y, leq);
    assert Pointwise(Ties(xs, x, leq), Ties(ys, x, leq), r) && Pointwise(Ties(xs, y, leq), Ties(ys, y, leq), r);
    FirstTie(xs, x, leq);
    FirstTie(ys, x, leq);
    FirstTie(xs, y, leq);
    FirstTie(ys, y, leq);
    var i :| 0 <= i < |ys| && SameRank(ys[i], x, leq);
    var j :| 0 <= j < |xs| && SameRank(xs[j], y, leq);
    assert (i == 0 || leq(y, ys[i])) && (j == 0 || leq(x, xs[j]));
  }

  /** A sorted sequence is determined by its ties. */
  lemma SortedIsDeterminedByTies<T(!new)>(xs: seq<T>, ys: seq<T>, leq: (T, T) -> bool)
    requires TotalPreorder(leq) && Sorted(xs, leq) && Sorted(ys, leq)
    requires forall x :: Ties(xs, x, leq) == Ties(ys, x, leq)
    ensures xs == ys
  {
    var same := (a: T, b: T) => a == b;
    forall x
      ensures Pointwise(Ties(xs, x, leq), Ties(ys, x, leq), same)
    {
      assert Ties(xs, x, leq) == Ties(ys, x, leq);
    }
    SortedAgreeByTies(xs, ys, leq, same);
  }

  /** An insertion leaves what is strictly less before it, and the rest after it. */
  lemma {:induction false} InsertSplits<T>(x: T, xs: seq<T>, leq: (T, T) -> bool) returns (k: nat)
    ensures k <= |xs| && Insert(x, xs, leq) == (xs[..k] + [x]) + xs[k..]
    ensures forall j | 0 <= j < k :: !leq(x, xs[j])
  {
    if xs == [] || leq(x, xs[0]) {
      k := 0;
    } else {
      var rest := InsertSplits(x, xs[1..], leq);
      k := rest + 1;
      assert xs[..k] == [xs[0]] + xs[1..][..rest] && xs[k..] == xs[1..][rest..];
      assert [xs[0]] + ((xs[1..][..rest] + [x]) + xs[1..][rest..]) == (xs[..k] + [x]) + xs[k..];
    }
  }

  /** Any stable sort of `xs` gives `StableSort(xs)`. */
  lemma StableSortIsUnique<T(!new)>(xs: seq<T>, ys: seq<T>, leq: (T, T) -> bool)
    requires TotalPreorder(leq) && Sorted(ys, leq)
    requires forall x :: Ties(ys, x, leq) == Ties(xs, x, leq)
    ensures ys == StableSort(xs, leq)
  {
    StableSortSorts(xs, leq);
    forall x
      ensures Ties(ys, x, leq) == Ties(StableSort(xs, leq), x, leq)
    {
      StableSortIsStable(xs, x, leq);
    }
    SortedIsDeterminedByTies(ys, StableSort(xs, leq), leq);
  }

  /** The result depends on the input only through the order of the elements that tie. */
  lemma SortDependsOnlyOnTies<T(!new)>(xs: seq<T>, ys: seq<T>, leq: (T, T) -> bool)
    requires TotalPreorder(leq)
    requires forall x :: Ties(xs, x, leq) == Ties(ys, x, leq)
    ensures StableSort(xs, leq) == StableSort(ys, leq)
  {
    StableSortSorts(ys, leq);
    forall x
      ensures Ties(StableSort(ys, leq), x, leq) == Ties(xs, x, leq)
    {
      StableSortIsStable(ys, x, leq);
    }
    StableSortIsUnique(xs, StableSort(ys, leq), leq);
  }

  /** And only through that: sequences that sort to the same have the same ties in the same order. */
  lemma SameSortSameTies<T(!new)>(xs: seq<T>, ys: seq<T>, x: T, leq: (T, T) -> bool)
    requires TotalPreorder(leq) && StableSort(xs, leq) == StableSort(ys, leq)
    ensures Ties(xs, x, leq) == Ties(ys, x, leq)
  {
    StableSortIsStable(xs, x, leq);
    StableSortIsStable(ys, x, leq);
  }

  /** What is sorted already stays as it is. */
  lemma SortedStays<T(!new)>(xs: seq<T>, leq: (T, T) -> bool)
    requires TotalPreorder(leq) && Sorted(xs, leq)
    ensures StableSort(xs, leq) == xs
  {
    StableSortIsUnique(xs, xs, leq);
  }

  // ---------------------------------------------------------------------- string order

  /** Strings in the order of their characters, which is the order of their UTF-8 bytes. */
  predicate TextLeq(a: string, b: string) {
    a == [] || (b != [] && (a[0] < b[0] || (a[0] == b[0] && TextLeq(a[1..], b[1..]))))
  }

  predicate TextLess(a: string, b: string) {
    TextLeq(a, b) && a != b
  }

  lemma {:induction false} TextOrderIsTotal(a: string, b: string)
    ensures TextLeq(a, b) || TextLeq(b, a)
    ensures TextLeq(a, b) && TextLeq(b, a) ==> a == b
    ensures TextLeq(a, a)
  {
    if a != [] {
      TextOrderIsTotal(a[1..], a[1..]);
    }
    if a != [] && b != [] && a[0] == b[0] {
      TextOrderIsTotal(a[1..], b[1..]);
      assert a == [a[0]] + a[1..] && b == [b[0]] + b[1..];
    }
  }

  /** One text starts the other, or the first characters that differ decide. */
  lemma {:induction false} TextLeqIff(a: string, b: string)
    ensures TextLeq(a, b) <==> a <= b || exists i :: 0 <= i < |a| && i < |b| && a[..i] == b[..i] && a[i] < b[i]
  {
    if a != [] && b != [] {
      if a[0] == b[0] {
        TextLeqIff(a[1..], b[1..]);
        LaterDifference(a, b);
      } else if a[0] < b[0] {
        assert a[..0] == b[..0];
      } else {
        assert forall i | 0 < i && i < |a| && i < |b| :: a[..i][0] == a[0] && b[..i][0] == b[0];
      }
    }
  }

  lemma LaterDifference(a: string, b: string)
    requires a != [] && b != [] && a[0] == b[0]
    ensures a <= b <==> a[1..] <= b[1..]
    ensures (exists i :: 0 <= i < |a| && i < |b| && a[..i] == b[..i] && a[i] < b[i])
            <==> exists i :: 0 <= i < |a[1..]| && i < |b[1..]| && a[1..][..i] == b[1..][..i] && a[1..][i] < b[1..][i]
  {
    var p, q := a[1..], b[1..];
    assert a == [a[0]] + p && b == [b[0]] + q;
    if i :| 0 <= i < |a| && i < |b| && a[..i] == b[..i] && a[i] < b[i] {
      assert p[..i - 1] == a[..i][1..] && q[..i - 1] == b[..i][1..];
      assert p[i - 1] < q[i - 1];
    }
    if i :| 0 <= i < |p| && i < |q| && p[..i] == q[..i] && p[i] < q[i] {
      assert a[..i + 1] == [a[0]] + p[..i] && b[..i + 1] == [b[0]] + q[..i];
      assert a[i + 1] < b[i + 1];
    }
  }

  lemma {:induction false} TextOrderIsTransitive(a: string, b: string, c: string)
    requires TextLeq(a, b) && TextLeq(b, c)
    ensures TextLeq(a, c)
  {
    if a != [] && a[0] == b[0] == c[0] {
      TextOrderIsTransitive(a[1..], b[1..], c[1..]);
    }
  }
}
