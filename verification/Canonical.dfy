/** The canonical form of catalog values, and that it decides equality up to the order of keys. */
module Canonical {
  import opened Wrappers
  import opened TsData
  import opened Sorting

  const THINKING_LEVEL_ORDER: seq<string> := ["off", "minimal", "low", "medium", "high", "xhigh", "max"]

  const USIZE_MAX: nat := 0xFFFF_FFFF_FFFF_FFFF

  function Position(levels: seq<string>, key: string): Option<nat> {
    if levels == [] then None
    else if levels[0] == key then Some(0)
    else
      match Position(levels[1..], key)
      case None => None
      case Some(i) => Some(i + 1)
  }

  function ThinkingLevelRank(key: string): nat {
    match Position(THINKING_LEVEL_ORDER, key)
    case Some(i) => i
    case None => USIZE_MAX
  }

  predicate IsLadder(parentKey: string) {
    parentKey == "thinkingLevelMap" || parentKey == "values"
  }

  predicate KeyLeq(ladder: bool, a: string, b: string) {
    if !ladder || ThinkingLevelRank(a) == ThinkingLevelRank(b) then TextLeq(a, b)
    else ThinkingLevelRank(a) < ThinkingLevelRank(b)
  }

  function EntryOrder(ladder: bool): ((string, Val), (string, Val)) -> bool {
    (a: (string, Val), b: (string, Val)) => KeyLeq(ladder, a.0, b.0)
  }

  /** The keys of an object are sorted under both orders; an array's items have no parent key. */
  function Canonicalize(v: Val, parentKey: string): Val
    decreases v
  {
    match v
    case Arr(items) => Arr(seq(|items|, i requires 0 <= i < |items| => Canonicalize(items[i], "")))
    case Obj(entries) =>
      var sorted := StableSort(entries, EntryOrder(IsLadder(parentKey)));
      Obj(seq(|sorted|, i requires 0 <= i < |sorted| =>
        assert sorted[i] in multiset(sorted);
        assert sorted[i] in entries;
        assert sorted[i].1 < sorted[i];
        (sorted[i].0, Canonicalize(sorted[i].1, sorted[i].0))))
    case _ => v
  }

  // ---------------------------------------------------------------- equality up to order

  /** `p` lists each number below `n` once. */
  ghost predicate IsPermutation(p: seq<nat>, n: nat) {
    && |p| == n
    && (forall i | 0 <= i < n :: p[i] < n)
    && (forall i, j | 0 <= i < j < n :: p[i] != p[j])
    && (forall m: nat | m < n :: m in p)
  }

  /** The values differ only by the order of object entries, at any depth. */
  ghost predicate SameUpToOrder(a: Val, b: Val)
    decreases a
  {
    match a
    case Arr(items) =>
      b.Arr? && |b.items| == |items| && forall i | 0 <= i < |items| :: SameUpToOrder(items[i], b.items[i])
    case Obj(entries) =>
      b.Obj? && |b.entries| == |entries| && exists p :: Matches(entries, b.entries, p)
    case _ => a == b
  }

  /** Entry `i` of `a` is entry `p[i]` of `b`, up to the order of keys inside its value. */
  ghost predicate Matches(a: Entries, b: Entries, p: seq<nat>)
    decreases a
  {
    && |a| == |b| && IsPermutation(p, |a|)
    && forall i | 0 <= i < |a| ::
         assert a[i].1 < a[i]; a[i].0 == b[p[i]].0 && SameUpToOrder(a[i].1, b[p[i]].1)
  }

  /** No object at any depth has a key twice. */
  ghost predicate DeepDistinct(v: Val)
    decreases v
  {
    match v
    case Arr(items) => forall i | 0 <= i < |items| :: DeepDistinct(items[i])
    case Obj(entries) =>
      DistinctKeys(entries) && forall i | 0 <= i < |entries| :: assert entries[i].1 < entries[i]; DeepDistinct(entries[i].1)
    case _ => true
  }

  // ------------------------------------------------------------------------- the orders

  lemma KeyOrderIsTotal(ladder: bool)
    ensures TotalPreorder(EntryOrder(ladder))
  {
    var leq := EntryOrder(ladder);
    forall a, b
      ensures leq(a, b) || leq(b, a)
    {
      TextOrderIsTotal(a.0, b.0);
    }
    forall a, b, c | leq(a, b) && leq(b, c)
      ensures leq(a, c)
    {
      KeyLeqIsTransitive(ladder, a.0, b.0, c.0);
    }
  }

  lemma KeyLeqIsTransitive(ladder: bool, a: string, b: string, c: string)
    requires KeyLeq(ladder, a, b) && KeyLeq(ladder, b, c)
    ensures KeyLeq(ladder, a, c)
  {
    if TextLeq(a, b) && TextLeq(b, c) {
      TextOrderIsTransitive(a, b, c);
    }
  }

  lemma KeyLeqIsAntisymmetric(ladder: bool, a: string, b: string)
    requires KeyLeq(ladder, a, b) && KeyLeq(ladder, b, a)
    ensures a == b
  {
    TextOrderIsTotal(a, b);
  }

  // ------------------------------------------------------------------ canonical entries

  /** The canonical entries of an object, in the order they had. */
  function CanonicalEntry(e: (string, Val)): (string, Val) {
    (e.0, Canonicalize(e.1, e.0))
  }

  function CanonicalEntries(entries: Entries): Entries {
    seq(|entries|, i requires 0 <= i < |entries| => CanonicalEntry(entries[i]))
  }

  lemma CanonicalObject(entries: Entries, parentKey: string)
    ensures Canonicalize(Obj(entries), parentKey)
            == Obj(CanonicalEntries(StableSort(entries, EntryOrder(IsLadder(parentKey)))))
  {
    var sorted := StableSort(entries, EntryOrder(IsLadder(parentKey)));
    assert CanonicalEntries(sorted) == Canonicalize(Obj(entries), parentKey).entries;
  }

  lemma SortedEntriesAreEntries(entries: Entries, ladder: bool)
    ensures forall e :: e in StableSort(entries, EntryOrder(ladder)) <==> e in entries
    ensures |StableSort(entries, EntryOrder(ladder))| == |entries|
  {
    var sorted := StableSort(entries, EntryOrder(ladder));
    forall e
      ensures e in sorted <==> e in entries
    {
      assert e in sorted <==> e in multiset(sorted);
      assert e in entries <==> e in multiset(entries);
    }
    assert |multiset(sorted)| == |sorted| && |multiset(entries)| == |entries|;
  }

  lemma {:induction false} InsertDistinct(x: (string, Val), xs: Entries, leq: ((string, Val), (string, Val)) -> bool)
    requires DistinctKeys(xs) && forall i | 0 <= i < |xs| :: xs[i].0 != x.0
    ensures DistinctKeys(Insert(x, xs, leq))
  {
    if xs != [] && !leq(x, xs[0]) {
      InsertDistinct(x, xs[1..], leq);
      var rest := Insert(x, xs[1..], leq);
      forall j | 0 <= j < |rest|
        ensures rest[j].0 != xs[0].0
      {
        assert rest[j] in multiset(rest);
        assert rest[j] == x || rest[j] in xs[1..];
      }
    }
  }

  /** Sorting keeps keys distinct. */
  lemma {:induction false} SortKeepsDistinct(xs: Entries, leq: ((string, Val), (string, Val)) -> bool)
    requires DistinctKeys(xs)
    ensures DistinctKeys(StableSort(xs, leq))
  {
    if xs != [] {
      SortKeepsDistinct(xs[1..], leq);
      var rest := StableSort(xs[1..], leq);
      forall j | 0 <= j < |rest|
        ensures rest[j].0 != xs[0].0
      {
        assert rest[j] in multiset(rest);
        assert rest[j] in xs[1..];
      }
      InsertDistinct(xs[0], rest, leq);
    }
  }

  /** With distinct keys, an entry ties with at most the one entry of its key. */
  lemma {:induction false} TiesOfDistinct(xs: Entries, e: (string, Val), ladder: bool)
    requires DistinctKeys(xs)
    ensures Ties(xs, e, EntryOrder(ladder))
            == if FirstIndex(xs, e.0) < |xs| then [xs[FirstIndex(xs, e.0)]] else []
  {
    if xs != [] {
      TiesOfDistinct(xs[1..], e, ladder);
      TieIsSameKey(xs[0], e, ladder);
    }
  }

  lemma TieIsSameKey(a: (string, Val), b: (string, Val), ladder: bool)
    ensures SameRank(a, b, EntryOrder(ladder)) <==> a.0 == b.0
  {
    TextOrderIsTotal(a.0, a.0);
    if SameRank(a, b, EntryOrder(ladder)) {
      KeyLeqIsAntisymmetric(ladder, a.0, b.0);
    }
  }

  /** Sorted entries with distinct keys are determined by the set of them. */
  lemma SortedIsDeterminedByElements(xs: Entries, ys: Entries, ladder: bool)
    requires DistinctKeys(xs) && DistinctKeys(ys)
    requires Sorted(xs, EntryOrder(ladder)) && Sorted(ys, EntryOrder(ladder))
    requires (forall e | e in xs :: e in ys) && (forall e | e in ys :: e in xs)
    ensures xs == ys
  {
    KeyOrderIsTotal(ladder);
    forall e
      ensures Ties(xs, e, EntryOrder(ladder)) == Ties(ys, e, EntryOrder(ladder))
    {
      TiesOfDistinct(xs, e, ladder);
      TiesOfDistinct(ys, e, ladder);
      SameFirst(xs, ys, e.0);
      SameFirst(ys, xs, e.0);
    }
    SortedIsDeterminedByTies(xs, ys, EntryOrder(ladder));
  }

  lemma SameFirst(xs: Entries, ys: Entries, key: string)
    requires DistinctKeys(ys) && forall e | e in xs :: e in ys
    ensures FirstIndex(xs, key) < |xs|
            ==> FirstIndex(ys, key) < |ys| && ys[FirstIndex(ys, key)] == xs[FirstIndex(xs, key)]
  {
    if FirstIndex(xs, key) < |xs| {
      assert xs[FirstIndex(xs, key)] in ys;
    }
  }

  lemma CanonicalOfConcatenation(a: Entries, b: Entries)
    ensures CanonicalEntries(a + b) == CanonicalEntries(a) + CanonicalEntries(b)
  {
  }

  lemma TieOfMapped(a: (string, Val), e: (string, Val), ladder: bool)
    ensures Tie(CanonicalEntry(a), e, EntryOrder(ladder)) == CanonicalEntries(Tie(a, e, EntryOrder(ladder)))
    ensures Tie(a, e, EntryOrder(ladder)) == if a.0 == e.0 then [a] else []
  {
    TieIsSameKey(CanonicalEntry(a), e, ladder);
    TieIsSameKey(a, e, ladder);
  }

  lemma {:induction false} TiesOfMapped(entries: Entries, e: (string, Val), ladder: bool)
    ensures Ties(CanonicalEntries(entries), e, EntryOrder(ladder))
            == CanonicalEntries(Ties(entries, e, EntryOrder(ladder)))
  {
    if entries != [] {
      var a, rest := entries[0], entries[1..];
      TiesOfMapped(rest, e, ladder);
      assert CanonicalEntries(entries) == [CanonicalEntry(a)] + CanonicalEntries(rest);
      TiesOfCons(CanonicalEntry(a), CanonicalEntries(rest), e, EntryOrder(ladder));
      TieOfMapped(a, e, ladder);
      CanonicalOfConcatenation(Tie(a, e, EntryOrder(ladder)), Ties(rest, e, EntryOrder(ladder)));
    }
  }

  /** Sorting the entries and making them canonical can be done in either order. */
  lemma SortOfCanonical(entries: Entries, ladder: bool)
    ensures CanonicalEntries(StableSort(entries, EntryOrder(ladder)))
            == StableSort(CanonicalEntries(entries), EntryOrder(ladder))
  {
    var order := EntryOrder(ladder);
    var sorted := StableSort(entries, order);
    KeyOrderIsTotal(ladder);
    StableSortSorts(entries, order);
    forall e
      ensures Ties(CanonicalEntries(sorted), e, order) == Ties(CanonicalEntries(entries), e, order)
    {
      TiesOfMapped(sorted, e, ladder);
      TiesOfMapped(entries, e, ladder);
      StableSortIsStable(entries, e, order);
    }
    StableSortIsUnique(CanonicalEntries(entries), CanonicalEntries(sorted), order);
  }

  lemma CanonicalIsSorted(entries: Entries, parentKey: string)
    ensures Canonicalize(Obj(entries), parentKey)
            == Obj(StableSort(CanonicalEntries(entries), EntryOrder(IsLadder(parentKey))))
  {
    CanonicalObject(entries, parentKey);
    SortOfCanonical(entries, IsLadder(parentKey));
  }

  /** The canonical entries of an object: its entries, each canonical, sorted with distinct keys. */
  lemma CanonicalShape(entries: Entries, parentKey: string)
    requires DistinctKeys(entries)
    ensures var c := Canonicalize(Obj(entries), parentKey);
            && c.Obj? && DistinctKeys(c.entries) && Sorted(c.entries, EntryOrder(IsLadder(parentKey)))
            && |c.entries| == |entries|
            && HoldsCanonical(entries, c.entries)
  {
    var order := EntryOrder(IsLadder(parentKey));
    var each := CanonicalEntries(entries);
    CanonicalIsSorted(entries, parentKey);
    KeyOrderIsTotal(IsLadder(parentKey));
    SortKeepsDistinct(each, order);
    StableSortSorts(each, order);
    SortedEntriesAreEntries(each, IsLadder(parentKey));
    CanonicalHolds(entries, parentKey);
  }

  lemma CanonicalHolds(entries: Entries, parentKey: string)
    ensures Canonicalize(Obj(entries), parentKey).Obj?
    ensures HoldsCanonical(entries, Canonicalize(Obj(entries), parentKey).entries)
  {
    var each := CanonicalEntries(entries);
    CanonicalIsSorted(entries, parentKey);
    SortedEntriesAreEntries(each, IsLadder(parentKey));
    forall i | 0 <= i < |entries|
      ensures CanonicalEntry(entries[i]) in each
    {
      assert each[i] == CanonicalEntry(entries[i]);
    }
  }

  /** The first entry of a key is the first of those that tie with it. */
  lemma {:induction false} FirstOfTies(xs: Entries, e: (string, Val), ladder: bool)
    ensures var ties := Ties(xs, e, EntryOrder(ladder));
            && (ties == [] <==> FirstIndex(xs, e.0) == |xs|)
            && (ties != [] ==> ties[0] == xs[FirstIndex(xs, e.0)])
  {
    if xs != [] {
      FirstOfTies(xs[1..], e, ladder);
      TieIsSameKey(xs[0], e, ladder);
    }
  }

  // --------------------------------------------------------------------- the main result

  /** Equal canonical forms differ only by the order of keys. */
  lemma {:induction false} EqualCanonicalIsReordering(a: Val, b: Val, parentKey: string)
    requires DeepDistinct(a) && DeepDistinct(b)
    requires Canonicalize(a, parentKey) == Canonicalize(b, parentKey)
    ensures SameUpToOrder(a, b)
    decreases a
  {
    match a
    case Arr(items) =>
      forall i | 0 <= i < |items|
        ensures SameUpToOrder(items[i], b.items[i])
      {
        assert Canonicalize(a, parentKey).items[i] == Canonicalize(b, parentKey).items[i];
        EqualCanonicalIsReordering(items[i], b.items[i], "");
      }
    case Obj(entries) =>
      CanonicalShape(entries, parentKey);
      CanonicalShape(b.entries, parentKey);
      var p := KeyPositions(entries, b.entries);
      PositionsArePermutation(entries, b.entries, Canonicalize(a, parentKey).entries);
      forall i | 0 <= i < |entries|
        ensures SameUpToOrder(entries[i].1, b.entries[p[i]].1)
      {
        PositionHoldsEqual(entries, b.entries, Canonicalize(a, parentKey).entries, i);
        assert entries[i].1 < entries[i];
        EqualCanonicalIsReordering(entries[i].1, b.entries[p[i]].1, entries[i].0);
      }
      assert Matches(entries, b.entries, p);
    case _ =>
  }

  /** For each entry of `a`, where its key stands in `b`. */
  function KeyPositions(a: Entries, b: Entries): (p: seq<nat>)
    ensures |p| == |a| && forall i | 0 <= i < |a| :: p[i] == FirstIndex(b, a[i].0)
  {
    seq(|a|, i requires 0 <= i < |a| => FirstIndex(b, a[i].0))
  }

  /** `c` holds the canonical form of each entry, and nothing else. */
  ghost predicate HoldsCanonical(entries: Entries, c: Entries) {
    && (forall i | 0 <= i < |entries| :: CanonicalEntry(entries[i]) in c)
    && (forall e | e in c :: exists i :: 0 <= i < |entries| && e == CanonicalEntry(entries[i]))
  }

  lemma PositionHoldsEqual(a: Entries, b: Entries, c: Entries, i: nat)
    requires DistinctKeys(b) && HoldsCanonical(a, c) && HoldsCanonical(b, c) && i < |a|
    ensures var j := FirstIndex(b, a[i].0);
            j < |b| && b[j].0 == a[i].0
            && Canonicalize(a[i].1, a[i].0) == Canonicalize(b[j].1, b[j].0)
  {
    assert CanonicalEntry(a[i]) in c;
    var m :| 0 <= m < |b| && CanonicalEntry(a[i]) == CanonicalEntry(b[m]);
    assert FirstIndex(b, a[i].0) == m;
  }

  lemma PositionsArePermutation(a: Entries, b: Entries, c: Entries)
    requires DistinctKeys(a) && DistinctKeys(b) && |a| == |b| && HoldsCanonical(a, c) && HoldsCanonical(b, c)
    ensures IsPermutation(KeyPositions(a, b), |a|)
  {
    var p := KeyPositions(a, b);
    forall i | 0 <= i < |a|
      ensures p[i] < |b| && b[p[i]].0 == a[i].0
    {
      PositionHoldsEqual(a, b, c, i);
    }
    forall m: nat | m < |a|
      ensures m in p
    {
      PositionHoldsEqual(b, a, c, m);
      var i := FirstIndex(a, b[m].0);
      assert p[i] == m;
    }
  }

  /** Values that differ only by the order of keys have one canonical form. */
  lemma {:induction false} ReorderingHasEqualCanonical(a: Val, b: Val, parentKey: string)
    requires DeepDistinct(a) && DeepDistinct(b)
    requires SameUpToOrder(a, b)
    ensures Canonicalize(a, parentKey) == Canonicalize(b, parentKey)
    decreases a
  {
    match a
    case Arr(items) =>
      forall i | 0 <= i < |items|
        ensures Canonicalize(items[i], "") == Canonicalize(b.items[i], "")
      {
        ReorderingHasEqualCanonical(items[i], b.items[i], "");
      }
      assert Canonicalize(a, parentKey).items == Canonicalize(b, parentKey).items;
    case Obj(entries) =>
      var p :| Matches(entries, b.entries, p);
      forall i | 0 <= i < |entries|
        ensures CanonicalEntry(entries[i]) == CanonicalEntry(b.entries[p[i]])
      {
        assert entries[i].1 < entries[i];
        ReorderingHasEqualCanonical(entries[i].1, b.entries[p[i]].1, entries[i].0);
      }
      MatchedObjects(entries, b.entries, p, parentKey);
    case _ =>
  }

  lemma MatchedObjects(a: Entries, b: Entries, p: seq<nat>, parentKey: string)
    requires DistinctKeys(a) && DistinctKeys(b) && |a| == |b| && IsPermutation(p, |a|)
    requires forall i | 0 <= i < |a| :: CanonicalEntry(a[i]) == CanonicalEntry(b[p[i]])
    ensures Canonicalize(Obj(a), parentKey) == Canonicalize(Obj(b), parentKey)
  {
    CanonicalShape(a, parentKey);
    CanonicalShape(b, parentKey);
    var x, y := Canonicalize(Obj(a), parentKey).entries, Canonicalize(Obj(b), parentKey).entries;
    MatchedForward(a, b, p, x, y);
    MatchedBack(a, b, p, x, y);
    SortedIsDeterminedByElements(x, y, IsLadder(parentKey));
  }

  lemma MatchedForward(a: Entries, b: Entries, p: seq<nat>, x: Entries, y: Entries)
    requires |a| == |b| && IsPermutation(p, |a|) && HoldsCanonical(a, x) && HoldsCanonical(b, y)
    requires forall i | 0 <= i < |a| :: CanonicalEntry(a[i]) == CanonicalEntry(b[p[i]])
    ensures forall e | e in x :: e in y
  {
    forall e | e in x
      ensures e in y
    {
      var i :| 0 <= i < |a| && e == CanonicalEntry(a[i]);
      assert CanonicalEntry(b[p[i]]) in y;
    }
  }

  lemma MatchedBack(a: Entries, b: Entries, p: seq<nat>, x: Entries, y: Entries)
    requires |a| == |b| && IsPermutation(p, |a|) && HoldsCanonical(a, x) && HoldsCanonical(b, y)
    requires forall i | 0 <= i < |a| :: CanonicalEntry(a[i]) == CanonicalEntry(b[p[i]])
    ensures forall e | e in y :: e in x
  {
    forall e | e in y
      ensures e in x
    {
      var m: nat :| m < |b| && e == CanonicalEntry(b[m]);
      assert m in p;
      var i :| 0 <= i < |a| && p[i] == m;
      assert CanonicalEntry(a[i]) in x;
    }
  }

  /**
   The canonical form decides equality up to the order of keys, under the ladder and the lexical
   order alike.
   */
  lemma CanonicalDecidesSameUpToOrder(a: Val, b: Val, parentKey: string)
    requires DeepDistinct(a) && DeepDistinct(b)
    ensures Canonicalize(a, parentKey) == Canonicalize(b, parentKey) <==> SameUpToOrder(a, b)
  {
    if Canonicalize(a, parentKey) == Canonicalize(b, parentKey) {
      EqualCanonicalIsReordering(a, b, parentKey);
    }
    if SameUpToOrder(a, b) {
      ReorderingHasEqualCanonical(a, b, parentKey);
    }
  }

  // --------------------------------------------------------------------------- the order

  /** Ladder levels come in their order and before all other keys; the others come as texts do. */
  predicate InOrder(ladder: bool, a: string, b: string) {
    var levels := ["off", "minimal", "low", "medium", "high", "xhigh", "max"];
    if ladder && (a in levels || b in levels)
    then a in levels && (b in levels ==> exists i, j :: 0 <= i <= j < 7 && levels[i] == a && levels[j] == b)
    else TextLeq(a, b)
  }

  lemma LevelOf(key: string)
    ensures var levels := ["off", "minimal", "low", "medium", "high", "xhigh", "max"];
            && (key !in levels ==> ThinkingLevelRank(key) == USIZE_MAX)
            && (key in levels ==> ThinkingLevelRank(key) < 7 && levels[ThinkingLevelRank(key)] == key)
            && forall i | 0 <= i < 7 && levels[i] == key :: ThinkingLevelRank(key) == i
  {
    PositionIs(THINKING_LEVEL_ORDER, key);
    var levels := ["off", "minimal", "low", "medium", "high", "xhigh", "max"];
    assert THINKING_LEVEL_ORDER == levels;
    assert |levels[0]| == 3 && |levels[1]| == 7 && |levels[2]| == 3 && |levels[3]| == 6 && |levels[4]| == 4;
    assert |levels[5]| == 5 && |levels[6]| == 3;
    assert levels[0][0] == 'o' && levels[2][0] == 'l' && levels[6][0] == 'm';
  }

  lemma {:induction false} PositionIs(levels: seq<string>, key: string)
    ensures match Position(levels, key)
            case None => key !in levels
            case Some(i) => i < |levels| && levels[i] == key
  {
    if levels != [] && levels[0] != key {
      PositionIs(levels[1..], key);
    }
  }

  /** The order of keys, without the ranks. */
  lemma KeyOrderIs(ladder: bool, a: string, b: string)
    ensures KeyLeq(ladder, a, b) <==> InOrder(ladder, a, b)
  {
    LevelOf(a);
    LevelOf(b);
    TextOrderIsTotal(a, b);
  }

  /** Every object is ordered by its parent's key, at every depth; items have no parent key. */
  ghost predicate Ordered(v: Val, parentKey: string)
    decreases v
  {
    match v
    case Arr(items) => forall i | 0 <= i < |items| :: Ordered(items[i], "")
    case Obj(entries) =>
      && (forall i, j | 0 <= i < j < |entries| ::
            InOrder(parentKey == "thinkingLevelMap" || parentKey == "values", entries[i].0, entries[j].0))
      && forall i | 0 <= i < |entries| ::
           assert entries[i].1 < entries[i]; Ordered(entries[i].1, entries[i].0)
    case _ => true
  }

  /** The canonical form of a value agrees with it key by key and is ordered at every depth. */
  lemma CanonicalIsOrdered(v: Val, parentKey: string)
    ensures SameByKey(Canonicalize(v, parentKey), v) && Ordered(Canonicalize(v, parentKey), parentKey)
  {
    CanonicalizeIsIdempotent(v, parentKey);
    CanonicalDecidesSameByKey(Canonicalize(v, parentKey), v, parentKey);
    CanonicalizeOrders(v, parentKey);
  }

  lemma {:induction false} CanonicalizeOrders(v: Val, parentKey: string)
    ensures Ordered(Canonicalize(v, parentKey), parentKey)
    decreases v
  {
    match v
    case Arr(items) =>
      forall i | 0 <= i < |items|
        ensures Ordered(Canonicalize(items[i], ""), "")
      {
        CanonicalizeOrders(items[i], "");
      }
    case Obj(entries) =>
      var each := CanonicalEntries(entries);
      forall i | 0 <= i < |entries|
        ensures Ordered(each[i].1, each[i].0)
      {
        assert entries[i].1 < entries[i];
        CanonicalizeOrders(entries[i].1, entries[i].0);
      }
      var c := SortedOfEach(each, IsLadder(parentKey));
      EntriesAreOrdered(c, each, parentKey);
      CanonicalIsSorted(entries, parentKey);
    case _ =>
  }

  lemma SortedOfEach(each: Entries, ladder: bool) returns (c: Entries)
    ensures c == StableSort(each, EntryOrder(ladder)) && Sorted(c, EntryOrder(ladder))
    ensures forall e :: e in c <==> e in each
  {
    KeyOrderIsTotal(ladder);
    StableSortSorts(each, EntryOrder(ladder));
    SortedEntriesAreEntries(each, ladder);
    c := StableSort(each, EntryOrder(ladder));
  }

  lemma EntriesAreOrdered(c: Entries, each: Entries, parentKey: string)
    requires Sorted(c, EntryOrder(IsLadder(parentKey))) && forall e :: e in c <==> e in each
    requires forall i | 0 <= i < |each| :: Ordered(each[i].1, each[i].0)
    ensures Ordered(Obj(c), parentKey)
  {
    forall i, j | 0 <= i < j < |c|
      ensures InOrder(parentKey == "thinkingLevelMap" || parentKey == "values", c[i].0, c[j].0)
    {
      assert EntryOrder(IsLadder(parentKey))(c[i], c[j]);
      KeyOrderIs(IsLadder(parentKey), c[i].0, c[j].0);
    }
    forall i | 0 <= i < |c|
      ensures Ordered(c[i].1, c[i].0)
    {
      assert c[i] in each;
    }
  }

  // ------------------------------------------------------------------- repeated keys too

  /** The entries of one key, in order. */
  function OfKey(entries: Entries, key: string): (r: Entries)
    ensures forall e | e in r :: e in entries && e.0 == key
  {
    if entries == [] then []
    else (if entries[0].0 == key then [entries[0]] else []) + OfKey(entries[1..], key)
  }

  /** The values agree up to the order of keys; the entries that share a key agree in order. */
  ghost predicate SameByKey(a: Val, b: Val)
    decreases a
  {
    match a
    case Arr(items) =>
      b.Arr? && |b.items| == |items| && forall i | 0 <= i < |items| :: SameByKey(items[i], b.items[i])
    case Obj(entries) =>
      && b.Obj?
      && (forall key :: |OfKey(entries, key)| == |OfKey(b.entries, key)|)
      && forall key, i | 0 <= i < |OfKey(entries, key)| ::
           assert OfKey(entries, key)[i] in entries;
           assert OfKey(entries, key)[i].1 < OfKey(entries, key)[i];
           SameByKey(OfKey(entries, key)[i].1, OfKey(b.entries, key)[i].1)
    case _ => a == b
  }

  ghost predicate SameAtKey(a: Entries, b: Entries, key: string) {
    var x, y := OfKey(a, key), OfKey(b, key);
    |x| == |y| && forall i | 0 <= i < |x| :: SameByKey(x[i].1, y[i].1)
  }

  ghost predicate SameAtEveryKey(a: Entries, b: Entries) {
    forall key :: SameAtKey(a, b, key)
  }

  lemma {:induction false} TiesAreOfKey(entries: Entries, e: (string, Val), ladder: bool)
    ensures Ties(entries, e, EntryOrder(ladder)) == OfKey(entries, e.0)
  {
    if entries != [] {
      TiesAreOfKey(entries[1..], e, ladder);
      TieOfMapped(entries[0], e, ladder);
    }
  }

  /** Among canonical entries, those that tie with a key are the canonical entries of that key. */
  lemma TiesOfCanonical(entries: Entries, e: (string, Val), ladder: bool)
    ensures Ties(CanonicalEntries(entries), e, EntryOrder(ladder)) == CanonicalEntries(OfKey(entries, e.0))
  {
    TiesOfMapped(entries, e, ladder);
    TiesAreOfKey(entries, e, ladder);
  }

  ghost predicate SameCanonicalAt(a: Entries, b: Entries, key: string) {
    CanonicalEntries(OfKey(a, key)) == CanonicalEntries(OfKey(b, key))
  }

  lemma EqualObjectsAgreeAt(a: Entries, b: Entries, parentKey: string, key: string)
    requires Canonicalize(Obj(a), parentKey) == Canonicalize(Obj(b), parentKey)
    ensures SameCanonicalAt(a, b, key)
  {
    var ladder := IsLadder(parentKey);
    CanonicalIsSorted(a, parentKey);
    CanonicalIsSorted(b, parentKey);
    KeyOrderIsTotal(ladder);
    SameSortSameTies(CanonicalEntries(a), CanonicalEntries(b), (key, Null), EntryOrder(ladder));
    TiesOfCanonical(a, (key, Null), ladder);
    TiesOfCanonical(b, (key, Null), ladder);
  }

  lemma AgreeingObjectsAreEqual(a: Entries, b: Entries, parentKey: string)
    requires forall key :: SameCanonicalAt(a, b, key)
    ensures Canonicalize(Obj(a), parentKey) == Canonicalize(Obj(b), parentKey)
  {
    var ladder := IsLadder(parentKey);
    CanonicalIsSorted(a, parentKey);
    CanonicalIsSorted(b, parentKey);
    KeyOrderIsTotal(ladder);
    forall e: (string, Val)
      ensures Ties(CanonicalEntries(a), e, EntryOrder(ladder)) == Ties(CanonicalEntries(b), e, EntryOrder(ladder))
    {
      TiesOfCanonical(a, e, ladder);
      TiesOfCanonical(b, e, ladder);
      assert SameCanonicalAt(a, b, e.0);
    }
    SortDependsOnlyOnTies(CanonicalEntries(a), CanonicalEntries(b), EntryOrder(ladder));
  }

  /**
   For all values, repeated keys included: the canonical forms are equal exactly when the values
   agree up to an order of keys that keeps the entries of one key in order.
   */
  lemma {:induction false} CanonicalDecidesSameByKey(a: Val, b: Val, parentKey: string)
    ensures Canonicalize(a, parentKey) == Canonicalize(b, parentKey) <==> SameByKey(a, b)
    decreases a, 1
  {
    if a.Arr? && b.Arr? {
      var x, y := Canonicalize(a, parentKey).items, Canonicalize(b, parentKey).items;
      assert |x| == |a.items| && |y| == |b.items|;
      if |x| == |y| {
        forall i | 0 <= i < |x|
          ensures x[i] == y[i] <==> SameByKey(a.items[i], b.items[i])
        {
          CanonicalDecidesSameByKey(a.items[i], b.items[i], "");
        }
        assert x == y <==> forall i | 0 <= i < |x| :: x[i] == y[i];
      }
    } else if a.Obj? && b.Obj? {
      CanonicalDecidesSameObjects(a.entries, b.entries, parentKey);
    }
  }

  lemma {:induction false} CanonicalDecidesSameObjects(a: Entries, b: Entries, parentKey: string)
    ensures Canonicalize(Obj(a), parentKey) == Canonicalize(Obj(b), parentKey) <==> SameByKey(Obj(a), Obj(b))
    decreases a, 4
  {
    SameByKeyIff(a, b);
    if Canonicalize(Obj(a), parentKey) == Canonicalize(Obj(b), parentKey) {
      EqualObjectsAreSame(a, b, parentKey);
    }
    if SameAtEveryKey(a, b) {
      SameObjectsAreEqual(a, b, parentKey);
    }
  }

  lemma {:induction false} EqualObjectsAreSame(a: Entries, b: Entries, parentKey: string)
    requires Canonicalize(Obj(a), parentKey) == Canonicalize(Obj(b), parentKey)
    ensures SameAtEveryKey(a, b)
    decreases a, 3
  {
    forall key
      ensures SameAtKey(a, b, key)
    {
      EqualObjectsAgreeAt(a, b, parentKey, key);
      CanonicalDecidesSameAtKey(a, b, key);
    }
  }

  lemma {:induction false} SameObjectsAreEqual(a: Entries, b: Entries, parentKey: string)
    requires SameAtEveryKey(a, b)
    ensures Canonicalize(Obj(a), parentKey) == Canonicalize(Obj(b), parentKey)
    decreases a, 3
  {
    forall key
      ensures SameCanonicalAt(a, b, key)
    {
      assert SameAtKey(a, b, key);
      CanonicalDecidesSameAtKey(a, b, key);
    }
    AgreeingObjectsAreEqual(a, b, parentKey);
  }

  lemma SameByKeyIff(a: Entries, b: Entries)
    ensures SameByKey(Obj(a), Obj(b)) <==> SameAtEveryKey(a, b)
  {
    var v, w := Obj(a), Obj(b);
    if SameByKey(v, w) {
      forall key
        ensures SameAtKey(a, b, key)
      {
        assert |OfKey(v.entries, key)| == |OfKey(w.entries, key)|;
        forall i | 0 <= i < |OfKey(v.entries, key)|
          ensures SameByKey(OfKey(v.entries, key)[i].1, OfKey(w.entries, key)[i].1)
        {
        }
      }
    } else if SameAtEveryKey(a, b) {
      forall key
        ensures |OfKey(a, key)| == |OfKey(b, key)|
      {
        assert SameAtKey(a, b, key);
      }
      forall key, i | 0 <= i < |OfKey(a, key)|
        ensures SameByKey(OfKey(a, key)[i].1, OfKey(b, key)[i].1)
      {
        assert SameAtKey(a, b, key);
      }
      assert SameByKey(v, w);
      assert false;
    }
  }

  lemma {:induction false} CanonicalDecidesSameAtKey(a: Entries, b: Entries, key: string)
    ensures SameCanonicalAt(a, b, key) <==> SameAtKey(a, b, key)
    decreases a, 2
  {
    var x, y := OfKey(a, key), OfKey(b, key);
    if |x| == |y| {
      forall i | 0 <= i < |x|
        ensures CanonicalEntry(x[i]) == CanonicalEntry(y[i]) <==> SameByKey(x[i].1, y[i].1)
      {
        assert x[i] in a && y[i] in b;
        assert x[i].1 < x[i];
        CanonicalDecidesSameByKey(x[i].1, y[i].1, key);
      }
      CanonicalEntriesEqualIff(x, y);
    }
  }

  lemma CanonicalEntriesEqualIff(x: Entries, y: Entries)
    requires |x| == |y|
    ensures CanonicalEntries(x) == CanonicalEntries(y)
            <==> forall i | 0 <= i < |x| :: CanonicalEntry(x[i]) == CanonicalEntry(y[i])
  {
    var c, d := CanonicalEntries(x), CanonicalEntries(y);
    assert forall i | 0 <= i < |x| :: c[i] == CanonicalEntry(x[i]) && d[i] == CanonicalEntry(y[i]);
  }

  /** Canonicalizing twice changes nothing, whether or not keys repeat. */
  lemma {:induction false} CanonicalizeIsIdempotent(v: Val, parentKey: string)
    ensures Canonicalize(Canonicalize(v, parentKey), parentKey) == Canonicalize(v, parentKey)
    decreases v
  {
    match v
    case Arr(items) =>
      var c := Canonicalize(v, parentKey);
      forall i | 0 <= i < |items|
        ensures Canonicalize(c.items[i], "") == c.items[i]
      {
        CanonicalizeIsIdempotent(items[i], "");
      }
      assert Canonicalize(c, parentKey).items == c.items;
    case Obj(entries) =>
      forall i | 0 <= i < |entries|
        ensures CanonicalEntry(CanonicalEntry(entries[i])) == CanonicalEntry(entries[i])
      {
        assert entries[i].1 < entries[i];
        CanonicalizeIsIdempotent(entries[i].1, entries[i].0);
      }
      CanonicalObjectStays(entries, parentKey);
    case _ =>
  }

  lemma CanonicalObjectStays(entries: Entries, parentKey: string)
    requires forall i | 0 <= i < |entries| :: CanonicalEntry(CanonicalEntry(entries[i])) == CanonicalEntry(entries[i])
    ensures var c := Canonicalize(Obj(entries), parentKey);
            Canonicalize(c, parentKey) == c
  {
    var order := EntryOrder(IsLadder(parentKey));
    var each := CanonicalEntries(entries);
    var c := StableSort(each, order);
    KeyOrderIsTotal(IsLadder(parentKey));
    CanonicalIsSorted(entries, parentKey);
    SortedEntriesAreEntries(each, IsLadder(parentKey));
    forall i | 0 <= i < |c|
      ensures CanonicalEntry(c[i]) == c[i]
    {
      assert c[i] in each;
      var j :| 0 <= j < |each| && each[j] == c[i];
      assert each[j] == CanonicalEntry(entries[j]);
    }
    assert CanonicalEntries(c) == c;
    CanonicalIsSorted(c, parentKey);
    StableSortSorts(each, order);
    SortedStays(c, order);
  }
}
