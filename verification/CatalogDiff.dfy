/** The structural diff of two catalogs: rows indexed by id, a sorted-union walk, field changes. */
module CatalogDiff {
  import opened Wrappers
  import opened TsData
  import opened Sorting
  import opened Canonical

  // -------------------------------------------------------------------------- the index

  function TextOrder(): (string, string) -> bool {
    (a: string, b: string) => TextLeq(a, b)
  }

  /** An ordered map: keys in strictly increasing order. */
  ghost predicate IsIndex(m: Entries) {
    forall i, j | 0 <= i < j < |m| :: TextLess(m[i].0, m[j].0)
  }

  function Lookup(m: Entries, key: string): Option<Val> {
    if FirstIndex(m, key) < |m| then Some(m[FirstIndex(m, key)].1) else None
  }

  function IndexInsert(m: Entries, key: string, value: Val): Entries {
    if m == [] || TextLess(key, m[0].0) then [(key, value)] + m
    else if m[0].0 == key then [(key, value)] + m[1..]
    else [m[0]] + IndexInsert(m[1..], key, value)
  }

  lemma LookupCons(m: Entries, k: string)
    requires m != []
    ensures Lookup(m, k) == if m[0].0 == k then Some(m[0].1) else Lookup(m[1..], k)
  {
  }

  datatype IndexError = NotAnArray | RowHasNoId

  function RowId(row: Val): Option<string> {
    match row.Get("id")
    case Some(id) => id.AsStr()
    case None => None
  }

  lemma {:induction false} IndexInsertIsUpdate(m: Entries, key: string, value: Val)
    requires IsIndex(m)
    ensures IsIndex(IndexInsert(m, key, value))
    ensures forall k :: Lookup(IndexInsert(m, key, value), k) == if k == key then Some(value) else Lookup(m, k)
    ensures forall e | e in IndexInsert(m, key, value) :: e == (key, value) || e in m
  {
    var r := IndexInsert(m, key, value);
    if m == [] || TextLess(key, m[0].0) {
      forall j | 0 <= j < |m|
        ensures TextLess(key, m[j].0)
      {
        if j > 0 {
          TextLessIsTransitive(key, m[0].0, m[j].0);
        }
      }
      forall k
        ensures Lookup(r, k) == if k == key then Some(value) else Lookup(m, k)
      {
        assert r[1..] == m;
        LookupCons(r, k);
      }
    } else if m[0].0 == key {
      assert r[1..] == m[1..];
      forall k
        ensures Lookup(r, k) == if k == key then Some(value) else Lookup(m, k)
      {
        LookupCons(r, k);
        LookupCons(m, k);
      }
    } else {
      var rest := m[1..];
      IndexInsertIsUpdate(rest, key, value);
      assert r[1..] == IndexInsert(rest, key, value);
      TextOrderIsTotal(key, m[0].0);
      forall j | 1 <= j < |r|
        ensures TextLess(m[0].0, r[j].0)
      {
        assert r[j] in IndexInsert(rest, key, value);
        assert r[j] == (key, value) || r[j] in rest;
      }
      assert forall i, j | 1 <= i < j < |r| :: r[i] == r[1..][i - 1] && r[j] == r[1..][j - 1];
      forall k
        ensures Lookup(r, k) == if k == key then Some(value) else Lookup(m, k)
      {
        LookupCons(r, k);
        LookupCons(m, k);
      }
    }
  }

  lemma TextLessIsTransitive(a: string, b: string, c: string)
    requires TextLess(a, b) && TextLess(b, c)
    ensures TextLess(a, c)
  {
    TextOrderIsTransitive(a, b, c);
    TextOrderIsTotal(a, b);
  }

  /** The last row of `rows` whose id is `id`. */
  function LastRow(rows: seq<Val>, id: string): Option<Val> {
    if rows == [] then None
    else if RowId(rows[|rows| - 1]) == Some(id) then Some(rows[|rows| - 1])
    else LastRow(rows[..|rows| - 1], id)
  }

  /** `index_rows`: refused unless every row has a string id; a repeated id keeps its last row. */
  method IndexRows(v: Val) returns (r: Result<Entries, IndexError>)
    ensures r.Ok? <==> v.Arr? && forall i | 0 <= i < |v.items| :: RowId(v.items[i]).Some?
    ensures r.Ok? ==> IsIndex(r.value) && forall id :: Lookup(r.value, id) == LastRow(v.items, id)
    ensures r.Ok? ==> forall e | e in r.value :: e.1 in v.items && RowId(e.1) == Some(e.0)
    ensures r.Err? ==> r.error == if v.Arr? then RowHasNoId else NotAnArray
  {
    if !v.Arr? {
      return Err(NotAnArray);
    }
    var out: Entries := [];
    var rows := v.items;
    for n := 0 to |rows|
      invariant forall i | 0 <= i < n :: RowId(rows[i]).Some?
      invariant IsIndex(out) && forall id :: Lookup(out, id) == LastRow(rows[..n], id)
      invariant forall e | e in out :: e.1 in rows && RowId(e.1) == Some(e.0)
    {
      var id := RowId(rows[n]);
      if id.None? {
        return Err(RowHasNoId);
      }
      IndexInsertIsUpdate(out, id.value, rows[n]);
      assert rows[..n + 1][..n] == rows[..n];
      out := IndexInsert(out, id.value, rows[n]);
    }
    assert rows[..|rows|] == rows;
    r := Ok(out);
  }

  // ---------------------------------------------------------------------- field changes

  /** One line of the report: the key, and its value before and after. */
  datatype FieldChange = FieldChange(key: string, old_: Option<Val>, new_: Option<Val>)

  function ChangeOf(a: Entries, key: string, value: Val): seq<FieldChange> {
    if Lookup(a, key) == Some(value) then [] else [FieldChange(key, Lookup(a, key), Some(value))]
  }

  /** What `b` sets differently from `a`. */
  function Sets(a: Entries, b: Entries): seq<FieldChange> {
    if b == [] then [] else ChangeOf(a, b[0].0, b[0].1) + Sets(a, b[1..])
  }

  /** What `a` has and `b` has not. */
  function Drops(a: Entries, b: Entries): seq<FieldChange> {
    if a == [] then []
    else DropOf(b, a[0].0, a[0].1) + Drops(a[1..], b)
  }

  function FieldDiff(cur: Val, next: Val): seq<FieldChange> {
    var a, b := Canonicalize(cur, ""), Canonicalize(next, "");
    if a.Obj? && b.Obj? then Sets(a.entries, b.entries) + Drops(a.entries, b.entries) else []
  }

  lemma AppendFirst<T>(out: seq<T>, first: seq<T>, rest: seq<T>)
    ensures (out + first) + rest == out + (first + rest)
  {
  }

  function DropOf(b: Entries, key: string, value: Val): seq<FieldChange> {
    if Lookup(b, key).None? then [FieldChange(key, Some(value), None)] else []
  }

  /** `field_diff`, run. */
  method RunFieldDiff(cur: Val, next: Val) returns (out: seq<FieldChange>)
    ensures out == FieldDiff(cur, next)
  {
    var a, b := Canonicalize(cur, ""), Canonicalize(next, "");
    if !a.Obj? || !b.Obj? {
      return [];
    }
    var sets := RunSets(a.entries, b.entries);
    var drops := RunDrops(a.entries, b.entries);
    out := sets + drops;
  }

  method RunSets(a: Entries, b: Entries) returns (out: seq<FieldChange>)
    ensures out == Sets(a, b)
  {
    out := [];
    for i := 0 to |b|
      invariant out + Sets(a, b[i..]) == Sets(a, b)
    {
      var (k, bv) := b[i];
      assert b[i..][1..] == b[i + 1..];
      AppendFirst(out, ChangeOf(a, k, bv), Sets(a, b[i + 1..]));
      var before := Lookup(a, k);
      if before.None? || before.value != bv {
        out := out + [FieldChange(k, before, Some(bv))];
      }
    }
  }

  method RunDrops(a: Entries, b: Entries) returns (out: seq<FieldChange>)
    ensures out == Drops(a, b)
  {
    out := [];
    for i := 0 to |a|
      invariant out + Drops(a[i..], b) == Drops(a, b)
    {
      var (k, av) := a[i];
      assert a[i..][1..] == a[i + 1..];
      AppendFirst(out, DropOf(b, k, av), Drops(a[i + 1..], b));
      if Lookup(b, k).None? {
        out := out + [FieldChange(k, Some(av), None)];
      }
    }
  }

  // ----------------------------------------------------------------------- the row diff

  datatype RowDiff =
    | Added(id: string)
    | Removed(id: string)
    | Changed(id: string, changes: seq<FieldChange>)

  /** What one id contributes to the report. */
  function Classify(id: string, current: Entries, next: Entries): seq<RowDiff> {
    match (Lookup(current, id), Lookup(next, id))
    case (None, Some(_)) => [Added(id)]
    case (Some(_), None) => [Removed(id)]
    case (Some(cur), Some(row)) =>
      if Canonicalize(cur, "") == Canonicalize(row, "") then [] else [Changed(id, FieldDiff(cur, row))]
    case (None, None) => []
  }

  function ClassifyAll(ids: seq<string>, current: Entries, next: Entries): seq<RowDiff> {
    if ids == [] then [] else Classify(ids[0], current, next) + ClassifyAll(ids[1..], current, next)
  }

  function Keys(m: Entries): seq<string> {
    seq(|m|, i requires 0 <= i < |m| => m[i].0)
  }

  /** Drops each element that equals the one before it. */
  function Dedup(ids: seq<string>): seq<string> {
    if |ids| <= 1 then ids
    else if ids[0] == ids[1] then Dedup(ids[1..])
    else [ids[0]] + Dedup(ids[1..])
  }

  function UnionIds(current: Entries, next: Entries): seq<string> {
    Dedup(StableSort(Keys(current) + Keys(next), TextOrder()))
  }

  function DiffCatalog(current: Entries, next: Entries): seq<RowDiff> {
    ClassifyAll(UnionIds(current, next), current, next)
  }

  /** `diff_catalog`, run. */
  method RunDiffCatalog(current: Entries, next: Entries) returns (out: seq<RowDiff>)
    ensures out == DiffCatalog(current, next)
  {
    var ids := UnionIds(current, next);
    out := [];
    for i := 0 to |ids|
      invariant out + ClassifyAll(ids[i..], current, next) == DiffCatalog(current, next)
    {
      assert ids[i..][1..] == ids[i + 1..];
      var row := RunClassify(ids[i], current, next);
      AppendFirst(out, row, ClassifyAll(ids[i + 1..], current, next));
      out := out + row;
    }
  }

  method RunClassify(id: string, current: Entries, next: Entries) returns (row: seq<RowDiff>)
    ensures row == Classify(id, current, next)
  {
    match (Lookup(current, id), Lookup(next, id))
    case (None, Some(_)) => row := [Added(id)];
    case (Some(_), None) => row := [Removed(id)];
    case (Some(cur), Some(after)) =>
      row := [];
      if Canonicalize(cur, "") != Canonicalize(after, "") {
        var changes := RunFieldDiff(cur, after);
        row := [Changed(id, changes)];
      }
    case (None, None) => row := [];
  }

  // ------------------------------------------------------------- sound, complete, sorted

  ghost predicate StrictlyIncreasing(ids: seq<string>) {
    forall i, j | 0 <= i < j < |ids| :: TextLess(ids[i], ids[j])
  }

  lemma TextOrderIsPreorder()
    ensures TotalPreorder(TextOrder())
  {
    forall a, b ensures TextOrder()(a, b) || TextOrder()(b, a) {
      TextOrderIsTotal(a, b);
    }
    forall a, b, c | TextOrder()(a, b) && TextOrder()(b, c) ensures TextOrder()(a, c) {
      TextOrderIsTransitive(a, b, c);
    }
  }

  lemma {:induction false} DedupKeepsElements(ids: seq<string>)
    ensures forall id :: id in Dedup(ids) <==> id in ids
  {
    if |ids| > 1 {
      DedupKeepsElements(ids[1..]);
      assert ids == [ids[0]] + ids[1..];
    }
  }

  lemma {:induction false} DedupOfSorted(ids: seq<string>)
    requires Sorted(ids, TextOrder())
    ensures StrictlyIncreasing(Dedup(ids))
  {
    if |ids| > 1 {
      DedupOfSorted(ids[1..]);
      if ids[0] != ids[1] {
        var rest := Dedup(ids[1..]);
        forall j | 0 <= j < |rest|
          ensures TextLess(ids[0], rest[j])
        {
          DedupKeepsElements(ids[1..]);
          assert rest[j] in rest;
          var m :| 0 <= m < |ids[1..]| && ids[1..][m] == rest[j];
          var k := m + 1;
          assert TextOrder()(ids[0], ids[1]);
          if k > 1 {
            assert TextOrder()(ids[1], ids[k]);
            TextOrderIsTransitive(ids[0], ids[1], ids[k]);
            TextOrderIsTotal(ids[0], ids[1]);
          }
        }
      }
    }
  }

  lemma UnionIdsAreTheUnion(current: Entries, next: Entries)
    ensures StrictlyIncreasing(UnionIds(current, next))
    ensures forall id :: id in UnionIds(current, next)
                         <==> Lookup(current, id).Some? || Lookup(next, id).Some?
  {
    var all := Keys(current) + Keys(next);
    var sorted := StableSort(all, TextOrder());
    TextOrderIsPreorder();
    StableSortSorts(all, TextOrder());
    DedupOfSorted(sorted);
    DedupKeepsElements(sorted);
    forall id
      ensures id in sorted <==> Lookup(current, id).Some? || Lookup(next, id).Some?
    {
      assert id in sorted <==> id in multiset(sorted);
      assert id in all <==> id in multiset(all);
      KeyIsPresent(current, id);
      KeyIsPresent(next, id);
    }
  }

  lemma KeyIsPresent(m: Entries, id: string)
    ensures id in Keys(m) <==> Lookup(m, id).Some?
  {
    if Lookup(m, id).Some? {
      assert Keys(m)[FirstIndex(m, id)] == id;
    }
  }

  /** The ids a report names. */
  function ReportedIds(out: seq<RowDiff>): seq<string> {
    seq(|out|, i requires 0 <= i < |out| => out[i].id)
  }

  lemma {:induction false} ClassifyAllReports(ids: seq<string>, current: Entries, next: Entries, d: RowDiff)
    requires StrictlyIncreasing(ids)
    ensures d in ClassifyAll(ids, current, next) <==> d.id in ids && Classify(d.id, current, next) == [d]
  {
    if ids != [] {
      ClassifyAllReports(ids[1..], current, next, d);
      ClassifyNamesItsId(ids[0], current, next);
      assert ids == [ids[0]] + ids[1..];
      assert d.id in ids[1..] ==> d.id != ids[0];
      var first := Classify(ids[0], current, next);
      assert d in first <==> first == [d];
    }
  }

  lemma ClassifyNamesItsId(id: string, current: Entries, next: Entries)
    ensures Classify(id, current, next) == [] || (|Classify(id, current, next)| == 1 && Classify(id, current, next)[0].id == id)
  {
  }

  lemma {:induction false} ClassifyAllIncreases(ids: seq<string>, current: Entries, next: Entries)
    requires StrictlyIncreasing(ids)
    ensures StrictlyIncreasing(ReportedIds(ClassifyAll(ids, current, next)))
  {
    if ids != [] {
      ClassifyAllIncreases(ids[1..], current, next);
      ClassifyNamesItsId(ids[0], current, next);
      var rest := ClassifyAll(ids[1..], current, next);
      forall j | 0 <= j < |rest|
        ensures TextLess(ids[0], rest[j].id)
      {
        ClassifyAllReports(ids[1..], current, next, rest[j]);
        var k :| 0 <= k < |ids[1..]| && ids[1..][k] == rest[j].id;
      }
      PrependIncreases(Classify(ids[0], current, next), rest, ids[0]);
    }
  }

  lemma PrependIncreases(first: seq<RowDiff>, rest: seq<RowDiff>, id: string)
    requires first == [] || (|first| == 1 && first[0].id == id)
    requires StrictlyIncreasing(ReportedIds(rest)) && forall j | 0 <= j < |rest| :: TextLess(id, rest[j].id)
    ensures StrictlyIncreasing(ReportedIds(first + rest))
  {
    var ids := ReportedIds(rest);
    assert ReportedIds(first + rest) == ReportedIds(first) + ids;
  }

  /**
   The report names each id at most once, in strictly increasing order, and names exactly the ids
   on one side only and those whose rows differ canonically.
   */
  lemma DiffReportsExactly(current: Entries, next: Entries)
    ensures StrictlyIncreasing(ReportedIds(DiffCatalog(current, next)))
    ensures forall d :: d in DiffCatalog(current, next) <==> Classify(d.id, current, next) == [d]
  {
    UnionIdsAreTheUnion(current, next);
    ClassifyAllIncreases(UnionIds(current, next), current, next);
    forall d
      ensures d in DiffCatalog(current, next) <==> Classify(d.id, current, next) == [d]
    {
      ClassifyAllReports(UnionIds(current, next), current, next, d);
    }
  }

  /**
   What each line of the report says happened: a row only upstream was added, one only on disk was
   removed, and one on both sides was changed when the two do not agree key by key.
   */
  lemma DiffSaysWhatHappened(current: Entries, next: Entries, id: string, changes: seq<FieldChange>)
    ensures Added(id) in DiffCatalog(current, next)
            <==> Lookup(current, id).None? && Lookup(next, id).Some?
    ensures Removed(id) in DiffCatalog(current, next)
            <==> Lookup(current, id).Some? && Lookup(next, id).None?
    ensures Changed(id, changes) in DiffCatalog(current, next)
            <==> && Lookup(current, id).Some? && Lookup(next, id).Some?
                 && !SameByKey(Lookup(current, id).value, Lookup(next, id).value)
                 && changes == FieldDiff(Lookup(current, id).value, Lookup(next, id).value)
  {
    DiffReportsExactly(current, next);
    if Lookup(current, id).Some? && Lookup(next, id).Some? {
      CanonicalDecidesSameByKey(Lookup(current, id).value, Lookup(next, id).value, "");
    }
  }

  /** The id of a row is the string at its first entry named `id`. */
  lemma RowIdIs(row: Val, id: string)
    ensures RowId(row) == Some(id)
            <==> row.Obj? && exists i :: 0 <= i < |row.entries| && row.entries[i] == ("id", Str(id))
                                         && forall j | 0 <= j < i :: row.entries[j].0 != "id"
  {
    if row.Obj? && RowId(row) == Some(id) {
      assert row.entries[FirstIndex(row.entries, "id")] == ("id", Str(id));
    }
  }

  /**
   A row on both sides is reported exactly when it is no reordering of the other: one that keeps
   the entries of one key in order, or with distinct keys any at all.
   */
  lemma ChangedIffNotReordered(current: Entries, next: Entries, id: string, cur: Val, row: Val)
    requires Lookup(current, id) == Some(cur) && Lookup(next, id) == Some(row)
    ensures Changed(id, FieldDiff(cur, row)) in DiffCatalog(current, next) <==> !SameByKey(cur, row)
    ensures id in ReportedIds(DiffCatalog(current, next)) <==> !SameByKey(cur, row)
    ensures DeepDistinct(cur) && DeepDistinct(row) ==> (SameByKey(cur, row) <==> SameUpToOrder(cur, row))
  {
    DiffReportsExactly(current, next);
    CanonicalDecidesSameByKey(cur, row, "");
    if DeepDistinct(cur) && DeepDistinct(row) {
      CanonicalDecidesSameUpToOrder(cur, row, "");
    }
    ReportedIff(DiffCatalog(current, next), id, Changed(id, FieldDiff(cur, row)));
  }

  lemma ReportedIff(out: seq<RowDiff>, id: string, d: RowDiff)
    requires d.id == id && forall e | e in out && e.id == id :: e == d
    ensures id in ReportedIds(out) <==> d in out
  {
    if id in ReportedIds(out) {
      var i :| 0 <= i < |out| && ReportedIds(out)[i] == id;
      assert out[i] in out;
    }
    if d in out {
      var i :| 0 <= i < |out| && out[i] == d;
      assert ReportedIds(out)[i] == id;
    }
  }

  // ------------------------------------------------------------------ changes as a patch

  /** Sets, appends or drops one key. */
  function PatchOne(entries: Entries, c: FieldChange): Entries {
    if c.new_.None? then Without(entries, c.key)
    else if FirstIndex(entries, c.key) < |entries|
    then entries[FirstIndex(entries, c.key) := (c.key, c.new_.value)]
    else entries + [(c.key, c.new_.value)]
  }

  function Patch(entries: Entries, changes: seq<FieldChange>): Entries
    decreases changes
  {
    if changes == [] then entries else Patch(PatchOne(entries, changes[0]), changes[1..])
  }

  /** What the changes say of a key: the last word, or nothing. */
  function Said(changes: seq<FieldChange>, key: string): Option<Option<Val>> {
    if changes == [] then None
    else if Said(changes[1..], key).Some? then Said(changes[1..], key)
    else if changes[0].key == key then Some(changes[0].new_)
    else None
  }

  lemma {:induction false} WithoutHasOnlyOld(entries: Entries, key: string, e: (string, Val))
    requires e in Without(entries, key)
    ensures e in entries
  {
    if entries != [] && e != entries[0] {
      WithoutHasOnlyOld(entries[1..], key, e);
    }
  }

  lemma PrependDistinct(first: (string, Val), rest: Entries)
    requires DistinctKeys(rest) && forall e | e in rest :: e.0 != first.0
    ensures DistinctKeys([first] + rest)
  {
    assert forall j | 0 <= j < |rest| :: rest[j] in rest;
  }

  lemma {:induction false} WithoutStaysDistinct(entries: Entries, key: string)
    requires DistinctKeys(entries)
    ensures DistinctKeys(Without(entries, key))
  {
    if entries != [] {
      var first, rest := entries[0], Without(entries[1..], key);
      WithoutStaysDistinct(entries[1..], key);
      forall e | e in rest
        ensures e.0 != first.0
      {
        WithoutHasOnlyOld(entries[1..], key, e);
      }
      PrependDistinct(first, rest);
    }
  }

  lemma {:induction false} LookupWithout(entries: Entries, key: string, k: string)
    ensures Lookup(Without(entries, key), k) == if k == key then None else Lookup(entries, k)
  {
    if entries != [] {
      var first, rest := entries[0], Without(entries[1..], key);
      LookupWithout(entries[1..], key, k);
      LookupCons(entries, k);
      if first.0 != key {
        LookupCons([first] + rest, k);
        assert ([first] + rest)[1..] == rest;
      }
    }
  }

  lemma {:induction false} LookupAppended(entries: Entries, key: string, value: Val, k: string)
    requires FirstIndex(entries, key) == |entries|
    ensures Lookup(entries + [(key, value)], k) == if k == key then Some(value) else Lookup(entries, k)
  {
    if entries != [] {
      assert entries[0].0 != key;
      assert FirstIndex(entries[1..], key) == |entries[1..]|;
      LookupAppended(entries[1..], key, value, k);
      assert (entries + [(key, value)])[1..] == entries[1..] + [(key, value)];
    }
  }

  lemma LookupOfDistinct(entries: Entries, i: nat)
    requires DistinctKeys(entries) && i < |entries|
    ensures FirstIndex(entries, entries[i].0) == i && Lookup(entries, entries[i].0) == Some(entries[i].1)
  {
  }

  lemma LookupPatchOne(entries: Entries, c: FieldChange, k: string)
    requires DistinctKeys(entries)
    ensures DistinctKeys(PatchOne(entries, c))
    ensures Lookup(PatchOne(entries, c), k) == if k == c.key then c.new_ else Lookup(entries, k)
  {
    var i := FirstIndex(entries, c.key);
    if c.new_.None? {
      WithoutStaysDistinct(entries, c.key);
      LookupWithout(entries, c.key, k);
    } else if i < |entries| {
      var r := PatchOne(entries, c);
      assert DistinctKeys(r);
      var j := FirstIndex(r, k);
      if j < |r| {
        LookupOfDistinct(r, j);
        LookupOfDistinct(entries, j);
      } else {
        assert forall m | 0 <= m < |entries| :: entries[m].0 == r[m].0;
      }
    } else {
      LookupAppended(entries, c.key, c.new_.value, k);
    }
  }

  lemma {:induction false} LookupPatch(entries: Entries, changes: seq<FieldChange>, k: string)
    requires DistinctKeys(entries)
    ensures DistinctKeys(Patch(entries, changes))
    ensures Lookup(Patch(entries, changes), k)
            == if Said(changes, k).Some? then Said(changes, k).value else Lookup(entries, k)
    decreases changes
  {
    if changes != [] {
      LookupPatchOne(entries, changes[0], k);
      LookupPatch(PatchOne(entries, changes[0]), changes[1..], k);
    }
  }

  lemma {:induction false} SaidOfConcatenation(a: seq<FieldChange>, b: seq<FieldChange>, k: string)
    ensures Said(a + b, k) == if Said(b, k).Some? then Said(b, k) else Said(a, k)
  {
    if a == [] {
      assert a + b == b;
    } else {
      SaidOfConcatenation(a[1..], b, k);
      assert (a + b)[1..] == a[1..] + b;
    }
  }

  lemma {:induction false} SaidOfSets(a: Entries, b: Entries, k: string)
    requires DistinctKeys(b)
    ensures Said(Sets(a, b), k)
            == if Lookup(b, k).Some? && Lookup(b, k) != Lookup(a, k) then Some(Lookup(b, k)) else None
  {
    if b != [] {
      SaidOfSets(a, b[1..], k);
      SaidOfConcatenation(ChangeOf(a, b[0].0, b[0].1), Sets(a, b[1..]), k);
    }
  }

  lemma {:induction false} SaidOfDrops(a: Entries, b: Entries, k: string)
    ensures Said(Drops(a, b), k) == if Lookup(a, k).Some? && Lookup(b, k).None? then Some(None) else None
  {
    if a != [] {
      SaidOfDrops(a[1..], b, k);
      SaidOfConcatenation(DropOf(b, a[0].0, a[0].1), Drops(a[1..], b), k);
    }
  }

  /** The canonical value at a key. */
  function CanonicalLookup(entries: Entries, k: string): Option<Val> {
    match Lookup(entries, k)
    case None => None
    case Some(v) => Some(Canonicalize(v, k))
  }

  lemma LookupOfCanonical(entries: Entries, k: string)
    ensures Lookup(Canonicalize(Obj(entries), "").entries, k) == CanonicalLookup(entries, k)
  {
    var order := EntryOrder(IsLadder(""));
    var sorted := StableSort(entries, order);
    CanonicalObject(entries, "");
    KeyOrderIsTotal(IsLadder(""));
    StableSortIsStable(entries, (k, Num("")), order);
    FirstOfTies(entries, (k, Num("")), IsLadder(""));
    FirstOfTies(sorted, (k, Num("")), IsLadder(""));
    LookupOfCanonicalEntries(sorted, k);
  }

  lemma LookupOfCanonicalEntries(entries: Entries, k: string)
    ensures Lookup(CanonicalEntries(entries), k) == CanonicalLookup(entries, k)
  {
    var c := CanonicalEntries(entries);
    assert forall i | 0 <= i < |entries| :: c[i].0 == entries[i].0;
    assert FirstIndex(c, k) == FirstIndex(entries, k);
  }

  /** Objects with distinct keys and equal canonical values at every key have one canonical form. */
  lemma SameLookupsSameCanonical(a: Entries, b: Entries)
    requires DistinctKeys(a) && DistinctKeys(b)
    requires forall k :: CanonicalLookup(a, k) == CanonicalLookup(b, k)
    ensures Canonicalize(Obj(a), "") == Canonicalize(Obj(b), "")
  {
    CanonicalShape(a, "");
    CanonicalShape(b, "");
    var x, y := Canonicalize(Obj(a), "").entries, Canonicalize(Obj(b), "").entries;
    CanonicalLookupsInclude(a, b, x, y);
    CanonicalLookupsInclude(b, a, y, x);
    SortedIsDeterminedByElements(x, y, false);
  }

  lemma CanonicalLookupsInclude(a: Entries, b: Entries, x: Entries, y: Entries)
    requires DistinctKeys(a) && HoldsCanonical(a, x) && HoldsCanonical(b, y)
    requires forall k :: CanonicalLookup(a, k) == CanonicalLookup(b, k)
    ensures forall e | e in x :: e in y
  {
    forall e | e in x
      ensures e in y
    {
      var i :| 0 <= i < |a| && e == CanonicalEntry(a[i]);
      LookupOfDistinct(a, i);
      assert CanonicalLookup(b, e.0) == Some(e.1);
      assert CanonicalEntry(b[FirstIndex(b, e.0)]) in y;
    }
  }

  /**
   The reported changes are a patch: applied to the old row they give the new one up to the order
   of keys.
   */
  lemma ChangesPatchOldIntoNew(cur: Entries, next: Entries)
    requires DistinctKeys(cur) && DistinctKeys(next)
    ensures DistinctKeys(Patch(cur, FieldDiff(Obj(cur), Obj(next))))
    ensures Canonicalize(Obj(Patch(cur, FieldDiff(Obj(cur), Obj(next)))), "") == Canonicalize(Obj(next), "")
  {
    var changes := FieldDiff(Obj(cur), Obj(next));
    var patched := Patch(cur, changes);
    LookupPatch(cur, changes, "");
    forall k
      ensures CanonicalLookup(patched, k) == CanonicalLookup(next, k)
    {
      PatchedLookup(cur, next, k);
    }
    SameLookupsSameCanonical(patched, next);
  }

  lemma PatchedLookup(cur: Entries, next: Entries, k: string)
    requires DistinctKeys(cur) && DistinctKeys(next)
    ensures CanonicalLookup(Patch(cur, FieldDiff(Obj(cur), Obj(next))), k) == CanonicalLookup(next, k)
  {
    var a, b := Canonicalize(Obj(cur), "").entries, Canonicalize(Obj(next), "").entries;
    LookupOfCanonical(cur, k);
    LookupOfCanonical(next, k);
    CanonicalShape(next, "");
    SaidOfSets(a, b, k);
    SaidOfDrops(a, b, k);
    SaidOfConcatenation(Sets(a, b), Drops(a, b), k);
    LookupPatch(cur, FieldDiff(Obj(cur), Obj(next)), k);
    if Lookup(next, k).Some? {
      CanonicalizeIsIdempotent(Lookup(next, k).value, k);
    }
  }

  lemma {:induction false} SetsAreExact(a: Entries, b: Entries, c: FieldChange)
    requires DistinctKeys(b)
    ensures c in Sets(a, b)
            <==> c.new_.Some? && c.new_ == Lookup(b, c.key) && c.old_ == Lookup(a, c.key) && c.old_ != c.new_
  {
    if b != [] {
      SetsAreExact(a, b[1..], c);
      LookupCons(b, c.key);
    }
  }

  lemma {:induction false} DropsAreExact(a: Entries, b: Entries, c: FieldChange)
    requires DistinctKeys(a)
    ensures c in Drops(a, b)
            <==> c.old_.Some? && c.old_ == Lookup(a, c.key) && c.new_.None? && Lookup(b, c.key).None?
  {
    if a != [] {
      DropsAreExact(a[1..], b, c);
      LookupCons(a, c.key);
    }
  }

  /** The lines are exactly the keys whose canonical values differ, with both values. */
  lemma LinesAreExact(cur: Entries, next: Entries, c: FieldChange)
    requires DistinctKeys(cur) && DistinctKeys(next)
    ensures c in FieldDiff(Obj(cur), Obj(next))
            <==> c.old_ == CanonicalLookup(cur, c.key) && c.new_ == CanonicalLookup(next, c.key) && c.old_ != c.new_
  {
    CanonicalShape(cur, "");
    CanonicalShape(next, "");
    var a, b := Canonicalize(Obj(cur), "").entries, Canonicalize(Obj(next), "").entries;
    LookupOfCanonical(cur, c.key);
    LookupOfCanonical(next, c.key);
    SetsAreExact(a, b, c);
    DropsAreExact(a, b, c);
  }

  ghost predicate DistinctLines(changes: seq<FieldChange>) {
    forall i, j | 0 <= i < j < |changes| :: changes[i].key != changes[j].key
  }

  lemma JoinLines(first: seq<FieldChange>, rest: seq<FieldChange>)
    requires DistinctLines(first) && DistinctLines(rest)
    requires forall c, d | c in first && d in rest :: c.key != d.key
    ensures DistinctLines(first + rest)
  {
    var all := first + rest;
    forall i, j | 0 <= i < j < |all|
      ensures all[i].key != all[j].key
    {
      if i < |first| <= j {
        assert first[i] in first && rest[j - |first|] in rest;
      }
    }
  }

  lemma {:induction false} SetsHaveDistinctKeys(a: Entries, b: Entries)
    requires DistinctKeys(b)
    ensures DistinctLines(Sets(a, b))
  {
    if b != [] {
      var first, rest := ChangeOf(a, b[0].0, b[0].1), Sets(a, b[1..]);
      SetsHaveDistinctKeys(a, b[1..]);
      forall c | c in rest
        ensures c.key != b[0].0
      {
        SetsAreExact(a, b[1..], c);
      }
      JoinLines(first, rest);
    }
  }

  lemma {:induction false} DropsHaveDistinctKeys(a: Entries, b: Entries)
    requires DistinctKeys(a)
    ensures DistinctLines(Drops(a, b))
  {
    if a != [] {
      var first, rest := DropOf(b, a[0].0, a[0].1), Drops(a[1..], b);
      DropsHaveDistinctKeys(a[1..], b);
      forall c | c in rest
        ensures c.key != a[0].0
      {
        DropsAreExact(a[1..], b, c);
      }
      JoinLines(first, rest);
    }
  }

  /** No key has two lines. */
  lemma OneLinePerKey(cur: Entries, next: Entries)
    requires DistinctKeys(cur) && DistinctKeys(next)
    ensures DistinctLines(FieldDiff(Obj(cur), Obj(next)))
  {
    CanonicalShape(cur, "");
    CanonicalShape(next, "");
    var a, b := Canonicalize(Obj(cur), "").entries, Canonicalize(Obj(next), "").entries;
    SetsHaveDistinctKeys(a, b);
    DropsHaveDistinctKeys(a, b);
    forall c, d | c in Sets(a, b) && d in Drops(a, b)
      ensures c.key != d.key
    {
      SetsAreExact(a, b, c);
      DropsAreExact(a, b, d);
    }
    JoinLines(Sets(a, b), Drops(a, b));
  }

  /** Keys in the order of texts. */
  ghost predicate KeysInOrder(lines: seq<FieldChange>) {
    forall i, j | 0 <= i < j < |lines| :: TextLeq(lines[i].key, lines[j].key)
  }

  /** The lines of the keys that stay or come, in order, and then those of the keys that go, in order. */
  lemma LinesAreInOrder(cur: Entries, next: Entries) returns (n: nat)
    ensures var lines := FieldDiff(Obj(cur), Obj(next));
            && n <= |lines| && KeysInOrder(lines[..n]) && KeysInOrder(lines[n..])
            && (forall i | 0 <= i < n :: lines[i].new_.Some?)
            && (forall i | n <= i < |lines| :: lines[i].new_.None?)
  {
    var a, b := Canonicalize(Obj(cur), ""), Canonicalize(Obj(next), "");
    CanonicalIsOrdered(Obj(cur), "");
    CanonicalIsOrdered(Obj(next), "");
    CanonicalHolds(cur, "");
    CanonicalHolds(next, "");
    var sets, drops := Sets(a.entries, b.entries), Drops(a.entries, b.entries);
    SetsInOrder(a.entries, b.entries);
    DropsInOrder(a.entries, b.entries);
    n := |sets|;
    assert (sets + drops)[..n] == sets && (sets + drops)[n..] == drops;
  }

  ghost predicate EntriesInOrder(entries: Entries) {
    forall i, j | 0 <= i < j < |entries| :: TextLeq(entries[i].0, entries[j].0)
  }

  lemma JoinInOrder(first: seq<FieldChange>, rest: seq<FieldChange>, key: string)
    requires |first| <= 1 && KeysInOrder(rest) && forall c | c in first :: c.key == key
    requires forall c | c in rest :: TextLeq(key, c.key)
    ensures KeysInOrder(first + rest)
  {
    var all := first + rest;
    forall i, j | 0 <= i < j < |all|
      ensures TextLeq(all[i].key, all[j].key)
    {
      if i < |first| {
        assert first[i] in first && rest[j - |first|] in rest;
      }
    }
  }

  lemma {:induction false} SetsInOrder(a: Entries, b: Entries)
    requires EntriesInOrder(b)
    ensures KeysInOrder(Sets(a, b))
    ensures forall c | c in Sets(a, b) :: c.new_.Some? && exists i :: 0 <= i < |b| && b[i].0 == c.key
  {
    if b != [] {
      var rest := Sets(a, b[1..]);
      SetsInOrder(a, b[1..]);
      forall c | c in rest
        ensures TextLeq(b[0].0, c.key) && c.new_.Some? && exists i :: 0 <= i < |b| && b[i].0 == c.key
      {
        var i :| 0 <= i < |b[1..]| && b[1..][i].0 == c.key;
        assert b[i + 1].0 == c.key;
      }
      JoinInOrder(ChangeOf(a, b[0].0, b[0].1), rest, b[0].0);
      assert b[0].0 == b[0].0;
    }
  }

  lemma {:induction false} DropsInOrder(a: Entries, b: Entries)
    requires EntriesInOrder(a)
    ensures KeysInOrder(Drops(a, b))
    ensures forall c | c in Drops(a, b) :: c.new_.None? && exists i :: 0 <= i < |a| && a[i].0 == c.key
  {
    if a != [] {
      var rest := Drops(a[1..], b);
      DropsInOrder(a[1..], b);
      forall c | c in rest
        ensures TextLeq(a[0].0, c.key) && c.new_.None? && exists i :: 0 <= i < |a| && a[i].0 == c.key
      {
        var i :| 0 <= i < |a[1..]| && a[1..][i].0 == c.key;
        assert a[i + 1].0 == c.key;
      }
      JoinInOrder(DropOf(b, a[0].0, a[0].1), rest, a[0].0);
    }
  }

  /** With distinct keys, a pair of rows has a line exactly when it differs canonically. */
  lemma ChangedIffALine(cur: Entries, next: Entries)
    requires DistinctKeys(cur) && DistinctKeys(next)
    ensures Canonicalize(Obj(cur), "") != Canonicalize(Obj(next), "") <==> FieldDiff(Obj(cur), Obj(next)) != []
  {
    var diff := FieldDiff(Obj(cur), Obj(next));
    if diff == [] {
      ChangesPatchOldIntoNew(cur, next);
    } else {
      LinesAreExact(cur, next, diff[0]);
      LookupOfCanonical(cur, diff[0].key);
      LookupOfCanonical(next, diff[0].key);
    }
  }

  lemma {:induction false} NoSetsIff(a: Entries, b: Entries)
    ensures Sets(a, b) == [] <==> forall e | e in b :: Lookup(a, e.0) == Some(e.1)
  {
    if b != [] {
      NoSetsIff(a, b[1..]);
      assert forall e :: e in b <==> e == b[0] || e in b[1..];
    }
  }

  lemma {:induction false} NoDropsIff(a: Entries, b: Entries)
    ensures Drops(a, b) == [] <==> forall e | e in a :: Lookup(b, e.0).Some?
  {
    if a != [] {
      NoDropsIff(a[1..], b);
      assert forall e :: e in a <==> e == a[0] || e in a[1..];
    }
  }

  /** Every entry of `next` has, canonically, the value `cur` first gives its key; no key went away. */
  ghost predicate FirstValuesAgree(cur: Entries, next: Entries) {
    && (forall i | 0 <= i < |next| ::
          CanonicalLookup(cur, next[i].0) == Some(Canonicalize(next[i].1, next[i].0)))
    && (forall i | 0 <= i < |cur| :: Lookup(next, cur[i].0).Some?)
  }

  /** For all rows, repeated keys included: when a pair has no line. */
  lemma NoLineIff(cur: Entries, next: Entries)
    ensures FieldDiff(Obj(cur), Obj(next)) == [] <==> FirstValuesAgree(cur, next)
  {
    CanonicalHolds(cur, "");
    CanonicalHolds(next, "");
    var a, b := Canonicalize(Obj(cur), "").entries, Canonicalize(Obj(next), "").entries;
    NoSetsIff(a, b);
    NoDropsIff(a, b);
    forall i | 0 <= i < |next|
      ensures Lookup(a, next[i].0) == CanonicalLookup(cur, next[i].0) && CanonicalEntry(next[i]) in b
    {
      LookupOfCanonical(cur, next[i].0);
    }
    forall i | 0 <= i < |cur|
      ensures Lookup(b, cur[i].0).Some? <==> Lookup(next, cur[i].0).Some?
      ensures CanonicalEntry(cur[i]) in a
    {
      LookupOfCanonical(next, cur[i].0);
    }
  }

  /**
   Distinct keys are needed: when only the second of two equal keys goes away, the rows differ
   canonically and the report has no line.
   */
  lemma RepeatedKeyHasNoLine(key: string, v: Val)
    ensures Canonicalize(Obj([(key, v), (key, v)]), "") != Canonicalize(Obj([(key, v)]), "")
    ensures FieldDiff(Obj([(key, v), (key, v)]), Obj([(key, v)])) == []
  {
    var two, one := [(key, v), (key, v)], [(key, v)];
    CanonicalObject(two, "");
    CanonicalObject(one, "");
    SortedEntriesAreEntries(two, IsLadder(""));
    SortedEntriesAreEntries(one, IsLadder(""));
    assert FirstIndex(two, key) == 0 && FirstIndex(one, key) == 0;
    NoLineIff(two, one);
  }
}
