/** Signed-off divergences, applied to catalog rows and refused when stale. */
module CatalogPins {
  import opened Wrappers
  import opened TsData
  import opened TsParser
  import opened CatalogDiff

  datatype Action = Drop | Pin(json: string)

  datatype Delta = Delta(catalog: string, model: string, key: string, action: Action)

  datatype PinError =
    | ModelIsGone(delta: Delta)
    | NothingToDrop(delta: Delta)
    | PinIsNotJson(delta: Delta, error: ParseError)
    | PinInvents(delta: Delta)
    | PinIsNoOp(delta: Delta)

  type Rows = seq<Val>

  /** The first row of that id, or the number of rows. */
  function RowIndex(rows: Rows, id: string): (i: nat)
    ensures i <= |rows|
    ensures i < |rows| ==> RowId(rows[i]) == Some(id)
    ensures forall j | 0 <= j < i :: RowId(rows[j]) != Some(id)
  {
    if rows == [] || RowId(rows[0]) == Some(id) then 0 else 1 + RowIndex(rows[1..], id)
  }

  /** What one delta makes of its row. */
  function Edit(row: Val, d: Delta): Result<Val, PinError> {
    match d.action
    case Drop =>
      (match row.Remove(d.key)
       case None => Err(NothingToDrop(d))
       case Some(edited) => Ok(edited))
    case Pin(json) =>
      match ParseJson(json)
      case Err(e) => Err(PinIsNotJson(d, e))
      case Ok(pinned) =>
        match row.Get(d.key)
        case None => Err(PinInvents(d))
        case Some(upstream) =>
          if upstream == pinned then Err(PinIsNoOp(d))
          else
            match row.Set(d.key, pinned)
            case None => Ok(row)
            case Some(edited) => Ok(edited)
  }

  function ApplyOne(rows: Rows, d: Delta): Result<Rows, PinError> {
    var i := RowIndex(rows, d.model);
    if i == |rows| then Err(ModelIsGone(d))
    else
      match Edit(rows[i], d)
      case Err(e) => Err(e)
      case Ok(edited) => Ok(rows[i := edited])
  }

  /** The deltas of one catalog, one after the other. */
  function ApplyDeltas(deltas: seq<Delta>, catalog: string, rows: Rows): Result<Rows, PinError>
    decreases deltas
  {
    if deltas == [] then Ok(rows)
    else if deltas[0].catalog != catalog then ApplyDeltas(deltas[1..], catalog, rows)
    else
      match ApplyOne(rows, deltas[0])
      case Err(e) => Err(e)
      case Ok(edited) => ApplyDeltas(deltas[1..], catalog, edited)
  }

  /** `apply_deltas_from`, run: the rows are edited in place. */
  method RunApplyDeltas(deltas: seq<Delta>, catalog: string, upstream: Rows) returns (r: Result<Rows, PinError>)
    ensures r == ApplyDeltas(deltas, catalog, upstream)
  {
    var rows := upstream;
    for n := 0 to |deltas|
      invariant ApplyDeltas(deltas[n..], catalog, rows) == ApplyDeltas(deltas, catalog, upstream)
    {
      var d := deltas[n];
      assert deltas[n..][1..] == deltas[n + 1..];
      if d.catalog == catalog {
        var i := RowIndex(rows, d.model);
        if i == |rows| {
          return Err(ModelIsGone(d));
        }
        var edited := Edit(rows[i], d);
        if edited.Err? {
          return Err(edited.error);
        }
        rows := rows[i := edited.value];
      }
    }
    r := Ok(rows);
  }

  // --------------------------------------------------------------- all deltas at once

  /** The delta still says something about upstream's rows. */
  predicate IsLive(rows: Rows, d: Delta) {
    var i := RowIndex(rows, d.model);
    i < |rows| && rows[i].Get(d.key).Some?
    && (d.action.Pin? ==> ParseJson(d.action.json).Ok? && rows[i].Get(d.key).value != ParseJson(d.action.json).value)
  }

  function DeltaFor(deltas: seq<Delta>, catalog: string, model: string, key: string): Option<Delta> {
    if deltas == [] then None
    else if deltas[0].catalog == catalog && deltas[0].model == model && deltas[0].key == key then Some(deltas[0])
    else DeltaFor(deltas[1..], catalog, model, key)
  }

  /** Each entry dropped, pinned where it stands, or kept. */
  function PinnedEntries(entries: Entries, deltas: seq<Delta>, catalog: string, model: string): Entries
    decreases entries
  {
    if entries == [] then []
    else
      var rest := PinnedEntries(entries[1..], deltas, catalog, model);
      match DeltaFor(deltas, catalog, model, entries[0].0)
      case None => [entries[0]] + rest
      case Some(d) =>
        if d.action.Pin? && ParseJson(d.action.json).Ok?
        then [(entries[0].0, ParseJson(d.action.json).value)] + rest
        else rest
  }

  function PinnedRow(row: Val, deltas: seq<Delta>, catalog: string): Val {
    if row.Obj? && RowId(row).Some? then Obj(PinnedEntries(row.entries, deltas, catalog, RowId(row).value)) else row
  }

  function PinnedRows(rows: Rows, deltas: seq<Delta>, catalog: string): Rows {
    seq(|rows|, i requires 0 <= i < |rows| => PinnedRow(rows[i], deltas, catalog))
  }

  /** Ids are distinct, and so are the keys of each row. */
  ghost predicate WellKeyed(rows: Rows) {
    && (forall i, j | 0 <= i < j < |rows| && RowId(rows[i]).Some? :: RowId(rows[i]) != RowId(rows[j]))
    && (forall i | 0 <= i < |rows| && rows[i].Obj? :: DistinctKeys(rows[i].entries))
  }

  predicate SameTarget(a: Delta, b: Delta) {
    a.catalog == b.catalog && a.model == b.model && a.key == b.key
  }

  /** No two deltas name one key of one row, and none names the id. */
  ghost predicate DistinctTargets(deltas: seq<Delta>) {
    && (forall i, j | 0 <= i < j < |deltas| :: !SameTarget(deltas[i], deltas[j]))
    && (forall i | 0 <= i < |deltas| :: deltas[i].key != "id")
  }

  // ---------------------------------------------------------------------- one edit

  /** An edit succeeds exactly on a live delta, and changes its own key only. */
  lemma EditChangesOwnKey(row: Val, d: Delta, k: string)
    requires row.Obj? && DistinctKeys(row.entries)
    ensures Edit(row, d).Ok?
            <==> row.Get(d.key).Some?
                 && (d.action.Pin?
                     ==> ParseJson(d.action.json).Ok? && row.Get(d.key).value != ParseJson(d.action.json).value)
    ensures Edit(row, d).Ok? ==> Edit(row, d).value.Obj? && DistinctKeys(Edit(row, d).value.entries)
    ensures Edit(row, d).Ok? && k != d.key ==> Edit(row, d).value.Get(k) == row.Get(k)
  {
    var entries := row.entries;
    match d.action
    case Drop =>
      WithoutStaysDistinct(entries, d.key);
      LookupWithout(entries, d.key, k);
      LookupWithout(entries, d.key, d.key);
    case Pin(json) =>
      if FirstIndex(entries, d.key) < |entries| && ParseJson(json).Ok? {
        LookupPatchOne(entries, FieldChange(d.key, None, Some(ParseJson(json).value)), k);
      }
  }

  lemma {:induction false} PinnedAfterDrop(entries: Entries, d: Delta, rest: seq<Delta>, catalog: string)
    requires d.catalog == catalog && d.action.Drop?
    ensures PinnedEntries(Without(entries, d.key), rest, catalog, d.model)
            == PinnedEntries(entries, [d] + rest, catalog, d.model)
  {
    assert ([d] + rest)[1..] == rest;
    if entries != [] {
      PinnedAfterDrop(entries[1..], d, rest, catalog);
      if entries[0].0 != d.key {
        assert ([entries[0]] + Without(entries[1..], d.key))[1..] == Without(entries[1..], d.key);
      }
    }
  }

  lemma {:induction false} PinnedAfterPin(entries: Entries, d: Delta, rest: seq<Delta>, catalog: string, value: Val)
    requires d.catalog == catalog && d.action.Pin? && ParseJson(d.action.json) == Ok(value)
    requires DistinctKeys(entries) && DeltaFor(rest, catalog, d.model, d.key).None?
    ensures var i := FirstIndex(entries, d.key);
            PinnedEntries(if i < |entries| then entries[i := (d.key, value)] else entries, rest, catalog, d.model)
            == PinnedEntries(entries, [d] + rest, catalog, d.model)
  {
    assert ([d] + rest)[1..] == rest;
    if entries != [] {
      PinnedAfterPin(entries[1..], d, rest, catalog, value);
      var i := FirstIndex(entries, d.key);
      if i == 0 {
        assert entries[0 := (d.key, value)][1..] == entries[1..];
        assert FirstIndex(entries[1..], d.key) == |entries[1..]|;
      } else if i < |entries| {
        assert entries[i := (d.key, value)][1..] == entries[1..][i - 1 := (d.key, value)];
      }
    }
  }

  lemma {:induction false} OtherDeltas(entries: Entries, d: Delta, rest: seq<Delta>, catalog: string, model: string)
    requires d.catalog != catalog || d.model != model
    ensures PinnedEntries(entries, [d] + rest, catalog, model) == PinnedEntries(entries, rest, catalog, model)
  {
    assert ([d] + rest)[1..] == rest;
    if entries != [] {
      OtherDeltas(entries[1..], d, rest, catalog, model);
    }
  }

  lemma {:induction false} NoDeltaFor(deltas: seq<Delta>, catalog: string, model: string, key: string)
    requires forall i | 0 <= i < |deltas| :: !SameTarget(Delta(catalog, model, key, Drop), deltas[i])
    ensures DeltaFor(deltas, catalog, model, key).None?
  {
    if deltas != [] {
      NoDeltaFor(deltas[1..], catalog, model, key);
    }
  }

  /** After one edit, the remaining deltas make of the row what all of them make of the old one. */
  lemma EditedRowPins(row: Val, d: Delta, rest: seq<Delta>, catalog: string)
    requires row.Obj? && DistinctKeys(row.entries) && RowId(row) == Some(d.model)
    requires d.catalog == catalog && d.key != "id" && Edit(row, d).Ok?
    requires forall i | 0 <= i < |rest| :: !SameTarget(d, rest[i])
    ensures RowId(Edit(row, d).value) == RowId(row)
    ensures PinnedRow(Edit(row, d).value, rest, catalog) == PinnedRow(row, [d] + rest, catalog)
  {
    EditChangesOwnKey(row, d, "id");
    match d.action
    case Drop => PinnedAfterDrop(row.entries, d, rest, catalog);
    case Pin(json) =>
      forall i | 0 <= i < |rest|
        ensures !SameTarget(Delta(catalog, d.model, d.key, Drop), rest[i])
      {
        assert !SameTarget(d, rest[i]);
      }
      NoDeltaFor(rest, catalog, d.model, d.key);
      PinnedAfterPin(row.entries, d, rest, catalog, ParseJson(json).value);
  }

  // ------------------------------------------------------------------------ whole tables

  lemma RowIndexIsUnique(rows: Rows, i: nat, id: string)
    requires WellKeyed(rows) && i < |rows| && RowId(rows[i]) == Some(id)
    ensures RowIndex(rows, id) == i
  {
  }

  /** Editing one row in place keeps the table well keyed and finds every id where it was. */
  lemma EditedRowsAreWellKeyed(rows: Rows, i: nat, edited: Val)
    requires WellKeyed(rows) && i < |rows| && RowId(edited) == RowId(rows[i])
    requires edited.Obj? ==> DistinctKeys(edited.entries)
    ensures WellKeyed(rows[i := edited])
    ensures forall id :: RowIndex(rows[i := edited], id) == RowIndex(rows, id)
  {
    var after := rows[i := edited];
    assert forall j | 0 <= j < |rows| :: RowId(after[j]) == RowId(rows[j]);
    forall id
      ensures RowIndex(after, id) == RowIndex(rows, id)
    {
      SameIdsSameIndex(rows, after, id);
    }
  }

  lemma {:induction false} SameIdsSameIndex(a: Rows, b: Rows, id: string)
    requires |a| == |b| && forall j | 0 <= j < |a| :: RowId(a[j]) == RowId(b[j])
    ensures RowIndex(a, id) == RowIndex(b, id)
  {
    if a != [] {
      SameIdsSameIndex(a[1..], b[1..], id);
    }
  }

  /** One delta, applied: it was live, the others stay as live as they were, and nothing else moves. */
  lemma OneDelta(rows: Rows, d: Delta, rest: seq<Delta>, catalog: string)
    requires WellKeyed(rows) && d.catalog == catalog && d.key != "id"
    requires forall i | 0 <= i < |rest| :: !SameTarget(d, rest[i])
    ensures ApplyOne(rows, d).Ok? <==> IsLive(rows, d)
    ensures ApplyOne(rows, d).Ok? ==>
              var after := ApplyOne(rows, d).value;
              && WellKeyed(after)
              && (forall i | 0 <= i < |rest| && rest[i].catalog == catalog :: IsLive(after, rest[i]) <==> IsLive(rows, rest[i]))
              && PinnedRows(after, rest, catalog) == PinnedRows(rows, [d] + rest, catalog)
  {
    var i := RowIndex(rows, d.model);
    if i < |rows| {
      var row := rows[i];
      EditChangesOwnKey(row, d, "id");
      if Edit(row, d).Ok? {
        var edited := Edit(row, d).value;
        var after := rows[i := edited];
        EditedRowPins(row, d, rest, catalog);
        EditedRowsAreWellKeyed(rows, i, edited);
        forall n | 0 <= n < |rest| && rest[n].catalog == catalog
          ensures IsLive(after, rest[n]) <==> IsLive(rows, rest[n])
        {
          OthersStayLive(rows, i, d, rest[n]);
        }
        forall j | 0 <= j < |rows|
          ensures PinnedRow(after[j], rest, catalog) == PinnedRow(rows[j], [d] + rest, catalog)
        {
          if j != i {
            OtherRowPins(rows, i, j, d, rest, catalog);
          }
        }
      }
    }
  }

  lemma OthersStayLive(rows: Rows, i: nat, d: Delta, e: Delta)
    requires WellKeyed(rows) && i < |rows| && RowId(rows[i]) == Some(d.model) && d.key != "id"
    requires Edit(rows[i], d).Ok? && d.catalog == e.catalog && !SameTarget(d, e)
    requires forall id :: RowIndex(rows[i := Edit(rows[i], d).value], id) == RowIndex(rows, id)
    ensures IsLive(rows[i := Edit(rows[i], d).value], e) <==> IsLive(rows, e)
  {
    RowIndexIsUnique(rows, i, d.model);
    if e.model == d.model {
      EditChangesOwnKey(rows[i], d, e.key);
    } else {
      assert RowIndex(rows, e.model) != i;
    }
  }

  lemma OtherRowPins(rows: Rows, i: nat, j: nat, d: Delta, rest: seq<Delta>, catalog: string)
    requires WellKeyed(rows) && i < |rows| && j < |rows| && i != j && RowId(rows[i]) == Some(d.model)
    ensures PinnedRow(rows[j], rest, catalog) == PinnedRow(rows[j], [d] + rest, catalog)
  {
    if rows[j].Obj? && RowId(rows[j]).Some? {
      assert RowId(rows[j]) != RowId(rows[i]);
      OtherDeltas(rows[j].entries, d, rest, catalog, RowId(rows[j]).value);
    }
  }

  /**
   The deltas of a catalog are applied exactly when each of them is live on upstream's own rows,
   and then each row keeps its place and its other keys, and a pinned key its position.
   */
  lemma {:induction false} PinsChangeExactlyWhatTheyName(deltas: seq<Delta>, catalog: string, rows: Rows)
    requires WellKeyed(rows) && DistinctTargets(deltas)
    ensures ApplyDeltas(deltas, catalog, rows).Ok?
            <==> forall i | 0 <= i < |deltas| && deltas[i].catalog == catalog :: IsLive(rows, deltas[i])
    ensures ApplyDeltas(deltas, catalog, rows).Ok?
            ==> ApplyDeltas(deltas, catalog, rows).value == PinnedRows(rows, deltas, catalog)
    decreases deltas
  {
    if deltas == [] {
      NoDeltasKeepRows(rows, catalog);
    } else {
      var d, rest := deltas[0], deltas[1..];
      assert deltas == [d] + rest;
      assert DistinctTargets(rest);
      forall i | 0 <= i < |rest|
        ensures !SameTarget(d, rest[i])
      {
        assert rest[i] == deltas[i + 1];
      }
      if d.catalog != catalog {
        PinsChangeExactlyWhatTheyName(rest, catalog, rows);
        ForeignDelta(rows, d, rest, catalog);
      } else {
        OneDelta(rows, d, rest, catalog);
        if ApplyOne(rows, d).Ok? {
          PinsChangeExactlyWhatTheyName(rest, catalog, ApplyOne(rows, d).value);
        }
      }
      assert forall i | 1 <= i < |deltas| :: deltas[i] == rest[i - 1];
    }
  }

  lemma ForeignDelta(rows: Rows, d: Delta, rest: seq<Delta>, catalog: string)
    requires d.catalog != catalog
    ensures PinnedRows(rows, [d] + rest, catalog) == PinnedRows(rows, rest, catalog)
  {
    forall j | 0 <= j < |rows|
      ensures PinnedRow(rows[j], [d] + rest, catalog) == PinnedRow(rows[j], rest, catalog)
    {
      if rows[j].Obj? && RowId(rows[j]).Some? {
        OtherDeltas(rows[j].entries, d, rest, catalog, RowId(rows[j]).value);
      }
    }
  }

  lemma NoDeltasKeepRows(rows: Rows, catalog: string)
    ensures PinnedRows(rows, [], catalog) == rows
  {
    forall j | 0 <= j < |rows|
      ensures PinnedRow(rows[j], [], catalog) == rows[j]
    {
      if rows[j].Obj? && RowId(rows[j]).Some? {
        NoDeltasKeepEntries(rows[j].entries, catalog, RowId(rows[j]).value);
      }
    }
  }

  lemma {:induction false} NoDeltasKeepEntries(entries: Entries, catalog: string, model: string)
    ensures PinnedEntries(entries, [], catalog, model) == entries
  {
    if entries != [] {
      NoDeltasKeepEntries(entries[1..], catalog, model);
    }
  }

  // ------------------------------------------------------------- one delta after another

  /** The value of a key in the first row of that id. */
  function ValueAt(rows: Rows, model: string, key: string): Option<Val> {
    var i := RowIndex(rows, model);
    if i < |rows| then rows[i].Get(key) else None
  }

  /** What one delta makes of the value it names. */
  function Then(d: Delta): Option<Val> {
    if d.action.Pin? && ParseJson(d.action.json).Ok? then Some(ParseJson(d.action.json).value) else None
  }

  predicate Names(d: Delta, catalog: string, model: string, key: string) {
    d.catalog == catalog && d.model == model && d.key == key
  }

  /** What the deltas make of a value, one after another. */
  function ValueAfter(v: Option<Val>, deltas: seq<Delta>, catalog: string, model: string, key: string): Option<Val>
    decreases deltas
  {
    if deltas == [] then v
    else ValueAfter(if Names(deltas[0], catalog, model, key) then Then(deltas[0]) else v,
                    deltas[1..], catalog, model, key)
  }

  /** A delta still says something about a value: it is there, and a pin parses to another one. */
  predicate SaysSomething(v: Option<Val>, d: Delta) {
    v.Some? && (d.action.Pin? ==> ParseJson(d.action.json).Ok? && v.value != ParseJson(d.action.json).value)
  }

  /** Delta `i` says something about the value that those before it have made. */
  predicate LiveInTurn(rows: Rows, deltas: seq<Delta>, catalog: string, i: nat)
    requires i < |deltas|
  {
    var d := deltas[i];
    SaysSomething(ValueAfter(ValueAt(rows, d.model, d.key), deltas[..i], catalog, d.model, d.key), d)
  }

  lemma LookupSet(entries: Entries, key: string, value: Val, k: string)
    requires FirstIndex(entries, key) < |entries|
    ensures Lookup(entries[FirstIndex(entries, key) := (key, value)], k)
            == if k == key then Some(value) else Lookup(entries, k)
  {
    var i := FirstIndex(entries, key);
    var after := entries[i := (key, value)];
    assert forall j | 0 <= j < |entries| :: after[j].0 == entries[j].0;
    assert FirstIndex(after, k) == FirstIndex(entries, k);
  }

  /** One edit, on any row: when it succeeds, and what every key reads after it. */
  lemma EditReads(row: Val, d: Delta, k: string)
    ensures Edit(row, d).Ok? <==> SaysSomething(row.Get(d.key), d)
    ensures Edit(row, d).Ok? ==> Edit(row, d).value.Get(k) == if k == d.key then Then(d) else row.Get(k)
  {
    if row.Obj? {
      var entries := row.entries;
      match d.action
      case Drop =>
        LookupWithout(entries, d.key, k);
        LookupWithout(entries, d.key, d.key);
      case Pin(json) =>
        if FirstIndex(entries, d.key) < |entries| && ParseJson(json).Ok? {
          LookupSet(entries, d.key, ParseJson(json).value, k);
        }
    }
  }

  /** One delta, on any rows: when it succeeds, and what every key of every model reads after it. */
  lemma DeltaReads(rows: Rows, d: Delta, model: string, key: string)
    requires d.key != "id"
    ensures ApplyOne(rows, d).Ok? <==> SaysSomething(ValueAt(rows, d.model, d.key), d)
    ensures ApplyOne(rows, d).Ok?
            ==> ValueAt(ApplyOne(rows, d).value, model, key)
                == if d.model == model && d.key == key then Then(d) else ValueAt(rows, model, key)
  {
    var i := RowIndex(rows, d.model);
    if i < |rows| {
      EditReads(rows[i], d, key);
      EditReads(rows[i], d, "id");
      if Edit(rows[i], d).Ok? {
        var after := rows[i := Edit(rows[i], d).value];
        forall j | 0 <= j < |rows|
          ensures RowId(after[j]) == RowId(rows[j])
        {
        }
        SameIdsSameIndex(after, rows, model);
      }
    }
  }

  lemma LiveInTurnShifts(rows: Rows, d: Delta, rest: seq<Delta>, catalog: string, i: nat, after: Rows)
    requires i < |rest|
    requires ValueAt(after, rest[i].model, rest[i].key)
             == if Names(d, catalog, rest[i].model, rest[i].key) then Then(d)
                else ValueAt(rows, rest[i].model, rest[i].key)
    ensures LiveInTurn(rows, [d] + rest, catalog, i + 1) <==> LiveInTurn(after, rest, catalog, i)
  {
    assert ([d] + rest)[i + 1] == rest[i];
    assert ([d] + rest)[..i + 1][1..] == rest[..i];
  }

  ghost predicate AllLiveInTurn(rows: Rows, deltas: seq<Delta>, catalog: string) {
    forall i | 0 <= i < |deltas| && deltas[i].catalog == catalog :: LiveInTurn(rows, deltas, catalog, i)
  }

  /**
   For any rows and any table that does not name the id, repeated ids, keys and targets included:
   the deltas succeed exactly when each says something about the value the earlier ones have made,
   and then every key of the first row of every id reads what they make of its value.
   */
  lemma {:induction false} DeltasInTurn(deltas: seq<Delta>, catalog: string, rows: Rows)
    requires forall i | 0 <= i < |deltas| :: deltas[i].key != "id"
    ensures ApplyDeltas(deltas, catalog, rows).Ok? <==> AllLiveInTurn(rows, deltas, catalog)
    ensures ApplyDeltas(deltas, catalog, rows).Ok?
            ==> forall model, key :: ValueAt(ApplyDeltas(deltas, catalog, rows).value, model, key)
                                     == ValueAfter(ValueAt(rows, model, key), deltas, catalog, model, key)
    decreases deltas
  {
    if deltas != [] {
      var d, rest := deltas[0], deltas[1..];
      assert deltas == [d] + rest;
      if d.catalog != catalog {
        DeltasInTurn(rest, catalog, rows);
        AllLiveAfter(rows, d, rest, catalog, rows);
      } else {
        DeltaReads(rows, d, d.model, d.key);
        if ApplyOne(rows, d).Ok? {
          var after := ApplyOne(rows, d).value;
          DeltasInTurn(rest, catalog, after);
          forall model, key
            ensures ValueAt(after, model, key)
                    == if Names(d, catalog, model, key) then Then(d) else ValueAt(rows, model, key)
          {
            DeltaReads(rows, d, model, key);
          }
          AllLiveAfter(rows, d, rest, catalog, after);
        } else {
          FirstIsNotLive(rows, deltas, catalog);
        }
      }
    }
  }

  lemma FirstIsNotLive(rows: Rows, deltas: seq<Delta>, catalog: string)
    requires deltas != [] && deltas[0].catalog == catalog
    requires !SaysSomething(ValueAt(rows, deltas[0].model, deltas[0].key), deltas[0])
    ensures !AllLiveInTurn(rows, deltas, catalog)
  {
    assert deltas[..0] == [];
    assert !LiveInTurn(rows, deltas, catalog, 0);
  }

  lemma AllLiveAfter(rows: Rows, d: Delta, rest: seq<Delta>, catalog: string, after: Rows)
    requires d.catalog == catalog ==> SaysSomething(ValueAt(rows, d.model, d.key), d)
    requires forall model, key :: ValueAt(after, model, key)
               == if Names(d, catalog, model, key) then Then(d) else ValueAt(rows, model, key)
    ensures AllLiveInTurn(rows, [d] + rest, catalog) <==> AllLiveInTurn(after, rest, catalog)
  {
    var all := [d] + rest;
    assert all[..0] == [];
    assert d.catalog == catalog ==> LiveInTurn(rows, all, catalog, 0);
    forall i | 0 <= i < |rest|
      ensures all[i + 1] == rest[i]
      ensures LiveInTurn(rows, all, catalog, i + 1) <==> LiveInTurn(after, rest, catalog, i)
    {
      LiveInTurnShifts(rows, d, rest, catalog, i, after);
    }
    if AllLiveInTurn(after, rest, catalog) {
      forall i | 0 <= i < |all| && all[i].catalog == catalog
        ensures LiveInTurn(rows, all, catalog, i)
      {
        assert i > 0 ==> LiveInTurn(after, rest, catalog, i - 1);
      }
    }
    if AllLiveInTurn(rows, all, catalog) {
      forall i | 0 <= i < |rest| && rest[i].catalog == catalog
        ensures LiveInTurn(after, rest, catalog, i)
      {
        assert LiveInTurn(rows, all, catalog, i + 1);
      }
    }
  }

  /** Why a delta is refused: each reason with its condition, in the order they are asked. */
  lemma RefusedBecause(rows: Rows, d: Delta)
    ensures ApplyOne(rows, d) == Err(ModelIsGone(d)) <==> forall i | 0 <= i < |rows| :: RowId(rows[i]) != Some(d.model)
    ensures ApplyOne(rows, d) == Err(NothingToDrop(d))
            <==> RowIndex(rows, d.model) < |rows| && d.action.Drop? && ValueAt(rows, d.model, d.key).None?
    ensures (exists e :: ApplyOne(rows, d) == Err(PinIsNotJson(d, e)))
            <==> RowIndex(rows, d.model) < |rows| && d.action.Pin? && ParseJson(d.action.json).Err?
    ensures ApplyOne(rows, d) == Err(PinInvents(d))
            <==> && RowIndex(rows, d.model) < |rows| && d.action.Pin? && ParseJson(d.action.json).Ok?
                 && ValueAt(rows, d.model, d.key).None?
    ensures ApplyOne(rows, d) == Err(PinIsNoOp(d))
            <==> && RowIndex(rows, d.model) < |rows| && d.action.Pin? && ParseJson(d.action.json).Ok?
                 && ValueAt(rows, d.model, d.key) == Some(ParseJson(d.action.json).value)
  {
    var i := RowIndex(rows, d.model);
    if i < |rows| {
      EditReads(rows[i], d, d.key);
    }
  }

  /** The refusal of a table is that of its first delta that says nothing in its turn. */
  lemma {:induction false} FirstRefusal(deltas: seq<Delta>, catalog: string, rows: Rows) returns (i: nat, before: Rows)
    requires ApplyDeltas(deltas, catalog, rows).Err?
    ensures i < |deltas| && deltas[i].catalog == catalog
    ensures ApplyDeltas(deltas[..i], catalog, rows) == Ok(before)
    ensures ApplyOne(before, deltas[i]) == Err(ApplyDeltas(deltas, catalog, rows).error)
    decreases deltas
  {
    var d, rest := deltas[0], deltas[1..];
    if d.catalog == catalog && ApplyOne(rows, d).Err? {
      i, before := 0, rows;
    } else {
      var j, after := FirstRefusal(rest, catalog, if d.catalog == catalog then ApplyOne(rows, d).value else rows);
      i, before := j + 1, after;
      assert deltas[..i][1..] == rest[..j];
    }
  }
}
