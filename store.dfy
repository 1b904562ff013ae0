/**
 * The merge engine: a batch of readings is stored into one table of the
 * database.
 *
 * An empty batch stores nothing. A table that does not exist yet is created
 * holding the batch. Into an existing table the batch is merged in three
 * steps: the batch is first written to the scratch table `tmp`, replacing
 * whatever it held; then every row whose time occurs in `tmp` takes the
 * energy value of the first `tmp` row with that time (its unit is kept), and
 * this is committed; then every `tmp` row whose time occurs nowhere in the
 * table is appended, and this is committed. The scratch table is never
 * dropped.
 *
 * The database is an object whose tables (name to rows, in row order) the
 * operations update in place.
 */
module Store {
  import opened Wrappers
  import opened Samples
  import opened Reports

  /** What `store_data` reports: nothing stored, a table created with `count` rows, or a merge. */
  datatype StoreOutcome = NoData | Created(count: nat) | Merged(updated: nat, inserted: nat)

  /** Some row of `rows` is at time `t`. */
  predicate HasTime(rows: seq<Reading>, t: int) {
    exists i :: 0 <= i < |rows| && rows[i].time == t
  }

  /** No two rows share a time. */
  predicate UniqueTimes(rows: seq<Reading>) {
    forall i, j :: 0 <= i < j < |rows| ==> rows[i].time != rows[j].time
  }

  /** The index of the first row at time `t` (the row a `LIMIT 1` lookup finds), if any. */
  function FirstIndex(batch: seq<Reading>, t: int): (r: Option<nat>)
    ensures r.Some? ==>
      && r.value < |batch| && batch[r.value].time == t
      && forall j :: 0 <= j < r.value ==> batch[j].time != t
    ensures r.None? ==> forall j :: 0 <= j < |batch| ==> batch[j].time != t
  {
    if batch == [] then None
    else if batch[0].time == t then Some(0)
    else
      match FirstIndex(batch[1..], t)
      case None => None
      case Some(i) => Some(i + 1)
  }

  /** One existing row after the UPDATE: the first matching batch row's energy, its own time and unit. */
  function UpdateRow(row: Reading, batch: seq<Reading>): Reading {
    match FirstIndex(batch, row.time)
    case None => row
    case Some(j) => Reading(row.time, batch[j].energy, row.unit)
  }

  /** The table after the UPDATE. */
  function Updated(rows: seq<Reading>, batch: seq<Reading>): seq<Reading> {
    seq(|rows|, i requires 0 <= i < |rows| => UpdateRow(rows[i], batch))
  }

  /** The number of rows the UPDATE touches: those whose time occurs in the batch. */
  function UpdatedCount(rows: seq<Reading>, batch: seq<Reading>): nat
    decreases |rows|
  {
    if rows == [] then 0
    else UpdatedCount(rows[..|rows| - 1], batch) + (if HasTime(batch, rows[|rows| - 1].time) then 1 else 0)
  }

  /** The rows the INSERT selects: the batch rows whose time occurs nowhere in `rows`, in batch order. */
  function NewRows(batch: seq<Reading>, rows: seq<Reading>): seq<Reading>
    decreases |batch|
  {
    if batch == [] then []
    else
      var last := batch[|batch| - 1];
      NewRows(batch[..|batch| - 1], rows) + (if HasTime(rows, last.time) then [] else [last])
  }

  /** An existing table after both steps of the merge. */
  function Merge(rows: seq<Reading>, batch: seq<Reading>): seq<Reading> {
    Updated(rows, batch) + NewRows(batch, rows)
  }

  /** The scratch table a merge stages its batch in. */
  const ScratchTable := "tmp"

  /** The tables once the batch is staged: `tmp` replaced by the batch. */
  function Staged(tables: map<string, seq<Reading>>, batch: seq<Reading>): map<string, seq<Reading>> {
    tables[ScratchTable := batch]
  }

  /** The tables after `store_data(name, batch)`. */
  function Stored(tables: map<string, seq<Reading>>, name: string, batch: seq<Reading>): map<string, seq<Reading>> {
    if batch == [] then tables
    else if name !in tables then tables[name := batch]
    else Staged(tables, batch)[name := Merge(Staged(tables, batch)[name], batch)]
  }

  /**
   * What `store_data(name, batch)` logs: nothing stored, the number of rows
   * a new table is created with, or the UPDATE's and the INSERT's row counts.
   */
  function StoreReport(tables: map<string, seq<Reading>>, name: string, batch: seq<Reading>): StoreOutcome {
    if batch == [] then NoData
    else if name !in tables then Created(|batch|)
    else Merged(UpdatedCount(Staged(tables, batch)[name], batch), |NewRows(batch, Staged(tables, batch)[name])|)
  }

  // ---------------------------------------------------------------------------
  // Lookups, as loops

  /** `SELECT … FROM tmp WHERE time = t LIMIT 1`: the first batch row at time `t`. */
  method FindFirst(batch: seq<Reading>, t: int) returns (r: Option<nat>)
    ensures r == FirstIndex(batch, t)
  {
    var i := 0;
    while i < |batch| && batch[i].time != t
      invariant 0 <= i <= |batch|
      invariant forall j :: 0 <= j < i ==> batch[j].time != t
    {
      i := i + 1;
    }
    if i == |batch| {
      return None;
    }
    return Some(i);
  }

  /** `EXISTS (SELECT 1 FROM rows WHERE time = t)`. */
  method ContainsTime(rows: seq<Reading>, t: int) returns (found: bool)
    ensures found == HasTime(rows, t)
  {
    found := false;
    var i := 0;
    while i < |rows|
      invariant 0 <= i <= |rows|
      invariant found == HasTime(rows[..i], t)
    {
      assert rows[..i + 1][..i] == rows[..i];
      if rows[i].time == t {
        assert rows[..i + 1][i] == rows[i];
        found := true;
      }
      i := i + 1;
    }
    assert rows[..i] == rows;
  }

  /** The INSERT's SELECT, evaluated in full before anything is inserted. */
  method SelectNew(batch: seq<Reading>, rows: seq<Reading>) returns (selected: seq<Reading>)
    ensures selected == NewRows(batch, rows)
  {
    selected := [];
    var i := 0;
    while i < |batch|
      invariant 0 <= i <= |batch|
      invariant selected == NewRows(batch[..i], rows)
    {
      assert batch[..i + 1][..i] == batch[..i];
      var present := ContainsTime(rows, batch[i].time);
      if !present {
        selected := selected + [batch[i]];
      }
      i := i + 1;
    }
    assert batch[..i] == batch;
  }

  // ---------------------------------------------------------------------------
  // The database

  class Database {
    /** Every table of the database, by name, with its rows in row order. */
    var tables: map<string, seq<Reading>>

    constructor (initial: map<string, seq<Reading>>)
      ensures tables == initial
    {
      tables := initial;
    }

    /** `table_exists`. */
    predicate TableExists(name: string)
      reads this
    {
      name in tables
    }

    /** `df.to_sql('tmp', con, if_exists='replace')`: the scratch table now holds the batch. */
    method StageBatch(batch: seq<Reading>)
      modifies this
      ensures tables == Staged(old(tables), batch)
    {
      tables := tables[ScratchTable := batch];
    }

    /** The UPDATE and its commit: matched rows take the energy staged in `tmp`, all else stays. */
    method UpdateExisting(name: string) returns (count: nat)
      requires name in tables && ScratchTable in tables
      modifies this
      ensures tables == old(tables)[name := Updated(old(tables)[name], old(tables)[ScratchTable])]
      ensures count == UpdatedCount(old(tables)[name], old(tables)[ScratchTable])
    {
      var batch := tables[ScratchTable];
      ghost var original := tables[name];
      var rows := tables[name];
      count := 0;
      var i := 0;
      while i < |rows|
        invariant 0 <= i <= |rows| == |original|
        invariant forall k :: 0 <= k < i ==> rows[k] == UpdateRow(original[k], batch)
        invariant forall k :: i <= k < |rows| ==> rows[k] == original[k]
        invariant count == UpdatedCount(original[..i], batch)
        invariant tables == old(tables)
      {
        assert original[..i + 1][..i] == original[..i];
        var j := FindFirst(batch, rows[i].time);
        HasTimeFirst(batch, rows[i].time);
        if j.Some? {
          rows := rows[i := Reading(rows[i].time, batch[j.value].energy, rows[i].unit)];
          count := count + 1;
        }
        i := i + 1;
      }
      assert original[..i] == original;
      assert rows == Updated(original, batch);
      tables := tables[name := rows];
    }

    /** The INSERT and its commit: the `tmp` rows with times new to the table are appended. */
    method InsertNew(name: string) returns (count: nat)
      requires name in tables && ScratchTable in tables
      modifies this
      ensures tables == old(tables)[name := old(tables)[name] + NewRows(old(tables)[ScratchTable], old(tables)[name])]
      ensures count == |NewRows(old(tables)[ScratchTable], old(tables)[name])|
    {
      var selected := SelectNew(tables[ScratchTable], tables[name]);
      tables := tables[name := tables[name] + selected];
      count := |selected|;
    }

    /**
     * `store_data`: nothing for an empty batch; a new table holding exactly
     * the batch when none exists; otherwise the batch staged in `tmp`, then
     * the update, committed, then the insert, committed. Only the named
     * table and, on a merge, `tmp` change.
     */
    method StoreData(name: string, batch: seq<Reading>) returns (outcome: StoreOutcome)
      modifies this
      ensures tables == Stored(old(tables), name, batch)
      ensures outcome == StoreReport(old(tables), name, batch)
    {
      if batch == [] {
        return NoData;
      }
      if !TableExists(name) {
        tables := tables[name := batch];
        return Created(|batch|);
      }
      MergeSteps(tables, name, batch);
      StageBatch(batch);
      var updated := UpdateExisting(name);
      var inserted := InsertNew(name);
      return Merged(updated, inserted);
    }
  }

  /** Staging, then the UPDATE, then the INSERT, each on the tables the previous step left, make up `Stored` and `StoreReport`. */
  lemma MergeSteps(tables: map<string, seq<Reading>>, name: string, batch: seq<Reading>)
    requires batch != [] && name in tables
    ensures var staged := Staged(tables, batch);
      var updated := staged[name := Updated(staged[name], staged[ScratchTable])];
      && updated[name := updated[name] + NewRows(updated[ScratchTable], updated[name])] == Stored(tables, name, batch)
      && Merged(UpdatedCount(staged[name], staged[ScratchTable]), |NewRows(updated[ScratchTable], updated[name])|)
         == StoreReport(tables, name, batch)
  {
    var rows := Staged(tables, batch)[name];
    UpdatedKeepsTimes(rows, batch);
    NewRowsSameTimes(batch, rows, Updated(rows, batch));
    if name == ScratchTable {
      NewRowsSelf(batch);
      NewRowsSelf(Updated(batch, batch));
    }
  }

  /** Two table maps that agree on `name`. */
  predicate AgreeOn(t1: map<string, seq<Reading>>, t2: map<string, seq<Reading>>, name: string) {
    (name in t1 <==> name in t2) && (name in t1 ==> t1[name] == t2[name])
  }

  /**
   * What storing into `name` makes of that table depends on that table alone;
   * storing into another table leaves it alone, unless it is the scratch table.
   */
  lemma StoredAgree(t1: map<string, seq<Reading>>, t2: map<string, seq<Reading>>, name: string, other: string,
                    batch: seq<Reading>)
    requires AgreeOn(t1, t2, name)
    ensures AgreeOn(Stored(t1, name, batch), Stored(t2, name, batch), name)
    ensures other != name && name != ScratchTable ==> AgreeOn(Stored(t1, other, batch), t1, name)
  {
  }

  /**
   * The three cases of `store_data`: an empty batch changes nothing; a missing
   * table is created holding exactly the batch, reporting its length; an
   * existing table is merged, and the scratch table is left holding the
   * batch. No other table changes.
   */
  lemma StoredCases(tables: map<string, seq<Reading>>, name: string, batch: seq<Reading>)
    ensures batch == [] ==> Stored(tables, name, batch) == tables && StoreReport(tables, name, batch) == NoData
    ensures batch != [] && name !in tables ==>
      && Stored(tables, name, batch) == tables[name := batch]
      && StoreReport(tables, name, batch) == Created(|batch|)
    ensures batch != [] && name in tables && name != ScratchTable ==>
      && Stored(tables, name, batch) == tables[name := Merge(tables[name], batch)][ScratchTable := batch]
      && StoreReport(tables, name, batch).inserted == |Merge(tables[name], batch)| - |tables[name]|
    ensures batch != [] && name == ScratchTable && name in tables ==>
      Stored(tables, name, batch) == tables[ScratchTable := Updated(batch, batch)]
    ensures forall other :: other != name && (other != ScratchTable || batch == [] || name !in tables) ==>
      AgreeOn(Stored(tables, name, batch), tables, other)
  {
    if batch != [] && name in tables {
      if name == ScratchTable {
        NewRowsSelf(batch);
        assert Merge(batch, batch) == Updated(batch, batch);
      } else {
        assert Staged(tables, batch)[name] == tables[name];
      }
    }
  }

  /** Every row's time occurs among the rows themselves, so a table selects nothing from itself. */
  lemma NewRowsSelf(rows: seq<Reading>)
    ensures NewRows(rows, rows) == []
  {
    forall j | 0 <= j < |rows| ensures HasTime(rows, rows[j].time) {
      assert rows[j].time == rows[j].time;
    }
    NewRowsNone(rows, rows);
  }

  // ---------------------------------------------------------------------------
  // The merge against its description

  /** A time occurs in a batch exactly when the first-row lookup finds a row. */
  lemma HasTimeFirst(batch: seq<Reading>, t: int)
    ensures HasTime(batch, t) <==> FirstIndex(batch, t).Some?
  {
    if FirstIndex(batch, t).Some? {
      assert batch[FirstIndex(batch, t).value].time == t;
    }
  }

  lemma UpdatedKeepsTimes(rows: seq<Reading>, batch: seq<Reading>)
    ensures |Updated(rows, batch)| == |rows|
    ensures forall i :: 0 <= i < |rows| ==> Updated(rows, batch)[i].time == rows[i].time
  {
  }

  /** Whether a batch row is new depends only on the table's times. */
  lemma {:induction false} NewRowsSameTimes(batch: seq<Reading>, rows: seq<Reading>, rows': seq<Reading>)
    requires |rows| == |rows'|
    requires forall i :: 0 <= i < |rows| ==> rows[i].time == rows'[i].time
    ensures NewRows(batch, rows) == NewRows(batch, rows')
    decreases |batch|
  {
    if batch != [] {
      NewRowsSameTimes(batch[..|batch| - 1], rows, rows');
      var t := batch[|batch| - 1].time;
      if HasTime(rows, t) {
        var i :| 0 <= i < |rows| && rows[i].time == t;
        assert rows'[i].time == t;
      }
      if HasTime(rows', t) {
        var i :| 0 <= i < |rows'| && rows'[i].time == t;
        assert rows[i].time == t;
      }
    }
  }

  /**
   * An existing row keeps its time and its unit. When its time occurs in the
   * batch it takes the energy of the first batch row with that time;
   * otherwise it is unchanged.
   */
  lemma MergeExistingRow(rows: seq<Reading>, batch: seq<Reading>, i: nat)
    requires i < |rows|
    ensures |Merge(rows, batch)| >= |rows|
    ensures Merge(rows, batch)[i].time == rows[i].time && Merge(rows, batch)[i].unit == rows[i].unit
    ensures HasTime(batch, rows[i].time) ==>
      exists j :: 0 <= j < |batch| && batch[j].time == rows[i].time
        && (forall k :: 0 <= k < j ==> batch[k].time != rows[i].time)
        && Merge(rows, batch)[i].energy == batch[j].energy
    ensures !HasTime(batch, rows[i].time) ==> Merge(rows, batch)[i] == rows[i]
  {
    assert Merge(rows, batch)[i] == UpdateRow(rows[i], batch);
  }

  /** For a batch without repeated times: a row at the time of batch row `j` takes that row's energy. */
  lemma MergeUpdatesMatched(rows: seq<Reading>, batch: seq<Reading>, i: nat, j: nat)
    requires UniqueTimes(batch)
    requires i < |rows| && j < |batch| && batch[j].time == rows[i].time
    ensures |Merge(rows, batch)| >= |rows|
    ensures Merge(rows, batch)[i] == Reading(rows[i].time, batch[j].energy, rows[i].unit)
  {
    assert Merge(rows, batch)[i] == UpdateRow(rows[i], batch);
  }

  /** A batch row is selected for insertion exactly when its time is absent from the table. */
  lemma {:induction false} NewRowsMeaning(batch: seq<Reading>, rows: seq<Reading>)
    ensures forall x :: x in NewRows(batch, rows) <==> x in batch && !HasTime(rows, x.time)
    decreases |batch|
  {
    if batch != [] {
      var init := batch[..|batch| - 1];
      NewRowsMeaning(init, rows);
      assert batch == init + [batch[|batch| - 1]];
    }
  }

  /** Selection keeps batch order: the new rows of two batches in a row are the two selections in a row. */
  lemma {:induction false} NewRowsAppend(b1: seq<Reading>, b2: seq<Reading>, rows: seq<Reading>)
    ensures NewRows(b1 + b2, rows) == NewRows(b1, rows) + NewRows(b2, rows)
    decreases |b2|
  {
    if b2 == [] {
      assert b1 + b2 == b1;
    } else {
      var init := b2[..|b2| - 1];
      assert (b1 + b2)[..|b1 + b2| - 1] == b1 + init;
      assert (b1 + b2)[|b1 + b2| - 1] == b2[|b2| - 1];
      NewRowsAppend(b1, init, rows);
    }
  }

  /** The merged table holds the old rows, in place, followed by the new rows. */
  lemma MergeShape(rows: seq<Reading>, batch: seq<Reading>)
    ensures |Merge(rows, batch)| == |rows| + |NewRows(batch, rows)|
    ensures Merge(rows, batch)[|rows|..] == NewRows(batch, rows)
  {
  }

  /** After a merge every time of the batch occurs in the table. */
  lemma MergeCoversBatch(rows: seq<Reading>, batch: seq<Reading>)
    ensures forall j :: 0 <= j < |batch| ==> HasTime(Merge(rows, batch), batch[j].time)
  {
    var m := Merge(rows, batch);
    NewRowsMeaning(batch, rows);
    forall j | 0 <= j < |batch| ensures HasTime(m, batch[j].time) {
      var t := batch[j].time;
      if HasTime(rows, t) {
        var i :| 0 <= i < |rows| && rows[i].time == t;
        assert m[i].time == t;
      } else {
        assert batch[j] in NewRows(batch, rows);
        var k :| 0 <= k < |NewRows(batch, rows)| && NewRows(batch, rows)[k] == batch[j];
        assert m[|rows| + k] == batch[j];
      }
    }
  }

  /** A batch whose every time is already in the table selects nothing. */
  lemma {:induction false} NewRowsNone(batch: seq<Reading>, rows: seq<Reading>)
    requires forall j :: 0 <= j < |batch| ==> HasTime(rows, batch[j].time)
    ensures NewRows(batch, rows) == []
    decreases |batch|
  {
    if batch != [] {
      var init := batch[..|batch| - 1];
      assert forall j :: 0 <= j < |init| ==> init[j] == batch[j];
      NewRowsNone(init, rows);
      assert HasTime(rows, batch[|batch| - 1].time);
    }
  }

  /**
   * Merging the same batch (without repeated times) a second time inserts
   * nothing and leaves the table as the first merge left it.
   */
  lemma MergeIdempotent(rows: seq<Reading>, batch: seq<Reading>)
    requires UniqueTimes(batch)
    ensures NewRows(batch, Merge(rows, batch)) == []
    ensures Merge(Merge(rows, batch), batch) == Merge(rows, batch)
  {
    var m := Merge(rows, batch);
    MergeCoversBatch(rows, batch);
    NewRowsNone(batch, m);
    NewRowsMeaning(batch, rows);
    forall k | 0 <= k < |m| ensures UpdateRow(m[k], batch) == m[k] {
      if k >= |rows| {
        assert m[k] in NewRows(batch, rows);
        var j :| 0 <= j < |batch| && batch[j] == m[k];
        assert FirstIndex(batch, m[k].time) == Some(j);
      }
    }
    assert Updated(m, batch) == m;
  }

  /** The rows selected from a batch without repeated times have no repeated times. */
  lemma {:induction false} NewRowsUnique(batch: seq<Reading>, rows: seq<Reading>)
    requires UniqueTimes(batch)
    ensures UniqueTimes(NewRows(batch, rows))
    decreases |batch|
  {
    if batch != [] {
      var init := batch[..|batch| - 1];
      var last := batch[|batch| - 1];
      NewRowsUnique(init, rows);
      NewRowsMeaning(init, rows);
      var selected := NewRows(init, rows);
      forall k | 0 <= k < |selected| ensures selected[k].time != last.time {
        assert selected[k] in init;
      }
    }
  }

  /** A table without repeated times stays so when merged with a batch without repeated times. */
  lemma MergeKeepsUnique(rows: seq<Reading>, batch: seq<Reading>)
    requires UniqueTimes(rows) && UniqueTimes(batch)
    ensures UniqueTimes(Merge(rows, batch))
  {
    var m := Merge(rows, batch);
    var selected := NewRows(batch, rows);
    NewRowsUnique(batch, rows);
    NewRowsMeaning(batch, rows);
    forall i, j | 0 <= i < j < |m| ensures m[i].time != m[j].time {
      if j >= |rows| && i < |rows| {
        assert selected[j - |rows|] in selected;
        assert m[i].time == rows[i].time;
      } else if i >= |rows| {
        assert m[i] == selected[i - |rows|] && m[j] == selected[j - |rows|];
      }
    }
  }

  // ---------------------------------------------------------------------------
  // Concrete merges

  /** Table `{A, B}` merged with batch `{C, A'}`: A takes A's new value, B is unchanged, C is appended. */
  lemma MergeExample(a: Reading, b: Reading, c: Reading, a': Decimal)
    requires a.time != b.time && a.time != c.time && b.time != c.time
    ensures Merge([a, b], [c, Reading(a.time, a', "kWh")]) == [Reading(a.time, a', a.unit), b, c]
  {
    var rows, batch := [a, b], [c, Reading(a.time, a', "kWh")];
    assert rows[0].time == a.time;
    assert HasTime(rows, a.time);
    assert !HasTime(rows, c.time);
    assert FirstIndex(batch, a.time) == Some(1);
    assert FirstIndex(batch, b.time) == None;
    assert NewRows(batch[..1], rows) == [c];
  }

  /** Two batch rows at the same new time are both inserted: times need not stay unique. */
  lemma DuplicateNewTimesInserted(t: int, e1: Decimal, e2: Decimal, u: string)
    ensures Merge([], [Reading(t, e1, u), Reading(t, e2, u)]) == [Reading(t, e1, u), Reading(t, e2, u)]
  {
    var batch := [Reading(t, e1, u), Reading(t, e2, u)];
    assert NewRows(batch[..1], []) == [Reading(t, e1, u)];
  }

  /** Of two batch rows at an existing row's time, the first one's value is taken. */
  lemma FirstOccurrenceWins(row: Reading, e1: Decimal, e2: Decimal, u: string)
    ensures Merge([row], [Reading(row.time, e1, u), Reading(row.time, e2, u)]) == [Reading(row.time, e1, row.unit)]
  {
    var batch := [Reading(row.time, e1, u), Reading(row.time, e2, u)];
    assert [row][0].time == row.time;
    assert HasTime([row], row.time);
    assert FirstIndex(batch, row.time) == Some(0);
    assert NewRows(batch[..1], [row]) == [];
  }
}
