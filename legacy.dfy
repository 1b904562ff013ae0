/**
 * The legacy collector script: the same pipeline in an older, smaller form.
 *
 * It skips only empty samples and reads the others with `int`, collects
 * three pages with parameter `w`, and stores append-only into the table
 * `youless`: of the batch it keeps the rows later than the latest stored
 * time and appends them.
 */
module Legacy {
  import opened Wrappers
  import opened Samples
  import opened Reports
  import opened Collector
  import opened Store

  const LegacyEndpoint := "http://youless/V"
  const LegacyParam := "w"
  const LegacyPages := 3
  const LegacyTable := "youless"

  /** `'1900-01-01'`, the fallback for the latest stored time, in seconds since 1970-01-01. */
  const FallbackTime := -2208988800

  /**
   * Why the legacy store fails: an empty batch makes a frame without a `time`
   * column; an existing but empty table has a `NULL` latest time, and
   * comparing the batch's times with it raises.
   */
  datatype LegacyError = NoTimeColumn | NoLatestTime

  // ---------------------------------------------------------------------------
  // Decoding

  /** The legacy decoder skips the empty sample and nothing else; `*` is not special. */
  lemma LegacyMissingOnlyEmpty(s: string)
    ensures LegacyRule.missing(s) <==> s == ""
    ensures !LegacyRule.missing("*")
  {
  }

  /** A `*` sentinel, which the logger skips, makes the legacy decoder fail on the page. */
  lemma LegacySentinelMalformed(r: Report, i: nat)
    requires i < |r.val| && r.val[i] == "*"
    ensures Decode(LegacyRule, r).Err?
    ensures Decode(LoggerRule, r).Ok? ==> Decode(LoggerRule, r) != Decode(LegacyRule, r)
  {
    assert r.val[i][0] == '*';
    ParseIntRejectsSymbol(r.val[i], 0);
    DecodeSucceedsIff(LegacyRule, r);
  }

  /** A decimal sample such as `27,1` or `27.1` makes the legacy decoder fail on the page. */
  lemma LegacyDecimalMalformed(r: Report, i: nat, k: nat)
    requires i < |r.val| && k < |r.val[i]| && (r.val[i][k] == '.' || r.val[i][k] == ',')
    ensures Decode(LegacyRule, r).Err?
  {
    ParseIntRejectsSymbol(r.val[i], k);
    DecodeSucceedsIff(LegacyRule, r);
  }

  /** Legacy readings are whole numbers: each is the integer value of its sample. */
  lemma LegacyValuesIntegral(r: Report)
    requires Decode(LegacyRule, r).Ok?
    ensures var rs, slots := Decode(LegacyRule, r).value, PresentSlots(LegacyRule, r.val, |r.val|);
      && |rs| == |slots|
      && forall k :: 0 <= k < |rs| ==>
        rs[k].energy.scale == 0 && ParseInt(r.val[slots[k]]) == Some(rs[k].energy.mantissa)
  {
    DecodeReadings(LegacyRule, r);
  }

  /**
   * Wherever the legacy decoder succeeds, the logger's decoder yields the very
   * same readings.
   */
  lemma LegacyAgreesWithLogger(r: Report)
    requires Decode(LegacyRule, r).Ok?
    ensures Decode(LoggerRule, r) == Decode(LegacyRule, r)
  {
    DecodeSucceedsIff(LegacyRule, r);
    forall i | 0 <= i < |r.val|
      ensures LoggerRule.missing(r.val[i]) <==> LegacyRule.missing(r.val[i])
      ensures !LoggerRule.missing(r.val[i]) ==> LoggerRule.parse(r.val[i]) == LegacyRule.parse(r.val[i])
    {
      var s := r.val[i];
      if s != "" {
        assert ParseInt(s).Some?;
        ParseIntAlphabet(s);
        assert s[0] != '*';
        IntSampleIsDecimalSample(s);
      }
    }
    DecodePrefixAgree(LoggerRule, LegacyRule, r, |r.val|);
  }

  // ---------------------------------------------------------------------------
  // Collection

  /** The legacy collection: pages `w=1`, `w=2`, `w=3` of the electricity report, concatenated. */
  method FetchData(respond: Request -> Report) returns (issued: seq<Request>, res: Result<seq<Reading>, FetchError>)
    ensures res == Collected(LegacyRule, PageRequests(LegacyEndpoint, LegacyParam, LegacyPages), respond)
    ensures res.Ok? ==> |issued| == 3 && forall k :: 0 <= k < 3 ==> issued[k] == Request(LegacyEndpoint, "j", "w", k + 1)
  {
    issued, res := FetchPages(LegacyRule, LegacyEndpoint, LegacyParam, LegacyPages, respond);
  }

  // ---------------------------------------------------------------------------
  // Storing

  /** The latest time among `rows`. */
  function MaxTime(rows: seq<Reading>): (m: int)
    requires rows != []
    ensures forall i :: 0 <= i < |rows| ==> rows[i].time <= m
    ensures exists i :: 0 <= i < |rows| && rows[i].time == m
    decreases |rows|
  {
    if |rows| == 1 then rows[0].time
    else
      var m := MaxTime(rows[..|rows| - 1]);
      assert forall i :: 0 <= i < |rows| - 1 ==> rows[..|rows| - 1][i] == rows[i];
      if rows[|rows| - 1].time > m then rows[|rows| - 1].time else m
  }

  /**
   * `SELECT MAX(time)`: the fallback when the table does not exist, nothing
   * (SQL `NULL`) when it is empty, and the latest stored time otherwise.
   */
  function LastTimestamp(tables: map<string, seq<Reading>>): Option<int> {
    if LegacyTable !in tables then Some(FallbackTime)
    else if tables[LegacyTable] == [] then None
    else Some(MaxTime(tables[LegacyTable]))
  }

  /** `df[df['time'] > last_ts]`: the rows later than `last`, in batch order. */
  function NewerThan(batch: seq<Reading>, last: int): seq<Reading>
    decreases |batch|
  {
    if batch == [] then []
    else
      var x := batch[|batch| - 1];
      NewerThan(batch[..|batch| - 1], last) + (if x.time > last then [x] else [])
  }

  /** The stored rows of the legacy table, none if it does not exist. */
  function StoredRows(tables: map<string, seq<Reading>>): seq<Reading> {
    if LegacyTable in tables then tables[LegacyTable] else []
  }

  /**
   * The tables after the legacy `store_data`: the newer rows appended
   * (creating the table), or the error the filter raises.
   */
  function LegacyStored(tables: map<string, seq<Reading>>, batch: seq<Reading>): Result<map<string, seq<Reading>>, LegacyError> {
    if batch == [] then Err(NoTimeColumn)
    else
      match LastTimestamp(tables)
      case None => Err(NoLatestTime)
      case Some(last) => Ok(tables[LegacyTable := StoredRows(tables) + NewerThan(batch, last)])
  }

  /**
   * The legacy `store_data`: an empty batch, or an existing but empty table,
   * raises before anything is written; otherwise the rows later than the
   * latest stored time are appended. The count it logs is returned.
   */
  method StoreData(db: Database, batch: seq<Reading>) returns (res: Result<nat, LegacyError>)
    modifies db
    ensures LegacyStored(old(db.tables), batch).Err? ==>
      res == Err(LegacyStored(old(db.tables), batch).error) && db.tables == old(db.tables)
    ensures LegacyStored(old(db.tables), batch).Ok? ==>
      && db.tables == LegacyStored(old(db.tables), batch).value
      && res == Ok(|NewerThan(batch, LastTimestamp(old(db.tables)).value)|)
  {
    if batch == [] {
      return Err(NoTimeColumn);
    }
    var last := LastTimestamp(db.tables);
    if last.None? {
      return Err(NoLatestTime);
    }
    var selected := NewerThan(batch, last.value);
    db.tables := db.tables[LegacyTable := StoredRows(db.tables) + selected];
    return Ok(|selected|);
  }

  // ---------------------------------------------------------------------------
  // Properties of the legacy store

  /**
   * When the legacy store fails: on an empty batch, and on a table that
   * exists but holds no row; either way nothing is written. A missing table
   * takes the `1900-01-01` fallback, and only the legacy table changes.
   */
  lemma LegacyStoredCases(tables: map<string, seq<Reading>>, batch: seq<Reading>)
    ensures batch == [] ==> LegacyStored(tables, batch) == Err(NoTimeColumn)
    ensures batch != [] && LegacyTable in tables && tables[LegacyTable] == [] ==>
      LegacyStored(tables, batch) == Err(NoLatestTime)
    ensures batch != [] && LegacyTable !in tables ==>
      LegacyStored(tables, batch) == Ok(tables[LegacyTable := NewerThan(batch, FallbackTime)])
    ensures batch != [] && LegacyTable in tables && tables[LegacyTable] != [] ==>
      && LegacyStored(tables, batch).Ok?
      && LegacyStored(tables, batch).value[LegacyTable]
         == tables[LegacyTable] + NewerThan(batch, MaxTime(tables[LegacyTable]))
    ensures LegacyStored(tables, batch).Ok? ==>
      forall other :: other != LegacyTable ==> AgreeOn(LegacyStored(tables, batch).value, tables, other)
  {
    if batch != [] && LegacyTable !in tables {
      assert StoredRows(tables) + NewerThan(batch, FallbackTime) == NewerThan(batch, FallbackTime);
    }
  }

  /** A batch row is kept exactly when it is later than the bound. */
  lemma {:induction false} NewerThanMeaning(batch: seq<Reading>, last: int)
    ensures forall x :: x in NewerThan(batch, last) <==> x in batch && x.time > last
    decreases |batch|
  {
    if batch != [] {
      var init := batch[..|batch| - 1];
      NewerThanMeaning(init, last);
      assert batch == init + [batch[|batch| - 1]];
    }
  }

  /** The filter keeps batch order: filtering two batches in a row is filtering each in turn. */
  lemma {:induction false} NewerThanAppend(b1: seq<Reading>, b2: seq<Reading>, last: int)
    ensures NewerThan(b1 + b2, last) == NewerThan(b1, last) + NewerThan(b2, last)
    decreases |b2|
  {
    if b2 == [] {
      assert b1 + b2 == b1;
    } else {
      var init := b2[..|b2| - 1];
      assert (b1 + b2)[..|b1 + b2| - 1] == b1 + init;
      assert (b1 + b2)[|b1 + b2| - 1] == b2[|b2| - 1];
      NewerThanAppend(b1, init, last);
    }
  }

  /**
   * The legacy store only appends: the stored rows stay, unchanged and in
   * place, and every appended row is later than every stored row.
   */
  lemma LegacyAppendOnly(tables: map<string, seq<Reading>>, batch: seq<Reading>)
    requires LegacyStored(tables, batch).Ok?
    ensures var after := LegacyStored(tables, batch).value[LegacyTable];
      && StoredRows(tables) <= after
      && forall i, j :: 0 <= i < |StoredRows(tables)| <= j < |after| ==>
           StoredRows(tables)[i].time < after[j].time
  {
    var rows := StoredRows(tables);
    var added := NewerThan(batch, LastTimestamp(tables).value);
    var after := rows + added;
    NewerThanMeaning(batch, LastTimestamp(tables).value);
    forall i, j | 0 <= i < |rows| <= j < |after| ensures rows[i].time < after[j].time {
      assert added[j - |rows|] in added;
    }
  }

  /** Without a table, every batch row later than `1900-01-01` is appended, into a new table. */
  lemma LegacyFallback(tables: map<string, seq<Reading>>, batch: seq<Reading>)
    requires batch != [] && LegacyTable !in tables
    requires forall j :: 0 <= j < |batch| ==> batch[j].time > FallbackTime
    ensures LegacyStored(tables, batch).value[LegacyTable] == batch
  {
    NewerThanAll(batch, FallbackTime);
  }

  lemma {:induction false} NewerThanAll(batch: seq<Reading>, last: int)
    requires forall j :: 0 <= j < |batch| ==> batch[j].time > last
    ensures NewerThan(batch, last) == batch
    decreases |batch|
  {
    if batch != [] {
      var init := batch[..|batch| - 1];
      NewerThanAll(init, last);
      assert init + [batch[|batch| - 1]] == batch;
    }
  }

  /** A batch none of whose rows is later than the bound appends nothing. */
  lemma {:induction false} NewerThanNone(batch: seq<Reading>, last: int)
    requires forall j :: 0 <= j < |batch| ==> batch[j].time <= last
    ensures NewerThan(batch, last) == []
    decreases |batch|
  {
    if batch != [] {
      var init := batch[..|batch| - 1];
      assert forall j :: 0 <= j < |init| ==> init[j] == batch[j];
      NewerThanNone(init, last);
    }
  }

  /** After a store, no batch row is later than the table's latest time. */
  lemma LegacyStoredBoundsBatch(tables: map<string, seq<Reading>>, batch: seq<Reading>)
    requires LegacyStored(tables, batch).Ok?
    requires LegacyStored(tables, batch).value[LegacyTable] != []
    ensures forall j :: 0 <= j < |batch| ==> batch[j].time <= MaxTime(LegacyStored(tables, batch).value[LegacyTable])
  {
    var last := LastTimestamp(tables).value;
    var rows := StoredRows(tables);
    var added := NewerThan(batch, last);
    var after := rows + added;
    assert LegacyStored(tables, batch).value[LegacyTable] == after;
    var m := MaxTime(after);
    NewerThanMeaning(batch, last);
    forall j | 0 <= j < |batch| ensures batch[j].time <= m {
      if batch[j].time > last {
        assert batch[j] in added;
        var k :| 0 <= k < |added| && added[k] == batch[j];
        assert after[|rows| + k] == batch[j];
      } else if LegacyTable in tables {
        var i :| 0 <= i < |rows| && rows[i].time == MaxTime(rows);
        assert after[i] == rows[i];
      } else {
        assert after[0] in added;
      }
    }
  }

  /**
   * Storing the same batch a second time appends nothing and changes
   * nothing, unless the first store left the table empty: then the second
   * one raises.
   */
  lemma LegacyRestoreAppendsNothing(tables: map<string, seq<Reading>>, batch: seq<Reading>)
    requires LegacyStored(tables, batch).Ok?
    ensures var once := LegacyStored(tables, batch).value;
      && (once[LegacyTable] != [] ==> LegacyStored(once, batch) == Ok(once))
      && (once[LegacyTable] == [] ==> LegacyStored(once, batch) == Err(NoLatestTime))
  {
    var once := LegacyStored(tables, batch).value;
    var after := once[LegacyTable];
    if after != [] {
      LegacyStoredBoundsBatch(tables, batch);
      NewerThanNone(batch, MaxTime(after));
      assert after + [] == after;
      assert once[LegacyTable := after] == once;
    }
  }
}
