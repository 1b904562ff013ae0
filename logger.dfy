/**
 * The logger: one collection-and-store round per profile, and the driver
 * that runs the profiles one after the other.
 *
 * A round collects its profile's pages and hands the whole batch to the
 * merge engine, once. A page that does not decode raises before anything is
 * stored, and the exception ends the driver: later profiles do not run.
 */
module Logger {
  import opened Wrappers
  import opened Reports
  import opened Collector
  import opened Profiles
  import opened Store

  /**
   * `fetch_data`: collects the profile's pages and, when every page decodes,
   * stores the batch into the profile's table; otherwise nothing is stored.
   */
  method FetchData(db: Database, p: Profile, respond: Request -> Report)
    returns (issued: seq<Request>, res: Result<StoreOutcome, FetchError>)
    modifies db
    ensures var collected := Collected(LoggerRule, ProfileRequests(p), respond);
      && (collected.Ok? ==>
            && issued == ProfileRequests(p)
            && db.tables == Stored(old(db.tables), p.table, collected.value)
            && res == Ok(StoreReport(old(db.tables), p.table, collected.value)))
      && (collected.Err? ==> res == Err(collected.error) && db.tables == old(db.tables))
  {
    var pages := GranularityMap(p.granularity);
    var batch;
    issued, batch := FetchPages(LoggerRule, Endpoint(p), pages.param, pages.reports, respond);
    if batch.Err? {
      return issued, Err(batch.error);
    }
    var outcome := db.StoreData(p.table, batch.value);
    res := Ok(outcome);
  }

  /** The profiles the driver runs, in order: the gas loggers only when gas is enabled. */
  function DriverProfiles(gasEnabled: bool): seq<Profile> {
    [EnergyMinute, EnergyHour, EnergyDay] + (if gasEnabled then [GasHour, GasDay] else [])
  }

  /** The tables after running `profiles` in order, and the collection error that stopped the run, if any. */
  function RunProfiles(tables: map<string, seq<Reading>>, profiles: seq<Profile>, respond: Request -> Report)
    : (map<string, seq<Reading>>, Option<FetchError>)
    decreases |profiles|
  {
    if profiles == [] then (tables, None)
    else
      match Collected(LoggerRule, ProfileRequests(profiles[0]), respond)
      case Err(e) => (tables, Some(e))
      case Ok(batch) => RunProfiles(Stored(tables, profiles[0].table, batch), profiles[1..], respond)
  }

  /** The driver: the profiles' rounds in order, stopping at the first that fails. */
  method Run(db: Database, gasEnabled: bool, respond: Request -> Report) returns (failure: Option<FetchError>)
    modifies db
    ensures (db.tables, failure) == RunProfiles(old(db.tables), DriverProfiles(gasEnabled), respond)
  {
    var profiles := DriverProfiles(gasEnabled);
    var i := 0;
    while i < |profiles|
      invariant 0 <= i <= |profiles|
      invariant RunProfiles(db.tables, profiles[i..], respond) == RunProfiles(old(db.tables), profiles, respond)
    {
      assert profiles[i..][0] == profiles[i] && profiles[i..][1..] == profiles[i + 1..];
      var issued, res := FetchData(db, profiles[i], respond);
      if res.Err? {
        return Some(res.error);
      }
      i := i + 1;
    }
    return None;
  }

  // ---------------------------------------------------------------------------
  // Properties of the driver

  /** No two of the profiles share a table. */
  predicate DistinctTables(profiles: seq<Profile>) {
    forall i, j :: 0 <= i < j < |profiles| ==> profiles[i].table != profiles[j].table
  }

  /** A run changes no table but those of its profiles and the merge's scratch table. */
  lemma {:induction false} RunTouchesOnlyProfileTables(tables: map<string, seq<Reading>>, profiles: seq<Profile>,
                                                       respond: Request -> Report, name: string)
    requires name != ScratchTable
    requires forall i :: 0 <= i < |profiles| ==> profiles[i].table != name
    ensures AgreeOn(RunProfiles(tables, profiles, respond).0, tables, name)
    decreases |profiles|
  {
    if profiles != [] {
      match Collected(LoggerRule, ProfileRequests(profiles[0]), respond)
      case Err(_) =>
      case Ok(batch) =>
        RunTouchesOnlyProfileTables(Stored(tables, profiles[0].table, batch), profiles[1..], respond, name);
    }
  }

  /** The profiles after the first still use distinct tables, none of them the first's. */
  lemma DistinctTablesRest(profiles: seq<Profile>)
    requires DistinctTables(profiles) && profiles != []
    ensures DistinctTables(profiles[1..])
    ensures forall i :: 0 <= i < |profiles| - 1 ==> profiles[1..][i].table != profiles[0].table
  {
    var rest := profiles[1..];
    assert forall i :: 0 <= i < |rest| ==> rest[i] == profiles[i + 1];
  }

  /** When every profile's collection succeeds, the run ends without error. */
  lemma {:induction false} RunAllSucceed(tables: map<string, seq<Reading>>, profiles: seq<Profile>,
                                         respond: Request -> Report)
    requires forall i :: 0 <= i < |profiles| ==> Collected(LoggerRule, ProfileRequests(profiles[i]), respond).Ok?
    ensures RunProfiles(tables, profiles, respond).1 == None
    decreases |profiles|
  {
    if profiles != [] {
      var batch0 := Collected(LoggerRule, ProfileRequests(profiles[0]), respond).value;
      var rest := profiles[1..];
      assert forall i :: 0 <= i < |rest| ==> rest[i] == profiles[i + 1];
      RunAllSucceed(Stored(tables, profiles[0].table, batch0), rest, respond);
    }
  }

  /**
   * When every profile's collection succeeds and no two profiles share a
   * table, nor use the scratch table, each profile's table ends as storing
   * its own batch makes it.
   */
  lemma {:induction false} RunStoresEachBatch(tables: map<string, seq<Reading>>, profiles: seq<Profile>,
                                              respond: Request -> Report, k: nat)
    requires DistinctTables(profiles)
    requires forall i :: 0 <= i < |profiles| ==> profiles[i].table != ScratchTable
    requires forall i :: 0 <= i < |profiles| ==> Collected(LoggerRule, ProfileRequests(profiles[i]), respond).Ok?
    requires k < |profiles|
    ensures AgreeOn(RunProfiles(tables, profiles, respond).0,
                    Stored(tables, profiles[k].table, Collected(LoggerRule, ProfileRequests(profiles[k]), respond).value),
                    profiles[k].table)
    decreases |profiles|
  {
    var batch0 := Collected(LoggerRule, ProfileRequests(profiles[0]), respond).value;
    var next := Stored(tables, profiles[0].table, batch0);
    var rest := profiles[1..];
    assert RunProfiles(tables, profiles, respond) == RunProfiles(next, rest, respond);
    DistinctTablesRest(profiles);
    if k == 0 {
      RunTouchesOnlyProfileTables(next, rest, respond, profiles[0].table);
    } else {
      var pk := profiles[k];
      assert rest[k - 1] == pk;
      assert forall i :: 0 <= i < |rest| ==> rest[i] == profiles[i + 1];
      RunStoresEachBatch(next, rest, respond, k - 1);
      StoredAgree(next, tables, pk.table, profiles[0].table, batch0);
      StoredAgree(next, tables, pk.table, pk.table, Collected(LoggerRule, ProfileRequests(pk), respond).value);
    }
  }

  /** The driver's profiles use five different tables, none of them the scratch table, the gas ones only when gas is enabled. */
  lemma DriverTables(gasEnabled: bool)
    ensures DistinctTables(DriverProfiles(gasEnabled))
    ensures forall i :: 0 <= i < |DriverProfiles(gasEnabled)| ==> DriverProfiles(gasEnabled)[i].table != ScratchTable
    ensures |DriverProfiles(gasEnabled)| == if gasEnabled then 5 else 3
  {
  }

  /** With gas disabled the gas tables are left as they were. */
  lemma GasDisabledKeepsGasTables(tables: map<string, seq<Reading>>, respond: Request -> Report)
    ensures AgreeOn(RunProfiles(tables, DriverProfiles(false), respond).0, tables, GasHour.table)
    ensures AgreeOn(RunProfiles(tables, DriverProfiles(false), respond).0, tables, GasDay.table)
  {
    forall name | name in [GasHour.table, GasDay.table]
      ensures AgreeOn(RunProfiles(tables, DriverProfiles(false), respond).0, tables, name)
    {
      RunTouchesOnlyProfileTables(tables, DriverProfiles(false), respond, name);
    }
  }

  /**
   * The logger's fetch test: a day profile, against a meter that answers every
   * request with the same report, issues 12 requests with parameter `m` and
   * collects that report's readings 12 times over.
   */
  lemma DayFetchAgainstConstantMeter(path: string, table: string, r: Report)
    requires Decode(LoggerRule, r).Ok?
    ensures var reqs := ProfileRequests(Profile(path, table, Day));
      && |reqs| == 12
      && (forall k :: 0 <= k < 12 ==> reqs[k].param == "m" && reqs[k].page == k + 1)
      && Collected(LoggerRule, reqs, _ => r) == Ok(Repeat(Decode(LoggerRule, r).value, 12))
  {
    DayRequests(path, table);
    CollectedConstant(LoggerRule, ProfileRequests(Profile(path, table, Day)), r);
  }
}
