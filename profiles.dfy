/**
 * The collection profiles: for each report granularity the meter's page
 * parameter and the number of pages to ask for, and the five loggers, each
 * fixing the meter path (`V` for electricity, `W` for gas), the table it
 * stores into and its granularity.
 */
module Profiles {
  import opened Collector

  datatype Granularity = Minute | Hour | Day

  /** One entry of the granularity map: the page parameter and how many pages there are. */
  datatype Pagination = Pagination(param: string, reports: nat)

  /** The granularity map. */
  function GranularityMap(g: Granularity): (p: Pagination)
    ensures p.reports > 0 && |p.param| == 1
  {
    match g
    case Minute => Pagination("h", 20)
    case Hour => Pagination("d", 70)
    case Day => Pagination("m", 12)
  }

  /** A logger: the meter path it reads, the table it writes, the report granularity it asks for. */
  datatype Profile = Profile(path: string, table: string, granularity: Granularity)

  /** The meter's address; a profile's endpoint is this followed by its path. */
  const MeterAddress := "http://192.168.1.14/"

  const EnergyMinute := Profile("V", "youless_minute", Minute)
  const EnergyHour := Profile("V", "youless_hour", Hour)
  const EnergyDay := Profile("V", "youless_day", Day)
  const GasHour := Profile("W", "youless_hour_gas", Hour)
  const GasDay := Profile("W", "youless_day_gas", Day)

  function Endpoint(p: Profile): string {
    MeterAddress + p.path
  }

  /** The requests a profile's collection issues: its granularity's pages, with its parameter. */
  function ProfileRequests(p: Profile): seq<Request> {
    PageRequests(Endpoint(p), GranularityMap(p.granularity).param, GranularityMap(p.granularity).reports)
  }

  /** The five loggers in the order the driver runs them, the gas loggers last. */
  function AllProfiles(): seq<Profile> {
    [EnergyMinute, EnergyHour, EnergyDay, GasHour, GasDay]
  }

  // ---------------------------------------------------------------------------
  // Properties of the table

  /** The three granularities use three different page parameters. */
  lemma GranularityParamsDistinct(g: Granularity, h: Granularity)
    requires g != h
    ensures GranularityMap(g).param != GranularityMap(h).param
  {
  }

  /** No two loggers share a table. */
  lemma TablesDistinct(i: nat, j: nat)
    requires i < j < |AllProfiles()|
    ensures AllProfiles()[i].table != AllProfiles()[j].table
  {
  }

  /**
   * A profile's collection issues exactly as many requests as its granularity
   * has pages, for pages `1 .. n` in order, each to the profile's endpoint,
   * in JSON format and with the granularity's parameter.
   */
  lemma ProfileRequestsShape(p: Profile)
    ensures var reqs := ProfileRequests(p);
      && |reqs| == GranularityMap(p.granularity).reports
      && forall k :: 0 <= k < |reqs| ==>
           reqs[k] == Request(MeterAddress + p.path, "j", GranularityMap(p.granularity).param, k + 1)
  {
  }

  /** A day logger asks for 12 pages with parameter `m` (the logger's unit test counts 12 calls). */
  lemma DayRequests(path: string, table: string)
    ensures var reqs := ProfileRequests(Profile(path, table, Day));
      && |reqs| == 12
      && forall k :: 0 <= k < 12 ==> reqs[k].param == "m" && reqs[k].page == k + 1
  {
  }
}
