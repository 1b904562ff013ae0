/**
 * Pagination: the collector asks the meter for pages `1 .. pages` of one
 * report kind, one request after another, decodes every page and
 * concatenates the readings in page order.
 *
 * The network is the parameter `respond`, the report the meter answers to a
 * request. A page that fails to decode raises in Python, which ends the
 * collection: no later page is requested and nothing is returned.
 */
module Collector {
  import opened Wrappers
  import opened Reports

  /** `requests.get(endpoint, params={'f': format, param: page})`. */
  datatype Request = Request(endpoint: string, format: string, param: string, page: nat)

  datatype FetchError = PageMalformed(page: nat, cause: DecodeError)

  /** The JSON response format, the collector's one default parameter. */
  const JsonFormat := "j"

  /**
   * The requests for pages `1 .. pages`, in order: one per page, all to the
   * same endpoint, in JSON format and with the same page parameter.
   */
  function PageRequests(endpoint: string, param: string, pages: nat): (reqs: seq<Request>)
    ensures |reqs| == pages
    ensures forall k :: 0 <= k < pages ==>
      && reqs[k].page == k + 1
      && reqs[k].endpoint == endpoint && reqs[k].format == JsonFormat && reqs[k].param == param
  {
    if pages == 0 then [] else PageRequests(endpoint, param, pages - 1) + [Request(endpoint, JsonFormat, param, pages)]
  }

  /**
   * The collection over `reqs`, as the loop has done it after issuing them
   * all: the concatenated readings, or the first page that did not decode.
   */
  function Collected(rule: SampleRule, reqs: seq<Request>, respond: Request -> Report): Result<seq<Reading>, FetchError>
    decreases |reqs|
  {
    if reqs == [] then Ok([])
    else
      match Collected(rule, reqs[..|reqs| - 1], respond)
      case Err(e) => Err(e)
      case Ok(rs) =>
        var last := reqs[|reqs| - 1];
        match Decode(rule, respond(last))
        case Err(d) => Err(PageMalformed(last.page, d))
        case Ok(page) => Ok(rs + page)
  }

  /** Every request of `reqs` is answered with a report that decodes. */
  predicate AllDecode(rule: SampleRule, reqs: seq<Request>, respond: Request -> Report) {
    forall k :: 0 <= k < |reqs| ==> Decode(rule, respond(reqs[k])).Ok?
  }

  /** The decoded pages, concatenated in order, once every page is known to decode. */
  function Concat(rule: SampleRule, reqs: seq<Request>, respond: Request -> Report): seq<Reading>
    requires AllDecode(rule, reqs, respond)
    decreases |reqs|
  {
    if reqs == [] then []
    else Concat(rule, reqs[..|reqs| - 1], respond) + Decode(rule, respond(reqs[|reqs| - 1])).value
  }

  // ---------------------------------------------------------------------------
  // The collection against its reference description

  /**
   * The collection succeeds exactly when every page decodes, and then yields
   * the pages' readings concatenated in request order; otherwise it names
   * the page of the first request whose report does not decode.
   */
  lemma {:induction false} CollectedMeaning(rule: SampleRule, reqs: seq<Request>, respond: Request -> Report)
    ensures Collected(rule, reqs, respond).Ok? <==> AllDecode(rule, reqs, respond)
    ensures Collected(rule, reqs, respond).Ok? ==> Collected(rule, reqs, respond).value == Concat(rule, reqs, respond)
    ensures Collected(rule, reqs, respond).Err? ==>
      exists k :: 0 <= k < |reqs| && AllDecode(rule, reqs[..k], respond) && Decode(rule, respond(reqs[k])).Err?
        && Collected(rule, reqs, respond).error == PageMalformed(reqs[k].page, Decode(rule, respond(reqs[k])).error)
    decreases |reqs|
  {
    if reqs != [] {
      var init := reqs[..|reqs| - 1];
      CollectedMeaning(rule, init, respond);
      assert forall k :: 0 <= k < |init| ==> init[k] == reqs[k];
      if Collected(rule, init, respond).Err? {
        var k :| 0 <= k < |init| && AllDecode(rule, init[..k], respond) && Decode(rule, respond(init[k])).Err?
          && Collected(rule, init, respond).error == PageMalformed(init[k].page, Decode(rule, respond(init[k])).error);
        assert init[..k] == reqs[..k];
      } else if Decode(rule, respond(reqs[|reqs| - 1])).Err? {
        assert reqs[..|reqs| - 1] == init;
      }
    }
  }

  /** Collecting two runs of requests one after the other: the readings concatenate, errors stop. */
  lemma {:induction false} CollectedAppend(rule: SampleRule, xs: seq<Request>, ys: seq<Request>, respond: Request -> Report)
    ensures Collected(rule, xs + ys, respond) ==
      match Collected(rule, xs, respond)
      case Err(e) => Err(e)
      case Ok(a) =>
        match Collected(rule, ys, respond)
        case Err(e) => Err(e)
        case Ok(b) => Ok(a + b)
    decreases |ys|
  {
    if ys == [] {
      assert xs + ys == xs;
      if Collected(rule, xs, respond).Ok? {
        assert Collected(rule, xs, respond).value + [] == Collected(rule, xs, respond).value;
      }
    } else {
      var ys' := ys[..|ys| - 1];
      assert (xs + ys)[..|xs + ys| - 1] == xs + ys';
      assert (xs + ys)[|xs + ys| - 1] == ys[|ys| - 1];
      CollectedAppend(rule, xs, ys', respond);
      if Collected(rule, xs, respond).Ok? && Collected(rule, ys', respond).Ok? {
        var a, b := Collected(rule, xs, respond).value, Collected(rule, ys', respond).value;
        var last := Decode(rule, respond(ys[|ys| - 1]));
        if last.Ok? {
          assert a + b + last.value == a + (b + last.value);
        }
      }
    }
  }

  /** `n` copies of `rs`, one after the other. */
  function Repeat(rs: seq<Reading>, n: nat): seq<Reading> {
    if n == 0 then [] else Repeat(rs, n - 1) + rs
  }

  /**
   * A meter that answers every request with the same report (as the mock of the
   * logger's unit test does) yields that report's readings once per page.
   */
  lemma {:induction false} CollectedConstant(rule: SampleRule, reqs: seq<Request>, r: Report)
    requires Decode(rule, r).Ok?
    ensures Collected(rule, reqs, _ => r) == Ok(Repeat(Decode(rule, r).value, |reqs|))
    decreases |reqs|
  {
    if reqs != [] {
      CollectedConstant(rule, reqs[..|reqs| - 1], r);
    }
  }

  // ---------------------------------------------------------------------------
  // The loop of `fetch_data`

  /**
   * `fetch_data`'s collection loop: requests pages `1 .. pages` in order and
   * concatenates their readings. It also returns the requests it issued: all
   * of them when every page decodes, and up to the failing page otherwise.
   */
  method FetchPages(rule: SampleRule, endpoint: string, param: string, pages: nat, respond: Request -> Report)
    returns (issued: seq<Request>, res: Result<seq<Reading>, FetchError>)
    ensures res == Collected(rule, PageRequests(endpoint, param, pages), respond)
    ensures issued <= PageRequests(endpoint, param, pages)
    ensures res.Ok? ==> issued == PageRequests(endpoint, param, pages)
    ensures res.Err? ==>
      && |issued| > 0 && res.error.page == |issued|
      && Collected(rule, issued[..|issued| - 1], respond).Ok?
  {
    ghost var reqs := PageRequests(endpoint, param, pages);
    var readings: seq<Reading> := [];
    issued := [];
    var page := 0;
    while page < pages
      invariant 0 <= page <= pages
      invariant issued == reqs[..page]
      invariant Collected(rule, issued, respond) == Ok(readings)
    {
      var req := Request(endpoint, JsonFormat, param, page + 1);
      assert req == reqs[page];
      assert (issued + [req])[..|issued|] == issued;
      issued := issued + [req];
      var decoded := ConvertData(rule, respond(req));
      if decoded.Err? {
        res := Err(PageMalformed(page + 1, decoded.error));
        assert issued == reqs[..page + 1];
        CollectedAppend(rule, issued, reqs[page + 1..], respond);
        assert issued + reqs[page + 1..] == reqs;
        return;
      }
      readings := readings + decoded.value;
      page := page + 1;
    }
    assert issued == reqs;
    res := Ok(readings);
  }
}
