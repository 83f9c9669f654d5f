/**
 * The `/api/validate-urls` route: probes a fixed list of feed URLs with a
 * `HEAD` request each and reports how many answered with a success or
 * redirect status, together with the failing ones.
 */
module HealthCheck {
  import opened Js

  /** The URLs the route probes, whatever the `all` parameter says. */
  function SampleUrls(): seq<string> {
    [
      "https://aws.amazon.com/blogs/security/feed/",
      "https://cloud.google.com/blog/products/identity-security/rss",
      "https://www.cloudflare.com/rss/blog/",
      "https://www.schneier.com/blog/atom.xml",
      "https://krebsonsecurity.com/feed/",
      "https://www.sans.org/blog/rss/",
      "https://www.bleepingcomputer.com/feed/",
      "https://www.cisa.gov/cybersecurity-advisories/all.xml"
    ]
  }

  /**
   * How the `HEAD` request ended: a response with its status code, the
   * five-second abort (an `AbortError`), or any other failure with its message.
   */
  datatype Probe = Responded(status: int) | TimedOut | Errored(message: string)

  /** The record built for one URL; `error` is `null` for a response. */
  datatype UrlResult = UrlResult(url: string, title: string, status: int, valid: bool, error: Option<string>)

  const TimeoutMessage := "Timeout"

  /** The `map` callback on one URL. */
  function Check(url: string, probe: Probe): (r: UrlResult)
    ensures r.url == url && r.title == url
    ensures r.valid <==> probe.Responded? && 200 <= probe.status < 400
    ensures r.error.None? <==> probe.Responded?
    ensures probe.Responded? ==> r.status == probe.status
    ensures !probe.Responded? ==> r.status == 0
    ensures probe.TimedOut? ==> r.error == Some(TimeoutMessage)
    ensures probe.Errored? ==> r.error == Some(probe.message)
  {
    match probe
    case Responded(status) => UrlResult(url, url, status, 200 <= status < 400, None)
    case TimedOut => UrlResult(url, url, 0, false, Some(TimeoutMessage))
    case Errored(message) => UrlResult(url, url, 0, false, Some(message))
  }

  /** `Promise.all(urls.map(...))`: one result per URL, in URL order. */
  function Results(urls: seq<string>, probe: string -> Probe): (rs: seq<UrlResult>)
    ensures |rs| == |urls|
    ensures forall i :: 0 <= i < |urls| ==> rs[i] == Check(urls[i], probe(urls[i]))
  {
    seq(|urls|, i requires 0 <= i < |urls| => Check(urls[i], probe(urls[i])))
  }

  /** `results.filter(r => r.valid).length`. */
  function ValidCount(rs: seq<UrlResult>): (n: nat)
    ensures n <= |rs|
  {
    if rs == [] then 0
    else ValidCount(rs[..|rs| - 1]) + (if rs[|rs| - 1].valid then 1 else 0)
  }

  /** `results.filter(r => !r.valid)`. */
  function Failing(rs: seq<UrlResult>): (bad: seq<UrlResult>)
    ensures |bad| <= |rs|
  {
    if rs == [] then []
    else Failing(rs[..|rs| - 1]) + (if rs[|rs| - 1].valid then [] else [rs[|rs| - 1]])
  }

  /** Every result is valid or failing: the two counts add up to the number checked. */
  lemma {:induction false} CountsAddUp(rs: seq<UrlResult>)
    ensures ValidCount(rs) + |Failing(rs)| == |rs|
  {
    if rs != [] {
      CountsAddUp(rs[..|rs| - 1]);
    }
  }

  /** The failing list holds exactly the invalid results. */
  lemma {:induction false} FailingMembers(rs: seq<UrlResult>)
    ensures forall r :: r in Failing(rs) <==> r in rs && !r.valid
  {
    if rs != [] {
      var init, last := rs[..|rs| - 1], rs[|rs| - 1];
      FailingMembers(init);
      assert rs == init + [last];
    }
  }

  /** Where each failing result sits among all results. */
  predicate PicksOf(picks: seq<nat>, bad: seq<UrlResult>, rs: seq<UrlResult>) {
    && |picks| == |bad|
    && (forall k :: 0 <= k < |picks| ==> picks[k] < |rs| && bad[k] == rs[picks[k]])
    && (forall k, l :: 0 <= k < l < |picks| ==> picks[k] < picks[l])
  }

  /** The positions of the invalid results, in increasing order. */
  function FailingAt(rs: seq<UrlResult>): (picks: seq<nat>)
    ensures |picks| <= |rs|
  {
    if rs == [] then []
    else FailingAt(rs[..|rs| - 1]) + (if rs[|rs| - 1].valid then [] else [|rs| - 1])
  }

  /** The failing list keeps the order of the results: it is picked at increasing positions. */
  lemma {:induction false} FailingInOrder(rs: seq<UrlResult>)
    ensures PicksOf(FailingAt(rs), Failing(rs), rs)
  {
    if rs != [] {
      FailingInOrder(rs[..|rs| - 1]);
    }
  }

  /**
   * `Math.round((valid / checked) * 100)`, read as exact arithmetic: the
   * nearest whole percentage, halves rounded up. With nothing checked the
   * division is `NaN`, which the JSON answer writes as `null`.
   */
  function Percentage(valid: nat, checked: nat): (p: Option<int>)
    ensures p.None? <==> checked == 0
  {
    if checked == 0 then None else Some((200 * valid + checked) / (2 * checked))
  }

  /**
   * The percentage is the nearest whole number to `100 * valid / checked`
   * (`p - 1/2 <= 100 * valid / checked < p + 1/2`), lies between 0 and 100,
   * is 100 exactly when at least 99.5 percent are valid and 0 exactly when
   * under half a percent are.
   */
  lemma PercentageRounds(valid: nat, checked: nat)
    requires 0 < checked && valid <= checked
    ensures var p := Percentage(valid, checked).value;
      && (2 * p - 1) * checked <= 200 * valid < (2 * p + 1) * checked
      && 0 <= p <= 100
      && (p == 100 <==> 200 * valid >= 199 * checked)
      && (p == 0 <==> 200 * valid < checked)
  {
    var d := 2 * checked;
    var q := 200 * valid + checked;
    var p := q / d;
    assert d * p <= q < d * p + d;
    assert (2 * p - 1) * checked == d * p - checked;
    assert (2 * p + 1) * checked == d * p + checked;
    MulLess(d, -1, p);
    MulLess(d, p, 101);
    if 200 * valid >= 199 * checked {
      MulLess(d, 99, p);
    }
    if 200 * valid < checked {
      MulLess(d, p, 1);
    }
  }

  /** Multiplying by a positive factor keeps a strict order. */
  lemma MulLess(d: int, a: int, b: int)
    requires d > 0
    requires d * a < d * b + d
    ensures a <= b
  {
    var e := a - b - 1;
    assert d * e == d * a - d * b - d;
    assert e >= 0 ==> d * e >= 0;
  }

  /** The JSON answer of the route. */
  datatype Report = Report(
    checked: nat, valid: nat, invalid: nat, validPercentage: Option<int>,
    results: seq<UrlResult>, timestamp: string)

  /**
   * `GET /api/validate-urls`; `probe` stands for the network and `now` for
   * the clock. The report covers the eight sample URLs: valid and invalid
   * add up to the number checked, the percentage lies between 0 and 100
   * and is 100 only when every URL is valid, and the listed results are
   * exactly the invalid ones.
   */
  function ValidateUrls(all: Option<string>, probe: string -> Probe, now: string): (r: Report)
    ensures r.checked == |SampleUrls()| == 8
    ensures r.valid + r.invalid == r.checked
    ensures r.validPercentage.Some? && 0 <= r.validPercentage.value <= 100
    ensures r.validPercentage.value == 100 <==> r.valid == r.checked
    ensures |r.results| == r.invalid
    ensures forall x :: x in r.results <==> x in Results(SampleUrls(), probe) && !x.valid
    ensures r.timestamp == now
  {
    var rs := Results(SampleUrls(), probe);
    var valid := ValidCount(rs);
    CountsAddUp(rs);
    FailingMembers(rs);
    PercentageRounds(valid, |rs|);
    Report(|rs|, valid, |Failing(rs)|, Percentage(valid, |rs|), Failing(rs), now)
  }

  /** A URL is listed as failing exactly when its probe did not end in a 2xx or 3xx response. */
  lemma FailingUrls(all: Option<string>, probe: string -> Probe, now: string, i: nat)
    requires i < |SampleUrls()|
    ensures var u := SampleUrls()[i];
      Check(u, probe(u)) in ValidateUrls(all, probe, now).results <==>
        !(probe(u).Responded? && 200 <= probe(u).status < 400)
  {
    var rs := Results(SampleUrls(), probe);
    FailingMembers(rs);
    assert rs[i] in rs;
  }

  /** The `all` parameter does not change the answer. */
  lemma AllIgnored(a: Option<string>, b: Option<string>, probe: string -> Probe, now: string)
    ensures ValidateUrls(a, probe, now) == ValidateUrls(b, probe, now)
  {
  }
}
