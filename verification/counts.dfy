/**
 * The `/api/counts` route: for every topic of its own feed table, the number
 * of gathered items whose cleaned, lower-cased title contains one of the
 * topic's keywords, capped at twenty, or zero when the topic's processing
 * throws.
 */
module Counts {
  import opened Js
  import opened Text
  import opened FeedSource

  /** One entry of the route's feed table, in the table's declaration order. */
  datatype TopicFeeds = TopicFeeds(topic: string, urls: seq<string>)

  /** `Object.entries(RSS_FEEDS)` of this route. */
  function CountFeeds(): seq<TopicFeeds> {
    [
      TopicFeeds("Cloud Security", ["https://aws.amazon.com/blogs/security/feed/", "https://cloud.google.com/blog/products/identity-security/rss", "https://www.cloudflare.com/rss/blog/"]),
      TopicFeeds("Hardware Security", ["https://www.schneier.com/blog/atom.xml", "https://www.darkreading.com/rss/all.xml"]),
      TopicFeeds("Infrastructure", ["https://krebsonsecurity.com/feed/", "https://www.sans.org/blog/rss/", "https://threatpost.com/feed/"]),
      TopicFeeds("Malware Research", ["https://www.bleepingcomputer.com/feed/", "https://blog.talosintelligence.com/rss/"]),
      TopicFeeds("Government Alerts", ["https://www.cisa.gov/cybersecurity-advisories/all.xml"]),
      TopicFeeds("Zero Trust", ["https://www.csoonline.com/feed/"]),
      TopicFeeds("Container Security", ["https://sysdig.com/blog/feed/", "https://www.aquasec.com/blog/feed/"]),
      TopicFeeds("TPM/HSM", ["https://trustedcomputinggroup.org/feed/"]),
      TopicFeeds("DevSecOps", ["https://devops.com/category/blogs/devsecops/feed/", "https://www.sonatype.com/blog/rss.xml"]),
      TopicFeeds("Compliance", ["https://www.complianceweek.com/rss"])
    ]
  }

  const MaxCount: nat := 20

  // ---------------------------------------------------------------------------
  // One item

  /** The title-only scoring loop: 100 per keyword found in the lower-cased title. */
  method TitleScore(titleLower: string, keywords: seq<string>) returns (score: nat)
    ensures score == 100 * Hits(titleLower, keywords)
    ensures score > 0 <==> exists k :: k in keywords && Contains(titleLower, k)
  {
    score := 0;
    for i := 0 to |keywords|
      invariant score == 100 * Hits(titleLower, keywords[..i])
    {
      assert keywords[..i + 1][..i] == keywords[..i];
      if Contains(titleLower, keywords[i]) {
        score := score + 100;
      }
    }
    assert keywords[..|keywords|] == keywords;
    HitsPositive(titleLower, keywords);
  }

  /**
   * Whether an item counts for the topic: `Some(true)` when a keyword occurs
   * in its cleaned, lower-cased title, `None` when the title is not a string
   * and `cleanHTML` throws.
   */
  function Matches(item: Item, keywords: seq<string>): (m: Option<bool>)
    ensures m.None? <==> item.title.NonString?
  {
    match TextOr(item.title)
    case None => None
    case Some(raw) => Some(TitleHit(CleanHtml(raw), keywords))
  }

  function TitleHit(title: string, keywords: seq<string>): (hit: bool)
    ensures hit <==> exists k :: k in keywords && Contains(Lower(title), k)
  {
    HitsPositive(Lower(title), keywords);
    Hits(Lower(title), keywords) > 0
  }

  /** An item counts exactly when one of the keywords occurs in its cleaned, lower-cased title. */
  lemma MatchesChar(item: Item, keywords: seq<string>, raw: string)
    requires TextOr(item.title) == Some(raw)
    ensures Matches(item, keywords) == Some(true) <==> exists k :: k in keywords && Contains(Lower(CleanHtml(raw)), k)
  {
    HitsPositive(Lower(CleanHtml(raw)), keywords);
  }

  /** The per-item callback: scores the title and reports whether it counts. */
  method MatchItem(item: Item, keywords: seq<string>) returns (m: Option<bool>)
    ensures m == Matches(item, keywords)
  {
    var raw := TextOr(item.title);
    if raw.None? {
      return None;
    }
    var score := TitleScore(Lower(CleanHtml(raw.value)), keywords);
    m := Some(score > 0);
  }

  // ---------------------------------------------------------------------------
  // One topic

  /** What the callback reports for each item, in item order. */
  function Verdicts(items: seq<Item>, keywords: seq<string>): (v: seq<Option<bool>>)
    ensures |v| == |items|
    ensures forall i :: 0 <= i < |items| ==> v[i] == Matches(items[i], keywords)
  {
    seq(|items|, i requires 0 <= i < |items| => Matches(items[i], keywords))
  }

  /** `matchCount` after the first `n` verdicts, or `None` once one of them throws. */
  function CountAmong(verdicts: seq<Option<bool>>, n: nat): (r: Option<nat>)
    requires n <= |verdicts|
    ensures r.Some? ==> r.value <= n
  {
    if n == 0 then Some(0)
    else
      var init := CountAmong(verdicts, n - 1);
      var last := verdicts[n - 1];
      if init.None? || last.None? then None
      else if last.value then Some(init.value + 1)
      else init
  }

  /**
   * The first `n` verdicts fail exactly when one of them throws; otherwise
   * the count is positive exactly when one of them matches, and equals `n`
   * exactly when all of them match.
   */
  lemma {:induction false} CountAmongChar(verdicts: seq<Option<bool>>, n: nat)
    requires n <= |verdicts|
    ensures CountAmong(verdicts, n).None? <==> exists i :: 0 <= i < n && verdicts[i].None?
    ensures CountAmong(verdicts, n).Some? ==>
      && (CountAmong(verdicts, n).value > 0 <==> exists i :: 0 <= i < n && verdicts[i] == Some(true))
      && (CountAmong(verdicts, n).value == n <==> forall i :: 0 <= i < n ==> verdicts[i] == Some(true))
  {
    if n > 0 {
      CountAmongChar(verdicts, n - 1);
    }
  }

  /** Once a verdict has thrown, later items cannot undo the failure. */
  lemma {:induction false} CountAmongStaysFailed(verdicts: seq<Option<bool>>, k: nat, n: nat)
    requires k <= n <= |verdicts|
    requires CountAmong(verdicts, k).None?
    ensures CountAmong(verdicts, n).None?
    decreases n
  {
    if k < n {
      CountAmongStaysFailed(verdicts, k, n - 1);
    }
  }

  /** One more verdict: a throw fails the count, a match adds one, anything else leaves it. */
  lemma CountAmongNext(verdicts: seq<Option<bool>>, n: nat)
    requires n < |verdicts|
    ensures CountAmong(verdicts, n + 1) ==
      if CountAmong(verdicts, n).None? || verdicts[n].None? then None
      else if verdicts[n].value then Some(CountAmong(verdicts, n).value + 1)
      else CountAmong(verdicts, n)
  {
  }

  /** `Math.min(matchCount, 20)` after all verdicts, or `0` from the per-topic `catch` on a throw. */
  function CapCount(verdicts: seq<Option<bool>>): (count: nat)
    ensures count <= MaxCount
  {
    match CountAmong(verdicts, |verdicts|)
    case None => 0
    case Some(m) => if m <= MaxCount then m else MaxCount
  }

  /**
   * A topic scores zero exactly when some title throws or no title matches;
   * it scores the full twenty when at least twenty titles all match.
   */
  lemma CapCountChar(verdicts: seq<Option<bool>>)
    ensures CapCount(verdicts) == 0 <==>
      (exists i :: 0 <= i < |verdicts| && verdicts[i].None?) ||
      (forall i :: 0 <= i < |verdicts| ==> verdicts[i] == Some(false))
    ensures |verdicts| >= MaxCount && (forall i :: 0 <= i < |verdicts| ==> verdicts[i] == Some(true)) ==>
      CapCount(verdicts) == MaxCount
  {
    var n := |verdicts|;
    CountAmongChar(verdicts, n);
    var total := CountAmong(verdicts, n);
    if total.Some? && total.value == 0 {
      var noThrow := !exists i :: 0 <= i < n && verdicts[i].None?;
      var noMatch := !exists i :: 0 <= i < n && verdicts[i] == Some(true);
      assert noThrow && noMatch;
      forall i | 0 <= i < n
        ensures verdicts[i] == Some(false)
      {
        assert !verdicts[i].None? && verdicts[i] != Some(true);
        assert !verdicts[i].value;
      }
    }
  }

  /** The count of one topic's items. */
  function TopicCount(items: seq<Item>, keywords: seq<string>): (count: nat)
    ensures count <= MaxCount
  {
    CapCount(Verdicts(items, keywords))
  }

  /**
   * A topic counts zero exactly when one of its titles is not a string (the
   * topic's `catch`) or none of its cleaned titles mentions a keyword.
   */
  lemma TopicCountZero(items: seq<Item>, keywords: seq<string>)
    ensures TopicCount(items, keywords) == 0 <==>
      (exists i :: 0 <= i < |items| && items[i].title.NonString?) ||
      (forall i :: 0 <= i < |items| ==> Matches(items[i], keywords) == Some(false))
  {
    hide CleanHtml;
    var v := Verdicts(items, keywords);
    CapCountChar(v);
    assert forall i :: 0 <= i < |items| ==> v[i] == Matches(items[i], keywords);
  }

  /** The callback on the `i`th item, counting onto `matchCount`. */
  method Tick(items: seq<Item>, keywords: seq<string>, i: nat, matchCount: nat) returns (next: Option<nat>)
    requires i < |items| && CountAmong(Verdicts(items, keywords), i) == Some(matchCount)
    ensures next == CountAmong(Verdicts(items, keywords), i + 1)
  {
    hide Matches, CleanHtml;
    var m := MatchItem(items[i], keywords);
    if m.None? {
      return None;
    }
    CountAmongNext(Verdicts(items, keywords), i);
    return Some(if m.value then matchCount + 1 else matchCount);
  }

  /** The loop over the items that counts the matching titles; a throw aborts it. */
  method CountMatches(items: seq<Item>, keywords: seq<string>) returns (count: Option<nat>)
    ensures count == CountAmong(Verdicts(items, keywords), |items|)
  {
    hide Matches, CleanHtml;
    var matchCount := 0;
    for i := 0 to |items|
      invariant CountAmong(Verdicts(items, keywords), i) == Some(matchCount)
    {
      var next := Tick(items, keywords, i, matchCount);
      if next.None? {
        CountAmongStaysFailed(Verdicts(items, keywords), i + 1, |items|);
        return None;
      }
      matchCount := next.value;
    }
    return Some(matchCount);
  }

  /** The body of the per-topic `try`: gather, count, cap; a throw yields `0`. */
  method CountTopic(entry: TopicFeeds, fetch: string -> FeedOutcome) returns (count: nat)
    ensures count == TopicCount(Gather(entry.urls, fetch), KeywordsFor(entry.topic))
  {
    hide Matches, KeywordsFor;
    var items := Gather(entry.urls, fetch);
    var matched := CountMatches(items, KeywordsFor(entry.topic));
    if matched.None? {
      return 0;
    }
    count := if matched.value <= MaxCount then matched.value else MaxCount;
  }

  // ---------------------------------------------------------------------------
  // All topics

  /**
   * The `counts` object after storing `count(e)` for every entry `e`, in
   * order: it has exactly the entries' topics as keys, and every stored
   * value is the count of some entry.
   */
  function Record(entries: seq<TopicFeeds>, count: TopicFeeds -> nat): (counts: map<string, nat>)
    ensures counts.Keys == set e | e in entries :: e.topic
    ensures forall t :: t in counts ==> exists e :: e in entries && counts[t] == count(e)
  {
    if entries == [] then map[]
    else
      var init, last := entries[..|entries| - 1], entries[|entries| - 1];
      assert entries == init + [last];
      assert (set e | e in entries :: e.topic) == (set e | e in init :: e.topic) + {last.topic};
      Record(init, count)[last.topic := count(last)]
  }

  /** The count the route stores for one table entry. */
  function CountOf(fetch: string -> FeedOutcome): TopicFeeds -> nat {
    (e: TopicFeeds) => TopicCount(Gather(e.urls, fetch), KeywordsFor(e.topic))
  }

  /** The answer: exactly one key per topic of the table. */
  function CountsResult(fetch: string -> FeedOutcome): (counts: map<string, nat>)
    ensures counts.Keys == set e | e in CountFeeds() :: e.topic
  {
    Record(CountFeeds(), CountOf(fetch))
  }

  /** The topics of the table have pairwise different names. */
  predicate DistinctTopics(entries: seq<TopicFeeds>) {
    forall i, j :: 0 <= i < j < |entries| ==> entries[i].topic != entries[j].topic
  }

  /** With distinct topics, each topic holds the count of its own entry. */
  lemma {:induction false} RecordLookup(entries: seq<TopicFeeds>, count: TopicFeeds -> nat, i: nat)
    requires DistinctTopics(entries) && i < |entries|
    ensures entries[i].topic in Record(entries, count)
    ensures Record(entries, count)[entries[i].topic] == count(entries[i])
  {
    var init, last := entries[..|entries| - 1], entries[|entries| - 1];
    if i < |entries| - 1 {
      RecordLookup(init, count, i);
      assert last.topic != entries[i].topic;
    }
  }

  /** Every count in the answer is at most twenty. */
  lemma CountsBounded(fetch: string -> FeedOutcome)
    ensures forall t :: t in CountsResult(fetch) ==> CountsResult(fetch)[t] <= MaxCount
  {
    hide CountFeeds, TopicCount, KeywordsFor, Gather;
    var counts := CountsResult(fetch);
    forall t | t in counts
      ensures counts[t] <= MaxCount
    {
      var e :| e in CountFeeds() && counts[t] == CountOf(fetch)(e);
    }
  }

  /** When none of a topic's feeds can be fetched, the topic counts zero. */
  lemma {:induction false} UnreachableTopicCountsZero(entry: TopicFeeds, fetch: string -> FeedOutcome)
    requires forall u :: u in entry.urls ==> fetch(u).Failed?
    ensures CountOf(fetch)(entry) == 0
  {
    hide Matches, KeywordsFor;
    GatherAllFailed(entry.urls, fetch);
  }

  /** `GET /api/counts`: processes every topic of the table and stores its count. */
  method Get(fetch: string -> FeedOutcome) returns (counts: map<string, nat>)
    ensures counts == CountsResult(fetch)
  {
    hide CountFeeds, TopicCount, KeywordsFor, Gather;
    var entries := CountFeeds();
    counts := map[];
    for i := 0 to |entries|
      invariant counts == Record(entries[..i], CountOf(fetch))
    {
      var count := CountTopic(entries[i], fetch);
      assert entries[..i + 1][..i] == entries[..i];
      counts := counts[entries[i].topic := count];
    }
    assert entries[..|entries|] == entries;
  }

  /** The table names ten different topics. */
  lemma CountFeedsDistinct()
    ensures |CountFeeds()| == 10
    ensures DistinctTopics(CountFeeds())
  {
  }

  /** Each topic of the table maps to the capped count of its own feeds' items. */
  lemma CountsPerTopic(fetch: string -> FeedOutcome, i: nat)
    requires i < 10
    ensures var e := CountFeeds()[i];
      && e.topic in CountsResult(fetch)
      && CountsResult(fetch)[e.topic] == TopicCount(Gather(e.urls, fetch), KeywordsFor(e.topic))
  {
    CountFeedsDistinct();
    hide CountFeeds, TopicCount, KeywordsFor, Gather;
    RecordLookup(CountFeeds(), CountOf(fetch), i);
  }
}
