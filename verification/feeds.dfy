/**
 * The `/api/feeds` route: gathers a topic's feeds, scores every item by
 * keyword hits and recency, keeps the twenty best-scoring ones and turns
 * them into a list of themes and a short textual brief.
 */
module Feeds {
  import opened Js
  import opened Text
  import opened FeedSource

  const DefaultTopic := "Cloud Security"

  /** The feed URLs per topic of this route. */
  function FeedUrls(): map<string, seq<string>> {
    map[
    "Cloud Security" := ["https://aws.amazon.com/blogs/security/feed/", "https://blog.cloudflare.com/rss/"],
    "Hardware Security" := ["https://www.schneier.com/blog/atom.xml", "https://www.darkreading.com/rss.xml"],
    "Infrastructure" := ["https://krebsonsecurity.com/feed/", "https://isc.sans.edu/rssfeed.xml", "https://threatpost.com/feed/"],
    "Malware Research" := ["https://www.bleepingcomputer.com/feed/", "https://blog.talosintelligence.com/rss/"],
    "Government Alerts" := ["https://www.cisa.gov/cybersecurity-advisories/all.xml"],
    "Zero Trust" := ["https://www.csoonline.com/feed/"],
    "Container Security" := ["https://www.aquasec.com/feed/"],
    "TPM/HSM" := ["https://www.schneier.com/blog/atom.xml"],
    "DevSecOps" := ["https://devops.com/category/blogs/devsecops/feed/", "https://www.sonatype.com/blog/rss.xml"],
    "Compliance" := ["https://www.csoonline.com/feed/"]
    ]
  }

  const MaxArticles: nat := 20
  const MaxThemes: nat := 6
  const MaxParagraphs: nat := 8

  function Min(a: nat, b: nat): nat { if a <= b then a else b }

  /** `searchParams.get('topic') || 'Cloud Security'`: a missing or empty parameter selects the default. */
  function TopicOf(param: Option<string>): (topic: string)
    ensures topic != ""
    ensures param.Some? && param.value != "" ==> topic == param.value
  {
    match param
    case Some(t) => if t != "" then t else DefaultTopic
    case None => DefaultTopic
  }

  /**
   * `RSS_FEEDS[topic] || RSS_FEEDS['Cloud Security']`, then `.map` on it: an
   * unknown topic reads the default topic's feeds, while a topic naming an
   * inherited property reads a truthy non-array on which `.map` throws
   * (`None`).
   */
  function UrlsFor(topic: string): (urls: Option<seq<string>>)
    ensures urls.None? ==> topic in InheritedNames
    ensures urls.Some? ==> urls.value != []
    ensures topic in FeedUrls() ==> urls == Some(FeedUrls()[topic])
    ensures topic !in FeedUrls() && topic !in InheritedNames ==> urls == Some(FeedUrls()[DefaultTopic])
  {
    if topic in FeedUrls() then Some(FeedUrls()[topic])
    else if topic in InheritedNames then None
    else Some(FeedUrls()[DefaultTopic])
  }

  /**
   * No topic of the feed table names an inherited property (the topics
   * start with a capital, the inherited names do not), so the lookup
   * fails exactly for the inherited names.
   */
  lemma InheritedTopicsFail(topic: string)
    ensures UrlsFor(topic).None? <==> topic in InheritedNames
  {
    if topic in InheritedNames {
      assert topic != [] && !('A' <= topic[0] <= 'Z');
      forall t | t in FeedUrls() ensures t != [] && 'A' <= t[0] <= 'Z' { }
    }
  }

  // ---------------------------------------------------------------------------
  // Scoring

  /**
   * The keyword part of an item's score: 100 per keyword in the title, 10
   * per keyword in the content. It is at most 110 per keyword, and positive
   * exactly when some keyword occurs in the title or the content.
   */
  function KeywordPoints(titleLower: string, contentLower: string, keywords: seq<string>): (points: nat)
    ensures points <= 110 * |keywords|
    ensures points > 0 <==> exists k :: k in keywords && (Contains(titleLower, k) || Contains(contentLower, k))
  {
    HitsPositive(titleLower, keywords);
    HitsPositive(contentLower, keywords);
    100 * Hits(titleLower, keywords) + 10 * Hits(contentLower, keywords)
  }

  /** The scoring loop over the keywords. */
  method KeywordScore(titleLower: string, contentLower: string, keywords: seq<string>) returns (score: nat)
    ensures score == KeywordPoints(titleLower, contentLower, keywords)
    ensures score <= 110 * |keywords|
  {
    score := 0;
    for i := 0 to |keywords|
      invariant score == KeywordPoints(titleLower, contentLower, keywords[..i])
    {
      assert keywords[..i + 1][..i] == keywords[..i];
      if Contains(titleLower, keywords[i]) {
        score := score + 100;
      }
      if Contains(contentLower, keywords[i]) {
        score := score + 10;
      }
    }
    assert keywords[..|keywords|] == keywords;
  }

  /**
   * One more keyword adds 100 points when it occurs in the title and 10 when
   * it occurs in the content, so extending the list never lowers the score.
   */
  lemma KeywordPointsExtend(titleLower: string, contentLower: string, keywords: seq<string>, k: string)
    ensures KeywordPoints(titleLower, contentLower, keywords + [k]) ==
      KeywordPoints(titleLower, contentLower, keywords)
        + (if Contains(titleLower, k) then 100 else 0)
        + (if Contains(contentLower, k) then 10 else 0)
  {
    assert (keywords + [k])[..|keywords|] == keywords;
  }

  /**
   * The recency boost: `max(0, 200 - 6 * age)` for an article less than
   * thirty days old, nothing for an older, undated or unparseable one.
   */
  function RecencyBoost(date: PubDate): (boost: real)
    ensures boost >= 0.0
    ensures date.AgeDays? && date.days < 30.0 ==> boost > 20.0
    ensures !(date.AgeDays? && date.days < 30.0) ==> boost == 0.0
    ensures date.AgeDays? && date.days >= 0.0 ==> boost <= 200.0
  {
    match date
    case AgeDays(days) =>
      if days < 30.0 then (if 200.0 - days * 6.0 > 0.0 then 200.0 - days * 6.0 else 0.0) else 0.0
    case _ => 0.0
  }

  /** A newer article never gets a smaller boost than an older one. */
  lemma RecencyBoostNonIncreasing(newer: real, older: real)
    requires newer <= older
    ensures RecencyBoost(AgeDays(newer)) >= RecencyBoost(AgeDays(older))
  {
  }

  datatype Article = Article(title: string, content: string, url: string, score: real)

  /** What the per-item callback does with one item: throws, drops it, or keeps an article. */
  datatype Assessment = Throws | Dropped | Kept(article: Article)

  /** `item.link || ''`: the item's link, or the empty string when it has none. */
  function LinkOf(link: Option<string>): (url: string)
    ensures link.Some? ==> url == link.value
    ensures link.None? ==> url == ""
  {
    match link
    case Some(url) => url
    case None => ""
  }

  /**
   * The score of cleaned texts is positive exactly when some keyword is hit
   * or the article is less than thirty days old.
   */
  lemma ScorePositive(titleHits: nat, contentHits: nat, date: PubDate)
    ensures (100 * titleHits + 10 * contentHits) as real + RecencyBoost(date) > 0.0 <==>
      titleHits > 0 || contentHits > 0 || (date.AgeDays? && date.days < 30.0)
  {
  }

  /** Scores cleaned texts and keeps the article when the score is positive and the title longer than five UTF-16 code units. */
  function Judge(title: string, content: string, link: Option<string>, date: PubDate, keywords: seq<string>): (a: Assessment)
    ensures !a.Throws?
    ensures a.Kept? ==> a.article.title == title && a.article.content == content && a.article.url == LinkOf(link)
    ensures a.Kept? ==> a.article.score > 0.0 && Utf16Length(title) > 5
  {
    var score := KeywordPoints(Lower(title), Lower(content), keywords) as real + RecencyBoost(date);
    if score > 0.0 && Utf16Length(title) > 5 then Kept(Article(title, content, LinkOf(link), score)) else Dropped
  }

  /**
   * Cleaned texts are kept exactly when the title is longer than five
   * UTF-16 code units and some keyword occurs in the lower-cased title or
   * content, or the article is less than thirty days old.
   */
  lemma JudgeKeeps(title: string, content: string, link: Option<string>, date: PubDate, keywords: seq<string>)
    ensures Judge(title, content, link, date, keywords).Kept? <==>
      && Utf16Length(title) > 5
      && ((exists k :: k in keywords && Contains(Lower(title), k))
          || (exists k :: k in keywords && Contains(Lower(content), k))
          || (date.AgeDays? && date.days < 30.0))
  {
    ScorePositive(Hits(Lower(title), keywords), Hits(Lower(content), keywords), date);
    HitsPositive(Lower(title), keywords);
    HitsPositive(Lower(content), keywords);
  }

  /**
   * The per-item callback: cleans the title and the content
   * (`contentSnippet`, else `content`) and judges them. A title or content
   * that is not a string makes `cleanHTML` throw.
   */
  function Assess(item: Item, keywords: seq<string>): (a: Assessment)
    ensures a.Throws? <==> TextOr(item.title).None? || TextOr(Or(item.contentSnippet, item.content)).None?
    ensures a.Kept? ==> a.article.score > 0.0 && Utf16Length(a.article.title) > 5
    ensures a.Kept? ==> Normalized(a.article.title) && Normalized(a.article.content)
    ensures a.Kept? ==> a.article.url == LinkOf(item.link)
  {
    match TextOr(item.title)
    case None => Throws
    case Some(rawTitle) =>
      match TextOr(Or(item.contentSnippet, item.content))
      case None => Throws
      case Some(rawContent) => Judge(CleanHtml(rawTitle), CleanHtml(rawContent), item.link, item.date, keywords)
  }

  /**
   * An item with string fields is kept exactly when its cleaned title is
   * longer than five code units and some keyword occurs in the lower-cased
   * cleaned title or content, or the item is less than thirty days old.
   */
  lemma AssessKeeps(item: Item, keywords: seq<string>, rawTitle: string, rawContent: string)
    requires TextOr(item.title) == Some(rawTitle)
    requires TextOr(Or(item.contentSnippet, item.content)) == Some(rawContent)
    ensures Assess(item, keywords).Kept? <==>
      && Utf16Length(CleanHtml(rawTitle)) > 5
      && ((exists k :: k in keywords && Contains(Lower(CleanHtml(rawTitle)), k))
          || (exists k :: k in keywords && Contains(Lower(CleanHtml(rawContent)), k))
          || (item.date.AgeDays? && item.date.days < 30.0))
  {
    AssessStrings(item, keywords, rawTitle, rawContent);
    JudgeKeeps(CleanHtml(rawTitle), CleanHtml(rawContent), item.link, item.date, keywords);
  }

  /** An item whose title and content read as strings is judged on their cleaned forms. */
  lemma AssessStrings(item: Item, keywords: seq<string>, rawTitle: string, rawContent: string)
    requires TextOr(item.title) == Some(rawTitle)
    requires TextOr(Or(item.contentSnippet, item.content)) == Some(rawContent)
    ensures Assess(item, keywords) == Judge(CleanHtml(rawTitle), CleanHtml(rawContent), item.link, item.date, keywords)
  {
  }

  /** What the callback does with each item, in item order. */
  function Verdicts(items: seq<Item>, keywords: seq<string>): (v: seq<Assessment>)
    ensures |v| == |items|
    ensures forall i :: 0 <= i < |items| ==> v[i] == Assess(items[i], keywords)
  {
    seq(|items|, i requires 0 <= i < |items| => Assess(items[i], keywords))
  }

  /**
   * The articles kept by the first `n` verdicts, in order, or `None` when
   * one of them is a throw (which aborts the whole request).
   */
  function KeptAmong(verdicts: seq<Assessment>, n: nat): (r: Option<seq<Article>>)
    requires n <= |verdicts|
    ensures r.Some? ==> |r.value| <= n
  {
    if n == 0 then Some([])
    else
      var init := KeptAmong(verdicts, n - 1);
      var last := verdicts[n - 1];
      if init.None? || last.Throws? then None
      else if last.Kept? then Some(init.value + [last.article])
      else init
  }

  /** The candidate list `allArticles` after the loop over all items. */
  function Candidates(items: seq<Item>, keywords: seq<string>): (r: Option<seq<Article>>)
    ensures r.Some? ==> |r.value| <= |items|
  {
    KeptAmong(Verdicts(items, keywords), |items|)
  }

  /**
   * The first `n` verdicts fail exactly when one of them is a throw;
   * otherwise they yield exactly the articles of the verdicts that keep one.
   */
  lemma {:induction false} KeptAmongChar(verdicts: seq<Assessment>, n: nat)
    requires n <= |verdicts|
    ensures KeptAmong(verdicts, n).None? <==> exists i :: 0 <= i < n && verdicts[i].Throws?
    ensures KeptAmong(verdicts, n).Some? ==>
      forall a :: a in KeptAmong(verdicts, n).value <==> exists i :: 0 <= i < n && verdicts[i] == Kept(a)
  {
    if n > 0 {
      KeptAmongChar(verdicts, n - 1);
      var c := KeptAmong(verdicts, n);
      var last := verdicts[n - 1];
      if c.Some? {
        var ci := KeptAmong(verdicts, n - 1).value;
        forall a
          ensures a in c.value <==> exists i :: 0 <= i < n && verdicts[i] == Kept(a)
        {
          if a in c.value && a !in ci {
            assert last == Kept(a);
          }
        }
      } else if KeptAmong(verdicts, n - 1).Some? {
        assert last.Throws?;
      }
    }
  }

  /**
   * `Candidates` fails exactly when the callback throws on some item;
   * otherwise it holds exactly the articles of the items assessed as kept.
   */
  lemma CandidatesChar(items: seq<Item>, keywords: seq<string>)
    ensures Candidates(items, keywords).None? <==> exists i :: 0 <= i < |items| && Assess(items[i], keywords).Throws?
    ensures Candidates(items, keywords).Some? ==>
      forall a :: a in Candidates(items, keywords).value <==>
        exists i :: 0 <= i < |items| && Assess(items[i], keywords) == Kept(a)
  {
    KeptAmongChar(Verdicts(items, keywords), |items|);
  }

  /** Every candidate has a positive score and a title longer than five code units. */
  lemma CandidatesScored(items: seq<Item>, keywords: seq<string>)
    ensures Candidates(items, keywords).Some? ==>
      forall a :: a in Candidates(items, keywords).value ==> a.score > 0.0 && Utf16Length(a.title) > 5
  {
    var v := Verdicts(items, keywords);
    KeptAmongChar(v, |items|);
    if Candidates(items, keywords).Some? {
      forall a | a in Candidates(items, keywords).value
        ensures a.score > 0.0 && Utf16Length(a.title) > 5
      {
        var i :| 0 <= i < |items| && v[i] == Kept(a);
        assert Assess(items[i], keywords) == Kept(a);
      }
    }
  }

  /** Once a throw has been seen, later verdicts cannot undo the failure. */
  lemma {:induction false} KeptAmongStaysFailed(verdicts: seq<Assessment>, k: nat, n: nat)
    requires k <= n <= |verdicts|
    requires KeptAmong(verdicts, k).None?
    ensures KeptAmong(verdicts, n).None?
    decreases n
  {
    if k < n {
      KeptAmongStaysFailed(verdicts, k, n - 1);
    }
  }

  /** One more verdict that does not throw extends the kept articles by its article, if any. */
  lemma KeptAmongNext(verdicts: seq<Assessment>, n: nat, kept: seq<Article>)
    requires n < |verdicts| && KeptAmong(verdicts, n) == Some(kept) && !verdicts[n].Throws?
    ensures KeptAmong(verdicts, n + 1) == Some(if verdicts[n].Kept? then kept + [verdicts[n].article] else kept)
  {
  }

  /** The scoring of one item's cleaned texts inside the callback. */
  method JudgeItem(title: string, content: string, link: Option<string>, date: PubDate, keywords: seq<string>)
    returns (verdict: Assessment)
    ensures verdict == Judge(title, content, link, date, keywords)
  {
    var points := KeywordScore(Lower(title), Lower(content), keywords);
    var score := points as real + RecencyBoost(date);
    if score > 0.0 && Utf16Length(title) > 5 {
      verdict := Kept(Article(title, content, LinkOf(link), score));
    } else {
      verdict := Dropped;
    }
  }

  /** The `forEach` callback on one item; `Throws` stands for the exception it raises. */
  method AssessItem(item: Item, keywords: seq<string>) returns (verdict: Assessment)
    ensures verdict == Assess(item, keywords)
  {
    var rawTitle := TextOr(item.title);
    var rawContent := TextOr(Or(item.contentSnippet, item.content));
    if rawTitle.None? || rawContent.None? {
      return Throws;
    }
    verdict := JudgeItem(CleanHtml(rawTitle.value), CleanHtml(rawContent.value), item.link, item.date, keywords);
    AssessStrings(item, keywords, rawTitle.value, rawContent.value);
  }

  /**
   * The callback on the `i`th item, pushing onto the articles kept so far:
   * the articles kept from the first `i + 1` items, or `None` on a throw.
   */
  method Visit(items: seq<Item>, keywords: seq<string>, i: nat, kept: seq<Article>) returns (next: Option<seq<Article>>)
    requires i < |items| && KeptAmong(Verdicts(items, keywords), i) == Some(kept)
    ensures next == KeptAmong(Verdicts(items, keywords), i + 1)
  {
    var verdict := AssessItem(items[i], keywords);
    if verdict.Throws? {
      return None;
    }
    KeptAmongNext(Verdicts(items, keywords), i, kept);
    if verdict.Kept? {
      return Some(kept + [verdict.article]);
    }
    return Some(kept);
  }

  /** The per-item loop that fills `allArticles`; a throw aborts it. */
  method CollectCandidates(items: seq<Item>, keywords: seq<string>) returns (articles: Option<seq<Article>>)
    ensures articles == Candidates(items, keywords)
  {
    hide Assess;
    var all: seq<Article> := [];
    for i := 0 to |items|
      invariant KeptAmong(Verdicts(items, keywords), i) == Some(all)
    {
      var next := Visit(items, keywords, i, all);
      if next.None? {
        KeptAmongStaysFailed(Verdicts(items, keywords), i + 1, |items|);
        return None;
      }
      all := next.value;
    }
    return Some(all);
  }

  // ---------------------------------------------------------------------------
  // Ordering: `sort((a, b) => b.score - a.score)`, which is stable

  predicate ByScore(s: seq<Article>) {
    forall i, j :: 0 <= i < j < |s| ==> s[i].score >= s[j].score
  }

  /** Inserts `x` in front of the first article that does not outscore it. */
  function Insert(x: Article, r: seq<Article>): (t: seq<Article>)
    ensures |t| == |r| + 1
  {
    if r == [] || x.score >= r[0].score then [x] + r
    else [r[0]] + Insert(x, r[1..])
  }

  lemma {:induction false} InsertPermutes(x: Article, r: seq<Article>)
    ensures multiset(Insert(x, r)) == multiset(r) + multiset{x}
  {
    if r != [] && x.score < r[0].score {
      InsertPermutes(x, r[1..]);
      assert r == [r[0]] + r[1..];
    }
  }

  /** The order the sort leaves the articles in: highest score first, ties in input order. */
  function ScoreOrder(s: seq<Article>): (t: seq<Article>)
    ensures |t| == |s|
  {
    if s == [] then [] else Insert(s[0], ScoreOrder(s[1..]))
  }

  /** Sorting neither loses nor duplicates an article. */
  lemma {:induction false} ScoreOrderPermutes(s: seq<Article>)
    ensures multiset(ScoreOrder(s)) == multiset(s)
  {
    if s != [] {
      ScoreOrderPermutes(s[1..]);
      InsertPermutes(s[0], ScoreOrder(s[1..]));
      assert s == [s[0]] + s[1..];
    }
  }

  lemma {:induction false} InsertByScore(x: Article, r: seq<Article>)
    requires ByScore(r)
    ensures ByScore(Insert(x, r))
  {
    if r != [] && x.score < r[0].score {
      InsertByScore(x, r[1..]);
      var t := Insert(x, r[1..]);
      InsertPermutes(x, r[1..]);
      forall k | 0 <= k < |t|
        ensures r[0].score >= t[k].score
      {
        assert t[k] in multiset(r[1..]) + multiset{x};
        if t[k] in multiset(r[1..]) {
          var m :| 0 <= m < |r[1..]| && r[1..][m] == t[k];
          assert r[m + 1] == t[k];
        }
      }
    }
  }

  /** The sorted articles run from the highest score to the lowest. */
  lemma {:induction false} ScoreOrderByScore(s: seq<Article>)
    ensures ByScore(ScoreOrder(s))
  {
    if s != [] {
      ScoreOrderByScore(s[1..]);
      InsertByScore(s[0], ScoreOrder(s[1..]));
    }
  }

  /** The articles of `s` that have score `v`, in order. */
  function WithScore(s: seq<Article>, v: real): (t: seq<Article>)
    ensures |t| <= |s|
  {
    if s == [] then [] else (if s[0].score == v then [s[0]] else []) + WithScore(s[1..], v)
  }

  lemma {:induction false} InsertWithScore(x: Article, r: seq<Article>, v: real)
    requires forall k :: 0 <= k < |r| && r[k].score == v ==> x.score >= v
    ensures WithScore(Insert(x, r), v) == WithScore([x] + r, v)
  {
    if r != [] && x.score < r[0].score {
      var t := Insert(x, r[1..]);
      assert forall k :: 0 <= k < |r[1..]| ==> r[1..][k] == r[k + 1];
      InsertWithScore(x, r[1..], v);
      assert Insert(x, r) == [r[0]] + t;
      assert ([r[0]] + t)[1..] == t;
      assert ([x] + r)[1..] == r;
      assert ([x] + r[1..])[1..] == r[1..];
      if x.score == v {
        assert r[0].score != v;
      }
    }
  }

  /** Among equally scored articles the sort keeps the input order: it is stable. */
  lemma {:induction false} ScoreOrderStable(s: seq<Article>, v: real)
    ensures WithScore(ScoreOrder(s), v) == WithScore(s, v)
  {
    if s != [] {
      var r := ScoreOrder(s[1..]);
      ScoreOrderStable(s[1..], v);
      if s[0].score == v {
        ScoreOrderByScore(s[1..]);
        forall k | 0 <= k < |r| && r[k].score == v
          ensures s[0].score >= v
        {
        }
      } else {
        WithScoreAbsent(r, v, s[0]);
      }
      if s[0].score == v {
        InsertWithScore(s[0], r, v);
      }
      assert ([s[0]] + r)[1..] == r;
    }
  }

  lemma {:induction false} WithScoreAbsent(r: seq<Article>, v: real, x: Article)
    requires x.score != v
    ensures WithScore(Insert(x, r), v) == WithScore(r, v)
  {
    if r != [] && x.score < r[0].score {
      WithScoreAbsent(r[1..], v, x);
      assert ([r[0]] + Insert(x, r[1..]))[1..] == Insert(x, r[1..]);
    }
  }

  /** `Insert` passes over a run of articles that outscore `x` and stops at the first that does not. */
  lemma {:induction false} InsertAfterRun(x: Article, r: seq<Article>, m: nat)
    requires m <= |r| && (m == |r| || r[m].score <= x.score)
    requires forall k :: 0 <= k < m ==> r[k].score > x.score
    ensures Insert(x, r) == r[..m] + [x] + r[m..]
  {
    if m > 0 {
      InsertAfterRun(x, r[1..], m - 1);
      assert r[..m] == [r[0]] + r[1..][..m - 1];
    }
  }

  /** The array during `InsertDown`: the untouched prefix, then `r` with `x` placed at offset `m`. */
  function Placed(p: seq<Article>, r: seq<Article>, x: Article, m: nat): seq<Article>
    requires m <= |r|
  {
    p + r[..m] + [x] + r[m..]
  }

  /** Exchanging `x` with its right neighbour moves it one place along `r`. */
  lemma PlacedSwap(p: seq<Article>, r: seq<Article>, x: Article, m: nat)
    requires m < |r|
    ensures Placed(p, r, x, m)[|p| + m + 1] == r[m]
    ensures Placed(p, r, x, m)[|p| + m := r[m]][|p| + m + 1 := x] == Placed(p, r, x, m + 1)
  {
    var s := Placed(p, r, x, m);
    var t := Placed(p, r, x, m + 1);
    assert |s| == |t|;
    forall k | 0 <= k < |s|
      ensures s[|p| + m := r[m]][|p| + m + 1 := x][k] == t[k]
    {
      if k < |p| + m {
      } else if k > |p| + m + 1 {
        assert s[k] == r[k - |p| - 1] == t[k];
      }
    }
  }

  lemma PlacedStart(s: seq<Article>, i: nat)
    requires i < |s|
    ensures s == Placed(s[..i], s[i + 1..], s[i], 0)
  {
    assert s == s[..i] + [s[i]] + s[i + 1..];
  }

  /** Once nothing after `x` outscores it, `x` sits where `Insert` puts it. */
  lemma PlacedDone(p: seq<Article>, r: seq<Article>, x: Article, m: nat)
    requires m <= |r| && (m == |r| || r[m].score <= x.score)
    requires forall k :: 0 <= k < m ==> r[k].score > x.score
    ensures Placed(p, r, x, m) == p + Insert(x, r)
  {
    InsertAfterRun(x, r, m);
  }

  /** `allArticles.sort(...)` in place: an insertion sort from the right. */
  method SortByScore(a: array<Article>)
    modifies a
    ensures a[..] == ScoreOrder(old(a[..]))
  {
    ghost var s0 := a[..];
    var i := a.Length;
    assert a[..] == s0[..i] + ScoreOrder(s0[i..]);
    while i > 0
      invariant 0 <= i <= a.Length
      invariant a[..] == s0[..i] + ScoreOrder(s0[i..])
    {
      i := i - 1;
      assert s0[i..] == [s0[i]] + s0[i + 1..];
      assert s0[..i + 1] == s0[..i] + [s0[i]];
      assert a[..i] == s0[..i] && a[i] == s0[i] && a[i + 1..] == ScoreOrder(s0[i + 1..]);
      InsertDown(a, i);
    }
    assert s0[0..] == s0;
  }

  /** Moves `a[i]` right past every article that outscores it, into the sorted run after it. */
  method InsertDown(a: array<Article>, i: nat)
    requires i < a.Length
    modifies a
    ensures a[..] == old(a[..i]) + Insert(old(a[i]), old(a[i + 1..]))
  {
    hide Placed, Insert;
    ghost var p := a[..i];
    var x := a[i];
    ghost var r := a[i + 1..];
    PlacedStart(a[..], i);
    var j := i;
    while j + 1 < a.Length && a[j + 1].score > x.score
      invariant i <= j < a.Length && |p| == i && |r| == a.Length - i - 1
      invariant a[..] == Placed(p, r, x, j - i)
      invariant forall k :: 0 <= k < j - i ==> r[k].score > x.score
    {
      PlacedSwap(p, r, x, j - i);
      a[j], a[j + 1] := a[j + 1], x;
      j := j + 1;
    }
    if j + 1 < a.Length {
      PlacedSwap(p, r, x, j - i);
    }
    PlacedDone(p, r, x, j - i);
  }

  // ---------------------------------------------------------------------------
  // The top articles

  /** The top of the sorted list: at most twenty articles, best first. */
  function TopArticles(candidates: seq<Article>): (top: seq<Article>)
    ensures |top| == Min(MaxArticles, |candidates|)
  {
    ScoreOrder(candidates)[..Min(MaxArticles, |candidates|)]
  }

  /**
   * The top articles are sorted by score, all come from the candidates, and
   * no candidate left out scores above any article that made it in.
   */
  lemma TopArticlesAreBest(candidates: seq<Article>)
    ensures ByScore(TopArticles(candidates))
    ensures multiset(TopArticles(candidates)) <= multiset(candidates)
    ensures forall a, t :: a in candidates && a !in TopArticles(candidates) && t in TopArticles(candidates) ==> a.score <= t.score
  {
    hide ScoreOrder;
    var sorted := ScoreOrder(candidates);
    var n := Min(MaxArticles, |candidates|);
    var top := sorted[..n];
    ScoreOrderByScore(candidates);
    ScoreOrderPermutes(candidates);
    assert sorted == top + sorted[n..];
    assert multiset(sorted) == multiset(top) + multiset(sorted[n..]);
    PrefixBest(sorted, n);
    assert forall a :: a in candidates ==> a in sorted by {
      forall a | a in candidates ensures a in sorted {
        assert a in multiset(candidates);
      }
    }
  }

  /** In a list sorted by score, nothing after position `n` outscores anything before it. */
  lemma PrefixBest(sorted: seq<Article>, n: nat)
    requires ByScore(sorted) && n <= |sorted|
    ensures forall a, t :: a in sorted && a !in sorted[..n] && t in sorted[..n] ==> a.score <= t.score
  {
    forall a, t | a in sorted && a !in sorted[..n] && t in sorted[..n]
      ensures a.score <= t.score
    {
      var ia :| 0 <= ia < |sorted| && sorted[ia] == a;
      var it :| 0 <= it < n && sorted[..n][it] == t;
      assert forall k :: 0 <= k < n ==> sorted[..n][k] == sorted[k];
    }
  }

  // ---------------------------------------------------------------------------
  // Themes and brief

  datatype Theme = Theme(title: string, url: string)

  /** The first six top articles as title/link pairs. */
  function Themes(top: seq<Article>): (themes: seq<Theme>)
    ensures |themes| == Min(MaxThemes, |top|)
    ensures forall i :: 0 <= i < |themes| ==> themes[i] == Theme(top[i].title, top[i].url)
  {
    var n := Min(MaxThemes, |top|);
    seq(n, i requires 0 <= i < n => Theme(top[i].title, top[i].url))
  }

  predicate IsSentenceEnd(c: char) {
    c == '.' || c == '!' || c == '?'
  }

  /** The index of the first sentence end in `s`, or `|s|`. */
  function SentenceEnd(s: string): (k: nat)
    ensures k <= |s|
    ensures k < |s| ==> IsSentenceEnd(s[k])
    ensures forall i :: 0 <= i < k ==> !IsSentenceEnd(s[i])
  {
    if s == [] || IsSentenceEnd(s[0]) then 0 else 1 + SentenceEnd(s[1..])
  }

  /** Drops a leading run of sentence ends. */
  function SkipEnds(s: string): (r: string)
    ensures |r| <= |s| && r == s[|s| - |r|..]
    ensures r != [] ==> !IsSentenceEnd(r[0])
  {
    if s != [] && IsSentenceEnd(s[0]) then SkipEnds(s[1..]) else s
  }

  /**
   * `s.split(/[.!?]+/)`: the pieces between maximal runs of `.`, `!` and
   * `?`, with an empty first or last piece when `s` starts or ends with one.
   */
  function SplitSentences(s: string): (parts: seq<string>)
    ensures |parts| >= 1
    ensures forall p, c :: p in parts && c in p ==> !IsSentenceEnd(c)
    decreases |s|
  {
    var k := SentenceEnd(s);
    if k == |s| then [s]
    else [s[..k]] + SplitSentences(SkipEnds(s[k + 1..]))
  }

  /** A text without sentence ends is a single piece. */
  lemma SplitWithoutEnds(s: string)
    requires forall c :: c in s ==> !IsSentenceEnd(c)
    ensures SplitSentences(s) == [s]
  {
  }

  /** Skipping a run of sentence ends lands on what follows the run. */
  lemma {:induction false} SkipRun(run: string, rest: string)
    requires forall c :: c in run ==> IsSentenceEnd(c)
    requires rest == [] || !IsSentenceEnd(rest[0])
    ensures SkipEnds(run + rest) == rest
  {
    if run != [] {
      assert run[0] in run;
      assert (run + rest)[1..] == run[1..] + rest;
      SkipRun(run[1..], rest);
    } else {
      assert run + rest == rest;
    }
  }

  /**
   * A piece without sentence ends, followed by a run of them, is the first
   * piece of the split; the split goes on with the text after the run.
   */
  lemma {:induction false} SplitFirst(piece: string, run: string, rest: string)
    requires forall c :: c in piece ==> !IsSentenceEnd(c)
    requires run != [] && forall c :: c in run ==> IsSentenceEnd(c)
    requires rest == [] || !IsSentenceEnd(rest[0])
    ensures SplitSentences(piece + run + rest) == [piece] + SplitSentences(rest)
  {
    var s := piece + run + rest;
    var k := SentenceEnd(s);
    assert k == |piece| by {
      forall i | 0 <= i < |piece|
        ensures !IsSentenceEnd(s[i])
      {
        assert s[i] == piece[i] && piece[i] in piece;
      }
      assert s[|piece|] == run[0] && run[0] in run;
    }
    assert s[..k] == piece;
    assert s[k + 1..] == run[1..] + rest;
    SkipRun(run[1..], rest);
  }

  /** `.map(s => s.trim()).filter(s => s.length > 40 && s.length < 300)`. */
  function Usable(parts: seq<string>): (r: seq<string>)
    ensures |r| <= |parts|
    ensures forall x :: x in r ==> 40 < Utf16Length(x) < 300
  {
    if parts == [] then []
    else
      var t := Trim(parts[0]);
      (if 40 < Utf16Length(t) < 300 then [t] else []) + Usable(parts[1..])
  }

  /** The sentences of an article's content usable for the brief. */
  function Sentences(content: string): seq<string> {
    Usable(SplitSentences(content))
  }

  /** `sentences.slice(0, 2).join('. ') + '.'`. */
  function Paragraph(content: string): (p: string)
    ensures p != [] && p[|p| - 1] == '.'
  {
    var s := Sentences(content);
    Join(s[..Min(2, |s|)], ". ") + "."
  }

  /**
   * A paragraph survives the `length > 50` filter exactly when the content
   * has at least two usable sentences, or one of at least fifty code units.
   */
  lemma ParagraphKept(content: string)
    ensures Utf16Length(Paragraph(content)) > 50 <==>
      var s := Sentences(content); |s| >= 2 || (|s| == 1 && Utf16Length(s[0]) >= 50)
  {
    var s := Sentences(content);
    if |s| >= 2 {
      var two := s[..2];
      assert Join(two, ". ") == s[0] + ". " + s[1];
      assert s[0] in s && s[1] in s;
      Utf16LengthAppend(s[0] + ". " + s[1], ".");
      Utf16LengthAppend(s[0] + ". ", s[1]);
      Utf16LengthAppend(s[0], ". ");
    } else if |s| == 1 {
      assert s[..1] == [s[0]];
      Utf16LengthAppend(s[0], ".");
    } else {
      assert Paragraph(content) == ".";
    }
  }

  /** The paragraphs longer than fifty code units, one per article at most, in article order. */
  function Paragraphs(top: seq<Article>): (ps: seq<string>)
    ensures |ps| <= |top|
    ensures forall p :: p in ps ==> Utf16Length(p) > 50
  {
    if top == [] then []
    else
      var p := Paragraph(top[0].content);
      (if Utf16Length(p) > 50 then [p] else []) + Paragraphs(top[1..])
  }

  /**
   * The brief: the kept paragraphs of the first eight articles, or a
   * fallback sentence naming the topic. It is never empty, and otherwise
   * opens with the first kept paragraph.
   */
  function BriefText(topic: string, top: seq<Article>): (brief: string)
    ensures brief != []
    ensures var ps := Paragraphs(top[..Min(MaxParagraphs, |top|)]);
      && (ps == [] ==> brief == "Recent " + topic + " updates from security industry sources.")
      && (ps != [] ==> |ps[0]| <= |brief| && brief[..|ps[0]|] == ps[0])
  {
    var ps := Paragraphs(top[..Min(MaxParagraphs, |top|)]);
    if ps != [] then
      assert ps[0] in ps;
      Join(ps, "\n\n")
    else "Recent " + topic + " updates from security industry sources."
  }

  // ---------------------------------------------------------------------------
  // The request

  datatype FeedsResponse =
    | Briefing(topic: string, articleCount: nat, themes: seq<Theme>, brief: string)
      /** The catch-all `{ success: false, fallback: true }` answer. */
    | Failure

  function NoArticlesBrief(topic: string): string {
    "No recent articles found for " + topic + ". Please try again later."
  }

  /**
   * The answer for the top articles: it reports the topic, the article
   * count, one theme per article up to six and a non-empty brief; with no
   * article it is the "No recent articles found" answer.
   */
  function Respond(topic: string, top: seq<Article>): (r: FeedsResponse)
    ensures r.Briefing? && r.topic == topic && r.articleCount == |top|
    ensures |r.themes| == Min(MaxThemes, |top|) && r.brief != []
    ensures top == [] <==> r.brief == NoArticlesBrief(topic) && r.themes == []
  {
    if top == [] then Briefing(topic, 0, [], NoArticlesBrief(topic))
    else Briefing(topic, |top|, Themes(top), BriefText(topic, top))
  }

  /**
   * Scoring, ranking and answering for a topic's keywords and gathered
   * items: it fails when the loop throws, and a briefing reports the topic,
   * at most twenty articles, one theme per top article up to six and a
   * non-empty brief.
   */
  function Answer(topic: string, keywords: seq<string>, items: seq<Item>): (r: FeedsResponse)
    ensures r.Failure? <==> Candidates(items, keywords).None?
    ensures r.Briefing? ==>
      && r.topic == topic
      && r.articleCount <= MaxArticles
      && |r.themes| == Min(MaxThemes, r.articleCount)
      && r.brief != []
  {
    match Candidates(items, keywords)
    case None => Failure
    case Some(candidates) => Respond(topic, TopArticles(candidates))
  }

  /**
   * The whole request as a function of the topic parameter and what each
   * feed URL yields. A topic naming an inherited property fails; a
   * successful answer reports the requested topic, at most twenty
   * articles, one theme per top article up to six and a non-empty brief.
   */
  function FeedsResult(param: Option<string>, fetch: string -> FeedOutcome): (r: FeedsResponse)
    ensures UrlsFor(TopicOf(param)).None? ==> r.Failure?
    ensures r.Briefing? ==>
      && r.topic == TopicOf(param)
      && r.articleCount <= MaxArticles
      && |r.themes| == Min(MaxThemes, r.articleCount)
      && r.brief != []
  {
    var topic := TopicOf(param);
    match UrlsFor(topic)
    case None => Failure
    case Some(urls) => Answer(topic, KeywordsFor(topic), Gather(urls, fetch))
  }

  /** Copies the candidates into an array, sorts it in place and keeps the first twenty. */
  method Rank(found: seq<Article>) returns (top: seq<Article>)
    ensures top == TopArticles(found)
  {
    var all := new Article[|found|](i requires 0 <= i < |found| => found[i]);
    assert all[..] == found;
    SortByScore(all);
    top := all[..Min(MaxArticles, all.Length)];
  }

  /** `GET /api/feeds`. */
  method Get(param: Option<string>, fetch: string -> FeedOutcome) returns (response: FeedsResponse)
    ensures response == FeedsResult(param, fetch)
  {
    hide Assess, CleanHtml, KeywordsFor, FeedUrls;
    var topic := TopicOf(param);
    var urls := UrlsFor(topic);
    if urls.None? {
      return Failure;
    }
    var items := Gather(urls.value, fetch);
    var candidates := CollectCandidates(items, KeywordsFor(topic));
    if candidates.None? {
      return Failure;
    }
    var top := Rank(candidates.value);
    response := Respond(topic, top);
  }

  /**
   * When no feed of the topic can be fetched, the answer is the empty
   * briefing, unless the topic names an inherited property and fails first.
   */
  lemma FeedsUnreachable(param: Option<string>, fetch: string -> FeedOutcome)
    requires match UrlsFor(TopicOf(param))
      case Some(urls) => forall u :: u in urls ==> fetch(u).Failed?
      case None => true
    ensures FeedsResult(param, fetch) ==
      if TopicOf(param) in InheritedNames then Failure
      else Briefing(TopicOf(param), 0, [], NoArticlesBrief(TopicOf(param)))
  {
    hide Assess, CleanHtml, KeywordsFor, FeedUrls;
    InheritedTopicsFail(TopicOf(param));
    var urls := UrlsFor(TopicOf(param));
    if urls.Some? {
      GatherAllFailed(urls.value, fetch);
    }
  }

  /** The candidates fail exactly when some item has a title or content that is not a string. */
  lemma CandidatesFail(items: seq<Item>, keywords: seq<string>)
    ensures Candidates(items, keywords).None? <==>
      exists i :: 0 <= i < |items| &&
        (TextOr(items[i].title).None? || TextOr(Or(items[i].contentSnippet, items[i].content)).None?)
  {
    CandidatesChar(items, keywords);
    if i :| 0 <= i < |items| && Assess(items[i], keywords).Throws? {
      assert TextOr(items[i].title).None? || TextOr(Or(items[i].contentSnippet, items[i].content)).None?;
    }
    if i :| 0 <= i < |items| && (TextOr(items[i].title).None? || TextOr(Or(items[i].contentSnippet, items[i].content)).None?) {
      assert Assess(items[i], keywords).Throws?;
    }
  }

  /**
   * The answer fails exactly when the topic names an inherited property or
   * some gathered item has a title or content that is not a string.
   */
  lemma FeedsFailure(param: Option<string>, fetch: string -> FeedOutcome, items: seq<Item>)
    requires items == match UrlsFor(TopicOf(param)) case Some(urls) => Gather(urls, fetch) case None => []
    ensures FeedsResult(param, fetch).Failure? <==>
      || TopicOf(param) in InheritedNames
      || (exists i :: 0 <= i < |items| &&
            (TextOr(items[i].title).None? || TextOr(Or(items[i].contentSnippet, items[i].content)).None?))
  {
    hide Assess, CleanHtml, KeywordsFor, FeedUrls;
    var topic := TopicOf(param);
    InheritedTopicsFail(topic);
    if topic !in InheritedNames {
      CandidatesFail(items, KeywordsFor(topic));
    }
  }
}
