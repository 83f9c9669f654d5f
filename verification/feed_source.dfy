/**
 * What the feeds and counts routes share: the parsed feed item, the outcome
 * of fetching one feed, the merge of a topic's feeds into one item list,
 * the topic keyword table and keyword matching.
 */
module FeedSource {
  import opened Js
  import opened Text

  /**
   * The publication date as the scorer sees it: absent (neither `pubDate`
   * nor `isoDate` is set), present but not a date (`getTime()` is NaN, so
   * every comparison with it is false), or an age in days relative to the
   * current time (negative for a date in the future).
   */
  datatype PubDate = NoDate | Unparseable | AgeDays(days: real)

  /** One entry of a parsed feed, with the fields the routes read. */
  datatype Item = Item(
    title: Value,
    contentSnippet: Value,
    content: Value,
    link: Option<string>,
    date: PubDate)

  /** Fetching and parsing one feed URL: its entries, or any failure (network, timeout, parse). */
  datatype FeedOutcome = Parsed(items: seq<Item>) | Failed

  const ItemsPerFeed: nat := 20

  /** `feed.items.slice(0, 20)` on success, `[]` on failure. */
  function FeedItems(outcome: FeedOutcome): (items: seq<Item>)
    ensures |items| <= ItemsPerFeed
    ensures outcome.Parsed? ==> |items| <= |outcome.items| && items == outcome.items[..|items|]
    ensures outcome.Parsed? && |outcome.items| >= ItemsPerFeed ==> |items| == ItemsPerFeed
    ensures outcome.Failed? ==> items == []
  {
    match outcome
    case Parsed(all) => if |all| <= ItemsPerFeed then all else all[..ItemsPerFeed]
    case Failed => []
  }

  /**
   * Fetches every URL and concatenates what each contributed, in URL order
   * (the `Promise.all` fan-out keeps the order of its inputs).
   */
  function Gather(urls: seq<string>, fetch: string -> FeedOutcome): (items: seq<Item>)
    ensures |items| <= ItemsPerFeed * |urls|
  {
    if urls == [] then []
    else Gather(urls[..|urls| - 1], fetch) + FeedItems(fetch(urls[|urls| - 1]))
  }

  lemma {:induction false} GatherAllFailed(urls: seq<string>, fetch: string -> FeedOutcome)
    requires forall u :: u in urls ==> fetch(u).Failed?
    ensures Gather(urls, fetch) == []
  {
    if urls != [] {
      GatherAllFailed(urls[..|urls| - 1], fetch);
    }
  }

  /** The keyword lists per topic (identical in the feeds and counts routes). */
  function TopicKeywords(): map<string, seq<string>> {
    map[
    "Cloud Security" := ["cloud", "aws", "azure", "gcp", "google cloud", "kubernetes", "container", "saas", "serverless", "lambda"],
    "Hardware Security" := ["hardware", "firmware", "chip", "processor", "tpm", "hsm", "device", "iot", "embedded", "silicon"],
    "Infrastructure" := ["network", "infrastructure", "server", "breach", "attack", "vulnerability", "exploit", "penetration", "firewall", "vpn"],
    "Malware Research" := ["malware", "ransomware", "trojan", "virus", "threat", "exploit", "phishing", "botnet", "backdoor", "payload"],
    "Government Alerts" := ["cisa", "cert", "government", "advisory", "cve", "alert", "nist", "fbi", "dhs", "federal"],
    "Zero Trust" := ["zero trust", "ztna", "least privilege", "microsegmentation", "identity", "authentication", "authorization"],
    "Container Security" := ["container", "docker", "kubernetes", "k8s", "pod", "orchestration", "containerization"],
    "TPM/HSM" := ["tpm", "hsm", "hardware security module", "trusted platform module", "secure enclave", "hardware"],
    "DevSecOps" := ["devsecops", "devops", "ci/cd", "pipeline", "shift left", "automation", "development"],
    "Compliance" := ["compliance", "gdpr", "hipaa", "sox", "pci", "regulation", "audit", "regulatory"]
    ]
  }

  /** `topicKeywords[topic] || [topic.toLowerCase()]`. */
  function KeywordsFor(topic: string): (keywords: seq<string>)
    ensures topic in TopicKeywords() ==> keywords == TopicKeywords()[topic]
    ensures topic !in TopicKeywords() ==> keywords == [Lower(topic)]
  {
    if topic in TopicKeywords() then TopicKeywords()[topic] else [Lower(topic)]
  }

  /** How many entries of `keywords` occur in `text` (a keyword listed twice counts twice). */
  function Hits(text: string, keywords: seq<string>): (n: nat)
    ensures n <= |keywords|
  {
    if keywords == [] then 0
    else Hits(text, keywords[..|keywords| - 1]) + (if Contains(text, keywords[|keywords| - 1]) then 1 else 0)
  }

  /** Some keyword is hit exactly when some keyword occurs in the text. */
  lemma {:induction false} HitsPositive(text: string, keywords: seq<string>)
    ensures Hits(text, keywords) > 0 <==> exists k :: k in keywords && Contains(text, k)
  {
    if keywords != [] {
      var init, last := keywords[..|keywords| - 1], keywords[|keywords| - 1];
      HitsPositive(text, init);
      assert forall k :: k in keywords <==> k in init || k == last by {
        assert keywords == init + [last];
      }
      if Contains(text, last) {
        assert last in keywords;
      }
    }
  }

  /** A text that contains every keyword another text contains has at least as many hits. */
  lemma {:induction false} HitsMonotone(t1: string, t2: string, keywords: seq<string>)
    requires forall k :: k in keywords && Contains(t1, k) ==> Contains(t2, k)
    ensures Hits(t1, keywords) <= Hits(t2, keywords)
  {
    if keywords != [] {
      var init := keywords[..|keywords| - 1];
      assert forall k :: k in init ==> k in keywords;
      HitsMonotone(t1, t2, init);
    }
  }

  /** A text containing every keyword hits all of them. */
  lemma {:induction false} HitsAll(text: string, keywords: seq<string>)
    requires forall k :: k in keywords ==> Contains(text, k)
    ensures Hits(text, keywords) == |keywords|
  {
    if keywords != [] {
      HitsAll(text, keywords[..|keywords| - 1]);
    }
  }
}
