/**
 * What the feeds and counts routes agree on: both run the same `cleanHTML`
 * pipeline and the same keyword table, so an item that the counts route
 * counts for a topic is one the feeds route keeps for it, as long as its
 * cleaned title is long enough for the feeds route's title filter.
 */
module Routes {
  import opened Js
  import opened Text
  import opened FeedSource
  import Feeds
  import Counts

  /**
   * An item whose title and content are strings, whose cleaned title is
   * longer than five code units and that the counts route counts, is kept
   * by the feeds route.
   */
  lemma CountedIsKept(item: Item, keywords: seq<string>, rawTitle: string, rawContent: string)
    requires TextOr(item.title) == Some(rawTitle)
    requires TextOr(Or(item.contentSnippet, item.content)) == Some(rawContent)
    requires Utf16Length(CleanHtml(rawTitle)) > 5
    requires Counts.Matches(item, keywords) == Some(true)
    ensures Feeds.Assess(item, keywords).Kept?
  {
    hide CleanHtml, Counts.Matches, Feeds.Assess;
    Counts.MatchesChar(item, keywords, rawTitle);
    Feeds.AssessKeeps(item, keywords, rawTitle, rawContent);
  }

  /**
   * A title the counts route rejects can still be kept by the feeds route,
   * but only through its content or its recency, never through its title.
   */
  lemma UncountedKeptByOtherMeans(item: Item, keywords: seq<string>, rawTitle: string, rawContent: string)
    requires TextOr(item.title) == Some(rawTitle)
    requires TextOr(Or(item.contentSnippet, item.content)) == Some(rawContent)
    requires Counts.Matches(item, keywords) == Some(false)
    requires Feeds.Assess(item, keywords).Kept?
    ensures (exists k :: k in keywords && Contains(Lower(CleanHtml(rawContent)), k))
      || (item.date.AgeDays? && item.date.days < 30.0)
  {
    hide CleanHtml, Counts.Matches, Feeds.Assess;
    Counts.MatchesChar(item, keywords, rawTitle);
    Feeds.AssessKeeps(item, keywords, rawTitle, rawContent);
  }
}
