# security-recipes API routes in Dafny

This project models the server side of the security-recipes web application:
the four API routes that aggregate security RSS feeds and publish generated
recipes.

- `GET /api/feeds` (module `Feeds`). It gathers the feeds of a topic and
  cleans every item's title and content with the `cleanHTML` pipeline. It
  scores each item by keyword hits and recency, keeps the items that score
  above zero and have a title longer than five UTF-16 code units, and sorts them
  by score with a stable sort. From the twenty best it builds the themes
  list and a brief.
- `GET /api/counts` (module `Counts`). For every topic of its own feed table,
  it counts the items whose cleaned, lower-cased title mentions a topic
  keyword, capped at twenty. A topic whose processing throws gets zero.
- `POST /api/publish` (module `Publish`). It derives a slug, tags, a file name
  and a markdown body from the request. It writes the recipe file and puts
  an index entry at the head of the recipes index.
- `GET /api/validate-urls` (module `HealthCheck`). It probes eight sample
  URLs and reports how many answered 2xx/3xx, the rounded percentage and
  the failing results in order.

The shared parts live in three more modules:

- `Js`: JavaScript values and `a || b`.
- `Text`: character classes, ASCII lower-casing, global literal replacement
  and the whole `cleanHTML` pipeline. `TextExamples` holds worked inputs
  for it.
- `FeedSource`: feed items, per-feed outcomes, the merge of a topic's feeds,
  the keyword table and keyword hits.

`Routes` relates the feeds and counts routes to each other.

The form follows the source:

- Pure chains of `replace`/`map`/`filter`/`join` are functions.
- The loops that accumulate a score or a count, or push articles, are
  methods with loop invariants. They are proved equal to a specification
  function, such as `KeywordScore`, `CollectCandidates`, `CountMatches`
  and `Counts.Get`.
- `allArticles.sort` is an in-place insertion sort on an `array`, proved
  equal to the stable order `ScoreOrder`.
- The recipes directory is a class whose `Publish` method updates the index
  and the files.

Every outside dependency is a parameter:

- the network: `fetch: string -> FeedOutcome` and `probe: string -> Probe`;
- the clock: the ISO time strings, and an item's age in days as a `real`;
- the request: an `Option` of the parsed body.

Some consequences of the code that are easy to miss:

- Every length test is JavaScript's `.length`, which counts UTF-16 code
  units: a character outside the Basic Multilingual Plane counts twice.
- Paragraphs of the brief are kept only when longer than fifty code units
  (`> 50`), so a paragraph of exactly fifty is dropped too.
- `cleanHTML` strips tags before decoding entities. Markup written with
  entities therefore comes back as markup (`&lt;b&gt;` becomes `<b>`, and
  `&amp;lt;` becomes `<`, see `DoubleDecoding`). Cleaning does not remove
  all tag markup.
- A topic's count falls to zero through its inner `catch` only when
  `cleanHTML` throws on a title that is not a string. The keyword lookup
  reads the table's own topics and cannot throw.
- The counts route's outer `catch`, which answers a fixed five-topic zero
  map, cannot be reached (see "Left out").
- The feeds route reads `RSS_FEEDS[topic]` as a property of a plain object.
  A `topic` that names a property every object inherits (`constructor`,
  `toString`, `__proto__` and the like) reads a function or the prototype.
  `.map` then throws and the route answers its fallback failure.

## Model

| member | source | states |
|---|---|---|
| Js.Or | app/api/feeds/route.ts:105 | `a \|\| b` yields the first operand when it is truthy and the second otherwise |
| Js.TextOr | app/api/feeds/route.ts:104-105 | `v \|\| ''` read as text is absent exactly for a non-string value, on which `cleanHTML` throws; otherwise it is the string itself |
| Text.Lower | app/api/feeds/route.ts:106-107 | lower-casing keeps the length and lowers every character (ASCII letters only) |
| Text.Contains | app/api/feeds/route.ts:110-113 | `includes` holds iff the keyword occurs at some position of the text |
| Text.Join | app/api/feeds/route.ts:162 | joining nothing gives the empty string; a join starts with its first part, followed by the separator when there is a second part |
| Text.Utf16Length | app/api/feeds/route.ts:127 | `.length` counts at least one and at most two code units per character, exactly one each when all lie in the Basic Multilingual Plane |
| Text.Utf16LengthAppend | app/api/feeds/route.ts:162-163 | the length of a concatenation is the sum of the lengths |
| Text.ReplaceAll | app/api/feeds/route.ts:63-67 | replacing a pattern by a string no longer than itself never lengthens the text |
| Text.CloseEnd | app/api/feeds/route.ts:60-61 | the lazy `.*?<\/script>` match ends past the closing tag and inside the text |
| Text.BlockAt | app/api/feeds/route.ts:60-61 | a block matched at the start is non-empty and within the text |
| Text.RemoveBlocks | app/api/feeds/route.ts:60-61 | deleting script/style blocks never lengthens the text |
| Text.StripTags | app/api/feeds/route.ts:62 | replacing each tag by one space never lengthens the text |
| Text.StripTagsLeavesNoTag | app/api/feeds/route.ts:62 | after stripping, no tag starts anywhere; a `>` survives only if the input had one; empty iff the input was empty |
| Text.DecodeEntities | app/api/feeds/route.ts:63-67 | decoding the five entities in source order never lengthens the text |
| Text.TrimStart | app/api/feeds/route.ts:69 | drops exactly the leading whitespace: what is dropped is whitespace, and the rest does not start with whitespace |
| Text.TrimStartSuffix | app/api/feeds/route.ts:69 | trimming the front leaves a suffix of the input |
| Text.TrimEnd | app/api/feeds/route.ts:69 | drops exactly the trailing whitespace and leaves a prefix of the input |
| Text.Trim | app/api/feeds/route.ts:69 | `trim()` never lengthens the text |
| Text.CollapseSpaces | app/api/feeds/route.ts:68 | replacing whitespace runs by one space never lengthens the text |
| Text.CollapseSpacesShape | app/api/feeds/route.ts:68 | after collapsing there are no two adjacent whitespace characters and only plain spaces; empty iff the input was; the first character is whitespace iff it was |
| Text.TrimShape | app/api/feeds/route.ts:69 | trimming collapsed text leaves text with no whitespace at either end, none doubled, only plain spaces |
| Text.CleanHtml | app/api/feeds/route.ts:58-70 | the cleaned text is no longer than the input, has no leading or trailing whitespace, no two adjacent whitespace characters, and plain spaces only |
| TextExamples.RemoveBlocksNoOpening | app/api/feeds/route.ts:60-61 | text in which no `<` is followed by the block name's first letter loses no block |
| TextExamples.StripTagsPlainPrefix | app/api/feeds/route.ts:62 | a prefix without `<` passes tag stripping unchanged |
| TextExamples.ReplaceAllPlainPrefix | app/api/feeds/route.ts:63-67 | a prefix without the pattern's first character passes a replacement unchanged |
| TextExamples.ReplaceAllAbsent | app/api/feeds/route.ts:63-67 | text without the pattern's first character is left unchanged |
| TextExamples.ReplaceAllMissesAmpersand | app/api/feeds/route.ts:63-67 | an entity that does not match at the only `&` leaves the text unchanged |
| TextExamples.ReplaceAllSingle | app/api/feeds/route.ts:63-67 | a single occurrence of the pattern is replaced exactly once |
| TextExamples.CollapseSpacesFixed | app/api/feeds/route.ts:68 | text that already has single plain spaces is left unchanged by collapsing |
| TextExamples.TrimPadded | app/api/feeds/route.ts:69 | trimming one space on either side of a word gives the word |
| TextExamples.DoubleDecoding | app/api/feeds/route.ts:63-67 | `&amp;` is decoded before `&lt;`, so `&amp;lt;` between plain texts becomes `<` |
| TextExamples.DecodeSingleAmp | app/api/feeds/route.ts:63-67 | `&amp;` between plain texts decodes to one `&` |
| TextExamples.BoldPairMarkup | app/api/feeds/route.ts:62 | in `<b>u &amp; v</b>` only the two bold tags are markup, and stripping replaces each by a space |
| TextExamples.BoldPairDecoded | app/api/feeds/route.ts:63-67 | decoding the stripped bold pair turns `&amp;` into `&` |
| TextExamples.BoldPairSpaces | app/api/feeds/route.ts:68 | the decoded bold pair has single plain spaces only |
| TextExamples.CleanHtmlBoldPair | app/api/feeds/route.ts:58-70 | two plain words joined by `&amp;` in a bold tag clean to the words joined by ` & ` |
| TextExamples.CleanHtmlExample | app/api/feeds/route.ts:58-70 | `"<b>AWS &amp; Azure</b>"` cleans to `"AWS & Azure"` |
| FeedSource.FeedItems | app/api/feeds/route.ts:89-93 | a feed gives at most 20 items, a prefix of its entries, exactly 20 when it has that many, and none when fetching fails |
| FeedSource.Gather | app/api/feeds/route.ts:81-97 | the merged list has at most 20 items per URL |
| FeedSource.GatherAllFailed | app/api/feeds/route.ts:90-97 | when every feed fails the merged list is empty |
| FeedSource.KeywordsFor | app/api/feeds/route.ts:100 | a known topic reads its keyword list, any other topic the single keyword of its lower-cased name |
| FeedSource.Hits | app/api/feeds/route.ts:110-113 | the number of keyword hits is at most the number of keywords |
| FeedSource.HitsPositive | app/api/feeds/route.ts:110-113 | some keyword is hit iff some keyword occurs in the text |
| FeedSource.HitsMonotone | app/api/feeds/route.ts:110-113 | a text containing every keyword another contains has at least as many hits |
| FeedSource.HitsAll | app/api/feeds/route.ts:110-113 | a text containing every keyword hits all of them |
| Feeds.TopicOf | app/api/feeds/route.ts:74 | a missing or empty `topic` parameter selects "Cloud Security", any other is kept |
| Feeds.UrlsFor | app/api/feeds/route.ts:77-81 | a topic of the table reads its own feeds, which are never empty; another topic reads the default topic's feeds, unless it names an inherited property, where `.map` throws |
| Feeds.InheritedTopicsFail | app/api/feeds/route.ts:6-81 | no topic of the table is an inherited property name, so the lookup throws exactly for those names |
| Feeds.KeywordScore | app/api/feeds/route.ts:109-113 | the loop's score is 100 per keyword in the title plus 10 per keyword in the content, at most 110 per keyword |
| Feeds.KeywordPoints | app/api/feeds/route.ts:109-113 | the keyword score is at most 110 per keyword and positive iff some keyword occurs in the title or the content |
| Feeds.KeywordPointsExtend | app/api/feeds/route.ts:110-113 | one more keyword adds 100 if it is in the title and 10 if it is in the content, so it never lowers the score |
| Feeds.RecencyBoost | app/api/feeds/route.ts:116-125 | the boost is 0 without a usable date or at 30 days and older, above 20 under 30 days, and at most 200 for a non-negative age |
| Feeds.RecencyBoostNonIncreasing | app/api/feeds/route.ts:122-124 | a newer article never gets a smaller boost than an older one |
| Feeds.ScorePositive | app/api/feeds/route.ts:109-127 | the score is positive iff a keyword is hit in title or content or the article is under 30 days old |
| Feeds.LinkOf | app/api/feeds/route.ts:131 | the article's URL is the item's link, or `''` when it has none |
| Feeds.Judge | app/api/feeds/route.ts:127-134 | a kept article carries the cleaned title and content, the link or `''`, a positive score and a title longer than five UTF-16 code units |
| Feeds.JudgeKeeps | app/api/feeds/route.ts:106-134 | cleaned texts are kept iff the title is longer than five code units and a keyword occurs in title or content or the item is under 30 days old |
| Feeds.Assess | app/api/feeds/route.ts:103-134 | the callback throws iff the title or the content is not a string; a kept article is normalised text with a positive score, a long enough title and the item's link |
| Feeds.AssessKeeps | app/api/feeds/route.ts:103-134 | an item with string fields is kept iff its cleaned title is longer than five code units and a keyword or recency gives it a positive score |
| Feeds.AssessStrings | app/api/feeds/route.ts:104-105 | an item with string fields is judged on the cleaned title and on the cleaned `contentSnippet`, else `content` |
| Feeds.Verdicts | app/api/feeds/route.ts:103 | one verdict per item, in item order |
| Feeds.KeptAmong | app/api/feeds/route.ts:103-135 | the first n verdicts keep at most n articles |
| Feeds.Candidates | app/api/feeds/route.ts:78 | the candidate list holds at most one article per item |
| Feeds.KeptAmongChar | app/api/feeds/route.ts:103-135 | the first n verdicts fail iff one throws; otherwise they hold exactly the articles the verdicts keep |
| Feeds.CandidatesChar | app/api/feeds/route.ts:103-135 | the candidates fail iff some item throws; otherwise they are exactly the kept articles |
| Feeds.CandidatesScored | app/api/feeds/route.ts:127-134 | every candidate has a positive score and a title longer than five code units |
| Feeds.KeptAmongStaysFailed | app/api/feeds/route.ts:103-135 | a throw aborts the loop: no later item undoes it |
| Feeds.KeptAmongNext | app/api/feeds/route.ts:127-134 | an item that does not throw pushes its article, if kept, onto the list |
| Feeds.CandidatesFail | app/api/feeds/route.ts:104-105 | the candidates fail iff some item's title or content is not a string |
| Feeds.JudgeItem | app/api/feeds/route.ts:106-134 | the scoring of one item's cleaned texts agrees with `Judge` |
| Feeds.AssessItem | app/api/feeds/route.ts:103-134 | the callback on one item agrees with `Assess` |
| Feeds.Visit | app/api/feeds/route.ts:103-135 | one step of the loop extends the kept list exactly as `KeptAmong` does |
| Feeds.CollectCandidates | app/api/feeds/route.ts:103-135 | the `forEach` loop builds exactly `Candidates` |
| Feeds.Insert | app/api/feeds/route.ts:137 | inserting adds exactly one article |
| Feeds.InsertPermutes | app/api/feeds/route.ts:137 | inserting adds the article and loses none |
| Feeds.ScoreOrder | app/api/feeds/route.ts:137 | sorting keeps the length |
| Feeds.ScoreOrderPermutes | app/api/feeds/route.ts:137 | sorting neither loses nor duplicates an article |
| Feeds.InsertByScore | app/api/feeds/route.ts:137 | inserting into a list sorted by score keeps it sorted |
| Feeds.ScoreOrderByScore | app/api/feeds/route.ts:137 | the sorted list runs from the highest score to the lowest |
| Feeds.WithScore | app/api/feeds/route.ts:137 | the articles of one score form a sub-list |
| Feeds.InsertWithScore | app/api/feeds/route.ts:137 | inserting an article ahead of equal scores keeps it first among them |
| Feeds.WithScoreAbsent | app/api/feeds/route.ts:137 | inserting an article of another score does not disturb a score class |
| Feeds.ScoreOrderStable | app/api/feeds/route.ts:137 | among equally scored articles the sort keeps the input order (stable sort) |
| Feeds.InsertAfterRun | app/api/feeds/route.ts:137 | insertion passes the run of higher-scored articles and stops at the first that is not |
| Feeds.InsertDown | app/api/feeds/route.ts:137 | moving one article right into the sorted run after it gives `Insert` on that run, in place |
| Feeds.SortByScore | app/api/feeds/route.ts:137 | the in-place sort leaves the array in `ScoreOrder` of its old contents |
| Feeds.TopArticles | app/api/feeds/route.ts:138 | the top list has min(20, n) articles |
| Feeds.TopArticlesAreBest | app/api/feeds/route.ts:137-138 | the top list is sorted by score, drawn from the candidates, and no left-out candidate outscores an article in it |
| Feeds.PrefixBest | app/api/feeds/route.ts:137-138 | in a score-sorted list nothing after a prefix outscores anything in it |
| Feeds.Rank | app/api/feeds/route.ts:137-138 | copying into an array, sorting in place and slicing gives `TopArticles` |
| Feeds.Themes | app/api/feeds/route.ts:150-153 | the themes are the first min(6, n) title/url pairs in rank order |
| Feeds.SentenceEnd | app/api/feeds/route.ts:158 | finds the first `.`, `!` or `?` |
| Feeds.SkipEnds | app/api/feeds/route.ts:158 | skipping a run of sentence ends leaves a suffix that does not start with one |
| Feeds.SplitSentences | app/api/feeds/route.ts:158 | `split(/[.!?]+/)` yields at least one piece and no piece holds a sentence end |
| Feeds.SplitWithoutEnds | app/api/feeds/route.ts:158 | a text without sentence ends is one piece |
| Feeds.SkipRun | app/api/feeds/route.ts:158 | a run of sentence ends is skipped up to what follows it |
| Feeds.SplitFirst | app/api/feeds/route.ts:158 | a piece followed by a run of ends is the first piece; the split continues after the run |
| Feeds.Usable | app/api/feeds/route.ts:159-160 | only trimmed sentences whose length is strictly between 40 and 300 code units survive |
| Feeds.Paragraph | app/api/feeds/route.ts:162 | an article's paragraph always ends with `.` |
| Feeds.ParagraphKept | app/api/feeds/route.ts:157-163 | the paragraph is longer than 50 code units iff there are two usable sentences or one of at least 50 (so no usable sentence means dropped) |
| Feeds.Paragraphs | app/api/feeds/route.ts:156-163 | at most one paragraph per article, each longer than 50 code units |
| Feeds.BriefText | app/api/feeds/route.ts:165-167 | the brief is never empty: it is the `Recent <topic> updates…` fallback when no paragraph survives, and otherwise starts with the first kept paragraph |
| Feeds.Get | app/api/feeds/route.ts:72-183 | the route's answer is `FeedsResult` of the topic parameter and the feeds |
| Feeds.Respond | app/api/feeds/route.ts:140-175 | an answer reports the topic, the article count, min(6, n) themes and a non-empty brief; it is the "No recent articles found" answer with no themes iff there are no top articles |
| Feeds.Answer | app/api/feeds/route.ts:100-175 | scoring fails iff the candidate loop throws; a briefing reports the topic, at most 20 articles, one theme per top article up to six and a non-empty brief |
| Feeds.FeedsResult | app/api/feeds/route.ts:72-183 | a topic whose feed lookup throws fails; a successful answer reports the requested topic, at most 20 articles, one theme per top article up to six and a non-empty brief |
| Feeds.FeedsUnreachable | app/api/feeds/route.ts:77-148 | when no feed of the topic can be fetched the answer has count 0, no themes and the "No recent articles found" brief; for an inherited property name it is the failure |
| Feeds.FeedsFailure | app/api/feeds/route.ts:77-182 | the answer is the `fallback` failure iff the topic names an inherited property or some gathered item's title or content is not a string |
| Counts.CountFeedsDistinct | app/api/counts/route.ts:6-45 | the counts route's table has ten pairwise different topics |
| Counts.TitleScore | app/api/counts/route.ts:102-105 | the title loop scores 100 per keyword in the title, positive iff some keyword occurs |
| Counts.Matches | app/api/counts/route.ts:101 | an item's verdict throws iff its title is not a string |
| Counts.TitleHit | app/api/counts/route.ts:102-106 | a title counts iff some keyword occurs in it after lower-casing |
| Counts.MatchesChar | app/api/counts/route.ts:100-106 | an item counts iff a keyword occurs in its cleaned, lower-cased title (no content, recency or length term) |
| Counts.MatchItem | app/api/counts/route.ts:101-106 | the per-item callback agrees with `Matches` |
| Counts.Verdicts | app/api/counts/route.ts:100 | one verdict per item, in item order |
| Counts.CountAmong | app/api/counts/route.ts:98-107 | after n items `matchCount` is at most n |
| Counts.CountAmongChar | app/api/counts/route.ts:98-107 | the count fails iff a title throws; otherwise it is positive iff some item matches and equals n iff all do |
| Counts.CountAmongStaysFailed | app/api/counts/route.ts:100-110 | a throw aborts the topic: no later item undoes it |
| Counts.CountAmongNext | app/api/counts/route.ts:106 | one item throws, adds one when it matches, or leaves the count |
| Counts.CapCount | app/api/counts/route.ts:109-111 | a topic's count is at most 20 |
| Counts.CapCountChar | app/api/counts/route.ts:98-111 | a topic counts 0 iff some title throws or no title matches; 20 titles that all match give 20 |
| Counts.TopicCount | app/api/counts/route.ts:94-111 | one topic's count lies in 0..20 |
| Counts.TopicCountZero | app/api/counts/route.ts:98-112 | a topic counts 0 iff one of its titles is not a string or none of its cleaned titles mentions a keyword |
| Counts.Tick | app/api/counts/route.ts:100-106 | one step of the item loop agrees with `CountAmong` |
| Counts.CountMatches | app/api/counts/route.ts:98-107 | the item loop computes exactly `CountAmong` over all items |
| Counts.CountTopic | app/api/counts/route.ts:79-112 | the per-topic `try` yields `TopicCount`, with 0 on a throw |
| Counts.Record | app/api/counts/route.ts:109-111 | the counts object has exactly the topics stored into it, and every stored value is the count of some entry |
| Counts.RecordLookup | app/api/counts/route.ts:109-111 | with distinct topics each topic holds its own entry's count |
| Counts.CountsBounded | app/api/counts/route.ts:109 | every count in the answer lies in 0..20 |
| Counts.UnreachableTopicCountsZero | app/api/counts/route.ts:85-91 | a topic none of whose feeds can be fetched counts 0 |
| Counts.Get | app/api/counts/route.ts:74-117 | the route fills the counts object topic by topic into exactly `CountsResult` |
| Counts.CountsResult | app/api/counts/route.ts:74-117 | the answer has exactly one key per topic of the table |
| Counts.CountsPerTopic | app/api/counts/route.ts:78-117 | each topic maps to the capped count of its own feeds' items, independently of other topics |
| Publish.RunLength | app/api/publish/route.ts:16 | measures the maximal run of characters outside `[a-z0-9]` |
| Publish.Hyphenate | app/api/publish/route.ts:16 | replacing runs by `-` never lengthens the text |
| Publish.TrimHyphens | app/api/publish/route.ts:17 | `/(^-\|-$)/g` removes at most two characters |
| Publish.Tags | app/api/publish/route.ts:27-29 | one tag per theme, in theme order, each the lower-cased hyphenated theme |
| Publish.Letters | app/api/publish/route.ts:16 | the letters and digits of a text are a sub-list of it |
| Publish.LettersAppend | app/api/publish/route.ts:16 | letters of a concatenation are the concatenated letters |
| Publish.LettersSkipRun | app/api/publish/route.ts:16 | a run outside `[a-z0-9]` holds no letters |
| Publish.HyphenateEnds | app/api/publish/route.ts:16 | hyphenation keeps emptiness and puts `-` at an end iff the input ends there outside `[a-z0-9]` |
| Publish.HyphenateAlphabet | app/api/publish/route.ts:16 | hyphenation yields `[a-z0-9-]` only, with no `--` |
| Publish.HyphenateLetters | app/api/publish/route.ts:16 | hyphenation keeps every letter and digit, in order |
| Publish.HyphenateShape | app/api/publish/route.ts:16 | alphabet, no `--`, ends and letters of a hyphenated text together |
| Publish.HyphenateWord | app/api/publish/route.ts:16 | a word of letters and digits passes through unchanged |
| Publish.HyphenateRun | app/api/publish/route.ts:16 | a run outside `[a-z0-9]` before a letter becomes exactly one `-` |
| Publish.RunLengthOf | app/api/publish/route.ts:16 | the run measured is the whole run |
| Publish.HyphenateFixed | app/api/publish/route.ts:16 | a text of `[a-z0-9-]` without `--` is unchanged by hyphenation |
| Publish.TagTrailingHyphen | app/api/publish/route.ts:27-29 | a tag ends with `-` iff its theme ends outside `[a-z0-9]` after lower-casing (e.g. with `!`) |
| Publish.DropLeadingHyphen | app/api/publish/route.ts:17 | removing `^-` leaves text that does not start with `-` |
| Publish.DropTrailingHyphen | app/api/publish/route.ts:17 | removing `-$` keeps both ends free of `-` |
| Publish.TrimHyphensShape | app/api/publish/route.ts:17 | trimming edge hyphens of a hyphenated text gives a well-formed slug with the same letters |
| Publish.Tag | app/api/publish/route.ts:27-29 | a tag has only `[a-z0-9-]`, no `--`, is empty iff its theme is, and holds exactly the theme's lower-cased letters and digits in order |
| Publish.Slug | app/api/publish/route.ts:15-17 | a slug has only `[a-z0-9-]`, no `--`, no `-` at either end, and exactly the title's lower-cased letters and digits in order |
| Publish.LowerSlug | app/api/publish/route.ts:15 | lower-casing leaves `[a-z0-9-]` alone |
| Publish.SlugIdempotent | app/api/publish/route.ts:15-17 | the slug of a slug is itself |
| Publish.SampleLower | app/api/publish/route.ts:15 | `"Cloud Security Recipe #001"` lower-cases to `"cloud security recipe #001"` |
| Publish.SampleHyphenated | app/api/publish/route.ts:16 | `"cloud security recipe #001"` hyphenates to `"cloud-security-recipe-001"` |
| Publish.SampleSlug | app/api/publish/route.ts:15-17 | the published title `"Cloud Security Recipe #001"` has slug `"cloud-security-recipe-001"` |
| Publish.DatePrefix | app/api/publish/route.ts:19 | the date prefix is the part of the ISO time before its first `T` |
| Publish.FileName | app/api/publish/route.ts:19 | the file name `<day>-<slug>.md` gives the slug back |
| Publish.RecipeUrl | app/api/publish/route.ts:78 | the URL is `/recipes/` followed by the slug |
| Publish.ThemeItems | app/api/publish/route.ts:38 | one `- <theme>` item per theme, in order |
| Publish.Body | app/api/publish/route.ts:35-47 | the body starts with the heading's `#`, ends with the footer's `*`, and opens with the themes heading and the themes, then the brief heading and the brief |
| Publish.Template | app/api/publish/route.ts:35-50 | `content.trim()` strips exactly the template's first and last line break and gives the body back |
| Publish.TrimLineBreaks | app/api/publish/route.ts:50 | trimming a text wrapped in two line breaks gives it back when it starts and ends with non-whitespace |
| Publish.SplitLines | app/api/publish/route.ts:38 | splitting on line breaks yields lines without line breaks |
| Publish.SplitJoin | app/api/publish/route.ts:38 | joining lines with `\n` and splitting gives the lines back |
| Publish.IndexOfAbsent | app/api/publish/route.ts:38 | a character that is absent is found at the end |
| Publish.IndexOfAfter | app/api/publish/route.ts:38 | the first line break is the one after the first line |
| Publish.ThemeLinesInOrder | app/api/publish/route.ts:38 | the themes section is one `- <theme>` line per theme, in input order |
| Publish.CategoryOf | app/api/publish/route.ts:8 | a missing category is `cloud-security`, a given one is kept |
| Publish.Unshift | app/api/publish/route.ts:63-70 | `unshift` puts the entry first and keeps all earlier entries after it in order |
| Publish.RecipeStore.Publish | app/api/publish/route.ts:6-87 | a throwing request changes nothing and answers 500; otherwise the recipe file is written; with a usable index the entry is put first and the answer names the file and `/recipes/<slug>`, with an unusable index the index is kept and the answer is 500 |
| Publish.PublishedEntryFirst | app/api/publish/route.ts:57-72 | after publishing the index grows by one, starts with the new entry and keeps every earlier entry in order; a missing index becomes just the entry |
| HealthCheck.Check | app/api/validate-urls/route.ts:21-51 | a result has title = url; it is valid iff a response came with 200 ≤ status < 400; error is null iff there was a response, `Timeout` after a timeout and the exception's message after another failure; a failure has status 0 |
| HealthCheck.Results | app/api/validate-urls/route.ts:20-53 | one result per sample URL, in URL order |
| HealthCheck.ValidCount | app/api/validate-urls/route.ts:55 | the valid count is at most the number checked |
| HealthCheck.Failing | app/api/validate-urls/route.ts:56 | the failing list is no longer than the results |
| HealthCheck.CountsAddUp | app/api/validate-urls/route.ts:55-59 | valid + invalid = checked |
| HealthCheck.FailingMembers | app/api/validate-urls/route.ts:63 | the failing list holds exactly the invalid results |
| HealthCheck.FailingAt | app/api/validate-urls/route.ts:63 | picks at most one position per result |
| HealthCheck.FailingInOrder | app/api/validate-urls/route.ts:63 | the failing list is picked from the results at increasing positions (original order) |
| HealthCheck.Percentage | app/api/validate-urls/route.ts:62 | the percentage is `null` exactly when nothing was checked |
| HealthCheck.PercentageRounds | app/api/validate-urls/route.ts:62 | the percentage is the nearest whole number to 100·valid/checked (halves up), in 0..100, 100 iff ≥ 99.5% valid, 0 iff < 0.5% valid |
| HealthCheck.MulLess | app/api/validate-urls/route.ts:62 | multiplying by a positive factor keeps the order |
| HealthCheck.ValidateUrls | app/api/validate-urls/route.ts:19-65 | eight URLs are checked, valid + invalid = checked, the percentage is in 0..100 and 100 iff all are valid, the results are exactly the invalid ones and the timestamp is the clock's |
| HealthCheck.FailingUrls | app/api/validate-urls/route.ts:36-63 | a URL is listed as failing iff its probe did not end in a 2xx or 3xx response |
| HealthCheck.AllIgnored | app/api/validate-urls/route.ts:5 | the `all` parameter does not change the answer |
| Routes.CountedIsKept | app/api/counts/route.ts:100-106 | an item the counts route counts, with string fields and a cleaned title longer than five code units, is kept by the feeds route |
| Routes.UncountedKeptByOtherMeans | app/api/feeds/route.ts:109-127 | an item the counts route rejects but the feeds route keeps is kept for its content or its recency |

## Left out

- Feed fetching with `rss-parser`, the `AbortController` timers and the HEAD
  requests are network I/O. They are the parameters `fetch` and `probe`. The
  controller is never handed to the parser, so the five-second bound is not
  modelled. The `User-Agent` header is not modelled either.
- `Promise.all` fan-out is event-loop concurrency. It is modelled as a
  sequential map whose results keep input order. The counts route's
  concurrent writes to `counts` touch different keys, so their order does not
  matter.
- `console.error` logging is not modelled.
- The clock is parameters: `Date.now()`, `new Date().toISOString()` and date
  parsing. An item's date is a `PubDate`: absent, unparseable (`NaN`, which
  fails every comparison), or an age in days.
- Scores and ages are exact `real` numbers, not IEEE doubles.
- `Math.round` is modelled as exact rounding with halves up. For the eight
  sample URLs, `valid / 8 * 100` is exact in floating point, so nothing is
  lost.
- `toLowerCase` is modelled for ASCII letters only; other characters are kept.
  The `i` flag of the script/style patterns canonicalises only ASCII letters
  onto ASCII, so for those patterns the model is exact. For titles, contents
  and topics with non-ASCII capitals, keyword matching differs from the
  source.
- Strings are sequences of Unicode scalar values. A JavaScript string
  holding a lone surrogate cannot be written, so `.length` is counted on
  well-formed text only.
- JavaScript values are folded into `Js.Value`. Every falsy value (`undefined`,
  `null`, `0`, `''`) behaves as `''` wherever the routes read it. Any truthy
  non-string (an object or number title) is `NonString`, on which `replace`
  throws.
- FeedSource.KeywordsFor: a topic that names an inherited property would
  read a function from `topicKeywords`, and `keywords.forEach` would throw.
  The feeds route has already failed for such a topic at `.map` on its feed
  lookup, and the counts route only uses its table's own topics, so no route
  reaches this case.
- Feeds.LinkOf: an item link that is a truthy non-string (an object) would
  be copied as it is. The model's links are strings or absent.
- Counts.Get: the route's outer `catch`, which answers a fixed five-topic
  zero map, is not modelled. No statement inside its `try` can throw: each
  topic has its own `catch` and the counts are plain numbers.
- HealthCheck.ValidateUrls: the outer `catch` (status 500) is not modelled.
  No statement inside its `try` can throw, because every probe failure is
  caught per URL.
- Publish.RecipeStore.Publish:
  - The `fs` calls always succeed in the model: `ensureDir`, `writeFile` and
    `writeJson`.
  - The directory that `ensureDir` may create before a bad title throws is
    not modelled.
  - `gray-matter` serialisation is abstracted as the `RecipeFile` record:
    the front matter plus the trimmed body.
  - The request's `brief` is a string. A non-string `category` is not
    modelled.
  - An index file that parses to an array of values of other shapes is not
    modelled. The index holds `IndexEntry` records, or is `Unusable` when
    it does not parse or is not an array.
- React components and styling are presentation and are not part of this model.
