/**
 * The `/api/publish` route: turns a recipe (title, themes, brief, category)
 * into a markdown file named after a slug of its title, and records it at
 * the head of the recipes index.
 */
module Publish {
  import opened Js
  import opened Text

  // ---------------------------------------------------------------------------
  // Slugs and tags

  /** The characters `[a-z0-9]` keeps; every other character is part of a run that becomes `-`. */
  predicate IsSlugChar(c: char) {
    'a' <= c <= 'z' || '0' <= c <= '9'
  }

  /** Length of the run of characters outside `[a-z0-9]` at the start of `s`. */
  function RunLength(s: string): (k: nat)
    ensures k <= |s|
    ensures forall i :: 0 <= i < k ==> !IsSlugChar(s[i])
    ensures k < |s| ==> IsSlugChar(s[k])
  {
    if s == [] || IsSlugChar(s[0]) then 0 else 1 + RunLength(s[1..])
  }

  /** `s.replace(/[^a-z0-9]+/g, '-')`: every maximal run outside `[a-z0-9]` becomes one hyphen. */
  function Hyphenate(s: string): (r: string)
    ensures |r| <= |s|
    decreases |s|
  {
    if s == [] then []
    else if IsSlugChar(s[0]) then [s[0]] + Hyphenate(s[1..])
    else "-" + Hyphenate(s[RunLength(s)..])
  }

  /** `s.replace(/(^-|-$)/g, '')`: drops one hyphen at the start and one at the end. */
  function TrimHyphens(s: string): (r: string)
    ensures |s| - 2 <= |r| <= |s|
  {
    var t := if s != [] && s[0] == '-' then s[1..] else s;
    if t != [] && t[|t| - 1] == '-' then t[..|t| - 1] else t
  }

  /**
   * A tag: the lower-cased theme with its runs hyphenated, hyphens at the
   * edges kept. It has only `[a-z0-9-]`, no `--`, and exactly the letters
   * and digits of the lower-cased theme, in order.
   */
  function Tag(theme: string): (tag: string)
    ensures SlugAlphabet(tag) && NoDoubleHyphen(tag)
    ensures (tag == []) == (theme == [])
    ensures Letters(tag) == Letters(Lower(theme))
  {
    HyphenateShape(Lower(theme));
    Hyphenate(Lower(theme))
  }

  /**
   * The slug: the tag of the title without its edge hyphens. It is well
   * formed and holds exactly the letters and digits of the lower-cased
   * title, in order.
   */
  function Slug(title: string): (slug: string)
    ensures WellFormedSlug(slug)
    ensures Letters(slug) == Letters(Lower(title))
  {
    TrimHyphensShape(Tag(title));
    TrimHyphens(Tag(title))
  }

  /** `themes.map(theme => theme.toLowerCase().replace(/[^a-z0-9]+/g, '-'))`. */
  function Tags(themes: seq<string>): (tags: seq<string>)
    ensures |tags| == |themes|
    ensures forall i :: 0 <= i < |themes| ==> tags[i] == Tag(themes[i])
  {
    seq(|themes|, i requires 0 <= i < |themes| => Tag(themes[i]))
  }

  predicate SlugAlphabet(s: string) {
    forall i :: 0 <= i < |s| ==> IsSlugChar(s[i]) || s[i] == '-'
  }

  predicate NoDoubleHyphen(s: string) {
    forall i :: 0 <= i < |s| - 1 ==> !(s[i] == '-' && s[i + 1] == '-')
  }

  /** What a slug looks like: `[a-z0-9-]` only, no `--`, no hyphen at either end. */
  predicate WellFormedSlug(s: string) {
    && SlugAlphabet(s)
    && NoDoubleHyphen(s)
    && (s != [] ==> s[0] != '-' && s[|s| - 1] != '-')
  }

  /** The characters of `s` from `[a-z0-9]`, in order. */
  function Letters(s: string): (r: string)
    ensures |r| <= |s|
  {
    if s == [] then []
    else (if IsSlugChar(s[0]) then [s[0]] else []) + Letters(s[1..])
  }

  /** Appending distributes over `Letters`. */
  lemma {:induction false} LettersAppend(a: string, b: string)
    ensures Letters(a + b) == Letters(a) + Letters(b)
    decreases |a|
  {
    if a != [] {
      assert (a + b)[1..] == a[1..] + b;
      LettersAppend(a[1..], b);
    } else {
      assert a + b == b;
    }
  }

  /** A run outside `[a-z0-9]` holds no letters. */
  lemma {:induction false} LettersSkipRun(s: string)
    ensures Letters(s[RunLength(s)..]) == Letters(s)
    decreases |s|
  {
    if s != [] && !IsSlugChar(s[0]) {
      LettersSkipRun(s[1..]);
      assert s[1..][RunLength(s[1..])..] == s[RunLength(s)..];
    }
  }

  /**
   * Hyphenation keeps a text empty or non-empty, starts with a hyphen
   * exactly when the input starts outside `[a-z0-9]` and ends with one
   * exactly when the input ends outside it.
   */
  lemma {:induction false} HyphenateEnds(s: string)
    ensures (Hyphenate(s) == []) == (s == [])
    ensures s != [] ==> (Hyphenate(s)[0] == '-' <==> !IsSlugChar(s[0]))
    ensures s != [] ==> (Hyphenate(s)[|Hyphenate(s)| - 1] == '-' <==> !IsSlugChar(s[|s| - 1]))
    decreases |s|
  {
    if s != [] {
      var k := if IsSlugChar(s[0]) then 1 else RunLength(s);
      var rest := s[k..];
      HyphenateEnds(rest);
      if rest == [] {
        assert s[|s| - 1] == s[0] || !IsSlugChar(s[|s| - 1]);
      } else {
        assert s[|s| - 1] == rest[|rest| - 1];
      }
    }
  }

  /** Hyphenation yields `[a-z0-9-]` only and never two hyphens in a row. */
  lemma {:induction false} HyphenateAlphabet(s: string)
    ensures SlugAlphabet(Hyphenate(s)) && NoDoubleHyphen(Hyphenate(s))
    decreases |s|
  {
    if s != [] {
      var k := if IsSlugChar(s[0]) then 1 else RunLength(s);
      var rest := s[k..];
      HyphenateAlphabet(rest);
      HyphenateEnds(rest);
      var tail := Hyphenate(rest);
      var r := Hyphenate(s);
      assert r == (if IsSlugChar(s[0]) then [s[0]] else "-") + tail;
      forall i | 0 <= i < |r| - 1
        ensures !(r[i] == '-' && r[i + 1] == '-')
      {
        if i > 0 {
          assert r[i] == tail[i - 1] && r[i + 1] == tail[i];
        } else if !IsSlugChar(s[0]) {
          assert r[1] == tail[0] && IsSlugChar(rest[0]);
        }
      }
    }
  }

  /** Hyphenation keeps every letter and digit, in order. */
  lemma {:induction false} HyphenateLetters(s: string)
    ensures Letters(Hyphenate(s)) == Letters(s)
    decreases |s|
  {
    if s != [] {
      var k := if IsSlugChar(s[0]) then 1 else RunLength(s);
      var head := if IsSlugChar(s[0]) then [s[0]] else "-";
      var rest := s[k..];
      HyphenateLetters(rest);
      LettersAppend(head, Hyphenate(rest));
      if !IsSlugChar(s[0]) {
        LettersSkipRun(s);
      }
    }
  }

  /** Everything known about hyphenation: alphabet, no `--`, edges, letters. */
  lemma HyphenateShape(s: string)
    ensures SlugAlphabet(Hyphenate(s)) && NoDoubleHyphen(Hyphenate(s))
    ensures (Hyphenate(s) == []) == (s == [])
    ensures s != [] ==> (Hyphenate(s)[0] == '-' <==> !IsSlugChar(s[0]))
    ensures s != [] ==> (Hyphenate(s)[|Hyphenate(s)| - 1] == '-' <==> !IsSlugChar(s[|s| - 1]))
    ensures Letters(Hyphenate(s)) == Letters(s)
  {
    HyphenateEnds(s);
    HyphenateAlphabet(s);
    HyphenateLetters(s);
  }

  /** A tag ends with a hyphen exactly when its theme ends outside `[a-z0-9]` after lower-casing, e.g. with `!`. */
  lemma TagTrailingHyphen(theme: string)
    requires theme != []
    ensures Tag(theme) != []
    ensures Tag(theme)[|Tag(theme)| - 1] == '-' <==> !IsSlugChar(LowerChar(theme[|theme| - 1]))
  {
    HyphenateShape(Lower(theme));
  }

  /** Dropping a leading hyphen of a hyphenated text leaves one that does not start with a hyphen. */
  lemma DropLeadingHyphen(t: string)
    requires SlugAlphabet(t) && NoDoubleHyphen(t)
    ensures var u := if t != [] && t[0] == '-' then t[1..] else t;
      && SlugAlphabet(u) && NoDoubleHyphen(u)
      && (u != [] ==> u[0] != '-')
      && Letters(u) == Letters(t)
  {
    if t != [] && t[0] == '-' {
      var u := t[1..];
      if u != [] {
        assert u[0] == t[1];
      }
      LettersAppend([t[0]], u);
      assert [t[0]] + u == t;
    }
  }

  /** Dropping a trailing hyphen keeps the text free of edge hyphens. */
  lemma DropTrailingHyphen(u: string)
    requires SlugAlphabet(u) && NoDoubleHyphen(u)
    requires u != [] ==> u[0] != '-'
    ensures var r := if u != [] && u[|u| - 1] == '-' then u[..|u| - 1] else u;
      && WellFormedSlug(r)
      && Letters(r) == Letters(u)
  {
    if u != [] && u[|u| - 1] == '-' {
      var r := u[..|u| - 1];
      if r != [] {
        assert r[0] == u[0];
        assert r[|r| - 1] == u[|u| - 2];
      }
      LettersAppend(r, [u[|u| - 1]]);
      assert r + [u[|u| - 1]] == u;
    }
  }

  /** Dropping the edge hyphens of a hyphenated text leaves a well-formed slug with the same letters. */
  lemma TrimHyphensShape(t: string)
    requires SlugAlphabet(t) && NoDoubleHyphen(t)
    ensures WellFormedSlug(TrimHyphens(t))
    ensures Letters(TrimHyphens(t)) == Letters(t)
  {
    DropLeadingHyphen(t);
    DropTrailingHyphen(if t != [] && t[0] == '-' then t[1..] else t);
  }

  /** Lower-casing leaves `[a-z0-9-]` alone. */
  lemma LowerSlug(s: string)
    requires SlugAlphabet(s)
    ensures Lower(s) == s
  {
  }

  /** Hyphenation leaves alone a text that has only `[a-z0-9-]` and no `--`. */
  lemma {:induction false} HyphenateFixed(s: string)
    requires SlugAlphabet(s) && NoDoubleHyphen(s)
    ensures Hyphenate(s) == s
    decreases |s|
  {
    if s != [] {
      var k := if IsSlugChar(s[0]) then 1 else RunLength(s);
      if !IsSlugChar(s[0]) {
        assert |s| > 1 ==> s[1] != '-' && IsSlugChar(s[1]);
        assert k == 1;
      }
      HyphenateFixed(s[k..]);
      assert s == [s[0]] + s[1..];
    }
  }

  /** Deriving the slug of a slug changes nothing. */
  lemma SlugIdempotent(title: string)
    ensures Slug(Slug(title)) == Slug(title)
  {
    var s := Slug(title);
    LowerSlug(s);
    HyphenateFixed(s);
  }

  /** The title the recipe page publishes with. */
  lemma SampleSlug()
    ensures Slug("Cloud Security Recipe #001") == "cloud-security-recipe-001"
  {
    hide Hyphenate, Lower, Letters;
    SampleLower();
    SampleHyphenated();
    var slug := "cloud-security-recipe-001";
    assert slug[0] == 'c' && slug[|slug| - 1] == '1';
  }

  lemma SampleLower()
    ensures Lower("Cloud Security Recipe #001") == "cloud security recipe #001"
  {
  }

  lemma SampleHyphenated()
    ensures Hyphenate("cloud security recipe #001") == "cloud-security-recipe-001"
  {
    hide Hyphenate, RunLength;
    var t6 := "001";
    var t5 := " #" + t6;
    var t4 := "recipe" + t5;
    var t3 := " " + t4;
    var t2 := "security" + t3;
    var t1 := " " + t2;
    var t0 := "cloud" + t1;
    var h := "cloud" + ("-" + ("security" + ("-" + ("recipe" + ("-" + t6)))));
    assert Hyphenate(t0) == h by {
      HyphenateShape([]);
      HyphenateWord(t6, []);
      assert t6 + [] == t6;
      HyphenateRun(" #", t6);
      HyphenateWord("recipe", t5);
      HyphenateRun(" ", t4);
      HyphenateWord("security", t3);
      HyphenateRun(" ", t2);
      HyphenateWord("cloud", t1);
    }
    assert t0 == "cloud security recipe #001";
    assert h == "cloud-security-recipe-001";
  }

  /** A word of letters and digits passes through hyphenation unchanged. */
  lemma {:induction false} HyphenateWord(word: string, rest: string)
    requires forall c :: c in word ==> IsSlugChar(c)
    ensures Hyphenate(word + rest) == word + Hyphenate(rest)
  {
    if word != [] {
      assert word[0] in word;
      assert forall c :: c in word[1..] ==> c in word;
      assert (word + rest)[1..] == word[1..] + rest;
      HyphenateWord(word[1..], rest);
    } else {
      assert word + rest == rest;
    }
  }

  /** A run outside `[a-z0-9]` before a letter or digit becomes one hyphen. */
  lemma HyphenateRun(run: string, rest: string)
    requires run != [] && forall c :: c in run ==> !IsSlugChar(c)
    requires rest == [] || IsSlugChar(rest[0])
    ensures Hyphenate(run + rest) == "-" + Hyphenate(rest)
  {
    RunLengthOf(run, rest);
    assert (run + rest)[|run|..] == rest;
  }

  lemma {:induction false} RunLengthOf(run: string, rest: string)
    requires forall c :: c in run ==> !IsSlugChar(c)
    requires rest == [] || IsSlugChar(rest[0])
    ensures RunLength(run + rest) == |run|
  {
    if run != [] {
      assert run[0] in run;
      assert forall c :: c in run[1..] ==> c in run;
      assert (run + rest)[1..] == run[1..] + rest;
      RunLengthOf(run[1..], rest);
    } else {
      assert run + rest == rest;
    }
  }

  // ---------------------------------------------------------------------------
  // File name, URL and body

  /** `new Date().toISOString().split('T')[0]`: the part of the time stamp before its first `T`. */
  function DatePrefix(isoTime: string): (day: string)
    ensures 'T' !in day
    ensures |day| <= |isoTime| && day == isoTime[..|day|]
  {
    var k := IndexOf(isoTime, 'T');
    assert forall c :: c in isoTime[..k] ==> c != 'T';
    isoTime[..k]
  }

  /** `${datePrefix}-${slug}.md`: the file name determines the slug, given the day. */
  function FileName(day: string, slug: string): (name: string)
    ensures SlugOfFileName(day, name) == Some(slug)
  {
    var name := day + "-" + slug + ".md";
    assert name[..|day| + 1] == day + "-";
    assert name[|name| - 3..] == ".md";
    assert name[|day| + 1..|name| - 3] == slug;
    name
  }

  /** `/recipes/${slug}`: the slug follows the fixed nine-character prefix. */
  function RecipeUrl(slug: string): (url: string)
    ensures |url| == |slug| + 9
    ensures url[..9] == "/recipes/" && url[9..] == slug
  {
    "/recipes/" + slug
  }

  /** The slug back from a file name, knowing the day it was written. */
  function SlugOfFileName(day: string, name: string): Option<string> {
    if |name| >= |day| + 4 && name[..|day| + 1] == day + "-" && name[|name| - 3..] == ".md"
    then Some(name[|day| + 1..|name| - 3])
    else None
  }

  const ThemesHeading := "# Key Security Themes"
  const BriefHeading := "# Security Recipe Brief"
  const Footer := "*This recipe was automatically generated from security RSS feeds and curated for building secure systems.*"

  /** `themes.map(theme => `- ${theme}`).join('\n')`. */
  function ThemeLines(themes: seq<string>): string {
    Join(ThemeItems(themes), "\n")
  }

  function ThemeItems(themes: seq<string>): (items: seq<string>)
    ensures |items| == |themes|
    ensures forall i :: 0 <= i < |themes| ==> items[i] == "- " + themes[i]
  {
    seq(|themes|, i requires 0 <= i < |themes| => "- " + themes[i])
  }

  /**
   * The template literal: a line break, the themes section, the brief
   * section, the footer, a line break. `content.trim()` strips exactly the
   * first and the last line break and gives the body back.
   */
  function Template(themes: seq<string>, brief: string): (content: string)
    ensures Trim(content) == Body(themes, brief)
  {
    TrimLineBreaks(Body(themes, brief));
    "\n" + Body(themes, brief) + "\n"
  }

  /**
   * The markdown body as written to the file. It opens with the themes
   * heading and the themes, then the brief heading and the brief; it starts
   * with the heading's `#` and ends with the footer's `*`.
   */
  function Body(themes: seq<string>, brief: string): (b: string)
    ensures |b| > 0 && b[0] == '#' && b[|b| - 1] == '*'
    ensures var before := ThemesHeading + "\n\n" + ThemeLines(themes) + "\n\n" + BriefHeading + "\n\n";
      |before| + |brief| <= |b| && b[..|before|] == before && b[|before|..|before| + |brief|] == brief
  {
    ThemesHeading + "\n\n" + ThemeLines(themes) + "\n\n" + BriefHeading + "\n\n" + brief + "\n\n---\n\n" + Footer
  }

  /** Trimming a text wrapped in two line breaks gives it back when it starts and ends with non-whitespace. */
  lemma TrimLineBreaks(b: string)
    requires b != [] && !IsSpace(b[0]) && !IsSpace(b[|b| - 1])
    ensures Trim("\n" + b + "\n") == b
  {
    var t := "\n" + b + "\n";
    assert t[0] == '\n' && t[1..] == b + "\n";
    assert (b + "\n")[0] == b[0];
    assert TrimStart(t) == b + "\n";
    assert (b + "\n")[..|b|] == b;
    assert (b + "\n")[|b|] == '\n';
  }

  /** The lines of a text: the pieces between its line breaks. */
  function SplitLines(s: string): (lines: seq<string>)
    ensures |lines| >= 1
    ensures forall l :: l in lines ==> '\n' !in l
    decreases |s|
  {
    var k := IndexOf(s, '\n');
    if k == |s| then [s]
    else
      assert forall c :: c in s[..k] ==> c != '\n';
      [s[..k]] + SplitLines(s[k + 1..])
  }

  /** Joining lines without line breaks and splitting the result gives the lines back. */
  lemma {:induction false} SplitJoin(lines: seq<string>)
    requires lines != []
    requires forall l :: l in lines ==> '\n' !in l
    ensures SplitLines(Join(lines, "\n")) == lines
  {
    var first := lines[0];
    assert first in lines;
    if |lines| == 1 {
      IndexOfAbsent(first, '\n');
    } else {
      var rest := Join(lines[1..], "\n");
      var s := first + "\n" + rest;
      IndexOfAfter(first, rest, '\n');
      assert s[..|first|] == first;
      assert s[|first| + 1..] == rest;
      assert forall l :: l in lines[1..] ==> l in lines;
      SplitJoin(lines[1..]);
    }
  }

  lemma {:induction false} IndexOfAbsent(s: string, c: char)
    requires c !in s
    ensures IndexOf(s, c) == |s|
  {
    if s != [] {
      assert s[0] in s;
      assert forall x :: x in s[1..] ==> x in s;
      IndexOfAbsent(s[1..], c);
    }
  }

  lemma {:induction false} IndexOfAfter(first: string, rest: string, c: char)
    requires c !in first
    ensures IndexOf(first + [c] + rest, c) == |first|
    decreases |first|
  {
    if first != [] {
      assert first[0] in first;
      assert forall x :: x in first[1..] ==> x in first;
      assert (first + [c] + rest)[1..] == first[1..] + [c] + rest;
      IndexOfAfter(first[1..], rest, c);
    }
  }

  /** The themes section lists one `- <theme>` line per theme, in the order given. */
  lemma ThemeLinesInOrder(themes: seq<string>)
    requires themes != []
    requires forall t :: t in themes ==> '\n' !in t
    ensures SplitLines(ThemeLines(themes)) == ThemeItems(themes)
  {
    var items := ThemeItems(themes);
    forall l | l in items
      ensures '\n' !in l
    {
      var i :| 0 <= i < |items| && items[i] == l;
      assert themes[i] in themes;
      assert l == "- " + themes[i];
    }
    SplitJoin(items);
  }

  // ---------------------------------------------------------------------------
  // The request and the recipes directory

  /**
   * The parsed request body. A title that is not a string, or themes that
   * are not an array of strings, make `toLowerCase` or `map` throw; they are
   * `None`. A missing category is `None`.
   */
  datatype PublishRequest = PublishRequest(
    title: Option<string>,
    themes: Option<seq<string>>,
    brief: string,
    category: Option<string>)

  const DefaultCategory := "cloud-security"
  const SourcesCount: nat := 15

  /** The destructuring default `category = 'cloud-security'`. */
  function CategoryOf(category: Option<string>): (c: string)
    ensures category.None? ==> c == DefaultCategory
    ensures category.Some? ==> c == category.value
  {
    match category
    case None => DefaultCategory
    case Some(c) => c
  }

  datatype FrontMatter = FrontMatter(
    title: string, date: string, category: string, tags: seq<string>, sources: nat, published: bool)

  /** A recipe file: the front matter and the markdown body `gray-matter` writes below it. */
  datatype RecipeFile = RecipeFile(frontMatter: FrontMatter, body: string)

  datatype IndexEntry = IndexEntry(
    slug: string, title: string, date: string, category: string, tags: seq<string>, filepath: string)

  /**
   * `content/recipes/index.json`: absent, a JSON array of entries, or a file
   * that `readJson` cannot parse or that does not hold an array (so that
   * `unshift` throws).
   */
  datatype IndexFile = Missing | Entries(entries: seq<IndexEntry>) | Unusable

  const SuccessMessage := "Recipe published successfully!"
  const FailureMessage := "Failed to publish recipe"
  const FailureStatus: nat := 500

  datatype PublishResponse =
    | Published(message: string, filepath: string, url: string)
    | PublishFailed(status: nat, message: string)

  /** The entries `index.unshift(entry)` starts from: a missing index reads as `[]`. */
  function Existing(index: IndexFile): seq<IndexEntry>
    requires !index.Unusable?
  {
    if index.Entries? then index.entries else []
  }

  /** `index.unshift(entry)`: the entry first, then every earlier entry in its old order. */
  function Unshift(entries: seq<IndexEntry>, entry: IndexEntry): (r: seq<IndexEntry>)
    ensures |r| == |entries| + 1
    ensures r[0] == entry && r[1..] == entries
  {
    [entry] + entries
  }

  /** The recipes directory: the index file and the recipe files by name. */
  class RecipeStore {
    var index: IndexFile
    var files: map<string, RecipeFile>

    constructor(index: IndexFile, files: map<string, RecipeFile>)
      ensures this.index == index && this.files == files
    {
      this.index := index;
      this.files := files;
    }

    /**
     * `POST /api/publish`. `fileTime` and `matterTime` are the two readings
     * of the clock as ISO strings (for the file name and for the front
     * matter). A request that throws before the write leaves the directory
     * as it was; an unusable index fails after the recipe file is written.
     */
    method Publish(request: Option<PublishRequest>, fileTime: string, matterTime: string)
      returns (response: PublishResponse)
      modifies this
      ensures request.None? || request.value.title.None? || request.value.themes.None? ==>
        && response == PublishFailed(FailureStatus, FailureMessage)
        && index == old(index) && files == old(files)
      ensures request.Some? && request.value.title.Some? && request.value.themes.Some? ==>
        var r := request.value;
        var slug := Slug(r.title.value);
        var name := FileName(DatePrefix(fileTime), slug);
        var category := CategoryOf(r.category);
        var tags := Tags(r.themes.value);
        && files == old(files)[name := RecipeFile(
             FrontMatter(r.title.value, matterTime, category, tags, SourcesCount, true),
             Body(r.themes.value, r.brief))]
        && (old(index).Unusable? ==>
              index == old(index) && response == PublishFailed(FailureStatus, FailureMessage))
        && (!old(index).Unusable? ==>
              && index == Entries(Unshift(Existing(old(index)),
                   IndexEntry(slug, r.title.value, matterTime, category, tags, name)))
              && response == Published(SuccessMessage, name, RecipeUrl(slug)))
    {
      if request.None? || request.value.title.None? || request.value.themes.None? {
        return PublishFailed(FailureStatus, FailureMessage);
      }
      var r := request.value;
      var title := r.title.value;
      var themes := r.themes.value;
      var category := CategoryOf(r.category);
      var slug := Slug(title);
      var filename := FileName(DatePrefix(fileTime), slug);
      var front := FrontMatter(title, matterTime, category, Tags(themes), SourcesCount, true);
      var content := Template(themes, r.brief);
      files := files[filename := RecipeFile(front, Trim(content))];
      var entries: seq<IndexEntry> := [];
      if index.Unusable? {
        return PublishFailed(FailureStatus, FailureMessage);
      }
      if index.Entries? {
        entries := index.entries;
      }
      entries := [IndexEntry(slug, title, front.date, category, front.tags, filename)] + entries;
      index := Entries(entries);
      response := Published(SuccessMessage, filename, RecipeUrl(slug));
    }
  }

  /**
   * After a successful publication the index starts with the new recipe's
   * entry, followed by all earlier entries in order, and the file the entry
   * names holds the recipe.
   */
  lemma PublishedEntryFirst(before: IndexFile, after: IndexFile, entry: IndexEntry)
    requires !before.Unusable?
    requires after == Entries(Unshift(Existing(before), entry))
    ensures |after.entries| == |Existing(before)| + 1
    ensures after.entries[0] == entry
    ensures forall i :: 0 <= i < |Existing(before)| ==> after.entries[i + 1] == Existing(before)[i]
    ensures before.Missing? ==> after.entries == [entry]
  {
  }
}
