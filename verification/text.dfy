/**
 * String processing shared by the API routes: the character classes that
 * JavaScript's regular expressions and `String.prototype.trim` use, ASCII
 * lower-casing, global literal replacement, and the `cleanHTML` pipeline that
 * the feeds and counts routes both apply to feed titles and bodies.
 */
module Text {
  import opened Js

  /** The characters `\s` and `trim()` match: ECMAScript WhiteSpace and LineTerminator. */
  predicate IsSpace(c: char) {
    || c == '\t' || c == '\n' || c == '\U{000B}' || c == '\U{000C}' || c == '\r'
    || c == ' ' || c == '\U{00A0}' || c == '\U{1680}'
    || ('\U{2000}' <= c <= '\U{200A}')
    || c == '\U{2028}' || c == '\U{2029}' || c == '\U{202F}' || c == '\U{205F}'
    || c == '\U{3000}' || c == '\U{FEFF}'
  }

  /** The characters a regular-expression `.` does NOT match (no `s` flag). */
  predicate IsLineTerminator(c: char) {
    c == '\n' || c == '\r' || c == '\U{2028}' || c == '\U{2029}'
  }

  function LowerChar(c: char): char {
    if 'A' <= c <= 'Z' then (c as int + 32) as char else c
  }

  /** `toLowerCase()`, restricted to the ASCII letters. */
  function Lower(s: string): (r: string)
    ensures |r| == |s|
    ensures forall i :: 0 <= i < |s| ==> r[i] == LowerChar(s[i])
  {
    seq(|s|, i requires 0 <= i < |s| => LowerChar(s[i]))
  }

  predicate StartsWith(s: string, p: string) {
    |p| <= |s| && s[..|p|] == p
  }

  /** `k` occurs in `s` starting at position `i`. */
  predicate OccursAt(s: string, k: string, i: nat) {
    i + |k| <= |s| && s[i..i + |k|] == k
  }

  /** `s.includes(k)`: `k` occurs somewhere in `s` (the empty string occurs everywhere). */
  predicate Contains(s: string, k: string): (b: bool)
    ensures b <==> exists i: nat :: OccursAt(s, k, i)
    decreases |s|
  {
    if StartsWith(s, k) then
      assert OccursAt(s, k, 0);
      true
    else if |s| == 0 then
      false
    else
      var b := Contains(s[1..], k);
      assert b ==> exists i: nat :: OccursAt(s, k, i) by {
        if b {
          var j: nat :| OccursAt(s[1..], k, j);
          assert s[j + 1..j + 1 + |k|] == s[1..][j..j + |k|];
          assert OccursAt(s, k, j + 1);
        }
      }
      assert (exists i: nat :: OccursAt(s, k, i)) ==> b by {
        if exists i: nat :: OccursAt(s, k, i) {
          var i: nat :| OccursAt(s, k, i);
          assert i != 0;
          assert s[1..][i - 1..i - 1 + |k|] == s[i..i + |k|];
          assert OccursAt(s[1..], k, i - 1);
        }
      }
      b
  }

  /** The UTF-16 code units of one character: two for a character outside the Basic Multilingual Plane. */
  function CodeUnits(c: char): nat {
    if c as int > 0xFFFF then 2 else 1
  }

  /**
   * `s.length`: JavaScript strings count UTF-16 code units, so a character
   * outside the Basic Multilingual Plane (an emoji, say) counts twice.
   */
  function Utf16Length(s: string): (n: nat)
    ensures |s| <= n <= 2 * |s|
    ensures (forall i :: 0 <= i < |s| ==> s[i] as int <= 0xFFFF) ==> n == |s|
  {
    if s == [] then 0 else Utf16Length(s[..|s| - 1]) + CodeUnits(s[|s| - 1])
  }

  /** The length of a concatenation is the sum of the lengths. */
  lemma {:induction false} Utf16LengthAppend(a: string, b: string)
    ensures Utf16Length(a + b) == Utf16Length(a) + Utf16Length(b)
    decreases |b|
  {
    if b == [] {
      assert a + b == a;
    } else {
      assert (a + b)[..|a + b| - 1] == a + b[..|b| - 1];
      Utf16LengthAppend(a, b[..|b| - 1]);
    }
  }

  /** `s.replace(/pat/g, rep)` for a literal, non-empty pattern: leftmost, non-overlapping matches. */
  function ReplaceAll(s: string, pat: string, rep: string): (r: string)
    requires pat != []
    requires |rep| <= |pat|
    ensures |r| <= |s|
    decreases |s|
  {
    if s == [] then []
    else
      var hit := StartsWith(s, pat);
      (if hit then rep else [s[0]]) + ReplaceAll(s[if hit then |pat| else 1..], pat, rep)
  }

  /** Index of the first `c` in `s`, or `|s|` when there is none. */
  function IndexOf(s: string, c: char): (k: nat)
    ensures k <= |s|
    ensures k < |s| ==> s[k] == c
    ensures forall i :: 0 <= i < k ==> s[i] != c
  {
    if s == [] then 0 else if s[0] == c then 0 else 1 + IndexOf(s[1..], c)
  }

  /** `parts.join(sep)`. */
  function Join(parts: seq<string>, sep: string): (r: string)
    ensures parts == [] ==> r == []
    ensures parts != [] ==> |parts[0]| <= |r| && r[..|parts[0]|] == parts[0]
    ensures |parts| >= 2 ==> |parts[0] + sep| <= |r| && r[..|parts[0] + sep|] == parts[0] + sep
    ensures parts != [] && parts[0] != [] ==> r != [] && r[0] == parts[0][0]
  {
    if parts == [] then ""
    else if |parts| == 1 then parts[0]
    else parts[0] + sep + Join(parts[1..], sep)
  }

  // ---------------------------------------------------------------------------
  // Stage 1 and 2: /<script[^>]*>.*?<\/script>/gi and the same for style

  /**
   * Where the lazy `.*?` part of a block ends: the first position at or after
   * `p` where the closing tag starts (compared case-insensitively), provided
   * no line terminator is crossed on the way; the result is the index just
   * past the closing tag.
   */
  function CloseEnd(s: string, p: nat, close: string): (e: Option<nat>)
    requires p <= |s|
    ensures e.Some? ==> p + |close| <= e.value <= |s|
    decreases |s| - p
  {
    if StartsWith(Lower(s[p..]), close) then Some(p + |close|)
    else if p == |s| || IsLineTerminator(s[p]) then None
    else CloseEnd(s, p + 1, close)
  }

  /** Length of the block `<name[^>]*>.*?</name>` matched at the start of `s`, if any. */
  function BlockAt(s: string, name: string): (n: Option<nat>)
    ensures n.Some? ==> 0 < n.value <= |s|
  {
    var open := "<" + name;
    if !StartsWith(Lower(s), open) then None
    else
      var gt := |open| + IndexOf(s[|open|..], '>');
      if gt == |s| then None
      else CloseEnd(s, gt + 1, "</" + name + ">")
  }

  /** Deletes every `<name …>…</name>` block, scanning left to right. */
  function RemoveBlocks(s: string, name: string): (r: string)
    ensures |r| <= |s|
    decreases |s|
  {
    if s == [] then []
    else
      var block := BlockAt(s, name);
      (if block.Some? then [] else [s[0]]) + RemoveBlocks(s[if block.Some? then block.value else 1..], name)
  }

  // ---------------------------------------------------------------------------
  // Stage 3: /<[^>]+>/g replaced by one space

  /** A tag `<[^>]+>` starts at index 0 of `s`. */
  predicate TagAt(s: string) {
    |s| >= 2 && s[0] == '<' && s[1] != '>' && IndexOf(s[1..], '>') < |s| - 1
  }

  /** Replaces each tag by a space. */
  function StripTags(s: string): (r: string)
    ensures |r| <= |s|
    decreases |s|
  {
    if s == [] then []
    else
      var tag := TagAt(s);
      (if tag then " " else [s[0]]) + StripTags(s[if tag then 2 + IndexOf(s[1..], '>') else 1..])
  }

  /**
   * What `StripTags` leaves holds no tag, and it holds a `>` only where the
   * input did (so markup spelled with entities survives this stage).
   */
  lemma {:induction false} StripTagsLeavesNoTag(s: string)
    ensures forall i :: 0 <= i < |StripTags(s)| ==> !TagAt(StripTags(s)[i..])
    ensures '>' !in s ==> '>' !in StripTags(s)
    ensures (StripTags(s) == []) == (s == [])
    ensures s != [] && s[0] == '>' ==> StripTags(s)[0] == '>'
    decreases |s|
  {
    if s != [] {
      var tag := TagAt(s);
      var tail := s[if tag then 2 + IndexOf(s[1..], '>') else 1..];
      StripTagsLeavesNoTag(tail);
      var rest := StripTags(tail);
      var r := StripTags(s);
      assert r == (if tag then " " else [s[0]]) + rest;
      assert forall i :: 1 <= i <= |rest| ==> r[i..] == rest[i - 1..];
      assert r[1..] == rest;
      if !tag && s[0] == '<' && |s| >= 2 && s[1] != '>' {
        assert '>' !in s[1..];
      }
    }
  }

  // ---------------------------------------------------------------------------
  // Stages 4 to 8: the five entities, in the order the source decodes them

  function DecodeEntities(s: string): (r: string)
    ensures |r| <= |s|
  {
    var s1 := ReplaceAll(s, "&nbsp;", " ");
    var s2 := ReplaceAll(s1, "&amp;", "&");
    var s3 := ReplaceAll(s2, "&lt;", "<");
    var s4 := ReplaceAll(s3, "&gt;", ">");
    ReplaceAll(s4, "&quot;", "\"")
  }

  // ---------------------------------------------------------------------------
  // Stages 9 and 10: /\s+/g replaced by one space, then trim()

  function TrimStart(s: string): (r: string)
    ensures |r| <= |s|
    ensures r != [] ==> !IsSpace(r[0])
    ensures forall i :: 0 <= i < |s| - |r| ==> IsSpace(s[i])
  {
    if s != [] && IsSpace(s[0]) then TrimStart(s[1..]) else s
  }

  /** Trimming the front leaves a suffix of the input. */
  lemma {:induction false} TrimStartSuffix(s: string)
    ensures TrimStart(s) == s[|s| - |TrimStart(s)|..]
  {
    if s != [] && IsSpace(s[0]) {
      TrimStartSuffix(s[1..]);
    }
  }

  function TrimEnd(s: string): (r: string)
    ensures |r| <= |s| && r == s[..|r|]
    ensures r != [] ==> !IsSpace(r[|r| - 1])
    ensures forall i :: |r| <= i < |s| ==> IsSpace(s[i])
  {
    if s != [] && IsSpace(s[|s| - 1]) then TrimEnd(s[..|s| - 1]) else s
  }

  function Trim(s: string): (r: string)
    ensures |r| <= |s|
  {
    TrimEnd(TrimStart(s))
  }

  function CollapseSpaces(s: string): (r: string)
    ensures |r| <= |s|
    decreases |s|
  {
    if s == [] then []
    else
      var space := IsSpace(s[0]);
      (if space then " " else [s[0]]) + CollapseSpaces(if space then TrimStart(s) else s[1..])
  }

  /**
   * The whole `cleanHTML` pipeline. Its result never starts or ends with
   * whitespace, never holds two whitespace characters in a row, and the only
   * whitespace character left in it is the plain space.
   */
  function CleanHtml(html: string): (r: string)
    ensures |r| <= |html|
    ensures Normalized(r)
  {
    var noScript := RemoveBlocks(html, "script");
    var noStyle := RemoveBlocks(noScript, "style");
    var decoded := DecodeEntities(StripTags(noStyle));
    CollapseSpacesShape(decoded);
    TrimShape(CollapseSpaces(decoded));
    Trim(CollapseSpaces(decoded))
  }

  // ---------------------------------------------------------------------------
  // Whitespace shape

  predicate NoDoubleSpace(s: string) {
    forall i :: 0 <= i < |s| - 1 ==> !(IsSpace(s[i]) && IsSpace(s[i + 1]))
  }

  predicate OnlyPlainSpaces(s: string) {
    forall i :: 0 <= i < |s| && IsSpace(s[i]) ==> s[i] == ' '
  }

  predicate Normalized(s: string) {
    && NoDoubleSpace(s)
    && OnlyPlainSpaces(s)
    && (s != [] ==> !IsSpace(s[0]) && !IsSpace(s[|s| - 1]))
  }

  lemma {:induction false} CollapseSpacesShape(s: string)
    ensures NoDoubleSpace(CollapseSpaces(s)) && OnlyPlainSpaces(CollapseSpaces(s))
    ensures (CollapseSpaces(s) == []) == (s == [])
    ensures s != [] ==> (IsSpace(CollapseSpaces(s)[0]) <==> IsSpace(s[0]))
    decreases |s|
  {
    if s == [] {
    } else if IsSpace(s[0]) {
      var t := TrimStart(s);
      CollapseSpacesShape(t);
      var r := CollapseSpaces(s);
      assert r == " " + CollapseSpaces(t);
      assert CollapseSpaces(t) != [] ==> !IsSpace(CollapseSpaces(t)[0]);
    } else {
      CollapseSpacesShape(s[1..]);
      var r := CollapseSpaces(s);
      assert r == [s[0]] + CollapseSpaces(s[1..]);
    }
  }

  lemma TrimShape(s: string)
    requires NoDoubleSpace(s) && OnlyPlainSpaces(s)
    ensures Normalized(Trim(s))
  {
    var t := TrimStart(s);
    var r := TrimEnd(t);
    var a := |s| - |t|;
    assert r == s[a..a + |r|] by {
      TrimStartSuffix(s);
      assert t == s[a..];
      assert r == t[..|r|];
    }
    forall i | 0 <= i < |r| - 1
      ensures !(IsSpace(r[i]) && IsSpace(r[i + 1]))
    {
      assert r[i] == s[a + i] && r[i + 1] == s[a + i + 1];
    }
    forall i | 0 <= i < |r| && IsSpace(r[i])
      ensures r[i] == ' '
    {
      assert r[i] == s[a + i];
    }
    if r != [] {
      assert r[0] == t[0];
    }
  }
}

module TextExamples {
  import opened Js
  import opened Text

  /** A word: non-empty, without the markup characters `<`, `>`, `&` and without whitespace. */
  predicate Plain(w: string) {
    w != [] && forall i :: 0 <= i < |w| ==> w[i] != '<' && w[i] != '>' && w[i] != '&' && !IsSpace(w[i])
  }

  /** No block is removed when no `<` is followed by the block name's first letter. */
  lemma {:induction false} RemoveBlocksNoOpening(s: string, name: string)
    requires name != []
    requires forall i :: 0 <= i < |s| - 1 && s[i] == '<' ==> LowerChar(s[i + 1]) != name[0]
    ensures RemoveBlocks(s, name) == s
    decreases |s|
  {
    if s != [] {
      var open := "<" + name;
      assert !StartsWith(Lower(s), open) by {
        if |open| <= |s| {
          if s[0] == '<' {
            assert Lower(s)[..|open|][1] == LowerChar(s[1]) != open[1];
          } else {
            assert Lower(s)[..|open|][0] == LowerChar(s[0]) != open[0];
          }
        }
      }
      assert BlockAt(s, name) == None;
      assert forall i :: 0 <= i < |s[1..]| ==> s[1..][i] == s[i + 1];
      RemoveBlocksNoOpening(s[1..], name);
      assert s == [s[0]] + s[1..];
    }
  }

  lemma {:induction false} StripTagsPlainPrefix(a: string, b: string)
    requires '<' !in a
    ensures StripTags(a + b) == a + StripTags(b)
    decreases |a|
  {
    if a != [] {
      var s := a + b;
      assert s[0] == a[0] && s[1..] == a[1..] + b;
      assert !TagAt(s);
      assert StripTags(s) == [s[0]] + StripTags(s[1..]);
      StripTagsPlainPrefix(a[1..], b);
      assert StripTags(s) == [a[0]] + (a[1..] + StripTags(b));
      assert a == [a[0]] + a[1..];
    } else {
      assert a + b == b;
    }
  }

  lemma {:induction false} ReplaceAllPlainPrefix(a: string, b: string, pat: string, rep: string)
    requires pat != [] && |rep| <= |pat| && pat[0] !in a
    ensures ReplaceAll(a + b, pat, rep) == a + ReplaceAll(b, pat, rep)
    decreases |a|
  {
    if a != [] {
      var s := a + b;
      assert s[0] == a[0] && s[1..] == a[1..] + b;
      StartsWithMismatch(s, pat, 0);
      assert ReplaceAll(s, pat, rep) == [s[0]] + ReplaceAll(s[1..], pat, rep);
      ReplaceAllPlainPrefix(a[1..], b, pat, rep);
      assert a == [a[0]] + a[1..];
    } else {
      assert a + b == b;
    }
  }

  lemma StartsWithMismatch(s: string, p: string, i: nat)
    requires i < |s| && i < |p| && s[i] != p[i]
    ensures !StartsWith(s, p)
  {
    if |p| <= |s| {
      assert s[..|p|][i] == s[i] != p[i];
    }
  }

  /** One step of `ReplaceAll` at a position where the pattern matches. */
  lemma ReplaceAllAt(s: string, pat: string, rep: string)
    requires pat != [] && |rep| <= |pat| && StartsWith(s, pat)
    ensures ReplaceAll(s, pat, rep) == rep + ReplaceAll(s[|pat|..], pat, rep)
  {
  }

  /** One step of `ReplaceAll` at a position where the pattern does not match. */
  lemma ReplaceAllPast(s: string, pat: string, rep: string)
    requires pat != [] && |rep| <= |pat| && s != [] && !StartsWith(s, pat)
    ensures ReplaceAll(s, pat, rep) == [s[0]] + ReplaceAll(s[1..], pat, rep)
  {
  }

  lemma ReplaceAllAbsent(s: string, pat: string, rep: string)
    requires pat != [] && |rep| <= |pat| && pat[0] !in s
    ensures ReplaceAll(s, pat, rep) == s
  {
    ReplaceAllPlainPrefix(s, [], pat, rep);
    assert s + [] == s;
  }

  /**
   * An entity whose second character differs from the character after the
   * only `&` leaves the text unchanged.
   */
  lemma ReplaceAllMissesAmpersand(a: string, z: string, pat: string, rep: string)
    requires |pat| >= 2 && pat[0] == '&' && |rep| <= |pat|
    requires '&' !in a && '&' !in z && z != [] && z[0] != pat[1]
    ensures ReplaceAll(a + (['&'] + z), pat, rep) == a + (['&'] + z)
  {
    var t := ['&'] + z;
    assert t[1] == z[0] && t[1..] == z;
    StartsWithMismatch(t, pat, 1);
    ReplaceAllPlainPrefix(a, t, pat, rep);
    ReplaceAllPast(t, pat, rep);
    ReplaceAllAbsent(z, pat, rep);
  }

  /** A pattern occurring once, with its first character nowhere else, is replaced once. */
  lemma ReplaceAllSingle(a: string, z: string, pat: string, rep: string)
    requires pat != [] && |rep| <= |pat| && pat[0] !in a && pat[0] !in z
    ensures ReplaceAll(a + (pat + z), pat, rep) == a + (rep + z)
  {
    var t := pat + z;
    assert t[..|pat|] == pat && t[|pat|..] == z;
    ReplaceAllPlainPrefix(a, t, pat, rep);
    ReplaceAllAt(t, pat, rep);
    ReplaceAllAbsent(z, pat, rep);
  }

  lemma {:induction false} CollapseSpacesFixed(s: string)
    requires NoDoubleSpace(s) && OnlyPlainSpaces(s)
    ensures CollapseSpaces(s) == s
    decreases |s|
  {
    if s != [] {
      if IsSpace(s[0]) {
        assert TrimStart(s) == s[1..] by {
          assert |s| > 1 ==> !IsSpace(s[1]);
          assert TrimStart(s) == TrimStart(s[1..]);
        }
      }
      CollapseSpacesFixed(s[1..]);
    }
  }

  lemma ClosingTag(close: string)
    requires close == "</b>"
    ensures StripTags(close) == " "
  {
    assert close[1..][0] == '/' && close[1..][1] == 'b' && close[1..][2] == '>';
    assert TagAt(close) && IndexOf(close[1..], '>') == 2;
    assert close[4..] == [];
  }

  lemma NoDoubleSpaceJoin(x: string, y: string)
    requires NoDoubleSpace(x) && NoDoubleSpace(y) && OnlyPlainSpaces(x) && OnlyPlainSpaces(y)
    requires x != [] && y != [] && !(IsSpace(x[|x| - 1]) && IsSpace(y[0]))
    ensures NoDoubleSpace(x + y) && OnlyPlainSpaces(x + y)
  {
    var s := x + y;
    forall i | 0 <= i < |s| - 1
      ensures !(IsSpace(s[i]) && IsSpace(s[i + 1]))
    {
      if i + 1 < |x| {
        assert s[i] == x[i] && s[i + 1] == x[i + 1];
      } else if i + 1 == |x| {
        assert s[i] == x[|x| - 1] && s[i + 1] == y[0];
      } else {
        assert s[i] == y[i - |x|] && s[i + 1] == y[i + 1 - |x|];
      }
    }
  }

  lemma TrimPadded(w: string)
    requires w != [] && !IsSpace(w[0]) && !IsSpace(w[|w| - 1])
    ensures Trim(" " + w + " ") == w
  {
    var s := " " + w + " ";
    assert s[1..] == w + " ";
    assert TrimStart(s) == w + " " by {
      assert TrimStart(s) == TrimStart(s[1..]);
      assert (w + " ")[0] == w[0];
    }
    var t := w + " ";
    assert t[..|t| - 1] == w;
    assert TrimEnd(t) == TrimEnd(w);
  }

  /**
   * Entities are decoded one after another with `&amp;` first, so
   * `&amp;lt;` is decoded twice and becomes `<`.
   */
  lemma DoubleDecoding(a: string, z: string)
    requires '&' !in a && '&' !in z
    ensures DecodeEntities(a + ("&amp;lt;" + z)) == a + ("<" + z)
  {
    var s := a + ("&amp;lt;" + z);
    var s1 := ReplaceAll(s, "&nbsp;", " ");
    assert s1 == s by {
      assert s == a + (['&'] + ("amp;lt;" + z));
      ReplaceAllMissesAmpersand(a, "amp;lt;" + z, "&nbsp;", " ");
    }
    var s2 := ReplaceAll(s1, "&amp;", "&");
    assert s2 == a + ("&lt;" + z) by {
      assert "&amp;lt;" + z == "&amp;" + ("lt;" + z);
      ReplaceAllSingle(a, "lt;" + z, "&amp;", "&");
      assert "&" + ("lt;" + z) == "&lt;" + z;
    }
    var s3 := ReplaceAll(s2, "&lt;", "<");
    assert s3 == a + ("<" + z) by {
      ReplaceAllSingle(a, z, "&lt;", "<");
    }
    assert '&' !in s3;
    ReplaceAllAbsent(s3, "&gt;", ">");
    ReplaceAllAbsent(s3, "&quot;", "\"");
  }

  /** `&amp;` between two runs of text without `&` decodes to a single `&`. */
  lemma DecodeSingleAmp(a: string, z: string)
    requires '&' !in a && '&' !in z && z != [] && z[0] == ' '
    ensures DecodeEntities(a + ("&amp;" + z)) == a + ("&" + z)
  {
    var s := a + ("&amp;" + z);
    var s1 := ReplaceAll(s, "&nbsp;", " ");
    assert s1 == s by {
      assert s == a + (['&'] + ("amp;" + z));
      ReplaceAllMissesAmpersand(a, "amp;" + z, "&nbsp;", " ");
    }
    var d := a + ("&" + z);
    assert ReplaceAll(s1, "&amp;", "&") == d by {
      ReplaceAllSingle(a, z, "&amp;", "&");
    }
    ReplaceAllMissesAmpersand(a, z, "&lt;", "<");
    ReplaceAllMissesAmpersand(a, z, "&gt;", ">");
    ReplaceAllMissesAmpersand(a, z, "&quot;", "\"");
  }

  /** Markup in the bold tags and the stripped text. */
  lemma BoldPairMarkup(u: string, v: string)
    requires Plain(u) && Plain(v)
    ensures var html := "<b>" + (u + " &amp; " + v) + "</b>";
      && (forall i :: 0 <= i < |html| - 1 && html[i] == '<' ==> html[i + 1] == 'b' || html[i + 1] == '/')
      && '<' !in u + " &amp; " + v
      && StripTags(html) == " " + (u + " &amp; " + v) + " "
  {
    var mid := u + " &amp; " + v;
    var html := "<b>" + mid + "</b>";
    assert forall j :: 0 <= j < |mid| ==> mid[j] != '<';
    forall i | 3 <= i < 3 + |mid|
      ensures html[i] != '<'
    {
      assert html[i] == mid[i - 3];
    }
    assert html[1..][0] == 'b' && html[1..][1] == '>';
    assert TagAt(html) && IndexOf(html[1..], '>') == 1;
    assert html[3..] == mid + "</b>";
    StripTagsPlainPrefix(mid, "</b>");
    ClosingTag("</b>");
  }

  /** The decoded text has single plain spaces only, between words. */
  lemma BoldPairSpaces(u: string, v: string)
    requires Plain(u) && Plain(v)
    ensures NoDoubleSpace(" " + (u + " & " + v) + " ") && OnlyPlainSpaces(" " + (u + " & " + v) + " ")
  {
    assert NoDoubleSpace(u) && OnlyPlainSpaces(u) && NoDoubleSpace(v) && OnlyPlainSpaces(v);
    NoDoubleSpaceJoin(" ", u);
    NoDoubleSpaceJoin(" " + u, " & ");
    NoDoubleSpaceJoin(" " + u + " & ", v);
    NoDoubleSpaceJoin(" " + u + " & " + v, " ");
    assert " " + (u + " & " + v) + " " == " " + u + " & " + v + " ";
  }

  /**
   * Two plain words joined by an encoded ampersand inside a bold tag clean
   * to the words joined by `&`; `"<b>AWS &amp; Azure</b>"` cleans to
   * `"AWS & Azure"`.
   */
  lemma CleanHtmlBoldPair(u: string, v: string)
    requires Plain(u) && Plain(v)
    ensures CleanHtml("<b>" + (u + " &amp; " + v) + "</b>") == u + " & " + v
  {
    var html := "<b>" + (u + " &amp; " + v) + "</b>";
    var w := u + " & " + v;
    BoldPairMarkup(u, v);
    RemoveBlocksNoOpening(html, "script");
    RemoveBlocksNoOpening(html, "style");
    BoldPairDecoded(u, v);
    BoldPairSpaces(u, v);
    CollapseSpacesFixed(" " + w + " ");
    TrimPadded(w);
  }

  lemma BoldPairDecoded(u: string, v: string)
    requires Plain(u) && Plain(v)
    ensures DecodeEntities(" " + (u + " &amp; " + v) + " ") == " " + (u + " & " + v) + " "
  {
    var a, z := " " + u + " ", " " + v + " ";
    assert " " + (u + " &amp; " + v) + " " == a + ("&amp;" + z);
    assert '&' !in a && '&' !in z;
    DecodeSingleAmp(a, z);
    assert a + ("&" + z) == " " + (u + " & " + v) + " ";
  }

  /** A bold title with an encoded ampersand: `"<b>AWS &amp; Azure</b>"` cleans to `"AWS & Azure"`. */
  lemma CleanHtmlExample()
    ensures CleanHtml("<b>AWS &amp; Azure</b>") == "AWS & Azure"
  {
    hide CleanHtml;
    var u, v := "AWS", "Azure";
    assert Plain(u) && Plain(v);
    CleanHtmlBoldPair(u, v);
    assert "<b>" + (u + " &amp; " + v) + "</b>" == "<b>AWS &amp; Azure</b>";
    assert u + " & " + v == "AWS & Azure";
  }
}
