/**
 * src/lib/markdownOutline.js: the table of contents of a markdown document.
 * Every `##`/`###` heading outside a fenced code block becomes a record
 * `{ id, text, level }`; the text loses its closing hashes and inline
 * markup, and the id is the text's slug, made distinct per slug by a
 * counter that lives for one extraction.
 */
module Outline {
  import opened Text
  import opened Rewrite

  const DefaultMinDepth: int := 2
  const DefaultMaxDepth: int := 3

  /** One record of the outline. */
  datatype Heading = Heading(id: string, text: string, level: nat)

  /** What HEADING_PATTERN captures: the number of `#` and the text after the whitespace. */
  datatype HeadingLine = HeadingLine(level: nat, content: string)

  /** A heading the extractor keeps, before its id is assigned. */
  datatype Candidate = Candidate(text: string, level: nat)

  function Hashes(n: nat): (h: string)
    ensures |h| == n && forall i | 0 <= i < n :: h[i] == '#'
  {
    seq(n, _ => '#')
  }

  /** Length of the longest prefix of `#`. */
  function LeadingHashes(s: string): (k: nat)
    ensures k <= |s|
    ensures forall i | 0 <= i < k :: s[i] == '#'
    ensures k < |s| ==> s[k] != '#'
  {
    if |s| > 0 && s[0] == '#' then 1 + LeadingHashes(s[1..]) else 0
  }

  /**
   * HEADING_PATTERN, `/^(#{2,3})\s+(.+?)\s*$/`, on a trimmed line. A match
   * is two or three `#`, whitespace, then text that does not start with
   * whitespace and holds no line terminator (`.` does not match one).
   */
  function MatchHeading(t: string): (m: Option<HeadingLine>)
    requires IsTrimmed(t)
    ensures m.Some? ==>
      var h := m.value;
      && (h.level == 2 || h.level == 3)
      && h.level < |t| - |h.content|
      && t[..h.level] == Hashes(h.level)
      && AllSpace(t[h.level..|t| - |h.content|])
      && t[|t| - |h.content|..] == h.content
      && h.content != [] && !IsSpace(h.content[0]) && NoLineTerminator(h.content)
  {
    var n := LeadingHashes(t);
    if (n == 2 || n == 3) && n < |t| && IsSpace(t[n]) then
      var k := LeadingSpaces(t[n..]);
      var content := t[n + k..];
      assert t[n..n + k] == t[n..][..k];
      if content != [] && NoLineTerminator(content) then Some(HeadingLine(n, content)) else None
    else None
  }

  /** Every line of the shape HEADING_PATTERN describes is matched, with that level and text. */
  lemma MatchHeadingComplete(level: nat, gap: string, content: string)
    requires level == 2 || level == 3
    requires gap != [] && AllSpace(gap)
    requires content != [] && !IsSpace(content[0]) && !IsSpace(content[|content| - 1])
    requires NoLineTerminator(content)
    ensures IsTrimmed(Hashes(level) + gap + content)
    ensures MatchHeading(Hashes(level) + gap + content) == Some(HeadingLine(level, content))
  {
    var t := Hashes(level) + gap + content;
    HeadingLineLayout(level, gap, content, t);
    MatchHeadingAt(t, level, |gap|, content);
  }

  /** Where the pieces of `Hashes(level) + gap + content` lie. */
  lemma HeadingLineLayout(level: nat, gap: string, content: string, t: string)
    requires 1 <= level && t == Hashes(level) + gap + content
    requires gap != [] && AllSpace(gap)
    requires content != [] && !IsSpace(content[0]) && !IsSpace(content[|content| - 1])
    ensures IsTrimmed(t) && level < |t| && IsSpace(t[level])
    ensures LeadingHashes(t) == level
    ensures LeadingSpaces(t[level..]) == |gap|
    ensures t[level + |gap|..] == content
  {
    var g := |gap|;
    forall i | 0 <= i < level
      ensures t[i] == '#'
    {
    }
    forall i | level <= i < level + g
      ensures IsSpace(t[i])
    {
      assert t[i] == gap[i - level];
    }
    assert t[level + g] == content[0];
    assert t[|t| - 1] == content[|content| - 1];
    assert t[level + g..] == content;
    HeadingLineRuns(t, level, g);
  }

  /** `#` on `[0, level)`, whitespace on `[level, level + g)` and then a non-space: the two runs are measured. */
  lemma HeadingLineRuns(t: string, level: nat, g: nat)
    requires 1 <= level && level + g < |t|
    requires forall i | 0 <= i < level :: t[i] == '#'
    requires forall i | level <= i < level + g :: IsSpace(t[i])
    requires g >= 1 && !IsSpace(t[level + g]) && !IsSpace(t[|t| - 1])
    ensures IsTrimmed(t) && IsSpace(t[level])
    ensures LeadingHashes(t) == level
    ensures LeadingSpaces(t[level..]) == g
  {
    LeadingHashesIs(t, level);
    LeadingSpacesIs(t[level..], g);
  }

  /** MatchHeading once the `#` run and the whitespace run after it are measured. */
  lemma MatchHeadingAt(t: string, level: nat, k: nat, content: string)
    requires IsTrimmed(t) && (level == 2 || level == 3) && level < |t| && IsSpace(t[level])
    requires LeadingHashes(t) == level && LeadingSpaces(t[level..]) == k
    requires level + k <= |t| && t[level + k..] == content
    requires content != [] && NoLineTerminator(content)
    ensures MatchHeading(t) == Some(HeadingLine(level, content))
  {
  }

  /** A closing decoration `\s+#+\s*`: whitespace, at least one `#`, optional whitespace. */
  predicate IsClosingRun(d: string) {
    var a := LeadingSpaces(d);
    var b := a + LeadingHashes(d[a..]);
    1 <= a < b && AllSpace(d[b..])
  }

  lemma {:induction false} LeadingHashesIs(s: string, k: nat)
    requires k <= |s| && (forall i | 0 <= i < k :: s[i] == '#') && (k < |s| ==> s[k] != '#')
    ensures LeadingHashes(s) == k
  {
    if k > 0 {
      LeadingHashesIs(s[1..], k - 1);
    }
  }

  /** Whitespace at `[r, r+w)`, hashes at `[r+w, r+w+h)` and whitespace after them form a closing run. */
  lemma ClosingRunAt(p: string, r: nat, w: nat, h: nat)
    requires w >= 1 && h >= 1 && r + w + h <= |p|
    requires forall j | r <= j < r + w :: IsSpace(p[j])
    requires forall j | r + w <= j < r + w + h :: p[j] == '#'
    requires forall j | r + w + h <= j < |p| :: IsSpace(p[j])
    ensures IsClosingRun(p[r..])
  {
    var d := p[r..];
    assert forall j | 0 <= j < w :: d[..w][j] == p[r + j];
    assert d[w] == p[r + w];
    LeadingSpacesIs(d, w);
    var e := d[w..];
    assert forall j | 0 <= j < h :: e[..h][j] == p[r + w + j];
    assert e[..h] == Hashes(h);
    if h < |e| {
      assert e[h] == p[r + w + h];
    }
    LeadingHashesIs(e, h);
    assert forall j | 0 <= j < |e| - h :: e[h..][j] == p[r + w + h + j];
  }

  /** Length of the whitespace run that ends just before index `k`. */
  function SpacesBefore(s: string, k: nat): (n: nat)
    requires k <= |s|
    ensures n <= k
    ensures forall j | k - n <= j < k :: IsSpace(s[j])
    ensures n < k ==> !IsSpace(s[k - n - 1])
  {
    if k > 0 && IsSpace(s[k - 1]) then 1 + SpacesBefore(s, k - 1) else 0
  }

  /** Length of the `#` run that ends just before index `k`. */
  function HashesBefore(s: string, k: nat): (n: nat)
    requires k <= |s|
    ensures n <= k
    ensures forall j | k - n <= j < k :: s[j] == '#'
    ensures n < k ==> s[k - n - 1] != '#'
  {
    if k > 0 && s[k - 1] == '#' then 1 + HashesBefore(s, k - 1) else 0
  }

  lemma {:induction false} SpacesBeforeIs(s: string, k: nat, n: nat)
    requires n <= k <= |s|
    requires forall j | k - n <= j < k :: IsSpace(s[j])
    requires n < k ==> !IsSpace(s[k - n - 1])
    ensures SpacesBefore(s, k) == n
    decreases n
  {
    if n > 0 {
      SpacesBeforeIs(s, k - 1, n - 1);
    }
  }

  lemma {:induction false} HashesBeforeIs(s: string, k: nat, n: nat)
    requires n <= k <= |s|
    requires forall j | k - n <= j < k :: s[j] == '#'
    requires n < k ==> s[k - n - 1] != '#'
    ensures HashesBefore(s, k) == n
    decreases n
  {
    if n > 0 {
      HashesBeforeIs(s, k - 1, n - 1);
    }
  }

  /**
   * `replace(/\s+#+\s*$/, '')`: the closing hashes of a heading, with the
   * whitespace before and after them, are dropped. Scanning back from the
   * end past trailing whitespace, then the final `#` run, then the
   * whitespace before it, finds the leftmost place the pattern matches.
   */
  function StripClosingHashes(p: string): (r: string)
    ensures StartsWith(p, r)
    ensures r != p ==> IsClosingRun(p[|r|..]) && (r == [] || !IsSpace(r[|r| - 1]))
  {
    var e := |p| - SpacesBefore(p, |p|);
    var b := e - HashesBefore(p, e);
    var a := b - SpacesBefore(p, b);
    if a < b < e then
      ClosingRunAt(p, a, b - a, e - b);
      p[..a]
    else p
  }

  /** `"### Title ###"` keeps `"Title"`: a closing run after text that ends in a non-space is removed. */
  lemma ClosingHashesRemoved(x: string, gap: string, n: nat, tail: string)
    requires x == [] || !IsSpace(x[|x| - 1])
    requires gap != [] && AllSpace(gap)
    requires n >= 1 && AllSpace(tail)
    ensures StripClosingHashes(x + gap + Hashes(n) + tail) == x
  {
    var p := x + gap + Hashes(n) + tail;
    ClosingLineLayout(x, gap, n, tail, p);
    StripClosingHashesAt(p, |x|, |x| + |gap|, |x| + |gap| + n);
  }

  /** Where the pieces of `x + gap + Hashes(n) + tail` lie. */
  lemma ClosingLineLayout(x: string, gap: string, n: nat, tail: string, p: string)
    requires p == x + gap + Hashes(n) + tail
    requires AllSpace(gap) && AllSpace(tail)
    ensures p[..|x|] == x
    ensures |x| > 0 ==> p[|x| - 1] == x[|x| - 1]
    ensures forall j | |x| <= j < |x| + |gap| :: IsSpace(p[j])
    ensures forall j | |x| + |gap| <= j < |x| + |gap| + n :: p[j] == '#'
    ensures forall j | |x| + |gap| + n <= j < |p| :: IsSpace(p[j])
  {
    var a, g := |x|, |gap|;
    var e := a + g + n;
    forall j | e <= j < |p|
      ensures IsSpace(p[j])
    {
      assert p[j] == tail[j - e];
    }
    forall j | a + g <= j < e
      ensures p[j] == '#'
    {
      assert p[j] == Hashes(n)[j - a - g];
    }
    forall j | a <= j < a + g
      ensures IsSpace(p[j])
    {
      assert p[j] == gap[j - a];
    }
  }

  /**
   * Text that is non-space up to `a`, whitespace on `[a, b)`, `#` on `[b, e)`
   * and whitespace after loses everything from `a` on.
   */
  lemma StripClosingHashesAt(p: string, a: nat, b: nat, e: nat)
    requires a < b < e <= |p|
    requires a > 0 ==> !IsSpace(p[a - 1])
    requires forall j | a <= j < b :: IsSpace(p[j])
    requires forall j | b <= j < e :: p[j] == '#'
    requires forall j | e <= j < |p| :: IsSpace(p[j])
    ensures StripClosingHashes(p) == p[..a]
  {
    SpacesBeforeIs(p, |p|, |p| - e);
    HashesBeforeIs(p, e, e - b);
    SpacesBeforeIs(p, b, b - a);
  }

  /** stripInlineMarkdown: inline code, bold, italics and links, in that order. */
  function StripInlineMarkdown(s: string): (r: string)
    ensures |r| <= |s|
  {
    Replace(Link, Replace(Italic, Replace(Bold, Replace(Code, s))))
  }

  /** Stripping inline markup only deletes characters, so it never lengthens the text. */
  lemma StripInlineMarkdownDeletesOnly(s: string)
    ensures IsSubseq(StripInlineMarkdown(s), s)
    ensures |StripInlineMarkdown(s)| <= |s|
  {
    var a := Replace(Code, s);
    var b := Replace(Bold, a);
    var c := Replace(Italic, b);
    ReplaceDeletesOnly(Code, s);
    ReplaceDeletesOnly(Bold, a);
    ReplaceDeletesOnly(Italic, b);
    ReplaceDeletesOnly(Link, c);
    SubseqTrans(b, a, s);
    SubseqTrans(c, b, s);
    SubseqTrans(StripInlineMarkdown(s), c, s);
    SubseqLength(StripInlineMarkdown(s), s);
  }

  /** Text with no backtick, `*` or `[` is left unchanged. */
  lemma StripInlineMarkdownPlainText(s: string)
    requires '`' !in s && '*' !in s && '[' !in s
    ensures StripInlineMarkdown(s) == s
  {
    ReplaceWithoutOpener(Code, s);
    ReplaceWithoutOpener(Bold, s);
    ReplaceWithoutOpener(Italic, s);
    ReplaceWithoutOpener(Link, s);
  }

  /**
   * Code, bold and link markup are removed and their text kept, in text that
   * mixes all three: plain words `w1`, a bold span, plain words `w2`, a code
   * span, plain words `w3` and a link.
   */
  lemma StripInlineMarkdownMixed(w1: string, bold: string, w2: string, code: string, w3: string,
                                 caption: string, url: string)
    requires NoInlineOpener(w1) && NoInlineOpener(w2) && NoInlineOpener(w3)
    requires bold != [] && NoInlineOpener(bold) && code != [] && NoInlineOpener(code)
    requires caption != [] && NoInlineOpener(caption) && ']' !in caption
    requires url != [] && NoInlineOpener(url) && ')' !in url
    ensures StripInlineMarkdown(w1 + "**" + bold + "**" + w2 + "`" + code + "`" + w3
                                + "[" + caption + "](" + url + ")")
         == w1 + bold + w2 + code + w3 + caption
  {
    var p1 := w1 + "**" + bold + "**" + w2;
    var link := "[" + caption + "](" + url + ")";
    var s := w1 + "**" + bold + "**" + w2 + "`" + code + "`" + w3 + "[" + caption + "](" + url + ")";
    var a := p1 + code + (w3 + link);
    assert Replace(Code, s) == a by {
      AppendAssoc7(p1 + "`" + code + "`", w3, "[", caption, "](", url, ")");
      assert s == p1 + "`" + code + "`" + (w3 + link);
      CodePassMixed(p1, code, w3 + link);
    }
    var b := w1 + bold + (w2 + code + (w3 + link));
    assert Replace(Bold, a) == b by {
      AppendAssoc3(w1 + "**" + bold + "**", w2, code, w3 + link);
      BoldPassMixed(w1, bold, w2 + code + (w3 + link));
    }
    var pre := w1 + bold + w2 + code + w3;
    assert b == pre + link by {
    }
    assert '*' !in b;
    ReplaceWithoutOpener(Italic, b);
    LinkPassMixed(pre, caption, url);
  }

  /** The worked sentence: `See **bold** and `code` and [a link](http://x.com)` reads `See bold and code and a link`. */
  lemma StripInlineMarkdownExample()
    ensures StripInlineMarkdown("See " + "**" + "bold" + "**" + " and " + "`" + "code" + "`" + " and "
                                + "[" + "a link" + "](" + "http://x.com" + ")")
         == "See " + "bold" + " and " + "code" + " and " + "a link"
  {
    ExamplePiecesPlain();
    StripInlineMarkdownMixed("See ", "bold", " and ", "code", " and ", "a link", "http://x.com");
  }

  lemma ExamplePiecesPlain()
    ensures NoInlineOpener("See ") && NoInlineOpener("bold") && NoInlineOpener(" and ")
    ensures NoInlineOpener("code") && NoInlineOpener("a link") && ']' !in "a link"
    ensures NoInlineOpener("http://x.com") && ')' !in "http://x.com"
  {
    ExampleUrlPlain();
  }

  lemma ExampleUrlPlain()
    ensures NoInlineOpener("http://x.com") && ')' !in "http://x.com"
  {
  }

  lemma AppendAssoc3<T>(a: seq<T>, b: seq<T>, c: seq<T>, d: seq<T>)
    ensures a + b + c + d == a + (b + c + d)
  {
  }

  lemma AppendAssoc4<T>(a: seq<T>, b: seq<T>, c: seq<T>, d: seq<T>, e: seq<T>)
    ensures a + b + c + d + e == a + (b + c + d + e)
  {
  }

  lemma AppendAssoc7<T>(a: seq<T>, b: seq<T>, c: seq<T>, d: seq<T>, e: seq<T>, f: seq<T>, g: seq<T>)
    ensures a + b + c + d + e + f + g == a + (b + (c + d + e + f + g))
  {
  }

  /** None of the characters that open a code, bold, italic or link span. */
  predicate NoInlineOpener(s: string) {
    '`' !in s && '*' !in s && '[' !in s
  }

  lemma CodePassMixed(pre: string, code: string, rest: string)
    requires '`' !in pre && '`' !in rest
    requires code != [] && '`' !in code
    ensures Replace(Code, pre + "`" + code + "`" + rest) == pre + code + rest
  {
    var t := "`" + code + "`" + rest;
    assert pre + "`" + code + "`" + rest == pre + t by {
      AppendAssoc4(pre, "`", code, "`", rest);
    }
    assert Replace(Code, t) == code + rest by {
      CodeSpanStripped(code, rest);
      ReplaceWithoutOpener(Code, rest);
    }
    ReplacePlain(Code, pre, t);
  }

  lemma BoldPassMixed(w1: string, bold: string, rest: string)
    requires '*' !in w1 && '*' !in rest
    requires bold != [] && '*' !in bold
    ensures Replace(Bold, w1 + "**" + bold + "**" + rest) == w1 + bold + rest
  {
    var t := "**" + bold + "**" + rest;
    assert w1 + "**" + bold + "**" + rest == w1 + t by {
      AppendAssoc4(w1, "**", bold, "**", rest);
    }
    assert Replace(Bold, t) == bold + rest by {
      BoldSpanStripped(bold, rest);
      ReplaceWithoutOpener(Bold, rest);
    }
    ReplacePlain(Bold, w1, t);
  }

  lemma LinkPassMixed(pre: string, caption: string, url: string)
    requires '[' !in pre
    requires caption != [] && ']' !in caption && url != [] && ')' !in url
    ensures Replace(Link, pre + ("[" + caption + "](" + url + ")")) == pre + caption
  {
    var link := "[" + caption + "](" + url + ")";
    assert link + [] == link;
    ReplacePlain(Link, pre, link);
    LinkSpanStripped(caption, url, []);
  }

  /** The heading text kept for a match: closing hashes and inline markup removed, then trimmed. */
  function HeadingText(content: string): string {
    Trim(StripInlineMarkdown(StripClosingHashes(content)))
  }

  /** A run of asterisks holds no bold or italic span: every `*` is followed by another or by nothing. */
  lemma {:induction false} StarsUntouched(rule: Rule, s: string)
    requires rule == Bold || rule == Italic
    requires forall i | 0 <= i < |s| :: s[i] == '*'
    ensures Replace(rule, s) == s
    decreases |s|
  {
    if s != [] {
      if |s| >= 2 {
        assert s[1..][0] == '*';
      }
      if |s| >= 3 {
        assert s[2..][0] == '*';
      }
      assert MatchAt(rule, s) == None;
      StarsUntouched(rule, s[1..]);
      assert s == [s[0]] + s[1..];
    }
  }

  /**
   * A heading whose text is only asterisks keeps them all: no inline pass
   * removes anything, so such a heading is not dropped.
   */
  lemma StarsOnlyHeadingKept(s: string)
    requires s != [] && forall i | 0 <= i < |s| :: s[i] == '*'
    ensures HeadingText(s) == s
  {
    var r := StripClosingHashes(s);
    if r != s {
      assert false;
    }
    ReplaceWithoutOpener(Code, s);
    StarsUntouched(Bold, s);
    StarsUntouched(Italic, s);
    ReplaceWithoutOpener(Link, s);
    TrimOfTrimmed(s);
  }

  /** The characters a slug is made of: `[a-z0-9_-]`. */
  predicate IsSlugChar(c: char) {
    'a' <= c <= 'z' || IsDigit(c) || c == '_' || c == '-'
  }

  predicate KeptBySlugify(c: char) {
    IsWordChar(c) || IsSpace(c) || c == '-'
  }

  /** `replace(/\s+/g, '-')`: every whitespace run becomes one hyphen. */
  function DashSpaces(s: string): string
    decreases |s|
  {
    if s == [] then []
    else if IsSpace(s[0]) then ['-'] + DashSpaces(s[LeadingSpaces(s)..])
    else [s[0]] + DashSpaces(s[1..])
  }

  /** slugify: lower-case, trim, keep `[\w\s-]`, then turn whitespace runs into hyphens. */
  function Slugify(s: string): string {
    DashSpaces(Filter(Trim(ToLower(s)), KeptBySlugify))
  }

  /** Whitespace runs become hyphens and nothing else changes, so slug characters stay slug characters. */
  lemma {:induction false} DashSpacesChars(s: string)
    requires forall i | 0 <= i < |s| :: IsSlugChar(s[i]) || IsSpace(s[i])
    ensures forall i | 0 <= i < |DashSpaces(s)| :: IsSlugChar(DashSpaces(s)[i])
    decreases |s|
  {
    if s != [] {
      var k := if IsSpace(s[0]) then LeadingSpaces(s) else 1;
      DashSpacesChars(s[k..]);
    }
  }

  /** A slug holds only `[a-z0-9_-]`: no whitespace and no upper case. */
  lemma SlugifyChars(s: string)
    ensures forall i | 0 <= i < |Slugify(s)| :: IsSlugChar(Slugify(s)[i])
  {
    var trimmed := Trim(ToLower(s));
    assert forall i | 0 <= i < |trimmed| :: !('A' <= trimmed[i] <= 'Z') by {
      var a := LeadingSpaces(ToLower(s));
      forall i | 0 <= i < |trimmed|
        ensures !('A' <= trimmed[i] <= 'Z')
      {
        assert trimmed[i] == ToLower(s)[a + i] == ToLowerChar(s[a + i]);
      }
    }
    var kept := Filter(trimmed, KeptBySlugify);
    FilterPreserves(trimmed, KeptBySlugify, (c: char) => !('A' <= c <= 'Z'));
    DashSpacesChars(kept);
  }

  lemma {:induction false} DashSpacesWithoutSpaces(s: string)
    requires forall i | 0 <= i < |s| :: !IsSpace(s[i])
    ensures DashSpaces(s) == s
    decreases |s|
  {
    if s != [] {
      DashSpacesWithoutSpaces(s[1..]);
    }
  }

  /** A slug is its own slug: slugify is idempotent. */
  lemma SlugifyIdempotent(s: string)
    ensures Slugify(Slugify(s)) == Slugify(s)
  {
    var r := Slugify(s);
    SlugifyChars(s);
    SlugCharsFixed(r);
    TrimOfTrimmed(r);
    assert Trim(ToLower(r)) == r;
    FilterKeepsAll(r, KeptBySlugify);
    assert Filter(Trim(ToLower(r)), KeptBySlugify) == r;
    DashSpacesWithoutSpaces(r);
  }

  /** Text made of slug characters is lower case, has no whitespace and keeps every character. */
  lemma SlugCharsFixed(r: string)
    requires forall i | 0 <= i < |r| :: IsSlugChar(r[i])
    ensures ToLower(r) == r && IsTrimmed(r)
    ensures forall i | 0 <= i < |r| :: KeptBySlugify(r[i]) && !IsSpace(r[i])
  {
    forall i | 0 <= i < |r|
      ensures ToLower(r)[i] == r[i]
    {
      assert IsSlugChar(r[i]);
    }
  }

  /** The id for the (count + 1)-th use of a base slug: the base, then `base-1`, `base-2`, ... */
  function Disambiguate(base: string, count: nat): string {
    if count == 0 then base else base + "-" + NatToString(count)
  }

  /** Two uses of the same base slug never get the same id. */
  lemma DisambiguateInjective(base: string, m: nat, n: nat)
    ensures Disambiguate(base, m) == Disambiguate(base, n) <==> m == n
  {
    if m != n {
      if m != 0 && n != 0 {
        var a, b := Disambiguate(base, m), Disambiguate(base, n);
        if a == b {
          assert a[|base| + 1..] == NatToString(m);
          assert b[|base| + 1..] == NatToString(n);
          NatToStringInjective(m, n);
        }
      } else {
        assert |Disambiguate(base, m)| != |Disambiguate(base, n)|;
      }
    }
  }

  /** `seen.get(base) ?? 0`. */
  function Lookup(seen: map<string, nat>, base: string): nat {
    if base in seen then seen[base] else 0
  }

  /** The counter map after the given bases have been seen, in order. */
  function Tally(bases: seq<string>): map<string, nat> {
    if bases == [] then map[]
    else
      var before := Tally(bases[..|bases| - 1]);
      var base := bases[|bases| - 1];
      before[base := Lookup(before, base) + 1]
  }

  /** The counter map holds, for each base, how many times it was seen. */
  lemma {:induction false} TallyCounts(bases: seq<string>, base: string)
    ensures Lookup(Tally(bases), base) == Count(bases, base)
  {
    if bases != [] {
      TallyCounts(bases[..|bases| - 1], base);
    }
  }

  lemma TallySnoc(bases: seq<string>, base: string)
    ensures Tally(bases + [base]) == Tally(bases)[base := Lookup(Tally(bases), base) + 1]
  {
    SnocParts(bases, base);
  }

  /** The counter map of the seen bases answers with the base's count, and one more use bumps just that entry. */
  lemma TallyStep(bases: seq<string>, base: string, seen: map<string, nat>)
    requires seen == Tally(bases)
    ensures Lookup(seen, base) == Count(bases, base)
    ensures Tally(bases + [base]) == seen[base := Lookup(seen, base) + 1]
  {
    TallySnoc(bases, base);
    TallyCounts(bases, base);
  }

  /**
   * createSlugger: the closure and the `seen` map it captures. The ghost
   * field `bases` lists the base slugs of the values slugged so far, and the
   * map always holds how often each of them occurred.
   */
  class Slugger {
    var seen: map<string, nat>
    ghost var bases: seq<string>

    ghost predicate Valid()
      reads this
    {
      seen == Tally(bases)
    }

    constructor ()
      ensures Valid() && seen == map[] && bases == []
    {
      seen := map[];
      bases := [];
    }

    /**
     * One call of the slugger: the k-th call with a given base slug returns
     * the base when k = 1 and `base-(k-1)` after that; only that base's
     * count changes.
     */
    method Slug(value: string) returns (id: string)
      requires Valid()
      modifies this
      ensures Valid() && bases == old(bases) + [Slugify(value)]
      ensures seen == old(seen)[Slugify(value) := Lookup(old(seen), Slugify(value)) + 1]
      ensures id == Disambiguate(Slugify(value), Count(old(bases), Slugify(value)))
    {
      var base := Slugify(value);
      id := Number(base);
    }

    /** The counting half of a call, once the base slug is known. */
    method Number(base: string) returns (id: string)
      requires Valid()
      modifies this
      ensures Valid() && bases == old(bases) + [base]
      ensures seen == old(seen)[base := Lookup(old(seen), base) + 1]
      ensures id == Disambiguate(base, Count(old(bases), base))
    {
      var count := if base in seen then seen[base] else 0;
      TallyStep(bases, base, seen);
      var nextCount := count + 1;
      seen := seen[base := nextCount];
      bases := bases + [base];
      if count == 0 {
        return base;
      }
      return base + "-" + NatToString(count);
    }
  }

  /**
   * The ids the slugger hands out for a sequence of base slugs, in order:
   * each base, suffixed by how often it came before.
   */
  function Ids(bases: seq<string>): (ids: seq<string>)
    ensures |ids| == |bases|
  {
    if bases == [] then []
    else
      var n := |bases| - 1;
      Ids(bases[..n]) + [Disambiguate(bases[n], Count(bases[..n], bases[n]))]
  }

  lemma IdsSnoc(bases: seq<string>, base: string)
    ensures Ids(bases + [base]) == Ids(bases) + [Disambiguate(base, Count(bases, base))]
  {
    SnocParts(bases, base);
  }

  /** The k-th id is the k-th base, numbered by the uses of that base before position k. */
  lemma {:induction false} IdsSpec(bases: seq<string>)
    ensures forall k {:trigger Ids(bases)[k]} | 0 <= k < |bases| ::
      Ids(bases)[k] == Disambiguate(bases[k], Count(bases[..k], bases[k]))
  {
    if bases != [] {
      var n := |bases| - 1;
      IdsSpec(bases[..n]);
      forall k | 0 <= k < n
        ensures bases[..n][..k] == bases[..k]
      {
        PrefixOfPrefix(bases, k, n);
      }
    }
  }

  /** Two uses of the same base never get the same id. */
  lemma SameBaseDistinctIds(bases: seq<string>, i: nat, j: nat)
    requires i < j < |bases| && bases[i] == bases[j]
    ensures Ids(bases)[i] != Ids(bases)[j]
  {
    IdsSpec(bases);
    CountGrows(bases, i, j);
    DisambiguateInjective(bases[i], Count(bases[..i], bases[i]), Count(bases[..j], bases[i]));
  }

  /**
   * Ids are not unique across different bases: a second use of `b` is
   * numbered `b-1`, which is also the id a later base `b-1` gets as its
   * first use.
   */
  lemma SuffixedBaseCollides(b: string)
    ensures Ids([b, b, b + "-1"])[1] == Ids([b, b, b + "-1"])[2] == b + "-1"
  {
    var bases := [b, b, b + "-1"];
    IdsSpec(bases);
    assert bases[..1] == [b];
    assert bases[..2] == [b, b];
    assert Count([b], b) == 1 by {
      assert [b][..0] == [];
    }
    assert NatToString(1) == "1";
    assert Count([b, b], b + "-1") == 0 by {
      assert |b + "-1"| != |b|;
      assert [b, b][..1] == [b];
    }
  }

  /** A fence line: its trimmed form starts with ``` or ~~~. */
  predicate IsFence(trimmed: string) {
    StartsWith(trimmed, "```") || StartsWith(trimmed, "~~~")
  }

  /** Whether a fence is open after the lines: each fence line toggles it, starting closed. */
  predicate FenceOpen(lines: seq<string>) {
    if lines == [] then false
    else FenceOpen(lines[..|lines| - 1]) != IsFence(Trim(lines[|lines| - 1]))
  }

  /** The heading a trimmed line outside a fence yields: a `##`/`###` match within the depth bounds whose text is not empty. */
  function HeadingCandidate(t: string, minDepth: int, maxDepth: int): (c: Option<Candidate>)
    requires IsTrimmed(t)
    ensures c.Some? ==> (c.value.level == 2 || c.value.level == 3) && minDepth <= c.value.level <= maxDepth
    ensures c.Some? ==> c.value.text != [] && IsTrimmed(c.value.text)
  {
    match MatchHeading(t)
    case None => None
    case Some(h) =>
      if h.level < minDepth || h.level > maxDepth then None
      else
        var text := HeadingText(h.content);
        if text == [] then None else Some(Candidate(text, h.level))
  }

  /** The heading one line yields, given whether a fence is open before it. */
  function LineCandidate(line: string, inFence: bool, minDepth: int, maxDepth: int): (c: Option<Candidate>)
    ensures c.Some? ==> !inFence && !IsFence(Trim(line))
  {
    var t := Trim(line);
    if IsFence(t) || inFence then None else HeadingCandidate(t, minDepth, maxDepth)
  }

  function AsSeq<T>(o: Option<T>): seq<T> {
    match o
    case Some(x) => [x]
    case None => []
  }

  /** The headings the lines yield, in line order, at most one per line. */
  function Candidates(lines: seq<string>, minDepth: int, maxDepth: int): seq<Candidate> {
    if lines == [] then []
    else
      var before := lines[..|lines| - 1];
      Candidates(before, minDepth, maxDepth)
        + AsSeq(LineCandidate(lines[|lines| - 1], FenceOpen(before), minDepth, maxDepth))
  }

  /**
   * With the default depths (2 and 3) the range check removes nothing the
   * pattern lets through: the pattern itself admits only `##` and `###`, so
   * every match yields its heading unless the text strips to nothing.
   */
  lemma DefaultDepthsKeepEveryMatch(t: string)
    requires IsTrimmed(t)
    ensures MatchHeading(t).None? ==> HeadingCandidate(t, DefaultMinDepth, DefaultMaxDepth).None?
    ensures MatchHeading(t).Some? && HeadingText(MatchHeading(t).value.content) != [] ==>
      HeadingCandidate(t, DefaultMinDepth, DefaultMaxDepth)
        == Some(Candidate(HeadingText(MatchHeading(t).value.content), MatchHeading(t).value.level))
  {
  }

  /** The base slug of each candidate, in order. */
  function Bases(cands: seq<Candidate>): (bs: seq<string>)
    ensures |bs| == |cands|
  {
    seq(|cands|, k requires 0 <= k < |cands| => Slugify(cands[k].text))
  }

  /** Each candidate with the id the slugger gives its base slug, in order. */
  function AssignIds(cands: seq<Candidate>): (hs: seq<Heading>)
    ensures |hs| == |cands|
  {
    var ids := Ids(Bases(cands));
    seq(|cands|, k requires 0 <= k < |cands| => Heading(ids[k], cands[k].text, cands[k].level))
  }

  /** extractHeadings as a function of the markdown text and the depth bounds. */
  function Outline(markdown: string, minDepth: int, maxDepth: int): seq<Heading> {
    if markdown == [] then [] else AssignIds(Candidates(Split(markdown, '\n'), minDepth, maxDepth))
  }

  lemma FenceSnoc(before: seq<string>, line: string)
    ensures FenceOpen(before + [line]) == (FenceOpen(before) != IsFence(Trim(line)))
  {
    SnocParts(before, line);
  }

  /** Extending the lines by one extends the candidates by that line's candidate. */
  lemma CandidatesSnoc(before: seq<string>, line: string, minDepth: int, maxDepth: int)
    ensures Candidates(before + [line], minDepth, maxDepth)
      == Candidates(before, minDepth, maxDepth) + AsSeq(LineCandidate(line, FenceOpen(before), minDepth, maxDepth))
  {
    SnocParts(before, line);
  }

  lemma BasesSnoc(found: seq<Candidate>, c: Candidate)
    ensures Bases(found + [c]) == Bases(found) + [Slugify(c.text)]
  {
    var all := found + [c];
    var bs, expected := Bases(all), Bases(found) + [Slugify(c.text)];
    forall k | 0 <= k < |bs|
      ensures bs[k] == expected[k]
    {
      if k < |found| {
        assert all[k] == found[k];
      } else {
        assert all[k] == c;
      }
    }
  }

  /** Extending the candidates by one appends one record, numbered by the earlier uses of its base. */
  lemma AssignIdsSnoc(found: seq<Candidate>, c: Candidate)
    ensures AssignIds(found + [c]) == AssignIds(found)
      + [Heading(Disambiguate(Slugify(c.text), Count(Bases(found), Slugify(c.text))), c.text, c.level)]
  {
    var base := Slugify(c.text);
    var all := found + [c];
    var id := Disambiguate(base, Count(Bases(found), base));
    BasesSnoc(found, c);
    IdsSnoc(Bases(found), base);
    var ids, earlier := Ids(Bases(all)), Ids(Bases(found));
    assert ids == earlier + [id];
    var hs := AssignIds(all);
    var expected := AssignIds(found) + [Heading(id, c.text, c.level)];
    forall k | 0 <= k < |hs|
      ensures hs[k] == expected[k]
    {
      if k < |found| {
        assert all[k] == found[k] && ids[k] == earlier[k];
      } else {
        assert all[k] == c && ids[k] == id;
      }
    }
  }

  /**
   * The body of extractHeadings' loop for one line, up to the push: a fence
   * line toggles the flag, a line inside a fence is skipped, and otherwise
   * the line yields its heading, if it has one. Each early return is one of
   * the loop's `continue`s.
   */
  method ScanLine(line: string, inFence: bool, minDepth: int, maxDepth: int)
    returns (nowInFence: bool, heading: Option<Candidate>)
    ensures nowInFence == (inFence != IsFence(Trim(line)))
    ensures heading == LineCandidate(line, inFence, minDepth, maxDepth)
  {
    var trimmed := Trim(line);
    if IsFence(trimmed) {
      return !inFence, None;
    }
    nowInFence := inFence;
    if inFence {
      return nowInFence, None;
    }
    assert LineCandidate(line, inFence, minDepth, maxDepth) == HeadingCandidate(trimmed, minDepth, maxDepth);
    var m := MatchHeading(trimmed);
    if m.None? {
      return nowInFence, None;
    }
    var level := m.value.level;
    if level < minDepth || level > maxDepth {
      return nowInFence, None;
    }
    var rawText := StripClosingHashes(m.value.content);
    var text := Trim(StripInlineMarkdown(rawText));
    assert text == HeadingText(m.value.content);
    if text == [] {
      return nowInFence, None;
    }
    return nowInFence, Some(Candidate(text, level));
  }

  /** `headings.push({ id: slugger(text), text, level })` for a kept heading. */
  method Push(slugger: Slugger, headings: seq<Heading>, ghost found: seq<Candidate>, c: Candidate)
    returns (extended: seq<Heading>)
    requires slugger.Valid() && slugger.bases == Bases(found) && headings == AssignIds(found)
    modifies slugger
    ensures slugger.Valid() && slugger.bases == Bases(found + [c])
    ensures extended == AssignIds(found + [c])
  {
    AssignIdsSnoc(found, c);
    BasesSnoc(found, c);
    var id := slugger.Slug(c.text);
    extended := headings + [Heading(id, c.text, c.level)];
  }

  /** One turn of extractHeadings' loop: the state after `before` becomes the state after `before + [line]`. */
  method ScanStep(slugger: Slugger, ghost before: seq<string>, line: string, inFence: bool,
                  headings: seq<Heading>, ghost found: seq<Candidate>, minDepth: int, maxDepth: int)
    returns (nowInFence: bool, extended: seq<Heading>, ghost nowFound: seq<Candidate>)
    requires inFence == FenceOpen(before) && found == Candidates(before, minDepth, maxDepth)
    requires headings == AssignIds(found) && slugger.Valid() && slugger.bases == Bases(found)
    modifies slugger
    ensures nowInFence == FenceOpen(before + [line])
    ensures nowFound == Candidates(before + [line], minDepth, maxDepth)
    ensures extended == AssignIds(nowFound) && slugger.Valid() && slugger.bases == Bases(nowFound)
  {
    FenceSnoc(before, line);
    CandidatesSnoc(before, line, minDepth, maxDepth);
    var heading;
    nowInFence, heading := ScanLine(line, inFence, minDepth, maxDepth);
    extended, nowFound := headings, found;
    if heading.Some? {
      extended := Push(slugger, headings, found, heading.value);
      nowFound := found + [heading.value];
    }
  }

  /**
   * The loop of extractHeadings: one pass over the lines with a fence flag
   * and one slugger, appending a record for each heading kept.
   */
  method ScanLines(lines: seq<string>, minDepth: int, maxDepth: int) returns (headings: seq<Heading>)
    ensures headings == AssignIds(Candidates(lines, minDepth, maxDepth))
  {
    var slugger := new Slugger();
    headings := [];
    var inFence := false;
    ghost var found: seq<Candidate> := [];
    for i := 0 to |lines|
      invariant inFence == FenceOpen(lines[..i])
      invariant found == Candidates(lines[..i], minDepth, maxDepth)
      invariant headings == AssignIds(found)
      invariant slugger.Valid() && slugger.bases == Bases(found)
    {
      PrefixSnoc(lines, i);
      inFence, headings, found := ScanStep(slugger, lines[..i], lines[i], inFence, headings, found, minDepth, maxDepth);
    }
    PrefixAll(lines);
  }

  /** extractHeadings: no records for empty input, otherwise the records of its `\n`-separated lines. */
  method ExtractHeadings(markdown: string, minDepth: int, maxDepth: int) returns (headings: seq<Heading>)
    ensures headings == Outline(markdown, minDepth, maxDepth)
  {
    if markdown == [] {
      return [];
    }
    var lines := Split(markdown, '\n');
    headings := ScanLines(lines, minDepth, maxDepth);
  }

  /**
   * Two headings whose texts have the same base slug never share an id:
   * the later one has seen strictly more uses of the base.
   */
  lemma SameSlugDistinctIds(cands: seq<Candidate>, i: nat, j: nat)
    requires i < j < |cands|
    requires Slugify(cands[i].text) == Slugify(cands[j].text)
    ensures AssignIds(cands)[i].id != AssignIds(cands)[j].id
  {
    SameBaseDistinctIds(Bases(cands), i, j);
  }

  /** Every candidate is a `##`/`###` heading within the depth bounds, with trimmed, non-empty text. */
  predicate WellFormed(c: Candidate, minDepth: int, maxDepth: int) {
    (c.level == 2 || c.level == 3) && minDepth <= c.level <= maxDepth && c.text != [] && IsTrimmed(c.text)
  }

  lemma {:induction false} CandidatesWellFormed(lines: seq<string>, minDepth: int, maxDepth: int)
    ensures |Candidates(lines, minDepth, maxDepth)| <= |lines|
    ensures forall c | c in Candidates(lines, minDepth, maxDepth) :: WellFormed(c, minDepth, maxDepth)
  {
    if lines != [] {
      CandidatesWellFormed(lines[..|lines| - 1], minDepth, maxDepth);
    }
  }

  /**
   * The outline of any text: at most one record per line, every level is 2
   * or 3 and inside the depth bounds, every text is trimmed and not empty.
   */
  lemma OutlineWellFormed(markdown: string, minDepth: int, maxDepth: int)
    ensures |Outline(markdown, minDepth, maxDepth)| <= |Split(markdown, '\n')|
    ensures forall h | h in Outline(markdown, minDepth, maxDepth) ::
      (h.level == 2 || h.level == 3) && minDepth <= h.level <= maxDepth && h.text != [] && IsTrimmed(h.text)
  {
    if markdown != [] {
      var cands := Candidates(Split(markdown, '\n'), minDepth, maxDepth);
      CandidatesWellFormed(Split(markdown, '\n'), minDepth, maxDepth);
      forall h | h in AssignIds(cands)
        ensures WellFormed(Candidate(h.text, h.level), minDepth, maxDepth)
      {
        var k :| 0 <= k < |cands| && AssignIds(cands)[k] == h;
        assert cands[k] in cands;
      }
    }
  }

  /** `` ``` `` opens a fence that `~~~` closes, and the other way round: the styles are not told apart. */
  lemma FenceStylesClose(before: seq<string>, opener: string, closer: string)
    requires IsFence(Trim(opener)) && IsFence(Trim(closer))
    ensures FenceOpen(before + [opener]) != FenceOpen(before)
    ensures FenceOpen(before + [opener, closer]) == FenceOpen(before)
  {
    var afterOpener := before + [opener];
    FenceSnoc(before, opener);
    assert before + [opener, closer] == afterOpener + [closer];
    FenceSnoc(afterOpener, closer);
  }

  /** Every line between an opening and a closing fence line yields no heading. */
  lemma InsideFenceNoHeading(line: string, minDepth: int, maxDepth: int)
    ensures LineCandidate(line, true, minDepth, maxDepth) == None
  {
  }

  /**
   * A line that is not a fence and yields no heading (no match, a level out
   * of bounds, or text that is empty once cleaned) can be deleted without
   * changing the candidates: it never reaches the slugger, so a later
   * heading with the same base still gets the bare base.
   */
  lemma {:induction false} SkippedLineInvisible(before: seq<string>, line: string, after: seq<string>, minDepth: int, maxDepth: int)
    requires !IsFence(Trim(line))
    requires LineCandidate(line, FenceOpen(before), minDepth, maxDepth) == None
    ensures FenceOpen(before + [line] + after) == FenceOpen(before + after)
    ensures Candidates(before + [line] + after, minDepth, maxDepth) == Candidates(before + after, minDepth, maxDepth)
    decreases |after|
  {
    if after == [] {
      ConcatEmpty(before + [line]);
      ConcatEmpty(before);
      FenceSnoc(before, line);
      CandidatesSnoc(before, line, minDepth, maxDepth);
    } else {
      var last := after[|after| - 1];
      var rest := after[..|after| - 1];
      SkippedLineInvisible(before, line, rest, minDepth, maxDepth);
      ConcatSnoc(before + [line], after);
      ConcatSnoc(before, after);
      FenceSnoc(before + [line] + rest, last);
      FenceSnoc(before + rest, last);
      CandidatesSnoc(before + [line] + rest, last, minDepth, maxDepth);
      CandidatesSnoc(before + rest, last, minDepth, maxDepth);
    }
  }

  /** Plain text followed by a closing run comes out of HeadingText as that text. */
  lemma HeadingTextOfPlain(x: string, gap: string, n: nat)
    requires x != [] && IsTrimmed(x)
    requires '`' !in x && '*' !in x && '[' !in x
    requires gap != [] && AllSpace(gap) && n >= 1
    ensures HeadingText(x + gap + Hashes(n)) == x
  {
    ClosingHashesRemoved(x, gap, n, []);
    assert x + gap + Hashes(n) + [] == x + gap + Hashes(n);
    StripInlineMarkdownPlainText(x);
    TrimOfTrimmed(x);
  }

  lemma NoLineTerminatorConcat(a: string, b: string)
    requires NoLineTerminator(a) && NoLineTerminator(b)
    ensures NoLineTerminator(a + b)
  {
    forall i | 0 <= i < |a + b|
      ensures !IsLineTerminator((a + b)[i])
    {
      if i >= |a| {
        assert (a + b)[i] == b[i - |a|];
      }
    }
  }

  /**
   * A heading line `##`/`###`, whitespace, plain text and an optional closing
   * run yields that text at that level: `"### Title ###"` gives `"Title"`.
   */
  lemma HeadingLineYields(level: nat, gap: string, x: string, gap2: string, n: nat, minDepth: int, maxDepth: int)
    requires level == 2 || level == 3
    requires minDepth <= level <= maxDepth
    requires gap != [] && AllSpace(gap)
    requires x != [] && IsTrimmed(x) && NoLineTerminator(x)
    requires '`' !in x && '*' !in x && '[' !in x
    requires gap2 != [] && AllSpace(gap2) && NoLineTerminator(gap2) && n >= 1
    ensures HeadingCandidate(Hashes(level) + gap + (x + gap2 + Hashes(n)), minDepth, maxDepth)
      == Some(Candidate(x, level))
  {
    var content := x + gap2 + Hashes(n);
    assert content[0] == x[0];
    assert content[|content| - 1] == '#';
    NoLineTerminatorConcat(x, gap2);
    NoLineTerminatorConcat(x + gap2, Hashes(n));
    MatchHeadingComplete(level, gap, content);
    HeadingTextOfPlain(x, gap2, n);
  }
}
