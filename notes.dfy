/**
 * The metadata helpers of src/lib/notes.js: turning a note's markdown into
 * plain text, a slug into a title, and finding a note's title, body and
 * excerpt. The regular expressions are written out as the scans
 * JavaScript's backtracking engine performs, alternative by alternative.
 */
module Notes {
  import opened Text
  import opened Rewrite

  /** stripMarkdown: the inline passes, then the line-start passes, then `trim`. */
  function StripMarkdown(value: string): (r: string)
    ensures IsTrimmed(r)
  {
    var inline := Replace(Link, Replace(Image, Replace(Italic, Replace(Bold, Replace(Code, value)))));
    var unquoted := ReplaceAtLineStarts(Quote, inline, true);
    var unbulleted := ReplaceAtLineStarts(Bullet, unquoted, true);
    Trim(ReplaceAtLineStarts(Ordinal, unbulleted, true))
  }

  /** stripMarkdown only deletes characters: its result is a subsequence of its input. */
  lemma StripMarkdownDeletesOnly(value: string)
    ensures IsSubseq(StripMarkdown(value), value)
  {
    var a := Replace(Code, value);
    var b := Replace(Bold, a);
    var c := Replace(Italic, b);
    var d := Replace(Image, c);
    var e := Replace(Link, d);
    var f := ReplaceAtLineStarts(Quote, e, true);
    var g := ReplaceAtLineStarts(Bullet, f, true);
    var h := ReplaceAtLineStarts(Ordinal, g, true);
    ReplaceDeletesOnly(Code, value);
    ReplaceDeletesOnly(Bold, a);
    ReplaceDeletesOnly(Italic, b);
    ReplaceDeletesOnly(Image, c);
    ReplaceDeletesOnly(Link, d);
    ReplaceAtLineStartsDeletesOnly(Quote, e, true);
    ReplaceAtLineStartsDeletesOnly(Bullet, f, true);
    ReplaceAtLineStartsDeletesOnly(Ordinal, g, true);
    SubseqTrans(b, a, value);
    SubseqTrans(c, b, value);
    SubseqTrans(d, c, value);
    SubseqTrans(e, d, value);
    SubseqTrans(f, e, value);
    SubseqTrans(g, f, value);
    SubseqTrans(h, g, value);
    var lead := LeadingSpaces(h);
    SubseqSlice(h, lead, lead + |Trim(h)|);
    SubseqTrans(Trim(h), h, value);
  }

  /** Text on one line that starts with a letter is never touched by a line-start pass. */
  lemma {:induction false} LineRulesSkipLine(rule: LineRule, s: string, lineStart: bool)
    requires NoLineTerminator(s)
    requires lineStart ==> s != [] && ('a' <= s[0] <= 'z' || 'A' <= s[0] <= 'Z')
    ensures ReplaceAtLineStarts(rule, s, lineStart) == s
    decreases |s|
  {
    if s != [] {
      assert !IsLineTerminator(s[0]);
      LineRulesSkipLine(rule, s[1..], false);
      assert [s[0]] + s[1..] == s;
    }
  }

  /**
   * Images are rewritten before links, so `![alt](url)` becomes its alt
   * text; the link pass alone would have left `!alt`.
   */
  lemma StripMarkdownImage(alt: string, url: string)
    requires alt != [] && IsTrimmed(alt) && NoLineTerminator(alt)
    requires 'a' <= alt[0] <= 'z' || 'A' <= alt[0] <= 'Z'
    requires '`' !in alt && '*' !in alt && '[' !in alt && ']' !in alt
    requires url != [] && ')' !in url && '`' !in url && '*' !in url
    ensures StripMarkdown("![" + alt + "](" + url + ")") == alt
  {
    var s := "![" + alt + "](" + url + ")";
    assert '`' !in s && '*' !in s by {
      assert s == "![" + alt + "](" + url + ")";
    }
    ReplaceWithoutOpener(Code, s);
    ReplaceWithoutOpener(Bold, s);
    ReplaceWithoutOpener(Italic, s);
    ImageBeforeLink(alt, url);
    LineRulesSkipLine(Quote, alt, true);
    LineRulesSkipLine(Bullet, alt, true);
    LineRulesSkipLine(Ordinal, alt, true);
    TrimOfTrimmed(alt);
  }

  /** `filter(Boolean)` on strings: the empty string is falsy. */
  predicate NonEmpty(s: string) {
    s != []
  }

  /** `part.charAt(0).toUpperCase() + part.slice(1)`. */
  function Capitalize(part: string): (r: string)
    ensures |r| == |part|
    ensures r != [] ==> r[0] == ToUpperChar(part[0]) && r[1..] == part[1..]
  {
    if part == [] then [] else [ToUpperChar(part[0])] + part[1..]
  }

  /** The non-empty `-`-separated segments of a slug, in order. */
  function Segments(slug: string): seq<string> {
    Filter(Split(slug, '-'), NonEmpty)
  }

  function CapitalizeAll(parts: seq<string>): (r: seq<string>)
    ensures |r| == |parts|
    ensures forall k | 0 <= k < |parts| :: r[k] == Capitalize(parts[k])
  {
    seq(|parts|, k requires 0 <= k < |parts| => Capitalize(parts[k]))
  }

  /** titleFromSlug: each non-empty segment capitalised, joined by single spaces. */
  function TitleFromSlug(slug: string): string {
    Join(CapitalizeAll(Segments(slug)), ' ')
  }

  /** Upper-casing maps no other character onto `c` when `c` is not a letter. */
  lemma CapitalizeAbsent(part: string, c: char)
    requires c !in part && !('A' <= c <= 'Z')
    ensures c !in Capitalize(part)
  {
    if part != [] {
      assert Capitalize(part) == [ToUpperChar(part[0])] + part[1..];
      assert part[1..] == Capitalize(part)[1..];
    }
  }

  /** The segments hold no character the slug does not, and no `-`. */
  lemma SegmentsAbsent(slug: string, c: char)
    requires c == '-' || c !in slug
    ensures forall k | 0 <= k < |Segments(slug)| :: c !in Segments(slug)[k] && Segments(slug)[k] != []
  {
    var parts := Split(slug, '-');
    if c != '-' {
      SplitAbsent(slug, '-', c);
    }
    assert forall i | 0 <= i < |parts| :: c !in parts[i];
    FilterPreserves(parts, NonEmpty, (p: string) => c !in p);
  }

  /** A title made from a slug never contains `-`. */
  lemma TitleHasNoHyphen(slug: string)
    ensures '-' !in TitleFromSlug(slug)
  {
    var segs := Segments(slug);
    SegmentsAbsent(slug, '-');
    forall k | 0 <= k < |segs|
      ensures '-' !in CapitalizeAll(segs)[k]
    {
      CapitalizeAbsent(segs[k], '-');
    }
    JoinAbsent(CapitalizeAll(segs), ' ', '-');
  }

  /**
   * For a slug without spaces, the title's space-separated words are the
   * non-empty segments, one for one, each with only its first character
   * upper-cased; a slug without a segment gives the empty title.
   */
  lemma TitleWords(slug: string)
    requires ' ' !in slug
    ensures TitleFromSlug(slug) == [] <==> Segments(slug) == []
    ensures Segments(slug) != [] ==> |Split(TitleFromSlug(slug), ' ')| == |Segments(slug)|
    ensures Segments(slug) != [] ==> forall k | 0 <= k < |Segments(slug)| ::
      var word, seg := Split(TitleFromSlug(slug), ' ')[k], Segments(slug)[k];
      |word| == |seg| && word[0] == ToUpperChar(seg[0]) && word[1..] == seg[1..]
  {
    var segs := Segments(slug);
    var words := CapitalizeAll(segs);
    SegmentsAbsent(slug, ' ');
    forall k | 0 <= k < |segs|
      ensures ' ' !in words[k]
    {
      CapitalizeAbsent(segs[k], ' ');
    }
    if segs != [] {
      SplitJoin(words, ' ');
      if |words| > 1 {
        assert Join(words, ' ') == words[0] + [' '] + Join(words[1..], ' ');
      }
      assert words[0] != [];
    }
  }

  /** From index `i` the rest of its line, up to a line terminator or the end, is whitespace. */
  predicate BlankToLineEnd(s: string, i: nat)
    decreases |s| - i
  {
    i >= |s| || IsLineTerminator(s[i]) || (IsSpace(s[i]) && BlankToLineEnd(s, i + 1))
  }

  /** Whitespace from `i` to a line end makes the rest of the line blank. */
  lemma {:induction false} BlankToLineEndAt(s: string, i: nat, end: nat)
    requires i <= end <= |s|
    requires forall k | i <= k < end :: IsSpace(s[k])
    requires end == |s| || IsLineTerminator(s[end])
    ensures BlankToLineEnd(s, i)
    decreases end - i
  {
    if i < end {
      BlankToLineEndAt(s, i + 1, end);
    }
  }

  /** A non-space character before the line ends makes the rest of the line not blank. */
  lemma {:induction false} NotBlankToLineEnd(s: string, i: nat, t: nat)
    requires i < t <= |s|
    requires forall k | i <= k < t :: !IsLineTerminator(s[k])
    requires !IsSpace(s[t - 1])
    ensures !BlankToLineEnd(s, i)
    decreases t - i
  {
    if i + 1 < t {
      NotBlankToLineEnd(s, i + 1, t);
    }
  }

  /**
   * `(.+?)\s*$` (multiline `$`) with `.+?` starting at `p` and holding at
   * least `n` characters: the length of the shortest capture, on one line,
   * after which the rest of the line is whitespace.
   */
  function LazyToLineEnd(s: string, p: nat, n: nat): (m: Option<nat>)
    requires 1 <= n
    ensures m.Some? ==> n <= m.value && p + m.value <= |s|
    decreases |s| - (p + n)
  {
    if p + n > |s| || IsLineTerminator(s[p + n - 1]) then None
    else if BlankToLineEnd(s, p + n) then Some(n)
    else LazyToLineEnd(s, p, n + 1)
  }

  /**
   * `#\s+(.+?)\s*$` after the `#` at index 0, with `\s+` taking the first
   * `w` characters after it and giving them back one at a time.
   */
  function H1Gap(s: string, w: nat): (m: Option<string>)
    requires 1 + w <= |s|
  {
    if w == 0 then None
    else
      match LazyToLineEnd(s, 1 + w, 1)
      case Some(n) => Some(s[1 + w..1 + w + n])
      case None => H1Gap(s, w - 1)
  }

  /** The capture of H1_PATTERN, `/^#\s+(.+?)\s*$/m`, when it matches at the start of `s`. */
  function H1At(s: string): Option<string> {
    if s != [] && s[0] == '#' then H1Gap(s, LeadingSpaces(s[1..])) else None
  }

  /**
   * `content.match(H1_PATTERN)`: the first line start where the pattern
   * matches. `lineStart` says whether `s` begins a line of the content.
   */
  function FindH1(s: string, lineStart: bool): Option<string>
    decreases |s|
  {
    if s == [] then None
    else if lineStart && H1At(s).Some? then H1At(s)
    else FindH1(s[1..], IsLineTerminator(s[0]))
  }

  /** extractTitle: the first H1's text with markup stripped, or the slug's title when that is empty or absent. */
  function ExtractTitle(content: string, slug: string): string {
    match FindH1(content, true)
    case Some(heading) =>
      var title := StripMarkdown(heading);
      if title != [] then title else TitleFromSlug(slug)
    case None => TitleFromSlug(slug)
  }

  /**
   * The shortest capture is the line without its trailing whitespace: the
   * line runs from `p` to `end` and its last non-space character is at `t - 1`.
   */
  lemma {:induction false} LazyFindsLineText(s: string, p: nat, t: nat, end: nat, n: nat)
    requires p < t <= end <= |s|
    requires forall k | p <= k < end :: !IsLineTerminator(s[k])
    requires end == |s| || IsLineTerminator(s[end])
    requires !IsSpace(s[t - 1]) && forall k | t <= k < end :: IsSpace(s[k])
    requires 1 <= n <= t - p
    ensures LazyToLineEnd(s, p, n) == Some(t - p)
    decreases t - p - n
  {
    var j := p + n;
    if n < t - p {
      NotBlankToLineEnd(s, j, t);
      LazyFindsLineText(s, p, t, end, n + 1);
    } else {
      BlankToLineEndAt(s, j, end);
    }
  }

  /**
   * A line `#`, whitespace, then text that starts with a non-space yields
   * that text without its trailing whitespace. The whitespace may span
   * lines: `"# \n# Real"` yields `"# Real"`.
   */
  lemma H1AtHeading(gap: string, line: string, tail: string)
    requires gap != [] && AllSpace(gap)
    requires line != [] && !IsSpace(line[0]) && NoLineTerminator(line)
    requires tail == [] || IsLineTerminator(tail[0])
    ensures H1At("#" + gap + line + tail) == Some(TrimEnd(line))
  {
    var s := "#" + gap + line + tail;
    var p := 1 + |gap|;
    assert s[1..] == gap + (line + tail);
    LeadingSpacesIs(s[1..], |gap|);
    assert s[p..p + |line|] == line;
    assert p + |line| < |s| ==> s[p + |line|] == tail[0];
    H1AtLine(s, p, line);
  }

  /** H1_PATTERN at the start of `s`, with the gap `s[1..p]` followed by the line text `line`. */
  lemma H1AtLine(s: string, p: nat, line: string)
    requires 1 < p && p + |line| <= |s| && s[0] == '#' && LeadingSpaces(s[1..]) == p - 1
    requires s[p..p + |line|] == line
    requires line != [] && !IsSpace(line[0]) && NoLineTerminator(line)
    requires p + |line| == |s| || IsLineTerminator(s[p + |line|])
    ensures H1At(s) == Some(TrimEnd(line))
  {
    var end := p + |line|;
    var trimmed := TrimEnd(line);
    var t := p + |trimmed|;
    assert forall k | p <= k < end :: s[k] == line[k - p];
    assert s[t - 1] == trimmed[|trimmed| - 1];
    assert forall k | t <= k < end :: s[k] == line[|trimmed|..][k - t];
    LazyFindsLineText(s, p, t, end, 1);
    assert s[p..t] == trimmed;
  }

  /** A whole H1 text with no trailing whitespace is captured as it is. */
  lemma H1AtWholeLine(gap: string, line: string)
    requires gap != [] && AllSpace(gap)
    requires line != [] && !IsSpace(line[0]) && !IsSpace(line[|line| - 1]) && NoLineTerminator(line)
    ensures H1At("#" + gap + line) == Some(line)
  {
    H1AtHeading(gap, line, []);
    assert "#" + gap + line + [] == "#" + gap + line;
    assert TrailingSpaces(line) == 0;
    assert TrimEnd(line) == line[..|line|] == line;
  }

  /** Whitespace after `#` may run into the next line: a blank H1 takes the next line as its title. */
  lemma H1SpansBlankHeading()
    ensures H1At("# \n# Real") == Some("# Real")
  {
    H1AtWholeLine(" \n", "# Real");
    assert "#" + " \n" + "# Real" == "# \n# Real";
  }

  /** A bare `#` line takes the next line as the title. */
  lemma H1SpansBareHash()
    ensures H1At("#\nTitle") == Some("Title")
  {
    H1AtWholeLine("\n", "Title");
    assert "#" + "\n" + "Title" == "#\nTitle";
  }

  /** Inside a line the search only resumes at the next line start. */
  lemma {:induction false} FindH1SkipsRestOfLine(u: string, t: char, rest: string)
    requires NoLineTerminator(u) && IsLineTerminator(t)
    ensures FindH1(u + [t] + rest, false) == FindH1(rest, true)
  {
    if u == [] {
      assert u + [t] + rest == [t] + rest;
      assert ([t] + rest)[1..] == rest;
    } else {
      assert (u + [t] + rest)[1..] == u[1..] + [t] + rest;
      FindH1SkipsRestOfLine(u[1..], t, rest);
    }
  }

  /**
   * A line that does not start with `#` and a whitespace character, a `##`
   * line among them, never supplies the title: the search goes on with the
   * next line.
   */
  lemma NonH1LineSkipped(line: string, t: char, rest: string)
    requires NoLineTerminator(line) && IsLineTerminator(t)
    requires line == [] || line[0] != '#' || (|line| >= 2 && !IsSpace(line[1]))
    ensures FindH1(line + [t] + rest, true) == FindH1(rest, true)
  {
    var s := line + [t] + rest;
    if line == [] {
      assert s == [t] + rest;
      assert s[1..] == rest;
    } else {
      if line[0] == '#' {
        assert s[1] == line[1];
        assert LeadingSpaces(s[1..]) == 0;
      }
      assert H1At(s).None?;
      assert s[1..] == line[1..] + [t] + rest;
      FindH1SkipsRestOfLine(line[1..], t, rest);
    }
  }

  /** A note whose first line is an H1 takes its stripped text as title, unless that is empty. */
  lemma ExtractTitleOfHeading(gap: string, line: string, tail: string, slug: string)
    requires gap != [] && AllSpace(gap)
    requires line != [] && !IsSpace(line[0]) && NoLineTerminator(line)
    requires tail == [] || IsLineTerminator(tail[0])
    ensures var title := StripMarkdown(TrimEnd(line));
      ExtractTitle("#" + gap + line + tail, slug) == if title != [] then title else TitleFromSlug(slug)
  {
    H1AtHeading(gap, line, tail);
  }

  /** A slug with a non-empty segment always gives a non-empty title. */
  lemma ExtractTitleNotEmpty(content: string, slug: string)
    requires Segments(slug) != []
    ensures ExtractTitle(content, slug) != []
  {
    var segs := Segments(slug);
    SegmentsAbsent(slug, '-');
    var words := CapitalizeAll(segs);
    assert words[0] != [];
    if |words| > 1 {
      assert Join(words, ' ') == words[0] + [' '] + Join(words[1..], ' ');
    }
  }

  /**
   * `\s*(?:\r?\n)+` at `j`: `\s*` takes the whole whitespace run and gives
   * it back until a newline follows, so the match ends just past the last
   * `\n` of the run.
   */
  function NewlinesEnd(s: string, j: nat): (e: Option<nat>)
    requires j <= |s|
    ensures e.Some? ==> j < e.value <= |s| && s[e.value - 1] == '\n'
    ensures e.Some? ==> forall k | j <= k < e.value :: IsSpace(s[k])
    ensures e.Some? ==> forall k | e.value <= k < j + SpacesFrom(s, j) :: s[k] != '\n'
    ensures e.None? ==> forall k | j <= k < j + SpacesFrom(s, j) :: s[k] != '\n'
  {
    match LastNewline(s, j, j + SpacesFrom(s, j))
    case Some(x) => Some(x + 1)
    case None => None
  }

  /** Length of the whitespace run that starts at index `j`. */
  function SpacesFrom(s: string, j: nat): (n: nat)
    requires j <= |s|
    ensures j + n <= |s|
    ensures forall k | j <= k < j + n :: IsSpace(s[k])
    ensures j + n < |s| ==> !IsSpace(s[j + n])
    decreases |s| - j
  {
    if j < |s| && IsSpace(s[j]) then 1 + SpacesFrom(s, j + 1) else 0
  }

  /** The index of the last `\n` in `s[j..k]`, if any. */
  function LastNewline(s: string, j: nat, k: nat): (x: Option<nat>)
    requires k <= |s|
    ensures x.Some? ==> j <= x.value < k && s[x.value] == '\n'
    ensures x.Some? ==> forall i | x.value < i < k :: s[i] != '\n'
    ensures x.None? ==> forall i | j <= i < k :: s[i] != '\n'
    decreases k
  {
    if k <= j then None
    else if s[k - 1] == '\n' then Some(k - 1)
    else LastNewline(s, j, k - 1)
  }

  lemma {:induction false} SpacesFromIs(s: string, j: nat, n: nat)
    requires j + n <= |s|
    requires forall k | j <= k < j + n :: IsSpace(s[k])
    requires j + n < |s| ==> !IsSpace(s[j + n])
    ensures SpacesFrom(s, j) == n
    decreases n
  {
    if n > 0 {
      SpacesFromIs(s, j + 1, n - 1);
    }
  }

  /** `.+?\s*(?:\r?\n)+` with `.+?` starting at `p` and holding at least `n` characters: the end of the match. */
  function LazyToNewlines(s: string, p: nat, n: nat): (e: Option<nat>)
    requires 1 <= n
    ensures e.Some? ==> p + n < e.value <= |s|
    decreases |s| - (p + n)
  {
    if p + n > |s| || IsLineTerminator(s[p + n - 1]) then None
    else
      match NewlinesEnd(s, p + n)
      case Some(e) => Some(e)
      case None => LazyToNewlines(s, p, n + 1)
  }

  /** `\s+.+?\s*(?:\r?\n)+` at `a`, with `\s+` taking `w` characters and giving them back one at a time. */
  function GapToNewlines(s: string, a: nat, w: nat): (e: Option<nat>)
    ensures e.Some? ==> 1 <= w && a + 1 < e.value <= |s|
  {
    if w == 0 then None
    else
      match LazyToNewlines(s, a + w, 1)
      case Some(e) => Some(e)
      case None => GapToNewlines(s, a, w - 1)
  }

  /** The end of the match of `/^\uFEFF?#\s+.+?\s*(?:\r?\n)+/` at the start of `s`. */
  function LeadingH1End(s: string): (e: Option<nat>)
    ensures e.Some? ==>
      var a := if s != [] && s[0] == '\U{FEFF}' then 1 else 0;
      a + 2 < e.value <= |s| && s[a] == '#' && IsSpace(s[a + 1])
  {
    var a := if s != [] && s[0] == '\U{FEFF}' then 1 else 0;
    if a < |s| && s[a] == '#' then GapToNewlines(s, a + 1, LeadingSpaces(s[a + 1..])) else None
  }

  /**
   * stripLeadingH1: the content without its leading H1 line and the line
   * breaks after it. The result is always a suffix, and the content is only
   * changed when it starts with an optional U+FEFF, `#` and whitespace.
   */
  function StripLeadingH1(content: string): (r: string)
    ensures EndsWith(content, r)
    ensures r != content ==>
      || (|content| >= 2 && content[0] == '#' && IsSpace(content[1]))
      || (|content| >= 3 && content[0] == '\U{FEFF}' && content[1] == '#' && IsSpace(content[2]))
  {
    match LeadingH1End(content)
    case Some(e) => content[e..]
    case None => content
  }

  lemma {:induction false} LazyToNewlinesNone(s: string, p: nat, n: nat)
    requires 1 <= n && '\n' !in s
    ensures LazyToNewlines(s, p, n) == None
    decreases |s| - (p + n)
  {
    if !(p + n > |s| || IsLineTerminator(s[p + n - 1])) {
      LazyToNewlinesNone(s, p, n + 1);
    }
  }

  lemma {:induction false} GapToNewlinesNone(s: string, a: nat, w: nat)
    requires '\n' !in s
    ensures GapToNewlines(s, a, w) == None
  {
    if w > 0 {
      LazyToNewlinesNone(s, a + w, 1);
      GapToNewlinesNone(s, a, w - 1);
    }
  }

  /** Without a `\n` there is nothing to strip: `"# Title"` alone is left as it is. */
  lemma StripLeadingH1NeedsNewline(content: string)
    requires '\n' !in content
    ensures StripLeadingH1(content) == content
  {
    var a := if content != [] && content[0] == '\U{FEFF}' then 1 else 0;
    if a < |content| && content[a] == '#' {
      GapToNewlinesNone(content, a + 1, LeadingSpaces(content[a + 1..]));
    }
  }

  lemma TitleAloneKept()
    ensures StripLeadingH1("# Title") == "# Title"
  {
    StripLeadingH1NeedsNewline("# Title");
  }

  /**
   * Inside the title `s[p..q]` no whitespace run reaches a `\n`, so the
   * shortest capture is the whole title, and the match runs to the end of
   * the whitespace `s[q..e]` after it, whose last character is a `\n`.
   */
  lemma LazyTakesTitle(s: string, p: nat, q: nat, e: nat, n: nat)
    requires p < q < e <= |s|
    requires forall k | p <= k < q :: !IsLineTerminator(s[k])
    requires !IsSpace(s[q - 1])
    requires forall k | q <= k < e :: IsSpace(s[k])
    requires s[e - 1] == '\n'
    requires e == |s| || !IsSpace(s[e])
    requires 1 <= n <= q - p
    ensures LazyToNewlines(s, p, n) == Some(e)
  {
    LazyWholeTitle(s, p, q, n);
    LazyStops(s, p, q, e);
  }

  /** From any shorter start inside the title, the lazy capture grows to the whole title. */
  lemma {:induction false} LazyWholeTitle(s: string, p: nat, q: nat, n: nat)
    requires 1 <= n <= q - p && q <= |s|
    requires forall k | p <= k < q :: !IsLineTerminator(s[k])
    requires !IsSpace(s[q - 1])
    ensures LazyToNewlines(s, p, n) == LazyToNewlines(s, p, q - p)
    decreases q - p - n
  {
    if p + n < q {
      LazyGrows(s, p, n, q);
      LazyWholeTitle(s, p, q, n + 1);
    }
  }

  /** Inside the title the lazy capture takes one more character. */
  lemma LazyGrows(s: string, p: nat, n: nat, q: nat)
    requires 1 <= n && p + n < q <= |s|
    requires forall k | p <= k < q :: !IsLineTerminator(s[k])
    requires !IsSpace(s[q - 1])
    ensures LazyToNewlines(s, p, n) == LazyToNewlines(s, p, n + 1)
  {
    assert !IsLineTerminator(s[p + n - 1]);
    NewlinesEndInsideLine(s, p + n, q);
  }

  /** At the end of the title the match runs over the line breaks after it. */
  lemma LazyStops(s: string, p: nat, q: nat, e: nat)
    requires p < q < e <= |s|
    requires forall k | p <= k < q :: !IsLineTerminator(s[k])
    requires forall k | q <= k < e :: IsSpace(s[k])
    requires s[e - 1] == '\n'
    requires e == |s| || !IsSpace(s[e])
    ensures LazyToNewlines(s, p, q - p) == Some(e)
  {
    assert !IsLineTerminator(s[q - 1]);
    NewlinesEndAfterLine(s, q, e);
  }

  /** Inside a line that goes on to a non-space at `q - 1`, no whitespace run reaches a `\n`. */
  lemma NewlinesEndInsideLine(s: string, j: nat, q: nat)
    requires j < q <= |s|
    requires forall k | j <= k < q :: !IsLineTerminator(s[k])
    requires !IsSpace(s[q - 1])
    ensures NewlinesEnd(s, j) == None
  {
    assert !IsSpace(s[q - 1]);
  }

  /** Whitespace on `[q, e)` ending in `\n` and followed by a non-space: the match ends at `e`. */
  lemma NewlinesEndAfterLine(s: string, q: nat, e: nat)
    requires q < e <= |s|
    requires forall k | q <= k < e :: IsSpace(s[k])
    requires s[e - 1] == '\n'
    requires e == |s| || !IsSpace(s[e])
    ensures NewlinesEnd(s, q) == Some(e)
  {
    SpacesFromIs(s, q, e - q);
  }


  /**
   * `#`, whitespace, a title, then whitespace ending in `\n` (blank lines
   * included): all of it is removed and the text that follows is kept.
   */
  lemma StripLeadingH1Heading(gap: string, title: string, breaks: string, rest: string)
    requires gap != [] && AllSpace(gap)
    requires title != [] && !IsSpace(title[0]) && !IsSpace(title[|title| - 1]) && NoLineTerminator(title)
    requires breaks != [] && AllSpace(breaks) && breaks[|breaks| - 1] == '\n'
    requires rest == [] || !IsSpace(rest[0])
    ensures StripLeadingH1("#" + gap + title + breaks + rest) == rest
  {
    var s := "#" + gap + title + breaks + rest;
    var p := 1 + |gap|;
    var q := p + |title|;
    var e := q + |breaks|;
    assert s[1..] == gap + (title + breaks + rest);
    LeadingSpacesIs(s[1..], |gap|);
    forall k | p <= k < q
      ensures !IsLineTerminator(s[k])
    {
      assert s[k] == title[k - p];
    }
    forall k | q <= k < e
      ensures IsSpace(s[k])
    {
      assert s[k] == breaks[k - q];
    }
    assert s[q - 1] == title[|title| - 1];
    assert s[e - 1] == breaks[|breaks| - 1];
    assert e < |s| ==> s[e] == rest[0];
    StripLeadingH1At(s, p, q, e);
    assert s[e..] == rest;
  }

  /** stripLeadingH1 on `#`, the gap `s[1..p]`, the title `s[p..q]` and the line breaks `s[q..e]`. */
  lemma StripLeadingH1At(s: string, p: nat, q: nat, e: nat)
    requires 1 < p < q < e <= |s| && s[0] == '#' && LeadingSpaces(s[1..]) == p - 1
    requires forall k | p <= k < q :: !IsLineTerminator(s[k])
    requires !IsSpace(s[q - 1])
    requires forall k | q <= k < e :: IsSpace(s[k])
    requires s[e - 1] == '\n'
    requires e == |s| || !IsSpace(s[e])
    ensures StripLeadingH1(s) == s[e..]
  {
    LazyTakesTitle(s, p, q, e, 1);
    assert GapToNewlines(s, 1, p - 1) == Some(e);
    assert LeadingH1End(s) == Some(e);
  }

  /** `!line.startsWith('#')`. */
  predicate NotHeading(line: string) {
    !StartsWith(line, "#")
  }

  /** The lines extractExcerpt keeps, as its chain of `map` and `filter` computes them. */
  function ExcerptLines(lines: seq<string>): seq<string> {
    Filter(Map(Filter(Filter(Map(lines, Trim), NonEmpty), NotHeading), StripMarkdown), NonEmpty)
  }

  /** extractExcerpt: the first kept line, or `''` when none is kept. */
  function ExtractExcerpt(content: string): string {
    var kept := ExcerptLines(Split(content, '\n'));
    if kept == [] then [] else kept[0]
  }

  /** A line qualifies when, trimmed, it is not empty, does not start with `#`, and strips to something. */
  predicate Qualifies(line: string) {
    var t := Trim(line);
    t != [] && !StartsWith(t, "#") && StripMarkdown(t) != []
  }

  /** The excerpt as a direct search: the stripped form of the first qualifying line. */
  function FirstProse(lines: seq<string>): string {
    if lines == [] then []
    else if Qualifies(lines[0]) then StripMarkdown(Trim(lines[0]))
    else FirstProse(lines[1..])
  }

  /** A chain map, filter, filter, map, filter keeps the first element's image exactly when it passes every filter. */
  lemma ChainCons<T>(x: T, xs: seq<T>, f: T -> T, k1: T -> bool, k2: T -> bool, g: T -> T, k3: T -> bool)
    ensures Filter(Map(Filter(Filter(Map([x] + xs, f), k1), k2), g), k3)
      == (if k1(f(x)) && k2(f(x)) && k3(g(f(x))) then [g(f(x))] else [])
        + Filter(Map(Filter(Filter(Map(xs, f), k1), k2), g), k3)
  {
    var y := f(x);
    MapCons(x, xs, f);
    var a := Filter(Map(xs, f), k1);
    FilterCons(y, Map(xs, f), k1);
    if k1(y) {
      var b := Filter(a, k2);
      FilterCons(y, a, k2);
      if k2(y) {
        MapCons(y, b, g);
        FilterCons(g(y), Map(b, g), k3);
      } else {
        assert [] + b == b;
      }
    } else {
      assert [] + a == a;
    }
  }

  /** One line of input contributes its stripped form exactly when it qualifies. */
  lemma ExcerptLinesCons(lines: seq<string>)
    requires lines != []
    ensures ExcerptLines(lines)
      == (if Qualifies(lines[0]) then [StripMarkdown(Trim(lines[0]))] else []) + ExcerptLines(lines[1..])
  {
    assert lines == [lines[0]] + lines[1..];
    ChainCons(lines[0], lines[1..], Trim, NonEmpty, NotHeading, StripMarkdown, NonEmpty);
  }

  /** extractExcerpt's chain keeps the stripped form of the first qualifying line in front. */
  lemma {:induction false} ExcerptIsFirstProse(lines: seq<string>)
    ensures var kept := ExcerptLines(lines); (if kept == [] then [] else kept[0]) == FirstProse(lines)
  {
    if lines != [] {
      ExcerptLinesCons(lines);
      ExcerptIsFirstProse(lines[1..]);
      if !Qualifies(lines[0]) {
        assert [] + ExcerptLines(lines[1..]) == ExcerptLines(lines[1..]);
      }
    }
  }

  /** The search comes back empty exactly when no line qualifies. */
  lemma {:induction false} FirstProseEmpty(lines: seq<string>)
    ensures FirstProse(lines) == [] <==> forall i | 0 <= i < |lines| :: !Qualifies(lines[i])
  {
    if lines != [] {
      FirstProseEmpty(lines[1..]);
      if Qualifies(lines[0]) {
        FirstLineQualifies(lines);
      } else {
        FirstLineSkipped(lines);
      }
    }
  }

  /** A qualifying first line gives a non-empty excerpt. */
  lemma FirstLineQualifies(lines: seq<string>)
    requires lines != [] && Qualifies(lines[0])
    ensures FirstProse(lines) != []
  {
  }

  /** Past a first line that does not qualify, the search and the "no line qualifies" test both move on to the rest. */
  lemma FirstLineSkipped(lines: seq<string>)
    requires lines != [] && !Qualifies(lines[0])
    ensures FirstProse(lines) == FirstProse(lines[1..])
    ensures (forall i | 0 <= i < |lines| :: !Qualifies(lines[i]))
        <==> (forall i | 0 <= i < |lines| - 1 :: !Qualifies(lines[1..][i]))
  {
    NoneAfterFirst(lines, Qualifies);
  }

  /** The excerpt of the content, in terms of its `\n`-separated lines. */
  lemma ExtractExcerptSpec(content: string)
    ensures ExtractExcerpt(content) == FirstProse(Split(content, '\n'))
    ensures ExtractExcerpt(content) == [] <==>
      forall i | 0 <= i < |Split(content, '\n')| :: !Qualifies(Split(content, '\n')[i])
  {
    ExcerptIsFirstProse(Split(content, '\n'));
    FirstProseEmpty(Split(content, '\n'));
  }
}
