/**
 * The global `replace(/…/g, …)` passes that src/lib/markdownOutline.js and
 * src/lib/notes.js apply to heading and note text, written as explicit scans
 * with JavaScript's semantics: find the leftmost match, replace it, resume
 * right after it, never rescan the replaced text. Each pass only deletes
 * characters, so its result is a subsequence of its input.
 */
module Rewrite {
  import opened Text

  /** The inline constructs, one regular expression each, all replaced by their first capture. */
  datatype Rule =
    | Code    // /`([^`]+)`/g
    | Bold    // /\*\*([^*]+)\*\*/g
    | Italic  // /\*([^*]+)\*/g
    | Image   // /!\[([^\]]*)\]\([^)]+\)/g
    | Link    // /\[([^\]]+)\]\([^)]+\)/g

  /** A match at the start of the text: the capture is `s[from..to]` and the match ends before `next`. */
  datatype Span = Span(from: nat, to: nat, next: nat)

  /** The first character of every match of the rule. */
  function Opener(rule: Rule): char {
    match rule
    case Code => '`'
    case Bold => '*'
    case Italic => '*'
    case Image => '!'
    case Link => '['
  }

  /**
   * `D([^D]+)D` matches at the start of `s` as `sp`: the capture runs from
   * just after the opening `D` to the next `D`, is not empty, and the match
   * ends after that closing `D`.
   */
  predicate Enclosed(s: string, d: char, sp: Span) {
    sp.from == 1 && 1 < sp.to && sp.next == sp.to + 1 <= |s|
    && s[0] == d && s[sp.to] == d
    && forall i | 1 <= i < sp.to :: s[i] != d
  }

  /** `\*\*([^*]+)\*\*` matches at the start of `s` as `sp`. */
  predicate BoldEnclosed(s: string, sp: Span) {
    sp.from == 2 && 2 < sp.to && sp.next == sp.to + 2 <= |s|
    && s[0] == '*' && s[1] == '*' && s[sp.to] == '*' && s[sp.to + 1] == '*'
    && forall i | 2 <= i < sp.to :: s[i] != '*'
  }

  /** `\]\([^)]+\)` matches from index `k` to just before `e`: a non-empty target without `)`. */
  predicate Target(s: string, k: nat, e: nat) {
    k + 3 < e <= |s| && s[k] == ']' && s[k + 1] == '(' && s[e - 1] == ')'
    && forall i | k + 2 <= i < e - 1 :: s[i] != ')'
  }

  /** `!\[([^\]]*)\]\([^)]+\)` matches at the start of `s` as `sp` (the alt text may be empty). */
  predicate ImageShape(s: string, sp: Span) {
    Target(s, sp.to, sp.next)
    && s[0] == '!' && s[1] == '[' && sp.from == 2 && 2 <= sp.to
    && forall i | 2 <= i < sp.to :: s[i] != ']'
  }

  /** `\[([^\]]+)\]\([^)]+\)` matches at the start of `s` as `sp` (the link text may not be empty). */
  predicate LinkShape(s: string, sp: Span) {
    Target(s, sp.to, sp.next)
    && s[0] == '[' && sp.from == 1 && 1 < sp.to
    && forall i | 1 <= i < sp.to :: s[i] != ']'
  }

  /** What a match of the rule's regular expression at the start of `s` looks like. */
  predicate IsMatch(rule: Rule, s: string, sp: Span) {
    match rule
    case Code => Enclosed(s, '`', sp)
    case Bold => BoldEnclosed(s, sp)
    case Italic => Enclosed(s, '*', sp)
    case Image => ImageShape(s, sp)
    case Link => LinkShape(s, sp)
  }

  /** `D([^D]+)D` at the start of `s`: the content runs to the next `D` and is not empty. */
  function DelimitedAt(s: string, d: char): (m: Option<Span>)
    ensures m.Some? ==> Enclosed(s, d, m.value)
  {
    if |s| >= 1 && s[0] == d then
      var k := 1 + IndexOf(s[1..], d);
      if 1 < k < |s| then Some(Span(1, k, k + 1)) else None
    else None
  }

  lemma DelimitedAtShape(s: string, d: char, sp: Span)
    requires Enclosed(s, d, sp)
    ensures DelimitedAt(s, d) == Some(sp)
  {
    IndexOfIs(s[1..], d, sp.to - 1);
  }

  /** `\*\*([^*]+)\*\*` at the start of `s`. */
  function BoldAt(s: string): (m: Option<Span>)
    ensures m.Some? ==> BoldEnclosed(s, m.value)
  {
    if |s| >= 2 && s[0] == '*' && s[1] == '*' then
      var k := 2 + IndexOf(s[2..], '*');
      if 2 < k && k + 1 < |s| && s[k + 1] == '*' then Some(Span(2, k, k + 2)) else None
    else None
  }

  lemma BoldAtShape(s: string, sp: Span)
    requires BoldEnclosed(s, sp)
    ensures BoldAt(s) == Some(sp)
  {
    IndexOfIs(s[2..], '*', sp.to - 2);
  }

  /**
   * `\]\([^)]+\)` with the `]` at index k: the index just past the closing
   * parenthesis, when the link target is present and not empty.
   */
  function TargetEnd(s: string, k: nat): (e: Option<nat>)
    ensures e.Some? ==> Target(s, k, e.value)
  {
    if k + 1 < |s| && s[k] == ']' && s[k + 1] == '(' then
      var m := k + 2 + IndexOf(s[k + 2..], ')');
      if k + 2 < m < |s| then Some(m + 1) else None
    else None
  }

  lemma TargetEndShape(s: string, k: nat, e: nat)
    requires Target(s, k, e)
    ensures TargetEnd(s, k) == Some(e)
  {
    IndexOfIs(s[k + 2..], ')', e - 1 - (k + 2));
  }

  /** `!\[([^\]]*)\]\([^)]+\)` at the start of `s` (the alt text may be empty). */
  function ImageAt(s: string): (m: Option<Span>)
    ensures m.Some? ==> ImageShape(s, m.value)
  {
    if |s| >= 2 && s[0] == '!' && s[1] == '[' then
      var k := 2 + IndexOf(s[2..], ']');
      match TargetEnd(s, k)
      case Some(e) => Some(Span(2, k, e))
      case None => None
    else None
  }

  lemma ImageAtShape(s: string, sp: Span)
    requires ImageShape(s, sp)
    ensures ImageAt(s) == Some(sp)
  {
    IndexOfIs(s[2..], ']', sp.to - 2);
    TargetEndShape(s, sp.to, sp.next);
  }

  /** `\[([^\]]+)\]\([^)]+\)` at the start of `s` (the link text may not be empty). */
  function LinkAt(s: string): (m: Option<Span>)
    ensures m.Some? ==> LinkShape(s, m.value)
  {
    if |s| >= 1 && s[0] == '[' then
      var k := 1 + IndexOf(s[1..], ']');
      if 1 < k then
        match TargetEnd(s, k)
        case Some(e) => Some(Span(1, k, e))
        case None => None
      else None
    else None
  }

  lemma LinkAtShape(s: string, sp: Span)
    requires LinkShape(s, sp)
    ensures LinkAt(s) == Some(sp)
  {
    IndexOfIs(s[1..], ']', sp.to - 1);
    TargetEndShape(s, sp.to, sp.next);
  }

  /** The match of the rule's regular expression at the start of `s`, if any. */
  function MatchAt(rule: Rule, s: string): (m: Option<Span>)
    ensures m.Some? ==> 1 <= m.value.from <= m.value.to < m.value.next <= |s| && s[0] == Opener(rule)
    ensures m.Some? ==> IsMatch(rule, s, m.value)
  {
    match rule
    case Code => DelimitedAt(s, '`')
    case Bold => BoldAt(s)
    case Italic => DelimitedAt(s, '*')
    case Image => ImageAt(s)
    case Link => LinkAt(s)
  }

  /** The scan finds exactly the match the regular expression describes. */
  lemma MatchAtIff(rule: Rule, s: string, sp: Span)
    ensures MatchAt(rule, s) == Some(sp) <==> IsMatch(rule, s, sp)
  {
    if IsMatch(rule, s, sp) {
      match rule
      case Code => DelimitedAtShape(s, '`', sp);
      case Bold => BoldAtShape(s, sp);
      case Italic => DelimitedAtShape(s, '*', sp);
      case Image => ImageAtShape(s, sp);
      case Link => LinkAtShape(s, sp);
    }
  }

  /** `s.replace(regex, '$1')` for the rule's regular expression. */
  function Replace(rule: Rule, s: string): (r: string)
    ensures |r| <= |s|
    decreases |s|
  {
    if s == [] then []
    else
      match MatchAt(rule, s)
      case Some(sp) => s[sp.from..sp.to] + Replace(rule, s[sp.next..])
      case None => [s[0]] + Replace(rule, s[1..])
  }

  /** Keeping `s[from..to]` and a subsequence of `s[next..]` keeps a subsequence of `s`. */
  lemma SubseqKeepSlice(s: string, from: nat, to: nat, next: nat, r: string)
    requires from <= to <= next <= |s|
    requires IsSubseq(r, s[next..])
    ensures IsSubseq(s[from..to] + r, s)
  {
    SubseqKeepMiddle(s[..from], s[from..to], s[to..next], s[next..], r);
    assert s[..from] + s[from..to] + s[to..next] + s[next..] == s;
  }

  /** A pass only deletes characters. */
  lemma {:induction false} ReplaceDeletesOnly(rule: Rule, s: string)
    ensures IsSubseq(Replace(rule, s), s)
    decreases |s|
  {
    if s != [] {
      var m := MatchAt(rule, s);
      if m.Some? {
        var sp := m.value;
        ReplaceDeletesOnly(rule, s[sp.next..]);
        SubseqKeepSlice(s, sp.from, sp.to, sp.next, Replace(rule, s[sp.next..]));
      } else {
        ReplaceDeletesOnly(rule, s[1..]);
        SubseqKeepSlice(s, 0, 1, 1, Replace(rule, s[1..]));
      }
    }
  }

  /** Text without the rule's opening character is left as it is. */
  lemma {:induction false} ReplaceWithoutOpener(rule: Rule, s: string)
    requires Opener(rule) !in s
    ensures Replace(rule, s) == s
    decreases |s|
  {
    if s != [] {
      assert s[0] != Opener(rule);
      assert Opener(rule) !in s[1..];
      ReplaceWithoutOpener(rule, s[1..]);
    }
  }

  /** Text before the first opener is copied through unchanged. */
  lemma {:induction false} ReplacePlain(rule: Rule, a: string, b: string)
    requires Opener(rule) !in a
    ensures Replace(rule, a + b) == a + Replace(rule, b)
    decreases |a|
  {
    if a != [] {
      var s := a + b;
      assert s[0] == a[0] && s[1..] == a[1..] + b;
      assert Opener(rule) !in a[1..];
      assert MatchAt(rule, s) == None;
      ReplacePlain(rule, a[1..], b);
      assert Replace(rule, s) == [a[0]] + Replace(rule, a[1..] + b);
      assert a == [a[0]] + a[1..];
    } else {
      assert a + b == b;
    }
  }

  /** A match at the start is replaced by its capture and the scan resumes after it. */
  lemma ReplaceMatch(rule: Rule, s: string, sp: Span)
    requires IsMatch(rule, s, sp)
    ensures s != [] && sp.from <= sp.to <= sp.next <= |s|
    ensures Replace(rule, s) == s[sp.from..sp.to] + Replace(rule, s[sp.next..])
  {
    MatchAtIff(rule, s, sp);
  }

  /** The code pass turns `` `content` `` into `content`. */
  lemma CodeSpanStripped(content: string, rest: string)
    requires content != [] && '`' !in content
    ensures Replace(Code, "`" + content + "`" + rest) == content + Replace(Code, rest)
  {
    var s := "`" + content + "`" + rest;
    var n := |content|;
    assert s[1..n + 1] == content && s[n + 2..] == rest;
    ReplaceMatch(Code, s, Span(1, n + 1, n + 2));
  }

  /** The bold pass turns `**content**` into `content`. */
  lemma BoldSpanStripped(content: string, rest: string)
    requires content != [] && '*' !in content
    ensures Replace(Bold, "**" + content + "**" + rest) == content + Replace(Bold, rest)
  {
    var s := "**" + content + "**" + rest;
    var n := |content|;
    assert s[2..n + 2] == content && s[n + 4..] == rest;
    ReplaceMatch(Bold, s, Span(2, n + 2, n + 4));
  }

  /** The italic pass turns `*content*` into `content`. */
  lemma ItalicSpanStripped(content: string, rest: string)
    requires content != [] && '*' !in content
    ensures Replace(Italic, "*" + content + "*" + rest) == content + Replace(Italic, rest)
  {
    var s := "*" + content + "*" + rest;
    var n := |content|;
    assert s[1..n + 1] == content && s[n + 2..] == rest;
    ReplaceMatch(Italic, s, Span(1, n + 1, n + 2));
  }

  /** The link pass turns `[caption](url)` into `caption`. */
  lemma LinkSpanStripped(caption: string, url: string, rest: string)
    requires caption != [] && ']' !in caption
    requires url != [] && ')' !in url
    ensures Replace(Link, "[" + caption + "](" + url + ")" + rest) == caption + Replace(Link, rest)
  {
    var s := "[" + caption + "](" + url + ")" + rest;
    var n := |caption|;
    var e := n + |url| + 4;
    assert s[1..n + 1] == caption && s[e..] == rest;
    assert s[n + 1] == ']' && s[n + 2] == '(' && s[e - 1] == ')';
    assert forall i | n + 3 <= i < e - 1 :: s[i] == url[i - n - 3];
    ReplaceMatch(Link, s, Span(1, n + 1, e));
  }

  lemma TargetEndOf(pre: string, url: string)
    requires url != [] && ')' !in url
    ensures TargetEnd(pre + "](" + url + ")", |pre|) == Some(|pre| + |url| + 3)
  {
    var s := pre + "](" + url + ")";
    var k := |pre|;
    assert s[k] == ']' && s[k + 1] == '(';
    assert s[k + 2..] == url + ")";
    IndexOfAppend(url, ")", ')');
  }

  lemma LinkAtLabel(caption: string, url: string)
    requires caption != [] && ']' !in caption
    requires url != [] && ')' !in url
    ensures LinkAt("[" + caption + "](" + url + ")") == Some(Span(1, 1 + |caption|, |caption| + |url| + 4))
  {
    var s := "[" + caption + "](" + url + ")";
    var n := |caption|;
    var e := n + |url| + 4;
    assert forall i | 1 <= i < n + 1 :: s[i] == caption[i - 1];
    assert forall i | n + 3 <= i < e - 1 :: s[i] == url[i - n - 3];
    assert s[n + 1] == ']' && s[n + 2] == '(' && s[e - 1] == ')';
    LinkAtShape(s, Span(1, n + 1, e));
  }

  lemma ImageAtAlt(alt: string, url: string)
    requires ']' !in alt
    requires url != [] && ')' !in url
    ensures ImageAt("![" + alt + "](" + url + ")") == Some(Span(2, 2 + |alt|, |alt| + |url| + 5))
  {
    var s := "![" + alt + "](" + url + ")";
    var n := |alt|;
    var e := n + |url| + 5;
    assert forall i | 2 <= i < n + 2 :: s[i] == alt[i - 2];
    assert forall i | n + 4 <= i < e - 1 :: s[i] == url[i - n - 4];
    assert s[n + 2] == ']' && s[n + 3] == '(' && s[e - 1] == ')';
    ImageAtShape(s, Span(2, n + 2, e));
  }

  /** A match spanning the whole text is replaced by its capture. */
  lemma ReplaceWholeMatch(rule: Rule, s: string, from: nat, to: nat)
    requires MatchAt(rule, s) == Some(Span(from, to, |s|))
    ensures Replace(rule, s) == s[from..to]
  {
    assert s[|s|..] == [];
    assert s[from..to] + [] == s[from..to];
  }

  /** The image pass turns `![alt](url)` into `alt`. */
  lemma ImagePassGivesAlt(alt: string, url: string)
    requires ']' !in alt
    requires url != [] && ')' !in url
    ensures Replace(Image, "![" + alt + "](" + url + ")") == alt
  {
    var s := "![" + alt + "](" + url + ")";
    ImageAtAlt(alt, url);
    ReplaceWholeMatch(Image, s, 2, 2 + |alt|);
    assert s[2..2 + |alt|] == alt;
  }

  /** The link pass alone matches `[alt](url)` only after the `!`, which it keeps. */
  lemma LinkPassKeepsBang(alt: string, url: string)
    requires alt != [] && ']' !in alt
    requires url != [] && ')' !in url
    ensures Replace(Link, "![" + alt + "](" + url + ")") == "!" + alt
  {
    var s := "![" + alt + "](" + url + ")";
    var t := "[" + alt + "](" + url + ")";
    assert s[1..] == t;
    LinkAtLabel(alt, url);
    ReplaceWholeMatch(Link, t, 1, 1 + |alt|);
    assert t[1..1 + |alt|] == alt;
    assert LinkAt(s) == None;
    assert Replace(Link, s) == [s[0]] + Replace(Link, s[1..]);
  }

  /**
   * Images are rewritten before links: `![alt](url)` becomes `alt` because
   * the image pass runs first; the link pass alone would leave `!alt`.
   */
  lemma ImageBeforeLink(alt: string, url: string)
    requires alt != [] && '[' !in alt && ']' !in alt
    requires url != [] && ')' !in url
    ensures Replace(Link, Replace(Image, "![" + alt + "](" + url + ")")) == alt
    ensures Replace(Link, "![" + alt + "](" + url + ")") == "!" + alt
  {
    ImagePassGivesAlt(alt, url);
    ReplaceWithoutOpener(Link, alt);
    LinkPassKeepsBang(alt, url);
  }

  /** The line-start constructs notes.js removes, each replaced by nothing. */
  datatype LineRule =
    | Quote    // /^>\s?/gm
    | Bullet   // /^[-*+]\s+/gm
    | Ordinal  // /^\d+\.\s+/gm

  /** Length of the longest prefix of decimal digits. */
  function LeadingDigits(s: string): (k: nat)
    ensures k <= |s|
    ensures forall i | 0 <= i < k :: IsDigit(s[i])
    ensures k < |s| ==> !IsDigit(s[k])
  {
    if |s| > 0 && IsDigit(s[0]) then 1 + LeadingDigits(s[1..]) else 0
  }

  /** `s[i..j]` is a longest whitespace run starting at `i`, as a greedy `\s+` or `\s*` takes it. */
  predicate SpaceRun(s: string, i: nat, j: nat) {
    i <= j <= |s| && (forall k | i <= k < j :: IsSpace(s[k])) && (j < |s| ==> !IsSpace(s[j]))
  }

  /** The length of the line rule's match at the start of `s`, when it matches there. */
  function LineMatchAt(rule: LineRule, s: string): (n: Option<nat>)
    ensures n.Some? ==> 1 <= n.value <= |s|
  {
    match rule
    case Quote =>
      if |s| >= 1 && s[0] == '>' then Some(if |s| >= 2 && IsSpace(s[1]) then 2 else 1) else None
    case Bullet =>
      if |s| >= 2 && (s[0] == '-' || s[0] == '*' || s[0] == '+') && IsSpace(s[1])
      then Some(1 + LeadingSpaces(s[1..])) else None
    case Ordinal =>
      var d := LeadingDigits(s);
      if 1 <= d && d + 1 < |s| && s[d] == '.' && IsSpace(s[d + 1])
      then Some(d + 1 + LeadingSpaces(s[d + 1..])) else None
  }

  /**
   * What each line rule removes: `>` and at most one whitespace character;
   * a bullet marker and the whole whitespace run after it; the leading
   * digits, `.` and the whole whitespace run after them.
   */
  lemma LineMatchAtShape(rule: LineRule, s: string)
    ensures var n := LineMatchAt(rule, s);
      && (rule == Quote ==> (n.Some? <==> |s| >= 1 && s[0] == '>'))
      && (rule == Quote && n.Some? ==> n.value <= 2 && (n.value == 2 <==> |s| >= 2 && IsSpace(s[1])))
      && (rule == Bullet ==> (n.Some? <==> |s| >= 2 && s[0] in "-*+" && IsSpace(s[1])))
      && (rule == Bullet && n.Some? ==> SpaceRun(s, 1, n.value))
      && (rule == Ordinal && n.Some? ==>
            var d := LeadingDigits(s);
            1 <= d && d + 2 <= n.value && s[d] == '.' && SpaceRun(s, d + 1, n.value))
  {
    match rule
    case Quote =>
    case Bullet => BulletMatchShape(s);
    case Ordinal => OrdinalMatchShape(s);
  }

  lemma BulletMatchShape(s: string)
    ensures var n := LineMatchAt(Bullet, s);
      && (n.Some? <==> |s| >= 2 && s[0] in "-*+" && IsSpace(s[1]))
      && (n.Some? ==> SpaceRun(s, 1, n.value))
  {
    if |s| >= 2 {
      var k := LeadingSpaces(s[1..]);
      assert forall i | 1 <= i < 1 + k :: s[i] == s[1..][i - 1];
    }
  }

  lemma OrdinalMatchShape(s: string)
    ensures var n := LineMatchAt(Ordinal, s);
      n.Some? ==>
        var d := LeadingDigits(s);
        1 <= d && d + 2 <= n.value && s[d] == '.' && SpaceRun(s, d + 1, n.value)
  {
    var d := LeadingDigits(s);
    if 1 <= d && d + 1 < |s| {
      var k := LeadingSpaces(s[d + 1..]);
      assert forall i | d + 1 <= i < d + 1 + k :: s[i] == s[d + 1..][i - d - 1];
    }
  }

  /**
   * `s.replace(regex, '')` for a multiline `^` rule. `lineStart` says whether
   * the first character of `s` starts a line of the original text: the
   * start of the input, or just after a line terminator.
   */
  function ReplaceAtLineStarts(rule: LineRule, s: string, lineStart: bool): string
    decreases |s|
  {
    if s == [] then []
    else if lineStart && LineMatchAt(rule, s).Some? then
      var n := LineMatchAt(rule, s).value;
      ReplaceAtLineStarts(rule, s[n..], IsLineTerminator(s[n - 1]))
    else [s[0]] + ReplaceAtLineStarts(rule, s[1..], IsLineTerminator(s[0]))
  }

  lemma {:induction false} ReplaceAtLineStartsDeletesOnly(rule: LineRule, s: string, lineStart: bool)
    ensures IsSubseq(ReplaceAtLineStarts(rule, s, lineStart), s)
    decreases |s|
  {
    if s != [] {
      if lineStart && LineMatchAt(rule, s).Some? {
        var n := LineMatchAt(rule, s).value;
        ReplaceAtLineStartsDeletesOnly(rule, s[n..], IsLineTerminator(s[n - 1]));
        SubseqPrepend(ReplaceAtLineStarts(rule, s[n..], IsLineTerminator(s[n - 1])), s[..n], s[n..]);
        assert s[..n] + s[n..] == s;
      } else {
        ReplaceAtLineStartsDeletesOnly(rule, s[1..], IsLineTerminator(s[0]));
        SubseqKeepMiddle([], [s[0]], [], s[1..], ReplaceAtLineStarts(rule, s[1..], IsLineTerminator(s[0])));
        assert [] + [s[0]] + [] + s[1..] == s;
      }
    }
  }

  /** Inside a line, past its start, nothing is removed. */
  lemma {:induction false} WithinLineKept(rule: LineRule, t: string)
    requires NoLineTerminator(t)
    ensures ReplaceAtLineStarts(rule, t, false) == t
    decreases |t|
  {
    if t != [] {
      WithinLineKept(rule, t[1..]);
      assert t == [t[0]] + t[1..];
    }
  }

  /** A line whose start matches loses exactly the match. */
  lemma LineStartRemoved(rule: LineRule, s: string, n: nat)
    requires LineMatchAt(rule, s) == Some(n)
    requires n < |s| && !IsLineTerminator(s[n - 1]) && NoLineTerminator(s[n..])
    ensures ReplaceAtLineStarts(rule, s, true) == s[n..]
  {
    WithinLineKept(rule, s[n..]);
  }

  /** `> quoted` loses its `>` and one space. */
  lemma QuoteRemoved(q: string)
    requires q != [] && NoLineTerminator(q)
    ensures ReplaceAtLineStarts(Quote, "> " + q, true) == q
  {
    var s := "> " + q;
    assert s[2..] == q;
    LineStartRemoved(Quote, s, 2);
  }

  /** `- item` (or `*`, `+`) loses its marker and all the spaces after it. */
  lemma BulletRemoved(marker: char, item: string)
    requires marker in "-*+"
    requires item != [] && !IsSpace(item[0]) && NoLineTerminator(item)
    ensures ReplaceAtLineStarts(Bullet, [marker, ' '] + item, true) == item
  {
    var s := [marker, ' '] + item;
    assert s[1..] == [' '] + item;
    LeadingSpacesIs(s[1..], 1);
    assert s[2..] == item;
    LineStartRemoved(Bullet, s, 2);
  }

  /** `12. step` loses its number, the dot and the space after it. */
  lemma OrdinalRemoved(digits: string, step: string)
    requires digits != [] && forall i | 0 <= i < |digits| :: IsDigit(digits[i])
    requires step != [] && !IsSpace(step[0]) && NoLineTerminator(step)
    ensures ReplaceAtLineStarts(Ordinal, digits + ". " + step, true) == step
  {
    var s := digits + ". " + step;
    var d := |digits|;
    assert s[d] == '.' && s[d + 1] == ' ' && s[d + 2] == step[0];
    assert s[d + 2..] == step;
    OrdinalMatch(s, d);
    LineStartRemoved(Ordinal, s, d + 2);
  }

  /** Digits on `[0, d)`, then `.`, one space and a non-space: the ordinal match has length `d + 2`. */
  lemma OrdinalMatch(s: string, d: nat)
    requires 1 <= d && d + 2 < |s|
    requires forall i | 0 <= i < d :: IsDigit(s[i])
    requires s[d] == '.' && IsSpace(s[d + 1]) && !IsSpace(s[d + 2])
    ensures LineMatchAt(Ordinal, s) == Some(d + 2)
  {
    LeadingDigitsIs(s, d);
    LeadingSpacesIs(s[d + 1..], 1);
  }

  lemma {:induction false} LeadingDigitsIs(s: string, k: nat)
    requires k <= |s|
    requires forall i | 0 <= i < k :: IsDigit(s[i])
    requires k < |s| ==> !IsDigit(s[k])
    ensures LeadingDigits(s) == k
  {
    if k > 0 {
      LeadingDigitsIs(s[1..], k - 1);
    }
  }
}
