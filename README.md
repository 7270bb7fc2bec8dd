# Markdown outline, note metadata, contact route and asset URLs — a Dafny model

This project models the text-processing and request-guarding core of a
personal Next.js site. It covers four areas.

- **The table of contents of a markdown page** (`src/lib/markdownOutline.js`):
  - HEADING_PATTERN, stripInlineMarkdown, slugify, the per-extraction slugger and extractHeadings.
  - Module `Outline`, with the regular-expression passes shared with the notes in module `Rewrite`.
- **Note metadata** (`src/lib/notes.js`):
  - stripMarkdown and titleFromSlug;
  - extractTitle with H1_PATTERN, stripLeadingH1 and extractExcerpt.
  - Module `Notes`.
- **The contact form's API route** (`src/pages/api/contact.js`):
  - the per-IP sliding-window rate limiter over its module-level map;
  - the ordered input validator with its email pattern;
  - the sanitiser, and the order in which the handler chooses its response.
  - Module `Contact`.
- **Asset URLs** (`src/lib/assets.js`): getAssetUrl against the blob-storage base URL. Module `Assets`.

Module `Text` holds what JavaScript's string library provides to all of them:
- the `\s` and `trim` whitespace set, `split` and `join`;
- `toLowerCase` on ASCII letters, `filter` and `map`;
- the decimal rendering of a counter.

## How the model is built

**Regular expressions.** Each one is written out as the scan JavaScript's backtracking engine performs:
- a global `replace` finds the leftmost match, replaces it and resumes after it, never rescanning what it produced;
- a lazy `.+?` grows one character at a time;
- a greedy `\s+` gives characters back one at a time;
- a multiline `^` and `$` look at line terminators (`\n`, `\r`, U+2028, U+2029).

**Pure code stays pure.** The functions that are expression chains in the source are Dafny functions.

**Code that changes state is imperative.** Three pieces are methods or classes:
- The slugger's `seen` map is a field of class `Outline.Slugger`.
- extractHeadings' loop over the lines is a method proved equal to the function `Outline.Outline`.
- The rate limiter's map is a field of class `Contact.RateLimiter`, whose `IsRateLimited` updates it.

**Parameters.** Three things outside the code become parameters:
- the clock (`Date.now()`);
- the environment (`NEXT_PUBLIC_BLOB_STORAGE_URL`, and whether the mail credentials are set);
- the way sending mail ends.

**Three behaviours of the code that are easy to miss**, each proved as a lemma:

- **Ids repeat across different headings.** The slugger counts uses per base slug and appends the count to later uses (src/lib/markdownOutline.js:24-32). So ids are distinct only among headings with the same base slug (`Outline.SameSlugDistinctIds`).
  - A base slug that happens to look like a numbered id collides: headings `A`, `A`, `A 1` get ids `a`, `a-1`, `a-1`.
  - `Outline.SuffixedBaseCollides` states this for every base.
- **A heading of asterisks is kept.** A heading is skipped only when its text strips to nothing (src/lib/markdownOutline.js:68-72). No inline pass matches a run of asterisks, so `### ***` is kept with the text `***` and an empty slug (`Outline.StarsOnlyHeadingKept`).
- **H1_PATTERN can cross a line break.** Its `\s+` (src/lib/notes.js:5) matches line terminators too, so:
  - `# ` followed by `# Real` on the next line yields the title `# Real` (`Notes.H1SpansBlankHeading`);
  - a bare `#` line takes the next line as the title (`Notes.H1SpansBareHash`).

## Model

| member | source | states |
|---|---|---|
| Text.ToLower | src/lib/markdownOutline.js:13 | lower-casing keeps the length, leaves no capital letter, turns each capital into its small letter and leaves every other character as it is |
| Text.Trim | src/lib/markdownOutline.js:47 | the trimmed text has no whitespace at either end, is the slice of the input after its leading whitespace, and only whitespace follows it |
| Text.TrimEnd | src/lib/notes.js:5 | the text without its trailing whitespace is a prefix of it, followed only by whitespace, and ends in a non-space |
| Text.Split | src/lib/markdownOutline.js:43 | splitting on a character gives at least one piece and no piece holds the separator |
| Text.JoinSplit | src/lib/notes.js:22-25 | joining the pieces of a split with the same separator gives back the original string |
| Text.SplitJoin | src/lib/notes.js:22-25 | splitting a join of separator-free pieces gives back the pieces |
| Text.ParseNatToString | src/lib/markdownOutline.js:32 | the decimal text of a counter reads back as the counter |
| Text.NatToStringInjective | src/lib/markdownOutline.js:32 | different counters render as different digit strings |
| Rewrite.MatchAt | src/lib/markdownOutline.js:5-8 | a match is what the rule's pattern describes: for code and italic a non-empty capture up to the next delimiter, closed by it; for bold a non-empty `*`-free capture between `**` pairs; for an image or a link the text up to the first `]`, then `(`, a non-empty `)`-free target and `)` |
| Rewrite.MatchAtIff | src/lib/markdownOutline.js:5-8 | the scan reports a match exactly when the text starts with what the pattern describes, with exactly that capture and end |
| Rewrite.Replace | src/lib/markdownOutline.js:5-8 | a global replace by the first capture never lengthens the text; ReplacePlain, ReplaceMatch and the span lemmas give its value |
| Rewrite.ReplacePlain | src/lib/notes.js:9-13 | text before the first opening character is copied unchanged and the scan goes on after it |
| Rewrite.ReplaceMatch | src/lib/notes.js:9-13 | a match at the start is replaced by its capture and the scan resumes right after the match |
| Rewrite.CodeSpanStripped | src/lib/markdownOutline.js:5 | the code pass turns `` `x` `` into `x` when `x` is non-empty and has no backtick |
| Rewrite.BoldSpanStripped | src/lib/markdownOutline.js:6 | the bold pass turns `**x**` into `x` when `x` is non-empty and has no `*` |
| Rewrite.ItalicSpanStripped | src/lib/markdownOutline.js:7 | the italic pass turns `*x*` into `x` when `x` is non-empty and has no `*` |
| Rewrite.LinkSpanStripped | src/lib/markdownOutline.js:8 | the link pass turns `[caption](url)` into `caption` |
| Rewrite.ReplaceDeletesOnly | src/lib/markdownOutline.js:5-8 | every inline replace pass only deletes characters: its output is a subsequence of its input |
| Rewrite.ReplaceWithoutOpener | src/lib/markdownOutline.js:5-8 | text without the pattern's opening character passes through unchanged |
| Rewrite.TargetEndOf | src/lib/notes.js:12-13 | a `](url)` with a non-empty, `)`-free url ends just after its closing parenthesis |
| Rewrite.LinkAtLabel | src/lib/markdownOutline.js:8 | a link `[caption](url)` matches in full and captures its caption |
| Rewrite.ImageAtAlt | src/lib/notes.js:12 | an image `![alt](url)` matches in full and captures its alt text, which may be empty |
| Rewrite.ReplaceWholeMatch | src/lib/notes.js:9-16 | when a pass matches the whole text at once, the text becomes the capture |
| Rewrite.ImageBeforeLink | src/lib/notes.js:12-13 | the image pass running before the link pass turns an image into its alt text; the link pass alone would leave a stray `!` |
| Rewrite.ImagePassGivesAlt | src/lib/notes.js:12 | the image pass turns `![alt](url)` into `alt` |
| Rewrite.LinkPassKeepsBang | src/lib/notes.js:13 | the link pass on its own turns `![alt](url)` into `!alt` |
| Rewrite.LineMatchAtShape | src/lib/notes.js:14-16 | a quote match is `>` plus one following whitespace character when there is one; a bullet match is `-`, `*` or `+` and the whole whitespace run after it, and exists exactly when whitespace follows the marker; an ordinal match is the leading digits, `.` and the whole whitespace run after it |
| Rewrite.LineMatchAt | src/lib/notes.js:14-16 | a line-start match is a non-empty prefix of the text; LineMatchAtShape states what it consists of |
| Rewrite.ReplaceAtLineStarts | src/lib/notes.js:14-16 | no contract of its own: ReplaceAtLineStartsDeletesOnly shows it only deletes, and LineStartRemoved and WithinLineKept give its value on a line |
| Rewrite.WithinLineKept | src/lib/notes.js:14-16 | past a line's start and before its end, nothing is removed |
| Rewrite.LineStartRemoved | src/lib/notes.js:14-16 | a one-line text whose start matches loses exactly the match |
| Rewrite.QuoteRemoved | src/lib/notes.js:14 | `> q` becomes `q` |
| Rewrite.BulletRemoved | src/lib/notes.js:15 | `- item`, `* item` and `+ item` become `item` |
| Rewrite.OrdinalRemoved | src/lib/notes.js:16 | `12. step` becomes `step` |
| Rewrite.OrdinalMatch | src/lib/notes.js:16 | digits, `.` and one space before a non-space match with exactly that length |
| Rewrite.ReplaceAtLineStartsDeletesOnly | src/lib/notes.js:14-16 | the multiline marker passes only delete characters |
| Outline.MatchHeading | src/lib/markdownOutline.js:1 | a match on a trimmed line is two or three `#`, whitespace, then content that starts with a non-space and holds no line break |
| Outline.MatchHeadingComplete | src/lib/markdownOutline.js:1 | every line of that shape matches, with exactly its level and content |
| Outline.MatchHeadingAt | src/lib/markdownOutline.js:1 | a trimmed line whose `#` run has length 2 or 3 and is followed by whitespace matches, with that level and the text after the whitespace as content |
| Outline.StripClosingHashes | src/lib/markdownOutline.js:68 | the result is a prefix of the content; when something is removed, it is whitespace, hashes and whitespace, and the prefix ends in a non-space |
| Outline.ClosingHashesRemoved | src/lib/markdownOutline.js:68 | text ending in a non-space, then whitespace, hashes and whitespace, loses exactly the closing run |
| Outline.StripClosingHashesAt | src/lib/markdownOutline.js:68 | a non-space, then whitespace, a `#` run and trailing whitespace, located by indices: the text is cut just before that whitespace |
| Outline.StripInlineMarkdown | src/lib/markdownOutline.js:3-9 | stripping inline markup never lengthens the text; the lemmas below give its value |
| Outline.StripInlineMarkdownMixed | src/lib/markdownOutline.js:3-9 | in plain words mixed with a bold span, a code span and a link, the markup goes and the words, the bold and code contents and the caption stay in order |
| Outline.StripInlineMarkdownExample | src/lib/markdownOutline.js:3-9 | "See \*\*bold\*\* and \`code\` and [a link](http://x.com)" becomes "See bold and code and a link" |
| Outline.StripInlineMarkdownDeletesOnly | src/lib/markdownOutline.js:3-9 | stripping inline markup only deletes characters and never lengthens the text |
| Outline.StripInlineMarkdownPlainText | src/lib/markdownOutline.js:3-9 | text with no backtick, `*` or `[` is unchanged |
| Outline.StarsUntouched | src/lib/markdownOutline.js:6-7 | neither the bold nor the italic pass changes a run of asterisks |
| Outline.StarsOnlyHeadingKept | src/lib/markdownOutline.js:68-72 | a heading text made only of asterisks survives intact, so such a heading is kept |
| Outline.DashSpacesChars | src/lib/markdownOutline.js:16 | collapsing whitespace runs to hyphens leaves only slug characters when the input had only slug characters and whitespace |
| Outline.DashSpacesWithoutSpaces | src/lib/markdownOutline.js:16 | text without whitespace is unchanged by the hyphen pass |
| Outline.Slugify | src/lib/markdownOutline.js:11-17 | no contract of its own: SlugifyChars and SlugifyIdempotent state what a slug is |
| Outline.SlugifyChars | src/lib/markdownOutline.js:11-17 | a slug holds only lower-case letters, digits, `_` and `-` |
| Outline.SlugifyIdempotent | src/lib/markdownOutline.js:11-17 | slugifying a slug changes nothing |
| Outline.DisambiguateInjective | src/lib/markdownOutline.js:28-32 | the same base with different counters gives different ids, and with equal counters the same id |
| Outline.TallyCounts | src/lib/markdownOutline.js:24-26 | after a sequence of bases, the counter map holds how often each base occurred |
| Outline.Slugger.constructor | src/lib/markdownOutline.js:19-20 | a fresh slugger has seen nothing |
| Outline.Slugger.Slug | src/lib/markdownOutline.js:22-33 | the n-th use of a base returns the base the first time and `base-(n-1)` after; only that base's counter grows |
| Outline.Slugger.Number | src/lib/markdownOutline.js:24-32 | for a base slug already computed: the first use returns the base and the n-th use `base-(n-1)`, and only that base's counter grows |
| Outline.IdsSpec | src/lib/markdownOutline.js:22-33 | the k-th id is the k-th base numbered by the uses of that base before position k |
| Outline.SameBaseDistinctIds | src/lib/markdownOutline.js:22-33 | two uses of the same base slug never get the same id |
| Outline.SuffixedBaseCollides | src/lib/markdownOutline.js:28-32 | bases `b`, `b`, `b-1` receive ids `b`, `b-1`, `b-1`: ids across different bases can collide |
| Outline.DefaultDepthsKeepEveryMatch | src/lib/markdownOutline.js:36 | with the default depths 2 and 3, every pattern match whose text survives stripping yields its heading |
| Outline.HeadingCandidate | src/lib/markdownOutline.js:58-72 | a kept heading has level 2 or 3 within the requested depth range and a non-empty trimmed text |
| Outline.LineCandidate | src/lib/markdownOutline.js:47-72 | a line yields a heading only outside a fence and when it is not itself a fence line |
| Outline.ScanLine | src/lib/markdownOutline.js:46-72 | one loop step toggles the fence flag exactly on fence lines and yields the line's heading, if any |
| Outline.Push | src/lib/markdownOutline.js:74-78 | pushing a heading extends the records by the heading with its slugger id and keeps the slugger in step |
| Outline.ScanStep | src/lib/markdownOutline.js:46-79 | one turn of the loop carries the fence flag, the headings found, their records and the slugger from the lines before to the lines including this one |
| Outline.ScanLines | src/lib/markdownOutline.js:41-81 | the loop's records are the candidates of the lines with their ids assigned in order |
| Outline.Outline | src/lib/markdownOutline.js:36-82 | no contract of its own: the specification of extractHeadings, which ScanLines and ExtractHeadings are proved against and OutlineWellFormed and SameSlugDistinctIds describe |
| Outline.ExtractHeadings | src/lib/markdownOutline.js:36-82 | the method's result is the outline function of the markdown, empty for empty markdown |
| Outline.SameSlugDistinctIds | src/lib/markdownOutline.js:41-78 | two extracted headings whose texts slugify alike get different ids |
| Outline.CandidatesWellFormed | src/lib/markdownOutline.js:46-79 | at most one heading per line, each with level 2 or 3 within range and non-empty trimmed text |
| Outline.OutlineWellFormed | src/lib/markdownOutline.js:36-82 | every record's level lies in the requested range, its text is non-empty and trimmed, and there are no more records than lines |
| Outline.FenceStylesClose | src/lib/markdownOutline.js:49-52 | any fence line toggles the fence, so a ``` fence is closed by ~~~ as well |
| Outline.InsideFenceNoHeading | src/lib/markdownOutline.js:54-56 | no line inside an open fence yields a heading |
| Outline.SkippedLineInvisible | src/lib/markdownOutline.js:46-72 | deleting a non-fence line that yields no heading changes neither the fence state nor the headings |
| Outline.HeadingTextOfPlain | src/lib/markdownOutline.js:68-69 | plain heading text followed by closing hashes comes out as exactly that text |
| Outline.HeadingLineYields | src/lib/markdownOutline.js:58-72 | a `##`/`###` line with plain text and closing hashes yields that text at its level |
| Notes.StripMarkdown | src/lib/notes.js:7-18 | the stripped text has no whitespace at either end |
| Notes.StripMarkdownDeletesOnly | src/lib/notes.js:7-18 | stripping markdown only deletes characters |
| Notes.LineRulesSkipLine | src/lib/notes.js:14-16 | a line starting with a letter loses nothing to the quote, bullet and ordinal passes |
| Notes.StripMarkdownImage | src/lib/notes.js:7-18 | an image whose alt starts with a letter strips to exactly its alt text |
| Notes.CapitalizeAbsent | src/lib/notes.js:24 | capitalising adds no character other than an upper-case letter |
| Notes.SegmentsAbsent | src/lib/notes.js:22-23 | the slug's kept segments are non-empty and hold no hyphen nor any character absent from the slug |
| Notes.TitleFromSlug | src/lib/notes.js:20-26 | no contract of its own: TitleHasNoHyphen and TitleWords state what a title is |
| Notes.TitleHasNoHyphen | src/lib/notes.js:20-26 | a title built from a slug has no hyphen |
| Notes.TitleWords | src/lib/notes.js:20-26 | for a slug without spaces, the title is empty exactly when the slug has no segments; otherwise its words are the segments, in order, each with its first character upper-cased |
| Notes.LazyToLineEnd | src/lib/notes.js:5 | the lazy capture, when it succeeds, is at least as long as asked and stays inside the text |
| Notes.LazyFindsLineText | src/lib/notes.js:5 | the lazy capture stops at the line's last non-space character |
| Notes.BlankToLineEndAt | src/lib/notes.js:5 | `\s*$` succeeds where only whitespace remains before the line end |
| Notes.NotBlankToLineEnd | src/lib/notes.js:5 | `\s*$` fails where a non-space remains before the line end |
| Notes.H1At | src/lib/notes.js:5 | no contract of its own: H1AtHeading, H1AtWholeLine and H1AtLine give its value |
| Notes.FindH1 | src/lib/notes.js:29 | no contract of its own: FindH1SkipsRestOfLine and NonH1LineSkipped state where the search looks |
| Notes.H1AtHeading | src/lib/notes.js:5 | `#`, whitespace and a line of text yield that line without its trailing whitespace |
| Notes.H1AtWholeLine | src/lib/notes.js:5 | a heading text with no trailing whitespace is captured exactly |
| Notes.H1AtLine | src/lib/notes.js:5 | the same, for a heading located by indices inside a larger text |
| Notes.H1SpansBlankHeading | src/lib/notes.js:5 | `# ` followed by `# Real` on the next line yields `# Real` |
| Notes.H1SpansBareHash | src/lib/notes.js:5 | a bare `#` line takes the next line as its title |
| Notes.FindH1SkipsRestOfLine | src/lib/notes.js:5 | the multiline search resumes only at the next line start |
| Notes.NonH1LineSkipped | src/lib/notes.js:5 | a line that does not start with `#` and whitespace is passed over |
| Notes.ExtractTitle | src/lib/notes.js:28-38 | no contract of its own: ExtractTitleOfHeading and ExtractTitleNotEmpty state its value |
| Notes.ExtractTitleOfHeading | src/lib/notes.js:28-38 | a note opening with an H1 gets the stripped heading as its title, or the slug's title when that is empty |
| Notes.ExtractTitleNotEmpty | src/lib/notes.js:28-38 | a slug with at least one segment always gives a non-empty title |
| Notes.NewlinesEnd | src/lib/notes.js:41 | `\s*(?:\r?\n)+` ends just past a line feed, covers only whitespace, and no line feed of the whitespace run lies beyond it; when it fails, the run holds no line feed |
| Notes.LazyToNewlines | src/lib/notes.js:41 | the lazy title match, when it succeeds, ends past the title |
| Notes.GapToNewlines | src/lib/notes.js:41 | the match exists only when the gap after `#` is non-empty, and ends inside the text |
| Notes.LeadingH1End | src/lib/notes.js:41 | a match starts with an optional byte-order mark, then `#` and whitespace |
| Notes.StripLeadingH1 | src/lib/notes.js:40-42 | the result is a suffix of the content, and it differs only when the content starts with `#` and whitespace, possibly after a byte-order mark |
| Notes.LazyToNewlinesNone | src/lib/notes.js:41 | without a line feed the lazy title match fails |
| Notes.GapToNewlinesNone | src/lib/notes.js:41 | without a line feed the whole match fails |
| Notes.StripLeadingH1NeedsNewline | src/lib/notes.js:41 | content with no line feed is returned unchanged |
| Notes.TitleAloneKept | src/lib/notes.js:41 | a note that is only `# Title` keeps its heading |
| Notes.LazyTakesTitle | src/lib/notes.js:41 | the lazy title match runs to just past the last line feed after the title |
| Notes.LazyWholeTitle | src/lib/notes.js:41 | inside a title with no line break, the lazy match grows to the whole title |
| Notes.NewlinesEndInsideLine | src/lib/notes.js:41 | inside a line that goes on to a non-space, the line-break part cannot match |
| Notes.NewlinesEndAfterLine | src/lib/notes.js:41 | whitespace ending in a line feed and followed by a non-space: the line-break part ends exactly there |
| Notes.StripLeadingH1Heading | src/lib/notes.js:40-42 | an H1 line, its trailing whitespace and line breaks are removed, leaving exactly the rest |
| Notes.StripLeadingH1At | src/lib/notes.js:41 | the same, for a heading located by indices |
| Notes.ExcerptLinesCons | src/lib/notes.js:45-51 | the kept lines of a text start with its first line's stripped form exactly when that line qualifies |
| Notes.ExcerptIsFirstProse | src/lib/notes.js:44-54 | the first kept line is the stripped form of the first qualifying line |
| Notes.FirstProseEmpty | src/lib/notes.js:44-54 | there is no such line exactly when no line qualifies |
| Notes.ExtractExcerpt | src/lib/notes.js:44-54 | no contract of its own: ExtractExcerptSpec relates it to the first qualifying line |
| Notes.ExtractExcerptSpec | src/lib/notes.js:44-54 | the excerpt is the stripped form of the first qualifying line, and empty exactly when no line qualifies |
| Contact.Limited | src/pages/api/contact.js:15 | no contract of its own: whether three or more stored times lie in the window; FourthRequestRefused and AtMostThreePerWindow state what it guarantees |
| Contact.Recent | src/pages/api/contact.js:13 | the in-window filter keeps only times within the window and never grows the list |
| Contact.AfterRequest | src/pages/api/contact.js:8-24 | a refused request leaves the map unchanged; an accepted one stores at most three in-window times ending with now; other IPs are untouched |
| Contact.RateLimiter.constructor | src/pages/api/contact.js:4 | the limiter starts with an empty map |
| Contact.RateLimiter.IsRateLimited | src/pages/api/contact.js:8-24 | the answer is whether three or more stored times are in the window, and the map becomes its updated form |
| Contact.StoredAtMostThree | src/pages/api/contact.js:15-21 | after any sequence of calls, no IP has more than three stored times |
| Contact.RecentLater | src/pages/api/contact.js:13 | filtering at a later time after an earlier one equals filtering at the later time |
| Contact.AppendAccepted | src/pages/api/contact.js:13-21 | appending an accepted time keeps the stored and the accepted in-window times equal |
| Contact.ReplayRemembersAccepted | src/pages/api/contact.js:8-24 | with a clock that never goes back, the in-window stored times are exactly the in-window accepted times |
| Contact.AtMostThreePerWindow | src/pages/api/contact.js:4-24 | with a clock that never goes back, at most three requests per IP are accepted within any window |
| Contact.EmailMatches | src/pages/api/contact.js:34 | no contract of its own: the email pattern as a scan, which EmailMatchesShape characterises |
| Contact.EmailMatchesShape | src/pages/api/contact.js:34 | the email pattern accepts exactly the addresses with no whitespace, one `@` after a non-empty local part, and a `.` that is neither first nor last in the domain |
| Contact.MatchesHasShape | src/pages/api/contact.js:34 | an address the pattern accepts has that shape |
| Contact.ShapeMatches | src/pages/api/contact.js:34 | an address of that shape is accepted by the pattern |
| Contact.ValidateInput | src/pages/api/contact.js:26-60 | an accepted form has trimmed name, subject and message of at least 2, 3 and 10 characters, raw lengths of at most 100, 200 and 5000, and a well-shaped email |
| Contact.ValidateFirstFailure | src/pages/api/contact.js:26-60 | the form is accepted exactly when none of the seven checks fails, and otherwise the error is the message of the first failing check |
| Contact.EmailCheckedBeforeNameLength | src/pages/api/contact.js:34-49 | a bad email is reported before an overlong name |
| Contact.SanitizeInput | src/pages/api/contact.js:62-64 | the sanitised text holds no `<` or `>` |
| Contact.SanitizeDeletesOnly | src/pages/api/contact.js:62-64 | sanitising only deletes characters |
| Contact.SanitizeTwice | src/pages/api/contact.js:62-64 | sanitising again only trims again |
| Contact.SanitizeNotIdempotent | src/pages/api/contact.js:62-64 | `"a <"` sanitises to `"a "`, which sanitises to `"a"` |
| Contact.Decide | src/pages/api/contact.js:66-186 | success exactly when the request is a POST, not limited, valid, configured and sent; non-POST is 405, limited is 429, invalid is 400 with the validator's message |
| Contact.Handle | src/pages/api/contact.js:66-186 | a non-POST leaves the limiter alone, a POST always passes through it, the reply follows the decision order, and mail with the sanitised fields is prepared exactly when all checks pass |
| Contact.Respond | src/pages/api/contact.js:83-171 | past the method and rate-limit checks, the reply follows the decision order, and mail with the sanitised fields is prepared exactly when the form is valid and mail is configured |
| Contact.FourthRequestRefused | src/pages/api/contact.js:8-24 | from an unseen IP, three requests within a minute are accepted and the fourth is refused |
| Contact.AcceptedStep | src/pages/api/contact.js:13-21 | an IP with fewer than three in-window times is let through and its list becomes those times followed by now |
| Contact.RecentAllInWindow | src/pages/api/contact.js:13 | times that all lie in the window are kept as they are |
| Assets.BlobStorageUrl | src/lib/assets.js:5-7 | the base URL is never empty, is the variable when that is set, and is an https URL when the variable is unset |
| Assets.GetAssetUrl | src/lib/assets.js:16-23 | empty paths and full URLs are returned unchanged; any other path yields the base, one `/`, and the path |
| Assets.AssetPathRoundTrip | src/lib/assets.js:21-22 | a rooted path is recovered from its URL by removing the base |
| Assets.LeadingSlashOptional | src/lib/assets.js:21 | `x` and `/x` resolve to the same URL |
| Assets.GetAssetUrlIdempotent | src/lib/assets.js:16-23 | with a full-URL base, resolving a resolved URL changes nothing |
| Assets.DefaultIsFullUrl | src/lib/assets.js:5-7 | the default base URL is an https URL |

## Left out

- **Character model.**
  - Strings are sequences of characters. JavaScript's UTF-16 code units are not modelled, so `.length` counts characters; surrogate pairs are out of scope.
  - `toLowerCase` and `toUpperCase` are modelled on ASCII letters only; Unicode case mapping is out of scope.
- **Absent values.** Absent (`null`/`undefined`) values are modelled as the empty string, since the source treats both as falsy in the places that test them. 
- Contact.ValidateInput: form fields are strings (absent ones empty). In the source a JSON number, boolean, array or object is possible. A falsy one (`0`, `false`) fails like the empty string. A truthy non-string name, subject or message reaches `.trim()` (src/pages/api/contact.js:30, 38, 42) and throws. The email pattern first turns a non-string into text (src/pages/api/contact.js:34).
- Contact.Decide: because fields are strings, the thrown error above is not modelled. In the source it lands in the handler's `catch` and is answered 500 "Failed to send email. Please try again later." (src/pages/api/contact.js:173-185), not 400. The same holds for a missing body, which throws while it is destructured (src/pages/api/contact.js:27).
- Contact.Handle: the same: a non-string field or a missing body gives the 500 reply above in the source, and no mail.
- Contact.SanitizeInput: modelled on strings only; on a non-string field sanitizeInput throws (src/pages/api/contact.js:63).
- Outline.MatchHeading: HEADING_PATTERN is modelled only on trimmed lines (it requires its input to be trimmed). That is the only way extractHeadings applies it.
- Outline.ScanLines: the `for` loop of extractHeadings is a method, with each step split into the helper methods `ScanStep`, `ScanLine` and `Push`.
- **Slug example.** Slugs with doubled or trailing hyphens (such as `my--note-`) are covered only by the general `Notes.TitleWords` lemma, not by a lemma about a concrete string.
- Contact.AtMostThreePerWindow: the at-most-three guarantee holds only for a clock that never goes back over the calls. A clock that jumps backwards is not modelled.
- **Handler side effects.** In the handler, these are left out: the client IP lookup (`x-forwarded-for`, the socket address), the nodemailer transport and its verify step, the HTML and text e-mail templates, and logging. The IP, whether the credentials are set, and the send outcome are parameters.
- **File-system functions.** The file-system functions of `src/lib/notes.js` (listing slugs and reading a note from disk) are not part of this model.
- **Process lifetime.** Concurrency between requests and the lifetime of the module-level map across server restarts are not modelled.
