# Content-migration transforms of a blog, modelled in Dafny

The blog's maintenance scripts move posts from WordPress into a Sanity content store.
Along the way they rewrite post bodies, which are lists of Portable Text blocks: blocks hold
spans, spans hold marks, and blocks hold link definitions (`markDefs`). This project models the
pure and locally stateful transforms inside those scripts, and proves what they promise:

- **HTML → blocks converter** (`fix-sanity-content-formatting.js`), in three modules:
  - `HtmlCleanup`: the entity table, newline normalisation and the `<br>…<br>` rewrite;
  - `InlineMarks`: `parseInlineElements`, the scanner with a text buffer, a mark list, a mark
    stack and span counters;
  - `HtmlBlocks`: splitting at block-opening tags, and header, list, paragraph and text
    fragments.
- **Bare-URL linkifier** (`format-links-in-posts.js`), in two modules:
  - `Links`: `normalizeUrl`, `isValidUrl`, `findUrls` over an abstract pattern matcher,
    `hasLinkMark` and `splitTextWithUrls`;
  - `LinkBlocks`: the per-block link-definition registry (a class whose list the methods
    update), `convertSpanWithUrls`, `processBlock` and `processPostBody`.
- **Bulk formatter** (`format-posts-bulk.js`), module `Bulk`: serialising blocks to text with
  `<strong>`/`<em>` markers, parsing formatted text back into blocks, and the excerpt.
- **WordPress importer** (`convert-wordpress-to-sanity.js`), module `Wordpress`: the
  marker-based converter, the category table, the category documents and the category
  references.
- **Keyword categoriser** (`categorize-posts.js`), module `Categorize`.
- **Entity decoder** (`decode-entities.js`), module `Entities`.
- **SEO audit** (`audit-seo-metadata.js`), module `SeoAudit`: route paths, metadata
  extraction and the audit rules.

Shared modules:

- `Text`: the JavaScript string operations the scripts use, such as `trim` with its
  white-space set, literal `replace`, the tag-stripping `/<[^>]*>/g`, ASCII lower-casing and
  decimal rendering.
- `Blocks`: the block datatypes.
- `Wrappers`: `Option`.

Loops in the source are methods, each proved equal to a specification function. The properties
are proved about those functions, as lemmas. Random keys are drawn from a key supplier
`keys: nat -> string` with a draw counter.

## Model

| member | source | states |
|---|---|---|
| Text.Trim | scripts/fix-sanity-content-formatting.js:72 | the result has no white space at either end, is empty exactly when the input is blank, and is the input with leading and trailing white space cut off |
| Text.TrimIdempotent | scripts/fix-sanity-content-formatting.js:72 | trimming twice is trimming once |
| Text.TrimOfTrimmed | scripts/convert-wordpress-to-sanity.js:155 | a string without white space at its ends is its own trim |
| Text.LowerAllIgnoreCase | scripts/categorize-posts.js:193-196 | two strings lower-case to the same string exactly when they are equal up to case, so comparing lower-cased text is a case-insensitive comparison |
| Text.LowerAllAppend | scripts/categorize-posts.js:193-196 | lower-casing the joined title and excerpt is joining their lower-cased forms |
| Text.LowerAllIdempotent | scripts/categorize-posts.js:201 | lower-casing text that is already lower-cased changes nothing |
| Text.IndexOf | scripts/format-links-in-posts.js:162 | `indexOf` is -1 exactly when the pattern does not occur, and otherwise is a position where it occurs |
| Text.IndexOfLeftmost | scripts/format-links-in-posts.js:162 | no occurrence starts before the index `indexOf` returns |
| Text.IndexOfIgnoreCase | scripts/fix-sanity-content-formatting.js:101 | the first position where a pattern matches without regard to case, or -1 when it matches nowhere |
| Text.ReplaceAll | scripts/decode-entities.js:19-32 | a global literal replacement leaves text without the pattern unchanged and brings in no characters other than the text's and the replacement's |
| Text.ReplaceAllIdentity | scripts/decode-entities.js:31-32 | replacing a pattern by itself changes nothing |
| Text.ReplaceChain | scripts/decode-entities.js:19-32 | a chain of replacements leaves text containing none of its patterns unchanged |
| Text.ChainWithoutChar | scripts/decode-entities.js:19-32 | text without a character that every pattern contains passes the chain unchanged |
| Text.ReplaceFirst | scripts/audit-seo-metadata.js:93-94 | a first-occurrence replacement leaves text without the pattern alone and rewrites a pattern at the head |
| Text.StripTags | scripts/convert-wordpress-to-sanity.js:152 | removing `<…>` leaves no tag, adds no character, and keeps text without `<` as it is |
| Text.NatToStringInjective | scripts/fix-sanity-content-formatting.js:85 | distinct counters give distinct decimal renderings, so the counter keys differ |
| Text.DecimalRoundTrip | scripts/fix-sanity-content-formatting.js:85 | the decimal rendering of a counter reads back as the counter |
| Text.NonBlank | scripts/fix-sanity-content-formatting.js:69 | every string kept is non-blank and from the input, and every non-blank input string is kept |
| Text.NonBlankAppend | scripts/fix-sanity-content-formatting.js:69 | the filter works piece by piece, so it keeps the input's order and repetitions |
| Text.NonBlankSnoc | scripts/fix-sanity-content-formatting.js:69 | a string at the end is kept, after the rest, exactly when it is not blank |
| Blocks.TextsAppend | scripts/format-posts-bulk.js:145-147 | the texts of two runs of children, read one after the other, are the texts of the whole run |
| Entities.DecodeHtmlEntities | scripts/decode-entities.js:15-16 | a non-string value comes back unchanged, and a string comes back as a string |
| Entities.DecodeWithoutAmpersand | scripts/decode-entities.js:18-32 | a string without `&` is decoded to itself |
| Entities.EntityDecoded | scripts/decode-entities.js:20-29 | each numeric entity and `&nbsp;` at the head of `&`-free text becomes its replacement |
| Entities.EntityAlone | scripts/decode-entities.js:20-29 | each numeric entity and `&nbsp;` on its own decodes to its replacement |
| Entities.QuotesDecoded | scripts/decode-entities.js:20-23 | the curly quotes become `'` and `"` |
| Entities.DashesDecoded | scripts/decode-entities.js:24-26 | en dash, em dash and ellipsis entities become their characters |
| Entities.SpacesDecoded | scripts/decode-entities.js:27-29 | `&#8200;` and `&#8203;` are deleted and `&nbsp;` becomes a space |
| Entities.AmpersandDecodedLast | scripts/decode-entities.js:30 | `&amp;` becomes `&` after the other entities have been tried |
| Entities.EscapedEntityKept | scripts/decode-entities.js:20-30 | one pass turns `&amp;#8217;` and its kind into the entity text, not into the character |
| Entities.AngleEntitiesKept | scripts/decode-entities.js:31-32 | `&lt;` and `&gt;` are left undecoded |
| Entities.AmpShape | scripts/decode-entities.js:19-32 | the table lists the entities, then `&amp;`, then the two identity replacements |
| Entities.TailShape | scripts/decode-entities.js:31-32 | the last two replacements map a character to itself |
| HtmlCleanup.EntityTableShape | scripts/fix-sanity-content-formatting.js:41-54 | the converter's table has twelve `&` patterns with `&amp;` last |
| HtmlCleanup.NormalizeNewlines | scripts/fix-sanity-content-formatting.js:56-57 | no carriage return is left |
| HtmlCleanup.NormalizeNewlinesIsCrToLf | scripts/fix-sanity-content-formatting.js:56-57 | the two replacements turn each CRLF pair into one LF and each lone CR into LF, and keep every other character, as the reference `CrToLf` does |
| HtmlCleanup.NormalizeCrLf | scripts/fix-sanity-content-formatting.js:56 | a CRLF pair at the head becomes one LF |
| HtmlCleanup.NormalizeLoneCr | scripts/fix-sanity-content-formatting.js:57 | a CR not followed by LF becomes LF |
| HtmlCleanup.NormalizeOther | scripts/fix-sanity-content-formatting.js:56-57 | any character other than CR is copied |
| HtmlCleanup.CrToLf | scripts/fix-sanity-content-formatting.js:56-57 | the reference mapping leaves no CR and never lengthens the text |
| HtmlCleanup.NormalizeNewlinesWithoutCR | scripts/fix-sanity-content-formatting.js:56-57 | text without a carriage return is unchanged |
| HtmlCleanup.DoubleBreaksToParagraphs | scripts/fix-sanity-content-formatting.js:59 | the rewrite adds only the characters of `</p><p>` and leaves text without `<` alone |
| HtmlCleanup.DoubleBreakBecomesParagraph | scripts/fix-sanity-content-formatting.js:59 | two `<br>` with only white space between become `</p><p>` |
| HtmlCleanup.Clean | scripts/fix-sanity-content-formatting.js:41-59 | the cleaned HTML has no carriage return |
| HtmlCleanup.CleanNewlines | scripts/fix-sanity-content-formatting.js:41-59 | the cleanup decodes the entities, then maps line endings as `CrToLf` does, then rewrites double breaks |
| HtmlCleanup.CleanPlainText | scripts/fix-sanity-content-formatting.js:41-59 | text without `&` and `<` only has its line endings changed, each CRLF pair and each lone CR to one LF |
| HtmlCleanup.AmpersandDecodedLast | scripts/fix-sanity-content-formatting.js:54 | `&amp;` is decoded last |
| HtmlCleanup.CleanEscapedEntity | scripts/fix-sanity-content-formatting.js:41-59 | after the whole cleanup, `&amp;` becomes `&` |
| HtmlCleanup.EscapedLessThanExample | scripts/fix-sanity-content-formatting.js:52-54 | `&amp;lt;` ends as `&lt;` |
| HtmlCleanup.EscapedAmpersandExample | scripts/fix-sanity-content-formatting.js:54 | `&amp;amp;` ends as `&amp;` |
| InlineMarks.SplitInline | scripts/fix-sanity-content-formatting.js:196-198 | the pieces split at the inline tags concatenate back to the content |
| InlineMarks.Classify | scripts/fix-sanity-content-formatting.js:208-317 | a piece opens or closes `strong`, `em` or `code`, is a line break, is some other single tag, or is text exactly when it is not a single tag |
| InlineMarks.Without | scripts/fix-sanity-content-formatting.js:236 | filtering a mark out keeps exactly the other marks and keeps them distinct |
| InlineMarks.RemoveLast | scripts/fix-sanity-content-formatting.js:237-238 | removing the last entry of a mark from the stack is a no-op without it and shortens the stack by one with it |
| InlineMarks.RemoveLastOfUnique | scripts/fix-sanity-content-formatting.js:236-238 | on a stack without duplicates, removing the last entry is filtering it out |
| InlineMarks.ParseInlineElements | scripts/fix-sanity-content-formatting.js:191-341 | the method returns what the scan specification says, and at least one span |
| InlineMarks.ScanPieces | scripts/fix-sanity-content-formatting.js:204-340 | the loop over the pieces and the code after it compute the scan specification |
| InlineMarks.ScanPiece | scripts/fix-sanity-content-formatting.js:204-318 | one iteration of the loop body is one step of the specification |
| InlineMarks.FinishScan | scripts/fix-sanity-content-formatting.js:321-340 | the code after the loop is the specification's final step |
| InlineMarks.StepWellFormed | scripts/fix-sanity-content-formatting.js:208-317 | one step keeps the mark list duplicate-free and within `strong`/`em`/`code`, every pushed span non-empty, and the span counter equal to the number of spans |
| InlineMarks.RunWellFormed | scripts/fix-sanity-content-formatting.js:204-318 | the same holds after any number of pieces |
| InlineMarks.StepEffect | scripts/fix-sanity-content-formatting.js:208-317 | an opening tag adds its mark, a closing tag removes it, `<br>` appends a newline, other single tags are dropped, and text is appended as it is |
| InlineMarks.FlushBeforeMarkChange | scripts/fix-sanity-content-formatting.js:209-237 | on an opening or closing tag, pending text becomes a span with the marks in force before the change |
| InlineMarks.RunKeepsText | scripts/fix-sanity-content-formatting.js:204-318 | the pushed spans and the buffer spell out the visible text of the pieces, in order |
| InlineMarks.StepKeepsText | scripts/fix-sanity-content-formatting.js:204-318 | one step adds exactly the visible text of its piece |
| InlineMarks.ScanShape | scripts/fix-sanity-content-formatting.js:321-340 | the result is never empty, and is the single empty fallback span exactly when nothing was pushed and the buffer is blank |
| InlineMarks.FinishShape | scripts/fix-sanity-content-formatting.js:321-340 | the final code keeps the pushed spans, adds a non-blank trimmed rest, or falls back to one empty span |
| InlineMarks.FinalSpanTrimmed | scripts/fix-sanity-content-formatting.js:321-329 | a non-blank rest becomes a last span holding the trimmed text with the marks in force |
| InlineMarks.KeysDiffer | scripts/fix-sanity-content-formatting.js:325-336 | a counter span key never equals the fallback key |
| HtmlBlocks.NextBlockStart | scripts/fix-sanity-content-formatting.js:65-68 | the next block-opening tag at or after a position, with none in between |
| HtmlBlocks.SplitFragments | scripts/fix-sanity-content-formatting.js:65-68 | the fragments concatenate back to the HTML, and each fragment after the first starts with `<` |
| HtmlBlocks.FirstHeaderClose | scripts/fix-sanity-content-formatting.js:78-80 | the first closing header tag, case-insensitive, or -1 when there is none |
| HtmlBlocks.HeaderMatch | scripts/fix-sanity-content-formatting.js:78-80 | a header match records the digit of the opening tag as its level |
| HtmlBlocks.ElementMatch | scripts/fix-sanity-content-formatting.js:101-150 | an element match starts with the opening tag and captures less than the whole fragment |
| HtmlBlocks.ListItemMatch | scripts/fix-sanity-content-formatting.js:103 | a prefix of the text is one `<li ...>...</li>` element, closed by the first `</li>` (ignoring case) after its opening tag, exactly when it is as long as the match found at the head |
| HtmlBlocks.ListItemAtHead | scripts/fix-sanity-content-formatting.js:103 | the match found at the head is such an element |
| HtmlBlocks.ListItemsShape | scripts/fix-sanity-content-formatting.js:103 | every list item found is one whole `<li>` element that ends at its first closing `</li>` |
| HtmlBlocks.RemoveLiTagsFacts | scripts/fix-sanity-content-formatting.js:108 | removing the `<li>` tags adds no character and keeps text without `<` |
| HtmlBlocks.ListBlocks | scripts/fix-sanity-content-formatting.js:105-120 | one block per list item |
| HtmlBlocks.ListBlocksAt | scripts/fix-sanity-content-formatting.js:105-120 | item `i` becomes a block keyed `list-{blockKey}-{i}`, with the list kind and level 1 |
| HtmlBlocks.PushListItems | scripts/fix-sanity-content-formatting.js:105-120 | the `forEach` over the items pushes exactly the specified list blocks |
| HtmlBlocks.ListItemToBlock | scripts/fix-sanity-content-formatting.js:106-119 | one item becomes the specified block |
| HtmlBlocks.FragmentToBlocks | scripts/fix-sanity-content-formatting.js:72-184 | one fragment gives the blocks its header, list, paragraph or text branch specifies |
| HtmlBlocks.PushFragments | scripts/fix-sanity-content-formatting.js:71-185 | the loop over the fragments pushes exactly the specified blocks |
| HtmlBlocks.ConvertHtmlToPortableText | scripts/fix-sanity-content-formatting.js:35-188 | the converter returns the specified blocks, and never an empty list |
| HtmlBlocks.ConvertFallback | scripts/fix-sanity-content-formatting.js:19-37 | the result is the single empty block exactly when the input is missing or blank or no fragment gives a block |
| HtmlBlocks.ConvertShape | scripts/fix-sanity-content-formatting.js:35-188 | every block has no link definitions and at least one child, and all children are spans |
| HtmlBlocks.ListBlocksShape | scripts/fix-sanity-content-formatting.js:105-120 | list blocks have that shape |
| HtmlBlocks.FragmentBlocksShape | scripts/fix-sanity-content-formatting.js:72-184 | every fragment's blocks have that shape |
| HtmlBlocks.BlocksFromShape | scripts/fix-sanity-content-formatting.js:71-185 | the blocks of all fragments have that shape |
| HtmlBlocks.HeaderTextClean | scripts/fix-sanity-content-formatting.js:78-97 | a header fragment gives one block of style `h` plus its level, whose single span text is trimmed and tag-free |
| HtmlBlocks.EmptyHeaderKept | scripts/fix-sanity-content-formatting.js:78-97 | a header with empty text still gives its block, with an empty span |
| HtmlBlocks.ListFragment | scripts/fix-sanity-content-formatting.js:101-144 | a `<ul>`/`<ol>` fragment gives one bullet or number block per item, and none without items |
| HtmlBlocks.ParagraphFragment | scripts/fix-sanity-content-formatting.js:147-164 | a `<p>`/`<div>`/`<blockquote>` fragment gives a block exactly when some span has visible text |
| HtmlBlocks.TextFragment | scripts/fix-sanity-content-formatting.js:165-184 | any other fragment gives one span of its tag-stripped trimmed text exactly when that text is not empty |
| HtmlBlocks.PlainFragment | scripts/fix-sanity-content-formatting.js:165-184 | text without tags becomes one block with one unmarked span of its trimmed text |
| Links.TrailingPunct | scripts/format-links-in-posts.js:39 | the length of the trailing run of `.,;:!?` |
| Links.NormalizeUrl | scripts/format-links-in-posts.js:36-48 | the result starts with `http://` or `https://`, does not end in punctuation, and is the trimmed, unpunctuated input, prefixed with `https://` when it had no scheme |
| Links.NormalizeFixed | scripts/format-links-in-posts.js:36-48 | a trimmed URL with a scheme and no trailing punctuation is left as it is |
| Links.NormalizeUrlStable | scripts/format-links-in-posts.js:36-48 | normalising twice is normalising once, when the result does not end in white space |
| Links.ValidUrlIff | scripts/format-links-in-posts.js:53-102 | `isValidUrl` holds exactly when none of the false-positive rules applies and a name and a domain ending are present |
| Links.Candidate | scripts/format-links-in-posts.js:110-128 | each candidate of a match is a substring of the text |
| Links.AddUrlsFacts | scripts/format-links-in-posts.js:108-131 | adding candidates to the set keeps it duplicate-free, extends it, and adds exactly the valid ones |
| Links.FoundUrlsFacts | scripts/format-links-in-posts.js:107-133 | the URLs found are distinct, valid and occur in the text, and every valid candidate is among them |
| Links.AddCandidates | scripts/format-links-in-posts.js:113-127 | the `forEach` over the matches computes the specified set |
| Links.FindUrls | scripts/format-links-in-posts.js:107-133 | `findUrls` returns the specified list |
| Links.PositionsFacts | scripts/format-links-in-posts.js:160-163 | each URL's position is -1 exactly when the text lacks it, and otherwise the place of its first occurrence |
| Links.Insert | scripts/format-links-in-posts.js:164 | inserting into a sorted list keeps it sorted and adds exactly the one entry |
| Links.SortByIndex | scripts/format-links-in-posts.js:164 | the sort orders by index and is a permutation |
| Links.InsertStable | scripts/format-links-in-posts.js:164 | each insertion step is stable: the new entry goes after every entry with an index no larger and before every entry with a larger one, and the others keep their order |
| Links.SplitTextUrls | scripts/format-links-in-posts.js:150-189 | no URL gives one text part holding the whole text; otherwise the URL parts are the URLs, in order of first occurrence |
| Links.SplitRunRoundTrip | scripts/format-links-in-posts.js:166-182 | over occurrences that do not overlap, the loop's parts spell the text up to the end of the last URL, and the rest is what remains |
| Links.SplitTextRoundTrip | scripts/format-links-in-posts.js:150-189 | when first occurrences do not overlap, the part contents concatenate back to the text |
| Links.OverlapDuplicates | scripts/format-links-in-posts.js:166-182 | with overlapping occurrences the parts repeat the shared text, so the round trip fails |
| Links.FirstOccurrence | scripts/format-links-in-posts.js:162 | a URL occurs at the index `indexOf` gives |
| Links.SplitAtPosition | scripts/format-links-in-posts.js:166-182 | one loop iteration is one step of the specification |
| Links.SplitAtPositions | scripts/format-links-in-posts.js:166-189 | the loop and the remainder give the specified parts |
| Links.SplitTextWithUrls | scripts/format-links-in-posts.js:150-190 | `splitTextWithUrls` returns the specified parts |
| LinkBlocks.FirstLink | scripts/format-links-in-posts.js:216-218 | `find` returns the first link definition with that href, or -1 when there is none |
| LinkBlocks.Register | scripts/format-links-in-posts.js:216-227 | a definition is appended exactly when none has the href; otherwise the existing key is returned |
| LinkBlocks.RegisterTwice | scripts/format-links-in-posts.js:216-227 | registering the same href again changes nothing |
| LinkBlocks.RegisterKeepsUnique | scripts/format-links-in-posts.js:216-227 | the registry keeps at most one definition per href |
| LinkBlocks.KeyForKept | scripts/format-links-in-posts.js:216-227 | a key given for an href stays its key after further registrations |
| LinkBlocks.MarkDefList.constructor | scripts/format-links-in-posts.js:211-213 | the registry starts from the block's definitions |
| LinkBlocks.MarkDefList.FindLink | scripts/format-links-in-posts.js:216-218 | the lookup method returns the specified index |
| LinkBlocks.MarkDefList.LinkKeyFor | scripts/format-links-in-posts.js:211-227 | the registry's new list and the key are the specified registration of the old list |
| LinkBlocks.PartStepFacts | scripts/format-links-in-posts.js:205-243 | a URL part becomes a span with the original marks plus its definition's key, and a text part a span with the original marks |
| LinkBlocks.ConvertPartsFacts | scripts/format-links-in-posts.js:205-243 | one span per part, earlier spans unchanged, definitions only extended |
| LinkBlocks.ConvertPartsShape | scripts/format-links-in-posts.js:205-243 | the spans match the parts one for one |
| LinkBlocks.ConvertPartsAll | scripts/format-links-in-posts.js:205-243 | every span is the conversion of its part under the final definitions |
| LinkBlocks.SplitWithUrls | scripts/format-links-in-posts.js:197-202 | the split is a single text part exactly when no URL was found |
| LinkBlocks.ConvertSpanUnchanged | scripts/format-links-in-posts.js:197-202 | a span without URLs comes back alone, and the block is untouched |
| LinkBlocks.ConvertSpanSplits | scripts/format-links-in-posts.js:204-245 | a span with URLs becomes one span per part |
| LinkBlocks.ConvertSpanKeepsText | scripts/format-links-in-posts.js:195-246 | when URLs do not overlap, the new spans spell the span's text |
| LinkBlocks.PushPart | scripts/format-links-in-posts.js:205-243 | one part is converted as specified, updating the registry |
| LinkBlocks.ConvertSpanWithUrls | scripts/format-links-in-posts.js:195-246 | the method returns the specified spans and leaves the registry holding the specified definitions |
| LinkBlocks.PieceFacts | scripts/format-links-in-posts.js:262-278 | a child is copied unless it is an eligible span with URLs, which is replaced by non-empty spans keeping its marks |
| LinkBlocks.ChildrenRunModified | scripts/format-links-in-posts.js:262-278 | `modified` is set exactly when some child is split |
| LinkBlocks.ChildrenRunCopies | scripts/format-links-in-posts.js:262-278 | with no child to split, the children are copied |
| LinkBlocks.ChildrenRunDefs | scripts/format-links-in-posts.js:262-278 | the loop only extends the definitions and keeps them unique per href |
| LinkBlocks.ChildrenRunPieces | scripts/format-links-in-posts.js:262-278 | the new children are the pieces of the old ones, in order |
| LinkBlocks.PiecesKeepText | scripts/format-links-in-posts.js:262-278 | when no split child has overlapping URLs, the pieces spell the children's text |
| LinkBlocks.ProcessBlockModified | scripts/format-links-in-posts.js:251-287 | `modified` holds exactly when the block is a text block with a child to split |
| LinkBlocks.ProcessBlockUnchanged | scripts/format-links-in-posts.js:252-259 | a non-block, a childless block, or a block without a child to split comes back unchanged |
| LinkBlocks.ProcessBlockShape | scripts/format-links-in-posts.js:251-287 | the block keeps its key, style and list item, and its children are the pieces of the old ones |
| LinkBlocks.ProcessBlockKeepsText | scripts/format-links-in-posts.js:251-287 | without overlapping URLs, the block's text is what it was |
| LinkBlocks.ProcessBlockRefines | scripts/format-links-in-posts.js:251-287 | the processed block refines the original: the same identity, definitions extended and unique per href |
| LinkBlocks.ProcessChild | scripts/format-links-in-posts.js:263-277 | one iteration of the children loop is one step of the specification |
| LinkBlocks.ProcessBlock | scripts/format-links-in-posts.js:251-287 | `processBlock` returns the specified block and flag |
| LinkBlocks.AnySplitIff | scripts/format-links-in-posts.js:262-278 | the recursive test for a child to split agrees with its existential form |
| LinkBlocks.AnyNeedsIff | scripts/format-links-in-posts.js:296-302 | the recursive test for a block to modify agrees with its existential form |
| LinkBlocks.BodyRunFacts | scripts/format-links-in-posts.js:296-302 | the map keeps the number and order of blocks, each refined, and sets `modified` exactly when some block was modified |
| LinkBlocks.ProcessPostBodyFacts | scripts/format-links-in-posts.js:292-305 | a missing body passes through unmodified; otherwise blocks keep count and order and `modified` is true exactly when some block was modified |
| LinkBlocks.ProcessPostBody | scripts/format-links-in-posts.js:292-305 | `processPostBody` returns the specified body and flag |
| Bulk.MarkupsVisible | scripts/format-posts-bulk.js:34-44 | writing children out adds only the marker tags: taking `<strong>`, `</strong>`, `<em>` and `</em>` back out gives the joined texts, when no text holds `<` |
| Bulk.NodeMarkupVisible | scripts/format-posts-bulk.js:30-48 | a block's markup shows its children's texts and nothing more, other entries show nothing |
| Bulk.PlainTextRoundTrip | scripts/format-posts-bulk.js:27-132 | serialising simple single-span blocks and parsing the text back gives the same number of blocks, with the same texts and the one mark the serialisation kept |
| Bulk.SplitJoin | scripts/format-posts-bulk.js:49-55 | splitting the `\n\n`-joined paragraphs gives them back |
| Bulk.ParagraphOfPlain | scripts/format-posts-bulk.js:57-132 | a paragraph of plain text becomes one block with one unmarked span |
| Bulk.ParagraphOfWrapped | scripts/format-posts-bulk.js:57-132 | a paragraph wrapped in `<strong>` or `<em>` becomes one block with one span carrying that mark |
| Bulk.NewlineRun | scripts/format-posts-bulk.js:55 | the length of the run of newlines at the head |
| Bulk.SplitParagraphsFacts | scripts/format-posts-bulk.js:55 | no paragraph holds two line feeds in a row, and joining the paragraphs with a blank line gives the text back with each run of line feeds shortened to two |
| Bulk.SplitParagraphsRebuild | scripts/format-posts-bulk.js:55 | text whose blank lines are single ones is rebuilt exactly by joining its paragraphs |
| Bulk.CollapseWithoutTriple | scripts/format-posts-bulk.js:55 | text without three line feeds in a row has no run to shorten |
| Bulk.TagLen | scripts/format-posts-bulk.js:63 | a marker tag at the head is one of `<strong>`, `</strong>`, `<em>`, `</em>` |
| Bulk.SplitTagsConcat | scripts/format-posts-bulk.js:63 | the capturing split loses nothing: its parts concatenate to the paragraph |
| Bulk.SplitTagsAlternate | scripts/format-posts-bulk.js:63 | the parts alternate: marker tags at the odd positions, text holding no marker tag at the even ones, with one more text part than tags |
| Bulk.RemoveMark | scripts/format-posts-bulk.js:87 | closing a mark removes every occurrence of it and keeps the rest |
| Bulk.TagSteps | scripts/format-posts-bulk.js:66-109 | a marker tag flushes pending text with the marks before it; an opening tag appends its mark even when present |
| Bulk.BlankPartDropped | scripts/format-posts-bulk.js:110-112 | a whitespace-only part changes nothing |
| Bulk.PartStepGood | scripts/format-posts-bulk.js:65-113 | every span pushed has visible text |
| Bulk.PartsRunGood | scripts/format-posts-bulk.js:65-113 | the same holds over all parts |
| Bulk.ParagraphBlockGood | scripts/format-posts-bulk.js:115-132 | a paragraph's block, when made, is `normal` and holds only spans with visible text |
| Bulk.ParasRunGood | scripts/format-posts-bulk.js:57-133 | at most one block per paragraph, each of that form |
| Bulk.FormattedGood | scripts/format-posts-bulk.js:53-136 | the parser's blocks are no more than the non-blank paragraphs, each of that form |
| Bulk.ParagraphToBlock | scripts/format-posts-bulk.js:57-132 | the inner loop and the push compute the specified block |
| Bulk.ApplyPart | scripts/format-posts-bulk.js:65-113 | one part is one step of the specification |
| Bulk.FormattedTextToPortableText | scripts/format-posts-bulk.js:53-136 | `formattedTextToPortableText` returns the specified blocks |
| Bulk.BlockText | scripts/format-posts-bulk.js:145-148 | a block's excerpt text is trimmed |
| Bulk.FirstNonEmpty | scripts/format-posts-bulk.js:143-160 | the first non-empty text, or -1 when all are empty |
| Bulk.FirstWithText | scripts/format-posts-bulk.js:143-160 | the first block with text, or -1 when there is none |
| Bulk.ExcerptFacts | scripts/format-posts-bulk.js:139-163 | there is no excerpt exactly when the body is missing or no block has text; otherwise it comes from the first such block: its text up to 160 characters, else its first 160 characters trimmed with `...`, a non-empty prefix ending in a visible character that drops only white space of those 160 |
| Bulk.GenerateExcerpt | scripts/format-posts-bulk.js:139-163 | the loop with early return computes the specified excerpt |
| Wordpress.Markers | scripts/convert-wordpress-to-sanity.js:126-130 | HTML without `<` is left as it is by the marker rewrite |
| Wordpress.SplitLines | scripts/convert-wordpress-to-sanity.js:131 | the lines hold no newline |
| Wordpress.SplitLinesJoin | scripts/convert-wordpress-to-sanity.js:131 | joining the lines with newlines gives the text back |
| Wordpress.PlainLines | scripts/convert-wordpress-to-sanity.js:126-132 | HTML without tags is split into its non-blank lines |
| Wordpress.LineLength | scripts/convert-wordpress-to-sanity.js:148 | `.+` stops at the first line terminator |
| Wordpress.MatchHeader | scripts/convert-wordpress-to-sanity.js:148 | the header marker is matched exactly when it occurs with a digit and at least one more character |
| Wordpress.MatchHeaderLeftmost | scripts/convert-wordpress-to-sanity.js:148 | the match is at the first position where the pattern matches, with the level digit and the rest of that line as its captures |
| Wordpress.HeaderText | scripts/convert-wordpress-to-sanity.js:151-155 | the header text is tag-free and trimmed |
| Wordpress.ParaText | scripts/convert-wordpress-to-sanity.js:176-181 | the paragraph text is tag-free and trimmed |
| Wordpress.OtherText | scripts/convert-wordpress-to-sanity.js:199-204 | the other text is tag-free and trimmed |
| Wordpress.HeaderTextKeepsParaMarker | scripts/convert-wordpress-to-sanity.js:151-155 | the header branch does not remove an opening `---PARA---` marker |
| Wordpress.LineContent | scripts/convert-wordpress-to-sanity.js:138-220 | skipped lines give nothing; a header line gets style `h` plus its digit; given content is non-empty, trimmed and tag-free |
| Wordpress.HeaderContent | scripts/convert-wordpress-to-sanity.js:149-172 | a header's content has that style and that form |
| Wordpress.BodyContent | scripts/convert-wordpress-to-sanity.js:175-220 | paragraph and other lines get style `normal` and that form |
| Wordpress.FallbackText | scripts/convert-wordpress-to-sanity.js:234 | the fallback text is non-empty, trimmed and tag-free |
| Wordpress.LineToBlock | scripts/convert-wordpress-to-sanity.js:137-221 | one line gives the specified block, or none |
| Wordpress.ConvertHtmlToPortableText | scripts/convert-wordpress-to-sanity.js:121-240 | the converter returns the specified blocks |
| Wordpress.LinesRunFacts | scripts/convert-wordpress-to-sanity.js:137-221 | at most one block per line; keys `block-0`, `block-1`, … in order; one unmarked span; no definitions |
| Wordpress.HtmlToBlocksFacts | scripts/convert-wordpress-to-sanity.js:121-240 | the result is never empty, and without a line block it is the single `default-block` with the fallback text |
| Wordpress.CategoryOrderFacts | scripts/convert-wordpress-to-sanity.js:273-298 | the declaration order lists every key of the category table once |
| Wordpress.CategoryIds | scripts/convert-wordpress-to-sanity.js:273-298 | every entry's id is `category-` and its WordPress id |
| Wordpress.CategoryDocumentsFacts | scripts/convert-wordpress-to-sanity.js:271-312 | one document per table entry, with the entry's id and slug |
| Wordpress.GetCategoryReferences | scripts/convert-wordpress-to-sanity.js:315-334 | no ids give no references; otherwise one reference per id, in order |
| Wordpress.ReferencesWithCategoryMap | scripts/convert-wordpress-to-sanity.js:315-334 | with the category table, each reference is `category-` and its id |
| Categorize.AddSlug | scripts/categorize-posts.js:203 | adding a slug to the set adds just it and keeps the set duplicate-free |
| Categorize.CollectMatches | scripts/categorize-posts.js:198-206 | the nested loops with `break` compute the specified matches |
| Categorize.DetermineCategories | scripts/categorize-posts.js:192-214 | `determineCategories` returns the specified slugs |
| Categorize.CategoriesDistinct | scripts/categorize-posts.js:13-139 | the table's slugs are distinct, and the first is `mental-health` |
| Categorize.MatchedSlugsFacts | scripts/categorize-posts.js:198-206 | the matches are duplicate-free, in table order, and include a category exactly when one of its keywords occurs |
| Categorize.CategorizedFacts | scripts/categorize-posts.js:192-214 | the result is never empty and has no duplicates; each slug is from the table; no match gives `["mental-health"]` |
| Categorize.StigmaMentalHealth | scripts/categorize-posts.js:42 | `stigma` is a mental-health keyword |
| Categorize.StigmaNotLifestyle | scripts/categorize-posts.js:13-139 | no lifestyle keyword occurs in `stigma` |
| Categorize.StigmaNotHealth | scripts/categorize-posts.js:13-139 | no health keyword occurs in `stigma` |
| Categorize.StigmaAdvocacy | scripts/categorize-posts.js:122 | `stigma` is an advocacy keyword |
| Categorize.StigmaInTwoCategories | scripts/categorize-posts.js:42 | a post titled `stigma` is filed under `mental-health` and `advocacy` |
| SeoAudit.ParamEnd | scripts/audit-seo-metadata.js:95 | a `[name]` at the head has a non-empty name without `]` |
| SeoAudit.BracketParams | scripts/audit-seo-metadata.js:95 | text without `[` is left as it is |
| SeoAudit.ParamRewritten | scripts/audit-seo-metadata.js:95 | `[name]` becomes `:name` |
| SeoAudit.GetRoutePath | scripts/audit-seo-metadata.js:90-101 | the route is non-empty and starts with `/` |
| SeoAudit.RouteOfDir | scripts/audit-seo-metadata.js:90-101 | a layout file's route is its directory with parameters rewritten, `/` when that is empty, and prefixed with `/` when needed |
| SeoAudit.RootLayoutRoute | scripts/audit-seo-metadata.js:90-101 | the root layout maps to `/` |
| SeoAudit.StaticRoute | scripts/audit-seo-metadata.js:90-101 | a one-segment directory maps to `/segment` |
| SeoAudit.DynamicRoute | scripts/audit-seo-metadata.js:90-101 | a directory with a `[name]` segment maps to a route with `:name` |
| SeoAudit.QuotedAt | scripts/audit-seo-metadata.js:49-67 | a quoted value captured after a key is non-empty and holds no quote |
| SeoAudit.FirstQuoted | scripts/audit-seo-metadata.js:49-67 | the first quoted value for a key has that form |
| SeoAudit.ExtractMetadata | scripts/audit-seo-metadata.js:30-88 | the record sets each field as the content's tests decide, with a present title or description holding its value |
| SeoAudit.ExtractedUnique | scripts/audit-seo-metadata.js:30-88 | the content determines the record |
| SeoAudit.NoExportNoMetadata | scripts/audit-seo-metadata.js:30-45 | without `export const metadata` every field is false and every value missing |
| SeoAudit.CountAbout | scripts/audit-seo-metadata.js:115-145 | the number of warnings about a field is at most the number of warnings |
| SeoAudit.CheckTitle | scripts/audit-seo-metadata.js:115-129 | a missing title is one issue; otherwise a title over 60 or under 30 characters gives exactly one warning naming the direction |
| SeoAudit.CheckDescription | scripts/audit-seo-metadata.js:131-145 | a missing description is one issue; otherwise one over 160 or under 120 characters gives exactly one warning |
| SeoAudit.CheckSections | scripts/audit-seo-metadata.js:147-163 | one warning per missing canonical URL, OpenGraph, Twitter card and robots entry |
| SeoAudit.CheckFields | scripts/audit-seo-metadata.js:115-163 | at most two issues, one per missing title and description, and all the warnings above |
| SeoAudit.AuditMetadata | scripts/audit-seo-metadata.js:103-166 | no metadata export gives exactly one issue and no warning; otherwise the issues and warnings follow the rules above |

## Left out

- Content-store clients, file reading and writing, network calls, sleeps, environment checks and
  the async drivers of every script are not modelled. Neither are the filesystem walk and the
  console report of the SEO audit (`findLayoutFiles`, `main`).
- `formatWithAI` is an external call. Its output is only an input to the formatted-text parser.
- `upload-images-to-sanity.js`, `attach-images-to-posts.js` and `download-wordpress-data.js`
  are not part of this model.
- Random keys (`Math.random`, `generateKey`) are a key supplier `keys: nat -> string` with a
  draw counter. Key uniqueness is not claimed.
- `URL_REGEX` and the site-specific patterns are an abstract matcher that lists matches by start
  and length. A match past the end of the text is clamped to it. The properties of `findUrls` hold
  for every matcher.
- Lengths count Unicode scalar values. JavaScript counts UTF-16 code units, so the 60/160/30/120
  thresholds and the 160-character excerpt cut differ for text outside the Basic Multilingual Plane.
- `toLowerCase` is modelled as ASCII lower-casing.
- Regex tests in `extractMetadata` are predicates over the content. The quoted values they
  capture are modelled; the regex engine is not.
- Spans and marks are typed, so the `typeof mark === "string"` test of `hasLinkMark` and the
  `child.text || ""` defaults for non-string values are not modelled. `HasLinkMark` is a
  predicate with no contract of its own.
- A span without `_key` in the WordPress converter has key `""`. A block without `markDefs` in
  the bulk formatter has `[]`.
- Floating-point percentages, dates and the `JSON.stringify` change check.
- Wordpress.HeaderText: tag-free and trimmed, but not marker-free. The header branch removes only
  closing markers, so a line such as `---HEADER2---x---PARA---y` keeps its opening `---PARA---`.
  `Wordpress.HeaderTextKeepsParaMarker` shows this. The literal removal is also single-pass, so
  removing `---/PARA---` can create a new marker from the text around it.
- LinkBlocks.ProcessPostBody: running the linkifier twice is not idempotent, and no such property
  is claimed. In the first pass the second occurrence of a repeated URL stays plain text, and the
  second pass then links it.
- Links.NormalizeUrlStable: stated only when the normalised URL does not end in white space.
  Trimming comes before the punctuation is cut, so `"a b ."` normalises to `"https://a b "`, and
  a second pass trims that space away.
- Bulk.PlainTextRoundTrip: stated for blocks with one span of simple text (visible, no `<`, no
  line feed). Text with markers inside, or with several spans, does not parse back to the same
  spans.
- Links.SortByIndex: stability is stated for each insertion step (`Links.InsertStable`). It is
  not stated as one property of the whole sort.
