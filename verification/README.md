# OfflineQCM: a Dafny model of the question-extraction core

OfflineQCM turns a Word document of multiple-choice questions into printable question
sheets. The `.docx` file is first converted into an intermediate HTML document in which
Word's numbered paragraphs become nested `<ol>`/`<li>` lists. An extraction engine then
reads that HTML and produces an ordered list of typed question records.

That engine has five stages:

- A **segmenter** cuts the body into question segments. A segment runs from a decimal
  `<ol type="1">` opening to the end of the next `(N point[s])` paragraph.
- A **zone splitter** separates the statement from the answers. The answers start at the
  first `<ol type="a">`.
- An **answer flattener** works on the parsed answers tree. It dissolves alphabetic lists
  until none is left, then fills empty items with the image paragraph that follows them.
- A **type classifier** chooses T1 (single answer), T2 (multiple selection), T3 (no
  answers) or T4 (true/false).
- An **orchestration loop** numbers the questions 1..N and pulls the statement images out.

The engine exists twice:

- a production form (`Extractor`);
- an instrumented form (`Inspector`). It differs from the production form in seven ways:
  - it accepts a more tolerant points paragraph;
  - it skips the zone cosmetics and the repair pass of empty items;
  - it normalises item text by collapsing white space and then trimming, not by `cleanText`;
  - it reports the first alphabetic opening even when it lies after the points paragraph;
  - it neither collects nor removes the statement images;
  - it gives the reasons of its type decision;
  - it adds a cut of the answers into lettered blocks.

Both forms share one model. They differ only in the scanners and the `Engine` value passed
to the common functions.

Around the engine the model covers these smaller pieces:

- the Grouper, which gathers questions into layout blocks;
- the template renderer;
- the HTML exporter;
- the list-nesting machine of the DOCX converter;
- the string helpers;
- the CSV to Moodle converter;
- the browser-side answer-sheet filler.

## How the model is organised

One Dafny module per concern:

| module | file | what it holds |
|---|---|---|
| `Chars` | `chars.dfy` | character classes, trimming, case mapping, searching, joining, HTML escaping |
| `Patterns` | `patterns.dfy` | the engine's regular expressions as deterministic scanners, and the leftmost `Find`, `FindAll` and `RemoveAll` over them |
| `Segmenter` | `segmenter.dfy` | `bodyHtml`, `nextStrictSegment`, and the sequence of segments the loop visits |
| `Zones` | `zones.dfy` | `splitZones` and `splitZonesFromFull` |
| `TextNorm` | `textnorm.dfy` | `cleanText`, the instrumented collapse-then-trim, and `strip_tags` |
| `Dom` | `dom.dfy` | the parsed answers as a value tree |
| `Flatten` | `flatten.dfy` | `answerItemsFlatten`: the flattening loop, the repair pass, item collection |
| `Classify` | `classify.dfy` | `decideType`, with and without reasons |
| `Extractor` | `extractor.dfy` | the `extract` loop |
| `Inspector` | `inspector.dfy` | `answerBlocks` and the `inspect` loop |
| `Grouper` | `grouper.dfy` | `Grouper::build` |
| `Templates` | `templates.dfy` | name sanitising, placeholder docs, the replacement map, `strtr`, `renderQuestion`, the template store |
| `Exporter` | `exporter.dfy` | `renderQuestions` and `buildHeader` |
| `DocxLists` | `docx_lists.dfy` | the `$listStack` machine of `convertOne` and `renderParagraphInline` |
| `Helpers` | `helpers.dfy` | `safe_filename`, the `str_*` polyfills, `pretty_html`, `rewrite_media_srcs` |
| `MoodleCsv` | `moodle_csv.dfy` | `wrap_html_or_text` and the row and answer rules of the CSV conversion |
| `Grille` | `grille.dfy` | student-list parsing, name and ID rules, field mapping, file names, and the page state |

Code that works step by step is written as methods with loops. This covers the `extract` and
`inspect` loops, the flattening and repair loops, the Grouper's loops, the list machine
(class `DocxLists.ListWriter`), `pretty_html` and the page state (class `Grille.Page`). Each
such method is proved equal to a recursive specification function. The properties are then
proved about that function.

Three kinds of input are parameters rather than code in the model:

- the HTML parser;
- the CSV field splitter;
- the text that pdf.js extracts.

## Model

| member | source | states |
|---|---|---|
| Segmenter.BodyHtml | app/Extractor.php:8-11 | The body markup is never longer than the document it comes from. What it selects is stated by the three lemmas below. |
| Segmenter.BodyOpen | app/Extractor.php:9 | The end of a `<body…>` opening found from a position lies after that position and inside the document. |
| Segmenter.BodyHtmlInner | app/Extractor.php:9-10 | With a first `<body…>` tag and a first `</body>` (any case) after it, the body is exactly the text between them. The document is what precedes, the body, then the rest. No `</body>` starts inside the body. |
| Segmenter.BodyHtmlNoBody | app/Extractor.php:9-11 | Without a `<body…>` tag, the whole document is returned. |
| Segmenter.BodyHtmlUnclosed | app/Extractor.php:9-11 | With no `</body>` after the first `<body…>` tag, the whole document is returned. |
| Segmenter.NextStrictSegment | app/Extractor.php:27-35 | Returns nothing iff there is no decimal-list opening at or after the offset, or no points paragraph after the first such opening. Otherwise the segment starts at the first opening at or after the offset. It ends exactly at the end of the first points paragraph after that opening. `full` is the body between its bounds, and `pointsHtml` is that paragraph. |
| Segmenter.Segments | app/Extractor.php:194-245 | The segments the loop visits lie inside the body and come in document order. Each one ends before the next begins. |
| Segmenter.SegmentsOrdered | app/Extractor.php:194-245 | Segment k is the one found by searching from the end of segment k-1 (from 0 for the first). No question opening is skipped between two segments. |
| Segmenter.SegmentsExhaustive | app/Extractor.php:195-197 | The search after the last segment finds nothing, so the loop stops only when no question is left. |
| Segmenter.SegmentsNext | app/Extractor.php:196-244 | Searching from the end of segment k-1 returns exactly segment k: each search restarts at the previous `end`. |
| Segmenter.SegmentsIncreasing | app/Extractor.php:244 | Any earlier segment ends before any later one starts, so segments never overlap. |
| Patterns.TagOpenAt | app/Extractor.php:30 | An opening-tag match starts with `<tag` in any case and ends just after the first `>` that follows. |
| Patterns.PointsParaAt | app/Extractor.php:15-18 | A points-paragraph match starts with `<p` and stays inside the text. This holds for the strict form and the tolerant form (app/Inspector.php:20-23). |
| Patterns.EmptyParaAt | app/Extractor.php:212 | A blank-paragraph match ends with `</p>`. |
| Patterns.ImgSrcAt | app/Extractor.php:209 | The captured `src` value is non-empty, holds no quote, and lies inside the text after the `<img`. |
| Patterns.ImgSrcValue | app/Extractor.php:209-210 | The source an image match captures is non-empty and quote-free. |
| Patterns.MatchAt | app/Extractor.php:12-21 | Every pattern match is non-empty and ends inside the text. |
| Patterns.Find | app/Extractor.php:28-30 | This is `preg_match` with an offset. The hit is the leftmost match at or after the offset. There is no hit iff no position from the offset on matches. |
| Patterns.FindAll | app/Extractor.php:209 | This is `preg_match_all`. The matches are non-overlapping and in order. The first is what `Find` returns, and there are none iff `Find` finds nothing. |
| Patterns.RemoveAll | app/Extractor.php:211-212 | This is `preg_replace` by `''`. The result is never longer than the input, and is the input itself when nothing matches. |
| Patterns.RemoveAllOutside | app/Extractor.php:209-212 | `preg_replace` by `''` keeps exactly the text between the matches `preg_match_all` finds, in order. It is shorter than the input by the number of matched characters. |
| Zones.SplitRaw | app/Inspector.php:56-78 | Statement plus answers is the segment up to the points paragraph. `pStart` is that paragraph, or the segment length when there is none. `firstA` is the first alphabetic opening wherever it lies. The answers are non-empty iff `firstA` precedes `pStart`; they then run from `firstA` to `pStart`. |
| Zones.SplitRawIn | app/Inspector.php:56-78 | The raw zones lie in the segment: answers, when present, run from `firstA` to `pStart`, and the statement ends at `firstA`, or at `pStart` when there are no answers. |
| Zones.ListOpenPrefix | app/Extractor.php:51 | A leading list-and-item opening is recognised only when it is non-empty and inside the statement. |
| Zones.ClosePairsPrefix | app/Extractor.php:53 | A leading run of `</li></ol>` pairs is recognised only when it is non-empty and inside the answers. |
| Zones.TidyStatement | app/Extractor.php:51-52 | The statement cosmetics only ever remove a prefix. |
| Zones.TidyAnswers | app/Extractor.php:53 | The answers cosmetics only ever remove a prefix. |
| Zones.TidyStatementPlain | app/Extractor.php:51-52 | Without a leading list opening, the statement is only left-trimmed. |
| Zones.TidyAnswersKeeps | app/Extractor.php:53 | The answers are left unchanged iff they do not start with a `</li></ol>` run. |
| Zones.SplitZones | app/Extractor.php:37-55 | Production `splitZones` has the same `pStart` as the raw cut. It reports `firstA` iff the answers zone is non-empty (that is, only when `firstA` precedes `pStart`). It then applies the two cosmetics to the raw zones. |
| Zones.SplitZonesInFull | app/Extractor.php:37-55 | After the cosmetics, the statement still ends at `firstA` (or at `pStart` without answers). The answers still end at `pStart`, and the answers are empty when `firstA` is null. |
| Zones.SplitZonesTidied | app/Extractor.php:37-55 | The production zones keep the raw `pStart`. They report the raw `firstA` iff the raw answers are non-empty. Each of their zones is a suffix of the raw one. |
| TextNorm.CleanText | app/Extractor.php:22-25 | The result has no two adjacent white-space characters, and every white space it keeps is a plain space. |
| TextNorm.CleanTextEmptyIff | app/Extractor.php:22-25 | A text cleans to `''` iff it holds only trim characters, U+00A0 and U+202F. |
| TextNorm.CollapseTrimShape | app/Inspector.php:150 | The instrumented normalisation leaves single inner spaces and no white space at either end. |
| TextNorm.StripTags | app/Extractor.php:207 | Stripping tags never lengthens a text. A tag runs to the `>` that closes it, nested `<` counted, as stated by `TextNorm.StripTagsDropsTag`. |
| TextNorm.TagEnd | app/Extractor.php:207 | The end found for a tag is a `>` inside the text. Each nested `<` not followed by white space needs a `>` of its own before the tag closes. |
| TextNorm.TagEndPrefix | app/Extractor.php:207 | Where a tag closes does not depend on the text after it. |
| TextNorm.TagEndFirstGt | app/Extractor.php:207 | Without a nested `<`, the first `>` closes the tag. |
| TextNorm.StripTagsPlain | app/Extractor.php:207 | Text without `<` is left unchanged by `strip_tags`. |
| TextNorm.StripTagsPrefix | app/Extractor.php:207 | Text before the first `<` is kept as it is, ahead of what the rest becomes. |
| TextNorm.StripTagsDropsTag | app/Extractor.php:207 | A tag is a `<` not followed by white space, up to the `>` that closes it with nested `<` counted. It is dropped whole, and the rest is stripped on its own. |
| TextNorm.StripTagsDropsSimpleTag | app/Extractor.php:207 | A tag with neither `<` nor `>` inside is dropped whole up to its `>`. |
| TextNorm.StripTagsNestedExample | app/Extractor.php:207 | `<a<b>c>x` strips to `x`: the nested `<b` takes the first `>`. |
| TextNorm.StripTagsUnclosed | app/Extractor.php:207 | A tag that is never closed takes the rest of the text with it. |
| TextNorm.StripTagsLoneLt | app/Extractor.php:207 | A `<` followed by white space opens no tag and is kept with that white space. |
| TextNorm.StripTagsOpensNoTag | app/Extractor.php:207 | Every `<` left in the result is followed by white space, so the result opens no tag. |
| TextNorm.OpensNoTagKept | app/Extractor.php:207 | A text that opens no tag is left unchanged. |
| TextNorm.StripTagsIdempotent | app/Extractor.php:207 | Stripping tags twice is stripping them once. |
| Classify.Classify | app/Extractor.php:168-182 | Each type holds under exactly one condition. T3 iff there are no answers. T4 iff there are exactly two answers whose lower-cased joined text holds a whole-word vrai/true and a whole-word faux/false. T2 iff neither applies and the statement holds a multiple-selection cue. T1 iff none of these applies. |
| Classify.Reasons | app/Inspector.php:189-206 | The `why` list has exactly one reason. It is the default reason iff the type is T1. |
| Classify.ReasonsAgree | app/Inspector.php:189-206 | The instrumented decision gives the same type as the production rule order on the same statement text. Its single reason is the default one iff the type is T1. |
| Classify.RulesAgree | app/Inspector.php:194-204 | Rule by rule, the reasoning decision and the ordered rules agree for every answer count and every true/false and cue outcome. |
| Classify.VraiFauxIsT4 | app/Extractor.php:174-177 | The answers "Vrai" and "Faux" make a T4 question. |
| Classify.WordNeedsBoundary | app/Extractor.php:176 | "vraiment" does not count as "vrai": the words need word boundaries. |
| Dom.ForestImgSrcsNonEmpty | app/Extractor.php:158-161 | Every image source collected from a forest is non-empty. |
| Dom.ImgSrcsBelowNonEmpty | app/Extractor.php:158-161 | Every image source collected below a node is non-empty. |
| Flatten.LiChildrenMembers | app/Extractor.php:97-100 | The promoted nodes are exactly the `li` children of the dissolved list. |
| Flatten.SplitChildrenCount | app/Extractor.php:97-105 | Dissolving a list shares its nested alphabetic lists between the promoted and the discarded children, with none lost or created. |
| Flatten.FirstAlphaOlFound | app/Extractor.php:79-85 | The document-order search finds a list iff the tree holds an alphabetic list (`type="a"` or a `lower-alpha` style). What it finds is such a list. |
| Flatten.ForestFirstAlphaOlFound | app/Extractor.php:79-85 | The same, for the children of the wrapper. |
| Flatten.Step | app/Extractor.php:79-106 | One pass removes the first alphabetic list in document order. Exactly one alphabetic list is removed, together with those among its non-`li` children, which are discarded. Nothing is lifted at the top level, and what is lifted is exactly the `li` children of the removed list. Where they land is stated by `Flatten.StepPlacement`. |
| Flatten.StepPlacement | app/Extractor.php:79-106 | At any depth, for the first alphabetic list in document order: when its parent is not an `li`, its `li` children replace it in place. Otherwise it leaves its `li` parent, and its `li` children follow, in order, the outermost `li` of the run of `li` ancestors above it. The removed list's other children are dropped, and every other node keeps its place and content. |
| Flatten.Flatten | app/Extractor.php:78-107 | After the passes, no alphabetic list is left. |
| Flatten.FlattenLists | app/Extractor.php:78-107 | The `while (true)` loop computes `Flatten`, and the search for another list then finds none. |
| Flatten.DissolveInPlace | app/Extractor.php:94-106 | A top-level alphabetic list is replaced, in its place, by its `li` children in order. |
| Flatten.PromoteAfterItem | app/Extractor.php:87-105 | A list inside a top-level `li` is removed from it. Its `li` children land right after that `li`, in their original order. |
| Flatten.FlattenSingleList | app/Extractor.php:78-107 | One answers list whose items hold no further list flattens to exactly its items. |
| Flatten.Absorb | app/Extractor.php:122-150 | The walk after an empty item never grows the siblings. It keeps the item's name and attributes. Its four cases are stated by `Flatten.AbsorbAfterText`, `Flatten.AbsorbImageAt`, `Flatten.AbsorbBlankAt` and `Flatten.AbsorbStops`. |
| Flatten.AbsorbKeeps | app/Extractor.php:122-150 | The walk only appends content to the item, and deletes no `li` sibling. |
| Flatten.AbsorbAfterText | app/Extractor.php:146-149 | Text nodes are skipped and stay where they are. |
| Flatten.AbsorbImageAt | app/Extractor.php:126-138 | The first paragraph with an image, after text nodes only, has its whole content appended to the item and is deleted. |
| Flatten.AbsorbBlankAt | app/Extractor.php:139-145 | A blank image-less paragraph on the way is deleted, and the walk goes on. |
| Flatten.AbsorbStops | app/Extractor.php:146-149 | Any other element after the skipped text ends the walk: a paragraph with text but no image, or a non-paragraph. The item and its siblings are then left exactly as they were. |
| Flatten.AbsorbImagePara | app/Extractor.php:122-150 | The `$next` loop computes `Absorb`. |
| Flatten.RepairKeepsItems | app/Extractor.php:109-151 | The repair pass keeps the top-level items in number and order. Only items with no image and blank text change, and only by content appended at their end. |
| Flatten.RepairEmptyItems | app/Extractor.php:112-151 | The repair `foreach` computes `Repair`. |
| Flatten.CollectItems | app/Extractor.php:153-164 | The final loop gives one item per top-level `li`, in order. |
| Flatten.AnswerItems | app/Extractor.php:58-68 | An empty answers zone gives no items. |
| Flatten.AnswerItemsFlatten | app/Extractor.php:58-166 | The method (flatten, repair in production, collect) computes `AnswerItems` for either engine. |
| Flatten.EnginesAgreeOnCount | app/Inspector.php:83-160 | The production and instrumented engines find the same number of answers in a zone, because repair only fills empty items. |
| Flatten.ItemsWellFormed | app/Extractor.php:153-164 | Every item's text has single spaces only, and every image source is non-empty. |
| Extractor.StatementImages | app/Extractor.php:209-210 | There is one statement image source per image match. |
| Extractor.StatementOf | app/Extractor.php:206-213 | The statement text is `cleanText(strip_tags(...))` of the markup before removal. Without images the markup is unchanged. Removal never lengthens it. |
| Extractor.StatementHtmlOutside | app/Extractor.php:206-213 | When images are found, the statement markup is the text outside the `<img>` tags, and then outside the blank paragraphs of that text. |
| Extractor.StatementImagesClean | app/Extractor.php:209-210 | Every statement image source is non-empty and quote-free. |
| Extractor.BuildQuestion | app/Extractor.php:199-242 | The loop body builds the record and the debug row of the segment. |
| Extractor.Extract | app/Extractor.php:186-256 | `extract` returns one record per segment of the body, numbered from 1. |
| Extractor.ExtractLoop | app/Extractor.php:194-245 | The `while (true)` loop yields one record per segment, in document order, with each search restarting at the previous `end`. |
| Extractor.QuestionsNumbered | app/Extractor.php:218-242 | Record k has index k+1 and the text of segment k. Debug row k has the same index, and its `answers_count` is the number of answers. |
| Extractor.RecordOfFields | app/Extractor.php:218-242 | Each record and debug row copy the segment's fields and count its answers. |
| Extractor.QuestionsInOrder | app/Extractor.php:244 | Questions follow document order without overlap. |
| Inspector.BlockLabel | app/Inspector.php:180 | The first 26 blocks are lettered A to Z. |
| Inspector.ChunkEnd | app/Inspector.php:177 | Block i ends after its own opening, inside the zone. |
| Inspector.BlocksAt | app/Inspector.php:175-184 | There is one block per opening. |
| Inspector.Blocks | app/Inspector.php:163-186 | `answerBlocks` gives no block iff the zone is empty or has no alphabetic opening. Otherwise block i is lettered by its position. |
| Inspector.BlocksAtCover | app/Inspector.php:175-184 | From block i on, the blocks put back together give the zone from opening i on. |
| Inspector.BlockHtmlAt | app/Inspector.php:176-178 | Block i's markup runs from opening i to the next opening, or to the end of the zone. |
| Inspector.BlocksCover | app/Inspector.php:163-186 | The blocks concatenate to the answers zone from its first alphabetic opening on, with nothing lost or repeated. |
| Inspector.AnswerBlocks | app/Inspector.php:163-186 | The method computes `Blocks`. |
| Inspector.CutBlocks | app/Inspector.php:173-185 | The indexed `for` loop computes the blocks at the given openings. |
| Inspector.BuildRow | app/Inspector.php:225-257 | The loop body builds the row of the segment. |
| Inspector.Inspect | app/Inspector.php:210-273 | `inspect` gives one row per segment found with the tolerant points paragraph. |
| Inspector.InspectLoop | app/Inspector.php:220-261 | The `while (true)` loop yields one row per segment, each search starting at the previous `end`. |
| Inspector.RowsNumbered | app/Inspector.php:240-257 | Row k has index k+1 and the bounds and text of segment k. Its `answers_count` is the number of items. |
| Inspector.RowOfFields | app/Inspector.php:241-256 | Each row copies the segment's fields and counts its items. |
| Inspector.RowsInOrder | app/Inspector.php:260 | Rows follow document order without overlap. |
| Inspector.RowZones | app/Inspector.php:229 | The raw zones of a row together are the segment up to the points paragraph. `firstA` is reported even when it lies after that paragraph. |
| Inspector.RowDecision | app/Inspector.php:238 | The row's type is the production rule order applied to its statement and items. Exactly one reason is given. |
| Grouper.ToOf | app/Grouper.php:30 | `to` defaults to `from`. |
| Grouper.LayoutOf | app/Grouper.php:31 | The layout is vertical iff the definition says exactly "vertical". |
| Grouper.Insert | app/Grouper.php:26 | Insertion keeps a sequence sorted and adds exactly one element. |
| Grouper.SortBy | app/Grouper.php:26 | `usort` on an integer key: sorted, and a permutation of the input. Stability is stated by `Grouper.SortByStable`. |
| Grouper.InsertStable | app/Grouper.php:26 | Insertion puts the new element after every element with its key, so each run of equal keys keeps its order. |
| Grouper.SortByStable | app/Grouper.php:26 | `usort` is stable: for every key, the elements with that key appear in the sorted sequence in input order. This fixes the numbering of definitions that share a `from`, and the order of blocks with equal keys. |
| Grouper.IndexMap | app/Grouper.php:19-22 | Each stored question sits under its own index. Every question's index is a key, and every stored value is a question of the list. |
| Grouper.IndexMapDistinct | app/Grouper.php:19-22 | With distinct indices, each question is the one stored under its index. |
| Grouper.Members | app/Grouper.php:33-38 | A range's members are existing questions with an index in `[from, to]`, in strictly ascending index order. |
| Grouper.MembersComplete | app/Grouper.php:33-38 | Every existing question of the range is a member. |
| Grouper.MembersEmpty | app/Grouper.php:39 | A range has no members iff no existing question has an index in it. |
| Grouper.Groups | app/Grouper.php:28-50 | Each group block is non-empty, and the emitted groups are numbered 0, 1, 2, … |
| Grouper.Singles | app/Grouper.php:52-57 | Each single block holds a question whose index no range claimed. |
| Grouper.Build | app/Grouper.php:17-67 | `build` orders its blocks by group `from` or single index, and they are a permutation of the groups followed by the singles. |
| Grouper.NoDefsAllSingles | app/Grouper.php:52-64 | Without definitions, the blocks are the questions, each once as a single block, ordered by index. |
| Grouper.BuildBlocks | app/Grouper.php:17-67 | The method computes `Build`. |
| Grouper.IndexMapOf | app/Grouper.php:20-22 | The first loop computes the index map. |
| Grouper.GroupAll | app/Grouper.php:28-50 | The loop over the sorted definitions computes the groups and the set of claimed indices. |
| Grouper.GroupRange | app/Grouper.php:33-38 | The inner `for` loop collects the range's members and marks exactly the existing indices of the range. |
| Grouper.SinglesOf | app/Grouper.php:53-57 | The last loop computes the singles. |
| Grouper.SingleIffUncovered | app/Grouper.php:24-57 | A question becomes a single block iff no definition range covers its index. |
| Grouper.HoldCount | app/Grouper.php:28-57 | With distinct indices, a question is held by as many blocks as there are ranges covering it, or by one single block when none does. Overlapping ranges therefore duplicate it. |
| Grouper.ExactlyOnce | app/Grouper.php:17-67 | With distinct indices and pairwise disjoint ranges, every question is held by exactly one block. |
| Grouper.GroupsCount | app/Grouper.php:28-50 | The groups holding a question are as many as the definitions covering its index. |
| Exporter.Held | app/Exporter.php:9-15 | A single block holds exactly its question. A group holds its questions in group order. |
| Exporter.BlockHtml | app/Exporter.php:9-18 | A single block is exactly one article. A group is a `group layout-…` section holding one article per question, in group order. |
| Exporter.RenderQuestions | app/Exporter.php:4-21 | `renderQuestions` joins the block markups in the Grouper's order by newlines, inside `<div class="qwrap">`. |
| Exporter.RenderBlock | app/Exporter.php:9-18 | One iteration of the outer loop renders its block. |
| Exporter.RenderArticles | app/Exporter.php:13-16 | The inner loop renders one article per group question, in order. |
| Exporter.NoGroupsOneArticleEach | app/Exporter.php:4-21 | Without group definitions there is one article per question. Every block is a single block of a listed question, and every question has its own. |
| Exporter.TitleOf | app/Exporter.php:24 | The title defaults to "QCM". |
| Exporter.HeaderFields | app/Exporter.php:23-33 | The header holds the escaped title and the escaped letter (default `''`) at their places. Neither can open or close markup, and unescaping gives each one back. |
| Templates.SanitizeName | app/Templates.php:206-216 | The result is non-empty, never "Q1", and drawn from `[A-Z0-9_-]`. It is "T1" or the upper-cased name characters. When those characters are neither empty nor "Q1", they are the result. |
| Templates.SanitizeIdempotent | app/Templates.php:206-216 | Sanitising twice is sanitising once. |
| Templates.KeepDocs | app/Templates.php:125-133 | The filter keeps exactly the entries with no type restriction or with the type listed. Order and multiplicity are stated by the two lemmas below. |
| Templates.KeepDocsOne | app/Templates.php:125-133 | A single entry is kept iff it applies to the type. |
| Templates.KeepDocsAppend | app/Templates.php:125-133 | Filtering keeps order and multiplicity: the entries of a prefix come out before those of the rest. |
| Templates.PlaceholderDocsFor | app/Templates.php:71-134 | Without a type, all 10 entries. For a type that sanitises to T1, T2 or T4, all 10. For any other type, only the unrestricted ones. |
| Templates.LetterAt | app/Templates.php:189 | The letter of answer i is in A–Z and is 'A' iff i is a multiple of 26. |
| Templates.Letters | app/Templates.php:186-190 | The `for` loop gives one letter per answer, letter i being `chr(65 + i % 26)`. |
| Templates.LettersLayout | app/Templates.php:202 | `answers_letters` is `''` without answers. Otherwise letter k is at position 3k, separated from the next by ", ". |
| Templates.KeyAt | app/Templates.php:32 | `strtr` picks the longest key the text starts with, or reports that none matches. |
| Templates.StrtrTemplate | app/Templates.php:32 | On a template of brace-free text and placeholder holes, with prefix-free keys that open with `{`, `strtr` replaces exactly the holes by their values. |
| Templates.StrtrPlain | app/Templates.php:32 | Brace-free text is copied unchanged. |
| Templates.StrtrKey | app/Templates.php:32 | A key at the front is replaced by its value, and scanning resumes after it. Values are never rescanned. |
| Templates.NamesWellFormed | app/Templates.php:192-203 | The ten placeholder names are distinct and hold no space. |
| Templates.DefaultTemplate | app/Templates.php:231-242 | T3 gets the template without the answers placeholder, and every other name gets the base template. |
| Templates.LoadDefault | app/Templates.php:141-156 | Without a stored file, loading falls back to the T3 default iff the sanitised fallback name is T3. |
| Templates.SaveTemplate | app/Templates.php:158-172 | Saving is refused iff the sanitised name is not one of T1–T4. Otherwise exactly that entry is set, and the others are kept. |
| Templates.SaveThenLoad | app/Templates.php:141-172 | Loading a saved name gives the saved content back. |
| Templates.LiClass | app/Templates.php:20 | A leading `<li` (a whole word) becomes `<li class="ans"` with the rest kept. Anything else is unchanged, and the result is empty iff the input is. |
| Templates.RenderAnswers | app/Templates.php:18-23 | The `foreach` and `implode` compute the concatenated answer items. |
| Templates.AnswersList | app/Templates.php:24 | `answers_list` is `''` iff there are no items. |
| Templates.AnswersListEmpty | app/Templates.php:18-24 | The answers list is `''` iff every answer's markup is `''`. |
| Templates.Images | app/Templates.php:35-47 | `images` is `''` iff there are no sources. |
| Templates.ImgTagSource | app/Templates.php:42 | An image source cannot leave its `src` attribute: the attribute closes right after the escaped source, which unescapes back to the source. |
| Templates.BuildReplacementMap | app/Templates.php:174-204 | The method (with its letters loop) computes the replacement map. |
| Templates.TagsPrefixFree | app/Templates.php:192-203 | Two distinct placeholder tags are never prefixes of one another. |
| Templates.ReplacementKeys | app/Templates.php:192-203 | The map's keys are the ten placeholder tags, in order, prefix-free, and each is looked up to its own value. |
| Templates.TagMapPrefixFree | app/Templates.php:192-203 | Any map keyed by the ten tags is prefix-free, and each tag looks up its own value. |
| Templates.DefaultsFit | app/Templates.php:8-14 | Both default templates consist of brace-free text and holes that are keys of the map. |
| Templates.ReplacementValues | app/Templates.php:181-203 | Template name, type, index and statement text are escaped. The count reads back as the number of answers, and the letters are A, B, C, … |
| Templates.RenderQuestion | app/Templates.php:16-33 | The method computes the rendering of the record through its template. |
| Templates.RenderedDefault | app/Templates.php:16-33 | Without a stored template, a question renders as its fallback default template with each placeholder filled by its value. |
| DocxLists.FlushS | app/DocxToHtml.php:83 | Flushing pops the stack down to `min(size, target)` and emits one close token per popped list. It keeps the invariant that open minus close tokens equals the stack size. |
| DocxLists.OpenAtS | app/DocxToHtml.php:84 | Opening a list keeps that invariant. |
| DocxLists.LiS | app/DocxToHtml.php:85 | A next-item token keeps that invariant. |
| DocxLists.Descend | app/DocxToHtml.php:107-112 | The `while` loop pushes one list per missing depth up to the level. Each is typed '1' at depth 0, 'a' at depth 1 and untyped deeper, with one open token each. |
| DocxLists.NumberedS | app/DocxToHtml.php:102-117 | The level logic of a numbered paragraph keeps the invariant. |
| DocxLists.FormatOrder | app/DocxToHtml.php:146-155 | Underline is the outermost tag and bold the innermost. The closing tags mirror the opening ones, and the wrapped text unescapes to the run text. |
| DocxLists.ImageRule | app/DocxToHtml.php:170-191 | An image is produced iff the relationship id is set and known. Its `src` then unescapes to `word/` plus the target without leading slashes, and cannot end the attribute early. |
| DocxLists.MediaPathShape | app/DocxToHtml.php:175 | The media path is `word/` followed by the target with exactly its leading slashes removed. |
| DocxLists.RenderInline | app/DocxToHtml.php:140-169 | The nested `foreach` computes the inline markup of the runs. |
| DocxLists.RenderRun | app/DocxToHtml.php:144-166 | The inner `foreach` computes a run's markup. |
| DocxLists.RenderChild | app/DocxToHtml.php:145-165 | A child becomes formatted text, an image, `&emsp;` for a tab, or nothing. |
| DocxLists.NodeStep | app/DocxToHtml.php:87-131 | Every body node keeps the invariant. |
| DocxLists.Walk | app/DocxToHtml.php:87-132 | After any prefix of the body, the invariant holds. |
| DocxLists.BodyBalanced | app/DocxToHtml.php:87-133 | After the final drain, the list tokens are balanced: no prefix closes more than it opened, and all are closed. |
| DocxLists.FirstNumbered | app/DocxToHtml.php:104-106 | With an empty stack, a numbered paragraph opens exactly one list of its type, whatever its level. |
| DocxLists.DeeperOpens | app/DocxToHtml.php:107-112 | A deeper level keeps the stack and opens one list per intermediate depth, typed by depth, up to the level. |
| DocxLists.ShallowerCloses | app/DocxToHtml.php:113-117 | A shallower or equal level closes down to level+1 and then emits `</li><li>`. |
| DocxLists.PlainCloses | app/DocxToHtml.php:120-131 | A plain paragraph or a table closes every open list. An empty plain paragraph emits nothing else. |
| DocxLists.DepthTypeAgrees | app/DocxToHtml.php:102-110 | Intermediate lists get the type a paragraph of that depth with no known format gets. Decimal always gives '1', and lowerLetter below the top level gives 'a'. |
| DocxLists.ListWriter.constructor | app/DocxToHtml.php:82 | The stack and the output start empty. |
| DocxLists.ListWriter.Flush | app/DocxToHtml.php:83 | `$flush` updates the shared stack and output as `FlushS`. |
| DocxLists.ListWriter.OpenAt | app/DocxToHtml.php:84 | `$openAt` updates them as `OpenAtS`. |
| DocxLists.ListWriter.Li | app/DocxToHtml.php:85 | `$li` updates them as `LiS`. |
| DocxLists.ListWriter.Numbered | app/DocxToHtml.php:102-117 | The level logic updates them as `NumberedS`. |
| DocxLists.ListWriter.Step | app/DocxToHtml.php:87-131 | One body node updates them as `NodeStep`. |
| DocxLists.ConvertBody | app/DocxToHtml.php:82-133 | The body walk and the final drain produce balanced tokens. |
| DocxLists.KeptTexts | app/DocxToHtml.php:136 | `array_filter` keeps only truthy texts, and every truthy text is kept. |
| DocxLists.KeptTextsOne | app/DocxToHtml.php:136 | A single token's text is kept iff it is truthy. |
| DocxLists.KeptTextsAppend | app/DocxToHtml.php:136 | Filtering keeps input order: the texts of a prefix come out before those of the rest. |
| DocxLists.ListTokensKept | app/DocxToHtml.php:136 | List tokens are never falsy, so no bracket is filtered out. |
| DocxLists.SectionLayout | app/DocxToHtml.php:135-136 | The `data-docx` attribute value runs to the first quote and decodes back to the file name. The body between the opening and closing lines is the kept outputs joined by newlines. |
| Helpers.SafeFilename | app/helpers.php:86-90 | The output uses only `[a-zA-Z0-9._-]`, has no leading or trailing `_`, and is never longer than the input. |
| Helpers.SafeFilenameIdempotent | app/helpers.php:86-90 | Applying `safe_filename` twice is applying it once. |
| Helpers.SafeNameKept | app/helpers.php:86-90 | A name that is already safe is unchanged. |
| Helpers.SeparatorsInPlace | app/helpers.php:86-90 | In a name of allowed characters and separators, each `/` and `\` becomes one `_` in place, and only the ends are trimmed. |
| Helpers.StrStartsWith | app/helpers.php:142-147 | The result is true iff the haystack begins with the needle, so it is true for an empty needle. |
| Helpers.StrEndsWith | app/helpers.php:148-155 | The result is true iff the haystack ends with the needle. |
| Helpers.StrContains | app/helpers.php:156-161 | The result is true iff the needle occurs somewhere. |
| Helpers.StrStartsWithAny | app/helpers.php:133-138 | The loop with early return is true iff some prefix matches, so it is false for an empty list. |
| Helpers.GapLen | app/helpers.php:176 | A `>\s+<` match spans `>`, white space only, then `<`. |
| Helpers.GapsKeepText | app/helpers.php:176 | The gap normalisation changes only white space: the other characters stay, in order. |
| Helpers.SplitLines | app/helpers.php:180 | There is at least one line, and no line holds a line break. |
| Helpers.SplitLinesJoin | app/helpers.php:180 | Without carriage returns, joining the lines with newlines gives the text back. |
| Helpers.IndentAfter | app/helpers.php:184-203 | The indent is never negative. |
| Helpers.OpenTagName | app/helpers.php:195 | A line is taken as an opening tag only when it is `<`, a non-empty name and `>`. |
| Helpers.Pretty | app/helpers.php:170-172 | `pretty_html` of null or `''` is `''`. |
| Helpers.PrettyHtml | app/helpers.php:170-205 | The indenting loop computes `Pretty`. |
| Helpers.IndentLine | app/helpers.php:185-202 | One iteration prints the line at its level and gives the indent for the next line. |
| Helpers.PrettyLineShape | app/helpers.php:184-203 | Each output line is its trimmed input line behind an even, non-negative number of spaces. Left-trimming it gives the input line back. |
| Helpers.IndentSteps | app/helpers.php:187-202 | A line that starts with a closing tag is printed one level shallower, never below 0. Only an opening-tag line raises the indent for later lines, and by exactly one. |
| Helpers.SrcMatch | app/helpers.php:216 | A `src` match has its value inside the text, with its closing quote at the end. |
| Helpers.Replaced | app/helpers.php:217-226 | When the value starts with `word/` (any case), the callback puts `?action=media&p=` right in front of it. Otherwise it returns the match unchanged. |
| Helpers.RewriteAtMatch | app/helpers.php:214-226 | At a `src` match the scan copies the text up to the value and adds `?action=media&p=` in front of the value exactly when it starts with `word/`. Then come the value and its quote, and the scan resumes after the quote. |
| Helpers.RewriteAtOther | app/helpers.php:214-226 | Away from a `src` match, a character is copied as it is. |
| Helpers.RewriteMedia | app/helpers.php:211-213 | `rewrite_media_srcs` of null or `''` is `''`. |
| Helpers.RewriteLength | app/helpers.php:215-229 | Every other character is copied: the output is the input plus 16 characters per rewritten value. |
| Helpers.RewriteUnchanged | app/helpers.php:215-229 | Without a `word/` value, the text is copied unchanged. |
| Helpers.RewriteChangesIff | app/helpers.php:211-230 | The output equals the input iff no `src` value starts with `word/`. |
| MoodleCsv.Wrap | QCM/index.php:15-26 | The wrapped text is never empty. |
| MoodleCsv.WrapCases | QCM/index.php:15-26 | Blank text gives `<p dir="ltr"></p>`. Trimmed text holding a tag is returned as it is. Anything else is escaped inside `<p dir="ltr">`. |
| MoodleCsv.WrapTextRoundTrip | QCM/index.php:24-25 | Text without markup comes back out of its paragraph, up to trimming. |
| MoodleCsv.WrapIdempotent | QCM/index.php:15-26 | Wrapping a wrapped text changes nothing. |
| MoodleCsv.SplitNewlines | QCM/index.php:36 | There is at least one piece, and no piece holds a newline. |
| MoodleCsv.NonBlank | QCM/index.php:37 | Only non-blank lines of the input are kept, and every non-blank line is kept. |
| MoodleCsv.NonBlankOne | QCM/index.php:37 | A single line is kept iff it is not blank after trimming. |
| MoodleCsv.NonBlankAppend | QCM/index.php:37 | Filtering keeps input order: the lines of a prefix come out before those of the rest. |
| MoodleCsv.FilterLines | QCM/index.php:37 | The filtering step computes `NonBlank`. |
| MoodleCsv.Convert | QCM/index.php:36-42 | The conversion aborts iff fewer than two non-blank lines remain. |
| MoodleCsv.RowQuestions | QCM/index.php:54-63 | There are never more questions than data rows. |
| MoodleCsv.Accepted | QCM/index.php:57-60 | Every accepted row has at least 12 fields, and every row with at least 12 fields is accepted. |
| MoodleCsv.AcceptedOne | QCM/index.php:57-60 | A single row is accepted iff it splits into at least 12 fields. |
| MoodleCsv.AcceptedAppend | QCM/index.php:54-60 | The loop keeps row order: the rows of a prefix come out before those of the rest. |
| MoodleCsv.OneQuestionPerRow | QCM/index.php:54-139 | There is one question per accepted row, in order, built from that row's fields, so the question count equals the accepted-row count. |
| MoodleCsv.AnswerRules | QCM/index.php:115-136 | Each question has four answers with fractions 100, 0, 0, 0, taken from columns 4–11 and wrapped. |
| MoodleCsv.BuildAnswers | QCM/index.php:115-136 | The `for` loop builds those four answers. |
| MoodleCsv.ConvertCsv | QCM/index.php:36-139 | The POST handler computes `Convert`, and `$count` is the number of questions. |
| Grille.NumberingAt | grille/assets/app.js:425 | A separator match has the shape `\d+\.\s+`. |
| Grille.NumberingAtComplete | grille/assets/app.js:425 | The scanner misses no separator: wherever one starts, it finds one at least as long. |
| Grille.SplitNumbered | grille/assets/app.js:425 | The split always has at least one piece. |
| Grille.SplitNumberedLossless | grille/assets/app.js:425 | Pieces and separators put back together give the text. |
| Grille.SplitNumberedLast | grille/assets/app.js:425 | The last piece has no separator after it. |
| Grille.SplitNumberedSeparators | grille/assets/app.js:425 | Every other separator is a `\d+\.\s+` numbering. |
| Grille.SplitNumberedLeftmost | grille/assets/app.js:425 | The split is the leftmost one. No numbering starts inside any piece, each piece but the last ends where the scanner finds a numbering, its separator is that whole match, and the last piece runs to the end of the text. |
| Grille.Segments | grille/assets/app.js:425 | The segments are the pieces after the first, which is discarded. |
| Grille.EntryMatch | grille/assets/app.js:430-431 | A match gives a non-empty digit ID that prefixes the segment, and a non-empty one-line rest. |
| Grille.EntryMatchIff | grille/assets/app.js:430-431 | On a trimmed segment, the scanner matches iff the segment splits as digits, white space, then a single line. |
| Grille.EntryMatchSound | grille/assets/app.js:430-431 | A match means the segment is digits, then white space, then one line. |
| Grille.EntryMatchComplete | grille/assets/app.js:430-431 | A trimmed segment of that shape always matches. |
| Grille.CutAt | grille/assets/app.js:435 | The name is cut at the first "Powered by" or "Page " (any case), or kept whole. |
| Grille.SplitNameParts | grille/assets/app.js:437-439 | On a trimmed name, the last name is one non-empty token and the first name is trimmed. The first name is non-empty when there are several tokens. |
| Grille.SplitNameRejoins | grille/assets/app.js:437-439 | Last name, a space and first name give the trimmed name back with its white-space runs collapsed. |
| Grille.ParsedRows | grille/assets/app.js:427-441 | There are never more students than segments. `ParsedRowsOne` and `ParsedRowsAppend` state which students come out and in what order. |
| Grille.ParsedRowsOne | grille/assets/app.js:427-441 | One segment gives its student when it parses, and nothing otherwise. |
| Grille.ParsedRowsAppend | grille/assets/app.js:427-441 | The students of two runs of segments are those of the first run, then those of the second, in segment order. |
| Grille.ParseStudentList | grille/assets/app.js:425-442 | The segment loop computes `ParsedRows` of the segments. |
| Grille.ParsedEntryShape | grille/assets/app.js:428-433 | Every parsed student comes from a segment shaped `^\d+\s+.+$`, with the leading digits as ID. |
| Grille.FirstSet | grille/assets/app.js:539-540 | The chain of logical ors ending in `''` gives `''` exactly when every key is absent or empty. Otherwise it gives the value of the first key whose value is present and non-empty; every earlier key is absent or empty. |
| Grille.SpacedIdLayout | grille/assets/app.js:533-536 | `spacedId` is `''` without an ID. Otherwise character k of the ID is at position 3k, with two spaces before the next. |
| Grille.DerivedNames | grille/assets/app.js:537-557 | An explicit first name means both names are taken as given. Otherwise the last name is one token, and with the first name it rejoins to the given last name with spaces collapsed. |
| Grille.PdfRowRoundTrip | grille/assets/app.js:437-557 | A student parsed from the PDF list is filled in with exactly the ID and names the parser found. |
| Grille.PdfRowLookups | grille/assets/app.js:440 | The parsed record's values are found under the keys the process handler reads. |
| Grille.FieldValue | grille/assets/app.js:570-580 | A field receives the spaced ID, the first name, the last name or the raw value. |
| Grille.FieldValueRules | grille/assets/app.js:572-580 | For every key, on its lower-cased form, the rules apply in order. A whole-word `id`, `identifiant`, `matricule` or `num` gives the spaced ID, so `numero` needs no rule of its own. Otherwise `prenom` or `prénom` gives the first name. Otherwise a whole-word `nom` gives the last name. Any other key keeps the row's value. |
| Grille.IdKeyExamples | grille/assets/app.js:573-574 | "ID", "Matricule" and "Numéro" take the spaced ID. |
| Grille.FirstNameKeyExample | grille/assets/app.js:575-579 | "Prénom" contains the whole word "nom" but takes the first name, because the first-name rule comes first. |
| Grille.LastNameKeyExample | grille/assets/app.js:577-579 | "Nom" takes the last name. |
| Grille.GluedNomExample | grille/assets/app.js:570-580 | "Nom_famille" is no last-name key, so the row's own value is kept. |
| Grille.Filled | grille/assets/app.js:566-588 | Only keys of the row that name a text field of the form are filled. |
| Grille.FilledComplete | grille/assets/app.js:566-588 | Every such key is filled, with the value the key rules give. |
| Grille.FillFields | grille/assets/app.js:566-588 | The `forEach` loop computes `Filled`. |
| Grille.FilledEmpty | grille/assets/app.js:562-588 | The loop fills nothing (`hasFilledAny` stays false) exactly when no row key names a text field. |
| Grille.FirstAlias | grille/assets/app.js:596-606 | The alias loop stops at the first alias, in list order, that names a text field; it finds none only when no alias does. |
| Grille.FirstField | grille/assets/app.js:610-621 | The `getFields()` scan stops at the first text field, in form order, whose name the pattern accepts; it finds none only when no field matches. |
| Grille.FallbackTarget | grille/assets/app.js:595-623 | A fallback writes a text field that is an alias or that the pattern accepts. An alias that names a field always wins over the scan. Nothing is written only when no alias names a field and no field matches. |
| Grille.NameFallback | grille/assets/app.js:591-625 | The name fallback changes nothing when the `forEach` loop filled a field or the row has no `Nom`. Otherwise it writes `row.Nom` into a name alias or a field whose name contains "nom", "name", "student" or "étudiant" in any case, and into "Nom" when the form has it. |
| Grille.IdFallback | grille/assets/app.js:628-661 | The ID fallback changes nothing without `row.ID`. Otherwise it writes the raw ID into an ID alias or a field whose name contains "id", "matricule" or "num" in any case, and into "ID" when the form has it. Every other field keeps its value. |
| Grille.CompletedFields | grille/assets/app.js:560-661 | Only text fields are written. Every field the `forEach` loop filled stays filled, and keeps its value unless the ID fallback rewrites it with the raw ID. The name fallback runs only when no row key names a field. A form with an "ID" field ends with the raw ID there, not the spaced ID of the key rules. |
| Grille.FindAlias | grille/assets/app.js:596-606 | The alias loop computes `FirstAlias`. |
| Grille.ScanFields | grille/assets/app.js:610-621 | The scan loop computes `FirstField`. |
| Grille.WriteFallback | grille/assets/app.js:595-623 | One fallback writes its value into `FallbackTarget`, or leaves the fields as they are when there is none. |
| Grille.ApplyFallbacks | grille/assets/app.js:591-661 | The name fallback, then the ID fallback, compute `IdFallback` of `NameFallback`. |
| Grille.SafePart | grille/assets/app.js:724-726 | A sanitised part holds only word characters and dashes. |
| Grille.BuildFileName | grille/assets/app.js:723-735 | The method computes the file name. |
| Grille.FileNameShape | grille/assets/app.js:723-735 | The name ends in `.pdf`. With some part, its stem uses word characters, dashes and `_` only. Without one, it is `etudiant_` plus at least three digits reading back as the 1-based position. |
| Grille.DefaultNameNumber | grille/assets/app.js:734 | The default name carries the position as at least three digits that read back as it. |
| Grille.DefaultNamesDiffer | grille/assets/app.js:734 | Two sheets that both fall back to the default name never share it. |
| Grille.Remove | grille/assets/app.js:503 | `Set.delete` removes exactly that index. |
| Grille.AddRangeSelects | grille/assets/app.js:472 | Adding a range keeps the selection distinct and the old selection in front, and selects every index of the range. |
| Grille.AddKeeps | grille/assets/app.js:501 | One `add` keeps the selection distinct and in front, and selects the new index. |
| Grille.RemoveDistinct | grille/assets/app.js:503 | Removing keeps the selection distinct. |
| Grille.Page.constructor | grille/assets/app.js:159-166 | The page starts with no template, no students and no selection. |
| Grille.Page.SetTemplate | grille/assets/app.js:319-343 | Loading the template (or failing to) sets only the template flag. |
| Grille.Page.ClearStudents | grille/assets/app.js:353 | Choosing a new list file empties the list, so the page is not ready. |
| Grille.Page.RenderSelection | grille/assets/app.js:454-517 | One check box per student is shown, and exactly the students are selected. |
| Grille.Page.LoadRows | grille/assets/app.js:378-395 | The CSV rows become the list, all selected. The page is ready (`readyCheck`, lines 199-215) iff a template is loaded and the list is non-empty. |
| Grille.Page.LoadPdfText | grille/assets/app.js:403-446 | The parsed students become the list, all selected, and readiness follows as for CSV. |
| Grille.Page.SelectAll | grille/assets/app.js:471-476 | Every student is added to the selection, and nothing else changes. |
| Grille.Page.DeselectAll | grille/assets/app.js:483-487 | The selection is emptied, so the page is not ready. |
| Grille.Page.Toggle | grille/assets/app.js:499-506 | Only the toggled index changes its membership, to the box's state. |
| Grille.Page.Process | grille/assets/app.js:520-740 | The handler produces the sheets of the selected students. When the page is ready, it produces one sheet per selected student. |
| Grille.ProcessOne | grille/assets/app.js:530-736 | One iteration derives the names and ID, fills the fields, applies both fallbacks and names the file. |

## Where the model follows the code over its documentation

- **Flatten anchor:** the flattening pass climbs every consecutive `li` ancestor
  (app/Extractor.php:87-96). Lifted items therefore land after the outermost `li` of that
  chain, not after the nearest one. When one item holds two alphabetic lists, the second
  list's items come out before the first's.
- **Grouper overlap:** the Grouper never consults `$used` while grouping, so overlapping
  ranges put a question into several groups (`Grouper.HoldCount`). Only with pairwise
  disjoint ranges is each question held once (`Grouper.ExactlyOnce`).
- **No truncation offset:** `extract` records no truncation offset. Its debug rows hold
  only the fields listed in `Extractor.QuestionsNumbered`.
- **T2 cues:** the cues are plain substrings, without word boundaries. Only the
  `(choisissez|sélectionnez)\s+\d+` cue has any structure.
- **Reasons:** the instrumented `why` list always holds exactly one reason, since at most
  one rule can fire.

## Left out

- Reading and writing files is not modelled:
  - the intermediate HTML, `extraction.json` and the debug JSON;
  - the template files: the template store is a map, and the write failure of
    `saveTemplateContent` is not modelled;
  - JSON encoding, `date('c')` timestamps, `$_SESSION` and debug logging.
- libxml's HTML parsing is a function parameter (`Dom.Parser`).
- `saveHTML` is replaced by `Dom.Serialize`, a simple serialiser. An item's `html` is
  therefore not byte-for-byte libxml's output.
- Entity decoding in `textContent` is the parser's business and is not modelled.
- The flattening and repair passes work on trees as values. The in-place
  `removeChild`/`insertBefore` steps, node identity and aliasing are not modelled.
- Offsets are character offsets, not byte offsets. The debug lengths count characters.
- `mb_strtolower` is modelled as `Chars.LowerLatin` (ASCII and Latin-1 letters) and
  `strtolower` as `Chars.Lower` (ASCII).
- Grille.FieldValue: JavaScript's `toLowerCase` (`grille/assets/app.js:572`) is also modelled
  as `Chars.LowerLatin`. Letters outside Latin-1 are kept as they are, so results can differ.
  For example, JavaScript lowers the key "\u212Aid" (Kelvin sign) to "kid", where `\bid\b`
  fails. The model keeps U+212A, so it sees a whole-word "id" and gives the spaced ID. The
  same holds for `Grille.FieldValueRules`.
- Grille.IsNameField: the `/i` patterns of the `getFields()` scans (`grille/assets/app.js:613`
  and 649) are matched on the `Chars.LowerLatin` form of the field name. This agrees with
  JavaScript's case folding for ASCII and Latin-1, and not beyond. The same holds for
  `Grille.IsIdField`.
- `strip_tags` is modelled as a tag scanner that counts nested `<`, but it does not track
  quotes inside a tag. It gives no special treatment to `<!…>` declarations and `<!-- … -->`
  comments, nor to `<?…?>` processing instructions, which PHP closes only at `?>`. It keeps
  NUL characters, which PHP drops.
- The DOCX converter is modelled only as the list machine and inline rendering. The
  following are inputs or not modelled:
  - ZIP reading, XML parsing, XPath, numbering-format and relationship resolution
    (given as inputs);
  - `renderTable` (a table arrives rendered);
  - the `$stats` counters;
  - `basename($docxPath)`: `DocxLists.Section` takes the file name as given.
- A numbering level is a natural number.
- The CSS constants (`printCss`), the French descriptions and labels of `availableTypes`
  and `placeholderDocs`, and the template file names are not modelled.
- Grouper: `from` and `to` are integers, so PHP's `(int)` cast of other values is not
  modelled.
- `QCM/index.php`:
  - `str_getcsv` is a parameter;
  - the line split uses `\n` as `PHP_EOL`;
  - `mb_convert_encoding`, the Moodle XML document, the download headers and the debug
    output are not modelled.
- `grille/assets/app.js`:
  - pdf.js text extraction (lines 411-418) is not modelled: the text is a parameter;
  - PapaParse (lines 380-393) is not modelled: the rows are a parameter;
  - pdf-lib form access is reduced to the list of text-field names, in the order
    `getFields()` returns them; a `setText` that throws (for instance past a field's
    maximum length) is not modelled;
  - JSZip output, the download link, logging, the overlay drawing (lines 663-717) and the
    DOM check boxes are not modelled.
- Extractor.StatementOf: that the markup after image removal holds no image tag is not
  stated. `Extractor.StatementHtmlOutside` states which text is kept, but whether new tags
  form where removed pieces meet is not analysed.
- Flatten.AnswerItems: only the empty-zone case is stated directly. The items of a
  non-empty zone depend on the parser parameter, so their properties are stated in
  `Flatten.ItemsWellFormed`, `Flatten.EnginesAgreeOnCount` and the flattening lemmas.
- Inspector.BlockLabel: the letters are stated for the first 26 blocks only. Beyond that,
  `chr` wraps modulo 256 as in the source.
- Classify.Classify: the multiple-selection cue `(choisissez|sélectionnez)\s+\d+` is
  matched with ASCII digits only. Under the `/u` flag, PHP's `\d` also accepts other Unicode
  decimal digits, so "choisissez ٢" is T2 in the source but T1 in the model. The same
  holds for `Classify.Reasons`.
- Grille.SpacedIdLayout: the ID is split by code point, whereas `split('')` splits by UTF-16
  code unit. The layout differs for an ID holding a character outside the Basic
  Multilingual Plane.
