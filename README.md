# dumpprocessing core, modelled in Dafny

`script.py` turns two dumps of a wiki into a topical subset of its articles.
It reads the link-table export row by row and builds two things:

- the category graph, a map from each category to its subcategories;
- a list of article rows, each holding the article id, its title and its category.

It then explores the graph from a seed category down to a maximum depth,
using a priority queue of (depth, name) pairs. This gives a category-to-depth
map. The graph is cut down to the explored categories. The article ids of
those categories are gathered per category, and the union of those lists is
the set of target ids. Last, the content export is streamed: the namespace
block is copied through, and each page whose id is a target id is written
out with its title normalised and its text cleaned.

The project models these steps as Dafny methods with loops. Each method is
proved against a specification function or predicate, and lemmas state what
those specifications mean:

- every name in the category graph is a key;
- the recorded depths are shortest-path distances from the seed;
- the collected ids are exactly the rows that point into explored categories;
- the number of (category, id) pairs is at least the number of distinct ids;
- a page is written if and only if its id is a target id;
- normalisation is idempotent;
- the ASCII stage keeps exactly the ASCII characters, in order;
- the article file hands plain ASCII names over unchanged, and loses
  categories with other characters or with backslashes (see Findings).

Files and modules:

- `results.dfy` (`Results`): `Option` and `Result`.
- `text.dfy` (`Text`): `normalize`, the backslash doubling in written article
  rows and reading them back, and the ASCII-only encoding.
- `encoding.dfy` (`Encoding`): UTF-8 written and read back as Latin-1, and
  the reader's backslash escape scan.
- `graph.dfy` (`Graph`): the adjacency map, edges, closure and paths.
- `order.dfy` (`Order`): the order on strings that the priority queue uses.
- `indexer.dfy` (`Indexer`): the row loop of `csvdump_extractor`.
- `skipping.dfy` (`SkippingIndexer`): the same loop with short rows skipped (see Findings).
- `depths.dfy` (`Depths`): `getcategorydepths`.
- `shortest.dfy` (`ShortestPaths`): what the explorer's postcondition means for paths.
- `buckets.dfy` (`Buckets`): category-to-ids maps and their pair count.
- `collector.dfy` (`Collector`): `getsubcats`, the row loop of
  `collectArticleIds`, and the id union in `main`.
- `pipeline.dfy` (`Pipeline`): the article file between the indexer and the
  collector. It is written as UTF-8 with only the title's backslashes doubled,
  and read as Latin-1 with '\' as escape character. A corrected hand-over is
  modelled beside it (see Findings).
- `extractor.dfy` (`Extractor`): the selection loop of `articlecollector` with `create_page`.

Edge cases the model follows as the code has them:

- A link row with fewer than 16 fields raises `IndexError` at `line[15]`.
  The `except IOError` around it does not catch that error, so the whole
  indexing pass fails; the row is not skipped. See Findings.
- An unknown seed category gives an empty depth map, not `{seed: 0}`.
- Depths are bounded by the maximum depth only when it is positive. With a
  maximum depth of 0 or less, only the seed is recorded, at depth 0.
- The ASCII stage keeps every character below 128, control characters included.
- Only a page's id is checked on every page. A page whose id element is
  missing aborts the pass. A page whose id element is empty is not selected.
  Title and text are looked at only on selected pages, and there a missing or
  empty title or text aborts the pass.

## Model

| member | source | states |
|---|---|---|
| Text.Normalize | script.py:59-61 | the result has the input's length and replaces each '_' by ' ', leaving every other character as it is |
| Text.NormalizeIdempotent | script.py:59-61 | a normalised name contains no '_', so normalising it again changes nothing |
| Text.NormalizeFixpoints | script.py:59-61 | normalisation leaves a name unchanged if and only if it contains no '_' |
| Text.EscapeBackslashes | script.py:113-114 | the written title is longer than the title by exactly its number of backslashes |
| Text.EscapeWithoutBackslashes | script.py:113-114 | a title without backslashes is written unchanged |
| Text.EscapeRoundTrip | script.py:113-114 | reading the written title with '\' as escape character gives back the original title |
| Text.AsciiOnly | script.py:67 | the encoding is never longer than the text and holds only bytes below 128 |
| Text.AsciiOnlyConcat | script.py:67 | the encoding works character by character: it distributes over concatenation, so order is kept |
| Text.AsciiOnlyKeepsAscii | script.py:67 | a pure ASCII text is encoded byte for byte, in order |
| Text.AsciiOnlyDropsOthers | script.py:67 | a text without ASCII characters encodes to nothing |
| Encoding.Utf8 | script.py:92-94 | a character is written as one to four bytes; an ASCII character as its own byte, any other as at least two bytes that are all 128 or more |
| Encoding.Latin1 | script.py:172 | reading as Latin-1 turns each byte into the character with the same number, one for one |
| Encoding.TranscodedConcat | script.py:172 | writing as UTF-8 and reading as Latin-1 works character by character: it distributes over concatenation |
| Encoding.TranscodedAscii | script.py:172 | a pure ASCII string comes back unchanged |
| Encoding.TranscodedGrows | script.py:172 | a string never comes back shorter, and comes back longer when it has a character of 128 or more |
| Encoding.TranscodedIdentityIffAscii | script.py:172 | a string comes back unchanged if and only if it is pure ASCII |
| Encoding.TranscodedBackslashFree | script.py:172 | the re-encoding adds no backslash to a string that has none |
| Encoding.EscapeConcat | script.py:114 | the backslash doubling works character by character: it distributes over concatenation |
| Encoding.TranscodedEscape | script.py:113-114 | doubling backslashes before the re-encoding gives the same as doubling them after it |
| Encoding.EscapedNeverLone | script.py:113-114 | a string with doubled backslashes never ends on a lone one, so its closing quote is never taken as escaped |
| Encoding.BackslashFreeReadsBack | script.py:174 | a string without backslashes is read back unchanged and keeps its closing quote |
| Encoding.UnescapeAfterPlain | script.py:174 | the reader's unescaping passes over a prefix without backslashes |
| Encoding.LoneEscapeAfterPlain | script.py:174 | whether a field ends on a lone backslash does not depend on a prefix without backslashes |
| Encoding.UnescapeShortens | script.py:174 | reading back never lengthens a field, and shortens every framed field that has a backslash |
| Order.StrLessIrreflexive | script.py:134-137 | no name sorts before itself in the queue's string order |
| Order.StrLessTransitive | script.py:134-137 | the queue's string order is transitive |
| Order.StrLessTotal | script.py:134-137 | any two distinct names are ordered one way or the other |
| Depths.PrecedesIrreflexive | script.py:134-137 | no (depth, name) entry precedes itself |
| Depths.PrecedesTransitive | script.py:134-137 | the (depth, name) order is transitive |
| Depths.PrecedesTotal | script.py:134-137 | any two distinct entries are ordered, so `get` hands out a unique least entry |
| Depths.MinIndex | script.py:137 | the position returned holds an entry that no queue entry precedes: the one `queue.get()` returns |
| Depths.RemoveAt | script.py:137 | taking the entry out shortens the queue by one; on a queue without repeats it removes exactly that entry and no other |
| Depths.ExpandChildren | script.py:144-148 | subcategories that already have a depth keep it; every subcategory ends up with a depth; the new ones, and only they, get depth d+1, join the queue once each and record the expanded category as their parent |
| Depths.CategoryDepths | script.py:127-156 | an unknown seed gives the empty map; otherwise the seed is at depth 0; every depth lies between 0 and the bound; every other category has a recorded parent one level shallower; a category recorded below the bound that has no adjacency entry is gone; the subcategories of a category recorded below the bound are recorded at most one level deeper; each category is expanded at most once, and exactly the ones recorded below the bound are expanded; entries are handed out in strictly increasing (depth, name) order; every expanded category was handed out at its recorded depth; every entry handed out lies below the bound and is expanded when its name has an adjacency entry |
| ShortestPaths.DepthHasPath | script.py:136-148 | every recorded category is reached from the seed by a path exactly as long as its depth |
| ShortestPaths.PathsAreNoShorter | script.py:136-148 | with every listed subcategory a key, the end of any path from the seed no longer than the bound is recorded, at a depth no larger than the path's length |
| ShortestPaths.DepthsAreDistances | script.py:127-156 | with every listed subcategory a key and a known seed, a category is recorded if and only if a path of at most the bound reaches it, and its depth is the length of a shortest such path |
| ShortestPaths.IndexedDepthsAreDistances | script.py:127-156 | on the graph the indexer builds, no recorded category lacks an adjacency entry; every recorded depth is the length of some path from the seed to that category; and every path within the bound ends at a recorded category no deeper than the path's length, so depths are shortest distances |
| ShortestPaths.ChainExample | script.py:131-148 | the chain A→B→C→D explored from A with maximum depth 2 gives exactly {A:0, B:1, C:2} |
| Indexer.UnmentionedHasNoChildren | script.py:108-111 | a name that no category row mentions has no subcategories |
| Indexer.ChildrenAreMentioned | script.py:108-111 | a listed subcategory and its parent are both mentioned by category rows |
| Indexer.IndexIsClosed | script.py:108-111 | every name in any adjacency list of the built graph is itself a key |
| Indexer.CategoryRowStep | script.py:107-111 | a namespace-"14" row appends the normalised title to the list of the normalised target; every other list stays the same; both names become keys; no article row is written |
| Indexer.ArticleRowStep | script.py:112-114 | a namespace-"0" row writes [id, title with '\' doubled, normalised target] and leaves the graph unchanged |
| Indexer.OtherRowStep | script.py:105-114 | a row of any other namespace changes nothing |
| Indexer.AppendSubcategory | script.py:110-111 | the parent list gains the subcategory at its end; the subcategory gets an empty list of its own if it had none; every other list is unchanged |
| Indexer.IndexStep | script.py:105-114 | one more complete row keeps the graph and the article rows equal to those of all rows read so far |
| Indexer.ExtractIndex | script.py:104-117 | the pass fails if and only if some row has 15 fields or fewer; it fails at the first such row and carries the article rows already written; otherwise the graph has exactly the mentioned names as keys, lists each category's subcategories in row order with duplicates kept, and the article rows are those of the article rows in order |
| SkippingIndexer.CompleteRowsMembers | script.py:115-117 | the corrected pass reads exactly the rows that have the target-category column |
| SkippingIndexer.CompleteRowsStep | script.py:104-107 | a complete row is read in turn; a short one is dropped |
| SkippingIndexer.ShortRowSkipped | script.py:115-117 | a short row leaves the corrected pass's result unchanged |
| SkippingIndexer.ExtractIndexSkipping | script.py:104-117 | the corrected pass never fails; its graph and article rows are those of the complete rows |
| SkippingIndexer.ShortRowAbortsPass | script.py:107 | for an article row followed by a short row, every outcome the pass as written allows is a failure at the short row, after the article row was written out; the corrected pass indexes the article row and skips the short one |
| Collector.Subgraph | script.py:159-164 | the restricted graph has exactly the explored categories that have adjacency entries as keys, with their lists unchanged |
| Collector.SubgraphOfExplored | script.py:159-164 | on a closed graph the restriction keeps every explored category, and the lists of those explored below the bound name only explored categories |
| Collector.UnreadableRowSkipped | script.py:182-190 | a row with fewer than 3 fields leaves every id list and the count unchanged |
| Collector.CollectStep | script.py:183-187 | one row whose category is explored appends its id to that category's list and adds one to the count; any other row changes nothing |
| Collector.CollectArticleIds | script.py:181-190 | the keys are exactly the explored categories that some readable row points into; each list is the ids of those rows in row order, duplicates kept; the count is the number of such rows and equals the number of ids listed |
| Collector.IdsUnderFromRows | script.py:183-186 | every collected id comes from a readable row whose category is the list's category |
| Collector.RowIdCollected | script.py:183-186 | the id of every readable row is collected under that row's category |
| Collector.IdsUnderExactly | script.py:183-186 | an id is collected under a category if and only if some readable row with that category carries it |
| Collector.AddAll | script.py:329-331 | the set gains exactly the list's ids and the pair count grows by the list's length |
| Collector.UnionStep | script.py:328-331 | taking in one more category adds its ids to the union and its list length to the pair count |
| Collector.UnionLoopStep | script.py:328-331 | taking in one remaining category moves it to the seen ones, keeping the union equal to the ids of the seen categories and the count equal to their pairs; fewer categories remain |
| Collector.TargetIds | script.py:326-331 | the id set is the union of all lists, the pair count is the sum of their lengths, and there are never more ids than pairs |
| Buckets.SumOverPick | script.py:328-330 | the pair count can be split at any category, so it does not depend on the order keys are visited in |
| Buckets.SumOverFrame | script.py:328-330 | the pair count depends only on the lengths of the lists |
| Buckets.TotalAppend | script.py:186-187 | appending one id under a category adds one pair, whether or not the category had a list |
| Buckets.ElemsBound | script.py:329-331 | a list holds no more distinct ids than its length |
| Buckets.IdsOverBound | script.py:326-331 | the distinct ids of any set of categories are no more than their pairs |
| Pipeline.ReadRow | script.py:172-184 | when no field of the file ends on a lone backslash, a written row reads back as a row with as many fields |
| Pipeline.ReadBackAppend | script.py:181-184 | when no field of the file ends on a lone backslash, reading one more written row appends that row read back |
| Pipeline.CollectAppend | script.py:183-187 | one more readable row appends its id under its category and counts it when that category is explored |
| Pipeline.ReadBackReadable | script.py:181-185 | when no field of the file ends on a lone backslash, every article row the indexer writes reads back with three fields, so the collector skips none |
| Pipeline.ReadBackCollected | script.py:172-187 | as written and when no field of the file ends on a lone backslash, the collector collects under c the read-back ids of the article rows whose category reads back as c, and counts the article rows whose category reads back as an explored one |
| Pipeline.ReadBackCollects | script.py:172-187 | when no written field ends on a lone backslash, every article row is read with three fields, and the collection is that of the read-back ids and categories |
| Pipeline.PlainReadsBack | script.py:172-174 | an ASCII name without backslashes reads back as itself and keeps its closing quote |
| Pipeline.WrittenTitleReadsBack | script.py:113-114 | the written title keeps its closing quote and reads back as the title re-encoded, its backslashes restored |
| Pipeline.PlainReadUnder | script.py:172-187 | with ASCII ids and categories without backslashes, every written field keeps its closing quote, and reading back changes neither the collected ids nor the count |
| Pipeline.PlainArticlesCollected | script.py:172-187 | with ASCII ids and categories without backslashes, the collector collects under c exactly the ids of the article rows linking into c, in order, and counts the article rows linking into the explored categories |
| Pipeline.SingleArticleReadBack | script.py:181-186 | when none of its fields ends on a lone backslash, the row written for one article is collected under c exactly when its category reads back as c |
| Pipeline.NonAsciiCategoryLost | script.py:172-185 | an article whose category has a character of 128 or more and no backslash is not collected under its category |
| Pipeline.BackslashCategoryLost | script.py:172-185 | an article whose ASCII category has a backslash, and does not end on a lone one, is not collected under its category |
| Pipeline.BackslashDropped | script.py:172-174 | in a plain category, a backslash before a character is dropped by the reader, and a trailing backslash escapes the field's closing quote |
| Pipeline.FixedLinesFramed | script.py:113-114 | with every field's backslashes doubled, no field ends on a lone backslash and every row reads back with three fields |
| Pipeline.FixedLinesCollected | script.py:181-187 | with every field's backslashes doubled and one encoding on both sides, the collector collects under c the ids of the article rows linking into c and counts those linking into the explored categories |
| Pipeline.CorrectedRoundTrip | script.py:172-187 | the corrected hand-over is exact for every name: no field ends on a lone backslash, every row is read, and the collection is that of the article rows themselves |
| Extractor.CleanTextIsAscii | script.py:64-67 | the cleaned text holds only bytes below 128 and is no longer than the rewritten text; a rewritten text that is already ASCII is kept byte for byte |
| Extractor.FaultStops | script.py:254-261 | a single faulty element makes the whole export unprocessable |
| Extractor.SelectStep | script.py:254-261 | one more processable element appends its output and adds one to the count exactly when it is a selected page |
| Extractor.SelectPages | script.py:254-261 | the pass fails if and only if some element is a page without id, or a selected page without title or text; it fails at the first such element, keeping what was written before; otherwise it writes the outputs of all elements in order; the returned count is the number of pages written |
| Extractor.EmitStep | script.py:254-261 | one more element appends its own output to what was written |
| Extractor.PageCountStep | script.py:259 | writing a page adds one to the count; copying the namespace block adds nothing |
| Extractor.EmitConcat | script.py:254-262 | each element is treated on its own: the output of a concatenation is the concatenation of the outputs, so input order is kept |
| Extractor.PageCountConcat | script.py:259 | the page count of concatenated outputs is the sum of their counts |
| Extractor.EmitPageCount | script.py:255-259 | one page is written per selected page, duplicate ids each time |
| Extractor.EmittedFrom | script.py:254-261 | everything written is the output of some single element |
| Extractor.EmitOneEmitted | script.py:254-261 | the output of every single element is written |
| Extractor.EmittedExactly | script.py:254-261 | an item is written if and only if some element produces it |
| Extractor.PagesWrittenIffSelected | script.py:217-225 | every written page carries a target id; every selected page is written with its title normalised, its id unchanged and its text cleaned; every namespace block is copied |

## Findings

| source | as written | input that shows it | evidently intended | confidence | as-written member | corrected member |
|---|---|---|---|---|---|---|
| script.py:92-94 | the article file is written as UTF-8 here and read back as Latin-1 at script.py:172, so every character of 128 or more comes back as two to four other characters | an article row whose category is `Café` | the article is collected under `Café` | high, not executed | Pipeline.NonAsciiCategoryLost | Pipeline.CorrectedRoundTrip |
| script.py:113-114 | only the title's backslashes are doubled, yet the reader at script.py:174 takes '\' as escape character in every field | an article row whose category is `AC\DC`, or ends in '\' | the article is collected under its category as written | medium, not executed | Pipeline.BackslashCategoryLost, Pipeline.BackslashDropped | Pipeline.CorrectedRoundTrip |
| script.py:107-117 | `line[15]` raises `IndexError`, which `except IOError` does not catch, so one short row aborts the whole indexing pass | an article row followed by the row `["8"]` | the row is reported as "Skipped line" and the pass goes on | medium, not executed | SkippingIndexer.ShortRowAbortsPass | SkippingIndexer.ExtractIndexSkipping |

The lemmas about the built graph take any rows. So `Indexer.IndexIsClosed`,
`ShortestPaths.IndexedDepthsAreDistances` and the `Pipeline` lemmas hold for
the corrected pass with `CompleteRows(rows)` in place of `rows`.

## Left out

- File and path handling, the configuration constants and `main`'s caching of intermediate files (script.py:11-40, 273-322): filesystem plumbing. The model takes the rows and maps as parameters.
- CSV dialect sniffing, quoting and parsing (script.py:95-103, 173-178): rows are given already split, as `seq<seq<string>>`. How the article file is quoted is not modelled. `Pipeline.ReadField` models the file's encodings and the reader's backslash escape only.
- Pipeline.ReadRow: reads each written line as one row. After a field that ends on a lone backslash, the reader at script.py:174 folds the next line into the current row; the model does not describe that.
- Pipeline.ReadBackAppend: appends each written line as a row of its own. After a field that ends on a lone backslash, the source merges the next line into the current row instead.
- Pipeline.ReadBackReadable: holds for the line-by-line read-back. When some field ends on a lone backslash, the source's merged rows are not described.
- Pipeline.ReadBackCollected: states the collection of the line-by-line read-back. When a field ends on a lone backslash, the source merges rows, and the ids of the merged lines are not collected as stated. `Pipeline.ReadBackCollects` carries the requires under which the read-back is the source's.
- Pipeline.SingleArticleReadBack: reads the row's fields one by one. If its id or category ends on a lone backslash, the source reads the row differently, which is not described.
- Pipeline.ReadBackCollects: requires that no written field ends on a lone backslash. When one does, the real reader joins that row with the next line; describing that needs the CSV parser, which is not modelled. `Pipeline.BackslashDropped` shows that such fields exist.
- Pipeline.ReadField: the writer quotes every field and the sniffed dialect decides how quote characters are read back; fields holding '"' are read as if they held none.
- Pipeline.ReadField: the writer's escape character is a space (script.py:101). Whether the writer also escapes that character in field data depends on the Python version, so the model assumes it adds nothing.
- `save_as_csv`, `save_as_json` and the JSON reloads (script.py:70-84): serialisation I/O.
- lxml parsing and writing, XPath lookups, the element pruning that keeps memory bounded, and BZ2 compression (script.py:241-264). The export is given as a sequence of `Namespaces` and `Page` elements. A page's id, title and text are each `Absent`, `NoText` or `Text`. The output is a sequence of `SiteInfo` and `OutPage` items.
- The regular-expression substitutions of `clean_text` (script.py:50-54, 65-66): Python regex semantics. `Extractor.CleanText` takes them as a function parameter `rewrite` and applies the ASCII stage after it.
- Timing and printing (script.py:43-47 and the `print` calls): console and clock I/O. The collector's count at script.py:192 is only printed by the source; `Collector.CollectArticleIds` returns it so that it can be stated.
- Depths.CategoryDepths: the maximum depth is an integer. A float maximum such as infinity is not modelled.
- Depths.CategoryDepths: when some listed subcategories are not keys, the postcondition does not fix which categories are dropped and later rediscovered. That depends on same-depth pop order, which the loop does follow. The distance lemmas assume a closed graph, and the indexer's graph is always closed.
- Depths.CategoryDepths: the adjacency map is a plain map. When the graph comes straight from the indexer, the source's map is a `defaultdict`, where looking up a missing key inserts an empty list instead of raising `KeyError`. That graph is closed, so the two behave the same.
- Python dict iteration order in `getsubcats` and in the id union: the results are maps and sets that do not depend on it. The loops pick keys in any order.
- Python's memory for `.clear()` calls and the popped queue entry discarded at the depth check: not observable in any result.
