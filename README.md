# Poetry archive metadata pipeline, in Dafny

This project models the metadata pipeline at the top of `build.js`, the
static-site generator of a poetry archive, and proves what the pipeline
promises about the poems it hands to the page template.

- **Flattening** (`Flatten`, flatten.dfy). A mapping from source-image key to
  poem records becomes one flat list. A record is kept only when its content
  is non-blank after trimming, and the kept records are numbered 1, 2, ... in
  input order. `FlattenPoems` is the loop that does this.
- **Topic tagging** (`Tagging`, tagging.dfy). The keyword table holds 32
  topics. `TagPoem` has the nested scan with its early exit (`ScanKeywords`).
  A keyword of at most four characters must match as a whole word (a
  hand-written `\b` check). A longer keyword matches as a substring.
- **Year parsing** (`Years`, years.dfy; `Decimal`, decimal.dfy).
  `ParseYear` takes the first run of four digits. Failing that, it takes a
  trailing `d[-/]dd` read with a century pivot at 50.
- **Preview** (`Preview`, preview.dfy). `GetPreview` takes the trimmed first
  line, cut to 80 characters with a trailing `...`.
- **Enrichment** (`Enrichment`, enrich.dfy). The map adds tags, parsed year,
  preview and the slug `poem-<id>`, then the filter keeps poems with text.
- **Year sort** (`YearSort`, enrich.dfy). `SortPoemsByYear` sorts the array
  in place, stably: poems with a year come first, years ascending. It is
  proved equal to an insertion-sort specification. That specification is
  proved to be a permutation, ordered and stable.
- **Facets** (`Facets`, facets.dfy). The distinct truthy years and the
  distinct tags, each sorted by the default `Array.prototype.sort`, which
  compares string forms (`StringOrder`, order.dfy).
- **Image assignment** (`Images`, images.dfy). The `forEach` that sets every
  poem's decorative image to its source image.
- **`escapeHtml`** (`Escape`, escape.dfy). The four global replacements,
  proved equal to a one-pass escape of each character and inverted by an
  unescaper.
- **The stages in order** (`Pipeline`, pipeline.dfy).

Shared helpers live in `Wrappers` and `Text` (text.dfy) and `Seqs`
(seqs.dfy).

Three behaviours of build.js that the model keeps:

- The years facet is sorted with the default `sort()`, so by decimal string,
  not numerically. `Decimal.WidthBreaksNumericOrder` shows where the two
  differ. `Facets.YearFacetNumeric` shows they agree when every year has four
  digits.
- A year string "0000" parses to 0. That value is falsy, so the sort and the
  years facet treat it as no year (`YearSort.HasYear`).
- A record whose content is missing is skipped, not rejected.

## Model

| member | source | states |
|---|---|---|
| Flatten.Entries | build.js:10-11 | `Object.entries` walked key by key, each record of a key's list paired with the key, in list order |
| Flatten.HasText | build.js:12 | the guard `poem.content && poem.content.trim()`: content present and not blank |
| Flatten.Kept | build.js:12 | the visited pairs whose record passes the guard, in visiting order |
| Flatten.Numbered | build.js:13-17 | the pushed object: the record's fields, `sourceImage` set to the key, and the given id |
| Flatten.FlattenPoems | build.js:10-20 | the flat list is exactly the records with non-blank trimmed content, in key-then-list order, the i-th (from 0) carrying its record's fields, its image key and id i + 1 |
| Flatten.FlatListFacts | build.js:12-16 | on the flat list the ids run 1..N in order and no content is blank |
| Flatten.EntriesMembers | build.js:10-11 | a (key, record) pair is visited exactly when the key's list holds that record |
| Flatten.KeptMembers | build.js:12 | the filter keeps exactly the visited records that have text |
| Flatten.KeptInOrder | build.js:10-19 | the kept records keep the visiting order (a subsequence) |
| Text.ToLower | build.js:78 | `toLowerCase` on ASCII: same length, A-Z mapped to a-z, every other character kept |
| Text.FirstLine | build.js:115 | `split('\n')[0]`: the content up to its first line feed |
| Text.Trim | build.js:12 | trim removes a maximal run of whitespace at each end: what it returns neither begins nor ends with whitespace and everything it drops is whitespace |
| Text.TrimEmptyIffBlank | build.js:12 | `content.trim()` is empty exactly when the content is all whitespace |
| Text.LineEnd | build.js:115 | `split('\n')[0]` ends at the first line break, or at the end when there is none |
| Tagging.TitleText | build.js:78 | a missing title reads "undefined" in the concatenation |
| Tagging.SearchText | build.js:78 | the lower-cased `title + ' ' + content` that tagging searches |
| Tagging.KeywordMatches | build.js:84-90 | a keyword of at most four characters matches as a whole word, a longer one as a substring |
| Tagging.TopicMatches | build.js:81-93 | some keyword of the topic matches |
| Tagging.Topics | build.js:77-98 | the topics of a table that match the text, each once, in table order |
| Tagging.Contains | build.js:90 | `includes` holds exactly when the keyword occurs at some position |
| Tagging.HasWholeWord | build.js:84-86 | the `\b`-keyword-`\b` test holds exactly when the keyword occurs with a word boundary on both sides |
| Tagging.ScanKeywords | build.js:81-93 | the keyword scan reports a hit exactly when some keyword of the topic matches under the short/long rule |
| Tagging.TagPoem | build.js:77-98 | the tags are the table's topics that match the lower-cased `title + ' ' + content`, listed in table order where each first matches |
| Tagging.TopicsMembers | build.js:80-93 | no topic is listed twice, and a topic is listed exactly when one of its keywords matches |
| Tagging.TopicsUpToMembers | build.js:80-93 | after the first n topics, a topic is listed exactly when it is among them and matches |
| Tagging.TopicsNoDup | build.js:87-91 | the `includes` check keeps the tag list free of duplicates |
| Tagging.TopicsInTableOrder | build.js:80 | the tags are a subsequence of the table's topic names, in declaration order |
| Tagging.KeywordMatchExamples | build.js:84-90 | the table's "mom" matches in "for mom." but not inside "a moment"; "saviour" matches in "my saviour lives" and "frustrat" inside "frustration" |
| Tagging.SaviourTagsChrist | build.js:39-98 | with the source's 32-topic table (`Tagging.TopicKeywords`), "my saviour lives" is tagged "christ" |
| Years.FindFourDigits | build.js:103 | finds the leftmost position holding four digits, or reports that there is none |
| Years.CenturyPivot | build.js:108 | two-digit years above 50 land in 1951..1999, the others in 2000..2050, keeping the last two digits |
| Years.ParseYear | build.js:101-111 | absent or empty gives null; else the value of the first four-digit run; else a trailing short date through the pivot; else null; every result is at most 9999 and a short-date result lies in 1951..2050 |
| Years.ParseYearRoundTrip | build.js:103-104 | a year in 1000..9999, written out, is read back unchanged |
| Years.ParseYearPlainExamples | build.js:102-104 | "1978" gives 1978; "" and a missing year give null |
| Years.ParseYearShortDateExamples | build.js:105-109 | "3-78" gives 1978 and "5/12" gives 2012 |
| Years.ShortDateExample | build.js:105-109 | any four-character short date d[-/]ab is read as the pivot of ab |
| Decimal.DecimalValue | build.js:104 | `parseInt` of n digits is below 10 to the n |
| Decimal.DecimalString | build.js:129 | `String(n)` is a non-empty digit string, of two or more digits exactly when n >= 10 |
| Decimal.DecimalRoundTrip | build.js:104 | `parseInt(String(n)) == n` |
| Decimal.DecimalInjective | build.js:129 | different numbers have different decimal strings |
| Decimal.FourDigitWidth | build.js:142 | a number has four digits exactly when it lies in 1000..9999 |
| Decimal.SameWidthOrder | build.js:142 | for numbers of equal width, string order is numeric order, both ways |
| Decimal.WidthBreaksNumericOrder | build.js:142 | "1000" sorts before "999" although 999 < 1000 |
| StringOrder.StrLess | build.js:142-143 | the order of the default `sort()`: the first differing character decides, and a proper prefix comes first |
| StringOrder.StrLessIrreflexive | build.js:142-143 | the default sort order never puts a string before itself |
| StringOrder.StrLessTransitive | build.js:142-143 | the default sort order is transitive |
| StringOrder.StrLessTotal | build.js:142-143 | of two different strings, one sorts before the other |
| Preview.GetPreview | build.js:114-118 | with L the trimmed first line: L when it fits in maxLen, else maxLen characters of L then "...", maxLen + 3 long |
| Preview.PreviewFromFirstLine | build.js:115-117 | the preview is a verbatim slice of the first line of the content, followed by "..." when cut |
| Preview.TrimmedLineSlice | build.js:115 | the trimmed first line is a slice of the content that lies inside the first line |
| Preview.PreviewEmptyIffBlank | build.js:115-117 | the preview is empty exactly when the first line is blank, and never longer than maxLen + 3 |
| Preview.PreviewSingleLine | build.js:115-117 | the preview holds no line break |
| Enrichment.Slug | build.js:129 | the slug `poem-${id}`: "poem-" followed by the decimal id |
| Enrichment.Enrich | build.js:121-130 | the map callback: the poem's fields, its tags from the table, its parsed year, its 80-character preview, its slug, and no decorative image yet |
| Enrichment.HasBody | build.js:131 | the filter's test: content not blank |
| Enrichment.EnrichAll | build.js:121-131 | `processedPoems` before the sort: every poem enriched, then the poems without text dropped |
| Enrichment.SlugInjective | build.js:129 | different ids give different slugs |
| Enrichment.EnrichEach | build.js:121-130 | the map keeps the length and enriches the i-th poem in place |
| Enrichment.EnrichFlatList | build.js:121-131 | on the flat list the filter removes nothing, and the i-th enriched poem has id i + 1, slug `poem-(i+1)` and non-blank content |
| Enrichment.EnrichEachIds | build.js:125-129 | enriching keeps ids 1..N in place and makes each slug from its id |
| Enrichment.EnrichEachBodies | build.js:125 | enriching keeps every content non-blank |
| Enrichment.EnrichKeepsIdentity | build.js:124-129 | an enriched poem has the content and id of its poem and the slug of that id |
| Enrichment.EnrichKeepsAll | build.js:131 | when every poem has text the filter after the map keeps everything |
| YearSort.HasYear | build.js:135-137 | a poem's year is truthy: present and not 0 |
| YearSort.Compare | build.js:134-139 | the comparator: 0 when neither has a year, a poem without a year after one with a year, otherwise the difference of the years |
| YearSort.Insert | build.js:134-139 | one step of a stable insertion: x goes after the last element that does not compare after it |
| YearSort.SortByYear | build.js:134-139 | the stable sort under the comparator, element by element in input order |
| YearSort.CompareConsistent | build.js:134-139 | the comparator is antisymmetric, reflexive-zero and transitive for "not after" and for ties |
| YearSort.InsertInto | build.js:134-139 | one step of the in-place sort: the prefix up to i becomes the ordered insertion of a[i], and the rest is unchanged |
| YearSort.SortPoemsByYear | build.js:134-139 | the array afterwards is the stable sort of its old contents under the comparator |
| YearSort.InsertAt | build.js:134-139 | the insertion puts the element after the last one not comparing after it |
| YearSort.InsertSplit | build.js:134-139 | there is such an insertion point, and insertion only shifts the elements after it |
| YearSort.InsertPermutes | build.js:134-139 | insertion adds the element and nothing else |
| YearSort.SortByYearPermutes | build.js:134-139 | the sort is a permutation, so every poem, with its id, slug, tags and preview, is kept |
| YearSort.InsertOrdered | build.js:134-139 | inserting into an ordered list keeps it ordered |
| YearSort.SortByYearOrdered | build.js:134-139 | neighbours of the result are in comparator order |
| YearSort.YearOrderedMeaning | build.js:135-138 | in an ordered list poems with a year precede those without, and present years do not decrease |
| YearSort.InsertStable | build.js:134-139 | insertion appends the element to the end of its own tie class and leaves other classes alone |
| YearSort.SortByYearStable | build.js:134-139 | within every tie class the sort keeps the input order |
| YearSort.RankClassIds | build.js:134-139 | a tie class of a list with increasing ids has increasing ids |
| YearSort.SortKeepsIdOrderOfTies | build.js:134-139 | poems of equal year, and poems without a year, keep increasing id order through the sort |
| Images.Decorated | build.js:147 | the decorative image is the poem's source image |
| Images.DecorateAll | build.js:146-148 | every poem decorated, in place |
| Images.AssignDecorativeImages | build.js:146-148 | the in-place `forEach` leaves exactly the decorated list in the array |
| Images.DecorationKeepsOrder | build.js:146-148 | decorating keeps the year order and changes no field but the decorative image |
| Facets.Dedup | build.js:142-143 | `[...new Set(s)]`: every element at its first occurrence, in first-occurrence order |
| Facets.InsertBy | build.js:142-143 | one step of the default sort: x goes after the last element whose string form does not sort after its own |
| Facets.SortBy | build.js:142-143 | the default sort, comparing the elements' string forms |
| Facets.TruthyYears | build.js:142 | `map(p => p.parsedYear).filter(Boolean)`, in poem order |
| Facets.AllTagsOf | build.js:143 | `flatMap(p => p.tags)`, in poem order |
| Facets.YearFacet | build.js:142 | `years`: the distinct truthy years, sorted as strings |
| Facets.TagFacet | build.js:143 | `allTags`: the distinct tags of all poems, sorted as strings |
| Facets.DedupFacts | build.js:142-143 | `[...new Set(s)]` has no duplicates and the same members as s |
| Facets.InsertByPermutes | build.js:142-143 | inserting by key adds the element and nothing else |
| Facets.SortByPermutes | build.js:142-143 | the default sort is a permutation |
| Facets.InsertBySorted | build.js:142-143 | inserting a new key into a strictly sorted list keeps it strictly sorted |
| Facets.SortBySorted | build.js:142-143 | sorting elements with distinct keys gives strictly increasing keys |
| Facets.StrictlySortedPairs | build.js:142-143 | in a strictly sorted list every earlier key sorts before every later one |
| Facets.TruthyYearsMembers | build.js:142 | `map(parsedYear).filter(Boolean)` holds exactly the present non-zero years |
| Facets.AllTagsMembers | build.js:143 | `flatMap(tags)` holds exactly the tags some poem has |
| Facets.DistinctYearKeys | build.js:142 | distinct years have distinct decimal strings |
| Facets.YearFacetFacts | build.js:142 | `years` is strictly increasing in decimal-string order, has no duplicates, and holds exactly the truthy years |
| Facets.YearFacetNumeric | build.js:142 | when all years have four digits, `years` is strictly increasing numerically |
| Facets.TagFacetFacts | build.js:143 | `allTags` is strictly increasing (so duplicate-free) and is exactly the union of all poems' tags |
| Escape.ReplaceAll | build.js:157-160 | `s.replace(/c/g, rep)`: every c replaced by rep, every other character kept, in order |
| Escape.EscapeHtml | build.js:155-161 | escapeHtml: the four global replacements, `&` first, then `<`, `>` and `"` |
| Escape.EscapeChar | build.js:157-160 | the entity of one of the four characters, or the character itself |
| Escape.EscapeEach | build.js:155-161 | every character replaced by its entity in one left-to-right pass |
| Escape.ReplaceAllAppend | build.js:157-160 | a global replacement distributes over concatenation |
| Escape.ReplaceAllAbsent | build.js:157-160 | a replacement changes nothing when the character is absent |
| Escape.ReplaceAllChars | build.js:157-160 | after a replacement no replaced character remains, and no new character appears beyond those of the replacement |
| Escape.EscapeHtmlChar | build.js:155-161 | on one character, the four passes give its entity, or the character itself |
| Escape.AmpersandEntityKept | build.js:157-160 | the `&amp;` inserted first passes the later three replacements unchanged |
| Escape.EscapeAmpersand | build.js:157 | `&` becomes `&amp;` and is not escaped again |
| Escape.EscapeLessThan | build.js:158 | `<` becomes `&lt;` |
| Escape.EscapeGreaterThan | build.js:159 | `>` becomes `&gt;` |
| Escape.EscapeQuote | build.js:160 | `"` becomes `&quot;` |
| Escape.EscapeHtmlIsEscapeEach | build.js:155-161 | the four passes escape every character exactly once, left to right |
| Escape.EscapeHtmlSafe | build.js:155-161 | the output holds no raw `<`, `>` or `"` |
| Escape.EscapeHtmlRoundTrip | build.js:155-161 | unescaping the output gives the input back, so nothing is lost or escaped twice |
| Escape.EscapeEachRoundTrip | build.js:155-161 | the one-pass escape is undone by the unescaper |
| Pipeline.ProcessPoems | build.js:10-148 | `processedPoems` before the page is written: the flat list, enriched, sorted by year and decorated, as long as the flat list and in year order; `years` and `allTags` are the facets of the sorted list |
| Pipeline.SortAndDecorate | build.js:134-148 | sorting in place, taking the two facets of the sorted list, then decorating in place: the array ends as the decorated stable sort, in year order |
| Pipeline.DecoratedSortFacts | build.js:134-148 | sorting and decorating keep the number of poems and give year order |

## Left out

- Reading `poems.json`, listing the graphics and book image directories, creating the output directory and writing the page are file-system I/O. The model starts from the parsed mapping, as a sequence of (key, records) pairs in `Object.entries` order.
- The CSS/HTML template, `JSON.stringify` of the payload, and the `'Untitled'` default it applies to titles are presentation, with nothing to verify.
- The browser script embedded in the page is UI code over DOM state: its search, filter, random poem, modal navigation and its own DOM-based escaping.
- `toLowerCase` and `trim` are modelled on ASCII: A-Z lower-casing, and space, tab, line feed, vertical tab, form feed and carriage return as whitespace. Unicode case mapping and JavaScript's wider whitespace class are left out.
- JavaScript strings are sequences of UTF-16 code units; the model's strings are sequences of characters. This changes three things for text outside the Basic Multilingual Plane. The default sort compares code units, while `StringOrder.StrLess` compares characters. `firstLine.length` and `substring(0, maxLen)` in getPreview count code units, so the source cuts such a first line at a different place from `Preview.GetPreview`, and can even split a surrogate pair. Both agree on text without surrogate pairs.
- Regular expressions are not modelled in general. Only the patterns used are written by hand: `\b` + keyword + `\b` (every short keyword of the table is plain letters), `(\d{4})`, and `(\d{1,2})[-\/](\d{2})$`.
- `parseInt` is modelled only on digit strings, the only input it receives here.
- Tagging.TagPoem: takes its topic table as a parameter. The 32-topic table of the source is the constant `Tagging.TopicKeywords`, transcribed in declaration order, and `TagPoem(TopicKeywords, ...)` is the script's call. No lemma evaluates tagging on that full table.
- Enrichment.EnrichFlatList: also takes the topic table as a parameter, for the same reason.
- Poem objects are modelled as values. The sort moves whole records in an array, and `forEach` replaces each record by its decorated copy, so aliasing between records is not modelled.
- Array.prototype.sort is specified as insertion sort. Any stable sort gives the same result under a consistent comparator (`YearSort.CompareConsistent`), but that uniqueness is not proved.
- `escapeHtml` is defined in the build script but never called there. It is modelled on its own, and `Pipeline` does not use it.
