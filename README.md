# PubMed gene-pair article pipeline, modelled in Dafny

This project models the core of `app1.py`, a script with four parts:

- It builds PubMed search terms for every pair of gene symbols (`generate_pairs`).
- It flattens each fetched PubMed record into six strings (`parse_article`).
- It stores them in an SQLite `articles` table (`store_article`, `get_abstract_by_id`, `store_summary`).
- Finally it summarizes every non-blank abstract and writes the summary back (the last loop of `main`).

Modules, one per part of the program:

- `Wrappers`: `Option`, the model of a dictionary entry that may be absent (`d.get(key, default)` is `GetOr`).
- `Strings`: Python's `sep.join`, `str.split` (the inverse that pins down what a join produced) and `str.strip` with `str.isspace`'s whitespace set.
- `QueryBuilder`: `generate_pairs`. The iteration order of `set(genes)` is a parameter: any order that lists each distinct symbol once.
- `RecordParser`: `parse_article`, over a datatype of the record's parts. Each part read with `.get(..., default)` is an `Option`.
- `ArticleStore`: the `articles` table as a class. Its fields are the rows in id order, the next AUTOINCREMENT id, and whether the `summary` column exists.
- `Pipeline`: the ingest loop and the enrichment loop of `main`, as methods over an `ArticleTable`, each proved against a function of the old table.

## Model

| member | source | states |
|---|---|---|
| QueryBuilder.Dedup | app1.py:138 | gives an admissible `list(set(genes))`: every symbol of the input exactly once and nothing else |
| QueryBuilder.DistinctCardinality | app1.py:138 | a list without repetitions has as many distinct symbols as entries |
| QueryBuilder.Combinations2 | app1.py:140 | `combinations(l, 2)` has length n(n-1)/2 |
| QueryBuilder.CombinationsSound | app1.py:140 | every combination is `(l[i], l[j])` with `i < j` |
| QueryBuilder.CombinationsComplete | app1.py:140 | every `(l[i], l[j])` with `i < j` is a combination |
| QueryBuilder.CombinationsIrreflexive | app1.py:140 | on distinct symbols, no combination pairs a symbol with itself |
| QueryBuilder.CombinationsUnique | app1.py:140 | on distinct symbols, no unordered pair occurs at two positions |
| QueryBuilder.Format | app1.py:142 | the term for one pair; its shape is stated by FormatSplitsAfterFirst |
| QueryBuilder.FormatSplitsAfterFirst | app1.py:142 | the term is `a`, then exactly `" AND "`, then `b`, and nothing else |
| QueryBuilder.FormatNoSpaceBefore | app1.py:142 | a term has no space before the end of a space-free first symbol |
| QueryBuilder.FormatInjective | app1.py:142 | two terms are equal only for equal pairs, when the first symbols hold no space |
| QueryBuilder.GeneratePairs | app1.py:136-143 | there are C(n,2) terms for n distinct input symbols |
| QueryBuilder.GeneratePairsEntry | app1.py:136-143 | each term is `"a AND b"` for two different input symbols |
| QueryBuilder.GeneratePairsComplete | app1.py:136-143 | every pair of different input symbols has a term, in one orientation |
| QueryBuilder.SameNameSamePair | app1.py:142 | two terms naming the same pair `{a, b}` come from the same unordered pair, when first symbols hold no space |
| QueryBuilder.GeneratePairsOnce | app1.py:136-143 | with space-free symbols, no two positions name the same unordered pair |
| Strings.Join | app1.py:58 | `sep.join(parts)`; its layout is stated by JoinPartAt, JoinSepAfter and JoinLength, and its inverse by SplitJoin |
| Strings.JoinPartAt | app1.py:58 | in any join, part `k` sits at the total length of the parts before it, each followed by the separator |
| Strings.JoinSepAfter | app1.py:58 | in any join, every part but the last is followed by the separator |
| Strings.JoinLength | app1.py:58 | a join of at least one part ends exactly where its last part ends |
| Strings.Find | app1.py:58 | Python's `str.find`, used to invert the joins at lines 58, 62 and 73: the first occurrence of the separator at or after a position, or None when there is none |
| Strings.Split | app1.py:58 | Python's `str.split`, used as the inverse of the joins at lines 58, 62 and 73: it always returns at least one part |
| Strings.NoLeadNoMatch | app1.py:58 | for `str.split` as the inverse of the joins: a string without the separator's first character is not cut |
| Strings.FirstMatchAfter | app1.py:58 | for `str.split` as the inverse of the joins: in `p + sep + rest`, the first cut is right after `p` when `p` lacks `sep[0]` |
| Strings.SplitJoin | app1.py:58 | splitting a join gives the parts back when no part holds the separator's first character |
| Strings.JoinNonEmpty | app1.py:62 | a join with one non-empty part is non-empty |
| Strings.TrimStart | app1.py:171 | the leading half of `strip()`; stated by TrimStartSuffix |
| Strings.TrimEnd | app1.py:171 | the trailing half of `strip()`; stated by TrimEndPrefix |
| Strings.Strip | app1.py:171 | `abstract.strip()`; stated by StripEmptyIffBlank |
| Strings.TrimStartSuffix | app1.py:171 | `lstrip` keeps a suffix that does not start with whitespace and drops only whitespace |
| Strings.TrimEndPrefix | app1.py:171 | `rstrip` keeps a prefix that does not end with whitespace and drops only whitespace |
| Strings.StripEmptyIffBlank | app1.py:171 | `strip()` is empty exactly when every character is whitespace |
| RecordParser.ParseArticle | app1.py:50-75 | `parse_article`; its behaviour is stated by the lemmas below |
| RecordParser.ParseDefaults | app1.py:50-75 | a missing title, journal, abstract or keyword list gives `""`, and authors is `""` exactly when the author list is empty |
| RecordParser.ParseBareRecord | app1.py:50-75 | a record with only the required citation parses to six empty strings |
| RecordParser.AbstractLayout | app1.py:57-58 | for any segments, the abstract is the `AbstractText` segments in order, each but the last followed by one space, and nothing else |
| RecordParser.AbstractJoinsSegments | app1.py:57-58 | when no segment contains a space, splitting the abstract on spaces gives the segments back |
| RecordParser.AuthorsJoinNames | app1.py:61-62 | the authors field is each `ForeName + " " + LastName`, in order, joined by `", "` |
| RecordParser.YearRules | app1.py:68-69 | the year is a dictionary date's `Year` or `""`, a raw date's own text, or `""` when the date is missing |
| RecordParser.KeywordsJoinFirstGroup | app1.py:72-73 | the keywords field is the first keyword group joined by `", "` |
| RecordParser.KeywordsIgnoreLaterGroups | app1.py:73 | keyword groups after the first do not affect the result |
| RecordParser.KeywordsFromTopLevelOnly | app1.py:72 | `KeywordList` is read from the record itself; the citation's contents do not affect the keywords |
| ArticleStore.FindAbstract | app1.py:86-93 | None exactly when no row has the id; otherwise the abstract of a row with that id |
| ArticleStore.SetSummary | app1.py:118-119 | rows with the id get the summary; every other row is unchanged |
| ArticleStore.LookupInserted | app1.py:78-93 | after an insert under a fresh id, looking up that id gives the new abstract |
| ArticleStore.LookupOthersUnchanged | app1.py:78-93 | an insert leaves the lookup of every other id as it was |
| ArticleStore.SetSummaryIdempotent | app1.py:107-121 | storing the same summary twice equals storing it once |
| ArticleStore.SetSummaryAt | app1.py:107-121 | with unique ids, updating row `k`'s id rewrites only row `k`'s summary |
| ArticleStore.ArticleTable.constructor | app1.py:31-48 | an empty table, ids starting at 1 |
| ArticleStore.ArticleTable.StoreArticle | app1.py:78-84 | appends one row under the next id with a NULL summary; ids stay unique and increasing |
| ArticleStore.ArticleTable.GetAbstractById | app1.py:86-93 | the abstract of the row with the id, or None when no row has it |
| ArticleStore.ArticleTable.StoreSummary | app1.py:107-121 | adds the column if missing, sets the summary of the row with the id, and changes no other row |
| Pipeline.RowOf | app1.py:81-82 | the row `store_article` inserts for one parsed record and its term |
| Pipeline.ParseAll | app1.py:161-162 | one parsed record per input record |
| Pipeline.ParseAllAt | app1.py:161-162 | entry `k` is the parse of record `k` |
| Pipeline.IngestedRowsKeepIds | app1.py:78-84 | rows appended under consecutive ids from the next id keep the ids unique, increasing and below the new next id |
| Pipeline.StorePapersStep | app1.py:161-163 | storing record `i` extends the rows of records before it by its own row |
| Pipeline.StorePapers | app1.py:161-163 | the table gains exactly the ingested rows of the batch, in order, under consecutive ids |
| Pipeline.ParseBatches | app1.py:156-163 | one parsed batch per term |
| Pipeline.ParseBatchesAt | app1.py:156-163 | batch `t` is the parse of term `t`'s records |
| Pipeline.SearchPhaseRows | app1.py:156-163 | the rows the ingest loop stores; stated by SearchPhaseRowsTagged and SearchPhase |
| Pipeline.SearchPhaseStep | app1.py:156-163 | storing term `t`'s batch moves its rows from those still to come to those stored |
| Pipeline.SearchPhase | app1.py:156-163 | the table gains every term's rows, term after term, under consecutive ids |
| Pipeline.SearchPhaseRowsTagged | app1.py:156-163 | one row per fetched record, each tagged with one of the terms and without a summary |
| Pipeline.Blank | app1.py:171 | `not abstract.strip()`; stated by StripEmptyIffBlank |
| Pipeline.AnyNonBlankStep | app1.py:169-175 | extending the rows by one adds that row's test to "some abstract is non-blank" |
| Pipeline.AnyNonBlankExists | app1.py:169-175 | the pass stores a summary exactly when some abstract is non-blank |
| Pipeline.EnrichRow | app1.py:171-175 | what the loop does to one row; stated by EnrichedSummaries |
| Pipeline.Enriched | app1.py:166-177 | the pass keeps the number of rows |
| Pipeline.EnrichedAt | app1.py:169-175 | the pass treats each row on its own |
| Pipeline.EnrichStep | app1.py:169-175 | handling row `i` extends the enriched prefix by that row |
| Pipeline.EnrichAt | app1.py:170-175 | a blank abstract is skipped; otherwise its summary is stored under its id |
| Pipeline.Enrich | app1.py:166-177 | the table becomes the enriched rows; the column exists afterwards when some abstract was non-blank |
| Pipeline.EnrichedSummaries | app1.py:170-175 | blank rows are unchanged; every other row gets the summary of its own abstract and nothing else changes |
| Pipeline.FreshRowsSummarizedIffNonBlank | app1.py:170-175 | a row without a summary gets one exactly when its abstract has a non-whitespace character |
| Pipeline.EnrichAgainOverwrites | app1.py:166-177 | a second pass with a summarizer `g` gives the same table as one pass with `g`: its summaries replace the first pass's; with the same summarizer the pass is idempotent |
| Pipeline.Run | app1.py:145-177 | the table becomes the enriched old rows plus every term's ingested rows; the next id moves past the stored rows; the column exists afterwards when it already did or some abstract was non-blank |
| Pipeline.RunStoredRows | app1.py:145-177 | each row the run stores carries one of the terms and has a summary exactly when its abstract has a non-whitespace character |

## Left out

- `search_pubmed` and `fetch_details` call the network. The records each term's search and fetch return are an input of `SearchPhase` and `Run`, one batch per term. An empty result stands for "no ids found" (`if id_list:` then fetches nothing).
- `summarize_abstract` calls a language model. It is an arbitrary function `summarize` of the abstract that always returns a string. The client's `message.content` can be `None`, and `store_summary` then writes NULL. `Pipeline.FreshRowsSummarizedIffNonBlank` and `Pipeline.RunStoredRows` do not cover that case. Within one pass `summarize` is one fixed function, whereas the model answers at temperature 0.4 and may summarize two equal abstracts differently. Across two passes the summarizers may differ (`EnrichAgainOverwrites`).
- `Run` does not return the search results. The SQLite connections and commits, the dotenv and Entrez setup, the `pandas` import and the progress `print` are not modelled.
- `process_genes` is never called and is not modelled. It differs from `main`'s ingest loop: it has no `if id_list:` guard, so a gene without hits gets `[]` from `fetch_details` and `papers['PubmedArticle']` raises `TypeError`. `SearchPhase` stores nothing in that case.
- `main`'s hard-coded gene list, date range and database path are not modelled. `Run` takes the genes as a parameter. `Run` starts from any valid table, since `CREATE TABLE IF NOT EXISTS` leaves an existing table as it is.
- `get_abstract_by_id` builds its SQL by string interpolation. It is modelled as a lookup by integer id, so a non-integer `article_id` (an injection or a syntax error) is not modelled.
- The table is held as rows in id order, as the enrichment loop's `SELECT` without `ORDER BY` reads them for a rowid table. Deleted rows and other writers are not modelled.
- The model omits the `summary` column as an SQL schema feature. A table without it (`summaryColumn` false) still carries NULL summaries in the model, and `store_summary`'s `ALTER TABLE` only sets the flag.
- `RecordParser.ParseArticle`: the types exclude a record without `MedlineCitation`, `Article`, `ForeName` or `LastName`, on which the source raises `KeyError`. The types also exclude an `AbstractText`, keyword group or `KeywordList` that is not a sequence of strings.
- `RecordParser.YearRules`: a non-dictionary `PubDate` is modelled by its text; how Python's `str()` renders it is not modelled.
- `QueryBuilder.GeneratePairsOnce` needs space-free gene symbols. Without that, `"x AND" AND "y"` and `"x" AND "AND y"` give the same term.
- `Strings.SplitJoin`, `RecordParser.AbstractJoinsSegments`, `RecordParser.AuthorsJoinNames` and `RecordParser.KeywordsJoinFirstGroup` state the split round trip only for parts without the separator's first character. A part containing it would be cut again. For the abstract, `RecordParser.AbstractLayout` states the join for every segment; for authors and keywords, only names and keywords without a comma are covered.
