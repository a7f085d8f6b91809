/**
 * The two phases of `main`: store every fetched record under the search term
 * that found it, then summarize every stored abstract that is not blank.
 * The PubMed search and fetch are outside the model (their results are
 * inputs) and `summarize_abstract` is an arbitrary function of the abstract.
 */
module Pipeline {
  import opened Wrappers
  import opened Strings
  import opened QueryBuilder
  import opened RecordParser
  import opened ArticleStore

  /** The row `store_article` inserts for a parsed record found by `term`. */
  function RowOf(id: int, term: string, p: Parsed): Row {
    Row(id, term, p.title, p.abstractText, p.authors, p.journal, p.year, p.keywords, None)
  }

  /** `parse_article` applied to each record in turn. */
  function ParseAll(papers: seq<Record>): (r: seq<Parsed>)
    ensures |r| == |papers|
  {
    if |papers| == 0 then []
    else ParseAll(papers[..|papers| - 1]) + [ParseArticle(papers[|papers| - 1])]
  }

  lemma {:induction false} ParseAllAt(papers: seq<Record>, k: nat)
    requires k < |papers|
    ensures ParseAll(papers)[k] == ParseArticle(papers[k])
  {
    var n := |papers| - 1;
    if k < n {
      ParseAllAt(papers[..n], k);
    }
  }

  /** The rows stored for the parsed records, numbered from `firstId`. */
  function IngestedRows(firstId: int, term: string, parsed: seq<Parsed>): (r: seq<Row>)
    ensures |r| == |parsed|
    ensures forall k :: 0 <= k < |r| ==> r[k] == RowOf(firstId + k, term, parsed[k])
  {
    seq(|parsed|, k requires 0 <= k < |parsed| => RowOf(firstId + k, term, parsed[k]))
  }

  /** Rows stored under consecutive fresh ids keep the table's ids increasing and below the next id. */
  lemma IngestedRowsKeepIds(base: seq<Row>, firstId: int, term: string, parsed: seq<Parsed>)
    requires firstId >= 1 && IdsIncreasing(base) && IdsBelow(base, firstId)
    ensures IdsIncreasing(base + IngestedRows(firstId, term, parsed))
    ensures IdsBelow(base + IngestedRows(firstId, term, parsed), firstId + |parsed|)
  {
    var all := base + IngestedRows(firstId, term, parsed);
    forall i | 0 <= i < |all| ensures (i < |base| ==> all[i].id == base[i].id) && (i >= |base| ==> all[i].id == firstId + i - |base|) {
    }
  }

  /** Storing record `i` appends its row to those of the records before it. */
  lemma StorePapersStep(base: seq<Row>, before: seq<Row>, after: seq<Row>,
                        firstId: int, term: string, papers: seq<Record>, i: nat)
    requires i < |papers|
    requires before == base + IngestedRows(firstId, term, ParseAll(papers[..i]))
    requires after == before + [RowOf(firstId + i, term, ParseArticle(papers[i]))]
    ensures after == base + IngestedRows(firstId, term, ParseAll(papers[..i + 1]))
  {
    var parsed := ParseAll(papers[..i]);
    var row := RowOf(firstId + i, term, ParseArticle(papers[i]));
    assert papers[..i + 1][..i] == papers[..i];
    assert ParseAll(papers[..i + 1]) == parsed + [ParseArticle(papers[i])];
    assert IngestedRows(firstId, term, parsed + [ParseArticle(papers[i])]) == IngestedRows(firstId, term, parsed) + [row];
    assert (base + IngestedRows(firstId, term, parsed)) + [row] == base + (IngestedRows(firstId, term, parsed) + [row]);
  }

  /** Lines 161-163 of `main`: parse each fetched record and store it tagged with its term. */
  method StorePapers(table: ArticleTable, term: string, papers: seq<Record>)
    requires table.Valid()
    modifies table
    ensures table.Valid()
    ensures table.rows == old(table.rows) + IngestedRows(old(table.nextId), term, ParseAll(papers))
    ensures table.nextId == old(table.nextId) + |papers|
    ensures table.summaryColumn == old(table.summaryColumn)
  {
    var i := 0;
    while i < |papers|
      invariant 0 <= i <= |papers|
      invariant table.Valid()
      invariant table.rows == old(table.rows) + IngestedRows(old(table.nextId), term, ParseAll(papers[..i]))
      invariant table.nextId == old(table.nextId) + i
      invariant table.summaryColumn == old(table.summaryColumn)
    {
      ghost var before := table.rows;
      var p := ParseArticle(papers[i]);
      table.StoreArticle(term, p.title, p.abstractText, p.authors, p.journal, p.year, p.keywords);
      StorePapersStep(old(table.rows), before, table.rows, old(table.nextId), term, papers, i);
      i := i + 1;
    }
    assert papers[..i] == papers;
  }

  /** `parse_article` applied to every record of every term's batch. */
  function ParseBatches(results: seq<seq<Record>>): (r: seq<seq<Parsed>>)
    ensures |r| == |results|
  {
    if |results| == 0 then [] else [ParseAll(results[0])] + ParseBatches(results[1..])
  }

  lemma {:induction false} ParseBatchesAt(results: seq<seq<Record>>, t: nat)
    requires t < |results|
    ensures ParseBatches(results)[t] == ParseAll(results[t])
  {
    if t > 0 {
      ParseBatchesAt(results[1..], t - 1);
    }
  }

  /** How many records all terms together return. */
  function TotalPapers<T>(batches: seq<seq<T>>): nat {
    if |batches| == 0 then 0 else |batches[0]| + TotalPapers(batches[1..])
  }

  /** The rows the search phase stores: each term's parsed records in turn, ids counting on from `firstId`. */
  function SearchPhaseRows(firstId: int, terms: seq<string>, batches: seq<seq<Parsed>>): seq<Row>
    requires |terms| == |batches|
    decreases |terms|
  {
    if |terms| == 0 then []
    else IngestedRows(firstId, terms[0], batches[0])
         + SearchPhaseRows(firstId + |batches[0]|, terms[1..], batches[1..])
  }

  /**
   * Storing the batch of term `t` moves its rows from what is still to come
   * to what is stored.
   */
  lemma SearchPhaseStep(all: seq<Row>, before: seq<Row>, after: seq<Row>, id: int,
                        terms: seq<string>, batches: seq<seq<Parsed>>, t: nat)
    requires |terms| == |batches| && t < |terms|
    requires all == before + SearchPhaseRows(id, terms[t..], batches[t..])
    requires after == before + IngestedRows(id, terms[t], batches[t])
    ensures all == after + SearchPhaseRows(id + |batches[t]|, terms[t + 1..], batches[t + 1..])
  {
    assert terms[t..][1..] == terms[t + 1..] && batches[t..][1..] == batches[t + 1..];
    var added := IngestedRows(id, terms[t], batches[t]);
    var later := SearchPhaseRows(id + |batches[t]|, terms[t + 1..], batches[t + 1..]);
    assert SearchPhaseRows(id, terms[t..], batches[t..]) == added + later;
    assert before + (added + later) == (before + added) + later;
  }

  /**
   * Lines 156-163 of `main`: for each term, the records its search and fetch
   * returned (`results[t]`, empty when the search found no ids, in which case
   * nothing is fetched) are parsed and stored under that term.
   */
  method SearchPhase(table: ArticleTable, terms: seq<string>, results: seq<seq<Record>>)
    requires table.Valid()
    requires |terms| == |results|
    modifies table
    ensures table.Valid()
    ensures table.rows == old(table.rows) + SearchPhaseRows(old(table.nextId), terms, ParseBatches(results))
    ensures table.nextId == old(table.nextId) + |SearchPhaseRows(old(table.nextId), terms, ParseBatches(results))|
    ensures table.summaryColumn == old(table.summaryColumn)
  {
    ghost var batches := ParseBatches(results);
    ghost var all := old(table.rows) + SearchPhaseRows(old(table.nextId), terms, batches);
    var t := 0;
    while t < |terms|
      invariant 0 <= t <= |terms|
      invariant table.Valid()
      invariant all == table.rows + SearchPhaseRows(table.nextId, terms[t..], batches[t..])
      invariant table.nextId - old(table.nextId) == |table.rows| - |old(table.rows)|
      invariant table.summaryColumn == old(table.summaryColumn)
    {
      ghost var before := table.rows;
      ghost var id := table.nextId;
      ParseBatchesAt(results, t);
      StorePapers(table, terms[t], results[t]);
      assert table.nextId == id + |batches[t]|;
      SearchPhaseStep(all, before, table.rows, id, terms, batches, t);
      t := t + 1;
    }
    assert terms[t..] == [] && batches[t..] == [];
  }

  /** Every row the search phase stores carries one of the terms and has no summary yet. */
  lemma {:induction false} SearchPhaseRowsTagged(firstId: int, terms: seq<string>, batches: seq<seq<Parsed>>)
    requires |terms| == |batches|
    ensures |SearchPhaseRows(firstId, terms, batches)| == TotalPapers(batches)
    ensures forall k :: 0 <= k < |SearchPhaseRows(firstId, terms, batches)| ==>
              SearchPhaseRows(firstId, terms, batches)[k].gene in terms &&
              SearchPhaseRows(firstId, terms, batches)[k].summary == None
    decreases |terms|
  {
    if |terms| > 0 {
      SearchPhaseRowsTagged(firstId + |batches[0]|, terms[1..], batches[1..]);
    }
  }

  /** The abstract is blank: `not abstract.strip()`. */
  predicate Blank(s: string) {
    Strip(s) == ""
  }

  /** Some row has an abstract that is not blank, so the pass stores at least one summary. */
  function AnyNonBlank(rows: seq<Row>): bool {
    |rows| > 0 && (AnyNonBlank(rows[..|rows| - 1]) || !Blank(rows[|rows| - 1].abstractText))
  }

  lemma AnyNonBlankStep(rows: seq<Row>, i: nat)
    requires i < |rows|
    ensures AnyNonBlank(rows[..i + 1]) == (AnyNonBlank(rows[..i]) || !Blank(rows[i].abstractText))
  {
    assert rows[..i + 1][..i] == rows[..i];
  }

  lemma {:induction false} AnyNonBlankExists(rows: seq<Row>)
    ensures AnyNonBlank(rows) <==> exists k :: 0 <= k < |rows| && !Blank(rows[k].abstractText)
  {
    if |rows| > 0 {
      var init := rows[..|rows| - 1];
      AnyNonBlankExists(init);
      if exists k :: 0 <= k < |init| && !Blank(init[k].abstractText) {
        var k :| 0 <= k < |init| && !Blank(init[k].abstractText);
        assert rows[k] == init[k];
      }
      if exists k :: 0 <= k < |rows| && !Blank(rows[k].abstractText) {
        var k :| 0 <= k < |rows| && !Blank(rows[k].abstractText);
        if k < |init| {
          assert init[k] == rows[k];
        }
      }
    }
  }

  /** What the enrichment pass does to one row. */
  function EnrichRow(row: Row, summarize: string -> string): Row {
    if Blank(row.abstractText) then row else row.(summary := Some(summarize(row.abstractText)))
  }

  /** The table after the enrichment pass, row by row. */
  function Enriched(rows: seq<Row>, summarize: string -> string): (r: seq<Row>)
    ensures |r| == |rows|
    decreases |rows|
  {
    if |rows| == 0 then []
    else Enriched(rows[..|rows| - 1], summarize) + [EnrichRow(rows[|rows| - 1], summarize)]
  }

  /** The pass treats every row on its own. */
  lemma {:induction false} EnrichedAt(rows: seq<Row>, summarize: string -> string, k: nat)
    requires k < |rows|
    ensures Enriched(rows, summarize)[k] == EnrichRow(rows[k], summarize)
  {
    var n := |rows| - 1;
    if k < n {
      EnrichedAt(rows[..n], summarize, k);
    }
  }

  lemma UpdateWithSame<T>(s: seq<T>, i: nat)
    requires i < |s|
    ensures s[i := s[i]] == s
  {
  }

  /** Enriching row `i` in place extends the enriched prefix by one row. */
  lemma EnrichStep(snapshot: seq<Row>, summarize: string -> string, i: nat)
    requires i < |snapshot|
    ensures (Enriched(snapshot[..i], summarize) + snapshot[i..])[i] == snapshot[i]
    ensures (Enriched(snapshot[..i], summarize) + snapshot[i..])[i := EnrichRow(snapshot[i], summarize)]
            == Enriched(snapshot[..i + 1], summarize) + snapshot[i + 1..]
  {
    var before := Enriched(snapshot[..i], summarize) + snapshot[i..];
    var after := Enriched(snapshot[..i + 1], summarize) + snapshot[i + 1..];
    var updated := before[i := EnrichRow(snapshot[i], summarize)];
    assert |updated| == |after|;
    forall k | 0 <= k < |after| ensures updated[k] == after[k] {
      if k < i {
        EnrichedAt(snapshot[..i], summarize, k);
        EnrichedAt(snapshot[..i + 1], summarize, k);
        assert updated[k] == EnrichRow(snapshot[k], summarize) == after[k];
      } else if k == i {
        EnrichedAt(snapshot[..i + 1], summarize, k);
      } else {
        assert updated[k] == snapshot[k] == after[k];
      }
    }
  }

  /**
   * The body of the loop at lines 170-177 for row `i` of the rows read at
   * line 168: skip a blank abstract, otherwise summarize it and store the
   * summary under the row's id.
   */
  method EnrichAt(table: ArticleTable, snapshot: seq<Row>, i: nat, summarize: string -> string)
    requires table.Valid() && i < |snapshot|
    requires table.rows == Enriched(snapshot[..i], summarize) + snapshot[i..]
    modifies table
    ensures table.Valid()
    ensures table.rows == Enriched(snapshot[..i + 1], summarize) + snapshot[i + 1..]
    ensures table.nextId == old(table.nextId)
    ensures table.summaryColumn == (old(table.summaryColumn) || !Blank(snapshot[i].abstractText))
  {
    var row := snapshot[i];
    ghost var before := table.rows;
    EnrichStep(snapshot, summarize, i);
    if !Blank(row.abstractText) {
      var summary := summarize(row.abstractText);
      SetSummaryAt(before, i, summary);
      table.StoreSummary(row.id, summary);
    } else {
      UpdateWithSame(before, i);
    }
  }

  /**
   * Lines 166-177 of `main`: read every `(id, abstract)` once, skip blank
   * abstracts, and store the summary of each other abstract under its id.
   */
  method Enrich(table: ArticleTable, summarize: string -> string)
    requires table.Valid()
    modifies table
    ensures table.Valid()
    ensures table.rows == Enriched(old(table.rows), summarize)
    ensures table.nextId == old(table.nextId)
    ensures table.summaryColumn == (old(table.summaryColumn) || AnyNonBlank(old(table.rows)))
  {
    var snapshot := table.rows;
    var i := 0;
    while i < |snapshot|
      invariant 0 <= i <= |snapshot|
      invariant table.Valid()
      invariant table.rows == Enriched(snapshot[..i], summarize) + snapshot[i..]
      invariant table.nextId == old(table.nextId)
      invariant table.summaryColumn == (old(table.summaryColumn) || AnyNonBlank(snapshot[..i]))
    {
      EnrichAt(table, snapshot, i, summarize);
      AnyNonBlankStep(snapshot, i);
      i := i + 1;
    }
    assert snapshot[..i] == snapshot;
  }

  /** Blank rows are left exactly as they were; every other row gets the summary of its own abstract. */
  lemma EnrichedSummaries(rows: seq<Row>, summarize: string -> string, k: nat)
    requires k < |rows|
    ensures Blank(rows[k].abstractText) ==> Enriched(rows, summarize)[k] == rows[k]
    ensures !Blank(rows[k].abstractText) ==>
              Enriched(rows, summarize)[k].summary == Some(summarize(rows[k].abstractText)) &&
              Enriched(rows, summarize)[k].(summary := rows[k].summary) == rows[k]
  {
    EnrichedAt(rows, summarize, k);
  }

  /** On freshly stored rows, the pass leaves a summary exactly on the rows whose abstract has a non-space character. */
  lemma {:induction false} FreshRowsSummarizedIffNonBlank(rows: seq<Row>, summarize: string -> string, k: nat)
    requires k < |rows| && rows[k].summary == None
    ensures Enriched(rows, summarize)[k].summary.Some? <==>
              exists c :: 0 <= c < |rows[k].abstractText| && !IsSpace(rows[k].abstractText[c])
  {
    EnrichedAt(rows, summarize, k);
    StripEmptyIffBlank(rows[k].abstractText);
  }

  /**
   * A second pass asks the summarizer again for every non-blank row, summarized
   * or not, so its summaries replace the first pass's; with the same
   * summarizer the pass is idempotent.
   */
  lemma EnrichAgainOverwrites(rows: seq<Row>, first: string -> string, second: string -> string)
    ensures Enriched(Enriched(rows, first), second) == Enriched(rows, second)
  {
    var once := Enriched(rows, first);
    forall k | 0 <= k < |rows| ensures Enriched(once, second)[k] == Enriched(rows, second)[k] {
      EnrichedAt(rows, first, k);
      EnrichedAt(once, second, k);
      EnrichedAt(rows, second, k);
    }
  }

  /**
   * `main` (lines 145-177) on a table that may already hold rows: build the
   * terms, store what each term's search returned, then enrich every row.
   */
  method Run(table: ArticleTable, genes: seq<string>, order: seq<string>,
             results: seq<seq<Record>>, summarize: string -> string)
    requires table.Valid()
    requires IsDedup(genes, order) && |results| == |GeneratePairs(genes, order)|
    modifies table
    ensures table.Valid()
    ensures table.rows == Enriched(old(table.rows) + SearchPhaseRows(old(table.nextId), GeneratePairs(genes, order), ParseBatches(results)), summarize)
    ensures table.nextId == old(table.nextId) + |SearchPhaseRows(old(table.nextId), GeneratePairs(genes, order), ParseBatches(results))|
    ensures table.summaryColumn ==
              (old(table.summaryColumn) || AnyNonBlank(old(table.rows) + SearchPhaseRows(old(table.nextId), GeneratePairs(genes, order), ParseBatches(results))))
  {
    var terms := GeneratePairs(genes, order);
    SearchPhase(table, terms, results);
    Enrich(table, summarize);
  }

  /**
   * After a run, each row stored by it carries one of the terms, and has a
   * summary exactly when its abstract has a non-whitespace character.
   */
  lemma RunStoredRows(base: seq<Row>, firstId: int, terms: seq<string>, batches: seq<seq<Parsed>>,
                      summarize: string -> string, k: nat)
    requires |terms| == |batches| && k < |SearchPhaseRows(firstId, terms, batches)|
    ensures var row := Enriched(base + SearchPhaseRows(firstId, terms, batches), summarize)[|base| + k];
            && row.gene in terms
            && (row.summary.Some? <==> exists c :: 0 <= c < |row.abstractText| && !IsSpace(row.abstractText[c]))
  {
    var stored := base + SearchPhaseRows(firstId, terms, batches);
    SearchPhaseRowsTagged(firstId, terms, batches);
    assert stored[|base| + k] == SearchPhaseRows(firstId, terms, batches)[k];
    EnrichedAt(stored, summarize, |base| + k);
    FreshRowsSummarizedIffNonBlank(stored, summarize, |base| + k);
  }
}
