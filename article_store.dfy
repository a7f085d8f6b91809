/**
 * The `articles` table of the local SQLite store, held in memory: the rows in
 * id order, the next AUTOINCREMENT id, and whether the table has a `summary`
 * column yet. `store_article` is an INSERT, `get_abstract_by_id` a SELECT by
 * id, `store_summary` an UPDATE of one column.
 */
module ArticleStore {
  import opened Wrappers

  /** One row of `articles`; `summary` is NULL until the enrichment pass sets it. */
  datatype Row = Row(
    id: int,
    gene: string,
    title: string,
    abstractText: string,
    authors: string,
    journal: string,
    year: string,
    keywords: string,
    summary: Option<string>)

  /** Ids grow strictly along the table, so no id is used twice. */
  predicate IdsIncreasing(rows: seq<Row>) {
    forall i, j :: 0 <= i < j < |rows| ==> rows[i].id < rows[j].id
  }

  /** Every id was handed out by AUTOINCREMENT before `bound`. */
  predicate IdsBelow(rows: seq<Row>, bound: int) {
    forall i :: 0 <= i < |rows| ==> 1 <= rows[i].id < bound
  }

  /** `SELECT abstract FROM articles WHERE id = ...` followed by `fetchone()`. */
  function FindAbstract(rows: seq<Row>, id: int): (r: Option<string>)
    ensures r.None? <==> forall i :: 0 <= i < |rows| ==> rows[i].id != id
    ensures r.Some? ==> exists i :: 0 <= i < |rows| && rows[i].id == id && rows[i].abstractText == r.value
  {
    if |rows| == 0 then None
    else if rows[0].id == id then Some(rows[0].abstractText)
    else FindAbstract(rows[1..], id)
  }

  /** `UPDATE articles SET summary = ? WHERE id = ?`. */
  function SetSummary(rows: seq<Row>, id: int, summary: string): (r: seq<Row>)
    ensures |r| == |rows|
    ensures forall i :: 0 <= i < |rows| && rows[i].id == id ==> r[i] == rows[i].(summary := Some(summary))
    ensures forall i :: 0 <= i < |rows| && rows[i].id != id ==> r[i] == rows[i]
  {
    if |rows| == 0 then []
    else
      var first := if rows[0].id == id then rows[0].(summary := Some(summary)) else rows[0];
      [first] + SetSummary(rows[1..], id, summary)
  }

  /** After an insert with a fresh id, the lookup of that id finds the new abstract. */
  lemma LookupInserted(rows: seq<Row>, row: Row)
    requires IdsBelow(rows, row.id)
    ensures FindAbstract(rows + [row], row.id) == Some(row.abstractText)
  {
    var r := FindAbstract(rows + [row], row.id);
    assert (rows + [row])[|rows|].id == row.id;
  }

  /** An insert leaves the lookup of every other id as it was. */
  lemma {:induction false} LookupOthersUnchanged(rows: seq<Row>, row: Row, id: int)
    requires id != row.id
    ensures FindAbstract(rows + [row], id) == FindAbstract(rows, id)
  {
    if |rows| > 0 {
      assert (rows + [row])[1..] == rows[1..] + [row];
      LookupOthersUnchanged(rows[1..], row, id);
    }
  }

  /** Repeating the same update changes nothing further. */
  lemma SetSummaryIdempotent(rows: seq<Row>, id: int, summary: string)
    ensures SetSummary(SetSummary(rows, id, summary), id, summary) == SetSummary(rows, id, summary)
  {
  }

  /** With unique ids, updating the id of row `k` rewrites that row's summary and nothing else. */
  lemma SetSummaryAt(rows: seq<Row>, k: nat, summary: string)
    requires IdsIncreasing(rows) && k < |rows|
    ensures SetSummary(rows, rows[k].id, summary) == rows[k := rows[k].(summary := Some(summary))]
  {
  }

  class ArticleTable {
    var rows: seq<Row>
    var nextId: int
    var summaryColumn: bool

    ghost predicate Valid()
      reads this
    {
      nextId >= 1 && IdsIncreasing(rows) && IdsBelow(rows, nextId)
    }

    /**
     * An empty table. `initialize_database` creates it with a `summary`
     * column; a table left over from an older schema may lack one.
     */
    constructor (hasSummaryColumn: bool)
      ensures Valid()
      ensures rows == [] && nextId == 1 && summaryColumn == hasSummaryColumn
    {
      rows := [];
      nextId := 1;
      summaryColumn := hasSummaryColumn;
    }

    /** `store_article`: append one row under a fresh id, with no summary. */
    method StoreArticle(gene: string, title: string, abstractText: string, authors: string,
                        journal: string, year: string, keywords: string)
      requires Valid()
      modifies this
      ensures Valid()
      ensures rows == old(rows) + [Row(old(nextId), gene, title, abstractText, authors, journal, year, keywords, None)]
      ensures nextId == old(nextId) + 1 && summaryColumn == old(summaryColumn)
    {
      var row := Row(nextId, gene, title, abstractText, authors, journal, year, keywords, None);
      rows := rows + [row];
      nextId := nextId + 1;
    }

    /** `get_abstract_by_id`: the abstract of the row with this id, or None when there is none. */
    function GetAbstractById(id: int): (r: Option<string>)
      reads this
      requires Valid()
      ensures r.None? <==> forall i :: 0 <= i < |rows| ==> rows[i].id != id
      ensures forall i :: 0 <= i < |rows| && rows[i].id == id ==> r == Some(rows[i].abstractText)
    {
      FindAbstract(rows, id)
    }

    /**
     * `store_summary`: add the `summary` column if it is missing, then set the
     * summary of every row with this id (at most one, as ids are unique).
     */
    method StoreSummary(id: int, summary: string)
      requires Valid()
      modifies this
      ensures Valid()
      ensures rows == SetSummary(old(rows), id, summary)
      ensures nextId == old(nextId) && summaryColumn
    {
      if !summaryColumn {
        summaryColumn := true;
      }
      rows := SetSummary(rows, id, summary);
    }
  }
}
