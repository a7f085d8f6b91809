/**
 * The record parser `parse_article`: flatten one PubMed record into six
 * strings. Every part read with a default may be absent and then degrades to
 * the empty string. The parts read by direct indexing (`MedlineCitation`,
 * `Article`, and each author's `ForeName` and `LastName`) are not optional in
 * the types below: a record without them makes the source raise `KeyError`.
 */
module RecordParser {
  import opened Wrappers
  import opened Strings

  /** `PubDate` is either a dictionary (with an optional `Year`) or some other value, kept as its text. */
  datatype PubDate = Structured(year: Option<string>) | Raw(text: string)

  datatype JournalIssue = JournalIssue(pubDate: Option<PubDate>)

  datatype Journal = Journal(title: Option<string>, journalIssue: Option<JournalIssue>)

  datatype Author = Author(foreName: string, lastName: string)

  datatype AbstractPart = AbstractPart(abstractText: Option<seq<string>>)

  datatype ArticleData = ArticleData(
    articleTitle: Option<string>,
    abstractPart: Option<AbstractPart>,
    authorList: Option<seq<Author>>,
    journal: Option<Journal>)

  datatype Citation = Citation(article: ArticleData)

  /** A `PubmedArticle` entry; `KeywordList` is looked up at this top level. */
  datatype Record = Record(medlineCitation: Citation, keywordList: Option<seq<seq<string>>>)

  /** The six strings `parse_article` returns, in its order. */
  datatype Parsed = Parsed(
    title: string,
    abstractText: string,
    authors: string,
    journal: string,
    year: string,
    keywords: string)

  function ArticleOf(rec: Record): ArticleData {
    rec.medlineCitation.article
  }

  /** `AbstractText`, or `[]` when it or `Abstract` is absent. */
  function Segments(art: ArticleData): seq<string> {
    match art.abstractPart
    case None => []
    case Some(a) => a.abstractText.GetOr([])
  }

  function Authors(art: ArticleData): seq<Author> {
    art.authorList.GetOr([])
  }

  function FullName(a: Author): string {
    a.foreName + " " + a.lastName
  }

  function FullNames(authors: seq<Author>): (r: seq<string>)
    ensures |r| == |authors|
  {
    seq(|authors|, k requires 0 <= k < |authors| => FullName(authors[k]))
  }

  /** `PubDate`, where an absent `Journal`, `JournalIssue` or `PubDate` gives the empty dictionary. */
  function PubDateOf(art: ArticleData): PubDate {
    match art.journal
    case None => Structured(None)
    case Some(j) =>
      match j.journalIssue
      case None => Structured(None)
      case Some(issue) => issue.pubDate.GetOr(Structured(None))
  }

  function YearOf(d: PubDate): string {
    match d
    case Structured(y) => y.GetOr("")
    case Raw(text) => text
  }

  function KeywordGroups(rec: Record): seq<seq<string>> {
    rec.keywordList.GetOr([])
  }

  /** `parse_article(article)`. */
  function ParseArticle(rec: Record): Parsed
  {
    var art := ArticleOf(rec);
    var segments := Segments(art);
    var groups := KeywordGroups(rec);
    Parsed(
      art.articleTitle.GetOr(""),
      if |segments| > 0 then Join(" ", segments) else "",
      Join(", ", FullNames(Authors(art))),
      match art.journal { case None => "" case Some(j) => j.title.GetOr("") },
      YearOf(PubDateOf(art)),
      if |groups| > 0 then Join(", ", groups[0]) else "")
  }

  /**
   * The defaults of `parse_article`: a missing title, journal, abstract or
   * keyword list gives the empty string, and the authors field is empty
   * exactly when the author list is.
   */
  lemma ParseDefaults(rec: Record)
    ensures var r := ParseArticle(rec);
            && r.title == ArticleOf(rec).articleTitle.GetOr("")
            && r.journal == (if ArticleOf(rec).journal.Some? then ArticleOf(rec).journal.value.title.GetOr("") else "")
            && (Segments(ArticleOf(rec)) == [] ==> r.abstractText == "")
            && (r.authors == "" <==> Authors(ArticleOf(rec)) == [])
            && (KeywordGroups(rec) == [] ==> r.keywords == "")
  {
    var names := FullNames(Authors(ArticleOf(rec)));
    if |names| > 0 {
      JoinNonEmpty(", ", names, 0);
    }
  }

  /** A record carrying nothing beyond the required citation parses to six empty strings. */
  lemma ParseBareRecord()
    ensures ParseArticle(Record(Citation(ArticleData(None, None, None, None)), None))
            == Parsed("", "", "", "", "", "")
  {
  }

  /** The abstract is the segments joined by single spaces: splitting on a space gives them back. */
  lemma {:induction false} AbstractJoinsSegments(rec: Record)
    requires |Segments(ArticleOf(rec))| > 0
    requires forall k :: 0 <= k < |Segments(ArticleOf(rec))| ==> ' ' !in Segments(ArticleOf(rec))[k]
    ensures Split(" ", ParseArticle(rec).abstractText) == Segments(ArticleOf(rec))
  {
    SplitJoin(" ", Segments(ArticleOf(rec)));
  }

  /**
   * The abstract is the segments in order, each followed by one space except
   * the last, which ends the string; this holds whatever the segments contain.
   */
  lemma AbstractLayout(rec: Record, k: nat)
    requires k < |Segments(ArticleOf(rec))|
    ensures var segs := Segments(ArticleOf(rec));
            var text := ParseArticle(rec).abstractText;
            var e := JoinOffset(" ", segs, k) + |segs[k]|;
            && e <= |text| && text[JoinOffset(" ", segs, k)..e] == segs[k]
            && (k + 1 < |segs| ==> e < |text| && text[e] == ' ')
            && (k + 1 == |segs| ==> |text| == e)
  {
    var segs := Segments(ArticleOf(rec));
    JoinPartAt(" ", segs, k);
    if k + 1 < |segs| {
      JoinSepAfter(" ", segs, k);
    } else {
      JoinLength(" ", segs);
    }
    var text := Join(" ", segs);
    var e := JoinOffset(" ", segs, k) + |segs[k]|;
    if k + 1 < |segs| {
      assert text[e] == text[e..e + 1][0];
    }
  }

  /**
   * The authors field is each `ForeName + " " + LastName`, in list order,
   * joined by `", "`: splitting on `", "` gives the names back.
   */
  lemma {:induction false} AuthorsJoinNames(rec: Record)
    requires |Authors(ArticleOf(rec))| > 0
    requires forall k :: 0 <= k < |Authors(ArticleOf(rec))| ==>
               ',' !in Authors(ArticleOf(rec))[k].foreName && ',' !in Authors(ArticleOf(rec))[k].lastName
    ensures var names := Split(", ", ParseArticle(rec).authors);
            |names| == |Authors(ArticleOf(rec))| &&
            forall k :: 0 <= k < |names| ==>
              names[k] == Authors(ArticleOf(rec))[k].foreName + " " + Authors(ArticleOf(rec))[k].lastName
  {
    var names := FullNames(Authors(ArticleOf(rec)));
    SplitJoin(", ", names);
  }

  /** The keywords field is the first keyword group joined by `", "`. */
  lemma {:induction false} KeywordsJoinFirstGroup(rec: Record)
    requires |KeywordGroups(rec)| > 0 && |KeywordGroups(rec)[0]| > 0
    requires forall k :: 0 <= k < |KeywordGroups(rec)[0]| ==> ',' !in KeywordGroups(rec)[0][k]
    ensures Split(", ", ParseArticle(rec).keywords) == KeywordGroups(rec)[0]
  {
    SplitJoin(", ", KeywordGroups(rec)[0]);
  }

  /** Keyword groups after the first are ignored. */
  lemma KeywordsIgnoreLaterGroups(rec: Record, first: seq<string>, later: seq<seq<string>>)
    requires rec.keywordList == Some([first] + later)
    ensures ParseArticle(rec) == ParseArticle(rec.(keywordList := Some([first])))
  {
  }

  /** `KeywordList` is read from the record itself, never from the citation or article. */
  lemma KeywordsFromTopLevelOnly(rec: Record, other: Citation)
    ensures ParseArticle(rec).keywords == ParseArticle(rec.(medlineCitation := other)).keywords
  {
  }

  /**
   * The year: a structured date gives its `Year` or `""`, a raw date its own
   * text, and a missing `Journal`, `JournalIssue` or `PubDate` gives `""`.
   */
  lemma YearRules(rec: Record)
    ensures var art := ArticleOf(rec);
            ParseArticle(rec).year ==
              if art.journal.None? || art.journal.value.journalIssue.None?
                 || art.journal.value.journalIssue.value.pubDate.None? then ""
              else match art.journal.value.journalIssue.value.pubDate.value {
                case Structured(y) => if y.Some? then y.value else ""
                case Raw(text) => text
              }
  {
  }
}
