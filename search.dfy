/** The search tool (main.py:20-78): resolve the sort arguments, query the
    index, and turn every result into a flat record, in the index's order. */
module Search {
  import opened Wrappers
  import opened SortParams

  datatype Author = Author(name: string)

  /** One result of the index client, with the attributes main.py reads.
      `published` is the date already rendered as "YYYY-MM-DD"; `raw` is
      `r._raw` when the result has that attribute and it is a dict. */
  datatype Entry = Entry(
    title: string,
    pdfUrl: Option<string>,
    authors: seq<Author>,
    summary: string,
    published: string,
    categories: seq<string>,
    entryId: string,
    comment: Option<string>,
    raw: Option<map<string, string>>)

  /** The dict built for each result (main.py:64-74). */
  datatype PaperRecord = PaperRecord(
    title: string,
    pdfUrl: Option<string>,
    authors: seq<string>,
    summary: string,
    published: string,
    categories: seq<string>,
    entryId: string,
    comment: Option<string>,
    affiliation: Option<string>)

  /** The query handed to the index (main.py:50-55). */
  datatype SearchRequest = SearchRequest(
    query: string, maxResults: int, sortBy: SortCriterion, sortOrder: SortOrder)

  /** What iterating `client.results(search)` produces: the results it
      yields, in order, and the exception it raises after them, if any. */
  datatype ResultStream = ResultStream(entries: seq<Entry>, raised: Option<string>)

  const AffiliationKey := "arxiv_affiliation"

  /** What a record says about the result it was built from: every field is
      carried over, the authors by name and in order, and the affiliation is
      present exactly when the raw dict carries the affiliation key. */
  predicate Describes(r: PaperRecord, e: Entry) {
    && r.title == e.title
    && r.pdfUrl == e.pdfUrl
    && |r.authors| == |e.authors|
    && (forall i :: 0 <= i < |e.authors| ==> r.authors[i] == e.authors[i].name)
    && r.summary == e.summary
    && r.published == e.published
    && r.categories == e.categories
    && r.entryId == e.entryId
    && r.comment == e.comment
    && (r.affiliation.Some? <==> e.raw.Some? && AffiliationKey in e.raw.value)
    && (r.affiliation.Some? ==> r.affiliation.value == e.raw.value[AffiliationKey])
  }

  /** A result determines its record. */
  lemma DescribesUnique(r1: PaperRecord, r2: PaperRecord, e: Entry)
    requires Describes(r1, e) && Describes(r2, e)
    ensures r1 == r2
  {
  }

  /** `[author.name for author in r.authors]`. */
  function AuthorNames(authors: seq<Author>): (names: seq<string>)
    ensures |names| == |authors|
    ensures forall i :: 0 <= i < |authors| ==> names[i] == authors[i].name
  {
    if authors == [] then [] else [authors[0].name] + AuthorNames(authors[1..])
  }

  /** `r._raw.get("arxiv_affiliation")` when `_raw` is a dict, else None. */
  function Affiliation(raw: Option<map<string, string>>): Option<string> {
    match raw
    case Some(m) => if AffiliationKey in m then Some(m[AffiliationKey]) else None
    case None => None
  }

  /** The record built for one result (main.py:60-74). */
  function ToRecord(e: Entry): (r: PaperRecord)
    ensures Describes(r, e)
  {
    PaperRecord(e.title, e.pdfUrl, AuthorNames(e.authors), e.summary, e.published,
                e.categories, e.entryId, e.comment, Affiliation(e.raw))
  }

  /** The tool's default for `max_results` (main.py:23); callers that leave
      the argument out pass this value to SearchPapers. */
  const DefaultMaxResults: int := 10

  /** The request built from the tool's arguments (main.py:39-55); the
      limit is passed on unchanged, DefaultMaxResults when omitted. */
  function RequestOf(query: string, maxResults: int, sortBy: string, sortOrder: string): SearchRequest {
    SearchRequest(query, maxResults, SortCriterionOf(sortBy), SortOrderOf(sortOrder))
  }

  /** `search_papers`: one record per result, in the index's order; an
      exception from the index propagates and no records are returned. */
  method SearchPapers(query: string, maxResults: int, sortBy: string, sortOrder: string,
                      results: SearchRequest -> ResultStream)
    returns (outcome: Result<seq<PaperRecord>, string>)
    ensures var stream := results(RequestOf(query, maxResults, sortBy, sortOrder));
      match stream.raised
      case Some(e) => outcome == Err(e)
      case None =>
        && outcome.Ok?
        && |outcome.value| == |stream.entries|
        && forall i :: 0 <= i < |stream.entries| ==> Describes(outcome.value[i], stream.entries[i])
  {
    var stream := results(RequestOf(query, maxResults, sortBy, sortOrder));
    var resultsData: seq<PaperRecord> := [];
    for i := 0 to |stream.entries|
      invariant |resultsData| == i
      invariant forall k :: 0 <= k < i ==> Describes(resultsData[k], stream.entries[k])
    {
      var paper := ToRecord(stream.entries[i]);
      resultsData := resultsData + [paper];
    }
    if stream.raised.Some? {
      return Err(stream.raised.value);
    }
    return Ok(resultsData);
  }
}
