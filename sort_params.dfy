/** Resolution of the `sort_by` and `sort_order` string arguments of the
    search tool into the index's sort enums (main.py:39-48). */
module SortParams {

  datatype SortCriterion = Relevance | LastUpdatedDate | SubmittedDate

  datatype SortOrder = Ascending | Descending

  /** The keyword table of main.py:39-43. */
  const SortCriteria: map<string, SortCriterion> :=
    map["relevance" := Relevance,
        "last_updated_date" := LastUpdatedDate,
        "submitted_date" := SubmittedDate]

  /** The keyword table of main.py:45-48. */
  const SortOrders: map<string, SortOrder> :=
    map["ascending" := Ascending, "descending" := Descending]

  /** Default arguments of the tool (main.py:24-25). */
  const DefaultSortBy := "submitted_date"
  const DefaultSortOrder := "descending"

  /** `{...}.get(sort_by, SubmittedDate)`: each listed keyword selects its
      criterion; every other string falls back to the submission date. */
  function SortCriterionOf(sortBy: string): (c: SortCriterion)
    ensures c == Relevance <==> sortBy == "relevance"
    ensures c == LastUpdatedDate <==> sortBy == "last_updated_date"
    ensures c == SubmittedDate <==> sortBy != "relevance" && sortBy != "last_updated_date"
  {
    if sortBy in SortCriteria then SortCriteria[sortBy] else SubmittedDate
  }

  /** `{...}.get(sort_order, Descending)`: "ascending" alone selects the
      ascending order; every other string gives the descending one. */
  function SortOrderOf(sortOrder: string): (o: SortOrder)
    ensures o == Ascending <==> sortOrder == "ascending"
    ensures o == Descending <==> sortOrder != "ascending"
  {
    if sortOrder in SortOrders then SortOrders[sortOrder] else Descending
  }

  /** The keyword the tool documents for each criterion (main.py:33). */
  function SortByKeyword(c: SortCriterion): string {
    match c
    case Relevance => "relevance"
    case LastUpdatedDate => "last_updated_date"
    case SubmittedDate => "submitted_date"
  }

  /** The keyword the tool documents for each order (main.py:34). */
  function SortOrderKeyword(o: SortOrder): string {
    match o
    case Ascending => "ascending"
    case Descending => "descending"
  }

  /** Every criterion is reachable through its documented keyword, and the
      table holds exactly the documented keywords. */
  lemma SortCriterionKeywords(c: SortCriterion, sortBy: string)
    ensures SortCriterionOf(SortByKeyword(c)) == c
    ensures sortBy in SortCriteria <==> sortBy == SortByKeyword(SortCriterionOf(sortBy))
  {
  }

  /** Every order is reachable through its documented keyword, and the table
      holds exactly the documented keywords. */
  lemma SortOrderKeywords(o: SortOrder, sortOrder: string)
    ensures SortOrderOf(SortOrderKeyword(o)) == o
    ensures sortOrder in SortOrders <==> sortOrder == SortOrderKeyword(SortOrderOf(sortOrder))
  {
  }

  /** Leaving an argument out, or giving an unknown keyword, selects the same
      value: the defaults agree with the fall-backs. */
  lemma DefaultsAgreeWithFallbacks(sortBy: string, sortOrder: string)
    requires sortBy !in SortCriteria && sortOrder !in SortOrders
    ensures SortCriterionOf(sortBy) == SortCriterionOf(DefaultSortBy) == SubmittedDate
    ensures SortOrderOf(sortOrder) == SortOrderOf(DefaultSortOrder) == Descending
  {
  }
}
