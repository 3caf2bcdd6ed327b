/** The first-match keyword search shared by the subcategory and the payment
    method services: a row matches a description when one of its keywords,
    lower-cased, occurs in the lower-cased description. */
module KeywordSearch {
  import opened Wrappers
  import opened Strings

  /** A fetched row of the `subcategories` or `payment_methods` table, as far
      as the search looks at it. A `null` keyword list is `None`. */
  datatype Row = Row(id: int, name: string, keywords: Option<seq<string>>)

  /** Why a service call throws: `toLowerCase` on a missing description, or a
      query error passed on unchanged. */
  datatype Failure = TypeError | QueryError(message: string)

  /** `row.keywords || []`. */
  function KeywordsOf(row: Row): seq<string> {
    if row.keywords.Some? then row.keywords.value else []
  }

  /** `lowerDescription.includes(keyword.toLowerCase())`. */
  predicate KeywordMatches(description: string, keyword: string) {
    Includes(Lower(description), Lower(keyword))
  }

  predicate RowMatches(description: string, row: Row) {
    exists k :: 0 <= k < |KeywordsOf(row)| && KeywordMatches(description, KeywordsOf(row)[k])
  }

  /** Row `i` is the first row, in fetched order, that matches. */
  ghost predicate FirstMatchAt(description: string, rows: seq<Row>, i: int) {
    && 0 <= i < |rows|
    && RowMatches(description, rows[i])
    && forall j :: 0 <= j < i ==> !RowMatches(description, rows[j])
  }

  /** The nested search loop: the first matching row, or nothing when no row
      matches. */
  method FirstMatch(description: string, rows: seq<Row>) returns (r: Option<Row>)
    ensures r.None? <==> forall j :: 0 <= j < |rows| ==> !RowMatches(description, rows[j])
    ensures r.Some? ==> exists i :: FirstMatchAt(description, rows, i) && r.value == rows[i]
  {
    var lowerDescription := Lower(description);
    for i := 0 to |rows|
      invariant forall j :: 0 <= j < i ==> !RowMatches(description, rows[j])
    {
      var keywords := KeywordsOf(rows[i]);
      for k := 0 to |keywords|
        invariant forall m :: 0 <= m < k ==> !KeywordMatches(description, keywords[m])
      {
        if Includes(lowerDescription, Lower(keywords[k])) {
          assert FirstMatchAt(description, rows, i);
          return Some(rows[i]);
        }
      }
    }
    return None;
  }

  /** A row without a keyword list never matches. */
  lemma NoKeywordsNoMatch(description: string, row: Row)
    requires row.keywords.None? || row.keywords == Some([])
    ensures !RowMatches(description, row)
  {
  }

  /** An empty keyword occurs in every description, so its row matches
      whatever the text. */
  lemma EmptyKeywordMatches(description: string, row: Row, k: int)
    requires 0 <= k < |KeywordsOf(row)| && KeywordsOf(row)[k] == ""
    ensures RowMatches(description, row)
  {
    assert OccursAt(Lower(description), Lower(""), 0);
  }

  /** Matching ignores case on both sides: lower-casing the description or a
      keyword first changes nothing. */
  lemma MatchIgnoresCase(description: string, keyword: string)
    ensures KeywordMatches(Lower(description), keyword) == KeywordMatches(description, keyword)
    ensures KeywordMatches(description, Lower(keyword)) == KeywordMatches(description, keyword)
  {
    LowerIdempotent(description);
    LowerIdempotent(keyword);
  }

  /** A keyword that occurs verbatim in the description matches. */
  lemma VerbatimKeywordMatches(description: string, keyword: string, i: int)
    requires OccursAt(description, keyword, i)
    ensures KeywordMatches(description, keyword)
  {
    assert Lower(description)[i..i + |keyword|] == Lower(keyword);
    assert OccursAt(Lower(description), Lower(keyword), i);
  }

  /** The first match is unique. */
  lemma FirstMatchUnique(description: string, rows: seq<Row>, i1: int, i2: int)
    requires FirstMatchAt(description, rows, i1) && FirstMatchAt(description, rows, i2)
    ensures i1 == i2
  {
  }

  /** Rows after the first match are never examined: any rows may follow it
      without changing which row is first. */
  lemma FirstMatchIgnoresLaterRows(description: string, rows: seq<Row>, more: seq<Row>, i: int)
    requires FirstMatchAt(description, rows, i)
    ensures FirstMatchAt(description, rows + more, i)
  {
  }
}
