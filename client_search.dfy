/** What the list pages of the client build their filters from: the lower-cased search query, a
    case-insensitive substring search (`field.toLowerCase().includes(term.toLowerCase())`) and a
    drop-down filter whose value `all` passes everything. */
module ClientSearch {
  import opened Text

  /** The drop-down value that disables a filter. */
  const All := "all"

  /** `handleSearch` of the catalog and members pages: the query is kept lower-cased as it is typed. */
  function SearchQuery(input: string): (q: string)
    ensures |q| == |input|
    ensures Lower(q) == q
  {
    LowerIdempotent(input);
    Lower(input)
  }

  /** `field.toLowerCase().includes(term.toLowerCase())`. */
  predicate Matches(field: string, term: string)
  {
    Includes(Lower(field), Lower(term))
  }

  /** `filter === 'all' || value === filter`. */
  predicate Passes(value: string, filter: string)
  {
    filter == All || value == filter
  }

  /** A search term matches exactly when its lower-cased form occurs somewhere in the lower-cased
      field, and the case of neither the term nor the field changes the answer. */
  lemma MatchesIgnoresCase(field: string, term: string)
    ensures Matches(field, term) <==> exists i :: OccursAt(Lower(field), Lower(term), i)
    ensures Matches(field, Lower(term)) == Matches(field, term)
    ensures Matches(Lower(field), term) == Matches(field, term)
  {
    IncludesAt(Lower(field), Lower(term));
    LowerIdempotent(term);
    LowerIdempotent(field);
  }

  /** The empty search term matches every field. */
  lemma MatchesEmpty(field: string)
    ensures Matches(field, "")
  {
    IncludesEmpty(Lower(field));
  }

  /** A filter other than `all` passes exactly the values equal to it. */
  lemma PassesExactly(value: string, filter: string)
    ensures Passes(value, All)
    ensures filter != All ==> (Passes(value, filter) <==> value == filter)
  {
  }

  /** A term with a character that does not occur in a string is not included in it. */
  lemma {:induction false} NotIncludedWithout(s: string, sub: string, c: char)
    requires c in sub && c !in s
    ensures !Includes(s, sub)
    decreases |s|
  {
    if |s| > 0 {
      NotIncludedWithout(s[1..], sub, c);
    }
  }
}
