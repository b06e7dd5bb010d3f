/** The search page's own state and the two handlers that change it: committing the search term
    and the filter card's change callback, with the effect that resets the page. */
module SearchPage {
  import opened Wrappers
  import opened Strings
  import opened SearchResults

  /** The page's `useState` values. `entityType` is the `type` state. */
  datatype SearchState = SearchState(
    term: string,
    searchQuery: string,
    entityType: string,
    page: int,
    sortBy: string,
    sortOrder: string,
    genreFilter: string,
    filterType: string)

  /** The value the filter card passes: a text field or select value, or a number. */
  datatype InputValue = Text(s: string) | Num(n: int)

  function InitialState(): (r: SearchState)
    ensures r.term == "" && r.searchQuery == "" && r.page == 1 && r.sortBy == ""
    ensures r.entityType == "movies" && r.filterType == "movies" && r.sortOrder == "asc"
    ensures !GenreSelected(r.genreFilter)
  {
    SearchState("", "", "movies", 1, "", "asc", "0", "movies")
  }

  /** `String(v)`. */
  function AsString(v: InputValue): string {
    match v
    case Text(s) => s
    case Num(n) => DecimalString(n)
  }

  /** `onSearch`: commits the term, trimmed, as the query and goes back to page 1. */
  function OnSearch(st: SearchState): (r: SearchState)
    ensures r.page == 1
    ensures r.searchQuery == [] || (!IsSpace(r.searchQuery[0]) && !IsSpace(r.searchQuery[|r.searchQuery| - 1]))
    ensures r.(searchQuery := st.searchQuery, page := st.page) == st
  {
    st.(searchQuery := Trim(st.term), page := 1)
  }

  /** The committed query is the term with its surrounding whitespace removed: a contiguous slice
      of the term with only whitespace before and after it. */
  lemma OnSearchTrims(st: SearchState)
    ensures var q := OnSearch(st).searchQuery;
      && TrimOffset(st.term) + |q| <= |st.term|
      && q == st.term[TrimOffset(st.term)..TrimOffset(st.term) + |q|]
      && (forall m :: 0 <= m < TrimOffset(st.term) ==> IsSpace(st.term[m]))
      && (forall m :: TrimOffset(st.term) + |q| <= m < |st.term| ==> IsSpace(st.term[m]))
  {
    TrimSlice(st.term);
  }

  /** Searching again without editing the term changes nothing. */
  lemma OnSearchIdempotent(st: SearchState)
    ensures OnSearch(OnSearch(st)) == OnSearch(st)
  {
    var q := Trim(st.term);
    assert OnSearch(st).term == st.term;
    if q != [] {
      NoSpaceTrims(q);
    }
  }

  /** The tags whose value the card always passes as text. */
  predicate TextTag(t: string) {
    t == "name" || t == "sortBy" || t == "sortOrder" || t == "filterType"
  }

  /** `handleFilterChange(t, v)`: "name" edits the term, "sortBy" and "sortOrder" set the sort,
      "filterType" sets both the filter type and the searched entity type, "genre" stores the
      value as a string, and any other tag is ignored. */
  function HandleFilterChange(st: SearchState, t: string, v: InputValue): (r: SearchState)
    requires TextTag(t) ==> v.Text?
    ensures t == "name" ==> r.term == v.s && r.(term := st.term) == st
    ensures t == "sortBy" ==> r.sortBy == v.s && r.(sortBy := st.sortBy) == st
    ensures t == "sortOrder" ==> r.sortOrder == v.s && r.(sortOrder := st.sortOrder) == st
    ensures t == "filterType" ==>
      r.filterType == v.s && r.entityType == v.s && r.(filterType := st.filterType, entityType := st.entityType) == st
    ensures t == "genre" ==> r.genreFilter == AsString(v) && r.(genreFilter := st.genreFilter) == st
    ensures !TextTag(t) && t != "genre" ==> r == st
  {
    if t == "name" then st.(term := v.s)
    else if t == "sortBy" then st.(sortBy := v.s)
    else if t == "sortOrder" then st.(sortOrder := v.s)
    else if t == "filterType" then st.(filterType := v.s, entityType := v.s)
    else if t == "genre" then st.(genreFilter := AsString(v))
    else st
  }

  /** A filter change never runs a search by itself: the committed query and the page stay as they
      are until Search is pressed or the page-reset effect runs. */
  lemma FilterChangeKeepsQuery(st: SearchState, t: string, v: InputValue)
    requires TextTag(t) ==> v.Text?
    ensures HandleFilterChange(st, t, v).searchQuery == st.searchQuery
    ensures HandleFilterChange(st, t, v).page == st.page
  {
  }

  /** A genre picked as the number `n` filters by exactly that genre when `n` is positive, and
      turns the filter off otherwise. */
  lemma {:induction false} NumericGenreFilters(st: SearchState, n: int, list: seq<Movie>)
    ensures var g := HandleFilterChange(st, "genre", Num(n)).genreFilter;
      && (GenreSelected(g) <==> n > 0)
      && (n > 0 ==> ToNumber(g) == Some(n))
      && (n <= 0 ==> ApplyGenreFilter(list, g) == list)
  {
    DecimalRoundTrip(n);
  }

  /** The effect on `[searchQuery, type, sortBy, sortOrder, genreFilter]`: when any of them differs
      between two renders, the page goes back to 1. */
  function ResetPage(prev: SearchState, next: SearchState): (r: SearchState)
    ensures r.(page := next.page) == next
    ensures r.page == if prev.searchQuery == next.searchQuery && prev.entityType == next.entityType
        && prev.sortBy == next.sortBy && prev.sortOrder == next.sortOrder && prev.genreFilter == next.genreFilter
      then next.page else 1
  {
    if prev.searchQuery != next.searchQuery || prev.entityType != next.entityType || prev.sortBy != next.sortBy
      || prev.sortOrder != next.sortOrder || prev.genreFilter != next.genreFilter
    then next.(page := 1)
    else next
  }

  /** Changing the sort, the genre or the entity type to a new value lands on page 1, while editing
      the term keeps the page. */
  lemma FilterChangeResetsPage(st: SearchState, t: string, v: InputValue)
    requires TextTag(t) ==> v.Text?
    ensures var next := HandleFilterChange(st, t, v);
      && (t == "name" ==> ResetPage(st, next).page == st.page)
      && ((next.sortBy != st.sortBy || next.sortOrder != st.sortOrder || next.genreFilter != st.genreFilter
           || next.entityType != st.entityType) ==> ResetPage(st, next).page == 1)
  {
  }
}
