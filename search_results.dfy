/** The post-processing the search page applies to a page of results: the genre filter and the
    movie sort, and the actor pre-filter and the people sort. Each works on a copy and returns a
    new list. Dates are timestamps, the numeric fields are integers, and `localeCompare` is the
    character-code order on the lower-cased strings. */
module SearchResults {
  import opened Wrappers
  import opened Sequences
  import opened Sorting
  import opened Strings

  /** A movie search result. A missing `title` or `name` is the empty string; the other optional
      fields are `None` when missing, and `genreIds` is `None` when it is not an array. */
  datatype Movie = Movie(
    id: int, title: string, name: string,
    releaseDate: Option<int>, voteAverage: Option<int>, popularity: Option<int>,
    genreIds: Option<seq<int>>)

  /** A person search result; `knownFor` is `None` when it is not an array. */
  datatype Person = Person(
    id: int, name: string, knownForDepartment: string,
    popularity: Option<int>, knownFor: Option<seq<int>>)

  // ---------------------------------------------------------------- genre filter

  function HasGenre(gid: int): Movie -> bool {
    (m: Movie) => m.genreIds.Some? && gid in m.genreIds.value
  }

  /** The genre filter's switch: `Number(genreId || 0)` is a positive integer. */
  predicate GenreSelected(genreId: string) {
    ToNumber(genreId).Some? && ToNumber(genreId).value > 0
  }

  /** `applyGenreFilter(list, genreId)`. With no positive genre the input comes back as it is;
      otherwise exactly the movies listing the genre, in input order. */
  function ApplyGenreFilter(list: seq<Movie>, genreId: string): (r: seq<Movie>)
    ensures !GenreSelected(genreId) ==> r == list
    ensures GenreSelected(genreId) ==>
      && IsSubsequence(r, list)
      && (forall i :: 0 <= i < |r| ==> HasGenre(ToNumber(genreId).value)(r[i]))
      && forall m :: multiset(r)[m] == if HasGenre(ToNumber(genreId).value)(m) then multiset(list)[m] else 0
  {
    var gid := ToNumber(genreId);
    if gid.None? || gid.value <= 0 then list
    else
      FilterIsSubsequence(list, HasGenre(gid.value));
      FilterCounts(list, HasGenre(gid.value));
      Filter(list, HasGenre(gid.value))
  }

  /** Filtering by a genre a second time changes nothing. */
  lemma GenreFilterIdempotent(list: seq<Movie>, genreId: string)
    ensures ApplyGenreFilter(ApplyGenreFilter(list, genreId), genreId) == ApplyGenreFilter(list, genreId)
  {
    if GenreSelected(genreId) {
      FilterIdempotent(list, HasGenre(ToNumber(genreId).value));
    }
  }

  // ---------------------------------------------------------------- movie sort

  /** 1 for "asc", -1 for any other order. */
  function Direction(sortOrder: string): int {
    if sortOrder == "asc" then 1 else -1
  }

  /** The lower-cased title, or the name when the title is missing. */
  function TitleKey(m: Movie): string {
    ToLower(if m.title != "" then m.title else m.name)
  }

  /** The release timestamp, 0 when the date is missing. */
  function ReleaseKey(m: Movie): int {
    m.releaseDate.GetOr(0)
  }

  /** The rating or the popularity, 0 when missing. */
  function NumericField(m: Movie, field: string): int {
    if field == "vote_average" then m.voteAverage.GetOr(0) else m.popularity.GetOr(0)
  }

  predicate IsMovieNumericSort(sortBy: string) {
    sortBy == "release_date" || sortBy == "vote_average" || sortBy == "popularity"
  }

  /** The number a numeric movie sort orders by. */
  function MovieNumericKey(sortBy: string, m: Movie): int {
    if sortBy == "release_date" then ReleaseKey(m) else NumericField(m, sortBy)
  }

  /** The comparator `applyMovieSort` passes to `sort`. */
  function MovieCompare(sortBy: string, dir: int, a: Movie, b: Movie): int {
    if sortBy == "title" || sortBy == "name" then LexCompare(TitleKey(a), TitleKey(b)) * dir
    else if sortBy == "release_date" then (ReleaseKey(a) - ReleaseKey(b)) * dir
    else if sortBy == "vote_average" || sortBy == "popularity" then
      (NumericField(a, sortBy) - NumericField(b, sortBy)) * dir
    else 0
  }

  function MovieOrder(sortBy: string, dir: int): (Movie, Movie) -> int {
    (a, b) => MovieCompare(sortBy, dir, a, b)
  }

  /** `applyMovieSort(list, sortBy, sortOrder)`: no key, no sort; otherwise a sorted copy. */
  function ApplyMovieSort(list: seq<Movie>, sortBy: string, sortOrder: string): seq<Movie> {
    if sortBy == "" then list else Sort(list, MovieOrder(sortBy, Direction(sortOrder)))
  }

  lemma DirectedLexTransitive(x: string, y: string, z: string, dir: int)
    requires dir == 1 || dir == -1
    requires LexCompare(x, y) * dir <= 0 && LexCompare(y, z) * dir <= 0
    ensures LexCompare(x, z) * dir <= 0
  {
    if dir == 1 {
      LexTransitive(x, y, z);
    } else {
      LexAntisymmetric(x, y);
      LexAntisymmetric(y, z);
      LexAntisymmetric(x, z);
      LexTransitive(z, y, x);
    }
  }

  lemma MovieCompareTransitive(sortBy: string, dir: int, a: Movie, b: Movie, c: Movie)
    requires dir == 1 || dir == -1
    requires MovieCompare(sortBy, dir, a, b) <= 0 && MovieCompare(sortBy, dir, b, c) <= 0
    ensures MovieCompare(sortBy, dir, a, c) <= 0
  {
    if sortBy == "title" || sortBy == "name" {
      DirectedLexTransitive(TitleKey(a), TitleKey(b), TitleKey(c), dir);
    } else if dir == 1 {
      // the empty branches only split the proof by direction, so each case is linear arithmetic
    } else {
    }
  }

  /** The movie comparator is consistent for either direction. */
  lemma MovieOrderIsComparator(sortBy: string, dir: int)
    requires dir == 1 || dir == -1
    ensures IsComparator(MovieOrder(sortBy, dir))
  {
    var cmp := MovieOrder(sortBy, dir);
    forall a, b ensures cmp(a, b) < 0 <==> cmp(b, a) > 0 {
      LexAntisymmetric(TitleKey(a), TitleKey(b));
      // the empty branches only split the proof by direction, so each case is linear arithmetic
      if dir == 1 {
      } else {
      }
    }
    forall a, b, c | cmp(a, b) <= 0 && cmp(b, c) <= 0 ensures cmp(a, c) <= 0 {
      MovieCompareTransitive(sortBy, dir, a, b, c);
    }
  }

  /** The movie sort only reorders. */
  lemma MovieSortPermutation(list: seq<Movie>, sortBy: string, sortOrder: string)
    ensures multiset(ApplyMovieSort(list, sortBy, sortOrder)) == multiset(list)
  {
    if sortBy != "" {
      SortPermutation(list, MovieOrder(sortBy, Direction(sortOrder)));
    }
  }

  lemma MovieSortOrdered(list: seq<Movie>, sortBy: string, sortOrder: string)
    requires sortBy != ""
    ensures SortedBy(ApplyMovieSort(list, sortBy, sortOrder), MovieOrder(sortBy, Direction(sortOrder)))
  {
    MovieOrderIsComparator(sortBy, Direction(sortOrder));
    SortSorted(list, MovieOrder(sortBy, Direction(sortOrder)));
  }

  /** Sorting by title orders the lower-cased titles (falling back to names): non-decreasing for
      "asc", non-increasing otherwise. */
  lemma MovieSortByTitle(list: seq<Movie>, sortBy: string, sortOrder: string)
    requires sortBy == "title" || sortBy == "name"
    ensures var r := ApplyMovieSort(list, sortBy, sortOrder);
      forall i, j :: 0 <= i < j < |r| ==>
        if sortOrder == "asc" then LexCompare(TitleKey(r[i]), TitleKey(r[j])) <= 0
        else LexCompare(TitleKey(r[i]), TitleKey(r[j])) >= 0
  {
    MovieSortOrdered(list, sortBy, sortOrder);
  }

  /** Sorting by release date, rating or popularity orders that number (missing counts as 0):
      non-decreasing for "asc", non-increasing otherwise. */
  lemma MovieSortByNumber(list: seq<Movie>, sortBy: string, sortOrder: string)
    requires IsMovieNumericSort(sortBy)
    ensures var r := ApplyMovieSort(list, sortBy, sortOrder);
      forall i, j :: 0 <= i < j < |r| ==>
        if sortOrder == "asc" then MovieNumericKey(sortBy, r[i]) <= MovieNumericKey(sortBy, r[j])
        else MovieNumericKey(sortBy, r[i]) >= MovieNumericKey(sortBy, r[j])
  {
    MovieSortOrdered(list, sortBy, sortOrder);
  }

  /** With no key or a key it does not recognise the movie sort returns its input order. */
  lemma MovieSortUnrecognised(list: seq<Movie>, sortBy: string, sortOrder: string)
    requires sortBy != "title" && sortBy != "name" && !IsMovieNumericSort(sortBy)
    ensures ApplyMovieSort(list, sortBy, sortOrder) == list
  {
    if sortBy != "" {
      SortAllTies(list, MovieOrder(sortBy, Direction(sortOrder)));
    }
  }

  /** Movies with equal keys keep their input order. */
  lemma MovieSortStable(list: seq<Movie>, sortBy: string, sortOrder: string, e: Movie)
    requires sortBy != ""
    ensures var cmp := MovieOrder(sortBy, Direction(sortOrder));
      Filter(ApplyMovieSort(list, sortBy, sortOrder), TieClass(cmp, e)) == Filter(list, TieClass(cmp, e))
  {
    MovieOrderIsComparator(sortBy, Direction(sortOrder));
    SortStable(list, MovieOrder(sortBy, Direction(sortOrder)), e);
  }

  /** When no two movies of the list tie under the key, sorting descending gives the ascending
      order back to front. */
  lemma MovieSortDescendingReversed(list: seq<Movie>, sortBy: string, sortOrder: string)
    requires sortBy != "" && sortOrder != "asc"
    requires forall i, j :: 0 <= i < |list| && 0 <= j < |list| && MovieCompare(sortBy, 1, list[i], list[j]) == 0 ==> list[i] == list[j]
    ensures ApplyMovieSort(list, sortBy, sortOrder) == Reverse(ApplyMovieSort(list, sortBy, "asc"))
  {
    var up, down := MovieOrder(sortBy, 1), MovieOrder(sortBy, -1);
    MovieOrderIsComparator(sortBy, 1);
    MovieOrderIsComparator(sortBy, -1);
    assert Opposite(up, down) by {
      forall a, b ensures down(a, b) == -up(a, b) {
      }
    }
    assert NoTies(list, up);
    SortOpposite(list, up, down);
  }

  /** `[{id: 1, title: "B"}, {id: 2, title: "A"}]` sorted by title ascending is `[A, B]`. */
  lemma MovieSortExample()
    ensures var b := Movie(1, "B", "", None, None, None, None);
      var a := Movie(2, "A", "", None, None, None, None);
      ApplyMovieSort([b, a], "title", "asc") == [a, b]
  {
    var b := Movie(1, "B", "", None, None, None, None);
    var a := Movie(2, "A", "", None, None, None, None);
    assert TitleKey(b) == "b" && TitleKey(a) == "a";
    assert MovieCompare("title", 1, a, b) < 0;
    assert [b, a][..1] == [b];
  }

  // ---------------------------------------------------------------- people

  /** The unconditional pre-filter: the department lower-cases to "acting" and the trimmed name
      splits into at least two words. */
  predicate IsActor(p: Person) {
    ToLower(p.knownForDepartment) == "acting" && IsMultiWord(p.name)
  }

  /** The number of known-for titles, 0 when `known_for` is not an array. */
  function KnownForCount(p: Person): nat {
    match p.knownFor
    case Some(k) => |k|
    case None => 0
  }

  /** The published age of `id`, `None` when it is absent or null. */
  function AgeKey(ages: map<int, Option<int>>, id: int): Option<int> {
    if id in ages then ages[id] else None
  }

  predicate IsPeopleNumericSort(sortBy: string) {
    sortBy == "popularity" || sortBy == "movie_count"
  }

  function PeopleNumericKey(sortBy: string, p: Person): int {
    if sortBy == "popularity" then p.popularity.GetOr(0) else KnownForCount(p)
  }

  /** The comparator `applyPeopleSort` passes to `sort`; `ages` is the published age map. */
  function PeopleCompare(sortBy: string, dir: int, ages: map<int, Option<int>>, a: Person, b: Person): int {
    if sortBy == "name" || sortBy == "title" then LexCompare(ToLower(a.name), ToLower(b.name)) * dir
    else if sortBy == "popularity" then (a.popularity.GetOr(0) - b.popularity.GetOr(0)) * dir
    else if sortBy == "movie_count" then (KnownForCount(a) - KnownForCount(b)) * dir
    else if sortBy == "age" then
      var A := AgeKey(ages, a.id);
      var B := AgeKey(ages, b.id);
      if A.None? && B.None? then 0
      else if A.None? then 1 * dir
      else if B.None? then -1 * dir
      else (A.value - B.value) * dir
    else 0
  }

  function PeopleOrder(sortBy: string, dir: int, ages: map<int, Option<int>>): (Person, Person) -> int {
    (a, b) => PeopleCompare(sortBy, dir, ages, a, b)
  }

  /** `applyPeopleSort(list, sortBy, sortOrder)`: the actors, then sorted when a key is given. */
  function ApplyPeopleSort(list: seq<Person>, sortBy: string, sortOrder: string, ages: map<int, Option<int>>): seq<Person> {
    var actors := Filter(list, IsActor);
    if sortBy == "" then actors else Sort(actors, PeopleOrder(sortBy, Direction(sortOrder), ages))
  }

  lemma PeopleCompareTransitive(sortBy: string, dir: int, ages: map<int, Option<int>>, a: Person, b: Person, c: Person)
    requires dir == 1 || dir == -1
    requires PeopleCompare(sortBy, dir, ages, a, b) <= 0 && PeopleCompare(sortBy, dir, ages, b, c) <= 0
    ensures PeopleCompare(sortBy, dir, ages, a, c) <= 0
  {
    if sortBy == "name" || sortBy == "title" {
      DirectedLexTransitive(ToLower(a.name), ToLower(b.name), ToLower(c.name), dir);
    } else if dir == 1 {
      // the empty branches only split the proof by direction, so each case is linear arithmetic
    } else {
    }
  }

  /** The people comparator, the age one included, is consistent for either direction. */
  lemma PeopleOrderIsComparator(sortBy: string, dir: int, ages: map<int, Option<int>>)
    requires dir == 1 || dir == -1
    ensures IsComparator(PeopleOrder(sortBy, dir, ages))
  {
    var cmp := PeopleOrder(sortBy, dir, ages);
    forall a, b ensures cmp(a, b) < 0 <==> cmp(b, a) > 0 {
      LexAntisymmetric(ToLower(a.name), ToLower(b.name));
      // the empty branches only split the proof by direction, so each case is linear arithmetic
      if dir == 1 {
      } else {
      }
    }
    forall a, b, c | cmp(a, b) <= 0 && cmp(b, c) <= 0 ensures cmp(a, c) <= 0 {
      PeopleCompareTransitive(sortBy, dir, ages, a, b, c);
    }
  }

  /** Whatever the key, the result holds exactly the actors of the input, each as often as
      there; without a key it is the actors' subsequence itself. */
  lemma PeoplePreFilter(list: seq<Person>, sortBy: string, sortOrder: string, ages: map<int, Option<int>>)
    ensures var r := ApplyPeopleSort(list, sortBy, sortOrder, ages);
      && (forall i :: 0 <= i < |r| ==> IsActor(r[i]))
      && (forall p :: multiset(r)[p] == if IsActor(p) then multiset(list)[p] else 0)
      && (sortBy == "" ==> IsSubsequence(r, list))
  {
    PeopleSortKeepsActors(list, sortBy, sortOrder, ages);
    FilterIsSubsequence(list, IsActor);
  }

  lemma PeopleSortKeepsActors(list: seq<Person>, sortBy: string, sortOrder: string, ages: map<int, Option<int>>)
    ensures var r := ApplyPeopleSort(list, sortBy, sortOrder, ages);
      && multiset(r) == multiset(Filter(list, IsActor))
      && (forall i :: 0 <= i < |r| ==> IsActor(r[i]))
      && (forall p :: multiset(r)[p] == if IsActor(p) then multiset(list)[p] else 0)
  {
    var actors := Filter(list, IsActor);
    var r := ApplyPeopleSort(list, sortBy, sortOrder, ages);
    FilterCounts(list, IsActor);
    if sortBy != "" {
      SortPermutation(actors, PeopleOrder(sortBy, Direction(sortOrder), ages));
    }
    assert multiset(r) == multiset(actors);
    forall i | 0 <= i < |r| ensures IsActor(r[i]) {
      assert r[i] in multiset(actors);
    }
  }

  lemma PeopleSortOrdered(list: seq<Person>, sortBy: string, sortOrder: string, ages: map<int, Option<int>>)
    requires sortBy != ""
    ensures SortedBy(ApplyPeopleSort(list, sortBy, sortOrder, ages), PeopleOrder(sortBy, Direction(sortOrder), ages))
  {
    PeopleOrderIsComparator(sortBy, Direction(sortOrder), ages);
    SortSorted(Filter(list, IsActor), PeopleOrder(sortBy, Direction(sortOrder), ages));
  }

  /** Sorting people by age. Ascending: every known age, non-decreasing, before every unknown one.
      Descending: every unknown age first, then the known ones, non-increasing. */
  lemma PeopleSortByAge(list: seq<Person>, sortOrder: string, ages: map<int, Option<int>>)
    ensures var r := ApplyPeopleSort(list, "age", sortOrder, ages);
      forall i, j :: 0 <= i < j < |r| ==>
        var A, B := AgeKey(ages, r[i].id), AgeKey(ages, r[j].id);
        if sortOrder == "asc" then (A.None? ==> B.None?) && (A.Some? && B.Some? ==> A.value <= B.value)
        else (A.Some? ==> B.Some?) && (A.Some? && B.Some? ==> A.value >= B.value)
  {
    PeopleSortOrdered(list, "age", sortOrder, ages);
  }

  /** Sorting people by popularity or by the length of `known_for` orders that number:
      non-decreasing for "asc", non-increasing otherwise. */
  lemma PeopleSortByNumber(list: seq<Person>, sortBy: string, sortOrder: string, ages: map<int, Option<int>>)
    requires IsPeopleNumericSort(sortBy)
    ensures var r := ApplyPeopleSort(list, sortBy, sortOrder, ages);
      forall i, j :: 0 <= i < j < |r| ==>
        if sortOrder == "asc" then PeopleNumericKey(sortBy, r[i]) <= PeopleNumericKey(sortBy, r[j])
        else PeopleNumericKey(sortBy, r[i]) >= PeopleNumericKey(sortBy, r[j])
  {
    PeopleSortOrdered(list, sortBy, sortOrder, ages);
  }

  /** Sorting people by name orders the lower-cased names. */
  lemma PeopleSortByName(list: seq<Person>, sortBy: string, sortOrder: string, ages: map<int, Option<int>>)
    requires sortBy == "name" || sortBy == "title"
    ensures var r := ApplyPeopleSort(list, sortBy, sortOrder, ages);
      forall i, j :: 0 <= i < j < |r| ==>
        if sortOrder == "asc" then LexCompare(ToLower(r[i].name), ToLower(r[j].name)) <= 0
        else LexCompare(ToLower(r[i].name), ToLower(r[j].name)) >= 0
  {
    PeopleSortOrdered(list, sortBy, sortOrder, ages);
  }

  /** With a key it does not recognise the people sort returns the actors in input order. */
  lemma PeopleSortUnrecognised(list: seq<Person>, sortBy: string, sortOrder: string, ages: map<int, Option<int>>)
    requires sortBy != "name" && sortBy != "title" && !IsPeopleNumericSort(sortBy) && sortBy != "age"
    ensures ApplyPeopleSort(list, sortBy, sortOrder, ages) == Filter(list, IsActor)
  {
    if sortBy != "" {
      SortAllTies(Filter(list, IsActor), PeopleOrder(sortBy, Direction(sortOrder), ages));
    }
  }

  /** Actors that tie only when equal in `list` do not tie in its actor subsequence either. */
  lemma ActorsNoTies(list: seq<Person>, cmp: (Person, Person) -> int)
    requires forall i, j :: 0 <= i < |list| && 0 <= j < |list| && IsActor(list[i]) && IsActor(list[j]) && cmp(list[i], list[j]) == 0 ==> list[i] == list[j]
    ensures NoTies(Filter(list, IsActor), cmp)
  {
    var actors := Filter(list, IsActor);
    FilterMembers(list, IsActor);
    forall i, j | 0 <= i < |actors| && 0 <= j < |actors| && cmp(actors[i], actors[j]) == 0
      ensures actors[i] == actors[j]
    {
      var p :| 0 <= p < |list| && list[p] == actors[i];
      var q :| 0 <= q < |list| && list[q] == actors[j];
    }
  }

  /** When no two actors of the list tie under the key, sorting descending gives the ascending
      order back to front. For the age key this includes the actors without a known age: last
      ascending, first descending. */
  lemma PeopleSortDescendingReversed(list: seq<Person>, sortBy: string, sortOrder: string, ages: map<int, Option<int>>)
    requires sortBy != "" && sortOrder != "asc"
    requires forall i, j :: 0 <= i < |list| && 0 <= j < |list| && IsActor(list[i]) && IsActor(list[j]) && PeopleCompare(sortBy, 1, ages, list[i], list[j]) == 0 ==> list[i] == list[j]
    ensures ApplyPeopleSort(list, sortBy, sortOrder, ages) == Reverse(ApplyPeopleSort(list, sortBy, "asc", ages))
  {
    var up, down := PeopleOrder(sortBy, 1, ages), PeopleOrder(sortBy, -1, ages);
    PeopleOrderIsComparator(sortBy, 1, ages);
    PeopleOrderIsComparator(sortBy, -1, ages);
    assert Opposite(up, down) by {
      forall a, b ensures down(a, b) == -up(a, b) {
      }
    }
    ActorsNoTies(list, up);
    SortOpposite(Filter(list, IsActor), up, down);
  }

  /** Actors that tie under the key keep their relative input order; with the age key this holds
      for the actors without a known age, which all tie with each other. */
  lemma PeopleSortStable(list: seq<Person>, sortBy: string, sortOrder: string, ages: map<int, Option<int>>, e: Person)
    requires sortBy != ""
    ensures var cmp := PeopleOrder(sortBy, Direction(sortOrder), ages);
      Filter(ApplyPeopleSort(list, sortBy, sortOrder, ages), TieClass(cmp, e)) == Filter(Filter(list, IsActor), TieClass(cmp, e))
  {
    PeopleOrderIsComparator(sortBy, Direction(sortOrder), ages);
    SortStable(Filter(list, IsActor), PeopleOrder(sortBy, Direction(sortOrder), ages), e);
  }

  /** A one-word name is not an actor's, whatever the department: "Bono" in "Acting" is dropped. */
  lemma BonoExcluded(list: seq<Person>, sortBy: string, sortOrder: string, ages: map<int, Option<int>>, id: int)
    ensures Person(id, "Bono", "Acting", None, None) !in ApplyPeopleSort(list, sortBy, sortOrder, ages)
  {
    var bono := Person(id, "Bono", "Acting", None, None);
    assert !IsSpace("Bono"[0]) && !IsSpace("Bono"[3]);
    NoSpaceTrims("Bono");
    SplitCount("Bono");
    assert !HasSpace("Bono") by {
      forall k | 0 <= k < 4 ensures !IsSpace("Bono"[k]) {
      }
    }
    assert !IsActor(bono);
    PeoplePreFilter(list, sortBy, sortOrder, ages);
    var r := ApplyPeopleSort(list, sortBy, sortOrder, ages);
    assert multiset(r)[bono] == 0;
  }

  lemma UnknownAgeCompare(dir: int, ages: map<int, Option<int>>, a: Person, b: Person)
    requires AgeKey(ages, a.id).None? && AgeKey(ages, b.id).Some?
    ensures PeopleCompare("age", dir, ages, a, b) == dir
  {
  }

  /** Descending by age, an actor without a known age is placed before an actor with one, even
      when the input lists them the other way round. */
  lemma AgeDescendingUnknownFirst(known: Person, unknown: Person, sortOrder: string, ages: map<int, Option<int>>)
    requires IsActor(known) && IsActor(unknown) && sortOrder != "asc"
    requires AgeKey(ages, known.id).Some? && AgeKey(ages, unknown.id).None?
    ensures ApplyPeopleSort([known, unknown], "age", sortOrder, ages) == [unknown, known]
  {
    FilterKeepsPair(known, unknown, IsActor);
    var dir := Direction(sortOrder);
    assert dir == -1;
    var cmp := PeopleOrder("age", dir, ages);
    UnknownAgeCompare(dir, ages, unknown, known);
    assert cmp(unknown, known) == PeopleCompare("age", dir, ages, unknown, known);
    SortSwapsPair(known, unknown, cmp);
  }
}
