# Movies app: playlists store and search page pipeline

A Dafny model of two parts of a React movie browser.

- **The movies context** (`src/contexts/moviesContext.jsx`) is the app-wide store. It holds the
  favorite movie ids, the user's reviews keyed by movie id, and the playlists
  (`{ id, name, movieIds }`). Every handler replaces one of these with a new value. The model
  gives each handler as a function from the old store to the new one (`MoviesStore`). The
  invariant "no id twice in the favorites or in one playlist" (`Valid`) is kept by every
  operation.
- **The search page** (`src/pages/searchPage.jsx`) holds the search state and post-processes
  each page of results before rendering it:
  - the genre filter;
  - the movie sort, a stable sort by title, release date, rating or popularity, in either
    direction;
  - the actor pre-filter: department "acting" and a name of at least two words;
  - the people sort by name, popularity, number of known-for titles, or age.
  Ages come from an effect, `loadAges`. It looks up the missing people four at a time, stores
  the birthday-derived age in a per-session cache, and publishes an id-to-age map unless the
  effect was cancelled.

Modules:

| module | file | what it holds |
|---|---|---|
| `Wrappers` | `wrappers.dfy` | `Option` |
| `Sequences` | `sequences.dfy` | `Array.prototype.filter` as `Filter`, with its counting, subsequence and duplicate-freedom lemmas |
| `Sorting` | `sorting.dfy` | `slice().sort(cmp)` as a stable insertion sort: permutation, order and stability |
| `Strings` | `strings.dfy` | JavaScript white space, `toLowerCase`, `trim`, `split(/\s+/)`, `localeCompare`, `String(n)` and `Number(s)` |
| `MoviesStore` | `movies_store.dfy` | the context's store and its nine handlers |
| `SearchResults` | `search_results.dfy` | `applyGenreFilter`, `applyMovieSort`, `applyPeopleSort` |
| `AgeLoading` | `age_loader.dfy` | `loadAges`: the age arithmetic, the batch loop (imperative, a class over the cache and the published map) |
| `SearchPage` | `search_page.dfy` | the page state, `onSearch`, `handleFilterChange` and the page-reset effect |

Where the code and its comments disagree, the model follows the code:

- In `applyPeopleSort` the fallback for an unknown age is multiplied by the direction
  (`src/pages/searchPage.jsx:177-178`). So descending by age puts the unknown ages *first*,
  although the comment on line 177 says they go last. `SearchResults.AgeDescendingUnknownFirst`
  proves the code's behaviour on a two-element input. `SearchResults.PeopleSortByAge` states
  both directions.

## Model

| member | source | states |
|---|---|---|
| MoviesStore.Initial | src/contexts/moviesContext.jsx:8-10 | The store starts with no favorites, no reviews and no playlists, and it satisfies the duplicate-freedom invariant. |
| MoviesStore.AddToFavorites | src/contexts/moviesContext.jsx:31-39 | An id already among the favorites leaves them as they are; a new id is appended at the end. The resulting set of ids is the old set plus the new one. Reviews and playlists are untouched, and the invariant is kept. |
| MoviesStore.RemoveFromFavorites | src/contexts/moviesContext.jsx:42-44 | The id no longer occurs. Every other id keeps its multiplicity, and the result is a subsequence of the old favorites (order kept). The rest of the store is untouched, and the invariant is kept. |
| MoviesStore.AddReview | src/contexts/moviesContext.jsx:46-48 | The review map gains (or overwrites) exactly the movie's key with the new review. Every other key keeps its review. |
| MoviesStore.CreatePlaylist | src/contexts/moviesContext.jsx:51-58 | Exactly one empty playlist is appended, under the supplied id, named by the argument or "New Playlist". The id is returned, the earlier playlists are unchanged, and the invariant is kept. |
| MoviesStore.DeletePlaylist | src/contexts/moviesContext.jsx:60-62 | No playlist with the id remains. Every other playlist keeps its multiplicity and order. Favorites and reviews are untouched. |
| MoviesStore.RenamePlaylist | src/contexts/moviesContext.jsx:64-66 | The same playlists with the same ids and movies; only the matching ones take the new name. |
| MoviesStore.AddMovieToPlaylist | src/contexts/moviesContext.jsx:68-75 | The movie (an object's id or a bare id) is in every matching playlist afterwards. It is appended only where it was absent. Other playlists and all ids are unchanged, and the invariant is kept. |
| MoviesStore.MovieIdOf | src/contexts/moviesContext.jsx:69 | The id of a movie argument: an object's `id`, or the bare id itself. AddMovieToPlaylist states how it is used. |
| MoviesStore.RemoveMovieFromPlaylist | src/contexts/moviesContext.jsx:77-81 | The matching playlists lose every occurrence of the movie and keep every other movie, in order. Other playlists, ids and names are unchanged. |
| MoviesStore.ClearPlaylist | src/contexts/moviesContext.jsx:83-85 | The matching playlists are emptied. Ids, names and every other playlist are unchanged. |
| MoviesStore.RemoveUndoesAddFavorite | src/contexts/moviesContext.jsx:31-44 | Removing a favorite that was just added, and was not there before, restores the store exactly. |
| MoviesStore.DeleteUndoesCreate | src/contexts/moviesContext.jsx:54-62 | Deleting a playlist just created under a fresh id restores the store exactly. |
| MoviesStore.CreateKeepsIdsDistinct | src/contexts/moviesContext.jsx:51-58 | If the ids were distinct and the new id is fresh, the ids stay distinct. |
| MoviesStore.AddMovieIdempotent | src/contexts/moviesContext.jsx:68-75 | Adding the same movie to the same playlist twice gives the same store as adding it once. |
| MoviesStore.AddMovieExactlyOnce | src/contexts/moviesContext.jsx:68-75 | In a valid store, after the add, the movie occurs exactly once in each matching playlist. |
| MoviesStore.RemoveUndoesAddMovie | src/contexts/moviesContext.jsx:68-81 | Removing a movie just added to playlists that did not hold it restores the store exactly. |
| MoviesStore.CreateThenRename | src/contexts/moviesContext.jsx:54-66 | Creating "X" under a fresh id and renaming it to "Y" leaves one empty playlist "Y" with that id, after the unchanged earlier ones. |
| SearchResults.ApplyGenreFilter | src/pages/searchPage.jsx:130-137 | Without a positive genre number the input comes back unchanged. Otherwise the result holds exactly the movies whose genre array lists the genre, with their multiplicities, in input order. |
| SearchResults.GenreFilterIdempotent | src/pages/searchPage.jsx:130-137 | Filtering a second time by the same genre changes nothing. |
| SearchResults.MovieCompare | src/pages/searchPage.jsx:110-127 | The comparator: lower-cased title (or name) order for "title" and "name", the number (missing as 0) for "release_date", "vote_average" and "popularity", 0 for any other key, each times the direction. Its properties are stated by MovieOrderIsComparator. |
| SearchResults.ApplyMovieSort | src/pages/searchPage.jsx:106-128 | The movie sort: the input itself without a key, otherwise the stable sort of a copy by MovieCompare. Its contract is carried by MovieSortPermutation, MovieSortOrdered, MovieSortByTitle, MovieSortByNumber, MovieSortUnrecognised, MovieSortStable and MovieSortDescendingReversed. |
| SearchResults.MovieOrderIsComparator | src/pages/searchPage.jsx:110-127 | The movie comparator is consistent in both directions: its sign flips with the arguments, and "not after" is transitive. |
| SearchResults.MovieSortPermutation | src/pages/searchPage.jsx:106-128 | The movie sort only reorders: the result is a permutation of the input. |
| SearchResults.MovieSortOrdered | src/pages/searchPage.jsx:106-128 | With a key, every movie is "not after" every later one under the page's comparator. |
| SearchResults.MovieSortByTitle | src/pages/searchPage.jsx:111-115 | Sorting by title or name orders the lower-cased title (or name when the title is missing): non-decreasing for "asc", non-increasing otherwise. |
| SearchResults.MovieSortByNumber | src/pages/searchPage.jsx:116-125 | Sorting by release date, rating or popularity orders that number, missing counting as 0: non-decreasing for "asc", non-increasing otherwise. |
| SearchResults.MovieSortUnrecognised | src/pages/searchPage.jsx:108-126 | With no key, or a key the comparator does not recognise, the list comes back in input order. |
| SearchResults.MovieSortStable | src/pages/searchPage.jsx:110-127 | Movies that tie under the comparator keep their relative input order. |
| SearchResults.MovieSortDescendingReversed | src/pages/searchPage.jsx:106-128 | When no two listed movies tie under the key, the descending sort is the ascending sort back to front, for every key. |
| SearchResults.MovieSortExample | src/pages/searchPage.jsx:110-115 | Titles "B", "A" sorted by title ascending come out "A", "B". |
| SearchResults.IsActor | src/pages/searchPage.jsx:142-148 | The pre-filter's test: the lower-cased department is "acting" and the trimmed name splits into at least two fields. MultiWordIffInnerSpace and BonoExcluded say what the name test means. |
| SearchResults.PeopleCompare | src/pages/searchPage.jsx:151-182 | The comparator: lower-cased names, popularity (missing as 0), `known_for` length, or the three-way published-age comparison, each times the direction, and 0 for any other key. Its properties are stated by PeopleOrderIsComparator. |
| SearchResults.ApplyPeopleSort | src/pages/searchPage.jsx:140-183 | The actors of the input, then, with a key, their stable sort by PeopleCompare. Its contract is carried by PeoplePreFilter, PeopleSortKeepsActors, PeopleSortOrdered, the PeopleSortBy lemmas, PeopleSortUnrecognised and PeopleSortDescendingReversed. |
| SearchResults.PeopleOrderIsComparator | src/pages/searchPage.jsx:151-182 | The people comparator, the three-way age comparison included, is consistent in both directions. |
| SearchResults.PeoplePreFilter | src/pages/searchPage.jsx:142-149 | Whatever the key, everyone in the result passes the actor test (department "acting", a name of two words or more). Each person occurs as often as in the input if they pass it, and otherwise not at all. Without a key the result keeps the input order. |
| SearchResults.PeopleSortKeepsActors | src/pages/searchPage.jsx:142-151 | The people sort is a permutation of the actors filtered from the input. |
| SearchResults.PeopleSortOrdered | src/pages/searchPage.jsx:149-182 | With a key, every person is "not after" every later one under the page's comparator. |
| SearchResults.PeopleSortByName | src/pages/searchPage.jsx:152-156 | Sorting by name orders the lower-cased names in the chosen direction. |
| SearchResults.PeopleSortByNumber | src/pages/searchPage.jsx:157-166 | Sorting by popularity or by the length of `known_for` orders that number in the chosen direction. |
| SearchResults.PeopleSortByAge | src/pages/searchPage.jsx:167-180 | Ascending: every known age comes before every unknown one, and the known ages are non-decreasing. Descending: every unknown age comes first, and the known ages are non-increasing. |
| SearchResults.AgeDescendingUnknownFirst | src/pages/searchPage.jsx:176-178 | Descending by age, an actor without a known age is placed before one with a known age. |
| SearchResults.PeopleSortUnrecognised | src/pages/searchPage.jsx:149-181 | With a key the comparator does not recognise, the result is the actors in input order. |
| SearchResults.PeopleSortStable | src/pages/searchPage.jsx:151-182 | Actors that tie under the key keep their relative input order; for the age key this covers the actors without a known age, which all tie. |
| SearchResults.PeopleSortDescendingReversed | src/pages/searchPage.jsx:149-182 | When no two actors of the list tie under the key, the descending sort is the ascending sort back to front, for every key. For "age" this moves the actors without a known age from the end to the front. |
| SearchResults.BonoExcluded | src/pages/searchPage.jsx:146-147 | A one-word name is never an actor's: "Bono" in "Acting" is not in the result. |
| Sorting.SortPermutation | src/pages/searchPage.jsx:110 | The sort of a copy has the same elements with the same multiplicities. |
| Sorting.SortSorted | src/pages/searchPage.jsx:110 | With a consistent comparator the result is ordered. |
| Sorting.SortStable | src/pages/searchPage.jsx:151 | Stability: for every element, the elements that tie with it appear in the result in their input order. |
| Sorting.SortAllTies | src/pages/searchPage.jsx:126 | A comparator that reports no difference among the elements leaves their order as it is. |
| Sorting.SortedUnique | src/pages/searchPage.jsx:151 | Two sequences sorted by the same comparator, with the same elements and no ties among them, are equal. |
| Sorting.SortOpposite | src/pages/searchPage.jsx:109-110 | Without ties, sorting by the comparator with its sign flipped gives the sorted sequence back to front. |
| Sorting.SortSwapsPair | src/pages/searchPage.jsx:151 | Two elements given in the wrong order come out swapped. |
| Strings.ToLower | src/pages/searchPage.jsx:112-113 | Lower-casing keeps the length and leaves no upper-case letter. Each upper-case letter becomes the lower-case letter at the same position, and every other character is kept. |
| Strings.ToLowerIdempotent | src/pages/searchPage.jsx:112-113 | Lower-casing a lower-cased string changes nothing. |
| Strings.Trim | src/pages/searchPage.jsx:72 | Neither end of the trimmed string is white space. |
| Strings.TrimSlice | src/pages/searchPage.jsx:72 | The trimmed string is a contiguous slice of the input, with only white space before and after it. |
| Strings.Split | src/pages/searchPage.jsx:147 | `split(/\s+/)`: at least one field. Its count is stated by SplitCount. |
| Strings.SplitCount | src/pages/searchPage.jsx:147 | Splitting on runs of white space gives at least two fields exactly when the string contains white space. |
| Strings.MultiWordIffInnerSpace | src/pages/searchPage.jsx:146-147 | A name passes the two-word test exactly when some white space stands between two other characters of it. |
| Strings.LexAntisymmetric | src/pages/searchPage.jsx:114 | Swapping the arguments of the string comparison flips its sign. |
| Strings.LexZeroIffEqual | src/pages/searchPage.jsx:114 | Only equal strings compare equal. |
| Strings.LexTransitive | src/pages/searchPage.jsx:155 | "Not after" on strings is transitive. |
| Strings.ToNumber | src/pages/searchPage.jsx:132 | `Number(s)` on a trimmed, optionally signed run of decimal digits, 0 for an empty or white-space string, and NaN (`None`) otherwise. DecimalRoundTrip and NumericGenreFilters state what it gives. |
| Strings.DecimalRoundTrip | src/pages/searchPage.jsx:101 | `Number(String(n))` gives back `n` for every integer `n`. |
| AgeLoading.Age | src/pages/searchPage.jsx:226-229 | The computed age is the number of anniversaries of the birthday reached by the given date: the k-th anniversary is reached exactly when k does not exceed the age. It is non-negative for a birthday not in the future. |
| AgeLoading.AgeEntry | src/pages/searchPage.jsx:224-233 | The entry stored for one lookup: the age for a birthday, null without one. What the age means is stated by Age. |
| AgeLoading.PersonIds | src/pages/searchPage.jsx:191 | The ids of the people, with the falsy id 0 dropped. The result is a subsequence of the listed ids, in their order. Every occurrence of a non-zero id is kept, and no id is 0. |
| AgeLoading.MissingIds | src/pages/searchPage.jsx:192 | The missing ids are a subsequence of the listed ids, in the same order. Every occurrence of an id without a cache entry is kept, and no cached id remains. |
| AgeLoading.PublishedAges | src/pages/searchPage.jsx:194-200 | The published map has one key per listed id, holding the cached value or null. |
| AgeLoading.Fill | src/pages/searchPage.jsx:224-234 | The cache after the entries of a list of ids are written into it one by one. Its contents are stated by FillContents. |
| AgeLoading.FillContents | src/pages/searchPage.jsx:224-234 | Writing the lookups of a list of ids into the cache adds exactly those ids. Each gets its own lookup's entry, and every other entry is kept. |
| AgeLoading.WriteBatch | src/pages/searchPage.jsx:224-234 | Writing one batch's results extends the cache from the ids before the batch to the ids up to its end. |
| AgeLoading.LookUpBatches | src/pages/searchPage.jsx:206-235 | The loop reports cancellation exactly when the cancelling batch exists. The batches whose results were written are consecutive slices of four. Together they cover the first `Filled` missing ids (all of them if not cancelled), and the cache is the old one filled with exactly those ids. On a cancelled run the batch that was looked up and then dropped is the next slice of four; otherwise nothing is dropped. |
| AgeLoading.AgeLoader.constructor | src/pages/searchPage.jsx:35-36 | The session cache and the published ages start empty. |
| AgeLoading.AgeLoader.LoadAges | src/pages/searchPage.jsx:188-247 | Outside a people search sorted by age, or with no people, nothing changes. Otherwise the cache is filled with the missing ids whose batches were written (as in LookUpBatches), and a cancelled run names the batch it looked up but dropped. When nothing was missing, or the run was not cancelled, the published map holds one key per listed id with its cached value or null. A cancelled run leaves the published map as it was. |
| AgeLoading.LoadedAgesComplete | src/pages/searchPage.jsx:191-243 | After a full run every listed id has a cached value. Ids that were already cached keep theirs, and the missing ones get their lookup's entry. |
| SearchPage.InitialState | src/pages/searchPage.jsx:22-30 | The page starts on page 1 with an empty term and query, searching movies, no sort key, ascending, and no genre selected. |
| SearchPage.OnSearch | src/pages/searchPage.jsx:71-75 | Searching goes to page 1. The committed query has no white space at either end, and nothing but the query and the page changes. |
| SearchPage.OnSearchTrims | src/pages/searchPage.jsx:72 | The committed query is the term's slice between its leading and its trailing white space. |
| SearchPage.OnSearchIdempotent | src/pages/searchPage.jsx:71-75 | Searching again without editing the term changes nothing. |
| SearchPage.AsString | src/pages/searchPage.jsx:101 | `String(v)`: a text value as it is, a number in decimal. NumericGenreFilters states what the genre filter makes of it. |
| SearchPage.HandleFilterChange | src/pages/searchPage.jsx:93-103 | "name" sets the term, "sortBy" and "sortOrder" set the sort, "filterType" sets both the filter type and the searched entity type, and "genre" stores `String(v)`. Each leaves every other field as it was, and any other tag changes nothing. |
| SearchPage.FilterChangeKeepsQuery | src/pages/searchPage.jsx:93-103 | A filter change never changes the committed query or the page by itself. |
| SearchPage.NumericGenreFilters | src/pages/searchPage.jsx:132-133 | A genre passed as the number `n` turns the genre filter on exactly when `n` is positive, and then filters by `n` itself. Otherwise it does not filter. |
| SearchPage.ResetPage | src/pages/searchPage.jsx:88-91 | The page goes back to 1 exactly when the query, the entity type, the sort key, the sort order or the genre changed between renders. Nothing else changes. |
| SearchPage.FilterChangeResetsPage | src/pages/searchPage.jsx:88-103 | A filter change that alters the sort, the genre or the entity type ends on page 1, while editing the term keeps the page. |

## Left out

- Rendering (JSX, Material UI), pagination controls, scrolling and `handleSearchPageChange`
  (`src/pages/searchPage.jsx:77-86`) are user interface with no logic to prove.
- The `localStorage` load and persist effects (`src/contexts/moviesContext.jsx:13-29`) are I/O.
  The model starts from the empty store.
- `generateId` reads the clock (`src/contexts/moviesContext.jsx:51`). `MoviesStore.CreatePlaylist`
  takes the new id as a parameter, and the lemmas about fresh ids require it not to be in use.
  Two playlists created in the same millisecond would share an id; nothing in the code prevents
  that.
- `MoviesStore.AddToFavorites`, `MoviesStore.RemoveFromFavorites`, `MoviesStore.AddReview`:
  these handlers compute the new value from the favorites and reviews of the render they were
  created in (`src/contexts/moviesContext.jsx:33-38, 43, 47`). The playlist handlers use a
  functional update (lines 56, 61, 65, 70, 78, 84). So two favorites or review updates in one
  event keep only the last, while playlist updates compose. The model applies every handler to
  the latest store, so it does not capture that lost update.
- The search hooks (`useSearchMovies`, `useSearchPeople`) and the network are not part of this
  model. Their results are inputs.
- `AgeLoading.AgeLoader.LoadAges`: `getPerson` is a pure lookup that returns the birthday or
  `None`; a failed request, a missing person and a missing birthday all give `None`. The four
  concurrent requests of one batch (`Promise.all`) are therefore not ordered.
- `AgeLoading.AgeLoader.LoadAges`: the clock is read once per run (`now`), while the code reads
  it once per batch (line 223).
- `AgeLoading.AgeLoader.LoadAges`: cancellation is a parameter naming the batch before whose
  results the flag is first seen. The flag is only set between awaits, so the check after the
  loop (line 236) sees the same value as the last check inside it.
- `AgeLoading.AgeLoader.LoadAges`: the `peopleAgesLoading` flag (lines 204 and 245-247) has no
  effect on the data and is left out.
- Birthdays are dates (year, month, day) rather than strings. `new Date(...)` parsing and time
  zones are left out. `Date.parse` of a release date is an integer timestamp.
- Numbers are integers. Fractional ratings and popularity, and `Number` on forms other than an
  optionally signed run of decimal digits (hex, exponents, fractions), are not modelled.
  `Strings.ToNumber` gives `None` (NaN) for them.
- `Strings.ToLower` maps the ASCII letters only. `Strings.IsSpace` covers the ASCII white space,
  the no-break space and the byte-order mark. It leaves out the other Unicode space separators
  and the line terminators U+2028 and U+2029, which `trim` and `\s` also strip.
- `Strings.LexCompare` stands for `localeCompare` as character-code order. Locale collation is
  not modelled.
- `null` lists and `null` people (`!list`, `!p` at lines 107, 131, 141, 143) cannot occur in the
  typed model. Missing string fields are the empty string, and missing numbers are `None`.
- `SearchPage.HandleFilterChange` requires the text tags ("name", "sortBy", "sortOrder",
  "filterType") to come with a text value, as the filter card passes them. The code would store
  whatever value it is given.
- Console diagnostics (lines 40-51) are left out.
