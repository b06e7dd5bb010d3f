/** The favorites, reviews and playlists store of the movies context. Every operation builds a
    new value from the old one (spread, `filter`, `map`, `includes`) and replaces the whole
    collection, so each is a function from the old store to the new one. */
module MoviesStore {
  import opened Wrappers
  import opened Sequences

  type MovieId = int
  type PlaylistId = string

  /** `{ id, name, movieIds }`. */
  datatype Playlist = Playlist(id: PlaylistId, name: string, movieIds: seq<MovieId>)

  /** `favorites`, `myReviews` (keyed by movie id) and `playlists`. */
  datatype Store<R> = Store(favorites: seq<MovieId>, myReviews: map<MovieId, R>, playlists: seq<Playlist>)

  /** The argument of `addMovieToPlaylist`: a movie object or a bare id. */
  datatype MovieArg = MovieObject(id: MovieId) | BareId(id: MovieId)

  const DefaultPlaylistName: string := "New Playlist"

  /** The state every provider starts from. */
  function Initial<R>(): (s: Store<R>)
    ensures Valid(s) && s.favorites == [] && s.myReviews == map[] && s.playlists == []
  {
    Store([], map[], [])
  }

  /** No movie id twice in the favorites, nor twice in any one playlist. */
  ghost predicate Valid<R>(s: Store<R>) {
    && NoDuplicates(s.favorites)
    && forall i :: 0 <= i < |s.playlists| ==> NoDuplicates(s.playlists[i].movieIds)
  }

  function PlaylistIds(ps: seq<Playlist>): (r: seq<PlaylistId>)
    ensures |r| == |ps| && forall i :: 0 <= i < |ps| ==> r[i] == ps[i].id
  {
    seq(|ps|, i requires 0 <= i < |ps| => ps[i].id)
  }

  /** `p.map(f)`. */
  function MapPlaylists(ps: seq<Playlist>, f: Playlist -> Playlist): (r: seq<Playlist>)
    ensures |r| == |ps| && forall i :: 0 <= i < |ps| ==> r[i] == f(ps[i])
  {
    seq(|ps|, i requires 0 <= i < |ps| => f(ps[i]))
  }

  /** `addToFavorites(movie)` with `movieId == movie.id`: appends the id unless it is already there. */
  function AddToFavorites<R>(s: Store<R>, movieId: MovieId): (r: Store<R>)
    ensures r.myReviews == s.myReviews && r.playlists == s.playlists
    ensures movieId in s.favorites ==> r.favorites == s.favorites
    ensures movieId !in s.favorites ==> r.favorites == s.favorites + [movieId]
    ensures forall x :: x in r.favorites <==> x in s.favorites || x == movieId
    ensures Valid(s) ==> Valid(r)
  {
    if movieId !in s.favorites then
      NoDuplicatesAppend(s.favorites, movieId);
      s.(favorites := s.favorites + [movieId])
    else s.(favorites := s.favorites)
  }

  function Except(movieId: MovieId): MovieId -> bool {
    m => m != movieId
  }

  /** `removeFromFavorites(movie)`: drops every occurrence of the id, keeps every other id with its
      multiplicity and in its order. */
  function RemoveFromFavorites<R>(s: Store<R>, movieId: MovieId): (r: Store<R>)
    ensures r.myReviews == s.myReviews && r.playlists == s.playlists
    ensures movieId !in r.favorites
    ensures forall x :: x != movieId ==> multiset(r.favorites)[x] == multiset(s.favorites)[x]
    ensures IsSubsequence(r.favorites, s.favorites)
    ensures Valid(s) ==> Valid(r)
  {
    var kept := Filter(s.favorites, Except(movieId));
    FilterIsSubsequence(s.favorites, Except(movieId));
    FilterCounts(s.favorites, Except(movieId));
    FilterNoDuplicates(s.favorites, Except(movieId));
    FilterMembers(s.favorites, Except(movieId));
    s.(favorites := kept)
  }

  /** `addReview(movie, review)`: the review is stored under the movie id, every other key as it was. */
  function AddReview<R>(s: Store<R>, movieId: MovieId, review: R): (r: Store<R>)
    ensures r.favorites == s.favorites && r.playlists == s.playlists
    ensures r.myReviews.Keys == s.myReviews.Keys + {movieId}
    ensures r.myReviews[movieId] == review
    ensures forall k :: k in s.myReviews && k != movieId ==> r.myReviews[k] == s.myReviews[k]
    ensures Valid(s) ==> Valid(r)
  {
    s.(myReviews := s.myReviews[movieId := review])
  }

  /** `createPlaylist(name)` with the generated id passed in: appends one empty playlist and
      returns its id. A missing name is "New Playlist". */
  function CreatePlaylist<R>(s: Store<R>, newId: PlaylistId, name: Option<string>): (r: (Store<R>, PlaylistId))
    ensures r.1 == newId
    ensures r.0.favorites == s.favorites && r.0.myReviews == s.myReviews
    ensures |r.0.playlists| == |s.playlists| + 1
    ensures r.0.playlists[..|s.playlists|] == s.playlists
    ensures r.0.playlists[|s.playlists|] == Playlist(newId, name.GetOr(DefaultPlaylistName), [])
    ensures Valid(s) ==> Valid(r.0)
  {
    var newList := Playlist(newId, name.GetOr(DefaultPlaylistName), []);
    (s.(playlists := s.playlists + [newList]), newList.id)
  }

  function OtherThan(playlistId: PlaylistId): Playlist -> bool {
    (pl: Playlist) => pl.id != playlistId
  }

  /** `deletePlaylist(playlistId)`: removes exactly the playlists with that id; the others keep
      their order, contents and multiplicity. */
  function DeletePlaylist<R>(s: Store<R>, playlistId: PlaylistId): (r: Store<R>)
    ensures r.favorites == s.favorites && r.myReviews == s.myReviews
    ensures forall i :: 0 <= i < |r.playlists| ==> r.playlists[i].id != playlistId
    ensures forall p: Playlist :: p.id != playlistId ==> multiset(r.playlists)[p] == multiset(s.playlists)[p]
    ensures IsSubsequence(r.playlists, s.playlists)
    ensures Valid(s) ==> Valid(r)
  {
    var kept := Filter(s.playlists, OtherThan(playlistId));
    FilterIsSubsequence(s.playlists, OtherThan(playlistId));
    FilterCounts(s.playlists, OtherThan(playlistId));
    FilterMembers(s.playlists, OtherThan(playlistId));
    s.(playlists := kept)
  }

  /** `renamePlaylist(playlistId, newName)`: same length, same ids, same movie lists; only the
      names of the matching playlists change. */
  function RenamePlaylist<R>(s: Store<R>, playlistId: PlaylistId, newName: string): (r: Store<R>)
    ensures r.favorites == s.favorites && r.myReviews == s.myReviews
    ensures |r.playlists| == |s.playlists|
    ensures PlaylistIds(r.playlists) == PlaylistIds(s.playlists)
    ensures forall i :: 0 <= i < |s.playlists| ==>
      && r.playlists[i].movieIds == s.playlists[i].movieIds
      && r.playlists[i].name == if s.playlists[i].id == playlistId then newName else s.playlists[i].name
    ensures Valid(s) ==> Valid(r)
  {
    s.(playlists := MapPlaylists(s.playlists, (pl: Playlist) => if pl.id == playlistId then pl.(name := newName) else pl))
  }

  /** The id of a movie object, or the bare id itself. */
  function MovieIdOf(movie: MovieArg): MovieId {
    match movie
    case MovieObject(id) => id
    case BareId(id) => id
  }

  function WithMovie(playlistId: PlaylistId, movieId: MovieId): Playlist -> Playlist {
    (pl: Playlist) => if pl.id == playlistId && movieId !in pl.movieIds then pl.(movieIds := pl.movieIds + [movieId]) else pl
  }

  /** `addMovieToPlaylist(playlistId, movie)`: the movie is in every matching playlist afterwards,
      appended only where it was absent; ids, names and the other playlists do not change. */
  function AddMovieToPlaylist<R>(s: Store<R>, playlistId: PlaylistId, movie: MovieArg): (r: Store<R>)
    ensures r.favorites == s.favorites && r.myReviews == s.myReviews
    ensures |r.playlists| == |s.playlists|
    ensures PlaylistIds(r.playlists) == PlaylistIds(s.playlists)
    ensures forall i :: 0 <= i < |s.playlists| ==>
      && r.playlists[i].name == s.playlists[i].name
      && (s.playlists[i].id != playlistId ==> r.playlists[i] == s.playlists[i])
      && (s.playlists[i].id == playlistId ==> MovieIdOf(movie) in r.playlists[i].movieIds)
      && (s.playlists[i].id == playlistId && MovieIdOf(movie) !in s.playlists[i].movieIds ==>
            r.playlists[i].movieIds == s.playlists[i].movieIds + [MovieIdOf(movie)])
      && (MovieIdOf(movie) in s.playlists[i].movieIds ==> r.playlists[i] == s.playlists[i])
    ensures Valid(s) ==> Valid(r)
  {
    var movieId := MovieIdOf(movie);
    var ps := MapPlaylists(s.playlists, WithMovie(playlistId, movieId));
    assert forall i :: 0 <= i < |ps| && NoDuplicates(s.playlists[i].movieIds) ==> NoDuplicates(ps[i].movieIds) by {
      forall i | 0 <= i < |ps| ensures NoDuplicates(s.playlists[i].movieIds) ==> NoDuplicates(ps[i].movieIds) {
        NoDuplicatesAppend(s.playlists[i].movieIds, movieId);
      }
    }
    s.(playlists := ps)
  }

  /** `removeMovieFromPlaylist(playlistId, movieId)`: the matching playlists lose every occurrence
      of the movie and keep the rest in order; nothing else changes. */
  function RemoveMovieFromPlaylist<R>(s: Store<R>, playlistId: PlaylistId, movieId: MovieId): (r: Store<R>)
    ensures r.favorites == s.favorites && r.myReviews == s.myReviews
    ensures |r.playlists| == |s.playlists|
    ensures PlaylistIds(r.playlists) == PlaylistIds(s.playlists)
    ensures forall i :: 0 <= i < |s.playlists| ==>
      && r.playlists[i].name == s.playlists[i].name
      && (s.playlists[i].id != playlistId ==> r.playlists[i] == s.playlists[i])
      && (s.playlists[i].id == playlistId ==>
            && movieId !in r.playlists[i].movieIds
            && IsSubsequence(r.playlists[i].movieIds, s.playlists[i].movieIds)
            && forall x :: x != movieId ==>
                 multiset(r.playlists[i].movieIds)[x] == multiset(s.playlists[i].movieIds)[x])
    ensures Valid(s) ==> Valid(r)
  {
    var ps := MapPlaylists(s.playlists,
      (pl: Playlist) => if pl.id == playlistId then pl.(movieIds := Filter(pl.movieIds, Except(movieId))) else pl);
    assert forall i :: 0 <= i < |ps| && s.playlists[i].id == playlistId ==>
      && movieId !in ps[i].movieIds
      && IsSubsequence(ps[i].movieIds, s.playlists[i].movieIds)
      && forall x :: x != movieId ==> multiset(ps[i].movieIds)[x] == multiset(s.playlists[i].movieIds)[x]
    by {
      forall i | 0 <= i < |ps| && s.playlists[i].id == playlistId
        ensures movieId !in ps[i].movieIds
        ensures IsSubsequence(ps[i].movieIds, s.playlists[i].movieIds)
        ensures forall x :: x != movieId ==> multiset(ps[i].movieIds)[x] == multiset(s.playlists[i].movieIds)[x]
      {
        FilterIsSubsequence(s.playlists[i].movieIds, Except(movieId));
        FilterCounts(s.playlists[i].movieIds, Except(movieId));
        FilterMembers(s.playlists[i].movieIds, Except(movieId));
      }
    }
    assert forall i :: 0 <= i < |ps| && NoDuplicates(s.playlists[i].movieIds) ==> NoDuplicates(ps[i].movieIds) by {
      forall i | 0 <= i < |ps| ensures NoDuplicates(s.playlists[i].movieIds) ==> NoDuplicates(ps[i].movieIds) {
        FilterNoDuplicates(s.playlists[i].movieIds, Except(movieId));
      }
    }
    s.(playlists := ps)
  }

  /** `clearPlaylist(playlistId)`: the matching playlists are emptied; nothing else changes. */
  function ClearPlaylist<R>(s: Store<R>, playlistId: PlaylistId): (r: Store<R>)
    ensures r.favorites == s.favorites && r.myReviews == s.myReviews
    ensures |r.playlists| == |s.playlists|
    ensures PlaylistIds(r.playlists) == PlaylistIds(s.playlists)
    ensures forall i :: 0 <= i < |s.playlists| ==>
      && r.playlists[i].name == s.playlists[i].name
      && r.playlists[i].movieIds == if s.playlists[i].id == playlistId then [] else s.playlists[i].movieIds
    ensures Valid(s) ==> Valid(r)
  {
    s.(playlists := MapPlaylists(s.playlists, (pl: Playlist) => if pl.id == playlistId then pl.(movieIds := []) else pl))
  }

  /** Removing a favorite that was just added restores the favorites. */
  lemma {:induction false} RemoveUndoesAddFavorite<R>(s: Store<R>, movieId: MovieId)
    requires movieId !in s.favorites
    ensures RemoveFromFavorites(AddToFavorites(s, movieId), movieId) == s
  {
    var fav := s.favorites;
    FilterAppend(fav, [movieId], Except(movieId));
    FilterKeepsAll(fav, Except(movieId));
    assert Filter([movieId], Except(movieId)) == [] by {
      assert [movieId][1..] == [];
    }
  }

  /** Deleting a playlist that was just created under a fresh id restores the playlists. */
  lemma {:induction false} DeleteUndoesCreate<R>(s: Store<R>, newId: PlaylistId, name: Option<string>)
    requires newId !in PlaylistIds(s.playlists)
    ensures DeletePlaylist(CreatePlaylist(s, newId, name).0, newId) == s
  {
    var ps := s.playlists;
    var created := Playlist(newId, name.GetOr(DefaultPlaylistName), []);
    assert CreatePlaylist(s, newId, name).0.playlists == ps + [created];
    FilterAppend(ps, [created], OtherThan(newId));
    forall i | 0 <= i < |ps| ensures OtherThan(newId)(ps[i]) {
      assert PlaylistIds(ps)[i] == ps[i].id;
    }
    FilterKeepsAll(ps, OtherThan(newId));
    assert Filter([created], OtherThan(newId)) == [] by {
      assert [created][1..] == [];
    }
  }

  /** A fresh id keeps the playlist ids distinct. */
  lemma CreateKeepsIdsDistinct<R>(s: Store<R>, newId: PlaylistId, name: Option<string>)
    requires NoDuplicates(PlaylistIds(s.playlists)) && newId !in PlaylistIds(s.playlists)
    ensures NoDuplicates(PlaylistIds(CreatePlaylist(s, newId, name).0.playlists))
  {
    var ids := PlaylistIds(CreatePlaylist(s, newId, name).0.playlists);
    assert ids == PlaylistIds(s.playlists) + [newId];
    NoDuplicatesAppend(PlaylistIds(s.playlists), newId);
  }

  /** Adding the same movie twice is adding it once. */
  lemma AddMovieIdempotent<R>(s: Store<R>, playlistId: PlaylistId, movie: MovieArg)
    ensures AddMovieToPlaylist(AddMovieToPlaylist(s, playlistId, movie), playlistId, movie)
         == AddMovieToPlaylist(s, playlistId, movie)
  {
    var once := AddMovieToPlaylist(s, playlistId, movie);
    var twice := AddMovieToPlaylist(once, playlistId, movie);
    assert twice.playlists == once.playlists by {
      forall i | 0 <= i < |once.playlists| ensures twice.playlists[i] == once.playlists[i] {
        if once.playlists[i].id == playlistId {
          assert MovieIdOf(movie) in once.playlists[i].movieIds;
        }
      }
    }
  }

  /** In a valid store, after adding a movie (once or more) every matching playlist holds it
      exactly once. */
  lemma AddMovieExactlyOnce<R>(s: Store<R>, playlistId: PlaylistId, movie: MovieArg, i: nat)
    requires Valid(s) && i < |s.playlists| && s.playlists[i].id == playlistId
    ensures multiset(AddMovieToPlaylist(s, playlistId, movie).playlists[i].movieIds)[MovieIdOf(movie)] == 1
  {
    var r := AddMovieToPlaylist(s, playlistId, movie);
    var ids := r.playlists[i].movieIds;
    var m := MovieIdOf(movie);
    assert NoDuplicates(ids);
    OccursOnce(ids, m);
  }

  lemma {:induction false} OccursOnce<T>(s: seq<T>, x: T)
    requires NoDuplicates(s) && x in s
    ensures multiset(s)[x] == 1
  {
    SplitFirst(s);
    assert NoDuplicates(s[1..]) by {
      forall i, j | 0 <= i < j < |s| - 1 ensures s[1..][i] != s[1..][j] {
        assert s[1..][i] == s[i + 1] && s[1..][j] == s[j + 1];
      }
    }
    if s[0] == x {
      assert x !in s[1..] by {
        forall k | 0 <= k < |s| - 1 ensures s[1..][k] != x {
          assert s[1..][k] == s[k + 1];
        }
      }
    } else {
      OccursOnce(s[1..], x);
    }
  }

  /** Removing a movie that was just added (and that no matching playlist held) restores the
      playlists. */
  lemma RemoveUndoesAddMovie<R>(s: Store<R>, playlistId: PlaylistId, movieId: MovieId)
    requires forall i :: 0 <= i < |s.playlists| && s.playlists[i].id == playlistId ==>
      movieId !in s.playlists[i].movieIds
    ensures RemoveMovieFromPlaylist(AddMovieToPlaylist(s, playlistId, BareId(movieId)), playlistId, movieId) == s
  {
    var added := AddMovieToPlaylist(s, playlistId, BareId(movieId));
    var r := RemoveMovieFromPlaylist(added, playlistId, movieId);
    assert r.playlists == s.playlists by {
      forall i | 0 <= i < |s.playlists| ensures r.playlists[i] == s.playlists[i] {
        var pl := s.playlists[i];
        if pl.id == playlistId {
          FilterAppend(pl.movieIds, [movieId], Except(movieId));
          forall k | 0 <= k < |pl.movieIds| ensures Except(movieId)(pl.movieIds[k]) {
          }
          FilterKeepsAll(pl.movieIds, Except(movieId));
          assert Filter([movieId], Except(movieId)) == [] by {
            assert [movieId][1..] == [];
          }
        }
      }
    }
  }

  /** Creating "X" under a fresh id and renaming it to "Y" leaves one playlist with that id, named
      "Y", still empty, after the untouched earlier playlists. */
  lemma CreateThenRename<R>(s: Store<R>, newId: PlaylistId)
    requires newId !in PlaylistIds(s.playlists)
    ensures var r := RenamePlaylist(CreatePlaylist(s, newId, Some("X")).0, newId, "Y");
      && r.playlists == s.playlists + [Playlist(newId, "Y", [])]
      && (s == Initial() ==> r.playlists == [Playlist(newId, "Y", [])])
  {
    var created := CreatePlaylist(s, newId, Some("X")).0;
    var r := RenamePlaylist(created, newId, "Y");
    assert created.playlists == s.playlists + [Playlist(newId, "X", [])];
    forall i | 0 <= i < |s.playlists| ensures r.playlists[i] == s.playlists[i] {
      assert PlaylistIds(s.playlists)[i] == s.playlists[i].id;
    }
    assert r.playlists == s.playlists + [Playlist(newId, "Y", [])];
  }
}
