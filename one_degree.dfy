/**
 * `one_deg_from_actor` (hw6.py:139-190): look up the seed actor's movies, merge
 * the cast map of every movie into one co-star map (a later movie overwrites an
 * earlier one), then delete the seed actor from it.
 *
 * The two lookups are inputs: `credits` is the seed's decoded movie credits and
 * `castOf(m)` the decoded cast list of movie `m`. Each `time.sleep(0.2)` is
 * counted as one pause.
 */
module OneDegree {
  import opened Wrappers
  import opened Dicts
  import opened Credits

  /** `del costars[from_actor_id]` raises KeyError when the seed is not among the co-stars. */
  datatype BuildError = KeyError(key: int)

  /** The pair `(movies, costars)`. */
  datatype Graph = Graph(movies: Dict<int, Entry>, costars: Dict<int, Entry>)

  /** For each movie id, the entries of the map `req_actors_for_movie` returns for it. */
  function CastsOf(castOf: int -> seq<CastCredit>): int -> map<int, Entry> {
    m => ActorsForMovie(m, castOf(m)).entries
  }

  /** Reference merge of the cast maps of `ms`, in order, by map union (the right operand wins). */
  ghost function Merged(casts: int -> map<int, Entry>, ms: seq<int>): map<int, Entry>
    decreases |ms|
  {
    if ms == [] then map[]
    else Merged(casts, ms[..|ms| - 1]) + casts(ms[|ms| - 1])
  }

  /** A co-star id is merged exactly when some movie's cast contains it. */
  lemma {:induction false} MergedKeys(casts: int -> map<int, Entry>, ms: seq<int>, id: int)
    ensures id in Merged(casts, ms) <==> exists i :: 0 <= i < |ms| && id in casts(ms[i])
  {
    if ms != [] {
      var n := |ms| - 1;
      MergedKeys(casts, ms[..n], id);
      if exists i :: 0 <= i < |ms| && id in casts(ms[i]) {
        var i :| 0 <= i < |ms| && id in casts(ms[i]);
        if i < n {
          assert ms[..n][i] == ms[i];
        }
      }
      if exists i :: 0 <= i < n && id in casts(ms[..n][i]) {
        var i :| 0 <= i < n && id in casts(ms[..n][i]);
        assert ms[..n][i] == ms[i];
      }
    }
  }

  /** The last movie whose cast contains a co-star supplies its entry. */
  lemma {:induction false} MergedLastWins(casts: int -> map<int, Entry>, ms: seq<int>, i: int, id: int)
    requires 0 <= i < |ms| && id in casts(ms[i])
    requires forall j :: i < j < |ms| ==> id !in casts(ms[j])
    ensures id in Merged(casts, ms)
    ensures Merged(casts, ms)[id] == casts(ms[i])[id]
  {
    var n := |ms| - 1;
    if i < n {
      assert ms[..n][i] == ms[i];
      forall j | i < j < n ensures id !in casts(ms[..n][j]) {
        assert ms[..n][j] == ms[j];
      }
      MergedLastWins(casts, ms[..n], i, id);
    }
  }

  /** Every merged entry comes from the cast map of one of the merged movies. */
  lemma {:induction false} MergedSource(casts: int -> map<int, Entry>, ms: seq<int>, id: int)
    requires id in Merged(casts, ms)
    ensures exists m :: m in ms && id in casts(m) && Merged(casts, ms)[id] == casts(m)[id]
  {
    var n := |ms| - 1;
    if id !in casts(ms[n]) {
      MergedSource(casts, ms[..n], id);
      var m :| m in ms[..n] && id in casts(m) && Merged(casts, ms[..n])[id] == casts(m)[id];
      assert m in ms;
    } else {
      var m := ms[n];
      assert Merged(casts, ms) == Merged(casts, ms[..n]) + casts(m);
      assert m in ms && id in casts(m) && Merged(casts, ms)[id] == casts(m)[id];
    }
  }

  /** Some movie of `movies` has `id` in its cast. */
  ghost predicate CastIn(casts: int -> map<int, Entry>, movies: Dict<int, Entry>, id: int) {
    exists m :: m in movies.entries && id in casts(m)
  }

  /**
   * `costars` is the merged cast of `movies` without the seed: its keys are the
   * cast ids of the movies other than the seed, and every entry is one of the
   * movies' cast entries.
   */
  ghost predicate CoStars(seed: int, casts: int -> map<int, Entry>, movies: Dict<int, Entry>, costars: Dict<int, Entry>) {
    && Valid(costars)
    && seed !in costars.entries
    && (forall id :: id in costars.entries <==> id != seed && CastIn(casts, movies, id))
    && (forall id :: id in costars.entries ==>
          exists m :: m in movies.entries && id in casts(m) && costars.entries[id] == casts(m)[id])
  }

  /** Each co-star's entry is the one from the last movie, in key order, whose cast contains it. */
  ghost predicate LastMovieWins(seed: int, casts: int -> map<int, Entry>, movies: Dict<int, Entry>, costars: Dict<int, Entry>) {
    var ms := movies.order;
    forall i, id :: 0 <= i < |ms| && id != seed && id in casts(ms[i]) &&
                    (forall j :: i < j < |ms| ==> id !in casts(ms[j])) ==>
      id in costars.entries && costars.entries[id] == casts(ms[i])[id]
  }

  /** The merge over all movies of a movie map holds exactly their cast ids. */
  lemma MergedCastIn(casts: int -> map<int, Entry>, movies: Dict<int, Entry>)
    requires Valid(movies)
    ensures forall id :: id in Merged(casts, movies.order) <==> CastIn(casts, movies, id)
  {
    var ms := movies.order;
    forall id ensures id in Merged(casts, ms) <==> CastIn(casts, movies, id) {
      MergedKeys(casts, ms, id);
      if CastIn(casts, movies, id) {
        var m :| m in movies.entries && id in casts(m);
        var k :| 0 <= k < |ms| && ms[k] == m;
        assert id in casts(ms[k]);
        assert id in Merged(casts, ms);
      }
      if id in Merged(casts, ms) {
        var i :| 0 <= i < |ms| && id in casts(ms[i]);
        var m := ms[i];
        assert m in movies.entries && id in casts(m);
      }
    }
  }

  /** Deleting the seed from the merged casts of all movies leaves exactly their co-stars. */
  lemma DeleteSeedCoStars(seed: int, casts: int -> map<int, Entry>, movies: Dict<int, Entry>, costars: Dict<int, Entry>)
    requires Valid(movies) && Valid(costars)
    requires costars.entries == Merged(casts, movies.order)
    requires seed in costars.entries
    ensures CoStars(seed, casts, movies, Delete(costars, seed))
  {
    var d := Delete(costars, seed);
    MergedCastIn(casts, movies);
    forall id | id in d.entries
      ensures exists m :: m in movies.entries && id in casts(m) && d.entries[id] == casts(m)[id]
    {
      MergedSource(casts, movies.order, id);
    }
  }

  /** The full merge gives every cast id the entry of the last movie, in key order, listing it. */
  lemma MergedLastMovieWins(seed: int, casts: int -> map<int, Entry>, movies: Dict<int, Entry>, costars: Dict<int, Entry>)
    requires costars.entries == Merged(casts, movies.order)
    ensures LastMovieWins(seed, casts, movies, costars)
  {
    var ms := movies.order;
    forall i, id | 0 <= i < |ms| && id != seed && id in casts(ms[i]) &&
                   (forall j :: i < j < |ms| ==> id !in casts(ms[j]))
      ensures id in costars.entries && costars.entries[id] == casts(ms[i])[id]
    {
      MergedLastWins(casts, ms, i, id);
    }
  }

  /** Deleting the seed keeps, for every other co-star, the entry of the last movie listing it. */
  lemma DeleteSeedLastWins(seed: int, casts: int -> map<int, Entry>, movies: Dict<int, Entry>, costars: Dict<int, Entry>)
    requires Valid(costars) && seed in costars.entries
    requires LastMovieWins(seed, casts, movies, costars)
    ensures LastMovieWins(seed, casts, movies, Delete(costars, seed))
  {
  }

  /** In the co-star map of the builder, every parent is one of the movies. */
  lemma CoStarParents(seed: int, castOf: int -> seq<CastCredit>, movies: Dict<int, Entry>, costars: Dict<int, Entry>)
    requires CoStars(seed, CastsOf(castOf), movies, costars)
    ensures forall id :: id in costars.entries ==> costars.entries[id].parent in movies.entries
  {
  }

  /**
   * Sleeps, looks up the movies, and for each movie in key order sleeps, looks
   * up its cast and merges it into `costars`; then deletes the seed, which
   * fails when no movie's cast lists the seed.
   */
  method OneDegFromActor(seed: int, credits: seq<MovieCredit>, castOf: int -> seq<CastCredit>)
    returns (result: Result<Graph, BuildError>, pauses: nat)
    ensures pauses == 1 + |MoviesForActor(seed, credits).entries|
    ensures result.Ok? <==> CastIn(CastsOf(castOf), MoviesForActor(seed, credits), seed)
    ensures result.Err? ==> result.error == KeyError(seed)
    ensures credits == [] ==> result == Err(KeyError(seed))
    ensures result.Ok? ==> result.value.movies == MoviesForActor(seed, credits)
    ensures result.Ok? ==> CoStars(seed, CastsOf(castOf), result.value.movies, result.value.costars)
    ensures result.Ok? ==> LastMovieWins(seed, CastsOf(castOf), result.value.movies, result.value.costars)
    ensures result.Ok? ==>
              forall id :: id in result.value.costars.entries ==>
                result.value.costars.entries[id].parent in result.value.movies.entries
  {
    pauses := 1;
    var movies := MoviesForActor(seed, credits);
    var costars: Dict<int, Entry> := Dict([], map[]);
    var i := 0;
    while i < |movies.order|
      invariant 0 <= i <= |movies.order|
      invariant pauses == 1 + i
      invariant Valid(costars)
      invariant costars.entries == Merged(CastsOf(castOf), movies.order[..i])
    {
      pauses := pauses + 1;
      var cdict := ActorsForMovie(movies.order[i], castOf(movies.order[i]));
      assert movies.order[..i + 1][..i] == movies.order[..i];
      costars := Update(costars, cdict);
      i := i + 1;
    }
    ValidSize(movies);
    assert movies.order[..i] == movies.order;
    MergedCastIn(CastsOf(castOf), movies);
    if seed !in costars.entries {
      result := Err(KeyError(seed));
      return;
    }
    var deleted := Delete(costars, seed);
    DeleteSeedCoStars(seed, CastsOf(castOf), movies, costars);
    MergedLastMovieWins(seed, CastsOf(castOf), movies, costars);
    DeleteSeedLastWins(seed, CastsOf(castOf), movies, costars);
    CoStarParents(seed, castOf, movies, deleted);
    result := Ok(Graph(movies, deleted));
  }
}
