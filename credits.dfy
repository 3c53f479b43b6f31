/**
 * The two credit lookups of hw6.py, with the decoded JSON `cast` lists given as
 * input sequences instead of fetched: `req_movies_for_actor` turns an actor's
 * movie credits into `movie id -> {name, parent: actor id}`, and
 * `req_actors_for_movie` turns a movie's cast into
 * `member id -> {name, parent: movie id}`.
 */
module Credits {
  import opened Dicts

  /** One element of a person's `movie_credits` cast list. */
  datatype MovieCredit = MovieCredit(id: int, originalTitle: string)

  /** One element of a movie's `credits` cast list. */
  datatype CastCredit = CastCredit(id: int, name: string)

  /** The nested value `{"name": ..., "parent": ...}` of both maps. */
  datatype Entry = Entry(name: string, parent: int)

  function CreditId(m: MovieCredit): int { m.id }

  function CastId(a: CastCredit): int { a.id }

  /** The entry of a movie credit: its original title, with the actor as parent. */
  function TitleEntry(actorId: int): MovieCredit -> Entry {
    (m: MovieCredit) => Entry(m.originalTitle, actorId)
  }

  /** The entry of a cast member: their name, with the movie as parent. */
  function NameEntry(movieId: int): CastCredit -> Entry {
    (a: CastCredit) => Entry(a.name, movieId)
  }

  /** Neither comprehension has a filter. */
  function Always<T>(x: T): bool { true }

  /**
   * `req_movies_for_actor` after the lookup: a dict comprehension over the
   * credits keyed by movie id.
   * Its keys are the credited ids, every parent is the actor, and a repeated id
   * takes the title of its last credit.
   */
  function MoviesForActor(actorId: int, mlist: seq<MovieCredit>): (movies: Dict<int, Entry>)
    ensures Valid(movies)
    ensures forall id :: id in movies.entries <==> exists m :: m in mlist && m.id == id
    ensures forall id :: id in movies.entries ==> movies.entries[id].parent == actorId
    ensures forall i :: 0 <= i < |mlist| && (forall j :: i < j < |mlist| ==> mlist[j].id != mlist[i].id) ==>
              mlist[i].id in movies.entries && movies.entries[mlist[i].id].name == mlist[i].originalTitle
    ensures mlist == [] ==> movies.entries == map[]
  {
    var key, val, keep := CreditId, TitleEntry(actorId), Always<MovieCredit>;
    ComprehensionKeys(mlist, key, val, keep);
    forall id | id in Comprehension(mlist, key, val, keep).entries
      ensures Comprehension(mlist, key, val, keep).entries[id].parent == actorId
    {
      ComprehensionSource(mlist, key, val, keep, id);
    }
    forall i | 0 <= i < |mlist| && (forall j :: i < j < |mlist| ==> mlist[j].id != mlist[i].id)
      ensures Comprehension(mlist, key, val, keep).entries[mlist[i].id] == val(mlist[i])
    {
      ComprehensionLastWins(mlist, key, val, keep, i);
    }
    Comprehension(mlist, key, val, keep)
  }

  /**
   * `req_actors_for_movie` after the lookup: a dict comprehension over the
   * cast keyed by member id.
   * Its keys are the cast ids, every parent is the movie, and a repeated id
   * takes the name of its last cast entry.
   */
  function ActorsForMovie(movieId: int, alist: seq<CastCredit>): (members: Dict<int, Entry>)
    ensures Valid(members)
    ensures forall id :: id in members.entries <==> exists a :: a in alist && a.id == id
    ensures forall id :: id in members.entries ==> members.entries[id].parent == movieId
    ensures forall i :: 0 <= i < |alist| && (forall j :: i < j < |alist| ==> alist[j].id != alist[i].id) ==>
              alist[i].id in members.entries && members.entries[alist[i].id].name == alist[i].name
    ensures alist == [] ==> members.entries == map[]
  {
    var key, val, keep := CastId, NameEntry(movieId), Always<CastCredit>;
    ComprehensionKeys(alist, key, val, keep);
    forall id | id in Comprehension(alist, key, val, keep).entries
      ensures Comprehension(alist, key, val, keep).entries[id].parent == movieId
    {
      ComprehensionSource(alist, key, val, keep, id);
    }
    forall i | 0 <= i < |alist| && (forall j :: i < j < |alist| ==> alist[j].id != alist[i].id)
      ensures Comprehension(alist, key, val, keep).entries[alist[i].id] == val(alist[i])
    {
      ComprehensionLastWins(alist, key, val, keep, i);
    }
    Comprehension(alist, key, val, keep)
  }

  /**
   * Some credit names movie `a` while no credit up to and including it names
   * movie `b`: `a` is mentioned first.
   */
  ghost predicate MentionedBefore(mlist: seq<MovieCredit>, a: int, b: int) {
    exists i :: 0 <= i < |mlist| && mlist[i].id == a && forall j :: 0 <= j <= i ==> mlist[j].id != b
  }

  /**
   * The keys of the movie map are listed in the order in which the credit list
   * first mentions them.
   */
  lemma MoviesForActorOrder(actorId: int, mlist: seq<MovieCredit>, p: int, q: int)
    requires 0 <= p < q < |MoviesForActor(actorId, mlist).order|
    ensures MentionedBefore(mlist, MoviesForActor(actorId, mlist).order[p], MoviesForActor(actorId, mlist).order[q])
  {
    var key, val, keep := CreditId, TitleEntry(actorId), Always<MovieCredit>;
    var order := Comprehension(mlist, key, val, keep).order;
    assert MoviesForActor(actorId, mlist).order == order;
    ComprehensionOrder(mlist, key, val, keep, p, q);
    var i :| 0 <= i < |mlist| && keep(mlist[i]) && key(mlist[i]) == order[p] &&
             forall j :: 0 <= j <= i && keep(mlist[j]) ==> key(mlist[j]) != order[q];
    forall j | 0 <= j <= i ensures mlist[j].id != order[q] {
      assert keep(mlist[j]);
    }
  }
}
