# One degree from an actor — a Dafny model of hw6.py's data shaping

hw6.py builds a "one degree of separation" graph around a seed actor. It looks
up the actor's movie credits in a movie-metadata API, looks up the cast of each
of those movies, and merges the casts into one co-star map from which the seed
is removed. A separate path scrapes an actor's filmography page into a
title → URL map. `main` turns one build into report rows
`[actor, movie, co-star]`.

This project models the logic between the network calls. Each fetch plus JSON
decode becomes an input sequence of records: `credits` for the seed's movie
credits, and `castOf: int -> seq<CastCredit>` for the cast list of each movie.
The scraper's input is the list of `<a>` elements of the filmography section,
or `None` when the page has no such section.

Modules, one per concern:

- `Dicts` (`dicts.dfy`): Python's `dict` as a map plus the insertion order of
  its keys (`Dict(order, entries)` with `Valid`). It defines assignment, a
  generic dict comprehension `{key(x): val(x) for x in xs if keep(x)}`,
  `update`, `del` and `values()`, with their lemmas.
- `Credits` (`credits.dfy`): `req_movies_for_actor` and `req_actors_for_movie`
  as comprehensions over the decoded cast lists.
- `Filmography` (`filmography.dfy`): the comprehension of `scrape_all_movies`
  and its two ways of raising.
- `OneDegree` (`one_degree.dfy`): `one_deg_from_actor` as a method with the
  merge loop. The loop invariant ties the running `costars` dict to a
  reference merge `Merged` (map union, the later movie wins). The `del` of the
  seed is an explicit error result. Each `time.sleep` is counted in `pauses`.
- `Report` (`report.dfy`): the `outlist` comprehension of `main`. A row, a
  three-element list in the code, is the record `Row(actor, movie, costar)`.
- `Wrappers` (`wrappers.dfy`): `Option` and `Result`.

Error behaviour of the builder:

- With no movie credits, `costars` stays empty and `del costars[from_actor_id]`
  (hw6.py:189) raises `KeyError`. `OneDegFromActor` returns
  `Err(KeyError(seed))` for empty credits, and more generally whenever no
  movie's cast lists the seed.
- The seed's absence is modelled as this error result, not as a precondition.
  The method's contract says the build succeeds exactly when some movie's cast
  contains the seed.

## Model

| member | source | states |
|---|---|---|
| `Dicts.Set` | hw6.py:98 | Assigning a key keeps the dict well formed: the insertion order lists each key once and exactly the keys present. |
| `Dicts.ValidSize` | hw6.py:215 | A dict has as many entries as its insertion order lists, so `len(d.values())` equals the number of keys. |
| `Dicts.Comprehension` | hw6.py:98 | A dict comprehension yields a well-formed dict, each key listed once in insertion order. |
| `Dicts.ComprehensionKeys` | hw6.py:98 | The comprehension's keys are exactly the keys of the elements that pass the filter. |
| `Dicts.ComprehensionLastWins` | hw6.py:98 | When a key repeats, the last kept element with that key supplies its value. |
| `Dicts.ComprehensionSource` | hw6.py:136 | Every value of a comprehension is the value of the last kept element with that key. |
| `Dicts.ComprehensionOrder` | hw6.py:185 | Keys are listed in order of their first kept occurrence; this is the order in which `movies.keys()` is walked. |
| `Dicts.Update` | hw6.py:188 | `d.update(e)` gives the union of both maps in which `e`'s values win on shared keys, and the keys already in `d` keep their positions. |
| `Dicts.RemoveAt` | hw6.py:189 | Dropping one position of a duplicate-free key order drops exactly that key and leaves the order duplicate-free. |
| `Dicts.Values` | hw6.py:213-214 | `d.values()` has one value per key, so `len(d)` of them, and holds exactly the values of the map. |
| `Dicts.Delete` | hw6.py:189 | `del d[k]` on a present key removes exactly `k`, leaves every other value alone, and keeps the other keys' relative order. |
| `Credits.MoviesForActor` | hw6.py:97-99 | The movie map's keys are exactly the credited movie ids. Every parent is the actor id. A repeated id takes the title of its last credit. An empty credit list gives an empty map. |
| `Credits.MoviesForActorOrder` | hw6.py:98 | The movie ids are listed in the order in which the credit list first mentions them. |
| `Credits.ActorsForMovie` | hw6.py:135-137 | The cast map's keys are exactly the cast ids. Every parent is the movie id. A repeated id takes the name of its last cast entry. An empty cast gives an empty map. |
| `Filmography.FirstMissingHref` | hw6.py:43 | Finds the first non-placeholder link without an href, where the comprehension raises, or reports that there is none. |
| `Filmography.ScrapeAllMovies` | hw6.py:40-43 | A page without the filmography section is an error. A non-placeholder link without an href is an error naming the first such link. On success, no key is `"post-production"`, the keys are exactly the other link texts, and each value is `"http://www.imdb.com"` followed by the href of the last link with that text. |
| `OneDegree.MergedKeys` | hw6.py:185-188 | After merging the casts of a list of movies, an id is present exactly when some movie's cast contains it. |
| `OneDegree.MergedLastWins` | hw6.py:185-188 | A merged co-star's entry comes from the last movie in the list whose cast contains it. |
| `OneDegree.MergedSource` | hw6.py:185-188 | Every merged entry is the cast entry of one of the merged movies. |
| `OneDegree.MergedCastIn` | hw6.py:185-188 | Merging over all keys of the movie map gives exactly the ids cast in some of its movies. |
| `OneDegree.DeleteSeedCoStars` | hw6.py:189 | Deleting the seed from the full merge leaves exactly the other cast ids, each with an entry from one of the movies, and never the seed. |
| `OneDegree.MergedLastMovieWins` | hw6.py:185-188 | After the loop, every cast id carries the entry of the last movie, in key order, whose cast lists it. |
| `OneDegree.DeleteSeedLastWins` | hw6.py:189 | Deleting the seed keeps, for every other co-star, the entry from the last movie listing it. |
| `OneDegree.CoStarParents` | hw6.py:136 | Every co-star entry's parent is a key of the movie map. |
| `OneDegree.OneDegFromActor` | hw6.py:182-190 | Pauses `1 + len(movies)` times. Succeeds exactly when some movie's cast lists the seed, else fails with KeyError for the seed, so empty credits always fail. On success it returns `movies` unchanged from the movie lookup, and `costars` is the union of all casts minus the seed. Each co-star carries the entry of the last movie in key order whose cast contains it, and its parent is a key of `movies`. |
| `Report.CoStarRows` | hw6.py:215 | The inner loop over `mlist` for one co-star gives one row per movie. Every row starts with the actor's name and ends with the co-star's name, and row `j` names movie `j`. |
| `Report.OffsetProduct` | hw6.py:215 | `Offset(i, m)`, the number of rows produced before co-star `i` when each co-star yields `m` rows, equals `i * m`. |
| `Report.OutList` | hw6.py:215 | The report has `Offset(len(clist), len(mlist))` rows: one block of `len(mlist)` rows per co-star. |
| `Report.OutListRows` | hw6.py:215 | Every report row starts with the actor's name. |
| `Report.OutListAt` | hw6.py:215 | Co-stars form the outer loop and movies the inner loop: row `Offset(i, len(mlist)) + j`, that is `i * len(mlist) + j`, is `[name, mlist[j].name, clist[i].name]`. |
| `Report.ReportRows` | hw6.py:213-215 | Built from one build's values, the report has one block of `len(movies)` rows per co-star, each row starting with the actor's name. |
| `Report.ReportSize` | hw6.py:213-215 | The report has exactly `len(costars) * len(movies)` rows. |
| `Report.ReportRowAt` | hw6.py:213-215 | Row `Offset(i, len(movies)) + j`, that is `i * len(movies) + j`, pairs the `i`-th co-star value and the `j`-th movie value in the maps' insertion orders. |

## Left out

- The HTTP requests (`requests.get`), HTML parsing (BeautifulSoup) and JSON decoding are network and foreign-library calls. Their outputs are the input sequences. A payload without a `cast` key, or a record without `id`, `name` or `original_title`, is a decode failure and is not modelled.
- `time.sleep(0.2)` is wall-clock pacing. The model counts the pauses and does not model their duration.
- `lookup_actor_name_by_id` is a single network lookup with no logic. The actor's name is a parameter of the report.
- The interactive loop of `main` is I/O and is not modelled: `input`, `print`, the blanket `except:`, CSV writing, and the module-level timing prints.
- The output-filename checks (hw6.py:217-222) depend on `re` semantics and do not stop the write that follows them. They are not modelled.
- `main` calls the builder twice (hw6.py:213-214). For fixed inputs both calls give the same result, so the report is modelled from one build.
- `OneDegree.OneDegFromActor`: states the key set and values of `costars` but not the insertion order of its keys.
- `Filmography.ScrapeAllMovies`: the link texts are taken as given. How BeautifulSoup computes an element's text is not modelled.
