/**
 * The report `main` builds from one build (hw6.py:212-215): a nested list
 * comprehension with the co-stars (`clist`, the values of the co-star map) in
 * the outer loop and the movies (`mlist`, the values of the movie map) in the
 * inner loop, giving one row [actor, movie, co-star] per pair. The
 * actor's display name comes from a lookup that is an input here.
 */
module Report {
  import opened Dicts
  import opened Credits
  import opened OneDegree

  /** A report row `[actor name, movie name, co-star name]`. */
  datatype Row = Row(actor: string, movie: string, costar: string)

  /** The inner loop for one co-star: a row per movie, in `mlist` order. */
  function CoStarRows(name: string, c: Entry, mlist: seq<Entry>): (rows: seq<Row>)
    ensures |rows| == |mlist|
    ensures forall r :: r in rows ==> r.actor == name && r.costar == c.name
    ensures forall j {:trigger rows[j]} :: 0 <= j < |mlist| ==> rows[j].movie == mlist[j].name
  {
    seq(|mlist|, j requires 0 <= j < |mlist| => Row(name, mlist[j].name, c.name))
  }

  /** The number of rows before co-star `i` when each co-star has `m` rows. */
  function Offset(i: nat, m: nat): nat {
    if i == 0 then 0 else m + Offset(i - 1, m)
  }

  /** Co-star `i`'s rows start at `i * m`. */
  lemma {:induction false} OffsetProduct(i: nat, m: nat)
    ensures Offset(i, m) == i * m
  {
    if i > 0 {
      OffsetProduct(i - 1, m);
      assert i * m == m + (i - 1) * m;
    }
  }

  /**
   * `outlist`: co-stars in the outer loop, movies in the inner loop, so each
   * co-star contributes one block of `|mlist|` rows.
   */
  function OutList(name: string, clist: seq<Entry>, mlist: seq<Entry>): (rows: seq<Row>)
    ensures |rows| == Offset(|clist|, |mlist|)
  {
    if clist == [] then []
    else CoStarRows(name, clist[0], mlist) + OutList(name, clist[1..], mlist)
  }

  /** The row for co-star `i` and movie `j` sits at `Offset(i, |mlist|) + j`. */
  lemma {:induction false} OutListAt(name: string, clist: seq<Entry>, mlist: seq<Entry>, i: nat, j: nat)
    requires i < |clist| && j < |mlist|
    ensures Offset(i, |mlist|) + j < |OutList(name, clist, mlist)|
    ensures OutList(name, clist, mlist)[Offset(i, |mlist|) + j] == Row(name, mlist[j].name, clist[i].name)
  {
    var m := |mlist|;
    var first, rest := CoStarRows(name, clist[0], mlist), OutList(name, clist[1..], mlist);
    assert OutList(name, clist, mlist) == first + rest;
    if i > 0 {
      var k := Offset(i - 1, m) + j;
      assert k < |rest| && rest[k] == Row(name, mlist[j].name, clist[i].name) by {
        OutListAt(name, clist[1..], mlist, i - 1, j);
        assert clist[1..][i - 1] == clist[i];
      }
      assert Offset(i, m) + j == |first| + k;
    }
  }

  /** Every row of `outlist` starts with the actor's name. */
  lemma {:induction false} OutListRows(name: string, clist: seq<Entry>, mlist: seq<Entry>)
    ensures forall r :: r in OutList(name, clist, mlist) ==> r.actor == name
  {
    if clist != [] {
      OutListRows(name, clist[1..], mlist);
      var first := CoStarRows(name, clist[0], mlist);
      forall r | r in first ensures r.actor == name {
        var j :| 0 <= j < |first| && first[j] == r;
      }
    }
  }

  /** The report of a build: `outlist` over the values of its two maps. */
  function ReportRows(name: string, g: Graph): (rows: seq<Row>)
    requires Valid(g.movies) && Valid(g.costars)
    ensures |rows| == Offset(|g.costars.order|, |g.movies.order|)
    ensures forall r :: r in rows ==> r.actor == name
  {
    OutListRows(name, Values(g.costars), Values(g.movies));
    OutList(name, Values(g.costars), Values(g.movies))
  }

  /** One row per (co-star, movie) pair. */
  lemma ReportSize(name: string, g: Graph)
    requires Valid(g.movies) && Valid(g.costars)
    ensures |ReportRows(name, g)| == |g.costars.entries| * |g.movies.entries|
  {
    ValidSize(g.movies);
    ValidSize(g.costars);
    OffsetProduct(|g.costars.order|, |g.movies.order|);
  }

  /**
   * Rows follow the maps' insertion orders: the `i`-th co-star value and the
   * `j`-th movie value give the row at `Offset(i, |movies|) + j`, that is
   * `i * |movies| + j`.
   */
  lemma ReportRowAt(name: string, g: Graph, i: nat, j: nat)
    requires Valid(g.movies) && Valid(g.costars)
    requires i < |g.costars.order| && j < |g.movies.order|
    ensures Offset(i, |g.movies.order|) + j < |ReportRows(name, g)|
    ensures ReportRows(name, g)[Offset(i, |g.movies.order|) + j] ==
              Row(name, Values(g.movies)[j].name, Values(g.costars)[i].name)
  {
    OutListAt(name, Values(g.costars), Values(g.movies), i, j);
  }
}
