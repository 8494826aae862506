/**
 * The `Movies` table and the handlers that change it: the home page's
 * ranking pass, the rating edit, delete, and the insert of a selected movie.
 */
module Store {
  import opened Wrappers
  import opened Records
  import Ranking

  /**
   * The characters Python's `str.strip()` removes: those `str.isspace()`
   * accepts, namely ASCII whitespace, the separators U+001C to U+001F, and
   * the Unicode spaces and line and paragraph separators.
   */
  predicate IsSpace(c: char)
  {
    || c == ' ' || c == '\t' || c == '\n' || c == '\r' || c == '\U{0B}' || c == '\U{0C}'
    || ('\U{1C}' <= c <= '\U{1F}')
    || c == '\U{85}' || c == '\U{A0}' || c == '\U{1680}'
    || ('\U{2000}' <= c <= '\U{200A}')
    || c == '\U{2028}' || c == '\U{2029}' || c == '\U{202F}' || c == '\U{205F}' || c == '\U{3000}'
  }

  /**
   * WTForms' DataRequired: the field holds some character that is not
   * whitespace. An empty field and a field of whitespace alone fail.
   */
  predicate DataRequired(field: string)
    ensures DataRequired(field) ==> field != []
    ensures (forall i :: 0 <= i < |field| ==> IsSpace(field[i])) ==> !DataRequired(field)
  {
    exists i :: 0 <= i < |field| && !IsSpace(field[i])
  }

  /** The rating form validates only when it was submitted and both of its fields pass DataRequired. */
  predicate RatingFormValidates(submitted: bool, ratingField: string, reviewField: string)
    ensures RatingFormValidates(submitted, ratingField, reviewField) ==>
      submitted && ratingField != [] && reviewField != []
  {
    submitted && DataRequired(ratingField) && DataRequired(reviewField)
  }

  /** How the edit handler ends. */
  datatype EditOutcome =
    | Saved        // rating and review written, redirect to the list
    | FormShown    // the form did not validate: it is rendered again
    | BadRating    // `float()` rejected the rating text
    | NotFound     // no movie has the id

  /** The titles present in the table. */
  function Titles(rows: map<int, Movie>): set<string>
  {
    set k | k in rows :: rows[k].title
  }

  /** The titles of the table without movie k are the titles of the other movies. */
  lemma OtherTitles(rows: map<int, Movie>)
    ensures forall k, j :: k in rows && j in rows && j != k ==> rows[j].title in Titles(rows - {k})
    ensures forall k, t :: k in rows && t in Titles(rows - {k}) ==>
      exists j :: j in rows && j != k && rows[j].title == t
  {
    forall k, j | k in rows && j in rows && j != k ensures rows[j].title in Titles(rows - {k}) {
      assert j in rows - {k};
    }
  }

  /**
   * The `unique=True` constraint of the title column: no movie's title is
   * the title of any other movie of the table.
   */
  predicate UniqueTitles(rows: map<int, Movie>)
  {
    forall a, b :: a in rows && b in rows && a != b ==> rows[a].title != rows[b].title
  }

  /** Titles are unique exactly when no movie's title is among the titles of the other movies. */
  lemma UniqueTitlesOtherTitles(rows: map<int, Movie>)
    ensures UniqueTitles(rows) <==> forall k :: k in rows ==> rows[k].title !in Titles(rows - {k})
  {
    OtherTitles(rows);
  }

  /** The rows listed in the order of the given ids. */
  function Listing(rows: map<int, Movie>, order: seq<int>): seq<Movie>
    requires forall i :: 0 <= i < |order| ==> order[i] in rows
  {
    seq(|order|, i requires 0 <= i < |order| => rows[order[i]])
  }

  /** The elements of a sequence without repeats are as many as its length. */
  lemma {:induction false} DistinctElementsCount(order: seq<int>)
    requires forall i, j :: 0 <= i < j < |order| ==> order[i] != order[j]
    ensures |set x | x in order| == |order|
  {
    if order != [] {
      DistinctElementsCount(order[1..]);
      assert (set x | x in order) == {order[0]} + (set x | x in order[1..]);
      assert order[0] !in order[1..];
    }
  }

  /**
   * The ids as `Movies.query.order_by(Movies.rating).all()` returns them:
   * every movie exactly once, ascending by rating.
   */
  predicate IsRatingOrder(rows: map<int, Movie>, order: seq<int>)
  {
    && (forall i :: 0 <= i < |order| ==> order[i] in rows)
    && (forall k :: k in rows ==> k in order)
    && (forall i, j :: 0 <= i < j < |order| ==> order[i] != order[j])
    && SortedByRating(Listing(rows, order))
  }

  /** A rating order is as long as the table: it lists each of its movies once. */
  lemma RatingOrderLength(rows: map<int, Movie>, order: seq<int>)
    requires IsRatingOrder(rows, order)
    ensures |order| == |rows|
  {
    DistinctElementsCount(order);
    var listed := set x | x in order;
    forall x | x in listed ensures x in rows {
      var i :| 0 <= i < |order| && order[i] == x;
    }
    forall k | k in rows ensures k in listed {
      assert k in order;
    }
    assert listed == rows.Keys;
  }

  /** The two tables hold the same ids and rows that differ at most in their rankings. */
  predicate SameButRankings(rows: map<int, Movie>, rows': map<int, Movie>)
  {
    && rows.Keys == rows'.Keys
    && forall k :: k in rows ==> rows[k].(ranking := None) == rows'[k].(ranking := None)
  }

  /** Writing one movie's ranking keeps a table the same as another but for rankings. */
  lemma SetRankingSameButRankings(rows: map<int, Movie>, rows': map<int, Movie>, id: int, r: Option<int>)
    requires SameButRankings(rows, rows') && id in rows'
    ensures SameButRankings(rows, rows'[id := rows'[id].(ranking := r)])
  {
    var m := rows'[id];
    assert m.(ranking := r).(ranking := None) == m.(ranking := None);
  }

  /**
   * One step of the ranking loop: after the movies at indices below n have
   * their new ranking and the others are untouched, writing ranking
   * `len - n` for the movie at index n extends that to index n + 1.
   */
  lemma RankingStep(rows: map<int, Movie>, order: seq<int>, rows': map<int, Movie>, n: int)
    requires IsRatingOrder(rows, order) && SameButRankings(rows, rows') && 0 <= n < |order|
    requires forall i :: 0 <= i < n ==> rows'[order[i]] == rows[order[i]].(ranking := Some(|order| - i))
    requires forall i :: n <= i < |order| ==> rows'[order[i]] == rows[order[i]]
    ensures SameButRankings(rows, rows'[order[n] := rows'[order[n]].(ranking := Some(|order| - n))])
    ensures forall i :: 0 <= i < n + 1 ==>
      rows'[order[n] := rows'[order[n]].(ranking := Some(|order| - n))][order[i]]
        == rows[order[i]].(ranking := Some(|order| - i))
    ensures forall i :: n + 1 <= i < |order| ==>
      rows'[order[n] := rows'[order[n]].(ranking := Some(|order| - n))][order[i]] == rows[order[i]]
  {
    SetRankingSameButRankings(rows, rows', order[n], Some(|order| - n));
  }

  /** Rewriting rankings cannot break the unique constraint of the title column. */
  lemma SameButRankingsKeepsUniqueTitles(rows: map<int, Movie>, rows': map<int, Movie>)
    requires UniqueTitles(rows) && SameButRankings(rows, rows')
    ensures UniqueTitles(rows')
  {
  }

  /**
   * What the ranking pass means for the table: when the rows listed in a
   * rating order are replaced by their ranked listing, every movie has a
   * ranking in 1..N for the N movies of the table, no two movies share one, and a strictly lower rating
   * has a strictly larger ranking number.
   */
  lemma RankedTable(rows: map<int, Movie>, order: seq<int>, rows': map<int, Movie>)
    requires IsRatingOrder(rows, order) && SameButRankings(rows, rows')
    requires Listing(rows', order) == Ranking.Ranked(Listing(rows, order))
    ensures forall k :: k in rows' ==>
      rows'[k].ranking.Some? && 1 <= rows'[k].ranking.value <= |rows'|
    ensures forall a, b :: a in rows' && b in rows' && a != b ==> rows'[a].ranking != rows'[b].ranking
    ensures forall a, b :: a in rows' && b in rows' && RatingLess(rows'[a].rating, rows'[b].rating) ==>
      rows'[a].ranking.value > rows'[b].ranking.value
  {
    var before := Listing(rows, order);
    RatingOrderLength(rows, order);
    assert |rows'| == |rows'.Keys| == |rows.Keys| == |order|;
    Ranking.RankedIsPermutation(before);
    forall a, b | a in rows' && b in rows'
      ensures rows'[a].ranking.Some? && 1 <= rows'[a].ranking.value <= |order|
      ensures rows'[b].ranking.Some?
      ensures a != b ==> rows'[a].ranking != rows'[b].ranking
      ensures RatingLess(rows'[a].rating, rows'[b].rating) ==> rows'[a].ranking.value > rows'[b].ranking.value
    {
      var i :| 0 <= i < |order| && order[i] == a;
      var j :| 0 <= j < |order| && order[j] == b;
      assert rows'[a] == Ranking.Ranked(before)[i];
      assert rows'[b] == Ranking.Ranked(before)[j];
      assert rows[a].(ranking := None) == rows'[a].(ranking := None);
      assert rows[b].(ranking := None) == rows'[b].(ranking := None);
      assert before[i] == rows[a] && before[j] == rows[b];
      if RatingLess(rows'[a].rating, rows'[b].rating) {
        Ranking.RankedFollowsRating(before, i, j);
      }
    }
  }

  /**
   * A table in which the movie at index i of a rating order got ranking
   * `len - i`, and nothing else changed, lists as the ranking pass of the
   * old listing, still has unique titles, and has the rankings of
   * RankedTable.
   */
  lemma RankingPassDone(rows: map<int, Movie>, order: seq<int>, rows': map<int, Movie>)
    requires IsRatingOrder(rows, order) && UniqueTitles(rows) && SameButRankings(rows, rows')
    requires forall i :: 0 <= i < |order| ==> rows'[order[i]] == rows[order[i]].(ranking := Some(|order| - i))
    ensures UniqueTitles(rows')
    ensures Listing(rows', order) == Ranking.Ranked(Listing(rows, order))
    ensures forall k :: k in rows' ==>
      rows'[k].ranking.Some? && 1 <= rows'[k].ranking.value <= |rows'|
    ensures forall a, b :: a in rows' && b in rows' && a != b ==> rows'[a].ranking != rows'[b].ranking
    ensures forall a, b :: a in rows' && b in rows' && RatingLess(rows'[a].rating, rows'[b].rating) ==>
      rows'[a].ranking.value > rows'[b].ranking.value
  {
    SameButRankingsKeepsUniqueTitles(rows, rows');
    var before := Listing(rows, order);
    var after := Listing(rows', order);
    forall i | 0 <= i < |order| ensures after[i] == Ranking.Ranked(before)[i] {
      Ranking.RankedAt(before, i);
    }
    RankedTable(rows, order, rows');
  }

  /** The `Movies` table, keyed by id. */
  class MovieTable {
    var rows: map<int, Movie>
    /** The id the next insert receives; every id in use is below it. */
    var nextId: int

    /**
     * The row shape's constraints: every row is stored under its own id,
     * ids are fresh below `nextId`, and titles are unique. So the next id
     * is not in use.
     */
    ghost predicate Valid()
      reads this
      ensures Valid() ==> nextId !in rows && UniqueTitles(rows)
    {
      && nextId >= 1
      && (forall k :: k in rows ==> 1 <= k < nextId && rows[k].id == k)
      && UniqueTitles(rows)
    }

    constructor ()
      ensures Valid() && rows == map[]
    {
      rows := map[];
      nextId := 1;
    }

    /**
     * The home page's ranking pass. `order` is the table's ids ascending by
     * rating; walking it, the movie at index n gets ranking `len - n`. The
     * rows listed afterwards are the ranking pass applied to the rows
     * listed before, and nothing but the rankings changes.
     */
    method Home(order: seq<int>) returns (listed: seq<Movie>)
      requires Valid() && IsRatingOrder(rows, order)
      modifies this
      ensures Valid() && nextId == old(nextId)
      ensures rows.Keys == old(rows).Keys
      ensures SameButRankings(old(rows), rows)
      ensures listed == Listing(rows, order)
      ensures listed == Ranking.Ranked(Listing(old(rows), order))
      ensures forall k :: k in rows ==> rows[k].ranking.Some? && 1 <= rows[k].ranking.value <= |rows|
      ensures forall a, b :: a in rows && b in rows && a != b ==> rows[a].ranking != rows[b].ranking
      ensures forall a, b :: a in rows && b in rows && RatingLess(rows[a].rating, rows[b].rating) ==>
        rows[a].ranking.value > rows[b].ranking.value
    {
      ghost var before := rows;
      var n := 0;
      while n < |order|
        invariant 0 <= n <= |order|
        invariant rows.Keys == before.Keys && nextId == old(nextId)
        invariant SameButRankings(before, rows)
        invariant forall i :: 0 <= i < n ==> rows[order[i]] == before[order[i]].(ranking := Some(|order| - i))
        invariant forall i :: n <= i < |order| ==> rows[order[i]] == before[order[i]]
      {
        var id := order[n];
        RankingStep(before, order, rows, n);
        rows := rows[id := rows[id].(ranking := Some(|order| - n))];
        n := n + 1;
      }
      RankingPassDone(before, order, rows);
      listed := Listing(rows, order);
    }

    /**
     * The rating edit. A form that does not validate changes nothing and is
     * shown again. Otherwise `float()` is applied to the rating text first
     * (`parsedRating`, None when it raises), then the movie is looked up;
     * only when both succeed are its rating and review written.
     */
    method Edit(id: int, submitted: bool, ratingField: string, reviewField: string, parsedRating: Option<Rating>)
      returns (outcome: EditOutcome)
      requires Valid()
      modifies this
      ensures Valid() && nextId == old(nextId)
      ensures outcome ==
        if !RatingFormValidates(submitted, ratingField, reviewField) then FormShown
        else if parsedRating.None? then BadRating
        else if id !in old(rows) then NotFound
        else Saved
      ensures outcome == Saved ==>
        rows == old(rows)[id := old(rows)[id].(rating := parsedRating, review := Some(reviewField))]
      ensures outcome != Saved ==> rows == old(rows)
    {
      if !RatingFormValidates(submitted, ratingField, reviewField) {
        return FormShown;
      }
      if parsedRating.None? {
        return BadRating;
      }
      if id !in rows {
        return NotFound;
      }
      rows := rows[id := rows[id].(rating := parsedRating, review := Some(reviewField))];
      outcome := Saved;
    }

    /** Removes the movie with the given id; `found` is false, and nothing changes, when there is none. */
    method Delete(id: int) returns (found: bool)
      requires Valid()
      modifies this
      ensures Valid() && nextId == old(nextId)
      ensures found == (id in old(rows))
      ensures id !in rows
      ensures rows == old(rows) - {id}
    {
      found := id in rows;
      if found {
        rows := rows - {id};
      }
    }

    /**
     * Inserts the record built from a details response under a fresh id.
     * A title already in the table violates the unique constraint: the
     * insert fails with None and the table is unchanged.
     */
    method Select(details: MovieDetails) returns (newId: Option<int>)
      requires Valid()
      modifies this
      ensures Valid()
      ensures newId.None? <==> details.title in Titles(old(rows))
      ensures newId.None? ==> rows == old(rows)
      ensures newId.Some? ==>
        && newId.value !in old(rows)
        && rows == old(rows)[newId.value := NewMovie(details, newId.value)]
    {
      if details.title in Titles(rows) {
        return None;
      }
      var id := nextId;
      rows := rows[id := NewMovie(details, id)];
      nextId := nextId + 1;
      newId := Some(id);
    }
  }
}
