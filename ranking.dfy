/**
 * The ranking the home page writes: walking the movies in ascending rating
 * order, the movie at index n gets ranking `len - n`, so the lowest-rated
 * movie gets the number of movies and the highest-rated gets 1.
 */
module Ranking {
  import opened Wrappers
  import opened Records

  /**
   * Reference definition of the ranking pass over a list: the first movie
   * gets the length of the list, the remaining ones are ranked among
   * themselves. Only the `ranking` field is written.
   */
  function Ranked(s: seq<Movie>): (r: seq<Movie>)
    ensures |r| == |s|
  {
    if s == [] then [] else [s[0].(ranking := Some(|s|))] + Ranked(s[1..])
  }

  /** The movie at index n of the list gets ranking `len - n` and keeps every other field. */
  lemma {:induction false} RankedAt(s: seq<Movie>, n: int)
    requires 0 <= n < |s|
    ensures Ranked(s)[n] == s[n].(ranking := Some(|s| - n))
  {
    if n > 0 {
      RankedAt(s[1..], n - 1);
    }
  }

  /**
   * The rankings are exactly 1..N, each used once: every ranking lies in
   * 1..N, they strictly decrease along the list, and ranking k sits at
   * index N - k. In particular the first movie gets N and the last gets 1.
   */
  lemma {:induction false} RankedIsPermutation(s: seq<Movie>)
    ensures forall i :: 0 <= i < |s| ==>
      Ranked(s)[i].ranking.Some? && 1 <= Ranked(s)[i].ranking.value <= |s|
    ensures forall i, j :: 0 <= i < j < |s| ==>
      Ranked(s)[i].ranking.Some? && Ranked(s)[j].ranking.Some? &&
      Ranked(s)[i].ranking.value > Ranked(s)[j].ranking.value
    ensures forall k :: 1 <= k <= |s| ==> Ranked(s)[|s| - k].ranking == Some(k)
  {
    forall i | 0 <= i < |s| {
      RankedAt(s, i);
    }
  }

  /** The list keeps its length and order, and every field but `ranking` is unchanged. */
  lemma {:induction false} RankedKeepsOtherFields(s: seq<Movie>)
    ensures |Ranked(s)| == |s|
    ensures forall i :: 0 <= i < |s| ==>
      && Ranked(s)[i].id == s[i].id
      && Ranked(s)[i].title == s[i].title
      && Ranked(s)[i].year == s[i].year
      && Ranked(s)[i].description == s[i].description
      && Ranked(s)[i].rating == s[i].rating
      && Ranked(s)[i].review == s[i].review
      && Ranked(s)[i].imgUrl == s[i].imgUrl
  {
    forall i | 0 <= i < |s| {
      RankedAt(s, i);
    }
  }

  /**
   * On a list ascending by rating, a movie with a strictly lower rating than
   * another gets a strictly larger ranking number. Equal ratings are ranked
   * by their list position.
   */
  lemma {:induction false} RankedFollowsRating(s: seq<Movie>, i: int, j: int)
    requires SortedByRating(s)
    requires 0 <= i < |s| && 0 <= j < |s| && RatingLess(s[i].rating, s[j].rating)
    ensures Ranked(s)[i].ranking.Some? && Ranked(s)[j].ranking.Some?
    ensures Ranked(s)[i].ranking.value > Ranked(s)[j].ranking.value
  {
    RankedAt(s, i);
    RankedAt(s, j);
  }

  /**
   * The pass keeps no state of its own: two lists that differ only in their
   * old rankings are ranked alike, so running the pass again changes nothing.
   */
  lemma {:induction false} RankedIgnoresOldRankings(s: seq<Movie>, t: seq<Movie>)
    requires |s| == |t|
    requires forall i :: 0 <= i < |s| ==> s[i].(ranking := None) == t[i].(ranking := None)
    ensures Ranked(s) == Ranked(t)
  {
    if s != [] {
      assert s[0].(ranking := None) == t[0].(ranking := None);
      RankedIgnoresOldRankings(s[1..], t[1..]);
    }
  }

  /** Running the ranking pass twice is the same as running it once. */
  lemma {:induction false} RankedIdempotent(s: seq<Movie>)
    ensures Ranked(Ranked(s)) == Ranked(s)
  {
    forall i | 0 <= i < |s| ensures Ranked(s)[i].(ranking := None) == s[i].(ranking := None) {
      RankedAt(s, i);
    }
    RankedIgnoresOldRankings(Ranked(s), s);
  }
}
