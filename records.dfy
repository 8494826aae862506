/**
 * The `Movies` row and the record the select handler builds from the
 * details the movie database returns for one film.
 */
module Records {
  import opened Wrappers
  import Strings

  /**
   * A user rating. The application stores a decimal out of 10; the model
   * keeps only its order, so ratings are integers here.
   */
  type Rating = int

  /**
   * One row of the `Movies` table. `rating`, `ranking` and `review` are the
   * nullable columns; `year` is kept as the text the select handler builds.
   */
  datatype Movie = Movie(
    id: int,
    title: string,
    year: string,
    description: string,
    rating: Option<Rating>,
    ranking: Option<int>,
    review: Option<string>,
    imgUrl: string)

  /** The fields of a movie-database details response that the select handler reads. */
  datatype MovieDetails = MovieDetails(
    title: string,
    releaseDate: string,
    overview: string,
    posterPath: string)

  /** Base of every poster URL; the poster path of the details response follows it. */
  const PosterBase: string := "https://image.tmdb.org/t/p/w500"

  /**
   * The release year: the text of the release date before its first '-',
   * or the whole date when it holds no '-' (`release_date.split("-")[0]`).
   */
  function YearOf(releaseDate: string): (year: string)
    ensures year <= releaseDate
    ensures '-' !in year
    ensures |year| == |releaseDate| || releaseDate[|year|] == '-'
  {
    Strings.SplitHead(releaseDate, '-');
    Strings.Split(releaseDate, '-')[0]
  }

  /** A date written as a dash-free year, a '-', and anything at all has that year. */
  lemma YearOfDashedDate(y: string, rest: string)
    requires '-' !in y
    ensures YearOf(y + "-" + rest) == y
  {
    var d := y + "-" + rest;
    assert d[|y|] == '-' && y == d[..|y|];
  }

  /** The poster URL: the fixed base followed by the poster path. */
  function PosterUrl(posterPath: string): (url: string)
    ensures PosterBase <= url
    ensures url[|PosterBase|..] == posterPath
  {
    PosterBase + posterPath
  }

  /** Recovers the poster path from a poster URL; None when the URL does not start with the base. */
  function PosterPathOf(url: string): (path: Option<string>)
    ensures path.Some? <==> PosterBase <= url
  {
    if PosterBase <= url then Some(url[|PosterBase|..]) else None
  }

  /** The poster URL and the poster path determine each other. */
  lemma PosterRoundTrip(posterPath: string, url: string)
    ensures PosterPathOf(PosterUrl(posterPath)) == Some(posterPath)
    ensures PosterPathOf(url) == Some(posterPath) ==> PosterUrl(posterPath) == url
  {
  }

  /**
   * The row the select handler inserts for a details response, given the id
   * the table assigns: title and description copied, year and poster URL
   * derived, and no rating, ranking or review yet.
   */
  function NewMovie(details: MovieDetails, id: int): (m: Movie)
    ensures m.id == id && m.title == details.title && m.description == details.overview
    ensures m.year <= details.releaseDate && '-' !in m.year
    ensures |m.year| == |details.releaseDate| || details.releaseDate[|m.year|] == '-'
    ensures PosterPathOf(m.imgUrl) == Some(details.posterPath)
    ensures m.rating == None && m.ranking == None && m.review == None
  {
    PosterRoundTrip(details.posterPath, PosterUrl(details.posterPath));
    Movie(id, details.title, YearOf(details.releaseDate), details.overview,
          None, None, None, PosterUrl(details.posterPath))
  }

  /**
   * The order of an ascending sort on the nullable rating column: NULL comes
   * before every rating, as in SQLite.
   */
  predicate RatingLe(a: Option<Rating>, b: Option<Rating>)
    ensures a == None ==> RatingLe(a, b)
    ensures b == None ==> (RatingLe(a, b) <==> a == None)
  {
    match (a, b)
    case (None, _) => true
    case (Some(_), None) => false
    case (Some(x), Some(y)) => x <= y
  }

  /** The rating order is a total preorder: any two values compare, and it is transitive. */
  lemma RatingLeTotalPreorder(a: Option<Rating>, b: Option<Rating>, c: Option<Rating>)
    ensures RatingLe(a, b) || RatingLe(b, a)
    ensures RatingLe(a, b) && RatingLe(b, c) ==> RatingLe(a, c)
  {
  }

  /** Strictly lower in the same order. */
  predicate RatingLess(a: Option<Rating>, b: Option<Rating>)
  {
    RatingLe(a, b) && !RatingLe(b, a)
  }

  /** The list is ascending by rating. */
  predicate SortedByRating(s: seq<Movie>)
  {
    forall i, j :: 0 <= i < j < |s| ==> RatingLe(s[i].rating, s[j].rating)
  }
}
