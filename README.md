# Top-movies site: the movie table and its ranking, in Dafny

The application keeps a personal list of movies in one `Movies` table. There are four handlers:

- The home page lists the movies in ascending rating order and writes each one's `ranking`.
- The edit page sets a movie's rating and review.
- The delete page removes a movie.
- The select page builds a new row from the details the movie database returns for a film and inserts it.

This project models that table and those handlers, and proves what they do:

- `Records`: the `Movies` row, the details record, and the two derived fields of a new row. The year is `release_date.split("-")[0]`, through a Python-faithful `Strings.Split`. The poster URL is the fixed base `https://image.tmdb.org/t/p/w500` followed by the poster path.
- `Ranking`: a reference definition `Ranked` of the ranking pass over an ordered list, with lemmas about it.
- `Store`: the table as a class `MovieTable`. Its field `rows` maps each id to its row. `Valid()` states three things: every row sits under its own id, every id is below the `nextId` counter, and no two rows share a title (the `unique=True` title column). `Home`, `Edit`, `Delete` and `Select` are methods that keep `Valid()`. Each one states the new table in terms of the old one.

Direction of the ranking: the code walks the list in ascending rating order and gives index `n` the ranking `len - n`. So the lowest-rated movie gets ranking N, the number of movies, and the highest-rated movie gets 1. A larger ranking number means a lower rating.

Order of the edit checks: Python evaluates the right-hand side of `movie_to_update.rating = float(...)` first. So a rating text that `float()` rejects fails before a missing movie is noticed. `Edit` checks in that order: form, then rating, then id.

Inputs that stand for what the model does not compute:

- `Home` receives the ids as the database's rating-ordered query returns them. `IsRatingOrder` states what the code relies on: each movie exactly once, ascending by rating, NULL ratings first as SQLite sorts them.
- `Edit` receives the value of `float()` on the rating text as `Option<Rating>`, with None where `float()` raises. It also receives whether the form was submitted.
- `Select` receives the details response as a `MovieDetails` record.

## Model

| member | source | states |
|---|---|---|
| Strings.Split | main.py:121 | the pieces of `str.split` on one separator: at least one piece, and no piece holds the separator |
| Strings.SplitJoin | main.py:121 | joining the pieces of a split with the separator gives back the original string |
| Strings.JoinSplit | main.py:121 | splitting a join of separator-free pieces gives back exactly those pieces |
| Strings.SplitHead | main.py:121 | the first piece is the longest separator-free prefix: a prefix, with no separator, ending at the string's end or just before a separator |
| Records.YearOf | main.py:121 | the year is a prefix of the release date, holds no '-', and stops at the first '-' or at the end of the date |
| Records.YearOfDashedDate | main.py:121 | a date of the form `y-rest` with `y` free of '-' has year exactly `y` |
| Records.PosterUrl | main.py:123 | the poster URL starts with the fixed base and continues with the poster path |
| Records.PosterPathOf | main.py:123 | the inverse of the poster URL: defined exactly on strings that start with the base |
| Records.PosterRoundTrip | main.py:123 | poster URL and poster path determine each other in both directions |
| Records.NewMovie | main.py:120-123 | the new row takes the id it is given and copies title and overview; its year is the release date's text up to the first '-' (a dash-free prefix ending at the first '-' or the end); its poster URL gives back the poster path; it has no rating, ranking or review |
| Records.RatingLe | main.py:61 | the ascending order of the nullable rating column: NULL is below every value, and a rating is never below NULL |
| Records.RatingLeTotalPreorder | main.py:61 | any two ratings compare, and the order is transitive |
| Ranking.Ranked | main.py:63-64 | the ranking pass keeps the length of the list |
| Ranking.RankedAt | main.py:63-64 | the element at index n gets ranking `len - n` and keeps every other field |
| Ranking.RankedIsPermutation | main.py:63-64 | rankings lie in 1..N and strictly decrease along the list, and ranking k is at index N-k, so every value 1..N is used exactly once; the first (lowest-rated) movie gets N, the last gets 1 |
| Ranking.RankedKeepsOtherFields | main.py:61-64 | length and order are kept, and id, title, year, description, rating, review and poster URL of every element are unchanged |
| Ranking.RankedFollowsRating | main.py:61-64 | on a list ascending by rating, for any two positions, the movie with the strictly lower rating gets the strictly larger ranking number |
| Ranking.RankedIgnoresOldRankings | main.py:63-64 | the result does not depend on the rankings stored before the pass |
| Ranking.RankedIdempotent | main.py:63-65 | running the pass on its own output changes nothing |
| Store.DataRequired | main.py:11-12 | a required field passes only if it holds a non-whitespace character: an empty or all-whitespace field fails |
| Store.RatingFormValidates | main.py:75 | `validate_on_submit()`: only a submitted form whose rating and review both pass DataRequired, so both are non-empty |
| Store.UniqueTitlesOtherTitles | main.py:32 | the title column is unique exactly when no movie's title is among the titles of the other movies |
| Store.RatingOrderLength | main.py:61 | a query result that lists every movie exactly once (`IsRatingOrder`: ascending by rating, NULL first) is as long as the table |
| Store.MovieTable.Valid | main.py:30-38 | every row is stored under its own id, ids are below the next id (which is therefore unused), and titles are unique |
| Store.SameButRankingsKeepsUniqueTitles | main.py:32 | rewriting rankings cannot violate the unique title constraint |
| Store.SetRankingSameButRankings | main.py:65 | writing one movie's ranking keeps the table equal to the original in everything but rankings |
| Store.RankingStep | main.py:63-65 | one loop step: once the movies before index n have ranking `len - i` and the rest are untouched, writing `len - n` at index n extends that to index n + 1 |
| Store.RankedTable | main.py:61-65 | after the pass every movie of the table has a ranking in 1..N for the N movies, no two share one, and a strictly lower rating has a larger ranking number |
| Store.RankingPassDone | main.py:63-65 | the table after the loop has written `len - i` at position i of the order lists as the ranking pass of the old listing, keeps titles unique, and has rankings 1..N, distinct and following the ratings |
| Store.MovieTable.constructor | main.py:30-44 | the freshly created table is empty and satisfies the table invariant |
| Store.MovieTable.Home | main.py:59-66 | only rankings change; the listed rows equal the ranking pass applied to the rows listed before; rankings are in 1..N for the N movies, distinct, and follow the rating order |
| Store.MovieTable.Edit | main.py:70-79 | nothing changes unless the form was submitted with a non-blank rating and review (DataRequired, main.py:11-12), the rating parses and the id exists; then exactly that movie's rating and review are set and every other field and movie is unchanged |
| Store.MovieTable.Delete | main.py:84-88 | exactly the movie with the id is removed and the id is absent afterwards; an unknown id reports not found and changes nothing |
| Store.MovieTable.Select | main.py:112-127 | a title already in the table fails and leaves it unchanged; otherwise the built row is added under an id not in use before and nothing else changes; titles stay unique |

## Left out

- Flask routing, templates, redirects, Bootstrap, configuration, secret keys and `app.run` (main.py:21-27, 130-131): web plumbing. The GET path of the edit page, which renders a form pre-filled from the movie, is rendering only.
- The add page and its title search (main.py:92-108): it only calls the movie database and renders the candidates, and it changes no state.
- The WTForms declarations and CSRF handling. Only their effect is kept: a submitted form whose required fields are not blank. Blank means made only of the characters Python's `str.isspace()` accepts.
- The SQLAlchemy session, `commit`, rollback and `create_all`: foreign library code. Persistence is the in-memory map, and a failed commit is modelled as "the table is unchanged".
- Store.MovieTable.Select: its contract promises any fresh id. The body takes a counter that never reuses an id. SQLite's rowid choice can reuse the largest id after it is deleted, and it still gives a fresh id.
- The SQL `order_by(Movies.rating)` query itself (main.py:61): `Home` receives its result, described by `IsRatingOrder`. Ties between equal ratings keep whatever order the query gave.
- The HTTP calls to the movie database and JSON decoding (main.py:104, 115-117): network I/O. A missing key or a JSON `null` is not modelled. The details arrive as strings, so a null `poster_path`, which the f-string would render as `None`, is not represented.
- `float()` parsing and the `Float` rating column (main.py:35, 76): floating point. A rating is an integer standing for its order only. A rating text that `float()` reads as NaN (`"nan"`) is stored by SQLite as NULL; not modelled: `Edit` always saves a present rating.
- The conversion of the year text to the integer `year` column (main.py:33), and the `String(n)` length limits, which SQLite does not enforce.
- A missing `movie_id` query argument: ids are always given as integers.
- The commented-out seed data (main.py:46-56) and `__repr__` (main.py:40-41).
- Concurrent requests: each handler is one atomic step, one request at a time. `home` reads the order (main.py:61) and writes the rankings (main.py:65) in separate steps, so an edit committed between them (main.py:78) can leave rankings that do not follow the ratings. `Store.MovieTable.Home` and `Store.RankedTable` make no promise about that interleaving.
