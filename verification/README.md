# Course recommendation ranking, modelled in Dafny

The service (`app.py`) loads a course catalog once at start-up, fills
missing titles and descriptions, checks the required columns, and answers
`GET /recommendations?course_id=…` with the two courses that rank just
below the top of the requested course's similarity row, and
`GET /analytics` with the number of courses.

This project models that behaviour as pure functions over values, as the
source computes it with expressions and no mutable state after loading:

- `results.dfy` — `Option` and `Result`, for missing cells, failed lookups
  and raised exceptions.
- `catalog.dfy` — module `Catalog`: the loaded `Course` record, the raw
  table (its column names and rows with possibly missing cells), and
  `Load`, which fills `description` with `""`, then `title` with
  `"Untitled"`, then checks the columns `id`, `title`, `description`.
- `int_parse.dfy` — module `IntParse`: Python's `int(text)` in base 10 on
  the query argument (whitespace stripping, one sign, digits with single
  underscores), with `str(n)` as its inverse. The whitespace `int()` skips
  is the ASCII whitespace of the C locale plus the non-ASCII Unicode
  whitespace; unlike `str.strip()`, it does not skip the separators
  U+001C to U+001F.
- `ranking.dfy` — module `Ranking`: `enumerate` over one similarity row,
  Python's stable `sorted(..., key=score, reverse=True)` written as an
  insertion sort, and the slice `[1 : min(n, 3)]`.
- `recommendations.dfy` — module `Recommendations`: the first-match id
  lookup, the projection to `(id, title, description)`, and `Recommend`.
- `service.dfy` — module `Service`: the two handlers with their HTTP
  status codes, including the 404 for an unknown id and the 500 for a
  `course_id` that is not an integer.

The similarity matrix is an input: one row and one column per course, in
catalog order, with real-valued scores.

Points where the code's behaviour differs from the service's documented
intent, and which the model follows as written:

- A `course_id` that is not an integer is not replaced by the default id 1.
  `int()` raises at app.py:34, the `except` at app.py:52-53 catches it, and
  the answer is status 500 with the exception's message. Only an absent
  argument defaults to 1.
- The ranking drops whatever sits at sorted position 0, not the requested
  course as such. The requested course is guaranteed to be excluded only
  when its own score is the strict maximum of its row
  (`StrictSelfMaximumNotRecommended`). Otherwise it may or may not be
  excluded. It is excluded when it ties at the top with the lowest row
  index among the tied rows, and also when its row is all zeros (an
  all-stopword description) and its index is 3 or more. On a tie at the
  top where a lower row index wins position 0, for example with two
  identical descriptions, the requested course can be recommended to
  itself. `TieRecommendsRequestedCourse` shows such a case.
- A table without `description` or `title` fails at the fill on
  app.py:14 or app.py:15 with a `KeyError` naming that column. The explicit
  validation at app.py:18-20 is reached only when `id` alone is missing.

## Model

| member | source | states |
|---|---|---|
| Catalog.FillRow | app.py:14-15 | a missing title becomes "Untitled" and a missing description becomes ""; present values and the id are kept |
| Catalog.FillRows | app.py:14-15 | the fill keeps the number and the order of rows, filling each row on its own |
| Catalog.Load | app.py:13-20 | loading succeeds exactly when id, title and description are all columns; without description it fails with a KeyError for description, otherwise without title with a KeyError for title, and the validation error arises exactly when only id is missing; on success row i of the catalog is row i of the table with its missing cells filled; the later failure of the TF-IDF fit (app.py:24) on a table with no usable description term is not modelled, so success here means the column checks pass |
| Catalog.TotalCourses | app.py:58 | total_courses counts one per catalog row, so rows that repeat an id are counted again and the total is never below the number of distinct ids |
| Service.TotalCoursesCountsLoadedRows | app.py:58 | after a successful load, total_courses equals the number of rows the table was read with |
| Service.HandleAnalytics | app.py:55-58 | the analytics answer has status 200 and reports the catalog's row count |
| IntParse.ParseInt | app.py:34 | int() accepts a text exactly when it is whitespace, an optional + or -, digits grouped by single underscores, and whitespace; an accepted text is read as the value of its digits with the underscores ignored, negated after a minus sign |
| IntParse.TrimStart | app.py:34 | the whitespace stripping done by int(): removes exactly the longest prefix of dropped characters |
| IntParse.TrimEnd | app.py:34 | removes exactly the longest suffix of dropped characters |
| IntParse.TrimPadded | app.py:34 | stripping whitespace around text that neither starts nor ends in whitespace gives back that text |
| IntParse.TrimKeeps | app.py:34 | a character that is not whitespace survives stripping at its shifted position |
| IntParse.ParseStrippedShow | app.py:34 | int() reads back the decimal text str(n) of every integer n, negative ones included |
| IntParse.ParseShowRoundTrip | app.py:34 | int() reads back str(n) for every integer n, also with any whitespace on either side |
| IntParse.StrayCharacterRejected | app.py:34 | text holding a character that is neither whitespace, a digit, an underscore nor a sign makes int() raise |
| IntParse.BlankRejected | app.py:34 | empty or all-whitespace text makes int() raise |
| IntParse.UnderscoredDigitsAccepted | app.py:34 | every text made of whitespace, an optional + or -, digits grouped by single underscores, and whitespace is accepted; the value is that of the digits with the underscores ignored, negated after a minus sign |
| IntParse.FirstCharacterAfterSignMustBeDigit | app.py:34 | for every text: after leading whitespace and an optional sign, a first character that is not a digit (an underscore, a second sign, whitespace between the sign and the digits, any other character) makes int() raise |
| IntParse.DoubleUnderscoreRejected | app.py:34 | for every text: two underscores in a row anywhere make int() raise |
| IntParse.TrailingUnderscoreRejected | app.py:34 | for every text: an underscore as the last character before trailing whitespace makes int() raise |
| Ranking.Enumerate | app.py:41 | entry i of the pairs is row index i with the score at i |
| Ranking.Insert | app.py:42 | inserting adds exactly the one element to the sequence's elements |
| Ranking.SortByScoreDesc | app.py:42 | the sort returns a permutation of its input |
| Ranking.InsertRanked | app.py:42 | placing an element in front of the first equal or lower score keeps ranked order when its index is below all others |
| Ranking.SortRanked | app.py:42 | stability: for pairs with ascending indices, the sort orders by score descending and breaks ties by ascending index |
| Ranking.RankedOrderUnique | app.py:42 | two sequences with the same elements, both ordered by score descending then index ascending, are equal |
| Ranking.RankingSpec | app.py:41-42 | the ranking holds every row index exactly once with its own score, highest score first, ties by ascending index |
| Ranking.RankingIsTheRankedArrangement | app.py:41-42 | the stable sort equals every arrangement of the pairs ordered by score descending then index ascending |
| Ranking.RankingIndicesDistinct | app.py:41-42 | no row index occurs twice in the ranking |
| Ranking.RankRow | app.py:41-42 | the ranking has one entry per row entry |
| Ranking.Slice | app.py:43 | Python slicing with non-negative bounds: both bounds clipped to the length, element k is s[lo + k] |
| Ranking.TopPicks | app.py:41-43 | zero picks for a row of at most one entry, one for two entries, exactly two from three entries on; the picks are exactly sorted positions 1 and 2 of the ranking, whatever is at position 0 |
| Ranking.TopPicksWellFormed | app.py:41-43 | picks are valid distinct row indices with their own scores, scores non-increasing and ties by ascending index |
| Ranking.FirstRankedIsMaximal | app.py:42 | sorted position 0 carries the maximum score of the row |
| Ranking.UnpickedScoreNoHigher | app.py:41-43 | every row index neither picked nor at sorted position 0 scores at most the last pick |
| Ranking.StrictMaximumNotPicked | app.py:42-43 | an index whose score strictly exceeds every other score of the row is never picked |
| Ranking.TieCanPickRequestedRow | app.py:42-43 | with scores [1.0, 1.0, 0.0] the picks are indices 1 and 2, so a tied requested row 1 is picked |
| Recommendations.Lookup | app.py:35-40 | the first row whose id equals the requested id, and nothing exactly when no row has it |
| Recommendations.Project | app.py:45-49 | recommendation k is the catalog row at the index of pick k |
| Recommendations.Recommend | app.py:35-49 | the not-found error exactly when no row has the id; otherwise 0, 1 or 2 recommendations for 1, 2 or at least 3 courses |
| Recommendations.RecommendIsRankedPositions | app.py:41-49 | a found course gets the rows at sorted positions 1 and 2 of its own similarity row |
| Recommendations.StrictSelfMaximumNotRecommended | app.py:35-49 | with unique ids, a course whose self-similarity is the strict maximum of its row is never among its own recommendations |
| Recommendations.SharedVocabularyRowPicks | app.py:41-43 | with scores [1.0, 0.5, 0.0] the picks are indices 1 and 2, in that order |
| Recommendations.ScenarioRanksSharedVocabularyFirst | app.py:35-49 | in the three-course example, course 1 gets course 2 before course 3 |
| Recommendations.ScenarioUnknownIdNotFound | app.py:35-38 | in the three-course example, id 99 is not found |
| Recommendations.TieRecommendsRequestedCourse | app.py:35-49 | on a tie at the top, a course is recommended to itself |
| Service.CourseIdArgument | app.py:34 | an absent argument is id 1; present text gives its int() value, or the ValueError message exactly when int() raises |
| Service.RespondForCourse | app.py:35-51 | status 404 with "Course ID not found" exactly when no row has the id; otherwise status 200 echoing the id, with the recommendations Recommend gives for that id (at most 2, fewer than the catalog size) |
| Service.HandleRecommendations | app.py:31-53 | status 500 with the parse error's message exactly when the argument is present and int() raises; an absent argument is answered as for id 1 and a parsed argument as for the id int() gives; the status is always 200, 404 or 500 |
| Service.AbsentArgumentMeansCourseOne | app.py:34 | a request without course_id is answered as for id 1 |
| Service.DecimalArgumentMeansThatCourse | app.py:34-51 | a request with the decimal text of n, whitespace allowed around it, is answered as for id n |
| Service.NonNumericArgumentIsServerError | app.py:34-53 | a course_id with a stray character is answered with status 500 and the message, not with the default id |

## Left out

- TF-IDF vectorisation and cosine similarity (app.py:22-25): floating-point library calls. The matrix is an input of real-valued scores; floating-point rounding is not modelled. `fit_transform` at app.py:24 raises `ValueError` ("empty vocabulary") when no description holds a term outside the English stop words, for example a table with a header and no rows or one whose descriptions are all empty; the service then never starts. This start-up failure is not modelled: `Catalog.Load` succeeds on such a table, and the handlers answer for it.
- The mean description length and its rounding to 2 decimals (app.py:59, app.py:62): a floating-point mean and float rounding.
- Reading the CSV file and building its path (app.py:9-11): I/O. The raw table is an input; which CSV fields pandas reads as missing (empty fields, "NA" and the like) is not modelled, and ids are taken to be integers. Titles and descriptions are taken to be text: a title column holding only numbers is read by pandas as integers (int64), which `jsonify` at app.py:51 cannot serialise, and the 500 answer that follows is not modelled.
- The `/` greeting (app.py:27-29), Flask routing and JSON serialisation (app.py:31, app.py:51, app.py:55, app.py:60-63), and port handling and server start-up (app.py:67-69): framework plumbing.
- The 500 answer of `/analytics` (app.py:64-65): no exception in the modelled part of that handler can occur.
- IntParse.ParseErrorMessage: quotes the text in plain single quotes. Python formats the text with `%.200R`, its `repr` cut to 200 characters; the escaping, the choice of quote character and the cut are not modelled.
- IntParse.ParseInt: accepts ASCII digits only; Python also accepts other Unicode decimal digits. Python 3.11 and later also reject texts of more than 4300 digits; this limit is not modelled.
- Recommendations.Lookup: the row label returned by pandas is taken to be the row position, as it is for the default index of a freshly read table.
