# CineMax handlers and page logic, modelled in Dafny

CineMax is a small cinema catalogue: an HTTP API for movies and screening
sessions over a relational database, and a browser page that lists, searches
and adds movies. This project models the decision logic of that system:

- the movie resource handler (`MovieController`): list with an optional
  genre filter, newest year first; lookup by id; delete by id; create with
  its two validation steps (seven required fields, then the age rating);
- the session resource handler (`SessionController`): list of active
  sessions with optional movie and date filters, in date-then-time order,
  each joined with its movie and room; lookup by id; create, which fails
  with 404 for an unknown room and seeds the free seats from the room's
  capacity;
- the page script: the client-side search (trim, lowercase, substring match
  over title, description and genre), the check made before a new movie is
  sent, and the choice of the error message when the server answers with
  a non-2xx status.

The database is replaced by in-memory tables: a table is a `map<int, T>`
from primary key to row, every row stored under its own id. The parts of
the object-relational mapper the handlers use (enumerating a table, the
`where` filter and the `order` list) are in module `Query`. The handlers
that write a table (`store` and `destroy` of movies, `store` of sessions)
are methods of classes that own the table and its auto-increment counter.
The read handlers are functions over the tables. The page logic is pure
functions over strings and sequences. JavaScript's `trim`, `toLowerCase`,
`includes`, `parseInt`, `||` and `JSON.stringify` are written out where
the logic depends on them.

Modules: `Http` (the reply envelope and `Option`), `Query`, `Movies`,
`Sessions`, `Frontend`.

Where the schema files and the handlers disagree, the model follows the
handlers:

- The `Movie` schema lets `description` and `poster` be null
  (backend/src/models/Movie.js:14-17, 36-39). The create handler requires
  all seven fields (backend/src/controllers/MovieController.js:88).
- The `Movie` schema declares `rating` and `releaseDate`
  (backend/src/models/Movie.js:27-31, 41-44). The create handler writes
  `ageRating` and `year` (backend/src/controllers/MovieController.js:104-112),
  and a movie row here has the handler's columns.
- The session create handler checks only the room
  (backend/src/controllers/SessionController.js:53-56). A body without a
  room id finds no room and gets the same 404. The movie id is stored
  without being looked up.

## Model

| member | source | states |
|---|---|---|
| `Movies.Validate` | backend/src/controllers/MovieController.js:85-102 | A payload is accepted iff all seven fields are present and truthy and the rating is one of L, 10, 12, 14, 16, 18. A missing or falsy field gives the missing-fields message, even when the rating is also wrong. A bad rating alone gives the rating message. |
| `Movies.Created` | backend/src/controllers/MovieController.js:104-112 | The inserted row has the given id and carries the seven request fields unchanged (`PayloadOf` gives back the payload). It satisfies every validation rule. |
| `Movies.MovieController.Store` | backend/src/controllers/MovieController.js:83-118 | A rejected payload gives 400 with the validation message and leaves the table and the counter unchanged. An accepted one gives 201 and adds exactly one row, holding the sent fields, under the previously unused counter value. The counter advances and every existing row keeps its value. The class invariant is kept. |
| `Movies.MovieController.Destroy` | backend/src/controllers/MovieController.js:56-73 | An absent id gives 404 and removes nothing. A present id gives 200 with the confirmation, removes exactly that row and leaves every other id's row as it was. The counter is never reused. |
| `Movies.Index` | backend/src/controllers/MovieController.js:7-21 | The reply is 200 with `total` equal to the number of rows listed. The rows are in non-increasing year order and each appears once. A row is listed iff it is stored and matches the genre filter; an absent or empty filter lists every row. |
| `Movies.Show` | backend/src/controllers/MovieController.js:31-46 | 404 with "Filme não encontrado" iff the id is absent; otherwise 200 with the stored row. |
| `Movies.ShowAfterStore` | backend/src/controllers/MovieController.js:104-118 | A lookup of a just-created id answers the row holding exactly the fields that were sent. |
| `Movies.ShowAfterDestroy` | backend/src/controllers/MovieController.js:56-73 | A lookup of a just-deleted id answers 404. |
| `Movies.IndexAfterStore` | backend/src/controllers/MovieController.js:9-15 | A just-created movie is listed under its own genre and when there is no filter. |
| `Movies.NewerFirst` | backend/src/controllers/MovieController.js:14 | A year-descending listing of two distinct movies holds the newer one first. |
| `Movies.TwoOfGenre` | backend/src/controllers/MovieController.js:9-21 | Take a table with exactly two movies of a genre and rows of other genres. Filtering by that genre lists those two, newer first, with total 2. |
| `Movies.DramaListing` | backend/src/controllers/MovieController.js:9-21 | The table holds a 2020 drama, a 2022 drama and a 2021 comedy. The "Drama" listing is exactly the 2022 drama, then the 2020 one. |
| `Sessions.Lookup` | backend/src/controllers/SessionController.js:53-54 | `findByPk`: a row iff the key is stored, and then the stored row. |
| `Sessions.Index` | backend/src/controllers/SessionController.js:8-23 | 200 with the listed sessions in ascending (date, time) order, each once. A session is listed iff it is stored, active, and matches the movie and date filters that are given. Each entry carries that session's movie and room lookups. |
| `Sessions.Show` | backend/src/controllers/SessionController.js:29-43 | 404 with "Sessão não encontrada" iff the id is absent. Otherwise 200 with the stored session, joined with its movie and room. |
| `Sessions.Seeded` | backend/src/controllers/SessionController.js:58-65 | The inserted session copies the five request fields verbatim, takes the room's capacity as its free seats, and is active. |
| `Sessions.SessionController.Store` | backend/src/controllers/SessionController.js:49-67 | A missing room id, or one that names no room, gives 404 "Sala não encontrada" and changes nothing. A known room gives 201 and adds exactly one seeded session under the previously unused counter value. Existing sessions and the rooms are unchanged. The invariant is kept: every session refers to an existing room and has no more free seats than that room holds. |
| `Sessions.ShowAfterStore` | backend/src/controllers/SessionController.js:58-67 | A lookup of a just-created session shows the request fields, the room's capacity as free seats, and the room. |
| `Query.KeysAscending` | backend/src/controllers/MovieController.js:12-15 | The table's keys, each once, strictly ascending, and no other values. |
| `Query.Rows` | backend/src/controllers/MovieController.js:12-15 | Every row of the table, each once, in primary-key order, and nothing else. |
| `Query.Where` | backend/src/controllers/SessionController.js:9-14 | The elements the filter accepts, in their original order (a subsequence), each as often as in the input. No rejected element is kept. |
| `Query.OrderBy` | backend/src/controllers/SessionController.js:20 | A permutation of the input, sorted ascending on the two sort columns. |
| `Query.SubsequenceKeepsDistinct` | backend/src/controllers/MovieController.js:12-15 | Filtering a listing without repetitions gives one without repetitions. |
| `Query.PermutationKeepsDistinct` | backend/src/controllers/MovieController.js:12-15 | Reordering a listing without repetitions gives one without repetitions. |
| `Frontend.Trim` | frontend/js/script.js:131-132 | `trim`: empty iff the text is all whitespace. Otherwise the result starts and ends with a non-whitespace character and is the text with a whitespace prefix and a whitespace suffix cut off. |
| `Frontend.ToLower` | frontend/js/script.js:132-136 | `toLowerCase`: same length; each character is its lowercase counterpart. |
| `Frontend.Includes` | frontend/js/script.js:138-140 | `includes`: true iff the needle occurs at some position of the text. |
| `Frontend.SearchMovies` | frontend/js/script.js:127-142 | `response.data` when present, else the empty list. A blank term returns that list exactly as received. Otherwise the result is an order-preserving subsequence holding exactly the movies whose lowercased title, description or genre contains the lowercased, trimmed term. Each such movie appears as many times as it was received. |
| `Frontend.LowerThenTrim` | frontend/js/script.js:132 | Lowercasing and trimming commute: the search key is the trimmed term lowercased. |
| `Frontend.NonBlankKey` | frontend/js/script.js:131-132 | A term that passes the blank test gives a non-empty search key. |
| `Frontend.MissingFieldMatch` | frontend/js/script.js:134-136 | A missing field is read as empty and so contains no non-empty key. A movie lacking one field matches iff one of the other two contains the key. |
| `Frontend.MissingFieldSearch` | frontend/js/script.js:131-140 | With a non-blank term, a movie lacking its title, description or genre is found only through its other two fields. |
| `Frontend.ParseInt` | frontend/js/script.js:239-241 | `parseInt` with no radix gives NaN for an empty or all-whitespace text. |
| `Frontend.ParseSigned` | frontend/js/script.js:239-241 | Leading whitespace and one sign are skipped. The result is NaN when the text after them has no magnitude; otherwise it is that magnitude, negated after a minus sign. |
| `Frontend.DecimalMagnitude` | frontend/js/script.js:239-241 | A decimal numeral followed by text that does not continue it reads as the numeral's value. A lone `0` before `x` is excluded, because that is the hexadecimal prefix. |
| `Frontend.ParseNumeral` | frontend/js/script.js:239-241 | Whitespace, an optional sign, a decimal numeral, then text that does not continue it: `parseInt` gives the numeral's value, negated after a minus sign. Examples are `"  -12abc"` and `"+5 min"`. |
| `Frontend.ParseNotANumber` | frontend/js/script.js:239-241 | Whitespace and at most one sign, then a non-digit or nothing: `parseInt` gives NaN. Examples are `"+-5"`, `"abc"` and `""`. |
| `Frontend.ParseDecimal` | frontend/js/script.js:239 | A number typed in decimal is read back as itself. |
| `Frontend.Submit` | frontend/js/script.js:235-251 | The data is sent iff every text field (form value, else the element's value) is non-empty and both numbers parse to a value that is neither NaN nor zero. What is sent is the form as read. Otherwise the page warns "Por favor, preencha todos os campos". |
| `Frontend.SentFormHasRequiredFields` | frontend/js/script.js:247-248 | Whatever the page sends, serialised with NaN as `null`, passes the create handler's missing-fields check. |
| `Frontend.BlankYearNotSent` | frontend/js/script.js:239-251 | A form whose year is blank gets the warning and is not sent. |
| `Frontend.ApiRequest` | frontend/js/script.js:72-76 | A 2xx status resolves to the body. Any other status throws: the body's `error` field when it is present and non-empty, else "Erro na requisição". |
| `Frontend.StoreRejectionShown` | frontend/js/script.js:72-74 | Every validation message of the movie create handler reaches the page verbatim. |
| `Frontend.NotFoundShown` | frontend/js/script.js:72-74 | A 404 from the movie lookup reaches the page as "Filme não encontrado". |

## Left out

- The `catch` branches of every handler (500, and 400 on create), which answer database or ORM failures. That includes the foreign-key failure when a session names a movie that does not exist. The in-memory tables cannot fail.
- `Movies.MovieController.Destroy`: deleting a movie that sessions still reference fails on the non-null `sessions.movieId` foreign key (backend/src/models/Session.js:12-19), and the handler answers 500 through its `catch` branch. The model keeps the movie table apart from the sessions table, so it answers 200 and removes the row in that case.
- Concurrency: each handler is one atomic step; interleaving of awaiting requests is not modelled.
- HTTP routing, server start-up, database connection and schema set-up (`app.js`, `server.js`, `database/`, `setup.js`, `routes/`). The movie routers never register `destroy`, so delete is not reachable over HTTP as the routes are written; the model keeps the handler.
- The order of rows with equal year, or equal (date, time): the ORM does not fix it. The model sorts stably in key order but states only sortedness and exactly which rows appear.
- `Movies.Index`: only single-valued queries are modelled. A query value is read as an `Option`, and an empty or absent value means no filter. A repeated key (`?genre=A&genre=B`) reaches the handler as an array, which then filters on several genres; that case is not modelled.
- `Sessions.Index`: as above for `movieId` and `date`. Dates are day numbers and times are seconds since midnight, so both compare as integers.
- `Sessions.Seeded`: `price` is a fixed-point decimal column, modelled as whole cents.
- `Movies.Validate`: request bodies are typed. Text fields are strings and `year`/`duration` are integers, so a falsy value is absent, `null`, `""` or `0`. JSON booleans, numbers sent as strings and other mixed types are not modelled.
- `Sessions.SessionController.Store`: a body missing `movieId`, `sessionDate`, `sessionTime` or `price` is not modelled. Those columns are non-null (backend/src/models/Session.js:12-39), so the insert fails and the handler answers 400 through its `catch` branch. A missing `roomId` is modelled: it answers 404.
- Timestamps and the `active` column of movies. The controller neither writes nor reads them.
- Room administration: rooms are a read-only table given to the session handler.
- The session replies are bare JSON rather than the movie handler's `success` envelope. Both are modelled with the same `Reply` type; only the status, the message and the data matter here.
- `Frontend.ToLower`: lowercases ASCII letters only; Unicode case mapping is not modelled.
- `Frontend.ParseInt`: numbers are unbounded integers. JavaScript's floating-point rounding of very long digit strings is not modelled.
- All DOM work, the modal, notifications, timers and `fetch` in the page script. `apiRequest` is modelled from the point where the status and the parsed body are known.
- Movie and session ids in the URL are taken as integers; parsing of the path parameter is not modelled.
