/**
 * The movie resource handler: listing with an optional genre filter, lookup
 * by id, deletion by id, and creation with field validation.  The movies
 * table is a map from primary key to row; the handler object owns it and
 * the auto-increment counter that hands out new keys.
 */
module Movies {
  import opened Http
  import Query

  /** A row of the movies table, with the columns the handler writes. */
  datatype Movie = Movie(
    id: int,
    title: string,
    description: string,
    year: int,
    genre: string,
    duration: int,
    ageRating: string,
    poster: string)

  /**
   * The seven fields the create handler reads from the request body; `None`
   * is a field that is absent or `null`.
   */
  datatype MoviePayload = MoviePayload(
    title: Option<string>,
    description: Option<string>,
    year: Option<int>,
    genre: Option<string>,
    duration: Option<int>,
    ageRating: Option<string>,
    poster: Option<string>)

  /** The body of a successful listing: the count and the rows. */
  datatype Listing = Listing(total: int, movies: seq<Movie>)

  /** The age ratings the create handler accepts. */
  const ValidRatings: set<string> := {"L", "10", "12", "14", "16", "18"}

  const MissingFieldsError := "Campos obrigatórios: title, description, year, genre, duration, ageRating, poster"
  const RatingError := "ageRating deve ser: L, 10, 12, 14, 16 ou 18"
  const NotFoundError := "Filme não encontrado"
  const CreatedMessage := "Filme criado com sucesso"
  const DeletedMessage := "Filme deletado com sucesso"

  /** JavaScript truthiness of a text field: present and not empty. */
  predicate TextGiven(v: Option<string>) {
    v.Some? && v.value != ""
  }

  /** JavaScript truthiness of a numeric field: present and not zero. */
  predicate NumberGiven(v: Option<int>) {
    v.Some? && v.value != 0
  }

  /** None of the seven required fields is missing or falsy. */
  predicate HasRequiredFields(p: MoviePayload) {
    && TextGiven(p.title)
    && TextGiven(p.description)
    && NumberGiven(p.year)
    && TextGiven(p.genre)
    && NumberGiven(p.duration)
    && TextGiven(p.ageRating)
    && TextGiven(p.poster)
  }

  /** A row's primary key. */
  function MovieId(m: Movie): int {
    m.id
  }

  /** A row that passed the create handler's validation. */
  ghost predicate WellFormed(m: Movie) {
    && m.title != "" && m.description != "" && m.year != 0 && m.genre != ""
    && m.duration != 0 && m.poster != ""
    && m.ageRating in ValidRatings
  }

  /**
   * The create handler's validation: the error message it answers 400 with,
   * or None when the payload is accepted.  The missing-field check comes
   * first, so a payload failing both checks gets the missing-field message.
   */
  function Validate(p: MoviePayload): (err: Option<string>)
    ensures err.None? <==> HasRequiredFields(p) && p.ageRating.value in ValidRatings
    ensures !HasRequiredFields(p) ==> err == Some(MissingFieldsError)
    ensures HasRequiredFields(p) && p.ageRating.value !in ValidRatings ==> err == Some(RatingError)
  {
    if !HasRequiredFields(p) then Some(MissingFieldsError)
    else if p.ageRating.value !in ValidRatings then Some(RatingError)
    else None
  }

  /** The request fields a stored row was created from. */
  function PayloadOf(m: Movie): MoviePayload {
    MoviePayload(Some(m.title), Some(m.description), Some(m.year), Some(m.genre),
                 Some(m.duration), Some(m.ageRating), Some(m.poster))
  }

  /** The row the create handler inserts for an accepted payload. */
  function Created(id: int, p: MoviePayload): (m: Movie)
    requires Validate(p).None?
    ensures m.id == id
    ensures PayloadOf(m) == p
    ensures WellFormed(m)
  {
    Movie(id, p.title.value, p.description.value, p.year.value, p.genre.value,
          p.duration.value, p.ageRating.value, p.poster.value)
  }

  /** The listing's `where` object: a genre filter is set only by a non-empty query value. */
  predicate GenreMatches(genre: Option<string>, m: Movie) {
    genre.None? || genre.value == "" || m.genre == genre.value
  }

  ghost predicate YearDescending(ms: seq<Movie>) {
    forall i, j :: 0 <= i < j < |ms| ==> ms[i].year >= ms[j].year
  }

  /**
   * GET /api/movies: every row whose genre equals the filter (every row
   * when there is none), newest year first, each row once, with the count.
   */
  function Index(table: map<int, Movie>, genre: Option<string>): (r: Reply<Listing>)
    requires Query.KeyedBy(table, MovieId)
    ensures r.Ok? && r.status == 200 && r.message == None && r.data.Some?
    ensures r.Ok? && r.data.Some? ==> r.data.value.total == |r.data.value.movies|
    ensures r.Ok? && r.data.Some? ==> YearDescending(r.data.value.movies)
    ensures r.Ok? && r.data.Some? ==>
      forall m :: m in r.data.value.movies ==> m.id in table && table[m.id] == m && GenreMatches(genre, m)
    ensures r.Ok? && r.data.Some? ==>
      forall id :: id in table && GenreMatches(genre, table[id]) ==> table[id] in r.data.value.movies
    ensures r.Ok? && r.data.Some? ==> Query.Distinct(r.data.value.movies)
  {
    var rows := Query.Rows(table, MovieId);
    var matching := Query.Where(rows, (m: Movie) => GenreMatches(genre, m));
    var ordered := Query.OrderBy(matching, (m: Movie) => (-m.year, 0));
    ListingFacts(table, genre, rows, matching, ordered);
    Ok(200, None, Some(Listing(|ordered|, ordered)))
  }

  lemma ListingFacts(table: map<int, Movie>, genre: Option<string>,
                     rows: seq<Movie>, matching: seq<Movie>, ordered: seq<Movie>)
    requires Query.KeyedBy(table, MovieId)
    requires forall k :: k in table ==> table[k] in rows
    requires forall x :: x in rows ==> x.id in table && table[x.id] == x
    requires forall i, j :: 0 <= i < j < |rows| ==> rows[i].id < rows[j].id
    requires Query.IsSubsequence(matching, rows)
    requires forall x :: x in matching <==> x in rows && GenreMatches(genre, x)
    requires Query.SortedBy(ordered, (m: Movie) => (-m.year, 0))
    requires multiset(ordered) == multiset(matching)
    ensures YearDescending(ordered)
    ensures forall m :: m in ordered ==> m.id in table && table[m.id] == m && GenreMatches(genre, m)
    ensures forall id :: id in table && GenreMatches(genre, table[id]) ==> table[id] in ordered
    ensures Query.Distinct(ordered)
  {
    Query.AscendingIsDistinct(rows, MovieId);
    Query.SubsequenceKeepsDistinct(matching, rows);
    Query.PermutationKeepsDistinct(ordered, matching);
    forall m | m in ordered ensures m.id in table && table[m.id] == m && GenreMatches(genre, m) {
      assert m in multiset(ordered);
      assert m in matching;
    }
    forall id | id in table && GenreMatches(genre, table[id]) ensures table[id] in ordered {
      assert table[id] in matching;
      assert table[id] in multiset(matching);
    }
  }

  /** GET /api/movies/:id: the stored row, or 404 when the id is absent. */
  function Show(table: map<int, Movie>, id: int): (r: Reply<Movie>)
    ensures r.status == 404 <==> id !in table
    ensures r.Ok? <==> id in table
    ensures r.Ok? ==> r.status == 200 && r.data == Some(table[id])
    ensures r.Error? ==> r.error == NotFoundError
  {
    if id in table then Ok(200, None, Some(table[id]))
    else Error(404, NotFoundError)
  }

  /**
   * The movie handler together with the table it persists to.  `nextId` is
   * the table's auto-increment counter: it only grows, so a deleted id is
   * never handed out again.
   */
  class MovieController {
    var table: map<int, Movie>
    var nextId: int

    /** Every row sits under its own id, below the counter, and passed validation. */
    ghost predicate Valid()
      reads this
    {
      && 1 <= nextId
      && Query.KeyedBy(table, MovieId)
      && forall id :: id in table ==> 1 <= id < nextId && WellFormed(table[id])
    }

    /** An empty table, as the schema set-up leaves it. */
    constructor ()
      ensures Valid()
      ensures table == map[] && nextId == 1
    {
      table := map[];
      nextId := 1;
    }

    /**
     * POST /api/movies: 400 with the validation message and no change, or
     * 201 with the one new row, stored under a fresh id; every other row
     * is left as it was.
     */
    method Store(p: MoviePayload) returns (r: Reply<Movie>)
      requires Valid()
      modifies this
      ensures Valid()
      ensures Validate(p).Some? ==>
        && r == Error(400, Validate(p).value)
        && table == old(table) && nextId == old(nextId)
      ensures Validate(p).None? ==>
        && old(nextId) !in old(table)
        && table == old(table)[old(nextId) := Created(old(nextId), p)]
        && nextId == old(nextId) + 1
        && r == Ok(201, Some(CreatedMessage), Some(Created(old(nextId), p)))
      ensures Validate(p).None? ==>
        && |table| == |old(table)| + 1
        && forall id :: id in old(table) ==> id in table && table[id] == old(table)[id]
    {
      var err := Validate(p);
      if err.Some? {
        r := Error(400, err.value);
        return;
      }
      var movie := Created(nextId, p);
      table := table[nextId := movie];
      nextId := nextId + 1;
      r := Ok(201, Some(CreatedMessage), Some(movie));
    }

    /**
     * DELETE /api/movies/:id: 404 and no change when the id is absent;
     * otherwise exactly that row is removed and every other id keeps its row.
     */
    method Destroy(id: int) returns (r: Reply<Movie>)
      requires Valid()
      modifies this
      ensures Valid()
      ensures nextId == old(nextId)
      ensures id !in old(table) ==> r == Error(404, NotFoundError) && table == old(table)
      ensures id in old(table) ==>
        && r == Ok(200, Some(DeletedMessage), None)
        && table == old(table) - {id}
        && |table| == |old(table)| - 1
      ensures forall k :: k != id ==> (k in table <==> k in old(table))
      ensures forall k :: k != id && k in table ==> table[k] == old(table)[k]
    {
      if id !in table {
        r := Error(404, NotFoundError);
        return;
      }
      table := table - {id};
      r := Ok(200, Some(DeletedMessage), None);
    }
  }

  /** A lookup right after a successful create returns the fields that were sent. */
  lemma ShowAfterStore(table: map<int, Movie>, id: int, p: MoviePayload)
    requires Validate(p).None?
    ensures var r := Show(table[id := Created(id, p)], id);
      r.Ok? && r.status == 200 && r.data.Some? && r.data.value.id == id && PayloadOf(r.data.value) == p
  {
  }

  /** A lookup right after a successful delete answers 404. */
  lemma ShowAfterDestroy(table: map<int, Movie>, id: int)
    ensures Show(table - {id}, id) == Error(404, NotFoundError)
  {
  }

  /** A created movie is listed under its own genre and under no filter at all. */
  lemma IndexAfterStore(table: map<int, Movie>, id: int, p: MoviePayload, genre: Option<string>)
    requires Query.KeyedBy(table, MovieId) && id !in table && Validate(p).None?
    requires genre.None? || genre.value == "" || genre == p.genre
    ensures var r := Index(table[id := Created(id, p)], genre);
      r.Ok? && r.data.Some? && Created(id, p) in r.data.value.movies
  {
    var m := Created(id, p);
    assert table[id := m][id] == m;
  }

  /** A year-descending listing of exactly two distinct movies puts the newer one first. */
  lemma NewerFirst(ms: seq<Movie>, older: Movie, newer: Movie)
    requires Query.Distinct(ms) && YearDescending(ms)
    requires older in ms && newer in ms && older.year < newer.year
    requires forall m :: m in ms ==> m == older || m == newer
    ensures ms == [newer, older]
  {
    var k :| 0 <= k < |ms| && ms[k] == older;
    var l :| 0 <= l < |ms| && ms[l] == newer;
    assert l < k;
    forall i | 0 <= i < |ms| ensures (ms[i] == older && i == k) || (ms[i] == newer && i == l) {
      assert ms[i] in ms;
    }
    assert ms[0] in ms;
    assert l == 0;
    assert ms[1] in ms;
    assert k == 1;
    assert ms[|ms| - 1] in ms;
  }

  /**
   * A table holding two movies of one genre, and others of other genres,
   * lists exactly those two under that genre, the newer one first.
   */
  lemma TwoOfGenre(table: map<int, Movie>, genre: string, older: Movie, newer: Movie)
    requires Query.KeyedBy(table, MovieId) && genre != ""
    requires older.id in table && table[older.id] == older && older.genre == genre
    requires newer.id in table && table[newer.id] == newer && newer.genre == genre
    requires older.year < newer.year
    requires forall id :: id in table && id != older.id && id != newer.id ==> table[id].genre != genre
    ensures Index(table, Some(genre)) == Ok(200, None, Some(Listing(2, [newer, older])))
  {
    var r := Index(table, Some(genre));
    var ms := r.data.value.movies;
    assert r == Ok(200, None, Some(Listing(|ms|, ms)));
    forall m | m in ms ensures m == older || m == newer {
      assert m.id in table && table[m.id] == m && GenreMatches(Some(genre), m);
    }
    assert older in ms && newer in ms;
    NewerFirst(ms, older, newer);
  }

  /**
   * Of a 2020 drama, a 2022 drama and a 2021 comedy, the drama listing is
   * the 2022 drama followed by the 2020 one.
   */
  lemma DramaListing(a: Movie, b: Movie, c: Movie)
    requires a == Movie(1, "A", "a", 2020, "Drama", 100, "L", "a.jpg")
    requires b == Movie(2, "B", "b", 2022, "Drama", 110, "12", "b.jpg")
    requires c == Movie(3, "C", "c", 2021, "Comedy", 90, "10", "c.jpg")
    ensures Index(map[1 := a, 2 := b, 3 := c], Some("Drama")) == Ok(200, None, Some(Listing(2, [b, a])))
  {
    var table := map[1 := a, 2 := b, 3 := c];
    assert "Comedy" != "Drama" by { assert "Comedy"[0] != "Drama"[0]; }
    TwoOfGenre(table, "Drama", a, b);
  }
}
