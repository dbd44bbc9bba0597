/**
 * The session resource handler: listing of active sessions with optional
 * movie and date filters, lookup by id, and creation, which seeds a
 * session's free seats from its room's capacity.  Dates are day numbers
 * and times are seconds since midnight, so both compare as integers; the
 * price is a whole number of cents.
 */
module Sessions {
  import opened Http
  import Query
  import Movies

  datatype RoomType = TwoD | ThreeD | Imax | Vip

  /** A row of the rooms table; the session handler only reads it. */
  datatype Room = Room(id: int, name: string, capacity: int, kind: RoomType, active: bool)

  /** A row of the sessions table. */
  datatype Session = Session(
    id: int,
    movieId: int,
    roomId: int,
    sessionDate: int,
    sessionTime: int,
    price: int,
    availableSeats: int,
    active: bool)

  /**
   * The five fields the create handler reads from the request body.  The
   * room id may be absent: the room lookup then finds nothing.
   */
  datatype SessionPayload = SessionPayload(
    movieId: int,
    roomId: Option<int>,
    sessionDate: int,
    sessionTime: int,
    price: int)

  /** A session as the read handlers answer it: with its movie and room joined in. */
  datatype SessionView = SessionView(session: Session, movie: Option<Movies.Movie>, room: Option<Room>)

  const SessionNotFound := "Sessão não encontrada"
  const RoomNotFound := "Sala não encontrada"

  /** A row's primary key. */
  function SessionId(s: Session): int {
    s.id
  }

  /** Lookup by primary key; None when there is no such row. */
  function Lookup<T>(table: map<int, T>, id: int): (r: Option<T>)
    ensures r.Some? <==> id in table
    ensures r.Some? ==> r.value == table[id]
  {
    if id in table then Some(table[id]) else None
  }

  /** The eager load of a session's movie and room (an outer join: either may be missing). */
  function Joined(s: Session, movies: map<int, Movies.Movie>, rooms: map<int, Room>): SessionView {
    SessionView(s, Lookup(movies, s.movieId), Lookup(rooms, s.roomId))
  }

  /** Each session with its movie and room, in the given order. */
  function JoinAll(ss: seq<Session>, movies: map<int, Movies.Movie>, rooms: map<int, Room>): (vs: seq<SessionView>)
    ensures |vs| == |ss|
    ensures forall i :: 0 <= i < |ss| ==> vs[i] == Joined(ss[i], movies, rooms)
  {
    seq(|ss|, i requires 0 <= i < |ss| => Joined(ss[i], movies, rooms))
  }

  /**
   * The listing's `where` object: always `active`, plus `movieId` and
   * `sessionDate` when those query values are given.
   */
  predicate Listed(movieId: Option<int>, date: Option<int>, s: Session) {
    && s.active
    && (movieId.None? || s.movieId == movieId.value)
    && (date.None? || s.sessionDate == date.value)
  }

  ghost predicate Chronological(vs: seq<SessionView>) {
    forall i, j :: 0 <= i < j < |vs| ==>
      || vs[i].session.sessionDate < vs[j].session.sessionDate
      || (vs[i].session.sessionDate == vs[j].session.sessionDate
          && vs[i].session.sessionTime <= vs[j].session.sessionTime)
  }

  /**
   * GET /api/sessions: the active sessions that match the filters, each
   * once, earliest date first and earliest time first within a date, each
   * with its movie and room.
   */
  function Index(sessions: map<int, Session>, movies: map<int, Movies.Movie>, rooms: map<int, Room>,
                 movieId: Option<int>, date: Option<int>): (r: Reply<seq<SessionView>>)
    requires Query.KeyedBy(sessions, SessionId)
    ensures r.Ok? && r.status == 200 && r.message == None && r.data.Some?
    ensures r.Ok? && r.data.Some? ==> Chronological(r.data.value)
    ensures r.Ok? && r.data.Some? ==>
      forall v :: v in r.data.value ==>
        && v.session.id in sessions && sessions[v.session.id] == v.session
        && Listed(movieId, date, v.session)
        && v.movie == Lookup(movies, v.session.movieId)
        && v.room == Lookup(rooms, v.session.roomId)
    ensures r.Ok? && r.data.Some? ==>
      forall id :: id in sessions && Listed(movieId, date, sessions[id]) ==>
        exists v :: v in r.data.value && v.session == sessions[id]
    ensures r.Ok? && r.data.Some? ==> Query.Distinct(r.data.value)
  {
    var rows := Query.Rows(sessions, SessionId);
    var matching := Query.Where(rows, (s: Session) => Listed(movieId, date, s));
    var ordered := Query.OrderBy(matching, (s: Session) => (s.sessionDate, s.sessionTime));
    var views := JoinAll(ordered, movies, rooms);
    ListingFacts(sessions, movies, rooms, movieId, date, rows, matching, ordered, views);
    Ok(200, None, Some(views))
  }

  lemma ListingFacts(sessions: map<int, Session>, movies: map<int, Movies.Movie>, rooms: map<int, Room>,
                     movieId: Option<int>, date: Option<int>,
                     rows: seq<Session>, matching: seq<Session>, ordered: seq<Session>,
                     views: seq<SessionView>)
    requires Query.KeyedBy(sessions, SessionId)
    requires forall k :: k in sessions ==> sessions[k] in rows
    requires forall x :: x in rows ==> x.id in sessions && sessions[x.id] == x
    requires forall i, j :: 0 <= i < j < |rows| ==> rows[i].id < rows[j].id
    requires Query.IsSubsequence(matching, rows)
    requires forall x :: x in matching <==> x in rows && Listed(movieId, date, x)
    requires Query.SortedBy(ordered, (s: Session) => (s.sessionDate, s.sessionTime))
    requires multiset(ordered) == multiset(matching)
    requires |views| == |ordered|
    requires forall i :: 0 <= i < |views| ==> views[i] == Joined(ordered[i], movies, rooms)
    ensures Chronological(views)
    ensures forall v :: v in views ==>
        && v.session.id in sessions && sessions[v.session.id] == v.session
        && Listed(movieId, date, v.session)
        && v.movie == Lookup(movies, v.session.movieId)
        && v.room == Lookup(rooms, v.session.roomId)
    ensures forall id :: id in sessions && Listed(movieId, date, sessions[id]) ==>
        exists v :: v in views && v.session == sessions[id]
    ensures Query.Distinct(views)
  {
    Query.AscendingIsDistinct(rows, SessionId);
    Query.SubsequenceKeepsDistinct(matching, rows);
    Query.PermutationKeepsDistinct(ordered, matching);
    forall i, j | 0 <= i < j < |views| ensures views[i] != views[j] {
      assert ordered[i] != ordered[j];
    }
    forall v | v in views
      ensures && v.session.id in sessions && sessions[v.session.id] == v.session
              && Listed(movieId, date, v.session)
              && v.movie == Lookup(movies, v.session.movieId)
              && v.room == Lookup(rooms, v.session.roomId)
    {
      var i :| 0 <= i < |views| && views[i] == v;
      assert ordered[i] in multiset(ordered);
      assert ordered[i] in matching;
    }
    forall id | id in sessions && Listed(movieId, date, sessions[id])
      ensures exists v :: v in views && v.session == sessions[id]
    {
      assert sessions[id] in matching;
      assert sessions[id] in multiset(ordered);
      var i :| 0 <= i < |ordered| && ordered[i] == sessions[id];
      assert views[i] in views && views[i].session == sessions[id];
    }
  }

  /** GET /api/sessions/:id: the stored session with its movie and room, or 404. */
  function Show(sessions: map<int, Session>, movies: map<int, Movies.Movie>, rooms: map<int, Room>,
                id: int): (r: Reply<SessionView>)
    ensures r.status == 404 <==> id !in sessions
    ensures r.Ok? <==> id in sessions
    ensures r.Ok? ==> r.status == 200 && r.data.Some? && r.data.value.session == sessions[id]
    ensures r.Ok? && r.data.Some? ==>
      r.data.value.room == Lookup(rooms, sessions[id].roomId)
      && r.data.value.movie == Lookup(movies, sessions[id].movieId)
    ensures r.Error? ==> r.error == SessionNotFound
  {
    if id in sessions then Ok(200, None, Some(Joined(sessions[id], movies, rooms)))
    else Error(404, SessionNotFound)
  }

  /** The request fields a stored session was created from. */
  function RequestOf(s: Session): SessionPayload {
    SessionPayload(s.movieId, Some(s.roomId), s.sessionDate, s.sessionTime, s.price)
  }

  /**
   * The row the create handler inserts: the request fields as sent, the
   * room's capacity as free seats, active by default.
   */
  function Seeded(id: int, p: SessionPayload, room: Room): (s: Session)
    requires p.roomId.Some?
    ensures s.id == id
    ensures RequestOf(s) == p
    ensures s.availableSeats == room.capacity
    ensures s.active
  {
    Session(id, p.movieId, p.roomId.value, p.sessionDate, p.sessionTime, p.price, room.capacity, true)
  }

  /**
   * The session handler together with the sessions table it persists to
   * and the rooms table it reads.  No code path changes a room or lowers
   * a session's free seats.
   */
  class SessionController {
    var sessions: map<int, Session>
    var nextId: int
    const rooms: map<int, Room>

    /**
     * Every session sits under its own id below the counter, refers to an
     * existing room, and has no more free seats than that room holds.
     */
    ghost predicate Valid()
      reads this
    {
      && 1 <= nextId
      && Query.KeyedBy(sessions, SessionId)
      && forall id :: id in sessions ==>
           && 1 <= id < nextId
           && sessions[id].roomId in rooms
           && sessions[id].availableSeats <= rooms[sessions[id].roomId].capacity
    }

    constructor (rooms: map<int, Room>)
      ensures Valid()
      ensures this.rooms == rooms && sessions == map[] && nextId == 1
    {
      this.rooms := rooms;
      sessions := map[];
      nextId := 1;
    }

    /**
     * POST /api/sessions: 404 and no change when the room id is absent or
     * names no room; otherwise 201 with one new session under a fresh id,
     * seeded from the room.  The movie id is stored without being looked up.
     */
    method Store(p: SessionPayload) returns (r: Reply<Session>)
      requires Valid()
      modifies this
      ensures Valid()
      ensures p.roomId.None? || p.roomId.value !in rooms ==>
        && r == Error(404, RoomNotFound)
        && sessions == old(sessions) && nextId == old(nextId)
      ensures p.roomId.Some? && p.roomId.value in rooms ==>
        && old(nextId) !in old(sessions)
        && sessions == old(sessions)[old(nextId) := Seeded(old(nextId), p, rooms[p.roomId.value])]
        && nextId == old(nextId) + 1
        && r == Ok(201, None, Some(Seeded(old(nextId), p, rooms[p.roomId.value])))
      ensures p.roomId.Some? && p.roomId.value in rooms ==>
        && |sessions| == |old(sessions)| + 1
        && forall id :: id in old(sessions) ==> id in sessions && sessions[id] == old(sessions)[id]
    {
      var room := if p.roomId.Some? then Lookup(rooms, p.roomId.value) else None;
      if room.None? {
        r := Error(404, RoomNotFound);
        return;
      }
      var session := Seeded(nextId, p, room.value);
      sessions := sessions[nextId := session];
      nextId := nextId + 1;
      r := Ok(201, None, Some(session));
    }
  }

  /** A lookup right after a successful create shows the request fields and the room's capacity. */
  lemma ShowAfterStore(sessions: map<int, Session>, movies: map<int, Movies.Movie>,
                       rooms: map<int, Room>, id: int, p: SessionPayload)
    requires p.roomId.Some? && p.roomId.value in rooms
    ensures var r := Show(sessions[id := Seeded(id, p, rooms[p.roomId.value])], movies, rooms, id);
      && r.Ok? && r.data.Some?
      && RequestOf(r.data.value.session) == p
      && r.data.value.session.availableSeats == rooms[p.roomId.value].capacity
      && r.data.value.room == Some(rooms[p.roomId.value])
  {
  }
}
