/** The query filters of company/filters.py. A queryset is a sequence of
    rows (primary key and fields) in the order the database returns them;
    each filter keeps the rows its predicate selects, in that order. The
    clock is the parameter `now`. A query parameter that is absent (or empty)
    is None and leaves the queryset as it is. */
module Filters {
  import opened Wrappers
  import opened Models
  import Text

  datatype Row<T> = Row(pk: nat, fields: T)

  /** The rows of `rows` that `keep` selects, in their original order. */
  function Select<T(!new)>(rows: seq<T>, keep: T -> bool): (r: seq<T>)
    ensures |r| <= |rows|
    ensures forall x :: x in r <==> x in rows && keep(x)
  {
    if rows == [] then []
    else if keep(rows[0]) then [rows[0]] + Select(rows[1..], keep)
    else Select(rows[1..], keep)
  }

  /** Selection distributes over concatenation, so it keeps relative order. */
  lemma {:induction false} SelectAppend<T(!new)>(a: seq<T>, b: seq<T>, keep: T -> bool)
    ensures Select(a + b, keep) == Select(a, keep) + Select(b, keep)
  {
    if a == [] {
      assert a + b == b;
    } else {
      assert (a + b)[1..] == a[1..] + b;
      SelectAppend(a[1..], b, keep);
    }
  }

  /** Predicates that agree on the rows select the same rows. */
  lemma {:induction false} SelectAgree<T(!new)>(rows: seq<T>, p: T -> bool, q: T -> bool)
    requires forall x :: x in rows ==> p(x) == q(x)
    ensures Select(rows, p) == Select(rows, q)
  {
    if rows != [] {
      assert forall x :: x in rows[1..] ==> x in rows;
      SelectAgree(rows[1..], p, q);
    }
  }

  /** Two selections with complementary predicates split the rows between them. */
  lemma {:induction false} SelectComplement<T(!new)>(rows: seq<T>, keep: T -> bool, drop: T -> bool)
    requires forall x :: x in rows ==> drop(x) == !keep(x)
    ensures |Select(rows, keep)| + |Select(rows, drop)| == |rows|
  {
    if rows != [] {
      assert forall x :: x in rows[1..] ==> x in rows;
      SelectComplement(rows[1..], keep, drop);
    }
  }

  // ---------------------------------------------------------------------
  // RoomFilter

  /** `min_capacity`: a `capacity >= v` lookup. */
  function MinCapacity(rooms: seq<Row<Room>>, v: Option<int>): (r: seq<Row<Room>>)
    ensures v.None? ==> r == rooms
    ensures forall x :: x in r <==> x in rooms && (v.Some? ==> x.fields.capacity >= v.value)
  {
    match v
    case None => rooms
    case Some(m) => Select(rooms, (x: Row<Room>) => x.fields.capacity >= m)
  }

  /** A room is reserved now when one of its reservations has started and not
      yet ended: the half-open `reserved_from <= now < reserved_to`. */
  predicate ReservedNow(room: Row<Room>, reservations: seq<Row<Reservation>>, now: int) {
    exists x :: x in reservations && x.fields.room == room.pk && x.fields.reservedFrom <= now < x.fields.reservedTo
  }

  /** `filter_reserved`: True keeps the reserved rooms, None keeps all,
      False drops every room whose key is among the reserved rooms' keys. */
  function FilterReserved(rooms: seq<Row<Room>>, reservations: seq<Row<Reservation>>, now: int, value: Option<bool>): (r: seq<Row<Room>>)
    ensures value == None ==> r == rooms
    ensures value == Some(true) ==> forall x :: x in r <==> x in rooms && ReservedNow(x, reservations, now)
    ensures value == Some(false) ==> forall x :: x in r <==> x in rooms && !ReservedNow(x, reservations, now)
  {
    var reserved := Select(rooms, (x: Row<Room>) => ReservedNow(x, reservations, now));
    match value
    case Some(true) => reserved
    case None => rooms
    case Some(false) =>
      var excluded := (x: Row<Room>) => exists y :: y in reserved && y.pk == x.pk;
      assert forall x :: x in rooms ==> (excluded(x) <==> ReservedNow(x, reservations, now)) by {
        forall x ensures excluded(x) ==> ReservedNow(x, reservations, now) {
          if excluded(x) {
            var y :| y in reserved && y.pk == x.pk;
            assert ReservedNow(y, reservations, now);
          }
        }
      }
      Select(rooms, (x: Row<Room>) => !excluded(x))
  }

  /** The True and False results split the input between them: every room is
      in exactly one, and together they hold as many rows as the input. */
  lemma ReservedPartition(rooms: seq<Row<Room>>, reservations: seq<Row<Reservation>>, now: int)
    ensures forall x :: x in rooms <==>
      (x in FilterReserved(rooms, reservations, now, Some(true))) != (x in FilterReserved(rooms, reservations, now, Some(false)))
    ensures forall x :: x in FilterReserved(rooms, reservations, now, Some(true)) ==> x in rooms
    ensures forall x :: x in FilterReserved(rooms, reservations, now, Some(false)) ==> x in rooms
    ensures |FilterReserved(rooms, reservations, now, Some(true))| + |FilterReserved(rooms, reservations, now, Some(false))| == |rooms|
  {
    var reserved := Select(rooms, (x: Row<Room>) => ReservedNow(x, reservations, now));
    var excluded := (x: Row<Room>) => exists y :: y in reserved && y.pk == x.pk;
    forall x ensures excluded(x) ==> ReservedNow(x, reservations, now) {
      if excluded(x) {
        var y :| y in reserved && y.pk == x.pk;
        assert ReservedNow(y, reservations, now);
      }
    }
    assert FilterReserved(rooms, reservations, now, Some(false)) == Select(rooms, (x: Row<Room>) => !excluded(x));
    SelectComplement(rooms, (x: Row<Room>) => ReservedNow(x, reservations, now), (x: Row<Room>) => !excluded(x));
  }

  /** The window is half-open: a reservation [f, t) with f < t makes its room
      reserved at f and at t - 1, not at t, and not before f. */
  lemma ReservedNowHalfOpen(room: Row<Room>, r: Reservation)
    requires r.room == room.pk && r.reservedFrom < r.reservedTo
    ensures ReservedNow(room, [Row(0, r)], r.reservedFrom)
    ensures ReservedNow(room, [Row(0, r)], r.reservedTo - 1)
    ensures !ReservedNow(room, [Row(0, r)], r.reservedTo)
    ensures !ReservedNow(room, [Row(0, r)], r.reservedFrom - 1)
  {
    assert Row(0, r) in [Row(0, r)];
  }

  /** Query parameters of the room list, applied in declaration order. */
  function RoomFilterSet(rooms: seq<Row<Room>>, reservations: seq<Row<Reservation>>, now: int,
                         minCapacity: Option<int>, isReserved: Option<bool>): (r: seq<Row<Room>>)
    ensures forall x :: x in r <==>
      && x in rooms
      && (minCapacity.Some? ==> x.fields.capacity >= minCapacity.value)
      && (isReserved.Some? ==> ReservedNow(x, reservations, now) == isReserved.value)
  {
    FilterReserved(MinCapacity(rooms, minCapacity), reservations, now, isReserved)
  }

  // ---------------------------------------------------------------------
  // EmployeeFilter

  /** `filter_name`: the first or the last name contains the value, ignoring case. */
  function FilterName(employees: seq<Row<Employee>>, value: Option<string>): (r: seq<Row<Employee>>)
    ensures value.None? ==> r == employees
    ensures forall x :: x in r <==>
      (x in employees &&
       (value.Some? ==> Text.IContains(x.fields.firstName, value.value) || Text.IContains(x.fields.lastName, value.value)))
  {
    match value
    case None => employees
    case Some(v) => Select(employees, (x: Row<Employee>) => Text.IContains(x.fields.firstName, v) || Text.IContains(x.fields.lastName, v))
  }

  /** The case of the searched value does not matter. */
  lemma FilterNameIgnoresCase(employees: seq<Row<Employee>>, v: string)
    ensures FilterName(employees, Some(v)) == FilterName(employees, Some(Text.Lower(v)))
  {
    Text.LowerIdempotent(v);
    forall x: Row<Employee>
      ensures (Text.IContains(x.fields.firstName, v) || Text.IContains(x.fields.lastName, v))
          == (Text.IContains(x.fields.firstName, Text.Lower(v)) || Text.IContains(x.fields.lastName, Text.Lower(v)))
    {
      Text.IContainsIgnoresNeedleCase(x.fields.firstName, v);
      Text.IContainsIgnoresNeedleCase(x.fields.lastName, v);
    }
    SelectAgree(employees,
      (x: Row<Employee>) => Text.IContains(x.fields.firstName, v) || Text.IContains(x.fields.lastName, v),
      (x: Row<Employee>) => Text.IContains(x.fields.firstName, Text.Lower(v)) || Text.IContains(x.fields.lastName, Text.Lower(v)));
  }

  /** An employee whose first or last name contains the value exactly is kept. */
  lemma FilterNameKeepsExactMatches(employees: seq<Row<Employee>>, v: string, x: Row<Employee>)
    requires x in employees
    requires Text.Contains(x.fields.firstName, v) || Text.Contains(x.fields.lastName, v)
    ensures x in FilterName(employees, Some(v))
  {
    if Text.Contains(x.fields.firstName, v) {
      Text.ContainsImpliesIContains(x.fields.firstName, v);
    } else {
      Text.ContainsImpliesIContains(x.fields.lastName, v);
    }
  }

  /** `max_experience`: an `experience <= v` lookup. */
  function MaxExperience(employees: seq<Row<Employee>>, v: Option<int>): (r: seq<Row<Employee>>)
    ensures v.None? ==> r == employees
    ensures forall x :: x in r <==> x in employees && (v.Some? ==> x.fields.experience <= v.value)
  {
    match v
    case None => employees
    case Some(m) => Select(employees, (x: Row<Employee>) => x.fields.experience <= m)
  }

  // ---------------------------------------------------------------------
  // ReservationFilter

  /** `room_id`: a `room__id = r` lookup. */
  function RoomId(reservations: seq<Row<Reservation>>, v: Option<int>): (r: seq<Row<Reservation>>)
    ensures v.None? ==> r == reservations
    ensures forall x :: x in r <==> x in reservations && (v.Some? ==> x.fields.room == v.value)
  {
    match v
    case None => reservations
    case Some(room) => Select(reservations, (x: Row<Reservation>) => x.fields.room == room)
  }
}
