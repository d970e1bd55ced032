/** The reservation store behind the serializers: rooms, employees and
    reservations keyed by primary key, with the operations the API runs on
    them (validated create, non-partial update, add attendee) and the delete rules
    of the reservation's foreign keys. */
module ReservationBook {
  import opened Wrappers
  import opened Models
  import opened Serializers

  /** The foreign keys of `r` name stored rows. */
  ghost predicate Linked(r: Reservation, rooms: set<nat>, employees: set<nat>) {
    && r.room in rooms
    && (r.host.Some? ==> r.host.value in employees)
    && r.attendees <= employees
  }

  /** Every reservation's attendees fit its room: none at all, or no more
      than the capacity. */
  ghost predicate AllFit(reservations: map<nat, Reservation>, rooms: map<nat, Room>) {
    forall k :: k in reservations && reservations[k].room in rooms ==>
      AttendeesFit(|reservations[k].attendees|, rooms[reservations[k].room].capacity)
  }

  /** Cascading a room's deletion keeps the store free of collisions. */
  lemma CascadeKeepsNoCollisions(reservations: map<nat, Reservation>, room: nat)
    requires NoCollisions(reservations)
    ensures NoCollisions(CascadeDeleteRoom(reservations, room))
  {
  }

  /** Detaching a deleted employee moves no interval, so the store stays free
      of collisions. */
  lemma DetachKeepsNoCollisions(reservations: map<nat, Reservation>, employee: nat)
    requires NoCollisions(reservations)
    ensures NoCollisions(DetachEmployee(reservations, employee))
  {
    var after := DetachEmployee(reservations, employee);
    assert forall k :: k in after ==>
      AttrsOf(after[k]).(host := HostNull) == AttrsOf(reservations[k]).(host := HostNull);
  }

  /** Detaching a deleted employee only shrinks attendee sets, so attendees
      keep fitting their rooms. */
  lemma DetachKeepsFit(reservations: map<nat, Reservation>, rooms: map<nat, Room>, employee: nat)
    requires AllFit(reservations, rooms)
    ensures AllFit(DetachEmployee(reservations, employee), rooms)
  {
    var after := DetachEmployee(reservations, employee);
    forall k | k in after && after[k].room in rooms
      ensures AttendeesFit(|after[k].attendees|, rooms[after[k].room].capacity)
    {
      assert after[k].attendees <= reservations[k].attendees;
    }
  }

  /** After detaching an employee, no reservation refers to them any more:
      the foreign keys resolve against the remaining employees. */
  lemma DetachKeepsLinked(reservations: map<nat, Reservation>, rooms: set<nat>, employees: set<nat>, employee: nat)
    requires forall k :: k in reservations ==> Linked(reservations[k], rooms, employees)
    ensures forall k :: k in reservations ==>
      Linked(DetachEmployee(reservations, employee)[k], rooms, employees - {employee})
  {
  }

  class Book {
    var rooms: map<nat, Room>
    var employees: map<nat, Employee>
    var reservations: map<nat, Reservation>
    var nextRoom: nat
    var nextEmployee: nat
    var nextReservation: nat

    /** Keys are below the next key to hand out, foreign keys are resolved,
        and no two reservations collide. */
    ghost predicate Valid()
      reads this
    {
      && (forall k :: k in rooms ==> k < nextRoom)
      && (forall k :: k in employees ==> k < nextEmployee)
      && (forall k :: k in reservations ==> k < nextReservation && Linked(reservations[k], rooms.Keys, employees.Keys))
      && NoCollisions(reservations)
    }

    /** Every reservation's attendees fit its room. */
    ghost predicate WithinCapacity()
      reads this
    {
      AllFit(reservations, rooms)
    }

    constructor ()
      ensures Valid() && WithinCapacity()
      ensures rooms == map[] && employees == map[] && reservations == map[]
    {
      rooms, employees, reservations := map[], map[], map[];
      nextRoom, nextEmployee, nextReservation := 1, 1, 1;
    }

    /** Inserts a room under a fresh key (the framework's plain create). */
    method AddRoom(room: Room) returns (pk: nat)
      requires Valid()
      modifies this
      ensures Valid()
      ensures old(WithinCapacity()) ==> WithinCapacity()
      ensures pk !in old(rooms) && rooms == old(rooms)[pk := room]
      ensures employees == old(employees) && reservations == old(reservations)
    {
      pk := nextRoom;
      rooms := rooms[pk := room];
      nextRoom := nextRoom + 1;
    }

    /** Inserts an employee row under a fresh key, without any check: the
        employee endpoint's own rule is `ValidateEmployee`, which is a
        function of the payload and is not applied here. */
    method AddEmployee(employee: Employee) returns (pk: nat)
      requires Valid()
      modifies this
      ensures Valid()
      ensures old(WithinCapacity()) ==> WithinCapacity()
      ensures pk !in old(employees) && employees == old(employees)[pk := employee]
      ensures rooms == old(rooms) && reservations == old(reservations)
    {
      pk := nextEmployee;
      employees := employees[pk := employee];
      nextEmployee := nextEmployee + 1;
    }

    /** POST of a reservation: the related keys are resolved, the collision
        check runs against every stored reservation, and an accepted payload
        is inserted under a fresh key with the creator address stamped. */
    method Create(attrs: ReservationAttrs, request: Option<RequestMeta>) returns (result: Result<nat, Error>)
      requires Valid()
      modifies this
      ensures Valid()
      ensures old(WithinCapacity()) ==> WithinCapacity()
      ensures rooms == old(rooms) && employees == old(employees)
      ensures !RelatedKeysExist(old(rooms).Keys, old(employees).Keys, attrs) ==>
        result == Err(InvalidPk) && reservations == old(reservations)
      ensures RelatedKeysExist(old(rooms).Keys, old(employees).Keys, attrs) && ValidateReservation(old(reservations), attrs).Err? ==>
        result == Err(RoomAlreadyBooked) && reservations == old(reservations)
      ensures RelatedKeysExist(old(rooms).Keys, old(employees).Keys, attrs) && ValidateReservation(old(reservations), attrs).Ok? ==>
        && result.Ok? && result.value !in old(reservations)
        && reservations == old(reservations)[result.value := NewReservation(attrs, CreatorIp(request))]
    {
      if !RelatedKeysExist(rooms.Keys, employees.Keys, attrs) {
        return Err(InvalidPk);
      }
      var verdict := ValidateReservation(reservations, attrs);
      if verdict.Err? {
        return Err(verdict.error);
      }
      var pk := nextReservation;
      AcceptedCreateKeepsNoCollisions(reservations, pk, attrs, CreatorIp(request));
      reservations := reservations[pk := NewReservation(attrs, CreatorIp(request))];
      nextReservation := nextReservation + 1;
      result := Ok(pk);
    }

    /** PUT of a reservation: the same checks as create, with the reservation
        being edited still among those checked against; an accepted payload
        sets room and interval, and the host when the payload carries one. */
    method Update(pk: nat, attrs: ReservationAttrs) returns (result: Result<(), Error>)
      requires Valid()
      modifies this
      ensures Valid()
      ensures rooms == old(rooms) && employees == old(employees)
      ensures pk !in old(reservations) ==> result == Err(NotFound) && reservations == old(reservations)
      ensures pk in old(reservations) && !RelatedKeysExist(old(rooms).Keys, old(employees).Keys, attrs) ==>
        result == Err(InvalidPk) && reservations == old(reservations)
      ensures pk in old(reservations) && RelatedKeysExist(old(rooms).Keys, old(employees).Keys, attrs) ==>
        && (result.Ok? <==> ValidateReservation(old(reservations), attrs).Ok?)
        && (result.Err? ==> result == Err(RoomAlreadyBooked) && reservations == old(reservations))
        && (result.Ok? ==> reservations == old(reservations)[pk := Updated(old(reservations)[pk], attrs)])
    {
      if pk !in reservations {
        return Err(NotFound);
      }
      if !RelatedKeysExist(rooms.Keys, employees.Keys, attrs) {
        return Err(InvalidPk);
      }
      var verdict := ValidateReservation(reservations, attrs);
      if verdict.Err? {
        return Err(verdict.error);
      }
      AcceptedUpdateKeepsNoCollisions(reservations, pk, attrs);
      reservations := reservations[pk := Updated(reservations[pk], attrs)];
      result := Ok(());
    }

    /** PUT add_attendee: the reservation must exist, the employee key must
        name an employee, and the room must not be full; then the employee is
        added to the attendee set and nothing else changes. */
    method AddAttendee(pk: nat, employee: nat) returns (result: Result<(), Error>)
      requires Valid()
      modifies this
      ensures Valid()
      ensures old(WithinCapacity()) ==> WithinCapacity()
      ensures rooms == old(rooms) && employees == old(employees)
      ensures pk !in old(reservations) ==> result == Err(NotFound)
      ensures pk in old(reservations) && employee !in old(employees) ==> result == Err(InvalidPk)
      ensures pk in old(reservations) && employee in old(employees) ==>
        result == ValidateAddAttendee(old(reservations)[pk].attendees, old(rooms)[old(reservations)[pk].room].capacity)
      ensures result.Err? ==> reservations == old(reservations)
      ensures result.Ok? ==>
        && pk in old(reservations)
        && reservations == old(reservations)[pk := old(reservations)[pk].(attendees := WithAttendee(old(reservations)[pk].attendees, employee))]
        && |reservations[pk].attendees| <= rooms[reservations[pk].room].capacity
    {
      if pk !in reservations {
        return Err(NotFound);
      }
      if employee !in employees {
        return Err(InvalidPk);
      }
      var r := reservations[pk];
      result := ValidateAddAttendee(r.attendees, rooms[r.room].capacity);
      if result.Ok? {
        AcceptedAddFits(r.attendees, rooms[r.room].capacity, employee);
        reservations := reservations[pk := r.(attendees := WithAttendee(r.attendees, employee))];
        assert AttrsOf(reservations[pk]) == AttrsOf(r);
      }
    }

    /** DELETE of a room: the room goes, and with it exactly the reservations
        of that room. */
    method DeleteRoom(pk: nat) returns (found: bool)
      requires Valid()
      modifies this
      ensures Valid()
      ensures old(WithinCapacity()) ==> WithinCapacity()
      ensures found == (pk in old(rooms))
      ensures employees == old(employees)
      ensures found ==> rooms == old(rooms) - {pk} && reservations == CascadeDeleteRoom(old(reservations), pk)
      ensures !found ==> rooms == old(rooms) && reservations == old(reservations)
    {
      found := pk in rooms;
      if found {
        CascadeKeepsNoCollisions(reservations, pk);
        rooms := rooms - {pk};
        reservations := CascadeDeleteRoom(reservations, pk);
      }
    }

    /** DELETE of an employee: the employee goes, every reservation stays,
        the ones they hosted lose their host and the ones they attended lose
        them as an attendee. */
    method DeleteEmployee(pk: nat) returns (found: bool)
      requires Valid()
      modifies this
      ensures Valid()
      ensures old(WithinCapacity()) ==> WithinCapacity()
      ensures found == (pk in old(employees))
      ensures rooms == old(rooms)
      ensures found ==> employees == old(employees) - {pk} && reservations == DetachEmployee(old(reservations), pk)
      ensures !found ==> employees == old(employees) && reservations == old(reservations)
    {
      found := pk in employees;
      if found {
        DetachKeepsNoCollisions(reservations, pk);
        DetachKeepsLinked(reservations, rooms.Keys, employees.Keys, pk);
        if WithinCapacity() {
          DetachKeepsFit(reservations, rooms, pk);
        }
        employees := employees - {pk};
        reservations := DetachEmployee(reservations, pk);
      }
    }
  }
}
