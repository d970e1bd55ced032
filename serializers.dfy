/** The validation rules of company/serializers.py, as pure functions of the
    request payload and the stored rows: the employee payload check, the
    reservation collision check, the creator address choice and the
    add-attendee capacity check. */
module Serializers {
  import opened Wrappers
  import opened Models
  import Text

  /** Why a request is refused. The first four are the serializers' own
      ValidationErrors; InvalidPk is the related-field error for a primary
      key that names no row; NotFound is the 404 of a missing reservation. */
  datatype Error =
    | EmailNotGmail
    | ExperienceExceedsAge
    | RoomAlreadyBooked
    | CapacityReached
    | InvalidPk
    | NotFound

  // ---------------------------------------------------------------------
  // EmployeeSerializer.validate

  /** The validated employee payload: a field is None when the payload does
      not carry it. */
  datatype EmployeeAttrs = EmployeeAttrs(
    firstName: Option<string>,
    lastName: Option<string>,
    email: Option<string>,
    position: Option<string>,
    experience: Option<int>,
    dateOfBirth: Option<int>)

  /** Python truthiness of an optional string: present and non-empty. */
  predicate Truthy(s: Option<string>) {
    s.Some? && s.value != []
  }

  /** A Python value the age rule's walrus can bind: None, an int or a bool. */
  datatype Bound = NoneBound | IntBound(i: int) | BoolBound(b: bool) {
    predicate IsTruthy() {
      match this
      case NoneBound => false
      case IntBound(i) => i != 0
      case BoolBound(b) => b
    }
    /** The number a bound value compares as: True is 1 and False is 0. */
    function AsInt(): int
      requires !NoneBound?
    {
      match this
      case IntBound(i) => i
      case BoolBound(b) => if b then 1 else 0
    }
  }

  /** What `experience := attrs.get("experience") and "date_of_birth" in attrs`
      binds: the walrus takes the whole `and`, so a falsy experience (missing
      or 0) is bound as itself and any other experience is replaced by the
      boolean "a date of birth is present". The bound value is truthy exactly
      when a non-zero experience and a date of birth are both given, and it
      then compares as 1, whatever the experience was. */
  function BindExperience(attrs: EmployeeAttrs): (r: Bound)
    ensures r.IsTruthy() <==> attrs.experience.Some? && attrs.experience.value != 0 && attrs.dateOfBirth.Some?
    ensures r.IsTruthy() ==> r.AsInt() == 1
  {
    match attrs.experience
    case None => NoneBound
    case Some(x) => if x == 0 then IntBound(0) else BoolBound(attrs.dateOfBirth.Some?)
  }

  /** The email rule rejects a present, non-empty email without "@gmail" at any position. */
  ghost predicate EmailRejected(attrs: EmployeeAttrs) {
    Truthy(attrs.email) && !exists i :: Text.OccursAt("@gmail", attrs.email.value, i)
  }

  /** The left-to-right scan the code runs decides the email rule. */
  lemma EmailScan(attrs: EmployeeAttrs)
    ensures (Truthy(attrs.email) && !Text.Contains(attrs.email.value, "@gmail")) <==> EmailRejected(attrs)
  {
    if attrs.email.Some? {
      Text.ContainsIff(attrs.email.value, "@gmail");
    }
  }

  /** `EmployeeSerializer.validate` as written. The email rule comes first.
      The age rule, because of the binding above, rejects exactly the
      payloads with a non-zero experience and a date of birth less than one
      year before `today`; the experience value itself is never compared. */
  function ValidateEmployee(attrs: EmployeeAttrs, today: int, year: YearLength): (r: Result<EmployeeAttrs, Error>)
    requires year.Valid()
    ensures r.Ok? ==> r.value == attrs
    ensures r == Err(EmailNotGmail) <==> EmailRejected(attrs)
    ensures r == Err(ExperienceExceedsAge) <==>
      && !EmailRejected(attrs)
      && attrs.experience.Some? && attrs.experience.value != 0
      && attrs.dateOfBirth.Some?
      && (today - attrs.dateOfBirth.value) * year.den < year.num
    ensures r.Ok? || r == Err(EmailNotGmail) || r == Err(ExperienceExceedsAge)
  {
    EmailScan(attrs);
    if Truthy(attrs.email) && !Text.Contains(attrs.email.value, "@gmail") then
      Err(EmailNotGmail)
    else
      var experience := BindExperience(attrs);
      if experience.IsTruthy() then
        var age := Age(attrs.dateOfBirth.value, today, year);
        AgeBelowOne(attrs.dateOfBirth.value, today, year);
        if age < experience.AsInt() then Err(ExperienceExceedsAge) else Ok(attrs)
      else
        Ok(attrs)
  }

  /** Any two non-zero experiences get the same verdict. */
  lemma ExperienceValueIgnored(attrs: EmployeeAttrs, x: int, y: int, today: int, year: YearLength)
    requires year.Valid() && x != 0 && y != 0
    ensures ValidateEmployee(attrs.(experience := Some(x)), today, year).Err? ==>
      ValidateEmployee(attrs.(experience := Some(x)), today, year)
        == ValidateEmployee(attrs.(experience := Some(y)), today, year)
    ensures ValidateEmployee(attrs.(experience := Some(x)), today, year).Ok?
        <==> ValidateEmployee(attrs.(experience := Some(y)), today, year).Ok?
  {
  }

  /** The age rule as its comment describes it: an employee should not have
      more years of experience than years of living. */
  function ValidateEmployeeIntended(attrs: EmployeeAttrs, today: int, year: YearLength): (r: Result<EmployeeAttrs, Error>)
    requires year.Valid()
    ensures r.Ok? ==> r.value == attrs
    ensures r == Err(EmailNotGmail) <==> EmailRejected(attrs)
    ensures r.Ok? && attrs.experience.Some? && attrs.experience.value != 0 && attrs.dateOfBirth.Some? ==>
      Age(attrs.dateOfBirth.value, today, year) >= attrs.experience.value
    ensures r == Err(ExperienceExceedsAge) <==>
      && !EmailRejected(attrs)
      && attrs.experience.Some? && attrs.experience.value != 0
      && attrs.dateOfBirth.Some?
      && Age(attrs.dateOfBirth.value, today, year) < attrs.experience.value
    ensures r.Ok? || r == Err(EmailNotGmail) || r == Err(ExperienceExceedsAge)
  {
    EmailScan(attrs);
    if Truthy(attrs.email) && !Text.Contains(attrs.email.value, "@gmail") then
      Err(EmailNotGmail)
    else if attrs.experience.Some? && attrs.experience.value != 0 && attrs.dateOfBirth.Some? then
      if Age(attrs.dateOfBirth.value, today, year) < attrs.experience.value then Err(ExperienceExceedsAge)
      else Ok(attrs)
    else
      Ok(attrs)
  }

  /** A payload that shows the difference: ten years of experience, born
      2020-01-01, checked on 2023-05-08 (age 3). The code as written accepts
      it; the intended rule rejects it. */
  lemma AgeRuleAcceptsTooMuchExperience()
    ensures
      var attrs := EmployeeAttrs(Some("Jane"), Some("Doe"), Some("jane.doe@gmail.com"),
                                 Some("developer"), Some(10), Some(Ordinal(2020, 1, 1)));
      && ValidateEmployee(attrs, Ordinal(2023, 5, 8), JulianYear) == Ok(attrs)
      && ValidateEmployeeIntended(attrs, Ordinal(2023, 5, 8), JulianYear) == Err(ExperienceExceedsAge)
  {
    var attrs := EmployeeAttrs(Some("Jane"), Some("Doe"), Some("jane.doe@gmail.com"),
                               Some("developer"), Some(10), Some(Ordinal(2020, 1, 1)));
    assert Text.OccursAt("@gmail", "jane.doe@gmail.com", 8);
    assert !EmailRejected(attrs);
    AgeExamples();
  }

  // ---------------------------------------------------------------------
  // ReservationSerializer.validate

  /** The `host` entry of a payload. The field is nullable, so it is not
      required: a payload can leave it out, send null, or name an employee. */
  datatype HostField = HostOmitted | HostNull | HostKey(pk: nat)

  /** The validated reservation payload of a create or a non-partial update. */
  datatype ReservationAttrs = ReservationAttrs(room: nat, reservedFrom: int, reservedTo: int, host: HostField)

  /** The lookup `room=attrs["room"], reserved_to__gte=attrs["reserved_from"],
      reserved_from__lte=attrs["reserved_to"]` for one stored row: same room,
      and, for two non-empty intervals, the latest start is no later than the
      earliest end, so the closed intervals share at least one tick. */
  predicate Collides(existing: Reservation, attrs: ReservationAttrs)
    ensures existing.reservedFrom <= existing.reservedTo && attrs.reservedFrom <= attrs.reservedTo ==>
      (Collides(existing, attrs) <==>
        && existing.room == attrs.room
        && Max(existing.reservedFrom, attrs.reservedFrom) <= Min(existing.reservedTo, attrs.reservedTo))
  {
    && existing.room == attrs.room
    && existing.reservedTo >= attrs.reservedFrom
    && existing.reservedFrom <= attrs.reservedTo
  }

  function Max(a: int, b: int): int { if a < b then b else a }
  function Min(a: int, b: int): int { if a < b then a else b }

  /** The payload that would store the same room, interval and host as `r`. */
  function AttrsOf(r: Reservation): ReservationAttrs {
    ReservationAttrs(r.room, r.reservedFrom, r.reservedTo,
                     match r.host case None => HostNull case Some(k) => HostKey(k))
  }

  /** The store invariant: no two stored reservations collide. */
  ghost predicate NoCollisions(reservations: map<nat, Reservation>) {
    forall j, k :: j in reservations && k in reservations && j != k ==>
      !Collides(reservations[j], AttrsOf(reservations[k]))
  }

  /** `colliding_reservation_count`: the stored rows the lookup matches. */
  function CollidingCount(reservations: map<nat, Reservation>, attrs: ReservationAttrs): (n: nat)
    ensures n > 0 <==> exists k :: k in reservations && Collides(reservations[k], attrs)
  {
    var matching := set k | k in reservations && Collides(reservations[k], attrs);
    assert forall k :: k in reservations && Collides(reservations[k], attrs) ==> k in matching;
    |matching|
  }

  /** `ReservationSerializer.validate`: the payload is accepted, unchanged,
      exactly when no stored reservation collides with it. */
  function ValidateReservation(reservations: map<nat, Reservation>, attrs: ReservationAttrs): (r: Result<ReservationAttrs, Error>)
    ensures r.Ok? <==> forall k :: k in reservations ==> !Collides(reservations[k], attrs)
    ensures r.Ok? ==> r.value == attrs
    ensures r.Err? ==> r.error == RoomAlreadyBooked
  {
    if CollidingCount(reservations, attrs) > 0 then Err(RoomAlreadyBooked) else Ok(attrs)
  }

  /** The collision test is symmetric between the stored and the new reservation. */
  lemma CollidesSymmetric(a: Reservation, b: Reservation)
    ensures Collides(a, AttrsOf(b)) <==> Collides(b, AttrsOf(a))
  {
  }

  /** The interval test is closed: a booking that starts at the tick another
      one ends (10:00-11:00, then 11:00-12:00) is refused. */
  lemma TouchingIntervalsCollide(reservations: map<nat, Reservation>, k: nat, attrs: ReservationAttrs)
    requires k in reservations && reservations[k].room == attrs.room
    requires reservations[k].reservedFrom <= reservations[k].reservedTo == attrs.reservedFrom <= attrs.reservedTo
    ensures ValidateReservation(reservations, attrs) == Err(RoomAlreadyBooked)
  {
  }

  /** In a collision-free store, at most one reservation of a room is
      active (half-open, `reserved_from <= now < reserved_to`) at any tick:
      two active ones of the same room would share the tick `now`. */
  lemma OneActivePerRoom(reservations: map<nat, Reservation>, j: nat, k: nat, now: int)
    requires NoCollisions(reservations)
    requires j in reservations && k in reservations && reservations[j].room == reservations[k].room
    requires reservations[j].reservedFrom <= now < reservations[j].reservedTo
    requires reservations[k].reservedFrom <= now < reservations[k].reservedTo
    ensures j == k
  {
  }

  /** Reservations of other rooms never change the verdict. */
  lemma {:induction false} OtherRoomsNeverBlock(reservations: map<nat, Reservation>, k: nat, other: Reservation, attrs: ReservationAttrs)
    requires other.room != attrs.room
    ensures ValidateReservation(reservations[k := other], attrs) == ValidateReservation(reservations - {k}, attrs)
  {
    var with := reservations[k := other];
    var without := reservations - {k};
    forall j | j in with && Collides(with[j], attrs)
      ensures j in without && Collides(without[j], attrs)
    {
    }
  }

  /** The check does not leave out the reservation being edited: an update
      that keeps any tick of its own stored interval, in the same room, is
      refused as colliding with itself. */
  lemma UpdateCollidesWithItself(reservations: map<nat, Reservation>, k: nat, attrs: ReservationAttrs)
    requires k in reservations && Collides(reservations[k], attrs)
    ensures ValidateReservation(reservations, attrs) == Err(RoomAlreadyBooked)
  {
  }

  /** In particular, resubmitting a stored reservation's own interval is
      refused whenever that interval is not empty. */
  lemma ResubmitRefused(reservations: map<nat, Reservation>, k: nat)
    requires k in reservations && reservations[k].reservedFrom <= reservations[k].reservedTo
    ensures ValidateReservation(reservations, AttrsOf(reservations[k])) == Err(RoomAlreadyBooked)
  {
    UpdateCollidesWithItself(reservations, k, AttrsOf(reservations[k]));
  }

  /** The row that `create` inserts: the payload's room and interval, its
      host (the model's null default when the payload leaves it out), no
      attendees yet (the attendees field is read-only) and the creator address. */
  function NewReservation(attrs: ReservationAttrs, creatorIp: Option<string>): (r: Reservation)
    ensures r.room == attrs.room && r.reservedFrom == attrs.reservedFrom && r.reservedTo == attrs.reservedTo
    ensures r.host == (if attrs.host.HostKey? then Some(attrs.host.pk) else None)
    ensures attrs.host != HostOmitted ==> AttrsOf(r) == attrs
    ensures r.attendees == {} && r.creatorIp == creatorIp
  {
    var host := match attrs.host case HostKey(k) => Some(k) case _ => None;
    Reservation(attrs.reservedFrom, attrs.reservedTo, attrs.room, host, {}, creatorIp)
  }

  /** A non-partial update sets the fields the payload carries: room and
      interval always, the host only when the payload has a `host` entry.
      Attendees and creator address are kept. */
  function Updated(r: Reservation, attrs: ReservationAttrs): (u: Reservation)
    ensures u.room == attrs.room && u.reservedFrom == attrs.reservedFrom && u.reservedTo == attrs.reservedTo
    ensures attrs.host == HostOmitted ==> u.host == r.host
    ensures attrs.host == HostNull ==> u.host == None
    ensures attrs.host.HostKey? ==> u.host == Some(attrs.host.pk)
    ensures attrs.host != HostOmitted ==> AttrsOf(u) == attrs
    ensures u.attendees == r.attendees && u.creatorIp == r.creatorIp
  {
    var host := match attrs.host
      case HostOmitted => r.host
      case HostNull => None
      case HostKey(k) => Some(k);
    r.(room := attrs.room, reservedFrom := attrs.reservedFrom, reservedTo := attrs.reservedTo, host := host)
  }

  /** Storing an accepted payload under a fresh key keeps the store free of
      collisions. */
  lemma AcceptedCreateKeepsNoCollisions(reservations: map<nat, Reservation>, k: nat, attrs: ReservationAttrs, ip: Option<string>)
    requires NoCollisions(reservations) && k !in reservations
    requires ValidateReservation(reservations, attrs).Ok?
    ensures NoCollisions(reservations[k := NewReservation(attrs, ip)])
  {
    var after := reservations[k := NewReservation(attrs, ip)];
    forall i, j | i in after && j in after && i != j
      ensures !Collides(after[i], AttrsOf(after[j]))
    {
      if i == k {
        CollidesSymmetric(after[i], after[j]);
      } else if j == k {
      } else {
      }
    }
  }

  /** Replacing a stored reservation with an accepted payload keeps the store
      free of collisions (the payload collided with none, itself included). */
  lemma AcceptedUpdateKeepsNoCollisions(reservations: map<nat, Reservation>, k: nat, attrs: ReservationAttrs)
    requires NoCollisions(reservations) && k in reservations
    requires ValidateReservation(reservations, attrs).Ok?
    ensures NoCollisions(reservations[k := Updated(reservations[k], attrs)])
  {
    var after := reservations[k := Updated(reservations[k], attrs)];
    forall i, j | i in after && j in after && i != j
      ensures !Collides(after[i], AttrsOf(after[j]))
    {
      if i == k {
        CollidesSymmetric(after[i], after[j]);
      }
    }
  }

  /** The related primary keys of a payload name stored rows: the room, and
      the host when the payload names one. */
  predicate RelatedKeysExist(rooms: set<nat>, employees: set<nat>, attrs: ReservationAttrs) {
    attrs.room in rooms && (attrs.host.HostKey? ==> attrs.host.pk in employees)
  }

  // ---------------------------------------------------------------------
  // ReservationSerializer.create: the creator address

  /** The two request headers `create` reads, each possibly absent. */
  datatype RequestMeta = RequestMeta(forwardedFor: Option<string>, remoteAddr: Option<string>)

  /** Python's `a or b` on optional strings. */
  function Or(a: Option<string>, b: Option<string>): Option<string> {
    if Truthy(a) then a else b
  }

  /** The `creator_ip` that `create` stamps, None when it leaves the field
      unset: the forwarded-for header wins, the remote address is the
      fallback, an empty header counts as missing, and without a request
      nothing is stamped. */
  function CreatorIp(request: Option<RequestMeta>): (r: Option<string>)
    ensures r.Some? ==> r.value != []
    ensures r.Some? <==> request.Some? && (Truthy(request.value.forwardedFor) || Truthy(request.value.remoteAddr))
    ensures r.Some? && Truthy(request.value.forwardedFor) ==> r == request.value.forwardedFor
    ensures r.Some? && !Truthy(request.value.forwardedFor) ==> r == request.value.remoteAddr
  {
    match request
    case None => None
    case Some(meta) =>
      var ip := Or(meta.forwardedFor, meta.remoteAddr);
      if Truthy(ip) then ip else None
  }

  // ---------------------------------------------------------------------
  // AttendeeAddSerializer.validate / update

  /** `AttendeeAddSerializer.validate`: refused once the attendee count has
      reached the room's capacity. */
  function ValidateAddAttendee(attendees: set<nat>, capacity: int): (r: Result<(), Error>)
    ensures r.Ok? <==> |attendees| < capacity
    ensures r.Err? ==> r.error == CapacityReached
    ensures r.Ok? ==> forall e :: |WithAttendee(attendees, e)| <= capacity
  {
    if |attendees| >= capacity then Err(CapacityReached)
    else
      assert forall e :: |WithAttendee(attendees, e)| <= |attendees| + 1;
      Ok(())
  }

  /** `update`: `instance.attendees.add(employee)`, a set insertion. */
  function WithAttendee(attendees: set<nat>, employee: nat): (r: set<nat>)
    ensures employee in r && attendees <= r && r - attendees <= {employee}
  {
    attendees + {employee}
  }

  /** The capacity invariant the add keeps: a reservation either has no
      attendees (as created) or no more than its room's capacity. */
  predicate AttendeesFit(count: nat, capacity: int) {
    count == 0 || count <= capacity
  }

  /** An accepted add leaves the count within capacity, whatever it was before. */
  lemma AcceptedAddFits(attendees: set<nat>, capacity: int, employee: nat)
    requires ValidateAddAttendee(attendees, capacity).Ok?
    ensures AttendeesFit(|WithAttendee(attendees, employee)|, capacity)
  {
  }

  /** The capacity check is made before looking at who is added: at capacity,
      even re-adding an existing attendee is refused. */
  lemma FullRoomRefusesExistingAttendee(attendees: set<nat>, capacity: int, employee: nat)
    requires employee in attendees && |attendees| >= capacity
    ensures ValidateAddAttendee(attendees, capacity) == Err(CapacityReached)
  {
  }

  /** Re-adding an existing attendee leaves the set as it was. */
  lemma ReAddIsNoOp(attendees: set<nat>, employee: nat)
    requires employee in attendees
    ensures WithAttendee(attendees, employee) == attendees
  {
  }

  /** A room of capacity 2 with two attendees refuses a third. */
  lemma ThirdAttendeeRefused(a: nat, b: nat, c: nat)
    requires a != b
    ensures ValidateAddAttendee({a, b}, 2) == Err(CapacityReached)
  {
  }
}
