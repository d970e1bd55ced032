/** The schema of company/models.py: employees, rooms and reservations, the
    derived employee values (`age`, `__str__`) and the delete rules of the
    reservation's foreign keys.

    Dates are day numbers (the proleptic Gregorian ordinal, as Python's
    `date.toordinal`); reservation timestamps are integer ticks; primary
    keys are natural numbers. */
module Models {
  import opened Wrappers

  /** The six codes of `Employee.POSITIONS`, in declaration order. */
  datatype Position = Manager | SeniorDeveloper | Developer | JuniorDeveloper | Designer | Tester {

    /** The code stored in the `position` column; every code is non-empty
        and fits the column's maximum length of 64. */
    function Code(): (r: string)
      ensures 0 < |r| <= 64
    {
      match this
      case Manager => "manager"
      case SeniorDeveloper => "senior_developer"
      case Developer => "developer"
      case JuniorDeveloper => "junior_developer"
      case Designer => "designer"
      case Tester => "tester"
    }

    /** The human-readable label paired with the code. */
    function Label(): string {
      match this
      case Manager => "Manager"
      case SeniorDeveloper => "Senior Developer"
      case Developer => "Developer"
      case JuniorDeveloper => "Junior Developer"
      case Designer => "Designer"
      case Tester => "Tester"
    }
  }

  const Positions: seq<Position> :=
    [Manager, SeniorDeveloper, Developer, JuniorDeveloper, Designer, Tester]

  /** The `POSITIONS` choices list as written: (code, label) pairs. */
  function PositionChoices(): seq<(string, string)> {
    [ ("manager", "Manager"),
      ("senior_developer", "Senior Developer"),
      ("developer", "Developer"),
      ("junior_developer", "Junior Developer"),
      ("designer", "Designer"),
      ("tester", "Tester") ]
  }

  /** The choices list holds one (code, label) pair per position, in order,
      and no code appears twice. */
  lemma PositionChoicesArePositions()
    ensures |PositionChoices()| == |Positions| == 6
    ensures forall i :: 0 <= i < 6 ==> PositionChoices()[i] == (Positions[i].Code(), Positions[i].Label())
    ensures forall i, j :: 0 <= i < j < 6 ==> PositionChoices()[i].0 != PositionChoices()[j].0
  {
  }

  /** The position a stored code stands for, if it is one of the choices. */
  function PositionFromCode(code: string): (r: Option<Position>)
    ensures r.Some? ==> r.value.Code() == code
    ensures r.None? ==> forall p: Position :: p.Code() != code
  {
    if code == "manager" then Some(Manager)
    else if code == "senior_developer" then Some(SeniorDeveloper)
    else if code == "developer" then Some(Developer)
    else if code == "junior_developer" then Some(JuniorDeveloper)
    else if code == "designer" then Some(Designer)
    else if code == "tester" then Some(Tester)
    else None
  }

  /** Decoding a position's code gives the position back. */
  lemma PositionCodeRoundTrip(p: Position)
    ensures PositionFromCode(p.Code()) == Some(p)
  {
  }

  /** An employee row. `position` is the stored string: the model declares
      choices for it, which the model-level check below enforces. */
  datatype Employee = Employee(
    firstName: string,
    lastName: string,
    email: string,
    position: string,
    experience: int,
    dateOfBirth: int)

  /** A room row. */
  datatype Room = Room(name: string, capacity: int)

  /** A reservation row: the closed interval [reservedFrom, reservedTo] of
      ticks, the room's key, the optional host's key, the attendees' keys and
      the optional address of the client that created it. */
  datatype Reservation = Reservation(
    reservedFrom: int,
    reservedTo: int,
    room: nat,
    host: Option<nat>,
    attendees: set<nat>,
    creatorIp: Option<string>)

  /** The field constraints of `Employee`: names and email non-blank (the
      default `blank=False`) and within their maximum lengths, the position
      choices and the minimum experience of 0. */
  predicate EmployeeFieldsValid(e: Employee) {
    && 0 < |e.firstName| <= 128
    && 0 < |e.lastName| <= 128
    && 0 < |e.email| <= 128
    && |e.position| <= 64
    && PositionFromCode(e.position).Some?
    && e.experience >= 0
  }

  /** An employee passing the field constraints has non-blank names and
      email, a non-negative experience and one of the six position codes. */
  lemma EmployeeFieldsValidMeans(e: Employee)
    ensures EmployeeFieldsValid(e) ==>
      && e.firstName != [] && e.lastName != [] && e.email != []
      && e.experience >= 0 && exists i :: 0 <= i < |Positions| && Positions[i].Code() == e.position
  {
    if EmployeeFieldsValid(e) {
      var p := PositionFromCode(e.position).value;
      var i := match p
        case Manager => 0
        case SeniorDeveloper => 1
        case Developer => 2
        case JuniorDeveloper => 3
        case Designer => 4
        case Tester => 5;
      assert Positions[i].Code() == e.position;
    }
  }

  // ---------------------------------------------------------------------
  // __str__

  /** `str(employee)`: first name, one space, last name. */
  function Str(e: Employee): (r: string)
    ensures |r| == |e.firstName| + 1 + |e.lastName|
    ensures r[..|e.firstName|] == e.firstName
    ensures r[|e.firstName|] == ' '
    ensures r[|e.firstName| + 1..] == e.lastName
  {
    e.firstName + " " + e.lastName
  }

  /** Splits a string at its first space (the part before, the part after). */
  function SplitAtFirstSpace(s: string): (string, string) {
    if s == [] then ([], [])
    else if s[0] == ' ' then ([], s[1..])
    else
      var (before, after) := SplitAtFirstSpace(s[1..]);
      ([s[0]] + before, after)
  }

  /** When the first name has no space, the display string determines both names. */
  lemma {:induction false} StrRoundTrip(e: Employee)
    requires ' ' !in e.firstName
    ensures SplitAtFirstSpace(Str(e)) == (e.firstName, e.lastName)
  {
    SplitJoined(e.firstName, e.lastName);
  }

  lemma {:induction false} SplitJoined(first: string, last: string)
    requires ' ' !in first
    ensures SplitAtFirstSpace(first + " " + last) == (first, last)
  {
    if first == [] {
      assert first + " " + last == [' '] + last;
    } else {
      assert (first + " " + last)[1..] == first[1..] + " " + last;
      SplitJoined(first[1..], last);
      assert [first[0]] + first[1..] == first;
    }
  }

  // ---------------------------------------------------------------------
  // age

  /** The length of a year in days, as the fraction num/den (a configuration
      constant of the deployment: 365.25 days is 1461/4, a whole number of
      days Y is Y/1). */
  datatype YearLength = YearLength(num: int, den: int) {
    predicate Valid() { num > 0 && den > 0 }
  }

  const JulianYear := YearLength(1461, 4)

  /** `age`: the whole days from the date of birth to `today`, floor-divided by
      the year length. The result is the largest whole number of years that
      fit in the elapsed days. */
  function Age(dateOfBirth: int, today: int, year: YearLength): (r: int)
    requires year.Valid()
    ensures r * year.num <= (today - dateOfBirth) * year.den < (r + 1) * year.num
  {
    ((today - dateOfBirth) * year.den) / year.num
  }

  /** On the day of birth the age is 0. */
  lemma AgeAtBirth(day: int, year: YearLength)
    requires year.Valid()
    ensures Age(day, day, year) == 0
  {
    assert (day - day) * year.den == 0;
  }

  lemma MulLeftCancelLess(a: int, b: int, n: int)
    requires n > 0 && a * n < b * n
    ensures a < b
  {
  }

  /** As `today` advances, the age never decreases. */
  lemma AgeMonotone(dateOfBirth: int, today: int, later: int, year: YearLength)
    requires year.Valid() && today <= later
    ensures Age(dateOfBirth, today, year) <= Age(dateOfBirth, later, year)
  {
    var a, b := Age(dateOfBirth, today, year), Age(dateOfBirth, later, year);
    assert (today - dateOfBirth) * year.den <= (later - dateOfBirth) * year.den;
    MulLeftCancelLess(a, b + 1, year.num);
  }

  /** An age below one year means fewer elapsed days than one year holds. */
  lemma AgeBelowOne(dateOfBirth: int, today: int, year: YearLength)
    requires year.Valid()
    ensures Age(dateOfBirth, today, year) < 1 <==> (today - dateOfBirth) * year.den < year.num
  {
    var a := Age(dateOfBirth, today, year);
    if a < 1 {
      assert (a + 1) * year.num <= year.num;
    } else {
      assert a * year.num >= year.num;
    }
  }

  // Day numbers of calendar dates, as Python's `date.toordinal`.

  predicate IsLeap(y: int) {
    y % 4 == 0 && (y % 100 != 0 || y % 400 == 0)
  }

  function DaysBeforeYear(y: int): int {
    var p := y - 1;
    p * 365 + p / 4 - p / 100 + p / 400
  }

  function DaysBeforeMonth(y: int, m: int): int
    requires 1 <= m <= 12
  {
    [0, 31, 59, 90, 120, 151, 181, 212, 243, 273, 304, 334][m - 1]
      + (if m > 2 && IsLeap(y) then 1 else 0)
  }

  function Ordinal(y: int, m: int, d: int): int
    requires 1 <= m <= 12
  {
    DaysBeforeYear(y) + DaysBeforeMonth(y, m) + d
  }

  /** The frozen-clock examples: on 2023-05-08, with a 365.25-day year,
      someone born 1998-01-01 is 25, 2003-01-01 is 20, 2020-01-01 is 3. */
  lemma AgeExamples()
    ensures Age(Ordinal(1998, 1, 1), Ordinal(2023, 5, 8), JulianYear) == 25
    ensures Age(Ordinal(2003, 1, 1), Ordinal(2023, 5, 8), JulianYear) == 20
    ensures Age(Ordinal(2020, 1, 1), Ordinal(2023, 5, 8), JulianYear) == 3
  {
  }

  // ---------------------------------------------------------------------
  // on_delete rules of Reservation's foreign keys

  /** `room = ForeignKey(Room, on_delete=CASCADE)`: deleting a room deletes
      exactly the reservations of that room; the others are kept unchanged. */
  function CascadeDeleteRoom(reservations: map<nat, Reservation>, room: nat): (r: map<nat, Reservation>)
    ensures forall k :: k in r <==> k in reservations && reservations[k].room != room
    ensures forall k :: k in r ==> r[k] == reservations[k]
  {
    map k | k in reservations && reservations[k].room != room :: reservations[k]
  }

  /** Deleting an employee: `host = ForeignKey(Employee, null=True,
      on_delete=SET_NULL)` clears the host of the reservations that employee
      hosted, and the `attendees` many-to-many rows that name the employee are
      deleted with them. Every reservation is kept; nothing else changes. */
  function DetachEmployee(reservations: map<nat, Reservation>, employee: nat): (r: map<nat, Reservation>)
    ensures r.Keys == reservations.Keys
    ensures forall k :: k in r ==>
      && r[k].host == (if reservations[k].host == Some(employee) then None else reservations[k].host)
      && r[k].attendees == reservations[k].attendees - {employee}
      && r[k].room == reservations[k].room
      && r[k].reservedFrom == reservations[k].reservedFrom
      && r[k].reservedTo == reservations[k].reservedTo
      && r[k].creatorIp == reservations[k].creatorIp
  {
    map k | k in reservations ::
      var was := reservations[k];
      was.(host := if was.host == Some(employee) then None else was.host,
           attendees := was.attendees - {employee})
  }
}
