# Company booking rules, in Dafny

This project models the booking rules of a small company-resources REST service:
employees, meeting rooms and room reservations. It covers the payload
validators, the reservation store those validators guard, the derived employee
values, the delete rules of the reservation's foreign keys, the query filters,
and the enumeration helper that lists choices.

- `wrappers.dfy` (`Wrappers`): `Option` and `Result`.
- `text.dfy` (`Text`): Python's substring test `needle in s`, scanned left to
  right and proved equal to "occurs at some index", plus the ASCII case-folded
  `icontains` lookup.
- `choices.dfy` (`Choices`): `ChoicesEnum.get_choices`, written as a loop that
  appends one `(value, name)` pair per member.
- `models.dfy` (`Models`): the three records, the six position codes, `age`,
  `__str__`, the field constraints, and the two `on_delete` rules as functions
  on the reservation table.
- `serializers.dfy` (`Serializers`): the validators as pure functions. These are
  the employee email and age rules, the closed-interval collision count, the
  creator-address choice and the add-attendee capacity check. The same module
  holds the lemmas about them.
- `book.dfy` (`ReservationBook`): class `Book`, the store of rooms, employees
  and reservations, keyed by primary key. Its methods are validated create,
  non-partial update, add attendee and the two deletes. Every method keeps `Valid()`,
  which says all foreign keys resolve and no two reservations collide. Every
  method except `Update` also keeps `WithinCapacity()`.
- `filters.dfy` (`Filters`): the room, employee and reservation filters, as
  order-preserving selections over querysets.

Representation choices:
- Dates are day numbers, the same as Python's `date.toordinal`.
- Timestamps are integer ticks, and primary keys are natural numbers.
- The clock (`now`, `today`) is a parameter.
- The request is reduced to its two address headers.
- `YEAR_IN_DAYS` is imported from a settings module that is not part of this
  model. It is the parameter `YearLength(num, den)`, meaning a year of
  `num/den` days. With 365.25 days (`JulianYear`, 1461/4), `Age` equals
  Python's float floor division exactly. With a whole number Y of days it is
  `YearLength(Y, 1)`.

Points where the model follows the code closely:
- The collision check compares closed intervals (`__gte` and `__lte`), so a
  request for 11:00–12:00 is refused next to a booking for 10:00–11:00
  (`TouchingIntervalsCollide`). The model keeps this behaviour as it is.
- The check never requires `reserved_from <= reserved_to`, so inverted
  intervals can be stored. The collision statements that speak of shared
  ticks hold only for non-empty intervals and say so.
- The age rule does not compare age with experience (see Findings).
- "Reserved now" is half-open, unlike the collision check.

## Model

| member | source | states |
|---|---|---|
| `Text.Contains` | company/serializers.py:16 | A left-to-right scan over the windows of `s` that gives the same verdict as Python's `needle in s` (proved as `ContainsIff`), the empty needle included. |
| `Text.IContains` | company/filters.py:52-54 | The `icontains` lookup: `needle in s` after both sides are case-folded. |
| `Text.ContainsIff` | company/serializers.py:16 | Python's `needle in s`, scanned from the left, holds exactly when the needle occurs at some index. |
| `Text.ContainsImpliesIContains` | company/filters.py:52-54 | An exact occurrence is also a case-insensitive (`icontains`) occurrence. |
| `Text.IContainsIgnoresNeedleCase` | company/filters.py:52-54 | Folding the searched value's case never changes an `icontains` verdict. |
| `Text.LowerIdempotent` | company/filters.py:52-54 | Case folding twice is the same as folding once. |
| `Choices.GetChoices` | company/__init__.py:6-10 | Gives one pair per member, so the output length equals the member count. Pair i is `(value, name)` of member i, in iteration order. |
| `Choices.ExampleEnumChoices` | company/__init__.py:13-15 | For `ExampleEnum` the choices are exactly `[("a", "ChoiceA"), ("b", "ChoiceB")]`. |
| `Models.Position.Code` | company/models.py:10-17 | The code of each of the six positions, as stored in the `position` column. Every code is non-empty and fits the column's `max_length` of 64 (company/models.py:22). |
| `Models.PositionChoicesArePositions` | company/models.py:10-17 | `POSITIONS` has six pairs, one (code, label) pair per position in declaration order, and no code repeats. |
| `Models.PositionFromCode` | company/models.py:10-17 | Decoding a code gives a position whose code it is. A string that matches none of the six codes decodes to None. |
| `Models.PositionCodeRoundTrip` | company/models.py:10-17 | Every position's code decodes back to that position. |
| `Models.EmployeeFieldsValid` | company/models.py:19-23 | The field constraints of an employee: names and email non-blank (`blank=False` by default) and at most 128 characters, a position of at most 64 characters that is one of the six codes, and experience >= 0. |
| `Models.EmployeeFieldsValidMeans` | company/models.py:19-23 | An employee that passes the field constraints has non-blank names and email, experience >= 0 and one of the six position codes. |
| `Models.Str` | company/models.py:26-27 | `str(employee)` is the first name, then one space, then the last name. |
| `Models.StrRoundTrip` | company/models.py:26-27 | When the first name has no space, splitting the display string at its first space gives back both names. |
| `Models.Age` | company/models.py:29-32 | `age` is the floor of elapsed days over the year length: the largest whole number of years that fit in the elapsed days. |
| `Models.AgeAtBirth` | company/models.py:30-32 | The age is 0 on the day of birth. |
| `Models.AgeMonotone` | company/models.py:30-32 | The age never decreases as `today` advances. |
| `Models.AgeBelowOne` | company/models.py:30-32 | The age is below 1 exactly when fewer days than one year have elapsed. |
| `Models.AgeExamples` | company/models.py:30-32 | On 2023-05-08, with a 365.25-day year, someone born 1998-01-01 is 25, 2003-01-01 is 20, and 2020-01-01 is 3. |
| `Models.CascadeDeleteRoom` | company/models.py:43 | Deleting a room removes exactly the reservations of that room and keeps every other one unchanged. |
| `Models.DetachEmployee` | company/models.py:44-45 | Deleting an employee keeps every reservation. Those the employee hosted get a null host, and the employee leaves every attendee set. Room, interval and creator address are unchanged. |
| `Serializers.EmailScan` | company/serializers.py:16-17 | The code's scan rejects an email exactly when it is present, non-empty, and has no "@gmail" at any index. |
| `Serializers.BindExperience` | company/serializers.py:20 | The walrus binds a truthy value exactly when a non-zero experience and a date of birth are both present. That value compares as 1 (True), whatever the experience was. |
| `Serializers.ValidateEmployee` | company/serializers.py:14-25 | An accepted payload comes back unchanged. The email rule rejects exactly as `EmailScan` says. Otherwise the age rule rejects exactly when experience is non-zero, a date of birth is present, and less than one year has elapsed since it. Nothing else is rejected. |
| `Serializers.ExperienceValueIgnored` | company/serializers.py:20-23 | Any two non-zero experience values get the same verdict. |
| `Serializers.ValidateEmployeeIntended` | company/serializers.py:19-23 | The corrected age rule, as the comment intends. The outcome is acceptance, the email error or the age error. An accepted payload with a non-zero experience and a date of birth has age >= experience. The age error occurs exactly when the email passes, experience is non-zero, a date of birth is given and age < experience. |
| `Serializers.AgeRuleAcceptsTooMuchExperience` | company/serializers.py:20-23 | Ten years of experience, born 2020-01-01, checked on 2023-05-08: the code as written accepts the payload and the intended rule rejects it. |
| `Serializers.Collides` | company/serializers.py:55-58 | One stored row matches the lookup when it has the same room, ends at or after the payload's start, and starts at or before the payload's end. For two non-empty intervals this holds exactly when the later start is no later than the earlier end, that is, when the closed intervals share a tick. |
| `Serializers.CollidingCount` | company/serializers.py:55-59 | The count of matching stored reservations is positive exactly when some stored reservation collides with the payload. |
| `Serializers.ValidateReservation` | company/serializers.py:53-64 | The payload is accepted, unchanged, exactly when no stored reservation matches the lookup (`Collides`); otherwise the error is "already booked". For non-empty intervals, matching means the same room and closed intervals sharing a tick. |
| `Serializers.CollidesSymmetric` | company/serializers.py:55-59 | The collision test is symmetric between the stored and the new reservation. |
| `Serializers.TouchingIntervalsCollide` | company/serializers.py:57-58 | When both intervals are non-empty, a request that starts at the tick a stored booking of the same room ends is refused. |
| `Serializers.OneActivePerRoom` | company/filters.py:29-31 | In a store with no colliding pair, two reservations of the same room that are both active at `now` are the same reservation. |
| `Serializers.OtherRoomsNeverBlock` | company/serializers.py:56 | Adding or replacing a reservation of another room never changes the verdict. |
| `Serializers.UpdateCollidesWithItself` | company/serializers.py:55-61 | A payload that collides with any stored reservation is refused, even when that reservation is the one being edited. |
| `Serializers.ResubmitRefused` | company/serializers.py:55-61 | Resubmitting a stored reservation's own non-empty interval is refused as a collision with itself. |
| `Serializers.NewReservation` | company/serializers.py:66-71 | A created row stores the payload's room and interval. Its host is the named employee, or null when the payload sends null or leaves the nullable host out. It starts with no attendees and carries the creator address. |
| `Serializers.Updated` | company/serializers.py:45-51 | A non-partial update sets room and interval. It sets the host only when the payload has a `host` entry (null or a key) and keeps the old host when the entry is left out, since the host is not a required field (company/models.py:44). Attendees and creator address are kept. |
| `Serializers.AcceptedCreateKeepsNoCollisions` | company/serializers.py:55-62 | Inserting an accepted payload under a fresh key keeps the store free of colliding pairs. |
| `Serializers.AcceptedUpdateKeepsNoCollisions` | company/serializers.py:55-62 | Replacing a stored reservation with an accepted payload keeps the store free of colliding pairs. |
| `Serializers.CreatorIp` | company/serializers.py:67-70 | A stamped address is never empty. One is stamped exactly when there is a request and one of its two headers is truthy. The forwarded-for header takes precedence over the remote address. |
| `Serializers.ValidateAddAttendee` | company/serializers.py:77-81 | The check accepts exactly when the attendee count is below the room's capacity. The only error is "capacity reached". After an accepted check, adding any employee leaves at most `capacity` attendees. |
| `Serializers.WithAttendee` | company/serializers.py:84-87 | Adding contains the employee and every old attendee, and adds nobody else. |
| `Serializers.AcceptedAddFits` | company/serializers.py:79-87 | An accepted add leaves the count within capacity, whatever the count was before. |
| `Serializers.FullRoomRefusesExistingAttendee` | company/serializers.py:79-80 | At capacity, even re-adding an existing attendee is refused. |
| `Serializers.ReAddIsNoOp` | company/serializers.py:86 | Re-adding an existing attendee leaves the set unchanged. |
| `Serializers.ThirdAttendeeRefused` | company/serializers.py:79-80 | A room of capacity 2 with two attendees refuses a third. |
| `ReservationBook.CascadeKeepsNoCollisions` | company/models.py:43 | The cascade of a room deletion keeps the store free of colliding pairs. |
| `ReservationBook.DetachKeepsNoCollisions` | company/models.py:44 | Nulling hosts and dropping attendees keeps the store free of colliding pairs. |
| `ReservationBook.DetachKeepsFit` | company/models.py:44-45 | Detaching an employee keeps every reservation's attendees within its room's capacity. |
| `ReservationBook.DetachKeepsLinked` | company/models.py:44-45 | After an employee is detached, every foreign key resolves against the remaining employees. |
| `ReservationBook.Book.Valid` | company/models.py:40-45 | The store invariant: keys are below the next key to hand out, each reservation's room and host resolve to stored rows and its attendees to stored employees, and no two reservations collide (the state the validator at company/serializers.py:55-62 keeps). |
| `ReservationBook.Book.WithinCapacity` | company/serializers.py:79-80 | The capacity invariant: every reservation's attendee set fits its room's capacity (an empty set always fits). |
| `ReservationBook.Book.constructor` | company/models.py:35-45 | An empty store satisfies both store invariants. |
| `ReservationBook.Book.AddRoom` | company/models.py:35-37 | Inserts a room under a fresh key and changes nothing else. |
| `ReservationBook.Book.AddEmployee` | company/models.py:9-24 | Inserts an employee row under a fresh key and changes nothing else. It is the raw insert; the employee endpoint's checks are `ValidateEmployee`. |
| `ReservationBook.Book.Create` | company/serializers.py:53-71 | An unknown room or host gives an invalid-pk error. A collision gives "already booked" and leaves the store unchanged. Otherwise it inserts `NewReservation(attrs, CreatorIp(request))` under a fresh key. It keeps both invariants and changes nothing else. |
| `ReservationBook.Book.Update` | company/serializers.py:53-64 | Gives not-found, then invalid-pk, then the collision verdict, checked against all rows including the one being edited. On success it stores `Updated(old, attrs)` at that key: room and interval from the payload, the host from the payload when it carries one and kept otherwise. It keeps `Valid()`. |
| `ReservationBook.Book.AddAttendee` | company/serializers.py:74-87 | Gives not-found, then invalid-pk, then the capacity verdict. On success only that reservation's attendee set grows, by the employee, and it ends within capacity. It keeps both invariants. |
| `ReservationBook.Book.DeleteRoom` | company/models.py:43 | Deleting a stored room removes it and exactly its reservations, and keeps both invariants. |
| `ReservationBook.Book.DeleteEmployee` | company/models.py:44-45 | Deleting a stored employee removes them. Their hosted reservations lose the host and their attendances are dropped. Every reservation stays, and both invariants hold. |
| `Filters.Select` | company/filters.py:29-31 | A queryset filter keeps exactly the rows its predicate selects and never grows the queryset. |
| `Filters.SelectAppend` | company/filters.py:29-31 | Filtering distributes over concatenation, so rows keep their relative order. |
| `Filters.SelectComplement` | company/filters.py:29-37 | Two filters with complementary predicates split the rows between them, so their lengths sum to the input's length. |
| `Filters.MinCapacity` | company/filters.py:18 | `min_capacity = v` keeps exactly the rooms with capacity >= v. When the parameter is absent, it keeps every room. |
| `Filters.FilterReserved` | company/filters.py:25-37 | True keeps exactly the reserved-now rooms. None returns the input unchanged. False keeps exactly the input rooms that are not reserved now. |
| `Filters.ReservedNow` | company/filters.py:29-31 | A room is reserved now when one of its reservations has `reserved_from <= now < reserved_to`. |
| `Filters.ReservedPartition` | company/filters.py:29-37 | The True and False results are subsets of the input. Every input room is in exactly one of them, and their lengths add up to the input's length. |
| `Filters.ReservedNowHalfOpen` | company/filters.py:29-31 | A reservation [f, t) makes its room reserved at f and at t - 1. The room is not reserved at t or before f. |
| `Filters.RoomFilterSet` | company/filters.py:17-23 | The room list keeps exactly the rooms that satisfy every given parameter. |
| `Filters.FilterName` | company/filters.py:49-54 | `name = s` keeps exactly the employees whose first or last name contains s, ignoring case. When the parameter is absent, it keeps every employee. |
| `Filters.FilterNameIgnoresCase` | company/filters.py:52-54 | Searching for s or for lower-case s gives the same result. |
| `Filters.FilterNameKeepsExactMatches` | company/filters.py:52-54 | An employee whose first or last name contains s exactly is kept. |
| `Filters.MaxExperience` | company/filters.py:42 | `max_experience = v` keeps exactly the employees with experience <= v. |
| `Filters.RoomId` | company/filters.py:57-58 | `room_id = r` keeps exactly the reservations of room r, so a negative or unknown r keeps none. When the parameter is absent, it keeps every reservation. |

## Findings

| source | as written | input that shows it | evidently intended | confidence | as-written member | corrected member |
|---|---|---|---|---|---|---|
| company/serializers.py:20-23 | The walrus binds all of `attrs.get("experience") and "date_of_birth" in attrs.keys()`, so `experience` is `True`. The rule then rejects only when age < 1. | experience 10, born 2020-01-01, checked on 2023-05-08 (age 3): accepted | Reject when age < experience, as the comment says | high; not executed | `Serializers.AgeRuleAcceptsTooMuchExperience` | `Serializers.ValidateEmployeeIntended` |

`Serializers.ValidateEmployee` stays the model of the code as it ships. No
other part of this model consumes the employee validator, so the corrected
rule does not replace it anywhere.

## Left out

- Views, routing and admin are framework configuration and are not modelled. This includes the `reservations_by_position` aggregate, whose result depends on the ORM's grouping rules.
- Persistence, transactions and concurrency are not modelled. This includes the check-then-insert race between simultaneous creates; each store method runs alone.
- Request plumbing is reduced to the forwarded-for and remote-address headers, each optional.
- The clock is a parameter (`now`, `today`). Time zones are ignored.
- `YEAR_IN_DAYS` is defined in a settings module that is not part of this model. It is the parameter `YearLength`, a positive fraction of days.
- Defaults taken at import time (`datetime.today()` and `datetime.now()`) for `date_of_birth`, `reserved_from` and `reserved_to` are not modelled.
- Import-time defects are not modelled:
  - `CharField` is used without being imported (company/serializers.py:9).
  - `Positions` is imported from a package that does not define it (company/filters.py:12).
  - `assumed_position` names no model field (company/filters.py:43), so that filter is left out.
- The `position` override on the employee serializer (company/serializers.py:9) is a plain string field, so it bypasses the model's choices. The choices are modelled only at model level (`EmployeeFieldsValid`).
- `Reservation` declares no `creator_ip` field, so the framework's create would refuse the key that `create` adds. The model still gives the record a `creatorIp` field.
- Field-level validation that runs before `validate` is not part of `ValidateEmployee`: non-blank names and email, maximum lengths, the minimum experience of 0 and email syntax. The model states all but the last in `EmployeeFieldsValid`.
- Email syntax: the check belongs to the library's `EmailField` validator and no member models it.
- Partial updates (PATCH) of a reservation are not modelled, because `validate` reads `attrs["room"]` and fails without it. Only the non-partial update is modelled.
- A create or update payload without `reserved_from` or `reserved_to` is not modelled. Both fields have defaults, so the framework does not require them, and `validate` then fails with a `KeyError` on `attrs["reserved_from"]` or `attrs["reserved_to"]` (company/serializers.py:57-58). The model's payload always carries both timestamps.
- An add-attendee body without `employee_id` fails in `update`; the model always takes an employee key.
- ReservationBook.Book.Update: does not claim `WithinCapacity()`, because an update may move a reservation into a room whose capacity is smaller than its attendee count.
- Room update (PUT or PATCH) is not modelled. In the source it can lower `capacity` below a reservation's attendee count, so the source does not keep "attendees never exceed capacity" either; `WithinCapacity()` holds only for the operations the store models other than `Update`.
- ReservationBook.Book.Create: reports an unknown room and an unknown host as one `InvalidPk`, though the framework reports each field error separately.
- Filters.FilterReserved: returns each reserved room once. Under the ORM's join, the True branch lists a room once per active reservation. In a store with no colliding pair a room has at most one active reservation (`OneActivePerRoom`), so the two agree there, and so does the length sum of `ReservedPartition`.
- Filters.FilterName: folds only ASCII letters (`A`–`Z`), as SQLite's case-insensitive `LIKE` does. Other databases' Unicode case folding is not modelled.
- Filters.MinCapacity, Filters.MaxExperience, Filters.RoomId: the parameter is an integer, though these number filters also accept decimal values. Compared with an integer column, a decimal threshold gives the same rows as an integer one (its floor or ceiling), so no result is lost. A negative `room_id` matches no reservation and gives an empty result, as for any unknown key.
- Choices.GetChoices: takes the members in the order enumeration iteration yields them. Python's removal of aliases (repeated values) happens before that and is not modelled.
- The room serializer's `title` (company/serializers.py:35-36) and the list and retrieve views are not modelled. Room create and update have no rules beyond the field constraints.
- Room `name`: its maximum length of 64 (company/models.py:36) is a field constraint that no modelled operation depends on, so it is not stated.
- Employee create and update run `EmployeeSerializer.validate`, which the model states as `ValidateEmployee` on the payload. The store's `AddEmployee` is the raw insert and does not apply it, and employee updates in the store are not modelled.
