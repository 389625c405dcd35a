# Skill Bridge scheduling core in Dafny

A model of the service layer of the Skill Bridge tutoring marketplace, with the properties it
promises proved. Tutors keep a profile with an hourly rate and a set of subjects. They publish
recurring weekly availability windows and cut concrete time slots out of them. Students book a
slot for a subject the tutor teaches, at the slot's length times the rate, and may cancel while
the booking is pending. The tutor confirms and then completes it, and the student may review a
completed booking once. Admins ban accounts and feature tutors. The subject and category
taxonomy normalises names and keeps them unique.

The database is one value, `Store.Tables`, with a table per entity:

- Most tables are maps from id to row.
- Bookings and reviews are never deleted. They are sequences whose index is the id, so "the
  first booking found" is the earliest one.

`Store.Db` is the shared database object. Each service is a method that runs its checks in the
source's order. On the first failing check it returns that check's error (status code and error
code) and leaves the tables untouched. If every check passes, it replaces the tables in one
assignment, which is how the model renders each transaction's all-or-nothing commit.

`Store.Consistent` is the invariant every service keeps. It says:

- these references resolve: a profile's account, a taught pair's profile and subject, an
  education entry's, window's and slot's profile, a booking's student and tutor, an active
  booking's slot (a slot of that tutor), a review's booking, and a subject's category;
- every window and slot is a valid range;
- no two slots of a tutor on one date overlap;
- a slot has at most one booking in PENDING, CONFIRM or COMPLETE, and `isBooked` holds exactly
  when it has one;
- every review belongs to a COMPLETE booking of its author, and no booking has two;
- subject names are normalised and unique within their category.

Times are `HH:mm` strings. Dates are day counts from 1970-01-01, which was a Thursday. Prices and
rates are `real`.

Some behaviours are modelled as written even though they weaken the invariants above:

- `updateCategory` writes the name verbatim. It can create a duplicate or lower-case category
  name, so global uniqueness of category names holds under creation only
  (`CategoriesService.CreateCategory`).
- Updating or deleting an availability window does not re-check the slots cut from it.
- `updateEducation` runs no year check (`TutorEducation.UpdateCanUnorderYears`).
- `createBooking` re-checks for an active booking on the slot after checking `isBooked`. Under
  the invariant that second check can never fail (`StudentBookings.FreeSlotHasNoActiveBooking`).

## Model

| member | source | states |
|---|---|---|
| TimeArithmetic.ValidFormatsAreSpelledMinutes | src/modules/tutor/tutor.service.ts:34-38 | a string is accepted as HH:mm exactly when it is the two-digit spelling of some minute of the day |
| TimeArithmetic.IsValidTimeFormat | src/modules/tutor/tutor.service.ts:34-38 | the HH:mm test, hours 00-23 and minutes 00-59; ValidFormatsAreSpelledMinutes states which strings it accepts |
| TimeArithmetic.Minutes | src/modules/tutor/tutor.service.ts:54-64 | the h*60+m value of a valid time lies in [0, 1439] |
| TimeArithmetic.TimeToMinutes | src/modules/tutor/tutor.service.ts:54-64 | succeeds exactly on valid HH:mm strings, with a value below 1440 that spells back to the input; otherwise fails with INVALID_TIME_FORMAT |
| TimeArithmetic.FormatTimeRoundTrip | src/modules/tutor/tutor.service.ts:54-64 | every minute of the day formats to a valid time that converts back to that minute |
| TimeArithmetic.MinutesRoundTrip | src/modules/tutor/tutor.service.ts:54-64 | converting a valid time to minutes and formatting it back gives the same string |
| TimeArithmetic.ValidRangesAreSpelledIntervals | src/modules/tutor/tutor.service.ts:40-52 | a range is valid exactly when both ends spell minutes of the day and the start minute is strictly before the end minute |
| TimeArithmetic.IsValidTimeRange | src/modules/tutor/tutor.service.ts:40-52 | both times valid and the start before the end; ValidRangesAreSpelledIntervals states it over minutes |
| TimeArithmetic.LexLeAgreesWithMinutes | src/modules/tutor/tutor.service.ts:815-826 | on valid times, the store's string comparison orders them as their minute values do |
| TimeArithmetic.GetDayOfWeekIsUtcWeekday | src/modules/tutor/tutor.service.ts:66-77 | the weekday is the UTC weekday, Sunday first; consecutive days advance it by one modulo 7; it has period 7; day 0 is a Thursday |
| TimeArithmetic.GetDayOfWeek | src/modules/tutor/tutor.service.ts:66-77 | the weekday name of a day count, indexed by getUTCDay; GetDayOfWeekIsUtcWeekday states its properties |
| Text.Trim | src/modules/subjects/subjects.service.ts:48 | the trimmed string is no longer than the input; it is empty exactly when the input is all white space; otherwise it starts and ends with non-white space |
| Text.TrimRemovesOnlyEnds | src/modules/subjects/subjects.service.ts:48 | the trimmed string is a contiguous slice of the input with only white space before and after it |
| Text.UpperChar | src/modules/subjects/subjects.service.ts:48 | upper-casing a character leaves no lower-case ASCII letter and keeps white space |
| Text.ToUpper | src/modules/categories/categories.service.ts:37 | reference definition of toUpperCase, character by character; ToUpperIdempotent states its property |
| Text.ToUpperIdempotent | src/modules/categories/categories.service.ts:37 | upper-casing twice is upper-casing once |
| Text.TrimOfTrimmed | src/modules/subjects/subjects.service.ts:150 | a string with no white space at either end is its own trim |
| Text.NormaliseGivesNormalName | src/modules/subjects/subjects.service.ts:48 | trim-then-upper-case yields a name with no white space at the ends and no lower-case ASCII letter |
| Text.Normalise | src/modules/subjects/subjects.service.ts:48 | trim, then upper-case; NormaliseGivesNormalName, NormaliseIdempotent and NormaliseEmpty state its properties |
| Text.NormalNamesAreFixedPoints | src/modules/subjects/subjects.service.ts:150 | the names of that shape are exactly the names normalisation leaves unchanged |
| Text.NormaliseIdempotent | src/modules/subjects/subjects.service.ts:150 | normalising a normalised name changes nothing |
| Text.NormaliseEmpty | src/modules/subjects/subjects.service.ts:136 | the normalised name is empty exactly when the input is all white space |
| BookingLifecycle.Transition | src/modules/student/student.service.ts:167-208 | the status check of cancel, confirm and complete, with the distinct error each refused status gets (ALREADY_CANCELLED, BOOKING_CONFIRMED, CANNOT_CANCEL_COMPLETE; INVALID_BOOKING_STATUS with 404 for confirm and complete) |
| BookingLifecycle.TransitionsAreSteps | src/modules/tutor/tutor.service.ts:1113-1125 | some request moves a status to another exactly when that is one of PENDING to CONFIRM, PENDING to CANCELLED, CONFIRM to COMPLETE |
| BookingLifecycle.RunsFromPending | src/modules/tutor/tutor.service.ts:1185-1198 | from PENDING the request sequences that all succeed are exactly [], [confirm], [confirm, complete] and [cancel] |
| BookingLifecycle.TerminalIsFinal | src/modules/student/student.service.ts:167-208 | from CANCELLED or COMPLETE every non-empty request sequence is refused |
| TutorProfiles.ProfileOf | src/modules/tutor/tutor.service.ts:216-220 | the lookup by account finds the account's profile, or reports that no profile belongs to the account |
| TutorProfiles.OneProfilePerAccount | src/modules/tutor/tutor.service.ts:98-132 | two profiles of the same account are the same profile |
| TutorProfiles.CreateTutorProfile | src/modules/tutor/tutor.service.ts:80-142 | refuses a missing or non-positive rate, an unknown account and an existing profile, in that order, and succeeds otherwise; inserts the account's unfeatured profile with that rate and nothing else |
| TutorProfiles.UpdateTutorHourlyRate | src/modules/tutor/tutor.service.ts:146-211 | the same rate and account checks, then a missing profile, and succeeds otherwise; only that profile's rate changes |
| TutorSubjects.NewSubjectIds | src/modules/tutor/tutor.service.ts:238-276 | reference definition of the ids to insert: the requested ids that are subjects and not yet taught by the tutor; RepeatAddsNothing and AddTutorSubjects state its properties |
| TutorSubjects.RowsFor | src/modules/tutor/tutor.service.ts:289-295 | reference definition of the inserted rows: the pairs of the tutor with the new ids; AddTutorSubjects states that the tutor then teaches every requested id |
| TutorSubjects.RepeatAddsNothing | src/modules/tutor/tutor.service.ts:274-287 | after a successful add the same request has nothing new, so repeating it is refused as a duplicate |
| TutorSubjects.AddTutorSubjects | src/modules/tutor/tutor.service.ts:215-298 | refuses a missing profile, any unknown subject id and a request with nothing new, in that order, and succeeds otherwise; inserts exactly the new pairs, returns how many, and afterwards the tutor teaches every requested id |
| TutorSubjects.FirstBookingOf | src/modules/tutor/tutor.service.ts:347-353 | the first-found booking of the tutor and subject is the earliest one that matches, or none matches |
| TutorSubjects.AsWrittenBlocksLess | src/modules/tutor/tutor.service.ts:347-366 | whatever the first-found guard blocks, the any-booking guard blocks too |
| TutorSubjects.AsWrittenMissesLaterConfirm | src/modules/tutor/tutor.service.ts:347-366 | a cancelled booking followed by a confirmed one for the same tutor and subject: the written guard lets the removal through |
| TutorSubjects.RemoveSubject | src/modules/tutor/tutor.service.ts:302-375 | refuses a missing profile, a subject not taught and (corrected guard) a subject some CONFIRM booking of the tutor uses, and succeeds otherwise; deletes exactly that pair, and no confirmed booking of the tutor uses the subject |
| TutorEducation.NewEducation | src/modules/tutor/tutor.service.ts:410-415 | reference definition of the inserted entry: the payload's fields under the tutor's profile, as AddEducation writes it |
| TutorEducation.ApplyUpdate | src/modules/tutor/tutor.service.ts:470-475 | an update keeps the owning profile, writes a present end year (null included) and keeps an absent one |
| TutorEducation.EmptyUpdateKeepsEntry | src/modules/tutor/tutor.service.ts:470-475 | an update with no field present changes nothing |
| TutorEducation.UpdateIdempotent | src/modules/tutor/tutor.service.ts:470-475 | applying the same update twice equals applying it once |
| TutorEducation.UpdateCanUnorderYears | src/modules/tutor/tutor.service.ts:422-478 | updateEducation can leave a start year after the end year, which addEducation refuses |
| TutorEducation.AddEducation | src/modules/tutor/tutor.service.ts:379-418 | refuses a start year after a truthy end year, then a missing profile, and succeeds otherwise; inserts the entry and nothing else |
| TutorEducation.UpdateEducation | src/modules/tutor/tutor.service.ts:422-478 | refuses a missing profile, then an entry not owned by it (404), and succeeds otherwise; writes exactly the updated entry |
| TutorEducation.DeleteEducation | src/modules/tutor/tutor.service.ts:482-533 | the same two refusals, and succeeds otherwise; removes exactly that entry and returns it |
| TutorAvailability.Merge | src/modules/tutor/tutor.service.ts:637-638 | the merged window keeps its owner, and an empty update is the identity |
| TutorAvailability.DayChangeKeepsValidRange | src/modules/tutor/tutor.service.ts:637-647 | changing only the day of a valid window always passes the range check |
| TutorAvailability.AddAvailability | src/modules/tutor/tutor.service.ts:536-585 | refuses an invalid range before looking up the profile, then a missing profile, and succeeds otherwise; inserts the window and nothing else |
| TutorAvailability.UpdateAvailability | src/modules/tutor/tutor.service.ts:589-657 | refuses a missing profile, a window not owned by it (404) and a merged range that is not valid, and succeeds otherwise; writes the merged window, which is a valid range |
| TutorAvailability.DeleteAvailability | src/modules/tutor/tutor.service.ts:661-712 | the same two ownership refusals, and succeeds otherwise; removes exactly that window and returns it |
| TutorTimeSlots.WindowsOn | src/modules/tutor/tutor.service.ts:771-778 | reference definition of availability.findMany on profile and weekday; PlacementErrorMeaning states what the placement checks make of it |
| TutorTimeSlots.QueryAgreesWithOverlap | src/modules/tutor/tutor.service.ts:815-826 | on valid times the string overlap query finds exactly the slots whose half-open minute intervals overlap, so adjacent slots do not clash |
| TutorTimeSlots.PlacementError | src/modules/tutor/tutor.service.ts:759-840 | the placement checks shared by slot creation and update, first failure reported; PlacementErrorMeaning states each case and the iff for success |
| TutorTimeSlots.PlacementErrorMeaning | src/modules/tutor/tutor.service.ts:759-840 | the placement checks fail, in order, with INVALID_TIME_FORMAT, Invalid_Time_Range, Availability_Not_Found, OUTSIDE_AVAILABILITY and SLOT_OVERLAP; none fails exactly when the slot is a valid range inside one window of its weekday and clashes with no slot |
| TutorTimeSlots.WriteKeepsNoOverlap | src/modules/tutor/tutor.service.ts:815-840 | writing a slot the overlap query clears keeps every slot well formed and no two same-date slots of a tutor overlapping |
| TutorTimeSlots.SlotWriteKeepsBookings | src/modules/tutor/tutor.service.ts:1006-1013 | writing a slot that keeps the owner and booked flag of the one it replaces, or is new and unbooked, keeps the booking invariant |
| TutorTimeSlots.PlacedSlotKeepsConsistent | src/modules/tutor/tutor.service.ts:978-1013 | a placed slot, new or replacing the slot excluded from the overlap query, keeps the tables consistent |
| TutorTimeSlots.MovedSlot | src/modules/tutor/tutor.service.ts:908-911 | the moved slot keeps its owner and booked flag, and an empty update is the identity |
| TutorTimeSlots.CreateTimeSlot | src/modules/tutor/tutor.service.ts:716-852 | refuses an invalid date, a missing profile, then the first failing placement check, and succeeds when every placement check passes; inserts the unbooked slot under a fresh id |
| TutorTimeSlots.UpdateTimeSlot | src/modules/tutor/tutor.service.ts:856-1016 | refuses a missing profile, a slot not owned by it (404), an invalid date, then the first failing placement check with the slot itself excluded, and succeeds otherwise; writes the moved slot |
| TutorTimeSlots.DeleteTimeSlot | src/modules/tutor/tutor.service.ts:1020-1086 | refuses a missing profile, a slot not owned by it (404) and a booked slot, and succeeds otherwise; removes exactly that slot, which was unbooked |
| TutorBookings.ActiveStatusChangeKeepsBookings | src/modules/tutor/tutor.service.ts:1154-1157 | moving a booking between two slot-holding statuses keeps the booking invariant |
| TutorBookings.NonCompleteChangeKeepsReviews | src/modules/tutor/tutor.service.ts:1226-1229 | changing the status of a booking that is not COMPLETE keeps every review valid |
| TutorBookings.TutorRequestError | src/modules/tutor/tutor.service.ts:1105-1152 | the checks in order: not found, wrong status, caller not the tutor (NOT_AUTHORIZED), tutor or student banned (ACCOUNT_BANNED); none fails exactly when the booking exists, its status admits the request, the caller is its tutor and neither party is banned |
| TutorBookings.OnlyOwnTutorPasses | src/modules/tutor/tutor.service.ts:1127-1133 | a caller other than the booking's tutor is refused with NOT_AUTHORIZED |
| TutorBookings.BanBlocksTutorRequests | src/modules/admin/admin.service.ts:110-117 | banning an account keeps the tables consistent; every later confirm or complete of a booking where it is tutor or student is refused, and the booking's tutor asking for a step its status admits gets ACCOUNT_BANNED |
| TutorBookings.AdvanceBooking | src/modules/tutor/tutor.service.ts:1090-1232 | confirmBooking and completeBooking: refuses with the first failing check and succeeds when none fails; sets only that booking's status to CONFIRM or COMPLETE; statuses only move forward |
| StudentBookings.PriceOfIsPositive | src/modules/student/student.service.ts:101-114 | a positive length under a day at a positive rate costs more than nothing and less than 24 times the rate |
| StudentBookings.PriceOfIsAdditive | src/modules/student/student.service.ts:101-114 | the price of two lengths together is the sum of their prices |
| StudentBookings.PriceOf | src/modules/student/student.service.ts:101-114 | a length of time in minutes, as hours, times the hourly rate; PriceOfIsPositive and PriceOfIsAdditive state its properties |
| StudentBookings.PriceIsPositive | src/modules/student/student.service.ts:98-114 | every booking at a positive rate has a positive price below a day's worth of the rate |
| StudentBookings.PriceIsAdditive | src/modules/student/student.service.ts:98-114 | splitting a slot at an inner time splits its price |
| StudentBookings.BookingPrice | src/modules/student/student.service.ts:98-114 | the slot's length in hours times the tutor's rate; PriceIsPositive and PriceIsAdditive state its properties |
| StudentBookings.FreeSlotHasNoActiveBooking | src/modules/student/student.service.ts:71-96 | a slot that is not booked has no booking holding it |
| StudentBookings.NewBooking | src/modules/student/student.service.ts:116-124 | the inserted booking is PENDING, by the caller, for the slot's tutor, the subject and the slot |
| StudentBookings.BookingFreeSlotKeepsBookings | src/modules/student/student.service.ts:116-131 | appending a booking for a free slot and marking it booked keeps at most one active booking per slot and isBooked exactly when one exists |
| StudentBookings.AppendKeepsReviews | src/modules/student/student.service.ts:116-124 | appending a booking keeps every review valid |
| StudentBookings.BookingFreeSlotKeepsConsistent | src/modules/student/student.service.ts:116-131 | the whole createBooking step keeps the tables consistent |
| StudentBookings.CreateBooking | src/modules/student/student.service.ts:8-134 | refuses an unknown slot, a booked slot and a subject the tutor does not teach, in that order, and succeeds otherwise; appends exactly the new booking and marks exactly that slot booked; statuses only move forward |
| StudentBookings.CancelKeepsBookings | src/modules/student/student.service.ts:210-226 | cancelling a pending booking and freeing its slot keeps the booking invariant |
| StudentBookings.CancelKeepsConsistent | src/modules/student/student.service.ts:210-226 | the whole cancelBooking step keeps the tables consistent |
| StudentBookings.CancelBooking | src/modules/student/student.service.ts:138-230 | refuses an unknown booking, a caller who is not its student (403) and each non-pending status with its own code, and succeeds for its student on a PENDING booking; sets only that booking to CANCELLED and frees only its slot, leaving the slot bookable again |
| StudentBookings.ReviewKeepsConsistent | src/modules/student/student.service.ts:308-316 | appending a review of a COMPLETE, unreviewed booking by its student with a rating in [0, 5] keeps the review invariant |
| StudentBookings.CreateReview | src/modules/student/student.service.ts:234-319 | refuses an unknown booking, a caller who is not its student, a booking not COMPLETE, a booking already reviewed and a rating outside [0, 5], in that order, and succeeds otherwise; appends exactly the review with the booking's tutor, after which a second review is refused |
| SubjectsService.BlankNamePassesAddSubject | src/modules/subjects/subjects.service.ts:39-48 | a name of blanks passes addSubject's written check and normalises to the empty name, which the intended check refuses |
| SubjectsService.AcceptedNameNormalises | src/modules/subjects/subjects.service.ts:136-150 | a name the trimmed check accepts normalises to a non-empty normal name |
| SubjectsService.OwnNameIsFree | src/modules/subjects/subjects.service.ts:152-177 | no other subject of a subject's category has its name, so renaming to the current name passes the duplicate check |
| SubjectsService.AddSubject | src/modules/subjects/subjects.service.ts:6-81 | refuses a missing category id, an unknown category, a missing or (corrected) blank name and a normalised name used in the category, in that order, and succeeds otherwise; inserts the normalised name under the category |
| SubjectsService.UpdateSubject | src/modules/subjects/subjects.service.ts:97-190 | refuses a missing id, an unknown id, a blank name and a normalised name another subject of its category has, and succeeds otherwise; changes only the name, to the normalised one; renaming to the current name succeeds |
| CategoriesService.CreateCategory | src/modules/categories/categories.service.ts:19-71 | refuses an empty name, then an upper-cased name already used, and succeeds otherwise; inserts the upper-cased, untrimmed name with the description as given; category names stay unique |
| CategoriesService.UpdateCategory | src/modules/categories/categories.service.ts:75-127 | refuses a missing or unknown id, and succeeds for every existing category; writes the given fields verbatim and changes nothing else |
| AdminService.UpdateUserStatus | src/modules/admin/admin.service.ts:63-120 | refuses a missing id, an unknown user and an unchanged status, and succeeds for any different status, two distinct non-banned values included; changes only that user's status |
| AdminService.FeatureTutor | src/modules/admin/admin.service.ts:124-172 | refuses a missing id and an unknown profile; otherwise sets only isFeatured; repeating the call leaves the tables as they are |

## Left out

- The database engine. Prisma calls become operations on `Store.Tables`, and ids come from
  per-table counters.
- Foreign-key cascades are left out. So is any constraint the schema enforces and the services
  do not check.
- A booking's subject, and the slot of a booking that is no longer active, are not required to
  exist. After a booking is cancelled, `TutorTimeSlots.DeleteTimeSlot` may delete its now unbooked
  slot, as the source's deleteTutorSlot does, and the cancelled booking keeps the dangling slot id.
  What the schema's foreign key would do then is not part of this model.
- The schema is not part of this model. Its defaults are assumed: a new booking is PENDING, a
  new slot is unbooked, a new profile is not featured.
- Transaction isolation and concurrency. Each transaction is one atomic method. That one of
  several concurrent bookings of a slot wins is a property of the store and is not modelled.
- JavaScript `Date` parsing, `isNaN` and time zones. A request date is either `Unparseable` or a
  day count at UTC midnight. `isValidTimeRange`'s comparison of `Date` values is modelled as a
  comparison of minutes.
- Floating-point rounding, and the `Number(...)` conversion of the stored decimal rate. Prices
  and rates are exact `real`s. The `typeof` guard on the rate can never fail, so it is left out.
- The enum of account statuses. The schema is not part of this model, so only BANNED and ACTIVE
  are named; every other value is `Other(name)`, kept distinct by its name.
- The user-facing messages and the per-field error details. An error is its status code and
  error code.
- JavaScript strings are sequences of UTF-16 code units, while a Dafny `string` is a sequence of
  characters. `Text.Trim` and `Text.ToUpper` work character by character, so a character outside
  the Basic Multilingual Plane counts as one element, not as a surrogate pair.
- `Text.UpperChar`: upper-cases the ASCII letters only, not the full Unicode case mapping of
  `toUpperCase`.
- The listing queries (`getAllUser`, `getAllSubjects`, `getAllCategory`), the controllers,
  routes, authentication and middleware, and the `console.log` calls.
- `StudentBookings.CreateBooking`: requires the caller to be an existing account. The
  authentication layer, which is not part of this model, supplies the caller, and the booking's
  student column refers to it.
- `TutorTimeSlots.PlacementError`: tests the two time formats and converts them directly, rather
  than through `TimeArithmetic.TimeToMinutes`'s `Result`. The outcome is the same.
- `TutorBookings.AdvanceBooking`: one method stands for both confirmBooking and completeBooking,
  which differ only in the status they require and the one they write.
- `TutorSubjects.RemoveSubject`: uses the corrected guard, not the first-found guard the source
  runs (see Findings).
- `SubjectsService.AddSubject`: refuses blank names, like updateSubject does, instead of storing
  the empty name (see Findings).

## Findings

| source | as written | input that shows it | evidently intended | confidence | as-written member | corrected member |
|---|---|---|---|---|---|---|
| src/modules/tutor/tutor.service.ts:347-366 | removeSubject looks only at the first booking of the tutor and subject, and blocks the removal only if that one is CONFIRM | bookings [CANCELLED, CONFIRM] for the same tutor and subject: the subject is removed under a confirmed booking | refuse when any booking of the tutor and subject is CONFIRM | high, not executed | TutorSubjects.AsWrittenMissesLaterConfirm | TutorSubjects.RemoveSubject |
| src/modules/subjects/subjects.service.ts:39-48 | addSubject tests `!payload.name` before trimming, so a name of blanks passes and is stored as the empty name | name "  " in an existing category | refuse a blank name, as updateSubject does (subjects.service.ts:136) | medium, not executed | SubjectsService.BlankNamePassesAddSubject | SubjectsService.AddSubject |
