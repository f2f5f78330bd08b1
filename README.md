# Campus service queue — a verified model of the queue engine

The campus queue tracker lets students join a virtual queue for a service (registrar, library desk, …), watch their place and estimated wait, and leave. Staff move entries through the statuses Waiting → In Progress → Completed / Cancelled. The core is the queue engine in `backend/controllers/queueController.js`. It rests on the entry schema of `backend/models/Queue.js`, and the two student pages add small display helpers. The engine works as follows:

- A student who joins gets place N + 1 among the Waiting entries of the service, with an estimated wait of 15 minutes per place.
- When an entry is completed, cancelled or deleted, a renumbering pass (`updateQueuePositions`) rewrites the place and wait of every Waiting entry of that service, in join order.
- The wait-time request subtracts the minutes elapsed since joining.

The project models this in Dafny. The document collection is a sequence of entries held by a `QueueEngine` object. The request handlers are methods that update it, and the renumbering pass is a loop proved against a function (`Renumbered`) that specifies it. The laws module then proves what the engine promises across requests:

- after renumbering, the Waiting entries of the service sit at places 1..N in join order;
- renumbering is idempotent and touches nothing else;
- a departure moves everybody behind up one place;
- a join at the back keeps the numbering;
- the remaining wait counts down by one each minute.

The page helpers come with their inverses:

- the wait text is read back into minutes;
- escaped names decode to the original;
- the 12-hour clock is read back into an hour of the day.

Files:

- `wrappers.dfy`: `Option` and `Result`.
- `text.dfy`: JavaScript's integer printing, `split` on one character, and `parseInt` on decimal text.
- `queue_schema.dfy`: the entry schema. It covers the status enum, the required fields, the defaults and validation.
- `queue_store.dfy`: the Mongo queries the engine sends (find, find-by-id, update, delete, sort) as functions over the sequence, with how they compose.
- `queue_controller.dfy`: the wait formulas, the renumbering specification, and the `QueueEngine` class with its request handlers.
- `queue_controller_laws.dfy`: the cross-request laws and a join, join, leave session verified against the engine.
- `queue_page.dfy`: `formatWaitTime`, `escapeHtml`, the status-badge class and the grouping loop of `displayQueues`.
- `appointment_page.dfy`: `formatTime`.

The code renumbers a service only when an entry is completed, cancelled or deleted. An entry taken into service (In Progress) stays out of the Waiting set without a renumbering pass, so the places of the students behind it are stale until the next pass. The model keeps this behaviour rather than an always-numbered queue. `InProgressKeepsStalePlaces` and `JoinDuringServiceRepeatsPlace` state what the code does.

## Model

| member | source | states |
|---|---|---|
| QueueSchema.ParseStatus | backend/models/Queue.js:25-27 | The enum validator accepts a string exactly when it is the name of one of the four statuses, and returns that status |
| QueueSchema.ParseStatusName | backend/models/Queue.js:25-27 | Every status name passes the enum validator and reads back as that status |
| QueueSchema.FailedPaths | backend/models/Queue.js:5-20 | The failing-field list is empty iff every required string field is a non-empty string, the position is present and the status is a valid enum value |
| QueueSchema.NewEntry | backend/models/Queue.js:3-36 | A new document validates iff the required fields are present and the status is valid. A failure is a validation error naming at least one field. On success the supplied fields are kept, the wait defaults to 0, the status to Waiting and joinedAt to the creation time |
| QueueStore.Find | backend/controllers/queueController.js:68 | find-by-id returns a stored entry with that id, or nothing when no stored entry has it |
| QueueStore.Select | backend/controllers/queueController.js:17-20 | A filtered query (`find`, `countDocuments`) returns no more entries than are stored, each of them stored and matching the filter. SelectMembers gives the converse |
| QueueStore.RemoveId | backend/controllers/queueController.js:109 | `findByIdAndDelete` leaves no entry with the id and adds none. RemoveIdMembers gives the converse |
| QueueStore.SelectMembers | backend/controllers/queueController.js:17-20 | A filtered query returns exactly the stored entries that match the filter |
| QueueStore.RemoveIdMembers | backend/controllers/queueController.js:109 | Deleting by id keeps exactly the entries with other ids |
| QueueStore.SetStatus | backend/controllers/queueController.js:85-89 | The status update rewrites the status of the entry with that id and leaves every other entry as it was |
| QueueStore.SetPlace | backend/controllers/queueController.js:141-144 | The renumbering update rewrites position and wait of the entry with that id only |
| QueueStore.SortBy | backend/controllers/queueController.js:57 | The sorted result is a permutation of the query result, in ascending order of the sort field |
| QueueStore.SelectRemoveId | backend/controllers/queueController.js:109 | Filtering after a delete is deleting from the filtered result |
| QueueStore.SelectSetStatusLeaving | backend/controllers/queueController.js:85-89 | Moving an entry to a status the filter excludes removes it from the filtered result and changes nothing else there |
| QueueStore.SortByRemoveId | backend/controllers/queueController.js:131-134 | With distinct ids, sorting after a delete is deleting from the sorted result |
| QueueStore.SortByAppendLast | backend/controllers/queueController.js:131-134 | An entry that sorts after all others ends up last |
| QueueStore.RemoveIdAt | backend/controllers/queueController.js:109 | With distinct ids, deleting the id of the k-th entry removes exactly that entry |
| QueueStore.Insert | backend/controllers/queueController.js:57 | One insertion step of the sort adds exactly that entry: the result is the input plus the entry as a multiset |
| QueueController.CalculateWaitTime | backend/controllers/queueController.js:4-9 | The estimate is a whole number of 15-minute service times, exactly one per place, and it is never negative for a non-negative place |
| QueueController.RecalculateWaitTime | backend/controllers/queueController.js:174-186 | The remaining wait is never negative. It is at most the stored estimate once the student has joined, and zero once the estimate has elapsed |
| QueueController.WaitingByJoinTime | backend/controllers/queueController.js:131-134 | The renumbering query returns exactly the Waiting entries of the service, sorted by join time |
| QueueController.MatchesWaiting | backend/controllers/queueController.js:131-134 | The renumbering filter matches an entry iff it is Waiting and of that service |
| QueueController.RankOf | backend/controllers/queueController.js:137-141 | The index of the first entry with the id in the renumbering order, or the order's length when it is absent |
| QueueController.Renumbering | backend/controllers/queueController.js:137-145 | The pass rewrites each stored entry by its rank in the order and keeps the store's length and order |
| QueueController.Renumbered | backend/controllers/queueController.js:128-145 | The store after the pass has the same length, and each entry differs from its original only in place and wait. RenumberedIsNumbered and RenumberFrame state the numbering and which entries change |
| QueueController.RenumberingStep | backend/controllers/queueController.js:137-144 | One loop iteration, the update of the i-th waiting entry to place i + 1, extends the pass by that entry |
| QueueController.QueueEngine.Join | backend/controllers/queueController.js:12-46 | Joining succeeds iff name, service and contact are non-empty. The new entry takes the next id, place = number of Waiting entries of the service + 1, wait = 15 × place, status Waiting and joinedAt now, and is appended. A failed join changes nothing |
| QueueController.ListFilter | backend/controllers/queueController.js:51-55 | A query parameter that is missing or empty adds no condition to the filter. Any other value is used as given |
| QueueController.QueueEngine.List | backend/controllers/queueController.js:49-63 | The listing holds exactly the matching entries, with an empty filter value ignored. It is a permutation of the filter result in ascending place order |
| QueueController.QueueEngine.Get | backend/controllers/queueController.js:66-78 | Returns the stored entry with the id, or not-found when no stored entry has it |
| QueueController.QueueEngine.Renumber | backend/controllers/queueController.js:128-149 | The loop leaves the store equal to `Renumbered` of the old store and keeps ids distinct |
| QueueController.QueueEngine.UpdateStatus | backend/controllers/queueController.js:81-104 | An invalid status gives a validation error and no change. A missing id gives not-found and no change. A missing status field returns the entry unchanged. Otherwise only the target's status is rewritten, and the service is renumbered iff the new status is Completed or Cancelled |
| QueueController.QueueEngine.Leave | backend/controllers/queueController.js:107-125 | A missing id gives not-found and no change. Otherwise the entry is deleted and returned, and its service is renumbered |
| QueueController.QueueEngine.WaitTime | backend/controllers/queueController.js:152-172 | Returns the stored entry's place, its recalculated remaining wait, its original estimate and its status, or not-found |
| QueueController.WaitingByJoinTimeUnique | backend/controllers/queueController.js:131-134 | The renumbering order has distinct ids when the store does |
| QueueController.RenumberedKeepsIds | backend/controllers/queueController.js:141-144 | Renumbering keeps ids distinct and below the next id |
| QueueController.RenumberingKeepsIds | backend/controllers/queueController.js:141-144 | The pass keeps the id at every index, so distinct ids stay distinct and no new id appears |
| QueueController.SetStatusKeepsIds | backend/controllers/queueController.js:85-89 | A status update keeps ids distinct and introduces no new id |
| QueueControllerLaws.SelectRenumbering | backend/controllers/queueController.js:131-144 | Renumbering does not change which entries a filter selects |
| QueueControllerLaws.SortByRenumbering | backend/controllers/queueController.js:131-144 | Renumbering does not change the join-time order |
| QueueControllerLaws.WaitingAfterRenumber | backend/controllers/queueController.js:131-145 | After the pass, the service's Waiting entries in join order are the old order renumbered by itself |
| QueueControllerLaws.RenumberedIsNumbered | backend/controllers/queueController.js:131-145 | After renumbering a service, its i-th Waiting entry by join time sits at place i + 1 with wait 15 × (i + 1). There are no gaps or duplicates |
| QueueControllerLaws.RenumberFrame | backend/controllers/queueController.js:131-144 | Renumbering changes only place and wait, and only those of the service's Waiting entries. Entries of other services and non-Waiting entries are untouched |
| QueueControllerLaws.NumberedIsFixpoint | backend/controllers/queueController.js:137-145 | Renumbering a store that is already numbered leaves it unchanged |
| QueueControllerLaws.RenumberIdempotent | backend/controllers/queueController.js:128-149 | Renumbering twice gives the same store as renumbering once |
| QueueControllerLaws.ShiftDown | backend/controllers/queueController.js:137-145 | Renumbering a consecutive order with one entry removed: entries before it keep their places, entries after it move up one place and wait 15 minutes less |
| QueueControllerLaws.DeleteLeavesOrder | backend/controllers/queueController.js:109-116 | Deleting an entry removes it from the renumbering order of every service |
| QueueControllerLaws.StatusLeavesOrder | backend/controllers/queueController.js:85-97 | Moving an entry out of Waiting removes it from the renumbering order of every service |
| QueueControllerLaws.SetStatusKeepsOthers | backend/controllers/queueController.js:85-89 | Every entry with another id survives a status update unchanged |
| QueueControllerLaws.LeaveShiftsDown | backend/controllers/queueController.js:109-116 | When a student leaves a numbered queue, those who joined before keep their places and those behind move up one place and wait 15 minutes less |
| QueueControllerLaws.CompleteShiftsDown | backend/controllers/queueController.js:85-98 | Completing or cancelling a Waiting student has the same effect on the others as leaving |
| QueueControllerLaws.InProgressKeepsStalePlaces | backend/controllers/queueController.js:95-98 | Moving a Waiting student who is not last to In Progress does not renumber: the store is no longer numbered |
| QueueControllerLaws.JoinDuringServiceRepeatsPlace | backend/controllers/queueController.js:17-23 | While a student of the service is In Progress, the next joiner is given the place the last Waiting student already holds |
| QueueControllerLaws.OrderLength | backend/controllers/queueController.js:17-20 | The count query and the renumbering query see the same number of Waiting entries |
| QueueControllerLaws.JoinAppendsToOrder | backend/controllers/queueController.js:17-37 | A Waiting entry that joined no earlier than every stored entry, and has a larger id, comes last in the renumbering order of its service |
| QueueControllerLaws.JoinKeepsNumbered | backend/controllers/queueController.js:17-37 | A join later than every stored entry is appended last in join order, and the store stays numbered |
| QueueControllerLaws.RecalculateNonIncreasing | backend/controllers/queueController.js:174-186 | The remaining wait never grows as time passes |
| QueueControllerLaws.RecalculateMinuteStep | backend/controllers/queueController.js:177-183 | Each further minute takes one minute off the remaining wait, down to zero |
| QueueControllerLaws.RecalculateFirstMinute | backend/controllers/queueController.js:177-183 | During the first minute after joining the whole estimate remains |
| QueueControllerLaws.RecalculateExamples | backend/controllers/queueController.js:174-186 | An estimate of 15 is 0 after 20 minutes; an estimate of 30 is 25 after 5 minutes |
| QueueControllerLaws.LeaveScenario | backend/controllers/queueController.js:12-46 | Two joins to one service get places 1 and 2 with waits 15 and 30. After the first leaves, the second is alone at place 1 with wait 15 |
| QueuePage.FormatWaitTimeRoundTrip | frontend/queue.js:324-334 | The wait text determines the wait: read back, it gives the minutes, or 0 below one minute. Each unit word is plural exactly when its count exceeds one |
| QueuePage.FormatWaitTime | frontend/queue.js:324-334 | Below one minute the text is "Less than a minute". From one minute on it starts with a digit. MinutesText, HoursText and HoursMinutesText give the exact text, and FormatWaitTimeRoundTrip reads it back into the minutes |
| QueuePage.RoundTripMinutes | frontend/queue.js:326-327 | Waits of 1 to 59 minutes read back as themselves |
| QueuePage.RoundTripHours | frontend/queue.js:329-332 | Whole hours read back as their number of minutes |
| QueuePage.RoundTripHoursMinutes | frontend/queue.js:329-333 | Hours and leftover minutes read back as the total number of minutes |
| QueuePage.FormatWaitTimeHoursThenMinutes | frontend/queue.js:329-333 | Past an hour with leftover minutes, the text is the whole-hours text, a space and the leftover-minutes text |
| QueuePage.FormatWaitTimeExamples | frontend/queue.js:324-332 | 0 → "Less than a minute", 1 → "1 minute", 60 → "1 hour", 120 → "2 hours" |
| QueuePage.FormatWaitTimeMixedExample | frontend/queue.js:333 | 135 → "2 hours 15 minutes" |
| QueuePage.EscapeChar | frontend/queue.js:349-358 | A character other than `&`, `<`, `>`, `"` and `'` is kept as itself. Each of those five becomes an entity reference: at least four characters, starting with `&`, ending with `;` and free of raw markup |
| QueuePage.EscapeHtml | frontend/queue.js:349-358 | The output is at least as long as the input and contains no raw `<`, `>`, `"` or `'`. Text without special characters is unchanged |
| QueuePage.EscapeConcat | frontend/queue.js:357 | Escaping works character by character: escaping a concatenation concatenates the escapes |
| QueuePage.UnescapeChar | frontend/queue.js:350-356 | Decoding an escaped character followed by any text gives the character back, then decodes the rest |
| QueuePage.EscapeRoundTrip | frontend/queue.js:349-358 | Decoding the escaped text gives the original back, so the non-special characters are kept in order |
| QueuePage.EscapeHtmlExample | frontend/queue.js:349-358 | `<b>` escapes to `&lt;b&gt;` |
| QueuePage.IndexOf | frontend/queue.js:101 | The index of the first occurrence of the character, or the length when it does not occur |
| QueuePage.ReplaceFirst | frontend/queue.js:101 | String replace with a one-character pattern: only the first occurrence is replaced and all else is kept |
| QueuePage.ToLowerAscii | frontend/queue.js:101 | `toLowerCase` on one character: A–Z become a–z (code point + 32), every other character is kept, and the result is never an upper-case ASCII letter |
| QueuePage.LowerCase | frontend/queue.js:101 | `toLowerCase` keeps the length, turns each upper-case ASCII letter into its lower-case counterpart (code point + 32), keeps every other character, and leaves no upper-case ASCII letter |
| QueuePage.StatusBadgeClass | frontend/queue.js:99-101 | The badge class is the fixed prefix `value status-badge status-` followed by as many characters as the status has. The example and distinctness lemmas state the suffix |
| QueuePage.StatusBadgeSingleToken | frontend/queue.js:99-101 | A status with at most one space gives a class name without spaces |
| QueuePage.StatusBadgeWaiting | frontend/queue.js:99-101 | Waiting → "value status-badge status-waiting" |
| QueuePage.StatusBadgeInProgress | frontend/queue.js:99-101 | In Progress → "value status-badge status-in-progress" |
| QueuePage.StatusBadgeCompleted | frontend/queue.js:99-101 | Completed → "value status-badge status-completed" |
| QueuePage.StatusBadgeCancelled | frontend/queue.js:99-101 | Cancelled → "value status-badge status-cancelled" |
| QueuePage.StatusBadgeClassesDistinct | frontend/queue.js:99-101 | Distinct statuses get distinct badge classes |
| QueuePage.BadgeTagOf | frontend/queue.js:99-101 | The two characters after the `status-` prefix of the badge class identify the status |
| QueuePage.GroupByService | frontend/queue.js:271-277 | The dictionary has one key per service in the listing. The group of each service holds exactly its entries, in listing order. The key order is the order of first appearance |
| QueuePage.PushEntry | frontend/queue.js:273-276 | One iteration appends the entry to its service's group, and adds the service to the key order iff the service is new |
| QueuePage.GroupsOfSpec | frontend/queue.js:271-277 | The groups built from the listing have exactly its services as keys, and each group is the filter of the listing by its service |
| QueuePage.ServiceOrderKeys | frontend/queue.js:271-280 | The group keys are exactly the listed services, each once |
| QueuePage.EntryInOneGroup | frontend/queue.js:271-277 | Every listed entry is in exactly one group, the one of its service |
| QueuePage.GroupSizesSum | frontend/queue.js:271-286 | The group sizes shown in the headers add up to the number of listed entries |
| AppointmentPage.JsRem | frontend/appointment.js:98 | JavaScript `%`: for a non-negative hour it is the ordinary remainder, and for a negative one it is non-positive and above −12 |
| AppointmentPage.JsRemOdd | frontend/appointment.js:98 | JavaScript `%` is odd in the dividend; with the non-negative case this fixes its value for every negative hour |
| AppointmentPage.JsRemNegativeExample | frontend/appointment.js:98 | -5 % 12 is -5, where the Euclidean remainder is 7 |
| AppointmentPage.Hour12 | frontend/appointment.js:98 | For a non-negative hour the 12-hour value lies in 1..12 and is congruent to the hour mod 12. NaN gives 12 |
| AppointmentPage.Meridiem | frontend/appointment.js:97 | The suffix is always AM or PM |
| AppointmentPage.FormatTime | frontend/appointment.js:94-100 | The output contains a colon and ends with " AM" or " PM". FormatTimeShape and FormatClockTime state the rest |
| AppointmentPage.ClockRoundTrip | frontend/appointment.js:96-98 | For hours 0..23, the 12-hour value and the suffix together give the hour back |
| AppointmentPage.MeridiemAfterNoon | frontend/appointment.js:97 | The suffix is PM iff the hour is at least 12. NaN gives AM |
| AppointmentPage.FormatTimeShape | frontend/appointment.js:95-99 | The text before the colon gives the hour. The text after it is copied verbatim into the output |
| AppointmentPage.ParseTwoDigits | frontend/appointment.js:96 | parseInt reads a two-digit hour back as its value |
| AppointmentPage.FormatClockTime | frontend/appointment.js:94-100 | "HH:MM" shows as the 12-hour value of HH, a colon, MM, a space and the suffix |
| AppointmentPage.FormatTimeMidnight | frontend/appointment.js:96-99 | "00:MM" → "12:MM AM" |
| AppointmentPage.FormatTimeNoon | frontend/appointment.js:96-99 | "12:MM" → "12:MM PM" |
| AppointmentPage.FormatTimeAfternoon | frontend/appointment.js:96-99 | "13:MM" → "1:MM PM" |
| AppointmentPage.FormatTimeNotANumber | frontend/appointment.js:96-98 | An hour parseInt cannot read shows as "12:MM AM" |
| AppointmentPage.FormatTimeWithoutColon | frontend/appointment.js:95 | Without a colon the minutes show as "undefined" |
| Text.ParseNatOfNatToString | frontend/queue.js:327 | Decimal printing of a natural number is read back by digit parsing |
| Text.NatToString | frontend/queue.js:327 | The decimal text of a natural number is a non-empty run of digits with a leading zero only for 0 |
| Text.ParseIntOfIntToString | frontend/appointment.js:96 | parseInt reads back every integer a template literal prints |
| Text.ParseInt | frontend/appointment.js:96 | Text that starts with neither a digit nor a sign is NaN (None), and a negative value needs a leading minus. ParseIntOfIntToString reads back every printed integer |
| Text.IntToString | frontend/appointment.js:99 | The printed integer is non-empty and starts with a minus exactly when it is negative |
| Text.JoinSplit | frontend/appointment.js:95 | Splitting on a character loses nothing: joining the pieces with it gives the string back |
| Text.SplitAt | frontend/appointment.js:95 | The first piece of a split ends at the first separator |
| Text.Split | frontend/appointment.js:95 | A split has at least one piece and no piece holds the separator |

## Left out

- HTTP and Express routing, the server bootstrap and the JSON response shapes beyond the fields returned. A storage failure and the 500 reply are left out too: the stored sequence cannot fail.
- Errors inside the renumbering pass, which the source logs and swallows: the in-memory queries cannot fail, so the pass always completes.
- Concurrency. Requests are modelled one at a time, so two joins that read the same count concurrently and get the same place are not modelled.
- Document ids are natural numbers taken from a counter. An ObjectId that cannot be cast, and the error it raises, are not modelled. The `createdAt`/`updatedAt` timestamps are not modelled.
- Time is an integer number of milliseconds passed in as `now`; the system clock is not read.
- QueueStore.SortBy: Mongo leaves the order of equal sort keys unspecified. The model breaks ties by id, so it states one admissible order where the source allows any. Everything proved about the join-time order depends on this tie-break: RenumberedIsNumbered, RenumberIdempotent, JoinAppendsToOrder and the "in join order" of the rows above. When two Waiting entries share `joinedAt`, Mongo may return them in a different order on each renumbering query (backend/controllers/queueController.js:131-134). Two passes can then swap their places, so repeated renumbering need not agree.
- QueueController.QueueEngine.Join: the request fields are taken as optional strings. Non-string JSON values and their casting are not modelled.
- QueueController.QueueEngine.UpdateStatus: a request without a status returns the entry unchanged. This assumes Mongoose drops the undefined `status` key of the update (backend/controllers/queueController.js:85-89). Whether it does depends on the Mongoose version and its `omitUndefined` option, which the repository does not pin.
- QueueController.QueueEngine.List: a query parameter given twice (an array) is not modelled.
- Text.ParseInt: leading whitespace, hexadecimal prefixes and numbers too large for a double are not modelled.
- QueuePage.ToLowerAscii: lowercases A–Z only; non-ASCII case mapping is not modelled.
- QueuePage.GroupByService: keys are kept in first-appearance order. JavaScript lists integer-like keys first, and a service named like an inherited object property (`constructor`) would be found as an existing group. Neither is modelled.
- QueuePage.FormatWaitTime: the wait is an integer; fractional minutes, NaN and `undefined` are not modelled.
- The DOM code, fetch calls, localStorage, timers and `confirm` of both pages; `formatDate` and the today-minimum-date logic of `frontend/appointment.js` (locale and `Date` library calls); `frontend/staff.js`; `backend/controllers/appointmentController.js` (database pass-through).
