# Duty planner: fair daily schedule, modelled in Dafny

This project models the core of a small Flask application that plans the
daily duties of a military unit. It covers two operations.

- **Schedule generation** (`generate_schedule_for_date`). The date text is
  parsed and the date's existing assignments are deleted. Then the five fixed
  slots of the day (three watches, the day-room guard and the morning
  kitchen) are filled in order. Each slot gets the eligible soldier with the
  fewest total services, with the lowest id breaking ties. A soldier is
  eligible when they are available, have no unavailability record on the
  date, have not been used yet that day, and pass the role rule. The role
  rule takes the first of the keywords "Σκοπιά", "Θαλαμοφύλακας", "Κουζίνα"
  that occurs in the slot label and requires it in the soldier's role. The
  chosen soldier gets an unconfirmed assignment and one more service.
- **Confirmation** (`confirm_schedule`). Every assignment of a date is
  marked confirmed.

Layout, one module per concept:

| file | module | contents |
|---|---|---|
| `wrappers.dfy` | `Wrappers` | `Option` |
| `models.dfy` | `Models` | `Soldier`, `Assignment`, `Unavailability`, `Date`; unique ids, the assignment-to-soldier link |
| `roles.dfy` | `Roles` | substring test, the first-keyword rule, the keyword loop as a method |
| `selection.dfy` | `Selection` | eligibility, the candidate pool (function and loop), the `min` by (total services, id) |
| `assignments.dfy` | `Assignments` | the date queries on the assignment table, confirmation as a function, their laws |
| `schedule.dfy` | `Schedule` | the slot step and the whole day's pass as functions, and what a pass guarantees |
| `scenarios.dfy` | `Scenarios` | worked days on a two-soldier roster |
| `planner.dfy` | `Planner` | the store class `DutyStore` whose methods change the tables in place |

The store keeps the three tables as `seq` fields. The two operations are
methods with loops, and each is proved against the pure functions of
`Schedule` and `Assignments`. Parsing the date text is a parameter:
`Option<Date>`, where `None` stands for text that does not parse.

## Model

| member | source | states |
|---|---|---|
| Models.UniqueIds | models.py:26 | Soldier ids are a primary key: two roster entries with the same id are the same entry |
| Models.Linked | models.py:55 | The foreign key of the assignment table: every assignment names the id of a soldier in the roster (the store invariant; kept by RunKeepsLinks and ConfirmKeepsLinks) |
| Roles.FirstKeyword | app.py:122-127 | The keyword loop stops at the first keyword found in the label. The result is the index of a contained keyword with no earlier one contained, and it is None exactly when no keyword is contained |
| Roles.RoleCompatible | app.py:118-131 | A soldier passes the role check iff the first keyword contained in the label (if any) is contained in the soldier's role; a label with no keyword accepts every role |
| Roles.FirstKeywordDecides | app.py:122-131 | When keyword k is the first keyword contained in a label, exactly the roles containing keyword k pass |
| Roles.CheckRole | app.py:118-131 | The flag-and-break loop returns exactly the role-compatibility verdict |
| Selection.Eligible | app.py:109-131 | The four filters of the candidate loop: the soldier is available, has no unavailability record on the date, is not yet used that day, and passes the role check (characterised by Candidates) |
| Selection.Candidates | app.py:106-133 | The pool holds, in roster order and without repeats, exactly the positions of soldiers that are available, not unavailable on the date, not yet used that day, and role-compatible |
| Selection.BuildCandidates | app.py:106-133 | The candidate loop with its `continue`s builds exactly that pool |
| Selection.Precedes | app.py:137 | The `min` key: soldier a comes before b when (total services, id) of a is lexicographically smaller than that of b (used by MinIndex and FillSlotPicksBest) |
| Selection.MinIndex | app.py:137 | On a non-empty pool, the selected candidate has a (total services, id) key that no candidate undercuts, and it is strictly below every earlier candidate's key (the first minimum, as `min` returns) |
| Assignments.WithoutDate | app.py:85-90 | What survives the deletion: no assignment of the date remains, and the result is no longer than the table (exact membership is QueriesExact) |
| Assignments.OnDate | app.py:85 | The date query returns only assignments of that date, and no more entries than the table has (exact membership is QueriesExact) |
| Assignments.QueriesExact | app.py:85-90 | An entry survives the deletion of a date iff it is in the table with another date, and the date query returns an entry iff it is in the table with that date: nothing is invented or lost |
| Assignments.QueriesPartition | app.py:85-90 | Each assignment is either deleted or kept: the date's assignments and the surviving ones together are the whole table, as a multiset |
| Assignments.QueriesAppend | app.py:85-90 | Both date queries distribute over concatenation of tables |
| Assignments.AllOnDate | app.py:140-145 | A list dated entirely on d is its own date query and leaves nothing when d is deleted |
| Assignments.NoneOnDate | app.py:85-90 | A table with no entry on d is unchanged by deleting d and has an empty date query |
| Assignments.ReplaceDate | app.py:85-90 | Deleting d and then adding a list dated d makes that list the date's assignments, and the other dates stay as before |
| Assignments.ConfirmDate | app.py:299-301 | Confirmation keeps the table's length and every soldier, date and shift. An entry is confirmed afterwards iff it was confirmed before or it is on the date |
| Assignments.ConfirmKeepsOtherDates | app.py:299-301 | Confirming a date leaves the assignments of all other dates unchanged |
| Assignments.ConfirmSetsDate | app.py:299-301 | After confirming a date, its assignments are the same entries, in the same order, now with the flag set |
| Assignments.ConfirmIdempotent | app.py:299-302 | Confirming the same date twice is the same as confirming it once |
| Assignments.ConfirmKeepsLinks | app.py:299-302 | Confirmation keeps every assignment linked to a soldier of the roster |
| Schedule.UnavailableOn | app.py:93-95 | The unavailable set contains exactly the soldier ids of the records on the date |
| Schedule.Assign | app.py:140-153 | The effect of a pick: the soldier's counter rises by one, their id joins the used set, and an unconfirmed assignment of the date and slot is appended (characterised by StepCounted, StepUsedIds and AssignLoad) |
| Schedule.FillSlot | app.py:104-153 | One slot: build the pool; if it is empty nothing changes, otherwise the `min` candidate is assigned (characterised by FillSlotPicksBest) |
| Schedule.FillSlots | app.py:104-153 | The slots filled in list order, each step seeing the counters and used ids the earlier steps left |
| Schedule.Run | app.py:101-153 | A whole day's pass from the roster with an empty used set (characterised by RunCounters, RunUsedIds, RunNoDoubleBooking, RunQualified, RunOnePerSlot and RunLoad) |
| Schedule.FillSlotPicksBest | app.py:104-153 | A slot is left unfilled with nothing changed iff no soldier is eligible. Otherwise an eligible soldier whose (total services, id) key no eligible soldier undercuts gets an unconfirmed assignment for the slot, one more service, and is marked used |
| Schedule.StepOutcome | app.py:136-153 | A slot step either changes nothing (no pick) or assigns the slot to the picked soldier, who is eligible |
| Schedule.RunKeepsIdentity | app.py:149 | A pass changes only total services: roster length, ids, names, ranks, roles and availability stay |
| Schedule.RunCounters | app.py:149 | With unique ids, each soldier picked during the pass has exactly one service more, and every other soldier's counter is unchanged |
| Schedule.StepCounted | app.py:149-153 | One slot keeps the counters equal to the original ones plus one for each used id |
| Schedule.RunCounted | app.py:101-153 | A whole pass keeps the counters equal to the original ones plus one for each used id |
| Schedule.StepUsedIds | app.py:140-153 | One slot keeps the used set equal to the set of soldier ids among the created assignments |
| Schedule.RunUsedIds | app.py:101-153 | The used set is exactly the set of soldier ids among the created assignments |
| Schedule.RunNoDoubleBooking | app.py:113-153 | No soldier gets two assignments on the same date |
| Schedule.RunQualified | app.py:109-145 | Every created assignment is an unconfirmed assignment of the date, for a slot of the list, to a soldier who is available, not unavailable on the date, and role-compatible with the slot |
| Schedule.RunOnePerSlot | app.py:104-153 | A pass creates at most one assignment per slot, only for labels of the slot list, and no label twice when the labels are distinct |
| Schedule.AssignLoad | app.py:140-149 | One assignment adds exactly one service to the roster's total |
| Schedule.TotalLoadBump | app.py:149 | Incrementing one soldier's counter raises the roster's total by one |
| Schedule.RunLoad | app.py:140-149 | The roster's total services grow by exactly the number of assignments created |
| Schedule.WatchSlotRole | app.py:76-79 | The three watch slots accept exactly the roles that contain "Σκοπιά" |
| Schedule.GuardSlotRole | app.py:80 | The day-room guard slot accepts exactly the roles that contain "Θαλαμοφύλακας" |
| Schedule.KitchenSlotRole | app.py:81 | The morning kitchen slot accepts exactly the roles that contain "Κουζίνα" |
| Schedule.SlotRoles | app.py:76-82 | The role each fixed slot demands, all five together |
| Schedule.SlotsDistinct | app.py:76-82 | The five slot labels are pairwise different |
| Schedule.DayInvariant | app.py:76-153 | For the fixed slots, a day has at most five assignments. No soldier and no slot appears twice, and every assignment is unconfirmed, dated, for a fixed slot, and given to a qualified soldier |
| Schedule.RunKeepsLinks | app.py:85-153 | After a regeneration, every assignment refers to a soldier of the updated roster |
| Schedule.UsedUpDayStaysPut | app.py:113-136 | Once every soldier is used for the day, the remaining slots stay empty and nothing changes |
| Scenarios.WatchSoldiersFit | app.py:118-131 | A soldier whose role is "Σκοπιά" passes the role check of each watch slot |
| Scenarios.BravoTakesFirstWatch | app.py:137 | On the two-soldier roster, the first watch is given to the soldier with fewer services |
| Scenarios.LowerCounterWins | app.py:137 | The first watch goes to the soldier with fewer services, whose counter rises by one |
| Scenarios.UnavailableSoldierSkipped | app.py:111 | A soldier with an unavailability record on the date is passed over even with fewer services |
| Scenarios.MessengerHasNoKeyword | app.py:122-127 | The label "Αγγελιοφόρος" contains none of the three keywords, so the keyword loop finds no keyword for it |
| Scenarios.FreeTextSlotTakesAnyRole | app.py:129-133 | The keyword-free label "Αγγελιοφόρος" goes to the only soldier of the roster whatever that soldier's role |
| Scenarios.FirstTwoWatches | app.py:104-153 | On the two-soldier roster, the less-served soldier takes the first watch and the other soldier takes the second |
| Scenarios.FullDay | app.py:76-156 | A whole day on that roster creates exactly two assignments: every later slot stays empty because both soldiers are used |
| Planner.DutyStore.constructor | models.py:12-80 | A store over the given tables, with unique soldier ids and every assignment linked to a soldier |
| Planner.DutyStore.GenerateScheduleForDate | app.py:48-156 | Text that does not parse gives false and changes nothing. Otherwise the result is true and the roster is the pass's roster. The date's assignments are replaced by the pass's list and the other dates are untouched. The date's new assignments are unconfirmed, for fixed slots, to qualified soldiers, and book no soldier twice. Each soldier's counter rises by one iff they were picked. The store invariant is kept |
| Planner.DutyStore.DeleteAssignmentsOn | app.py:85-90 | The deletion loop leaves exactly the assignments of other dates, in their order |
| Planner.DutyStore.FillDay | app.py:100-153 | The slot loop leaves the roster as the pass's roster and appends exactly the pass's assignments |
| Planner.DutyStore.TakeSlot | app.py:105-153 | One iteration of the slot loop moves the store, and the used set, exactly as the slot step does |
| Planner.DutyStore.ConfirmSchedule | app.py:290-305 | Works on any store. Text that does not parse gives false and changes nothing. Otherwise every assignment of the date is confirmed and everything else is unchanged. The store invariant is kept whenever it held before |

## Left out

- Flask routes, templates, flash messages and redirects: the operations return a success flag instead. `confirm_schedule` redirects in both outcomes; the flag tells the two apart.
- The database and SQLAlchemy sessions: the three tables are sequences in memory, and each query is a filter on them.
- The CRUD routes for soldiers, unavailability records and the dashboard: they are not part of the scheduling core.
- `datetime.strptime`: date parsing is a parameter, `Option<Date>`. `None` stands for text that does not parse, and the calendar is not modelled.
- Commit boundaries: the source commits the deletion of the date's assignments (app.py:90) separately from the new schedule (app.py:155). A failure between the two would leave the date empty. The model follows the code but has no failure in between, so each operation is one step.
- Assignment and unavailability primary keys and row order: the tables are sequences, and new rows are appended.
- `total_services` and `is_available` may be NULL in the database; they have defaults of 0 and True (models.py:30-31). The model uses `nat` and `bool`, so the `None + 1` failure that a NULL counter would cause is not represented.
- Unicode: strings are sequences of code points, compared character by character as Python's `in` does. No normalisation is modelled.
- Planner.DutyStore.FillDay: takes the slot list as a parameter; GenerateScheduleForDate passes the five fixed labels, so the behaviour is the source's.
- Planner.DutyStore.GenerateScheduleForDate: requires `Valid()`, the store invariant: unique soldier ids and every assignment linked to a soldier. The constructor sets it up and both operations keep it. The counter guarantee needs unique ids. Planner.DutyStore.ConfirmSchedule, like `confirm_schedule`, needs neither fact; it has no requires and keeps `Valid()` whenever it held before. Ids are unique because `Soldier.id` is the primary key (models.py:26). The link is not enforced by SQLite, which checks foreign keys only when asked to. It holds because deleting a soldier also deletes their assignments, through the ORM cascade on `Soldier.assignments` (models.py:34, used by app.py:224), and because the generator only creates assignments for soldiers of the roster (app.py:141). The model proves that both operations keep it.
