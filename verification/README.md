# Fitness club store: a verified model

The fitness club application is a console program over a PostgreSQL database. It keeps
members, trainers, admins, fitness goals, health metrics, rooms, classes, personal-training
(PT) sessions and class enrollments. This project models:

- the tables and the constraints the SQLAlchemy models declare;
- the `check_class_capacity` trigger;
- the `MemberHealthSummary` view;
- every operation of the application that reads or changes the tables.

It proves that the operations keep the database's invariant, and states for each operation
its result and its new state in terms of the tables before the call. How closely each member
follows the code is recorded row by row under "## Model"; where the model deliberately
follows the evidently intended SQL instead of the code, "## Left out" and "## Findings" say so.

- `wrappers.dfy`: `Option` and `Result`.
- `seqs.dfy`: a table as a sequence of rows. It defines the values of a column, UNIQUE over
  a column, WHERE (`Filter`), lookup of the first row by key, and ORDER BY (`SortBy`, a
  sorted permutation).
- `text.dfy`: Python's `str.strip()`, lower-casing, and SQL `LIKE` with PostgreSQL's
  default escape character. It proves that a pattern without special characters wrapped in
  `%…%` is a substring search.
- `schema.dfy`: one datatype per table and the invariant `Valid`, which covers:
  - primary keys, the UNIQUE columns and column pairs, and the CHECK constraints;
  - foreign keys;
  - the trigger's rule that no class is larger than its room.

  For each table the application inserts into (every table but `FitnessGoal`) there is a
  function giving the first constraint a new row breaks, in
  PostgreSQL's evaluation order:
  1. BEFORE triggers;
  2. CHECK constraints;
  3. unique indexes, primary key first;
  4. foreign keys.

  For each of those tables a lemma shows that a row passes exactly when the tables stay `Valid` with
  it. The ON DELETE policies are modelled as functions on the tables (CASCADE from members
  and classes, RESTRICT from trainers and rooms), each with a lemma that it keeps the
  invariant. The module also holds the SERIAL sequences (`NextIds`) and the store invariant
  `StoreInvariant`: `Valid`, no class with more enrollments than its capacity, and every
  sequence ahead of its table.
- `queries.dfy`: the read-only operations as functions:
  - the class catalogue;
  - a trainer's schedule;
  - the member search with its detail lookup;
  - admin sign-in;
  - the health-summary view.
- `club.dfy`: class `Store` holds one `seq` field per table and one counter per sequence.
  Each state-changing operation of the application is a method with `modifies` on exactly
  the fields it changes. Every method keeps `Valid()`, which is `StoreInvariant` of the
  fields. Two rules shape every method:
  - An INSERT that the database refuses still uses up a sequence value, because PostgreSQL
    does not roll sequences back. A refusal by the application's own checks issues no
    INSERT and leaves the counter alone.
  - A refused operation leaves every table as it was.
- `findings.dfy`: how the hand-written view and trigger name their tables, and what start-up
  then installs (see "## Findings").

In two places the code does something other than what its comments and names suggest, and the
model follows the code (the trigger and the view, where it does not, are under "## Findings"):

- `create_class` makes no capacity check of its own. Only the trigger and the constraints
  decide.
- `member_lookup` is a SQL `LIKE` with the user's text as the pattern, so `%` and `_` in the
  search text are wildcards. It is a plain substring search only when the text contains no
  `%`, `_` or `\`.

Inputs from the console are parameters. Dates and times are integers in a fixed unit.
Metric values are NUMERIC(6,2), held as integers in hundredths. The clock (`datetime.now()`)
is a parameter `now` of the methods that stamp a row.

## Model

| member | source | states |
|---|---|---|
| Schema.EmptyTablesValid | fitness_project/models/models.py:9-174 | Freshly created, empty tables meet every declared constraint and the capacity rules. |
| Schema.MemberInsertExact | fitness_project/models/models.py:12-14 | A new member row is accepted exactly when the tables stay valid with it: the id is new and the email is unused. |
| Schema.TrainerInsertExact | fitness_project/models/models.py:32-34 | A new trainer row is accepted exactly when the tables stay valid with it, so a duplicate email is refused. |
| Schema.AdminInsertExact | fitness_project/models/models.py:48-52 | A new admin row is accepted exactly when the tables stay valid with it: the id, username and email are all new. |
| Schema.MetricInsertExact | fitness_project/models/models.py:78-79 | A metric row is accepted exactly when the tables stay valid with it: the id is new and the member exists. |
| Schema.RoomInsertExact | fitness_project/models/models.py:94-104 | A room row is accepted exactly when the tables stay valid with it: the capacity is positive and the id and name are new. |
| Schema.CapacityTrigger | fitness_project/app/main.py:91-107 | The trigger raises only when the class's room exists and holds fewer people than the class. It never raises when no room has that id, because the comparison is with NULL. |
| Schema.ClassInsertExact | fitness_project/models/models.py:113-128 | A class row passes the trigger and the constraints exactly when the tables stay valid with it. This covers a positive capacity, a free room slot, an existing trainer and room, and a capacity within the room's. |
| Schema.TriggerRejectsOversized | fitness_project/app/main.py:97-103 | A class larger than its room is refused by the trigger, with both capacities in the error, before any other constraint is looked at. |
| Schema.SessionInsertExact | fitness_project/models/models.py:138-150 | A PT session row is accepted exactly when the tables stay valid with it, so a trainer has at most one session per time. |
| Schema.EnrollmentInsertExact | fitness_project/models/models.py:161-170 | An enrollment row is accepted exactly when the tables stay valid with it, so a member enrolls in a class at most once. |
| Schema.MemberUpdateKeepsValid | fitness_project/models/models.py:12-17 | Replacing a member's row by one with the same id and email keeps the tables valid. |
| Schema.ClassInsertNotOverbooked | fitness_project/models/models.py:158-170 | Adding an accepted class keeps every class within its capacity. |
| Schema.EnrollmentKeepsCapacity | fitness_project/app/main.py:386-401 | Adding an enrollment for a class whose count is below its capacity keeps every class within its capacity. Only that class's count grows, by one. |
| Schema.DeleteMember | fitness_project/models/models.py:20-23 | Deleting a member removes the member and, by cascade, exactly that member's goals, metrics, PT sessions and enrollments. Nothing else changes. |
| Schema.DeleteClass | fitness_project/models/models.py:123 | Deleting a class removes the class and, by cascade, exactly its enrollments. Nothing else changes. |
| Schema.DeleteTrainer | fitness_project/models/models.py:114 | Deleting a trainer is refused exactly when a class or a PT session refers to it. Otherwise only the trainer's row goes. |
| Schema.DeleteRoom | fitness_project/models/models.py:115 | Deleting a room is refused exactly when a class refers to it. Otherwise only the room's row goes. |
| Schema.DeleteMemberKeepsValid | fitness_project/models/models.py:62 | A cascading member delete keeps the tables valid and no class overbooked. |
| Schema.DeleteClassKeepsValid | fitness_project/models/models.py:163 | A cascading class delete keeps the tables valid and no class overbooked. |
| Schema.DeleteTrainerKeepsValid | fitness_project/models/models.py:140 | A trainer delete that the RESTRICT keys allow keeps the tables valid. |
| Schema.DeleteRoomKeepsValid | fitness_project/models/models.py:115 | A room delete that the RESTRICT key allows keeps the tables valid. |
| Schema.NextIdsFresh | fitness_project/models/models.py:12 | While the sequences are ahead of their tables, the next value of each is an id no row has. |
| Schema.SkipIds | fitness_project/app/main.py:209-211 | Consuming sequence values without storing a row, as a refused INSERT does, keeps the store invariant. |
| Queries.Listing | fitness_project/app/main.py:330-337 | A catalogue line shows the class, its room's and trainer's names, its enrollment count, and spaces equal to the capacity less the count. It is FULL exactly when no space is left. |
| Queries.AvailableClasses | fitness_project/app/main.py:318-337 | The catalogue is sorted by class time, lists each joined class exactly once (as a permutation), and gives each the line `Listing` describes. |
| Queries.CatalogueListsEveryClass | fitness_project/app/main.py:321 | On valid tables the joins drop nothing: the catalogue lists every class. |
| Queries.CatalogueSpacesNonNegative | fitness_project/app/main.py:336-337 | When no class is overbooked, spaces are never negative and FULL means the count equals the capacity. |
| Queries.TrainerSchedule | fitness_project/app/main.py:418-453 | NotFound exactly for an unknown trainer. Otherwise the trainer's sessions with existing members and classes with existing rooms, each sorted by time, with the member's or room's name. |
| Queries.ScheduleIsComplete | fitness_project/app/main.py:428-444 | On valid tables the schedule holds all of the trainer's sessions and classes. |
| Queries.SessionEntries | fitness_project/app/main.py:433-434 | Each session is shown with its own member's name. |
| Queries.ClassEntries | fitness_project/app/main.py:447-449 | Each class is shown with its own room's name. |
| Queries.MemberLookup | fitness_project/app/main.py:456-462 | The search returns exactly the members whose name matches the pattern. |
| Queries.LookupIsSubstringSearch | fitness_project/app/main.py:460-462 | For a query without `%`, `_` or `\`, the search is a case-insensitive (ASCII) substring search. |
| Queries.UnderscoreFindsEveryNamedMember | fitness_project/app/main.py:460-462 | The query `_` finds every member with a non-empty name, because `_` is a wildcard. |
| Queries.LatestMetric | fitness_project/app/main.py:478-480 | None exactly when the member has no metric. Otherwise one of the member's metrics whose timestamp is at least every other one's. |
| Queries.LookupDetails | fitness_project/app/main.py:473-484 | NotFound exactly for an unknown member id. Otherwise the member, the latest metric, and exactly the member's goals. |
| Queries.AuthenticateAdmin | fitness_project/app/main.py:631-643 | A returned admin has the given username and a stored password equal to the given one. |
| Queries.AuthenticateExact | fitness_project/app/main.py:636-638 | With unique usernames, sign-in succeeds exactly when some admin has that username and that password. |
| Queries.HealthSummary | fitness_project/app/main.py:64-81 | One row per member with the member's id, name and email. The last reading is empty exactly when the member has no metric, and is otherwise a reading of that member at the latest timestamp. |
| Text.Strip | fitness_project/app/main.py:233-234 | Python's `strip()`: the result is a contiguous part of the input, everything before and after it is whitespace, it has no whitespace at either end, and it is empty exactly when the input is all whitespace. |
| Text.StripIdempotent | fitness_project/app/main.py:233-234 | Stripping an already stripped answer changes nothing. |
| Text.LikeIsSubstringSearch | fitness_project/app/main.py:460-462 | For a text without `%`, `_` or `\`, s is LIKE the pattern `%` followed by q followed by `%` exactly when q occurs in s. |
| Club.EditProfile | fitness_project/app/main.py:233-241 | A blank answer keeps the name or phone; a non-blank one sets it to the stripped answer. Id, email, date of birth and gender never change. |
| Club.EditProfileIdempotent | fitness_project/app/main.py:233-241 | Repeating an edit with the same answers changes nothing more. |
| Club.FindClass | fitness_project/app/main.py:372-375 | The class lookup by id finds a class with that id exactly when one exists. |
| Club.SignupOutcome | fitness_project/app/main.py:359-403 | NotFound exactly when the member or the class is unknown; otherwise AlreadyEnrolled exactly when the pair is enrolled; otherwise ClassFull, with capacity and count, exactly when the count has reached the capacity; otherwise success, reporting capacity − count − 1 spaces left. |
| Club.SignupKeepsCapacity | fitness_project/app/main.py:386-403 | A successful signup keeps the tables valid and no class overbooked, and adds one to the count, which stays within the capacity. The spaces it reports are the capacity less the new count, and signing up again is refused as AlreadyEnrolled. |
| Club.DefaultAdminSignsIn | fitness_project/app/main.py:646-657 | Once the default account is stored, signing in as admin/admin123 returns it. |
| Club.InsertMemberKeeps | fitness_project/app/main.py:198-206 | Storing an accepted member with the next id keeps the store invariant. |
| Club.UpdateMemberKeeps | fitness_project/app/main.py:236-241 | Replacing a member's row keeps the store invariant. |
| Club.InsertTrainerKeeps | fitness_project/app/main.py:511-518 | Storing an accepted trainer keeps the store invariant. |
| Club.InsertAdminKeeps | fitness_project/app/main.py:649-656 | Storing an accepted admin keeps the store invariant. |
| Club.InsertMetricKeeps | fitness_project/app/main.py:262-270 | Storing a metric of an existing member keeps the store invariant. |
| Club.InsertRoomKeeps | fitness_project/app/main.py:538-541 | Storing an accepted room keeps the store invariant. |
| Club.InsertClassKeeps | fitness_project/app/main.py:565-575 | Storing a class that passes the trigger and the constraints keeps the store invariant. |
| Club.ClassIdsBelow | fitness_project/models/models.py:113 | Storing a class with the next class id keeps the sequences ahead of their tables. |
| Club.InsertSessionKeeps | fitness_project/app/main.py:299-308 | Storing an accepted PT session keeps the store invariant. |
| Club.InsertEnrollmentKeeps | fitness_project/app/main.py:394-401 | Storing a signup that SignupOutcome accepts keeps the store invariant and adds one to the class's count. |
| Club.Store.constructor | fitness_project/app/main.py:133-180 | The store starts with empty tables, all sequences at 1, and the invariant holding. |
| Club.Store.RegisterMember | fitness_project/app/main.py:183-214 | The INSERT always uses a member id. It succeeds exactly when the email is new, storing empty optional answers and an unparsable date of birth as NULL. Otherwise it fails on Member_email_key with the table unchanged. |
| Club.Store.UpdateMemberProfile | fitness_project/app/main.py:217-248 | NotFound, changing nothing, for an unknown member. Otherwise the member's row is replaced in place by its edit. |
| Club.Store.ReplaceMember | fitness_project/app/main.py:236-245 | The in-place update of one member row keeps the invariant and changes only that row. |
| Club.Store.AddHealthMetric | fitness_project/app/main.py:251-274 | NotFound, with nothing inserted and no id used, for an unknown member. Otherwise the reading is appended with the current time and the next id. |
| Club.Store.InsertMetric | fitness_project/app/main.py:262-270 | The INSERT of a reading for an existing member appends it with the next id and keeps the invariant. |
| Club.Store.BookPTSession | fitness_project/app/main.py:277-315 | The INSERT always uses a session id. It succeeds, storing a 'scheduled' session, exactly when the trainer is free at that time and the member and trainer exist. Otherwise the refusing constraint is reported and nothing is stored. |
| Club.Store.SignupForClass | fitness_project/app/main.py:350-415 | The outcome is SignupOutcome's. Only a success appends the enrollment, uses an id and adds one to the count, and the store invariant (count within capacity) is kept. |
| Club.Store.CheckSignup | fitness_project/app/main.py:359-392 | The checks before the INSERT, in the code's order, compute SignupOutcome without changing anything. |
| Club.Store.Enroll | fitness_project/app/main.py:394-401 | The INSERT of an accepted signup appends the enrollment with the next id and adds one to the class's count. |
| Club.Store.CreateTrainer | fitness_project/app/main.py:506-530 | The INSERT always uses an id. It succeeds exactly when the email is new, storing an empty specialization as NULL; otherwise it fails on Trainer_email_key with nothing stored. |
| Club.Store.CreateRoom | fitness_project/app/main.py:533-548 | The INSERT always uses an id. It succeeds exactly when the capacity is positive and the name is new. Otherwise the CHECK, tested first, or Room_name_key is reported and nothing is stored. |
| Club.Store.CreateClass | fitness_project/app/main.py:551-582 | The INSERT always uses an id. It succeeds exactly when the trigger and the constraints pass, which implies a positive capacity, an existing trainer and room, and a free room slot. A class larger than its room is refused by the trigger with nothing stored. |
| Club.Store.CreateDefaultAdmin | fitness_project/app/main.py:646-657 | Changes nothing when an admin called 'admin' exists. Otherwise it never returns Ok(false): it inserts the default account, refused with Admin_email_key exactly when its email is taken, after which an 'admin' exists and signing in as admin/admin123 returns the new account. |
| Club.Store.InsertDefaultAdmin | fitness_project/app/main.py:649-656 | The INSERT of the default account uses an id and succeeds exactly when its email is unused. |
| Club.Store.CreateDefaultAdminTwice | fitness_project/app/main.py:646-657 | After a first run that ends in Ok, a second run returns Ok(false) and leaves the admins and their sequence exactly as the first run left them. |
| Club.Startup | fitness_project/app/main.py:686-704 | From empty tables, start-up creates the default admin, and signing in as admin/admin123 then succeeds. |
| Findings.ResolveTable | fitness_project/app/main.py:73-76 | A statement's table name resolves to a declared table, or fails with the name it denotes. |
| Findings.QuotingDecides | fitness_project/app/main.py:97-99 | Every declared table is found under its quoted name and missed under its unquoted, lower-cased name. |
| Findings.CreateView | fitness_project/app/main.py:64-81 | CREATE VIEW succeeds exactly when every table it reads exists, and otherwise fails naming one of them. |
| Findings.ViewAsWrittenFails | fitness_project/app/main.py:73-76 | As written, the view cannot be created: there is no table `member`. |
| Findings.QuotedViewIsCreated | fitness_project/app/main.py:73-76 | With quoted names, the view is created. |
| Findings.TriggerAsWrittenFailsEveryInsert | fitness_project/app/main.py:97-99 | As written, an installed trigger fails every class INSERT with undefined table `room`. |
| Findings.QuotedTriggerIsCapacityTrigger | fitness_project/app/main.py:97-103 | Reading from `"Room"`, the trigger function is the capacity rule. |
| Findings.Bootstrap | fitness_project/app/main.py:83-130 | The trigger is installed only when the function and the view are, and the view is installed exactly when it can be created. |
| Findings.AsWrittenInstallsNothing | fitness_project/app/main.py:83-130 | As written, start-up installs neither the view nor the trigger function nor the trigger. |
| Findings.OversizedClassAcceptedAsWritten | fitness_project/app/main.py:116-130 | As written, a class larger than its room that meets the table's own constraints is stored, breaking the capacity rule. |
| Findings.QuotedBootstrapEnforcesTrigger | fitness_project/app/main.py:116-123 | With quoted names, everything is installed and a new class is checked exactly as ClassViolation says. |

## Left out

- Database connection and configuration (`get_engine`, `get_session`, the password prompt). These are I/O against PostgreSQL.
- `create_tables` and `drop_all_tables`: schema introspection and DDL execution. Only the rules the DDL encodes are modelled. `create_view_and_trigger` is modelled only as far as what it installs (`Findings.Bootstrap`).
- The menus, `main_menu`'s loop and all printing and prompting, including column truncation. These are console UI. This includes the flow of `member_lookup`, which asks for a member id (and so reaches `Queries.LookupDetails`) only when the search found at least one member; the model offers the detail lookup on its own.
- Date, time, integer and float parsing. Dates and times come in already parsed, as integers. A date of birth comes in as `BirthDate` (empty, unparsable or a date). Where the code catches a parse error in `book_pt_session`, `signup_for_class` or the date parse of `create_class`, the operation returns before writing to the database (`signup_for_class` has already read the member and the catalogue by then). `register_member` is different: an unparsable date of birth is reported and the member is still registered, with date_of_birth NULL, which the model does represent (`BirthDate`'s unparsable case, stored as None by `Club.Store.RegisterMember`). The integer and float prompts of `update_member_profile`, `add_health_metric`, `view_trainer_schedule`, `member_lookup`, `create_room` and `create_class` are not guarded: a ValueError there passes through the menus and ends the program, since `main_menu` only closes the session on the way out. Neither path is represented; the model starts from parsed values.
- Floating point: metric values are held as integers in hundredths.
- Club.Store.CreateRoom: does not model the 32-bit INTEGER column width, so it stores a room of capacity 2^31 or more, which PostgreSQL refuses with "integer out of range" and `create_room` then reports and rolls back. The model's integers are unbounded, and no INTEGER column of the models (ids, foreign keys, capacities) is range-checked anywhere in it.
- Club.Store.CreateClass and Club.Store.BookPTSession: for the same reason, a capacity or an id of 2^31 or more is judged by the model's other rules (the trigger, the foreign keys), where PostgreSQL always refuses it as out of range. While every stored value is below 2^31 the model refuses it too, by a foreign key or the trigger, so only the error differs. The SERIAL sequences' ceiling of 2^31 − 1 is not modelled either: the counters grow without bound.
- The NUMERIC(6,2) range and the String(n) lengths. Values too long or too large make the database refuse an INSERT or UPDATE in the source. The model never refuses for that reason, so the `except` branches of `update_member_profile` and `add_health_metric` cannot be reached in it.
- The `except` branch of `signup_for_class`. Under sequential use it is unreachable, since the checks before the INSERT cover every constraint the enrollment could break.
- Concurrency: the check-then-insert of `signup_for_class` races under concurrent use; only sequential calls are modelled.
- `fitness_project/models/__init__.py` is not part of this model (re-exports only).
- Case folding covers the ASCII letters only. Python's `str.lower()` and SQL `lower()` fold all of Unicode.
- The session state after a failed `create_default_admin` at start-up. The source catches the error but never rolls back, so the session needs a rollback before it can be used again.
- The application never deletes a row, and it updates only member rows (`update_member_profile`, modelled by `Club.Store.UpdateMemberProfile`); it never updates a class, trainer or room. The delete functions model the declared ON DELETE policies, and the trigger's rule for UPDATE is the same `CapacityTrigger` applied to the new row.
- Fitness goals are never inserted by the application, so no goal id sequence is modelled.
- The order among foreign-key checks of one row follows the column order of the table. When several keys fail at once, PostgreSQL may report another one.
- Queries.LatestMetric: it states only that the metric returned has the latest timestamp. When two metrics share that timestamp, which one `ORDER BY … DESC LIMIT 1` returns is unspecified, and the model picks the first.
- Club.Store.CreateClass and Schema.ClassViolation use the trigger as evidently intended, reading the room from `"Room"`. The code as written is covered under "## Findings".
- Queries.HealthSummary is the view's intended contents. As written, the view is never created (see "## Findings").

## Findings

| source | as written | input that shows it | evidently intended | confidence | as-written member | corrected member |
|---|---|---|---|---|---|---|
| fitness_project/app/main.py:97-99 | The trigger function reads `FROM Room` unquoted, which PostgreSQL folds to `room`; the table is `"Room"`. | Any INSERT into "Class" once the trigger is installed fails with undefined table `room`. | Read the room's capacity from `"Room"` and refuse only a class larger than its room. | high, not executed | Findings.TriggerAsWrittenFailsEveryInsert | Findings.QuotedTriggerIsCapacityTrigger |
| fitness_project/app/main.py:73-76 | The view reads `FROM Member m` and `FROM HealthMetric h` unquoted, names that fold to `member` and `healthmetric`. | Creating the view on the tables the models create fails with undefined table `member`. | Read `"Member"` and `"HealthMetric"`, giving one row per member with the latest metric. | high, not executed | Findings.ViewAsWrittenFails | Findings.QuotedViewIsCreated |
| fitness_project/app/main.py:83-130 | The failed view aborts the connection's transaction and nothing rolls it back, so the trigger function and the trigger also fail, silently. | At start-up, a class of capacity 2 in a room of capacity 1 (with an existing trainer) is then stored. | Install the view, the function and the trigger, so that an oversized class is refused. | medium, not executed | Findings.OversizedClassAcceptedAsWritten | Findings.QuotedBootstrapEnforcesTrigger |
