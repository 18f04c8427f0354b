# Training planner scheduling core, in Dafny

This project models the scheduling core of a WordPress plugin that plans the
training sessions of a sports club, and the member-name normalisation of the
repository's archive-extraction script. The plugin exists in three copies whose
handlers differ. The model keeps them apart with the datatype `Tables.Copy`:

- `Target` is the current plugin;
- `Source` is a development snapshot;
- `Import` is an older imported copy.

What is modelled:

- **Calendar arithmetic** (`Calendar`). This covers Gregorian leap years, days
  per month, a consecutive day number and the ISO weekday (Monday = 1). These
  stand in for `date('t', mktime(...))` and `date('N', strtotime(...))`.
- **The weekly template** (`Schedule.Resolve`). It gives the slots of a day from
  its weekday and season (summer is April to September).
- **The monthly generator** (`Logic.Generate`, and the class method
  `Store.Store.GenerateMonthSessions`):
  - it refuses a month outside 1..12 or a month that already has sessions;
  - otherwise it walks the days of the month in order, inserts one session per
    template slot, and inserts an unpublished plan row when the month has none.
- **The admin actions** (`Admin`):
  - deleting a session, with `absint` and the `id > 0` guard in the current
    copies, and a bare `intval` in the imported one;
  - saving trainer assignments, with PHP truthiness of the posted value and
    `absint`/`intval` of it;
  - publishing a month's plan.
- **The trainer's dashboard submission** (`Frontend`):
  - the status upsert keyed by (user, session);
  - the `confirm_session_<id>` buttons, guarded by PHP's loose `==` on the
    stored trainer;
  - the dashboard's answer map.
- **The store** (`Store.Store`). It is a class whose fields are the three tables
  and the auto-increment counter. Each handler's loops are methods on it, each
  proved equal to the functional specification of that handler.
- **The iCalendar export** (`Ics`):
  - TEXT escaping and its reading back (section 3.3.11 of RFC 5545);
  - the three copies' headers, one ten-line VEVENT per exported session, and the
    CR LF join (section 3.1 of RFC 5545);
  - the UIDs, DTSTAMP/DTSTART/DTEND stamps, and the two-hour default end.
- **Month navigation** (`Navigation`). It covers previous/next month with the
  year wrap, and the dashboard's fall-back to the current month.
- **Archive member names** (`ZipNames`). Backslashes become slashes, leading
  separators are stripped, and a trailing slash marks a directory.

PHP helpers that the core relies on are written out in `Text`:

- `intval`/`absint` of a string;
- `str_replace` for one search string;
- `sprintf('%0Nd')`;
- `implode`.

Wall-clock readings, user lookups and query results are parameters:

- the DTSTAMP clock is the parameter `now`;
- the dashboard's current month is the parameter `now`;
- `get_userdata` is a map from user id to display name;
- the export's query result is a parameter `rows`, constrained to be what the
  query may return.

## Model

| member | source | states |
|---|---|---|
| Calendar.DaysInMonth | plugin-target/wp-training-planner/includes/class-training-logic.php:48 | a month has 28 to 31 days; 29 exactly for February of a Gregorian leap year, 28 exactly for February otherwise |
| Calendar.Weekday | plugin-target/wp-training-planner/includes/class-training-logic.php:51-53 | the weekday is in 1..7 and agrees, modulo 7, with the consecutive day count (day 0 a Monday) |
| Calendar.YearLength | plugin-target/wp-training-planner/includes/class-training-logic.php:48 | a year is 366 days long exactly when it is a leap year, 365 otherwise |
| Calendar.MonthLength | plugin-target/wp-training-planner/includes/class-training-logic.php:48 | the first of the next month comes DaysInMonth days after the first of this one |
| Calendar.MultipleStep | plugin-target/wp-training-planner/includes/class-training-logic.php:48 | the count of multiples of 4, 100 or 400 up to y grows by one exactly at a multiple (the leap-year rule) |
| Calendar.ModSevenShift | plugin-target/wp-training-planner/includes/class-training-logic.php:53 | shifting a day count shifts its weekday remainder alike |
| Calendar.NextDay | plugin-target/wp-training-planner/includes/class-training-logic.php:50 | the next calendar day is a valid date whose day number is one more (month and year roll over) |
| Calendar.LastDayOfYear | plugin-target/wp-training-planner/includes/class-training-logic.php:48-50 | 1 January follows 31 December of the previous year without a gap |
| Calendar.NextDayWeekday | plugin-target/wp-training-planner/includes/class-training-logic.php:53 | the day after has the next weekday, Sunday wrapping to Monday |
| Calendar.WeekdayOfLaterDay | plugin-target/wp-training-planner/includes/class-training-logic.php:50-53 | within a month the weekday advances by one per day, modulo 7 |
| Calendar.SaturdayInFirstWeek | plugin-target/wp-training-planner/includes/class-training-logic.php:75-81 | days 1 to 7 of every month include a Saturday |
| Calendar.KnownWeekdays | plugin-target/wp-training-planner/includes/class-training-logic.php:53 | 3 April 2024 is a Wednesday, 29 February 2024 a Thursday, 1 January of year 1 a Monday |
| Navigation.Prev | plugin-target/wp-training-planner/includes/class-training-admin.php:294-299 | for a month in 1..12, the previous month is valid and exactly one month earlier; the year stays except in January |
| Navigation.Next | plugin-target/wp-training-planner/includes/class-training-admin.php:301-306 | for a month in 1..12, the next month is valid and exactly one month later; the year stays except in December |
| Navigation.IndexInjective | plugin-target/wp-training-planner/includes/class-training-frontend.php:61-74 | valid months with the same consecutive month count are the same month |
| Navigation.PrevNextInverse | plugin-target/wp-training-planner/includes/class-training-frontend.php:61-74 | previous and next month undo each other on months 1..12 |
| Navigation.YearWrap | plugin-import/current/wp-training-planner/includes/class-training-admin.php:210-216 | January goes back to December of the year before, and December forward to January of the year after |
| Navigation.DashboardMonth | plugin-target/wp-training-planner/includes/class-training-frontend.php:53-59 | the shown month is always in 1..12; it is the posted month when that is in 1..12 and the current month otherwise; the year is the posted one, or the current one when none is posted |
| Schedule.Resolve | plugin-target/wp-training-planner/includes/class-training-logic.php:55-81 | only Wednesday, Friday and Saturday have slots; a day has two slots exactly on a Friday or on a summer Wednesday; every slot starts before it ends, and the slots of a day do not overlap and are in start order |
| Schedule.TemplateTopics | plugin-target/wp-training-planner/includes/class-training-logic.php:58-79 | every topic is one of the four labels the generator writes |
| Schedule.WednesdaySlots | plugin-target/wp-training-planner/includes/class-training-logic.php:55-63 | a summer Wednesday has youth training 17:30-19:30, then free play 19:30-22:00; a winter Wednesday has free play 20:00-22:00 alone |
| Schedule.FridaySlots | plugin-target/wp-training-planner/includes/class-training-logic.php:64-73 | a summer Friday has youth training 17:30-19:30, then adult training 19:30-22:00; a winter Friday has youth training 17:00-19:00, then adult training 20:30-22:15 |
| Schedule.SaturdaySlot | plugin-target/wp-training-planner/includes/class-training-logic.php:75-81 | Saturday has one slot, 10:00 to 12:00, 'Offen' in summer and youth training in winter |
| Tables.SessionsInAppend | plugin-target/wp-training-planner/includes/class-training-logic.php:37-41 | the month filter of two tables in sequence is the filter of each, in sequence |
| Tables.SessionsInMembers | plugin-target/wp-training-planner/includes/class-training-logic.php:37-45 | the month filter keeps exactly the rows of the month, and it is empty exactly when the existence check finds no row |
| Tables.FindSession | plugin-target/wp-training-planner/includes/class-training-frontend.php:238-241 | the lookup by id finds the first row with that id, or reports that no row has it |
| Logic.NewSession | plugin-target/wp-training-planner/includes/class-training-logic.php:114-129 | the row `create_session` inserts (specification function); Logic.DayShape and Store.Store.CreateSession state its date, slot, default venue, no trainer and no confirmation |
| Logic.MonthPlan | plugin-target/wp-training-planner/includes/class-training-logic.php:48-81 | the template slots of each day of the month (specification function); Store.MonthPlanDays states one entry per day, being the template for that weekday and season, and Logic.MonthPlanOrdered states the slots are ordered |
| Logic.DayRows | plugin-target/wp-training-planner/includes/class-training-logic.php:53-81 | one day's inserts (specification function); Logic.DayShape and Logic.DaySlots state their date, consecutive ids, defaults and exact slots |
| Logic.RowsThrough | plugin-target/wp-training-planner/includes/class-training-logic.php:50-82 | the inserts for days 1..last (specification function); Logic.ThroughShape, Logic.ThroughOrdered and Logic.ThroughMatchesPlan state where they lie, their order and their slots |
| Logic.MonthSessions | plugin-target/wp-training-planner/includes/class-training-logic.php:48-82 | everything one generation inserts (specification function); Logic.MonthShape, Logic.MonthOrdered, Logic.MonthMatchesTemplate and Logic.MonthSessionsNonEmpty state its properties |
| Logic.EnsurePlan | plugin-target/wp-training-planner/includes/class-training-logic.php:84-101 | afterwards the month has a plan; an existing plan keeps its publish flag; a new one is unpublished; no other plan changes |
| Logic.Generate | plugin-target/wp-training-planner/includes/class-training-logic.php:26-45 | it succeeds exactly for a month in 1..12 with no session yet; a refusal changes nothing; a success only appends sessions, leaves availability alone, keeps every existing plan's flag and adds at most this month's plan, unpublished |
| Logic.DayShape | plugin-target/wp-training-planner/includes/class-training-logic.php:114-129 | a day's rows carry that date, consecutive ids, the default venue, no trainer, not confirmed, an end after the start, and increasing start times |
| Logic.DayFromPlan | plugin-target/wp-training-planner/includes/class-training-logic.php:50-82 | a day's rows are rows from the plan dated on that day |
| Logic.ThroughShape | plugin-target/wp-training-planner/includes/class-training-logic.php:50-82 | every row made for days 1..last lies on a day with slots in that range, carries the defaults, and the ids run on from the first id |
| Logic.ThroughOrdered | plugin-target/wp-training-planner/includes/class-training-logic.php:50-82 | rows are made in increasing (day, start time) order |
| Logic.SlotsOnAppend | plugin-target/wp-training-planner/includes/class-training-logic.php:50-82 | the slots found on a day in two tables in sequence are those of each, in sequence |
| Logic.SlotsOnOneDay | plugin-target/wp-training-planner/includes/class-training-logic.php:55-81 | rows all dated on one day show their slots on that day and none on any other |
| Logic.DaySlots | plugin-target/wp-training-planner/includes/class-training-logic.php:114-129 | the rows made for a day carry exactly the template's (start, end, topic) slots, and nothing on other days |
| Logic.ThroughMatchesPlan | plugin-target/wp-training-planner/includes/class-training-logic.php:50-82 | each day in 1..last gets exactly its planned slots in plan order; other days get none |
| Logic.MonthPlanOrdered | plugin-target/wp-training-planner/includes/class-training-logic.php:55-81 | every day's template slots are ordered and do not overlap |
| Logic.FromMonthPlan | plugin-target/wp-training-planner/includes/class-training-logic.php:50-81 | a row taken from the month's plan lies in the month on a Wednesday, Friday or Saturday, with the defaults |
| Logic.MonthShape | plugin-target/wp-training-planner/includes/class-training-logic.php:48-81 | every generated row lies in the month on a day in 1..DaysInMonth that is a Wednesday, Friday or Saturday; it starts before it ends, has the default venue, no trainer and is not confirmed; ids are consecutive from the next auto-increment id |
| Logic.MonthOrdered | plugin-target/wp-training-planner/includes/class-training-logic.php:50-82 | generated rows come in increasing (day, start time) order |
| Logic.MonthMatchesTemplate | plugin-target/wp-training-planner/includes/class-training-logic.php:34-81 | each day of the month gets exactly the template slots for its weekday and the month's season; other days get none |
| Logic.MonthSessionsNonEmpty | plugin-target/wp-training-planner/includes/class-training-logic.php:75-81 | every month yields at least one session, and the first lies in that month |
| Logic.GenerateTwice | plugin-target/wp-training-planner/includes/class-training-logic.php:37-45 | a second generation right after a successful one is refused and leaves the store as it was |
| Logic.AllInMonth | plugin-target/wp-training-planner/includes/class-training-logic.php:37-41 | rows that all lie in a month are their own month filter |
| Logic.GenerateKeepsOtherMonths | plugin-target/wp-training-planner/includes/class-training-logic.php:50-82 | generation never changes the rows of any other month |
| Logic.GenerateFillsMonth | plugin-target/wp-training-planner/includes/class-training-logic.php:50-103 | after a success, the month's rows are exactly the generated ones |
| Logic.AppendFreshIds | plugin-target/wp-training-planner/includes/class-training-logic.php:118-128 | rows numbered from the next id keep ids unique and below the advanced counter |
| Logic.GeneratePreservesValid | plugin-target/wp-training-planner/includes/class-training-logic.php:20-104 | generation keeps session ids unique and below the counter, and keeps availability keys unique |
| Logic.SummerWednesday | plugin-target/wp-training-planner/includes/class-training-logic.php:56-59 | a summer Wednesday gets youth training 17:30-19:30, then free play 19:30-22:00 |
| Admin.Truthy | plugin-target/wp-training-planner/includes/class-training-admin.php:191 | PHP truthiness of a posted string, false only for "" and "0" (specification predicate); Admin.PostedChoice states that the empty choice gives NULL |
| Admin.PostedId | plugin-target/wp-training-planner/includes/class-training-admin.php:190 | the session id read from a posted key (specification function); Admin.PostedChoice, Admin.PostedCopiesAgree and Admin.DeleteNegative state what it reads |
| Admin.PostedTrainer | plugin-target/wp-training-planner/includes/class-training-admin.php:191 | the trainer written for a posted choice (specification function); Admin.PostedChoice, Admin.PostedCopiesAgree and Admin.PostedNegativeTrainer state what it writes |
| Admin.ApplyAssignments | plugin-target/wp-training-planner/includes/class-training-admin.php:188-201 | the loop of UPDATEs in posting order (specification function); Admin.AssignmentsEffect and Admin.AssignmentsKeepConfirmation state its effect, and Store.Store.AssignTrainers is proved equal to it |
| Admin.SaveAssignments | plugin-target/wp-training-planner/includes/class-training-admin.php:179-218 | the save action (specification function); Admin.SaveAssignmentsPreservesValid states that it keeps the invariants, and Store.Store.SaveAssignments is proved equal to it |
| Admin.Without | plugin-target/wp-training-planner/includes/class-training-admin.php:176 | the DELETE by id (specification function); Admin.WithoutMembers and Admin.WithoutKeepsIds state which rows stay |
| Admin.DeleteSession | plugin-target/wp-training-planner/includes/class-training-admin.php:169-178 | the delete action (specification function); Admin.DeleteRemovesExactly, Admin.DeleteCopiesAgree, Admin.DeleteNegative and Admin.DeletePreservesValid state its effect |
| Admin.PostedChoice | plugin-target/wp-training-planner/includes/class-training-admin.php:188-191 | posting back a rendered choice gives the user (NULL for the empty choice or user 0) and reads the session id back, in every copy |
| Admin.PostedCopiesAgree | plugin-import/current/wp-training-planner/includes/class-training-admin.php:109-128 | for a non-negative posted number, `intval` and `absint` give the same id and the same trainer |
| Admin.PostedNegativeTrainer | plugin-import/current/wp-training-planner/includes/class-training-admin.php:124 | a negative trainer value is stored as 0 by the imported copy and as its absolute value by the current copy |
| Admin.Assign | plugin-target/wp-training-planner/includes/class-training-admin.php:193-199 | only rows with the id get the new trainer; every other column and every other row is unchanged |
| Admin.AssignmentsEffect | plugin-target/wp-training-planner/includes/class-training-admin.php:188-201 | saving changes only trainers; each row ends with the trainer of the last pair naming its id, or keeps its own |
| Admin.AssignmentsKeepConfirmation | plugin-target/wp-training-planner/includes/class-training-admin.php:188-201 | reassigning or clearing a trainer leaves the confirmation flag as it was |
| Admin.Publish | plugin-target/wp-training-planner/includes/class-training-admin.php:203-214 | publishing sets the month's flag when its plan exists, creates no plan and changes no other plan |
| Admin.PublishIdempotent | plugin-source/wp-training-planner/includes/class-training-admin.php:163-174 | publishing twice is publishing once, and a published plan stays published |
| Admin.SaveAssignmentsPreservesValid | plugin-import/current/wp-training-planner/includes/class-training-admin.php:122-139 | the save action keeps the tables' invariants |
| Admin.WithoutMembers | plugin-source/wp-training-planner/includes/class-training-admin.php:136 | the DELETE keeps exactly the rows with another id, and deleting an absent id changes nothing |
| Admin.DeleteRemovesExactly | plugin-target/wp-training-planner/includes/class-training-admin.php:169-178 | afterwards the table holds exactly the rows whose id differs from the posted id (for id 0, which the guard stops, that is every row); plans, availability and the counter are untouched, even availability rows naming the deleted session |
| Admin.DeleteCopiesAgree | plugin-import/current/wp-training-planner/includes/class-training-admin.php:109-110 | for a non-negative posted id, the unguarded delete does what the guarded one does (id 0 matches no row) |
| Admin.DeleteNegative | plugin-import/current/wp-training-planner/includes/class-training-admin.php:109-110 | a negative posted id deletes nothing in the imported copy, and the row with its absolute value in the current copy |
| Admin.WithoutKeepsIds | plugin-source/wp-training-planner/includes/class-training-admin.php:133-138 | removing rows keeps ids unique and below the counter |
| Admin.DeletePreservesValid | plugin-target/wp-training-planner/includes/class-training-admin.php:169-178 | the delete action keeps the tables' invariants |
| Frontend.ParseStatus | plugin-target/wp-training-planner/includes/class-training-frontend.php:198-201 | exactly the three spellings 'Yes', 'Maybe' and 'No' are answers |
| Frontend.StatusRoundTrip | plugin-target/wp-training-planner/includes/class-training-frontend.php:199 | every answer reads back as itself |
| Frontend.FindEntry | plugin-target/wp-training-planner/includes/class-training-frontend.php:204-208 | the lookup finds a row with the user and session, or reports that none has them |
| Frontend.FindEntryUnique | plugin-target/wp-training-planner/wp-training-planner.php:68 | under the unique (user, session) key, the row found is the only one with that key |
| Frontend.FindEntrySameKeys | plugin-target/wp-training-planner/includes/class-training-frontend.php:204-208 | tables with the same keys find the same row |
| Frontend.Upsert | plugin-target/wp-training-planner/includes/class-training-frontend.php:203-228 | one valid answer, updating or inserting (specification function); Frontend.UpsertEffect states its effect |
| Frontend.UpsertEffect | plugin-target/wp-training-planner/includes/class-training-frontend.php:203-228 | after one answer the user has exactly one row for the session, holding that answer with its comment kept; all other rows stay in place; a new row is the user's own, appended with an empty comment |
| Frontend.OutcomeCompose | plugin-target/wp-training-planner/includes/class-training-frontend.php:193-229 | the guarantees of two submissions in sequence combine, the later answer winning |
| Frontend.SubmitStatuses | plugin-target/wp-training-planner/includes/class-training-frontend.php:193-229 | the status loop (specification function); Frontend.SubmitEffect and Frontend.OutcomeCompose state its effect, and Store.Store.SaveStatuses is proved equal to it |
| Frontend.LastStatus | plugin-target/wp-training-planner/includes/class-training-frontend.php:194-201 | the last valid answer posted for a session (specification function); Frontend.SubmitEffect states that each answered session ends with it |
| Frontend.SubmitEffect | plugin-target/wp-training-planner/includes/class-training-frontend.php:193-229 | the keys stay unique; each answered session has one row with the last valid answer; unanswered sessions and other users' rows are untouched; invalid answers are skipped; any session id is accepted |
| Frontend.IsConfirmKey | plugin-target/wp-training-planner/includes/class-training-frontend.php:234 | the `strpos(...) === 0` test (specification predicate); Frontend.ConfirmKeyRoundTrip states that every rendered button passes it |
| Frontend.KeySessionId | plugin-target/wp-training-planner/includes/class-training-frontend.php:235 | the id read from a confirm key (specification function); Frontend.ConfirmKeyRoundTrip states that a rendered button reads back as its session id |
| Frontend.LooseEquals | plugin-target/wp-training-planner/includes/class-training-frontend.php:243 | the loose `==` on the stored trainer (specification predicate); Frontend.StoredGuardRedundant and Frontend.GuardRedundant state what it decides |
| Frontend.ConfirmKeyRoundTrip | plugin-target/wp-training-planner/includes/class-training-frontend.php:234-235 | the rendered button name is recognised as a confirm key and read back as the session id |
| Frontend.MarkConfirmed | plugin-target/wp-training-planner/includes/class-training-frontend.php:244-253 | only the row with the id assigned to the user becomes confirmed; nothing else changes |
| Frontend.ConfirmKey | plugin-target/wp-training-planner/includes/class-training-frontend.php:233-256 | one posted key never changes the number of rows |
| Frontend.StoredGuardRedundant | plugin-target/wp-training-planner/includes/class-training-frontend.php:238-243 | with unique ids, the loose check on the stored trainer decides nothing that the UPDATE's own condition does not |
| Frontend.GuardRedundant | plugin-target/wp-training-planner/includes/class-training-frontend.php:233-256 | a confirm key confirms its session exactly when it is assigned to the user |
| Frontend.ConfirmAll | plugin-target/wp-training-planner/includes/class-training-frontend.php:233-256 | the confirmation loop never changes the number of rows |
| Frontend.PressedCons | plugin-target/wp-training-planner/includes/class-training-frontend.php:233-234 | a session is pressed when the first key names it or a later key does |
| Frontend.ConfirmKeyEffect | plugin-target/wp-training-planner/includes/class-training-frontend.php:233-256 | one key confirms exactly the user's own session that it names; only the flag changes |
| Frontend.ConfirmAllEffect | plugin-target/wp-training-planner/includes/class-training-frontend.php:233-256 | only confirmation flags change; a session ends confirmed exactly when it was, or when it is assigned to the user and a posted key names it; the trainer never changes |
| Frontend.ConfirmAllIdempotent | plugin-target/wp-training-planner/includes/class-training-frontend.php:233-256 | posting the same keys again changes nothing more |
| Frontend.ConfirmButtonWorks | plugin-target/wp-training-planner/includes/class-training-frontend.php:142-149 | pressing an offered button confirms that session, and it is offered only for the user's own unconfirmed session |
| Frontend.RowsOf | plugin-target/wp-training-planner/includes/class-training-frontend.php:92-95 | the query returns exactly the user's rows |
| Frontend.UserAnswers | plugin-target/wp-training-planner/includes/class-training-frontend.php:96-99 | the loop builds the answer map of the user's rows |
| Frontend.AnswerMap | plugin-target/wp-training-planner/includes/class-training-frontend.php:96-99 | the answer map of the dashboard (specification function); Frontend.AnswerMapKeys, Frontend.AnswerShown and Frontend.UserAnswers state its keys and values |
| Frontend.AnswerMapKeys | plugin-target/wp-training-planner/includes/class-training-frontend.php:96-99 | the map holds exactly the sessions of the rows, each with a row for that session |
| Frontend.AnswerShown | plugin-target/wp-training-planner/includes/class-training-frontend.php:96-99 | with the unique key, the answer shown for a session is the user's one row for it |
| Store.Store.constructor | plugin-target/wp-training-planner/wp-training-planner.php:45-87 | a fresh installation has empty tables, the counter at 1, and the invariants hold |
| Store.Store.CreateSession | plugin-target/wp-training-planner/includes/class-training-logic.php:114-129 | one row is appended with the next id, the slot, the default venue and the schema defaults; the counter advances by one |
| Store.Store.GenerateMonthSessions | plugin-target/wp-training-planner/includes/class-training-logic.php:20-104 | the result and the new tables are those of Logic.Generate; the invariants are kept |
| Store.Store.CreateMonth | plugin-target/wp-training-planner/includes/class-training-logic.php:48-82 | the day loop appends exactly the month's generated rows |
| Store.Store.CreateDays | plugin-target/wp-training-planner/includes/class-training-logic.php:50-82 | walking days 1..numDays appends each day's planned rows, in day order |
| Store.Store.CreateDay | plugin-target/wp-training-planner/includes/class-training-logic.php:53-81 | one day's inserts append its rows in template order |
| Store.Store.DeleteSession | plugin-target/wp-training-planner/includes/class-training-admin.php:169-178 | the new tables are those of Admin.DeleteSession; the invariants are kept |
| Store.Store.SaveAssignments | plugin-target/wp-training-planner/includes/class-training-admin.php:179-218 | the new tables are those of Admin.SaveAssignments; the invariants are kept |
| Store.Store.AssignTrainers | plugin-target/wp-training-planner/includes/class-training-admin.php:188-201 | the loop of UPDATEs applies the posted pairs in order |
| Store.Store.HandleAvailabilitySubmission | plugin-target/wp-training-planner/includes/class-training-frontend.php:188-257 | availability becomes the submitted statuses and sessions the confirmed ones; plans and the counter stay; the invariants are kept |
| Store.Store.SaveStatuses | plugin-target/wp-training-planner/includes/class-training-frontend.php:193-229 | the status loop performs exactly the specified upserts |
| Store.Store.ConfirmSessions | plugin-target/wp-training-planner/includes/class-training-frontend.php:233-256 | the confirmation loop performs exactly the specified confirmations |
| Store.MonthPlanDays | plugin-target/wp-training-planner/includes/class-training-logic.php:48-53 | the month's plan has one entry per day, and that entry is the template for the day's weekday and season |
| Store.GenerateSucceeds | plugin-target/wp-training-planner/includes/class-training-logic.php:48-103 | a generation that is not refused appends the month's rows and ensures the plan row |
| Store.SubmissionPreservesValid | plugin-target/wp-training-planner/wp-training-planner.php:59-69 | a submission keeps availability keys unique and session ids unchanged |
| Text.Decimal | plugin-target/wp-training-planner/includes/class-training-admin.php:87 | the decimal spelling of a number is non-empty, all digits, and has no leading zero unless the number is 0 |
| Text.DecimalValue | plugin-target/wp-training-planner/includes/class-training-frontend.php:146 | the decimal spelling denotes the number |
| Text.DecimalInjective | plugin-target/wp-training-planner/includes/class-training-admin.php:87 | different numbers are never written alike |
| Text.DecimalLength | plugin-target/wp-training-planner/includes/class-training-logic.php:51 | a number below 10^k takes at most k digits |
| Text.Padded | plugin-target/wp-training-planner/includes/class-training-logic.php:51 | zero-filled output is all digits, at least `width` long, and no longer than needed |
| Text.LeadingZerosValue | plugin-target/wp-training-planner/includes/class-training-logic.php:51 | leading zeros do not change the value |
| Text.PaddedValue | plugin-target/wp-training-planner/includes/class-training-logic.php:51 | padding keeps the value, and a number below 10^width fills exactly `width` places |
| Text.DigitPrefixAll | plugin-target/wp-training-planner/includes/class-training-frontend.php:235 | a string of digits is its own digit prefix |
| Text.IntVal | plugin-import/current/wp-training-planner/includes/class-training-admin.php:109 | PHP `intval` of a string (specification function); Text.IntValDecimal and Text.IntValNonNumeric state what it reads |
| Text.AbsInt | plugin-target/wp-training-planner/includes/class-training-admin.php:173 | WordPress `absint` (specification function); Text.IntValDecimal states that it reads a decimal spelling back, and Admin.PostedNegativeTrainer how it treats a sign |
| Text.IntValDecimal | plugin-target/wp-training-planner/includes/class-training-frontend.php:235 | `intval` and `absint` read a decimal spelling back as its number |
| Text.IntValNonNumeric | plugin-target/wp-training-planner/includes/class-training-frontend.php:235 | text that does not start like a number reads as 0 |
| Text.ReplaceAll | plugin-target/wp-training-planner/includes/class-training-frontend.php:235 | PHP `str_replace` for one search string (specification function); Text.ReplaceCharStep, Text.ReplaceCharSingle, Text.ReplaceCharAppend, Text.ReplaceCharAbsent, Text.ReplaceAllNoStart and Text.ReplacePrefix state its effect |
| Text.ReplaceCharStep | plugin-target/wp-training-planner/includes/class-training-admin.php:117 | a single-character `str_replace` treats the first character, then the rest |
| Text.ReplaceCharSingle | plugin-target/wp-training-planner/includes/class-training-admin.php:117 | one character is replaced exactly when it is the searched one |
| Text.ReplaceCharAppend | plugin-target/wp-training-planner/includes/class-training-admin.php:117 | a single-character `str_replace` distributes over concatenation |
| Text.ReplaceCharAbsent | plugin-target/wp-training-planner/includes/class-training-admin.php:117 | text without the searched character is unchanged |
| Text.ReplaceAllNoStart | plugin-target/wp-training-planner/includes/class-training-frontend.php:235 | text without the first character of the search string is unchanged |
| Text.ReplacePrefix | plugin-target/wp-training-planner/includes/class-training-frontend.php:235 | removing the prefix from a text that has no other occurrence of it leaves the rest |
| Text.Join | plugin-target/wp-training-planner/includes/class-training-admin.php:105 | PHP `implode` (specification function); Text.JoinStart, Text.JoinEnd and Text.SplitJoin state its shape and that cutting at the separator undoes it |
| Text.SplitCrlf | plugin-target/wp-training-planner/includes/class-training-admin.php:105 | cutting at CR LF gives at least one piece |
| Text.SplitNoLf | plugin-target/wp-training-planner/includes/class-training-admin.php:105 | a text without LF is a single piece |
| Text.SplitAfterLine | plugin-target/wp-training-planner/includes/class-training-admin.php:105 | a line without LF followed by CR LF is cut off as one piece |
| Text.NoLfAppend | plugin-target/wp-training-planner/includes/class-training-admin.php:72-98 | lines without LF stay so when lists are joined |
| Text.SplitJoin | plugin-target/wp-training-planner/includes/class-training-admin.php:105 | cutting CR LF-joined lines that hold no LF gives the lines back |
| Text.JoinStart | plugin-target/wp-training-planner/includes/class-training-admin.php:105 | the joined text starts with the first line and the separator |
| Text.JoinEnd | plugin-target/wp-training-planner/includes/class-training-admin.php:105 | the joined text ends with the last line |
| Ics.EscapeIcs | plugin-target/wp-training-planner/includes/class-training-admin.php:115-118 | `escape_ics` as written (specification function); Ics.EscapeIcsPerCharacter states it equals the per-character escape, so by Ics.Escape and Ics.UnescapeEscape it holds no LF and reads back as its input |
| Ics.Escape | plugin-target/wp-training-planner/includes/class-training-admin.php:115-118 | an escaped value never holds a raw LF |
| Ics.EscapeIcsAppend | plugin-target/wp-training-planner/includes/class-training-admin.php:117 | the four passes distribute over concatenation |
| Ics.EscapeIcsChar | plugin-target/wp-training-planner/includes/class-training-admin.php:117 | on one character, the four passes give that character's escape: backslash, comma, semicolon and LF are escaped, CR and everything else are kept |
| Ics.EscapeIcsPerCharacter | plugin-target/wp-training-planner/includes/class-training-admin.php:115-118 | the sequential `str_replace` equals the per-character map, because backslash is replaced first |
| Ics.UnescapeStep | plugin-target/wp-training-planner/includes/class-training-admin.php:117 | reading back an escaped character, then the rest, gives that character, then the rest |
| Ics.UnescapeEscape | plugin-source/wp-training-planner/includes/class-training-admin.php:82-84 | every escaped value reads back as the original text |
| Ics.UnescapeBareComma | plugin-import/current/wp-training-planner/includes/class-training-admin.php:50-52 | an unescaped comma in a text without backslashes is not a TEXT value |
| Ics.Stamp | plugin-target/wp-training-planner/includes/class-training-admin.php:73-74 | the `Ymd\THis` stamp (specification function); Ics.StampNoLf and Ics.StampInjective state that it holds no LF and tells moments apart |
| Ics.Two | plugin-target/wp-training-planner/includes/class-training-admin.php:74 | a number below 100 takes two digits that denote it |
| Ics.Clock | plugin-target/wp-training-planner/includes/class-training-admin.php:74 | the time of day takes six digits |
| Ics.DateDigits | plugin-target/wp-training-planner/includes/class-training-admin.php:74 | the date part is all digits |
| Ics.ClockInjective | plugin-target/wp-training-planner/includes/class-training-admin.php:74 | different times of day have different texts |
| Ics.TimeFields | plugin-target/wp-training-planner/includes/class-training-admin.php:74 | a time of day is its hours, minutes and seconds |
| Ics.DateDigitsInjective | plugin-target/wp-training-planner/includes/class-training-admin.php:74 | different dates in years below 10000 have different texts |
| Ics.StampInjective | plugin-target/wp-training-planner/includes/class-training-admin.php:73-81 | different moments in years below 10000 have different stamps |
| Ics.EndOf | plugin-target/wp-training-planner/includes/class-training-admin.php:76-81 | DTEND is a valid date and time |
| Ics.EndTwoHoursLater | plugin-target/wp-training-planner/includes/class-training-admin.php:76-81 | without a stored end the event ends exactly 7200 seconds after the start, rolling into the next day if need be; with one it ends on the start's date at that time |
| Ics.TrainerName | plugin-target/wp-training-planner/includes/class-training-admin.php:83-84 | the display name, or Unknown (specification function); Ics.SummaryRecoverable states what SUMMARY then reads back as |
| Ics.Uid | plugin-target/wp-training-planner/includes/class-training-admin.php:87 | the event UID of each copy (specification function); Ics.UidNoLf, Ics.UidDeterminesId and Ics.ImportUidDeterminesId state that it holds no LF and names one session |
| Ics.Field | plugin-target/wp-training-planner/includes/class-training-admin.php:91-93 | a TEXT value, escaped except in the imported copy (specification function); Ics.FieldNoLf, Ics.FieldRecoverable and Ics.ImportLocationUnreadable state the difference |
| Ics.EventOf | plugin-target/wp-training-planner/includes/class-training-admin.php:72-93 | the values written for one row (specification function); Ics.EventOfPlain, Ics.SummaryRecoverable, Ics.LocationRecoverable and Ics.EndTwoHoursLater state them |
| Ics.VEvent | plugin-target/wp-training-planner/includes/class-training-admin.php:86-95 | a VEVENT has ten lines, from BEGIN:VEVENT to END:VEVENT |
| Ics.Header | plugin-target/wp-training-planner/includes/class-training-admin.php:47-70 | every copy's header has at least five lines, starting BEGIN:VCALENDAR and VERSION:2.0 |
| Ics.Lines | plugin-target/wp-training-planner/includes/class-training-admin.php:47-98 | the content lines of the export (specification function); Ics.EventBlock and Ics.ExportCoversMonth state their layout |
| Ics.Document | plugin-target/wp-training-planner/includes/class-training-admin.php:105 | the joined document (specification function); Ics.DocumentLines states that it cuts back into its lines, and Ics.ExportIcs is proved equal to it |
| Ics.Blocks | plugin-target/wp-training-planner/includes/class-training-admin.php:72-96 | one ten-line block per row |
| Ics.ExportIcs | plugin-target/wp-training-planner/includes/class-training-admin.php:72-105 | the export loop produces the specified document |
| Ics.EventBlock | plugin-target/wp-training-planner/includes/class-training-admin.php:47-98 | the document is the header, then ten lines per row in row order (line j of block k is line j of row k's VEVENT), then END:VCALENDAR |
| Ics.StampNoLf | plugin-target/wp-training-planner/includes/class-training-admin.php:88-90 | a stamp holds no LF |
| Ics.UidNoLf | plugin-target/wp-training-planner/includes/class-training-admin.php:87 | a UID holds no LF |
| Ics.FieldNoLf | plugin-target/wp-training-planner/includes/class-training-admin.php:91-93 | an escaped field holds no LF |
| Ics.EventOfPlain | plugin-target/wp-training-planner/includes/class-training-admin.php:83-93 | in the escaping copies no value of an event holds an LF, whatever the stored texts are |
| Ics.VEventNoLf | plugin-target/wp-training-planner/includes/class-training-admin.php:86-95 | an event whose values hold no LF has no line that does |
| Ics.HeaderNoLf | plugin-target/wp-training-planner/includes/class-training-admin.php:47-98 | no header line and not the closing line holds an LF |
| Ics.DocumentLines | plugin-target/wp-training-planner/includes/class-training-admin.php:105 | in the escaping copies, cutting the document at CR LF gives exactly the lines it was built from |
| Ics.FieldRecoverable | plugin-target/wp-training-planner/includes/class-training-admin.php:91-93 | an escaped field reads back as its text |
| Ics.SummaryRecoverable | plugin-target/wp-training-planner/includes/class-training-admin.php:83-91 | SUMMARY reads back as 'Training: ' and the trainer name, or 'Unknown' when no user has the trainer id |
| Ics.SummaryLine | plugin-target/wp-training-planner/includes/class-training-admin.php:91 | line six of an event is SUMMARY: and its value |
| Ics.LocationLine | plugin-target/wp-training-planner/includes/class-training-admin.php:93 | line eight of an event is LOCATION: and its value |
| Ics.LocationRecoverable | plugin-target/wp-training-planner/includes/class-training-admin.php:93 | in the escaping copies LOCATION reads back as the session's venue |
| Ics.ImportLocationUnreadable | plugin-import/current/wp-training-planner/includes/class-training-admin.php:52 | in the imported copy, the venue every generated session carries, with its comma, makes LOCATION no TEXT value |
| Ics.DescriptionBreaks | plugin-import/current/wp-training-planner/includes/class-training-admin.php:51 | a DESCRIPTION holding CR LF is cut into two lines |
| Ics.ImportTopicBreaksLine | plugin-import/current/wp-training-planner/includes/class-training-admin.php:51-62 | in the imported copy, a topic holding CR LF would cut the DESCRIPTION line in two; no handler writes such a topic, as topics come only from the template |
| Ics.ImportSummaryUnreadable | plugin-import/current/wp-training-planner/includes/class-training-admin.php:43-50 | in the imported copy, a comma in the trainer's name makes SUMMARY no TEXT value |
| Ics.LeadingNumber | plugin-target/wp-training-planner/includes/class-training-admin.php:87 | two texts that start with digits, then the same kind of non-digit, share the leading number |
| Ics.UidDeterminesId | plugin-target/wp-training-planner/includes/class-training-admin.php:87 | equal UIDs in the current copies mean equal session ids |
| Ics.ImportUidDeterminesId | plugin-import/current/wp-training-planner/includes/class-training-admin.php:46 | equal UIDs in the imported copy mean equal session ids, for years of four digits |
| Ics.Exported | plugin-target/wp-training-planner/includes/class-training-admin.php:41-45 | the WHERE clause of the export query (specification predicate); Ics.Selected states that the selection holds exactly the rows it admits |
| Ics.QueryResult | plugin-target/wp-training-planner/includes/class-training-admin.php:41-45 | what the query may return, in the order each copy sorts (specification predicate); Ics.ExportCoversMonth states the export of any such result |
| Ics.Selected | plugin-target/wp-training-planner/includes/class-training-admin.php:41-45 | the selection holds exactly the sessions of the month that have a trainer |
| Ics.ExportCoversMonth | plugin-target/wp-training-planner/includes/class-training-admin.php:41-96 | the document has the header, ten lines per selected session and the closing line; every event is a session of the month with a trainer, and every such session is exported |
| ZipNames.Normalize | scripts/test-extract.py:23-24 | the normalised member name (specification function); ZipNames.NormalizeClean, ZipNames.CleanIsNormal, ZipNames.NormalizeIdempotent and ZipNames.SeparatorsAgree state its properties |
| ZipNames.IsDirectory | scripts/test-extract.py:26 | `endswith('/')` (specification predicate); ZipNames.DirectoryIff states when a member is a directory |
| ZipNames.ActionFor | scripts/test-extract.py:23-31 | the action for one member (specification function); ZipNames.ActionClean and ZipNames.ExtractActions state its path and kind |
| ZipNames.Slashes | scripts/test-extract.py:23 | every backslash becomes a slash, and every other character is kept |
| ZipNames.ReplaceBackslashes | scripts/test-extract.py:23 | `replace('\\', '/')` is that per-character map |
| ZipNames.StripSeparators | scripts/test-extract.py:24 | the stripped name does not start with a separator |
| ZipNames.StripSuffix | scripts/test-extract.py:24 | what `lstrip` leaves is a suffix of the name |
| ZipNames.NormalizeClean | scripts/test-extract.py:23-24 | a normalised name holds no backslash and does not start with a separator |
| ZipNames.CleanIsNormal | scripts/test-extract.py:23-24 | a clean name is its own normal form |
| ZipNames.NormalizeIdempotent | scripts/test-extract.py:23-24 | normalising twice is normalising once |
| ZipNames.SeparatorsAgree | scripts/test-extract.py:38-64 | names that differ only in slash or backslash normalise alike |
| ZipNames.StripKeepsEnd | scripts/test-extract.py:24 | stripping leaves something exactly when the name has a non-separator, and keeps the last character |
| ZipNames.SlashesKeepNames | scripts/test-extract.py:23 | the slash spelling has a name where the original has one, and ends in a slash exactly where the original ends in a separator |
| ZipNames.DirectoryIff | scripts/test-extract.py:26-31 | an entry is a directory exactly when its name ends in a slash or a backslash and is not all separators |
| ZipNames.ExtractActions | scripts/test-extract.py:22-31 | the loop makes one action per member, in order, each at a clean path |
| ZipNames.ActionClean | scripts/test-extract.py:26-31 | an action's path is the normalised name, and it is clean |
| ZipNames.ExampleReadme | scripts/test-extract.py:41 | the backslash-separated README name is written as a file at its slash path |
| ZipNames.ExampleReadmeSlash | scripts/test-extract.py:56 | the slash-separated README name is written as a file at the same path |
| ZipNames.ExampleStyle | scripts/test-extract.py:40 | the backslash-separated stylesheet name is written as a file at its slash path |
| ZipNames.ExampleStyleSlash | scripts/test-extract.py:55 | the slash-separated stylesheet name is written as a file at the same path |
| ZipNames.ExampleName | scripts/test-extract.py:38-64 | a name that is a clean file path up to separators is written as a file at that path |

## Left out

- Frontend.ConfirmKey: its contract only states that the row count is kept. What a key does is stated by Frontend.ConfirmKeyEffect and Frontend.GuardRedundant.
- Frontend.ConfirmAll: its contract only states that the row count is kept. Its effect is stated by Frontend.ConfirmAllEffect.
- Text.SplitCrlf: its contract only states that there is at least one piece. How it cuts is stated by Text.SplitNoLf, Text.SplitAfterLine and Text.SplitJoin.
- Ics.Header: its contract states only the first two lines. The exact lines of each copy are the constants `Preamble`, `Daylight`, `Standard` and `ImportHeader`.
- Ics.StampInjective, Ics.DateDigitsInjective: years are taken below 10000. For longer years `Y` writes more digits, and different moments are not shown to stay apart.
- Ics.ImportUidDeterminesId: same restriction to years below 10000, because the date comes first in this UID.
- Calendar.DaysInMonth, Logic.Generate: the generator takes the month length from `date('t', mktime(0, 0, 0, m, 1, y))` (plugin-target/wp-training-planner/includes/class-training-logic.php:48), and `mktime` reads years 0 to 69 as 2000 to 2069 and years 70 to 100 as 1970 to 2000. That does not change whether years 0 to 99 are leap years, so the one difference is February of year 100: the source makes 29 days, the model 28. The weekday is unaffected: `strtotime` reads the zero-padded year of the date string as written, and Calendar.Weekday counts the proleptic Gregorian calendar from year 1 in the same way.
- Calendar.Date, Logic.Generate: years are unbounded. The `date` column holds years up to 9999, and MySQL in non-strict mode stores `0000-00-00` for a later date; the model accepts every year, and how PHP parses a five-digit year is not modelled.
- Frontend.SubmitStatuses: ids are unbounded. The `mediumint(9)` id columns (plugin-target/wp-training-planner/wp-training-planner.php:46-82) hold at most 8388607, and non-strict MySQL clips a larger value to that. So `status[9000000]` and `status[9000001]` are both stored under 8388607, and the second insert fails on the unique (user, session) key, while the model keeps two rows. Session ids and the counter of Store.Store.CreateSession are likewise unbounded.
- Ics.EventOf, Ics.ExportIcs: the source reads the clock for DTSTAMP once per VEVENT (plugin-target/wp-training-planner/includes/class-training-admin.php:88). The model takes one reading `now` for every event, so an export whose events straddle a second boundary is not modelled.
- Generator input: year and month arrive as numbers. The `absint` of the POSTed strings in the generate action is not modelled.
- Clock: the DTSTAMP reading and the `date('Y')`/`date('n')` defaults are the parameter `now`. Times are naive wall-clock seconds, as WordPress runs PHP in UTC, so `strtotime` and `gmdate` cancel out.
- Stored end time: `end_time` is either absent or a time of day. An end time earlier than the start is kept as written, and no DTEND rollover is modelled for it.
- Line folding: the export folds no line (section 3.1 of RFC 5545), and neither does the model. Long lines are not claimed to be within 75 octets.
- Ics.Unescape: reads CR as an ordinary character and does not unfold lines, so a CR in a text reads back as a CR.
- `sanitize_text_field`: not modelled. Statuses, topics and dates are taken as stored; stripped tags and whitespace are outside the model.
- `intval` of strings: exponent notation and the 64-bit range are not modelled; integers are unbounded.
- Capabilities and nonces: `current_user_can`, `check_admin_referer` and `wp_verify_nonce` are not modelled. Every handler is taken as authorised.
- Output: `header`, `echo`, `exit`, settings messages, translation through `__` and all HTML rendering are not modelled. The topic strings are the untranslated ones.
- Queries: the SQL text is not modelled. The export's query result is a parameter constrained to the month's assigned sessions, sorted by date and time where the copy's query sorts them.
- User lookup: `get_userdata` is a map from user id to display name.
- Concurrency: the race between the existence check and the inserts of the generator is not modelled. The model runs each request atomically.
- Import copy: as shipped it does not load. Its wp-training-planner.php:18 loads includes/class-training-logic.php, where the `}` at line 76 closes the method early and leaves `return true;` (line 78) in the class body, a parse error that stops the plugin. The model still takes the copy's admin handlers as written, to compare them with the current copies. Its generator and dashboard handler are not part of this model, and the target generator stands for all copies.
- Archive I/O: the archive building, `os.makedirs`, file copying and temporary directories of the extraction script are not modelled. `ZipNames.ActionFor` gives the action per member.
- Plugin export: the development copy's ZIP export of the plugin is not part of this model.

## Findings

| source | as written | input that shows it | evidently intended | confidence | as-written member | corrected member |
|---|---|---|---|---|---|---|
| plugin-import/current/wp-training-planner/includes/class-training-admin.php:52 | LOCATION is written raw, without the TEXT escaping of section 3.3.11 of RFC 5545 (as SUMMARY and DESCRIPTION are at lines 50-51); the copy as shipped does not load at all, because its class-training-logic.php leaves `return true;` in the class body (lines 76-78) | every generated session: its venue "Sporthalle Gymnasium, Tettnang" (class-training-logic.php:92) holds a bare comma | LOCATION reads back as the venue | not executed | Ics.ImportLocationUnreadable | Ics.LocationRecoverable |
| plugin-import/current/wp-training-planner/includes/class-training-admin.php:43-50 | the trainer name is concatenated into SUMMARY raw; the copy as shipped does not load at all, because its class-training-logic.php leaves `return true;` in the class body (lines 76-78) | a trainer named "Doe, Jane" | SUMMARY reads back as 'Training: ' and the name | not executed | Ics.ImportSummaryUnreadable | Ics.SummaryRecoverable |
