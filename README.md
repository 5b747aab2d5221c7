# Timetable allocation and grid consistency, in Dafny

This project models the scheduling engine of a small school-timetable web
application (`app.py`). The week is a fixed grid: five weekdays, seven hour
rows (one of them a lunch row), and five year groups. One session fills one
grid cell, meaning one (day, slot, year group). Each session needs a skill and
may have a teacher. A teacher has a name, a set of skill ids, and a
free-text list of the hours they are free (for example `"Mon 09:00-10:00;
Tue 10:00"`).

The model covers the following parts of the engine:

- **Vocabulary.** The fixed lists of days, year groups, time rows, teaching
  slots and day abbreviations.
- **Availability matcher.** The free-slot text is split on `|`, `;` and `,`,
  and each piece is normalized (lower case, trimmed, single spaces). A
  teacher is free for an hour exactly when one normalized token equals one of
  at most six accepted spellings of that hour. This part also covers the
  "free all week" default text and the parsing of the active-day parameter.
- **Grid repair.** The startup pass merges duplicate sessions of one cell and
  clears double bookings. The per-cell lookup used by the editor collapses a
  cell to its lowest-id session, or creates that session.
- **Allocator.** A deterministic greedy pass, in these steps:
  1. It clears every grid assignment.
  2. It visits the grid sessions in (day, slot, year group) order.
  3. It gives each session the free, skilled and available teacher with the
     least (load, lower-cased name).
  4. It counts assigned and unassigned sessions.
- **Grid view.** `build_schedule` gives, for every cell and every teacher, the
  flags `available`, `busy`, `has_skill`, `selectable` and `selected`.
- **Edit rules.** The validation sequence for saving a cell, clearing a cell,
  deleting a teacher (their sessions are released) and deleting a skill (this
  is refused while a session requires the skill).

The modules are:

| module | file | contents |
|---|---|---|
| `Vocabulary` | `vocabulary.dfy` | the fixed constants |
| `Text` | `text.dfy` | `normalize`, `split_multi_value_field`, a join, and a code-point string order |
| `Availability` | `availability.dfy` | slot aliases, teacher tokens, `default_free_slots`, `parse_active_day` |
| `Records` | `records.dfy` | teachers, skills, sessions, grid membership, the allocator's sort key |
| `Selection` | `selection.dfy` | selecting rows by flags |
| `Grid` | `grid.dfy` | the dedup pass and the cell lookup, as functions of the store |
| `Allocation` | `allocation.dfy` | the allocator, as a function of the store and the teachers |
| `Allocator` | `allocator.dfy` | the loop methods of one allocator pass |
| `Schedule` | `schedule.dfy` | `build_schedule` |
| `Edits` | `edits.dfy` | save, clear and the two deletions, as functions from tables to outcomes |
| `Store` | `store.dfy` | class `Timetable`, whose methods change the tables in place |

The store keeps the sessions table as a sequence in primary-key order, with
strictly increasing ids. Ids are positive integers, so "an id was given" and
"the id is non-zero" agree, as Python truthiness makes them agree in the
source. Each imperative method of `Store.Timetable` is proved to leave the
tables exactly as the matching function of the old tables says. The
properties of the engine are proved as lemmas about those functions.

## Model

| member | source | states |
|---|---|---|
| Vocabulary.VocabularyValues | app.py:27-52 | The year groups and teaching slots are the listed values. There are 7 time rows, and only row 4 (12:00-13:00) is lunch. Every weekday, and nothing else, has an abbreviation. |
| Vocabulary.TimeRowSpans | app.py:36-44 | Time row k covers hour 8+k to 9+k, written `HH:00-HH:00`. |
| Vocabulary.VocabularySizes | app.py:27-45 | There are 5 days, 6 teaching slots, 5 year groups and 7 time rows. |
| Text.Normalize | app.py:299-300 | The result is lower case, has no leading, trailing or repeated whitespace, and is empty exactly when the stripped input is empty. |
| Text.NormalizeIdempotent | app.py:299-300 | Normalizing twice gives the same result as normalizing once. |
| Text.NormalizeTwoWords | app.py:299-300 | Two space-free words joined by a space normalize to their lower-cased forms joined by one space. |
| Text.StripSpec | app.py:299-300 | `str.strip` leaves an infix of the input with only whitespace before and after it, and the result neither starts nor ends with whitespace. This pins it down: it is the input with its leading and trailing whitespace removed. |
| Text.Collapse | app.py:299-300 | The result has no run of two whitespace characters, keeps the input's first and last character class, and is empty only for empty input. |
| Text.CollapseScan | app.py:299-300 | Collapsing equals a character-by-character scan: a non-space character is kept, the first whitespace character of each run becomes one space, and the rest of the run is dropped. |
| Text.CollapseKeepsText | app.py:299-300 | Collapsing keeps every non-space character of the input, in order, and adds none. |
| Text.SplitMultiValue | app.py:317-321 | Every piece is non-empty, trimmed and free of `,`, `;` and `\|`. Blank input gives no pieces. |
| Text.SplitJoin | app.py:303 | Splitting the `", "` join of clean tokens gives those tokens back (a round trip). |
| Text.SplitJoinSplit | app.py:303 | Normalizing a slot list (`normalize_slot_csv`) and splitting it again gives the same tokens as splitting the original. |
| Text.StrLessTotal | app.py:451 | The string order used for names is total. |
| Text.StrLessTransitive | app.py:451 | The string order used for names is transitive. |
| Availability.SlotStart | app.py:364 | The start is the prefix of the slot before its first `-`. |
| Availability.ShortStart | app.py:365 | Exactly one leading `'0'` is removed, and nothing else changes. |
| Availability.SlotAliases | app.py:363-375 | A (day, slot) has at most six accepted spellings. |
| Availability.GridSlotAliases | app.py:363-375 | For a grid hour, the aliases are exactly {full day, short day} × {full slot, start, start without a leading zero}, all lower case. |
| Availability.TeacherSlotTokens | app.py:378-379 | Every token of a teacher is non-empty and normalized. |
| Availability.AvailableSingleton | app.py:382-384 | A single token makes a teacher available exactly when it is one of the hour's aliases. |
| Availability.TeacherIsAvailableForSlot | app.py:382-384 | `teacher_is_available_for_slot`: some alias of the hour is among the teacher's tokens. Its behaviour is stated by `AvailableSingleton` and the examples below. |
| Availability.ZerolessStartAccepted | app.py:363-384 | `monday 9:00` matches Monday `09:00-10:00`. |
| Availability.ShortDayFullSlotAccepted | app.py:363-384 | `mon 09:00-10:00` matches Monday `09:00-10:00`. |
| Availability.ZerolessFullSlotRejected | app.py:363-384 | `mon 9:00-10:00` does not match Monday `09:00-10:00`, because only the bare start loses its zero. |
| Availability.TeacherExamples | app.py:363-384 | A teacher free at `Mon 09:00-10:00` is available on Monday 09:00-10:00. One free at `Mon 9:00-10:00` is not. |
| Availability.ParseActiveDay | app.py:349-352 | The result is always a weekday. It is the raw value exactly when that value is a weekday, and otherwise it is Monday. |
| Availability.ParseActiveDayIdempotent | app.py:349-352 | Parsing an already parsed day changes nothing. |
| Availability.DefaultFreeSlots | app.py:355-360 | The loop builds the `", "` join of `"<short day> <slot>"` over every weekday and slot, in week order. |
| Availability.DefaultFreeSlotsSplit | app.py:355-360 | Splitting the default text gives back exactly its day-slot entries. |
| Availability.DefaultFreeSlotsAvailable | app.py:355-384 | A teacher with the default free slots is available at every weekday and teaching slot. |
| Records.GridSessionsMembers | app.py:387-388 | The grid filter keeps exactly the sessions whose day, slot and year group are in the vocabulary, and it keeps no more of them than there are sessions. |
| Records.GridSessionsIdempotent | app.py:387-388 | Filtering the grid a second time changes nothing. |
| Records.RankOrder | app.py:413-416 | The rank of a grid session orders sessions exactly as the sort key (day index, slot index, year-group index) does. |
| Records.RankSameCell | app.py:413-416 | Two grid sessions have the same rank exactly when they are in the same cell. |
| Records.NextId | app.py:395 | A created session gets an id above every existing id. |
| Grid.MergedTeacherSpec | app.py:151-158 | The teacher copied to a kept row is none only when no row of the cell has a teacher. Otherwise it is the teacher of the first such row. |
| Grid.DedupRows | app.py:150-160 | The dedup keeps the rows its merge pass keeps, in order, each repaired. `removed` plus the rows left equals the rows before. |
| Grid.Dedup | app.py:138-167 | `deduplicate_grid_sessions` as written, as a function of the store. Its properties are the `Dedup…` lemmas around it. |
| Grid.DedupOnePerCell | app.py:150-160 | After the dedup, no two sessions share a grid cell. |
| Grid.DedupKeepsCells | app.py:150-160 | Every grid cell that had a session still has one, with an id no greater than any of the cell's old ids. |
| Grid.DedupOutsideGrid | app.py:142 | Sessions outside the grid are kept unchanged, and no new ones appear. |
| Grid.DedupHourRule | app.py:144-167 | A kept row with its own teacher keeps that teacher exactly when it has the lowest id among the grid rows holding that teacher at that hour. Otherwise it loses the teacher. |
| Grid.DedupMergeRule | app.py:151-158 | A kept row with no teacher stays empty only when the whole cell had none. Otherwise it takes the teacher of the lowest-id row of the cell that had one. |
| Grid.DedupIds | app.py:138-167 | The dedup keeps the ids strictly increasing. |
| Grid.DedupClean | app.py:138-173 | On a grid with no duplicate cells and no double bookings, the dedup changes nothing and both counts are 0. |
| Grid.DedupConflictCountsDeleted | app.py:144-167 | `unassigned_conflicts` also counts a duplicate row that the merge already deleted. |
| Grid.DedupDoubleBooking | app.py:144-167 | The dedup as written can leave a teacher on two grid sessions of one hour (see Findings). |
| Grid.CellsMergedOnePerCell | app.py:150-160 | The merge alone leaves one session per grid cell. |
| Grid.DedupFixed | app.py:138-167 | The corrected repair. The conflict pass groups the rows that survive the merge by the teachers they hold after it. `DedupFixedClean` states what it guarantees. |
| Grid.DedupFixedClean | app.py:138-167 | The corrected dedup, which detects conflicts after the merge, always leaves a clean grid: one session per cell and no double booking. |
| Grid.GetOrCreateEmptyCell | app.py:391-396 | For an empty cell, one new session is appended with the next id, the required skill and no teacher. Nothing was deduped. |
| Grid.GetOrCreateFoundCell | app.py:398-405 | Otherwise the lowest-id session of the cell stays in place with the merged teacher. The number deleted is one less than the cell's count, and the store shrinks by that number. |
| Grid.GetOrCreateCell | app.py:391-405 | The cell ends with exactly one session, at the returned index. Every session outside the cell is untouched and in order, and ids stay increasing. |
| Grid.GetOrCreateStable | app.py:391-405 | Looking up the same cell again deletes nothing and changes nothing. |
| Grid.GetOrCreateFrom | app.py:391-405 | Every session other than the returned one was already in the store. |
| Grid.GetOrCreate | app.py:391-405 | `get_or_create_grid_cell_session` as a function of the store. Its properties are the `GetOrCreate…` lemmas above. |
| Allocation.ByNameSorted | app.py:409 | Teachers are ordered by name and form a permutation of the teacher table. |
| Allocation.ByName | app.py:409 | The teachers ordered by name, by a stable insertion sort. `ByNameSorted` states that the result is sorted and a permutation. |
| Allocation.EligibleInGrid | app.py:432-437 | A teacher may take a grid session exactly when they hold its skill and are available at its hour. |
| Allocation.Best | app.py:451-452 | The head after a stable sort has the least (load, lower-cased name) key. Every candidate before it has a strictly larger key. |
| Allocation.Pick | app.py:429-452 | The teacher one visit chooses: the first least-(load, lower-cased name) teacher among the eligible ones not yet busy at the hour, or none. `PickSpec` states this. |
| Allocation.PickSpec | app.py:429-452 | A session stays unassigned exactly when no teacher is free for it. Otherwise it goes to the winner of the sort. |
| Allocation.GridOrderSpec | app.py:409-416 | The pass visits every grid session once and nothing else. The order is by (day, slot, year group), then by id. |
| Allocation.Allocate | app.py:408-456 | `allocate_sessions` as a function of the store and the teachers. It keeps the number of rows. Its other properties are the `Allocate…` lemmas below. |
| Allocation.AllocateShape | app.py:420-454 | The allocator changes only teachers, and it changes nothing outside the grid. |
| Allocation.AllocateIds | app.py:420-454 | Ids stay increasing. |
| Allocation.AllocateSound | app.py:430-454 | Every assigned teacher exists, holds the required skill, and is available at the session's hour. |
| Allocation.AllocateNoDoubleBooking | app.py:430-454 | No teacher gets two grid sessions of the same day and slot. |
| Allocation.AllocateUnassigned | app.py:429-456 | A grid session is unassigned exactly when every skilled, available teacher already has a session of that hour earlier in the pass. |
| Allocation.AssignedSomeFree | app.py:429-456 | An assigned session had some skilled, available teacher who was still free. |
| Allocation.ChoicesNoDoubleBooking | app.py:430-454 | Within the pass, a later session of an hour never gets the teacher of an earlier one. |
| Allocation.AllocateTallies | app.py:420-454 | The teachers written to the grid are exactly the choices of the pass, in visiting order. |
| Allocation.AllocateForgets | app.py:423-424 | The previous grid teachers are discarded first: two stores that differ only in grid teachers are allocated alike. |
| Allocation.AllocateIdempotent | app.py:408-456 | Running the allocator a second time changes nothing. |
| Allocator.AssignVisited | app.py:423-456 | The loop produces the specified allocation. `assigned + unassigned` is the number of grid sessions, `assigned` counts the filled sessions, and each teacher's `assigned_count` equals the number of sessions they got. |
| Allocator.ChooseTeacher | app.py:429-452 | The inner loop and the sort choose the teacher the specification picks. |
| Allocator.FreeTeachers | app.py:429-437 | `matches` lists the free teachers in teacher order. |
| Allocator.LeastLoaded | app.py:451-452 | The chosen index is the least-key candidate. |
| Allocator.ClearVisited | app.py:423-424 | Every grid session loses its teacher, and nothing else changes. |
| Allocator.Visit | app.py:429-456 | Visiting one more session keeps the loop invariant. The session gets the specified choice. The busy sets, the per-teacher counts and both counters record it. |
| Schedule.Lookup | app.py:476 | The cell's session is a grid session of that cell when one exists, and there is none otherwise. |
| Schedule.LookupLast | app.py:476 | When a cell has several sessions, the last one in input order is shown. |
| Schedule.BusyIds | app.py:478-481 | An id is busy at an hour exactly when a grid session of that hour has that teacher. |
| Schedule.ScheduleShape | app.py:486-536 | The view has the 5 weekdays in order. Each day has 7 rows in time order, and the lunch row has no cells. Every other row has one cell per year group, in order. Each cell lists every teacher, in order, with id and name. |
| Schedule.CellSession | app.py:497-531 | A cell shows a session exactly when the cell has one, and then it shows the last one. An empty cell shows no skill, no teacher and no name. |
| Schedule.OptionRules | app.py:502-519 | `selectable` holds exactly when the teacher is available, not busy and has the skill. `available` is the availability test. `selected` means the teacher is the cell's teacher. `busy` never holds for the cell's own teacher, and otherwise means another grid session of the hour has the teacher. `has_skill` holds when no skill is required. |
| Schedule.BusyElsewhere | app.py:478-504 | On a clean grid, `busy` means the teacher holds a session of that hour in another year group. |
| Schedule.BuildSchedule | app.py:470-540 | `build_schedule` as a function of the teachers and the sessions. `ScheduleShape`, `CellSession` and `OptionRules` state its shape and contents. |
| Edits.FormSkill | app.py:881 | A skill is found only for a given, existing id. An absent id, id 0, or an unknown id gives none. |
| Edits.CheckTeacher | app.py:892-920 | The teacher checks run in order: unknown, not available, missing skill, busy. Each refusal reason implies its condition. Accepting means no other session of the hour has the teacher. |
| Edits.SaveAccepted | app.py:876-924 | A save succeeds exactly when the coordinates are in the vocabulary and the skill exists. In addition, either no teacher is given, or the teacher exists, is free, has the skill, and holds no other session of the hour. |
| Edits.SaveReasons | app.py:876-920 | Bad coordinates give `InvalidCoordinates`. A missing skill gives `MissingSkill`. Every teacher rejection implies its cause in the old store. |
| Edits.SaveCell | app.py:887-924 | After a save, the cell has one session carrying the form's skill. It has the form's teacher, or none when no teacher is given. Everything outside the cell is unchanged, and ids stay increasing. |
| Edits.SaveInCellWrites | app.py:890-924 | Writing the cell changes only the cell's row, and only its skill and teacher. |
| Edits.SaveNoDoubleBooking | app.py:911-922 | A save never creates a double booking in a store that had none. |
| Edits.Save | app.py:859-924 | The save route as a function of the old store and the form. `SaveAccepted`, `SaveReasons`, `SaveCell` and `SaveNoDoubleBooking` state its outcome. |
| Edits.ClearCellSpec | app.py:941-949 | Clearing fails exactly when the cell has no session. Otherwise the store keeps exactly the sessions outside the cell and reports how many were deleted (at least 1). |
| Edits.ClearTwice | app.py:941-945 | Clearing a cell a second time finds nothing. |
| Edits.ClearCell | app.py:933-949 | The clear route as a function of the store. `ClearCellSpec` states its outcome. |
| Edits.DeleteTeacherSpec | app.py:847-851 | Deletion fails exactly when no teacher has the id. Otherwise only that teacher's sessions lose their teacher, and the table keeps every other teacher. |
| Edits.ReleaseKeeps | app.py:850 | Releasing a teacher keeps ids increasing and creates no double booking. |
| Edits.DeleteTeacher | app.py:847-851 | The teacher deletion as a function of the tables. `DeleteTeacherSpec` states its outcome. |
| Edits.DeleteSkillSpec | app.py:780-791 | Deletion is refused exactly when the skill exists and a session requires it. Otherwise the skill leaves the table and every teacher, nothing else changes, and sessions still require existing skills. |
| Edits.DeleteSkill | app.py:780-791 | The skill deletion as a function of the tables. `DeleteSkillSpec` states its outcome. |
| Store.MergeCells | app.py:141-160 | The merge loop keeps the specified rows with the merged teacher and counts the deleted duplicates. |
| Store.ClearConflicts | app.py:145-167 | The conflict loop gives the specified dedup result and conflict count. |
| Store.ClearRow | app.py:145-167 | One more row of the conflict pass keeps the pass invariant. A teacher row whose (day, slot, teacher) key was already seen is counted, and it is cleared exactly when it survived the merge. |
| Store.FindCell | app.py:392-393 | The scan stops at the lowest-id session of the cell, or at the end when the cell is empty. |
| Store.CollapseCell | app.py:398-405 | The first session takes the merged teacher and the later sessions of the cell are removed. `deduped` counts them. |
| Store.CollapseRow | app.py:400-404 | One more later session of the cell keeps the loop invariant: it may hand its teacher to the first session, and it is dropped. |
| Store.LookupCell | app.py:391-405 | The sessions, index and count equal the specified cell lookup. |
| Store.CheckTeacherRow | app.py:892-920 | The teacher checks give the specified verdict. |
| Store.SaveInStore | app.py:887-924 | The outcome is the specified save, and a saved store keeps ids increasing. |
| Store.FindConflict | app.py:911-916 | The scan finds a conflicting session exactly when one exists. |
| Store.WriteCell | app.py:890-924 | Writing the cell gives the specified save outcome. |
| Store.DropCell | app.py:941-949 | The loop removes exactly the cell's sessions and counts them. |
| Store.ReleaseTeacher | app.py:850 | The loop releases exactly the teacher's sessions. |
| Store.Timetable.DeduplicateGridSessions | app.py:138-173 | The store becomes the dedup of the old store, with both counts. Teachers and skills are unchanged. |
| Store.Timetable.GetOrCreateGridCellSession | app.py:391-405 | The store and result are those of the cell lookup. |
| Store.Timetable.AllocateSessions | app.py:408-467 | The store becomes the allocation of the old store. The counts add up to the number of grid sessions, and the assigned count is the number of grid sessions that hold a teacher afterwards. |
| Store.Timetable.SaveGridSession | app.py:876-924 | The outcome is the specified save. A rejected save leaves the store as it was. |
| Store.Timetable.ClearGridSession | app.py:941-949 | The outcome is the specified clear. Nothing changes when nothing is found. |
| Store.Timetable.RemoveTeacher | app.py:847-851 | The outcome is the specified deletion. Nothing changes for an unknown id. |
| Store.Timetable.RemoveSkill | app.py:780-791 | The outcome is the specified deletion. Nothing changes when the skill is refused or unknown. Sessions never change. |

## Left out

- HTTP routing, templates, flash messages and redirects are not modelled. Form values arrive as already parsed and stripped values (`Option<int>` for the ids).
- SQLAlchemy, SQLite and transactions are left out. A request that fails after the cell lookup ends without a commit, which the model shows as the store staying unchanged.
- Database bootstrap and repair scheduling are left out: pragmas, indexes, column migration, the legacy year-group migration, the retry loop and the file lock.
- Logging and environment configuration are left out.
- CSV upload decoding and `find_row_value` are left out (byte decoding and a library parser).
- The import post-processing after CSV parsing (skill-name dedup and per-row defaults in the import routes) is not modelled.
- The create and update routes for teachers and skills are not part of this model.
- `parse_int_list` and `split_csv` are not modelled. They are used only by the routes above.
- Text.Normalize: Python's Unicode `lower()` is modelled as ASCII lower-casing. Whitespace is the character set of `str.isspace`, which `\s` also matches.
- Allocation.ByNameSorted: `ORDER BY name` is modelled as code-point order with equal names kept in table order. The database collation is not modelled.
- Schedule.ScheduleShape: a teacher option's `skills` display string (skill names joined by commas) is not modelled, because teachers hold skill ids only.
- Allocation.Allocate: the source keys `teacher_tokens`, `teacher_skill_ids` and `assigned_count` by teacher id. Duplicate teacher ids are not modelled, and a load counter that starts at zero for every teacher is modelled by a default of 0.
- Allocation.GridOrder: `grid_sessions_query()` (app.py:387-388) has no ORDER BY, so the order in which the database returns rows is unspecified. The model breaks ties of the stable sort by store (id) order. Ties arise only between two sessions of one cell, which the unique index on the grid cell (app.py:185) rules out once the startup repair has run.
- Edits.SaveAccepted: this iff is stated under the assumption that teacher ids are unique (the primary key). `Edits.SaveReasons` holds without that assumption.

## Findings

| source | as written | input that shows it | evidently intended | confidence | as-written member | corrected member |
|---|---|---|---|---|---|---|
| app.py:144-167 | The (day, slot, teacher) groups are collected before duplicate cells are merged. A teacher copied onto a kept row from a deleted duplicate is therefore never checked against the other rows of that hour. | Three grid rows at one hour: `a` (cell X, teacher t), `b` (cell Y, no teacher), `c` (a duplicate of Y, teacher t), with ids a < b < c. The merge gives `b` teacher t, and the conflict pass only clears the deleted `c`. | After the repair, no teacher holds two grid sessions of one hour. | not executed | Grid.DedupDoubleBooking | Grid.DedupFixedClean |

`Store.Timetable.DeduplicateGridSessions` keeps the behaviour as written,
because it models the startup repair of the program itself.
`Grid.DedupFixed` is the corrected repair: it merges the cells first and then
clears conflicts over the merged rows. `Grid.DedupFixedClean` proves it.
