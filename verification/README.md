# Course-section scheduler: a Dafny model

This project models the core of a school timetabling tool.

- `milestone2.py` turns loaded tables into three lookups:
  - the lecturer of each course section;
  - the details of each course, with defaults filled in;
  - each course's student requests, sorted by tier (Required, then Requested, then Recommended).
- A two-pass greedy allocator then builds the timetable:
  - **Pass 1** binds the sections each tier needs to blocks and books their lecturers;
  - **Pass 2** seats students, tier by tier and course by course, in the first section with room and a free block.
- The resulting schedule is measured:
  - the satisfaction rate;
  - per-Type counts;
  - section fill rates;
  - average timetable sizes.
- From `milestone1.py` the model takes two pieces:
  - the block scanner over the free-text rules;
  - the counting checks of data validation: the Type tally, the required-course shortfall per college year, the courses nobody requested, and demand against capacity.

## Modules

- **Collections**: options, filters, deduplication, last-write-wins maps, tallies and sums over maps.
- **Text**: Python's string order, strict sorting and `sorted(set(...))`.
- **StableSort**: a stable insertion sort on an integer key.
- **Records**: the input rows and the structured section key `SectionRef(code, num)`.
- **Rules**: the rule extractor.
- **Preprocess**: the three lookups. `Prepared.order` keeps the insertion order of `course_requests`, which the allocator iterates.
- **Allocation**: the allocator's state `Schedule` and the lookups both passes share.
- **SectionPlacement**: Pass 1 and its invariant `Booked`. `Booked` says:
  - every bound section sits in its lecturer's timetable at its block;
  - every lecturer entry is a section of that lecturer at an allowed block;
  - every binding is to an allowed block.
- **StudentPlacement**: Pass 2 and its invariant `Enrolled`. `Enrolled` says:
  - rosters are within capacity;
  - rosters and personal timetables describe the same seats;
  - both hold one entry per resolved request.
- **Scheduler**: both passes together and the agenda of requests Pass 2 handles.
- **Analysis**: the metrics, as exact reals.
- **Validation**: the counting checks of `validate_data`.
- **BlockScanner**: `extract_blocks_from_rules`.
- **Example**: a worked example of the whole allocator on a small input, proved step by step. It has one course, one section of two places and three Required requests. The raw course table, the empty lecturer table and the request table are shown to yield the rules and lookups the example uses. The section is bound to block 1A, two students are seated and the third is turned away.

## How the source's behaviour is represented

- **Missing text fields.** A text field that is missing or falsy is `""`. In `milestone2.py` this loses nothing: those fields are read with `.get` and only tested for truthiness. `validate_data` in `milestone1.py` indexes some of them directly, so there a missing key raises `KeyError`; see "Left out". A request's Type is an `Option`, because three readers use three different defaults:
  - `'Recommended'` when ranking;
  - `''` when filtering by tier;
  - `'Unknown'` when counting.
- **Section keys.** The source's `f"{code}_{n}"` keys are the pair `SectionRef(code, n)`.
- **Lecturer placeholder.** The placeholder lecturer `f"unknown_{code}"` is an ordinary lecturer id. So it can coincide with a real id, as in the source.
- **`defaultdict` reads.** Reading a missing key of a `defaultdict` creates the key, and the model does the same. The averages and fill rates count those keys:
  - Pass 1 creates a lecturer's empty timetable as soon as some block is open;
  - Pass 2 creates the roster of every bound section it looks at;
  - Pass 2 creates the student's timetable once a section with room is looked at.
- **Floor division.** `(k + max_size - 1) // max_size` is Python's floor division, written out as `SectionPlacement.FloorDiv`. Pass 1 divides by `max_size` only for a course with a request of the current tier. So only such courses must have a non-zero `max_size` (`Scheduler.Divisible`).
- **Re-binding in Pass 1.** The used-block set is reset for every tier, so a later tier re-binds sections 1.. of a course again. The section's block is overwritten, and the lecturer keeps the entry at the earlier block as well. This is modelled as written. The Pass 1 invariant allows it: a lecturer entry only has to be a section of that lecturer at an allowed block.

## Model

| member | source | states |
|---|---|---|
| Rules.AllBlocks | milestone2.py:29-39 | `all_blocks` is strictly ascending, so it has no repeats. Its elements are exactly the blocks some course declares, or the nine defaults when no course declares any. |
| Rules.AllBlocksCharacterised | milestone2.py:29-39 | `all_blocks` equals every strictly ascending listing of that set, so it is exactly `sorted(list(set))`. |
| Rules.DefaultFallback | milestone2.py:35-39 | With no declared blocks, `all_blocks` is 1A, 1B, 2A, 2B, 3, 4A, 4B, 5A, 5B in that order. |
| Text.SortedSet | milestone2.py:39 | Sorting a set gives a strictly ascending list of exactly its elements. |
| Text.LessTotal | milestone2.py:39 | Python's string order relates any two different strings. |
| Collections.LastWins | milestone2.py:59-66 | A key filled in a loop is present exactly when some kept row has it. It then holds the value of the last such row. |
| Preprocess.LecturerMap | milestone2.py:57-66 | A section has a lecturer exactly when some listing with both a course code and a lecturer id names it, with a missing section number meaning 1. The value is the lecturer of the last such listing. |
| Preprocess.CourseDetails | milestone2.py:68-83 | A code has details exactly when some record has that non-empty code. The details are those of the last such record, with the source's defaults filled in. |
| Preprocess.GroupRequests | milestone2.py:85-90 | The codes come once each, in order of first request. Each code's list is exactly the input requests of that code, in input order. Requests without a code are dropped. |
| Preprocess.GroupStep | milestone2.py:87-90 | Appending one request to the input keeps the grouping exact. |
| Preprocess.GroupedCourses | milestone2.py:85-90 | A course has a list exactly when it is non-empty and some request names it, and the course order has no repeats. |
| Preprocess.SortGroups | milestone2.py:92-96 | Each course's list comes out sorted by rank and is a permutation of the list that went in. |
| Preprocess.SortedGroupsStable | milestone2.py:93-96 | Within one rank, the sorted list keeps the input order of that course's requests. |
| Preprocess.PrepareRequests | milestone2.py:85-96 | Each course's list is a permutation of the input requests of that course, by non-decreasing rank, with equal ranks in input order. The courses are listed once each, and exactly the requested non-empty codes appear. |
| StableSort.Sort | milestone2.py:96 | The sort returns a permutation of its input, ordered by the key. |
| StableSort.SortStable | milestone2.py:96 | The sort is stable: elements with equal keys keep their input order. |
| StableSort.InsertStable | milestone2.py:96 | An insertion keeps each key's order and puts the new element last among its key. |
| SectionPlacement.FloorDiv | milestone2.py:139 | Python's `//` rounds toward minus infinity, for either sign of the divisor. |
| SectionPlacement.Needed | milestone2.py:139 | For a positive size and a positive request count, the result is the fewest sections that hold every request, capped at the number of sections. |
| SectionPlacement.FirstFit | milestone2.py:148-159 | The scan returns the first listed block that is available, unused in this tier and free for the lecturer, or nothing when no block is. |
| SectionPlacement.FirstFitIsFirstFitting | milestone2.py:148-159 | The scan's answer is the first fitting position, and no other. |
| SectionPlacement.Bind | milestone2.py:146-168 | A section is bound to a block exactly when that block is the first fitting one and non-empty. Only that section's binding and that lecturer's timetable change. The timetable is created once some block is open. |
| SectionPlacement.BindHolds | milestone2.py:161-168 | Binding a section books its lecturer at the new block and keeps every earlier lecturer entry. |
| SectionPlacement.BindOwned | milestone2.py:161-168 | After a binding, every lecturer entry is still a section of that lecturer at an allowed block. |
| SectionPlacement.BindAllowed | milestone2.py:161-168 | After a binding, every section is still bound to an allowed block. |
| SectionPlacement.PlaceSectionBooked | milestone2.py:143-168 | Placing one section keeps the Pass 1 invariant and removes no lecturer entry. |
| SectionPlacement.NoLecturerDoubleBooking | milestone2.py:152-168 | Under the Pass 1 invariant, two sections with one lecturer are never bound to the same block. |
| SectionPlacement.BindNone | milestone2.py:148-163 | A binding finds no block exactly when no listed block fits, or when the first fitting block is the empty name. That name is falsy, so the scan stops there without binding. |
| SectionPlacement.PlaceSections | milestone2.py:142-168 | Section n is bound exactly when the single-section search finds a block for it, and then to that block. Every section of n..needed left unbound could not be bound: no listed block fits even after all the blocks this run gave out and the lecturer's final timetable are taken into account, or an empty block name is open. Bound sections get pairwise different blocks outside the tier's used set. Only those bindings are added, and the invariant is kept. If an empty block name is listed and open, every unbound section meets the "could not be bound" clause. Then only the statement about section n says anything about progress. |
| SectionPlacement.CourseStep | milestone2.py:125-168 | A course with no request of the tier is left alone. Otherwise section 1 is bound exactly when the first fitting block is a non-empty name, and then to that block. Every section of 1..Needed(k) left unbound has no fitting block, as above. Bound sections get different blocks. If an empty block name is listed and open, only the statement about section 1 is guaranteed: the later sections may all be left unbound. |
| SectionPlacement.TierStep | milestone2.py:125-168 | One tier keeps the invariant, removes no lecturer entry and unbinds no section. Only sections of the listed courses are bound or re-bound. |
| SectionPlacement.Pass | milestone2.py:124-168 | All of Pass 1 keeps the invariant, and only sections of requested courses get bound. Student data is untouched. |
| StudentPlacement.Look | milestone2.py:194-202 | Looking at a section creates the roster of a bound section. For a section with room it also creates the student's timetable. No later test changes. |
| StudentPlacement.TrySections | milestone2.py:190-210 | The student is seated in the first section that has a non-empty block, has room, and whose block is free in their timetable, or nowhere when none qualifies. The rosters change only as `RostersAfter` describes and the timetables only as `StudentsAfter` describes. |
| StudentPlacement.SeatHere | milestone2.py:204-210 | A qualifying section is taken at once. The student joins its roster and gets the section at its block. |
| StudentPlacement.LookFurther | milestone2.py:192-202 | Skipping a section that does not qualify leaves the rest of the scan's outcome unchanged. |
| StudentPlacement.PlaceRequest | milestone2.py:184-213 | A request is resolved exactly when it has a student id and one of sections 1..num_sections qualifies. Otherwise it is unresolved. |
| StudentPlacement.PlaceRequestEnrolled | milestone2.py:184-213 | Placing a request keeps the Pass 2 invariant: capacity is respected, rosters and timetables agree, and there is one seat per resolved request. No timetable entry is replaced. |
| StudentPlacement.PlaceRequestRecorded | milestone2.py:184-213 | Each request lands in exactly one of the two outcome lists, appended at the end. |
| StudentPlacement.ScanCapacity | milestone2.py:197-207 | No roster grows past its course's `max_size`. |
| StudentPlacement.ScanTally | milestone2.py:207 | The scan adds exactly one roster place when it seats the student, and none otherwise. |
| StudentPlacement.ScanEntries | milestone2.py:206 | The scan adds exactly one timetable entry when it seats the student, and none otherwise. |
| StudentPlacement.EntriesSeated | milestone2.py:206 | Writing a free block of one timetable adds one entry in total. |
| StudentPlacement.NoStudentDoubleBooking | milestone2.py:200-207 | Under the invariant, a student on two rosters is in sections at different blocks. |
| StudentPlacement.PlaceRequests | milestone2.py:184-213 | A course's requests of one tier keep the invariant. Each lands in one outcome list, and the section bindings and lecturer timetables do not change. |
| StudentPlacement.TierStep | milestone2.py:172-213 | One tier over all courses does the same for that tier's agenda. |
| StudentPlacement.Pass | milestone2.py:171-213 | All of Pass 2 keeps the invariant, and every request of the agenda ends in exactly one outcome list. |
| Scheduler.GenerateSchedule | milestone2.py:105-219 | The generated schedule keeps both invariants. The resolved and unresolved lists together are the agenda of Pass 2, up to order. |
| Scheduler.NoDoubleBooking | milestone2.py:146-207 | In the generated schedule, no lecturer and no student holds two sections at one block. |
| Scheduler.TierAgendaCount | milestone2.py:172-176 | One tier handles each request of that Type for a listed course as often as it occurs in the input. |
| Scheduler.AgendaCount | milestone2.py:171-176 | All tiers handle each request with a listed Type and course as often as it occurs in the input, and no other request. |
| Scheduler.PreparedAgenda | milestone2.py:171-176 | Pass 2 handles exactly the input requests that have a course code and one of the three tier Types, up to order. |
| Scheduler.Run | milestone2.py:105-213 | Every input request with a course code and a tier Type is resolved or unresolved exactly once. No other request appears. |
| Analysis.Satisfaction | milestone2.py:226-233 | The rate is resolved/total × 100, or 100 when there are no requests, and lies between 0 and 100. |
| Analysis.TouchTypes | milestone2.py:241-243 | Unresolved requests add their Types with count 0 and leave existing counts alone. |
| Analysis.RequestTypesCounts | milestone2.py:235-245 | A Type is a key exactly when some resolved or unresolved request carries it. Its count is the number of resolved requests that carry it. |
| Analysis.FillRate | milestone2.py:253 | The fill rate is students/capacity × 100 for a positive capacity, and 0 otherwise. |
| Analysis.FillRates | milestone2.py:247-260 | There is one entry per roster of a course with details. It gives the roster's length, the course's `max_size` and the fill rate of those two. |
| Analysis.FillRatesBounded | milestone2.py:247-260 | For a schedule from Pass 2, every fill rate lies between 0 and 100. |
| Analysis.AverageEntries | milestone2.py:262-274 | The average times the number of timetables is the total number of entries, or 0 when there are none. |
| Analysis.AnalyzeSchedule | milestone2.py:222-276 | The report holds the satisfaction rate, the Type counts, the fill rates and both averages with the meanings above. |
| Analysis.PerStudentIsResolved | milestone2.py:262-267 | For a schedule from Pass 2, the courses-per-student average times the number of students is the number of resolved requests. |
| Validation.TypeTallyCounts | milestone1.py:133-137 | A Type is counted exactly when some request carries it, and its count is the number of such requests. The counts add up to the number of requests. |
| Validation.DemandCounts | milestone1.py:172-175 | A course's demand is the number of requests for it, and it is a key exactly when some request names it. |
| Validation.Classify | milestone1.py:183-192 | Over-subscribed exactly when demand exceeds capacity. Under-subscribed exactly when 0 < demand < capacity/2. No demand exactly when demand is 0, capacity is not negative and there are sections. |
| Validation.DemandReport | milestone1.py:180-192 | There is one verdict per course record, in table order. |
| Validation.Shortfalls | milestone1.py:150-161 | A shortfall is reported for a year exactly when its Required requests for its course are fewer than its distinct students. Each report carries both numbers. |
| Validation.ShortfallReported | milestone1.py:150-161 | Each of the four college years is reported exactly when it falls short. |
| Validation.NoRequestCourses | milestone1.py:164-169 | The declared course codes nobody requested, each once, in ascending order. |
| BlockScanner.MatchAt | milestone1.py:112 | A match is a quote, then digits, then one capital letter, then a quote. Whenever such a quoted label starts at the position, it is the match returned. |
| BlockScanner.ScanFrom | milestone1.py:112-115 | Every label found is digits followed by one capital letter and occurs quoted in the text. |
| BlockScanner.ScanQuotedLabel | milestone1.py:112-115 | A quoted label is found, with its quotes removed. |
| BlockScanner.ExtractBlocks | milestone1.py:107-118 | The result has no repeats and holds exactly the labels found in any rule, in order of first appearance. |
| Collections.DedupSpec | milestone1.py:116-117 | Deduplication keeps every element once, in order of first occurrence. |
| Example.ExtractedRules | milestone2.py:16-52 | The rules extracted from the example's course table list blocks 1A and 1B. |
| Example.PreparedTables | milestone2.py:55-102 | The lookups built from the example's raw tables are the ones the example uses. |
| Example.RunFinal | milestone2.py:16-219 | From the raw tables, the whole pipeline gives the example's final schedule. |
| Example.Pass1 | milestone2.py:124-168 | On the example data, Pass 1 binds the one section to 1A and books its placeholder lecturer there. |
| Example.Pass2 | milestone2.py:171-213 | On the example data, Pass 2 seats the first two students and leaves the third request unresolved. |
| Example.Generated | milestone2.py:105-219 | The whole allocator on the example data: one binding, two resolved requests, one unresolved. |
| Example.Analysed | milestone2.py:226-260 | On the example result, satisfaction is 200/3 % and the section is filled to 100%. |

## Left out

- Loading, I/O and output: reading the JSON and Excel files, writing files, the plots and the printed tables. They have no effect on the allocation.
- The text of the validation messages and insights, and the total-unique-students line. Only the counts behind them are modelled.
- The lecturer-assignment check of `validate_data` after line 199. It lies outside the counting checks modelled here.
- The `blocks_info` copy of rule text in `extract_rules_and_constraints`. No later stage reads it.
- Rules.ExtractRules: does not take the rules table, so it never fails. The source calls `.lower()` on the value of every `RULES` key (milestone2.py:21-24). A value that is not a string stops the whole run with `AttributeError` before any scheduling. Such values include the NaN of an empty spreadsheet cell (milestone1.py:71-73), a JSON number and `null`. The model does not describe that failure.
- Floating point: ratios and averages are exact reals, not IEEE doubles.
- `\d` in the block pattern is ASCII digits only. Python also accepts other Unicode decimal digits.
- Section keys are structured, so the analysis's `split('_')[0]` always gives back the course code. A course code containing `_` would be cut short in the source but not in the model.
- JSON `null` values are not distinguished from absent keys.
- The order of keys in the output dictionaries.
- BlockScanner.ScanFrom: states that every label found occurs quoted in the text. It does not state that every non-overlapping quoted label is found; Scan is written as the left-to-right scan of `re.findall`, and ScanQuotedLabel covers a label on its own.
- SectionPlacement.Needed: its contract covers only a positive `max_size` and a positive request count. A negative size gives the floor-division result, which the contract does not describe.
- Scheduler.GenerateSchedule: requires a non-zero `max_size` for every course with a request of some tier. The source raises `ZeroDivisionError` there instead.
- Scheduler.Run: carries the same requirement of a non-zero `max_size` as GenerateSchedule. It does not model the `ZeroDivisionError` either.
- `validate_data` reads several fields by indexing: `req['College Year']` (milestone1.py:144, 156), `req['student ID']` (milestone1.py:144), `req['Course code']` (milestone1.py:156, 165, 175), `req['Type']` (milestone1.py:156) and `course['Course code']` (milestone1.py:166, 181). A missing key there raises `KeyError`. The model reads a missing text field as `""` and a missing Type as no Type, as everywhere else, and does not model that exception.
- SectionPlacement.TierStep: the per-section progress guarantee of CourseStep is not lifted across the courses of a tier. It states safety only.
- SectionPlacement.Pass: states safety only, with no per-section progress, for the same reason as TierStep. A pass that binds nothing would meet its contract. Example.Pass1 shows progress on one input.
- Scheduler.GenerateSchedule: states both invariants and the permutation of outcomes, but no progress. A schedule that binds nothing and resolves nothing would meet its contract. Example.Generated shows progress on one input.
- Validation.TypeTallyCounts: requires every request to carry a Type. The source raises `KeyError` when one is missing.
- Validation.DemandReport: requires every course record to carry both `Number of sections` and `Maximum section size`. The source raises `KeyError` when either is missing.
