# Location repair and activity statistics of the running page, in Dafny

This project models two pieces of the running-page repository and proves
properties about them.

**The location repair script** (`run_page/fix_location.py`) finds activity rows
whose `location_country` is the placeholder `"China"`, or is missing while
the row has a route polyline. For each such row it:

- decodes the polyline;
- takes the route's first point;
- asks a reverse-geocoding service for a place, with up to three attempts
  and exponential backoff;
- writes the place into the row unless the place still mentions "China".

In dry-run mode it only reports. The batch driver selects the candidates,
caps them at a truthy `limit`, counts the fixes, commits once per applied
fix and pauses one second between rows.

**The statistics hook** (`src/hooks/useActivities.ts`) standardises country
names by first match against a pattern table. In one pass over the
activities it:

- tallies run count and distance per city and per prefecture (where a
  municipality's province stands for its districts);
- counts runs per title;
- collects the provinces, countries and years seen.

The years come out sorted and reversed, and the first one is `thisYear`.

Files:

| file | module | what it holds |
|---|---|---|
| `wrappers.dfy` | `Wrappers` | `Option` |
| `text.dfy` | `Text` | substring test (`in` / `includes`), string order of JavaScript's default sort |
| `geocoding.dfy` | `Geocoding` | `reverse_geocode`: the retry policy as a function, the loop as a method |
| `fix_location.dfy` | `FixLocation` | polyline extraction, per-activity fix, the activity and session classes, the batch driver |
| `string_sort.dfy` | `StringSort` | `Array.prototype.sort()` and `reverse()` on strings |
| `activity_stats.dfy` | `ActivityStats` | `standardizeCountryName` and the `forEach` aggregation |

Collaborators are parameters of the model:

- The geocoding service is an oracle `Geocoder = (Point, nat) -> Lookup`.
  It gives the answer to the lookup of a point on a given attempt:
  - `Found(place)`;
  - `NoResult` (an empty answer);
  - `Retryable` (`GeocoderTimedOut` / `GeocoderServiceError`);
  - `Fatal` (any other exception).

  The answer depends only on the point and the attempt number. Two rows
  whose routes start at the same point therefore get the same answers.
- `time.sleep` inside the retry loop becomes the returned list of waits.
  In the batch loop it becomes a pause counter.
- `polyline.decode` is a function from the polyline text to an optional
  list of points. `None` stands for a raised exception.
- The database session is a `Session` object that logs its `add` and
  `commit` calls. Rows are `Activity` objects whose fields the fix updates
  in place. The query is modelled by its filter over the table's rows, in
  storage order.
- `locationForRun`, `titleForRun`, `COUNTRY_STANDARDIZATION` and
  `MUNICIPALITY_CITIES_ARR` are parameters of the statistics pass.

How the proofs are organised:

- Each imperative operation is a method proved equal to a pure function:
  - `ReverseGeocode` against `Retry`;
  - `FixLocationForActivity` against `Fix`;
  - `FixLocations` against `Selected` and `RunBatch`;
  - `ProcessActivities` against `Accumulate`.
- The source's promises are lemmas about those functions.

## Model

| member | source | states |
|---|---|---|
| Geocoding.Retry | run_page/fix_location.py:37-55 | at most `max_retries` lookups; no lookup exactly when no attempt is left, and then no place and no wait; fewer waits than lookups (no wait after the last lookup) |
| Geocoding.RetryStopsForAReason | run_page/fix_location.py:37-55 | every lookup before the last failed softly (empty answer, timeout or service error); a place is returned exactly when the last lookup found one, and it is returned unchanged; a soft failure ends the loop only on the final attempt |
| Geocoding.RetryWaits | run_page/fix_location.py:42-47 | the waits are exactly 2^k for each retryable attempt k before the last lookup, in order; an empty answer adds no wait |
| Geocoding.PersistentTimeouts | run_page/fix_location.py:42-50 | when every attempt times out, all attempts are made, nothing is returned, and the waits are 2^attempt ... 2^(max-2) |
| Geocoding.ThreeTimeoutsWaitOneThenTwo | run_page/fix_location.py:25-50 | with the default three attempts and three timeouts: three lookups, no place, waits [1, 2] |
| Geocoding.TimeoutsThenFound | run_page/fix_location.py:37-47 | two timeouts and then a place: the place after waits [1, 2] and three lookups |
| Geocoding.RetryAdvance | run_page/fix_location.py:39-47 | an empty answer, or a timeout before the last attempt, hands over to the next attempt after adding its wait (none for an empty answer) |
| Geocoding.RetryStop | run_page/fix_location.py:39-53 | a found place, a fatal error or a timeout on the last attempt ends the loop after that lookup with no further wait |
| Geocoding.ReverseGeocode | run_page/fix_location.py:25-55 | the loop returns the place, the number of lookups and the waits that the policy `Retry` prescribes |
| FixLocation.CoordinatesFromPolyline | run_page/fix_location.py:58-81 | none for an absent or empty polyline, a decoding failure or an empty route; otherwise exactly the first decoded point |
| FixLocation.NeedsFix | run_page/fix_location.py:96-112 | a fix is needed exactly when the country is "China", or it is absent or empty while the polyline is non-empty; the "China" reason takes precedence |
| FixLocation.IsSpecific | run_page/fix_location.py:126 | the validation of a geocoded place (not "China" and not containing it); it has no contract of its own, and `FixLocation.IsSpecificIff` states it is the substring test alone |
| FixLocation.IsSpecificIff | run_page/fix_location.py:126 | the acceptance test (not equal to and not containing "China") is the substring test alone |
| FixLocation.ValidationExamples | run_page/fix_location.py:126 | "China" and "China, Some Province" are rejected, "Japan, Tokyo" is accepted |
| FixLocation.Decide | run_page/fix_location.py:96-146 | not eligible exactly when no reason for a fix applies; an accepted or rejected place is never empty |
| FixLocation.DecideSpec | run_page/fix_location.py:111-140 | not eligible exactly when no reason applies; no coordinates exactly when an eligible row's polyline gives no point; with a point, the geocoding fails exactly when no non-empty place came back, and a non-empty place is accepted when it does not contain "China" and rejected as still generic when it does |
| FixLocation.Fix | run_page/fix_location.py:96-146 | the row keeps its id and polyline; it is unchanged in dry-run mode and whenever no specific place was found |
| FixLocation.FixSpec | run_page/fix_location.py:84-146 | an ineligible row is untouched and not reported; only the country can change, never in dry-run, and only to a place without "China"; in apply mode a fix is reported exactly when the row changed; with no place obtained the report equals the dry-run flag; a still-generic place is never reported; a specific place is always reported and, in apply mode, becomes the country |
| FixLocation.FixAppliesSpecificPlace | run_page/fix_location.py:116-134 | a flagged row whose route starts where the geocoding client returns a non-empty place without "China" is reported fixed in both modes, and in apply mode gets that place as its country and nothing else changes |
| FixLocation.FixLocationForActivity | run_page/fix_location.py:84-146 | returns the reported flag of `Fix`, leaves the activity as `Fix` says, and logs one `add` exactly for an applied specific place |
| FixLocation.Session.Add | run_page/fix_location.py:133 | `session.add` appends one `add` of the activity to the log |
| FixLocation.Session.Commit | run_page/fix_location.py:185 | `session.commit` appends one commit to the log |
| FixLocation.QueryEligible | run_page/fix_location.py:162-168 | every row the query's filter selects and whose polyline is non-empty also passes the per-row check |
| FixLocation.QueryVersusRecheck | run_page/fix_location.py:162-168 | the query's filter and the per-row check differ only on empty strings: an empty polyline is selected and then skipped; an empty country is flagged by the check but never selected |
| FixLocation.EligibleIndices | run_page/fix_location.py:162-173 | the query over the table: every selected position is a row of the table; `FixLocation.EligibleIndicesExact` states the selection is exactly the rows the filter accepts, once each, in storage order |
| FixLocation.EligibleIndicesExact | run_page/fix_location.py:162-168 | the query returns exactly the rows its filter accepts, each once, in storage order |
| FixLocation.TakeLimit | run_page/fix_location.py:170-171 | `LIMIT n` keeps a prefix of the rows: min(n, all) of them for n ≥ 0, all of them for n < 0 |
| FixLocation.Selected | run_page/fix_location.py:162-173 | the candidates are row positions of the table and a prefix of the eligible rows |
| FixLocation.SelectedSpec | run_page/fix_location.py:162-173 | the candidates are a prefix of the eligible rows in storage order; a limit of None or 0 caps nothing; a positive limit keeps min(limit, eligible) rows |
| FixLocation.RunBatch | run_page/fix_location.py:179-185 | the loop keeps the number of rows and counts at most one fix per candidate |
| FixLocation.RecordLog | run_page/fix_location.py:133-185 | the `session.add` and `session.commit` one activity causes; it has no contract of its own, and `FixLocation.ApplyStep` and `FixLocation.DryRunBatch` state it: in apply mode an `add` and a commit exactly for a reported fix, in dry-run nothing |
| FixLocation.RunBatchStep | run_page/fix_location.py:179-185 | one more candidate: its row is fixed as it stands, the count grows by its report, its `add` and commit are appended |
| FixLocation.DryRunBatch | run_page/fix_location.py:179-186 | a dry run changes no row, calls neither `add` nor commit, and counts the candidates for which no place or a specific place was obtained |
| FixLocation.BatchUntouched | run_page/fix_location.py:179-185 | rows that are not candidates keep their values |
| FixLocation.BatchFixesStick | run_page/fix_location.py:124-134 | a changed row keeps its id and polyline and holds a place without "China", so neither the query nor the check selects it again |
| FixLocation.ApplyStep | run_page/fix_location.py:182-185 | in apply mode one visit logs an `add` and a commit exactly when it reports a fix, which is exactly when it changes the row |
| FixLocation.ApplyBatch | run_page/fix_location.py:179-186 | in apply mode the number of commits and of `add` calls both equal the fix count, which equals the number of changed rows |
| FixLocation.BatchSummary | run_page/fix_location.py:149-191 | the whole run: fixed ≤ checked ≤ a positive limit; the dry-run facts, the apply facts, untouched non-candidates, and fixes that are not selected again |
| FixLocation.ScenarioGenericToSpecific | run_page/fix_location.py:101-134 | a "China" row whose route starts where the service answers "Japan, Tokyo" is updated to it and reported |
| FixLocation.ScenarioNothingToGoOn | run_page/fix_location.py:101-112 | a row with neither country nor polyline is not selected and not touched |
| FixLocation.ScenarioStillGeneric | run_page/fix_location.py:124-146 | when the service always answers "China" the row is unchanged and no fix is reported, in either mode |
| FixLocation.ScenarioTimeoutsThenPlace | run_page/fix_location.py:37-134 | two timeouts and then "Vietnam, Hanoi": waits [1, 2] and the row updated |
| FixLocation.FixAndCommit | run_page/fix_location.py:182-185 | the per-activity fix followed by a commit exactly when a fix is reported outside dry-run |
| FixLocation.VisitRow | run_page/fix_location.py:179-185 | one pass of the loop changes only the visited row, as `Fix` says, and appends that row's log entries |
| FixLocation.FixLocations | run_page/fix_location.py:149-191 | checked = number of candidates; fixed count, rows and session log are those of `RunBatch` over the candidates; fixed ≤ checked; checked − 1 pauses (none for no candidates) |
| Text.Contains | src/hooks/useActivities.ts:9 | the substring test (`includes` here, `in` at run_page/fix_location.py:126); it has no contract of its own, and its meaning is stated by `Text.ContainsIff` |
| Text.ContainsIff | run_page/fix_location.py:126 | the substring test is true exactly when the pattern occurs at some position |
| Text.LexLess | src/hooks/useActivities.ts:67 | the string comparison of the default `sort()`, by character with a proper prefix first; it has no contract of its own, and `Text.LexLessIrreflexive`, `Text.LexLessTransitive` and `Text.LexLessTotal` state it is a strict total order |
| Text.LexLessIrreflexive | src/hooks/useActivities.ts:67 | no string sorts before itself |
| Text.LexLessTransitive | src/hooks/useActivities.ts:67 | the string order is transitive |
| Text.LexLessTotal | src/hooks/useActivities.ts:67 | of two different strings one sorts before the other |
| StringSort.Insert | src/hooks/useActivities.ts:67 | inserting adds exactly the element: the result has the old elements plus it |
| StringSort.InsertSpec | src/hooks/useActivities.ts:67 | inserting into an ascending list keeps it ascending and adds exactly the element |
| StringSort.Sort | src/hooks/useActivities.ts:67 | sorting keeps exactly the same elements, with their multiplicities |
| StringSort.SortSpec | src/hooks/useActivities.ts:67 | `sort()` returns the same elements in ascending order |
| StringSort.Reverse | src/hooks/useActivities.ts:67 | `reverse()` keeps the length and puts element i at position n−1−i |
| StringSort.SortReverseDistinct | src/hooks/useActivities.ts:67 | sorting and reversing distinct strings lists the same strings once each, strictly descending |
| ActivityStats.StandardizeCountryName | src/hooks/useActivities.ts:7-14 | the result is the country itself or one of the table's standard names |
| ActivityStats.StandardizeFirstMatch | src/hooks/useActivities.ts:7-14 | the standard name of the first pattern that occurs in the country wins; with no match the country is returned unchanged |
| ActivityStats.GroupKey | src/hooks/useActivities.ts:42-54 | only names longer than one character are counted; the city for `cities`; for `prefectureCities` the province when it is a municipality, else the city |
| ActivityStats.Tally | src/hooks/useActivities.ts:43-59 | a key's tally counts at most all runs, and a zero count carries zero distance |
| ActivityStats.TallyPositive | src/hooks/useActivities.ts:43-59 | a key has a non-zero tally exactly when some run has that key |
| ActivityStats.AddNew | src/hooks/useActivities.ts:61-64 | `Set.prototype.add` keeps the values already there, in order, adds the new one if missing, and nothing else |
| ActivityStats.InsertionOrderSpec | src/hooks/useActivities.ts:61-64 | a `Set` built by `add` holds each added value exactly once and nothing else |
| ActivityStats.Bump | src/hooks/useActivities.ts:42-55 | counting a run under a key leaves that key present with a count of at least 1; no other entry changes and none disappears; no key changes nothing |
| ActivityStats.BumpCount | src/hooks/useActivities.ts:35-37 | counting a run under a title leaves that title present with a count of at least 1; no other entry changes and none disappears; `ActivityStats.CountedAdvance` pins down the new count |
| ActivityStats.TalliedAdvance | src/hooks/useActivities.ts:42-60 | counting one more run into a place table keeps it equal to the tallies: +1 count and +distance for that run's place only |
| ActivityStats.CountedAdvance | src/hooks/useActivities.ts:33-38 | counting one more run into `runPeriod` keeps it equal to the per-title counts |
| ActivityStats.Visit | src/hooks/useActivities.ts:30-65 | one visit only appends to provinces, countries and years, at most one value each, and the run's year is then in the years |
| ActivityStats.Accumulate | src/hooks/useActivities.ts:30-65 | after the pass there are no more provinces, countries or years than runs |
| ActivityStats.AccumulateTables | src/hooks/useActivities.ts:30-60 | after the pass, `cities` and `prefectureCities` hold the tallies of their places and `runPeriod` the per-title counts |
| ActivityStats.AccumulateSets | src/hooks/useActivities.ts:61-64 | after the pass, provinces, countries and years are the distinct values in first-seen order |
| ActivityStats.AddRun | src/hooks/useActivities.ts:43-48 | creating a missing entry and then adding one run gives the entry's old tally (or zero) plus one run and its distance |
| ActivityStats.VisitRun | src/hooks/useActivities.ts:31-64 | the callback body updates all six collections as one visit of the run prescribes |
| ActivityStats.ProcessActivities | src/hooks/useActivities.ts:22-79 | the tables are the tallies of the runs; the sets are the distinct values in first-seen order; the years are sorted then reversed; `thisYear` is the first year or "" |
| ActivityStats.PlaceTableKeys | src/hooks/useActivities.ts:42-60 | a place table has an entry exactly for the places some run is counted under; each name is longer than one character and each count is at least 1 |
| ActivityStats.PeriodTableKeys | src/hooks/useActivities.ts:33-38 | `runPeriod` has an entry exactly for the non-empty titles of the runs, each counting at least one run |
| ActivityStats.TitleKey | src/hooks/useActivities.ts:34 | the `if (periodName)` test; it has no contract of its own, and `ActivityStats.TitleKeysHave` states a title is counted exactly when it is non-empty and some run has it |
| ActivityStats.TitleKeysHave | src/hooks/useActivities.ts:33-34 | a title is counted exactly when it is non-empty and some run has it |
| ActivityStats.CountsWithinRuns | src/hooks/useActivities.ts:42-60 | each run is counted under at most one key, so counts over distinct keys add up to at most the number of runs |
| ActivityStats.TableCountWithinRuns | src/hooks/useActivities.ts:42-60 | the counts stored in `cities` (or `prefectureCities`) over distinct names add up to at most the number of activities |
| ActivityStats.ProvincesSpec | src/hooks/useActivities.ts:61 | `provinces` holds each non-empty province of a run exactly once, and nothing else |
| ActivityStats.CountriesSpec | src/hooks/useActivities.ts:62 | `countries` holds the standardised name of each non-empty country exactly once, and nothing else |
| ActivityStats.CountriesFromRuns | src/hooks/useActivities.ts:62 | every collected country comes from some run's non-empty country |
| ActivityStats.RunsInCountries | src/hooks/useActivities.ts:62 | every run's non-empty country, standardised, is collected |
| ActivityStats.YearOf | src/hooks/useActivities.ts:63 | the year is a prefix of the start date, four characters long or the whole date when it is shorter |
| ActivityStats.YearsHas | src/hooks/useActivities.ts:63-64 | a year is collected exactly when it is the year of some run |
| ActivityStats.YearsSpec | src/hooks/useActivities.ts:63-68 | the year list is strictly descending and free of repeats; it holds exactly the 4-character prefixes of the runs' start dates; it is empty exactly when there are no runs; its first element is above all others |

## Left out

- The network call to Nominatim is not modelled: the language, the 10-second timeout and the client object. The answer comes from the `Geocoder` oracle.
- The conversion `str(location)` is not modelled. `Found` carries the text directly.
- `polyline.decode` is a parameter. The Encoded Polyline Algorithm is not part of this model.
- Coordinates are integer pairs rather than floats. No arithmetic is done on them.
- All `print` diagnostics are left out, including the text of the eligibility reason. `Reason` keeps only which case applied.
- Real sleeping is left out. The retry waits are returned as a list, and the batch's one-second pauses are counted.
- FixLocations: the fix count, rows, session log and pauses are stated, but the backoff waits of the geocoding calls it makes are not surfaced. They are stated per call by `Retry` and `ReverseGeocode`.
- SQLAlchemy is not modelled. The query is its filter over the rows in storage order, and `add`/`commit` are entries in a log; transactions and `session.close` are left out.
- FixLocations: `limit` follows SQLite's `LIMIT` semantics, so a negative limit does not cap. Other databases may reject it.
- FixLocations: exceptions from storage or from the geocoding dependency that escape the functions are not modelled. Every lookup ends in one of the four `Lookup` outcomes.
- `main` is left out: argument parsing, the summary printout, `KeyboardInterrupt` handling and the exit status.
- ProcessActivities: distances are integers, so floating-point rounding of `+=` is not modelled.
- ProcessActivities: plain objects used as maps are modelled as maps. Keys that collide with `Object.prototype` members (such as `"constructor"`) behave differently in JavaScript.
- StringSort.Sort: compares strings by character value. JavaScript compares UTF-16 code units, and the two orders differ only for characters outside the Basic Multilingual Plane.
- ActivityStats.GroupKey: `.length > 1` is taken on characters. JavaScript counts UTF-16 code units, so a one-character name outside the Basic Multilingual Plane is counted by the source but dropped by the model; `VisitRun` and `ProcessActivities` share this.
- ActivityStats.YearOf: `slice(0, 4)` is taken on characters rather than UTF-16 code units.
- React's `useMemo`, the returned `activities` list and the rendering components are left out.
