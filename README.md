# Process-table engine of AdministradorTareas, in Dafny

AdministradorTareas is a small task manager window written in Python over
tkinter and psutil. This project models its process-table engine, all in
`AdministradorTareas/app.py`, and proves properties of the model:

- **Sampling** (`sampling.dfy`): `ProcessSampler.sample` walks the enumerated
  processes. It drops owner-less processes when system processes are hidden.
  It skips a process whose cpu or memory reading raises. It turns each
  survivor into one record.
- **Delta tracker** (`sampling.dfy`): the disk rate of a process is the
  change of its cumulative I/O counters since the last reading of the same
  pid, kept in the sampler's `last_io` dictionary. The sampler is a class
  whose `lastIo` map field its methods update.
- **Search and sort** (`shaping.dfy`): the query is stripped and lower-cased.
  It matches a record when it occurs in the lower-cased name or in the
  decimal pid. The sort is stable, on the key chosen from `sort_by`. The
  periodic refresh and the immediate refresh choose keys differently.
- **Table reconciliation** (`table.dfy`, `app.dfy`): `_update_tree` brings the
  `ttk.Treeview` up to date in place. It updates rows still present, appends
  new pids and deletes vanished ones. The treeview is a class with a row
  list and a row-to-values map.
- **Configuration** (`config.dfy`): defaults, overridden by the `[app]`
  section of `config.ini` or, when there is no INI file, by the elements
  of `config.xml`.
- **Supporting modules**: `text.dfy` has the ASCII string operations the
  search uses (`lower`, `strip`, `in`, `str(n)`). `wrappers.dfy` has an
  `Option` type.

The operating system's readings are inputs. A `Reading` holds what psutil
reports for one process, and each fallible call is an `Option`. The
clock's `time.time()` is a `now` parameter. A parsed INI section is a map,
and parsed XML children are a tag-to-text map.

The sampling loop, `_update_tree`, `load_ini`, `load_xml` and the sort are
imperative in the source, and they are methods with loops here. Each one
is proved against a specification function:

- the loop in `Sample` against `SampleRun`;
- `WriteRows`/`DeleteRows` against `Reconcile`;
- `SortInPlace` over an array against `StableSort`;
- `LoadIni`/`LoadXml` against `IniPick`/`XmlPick`.

The properties the source promises are lemmas about those functions.

### Behaviour of the delta tracker worth knowing

- Counters that go down give a negative rate; nothing clamps it
  (`Sampling.RateSign`).
- `last_io` is keyed by pid alone, so a new process that reuses a pid is
  measured against the old process's counters.
- No `last_io` entry is ever removed: entries of processes that are gone
  stay (`Sampling.TrackAllBookkeeping`, `Sampling.SampleRun`).

## Model

| member | source | states |
|---|---|---|
| Text.IsSpace | AdministradorTareas/app.py:205 | definition: the white-space characters `strip()` removes in the ASCII range: space, tab through carriage return (9-13), and the separators 28-31 |
| Text.SkipSpace | AdministradorTareas/app.py:205 | the end of the leading white space: everything before it is space, the character at it is not |
| Text.BackSpace | AdministradorTareas/app.py:205 | the start of the trailing white space: everything from it on is space, the character before it is not |
| Text.Strip | AdministradorTareas/app.py:205 | `str.strip()`: the result is a slice of the input with only white space cut off either side, starts and ends with a non-space, and is empty exactly when the input is all white space |
| Text.StripIdempotent | AdministradorTareas/app.py:205 | stripping twice gives the same as stripping once |
| Text.LowerChar | AdministradorTareas/app.py:205-207 | `c.lower()` on one ASCII character: never upper case, and a character that is not upper case is left as it is |
| Text.LowerCharPartner | AdministradorTareas/app.py:205-207 | an upper-case letter becomes its lower-case partner, at the same offset from 'a' as it has from 'A' |
| Text.Lower | AdministradorTareas/app.py:205-207 | `str.lower()`: same length, each character lower-cased at its position, no upper-case letter left |
| Text.LowerIdempotent | AdministradorTareas/app.py:205-207 | lower-casing the already lower-cased query and name changes nothing more |
| Text.ContainsIff | AdministradorTareas/app.py:207 | the substring scan `q in s` holds exactly when `q` occurs at some position of `s` |
| Text.Contains | AdministradorTareas/app.py:207 | the scan: `needle in hay` can hold only when the needle is no longer than the string, and holds whenever the string starts with it |
| Text.ContainsEmpty | AdministradorTareas/app.py:206-207 | the empty query occurs in every string, so the `if q` guard only skips a filter that would keep everything |
| Text.DecimalString | AdministradorTareas/app.py:207 | `str(pid)`: at least one character, all decimal digits, no leading zero |
| Text.DecimalRoundTrip | AdministradorTareas/app.py:238 | reading back the digits of `str(pid)` gives the pid |
| Text.DecimalInjective | AdministradorTareas/app.py:238 | different pids have different row ids |
| Text.NonDigitNotInDecimal | AdministradorTareas/app.py:207 | a query with a non-digit character never matches `str(pid)` |
| Config.DefaultKeysAreDefaultCfg | AdministradorTareas/app.py:11-16 | the keys iterated by `for k in cfg` are exactly the keys of `DEFAULT_CFG` |
| Config.IniPick | AdministradorTareas/app.py:22-25 | the value of one default key after `load_ini`: the `[app]` value whenever the section has the key, the default or that value otherwise |
| Config.XmlPick | AdministradorTareas/app.py:32-35 | the value of one default key after `load_xml`: the default or the text of the element with that tag, never an empty text over a non-empty default |
| Config.LoadIni | AdministradorTareas/app.py:18-26 | the result has exactly the default keys; each value is the `[app]` value for that key when present (even an empty one), the default otherwise; unknown options never enter |
| Config.LoadXml | AdministradorTareas/app.py:28-36 | the result has exactly the default keys; each value is the text of the key's element when that element exists with non-empty text, the default otherwise |
| Config.Startup | AdministradorTareas/app.py:306-318 | `main`'s configuration: exactly the default keys; INI values whenever `config.ini` exists; the defaults when it fails to parse; XML values only when there is no `config.ini`; the defaults when neither file exists or the XML fails to parse |
| Config.EmptyValueAsymmetry | AdministradorTareas/app.py:24-25 | an empty INI value replaces the default while an empty XML element keeps it (lines 34-35) |
| Sampling.Elapsed | AdministradorTareas/app.py:82 | the time step is positive (no division by zero): `now - last_t` when that is positive, 1.0 otherwise |
| Sampling.ByteDelta | AdministradorTareas/app.py:83 | definition: the change of read plus write bytes since the stored entry, not clamped, so it can be negative |
| Sampling.IoRate | AdministradorTareas/app.py:78-83 | the disk rate of one process: 0.0 when `last_io` has no entry for the pid; its value on a repeat sighting is pinned down by `Sampling.RateInverse` |
| Sampling.RecordOf | AdministradorTareas/app.py:91-98 | the record of one admitted process: its pid and cpu reading, its memory in MiB (times 1048576 gives the rss bytes), 0 connections when that call raised, and a 0.0 rate on the first sighting |
| Sampling.SampleRun | AdministradorTareas/app.py:57-103 | the cycle as the loop runs it: at most one record per enumerated process, and no `last_io` entry is ever removed |
| Sampling.IsSystemOwned | AdministradorTareas/app.py:65 | definition: a process without an owner, `username()` empty or failed, counts as a system process |
| Sampling.DisplayName | AdministradorTareas/app.py:63 | the name shown: the process's own name whenever it has a non-empty one, `"<sin nombre>"` when the name is missing or empty |
| Sampling.CountersOf | AdministradorTareas/app.py:70-76 | the cumulative counters of the cycle: those `io_counters()` reports, zeros when it raised |
| Sampling.MarkOf | AdministradorTareas/app.py:84 | the new `last_io` entry: stamped with this cycle's time, holding the reported read and write bytes, zero bytes when `io_counters()` raised |
| Sampling.Fetched | AdministradorTareas/app.py:67-69 | definition: the process's cpu and memory calls did not raise, without which it is skipped |
| Sampling.Admitted | AdministradorTareas/app.py:65-69 | definition: the process is kept, as it passes the owner filter (lines 65-66) and its readings did not raise (lines 67-69, 99-102) |
| Sampling.Survivors | AdministradorTareas/app.py:65-67 | the readings kept by the loop: a reading is kept exactly when it is not filtered as a system process and its cpu and memory readings did not raise (lines 99-102); never more than the input |
| Sampling.TrackAll | AdministradorTareas/app.py:78-98 | the delta tracker over all readings: one record per reading; the `last_io` domain grows by exactly the pids seen and loses nothing |
| Sampling.PidsOf | AdministradorTareas/app.py:84 | a pid is among the pids written to `last_io` exactly when some reading carries it |
| Sampling.SampleRunIsTrackOfSurvivors | AdministradorTareas/app.py:59-103 | a skipped process, filtered or failed, leaves no trace: the cycle's records and its `last_io` equal the tracker run over the survivors alone |
| Sampling.SurvivorsAppend | AdministradorTareas/app.py:59-102 | whether a reading survives never depends on the other readings: the survivors of a concatenation are the survivors of each part, in order |
| Sampling.FailedReadingIsIsolated | AdministradorTareas/app.py:67-69 | a process whose cpu or memory call raises is omitted and every other process is returned exactly as without it (lines 99-102) |
| Sampling.ShowSystemDifference | AdministradorTareas/app.py:65-66 | hiding system processes removes exactly the owner-less ones; showing them excludes no process for its owner |
| Sampling.TrackAllAt | AdministradorTareas/app.py:78-84 | reading `i`'s record is computed against the `last_io` left by the readings before it |
| Sampling.TrackAllRecords | AdministradorTareas/app.py:62-98 | record `i` carries reading `i`'s pid, name (`"<sin nombre>"` when missing or empty), cpu, rss / 1048576 and connection count (0 when that call raised) |
| Sampling.TrackAllBookkeeping | AdministradorTareas/app.py:84 | an entry of `last_io` whose pid was not seen this cycle is left unchanged |
| Sampling.TrackAllRates | AdministradorTareas/app.py:78-83 | with distinct pids, each record's rate is computed against that pid's entry from before the cycle: 0.0 on a first sighting, otherwise the byte delta / 1024 / dt |
| Sampling.IoRateLocal | AdministradorTareas/app.py:78-83 | the rate of a pid depends on that pid's entry only |
| Sampling.TrackAllMarks | AdministradorTareas/app.py:70-84 | with distinct pids, after the cycle each seen pid's entry is `(now, read_bytes, write_bytes)` of this cycle, zeros when `io_counters()` raised |
| Sampling.TrackAllDistinct | AdministradorTareas/app.py:91-98 | readings with distinct pids give records with distinct pids |
| Sampling.SurvivorsDistinct | AdministradorTareas/app.py:59-66 | the surviving readings keep distinct pids |
| Sampling.RateInverse | AdministradorTareas/app.py:83 | on a repeat sighting, rate × dt × 1024 is exactly the combined read and write byte delta |
| Sampling.RateSign | AdministradorTareas/app.py:83 | nothing clamps the rate: a negative byte delta gives a negative rate, a non-negative delta a non-negative one |
| Sampling.TwoCycleExample | AdministradorTareas/app.py:78-84 | a first sighting reports 0.0; 2048 bytes over the next 2 seconds report 1.0 KB/s |
| Sampling.ProcessSampler.constructor | AdministradorTareas/app.py:43-44 | a new sampler starts with an empty `last_io` |
| Sampling.ProcessSampler.Track | AdministradorTareas/app.py:78-84 | the rate is the tracker's rate against the stored entry, and the entry for this pid, and only it, is overwritten with this reading |
| Sampling.ProcessSampler.Sample | AdministradorTareas/app.py:53-103 | the returned records and the new `last_io` are those of the cycle `SampleRun` over the readings in enumeration order |
| Shaping.NormalizeQuery | AdministradorTareas/app.py:205 | the query after `strip().lower()`: empty exactly when the typed text is all white space, and never holding an upper-case letter |
| Shaping.Matches | AdministradorTareas/app.py:207 | definition: the normalised query occurs in the lower-cased name or in the decimal pid |
| Shaping.KeepMatching | AdministradorTareas/app.py:207 | the list comprehension keeps exactly the matching records, never more than the input |
| Shaping.Search | AdministradorTareas/app.py:205-207 | an empty normalised query returns the list unchanged; otherwise a record is in the result exactly when it is in the input and the query occurs in its lower-cased name or its decimal pid |
| Shaping.KeepMatchingAppend | AdministradorTareas/app.py:207 | the filter of a concatenation is the concatenation of the filters; with `KeepMatchingSingle`, the result is the order-preserving sub-list of matches |
| Shaping.KeepMatchingSingle | AdministradorTareas/app.py:207 | a single record is kept exactly when it matches |
| Shaping.SearchByNameOnly | AdministradorTareas/app.py:207 | a query with a non-digit character filters on the name alone |
| Shaping.SearchDistinct | AdministradorTareas/app.py:207 | the search keeps pids distinct |
| Shaping.SortKeysAgree | AdministradorTareas/app.py:259-260 | `refresh_now` sorts like `_bg_refresh_loop` (lines 209-221) except for "memory" and "pid", which it sorts by name; it never sorts by memory or pid |
| Shaping.CycleSortKey | AdministradorTareas/app.py:209-221 | the key of the periodic refresh: "cpu", "memory" and "pid" each select their own key, and any other setting sorts by name |
| Shaping.RefreshSortKey | AdministradorTareas/app.py:259-260 | the key of `refresh_now`: cpu exactly for the setting "cpu", the name for any other |
| Shaping.LexLess | AdministradorTareas/app.py:220 | definition: Python's `<` on strings, by code point with a proper prefix first |
| Shaping.LexIrreflexive | AdministradorTareas/app.py:220 | Python's string order is irreflexive |
| Shaping.LexLessPrefix | AdministradorTareas/app.py:220 | in the order of `LexLess`, the code-point order of Python strings, a proper prefix comes first and no string comes before one of its own prefixes |
| Shaping.LexTransitive | AdministradorTareas/app.py:220 | Python's string order is transitive |
| Shaping.LexTotal | AdministradorTareas/app.py:220 | two different strings are ordered one way or the other |
| Shaping.Less | AdministradorTareas/app.py:209-221 | definition: which record the sort puts first for each key, higher cpu or memory first (`reverse=True`), lower pid or earlier lower-cased name first |
| Shaping.SameKey | AdministradorTareas/app.py:209-221 | definition: two records whose key values are equal, so the stable sort keeps them in input order |
| Shaping.Trichotomy | AdministradorTareas/app.py:209-222 | for each key, two records have equal keys, or exactly one must come first |
| Shaping.LessTransitive | AdministradorTareas/app.py:209-222 | "must come first" is transitive |
| Shaping.NotLessTransitive | AdministradorTareas/app.py:209-222 | "need not come after" is transitive |
| Shaping.InsertPos | AdministradorTareas/app.py:222 | the stable insertion point: the new record must precede every record after it and need not precede the one before it |
| Shaping.InsertPosAt | AdministradorTareas/app.py:222 | that insertion point is the only such position |
| Shaping.InsertPermutes | AdministradorTareas/app.py:222 | one insertion adds exactly the inserted record |
| Shaping.InsertSorted | AdministradorTareas/app.py:222 | inserting into a sorted list keeps it sorted |
| Shaping.InsertKeyClass | AdministradorTareas/app.py:222 | inserting a record appends it after its equal-key records and leaves the others' order alone |
| Shaping.StableSort | AdministradorTareas/app.py:222 | the reference stable sort keeps the number of records (its permutation, order and stability are the lemmas below it) |
| Shaping.StableSortPermutes | AdministradorTareas/app.py:222 | the sort is a permutation of its input |
| Shaping.StableSortSorted | AdministradorTareas/app.py:209-222 | the output is ordered by the key |
| Shaping.StableSortStable | AdministradorTareas/app.py:222 | records with equal keys keep their input order, also with `reverse=True` |
| Shaping.SortedByMeaning | AdministradorTareas/app.py:209-221 | the order read per key: cpu and memory non-increasing, pid non-decreasing, lower-cased name non-decreasing |
| Shaping.StableSortDistinct | AdministradorTareas/app.py:222 | the sort keeps pids distinct |
| Shaping.ShiftRight | AdministradorTareas/app.py:222 | the shifting loop of one insertion step moves the records the new one must precede one place right and leaves the rest alone |
| Shaping.InsertStep | AdministradorTareas/app.py:222 | one in-place insertion step turns the array prefix into the stable insertion of its next record |
| Shaping.SortInPlace | AdministradorTareas/app.py:222 | `procs.sort(...)`: the array afterwards is the stable sort of its old contents |
| Table.Iid | AdministradorTareas/app.py:238 | definition: the row id of a record is `str(pid)` |
| Table.IdSet | AdministradorTareas/app.py:236-239 | every record's `str(pid)` is in `new_ids` |
| Table.IdSetMembers | AdministradorTareas/app.py:236-239 | an id is in `new_ids` exactly when some record has it |
| Table.IidInjective | AdministradorTareas/app.py:238 | records with distinct pids have distinct row ids |
| Table.Without | AdministradorTareas/app.py:248-249 | the rows left by the deletions, in their order: never more than before |
| Table.WithoutMembers | AdministradorTareas/app.py:248-249 | after the deletions a row remains exactly when it was there and was not deleted |
| Table.RowSet | AdministradorTareas/app.py:235 | definition: `cur = set(self.tree.get_children())`, the ids currently shown |
| Table.Kept | AdministradorTareas/app.py:241-243 | the old rows still present, in their old order: exactly the rows in both the table and the new ids |
| Table.Added | AdministradorTareas/app.py:244-246 | appended rows are ids of records that were not rows before |
| Table.AddedComplete | AdministradorTareas/app.py:244-246 | every record id that was not a row is appended |
| Table.Reconcile | AdministradorTareas/app.py:233-249 | the rows `_update_tree` leaves: an id is among them exactly when some record carries it |
| Table.ReconcileRows | AdministradorTareas/app.py:233-249 | after reconciliation the rows are exactly the records' `str(pid)`, each once |
| Table.KeptAll | AdministradorTareas/app.py:241-243 | when no row vanished, the rows stay exactly as they were |
| Table.KeptAppend | AdministradorTareas/app.py:241-249 | keeping the surviving rows of a concatenation keeps those of each part, so the rows that survive keep their relative order however many others are deleted |
| Table.ExistingRowsStayInPlace | AdministradorTareas/app.py:241-246 | when no process vanished, the old rows stay first in their old order and the new ids follow, whatever the order of the records |
| Table.WithoutStale | AdministradorTareas/app.py:248-249 | deleting `cur - new_ids` leaves exactly the kept rows in order |
| Table.WithoutDistinct | AdministradorTareas/app.py:249 | deleting rows keeps row ids distinct |
| Table.KeptDistinct | AdministradorTareas/app.py:241-243 | the kept rows are distinct |
| Table.AddedDistinct | AdministradorTareas/app.py:244-246 | with distinct pids the appended ids are distinct |
| Table.WithoutAppend | AdministradorTareas/app.py:248-249 | deleting from the old rows followed by the appended ones deletes from each part |
| Table.WithoutTwice | AdministradorTareas/app.py:248-249 | deleting rows one at a time deletes their union |
| Table.Tree.constructor | AdministradorTareas/app.py:141 | a new treeview has no rows |
| Table.Tree.GetChildren | AdministradorTareas/app.py:235 | `get_children()` returns the row ids in display order |
| Table.Tree.Item | AdministradorTareas/app.py:243 | `item` replaces one row's values and moves nothing |
| Table.Tree.Insert | AdministradorTareas/app.py:246 | `insert(..., END, iid=...)` appends a new row with its values |
| Table.Tree.Delete | AdministradorTareas/app.py:249 | `delete` removes exactly that row and its values |
| App.ViewContents | AdministradorTareas/app.py:205-222 | for any sample, the list handed to the table holds exactly the sampled records that pass the search, ordered by the key |
| App.ViewDistinct | AdministradorTareas/app.py:205-222 | a sample with distinct pids reaches the table with distinct pids |
| App.ViewTies | AdministradorTareas/app.py:205-222 | records with equal keys reach the table in sample order, as the stable `sort` leaves them |
| App.View | AdministradorTareas/app.py:205-222 | what a cycle hands to the table: never more records than were sampled, and all of them when the query is blank |
| App.SampleDistinct | AdministradorTareas/app.py:53-103 | a cycle over readings with distinct pids produces records with distinct pids |
| App.TaskManagerApp.constructor | AdministradorTareas/app.py:105-115 | the window starts with an empty table and an empty `last_io`, and `sort_by` is the configured value, "cpu" when absent |
| App.TaskManagerApp.Shape | AdministradorTareas/app.py:205-222 | the search followed by the in-place sort gives the view of the sample |
| App.TaskManagerApp.UpdateTree | AdministradorTareas/app.py:233-249 | `_update_tree`: the rows become the surviving rows in their old order followed by the new ids in record order; the row ids are exactly the records' ids; each row holds its record |
| App.TaskManagerApp.WriteRows | AdministradorTareas/app.py:236-246 | the first loop appends exactly the ids that were not rows, stores every record under its id, and leaves the values of rows without a record untouched |
| App.TaskManagerApp.WriteRow | AdministradorTareas/app.py:238-246 | one step of that loop: `item` for a known id, `insert` at the end for a new one; only that record's row value changes |
| App.TaskManagerApp.DeleteRows | AdministradorTareas/app.py:248-249 | the second loop deletes exactly the stale rows and their values, in any order |
| App.TaskManagerApp.DeleteRow | AdministradorTareas/app.py:249 | one deletion of that loop |
| App.TaskManagerApp.BackgroundCycle | AdministradorTareas/app.py:199-224 | one periodic pass: the new `last_io` is that of the cycle, and the table is reconciled with the cycle's records searched and sorted by the key of `sort_by`; the row values are keyed by exactly those records' ids and each row holds its latest record |
| App.TaskManagerApp.RefreshNow | AdministradorTareas/app.py:251-261 | the immediate pass: the same, sorted by cpu for "cpu" and by name otherwise, with each row again holding its latest record |

## Left out

- The tkinter window is not modelled: widget construction, headings, the status bar, `messagebox`, `on_double_click` and `show_details` (app.py:120-183). The `root.after` hand-off is also out: a cycle's table update is modelled as done at once.
- The psutil calls are not modelled. `process_iter`, `cpu_percent`, `memory_info`, `io_counters` and `connections` are replaced by one `Reading` per process, in which a call that raised is `None`. A failure of the enumeration itself, which is the status-bar error at app.py:226-228, is not modelled.
- `seed_cpu` (app.py:46-51) only primes psutil's cpu counters, and the `last_cpu_call` field (app.py:45) is never used; neither is modelled.
- The background thread is not modelled: the stop event, `time.sleep`, the `max(0.1, ...)` wait (app.py:229-231) and the thread of `refresh_now`. The clock is the `now` parameter. The race between the two refresh paths on `last_io` is not modelled, because each pass is modelled as atomic.
- Floating point is not modelled. Rates, cpu and memory are exact reals, and `round(x, 1)` (app.py:94-96) is not applied. The sort sees this: records whose cpu or memory round to the same tenth tie in the source and keep their sample order, while the model orders them by their exact values.
- The `float()`/`int()` parsing of `refresh_interval` and `show_system_processes` (app.py:113-114) is not modelled, so `showSystem` is a constructor parameter. The window title and `geometry` are presentation only.
- ConfigParser and ElementTree internals are not modelled: option-name case folding, value stripping, the DEFAULT section, interpolation, and which element `find` returns. The parsed `[app]` section is a map, and the XML children are a map from tag to the first element's text.
- Opening `taskmgr` through subprocess (app.py:185-191) is an external program and is not modelled.
- `end_task_selected` and `kill_task_selected` (app.py:264-300) are not modelled. They pass a pid to psutil's `terminate`/`kill`/`wait_procs` and turn the outcome into dialog text.
- App.TaskManagerApp.UpdateTree requires distinct pids among the records. With a repeated pid that is not yet a row, `Treeview.insert` would raise on the second insert, and that error is not modelled. The operating system enumerates each pid once. The sampling cycle keeps pids distinct (`App.SampleDistinct`), and so do the search and the sort (`App.ViewDistinct`).
- Text.Lower and Text.Strip cover ASCII only. Python's Unicode case mapping and white-space classes are not modelled.
- Reuse of a pid by a new process is not detected by the source, and not by the model: the new process inherits the old `last_io` entry.
