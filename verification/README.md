# molasses, modelled in Dafny

molasses runs a program slowly by putting it in a fresh Linux cgroup whose CPU
quota is a fraction of the scheduling period (`launch --speed 25% -- prog args`),
and later kills and removes every cgroup it created (`killall`). It records the
groups it created in a small sqlite database, `molasses.sq3`, and deletes that
file once every group is gone.

The model covers:

- the speed parser (`Results`, `Text`, `SpeedParser`). A hand-written scanner
  stands in for the two anchored regular expressions. It is proved equal to them:
  the scanner succeeds exactly when one of the expressions matches, and gives the
  number Python's `float` reads from the matched text (divided by 100 for the
  `pct`/`%` form);
- the `--` split of the command line (`Argv`);
- group names and `controllers:/name` handles, each with its inverse (`Naming`);
- the bookkeeping database (`Ledger`): its two tables, the insert and the two
  deletes, and the read-back `get_cg2subsystems`. The read-back is modelled as
  `ORDER BY ofcg, seqno` followed by grouping into an insertion-ordered dict,
  and is proved to return every group's subsystems in recorded order;
- the two sub-commands as traces of the steps they take (`Workflows`). Whether
  each external tool exits with status 0 is an oracle argument.

Three behaviours of the code are worth knowing:

- A bare integer speed such as `5` is rejected: it matches neither expression,
  because the second one demands a decimal point. The model follows the code
  (`SpeedParser.IntegerRejected`, `SpeedParser.RejectExamples`).
- `1.5.3pct` parses as `1.5`, not as a percentage. The first expression fails at
  the second dot, and the second expression accepts the prefix `1.5`
  (`SpeedParser.SecondDotExample`).
- `launch` creates and records the group before it parses the speed. An invalid
  speed therefore leaves a recorded group behind for `killall` to remove
  (`Workflows.LaunchLeavesGroup`).

## Model

| member | source | states |
|---|---|---|
| SpeedParser.ScanNumeral | molasses.py:58-62 | the whole part is the longest digit run at the front; a fraction part is present exactly when a dot follows it, and it is the longest digit run after the dot; the numeral's text is a prefix of the input |
| SpeedParser.SpeedStrToFraction | molasses.py:57-66 | a success is a non-negative fraction; the only failure is the "Could not parse speed" error |
| SpeedParser.ParsePercent | molasses.py:58-61 | a match of the percent expression gives a non-negative value; what it matches and what it gives are stated by `SpeedParser.PercentMatchIsScan` and `SpeedParser.PercentFormValue` |
| SpeedParser.ParseFraction | molasses.py:62-65 | a match of the fraction expression gives a non-negative value; what it matches and what it gives are stated by `SpeedParser.FractionMatchWithinScan` and `SpeedParser.FractionFormValue` |
| SpeedParser.PercentMatchIsScan | molasses.py:58 | any match of the percent expression (a number with or without a decimal point, then `pct` or `%`) at the front covers exactly the scanned numeral, which has a digit |
| SpeedParser.ScanIsPercentMatch | molasses.py:58 | a scanned numeral with a digit, followed by `pct` or `%`, is a match of the percent expression |
| SpeedParser.FractionMatchWithinScan | molasses.py:62 | any match of the fraction expression at the front lies within the scanned numeral, which has a dot and a digit |
| SpeedParser.ScanIsFractionMatch | molasses.py:62 | a scanned numeral with a dot and a digit is a match of the fraction expression |
| SpeedParser.ValueIsLiteral | molasses.py:60-61 | the scanner's whole-plus-fraction value equals `float` of the text: its digits without the dot, over ten to the number of digits after the dot |
| SpeedParser.PercentFormValue | molasses.py:58-61 | when the percent expression matches the first `j` characters, the result is `float` of those characters divided by 100 |
| SpeedParser.FractionFormValue | molasses.py:62-65 | when the percent expression matches nowhere, the result is `float` of the longest match of the fraction expression (the greedy match) |
| SpeedParser.SpeedRejects | molasses.py:57-66 | the parse fails exactly when neither expression matches at the front |
| SpeedParser.PercentOf | molasses.py:58-61 | any numeral with a digit, followed by `pct` or `%` and anything else, gives its value divided by 100 |
| SpeedParser.FractionOf | molasses.py:62-65 | a numeral with a dot and a digit, followed by anything that is neither a digit nor a percent suffix, gives its value |
| SpeedParser.IntegerRejected | molasses.py:62-66 | digits with no dot and no percent suffix are rejected, and so is input that starts with neither a digit nor a dot |
| SpeedParser.PercentExamples | molasses.py:58-61 | `10pct` and `10%` give 0.1; `25%` gives 0.25 |
| SpeedParser.FractionExamples | molasses.py:62-65 | `0.5` gives 0.5, `.25` gives 0.25, `1.` gives 1.0 |
| SpeedParser.PrefixExamples | molasses.py:58-65 | the match is anchored at the front only: `10pctXYZ` gives 0.1 and `0.5abc` gives 0.5 |
| SpeedParser.SecondDotExample | molasses.py:58-65 | `1.5.3pct` gives 1.5 |
| SpeedParser.RejectExamples | molasses.py:66 | `5`, the empty string, `.` and `garbage` are rejected |
| Argv.SplitOnDoubleDash | molasses.py:69-78 | with no `--`, everything goes before the split and nothing after; otherwise the argument list is the part before, then `--`, then the part after, and the part before holds no `--` |
| Argv.SplitIsFirst | molasses.py:69-78 | the split is made at the first `--`, whatever follows it |
| Argv.TrailingDoubleDash | molasses.py:74-75 | a final `--` leaves nothing after the split |
| Argv.SplitExamples | molasses.py:69-78 | `molasses launch -- chrome -- x` splits at the first `--`; a list without `--` is returned whole |
| Naming.CreateCgName | molasses.py:81-84 | the name is 17 characters: `molasses_cg_` followed by five letters from `abcdefghi` |
| Naming.NameRoundTrip | molasses.py:81-84 | the five draws can be read back from the generated name |
| Naming.NameFromDraws | molasses.py:81-84 | every name that reads back as draws is the name those draws generate |
| Naming.CgHandle | molasses.py:107-108 | the handle ends with the group name, after a `:/` |
| Naming.HandleRoundTrip | molasses.py:107-108 | a non-empty subsystem list without `,` or `:` in any entry, and the name, are read back intact from the handle |
| Naming.CpuHandle | molasses.py:107-108 | the handle of `["cpu"]` is `cpu:/` followed by the name |
| Naming.HandleFromParse | molasses.py:107-108 | whatever a tool reads off a handle, as a controller list and a name, builds exactly that handle again |
| Ledger.BookkeepCreatedCg | molasses.py:137-144 | fails exactly when the name is already in `created_cgs`, the primary key; on success the name is added, and one row per subsystem is appended after the old rows |
| Ledger.RemoveGroup | molasses.py:206-207 | the group leaves `created_cgs` and none of its rows remains |
| Ledger.RowsFor | molasses.py:141-143 | no contract of its own; its meaning, each subsystem numbered by its position, is stated by `Ledger.RecordRows` |
| Ledger.Without | molasses.py:206 | every row kept belongs to another group and was in the table; `Ledger.RowsOfWithout` and `Ledger.RemoveKeepsValid` state that no other group's rows change |
| Ledger.RowsOfWithout | molasses.py:206 | after the delete, the removed group has no rows and every other group has exactly the rows it had, in order |
| Ledger.RecordRows | molasses.py:140-144 | after recording a fresh group, its rows are its subsystems numbered 0, 1, 2, ...; every other group's rows are unchanged |
| Ledger.EmptyValid | molasses.py:122-134 | a freshly created database is in shape; this is the base case of the invariant that `Ledger.RecordKeepsValid`, `Ledger.RemoveKeepsValid` and `Workflows.ReclaimKeepsValid` preserve |
| Ledger.RecordKeepsValid | molasses.py:137-144 | recording a fresh group keeps every row attached to a recorded group and every group's rows numbered from 0 in table order |
| Ledger.RemoveKeepsValid | molasses.py:206-207 | removing a group keeps the database in that shape and leaves every other group's rows as they were |
| Ledger.SortRows | molasses.py:217 | the ordered result holds every row of the table exactly once |
| Ledger.SortRowsSorted | molasses.py:217 | the ordered result is in `(ofcg, seqno)` order, with text compared by character code |
| Ledger.SortBySeqnoOrdered | molasses.py:217 | ordering one group's rows by seqno puts them in ascending seqno order |
| Ledger.RowsOfSortRows | molasses.py:217 | one group's rows in the ordered result are that group's rows in table order, sorted by seqno |
| Ledger.LookupSetdefault | molasses.py:220 | `setdefault(k, []).append(v)` appends `v` to `k`'s list, creating the list when `k` is new, and changes no other key |
| Ledger.NamesSetdefault | molasses.py:220 | a present key keeps the key order; a new key is added at the end |
| Ledger.CollectLookup | molasses.py:218-220 | grouping gives each group the subsystem names of its rows in cursor order, and no entry to a group without rows |
| Ledger.CollectAscending | molasses.py:218-220 | grouping sorted rows gives keys in strictly ascending order, the last being the last row's group |
| Ledger.SetdefaultAppend | molasses.py:220 | no contract of its own; its meaning is stated by `Ledger.LookupSetdefault` and `Ledger.NamesSetdefault` |
| Ledger.Collect | molasses.py:218-220 | no contract of its own; its meaning is stated by `Ledger.CollectLookup` and `Ledger.CollectAscending` |
| Ledger.GetCg2Subsystems | molasses.py:215-222 | no contract of its own; its meaning is stated by `Ledger.GetCg2SubsystemsLookup`, `Ledger.GetCg2SubsystemsKeys` and `Ledger.ValidLookup` |
| Ledger.LookupNames | molasses.py:218-220 | a name has an entry exactly when it is one of the dict's keys |
| Ledger.GetCg2SubsystemsLookup | molasses.py:215-222 | the dict has an entry exactly for the groups with rows, holding their subsystem names in the order of `Ledger.SortBySeqno`, which `Ledger.SortBySeqnoOrdered` proves ascending by seqno |
| Ledger.GetCg2SubsystemsKeys | molasses.py:215-222 | the keys are the groups with rows, each once, in ascending order |
| Ledger.ValidLookup | molasses.py:215-222 | on a database in shape, each group reads back with its subsystem names in the order they were recorded |
| Ledger.RecordRoundTrip | molasses.py:137-144 | recording a fresh group and reading back gives exactly its subsystem list (no entry if the list is empty); every other group reads back unchanged |
| Ledger.RemoveGroupReadBack | molasses.py:206-207 | after removing a group, reading back gives it no entry; every other group reads back unchanged |
| Workflows.Reclaim | molasses.py:197-208 | `ready_for_unlink` stays true exactly when every `cgdelete` succeeds; `created_cgs` loses exactly the groups whose delete succeeded; the loop takes two steps per item |
| Workflows.ReclaimActions | molasses.py:199-202 | for each item, in dict order, the loop kills the group's tasks and then runs `sudo cgdelete <handle>` |
| Workflows.ReclaimRows | molasses.py:203-208 | a group's rows are deleted when its `cgdelete` succeeded and left as they were otherwise |
| Workflows.ReclaimKeepsValid | molasses.py:203-208 | the loop keeps the database in shape |
| Workflows.CmdKillall | molasses.py:193-212 | `killall` never adds a group to `created_cgs` |
| Workflows.KillallDeletes | molasses.py:193-208 | a group is deleted exactly when it has an entry in the dict and `cgdelete` on its handle succeeds |
| Workflows.KillallReadBack | molasses.py:193-208 | reading back after `killall` shows every group whose delete failed as it was, and no group whose delete succeeded |
| Workflows.KillallReady | molasses.py:198-212 | the database is unlinked exactly when no subsystem row is left |
| Workflows.Persisted | molasses.py:210-212 | no contract of its own; its meaning is stated by `Workflows.KillallPersisted` |
| Workflows.KillallPersisted | molasses.py:198-212 | the next run finds an empty database exactly when every `cgdelete` succeeded |
| Workflows.DeleteArgv | molasses.py:100-104 | no contract of its own; `Workflows.ReclaimActions` and `Workflows.KillallOneGroup` state the command line it builds |
| Workflows.KillallOneGroup | molasses.py:193-212 | with one `cpu` group and every tool succeeding, `killall` kills its tasks, runs `sudo cgdelete cpu:/<name>`, and unlinks the database |
| Workflows.Quota | molasses.py:165-168 | the quota is the greatest integer not above 100000 times the fraction |
| Workflows.QuotaWithinPeriod | molasses.py:159-168 | a speed of at most 1.0 gives a quota no larger than the 100000-microsecond period |
| Workflows.QuotaExamples | molasses.py:165-168 | the default `10pct` gives quota 10000; `25%` gives 25000; a fraction of 1.0 gives the full period |
| Workflows.DefaultQuotaArgv | molasses.py:165-169 | the quota command for 10000 is `sudo cgset -r cpu.cfs_quota_us=10000 <name>` |
| Workflows.CreateArgv | molasses.py:87-97 | no contract of its own; `Workflows.CmdLaunch` and `Workflows.LaunchSucceeds` place it first in the trace |
| Workflows.PeriodArgv | molasses.py:159-164 | no contract of its own; `Workflows.CmdLaunch` and `Workflows.LaunchSucceeds` place it third in the trace |
| Workflows.QuotaArgv | molasses.py:165-170 | no contract of its own; `Workflows.DefaultQuotaArgv` states its tokens for the default speed |
| Workflows.ExecArgv | molasses.py:172-176 | no contract of its own; `Workflows.CmdLaunch` and `Workflows.LaunchSucceeds` place it last in the trace |
| Workflows.CmdLaunch | molasses.py:147-176 | the steps taken are a prefix of create, record, set period, set quota and `cgexec`; the steps stop at the first failing tool; a duplicate name fails at the record step, and an invalid speed right after it, and in both cases the trace is exactly the create and record steps; the group is recorded exactly when `cgcreate` succeeded on a fresh name |
| Workflows.LaunchLeavesGroup | molasses.py:147-152 | once `cgcreate` succeeds on a fresh name, the group reads back with `["cpu"]` whatever fails later, an invalid speed included; other groups read back unchanged |
| Workflows.LaunchKeepsValid | molasses.py:147-152 | `launch` keeps the database in shape |
| Workflows.LaunchSucceeds | molasses.py:147-176 | with a fresh name, a valid speed and every tool succeeding, all five steps run and the group is recorded with one `cpu` row |
| Workflows.LaunchThenKillall | molasses.py:147-212 | from an empty database, `launch --speed 25%` runs the full plan with quota 25000; a following `killall` deletes the group by its handle, and the next run starts with an empty database |
| Text.NatToDecimal | molasses.py:165-167 | `str` of a non-negative integer is a non-empty digit string, with no leading zero, that reads back as the integer |
| Text.DecimalRoundTrip | molasses.py:165-167 | `str` gives back any digit string without a leading zero from the number it denotes |

## Left out

- `kill_tasks` (molasses.py:179-190) reads `/sys/fs/cgroup/cpu/<name>/tasks` and sends SIGKILL. It is the trace entry `KillTasks(name)`, because it is file I/O and signals.
- Workflows.Reclaim: assumes `kill_tasks` returns normally. It catches only `FileNotFoundError` and `ProcessLookupError` (molasses.py:183, 189). Any other error from `open` or `os.kill` propagates out of `cmd_killall` at molasses.py:200: a `PermissionError` on a task owned by another user, for instance, or a `ValueError` from a malformed line. The group's `cgdelete` then never runs, later groups are not touched, and the database is not unlinked. The model instead runs every item's `cgdelete`, and `Workflows.ReclaimActions`, `Workflows.KillallDeletes` and `Workflows.KillallReady` rely on that.
- Concurrent runs are not modelled: each sub-command is one process acting alone on the database. In the real program a `launch` in another process can record a group (molasses.py:140-144) after `killall` has read the dict (molasses.py:195). If every delete then succeeds, `killall` unlinks `molasses.sq3` (molasses.py:210-212) and erases that group's record. The group's cgroup is then left with no ledger entry.
- `subprocess.check_call`, `sudo` and `print` are left out. Each external command is a `Command(argv)` trace entry, and the oracle `toolOk` says whether it exits with status 0. In `launch`, a non-zero status raises and ends the command; the model records this as `ToolFailed(argv)`. In `killall`, a failed `cgdelete` raises `CalledProcessError`, which is caught (molasses.py:203-204). The loop goes on to the next group, and the only effect is that `readyForUnlink` becomes false.
- `shlex.split` is left out. The model writes the token lists directly: a group name has no whitespace, so each formatted command splits into exactly those tokens.
- The `pwd`/`grp` lookups in `create_cg` are left out. The `user:group` owner string is a parameter.
- `random.Random().choice` is left out. The five draws are a parameter, each a valid index into `abcdefghi`.
- The sqlite layer (`get_bk_conn`, `create_bookeeper`, cursors, `commit`) is left out. The database is a value: a set of group names and a sequence of rows. The primary key of `created_cgs` becomes an `IntegrityError` result. The foreign key is not enforced, because `PRAGMA foreign_keys` is never set; the model's `Valid` predicate states what the code itself maintains.
- Text ordering in `ORDER BY` is lexicographic on character codes. This is sqlite's default BINARY collation on UTF-8 text, which orders by code point. Rows with equal `(ofcg, seqno)` come out of `SortRows` in a fixed order, while sqlite leaves that order unspecified. A database in shape has no such ties, and `Ledger.ValidLookup` does not depend on it.
- `os.unlink` of `molasses.sq3` is the flag `readyForUnlink`. The file a later run finds is `Workflows.Persisted`: empty after an unlink, because the next connection recreates the tables.
- `argparse` and `main` are left out. Only the `--speed` default, `10pct`, is kept (`Workflows.DefaultSpeed`).
- IEEE floating point is left out. The speed is an exact `real`, and `int(100000 * f)` is its floor. Python rounds `float(num)`, the division by 100 and the product to 53-bit binary floats. For everyday speeds the quota can come out one lower than the model's. For large numerals (more than about 16 significant digits, such as `12345678901234567.89`) it can differ from the exact floor by much more, in either direction.
- Workflows.CmdLaunch: does not model the overflow of `100000*speed_fraction` at molasses.py:166. When 100000 times the fraction exceeds the largest double, from a fraction of about 1.8e303, the product is infinity and `int` raises OverflowError. That is a numeral of about 304 digits, or about 306 digits with `pct` or `%`. It happens after the period `cgset`, so the real program runs neither the quota command nor `cgexec`, while the model runs both with a finite quota.
- Workflows.Quota: requires a non-negative fraction, because the parser never yields a negative one; `int` of a negative product is not modelled.
- SpeedParser.SpeedStrToFraction: its own contract states only non-negativity and the error value. Its full meaning, in terms of the two expressions, is proved in `SpeedParser.PercentFormValue`, `SpeedParser.FractionFormValue` and `SpeedParser.SpeedRejects`.
- Workflows.CmdKillall: its own contract states only that no group is added. Its full meaning is proved in `Workflows.KillallDeletes`, `Workflows.KillallReadBack` and `Workflows.KillallReady`.
