# njunet-zsh.py in Dafny

`njunet-zsh.py` logs a user in to or out of the Nanjing University campus
network portal, reports the account's balance and usage, and updates itself
from a published copy. This project models the decision logic of that script
and proves properties of the model. The network, the terminal, `ps` and the
file system are replaced by the values they return. The model covers:

- **Billing** (`billing.dfy`): `formatTime`, and the arithmetic of
  `printInfo`. That arithmetic computes the paid time, the consumption in
  cents, and a three-way projection (capped / balance runs out first /
  balance covers the cap).
- **Version** (`version.dfy`): `versionCmp`. It splits on '.', zips the parts
  lazily, and `int()` fails on a non-digit component.
- **SelfUpdate** (`self_update.dfy`): `checkUpdate`. The four-state flag loop
  copies the fetched lines behind the shebang and re-inserts the in-memory
  `username` and `password`. It is written as a loop method, proved equal to a
  specification over the three line indices it looks for.
- **ProcessGuard** (`process_guard.dfy`): `checkProcess`. It splits each
  `ps aux` row, applies the three filters, and tallies the rows in a
  `Counter`. The tally is a `map` built in a loop, proved against a counting
  function.
- **Session** (`session.dfy`): `login`, `logout` and `doLogout`.
  - The globals `username`/`password` are the fields of a class that `Login`
    updates.
  - The three-attempt logout loop is a `while` loop.
- Support modules:
  - `strings.dfy`: `str.split(sep)`, `str.split(None, n)` and substring
    containment.
  - `patterns.dfy`: the fixed-length regular expressions `\d.\d.\d` and
    `njunet.py`.
  - `wrappers.dfy`: `Option`.

Python's `//` by a positive divisor equals Dafny's `/`. Floats are modelled by
exact `real`s. Each exception or `sys.exit()` becomes an outcome value,
except the two index errors, which are preconditions, and an exception from
the unguarded logout `requests.post` in `doLogout`, which is not modelled.

Three behaviours of the code are easy to misread; the model follows the code
in each.

- `versionCmp` is not "first differing field wins". "0.1.10" is newer than
  "0.2.0" because 10 > 0 in the third field (`Version.ExampleNotFirstDifference`).
- The capped branch needs strictly more than 130 hours; at exactly 130 hours
  the projection is still given (`Billing.CapIsStrict`).
- With enough balance, the headroom printed is `TOPTIME - totTime`, not the
  `timeLeft` the test used.

## Model

| member | source | states |
|---|---|---|
| Billing.FormatTime | njunet-zsh.py:73-82 | hours·3600 + minutes·60 + seconds recombine to the input, with minutes and seconds in [0, 60); non-negative hours for non-negative input |
| Billing.FormatTimeUnique | njunet-zsh.py:79-82 | that decomposition is the only one with minutes and seconds in [0, 60) |
| Billing.PaidTime | njunet-zsh.py:100-103 | paid time lies in [0, 100 h]; it is 0 up to the 30 free hours, the full 100 h from 130 h on, and usage minus 30 h in between |
| Billing.PaidTimeMonotone | njunet-zsh.py:103 | paid time never decreases as usage grows |
| Billing.Consumed | njunet-zsh.py:105 | consumption lies in [0, 2000] cents (the 20-yuan cap), is 0 within the free hours and 2000 from 130 h on |
| Billing.ConsumedMonotone | njunet-zsh.py:103-105 | consumption never decreases as usage grows |
| Billing.Project | njunet-zsh.py:109-119 | capped iff usage > 130 h strictly; otherwise "insufficient" iff balance/10 ≤ timeLeft/180, which is the integer test 18·balance ≤ timeLeft; the remaining time is 18·balance + max(0, free − used) and never exceeds the time left to the cap; the headroom is 130 h − usage ≥ 0 |
| Billing.BalanceTest | njunet-zsh.py:112-114 | the float comparison of balance with the cost to the cap is equivalent to the integer comparison 18·balance ≤ timeLeft |
| Billing.BalanceTime | njunet-zsh.py:115 | `balance * PRICE` is the whole number 18·account_balance |
| Billing.CapIsStrict | njunet-zsh.py:109-119 | at exactly 130 h the result is not "capped": it is headroom 0 with a positive balance, and "insufficient" otherwise |
| Billing.PrintInfo | njunet-zsh.py:84-120 | exits when user info is missing, or when time info is missing; otherwise the report's balance is account_balance/10, the hours and minutes shown are `FormatTime` of total_time (so they recombine to it), consumption is paid time / 180, and the projection is exactly `Project` of the balance and usage: capped iff usage > 130 h, otherwise the insufficient/sufficient branch of lines 111-119 |
| Billing.ExampleFortyHours | njunet-zsh.py:100-119 | 40 h used: 200 cents consumed; a balance of 5000 (5 yuan) leaves 90000 s = 25 h |
| Version.ParseInt | njunet-zsh.py:270 | `int()` succeeds exactly on a non-empty string of ASCII digits |
| Version.ZipNewer | njunet-zsh.py:269-272 | the zip loop fails only if some zipped component does not parse |
| Version.Components | njunet-zsh.py:267-270 | all components parse iff the result is `Some`, and it holds their values in order |
| Version.ZipNewerMeans | njunet-zsh.py:265-272 | on well-formed versions, `versionCmp` is true iff some position below the shorter length has a greater fetched component |
| Version.VersionCmpMeans | njunet-zsh.py:265-272 | on two version strings whose components all parse, `versionCmp` is true iff some position below the shorter length has a greater fetched component |
| Version.ComponentsUnique | njunet-zsh.py:267-270 | component values determine the parse result |
| Version.NotNewerThanItself | njunet-zsh.py:265-272 | a well-formed version is never newer than itself |
| Version.ExtraComponentsIgnored | njunet-zsh.py:269 | components beyond the shorter version never change the answer |
| Version.ExampleBothWays | njunet-zsh.py:265-272 | "0.2.0" is newer than "0.1.9", and "0.1.9" is newer than "0.2.0" |
| Version.ExampleLaterComponent | njunet-zsh.py:265-272 | "0.0.5" is newer than "0.1.0" |
| Version.ExampleNotFirstDifference | njunet-zsh.py:265-272 | "0.1.10" is newer than "0.2.0" |
| Version.ExampleSame | njunet-zsh.py:265-272 | "0.1.0" is not newer than "0.1.0" |
| Strings.Split | njunet-zsh.py:267-268 | `str.split(sep)`: at least one part, no part contains the separator, and joining the parts gives back the string |
| Strings.SplitJoin | njunet-zsh.py:267-268 | splitting a join of separator-free parts gives back those parts |
| Strings.SplitWsFields | njunet-zsh.py:189-195 | `str.split(None, n)`: fields are non-empty and do not start with whitespace; no fields iff the string is all whitespace; at most n + 1 fields; with no limit, no field holds any whitespace |
| Strings.SplitWsHead | njunet-zsh.py:193-194 | the first field is the first word of the string after its leading whitespace, or that whole rest when no split is allowed |
| Strings.SplitWsRemainder | njunet-zsh.py:193-195 | once the limit is reached, the last field is a suffix of the string: nothing is cut from its end, trailing whitespace included |
| Strings.SplitWsLimited | njunet-zsh.py:193-195 | once the limit n is reached, the first n fields are the first n words of the unlimited split, and the last field holds all the remaining words: its non-whitespace characters are those words put end to end |
| Strings.SplitWsUnderLimit | njunet-zsh.py:193-195 | a limit that is not reached changes nothing: the split equals the unlimited one |
| Strings.SplitWsNoLimit | njunet-zsh.py:189-193 | every negative limit means no limit |
| Strings.SplitWsSqueeze | njunet-zsh.py:189-195 | with no limit, the fields put end to end are exactly the non-whitespace characters of the string, in order |
| Patterns.Search | njunet-zsh.py:201-202 | `re.search` on a fixed-length pattern: the leftmost match position, or `None` iff there is no match anywhere |
| SelfUpdate.Find | njunet-zsh.py:287-302 | the first line at or after a position that passes a flag state's test, or `None` iff none does |
| SelfUpdate.UserIndex | njunet-zsh.py:295-298 | the username line replaced is the first line after the version line that does not start with '#' and contains "username" |
| SelfUpdate.PasswordIndex | njunet-zsh.py:299-302 | the password line replaced is the first such line mentioning "password" after the username line |
| SelfUpdate.Configure | njunet-zsh.py:295-302 | the output has as many lines as the input, and every line other than the username and password lines is unchanged |
| SelfUpdate.VersionKept | njunet-zsh.py:289-294 | rewriting the two setting lines does not move the version line |
| SelfUpdate.UserKept | njunet-zsh.py:295-298 | rewriting does not move the username line |
| SelfUpdate.PasswordKept | njunet-zsh.py:299-302 | rewriting does not move the password line |
| SelfUpdate.ConfigureReadBack | njunet-zsh.py:295-302 | in the rewritten lines the same three lines are found again, and the two setting lines hold the in-memory credentials |
| SelfUpdate.ConfigureIdempotent | njunet-zsh.py:295-302 | rewriting an already-rewritten script with the same credentials changes nothing |
| SelfUpdate.Advance | njunet-zsh.py:286-302 | one loop step moves the flag to the state for the next line; state 0 on a version line means this is the version line; the step writes the rewritten line |
| SelfUpdate.ExtractVersion | njunet-zsh.py:291 | the result is the five characters of the line at its leftmost `\d.\d.\d` match, with digits at positions 0, 2 and 4 |
| SelfUpdate.Rewrite | njunet-zsh.py:281-304 | up to date iff a version line exists and its version is not newer; replace iff there is no version line or the version is newer; replaced output is the shebang, then every configured line with its newline |
| SelfUpdate.NoMarkerVerbatim | njunet-zsh.py:287-304 | without a `__version__` line the fetched lines are written unchanged behind the shebang |
| SelfUpdate.CopyLine | njunet-zsh.py:288-302 | one pass of the loop: either `checkUpdate` returns here (not newer, or unreadable), and that is its whole answer, or the flag moves to its state for the next line and the line written is the configured line with its newline |
| SelfUpdate.WriteTemp | njunet-zsh.py:280-304 | the flag loop decides and writes exactly what `Rewrite` states |
| SelfUpdate.CheckUpdate | njunet-zsh.py:274-304 | `checkUpdate` on the fetched text drops the piece after the last newline and then behaves as `Rewrite` |
| ProcessGuard.ParseRow | njunet-zsh.py:193-199 | the command is a non-empty token, and command and object contain no whitespace |
| ProcessGuard.ParseRowOwner | njunet-zsh.py:193-194 | the owner `record[0]` is the row's first word (the whole stripped row when no split is made) |
| ProcessGuard.ParseRowField | njunet-zsh.py:189-195 | the tally key `record[-1]`: with all `nfields` splits made, the rest of the row after them, a suffix whose words are the unlimited split's from position `nfields` on; on a row with fewer columns, its last word |
| ProcessGuard.ParseRowWords | njunet-zsh.py:195-199 | `command` is the key's first word and `obj` the first word after it, empty when there is none |
| ProcessGuard.CountPositive | njunet-zsh.py:203-204 | a key has a positive count iff some row has it |
| ProcessGuard.TalliedKeyWitness | njunet-zsh.py:194-203 | every counted key is the command field of a row owned by the login name whose command is not ignored, not a session, and whose argument is not this script |
| ProcessGuard.TallyNonEmpty | njunet-zsh.py:204-205 | the counter is non-empty iff some row was counted |
| ProcessGuard.ConflictsIffKeys | njunet-zsh.py:192-209 | some row after the header is tallied iff some row has a key |
| ProcessGuard.BumpCounts | njunet-zsh.py:203 | `recDict[key] += 1` keeps the counter equal to the count of the keys seen |
| ProcessGuard.CountRow | njunet-zsh.py:193-203 | one loop pass increments the counter at the row's key, and only if the row is tallied |
| ProcessGuard.TallyRows | njunet-zsh.py:191-203 | the loop leaves in the counter exactly the keys with a positive count, each mapped to its number of rows |
| ProcessGuard.CheckProcess | njunet-zsh.py:180-209 | the counter holds each tallied command field with its number of rows, the header is never counted, and the result is true iff some row is tallied |
| Session.Settings.Login | njunet-zsh.py:134-177 | already online: nothing asked, sent or changed; each prompt is shown at most once; the account name is asked for iff none is configured; a typed name that differs from `--user` exits before any POST; accepting the override sets the username to `--user` and resets and re-asks the password; a declined override exits; a POST carries the new globals, and with `--user` its username is `--user`; success iff status 200 and online afterwards |
| Session.Settings.Logout | njunet-zsh.py:212-259 | no user info: nothing happens; with `--user`, nothing is asked and it logs out iff `--user` equals the logged-in id; without it, confirmation is asked iff the configured username is unset or differs, and only 'y' proceeds; an unasked logout only ever targets the named account; whenever it proceeds, `doLogout` runs with all it promises (the process question iff conflicts, no POST unless 'y', POSTs stopping at the first offline probe, at most three, logged out iff one of the three probes is false) |
| Session.DoLogout | njunet-zsh.py:213-229 | the question is asked iff there are conflicts, and anything but 'y' sends nothing; otherwise at most 3 POSTs, stopping right after the first probe that finds the network gone; logged out iff one of the first three probes is false |

## Left out

- HTTP requests are not modelled: `getUserInfo`, `getTimeInfo`, `checkInternet`, the login/logout POSTs, the update download and JSON decoding. Their results are parameters: `Option<UserInfo>`, `Option<int>` totals and statuses, booleans for the probes, and the fetched text.
- `ps aux`, `cp` and `rm`, and the file reads and writes are not modelled. `ps` output is passed in as lines. The running script's first line is passed in. The temporary file's contents are the written line sequence.
- `input`, `getpass.getpass` and `getpass.getuser` are not modelled: the answers and the login name are parameters.
- `time.sleep`, `print`, the ANSI colours, the printed table and the float formatting (`:.2f`, `:.0f`) are not modelled: they are presentation or timing only.
- `argparse` and `main` are not modelled. `sys.exit()` becomes an outcome value.
- Billing.Consumed: floats are exact `real`s, so IEEE rounding of `/` is not modelled.
- Billing.Project: the balance test is decided in exact arithmetic, including the float comparison of line 114.
- Patterns.Search: only fixed-length patterns are modelled, with `.` as any character except a newline and `\d` as ASCII digits. `zsh|/sftp|/bin/bash` is containment of any of the three strings.
- Strings.SplitWsFields: whitespace is the characters below U+0100 that Python treats as whitespace (tab to carriage return, U+001C to U+001F, space, U+0085, U+00A0); whitespace above U+00FF (U+1680, U+2000 to U+200A, U+2028, U+2029, U+202F, U+205F, U+3000) is not modelled.
- Version.ParseInt: accepts only plain ASCII digit strings. The signs, surrounding whitespace, underscores and non-ASCII decimal digits (such as `"٣"`) that `int()` also accepts are not modelled.
- SelfUpdate.CheckUpdate: the `IndexError` when the version line holds no `\d.\d.\d` is a precondition.
- ProcessGuard.CheckProcess: the `IndexError` on a row of only whitespace is a precondition.
- ProcessGuard.CheckProcess: the leading `strip()` of the `ps` output is not modelled; the lines are given.
- Session.DoLogout: requires three probe answers, one per possible POST. It assumes every logout `requests.post` returns; the call is not inside a `try`, so an exception it raises would end `doLogout` uncaught, and that path is not modelled.
- Session.Settings.Login: the `NameError` when the login POST raises (`cont` unbound) is the outcome `PostRaised`.
- Session.Settings.Login: the `printInfo` call after an already-online or successful login is `Billing.PrintInfo`, but it is not composed into `Login`.
- The `update` wrapper that copies the temporary file over the script (lines 306-312) is not modelled: it is file I/O.
