# check-openssl-ca in Dafny

A model of `check-openssl-ca.py`, a Nagios plugin that reads the `index.txt`
ledger an OpenSSL certificate authority keeps and reports certificates that
are about to expire or have recently expired.

The script reads the ledger line by line. Each line is unpacked into six
tab-separated fields. Revoked rows (status `R`) are skipped. Each other row's
expiry is turned into a whole number of days from now, and rows more than
thirty days past expiry are dropped. The rest are filed in a map of
*suspects*, keyed by the Common Name taken from the subject DN; a later row
overwrites an earlier one with the same name. Each suspect is then classed:
expiring within thirty days goes to the warning text, expired within thirty
days goes to the critical text. The run ends with one status line (`OK`,
`WARNING - …` or `CRITICAL - …`) and the matching Nagios exit status
(0, 1, 2; 3 for UNKNOWN when no path is given or the file cannot be opened).

Modules, one per stage of the script:

- `Wrappers` (`wrappers.dfy`): `Option` and `Result`.
- `Text` (`text.dfy`): the Python built-ins the script leans on.
  These are `str.split("\t")`, `str.strip()`, iteration over a file's lines and `%d`.
- `CommonName` (`common_name.dfy`): the search for `/CN=([^/]+)/` and its fallback.
- `Ledger` (`ledger.dfy`): one line's contribution and the fold into the suspect map.
- `Report` (`report.dfy`): Nagios states, per-suspect severity, the two texts and the status line.
- `Check` (`check.dfy`): a whole run, including the loop over the map in an unspecified order.

Conventions of the model:

- The clock and `datetime.strptime` are parameters, and both are naive
  date-time readings in microseconds. `now` is the local wall-clock reading
  of `datetime.now()` (line 28). A `Strptime` maps an expiry field to the
  UTC reading it spells, or to `None` where the parser raises (line 33);
  the trailing `Z` is only a literal letter to the parser, not a time zone.
  `diff.days` is the floor of the difference in days, because a Python
  `timedelta` keeps a non-negative seconds part. For negative differences
  this is the floor, not truncation toward zero.
- Lines keep their trailing newline, as Python's file iteration yields them.
  So the DN field of every line but possibly the last ends in `\n`.
  `[^/]` matches a newline.
- A DN whose only `/CN=` is its last component (`/C=US/CN=x`) has no `/`
  after the name. The pattern does not match, so the whole stripped DN is
  used as the name (`CommonName.FallsBackWithoutClosingSlash`).
- A suspect exactly thirty days past expiry passes the age filter, since the
  filter is `< -30`. It is then classed as neither warning nor critical, so it
  is never reported (`Check.BoundaryGap`). The model keeps this behaviour.
- A line that does not split into six fields, or whose expiry does not parse
  (only checked for non-revoked rows), raises an exception nobody catches.
  The model ends the run with `Aborted(error)`, naming the first such line
  (`Ledger.BuildStopsAtFirstError`).
- Python 2 iterates over a dict in no promised order. The functional report
  takes the order as a parameter (`Report.Enumerates`). `Check.Accumulate`
  picks keys with `:|` and proves the result matches *some* order.

## Model

| member | source | states |
|---|---|---|
| Text.Split | check-openssl-ca.py:30 | splitting on a tab gives one piece more than there are tabs, and no piece holds a tab |
| Text.JoinSplit | check-openssl-ca.py:30 | joining the pieces with the separator gives back the original line |
| Text.SplitJoin | check-openssl-ca.py:30 | splitting a join of separator-free pieces gives back the pieces |
| Text.Strip | check-openssl-ca.py:41 | the stripped DN is an infix of the DN with whitespace-only margins and neither starts nor ends with whitespace |
| Text.StripIdempotent | check-openssl-ca.py:41 | stripping twice is stripping once |
| Text.Lines | check-openssl-ca.py:29 | the lines the loop visits concatenate to the file, each non-empty with a newline only at its end, and all but the last end with one |
| Text.Decimal | check-openssl-ca.py:47-49 | a `%d` count is a non-empty digit string without a leading zero |
| Text.DecimalRoundTrip | check-openssl-ca.py:47-49 | reading the printed day count back gives the count |
| Text.SpellingUnique | check-openssl-ca.py:47-49 | a count has exactly one canonical decimal spelling, the one `%d` writes, so a printed entry determines its count |
| CommonName.MatchAt | check-openssl-ca.py:39 | trying the pattern at one position succeeds exactly when `/CN=` + a non-empty slash-free group + `/` is there, and the group is then unique |
| CommonName.Search | check-openssl-ca.py:39 | the search returns the leftmost occurrence of the pattern, or nothing when it occurs nowhere |
| CommonName.Extract | check-openssl-ca.py:38-41 | the name is the group of the first occurrence when there is one, else the stripped DN |
| CommonName.GroupIsSlashFree | check-openssl-ca.py:39 | a matched name is non-empty and holds no `/` |
| CommonName.ExtractFirst | check-openssl-ca.py:38-41 | an occurrence with no `/CN=` before it determines the name |
| CommonName.ExampleSubject | check-openssl-ca.py:38-41 | `/C=US/CN=example.com/O=Org/` followed by anything yields `example.com` |
| CommonName.FallsBackWithoutClosingSlash | check-openssl-ca.py:38-41 | when no `/` follows any `/CN=` and its first character, the name is the stripped DN, as for every DN whose only `/CN=` is its last component |
| Ledger.ParseRecord | check-openssl-ca.py:30 | unpacking succeeds exactly when the line holds five tabs, and the record's fields re-joined give the line |
| Ledger.ParseFormat | check-openssl-ca.py:30 | a record with tab-free fields is read back from its line |
| Ledger.WholeDays | check-openssl-ca.py:33-35 | the day count is the floor of the difference: d days <= expiry - now < d + 1 days |
| Ledger.TooOldExactly | check-openssl-ca.py:34-37 | a row is dropped exactly when it expired more than thirty whole days before now |
| Ledger.Contribute | check-openssl-ca.py:30-42 | a line fails on field count exactly when it does not hold exactly five tabs, errors carry the line's index, an expiry error names a field `strptime` rejects, and filed day counts are at least -30 |
| Ledger.BadExpiryAborts | check-openssl-ca.py:31-33 | a well-formed, non-revoked row whose expiry `strptime` rejects stops the scan with that field and the line's index, whatever its subject |
| Ledger.RevokedIsSkipped | check-openssl-ca.py:31-32 | a revoked row contributes nothing, whatever its expiry, DN or parseability of its expiry |
| Ledger.AgeFilter | check-openssl-ca.py:33-42 | a valid row is skipped when its day count is below -30, else filed under its Common Name with that count |
| Ledger.AgeBoundary | check-openssl-ca.py:35-37 | a row at exactly -30 days is filed; one at -31 is not |
| Ledger.Insert | check-openssl-ca.py:42 | filing a name sets its count and leaves every other entry unchanged |
| Ledger.FoldKeys | check-openssl-ca.py:27-42 | a name is in the folded map exactly when some contribution files it |
| Ledger.FoldLastWins | check-openssl-ca.py:27-42 | a name's value is the count of the last contribution filing it |
| Ledger.Scan | check-openssl-ca.py:29-42 | either every line's contribution, in order, or the error of the first line that raises |
| Ledger.Build | check-openssl-ca.py:27-42 | the scan succeeds exactly when every line does, and every suspect has at least -30 days |
| Ledger.BuildStopsAtFirstError | check-openssl-ca.py:29-33 | a failed build carries the error raised by the first line that raises, every earlier line having gone through |
| Ledger.BuildSingle | check-openssl-ca.py:27-42 | a one-line ledger yields exactly that line's contribution |
| Ledger.BuildKeys | check-openssl-ca.py:27-42 | the suspects are exactly the names some line filed |
| Ledger.BuildLastWins | check-openssl-ca.py:27-42 | each suspect's count is the one filed by the last line filing that name |
| Report.Code | check-openssl-ca.py:13 | exit statuses lie in 0..3 |
| Report.CodeRoundTrip | check-openssl-ca.py:13 | a host reading the status back recovers the state, and only 0..3 are states |
| Report.Severity | check-openssl-ca.py:46-49 | warning iff 0 <= days < 30, critical iff -30 < days < 0, neither otherwise, including exactly -30 |
| Report.NoticeText | check-openssl-ca.py:47-49 | a warning entry is `(EXPIRES in D days) cn ` and a critical one `(EXPIRED D days ago) cn `, where D is the canonical decimal spelling of the days left, or of the days since expiry as a positive number |
| Report.Selected | check-openssl-ca.py:44-49 | the notices of a state are exactly the visited suspects in that state with their counts, at most once per name |
| Report.Render | check-openssl-ca.py:44-49 | an accumulated text is empty exactly when no notice was appended |
| Report.TextsStep | check-openssl-ca.py:44-49 | visiting one suspect appends its expiring entry to the warning text, or its expired entry to the critical text, or nothing |
| Report.Summarize | check-openssl-ca.py:51-59 | the exit status is that of the worst suspect; CRITICAL prints critical then warning text, WARNING prints warning text, and the line is `OK` exactly for status 0 |
| Report.ExitStatusByDays | check-openssl-ca.py:44-59 | status 2 iff a suspect is in (-30, 0), 1 iff none is and one is in [0, 30), 0 otherwise and for an empty map |
| Report.SelectedNonEmpty | check-openssl-ca.py:44-49 | a text gets an entry exactly when some suspect is in its state |
| Report.OrderIndependent | check-openssl-ca.py:44 | any two visiting orders select the same notices and give the same exit status |
| Report.SingleSuspect | check-openssl-ca.py:44-59 | the report for a one-suspect map in each of the three cases |
| Report.SingleExpiringExample | check-openssl-ca.py:44-59 | a suspect ten days from expiry gives `WARNING - (EXPIRES in 10 days) <cn> ` with status 1 |
| Report.SingleExpiredExample | check-openssl-ca.py:44-59 | a suspect five days past expiry gives `CRITICAL - (EXPIRED 5 days ago) <cn> ` with status 2, the count printed as a positive number |
| Check.Run | check-openssl-ca.py:17-59 | no argument or an unopenable file gives status 3; a raising line aborts; otherwise the status is the worst suspect's and the line is the report for some visiting order |
| Check.Accumulate | check-openssl-ca.py:44-49 | the loop over the map visits every suspect once and builds exactly the two texts for that order |
| Check.ExpiringExample | check-openssl-ca.py:27-59 | one valid `example.com` row ten days from expiry yields a one-entry map and `WARNING - (EXPIRES in 10 days) example.com ` |
| Check.BoundaryGap | check-openssl-ca.py:35-49 | a row exactly thirty days past expiry is filed yet reported as `OK` |

## Left out

- Standard error: the usage text and the open-failure diagnostic (lines 21-24) are not modelled. Only the exit status 3 is.
- The trailing newline `print` adds to the status line, and the interpreter's own exit status and traceback after an uncaught exception. `Aborted` only names the error.
- `datetime.now()` and `datetime.strptime` with its two-digit-year pivot. These are the `now` and `Strptime` parameters.
- The time-zone skew: line 34 subtracts a local reading from a UTC reading, so on a host whose clock is not at UTC every day count is off by the host's offset. Near midnight such a host can report a certificate as "EXPIRED 1 days ago" before it has expired. The model takes both readings as given and reproduces the skew; it does not model time zones or the offset itself.
- Reading the file: a read error after a successful `open` is not modelled. `readFile` yields the whole contents or nothing.
- The general regular-expression engine: only the one pattern `/CN=([^/]+)/` is modelled.
- Python 2 dict iteration order: left unspecified and quantified over rather than fixed.
- Text.Decimal: formats only non-negative counts, because both `%d` uses in the script receive a non-negative number.
