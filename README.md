# Fund compliance validator

A Dafny model of `ComplianceValidator`, the fund compliance checker in
`src/python/ComplianceChecks.py`. The validator takes a fund record (a
dictionary) and returns a verdict built from two hard-coded rules:

- **ECOSOC_RULE_1**: the `compliance_status` field must be exactly the string `"ACTIVE"`.
- **ECOSOC_RULE_2**: the `last_review_date` field must be a `%Y-%m-%d` date no more
  than 365 days before now. A missing, non-string or unreadable date is reported
  as its own violation, "Invalid last review date".

The verdict lists the violations in the order they are found. It also carries
`is_compliant`, which is true exactly when the list is empty, and the record's
`fund_id`. The validator also holds a rule map. The map comes from a
configuration file, or from a built-in default when the file is missing. It is
returned by `get_compliance_rules` and counted by `generate_compliance_report`,
but the verdict never consults it. The report has a fixed shape: no violations,
status `COMPLIANT`, and the number of loaded rules.

The project has three modules:

- `calendar.dfy` (`Calendar`): proleptic Gregorian dates as Python's `datetime`
  handles them. It covers years 1 to 9999, the leap-year rule and the ordinal day
  number that `toordinal` computes. The closed-form day count is proved equal to a
  reference count that adds up whole years and months. It is also proved to follow
  calendar order and to step by one from a day to the next.
- `strptime.dfy` (`Strptime`): `datetime.strptime(text, "%Y-%m-%d")` as CPython's
  `_strptime` performs it. A regular expression is matched from the start of the
  text; its alternatives are tried in order. The year group is four digits. The
  month group is `1[0-2]|0[1-9]|[1-9]`. The day group is
  `3[01]|[12]\d|0[1-9]|[1-9]| [1-9]`. Text left after the match is "unconverted
  data". Then `date(y, m, d)` rejects year 0 and days past the end of the month.
  The lemmas prove exactly which texts parse to a given date (`ParseDateExactly`).
  They also prove that the canonical text round-trips and that trailing text is rejected.
- `compliance.dfy` (`Compliance`): the record, the violations, the rule map, the
  `ComplianceValidator` class and the report.

The current time is an explicit parameter. `now` is the calendar date of the
clock reading. The review date is parsed at midnight, and the clock reading falls
within its own day. So `(now - last_review).days` is the difference of the two
ordinal day numbers, `DaysBetween`. The `isoformat` timestamps are opaque strings
passed in by the caller.

The repository's test `test_compliance_validation` expects the record with status
`ACTIVE` and review date `2024-01-01` to be compliant. `TestRecordCompliantUntil`
shows that this holds exactly when the clock reads 2024-12-31 or earlier, so the
test fails on any later date; see "## Findings".

## Model

| member | source | states |
|---|---|---|
| `Calendar.DaysInMonth` | src/python/ComplianceChecks.py:47 | a month has 28 to 31 days, and 29 exactly for February of a Gregorian leap year |
| `Calendar.DaysBeforeYearIsYearStart` | src/python/ComplianceChecks.py:48 | the closed-form count of days before a year equals the year-by-year sum of 365- and 366-day years |
| `Calendar.OrdinalCountsDays` | src/python/ComplianceChecks.py:48 | a date's day number is the number of days in all earlier years and earlier months of its year, plus its day of the month |
| `Calendar.OrdinalMonotone` | src/python/ComplianceChecks.py:48 | one valid date comes before another in the calendar if and only if its day number is smaller |
| `Calendar.OrdinalInjective` | src/python/ComplianceChecks.py:48 | two valid dates have the same day number if and only if they are the same date |
| `Calendar.DaysBetween` | src/python/ComplianceChecks.py:48 | the day difference is positive exactly when the later date comes after the earlier one in the calendar, negative exactly when it comes before, and zero exactly on the same date |
| `Calendar.OrdinalNextDay` | src/python/ComplianceChecks.py:48 | the next calendar day has the next day number, across month and year ends |
| `Strptime.MatchMonth` | src/python/ComplianceChecks.py:47 | the month group yields a month from 1 to 12 read from one or two characters |
| `Strptime.MatchDay` | src/python/ComplianceChecks.py:47 | the day group yields a day from 1 to 31 read from one or two characters |
| `Strptime.MatchMonthUnique` | src/python/ComplianceChecks.py:47 | any month alternative that a dash can follow is the one the matcher chose, so backtracking never reads the month differently |
| `Strptime.MakeDate` | src/python/ComplianceChecks.py:47 | the fields become a date exactly when the date is valid; otherwise year 0 and out-of-range days are reported, year first |
| `Strptime.ParseDate` | src/python/ComplianceChecks.py:47 | whatever `%Y-%m-%d` reads is a valid calendar date |
| `Strptime.ParseDateExactly` | src/python/ComplianceChecks.py:47 | a text parses to a valid date if and only if it is one of that date's spellings: a four-digit year, a one- or two-digit month and a one- or two-digit or space-led day, joined by dashes, with nothing after |
| `Strptime.ParseFormat` | src/python/ComplianceChecks.py:47 | the canonical `YYYY-MM-DD` text of every valid date parses back to that date |
| `Strptime.TrailingTextRejected` | src/python/ComplianceChecks.py:47 | any text after a complete canonical date is rejected as unconverted data |
| `Compliance.Get` | src/python/ComplianceChecks.py:39 | a field lookup yields the stored value, or `None` when the key is absent |
| `Compliance.StrptimeYmd` | src/python/ComplianceChecks.py:46-47 | a non-string argument raises TypeError; a string yields exactly the date it parses to, and otherwise raises ValueError carrying the parse error |
| `Compliance.Violations` | src/python/ComplianceChecks.py:36-57 | each of the three violations is present exactly when its rule's condition holds; there are at most two, and an ECOSOC_RULE_1 entry precedes an ECOSOC_RULE_2 entry |
| `Compliance.ComplianceValidator.ValidateCompliance` | src/python/ComplianceChecks.py:32-64 | the verdict holds exactly the violations above, is compliant if and only if there are none, and echoes `fund_id` (or `None`) and the clock reading; it reads no field of the validator |
| `Compliance.DefaultRules` | src/python/ComplianceChecks.py:16-24 | the fallback map holds exactly the rule ECOSOC_RULE_1, with a name, a description and severity HIGH |
| `Compliance.LoadComplianceRules` | src/python/ComplianceChecks.py:9-24 | the loaded configuration is used when the file exists, the default map when it is missing |
| `Compliance.MissingConfigRules` | tests/neuromorphic/test_compliance_checks.py:8-12 | with the configuration file missing the rules are non-empty and contain ECOSOC_RULE_1; a configuration file without that rule replaces the defaults, so the test relies on the file being absent |
| `Compliance.ComplianceValidator.constructor` | src/python/ComplianceChecks.py:5-7 | a new validator stores the loaded rules and its construction time |
| `Compliance.ComplianceValidator.GetComplianceRules` | src/python/ComplianceChecks.py:26-30 | the stored rule map is returned unchanged |
| `Compliance.ComplianceValidator.GenerateComplianceReport` | src/python/ComplianceChecks.py:66-76 | the report always counts the loaded rules, lists no violations, says COMPLIANT, carries the construction time and the placeholder score |
| `Compliance.StatusRuleExactly` | src/python/ComplianceChecks.py:39-43 | ECOSOC_RULE_1 fires if and only if the status is absent or is not exactly the string "ACTIVE"; lower-case "active" fires it |
| `Compliance.ReadableReviewDate` | src/python/ComplianceChecks.py:47-52 | for a readable review date, "Annual review overdue" appears once, after any ECOSOC_RULE_1 entry, if and only if more than 365 days have passed; "Invalid last review date" never appears |
| `Compliance.ReviewBoundary` | src/python/ComplianceChecks.py:48 | exactly 365 days is not overdue, 366 days is, and a review dated today or later never yields an ECOSOC_RULE_2 entry |
| `Compliance.InvalidReviewDate` | src/python/ComplianceChecks.py:46-57 | "Invalid last review date" appears if and only if the field is missing, not a string, or not a `%Y-%m-%d` date, and then "Annual review overdue" does not |
| `Compliance.ParseImpossibleDay` | src/python/ComplianceChecks.py:47 | the text 2023-02-29 is rejected as a day out of range for its month |
| `Compliance.ParseTrailingSpace` | src/python/ComplianceChecks.py:47 | a space after 2024-01-01 is rejected as unconverted data |
| `Compliance.ParseMonthThirteen` | src/python/ComplianceChecks.py:47 | 2024-13-01 does not match the format |
| `Compliance.ParseLeapDay` | src/python/ComplianceChecks.py:47 | 2024-02-29 is read as the leap day of 2024 |
| `Compliance.InvalidReviewDateExamples` | src/python/ComplianceChecks.py:53-57 | a missing value, a non-string, an impossible date, trailing text and a bad month each produce "Invalid last review date"; a leap day does not |
| `Compliance.VerdictShape` | src/python/ComplianceChecks.py:59-61 | the rule identifiers in a verdict are distinct, and the list is empty if and only if no rule condition holds |
| `Compliance.TestRecordCompliantUntil` | tests/neuromorphic/test_compliance_checks.py:14-22 | the test's record (ACTIVE, reviewed 2024-01-01) is compliant if and only if the clock date is no later than 2024-12-31 |
| `Compliance.TestRecordFailsFrom2025` | tests/neuromorphic/test_compliance_checks.py:14-22 | with the clock at 2025-01-01 the test record gets exactly one violation, "Annual review overdue", so the test's assertion fails |
| `Compliance.RecentReviewCompliant` | src/python/ComplianceChecks.py:36-57 | any record marked ACTIVE whose review date, written `YYYY-MM-DD`, lies 0 to 365 days before the clock date has no violations, for every clock date |

## Left out

- Reading `config/compliance_rules.yaml` is I/O. The constructor receives what the
  read produced: `Some(map)` for a parsed file, `None` for FileNotFoundError. A file
  whose YAML is not a mapping of rule names to string fields is not represented. Such
  a file could be empty, and then `len(self.rules)` fails in the report.
- The clock reads (`datetime.now()`) and the `isoformat` renderings are parameters.
  `now` is the calendar date of the reading; its time of day cannot change `.days`,
  which is why only the date is modelled.
- The `compliance_score` placeholder is the float 0.95. It is kept as the integer 95,
  in hundredths; no floating point is modelled.
- Python's `\d` in the year and day groups also matches non-ASCII decimal digits. The
  model reads ASCII digits only. Any other digit is treated as a non-match.
- `PyValue` tells apart `None`, `str` and one stand-in (`PyOther`) for every other
  object. Subclasses of `str` are not modelled. A record that is not a dictionary
  would fail before any rule runs; it is not modelled.
- `src/python/security_validator.py` and `src/python/train_models.py` only call
  packages that are absent from the repository. `tests/quantum/test_quantum_metrics.py`
  imports a class that does not exist. None of them is part of this model.

## Findings

| source | as written | input that shows it | evidently intended | confidence | as-written member | corrected member |
|---|---|---|---|---|---|---|
| tests/neuromorphic/test_compliance_checks.py:14-22 | the test pairs a fixed review date, 2024-01-01, with the real clock and asserts the fund is compliant | any clock date from 2025-01-01 on: the gap is 366 days or more, so "Annual review overdue" is reported and `is_compliant` is false | an active fund reviewed within the last 365 days is compliant, whatever the clock reads | not executed; follows from the proved day arithmetic | `Compliance.TestRecordFailsFrom2025` | `Compliance.RecentReviewCompliant` |
