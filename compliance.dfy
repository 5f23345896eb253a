/**
 * The fund compliance validator. A fund record is a Python dictionary; the
 * validator checks two hard-coded rules against it and returns a verdict:
 *
 *   ECOSOC_RULE_1  the `compliance_status` field is exactly the string "ACTIVE";
 *   ECOSOC_RULE_2  the `last_review_date` field is a `%Y-%m-%d` date at most
 *                  365 days before now (an unreadable date is a violation too).
 *
 * The rule map the validator loads at construction is reported on, but the
 * verdict never consults it. The current time is a parameter: `now` is the
 * calendar date of the clock reading, and clock readings rendered with
 * `isoformat` are opaque strings.
 */
module Compliance {
  import opened Calendar
  import opened Strptime

  /** The Python values a record's fields can hold, as far as the validator tells
    * them apart: `None`, a `str`, or any other object (`PyOther`, told apart
    * from others of its kind only by an identifier). */
  datatype PyValue = PyNone | PyStr(s: string) | PyOther(id: int)

  /** A fund record: a dictionary from field names to values. */
  type FundRecord = map<string, PyValue>

  /** `data.get(key)`: the value stored under `key`, or `None` when it is absent. */
  function Get(data: FundRecord, key: string): (v: PyValue)
    ensures key !in data ==> v == PyNone
    ensures key in data ==> v == data[key]
  {
    if key in data then data[key] else PyNone
  }

  datatype Violation = Violation(rule: string, description: string)

  const StatusRule: string := "ECOSOC_RULE_1"
  const ReviewRule: string := "ECOSOC_RULE_2"
  const ActiveStatus: string := "ACTIVE"
  const MaxDaysSinceReview: int := 365

  const NotActive: Violation := Violation(StatusRule, "Fund is not in active compliance status")
  const ReviewOverdue: Violation := Violation(ReviewRule, "Annual review overdue")
  const ReviewInvalid: Violation := Violation(ReviewRule, "Invalid last review date")

  /** The verdict `validate_compliance` returns. */
  datatype Verdict = Verdict(isCompliant: bool, violations: seq<Violation>, fundId: PyValue, timestamp: string)

  // ---------------------------------------------------------------------
  // Parsing the review date.

  datatype StrptimeError = TypeError | ValueError(cause: DateError)

  datatype StrptimeResult = Ok(date: Date) | Raised(error: StrptimeError)

  /** `datetime.strptime(v, "%Y-%m-%d")`, reduced to the calendar date it yields
    * (the time of day is always midnight). A non-string argument is a TypeError;
    * a string that is not such a date is a ValueError. */
  function StrptimeYmd(v: PyValue): (r: StrptimeResult)
    ensures r.Ok? ==> ValidDate(r.date)
    ensures !v.PyStr? ==> r == Raised(TypeError)
    ensures v.PyStr? ==> (r.Ok? <==> ParseDate(v.s).Parsed?)
    ensures v.PyStr? && ParseDate(v.s).Parsed? ==> r == Ok(ParseDate(v.s).date)
    ensures v.PyStr? && ParseDate(v.s).Failed? ==> r == Raised(ValueError(ParseDate(v.s).error))
  {
    match v
    case PyStr(s) =>
      (match ParseDate(s)
       case Parsed(d) => Ok(d)
       case Failed(e) => Raised(ValueError(e)))
    case _ => Raised(TypeError)
  }

  // ---------------------------------------------------------------------
  // What each rule finds.

  /** ECOSOC_RULE_1 fails: the status is absent, not a string, or not exactly "ACTIVE". */
  predicate StatusViolated(data: FundRecord) {
    Get(data, "compliance_status") != PyStr(ActiveStatus)
  }

  /** ECOSOC_RULE_2 cannot read the review date: `strptime` raises. */
  predicate ReviewDateInvalid(data: FundRecord) {
    StrptimeYmd(Get(data, "last_review_date")).Raised?
  }

  /** ECOSOC_RULE_2 reads the review date and finds it more than 365 days before `now`. */
  predicate ReviewIsOverdue(data: FundRecord, now: Date)
    requires ValidDate(now)
  {
    var r := StrptimeYmd(Get(data, "last_review_date"));
    r.Ok? && DaysBetween(r.date, now) > MaxDaysSinceReview
  }

  /** The violations the validator reports for `data` at date `now`, in the order it finds them. */
  function Violations(data: FundRecord, now: Date): (r: seq<Violation>)
    requires ValidDate(now)
    ensures NotActive in r <==> StatusViolated(data)
    ensures ReviewOverdue in r <==> ReviewIsOverdue(data, now)
    ensures ReviewInvalid in r <==> ReviewDateInvalid(data)
    ensures forall v :: v in r ==> v == NotActive || v == ReviewOverdue || v == ReviewInvalid
    ensures |r| <= 2
    ensures forall i, j :: 0 <= i < j < |r| ==> r[i].rule == StatusRule && r[j].rule == ReviewRule
  {
    (if StatusViolated(data) then [NotActive] else [])
    + (if ReviewDateInvalid(data) then [ReviewInvalid]
       else if ReviewIsOverdue(data, now) then [ReviewOverdue]
       else [])
  }

  // ---------------------------------------------------------------------
  // Rules and the report.

  type RuleFields = map<string, string>

  /** The loaded rule map: rule identifier to the rule's fields. */
  type RuleMap = map<string, RuleFields>

  /** The rules used when the configuration file is missing. */
  function DefaultRules(): (r: RuleMap)
    ensures r.Keys == {StatusRule}
    ensures r[StatusRule].Keys == {"name", "description", "severity"}
    ensures r[StatusRule]["severity"] == "HIGH"
  {
    map[StatusRule := map["name" := "Active Status Check",
                          "description" := "Fund must have active compliance status",
                          "severity" := "HIGH"]]
  }

  /** `_load_compliance_rules`: the parsed configuration when the file exists
    * (`Some`), the default rules when opening it raises FileNotFoundError (`None`). */
  function LoadComplianceRules(config: Option<RuleMap>): (r: RuleMap)
    ensures config.Some? ==> r == config.value
    ensures config.None? ==> r == DefaultRules()
  {
    match config
    case Some(loaded) => loaded
    case None => DefaultRules()
  }

  /** Without a configuration file the rules are non-empty and hold ECOSOC_RULE_1;
    * a configuration file that lacks that rule replaces them entirely. */
  lemma MissingConfigRules()
    ensures |LoadComplianceRules(None)| > 0 && StatusRule in LoadComplianceRules(None)
    ensures StatusRule !in LoadComplianceRules(Some(map[]))
  {
  }

  /** The report `generate_compliance_report` returns. The score is the fixed
    * placeholder 0.95, kept as 95 hundredths. */
  datatype Report = Report(
    timestamp: string,
    complianceScoreHundredths: int,
    violations: seq<Violation>,
    rulesChecked: nat,
    status: string)

  const PlaceholderScoreHundredths: int := 95

  class ComplianceValidator {
    var rules: RuleMap
    var validationTimestamp: string

    /** `config` is what reading the configuration file produced; `clock` is the
      * construction time as `isoformat` renders it. */
    constructor (config: Option<RuleMap>, clock: string)
      ensures rules == LoadComplianceRules(config)
      ensures validationTimestamp == clock
    {
      rules := LoadComplianceRules(config);
      validationTimestamp := clock;
    }

    /** All compliance rules: the stored map, unchanged. */
    function GetComplianceRules(): (r: RuleMap)
      reads this
      ensures r == rules
    {
      rules
    }

    /** Checks `data` against both rules. `now` is the date of the clock reading
      * the review date is compared with, `clock` the rendered clock reading
      * stamped on the verdict. The validator's own fields are not consulted. */
    method ValidateCompliance(data: FundRecord, now: Date, clock: string) returns (result: Verdict)
      requires ValidDate(now)
      ensures result.violations == Violations(data, now)
      ensures result.isCompliant <==> result.violations == []
      ensures result.fundId == Get(data, "fund_id")
      ensures result.timestamp == clock
    {
      var violations: seq<Violation> := [];
      if Get(data, "compliance_status") != PyStr(ActiveStatus) {
        violations := violations + [NotActive];
      }
      match StrptimeYmd(Get(data, "last_review_date")) {
        case Ok(lastReview) =>
          if DaysBetween(lastReview, now) > MaxDaysSinceReview {
            violations := violations + [ReviewOverdue];
          }
        case Raised(_) =>
          violations := violations + [ReviewInvalid];
      }
      result := Verdict(|violations| == 0, violations, Get(data, "fund_id"), clock);
    }

    /** The fixed-shape report: whatever was validated before, it lists no
      * violations, says COMPLIANT and counts the loaded rules. */
    function GenerateComplianceReport(): (r: Report)
      reads this
      ensures r.rulesChecked == |rules|
      ensures r.violations == [] && r.status == "COMPLIANT"
      ensures r.timestamp == validationTimestamp
      ensures r.complianceScoreHundredths == PlaceholderScoreHundredths
    {
      Report(validationTimestamp, PlaceholderScoreHundredths, [], |rules|, "COMPLIANT")
    }
  }

  // ---------------------------------------------------------------------
  // Properties of the verdict.

  /** The status rule fires exactly when the status is absent or differs from
    * "ACTIVE", case included. */
  lemma StatusRuleExactly(data: FundRecord, now: Date)
    requires ValidDate(now)
    ensures NotActive in Violations(data, now)
            <==> "compliance_status" !in data || data["compliance_status"] != PyStr("ACTIVE")
    ensures Violations(data["compliance_status" := PyStr("active")], now)[0] == NotActive
  {
    var lower := data["compliance_status" := PyStr("active")];
    assert PyStr("active") != PyStr("ACTIVE");
    assert StatusViolated(lower);
  }

  /** A readable review date: "Annual review overdue" appears, once, exactly when
    * more than 365 days have passed; "Invalid last review date" never appears. */
  lemma ReadableReviewDate(data: FundRecord, now: Date, review: Date)
    requires ValidDate(now)
    requires StrptimeYmd(Get(data, "last_review_date")) == Ok(review)
    ensures ReviewInvalid !in Violations(data, now)
    ensures ReviewOverdue in Violations(data, now) <==> Ordinal(now) - Ordinal(review) > 365
    ensures ReviewOverdue in Violations(data, now)
            ==> Violations(data, now) == (if StatusViolated(data) then [NotActive] else []) + [ReviewOverdue]
  {
  }

  /** The overdue check at its boundary: a review exactly 365 days back, or one
    * dated on or after `now`, is not overdue; 366 days back is. */
  lemma ReviewBoundary(data: FundRecord, now: Date, review: Date)
    requires ValidDate(now)
    requires StrptimeYmd(Get(data, "last_review_date")) == Ok(review)
    ensures DaysBetween(review, now) == 365 ==> ReviewOverdue !in Violations(data, now)
    ensures DaysBetween(review, now) == 366 ==> ReviewOverdue in Violations(data, now)
    ensures !Before(review, now) ==> Violations(data, now) == (if StatusViolated(data) then [NotActive] else [])
  {
    OrdinalMonotone(now, review);
    OrdinalInjective(now, review);
  }

  /** "Invalid last review date" appears, once, exactly when the field is missing
    * or not a string, or its text does not parse as a date. */
  lemma InvalidReviewDate(data: FundRecord, now: Date)
    requires ValidDate(now)
    ensures ReviewInvalid in Violations(data, now)
            <==> "last_review_date" !in data
                 || !data["last_review_date"].PyStr?
                 || ParseDate(data["last_review_date"].s).Failed?
    ensures ReviewInvalid in Violations(data, now) ==> ReviewOverdue !in Violations(data, now)
  {
  }

  /** An impossible calendar day is rejected as out of range for its month. */
  lemma ParseImpossibleDay()
    ensures ParseDate("2023-02-29") == Failed(DayOutOfRange)
  {
    assert "2023-02-29"[..4] == "2023" && "2023-02-29"[5..] == "02-29";
    assert "02-29"[3..] == "29";
    assert Number4("2023") == 2023;
  }

  /** A trailing space after a complete date is unconverted data. */
  lemma ParseTrailingSpace()
    ensures ParseDate("2024-01-01 ") == Failed(UnconvertedData(" "))
  {
    assert "2024-01-01 "[..4] == "2024" && "2024-01-01 "[5..] == "01-01 ";
    assert "01-01 "[3..] == "01 ";
    assert "01 "[2..] == " ";
  }

  /** Month 13 does not match the month group followed by a dash. */
  lemma ParseMonthThirteen()
    ensures ParseDate("2024-13-01") == Failed(NoMatch)
  {
    assert "2024-13-01"[..4] == "2024" && "2024-13-01"[5..] == "13-01";
  }

  /** The leap day of a leap year is read. */
  lemma ParseLeapDay()
    ensures ParseDate("2024-02-29") == Parsed(Date(2024, 2, 29))
  {
    assert "2024-02-29"[..4] == "2024" && "2024-02-29"[5..] == "02-29";
    assert "02-29"[3..] == "29";
    assert Number4("2024") == 2024;
  }

  /** Concrete review dates in a record: a missing value, a non-string, an
    * impossible calendar day, trailing text and a malformed month are each
    * reported as invalid; the leap day of a leap year is not. */
  lemma InvalidReviewDateExamples(data: FundRecord, now: Date)
    requires ValidDate(now)
    ensures ReviewInvalid in Violations(data["last_review_date" := PyNone], now)
    ensures ReviewInvalid in Violations(data["last_review_date" := PyOther(20240101)], now)
    ensures ReviewInvalid in Violations(data["last_review_date" := PyStr("2023-02-29")], now)
    ensures ReviewInvalid in Violations(data["last_review_date" := PyStr("2024-01-01 ")], now)
    ensures ReviewInvalid in Violations(data["last_review_date" := PyStr("2024-13-01")], now)
    ensures ReviewInvalid !in Violations(data["last_review_date" := PyStr("2024-02-29")], now)
  {
    var key := "last_review_date";
    assert ReviewDateInvalid(data[key := PyNone]) by {
      assert Get(data[key := PyNone], key) == PyNone;
    }
    assert ReviewDateInvalid(data[key := PyOther(20240101)]) by {
      assert Get(data[key := PyOther(20240101)], key) == PyOther(20240101);
    }
    assert ReviewDateInvalid(data[key := PyStr("2023-02-29")]) by {
      assert Get(data[key := PyStr("2023-02-29")], key) == PyStr("2023-02-29");
      ParseImpossibleDay();
    }
    assert ReviewDateInvalid(data[key := PyStr("2024-01-01 ")]) by {
      assert Get(data[key := PyStr("2024-01-01 ")], key) == PyStr("2024-01-01 ");
      ParseTrailingSpace();
    }
    assert ReviewDateInvalid(data[key := PyStr("2024-13-01")]) by {
      assert Get(data[key := PyStr("2024-13-01")], key) == PyStr("2024-13-01");
      ParseMonthThirteen();
    }
    assert !ReviewDateInvalid(data[key := PyStr("2024-02-29")]) by {
      assert Get(data[key := PyStr("2024-02-29")], key) == PyStr("2024-02-29");
      ParseLeapDay();
    }
  }

  /** The verdict is compliant exactly when there are no violations, and its
    * rule identifiers are distinct. */
  lemma VerdictShape(data: FundRecord, now: Date)
    requires ValidDate(now)
    ensures var r := Violations(data, now);
            forall i, j :: 0 <= i < j < |r| ==> r[i].rule != r[j].rule
    ensures Violations(data, now) == [] <==> !StatusViolated(data) && !ReviewDateInvalid(data) && !ReviewIsOverdue(data, now)
  {
  }

  /** The fund record the repository's own test validates. */
  function TestRecord(): FundRecord {
    map["fund_id" := PyStr("TEST001"),
        "compliance_status" := PyStr("ACTIVE"),
        "last_review_date" := PyStr("2024-01-01")]
  }

  /** The test record is compliant exactly when `now` is no later than 2024-12-31,
    * the 365th day after 2024-01-01. */
  lemma TestRecordCompliantUntil(now: Date)
    requires ValidDate(now)
    ensures Violations(TestRecord(), now) == [] <==> !Before(Date(2024, 12, 31), now)
  {
    var review := Date(2024, 1, 1);
    var last := Date(2024, 12, 31);
    assert ParseDate("2024-01-01") == Parsed(review) by {
      assert "2024-01-01"[5..] == "01-01";
      assert "01-01"[3..] == "01";
      assert Number4("2024") == 2024;
    }
    assert Get(TestRecord(), "last_review_date") == PyStr("2024-01-01");
    assert !StatusViolated(TestRecord());
    assert DaysBetween(review, last) == 365;
    OrdinalMonotone(last, now);
  }

  /** As written, the repository's test fails once the clock reads 2025-01-01:
    * that is 366 days after the record's fixed review date. */
  lemma TestRecordFailsFrom2025()
    ensures Violations(TestRecord(), Date(2025, 1, 1)) == [ReviewOverdue]
  {
    TestRecordCompliantUntil(Date(2025, 1, 1));
    assert !StatusViolated(TestRecord());
  }

  /** What the test evidently means: a record marked active whose last review,
    * written `YYYY-MM-DD`, lies within the 365 days up to and including `now`
    * is compliant, whatever `now` is. */
  lemma RecentReviewCompliant(data: FundRecord, now: Date, review: Date)
    requires ValidDate(now) && ValidDate(review)
    ensures 0 <= DaysBetween(review, now) <= MaxDaysSinceReview
            ==> Violations(data["compliance_status" := PyStr(ActiveStatus)]
                               ["last_review_date" := PyStr(FormatDate(review))], now) == []
  {
    var record := data["compliance_status" := PyStr(ActiveStatus)]
                      ["last_review_date" := PyStr(FormatDate(review))];
    assert Get(record, "compliance_status") == PyStr(ActiveStatus);
    assert Get(record, "last_review_date") == PyStr(FormatDate(review));
    ParseFormat(review);
  }
}
