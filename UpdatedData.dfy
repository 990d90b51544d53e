/**
  The data-transform and aggregation module of the HR dashboard.

  A table is a sequence of rows. `load_transform` fills every missing cell
  with 0 and appends two derived columns, `ToBePromoted` (0 or 1) and
  `ToBeRetrenched` ("Yes" or "No"). The queries count genders and
  retrenchment labels with their percentages, and list the values a user may
  filter on.
 */
module UpdatedData {
  import opened Wrappers
  import opened Series

  /** A cell of a column that may hold text: filling a missing cell puts the number 0 into it. */
  datatype Cell = Num(n: int) | Text(s: string)

  /** A row as read from the file, before filling; `None` is a missing cell. */
  datatype RawRecord = RawRecord(
    gender: Option<Cell>,
    department: Option<Cell>,
    educationField: Option<Cell>,
    jobRole: Option<Cell>,
    age: Option<int>,
    yearsAtCompany: Option<int>,
    yearsSinceLastPromotion: Option<int>,
    performanceRating: Option<int>,
    yearsInCurrentRole: Option<int>,
    // every other column of the file (MonthlyIncome, OverTime, ...), in file order
    others: seq<Option<Cell>>)

  /** A row after missing cells were filled. */
  datatype Record = Record(
    gender: Cell,
    department: Cell,
    educationField: Cell,
    jobRole: Cell,
    age: int,
    yearsAtCompany: int,
    yearsSinceLastPromotion: int,
    performanceRating: int,
    yearsInCurrentRole: int,
    others: seq<Cell>)

  /** A row of the transformed table: the filled record and the two derived columns. */
  datatype Employee = Employee(record: Record, toBePromoted: int, toBeRetrenched: string)

  // ---------------------------------------------------------------------------
  // Filling missing cells

  function FillCell(c: Option<Cell>): Cell
  {
    if c.Some? then c.value else Num(0)
  }

  function FillNumber(c: Option<int>): int
  {
    if c.Some? then c.value else 0
  }

  /** `fillna(0)` on one row: every present cell is kept and every missing cell, in any column, becomes 0. */
  function FillMissing(raw: RawRecord): (r: Record)
    ensures r.gender == if raw.gender.Some? then raw.gender.value else Num(0)
    ensures r.department == if raw.department.Some? then raw.department.value else Num(0)
    ensures r.educationField == if raw.educationField.Some? then raw.educationField.value else Num(0)
    ensures r.jobRole == if raw.jobRole.Some? then raw.jobRole.value else Num(0)
    ensures r.age == if raw.age.Some? then raw.age.value else 0
    ensures r.yearsAtCompany == if raw.yearsAtCompany.Some? then raw.yearsAtCompany.value else 0
    ensures r.yearsSinceLastPromotion == if raw.yearsSinceLastPromotion.Some? then raw.yearsSinceLastPromotion.value else 0
    ensures r.performanceRating == if raw.performanceRating.Some? then raw.performanceRating.value else 0
    ensures r.yearsInCurrentRole == if raw.yearsInCurrentRole.Some? then raw.yearsInCurrentRole.value else 0
    ensures |r.others| == |raw.others|
    ensures forall i :: 0 <= i < |raw.others| ==>
      r.others[i] == if raw.others[i].Some? then raw.others[i].value else Num(0)
  {
    Record(
      FillCell(raw.gender), FillCell(raw.department), FillCell(raw.educationField), FillCell(raw.jobRole),
      FillNumber(raw.age), FillNumber(raw.yearsAtCompany), FillNumber(raw.yearsSinceLastPromotion),
      FillNumber(raw.performanceRating), FillNumber(raw.yearsInCurrentRole),
      seq(|raw.others|, i requires 0 <= i < |raw.others| => FillCell(raw.others[i])))
  }

  /** The row of a file without gaps that reads as `r`. */
  function Complete(r: Record): (raw: RawRecord)
  {
    RawRecord(
      Some(r.gender), Some(r.department), Some(r.educationField), Some(r.jobRole),
      Some(r.age), Some(r.yearsAtCompany), Some(r.yearsSinceLastPromotion),
      Some(r.performanceRating), Some(r.yearsInCurrentRole),
      seq(|r.others|, i requires 0 <= i < |r.others| => Some(r.others[i])))
  }

  /** A row with no missing cell. */
  predicate NoMissing(raw: RawRecord)
  {
    raw.gender.Some? && raw.department.Some? && raw.educationField.Some? && raw.jobRole.Some? &&
    raw.age.Some? && raw.yearsAtCompany.Some? && raw.yearsSinceLastPromotion.Some? &&
    raw.performanceRating.Some? && raw.yearsInCurrentRole.Some? &&
    forall i :: 0 <= i < |raw.others| ==> raw.others[i].Some?
  }

  /** A row without gaps is left as it is: filling reads back exactly the record it was completed from. */
  lemma FillComplete(r: Record)
    ensures NoMissing(Complete(r))
    ensures FillMissing(Complete(r)) == r
  {
    assert FillMissing(Complete(r)).others == r.others;
  }

  /** After filling no cell is missing, and filling again changes nothing. */
  lemma FillIdempotent(raw: RawRecord)
    ensures NoMissing(Complete(FillMissing(raw)))
    ensures FillMissing(Complete(FillMissing(raw))) == FillMissing(raw)
  {
    FillComplete(FillMissing(raw));
  }

  /** On a row without gaps, filling loses nothing: completing the filled row gives the row back. */
  lemma FillNoMissing(raw: RawRecord)
    requires NoMissing(raw)
    ensures Complete(FillMissing(raw)) == raw
  {
    assert Complete(FillMissing(raw)).others == raw.others;
  }

  // ---------------------------------------------------------------------------
  // Derived columns

  /** Due for promotion: at least 5 years since the last promotion and a rating above 2. */
  predicate DuePromotion(r: Record)
    // a rating above 2 rules out both retrenchment rules, so no row is due for both
    ensures DuePromotion(r) ==> !DueRetrenchment(r)
  {
    r.yearsSinceLastPromotion >= 5 && r.performanceRating > 2
  }

  /** Due for retrenchment: 10 or more years in the role with a rating below 3, or 3 to 9 years with a rating of 1. */
  predicate DueRetrenchment(r: Record)
    // nobody under 3 years in the role, and nobody rated 3 or more, is retrenched
    ensures DueRetrenchment(r) ==> 3 <= r.yearsInCurrentRole && r.performanceRating < 3
  {
    (r.yearsInCurrentRole >= 10 && r.performanceRating < 3) ||
    (3 <= r.yearsInCurrentRole && r.yearsInCurrentRole < 10 && r.performanceRating == 1)
  }

  /** The `ToBePromoted` cell: an integer flag, not a boolean. */
  function PromotionFlag(r: Record): (flag: int)
    ensures flag == 0 || flag == 1
    ensures flag == 1 <==> DuePromotion(r)
  {
    if DuePromotion(r) then 1 else 0
  }

  /** The `ToBeRetrenched` cell: the boolean mapped through {True: "Yes", False: "No"}. */
  function RetrenchLabel(r: Record): (answer: string)
    ensures answer == "Yes" || answer == "No"
    ensures answer == "Yes" <==> DueRetrenchment(r)
  {
    if DueRetrenchment(r) then "Yes" else "No"
  }

  /** The highest rating that is retrenched, by years in the current role (0: no valid rating is). */
  function RetrenchCutoff(yearsInRole: int): int
  {
    if yearsInRole >= 10 then 2 else if yearsInRole >= 3 then 1 else 0
  }

  /** For ratings on the 1 to 4 scale, the rule reads as bands: a row is retrenched exactly when its
      rating is at most the cutoff of its band (none below 3 years, 1 for 3 to 9 years, 2 from 10 years). */
  lemma RetrenchBands(r: Record)
    requires 1 <= r.performanceRating <= 4
    ensures DueRetrenchment(r) <==> r.performanceRating <= RetrenchCutoff(r.yearsInCurrentRole)
  {
  }

  /** A rating that was missing (filled with 0) is retrenched after 10 years in the role but never
      in the 3 to 9 year band, whose rule asks for a rating of exactly 1. */
  lemma MissingRatingRetrenchment(raw: RawRecord)
    requires raw.performanceRating.None? && raw.yearsInCurrentRole.Some?
    ensures DueRetrenchment(FillMissing(raw)) <==> raw.yearsInCurrentRole.value >= 10
  {
  }

  /** A row missing its years since the last promotion is never promoted; one missing its years in
      the current role is never retrenched; one missing its rating is never promoted. */
  lemma MissingTenureNeverFlagged(raw: RawRecord)
    ensures raw.yearsSinceLastPromotion.None? ==> PromotionFlag(FillMissing(raw)) == 0
    ensures raw.performanceRating.None? ==> PromotionFlag(FillMissing(raw)) == 0
    ensures raw.yearsInCurrentRole.None? ==> RetrenchLabel(FillMissing(raw)) == "No"
  {
  }

  /** `load_transform` on one row: fill, then compute both derived cells from that row alone. */
  function TransformRow(raw: RawRecord): (e: Employee)
    ensures e.record == FillMissing(raw)
    ensures e.toBePromoted == 0 || e.toBePromoted == 1
    ensures e.toBePromoted == 1 <==> DuePromotion(e.record)
    ensures e.toBeRetrenched == "Yes" || e.toBeRetrenched == "No"
    ensures e.toBeRetrenched == "Yes" <==> DueRetrenchment(e.record)
  {
    var r := FillMissing(raw);
    Employee(r, PromotionFlag(r), RetrenchLabel(r))
  }

  /** The table `load_transform` returns for the rows of a file. */
  function Transformed(raw: seq<RawRecord>): (df: seq<Employee>)
    ensures |df| == |raw|
    ensures Labelled(df)
    ensures forall i :: 0 <= i < |raw| ==> df[i] == TransformRow(raw[i])
  {
    seq(|raw|, i requires 0 <= i < |raw| => TransformRow(raw[i]))
  }

  /** Every row of a transformed table carries both derived columns with one of their two values. */
  predicate Labelled(df: seq<Employee>)
  {
    forall i :: 0 <= i < |df| ==>
      (df[i].toBePromoted == 0 || df[i].toBePromoted == 1) &&
      (df[i].toBeRetrenched == "Yes" || df[i].toBeRetrenched == "No")
  }

  /** The transformed table keeps the number and the order of the rows; each row is its filled record,
      the flag is 1 exactly when that row is due for promotion and the label "Yes" exactly when it is
      due for retrenchment. */
  lemma TransformedRows(raw: seq<RawRecord>)
    ensures |Transformed(raw)| == |raw|
    ensures Labelled(Transformed(raw))
    ensures forall i :: 0 <= i < |raw| ==>
      Transformed(raw)[i].record == FillMissing(raw[i]) &&
      (Transformed(raw)[i].toBePromoted == 1 <==> DuePromotion(FillMissing(raw[i]))) &&
      (Transformed(raw)[i].toBeRetrenched == "Yes" <==> DueRetrenchment(FillMissing(raw[i])))
  {
  }

  /** The transform works row by row: transforming two files one after the other is transforming them joined. */
  lemma TransformedAppend(a: seq<RawRecord>, b: seq<RawRecord>)
    ensures Transformed(a + b) == Transformed(a) + Transformed(b)
  {
    assert |Transformed(a + b)| == |Transformed(a) + Transformed(b)|;
    forall i | 0 <= i < |a + b|
      ensures Transformed(a + b)[i] == (Transformed(a) + Transformed(b))[i]
    {
      if i >= |a| {
        assert (a + b)[i] == b[i - |a|];
      }
    }
  }

  /** `load_transform`, after parsing: fill the missing cells in place, then assign the
      `ToBePromoted` column, then the `ToBeRetrenched` column as booleans mapped to "Yes"/"No". */
  method LoadTransform(raw: seq<RawRecord>) returns (df: seq<Employee>)
    ensures df == Transformed(raw)
  {
    var n := |raw|;
    var cells := new Record[n];
    for i := 0 to n
      invariant forall k :: 0 <= k < i ==> cells[k] == FillMissing(raw[k])
    {
      cells[i] := FillMissing(raw[i]);
    }
    var rows := cells[..];
    assert forall k :: 0 <= k < n ==> rows[k] == FillMissing(raw[k]);

    var promoted := new int[n];
    for i := 0 to n
      invariant forall k :: 0 <= k < i ==> promoted[k] == PromotionFlag(rows[k])
    {
      promoted[i] := if rows[i].yearsSinceLastPromotion >= 5 && rows[i].performanceRating > 2 then 1 else 0;
    }
    var flags := promoted[..];

    var retrenched := new bool[n];
    for i := 0 to n
      invariant forall k :: 0 <= k < i ==> retrenched[k] == DueRetrenchment(rows[k])
    {
      retrenched[i] := (rows[i].yearsInCurrentRole >= 10 && rows[i].performanceRating < 3) ||
                       (3 <= rows[i].yearsInCurrentRole < 10 && rows[i].performanceRating == 1);
    }
    var due := retrenched[..];

    df := [];
    for i := 0 to n
      invariant |df| == i
      invariant forall k :: 0 <= k < i ==> df[k] == TransformRow(raw[k])
    {
      df := df + [Employee(rows[i], flags[i], if due[i] then "Yes" else "No")];
    }
  }

  // ---------------------------------------------------------------------------
  // Columns of a table

  function Genders(df: seq<Employee>): seq<Cell>
  {
    seq(|df|, i requires 0 <= i < |df| => df[i].record.gender)
  }

  function Departments(df: seq<Employee>): seq<Cell>
  {
    seq(|df|, i requires 0 <= i < |df| => df[i].record.department)
  }

  function EducationFields(df: seq<Employee>): seq<Cell>
  {
    seq(|df|, i requires 0 <= i < |df| => df[i].record.educationField)
  }

  function JobRoles(df: seq<Employee>): seq<Cell>
  {
    seq(|df|, i requires 0 <= i < |df| => df[i].record.jobRole)
  }

  function Ages(df: seq<Employee>): seq<int>
  {
    seq(|df|, i requires 0 <= i < |df| => df[i].record.age)
  }

  function YearsAtCompany(df: seq<Employee>): seq<int>
  {
    seq(|df|, i requires 0 <= i < |df| => df[i].record.yearsAtCompany)
  }

  function RetrenchLabels(df: seq<Employee>): seq<string>
  {
    seq(|df|, i requires 0 <= i < |df| => df[i].toBeRetrenched)
  }

  // ---------------------------------------------------------------------------
  // Filter options

  /** The values offered to filter on: the distinct values of four text columns, and the
      range of two numeric columns. */
  datatype FilterOptions = FilterOptions(
    gender: seq<Cell>,
    department: seq<Cell>,
    educationField: seq<Cell>,
    jobRole: seq<Cell>,
    age: Option<Range>,
    yearsAtCompany: Option<Range>)

  /** `get_filter_options`: with `emptyFilters` the four lists are cleared but the ranges are kept. */
  function GetFilterOptions(df: seq<Employee>, emptyFilters: bool): (opt: FilterOptions)
    ensures emptyFilters ==> opt.gender == [] && opt.department == [] && opt.educationField == [] && opt.jobRole == []
    ensures opt.age.None? <==> df == []
    ensures opt.yearsAtCompany.None? <==> df == []
  {
    var age := Bounds(Ages(df));
    var years := Bounds(YearsAtCompany(df));
    if emptyFilters then
      FilterOptions([], [], [], [], age, years)
    else
      FilterOptions(Distinct(Genders(df)), Distinct(Departments(df)), Distinct(EducationFields(df)),
                    Distinct(JobRoles(df)), age, years)
  }

  /** A list of options for a column: every value of the column once, in order of first appearance. */
  ghost predicate ListsColumn(options: seq<Cell>, column: seq<Cell>)
  {
    NoDuplicates(options) &&
    (forall x :: x in options <==> x in column) &&
    (forall i, j :: 0 <= i < j < |options| ==> FirstIndex(column, options[i]) < FirstIndex(column, options[j]))
  }

  /** Without clearing, each list holds its column's values, each once, in order of first appearance. */
  lemma FilterOptionsListColumns(df: seq<Employee>)
    ensures ListsColumn(GetFilterOptions(df, false).gender, Genders(df))
    ensures ListsColumn(GetFilterOptions(df, false).department, Departments(df))
    ensures ListsColumn(GetFilterOptions(df, false).educationField, EducationFields(df))
    ensures ListsColumn(GetFilterOptions(df, false).jobRole, JobRoles(df))
  {
    DistinctFirstSeenOrder(Genders(df));
    DistinctFirstSeenOrder(Departments(df));
    DistinctFirstSeenOrder(EducationFields(df));
    DistinctFirstSeenOrder(JobRoles(df));
  }

  /** In both modes the ranges are the same: on a non-empty table each is [min, max] of its
      column, with min <= max, both attained, and every value of the column inside. */
  lemma FilterOptionsRanges(df: seq<Employee>, emptyFilters: bool)
    requires df != []
    ensures var opt := GetFilterOptions(df, emptyFilters);
      opt.age == GetFilterOptions(df, !emptyFilters).age &&
      opt.yearsAtCompany == GetFilterOptions(df, !emptyFilters).yearsAtCompany &&
      opt.age.Some? && opt.yearsAtCompany.Some? &&
      opt.age.value.lo <= opt.age.value.hi &&
      opt.yearsAtCompany.value.lo <= opt.yearsAtCompany.value.hi &&
      (forall i :: 0 <= i < |df| ==> opt.age.value.lo <= df[i].record.age <= opt.age.value.hi) &&
      (forall i :: 0 <= i < |df| ==>
        opt.yearsAtCompany.value.lo <= df[i].record.yearsAtCompany <= opt.yearsAtCompany.value.hi) &&
      (exists i :: 0 <= i < |df| && df[i].record.age == opt.age.value.lo) &&
      (exists i :: 0 <= i < |df| && df[i].record.age == opt.age.value.hi) &&
      (exists i :: 0 <= i < |df| && df[i].record.yearsAtCompany == opt.yearsAtCompany.value.lo) &&
      (exists i :: 0 <= i < |df| && df[i].record.yearsAtCompany == opt.yearsAtCompany.value.hi)
  {
    var opt := GetFilterOptions(df, emptyFilters);
    var ages, years := Ages(df), YearsAtCompany(df);
    forall i | 0 <= i < |df|
      ensures opt.age.value.lo <= df[i].record.age <= opt.age.value.hi
      ensures opt.yearsAtCompany.value.lo <= df[i].record.yearsAtCompany <= opt.yearsAtCompany.value.hi
    {
      assert ages[i] in ages;
      assert years[i] in years;
    }
    var lo :| 0 <= lo < |ages| && ages[lo] == opt.age.value.lo;
    var hi :| 0 <= hi < |ages| && ages[hi] == opt.age.value.hi;
    assert df[lo].record.age == opt.age.value.lo;
    assert df[hi].record.age == opt.age.value.hi;
    var ylo :| 0 <= ylo < |years| && years[ylo] == opt.yearsAtCompany.value.lo;
    var yhi :| 0 <= yhi < |years| && years[yhi] == opt.yearsAtCompany.value.hi;
    assert df[ylo].record.yearsAtCompany == opt.yearsAtCompany.value.lo;
    assert df[yhi].record.yearsAtCompany == opt.yearsAtCompany.value.hi;
  }

  // ---------------------------------------------------------------------------
  // Percentages

  /** `(count / total) * 100`, exact (the dashboard then rounds it to 2 decimals). */
  function Percent(count: nat, total: nat): (p: real)
    requires total > 0
    ensures p * (total as real) == (count as real) * 100.0
  {
    var q := count as real / total as real;
    assert q * (total as real) == count as real;
    q * 100.0
  }

  /** Multiplying by a positive factor can be cancelled on both sides of `==` and `<=`. */
  lemma CancelPositive(x: real, y: real, t: real)
    requires t > 0.0
    ensures x * t == y * t ==> x == y
    ensures x * t <= y * t ==> x <= y
  {
    if x < y {
      assert x * t < y * t;
    } else if y < x {
      assert y * t < x * t;
    }
  }

  /** Shares `pa` and `pb` of two parts `a` and `b` of a positive whole `t` lie in [0, 100] and add up to 100. */
  lemma Shares(pa: real, pb: real, a: real, b: real, t: real)
    requires 0.0 <= a && 0.0 <= b && t == a + b && 0.0 < t
    requires pa * t == a * 100.0 && pb * t == b * 100.0
    ensures 0.0 <= pa <= 100.0 && 0.0 <= pb <= 100.0 && pa + pb == 100.0
  {
    calc {
      (pa + pb) * t;
      pa * t + pb * t;
      a * 100.0 + b * 100.0;
      (a + b) * 100.0;
      100.0 * t;
    }
    CancelPositive(pa + pb, 100.0, t);
    assert pa * t <= 100.0 * t && pb * t <= 100.0 * t;
    CancelPositive(pa, 100.0, t);
    CancelPositive(pb, 100.0, t);
    assert 0.0 * t <= pa * t && 0.0 * t <= pb * t;
    CancelPositive(0.0, pa, t);
    CancelPositive(0.0, pb, t);
  }

  /** Two counts that make up the whole give percentages in [0, 100] that add up to 100. */
  lemma PercentShares(a: nat, b: nat)
    requires a + b > 0
    ensures 0.0 <= Percent(a, a + b) <= 100.0 && 0.0 <= Percent(b, a + b) <= 100.0
    ensures Percent(a, a + b) + Percent(b, a + b) == 100.0
  {
    Shares(Percent(a, a + b), Percent(b, a + b), a as real, b as real, (a + b) as real);
  }

  // ---------------------------------------------------------------------------
  // Gender counts

  /** Total, male and female counts and the two percentages. */
  datatype GenderStats = GenderStats(total: nat, male: nat, female: nat, malePct: real, femalePct: real)

  /** `get_gender_count`: rows whose gender is "Male" and rows whose gender is "Female" are counted,
      and the percentages are taken of their sum, or 0 when that sum is 0. */
  function GenderCount(df: seq<Employee>): (g: GenderStats)
    ensures g.male == multiset(Genders(df))[Text("Male")]
    ensures g.female == multiset(Genders(df))[Text("Female")]
    ensures g.total == 0 ==> g.malePct == 0.0 && g.femalePct == 0.0
    ensures g.total > 0 ==> g.malePct == Percent(g.male, g.total) && g.femalePct == Percent(g.female, g.total)
  {
    var male := Count(Genders(df), Text("Male"));
    var female := Count(Genders(df), Text("Female"));
    var total := male + female;
    var malePct := if total > 0 then Percent(male, total) else 0.0;
    var femalePct := if total > 0 then Percent(female, total) else 0.0;
    GenderStats(total, male, female, malePct, femalePct)
  }

  /** The total is the male count plus the female count, never more than the rows, and equal to the
      number of rows exactly when every row's gender is "Male" or "Female"; a filled-in 0 or any
      other value is in neither group. */
  lemma GenderTotal(df: seq<Employee>)
    ensures GenderCount(df).total == GenderCount(df).male + GenderCount(df).female
    ensures GenderCount(df).total <= |df|
    ensures GenderCount(df).total == |df| <==>
      forall i :: 0 <= i < |df| ==> df[i].record.gender == Text("Male") || df[i].record.gender == Text("Female")
  {
    var genders := Genders(df);
    CountPair(genders, Text("Male"), Text("Female"));
    assert forall i :: 0 <= i < |df| ==> genders[i] == df[i].record.gender;
  }

  /** With a non-zero total the two percentages lie in [0, 100] and add up to 100. */
  lemma GenderPercentages(df: seq<Employee>)
    requires GenderCount(df).total > 0
    ensures var g := GenderCount(df);
      0.0 <= g.malePct <= 100.0 && 0.0 <= g.femalePct <= 100.0 && g.malePct + g.femalePct == 100.0
  {
    var g := GenderCount(df);
    PercentShares(g.male, g.female);
  }

  // ---------------------------------------------------------------------------
  // Retrenchment counts

  /** Retrenched and kept counts and their percentages of all rows. */
  datatype RetrenchStats = RetrenchStats(retrench: nat, notRetrench: nat, retrenchPct: real, notRetrenchPct: real)

  /** The error Python raises when dividing by an integer 0. */
  datatype Error = ZeroDivisionError

  /** `get_retrench_count` as written: group sizes of "Yes" and "No" (0 when absent), divided by the
      row count without a guard, so an empty table raises. */
  function RetrenchCount(df: seq<Employee>): (r: Result<RetrenchStats, Error>)
    ensures r.Failure? <==> df == []
    ensures r.Success? ==> r.value.retrench == multiset(RetrenchLabels(df))["Yes"]
    ensures r.Success? ==> r.value.notRetrench == multiset(RetrenchLabels(df))["No"]
    ensures r.Success? ==> r.value.retrenchPct == Percent(r.value.retrench, |df|)
    ensures r.Success? ==> r.value.notRetrenchPct == Percent(r.value.notRetrench, |df|)
  {
    var labels := RetrenchLabels(df);
    var groups := GroupSizes(labels);
    var retrench := GetOr(groups, "Yes", 0);
    var notRetrench := GetOr(groups, "No", 0);
    GroupSizeOrZero(labels, "Yes");
    GroupSizeOrZero(labels, "No");
    var total := |df|;
    if total == 0 then Failure(ZeroDivisionError)
    else Success(RetrenchStats(retrench, notRetrench, Percent(retrench, total), Percent(notRetrench, total)))
  }

  /** On a non-empty transformed table every row is in exactly one group: the two counts add up to
      the row count and the two percentages to 100. */
  lemma RetrenchCountCoversTable(df: seq<Employee>)
    requires Labelled(df) && df != []
    ensures var s := RetrenchCount(df).value;
      s.retrench + s.notRetrench == |df| &&
      0.0 <= s.retrenchPct <= 100.0 && 0.0 <= s.notRetrenchPct <= 100.0 &&
      s.retrenchPct + s.notRetrenchPct == 100.0
  {
    var labels := RetrenchLabels(df);
    assert forall i :: 0 <= i < |labels| ==> labels[i] == df[i].toBeRetrenched;
    CountPair(labels, "Yes", "No");
    var s := RetrenchCount(df).value;
    PercentShares(s.retrench, s.notRetrench);
  }

  /** The table `load_transform` returns is labelled, so its retrenchment counts cover all its rows. */
  lemma RetrenchCountOfLoaded(raw: seq<RawRecord>)
    requires raw != []
    ensures var s := RetrenchCount(Transformed(raw)).value;
      s.retrench + s.notRetrench == |raw| &&
      s.retrench == |DueRows(raw, |raw|)|
  {
    TransformedRows(raw);
    RetrenchCountCoversTable(Transformed(raw));
    var labels := RetrenchLabels(Transformed(raw));
    YesCountIsDue(raw, |raw|);
    assert labels[..|raw|] == labels;
  }

  /** Positions among the first `n` rows of a file that are due for retrenchment. */
  function DueRows(raw: seq<RawRecord>, n: nat): set<nat>
    requires n <= |raw|
  {
    set i: nat | i < n && DueRetrenchment(FillMissing(raw[i]))
  }

  /** One more row adds its position to the rows due exactly when it is due. */
  lemma {:induction false} DueRowsStep(raw: seq<RawRecord>, m: nat)
    requires m < |raw|
    ensures |DueRows(raw, m + 1)| == |DueRows(raw, m)| + (if DueRetrenchment(FillMissing(raw[m])) then 1 else 0)
  {
    var before, now := DueRows(raw, m), DueRows(raw, m + 1);
    var due := DueRetrenchment(FillMissing(raw[m]));
    assert now == before + (if due then {m} else {}) by {
      forall i: nat ensures i in now <==> i in before || (due && i == m) {
      }
    }
    assert m !in before;
  }

  /** Among the first `n` rows of a transformed table, the "Yes" count is the number of rows due for retrenchment. */
  lemma {:induction false} YesCountIsDue(raw: seq<RawRecord>, n: nat)
    requires n <= |raw|
    ensures Count(RetrenchLabels(Transformed(raw))[..n], "Yes") == |DueRows(raw, n)|
  {
    if n > 0 {
      var labels := RetrenchLabels(Transformed(raw));
      var m := n - 1;
      YesCountIsDue(raw, m);
      DueRowsStep(raw, m);
      assert Count(labels[..n], "Yes") ==
        Count(labels[..m], "Yes") + (if DueRetrenchment(FillMissing(raw[m])) then 1 else 0) by {
        var last := labels[..n];
        assert last[..m] == labels[..m];
        assert last[m] == RetrenchLabel(FillMissing(raw[m]));
      }
    } else {
      assert DueRows(raw, 0) == {};
    }
  }

  /** `get_retrench_count` with the zero-row guard `get_gender_count` has: both percentages are 0 on an
      empty table, and on any other table the result is the unguarded one. */
  function GuardedRetrenchCount(df: seq<Employee>): (s: RetrenchStats)
    ensures df == [] ==> s == RetrenchStats(0, 0, 0.0, 0.0)
    ensures df != [] ==> RetrenchCount(df) == Success(s)
  {
    match RetrenchCount(df)
    case Success(s) => s
    case Failure(_) => RetrenchStats(0, 0, 0.0, 0.0)
  }

  /** Counted through the guarded version, a table is never rejected: on every labelled table the
      counts add up to the rows and the percentages add up to 100, or to 0 on an empty table. */
  lemma GuardedRetrenchCountTotal(df: seq<Employee>)
    requires Labelled(df)
    ensures var s := GuardedRetrenchCount(df);
      s.retrench + s.notRetrench == |df| &&
      s.retrenchPct + s.notRetrenchPct == (if df == [] then 0.0 else 100.0)
  {
    if df != [] {
      RetrenchCountCoversTable(df);
    }
  }

  /** The unguarded count rejects the empty table, which a filter selection that matches no row yields. */
  lemma RetrenchCountEmptyRaises()
    ensures RetrenchCount([]) == Failure(ZeroDivisionError)
  {
  }

  // ---------------------------------------------------------------------------
  // Worked cases

  /** Promotion after 6 years with rating 3; none after 4 years whatever the rating; retrenchment
      after 12 years in the role with rating 2 and after 4 years with rating 1, but not with rating 2. */
  lemma DerivationExamples(r: Record)
    ensures PromotionFlag(r.(yearsSinceLastPromotion := 6, performanceRating := 3)) == 1
    ensures r.yearsSinceLastPromotion == 4 ==> PromotionFlag(r) == 0
    ensures RetrenchLabel(r.(yearsInCurrentRole := 12, performanceRating := 2)) == "Yes"
    ensures RetrenchLabel(r.(yearsInCurrentRole := 4, performanceRating := 1)) == "Yes"
    ensures RetrenchLabel(r.(yearsInCurrentRole := 4, performanceRating := 2)) == "No"
  {
  }

  /** Two male and two female rows give a total of 4, counts 2 and 2, and 50% each. */
  lemma GenderCountExample(r: Record)
    ensures var male, female := Employee(r.(gender := Text("Male")), 0, "No"), Employee(r.(gender := Text("Female")), 0, "No");
      GenderCount([male, male, female, female]) == GenderStats(4, 2, 2, 50.0, 50.0)
  {
    var male, female := Employee(r.(gender := Text("Male")), 0, "No"), Employee(r.(gender := Text("Female")), 0, "No");
    var df := [male, male, female, female];
    assert Genders(df) == [Text("Male"), Text("Male"), Text("Female"), Text("Female")];
  }
}
