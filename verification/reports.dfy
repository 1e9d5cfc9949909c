/**
 * The four report queries.  Each is a GROUP BY over the request table (joined
 * with another table for two of them), answered as one row per group in the
 * order of the ORDER BY clause.  A table is a map from primary key to row, so
 * each request row is counted once.
 */
module Reports {
  import opened Wrappers
  import opened Schema
  import opened Ordering
  import Calendar

  // ---------------------------------------------------------------------
  // The "completed" status both average-time reports look up first.

  /** Ids of the status rows named CompletedName. */
  ghost function CompletedIds(statuses: map<int, string>): set<int> {
    set k | k in statuses && statuses[k] == CompletedName
  }

  /** The least element of a non-empty set of ids. */
  ghost function LeastId(s: set<int>): (m: int)
    requires s != {}
    ensures m in s
    ensures forall k :: k in s ==> m <= k
  {
    IntLessIsStrictTotal();
    var ids := SortedBy(s, IntLess);
    assert forall k :: k in s ==> ids[0] <= k by {
      forall k | k in s ensures ids[0] <= k {
        var i :| 0 <= i < |ids| && ids[i] == k;
        assert i == 0 || IntLess(ids[0], ids[i]);
      }
    }
    ids[0]
  }

  /**
   * The id the first row of the status lookup carries (taken as the least id
   * with that name).  A missing row and the id 0 are both falsy, and both
   * abort the report.
   */
  ghost function CompletedStatusId(statuses: map<int, string>): (r: Result<int, Error>)
    ensures r.Success? ==> r.value in statuses && statuses[r.value] == CompletedName && r.value != 0
    ensures r.Success? ==> forall k :: k in statuses && statuses[k] == CompletedName ==> r.value <= k
    ensures r.Failure? ==> r.error == MissingCompletedStatus
    ensures r.Failure? <==> CompletedIds(statuses) == {} || LeastId(CompletedIds(statuses)) == 0
  {
    var ids := CompletedIds(statuses);
    assert forall k :: k in statuses && statuses[k] == CompletedName ==> k in ids;
    if ids == {} then Failure(MissingCompletedStatus)
    else if LeastId(ids) == 0 then Failure(MissingCompletedStatus)
    else Success(LeastId(ids))
  }

  // ---------------------------------------------------------------------
  // /api/reports and /api/reportsSpecialist: mean completion time per month.

  /** Where the measured time starts: acceptance (/api/reports) or sending (/api/reportsSpecialist). */
  datatype Measure = FromAccept | FromSend

  /** One output row: the month and the mean in hours, NULL when no row of the group had a start. */
  datatype MonthAverage = MonthAverage(month: int, averageHours: Option<real>)

  /** The WHERE clause and the group: completed under statusId, with a completion date in month. */
  predicate InGroup(r: Request, statusId: int, month: int)
    ensures InGroup(r, statusId, month) ==> 1 <= month <= 12
  {
    r.statusId == statusId && r.completeDate.Some? && Calendar.Month(r.completeDate.value) == month
  }

  function Start(r: Request, measure: Measure): Option<int> {
    match measure
    case FromAccept => r.acceptDate
    case FromSend => Some(r.sendDate)
  }

  /** Hours from start to completion; NULL when either end is NULL. */
  function Duration(r: Request, measure: Measure): (d: Option<int>)
    ensures d.Some? <==> r.completeDate.Some? && Start(r, measure).Some?
  {
    if r.completeDate.Some? && Start(r, measure).Some? then
      Some(r.completeDate.value - Start(r, measure).value)
    else None
  }

  /** The non-NULL durations of the rows, in row order: what AVG averages over. */
  function Durations(rs: seq<Request>, measure: Measure): (ds: seq<int>)
    ensures |ds| <= |rs|
    ensures ds == [] <==> forall i :: 0 <= i < |rs| ==> Duration(rs[i], measure).None?
    decreases |rs|
  {
    if rs == [] then []
    else
      var rest := Durations(rs[..|rs| - 1], measure);
      assert forall i :: 0 <= i < |rs| - 1 ==> rs[..|rs| - 1][i] == rs[i];
      match Duration(rs[|rs| - 1], measure)
      case None => rest
      case Some(d) => rest + [d]
  }

  function Sum(xs: seq<int>): int
    decreases |xs|
  {
    if xs == [] then 0 else Sum(xs[..|xs| - 1]) + xs[|xs| - 1]
  }

  /** AVG: NULL over no values, otherwise the exact mean. */
  function Average(xs: seq<int>): (a: Option<real>)
    ensures a.None? <==> xs == []
  {
    if xs == [] then None else Some(Sum(xs) as real / |xs| as real)
  }

  /** The ids of the requests of one group. */
  ghost function Group(requests: map<int, Request>, statusId: int, month: int): set<int> {
    set k | k in requests && InGroup(requests[k], statusId, month)
  }

  /** The ids of one group, in ascending order. */
  ghost function GroupIds(requests: map<int, Request>, statusId: int, month: int): (ids: seq<int>)
    ensures |ids| == |Group(requests, statusId, month)|
    ensures forall k :: k in ids <==> k in Group(requests, statusId, month)
    ensures forall i :: 0 <= i < |ids| ==> ids[i] in requests
    ensures forall i :: 0 <= i < |ids| ==> InGroup(requests[ids[i]], statusId, month)
  {
    IntLessIsStrictTotal();
    var ids := SortedBy(Group(requests, statusId, month), IntLess);
    assert forall i :: 0 <= i < |ids| ==> ids[i] in Group(requests, statusId, month) by {
      forall i | 0 <= i < |ids| ensures ids[i] in Group(requests, statusId, month) {
        assert ids[i] in ids;
      }
    }
    ids
  }

  /** The rows under the given ids, in the same order. */
  ghost function RowsAt(requests: map<int, Request>, ids: seq<int>): (rs: seq<Request>)
    requires forall i :: 0 <= i < |ids| ==> ids[i] in requests
    ensures |rs| == |ids|
    ensures forall i :: 0 <= i < |rs| ==> rs[i] == requests[ids[i]]
    decreases |ids|
  {
    if ids == [] then [] else RowsAt(requests, ids[..|ids| - 1]) + [requests[ids[|ids| - 1]]]
  }

  /** The rows of one group, in id order. */
  ghost function GroupRows(requests: map<int, Request>, statusId: int, month: int): (rs: seq<Request>)
    ensures |rs| == |GroupIds(requests, statusId, month)|
    ensures forall i :: 0 <= i < |rs| ==> rs[i] == requests[GroupIds(requests, statusId, month)[i]]
  {
    RowsAt(requests, GroupIds(requests, statusId, month))
  }

  /** The output row of one month. */
  ghost function MonthRow(requests: map<int, Request>, statusId: int, month: int, measure: Measure): (r: MonthAverage)
    ensures r.month == month
    ensures r.averageHours.Some? ==> Group(requests, statusId, month) != {}
  {
    var rows := GroupRows(requests, statusId, month);
    assert |Durations(rows, measure)| <= |Group(requests, statusId, month)|;
    MonthAverage(month, Average(Durations(rows, measure)))
  }

  /** A group exists for month exactly when month was selected and some completed row falls in it. */
  ghost predicate HasGroup(requests: map<int, Request>, statusId: int, months: seq<int>, month: int) {
    month in months && Group(requests, statusId, month) != {}
  }

  /** The months listed: selected and non-empty, which puts them between 1 and 12. */
  ghost function ReportMonths(requests: map<int, Request>, statusId: int, months: seq<int>): (s: set<int>)
    ensures forall m :: m in s <==> HasGroup(requests, statusId, months, m)
  {
    var s := set m | 1 <= m <= 12 && HasGroup(requests, statusId, months, m);
    assert forall m :: HasGroup(requests, statusId, months, m) ==> m in s by {
      forall m | HasGroup(requests, statusId, months, m) ensures m in s {
        var k := Pick(Group(requests, statusId, m));
      }
    }
    s
  }

  /** The listed months in ascending order. */
  ghost function SortedMonths(requests: map<int, Request>, statusId: int, months: seq<int>): (ms: seq<int>)
    ensures |ms| == |ReportMonths(requests, statusId, months)|
    ensures forall m :: m in ms <==> HasGroup(requests, statusId, months, m)
    ensures forall i, j :: 0 <= i < j < |ms| ==> ms[i] < ms[j]
  {
    IntLessIsStrictTotal();
    var ms := SortedBy(ReportMonths(requests, statusId, months), IntLess);
    assert forall i, j :: 0 <= i < j < |ms| ==> ms[i] < ms[j] by {
      forall i, j | 0 <= i < j < |ms| ensures ms[i] < ms[j] {
        assert IntLess(ms[i], ms[j]);
      }
    }
    ms
  }

  /** One output row per month of ms, in the same order. */
  ghost function MonthRows(requests: map<int, Request>, statusId: int, ms: seq<int>, measure: Measure): (r: seq<MonthAverage>)
    ensures |r| == |ms|
    ensures forall i :: 0 <= i < |r| ==> r[i].month == ms[i]
    decreases |ms|
  {
    if ms == [] then []
    else MonthRows(requests, statusId, ms[..|ms| - 1], measure) + [MonthRow(requests, statusId, ms[|ms| - 1], measure)]
  }

  /** The query once the status id is known: one row per listed month, in ascending month order. */
  ghost function AverageReport(requests: map<int, Request>, statusId: int, months: seq<int>, measure: Measure): (r: seq<MonthAverage>)
    ensures forall m :: (exists i :: 0 <= i < |r| && r[i].month == m) <==> HasGroup(requests, statusId, months, m)
    ensures forall i, j :: 0 <= i < j < |r| ==> r[i].month < r[j].month
    ensures forall i :: 0 <= i < |r| ==> r[i] == MonthRow(requests, statusId, r[i].month, measure)
  {
    var ms := SortedMonths(requests, statusId, months);
    var r := MonthRows(requests, statusId, ms, measure);
    RowsFollowKeys(r, ms, (row: MonthAverage) => row.month, IntLess);
    MonthRowsHoldAverages(requests, statusId, ms, measure);
    r
  }

  /** Every row of MonthRows is the output row of the month it carries. */
  lemma MonthRowsHoldAverages(requests: map<int, Request>, statusId: int, ms: seq<int>, measure: Measure)
    ensures forall i :: 0 <= i < |MonthRows(requests, statusId, ms, measure)| ==>
      MonthRows(requests, statusId, ms, measure)[i] == MonthRow(requests, statusId, MonthRows(requests, statusId, ms, measure)[i].month, measure)
  {
    var r := MonthRows(requests, statusId, ms, measure);
    forall i | 0 <= i < |r| ensures r[i] == MonthRow(requests, statusId, r[i].month, measure) {
      MonthRowsAreMonthRow(requests, statusId, ms, measure, i);
    }
  }

  /** Each row of a month carries that month's mean. */
  lemma {:induction false} MonthRowsAreMonthRow(requests: map<int, Request>, statusId: int, ms: seq<int>, measure: Measure, i: int)
    requires 0 <= i < |ms|
    ensures MonthRows(requests, statusId, ms, measure)[i] == MonthRow(requests, statusId, ms[i], measure)
    decreases |ms|
  {
    if i < |ms| - 1 {
      MonthRowsAreMonthRow(requests, statusId, ms[..|ms| - 1], measure, i);
    }
  }

  /**
   * The whole handler: the status lookup, then the grouped query.  The
   * months are the already-parsed list of the query string.
   */
  ghost function AverageTimeReport(statuses: map<int, string>, requests: map<int, Request>, months: seq<int>, measure: Measure)
    : (r: Result<seq<MonthAverage>, Error>)
    ensures r.Failure? <==> CompletedStatusId(statuses).Failure?
    ensures r.Failure? ==> r.error == MissingCompletedStatus
    ensures r.Success? ==> r.value == AverageReport(requests, CompletedStatusId(statuses).value, months, measure)
  {
    match CompletedStatusId(statuses)
    case Failure(e) => Failure(e)
    case Success(statusId) => Success(AverageReport(requests, statusId, months, measure))
  }

  // Properties of the average-time reports.

  /**
   * A month is listed exactly when it was selected and some request with the
   * completed status was completed in it.
   */
  lemma AverageReportLists(requests: map<int, Request>, statusId: int, months: seq<int>, measure: Measure, m: int)
    ensures (exists i :: 0 <= i < |AverageReport(requests, statusId, months, measure)| && AverageReport(requests, statusId, months, measure)[i].month == m)
      <==> (m in months && exists k :: k in requests && InGroup(requests[k], statusId, m))
  {
    var r := AverageReport(requests, statusId, months, measure);
    assert (exists i :: 0 <= i < |r| && r[i].month == m) <==> HasGroup(requests, statusId, months, m);
    GroupNonEmpty(requests, statusId, m);
  }

  /** A month's group is non-empty exactly when some request falls in it. */
  lemma GroupNonEmpty(requests: map<int, Request>, statusId: int, m: int)
    ensures Group(requests, statusId, m) != {} <==> exists k :: k in requests && InGroup(requests[k], statusId, m)
  {
    if exists k :: k in requests && InGroup(requests[k], statusId, m) {
      var k :| k in requests && InGroup(requests[k], statusId, m);
      assert k in Group(requests, statusId, m);
    }
  }

  /** Every listed month is a month number from 1 to 12. */
  lemma AverageReportMonthRange(requests: map<int, Request>, statusId: int, months: seq<int>, measure: Measure)
    ensures forall i :: 0 <= i < |AverageReport(requests, statusId, months, measure)| ==>
      1 <= AverageReport(requests, statusId, months, measure)[i].month <= 12
  {
    var r := AverageReport(requests, statusId, months, measure);
    forall i | 0 <= i < |r| ensures 1 <= r[i].month <= 12 {
      var m := r[i].month;
      assert exists j :: 0 <= j < |r| && r[j].month == m;
      assert HasGroup(requests, statusId, months, m);
      var k := Pick(Group(requests, statusId, m));
      assert InGroup(requests[k], statusId, m);
    }
  }

  lemma {:induction false} SumBounds(xs: seq<int>, lo: int, hi: int)
    requires forall i :: 0 <= i < |xs| ==> lo <= xs[i] <= hi
    ensures lo * |xs| <= Sum(xs) <= hi * |xs|
    decreases |xs|
  {
    if xs != [] {
      var n := |xs| - 1;
      SumBounds(xs[..n], lo, hi);
      assert Sum(xs) == Sum(xs[..n]) + xs[n];
      assert lo * |xs| == lo * n + lo && hi * |xs| == hi * n + hi;
    }
  }

  /** A mean lies between any lower and upper bound of the values averaged. */
  lemma AverageBounds(xs: seq<int>, lo: int, hi: int)
    requires xs != []
    requires forall i :: 0 <= i < |xs| ==> lo <= xs[i] <= hi
    ensures lo as real <= Average(xs).value <= hi as real
  {
    SumBounds(xs, lo, hi);
    QuotientBounds(Sum(xs) as real, |xs| as real, lo as real, hi as real);
  }

  lemma QuotientBounds(s: real, n: real, lo: real, hi: real)
    requires n > 0.0
    requires lo * n <= s <= hi * n
    ensures lo <= s / n <= hi
  {
    assert s / n * n == s;
  }

  lemma {:induction false} DurationsBounded(rs: seq<Request>, measure: Measure, lo: int, hi: int)
    requires forall i :: 0 <= i < |rs| && Duration(rs[i], measure).Some? ==> lo <= Duration(rs[i], measure).value <= hi
    ensures forall j :: 0 <= j < |Durations(rs, measure)| ==> lo <= Durations(rs, measure)[j] <= hi
    decreases |rs|
  {
    if rs != [] {
      DurationsBounded(rs[..|rs| - 1], measure, lo, hi);
    }
  }

  /**
   * A month's mean lies between bounds that hold for the time of each
   * request with that status: a bound on single requests bounds the report.
   */
  lemma MonthAverageWithinBounds(requests: map<int, Request>, statusId: int, month: int, measure: Measure, lo: int, hi: int)
    requires forall k ::
      k in requests && requests[k].statusId == statusId && Duration(requests[k], measure).Some? ==> lo <= Duration(requests[k], measure).value <= hi
    ensures MonthRow(requests, statusId, month, measure).averageHours.Some? ==>
      lo as real <= MonthRow(requests, statusId, month, measure).averageHours.value <= hi as real
  {
    var rs := GroupRows(requests, statusId, month);
    forall j | 0 <= j < |rs| && Duration(rs[j], measure).Some?
      ensures lo <= Duration(rs[j], measure).value <= hi
    {
      assert rs[j] == requests[GroupIds(requests, statusId, month)[j]];
    }
    DurationsBounded(rs, measure, lo, hi);
    if Durations(rs, measure) != [] {
      AverageBounds(Durations(rs, measure), lo, hi);
    }
  }

  lemma {:induction false} DurationsFromSendKeepAll(rs: seq<Request>)
    requires forall i :: 0 <= i < |rs| ==> rs[i].completeDate.Some?
    ensures |Durations(rs, FromSend)| == |rs|
    decreases |rs|
  {
    if rs != [] {
      DurationsFromSendKeepAll(rs[..|rs| - 1]);
    }
  }

  /** Measured from sending, which is never NULL, every listed month has a mean. */
  lemma FromSendAlwaysAveraged(requests: map<int, Request>, statusId: int, month: int)
    requires Group(requests, statusId, month) != {}
    ensures MonthRow(requests, statusId, month, FromSend).averageHours.Some?
  {
    var rs := GroupRows(requests, statusId, month);
    forall j | 0 <= j < |rs| ensures rs[j].completeDate.Some? {
      assert rs[j] == requests[GroupIds(requests, statusId, month)[j]];
    }
    DurationsFromSendKeepAll(rs);
  }

  lemma {:induction false} DurationsEmptyWithoutAccept(rs: seq<Request>)
    requires forall i :: 0 <= i < |rs| ==> rs[i].acceptDate.None?
    ensures Durations(rs, FromAccept) == []
    decreases |rs|
  {
    if rs != [] {
      DurationsEmptyWithoutAccept(rs[..|rs| - 1]);
    }
  }

  lemma {:induction false} DurationsNonEmptyWithAccept(rs: seq<Request>, j: int)
    requires 0 <= j < |rs| && rs[j].completeDate.Some? && rs[j].acceptDate.Some?
    ensures Durations(rs, FromAccept) != []
    decreases |rs|
  {
    if j < |rs| - 1 {
      DurationsNonEmptyWithAccept(rs[..|rs| - 1], j);
    }
  }

  /**
   * Measured from acceptance, a month's mean is NULL exactly when none of its
   * completed requests has an acceptance date.
   */
  lemma FromAcceptNullIffNoneAccepted(requests: map<int, Request>, statusId: int, month: int)
    ensures MonthRow(requests, statusId, month, FromAccept).averageHours.None? <==>
      forall k :: k in Group(requests, statusId, month) ==> requests[k].acceptDate.None?
  {
    var rs := GroupRows(requests, statusId, month);
    if forall k :: k in Group(requests, statusId, month) ==> requests[k].acceptDate.None? {
      forall j | 0 <= j < |rs| ensures rs[j].acceptDate.None? {
        assert rs[j] == requests[GroupIds(requests, statusId, month)[j]];
      }
      DurationsEmptyWithoutAccept(rs);
    } else {
      var k :| k in Group(requests, statusId, month) && requests[k].acceptDate.Some?;
      var ids := GroupIds(requests, statusId, month);
      var j :| 0 <= j < |ids| && ids[j] == k;
      assert rs[j] == requests[k];
      DurationsNonEmptyWithAccept(rs, j);
    }
  }

  /** Hour 2883 is 1970-05-01 03:00, in May. */
  lemma MayFirst1970()
    ensures Calendar.Month(2883) == 5
  {
    assert 2883 / 24 == 120;
    assert !Calendar.IsLeapYear(1970) && Calendar.DaysInYear(1970) == 365;
    assert Calendar.YearAndOffset(120, 1970) == (1970, 120);
    assert Calendar.DaysBeforeMonth(1970, 5) == 120 && Calendar.DaysBeforeMonth(1970, 6) == 151;
    assert Calendar.MonthFrom(1970, 120, 1) == Calendar.MonthFrom(1970, 120, 2);
    assert Calendar.MonthFrom(1970, 120, 2) == Calendar.MonthFrom(1970, 120, 3);
    assert Calendar.MonthFrom(1970, 120, 3) == Calendar.MonthFrom(1970, 120, 4);
    assert Calendar.MonthFrom(1970, 120, 4) == Calendar.MonthFrom(1970, 120, 5);
  }

  /** The request of the worked case below. */
  function SampleRequest(): Request {
    Request(1, None, 3, "", 2870, Some(2880), Some(2883))
  }

  lemma SampleMonths()
    ensures SortedMonths(map[1 := SampleRequest()], 3, [5, 6]) == [5]
  {
    var requests := map[1 := SampleRequest()];
    MayFirst1970();
    assert InGroup(SampleRequest(), 3, 5);
    assert ReportMonths(requests, 3, [5, 6]) == {5} by {
      forall m | m in ReportMonths(requests, 3, [5, 6]) ensures m == 5 {
        assert HasGroup(requests, 3, [5, 6], m);
        var k := Pick(Group(requests, 3, m));
        assert k == 1 && InGroup(SampleRequest(), 3, m);
      }
      assert 1 in Group(requests, 3, 5);
      assert HasGroup(requests, 3, [5, 6], 5);
    }
    var ms := SortedMonths(requests, 3, [5, 6]);
    assert |ms| == 1 && 5 in ms;
  }

  lemma SampleMayRow()
    ensures MonthRow(map[1 := SampleRequest()], 3, 5, FromAccept) == MonthAverage(5, Some(3.0))
  {
    var requests := map[1 := SampleRequest()];
    MayFirst1970();
    assert InGroup(SampleRequest(), 3, 5);
    assert Group(requests, 3, 5) == {1};
    var ids := GroupIds(requests, 3, 5);
    assert ids == [1] by {
      assert |ids| == 1 && ids[0] in requests;
    }
    assert GroupRows(requests, 3, 5) == [SampleRequest()];
    assert Durations([SampleRequest()], FromAccept) == [3] by {
      assert [SampleRequest()][..0] == [];
    }
    assert Sum([3]) == 3 by {
      assert [3][..0] == [];
    }
  }

  /**
   * A worked case: one completed request accepted at hour 2880 (1970-05-01
   * 00:00) and completed three hours later gives May with a mean of 3 hours.
   */
  lemma OneRequestInMay()
    ensures AverageTimeReport(map[3 := CompletedName], map[1 := SampleRequest()], [5, 6], FromAccept)
      == Success([MonthAverage(5, Some(3.0))])
  {
    var statuses := map[3 := CompletedName];
    assert CompletedIds(statuses) == {3};
    assert CompletedStatusId(statuses) == Success(3);
    SampleMonths();
    SampleMayRow();
    assert MonthRows(map[1 := SampleRequest()], 3, [5], FromAccept) == [MonthRow(map[1 := SampleRequest()], 3, 5, FromAccept)] by {
      assert [5][..0] == [];
    }
  }

  // ---------------------------------------------------------------------
  // /api/reportsRequestType: requests per problem type name.

  datatype TypeCount = TypeCount(problemType: string, requestCount: nat)

  /** The requests the inner join keeps: those whose problem row exists. */
  ghost function TypeJoin(requests: map<int, Request>, problems: map<int, string>): set<int> {
    set k | k in requests && requests[k].problemId in problems
  }

  /** Joined requests whose problem type is named name. */
  ghost function OfType(requests: map<int, Request>, problems: map<int, string>, name: string): (s: set<int>)
    ensures s <= TypeJoin(requests, problems)
  {
    set k | k in requests && requests[k].problemId in problems && problems[requests[k].problemId] == name
  }

  /** Joined requests whose problem type name is among names. */
  ghost function OfTypes(requests: map<int, Request>, problems: map<int, string>, names: seq<string>): set<int> {
    set k | k in requests && requests[k].problemId in problems && problems[requests[k].problemId] in names
  }

  /** The names that occur in the join: the groups of GROUP BY problem_name. */
  ghost function TypeNames(requests: map<int, Request>, problems: map<int, string>): (names: set<string>)
    ensures forall name :: name in names <==> OfType(requests, problems, name) != {}
  {
    var names := set k | k in TypeJoin(requests, problems) :: problems[requests[k].problemId];
    forall name | name in names ensures OfType(requests, problems, name) != {} {
      var k :| k in TypeJoin(requests, problems) && problems[requests[k].problemId] == name;
      assert k in OfType(requests, problems, name);
    }
    forall name | OfType(requests, problems, name) != {} ensures name in names {
      var k := Pick(OfType(requests, problems, name));
      assert k in TypeJoin(requests, problems) && problems[requests[k].problemId] == name;
    }
    names
  }

  /** The group names in ORDER BY problem_name order. */
  ghost function SortedNames(requests: map<int, Request>, problems: map<int, string>): (ns: seq<string>)
    ensures forall name :: name in ns <==> OfType(requests, problems, name) != {}
    ensures forall i, j :: 0 <= i < j < |ns| ==> LexLess(ns[i], ns[j])
  {
    LexLessIsStrictTotal();
    SortedBy(TypeNames(requests, problems), LexLess)
  }

  /** One row per name of ns, in the same order, with the number of joined requests of that name. */
  ghost function TypeRows(requests: map<int, Request>, problems: map<int, string>, ns: seq<string>): (r: seq<TypeCount>)
    ensures |r| == |ns|
    ensures forall i :: 0 <= i < |r| ==> r[i] == TypeCount(ns[i], |OfType(requests, problems, ns[i])|)
    decreases |ns|
  {
    if ns == [] then []
    else TypeRows(requests, problems, ns[..|ns| - 1]) + [TypeCount(ns[|ns| - 1], |OfType(requests, problems, ns[|ns| - 1])|)]
  }

  /** One row per problem type name, in name order, counting the joined requests of that name. */
  ghost function RequestTypeReport(requests: map<int, Request>, problems: map<int, string>): (r: seq<TypeCount>)
    ensures forall i, j :: 0 <= i < j < |r| ==> LexLess(r[i].problemType, r[j].problemType)
    ensures forall name :: (exists i :: 0 <= i < |r| && r[i].problemType == name) <==> OfType(requests, problems, name) != {}
    ensures forall i :: 0 <= i < |r| ==> r[i].requestCount == |OfType(requests, problems, r[i].problemType)|
  {
    var ns := SortedNames(requests, problems);
    var r := TypeRows(requests, problems, ns);
    RowsFollowKeys(r, ns, (row: TypeCount) => row.problemType, LexLess);
    r
  }

  function TotalCount(r: seq<TypeCount>): nat
    decreases |r|
  {
    if r == [] then 0 else TotalCount(r[..|r| - 1]) + r[|r| - 1].requestCount
  }

  /** Every listed problem type has at least one request. */
  lemma TypeCountsPositive(requests: map<int, Request>, problems: map<int, string>)
    ensures forall i :: 0 <= i < |RequestTypeReport(requests, problems)| ==>
      RequestTypeReport(requests, problems)[i].requestCount >= 1
  {
    var r := RequestTypeReport(requests, problems);
    forall i | 0 <= i < |r| ensures r[i].requestCount >= 1 {
      var name := r[i].problemType;
      assert exists j :: 0 <= j < |r| && r[j].problemType == name;
      assert OfType(requests, problems, name) != {};
    }
  }

  lemma {:induction false} CountsAddUp(requests: map<int, Request>, problems: map<int, string>, ns: seq<string>)
    requires forall i, j :: 0 <= i < j < |ns| ==> ns[i] != ns[j]
    ensures TotalCount(TypeRows(requests, problems, ns)) == |OfTypes(requests, problems, ns)|
    decreases |ns|
  {
    if ns == [] {
      assert OfTypes(requests, problems, ns) == {};
    } else {
      var n := |ns| - 1;
      var front := ns[..n];
      CountsAddUp(requests, problems, front);
      var r := TypeRows(requests, problems, ns);
      assert r[..n] == TypeRows(requests, problems, front);
      assert TotalCount(r) == TotalCount(TypeRows(requests, problems, front)) + |OfType(requests, problems, ns[n])|;
      assert ns[n] !in front;
      OfTypesSnoc(requests, problems, front, ns[n]);
      assert ns == front + [ns[n]];
    }
  }

  /** Adding a name not yet listed adds its requests, which are disjoint from those already counted. */
  lemma OfTypesSnoc(requests: map<int, Request>, problems: map<int, string>, front: seq<string>, name: string)
    requires name !in front
    ensures OfTypes(requests, problems, front + [name])
      == OfTypes(requests, problems, front) + OfType(requests, problems, name)
    ensures OfTypes(requests, problems, front) * OfType(requests, problems, name) == {}
    ensures |OfTypes(requests, problems, front + [name])|
      == |OfTypes(requests, problems, front)| + |OfType(requests, problems, name)|
  {
    assert forall x :: x in front + [name] <==> x in front || x == name;
  }

  /** The counts partition the join: together they count every joined request exactly once. */
  lemma TypeCountsPartition(requests: map<int, Request>, problems: map<int, string>)
    ensures TotalCount(RequestTypeReport(requests, problems)) == |TypeJoin(requests, problems)|
  {
    var ns := SortedNames(requests, problems);
    SortedNamesDistinct(requests, problems);
    CountsAddUp(requests, problems, ns);
    SortedNamesCoverJoin(requests, problems);
    assert RequestTypeReport(requests, problems) == TypeRows(requests, problems, ns);
  }

  lemma SortedNamesDistinct(requests: map<int, Request>, problems: map<int, string>)
    ensures forall i, j :: 0 <= i < j < |SortedNames(requests, problems)| ==>
      SortedNames(requests, problems)[i] != SortedNames(requests, problems)[j]
  {
    var ns := SortedNames(requests, problems);
    forall i, j | 0 <= i < j < |ns| ensures ns[i] != ns[j] {
      LexLessIrreflexive(ns[i]);
    }
  }

  /** Every joined request has its problem name among the listed names. */
  lemma SortedNamesCoverJoin(requests: map<int, Request>, problems: map<int, string>)
    ensures OfTypes(requests, problems, SortedNames(requests, problems)) == TypeJoin(requests, problems)
  {
    var ns := SortedNames(requests, problems);
    forall k | k in TypeJoin(requests, problems) ensures k in OfTypes(requests, problems, ns) {
      assert k in OfType(requests, problems, problems[requests[k].problemId]);
    }
  }

  // ---------------------------------------------------------------------
  // /api/reportsRequestMonth: requests per (year, month) of sending, by status.

  datatype StatusCounts = StatusCounts(month: int, year: int, completedCount: nat, pendingCount: nat, inProgressCount: nat)

  /** The (year, month) of a request's send date: the group key. */
  function SendPeriod(r: Request): (p: YearMonth)
    ensures 1 <= p.month <= 12
    ensures p.year != 0
    ensures var a := Calendar.Astronomical(p.year);
      Calendar.DaysBetween(1970, a) <= r.sendDate / 24 < Calendar.DaysBetween(1970, a) + Calendar.DaysInYear(a)
  {
    YearMonth(Calendar.Year(r.sendDate), Calendar.Month(r.sendDate))
  }

  /** Joined requests (their status row exists) sent in period p. */
  ghost function InPeriod(requests: map<int, Request>, statuses: map<int, string>, p: YearMonth): set<int> {
    set k | k in requests && requests[k].statusId in statuses && SendPeriod(requests[k]) == p
  }

  /** Those of them whose status is named name. */
  ghost function WithStatus(requests: map<int, Request>, statuses: map<int, string>, p: YearMonth, name: string): (s: set<int>)
    ensures s <= InPeriod(requests, statuses, p)
  {
    set k | k in InPeriod(requests, statuses, p) && statuses[requests[k].statusId] == name
  }

  /** Periods that have at least one joined request. */
  ghost function Periods(requests: map<int, Request>, statuses: map<int, string>): (ps: set<YearMonth>)
    ensures forall p :: p in ps <==> InPeriod(requests, statuses, p) != {}
  {
    var ps := set k | k in requests && requests[k].statusId in statuses :: SendPeriod(requests[k]);
    forall p | p in ps ensures InPeriod(requests, statuses, p) != {} {
      var k :| k in requests && requests[k].statusId in statuses && SendPeriod(requests[k]) == p;
      assert k in InPeriod(requests, statuses, p);
    }
    forall p | InPeriod(requests, statuses, p) != {} ensures p in ps {
      var k := Pick(InPeriod(requests, statuses, p));
      assert k in requests && requests[k].statusId in statuses && SendPeriod(requests[k]) == p;
    }
    ps
  }

  /** The periods in ORDER BY year, month order. */
  ghost function SortedPeriods(requests: map<int, Request>, statuses: map<int, string>): (ps: seq<YearMonth>)
    ensures forall p :: p in ps <==> InPeriod(requests, statuses, p) != {}
    ensures forall i, j :: 0 <= i < j < |ps| ==> YearMonthLess(ps[i], ps[j])
    ensures |ps| == |Periods(requests, statuses)|
  {
    YearMonthLessIsStrictTotal();
    SortedBy(Periods(requests, statuses), YearMonthLess)
  }

  /** The output row of one period: the requests of each of the three statuses. */
  ghost function PeriodCounts(requests: map<int, Request>, statuses: map<int, string>, p: YearMonth): (r: StatusCounts)
    ensures RowPeriod(r) == p
    ensures r.completedCount == |set k | k in InPeriod(requests, statuses, p) && statuses[requests[k].statusId] == CompletedName|
    ensures r.pendingCount == |set k | k in InPeriod(requests, statuses, p) && statuses[requests[k].statusId] == PendingName|
    ensures r.inProgressCount == |set k | k in InPeriod(requests, statuses, p) && statuses[requests[k].statusId] == InProgressName|
  {
    StatusCounts(p.month, p.year,
      |WithStatus(requests, statuses, p, CompletedName)|,
      |WithStatus(requests, statuses, p, PendingName)|,
      |WithStatus(requests, statuses, p, InProgressName)|)
  }

  /** One row per period of ps, in the same order. */
  ghost function PeriodRows(requests: map<int, Request>, statuses: map<int, string>, ps: seq<YearMonth>): (r: seq<StatusCounts>)
    ensures |r| == |ps|
    ensures forall i :: 0 <= i < |r| ==> r[i] == PeriodCounts(requests, statuses, ps[i])
    decreases |ps|
  {
    if ps == [] then []
    else PeriodRows(requests, statuses, ps[..|ps| - 1]) + [PeriodCounts(requests, statuses, ps[|ps| - 1])]
  }

  /** The (year, month) a row reports. */
  function RowPeriod(row: StatusCounts): YearMonth {
    YearMonth(row.year, row.month)
  }

  /** One row per (year, month) with requests, ordered by year and then month. */
  ghost function MonthlyStatusReport(requests: map<int, Request>, statuses: map<int, string>): (r: seq<StatusCounts>)
    ensures |r| == |Periods(requests, statuses)|
  {
    PeriodRows(requests, statuses, SortedPeriods(requests, statuses))
  }

  /** The i-th row reports the i-th period. */
  lemma MonthlyRowPeriods(requests: map<int, Request>, statuses: map<int, string>)
    ensures |MonthlyStatusReport(requests, statuses)| == |SortedPeriods(requests, statuses)|
    ensures forall i :: 0 <= i < |MonthlyStatusReport(requests, statuses)| ==>
      RowPeriod(MonthlyStatusReport(requests, statuses)[i]) == SortedPeriods(requests, statuses)[i]
  {
  }

  /** The rows ascend by year and then month. */
  lemma MonthlyReportOrdered(requests: map<int, Request>, statuses: map<int, string>)
    ensures forall i, j :: 0 <= i < j < |MonthlyStatusReport(requests, statuses)| ==>
      YearMonthLess(RowPeriod(MonthlyStatusReport(requests, statuses)[i]), RowPeriod(MonthlyStatusReport(requests, statuses)[j]))
  {
    MonthlyRowPeriods(requests, statuses);
  }

  /** A (year, month) has a row exactly when some joined request was sent in it. */
  lemma MonthlyReportLists(requests: map<int, Request>, statuses: map<int, string>, p: YearMonth)
    ensures (exists i :: 0 <= i < |MonthlyStatusReport(requests, statuses)| && RowPeriod(MonthlyStatusReport(requests, statuses)[i]) == p)
      <==> InPeriod(requests, statuses, p) != {}
  {
    var r := MonthlyStatusReport(requests, statuses);
    var ps := SortedPeriods(requests, statuses);
    MonthlyRowPeriods(requests, statuses);
    RowsFollowKeys(r, ps, RowPeriod, YearMonthLess);
  }

  /** Each row holds the three status counts of its own (year, month). */
  lemma MonthlyReportCounts(requests: map<int, Request>, statuses: map<int, string>)
    ensures forall i :: 0 <= i < |MonthlyStatusReport(requests, statuses)| ==>
      MonthlyStatusReport(requests, statuses)[i] == PeriodCounts(requests, statuses, RowPeriod(MonthlyStatusReport(requests, statuses)[i]))
  {
    MonthlyRowPeriods(requests, statuses);
  }

  /** Requests counted under two different status names are different requests. */
  lemma WithStatusDisjoint(requests: map<int, Request>, statuses: map<int, string>, p: YearMonth, a: string, b: string)
    requires a != b
    ensures WithStatus(requests, statuses, p, a) * WithStatus(requests, statuses, p, b) == {}
  {
    forall k | k in WithStatus(requests, statuses, p, a) ensures k !in WithStatus(requests, statuses, p, b) {
    }
  }

  lemma SubsetCardinality<T>(a: set<T>, b: set<T>)
    requires a <= b
    ensures |a| <= |b|
  {
    assert b == a + (b - a);
  }

  /** The three statuses are distinct names, so the counts add up to at most the requests of the period. */
  lemma StatusCountsBounded(requests: map<int, Request>, statuses: map<int, string>, p: YearMonth)
    ensures PeriodCounts(requests, statuses, p).completedCount
          + PeriodCounts(requests, statuses, p).pendingCount
          + PeriodCounts(requests, statuses, p).inProgressCount
        <= |InPeriod(requests, statuses, p)|
  {
    var c := WithStatus(requests, statuses, p, CompletedName);
    var q := WithStatus(requests, statuses, p, PendingName);
    var w := WithStatus(requests, statuses, p, InProgressName);
    assert |CompletedName| == 9 && |PendingName| == 11 && |InProgressName| == 8;
    WithStatusDisjoint(requests, statuses, p, CompletedName, PendingName);
    WithStatusDisjoint(requests, statuses, p, CompletedName, InProgressName);
    WithStatusDisjoint(requests, statuses, p, PendingName, InProgressName);
    assert |c + q| == |c| + |q|;
    assert (c + q) * w == {};
    assert |c + q + w| == |c| + |q| + |w|;
    SubsetCardinality(c + q + w, InPeriod(requests, statuses, p));
  }

  /** A period with a request in it has a month from 1 to 12. */
  lemma InhabitedPeriodMonth(requests: map<int, Request>, statuses: map<int, string>, p: YearMonth)
    requires InPeriod(requests, statuses, p) != {}
    ensures 1 <= p.month <= 12
  {
    var k := Pick(InPeriod(requests, statuses, p));
    assert k in requests && SendPeriod(requests[k]) == p;
  }

  /** Every row of the monthly report has a month from 1 to 12 and at least one request behind it. */
  lemma MonthlyRowsAreNonEmpty(requests: map<int, Request>, statuses: map<int, string>)
    ensures forall i :: 0 <= i < |MonthlyStatusReport(requests, statuses)| ==>
      && 1 <= MonthlyStatusReport(requests, statuses)[i].month <= 12
      && InPeriod(requests, statuses, RowPeriod(MonthlyStatusReport(requests, statuses)[i])) != {}
  {
    var r := MonthlyStatusReport(requests, statuses);
    var ps := SortedPeriods(requests, statuses);
    MonthlyRowPeriods(requests, statuses);
    forall i | 0 <= i < |r|
      ensures 1 <= r[i].month <= 12
      ensures InPeriod(requests, statuses, RowPeriod(r[i])) != {}
    {
      assert RowPeriod(r[i]) == ps[i] && ps[i] in ps;
      InhabitedPeriodMonth(requests, statuses, ps[i]);
    }
  }
}
