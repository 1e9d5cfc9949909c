/**
 * The paired catalog: job titles and problem types, created, renamed and
 * deleted together under one shared id.  The allocator reads MAX(id) of both
 * tables and hands out one more than the larger (0 standing for no rows).
 */
module PairedCatalog {
  import opened Wrappers
  import opened Schema
  import Table
  import Ordering

  datatype PairTables = PairTables(jobtitles: map<int, string>, problems: map<int, string>)

  /** Every job title has the problem type of the same id, and the other way round. */
  ghost predicate Paired(c: PairTables) {
    c.jobtitles.Keys == c.problems.Keys
  }

  /** The largest element of s, or 0 when s is empty or has no positive element. */
  ghost function MaxOrZero(s: set<int>): (m: int)
    ensures 0 <= m
    ensures forall k :: k in s ==> k <= m
    ensures m == 0 || m in s
    decreases s
  {
    if |s| == 0 then 0
    else
      var x := Ordering.Pick(s);
      var rest := MaxOrZero(s - {x});
      assert forall k :: k in s ==> k == x || k in s - {x};
      if x > rest then x else rest
  }

  /** The three properties of MaxOrZero determine it. */
  lemma MaxOrZeroIs(s: set<int>, m: int)
    requires 0 <= m
    requires forall k :: k in s ==> k <= m
    requires m == 0 || m in s
    ensures MaxOrZero(s) == m
  {
  }

  /** The id the next created pair receives: fresh in both tables and above every id in use. */
  ghost function NextPairId(c: PairTables): (id: int)
    ensures 1 <= id
    ensures id !in c.jobtitles && id !in c.problems
    ensures forall k :: k in c.jobtitles || k in c.problems ==> k < id
  {
    MaxOrZero(c.jobtitles.Keys + c.problems.Keys) + 1
  }

  // ---------------------------------------------------------------------
  // How the handler computes that id.

  /**
   * A row of "SELECT MAX(jobtitle_id) AS max_jobtitle_id FROM jobtitle
   * UNION ALL SELECT MAX(problem_id) AS max_problem_id FROM problem" as the
   * handler reads it.  A UNION takes its column names from its first SELECT,
   * so both rows carry max_jobtitle_id and max_problem_id is always absent.
   */
  datatype MaxRow = MaxRow(maxJobtitleId: Option<int>, maxProblemId: Option<int>)

  /** m is what SQL's MAX over these keys yields: NULL for no rows, otherwise the largest key. */
  ghost predicate IsSqlMax(m: Option<int>, keys: set<int>) {
    && (m.None? <==> keys == {})
    && (m.Some? ==> m.value in keys && forall k :: k in keys ==> k <= m.value)
  }

  /** SELECT MAX(id) over a table with these keys. */
  method SqlMax(keys: set<int>) returns (m: Option<int>)
    ensures IsSqlMax(m, keys)
  {
    m := None;
    var rest := keys;
    while |rest| > 0
      invariant rest <= keys
      invariant m.None? <==> rest == keys
      invariant m.Some? ==> m.value in keys
      invariant m.Some? ==> forall k :: k in keys - rest ==> k <= m.value
      decreases rest
    {
      // Pick's contract shows rest has an element, which the :| below needs.
      ghost var element := Ordering.Pick(rest);
      var k :| k in rest;
      if m.None? || k > m.value {
        m := Some(k);
      }
      assert keys - (rest - {k}) == (keys - rest) + {k};
      rest := rest - {k};
    }
    assert keys - rest == keys;
  }

  /** The two rows of the UNION ALL, given each table's MAX. */
  function UnionAllMaxRows(maxJobtitle: Option<int>, maxProblem: Option<int>): seq<MaxRow> {
    [MaxRow(maxJobtitle, None), MaxRow(maxProblem, None)]
  }

  /** The ids one row reports, in either column. */
  function RowIds(row: MaxRow): set<int> {
    (if row.maxJobtitleId.Some? then {row.maxJobtitleId.value} else {})
    + (if row.maxProblemId.Some? then {row.maxProblemId.value} else {})
  }

  /** Every id a sequence of rows reports. */
  ghost function ReportedIds(rows: seq<MaxRow>): set<int>
    decreases |rows|
  {
    if |rows| == 0 then {} else ReportedIds(rows[..|rows| - 1]) + RowIds(rows[|rows| - 1])
  }

  /**
   * The forEach over the rows: maxId starts at 0 and takes any column value
   * that exceeds it (a NULL or absent column never does); the result is one more.
   */
  method PairIdFromRows(rows: seq<MaxRow>) returns (id: int)
    ensures id == MaxOrZero(ReportedIds(rows)) + 1
  {
    var maxId := 0;
    for i := 0 to |rows|
      invariant 0 <= maxId
      invariant forall k :: k in ReportedIds(rows[..i]) ==> k <= maxId
      invariant maxId == 0 || maxId in ReportedIds(rows[..i])
    {
      assert ReportedIds(rows[..i + 1]) == ReportedIds(rows[..i]) + RowIds(rows[i]) by {
        assert rows[..i + 1][..i] == rows[..i];
      }
      if rows[i].maxJobtitleId.Some? && rows[i].maxJobtitleId.value > maxId {
        maxId := rows[i].maxJobtitleId.value;
      }
      if rows[i].maxProblemId.Some? && rows[i].maxProblemId.value > maxId {
        maxId := rows[i].maxProblemId.value;
      }
    }
    assert rows[..|rows|] == rows;
    MaxOrZeroIs(ReportedIds(rows), maxId);
    id := maxId + 1;
  }

  /** The ids a possibly-NULL value reports. */
  function OptionIds(m: Option<int>): set<int> {
    if m.Some? then {m.value} else {}
  }

  /** The two UNION ALL rows report the two MAX values and nothing else. */
  lemma UnionAllReports(maxJobtitle: Option<int>, maxProblem: Option<int>)
    ensures ReportedIds(UnionAllMaxRows(maxJobtitle, maxProblem)) == OptionIds(maxJobtitle) + OptionIds(maxProblem)
  {
    var rows := UnionAllMaxRows(maxJobtitle, maxProblem);
    assert rows[..1][..0] == [];
    assert ReportedIds(rows[..1]) == RowIds(rows[0]);
  }

  /** The larger of the two tables' MAX values is the maximum over both tables. */
  lemma MaxOfMaxes(a: set<int>, b: set<int>, maxA: Option<int>, maxB: Option<int>)
    requires IsSqlMax(maxA, a) && IsSqlMax(maxB, b)
    ensures MaxOrZero(OptionIds(maxA) + OptionIds(maxB)) == MaxOrZero(a + b)
  {
    var m := MaxOrZero(OptionIds(maxA) + OptionIds(maxB));
    forall k | k in a + b ensures k <= m {
      if k in a {
        assert maxA.value in OptionIds(maxA);
      } else {
        assert maxB.value in OptionIds(maxB);
      }
    }
    MaxOrZeroIs(a + b, m);
  }

  /** Reading both MAX values through the UNION ALL gives the allocator's id. */
  lemma UnionAllGivesNextPairId(c: PairTables, maxJobtitle: Option<int>, maxProblem: Option<int>)
    requires IsSqlMax(maxJobtitle, c.jobtitles.Keys)
    requires IsSqlMax(maxProblem, c.problems.Keys)
    ensures MaxOrZero(ReportedIds(UnionAllMaxRows(maxJobtitle, maxProblem))) + 1 == NextPairId(c)
  {
    UnionAllReports(maxJobtitle, maxProblem);
    MaxOfMaxes(c.jobtitles.Keys, c.problems.Keys, maxJobtitle, maxProblem);
  }

  // ---------------------------------------------------------------------
  // The handlers' effect on the two tables.

  /** POST /api/JobProblem: both names stored under the new shared id. */
  ghost function CreatePair(c: PairTables, jobTitle: string, problemType: string): (r: (PairTables, int))
    ensures forall k :: k in c.jobtitles || k in c.problems ==> k < r.1
    ensures Table.AddsRow(c.jobtitles, r.0.jobtitles, r.1, jobTitle)
    ensures Table.AddsRow(c.problems, r.0.problems, r.1, problemType)
  {
    var id := NextPairId(c);
    Table.StoreAddsRow(c.jobtitles, id, jobTitle);
    Table.StoreAddsRow(c.problems, id, problemType);
    (PairTables(c.jobtitles[id := jobTitle], c.problems[id := problemType]), id)
  }

  /** GET /api/JobProblem/:id: whichever halves exist, or not found when neither does. */
  datatype PairView = PairView(jobtitle: Option<string>, problem: Option<string>)

  function LookupPair(c: PairTables, id: int): (r: Result<PairView, Error>)
    ensures r.Failure? <==> id !in c.jobtitles && id !in c.problems
    ensures r.Failure? ==> r.error == NotFound
    ensures r.Success? ==> (r.value.jobtitle.Some? <==> id in c.jobtitles)
    ensures r.Success? ==> (r.value.problem.Some? <==> id in c.problems)
    ensures r.Success? && id in c.jobtitles ==> r.value.jobtitle.value == c.jobtitles[id]
    ensures r.Success? && id in c.problems ==> r.value.problem.value == c.problems[id]
  {
    var job := if id in c.jobtitles then Some(c.jobtitles[id]) else None;
    var problem := if id in c.problems then Some(c.problems[id]) else None;
    if job.None? && problem.None? then Failure(NotFound) else Success(PairView(job, problem))
  }

  /** GET /api/JobProblem: the inner join of the two tables on the id. */
  function ListPairs(c: PairTables): (r: map<int, (string, string)>)
    ensures r.Keys == c.jobtitles.Keys * c.problems.Keys
    ensures forall id :: id in r ==> r[id] == (c.jobtitles[id], c.problems[id])
  {
    map id | id in c.jobtitles.Keys * c.problems.Keys :: (c.jobtitles[id], c.problems[id])
  }

  /** PUT /api/JobProblem/:id: two independent renames; a missing half is simply not renamed. */
  function UpdatePair(c: PairTables, id: int, jobTitle: string, problemType: string): (r: PairTables)
    ensures r.jobtitles.Keys == c.jobtitles.Keys && r.problems.Keys == c.problems.Keys
    ensures id in c.jobtitles ==> r.jobtitles[id] == jobTitle
    ensures id in c.problems ==> r.problems[id] == problemType
    ensures forall k :: k in c.jobtitles && k != id ==> r.jobtitles[k] == c.jobtitles[k]
    ensures forall k :: k in c.problems && k != id ==> r.problems[k] == c.problems[k]
  {
    PairTables(Table.UpdateRow(c.jobtitles, id, jobTitle).0, Table.UpdateRow(c.problems, id, problemType).0)
  }

  /**
   * DELETE /api/jobproblem/:id: the problem row, then the job title row, as
   * two independent statements; success only when each removed one row.
   */
  function DeletePair(c: PairTables, id: int): (r: (PairTables, bool))
    ensures r.1 <==> id in c.jobtitles && id in c.problems
    ensures r.0.jobtitles.Keys == c.jobtitles.Keys - {id} && r.0.problems.Keys == c.problems.Keys - {id}
    ensures forall k :: k in r.0.jobtitles ==> r.0.jobtitles[k] == c.jobtitles[k]
    ensures forall k :: k in r.0.problems ==> r.0.problems[k] == c.problems[k]
  {
    var (problems, problemCount) := Table.DeleteRow(c.problems, id);
    var (jobtitles, jobtitleCount) := Table.DeleteRow(c.jobtitles, id);
    (PairTables(jobtitles, problems), problemCount == 1 && jobtitleCount == 1)
  }

  // ---------------------------------------------------------------------
  // Properties of the paired catalog.

  /** A created pair is found with both its names, under an id no row had before. */
  lemma CreateThenLookup(c: PairTables, jobTitle: string, problemType: string)
    ensures CreatePair(c, jobTitle, problemType).1 !in c.jobtitles
    ensures CreatePair(c, jobTitle, problemType).1 !in c.problems
    ensures LookupPair(CreatePair(c, jobTitle, problemType).0, CreatePair(c, jobTitle, problemType).1)
         == Success(PairView(Some(jobTitle), Some(problemType)))
  {
    var id := NextPairId(c);
    var c' := PairTables(c.jobtitles[id := jobTitle], c.problems[id := problemType]);
    assert CreatePair(c, jobTitle, problemType) == (c', id);
    assert id in c'.jobtitles && c'.jobtitles[id] == jobTitle;
    assert id in c'.problems && c'.problems[id] == problemType;
  }

  /** Creating a pair adds one row under its id to each table and leaves every other row as it was. */
  lemma CreateKeepsOtherRows(c: PairTables, jobTitle: string, problemType: string)
    ensures Table.AddsRow(c.jobtitles, CreatePair(c, jobTitle, problemType).0.jobtitles, CreatePair(c, jobTitle, problemType).1, jobTitle)
    ensures Table.AddsRow(c.problems, CreatePair(c, jobTitle, problemType).0.problems, CreatePair(c, jobTitle, problemType).1, problemType)
  {
    var id := NextPairId(c);
    var c' := PairTables(c.jobtitles[id := jobTitle], c.problems[id := problemType]);
    assert CreatePair(c, jobTitle, problemType) == (c', id);
    Table.StoreAddsRow(c.jobtitles, id, jobTitle);
    Table.StoreAddsRow(c.problems, id, problemType);
  }


  lemma CreateKeepsPairing(c: PairTables, jobTitle: string, problemType: string)
    requires Paired(c)
    ensures Paired(CreatePair(c, jobTitle, problemType).0)
    ensures CreatePair(c, jobTitle, problemType).0.jobtitles.Keys == c.jobtitles.Keys + {NextPairId(c)}
  {
  }

  /** Creating the pairs one after another: the resulting tables and the ids handed out. */
  ghost function CreateAll(c: PairTables, names: seq<(string, string)>): (r: (PairTables, seq<int>))
    decreases |names|
  {
    if names == [] then (c, [])
    else
      var first := CreatePair(c, names[0].0, names[0].1);
      var rest := CreateAll(first.0, names[1..]);
      (rest.0, [first.1] + rest.1)
  }

  /** keys is exactly the set of ids 1..n. */
  ghost predicate IsIdsUpTo(keys: set<int>, n: int) {
    forall k :: k in keys <==> 1 <= k <= n
  }

  /** On tables holding exactly the ids 1..n, a create receives n+1 and leaves the ids 1..n+1. */
  lemma CreateNext(c: PairTables, jobTitle: string, problemType: string, n: nat)
    requires IsIdsUpTo(c.jobtitles.Keys, n) && IsIdsUpTo(c.problems.Keys, n)
    ensures CreatePair(c, jobTitle, problemType).1 == n + 1
    ensures IsIdsUpTo(CreatePair(c, jobTitle, problemType).0.jobtitles.Keys, n + 1)
    ensures IsIdsUpTo(CreatePair(c, jobTitle, problemType).0.problems.Keys, n + 1)
  {
    MaxOrZeroIs(c.jobtitles.Keys + c.problems.Keys, n);
  }

  /** Starting from tables holding exactly the ids 1..n, the next creations receive n+1, n+2, ... */
  lemma {:induction false} CreateAllIds(c: PairTables, names: seq<(string, string)>, n: nat)
    requires IsIdsUpTo(c.jobtitles.Keys, n) && IsIdsUpTo(c.problems.Keys, n)
    ensures |CreateAll(c, names).1| == |names|
    ensures forall i :: 0 <= i < |names| ==> CreateAll(c, names).1[i] == n + 1 + i
    decreases |names|
  {
    if names != [] {
      var first := CreatePair(c, names[0].0, names[0].1);
      CreateNext(c, names[0].0, names[0].1, n);
      CreateAllIds(first.0, names[1..], n + 1);
    }
  }

  /** ... and afterwards the tables hold exactly the ids 1..n+|names|. */
  lemma {:induction false} CreateAllKeys(c: PairTables, names: seq<(string, string)>, n: nat)
    requires IsIdsUpTo(c.jobtitles.Keys, n) && IsIdsUpTo(c.problems.Keys, n)
    ensures IsIdsUpTo(CreateAll(c, names).0.jobtitles.Keys, n + |names|)
    ensures IsIdsUpTo(CreateAll(c, names).0.problems.Keys, n + |names|)
    decreases |names|
  {
    if names != [] {
      var first := CreatePair(c, names[0].0, names[0].1);
      CreateNext(c, names[0].0, names[0].1, n);
      CreateAllKeys(first.0, names[1..], n + 1);
    }
  }

  /** Both halves together. */
  lemma CreateAllCounts(c: PairTables, names: seq<(string, string)>, n: nat)
    requires IsIdsUpTo(c.jobtitles.Keys, n) && IsIdsUpTo(c.problems.Keys, n)
    ensures |CreateAll(c, names).1| == |names|
    ensures forall i :: 0 <= i < |names| ==> CreateAll(c, names).1[i] == n + 1 + i
    ensures IsIdsUpTo(CreateAll(c, names).0.jobtitles.Keys, n + |names|)
    ensures IsIdsUpTo(CreateAll(c, names).0.problems.Keys, n + |names|)
  {
    CreateAllIds(c, names, n);
    CreateAllKeys(c, names, n);
  }

  /** N creations on an empty catalog hand out the ids 1..N, in order. */
  lemma CreateAllFromEmpty(names: seq<(string, string)>)
    ensures |CreateAll(PairTables(map[], map[]), names).1| == |names|
    ensures forall i :: 0 <= i < |names| ==> CreateAll(PairTables(map[], map[]), names).1[i] == i + 1
    ensures IsIdsUpTo(CreateAll(PairTables(map[], map[]), names).0.jobtitles.Keys, |names|)
    ensures IsIdsUpTo(CreateAll(PairTables(map[], map[]), names).0.problems.Keys, |names|)
  {
    CreateAllCounts(PairTables(map[], map[]), names, 0);
  }

  /** Renaming never adds or removes a row, so it keeps the pairing, and repeating it changes nothing. */
  lemma UpdateKeepsPairing(c: PairTables, id: int, jobTitle: string, problemType: string)
    ensures UpdatePair(c, id, jobTitle, problemType).jobtitles.Keys == c.jobtitles.Keys
    ensures UpdatePair(c, id, jobTitle, problemType).problems.Keys == c.problems.Keys
    ensures Paired(c) ==> Paired(UpdatePair(c, id, jobTitle, problemType))
    ensures id in c.jobtitles && id in c.problems ==>
      LookupPair(UpdatePair(c, id, jobTitle, problemType), id) == Success(PairView(Some(jobTitle), Some(problemType)))
    ensures UpdatePair(UpdatePair(c, id, jobTitle, problemType), id, jobTitle, problemType)
         == UpdatePair(c, id, jobTitle, problemType)
  {
    Table.UpdateRowIdempotent(c.jobtitles, id, jobTitle);
    Table.UpdateRowIdempotent(c.problems, id, problemType);
  }

  /** On a paired catalog, deleting succeeds exactly when the pair exists, and the catalog stays paired. */
  lemma DeleteOnPaired(c: PairTables, id: int)
    requires Paired(c)
    ensures DeletePair(c, id).1 <==> id in c.jobtitles
    ensures Paired(DeletePair(c, id).0)
  {
  }

  /**
   * Deleting when only one half exists reports failure, yet that half is
   * gone afterwards: the two statements are not undone together.
   */
  lemma DeleteHalfPair(c: PairTables, id: int)
    requires (id in c.jobtitles) != (id in c.problems)
    ensures !DeletePair(c, id).1
    ensures id !in DeletePair(c, id).0.jobtitles && id !in DeletePair(c, id).0.problems
    ensures DeletePair(c, id).0.jobtitles.Keys == c.jobtitles.Keys - {id}
    ensures DeletePair(c, id).0.problems.Keys == c.problems.Keys - {id}
  {
  }

  /** On a paired catalog the listing holds every pair. */
  lemma ListPairsOnPaired(c: PairTables)
    requires Paired(c)
    ensures ListPairs(c).Keys == c.jobtitles.Keys
  {
  }

  /**
   * Ids are handed out again: once the pair with the highest id is deleted,
   * the next create receives that same id.  With one pair under id 1, a
   * create gets 2, deleting 2 succeeds, and the following create gets 2 again.
   */
  lemma CreateAfterDeleteReusesId(jobTitle: string, problemType: string)
    ensures var c := PairTables(map[1 := jobTitle], map[1 := problemType]);
      var (c1, first) := CreatePair(c, jobTitle, problemType);
      var (c2, deleted) := DeletePair(c1, first);
      && first == 2
      && deleted
      && CreatePair(c2, jobTitle, problemType).1 == first
  {
    var c := PairTables(map[1 := jobTitle], map[1 := problemType]);
    MaxOrZeroIs(c.jobtitles.Keys + c.problems.Keys, 1);
    var (c1, first) := CreatePair(c, jobTitle, problemType);
    var (c2, deleted) := DeletePair(c1, first);
    assert c2.jobtitles.Keys + c2.problems.Keys == {1};
    MaxOrZeroIs(c2.jobtitles.Keys + c2.problems.Keys, 1);
  }
}
