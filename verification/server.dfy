/**
 * The database the handlers read and write, as one object whose fields are
 * the tables, and the writing handlers as methods on it.  Each method does
 * what its SQL statements do to the tables, in the order the handler issues
 * them, and answers with the outcome the handler reports.
 */
module Server {
  import opened Wrappers
  import opened Schema
  import Table
  import PairedCatalog
  import RequestUpdate

  /** Every table and serial sequence at one moment. */
  datatype Tables = Tables(
    jobtitles: map<int, string>,
    problems: map<int, string>,
    specialists: map<int, Specialist>,
    resolves: seq<Resolves>,
    requests: map<int, Request>,
    statuses: map<int, string>,
    departments: map<int, string>,
    specialistSeq: int,
    statusSeq: int,
    departmentSeq: int)

  /** What a request body's name field can be: absent (or null), or a string. */
  predicate Falsy(name: Option<string>)
    ensures !Falsy(name) ==> name.Some? && |name.value| > 0
  {
    name.None? || name.value == ""
  }

  class Database {
    var jobtitles: map<int, string>
    var problems: map<int, string>
    var specialists: map<int, Specialist>
    /** The resolves table has no key the handlers rely on: a list of rows. */
    var resolves: seq<Resolves>
    var requests: map<int, Request>
    var statuses: map<int, string>
    var departments: map<int, string>
    /** The next values of the serial sequences behind the generated ids. */
    var specialistSeq: int
    var statusSeq: int
    var departmentSeq: int

    function State(): Tables
      reads this
    {
      Tables(jobtitles, problems, specialists, resolves, requests, statuses, departments,
        specialistSeq, statusSeq, departmentSeq)
    }

    function Pairs(): PairedCatalog.PairTables
      reads this
    {
      PairedCatalog.PairTables(jobtitles, problems)
    }

    /**
     * What the handlers keep true: job titles and problem types come in pairs,
     * and every generated id is below its sequence's next value.
     */
    ghost predicate Valid()
      reads this
    {
      && PairedCatalog.Paired(Pairs())
      && (forall k :: k in specialists ==> k < specialistSeq)
      && (forall k :: k in statuses ==> k < statusSeq)
      && (forall k :: k in departments ==> k < departmentSeq)
    }

    constructor (initial: Tables)
      ensures State() == initial
    {
      jobtitles := initial.jobtitles;
      problems := initial.problems;
      specialists := initial.specialists;
      resolves := initial.resolves;
      requests := initial.requests;
      statuses := initial.statuses;
      departments := initial.departments;
      specialistSeq := initial.specialistSeq;
      statusSeq := initial.statusSeq;
      departmentSeq := initial.departmentSeq;
    }

    // -------------------------------------------------------------------
    // The paired catalog.

    /**
     * The allocator of POST /api/JobProblem: read both MAX values through the
     * UNION ALL and take one more than the largest.
     */
    method AllocatePairId() returns (id: int)
      ensures id == PairedCatalog.NextPairId(Pairs())
    {
      var maxJobtitle := PairedCatalog.SqlMax(jobtitles.Keys);
      var maxProblem := PairedCatalog.SqlMax(problems.Keys);
      id := PairedCatalog.PairIdFromRows(PairedCatalog.UnionAllMaxRows(maxJobtitle, maxProblem));
      PairedCatalog.UnionAllGivesNextPairId(Pairs(), maxJobtitle, maxProblem);
    }

    /** POST /api/JobProblem: allocate the id, insert both rows under it and commit. */
    method CreatePair(jobTitle: string, problemType: string) returns (id: int)
      modifies this
      ensures (Pairs(), id) == PairedCatalog.CreatePair(old(Pairs()), jobTitle, problemType)
      ensures State() == old(State()).(jobtitles := jobtitles, problems := problems)
      ensures old(Valid()) ==> Valid()
    {
      ghost var before := Pairs();
      id := AllocatePairId();
      jobtitles := jobtitles[id := jobTitle];
      problems := problems[id := problemType];
      if PairedCatalog.Paired(before) {
        PairedCatalog.CreateKeepsPairing(before, jobTitle, problemType);
      }
    }

    /** PUT /api/JobProblem/:id: both renames, each changing the row of that id if there is one. */
    method UpdatePair(id: int, jobTitle: string, problemType: string)
      modifies this
      ensures Pairs() == PairedCatalog.UpdatePair(old(Pairs()), id, jobTitle, problemType)
      ensures State() == old(State()).(jobtitles := jobtitles, problems := problems)
      ensures old(Valid()) ==> Valid()
    {
      jobtitles := Table.UpdateRow(jobtitles, id, jobTitle).0;
      problems := Table.UpdateRow(problems, id, problemType).0;
    }

    /** DELETE /api/jobproblem/:id: both deletes run; success only when each removed one row. */
    method DeletePair(id: int) returns (ok: bool)
      modifies this
      ensures (Pairs(), ok) == PairedCatalog.DeletePair(old(Pairs()), id)
      ensures State() == old(State()).(jobtitles := jobtitles, problems := problems)
      ensures old(Valid()) ==> Valid()
    {
      var problemCount, jobtitleCount;
      var (problems', problemCount') := Table.DeleteRow(problems, id);
      problems, problemCount := problems', problemCount';
      var (jobtitles', jobtitleCount') := Table.DeleteRow(jobtitles, id);
      jobtitles, jobtitleCount := jobtitles', jobtitleCount';
      ok := problemCount == 1 && jobtitleCount == 1;
      if PairedCatalog.Paired(old(Pairs())) {
        PairedCatalog.DeleteOnPaired(old(Pairs()), id);
      }
    }

    // -------------------------------------------------------------------
    // Requests.

    /**
     * PUT /api/request/:requestId: build the statement and its parameters and
     * run it.  The answer is success whether or not a row matched.
     */
    method UpdateRequest(requestId: int, body: RequestUpdate.UpdateBody)
      modifies this
      ensures requests == RequestUpdate.UpdateRequestTable(old(requests), requestId, body)
      ensures State() == old(State()).(requests := requests)
      ensures old(Valid()) ==> Valid()
    {
      var stmt, params := RequestUpdate.BuildUpdate(requestId, body);
      var result := RequestUpdate.Execute(stmt, params, requests);
      if result.Success? {
        requests := result.value;
      }
    }

    /** DELETE /api/request/:id: success exactly when one row was removed. */
    method DeleteRequest(requestId: int) returns (ok: bool)
      modifies this
      ensures ok <==> requestId in old(requests)
      ensures requests == old(requests) - {requestId}
      ensures State() == old(State()).(requests := requests)
      ensures old(Valid()) ==> Valid()
    {
      var count;
      var (requests', count') := Table.DeleteRow(requests, requestId);
      requests, count := requests', count';
      ok := count == 1;
    }

    // -------------------------------------------------------------------
    // Specialists.

    /**
     * POST /api/specialists: insert the specialist under the next serial id,
     * then a resolves row pairing the problem type with the same id as the
     * job title with the new specialist.  The sequence advances even when the
     * insert fails on a taken id, and then no row is added.
     */
    method CreateSpecialist(specialist: Specialist) returns (r: Result<int, Error>)
      modifies this
      ensures specialistSeq == old(specialistSeq) + 1
      ensures r.Success? <==> old(specialistSeq) !in old(specialists)
      ensures r.Success? ==>
        (&& r.value == old(specialistSeq)
         && specialists == old(specialists)[r.value := specialist]
         && resolves == old(resolves) + [Resolves(specialist.jobtitleId, r.value)])
      ensures r.Failure? ==> r.error == DuplicateKey && specialists == old(specialists) && resolves == old(resolves)
      ensures State() == old(State()).(specialists := specialists, resolves := resolves, specialistSeq := specialistSeq)
      ensures old(Valid()) ==> Valid() && r.Success?
    {
      var id := specialistSeq;
      specialistSeq := specialistSeq + 1;
      var inserted := Table.Insert(specialists, id, specialist);
      if inserted.Failure? {
        return Failure(inserted.error);
      }
      specialists := inserted.value;
      resolves := resolves + [Resolves(specialist.jobtitleId, id)];
      r := Success(id);
    }

    /** DELETE /api/specialists/:id: success exactly when one row was removed. */
    method DeleteSpecialist(specialistId: int) returns (ok: bool)
      modifies this
      ensures ok <==> specialistId in old(specialists)
      ensures specialists == old(specialists) - {specialistId}
      ensures State() == old(State()).(specialists := specialists)
      ensures old(Valid()) ==> Valid()
    {
      var count;
      var (specialists', count') := Table.DeleteRow(specialists, specialistId);
      specialists, count := specialists', count';
      ok := count == 1;
    }

    // -------------------------------------------------------------------
    // Statuses.

    /**
     * POST /api/status: a missing or empty name is refused before any
     * statement runs; otherwise the name is inserted under the next serial id.
     */
    method CreateStatus(name: Option<string>) returns (r: Outcome<Error>)
      modifies this
      ensures Falsy(name) ==> r == Fail(MissingName) && State() == old(State())
      ensures !Falsy(name) && old(statusSeq) in old(statuses) ==>
        r == Fail(DuplicateKey) && State() == old(State()).(statusSeq := old(statusSeq) + 1)
      ensures !Falsy(name) && old(statusSeq) !in old(statuses) ==>
        r == Pass && State() == old(State()).(statuses := old(statuses)[old(statusSeq) := name.value], statusSeq := old(statusSeq) + 1)
      ensures old(Valid()) ==> Valid() && (r.Fail? <==> Falsy(name))
    {
      if Falsy(name) {
        return Fail(MissingName);
      }
      var id := statusSeq;
      statusSeq := statusSeq + 1;
      var inserted := Table.Insert(statuses, id, name.value);
      if inserted.Failure? {
        return Fail(inserted.error);
      }
      statuses := inserted.value;
      r := Pass;
    }

    /** PUT /api/statuses/:id: rename; not found when no row has the id. */
    method RenameStatus(statusId: int, name: string) returns (r: Outcome<Error>)
      modifies this
      ensures r.Pass? <==> statusId in old(statuses)
      ensures r.Fail? ==> r.error == NotFound
      ensures statuses == Table.UpdateRow(old(statuses), statusId, name).0
      ensures State() == old(State()).(statuses := statuses)
      ensures old(Valid()) ==> Valid()
    {
      var count;
      var (statuses', count') := Table.UpdateRow(statuses, statusId, name);
      statuses, count := statuses', count';
      r := if count == 0 then Fail(NotFound) else Pass;
    }

    /** DELETE /api/status/:id: success exactly when one row was removed. */
    method DeleteStatus(statusId: int) returns (ok: bool)
      modifies this
      ensures ok <==> statusId in old(statuses)
      ensures statuses == old(statuses) - {statusId}
      ensures State() == old(State()).(statuses := statuses)
      ensures old(Valid()) ==> Valid()
    {
      var count;
      var (statuses', count') := Table.DeleteRow(statuses, statusId);
      statuses, count := statuses', count';
      ok := count == 1;
    }

    // -------------------------------------------------------------------
    // Departments.

    /**
     * POST /api/departments: a missing or empty name is refused before any
     * statement runs; otherwise the name is inserted under the next serial id,
     * which the answer returns.
     */
    method CreateDepartment(name: Option<string>) returns (r: Result<int, Error>)
      modifies this
      ensures Falsy(name) ==> r == Failure(MissingName) && State() == old(State())
      ensures !Falsy(name) && old(departmentSeq) in old(departments) ==>
        r == Failure(DuplicateKey) && State() == old(State()).(departmentSeq := old(departmentSeq) + 1)
      ensures !Falsy(name) && old(departmentSeq) !in old(departments) ==>
        r == Success(old(departmentSeq))
        && State() == old(State()).(departments := old(departments)[old(departmentSeq) := name.value], departmentSeq := old(departmentSeq) + 1)
      ensures old(Valid()) ==> Valid() && (r.Failure? <==> Falsy(name))
    {
      if Falsy(name) {
        return Failure(MissingName);
      }
      var id := departmentSeq;
      departmentSeq := departmentSeq + 1;
      var inserted := Table.Insert(departments, id, name.value);
      if inserted.Failure? {
        return Failure(inserted.error);
      }
      departments := inserted.value;
      r := Success(id);
    }

    /** PUT /api/departments/:departmentId: rename; not found unless exactly one row changed. */
    method RenameDepartment(departmentId: int, name: string) returns (r: Outcome<Error>)
      modifies this
      ensures r.Pass? <==> departmentId in old(departments)
      ensures r.Fail? ==> r.error == NotFound
      ensures departments == Table.UpdateRow(old(departments), departmentId, name).0
      ensures State() == old(State()).(departments := departments)
      ensures old(Valid()) ==> Valid()
    {
      var count;
      var (departments', count') := Table.UpdateRow(departments, departmentId, name);
      departments, count := departments', count';
      r := if count == 1 then Pass else Fail(NotFound);
    }

    /** DELETE /api/departments/:id: the row goes if it was there; the answer is success either way. */
    method DeleteDepartment(departmentId: int)
      modifies this
      ensures departments == old(departments) - {departmentId}
      ensures State() == old(State()).(departments := departments)
      ensures old(Valid()) ==> Valid()
    {
      departments := Table.DeleteRow(departments, departmentId).0;
    }
  }
}
