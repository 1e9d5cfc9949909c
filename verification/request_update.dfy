/**
 * PUT /api/request/:id.  The handler builds an UPDATE statement step by
 * step: status and description always, the acceptance date only when a
 * start date is given, the completion date only when a completion date is
 * given, and the request id last, each bound to the next placeholder.
 * The model builds that statement, gives the statement its SQL meaning, and
 * proves that the meaning is the intended partial update.
 */
module RequestUpdate {
  import opened Wrappers
  import opened Schema

  /**
   * The fields of the request body.  A date that is absent or empty (falsy
   * in JavaScript) is None.
   */
  datatype UpdateBody = UpdateBody(statusId: int, description: string, startDate: Option<int>, completedDate: Option<int>)

  datatype Column = StatusId | RequestDescription | RequestAcceptDate | RequestCompleteDate

  /** A bound parameter of the statement. */
  datatype Value = IntValue(n: int) | TextValue(text: string)

  /** "column = $placeholder" */
  datatype SetClause = SetClause(column: Column, placeholder: int)

  /** UPDATE request SET sets WHERE request_id = $wherePlaceholder */
  datatype UpdateStatement = UpdateStatement(sets: seq<SetClause>, wherePlaceholder: int)

  /**
   * The placeholders run $1, $2, ... through the SET clauses, the WHERE
   * clause takes the next one, and that is the last parameter.
   */
  ghost predicate WellNumbered(stmt: UpdateStatement, params: seq<Value>) {
    && |params| == |stmt.sets| + 1
    && (forall i :: 0 <= i < |stmt.sets| ==> stmt.sets[i].placeholder == i + 1)
    && stmt.wherePlaceholder == |params|
  }

  // ---------------------------------------------------------------------
  // What an UPDATE statement does to the request table.

  /** A parameter of this kind can be stored in this column. */
  predicate Fits(column: Column, v: Value) {
    match column
    case RequestDescription => v.TextValue?
    case _ => v.IntValue?
  }

  predicate Bound(params: seq<Value>, p: int) {
    1 <= p <= |params|
  }

  predicate ClausesFit(sets: seq<SetClause>, params: seq<Value>) {
    forall i :: 0 <= i < |sets| ==>
      Bound(params, sets[i].placeholder) && Fits(sets[i].column, params[sets[i].placeholder - 1])
  }

  /** Every placeholder has a parameter of a kind its column accepts, and the key is an integer. */
  predicate Executable(stmt: UpdateStatement, params: seq<Value>) {
    && ClausesFit(stmt.sets, params)
    && Bound(params, stmt.wherePlaceholder)
    && params[stmt.wherePlaceholder - 1].IntValue?
  }

  function Assign(row: Request, column: Column, v: Value): Request
    requires Fits(column, v)
  {
    match column
    case StatusId => row.(statusId := v.n)
    case RequestDescription => row.(description := v.text)
    case RequestAcceptDate => row.(acceptDate := Some(v.n))
    case RequestCompleteDate => row.(completeDate := Some(v.n))
  }

  /** No SET clause names this column. */
  predicate Untouched(sets: seq<SetClause>, column: Column) {
    forall i :: 0 <= i < |sets| ==> sets[i].column != column
  }

  /**
   * The SET clauses applied to one row, left to right.  Only the four
   * columns the clauses name can change, a column no clause names keeps its
   * value, and no clause can clear a date.
   */
  function ApplySets(row: Request, sets: seq<SetClause>, params: seq<Value>): (r: Request)
    requires ClausesFit(sets, params)
    ensures r.problemId == row.problemId && r.specialistId == row.specialistId && r.sendDate == row.sendDate
    ensures Untouched(sets, StatusId) ==> r.statusId == row.statusId
    ensures Untouched(sets, RequestDescription) ==> r.description == row.description
    ensures Untouched(sets, RequestAcceptDate) ==> r.acceptDate == row.acceptDate
    ensures Untouched(sets, RequestCompleteDate) ==> r.completeDate == row.completeDate
    ensures row.acceptDate.Some? ==> r.acceptDate.Some?
    ensures row.completeDate.Some? ==> r.completeDate.Some?
    decreases |sets|
  {
    if sets == [] then row
    else ApplySets(Assign(row, sets[0].column, params[sets[0].placeholder - 1]), sets[1..], params)
  }

  /**
   * Running the statement: a statement whose parameters do not fit fails;
   * otherwise the row with the bound key, if there is one, is rewritten and
   * every other row stays.  No matching row is not an error.
   */
  function Execute(stmt: UpdateStatement, params: seq<Value>, t: map<int, Request>): (r: Result<map<int, Request>, Error>)
    ensures r.Failure? <==> !Executable(stmt, params)
    ensures r.Success? ==> r.value.Keys == t.Keys
    ensures r.Success? ==> forall k :: k in t && k != params[stmt.wherePlaceholder - 1].n ==> r.value[k] == t[k]
  {
    if !Executable(stmt, params) then Failure(QueryError)
    else
      var id := params[stmt.wherePlaceholder - 1].n;
      if id in t then Success(t[id := ApplySets(t[id], stmt.sets, params)]) else Success(t)
  }

  /** Applying clauses a then clauses b is applying a + b. */
  lemma {:induction false} ApplySetsAppend(row: Request, a: seq<SetClause>, b: seq<SetClause>, params: seq<Value>)
    requires ClausesFit(a, params) && ClausesFit(b, params)
    ensures ClausesFit(a + b, params)
    ensures ApplySets(row, a + b, params) == ApplySets(ApplySets(row, a, params), b, params)
    decreases |a|
  {
    if a == [] {
      assert a + b == b;
    } else {
      assert (a + b)[0] == a[0];
      assert (a + b)[1..] == a[1..] + b;
      assert ClausesFit(a[1..], params) by {
        assert forall i :: 0 <= i < |a[1..]| ==> a[1..][i] == a[i + 1];
      }
      ApplySetsAppend(Assign(row, a[0].column, params[a[0].placeholder - 1]), a[1..], b, params);
    }
  }

  /** Extra parameters past the ones the clauses use change nothing. */
  lemma {:induction false} ApplySetsExtend(row: Request, sets: seq<SetClause>, params: seq<Value>, extra: seq<Value>)
    requires ClausesFit(sets, params)
    ensures ClausesFit(sets, params + extra)
    ensures ApplySets(row, sets, params + extra) == ApplySets(row, sets, params)
    decreases |sets|
  {
    if sets != [] {
      assert ClausesFit(sets[1..], params) by {
        assert forall i :: 0 <= i < |sets[1..]| ==> sets[1..][i] == sets[i + 1];
      }
      ApplySetsExtend(Assign(row, sets[0].column, params[sets[0].placeholder - 1]), sets[1..], params, extra);
    }
  }

  /** One more clause bound to one more parameter acts after the clauses before it. */
  lemma ApplyOneMore(row: Request, sets: seq<SetClause>, params: seq<Value>, clause: SetClause, v: Value)
    requires ClausesFit(sets, params)
    requires clause.placeholder == |params| + 1 && Fits(clause.column, v)
    ensures ClausesFit(sets + [clause], params + [v])
    ensures ApplySets(row, sets + [clause], params + [v]) == Assign(ApplySets(row, sets, params), clause.column, v)
  {
    ApplySetsExtend(row, sets, params, [v]);
    assert ClausesFit([clause], params + [v]);
    ApplySetsAppend(row, sets, [clause], params + [v]);
    var mid := ApplySets(row, sets, params + [v]);
    assert ApplySets(mid, [clause], params + [v]) == ApplySets(Assign(mid, clause.column, v), [], params + [v]);
  }

  // ---------------------------------------------------------------------
  // The intended effect.

  /** Status and description replaced; each date replaced only when given, otherwise kept. */
  function UpdatedRequest(row: Request, body: UpdateBody): (r: Request)
    ensures r.statusId == body.statusId && r.description == body.description
    ensures r.problemId == row.problemId && r.specialistId == row.specialistId && r.sendDate == row.sendDate
    ensures body.startDate.Some? ==> r.acceptDate == body.startDate
    ensures body.startDate.None? ==> r.acceptDate == row.acceptDate
    ensures body.completedDate.Some? ==> r.completeDate == body.completedDate
    ensures body.completedDate.None? ==> r.completeDate == row.completeDate
  {
    row.(
      statusId := body.statusId,
      description := body.description,
      acceptDate := if body.startDate.Some? then body.startDate else row.acceptDate,
      completeDate := if body.completedDate.Some? then body.completedDate else row.completeDate)
  }

  /** The request table after the intended update: only the row under id changes, and only when it exists. */
  function UpdateRequestTable(t: map<int, Request>, id: int, body: UpdateBody): (u: map<int, Request>)
    ensures u.Keys == t.Keys
    ensures id in t ==> u[id] == UpdatedRequest(t[id], body)
    ensures forall k :: k in t && k != id ==> u[k] == t[k]
  {
    if id in t then t[id := UpdatedRequest(t[id], body)] else t
  }

  /** A statement whose clauses have the intended effect on every row performs the intended update. */
  lemma ExecuteIntended(stmt: UpdateStatement, params: seq<Value>, requestId: int, body: UpdateBody, t: map<int, Request>)
    requires Performs(stmt.sets, params, body)
    requires |params| > 0 && stmt.wherePlaceholder == |params| && params[|params| - 1] == IntValue(requestId)
    ensures Execute(stmt, params, t) == Success(UpdateRequestTable(t, requestId, body))
  {
    if requestId in t {
      assert ApplySets(t[requestId], stmt.sets, params) == UpdatedRequest(t[requestId], body);
    }
  }

  /** The clauses, with these parameters, have on every row the effect of updating it with body. */
  ghost predicate Performs(sets: seq<SetClause>, params: seq<Value>, body: UpdateBody) {
    ClausesFit(sets, params) && forall row :: ApplySets(row, sets, params) == UpdatedRequest(row, body)
  }

  /** The first two clauses write status and description and nothing else. */
  lemma FirstClauses(body: UpdateBody)
    ensures Performs([SetClause(StatusId, 1), SetClause(RequestDescription, 2)],
                     [IntValue(body.statusId), TextValue(body.description)],
                     body.(startDate := None, completedDate := None))
  {
    var sets := [SetClause(StatusId, 1), SetClause(RequestDescription, 2)];
    var params := [IntValue(body.statusId), TextValue(body.description)];
    forall row ensures ApplySets(row, sets, params) == UpdatedRequest(row, body.(startDate := None, completedDate := None)) {
      assert sets[1..] == [sets[1]] && sets[1..][1..] == [];
      var once := Assign(row, StatusId, params[0]);
      assert ApplySets(row, sets, params) == ApplySets(once, [sets[1]], params);
      assert ApplySets(once, [sets[1]], params) == ApplySets(Assign(once, RequestDescription, params[1]), [], params);
    }
  }

  /** A date clause bound to the next parameter turns "date not given" into "date given". */
  lemma AddDateClause(sets: seq<SetClause>, params: seq<Value>, body: UpdateBody, column: Column, date: int)
    requires Performs(sets, params, body)
    requires column == RequestAcceptDate || column == RequestCompleteDate
    ensures var body' := if column == RequestAcceptDate then body.(startDate := Some(date)) else body.(completedDate := Some(date));
      Performs(sets + [SetClause(column, |params| + 1)], params + [IntValue(date)], body')
  {
    var clause := SetClause(column, |params| + 1);
    forall row ensures ClausesFit(sets + [clause], params + [IntValue(date)])
      && ApplySets(row, sets + [clause], params + [IntValue(date)]) == Assign(UpdatedRequest(row, body), column, IntValue(date))
    {
      ApplyOneMore(row, sets, params, clause, IntValue(date));
    }
  }

  /** A parameter appended past the clauses' own leaves their effect as it was. */
  lemma AddWhereParameter(sets: seq<SetClause>, params: seq<Value>, body: UpdateBody, v: Value)
    requires Performs(sets, params, body)
    ensures Performs(sets, params + [v], body)
  {
    forall row ensures ClausesFit(sets, params + [v]) && ApplySets(row, sets, params + [v]) == UpdatedRequest(row, body) {
      ApplySetsExtend(row, sets, params, [v]);
    }
  }

  // ---------------------------------------------------------------------
  // The handler's statement.

  /** The statement and the parameter list, grown clause by clause as the handler does. */
  method BuildUpdate(requestId: int, body: UpdateBody) returns (stmt: UpdateStatement, params: seq<Value>)
    ensures WellNumbered(stmt, params)
    ensures params[|params| - 1] == IntValue(requestId)
    ensures forall t :: Execute(stmt, params, t) == Success(UpdateRequestTable(t, requestId, body))
  {
    var sets := [SetClause(StatusId, 1), SetClause(RequestDescription, 2)];
    params := [IntValue(body.statusId), TextValue(body.description)];
    FirstClauses(body);
    ghost var done := body.(startDate := None, completedDate := None);

    if body.startDate.Some? {
      AddDateClause(sets, params, done, RequestAcceptDate, body.startDate.value);
      sets := sets + [SetClause(RequestAcceptDate, 3)];
      params := params + [IntValue(body.startDate.value)];
    }
    done := done.(startDate := body.startDate);
    assert Performs(sets, params, done);

    if body.completedDate.Some? {
      AddDateClause(sets, params, done, RequestCompleteDate, body.completedDate.value);
      sets := sets + [SetClause(RequestCompleteDate, |params| + 1)];
      params := params + [IntValue(body.completedDate.value)];
    }
    assert done.(completedDate := body.completedDate) == body;
    assert Performs(sets, params, body);
    assert |params| == |sets| && forall i :: 0 <= i < |sets| ==> sets[i].placeholder == i + 1;

    stmt := UpdateStatement(sets, |params| + 1);
    AddWhereParameter(sets, params, body, IntValue(requestId));
    params := params + [IntValue(requestId)];
    forall t ensures Execute(stmt, params, t) == Success(UpdateRequestTable(t, requestId, body)) {
      ExecuteIntended(stmt, params, requestId, body, t);
    }
  }

  // ---------------------------------------------------------------------
  // Properties of the update.

  /** Only the addressed request changes, and in it only status, description and the given dates. */
  lemma UpdateChangesOnlyTarget(t: map<int, Request>, id: int, body: UpdateBody)
    ensures UpdateRequestTable(t, id, body).Keys == t.Keys
    ensures forall k :: k in t && k != id ==> UpdateRequestTable(t, id, body)[k] == t[k]
    ensures id in t ==>
      var r, r' := t[id], UpdateRequestTable(t, id, body)[id];
      && r'.statusId == body.statusId && r'.description == body.description
      && r'.problemId == r.problemId && r'.specialistId == r.specialistId && r'.sendDate == r.sendDate
      && (body.startDate.None? ==> r'.acceptDate == r.acceptDate)
      && (body.startDate.Some? ==> r'.acceptDate == body.startDate)
      && (body.completedDate.None? ==> r'.completeDate == r.completeDate)
      && (body.completedDate.Some? ==> r'.completeDate == body.completedDate)
  {
  }

  /** Dates never become NULL: a date present before the update is present after it. */
  lemma UpdateNeverClearsDates(r: Request, body: UpdateBody)
    ensures r.acceptDate.Some? ==> UpdatedRequest(r, body).acceptDate.Some?
    ensures r.completeDate.Some? ==> UpdatedRequest(r, body).completeDate.Some?
  {
  }

  /** A request whose dates are in order: accepted no later than completed, when both are set. */
  predicate DatesOrdered(r: Request) {
    r.acceptDate.Some? && r.completeDate.Some? ==> r.acceptDate.value <= r.completeDate.value
  }

  /** The update keeps the dates in order when the dates it writes are in order with what they meet. */
  lemma UpdateKeepsDatesOrdered(r: Request, body: UpdateBody)
    requires DatesOrdered(r)
    requires body.startDate.Some? && body.completedDate.Some? ==> body.startDate.value <= body.completedDate.value
    requires body.startDate.Some? && body.completedDate.None? && r.completeDate.Some? ==> body.startDate.value <= r.completeDate.value
    requires body.startDate.None? && body.completedDate.Some? && r.acceptDate.Some? ==> r.acceptDate.value <= body.completedDate.value
    ensures DatesOrdered(UpdatedRequest(r, body))
  {
  }

  /**
   * The handler does not check the order of the dates: a completion date
   * before the stored acceptance date is stored as given.
   */
  lemma UpdateMayDisorderDates()
    ensures var r := Request(1, None, 2, "", 0, Some(10), None);
      && DatesOrdered(r)
      && !DatesOrdered(UpdatedRequest(r, UpdateBody(3, "", None, Some(5))))
  {
  }
}
