/** Building and sending queries: insert_params, and my_SQLExecute with its array of parameter sets
    (driver/execute.c). The connection carries the lock and the network buffer in which the text is
    put together; a lock that is not held cannot be released, and one that is held cannot be taken. */
module Execute {
  import opened Basics
  import opened Odbc
  import opened SqlText
  import opened Substitution
  import opened ParamSets

  class Connection {
    var locked: bool
    var buff: string        // the network buffer, up to where it has been written
    var sent: seq<string>   // the queries sent so far

    method Lock()
      requires !locked
      modifies this`locked
      ensures locked
    {
      locked := true;
    }

    method Unlock()
      requires locked
      modifies this`locked
      ensures !locked
    {
      locked := false;
    }

    /** Succeeds, and takes the lock, when it is free. */
    method TryLock() returns (busy: bool)
      modifies this`locked
      ensures locked && busy == old(locked)
    {
      busy := locked;
      locked := true;
    }

    /** Copies `from` to offset `to` of the buffer; what was written behind it is lost. */
    method AddToBuffer(to: nat, from: string) returns (end: nat)
      requires to <= |buff|
      modifies this`buff
      ensures end == to + |from| == |buff| && buff == old(buff[..to]) + from
    {
      buff := buff[..to] + from;
      end := |buff|;
    }

    /** do_query, for a query that is neither scrolled nor prepared on the server: takes the lock for
        itself while the server works. */
    method DoQuery(query: string, answer: Answer) returns (rc: SqlReturn)
      requires !locked
      modifies this`locked, this`sent
      ensures !locked && sent == old(sent) + [query]
      ensures rc == if answer.ok then SqlSuccess else SqlError
    {
      Lock();
      sent := sent + [query];
      rc := if answer.ok then SqlSuccess else SqlError;
      Unlock();
    }
  }

  /** What is written for one set: nothing when a parameter is not bound, else the query with each parameter's own
      text in its marker's stead, and a warning when there was one. */
  ghost predicate Inserted(query: string, paramPos: seq<nat>, params: seq<Bound>, written: string, rc: SqlReturn)
    requires |params| == |paramPos|
  {
    && ((exists i :: 0 <= i < |params| && params[i].Unbound?) ==> rc == SqlError && written == "")
    && ((forall i :: 0 <= i < |params| ==> params[i].Put?) ==>
          && Filled(query, paramPos, params, written)
          && (rc == SqlSuccessWithInfo <==> exists i :: 0 <= i < |params| && params[i].info)
          && (rc == SqlSuccess <==> forall i :: 0 <= i < |params| ==> !params[i].info))
  }

  lemma TextInserted(query: string, params: seq<Bound>, rc: SqlReturn)
    requires |params| == |AllMarkers(query)| && AllPut(params)
    requires rc == if AnyInfo(params) then SqlSuccessWithInfo else SqlSuccess
    ensures Inserted(query, AllMarkers(query), params, Substituted(query, |query|, Texts(params)), rc)
  {
    hide Substituted, Texts, Filled, AllMarkers;
    SubstitutedFilled(query, params);
  }

  lemma NothingInserted(query: string, params: seq<Bound>, i: nat)
    requires |params| == |AllMarkers(query)| && i < |params| && params[i].Unbound?
    ensures Inserted(query, AllMarkers(query), params, "", SqlError)
  {
  }

  /** insert_params for one set: writes the query with its literals behind the first `length` bytes of
      the buffer. On an error the length given comes back, so nothing counts as written. The lock is
      left as it was found. */
  method InsertParams(dbc: Connection, query: string, paramPos: seq<nat>, params: seq<Bound>, length: nat)
      returns (rc: SqlReturn, newLength: nat)
    requires paramPos == AllMarkers(query) && |params| == |paramPos| && length <= |dbc.buff|
    modifies dbc`locked, dbc`buff
    ensures dbc.locked == old(dbc.locked)
    ensures rc == if !AllPut(params) then SqlError else if AnyInfo(params) then SqlSuccessWithInfo else SqlSuccess
    ensures length <= newLength <= |dbc.buff| && dbc.buff[..length] == old(dbc.buff[..length])
    ensures dbc.buff[..newLength] == old(dbc.buff[..length]) +
      (if AllPut(params) then Substituted(query, |query|, Texts(params)) else [])
    ensures Inserted(query, paramPos, params, dbc.buff[length..newLength], rc)
  {
    hide Substituted, AllMarkers, SegmentStart, SegmentEnd, AnyInfo, Texts, Inserted;
    ghost var before, lits := dbc.buff[..length], Texts(params);
    var busy := dbc.TryLock();
    var to, from, hadInfo := length, 0, false;
    EmptyStart(query, lits);
    for i := 0 to |params|
      invariant length <= to <= |dbc.buff| && from == SegmentStart(query, i) <= |query|
      invariant dbc.locked && forall k :: 0 <= k < i ==> params[k].Put?
      invariant hadInfo == AnyInfo(params[..i])
      invariant dbc.buff[..to] == before + Substituted(query, from, lits)
    {
      MarkerReplaced(query, i, lits);
      InfoStep(params, i);
      to := dbc.AddToBuffer(to, query[from..paramPos[i]]);
      assert dbc.buff == before + Substituted(query, paramPos[i], lits);
      from := paramPos[i] + 1;
      match params[i] {
        case Put(text, info) =>
          to := dbc.AddToBuffer(to, text);
          assert dbc.buff == before + Substituted(query, from, lits);
          hadInfo := hadInfo || info;
        case Unbound =>
          assert dbc.buff[..length] == before;
          NothingInserted(query, params, i);
          if !busy {
            dbc.Unlock();
          }
          return SqlError, length;
      }
    }
    assert params[..|params|] == params;
    LastSegment(query, lits);
    to := dbc.AddToBuffer(to, query[from..]);
    ghost var whole := Substituted(query, |query|, lits);
    assert dbc.buff == before + whole;
    rc := if hadInfo then SqlSuccessWithInfo else SqlSuccess;
    if !busy {
      dbc.Unlock();
    }
    newLength := to;
    TextInserted(query, params, rc);
    assert (before + whole)[length..newLength] == whole;
  }

  lemma InfoStep(params: seq<Bound>, i: nat)
    requires i < |params|
    ensures AnyInfo(params[..i + 1]) == (AnyInfo(params[..i]) || (params[i].Put? && params[i].info))
  {
    assert forall k :: 0 <= k < i ==> params[..i][k] == params[..i + 1][k];
    if AnyInfo(params[..i + 1]) {
      var k :| 0 <= k < i + 1 && params[..i + 1][k].Put? && params[..i + 1][k].info;
      assert k < i ==> params[..i][k].info;
    }
    if params[i].Put? && params[i].info {
      assert params[..i + 1][i].info;
    }
  }

  lemma EmptyStart(t: string, lits: seq<string>)
    ensures Substituted(t, 0, lits) == [] && SegmentStart(t, 0) == 0 && AnyInfo([]) == false
  {
  }

  /** Segment and literal together take the output from one segment to the next. */
  lemma MarkerReplaced(t: string, k: nat, lits: seq<string>)
    requires k < |AllMarkers(t)| == |lits|
    ensures var a, b := SegmentStart(t, k), AllMarkers(t)[k];
      && a <= b < |t| && SegmentStart(t, k + 1) == b + 1
      && Substituted(t, b, lits) == Substituted(t, a, lits) + t[a..b]
      && Substituted(t, b + 1, lits) == Substituted(t, b, lits) + lits[k]
  {
    SegmentsBetweenMarkers(t, k);
    SegmentCopied(t, SegmentStart(t, k), SegmentEnd(t, k), lits);
  }

  lemma LastSegment(t: string, lits: seq<string>)
    ensures var a := SegmentStart(t, |AllMarkers(t)|);
      a <= |t| && Substituted(t, |t|, lits) == Substituted(t, a, lits) + t[a..]
  {
    SegmentsBetweenMarkers(t, |AllMarkers(t)|);
    SegmentCopied(t, SegmentStart(t, |AllMarkers(t)|), |t|, lits);
  }

  /** my_SQLExecute on one statement: the loop's variables are fields. The status array may be absent. */
  class Execution {
    const j: Job
    const dbc: Connection
    const status: array?<Status>
    var row: nat
    var length: nat
    var rc: SqlReturn
    var lastError: Option<nat>
    var anyNotPlain: bool
    var allFailed: bool
    var connectionFailure: bool
    var rowsProcessed: nat
    var currentParam: nat
    var awaitsData: bool   // dae_type is DAE_NORMAL

    /** `indeterminate` is what the uninitialised return code happens to hold. */
    constructor (j: Job, dbc: Connection, status: array?<Status>, indeterminate: SqlReturn)
      requires ValidJob(j) && (status != null ==> status.Length == j.n)
      ensures this.j == j && this.dbc == dbc && this.status == status && rc == indeterminate
      ensures Fresh()
    {
      this.j, this.dbc, this.status, rc := j, dbc, status, indeterminate;
      row, length, lastError, anyNotPlain, connectionFailure := 0, 0, None, false, false;
      allFailed, rowsProcessed, currentParam, awaitsData := j.n > 1, 0, 0, false;
    }

    ghost predicate Valid() {
      ValidJob(j) && (status != null ==> status.Length == j.n)
    }

    /** Nothing has been done yet. */
    ghost predicate Fresh()
      reads this
    {
      && Valid() && row == 0 && length == 0 && lastError == None && !anyNotPlain && !connectionFailure
      && allFailed == (j.n > 1) && rowsProcessed == 0 && !awaitsData
    }

    /** Statuses are kept only where there are parameters and a place for them. */
    predicate KeepsStatus()
      requires Valid()
    {
      status != null && ParamCount(j) > 0
    }

    ghost function Books(): Ledger
      reads this
    {
      Ledger(rc, lastError, anyNotPlain, allFailed, connectionFailure)
    }

    /** The first `row` sets are done, and everything recorded is what it should be. */
    ghost predicate Done()
      requires Valid()
      reads this, dbc, status
    {
      && row <= j.n && LedgerAt(j, row, KeepsStatus(), Books())
      && rowsProcessed == (if ParamCount(j) > 0 then row else 0)
      && dbc.locked == (Batched(j) && row < j.n)
      && length <= |dbc.buff|
      && (row < j.n ==> dbc.buff[..length] == if Batched(j) then Pending(j, row) else [])
      && (KeepsStatus() ==> forall r :: 0 <= r < row ==> status[r] == StatusOf(j, r))
    }

    /** Only the current set's status has changed, to `to`. */
    twostate predicate StatusSet(to: Status)
      requires Valid() && row < j.n
      reads this, status
    {
      status != null ==> status[row] == to && forall r :: 0 <= r < j.n && r != row ==> status[r] == old(status[r])
    }

    /** map_error_to_param_status for the current set, remembering a failure. */
    method MapError()
      requires Valid() && row < j.n && ParamCount(j) > 0
      modifies this`lastError, status
      ensures StatusSet(MappedStatus(rc))
      ensures lastError == if status == null || Succeeded(rc) then old(lastError) else Some(row)
    {
      if status != null {
        status[row] := MappedStatus(rc);
        if !Succeeded(rc) {
          lastError := Some(row);
        }
      }
    }

    /** Writes the set's text into the buffer and records how that went. */
    method BindParams()
      requires Valid() && row < j.n && ParamCount(j) > 0 && length <= |dbc.buff| && !j.sets[row].ignored
      modifies this`rc, this`length, this`lastError, this`anyNotPlain, dbc`buff, dbc`locked, status
      ensures dbc.locked == old(dbc.locked) && rc == BindReturn(j, row)
      ensures Books() == BoundLedger(j, row, status != null, old(Books()))
      ensures length <= |dbc.buff|
      ensures dbc.buff[..length] == old(dbc.buff[..length]) + (if Bindable(j, row) then TextOf(j, row) else [])
      ensures StatusSet(MappedStatus(BindReturn(j, row)))
    {
      hide AllPut, AnyInfo, AllMarkers, Inserted;
      rc, length := InsertParams(dbc, j.query, AllMarkers(j.query), j.sets[row].params, length);
      MapError();
      if rc != SqlSuccess {
        anyNotPlain := true;
      }
    }

    /** The part of the loop that looks at one set's parameters. Says whether the set was bound. */
    method BindSet() returns (bound: bool)
      requires Valid() && row < j.n && ParamCount(j) > 0 && length <= |dbc.buff|
      requires dbc.locked == Batched(j)
      modifies this`rowsProcessed, this`rc, this`length, this`lastError, this`anyNotPlain, dbc`buff, dbc`locked, status
      ensures rowsProcessed == old(rowsProcessed) + 1
      ensures dbc.locked == (Batched(j) && !IsLast(j, row))
      ensures bound == Bindable(j, row)
      ensures Books() == BoundLedger(j, row, status != null, old(Books()))
      ensures length <= |dbc.buff|
      ensures dbc.buff[..length] == old(dbc.buff[..length]) + BoundText(j, row)
      ensures StatusSet(if j.sets[row].ignored then StatusUnused else MappedStatus(BindReturn(j, row)))
    {
      hide AllPut, AnyInfo, AllMarkers, TextOf;
      rowsProcessed := rowsProcessed + 1;
      if j.sets[row].ignored {
        if status != null {
          status[row] := StatusUnused;
        }
        if j.n > 1 && j.isSelect && row == j.n - 1 {
          dbc.Unlock();
        }
        return false;
      }
      BindParams();
      if !Succeeded(rc) {
        if j.n > 1 && j.isSelect && row == j.n - 1 {
          dbc.Unlock();
        }
        return false;
      }
      if j.n > 1 && j.isSelect {
        if row < j.n - 1 {
          length := dbc.AddToBuffer(length, BINDER);
        } else {
          dbc.Unlock();
        }
      }
      bound := true;
    }

    /** The part of the loop that sends the query, unless the connection is already gone. */
    method RunSet()
      requires Valid() && row < j.n && (!j.isSelect || IsLast(j, row)) && length <= |dbc.buff|
      requires !dbc.locked
      modifies this`rc, this`length, this`lastError, this`anyNotPlain, this`allFailed, this`connectionFailure
      modifies dbc`locked, dbc`sent, status
      ensures !dbc.locked && length == 0
      ensures Books() == SentLedger(j, row, KeepsStatus(), old(Books()))
      ensures dbc.sent == old(dbc.sent) +
        (if old(connectionFailure) then [] else [if ParamCount(j) == 0 then j.query else old(dbc.buff[..length])])
      ensures ParamCount(j) > 0 ==> StatusSet(MappedStatus(rc))
      ensures ParamCount(j) == 0 && status != null ==> status[..] == old(status[..])
    {
      hide AllMarkers;
      if !connectionFailure {
        rc := dbc.DoQuery(if ParamCount(j) == 0 then j.query else dbc.buff[..length], j.answers[row]);
        if !j.answers[row].ok && j.answers[row].lost {
          connectionFailure := true;
        }
      } else {
        rc := SqlError;
      }
      if ParamCount(j) > 0 {
        MapError();
      }
      if rc != SqlSuccess {
        anyNotPlain := true;
      } else {
        allFailed := false;
      }
      length := 0;
    }

    /** One turn of the loop over the parameter sets. */
    method Step()
      requires Valid() && Done() && row < j.n
      modifies this`row, this`rc, this`length, this`lastError, this`anyNotPlain, this`allFailed
      modifies this`connectionFailure, this`rowsProcessed, dbc, status
      ensures Done() && row == old(row) + 1
      ensures dbc.sent == old(dbc.sent) + SentFor(j, old(row))
      ensures rc == ReturnAfter(j, old(row), old(rc))
      ensures ParamCount(j) == 0 && status != null ==> status[..] == old(status[..])
    {
      hide AllPut, AnyInfo, AllMarkers, TextOf, Join, Pending, LedgerAt, LostBefore, BindReturn, Plain;
      hide BoundLedger, SentLedger, ReturnAfter, StatusOf, EndOf;
      LedgerGoesOn(j, row, KeepsStatus(), Books());
      LedgerInParts(j, row, KeepsStatus(), Books());
      SetText(j, row);
      var bound := true;
      if ParamCount(j) > 0 {
        bound := BindSet();
      }
      if bound && (!j.isSelect || row == j.n - 1) {
        RunSet();
      }
      row := row + 1;
    }
  }

  /** What is sent for a set, from what the buffer holds. */
  lemma SetText(j: Job, r: nat)
    requires ValidJob(j) && r < j.n
    ensures SentFor(j, r) == if !EndOf(j, r).Ran? then []
      else [(if Batched(j) then Pending(j, r) else []) + TextOf(j, r)]
    ensures ParamCount(j) == 0 ==> TextOf(j, r) == j.query
    ensures Batched(j) && !IsLast(j, r) ==> Pending(j, r + 1) == Pending(j, r) + BoundText(j, r)
  {
    hide Join, AllMarkers;
    var text := TextOf(j, r);
    assert [] + text == text;
    if Batched(j) {
      PendingJoins(j, r, text);
    }
  }

  /** my_SQLExecute without data-at-execution parameters. The lock is free again on every way out;
      the queries sent, the statuses and the return code are what the parameter sets call for. A
      single ignored set leaves the return code indeterminate. */
  method ExecuteSets(x: Execution) returns (rc: SqlReturn)
    requires x.Fresh() && !x.dbc.locked
    modifies x, x.dbc, x.status
    ensures !x.dbc.locked
    ensures x.dbc.sent == old(x.dbc.sent) + Sent(x.j, x.j.n)
    ensures x.j.n > 1 ==> rc == ArrayReturn(x.j)
    ensures x.j.n == 1 ==> rc == ReturnAfter(x.j, 0, old(x.rc))
    ensures x.rowsProcessed == if ParamCount(x.j) > 0 then x.j.n else 0
    ensures x.KeepsStatus() ==> forall r :: 0 <= r < x.j.n ==> x.status[r] == FinalStatus(x.j, r)
    ensures ParamCount(x.j) == 0 && x.status != null ==> x.status[..] == old(x.status[..])
  {
    hide EndOf, LostBefore, Join, AllPut, AnyInfo, AllMarkers, LedgerAt, Pending, ReturnAfter, SentFor;
    var j := x.j;
    if ParamCount(j) > 0 && j.n > 1 && j.isSelect {
      x.dbc.Lock();
    }
    NothingYet(j, x.KeepsStatus(), x.rc);
    assert x.dbc.buff[..0] == [];
    while x.row < j.n
      invariant x.j == j && x.Valid() && x.Done()
      invariant x.dbc.sent == old(x.dbc.sent) + Sent(j, x.row)
      invariant x.row == 0 ==> x.rc == old(x.rc)
      invariant j.n == 1 && x.row == 1 ==> x.rc == ReturnAfter(j, 0, old(x.rc))
      invariant ParamCount(j) == 0 && x.status != null ==> x.status[..] == old(x.status[..])
      decreases j.n - x.row
    {
      x.Step();
    }
    LedgerCloses(j, x.KeepsStatus(), x.Books());
    if x.lastError.Some? {
      x.status[x.lastError.value] := StatusError;
    }
    if j.n > 1 {
      if x.allFailed {
        return SqlError;
      } else if x.anyNotPlain {
        return SqlSuccessWithInfo;
      }
    }
    rc := x.rc;
  }

  lemma NothingYet(j: Job, hasStatus: bool, rc: SqlReturn)
    requires ValidJob(j)
    ensures LedgerAt(j, 0, hasStatus, Ledger(rc, None, false, j.n > 1, false))
    ensures Pending(j, 0) == [] && Sent(j, 0) == []
  {
    LedgerBegins(j, hasStatus, rc);
  }

  /** What the ledger says at the end. */
  lemma LedgerCloses(j: Job, hasStatus: bool, l: Ledger)
    requires ValidJob(j) && LedgerAt(j, j.n, hasStatus, l)
    ensures j.n > 1 ==>
      ArrayReturn(j) == if l.allFailed then SqlError else if l.anyNotPlain then SqlSuccessWithInfo else l.rc
    ensures l.lastError.Some? ==> hasStatus && LastFailure(j, j.n, l.lastError.value)
    ensures hasStatus ==> forall r: nat :: r < j.n ==>
      FinalStatus(j, r) == if l.lastError == Some(r) then StatusError else StatusOf(j, r)
  {
    hide EndOf, LostBefore, AllPut, AnyInfo, AllMarkers;
    if AnySucceeded(j, j.n) {
      var r :| 0 <= r < j.n && EndOf(j, r) == Ran(true);
      assert AnyTaken(j, j.n);
    }
  }

  /** my_SQLExecute when the n-th parameter is to be supplied at execution: a single set asks for it;
      an array is refused at its first set that is not ignored, and the lock is released there. */
  method ExecuteAtExec(x: Execution, daeRec: nat) returns (rc: SqlReturn)
    requires x.Fresh() && !x.dbc.locked && ParamCount(x.j) > 0
    requires exists r :: 0 <= r < x.j.n && !x.j.sets[r].ignored
    modifies x, x.dbc, x.status
    ensures !x.dbc.locked && x.dbc.sent == old(x.dbc.sent)
    ensures x.j.n == 1 ==> rc == SqlNeedData && x.awaitsData && x.currentParam == daeRec
    ensures x.j.n > 1 ==> rc == SqlError && !x.awaitsData
    ensures x.row < x.j.n && !x.j.sets[x.row].ignored && forall r :: 0 <= r < x.row ==> x.j.sets[r].ignored
    ensures x.rowsProcessed == x.row + 1
    ensures x.j.n > 1 && x.status != null ==>
      forall r :: 0 <= r < x.j.n ==> x.status[r] == if r == x.row then StatusError else StatusUnused
  {
    hide AllMarkers;
    var j := x.j;
    if j.n > 1 && j.isSelect {
      x.dbc.Lock();
    }
    while x.row < j.n && j.sets[x.row].ignored
      invariant x.j == j && x.row <= j.n && x.rowsProcessed == x.row && !x.awaitsData
      invariant forall r :: 0 <= r < x.row ==> j.sets[r].ignored
      invariant x.dbc.locked == (j.n > 1 && j.isSelect && x.row < j.n)
      invariant x.dbc.sent == old(x.dbc.sent)
      invariant x.status != null ==> forall r :: 0 <= r < x.row ==> x.status[r] == StatusUnused
      decreases j.n - x.row
    {
      x.rowsProcessed := x.rowsProcessed + 1;
      if x.status != null {
        x.status[x.row] := StatusUnused;
      }
      if j.n > 1 && j.isSelect && x.row == j.n - 1 {
        x.dbc.Unlock();
      }
      x.row := x.row + 1;
    }
    x.rowsProcessed := x.rowsProcessed + 1;
    if j.n == 1 {
      x.currentParam := daeRec;
      x.awaitsData := true;
      return SqlNeedData;
    }
    if j.isSelect {
      x.dbc.Unlock();
    }
    if x.status != null {
      x.status[x.row] := StatusError;
      var r := x.row + 1;
      while r < j.n
        invariant x.row < r <= j.n
        invariant forall k :: 0 <= k < r ==> x.status[k] == if k == x.row then StatusError else StatusUnused
        modifies x.status
      {
        x.status[r] := StatusUnused;
        r := r + 1;
      }
    }
    rc := SqlError;
  }

  /** What binding set r adds to the buffer. */
  function BoundText(j: Job, r: nat): string
    requires ValidJob(j) && r < j.n
  {
    if !Bindable(j, r) then []
    else if Batched(j) && !IsLast(j, r) then TextOf(j, r) + BINDER
    else TextOf(j, r)
  }
}
