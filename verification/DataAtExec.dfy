/** Parameters whose data arrives at execution time: SQLParamData asks for them one by one, SQLPutData
    brings their data in pieces, and the statement runs when all have been asked for
    (driver/execute.c, driver/my_stmt.c). */
module DataAtExec {
  import opened Basics
  import opened Odbc

  // ---- what the pieces amount to ----

  /** A call of SQLPutData: bytes with their count, a NUL-terminated buffer, or SQL_NULL_DATA. */
  datatype Put = Chunk(bytes: string) | Terminated(buffer: string) | NullData

  /** strlen */
  function StrLen(buffer: string): (n: nat)
    requires '\0' in buffer
    ensures n < |buffer| && buffer[n] == '\0' && '\0' !in buffer[..n]
  {
    if buffer[0] == '\0' then 0 else 1 + StrLen(buffer[1..])
  }

  /** The bytes before the first NUL, however it is found. */
  lemma {:induction false} StrLenIs(buffer: string, n: nat)
    requires n < |buffer| && buffer[n] == '\0' && '\0' !in buffer[..n]
    ensures StrLen(buffer) == n
  {
    if n > 0 {
      assert buffer[..n][0] == buffer[0] && buffer[..n][1..] == buffer[1..][..n - 1];
      StrLenIs(buffer[1..], n - 1);
    }
  }

  predicate GoodPut(p: Put) {
    p.Terminated? ==> '\0' in p.buffer
  }

  function BytesOf(p: Put): string
    requires GoodPut(p) && !p.NullData?
  {
    if p.Chunk? then p.bytes else p.buffer[..StrLen(p.buffer)]
  }

  predicate GoodPuts(puts: seq<Put>) {
    forall k :: 0 <= k < |puts| ==> GoodPut(puts[k])
  }

  /** The value after a series of calls. */
  function Heard(puts: seq<Put>): Option<string>
    requires GoodPuts(puts)
  {
    if puts == [] then None else AfterPut(Heard(puts[..|puts| - 1]), puts[|puts| - 1])
  }

  function AfterPut(value: Option<string>, p: Put): Option<string>
    requires GoodPut(p)
  {
    if p.NullData? then None
    else if value == None then Some(BytesOf(p))
    else Some(value.value + BytesOf(p))
  }

  /** How many calls follow the last SQL_NULL_DATA. */
  function PiecesSinceNull(puts: seq<Put>): (n: nat)
    ensures n <= |puts| && forall k :: |puts| - n <= k < |puts| ==> !puts[k].NullData?
    ensures n < |puts| ==> puts[|puts| - n - 1].NullData?
  {
    if puts == [] || puts[|puts| - 1].NullData? then 0 else 1 + PiecesSinceNull(puts[..|puts| - 1])
  }

  function Concat(puts: seq<Put>): string
    requires GoodPuts(puts) && forall k :: 0 <= k < |puts| ==> !puts[k].NullData?
  {
    if puts == [] then "" else Concat(puts[..|puts| - 1]) + BytesOf(puts[|puts| - 1])
  }

  /** The value is the pieces since the last SQL_NULL_DATA, end to end; no piece, no value. */
  lemma {:induction false} HeardIsConcatenation(puts: seq<Put>)
    requires GoodPuts(puts)
    ensures var n := PiecesSinceNull(puts);
      Heard(puts) == if n == 0 then None else Some(Concat(puts[|puts| - n..]))
  {
    hide BytesOf, StrLen, Concat, GoodPut;
    if puts == [] || puts[|puts| - 1].NullData? {
      return;
    }
    var m := |puts| - 1;
    HeardIsConcatenation(puts[..m]);
    var n := PiecesSinceNull(puts[..m]);
    OnePieceMore(puts, m - n);
  }

  lemma OnePieceMore(puts: seq<Put>, from: nat)
    requires GoodPuts(puts) && from < |puts| && forall k :: from <= k < |puts| ==> !puts[k].NullData?
    ensures Concat(puts[from..]) == Concat(puts[..|puts| - 1][from..]) + BytesOf(puts[|puts| - 1])
    ensures from == |puts| - 1 ==> Concat(puts[from..]) == BytesOf(puts[|puts| - 1])
  {
    hide BytesOf, StrLen;
    var pieces := puts[from..];
    assert pieces[..|pieces| - 1] == puts[..|puts| - 1][from..];
    assert "" + BytesOf(puts[|puts| - 1]) == BytesOf(puts[|puts| - 1]);
  }

  // ---- which parameters are asked for ----

  /** The parameters bound with data at execution, in increasing order. */
  function DaeParams(dae: seq<bool>): (r: seq<nat>)
    ensures forall k :: 0 <= k < |r| ==> r[k] < |dae|
  {
    if dae == [] then []
    else DaeParams(dae[..|dae| - 1]) + if dae[|dae| - 1] then [|dae| - 1] else []
  }

  lemma {:induction false} DaeParamsExact(dae: seq<bool>)
    ensures var r := DaeParams(dae);
      && (forall j, k :: 0 <= j < k < |r| ==> r[j] < r[k])
      && (forall i :: i in r <==> 0 <= i < |dae| && dae[i])
  {
    if dae != [] {
      DaeParamsExact(dae[..|dae| - 1]);
    }
  }

  lemma DaeParamsSkip(dae: seq<bool>, i: nat, j: nat)
    requires i <= j <= |dae| && forall k :: i <= k < j ==> !dae[k]
    ensures DaeParams(dae[..0]) == [] && DaeParams(dae[..j]) == DaeParams(dae[..i])
  {
    if i < j {
      DaeParamsSkip(dae, i, j - 1);
      assert dae[..j][..j - 1] == dae[..j - 1];
    }
  }

  lemma DaeParamsTake(dae: seq<bool>, i: nat)
    requires i < |dae| && dae[i]
    ensures DaeParams(dae[..i + 1]) == DaeParams(dae[..i]) + [i]
  {
    assert dae[..i + 1][..i] == dae[..i];
  }

  // ---- the records and the statement ----

  /** A parameter's application record. The value is a buffer of its own with a terminating NUL, or
      null. */
  class Param {
    const dae: bool
    var value: array?<char>
    var valueLength: nat
    var alloced: bool
    var isDae: bool

    constructor (dae: bool)
      ensures Valid() && this.dae == dae && Contents() == None
    {
      this.dae, value, valueLength, alloced, isDae := dae, null, 0, false, false;
    }

    predicate Valid()
      reads this, value
    {
      value != null ==> alloced && value.Length == valueLength + 1 && value[valueLength] == '\0'
    }

    function Contents(): Option<string>
      requires Valid()
      reads this, value
    {
      if value == null then None else Some(value[..valueLength])
    }

    /** append2param_value; the caller's piece may be empty. */
    method Append(chunk: string)
      requires Valid()
      modifies this
      ensures Valid() && (value != null && fresh(value)) && isDae == old(isDae)
      ensures Contents() == Some(if old(Contents()) == None then chunk else old(Contents()).value + chunk)
    {
      var oldValue, at := value, if value == null then 0 else valueLength;
      if value != null {
        assert alloced;
      }
      var grown := new char[at + |chunk| + 1](_ => '\0');
      if oldValue != null {
        forall k | 0 <= k < at {
          grown[k] := oldValue[k];
        }
      }
      forall k | 0 <= k < |chunk| {
        grown[at + k] := chunk[k];
      }
      value, valueLength, alloced := grown, at + |chunk|, true;
      value[valueLength] := '\0';
      assert value[..valueLength] == (if oldValue == null then "" else oldValue[..at]) + chunk;
      assert "" + chunk == chunk;
      assert oldValue != null ==> oldValue[..at] == old(value[..valueLength]);
    }

    /** The part of SQLPutData that concerns the record. */
    method Put(p: Put)
      requires Valid() && GoodPut(p)
      modifies this
      ensures Valid() && isDae == old(isDae) && Contents() == AfterPut(old(Contents()), p)
      ensures var before := if old(Contents()) == None then "" else old(Contents()).value;
        match p
        case NullData => Contents() == None
        case Chunk(bytes) => Contents() == Some(before + bytes)
        case Terminated(buffer) =>
          forall n: nat :: n < |buffer| && buffer[n] == '\0' && '\0' !in buffer[..n] ==>
            Contents() == Some(before + buffer[..n])
      ensures value != null ==> fresh(value)
    {
      if p.NullData? {
        alloced, value := false, null;
        return;
      }
      if p.Terminated? {
        forall n: nat | n < |p.buffer| && p.buffer[n] == '\0' && '\0' !in p.buffer[..n]
          ensures p.buffer[..n] == p.buffer[..StrLen(p.buffer)]
        {
          StrLenIs(p.buffer, n);
        }
      }
      assert "" + BytesOf(p) == BytesOf(p);
      Append(if p.Chunk? then p.bytes else p.buffer[..StrLen(p.buffer)]);
    }

    /** The parameter is asked for: what it held before is dropped. */
    method Ask()
      modifies this
      ensures Valid() && Contents() == None && isDae
    {
      value, alloced, isDae := null, false, true;
    }
  }

  datatype DaeType = DaeNone | DaeNormal

  /** What a parameter is executed with: the value bound by the application, or the one put together. */
  datatype Sent = Bound | PutTogether(value: Option<string>)

  class DaeStatement {
    const params: seq<Param>      // the records of the APD
    const paramCount: nat         // the markers of the statement
    var currentParam: nat
    var daeType: DaeType
    var runs: seq<seq<Sent>>      // the executions so far

    ghost predicate Valid()
      reads this`currentParam, params, set p <- params | p.value != null :: p.value
    {
      && paramCount <= |params| && currentParam <= |params|
      && (forall i, j :: 0 <= i < j < |params| ==> params[i] != params[j])
      && (forall i :: 0 <= i < |params| ==> params[i].Valid())
    }

    function Dae(): (r: seq<bool>)
      ensures |r| == |params| && forall i :: 0 <= i < |params| ==> r[i] == params[i].dae
    {
      seq(|params|, i requires 0 <= i < |params| => params[i].dae)
    }

    /** The values the first n parameters have now. */
    ghost function ValuesUpTo(n: nat): (r: seq<Sent>)
      requires Valid() && n <= paramCount
      reads this`currentParam, params, set p <- params | p.value != null :: p.value
      ensures |r| == n
      ensures forall i :: 0 <= i < n ==>
        r[i] == if params[i].dae then PutTogether(params[i].Contents()) else Bound
    {
      if n == 0 then []
      else ValuesUpTo(n - 1) + [if params[n - 1].dae then PutTogether(params[n - 1].Contents()) else Bound]
    }

    ghost function Values(): (r: seq<Sent>)
      requires Valid()
      reads this`currentParam, params, set p <- params | p.value != null :: p.value
    {
      ValuesUpTo(paramCount)
    }

    constructor (params: seq<Param>, paramCount: nat)
      requires paramCount <= |params| && forall i, j :: 0 <= i < j < |params| ==> params[i] != params[j]
      requires forall i :: 0 <= i < |params| ==> params[i].Valid()
      ensures Valid() && this.params == params && this.paramCount == paramCount
      ensures daeType == DaeNone && runs == []
    {
      this.params, this.paramCount := params, paramCount;
      currentParam, daeType, runs := 0, DaeNone, [];
    }

    /** desc_find_dae_rec and the way my_SQLExecute takes when it finds one. */
    method BeginExecute() returns (rc: SqlReturn)
      requires Valid()
      modifies this`currentParam, this`daeType
      ensures Valid()
      ensures (exists i :: 0 <= i < |params| && params[i].dae) <==> rc == SqlNeedData
      ensures rc == SqlNeedData ==> daeType == DaeNormal && forall i :: 0 <= i < currentParam ==> !params[i].dae
      ensures rc != SqlNeedData ==> rc == SqlSuccess && currentParam == old(currentParam) && daeType == old(daeType)
    {
      var i := 0;
      while i < |params|
        invariant 0 <= i <= |params| && forall j :: 0 <= j < i ==> !params[j].dae
      {
        if params[i].dae {
          currentParam, daeType := i, DaeNormal;
          return SqlNeedData;
        }
        i := i + 1;
      }
      return SqlSuccess;
    }

    /** find_next_dae_param: the first parameter with data at execution from the current one on. */
    method FindNextDaeParam() returns (rc: SqlReturn, ghost from: nat)
      requires Valid()
      modifies this`currentParam, params
      ensures Valid() && from == old(currentParam)
      ensures daeType == DaeNone ==> rc == SqlError
      ensures rc != SqlNeedData ==>
        currentParam == old(currentParam) && forall i :: 0 <= i < |params| ==> unchanged(params[i])
      ensures daeType == DaeNormal ==>
        (rc == SqlSuccess && forall k :: from <= k < paramCount ==> !params[k].dae)
        || (rc == SqlNeedData && from < currentParam <= paramCount && params[currentParam - 1].dae
            && params[currentParam - 1].Contents() == None && params[currentParam - 1].isDae
            && (forall k :: from <= k < currentParam - 1 ==> !params[k].dae)
            && (forall i :: 0 <= i < |params| && i != currentParam - 1 ==> unchanged(params[i])))
    {
      from := currentParam;
      if daeType == DaeNone {
        return SqlError, from;
      }
      var i := currentParam;
      while i < paramCount
        invariant from <= i && (i <= paramCount || i == from) && currentParam == from
        invariant forall k :: from <= k < i ==> !params[k].dae
      {
        if params[i].dae {
          currentParam := i + 1;
          params[i].Ask();
          return SqlNeedData, from;
        }
        i := i + 1;
      }
      return SqlSuccess, from;
    }

    /** SQLParamData; `inserted` and `ran` are what insert_params and do_query return if called. */
    method ParamData(inserted: SqlReturn, ran: SqlReturn) returns (rc: SqlReturn, ghost from: nat)
      requires Valid() && ran != SqlNeedData && inserted != SqlNeedData
      modifies this`currentParam, this`daeType, this`runs, params
      ensures Valid() && from == old(currentParam)
      ensures old(daeType) == DaeNone ==> rc == SqlError && daeType == DaeNone && runs == old(runs)
      ensures rc != SqlNeedData ==>
        currentParam == old(currentParam) && forall i :: 0 <= i < |params| ==> unchanged(params[i])
      ensures rc == SqlNeedData ==>
        && daeType == DaeNormal && runs == old(runs) && from < currentParam <= paramCount
        && params[currentParam - 1].dae && params[currentParam - 1].Contents() == None
        && (forall k :: from <= k < currentParam - 1 ==> !params[k].dae)
        && (forall i :: 0 <= i < |params| && i != currentParam - 1 ==> unchanged(params[i]))
      ensures old(daeType) == DaeNormal && rc != SqlNeedData ==>
        && daeType == DaeNone && (forall k :: from <= k < paramCount ==> !params[k].dae)
        && (if Succeeded(inserted) then rc == ran && runs == old(runs) + [Values()]
            else rc == inserted && runs == old(runs))
    {
      rc, from := FindNextDaeParam();
      if rc != SqlSuccess {
        return;
      }
      // execute_dae
      rc := inserted;
      if Succeeded(rc) {
        var sent := Snapshot();
        runs := runs + [sent];
        rc := ran;
      }
      daeType := DaeNone;
    }

    method Snapshot() returns (sent: seq<Sent>)
      requires Valid()
      ensures sent == Values()
    {
      sent := [];
      for i := 0 to paramCount
        invariant sent == ValuesUpTo(i)
      {
        var p := params[i];
        sent := sent + [if p.dae then PutTogether(p.Contents()) else Bound];
      }
    }

    /** SQLPutData; the driver manager lets it through only after SQLParamData returned SQL_NEED_DATA. */
    method PutData(p: Put)
      requires Valid() && daeType == DaeNormal && currentParam > 0 && GoodPut(p)
      modifies params
      ensures Valid()
      ensures params[currentParam - 1].Contents() == AfterPut(old(params[currentParam - 1].Contents()), p)
      ensures forall i :: 0 <= i < |params| && i != currentParam - 1 ==> unchanged(params[i])
    {
      params[currentParam - 1].Put(p);
    }

    /** The application's calls of SQLPutData for one parameter. */
    method PutAll(puts: seq<Put>)
      requires Valid() && daeType == DaeNormal && currentParam > 0 && GoodPuts(puts)
      requires params[currentParam - 1].Contents() == None
      modifies params
      ensures Valid() && params[currentParam - 1].Contents() == Heard(puts)
      ensures forall i :: 0 <= i < |params| && i != currentParam - 1 ==> unchanged(params[i])
    {
      for k := 0 to |puts|
        invariant Valid() && daeType == DaeNormal
        invariant params[currentParam - 1].Contents() == Heard(puts[..k])
        invariant forall i :: 0 <= i < |params| && i != currentParam - 1 ==> unchanged(params[i])
      {
        assert puts[..k + 1][..k] == puts[..k];
        PutData(puts[k]);
      }
      assert puts[..|puts|] == puts;
    }

    /** Asks for the next parameter and passes on what the application puts for it. */
    method AskAndPut(answers: seq<seq<Put>>, inserted: SqlReturn, ran: SqlReturn)
      returns (rc: SqlReturn, ghost from: nat)
      requires Valid() && daeType == DaeNormal && |answers| == |params|
      requires forall i :: 0 <= i < |answers| ==> GoodPuts(answers[i])
      requires ran != SqlNeedData && inserted != SqlNeedData
      modifies this`currentParam, this`daeType, this`runs, params
      ensures Valid() && from == old(currentParam)
      ensures rc == SqlNeedData ==>
        && daeType == DaeNormal && runs == old(runs) && from < currentParam <= paramCount
        && params[currentParam - 1].dae && params[currentParam - 1].Contents() == Heard(answers[currentParam - 1])
        && (forall k :: from <= k < currentParam - 1 ==> !params[k].dae)
        && (forall i :: 0 <= i < |params| && i != currentParam - 1 ==> unchanged(params[i]))
      ensures rc != SqlNeedData ==>
        && daeType == DaeNone && (forall k :: from <= k < paramCount ==> !params[k].dae)
        && (forall i :: 0 <= i < |params| ==> unchanged(params[i]))
        && (if Succeeded(inserted) then rc == ran && runs == old(runs) + [Values()]
            else rc == inserted && runs == old(runs))
    {
      hide Heard, GoodPuts, Param.Valid, Param.Contents;
      rc, from := ParamData(inserted, ran);
      if rc == SqlNeedData {
        PutAll(answers[currentParam - 1]);
      }
    }
  }

  /** One execution with data arriving while it is under way. Whatever the application puts for
      parameter i when asked for it (`answers[i]`), every parameter with data at execution is asked for
      once, in increasing order, and after the last one, not before, the statement runs with each value
      put together from its pieces. */
  method ExecuteWithData(s: DaeStatement, answers: seq<seq<Put>>, inserted: SqlReturn, ran: SqlReturn)
    returns (asked: seq<nat>, rc: SqlReturn)
    requires s.Valid() && |answers| == |s.params| && forall i :: 0 <= i < |answers| ==> GoodPuts(answers[i])
    requires exists i :: 0 <= i < |s.params| && s.params[i].dae
    requires ran != SqlNeedData && inserted != SqlNeedData
    modifies s, s.params
    ensures s.Valid() && s.daeType == DaeNone
    ensures asked == DaeParams(s.Dae()[..s.paramCount])
    ensures !Succeeded(inserted) ==> rc == inserted && s.runs == old(s.runs)
    ensures Succeeded(inserted) ==> rc == ran && |s.runs| == |old(s.runs)| + 1 && old(s.runs) < s.runs
    ensures Succeeded(inserted) ==>
      var last := s.runs[|s.runs| - 1];
      |last| == s.paramCount && forall i :: 0 <= i < |last| ==>
        last[i] == if s.params[i].dae then PutTogether(Heard(answers[i])) else Bound
  {
    hide Heard, GoodPuts, DaeParams, Param.Valid, Param.Contents;
    rc := s.BeginExecute();
    asked := [];
    ghost var dae := s.Dae();
    ghost var done: nat := Min(s.currentParam, s.paramCount);
    DaeParamsSkip(dae, 0, done);
    ghost var from;
    while rc == SqlNeedData
      invariant s.Valid() && s.daeType == DaeNormal && rc == SqlNeedData && s.runs == old(s.runs)
      invariant done == Min(s.currentParam, s.paramCount)
      invariant asked == DaeParams(dae[..done])
      invariant forall i :: 0 <= i < done && dae[i] ==> s.params[i].Contents() == Heard(answers[i])
      decreases s.paramCount - done
    {
      rc, from := s.AskAndPut(answers, inserted, ran);
      if rc != SqlNeedData {
        DaeParamsSkip(dae, done, s.paramCount);
        break;
      }
      var i := s.currentParam - 1;
      DaeParamsSkip(dae, done, i);
      DaeParamsTake(dae, i);
      asked := asked + [i];
      done := s.currentParam;
    }
  }
}
