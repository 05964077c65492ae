/** Output parameters read as streams: which parameter comes next, and reading its value in pieces
    (driver/desc.c, driver/execute.c, driver/my_prepared_stmt.c). */
module OutStreams {
  import opened Basics
  import opened Odbc
  import opened Rowsets

  const UINT_SIZE: nat := 0x1_0000_0000

  datatype ParamType = Input | Output | InputOutput | OutputStream | InputOutputStream {

    predicate Streamed() {
      OutputStream? || InputOutputStream?
    }

    predicate ReturnsValue() {
      !Input?
    }
  }

  // ---- which parameters, and which columns of the result ----

  /** The streamed parameters, in order. */
  function Streams(types: seq<ParamType>): (r: seq<nat>)
    ensures forall k :: 0 <= k < |r| ==> r[k] < |types|
  {
    if types == [] then []
    else
      var n := |types| - 1;
      Streams(types[..n]) + if types[n].Streamed() then [n] else []
  }

  /** How many parameters return a value. */
  function OutCount(types: seq<ParamType>): (n: nat)
    ensures n <= |types|
  {
    if types == [] then 0
    else OutCount(types[..|types| - 1]) + if types[|types| - 1].ReturnsValue() then 1 else 0
  }

  lemma {:induction false} StreamsExact(types: seq<ParamType>)
    ensures var r := Streams(types);
      && (forall j, k :: 0 <= j < k < |r| ==> r[j] < r[k])
      && (forall i :: i in r <==>
            0 <= i < |types| && (types[i] == OutputStream || types[i] == InputOutputStream))
  {
    if types != [] {
      StreamsExact(types[..|types| - 1]);
    }
  }

  /** Every parameter that is not for input alone returns a value. */
  lemma OneMore(types: seq<ParamType>, i: nat)
    requires i < |types|
    ensures Streams(types[..i + 1]) == Streams(types[..i]) + if types[i].Streamed() then [i] else []
    ensures OutCount(types[..i + 1]) == OutCount(types[..i]) + if types[i] == Input then 0 else 1
    ensures OutCount(types[..0]) == 0
  {
    assert types[..i + 1][..i] == types[..i];
  }

  /** Adding one to an unsigned int. */
  function Increment(x: nat): (r: nat)
    ensures r < UINT_SIZE && (x + 1 < UINT_SIZE ==> r == x + 1)
  {
    (x + 1) % UINT_SIZE
  }

  class OutParams {
    const types: seq<ParamType>     // the IPD
    var currentParam: nat           // unsigned int
    var column: nat                 // unsigned int
    var srcOffset: nat

    /** The parameter the search goes on with, and the column of the next value: both are kept one less,
        and all ones stand for minus one. */
    function From(): nat
      reads this
    {
      Increment(currentParam)
    }

    ghost predicate Valid()
      reads this
    {
      && |types| < 0x8000_0000 && currentParam < UINT_SIZE && column < UINT_SIZE
      && From() <= |types| && Increment(column) == OutCount(types[..From()])
    }

    /** As ssps_get_out_params leaves the statement when there are streams. */
    constructor (types: seq<ParamType>)
      requires |types| < 0x8000_0000
      ensures Valid() && this.types == types && From() == 0
    {
      this.types, currentParam, column, srcOffset := types, UINT_SIZE - 1, UINT_SIZE - 1, 0;
    }

    /** desc_find_outstream_rec and find_next_out_stream: the next streamed parameter, if there is one. */
    method FindNextOutStream() returns (rc: SqlReturn)
      requires Valid()
      modifies this
      ensures Valid()
      ensures rc == SqlParamDataAvailable ==>
        && old(From()) <= currentParam < |types| && types[currentParam].Streamed()
        && Streams(types[..From()]) == Streams(types[..old(From())]) + [currentParam]
        && column == OutCount(types[..currentParam]) && srcOffset == 0
      ensures rc != SqlParamDataAvailable ==>
        rc == SqlSuccess && unchanged(this) && Streams(types) == Streams(types[..From()])
    {
      hide Increment, Streams, OutCount;
      var start := Increment(currentParam);
      var i, col := start, column;
      while i < |types|
        invariant start <= i <= |types| && 0 <= col < UINT_SIZE
        invariant Increment(col) == OutCount(types[..i])
        invariant Streams(types[..i]) == Streams(types[..start])
        invariant unchanged(this)
      {
        OneMore(types, i);
        if types[i].Streamed() {
          currentParam := i;
          column := Increment(col);
          srcOffset := 0;
          return SqlParamDataAvailable;
        } else if types[i].InputOutput? || types[i].Output? {
          col := Increment(col);
        }
        i := i + 1;
      }
      assert types[..|types|] == types;
      return SqlSuccess;
    }
  }

  /** Asking until there is no more: every streamed parameter comes once, in order, and its column in
      the result is the number of parameters before it that return a value. */
  method VisitStreams(types: seq<ParamType>) returns (visited: seq<nat>, columns: seq<nat>)
    requires |types| < 0x8000_0000
    ensures visited == Streams(types) && |columns| == |visited|
    ensures forall k :: 0 <= k < |visited| ==> columns[k] == OutCount(types[..visited[k]])
  {
    var params := new OutParams(types);
    visited, columns := [], [];
    while true
      invariant params.Valid() && fresh(params) && params.types == types && |columns| == |visited|
      invariant visited == Streams(types[..params.From()])
      invariant forall k :: 0 <= k < |visited| ==> columns[k] == OutCount(types[..visited[k]])
      decreases |types| - params.From()
    {
      var rc := params.FindNextOutStream();
      if rc != SqlParamDataAvailable {
        return;
      }
      visited, columns := visited + [params.currentParam], columns + [params.column];
    }
  }

  // ---- reading a value in pieces ----

  /** How mysql_stmt_fetch_column fails: CR_INVALID_PARAMETER_NO, CR_NO_DATA, anything else. */
  datatype Failure = NoSuchColumn | NoMoreData | Internal

  class Chunks {
    const value: string         // the column's value as the server sent it
    var srcOffset: nat

    predicate Valid()
      reads this
    {
      srcOffset <= |value|
    }

    constructor (value: string)
      ensures Valid() && this.value == value && srcOffset == 0
    {
      this.value, srcOffset := value, 0;
    }

    /** mysql_stmt_fetch_column as documented: copies what fits from the offset on, and reports the
        value's length and whether some of it was left. */
    method FetchColumn(dest: array<char>, destBytes: nat) returns (length: nat, truncated: bool)
      requires Valid() && destBytes <= dest.Length
      modifies dest
      ensures length == |value| && (truncated <==> |value| - srcOffset > destBytes)
      ensures var n := Min(destBytes, |value| - srcOffset);
        dest[..n] == value[srcOffset..srcOffset + n]
    {
      var n := Min(destBytes, |value| - srcOffset);
      forall k | 0 <= k < n {
        dest[k] := value[srcOffset + k];
      }
      if n < destBytes {
        dest[n] := '\0';
      }
      length, truncated := |value|, |value| - srcOffset > destBytes;
    }

    /** ssps_fetch_chunk; `failure` is how the fetch of the column fails, if it does, and `before` what
        stands in the caller's length. An internal failure leaves an error record behind, and is reported
        as SQL_SUCCESS without a byte. */
    method FetchChunk(dest: array<char>, destBytes: nat, failure: Option<Failure>, before: nat)
      returns (rc: SqlReturn, avail: nat)
      requires Valid() && destBytes <= dest.Length
      modifies this, dest
      ensures Valid()
      ensures failure != None ==>
        && srcOffset == old(srcOffset) && dest[..] == old(dest[..]) && avail == before
        && rc == match failure.value
                 case NoSuchColumn => SqlError
                 case NoMoreData => SqlNoData
                 case Internal => SqlSuccess
      ensures failure == None ==>
        && srcOffset == Min(old(srcOffset) + destBytes, |value|)
        && dest[..srcOffset - old(srcOffset)] == value[old(srcOffset)..srcOffset]
        && rc == (if old(srcOffset) + destBytes < |value| then SqlSuccessWithInfo
                  else if old(srcOffset) < |value| then SqlSuccess else SqlNoData)
        && avail == if rc == SqlNoData then |value| else |value| - old(srcOffset)
    {
      avail := before;
      if failure != None {
        match failure.value {
          case NoSuchColumn => return SqlError, avail;
          case NoMoreData => return SqlNoData, avail;
          case Internal =>
        }
      } else {
        var length, truncated := FetchColumn(dest, destBytes);
        avail := length - srcOffset;
        srcOffset := srcOffset + Min(destBytes, avail);
        if truncated {
          return SqlSuccessWithInfo, avail;
        }
        if avail == 0 {
          avail := length;
          return SqlNoData, avail;
        }
      }
      return SqlSuccess, avail;
    }
  }

  /** Reads of any sizes put the value together again, each reporting how much was left; beyond the end
      there is no data. */
  method ReadInPieces(value: string, sizes: seq<nat>)
    returns (pieces: seq<string>, rcs: seq<SqlReturn>, avails: seq<nat>)
    ensures |pieces| == |rcs| == |avails| == |sizes| && Flatten(pieces) == value[..Min(Sum(sizes), |value|)]
    ensures forall k :: 0 <= k < |sizes| ==>
      var from, to := Sum(sizes[..k]), Sum(sizes[..k]) + sizes[k];
      && pieces[k] == RowsetAt(value, from, sizes[k])
      && rcs[k] == (if to < |value| then SqlSuccessWithInfo else if from < |value| then SqlSuccess else SqlNoData)
      && avails[k] == if from < |value| then |value| - from else |value|
  {
    hide Sum, Flatten;
    var chunks := new Chunks(value);
    pieces, rcs, avails := [], [], [];
    SumOfNone();
    assert sizes[..0] == [];
    for k := 0 to |sizes|
      invariant fresh(chunks) && chunks.Valid() && chunks.value == value
      invariant chunks.srcOffset == Min(Sum(sizes[..k]), |value|)
      invariant |pieces| == |rcs| == |avails| == k
      invariant forall j :: 0 <= j < k ==>
        var from, to := Sum(sizes[..j]), Sum(sizes[..j]) + sizes[j];
        && pieces[j] == RowsetAt(value, from, sizes[j])
        && rcs[j] == (if to < |value| then SqlSuccessWithInfo else if from < |value| then SqlSuccess else SqlNoData)
        && avails[j] == if from < |value| then |value| - from else |value|
    {
      SumGrows(sizes, k);
      var dest := new char[sizes[k]](_ => '\0');
      var from := chunks.srcOffset;
      var rc, avail := chunks.FetchChunk(dest, sizes[k], None, 0);
      pieces, rcs, avails := pieces + [dest[..chunks.srcOffset - from]], rcs + [rc], avails + [avail];
    }
    RowsInOrder(value, sizes, pieces);
    assert sizes[..|sizes|] == sizes;
  }
}
