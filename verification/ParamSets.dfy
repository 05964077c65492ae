/** What executing a statement with an array of parameter sets comes to: which query texts are sent,
    how each set ends, and what is reported for it. */
module ParamSets {
  import opened Basics
  import opened Odbc
  import opened SqlText
  import opened Substitution

  /** What insert_param makes of one parameter: a literal, with or without a warning, or an error. */
  datatype Bound = Put(text: string, info: bool) | Unbound

  /** One set of parameters. */
  datatype ParamSet = ParamSet(ignored: bool, params: seq<Bound>)

  /** The server's answer to a query. */
  datatype Answer = Answer(ok: bool, lost: bool)

  /** The statement, its parameter sets, and how the server would answer the query of each. */
  datatype Job = Job(query: string, isSelect: bool, n: nat, sets: seq<ParamSet>, answers: seq<Answer>)

  predicate ValidJob(j: Job) {
    && j.n > 0 && |j.sets| == j.n && |j.answers| == j.n
    && forall r :: 0 <= r < j.n ==> |j.sets[r].params| == ParamCount(j)
  }

  function ParamCount(j: Job): nat {
    |AllMarkers(j.query)|
  }

  predicate AllPut(params: seq<Bound>) {
    forall i :: 0 <= i < |params| ==> params[i].Put?
  }

  predicate AnyInfo(params: seq<Bound>) {
    exists i :: 0 <= i < |params| && params[i].Put? && params[i].info
  }

  function LiteralText(b: Bound): string {
    if b.Put? then b.text else []
  }

  function Texts(params: seq<Bound>): (lits: seq<string>)
    ensures |lits| == |params|
    ensures forall i :: 0 <= i < |params| ==> lits[i] == LiteralText(params[i])
  {
    if params == [] then [] else Texts(params[..|params| - 1]) + [LiteralText(params[|params| - 1])]
  }

  /** How much room the texts of the first k parameters take. */
  function TextsLength(params: seq<Bound>, k: nat): nat
    requires k <= |params| && forall i :: 0 <= i < k ==> params[i].Put?
  {
    if k == 0 then 0 else TextsLength(params, k - 1) + |params[k - 1].text|
  }

  /** Byte i of the query stands behind k markers, and is none itself. */
  ghost predicate Between(query: string, markers: seq<nat>, k: nat, i: nat) {
    && k <= |markers| && (k > 0 ==> markers[k - 1] < i)
    && i < if k < |markers| then markers[k] else |query|
  }

  /** `out` is the query with each parameter's own text where its marker was: behind the query bytes and the
      texts that come before it. */
  ghost predicate Filled(query: string, markers: seq<nat>, params: seq<Bound>, out: string)
    requires |markers| == |params| && forall i :: 0 <= i < |params| ==> params[i].Put?
  {
    && |out| == |query| - |params| + TextsLength(params, |params|)
    && (forall k :: 0 <= k < |params| ==> k <= markers[k])
    && (forall k :: 0 <= k < |params| ==>
          var o := markers[k] - k + TextsLength(params, k);
          o + |params[k].text| <= |out| && out[o..o + |params[k].text|] == params[k].text)
    && (forall k: nat, i: nat :: Between(query, markers, k, i) ==>
          var o := i - k + TextsLength(params, k);
          i < |query| && 0 <= o < |out| && out[o] == query[i])
  }

  lemma {:induction false} TextsMeasured(params: seq<Bound>, k: nat)
    requires k <= |params| && forall i :: 0 <= i < |params| ==> params[i].Put?
    ensures SumLengths(Texts(params)[..k]) == TextsLength(params, k)
  {
    if k > 0 {
      TextsMeasured(params, k - 1);
      assert Texts(params)[..k][..k - 1] == Texts(params)[..k - 1];
    }
  }

  /** Where byte i of the query goes, or the text in its stead. */
  lemma BytePlaced(query: string, params: seq<Bound>, k: nat, i: nat)
    requires |params| == |AllMarkers(query)| && forall l :: 0 <= l < |params| ==> params[l].Put?
    requires k <= |params| && i < |query| && |Markers(query, i)| == k
    ensures var out, o := Substituted(query, |query|, Texts(params)), i - k + TextsLength(params, k);
      && 0 <= o <= |out|
      && (IsMarker(query, i) && k < |params| ==>
            o + |params[k].text| <= |out| && out[o..o + |params[k].text|] == params[k].text)
      && (!IsMarker(query, i) ==> o < |out| && out[o] == query[i])
  {
    hide Substituted, IsMarker, SumLengths, Texts, TextsLength;
    var lits := Texts(params);
    SubstitutedLength(query, i, lits);
    TextsMeasured(params, k);
    ReplacementPlaced(query, i, |query|, lits);
    if !IsMarker(query, i) {
      var out, o := Substituted(query, |query|, lits), |Substituted(query, i, lits)|;
      assert out[o] == out[o..o + 1][0];
    }
  }

  lemma TextPlaced(query: string, params: seq<Bound>, k: nat)
    requires |params| == |AllMarkers(query)| && forall l :: 0 <= l < |params| ==> params[l].Put?
    requires k < |params|
    ensures var out, o := Substituted(query, |query|, Texts(params)), AllMarkers(query)[k] - k + TextsLength(params, k);
      && k <= AllMarkers(query)[k]
      && o + |params[k].text| <= |out| && out[o..o + |params[k].text|] == params[k].text
  {
    hide Substituted, ModeAt, SumLengths, AllMarkers, Texts, TextsLength;
    SegmentsBetweenMarkers(query, k);
    MarkersBelow(query, SegmentEnd(query, k));
    BytePlaced(query, params, k, SegmentEnd(query, k));
  }

  lemma ByteKept(query: string, params: seq<Bound>, k: nat, i: nat)
    requires |params| == |AllMarkers(query)| && forall l :: 0 <= l < |params| ==> params[l].Put?
    requires Between(query, AllMarkers(query), k, i)
    ensures var out, o := Substituted(query, |query|, Texts(params)), i - k + TextsLength(params, k);
      i < |query| && 0 <= o < |out| && out[o] == query[i]
  {
    hide Substituted, IsMarker, SumLengths, AllMarkers, Texts, TextsLength;
    SegmentsBetweenMarkers(query, k);
    SegmentCounted(query, k, i);
    BytePlaced(query, params, k, i);
  }

  /** Substitution puts every parameter's own text in its marker's stead, and keeps all other bytes. */
  lemma SubstitutedFilled(query: string, params: seq<Bound>)
    requires |params| == |AllMarkers(query)| && forall i :: 0 <= i < |params| ==> params[i].Put?
    ensures Filled(query, AllMarkers(query), params, Substituted(query, |query|, Texts(params)))
  {
    hide Substituted, AllMarkers, SumLengths, Texts, TextsLength;
    WholeMeasured(query, params);
    forall k | 0 <= k < |params|
      ensures k <= AllMarkers(query)[k]
      ensures var o := AllMarkers(query)[k] - k + TextsLength(params, k);
        var out := Substituted(query, |query|, Texts(params));
        o + |params[k].text| <= |out| && out[o..o + |params[k].text|] == params[k].text
    {
      TextPlaced(query, params, k);
    }
    forall k: nat, i: nat | Between(query, AllMarkers(query), k, i)
      ensures var out, o := Substituted(query, |query|, Texts(params)), i - k + TextsLength(params, k);
        i < |query| && 0 <= o < |out| && out[o] == query[i]
    {
      ByteKept(query, params, k, i);
    }
  }

  lemma WholeMeasured(query: string, params: seq<Bound>)
    requires |params| == |AllMarkers(query)| && forall i :: 0 <= i < |params| ==> params[i].Put?
    ensures |Substituted(query, |query|, Texts(params))| == |query| - |params| + TextsLength(params, |params|)
  {
    hide Substituted, SumLengths, Markers, Texts, TextsLength;
    SubstitutedLength(query, |query|, Texts(params));
    TextsMeasured(params, |params|);
  }

  lemma {:induction false} MarkersBelow(t: string, i: nat)
    requires i <= |t|
    ensures |Markers(t, i)| <= i
  {
    hide IsMarker;
    if i > 0 {
      MarkersBelow(t, i - 1);
    }
  }

  lemma SegmentCounted(t: string, k: nat, i: nat)
    requires k <= |AllMarkers(t)| && SegmentStart(t, k) <= i <= SegmentEnd(t, k)
    ensures i <= |t| && |Markers(t, i)| == k
  {
    hide IsMarker, Markers;
    SegmentsBetweenMarkers(t, k);
    SegmentCopied(t, i, SegmentEnd(t, k), []);
  }

  /** The query with one set's literals in it. */
  function TextOf(j: Job, r: nat): string
    requires ValidJob(j) && r < j.n
  {
    if ParamCount(j) == 0 then j.query else Substituted(j.query, |j.query|, Texts(j.sets[r].params))
  }

  // ---- how the sets end ----

  /** Ignored (or a SELECT's turn with nothing to bind and nothing to send); not bindable; bound and
      waiting for the one query of a SELECT; answered by the server; or never sent, because the
      connection is gone. */
  datatype End = Ignored | BindFailed | Kept | Ran(ok: bool) | NotSent

  predicate IsLast(j: Job, r: nat) {
    r + 1 == j.n
  }

  function EndOf(j: Job, r: nat): End
    requires ValidJob(j) && r < j.n
    decreases r, 1
  {
    if ParamCount(j) > 0 && j.sets[r].ignored then Ignored
    else if ParamCount(j) > 0 && !AllPut(j.sets[r].params) then BindFailed
    else if j.isSelect && !IsLast(j, r) then (if ParamCount(j) > 0 then Kept else Ignored)
    else if LostBefore(j, r) then NotSent
    else Ran(j.answers[r].ok)
  }

  /** The connection was lost by the query of an earlier set. */
  predicate LostBefore(j: Job, r: nat)
    requires ValidJob(j) && r <= j.n
    decreases r, 0
  {
    r > 0 && (LostBefore(j, r - 1) || (EndOf(j, r - 1) == Ran(false) && j.answers[r - 1].lost))
  }

  predicate Failed(e: End) {
    e == BindFailed || e == NotSent || e == Ran(false)
  }

  predicate Plain(j: Job, r: nat)
    requires ValidJob(j) && r < j.n
  {
    EndOf(j, r) == Ignored || (!Failed(EndOf(j, r)) && !(ParamCount(j) > 0 && AnyInfo(j.sets[r].params)))
  }

  // ---- what is reported ----

  datatype Status = StatusSuccess | StatusSuccessWithInfo | StatusError | StatusDiagUnavailable | StatusUnused

  /** The status of a set before the last error is singled out. */
  function StatusOf(j: Job, r: nat): Status
    requires ValidJob(j) && r < j.n
  {
    match EndOf(j, r)
    case Ignored => StatusUnused
    case BindFailed => StatusDiagUnavailable
    case NotSent => StatusDiagUnavailable
    case Kept => if AnyInfo(j.sets[r].params) then StatusSuccessWithInfo else StatusSuccess
    case Ran(ok) => if ok then StatusSuccess else StatusDiagUnavailable
  }

  /** Set r is the last of the first m to fail. */
  predicate LastFailure(j: Job, m: nat, r: nat)
    requires ValidJob(j) && m <= j.n
  {
    r < m && Failed(EndOf(j, r)) && forall k: nat :: r < k < m ==> !Failed(EndOf(j, k))
  }

  function FinalStatus(j: Job, r: nat): Status
    requires ValidJob(j) && r < j.n
  {
    if LastFailure(j, j.n, r) then StatusError else StatusOf(j, r)
  }

  predicate AnySucceeded(j: Job, m: nat)
    requires ValidJob(j) && m <= j.n
  {
    exists r :: 0 <= r < m && EndOf(j, r) == Ran(true)
  }

  predicate AllPlain(j: Job, m: nat)
    requires ValidJob(j) && m <= j.n
  {
    forall r :: 0 <= r < m ==> Plain(j, r)
  }

  predicate AnyTaken(j: Job, m: nat)
    requires ValidJob(j) && m <= j.n
  {
    exists r :: 0 <= r < m && EndOf(j, r) != Ignored
  }

  /** `e` is the last failure among the first m sets. */
  predicate LastErrorIs(j: Job, m: nat, e: Option<nat>)
    requires ValidJob(j) && m <= j.n
  {
    match e
    case Some(r) => LastFailure(j, m, r)
    case None => forall r: nat :: r < m ==> !Failed(EndOf(j, r))
  }

  /** One set more. */
  lemma OneMore(j: Job, m: nat)
    requires ValidJob(j) && m < j.n
    ensures AnySucceeded(j, m + 1) == (AnySucceeded(j, m) || EndOf(j, m) == Ran(true))
    ensures AnyTaken(j, m + 1) == (AnyTaken(j, m) || EndOf(j, m) != Ignored)
    ensures AllPlain(j, m + 1) == (AllPlain(j, m) && Plain(j, m))
    ensures LostBefore(j, m + 1) == (LostBefore(j, m) || (EndOf(j, m) == Ran(false) && j.answers[m].lost))
    ensures forall e :: LastErrorIs(j, m, e) ==>
      LastErrorIs(j, m + 1, if Failed(EndOf(j, m)) then Some(m) else e)
  {
    hide EndOf, Plain;
    if AnySucceeded(j, m) {
      var r :| 0 <= r < m && EndOf(j, r) == Ran(true);
      assert AnySucceeded(j, m + 1);
    }
    if AnyTaken(j, m) {
      var r :| 0 <= r < m && EndOf(j, r) != Ignored;
      assert AnyTaken(j, m + 1);
    }
  }

  /** What the loop over the sets keeps track of. */
  datatype Ledger = Ledger(rc: SqlReturn, lastError: Option<nat>, anyNotPlain: bool, allFailed: bool,
                           connectionFailure: bool)

  /** The ledger is right once the first m sets are done. */
  ghost predicate LedgerAt(j: Job, m: nat, hasStatus: bool, l: Ledger)
    requires ValidJob(j) && m <= j.n
  {
    && l.anyNotPlain == !AllPlain(j, m)
    && l.allFailed == (j.n > 1 && !AnySucceeded(j, m))
    && l.connectionFailure == LostBefore(j, m)
    && (if hasStatus then LastErrorIs(j, m, l.lastError) else l.lastError == None)
    && (AllPlain(j, m) && AnyTaken(j, m) ==> l.rc == SqlSuccess)
  }

  /** What set r does to the ledger. */
  function NextLedger(j: Job, r: nat, hasStatus: bool, l: Ledger): Ledger
    requires ValidJob(j) && r < j.n
  {
    var e := EndOf(j, r);
    Ledger(ReturnAfter(j, r, l.rc),
           if hasStatus && Failed(e) then Some(r) else l.lastError,
           l.anyNotPlain || !Plain(j, r),
           l.allFailed && e != Ran(true),
           l.connectionFailure || (e == Ran(false) && j.answers[r].lost))
  }

  /** The ledger once set r has been bound, or found ignored. */
  function BoundLedger(j: Job, r: nat, hasStatus: bool, l: Ledger): Ledger
    requires ValidJob(j) && r < j.n
  {
    if j.sets[r].ignored then l
    else l.(rc := BindReturn(j, r),
            lastError := if hasStatus && !AllPut(j.sets[r].params) then Some(r) else l.lastError,
            anyNotPlain := l.anyNotPlain || BindReturn(j, r) != SqlSuccess)
  }

  /** The ledger once its query has been sent, or withheld. */
  function SentLedger(j: Job, r: nat, hasStatus: bool, l: Ledger): Ledger
    requires ValidJob(j) && r < j.n
  {
    var ok := !l.connectionFailure && j.answers[r].ok;
    Ledger(if ok then SqlSuccess else SqlError,
           if hasStatus && !ok then Some(r) else l.lastError,
           l.anyNotPlain || !ok,
           l.allFailed && !ok,
           l.connectionFailure || (j.answers[r].lost && !ok))
  }

  /** Set r reaches the point where a query is sent. */
  predicate TakesTurn(j: Job, r: nat)
    requires ValidJob(j) && r < j.n
  {
    (ParamCount(j) > 0 ==> Bindable(j, r)) && (!j.isSelect || IsLast(j, r))
  }

  /** A turn of the loop in its two parts. */
  lemma LedgerInParts(j: Job, r: nat, hasStatus: bool, l: Ledger)
    requires ValidJob(j) && r < j.n && LedgerAt(j, r, hasStatus, l)
    ensures var b := if ParamCount(j) > 0 then BoundLedger(j, r, hasStatus, l) else l;
      && NextLedger(j, r, hasStatus, l) == (if TakesTurn(j, r) then SentLedger(j, r, hasStatus, b) else b)
      && b.connectionFailure == LostBefore(j, r)
      && (if TakesTurn(j, r) then EndOf(j, r) == (if b.connectionFailure then NotSent else Ran(j.answers[r].ok))
          else !EndOf(j, r).Ran?)
    ensures StatusOf(j, r) ==
      if TakesTurn(j, r) then MappedStatus(NextLedger(j, r, hasStatus, l).rc)
      else if j.sets[r].ignored || ParamCount(j) == 0 then StatusUnused
      else MappedStatus(BindReturn(j, r))
  {
    hide LostBefore, AllPut, AnyInfo, AllMarkers, AllPlain, AnySucceeded, AnyTaken, LastErrorIs;
  }

  function MappedStatus(rc: SqlReturn): Status {
    match rc
    case SqlSuccess => StatusSuccess
    case SqlSuccessWithInfo => StatusSuccessWithInfo
    case _ => StatusDiagUnavailable
  }

  lemma LedgerBegins(j: Job, hasStatus: bool, rc: SqlReturn)
    requires ValidJob(j)
    ensures LedgerAt(j, 0, hasStatus, Ledger(rc, None, false, j.n > 1, false))
  {
  }

  lemma LedgerGoesOn(j: Job, r: nat, hasStatus: bool, l: Ledger)
    requires ValidJob(j) && r < j.n && LedgerAt(j, r, hasStatus, l)
    ensures LedgerAt(j, r + 1, hasStatus, NextLedger(j, r, hasStatus, l))
  {
    hide AllPut, AnyInfo, AllMarkers, LostBefore, AnySucceeded, AnyTaken, AllPlain, LastErrorIs;
    OneMore(j, r);
  }

  /** What insert_params returns for a set. */
  function BindReturn(j: Job, r: nat): SqlReturn
    requires ValidJob(j) && r < j.n
  {
    var params := j.sets[r].params;
    if !AllPut(params) then SqlError else if AnyInfo(params) then SqlSuccessWithInfo else SqlSuccess
  }

  /** The loop's return code after set r. */
  function ReturnAfter(j: Job, r: nat, before: SqlReturn): SqlReturn
    requires ValidJob(j) && r < j.n
  {
    match EndOf(j, r)
    case Ignored => before
    case BindFailed => SqlError
    case NotSent => SqlError
    case Kept => BindReturn(j, r)
    case Ran(ok) => if ok then SqlSuccess else SqlError
  }

  /** The return code for more than one set. */
  function ArrayReturn(j: Job): SqlReturn
    requires ValidJob(j)
  {
    if !AnySucceeded(j, j.n) then SqlError else if !AllPlain(j, j.n) then SqlSuccessWithInfo else SqlSuccess
  }

  // ---- what is sent ----

  /** A SELECT with an array of sets becomes one query. */
  predicate Batched(j: Job) {
    j.isSelect && j.n > 1 && ParamCount(j) > 0
  }

  const BINDER: string := " UNION ALL "

  predicate Bindable(j: Job, r: nat)
    requires ValidJob(j) && r < j.n
  {
    !j.sets[r].ignored && AllPut(j.sets[r].params)
  }

  /** The texts of the sets below m that are neither ignored nor failing to bind, in order. */
  function BoundTexts(j: Job, m: nat): seq<string>
    requires ValidJob(j) && m <= j.n
  {
    if m == 0 then []
    else BoundTexts(j, m - 1) + (if Bindable(j, m - 1) then [TextOf(j, m - 1)] else [])
  }

  /** The queries sent for the first m sets. */
  function Sent(j: Job, m: nat): seq<string>
    requires ValidJob(j) && m <= j.n
  {
    if m == 0 then [] else Sent(j, m - 1) + SentFor(j, m - 1)
  }

  function SentFor(j: Job, r: nat): seq<string>
    requires ValidJob(j) && r < j.n
  {
    if !EndOf(j, r).Ran? then []
    else if Batched(j) then [Join(BoundTexts(j, r + 1), BINDER)]
    else [TextOf(j, r)]
  }

  /** What the buffer holds of a batched SELECT before the last set. */
  function Pending(j: Job, m: nat): string
    requires ValidJob(j) && m <= j.n
  {
    if m == 0 then []
    else Pending(j, m - 1) + (if Bindable(j, m - 1) then TextOf(j, m - 1) + BINDER else [])
  }

  lemma {:induction false} PendingJoins(j: Job, m: nat, last: string)
    requires ValidJob(j) && m <= j.n
    ensures Join(BoundTexts(j, m) + [last], " UNION ALL ") == Pending(j, m) + last
  {
    hide TextOf, Bindable;
    var parts := BoundTexts(j, m) + [last];
    assert parts[..|parts| - 1] == BoundTexts(j, m);
    if m > 0 {
      if Bindable(j, m - 1) {
        PendingJoins(j, m - 1, TextOf(j, m - 1));
      } else {
        assert BoundTexts(j, m) == BoundTexts(j, m - 1);
        PendingJoins(j, m - 1, last);
      }
    }
  }

  // ---- consequences ----

  /** A SELECT with several sets: if the last set is neither ignored nor failing, exactly one query is
      sent, the UNION ALL of the good sets in order; otherwise none is. */
  lemma UnionSentOnce(j: Job)
    requires ValidJob(j) && Batched(j)
    ensures var last := j.sets[j.n - 1];
      Sent(j, j.n) == if !last.ignored && forall i :: 0 <= i < |last.params| ==> last.params[i].Put?
        then [Join(BoundTexts(j, j.n), " UNION ALL ")] else []
  {
    NothingSentEarly(j, j.n - 1);
    NotLostEarly(j, j.n - 1);
  }

  /** The good sets are those that are not ignored and have every parameter bound; the text of each is the query
      with the parameters' own texts in the markers' stead. */
  lemma BoundTextsAre(j: Job, r: nat)
    requires ValidJob(j) && r < j.n
    ensures var s := j.sets[r];
      if !s.ignored && forall i :: 0 <= i < |s.params| ==> s.params[i].Put?
      then BoundTexts(j, r + 1) == BoundTexts(j, r) + [TextOf(j, r)]
           && Filled(j.query, AllMarkers(j.query), s.params, TextOf(j, r))
      else BoundTexts(j, r + 1) == BoundTexts(j, r)
    ensures BoundTexts(j, 0) == []
  {
    hide Filled, Substituted, Markers, BoundTexts;
    BoundTextsGrow(j, r);
    if Bindable(j, r) {
      SubstitutedFilled(j.query, j.sets[r].params);
      if ParamCount(j) == 0 {
        NoMarkersCopied(j.query, Texts(j.sets[r].params));
      }
    }
  }

  lemma BoundTextsGrow(j: Job, r: nat)
    requires ValidJob(j) && r < j.n
    ensures BoundTexts(j, 0) == []
    ensures BoundTexts(j, r + 1) == BoundTexts(j, r) + (if Bindable(j, r) then [TextOf(j, r)] else [])
  {
    hide TextOf, Bindable;
  }

  lemma NoMarkersCopied(t: string, lits: seq<string>)
    requires AllMarkers(t) == []
    ensures Substituted(t, |t|, lits) == t
  {
    hide IsMarker;
    MarkersExact(t, |t|);
    SegmentCopied(t, 0, |t|, lits);
  }

  /** Two sets of a SELECT: what is sent, written out. */
  lemma TwoSetsSent(j: Job)
    requires ValidJob(j) && j.isSelect && j.n == 2 && AllMarkers(j.query) != []
    requires !j.sets[1].ignored && forall i :: 0 <= i < |j.sets[1].params| ==> j.sets[1].params[i].Put?
    ensures Sent(j, 2) ==
      if !j.sets[0].ignored && forall i :: 0 <= i < |j.sets[0].params| ==> j.sets[0].params[i].Put?
      then [TextOf(j, 0) + " UNION ALL " + TextOf(j, 1)]
      else [TextOf(j, 1)]
  {
    hide Filled, TextOf, BoundTexts, Sent, Join;
    UnionSentOnce(j);
    BoundTextsAre(j, 0);
    BoundTextsAre(j, 1);
    JoinSpelled(TextOf(j, 0), TextOf(j, 1), [], " UNION ALL ");
    assert BoundTexts(j, 2) == if Bindable(j, 0) then [TextOf(j, 0), TextOf(j, 1)] else [TextOf(j, 1)];
  }

  /** Without a SELECT each good set's query is sent by itself, until the connection is lost. */
  lemma EachSetSent(j: Job, r: nat)
    requires ValidJob(j) && !j.isSelect && ParamCount(j) > 0 && r < j.n
    ensures var s := j.sets[r];
      Sent(j, r + 1) == Sent(j, r) +
        if !s.ignored && !LostBefore(j, r) && forall i :: 0 <= i < |s.params| ==> s.params[i].Put?
        then [TextOf(j, r)] else []
    ensures Sent(j, 0) == []
  {
    hide TextOf, LostBefore, AllMarkers;
  }

  /** A set went well: it was ignored, or its query succeeded or waits, and no parameter raised a warning. */
  predicate WentWell(s: ParamSet, e: End) {
    || e == Ignored
    || ((e == Ran(true) || e == Kept) && forall i :: 0 <= i < |s.params| ==> s.params[i].Put? ==> !s.params[i].info)
  }

  lemma PlainIfWell(j: Job, r: nat)
    requires ValidJob(j) && r < j.n
    ensures Plain(j, r) <==> WentWell(j.sets[r], EndOf(j, r))
  {
    hide EndOf, AllMarkers;
  }

  /** The return code for more than one set: an error if no query succeeded, and success only if besides every set
      went well. */
  lemma ArrayReturnSpelled(j: Job)
    requires ValidJob(j) && j.n > 1
    ensures ArrayReturn(j) != SqlError <==> exists r: nat :: r < j.n && EndOf(j, r) == Ran(true)
    ensures ArrayReturn(j) == SqlSuccess <==>
      && (exists r: nat :: r < j.n && EndOf(j, r) == Ran(true))
      && forall r: nat :: r < j.n ==> WentWell(j.sets[r], EndOf(j, r))
    ensures ArrayReturn(j) == SqlError || ArrayReturn(j) == SqlSuccess || ArrayReturn(j) == SqlSuccessWithInfo
  {
    hide AnySucceeded, AllPlain;
    SomeSucceeded(j);
    AllWentWell(j);
  }

  lemma SomeSucceeded(j: Job)
    requires ValidJob(j)
    ensures AnySucceeded(j, j.n) ==> exists r: nat :: r < j.n && EndOf(j, r) == Ran(true)
    ensures (exists r: nat :: r < j.n && EndOf(j, r) == Ran(true)) ==> AnySucceeded(j, j.n)
  {
  }

  lemma AllWentWell(j: Job)
    requires ValidJob(j)
    ensures AllPlain(j, j.n) <==> forall r: nat :: r < j.n ==> WentWell(j.sets[r], EndOf(j, r))
  {
    hide AllMarkers, LostBefore, AllPut, AnyInfo, Plain, WentWell;
    forall r: nat | r < j.n ensures Plain(j, r) <==> WentWell(j.sets[r], EndOf(j, r)) {
      PlainIfWell(j, r);
    }
  }

  lemma {:induction false} NothingSentEarly(j: Job, m: nat)
    requires ValidJob(j) && Batched(j) && m < j.n
    ensures Sent(j, m) == []
  {
    if m > 0 {
      NothingSentEarly(j, m - 1);
    }
  }

  lemma {:induction false} NotLostEarly(j: Job, m: nat)
    requires ValidJob(j) && Batched(j) && m < j.n
    ensures !LostBefore(j, m)
  {
    if m > 0 {
      NotLostEarly(j, m - 1);
    }
  }

  /** Once the connection is lost no later set succeeds, and nothing more is sent. */
  lemma {:induction false} LostStaysLost(j: Job, r: nat, m: nat)
    requires ValidJob(j) && r < m <= j.n && EndOf(j, r) == Ran(false) && j.answers[r].lost
    ensures LostBefore(j, m) && Sent(j, m) == Sent(j, r + 1)
    ensures forall k :: r < k < m ==> EndOf(j, k) == Ignored || EndOf(j, k) == Kept || Failed(EndOf(j, k))
    decreases m - r
  {
    hide AllPut, TextOf, BoundTexts, Join, AllMarkers;
    if r + 1 < m {
      LostStaysLost(j, r, m - 1);
    }
  }

  /** Without a SELECT, ignored sets are unused, exactly the last failing set is the error, the other
      failing ones have no diagnostics, and the rest succeeded. */
  lemma StatusesAccounted(j: Job, r: nat)
    requires ValidJob(j) && !j.isSelect && ParamCount(j) > 0 && r < j.n
    ensures FinalStatus(j, r) == StatusUnused <==> j.sets[r].ignored
    ensures FinalStatus(j, r) == StatusSuccess <==> EndOf(j, r) == Ran(true)
    ensures FinalStatus(j, r) == StatusError <==> LastFailure(j, j.n, r)
    ensures forall k: nat :: k < j.n && FinalStatus(j, k) == FinalStatus(j, r) == StatusError ==> k == r
    ensures FinalStatus(j, r) == StatusDiagUnavailable <==>
      Failed(EndOf(j, r)) && exists k: nat :: r < k < j.n && Failed(EndOf(j, k))
  {
    if Failed(EndOf(j, r)) && !LastFailure(j, j.n, r) {
      var k: nat :| r < k < j.n && Failed(EndOf(j, k));
      assert FinalStatus(j, r) == StatusDiagUnavailable;
      assert exists l: nat :: r < l < j.n && Failed(EndOf(j, l));
    }
  }

  /** The status of every set, of a SELECT or not, from what was given for it and what came of it. */
  lemma StatusesSpelled(j: Job, r: nat)
    requires ValidJob(j) && ParamCount(j) > 0 && r < j.n
    ensures var s, status := j.sets[r], FinalStatus(j, r);
      if s.ignored then status == StatusUnused
      else if exists i :: 0 <= i < |s.params| && s.params[i].Unbound? then
        status == if LastFailure(j, j.n, r) then StatusError else StatusDiagUnavailable
      else if j.isSelect && r + 1 < j.n then
        status == if exists i :: 0 <= i < |s.params| && s.params[i].info then StatusSuccessWithInfo else StatusSuccess
      else if j.answers[r].ok && !LostBefore(j, r) then status == StatusSuccess
      else status == if LastFailure(j, j.n, r) then StatusError else StatusDiagUnavailable
  {
    hide AllMarkers, LostBefore;
    var s := j.sets[r];
    assert AllPut(s.params) <==> !exists i :: 0 <= i < |s.params| && s.params[i].Unbound?;
  }

  /** Without a SELECT the connection is lost iff an earlier good set's query was answered so. */
  lemma {:induction false} LostByAnswer(j: Job, r: nat)
    requires ValidJob(j) && !j.isSelect && ParamCount(j) > 0 && r <= j.n
    ensures LostBefore(j, r) <==>
      exists k :: 0 <= k < r && Bindable(j, k) && !j.answers[k].ok && j.answers[k].lost
  {
    hide AllPut, AllMarkers;
    if r > 0 {
      LostByAnswer(j, r - 1);
    }
  }

  /** If any set fails, one of them is the last. */
  lemma {:induction false} LastFailureExists(j: Job, m: nat, r: nat) returns (k: nat)
    requires ValidJob(j) && r < m <= j.n && Failed(EndOf(j, r))
    ensures LastFailure(j, m, k)
    decreases m
  {
    if Failed(EndOf(j, m - 1)) {
      k := m - 1;
    } else {
      k := LastFailureExists(j, m - 1, r);
    }
  }
}
