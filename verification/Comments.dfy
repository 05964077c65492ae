/** Where the driver's reading of comments parts from one that takes their delimiters whole.

    The scanner steps over one byte at a time, so the star of an opening delimiter can be the star of a
    closing one, and the slash of a closing delimiter the slash of an opening one. Here the two bytes
    of a delimiter belong to it alone. */
module Comments {
  import opened Basics
  import opened SqlText
  import opened Braces

  /** Where a byte stands: as in the driver's reading, or in a delimiter: the star of an opening one, or
      the two bytes of a closing one. */
  datatype Standing = Plain(m: Mode) | OpenerStar | CloserStar | CloserSlash

  function InBlockWhole(t: string, i: nat): Standing {
    if BlockCloses(t, i) then CloserStar else Plain(BlockComment)
  }

  function NextWhole(t: string, i: nat, w: Standing): Standing
    requires i < |t|
  {
    match w
    case OpenerStar => InBlockWhole(t, i + 1)
    case CloserStar => CloserSlash
    case CloserSlash => Plain(Code)
    case Plain(m) =>
      if m == BlockComment then InBlockWhole(t, i + 1)
      else if m == Code && !IsQuote(t[i]) && !LineOpens(t, i) && BlockOpens(t, i) then OpenerStar
      else Plain(Next(t, i, m))
  }

  function WholeAt(t: string, i: nat): Standing
    requires i <= |t|
  {
    if i == 0 then Plain(Code) else NextWhole(t, i - 1, WholeAt(t, i - 1))
  }

  predicate IsWholeMarker(t: string, i: nat) {
    i < |t| && WholeAt(t, i) == Plain(Code) && t[i] == '?'
  }

  /** Both readings say the same of a byte, delimiters being inside a comment but for the closing one. */
  predicate Agree(m: Mode, w: Standing) {
    m == match w
         case Plain(n) => n
         case OpenerStar => BlockComment
         case CloserStar => Code
         case CloserSlash => Code
  }

  /** No delimiter lends a byte to the next: an opening one is not followed by a slash, nor a closing one by a
      star that would open a comment and not close it at once. */
  predicate Apart(t: string, i: nat)
    requires i < |t|
  {
    && (WholeAt(t, i) == OpenerStar ==> !BlockCloses(t, i))
    && (WholeAt(t, i) == CloserSlash && BlockOpens(t, i) ==> BlockCloses(t, i + 1))
  }

  /** What the bytes at the delimiters are. */
  lemma {:induction false} Delimiters(t: string, i: nat)
    requires i <= |t|
    ensures WholeAt(t, i) == OpenerStar ==> i > 0 && i < |t| && t[i] == '*' && BlockOpens(t, i - 1)
    ensures WholeAt(t, i) == CloserStar ==> i > 0 && BlockCloses(t, i)
    ensures WholeAt(t, i) == CloserSlash ==> i > 1 && BlockCloses(t, i - 1) && i < |t| && t[i] == '/'
  {
    if i > 0 {
      Delimiters(t, i - 1);
    }
  }

  /** One byte further, the readings still agree if and only if the delimiters stand apart there. */
  lemma AgreeStep(t: string, i: nat)
    requires i < |t| && Agree(ModeAt(t, i), WholeAt(t, i))
    requires WholeAt(t, i) == OpenerStar ==> !BlockCloses(t, i)
    ensures WholeAt(t, i + 1) != OpenerStar ==>
      (Agree(ModeAt(t, i + 1), WholeAt(t, i + 1)) <==> Apart(t, i))
    ensures WholeAt(t, i + 1) == OpenerStar ==>
      (Agree(ModeAt(t, i + 1), WholeAt(t, i + 1)) <==> !BlockCloses(t, i + 1))
  {
    Delimiters(t, i);
    Delimiters(t, i + 1);
  }

  ghost predicate AllApart(t: string) {
    forall i :: 0 <= i < |t| ==> Apart(t, i)
  }

  ghost predicate AllAgree(t: string) {
    forall i :: 0 <= i <= |t| ==> Agree(ModeAt(t, i), WholeAt(t, i))
  }

  lemma {:induction false} ApartAgrees(t: string, i: nat)
    requires i <= |t| && AllApart(t)
    ensures Agree(ModeAt(t, i), WholeAt(t, i))
  {
    hide ModeAt, WholeAt, Agree;
    AgreeBegins(t);
    if i > 0 {
      ApartAgrees(t, i - 1);
      assert Apart(t, i - 1) && (i < |t| ==> Apart(t, i));
      Delimiters(t, i);
      AgreeStep(t, i - 1);
    }
  }

  lemma AgreeBegins(t: string)
    ensures Agree(ModeAt(t, 0), WholeAt(t, 0))
  {
  }

  lemma AgreeingApart(t: string, i: nat)
    requires i < |t| && AllAgree(t)
    ensures Apart(t, i)
  {
    Delimiters(t, i);
    if WholeAt(t, i) == OpenerStar {
      AgreeStep(t, i - 1);
    }
    AgreeStep(t, i);
  }

  /** The driver reads every byte as one who takes delimiters whole if and only if they stand apart. */
  lemma ReadAlike(t: string)
    ensures AllAgree(t) <==> AllApart(t)
  {
    hide ModeAt, WholeAt, Agree, Apart;
    if AllApart(t) {
      forall i | 0 <= i <= |t| ensures Agree(ModeAt(t, i), WholeAt(t, i)) {
        ApartAgrees(t, i);
      }
    }
    if AllAgree(t) {
      forall i | 0 <= i < |t| ensures Apart(t, i) {
        AgreeingApart(t, i);
      }
    }
  }

  lemma SameMarkerWhole(t: string, i: nat)
    requires i < |t| && AllApart(t)
    ensures IsMarker(t, i) <==> IsWholeMarker(t, i)
  {
    hide ModeAt, WholeAt;
    ApartAgrees(t, i);
    Delimiters(t, i);
  }

  /** And then the driver's markers are those of the other reading. */
  lemma MarkersWhole(t: string)
    requires AllApart(t)
    ensures forall i: nat :: i in AllMarkers(t) <==> IsWholeMarker(t, i)
  {
    hide ModeAt, WholeAt, Markers;
    MarkersExact(t, |t|);
    forall i: nat | i < |t| ensures IsMarker(t, i) <==> IsWholeMarker(t, i) {
      SameMarkerWhole(t, i);
    }
  }

  /** Delimiters stand apart in any text that has neither an opening one with a slash behind it nor a closing
      one with a star behind it. */
  lemma ApartByText(t: string, i: nat)
    requires i < |t| && forall j: nat :: !At(t, j, "/*/") && !At(t, j, "*/*")
    ensures Apart(t, i)
  {
    hide WholeAt;
    Delimiters(t, i);
    if i > 0 {
      assert !At(t, i - 1, "/*/") && !At(t, i - 1, "*/*");
    }
  }

  // ---- where the readings part ----

  /** An opening delimiter that closes itself: the driver finds a marker inside the comment. */
  lemma MarkerInComment()
    ensures var t := "/*/ ? */"; IsMarker(t, 4) && !IsWholeMarker(t, 4)
  {
    var t := "/*/ ? */";
    assert ModeAt(t, 1) == Code && WholeAt(t, 1) == OpenerStar;
    assert ModeAt(t, 2) == Code && WholeAt(t, 2) == Plain(BlockComment);
    assert ModeAt(t, 3) == Code && WholeAt(t, 3) == Plain(BlockComment);
    assert ModeAt(t, 4) == Code && WholeAt(t, 4) == Plain(BlockComment);
  }

  /** A closing delimiter whose slash opens a comment again: the driver misses the marker behind. */
  lemma MarkerMissed()
    ensures var t := "2/**/*?"; !IsMarker(t, 6) && IsWholeMarker(t, 6)
  {
    var t := "2/**/*?";
    assert ModeAt(t, 1) == Code && WholeAt(t, 1) == Plain(Code);
    assert ModeAt(t, 2) == BlockComment && WholeAt(t, 2) == OpenerStar;
    assert ModeAt(t, 3) == Code && WholeAt(t, 3) == CloserStar;
    assert ModeAt(t, 4) == Code && WholeAt(t, 4) == CloserSlash;
    assert ModeAt(t, 5) == BlockComment && WholeAt(t, 5) == Plain(Code);
    assert ModeAt(t, 6) == BlockComment && WholeAt(t, 6) == Plain(Code);
  }

  /** Two dashes open a comment for the driver only with a space behind them. */
  lemma DashesAndTab()
    ensures IsMarker("--\t?", 3)
  {
    var t := "--\t?";
    assert ModeAt(t, 1) == ModeAt(t, 2) == ModeAt(t, 3) == Code;
  }

  /** A comment behind the closing brace is the last meaningful byte, and the braces stay. */
  lemma CommentKeepsBraces()
    ensures !Braced("{a} #")
  {
    hide ModeAt, Tokens;
    var t := "{a} #";
    assert |t| == 5 && t[4] == '#';
    PlainIsCode(t, 4);
    Grows(t, 4);
    Begins(t);
    assert LastChar(t, 5) == Some(4);
  }
}
