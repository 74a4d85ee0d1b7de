/** The automaton that looks for the end of an http header (HttpBuf::have_end):
    CR LF CR LF or LF LF.  On a mismatch it falls back to its start state WITHOUT
    looking at the mismatched character again. */
module HeaderEnd {
  import opened CStrings

  datatype State = S0CR1 | S0LF1 | S0CR2 | S0LF2 | S1LF2

  datatype Step = Go(state: State) | Found(elen: nat)

  function Feed(state: State, ch: char): Step {
    match state
    case S0CR1 => if ch == '\r' then Go(S0LF1) else if ch == '\n' then Go(S1LF2) else Go(S0CR1)
    case S0LF1 => if ch == '\n' then Go(S0CR2) else Go(S0CR1)
    case S0CR2 => if ch == '\r' then Go(S0LF2) else Go(S0CR1)
    case S0LF2 => if ch == '\n' then Found(4) else Go(S0CR1)
    case S1LF2 => if ch == '\n' then Found(2) else Go(S0CR1)
  }

  /** The outcome of one pass over a text: no terminator yet, or a terminator of length
      elen that ends just before position end. */
  datatype Outcome = Miss(state: State) | Hit(end: nat, elen: nat)

  function ScanFrom(state: State, s: string, i: nat): (r: Outcome)
    requires i <= |s|
    ensures r.Hit? ==> i < r.end <= |s|
    decreases |s| - i
  {
    if i == |s| then Miss(state)
    else
      match Feed(state, s[i])
      case Found(elen) => Hit(i + 1, elen)
      case Go(next) => ScanFrom(next, s, i + 1)
  }

  function Scan(s: string): Outcome { ScanFrom(S0CR1, s, 0) }

  // ---- the scan can be interrupted anywhere ---------------------------------

  /** Scanning a text is scanning a prefix and resuming in the state it left. */
  lemma {:induction false} ScanResumes(state: State, s: string, t: string, i: nat)
    requires i <= |s|
    ensures match ScanFrom(state, s, i)
            case Hit(end, elen) => ScanFrom(state, s + t, i) == Hit(end, elen)
            case Miss(next) => ScanFrom(state, s + t, i) == ScanFrom(next, s + t, |s|)
    decreases |s| - i
  {
    if i < |s| {
      assert (s + t)[i] == s[i];
      match Feed(state, s[i])
      case Found(_) =>
      case Go(next) => ScanResumes(next, s, t, i + 1);
    } else if t == [] {
      assert s + t == s;
    }
  }

  /** A reported terminator is the first: no shorter prefix reports one. */
  lemma HitIsFirst(s: string, cut: nat)
    requires cut <= |s| && Scan(s).Hit?
    ensures Scan(s[..cut]).Hit? <==> Scan(s).end <= cut
  {
    assert s == s[..cut] + s[cut..];
    ScanResumes(S0CR1, s[..cut], s[cut..], 0);
  }

  // ---- what is reported is a terminator ----------------------------------------

  predicate CrLfAt(s: string, p: int) {
    0 <= p && p + 4 <= |s| && s[p] == '\r' && s[p + 1] == '\n' && s[p + 2] == '\r' && s[p + 3] == '\n'
  }

  predicate LfLfAt(s: string, p: int) {
    0 <= p && p + 2 <= |s| && s[p] == '\n' && s[p + 1] == '\n'
  }

  /** The k characters from q are one piece: a character other than CR and LF, or the
      beginning of a terminator together with the character that breaks it off. */
  predicate Piece(s: string, q: int, k: nat) {
    && 0 <= q && q + k <= |s|
    && (if k == 1 then !IsEol(s[q])
        else if k == 2 then IsEol(s[q]) && s[q + 1] != '\n'
        else if k == 3 then s[q] == '\r' && s[q + 1] == '\n' && s[q + 2] != '\r'
        else k == 4 && s[q] == '\r' && s[q + 1] == '\n' && s[q + 2] == '\r' && s[q + 3] != '\n')
  }

  /** The first p characters are whole pieces. */
  predicate Clear(s: string, p: nat) {
    || p == 0
    || (Piece(s, p - 1, 1) && Clear(s, p - 1))
    || (Piece(s, p - 2, 2) && Clear(s, p - 2))
    || (Piece(s, p - 3, 3) && Clear(s, p - 3))
    || (Piece(s, p - 4, 4) && Clear(s, p - 4))
  }

  /** What a state says about the characters just before position i, and that the
      automaton was at rest, at a clear position, when the first of them arrived. */
  ghost predicate Behind(state: State, s: string, i: nat) {
    i <= |s| &&
    match state
    case S0CR1 => Clear(s, i)
    case S0LF1 => i >= 1 && s[i - 1] == '\r' && ClearRest(s, i - 1)
    case S0CR2 => i >= 2 && s[i - 2] == '\r' && s[i - 1] == '\n' && ClearRest(s, i - 2)
    case S0LF2 => i >= 3 && s[i - 3] == '\r' && s[i - 2] == '\n' && s[i - 1] == '\r' && ClearRest(s, i - 3)
    case S1LF2 => i >= 1 && s[i - 1] == '\n' && ClearRest(s, i - 1)
  }

  /** The automaton is in its start state after the first p characters. */
  ghost predicate RestAt(s: string, p: nat) {
    p <= |s| && Scan(s[..p]) == Miss(S0CR1)
  }

  ghost predicate ClearRest(s: string, p: nat) {
    RestAt(s, p) && Clear(s, p)
  }

  /** The automaton has read the first i characters and is in this state. */
  ghost predicate Reached(state: State, s: string, i: nat) {
    Behind(state, s, i) && Scan(s[..i]) == Miss(state)
  }

  lemma ReachNext(state: State, s: string, i: nat)
    requires Reached(state, s, i) && i < |s| && Feed(state, s[i]).Go?
    ensures Reached(Feed(state, s[i]).state, s, i + 1)
  {
    assert s[..i + 1] == s[..i] + [s[i]];
    ScanResumes(S0CR1, s[..i], [s[i]], 0);
  }

  lemma {:induction false} HitFollowsRest(state: State, s: string, i: nat)
    requires Reached(state, s, i)
    ensures ScanFrom(state, s, i).Hit? ==>
              var Hit(end, elen) := ScanFrom(state, s, i);
              && ((elen == 4 && CrLfAt(s, end - 4)) || (elen == 2 && LfLfAt(s, end - 2)))
              && ClearRest(s, end - elen)
    decreases |s| - i
  {
    if i < |s| && Feed(state, s[i]).Go? {
      ReachNext(state, s, i);
      HitFollowsRest(Feed(state, s[i]).state, s, i + 1);
    }
  }

  /** Every reported position and length delimit CR LF CR LF or LF LF in the text. */
  lemma HitDelimitsTerminator(s: string)
    requires Scan(s).Hit?
    ensures var Hit(end, elen) := Scan(s);
            && ((elen == 4 && CrLfAt(s, end - 4)) || (elen == 2 && LfLfAt(s, end - 2)))
            && ClearRest(s, end - elen)
  {
    HitFollowsRest(S0CR1, s, 0);
  }

  // ---- which terminators are reported --------------------------------------------

  /** A terminator that starts where the automaton is at rest is reported at once. */
  lemma FoundFromRest(s: string, p: nat)
    requires RestAt(s, p)
    ensures CrLfAt(s, p) ==> Scan(s) == Hit(p + 4, 4)
    ensures LfLfAt(s, p) ==> Scan(s) == Hit(p + 2, 2)
  {
    assert s == s[..p] + s[p..];
    ScanResumes(S0CR1, s[..p], s[p..], 0);
    if CrLfAt(s, p) {
      assert ScanFrom(S0CR1, s, p) == ScanFrom(S0LF1, s, p + 1) == ScanFrom(S0CR2, s, p + 2)
          == ScanFrom(S0LF2, s, p + 3);
    } else if LfLfAt(s, p) {
      assert ScanFrom(S0CR1, s, p) == ScanFrom(S1LF2, s, p + 1);
    }
  }

  /** At a clear position the automaton is at rest, unless it has reported an end before. */
  lemma {:induction false} ClearIsRest(s: string, p: nat)
    requires p <= |s| && Clear(s, p) && Scan(s[..p]).Miss?
    ensures RestAt(s, p)
    decreases p
  {
    if p > 0 {
      var k := if Piece(s, p - 1, 1) && Clear(s, p - 1) then 1
               else if Piece(s, p - 2, 2) && Clear(s, p - 2) then 2
               else if Piece(s, p - 3, 3) && Clear(s, p - 3) then 3 else 4;
      var q, t := p - k, s[..p];
      assert t[..q] == s[..q] && t == s[..q] + s[q..p];
      ScanResumes(S0CR1, s[..q], s[q..p], 0);
      ClearIsRest(s, q);
      PieceScan(t, q, k);
    }
  }

  lemma PieceScan(s: string, q: nat, k: nat)
    requires q + k == |s| && Piece(s, q, k)
    ensures ScanFrom(S0CR1, s, q) == Miss(S0CR1)
  {
    if k == 1 {
      assert ScanFrom(S0CR1, s, q) == ScanFrom(S0CR1, s, q + 1);
    } else if k == 2 {
      assert ScanFrom(S0CR1, s, q) == ScanFrom(if s[q] == '\r' then S0LF1 else S1LF2, s, q + 1);
      assert ScanFrom(S0LF1, s, q + 1) == ScanFrom(S1LF2, s, q + 1) == ScanFrom(S0CR1, s, q + 2);
    } else {
      assert ScanFrom(S0CR1, s, q) == ScanFrom(S0LF1, s, q + 1) == ScanFrom(S0CR2, s, q + 2);
      if k == 4 {
        assert ScanFrom(S0CR2, s, q + 2) == ScanFrom(S0LF2, s, q + 3) == ScanFrom(S0CR1, s, q + 4);
      } else {
        assert ScanFrom(S0CR2, s, q + 2) == ScanFrom(S0CR1, s, q + 3);
      }
    }
  }

  /** A terminator of length elen starts at the clear position p. */
  ghost predicate ClearEnd(s: string, p: nat, elen: nat) {
    Clear(s, p) && ((elen == 4 && CrLfAt(s, p)) || (elen == 2 && LfLfAt(s, p)))
  }

  lemma ClearEndIsFound(s: string, p: nat, elen: nat)
    requires ClearEnd(s, p, elen)
    ensures Scan(s).Hit? && (Scan(s) == Hit(p + elen, elen) || Scan(s).end <= p)
  {
    assert s == s[..p] + s[p..];
    ScanResumes(S0CR1, s[..p], s[p..], 0);
    if Scan(s[..p]).Miss? {
      ClearIsRest(s, p);
      FoundFromRest(s, p);
    }
  }

  /** Exactly when an arbitrary text has its end reported, and which: the terminator at
      the first clear position that has one.  Not every terminator is at a clear position,
      see MixedEndingsAreMissed. */
  lemma FoundExactlyWhenClear(s: string)
    ensures Scan(s).Hit? <==> exists p, elen :: ClearEnd(s, p, elen)
    ensures Scan(s).Hit? ==>
              var p, elen := Scan(s).end - Scan(s).elen, Scan(s).elen;
              0 <= p && ClearEnd(s, p, elen) && forall q, n :: ClearEnd(s, q, n) ==> p <= q
  {
    if Scan(s).Hit? {
      HitDelimitsTerminator(s);
      assert ClearEnd(s, Scan(s).end - Scan(s).elen, Scan(s).elen);
    }
    forall p, elen | ClearEnd(s, p, elen)
      ensures Scan(s).Hit? && Scan(s).end - Scan(s).elen <= p
    {
      ClearEndIsFound(s, p, elen);
    }
  }

  /** Texts that contain a terminator the automaton does not report. */
  lemma MixedEndingsAreMissed()
    ensures LfLfAt("\r\n\n", 1) && Scan("\r\n\n").Miss?
    ensures CrLfAt("\r\r\n\r\n", 1) && Scan("\r\r\n\r\n").Miss?
    ensures CrLfAt("\n\r\n\r\n", 1) && Scan("\n\r\n\r\n").Miss?
  {
    var s := "\r\n\n";
    assert Scan(s) == ScanFrom(S0LF1, s, 1) == ScanFrom(S0CR2, s, 2) == ScanFrom(S0CR1, s, 3);
    s := "\r\r\n\r\n";
    assert Scan(s) == ScanFrom(S0LF1, s, 1) == ScanFrom(S0CR1, s, 2) == ScanFrom(S1LF2, s, 3)
        == ScanFrom(S0CR1, s, 4) == ScanFrom(S1LF2, s, 5);
    s := "\n\r\n\r\n";
    assert Scan(s) == ScanFrom(S1LF2, s, 1) == ScanFrom(S0CR1, s, 2) == ScanFrom(S1LF2, s, 3)
        == ScanFrom(S0CR1, s, 4) == ScanFrom(S1LF2, s, 5);
  }

  /** CR and LF occur only as the pair CR LF (a CR may still be waiting for its LF at the
      very end). */
  ghost predicate Paired(s: string) {
    && (forall i :: 0 <= i < |s| - 1 && s[i] == '\r' ==> s[i + 1] == '\n')
    && (forall i :: 0 <= i < |s| && s[i] == '\n' ==> i > 0 && s[i - 1] == '\r')
  }

  ghost predicate CrFree(s: string) {
    forall i :: 0 <= i < |s| ==> s[i] != '\r'
  }

  ghost predicate FirstCrLf(s: string, p: int) {
    CrLfAt(s, p) && forall q :: 0 <= q < p ==> !CrLfAt(s, q)
  }

  ghost predicate FirstLfLf(s: string, p: int) {
    LfLfAt(s, p) && forall q :: 0 <= q < p ==> !LfLfAt(s, q)
  }

  lemma {:induction false} PairedScan(state: State, s: string, i: nat, p: nat)
    requires FirstCrLf(s, p) && Paired(s[..p + 4]) && i <= p
    requires Reached(state, s, i) && state != S1LF2
    requires i > 0 && s[i - 1] == '\r' ==> state == S0LF1 || state == S0LF2
    ensures ScanFrom(state, s, i) == Hit(p + 4, 4)
    decreases p - i
  {
    var t := s[..p + 4];
    assert t[i] == s[i] && (i > 0 ==> t[i - 1] == s[i - 1]);
    if i == p {
      assert state == S0CR2 ==> CrLfAt(s, p - 2);
      assert state == S0CR1;
      assert ScanFrom(S0CR1, s, p) == ScanFrom(S0LF1, s, p + 1) == ScanFrom(S0CR2, s, p + 2)
          == ScanFrom(S0LF2, s, p + 3);
    } else {
      assert !CrLfAt(s, i - 3);
      ReachNext(state, s, i);
      PairedScan(Feed(state, s[i]).state, s, i + 1, p);
    }
  }

  lemma {:induction false} LfScan(state: State, s: string, i: nat, p: nat)
    requires FirstLfLf(s, p) && CrFree(s[..p + 2]) && i <= p
    requires Reached(state, s, i) && (state == S0CR1 || state == S1LF2)
    ensures ScanFrom(state, s, i) == Hit(p + 2, 2)
    decreases p - i
  {
    assert s[..p + 2][i] == s[i];
    if i == p {
      assert state == S1LF2 ==> LfLfAt(s, p - 1);
      assert ScanFrom(S0CR1, s, p) == ScanFrom(S1LF2, s, p + 1);
    } else {
      assert state == S1LF2 && s[i] == '\n' ==> LfLfAt(s, i - 1);
      ReachNext(state, s, i);
      LfScan(Feed(state, s[i]).state, s, i + 1, p);
    }
  }

  /** On text whose lines all end in CR LF, the first CR LF CR LF is reported, whatever
      follows it. */
  lemma PairedEndIsFound(s: string, p: nat)
    requires FirstCrLf(s, p) && Paired(s[..p + 4])
    ensures Scan(s) == Hit(p + 4, 4)
  {
    PairedScan(S0CR1, s, 0, p);
  }

  lemma LfEndIsFound(s: string, p: nat)
    requires FirstLfLf(s, p) && CrFree(s[..p + 2])
    ensures Scan(s) == Hit(p + 2, 2)
  {
    LfScan(S0CR1, s, 0, p);
  }

  /** With one line-ending convention throughout, the scan is exact in both directions. */
  lemma UniformEndingsAreExact(s: string)
    ensures Paired(s) ==> (Scan(s).Hit? <==> exists p :: CrLfAt(s, p))
    ensures CrFree(s) ==> (Scan(s).Hit? <==> exists p :: LfLfAt(s, p))
  {
    if Scan(s).Hit? {
      HitDelimitsTerminator(s);
    }
    if Paired(s) && exists p :: CrLfAt(s, p) {
      var p :| CrLfAt(s, p);
      var q := FirstCrLfUpTo(s, p);
      PairedEndIsFound(s, q);
    }
    if CrFree(s) && exists p :: LfLfAt(s, p) {
      var p :| LfLfAt(s, p);
      var q := FirstLfLfUpTo(s, p);
      LfEndIsFound(s, q);
    }
  }

  lemma {:induction false} FirstCrLfUpTo(s: string, p: int) returns (q: nat)
    requires CrLfAt(s, p)
    ensures FirstCrLf(s, q)
    decreases p
  {
    if exists r :: 0 <= r < p && CrLfAt(s, r) {
      var r :| 0 <= r < p && CrLfAt(s, r);
      q := FirstCrLfUpTo(s, r);
    } else {
      q := p;
    }
  }

  lemma {:induction false} FirstLfLfUpTo(s: string, p: int) returns (q: nat)
    requires LfLfAt(s, p)
    ensures FirstLfLf(s, q)
    decreases p
  {
    if exists r :: 0 <= r < p && LfLfAt(s, r) {
      var r :| 0 <= r < p && LfLfAt(s, r);
      q := FirstLfLfUpTo(s, r);
    } else {
      q := p;
    }
  }
}
