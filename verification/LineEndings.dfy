/** Normalizing line endings to CR LF, with a report of every terminator that was not one. */
module LineEndings {
  import opened Octets

  /** A CR followed by LF, 13 and 10, at i. */
  predicate PairAt(s: Bytes, i: nat) {
    i + 1 < |s| && s[i] == 13 && s[i + 1] == 10
  }

  /** Neither half of a pair. */
  predicate LoneAt(s: Bytes, i: nat) {
    i < |s| && (s[i] == 13 || s[i] == 10) && !PairAt(s, i) && !(i > 0 && PairAt(s, i - 1))
  }

  function NormalizedFrom(s: Bytes, i: nat): Bytes
    decreases |s| - i
  {
    if i >= |s| then []
    else if PairAt(s, i) then [13, 10] + NormalizedFrom(s, i + 2)
    else if s[i] == 13 || s[i] == 10 then [13, 10] + NormalizedFrom(s, i + 1)
    else [s[i]] + NormalizedFrom(s, i + 1)
  }

  function ChangesFrom(s: Bytes, i: nat): seq<nat>
    decreases |s| - i
  {
    if i >= |s| then []
    else if PairAt(s, i) then ChangesFrom(s, i + 2)
    else if s[i] == 13 || s[i] == 10 then [i] + ChangesFrom(s, i + 1)
    else ChangesFrom(s, i + 1)
  }

  function Normalized(s: Bytes): Bytes {
    NormalizedFrom(s, 0)
  }

  function Changes(s: Bytes): seq<nat> {
    ChangesFrom(s, 0)
  }

  lemma {:induction false} NormalizedStep(s: Bytes, i: nat)
    requires i < |s|
    ensures NormalizedFrom(s, i) == if PairAt(s, i) then [CR, LF] + NormalizedFrom(s, i + 2)
      else if s[i] == CR || s[i] == LF then [CR, LF] + NormalizedFrom(s, i + 1) else [s[i]] + NormalizedFrom(s, i + 1)
    ensures ChangesFrom(s, i) == if PairAt(s, i) then ChangesFrom(s, i + 2)
      else if s[i] == 13 || s[i] == 10 then [i] + ChangesFrom(s, i + 1) else ChangesFrom(s, i + 1)
  {
  }

  lemma {:induction false} NormalizedEnds(s: Bytes, i: nat)
    requires i >= |s|
    ensures NormalizedFrom(s, i) == [] && ChangesFrom(s, i) == []
  {
  }

  lemma {:induction false} AssociateStep(written: Bytes, more: Bytes, rest: Bytes, noted: seq<nat>, at: seq<nat>, later: seq<nat>)
    ensures written + (more + rest) == (written + more) + rest
    ensures noted + (at + later) == (noted + at) + later
  {
  }

  /** Write every terminator as CR LF, noting where one was not. */
  method NormalizeLineEndings(input: Bytes) returns (output: Bytes, changes: seq<nat>)
    ensures output == Normalized(input) && changes == Changes(input)
  {
    hide NormalizedFrom, ChangesFrom;
    output, changes := [], [];
    var cursor: nat := 0;
    while cursor < |input|
      invariant cursor <= |input|
      invariant output + NormalizedFrom(input, cursor) == Normalized(input)
      invariant changes + ChangesFrom(input, cursor) == Changes(input)
    {
      NormalizedStep(input, cursor);
      ghost var at := cursor;
      if input[cursor] == CR && cursor + 1 < |input| && input[cursor + 1] == LF {
        AssociateStep(output, [CR, LF], NormalizedFrom(input, at + 2), [], [], []);
        output := output + [CR, LF];
        cursor := cursor + 2;
      } else if input[cursor] == CR || input[cursor] == LF {
        AssociateStep(output, [CR, LF], NormalizedFrom(input, at + 1), changes, [at], ChangesFrom(input, at + 1));
        output := output + [CR, LF];
        changes := changes + [cursor];
        cursor := cursor + 1;
      } else {
        AssociateStep(output, [input[at]], NormalizedFrom(input, at + 1), [], [], []);
        output := output + [input[cursor]];
        cursor := cursor + 1;
      }
    }
    NormalizedEnds(input, cursor);
  }

  // -------------------------------------------------------------------------
  // What the output is
  // -------------------------------------------------------------------------

  /** CR and LF occur only together. */
  predicate OnlyPairs(s: Bytes) {
    forall i | 0 <= i < |s| :: !LoneAt(s, i)
  }

  /** The lines of a text, at any of the three terminators; `line` is the one being gathered. */
  function LinesFrom(s: Bytes, i: nat, line: Bytes): seq<Bytes>
    decreases |s| - i
  {
    if i >= |s| then [line]
    else if PairAt(s, i) then [line] + LinesFrom(s, i + 2, [])
    else if s[i] == 13 || s[i] == 10 then [line] + LinesFrom(s, i + 1, [])
    else LinesFrom(s, i + 1, line + [s[i]])
  }

  function TextLines(s: Bytes): seq<Bytes> {
    LinesFrom(s, 0, [])
  }

  lemma {:induction false} NormalizedLength(s: Bytes, i: nat)
    requires i <= |s|
    ensures |NormalizedFrom(s, i)| == |s| - i + |ChangesFrom(s, i)|
    decreases |s| - i
  {
    if i < |s| { NormalizedLength(s, if PairAt(s, i) then i + 2 else i + 1); }
  }

  /** Every change adds one octet, and nothing else does. */
  lemma {:induction false} LengthGrowsByChanges(s: Bytes)
    ensures |Normalized(s)| == |s| + |Changes(s)|
  {
    NormalizedLength(s, 0);
  }

  /** Between terminators, or at the start: no pair straddles i. */
  predicate Apart(s: Bytes, i: nat) {
    i <= |s| && !(i > 0 && PairAt(s, i - 1))
  }

  lemma {:induction false} ChangesAre(s: Bytes, i: nat, k: nat)
    requires Apart(s, i)
    ensures forall j | 0 <= j < |ChangesFrom(s, i)| :: i <= ChangesFrom(s, i)[j] < |s|
    ensures forall j, l | 0 <= j < l < |ChangesFrom(s, i)| :: ChangesFrom(s, i)[j] < ChangesFrom(s, i)[l]
    ensures k in ChangesFrom(s, i) <==> k >= i && LoneAt(s, k)
    decreases |s| - i
  {
    if i < |s| {
      var next := if PairAt(s, i) then i + 2 else i + 1;
      ChangesAre(s, next, k);
      if k in ChangesFrom(s, next) { assert k >= next; }
    }
  }

  /** The report is exactly the offsets of the lone terminators, in increasing order. */
  lemma {:induction false} ChangesAreLone(s: Bytes)
    ensures forall k: nat :: k in Changes(s) <==> LoneAt(s, k)
    ensures forall j, l | 0 <= j < l < |Changes(s)| :: Changes(s)[j] < Changes(s)[l]
  {
    forall k: nat ensures k in Changes(s) <==> LoneAt(s, k) { ChangesAre(s, 0, k); }
    ChangesAre(s, 0, 0);
  }

  /** The suffix at i of a text, after some octets of its own. */
  lemma {:induction false} NormalizedIn(prefix: Bytes, s: Bytes, i: nat)
    requires i <= |s|
    requires prefix != [] ==> prefix[|prefix| - 1] != CR
    ensures var t := prefix + NormalizedFrom(s, i);
      && NormalizedFrom(t, |prefix|) == NormalizedFrom(s, i)
      && ChangesFrom(t, |prefix|) == []
    decreases |s| - i
  {
    hide NormalizedFrom, ChangesFrom, PairAt;
    var t := prefix + NormalizedFrom(s, i);
    if i == |s| {
      NormalizedEnds(s, i);
      NormalizedEnds(t, |prefix|);
    } else {
      NormalizedStep(s, i);
      var next := if PairAt(s, i) then i + 2 else i + 1;
      PairFits(s, i);
      var written := if s[i] == CR || s[i] == LF then [CR, LF] else [s[i]];
      AppendTwice(prefix, written, NormalizedFrom(s, next));
      NormalizedIn(prefix + written, s, next);
      PairHere(prefix, written, NormalizedFrom(s, next));
      NormalizedStep(t, |prefix|);
    }
  }

  lemma {:induction false} PairFits(s: Bytes, i: nat)
    requires i < |s|
    ensures PairAt(s, i) ==> i + 2 <= |s| && s[i] == CR
  {
  }

  lemma {:induction false} PairHere(prefix: Bytes, written: Bytes, rest: Bytes)
    requires written == [CR, LF] || (|written| == 1 && written[0] != CR && written[0] != LF)
    ensures var t := prefix + written + rest;
      t[|prefix|] == written[0] && (PairAt(t, |prefix|) <==> written == [CR, LF])
  {
    var t := prefix + written + rest;
    assert t[|prefix|..] == written + rest;
  }

  /** Normalizing again changes nothing and reports nothing. */
  lemma {:induction false} NormalizedIsStable(s: Bytes)
    ensures Normalized(Normalized(s)) == Normalized(s) && Changes(Normalized(s)) == []
  {
    NormalizedIn([], s, 0);
    assert [] + NormalizedFrom(s, 0) == Normalized(s);
  }

  /** In the output CR and LF occur only as pairs. */
  lemma {:induction false} NormalizedOnlyPairs(s: Bytes)
    ensures OnlyPairs(Normalized(s))
  {
    NormalizedIsStable(s);
    ChangesAreLone(Normalized(s));
    forall i | 0 <= i < |Normalized(s)| ensures !LoneAt(Normalized(s), i) {
      assert i !in Changes(Normalized(s));
    }
  }

  lemma {:induction false} LinesIn(prefix: Bytes, s: Bytes, i: nat, line: Bytes)
    requires i <= |s|
    ensures LinesFrom(prefix + NormalizedFrom(s, i), |prefix|, line) == LinesFrom(s, i, line)
    decreases |s| - i
  {
    var t := prefix + NormalizedFrom(s, i);
    if i < |s| {
      if s[i] == CR || s[i] == LF {
        var next := if PairAt(s, i) then i + 2 else i + 1;
        assert t == prefix + [CR, LF] + NormalizedFrom(s, next);
        LinesIn(prefix + [CR, LF], s, next, []);
        assert PairAt(t, |prefix|);
      } else {
        assert t == prefix + [s[i]] + NormalizedFrom(s, i + 1);
        LinesIn(prefix + [s[i]], s, i + 1, line + [s[i]]);
      }
    }
  }

  /** The lines are the same lines. */
  lemma {:induction false} NormalizedKeepsLines(s: Bytes)
    ensures TextLines(Normalized(s)) == TextLines(s)
  {
    LinesIn([], s, 0, []);
    assert [] + NormalizedFrom(s, 0) == Normalized(s);
  }
}
