/**
 Which lines survive being written and read again: exactly those whose parts a reader tells apart,
 laid out so that no terminator joins what follows it.
 */
module ReadBack {
  import opened Octets
  import opened Syntax
  import opened Grammar
  import opened Lexer
  import opened RecordedFolds
  import opened Parse
  import opened Emit
  import opened RoundTrip
  import opened Bare

  // -------------------------------------------------------------------------
  // One line
  // -------------------------------------------------------------------------

  /** The line, written with its terminator and read on its own, is that line and nothing else. */
  predicate ComesBack(p: Property) {
    BareLines(StoredLines(Piece(PropertyLine(p), false))) == [BareProperty(p)]
  }

  lemma {:induction false} StoredIsReadable(s: Bytes)
    ensures Readable(StoredLine(ReadLogical(s, 0)))
  {
    hide ReadLogical, Split, HeaderReads, LineContent;
    var l := ReadLogical(s, 0);
    ReadLogicalShape(s, 0);
    StoredContent(l);
    SplitReads(l.content);
    assert HeaderOf(StoredLine(l)) == Split(l.content);
  }

  /** Readability looks at nothing a bare line has lost. */
  lemma {:induction false} ReadableIsBare(p: Property, q: Property)
    requires BareProperty(p) == BareProperty(q)
    ensures Readable(p) <==> Readable(q)
  {
    hide LineContent, HeaderReads, LineFree;
    assert HeaderOf(p) == HeaderOf(q);
    ContentAssembles(p);
    ContentAssembles(q);
  }

  lemma {:induction false} StoredAreReadable(s: Bytes)
    ensures AllReadable(StoredLines(s))
    decreases |s|
  {
    hide ReadLogical, StoredLine, Readable;
    if s != [] {
      StoredIsReadable(s);
      StoredAreReadable(ReadLogical(s, 0).rest);
    }
  }

  lemma {:induction false} BareLinesAt(ps: seq<Property>, i: nat)
    requires i < |ps|
    ensures BareLines(ps)[i] == BareProperty(ps[i])
  {
    hide BareProperty;
    if i > 0 { BareLinesAt(ps[1..], i - 1); }
  }

  /** Lines that agree with lines that were read can be read. */
  lemma {:induction false} ReadableOfBare(s: Bytes, ps: seq<Property>)
    requires BareLines(StoredLines(s)) == BareLines(ps)
    ensures AllReadable(ps)
  {
    hide Readable, BareProperty, BareLines, StoredLines;
    var qs := StoredLines(s);
    assert |qs| == |BareLines(qs)| == |BareLines(ps)| == |ps|;
    StoredAreReadable(s);
    forall i | 0 <= i < |ps| ensures Readable(ps[i]) {
      BareLinesAt(ps, i);
      BareLinesAt(qs, i);
      ReadableIsBare(ps[i], qs[i]);
    }
  }

  lemma {:induction false} OneBareLine(p: Property)
    ensures BareLines([p]) == [BareProperty(p)]
  {
    assert [p][1..] == [];
  }

  /** A line comes back exactly when its parts can be told apart. */
  lemma {:induction false} ComesBackIff(p: Property)
    ensures ComesBack(p) <==> Readable(p)
  {
    hide Readable, Piece, ReadLogical, StoredLine, EndingInPlace, Seen;
    var s := Piece(PropertyLine(p), false);
    OneBareLine(p);
    if ComesBack(p) {
      ReadableOfBare(s, [p]);
      assert [p][0] == p;
    }
    if Readable(p) {
      LineReadsBack(p, false, []);
      assert s + [] == s;
      TerminatedIsWritten(p);
      assert StoredLines(s) == [Seen(p, false)] by { assert StoredLines([]) == []; }
      OneBareLine(Seen(p, false));
      SeenIsBareLine(p, false);
    }
  }

  lemma {:induction false} TerminatedIsWritten(p: Property)
    ensures Piece(PropertyLine(p), false) != []
  {
  }

  lemma {:induction false} SeenIsBareLine(p: Property, last: bool)
    ensures BareProperty(Seen(p, last)) == BareProperty(p)
  {
  }

  // -------------------------------------------------------------------------
  // Counting lines
  // -------------------------------------------------------------------------

  /** What follows a line does not depend on how much of the line was already read. */
  lemma {:induction false} RestFromAnywhere(s: Bytes, col: nat, other: nat)
    ensures ReadLogical(s, col).rest == ReadLogical(s, other).rest
    decreases |s|
  {
    hide ReadLogical;
    if s != [] && TerminatorAt(s).None? {
      ReadsOctet(s, col);
      ReadsOctet(s, other);
      RestFromAnywhere(s[1..], col + 1, other + 1);
    } else if s != [] && FoldsAt(s, TerminatorAt(s).value) {
      ReadsFold(s, col, TerminatorAt(s).value);
      ReadsFold(s, other, TerminatorAt(s).value);
      RestFromAnywhere(s[|TerminatorAt(s).value.Octets()| + 1..], col, other);
    } else {
      ReadsEnd(s, col);
      ReadsEnd(s, other);
    }
  }

  /** How many lines a reader finds. */
  function Count(s: Bytes): nat {
    |StoredLines(s)|
  }

  lemma {:induction false} CountsOne(s: Bytes)
    ensures Count(s) == if s == [] then 0 else 1 + Count(ReadLogical(s, 0).rest)
  {
    hide ReadLogical;
  }

  lemma {:induction false} SameRestSameCount(s: Bytes, t: Bytes, col: nat)
    requires s != [] && t != [] && ReadLogical(s, 0).rest == ReadLogical(t, col).rest
    ensures Count(s) == Count(t)
  {
    hide ReadLogical, Count;
    RestFromAnywhere(t, 0, col);
    CountsOne(s);
    CountsOne(t);
  }

  /** A terminator that joins what follows: a fold, or the CR of a CR LF. The line after it is the line before. */
  lemma {:induction false} JoinedRest(e: LineEnding, tail: Bytes, col: nat)
    requires !Follows(Some(e), tail)
    ensures tail != [] && ReadLogical(e.Octets() + tail, col).rest == ReadLogical(tail, 0).rest
  {
    hide ReadLogical;
    var s := e.Octets() + tail;
    if IsFoldWhitespace(tail[0]) {
      assert TerminatorAt(s) == Some(e) && FoldsAt(s, e) && s[|e.Octets()| + 1..] == tail[1..];
      ReadsFold(s, col, e);
      ReadsOctet(tail, 0);
      RestFromAnywhere(tail[1..], col, 1);
    } else {
      var after := tail[1..];
      assert s == [CR, LF] + after && s[2..] == after && tail == [LF] + after;
      assert TerminatorAt(s) == Some(CrLf) && TerminatorAt(tail) == Some(Lf);
      assert FoldsAt(s, CrLf) <==> FoldsAt(tail, Lf);
      if FoldsAt(s, CrLf) {
        ReadsFold(s, col, CrLf);
        ReadsFold(tail, 0, Lf);
        assert s[3..] == tail[2..];
        RestFromAnywhere(tail[2..], col, 0);
      } else {
        ReadsEnd(s, col);
        ReadsEnd(tail, 0);
      }
    }
  }

  /** The line p in front of `tail` adds a line to it exactly when it stays apart from it. */
  lemma {:induction false} PieceCounts(p: Property, last: bool, tail: Bytes)
    requires LineFree(LineContent(p)) && (last ==> tail == [])
    ensures var s := Piece(PropertyLine(p), last);
      Count(s + tail) == Count(tail) + if s != [] && Follows(EndingInPlace(p, last), tail) then 1 else 0
  {
    hide ReadLogical, Body, Count, StoredLines, LineContent, FoldsSeen, Prepend, Follows;
    var s, e := Piece(PropertyLine(p), last), EndingInPlace(p, last);
    var behind := EndingOctets(e) + tail;
    PieceIs(p, last);
    assert s + tail == Body(PropertyLine(p)) + behind;
    BodyReadsBack(p, behind);
    PrependKeepsRest(LineContent(p), FoldsSeen(p), ReadLogical(behind, |LineContent(p)|));
    CountsOne(s + tail);
    if s == [] {
      assert s + tail == tail;
    } else if Follows(e, tail) {
      EndsThere(e, tail);
      ReadsEnd(behind, |LineContent(p)|) by { EndsHereMeans(behind); }
      assert ReadLogical(s + tail, 0).rest == tail;
    } else {
      FollowsNothing(e);
      JoinedRest(e.value, tail, |LineContent(p)|);
      SameRestSameCount(s + tail, tail, 0);
    }
  }

  lemma {:induction false} PieceIs(p: Property, last: bool)
    ensures Piece(PropertyLine(p), last) == Body(PropertyLine(p)) + EndingOctets(EndingInPlace(p, last))
    ensures !last ==> EndingInPlace(p, last).Some?
  {
    hide Body;
  }

  lemma {:induction false} FollowsNothing(e: Option<LineEnding>)
    ensures Follows(e, [])
  {
  }

  lemma {:induction false} PrependKeepsRest(c: Bytes, f: seq<FoldPoint>, l: Logical)
    ensures Prepend(c, f, l).rest == l.rest
  {
  }

  /** Lines laid out read as at most that many, and as that many exactly when they stay apart. */
  lemma {:induction false} CountOfLay(ps: seq<Property>)
    requires AllReadable(ps)
    ensures Count(Lay(ps)) <= |ps|
    ensures Count(Lay(ps)) == |ps| <==> Separated(ps)
    decreases |ps|
  {
    hide Piece, Lay, Follows, EndingInPlace, LineContent, HeaderReads, LineFree, ReadLogical;
    if ps == [] {
      LayNothing();
      CountsOne([]);
    } else {
      var rest := ps[1..];
      assert AllReadable(rest) && Readable(ps[0]);
      CountOfLay(rest);
      LayFront(ps);
      if |ps| == 1 { LayNothing(); }
      PieceCounts(ps[0], |ps| == 1, Lay(rest));
    }
  }

  // -------------------------------------------------------------------------
  // Lists of lines
  // -------------------------------------------------------------------------

  lemma {:induction false} SeenIsBare(ps: seq<Property>)
    ensures BareLines(SeenAll(ps)) == BareLines(ps)
  {
    hide FoldsSeen, SaturateFolds, EndingInPlace;
    if ps != [] {
      SeenIsBare(ps[1..]);
      assert SeenAll(ps)[1..] == SeenAll(ps[1..]);
    }
  }

  /**
   Lines laid out and read again are the lines they were, names, parameters and values, exactly
   when every one of them can be read and none joins the next.
   */
  lemma {:induction false} LinesReadBackIff(ps: seq<Property>)
    ensures BareLines(StoredLines(Lay(ps))) == BareLines(ps) <==> AllReadable(ps) && Separated(ps)
  {
    hide Separated, AllReadable, Lay, StoredLines, BareLines, SeenAll;
    if BareLines(StoredLines(Lay(ps))) == BareLines(ps) {
      ReadableOfBare(Lay(ps), ps);
      CountOfLay(ps);
      assert |StoredLines(Lay(ps))| == |BareLines(StoredLines(Lay(ps)))| == |BareLines(ps)| == |ps|;
    }
    if AllReadable(ps) && Separated(ps) {
      WrittenReadsBack(ps);
      SeenIsBare(ps);
    }
  }
}
