/**
 Lists of lines laid out one after the other: which octets a change to one line can reach, and
 exactly when lines that stayed apart still do after a line is rewritten, added or removed.
 */
module Layout {
  import opened Octets
  import opened Syntax
  import opened Grammar
  import opened RecordedFolds
  import opened Refold
  import opened Emit
  import opened RoundTrip

  /** The octets of lines that more lines follow. */
  function LayOpen(ps: seq<Property>): Bytes {
    if ps == [] then [] else Piece(PropertyLine(ps[0]), false) + LayOpen(ps[1..])
  }

  lemma {:induction false} LaySplit(x: seq<Property>, y: seq<Property>)
    requires y != []
    ensures Lay(x + y) == LayOpen(x) + Lay(y)
  {
    hide Piece, Lay;
    if x == [] {
      assert x + y == y;
    } else {
      LayFront(x + y);
      assert (x + y)[1..] == x[1..] + y;
      LaySplit(x[1..], y);
    }
  }

  /**
   A line's octets in the whole output, and the octets around it, which do not depend on it:
   whatever replaces it, nothing else moves.
   */
  lemma {:induction false} LayAround(x: seq<Property>, p: Property, y: seq<Property>)
    ensures Lay(x + [p] + y) == LayOpen(x) + Piece(PropertyLine(p), y == []) + Lay(y)
  {
    hide Piece, Lay;
    assert x + [p] + y == x + ([p] + y);
    LaySplit(x, [p] + y);
    LayFront([p] + y);
    assert ([p] + y)[1..] == y;
  }

  /** What the lines above an addition gain: a terminator, if the last of them had none. */
  lemma {:induction false} LayOpenIs(x: seq<Property>)
    ensures LayOpen(x) == Lay(x) + if x != [] && x[|x| - 1].layout.ending.None? then [13, 10] else []
  {
    hide Body, Lay;
    if x == [] {
      LayNothing();
    } else {
      LayFront(x);
      LayOpenIs(x[1..]);
      if |x| == 1 { LayNothing(); }
    }
  }

  function TerminatedLine(p: Property): Property {
    p.(layout := p.layout.TerminateWith(CANONICAL))
  }

  function TerminatedLast(x: seq<Property>): (r: seq<Property>)
    ensures |r| == |x|
  {
    if x == [] then [] else x[..|x| - 1] + [TerminatedLine(x[|x| - 1])]
  }

  lemma {:induction false} TerminatedBody(p: Property)
    ensures Body(PropertyLine(TerminatedLine(p))) == Body(PropertyLine(p))
    ensures Piece(PropertyLine(TerminatedLine(p)), true) == Piece(PropertyLine(p), false)
    ensures Piece(PropertyLine(TerminatedLine(p)), false) == Piece(PropertyLine(p), false)
    ensures Piece(PropertyLine(p), false)
      == Piece(PropertyLine(p), true) + if p.layout.ending.None? then [13, 10] else []
  {
    var q := TerminatedLine(p);
    assert Spans(PropertyLine(q)) == Spans(PropertyLine(p));
    assert BodyOf(Spans(PropertyLine(q)), q.layout) == BodyOf(Spans(PropertyLine(p)), p.layout);
  }

  lemma {:induction false} LayOpenTerminated(x: seq<Property>)
    ensures LayOpen(TerminatedLast(x)) == LayOpen(x)
  {
    hide Piece;
    if x != [] {
      var t := TerminatedLast(x);
      if |x| == 1 {
        TerminatedBody(x[0]);
        assert t[1..] == x[1..] == [];
      } else {
        assert t[0] == x[0] && t[1..] == TerminatedLast(x[1..]);
        LayOpenTerminated(x[1..]);
      }
    }
  }

  // -------------------------------------------------------------------------
  // Lines that begin safely anywhere
  // -------------------------------------------------------------------------

  /** A line that can stand after any terminator: its octets open neither a fold nor the end of a CR LF. */
  predicate OpensSafely(s: Bytes) {
    s != [] && !IsFoldWhitespace(s[0]) && s[0] != LF
  }

  predicate Tame(p: Property) {
    OpensSafely(Body(PropertyLine(p)))
  }

  lemma {:induction false} OneChunk(chunks: seq<Bytes>)
    requires chunks != []
    ensures |chunks| == 1 ==> Concat(chunks) == chunks[0]
  {
    assert |chunks| == 1 ==> chunks[1..] == [];
  }

  lemma {:induction false} LineFreeFirst(s: Bytes)
    requires LineFree(s) && s != []
    ensures s[0] != CR && s[0] != LF
  {
  }

  /** Every line a write authors opens safely, whatever its octets are. */
  lemma {:induction false} RefoldedIsTame(p: Property)
    requires p.layout.refold && LineContent(p) != [] && LineFree(LineContent(p))
    ensures Tame(p)
  {
    hide Refolded, Spans;
    var chunks := Refolded(Spans(PropertyLine(p)));
    RefoldedShape(Spans(PropertyLine(p)));
    LineFreeConcat(chunks);
    if chunks[0] == [] {
      OneChunk(chunks);
      assert Joined(chunks)[0] == CR;
    } else {
      LineFreeFirst(chunks[0]);
      assert Joined(chunks)[0] == chunks[0][0];
    }
  }

  lemma {:induction false} PieceOfTame(p: Property, last: bool)
    requires Tame(p)
    ensures OpensSafely(Piece(PropertyLine(p), last))
  {
    hide Body;
  }

  lemma {:induction false} SafeFollows(e: LineEnding, p: Property, ps: seq<Property>)
    requires Tame(p)
    ensures Follows(Some(e), Lay([p] + ps))
  {
    hide Piece, Tame, Lay;
    LayFront([p] + ps);
    PieceOfTame(p, |[p] + ps| == 1);
  }

  // -------------------------------------------------------------------------
  // Rewriting lines
  // -------------------------------------------------------------------------

  /** The same line, or one a write put in its place. */
  predicate Succeeds(p: Property, q: Property) {
    q == p || (Tame(q) && q.layout.ending == p.layout.ending)
  }

  predicate AllSucceed(ps: seq<Property>, qs: seq<Property>) {
    |ps| == |qs| && forall i | 0 <= i < |ps| :: Succeeds(ps[i], qs[i])
  }

  lemma {:induction false} FollowsSuccessor(e: Option<LineEnding>, ps: seq<Property>, qs: seq<Property>)
    requires AllSucceed(ps, qs) && Separated(ps) && Follows(e, Lay(ps))
    ensures Follows(e, Lay(qs))
  {
    hide Piece, Tame, Lay;
    if ps == [] {
      assert qs == [];
    } else {
      LayFront(ps);
      LayFront(qs);
      assert Succeeds(ps[0], qs[0]);
      if qs[0] != ps[0] { PieceOfTame(qs[0], |qs| == 1); }
    }
  }

  /** Rewriting any of the lines keeps them apart. */
  lemma {:induction false} RewritingKeepsSeparated(ps: seq<Property>, qs: seq<Property>)
    requires AllSucceed(ps, qs) && Separated(ps)
    ensures Separated(qs)
    decreases |ps|
  {
    hide Piece, Tame, Lay, Follows;
    if ps != [] {
      assert Succeeds(ps[0], qs[0]);
      if qs[0] != ps[0] { PieceOfTame(qs[0], |qs| == 1); }
      assert AllSucceed(ps[1..], qs[1..]);
      FollowsSuccessor(EndingInPlace(ps[0], |ps| == 1), ps[1..], qs[1..]);
      RewritingKeepsSeparated(ps[1..], qs[1..]);
    }
  }

  // -------------------------------------------------------------------------
  // Adding a line
  // -------------------------------------------------------------------------

  lemma {:induction false} SeparatedCons(p: Property, ps: seq<Property>)
    ensures Separated([p] + ps) <==>
      Piece(PropertyLine(p), ps == []) != [] && Follows(EndingInPlace(p, ps == []), Lay(ps)) && Separated(ps)
  {
    hide Piece, Follows, Lay;
    assert ([p] + ps)[1..] == ps;
  }

  /** The lines above an addition open as they did. */
  lemma {:induction false} OpensAsBefore(e: Option<LineEnding>, x: seq<Property>, added: Property, y: seq<Property>)
    requires x != [] && Separated(x + y) && Follows(e, Lay(x + y))
    ensures Follows(e, Lay(TerminatedLast(x) + [added] + y))
  {
    hide Body, Lay;
    var t := TerminatedLast(x) + [added] + y;
    LayFront(x + y);
    LayFront(t);
    TerminatedBody(x[0]);
    assert Piece(PropertyLine(x[0]), |x + y| == 1) <= Piece(PropertyLine(t[0]), false) by {
      assert t[0] == x[0] || t[0] == TerminatedLine(x[0]);
    }
  }

  /**
   A line added among lines that stay apart keeps them apart exactly when its terminator does not
   join what follows it.
   */
  lemma {:induction false} AddingKeepsSeparatedIff(x: seq<Property>, added: Property, y: seq<Property>)
    requires Separated(x + y) && Tame(added) && added.layout.ending.Some?
    ensures Separated(TerminatedLast(x) + [added] + y) <==> Follows(added.layout.ending, Lay(y))
    decreases |x|
  {
    hide Piece, Tame, Lay, Follows;
    if x == [] {
      assert x + y == y && TerminatedLast(x) + [added] + y == [added] + y;
      SeparatedCons(added, y);
      PieceOfTame(added, y == []);
    } else {
      AddingKeepsSeparatedIff(x[1..], added, y) by { SeparatedRest(x, y); }
      if |x| == 1 { AddingBelowOne(x, added, y); } else { AddingBelowMore(x, added, y); }
    }
  }

  lemma {:induction false} SeparatedRest(x: seq<Property>, y: seq<Property>)
    requires x != [] && Separated(x + y)
    ensures Separated(x[1..] + y)
  {
    hide Piece, Lay, Follows;
    assert x + y == [x[0]] + (x[1..] + y);
    SeparatedCons(x[0], x[1..] + y);
  }

  lemma {:induction false} AddingBelowOne(x: seq<Property>, added: Property, y: seq<Property>)
    requires |x| == 1 && Tame(added)
    ensures Separated(TerminatedLast(x) + [added] + y) <==> Separated(TerminatedLast(x[1..]) + [added] + y)
  {
    hide Piece, Tame, Lay, Follows, Separated;
    var p := TerminatedLine(x[0]);
    assert TerminatedLast(x) + [added] + y == [p] + ([added] + y);
    assert TerminatedLast(x[1..]) + [added] + y == [added] + y;
    SeparatedCons(p, [added] + y);
    SafeFollows(p.layout.ending.value, added, y);
    PieceTerminated(x[0]);
  }

  lemma {:induction false} TerminatedLastCons(x: seq<Property>)
    requires |x| > 1
    ensures TerminatedLast(x) == [x[0]] + TerminatedLast(x[1..])
  {
    assert x[1..][..|x| - 2] == x[1..|x| - 1];
  }

  lemma {:induction false} AssociateGrown(p: Property, x: seq<Property>, added: Property, y: seq<Property>)
    ensures [p] + x + [added] + y == [p] + (x + [added] + y)
  {
  }

  lemma {:induction false} AddingBelowMore(x: seq<Property>, added: Property, y: seq<Property>)
    requires |x| > 1 && Separated(x + y)
    ensures Separated(TerminatedLast(x) + [added] + y) <==> Separated(TerminatedLast(x[1..]) + [added] + y)
  {
    hide Piece, Tame, Lay, Follows, Separated;
    var rest := x[1..];
    var grown := TerminatedLast(rest) + [added] + y;
    assert x + y == [x[0]] + (rest + y);
    SeparatedCons(x[0], rest + y);
    TerminatedLastCons(x);
    AssociateGrown(x[0], TerminatedLast(rest), added, y);
    SeparatedCons(x[0], grown);
    OpensAsBefore(EndingInPlace(x[0], false), rest, added, y);
  }

  lemma {:induction false} PieceTerminated(p: Property)
    ensures Piece(PropertyLine(TerminatedLine(p)), false) != [] && Piece(PropertyLine(p), false) != []
  {
  }

  // -------------------------------------------------------------------------
  // Removing a line
  // -------------------------------------------------------------------------

  /** Whether p and the lines y can be neighbours. */
  predicate MayPrecede(p: Property, y: seq<Property>) {
    Piece(PropertyLine(p), y == []) != [] && Follows(EndingInPlace(p, y == []), Lay(y))
  }

  lemma {:induction false} OpensAsBeforeRemoval(e: Option<LineEnding>, x: seq<Property>, p: Property, y: seq<Property>)
    requires x != [] && Separated(x + [p] + y) && Follows(e, Lay(x + [p] + y)) && e.Some?
    requires Piece(PropertyLine(x[0]), |x + y| == 1) != []
    ensures Follows(e, Lay(x + y))
  {
    hide Body, Lay;
    LayFront(x + y);
    LayFront(x + [p] + y);
    TerminatedBody(x[0]);
  }

  /**
   Removing a line keeps the others apart exactly when its two neighbours can be neighbours:
   what fails is a line ended by a bare CR coming to stand above one that opens with LF, or a
   line with no octets and no terminator coming last.
   */
  lemma {:induction false} RemovingKeepsSeparatedIff(x: seq<Property>, p: Property, y: seq<Property>)
    requires Separated(x + [p] + y)
    ensures Separated(x + y) <==> x == [] || MayPrecede(x[|x| - 1], y)
    decreases |x|
  {
    hide Piece, Lay, Follows, Separated;
    if x == [] {
      assert x + [p] + y == [p] + y && x + y == y;
      SeparatedCons(p, y);
    } else {
      var rest := x[1..];
      assert x + [p] + y == [x[0]] + (rest + [p] + y);
      assert x + y == [x[0]] + (rest + y);
      SeparatedCons(x[0], rest + [p] + y);
      SeparatedCons(x[0], rest + y);
      RemovingKeepsSeparatedIff(rest, p, y);
      if rest == [] {
        assert rest + y == y;
      } else {
        assert rest[|rest| - 1] == x[|x| - 1];
        if Separated(rest + y) {
          assert rest + y == [rest[0]] + (rest[1..] + y);
          SeparatedCons(rest[0], rest[1..] + y);
          assert Piece(PropertyLine(rest[0]), |rest + y| == 1) != [];
          OpensAsBeforeRemoval(EndingInPlace(x[0], false), rest, p, y);
        }
      }
    }
  }

  // -------------------------------------------------------------------------
  // Removing any lines
  // -------------------------------------------------------------------------

  /** The lines marked as kept, in their order. */
  function Kept(ps: seq<Property>, keep: seq<bool>): seq<Property>
    requires |ps| == |keep|
  {
    if ps == [] then [] else (if keep[0] then [ps[0]] else []) + Kept(ps[1..], keep[1..])
  }

  function AllKept(n: nat): (r: seq<bool>)
    ensures |r| == n
  {
    seq(n, _ => true)
  }

  lemma {:induction false} KeptAll(ps: seq<Property>)
    ensures Kept(ps, AllKept(|ps|)) == ps
  {
    if ps != [] {
      assert AllKept(|ps|)[1..] == AllKept(|ps[1..]|);
      KeptAll(ps[1..]);
    }
  }

  lemma {:induction false} KeptAppend(a: seq<Property>, b: seq<Property>, keepA: seq<bool>, keepB: seq<bool>)
    requires |a| == |keepA| && |b| == |keepB|
    ensures Kept(a + b, keepA + keepB) == Kept(a, keepA) + Kept(b, keepB)
    decreases |a|
  {
    if a == [] {
      assert a + b == b && keepA + keepB == keepB;
    } else {
      KeptAppend(a[1..], b, keepA[1..], keepB);
      assert (a + b)[1..] == a[1..] + b && (keepA + keepB)[1..] == keepA[1..] + keepB;
      var first := if keepA[0] then [a[0]] else [];
      assert Kept(a + b, keepA + keepB) == first + (Kept(a[1..], keepA[1..]) + Kept(b, keepB));
    }
  }

  lemma {:induction false} KeptReadable(ps: seq<Property>, keep: seq<bool>)
    requires |ps| == |keep| && AllReadable(ps)
    ensures AllReadable(Kept(ps, keep))
  {
    hide Readable;
    if ps != [] {
      assert Readable(ps[0]) && AllReadable(ps[1..]);
      KeptReadable(ps[1..], keep[1..]);
    }
  }

  /** A bare CR above a line that opens with LF: together they are one terminator. */
  predicate Joins(p: Property, q: Property) {
    var s := Piece(PropertyLine(q), false);
    p.layout.ending == Some(Cr) && s != [] && s[0] == LF
  }

  /**
   No kept line joins the next kept one, and the last kept one writes some octet; `above` is the
   kept line nearest above ps.
   */
  predicate KeptStayApart(above: Option<Property>, ps: seq<Property>, keep: seq<bool>)
    requires |ps| == |keep|
    decreases |ps|
  {
    if ps == [] then above.Some? ==> Piece(PropertyLine(above.value), true) != []
    else if keep[0] then (above.Some? ==> !Joins(above.value, ps[0])) && KeptStayApart(Some(ps[0]), ps[1..], keep[1..])
    else KeptStayApart(above, ps[1..], keep[1..])
  }

  function Above(above: Option<Property>): seq<Property> {
    if above.Some? then [above.value] else []
  }

  predicate OpensNoFold(s: Bytes) {
    s != [] ==> !IsFoldWhitespace(s[0])
  }

  /** A line that opened without whitespace below one line does so below any other. */
  lemma {:induction false} FollowsKept(p: Property, q: Property, ps: seq<Property>, kept: seq<Property>)
    requires Separated([q] + ps) && Separated([q] + kept) && OpensNoFold(Lay([q] + ps))
    ensures Follows(EndingInPlace(p, false), Lay([q] + kept)) <==> !Joins(p, q)
  {
    hide Body, Lay, Separated;
    SeparatedCons(q, ps);
    SeparatedCons(q, kept);
    LayOne(q, ps);
    LayOne(q, kept);
    TerminatedBody(q);
  }

  lemma {:induction false} KeptFront(ps: seq<Property>, keep: seq<bool>)
    requires |ps| == |keep| && ps != []
    ensures Kept(ps, keep) == (if keep[0] then [ps[0]] else []) + Kept(ps[1..], keep[1..])
  {
  }

  /**
   Removing lines from among lines that stay apart keeps the others apart exactly when none of
   them comes to join the next.
   */
  lemma {:induction false} KeptSeparatedIff(above: Option<Property>, ps: seq<Property>, keep: seq<bool>)
    requires |ps| == |keep| && Separated(ps)
    requires above.Some? ==> OpensNoFold(Lay(ps))
    ensures Separated(Above(above) + Kept(ps, keep)) <==> KeptStayApart(above, ps, keep)
    decreases |ps|
  {
    hide Piece, Lay, Joins, Kept;
    if ps == [] {
      assert Kept(ps, keep) == [] by { KeptNone(ps, keep); }
      LayNothing();
      if above.Some? {
        assert Above(above) + [] == [above.value] + [];
        SeparatedCons(above.value, []);
      }
    } else {
      var rest := Kept(ps[1..], keep[1..]);
      assert ps == [ps[0]] + ps[1..];
      SeparatedOpens(ps);
      KeptFront(ps, keep);
      if keep[0] {
        KeptSeparatedIff(Some(ps[0]), ps[1..], keep[1..]);
        assert Above(above) + Kept(ps, keep) == Above(above) + ([ps[0]] + rest);
        if above.Some? {
          SeparatedCons(above.value, [ps[0]] + rest);
          PieceTerminated(above.value);
          if Separated([ps[0]] + rest) { FollowsKept(above.value, ps[0], ps[1..], rest); }
        } else {
          assert [] + ([ps[0]] + rest) == [ps[0]] + rest;
        }
      } else {
        KeptSeparatedIff(above, ps[1..], keep[1..]);
        assert [] + rest == rest;
      }
    }
  }

  lemma {:induction false} KeptNone(ps: seq<Property>, keep: seq<bool>)
    requires |ps| == |keep| && ps == []
    ensures Kept(ps, keep) == []
  {
  }

  lemma {:induction false} SeparatedOpens(ps: seq<Property>)
    requires Separated(ps) && ps != []
    ensures Lay(ps) != []
    ensures OpensNoFold(Lay(ps[1..]))
  {
    hide Piece, Lay;
    LayFront(ps);
  }

  /** A line no removal can join to another: it is terminated, and not by a bare CR. */
  predicate Terminates(p: Property) {
    p.layout.ending.Some? && p.layout.ending != Some(Cr)
  }

  /** Where every line is terminated, none by a bare CR, any lines may be removed. */
  lemma {:induction false} TerminatedStayApart(above: Option<Property>, ps: seq<Property>, keep: seq<bool>)
    requires |ps| == |keep| && (above.Some? ==> Terminates(above.value))
    requires forall i | 0 <= i < |ps| :: Terminates(ps[i])
    ensures KeptStayApart(above, ps, keep)
    decreases |ps|
  {
    if ps != [] {
      assert Terminates(ps[0]);
      TerminatedStayApart(if keep[0] then Some(ps[0]) else above, ps[1..], keep[1..]);
    }
  }

  lemma {:induction false} LayOne(p: Property, ps: seq<Property>)
    ensures Lay([p] + ps) == Piece(PropertyLine(p), ps == []) + Lay(ps)
  {
    hide Piece, Lay;
    LayFront([p] + ps);
    assert ([p] + ps)[1..] == ps;
  }

  lemma {:induction false} PlainContent(p: Property)
    requires p.parameters == []
    ensures LineContent(p) == p.name + (if p.layout.hasSeparator then [COLON] else []) + p.value
  {
    hide Content;
    ContentAssembles(p);
    AssembleNoParameters(HeaderOf(p).(name := []));
    assert AssembleTail(HeaderOf(p)) == AssembleTail(HeaderOf(p).(name := []));
  }

  lemma {:induction false} UnfoldedPiece(p: Property, last: bool)
    requires p.layout.folds == [] && !p.layout.refold
    ensures Piece(PropertyLine(p), last) == LineContent(p) + EndingOctets(EndingInPlace(p, last))
  {
    hide Inject, Spans, Concat, Refolded;
    InjectStops(LineContent(p), [], 0);
  }

  lemma {:induction false} PlainPiece(p: Property, last: bool, content: Bytes)
    requires p.layout.folds == [] && !p.layout.refold && p.parameters == []
    requires content == p.name + (if p.layout.hasSeparator then [COLON] else []) + p.value
    ensures Piece(PropertyLine(p), last) == content + EndingOctets(EndingInPlace(p, last))
  {
    hide Piece, LineContent;
    UnfoldedPiece(p, last);
    PlainContent(p);
  }
}
