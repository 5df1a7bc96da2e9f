/**
 Putting recorded folds back into an unfolded line: the reference definition, position by
 position, the insertion the serializer performs, and how the two meet the reader.
 */
module RecordedFolds {
  import opened Octets
  import opened Syntax
  import opened Grammar

  // -------------------------------------------------------------------------
  // Insertion in one sweep over the folds
  // -------------------------------------------------------------------------

  /** How many of the next octets precede a fold, none when it lies behind the position. */
  function Taken(f: FoldPoint, pos: nat): nat {
    if f.offset <= pos then 0 else f.offset - pos
  }

  /**
   A span, standing at `pos` of its line, with every fold it reaches injected; and the folds it
   does not reach. The first fold past the span's end holds back all the later ones.
   */
  function Inject(bytes: Bytes, folds: seq<FoldPoint>, pos: nat): (Bytes, seq<FoldPoint>)
    decreases |folds|
  {
    if folds == [] || Taken(folds[0], pos) > |bytes| then (bytes, folds)
    else
      var n := Taken(folds[0], pos);
      var (written, left) := Inject(bytes[n..], folds[1..], pos + n);
      (bytes[..n] + folds[0].Octets() + written, left)
  }

  /** The whole line with its recorded folds. */
  function Recorded(content: Bytes, folds: seq<FoldPoint>): Bytes {
    Inject(content, folds, 0).0
  }

  lemma {:induction false} InjectStops(bytes: Bytes, folds: seq<FoldPoint>, pos: nat)
    requires folds == [] || Taken(folds[0], pos) > |bytes|
    ensures Inject(bytes, folds, pos) == (bytes, folds)
  {
  }

  lemma {:induction false} InjectTakes(bytes: Bytes, folds: seq<FoldPoint>, pos: nat)
    requires folds != [] && Taken(folds[0], pos) <= |bytes|
    ensures var n := Taken(folds[0], pos); var r := Inject(bytes[n..], folds[1..], pos + n);
      Inject(bytes, folds, pos) == (bytes[..n] + folds[0].Octets() + r.0, r.1)
  {
  }

  lemma {:induction false} Associate(a: Bytes, b: Bytes, c: Bytes, d: Bytes)
    ensures a + b + (c + d) == (a + b + c) + d
    ensures a + (b + c + d) == (a + b) + c + d
    ensures a + (b + (c + d)) == (a + b + c) + d
  {
  }

  lemma {:induction false} InjectHeld(a: Bytes, b: Bytes, folds: seq<FoldPoint>, pos: nat)
    requires folds == [] || Taken(folds[0], pos) > |a|
    ensures Inject(a + b, folds, pos) == (a + Inject(b, folds, pos + |a|).0, Inject(b, folds, pos + |a|).1)
  {
    hide Inject, FoldPoint.Octets;
    if folds == [] || Taken(folds[0], pos) > |a + b| {
      InjectStops(a + b, folds, pos);
      InjectStops(b, folds, pos + |a|);
    } else {
      var n := Taken(folds[0], pos);
      InjectTakes(a + b, folds, pos);
      InjectTakes(b, folds, pos + |a|);
      assert (a + b)[..n] == a + b[..n - |a|];
      assert (a + b)[n..] == b[n - |a|..];
      Associate(a, b[..n - |a|], folds[0].Octets(), Inject(b[n - |a|..], folds[1..], pos + n).0);
    }
  }

  /** A line may be divided into spans anywhere: what is written does not depend on it. */
  lemma {:induction false} InjectAppend(a: Bytes, b: Bytes, folds: seq<FoldPoint>, pos: nat)
    ensures var (w, left) := Inject(a, folds, pos);
      Inject(a + b, folds, pos) == (w + Inject(b, left, pos + |a|).0, Inject(b, left, pos + |a|).1)
    decreases |folds|
  {
    hide Inject, FoldPoint.Octets;
    if folds == [] || Taken(folds[0], pos) > |a| {
      InjectStops(a, folds, pos);
      InjectHeld(a, b, folds, pos);
    } else {
      var n := Taken(folds[0], pos);
      InjectTakes(a, folds, pos);
      InjectTakes(a + b, folds, pos);
      InjectAppend(a[n..], b, folds[1..], pos + n);
      assert (a + b)[..n] == a[..n];
      assert (a + b)[n..] == a[n..] + b;
      var r := Inject(a[n..], folds[1..], pos + n);
      Associate(a[..n], folds[0].Octets(), r.0, Inject(b, r.1, pos + |a|).0);
    }
  }

  // -------------------------------------------------------------------------
  // The reference: which folds stand in front of which octet
  // -------------------------------------------------------------------------

  /** Every fold moved to the running maximum of the offsets up to it. */
  function Raised(folds: seq<FoldPoint>, low: nat): seq<FoldPoint> {
    if folds == [] then []
    else
      var at := if folds[0].offset < low then low else folds[0].offset;
      [folds[0].(offset := at)] + Raised(folds[1..], at)
  }

  /** The octets of the folds standing exactly at p, in the order they were recorded. */
  function FoldsAtPosition(folds: seq<FoldPoint>, p: nat): Bytes {
    if folds == [] then []
    else (if folds[0].offset == p then folds[0].Octets() else []) + FoldsAtPosition(folds[1..], p)
  }

  /** The line, octet by octet from position p, each preceded by the folds standing there. */
  function Interleaved(content: Bytes, folds: seq<FoldPoint>, p: nat): Bytes {
    FoldsAtPosition(folds, p) + if content == [] then [] else [content[0]] + Interleaved(content[1..], folds, p + 1)
  }

  predicate AllPast(folds: seq<FoldPoint>, p: nat) {
    forall i | 0 <= i < |folds| :: folds[i].offset > p
  }

  lemma {:induction false} NonePast(folds: seq<FoldPoint>, p: nat)
    requires AllPast(folds, p)
    ensures FoldsAtPosition(folds, p) == []
  {
    if folds != [] { NonePast(folds[1..], p); }
  }

  lemma {:induction false} RaisedAtLeast(folds: seq<FoldPoint>, low: nat)
    ensures forall i | 0 <= i < |Raised(folds, low)| :: Raised(folds, low)[i].offset >= low
  {
    if folds != [] { RaisedAtLeast(folds[1..], if folds[0].offset < low then low else folds[0].offset); }
  }

  lemma {:induction false} InterleavedSkips(content: Bytes, f: FoldPoint, folds: seq<FoldPoint>, p: nat)
    requires f.offset < p
    ensures Interleaved(content, [f] + folds, p) == Interleaved(content, folds, p)
  {
    hide FoldPoint.Octets;
    assert ([f] + folds)[1..] == folds;
    if content != [] { InterleavedSkips(content[1..], f, folds, p + 1); }
  }

  lemma {:induction false} InterleavedNone(content: Bytes, p: nat)
    ensures Interleaved(content, [], p) == content
  {
    if content != [] { InterleavedNone(content[1..], p + 1); }
  }

  /** Raising does not see a lower bound the first fold is already past. */
  lemma {:induction false} RaisedFrom(folds: seq<FoldPoint>, p: nat, q: nat)
    requires folds != [] && folds[0].offset >= q >= p
    ensures Raised(folds, p) == Raised(folds, q)
  {
  }

  lemma {:induction false} InjectOctet(content: Bytes, folds: seq<FoldPoint>, pos: nat)
    requires content != [] && folds != [] && folds[0].offset > pos
    ensures Inject(content, folds, pos).0 == [content[0]] + Inject(content[1..], folds, pos + 1).0
  {
    hide Inject, FoldPoint.Octets;
    var n := Taken(folds[0], pos);
    if n <= |content| {
      InjectTakes(content, folds, pos);
      InjectTakes(content[1..], folds, pos + 1);
      assert content[..n] == [content[0]] + content[1..][..n - 1];
      assert content[n..] == content[1..][n - 1..];
      Associate([content[0]], content[1..][..n - 1], folds[0].Octets(), Inject(content[n..], folds[1..], pos + n).0);
    } else {
      InjectStops(content, folds, pos);
      InjectStops(content[1..], folds, pos + 1);
    }
  }

  /** The sweep writes what the reference says. */
  lemma {:induction false} InjectIsInterleaved(content: Bytes, folds: seq<FoldPoint>, pos: nat)
    ensures Inject(content, folds, pos).0 == Interleaved(content, Raised(folds, pos), pos)
    decreases |folds|, |content|
  {
    hide Inject, FoldPoint.Octets, FoldsAtPosition;
    if folds == [] {
      InjectStops(content, folds, pos);
      InterleavedNone(content, pos);
    } else if folds[0].offset <= pos {
      hide Interleaved;
      InjectTakes(content, folds, pos);
      assert content[0..] == content && content[..0] == [];
      InjectIsInterleaved(content, folds[1..], pos);
      InterleavedFirst(content, folds[0].(offset := pos), Raised(folds[1..], pos), pos);
      assert folds[0].(offset := pos).Octets() == folds[0].Octets() by { OctetsWithoutOffset(folds[0], pos); }
    } else {
      RaisedAtLeast(folds, folds[0].offset);
      RaisedFrom(folds, pos, folds[0].offset);
      NonePast(Raised(folds, pos), pos);
      if content == [] {
        InjectStops(content, folds, pos);
      } else {
        InjectOctet(content, folds, pos);
        InjectIsInterleaved(content[1..], folds, pos + 1);
        RaisedFrom(folds, pos, pos + 1);
      }
    }
  }

  lemma {:induction false} OctetsWithoutOffset(f: FoldPoint, p: nat)
    ensures f.(offset := p).Octets() == f.Octets()
  {
  }

  lemma {:induction false} InterleavedFirst(content: Bytes, f: FoldPoint, folds: seq<FoldPoint>, p: nat)
    requires f.offset == p
    ensures Interleaved(content, [f] + folds, p) == f.Octets() + Interleaved(content, folds, p)
  {
    assert ([f] + folds)[1..] == folds;
    if content != [] { InterleavedSkips(content[1..], f, folds, p + 1); }
  }

  /** The serializer's insertion is the reference insertion of the running maxima. */
  lemma {:induction false} RecordedIsReference(content: Bytes, folds: seq<FoldPoint>)
    ensures Recorded(content, folds) == Interleaved(content, Raised(folds, 0), 0)
  {
    InjectIsInterleaved(content, folds, 0);
  }

  // -------------------------------------------------------------------------
  // What was read is written back
  // -------------------------------------------------------------------------

  function EndingOctets(e: Option<LineEnding>): Bytes {
    if e.Some? then e.value.Octets() else []
  }

  lemma {:induction false} FoldOctetsRead(s: Bytes, col: nat, e: LineEnding)
    requires TerminatorAt(s) == Some(e) && FoldsAt(s, e)
    ensures var w := |e.Octets()|;
      s == FoldPoint(col, s[w] == HTAB, e).Octets() + s[w + 1..]
  {
  }

  /** The line at s, its folds put back: the octets it was read from. */
  function Restored(s: Bytes, col: nat): Bytes {
    var l := ReadLogical(s, col);
    Inject(l.content, l.folds, col).0 + EndingOctets(l.ending) + l.rest
  }

  lemma {:induction false} RestoredOctet(s: Bytes, col: nat)
    requires s != [] && TerminatorAt(s).None?
    ensures Restored(s, col) == [s[0]] + Restored(s[1..], col + 1)
  {
    hide ReadLogical, Inject, FoldPoint.Octets, TerminatorAt, EndingOctets;
    ReadsOctet(s, col);
    var l, m := ReadLogical(s, col), ReadLogical(s[1..], col + 1);
    ReadLogicalShape(s[1..], col + 1);
    assert l.content[1..] == m.content;
    if m.folds != [] {
      InjectOctet(l.content, l.folds, col);
    } else {
      InjectStops(l.content, l.folds, col);
      InjectStops(m.content, m.folds, col + 1);
    }
    Associate([s[0]], Inject(m.content, m.folds, col + 1).0, EndingOctets(l.ending), l.rest);
  }

  lemma {:induction false} RestoredFold(s: Bytes, col: nat, e: LineEnding)
    requires TerminatorAt(s) == Some(e) && FoldsAt(s, e)
    ensures var w := |e.Octets()|;
      Restored(s, col) == FoldPoint(col, s[w] == HTAB, e).Octets() + Restored(s[w + 1..], col)
  {
    hide ReadLogical, Inject, FoldPoint.Octets, TerminatorAt, EndingOctets;
    FoldOctetsRead(s, col, e);
    var rest := s[|e.Octets()| + 1..];
    ReadsFold(s, col, e);
    var l, m := ReadLogical(s, col), ReadLogical(rest, col);
    assert l.folds[1..] == m.folds;
    assert l.content[0..] == l.content && l.content[..0] == [];
    InjectTakes(l.content, l.folds, col);
    Associate(l.folds[0].Octets(), Inject(m.content, m.folds, col).0, EndingOctets(l.ending), l.rest);
  }

  /** Inserting the folds that were read, at the offsets they were read at, gives the octets back. */
  lemma {:induction false} InjectUndoesReading(s: Bytes, col: nat)
    ensures Restored(s, col) == s
    decreases |s|
  {
    hide Restored, FoldPoint.Octets;
    if s != [] && TerminatorAt(s).None? {
      RestoredOctet(s, col);
      InjectUndoesReading(s[1..], col + 1);
    } else if s != [] && FoldsAt(s, TerminatorAt(s).value) {
      var e := TerminatorAt(s).value;
      RestoredFold(s, col, e);
      FoldOctetsRead(s, col, e);
      InjectUndoesReading(s[|e.Octets()| + 1..], col);
    } else {
      RestoredEnd(s, col);
    }
  }

  lemma {:induction false} RestoredEnd(s: Bytes, col: nat)
    requires EndsHere(s)
    ensures Restored(s, col) == s
  {
    ReadsEnd(s, col);
    InjectStops([], [], col);
  }

  /** Two recordings of one line, the second with every offset held in 32 bits. */
  lemma {:induction false} InjectSaturatedDiffers(content: Bytes, folds: seq<FoldPoint>, held: seq<FoldPoint>, pos: nat)
    requires LineFree(content) && pos <= U32_MAX
    requires |folds| == |held|
    requires forall i | 0 <= i < |folds| ::
      held[i] == folds[i].(offset := if folds[i].offset > U32_MAX then U32_MAX else folds[i].offset)
    requires forall i | 0 <= i < |folds| :: pos <= folds[i].offset <= pos + |content|
    requires forall i, j | 0 <= i < j < |folds| :: folds[i].offset <= folds[j].offset
    ensures Inject(content, folds, pos).0 == Inject(content, held, pos).0
      <==> forall i | 0 <= i < |folds| :: folds[i].offset <= U32_MAX
    decreases |folds|
  {
    hide Inject, FoldPoint.Octets;
    if folds == [] {
      InjectStops(content, folds, pos);
      InjectStops(content, held, pos);
    } else {
      var n, m := Taken(folds[0], pos), Taken(held[0], pos);
      InjectTakes(content, folds, pos);
      InjectTakes(content, held, pos);
      var a, b := Inject(content[n..], folds[1..], pos + n).0, Inject(content[m..], held[1..], pos + m).0;
      if folds[0].offset <= U32_MAX {
        assert held[0] == folds[0];
        InjectSaturatedDiffers(content[n..], folds[1..], held[1..], pos + n);
        SameFront(content[..n] + folds[0].Octets(), a, b);
        assert (forall i | 0 <= i < |folds| :: folds[i].offset <= U32_MAX)
          <==> (forall i | 0 <= i < |folds[1..]| :: folds[1..][i].offset <= U32_MAX);
      } else {
        FoldBreaksRun(content, n, m, folds[0], held[0], a, b);
      }
    }
  }

  lemma {:induction false} FoldBreaksRun(content: Bytes, n: nat, m: nat, f: FoldPoint, g: FoldPoint, a: Bytes, b: Bytes)
    requires m < n <= |content| && LineFree(content)
    ensures content[..n] + f.Octets() + a != content[..m] + g.Octets() + b
  {
    assert (content[..n] + f.Octets() + a)[m] == content[m];
    assert (content[..m] + g.Octets() + b)[m] == g.newline.Octets()[0];
  }

  lemma {:induction false} SameFront(front: Bytes, a: Bytes, b: Bytes)
    ensures front + a == front + b <==> a == b
  {
    if front + a == front + b {
      assert a == (front + a)[|front|..] == (front + b)[|front|..] == b;
    }
  }

  // -------------------------------------------------------------------------
  // What was written reads back
  // -------------------------------------------------------------------------

  /** The folds a reader sees: every one that was reached, at its running maximum. */
  function SeenFolds(content: Bytes, folds: seq<FoldPoint>, pos: nat): seq<FoldPoint>
    decreases |folds|
  {
    if folds == [] || Taken(folds[0], pos) > |content| then []
    else
      var n := Taken(folds[0], pos);
      [folds[0].(offset := pos + n)] + SeenFolds(content[n..], folds[1..], pos + n)
  }

  /** The tail after a line: nothing at all, or a terminator that is not a fold. */
  predicate EndsHere(tail: Bytes) {
    tail == [] || (TerminatorAt(tail).Some? && !FoldsAt(tail, TerminatorAt(tail).value))
  }

  lemma {:induction false} EndsHereMeans(tail: Bytes)
    requires EndsHere(tail)
    ensures tail == [] || (TerminatorAt(tail).Some? && !FoldsAt(tail, TerminatorAt(tail).value))
  {
  }

  function AfterTerminator(tail: Bytes): Bytes
    requires EndsHere(tail)
  {
    if tail == [] then [] else tail[|TerminatorAt(tail).value.Octets()|..]
  }

  lemma {:induction false} FoldOctetsFold(f: FoldPoint, rest: Bytes)
    ensures var s := f.Octets() + rest; var w := |f.newline.Octets()|;
      && TerminatorAt(s) == Some(f.newline) && FoldsAt(s, f.newline)
      && (s[w] == HTAB <==> f.tab) && s[w + 1..] == rest
  {
  }

  /** A run of line content in front of anything is read as that content. */
  lemma {:induction false} ReadsRun(run: Bytes, s: Bytes, col: nat)
    requires LineFree(run)
    ensures var l := ReadLogical(s, col + |run|);
      ReadLogical(run + s, col) == l.(content := run + l.content)
  {
    hide ReadLogical;
    if run == [] {
      assert run + s == s;
      assert [] + ReadLogical(s, col).content == ReadLogical(s, col).content;
    } else {
      ReadsOctet(run + s, col);
      assert (run + s)[1..] == run[1..] + s;
      ReadsRun(run[1..], s, col + 1);
      var l := ReadLogical(s, col + |run|);
      assert [run[0]] + (run[1..] + l.content) == run + l.content;
    }
  }

  /** A run of line content and a fold in front of anything. */
  lemma {:induction false} ReadsRunAndFold(run: Bytes, f: FoldPoint, rest: Bytes, col: nat)
    requires LineFree(run)
    ensures ReadLogical(run + f.Octets() + rest, col)
      == Prepend(run, [f.(offset := col + |run|)], ReadLogical(rest, col + |run|))
  {
    hide ReadLogical, FoldPoint.Octets;
    var s := f.Octets() + rest;
    FoldOctetsFold(f, rest);
    ReadsFold(s, col + |run|, f.newline);
    ReadsRun(run, s, col);
    assert run + f.Octets() + rest == run + s;
  }

  /**
   Reading a line written with its recorded folds gives back its content and those folds, and
   goes on reading whatever comes after it.
   */
  lemma {:induction false} InjectReadsBack(content: Bytes, folds: seq<FoldPoint>, pos: nat, tail: Bytes)
    requires LineFree(content)
    ensures ReadLogical(Inject(content, folds, pos).0 + tail, pos)
      == Prepend(content, SeenFolds(content, folds, pos), ReadLogical(tail, pos + |content|))
    decreases |folds|
  {
    hide ReadLogical, Inject, FoldPoint.Octets;
    var m := ReadLogical(tail, pos + |content|);
    if folds == [] || Taken(folds[0], pos) > |content| {
      InjectStops(content, folds, pos);
      ReadsRun(content, tail, pos);
      NoFoldsInFront(m);
    } else {
      hide Prepend;
      var n := Taken(folds[0], pos);
      var written := Inject(content[n..], folds[1..], pos + n).0;
      InjectReadsBack(content[n..], folds[1..], pos + n, tail);
      ReadsRunAndFold(content[..n], folds[0], written + tail, pos);
      InjectTakes(content, folds, pos);
      Associate(content[..n], folds[0].Octets(), written, tail);
      PrependTwice(content[..n], [folds[0].(offset := pos + n)], content[n..], SeenFolds(content[n..], folds[1..], pos + n), m);
      assert content == content[..n] + content[n..];
    }
  }

  lemma {:induction false} NoFoldsInFront(l: Logical)
    ensures [] + l.folds == l.folds
  {
  }

  lemma {:induction false} PrependTwice(a: Bytes, f: seq<FoldPoint>, b: Bytes, g: seq<FoldPoint>, l: Logical)
    ensures Prepend(a, f, Prepend(b, g, l)) == Prepend(a + b, f + g, l)
  {
    assert a + (b + l.content) == a + b + l.content && f + (g + l.folds) == f + g + l.folds;
  }
}
