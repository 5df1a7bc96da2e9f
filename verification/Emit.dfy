/**
 Writing the tree back out: the line writer, which pushes a line span by span with its folds, and
 the walk of the tree on an explicit stack. Both are proved against value-level definitions.
 */
module Emit {
  import opened Octets
  import opened Syntax
  import opened RecordedFolds
  import opened Refold

  // -------------------------------------------------------------------------
  // What is to be written
  // -------------------------------------------------------------------------

  /** A line without its terminator, from the spans it is pushed in. */
  function BodyOf(spans: seq<Bytes>, layout: LineLayout): Bytes {
    if layout.refold then Joined(Refolded(spans)) else Recorded(Concat(spans), layout.folds)
  }

  function Body(line: Line): Bytes {
    BodyOf(Spans(line), line.Layout())
  }

  /** The terminator a line without one owes as soon as another follows it: CR LF. */
  function OwedOctets(owed: bool): Bytes {
    if owed then [13, 10] else []
  }

  /** The lines, the first one preceded by a terminator the line above it owes. */
  function WrittenFrom(lines: seq<Line>, owed: bool): Bytes {
    if lines == [] then []
    else
      OwedOctets(owed) + Body(lines[0]) + EndingOctets(lines[0].Layout().ending)
      + WrittenFrom(lines[1..], lines[0].Layout().ending.None?)
  }

  function Written(lines: seq<Line>): Bytes {
    WrittenFrom(lines, false)
  }

  /** A line in place: closed by its own terminator, by CR LF if it has none, or, last, left as it is. */
  function Piece(line: Line, last: bool): Bytes {
    Body(line) + EndingOctets(if last then line.Layout().ending else line.Layout().TerminateWith(CANONICAL).ending)
  }

  function Pieces(lines: seq<Line>): Bytes {
    if lines == [] then [] else Piece(lines[0], |lines| == 1) + Pieces(lines[1..])
  }

  /** Every line but the last is closed, by its own terminator where it has one; the last is left alone. */
  lemma {:induction false} WrittenIsPieces(lines: seq<Line>, owed: bool)
    ensures WrittenFrom(lines, owed) == if lines == [] then [] else OwedOctets(owed) + Pieces(lines)
  {
    hide Body;
    if lines != [] {
      var ending := lines[0].Layout().ending;
      WrittenIsPieces(lines[1..], ending.None?);
      assert Pieces(lines) == Piece(lines[0], |lines| == 1) + Pieces(lines[1..]);
      if |lines| == 1 {
        assert Pieces(lines[1..]) == [];
      } else {
        assert EndingOctets(lines[0].Layout().TerminateWith(CANONICAL).ending) == EndingOctets(ending) + OwedOctets(ending.None?);
      }
      AssociatePiece(OwedOctets(owed), Body(lines[0]), EndingOctets(ending), OwedOctets(ending.None?), Pieces(lines[1..]));
    }
  }

  lemma {:induction false} AssociatePiece(a: Bytes, body: Bytes, ending: Bytes, owed: Bytes, rest: Bytes)
    ensures a + body + ending + (owed + rest) == a + ((body + (ending + owed)) + rest)
    ensures a + body + ending + [] == a + ((body + ending) + [])
  {
  }

  /** What closes a line, in octets: CR LF is 13 10. */
  function ClosedBy(ending: Option<LineEnding>, last: bool): Bytes {
    match ending
    case Some(CrLf) => [13, 10]
    case Some(Lf) => [10]
    case Some(Cr) => [13]
    case None => if last then [] else [13, 10]
  }

  function ClosedLines(lines: seq<Line>): Bytes {
    if lines == [] then []
    else Body(lines[0]) + ClosedBy(lines[0].Layout().ending, |lines| == 1) + ClosedLines(lines[1..])
  }

  lemma {:induction false} PieceIs(line: Line, last: bool)
    ensures Piece(line, last) == Body(line) + ClosedBy(line.Layout().ending, last)
  {
    hide Body;
  }

  /** A document's octets are its lines, each closed as it was, or by CR LF where it has to be. */
  lemma {:induction false} WrittenCloses(lines: seq<Line>)
    ensures Pieces(lines) == ClosedLines(lines) && Written(lines) == ClosedLines(lines)
  {
    hide Body, Piece;
    WrittenIsPieces(lines, false);
    if lines != [] {
      PieceIs(lines[0], |lines| == 1);
      WrittenCloses(lines[1..]);
    } else {
      assert Pieces(lines) == [];
    }
  }

  // -------------------------------------------------------------------------
  // The sink and the line writer
  // -------------------------------------------------------------------------

  class Sink {
    var bytes: Bytes

    constructor ()
      ensures bytes == []
    {
      bytes := [];
    }

    method WriteBytes(more: Bytes)
      modifies this
      ensures bytes == old(bytes) + more
    {
      bytes := bytes + more;
    }
  }

  lemma {:induction false} RefoldSpansSnoc(chunks: seq<Bytes>, spans: seq<Bytes>, bytes: Bytes)
    requires Fits(chunks)
    ensures RefoldSpans(chunks, spans + [bytes]) == RefoldSpan(RefoldSpans(chunks, spans), bytes)
    decreases |spans|
  {
    hide RefoldSpan;
    if spans == [] {
      assert [bytes][1..] == [];
    } else {
      assert (spans + [bytes])[1..] == spans[1..] + [bytes];
      RefoldSpansSnoc(RefoldSpan(chunks, spans[0]), spans[1..], bytes);
    }
  }

  class LineWriter {
    const sink: Sink
    const layout: LineLayout

    var pending: seq<FoldPoint>
    var position: nat
    var column: nat

    /** What the sink held before this line, the spans pushed so far, and their physical lines. */
    ghost const before: Bytes
    ghost var pushed: seq<Bytes>
    ghost var chunks: seq<Bytes>

    constructor (sink: Sink, layout: LineLayout)
      ensures this.sink == sink && this.layout == layout && before == sink.bytes
      ensures pushed == [] && Valid()
    {
      this.sink, this.layout := sink, layout;
      pending, position, column := layout.folds, 0, 0;
      before, pushed, chunks := sink.bytes, [], [[]];
      new;
      assert Concat([[]]) == [] by { var one: seq<Bytes> := [[]]; assert one[1..] == []; }
    }

    /** Physical lines in progress agree with the two counters and with the sink. */
    ghost predicate Folding(content: Bytes)
      reads this, sink
    {
      && Fits(chunks) && Concat(chunks) == content
      && sink.bytes == before + Joined(chunks)
      && position == |content| && column == |Last(chunks)|
    }

    ghost predicate Valid()
      reads this, sink
    {
      if layout.refold then
        chunks == Refolded(pushed) && Folding(Concat(pushed))
      else
        && position == |Concat(pushed)|
        && (if pushed == [] then sink.bytes == before && pending == layout.folds
            else (sink.bytes == before + Recorded(Concat(pushed), layout.folds) && pending == Inject(Concat(pushed), layout.folds, 0).1))
    }

    /** Take the next span, laying it out the way the line's layout asks. */
    method Push(bytes: Bytes)
      requires Valid()
      modifies this, sink
      ensures Valid() && pushed == old(pushed) + [bytes]
    {
      hide Inject, RefoldRest, Joined;
      ConcatSnoc(pushed, bytes);
      if layout.refold {
        RefoldSpansSnoc([[]], pushed, bytes);
        PushRefolded(bytes, Concat(pushed));
      } else {
        if pushed == [] {
          assert Concat(pushed) + bytes == bytes;
        } else {
          InjectAppend(Concat(pushed), bytes, layout.folds, 0);
        }
        PushRecorded(bytes);
      }
      pushed := pushed + [bytes];
    }

    /** The preserving branch: folds are re-inserted at their offsets while they fall inside this span. */
    method PushRecorded(bytes: Bytes)
      modifies `pending, `position, `column, sink
      ensures sink.bytes == old(sink.bytes) + Inject(bytes, old(pending), old(position)).0
      ensures pending == Inject(bytes, old(pending), old(position)).1
      ensures position == old(position) + |bytes|
    {
      hide Inject, FoldPoint.Octets;
      var rest := bytes;
      while pending != []
        invariant position + |rest| == old(position) + |bytes|
        invariant sink.bytes + Inject(rest, pending, position).0 == old(sink.bytes) + Inject(bytes, old(pending), old(position)).0
        invariant Inject(rest, pending, position).1 == Inject(bytes, old(pending), old(position)).1
        decreases |pending|
      {
        var fold := pending[0];
        var taken := if fold.offset <= position then 0 else fold.offset - position;
        if taken > |rest| { break; }
        InjectTakes(rest, pending, position);
        ghost var later := Inject(rest[taken..], pending[1..], position + taken).0;
        Associate(sink.bytes, rest[..taken] + fold.Octets(), later, []);
        Associate(sink.bytes, rest[..taken], fold.Octets(), []);
        Emit(rest[..taken]);
        pending := pending[1..];
        BreakRecorded(fold);
        rest := rest[taken..];
      }
      InjectStops(rest, pending, position);
      Emit(rest);
    }

    method BreakRecorded(fold: FoldPoint)
      modifies `column, sink
      ensures sink.bytes == old(sink.bytes) + fold.Octets()
    {
      BreakLine(fold.newline, if fold.tab then HTAB else SP);
    }

    /** The authoring branch: no physical line grows past the fold width. */
    method PushRefolded(bytes: Bytes, ghost content: Bytes)
      requires Folding(content)
      modifies `position, `column, `chunks, sink
      ensures chunks == RefoldSpan(old(chunks), bytes) && Folding(content + bytes)
    {
      hide RefoldRest, Joined, Concat, BackOff, FoldAt, Extend, Last, Fits;
      if position == 0 && |bytes| > 0 && IsFoldWhitespace(bytes[0]) {
        Continue(content);
      }
      assert chunks == OpenFold(old(chunks), bytes);
      var rest := bytes;
      ghost var soFar := content;
      while rest != []
        invariant soFar + rest == content + bytes && Folding(soFar)
        invariant RefoldRest(chunks, rest) == RefoldSpan(old(chunks), bytes)
        decreases |rest|, column
      {
        RefoldRestStep(chunks, rest);
        var room := REFOLD_WIDTH - column;
        if |rest| <= room {
          Put(rest, soFar);
          return;
        }
        var boundary := FindFold(rest, room);
        var cut := if boundary.Some? then boundary.value else if column > 0 then 0 else room;
        assert cut == CutOf(chunks, rest);
        Put(rest[..cut], soFar);
        soFar := soFar + rest[..cut];
        rest := rest[cut..];
        Continue(soFar);
      }
      RefoldNothing(chunks);
      assert soFar + [] == soFar;
    }

    /** Octets that fit, onto the current physical line. */
    method Put(bytes: Bytes, ghost content: Bytes)
      requires Folding(content) && column + |bytes| <= REFOLD_WIDTH
      modifies `position, `column, `chunks, sink
      ensures chunks == Extend(old(chunks), bytes) && Folding(content + bytes)
    {
      JoinedExtend(chunks, bytes);
      Emit(bytes);
      chunks := Extend(chunks, bytes);
    }

    /** A fold at the canonical terminator: the physical line ends and another begins. */
    method Continue(ghost content: Bytes)
      requires Folding(content)
      modifies `column, `chunks, sink
      ensures chunks == old(chunks) + [[]] && Folding(content) && column == 0
    {
      JoinedBreak(chunks);
      BreakLine(CANONICAL, SP);
      chunks := chunks + [[]];
    }

    /** Output and both counters move together. */
    method Emit(bytes: Bytes)
      modifies `position, `column, sink
      ensures sink.bytes == old(sink.bytes) + bytes
      ensures position == old(position) + |bytes| && column == old(column) + |bytes|
    {
      if bytes == [] {
        return;
      }
      sink.WriteBytes(bytes);
      position := position + |bytes|;
      column := column + |bytes|;
    }

    /** A fold goes out uncounted: a reader takes its octets away again. */
    method BreakLine(newline: LineEnding, whitespace: octet)
      modifies `column, sink
      ensures sink.bytes == old(sink.bytes) + (newline.Octets() + [whitespace]) && column == 0
    {
      sink.WriteBytes(newline.Octets());
      sink.WriteBytes([whitespace]);
      column := 0;
    }

    /** Close the line; a layout that has no ending closes it with nothing. */
    method Finish()
      requires Valid() && pushed != []
      modifies sink
      ensures sink.bytes == before + BodyOf(pushed, layout) + EndingOctets(layout.ending)
    {
      if layout.ending.Some? {
        sink.WriteBytes(layout.ending.value.Octets());
      }
    }
  }

  lemma {:induction false} RefoldRestStep(chunks: seq<Bytes>, rest: Bytes)
    requires Fits(chunks)
    ensures |rest| <= REFOLD_WIDTH - |Last(chunks)| ==> RefoldRest(chunks, rest) == Extend(chunks, rest)
    ensures |rest| > REFOLD_WIDTH - |Last(chunks)| ==>
      RefoldRest(chunks, rest) == RefoldRest(Extend(chunks, rest[..CutOf(chunks, rest)]) + [[]], rest[CutOf(chunks, rest)..])
  {
  }

  lemma {:induction false} RefoldNothing(chunks: seq<Bytes>)
    requires Fits(chunks)
    ensures RefoldRest(chunks, []) == chunks
  {
    assert Last(chunks) + [] == Last(chunks);
  }

  /** The last position a canonical fold may cut at, searched from the allowance backwards. */
  method FindFold(bytes: Bytes, room: nat) returns (r: Option<nat>)
    ensures r == FoldAt(bytes, room)
    ensures IsLastBoundary(bytes, room, r)
  {
    FoldAtFinds(bytes, room);
    var floor := if room < MAX_CONTINUATION_OCTETS then 0 else room - MAX_CONTINUATION_OCTETS;
    var cut := room;
    while true
      invariant floor <= cut <= room && FoldAt(bytes, room) == BackOff(bytes, cut, floor)
      decreases cut
    {
      if cut == 0 { return None; }
      if cut >= |bytes| || !IsContinuationOctet(bytes[cut]) { return Some(cut); }
      if cut == floor { return None; }
      cut := cut - 1;
    }
  }

  // -------------------------------------------------------------------------
  // One line
  // -------------------------------------------------------------------------

  method WriteBoundary(boundary: Boundary, sink: Sink)
    modifies sink
    ensures sink.bytes == old(sink.bytes) + Body(BoundaryLine(boundary)) + EndingOctets(boundary.layout.ending)
  {
    hide LineWriter.Valid, BodyOf;
    var line := new LineWriter(sink, boundary.layout);
    line.Push(boundary.keyword);
    if boundary.layout.hasSeparator { line.Push([COLON]); }
    line.Push(boundary.name);
    assert line.pushed == Spans(BoundaryLine(boundary));
    line.Finish();
  }

  lemma {:induction false} ParameterSpansSnoc(ps: seq<Parameter>, p: Parameter)
    ensures [SEMICOLON] in ParameterSpans(p)
    ensures ParameterListSpans(ps + [p]) == ParameterListSpans(ps) + ParameterSpans(p)
  {
    hide ParameterListSpans;
    assert ParameterSpans(p)[0] == [SEMICOLON];
    ParameterListSpansAppend(ps, [p]);
    assert ParameterListSpans([p]) == ParameterSpans(p) by { OneParameterSpans(p); }
  }

  lemma {:induction false} OneParameterSpans(p: Parameter)
    ensures ParameterListSpans([p]) == ParameterSpans(p)
  {
    assert [p][1..] == [] && ParameterListSpans([]) == [];
  }

  /** Push one parameter the way its producer wrote it. */
  method PushParameter(line: LineWriter, p: Parameter)
    requires line.Valid()
    modifies line, line.sink
    ensures line.Valid() && line.pushed == old(line.pushed) + ParameterSpans(p)
  {
    hide LineWriter.Valid;
    line.Push([SEMICOLON]);
    line.Push(p.name);
    if p.hasValue {
      line.Push([EQUALS]);
      line.Push(p.value);
    }
  }

  method WriteProperty(property: Property, sink: Sink)
    modifies sink
    ensures sink.bytes == old(sink.bytes) + Body(PropertyLine(property)) + EndingOctets(property.layout.ending)
  {
    hide LineWriter.Valid, BodyOf, ParameterListSpans;
    var line := new LineWriter(sink, property.layout);
    line.Push(property.name);
    assert ParameterListSpans([]) == [] by { NoParameters(); }
    for i := 0 to |property.parameters|
      invariant line.Valid() && line.sink == sink && fresh(line) && line.layout == property.layout && line.before == old(sink.bytes)
      invariant line.pushed == [property.name] + ParameterListSpans(property.parameters[..i])
    {
      PushParameter(line, property.parameters[i]);
      ParameterSpansSnoc(property.parameters[..i], property.parameters[i]);
      assert property.parameters[..i + 1] == property.parameters[..i] + [property.parameters[i]];
    }
    assert property.parameters[..|property.parameters|] == property.parameters;
    if property.layout.hasSeparator { line.Push([COLON]); }
    line.Push(property.value);
    assert line.pushed == Spans(PropertyLine(property));
    line.Finish();
  }

  lemma {:induction false} NoParameters()
    ensures ParameterListSpans([]) == []
  {
  }

  /** The debt of the previous line is paid first, and whether this one leaves a debt is answered. */
  method WriteLine(line: Line, sink: Sink, owed: bool) returns (owes: bool)
    modifies sink
    ensures sink.bytes == old(sink.bytes) + (OwedOctets(owed) + Body(line) + EndingOctets(line.Layout().ending))
    ensures owes == line.Layout().ending.None?
  {
    hide Body;
    if owed { sink.WriteBytes(CANONICAL.Octets()); }
    match line {
      case PropertyLine(p) => WriteProperty(p, sink);
      case BoundaryLine(b) => WriteBoundary(b, sink);
    }
    owes := line.Layout().ending.None?;
  }

  // -------------------------------------------------------------------------
  // The walk
  // -------------------------------------------------------------------------

  /** A component whose BEGIN is written: what its parent still holds, and its own END. */
  datatype OpenEntry = OpenEntry(rest: seq<Item>, end: Option<Boundary>)

  /** The lines the open components still owe, innermost first. */
  ghost function StackLines(open: seq<OpenEntry>): seq<Line> {
    if open == [] then []
    else
      var last := open[|open| - 1];
      EndLines(last.end) + LinesOf(last.rest) + StackLines(open[..|open| - 1])
  }

  lemma {:induction false} StackLinesPush(open: seq<OpenEntry>, entry: OpenEntry)
    ensures StackLines(open + [entry]) == EndLines(entry.end) + LinesOf(entry.rest) + StackLines(open)
  {
    hide LinesOf;
    assert (open + [entry])[..|open|] == open;
  }

  lemma {:induction false} WrittenFront(written: Bytes, line: Line, lines: seq<Line>, owed: bool)
    ensures var octets := OwedOctets(owed) + Body(line) + EndingOctets(line.Layout().ending);
      written + WrittenFrom([line] + lines, owed) == written + octets + WrittenFrom(lines, line.Layout().ending.None?)
  {
    hide Body;
    assert ([line] + lines)[1..] == lines;
  }

  /** The explicit stack writes what the recursive traversal lists, whatever the tree. */
  method WriteItems(items: seq<Item>, sink: Sink)
    modifies sink
    ensures sink.bytes == old(sink.bytes) + Written(LinesOf(items))
  {
    hide LinesOf, StackLines, WrittenFrom, ItemLines;
    var open: seq<OpenEntry> := [];
    var cursor := items;
    var owed := false;
    ghost var ahead := LinesOf(items);
    assert StackLines([]) == [] by { NothingStacked(); }
    while true
      invariant ahead == LinesOf(cursor) + StackLines(open)
      invariant sink.bytes + WrittenFrom(ahead, owed) == old(sink.bytes) + Written(LinesOf(items))
      decreases 2 * |ahead| + |open|
    {
      if cursor == [] {
        assert LinesOf(cursor) == [] by { NoItems(); }
        if open == [] {
          assert ahead == [] && WrittenFrom([], owed) == [] by { NothingStacked(); }
          return;
        }
        var finished := open[|open| - 1];
        assert open == open[..|open| - 1] + [finished];
        StackLinesPush(open[..|open| - 1], finished);
        open := open[..|open| - 1];
        cursor := finished.rest;
        if finished.end.Some? {
          ghost var line := BoundaryLine(finished.end.value);
          ghost var next := LinesOf(cursor) + StackLines(open);
          assert ahead == [line] + next;
          WrittenFront(sink.bytes, line, next, owed);
          ahead := next;
          owed := WriteLine(BoundaryLine(finished.end.value), sink, owed);
        } else {
          assert ahead == LinesOf(cursor) + StackLines(open);
        }
      } else {
        var entry := cursor[0];
        LinesOfFront(cursor);
        cursor := cursor[1..];
        match entry {
          case PropertyItem(property) =>
            assert ItemLines(entry) == [PropertyLine(property)] by { PropertyItemLines(property); }
            ghost var next := LinesOf(cursor) + StackLines(open);
            assert ahead == [PropertyLine(property)] + next;
            WrittenFront(sink.bytes, PropertyLine(property), next, owed);
            owed := WriteLine(PropertyLine(property), sink, owed);
            ahead := next;
          case ComponentItem(component) =>
            ComponentItemLines(component);
            StackLinesPush(open, OpenEntry(cursor, component.end));
            ghost var next := LinesOf(component.items) + (EndLines(component.end) + LinesOf(cursor) + StackLines(open));
            assert ahead == [BoundaryLine(component.begin)] + next;
            WrittenFront(sink.bytes, BoundaryLine(component.begin), next, owed);
            owed := WriteLine(BoundaryLine(component.begin), sink, owed);
            open := open + [OpenEntry(cursor, component.end)];
            cursor := component.items;
            ahead := next;
        }
      }
    }
  }

  lemma {:induction false} NothingStacked()
    ensures StackLines([]) == []
    ensures forall owed :: WrittenFrom([], owed) == []
  {
  }

  lemma {:induction false} NoItems()
    ensures LinesOf([]) == []
  {
  }

  lemma {:induction false} PropertyItemLines(p: Property)
    ensures ItemLines(PropertyItem(p)) == [PropertyLine(p)]
  {
  }

  lemma {:induction false} ComponentItemLines(c: Component)
    ensures ItemLines(ComponentItem(c)) == [BoundaryLine(c.begin)] + LinesOf(c.items) + EndLines(c.end)
  {
  }

  /** Serialization into fresh memory. */
  method ToBytes(items: seq<Item>) returns (bytes: Bytes)
    ensures bytes == Written(LinesOf(items)) && bytes == ClosedLines(LinesOf(items))
  {
    hide Written, LinesOf, ClosedLines;
    var sink := new Sink();
    WriteItems(items, sink);
    WrittenCloses(LinesOf(items));
    bytes := sink.bytes;
  }
}
