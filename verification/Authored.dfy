/**
 What this crate writes on its own account, in octets: CR LF is 13 10, and a fold is CR LF and one
 SP, 13 10 32.
 */
module Authored {
  import opened Octets
  import opened Syntax
  import opened Grammar
  import opened Refold
  import opened Emit
  import opened RoundTrip
  import opened Layout
  import opened Documents
  import opened Mutate
  import opened Writes

  /**
   Wherever a line stands in a file, its own octets are its body and what closes it: its own
   terminator, or CR LF when it has none and is not the last.
   */
  lemma {:induction false} LineIsClosed(x: seq<Property>, p: Property, y: seq<Property>)
    ensures Lay(x + [p] + y) == LayOpen(x) + (Body(PropertyLine(p)) + ClosedBy(p.layout.ending, y == [])) + Lay(y)
    ensures LayOpen([p]) == Body(PropertyLine(p)) + ClosedBy(p.layout.ending, false)
  {
    hide Body, Lay, Piece;
    LayAround(x, p, y);
    PieceIs(PropertyLine(p), y == []);
    PieceIs(PropertyLine(p), false);
    assert LayOpen([p][1..]) == [];
  }

  /** A line laid out by this crate: its octets on physical lines joined by CR LF SP. */
  predicate IsFolded(body: Bytes, content: Bytes, chunks: seq<Bytes>) {
    && chunks != [] && Concat(chunks) == content
    && (forall i | 0 <= i < |chunks| :: |chunks[i]| <= 74)
    && body == chunks[0] + Folds(chunks[1..])
  }

  function Folds(chunks: seq<Bytes>): Bytes {
    if chunks == [] then [] else [13, 10, 32] + chunks[0] + Folds(chunks[1..])
  }

  lemma {:induction false} ContinuationsAreFolds(chunks: seq<Bytes>)
    ensures Continuations(chunks) == Folds(chunks)
  {
    if chunks != [] { ContinuationsAreFolds(chunks[1..]); }
  }

  lemma {:induction false} AuthoredBody(line: Line)
    requires line.Layout().refold
    ensures IsFolded(Body(line), Content(line), Refolded(Spans(line)))
  {
    hide Spans, Refolded;
    RefoldedShape(Spans(line));
    ContinuationsAreFolds(Refolded(Spans(line))[1..]);
  }

  ghost predicate IsAuthored(piece: Bytes, content: Bytes, closing: Bytes) {
    exists chunks, body :: IsFolded(body, content, chunks) && piece == body + closing
  }

  lemma {:induction false} AuthoredPiece(line: Line, last: bool)
    requires line.Layout().refold
    ensures IsAuthored(Piece(line, last), Content(line), ClosedBy(line.Layout().ending, last))
  {
    hide Body, IsFolded, Content, Spans;
    AuthoredBody(line);
    PieceIs(line, last);
  }

  /** A property's line in octets: 59 before each parameter, 61 before its value, 58 before the property's. */
  function LineOctets(name: Bytes, parameters: seq<Parameter>, value: Bytes): Bytes {
    name + ParametersOctets(parameters) + [58] + value
  }

  function ParametersOctets(ps: seq<Parameter>): Bytes {
    if ps == [] then []
    else [59] + ps[0].name + (if ps[0].hasValue then [61] + ps[0].value else []) + ParametersOctets(ps[1..])
  }

  lemma {:induction false} ParametersAre(ps: seq<Parameter>)
    ensures Concat(ParameterListSpans(ps)) == ParametersOctets(ps)
  {
    if ps != [] {
      ParametersAre(ps[1..]);
      ParameterOctetsAreSpans(ps[0]);
      ConcatAppend(ParameterSpans(ps[0]), ParameterListSpans(ps[1..]));
    }
  }

  lemma {:induction false} SeparatedContent(p: Property)
    requires p.layout.hasSeparator
    ensures Content(PropertyLine(p)) == LineOctets(p.name, p.parameters, p.value)
  {
    hide ParameterListSpans, ParametersOctets;
    ContentAssembles(p);
    ParametersAre(p.parameters);
    assert Concat([[COLON]]) == [58];
  }

  /** A created property is the line of its parts and ends in CR LF, last or not. */
  lemma {:induction false} CreatedPropertyEnds(name: Bytes, parameters: seq<Parameter>, value: Bytes, last: bool)
    ensures IsAuthored(Piece(PropertyLine(Created(name, parameters, value)), last), LineOctets(name, parameters, value), [13, 10])
  {
    hide Piece, Content, IsAuthored, LineOctets;
    AuthoredPiece(PropertyLine(Created(name, parameters, value)), last);
    SeparatedContent(Created(name, parameters, value));
  }

  lemma {:induction false} BoundaryContent(b: Boundary)
    requires b.layout.hasSeparator
    ensures Content(BoundaryLine(b)) == b.keyword + ([58] + b.name)
  {
    var spans: seq<Bytes> := [b.keyword, [COLON], b.name];
    assert Spans(BoundaryLine(b)) == spans;
    ConcatPair([COLON], b.name);
    assert spans[1..] == [[COLON], b.name];
  }

  /** A created component is BEGIN: and its name, its entries, END: and its name, both lines ending in CR LF. */
  lemma {:induction false} CreatedComponentEnds(name: Bytes, items: seq<Item>, last: bool)
    ensures var c := CreatedComponent(name, items);
      && c.items == items && c.end.Some?
      && IsAuthored(Piece(BoundaryLine(c.begin), last), [66, 69, 71, 73, 78, 58] + name, [13, 10])
      && IsAuthored(Piece(BoundaryLine(c.end.value), last), [69, 78, 68, 58] + name, [13, 10])
  {
    hide Piece, Content, IsAuthored;
    var c := CreatedComponent(name, items);
    AuthoredPiece(BoundaryLine(c.begin), last);
    AuthoredPiece(BoundaryLine(c.end.value), last);
    BoundaryContent(c.begin);
    BoundaryContent(c.end.value);
    assert [66, 69, 71, 73, 78] + ([58] + name) == [66, 69, 71, 73, 78, 58] + name;
    assert [69, 78, 68] + ([58] + name) == [69, 78, 68, 58] + name;
  }

  /** An added line is what was handed over and ends as that did, or in CR LF where it had no terminator. */
  lemma {:induction false} AddedLineEnds(line: ParsedLine, last: bool)
    ensures IsAuthored(Piece(PropertyLine(NewProperty(line)), last), LineOctets(line.name, line.parameters, line.value), ClosedBy(line.ending, false))
  {
    hide Piece, Content, IsAuthored, LineOctets;
    AuthoredPiece(PropertyLine(NewProperty(line)), last);
    SeparatedContent(NewProperty(line));
  }

  /** The line a rewrite puts in the place of p: the parts it was given, and p's own for the rest. */
  function RewrittenOctets(write: Rewrite, p: Property): Bytes {
    match write
    case WholeLine(line) => LineOctets(line.name, line.parameters, line.value)
    case Parameters(edits) => LineOctets(p.name, EditedAll(p.parameters, edits), p.value)
    case Value(bytes) => LineOctets(p.name, p.parameters, bytes)
    case Coupled(edits, bytes) => LineOctets(p.name, EditedAll(p.parameters, edits), bytes)
  }

  /** A rewritten line is folded anew and keeps the terminator it had. */
  lemma {:induction false} RewrittenLineEnds(write: Rewrite, p: Property, last: bool)
    ensures IsAuthored(Piece(PropertyLine(write.Of(p)), last), RewrittenOctets(write, p), ClosedBy(p.layout.ending, last))
  {
    hide Piece, Content, IsAuthored, LineOctets, EditedAll;
    AuthoredPiece(PropertyLine(write.Of(p)), last);
    SeparatedContent(write.Of(p));
  }

  /** Added below a last line that had no terminator, a line comes after the CR LF that closes that one. */
  lemma {:induction false} AdditionAtTheEnd(doc: seq<Item>, path: seq<nat>, line: ParsedLine)
    requires Reach(doc, path).Some?
    ensures var at := InsertionPoint(Reach(doc, path).value.items);
      var above := AboveEntry(doc, path, at);
      BelowEntry(doc, path, at) == [] ==>
        && above != []
        && Serialized(Put(doc, path, Inserted(Reach(doc, path).value, line)))
          == Serialized(doc) + (if above[|above| - 1].layout.ending.None? then [13, 10] else [])
             + (Body(PropertyLine(NewProperty(line))) + ClosedBy(line.ending, false))
  {
    hide Reach, AboveEntry, BelowEntry, Put, Inserted, Serialized, LayOpen, Piece, Body, Lay;
    AdditionIsLocal(doc, path, line);
    PieceIs(PropertyLine(NewProperty(line)), false);
    LayNothing();
  }
}
