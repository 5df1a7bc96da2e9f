/**
 The two round trips of the tree: writing what was read gives the input back, and reading what
 was written gives the lines back.
 */
module RoundTrip {
  import opened Octets
  import opened Budget
  import opened Syntax
  import opened Grammar
  import opened HeaderMachine
  import opened Lexer
  import opened RecordedFolds
  import opened Refold
  import opened Nesting
  import opened Ledger
  import opened Parse
  import opened Emit

  // -------------------------------------------------------------------------
  // Lines as properties
  // -------------------------------------------------------------------------

  function PropertyLines(ps: seq<Property>): (r: seq<Line>)
    ensures |r| == |ps|
  {
    if ps == [] then [] else [PropertyLine(ps[0])] + PropertyLines(ps[1..])
  }

  /** The octets of a list of lines, each in place. */
  function Lay(ps: seq<Property>): Bytes {
    Pieces(PropertyLines(ps))
  }

  function HeaderOf(p: Property): Header {
    Header(p.name, p.parameters, p.layout.hasSeparator, p.value)
  }

  function LineContent(p: Property): Bytes {
    Content(PropertyLine(p))
  }

  lemma {:induction false} ContentAssembles(p: Property)
    ensures LineContent(p) == Assemble(HeaderOf(p))
  {
    hide ParameterListSpans, SeparatorSpans, Concat;
    ConcatFour(p.name, ParameterListSpans(p.parameters), SeparatorSpans(p.layout.hasSeparator), p.value);
  }

  lemma {:induction false} ConcatFour(name: Bytes, parameters: seq<Bytes>, separator: seq<Bytes>, value: Bytes)
    ensures Concat([name] + parameters + separator + [value]) == name + (Concat(parameters) + Concat(separator) + value)
  {
    hide Concat;
    ConcatSnoc([name] + parameters + separator, value);
    ConcatAppend([name] + parameters, separator);
    ConcatAppend([name], parameters);
    OneRun(name);
  }

  lemma {:induction false} OneRun(a: Bytes)
    ensures Concat([a]) == a
  {
    assert [a][1..] == [];
  }

  lemma {:induction false} SameBody(line: Line)
    ensures Body(PropertyLine(AsProperty(line))) == Body(line)
    ensures PropertyLine(AsProperty(line)).Layout() == line.Layout()
  {
    hide BodyOf, Spans;
    AsPropertyKeepsSpans(line);
  }

  /** A boundary is written like the property it also is. */
  lemma {:induction false} PiecesOfProperties(lines: seq<Line>)
    ensures Lay(AsProperties(lines)) == Pieces(lines)
  {
    hide Body;
    if lines != [] {
      SameBody(lines[0]);
      PiecesOfProperties(lines[1..]);
      var ps := AsProperties(lines);
      assert ps[0] == AsProperty(lines[0]) && ps[1..] == AsProperties(lines[1..]);
      AsPropertiesLength(lines);
      assert PropertyLines(ps)[1..] == PropertyLines(ps[1..]);
    }
  }

  lemma {:induction false} AsPropertiesLength(lines: seq<Line>)
    ensures |AsProperties(lines)| == |lines|
  {
    if lines != [] { AsPropertiesLength(lines[1..]); }
  }

  lemma {:induction false} LayFront(ps: seq<Property>)
    requires ps != []
    ensures Lay(ps) == Piece(PropertyLine(ps[0]), |ps| == 1) + Lay(ps[1..])
  {
    hide Piece;
    assert PropertyLines(ps)[1..] == PropertyLines(ps[1..]);
  }

  // -------------------------------------------------------------------------
  // Serialize after parse
  // -------------------------------------------------------------------------

  /** Every fold of the line sits where 32 bits can say. */
  predicate Fits32(l: Logical) {
    forall i | 0 <= i < |l.folds| :: l.folds[i].offset <= U32_MAX
  }

  predicate Addressable(s: Bytes)
    decreases |s|
  {
    s == [] || (Fits32(ReadLogical(s, 0)) && Addressable(ReadLogical(s, 0).rest))
  }

  lemma {:induction false} InjectLength(content: Bytes, folds: seq<FoldPoint>, pos: nat)
    requires forall i | 0 <= i < |folds| :: folds[i].offset <= pos + |content|
    ensures |Inject(content, folds, pos).0| == |content| + OctetCount(folds)
    decreases |folds|
  {
    hide Inject, FoldPoint.Octets;
    if folds == [] {
      InjectStops(content, folds, pos);
    } else {
      var n := Taken(folds[0], pos);
      InjectTakes(content, folds, pos);
      InjectLength(content[n..], folds[1..], pos + n);
    }
  }

  lemma {:induction false} StoredContent(l: Logical)
    ensures LineContent(StoredLine(l)) == l.content
  {
    hide Split, Assemble, Content;
    ContentAssembles(StoredLine(l));
    AssembleSplit(l.content);
    assert HeaderOf(StoredLine(l)) == Split(l.content);
  }

  /** One stored line: its body has the length it was read at, and is it unless a fold fell out of reach. */
  lemma {:induction false} StoredBody(s: Bytes)
    ensures var l := ReadLogical(s, 0);
      var body := Body(PropertyLine(StoredLine(l)));
      |body| == |Recorded(l.content, l.folds)| && (body == Recorded(l.content, l.folds) <==> Fits32(l))
  {
    hide ReadLogical, Inject, Split, Spans, Concat;
    var l := ReadLogical(s, 0);
    ReadLogicalShape(s, 0);
    StoredContent(l);
    InjectLength(l.content, l.folds, 0);
    InjectLength(l.content, SaturateFolds(l.folds), 0);
    SaturatedCount(l.folds);
    InjectSaturatedDiffers(l.content, l.folds, SaturateFolds(l.folds), 0);
  }

  lemma {:induction false} SameParts(a: Bytes, b: Bytes, e: Bytes, x: Bytes, y: Bytes)
    requires |a| == |b|
    ensures a + e + x == b + e + y <==> a == b && x == y
  {
    if a + e + x == b + e + y {
      assert a == (a + e + x)[..|a|] == (b + e + y)[..|a|] == b;
      assert x == (a + e + x)[|a + e|..] == (b + e + y)[|a + e|..] == y;
    }
  }

  /** The lines of an input, laid out again, are as long as the input and are it unless a fold fell out of reach. */
  lemma {:induction false} LayStored(s: Bytes)
    ensures |Lay(StoredLines(s))| == |s|
    ensures Lay(StoredLines(s)) == s <==> Addressable(s)
    decreases |s|
  {
    hide ReadLogical, Body, Inject, StoredLine, Recorded, Lay, EndingOctets;
    if s == [] {
      LayNothing();
    } else {
      var l := ReadLogical(s, 0);
      StoredBody(s);
      LayStored(l.rest);
      InjectUndoesReading(s, 0);
      assert s == Recorded(l.content, l.folds) + EndingOctets(l.ending) + l.rest by { RestoredIs(s); }
      LayFront(StoredLines(s));
      assert StoredLines(s)[1..] == StoredLines(l.rest);
      ReadLogicalShape(s, 0);
      StoredEnding(s);
      SameParts(Body(PropertyLine(StoredLine(l))), Recorded(l.content, l.folds), EndingOctets(l.ending), Lay(StoredLines(l.rest)), l.rest);
    }
  }

  lemma {:induction false} LayNothing()
    ensures Lay([]) == []
  {
  }

  lemma {:induction false} RestoredIs(s: Bytes)
    ensures Restored(s, 0) == Recorded(ReadLogical(s, 0).content, ReadLogical(s, 0).folds)
      + EndingOctets(ReadLogical(s, 0).ending) + ReadLogical(s, 0).rest
  {
  }

  /** A stored line is laid out with the terminator it was read with: only the last may have none. */
  lemma {:induction false} StoredEnding(s: Bytes)
    requires s != []
    ensures var p := StoredLine(ReadLogical(s, 0));
      Piece(PropertyLine(p), |StoredLines(s)| == 1) == Body(PropertyLine(p)) + EndingOctets(ReadLogical(s, 0).ending)
  {
    hide ReadLogical, Body, Split;
    ReadLogicalShape(s, 0);
    if ReadLogical(s, 0).ending.None? {
      assert StoredLines(s) == [StoredLine(ReadLogical(s, 0))];
    }
  }

  /**
   Serializing what was parsed gives back the input, octet for octet, exactly when no fold sits
   past what a 32-bit offset can hold.
   */
  lemma {:induction false} RoundTripIff(input: Bytes)
    ensures Written(LinesOf(Build(StoredLines(input)))) == input <==> Addressable(input)
  {
    hide LinesOf, Build, Pieces, StoredLines, Addressable, Lay, AsProperties, PropertyLines;
    var lines := LinesOf(Build(StoredLines(input)));
    BuildKeepsLines(StoredLines(input));
    WrittenIsPieces(lines, false);
    PiecesOfProperties(lines);
    LayStored(input);
    if lines == [] { assert Pieces(lines) == [] by { NoPieces(); } }
  }

  lemma {:induction false} NoPieces()
    ensures Pieces([]) == []
  {
  }

  lemma {:induction false} ShortIsAddressable(s: Bytes)
    requires |s| <= U32_MAX
    ensures Addressable(s)
    decreases |s|
  {
    hide ReadLogical;
    if s != [] {
      var l := ReadLogical(s, 0);
      ReadLogicalShape(s, 0);
      ContentShorter(s, 0);
      ShortIsAddressable(l.rest);
    }
  }

  lemma {:induction false} ContentShorter(s: Bytes, col: nat)
    ensures |ReadLogical(s, col).content| + |ReadLogical(s, col).rest| <= |s|
    decreases |s|
  {
    hide ReadLogical;
    if s != [] && TerminatorAt(s).None? {
      ReadsOctet(s, col);
      ContentShorter(s[1..], col + 1);
    } else if s != [] && FoldsAt(s, TerminatorAt(s).value) {
      ReadsFold(s, col, TerminatorAt(s).value);
      ContentShorter(s[|TerminatorAt(s).value.Octets()| + 1..], col);
    } else {
      ReadsEnd(s, col);
    }
  }

  /** Every input of less than four gibibytes comes back octet for octet. */
  lemma {:induction false} RoundTripShort(input: Bytes)
    requires |input| <= U32_MAX
    ensures Written(LinesOf(Build(StoredLines(input)))) == input
  {
    hide Written, LinesOf, Build, StoredLines, Addressable;
    RoundTripIff(input);
    ShortIsAddressable(input);
  }

  lemma {:induction false} ContentLength(line: Bytes)
    ensures var h := Split(line); |line| == HeaderLength(h) + (if h.separated then 1 else 0) + |h.value|
  {
    hide Split;
    AssembleSplit(line);
    OneRun([COLON]);
  }

  /** What the bounds admit is addressable when a whole line's worth of octets is. */
  lemma {:induction false} AdmittedIsAddressable(s: Bytes, limits: GrammarLimits, maxValueBytes: u32)
    requires Admitted(s, limits, maxValueBytes) && limits.maxHeaderBytes + 1 + maxValueBytes <= U32_MAX
    ensures Addressable(s)
    decreases |s|
  {
    hide ReadLogical, Split, HeaderLength;
    if s != [] {
      ReadLogicalShape(s, 0);
      ContentLength(ReadLogical(s, 0).content);
      AdmittedIsAddressable(ReadLogical(s, 0).rest, limits, maxValueBytes);
    }
  }

  /**
   Whatever its size, an input read under bounds that leave a line within 32 bits comes back
   octet for octet.
   */
  lemma {:induction false} RoundTripWithinBounds(input: Bytes, limits: GrammarLimits, maxValueBytes: u32)
    requires Admitted(input, limits, maxValueBytes) && limits.maxHeaderBytes + 1 + maxValueBytes <= U32_MAX
    ensures Written(LinesOf(Build(StoredLines(input)))) == input
  {
    hide Written, LinesOf, Build, StoredLines, Addressable, Admitted;
    RoundTripIff(input);
    AdmittedIsAddressable(input, limits, maxValueBytes);
  }

  /** Both named policies are such bounds. */
  lemma {:induction false} RoundTripUnderNamedPolicies(input: Bytes)
    requires Admitted(input, DEFAULT.grammar, DEFAULT.maxValueBytes) || Admitted(input, GENEROUS.grammar, GENEROUS.maxValueBytes)
    ensures Written(LinesOf(Build(StoredLines(input)))) == input
  {
    hide Written, LinesOf, Build, StoredLines, Admitted;
    if Admitted(input, DEFAULT.grammar, DEFAULT.maxValueBytes) {
      RoundTripWithinBounds(input, DEFAULT.grammar, DEFAULT.maxValueBytes);
    } else {
      RoundTripWithinBounds(input, GENEROUS.grammar, GENEROUS.maxValueBytes);
    }
  }

  /** A property whose value is as long as the largest bound allows, folded one octet before its end. */
  const PAST_32_BITS: Bytes := [65, COLON] + seq(U32_MAX - 1, _ => 65 as octet) + [CR, LF, SP, 65]

  /** An input that does not come back, though the reader accepts it. */
  lemma {:induction false} RoundTripFailsPast32Bits(limits: GrammarLimits)
    requires limits.maxHeaderBytes >= 1 && limits.maxFoldsPerLine >= 1
    ensures Admitted(PAST_32_BITS, limits, U32_MAX)
    ensures Written(LinesOf(Build(StoredLines(PAST_32_BITS)))) != PAST_32_BITS
  {
    hide Written, LinesOf, Build, StoredLines, ReadLogical, Split, HeaderLength;
    var value, s := PAST_32_BITS[2..U32_MAX + 1], [CR, LF, SP, 65 as octet];
    var run := [65, COLON] + value;
    assert PAST_32_BITS == run + s;
    ReadsRun(run, s, 0);
    ReadsFold(s, |run|, CrLf);
    assert s[3..] == [65];
    ReadsRun([65], [], |run|);
    ReadsEnd([], |run| + 1);
    assert [65] + [] == [65 as octet];
    var l := ReadLogical(run + s, 0);
    assert l.folds == [FoldPoint(U32_MAX + 1, false, CrLf)] && l.rest == [];
    var h := Header([65], [], true, value + [65]);
    OnePropertySplits(h);
    assert l.content == [65, COLON] + (value + [65]);
    assert !Fits32(l) by { assert l.folds[0].offset > U32_MAX; }
    assert Within(l, limits, U32_MAX) && Admitted([], limits, U32_MAX);
    RoundTripIff(PAST_32_BITS);
  }

  lemma {:induction false} OnePropertySplits(h: Header)
    requires h.name == [65] && h.parameters == [] && h.separated
    ensures Split([65, COLON] + h.value) == h && HeaderLength(h) == 1
  {
    SplitAssembleIff(h);
    OneRun([COLON]);
    assert Assemble(h) == [65, COLON] + h.value;
  }

  // -------------------------------------------------------------------------
  // Parse after serialize
  // -------------------------------------------------------------------------

  /** A line whose parts a reader tells apart: no octet ends it early or moves a delimiter. */
  predicate Readable(p: Property) {
    HeaderReads(HeaderOf(p)) && LineFree(LineContent(p))
  }

  /** The terminator a line carries in place. */
  function EndingInPlace(p: Property, last: bool): Option<LineEnding> {
    if last then p.layout.ending else p.layout.TerminateWith(CANONICAL).ending
  }

  /** Octets that may follow a terminator without joining it or continuing its line. */
  predicate Follows(e: Option<LineEnding>, next: Bytes) {
    next != [] ==> e.Some? && !IsFoldWhitespace(next[0]) && (e == Some(Cr) ==> next[0] != LF)
  }

  /** The folds a reader sees in a line as written. */
  function FoldsSeen(p: Property): seq<FoldPoint> {
    if p.layout.refold then
      var chunks := Refolded(Spans(PropertyLine(p)));
      ChunkFolds(chunks[1..], |chunks[0]|)
    else SeenFolds(LineContent(p), p.layout.folds, 0)
  }

  /** The line as the next reader stores it. */
  function Seen(p: Property, last: bool): Property {
    p.(layout := LineLayout.Preserved(SaturateFolds(FoldsSeen(p)), EndingInPlace(p, last), p.layout.hasSeparator))
  }

  lemma {:induction false} EndsThere(e: Option<LineEnding>, tail: Bytes)
    requires Follows(e, tail)
    ensures var s := EndingOctets(e) + tail; EndsHere(s) && TerminatorAt(s) == e && AfterTerminator(s) == tail
  {
  }

  /** Reading a line's octets gives its content and its folds back, and goes on after them. */
  lemma {:induction false} BodyReadsBack(p: Property, tail: Bytes)
    requires LineFree(LineContent(p))
    ensures ReadLogical(Body(PropertyLine(p)) + tail, 0)
      == Prepend(LineContent(p), FoldsSeen(p), ReadLogical(tail, |LineContent(p)|))
  {
    hide ReadLogical, Inject, Refolded, Spans, SeenFolds, ChunkFolds, Joined, Prepend;
    if p.layout.refold {
      RefoldedReadsBack(Spans(PropertyLine(p)), tail);
    } else {
      InjectReadsBack(LineContent(p), p.layout.folds, 0, tail);
    }
  }

  /** One line in place reads back as itself. */
  lemma {:induction false} LineReadsBack(p: Property, last: bool, tail: Bytes)
    requires Readable(p) && Follows(EndingInPlace(p, last), tail)
    ensures var l := ReadLogical(Piece(PropertyLine(p), last) + tail, 0); l.rest == tail && StoredLine(l) == Seen(p, last)
  {
    hide ReadLogical, Body, EndsHere, FoldsSeen, Split, HeaderReads, Content, LineFree, Follows, TerminatorAt;
    var e := EndingInPlace(p, last);
    EndsThere(e, tail);
    BodyReadsBack(p, EndingOctets(e) + tail);
    AdvanceEnd(LineContent(p), FoldsSeen(p), EndingOctets(e) + tail) by { EndsHereMeans(EndingOctets(e) + tail); }
    assert Piece(PropertyLine(p), last) + tail == Body(PropertyLine(p)) + (EndingOctets(e) + tail);
    ContentAssembles(p);
    SplitAssembleIff(HeaderOf(p));
  }

  /** Lines that stay apart when laid out one after the other. */
  predicate Separated(ps: seq<Property>) {
    ps == [] || (
      && Piece(PropertyLine(ps[0]), |ps| == 1) != []
      && Follows(EndingInPlace(ps[0], |ps| == 1), Lay(ps[1..]))
      && Separated(ps[1..]))
  }

  function SeenAll(ps: seq<Property>): (r: seq<Property>) {
    if ps == [] then [] else [Seen(ps[0], |ps| == 1)] + SeenAll(ps[1..])
  }

  ghost predicate AllReadable(ps: seq<Property>) {
    forall i | 0 <= i < |ps| :: Readable(ps[i])
  }

  /** Lines that stay apart read back as the lines they are, however each was folded. */
  lemma {:induction false} WrittenReadsBack(ps: seq<Property>)
    requires AllReadable(ps) && Separated(ps)
    ensures StoredLines(Lay(ps)) == SeenAll(ps)
    decreases |ps|
  {
    hide ReadLogical, Piece, Readable, Seen, Follows, StoredLine, EndingInPlace, Lay;
    if ps == [] {
      LayNothing();
    } else {
      LayFront(ps);
      LineReadsBack(ps[0], |ps| == 1, Lay(ps[1..]));
      WrittenReadsBack(ps[1..]);
    }
  }
}
