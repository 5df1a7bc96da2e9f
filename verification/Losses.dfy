/**
 Files on which an accepted change does lose something: each is read, changed once, written, and
 not read back as the document it was.
 */
module Losses {
  import opened Octets
  import opened Budget
  import opened Syntax
  import opened Grammar
  import opened HeaderMachine
  import opened Lexer
  import opened RecordedFolds
  import opened Refold
  import opened Nesting
  import opened Ledger
  import opened Parse
  import opened Emit
  import opened RoundTrip
  import opened ReadBack
  import opened Layout
  import opened Mutate
  import opened Documents
  import opened Writes
  import opened Runs
  import opened Bounds

  // -------------------------------------------------------------------------
  // Files of one component
  // -------------------------------------------------------------------------

  /** A line with no parameters that was not folded. */
  function Unfolded(name: Bytes, value: Bytes, e: LineEnding): Property {
    Property(name, [], value, LineLayout.Preserved([], Some(e), true))
  }

  function Entries(ps: seq<Property>): (r: seq<Item>)
    ensures |r| == |ps|
  {
    if ps == [] then [] else [PropertyItem(ps[0])] + Entries(ps[1..])
  }

  /** A document of one component with those properties. */
  function OneComponent(begin: Boundary, ps: seq<Property>, end: Boundary): Component {
    Component(begin, Entries(ps), Some(end))
  }

  function Document(begin: Boundary, ps: seq<Property>, end: Boundary): seq<Item> {
    [ComponentItem(OneComponent(begin, ps, end))]
  }

  lemma {:induction false} EntryAt(ps: seq<Property>, i: nat)
    requires i < |ps|
    ensures Entries(ps)[i] == PropertyItem(ps[i])
  {
    if i > 0 { EntryAt(ps[1..], i - 1); }
  }

  lemma {:induction false} LinesOfEntries(ps: seq<Property>)
    ensures LinesAs(Entries(ps)) == ps
  {
    hide LinesAs;
    if ps == [] {
      NoLinesAs();
    } else {
      LinesAsAppend([PropertyItem(ps[0])], Entries(ps[1..]));
      LinesAsOne(PropertyItem(ps[0]));
      LinesOfEntries(ps[1..]);
    }
  }

  lemma {:induction false} LinesOfDocument(begin: Boundary, ps: seq<Property>, end: Boundary)
    ensures LinesAs(Document(begin, ps, end)) == [AsProperty(BoundaryLine(begin))] + ps + [AsProperty(BoundaryLine(end))]
  {
    hide LinesAs, Entries;
    LinesAsOne(ComponentItem(OneComponent(begin, ps, end)));
    LinesOfEntries(ps);
    AsPropertiesOne(BoundaryLine(end));
  }

  lemma {:induction false} EntriesNested(ps: seq<Property>, enclosing: Option<Bytes>, last: bool)
    requires forall i | 0 <= i < |ps| :: Classify(ps[i]) == PropertyKind
    ensures WellNested(Entries(ps), enclosing, last)
  {
    hide Classify;
    if ps != [] {
      assert Entries(ps)[1..] == Entries(ps[1..]);
      EntriesNested(ps[1..], enclosing, last);
    }
  }

  /** What an input with those lines is read as. */
  lemma {:induction false} ReadsAs(input: Bytes, begin: Boundary, ps: seq<Property>, end: Boundary)
    requires StoredLines(input) == [AsProperty(BoundaryLine(begin))] + ps + [AsProperty(BoundaryLine(end))]
    requires Opens(begin) && Closes(end, begin.name) && forall i | 0 <= i < |ps| :: Classify(ps[i]) == PropertyKind
    ensures Build(StoredLines(input)) == Document(begin, ps, end)
  {
    hide LinesAs, Entries, Build, Opens, Closes, Classify, StoredLines;
    LinesOfDocument(begin, ps, end);
    EntriesNested(ps, Some(begin.name), false);
    OneItemNested(OneComponent(begin, ps, end));
    RebuildLines(Document(begin, ps, end));
  }

  lemma {:induction false} OneItemNested(c: Component)
    requires Opens(c.begin) && c.end.Some? && Closes(c.end.value, c.begin.name) && WellNested(c.items, Some(c.begin.name), false)
    ensures WellNested([ComponentItem(c)], None, true)
  {
    hide Opens, Closes;
    assert [ComponentItem(c)][1..] == [];
  }

  /** A readable line in front of others is read as itself, and the others after it. */
  lemma {:induction false} ReadsLine(p: Property, tail: Bytes)
    requires Readable(p) && p.layout.ending.Some? && Follows(p.layout.ending, tail) && Seen(p, false) == p
    ensures StoredLines(Piece(PropertyLine(p), false) + tail) == [p] + StoredLines(tail)
  {
    hide Piece, Readable, Seen, ReadLogical, Follows, StoredLine;
    LineReadsBack(p, false, tail);
    TerminatedIsWritten(p);
  }

  lemma {:induction false} PlainIsSeen(p: Property)
    requires !p.layout.refold && p.layout.folds == [] && p.layout.ending.Some?
    ensures Seen(p, false) == p
  {
  }

  /** An unfolded line with no parameters, wherever it stands. */
  lemma {:induction false} ReadsPlain(name: Bytes, value: Bytes, e: LineEnding, tail: Bytes)
    requires NameReads(name) && LineFree(value) && Follows(Some(e), tail)
    ensures Readable(Unfolded(name, value, e))
    ensures StoredLines(name + [COLON] + value + e.Octets() + tail) == [Unfolded(name, value, e)] + StoredLines(tail)
  {
    hide Piece, Readable, Seen, StoredLines, Follows, NameReads, LineFree;
    var p := Unfolded(name, value, e);
    ReadableIff(p);
    PlainIsSeen(p);
    PlainPiece(p, false, name + [COLON] + value);
    ReadsLine(p, tail);
  }

  const CR_LF: Bytes := [CR, LF]
  const BEGIN_V: Boundary := Boundary(BEGIN, [86], LineLayout.Preserved([], Some(CrLf), true))
  const END_V: Boundary := Boundary(END, [86], LineLayout.Preserved([], Some(CrLf), true))
  const BEGIN_LINE: Bytes := BEGIN + [COLON] + [86] + CR_LF
  const END_LINE: Bytes := END + [COLON] + [86] + CR_LF

  lemma {:induction false} BeginRead(tail: Bytes)
    requires Follows(Some(CrLf), tail)
    ensures StoredLines(BEGIN_LINE + tail) == [AsProperty(BoundaryLine(BEGIN_V))] + StoredLines(tail)
  {
    hide StoredLines, Follows;
    ReadsPlain(BEGIN, [86], CrLf, tail);
  }

  lemma {:induction false} EndRead()
    ensures StoredLines(END_LINE) == [AsProperty(BoundaryLine(END_V))]
  {
    hide StoredLines;
    ReadsPlain(END, [86], CrLf, []);
    assert END_LINE + [] == END_LINE;
    NothingStored();
  }

  lemma {:induction false} NothingStored()
    ensures StoredLines([]) == []
  {
  }

  lemma {:induction false} DocumentReached(begin: Boundary, ps: seq<Property>, end: Boundary, d: Component)
    ensures Reach(Document(begin, ps, end), [0]) == Some(OneComponent(begin, ps, end))
    ensures Put(Document(begin, ps, end), [0], d) == [ComponentItem(d)]
    ensures LinesBelow(Document(begin, ps, end), [0]) == []
  {
    var doc := Document(begin, ps, end);
    assert doc[1..] == [];
    assert doc[0 := ComponentItem(d)] == [ComponentItem(d)];
  }

  // -------------------------------------------------------------------------
  // A removal
  // -------------------------------------------------------------------------

  const A_CR: Property := Unfolded([65], [], Cr)
  const B_CRLF: Property := Unfolded([66], [], CrLf)
  const BLANK: Property := Property([], [], [], LineLayout.Preserved([], Some(Lf), false))

  /** A:, ended by a bare CR; B:; and a blank line, ended by LF. */
  const THREE_LINES: Bytes := BEGIN_LINE + ([65, COLON, CR] + ([66, COLON, CR, LF] + ([LF] + END_LINE)))
  const THREE: seq<Property> := [A_CR, B_CRLF, BLANK]

  lemma {:induction false} BlankRead()
    ensures Readable(BLANK) && Piece(PropertyLine(BLANK), false) == [LF]
    ensures StoredLines([LF] + END_LINE) == [BLANK] + StoredLines(END_LINE)
  {
    PlainPiece(BLANK, false, []);
    PlainIsSeen(BLANK);
    assert HeaderReads(HeaderOf(BLANK));
    PlainContent(BLANK);
    ReadsLine(BLANK, END_LINE);
  }

  lemma {:induction false} ThreeLinesRead()
    ensures Build(StoredLines(THREE_LINES)) == Document(BEGIN_V, THREE, END_V)
  {
    hide StoredLines, Build, Readable, Piece;
    var third := [LF] + END_LINE;
    var second := [66, COLON, CR, LF] + third;
    var first := [65, COLON, CR] + second;
    EndRead();
    BlankRead();
    ReadsPlain([66], [], CrLf, third);
    assert [66] + [COLON] + [] + CrLf.Octets() + third == second;
    ReadsPlain([65], [], Cr, second);
    assert [65] + [COLON] + [] + Cr.Octets() + second == first;
    BeginRead(first);
    ReadsAs(THREE_LINES, BEGIN_V, THREE, END_V);
  }

  lemma {:induction false} EntriesOne(p: Property)
    ensures Entries([p]) == [PropertyItem(p)]
  {
    assert [p][1..] == [];
  }

  lemma {:induction false} EntriesCons(p: Property, ps: seq<Property>)
    ensures Entries([p] + ps) == [PropertyItem(p)] + Entries(ps)
  {
    assert ([p] + ps)[1..] == ps;
  }

  /** B is the first entry of its name, and stands second. */
  lemma {:induction false} BIsSecond()
    ensures var items := Entries(THREE);
      && items == [PropertyItem(A_CR), PropertyItem(B_CRLF), PropertyItem(BLANK)]
      && HasId(items[1], [66]) && Occurrences(items[..1], [66]) == 0
      && items[..1] + items[2..] == Entries([A_CR, BLANK])
  {
    hide Entries, Unfolded;
    assert THREE == [A_CR] + ([B_CRLF] + [BLANK]) && [A_CR, BLANK] == [A_CR] + [BLANK];
    EntriesCons(A_CR, [B_CRLF] + [BLANK]);
    EntriesCons(B_CRLF, [BLANK]);
    EntriesCons(A_CR, [BLANK]);
    EntriesOne(BLANK);
    var items := Entries(THREE);
    assert A_CR.name == [65] && B_CRLF.name == [66] by { Names(); }
    assert items[..1] == [items[0]];
    OccurrencesOne(items[0], [66]);
    OtherName(items[0].property);
  }

  lemma {:induction false} OtherName(p: Property)
    requires p.name == [65]
    ensures !HasId(PropertyItem(p), [66])
  {
    var name: Bytes := [66];
    assert Upper(name[0]) != Upper(p.name[0]);
  }

  lemma {:induction false} Names()
    ensures A_CR.name == [65] && B_CRLF.name == [66]
  {
  }

  /** The lines around B: one ended by a bare CR, and one that opens with LF. */
  lemma {:induction false} NeighboursOfB()
    ensures var doc := Document(BEGIN_V, THREE, END_V);
      !NeighboursAllow(doc, [0], Some(1))
  {
    hide LinesAs, Lay, Piece, LinesAbove, LinesBelow, Entries;
    var doc := Document(BEGIN_V, THREE, END_V);
    DocumentReached(BEGIN_V, THREE, END_V, OneComponent(BEGIN_V, THREE, END_V));
    BIsSecond();
    var items := Entries(THREE);
    assert items[..1] == [items[0]] && items[2..] == [items[2]];
    LinesAsOne(items[0]);
    LinesAsOne(items[2]);
    var above, below := AboveEntry(doc, [0], 1), BelowEntry(doc, [0], 2);
    assert above[|above| - 1] == A_CR;
    assert below == [BLANK] + (EndLine(Some(END_V)) + LinesBelow(doc, [0]));
    LayOne(BLANK, EndLine(Some(END_V)) + LinesBelow(doc, [0]));
    BlankRead();
    EndsByEnd();
    NotApart(A_CR, below);
  }

  lemma {:induction false} EndsByEnd()
    ensures EndLine(Some(END_V)) != []
  {
  }

  lemma {:induction false} NotApart(p: Property, y: seq<Property>)
    requires p.layout.ending == Some(Cr) && Lay(y) != [] && Lay(y)[0] == LF
    ensures !MayPrecede(p, y)
  {
    hide Lay, Piece;
  }

  /** Taking B out brings the bare CR above the LF: the blank line is gone from what is read back. */
  lemma {:induction false} RemovalLosesALine(limits: Limits)
    ensures var doc := Build(StoredLines(THREE_LINES));
      var d := OneComponent(BEGIN_V, [A_CR, BLANK], END_V);
      var next := [ComponentItem(d)];
      Performs(doc, Proposed([0], [66], Some(0), Remove), limits, d, next) && !ReadsBack(next)
  {
    hide StoredLines, Build, Put, Reach, ReadsBack, HasId, Occurrences, Entries, OccurrencePosition, NeighboursAllow;
    var doc, d, e := Document(BEGIN_V, THREE, END_V), OneComponent(BEGIN_V, [A_CR, BLANK], END_V), Proposed([0], [66], Some(0), Remove);
    ThreeLinesRead();
    DocumentReached(BEGIN_V, THREE, END_V, d);
    BIsSecond();
    assert Performs(doc, e, limits, d, [ComponentItem(d)]) by {
      assert d == OneComponent(BEGIN_V, THREE, END_V).(items := OneChanged(Entries(THREE), 1, Remove));
    }
    ReadDocumentReadsBack(THREE_LINES);
    StepReadsBackIff(doc, e, limits, d, [ComponentItem(d)]);
    OccurrencePositionIs(Entries(THREE), [66], 0);
    NeighboursOfB();
  }

  // -------------------------------------------------------------------------
  // An addition
  // -------------------------------------------------------------------------

  const END_FOLDED: Boundary := END_V.(layout := LineLayout.Preserved([FoldPoint(0, false, Lf)], Some(CrLf), true))
  const A_ONE: Property := Unfolded([65], [49], CrLf)

  /** A:1, and an END line folded, by LF and a space, before its first octet. */
  const FOLDED_END: Bytes := BEGIN_LINE + ([65, COLON, 49, CR, LF] + ([LF, SP] + END_LINE))

  /** B:2, ended by a bare CR. */
  const ADDITION: Bytes := [66, COLON, 50, CR]
  const ADDED: Property := Property([66], [], [50], LineLayout.Canonical(Cr))

  lemma {:induction false} FoldedEndPiece(last: bool)
    ensures Piece(PropertyLine(AsProperty(BoundaryLine(END_FOLDED))), last) == [LF, SP] + END_LINE
  {
    hide Inject, Spans, Concat, Refolded;
    var p := AsProperty(BoundaryLine(END_FOLDED));
    PlainContent(p);
    assert p.layout.folds[1..] == [] && LineContent(p)[0..] == LineContent(p) && LineContent(p)[..0] == [];
    InjectTakes(LineContent(p), p.layout.folds, 0);
    InjectStops(LineContent(p), [], 0);
  }

  lemma {:induction false} FoldedEndRead()
    ensures StoredLines([LF, SP] + END_LINE) == [AsProperty(BoundaryLine(END_FOLDED))]
  {
    hide StoredLines, Piece, Readable, FoldsSeen;
    var p := AsProperty(BoundaryLine(END_FOLDED));
    ReadableIff(p);
    FoldedEndPiece(false);
    assert FoldsSeen(p) == p.layout.folds by { FirstFoldSeen(p); }
    ReadsLine(p, []);
    assert ([LF, SP] + END_LINE) + [] == [LF, SP] + END_LINE;
    NothingStored();
  }

  lemma {:induction false} FirstFoldSeen(p: Property)
    requires !p.layout.refold && |p.layout.folds| == 1 && p.layout.folds[0].offset == 0
    ensures FoldsSeen(p) == p.layout.folds
  {
    hide LineContent;
    assert SeenFolds(LineContent(p)[0..], p.layout.folds[1..], 0) == [];
  }

  lemma {:induction false} FoldedEndDocument()
    ensures Build(StoredLines(FOLDED_END)) == Document(BEGIN_V, [A_ONE], END_FOLDED)
  {
    hide StoredLines, Build, Readable, Piece;
    var end := [LF, SP] + END_LINE;
    var first := [65, COLON, 49, CR, LF] + end;
    FoldedEndRead();
    ReadsPlain([65], [49], CrLf, end);
    assert [65] + [COLON] + [49] + CrLf.Octets() + end == first;
    BeginRead(first);
    ReadsAs(FOLDED_END, BEGIN_V, [A_ONE], END_FOLDED);
  }

  lemma {:induction false} AdditionIsOneLine(limits: Limits)
    requires limits.grammar.maxHeaderBytes >= 1 && limits.maxValueBytes >= 1
    ensures IsOneLine(ADDITION, limits) && LineOf(ADDITION) == ParsedLine([66], [], [50], Some(Cr))
  {
    hide ReadLogical, Split;
    var content := [66, COLON, 50];
    assert ADDITION == content + [CR];
    ReadsRun(content, [CR], 0);
    ReadsEnd([CR], 3);
    var h := Header([66], [], true, [50]);
    SplitAssembleIff(h);
    OneRun([COLON]);
    assert Assemble(h) == content && content + [] == content;
    assert HeaderLength(h) == 1;
    assert ReadLogical(ADDITION, 0) == Logical(content, [], Some(Cr), []);
  }

  lemma {:induction false} NothingAllowedBelow()
    ensures var doc := Document(BEGIN_V, [A_ONE], END_FOLDED);
      !Follows(Some(Cr), Lay(BelowEntry(doc, [0], 1)))
  {
    hide LinesAs, Lay, Piece, LinesAbove, LinesBelow;
    var doc, p := Document(BEGIN_V, [A_ONE], END_FOLDED), AsProperty(BoundaryLine(END_FOLDED));
    DocumentReached(BEGIN_V, [A_ONE], END_FOLDED, OneComponent(BEGIN_V, [A_ONE], END_FOLDED));
    EntriesOne(A_ONE);
    NoLinesAs();
    AsPropertiesOne(BoundaryLine(END_FOLDED));
    assert BelowEntry(doc, [0], 1) == [p] + [];
    LayOne(p, []);
    FoldedEndPiece(true);
  }

  /** Adding B above it makes the bare CR and the LF one fold: the END line is read as part of B's value. */
  lemma {:induction false} AdditionLosesTheEnd(limits: Limits)
    requires limits.grammar.maxHeaderBytes >= 1 && limits.maxValueBytes >= 1
    ensures var doc := Build(StoredLines(FOLDED_END));
      var d := OneComponent(BEGIN_V, [A_ONE, ADDED], END_FOLDED);
      var next := [ComponentItem(d)];
      Performs(doc, Proposed([0], [66], None, Add(ADDITION)), limits, d, next) && !ReadsBack(next)
  {
    hide StoredLines, Build, Put, Reach, ReadsBack, IsOneLine, LineOf, Lay, Follows, BelowEntry, Entries;
    var doc, d := Document(BEGIN_V, [A_ONE], END_FOLDED), OneComponent(BEGIN_V, [A_ONE, ADDED], END_FOLDED);
    var e := Proposed([0], [66], None, Add(ADDITION));
    FoldedEndDocument();
    DocumentReached(BEGIN_V, [A_ONE], END_FOLDED, d);
    AdditionIsOneLine(limits);
    EntriesOne(A_ONE);
    EntriesOne(ADDED);
    assert [A_ONE, ADDED] == [A_ONE] + [ADDED];
    EntriesCons(A_ONE, [ADDED]);
    assert Inserted(OneComponent(BEGIN_V, [A_ONE], END_FOLDED), LineOf(ADDITION)) == d;
    ReadDocumentReadsBack(FOLDED_END);
    StepReadsBackIff(doc, e, limits, d, [ComponentItem(d)]);
    NothingAllowedBelow();
  }

  // -------------------------------------------------------------------------
  // A value
  // -------------------------------------------------------------------------

  /** A line cut short inside a quoted parameter. */
  const CUT_SHORT: Property :=
    Property([65], [Parameter([66], [DQUOTE], true)], [], LineLayout.Preserved([], Some(CrLf), false))
  const CUT_SHORT_LINE: Bytes := BEGIN_LINE + ([65, SEMICOLON, 66, EQUALS, DQUOTE, CR, LF] + END_LINE)

  lemma {:induction false} CutShortReads()
    ensures Readable(CUT_SHORT) && !ClosedQuotes(CUT_SHORT.parameters)
    ensures LineContent(CUT_SHORT) == [65, SEMICOLON, 66, EQUALS, DQUOTE]
  {
    hide LineContent;
    var p := CUT_SHORT.parameters[0];
    assert p.value[1..] == [];
    assert RunValue(p.value[1..], Quoted) == Quoted && ValueEnd(p.value[1..], Quoted) == 0;
    assert OpensQuote(p) && ParameterReads(p);
    assert AllGood(CUT_SHORT.parameters);
    ContentLineFree(CUT_SHORT);
    ContentAssembles(CUT_SHORT);
    AssembleNoParameters(Header([], [], false, []));
    AssembleTailCons(p, Header([], [], false, []));
    assert [p] + [] == CUT_SHORT.parameters;
    assert AssembleTail(HeaderOf(CUT_SHORT)) == AssembleTail(ConsParameter(p, Header([], [], false, [])));
  }

  lemma {:induction false} CutShortDocument()
    ensures Build(StoredLines(CUT_SHORT_LINE)) == Document(BEGIN_V, [CUT_SHORT], END_V)
  {
    hide StoredLines, Build, Readable, LineContent, Piece;
    var first := [65, SEMICOLON, 66, EQUALS, DQUOTE, CR, LF] + END_LINE;
    EndRead();
    CutShortReads();
    PlainIsSeen(CUT_SHORT);
    UnfoldedPiece(CUT_SHORT, false);
    ReadsLine(CUT_SHORT, END_LINE);
    assert Piece(PropertyLine(CUT_SHORT), false) + END_LINE == first;
    BeginRead(first);
    ReadsAs(CUT_SHORT_LINE, BEGIN_V, [CUT_SHORT], END_V);
  }

  /** Any value written to that line stands behind the open quote, and is read as part of the parameter. */
  lemma {:induction false} OpenQuoteSwallowsValue(bytes: Bytes, limits: Limits)
    requires ControlFree(bytes)
    ensures var doc := Build(StoredLines(CUT_SHORT_LINE));
      var d := OneComponent(BEGIN_V, [Value(bytes).Of(CUT_SHORT)], END_V);
      var next := [ComponentItem(d)];
      Performs(doc, Guarded([0], [65], Value(bytes)), limits, d, next) && !ReadsBack(next)
  {
    hide StoredLines, Build, Put, Reach, ReadsBack, Entries, ClosedQuotes, ControlFree;
    var doc, d := Document(BEGIN_V, [CUT_SHORT], END_V), OneComponent(BEGIN_V, [Value(bytes).Of(CUT_SHORT)], END_V);
    var e := Guarded([0], [65], Value(bytes));
    CutShortDocument();
    DocumentReached(BEGIN_V, [CUT_SHORT], END_V, d);
    EntriesOne(CUT_SHORT);
    EntriesOne(Value(bytes).Of(CUT_SHORT));
    ReadDocumentReadsBack(CUT_SHORT_LINE);
    StepReadsBackIff(doc, e, limits, d, [ComponentItem(d)]);
    CutShortReads();
    assert Addressed(Entries([CUT_SHORT]), e, 0);
  }

  // -------------------------------------------------------------------------
  // A value longer than the reader takes
  // -------------------------------------------------------------------------

  const A_CRLF: Property := Unfolded([65], [], CrLf)
  const ONE_LINE: Bytes := BEGIN_LINE + ([65, COLON, CR, LF] + END_LINE)

  lemma {:induction false} OneLineRead()
    ensures Build(StoredLines(ONE_LINE)) == Document(BEGIN_V, [A_CRLF], END_V)
    ensures StoredLines(ONE_LINE) == [AsProperty(BoundaryLine(BEGIN_V)), A_CRLF, AsProperty(BoundaryLine(END_V))]
  {
    hide StoredLines, Build, Readable;
    var first := [65, COLON, CR, LF] + END_LINE;
    EndRead();
    ReadsPlain([65], [], CrLf, END_LINE);
    assert [65] + [COLON] + [] + CrLf.Octets() + END_LINE == first;
    BeginRead(first);
    ReadsAs(ONE_LINE, BEGIN_V, [A_CRLF], END_V);
  }

  lemma {:induction false} ShortLineWithin(p: Property)
    requires |p.name| <= 5 && p.parameters == [] && |p.value| <= 1 && p.layout.folds == []
    ensures StoredWithin(p, DEFAULT) && LineCharge(p) <= 6
  {
    assert ParameterListSpans([]) == [] && Concat([]) == [];
  }

  lemma {:induction false} ThreeShortLines(ps: seq<Property>)
    requires |ps| == 3 && forall i | 0 <= i < 3 :: LineCharge(ps[i]) <= 6
    ensures Charged(ps) <= 18
  {
    hide LineCharge;
    assert ps == [] + [ps[0]] + [ps[1]] + [ps[2]] && Charged([]) == 0;
    ChargedSnoc([] + [ps[0]] + [ps[1]], ps[2]);
    ChargedSnoc([] + [ps[0]], ps[1]);
    ChargedSnoc([], ps[0]);
  }

  /** The default policy accepts the file. */
  lemma {:induction false} OneLineAccepted()
    ensures Accepts(ONE_LINE, DEFAULT)
  {
    hide StoredLines, Build, Admitted, StoredWithin, LineCharge, Charged, Entries;
    var doc := Document(BEGIN_V, [A_CRLF], END_V);
    OneLineRead();
    var ps := StoredLines(ONE_LINE);
    forall i | 0 <= i < 3 ensures StoredWithin(ps[i], DEFAULT) && LineCharge(ps[i]) <= 6 { ShortLineWithin(ps[i]); }
    AdmittedIff(ONE_LINE, DEFAULT);
    ThreeShortLines(ps);
    EntriesOne(A_CRLF);
    ItemCountOne(PropertyItem(A_CRLF));
    ItemCountOne(doc[0]);
    assert doc == [doc[0]] && Entries([A_CRLF]) == [PropertyItem(A_CRLF)];
    assert ItemCount(doc) == 2 && Depth(doc) == 1;
  }

  /**
   A guarded write accepts a value of any length. One longer than the reader takes leaves a file
   that is read back by the grammar and refused whole under the very bounds it was written under.
   */
  lemma {:induction false} LongValueIsNotReopened(bytes: Bytes, limits: Limits)
    requires ControlFree(bytes) && |bytes| > limits.maxValueBytes
    ensures var doc, e := Build(StoredLines(ONE_LINE)), Guarded([0], [65], Value(bytes));
      var d := OneComponent(BEGIN_V, [Value(bytes).Of(A_CRLF)], END_V);
      var next := [ComponentItem(d)];
      && Performs(doc, e, limits, d, next) && Permitted(doc, e) && ReadsBack(next)
      && !Admitted(Serialized(next), limits.grammar, limits.maxValueBytes)
  {
    hide StoredLines, Build, Put, Reach, ReadsBack, Entries, ControlFree, Permitted, Admitted, Serialized, AllWithin, LinesAs, FoldsSeen;
    var doc, d := Document(BEGIN_V, [A_CRLF], END_V), OneComponent(BEGIN_V, [Value(bytes).Of(A_CRLF)], END_V);
    var e, next := Guarded([0], [65], Value(bytes)), [ComponentItem(d)];
    OneLineRead();
    DocumentReached(BEGIN_V, [A_CRLF], END_V, d);
    EntriesOne(A_CRLF);
    EntriesOne(Value(bytes).Of(A_CRLF));
    ReadDocumentReadsBack(ONE_LINE);
    assert Permitted(doc, e) by { NoQuoteOpen(doc, e); }
    StepReadsBackIff(doc, e, limits, d, next);
    AcceptsWrittenIff(next, limits);
    LinesOfDocument(BEGIN_V, [Value(bytes).Of(A_CRLF)], END_V);
    MiddleNotWithin(AsProperty(BoundaryLine(BEGIN_V)), Value(bytes).Of(A_CRLF), AsProperty(BoundaryLine(END_V)), limits);
  }

  lemma {:induction false} NoQuoteOpen(doc: seq<Item>, e: Step)
    requires Reach(doc, e.path).Some? && e.Guarded? && e.write.Value?
    requires forall i | 0 <= i < |Reach(doc, e.path).value.items| ::
      Reach(doc, e.path).value.items[i].PropertyItem? && Reach(doc, e.path).value.items[i].property.parameters == []
    ensures Permitted(doc, e)
  {
    hide Reach;
  }

  lemma {:induction false} MiddleNotWithin(a: Property, p: Property, b: Property, limits: Limits)
    requires |p.value| > limits.maxValueBytes
    ensures !AllWithin([a] + [p] + [b], limits)
  {
    assert ([a] + [p] + [b])[1] == p;
  }
}
