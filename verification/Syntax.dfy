/** The stored tree: line layouts, properties, boundaries and components, as values. */
module Syntax {
  import opened Octets

  datatype LineEnding = CrLf | Lf | Cr {
    function Octets(): (r: Bytes)
      ensures 1 <= |r| <= 2
    {
      match this
      case CrLf => [CR, LF]
      case Lf => [LF]
      case Cr => [CR]
    }
  }

  const CANONICAL: LineEnding := CrLf

  /** One recorded fold: an offset in the unfolded line, held in 32 bits. */
  datatype FoldPoint = FoldPoint(offset: nat, tab: bool, newline: LineEnding) {
    function Octets(): Bytes {
      newline.Octets() + [if tab then HTAB else SP]
    }
  }

  datatype LineLayout = LineLayout(
    folds: seq<FoldPoint>,
    ending: Option<LineEnding>,
    hasSeparator: bool,
    refold: bool)
  {
    static function Canonical(ending: LineEnding): LineLayout {
      LineLayout([], Some(ending), true, true)
    }

    static function Preserved(folds: seq<FoldPoint>, ending: Option<LineEnding>, hasSeparator: bool): LineLayout {
      LineLayout(folds, ending, hasSeparator, false)
    }

    /** What a write does to a layout: the folds go, a separator is asserted, the ending stays. */
    function Refolded(): LineLayout {
      this.(folds := [], hasSeparator := true, refold := true)
    }

    /** The terminator a line gains when it stops being last; one already there is kept. */
    function TerminateWith(e: LineEnding): LineLayout {
      if ending.Some? then this else this.(ending := Some(e))
    }
  }

  datatype Parameter = Parameter(name: Bytes, value: Bytes, hasValue: bool)

  datatype Property = Property(name: Bytes, parameters: seq<Parameter>, value: Bytes, layout: LineLayout)

  /** A BEGIN or END line: the keyword and the component name, as written. */
  datatype Boundary = Boundary(keyword: Bytes, name: Bytes, layout: LineLayout)

  datatype Item = PropertyItem(property: Property) | ComponentItem(component: Component)

  datatype Component = Component(begin: Boundary, items: seq<Item>, end: Option<Boundary>)

  /** What the serializer walks: properties and boundaries alike. */
  datatype Line = PropertyLine(property: Property) | BoundaryLine(boundary: Boundary) {
    function Layout(): LineLayout {
      match this
      case PropertyLine(p) => p.layout
      case BoundaryLine(b) => b.layout
    }
  }

  const BEGIN: Bytes := [66, 69, 71, 73, 78]
  const END: Bytes := [69, 78, 68]

  predicate NamesAComponentBoundary(name: Bytes) {
    EqIgnoreCase(name, BEGIN) || EqIgnoreCase(name, END)
  }

  // -------------------------------------------------------------------------
  // The unfolded content of a line, span by span and as a whole
  // -------------------------------------------------------------------------

  function ParameterSpans(p: Parameter): seq<Bytes> {
    [[SEMICOLON], p.name] + if p.hasValue then [[EQUALS], p.value] else []
  }

  function ParameterListSpans(ps: seq<Parameter>): seq<Bytes> {
    if ps == [] then [] else ParameterSpans(ps[0]) + ParameterListSpans(ps[1..])
  }

  lemma {:induction false} ParameterListSpansAppend(a: seq<Parameter>, b: seq<Parameter>)
    ensures ParameterListSpans(a + b) == ParameterListSpans(a) + ParameterListSpans(b)
  {
    hide ParameterSpans, ParameterListSpans;
    if a == [] {
      assert a + b == b;
      NoParameterSpans();
      assert [] + ParameterListSpans(b) == ParameterListSpans(b);
    } else {
      ParameterListSpansAppend(a[1..], b);
      AppendFront(a, b);
      ParameterSpansFront(a);
      ParameterSpansFront(a + b);
      AppendTwice(ParameterSpans(a[0]), ParameterListSpans(a[1..]), ParameterListSpans(b));
    }
  }

  lemma {:induction false} ParameterSpansFront(ps: seq<Parameter>)
    requires ps != []
    ensures ParameterListSpans(ps) == ParameterSpans(ps[0]) + ParameterListSpans(ps[1..])
  {
  }

  lemma {:induction false} NoParameterSpans()
    ensures ParameterListSpans([]) == []
  {
  }

  function SeparatorSpans(separated: bool): seq<Bytes> {
    if separated then [[COLON]] else []
  }

  /** The spans a line is pushed in, in order: they are what the serializer writes. */
  function Spans(line: Line): seq<Bytes> {
    match line
    case PropertyLine(p) =>
      [p.name] + ParameterListSpans(p.parameters) + SeparatorSpans(p.layout.hasSeparator) + [p.value]
    case BoundaryLine(b) =>
      [b.keyword] + SeparatorSpans(b.layout.hasSeparator) + [b.name]
  }

  /** The unfolded line. */
  function Content(line: Line): Bytes {
    Concat(Spans(line))
  }

  // -------------------------------------------------------------------------
  // The lines of a tree, by recursion
  // -------------------------------------------------------------------------

  function EndLines(end: Option<Boundary>): seq<Line> {
    if end.Some? then [BoundaryLine(end.value)] else []
  }

  function ItemLines(item: Item): seq<Line>
    decreases item, 1
  {
    match item
    case PropertyItem(p) => [PropertyLine(p)]
    case ComponentItem(c) => [BoundaryLine(c.begin)] + LinesOf(c.items) + EndLines(c.end)
  }

  function LinesOf(items: seq<Item>): seq<Line>
    decreases items, 0
  {
    if items == [] then [] else ItemLines(items[0]) + LinesOf(items[1..])
  }

  lemma {:induction false} LinesOfAppend(a: seq<Item>, b: seq<Item>)
    ensures LinesOf(a + b) == LinesOf(a) + LinesOf(b)
  {
    hide ItemLines, LinesOf;
    if a == [] {
      assert a + b == b;
      NoLinesOf();
      assert [] + LinesOf(b) == LinesOf(b);
    } else {
      LinesOfAppend(a[1..], b);
      AppendFront(a, b);
      LinesOfFront(a);
      LinesOfFront(a + b);
      AppendTwice(ItemLines(a[0]), LinesOf(a[1..]), LinesOf(b));
    }
  }

  lemma {:induction false} LinesOfFront(items: seq<Item>)
    requires items != []
    ensures LinesOf(items) == ItemLines(items[0]) + LinesOf(items[1..])
  {
  }

  lemma {:induction false} NoLinesOf()
    ensures LinesOf([]) == []
  {
  }

  lemma {:induction false} LinesOfSingleton(item: Item)
    ensures LinesOf([item]) == ItemLines(item)
  {
    assert [item][1..] == [];
    assert LinesOf([item][1..]) == [];
    assert LinesOf([item]) == ItemLines(item) + [];
  }

  lemma {:induction false} LinesOfSnoc(items: seq<Item>, item: Item)
    ensures LinesOf(items + [item]) == LinesOf(items) + ItemLines(item)
  {
    LinesOfAppend(items, [item]);
    LinesOfSingleton(item);
  }
}
