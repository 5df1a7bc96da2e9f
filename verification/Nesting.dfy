/**
 Building the component tree out of lines, with a stack of open components: no line is lost or
 moved, and the tree is the only well-nested one that has those lines.
 */
module Nesting {
  import opened Octets
  import opened Syntax

  datatype LineKind = PropertyKind | BeginKind | EndKind

  /** What a line is, by itself: a boundary needs a separator and no parameters. */
  function Classify(p: Property): LineKind {
    if p.name == [] || !p.layout.hasSeparator then PropertyKind
    else if EqIgnoreCase(p.name, BEGIN) then
      if p.parameters == [] then BeginKind else PropertyKind
    else if EqIgnoreCase(p.name, END) then
      if p.parameters == [] then EndKind else PropertyKind
    else PropertyKind
  }

  function BoundaryOf(p: Property): Boundary {
    Boundary(p.name, p.value, p.layout)
  }

  /** A boundary line read as the property it also is. */
  function AsProperty(line: Line): Property {
    match line
    case PropertyLine(p) => p
    case BoundaryLine(b) => Property(b.keyword, [], b.name, b.layout)
  }

  function AsProperties(lines: seq<Line>): seq<Property> {
    if lines == [] then [] else [AsProperty(lines[0])] + AsProperties(lines[1..])
  }

  lemma {:induction false} AsPropertiesAppend(a: seq<Line>, b: seq<Line>)
    ensures AsProperties(a + b) == AsProperties(a) + AsProperties(b)
  {
    hide AsProperty;
    if a == [] {
      assert a + b == b;
    } else {
      AsPropertiesAppend(a[1..], b);
      assert (a + b)[1..] == a[1..] + b && (a + b)[0] == a[0];
      assert AsProperties(a + b) == [AsProperty(a[0])] + (AsProperties(a[1..]) + AsProperties(b));
    }
  }

  lemma {:induction false} AsPropertiesOne(line: Line)
    ensures AsProperties([line]) == [AsProperty(line)]
  {
    assert [line][1..] == [];
  }

  /** Either way of storing a line keeps its octets and its layout. */
  lemma {:induction false} AsPropertyKeepsSpans(line: Line)
    ensures Spans(PropertyLine(AsProperty(line))) == Spans(line)
    ensures AsProperty(line).layout == line.Layout()
  {
    match line
    case PropertyLine(_) =>
    case BoundaryLine(b) =>
      assert ParameterListSpans([]) == [];
      assert [b.keyword] + [] == [b.keyword];
  }

  // -------------------------------------------------------------------------
  // The tree under construction
  // -------------------------------------------------------------------------

  datatype OpenComponent = OpenComponent(begin: Boundary, items: seq<Item>)

  datatype Building = Building(root: seq<Item>, open: seq<OpenComponent>) {

    function Innermost(): OpenComponent
      requires open != []
    {
      open[|open| - 1]
    }

    /** The entry becomes the last one at the current depth. */
    function Push(item: Item): Building {
      if open == [] then this.(root := root + [item])
      else this.(open := open[..|open| - 1] + [Innermost().(items := Innermost().items + [item])])
    }

    function Open(begin: Boundary): Building {
      this.(open := open + [OpenComponent(begin, [])])
    }

    function CloseInnermost(end: Option<Boundary>): Building
      requires open != []
    {
      Building(root, open[..|open| - 1]).Push(ComponentItem(Component(Innermost().begin, Innermost().items, end)))
    }

    /** The name an END has to give to close something here. */
    function Enclosing(): Option<Bytes> {
      if open == [] then None else Some(Innermost().begin.name)
    }

    function Take(p: Property): Building {
      match Classify(p)
      case PropertyKind => Push(PropertyItem(p))
      case BeginKind => Open(BoundaryOf(p))
      case EndKind =>
        if open != [] && EqIgnoreCase(Innermost().begin.name, p.value) then CloseInnermost(Some(BoundaryOf(p)))
        else Push(PropertyItem(p))
    }

    function TakeAll(ps: seq<Property>): Building
      decreases |ps|
    {
      if ps == [] then this else Take(ps[0]).TakeAll(ps[1..])
    }

    /** Components that met no END are closed from the inside out. */
    function CloseAll(): seq<Item>
      decreases |open|
    {
      if open == [] then root else CloseInnermost(None).CloseAll()
    }

    /** Every line taken so far, in order. */
    ghost function Lines(): seq<Line> {
      LinesOf(root) + OpenLines(open)
    }
  }

  const EMPTY: Building := Building([], [])

  ghost function OpenLines(open: seq<OpenComponent>): seq<Line> {
    if open == [] then []
    else
      var last := open[|open| - 1];
      OpenLines(open[..|open| - 1]) + [BoundaryLine(last.begin)] + LinesOf(last.items)
  }

  /** The tree of a list of lines. */
  function Build(ps: seq<Property>): seq<Item> {
    EMPTY.TakeAll(ps).CloseAll()
  }

  lemma {:induction false} TakeAllAppend(b: Building, ps: seq<Property>, qs: seq<Property>)
    ensures b.TakeAll(ps + qs) == b.TakeAll(ps).TakeAll(qs)
    decreases |ps|
  {
    hide Building.Take;
    if ps == [] {
      assert ps + qs == qs;
    } else {
      assert (ps + qs)[1..] == ps[1..] + qs;
      TakeAllAppend(b.Take(ps[0]), ps[1..], qs);
    }
  }

  // -------------------------------------------------------------------------
  // No line is lost, added or moved
  // -------------------------------------------------------------------------

  lemma {:induction false} AssociateLines(a: seq<Line>, b: seq<Line>, c: seq<Line>, d: seq<Line>, e: seq<Line>)
    ensures a + (b + c + (d + e)) == a + (b + c + d) + e
    ensures a + (b + c + d) + e == (a + b) + (c + d + e)
  {
  }

  lemma {:induction false} OpenLinesSnoc(open: seq<OpenComponent>, last: OpenComponent)
    ensures OpenLines(open + [last]) == OpenLines(open) + [BoundaryLine(last.begin)] + LinesOf(last.items)
  {
    hide LinesOf;
    assert (open + [last])[..|open|] == open;
  }

  lemma {:induction false} PushLines(b: Building, item: Item)
    ensures b.Push(item).Lines() == b.Lines() + ItemLines(item)
  {
    hide LinesOf, ItemLines, OpenLines;
    assert OpenLines([]) == [] by { EmptyLines(); }
    if b.open == [] {
      LinesOfSnoc(b.root, item);
    } else {
      var rest, last := b.open[..|b.open| - 1], b.Innermost();
      assert b.open == rest + [last];
      OpenLinesSnoc(rest, last);
      OpenLinesSnoc(rest, last.(items := last.items + [item]));
      LinesOfSnoc(last.items, item);
      AssociateLines(LinesOf(b.root), OpenLines(rest), [BoundaryLine(last.begin)], LinesOf(last.items), ItemLines(item));
    }
  }

  lemma {:induction false} EmptyLines()
    ensures OpenLines([]) == [] && LinesOf([]) == [] && EMPTY.Lines() == []
  {
  }

  lemma {:induction false} OpenAddsLine(b: Building, begin: Boundary)
    ensures b.Open(begin).Lines() == b.Lines() + [BoundaryLine(begin)]
  {
    hide LinesOf, ItemLines, OpenLines;
    EmptyLines();
    OpenLinesSnoc(b.open, OpenComponent(begin, []));
  }

  lemma {:induction false} CloseAddsLine(b: Building, end: Option<Boundary>)
    requires b.open != []
    ensures b.CloseInnermost(end).Lines() == b.Lines() + EndLines(end)
  {
    hide LinesOf, OpenLines, EndLines;
    var rest, last := b.open[..|b.open| - 1], b.Innermost();
    assert b.open == rest + [last];
    OpenLinesSnoc(rest, last);
    PushLines(Building(b.root, rest), ComponentItem(Component(last.begin, last.items, end)));
    AssociateLines(LinesOf(b.root), OpenLines(rest), [BoundaryLine(last.begin)], LinesOf(last.items), EndLines(end));
  }

  lemma {:induction false} TakeAddsLine(b: Building, p: Property)
    ensures AsProperties(b.Take(p).Lines()) == AsProperties(b.Lines()) + [p]
  {
    hide LinesOf, OpenLines, AsProperties, EqIgnoreCase, Building.Push, Building.CloseInnermost, Building.Open, Building.Lines;
    var line := if b.Take(p) == b.Push(PropertyItem(p)) then PropertyLine(p) else BoundaryLine(BoundaryOf(p));
    PushLines(b, PropertyItem(p));
    OpenAddsLine(b, BoundaryOf(p));
    if b.open != [] { CloseAddsLine(b, Some(BoundaryOf(p))); }
    assert b.Take(p).Lines() == b.Lines() + [line];
    AsPropertiesAppend(b.Lines(), [line]);
    AsPropertiesOne(line);
  }

  lemma {:induction false} TakeAllAddsLines(b: Building, ps: seq<Property>)
    ensures AsProperties(b.TakeAll(ps).Lines()) == AsProperties(b.Lines()) + ps
    decreases |ps|
  {
    hide Building.Take, AsProperties, Building.Lines;
    if ps != [] {
      TakeAddsLine(b, ps[0]);
      TakeAllAddsLines(b.Take(ps[0]), ps[1..]);
      assert ps == [ps[0]] + ps[1..];
    }
  }

  lemma {:induction false} CloseAllKeepsLines(b: Building)
    ensures LinesOf(b.CloseAll()) == b.Lines()
    decreases |b.open|
  {
    hide LinesOf, OpenLines, Building.Lines, Building.CloseInnermost;
    if b.open == [] {
      assert b.Lines() == LinesOf(b.root) by { NothingOpen(b); }
    } else {
      CloseShrinks(b, None);
      CloseAddsLine(b, None);
      CloseAllKeepsLines(b.CloseInnermost(None));
    }
  }

  lemma {:induction false} NothingOpen(b: Building)
    requires b.open == []
    ensures b.Lines() == LinesOf(b.root)
  {
  }

  lemma {:induction false} CloseShrinks(b: Building, end: Option<Boundary>)
    requires b.open != []
    ensures |b.CloseInnermost(end).open| == |b.open| - 1
  {
  }

  /** The lines of the tree are the lines it was built from, in the order they were read. */
  lemma {:induction false} BuildKeepsLines(ps: seq<Property>)
    ensures AsProperties(LinesOf(Build(ps))) == ps
  {
    hide LinesOf, Building.CloseAll, Building.TakeAll, AsProperties, Building.Lines;
    CloseAllKeepsLines(EMPTY.TakeAll(ps));
    TakeAllAddsLines(EMPTY, ps);
    EmptyLines();
    assert AsProperties([]) == [] by { NoLines(); }
  }

  lemma {:induction false} NoLines()
    ensures AsProperties([]) == []
  {
  }

  // -------------------------------------------------------------------------
  // Which trees the builder hands back
  // -------------------------------------------------------------------------

  predicate Opens(b: Boundary) {
    EqIgnoreCase(b.keyword, BEGIN) && b.layout.hasSeparator
  }

  predicate Closes(end: Boundary, name: Bytes) {
    EqIgnoreCase(end.keyword, END) && end.layout.hasSeparator && EqIgnoreCase(name, end.name)
  }

  /** Whether the line of p, standing inside a component of the given name, is only a property. */
  predicate StaysProperty(p: Property, enclosing: Option<Bytes>) {
    match Classify(p)
    case PropertyKind => true
    case BeginKind => false
    case EndKind => enclosing.None? || !EqIgnoreCase(enclosing.value, p.value)
  }

  /**
   An entry is where it belongs: a property could not have been a boundary there, a component is
   delimited by its own boundaries, and one without an END is the last thing in the document.
   */
  predicate WellItem(item: Item, enclosing: Option<Bytes>, last: bool)
    decreases item, 1
  {
    match item
    case PropertyItem(p) => StaysProperty(p, enclosing)
    case ComponentItem(c) =>
      && Opens(c.begin)
      && (if c.end.Some? then Closes(c.end.value, c.begin.name) else last)
      && WellNested(c.items, Some(c.begin.name), c.end.None?)
  }

  predicate WellNested(items: seq<Item>, enclosing: Option<Bytes>, last: bool)
    decreases items, 0
  {
    items == [] || (WellItem(items[0], enclosing, last && |items| == 1) && WellNested(items[1..], enclosing, last))
  }

  lemma {:induction false} WellNestedSnoc(items: seq<Item>, item: Item, enclosing: Option<Bytes>, last: bool)
    requires WellNested(items, enclosing, false) && WellItem(item, enclosing, last)
    ensures WellNested(items + [item], enclosing, last)
    decreases |items|
  {
    hide WellItem;
    var all := items + [item];
    if items == [] {
      assert all[0] == item && all[1..] == [];
    } else {
      WellItemAnywhere(items[0], enclosing);
      WellNestedSnoc(items[1..], item, enclosing, last);
      assert all[1..] == items[1..] + [item] && all[0] == items[0];
    }
  }

  lemma {:induction false} WellItemAnywhere(item: Item, enclosing: Option<Bytes>)
    requires WellItem(item, enclosing, false)
    ensures WellItem(item, enclosing, true)
  {
  }

  /** Well nested so far; `last` when the innermost level may already end in an unclosed component. */
  ghost predicate WellBuilding(b: Building, last: bool) {
    && WellNested(b.root, None, last && b.open == [])
    && forall i | 0 <= i < |b.open| ::
         Opens(b.open[i].begin) && WellNested(b.open[i].items, Some(b.open[i].begin.name), last && i == |b.open| - 1)
  }

  lemma {:induction false} PushWell(b: Building, item: Item, last: bool)
    requires WellBuilding(b, false) && WellItem(item, b.Enclosing(), last)
    ensures WellBuilding(b.Push(item), last)
  {
    hide WellItem, WellNested, Opens;
    if b.open == [] {
      WellNestedSnoc(b.root, item, None, last);
    } else {
      WellNestedSnoc(b.Innermost().items, item, b.Enclosing(), last);
    }
  }

  lemma {:induction false} CloseWell(b: Building, end: Option<Boundary>)
    requires b.open != [] && WellBuilding(b, end.None?)
    requires end.Some? ==> Closes(end.value, b.Innermost().begin.name)
    ensures WellBuilding(b.CloseInnermost(end), end.None?)
  {
    hide WellNested, Opens, Closes, Building.Push, Building.Enclosing;
    var rest := Building(b.root, b.open[..|b.open| - 1]);
    assert WellBuilding(rest, false);
    PushWell(rest, ComponentItem(Component(b.Innermost().begin, b.Innermost().items, end)), end.None?);
  }

  lemma {:induction false} TakeWell(b: Building, p: Property)
    requires WellBuilding(b, false)
    ensures WellBuilding(b.Take(p), false)
  {
    hide EqIgnoreCase, WellNested, Building.Push, Building.CloseInnermost;
    match Classify(p)
    case PropertyKind => PushWell(b, PropertyItem(p), false);
    case BeginKind => assert WellNested([], Some(p.value), false) by { NothingNested(Some(p.value)); }
    case EndKind =>
      if b.open != [] && EqIgnoreCase(b.Innermost().begin.name, p.value) {
        CloseWell(b, Some(BoundaryOf(p)));
      } else {
        PushWell(b, PropertyItem(p), false);
      }
  }

  lemma {:induction false} NothingNested(enclosing: Option<Bytes>)
    ensures WellNested([], enclosing, false)
  {
  }

  lemma {:induction false} TakeAllWell(b: Building, ps: seq<Property>)
    requires WellBuilding(b, false)
    ensures WellBuilding(b.TakeAll(ps), false)
    decreases |ps|
  {
    hide WellBuilding, Building.Take;
    if ps != [] {
      TakeWell(b, ps[0]);
      TakeAllWell(b.Take(ps[0]), ps[1..]);
    }
  }

  lemma {:induction false} WellNestedWeakens(items: seq<Item>, enclosing: Option<Bytes>)
    requires WellNested(items, enclosing, false)
    ensures WellNested(items, enclosing, true)
  {
    hide WellItem;
    if items != [] {
      WellItemAnywhere(items[0], enclosing);
      WellNestedWeakens(items[1..], enclosing);
    }
  }

  lemma {:induction false} CloseAllWell(b: Building)
    requires WellBuilding(b, true)
    ensures WellNested(b.CloseAll(), None, true)
    decreases |b.open|
  {
    hide WellNested, Opens, Building.CloseInnermost;
    if b.open != [] {
      CloseShrinks(b, None);
      CloseWell(b, None);
      CloseAllWell(b.CloseInnermost(None));
    }
  }

  lemma {:induction false} LastWeakens(b: Building)
    requires WellBuilding(b, false)
    ensures WellBuilding(b, true)
  {
    hide WellNested, Opens;
    WellNestedWeakens(b.root, None) by { assert WellNested(b.root, None, false); }
    forall i | 0 <= i < |b.open| ensures WellNested(b.open[i].items, Some(b.open[i].begin.name), true) {
      WellNestedWeakens(b.open[i].items, Some(b.open[i].begin.name));
    }
  }

  /** Every tree read is well nested. */
  lemma {:induction false} BuildIsWellNested(ps: seq<Property>)
    ensures WellNested(Build(ps), None, true)
  {
    hide WellBuilding, Building.TakeAll, Building.CloseAll, WellNested;
    assert WellBuilding(EMPTY, false) by { NothingNested(None); EmptyIsWell(); }
    TakeAllWell(EMPTY, ps);
    LastWeakens(EMPTY.TakeAll(ps));
    CloseAllWell(EMPTY.TakeAll(ps));
  }

  lemma {:induction false} EmptyIsWell()
    ensures WellBuilding(EMPTY, false)
  {
  }

  // -------------------------------------------------------------------------
  // A well-nested tree is read back from its own lines
  // -------------------------------------------------------------------------

  function PushAll(b: Building, items: seq<Item>): Building
    decreases |items|
  {
    if items == [] then b else PushAll(b.Push(items[0]), items[1..])
  }

  lemma {:induction false} PushKeepsEnclosing(b: Building, item: Item)
    ensures b.Push(item).Enclosing() == b.Enclosing()
  {
  }

  lemma {:induction false} PushAllShape(b: Building, items: seq<Item>)
    ensures b.open == [] ==> PushAll(b, items) == b.(root := b.root + items)
    ensures b.open != [] ==> PushAll(b, items) == Building(b.root, b.open[..|b.open| - 1] + [b.Innermost().(items := b.Innermost().items + items)])
    decreases |items|
  {
    if items == [] {
      assert b.root + [] == b.root;
      if b.open != [] { assert b.Innermost().items + [] == b.Innermost().items; }
    } else {
      var next := b.Push(items[0]);
      PushAllShape(next, items[1..]);
      assert items == [items[0]] + items[1..];
      if b.open == [] {
        assert b.root + [items[0]] + items[1..] == b.root + items;
      } else {
        assert b.Innermost().items + [items[0]] + items[1..] == b.Innermost().items + items;
        assert next.open[..|b.open| - 1] == b.open[..|b.open| - 1];
      }
    }
  }

  /** Opening a component, filling it and closing it is pushing it whole. */
  lemma {:induction false} FillAndClose(b: Building, c: Component)
    ensures PushAll(b.Open(c.begin), c.items).open != []
    ensures PushAll(b.Open(c.begin), c.items).CloseInnermost(c.end) == b.Push(ComponentItem(c))
    ensures PushAll(b.Open(c.begin), c.items).Enclosing() == Some(c.begin.name)
  {
    hide PushAll, Building.Push;
    PushAllShape(b.Open(c.begin), c.items);
    assert [] + c.items == c.items;
    var filled := PushAll(b.Open(c.begin), c.items);
    assert filled.open[..|filled.open| - 1] == b.open;
  }

  /** The lines of a component, as the properties the builder takes. */
  lemma {:induction false} ComponentProperties(c: Component)
    ensures AsProperties(ItemLines(ComponentItem(c)))
      == [AsProperty(BoundaryLine(c.begin))] + (AsProperties(LinesOf(c.items)) + AsProperties(EndLines(c.end)))
  {
    hide LinesOf, AsProperties, AsProperty;
    AsPropertiesAppend([BoundaryLine(c.begin)] + LinesOf(c.items), EndLines(c.end));
    AsPropertiesAppend([BoundaryLine(c.begin)], LinesOf(c.items));
    AsPropertiesOne(BoundaryLine(c.begin));
  }

  lemma {:induction false} TakeBegin(b: Building, begin: Boundary)
    requires Opens(begin)
    ensures b.Take(AsProperty(BoundaryLine(begin))) == b.Open(begin)
  {
  }

  lemma {:induction false} NotBoth(name: Bytes)
    requires EqIgnoreCase(name, END)
    ensures !EqIgnoreCase(name, BEGIN)
  {
  }

  lemma {:induction false} TakeEnd(b: Building, end: Boundary)
    requires b.open != [] && Closes(end, b.Innermost().begin.name)
    ensures b.Take(AsProperty(BoundaryLine(end))) == b.CloseInnermost(Some(end))
  {
    hide EqIgnoreCase, Building.CloseInnermost;
    NotBoth(end.keyword);
    assert end.keyword != [] by { KeywordNotEmpty(end.keyword); }
  }

  lemma {:induction false} KeywordNotEmpty(name: Bytes)
    requires EqIgnoreCase(name, END)
    ensures name != []
  {
  }

  lemma {:induction false} TakeProperty(b: Building, p: Property)
    requires StaysProperty(p, b.Enclosing())
    ensures b.Take(p) == b.Push(PropertyItem(p))
  {
    hide EqIgnoreCase, Building.Push;
  }

  lemma {:induction false} TakeAllOne(b: Building, p: Property)
    ensures b.TakeAll([p]) == b.Take(p)
  {
    hide Building.Take;
    assert [p][1..] == [];
  }

  /** Taking an entry's lines is pushing the entry. */
  lemma {:induction false} RetakeItem(b: Building, item: Item)
    requires WellItem(item, b.Enclosing(), false)
    ensures b.TakeAll(AsProperties(ItemLines(item))) == b.Push(item)
    decreases item, 1
  {
    hide Building.Take, Building.TakeAll, Building.Push, AsProperties, LinesOf, Opens, Closes, Building.CloseInnermost;
    match item
    case PropertyItem(p) =>
      AsPropertiesOne(PropertyLine(p));
      TakeAllOne(b, p);
      TakeProperty(b, p);
    case ComponentItem(c) =>
      RetakeOpened(b, c);
      var filled := PushAll(b.Open(c.begin), c.items);
      FillAndClose(b, c);
      AsPropertiesOne(BoundaryLine(c.end.value));
      TakeAllOne(filled, AsProperty(BoundaryLine(c.end.value)));
      TakeEnd(filled, c.end.value);
  }

  /** Taking a closed component's lines up to its END opens and fills it. */
  lemma {:induction false} RetakeOpened(b: Building, c: Component)
    requires WellItem(ComponentItem(c), b.Enclosing(), false)
    ensures b.TakeAll(AsProperties(ItemLines(ComponentItem(c))))
      == PushAll(b.Open(c.begin), c.items).TakeAll(AsProperties(EndLines(c.end)))
    decreases c, 2
  {
    hide Building.Take, Building.Push, AsProperties, LinesOf, Opens, Closes, PushAll, EndLines;
    var inner, closing := AsProperties(LinesOf(c.items)), AsProperties(EndLines(c.end));
    ComponentProperties(c);
    TakeFront(b, AsProperty(BoundaryLine(c.begin)), inner + closing);
    TakeBegin(b, c.begin);
    TakeAllAppend(b.Open(c.begin), inner, closing);
    Retake(b.Open(c.begin), c.items);
  }

  lemma {:induction false} TakeFront(b: Building, p: Property, ps: seq<Property>)
    ensures b.TakeAll([p] + ps) == b.Take(p).TakeAll(ps)
  {
    hide Building.Take;
    assert ([p] + ps)[1..] == ps;
  }

  lemma {:induction false} LinesOfCons(items: seq<Item>)
    requires items != []
    ensures AsProperties(LinesOf(items)) == AsProperties(ItemLines(items[0])) + AsProperties(LinesOf(items[1..]))
  {
    hide AsProperties, ItemLines;
    AsPropertiesAppend(ItemLines(items[0]), LinesOf(items[1..]));
  }

  lemma {:induction false} Retake(b: Building, items: seq<Item>)
    requires WellNested(items, b.Enclosing(), false)
    ensures b.TakeAll(AsProperties(LinesOf(items))) == PushAll(b, items)
    decreases items, 0
  {
    hide Building.Take, Building.TakeAll, Building.Push, AsProperties, LinesOf, WellItem;
    if items == [] {
      assert b.TakeAll(AsProperties(LinesOf(items))) == b by { TakeNothing(b); }
    } else {
      LinesOfCons(items);
      RetakeItem(b, items[0]);
      TakeAllAppend(b, AsProperties(ItemLines(items[0])), AsProperties(LinesOf(items[1..])));
      PushKeepsEnclosing(b, items[0]);
      Retake(b.Push(items[0]), items[1..]);
    }
  }

  lemma {:induction false} TakeNothing(b: Building)
    ensures b.TakeAll(AsProperties(LinesOf([]))) == b
  {
  }

  /** The same at the end of the input, where components may be left open. */
  lemma {:induction false} RetakeLast(b: Building, items: seq<Item>)
    requires WellNested(items, b.Enclosing(), true)
    ensures b.TakeAll(AsProperties(LinesOf(items))).CloseAll() == PushAll(b, items).CloseAll()
    decreases items, 0
  {
    hide Building.Take, Building.TakeAll, Building.Push, AsProperties, LinesOf, Building.CloseAll, WellItem;
    if items == [] {
      assert b.TakeAll(AsProperties(LinesOf(items))) == b by { TakeNothing(b); }
    } else {
      LinesOfCons(items);
      TakeAllAppend(b, AsProperties(ItemLines(items[0])), AsProperties(LinesOf(items[1..])));
      if |items| == 1 {
        RetakeLastItem(b, items[0]);
        var after := b.TakeAll(AsProperties(ItemLines(items[0])));
        assert items[1..] == [];
        TakeNothing(after);
        assert PushAll(b, items) == b.Push(items[0]);
      } else {
        RetakeItem(b, items[0]);
        PushKeepsEnclosing(b, items[0]);
        RetakeLast(b.Push(items[0]), items[1..]);
      }
    }
  }

  lemma {:induction false} RetakeLastItem(b: Building, item: Item)
    requires WellItem(item, b.Enclosing(), true)
    ensures b.TakeAll(AsProperties(ItemLines(item))).CloseAll() == b.Push(item).CloseAll()
    decreases item, 1
  {
    hide Building.Take, Building.TakeAll, Building.Push, AsProperties, LinesOf, Building.CloseAll, Opens, Closes;
    if item.ComponentItem? && item.component.end.None? {
      var c := item.component;
      hide PushAll;
      ComponentProperties(c);
      var inner := AsProperties(LinesOf(c.items));
      assert AsProperties(EndLines(None)) == [] by { NoLines(); }
      assert inner + [] == inner;
      TakeFront(b, AsProperty(BoundaryLine(c.begin)), inner);
      TakeBegin(b, c.begin);
      RetakeLast(b.Open(c.begin), c.items);
      FillAndClose(b, c);
      CloseAllStep(PushAll(b.Open(c.begin), c.items));
    } else {
      RetakeItem(b, item);
    }
  }

  lemma {:induction false} CloseAllStep(b: Building)
    requires b.open != []
    ensures b.CloseAll() == b.CloseInnermost(None).CloseAll()
  {
    CloseShrinks(b, None);
  }

  /** A tree is the one its own lines are read as exactly when it is well nested. */
  lemma {:induction false} RebuildIff(items: seq<Item>)
    ensures Build(AsProperties(LinesOf(items))) == items <==> WellNested(items, None, true)
  {
    hide Building.TakeAll, AsProperties, LinesOf, WellNested, PushAll;
    BuildIsWellNested(AsProperties(LinesOf(items)));
    if WellNested(items, None, true) {
      RetakeLast(EMPTY, items);
      PushAllShape(EMPTY, items);
      assert [] + items == items;
    }
  }

  // -------------------------------------------------------------------------
  // What is a boundary, in the letters themselves
  // -------------------------------------------------------------------------

  /** A BEGIN line: those five letters in any case, a separator, no parameters. */
  predicate SpellsBegin(p: Property) {
    SameLetters(p.name, [66, 69, 71, 73, 78]) && p.layout.hasSeparator && p.parameters == []
  }

  predicate SpellsEnd(p: Property) {
    SameLetters(p.name, [69, 78, 68]) && p.layout.hasSeparator && p.parameters == []
  }

  lemma {:induction false} ClassifyIs(p: Property)
    ensures Classify(p) == if SpellsBegin(p) then BeginKind else if SpellsEnd(p) then EndKind else PropertyKind
  {
    EqIgnoreCaseIff(p.name, BEGIN);
    EqIgnoreCaseIff(p.name, END);
  }

  function AsItems(ps: seq<Property>): (r: seq<Item>)
    ensures |r| == |ps| && forall i | 0 <= i < |ps| :: r[i] == PropertyItem(ps[i])
  {
    seq(|ps|, i requires 0 <= i < |ps| => PropertyItem(ps[i]))
  }

  lemma {:induction false} TakesProperties(begin: Boundary, held: seq<Item>, ps: seq<Property>)
    requires forall i | 0 <= i < |ps| :: !SpellsBegin(ps[i]) && !SpellsEnd(ps[i])
    ensures Building([], [OpenComponent(begin, held)]).TakeAll(ps) == Building([], [OpenComponent(begin, held + AsItems(ps))])
    decreases |ps|
  {
    hide SpellsBegin, SpellsEnd, Classify;
    var b := Building([], [OpenComponent(begin, held)]);
    if ps == [] {
      assert held + AsItems(ps) == held;
    } else {
      ClassifyIs(ps[0]);
      assert b.Take(ps[0]) == Building([], [OpenComponent(begin, held + [PropertyItem(ps[0])])]);
      TakesProperties(begin, held + [PropertyItem(ps[0])], ps[1..]);
      assert held + [PropertyItem(ps[0])] + AsItems(ps[1..]) == held + AsItems(ps);
    }
  }

  /**
   The lines between a BEGIN and the END that names the same component are its properties; an END
   that names another is one more of them, and the component is left without an END.
   */
  lemma {:induction false} SpelledComponentIsBuilt(begin: Property, ps: seq<Property>, end: Property)
    requires SpellsBegin(begin) && SpellsEnd(end)
    requires forall i | 0 <= i < |ps| :: !SpellsBegin(ps[i]) && !SpellsEnd(ps[i])
    ensures var opening := Boundary(begin.name, begin.value, begin.layout);
      var closing := Boundary(end.name, end.value, end.layout);
      Build([begin] + ps + [end]) ==
        [ComponentItem(if SameLetters(begin.value, end.value) then Component(opening, AsItems(ps), Some(closing))
                       else Component(opening, AsItems(ps + [end]), None))]
  {
    hide SpellsBegin, SpellsEnd, Classify, EqIgnoreCase, SameLetters;
    var opening := BoundaryOf(begin);
    ClassifyIs(begin);
    EqIgnoreCaseIff(begin.value, end.value);
    assert [begin] + ps + [end] == [begin] + (ps + [end]);
    TakeFront(EMPTY, begin, ps + [end]);
    assert EMPTY.Take(begin) == Building([], [OpenComponent(opening, [])]);
    TakesProperties(opening, [], ps);
    assert [] + AsItems(ps) == AsItems(ps);
    TakeAllAppend(Building([], [OpenComponent(opening, [])]), ps, [end]);
    EndAfter(opening, AsItems(ps), end);
    assert AsItems(ps + [end]) == AsItems(ps) + [PropertyItem(end)];
  }

  lemma {:induction false} EndAfter(begin: Boundary, held: seq<Item>, end: Property)
    requires SpellsEnd(end)
    ensures Building([], [OpenComponent(begin, held)]).TakeAll([end]).CloseAll() ==
      [ComponentItem(if EqIgnoreCase(begin.name, end.value) then Component(begin, held, Some(BoundaryOf(end)))
                     else Component(begin, held + [PropertyItem(end)], None))]
  {
    hide SpellsBegin, SpellsEnd, Classify, EqIgnoreCase;
    var filled := Building([], [OpenComponent(begin, held)]);
    ClassifyIs(end);
    BeginIsNotEnd(end);
    TakeFront(filled, end, []);
    assert [end] + [] == [end];
    if EqIgnoreCase(begin.name, end.value) {
      assert filled.Take(end).open == [];
    } else {
      CloseAllStep(filled.Take(end));
    }
  }

  lemma {:induction false} BeginIsNotEnd(p: Property)
    requires SpellsEnd(p)
    ensures !SpellsBegin(p)
  {
  }
}
