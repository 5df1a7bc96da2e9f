/**
 Whole documents: what makes one read back as itself, why every document read does, and what a
 write to one component, however deep, does to the rest of the file.
 */
module Documents {
  import opened Octets
  import opened Syntax
  import opened Grammar
  import opened Lexer
  import opened RecordedFolds
  import opened Nesting
  import opened Parse
  import opened Emit
  import opened RoundTrip
  import opened Bare
  import opened ReadBack

  // -------------------------------------------------------------------------
  // Documents that read back as themselves
  // -------------------------------------------------------------------------

  function LinesAs(items: seq<Item>): seq<Property> {
    AsProperties(LinesOf(items))
  }

  /** What a serialized document is. */
  function Serialized(doc: seq<Item>): Bytes {
    Written(LinesOf(doc))
  }

  /** Reading the document's own octets gives it back: names, parameters, values and nesting. */
  ghost predicate ReadsBack(doc: seq<Item>) {
    BareItems(Build(StoredLines(Serialized(doc)))) == BareItems(doc)
  }

  /** Its lines are readable and stay apart, and its nesting is the one its lines say. */
  ghost predicate Sound(doc: seq<Item>) {
    WellNested(doc, None, true) && AllReadable(LinesAs(doc)) && Separated(LinesAs(doc))
  }

  lemma {:induction false} SerializedIsLay(doc: seq<Item>)
    ensures Serialized(doc) == Lay(LinesAs(doc))
  {
    hide LinesOf, Pieces, WrittenFrom, Lay;
    WrittenIsPieces(LinesOf(doc), false);
    PiecesOfProperties(LinesOf(doc));
    NoPieces();
  }

  lemma {:induction false} NoLinesAs()
    ensures LinesAs([]) == []
  {
  }

  lemma {:induction false} LinesAsAppend(a: seq<Item>, b: seq<Item>)
    ensures LinesAs(a + b) == LinesAs(a) + LinesAs(b)
  {
    hide LinesOf, AsProperties;
    LinesOfAppend(a, b);
    AsPropertiesAppend(LinesOf(a), LinesOf(b));
  }

  lemma {:induction false} LinesAsOne(item: Item)
    ensures LinesAs([item]) == match item case PropertyItem(p) => [p] case ComponentItem(c) => ComponentLines(c)
  {
    hide AsProperties, LinesOf;
    LinesOfSingleton(item);
    match item
    case PropertyItem(p) =>
      AsPropertiesOne(PropertyLine(p));
      PropertyItemLines(p);
    case ComponentItem(c) => ComponentProperties(c);
  }

  lemma {:induction false} LinesAsFront(items: seq<Item>)
    requires items != []
    ensures LinesAs(items) == LinesAs([items[0]]) + LinesAs(items[1..])
  {
    hide LinesAs;
    assert items == [items[0]] + items[1..];
    LinesAsAppend([items[0]], items[1..]);
  }

  function BeginLine(begin: Boundary): seq<Property> {
    [AsProperty(BoundaryLine(begin))]
  }

  function EndLine(end: Option<Boundary>): seq<Property> {
    AsProperties(EndLines(end))
  }

  function ComponentLines(c: Component): seq<Property> {
    BeginLine(c.begin) + LinesAs(c.items) + EndLine(c.end)
  }

  lemma {:induction false} RebuildLines(doc: seq<Item>)
    requires WellNested(doc, None, true)
    ensures Build(LinesAs(doc)) == doc
  {
    hide Build, WellNested, AsProperties, LinesOf;
    RebuildIff(doc);
  }

  lemma {:induction false} BareLinesAppend(a: seq<Property>, b: seq<Property>)
    ensures BareLines(a + b) == BareLines(a) + BareLines(b)
  {
    hide BareProperty, BareLines;
    if a == [] {
      assert a + b == b;
      NoBareLines();
      assert [] + BareLines(b) == BareLines(b);
    } else {
      BareLinesAppend(a[1..], b);
      AppendFront(a, b);
      BareLinesFront(a);
      BareLinesFront(a + b);
      AppendTwice([BareProperty(a[0])], BareLines(a[1..]), BareLines(b));
    }
  }

  lemma {:induction false} BareLinesFront(ps: seq<Property>)
    requires ps != []
    ensures BareLines(ps) == [BareProperty(ps[0])] + BareLines(ps[1..])
  {
  }

  /** Forgetting the layout of a tree and of its lines is the same. */
  lemma {:induction false} LinesOfBare(items: seq<Item>)
    ensures LinesAs(BareItems(items)) == BareLines(LinesAs(items))
    decreases items, 0
  {
    hide LinesAs, BareItem, BareLines;
    if items == [] {
      NoLinesAs();
      assert BareLines([]) == [] by { NoBareLines(); }
    } else {
      LinesAsFront(items);
      LinesAsAppend([BareItem(items[0])], BareItems(items[1..]));
      LinesOfBareItem(items[0]);
      LinesOfBare(items[1..]);
      BareLinesAppend(LinesAs([items[0]]), LinesAs(items[1..]));
    }
  }

  lemma {:induction false} NoBareLines()
    ensures BareLines([]) == []
  {
  }

  lemma {:induction false} LinesOfBareItem(item: Item)
    ensures LinesAs([BareItem(item)]) == BareLines(LinesAs([item]))
    decreases item, 1
  {
    hide LinesAs, BareItems, BareLines, BeginLine, EndLine;
    LinesAsOne(item);
    LinesAsOne(BareItem(item));
    match item
    case PropertyItem(p) => OneBareLine(p);
    case ComponentItem(c) =>
      LinesOfBare(c.items);
      BareBoundaryLines(c.begin, c.end);
      BareLinesAppend(BeginLine(c.begin) + LinesAs(c.items), EndLine(c.end));
      BareLinesAppend(BeginLine(c.begin), LinesAs(c.items));
  }

  lemma {:induction false} BareBoundaryLines(begin: Boundary, end: Option<Boundary>)
    ensures BareLines(BeginLine(begin)) == BeginLine(BareBoundary(begin))
    ensures BareLines(EndLine(end)) == EndLine(BareEnd(end))
  {
    OneBareLine(AsProperty(BoundaryLine(begin)));
    if end.Some? {
      AsPropertiesOne(BoundaryLine(end.value));
      AsPropertiesOne(BoundaryLine(BareBoundary(end.value)));
      OneBareLine(AsProperty(BoundaryLine(end.value)));
    }
  }

  /** Nesting looks at nothing a bare tree has lost. */
  lemma {:induction false} BareNested(items: seq<Item>, enclosing: Option<Bytes>, last: bool)
    ensures WellNested(BareItems(items), enclosing, last) <==> WellNested(items, enclosing, last)
    decreases items, 0
  {
    hide EqIgnoreCase, WellItem, BareItem;
    if items != [] {
      BareItemNested(items[0], enclosing, last && |items| == 1);
      BareNested(items[1..], enclosing, last);
      assert BareItems(items)[1..] == BareItems(items[1..]);
      BareLength(items);
    }
  }

  lemma {:induction false} BareLength(items: seq<Item>)
    ensures |BareItems(items)| == |items|
  {
    hide BareItem;
    if items != [] { BareLength(items[1..]); }
  }

  lemma {:induction false} BareItemNested(item: Item, enclosing: Option<Bytes>, last: bool)
    ensures WellItem(BareItem(item), enclosing, last) <==> WellItem(item, enclosing, last)
    decreases item, 1
  {
    hide EqIgnoreCase, BareItems, WellNested;
    match item
    case PropertyItem(p) => assert Classify(BareProperty(p)) == Classify(p);
    case ComponentItem(c) => BareNested(c.items, Some(c.begin.name), c.end.None?);
  }

  lemma {:induction false} SoundComesBack(doc: seq<Item>)
    requires Sound(doc)
    ensures ReadsBack(doc)
  {
    hide LinesAs, WellNested, AllReadable, Separated, Serialized, BareItems, Build, Lay, StoredLines, BareLines;
    SerializedIsLay(doc);
    LinesReadBackIff(LinesAs(doc));
    BareBuild(StoredLines(Serialized(doc)));
    BareBuild(LinesAs(doc));
    RebuildLines(doc);
  }

  /**
   Reading a document's own octets gives the document back, every name, parameter, value and
   component boundary where it was, exactly when it is sound.
   */
  lemma {:induction false} ReadsBackIff(doc: seq<Item>)
    ensures ReadsBack(doc) <==> Sound(doc)
  {
    hide LinesAs, WellNested, AllReadable, Separated, Serialized, BareItems, Build, Lay, StoredLines, BareLines;
    if ReadsBack(doc) {
      var lines := StoredLines(Serialized(doc));
      BuildKeepsLines(lines);
      assert LinesAs(Build(lines)) == lines by { LinesAsIs(Build(lines)); }
      LinesOfBare(Build(lines));
      LinesOfBare(doc);
      SerializedIsLay(doc);
      LinesReadBackIff(LinesAs(doc));
      BuildIsWellNested(lines);
      BareNested(Build(lines), None, true);
      BareNested(doc, None, true);
    } else if Sound(doc) {
      SoundComesBack(doc);
    }
  }

  lemma {:induction false} LinesAsIs(items: seq<Item>)
    ensures LinesAs(items) == AsProperties(LinesOf(items))
  {
  }

  /** A document that reads back: its lines, layout included, as the next reader stores them. */
  lemma {:induction false} ReadsBackLineByLine(doc: seq<Item>)
    requires ReadsBack(doc)
    ensures StoredLines(Serialized(doc)) == SeenAll(LinesAs(doc))
  {
    hide LinesAs, WellNested, AllReadable, Separated, Serialized, BareItems, Build, Lay, StoredLines;
    ReadsBackIff(doc);
    SerializedIsLay(doc);
    WrittenReadsBack(LinesAs(doc));
  }

  // -------------------------------------------------------------------------
  // Every document read is one
  // -------------------------------------------------------------------------

  lemma {:induction false} StoredFollows(s: Bytes)
    requires s != []
    ensures Follows(ReadLogical(s, 0).ending, ReadLogical(s, 0).rest)
  {
    hide ReadLogical;
    ReadLogicalShape(s, 0);
  }

  lemma {:induction false} StoredEndingInPlace(s: Bytes)
    requires s != []
    ensures EndingInPlace(StoredLine(ReadLogical(s, 0)), |StoredLines(s)| == 1) == ReadLogical(s, 0).ending
  {
    hide ReadLogical, Split;
    ReadLogicalShape(s, 0);
    if ReadLogical(s, 0).ending.None? {
      assert StoredLines(s) == [StoredLine(ReadLogical(s, 0))];
    }
  }

  /** A stored line is written with the octet it was read with in front, wherever its folds sat. */
  lemma {:induction false} StoredFirst(s: Bytes)
    requires s != []
    ensures var written := Body(PropertyLine(StoredLine(ReadLogical(s, 0)))) + EndingOctets(ReadLogical(s, 0).ending);
      written != [] && written[0] == s[0]
  {
    hide ReadLogical, Inject, Split, Spans, Concat;
    var l := ReadLogical(s, 0);
    StoredContent(l);
    var held := SaturateFolds(l.folds);
    if TerminatorAt(s).None? {
      ReadsOctet(s, 0);
      ReadLogicalShape(s[1..], 1);
      if held == [] {
        InjectStops(l.content, held, 0);
      } else {
        InjectOctet(l.content, held, 0);
      }
    } else if FoldsAt(s, TerminatorAt(s).value) {
      ReadsFold(s, 0, TerminatorAt(s).value);
      InjectTakes(l.content, held, 0);
      assert held[0].Octets()[0] == s[0];
    } else {
      ReadsEnd(s, 0);
      InjectStops([], [], 0);
    }
  }

  lemma {:induction false} LayStoredFirst(s: Bytes)
    requires s != []
    ensures var written := Lay(StoredLines(s)); written != [] && written[0] == s[0]
  {
    hide ReadLogical, StoredLine, Lay, Piece, Body, EndingOctets;
    var ps := StoredLines(s);
    LayFront(ps);
    StoredFirst(s);
    StoredEnding(s);
  }

  lemma {:induction false} StoredLinesSound(s: Bytes)
    ensures AllReadable(StoredLines(s)) && Separated(StoredLines(s))
    decreases |s|
  {
    hide ReadLogical, StoredLine, Lay, Piece, Readable, EndingInPlace;
    if s != [] {
      var l := ReadLogical(s, 0);
      var ps := StoredLines(s);
      StoredIsReadable(s);
      StoredLinesSound(l.rest);
      LayStored(l.rest);
      LayStored(s);
      if l.rest != [] { LayStoredFirst(l.rest); }
      LayFront(ps);
      StoredFollows(s);
      StoredEndingInPlace(s);
      assert ps[1..] == StoredLines(l.rest);
      assert |Piece(PropertyLine(ps[0]), |ps| == 1)| == |s| - |l.rest|;
    }
  }

  /** Every document that was read reads back, wherever its folds sat. */
  lemma {:induction false} ReadDocumentReadsBack(input: Bytes)
    ensures ReadsBack(Build(StoredLines(input)))
  {
    hide Build, LinesOf, WellNested, Separated, AllReadable, StoredLines, ReadsBack;
    BuildIsWellNested(StoredLines(input));
    BuildKeepsLines(StoredLines(input));
    StoredLinesSound(input);
    ReadsBackIff(Build(StoredLines(input)));
  }

  // -------------------------------------------------------------------------
  // One component of a document
  // -------------------------------------------------------------------------

  /** The component a path of entry numbers leads to. */
  function Reach(items: seq<Item>, path: seq<nat>): Option<Component>
    decreases |path|
  {
    if path == [] || path[0] >= |items| || items[path[0]].PropertyItem? then None
    else if |path| == 1 then Some(items[path[0]].component)
    else Reach(items[path[0]].component.items, path[1..])
  }

  /** The tree with another component there. */
  function Put(items: seq<Item>, path: seq<nat>, c: Component): (r: seq<Item>)
    requires Reach(items, path).Some?
    ensures |r| == |items|
    decreases |path|
  {
    var here := items[path[0]].component;
    items[path[0] := ComponentItem(if |path| == 1 then c else here.(items := Put(here.items, path[1..], c)))]
  }

  /** The lines above the component, and those below it. */
  function LinesAbove(items: seq<Item>, path: seq<nat>): seq<Property>
    requires Reach(items, path).Some?
    decreases |path|
  {
    var here := items[path[0]].component;
    LinesAs(items[..path[0]]) + if |path| == 1 then [] else BeginLine(here.begin) + LinesAbove(here.items, path[1..])
  }

  function LinesBelow(items: seq<Item>, path: seq<nat>): seq<Property>
    requires Reach(items, path).Some?
    decreases |path|
  {
    var here := items[path[0]].component;
    (if |path| == 1 then [] else LinesBelow(here.items, path[1..]) + EndLine(here.end)) + LinesAs(items[path[0] + 1..])
  }

  lemma {:induction false} LinesAsAt(items: seq<Item>, at: nat)
    requires at < |items|
    ensures LinesAs(items) == LinesAs(items[..at]) + LinesAs([items[at]]) + LinesAs(items[at + 1..])
  {
    hide LinesAs;
    assert items == items[..at] + [items[at]] + items[at + 1..];
    LinesAsAppend(items[..at] + [items[at]], items[at + 1..]);
    LinesAsAppend(items[..at], [items[at]]);
  }

  lemma {:induction false} AssociateAround<T>(a: seq<T>, b: seq<T>, c: seq<T>, x: seq<T>, d: seq<T>, e: seq<T>, f: seq<T>)
    ensures a + (b + (c + x + d) + e) + f == (a + (b + c)) + x + ((d + e) + f)
  {
  }

  /** The document's lines are those above the component, its own, and those below. */
  lemma {:induction false} LinesOfPut(items: seq<Item>, path: seq<nat>, c: Component)
    requires Reach(items, path).Some?
    ensures LinesAs(Put(items, path, c)) == LinesAbove(items, path) + ComponentLines(c) + LinesBelow(items, path)
    decreases |path|
  {
    hide LinesAs, BeginLine, EndLine;
    var k := path[0];
    var here := items[k].component;
    var put := Put(items, path, c);
    LinesAsAt(put, k);
    LinesAsOne(put[k]);
    assert put[..k] == items[..k] && put[k + 1..] == items[k + 1..];
    if |path| == 1 {
      assert LinesAs(items[..k]) + [] == LinesAs(items[..k]) && [] + LinesAs(items[k + 1..]) == LinesAs(items[k + 1..]);
    } else {
      LinesOfPut(here.items, path[1..], c);
      AssociateAround(LinesAs(items[..k]), BeginLine(here.begin), LinesAbove(here.items, path[1..]), ComponentLines(c),
                      LinesBelow(here.items, path[1..]), EndLine(here.end), LinesAs(items[k + 1..]));
    }
  }

  lemma {:induction false} PutSame(items: seq<Item>, path: seq<nat>)
    requires Reach(items, path).Some?
    ensures Put(items, path, Reach(items, path).value) == items
    decreases |path|
  {
    if |path| > 1 { PutSame(items[path[0]].component.items, path[1..]); }
  }

  /** What one component can be exchanged for without disturbing the nesting around it. */
  ghost predicate Exchangeable(c: Component, d: Component) {
    forall last :: WellItem(ComponentItem(c), None, last) ==> WellItem(ComponentItem(d), None, last)
  }

  lemma {:induction false} ComponentAnywhere(c: Component, enclosing: Option<Bytes>, last: bool)
    ensures WellItem(ComponentItem(c), enclosing, last) <==> WellItem(ComponentItem(c), None, last)
  {
  }

  lemma {:induction false} WellNestedAt(items: seq<Item>, at: nat, item: Item, enclosing: Option<Bytes>, last: bool)
    requires at < |items| && WellNested(items, enclosing, last)
    ensures WellItem(items[at], enclosing, last && at == |items| - 1)
    ensures WellItem(item, enclosing, last && at == |items| - 1) ==> WellNested(items[at := item], enclosing, last)
    decreases at
  {
    hide WellItem;
    if at > 0 {
      assert items[at := item][1..] == items[1..][at - 1 := item];
      WellNestedAt(items[1..], at - 1, item, enclosing, last);
    } else {
      assert items[at := item][1..] == items[1..];
    }
  }

  lemma {:induction false} PutNested(items: seq<Item>, path: seq<nat>, d: Component, enclosing: Option<Bytes>, last: bool)
    requires Reach(items, path).Some? && WellNested(items, enclosing, last)
    requires Exchangeable(Reach(items, path).value, d)
    ensures WellNested(Put(items, path, d), enclosing, last)
    decreases |path|
  {
    hide WellNested, Opens, Closes;
    var k := path[0];
    var here := items[k].component;
    var ends := last && k == |items| - 1;
    WellNestedAt(items, k, items[k], enclosing, last);
    ComponentAnywhere(here, enclosing, ends);
    if |path| == 1 {
      assert Exchangeable(here, d);
      ComponentAnywhere(d, enclosing, ends);
      WellNestedAt(items, k, ComponentItem(d), enclosing, last);
    } else {
      PutNested(here.items, path[1..], d, Some(here.begin.name), here.end.None?);
      WellNestedAt(items, k, ComponentItem(here.(items := Put(here.items, path[1..], d))), enclosing, last);
    }
  }
}
