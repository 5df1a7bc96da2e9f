/**
 Reading a written file back under the caller's own bounds: which files the reader still accepts,
 and exactly when an accepted change leaves one it does.
 */
module Bounds {
  import opened Octets
  import opened Budget
  import opened Syntax
  import opened Grammar
  import opened HeaderMachine
  import opened Lexer
  import opened RecordedFolds
  import opened Refold
  import opened Nesting
  import opened Ledger
  import opened Parse
  import opened RoundTrip
  import opened Bare
  import opened Layout
  import opened Mutate
  import opened Documents
  import opened Writes
  import opened Runs

  // -------------------------------------------------------------------------
  // The bounds, on lines as they are stored
  // -------------------------------------------------------------------------

  predicate PartsWithin(p: Property, limits: Limits) {
    && HeaderLength(HeaderOf(p)) <= limits.grammar.maxHeaderBytes
    && |p.parameters| <= limits.grammar.maxParameters
    && |p.value| <= limits.maxValueBytes
  }

  predicate StoredWithin(p: Property, limits: Limits) {
    PartsWithin(p, limits) && |p.layout.folds| <= limits.grammar.maxFoldsPerLine
  }

  ghost predicate AllStoredWithin(ps: seq<Property>, limits: Limits) {
    forall i | 0 <= i < |ps| :: StoredWithin(ps[i], limits)
  }

  lemma {:induction false} AllStoredCons(p: Property, ps: seq<Property>, limits: Limits)
    ensures AllStoredWithin([p] + ps, limits) <==> StoredWithin(p, limits) && AllStoredWithin(ps, limits)
  {
    hide StoredWithin;
    assert ([p] + ps)[0] == p;
    assert forall i | 0 <= i < |ps| :: ps[i] == ([p] + ps)[i + 1];
  }

  lemma {:induction false} WithinIsStored(l: Logical, limits: Limits)
    ensures Within(l, limits.grammar, limits.maxValueBytes) <==> StoredWithin(StoredLine(l), limits)
  {
    hide Split, HeaderLength;
    assert HeaderOf(StoredLine(l)) == Split(l.content);
  }

  /** An input is admitted exactly when every line it is stored as is within bounds. */
  lemma {:induction false} AdmittedIff(s: Bytes, limits: Limits)
    ensures Admitted(s, limits.grammar, limits.maxValueBytes) <==> AllStoredWithin(StoredLines(s), limits)
    decreases |s|
  {
    hide ReadLogical, StoredLine, StoredWithin, Within;
    if s != [] {
      hide AllStoredWithin;
      var l := ReadLogical(s, 0);
      WithinIsStored(l, limits);
      AdmittedIff(l.rest, limits);
      AllStoredCons(StoredLine(l), StoredLines(l.rest), limits);
    }
  }

  // -------------------------------------------------------------------------
  // The bounds, on lines as they are written
  // -------------------------------------------------------------------------

  /** What a reader of the line will find: its parts, and the folds it is written with. */
  predicate LineWithin(p: Property, limits: Limits) {
    PartsWithin(p, limits) && |FoldsSeen(p)| <= limits.grammar.maxFoldsPerLine
  }

  ghost predicate AllWithin(ps: seq<Property>, limits: Limits) {
    forall i | 0 <= i < |ps| :: LineWithin(ps[i], limits)
  }

  function SeenCharge(p: Property): nat {
    PartsCharge(p) + OctetCount(FoldsSeen(p))
  }

  function ChargeOf(ps: seq<Property>): nat {
    if ps == [] then 0 else SeenCharge(ps[0]) + ChargeOf(ps[1..])
  }

  lemma {:induction false} AllWithinAppend(a: seq<Property>, b: seq<Property>, limits: Limits)
    ensures AllWithin(a + b, limits) <==> AllWithin(a, limits) && AllWithin(b, limits)
  {
    hide LineWithin;
    assert forall i | 0 <= i < |a| :: a[i] == (a + b)[i];
    assert forall i | 0 <= i < |b| :: b[i] == (a + b)[|a| + i];
  }

  lemma {:induction false} AllWithinOne(p: Property, limits: Limits)
    ensures AllWithin([p], limits) <==> LineWithin(p, limits)
  {
    hide LineWithin;
    assert [p][0] == p;
  }

  lemma {:induction false} AllWithinCons(ps: seq<Property>, limits: Limits)
    requires ps != []
    ensures AllWithin(ps, limits) <==> LineWithin(ps[0], limits) && AllWithin(ps[1..], limits)
  {
    hide LineWithin, AllWithin;
    assert ps == [ps[0]] + ps[1..];
    AllWithinAppend([ps[0]], ps[1..], limits);
    AllWithinOne(ps[0], limits);
  }

  lemma {:induction false} ChargeAppend(a: seq<Property>, b: seq<Property>)
    ensures ChargeOf(a + b) == ChargeOf(a) + ChargeOf(b)
  {
    hide SeenCharge;
    if a == [] {
      assert a + b == b;
    } else {
      assert (a + b)[1..] == a[1..] + b;
      ChargeAppend(a[1..], b);
    }
  }

  lemma {:induction false} ChargeOne(p: Property)
    ensures ChargeOf([p]) == SeenCharge(p)
  {
    assert [p][1..] == [];
  }

  /** Three runs of lines in a row. */
  lemma {:induction false} ThreeRuns(a: seq<Property>, b: seq<Property>, c: seq<Property>, limits: Limits)
    ensures AllWithin(a + b + c, limits) <==> AllWithin(a, limits) && AllWithin(b, limits) && AllWithin(c, limits)
    ensures ChargeOf(a + b + c) == ChargeOf(a) + ChargeOf(b) + ChargeOf(c)
  {
    hide AllWithin, ChargeOf;
    AllWithinAppend(a + b, c, limits);
    AllWithinAppend(a, b, limits);
    ChargeAppend(a + b, c);
    ChargeAppend(a, b);
  }

  lemma {:induction false} SeenBounds(p: Property, last: bool, limits: Limits)
    ensures StoredWithin(Seen(p, last), limits) <==> LineWithin(p, limits)
    ensures LineCharge(Seen(p, last)) == SeenCharge(p)
  {
    hide HeaderLength, FoldsSeen, OctetCount, ParametersCharge;
    SaturatedCount(FoldsSeen(p));
    assert HeaderOf(Seen(p, last)) == HeaderOf(p);
  }

  lemma {:induction false} SeenAllBounds(ps: seq<Property>, limits: Limits)
    ensures AllStoredWithin(SeenAll(ps), limits) <==> AllWithin(ps, limits)
    ensures Charged(SeenAll(ps)) == ChargeOf(ps)
  {
    hide Seen, StoredWithin, LineWithin, LineCharge, SeenCharge;
    if ps != [] {
      SeenBounds(ps[0], |ps| == 1, limits);
      SeenAllBounds(ps[1..], limits);
      AllStoredCons(Seen(ps[0], |ps| == 1), SeenAll(ps[1..]), limits);
      AllWithinCons(ps, limits);
    }
  }

  // -------------------------------------------------------------------------
  // Documents the reader accepts
  // -------------------------------------------------------------------------

  /** The document as a file: every line by itself, and all of them together, inside the bounds. */
  ghost predicate DocumentWithin(doc: seq<Item>, limits: Limits) {
    && AllWithin(LinesAs(doc), limits)
    && AllowsOctets(ChargeOf(LinesAs(doc)), limits)
    && AllowsTree(ItemCount(doc), Depth(doc), limits)
  }

  /** The reader accepts what the document is written as, and gives the document back. */
  ghost predicate Reopens(doc: seq<Item>, limits: Limits) {
    Accepts(Serialized(doc), limits) && ReadsBack(doc)
  }

  lemma {:induction false} CountsOfBare(items: seq<Item>)
    ensures ItemCount(BareItems(items)) == ItemCount(items) && Depth(BareItems(items)) == Depth(items)
    decreases items, 0
  {
    hide CountOf, DepthOf, BareItem;
    if items != [] {
      CountsOfBareItem(items[0]);
      CountsOfBare(items[1..]);
      assert BareItems(items)[1..] == BareItems(items[1..]);
    }
  }

  lemma {:induction false} CountsOfBareItem(item: Item)
    ensures CountOf(BareItem(item)) == CountOf(item) && DepthOf(BareItem(item)) == DepthOf(item)
    decreases item, 1
  {
    hide ItemCount, Depth, BareItems;
    match item
    case PropertyItem(_) =>
    case ComponentItem(c) => CountsOfBare(c.items);
  }

  /**
   A document that reads back is accepted as it is written exactly when its own lines, folded as
   they will be, and its own tree are inside the bounds.
   */
  lemma {:induction false} AcceptsWrittenIff(doc: seq<Item>, limits: Limits)
    requires ReadsBack(doc)
    ensures Admitted(Serialized(doc), limits.grammar, limits.maxValueBytes) <==> AllWithin(LinesAs(doc), limits)
    ensures Accepts(Serialized(doc), limits) <==> DocumentWithin(doc, limits)
  {
    hide Serialized, LinesAs, StoredLines, Admitted, SeenAll, AllWithin, AllStoredWithin, Charged, ChargeOf, ItemCount, Depth, Build, BareItems;
    hide AllowsOctets, AllowsTree;
    ReadsBackLineByLine(doc);
    AdmittedIff(Serialized(doc), limits);
    SeenAllBounds(LinesAs(doc), limits);
    CountsOfBare(doc);
    CountsOfBare(Build(StoredLines(Serialized(doc))));
  }

  lemma {:induction false} ReopensIff(doc: seq<Item>, limits: Limits)
    ensures Reopens(doc, limits) <==> ReadsBack(doc) && DocumentWithin(doc, limits)
  {
    hide ReadsBack, DocumentWithin, Accepts;
    if ReadsBack(doc) { AcceptsWrittenIff(doc, limits); }
  }

  // Every file that is accepted is one of them.

  /** A reader of the line finds all the folds that were stored, wherever each ended up. */
  lemma {:induction false} EveryFoldSeen(content: Bytes, folds: seq<FoldPoint>, pos: nat)
    requires forall i | 0 <= i < |folds| :: folds[i].offset <= pos + |content|
    ensures |SeenFolds(content, folds, pos)| == |folds| && OctetCount(SeenFolds(content, folds, pos)) == OctetCount(folds)
    decreases |folds|
  {
    hide FoldPoint.Octets;
    if folds != [] {
      var n := Taken(folds[0], pos);
      EveryFoldSeen(content[n..], folds[1..], pos + n);
      OctetsWithoutOffset(folds[0], pos + n);
    }
  }

  lemma {:induction false} StoredBounds(s: Bytes, limits: Limits)
    ensures var p := StoredLine(ReadLogical(s, 0));
      (StoredWithin(p, limits) <==> LineWithin(p, limits)) && LineCharge(p) == SeenCharge(p)
  {
    hide ReadLogical, Split, HeaderLength, SeenFolds, OctetCount, ParametersCharge, LineContent;
    var l := ReadLogical(s, 0);
    ReadLogicalShape(s, 0);
    StoredContent(l);
    EveryFoldSeen(l.content, SaturateFolds(l.folds), 0);
  }

  lemma {:induction false} StoredLinesBounds(s: Bytes, limits: Limits)
    ensures AllStoredWithin(StoredLines(s), limits) <==> AllWithin(StoredLines(s), limits)
    ensures Charged(StoredLines(s)) == ChargeOf(StoredLines(s))
    decreases |s|
  {
    hide ReadLogical, StoredLine, StoredWithin, LineWithin, LineCharge, SeenCharge;
    if s != [] {
      var l := ReadLogical(s, 0);
      StoredBounds(s, limits);
      StoredLinesBounds(l.rest, limits);
      AllStoredCons(StoredLine(l), StoredLines(l.rest), limits);
      AllWithinCons(StoredLines(s), limits);
    }
  }

  /** What was read from a file reopens exactly under the bounds the file was accepted under. */
  lemma {:induction false} ReadDocumentReopensIff(input: Bytes, limits: Limits)
    ensures Reopens(Build(StoredLines(input)), limits) <==> Accepts(input, limits)
  {
    hide StoredLines, Admitted, AllWithin, AllStoredWithin, Charged, ChargeOf, ItemCount, Depth, Build, ReadsBack, LinesOf;
    hide Serialized, AllowsOctets, AllowsTree, Reopens;
    var doc := Build(StoredLines(input));
    ReadDocumentReadsBack(input);
    ReopensIff(doc, limits);
    BuildKeepsLines(StoredLines(input));
    AdmittedIff(input, limits);
    StoredLinesBounds(input, limits);
  }

  // -------------------------------------------------------------------------
  // What a step does to the counts
  // -------------------------------------------------------------------------

  lemma {:induction false} CountsAt(items: seq<Item>, at: nat, item: Item)
    requires at < |items|
    ensures ItemCount(items[at := item]) == ItemCount(items) - CountOf(items[at]) + CountOf(item)
    ensures DepthOf(item) == DepthOf(items[at]) ==> Depth(items[at := item]) == Depth(items)
    decreases at
  {
    hide CountOf, DepthOf;
    if at == 0 {
      assert items[at := item][1..] == items[1..];
    } else {
      assert items[at := item][1..] == items[1..][at - 1 := item];
      CountsAt(items[1..], at - 1, item);
    }
  }

  /** A component exchanged, at any depth, for one that nests as deep. */
  lemma {:induction false} PutCounts(items: seq<Item>, path: seq<nat>, d: Component)
    requires Reach(items, path).Some? && Depth(d.items) == Depth(Reach(items, path).value.items)
    ensures ItemCount(Put(items, path, d)) + ItemCount(Reach(items, path).value.items) == ItemCount(items) + ItemCount(d.items)
    ensures Depth(Put(items, path, d)) == Depth(items)
    decreases |path|
  {
    hide ItemCount, Depth;
    var k := path[0];
    var here := items[k].component;
    if |path| == 1 {
      CountsAt(items, k, ComponentItem(d));
    } else {
      PutCounts(here.items, path[1..], d);
      CountsAt(items, k, ComponentItem(here.(items := Put(here.items, path[1..], d))));
    }
  }

  /** Entries rewritten as entries of the same kind. */
  lemma {:induction false} SameShape(items: seq<Item>, written: seq<Item>)
    requires |written| == |items|
    requires forall i | 0 <= i < |items| :: written[i] == items[i] || (written[i].PropertyItem? && items[i].PropertyItem?)
    ensures ItemCount(written) == ItemCount(items) && Depth(written) == Depth(items)
  {
    if items != [] {
      assert forall i | 0 <= i < |items[1..]| :: written[1..][i] == written[i + 1] && items[1..][i] == items[i + 1];
      SameShape(items[1..], written[1..]);
    }
  }

  lemma {:induction false} InsertedCounts(c: Component, line: ParsedLine)
    ensures ItemCount(Inserted(c, line).items) == ItemCount(c.items) + 1 && Depth(Inserted(c, line).items) == Depth(c.items)
  {
    hide ItemCount, Depth, NewProperty;
    var at, added := InsertionPoint(c.items), PropertyItem(NewProperty(line));
    var tail := c.items[at..];
    ItemCountOne(added);
    ItemCountAppend([added], tail);
    assert c.items == c.items[..at] + tail;
    ItemCountAppend(c.items[..at], tail);
    if at > 0 {
      var front, last := c.items[..at - 1], c.items[at - 1];
      assert c.items[..at] == front + [last];
      ItemCountAppend(front, [last]);
      ItemCountAppend(front, [Terminated(last)]);
      ItemCountOne(last);
      ItemCountOne(Terminated(last));
      ItemCountAppend(front + [Terminated(last)], [added] + tail);
    }
  }

  lemma {:induction false} WithoutIdCounts(items: seq<Item>, id: Bytes)
    ensures ItemCount(WithoutId(items, id)) <= ItemCount(items) && Depth(WithoutId(items, id)) == Depth(items)
  {
    hide EqIgnoreCase;
    if items != [] {
      var rest := WithoutId(items[1..], id);
      WithoutIdCounts(items[1..], id);
      assert ([items[0]] + rest)[1..] == rest;
    }
  }

  lemma {:induction false} RemovedCounts(items: seq<Item>, at: nat)
    requires at < |items| && items[at].PropertyItem?
    ensures var left := items[..at] + items[at + 1..];
      ItemCount(left) <= ItemCount(items) && Depth(left) == Depth(items)
  {
    hide ItemCount, Depth;
    var front, tail := items[..at], items[at + 1..];
    assert items == front + ([items[at]] + tail);
    ItemCountAppend(front, [items[at]] + tail);
    ItemCountAppend([items[at]], tail);
    ItemCountOne(items[at]);
    ItemCountAppend(front, tail);
  }

  // -------------------------------------------------------------------------
  // What a step writes
  // -------------------------------------------------------------------------

  /** An entry as a rewriting step leaves it. */
  function EntryAfter(items: seq<Item>, e: Step, at: nat): Item
    requires at < |items| && IsRewrite(e)
  {
    if Addressed(items, e, at) then PropertyItem(RewriteOf(e).Of(items[at].property)) else items[at]
  }

  /** What the first n entries will be charged for. */
  function ChargeAfter(items: seq<Item>, e: Step, n: nat): nat
    requires n <= |items| && IsRewrite(e)
  {
    if n == 0 then 0 else ChargeAfter(items, e, n - 1) + ChargeOf(LinesAs([EntryAfter(items, e, n - 1)]))
  }

  /** The entry is not addressed, or the line written over it is inside the bounds on one line. */
  predicate EntryWritesWithin(items: seq<Item>, e: Step, at: nat, limits: Limits)
    requires at < |items| && IsRewrite(e)
  {
    Addressed(items, e, at) ==> LineWithin(RewriteOf(e).Of(items[at].property), limits)
  }

  /** Every line the step writes is inside the bounds on one line. */
  ghost predicate WritesWithin(doc: seq<Item>, e: Step, limits: Limits)
    requires Reach(doc, e.path).Some?
  {
    var items := Reach(doc, e.path).value.items;
    if IsRewrite(e) then forall i | 0 <= i < |items| :: EntryWritesWithin(items, e, i, limits)
    else if e.change.Add? then LineWithin(NewProperty(LineOf(e.change.line)), limits)
    else true
  }

  /** The bounds on the whole file have room for what the step writes. */
  ghost predicate LeavesRoom(doc: seq<Item>, e: Step, limits: Limits)
    requires Reach(doc, e.path).Some?
  {
    var c := Reach(doc, e.path).value;
    if IsRewrite(e) then
      var above, below := LinesAbove(doc, e.path) + BeginLine(c.begin), EndLine(c.end) + LinesBelow(doc, e.path);
      AllowsOctets(ChargeOf(above) + ChargeAfter(c.items, e, |c.items|) + ChargeOf(below), limits)
    else if e.change.Add? then
      && AllowsOctets(ChargeOf(LinesAs(doc)) + SeenCharge(NewProperty(LineOf(e.change.line))), limits)
      && AllowsTree(ItemCount(doc) + 1, Depth(doc), limits)
    else true
  }

  lemma {:induction false} EntriesAfter(items: seq<Item>, written: seq<Item>, e: Step, n: nat, limits: Limits)
    requires IsRewrite(e) && |written| == |items| && n <= |items|
    requires forall i | 0 <= i < |items| :: written[i] == EntryAfter(items, e, i)
    ensures ChargeOf(LinesAs(written[..n])) == ChargeAfter(items, e, n)
    ensures AllWithin(LinesAs(written[..n]), limits) <==> forall i | 0 <= i < n :: AllWithin(LinesAs([written[i]]), limits)
    decreases n
  {
    hide LinesAs, AllWithin, ChargeOf, EntryAfter;
    if n == 0 {
      assert written[..0] == [];
      NoLinesAs();
      NothingCharged(limits);
    } else {
      EntriesAfter(items, written, e, n - 1, limits);
      assert written[..n] == written[..n - 1] + [written[n - 1]];
      LinesAsAppend(written[..n - 1], [written[n - 1]]);
      AllWithinAppend(LinesAs(written[..n - 1]), LinesAs([written[n - 1]]), limits);
      ChargeAppend(LinesAs(written[..n - 1]), LinesAs([written[n - 1]]));
    }
  }

  lemma {:induction false} NothingCharged(limits: Limits)
    ensures ChargeOf([]) == 0 && AllWithin([], limits)
  {
  }

  /** One entry of lines that are within bounds is. */
  lemma {:induction false} EntryWithin(items: seq<Item>, at: nat, limits: Limits)
    requires at < |items| && AllWithin(LinesAs(items), limits)
    ensures AllWithin(LinesAs([items[at]]), limits)
  {
    hide LinesAs, AllWithin;
    LinesAsAt(items, at);
    ThreeRuns(LinesAs(items[..at]), LinesAs([items[at]]), LinesAs(items[at + 1..]), limits);
  }

  lemma {:induction false} EntryAfterWithin(items: seq<Item>, e: Step, at: nat, limits: Limits)
    requires at < |items| && IsRewrite(e) && AllWithin(LinesAs(items), limits)
    ensures AllWithin(LinesAs([EntryAfter(items, e, at)]), limits) <==> EntryWritesWithin(items, e, at, limits)
  {
    hide LinesAs, AllWithin, Rewrite.Of, RewriteOf, IsRewrite, LineWithin;
    EntryWithin(items, at, limits);
    AddressedHasId(items, e, at);
    if Addressed(items, e, at) {
      LinesAsOne(EntryAfter(items, e, at));
      AllWithinOne(RewriteOf(e).Of(items[at].property), limits);
    }
  }

  /** The document's lines in five runs, those of the component's entries in the middle. */
  lemma {:induction false} PutBounds(doc: seq<Item>, path: seq<nat>, items: seq<Item>, limits: Limits)
    requires Reach(doc, path).Some?
    ensures var c := Reach(doc, path).value;
      var lines := LinesAs(Put(doc, path, c.(items := items)));
      var above, below := LinesAbove(doc, path) + BeginLine(c.begin), EndLine(c.end) + LinesBelow(doc, path);
      && ChargeOf(lines) == ChargeOf(above) + ChargeOf(LinesAs(items)) + ChargeOf(below)
      && (AllWithin(lines, limits) <==> AllWithin(above, limits) && AllWithin(LinesAs(items), limits) && AllWithin(below, limits))
  {
    hide LinesAs, LinesAbove, LinesBelow, BeginLine, EndLine, Put, Reach, AllWithin, ChargeOf;
    var c := Reach(doc, path).value;
    LinesOfPut(doc, path, c.(items := items));
    AssociateComponent(LinesAbove(doc, path), BeginLine(c.begin), LinesAs(items), EndLine(c.end), LinesBelow(doc, path));
    ThreeRuns(LinesAbove(doc, path) + BeginLine(c.begin), LinesAs(items), EndLine(c.end) + LinesBelow(doc, path), limits);
  }

  lemma {:induction false} RewriteWithinIff(doc: seq<Item>, e: Step, limits: Limits, d: Component, next: seq<Item>)
    requires DocumentWithin(doc, limits) && IsRewrite(e) && Performs(doc, e, limits, d, next)
    ensures AllWithin(LinesAs(next), limits) <==> WritesWithin(doc, e, limits)
    ensures DocumentWithin(next, limits) <==> WritesWithin(doc, e, limits) && LeavesRoom(doc, e, limits)
  {
    hide LinesAs, LinesAbove, LinesBelow, BeginLine, EndLine, Put, Reach, AllWithin, ChargeOf, ItemCount, Depth, LineWithin;
    hide Addressed, Rewrite.Of, RewriteOf, IsRewrite, Performs, AllowsOctets, AllowsTree, EntryWritesWithin;
    PerformsReaches(doc, e, limits, d, next);
    var c := Reach(doc, e.path).value;
    PerformsRewrite(doc, e, limits, d, next);
    PerformsPuts(doc, e, limits, d, next);
    PutSame(doc, e.path);
    assert c.(items := c.items) == c;
    PutBounds(doc, e.path, c.items, limits);
    PutBounds(doc, e.path, d.items, limits);
    forall i | 0 <= i < |c.items|
      ensures d.items[i] == EntryAfter(c.items, e, i)
      ensures AllWithin(LinesAs([d.items[i]]), limits) <==> EntryWritesWithin(c.items, e, i, limits)
    {
      EntryAfterWithin(c.items, e, i, limits);
    }
    forall i | 0 <= i < |c.items| ensures d.items[i] == c.items[i] || (d.items[i].PropertyItem? && c.items[i].PropertyItem?) {
      AddressedHasId(c.items, e, i);
    }
    EntriesAfter(c.items, d.items, e, |c.items|, limits);
    assert d.items[..|c.items|] == d.items;
    SameShape(c.items, d.items);
    PutCounts(doc, e.path, d);
  }

  lemma {:induction false} PerformsPuts(doc: seq<Item>, e: Step, limits: Limits, d: Component, next: seq<Item>)
    requires Performs(doc, e, limits, d, next)
    ensures next == Put(doc, e.path, d)
  {
  }

  lemma {:induction false} TerminatedBounds(p: Property, limits: Limits)
    ensures LineWithin(TerminatedLine(p), limits) <==> LineWithin(p, limits)
    ensures SeenCharge(TerminatedLine(p)) == SeenCharge(p)
  {
    hide HeaderLength, Refolded, SeenFolds, ParametersCharge, OctetCount, ChunkFolds;
    var q := TerminatedLine(p);
    assert HeaderOf(q) == HeaderOf(p);
    assert Spans(PropertyLine(q)) == Spans(PropertyLine(p));
  }

  lemma {:induction false} TerminatedLastBounds(x: seq<Property>, limits: Limits)
    ensures AllWithin(TerminatedLast(x), limits) <==> AllWithin(x, limits)
    ensures ChargeOf(TerminatedLast(x)) == ChargeOf(x)
  {
    hide LineWithin, SeenCharge, AllWithin, ChargeOf;
    if x != [] {
      var front, last := x[..|x| - 1], x[|x| - 1];
      assert x == front + [last];
      TerminatedBounds(last, limits);
      AllWithinAppend(front, [last], limits);
      AllWithinAppend(front, [TerminatedLine(last)], limits);
      AllWithinOne(last, limits);
      AllWithinOne(TerminatedLine(last), limits);
      ChargeAppend(front, [last]);
      ChargeAppend(front, [TerminatedLine(last)]);
      ChargeOne(last);
      ChargeOne(TerminatedLine(last));
    }
  }

  lemma {:induction false} AdditionWithinIff(doc: seq<Item>, e: Step, limits: Limits, d: Component, next: seq<Item>)
    requires DocumentWithin(doc, limits) && e.Proposed? && e.change.Add? && Performs(doc, e, limits, d, next)
    ensures AllWithin(LinesAs(next), limits) <==> WritesWithin(doc, e, limits)
    ensures DocumentWithin(next, limits) <==> WritesWithin(doc, e, limits) && LeavesRoom(doc, e, limits)
  {
    hide LinesAs, AboveEntry, BelowEntry, Put, Reach, AllWithin, ChargeOf, ItemCount, Depth, LineWithin, NewProperty, LineOf, Inserted;
    hide WellFormed, AllowsOctets, AllowsTree, SeenCharge;
    var c, line := Reach(doc, e.path).value, LineOf(e.change.line);
    AdditionIs(c, e, d);
    LinesOfAddition(doc, e.path, line);
    var at := InsertionPoint(c.items);
    var above, below := AboveEntry(doc, e.path, at), BelowEntry(doc, e.path, at);
    ThreeRuns(TerminatedLast(above), [NewProperty(line)], below, limits);
    TerminatedLastBounds(above, limits);
    AllWithinOne(NewProperty(line), limits);
    ChargeOne(NewProperty(line));
    AllWithinAppend(above, below, limits);
    ChargeAppend(above, below);
    InsertedCounts(c, line);
    PutCounts(doc, e.path, d);
  }

  lemma {:induction false} KeptBounds(ps: seq<Property>, keep: seq<bool>, limits: Limits)
    requires |ps| == |keep|
    ensures AllWithin(ps, limits) ==> AllWithin(Kept(ps, keep), limits)
    ensures ChargeOf(Kept(ps, keep)) <= ChargeOf(ps)
  {
    hide LineWithin, SeenCharge, AllWithin, Kept;
    if ps == [] {
      KeptNone(ps, keep);
    } else {
      var first, rest := if keep[0] then [ps[0]] else [], Kept(ps[1..], keep[1..]);
      KeptBounds(ps[1..], keep[1..], limits);
      KeptFront(ps, keep);
      AllWithinCons(ps, limits);
      AllWithinAppend(first, rest, limits);
      AllWithinOne(ps[0], limits);
      ChargeAppend(first, rest);
      ChargeOne(ps[0]);
      NothingCharged(limits);
    }
  }

  lemma {:induction false} LessIsAllowed(a: nat, b: nat, items: nat, counted: nat, depth: nat, limits: Limits)
    requires a <= b && items <= counted
    ensures AllowsOctets(b, limits) ==> AllowsOctets(a, limits)
    ensures AllowsTree(counted, depth, limits) ==> AllowsTree(items, depth, limits)
  {
  }

  lemma {:induction false} RemovalWithin(doc: seq<Item>, e: Step, limits: Limits, d: Component, next: seq<Item>)
    requires DocumentWithin(doc, limits) && e.Proposed? && e.change.Remove? && Performs(doc, e, limits, d, next)
    ensures DocumentWithin(next, limits)
  {
    hide LinesAs, AboveEntry, BelowEntry, Put, Reach, AllWithin, ChargeOf, ItemCount, Depth, WithoutId, OccurrencePosition, LinesKept, Kept;
    hide ChangedAt, AllowsOctets, AllowsTree;
    var c := Reach(doc, e.path).value;
    match e.occurrence {
      case None =>
        LinesOfRemoveNamed(doc, e.path, e.id);
        KeptBounds(LinesAs(doc), LinesKept(doc, e.path, e.id), limits);
        WithoutIdCounts(c.items, e.id);
      case Some(index) =>
        ChangedAtPosition(c, e.id, index, e.change, d);
        var at := OccurrencePosition(c.items, e.id, index).value;
        var above, below := AboveEntry(doc, e.path, at), BelowEntry(doc, e.path, at + 1);
        LinesAtEntry(doc, e.path, at);
        LinesOfRemoval(doc, e.path, at);
        ThreeRuns(above, [c.items[at].property], below, limits);
        AllWithinAppend(above, below, limits);
        ChargeAppend(above, below);
        RemovedCounts(c.items, at);
    }
    PutCounts(doc, e.path, d);
    LessIsAllowed(ChargeOf(LinesAs(next)), ChargeOf(LinesAs(doc)), ItemCount(next), ItemCount(doc), Depth(doc), limits);
  }

  /** What a step does to the bounds: the lines it writes, and the room it takes, decide. */
  lemma {:induction false} StepWithinIff(doc: seq<Item>, e: Step, limits: Limits, d: Component, next: seq<Item>)
    requires DocumentWithin(doc, limits) && Performs(doc, e, limits, d, next)
    ensures AllWithin(LinesAs(next), limits) <==> WritesWithin(doc, e, limits)
    ensures DocumentWithin(next, limits) <==> WritesWithin(doc, e, limits) && LeavesRoom(doc, e, limits)
  {
    if IsRewrite(e) {
      hide IsRewrite, Performs, WritesWithin, LeavesRoom, DocumentWithin;
      RewriteWithinIff(doc, e, limits, d, next);
    } else if e.change.Add? {
      hide Performs, WritesWithin, LeavesRoom, DocumentWithin;
      AdditionWithinIff(doc, e, limits, d, next);
    } else {
      hide Performs, Reach, AllWithin, LinesAs;
      RemovalWithin(doc, e, limits, d, next);
    }
  }

  /** What decides, before a step, whether the file it leaves will be read back under the bounds. */
  ghost predicate PermittedWithin(doc: seq<Item>, e: Step, limits: Limits) {
    Reach(doc, e.path).Some? && Permitted(doc, e) && WritesWithin(doc, e, limits) && LeavesRoom(doc, e, limits)
  }

  /**
   After an accepted step, at any depth, on a document the reader gives back under the caller's
   bounds, it gives the new one back under them exactly when the step is permitted, every line it
   writes is inside the bounds on a line, and the file has room for it. All three are decided by
   what stands before the step.
   */
  lemma {:induction false} StepReopensIff(doc: seq<Item>, e: Step, limits: Limits, d: Component, next: seq<Item>)
    requires Reopens(doc, limits) && Performs(doc, e, limits, d, next)
    ensures Reopens(next, limits) <==> PermittedWithin(doc, e, limits)
  {
    hide Reopens, Performs, Permitted, WritesWithin, LeavesRoom, ReadsBack, DocumentWithin, Reach;
    PerformsReaches(doc, e, limits, d, next);
    ReopensIff(doc, limits);
    ReopensIff(next, limits);
    StepReadsBackIff(doc, e, limits, d, next);
    StepWithinIff(doc, e, limits, d, next);
  }

  /**
   Over every run of accepted steps on a file the reader accepts, the reader accepts the file under
   the same bounds after every step, and gives the document in memory back, exactly when every
   step was permitted, wrote within the bounds and left room.
   */
  lemma {:induction false} EveryRunReopensIff(
    input: Bytes, docs: seq<seq<Item>>, steps: seq<Step>, after: seq<Component>, limits: Limits, n: nat)
    requires Accepts(input, limits) && IsRun(docs, steps, after, limits) && docs[0] == Build(StoredLines(input)) && n <= |steps|
    ensures (forall k | 0 <= k <= n :: Reopens(docs[k], limits)) <==> forall k | 0 <= k < n :: PermittedWithin(docs[k], steps[k], limits)
    decreases n
  {
    hide Accepts, Performs, PermittedWithin, Build, StoredLines, Reopens;
    if n == 0 {
      ReadDocumentReopensIff(input, limits);
    } else {
      EveryRunReopensIff(input, docs, steps, after, limits, n - 1);
      var k := n - 1;
      assert Performs(docs[k], steps[k], limits, after[k], docs[k + 1]);
      if Reopens(docs[k], limits) { StepReopensIff(docs[k], steps[k], limits, after[k], docs[k + 1]); }
    }
  }

  // -------------------------------------------------------------------------
  // Bounds under which folding is never the obstacle
  // -------------------------------------------------------------------------

  /** The fold bound has room for the longest line the other bounds admit, however it is cut into spans. */
  predicate Roomy(limits: Limits) {
    var g := limits.grammar;
    g.maxHeaderBytes + 1 + limits.maxValueBytes + FULL * (4 * g.maxParameters + 3) <= FULL * g.maxFoldsPerLine
  }

  lemma {:induction false} NamedPoliciesAreRoomy()
    ensures Roomy(DEFAULT) && Roomy(GENEROUS)
  {
  }

  lemma {:induction false} ParameterSpansCount(ps: seq<Parameter>)
    ensures |ParameterListSpans(ps)| <= 4 * |ps|
  {
    if ps != [] { ParameterSpansCount(ps[1..]); }
  }

  lemma {:induction false} LineLength(p: Property)
    ensures |LineContent(p)| <= HeaderLength(HeaderOf(p)) + 1 + |p.value|
  {
    hide ParameterListSpans, Content;
    ContentAssembles(p);
    OneRun([COLON]);
  }

  /** A line a write laid out is within bounds exactly when its parts are. */
  lemma {:induction false} AuthoredWithinIff(p: Property, limits: Limits)
    requires Roomy(limits) && p.layout.refold
    ensures LineWithin(p, limits) <==> PartsWithin(p, limits)
  {
    hide HeaderLength, LineContent, FoldsSeen, Roomy;
    LineLength(p);
    AuthoredFolds(p);
    if PartsWithin(p, limits) { FoldsFit(|FoldsSeen(p)|, |LineContent(p)|, |p.parameters|, limits); }
  }

  lemma {:induction false} AuthoredFolds(p: Property)
    requires p.layout.refold
    ensures FULL * |FoldsSeen(p)| <= |LineContent(p)| + FULL * (4 * |p.parameters| + 3)
  {
    hide ParameterListSpans, Concat, Refolded;
    var spans := Spans(PropertyLine(p));
    ParameterSpansCount(p.parameters);
    RefoldedFolds(spans);
    ChunkFoldsCount(Refolded(spans)[1..], |Refolded(spans)[0]|);
  }

  lemma {:induction false} FoldsFit(folds: nat, length: nat, parameters: nat, limits: Limits)
    requires Roomy(limits) && FULL * folds <= length + FULL * (4 * parameters + 3)
    requires length <= limits.grammar.maxHeaderBytes + 1 + limits.maxValueBytes && parameters <= limits.grammar.maxParameters
    ensures folds <= limits.grammar.maxFoldsPerLine
  {
  }

  lemma {:induction false} ChunkFoldsCount(chunks: seq<Bytes>, col: nat)
    ensures |ChunkFolds(chunks, col)| == |chunks|
  {
    if chunks != [] { ChunkFoldsCount(chunks[1..], col + |chunks[0]|); }
  }

  /** A value is written within bounds exactly when it is no longer than a value may be. */
  lemma {:induction false} ValueWithinIff(p: Property, bytes: Bytes, limits: Limits)
    requires Roomy(limits) && LineWithin(p, limits)
    ensures LineWithin(Value(bytes).Of(p), limits) <==> |bytes| <= limits.maxValueBytes
  {
    hide LineWithin, Roomy, ParameterListSpans;
    AuthoredWithinIff(Value(bytes).Of(p), limits);
    LineIsWithin(p, limits);
  }

  /** Parameters are, exactly when the header they make is within its two bounds. */
  lemma {:induction false} ParametersWithinIff(p: Property, edits: seq<ParameterEdit>, limits: Limits)
    requires Roomy(limits) && LineWithin(p, limits)
    ensures var q := Parameters(edits).Of(p);
      LineWithin(q, limits)
      <==> HeaderLength(HeaderOf(q)) <= limits.grammar.maxHeaderBytes && |q.parameters| <= limits.grammar.maxParameters
  {
    hide LineWithin, Roomy, HeaderLength, EditedAll;
    AuthoredWithinIff(Parameters(edits).Of(p), limits);
    LineIsWithin(p, limits);
  }

  lemma {:induction false} LineIsWithin(p: Property, limits: Limits)
    requires LineWithin(p, limits)
    ensures PartsWithin(p, limits)
  {
  }

  /** A replacement or an addition was read under the bounds, so what is written of it is within them. */
  lemma {:induction false} ReadLineIsWithin(bytes: Bytes, p: Property, limits: Limits)
    requires Roomy(limits) && IsOneLine(bytes, limits)
    ensures LineWithin(WholeLine(LineOf(bytes)).Of(p), limits) && LineWithin(NewProperty(LineOf(bytes)), limits)
  {
    hide LineWithin, Roomy, ReadLogical, Split, ParameterListSpans;
    AuthoredWithinIff(WholeLine(LineOf(bytes)).Of(p), limits);
    AuthoredWithinIff(NewProperty(LineOf(bytes)), limits);
  }

  /**
   Where the fold bound is roomy, as under both named policies, an accepted replacement or addition
   never writes a line the reader would refuse: a replacement always leaves the file admitted, an
   addition whenever it is permitted.
   */
  lemma {:induction false} AuthoredStepStaysAdmitted(doc: seq<Item>, e: Step, limits: Limits, d: Component, next: seq<Item>)
    requires Roomy(limits) && Reopens(doc, limits) && Performs(doc, e, limits, d, next)
    requires e.Proposed? && (e.change.Replace? || e.change.Add?)
    ensures WritesWithin(doc, e, limits)
    ensures e.change.Replace? || Permitted(doc, e) ==> Admitted(Serialized(next), limits.grammar, limits.maxValueBytes)
    ensures Reopens(next, limits) <==> (e.change.Replace? || Permitted(doc, e)) && LeavesRoom(doc, e, limits)
  {
    hide Reopens, Roomy, Permitted, LeavesRoom, ReadsBack, DocumentWithin, Reach, LineWithin, IsOneLine, LineOf, Rewrite.Of, NewProperty, Addressed;
    hide Serialized, Admitted, AllWithin, LinesAs, Put, Changed, ChangedAt;
    var items := Reach(doc, e.path).value.items;
    ReopensIff(doc, limits);
    if e.change.Replace? {
      forall i | 0 <= i < |items| ensures EntryWritesWithin(items, e, i, limits) {
        AddressedHasId(items, e, i);
        if Addressed(items, e, i) { ReadLineIsWithin(e.change.line, items[i].property, limits); }
      }
      AcceptedReplacementReadsBack(doc, e, limits, d, next);
    } else {
      ReadLineIsWithin(e.change.line, NewProperty(LineOf(e.change.line)), limits);
    }
    StepReadsBackIff(doc, e, limits, d, next);
    StepReopensIff(doc, e, limits, d, next);
    StepWithinIff(doc, e, limits, d, next);
    if ReadsBack(next) { AcceptsWrittenIff(next, limits); }
  }
}
