/** Accepted changes, one at a time and over whole runs: exactly when the file still reads back as the document. */
module Runs {
  import opened Octets
  import opened Budget
  import opened Syntax
  import opened Nesting
  import opened Parse
  import opened RoundTrip
  import opened Layout
  import opened Mutate
  import opened Documents
  import opened Writes

  // -------------------------------------------------------------------------
  // Removal by identity
  // -------------------------------------------------------------------------

  /** Which lines of one entry a removal by identity keeps: a component's all stay. */
  function EntryKeeps(item: Item, id: Bytes): (r: seq<bool>)
    ensures |r| == |LinesAs([item])|
  {
    LinesAsOne(item);
    if HasId(item, id) then [false] else AllKept(|LinesAs([item])|)
  }

  function EntriesKeep(items: seq<Item>, id: Bytes): (r: seq<bool>)
    ensures |r| == |LinesAs(items)|
  {
    if items == [] then NoLinesAs(); []
    else
      LinesAsFront(items);
      EntryKeeps(items[0], id) + EntriesKeep(items[1..], id)
  }

  lemma {:induction false} WithoutIdLines(items: seq<Item>, id: Bytes)
    ensures LinesAs(WithoutId(items, id)) == Kept(LinesAs(items), EntriesKeep(items, id))
  {
    hide LinesAs, HasId, Kept, AllKept;
    if items == [] {
      NoLinesAs();
      KeptNone([], []);
    } else {
      var rest := WithoutId(items[1..], id);
      LinesAsFront(items);
      WithoutIdLines(items[1..], id);
      KeptAppend(LinesAs([items[0]]), LinesAs(items[1..]), EntryKeeps(items[0], id), EntriesKeep(items[1..], id));
      if HasId(items[0], id) {
        ItemIsProperty(items[0], id);
        LinesAsOne(items[0]);
        NoneOfOneKept(items[0].property);
        assert [] + LinesAs(rest) == LinesAs(rest);
      } else {
        KeptAll(LinesAs([items[0]]));
        LinesAsAppend([items[0]], rest);
      }
    }
  }

  lemma {:induction false} NoneOfOneKept(p: Property)
    ensures Kept([p], [false]) == []
  {
    assert [p][1..] == [];
  }

  /** Which of the document's lines a removal by identity keeps. */
  function LinesKept(doc: seq<Item>, path: seq<nat>, id: Bytes): seq<bool>
    requires Reach(doc, path).Some?
  {
    var c := Reach(doc, path).value;
    AllKept(|LinesAbove(doc, path) + BeginLine(c.begin)|) + EntriesKeep(c.items, id)
      + AllKept(|EndLine(c.end) + LinesBelow(doc, path)|)
  }

  lemma {:induction false} AssociateComponent<T>(a: seq<T>, b: seq<T>, x: seq<T>, e: seq<T>, z: seq<T>)
    ensures a + (b + x + e) + z == (a + b) + x + (e + z)
  {
  }

  /** A removal by identity leaves the kept lines, in their order. */
  lemma {:induction false} LinesOfRemoveNamed(doc: seq<Item>, path: seq<nat>, id: Bytes)
    requires Reach(doc, path).Some?
    ensures |LinesKept(doc, path, id)| == |LinesAs(doc)|
    ensures var c := Reach(doc, path).value;
      LinesAs(Put(doc, path, c.(items := WithoutId(c.items, id)))) == Kept(LinesAs(doc), LinesKept(doc, path, id))
  {
    hide LinesAs, LinesAbove, LinesBelow, BeginLine, EndLine, Put, Reach, Kept, AllKept, EntriesKeep;
    var c := Reach(doc, path).value;
    var above, below := LinesAbove(doc, path) + BeginLine(c.begin), EndLine(c.end) + LinesBelow(doc, path);
    var kept := c.(items := WithoutId(c.items, id));
    PutSame(doc, path);
    LinesOfPut(doc, path, c);
    LinesOfPut(doc, path, kept);
    AssociateComponent(LinesAbove(doc, path), BeginLine(c.begin), LinesAs(c.items), EndLine(c.end), LinesBelow(doc, path));
    AssociateComponent(LinesAbove(doc, path), BeginLine(c.begin), LinesAs(kept.items), EndLine(c.end), LinesBelow(doc, path));
    WithoutIdLines(c.items, id);
    KeptAppend(above + LinesAs(c.items), below, AllKept(|above|) + EntriesKeep(c.items, id), AllKept(|below|));
    KeptAppend(above, LinesAs(c.items), AllKept(|above|), EntriesKeep(c.items, id));
    KeptAll(above);
    KeptAll(below);
  }

  lemma {:induction false} WithoutIdNested(items: seq<Item>, id: Bytes, enclosing: Option<Bytes>, last: bool)
    requires WellNested(items, enclosing, last)
    ensures WellNested(WithoutId(items, id), enclosing, last)
  {
    hide WellItem, HasId;
    if items != [] {
      WithoutIdNested(items[1..], id, enclosing, last);
      if !HasId(items[0], id) {
        var kept := WithoutId(items[1..], id);
        var r := [items[0]] + kept;
        assert r[1..] == kept;
        if |items| > 1 { WellItemAnywhere(items[0], enclosing); }
      }
    }
  }

  lemma {:induction false} WithoutIdExchangeable(c: Component, id: Bytes)
    ensures Exchangeable(c, c.(items := WithoutId(c.items, id)))
  {
    hide WellNested, Opens, Closes;
    var d := c.(items := WithoutId(c.items, id));
    forall last | WellItem(ComponentItem(c), None, last) ensures WellItem(ComponentItem(d), None, last) {
      WithoutIdNested(c.items, id, Some(c.begin.name), c.end.None?);
    }
  }

  /** No line a removal by identity keeps joins the next one it keeps, and the last writes some octet. */
  ghost predicate RemovalStaysApart(doc: seq<Item>, path: seq<nat>, id: Bytes)
    requires Reach(doc, path).Some?
  {
    && |LinesKept(doc, path, id)| == |LinesAs(doc)|
    && KeptStayApart(None, LinesAs(doc), LinesKept(doc, path, id))
  }

  /**
   Removing every occurrence of an identity leaves a document that reads back as itself exactly
   when no line the removal keeps joins the next one it keeps.
   */
  lemma {:induction false} RemoveNamedReadsBackIff(doc: seq<Item>, path: seq<nat>, id: Bytes)
    requires ReadsBack(doc) && Reach(doc, path).Some?
    ensures var c := Reach(doc, path).value;
      ReadsBack(Put(doc, path, c.(items := WithoutId(c.items, id)))) <==> RemovalStaysApart(doc, path, id)
  {
    hide LinesAs, Put, Reach, WellNested, Separated, AllReadable, ReadsBack, LinesKept, Kept, KeptStayApart;
    var c := Reach(doc, path).value;
    var removed := Put(doc, path, c.(items := WithoutId(c.items, id)));
    ReadsBackIff(doc);
    ReadsBackIff(removed);
    WithoutIdExchangeable(c, id);
    PutNested(doc, path, c.(items := WithoutId(c.items, id)), None, true);
    LinesOfRemoveNamed(doc, path, id);
    KeptReadable(LinesAs(doc), LinesKept(doc, path, id));
    KeptSeparatedIff(None, LinesAs(doc), LinesKept(doc, path, id));
    assert Above(None) + LinesAs(removed) == LinesAs(removed);
  }

  /** Where every line is terminated, none by a bare CR, that is always so. */
  lemma {:induction false} RemoveNamedReadsBack(doc: seq<Item>, path: seq<nat>, id: Bytes)
    requires ReadsBack(doc) && Reach(doc, path).Some?
    requires forall i | 0 <= i < |LinesAs(doc)| :: Terminates(LinesAs(doc)[i])
    ensures var c := Reach(doc, path).value; ReadsBack(Put(doc, path, c.(items := WithoutId(c.items, id))))
  {
    hide LinesAs, Put, Reach, ReadsBack, LinesKept, Terminates, KeptStayApart;
    RemoveNamedReadsBackIff(doc, path, id);
    LinesOfRemoveNamed(doc, path, id);
    TerminatedStayApart(None, LinesAs(doc), LinesKept(doc, path, id));
  }

  // -------------------------------------------------------------------------
  // One accepted change
  // -------------------------------------------------------------------------

  /**
   One step of an edit session, in the component at `path`: a change proposed for every occurrence
   of an identity or for one of them, or a value written through the guard over the first.
   */
  datatype Step =
    | Proposed(path: seq<nat>, id: Bytes, occurrence: Option<nat>, change: ProposedChange)
    | Guarded(path: seq<nat>, id: Bytes, write: Rewrite)

  /** The writes a guard makes, when it accepts them: raw octets, or a value and what it decides. */
  ghost predicate GuardAccepts(p: Property, w: Rewrite) {
    && !NamesAComponentBoundary(p.name)
    && match w
       case WholeLine(_) => false
       case Parameters(_) => false
       case Value(bytes) => ControlFree(bytes)
       case Coupled(edits, bytes) => ControlFree(bytes) && Writable(edits)
  }

  /** The step is accepted, makes `d` of the component it is addressed to, and leaves `next`. */
  ghost predicate Performs(doc: seq<Item>, e: Step, limits: Limits, d: Component, next: seq<Item>) {
    && Reach(doc, e.path).Some?
    && next == Put(doc, e.path, d)
    && var c := Reach(doc, e.path).value;
    match e
    case Proposed(_, id, None, change) => WellFormed(id, change, limits) && Changed(c, id, change, d)
    case Proposed(_, id, Some(index), change) => WellFormed(id, change, limits) && ChangedAt(c, id, index, change, d)
    case Guarded(_, id, w) =>
      var at := OccurrencePosition(c.items, id, 0);
      && at.Some? && GuardAccepts(c.items[at.value].property, w)
      && d == c.(items := c.items[at.value := PropertyItem(w.Of(c.items[at.value].property))])
  }

  /** The steps that rewrite lines and neither add nor remove one. */
  predicate IsRewrite(e: Step) {
    e.Guarded? || e.change.Replace? || e.change.SetParameters?
  }

  function RewriteOf(e: Step): Rewrite
    requires IsRewrite(e)
  {
    match e
    case Guarded(_, _, w) => w
    case Proposed(_, _, _, Replace(line)) => WholeLine(LineOf(line))
    case Proposed(_, _, _, SetParameters(edits)) => Parameters(edits)
  }

  /** The entries a step is addressed to. */
  predicate Addressed(items: seq<Item>, e: Step, at: nat)
    requires at < |items|
  {
    && HasId(items[at], e.id)
    && match e
       case Guarded(_, _, _) => Occurrences(items[..at], e.id) == 0
       case Proposed(_, _, Some(index), _) => Occurrences(items[..at], e.id) == index
       case Proposed(_, _, None, _) => true
  }

  /** Rewriting is rewriting the entries addressed, each by the same write. */
  lemma {:induction false} PerformsRewrite(doc: seq<Item>, e: Step, limits: Limits, d: Component, next: seq<Item>)
    requires IsRewrite(e) && Performs(doc, e, limits, d, next)
    ensures var c := Reach(doc, e.path).value;
      && d == c.(items := d.items) && |d.items| == |c.items|
      && forall i | 0 <= i < |c.items| ::
           d.items[i] == if Addressed(c.items, e, i) then PropertyItem(RewriteOf(e).Of(c.items[i].property)) else c.items[i]
  {
    hide LineOf, WellFormed, Put, Reach, Rewrite.Of, HasId, Occurrences, WithoutId, Inserted, GuardAccepts, OccurrencePosition;
    var c := Reach(doc, e.path).value;
    match e
    case Guarded(_, id, _) => OnlyAt(c.items, id, 0, OccurrencePosition(c.items, id, 0).value);
    case Proposed(_, id, None, _) =>
    case Proposed(_, id, Some(index), change) =>
      ChangedAtPosition(c, id, index, change, d);
      OnlyAt(c.items, id, index, OccurrencePosition(c.items, id, index).value);
  }

  /** The entry a change to one occurrence reaches is the one at that occurrence's position. */
  lemma {:induction false} ChangedAtPosition(c: Component, id: Bytes, index: nat, change: ProposedChange, d: Component)
    requires ChangedAt(c, id, index, change, d) && !change.Add?
    ensures var at := OccurrencePosition(c.items, id, index);
      at.Some? && c.items[at.value].PropertyItem? && d == c.(items := OneChanged(c.items, at.value, change))
  {
    hide OccurrencePosition, Occurrences, OneChanged;
    OccurrencePositionIs(c.items, id, index);
    var at :| 0 <= at < |c.items| && HasId(c.items[at], id) && Occurrences(c.items[..at], id) == index
      && d == c.(items := OneChanged(c.items, at, change));
  }

  lemma {:induction false} OnlyAt(items: seq<Item>, id: Bytes, index: nat, at: nat)
    requires at < |items| && OccurrencePosition(items, id, index) == Some(at)
    ensures forall i | 0 <= i < |items| :: HasId(items[i], id) && Occurrences(items[..i], id) == index <==> i == at
  {
    hide HasId, OccurrencePosition, Occurrences;
    OccurrencePositionIs(items, id, index);
    PositionHasId(items, id, index);
  }

  lemma {:induction false} PositionHasId(items: seq<Item>, id: Bytes, index: nat)
    ensures var at := OccurrencePosition(items, id, index); at.Some? ==> HasId(items[at.value], id)
  {
  }

  lemma {:induction false} RewriteIsClean(doc: seq<Item>, e: Step, limits: Limits, d: Component, next: seq<Item>)
    requires IsRewrite(e) && Performs(doc, e, limits, d, next)
    ensures Clean(RewriteOf(e)) && Addresses(e.id, RewriteOf(e))
  {
    hide LineOf, IsOneLine, EqIgnoreCase, Writable, Put, Reach, OccurrencePosition, HasId, Changed, ChangedAt, ControlFree, LineFree;
    match e
    case Guarded(_, id, w) =>
      var items := Reach(doc, e.path).value.items;
      var at := OccurrencePosition(items, id, 0);
      PositionHasId(items, id, 0);
      GuardAddresses(items[at.value], id);
      if w.Value? || w.Coupled? { ControlFreeIsLineFree(w.bytes); }
    case Proposed(_, _, _, Replace(line)) => OneLineIsAuthored(line, limits);
    case Proposed(_, _, _, SetParameters(_)) =>
  }

  lemma {:induction false} GuardAddresses(item: Item, id: Bytes)
    requires HasId(item, id) && !NamesAComponentBoundary(item.property.name)
    ensures !NamesAComponentBoundary(id)
  {
    hide EqIgnoreCase;
    EqIgnoreCaseSymmetric(id, item.property.name);
    NotABoundary(item.property.name, id);
  }

  /** Whether a step leaves the file reading back as the document, from what stands before it. */
  ghost predicate Permitted(doc: seq<Item>, e: Step)
    requires Reach(doc, e.path).Some?
  {
    var c := Reach(doc, e.path).value;
    if IsRewrite(e) then KeepsNoOpenQuote(c.items, e)
    else if e.change.Add? then
      Follows(NewProperty(LineOf(e.change.line)).layout.ending, Lay(BelowEntry(doc, e.path, InsertionPoint(c.items))))
    else
      match e.occurrence
      case None => RemovalStaysApart(doc, e.path, e.id)
      case Some(index) => NeighboursAllow(doc, e.path, OccurrencePosition(c.items, e.id, index))
  }

  /** No entry addressed has an open quote among the parameters the write leaves alone. */
  ghost predicate KeepsNoOpenQuote(items: seq<Item>, e: Step)
    requires IsRewrite(e)
  {
    forall i | 0 <= i < |items| && Addressed(items, e, i) :: ClosedQuotes(Untouched(items[i].property, RewriteOf(e)))
  }

  /** The lines on either side of an entry can be neighbours. */
  ghost predicate NeighboursAllow(doc: seq<Item>, path: seq<nat>, at: Option<nat>)
    requires Reach(doc, path).Some?
  {
    && at.Some? && at.value < |Reach(doc, path).value.items|
    && var above := AboveEntry(doc, path, at.value);
    above != [] && MayPrecede(above[|above| - 1], BelowEntry(doc, path, at.value + 1))
  }

  /** A write that leaves a readable line as it was finds no quote open: it had a separator. */
  lemma {:induction false} UnchangedCloses(p: Property, w: Rewrite)
    requires Readable(p) && Clean(w) && w.Of(p) == p
    ensures ClosedQuotes(Untouched(p, w))
  {
    hide Readable, Clean, ClosedQuotes, Untouched;
    RewrittenReadsIff(p, w);
  }

  lemma {:induction false} RewriteStepIff(doc: seq<Item>, e: Step, limits: Limits, d: Component, next: seq<Item>)
    requires ReadsBack(doc) && IsRewrite(e) && Performs(doc, e, limits, d, next)
    ensures ReadsBack(next) <==> KeepsNoOpenQuote(Reach(doc, e.path).value.items, e)
  {
    hide Sound, ReadsBack, Put, Reach, Clean, Addresses, Addressed, RewriteOf, IsRewrite, Rewrite.Of, ClosedQuotes, Untouched, Readable;
    hide WellFormed, Changed, ChangedAt, OccurrencePosition, GuardAccepts;
    var c, w := Reach(doc, e.path).value, RewriteOf(e);
    RewriteIsClean(doc, e, limits, d, next);
    PerformsRewrite(doc, e, limits, d, next);
    forall i | 0 <= i < |c.items| ensures RewritesItem(c.items[i], d.items[i], e.id, w) {
      AddressedHasId(c.items, e, i);
    }
    RewriteReadsBackIff(doc, e.path, d.items, e.id, w);
    ReadsBackIff(doc);
    forall i | 0 <= i < |c.items| && Addressed(c.items, e, i) && d.items[i] == c.items[i]
      ensures ClosedQuotes(Untouched(c.items[i].property, w))
    {
      AddressedHasId(c.items, e, i);
      LineIsReadable(doc, e.path, i);
      UnchangedCloses(c.items[i].property, w);
    }
    forall i | 0 <= i < |c.items| && Addressed(c.items, e, i) ensures c.items[i].PropertyItem? {
      AddressedHasId(c.items, e, i);
    }
  }

  lemma {:induction false} AddressedHasId(items: seq<Item>, e: Step, at: nat)
    requires at < |items|
    ensures Addressed(items, e, at) ==> HasId(items[at], e.id) && items[at].PropertyItem?
  {
  }

  /**
   Every accepted step, whatever it is and wherever it is made, leaves a document that reads back
   as itself exactly when it is permitted.
   */
  lemma {:induction false} StepReadsBackIff(doc: seq<Item>, e: Step, limits: Limits, d: Component, next: seq<Item>)
    requires ReadsBack(doc) && Performs(doc, e, limits, d, next)
    ensures ReadsBack(next) <==> Permitted(doc, e)
  {
    hide ReadsBack, Put, Reach, Lay, Follows, KeepsNoOpenQuote, LineOf, Inserted, IsOneLine, RemovalStaysApart, NeighboursAllow;
    if IsRewrite(e) {
      RewriteStepIff(doc, e, limits, d, next);
    } else if e.change.Add? {
      OneLineIsAuthored(e.change.line, limits);
      AdditionReadsBackIff(doc, e.path, e.id, LineOf(e.change.line));
    } else {
      RemovalStepIff(doc, e, limits, d, next);
    }
  }

  lemma {:induction false} RemovalStepIff(doc: seq<Item>, e: Step, limits: Limits, d: Component, next: seq<Item>)
    requires ReadsBack(doc) && e.Proposed? && e.change.Remove? && Performs(doc, e, limits, d, next)
    ensures ReadsBack(next) <==> Permitted(doc, e)
  {
    hide ReadsBack, Put, Reach, WithoutId, OccurrencePosition, MayPrecede, AboveEntry, BelowEntry, ChangedAt, RemovalStaysApart;
    var c := Reach(doc, e.path).value;
    match e.occurrence
    case None => RemoveNamedReadsBackIff(doc, e.path, e.id);
    case Some(index) =>
      ChangedAtPosition(c, e.id, index, e.change, d);
      RemovalReadsBackIff(doc, e.path, OccurrencePosition(c.items, e.id, index).value);
  }

  /** A replacement states the whole line, so no quote survives it: it always reads back. */
  lemma {:induction false} AcceptedReplacementReadsBack(doc: seq<Item>, e: Step, limits: Limits, d: Component, next: seq<Item>)
    requires ReadsBack(doc) && e.Proposed? && e.change.Replace? && Performs(doc, e, limits, d, next)
    ensures ReadsBack(next)
  {
    hide ReadsBack, Performs, Reach, LineOf, Addressed;
    PerformsReaches(doc, e, limits, d, next);
    StepReadsBackIff(doc, e, limits, d, next);
  }

  /** On lines that had a separator no quote can be left open: a rewrite of those is always permitted. */
  lemma {:induction false} SeparatedRewriteIsPermitted(doc: seq<Item>, e: Step, limits: Limits, d: Component, next: seq<Item>)
    requires ReadsBack(doc) && IsRewrite(e) && Performs(doc, e, limits, d, next)
    requires var items := Reach(doc, e.path).value.items;
      forall i | 0 <= i < |items| && Addressed(items, e, i) :: items[i].PropertyItem? && items[i].property.layout.hasSeparator
    ensures Permitted(doc, e)
  {
    hide Sound, ReadsBack, Reach, Clean, Addresses, Addressed, RewriteOf, IsRewrite, ClosedQuotes, Untouched, Readable, Performs;
    ReadsBackIff(doc);
    RewriteIsClean(doc, e, limits, d, next);
    PerformsReaches(doc, e, limits, d, next);
    var items := Reach(doc, e.path).value.items;
    forall i | 0 <= i < |items| && Addressed(items, e, i) ensures ClosedQuotes(Untouched(items[i].property, RewriteOf(e))) {
      LineIsReadable(doc, e.path, i);
      RewrittenReadsIff(items[i].property, RewriteOf(e));
    }
  }

  // -------------------------------------------------------------------------
  // What one step reaches
  // -------------------------------------------------------------------------

  /** The occurrence a step reaches when it reaches one: a guard is over the first. */
  function Index(e: Step): nat {
    if e.Proposed? && e.occurrence.Some? then e.occurrence.value else 0
  }

  /** A step addressed to one occurrence, and the octets of the file it changes: that line's. */
  ghost predicate ReachesOneLine(doc: seq<Item>, e: Step, next: seq<Item>)
    requires Reach(doc, e.path).Some?
  {
    var items := Reach(doc, e.path).value.items;
    var at := OccurrencePosition(items, e.id, Index(e));
    if !IsRewrite(e) && e.change.Add? then PutsIn(doc, next, e.path, NewProperty(LineOf(e.change.line)))
    else
      && at.Some? && items[at.value].PropertyItem?
      && if IsRewrite(e) then WritesOnly(doc, next, e.path, at.value, RewriteOf(e).Of(items[at.value].property))
         else TakesOut(doc, next, e.path, at.value)
  }

  /** An accepted change to one occurrence, or an addition, changes one line of the file and no other octet. */
  lemma {:induction false} OneOccurrenceIsOneLine(doc: seq<Item>, e: Step, limits: Limits, d: Component, next: seq<Item>)
    requires Performs(doc, e, limits, d, next) && (e.Proposed? && e.occurrence.None? ==> e.change.Add?)
    ensures ReachesOneLine(doc, e, next)
  {
    hide Put, Reach, OccurrencePosition, WritesOnly, TakesOut, PutsIn, LineOf, WellFormed, Inserted, ChangedAt, HasId, GuardAccepts;
    var c := Reach(doc, e.path).value;
    if !IsRewrite(e) && e.change.Add? {
      AdditionIsLocal(doc, e.path, LineOf(e.change.line));
      AdditionIs(c, e, d);
    } else {
      var index := Index(e);
      var at := OccurrencePosition(c.items, e.id, index);
      PositionHasId(c.items, e.id, index);
      if e.Proposed? { ChangedAtPosition(c, e.id, index, e.change, d); }
      ItemIsProperty(c.items[at.value], e.id);
      if IsRewrite(e) {
        WriteIsLocal(doc, e.path, at.value, RewriteOf(e).Of(c.items[at.value].property));
      } else {
        RemovalIsLocal(doc, e.path, at.value);
      }
    }
  }

  lemma {:induction false} AdditionIs(c: Component, e: Step, d: Component)
    requires e.Proposed? && e.change.Add?
    requires match e.occurrence
      case None => Changed(c, e.id, e.change, d)
      case Some(index) => ChangedAt(c, e.id, index, e.change, d)
    ensures d == Inserted(c, LineOf(e.change.line))
  {
    hide Inserted, LineOf;
  }

  // -------------------------------------------------------------------------
  // Runs
  // -------------------------------------------------------------------------

  /** A run of steps, each accepted where it is made. */
  ghost predicate IsRun(docs: seq<seq<Item>>, steps: seq<Step>, after: seq<Component>, limits: Limits) {
    && |docs| == |steps| + 1 && |after| == |steps|
    && forall k | 0 <= k < |steps| :: Performs(docs[k], steps[k], limits, after[k], docs[k + 1])
  }

  /** Every step of the run up to the n-th is permitted where it is made. */
  ghost predicate AllPermitted(docs: seq<seq<Item>>, steps: seq<Step>, n: nat)
    requires n <= |steps| < |docs|
  {
    forall k | 0 <= k < n :: Reach(docs[k], steps[k].path).Some? && Permitted(docs[k], steps[k])
  }

  /**
   Over every run of accepted steps on a document that was read, however long and wherever they
   were made, the file reads back as the document in memory after every one of them, the same
   names, parameters, values and nesting, nothing added and nothing lost, exactly when every step
   was permitted.
   */
  lemma {:induction false} EveryRunReadsBackIff(
    input: Bytes, docs: seq<seq<Item>>, steps: seq<Step>, after: seq<Component>, limits: Limits, n: nat)
    requires IsRun(docs, steps, after, limits) && docs[0] == Build(StoredLines(input)) && n <= |steps|
    ensures (forall k | 0 <= k <= n :: ReadsBack(docs[k])) <==> AllPermitted(docs, steps, n)
    decreases n
  {
    hide Performs, Permitted, Build, StoredLines, ReadsBack, Reach;
    if n == 0 {
      ReadDocumentReadsBack(input);
    } else {
      EveryRunReadsBackIff(input, docs, steps, after, limits, n - 1);
      var k := n - 1;
      assert Performs(docs[k], steps[k], limits, after[k], docs[k + 1]);
      PerformsReaches(docs[k], steps[k], limits, after[k], docs[k + 1]);
      if ReadsBack(docs[k]) { StepReadsBackIff(docs[k], steps[k], limits, after[k], docs[k + 1]); }
      assert AllPermitted(docs, steps, n) <==> AllPermitted(docs, steps, k) && Permitted(docs[k], steps[k]);
    }
  }

  lemma {:induction false} PerformsReaches(doc: seq<Item>, e: Step, limits: Limits, d: Component, next: seq<Item>)
    requires Performs(doc, e, limits, d, next)
    ensures Reach(doc, e.path).Some?
  {
  }
}
