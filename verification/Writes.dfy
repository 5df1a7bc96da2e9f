/**
 What an accepted write does to the file: which octets it reaches, and exactly when the file it
 leaves still reads back as the document it is.
 */
module Writes {
  import opened Octets
  import opened Budget
  import opened Syntax
  import opened Grammar
  import opened Lexer
  import opened Nesting
  import opened Emit
  import opened RoundTrip
  import opened Layout
  import opened ReadBack
  import opened Escape
  import opened Mutate
  import opened Documents

  // -------------------------------------------------------------------------
  // Lines that read back, part by part
  // -------------------------------------------------------------------------

  predicate NameReads(name: Bytes) {
    LineFree(name) && forall i | 0 <= i < |name| :: name[i] !in NAME_STOPS
  }

  predicate GoodParameter(p: Parameter) {
    ParameterReads(p) && LineFree(p.name) && LineFree(p.value)
  }

  ghost predicate AllGood(ps: seq<Parameter>) {
    forall i | 0 <= i < |ps| :: GoodParameter(ps[i])
  }

  /** No parameter leaves a quoted string open. */
  predicate ClosedQuotes(ps: seq<Parameter>) {
    forall i | 0 <= i < |ps| :: !OpensQuote(ps[i])
  }

  lemma {:induction false} LineFreeAppend(a: Bytes, b: Bytes)
    ensures LineFree(a + b) <==> LineFree(a) && LineFree(b)
  {
    var s := a + b;
    assert forall i | 0 <= i < |a| :: a[i] == s[i];
    assert forall i | 0 <= i < |b| :: b[i] == s[|a| + i];
  }

  lemma {:induction false} ParameterLineFree(p: Parameter)
    requires !p.hasValue ==> p.value == []
    ensures LineFree(ParameterOctets(p)) <==> LineFree(p.name) && LineFree(p.value)
  {
    hide LineFree;
    LineFreeAppend([SEMICOLON], p.name);
    LineFreeAppend([SEMICOLON] + p.name, [EQUALS]);
    LineFreeAppend([SEMICOLON] + p.name + [EQUALS], p.value);
    DelimitersLineFree();
  }

  lemma {:induction false} DelimitersLineFree()
    ensures LineFree([]) && LineFree([SEMICOLON]) && LineFree([EQUALS]) && LineFree([COLON])
  {
  }

  lemma {:induction false} ParametersLineFree(ps: seq<Parameter>)
    requires forall i | 0 <= i < |ps| :: ParameterReads(ps[i])
    ensures LineFree(Concat(ParameterListSpans(ps))) <==> AllGood(ps)
  {
    hide LineFree, ParameterReads;
    if ps == [] {
      DelimitersLineFree();
    } else {
      var rest := ps[1..];
      ParametersLineFree(rest);
      ConcatAppend(ParameterSpans(ps[0]), ParameterListSpans(rest));
      ParameterOctetsAreSpans(ps[0]);
      LineFreeAppend(ParameterOctets(ps[0]), Concat(ParameterListSpans(rest)));
      ValuelessIsEmpty(ps[0]);
      ParameterLineFree(ps[0]);
      assert AllGood(ps) <==> GoodParameter(ps[0]) && AllGood(rest);
    }
  }

  lemma {:induction false} ValuelessIsEmpty(p: Parameter)
    requires ParameterReads(p)
    ensures !p.hasValue ==> p.value == []
  {
  }

  lemma {:induction false} ContentLineFree(p: Property)
    requires forall i | 0 <= i < |p.parameters| :: ParameterReads(p.parameters[i])
    ensures LineFree(LineContent(p)) <==> LineFree(p.name) && AllGood(p.parameters) && LineFree(p.value)
  {
    hide LineFree, ParameterReads, ParameterListSpans, LineContent, AllGood;
    var parameters, separator := Concat(ParameterListSpans(p.parameters)), Concat(SeparatorSpans(p.layout.hasSeparator));
    ContentAssembles(p);
    ParametersLineFree(p.parameters);
    LineFreeAppend(p.name, parameters + separator + p.value);
    LineFreeAppend(parameters + separator, p.value);
    LineFreeAppend(parameters, separator);
    DelimitersLineFree();
    OneRun([COLON]);
  }

  /** A line with a separator is readable exactly when each of its parts is. */
  lemma {:induction false} ReadableIff(p: Property)
    requires p.layout.hasSeparator
    ensures Readable(p) <==> NameReads(p.name) && AllGood(p.parameters) && ClosedQuotes(p.parameters) && LineFree(p.value)
  {
    hide LineFree, ParameterReads, OpensQuote, LineContent;
    if forall i | 0 <= i < |p.parameters| :: ParameterReads(p.parameters[i]) {
      ContentLineFree(p);
    } else {
      var i :| 0 <= i < |p.parameters| && !ParameterReads(p.parameters[i]);
      assert !GoodParameter(p.parameters[i]);
    }
  }

  /** A line that is written with a separator comes back exactly when each of its parts can be told apart. */
  lemma {:induction false} SeparatedLineComesBackIff(p: Property)
    requires p.layout.hasSeparator
    ensures ComesBack(p) <==> NameReads(p.name) && AllGood(p.parameters) && ClosedQuotes(p.parameters) && LineFree(p.value)
  {
    hide Readable, ComesBack, NameReads, AllGood, ClosedQuotes, LineFree;
    ComesBackIff(p);
    ReadableIff(p);
  }

  /** What a line read without a separator still satisfies. */
  lemma {:induction false} ReadableParts(p: Property)
    requires Readable(p)
    ensures NameReads(p.name) && AllGood(p.parameters) && LineFree(p.value)
    ensures p.layout.hasSeparator ==> ClosedQuotes(p.parameters)
  {
    hide LineFree, ParameterReads, OpensQuote, LineContent;
    ContentLineFree(p);
  }

  // -------------------------------------------------------------------------
  // Edited parameters
  // -------------------------------------------------------------------------

  lemma {:induction false} WithoutGood(ps: seq<Parameter>, name: Bytes)
    requires AllGood(ps)
    ensures AllGood(WithoutParameter(ps, name))
  {
    hide EqIgnoreCase, GoodParameter;
    if ps != [] { WithoutGood(ps[1..], name); }
  }

  lemma {:induction false} EditedGood(ps: seq<Parameter>, edit: ParameterEdit)
    requires AllGood(ps) && Writable([edit])
    ensures AllGood(Edited(ps, edit))
  {
    hide ParameterReads, LineFree, SpelledParameter, ParameterNameIsRepresentable, ParameterValueIsWritable, WithoutParameter;
    assert [edit][0] == edit;
    WithoutGood(ps, edit.name);
    if edit.value.Some? {
      WithoutKeepsFront(ps, edit.name);
      SpelledIsGood(edit.name, edit.value.value);
    }
  }

  lemma {:induction false} SpelledIsGood(name: Bytes, value: Bytes)
    requires ParameterNameIsRepresentable(name) && ParameterValueIsWritable(value)
    ensures GoodParameter(SpelledParameter(name, value)) && !OpensQuote(SpelledParameter(name, value))
  {
    hide ParameterReads, LineFree, OpensQuote;
    SpelledParameterReadsBack(name, value);
  }

  lemma {:induction false} EditedAllGood(ps: seq<Parameter>, edits: seq<ParameterEdit>)
    requires AllGood(ps) && Writable(edits)
    ensures AllGood(EditedAll(ps, edits))
    decreases |edits|
  {
    hide AllGood, Edited, ParameterNameIsRepresentable, ParameterValueIsWritable;
    if edits != [] {
      EditedGood(ps, edits[0]);
      EditedAllGood(Edited(ps, edits[0]), edits[1..]);
    }
  }

  lemma {:induction false} LastEditOf(edits: seq<ParameterEdit>, name: Bytes)
    requires Mentions(edits, name)
    ensures LastEdit(edits, name).Some? && LastEdit(edits, name).value in edits
  {
    hide EqIgnoreCase;
    var front := edits[..|edits| - 1];
    if !EqIgnoreCase(edits[|edits| - 1].name, name) {
      assert Mentions(front, name);
      LastEditOf(front, name);
    }
  }

  lemma {:induction false} NamedHolds(ps: seq<Parameter>, i: nat)
    requires i < |ps|
    ensures ps[i] in Named(ps, ps[i].name)
  {
    hide EqIgnoreCase;
    if i > 0 {
      NamedHolds(ps[1..], i - 1);
    } else {
      SameName(ps[0].name);
    }
  }

  lemma {:induction false} SameName(name: Bytes)
    ensures EqIgnoreCase(name, name)
  {
  }

  lemma {:induction false} UnmentionedHolds(ps: seq<Parameter>, edits: seq<ParameterEdit>, q: Parameter)
    ensures q in Unmentioned(ps, edits) <==> q in ps && !Mentions(edits, q.name)
  {
    hide Mentions;
    if ps != [] {
      UnmentionedHolds(ps[1..], edits, q);
      assert ps == [ps[0]] + ps[1..];
    }
  }

  lemma {:induction false} WrittenIsSpelled(edits: seq<ParameterEdit>, e: ParameterEdit)
    requires Writable(edits) && e in edits && e.value.Some?
    ensures !OpensQuote(SpelledParameter(e.name, e.value.value))
  {
    hide OpensQuote, ParameterNameIsRepresentable, ParameterValueIsWritable, SpelledParameter;
    SpelledIsGood(e.name, e.value.value);
  }

  /** A parameter that an edit names is, after the edits, one they spelled. */
  lemma {:induction false} EditedClosed(ps: seq<Parameter>, edits: seq<ParameterEdit>, i: nat)
    requires Writable(edits) && i < |EditedAll(ps, edits)| && Mentions(edits, EditedAll(ps, edits)[i].name)
    ensures !OpensQuote(EditedAll(ps, edits)[i])
  {
    hide OpensQuote, Writable, Mentions, EditedAll, Named, SpelledParameter;
    var name := EditedAll(ps, edits)[i].name;
    LastWriteWins(ps, edits, name);
    LastEditOf(edits, name);
    NamedHolds(EditedAll(ps, edits), i);
    WrittenIsSpelled(edits, LastEdit(edits, name).value);
  }

  /** Parameter edits leave a quote open exactly when a parameter none of them is about had one open. */
  lemma {:induction false} EditedClosesIff(ps: seq<Parameter>, edits: seq<ParameterEdit>)
    requires Writable(edits)
    ensures ClosedQuotes(EditedAll(ps, edits)) <==> ClosedQuotes(Unmentioned(ps, edits))
    ensures ClosedQuotes(ps) ==> ClosedQuotes(Unmentioned(ps, edits))
  {
    hide OpensQuote, Writable, Mentions, EditedAll, Unmentioned;
    var written, kept := EditedAll(ps, edits), Unmentioned(ps, edits);
    EditsKeepTheRest(ps, edits);
    forall i | 0 <= i < |kept| ensures kept[i] in written && kept[i] in ps {
      UnmentionedHolds(written, edits, kept[i]);
      UnmentionedHolds(ps, edits, kept[i]);
    }
    forall i | 0 <= i < |written| ensures !OpensQuote(written[i]) || written[i] in kept {
      UnmentionedHolds(written, edits, written[i]);
      if Mentions(edits, written[i].name) { EditedClosed(ps, edits, i); }
    }
  }

  // -------------------------------------------------------------------------
  // One rewritten line
  // -------------------------------------------------------------------------

  /** The parameters of a line that a write to it keeps as they are. */
  function Untouched(p: Property, w: Rewrite): seq<Parameter> {
    match w
    case WholeLine(_) => []
    case Parameters(edits) => Unmentioned(p.parameters, edits)
    case Value(_) => p.parameters
    case Coupled(edits, _) => Unmentioned(p.parameters, edits)
  }

  ghost predicate AuthoredLine(line: ParsedLine) {
    NameReads(line.name) && AllGood(line.parameters) && ClosedQuotes(line.parameters) && LineFree(line.value)
  }

  /** A write whose own octets cannot end the line or move a delimiter. */
  ghost predicate Clean(w: Rewrite) {
    match w
    case WholeLine(line) => AuthoredLine(line)
    case Parameters(edits) => Writable(edits)
    case Value(bytes) => LineFree(bytes)
    case Coupled(edits, bytes) => Writable(edits) && LineFree(bytes)
  }

  /** A replacement that was read as one line is one. */
  lemma {:induction false} OneLineIsAuthored(bytes: Bytes, limits: Limits)
    requires IsOneLine(bytes, limits)
    ensures AuthoredLine(LineOf(bytes))
  {
    hide ReadLogical, Split, Readable, NameReads, AllGood, ClosedQuotes, LineFree;
    StoredIsReadable(bytes);
    ReadableIff(StoredLine(ReadLogical(bytes, 0)));
  }

  lemma {:induction false} ControlFreeIsLineFree(bytes: Bytes)
    requires ControlFree(bytes)
    ensures LineFree(bytes)
  {
  }

  lemma {:induction false} RewrittenClosesIff(p: Property, w: Rewrite)
    requires Clean(w)
    ensures ClosedQuotes(w.Of(p).parameters) <==> ClosedQuotes(Untouched(p, w))
    ensures ClosedQuotes(p.parameters) ==> ClosedQuotes(Untouched(p, w))
  {
    hide ClosedQuotes, EditedAll, Writable, Unmentioned, NameReads, AllGood, LineFree;
    match w
    case WholeLine(_) => assert ClosedQuotes([]) by { NoQuotes(); }
    case Parameters(edits) => EditedClosesIff(p.parameters, edits);
    case Value(_) =>
    case Coupled(edits, _) => EditedClosesIff(p.parameters, edits);
  }

  lemma {:induction false} NoQuotes()
    ensures ClosedQuotes([])
  {
  }

  /** A rewritten line is readable exactly when no quote the write leaves alone is open. */
  lemma {:induction false} RewrittenReadsIff(p: Property, w: Rewrite)
    requires Readable(p) && Clean(w)
    ensures Readable(w.Of(p)) <==> ClosedQuotes(Untouched(p, w))
    ensures p.layout.hasSeparator ==> ClosedQuotes(Untouched(p, w))
  {
    hide Readable, NameReads, AllGood, ClosedQuotes, LineFree, EditedAll, Writable, Untouched;
    ReadableParts(p);
    ReadableIff(w.Of(p));
    RewrittenClosesIff(p, w);
    match w
    case WholeLine(_) =>
    case Parameters(edits) => EditedAllGood(p.parameters, edits);
    case Value(_) =>
    case Coupled(edits, _) => EditedAllGood(p.parameters, edits);
  }

  /** A rewritten line comes back exactly when no quote the write leaves alone is open. */
  lemma {:induction false} RewrittenComesBackIff(p: Property, w: Rewrite)
    requires ComesBack(p) && Clean(w)
    ensures ComesBack(w.Of(p)) <==> ClosedQuotes(Untouched(p, w))
    ensures p.layout.hasSeparator ==> ComesBack(w.Of(p))
  {
    hide Readable, ComesBack, ClosedQuotes, Untouched, Clean;
    ComesBackIff(p);
    ComesBackIff(w.Of(p));
    RewrittenReadsIff(p, w);
  }

  lemma {:induction false} SeparatedHasContent(p: Property)
    requires p.layout.hasSeparator
    ensures LineContent(p) != []
  {
    hide ParameterListSpans, LineContent;
    ContentAssembles(p);
    OneRun([COLON]);
  }

  lemma {:induction false} RewrittenIsTame(p: Property, w: Rewrite)
    requires Readable(w.Of(p))
    ensures Tame(w.Of(p)) && w.Of(p).layout.ending == p.layout.ending
  {
    hide LineContent, Tame, HeaderReads, LineFree;
    SeparatedHasContent(w.Of(p));
    RefoldedIsTame(w.Of(p));
  }

  // -------------------------------------------------------------------------
  // Created lines
  // -------------------------------------------------------------------------

  lemma {:induction false} RepresentableNameReads(name: Bytes)
    requires PropertyNameIsRepresentable(name)
    ensures NameReads(name) && LineFree(name) && name != []
  {
  }

  /** A created property is no boundary anywhere, and comes back exactly when its parameters do. */
  lemma {:induction false} CreatedPropertyReadsIff(name: Bytes, parameters: seq<Parameter>, value: Bytes, enclosing: Option<Bytes>)
    requires PropertyNameIsRepresentable(name) && !NamesAComponentBoundary(name) && ControlFree(value)
    ensures var p := Created(name, parameters, value);
      && (ComesBack(p) <==> AllGood(parameters) && ClosedQuotes(parameters))
      && (ComesBack(p) ==> Tame(p))
      && StaysProperty(p, enclosing)
  {
    hide NameReads, AllGood, ClosedQuotes, LineFree, LineContent, Tame, HeaderReads, PropertyNameIsRepresentable, ControlFree, EqIgnoreCase, ComesBack;
    var p := Created(name, parameters, value);
    RepresentableNameReads(name);
    ControlFreeIsLineFree(value);
    SeparatedLineComesBackIff(p);
    ComesBackIff(p);
    SeparatedHasContent(p);
    if ComesBack(p) { RefoldedIsTame(p); }
  }

  /** A created component is well nested wherever its entries are, and its two lines come back. */
  lemma {:induction false} CreatedComponentNests(name: Bytes, items: seq<Item>, enclosing: Option<Bytes>, last: bool)
    requires PropertyNameIsRepresentable(name)
    ensures var c := CreatedComponent(name, items);
      && (WellItem(ComponentItem(c), enclosing, last) <==> WellNested(items, Some(name), false))
      && ComesBack(AsProperty(BoundaryLine(c.begin))) && ComesBack(AsProperty(BoundaryLine(c.end.value)))
  {
    hide WellNested, ComesBack;
    var c := CreatedComponent(name, items);
    RepresentableNameReads(name);
    SeparatedLineComesBackIff(AsProperty(BoundaryLine(c.begin)));
    SeparatedLineComesBackIff(AsProperty(BoundaryLine(c.end.value)));
  }

  // -------------------------------------------------------------------------
  // Rewritten lists of lines
  // -------------------------------------------------------------------------

  /** A line, or what the write made of it, no quote being left open. */
  ghost predicate RewrittenLine(p: Property, q: Property, w: Rewrite) {
    q == p || (q == w.Of(p) && ClosedQuotes(Untouched(p, w)))
  }

  ghost predicate RewrittenLines(ps: seq<Property>, qs: seq<Property>, w: Rewrite) {
    |ps| == |qs| && forall i | 0 <= i < |ps| :: RewrittenLine(ps[i], qs[i], w)
  }

  lemma {:induction false} RewrittenAppend(a: seq<Property>, b: seq<Property>, c: seq<Property>, d: seq<Property>, w: Rewrite)
    requires RewrittenLines(a, c, w) && RewrittenLines(b, d, w)
    ensures RewrittenLines(a + b, c + d, w)
  {
    hide RewrittenLine;
  }

  lemma {:induction false} RewrittenSame(ps: seq<Property>, w: Rewrite)
    ensures RewrittenLines(ps, ps, w)
  {
  }

  lemma {:induction false} RewrittenLinesSound(ps: seq<Property>, qs: seq<Property>, w: Rewrite)
    requires RewrittenLines(ps, qs, w) && Clean(w)
    requires AllReadable(ps) && Separated(ps)
    ensures AllReadable(qs) && Separated(qs)
  {
    hide Readable, Clean, ClosedQuotes, Separated, Tame, Rewrite.Of, Untouched;
    forall i | 0 <= i < |ps| ensures Readable(qs[i]) && Succeeds(ps[i], qs[i]) {
      assert RewrittenLine(ps[i], qs[i], w);
      if qs[i] != ps[i] {
        RewrittenReadsIff(ps[i], w);
        RewrittenIsTame(ps[i], w);
      }
    }
    RewritingKeepsSeparated(ps, qs);
  }

  // -------------------------------------------------------------------------
  // Rewriting entries of a component
  // -------------------------------------------------------------------------

  /** Some entries of the identity rewritten, nothing else touched. */
  ghost predicate RewritesSome(items: seq<Item>, written: seq<Item>, id: Bytes, w: Rewrite) {
    && |written| == |items|
    && forall i | 0 <= i < |items| :: RewritesItem(items[i], written[i], id, w)
  }

  ghost predicate RewritesItem(item: Item, written: Item, id: Bytes, w: Rewrite) {
    written == item || (HasId(item, id) && written == PropertyItem(w.Of(item.property)))
  }

  /** No rewritten entry has an open quote among the parameters the write leaves alone. */
  ghost predicate ClosesQuotes(items: seq<Item>, written: seq<Item>, w: Rewrite)
    requires |written| == |items|
  {
    forall i | 0 <= i < |items| && written[i] != items[i] && items[i].PropertyItem? :: ClosedQuotes(Untouched(items[i].property, w))
  }

  /** The write names the identity it is addressed to, which is not a boundary. */
  predicate Addresses(id: Bytes, w: Rewrite) {
    !NamesAComponentBoundary(id) && (w.WholeLine? ==> EqIgnoreCase(id, w.line.name))
  }

  lemma {:induction false} NotABoundary(id: Bytes, name: Bytes)
    requires EqIgnoreCase(id, name) && !NamesAComponentBoundary(id)
    ensures !NamesAComponentBoundary(name)
  {
    hide EqIgnoreCase;
    EqIgnoreCaseTransitive(id, name, BEGIN);
    EqIgnoreCaseTransitive(id, name, END);
  }

  lemma {:induction false} RewrittenStaysProperty(item: Item, id: Bytes, w: Rewrite, enclosing: Option<Bytes>)
    requires HasId(item, id) && Addresses(id, w)
    ensures StaysProperty(w.Of(item.property), enclosing)
  {
    hide EqIgnoreCase;
    NotABoundary(id, w.Of(item.property).name);
  }

  lemma {:induction false} RewriteNested(items: seq<Item>, written: seq<Item>, id: Bytes, w: Rewrite, enclosing: Option<Bytes>, last: bool)
    requires RewritesSome(items, written, id, w) && Addresses(id, w)
    requires WellNested(items, enclosing, last)
    ensures WellNested(written, enclosing, last)
    decreases |items|
  {
    hide StaysProperty, Addresses, HasId, Rewrite.Of;
    if items != [] {
      assert RewritesItem(items[0], written[0], id, w);
      if written[0] != items[0] { RewrittenStaysProperty(items[0], id, w, enclosing) by { ItemIsProperty(items[0], id); } }
      assert forall i | 0 <= i < |items[1..]| :: RewritesItem(items[1..][i], written[1..][i], id, w);
      RewriteNested(items[1..], written[1..], id, w, enclosing, last);
    }
  }

  lemma {:induction false} RewriteExchangeable(c: Component, written: seq<Item>, id: Bytes, w: Rewrite)
    requires RewritesSome(c.items, written, id, w) && Addresses(id, w)
    ensures Exchangeable(c, c.(items := written))
  {
    hide WellNested, RewritesSome, Addresses, Opens, Closes;
    forall last | WellItem(ComponentItem(c), None, last) ensures WellItem(ComponentItem(c.(items := written)), None, last) {
      RewriteNested(c.items, written, id, w, Some(c.begin.name), c.end.None?);
    }
  }

  lemma {:induction false} RewriteLines(items: seq<Item>, written: seq<Item>, id: Bytes, w: Rewrite)
    requires RewritesSome(items, written, id, w) && ClosesQuotes(items, written, w)
    ensures RewrittenLines(LinesAs(items), LinesAs(written), w)
    decreases |items|
  {
    hide LinesAs, HasId, Rewrite.Of, RewrittenLines, ClosedQuotes, Untouched;
    if items == [] {
      assert written == [];
      RewrittenSame(LinesAs([]), w);
    } else {
      LinesAsFront(items);
      LinesAsFront(written);
      assert RewritesItem(items[0], written[0], id, w);
      LinesAsOne(items[0]);
      LinesAsOne(written[0]);
      if written[0] == items[0] {
        RewrittenSame(LinesAs([items[0]]), w);
      } else {
        ItemIsProperty(items[0], id);
        RewrittenOne(items[0].property, w);
      }
      assert forall i | 0 <= i < |items[1..]| :: RewritesItem(items[1..][i], written[1..][i], id, w);
      assert forall i | 0 <= i < |items[1..]| :: items[1..][i] == items[i + 1] && written[1..][i] == written[i + 1];
      RewriteLines(items[1..], written[1..], id, w);
      RewrittenAppend(LinesAs([items[0]]), LinesAs(items[1..]), LinesAs([written[0]]), LinesAs(written[1..]), w);
    }
  }

  lemma {:induction false} RewrittenOne(p: Property, w: Rewrite)
    requires ClosedQuotes(Untouched(p, w))
    ensures RewrittenLines([p], [w.Of(p)], w)
  {
  }

  lemma {:induction false} EntryIsALine(items: seq<Item>, at: nat)
    requires at < |items| && items[at].PropertyItem?
    ensures items[at].property in LinesAs(items)
  {
    hide LinesAs;
    LinesAsAt(items, at);
    LinesAsOne(items[at]);
    assert items[at].property in [items[at].property];
  }

  lemma {:induction false} EntryIsALineOfPut(doc: seq<Item>, path: seq<nat>, c: Component, at: nat)
    requires Reach(doc, path).Some? && at < |c.items| && c.items[at].PropertyItem?
    ensures c.items[at].property in LinesAs(Put(doc, path, c))
  {
    hide LinesAs, LinesAbove, LinesBelow;
    EntryIsALine(c.items, at);
    LinesOfPut(doc, path, c);
  }

  /**
   A replacement, a parameter edit or a value write, of one occurrence or of all, in a component
   at any depth, leaves a document that reads back as itself exactly when no line it rewrites
   keeps an open quote.
   */
  lemma {:induction false} RewriteReadsBackIff(doc: seq<Item>, path: seq<nat>, written: seq<Item>, id: Bytes, w: Rewrite)
    requires ReadsBack(doc) && Reach(doc, path).Some?
    requires RewritesSome(Reach(doc, path).value.items, written, id, w) && Addresses(id, w) && Clean(w)
    ensures var c := Reach(doc, path).value;
      ReadsBack(Put(doc, path, c.(items := written))) <==> ClosesQuotes(c.items, written, w)
  {
    hide LinesAs, WellNested, Separated, Readable, Clean, ClosedQuotes, RewrittenLines, Put, Reach, RewritesItem, Addresses, ReadsBack, Untouched;
    var c := Reach(doc, path).value;
    var d := c.(items := written);
    ReadsBackIff(doc);
    ReadsBackIff(Put(doc, path, d));
    RewriteExchangeable(c, written, id, w);
    PutNested(doc, path, d, None, true);
    if ClosesQuotes(c.items, written, w) {
      RewrittenDocument(doc, path, written, id, w);
      RewrittenLinesSound(LinesAs(doc), LinesAs(Put(doc, path, d)), w);
    } else {
      var i :| 0 <= i < |c.items| && written[i] != c.items[i] && c.items[i].PropertyItem? && !ClosedQuotes(Untouched(c.items[i].property, w));
      RewrittenIs(c.items[i], written[i], id, w);
      EntryIsALineOfPut(doc, path, d, i);
      LineIsReadable(doc, path, i);
      RewrittenReadsIff(c.items[i].property, w);
    }
  }

  lemma {:induction false} RewrittenIs(item: Item, written: Item, id: Bytes, w: Rewrite)
    requires RewritesItem(item, written, id, w) && written != item
    ensures HasId(item, id) && item.PropertyItem? && written == PropertyItem(w.Of(item.property))
  {
  }

  lemma {:induction false} LineIsReadable(doc: seq<Item>, path: seq<nat>, at: nat)
    requires Sound(doc) && Reach(doc, path).Some? && at < |Reach(doc, path).value.items|
    requires Reach(doc, path).value.items[at].PropertyItem?
    ensures Readable(Reach(doc, path).value.items[at].property)
  {
    hide LinesAs, Put, Reach, WellNested, Separated, Readable;
    PutSame(doc, path);
    EntryIsALineOfPut(doc, path, Reach(doc, path).value, at);
  }

  lemma {:induction false} RewrittenDocument(doc: seq<Item>, path: seq<nat>, written: seq<Item>, id: Bytes, w: Rewrite)
    requires Reach(doc, path).Some?
    requires RewritesSome(Reach(doc, path).value.items, written, id, w) && ClosesQuotes(Reach(doc, path).value.items, written, w)
    ensures RewrittenLines(LinesAs(doc), LinesAs(Put(doc, path, Reach(doc, path).value.(items := written))), w)
  {
    hide LinesAs, RewrittenLines, Put, Reach, LinesAbove, LinesBelow, RewritesSome, ClosesQuotes, BeginLine, EndLine;
    var c := Reach(doc, path).value;
    var above, begin, end, below := LinesAbove(doc, path), BeginLine(c.begin), EndLine(c.end), LinesBelow(doc, path);
    PutSame(doc, path);
    LinesOfPut(doc, path, c);
    LinesOfPut(doc, path, c.(items := written));
    RewriteLines(c.items, written, id, w);
    RewrittenSame(begin, w);
    RewrittenAppend(begin, LinesAs(c.items), begin, LinesAs(written), w);
    RewrittenSame(end, w);
    RewrittenAppend(begin + LinesAs(c.items), end, begin + LinesAs(written), end, w);
    RewrittenSame(above, w);
    RewrittenAppend(above, begin + LinesAs(c.items) + end, above, begin + LinesAs(written) + end, w);
    RewrittenSame(below, w);
    RewrittenAppend(above + (begin + LinesAs(c.items) + end), below, above + (begin + LinesAs(written) + end), below, w);
  }

  // -------------------------------------------------------------------------
  // Octets a write reaches
  // -------------------------------------------------------------------------

  /** The lines of the file above and below one entry of a component. */
  function AboveEntry(doc: seq<Item>, path: seq<nat>, at: nat): seq<Property>
    requires Reach(doc, path).Some? && at <= |Reach(doc, path).value.items|
  {
    var c := Reach(doc, path).value;
    LinesAbove(doc, path) + BeginLine(c.begin) + LinesAs(c.items[..at])
  }

  function BelowEntry(doc: seq<Item>, path: seq<nat>, from: nat): seq<Property>
    requires Reach(doc, path).Some? && from <= |Reach(doc, path).value.items|
  {
    var c := Reach(doc, path).value;
    LinesAs(c.items[from..]) + EndLine(c.end) + LinesBelow(doc, path)
  }

  lemma {:induction false} AssociateEntry<T>(a: seq<T>, b: seq<T>, x: seq<T>, m: seq<T>, y: seq<T>, e: seq<T>, z: seq<T>)
    ensures a + (b + (x + m + y) + e) + z == (a + b + x) + m + (y + e + z)
  {
  }

  /** The file's lines around a run of entries of one component. */
  lemma {:induction false} LinesAround(doc: seq<Item>, path: seq<nat>, at: nat, from: nat, middle: seq<Item>)
    requires Reach(doc, path).Some? && at <= from <= |Reach(doc, path).value.items|
    ensures var c := Reach(doc, path).value;
      LinesAs(Put(doc, path, c.(items := c.items[..at] + middle + c.items[from..])))
      == AboveEntry(doc, path, at) + LinesAs(middle) + BelowEntry(doc, path, from)
  {
    hide LinesAs, LinesAbove, LinesBelow, BeginLine, EndLine, Put, Reach;
    var c := Reach(doc, path).value;
    LinesOfPut(doc, path, c.(items := c.items[..at] + middle + c.items[from..]));
    LinesAsAppend(c.items[..at] + middle, c.items[from..]);
    LinesAsAppend(c.items[..at], middle);
    AssociateEntry(LinesAbove(doc, path), BeginLine(c.begin), LinesAs(c.items[..at]), LinesAs(middle),
                   LinesAs(c.items[from..]), EndLine(c.end), LinesBelow(doc, path));
  }

  lemma {:induction false} LinesAtEntry(doc: seq<Item>, path: seq<nat>, at: nat)
    requires Reach(doc, path).Some? && at < |Reach(doc, path).value.items|
    requires Reach(doc, path).value.items[at].PropertyItem?
    ensures LinesAs(doc) == AboveEntry(doc, path, at) + [Reach(doc, path).value.items[at].property] + BelowEntry(doc, path, at + 1)
  {
    hide LinesAs, AboveEntry, BelowEntry, Put, Reach;
    var c := Reach(doc, path).value;
    PutSame(doc, path);
    assert c.items == c.items[..at] + [c.items[at]] + c.items[at + 1..];
    LinesAround(doc, path, at, at + 1, [c.items[at]]);
    LinesAsOne(c.items[at]);
    assert c.(items := c.items) == c;
  }

  /** The octets of one line differ, and no others: what stands on either side does not depend on it. */
  ghost predicate WritesOnly(doc: seq<Item>, changed: seq<Item>, path: seq<nat>, at: nat, q: Property)
    requires Reach(doc, path).Some? && at < |Reach(doc, path).value.items| && Reach(doc, path).value.items[at].PropertyItem?
  {
    var above, below := AboveEntry(doc, path, at), BelowEntry(doc, path, at + 1);
    var p := Reach(doc, path).value.items[at].property;
    && Serialized(doc) == LayOpen(above) + Piece(PropertyLine(p), below == []) + Lay(below)
    && Serialized(changed) == LayOpen(above) + Piece(PropertyLine(q), below == []) + Lay(below)
  }

  /** A write to one occurrence changes the octets of that line and no others. */
  lemma {:induction false} WriteIsLocal(doc: seq<Item>, path: seq<nat>, at: nat, q: Property)
    requires Reach(doc, path).Some? && at < |Reach(doc, path).value.items|
    requires Reach(doc, path).value.items[at].PropertyItem?
    ensures var c := Reach(doc, path).value;
      WritesOnly(doc, Put(doc, path, c.(items := c.items[at := PropertyItem(q)])), path, at, q)
  {
    hide LinesAs, AboveEntry, BelowEntry, Put, Reach, Lay, LayOpen, Piece, Serialized;
    var c := Reach(doc, path).value;
    var above, below := AboveEntry(doc, path, at), BelowEntry(doc, path, at + 1);
    var changed := Put(doc, path, c.(items := c.items[at := PropertyItem(q)]));
    assert c.items[at := PropertyItem(q)] == c.items[..at] + [PropertyItem(q)] + c.items[at + 1..];
    LinesAtEntry(doc, path, at);
    LinesAround(doc, path, at, at + 1, [PropertyItem(q)]);
    LinesAsOne(PropertyItem(q));
    SerializedIsLay(doc);
    SerializedIsLay(changed);
    LayAround(above, c.items[at].property, below);
    LayAround(above, q, below);
  }

  // -------------------------------------------------------------------------
  // Additions
  // -------------------------------------------------------------------------

  lemma {:induction false} TerminateAbove(doc: seq<Item>, path: seq<nat>, c: Component, at: nat)
    requires Reach(doc, path) == Some(c) && 0 < at <= |c.items| && c.items[at - 1].PropertyItem?
    ensures LinesAbove(doc, path) + BeginLine(c.begin) + LinesAs(c.items[..at - 1] + [Terminated(c.items[at - 1])])
      == TerminatedLast(AboveEntry(doc, path, at))
  {
    hide LinesAs, LinesAbove, LinesBelow, BeginLine, EndLine, Reach;
    var p := c.items[at - 1].property;
    var front := LinesAbove(doc, path) + BeginLine(c.begin) + LinesAs(c.items[..at - 1]);
    assert c.items[..at] == c.items[..at - 1] + [c.items[at - 1]];
    LinesAsAppend(c.items[..at - 1], [c.items[at - 1]]);
    LinesAsAppend(c.items[..at - 1], [Terminated(c.items[at - 1])]);
    LinesAsOne(c.items[at - 1]);
    LinesAsOne(Terminated(c.items[at - 1]));
    assert AboveEntry(doc, path, at) == front + [p];
    TerminatedSnoc(front, p);
  }

  lemma {:induction false} TerminatedSnoc(front: seq<Property>, p: Property)
    ensures TerminatedLast(front + [p]) == front + [TerminatedLine(p)]
  {
    assert (front + [p])[..|front|] == front;
  }

  lemma {:induction false} LinesAtGap(doc: seq<Item>, path: seq<nat>, at: nat)
    requires Reach(doc, path).Some? && at <= |Reach(doc, path).value.items|
    ensures LinesAs(doc) == AboveEntry(doc, path, at) + BelowEntry(doc, path, at)
  {
    hide LinesAs, AboveEntry, BelowEntry, Put, Reach;
    var c := Reach(doc, path).value;
    PutSame(doc, path);
    assert c.items == c.items[..at] + [] + c.items[at..];
    assert c.(items := c.items) == c;
    LinesAround(doc, path, at, at, []);
    NoLinesAs();
    assert AboveEntry(doc, path, at) + [] == AboveEntry(doc, path, at);
  }

  /** The file's lines after an addition: the line above gains a terminator if it had none. */
  lemma {:induction false} LinesOfAddition(doc: seq<Item>, path: seq<nat>, line: ParsedLine)
    requires Reach(doc, path).Some?
    ensures var c := Reach(doc, path).value; var at := InsertionPoint(c.items);
      && LinesAs(doc) == AboveEntry(doc, path, at) + BelowEntry(doc, path, at)
      && LinesAs(Put(doc, path, Inserted(c, line)))
         == TerminatedLast(AboveEntry(doc, path, at)) + [NewProperty(line)] + BelowEntry(doc, path, at)
  {
    hide LinesAs, LinesAbove, LinesBelow, EndLine, Put, Reach, NewProperty;
    var c := Reach(doc, path).value;
    var at, added := InsertionPoint(c.items), PropertyItem(NewProperty(line));
    LinesAtGap(doc, path, at);
    var r := Inserted(c, line);
    LinesOfPut(doc, path, r);
    var front := r.items[..at];
    assert r.items == front + [added] + c.items[at..];
    LinesAsAppend(front + [added], c.items[at..]);
    LinesAsAppend(front, [added]);
    LinesAsOne(added);
    FrontOfInserted(doc, path, c, line);
    AssociateEntry(LinesAbove(doc, path), BeginLine(r.begin), LinesAs(front), [NewProperty(line)],
                   LinesAs(c.items[at..]), EndLine(c.end), LinesBelow(doc, path));
  }

  lemma {:induction false} FrontOfInserted(doc: seq<Item>, path: seq<nat>, c: Component, line: ParsedLine)
    requires Reach(doc, path) == Some(c)
    ensures var r, at := Inserted(c, line), InsertionPoint(c.items);
      LinesAbove(doc, path) + BeginLine(r.begin) + LinesAs(r.items[..at]) == TerminatedLast(AboveEntry(doc, path, at))
  {
    hide LinesAs, LinesAbove, Reach, NewProperty;
    var r, at := Inserted(c, line), InsertionPoint(c.items);
    if at == 0 {
      var begin := AsProperty(BoundaryLine(c.begin));
      assert r.items[..0] == [] == c.items[..0];
      NoLinesAs();
      assert LinesAbove(doc, path) + [begin] + [] == LinesAbove(doc, path) + [begin];
      TerminatedSnoc(LinesAbove(doc, path), begin);
      assert BeginLine(r.begin) == [TerminatedLine(begin)];
    } else {
      assert r.items[..at] == c.items[..at - 1] + [Terminated(c.items[at - 1])];
      TerminateAbove(doc, path, c, at);
    }
  }

  /** What a line gains when others come to stand below it: CR LF, if it had no terminator. */
  function Closing(p: Property): Bytes {
    if p.layout.ending.None? then [13, 10] else []
  }

  /**
   The octets of one terminated line come in; outside them at most one CR LF does, and only when
   the line above was the file's last and had no terminator.
   */
  ghost predicate PutsIn(doc: seq<Item>, changed: seq<Item>, path: seq<nat>, added: Property)
    requires Reach(doc, path).Some?
  {
    var at := InsertionPoint(Reach(doc, path).value.items);
    var above, below := AboveEntry(doc, path, at), BelowEntry(doc, path, at);
    && added.layout.ending.Some?
    && Serialized(changed) == LayOpen(above) + Piece(PropertyLine(added), false) + Lay(below)
    && (below != [] ==> Serialized(doc) == LayOpen(above) + Lay(below))
    && (below == [] ==> above != [] && LayOpen(above) == Serialized(doc) + Closing(above[|above| - 1]))
  }

  /** An addition inserts the octets of one line where it says. */
  lemma {:induction false} AdditionIsLocal(doc: seq<Item>, path: seq<nat>, line: ParsedLine)
    requires Reach(doc, path).Some?
    ensures PutsIn(doc, Put(doc, path, Inserted(Reach(doc, path).value, line)), path, NewProperty(line))
  {
    hide LinesAs, AboveEntry, BelowEntry, Put, Reach, Lay, LayOpen, Piece, Serialized;
    var c := Reach(doc, path).value;
    var at := InsertionPoint(c.items);
    var above, below, added := AboveEntry(doc, path, at), BelowEntry(doc, path, at), NewProperty(line);
    var changed := Put(doc, path, Inserted(c, line));
    LinesOfAddition(doc, path, line);
    SerializedIsLay(doc);
    SerializedIsLay(changed);
    LayAround(TerminatedLast(above), added, below);
    LayOpenTerminated(above);
    EndedPiece(added);
    SomethingAbove(doc, path, at);
    if below != [] {
      LaySplit(above, below);
    } else {
      LayOpenIs(above);
      assert above + [] == above;
    }
  }

  lemma {:induction false} SomethingAbove(doc: seq<Item>, path: seq<nat>, at: nat)
    requires Reach(doc, path).Some? && at <= |Reach(doc, path).value.items|
    ensures AboveEntry(doc, path, at) != []
  {
  }

  lemma {:induction false} EndedPiece(p: Property)
    requires p.layout.ending.Some?
    ensures Piece(PropertyLine(p), true) == Piece(PropertyLine(p), false)
  {
  }

  lemma {:induction false} InsertNested(items: seq<Item>, at: nat, item: Item, enclosing: Option<Bytes>, last: bool)
    requires at <= |items| && WellNested(items, enclosing, last)
    requires item.PropertyItem? && StaysProperty(item.property, enclosing)
    requires at > 0 ==> items[at - 1].PropertyItem?
    ensures WellNested(items[..at] + [item] + items[at..], enclosing, last)
    decreases at
  {
    hide StaysProperty;
    var r := items[..at] + [item] + items[at..];
    if at == 0 {
      assert r[1..] == items;
    } else {
      assert r[0] == items[0];
      assert r[1..] == items[1..][..at - 1] + [item] + items[1..][at - 1..];
      if at > 1 { assert items[1..][at - 2].PropertyItem?; }
      InsertNested(items[1..], at - 1, item, enclosing, last);
    }
  }

  lemma {:induction false} TerminatedWell(item: Item, enclosing: Option<Bytes>, last: bool)
    requires item.PropertyItem? && WellItem(item, enclosing, last)
    ensures WellItem(Terminated(item), enclosing, last)
  {
  }

  lemma {:induction false} InsertedExchangeable(c: Component, id: Bytes, line: ParsedLine)
    requires EqIgnoreCase(id, line.name) && !NamesAComponentBoundary(id)
    ensures Exchangeable(c, Inserted(c, line))
  {
    hide WellNested, EqIgnoreCase, StaysProperty;
    var at, added := InsertionPoint(c.items), PropertyItem(NewProperty(line));
    var name := Some(c.begin.name);
    assert StaysProperty(NewProperty(line), name) by { NewStaysProperty(id, line, name); }
    forall last | WellItem(ComponentItem(c), None, last) ensures WellItem(ComponentItem(Inserted(c, line)), None, last) {
      if at == 0 {
        InsertNested(c.items, 0, added, name, c.end.None?);
        assert [] + [added] + c.items[0..] == [added] + c.items[0..];
        assert c.items[..0] == [];
      } else {
        var above := c.items[at - 1 := Terminated(c.items[at - 1])];
        WellNestedAt(c.items, at - 1, Terminated(c.items[at - 1]), name, c.end.None?);
        TerminatedWell(c.items[at - 1], name, c.end.None? && at - 1 == |c.items| - 1);
        InsertNested(above, at, added, name, c.end.None?);
        assert above[..at] + [added] + above[at..] == Inserted(c, line).items;
      }
    }
  }

  lemma {:induction false} NewStaysProperty(id: Bytes, line: ParsedLine, enclosing: Option<Bytes>)
    requires EqIgnoreCase(id, line.name) && !NamesAComponentBoundary(id)
    ensures StaysProperty(NewProperty(line), enclosing)
  {
    hide EqIgnoreCase;
    NotABoundary(id, line.name);
  }

  lemma {:induction false} NewIsSound(line: ParsedLine)
    requires AuthoredLine(line)
    ensures Readable(NewProperty(line)) && Tame(NewProperty(line))
  {
    hide NameReads, AllGood, ClosedQuotes, LineFree, HeaderReads, LineContent, Tame;
    ReadableIff(NewProperty(line));
    SeparatedHasContent(NewProperty(line));
    RefoldedIsTame(NewProperty(line));
  }

  lemma {:induction false} TerminatedReadable(x: seq<Property>)
    requires AllReadable(x)
    ensures AllReadable(TerminatedLast(x))
  {
    hide HeaderReads, LineFree;
    if x != [] {
      var p := x[|x| - 1];
      assert Readable(p);
      assert HeaderOf(TerminatedLine(p)) == HeaderOf(p);
      ContentAssembles(p);
      ContentAssembles(TerminatedLine(p));
    }
  }

  /**
   An accepted addition leaves a document that reads back as itself exactly when the terminator
   the caller wrote on the new line does not join the octets below it: a bare CR above an LF.
   */
  lemma {:induction false} AdditionReadsBackIff(doc: seq<Item>, path: seq<nat>, id: Bytes, line: ParsedLine)
    requires ReadsBack(doc) && Reach(doc, path).Some?
    requires AuthoredLine(line) && EqIgnoreCase(id, line.name) && !NamesAComponentBoundary(id)
    ensures var c := Reach(doc, path).value;
      ReadsBack(Put(doc, path, Inserted(c, line)))
      <==> Follows(NewProperty(line).layout.ending, Lay(BelowEntry(doc, path, InsertionPoint(c.items))))
  {
    hide LinesAs, AboveEntry, BelowEntry, Put, Reach, Lay, WellNested, Separated, Readable, Tame, AuthoredLine, EqIgnoreCase, Inserted, Follows, ReadsBack;
    var c := Reach(doc, path).value;
    ReadsBackIff(doc);
    ReadsBackIff(Put(doc, path, Inserted(c, line)));
    var at := InsertionPoint(c.items);
    var above, below, added := AboveEntry(doc, path, at), BelowEntry(doc, path, at), NewProperty(line);
    InsertedExchangeable(c, id, line);
    PutNested(doc, path, Inserted(c, line), None, true);
    LinesOfAddition(doc, path, line);
    NewIsSound(line);
    ReadableSplit(above, below);
    TerminatedReadable(above);
    AddingKeepsSeparatedIff(above, added, below);
  }

  lemma {:induction false} ReadableSplit(x: seq<Property>, y: seq<Property>)
    requires AllReadable(x + y)
    ensures AllReadable(x) && AllReadable(y)
  {
    hide Readable;
    assert forall i | 0 <= i < |x| :: x[i] == (x + y)[i];
    assert forall i | 0 <= i < |y| :: y[i] == (x + y)[|x| + i];
  }

  // -------------------------------------------------------------------------
  // Removals
  // -------------------------------------------------------------------------

  lemma {:induction false} LinesOfRemoval(doc: seq<Item>, path: seq<nat>, at: nat)
    requires Reach(doc, path).Some? && at < |Reach(doc, path).value.items|
    requires Reach(doc, path).value.items[at].PropertyItem?
    ensures var c := Reach(doc, path).value;
      LinesAs(Put(doc, path, c.(items := c.items[..at] + c.items[at + 1..])))
      == AboveEntry(doc, path, at) + BelowEntry(doc, path, at + 1)
  {
    hide LinesAs, AboveEntry, BelowEntry, Put, Reach;
    var c := Reach(doc, path).value;
    LinesAround(doc, path, at, at + 1, []);
    NoLinesAs();
    assert c.items[..at] + [] + c.items[at + 1..] == c.items[..at] + c.items[at + 1..];
    assert AboveEntry(doc, path, at) + [] == AboveEntry(doc, path, at);
  }

  /** The octets of one line go out, and at most a CR LF that only a line below it asked for. */
  ghost predicate TakesOut(doc: seq<Item>, changed: seq<Item>, path: seq<nat>, at: nat)
    requires Reach(doc, path).Some? && at < |Reach(doc, path).value.items| && Reach(doc, path).value.items[at].PropertyItem?
  {
    var above, below := AboveEntry(doc, path, at), BelowEntry(doc, path, at + 1);
    var p := Reach(doc, path).value.items[at].property;
    && Serialized(doc) == LayOpen(above) + Piece(PropertyLine(p), below == []) + Lay(below)
    && (below != [] ==> Serialized(changed) == LayOpen(above) + Lay(below))
    && (below == [] ==> above != [] && LayOpen(above) == Serialized(changed) + Closing(above[|above| - 1]))
  }

  /** A removal takes one line's octets out of the file and leaves every other octet. */
  lemma {:induction false} RemovalIsLocal(doc: seq<Item>, path: seq<nat>, at: nat)
    requires Reach(doc, path).Some? && at < |Reach(doc, path).value.items|
    requires Reach(doc, path).value.items[at].PropertyItem?
    ensures var c := Reach(doc, path).value;
      TakesOut(doc, Put(doc, path, c.(items := c.items[..at] + c.items[at + 1..])), path, at)
  {
    hide LinesAs, AboveEntry, BelowEntry, Put, Reach, Lay, LayOpen, Piece, Serialized;
    var c := Reach(doc, path).value;
    var above, below := AboveEntry(doc, path, at), BelowEntry(doc, path, at + 1);
    var removed := Put(doc, path, c.(items := c.items[..at] + c.items[at + 1..]));
    LinesAtEntry(doc, path, at);
    LinesOfRemoval(doc, path, at);
    SerializedIsLay(doc);
    SerializedIsLay(removed);
    LayAround(above, c.items[at].property, below);
    SomethingAbove(doc, path, at);
    if below != [] {
      LaySplit(above, below);
    } else {
      LayOpenIs(above);
      assert above + [] == above;
    }
  }

  lemma {:induction false} RemoveNested(items: seq<Item>, at: nat, enclosing: Option<Bytes>, last: bool)
    requires at < |items| && WellNested(items, enclosing, last)
    ensures WellNested(items[..at] + items[at + 1..], enclosing, last)
    decreases at
  {
    hide WellItem;
    var r := items[..at] + items[at + 1..];
    if at == 0 {
      assert r == items[1..];
    } else {
      assert r[0] == items[0] && r[1..] == items[1..][..at - 1] + items[1..][at..];
      RemoveNested(items[1..], at - 1, enclosing, last);
      WellItemAnywhere(items[0], enclosing);
    }
  }

  lemma {:induction false} RemovedExchangeable(c: Component, at: nat)
    requires at < |c.items|
    ensures Exchangeable(c, c.(items := c.items[..at] + c.items[at + 1..]))
  {
    hide WellNested, Opens, Closes;
    var d := c.(items := c.items[..at] + c.items[at + 1..]);
    forall last | WellItem(ComponentItem(c), None, last) ensures WellItem(ComponentItem(d), None, last) {
      RemoveNested(c.items, at, Some(c.begin.name), c.end.None?);
    }
  }

  /**
   Removing one occurrence leaves a document that reads back as itself exactly when the lines it
   brings together can be neighbours.
   */
  lemma {:induction false} RemovalReadsBackIff(doc: seq<Item>, path: seq<nat>, at: nat)
    requires ReadsBack(doc) && Reach(doc, path).Some? && at < |Reach(doc, path).value.items|
    requires Reach(doc, path).value.items[at].PropertyItem?
    ensures var c := Reach(doc, path).value;
      var above := AboveEntry(doc, path, at);
      && above != []
      && (ReadsBack(Put(doc, path, c.(items := c.items[..at] + c.items[at + 1..])))
          <==> MayPrecede(above[|above| - 1], BelowEntry(doc, path, at + 1)))
  {
    hide LinesAs, AboveEntry, BelowEntry, Put, Reach, WellNested, Separated, Readable, MayPrecede, ReadsBack;
    var c := Reach(doc, path).value;
    ReadsBackIff(doc);
    ReadsBackIff(Put(doc, path, c.(items := c.items[..at] + c.items[at + 1..])));
    var above, below, p := AboveEntry(doc, path, at), BelowEntry(doc, path, at + 1), c.items[at].property;
    RemovedExchangeable(c, at);
    PutNested(doc, path, c.(items := c.items[..at] + c.items[at + 1..]), None, true);
    LinesAtEntry(doc, path, at);
    LinesOfRemoval(doc, path, at);
    SomethingAbove(doc, path, at);
    ReadableSplit(above + [p], below);
    ReadableSplit(above, [p]);
    RemovingKeepsSeparatedIff(above, p, below);
  }
}
