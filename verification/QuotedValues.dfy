/**
 The parameter grammar of section 3.2 of RFC 5545 as it is written down there, a list of values
 each quoted or plain, as the reference for where the reader lets a quoted string open and close.
 Delimiters are spelled as octets here: DQUOTE 34, comma 44, colon 58, semicolon 59, equals 61.
 */
module QuotedValues {
  import opened Octets
  import opened Syntax
  import opened Grammar

  /** One value of a list: a quoted string, if it begins with one, and the plain text behind it. */
  datatype Element = Element(quoted: Option<Bytes>, text: Bytes)

  predicate ElementIsWellFormed(e: Element) {
    && (forall i | 0 <= i < |e.text| :: e.text[i] != 44 && e.text[i] != 58 && e.text[i] != 59)
    && (match e.quoted
        case Some(q) => forall i | 0 <= i < |q| :: q[i] != 34
        case None => e.text == [] || e.text[0] != 34)
  }

  predicate AllWellFormed(es: seq<Element>) {
    forall i | 0 <= i < |es| :: ElementIsWellFormed(es[i])
  }

  function ElementOctets(e: Element): Bytes {
    match e.quoted
    case Some(q) => [34] + (q + ([34] + e.text))
    case None => e.text
  }

  /** Values joined by commas. */
  function Listed(es: seq<Element>): Bytes
    requires es != []
  {
    if |es| == 1 then ElementOctets(es[0]) else ElementOctets(es[0]) + ([44] + Listed(es[1..]))
  }

  /** A list whose last value opens a quote that nothing closes. */
  function ListedOpen(es: seq<Element>, q: Bytes): Bytes {
    if es == [] then [34] + q else ElementOctets(es[0]) + ([44] + ListedOpen(es[1..], q))
  }

  // -------------------------------------------------------------------------
  // Reading a list
  // -------------------------------------------------------------------------

  lemma {:induction false} RunAppend(a: Bytes, b: Bytes, state: ValueState)
    ensures RunValue(a + b, state) == RunValue(b, RunValue(a, state))
  {
    if a == [] {
      assert a + b == b;
    } else {
      RunAppend(a[1..], b, NextValueState(state, a[0]));
      assert (a + b)[1..] == a[1..] + b;
    }
  }

  /** Plain text, from inside it: a DQUOTE there is no quote. */
  lemma {:induction false} TextReads(t: Bytes)
    requires forall i | 0 <= i < |t| :: t[i] != 44 && t[i] != 58 && t[i] != 59
    ensures ValueReads(t, ValueText) && RunValue(t, ValueText) == ValueText
  {
    if t != [] { TextReads(t[1..]); }
  }

  lemma {:induction false} QuoteReads(q: Bytes, t: Bytes)
    requires forall i | 0 <= i < |q| :: q[i] != 34
    requires ValueReads(t, ValueText) && RunValue(t, ValueText) == ValueText
    ensures ValueReads(q + ([34] + t), Quoted) && RunValue(q + ([34] + t), Quoted) == ValueText
  {
    var s := q + ([34] + t);
    if q == [] {
      assert s == [34] + t && s[1..] == t;
    } else {
      QuoteReads(q[1..], t);
      assert s[1..] == q[1..] + ([34] + t);
    }
  }

  lemma {:induction false} ElementReads(e: Element)
    requires ElementIsWellFormed(e)
    ensures ValueReads(ElementOctets(e), ValueStart) && RunValue(ElementOctets(e), ValueStart) in {ValueStart, ValueText}
  {
    var t := e.text;
    if e.quoted.Some? {
      TextReads(t);
      QuoteReads(e.quoted.value, t);
      assert ElementOctets(e)[1..] == e.quoted.value + ([34] + t);
    } else if t != [] {
      TextReads(t[1..]);
    }
  }

  /** A comma ends a value and nothing else, and the next value may open a quote again. */
  lemma {:induction false} CommaReads(a: Bytes, b: Bytes)
    requires ValueReads(a, ValueStart) && RunValue(a, ValueStart) in {ValueStart, ValueText}
    ensures ValueReads(a + ([44] + b), ValueStart) <==> ValueReads(b, ValueStart)
    ensures RunValue(a + ([44] + b), ValueStart) == RunValue(b, ValueStart)
  {
    var tail: Bytes := [44] + b;
    assert tail[1..] == b;
    ValueEndAppend(a, tail, ValueStart);
    RunAppend(a, tail, ValueStart);
  }

  lemma {:induction false} ListReads(es: seq<Element>)
    requires es != [] && AllWellFormed(es)
    ensures ValueReads(Listed(es), ValueStart) && !LeavesQuoteOpen(Listed(es))
  {
    hide ValueEnd, RunValue, ElementIsWellFormed, ElementOctets;
    ElementReads(es[0]);
    if |es| > 1 {
      ListReads(es[1..]);
      CommaReads(ElementOctets(es[0]), Listed(es[1..]));
    }
  }

  lemma {:induction false} QuotedToTheEnd(q: Bytes)
    requires forall i | 0 <= i < |q| :: q[i] != 34
    ensures ValueReads(q, Quoted) && RunValue(q, Quoted) == Quoted
  {
    if q != [] { QuotedToTheEnd(q[1..]); }
  }

  lemma {:induction false} OpenListReads(es: seq<Element>, q: Bytes)
    requires AllWellFormed(es) && forall i | 0 <= i < |q| :: q[i] != 34
    ensures ValueReads(ListedOpen(es, q), ValueStart) && LeavesQuoteOpen(ListedOpen(es, q))
  {
    hide ElementIsWellFormed, ElementOctets;
    if es == [] {
      QuotedToTheEnd(q);
      assert ([34] + q)[1..] == q;
    } else {
      ElementReads(es[0]);
      OpenListReads(es[1..], q);
      CommaReads(ElementOctets(es[0]), ListedOpen(es[1..], q));
    }
  }

  // -------------------------------------------------------------------------
  // Every value that reads is such a list
  // -------------------------------------------------------------------------

  ghost predicate IsList(v: Bytes) {
    exists es: seq<Element> :: es != [] && AllWellFormed(es) && Listed(es) == v
  }

  ghost predicate IsOpenList(v: Bytes) {
    exists es: seq<Element>, q: Bytes ::
      AllWellFormed(es) && (forall i | 0 <= i < |q| :: q[i] != 34) && ListedOpen(es, q) == v
  }

  lemma {:induction false} ListOfOne(e: Element)
    requires ElementIsWellFormed(e)
    ensures IsList(ElementOctets(e))
  {
    assert AllWellFormed([e]) && Listed([e]) == ElementOctets(e);
  }

  lemma {:induction false} ListCons(e: Element, v: Bytes)
    requires ElementIsWellFormed(e)
    ensures IsList(v) ==> IsList(ElementOctets(e) + ([44] + v))
    ensures IsOpenList(v) ==> IsOpenList(ElementOctets(e) + ([44] + v))
  {
    hide ElementIsWellFormed, ElementOctets;
    if IsList(v) {
      var es :| es != [] && AllWellFormed(es) && Listed(es) == v;
      assert ([e] + es)[1..] == es;
      assert AllWellFormed([e] + es) && Listed([e] + es) == ElementOctets(e) + ([44] + v);
    }
    if IsOpenList(v) {
      var es, q :| AllWellFormed(es) && (forall i | 0 <= i < |q| :: q[i] != 34) && ListedOpen(es, q) == v;
      assert ([e] + es)[1..] == es;
      assert AllWellFormed([e] + es) && ListedOpen([e] + es, q) == ElementOctets(e) + ([44] + v);
    }
  }

  /** One of the two, as the quote at its end is closed or open. */
  ghost predicate IsEither(v: Bytes, open: bool) {
    if open then IsOpenList(v) else IsList(v)
  }

  /** The rest of a value whose element so far is e, reading plain text. */
  lemma {:induction false} TextIsListed(e: Element, v: Bytes)
    requires ElementIsWellFormed(e) && (e.quoted.Some? || e.text != [])
    requires ValueReads(v, ValueText)
    ensures IsEither(ElementOctets(e) + v, RunValue(v, ValueText) == Quoted)
    decreases |v|
  {
    hide IsList, IsOpenList;
    if v == [] {
      assert ElementOctets(e) + v == ElementOctets(e);
      ListOfOne(e);
    } else if v[0] == 44 {
      ValueIsListed(v[1..]);
      assert v == [44] + v[1..];
      ListCons(e, v[1..]);
    } else {
      var f := Element(e.quoted, e.text + [v[0]]);
      assert ElementOctets(f) + v[1..] == ElementOctets(e) + v;
      TextIsListed(f, v[1..]);
    }
  }

  lemma {:induction false} QuoteIsListed(q: Bytes, v: Bytes)
    requires forall i | 0 <= i < |q| :: q[i] != 34
    requires ValueReads(v, Quoted)
    ensures IsEither([34] + (q + v), RunValue(v, Quoted) == Quoted)
    decreases |v|
  {
    hide IsList;
    if v == [] {
      assert AllWellFormed([]) && ListedOpen([], q) == [34] + (q + v);
    } else if v[0] == 34 {
      var e := Element(Some(q), []);
      assert ElementOctets(e) + v[1..] == [34] + (q + v);
      TextIsListed(e, v[1..]);
    } else {
      assert (q + [v[0]]) + v[1..] == q + v;
      QuoteIsListed(q + [v[0]], v[1..]);
    }
  }

  lemma {:induction false} ValueIsListed(v: Bytes)
    requires ValueReads(v, ValueStart)
    ensures IsEither(v, LeavesQuoteOpen(v))
    decreases |v|, 1
  {
    hide IsList, IsOpenList;
    var nothing := Element(None, []);
    if v == [] {
      ListOfOne(nothing);
    } else if v[0] == 34 {
      assert [34] + ([] + v[1..]) == v;
      QuoteIsListed([], v[1..]);
    } else if v[0] == 44 {
      ValueIsListed(v[1..]);
      assert ElementOctets(nothing) + ([44] + v[1..]) == v;
      ListCons(nothing, v[1..]);
    } else {
      var e := Element(None, [v[0]]);
      assert ElementOctets(e) + v[1..] == v;
      TextIsListed(e, v[1..]);
    }
  }

  /**
   The values a parameter can have are exactly the grammar's lists; those that leave a quote open
   are exactly the lists cut short inside a quoted string.
   */
  lemma {:induction false} ValueReadsIff(v: Bytes)
    ensures ValueReads(v, ValueStart) && !LeavesQuoteOpen(v) <==> IsList(v)
    ensures ValueReads(v, ValueStart) && LeavesQuoteOpen(v) <==> IsOpenList(v)
  {
    hide ValueEnd, RunValue, Listed, ListedOpen;
    if ValueReads(v, ValueStart) { ValueIsListed(v); }
    if IsList(v) {
      var es: seq<Element> :| es != [] && AllWellFormed(es) && Listed(es) == v;
      ListReads(es);
    }
    if IsOpenList(v) {
      var es: seq<Element>, q: Bytes :|
        AllWellFormed(es) && (forall i | 0 <= i < |q| :: q[i] != 34) && ListedOpen(es, q) == v;
      OpenListReads(es, q);
    }
  }

  // -------------------------------------------------------------------------
  // Splitting a line
  // -------------------------------------------------------------------------

  /** A parameter by the grammar: a name, and a list of values if it has any. */
  datatype Listing = Listing(name: Bytes, values: Option<seq<Element>>)

  predicate ListingIsWellFormed(p: Listing) {
    && (forall i | 0 <= i < |p.name| :: p.name[i] != 58 && p.name[i] != 59 && p.name[i] != 61)
    && (p.values.Some? ==> p.values.value != [] && AllWellFormed(p.values.value))
  }

  function ListingOctets(p: Listing): Bytes
    requires ListingIsWellFormed(p)
  {
    if p.values.Some? then [59] + p.name + [61] + Listed(p.values.value) else [59] + p.name
  }

  function ListingsOctets(ps: seq<Listing>): Bytes
    requires forall i | 0 <= i < |ps| :: ListingIsWellFormed(ps[i])
  {
    if ps == [] then [] else ListingOctets(ps[0]) + ListingsOctets(ps[1..])
  }

  /** What a reader holds of a parameter: its whole list, as one run of octets. */
  function HeldAs(p: Listing): Parameter
    requires ListingIsWellFormed(p)
  {
    if p.values.Some? then Parameter(p.name, Listed(p.values.value), true) else Parameter(p.name, [], false)
  }

  function AllHeld(ps: seq<Listing>): (r: seq<Parameter>)
    requires forall i | 0 <= i < |ps| :: ListingIsWellFormed(ps[i])
    ensures |r| == |ps| && forall i | 0 <= i < |ps| :: r[i] == HeldAs(ps[i])
  {
    seq(|ps|, i requires 0 <= i < |ps| => HeldAs(ps[i]))
  }

  lemma {:induction false} HeldReads(p: Listing)
    requires ListingIsWellFormed(p)
    ensures ParameterReads(HeldAs(p)) && !OpensQuote(HeldAs(p)) && ParameterOctets(HeldAs(p)) == ListingOctets(p)
  {
    hide ValueEnd, RunValue, Listed;
    if p.values.Some? { ListReads(p.values.value); }
  }

  lemma {:induction false} AllHeldOctets(ps: seq<Listing>)
    requires forall i | 0 <= i < |ps| :: ListingIsWellFormed(ps[i])
    ensures Concat(ParameterListSpans(AllHeld(ps))) == ListingsOctets(ps)
  {
    hide HeldAs, ListingIsWellFormed, ListingOctets, ParameterSpans;
    if ps != [] {
      var held := AllHeld(ps);
      AllHeldOctets(ps[1..]);
      assert held[1..] == AllHeld(ps[1..]);
      HeldReads(ps[0]);
      ParameterOctetsAreSpans(held[0]);
      ConcatAppend(ParameterSpans(held[0]), ParameterListSpans(held[1..]));
    }
  }

  /**
   A line spelled by the grammar is split into exactly what was spelled: the name, the parameters
   in order, each with its whole list, and everything behind the colon that follows them.
   */
  lemma {:induction false} SpelledLineSplits(name: Bytes, ps: seq<Listing>, v: Bytes)
    requires forall i | 0 <= i < |name| :: name[i] != 58 && name[i] != 59
    requires forall i | 0 <= i < |ps| :: ListingIsWellFormed(ps[i])
    ensures Split(name + ListingsOctets(ps) + [58] + v) == Header(name, AllHeld(ps), true, v)
  {
    hide ParameterReads, OpensQuote, Split, HeldAs, ListingIsWellFormed, Listed, ListingsOctets, ParameterListSpans;
    var h := Header(name, AllHeld(ps), true, v);
    forall i | 0 <= i < |ps| ensures ParameterReads(h.parameters[i]) && !OpensQuote(h.parameters[i]) {
      HeldReads(ps[i]);
    }
    SplitAssembleIff(h);
    AllHeldOctets(ps);
    assert Concat([[COLON]]) == [58];
    assert Assemble(h) == name + ListingsOctets(ps) + [58] + v;
  }

  /** And one without a colon that no quote takes in, into a name and parameters and nothing else. */
  lemma {:induction false} UnseparatedLineSplits(name: Bytes, ps: seq<Listing>)
    requires forall i | 0 <= i < |name| :: name[i] != 58 && name[i] != 59
    requires forall i | 0 <= i < |ps| :: ListingIsWellFormed(ps[i])
    ensures Split(name + ListingsOctets(ps)) == Header(name, AllHeld(ps), false, [])
  {
    hide ParameterReads, OpensQuote, Split, HeldAs, ListingIsWellFormed, Listed, ListingsOctets, ParameterListSpans;
    var h := Header(name, AllHeld(ps), false, []);
    forall i | 0 <= i < |ps| ensures ParameterReads(h.parameters[i]) && !OpensQuote(h.parameters[i]) {
      HeldReads(ps[i]);
    }
    SplitAssembleIff(h);
    AllHeldOctets(ps);
    assert Assemble(h) == name + ListingsOctets(ps);
  }

  lemma {:induction false} OneListing(p: Listing)
    requires ListingIsWellFormed(p)
    ensures ListingsOctets([p]) == ListingOctets(p) && AllHeld([p]) == [HeldAs(p)]
  {
    assert ListingsOctets([p][1..]) == [];
  }

  /** Octet runs, each between DQUOTEs, joined by commas. */
  function QuotedList(qs: seq<Bytes>): Bytes
    requires qs != []
  {
    if |qs| == 1 then [34] + qs[0] + [34] else [34] + qs[0] + [34] + [44] + QuotedList(qs[1..])
  }

  function QuotedElements(qs: seq<Bytes>): (r: seq<Element>)
    ensures |r| == |qs| && forall i | 0 <= i < |r| :: r[i] == Element(Some(qs[i]), [])
  {
    seq(|qs|, i requires 0 <= i < |qs| => Element(Some(qs[i]), []))
  }

  lemma {:induction false} QuotedListed(qs: seq<Bytes>)
    requires qs != []
    ensures Listed(QuotedElements(qs)) == QuotedList(qs)
  {
    if |qs| > 1 {
      QuotedListed(qs[1..]);
      assert QuotedElements(qs)[1..] == QuotedElements(qs[1..]);
    }
  }

  /** Every value of a quoted list is quoted: nothing inside any of them ends the parameter. */
  lemma {:induction false} QuotedListSplits(name: Bytes, parameter: Bytes, qs: seq<Bytes>, v: Bytes)
    requires forall i | 0 <= i < |name| :: name[i] != 58 && name[i] != 59
    requires forall i | 0 <= i < |parameter| :: parameter[i] != 58 && parameter[i] != 59 && parameter[i] != 61
    requires qs != [] && forall i, j | 0 <= i < |qs| && 0 <= j < |qs[i]| :: qs[i][j] != 34
    ensures Split(name + [59] + parameter + [61] + QuotedList(qs) + [58] + v)
      == Header(name, [Parameter(parameter, QuotedList(qs), true)], true, v)
  {
    hide Split, QuotedList;
    var p := Listing(parameter, Some(QuotedElements(qs)));
    QuotedListed(qs);
    OneListing(p);
    SpelledLineSplits(name, [p], v);
    assert name + ListingsOctets([p]) + [58] + v == name + [59] + parameter + [61] + QuotedList(qs) + [58] + v;
  }

  /** A DQUOTE that follows plain text is no quote: a colon after it ends the header. */
  lemma {:induction false} LateQuoteIsText(name: Bytes, parameter: Bytes, before: Bytes, after: Bytes, v: Bytes)
    requires forall i | 0 <= i < |name| :: name[i] != 58 && name[i] != 59
    requires forall i | 0 <= i < |parameter| :: parameter[i] != 58 && parameter[i] != 59 && parameter[i] != 61
    requires before != [] && before[0] != 34
    requires forall i | 0 <= i < |before| :: before[i] != 44 && before[i] != 58 && before[i] != 59
    requires forall i | 0 <= i < |after| :: after[i] != 44 && after[i] != 58 && after[i] != 59
    ensures Split(name + [59] + parameter + [61] + (before + [34] + after) + [58] + v)
      == Header(name, [Parameter(parameter, before + [34] + after, true)], true, v)
  {
    hide Split;
    var text := before + [34] + after;
    var p := Listing(parameter, Some([Element(None, text)]));
    OneListing(p);
    SpelledLineSplits(name, [p], v);
    assert name + ListingsOctets([p]) + [58] + v == name + [59] + parameter + [61] + text + [58] + v;
  }
}
