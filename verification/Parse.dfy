/** Reading a document: every line of the input, in order, built into the tree. */
module Parse {
  import opened Octets
  import opened Budget
  import opened Syntax
  import opened Grammar
  import opened Lexer
  import opened Nesting
  import opened Ledger

  // -------------------------------------------------------------------------
  // The lines of an input
  // -------------------------------------------------------------------------

  function LogicalLines(s: Bytes): seq<Logical>
    decreases |s|
  {
    if s == [] then [] else [ReadLogical(s, 0)] + LogicalLines(ReadLogical(s, 0).rest)
  }

  function StoredLines(s: Bytes): seq<Property>
    decreases |s|
  {
    if s == [] then [] else [StoredLine(ReadLogical(s, 0))] + StoredLines(ReadLogical(s, 0).rest)
  }

  /** Every line stays inside the caller's bounds. */
  predicate Admitted(s: Bytes, limits: GrammarLimits, maxValueBytes: u32)
    decreases |s|
  {
    s == [] || (Within(ReadLogical(s, 0), limits, maxValueBytes) && Admitted(ReadLogical(s, 0).rest, limits, maxValueBytes))
  }

  /** The first line that does not, crosses the bound e names. */
  predicate RefusedWith(s: Bytes, e: ParseError, limits: GrammarLimits, maxValueBytes: u32)
    decreases |s|
  {
    s != [] &&
    var l := ReadLogical(s, 0);
    if Within(l, limits, maxValueBytes) then RefusedWith(l.rest, e, limits, maxValueBytes)
    else Crosses(l, e, limits, maxValueBytes)
  }

  /** The whole input stays inside every bound: each line by itself, and all of them together. */
  predicate Accepts(s: Bytes, limits: Limits) {
    Admitted(s, limits.grammar, limits.maxValueBytes) && Allows(StoredLines(s), limits)
  }

  /** Whether e names a bound the tree crosses. */
  predicate RefusesTree(items: nat, depth: nat, e: ParseError, limits: Limits) {
    match e
    case TooManyItems(limit) => limit == limits.maxItems && Held(items, U32_MAX) > limit
    case TooDeep(limit) => limit == limits.maxComponentDepth && Held(depth, U16_MAX) > limit
    case _ => false
  }

  /** Whether e names a bound the input crosses. */
  predicate RefusesInput(s: Bytes, e: ParseError, limits: Limits) {
    match e
    case InputTooLarge(limit) => limit == limits.maxInputBytes && Held(Charged(StoredLines(s)), U64_MAX) > limit
    case TooManyItems(_) => RefusesTree(ItemCount(Build(StoredLines(s))), Depth(Build(StoredLines(s))), e, limits)
    case TooDeep(_) => RefusesTree(ItemCount(Build(StoredLines(s))), Depth(Build(StoredLines(s))), e, limits)
    case _ => RefusedWith(s, e, limits.grammar, limits.maxValueBytes)
  }

  // -------------------------------------------------------------------------
  // The builder
  // -------------------------------------------------------------------------

  /** Whether the ledger has room for a tree under construction. */
  predicate Room(b: Building, limits: Limits) {
    AllowsTree(Counted(b), Deepest(b), limits)
  }

  predicate Refused(b: Building, e: ParseError, limits: Limits) {
    RefusesTree(Counted(b), Deepest(b), e, limits)
  }

  class TreeBuilder {
    var root: seq<Item>
    var open: seq<OpenComponent>

    ghost function State(): Building
      reads this
    {
      Building(root, open)
    }

    constructor ()
      ensures State() == EMPTY
    {
      root, open := [], [];
    }

    method PushItem(item: Item)
      modifies this
      ensures State() == old(State()).Push(item)
    {
      if |open| > 0 {
        var last := open[|open| - 1];
        open := open[|open| - 1 := last.(items := last.items + [item])];
      } else {
        root := root + [item];
      }
    }

    /** The ledger agrees with the tree so far, which is inside its bounds. */
    ghost predicate Keeps(meter: Meter)
      reads this, meter
    {
      && meter.items == Held(Counted(State()), U32_MAX)
      && (meter.limits.maxComponentDepth < U16_MAX ==> meter.depth == |open|)
      && Room(State(), meter.limits)
    }

    /** An entry more, if the ledger has room for it. */
    method StoreProperty(line: Property, meter: Meter) returns (r: Result<(), ParseError>)
      requires Keeps(meter) && State().Take(line) == State().Push(PropertyItem(line))
      modifies this, meter`items
      ensures r.Ok? <==> Room(old(State()).Take(line), meter.limits)
      ensures r.Ok? ==> State() == old(State()).Take(line) && Keeps(meter)
      ensures r.Err? ==> Refused(old(State()).Take(line), r.error, meter.limits)
    {
      hide Counted, Deepest, Building.Take;
      PushCounts(State(), PropertyItem(line));
      NotDeeper(State());
      r := meter.ChargeItem();
      if r.Ok? { PushItem(PropertyItem(line)); }
    }

    method OpenComponent(line: Property, meter: Meter) returns (r: Result<(), ParseError>)
      requires Keeps(meter) && Classify(line) == BeginKind
      modifies this, meter`items, meter`depth
      ensures r.Ok? <==> Room(old(State()).Take(line), meter.limits)
      ensures r.Ok? ==> State() == old(State()).Take(line) && Keeps(meter)
      ensures r.Err? ==> Refused(old(State()).Take(line), r.error, meter.limits)
    {
      hide Counted, Deepest;
      OpenCounts(State(), BoundaryOf(line));
      NotDeeper(State());
      r := meter.ChargeItem();
      if r.Err? { return; }
      r := meter.Enter();
      if r.Err? { return; }
      open := open + [Nesting.OpenComponent(Boundary(line.name, line.value, line.layout), [])];
    }

    method CloseOpen(end: Option<Boundary>, meter: Meter)
      requires open != []
      modifies this, meter`depth
      ensures State() == old(State()).CloseInnermost(end)
      ensures meter.depth == if old(meter.depth) > 0 then old(meter.depth) - 1 else 0
    {
      meter.Leave();
      var last := open[|open| - 1];
      open := open[..|open| - 1];
      PushItem(ComponentItem(Component(last.begin, last.items, end)));
    }

    /** An END that names what is open closes it; any other stays among the entries. */
    method CloseComponent(line: Property, meter: Meter) returns (r: Result<(), ParseError>)
      requires Keeps(meter) && Classify(line) == EndKind
      modifies this, meter`items, meter`depth
      ensures r.Ok? <==> Room(old(State()).Take(line), meter.limits)
      ensures r.Ok? ==> State() == old(State()).Take(line) && Keeps(meter)
      ensures r.Err? ==> Refused(old(State()).Take(line), r.error, meter.limits)
    {
      hide Counted, Deepest, EqIgnoreCase;
      if |open| > 0 && EqIgnoreCase(open[|open| - 1].begin.name, line.value) {
        CloseCounts(State(), Some(BoundaryOf(line)));
        CloseShrinks(State(), Some(BoundaryOf(line)));
        CloseOpen(Some(Boundary(line.name, line.value, line.layout)), meter);
        r := Ok(());
      } else {
        r := StoreProperty(line, meter);
      }
    }

    /** Dispatch on the kind of line: an entry, a component opened, or one closed. */
    method FinishLine(line: Property, meter: Meter) returns (r: Result<(), ParseError>)
      requires Keeps(meter)
      modifies this, meter`items, meter`depth
      ensures r.Ok? <==> Room(old(State()).Take(line), meter.limits)
      ensures r.Ok? ==> State() == old(State()).Take(line) && Keeps(meter)
      ensures r.Err? ==> Refused(old(State()).Take(line), r.error, meter.limits)
    {
      match Classify(line) {
        case PropertyKind => r := StoreProperty(line, meter);
        case BeginKind => r := OpenComponent(line, meter);
        case EndKind => r := CloseComponent(line, meter);
      }
    }

    /** The finished entries: components that met no END are closed from the inside out. */
    method IntoItems(meter: Meter) returns (items: seq<Item>)
      modifies this, meter`depth
      ensures items == old(State()).CloseAll()
    {
      while open != []
        invariant State().CloseAll() == old(State()).CloseAll()
        decreases |open|
      {
        CloseShrinks(State(), None);
        CloseOpen(None, meter);
      }
      return root;
    }
  }

  lemma {:induction false} TakeAllSnoc(ps: seq<Property>, p: Property)
    ensures EMPTY.TakeAll(ps + [p]) == EMPTY.TakeAll(ps).Take(p)
  {
    TakeAllAppend(EMPTY, ps, [p]);
    TakeAllOne(EMPTY.TakeAll(ps), p);
  }

  /** What the lines not yet read still decide about the whole input. */
  ghost predicate Rest(input: Bytes, taken: seq<Property>, rest: Bytes, limits: Limits) {
    && StoredLines(input) == taken + StoredLines(rest)
    && (Admitted(input, limits.grammar, limits.maxValueBytes) <==> Admitted(rest, limits.grammar, limits.maxValueBytes))
    && (forall e :: RefusedWith(rest, e, limits.grammar, limits.maxValueBytes) ==> RefusedWith(input, e, limits.grammar, limits.maxValueBytes))
  }

  lemma {:induction false} RestStep(input: Bytes, taken: seq<Property>, s: Bytes, limits: Limits)
    requires Rest(input, taken, s, limits) && s != [] && Within(ReadLogical(s, 0), limits.grammar, limits.maxValueBytes)
    ensures Rest(input, taken + [StoredLine(ReadLogical(s, 0))], ReadLogical(s, 0).rest, limits)
  {
    hide ReadLogical, StoredLine, Within, Crosses;
    var l := ReadLogical(s, 0);
    assert taken + ([StoredLine(l)] + StoredLines(l.rest)) == (taken + [StoredLine(l)]) + StoredLines(l.rest);
  }

  lemma {:induction false} RestRefused(input: Bytes, taken: seq<Property>, s: Bytes, e: ParseError, limits: Limits)
    requires Rest(input, taken, s, limits) && s != []
    requires !Within(ReadLogical(s, 0), limits.grammar, limits.maxValueBytes)
    requires Crosses(ReadLogical(s, 0), e, limits.grammar, limits.maxValueBytes)
    ensures !Admitted(input, limits.grammar, limits.maxValueBytes) && RefusesInput(input, e, limits)
  {
    hide ReadLogical, StoredLine, Within;
    assert RefusedWith(s, e, limits.grammar, limits.maxValueBytes);
  }

  lemma {:induction false} RestStarts(input: Bytes, limits: Limits)
    ensures Rest(input, [], input, limits) && EMPTY.TakeAll([]) == EMPTY
  {
  }

  lemma {:induction false} RestEnds(input: Bytes, taken: seq<Property>, limits: Limits)
    requires Rest(input, taken, [], limits)
    ensures Admitted(input, limits.grammar, limits.maxValueBytes) && StoredLines(input) == taken
  {
  }

  /** Charge the octets of a line's parts and of its folds, in that order. */
  method ChargeLine(line: Property, meter: Meter) returns (r: Result<(), ParseError>)
    requires !meter.exhausted && meter.spent <= meter.limits.maxInputBytes
    modifies meter`spent, meter`exhausted
    ensures r.Ok? <==> Held(old(meter.spent) + LineCharge(line), U64_MAX) <= meter.limits.maxInputBytes
    ensures r.Ok? ==> !meter.exhausted && meter.spent == Held(old(meter.spent) + LineCharge(line), U64_MAX)
    ensures r.Err? ==> r.error == InputTooLarge(meter.limits.maxInputBytes)
  {
    hide FoldPoint.Octets;
    ghost var start := meter.spent;
    r := meter.ChargeBytes(|line.name|);
    if r.Err? { return; }
    ghost var done: nat := |line.name|;
    for i := 0 to |line.parameters|
      invariant !meter.exhausted && meter.spent == Held(start + done, U64_MAX) <= meter.limits.maxInputBytes
      invariant done + ParametersCharge(line.parameters[i..]) + |line.value| + OctetCount(line.layout.folds) == LineCharge(line)
    {
      var p := line.parameters[i];
      assert line.parameters[i..][0] == p && line.parameters[i..][1..] == line.parameters[i + 1..];
      r := meter.ChargeBytes(|p.name|);
      if r.Err? { return; }
      r := meter.ChargeBytes(|p.value|);
      if r.Err? { return; }
      done := done + |p.name| + |p.value|;
    }
    r := meter.ChargeBytes(|line.value|);
    if r.Err? { return; }
    done := done + |line.value|;
    var folds := line.layout.folds;
    for i := 0 to |folds|
      invariant !meter.exhausted && meter.spent == Held(start + done, U64_MAX) <= meter.limits.maxInputBytes
      invariant done + OctetCount(folds[i..]) == LineCharge(line)
    {
      assert folds[i..][0] == folds[i] && folds[i..][1..] == folds[i + 1..];
      r := meter.ChargeBytes(|folds[i].Octets()|);
      if r.Err? { return; }
      done := done + |folds[i].Octets()|;
    }
    r := Ok(());
  }

  /** What was charged for some of the lines, and counted for the tree they build, only grows with the others. */
  lemma {:induction false} MoreLines(input: Bytes, taken: seq<Property>, rest: seq<Property>, limits: Limits)
    requires StoredLines(input) == taken + rest
    ensures Charged(taken) <= Charged(StoredLines(input))
    ensures Allows(StoredLines(input), limits) ==> Room(EMPTY.TakeAll(taken), limits)
    ensures forall e :: Refused(EMPTY.TakeAll(taken), e, limits) ==> RefusesInput(input, e, limits)
  {
    hide Charged, Counted, Deepest, ItemCount, Depth, Build, Building.TakeAll, StoredLines;
    ChargedAppend(taken, rest);
    BuildCounts(taken + rest);
    TakeAllAppend(EMPTY, taken, rest);
    TakeAllGrows(EMPTY.TakeAll(taken), rest);
  }

  lemma {:induction false} NothingTaken(limits: Limits)
    ensures Charged([]) == 0 && Counted(EMPTY) == 0 && Deepest(EMPTY) == 0 && EMPTY.open == []
    ensures Room(EMPTY, limits)
  {
  }

  /**
   Read a document: exactly the inputs whose every line is within bounds, and all of whose lines
   together are, are read, each line is stored as the grammar says, and a refusal names a bound
   the input crosses, one of a single line being crossed by the first line that crosses any.
   */
  method ParseDocument(input: Bytes, limits: Limits) returns (r: Result<seq<Item>, ParseError>)
    ensures r.Ok? <==> Accepts(input, limits)
    ensures r.Ok? ==> r.value == Build(StoredLines(input))
    ensures r.Err? ==> RefusesInput(input, r.error, limits)
  {
    hide ReadLogical, StoredLine, Within, Crosses, Building.Take, Building.TakeAll, Building.CloseAll, Admitted, RefusedWith;
    hide StoredLines, Rest, LineCharge, Charged, Counted, Deepest, ItemCount, Depth;
    var meter := new Meter(limits);
    var reader := new ContentLineReader(input, limits.grammar, limits.maxValueBytes);
    var builder := new TreeBuilder();
    ghost var taken: seq<Property> := [];
    RestStarts(input, limits);
    NothingTaken(limits);
    assert input[0..] == input;
    while true
      invariant reader.cursor <= |input| && !reader.done
      invariant reader.input == input && reader.limits == limits.grammar && reader.maxValueBytes == limits.maxValueBytes
      invariant meter.limits == limits && !meter.exhausted && meter.spent == Held(Charged(taken), U64_MAX) <= limits.maxInputBytes
      invariant builder.State() == EMPTY.TakeAll(taken) && builder.Keeps(meter)
      invariant Rest(input, taken, input[reader.cursor..], limits)
      decreases |input| - reader.cursor
    {
      ghost var s := input[reader.cursor..];
      var next := reader.NextLine();
      if next.None? {
        assert s == [];
        RestEnds(input, taken, limits);
        BuildCounts(taken);
        var items := builder.IntoItems(meter);
        return Ok(items);
      }
      if next.value.Err? {
        RestRefused(input, taken, s, next.value.error, limits);
        return Err(next.value.error);
      }
      var line := next.value.value;
      RestStep(input, taken, s, limits);
      TakeAllSnoc(taken, line);
      ChargedSnoc(taken, line);
      taken := taken + [line];
      RestLines(input, taken, input[reader.cursor..], limits);
      MoreLines(input, taken, StoredLines(input[reader.cursor..]), limits);
      var charged := ChargeLine(line, meter);
      if charged.Err? { return Err(charged.error); }
      var finished := builder.FinishLine(line, meter);
      if finished.Err? { return Err(finished.error); }
    }
  }

  lemma {:induction false} RestLines(input: Bytes, taken: seq<Property>, rest: Bytes, limits: Limits)
    requires Rest(input, taken, rest, limits)
    ensures StoredLines(input) == taken + StoredLines(rest)
  {
  }

  // -------------------------------------------------------------------------
  // Every octet of the input is charged, or is a delimiter or a terminator
  // -------------------------------------------------------------------------

  /** One for the semicolon of each parameter, and one for the equals sign of each that has a value. */
  function Delimiters(ps: seq<Parameter>): nat {
    if ps == [] then 0 else (if ps[0].hasValue then 2 else 1) + Delimiters(ps[1..])
  }

  function EndingLength(ending: Option<LineEnding>): nat {
    match ending
    case None => 0
    case Some(CrLf) => 2
    case Some(_) => 1
  }

  /** The octets of a line that are not charged for. */
  function FreeOctets(p: Property): nat {
    Delimiters(p.parameters) + (if p.layout.hasSeparator then 1 else 0) + EndingLength(p.layout.ending)
  }

  function AllFree(ps: seq<Property>): nat {
    if ps == [] then 0 else FreeOctets(ps[0]) + AllFree(ps[1..])
  }

  lemma {:induction false} LogicalLength(s: Bytes, col: nat)
    ensures var l := ReadLogical(s, col);
      |s| == |l.content| + OctetCount(l.folds) + EndingLength(l.ending) + |l.rest|
    decreases |s|
  {
    hide ReadLogical;
    if s != [] && TerminatorAt(s).None? {
      ReadsOctet(s, col);
      LogicalLength(s[1..], col + 1);
    } else if s != [] && FoldsAt(s, TerminatorAt(s).value) {
      var e := TerminatorAt(s).value;
      var w := |e.Octets()|;
      ReadsFold(s, col, e);
      LogicalLength(s[w + 1..], col);
      FoldLength(FoldPoint(col, s[w] == HTAB, e), ReadLogical(s[w + 1..], col).folds);
    } else {
      ReadsEnd(s, col);
    }
  }

  lemma {:induction false} FoldLength(f: FoldPoint, folds: seq<FoldPoint>)
    ensures OctetCount([f] + folds) == |f.newline.Octets()| + 1 + OctetCount(folds)
  {
    assert ([f] + folds)[1..] == folds;
  }

  lemma {:induction false} ParameterListLength(ps: seq<Parameter>)
    requires forall i | 0 <= i < |ps| :: ParameterReads(ps[i])
    ensures |Concat(ParameterListSpans(ps))| == ParametersCharge(ps) + Delimiters(ps)
  {
    if ps != [] {
      ParameterListLength(ps[1..]);
      ParameterOctetsAreSpans(ps[0]);
      ConcatAppend(ParameterSpans(ps[0]), ParameterListSpans(ps[1..]));
      assert ParameterReads(ps[0]);
    }
  }

  lemma {:induction false} AssembledLength(h: Header)
    requires HeaderReads(h)
    ensures |Assemble(h)| == |h.name| + ParametersCharge(h.parameters) + |h.value| + Delimiters(h.parameters) + if h.separated then 1 else 0
  {
    hide ParameterReads, OpensQuote, ParametersCharge;
    ParameterListLength(h.parameters);
    assert Concat([[COLON]]) == [COLON];
  }

  lemma {:induction false} SaturatedCount(folds: seq<FoldPoint>)
    ensures OctetCount(SaturateFolds(folds)) == OctetCount(folds)
  {
    if folds != [] {
      SaturatedCount(folds[1..]);
      assert SaturateFolds(folds)[1..] == SaturateFolds(folds[1..]);
    }
  }

  lemma {:induction false} StoredLineLength(l: Logical)
    ensures LineCharge(StoredLine(l)) + FreeOctets(StoredLine(l)) == |l.content| + OctetCount(l.folds) + EndingLength(l.ending)
  {
    hide Split, Assemble, HeaderReads, ParametersCharge, Delimiters, SaturateFolds;
    SplitReads(l.content);
    AssembleSplit(l.content);
    AssembledLength(Split(l.content));
    SaturatedCount(l.folds);
  }

  /** What is charged for an input is its length less its delimiters and its terminators; its folds are charged. */
  lemma {:induction false} InputIsCharged(s: Bytes)
    ensures |s| == Charged(StoredLines(s)) + AllFree(StoredLines(s))
    decreases |s|
  {
    hide ReadLogical, StoredLine, LineCharge, FreeOctets;
    if s != [] {
      var l := ReadLogical(s, 0);
      LogicalLength(s, 0);
      StoredLineLength(l);
      InputIsCharged(l.rest);
      assert StoredLines(s)[1..] == StoredLines(l.rest);
    }
  }

  /** A count is within a bound, or the bound is the most its counter can say. */
  predicate Under(count: int, bound: nat, most: nat) {
    count <= bound || bound == most
  }

  /** The bounds on the whole input, in the counts themselves; an input no longer than its bound is never too long. */
  lemma {:induction false} AcceptsIff(s: Bytes, limits: Limits)
    ensures Accepts(s, limits) <==>
      && Admitted(s, limits.grammar, limits.maxValueBytes)
      && Under(|s| - AllFree(StoredLines(s)), limits.maxInputBytes, 0xFFFF_FFFF_FFFF_FFFF)
      && Under(ItemCount(Build(StoredLines(s))), limits.maxItems, 0xFFFF_FFFF)
      && Under(Depth(Build(StoredLines(s))), limits.maxComponentDepth, 0xFFFF)
  {
    hide Admitted, StoredLines, Charged, AllFree, ItemCount, Depth, Build;
    InputIsCharged(s);
  }

  /** What the two named policies let in: 16 MiB or 512, 100,000 items or 5,000,000, 32 levels or 64. */
  lemma {:induction false} NamedPoliciesBound(s: Bytes)
    ensures Accepts(s, DEFAULT) <==>
      && Admitted(s, DEFAULT.grammar, 1_048_576)
      && |s| - AllFree(StoredLines(s)) <= 16 * 1024 * 1024
      && ItemCount(Build(StoredLines(s))) <= 100_000 && Depth(Build(StoredLines(s))) <= 32
    ensures Accepts(s, GENEROUS) <==>
      && Admitted(s, GENEROUS.grammar, 64 * 1024 * 1024)
      && |s| - AllFree(StoredLines(s)) <= 512 * 1024 * 1024
      && ItemCount(Build(StoredLines(s))) <= 5_000_000 && Depth(Build(StoredLines(s))) <= 64
  {
    hide Admitted, StoredLines, AllFree, ItemCount, Depth, Build, Accepts;
    AcceptsIff(s, DEFAULT);
    AcceptsIff(s, GENEROUS);
  }
}
