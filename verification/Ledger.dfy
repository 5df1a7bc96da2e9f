/**
 What a parse is charged for: the octets of its lines, the entries of its tree and how deep they
 nest. Each is a function of what was read, and grows with it.
 */
module Ledger {
  import opened Octets
  import opened Budget
  import opened Syntax
  import opened Nesting

  // -------------------------------------------------------------------------
  // Octets
  // -------------------------------------------------------------------------

  function OctetCount(folds: seq<FoldPoint>): nat {
    if folds == [] then 0 else |folds[0].Octets()| + OctetCount(folds[1..])
  }

  function ParametersCharge(ps: seq<Parameter>): nat {
    if ps == [] then 0 else |ps[0].name| + |ps[0].value| + ParametersCharge(ps[1..])
  }

  /** The octets of a line's parts; its delimiters and its terminator are free. */
  function PartsCharge(p: Property): nat {
    |p.name| + ParametersCharge(p.parameters) + |p.value|
  }

  function LineCharge(p: Property): nat {
    PartsCharge(p) + OctetCount(p.layout.folds)
  }

  function Charged(ps: seq<Property>): nat {
    if ps == [] then 0 else LineCharge(ps[0]) + Charged(ps[1..])
  }

  lemma {:induction false} ChargedAppend(a: seq<Property>, b: seq<Property>)
    ensures Charged(a + b) == Charged(a) + Charged(b)
  {
    hide LineCharge;
    if a == [] {
      assert a + b == b;
    } else {
      assert (a + b)[1..] == a[1..] + b;
      ChargedAppend(a[1..], b);
    }
  }

  lemma {:induction false} ChargedSnoc(ps: seq<Property>, p: Property)
    ensures Charged(ps + [p]) == Charged(ps) + LineCharge(p)
  {
    hide LineCharge;
    ChargedAppend(ps, [p]);
    assert [p][1..] == [];
  }

  // -------------------------------------------------------------------------
  // Entries and depth
  // -------------------------------------------------------------------------

  /** Every property and every component counts as one. */
  function ItemCount(items: seq<Item>): nat
    decreases items, 0
  {
    if items == [] then 0 else CountOf(items[0]) + ItemCount(items[1..])
  }

  function CountOf(item: Item): nat
    decreases item, 1
  {
    match item
    case PropertyItem(_) => 1
    case ComponentItem(c) => 1 + ItemCount(c.items)
  }

  /** How many components stand around the innermost one. */
  function Depth(items: seq<Item>): nat
    decreases items, 0
  {
    if items == [] then 0 else Max(DepthOf(items[0]), Depth(items[1..]))
  }

  function DepthOf(item: Item): nat
    decreases item, 1
  {
    match item
    case PropertyItem(_) => 0
    case ComponentItem(c) => 1 + Depth(c.items)
  }

  lemma {:induction false} ItemCountAppend(a: seq<Item>, b: seq<Item>)
    ensures ItemCount(a + b) == ItemCount(a) + ItemCount(b)
    ensures Depth(a + b) == Max(Depth(a), Depth(b))
    decreases |a|
  {
    hide CountOf, DepthOf;
    if a == [] {
      assert a + b == b;
    } else {
      assert (a + b)[1..] == a[1..] + b;
      ItemCountAppend(a[1..], b);
    }
  }

  lemma {:induction false} ItemCountOne(item: Item)
    ensures ItemCount([item]) == CountOf(item) && Depth([item]) == DepthOf(item)
  {
    assert [item][1..] == [];
  }

  // The same two of a tree under construction.

  function OpenCount(open: seq<OpenComponent>): nat {
    if open == [] then 0 else OpenCount(open[..|open| - 1]) + 1 + ItemCount(open[|open| - 1].items)
  }

  function OpenDepth(open: seq<OpenComponent>): nat {
    if open == [] then 0 else Max(OpenDepth(open[..|open| - 1]), |open| + Depth(open[|open| - 1].items))
  }

  function Counted(b: Building): nat {
    ItemCount(b.root) + OpenCount(b.open)
  }

  function Deepest(b: Building): nat {
    Max(Depth(b.root), OpenDepth(b.open))
  }

  lemma {:induction false} OpenSnoc(open: seq<OpenComponent>, last: OpenComponent)
    ensures OpenCount(open + [last]) == OpenCount(open) + 1 + ItemCount(last.items)
    ensures OpenDepth(open + [last]) == Max(OpenDepth(open), |open| + 1 + Depth(last.items))
  {
    hide ItemCount, Depth;
    assert (open + [last])[..|open|] == open;
  }

  /** Everything that is open is at most as deep as the deepest. */
  lemma {:induction false} OpenIsDeep(open: seq<OpenComponent>)
    ensures |open| <= OpenDepth(open)
  {
    hide Depth;
  }

  lemma {:induction false} PushCounts(b: Building, item: Item)
    ensures Counted(b.Push(item)) == Counted(b) + CountOf(item)
    ensures Deepest(b.Push(item)) == Max(Deepest(b), |b.open| + DepthOf(item))
  {
    hide ItemCount, Depth, CountOf, DepthOf, OpenCount, OpenDepth;
    ItemCountOne(item);
    if b.open == [] {
      ItemCountAppend(b.root, [item]);
    } else {
      var rest, last := b.open[..|b.open| - 1], b.Innermost();
      assert b.open == rest + [last];
      OpenSnoc(rest, last);
      OpenSnoc(rest, last.(items := last.items + [item]));
      ItemCountAppend(last.items, [item]);
    }
  }

  lemma {:induction false} OpenCounts(b: Building, begin: Boundary)
    ensures Counted(b.Open(begin)) == Counted(b) + 1
    ensures Deepest(b.Open(begin)) == Max(Deepest(b), |b.open| + 1)
  {
    hide OpenCount, OpenDepth;
    OpenSnoc(b.open, OpenComponent(begin, []));
  }

  lemma {:induction false} CloseCounts(b: Building, end: Option<Boundary>)
    requires b.open != []
    ensures Counted(b.CloseInnermost(end)) == Counted(b) && Deepest(b.CloseInnermost(end)) == Deepest(b)
  {
    hide ItemCount, Depth, OpenCount, OpenDepth, Building.Push;
    var rest, last := b.open[..|b.open| - 1], b.Innermost();
    assert b.open == rest + [last];
    OpenSnoc(rest, last);
    PushCounts(Building(b.root, rest), ComponentItem(Component(last.begin, last.items, end)));
  }

  /** Whether the line closes a component rather than becoming an entry. */
  predicate ClosesOne(b: Building, p: Property) {
    Classify(p) == EndKind && b.open != [] && EqIgnoreCase(b.Innermost().begin.name, p.value)
  }

  lemma {:induction false} TakeCounts(b: Building, p: Property)
    ensures Counted(b.Take(p)) == Counted(b) + if ClosesOne(b, p) then 0 else 1
    ensures Deepest(b.Take(p)) == if Classify(p) == BeginKind then Max(Deepest(b), |b.open| + 1) else Deepest(b)
  {
    hide Counted, Deepest, OpenDepth, EqIgnoreCase, Building.Push, Building.Open, Building.CloseInnermost;
    PushCounts(b, PropertyItem(p));
    OpenCounts(b, BoundaryOf(p));
    if b.open != [] { CloseCounts(b, Some(BoundaryOf(p))); }
    NotDeeper(b);
  }

  lemma {:induction false} NotDeeper(b: Building)
    ensures Max(Deepest(b), |b.open|) == Deepest(b)
  {
    hide OpenDepth, Depth;
    OpenIsDeep(b.open);
  }

  lemma {:induction false} TakeAllGrows(b: Building, ps: seq<Property>)
    ensures Counted(b) <= Counted(b.TakeAll(ps)) && Deepest(b) <= Deepest(b.TakeAll(ps))
    decreases |ps|
  {
    hide Counted, Deepest, Building.Take, ClosesOne, Classify;
    if ps != [] {
      TakeCounts(b, ps[0]);
      TakeAllGrows(b.Take(ps[0]), ps[1..]);
    }
  }

  lemma {:induction false} CloseAllCounts(b: Building)
    ensures ItemCount(b.CloseAll()) == Counted(b) && Depth(b.CloseAll()) == Deepest(b)
    decreases |b.open|
  {
    hide ItemCount, Depth, Building.CloseInnermost;
    if b.open == [] {
      assert OpenCount([]) == 0 && OpenDepth([]) == 0;
    } else {
      hide Counted, Deepest;
      CloseShrinks(b, None);
      CloseCounts(b, None);
      CloseAllCounts(b.CloseInnermost(None));
    }
  }

  /** The entries of the finished tree were counted, and its depth reached, while it was built. */
  lemma {:induction false} BuildCounts(ps: seq<Property>)
    ensures ItemCount(Build(ps)) == Counted(EMPTY.TakeAll(ps)) && Depth(Build(ps)) == Deepest(EMPTY.TakeAll(ps))
  {
    hide Counted, Deepest, ItemCount, Depth, Building.TakeAll, Building.CloseAll;
    CloseAllCounts(EMPTY.TakeAll(ps));
  }

  // -------------------------------------------------------------------------
  // What the ledger allows
  // -------------------------------------------------------------------------

  predicate AllowsOctets(charge: nat, limits: Limits) {
    Held(charge, U64_MAX) <= limits.maxInputBytes
  }

  predicate AllowsTree(items: nat, depth: nat, limits: Limits) {
    Held(items, U32_MAX) <= limits.maxItems && Held(depth, U16_MAX) <= limits.maxComponentDepth
  }

  /** Whether lines, and the tree they build, stay inside the bounds on the whole input. */
  predicate Allows(ps: seq<Property>, limits: Limits) {
    AllowsOctets(Charged(ps), limits) && AllowsTree(ItemCount(Build(ps)), Depth(Build(ps)), limits)
  }

  /** How many components of a tree have an END line. */
  function Ended(items: seq<Item>): nat
    decreases items, 0
  {
    if items == [] then 0 else EndedIn(items[0]) + Ended(items[1..])
  }

  function EndedIn(item: Item): nat
    decreases item, 1
  {
    match item
    case PropertyItem(_) => 0
    case ComponentItem(c) => (if c.end.Some? then 1 else 0) + Ended(c.items)
  }

  /** Every line of a tree is an item but the ENDs that closed its components. */
  lemma {:induction false} ItemsAndEnds(items: seq<Item>)
    ensures ItemCount(items) + Ended(items) == |LinesOf(items)|
    decreases items, 0
  {
    if items != [] {
      ItemAndEnds(items[0]);
      ItemsAndEnds(items[1..]);
    }
  }

  lemma {:induction false} ItemAndEnds(item: Item)
    ensures CountOf(item) + EndedIn(item) == |ItemLines(item)|
    decreases item, 1
  {
    if item.ComponentItem? { ItemsAndEnds(item.component.items); }
  }
}
