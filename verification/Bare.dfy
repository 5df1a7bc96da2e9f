/**
 A tree without its fold layout: names, parameters, values and nesting. The builder looks at
 nothing else, so two lists of lines that agree on those build trees that do.
 */
module Bare {
  import opened Octets
  import opened Syntax
  import opened Nesting

  function BareLayout(layout: LineLayout): LineLayout {
    LineLayout.Preserved([], None, layout.hasSeparator)
  }

  function BareProperty(p: Property): Property {
    p.(layout := BareLayout(p.layout))
  }

  function BareBoundary(b: Boundary): Boundary {
    b.(layout := BareLayout(b.layout))
  }

  function BareEnd(end: Option<Boundary>): Option<Boundary> {
    if end.Some? then Some(BareBoundary(end.value)) else None
  }

  function BareItem(item: Item): Item
    decreases item, 1
  {
    match item
    case PropertyItem(p) => PropertyItem(BareProperty(p))
    case ComponentItem(c) => ComponentItem(Component(BareBoundary(c.begin), BareItems(c.items), BareEnd(c.end)))
  }

  /** The tree with every recorded fold and terminator forgotten. */
  function BareItems(items: seq<Item>): seq<Item>
    decreases items, 0
  {
    if items == [] then [] else [BareItem(items[0])] + BareItems(items[1..])
  }

  function BareLines(ps: seq<Property>): (r: seq<Property>)
    ensures |r| == |ps|
  {
    if ps == [] then [] else [BareProperty(ps[0])] + BareLines(ps[1..])
  }

  lemma {:induction false} BareItemsSnoc(items: seq<Item>, item: Item)
    ensures BareItems(items + [item]) == BareItems(items) + [BareItem(item)]
    decreases |items|
  {
    hide BareItem;
    if items == [] {
      assert [item][1..] == [];
    } else {
      assert (items + [item])[1..] == items[1..] + [item];
      BareItemsSnoc(items[1..], item);
    }
  }

  function BareOpen(open: seq<OpenComponent>): (r: seq<OpenComponent>)
    ensures |r| == |open|
  {
    seq(|open|, i requires 0 <= i < |open| => OpenComponent(BareBoundary(open[i].begin), BareItems(open[i].items)))
  }

  function BareBuilding(b: Building): Building {
    Building(BareItems(b.root), BareOpen(b.open))
  }

  lemma {:induction false} BarePush(b: Building, item: Item)
    ensures BareBuilding(b.Push(item)) == BareBuilding(b).Push(BareItem(item))
  {
    hide BareItems, BareItem;
    if b.open == [] {
      BareItemsSnoc(b.root, item);
    } else {
      BareItemsSnoc(b.Innermost().items, item);
    }
  }

  lemma {:induction false} BareOpens(b: Building, begin: Boundary)
    ensures BareBuilding(b.Open(begin)) == BareBuilding(b).Open(BareBoundary(begin))
  {
    assert BareItems([]) == [];
  }

  lemma {:induction false} BareClose(b: Building, end: Option<Boundary>)
    requires b.open != []
    ensures BareBuilding(b.CloseInnermost(end)) == BareBuilding(b).CloseInnermost(BareEnd(end))
  {
    hide BareItems, Building.Push;
    var rest, last := Building(b.root, b.open[..|b.open| - 1]), b.Innermost();
    var c := Component(last.begin, last.items, end);
    BarePush(rest, ComponentItem(c));
    assert BareOpen(b.open)[..|b.open| - 1] == BareOpen(rest.open);
    assert BareItem(ComponentItem(c)) == ComponentItem(Component(BareBoundary(last.begin), BareItems(last.items), BareEnd(end)));
  }

  lemma {:induction false} BareTake(b: Building, p: Property)
    ensures BareBuilding(b.Take(p)) == BareBuilding(b).Take(BareProperty(p))
  {
    hide BareItems, Building.Push, Building.CloseInnermost, Building.Open, EqIgnoreCase;
    assert Classify(BareProperty(p)) == Classify(p);
    assert BoundaryOf(BareProperty(p)) == BareBoundary(BoundaryOf(p));
    BarePush(b, PropertyItem(p));
    BareOpens(b, BoundaryOf(p));
    if b.open != [] { BareClose(b, Some(BoundaryOf(p))); }
  }

  lemma {:induction false} BareTakeAll(b: Building, ps: seq<Property>)
    ensures BareBuilding(b.TakeAll(ps)) == BareBuilding(b).TakeAll(BareLines(ps))
    decreases |ps|
  {
    hide Building.Take, BareBuilding;
    if ps != [] {
      BareTake(b, ps[0]);
      BareTakeAll(b.Take(ps[0]), ps[1..]);
    }
  }

  lemma {:induction false} BareCloseAll(b: Building)
    ensures BareItems(b.CloseAll()) == BareBuilding(b).CloseAll()
    decreases |b.open|
  {
    hide Building.CloseInnermost, BareItems;
    if b.open != [] {
      CloseShrinks(b, None);
      BareClose(b, None);
      BareCloseAll(b.CloseInnermost(None));
    }
  }

  /** Building commutes with forgetting how the lines were folded. */
  lemma {:induction false} BareBuild(ps: seq<Property>)
    ensures BareItems(Build(ps)) == Build(BareLines(ps))
  {
    hide Building.TakeAll, Building.CloseAll;
    BareTakeAll(EMPTY, ps);
    BareCloseAll(EMPTY.TakeAll(ps));
    assert BareOpen([]) == [];
  }
}
