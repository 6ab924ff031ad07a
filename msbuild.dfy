/** The part of an MSBuild project tree that the package updater reads and
    edits: the top-level item groups, their items and the items' metadata.
    The editing operations stand for MSBuild's `ProjectRootElement` API. */
module MsBuild {

  /** A metadata child of an item, e.g. `Version="1.0"`. */
  datatype Metadata = Metadata(name: string, value: string)

  /** An item element: its type (`ItemType`), its `Include` value (the item
      spec) and its metadata
      children in document order. */
  datatype Item = Item(itemType: string, itemSpec: string, metadata: seq<Metadata>)

  /** An `ItemGroup` element and its item children in document order. */
  datatype ItemGroup = ItemGroup(items: seq<Item>)

  /** `ProjectRootElement.Items`: every item of every group, in document order. */
  function Flatten(groups: seq<ItemGroup>): seq<Item> {
    if groups == [] then [] else Flatten(groups[..|groups| - 1]) + groups[|groups| - 1].items
  }

  lemma {:induction false} FlattenConcat(a: seq<ItemGroup>, b: seq<ItemGroup>)
    ensures Flatten(a + b) == Flatten(a) + Flatten(b)
    decreases |b|
  {
    if b == [] {
      assert a + b == a;
    } else {
      var b', x := b[..|b| - 1], b[|b| - 1];
      assert (a + b)[..|a + b| - 1] == a + b';
      assert (a + b)[|a + b| - 1] == x;
      FlattenConcat(a, b');
      calc {
        Flatten(a + b);
        Flatten(a + b') + x.items;
        Flatten(a) + Flatten(b') + x.items;
        Flatten(a) + (Flatten(b') + x.items);
      }
    }
  }

  /** An element of `Flatten(groups)` sits in one of the groups. */
  lemma {:induction false} FlattenMember(groups: seq<ItemGroup>, x: Item)
    requires x in Flatten(groups)
    ensures exists j :: 0 <= j < |groups| && x in groups[j].items
    decreases |groups|
  {
    var last := |groups| - 1;
    if x !in groups[last].items {
      FlattenMember(groups[..last], x);
      var j :| 0 <= j < last && x in groups[..last][j].items;
      assert x in groups[j].items;
    }
  }

  /** The groups with `items` appended to the children of group `target`. */
  function AppendToGroup(groups: seq<ItemGroup>, target: nat, items: seq<Item>): (r: seq<ItemGroup>)
    requires target < |groups|
    ensures |r| == |groups|
  {
    groups[target := ItemGroup(groups[target].items + items)]
  }

  lemma FlattenSplitAt(groups: seq<ItemGroup>, target: nat)
    requires target < |groups|
    ensures Flatten(groups) == Flatten(groups[..target + 1]) + Flatten(groups[target + 1..])
  {
    assert groups == groups[..target + 1] + groups[target + 1..];
    FlattenConcat(groups[..target + 1], groups[target + 1..]);
  }

  /** Appending to one group inserts the new items into the flat item list
      right after that group's old children. */
  lemma FlattenAppendToGroup(groups: seq<ItemGroup>, target: nat, items: seq<Item>)
    requires target < |groups|
    ensures Flatten(AppendToGroup(groups, target, items))
            == Flatten(groups[..target + 1]) + items + Flatten(groups[target + 1..])
  {
    var before, g, after := groups[..target], groups[target], groups[target + 1..];
    var g' := ItemGroup(g.items + items);
    assert groups[..target + 1] == before + [g];
    assert AppendToGroup(groups, target, items) == before + [g'] + after;
    FlattenAround(before, g', after);
    FlattenSnoc(before, g);
  }

  lemma FlattenSnoc(groups: seq<ItemGroup>, g: ItemGroup)
    ensures Flatten(groups + [g]) == Flatten(groups) + g.items
  {
    assert (groups + [g])[..|groups|] == groups;
  }

  lemma FlattenAround(before: seq<ItemGroup>, g: ItemGroup, after: seq<ItemGroup>)
    ensures Flatten(before + [g] + after) == Flatten(before) + g.items + Flatten(after)
  {
    FlattenSnoc(before, g);
    FlattenConcat(before + [g], after);
  }

  lemma AppendNothing(groups: seq<ItemGroup>, target: nat)
    requires target < |groups|
    ensures AppendToGroup(groups, target, []) == groups
  {
    assert groups[target].items + [] == groups[target].items;
  }

  lemma AppendToNewGroup(groups: seq<ItemGroup>, items: seq<Item>)
    ensures AppendToGroup(groups + [ItemGroup([])], |groups|, items) == groups + [ItemGroup(items)]
  {
    assert [] + items == items;
  }

  /** An MSBuild project opened for editing. Elements are values inside the
      root's sequence, so every edit goes through the root. */
  class ProjectRootElement {
    var itemGroups: seq<ItemGroup>

    /** `ProjectRootElement.Open`: the tree as the project file holds it. */
    constructor Open(contents: seq<ItemGroup>)
      ensures itemGroups == contents
    {
      itemGroups := contents;
    }

    /** `itemGroup.RemoveChild(item)` for item `i` of group `g`. */
    method RemoveItem(g: nat, i: nat)
      requires g < |itemGroups| && i < |itemGroups[g].items|
      modifies this
      ensures itemGroups == old(itemGroups)[g := ItemGroup(old(itemGroups)[g].items[..i] + old(itemGroups)[g].items[i + 1..])]
    {
      var items := itemGroups[g].items;
      itemGroups := itemGroups[g := ItemGroup(items[..i] + items[i + 1..])];
    }

    /** `project.RemoveChild(itemGroup)` for group `g`. */
    method RemoveItemGroup(g: nat)
      requires g < |itemGroups|
      modifies this
      ensures itemGroups == old(itemGroups)[..g] + old(itemGroups)[g + 1..]
    {
      itemGroups := itemGroups[..g] + itemGroups[g + 1..];
    }

    /** `project.AppendChild(project.CreateItemGroupElement())`. */
    method AppendItemGroup()
      modifies this
      ensures itemGroups == old(itemGroups) + [ItemGroup([])]
    {
      itemGroups := itemGroups + [ItemGroup([])];
    }

    /** `itemGroup.AppendChild(item)` for group `g`, with the item's metadata
        already added. */
    method AppendItem(g: nat, item: Item)
      requires g < |itemGroups|
      modifies this
      ensures itemGroups == AppendToGroup(old(itemGroups), g, [item])
    {
      itemGroups := itemGroups[g := ItemGroup(itemGroups[g].items + [item])];
    }
  }
}
