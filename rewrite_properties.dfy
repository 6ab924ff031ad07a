/** Properties of the package rewrite: what the removal step keeps, how
    item groups are dropped, what `Distinct` keeps, where the new references
    go, and when the analyzer package is added. */
module RewriteProperties {
  import opened Runtime
  import opened Text
  import opened MsBuild
  import opened PackageMaps
  import opened PackageRewrite

  /** An item is outdated exactly when it is a package reference (type
      compared ignoring case) that some loaded map contains. */
  lemma OutdatedIff(contains: ContainsReference, maps: seq<PackageMap>, x: Item)
    ensures Outdated(contains, maps, x)
            <==> IsPackageReference(x) && AnyMapContains(contains, maps, x.itemSpec, VersionOf(x.metadata))
  {
    FirstMatchIff(contains, maps, x.itemSpec, VersionOf(x.metadata));
  }

  lemma {:induction false} KeepItemsConcat(contains: ContainsReference, maps: seq<PackageMap>, a: seq<Item>, b: seq<Item>)
    ensures KeepItems(contains, maps, a + b) == KeepItems(contains, maps, a) + KeepItems(contains, maps, b)
    decreases |b|
  {
    if b == [] {
      assert a + b == a;
    } else {
      var b' := b[..|b| - 1];
      assert (a + b)[..|a + b| - 1] == a + b';
      assert (a + b)[|a + b| - 1] == b[|b| - 1];
      KeepItemsConcat(contains, maps, a, b');
    }
  }

  /** The removal keeps exactly the items that are not outdated. */
  lemma {:induction false} KeptIff(contains: ContainsReference, maps: seq<PackageMap>, items: seq<Item>, x: Item)
    ensures x in KeepItems(contains, maps, items) <==> x in items && !Outdated(contains, maps, x)
    decreases |items|
  {
    if items != [] {
      var init := items[..|items| - 1];
      assert items == init + [items[|items| - 1]];
      KeptIff(contains, maps, init, x);
    }
  }

  /** With nothing outdated, the removal keeps every item. */
  lemma {:induction false} KeepItemsAllCurrent(contains: ContainsReference, maps: seq<PackageMap>, items: seq<Item>)
    requires forall x :: x in items ==> !Outdated(contains, maps, x)
    ensures KeepItems(contains, maps, items) == items
    ensures Replacements(contains, maps, items) == []
    decreases |items|
  {
    if items != [] {
      var init := items[..|items| - 1];
      assert items == init + [items[|items| - 1]];
      KeepItemsAllCurrent(contains, maps, init);
    }
  }

  lemma {:induction false} ReplacementsConcat(contains: ContainsReference, maps: seq<PackageMap>, a: seq<Item>, b: seq<Item>)
    ensures Replacements(contains, maps, a + b) == Replacements(contains, maps, a) + Replacements(contains, maps, b)
    decreases |b|
  {
    if b == [] {
      assert a + b == a;
    } else {
      var b', x := b[..|b| - 1], b[|b| - 1];
      assert a + b == (a + b') + [x];
      assert b == b' + [x];
      ReplacementsSnoc(contains, maps, a + b', x);
      ReplacementsSnoc(contains, maps, b', x);
      ReplacementsConcat(contains, maps, a, b');
    }
  }

  lemma ReplacementsSnoc(contains: ContainsReference, maps: seq<PackageMap>, items: seq<Item>, x: Item)
    ensures Replacements(contains, maps, items + [x])
            == Replacements(contains, maps, items)
               + match MapFor(contains, maps, x) case Some(m) => m.netCorePackages case None => []
  {
    assert (items + [x])[..|items|] == items;
  }

  /** Every replacement comes from the `NetCorePackages` of a loaded map. */
  lemma {:induction false} ReplacementsFromMaps(contains: ContainsReference, maps: seq<PackageMap>, items: seq<Item>, r: NuGetReference)
    requires r in Replacements(contains, maps, items)
    ensures IsReplacement(maps, r)
    decreases |items|
  {
    var init := items[..|items| - 1];
    var m := MapFor(contains, maps, items[|items| - 1]);
    if m.Some? && r in m.value.netCorePackages {
      var x := items[|items| - 1];
      var i := FirstMatchIsFirst(contains, maps, x.itemSpec, VersionOf(x.metadata));
      assert maps[i] in maps;
    } else {
      ReplacementsFromMaps(contains, maps, init, r);
    }
  }

  lemma {:induction false} PruneConcat(contains: ContainsReference, maps: seq<PackageMap>, a: seq<ItemGroup>, b: seq<ItemGroup>)
    ensures Prune(contains, maps, a + b) == Prune(contains, maps, a) + Prune(contains, maps, b)
    decreases |b|
  {
    if b == [] {
      assert a + b == a;
    } else {
      var b' := b[..|b| - 1];
      assert (a + b)[..|a + b| - 1] == a + b';
      assert (a + b)[|a + b| - 1] == b[|b| - 1];
      PruneConcat(contains, maps, a, b');
    }
  }

  /** Each group is pruned on its own: it disappears exactly when it had
      children and lost all of them; otherwise it stays, in place, holding
      exactly its children that are not outdated. */
  lemma PruneAround(contains: ContainsReference, maps: seq<PackageMap>, before: seq<ItemGroup>, g: ItemGroup, after: seq<ItemGroup>)
    ensures Prune(contains, maps, before + [g] + after)
            == Prune(contains, maps, before)
               + (if g.items != [] && KeepItems(contains, maps, g.items) == [] then [] else [ItemGroup(KeepItems(contains, maps, g.items))])
               + Prune(contains, maps, after)
  {
    PruneConcat(contains, maps, before + [g], after);
    assert (before + [g])[..|before|] == before;
  }

  /** The removal step, seen on the flat item list: exactly the outdated items
      are gone and the others keep their order. */
  lemma {:induction false} PruneFlatten(contains: ContainsReference, maps: seq<PackageMap>, groups: seq<ItemGroup>)
    ensures Flatten(Prune(contains, maps, groups)) == KeepItems(contains, maps, Flatten(groups))
    decreases |groups|
  {
    if groups != [] {
      var init, g := groups[..|groups| - 1], groups[|groups| - 1];
      PruneFlatten(contains, maps, init);
      FlattenConcat(Prune(contains, maps, init), PruneGroup(contains, maps, g));
      KeepItemsConcat(contains, maps, Flatten(init), g.items);
      assert PruneGroup(contains, maps, g) == [] || PruneGroup(contains, maps, g) == [ItemGroup(KeepItems(contains, maps, g.items))];
      if PruneGroup(contains, maps, g) != [] {
        FlattenSnoc([], ItemGroup(KeepItems(contains, maps, g.items)));
      }
    }
  }

  lemma PruneGroupAllCurrent(contains: ContainsReference, maps: seq<PackageMap>, g: ItemGroup)
    requires forall x :: x in g.items ==> !Outdated(contains, maps, x)
    ensures PruneGroup(contains, maps, g) == [g]
  {
    KeepItemsAllCurrent(contains, maps, g.items);
  }

  /** With nothing outdated the removal step changes nothing. */
  lemma {:induction false} PruneAllCurrent(contains: ContainsReference, maps: seq<PackageMap>, groups: seq<ItemGroup>)
    requires forall x :: x in Flatten(groups) ==> !Outdated(contains, maps, x)
    ensures Prune(contains, maps, groups) == groups
    decreases |groups|
  {
    if groups != [] {
      var init, g := groups[..|groups| - 1], groups[|groups| - 1];
      assert groups == init + [g];
      FlattenSnoc(init, g);
      PruneAllCurrent(contains, maps, init);
      PruneGroupAllCurrent(contains, maps, g);
    }
  }

  /** Before Initialize has loaded any package map, nothing is outdated: the
      removal step leaves the tree as it is and collects no replacement. */
  lemma NoMapsRemovesNothing(contains: ContainsReference, groups: seq<ItemGroup>)
    ensures Prune(contains, [], groups) == groups
    ensures Replacements(contains, [], Flatten(groups)) == []
  {
    forall x | x in Flatten(groups) ensures !Outdated(contains, [], x) {
      OutdatedIff(contains, [], x);
    }
    PruneAllCurrent(contains, [], groups);
    KeepItemsAllCurrent(contains, [], Flatten(groups));
  }

  /** A reference seen among the kept ones stays seen when more are kept. */
  lemma SeenGrows(same: ReferenceEquality, kept: seq<NuGetReference>, more: seq<NuGetReference>, r: NuGetReference)
    requires Seen(same, kept, r)
    ensures Seen(same, kept + more, r)
  {
    var k :| 0 <= k < |kept| && same(kept[k], r);
    assert (kept + more)[k] == kept[k];
  }

  /** `Distinct` adds no reference, and every reference of its input is kept
      or equals one that is. */
  lemma {:induction false} DistinctElements(same: ReferenceEquality, refs: seq<NuGetReference>, r: NuGetReference)
    ensures r in Distinct(same, refs) ==> r in refs
    ensures r in refs ==> r in Distinct(same, refs) || Seen(same, Distinct(same, refs), r)
    decreases |refs|
  {
    if refs != [] {
      var init, last := refs[..|refs| - 1], refs[|refs| - 1];
      var rest := Distinct(same, init);
      assert refs == init + [last];
      DistinctElements(same, init, r);
      if Seen(same, rest, last) {
        assert Distinct(same, refs) == rest;
      } else {
        assert Distinct(same, refs) == rest + [last];
        if r in init && r !in rest {
          SeenGrows(same, rest, [last], r);
        }
      }
    }
  }

  /** A reference equal to a kept one equals one of the input; under a
      reflexive equality every reference of the input equals a kept one. */
  lemma DistinctCovers(same: ReferenceEquality, refs: seq<NuGetReference>, r: NuGetReference)
    ensures Seen(same, Distinct(same, refs), r) ==> exists q :: 0 <= q < |refs| && same(refs[q], r)
    ensures Reflexive(same) && r in refs ==> Seen(same, Distinct(same, refs), r)
  {
    DistinctElements(same, refs, r);
    if Seen(same, Distinct(same, refs), r) {
      var k :| 0 <= k < |Distinct(same, refs)| && same(Distinct(same, refs)[k], r);
      DistinctElements(same, refs, Distinct(same, refs)[k]);
      var q :| 0 <= q < |refs| && refs[q] == Distinct(same, refs)[k];
      assert same(refs[q], r);
    }
    if Reflexive(same) && r in Distinct(same, refs) {
      var k :| 0 <= k < |Distinct(same, refs)| && Distinct(same, refs)[k] == r;
      assert same(Distinct(same, refs)[k], r);
    }
  }

  /** No two references `Distinct` keeps are equal, the earlier compared with the later. */
  lemma {:induction false} DistinctNoDuplicates(same: ReferenceEquality, refs: seq<NuGetReference>)
    ensures forall i, j :: 0 <= i < j < |Distinct(same, refs)| ==> !same(Distinct(same, refs)[i], Distinct(same, refs)[j])
    decreases |refs|
  {
    if refs != [] {
      var init, last := refs[..|refs| - 1], refs[|refs| - 1];
      DistinctNoDuplicates(same, init);
    }
  }

  /** `Distinct` keeps the first occurrence: an element listed before another
      occurs in the input before every occurrence of the other. */
  lemma {:induction false} DistinctKeepsFirstOccurrence(same: ReferenceEquality, refs: seq<NuGetReference>)
    requires Reflexive(same)
    ensures forall i, j, q :: 0 <= i < j < |Distinct(same, refs)| && 0 <= q < |refs| && refs[q] == Distinct(same, refs)[j]
                              ==> Distinct(same, refs)[i] in refs[..q]
    decreases |refs|
  {
    if refs != [] {
      var init, last := refs[..|refs| - 1], refs[|refs| - 1];
      var d, d' := Distinct(same, refs), Distinct(same, init);
      DistinctKeepsFirstOccurrence(same, init);
      forall i, j, q | 0 <= i < j < |d| && 0 <= q < |refs| && refs[q] == d[j]
        ensures d[i] in refs[..q]
      {
        DistinctElements(same, init, d[i]);
        if q < |init| {
          assert init[q] == refs[q];
          if j == |d'| {
            DistinctCovers(same, init, last);
            assert false;
          }
          assert d'[i] in init[..q];
          assert refs[..q] == init[..q];
        } else {
          assert refs[..q] == init;
        }
      }
    }
  }

  /** Each kept reference is the first of its equals in the input: no
      reference before it is equal to it. */
  lemma {:induction false} DistinctKeepsFirstOfEquals(same: ReferenceEquality, refs: seq<NuGetReference>)
    requires Transitive(same)
    ensures forall k :: 0 <= k < |Distinct(same, refs)| ==>
              exists q :: 0 <= q < |refs| && refs[q] == Distinct(same, refs)[k]
                          && forall p :: 0 <= p < q ==> !same(refs[p], refs[q])
    decreases |refs|
  {
    if refs != [] {
      var init, last := refs[..|refs| - 1], refs[|refs| - 1];
      var d, d' := Distinct(same, refs), Distinct(same, init);
      DistinctKeepsFirstOfEquals(same, init);
      forall k | 0 <= k < |d|
        ensures exists q :: 0 <= q < |refs| && refs[q] == d[k] && forall p :: 0 <= p < q ==> !same(refs[p], refs[q])
      {
        if k < |d'| {
          assert d[k] == d'[k];
          var q :| 0 <= q < |init| && init[q] == d'[k] && forall p :: 0 <= p < q ==> !same(init[p], init[q]);
          assert forall p :: 0 <= p <= q ==> refs[p] == init[p];
        } else {
          assert !Seen(same, d', last) && d == d' + [last] && d[k] == last;
          forall p | 0 <= p < |init| ensures !same(refs[p], last) {
            assert refs[p] == init[p];
            DistinctElements(same, init, init[p]);
            if init[p] in d' {
              var m :| 0 <= m < |d'| && d'[m] == init[p];
              assert !same(d'[m], last);
            } else {
              var m :| 0 <= m < |d'| && same(d'[m], init[p]);
              assert !same(d'[m], last);
            }
          }
          assert refs[|refs| - 1] == d[k];
        }
      }
    } else {
      assert Distinct(same, refs) == [];
    }
  }

  /** A reference that equals no other reference of the input is kept. */
  lemma {:induction false} DistinctKeepsUnmatched(same: ReferenceEquality, refs: seq<NuGetReference>, a: NuGetReference)
    requires a in refs
    requires forall k :: 0 <= k < |refs| && same(refs[k], a) ==> refs[k] == a
    ensures a in Distinct(same, refs)
    decreases |refs|
  {
    var init, last := refs[..|refs| - 1], refs[|refs| - 1];
    assert refs == init + [last];
    if a in init {
      DistinctKeepsUnmatched(same, init, a);
      if !Seen(same, Distinct(same, init), last) {
        assert a in Distinct(same, init) + [last];
      }
    } else {
      assert last == a;
      if Seen(same, Distinct(same, init), a) {
        var k :| 0 <= k < |Distinct(same, init)| && same(Distinct(same, init)[k], a);
        DistinctElements(same, init, Distinct(same, init)[k]);
        assert false;
      }
    }
  }

  /** References equal when their names agree ignoring case and their
      versions agree exactly. */
  predicate SameIgnoringNameCase(a: NuGetReference, b: NuGetReference) {
    EqualsIgnoreCase(a.name, b.name) && a.version == b.version
  }

  /** Which references `Distinct` merges depends on the equality alone: under
      `SameIgnoringNameCase`, two spellings of one package at one version give
      one reference, and two versions of one package stay two. */
  lemma DistinctIgnoringNameCase()
    ensures var foo, fooLower := NuGetReference("Foo", "1.0"), NuGetReference("foo", "1.0");
            Distinct(SameIgnoringNameCase, [foo, fooLower]) == [foo]
    ensures var one, two := NuGetReference("Foo", "1.0"), NuGetReference("Foo", "2.0");
            Distinct(SameIgnoringNameCase, [one, two]) == [one, two]
    ensures var foo, fooLower := NuGetReference("Foo", "1.0"), NuGetReference("foo", "1.0");
            Distinct((a, b) => a == b, [foo, fooLower]) == [foo, fooLower]
  {
    var foo, fooLower := NuGetReference("Foo", "1.0"), NuGetReference("foo", "1.0");
    assert [foo, fooLower][..1] == [foo];
    assert [foo][..0] == [];
    assert Upper("Foo") == Upper("foo");
    assert SameIgnoringNameCase(foo, fooLower);
    var one, two := NuGetReference("Foo", "1.0"), NuGetReference("Foo", "2.0");
    assert [one, two][..1] == [one];
    assert "1.0" != "2.0" by { assert "1.0"[0] != "2.0"[0]; }
    assert !SameIgnoringNameCase(one, two);
    assert [one][..0] == [];
    assert !Seen(SameIgnoringNameCase, [one], two);
    assert Distinct(SameIgnoringNameCase, [one]) == [one];
    assert Distinct(SameIgnoringNameCase, [one, two]) == [one, two];
    assert foo != fooLower by { assert foo.name[0] != fooLower.name[0]; }
    assert !Seen((a, b) => a == b, [foo], fooLower);
    assert Distinct((a, b) => a == b, [foo]) == [foo];
    assert Distinct((a, b) => a == b, [foo, fooLower]) == [foo, fooLower];
  }

  predicate NoDuplicates(refs: seq<NuGetReference>) {
    forall i, j :: 0 <= i < j < |refs| ==> refs[i] != refs[j]
  }

  lemma {:induction false} ReferenceItemsCount(refs: seq<NuGetReference>, r: NuGetReference)
    requires NoDuplicates(refs)
    ensures multiset(ReferenceItems(refs))[ReferenceItem(r)] == if r in refs then 1 else 0
    decreases |refs|
  {
    if refs != [] {
      var init, last := refs[..|refs| - 1], refs[|refs| - 1];
      assert refs == init + [last];
      ReferenceItemsCount(init, r);
      ReferenceItemsCount(init, last);
      assert multiset(ReferenceItems(refs)) == multiset(ReferenceItems(init)) + multiset{ReferenceItem(last)};
    }
  }

  /** Apply creates at most one `PackageReference` item, with `Version`
      metadata equal to the package's version, for each package: one for each
      reference it adds, only collected replacements are added, and every
      collected replacement equals one that is added. */
  lemma AddedOnce(contains: ContainsReference, same: ReferenceEquality, maps: seq<PackageMap>, groups: seq<ItemGroup>, r: NuGetReference)
    requires Reflexive(same)
    ensures var added := AddedReferences(contains, same, maps, groups);
            multiset(ReferenceItems(added))[ReferenceItem(r)] == if r in added then 1 else 0
    ensures r in AddedReferences(contains, same, maps, groups) ==> r in Replacements(contains, maps, Flatten(groups))
    ensures r in Replacements(contains, maps, Flatten(groups)) ==> Seen(same, AddedReferences(contains, same, maps, groups), r)
    ensures ReferenceItem(r) == Item(PackageReferenceType, r.name, [Metadata(VersionElementName, r.version)])
  {
    var refs := Replacements(contains, maps, Flatten(groups));
    var d := Distinct(same, refs);
    assert d == AddedReferences(contains, same, maps, groups);
    DistinctNoDuplicates(same, refs);
    assert NoDuplicates(d) by {
      forall i, j | 0 <= i < j < |d| ensures d[i] != d[j] {
        assert !same(d[i], d[j]);
        assert same(d[i], d[i]);
      }
    }
    DistinctElements(same, refs, r);
    DistinctCovers(same, refs, r);
    ReferenceItemsCount(d, r);
  }

  /** The items apply appends to the target group: the distinct replacements,
      then the analyzer package when no package reference to it is left. */
  function NewItems(contains: ContainsReference, same: ReferenceEquality, maps: seq<PackageMap>, groups: seq<ItemGroup>): seq<Item> {
    ReferenceItems(AddedReferences(contains, same, maps, groups))
      + (if AnalyzerReferenced(AfterReplacements(contains, same, maps, groups)) then [] else [AnalyzerItem()])
  }

  lemma AppendTwice(groups: seq<ItemGroup>, target: nat, a: seq<Item>, b: seq<Item>)
    requires target < |groups|
    ensures AppendToGroup(AppendToGroup(groups, target, a), target, b) == AppendToGroup(groups, target, a + b)
  {
    assert groups[target].items + a + b == groups[target].items + (a + b);
  }

  lemma RewriteAppendsNewItems(contains: ContainsReference, same: ReferenceEquality, maps: seq<PackageMap>, groups: seq<ItemGroup>)
    ensures Rewrite(contains, same, maps, groups)
            == AppendToGroup(WithTargetGroup(Prune(contains, maps, groups)), TargetGroup(Prune(contains, maps, groups)),
                             NewItems(contains, same, maps, groups))
  {
    var pruned := Prune(contains, maps, groups);
    var added := ReferenceItems(AddedReferences(contains, same, maps, groups));
    if AnalyzerReferenced(AfterReplacements(contains, same, maps, groups)) {
      assert added + [] == added;
    } else {
      AppendTwice(WithTargetGroup(pruned), TargetGroup(pruned), added, [AnalyzerItem()]);
    }
  }

  /** Where the new items go: at the end of the first group that still holds a
      package reference after the removal, or, when there is none, in one new
      group appended at the end of the project. */
  lemma RewritePlacement(contains: ContainsReference, same: ReferenceEquality, maps: seq<PackageMap>, groups: seq<ItemGroup>)
    ensures var pruned := Prune(contains, maps, groups);
            FirstPackageReferenceGroup(pruned).Some? ==>
              Rewrite(contains, same, maps, groups)
              == AppendToGroup(pruned, FirstPackageReferenceGroup(pruned).value, NewItems(contains, same, maps, groups))
    ensures var pruned := Prune(contains, maps, groups);
            FirstPackageReferenceGroup(pruned).None? ==>
              Rewrite(contains, same, maps, groups) == pruned + [ItemGroup(NewItems(contains, same, maps, groups))]
  {
    var pruned := Prune(contains, maps, groups);
    RewriteAppendsNewItems(contains, same, maps, groups);
    match FirstPackageReferenceGroup(pruned)
    case Some(t) =>
      assert WithTargetGroup(pruned) == pruned && TargetGroup(pruned) == t;
    case None =>
      assert WithTargetGroup(pruned) == pruned + [ItemGroup([])] && TargetGroup(pruned) == |pruned|;
      AppendToNewGroup(pruned, NewItems(contains, same, maps, groups));
  }

  lemma {:induction false} PackageReferenceSitsInGroup(groups: seq<ItemGroup>, x: Item)
    requires x in Flatten(groups) && IsPackageReference(x)
    ensures FirstPackageReferenceGroup(groups).Some?
  {
    FlattenMember(groups, x);
    var j :| 0 <= j < |groups| && x in groups[j].items;
    assert HasPackageReference(groups[j]);
  }

  /** A group created by apply is never left empty: it receives a reference
      to the analyzer package, either among the replacements or as the
      analyzer item added after them. */
  lemma NewGroupNeverEmpty(contains: ContainsReference, same: ReferenceEquality, maps: seq<PackageMap>, groups: seq<ItemGroup>)
    requires FirstPackageReferenceGroup(Prune(contains, maps, groups)).None?
    ensures exists x :: x in NewItems(contains, same, maps, groups) && IsAnalyzerReference(x)
    ensures NewItems(contains, same, maps, groups) != []
  {
    var pruned := Prune(contains, maps, groups);
    var added := ReferenceItems(AddedReferences(contains, same, maps, groups));
    var replaced := AfterReplacements(contains, same, maps, groups);
    AppendToNewGroup(pruned, added);
    assert replaced == pruned + [ItemGroup(added)];
    FlattenSnoc(pruned, ItemGroup(added));
    if AnalyzerReferenced(replaced) {
      var x :| x in Flatten(replaced) && IsAnalyzerReference(x);
      if x in Flatten(pruned) {
        PackageReferenceSitsInGroup(pruned, x);
        assert false;
      }
      assert x in NewItems(contains, same, maps, groups);
    } else {
      AnalyzerItemIsAnalyzerReference();
      assert AnalyzerItem() in NewItems(contains, same, maps, groups);
    }
  }

  lemma AnalyzerItemIsAnalyzerReference()
    ensures IsAnalyzerReference(AnalyzerItem())
  {
  }

  /** After apply, a package reference to the analyzer package is present. */
  lemma AnalyzerPresentAfterRewrite(contains: ContainsReference, same: ReferenceEquality, maps: seq<PackageMap>, groups: seq<ItemGroup>)
    ensures AnalyzerReferenced(Rewrite(contains, same, maps, groups))
  {
    var replaced := AfterReplacements(contains, same, maps, groups);
    if !AnalyzerReferenced(replaced) {
      var t := TargetGroup(Prune(contains, maps, groups));
      FlattenAppendToGroup(replaced, t, [AnalyzerItem()]);
      AnalyzerItemIsAnalyzerReference();
      assert AnalyzerItem() in Flatten(Rewrite(contains, same, maps, groups));
    }
  }

  /** Apply adds the analyzer package exactly when no package reference to it
      (name compared ignoring case) is left after the replacements. */
  lemma AnalyzerAddedOnlyIfAbsent(contains: ContainsReference, same: ReferenceEquality, maps: seq<PackageMap>, groups: seq<ItemGroup>)
    ensures Rewrite(contains, same, maps, groups) != AfterReplacements(contains, same, maps, groups)
            <==> !AnalyzerReferenced(AfterReplacements(contains, same, maps, groups))
  {
    var replaced := AfterReplacements(contains, same, maps, groups);
    if !AnalyzerReferenced(replaced) {
      var t := TargetGroup(Prune(contains, maps, groups));
      assert |Rewrite(contains, same, maps, groups)[t].items| == |replaced[t].items| + 1;
    }
  }

  /** The flat item list after apply: the kept items with the new items
      inserted at one position. */
  lemma RewriteFlattenSplit(contains: ContainsReference, same: ReferenceEquality, maps: seq<PackageMap>, groups: seq<ItemGroup>)
    returns (before: seq<Item>, after: seq<Item>)
    ensures KeepItems(contains, maps, Flatten(groups)) == before + after
    ensures Flatten(Rewrite(contains, same, maps, groups)) == before + NewItems(contains, same, maps, groups) + after
  {
    var pruned := Prune(contains, maps, groups);
    var w, t := WithTargetGroup(pruned), TargetGroup(pruned);
    before, after := Flatten(w[..t + 1]), Flatten(w[t + 1..]);
    RewriteAppendsNewItems(contains, same, maps, groups);
    FlattenAppendToGroup(w, t, NewItems(contains, same, maps, groups));
    FlattenSplitAt(w, t);
    PruneFlatten(contains, maps, groups);
    if w != pruned {
      FlattenSnoc(pruned, ItemGroup([]));
    }
  }

  lemma AfterReplacementsFlattenSplit(contains: ContainsReference, same: ReferenceEquality, maps: seq<PackageMap>, groups: seq<ItemGroup>)
    returns (before: seq<Item>, after: seq<Item>)
    ensures KeepItems(contains, maps, Flatten(groups)) == before + after
    ensures Flatten(AfterReplacements(contains, same, maps, groups))
            == before + ReferenceItems(AddedReferences(contains, same, maps, groups)) + after
  {
    var pruned := Prune(contains, maps, groups);
    var w, t := WithTargetGroup(pruned), TargetGroup(pruned);
    before, after := Flatten(w[..t + 1]), Flatten(w[t + 1..]);
    FlattenAppendToGroup(w, t, ReferenceItems(AddedReferences(contains, same, maps, groups)));
    FlattenSplitAt(w, t);
    PruneFlatten(contains, maps, groups);
    if w != pruned {
      FlattenSnoc(pruned, ItemGroup([]));
    }
  }

  /** What the saved project holds: exactly the items that were not outdated,
      plus the new items. Replacements are not filtered against the references
      already present. */
  lemma RewriteContents(contains: ContainsReference, same: ReferenceEquality, maps: seq<PackageMap>, groups: seq<ItemGroup>)
    ensures multiset(Flatten(Rewrite(contains, same, maps, groups)))
            == multiset(KeepItems(contains, maps, Flatten(groups))) + multiset(NewItems(contains, same, maps, groups))
  {
    var before, after := RewriteFlattenSplit(contains, same, maps, groups);
  }

  /** The number of package references to the analyzer package. */
  function AnalyzerCount(items: seq<Item>): nat {
    if items == [] then 0
    else AnalyzerCount(items[..|items| - 1]) + if IsAnalyzerReference(items[|items| - 1]) then 1 else 0
  }

  lemma {:induction false} AnalyzerCountConcat(a: seq<Item>, b: seq<Item>)
    ensures AnalyzerCount(a + b) == AnalyzerCount(a) + AnalyzerCount(b)
    decreases |b|
  {
    if b == [] {
      assert a + b == a;
    } else {
      var b' := b[..|b| - 1];
      assert (a + b)[..|a + b| - 1] == a + b';
      assert (a + b)[|a + b| - 1] == b[|b| - 1];
      AnalyzerCountConcat(a, b');
    }
  }

  lemma {:induction false} AnalyzerCountPositive(items: seq<Item>)
    ensures AnalyzerCount(items) > 0 <==> exists x :: x in items && IsAnalyzerReference(x)
    decreases |items|
  {
    if items != [] {
      var init := items[..|items| - 1];
      assert items == init + [items[|items| - 1]];
      AnalyzerCountPositive(init);
    }
  }

  /** No loaded map contains the analyzer package, whatever its spelling or version. */
  ghost predicate AnalyzerNeverOutdated(contains: ContainsReference, maps: seq<PackageMap>) {
    forall name: string, version: Option<string> ::
      EqualsIgnoreCase(AnalyzerPackageName, name) ==> !AnyMapContains(contains, maps, name, version)
  }

  /** No loaded map offers the analyzer package as a replacement. */
  ghost predicate NoAnalyzerReplacement(maps: seq<PackageMap>) {
    forall r :: IsReplacement(maps, r) ==> !EqualsIgnoreCase(AnalyzerPackageName, r.name)
  }

  /** No replacement package is itself outdated under the loaded maps. */
  ghost predicate ReplacementsCurrent(contains: ContainsReference, maps: seq<PackageMap>) {
    forall r :: IsReplacement(maps, r) ==> !AnyMapContains(contains, maps, r.name, Some(r.version))
  }

  lemma {:induction false} KeepItemsAnalyzerCount(contains: ContainsReference, maps: seq<PackageMap>, items: seq<Item>)
    requires AnalyzerNeverOutdated(contains, maps)
    ensures AnalyzerCount(KeepItems(contains, maps, items)) == AnalyzerCount(items)
    decreases |items|
  {
    if items != [] {
      var init, x := items[..|items| - 1], items[|items| - 1];
      KeepItemsAnalyzerCount(contains, maps, init);
      if Outdated(contains, maps, x) {
        OutdatedIff(contains, maps, x);
        assert !EqualsIgnoreCase(AnalyzerPackageName, x.itemSpec);
      } else {
        AnalyzerCountConcat(KeepItems(contains, maps, init), [x]);
        assert [x][..0] == [];
      }
    }
  }

  lemma {:induction false} ReferenceItemsAnalyzerCount(maps: seq<PackageMap>, refs: seq<NuGetReference>)
    requires NoAnalyzerReplacement(maps)
    requires forall r :: r in refs ==> IsReplacement(maps, r)
    ensures AnalyzerCount(ReferenceItems(refs)) == 0
    decreases |refs|
  {
    if refs != [] {
      var init, last := refs[..|refs| - 1], refs[|refs| - 1];
      assert last in refs;
      ReferenceItemsAnalyzerCount(maps, init);
      AnalyzerCountConcat(ReferenceItems(init), [ReferenceItem(last)]);
      assert [ReferenceItem(last)][..0] == [];
    }
  }

  lemma AddedReferencesAreReplacements(contains: ContainsReference, same: ReferenceEquality, maps: seq<PackageMap>, groups: seq<ItemGroup>)
    ensures forall r :: r in AddedReferences(contains, same, maps, groups) ==> IsReplacement(maps, r)
  {
    forall r | r in AddedReferences(contains, same, maps, groups) ensures IsReplacement(maps, r) {
      DistinctElements(same, Replacements(contains, maps, Flatten(groups)), r);
      ReplacementsFromMaps(contains, maps, Flatten(groups), r);
    }
  }

  /** When no map touches the analyzer package, apply leaves the existing
      analyzer references alone and adds one only if there was none. */
  lemma AnalyzerCountAfterRewrite(contains: ContainsReference, same: ReferenceEquality, maps: seq<PackageMap>, groups: seq<ItemGroup>)
    requires AnalyzerNeverOutdated(contains, maps) && NoAnalyzerReplacement(maps)
    ensures var n := AnalyzerCount(Flatten(groups));
            AnalyzerCount(Flatten(Rewrite(contains, same, maps, groups))) == if n == 0 then 1 else n
  {
    var kept := KeepItems(contains, maps, Flatten(groups));
    var refItems := ReferenceItems(AddedReferences(contains, same, maps, groups));
    KeepItemsAnalyzerCount(contains, maps, Flatten(groups));
    AddedReferencesAreReplacements(contains, same, maps, groups);
    ReferenceItemsAnalyzerCount(maps, AddedReferences(contains, same, maps, groups));
    var b1, a1 := AfterReplacementsFlattenSplit(contains, same, maps, groups);
    AnalyzerCountConcat(b1, a1);
    AnalyzerCountConcat(b1, refItems);
    AnalyzerCountConcat(b1 + refItems, a1);
    AnalyzerCountPositive(Flatten(AfterReplacements(contains, same, maps, groups)));
    var b2, a2 := RewriteFlattenSplit(contains, same, maps, groups);
    AnalyzerCountConcat(b2, a2);
    var n := NewItems(contains, same, maps, groups);
    AnalyzerCountConcat(b2, n);
    AnalyzerCountConcat(b2 + n, a2);
    if AnalyzerReferenced(AfterReplacements(contains, same, maps, groups)) {
      assert n == refItems + [];
    } else {
      AnalyzerCountConcat(refItems, [AnalyzerItem()]);
      AnalyzerItemIsAnalyzerReference();
      assert [AnalyzerItem()][..0] == [];
    }
  }

  /** `n` applies in a row on the same maps. */
  function RewriteTimes(contains: ContainsReference, same: ReferenceEquality, maps: seq<PackageMap>, groups: seq<ItemGroup>, n: nat): seq<ItemGroup> {
    if n == 0 then groups else Rewrite(contains, same, maps, RewriteTimes(contains, same, maps, groups, n - 1))
  }

  /** However many times apply runs, a project with at most one analyzer
      reference ends up with exactly one. */
  lemma {:induction false} RepeatedApplyKeepsOneAnalyzer(contains: ContainsReference, same: ReferenceEquality, maps: seq<PackageMap>, groups: seq<ItemGroup>, n: nat)
    requires AnalyzerNeverOutdated(contains, maps) && NoAnalyzerReplacement(maps)
    requires AnalyzerCount(Flatten(groups)) <= 1 && n >= 1
    ensures AnalyzerCount(Flatten(RewriteTimes(contains, same, maps, groups, n))) == 1
  {
    var prev := RewriteTimes(contains, same, maps, groups, n - 1);
    if n > 1 {
      RepeatedApplyKeepsOneAnalyzer(contains, same, maps, groups, n - 1);
    }
    AnalyzerCountAfterRewrite(contains, same, maps, prev);
  }

  lemma ReferenceItemVersion(r: NuGetReference)
    ensures VersionOf(ReferenceItem(r).metadata) == Some(r.version)
  {
  }

  /** When no replacement and no analyzer package is outdated, nothing in the
      saved project is outdated. */
  lemma RewriteLeavesNothingOutdated(contains: ContainsReference, same: ReferenceEquality, maps: seq<PackageMap>, groups: seq<ItemGroup>)
    requires ReplacementsCurrent(contains, maps) && AnalyzerNeverOutdated(contains, maps)
    ensures forall x :: x in Flatten(Rewrite(contains, same, maps, groups)) ==> !Outdated(contains, maps, x)
  {
    var before, after := RewriteFlattenSplit(contains, same, maps, groups);
    AddedReferencesAreReplacements(contains, same, maps, groups);
    var refs := AddedReferences(contains, same, maps, groups);
    forall x | x in Flatten(Rewrite(contains, same, maps, groups)) ensures !Outdated(contains, maps, x) {
      OutdatedIff(contains, maps, x);
      if x in before || x in after {
        KeptIff(contains, maps, Flatten(groups), x);
      } else if x in ReferenceItems(refs) {
        var i :| 0 <= i < |refs| && ReferenceItems(refs)[i] == x;
        assert IsReplacement(maps, refs[i]);
        ReferenceItemVersion(refs[i]);
      } else {
        assert x == AnalyzerItem();
        ReferenceItemVersion(NuGetReference(AnalyzerPackageName, AnalyzerPackageVersion));
        assert EqualsIgnoreCase(AnalyzerPackageName, x.itemSpec);
      }
    }
  }

  /** On a project with nothing outdated, apply changes nothing exactly when
      the analyzer package is already referenced. */
  lemma NothingOutdatedRewrite(contains: ContainsReference, same: ReferenceEquality, maps: seq<PackageMap>, groups: seq<ItemGroup>)
    requires forall x :: x in Flatten(groups) ==> !Outdated(contains, maps, x)
    ensures Rewrite(contains, same, maps, groups) == groups <==> AnalyzerReferenced(groups)
  {
    AnalyzerPresentAfterRewrite(contains, same, maps, groups);
    if AnalyzerReferenced(groups) {
      PruneAllCurrent(contains, maps, groups);
      KeepItemsAllCurrent(contains, maps, Flatten(groups));
      var x :| x in Flatten(groups) && IsAnalyzerReference(x);
      PackageReferenceSitsInGroup(groups, x);
      assert AddedReferences(contains, same, maps, groups) == [];
      AppendNothing(groups, TargetGroup(groups));
      assert AfterReplacements(contains, same, maps, groups) == groups;
    }
  }

  /** Applying twice is applying once, provided no replacement and no
      analyzer package is itself outdated. */
  lemma RewriteIdempotent(contains: ContainsReference, same: ReferenceEquality, maps: seq<PackageMap>, groups: seq<ItemGroup>)
    requires ReplacementsCurrent(contains, maps) && AnalyzerNeverOutdated(contains, maps)
    ensures Rewrite(contains, same, maps, Rewrite(contains, same, maps, groups)) == Rewrite(contains, same, maps, groups)
  {
    var once := Rewrite(contains, same, maps, groups);
    RewriteLeavesNothingOutdated(contains, same, maps, groups);
    AnalyzerPresentAfterRewrite(contains, same, maps, groups);
    NothingOutdatedRewrite(contains, same, maps, once);
  }
}
