/** What `ApplyImplAsync` of the package updater step does to a project tree,
    stated as functions of the tree and the loaded package maps: remove the
    outdated package references, drop the item groups this empties, append the
    distinct replacement packages to the first group that still holds a
    package reference, and add the analyzer package if it is missing. */
module PackageRewrite {
  import opened Runtime
  import opened Text
  import opened MsBuild
  import opened PackageMaps

  const DefaultPackageConfigFileName: string := "PackageMap.json"
  const PackageReferenceType: string := "PackageReference"
  const AnalyzerPackageName: string := "AspNetMigrator.Analyzers"
  const AnalyzerPackageVersion: string := "1.0.0"
  const VersionElementName: string := "Version"

  /** The item's type is `PackageReference`, ignoring case. */
  predicate IsPackageReference(item: Item) {
    EqualsIgnoreCase(item.itemType, PackageReferenceType)
  }

  /** The value of the first metadata child named `Version` (ignoring case),
      or null when there is none. */
  function VersionOf(metadata: seq<Metadata>): Option<string> {
    if metadata == [] then None
    else if EqualsIgnoreCase(metadata[0].name, VersionElementName) then Some(metadata[0].value)
    else VersionOf(metadata[1..])
  }

  /** The version is null exactly when no metadata child is named `Version`. */
  lemma {:induction false} VersionOfNone(metadata: seq<Metadata>)
    ensures VersionOf(metadata).None? <==> forall k :: 0 <= k < |metadata| ==> !EqualsIgnoreCase(metadata[k].name, VersionElementName)
    decreases |metadata|
  {
    if metadata != [] && !EqualsIgnoreCase(metadata[0].name, VersionElementName) {
      VersionOfNone(metadata[1..]);
      forall k | 1 <= k < |metadata| ensures metadata[k] == metadata[1..][k - 1] {
      }
    }
  }

  /** Otherwise it is the value of the first child named `Version`. */
  lemma {:induction false} VersionOfFirst(metadata: seq<Metadata>) returns (k: nat)
    requires VersionOf(metadata).Some?
    ensures k < |metadata| && metadata[k].value == VersionOf(metadata).value
    ensures EqualsIgnoreCase(metadata[k].name, VersionElementName)
    ensures forall j :: 0 <= j < k ==> !EqualsIgnoreCase(metadata[j].name, VersionElementName)
    decreases |metadata|
  {
    if EqualsIgnoreCase(metadata[0].name, VersionElementName) {
      k := 0;
    } else {
      var k' := VersionOfFirst(metadata[1..]);
      k := k' + 1;
      forall j | 0 <= j < k ensures !EqualsIgnoreCase(metadata[j].name, VersionElementName) {
        if j > 0 {
          assert metadata[j] == metadata[1..][j - 1];
        }
      }
    }
  }

  /** The map that makes an item outdated: the first loaded map containing
      its name and version, and none for items that are not package references. */
  function MapFor(contains: ContainsReference, maps: seq<PackageMap>, item: Item): Option<PackageMap> {
    if IsPackageReference(item) then FirstMatch(contains, maps, item.itemSpec, VersionOf(item.metadata)) else None
  }

  predicate Outdated(contains: ContainsReference, maps: seq<PackageMap>, item: Item) {
    MapFor(contains, maps, item).Some?
  }

  /** The items that are not outdated, in their original order. */
  function KeepItems(contains: ContainsReference, maps: seq<PackageMap>, items: seq<Item>): seq<Item> {
    if items == [] then []
    else
      var rest := KeepItems(contains, maps, items[..|items| - 1]);
      if Outdated(contains, maps, items[|items| - 1]) then rest else rest + [items[|items| - 1]]
  }

  /** The replacement packages of the outdated items, each item contributing
      the `NetCorePackages` of its map, in scan order. */
  function Replacements(contains: ContainsReference, maps: seq<PackageMap>, items: seq<Item>): seq<NuGetReference> {
    if items == [] then []
    else
      var rest := Replacements(contains, maps, items[..|items| - 1]);
      match MapFor(contains, maps, items[|items| - 1])
      case Some(m) => rest + m.netCorePackages
      case None => rest
  }

  /** A group that had children and loses all of them to the removal. */
  predicate LosesAllChildren(contains: ContainsReference, maps: seq<PackageMap>, g: ItemGroup) {
    g.items != [] && KeepItems(contains, maps, g.items) == []
  }

  /** One group after the removal: gone if it lost its last child,
      otherwise with its outdated items removed. */
  function PruneGroup(contains: ContainsReference, maps: seq<PackageMap>, g: ItemGroup): seq<ItemGroup> {
    if LosesAllChildren(contains, maps, g) then [] else [ItemGroup(KeepItems(contains, maps, g.items))]
  }

  /** The tree after the removal step. */
  function Prune(contains: ContainsReference, maps: seq<PackageMap>, groups: seq<ItemGroup>): seq<ItemGroup> {
    if groups == [] then []
    else Prune(contains, maps, groups[..|groups| - 1]) + PruneGroup(contains, maps, groups[|groups| - 1])
  }

  /** Some reference already kept equals `r`. */
  predicate Seen(same: ReferenceEquality, kept: seq<NuGetReference>, r: NuGetReference) {
    exists k :: 0 <= k < |kept| && same(kept[k], r)
  }

  /** `Distinct()`: the references in order, each dropped when it equals one
      already kept. */
  function Distinct(same: ReferenceEquality, refs: seq<NuGetReference>): seq<NuGetReference> {
    if refs == [] then []
    else
      var rest := Distinct(same, refs[..|refs| - 1]);
      if Seen(same, rest, refs[|refs| - 1]) then rest else rest + [refs[|refs| - 1]]
  }

  /** The `PackageReference` item created for a package, with its version as
      `Version` metadata. */
  function ReferenceItem(r: NuGetReference): Item {
    Item(PackageReferenceType, r.name, [Metadata(VersionElementName, r.version)])
  }

  function ReferenceItems(refs: seq<NuGetReference>): (items: seq<Item>)
    ensures |items| == |refs|
    ensures forall i :: 0 <= i < |refs| ==> items[i] == ReferenceItem(refs[i])
  {
    if refs == [] then [] else ReferenceItems(refs[..|refs| - 1]) + [ReferenceItem(refs[|refs| - 1])]
  }

  function AnalyzerItem(): Item {
    ReferenceItem(NuGetReference(AnalyzerPackageName, AnalyzerPackageVersion))
  }

  predicate HasPackageReference(g: ItemGroup) {
    exists x :: x in g.items && IsPackageReference(x)
  }

  /** `ItemGroups.FirstOrDefault(g => g.Items.Any(IsPackageReference))`. */
  function FirstPackageReferenceGroup(groups: seq<ItemGroup>): (r: Option<nat>)
    ensures r.Some? ==> r.value < |groups| && HasPackageReference(groups[r.value])
                        && forall j :: 0 <= j < r.value ==> !HasPackageReference(groups[j])
    ensures r.None? ==> forall j :: 0 <= j < |groups| ==> !HasPackageReference(groups[j])
  {
    if groups == [] then None
    else if HasPackageReference(groups[0]) then Some(0)
    else
      match FirstPackageReferenceGroup(groups[1..])
      case None => None
      case Some(t) => Some(t + 1)
  }

  /** The tree with a place for new package references: unchanged if some
      group holds a package reference, otherwise with a new empty group at the end. */
  function WithTargetGroup(groups: seq<ItemGroup>): seq<ItemGroup> {
    if FirstPackageReferenceGroup(groups).Some? then groups else groups + [ItemGroup([])]
  }

  /** The index of the group that receives the new package references. */
  function TargetGroup(groups: seq<ItemGroup>): (t: nat)
    ensures t < |WithTargetGroup(groups)|
  {
    match FirstPackageReferenceGroup(groups)
    case Some(t) => t
    case None => |groups|
  }

  /** A package reference to the analyzer package, its name compared ignoring case. */
  predicate IsAnalyzerReference(item: Item) {
    IsPackageReference(item) && EqualsIgnoreCase(AnalyzerPackageName, item.itemSpec)
  }

  predicate AnalyzerReferenced(groups: seq<ItemGroup>) {
    exists x :: x in Flatten(groups) && IsAnalyzerReference(x)
  }

  /** The replacement packages that apply adds, each once. */
  function AddedReferences(contains: ContainsReference, same: ReferenceEquality, maps: seq<PackageMap>, groups: seq<ItemGroup>): seq<NuGetReference> {
    Distinct(same, Replacements(contains, maps, Flatten(groups)))
  }

  /** The tree after the removal and the replacement steps. */
  function AfterReplacements(contains: ContainsReference, same: ReferenceEquality, maps: seq<PackageMap>, groups: seq<ItemGroup>): seq<ItemGroup> {
    var pruned := Prune(contains, maps, groups);
    AppendToGroup(WithTargetGroup(pruned), TargetGroup(pruned), ReferenceItems(AddedReferences(contains, same, maps, groups)))
  }

  /** The tree that apply saves. */
  function Rewrite(contains: ContainsReference, same: ReferenceEquality, maps: seq<PackageMap>, groups: seq<ItemGroup>): seq<ItemGroup> {
    var replaced := AfterReplacements(contains, same, maps, groups);
    if AnalyzerReferenced(replaced) then replaced
    else AppendToGroup(replaced, TargetGroup(Prune(contains, maps, groups)), [AnalyzerItem()])
  }
}
