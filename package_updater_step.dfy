/** The package updater migration step: its construction, the status
    decision of `InitializeImplAsync`, and `ApplyImplAsync`, which edits the
    project tree in place through a `ProjectRootElement` and saves it. */
module PackageUpdater {
  import opened Runtime
  import opened Text
  import opened MsBuild
  import opened PackageMaps
  import opened PackageRewrite
  import opened RewriteProperties

  datatype MigrationStepStatus = Incomplete | Complete | Failed

  /** What a step call ends with: a status and its details, or an exception. */
  datatype StepOutcome = Returned(status: MigrationStepStatus, details: string) | Raised(error: Exception)

  /** The package map file at `PackageMapPath`, as the file system holds it. */
  datatype MapFile = MapMissing | MapMalformed | MapLoaded(maps: seq<PackageMap>)

  /** The project file at the context's project path. */
  datatype ProjectFile = ProjectMissing | ProjectInvalid | ProjectLoaded(groups: seq<ItemGroup>)

  /** The migration context: the project path it reports and the file behind it. */
  datatype MigrationContext = MigrationContext(projectPath: string, project: ProjectFile)

  /** The platform's path rules that the constructor relies on. */
  datatype PathRules = PathRules(fullyQualified: string -> bool, rooted: string -> bool, separator: char)

  /** `Path.Combine(first, second)`. */
  function PathCombine(rules: PathRules, first: string, second: string): (r: string)
    ensures second != [] ==> |second| <= |r| && r[|r| - |second|..] == second
    ensures second != [] && first != [] && !rules.rooted(second) ==> |first| <= |r| && r[..|first|] == first
    ensures second == [] ==> r == first
  {
    if second == [] then first
    else if first == [] || rules.rooted(second) then second
    else if IsSeparator(rules, first[|first| - 1]) || IsSeparator(rules, second[0]) then first + second
    else first + [rules.separator] + second
  }

  /** A directory separator: `/`, or the platform's own one. */
  predicate IsSeparator(rules: PathRules, c: char) {
    c == rules.separator || c == '/'
  }

  /** The configured map path, or the default file name when there is none. */
  function MapFileName(configured: Option<string>): string {
    if configured.Some? then configured.value else DefaultPackageConfigFileName
  }

  /** `PackageMapPath`: the map file name, resolved against the directory of
      the step's assembly unless it is fully qualified. */
  function ResolveMapPath(rules: PathRules, assemblyDirectory: string, configured: Option<string>): (r: string)
    ensures rules.fullyQualified(MapFileName(configured)) ==> r == MapFileName(configured)
    ensures MapFileName(configured) != [] ==> EndsWith(r, MapFileName(configured))
    ensures MapFileName(configured) == [] && !rules.fullyQualified([]) ==> r == assemblyDirectory
    ensures var name := MapFileName(configured);
            !rules.fullyQualified(name) && name != [] && (assemblyDirectory == [] || rules.rooted(name)) ==> r == name
    ensures var name, dir := MapFileName(configured), assemblyDirectory;
            !rules.fullyQualified(name) && name != [] && dir != [] && !rules.rooted(name) ==>
              r == dir + (if IsSeparator(rules, dir[|dir| - 1]) || IsSeparator(rules, name[0]) then [] else [rules.separator]) + name
  {
    var name := MapFileName(configured);
    assert assemblyDirectory + [] + name == assemblyDirectory + name;
    if rules.fullyQualified(name) then name else PathCombine(rules, assemblyDirectory, name)
  }

  predicate EndsWith(s: string, suffix: string) {
    |suffix| <= |s| && s[|s| - |suffix|..] == suffix
  }

  /** The package references that some loaded map contains, with their
      names and versions as the project states them. */
  function OutdatedItems(contains: ContainsReference, maps: seq<PackageMap>, items: seq<Item>): seq<Item> {
    if items == [] then []
    else
      var rest := OutdatedItems(contains, maps, items[..|items| - 1]);
      var x := items[|items| - 1];
      if IsPackageReference(x) && AnyMapContains(contains, maps, x.itemSpec, VersionOf(x.metadata)) then rest + [x] else rest
  }

  /** A package reference to the analyzer package spelled exactly as the
      constant is (the comparison Initialize makes). */
  predicate ExactAnalyzerReference(x: Item) {
    IsPackageReference(x) && x.itemSpec == AnalyzerPackageName
  }

  predicate ExactAnalyzerReferenced(groups: seq<ItemGroup>) {
    exists x :: x in Flatten(groups) && ExactAnalyzerReference(x)
  }

  /** The status Initialize reports for a project it could open. */
  function Inspect(contains: ContainsReference, maps: seq<PackageMap>, groups: seq<ItemGroup>): StepOutcome {
    var outdated := OutdatedItems(contains, maps, Flatten(groups));
    if |outdated| > 0 then Returned(Incomplete, NatToString(|outdated|) + " packages need updated")
    else if !ExactAnalyzerReferenced(groups) then Returned(Incomplete, "Reference to package " + AnalyzerPackageName + " needed")
    else Returned(Complete, "No package updates needed")
  }

  /** The outcome of `InitializeImplAsync`. */
  function InitializeOutcome(contains: ContainsReference, mapPath: string, context: Option<MigrationContext>, mapFile: MapFile): StepOutcome {
    match context
    case None => Raised(ArgumentNull("context"))
    case Some(c) =>
      match mapFile
      case MapMissing => Returned(Failed, "Package map file " + mapPath + " not found")
      case MapMalformed => Raised(JsonMalformed)
      case MapLoaded(maps) =>
        match c.project
        case ProjectMissing => Returned(Failed, "Project file " + c.projectPath + " not found")
        case ProjectInvalid => Returned(Failed, "Invalid project: " + c.projectPath)
        case ProjectLoaded(groups) => Inspect(contains, maps, groups)
  }

  /** What `ApplyImplAsync` returns, and the project tree it saves, if any. */
  datatype ApplyResult = ApplyResult(outcome: StepOutcome, saved: Option<seq<ItemGroup>>)

  function ApplySpec(contains: ContainsReference, same: ReferenceEquality, maps: seq<PackageMap>, mapPath: string,
                     context: Option<MigrationContext>, mapFile: MapFile): ApplyResult {
    match context
    case None => ApplyResult(Raised(ArgumentNull("context")), None)
    case Some(c) =>
      if mapFile.MapMissing? then ApplyResult(Raised(FileNotFound("Package map file not found", mapPath)), None)
      else
        match c.project
        case ProjectLoaded(groups) => ApplyResult(Returned(Complete, "Packages updated"), Some(Rewrite(contains, same, maps, groups)))
        case _ => ApplyResult(Returned(Failed, "Invalid project: " + c.projectPath), None)
  }

  class PackageUpdaterStep {
    const packageMapPath: string
    /** `NuGetPackageMap.ContainsReference`, which is not part of this model. */
    const containsReference: ContainsReference
    /** `NuGetReference.Equals`, which is not part of this model. */
    const referenceEquals: ReferenceEquality
    const title: string
    const description: string
    var packageMaps: seq<PackageMap>

    constructor(projectPath: string, configuredMapPath: Option<string>, rules: PathRules,
                assemblyDirectory: string, containsReference: ContainsReference, referenceEquals: ReferenceEquality)
      ensures packageMapPath == ResolveMapPath(rules, assemblyDirectory, configuredMapPath)
      ensures this.containsReference == containsReference && this.referenceEquals == referenceEquals
      ensures title == "Update NuGet packages"
      ensures description == "Update package references in " + projectPath
                             + " to work with .NET based on mappings in " + packageMapPath
      ensures packageMaps == []
    {
      var mapPath := ResolveMapPath(rules, assemblyDirectory, configuredMapPath);
      packageMapPath := mapPath;
      this.containsReference := containsReference;
      this.referenceEquals := referenceEquals;
      title := "Update NuGet packages";
      description := "Update package references in " + projectPath + " to work with .NET based on mappings in " + mapPath;
      packageMaps := [];
    }

    /** `InitializeImplAsync`: loads the package maps, then decides the status. */
    method Initialize(context: Option<MigrationContext>, mapFile: MapFile) returns (outcome: StepOutcome)
      modifies this`packageMaps
      ensures outcome == InitializeOutcome(containsReference, packageMapPath, context, mapFile)
      ensures packageMaps == if context.Some? && mapFile.MapLoaded? then mapFile.maps else old(packageMaps)
    {
      if context.None? {
        return Raised(ArgumentNull("context"));
      }
      if mapFile.MapMissing? {
        return Returned(Failed, "Package map file " + packageMapPath + " not found");
      }
      if mapFile.MapMalformed? {
        return Raised(JsonMalformed);
      }
      packageMaps := mapFile.maps;
      var c := context.value;
      if c.project.ProjectMissing? {
        return Returned(Failed, "Project file " + c.projectPath + " not found");
      }
      if c.project.ProjectInvalid? {
        return Returned(Failed, "Invalid project: " + c.projectPath);
      }
      var root := new ProjectRootElement.Open(c.project.groups);
      outcome := Inspect(containsReference, packageMaps, root.itemGroups);
    }

    /** `ApplyImplAsync`: rewrites the project through a freshly opened root
        element and returns the tree it saves. */
    method Apply(context: Option<MigrationContext>, mapFile: MapFile) returns (outcome: StepOutcome, saved: Option<seq<ItemGroup>>)
      ensures ApplyResult(outcome, saved) == ApplySpec(containsReference, referenceEquals, packageMaps, packageMapPath, context, mapFile)
    {
      if context.None? {
        return Raised(ArgumentNull("context")), None;
      }
      if mapFile.MapMissing? {
        return Raised(FileNotFound("Package map file not found", packageMapPath)), None;
      }
      var c := context.value;
      if !c.project.ProjectLoaded? {
        return Returned(Failed, "Invalid project: " + c.projectPath), None;
      }
      var groups := c.project.groups;
      var root := new ProjectRootElement.Open(groups);
      var referencesToAdd := RemoveOutdatedReferences(root);
      ghost var pruned := root.itemGroups;
      var target: nat;
      var found := FirstPackageReferenceGroup(root.itemGroups);
      if found.Some? {
        target := found.value;
      } else {
        root.AppendItemGroup();
        target := |root.itemGroups| - 1;
      }
      assert root.itemGroups == WithTargetGroup(pruned) && target == TargetGroup(pruned);
      AppendReplacements(root, target, referencesToAdd);
      ghost var replaced := root.itemGroups;
      assert replaced == AfterReplacements(containsReference, referenceEquals, packageMaps, groups);
      if !AnalyzerReferenced(root.itemGroups) {
        root.AppendItem(target, AnalyzerItem());
      }
      assert root.itemGroups == Rewrite(containsReference, referenceEquals, packageMaps, groups);
      return Returned(Complete, "Packages updated"), Some(root.itemGroups);
    }

    /** The removal loop over `project.Items`, one top-level group at a time:
        every outdated package reference is removed, the groups this leaves
        without children are removed, and the replacements of each removed
        reference are collected in order. */
    method RemoveOutdatedReferences(root: ProjectRootElement) returns (referencesToAdd: seq<NuGetReference>)
      modifies root
      ensures root.itemGroups == Prune(containsReference, packageMaps, old(root.itemGroups))
      ensures referencesToAdd == Replacements(containsReference, packageMaps, Flatten(old(root.itemGroups)))
    {
      var contains, maps := containsReference, packageMaps;
      ghost var original := root.itemGroups;
      var groupCount := |root.itemGroups|;
      referencesToAdd := [];
      var gi := 0;
      var pos := 0;
      ghost var done: seq<ItemGroup> := [];
      ghost var scanned: seq<Item> := [];
      assert done + original[0..] == original;
      while gi < groupCount
        invariant 0 <= gi <= groupCount == |original|
        invariant done == Prune(contains, maps, original[..gi]) && pos == |done|
        invariant scanned == Flatten(original[..gi])
        invariant root.itemGroups == done + original[gi..]
        invariant referencesToAdd == Replacements(contains, maps, scanned)
      {
        ghost var g := original[gi];
        GroupScanStep(contains, maps, original, gi, done, scanned);
        ghost var next := done + PruneGroup(contains, maps, g);
        ghost var nextScanned := scanned + g.items;
        var groupRemoved, replacements := RemoveOutdatedItems(root, pos);
        SpliceGroup(done, original, gi, PruneGroup(contains, maps, g));
        done := next;
        scanned := nextScanned;
        referencesToAdd := referencesToAdd + replacements;
        if !groupRemoved {
          pos := pos + 1;
        }
        gi := gi + 1;
      }
      assert original[..groupCount] == original;
    }

    /** The removal loop over the children of group `g`: removes its outdated
        package references, and the group itself when that leaves it without
        children; returns the replacements of the removed references. */
    method RemoveOutdatedItems(root: ProjectRootElement, g: nat) returns (groupRemoved: bool, replacements: seq<NuGetReference>)
      requires g < |root.itemGroups|
      modifies root
      ensures groupRemoved <==> LosesAllChildren(containsReference, packageMaps, old(root.itemGroups)[g])
      ensures root.itemGroups == old(root.itemGroups)[..g]
                                 + PruneGroup(containsReference, packageMaps, old(root.itemGroups)[g])
                                 + old(root.itemGroups)[g + 1..]
      ensures replacements == Replacements(containsReference, packageMaps, old(root.itemGroups)[g].items)
    {
      var contains, maps := containsReference, packageMaps;
      ghost var before, rest := root.itemGroups[..g], root.itemGroups[g + 1..];
      var items := root.itemGroups[g].items;
      assert root.itemGroups == before + [ItemGroup(items)] + rest;
      assert items[..0] == [] && items[0..] == items;
      replacements := [];
      var j := 0;
      var k := 0;
      ghost var kept: seq<Item> := [];
      assert kept + items[0..] == items;
      groupRemoved := false;
      while j < |items|
        invariant 0 <= j <= |items|
        invariant kept == KeepItems(contains, maps, items[..j]) && k == |kept|
        invariant replacements == Replacements(contains, maps, items[..j])
        invariant !groupRemoved ==> root.itemGroups == before + [ItemGroup(kept + items[j..])] + rest
        invariant !groupRemoved ==> items == [] || kept + items[j..] != []
        invariant groupRemoved ==> j == |items| && items != [] && kept == [] && root.itemGroups == before + rest
      {
        assert !groupRemoved && root.itemGroups == before + [ItemGroup(kept + items[j..])] + rest;
        ghost var current := ItemGroup(kept + items[j..]);
        ghost var shrunk := ItemGroup(kept + items[j + 1..]);
        ScanPosition(kept, items, j);
        assert root.itemGroups[g] == current;
        var item := root.itemGroups[g].items[k];
        KeepStep(contains, maps, items, j);
        ReplacementsStep(contains, maps, items, j);
        var replacing := MapFor(contains, maps, item);
        if replacing.Some? {
          root.RemoveItem(g, k);
          ReplaceAt(before, current, rest, shrunk);
          assert root.itemGroups == before + [shrunk] + rest;
          if |root.itemGroups[g].items| == 0 {
            RemoveAt(before, shrunk, rest);
            root.RemoveItemGroup(g);
            groupRemoved := true;
          }
          replacements := replacements + replacing.value.netCorePackages;
          assert replacements == Replacements(contains, maps, items[..j + 1]);
          assert !groupRemoved ==> root.itemGroups == before + [shrunk] + rest;
        } else {
          assert replacements == Replacements(contains, maps, items[..j + 1]);
          Regroup(kept, items, j);
          kept := kept + [items[j]];
          k := k + 1;
          assert root.itemGroups == before + [ItemGroup(kept + items[j + 1..])] + rest;
        }
        j := j + 1;
      }
      assert old(root.itemGroups)[g] == ItemGroup(items);
      assert old(root.itemGroups)[..g] == before && old(root.itemGroups)[g + 1..] == rest;
      assert items[..|items|] == items;
      ScanFinished(contains, maps, items, kept, groupRemoved);
    }

    /** The loop over `referencesToAdd.Distinct()`: each reference, once and in
        the order of its first occurrence, becomes a new package reference at
        the end of the target group. */
    method AppendReplacements(root: ProjectRootElement, target: nat, refs: seq<NuGetReference>)
      requires target < |root.itemGroups|
      modifies root
      ensures root.itemGroups == AppendToGroup(old(root.itemGroups), target, ReferenceItems(Distinct(referenceEquals, refs)))
    {
      ghost var start := root.itemGroups;
      var distinct := Distinct(referenceEquals, refs);
      var i := 0;
      AppendNothing(start, target);
      while i < |distinct|
        invariant 0 <= i <= |distinct|
        invariant root.itemGroups == AppendToGroup(start, target, ReferenceItems(distinct[..i]))
      {
        AddedItemsStep(distinct, i);
        AppendTwice(start, target, ReferenceItems(distinct[..i]), [ReferenceItem(distinct[i])]);
        root.AppendItem(target, ReferenceItem(distinct[i]));
        i := i + 1;
      }
      assert distinct[..|distinct|] == distinct;
    }
  }

  /** One step of the scan over the top-level groups: group `gi` sits right
      after the groups already pruned, pruning it in place extends the pruned
      prefix, and the items and replacements scanned grow by its own. */
  lemma GroupScanStep(contains: ContainsReference, maps: seq<PackageMap>, original: seq<ItemGroup>, gi: nat,
                      done: seq<ItemGroup>, scanned: seq<Item>)
    requires gi < |original|
    requires done == Prune(contains, maps, original[..gi]) && scanned == Flatten(original[..gi])
    ensures |done| < |done + original[gi..]| && (done + original[gi..])[|done|] == original[gi]
    ensures done + PruneGroup(contains, maps, original[gi]) == Prune(contains, maps, original[..gi + 1])
    ensures |done + PruneGroup(contains, maps, original[gi])|
            == if LosesAllChildren(contains, maps, original[gi]) then |done| else |done| + 1
    ensures scanned + original[gi].items == Flatten(original[..gi + 1])
    ensures Replacements(contains, maps, scanned + original[gi].items)
            == Replacements(contains, maps, scanned) + Replacements(contains, maps, original[gi].items)
  {
    SpliceAt(done, original, gi);
    PruneStep(contains, maps, original, gi);
    FlattenStep(original, gi);
    ReplacementsConcat(contains, maps, scanned, original[gi].items);
  }

  /** Replacing group `i` of the tree during the scan by what pruning makes
      of it extends the scanned groups. */
  lemma SpliceGroup(done: seq<ItemGroup>, groups: seq<ItemGroup>, i: nat, pruned: seq<ItemGroup>)
    requires i < |groups|
    ensures var tree := done + groups[i..];
            tree[..|done|] + pruned + tree[|done| + 1..] == done + pruned + groups[i + 1..]
  {
    SpliceAt(done, groups, i);
  }

  /** The tree during the scan: the groups already scanned, then group `i`
      of the opened tree, then the groups after it. */
  lemma SpliceAt(done: seq<ItemGroup>, groups: seq<ItemGroup>, i: nat)
    requires i < |groups|
    ensures (done + groups[i..])[..|done|] == done
    ensures |done| < |done + groups[i..]| && (done + groups[i..])[|done|] == groups[i]
    ensures (done + groups[i..])[|done| + 1..] == groups[i + 1..]
  {
    assert (done + groups[i..])[|done| + 1..] == groups[i..][1..];
  }

  lemma ReplaceAt(before: seq<ItemGroup>, x: ItemGroup, rest: seq<ItemGroup>, y: ItemGroup)
    ensures (before + [x] + rest)[|before| := y] == before + [y] + rest
  {
  }

  lemma RemoveAt(before: seq<ItemGroup>, x: ItemGroup, rest: seq<ItemGroup>)
    ensures (before + [x] + rest)[..|before|] + (before + [x] + rest)[|before| + 1..] == before + rest
  {
    assert (before + [x] + rest)[..|before|] == before;
    assert (before + [x] + rest)[|before| + 1..] == rest;
  }

  /** The state the removal loop over one group's children ends in is that
      group after the removal. */
  lemma ScanFinished(contains: ContainsReference, maps: seq<PackageMap>, items: seq<Item>, kept: seq<Item>, groupRemoved: bool)
    requires kept == KeepItems(contains, maps, items)
    requires !groupRemoved ==> items == [] || kept + items[|items|..] != []
    requires groupRemoved ==> items != [] && kept == []
    ensures groupRemoved <==> LosesAllChildren(contains, maps, ItemGroup(items))
    ensures groupRemoved ==> PruneGroup(contains, maps, ItemGroup(items)) == []
    ensures !groupRemoved ==> PruneGroup(contains, maps, ItemGroup(items)) == [ItemGroup(kept + items[|items|..])]
  {
    assert items[|items|..] == [];
    assert kept + [] == kept;
  }

  /** The group being scanned holds the kept items, then item `j` onwards. */
  lemma ScanPosition(kept: seq<Item>, items: seq<Item>, j: nat)
    requires j < |items|
    ensures (kept + items[j..])[|kept|] == items[j]
    ensures (kept + items[j..])[..|kept|] + (kept + items[j..])[|kept| + 1..] == kept + items[j + 1..]
    ensures kept + items[j + 1..] == [] ==> kept == [] && j + 1 == |items|
  {
    assert (kept + items[j..])[..|kept|] == kept;
    assert (kept + items[j..])[|kept| + 1..] == items[j + 1..];
  }

  lemma Regroup(kept: seq<Item>, items: seq<Item>, j: nat)
    requires j < |items|
    ensures kept + items[j..] == (kept + [items[j]]) + items[j + 1..]
  {
    assert items[j..] == [items[j]] + items[j + 1..];
  }

  lemma KeepStep(contains: ContainsReference, maps: seq<PackageMap>, items: seq<Item>, j: nat)
    requires j < |items|
    ensures KeepItems(contains, maps, items[..j + 1])
            == KeepItems(contains, maps, items[..j]) + if Outdated(contains, maps, items[j]) then [] else [items[j]]
  {
    assert items[..j + 1][..j] == items[..j];
  }

  lemma ReplacementsStep(contains: ContainsReference, maps: seq<PackageMap>, items: seq<Item>, j: nat)
    requires j < |items|
    ensures Replacements(contains, maps, items[..j + 1])
            == Replacements(contains, maps, items[..j])
               + match MapFor(contains, maps, items[j]) case Some(m) => m.netCorePackages case None => []
  {
    assert items[..j + 1][..j] == items[..j];
  }

  lemma AddedItemsStep(refs: seq<NuGetReference>, i: nat)
    requires i < |refs|
    ensures ReferenceItems(refs[..i + 1]) == ReferenceItems(refs[..i]) + [ReferenceItem(refs[i])]
  {
    assert refs[..i + 1] == refs[..i] + [refs[i]];
    ReferenceItemsSnoc(refs[..i], refs[i]);
  }

  lemma ReferenceItemsSnoc(refs: seq<NuGetReference>, r: NuGetReference)
    ensures ReferenceItems(refs + [r]) == ReferenceItems(refs) + [ReferenceItem(r)]
  {
    assert (refs + [r])[..|refs|] == refs;
  }

  lemma PruneStep(contains: ContainsReference, maps: seq<PackageMap>, groups: seq<ItemGroup>, i: nat)
    requires i < |groups|
    ensures Prune(contains, maps, groups[..i + 1]) == Prune(contains, maps, groups[..i]) + PruneGroup(contains, maps, groups[i])
  {
    assert groups[..i + 1][..i] == groups[..i];
  }

  lemma FlattenStep(groups: seq<ItemGroup>, i: nat)
    requires i < |groups|
    ensures Flatten(groups[..i + 1]) == Flatten(groups[..i]) + groups[i].items
  {
    assert groups[..i + 1][..i] == groups[..i];
  }
}
