/** Properties of the package updater step as a whole: what Initialize
    reports about a project against what Apply does to it. */
module StepProperties {
  import opened Runtime
  import opened Text
  import opened MsBuild
  import opened PackageMaps
  import opened PackageRewrite
  import opened RewriteProperties
  import opened PackageUpdater

  /** Initialize counts exactly the items that Apply treats as outdated. */
  lemma {:induction false} OutdatedItemsIff(contains: ContainsReference, maps: seq<PackageMap>, items: seq<Item>, x: Item)
    ensures x in OutdatedItems(contains, maps, items) <==> x in items && Outdated(contains, maps, x)
    decreases |items|
  {
    if items != [] {
      var init := items[..|items| - 1];
      assert items == init + [items[|items| - 1]];
      OutdatedIff(contains, maps, items[|items| - 1]);
      OutdatedItemsIff(contains, maps, init, x);
    }
  }

  lemma {:induction false} OutdatedAndKeptPartition(contains: ContainsReference, maps: seq<PackageMap>, items: seq<Item>)
    ensures |OutdatedItems(contains, maps, items)| + |KeepItems(contains, maps, items)| == |items|
    decreases |items|
  {
    if items != [] {
      OutdatedIff(contains, maps, items[|items| - 1]);
      OutdatedAndKeptPartition(contains, maps, items[..|items| - 1]);
    }
  }

  /** The number of outdated packages Initialize reports is the number of
      items Apply removes from the project. */
  lemma OutdatedCountMatchesRemovals(contains: ContainsReference, maps: seq<PackageMap>, groups: seq<ItemGroup>)
    ensures |OutdatedItems(contains, maps, Flatten(groups))|
            == |Flatten(groups)| - |Flatten(Prune(contains, maps, groups))|
  {
    PruneFlatten(contains, maps, groups);
    OutdatedAndKeptPartition(contains, maps, Flatten(groups));
  }

  lemma NoOutdatedItems(contains: ContainsReference, maps: seq<PackageMap>, items: seq<Item>)
    ensures OutdatedItems(contains, maps, items) == [] <==> forall x :: x in items ==> !Outdated(contains, maps, x)
  {
    forall x ensures x in OutdatedItems(contains, maps, items) <==> x in items && Outdated(contains, maps, x) {
      OutdatedItemsIff(contains, maps, items, x);
    }
    if OutdatedItems(contains, maps, items) != [] {
      assert OutdatedItems(contains, maps, items)[0] in OutdatedItems(contains, maps, items);
    }
  }

  /** Initialize reports an opened project complete exactly when nothing in
      it is outdated and the analyzer package is referenced under its exact name. */
  lemma InspectCompleteIff(contains: ContainsReference, maps: seq<PackageMap>, groups: seq<ItemGroup>)
    ensures Inspect(contains, maps, groups).status == Complete
            <==> (forall x :: x in Flatten(groups) ==> !Outdated(contains, maps, x)) && ExactAnalyzerReferenced(groups)
  {
    NoOutdatedItems(contains, maps, Flatten(groups));
  }

  /** When Initialize reports the step complete, Apply succeeds and saves
      the project unchanged. */
  lemma InitializeCompleteMeansApplyChangesNothing(contains: ContainsReference, same: ReferenceEquality, mapPath: string,
                                                    context: Option<MigrationContext>, mapFile: MapFile)
    requires InitializeOutcome(contains, mapPath, context, mapFile).Returned?
    requires InitializeOutcome(contains, mapPath, context, mapFile).status == Complete
    ensures context.Some? && mapFile.MapLoaded? && context.value.project.ProjectLoaded?
    ensures ApplySpec(contains, same, mapFile.maps, mapPath, context, mapFile)
            == ApplyResult(Returned(Complete, "Packages updated"), Some(context.value.project.groups))
  {
    var maps, groups := mapFile.maps, context.value.project.groups;
    InspectCompleteIff(contains, maps, groups);
    var x :| x in Flatten(groups) && ExactAnalyzerReference(x);
    assert IsAnalyzerReference(x);
    NothingOutdatedRewrite(contains, same, maps, groups);
  }

  /** Whenever Initialize fails, Apply does not report success and saves nothing. */
  lemma ApplyFailsWhereInitializeFails(contains: ContainsReference, same: ReferenceEquality, maps: seq<PackageMap>, mapPath: string,
                                       context: Option<MigrationContext>, mapFile: MapFile)
    requires InitializeOutcome(contains, mapPath, context, mapFile).Returned?
    requires InitializeOutcome(contains, mapPath, context, mapFile).status == Failed
    ensures ApplySpec(contains, same, maps, mapPath, context, mapFile).saved.None?
    ensures ApplySpec(contains, same, maps, mapPath, context, mapFile).outcome.Returned? ==>
              ApplySpec(contains, same, maps, mapPath, context, mapFile).outcome.status == Failed
  {
  }

  /** An invalid project fails both calls with the same details. */
  lemma InvalidProjectFailsAlike(contains: ContainsReference, same: ReferenceEquality, maps: seq<PackageMap>, mapPath: string,
                                 projectPath: string, loaded: seq<PackageMap>)
    ensures var context := Some(MigrationContext(projectPath, ProjectInvalid));
            InitializeOutcome(contains, mapPath, context, MapLoaded(loaded))
            == ApplySpec(contains, same, maps, mapPath, context, MapLoaded(loaded)).outcome
            == Returned(Failed, "Invalid project: " + projectPath)
  {
  }

  /** Apply saves a project exactly when it reports success, and then the
      saved tree is the rewrite of the opened one. */
  lemma ApplySavesIffComplete(contains: ContainsReference, same: ReferenceEquality, maps: seq<PackageMap>, mapPath: string,
                              context: Option<MigrationContext>, mapFile: MapFile)
    ensures var r := ApplySpec(contains, same, maps, mapPath, context, mapFile);
            r.saved.Some? <==> r.outcome == Returned(Complete, "Packages updated")
    ensures var r := ApplySpec(contains, same, maps, mapPath, context, mapFile);
            r.saved.Some? <==> context.Some? && !mapFile.MapMissing? && context.value.project.ProjectLoaded?
  {
  }

  /** After Apply, nothing is outdated and the analyzer package is referenced
      under its exact name, so Initialize on the saved project reports the
      step complete, provided the maps never mark a replacement or the
      analyzer as outdated, never offer the analyzer as a replacement, and any
      analyzer reference already present is spelled exactly. */
  lemma ApplyThenInspectComplete(contains: ContainsReference, same: ReferenceEquality, maps: seq<PackageMap>, groups: seq<ItemGroup>)
    requires ReplacementsCurrent(contains, maps) && AnalyzerNeverOutdated(contains, maps) && NoAnalyzerReplacement(maps)
    requires forall x :: x in Flatten(groups) && IsAnalyzerReference(x) ==> x.itemSpec == AnalyzerPackageName
    ensures Inspect(contains, maps, Rewrite(contains, same, maps, groups)) == Returned(Complete, "No package updates needed")
  {
    var saved := Rewrite(contains, same, maps, groups);
    RewriteLeavesNothingOutdated(contains, same, maps, groups);
    NoOutdatedItems(contains, maps, Flatten(saved));
    AnalyzerPresentAfterRewrite(contains, same, maps, groups);
    var x :| x in Flatten(saved) && IsAnalyzerReference(x);
    var before, after := RewriteFlattenSplit(contains, same, maps, groups);
    var refs := AddedReferences(contains, same, maps, groups);
    AddedReferencesAreReplacements(contains, same, maps, groups);
    if x in before || x in after {
      KeptIff(contains, maps, Flatten(groups), x);
      assert ExactAnalyzerReference(x);
    } else if x in ReferenceItems(refs) {
      assert false;
    } else {
      assert x == AnalyzerItem();
      assert ExactAnalyzerReference(x);
    }
  }

  /** The same at the level of the step: a successful Apply followed by
      Initialize on the saved project, with the same map file, reports the
      step complete. */
  lemma ApplyThenInitializeComplete(contains: ContainsReference, same: ReferenceEquality, mapPath: string, projectPath: string,
                                    maps: seq<PackageMap>, groups: seq<ItemGroup>)
    requires ReplacementsCurrent(contains, maps) && AnalyzerNeverOutdated(contains, maps) && NoAnalyzerReplacement(maps)
    requires forall x :: x in Flatten(groups) && IsAnalyzerReference(x) ==> x.itemSpec == AnalyzerPackageName
    ensures var applied := ApplySpec(contains, same, maps, mapPath, Some(MigrationContext(projectPath, ProjectLoaded(groups))), MapLoaded(maps));
            applied.saved.Some? &&
            InitializeOutcome(contains, mapPath, Some(MigrationContext(projectPath, ProjectLoaded(applied.saved.value))), MapLoaded(maps))
            == Returned(Complete, "No package updates needed")
  {
    var saved := Rewrite(contains, same, maps, groups);
    var context := Some(MigrationContext(projectPath, ProjectLoaded(groups)));
    assert ApplySpec(contains, same, maps, mapPath, context, MapLoaded(maps)).saved == Some(saved);
    assert InitializeOutcome(contains, mapPath, Some(MigrationContext(projectPath, ProjectLoaded(saved))), MapLoaded(maps))
           == Inspect(contains, maps, saved);
    ApplyThenInspectComplete(contains, same, maps, groups);
  }

  /** Initialize looks for the analyzer reference under its exact name, while
      Apply accepts any spelling that differs only in case. A project whose
      only analyzer reference is spelled differently is reported incomplete
      by Initialize, yet Apply saves it unchanged, so the step never completes. */
  lemma CaseMismatchNeverConverges(contains: ContainsReference, same: ReferenceEquality, maps: seq<PackageMap>, groups: seq<ItemGroup>)
    requires forall x :: x in Flatten(groups) ==> !Outdated(contains, maps, x)
    requires AnalyzerReferenced(groups) && !ExactAnalyzerReferenced(groups)
    ensures Rewrite(contains, same, maps, groups) == groups
    ensures Inspect(contains, maps, groups) == Returned(Incomplete, "Reference to package " + AnalyzerPackageName + " needed")
  {
    NothingOutdatedRewrite(contains, same, maps, groups);
    NoOutdatedItems(contains, maps, Flatten(groups));
  }

  /** A project that shows it: one reference to the analyzer package with its
      name in upper case, and no package maps. */
  function UpperCaseAnalyzerProject(): seq<ItemGroup> {
    [ItemGroup([Item(PackageReferenceType, Upper(AnalyzerPackageName), [])])]
  }

  lemma UpperCaseAnalyzerProjectNeverConverges(contains: ContainsReference, same: ReferenceEquality)
    ensures Rewrite(contains, same, [], UpperCaseAnalyzerProject()) == UpperCaseAnalyzerProject()
    ensures Inspect(contains, [], UpperCaseAnalyzerProject()).status == Incomplete
  {
    var groups := UpperCaseAnalyzerProject();
    var x := groups[0].items[0];
    assert Flatten(groups) == [x] by {
      assert groups[..0] == [];
    }
    UpperIdempotent(AnalyzerPackageName);
    UpperIdempotent(PackageReferenceType);
    assert IsAnalyzerReference(x);
    assert x.itemSpec[1] != AnalyzerPackageName[1];
    assert !ExactAnalyzerReferenced(groups);
    CaseMismatchNeverConverges(contains, same, [], groups);
  }
}
