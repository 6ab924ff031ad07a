/** NuGet references and the loaded package maps that say which references
    are outdated and what replaces them. */
module PackageMaps {
  import opened Runtime

  /** A package reference `name@version`. */
  datatype NuGetReference = NuGetReference(name: string, version: string)

  /** `NuGetReference.Equals`, the equality `Distinct()` compares with; its
      definition is not part of this model, so it is a parameter. */
  type ReferenceEquality = (NuGetReference, NuGetReference) -> bool

  /** `Equals` is reflexive, as every .NET equality must be. */
  ghost predicate Reflexive(same: ReferenceEquality) {
    forall r :: same(r, r)
  }

  /** `Equals` is transitive, as the .NET contract for `Equals` requires. */
  ghost predicate Transitive(same: ReferenceEquality) {
    forall a, b, c :: same(a, b) && same(b, c) ==> same(a, c)
  }

  /** One entry of the package map file: a named set of .NET Framework
      packages and the .NET packages that replace them. */
  datatype PackageMap = PackageMap(
    packageSetName: string,
    netFrameworkPackages: seq<NuGetReference>,
    netCorePackages: seq<NuGetReference>)

  /** `NuGetPackageMap.ContainsReference(name, version)`; its definition is
      not part of this model, so it is a parameter. */
  type ContainsReference = (PackageMap, string, Option<string>) -> bool

  /** `LINQ Any`: some loaded map contains the reference. */
  predicate AnyMapContains(contains: ContainsReference, maps: seq<PackageMap>, name: string, version: Option<string>) {
    exists m :: m in maps && contains(m, name, version)
  }

  /** `maps.FirstOrDefault(m => m.ContainsReference(name, version))`: the
      first map, in load order, that contains the reference. */
  function FirstMatch(contains: ContainsReference, maps: seq<PackageMap>, name: string, version: Option<string>)
    : Option<PackageMap>
  {
    if maps == [] then None
    else if contains(maps[0], name, version) then Some(maps[0])
    else FirstMatch(contains, maps[1..], name, version)
  }

  /** A map is found exactly when some loaded map contains the reference. */
  lemma {:induction false} FirstMatchIff(contains: ContainsReference, maps: seq<PackageMap>, name: string, version: Option<string>)
    ensures FirstMatch(contains, maps, name, version).Some? <==> AnyMapContains(contains, maps, name, version)
    decreases |maps|
  {
    if maps != [] && !contains(maps[0], name, version) {
      FirstMatchIff(contains, maps[1..], name, version);
      assert maps == [maps[0]] + maps[1..];
    }
  }

  /** The map found is the first one, in load order, that contains the reference. */
  lemma {:induction false} FirstMatchIsFirst(contains: ContainsReference, maps: seq<PackageMap>, name: string, version: Option<string>)
    returns (i: nat)
    requires FirstMatch(contains, maps, name, version).Some?
    ensures i < |maps| && maps[i] == FirstMatch(contains, maps, name, version).value && contains(maps[i], name, version)
    ensures forall j :: 0 <= j < i ==> !contains(maps[j], name, version)
    decreases |maps|
  {
    if contains(maps[0], name, version) {
      i := 0;
    } else {
      var k := FirstMatchIsFirst(contains, maps[1..], name, version);
      i := k + 1;
      forall j | 0 <= j < i ensures !contains(maps[j], name, version) {
        if j > 0 {
          assert maps[j] == maps[1..][j - 1];
        }
      }
    }
  }

  /** A package that some loaded map offers as a replacement. */
  predicate IsReplacement(maps: seq<PackageMap>, r: NuGetReference) {
    exists m :: m in maps && r in m.netCorePackages
  }
}
