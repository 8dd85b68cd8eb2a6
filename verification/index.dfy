/**
 * The registry of known packages: name -> versions (ordered) -> dependencies,
 * filled by repeated registration calls.
 */
module VersionIndex {
  import opened Versions
  import opened Bounds

  type PackageName = string

  /** Dependencies of one package version: dependency name -> accepted range. */
  type Deps = map<PackageName, Range>

  /**
   * `available_versions` for any registry of this shape: the registered
   * versions of `name`, newest first, and nothing for an unknown name.
   */
  function AvailableVersionsOf<D>(packages: map<PackageName, map<SemVer, D>>, name: PackageName): (r: seq<SemVer>)
    ensures StrictlyDescending(r)
    ensures forall v :: v in r <==> name in packages && v in packages[name]
    ensures name !in packages ==> r == []
  {
    if name in packages then Descending(packages[name].Keys) else []
  }

  /** One `(&str, R)` element of the `deps` slice given to `add_deps`. */
  datatype DepSpec = DepSpec(name: PackageName, start: Bound, end: Bound)

  predicate SpecsConvertible(specs: seq<DepSpec>) {
    forall i :: 0 <= i < |specs| ==> NoBumpOverflow(specs[i].start, specs[i].end)
  }

  function SpecNames(specs: seq<DepSpec>): set<PackageName> {
    set i | 0 <= i < |specs| :: specs[i].name
  }

  /** The dependency map after the `insert`s of `add_deps`, in slice order. */
  function InsertAll(deps: Deps, specs: seq<DepSpec>): (r: Deps)
    requires SpecsConvertible(specs)
    decreases |specs|
  {
    if specs == [] then deps
    else
      var last := specs[|specs| - 1];
      InsertAll(deps, specs[..|specs| - 1])[last.name := RangeFromBounds(last.start, last.end)]
  }

  /** Inserting one more entry of the slice extends the fold by one update. */
  lemma InsertAllStep(deps: Deps, specs: seq<DepSpec>, i: nat)
    requires SpecsConvertible(specs) && i < |specs|
    ensures SpecsConvertible(specs[..i]) && SpecsConvertible(specs[..i + 1])
    ensures InsertAll(deps, specs[..i + 1]) == InsertAll(deps, specs[..i])[specs[i].name := RangeFromBounds(specs[i].start, specs[i].end)]
  {
    assert specs[..i + 1][..i] == specs[..i];
  }

  /** Every named dependency is present, and so is every dependency that was there before. */
  lemma {:induction false} InsertAllKeys(deps: Deps, specs: seq<DepSpec>)
    requires SpecsConvertible(specs)
    ensures InsertAll(deps, specs).Keys == deps.Keys + SpecNames(specs)
    decreases |specs|
  {
    if specs != [] {
      var init := specs[..|specs| - 1];
      InsertAllKeys(deps, init);
      assert SpecNames(specs) == SpecNames(init) + {specs[|specs| - 1].name} by {
        forall n | n in SpecNames(specs) ensures n in SpecNames(init) + {specs[|specs| - 1].name} {
          var i :| 0 <= i < |specs| && specs[i].name == n;
          if i < |specs| - 1 {
            assert init[i] == specs[i];
          }
        }
        forall n | n in SpecNames(init) ensures n in SpecNames(specs) {
          var i :| 0 <= i < |init| && init[i].name == n;
          assert specs[i] == init[i];
        }
      }
    }
  }

  /** A dependency not named in the slice keeps its earlier range. */
  lemma {:induction false} InsertAllKeepsOthers(deps: Deps, specs: seq<DepSpec>, name: PackageName)
    requires SpecsConvertible(specs)
    requires name in deps && name !in SpecNames(specs)
    ensures name in InsertAll(deps, specs) && InsertAll(deps, specs)[name] == deps[name]
    decreases |specs|
  {
    if specs != [] {
      var init := specs[..|specs| - 1];
      assert name != specs[|specs| - 1].name;
      assert name !in SpecNames(init) by {
        forall j | 0 <= j < |init| ensures init[j].name != name {
          assert init[j] == specs[j];
        }
      }
      InsertAllKeepsOthers(deps, init, name);
    }
  }

  /** For a name given several times, the last entry of the slice wins. */
  lemma {:induction false} InsertAllLastWins(deps: Deps, specs: seq<DepSpec>, i: nat)
    requires SpecsConvertible(specs)
    requires i < |specs|
    requires forall j :: i < j < |specs| ==> specs[j].name != specs[i].name
    ensures specs[i].name in InsertAll(deps, specs)
    ensures InsertAll(deps, specs)[specs[i].name] == RangeFromBounds(specs[i].start, specs[i].end)
    decreases |specs|
  {
    if i < |specs| - 1 {
      var init := specs[..|specs| - 1];
      assert init[i] == specs[i];
      InsertAllLastWins(deps, init, i);
    }
  }

  /** Global registry of known packages (fig8's `Index`). */
  class Index {
    var packages: map<PackageName, map<SemVer, Deps>>

    /** `Index::new`: no packages. */
    constructor ()
      ensures packages == map[]
      ensures forall name :: AvailableVersions(name) == []
    {
      packages := map[];
    }

    /** `available_versions`. */
    function AvailableVersions(name: PackageName): (r: seq<SemVer>)
      reads this
      ensures StrictlyDescending(r)
      ensures forall v :: v in r <==> name in packages && v in packages[name]
    {
      AvailableVersionsOf(packages, name)
    }

    /** What is recorded for `package` at `version`, or the default empty map. */
    function DepsAt(package: PackageName, version: SemVer): Deps
      reads this
    {
      if package in packages && version in packages[package] then packages[package][version] else map[]
    }

    /** `add_deps`: registers (package, version), then inserts each dependency in order. */
    method AddDeps(package: PackageName, version: SemVer, specs: seq<DepSpec>)
      requires SpecsConvertible(specs)
      modifies this
      ensures package in packages && version in packages[package]
      ensures packages[package][version] == InsertAll(old(DepsAt(package, version)), specs)
      ensures packages.Keys == old(packages).Keys + {package}
      ensures forall p :: p in old(packages) && p != package ==> packages[p] == old(packages)[p]
      ensures package in old(packages) ==> packages[package].Keys == old(packages)[package].Keys + {version}
      ensures package !in old(packages) ==> packages[package].Keys == {version}
      ensures forall v :: package in old(packages) && v in old(packages)[package] && v != version ==>
                packages[package][v] == old(packages)[package][v]
    {
      // entry(package).or_default().entry(version).or_default()
      var versions: map<SemVer, Deps> := if package in packages then packages[package] else map[];
      var deps0: Deps := if version in versions then versions[version] else map[];
      var deps := deps0;
      packages := packages[package := versions[version := deps]];
      var i := 0;
      while i < |specs|
        invariant 0 <= i <= |specs|
        invariant deps == InsertAll(deps0, specs[..i])
        invariant packages == old(packages)[package := versions[version := deps0]]
      {
        InsertAllStep(deps0, specs, i);
        deps := deps[specs[i].name := RangeFromBounds(specs[i].start, specs[i].end)];
        i := i + 1;
      }
      assert specs[..|specs|] == specs;
      packages := packages[package := versions[version := deps]];
    }
  }
}
