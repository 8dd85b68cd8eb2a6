/**
 * The dependency provider: the versions of each package identity
 * (`list_versions`) and the edges of an identity at a version
 * (`get_dependencies`, `from_deps`), over a registry that records, per
 * package version, mandatory dependencies and optional feature bundles.
 */
module Provider {
  import opened Wrappers
  import opened Versions
  import opened VersionIndex
  import opened Buckets
  import opened Packages

  /** One dependency: the accepted range and the features requested of it. */
  datatype Dep = Dep(range: Range, features: seq<string>)

  /** What is recorded for one package version. */
  datatype Record = Record(mandatory: map<string, Dep>, optional: map<string, map<string, Dep>>)

  /** The registry read by the provider: name -> version -> record. */
  type Registry = map<string, map<SemVer, Record>>

  /** pubgrub's `Dependencies`. */
  datatype Dependencies = Unknown | Known(constraints: map<Package, Range>)

  /** The versions of `vs` that lie in `r`, in their original order. */
  function FilterIn(vs: seq<SemVer>, r: Range): (out: seq<SemVer>)
    ensures forall v :: v in out <==> v in vs && Contains(r, v)
    ensures StrictlyDescending(vs) ==> StrictlyDescending(out)
  {
    if vs == [] then []
    else
      var rest := FilterIn(vs[1..], r);
      assert StrictlyDescending(vs) ==> StrictlyDescending(vs[1..]) && forall x :: x in rest ==> Less(x, vs[0]) by {
        if StrictlyDescending(vs) {
          forall i, j | 0 <= i < j < |vs[1..]| ensures Less(vs[1..][j], vs[1..][i]) {
            assert vs[1..][i] == vs[i + 1] && vs[1..][j] == vs[j + 1];
          }
          forall x | x in rest ensures Less(x, vs[0]) {
            var k :| 0 <= k < |vs[1..]| && vs[1..][k] == x;
            assert vs[k + 1] == x;
          }
        }
      }
      if Contains(r, vs[0]) then [vs[0]] + rest else rest
  }

  /** The registered versions of one bucket, newest first. */
  function BucketMembers(reg: Registry, b: Bucket): (r: seq<SemVer>)
    requires b.bucket + 1 < U32_LIMIT
    ensures StrictlyDescending(r)
    ensures forall v :: v in r <==> b.name in reg && v in reg[b.name] && v.major == b.bucket
  {
    FilterIn(AvailableVersionsOf(reg, b.name), BucketRange(b.bucket))
  }

  /** `list_versions` panics unless this holds (bucket + 1 overflow, or a Proxy lookup `unwrap`). */
  predicate ListDefined(reg: Registry, p: Package) {
    match p
    case BucketPkg(b) => b.bucket + 1 < U32_LIMIT
    case Feature(b, _) => b.bucket + 1 < U32_LIMIT
    case Proxy(source, target, _) =>
      source.0.name in reg && source.1 in reg[source.0.name] && target in reg[source.0.name][source.1].mandatory
  }

  /** The range a Proxy's source records for its target. */
  function ProxyDepRange(reg: Registry, p: Package): Range
    requires p.Proxy? && ListDefined(reg, p)
  {
    reg[p.source.0.name][p.source.1].mandatory[p.target].range
  }

  /**
   * `list_versions`: for a Bucket or Feature, the registered versions of its
   * bucket, newest first; for a Proxy, one version per bucket of the target
   * that holds a registered version inside the source's range for it, namely
   * that bucket's x.0.0, newest first.
   */
  function ListVersions(reg: Registry, p: Package): (r: seq<SemVer>)
    requires ListDefined(reg, p)
    ensures StrictlyDescending(r)
    ensures p.BucketPkg? ==> forall v :: v in r <==> p.pkg.name in reg && v in reg[p.pkg.name] && v.major == p.pkg.bucket
    ensures p.Feature? ==> forall v :: v in r <==> p.base.name in reg && v in reg[p.base.name] && v.major == p.base.bucket
    ensures p.Proxy? ==> forall v :: v in r <==>
      exists w :: p.target in reg && w in reg[p.target] && Contains(ProxyDepRange(reg, p), w) && v == BucketVersion(w)
  {
    match p
    case BucketPkg(b) => BucketMembers(reg, b)
    case Feature(b, _) => BucketMembers(reg, b)
    case Proxy(source, target, _) =>
      var inRange := FilterIn(AvailableVersionsOf(reg, target), ProxyDepRange(reg, p));
      CollapseMonotone(inRange, true);
      Collapse(inRange)
  }

  // ---- from_deps ----

  /** The dependency ranges can be handed to `single_bucket_spanned` without overflow. */
  predicate DepsBumpable(deps: map<string, Dep>) {
    forall n :: n in deps ==> BumpableLow(deps[n].range)
  }

  /** What a dependency asks for: each of its features, or the package itself when it names none. */
  function Requests(dep: Dep): set<Option<string>> {
    if |dep.features| == 0 then {None} else set f | f in dep.features :: Some(f)
  }

  /** The package name an edge identity points at. */
  function EdgeName(p: Package): string {
    match p
    case BucketPkg(b) => b.name
    case Feature(b, _) => b.name
    case Proxy(_, target, _) => target
  }

  /** What an edge identity asks of its package: the package itself, or one feature. */
  function RequestOf(p: Package): Option<string> {
    match p
    case BucketPkg(_) => None
    case Feature(_, f) => Some(f)
    case Proxy(_, _, f) => f
  }

  /** A bucket of `name`, or its feature when one is requested. */
  function BucketOrFeature(b: Bucket, request: Option<string>): Package {
    if request.None? then BucketPkg(b) else Feature(b, request.value)
  }

  /** The identity of one requested edge of `pkg`@`version` toward `name`. */
  function EdgeTarget(pkg: Bucket, version: SemVer, name: string, dep: Dep, request: Option<string>): (p: Package)
    requires BumpableLow(dep.range)
    ensures EdgeName(p) == name && RequestOf(p) == request
  {
    EdgeTargetIn(pkg, version, name, SingleBucketSpanned(dep.range), request)
  }

  function EdgeTargetIn(pkg: Bucket, version: SemVer, name: string, spanned: Option<u32>, request: Option<string>): (p: Package)
    ensures EdgeName(p) == name && RequestOf(p) == request
  {
    match spanned
    case Some(bucket) => BucketOrFeature(Bucket(name, bucket), request)
    case None => Proxy((pkg, version), name, request)
  }

  /** The range on such an edge: the original one for a bucket, any version for a proxy. */
  function EdgeRange(dep: Dep): Range
    requires BumpableLow(dep.range)
  {
    if SingleBucketSpanned(dep.range).Some? then dep.range else Any()
  }

  /** The requests of every dependency. */
  function RequestMap(deps: map<string, Dep>): (m: map<string, set<Option<string>>>)
    ensures m.Keys == deps.Keys
  {
    map name | name in deps :: Requests(deps[name])
  }

  /** One edge per (dependency, request) pair of `requests`. */
  function EdgeMap(pkg: Bucket, version: SemVer, deps: map<string, Dep>, requests: map<string, set<Option<string>>>): map<Package, Range>
    requires DepsBumpable(deps) && requests.Keys <= deps.Keys
  {
    map name, request | name in requests && request in requests[name]
      :: EdgeTarget(pkg, version, name, deps[name], request) := EdgeRange(deps[name])
  }

  /**
   * `from_deps`: one edge per request of every dependency. Edges toward
   * different names never share an identity, and the edges toward one name
   * all carry the same range, so collecting them into a map does not depend
   * on the order of iteration.
   */
  function FromDeps(pkg: Bucket, version: SemVer, deps: map<string, Dep>): (r: map<Package, Range>)
    requires DepsBumpable(deps)
    ensures forall p :: p in r ==> IsEdgeOf(pkg, version, deps, p) && r[p] == EdgeRange(deps[EdgeName(p)])
    ensures forall name, request :: name in deps && request in Requests(deps[name]) ==>
      EdgeTarget(pkg, version, name, deps[name], request) in r
  {
    var r := EdgeMap(pkg, version, deps, RequestMap(deps));
    assert forall p :: p in r ==> IsEdgeOf(pkg, version, deps, p) && r[p] == EdgeRange(deps[EdgeName(p)]) by {
      forall p | p in r ensures IsEdgeOf(pkg, version, deps, p) && r[p] == EdgeRange(deps[EdgeName(p)]) {
        EdgeMapSound(pkg, version, deps, p);
      }
    }
    assert forall name, request :: name in deps && request in Requests(deps[name]) ==>
      EdgeTarget(pkg, version, name, deps[name], request) in r by {
      forall name, request | name in deps && request in Requests(deps[name])
        ensures EdgeTarget(pkg, version, name, deps[name], request) in r
      {
        EdgeMapComplete(pkg, version, deps, name, request);
      }
    }
    r
  }

  /** p is the edge of one request of one dependency in `deps`. */
  predicate IsEdgeOf(pkg: Bucket, version: SemVer, deps: map<string, Dep>, p: Package)
    requires DepsBumpable(deps)
  {
    && EdgeName(p) in deps
    && RequestOf(p) in Requests(deps[EdgeName(p)])
    && p == EdgeTarget(pkg, version, EdgeName(p), deps[EdgeName(p)], RequestOf(p))
  }

  lemma EdgeMapSound(pkg: Bucket, version: SemVer, deps: map<string, Dep>, p: Package)
    requires DepsBumpable(deps)
    requires p in EdgeMap(pkg, version, deps, RequestMap(deps))
    ensures IsEdgeOf(pkg, version, deps, p)
    ensures EdgeMap(pkg, version, deps, RequestMap(deps))[p] == EdgeRange(deps[EdgeName(p)])
  {
    var requests := RequestMap(deps);
    var name, request :| name in requests && request in requests[name] && p == EdgeTarget(pkg, version, name, deps[name], request);
  }

  lemma EdgeMapComplete(pkg: Bucket, version: SemVer, deps: map<string, Dep>, name: string, request: Option<string>)
    requires DepsBumpable(deps)
    requires name in deps && request in Requests(deps[name])
    ensures EdgeTarget(pkg, version, name, deps[name], request) in EdgeMap(pkg, version, deps, RequestMap(deps))
  {
  }

  /** The edges of a constraint map toward one package name. */
  function EdgesToward(r: map<Package, Range>, name: string): set<Package> {
    set p | p in r && EdgeName(p) == name
  }

  /** The edges toward one dependency are those of its requests. */
  lemma EdgesTowardName(pkg: Bucket, version: SemVer, deps: map<string, Dep>, name: string)
    requires DepsBumpable(deps) && name in deps
    ensures EdgesToward(FromDeps(pkg, version, deps), name)
         == set request | request in Requests(deps[name]) :: EdgeTarget(pkg, version, name, deps[name], request)
  {
    var r := FromDeps(pkg, version, deps);
    var image := set request | request in Requests(deps[name]) :: EdgeTarget(pkg, version, name, deps[name], request);
    forall p | p in EdgesToward(r, name) ensures p in image {
      assert IsEdgeOf(pkg, version, deps, p);
    }
    forall p | p in image ensures p in EdgesToward(r, name) {
      var request :| request in Requests(deps[name]) && p == EdgeTarget(pkg, version, name, deps[name], request);
      assert p in r;
    }
  }

  /**
   * A dependency with no feature gives exactly one edge: to the bucket that
   * holds its whole range, with that range, or else to a Proxy of this
   * package version with any version.
   */
  lemma FromDepsNoFeature(pkg: Bucket, version: SemVer, deps: map<string, Dep>, name: string)
    requires DepsBumpable(deps) && name in deps && deps[name].features == []
    ensures var r := FromDeps(pkg, version, deps);
      var dep := deps[name];
      match SingleBucketSpanned(dep.range)
      case Some(b) =>
        && EdgesToward(r, name) == {BucketPkg(Bucket(name, b))}
        && r[BucketPkg(Bucket(name, b))] == dep.range
        && forall v :: Contains(dep.range, v) ==> v.major == b
      case None =>
        && EdgesToward(r, name) == {Proxy((pkg, version), name, None)}
        && r[Proxy((pkg, version), name, None)] == Any()
  {
    var dep := deps[name];
    var edge := EdgeTarget(pkg, version, name, dep, None);
    var image := set request | request in Requests(dep) :: EdgeTarget(pkg, version, name, dep, request);
    assert image == {edge} by {
      assert Requests(dep) == {None};
      forall x | x in image ensures x == edge {
        var request :| request in Requests(dep) && x == EdgeTarget(pkg, version, name, dep, request);
      }
      assert edge in image;
    }
    EdgesTowardName(pkg, version, deps, name);
    var r := FromDeps(pkg, version, deps);
    assert edge in r && r[edge] == EdgeRange(dep);
  }

  lemma {:induction false} SomeImageSize(names: set<string>)
    ensures |set f | f in names :: Some(f)| == |names|
    decreases |names|
  {
    if names != {} {
      var x :| x in names;
      var rest := names - {x};
      SomeImageSize(rest);
      assert (set f | f in names :: Some(f)) == (set f | f in rest :: Some(f)) + {Some(x)};
    }
  }

  lemma {:induction false} EdgeImageSize(pkg: Bucket, version: SemVer, name: string, dep: Dep, s: set<Option<string>>)
    requires BumpableLow(dep.range)
    ensures |set request | request in s :: EdgeTarget(pkg, version, name, dep, request)| == |s|
    decreases |s|
  {
    if s != {} {
      var x :| x in s;
      var rest := s - {x};
      EdgeImageSize(pkg, version, name, dep, rest);
      var edge := EdgeTarget(pkg, version, name, dep, x);
      var restImage := set request | request in rest :: EdgeTarget(pkg, version, name, dep, request);
      assert edge !in restImage;
      assert (set request | request in s :: EdgeTarget(pkg, version, name, dep, request)) == restImage + {edge};
    }
  }

  /** A dependency asks for one thing per distinct feature, or for the package itself. */
  lemma RequestsCount(dep: Dep)
    ensures |Requests(dep)| == if dep.features == [] then 1 else |set f | f in dep.features|
  {
    if dep.features != [] {
      var names := set f | f in dep.features;
      SomeImageSize(names);
      assert Requests(dep) == set f | f in names :: Some(f);
    }
  }

  /**
   * A dependency with k distinct features gives exactly k edges, one per
   * feature (to the feature of the bucket that holds the range, or to a
   * Proxy carrying the feature), and no edge to the base package.
   */
  lemma FromDepsFeatures(pkg: Bucket, version: SemVer, deps: map<string, Dep>, name: string)
    requires DepsBumpable(deps) && name in deps && deps[name].features != []
    ensures var r := FromDeps(pkg, version, deps);
      var dep := deps[name];
      && |EdgesToward(r, name)| == |set f | f in dep.features|
      && (forall p :: p in EdgesToward(r, name) ==>
            || (p.Feature? && p.feature in dep.features)
            || (p.Proxy? && p.proxyFeature.Some? && p.proxyFeature.value in dep.features))
      && forall f :: f in dep.features ==>
         match SingleBucketSpanned(dep.range)
         case Some(b) => Feature(Bucket(name, b), f) in r && r[Feature(Bucket(name, b), f)] == dep.range
         case None => Proxy((pkg, version), name, Some(f)) in r && r[Proxy((pkg, version), name, Some(f))] == Any()
  {
    var dep := deps[name];
    var image := set request | request in Requests(dep) :: EdgeTarget(pkg, version, name, dep, request);
    EdgeImageSize(pkg, version, name, dep, Requests(dep));
    RequestsCount(dep);
    EdgesTowardName(pkg, version, deps, name);
    var r := FromDeps(pkg, version, deps);
    assert EdgesToward(r, name) == image;
    forall p | p in EdgesToward(r, name)
      ensures || (p.Feature? && p.feature in dep.features)
              || (p.Proxy? && p.proxyFeature.Some? && p.proxyFeature.value in dep.features)
    {
      var request :| request in Requests(dep) && p == EdgeTarget(pkg, version, name, dep, request);
    }
    forall f | f in dep.features
      ensures var edge := EdgeTarget(pkg, version, name, dep, Some(f)); edge in r && r[edge] == EdgeRange(dep)
    {
      assert Some(f) in Requests(dep);
    }
  }

  // ---- get_dependencies ----

  /** The Bucket, or Feature of it, that a Proxy at version v points at. */
  function ProxyTarget(target: string, feature: Option<string>, v: SemVer): Package {
    BucketOrFeature(Bucket(target, v.major), feature)
  }

  /**
   * The single edge of a Proxy at version v: toward the target's bucket v.major
   * (or that bucket's feature), with that bucket's range intersected with the
   * range the source recorded for the target.
   */
  function ProxyEdge(target: string, feature: Option<string>, sourceRecord: Record, v: SemVer): (r: map<Package, Range>)
    requires target in sourceRecord.mandatory && v.major + 1 < U32_LIMIT
    ensures r.Keys == {ProxyTarget(target, feature, v)}
    ensures forall w :: Contains(r[ProxyTarget(target, feature, v)], w) <==>
      w.major == v.major && Contains(sourceRecord.mandatory[target].range, w)
  {
    map[ProxyTarget(target, feature, v) := Intersection(BucketRange(v.major), sourceRecord.mandatory[target].range)]
  }

  /** `get_dependencies` panics unless this holds (`unwrap`s and u32 overflow). */
  predicate Defined(reg: Registry, p: Package, v: SemVer) {
    var name := PkgName(p);
    name in reg && v in reg[name] ==>
      match p
      case BucketPkg(_) => DepsBumpable(reg[name][v].mandatory)
      case Feature(_, f) =>
        f in reg[name][v].optional ==> DepsBumpable(reg[name][v].optional[f]) && v.patch + 1 < U32_LIMIT
      case Proxy(source, target, _) =>
        source.1 in reg[name] ==> target in reg[name][source.1].mandatory && v.major + 1 < U32_LIMIT
  }

  /**
   * `get_dependencies`, as the source has it. For every identity the record of
   * `pkg_name` at the asked version must exist (for a Proxy: the SOURCE
   * package's record at the proxy's own version), else Unknown. A Bucket gets
   * its mandatory edges; a Proxy its one edge; a Feature its feature's edges
   * plus its base bucket pinned to exactly this version.
   */
  function GetDependencies(reg: Registry, p: Package, v: SemVer): (r: Dependencies)
    requires Defined(reg, p, v)
    ensures r.Unknown? <==>
      || PkgName(p) !in reg
      || v !in reg[PkgName(p)]
      || (p.Proxy? && p.source.1 !in reg[PkgName(p)])
      || (p.Feature? && p.feature !in reg[PkgName(p)][v].optional)
    ensures r.Known? && p.BucketPkg? ==> r.constraints == FromDeps(p.pkg, v, reg[p.pkg.name][v].mandatory)
    ensures r.Known? && p.Proxy? ==>
      && r.constraints.Keys == {ProxyTarget(p.target, p.proxyFeature, v)}
      && forall w :: Contains(r.constraints[ProxyTarget(p.target, p.proxyFeature, v)], w) <==>
           w.major == v.major && Contains(reg[PkgName(p)][p.source.1].mandatory[p.target].range, w)
    ensures r.Known? && p.Feature? ==>
      var own := FromDeps(p.base, v, reg[p.base.name][v].optional[p.feature]);
      && r.constraints.Keys == own.Keys + {BucketPkg(p.base)}
      && (forall w :: Contains(r.constraints[BucketPkg(p.base)], w) <==> w == v)
      && forall q :: q in own && q != BucketPkg(p.base) ==> r.constraints[q] == own[q]
  {
    var name := PkgName(p);
    if name !in reg then Unknown
    else
      var allVersions := reg[name];
      if v !in allVersions then Unknown
      else
        var deps := allVersions[v];
        match p
        case BucketPkg(pkg) => Known(FromDeps(pkg, v, deps.mandatory))
        case Proxy(source, target, feature) =>
          if source.1 !in allVersions then Unknown
          else Known(ProxyEdge(target, feature, allVersions[source.1], v))
        case Feature(base, feature) =>
          if feature !in deps.optional then Unknown
          else Known(FromDeps(base, v, deps.optional[feature])[BucketPkg(base) := Exact(v)])
  }

  /** A Feature at v always requires its own base bucket at exactly v. */
  lemma FeaturePinsBase(reg: Registry, base: Bucket, feature: string, v: SemVer)
    requires Defined(reg, Feature(base, feature), v)
    requires GetDependencies(reg, Feature(base, feature), v).Known?
    ensures var c := GetDependencies(reg, Feature(base, feature), v).constraints;
      BucketPkg(base) in c && Contains(c[BucketPkg(base)], v)
      && forall w :: w != v ==> !Contains(c[BucketPkg(base)], w)
  {
  }

  // ---- the proxy lookup, corrected ----

  /** The corrected provider panics unless this holds. */
  predicate DefinedFixed(reg: Registry, p: Package, v: SemVer) {
    if p.Proxy? then
      var name := PkgName(p);
      name in reg && p.source.1 in reg[name] ==> p.target in reg[name][p.source.1].mandatory && v.major + 1 < U32_LIMIT
    else Defined(reg, p, v)
  }

  /**
   * `get_dependencies` with the Proxy case reading only the source's record at
   * the source version, which is all it uses; other identities as before.
   */
  function GetDependenciesFixed(reg: Registry, p: Package, v: SemVer): (r: Dependencies)
    requires DefinedFixed(reg, p, v)
    ensures !p.Proxy? ==> r == GetDependencies(reg, p, v)
    ensures p.Proxy? ==> (r.Unknown? <==> PkgName(p) !in reg || p.source.1 !in reg[PkgName(p)])
    ensures p.Proxy? && r.Known? ==>
      && r.constraints.Keys == {ProxyTarget(p.target, p.proxyFeature, v)}
      && forall w :: Contains(r.constraints[ProxyTarget(p.target, p.proxyFeature, v)], w) <==>
           w.major == v.major && Contains(reg[PkgName(p)][p.source.1].mandatory[p.target].range, w)
  {
    match p
    case Proxy(source, target, feature) =>
      var name := source.0.name;
      if name !in reg || source.1 !in reg[name] then Unknown
      else Known(ProxyEdge(target, feature, reg[name][source.1], v))
    case _ => GetDependencies(reg, p, v)
  }

  /**
   * With the correction, every version a Proxy lists resolves to exactly one
   * edge, and that edge's range holds a registered version of the target.
   */
  lemma ProxyVersionsResolve(reg: Registry, p: Package, v: SemVer)
    requires p.Proxy? && ListDefined(reg, p) && DefinedFixed(reg, p, v)
    requires v in ListVersions(reg, p)
    ensures var r := GetDependenciesFixed(reg, p, v);
      && r.Known?
      && r.constraints.Keys == {ProxyTarget(p.target, p.proxyFeature, v)}
      && exists w :: p.target in reg && w in reg[p.target] && Contains(r.constraints[ProxyTarget(p.target, p.proxyFeature, v)], w)
  {
    var w :| p.target in reg && w in reg[p.target] && Contains(ProxyDepRange(reg, p), w) && v == BucketVersion(w);
    var r := GetDependenciesFixed(reg, p, v);
    assert Contains(r.constraints[ProxyTarget(p.target, p.proxyFeature, v)], w);
  }

  /** The registry of the counterexample below: b@1.0.0 needs d in [2.0.0, 4.0.0). */
  function ExampleRegistry(): Registry {
    map[
      "b" := map[SemVer(1, 0, 0) := Record(map["d" := Dep(Between(SemVer(2, 0, 0), SemVer(4, 0, 0)), [])], map[])],
      "d" := map[SemVer(2, 0, 0) := Record(map[], map[]), SemVer(3, 0, 0) := Record(map[], map[])]]
  }

  lemma ExampleProxyEdge()
    ensures var c := GetDependencies(ExampleRegistry(), BucketPkg(Bucket("b", 1)), SemVer(1, 0, 0));
      c.Known? && Proxy((Bucket("b", 1), SemVer(1, 0, 0)), "d", None) in c.constraints
  {
    var reg: Registry := ExampleRegistry();
    var d: Dep := reg["b"][SemVer(1, 0, 0)].mandatory["d"];
    SingleBucketSpannedIff(d.range);
    assert Contains(d.range, SemVer(2, 0, 0)) && Contains(d.range, SemVer(3, 0, 0));
    FromDepsNoFeature(Bucket("b", 1), SemVer(1, 0, 0), reg["b"][SemVer(1, 0, 0)].mandatory, "d");
  }

  lemma ExampleProxyListed()
    ensures var proxy := Proxy((Bucket("b", 1), SemVer(1, 0, 0)), "d", None);
      ListDefined(ExampleRegistry(), proxy) && SemVer(2, 0, 0) in ListVersions(ExampleRegistry(), proxy)
  {
    var reg: Registry := ExampleRegistry();
    var d: Dep := reg["b"][SemVer(1, 0, 0)].mandatory["d"];
    assert Contains(d.range, SemVer(2, 0, 0));
    assert SemVer(2, 0, 0) == BucketVersion(SemVer(2, 0, 0));
  }

  lemma ExampleProxyUnknown()
    ensures var proxy := Proxy((Bucket("b", 1), SemVer(1, 0, 0)), "d", None);
      ListDefined(ExampleRegistry(), proxy)
      && forall v :: v in ListVersions(ExampleRegistry(), proxy) ==> GetDependencies(ExampleRegistry(), proxy, v) == Unknown
  {
    var reg: Registry := ExampleRegistry();
    var proxy := Proxy((Bucket("b", 1), SemVer(1, 0, 0)), "d", None);
    var d: Dep := reg["b"][SemVer(1, 0, 0)].mandatory["d"];
    forall v | v in ListVersions(reg, proxy) ensures GetDependencies(reg, proxy, v) == Unknown {
      var w :| w in reg["d"] && Contains(d.range, w) && v == BucketVersion(w);
      assert v !in reg["b"];
    }
  }

  /**
   * As written, a Proxy can list versions none of which has Known edges:
   * b@1.0.0 depends on d in [2.0.0, 4.0.0), d has 2.0.0 and 3.0.0, and the
   * proxy's versions 3.0.0 and 2.0.0 are looked up among b's versions.
   */
  lemma ProxyVersionsUnknownAsWritten()
    ensures var reg := ExampleRegistry();
      var b1 := Bucket("b", 1);
      var proxy := Proxy((b1, SemVer(1, 0, 0)), "d", None);
      && GetDependencies(reg, BucketPkg(b1), SemVer(1, 0, 0)).Known?
      && proxy in GetDependencies(reg, BucketPkg(b1), SemVer(1, 0, 0)).constraints
      && ListDefined(reg, proxy)
      && ListVersions(reg, proxy) != []
      && forall v :: v in ListVersions(reg, proxy) ==> GetDependencies(reg, proxy, v) == Unknown
  {
    ExampleProxyEdge();
    ExampleProxyListed();
    ExampleProxyUnknown();
  }
}
