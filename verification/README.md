# Multiversion dependency provider, modelled in Dafny

This project models the data layer of two pubgrub dependency-resolution
experiments that let one package be selected at several major versions at once.

**Multiversion features** (`multiversion-features/src/multiversion_optional_deps.rs`):
- Every package is split into *buckets*, one per major version; "a#1" stands for 1.0.0 <= v < 2.0.0.
- The solver sees three kinds of identities:
  - a **Bucket**;
  - a **Feature** of a bucket ("a#1/f");
  - a **Proxy**. A Proxy is the edge from one concrete package version toward a dependency whose range spans several buckets.
- The provider answers two questions:
  - *which versions does an identity have* (`list_versions`, with `bucket_versions` collapsing a version list to one version per bucket);
  - *what are its dependencies at a version* (`get_dependencies`, built from `from_deps` and `single_bucket_spanned`).
- Identities also have a text form (`from_str`, `Display`).

**Fig. 8 index** (`fig8-multiversion/src/index.rs`): a mutable registry with the following operations:
- `Index::new` starts it empty;
- `add_deps` registers a package version and inserts its dependencies one by one;
- `available_versions` lists a package's versions newest first;
- `range_from_bounds` converts Rust's `RangeBounds` into a version range, and uses `bump` to turn an inclusive end or an exclusive start into a half-open bound.

How the source is represented:
- Versions are `u32` triples with the lexicographic order.
- A version range is a single normalised half-open interval. It is `Empty`, or `[lo, hi)` with `hi` possibly unbounded. Equal contents therefore mean equal values (`Versions.RangeExtensional`), which is what the source's `range == &intersection` test relies on.
- Constructors follow pubgrub's semantics:
  - `any` is `[0.0.0, ∞)`;
  - `strictly_lower_than(0.0.0)` is empty;
  - `between(a, b)` is empty unless `a < b`;
  - `exact(v)` is `[v, bump_patch(v))`.
- Rust panics become preconditions:
  - an `unwrap` on a missing registry entry;
  - `u32` overflow in `bump_patch`, in `bump_major` and in `bucket + 1`. This panics when overflow checks are on (debug builds) and wraps to 0 when they are off (release builds). The model excludes both outcomes through its `requires` clauses.
- The fig. 8 `Index` is a class whose `packages` map `AddDeps` updates.
- The registry read by the multiversion-features provider is a value, `Provider.Registry`. It maps name to version to a record of mandatory dependencies and named optional feature bundles.
- Lazy iterators are modelled as the sequences they yield.

Modules: `Wrappers`, `Versions`, `Bounds`, `VersionIndex`, `Decimal`, `Packages`, `Buckets` and `Provider`, one file each.

## Model

| member | source | states |
|---|---|---|
| Versions.Bump | fig8-multiversion/src/index.rs:72-74 | the bumped version is the immediate successor: greater than v, and every w > v is at least the result |
| Versions.BumpMajor | multiversion-features/src/multiversion_optional_deps.rs:274 | the result exceeds v, and exactly the versions whose major is at most v's lie below it |
| Versions.BucketVersion | multiversion-features/src/multiversion_optional_deps.rs:150-153 | same major as v, and the least version of that major line |
| Versions.Contains | multiversion-features/src/multiversion_optional_deps.rs:106 | `Range::contains`: membership in the half-open interval [lo, hi); its meaning is fixed by the constructors' contracts, `Versions.ContainsConvex` and `Versions.RangeExtensional` |
| Versions.ContainsConvex | multiversion-features/src/multiversion_optional_deps.rs:125 | a range holds every version between two of its members (it is a single interval) |
| Versions.RangeExtensional | multiversion-features/src/multiversion_optional_deps.rs:276 | two ranges with the same versions are equal, so `==` on ranges compares contents |
| Versions.Any | fig8-multiversion/src/index.rs:60 | contains every version |
| Versions.HigherThan | fig8-multiversion/src/index.rs:63 | contains exactly the versions at or above v |
| Versions.StrictlyLowerThan | fig8-multiversion/src/index.rs:61 | contains exactly the versions strictly below v |
| Versions.Between | fig8-multiversion/src/index.rs:64-68 | contains exactly a <= w < b |
| Versions.Exact | multiversion-features/src/multiversion_optional_deps.rs:219 | contains exactly v |
| Versions.Intersection | multiversion-features/src/multiversion_optional_deps.rs:275 | contains exactly the versions of both ranges |
| Versions.Lowest | multiversion-features/src/multiversion_optional_deps.rs:273 | None iff the range is empty; otherwise a member that is at most every member |
| Versions.Descending | fig8-multiversion/src/index.rs:34-35 | the keys of a version map walked in reverse: strictly descending, same members, same count |
| Bounds.RangeFromBounds | fig8-multiversion/src/index.rs:57-70 | for all nine bound combinations, v is in the range iff v satisfies the start bound and the end bound |
| Bounds.InclusiveEnd | fig8-multiversion/src/index.rs:62-64 | an inclusive end keeps e and excludes bump(e) |
| Bounds.ExclusiveStart | fig8-multiversion/src/index.rs:66-68 | an exclusive start drops s and admits bump(s) |
| VersionIndex.AvailableVersionsOf | fig8-multiversion/src/index.rs:29-36 | strictly newest first, exactly the registered versions of the name, empty for an unknown name |
| VersionIndex.Index.constructor | fig8-multiversion/src/index.rs:22-27 | no packages, and no versions for any name |
| VersionIndex.Index.AvailableVersions | fig8-multiversion/src/index.rs:29-36 | strictly newest first, exactly the versions registered in the index for the name |
| VersionIndex.Index.AddDeps | fig8-multiversion/src/index.rs:38-54 | (package, version) is registered even with no deps; its map is the earlier one (or empty) with the slice inserted in order; other packages and versions are unchanged |
| VersionIndex.InsertAllKeys | fig8-multiversion/src/index.rs:51-53 | after the inserts the keys are the earlier keys plus every name in the slice |
| VersionIndex.InsertAllKeepsOthers | fig8-multiversion/src/index.rs:51-53 | a dependency not named in the slice keeps its earlier range |
| VersionIndex.InsertAllLastWins | fig8-multiversion/src/index.rs:51-53 | for a name given several times, the range of its last entry wins |
| Decimal.ParseShow | multiversion-features/src/multiversion_optional_deps.rs:58 | parsing the decimal text of a u32 gives the number back |
| Decimal.Show | multiversion-features/src/multiversion_optional_deps.rs:92 | `{}` of a number: non-empty, all digits, no leading zero; `Decimal.ParseShow` reads it back |
| Decimal.ParseU32 | multiversion-features/src/multiversion_optional_deps.rs:58 | `u32::from_str`: accepts only an optional '+' and at least one digit; `Decimal.ParseShow` inverts `Show` |
| Decimal.ParseU32Examples | multiversion-features/src/multiversion_optional_deps.rs:63 | "", "+" and "-1" are rejected; "+7" and "007" are accepted as 7 |
| Decimal.ParseU32Limit | multiversion-features/src/multiversion_optional_deps.rs:58 | 4294967295 is accepted and 4294967296 is rejected |
| Packages.PkgName | multiversion-features/src/multiversion_optional_deps.rs:37-43 | no contract of its own: `Packages.Display` states that the text of every identity starts with it followed by '#', and `Provider.GetDependencies` that it names the record consulted |
| Packages.Cut | multiversion-features/src/multiversion_optional_deps.rs:50-51 | the first part holds no separator; there is a rest iff the separator occurs, and then the text is first + separator + rest |
| Packages.FromStr | multiversion-features/src/multiversion_optional_deps.rs:46-74 | an error iff the text has no '#'; never a Proxy; the name has no '#'; a feature has neither '#' nor '/' |
| Packages.FromStrDisplay | multiversion-features/src/multiversion_optional_deps.rs:46-94 | printing a Bucket or Feature (name without '#', feature without '#' or '/') and parsing the text gives it back, with no panic |
| Packages.LeadingZeroNotReproduced | multiversion-features/src/multiversion_optional_deps.rs:55-59 | "a#01" parses to bucket a#1, which prints as "a#1" |
| Packages.BucketDisplay | multiversion-features/src/multiversion_optional_deps.rs:90-94 | for a name without '#', the text splits at its first '#' into the name and a string that parses back to the bucket |
| Packages.Display | multiversion-features/src/multiversion_optional_deps.rs:76-88 | every identity, Proxy included, prints its bucket text first: the text starts with `pkg_name` and '#', and cutting at the first '#' gives `pkg_name` back when the name has no '#' |
| Buckets.BucketRange | multiversion-features/src/multiversion_optional_deps.rs:103 | contains exactly the versions whose major is the bucket |
| Buckets.BucketVersions | multiversion-features/src/multiversion_optional_deps.rs:133-148 | the loop's output equals the specification `Collapse`, and holds exactly the bucket versions of the input |
| Buckets.CollapseMembers | multiversion-features/src/multiversion_optional_deps.rs:133-134 | the output holds exactly the bucket versions of the input's elements |
| Buckets.CollapseMonotone | multiversion-features/src/multiversion_optional_deps.rs:137-147 | on ascending or descending input the output is strictly ordered the same way, with no major twice |
| Buckets.CollapseExample | multiversion-features/src/multiversion_optional_deps.rs:133-134 | buckets 3,3,2,2,2,1 collapse to 3.0.0, 2.0.0, 1.0.0 |
| Buckets.CollapseUnorderedRepeats | multiversion-features/src/multiversion_optional_deps.rs:137-138 | without ordered input a bucket is emitted twice (1.0.0, 2.0.0, 1.0.0) |
| Buckets.SingleBucketSpanned | multiversion-features/src/multiversion_optional_deps.rs:269-283 | None for an empty range; Some gives the lowest version's major, and every member has that major |
| Buckets.SingleBucketSpannedIff | multiversion-features/src/multiversion_optional_deps.rs:269-283 | for a non-empty range: Some iff every member has the lowest version's major; None iff two members differ in major |
| Provider.FilterIn | multiversion-features/src/multiversion_optional_deps.rs:105-106 | keeps exactly the versions in the range and preserves strict descent |
| Provider.BucketMembers | multiversion-features/src/multiversion_optional_deps.rs:102-108 | strictly descending; exactly the registered versions of the name with the bucket's major |
| Provider.ListVersions | multiversion-features/src/multiversion_optional_deps.rs:96-130 | strictly newest first. Bucket/Feature: exactly the registered versions of the bucket. Proxy: exactly the x.0.0 of every target bucket holding a registered version in the source's range |
| Provider.EdgeTarget | multiversion-features/src/multiversion_optional_deps.rs:236-261 | the edge's identity points at the dependency's name and carries exactly the request (base or one feature) |
| Provider.FromDeps | multiversion-features/src/multiversion_optional_deps.rs:228-267 | every key is the edge of one request of one dependency and carries that dependency's edge range; every request of every dependency has its edge |
| Provider.EdgesTowardName | multiversion-features/src/multiversion_optional_deps.rs:229-265 | the edges toward a dependency are exactly the images of its requests |
| Provider.FromDepsNoFeature | multiversion-features/src/multiversion_optional_deps.rs:249-264 | a dependency without features gives exactly one edge: to the single bucket spanned, with its range, or else to a Proxy with any version |
| Provider.RequestsCount | multiversion-features/src/multiversion_optional_deps.rs:232-264 | one request with no features, otherwise one per distinct feature |
| Provider.FromDepsFeatures | multiversion-features/src/multiversion_optional_deps.rs:232-264 | k distinct features give exactly k edges, all Feature or feature-Proxy, none to the base; each with the range or `any` |
| Provider.ProxyEdge | multiversion-features/src/multiversion_optional_deps.rs:193-210 | one key, the target bucket (or its feature) of v's major; its range holds exactly the versions of that major in the recorded range |
| Provider.GetDependencies | multiversion-features/src/multiversion_optional_deps.rs:166-225 | Unknown iff the name, the version, the proxy's source version or the feature is missing; otherwise the edges of each identity kind, with a Feature's base pinned to exactly v |
| Provider.FeaturePinsBase | multiversion-features/src/multiversion_optional_deps.rs:212-222 | a Known Feature at v requires its base bucket at v and at no other version |
| Provider.GetDependenciesFixed | multiversion-features/src/multiversion_optional_deps.rs:185-210 | Bucket and Feature answers agree with `GetDependencies`; a Proxy is Unknown iff its source version is unregistered, and otherwise has the single key of the target bucket (or its feature) of v's major, whose range holds exactly the versions of that major in the source's recorded range |
| Provider.ProxyVersionsResolve | multiversion-features/src/multiversion_optional_deps.rs:110-128 | with the corrected lookup, every version a Proxy lists gives Known with one edge whose range holds a registered target version |
| Provider.ProxyVersionsUnknownAsWritten | multiversion-features/src/multiversion_optional_deps.rs:171-192 | a registry where a Proxy lists versions but every one of them is Unknown |

## Left out

- `choose_package_version` is left out. It delegates to pubgrub's `choose_package_with_fewest_versions`, which is not part of this model. The versions it counts are `Provider.ListVersions`.
- The pubgrub solver, its `Range` beyond the single intervals built here, and error reporting are not part of this model.
- The multiversion-features `Index`, `Dep` and `add_feature` definitions (`multiversion-features/src/index.rs`) are not part of this model. The provider reads them as the value `Provider.Registry`, assumed to list versions the way fig. 8's `available_versions` does.
- Lazy iterators (`filter`, `flat_map`, `take`, `Either`) are modelled as the finite sequences or maps they produce.
- Panics are preconditions, not modelled outcomes:
  - `unwrap` on a missing source record or target entry in `list_versions` and `get_dependencies`;
  - `u32` overflow in `bump_patch`, `bump_major` and `bucket + 1`. With overflow checks this panics. Without them it wraps: for example `..=(1,0,u32::MAX)` would become `strictly_lower_than((1,0,0))`, and bucket `u32::MAX` would get an empty bucket range. Neither wrapped result is modelled;
  - `bucket.parse().unwrap()` in `from_str`.
- Proxies created for feature requests are resolved against the source's mandatory dependencies only, as the source does. Under `ListDefined` or `Defined` such a lookup is a panic when the dependency is only optional.
- `Provider.FromDeps`: a `Vec` of features with repeats is modelled as its set. The map the source collects is the same, but this is not stated per repeat.
- `Packages.FromStr`: the error message text is kept but not specified.
- Parsing is not the inverse of printing on all text. "a#01" and "a#+1" print back differently (`Packages.LeadingZeroNotReproduced`), and a name containing '#' or a feature containing '#' or '/' does not survive a round trip. Only printing-then-parsing is proved (`Packages.FromStrDisplay`).
- The commented-out tests and the demo drivers (`main.rs`, `src/bin/*`) are not modelled.

## Findings

| source | as written | input that shows it | evidently intended | confidence | as-written member | corrected member |
|---|---|---|---|---|---|---|
| multiversion-features/src/multiversion_optional_deps.rs:171-192 | for a Proxy, `get_dependencies` first looks up `pkg_name` (the source package) at the asked version, which is a target bucket version such as 2.0.0, and answers Unknown when the source has no such version | b@1.0.0 depends on d in [2.0.0, 4.0.0); d has 2.0.0 and 3.0.0; the proxy b#1@1.0.0->d lists 3.0.0 and 2.0.0, and both are Unknown | the Proxy case reads only the source's record at the source version, so every listed proxy version resolves to its one edge | high (derived from the code, not executed) | Provider.GetDependencies, Provider.ProxyVersionsUnknownAsWritten | Provider.GetDependenciesFixed, Provider.ProxyVersionsResolve |
