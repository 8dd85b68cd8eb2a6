/**
 * Package identities seen by the solver (the closed sum type `Package`) and
 * their textual form: "name#bucket" and "name#bucket/feature".
 */
module Packages {
  import opened Wrappers
  import opened Versions
  import opened Decimal

  /** One major-version line of a package: bucket 1 stands for 1.0.0 <= v < 2.0.0. */
  datatype Bucket = Bucket(name: string, bucket: u32)

  datatype Package =
    /** "a#1" */
    | BucketPkg(pkg: Bucket)
    /** One dependency edge from a concrete source version toward `target`. */
    | Proxy(source: (Bucket, SemVer), target: string, proxyFeature: Option<string>)
    /** The optional feature `feature` of a bucket: "a#1/feat". */
    | Feature(base: Bucket, feature: string)

  /** `pkg_name`: the registry key whose records answer for this identity. */
  function PkgName(p: Package): string {
    match p
    case BucketPkg(b) => b.name
    case Proxy(source, _, _) => source.0.name
    case Feature(base, _) => base.name
  }

  /** Rust's `split(c)` taken one step: the text before the first c, and what follows it. */
  function Cut(s: string, c: char): (r: (string, Option<string>))
    ensures c !in r.0
    ensures r.1.None? <==> c !in s
    ensures r.1.None? ==> r.0 == s
    ensures r.1.Some? ==> s == r.0 + [c] + r.1.value
  {
    if s == [] then ([], None)
    else if s[0] == c then ([], Some(s[1..]))
    else
      var r := Cut(s[1..], c);
      ([s[0]] + r.0, r.1)
  }

  lemma {:induction false} CutAt(a: string, c: char, b: string)
    requires c !in a
    ensures Cut(a + [c] + b, c) == (a, Some(b))
  {
    if a != [] {
      assert (a + [c] + b)[1..] == a[1..] + [c] + b;
      CutAt(a[1..], c, b);
      assert [a[0]] + a[1..] == a;
    } else {
      assert (a + [c] + b)[1..] == b;
    }
  }

  /** The text `from_str` hands to `u32::from_str` for the bucket, if it gets that far. */
  function BucketText(s: string): Option<string> {
    var rest := Cut(s, '#').1;
    if rest.None? then None else Some(Cut(Cut(rest.value, '#').0, '/').0)
  }

  /** `from_str` unwraps the bucket parse: it panics unless this holds. */
  predicate BucketParses(s: string) {
    BucketText(s).Some? ==> ParseU32(BucketText(s).value).Some?
  }

  /**
   * `from_str`: "n#b" is a Bucket and "n#b/f" a Feature (text after a second
   * '#' or a second '/' is ignored, as Rust's `split` yields it as a later
   * part); a string without '#' is an error, and no string gives a Proxy.
   */
  function FromStr(s: string): (r: Result<Package, string>)
    requires BucketParses(s)
    ensures r.Err? <==> '#' !in s
    ensures r.Ok? ==> r.value.BucketPkg? || r.value.Feature?
    ensures r.Ok? ==> '#' !in PkgName(r.value)
    ensures r.Ok? && r.value.Feature? ==> '#' !in r.value.feature && '/' !in r.value.feature
  {
    var (name, rest) := Cut(s, '#');
    match rest
    case None => Err(s + " is not a valid package name")
    case Some(afterHash) =>
      var version := Cut(afterHash, '#').0;
      var (bucketText, featRest) := Cut(version, '/');
      var bucket := ParseU32(bucketText).value;
      match featRest
      case None => Ok(BucketPkg(Bucket(name, bucket)))
      case Some(afterSlash) => Ok(Feature(Bucket(name, bucket), Cut(afterSlash, '/').0))
  }

  /** `Display for Bucket`: "name#bucket", which reads back as the name and the bucket. */
  function BucketDisplay(b: Bucket): (r: string)
    ensures '#' !in b.name ==>
      var (name, rest) := Cut(r, '#');
      name == b.name && rest.Some? && ParseU32(rest.value) == Some(b.bucket)
  {
    var r := b.name + "#" + Show(b.bucket);
    assert '#' !in b.name ==> Cut(r, '#') == (b.name, Some(Show(b.bucket))) by {
      if '#' !in b.name {
        assert r == b.name + ['#'] + Show(b.bucket);
        CutAt(b.name, '#', Show(b.bucket));
      }
    }
    ParseShow(b.bucket);
    r
  }

  /** Text that starts with a bucket's text begins with its name and a '#'. */
  lemma BucketTextFirst(b: Bucket, tail: string)
    ensures var r := BucketDisplay(b) + tail;
      && |b.name| < |r| && r[..|b.name| + 1] == b.name + "#"
      && ('#' !in b.name ==> Cut(r, '#').0 == b.name)
  {
    var after := Show(b.bucket) + tail;
    assert BucketDisplay(b) + tail == b.name + ['#'] + after;
    if '#' !in b.name {
      CutAt(b.name, '#', after);
    }
  }

  /** `Display for SemanticVersion`: "major.minor.patch". */
  function SemVerDisplay(v: SemVer): string {
    Show(v.major) + "." + Show(v.minor) + "." + Show(v.patch)
  }

  /**
   * `Display for Package`: every identity prints its bucket text first, so
   * the text up to the first '#' is `pkg_name`.
   */
  function Display(p: Package): (r: string)
    ensures |PkgName(p)| < |r| && r[..|PkgName(p)| + 1] == PkgName(p) + "#"
    ensures '#' !in PkgName(p) ==> Cut(r, '#').0 == PkgName(p)
  {
    match p
    case BucketPkg(b) =>
      BucketTextFirst(b, "");
      assert BucketDisplay(b) + "" == BucketDisplay(b);
      BucketDisplay(b)
    case Proxy(source, target, None) =>
      var tail := "@" + SemVerDisplay(source.1) + "->" + target;
      BucketTextFirst(source.0, tail);
      BucketDisplay(source.0) + tail
    case Proxy(source, target, Some(feat)) =>
      var tail := "@" + SemVerDisplay(source.1) + "/" + feat + "->" + target;
      BucketTextFirst(source.0, tail);
      BucketDisplay(source.0) + tail
    case Feature(base, feat) =>
      BucketTextFirst(base, "/" + feat);
      BucketDisplay(base) + ("/" + feat)
  }

  /**
   * Printing a Bucket or Feature and parsing the text gives it back, provided
   * the name holds no '#' and the feature neither '#' nor '/'.
   */
  lemma {:induction false} FromStrDisplay(p: Package)
    requires p.BucketPkg? || p.Feature?
    requires '#' !in PkgName(p)
    requires p.Feature? ==> '#' !in p.feature && '/' !in p.feature
    ensures BucketParses(Display(p))
    ensures FromStr(Display(p)) == Ok(p)
  {
    var b := if p.BucketPkg? then p.pkg else p.base;
    var digits := Show(b.bucket);
    ShowHasNoSeparator(b.bucket, '#');
    ShowHasNoSeparator(b.bucket, '/');
    ParseShow(b.bucket);
    var afterHash := if p.BucketPkg? then digits else digits + "/" + p.feature;
    assert Display(p) == b.name + ['#'] + afterHash;
    CutAt(b.name, '#', afterHash);
    if p.Feature? {
      assert '#' !in afterHash;
      CutAt(digits, '/', p.feature);
      assert digits + "/" + p.feature == digits + ['/'] + p.feature;
    }
  }

  /** Parsing is not injective on text: a leading zero is dropped when printed again. */
  lemma LeadingZeroNotReproduced()
    ensures BucketParses("a#01")
    ensures FromStr("a#01") == Ok(BucketPkg(Bucket("a", 1)))
    ensures Display(FromStr("a#01").value) == "a#1"
  {
    CutAt("a", '#', "01");
    assert "a#01" == "a" + ['#'] + "01";
    assert Cut("01", '#') == ("01", None);
    assert Cut("01", '/') == ("01", None);
    assert "01"[..1] == "0";
    assert DigitsValue("0") == 0;
    assert DigitsValue("01") == 1;
  }
}
