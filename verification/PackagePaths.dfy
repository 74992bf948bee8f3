// packageCovers (cmd/govulncheckgate/main.go:239-244): the relation between the package of an
// exception and the package of a finding.
module PackagePaths {
  import opened Strings

  predicate PackageCovers(exceptionPkg: string, findingPkg: string) {
    exceptionPkg == findingPkg || HasPrefix(findingPkg, exceptionPkg + "/")
  }

  function Components(pkg: string): seq<string> {
    Split(pkg, '/')
  }

  // The textual test compares whole path components, for all strings.
  lemma CoversIffComponentPrefix(a: string, b: string)
    ensures PackageCovers(a, b) <==> Components(a) <= Components(b)
  {
    var p, q := Components(a), Components(b);
    if HasPrefix(b, a + "/") {
      var rest := b[|a| + 1..];
      assert b == a + ['/'] + rest;
      SplitAcross(a, rest, '/');
    }
    if p <= q {
      if |p| == |q| {
        SplitInjective(a, b, '/');
      } else {
        assert q == p + q[|p|..];
        JoinAcross(p, q[|p|..], '/');
        JoinOfSplit(a, '/');
        JoinOfSplit(b, '/');
        assert a + "/" <= b;
      }
    }
  }

  // Hence the relation is a partial order.
  lemma CoversReflexive(a: string)
    ensures PackageCovers(a, a)
  {
  }

  lemma CoversAntisymmetric(a: string, b: string)
    requires PackageCovers(a, b) && PackageCovers(b, a)
    ensures a == b
  {
    CoversIffComponentPrefix(a, b);
    CoversIffComponentPrefix(b, a);
    SplitInjective(a, b, '/');
  }

  lemma CoversTransitive(a: string, b: string, c: string)
    requires PackageCovers(a, b) && PackageCovers(b, c)
    ensures PackageCovers(a, c)
  {
    CoversIffComponentPrefix(a, b);
    CoversIffComponentPrefix(b, c);
    CoversIffComponentPrefix(a, c);
  }
}
