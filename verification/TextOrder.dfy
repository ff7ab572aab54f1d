/** The byte order of strings, as a binary collation or a string comparison decides it. */
module TextOrder {

  /** The strings agree below k, where a ends first or has the smaller character. */
  predicate BeforeAt(a: string, b: string, k: nat) {
    k <= |a| && k < |b| && a[..k] == b[..k] && (k == |a| || a[k] < b[k])
  }

  ghost predicate Before(a: string, b: string) {
    exists k: nat :: BeforeAt(a, b, k)
  }

  lemma BeforeAtExcludes(a: string, b: string, k: nat, j: nat)
    requires BeforeAt(a, b, k)
    ensures !BeforeAt(b, a, j) && a != b
  {
    if j < k {
      assert a[j] == a[..k][j] == b[..k][j] == b[j];
    } else if k < j <= |a| && j <= |b| {
      assert a[k] == a[..j][k] && b[k] == b[..j][k];
    }
  }

  lemma BeforeAsymmetric(a: string, b: string)
    requires Before(a, b)
    ensures !Before(b, a) && a != b
  {
    var k: nat :| BeforeAt(a, b, k);
    forall j: nat ensures !BeforeAt(b, a, j) {
      BeforeAtExcludes(a, b, k, j);
    }
    BeforeAtExcludes(a, b, k, 0);
  }

  lemma BeforeUnderPrefix(prefix: string, a: string, b: string)
    requires Before(a, b)
    ensures Before(prefix + a, prefix + b)
  {
    var k: nat :| BeforeAt(a, b, k);
    assert (prefix + a)[..|prefix| + k] == prefix + a[..k];
    assert (prefix + b)[..|prefix| + k] == prefix + b[..k];
    assert BeforeAt(prefix + a, prefix + b, |prefix| + k);
  }

  lemma BeforeTransitive(a: string, b: string, c: string)
    requires Before(a, b) && Before(b, c)
    ensures Before(a, c)
  {
    var j: nat :| BeforeAt(a, b, j);
    var k: nat :| BeforeAt(b, c, k);
    var n := if j < k then j else k;
    assert a[..n] == b[..j][..n] && b[..n] == c[..k][..n];
    if j < k {
      assert c[j] == c[..k][j] == b[j];
    } else if k < j {
      assert a[k] == b[..j][k] == b[k];
    }
    assert BeforeAt(a, c, n);
  }

  /** The comparison, character by character. */
  predicate Less(a: string, b: string) {
    b != [] && (a == [] || a[0] < b[0] || (a[0] == b[0] && Less(a[1..], b[1..])))
  }

  lemma {:induction false} LessIsBefore(a: string, b: string)
    ensures Less(a, b) <==> Before(a, b)
    decreases |a|
  {
    if b != [] && (a == [] || a[0] < b[0]) {
      assert BeforeAt(a, b, 0);
    } else if a != [] && b != [] && a[0] == b[0] {
      LessIsBefore(a[1..], b[1..]);
      forall k: nat ensures BeforeAt(a[1..], b[1..], k) <==> BeforeAt(a, b, k + 1) {
        if k + 1 <= |a| && k + 1 <= |b| {
          assert a[..k + 1] == [a[0]] + a[1..][..k] && b[..k + 1] == [b[0]] + b[1..][..k];
          assert a[..k + 1] == b[..k + 1] <==> a[1..][..k] == b[1..][..k];
        }
      }
      forall k: nat | BeforeAt(a, b, k) ensures Before(a[1..], b[1..]) {
        assert k > 0 && BeforeAt(a[1..], b[1..], k - 1);
      }
      forall k: nat | BeforeAt(a[1..], b[1..], k) ensures Before(a, b) {
        assert BeforeAt(a, b, k + 1);
      }
    } else {
      forall k: nat ensures !BeforeAt(a, b, k) {
        if 0 < k <= |a| && k < |b| {
          assert a[..k][0] == a[0] && b[..k][0] == b[0];
        }
      }
    }
  }

  lemma {:induction false} LessTotal(a: string, b: string)
    ensures Less(a, b) || Less(b, a) || a == b
    decreases |a|
  {
    if a != [] && b != [] && a[0] == b[0] {
      LessTotal(a[1..], b[1..]);
      assert a == [a[0]] + a[1..] && b == [b[0]] + b[1..];
    }
  }

  lemma BeforeTotal(a: string, b: string)
    requires a != b
    ensures Before(a, b) || Before(b, a)
  {
    LessTotal(a, b);
    LessIsBefore(a, b);
    LessIsBefore(b, a);
  }
}
