/** Go's `<` on strings, used as the sort key of the tree builder. Go
    compares the UTF-8 bytes; for Unicode scalar values that order is the
    order of their code points, so comparing characters gives the same
    answer. */
module NameOrder {

  /** Strict lexicographic order: a proper prefix comes first, otherwise the
      first differing character decides. */
  predicate Less(a: string, b: string) {
    if a == [] then b != []
    else if b == [] then false
    else if a[0] != b[0] then a[0] < b[0]
    else Less(a[1..], b[1..])
  }

  /** `Less` is the lexicographic order: either `a` is a proper prefix of `b`,
      or at the first position where they differ `a` has the smaller
      character. */
  lemma {:induction false} LessIsLexicographic(a: string, b: string)
    ensures Less(a, b) <==>
      (|a| < |b| && a == b[..|a|]) ||
      (exists k | 0 <= k < |a| && k < |b| :: a[..k] == b[..k] && a[k] < b[k])
  {
    if Less(a, b) {
      var k := LessWitness(a, b);
      if k < |a| {
        assert k < |b| && a[..k] == b[..k] && a[k] < b[k];
      }
    }
    if |a| < |b| && a == b[..|a|] {
      LessOfPrefix(a, b);
    }
    if exists k | 0 <= k < |a| && k < |b| :: a[..k] == b[..k] && a[k] < b[k] {
      var k :| 0 <= k < |a| && k < |b| && a[..k] == b[..k] && a[k] < b[k];
      LessAtDifference(a, b, k);
    }
  }

  /** A proper prefix comes first. */
  lemma {:induction false} LessOfPrefix(a: string, b: string)
    requires |a| < |b| && a == b[..|a|]
    ensures Less(a, b)
  {
    if a != [] {
      assert a[0] == b[0];
      assert a[1..] == b[1..][..|a| - 1];
      LessOfPrefix(a[1..], b[1..]);
    }
  }

  /** Equal up to `k`, smaller at `k`: `a` comes first. */
  lemma {:induction false} LessAtDifference(a: string, b: string, k: nat)
    requires k < |a| && k < |b| && a[..k] == b[..k] && a[k] < b[k]
    ensures Less(a, b)
  {
    if k > 0 {
      assert a[0] == a[..k][0] == b[..k][0] == b[0];
      assert a[1..][..k - 1] == a[..k][1..] == b[..k][1..] == b[1..][..k - 1];
      LessAtDifference(a[1..], b[1..], k - 1);
    }
  }

  /** When `a` comes first, either `a` is a proper prefix (the result is
      `|a|`) or the result is the first position where the two differ. */
  lemma {:induction false} LessWitness(a: string, b: string) returns (k: nat)
    requires Less(a, b)
    ensures k <= |a| && k < |b| && a[..k] == b[..k]
    ensures k == |a| || a[k] < b[k]
  {
    if a == [] {
      k := 0;
    } else if a[0] != b[0] {
      k := 0;
    } else {
      var j := LessWitness(a[1..], b[1..]);
      k := j + 1;
      assert a[..k] == [a[0]] + a[1..][..j];
      assert b[..k] == [b[0]] + b[1..][..j];
    }
  }

  lemma {:induction false} LessIrreflexive(a: string)
    ensures !Less(a, a)
  {
    if a != [] {
      LessIrreflexive(a[1..]);
    }
  }

  lemma {:induction false} LessTransitive(a: string, b: string, c: string)
    requires Less(a, b) && Less(b, c)
    ensures Less(a, c)
  {
    if a != [] && a[0] == b[0] && b[0] == c[0] {
      LessTransitive(a[1..], b[1..], c[1..]);
    }
  }

  /** Any two distinct strings are ordered one way or the other. */
  lemma {:induction false} LessTotal(a: string, b: string)
    ensures a == b || Less(a, b) || Less(b, a)
  {
    if a != [] && b != [] && a[0] == b[0] {
      LessTotal(a[1..], b[1..]);
      if a[1..] == b[1..] {
        assert a == [a[0]] + a[1..];
        assert b == [b[0]] + b[1..];
      }
    }
  }

  lemma {:induction false} LessAsymmetric(a: string, b: string)
    ensures Less(a, b) ==> !Less(b, a)
  {
    if Less(a, b) && Less(b, a) {
      LessTransitive(a, b, a);
      LessIrreflexive(a);
    }
  }

  /** "not after": `!Less(b, a)` is transitive. */
  lemma {:induction false} NotAfterTransitive(a: string, b: string, c: string)
    requires !Less(b, a) && !Less(c, b)
    ensures !Less(c, a)
  {
    if Less(c, a) {
      LessTotal(a, b);
      if a != b {
        LessTransitive(c, a, b);
      }
    }
  }
}
