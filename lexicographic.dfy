/**
 * The order the snapshot is sorted in. The source compares tickers with
 * `localeCompare`; the model uses plain lexicographic order on character
 * codes.
 */
module Lexicographic {

  /**
   * `a` sorts strictly before `b`: a proper prefix sorts first, and a ticker
   * never sorts before one whose first character is smaller.
   */
  function Less(a: string, b: string): (r: bool)
    ensures a < b ==> r
    ensures r ==> |b| > 0 && (a == [] || a[0] <= b[0])
  {
    |b| > 0 && (|a| == 0 || a[0] < b[0] || (a[0] == b[0] && Less(a[1..], b[1..])))
  }

  predicate LessOrEqual(a: string, b: string) {
    a == b || Less(a, b)
  }

  /** A smaller character at the first difference sorts first. */
  lemma {:induction false} DifferenceIsLess(a: string, b: string, k: nat)
    requires k < |a| && k < |b| && a[..k] == b[..k] && a[k] < b[k]
    ensures Less(a, b)
  {
    if k > 0 {
      assert a[0] == a[..k][0];
      assert b[0] == b[..k][0];
      assert a[1..][..k - 1] == a[..k][1..];
      assert b[1..][..k - 1] == b[..k][1..];
      DifferenceIsLess(a[1..], b[1..], k - 1);
    }
  }

  /** Conversely, `a` sorts first only as a proper prefix or through a first difference. */
  lemma {:induction false} LessHasReason(a: string, b: string)
    requires Less(a, b)
    ensures a < b || exists k :: 0 <= k < |a| && k < |b| && a[..k] == b[..k] && a[k] < b[k]
  {
    if |a| > 0 && a[0] == b[0] && Less(a[1..], b[1..]) {
      LessHasReason(a[1..], b[1..]);
      assert a == [a[0]] + a[1..] && b == [b[0]] + b[1..];
      if !(a[1..] < b[1..]) {
        var k :| 0 <= k < |a[1..]| && k < |b[1..]| && a[1..][..k] == b[1..][..k] && a[1..][k] < b[1..][k];
        assert a[..k + 1] == [a[0]] + a[1..][..k];
        assert b[..k + 1] == [b[0]] + b[1..][..k];
      }
    } else if |a| > 0 {
      assert a[..0] == b[..0];
    }
  }

  /**
   * The recursive definition agrees with the textbook one: `a` is a proper
   * prefix of `b`, or at the first position where they differ `a` has the
   * smaller character.
   */
  lemma LessIsFirstDifference(a: string, b: string)
    ensures Less(a, b) <==>
      (a < b || exists k :: 0 <= k < |a| && k < |b| && a[..k] == b[..k] && a[k] < b[k])
  {
    if Less(a, b) {
      LessHasReason(a, b);
    } else if k :| 0 <= k < |a| && k < |b| && a[..k] == b[..k] && a[k] < b[k] {
      DifferenceIsLess(a, b, k);
    }
  }

  lemma {:induction false} Irreflexive(a: string)
    ensures !Less(a, a)
  {
    if |a| > 0 {
      Irreflexive(a[1..]);
    }
  }

  lemma {:induction false} Transitive(a: string, b: string, c: string)
    requires Less(a, b) && Less(b, c)
    ensures Less(a, c)
  {
    if |a| > 0 && a[0] == b[0] && b[0] == c[0] {
      Transitive(a[1..], b[1..], c[1..]);
    }
  }

  lemma {:induction false} Total(a: string, b: string)
    requires a != b
    ensures Less(a, b) || Less(b, a)
  {
    if |a| > 0 && |b| > 0 && a[0] == b[0] {
      assert a == [a[0]] + a[1..] && b == [b[0]] + b[1..];
      Total(a[1..], b[1..]);
    }
  }

  lemma Asymmetric(a: string, b: string)
    requires Less(a, b)
    ensures !Less(b, a)
  {
    if Less(b, a) {
      Transitive(a, b, a);
      Irreflexive(a);
    }
  }

  lemma LessOrEqualTransitive(a: string, b: string, c: string)
    requires LessOrEqual(a, b) && LessOrEqual(b, c)
    ensures LessOrEqual(a, c)
  {
    if a != b && b != c {
      Transitive(a, b, c);
    }
  }
}
