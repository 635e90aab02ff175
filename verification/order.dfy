/**
  The order the default comparator of `Array.prototype.sort` puts strings
  in: code unit by code unit, a proper prefix first.
*/
module CodeUnitOrder {
  import opened JsString

  /** `a` sorts strictly before `b`. */
  predicate Below(a: Str, b: Str)
  {
    if |a| == 0 then |b| > 0
    else |b| > 0 && (a[0] < b[0] || (a[0] == b[0] && Below(a[1..], b[1..])))
  }

  /** `a` sorts before `b` or is `b`. */
  predicate AtMost(a: Str, b: Str)
  {
    a == b || Below(a, b)
  }

  /** The two strings agree on their first `k` code units and differ, upwards, at the next. */
  predicate FirstDifferenceAt(a: Str, b: Str, k: nat)
  {
    k < |a| && k < |b| && a[..k] == b[..k] && a[k] < b[k]
  }

  /**
    The comparison of the language definition: `a` is below `b` when it is a
    proper prefix of `b`, or when at the first code unit where they differ
    the one of `a` is smaller.
  */
  lemma {:induction false} BelowIffFirstDifference(a: Str, b: Str)
    ensures Below(a, b) <==> (|a| < |b| && a == b[..|a|]) || exists k: nat :: FirstDifferenceAt(a, b, k)
  {
    if |a| > 0 && |b| > 0 {
      BelowIffFirstDifference(a[1..], b[1..]);
      if a[0] == b[0] {
        if k: nat :| FirstDifferenceAt(a[1..], b[1..], k) {
          assert a[..k + 1] == [a[0]] + a[1..][..k];
          assert b[..k + 1] == [b[0]] + b[1..][..k];
          assert FirstDifferenceAt(a, b, k + 1);
        }
        if k: nat :| FirstDifferenceAt(a, b, k) {
          assert k != 0;
          assert a[1..][..k - 1] == a[1..k];
          assert b[1..][..k - 1] == b[1..k];
          assert FirstDifferenceAt(a[1..], b[1..], k - 1);
        }
        if |a| < |b| && a == b[..|a|] {
          assert a[1..] == b[1..][..|a| - 1];
        }
        if |a| - 1 < |b| - 1 && a[1..] == b[1..][..|a| - 1] {
          assert a == [a[0]] + a[1..];
        }
      } else {
        if a[0] < b[0] {
          assert FirstDifferenceAt(a, b, 0);
        }
      }
    } else if |a| > 0 {
      if k: nat :| FirstDifferenceAt(a, b, k) {
        assert false;
      }
    } else if |b| == 0 {
      if k: nat :| FirstDifferenceAt(a, b, k) {
        assert false;
      }
    }
  }

  lemma {:induction false} BelowIrreflexive(a: Str)
    ensures !Below(a, a)
  {
    if |a| > 0 {
      BelowIrreflexive(a[1..]);
    }
  }

  lemma {:induction false} BelowAsymmetric(a: Str, b: Str)
    ensures !(Below(a, b) && Below(b, a))
  {
    if |a| > 0 && |b| > 0 {
      BelowAsymmetric(a[1..], b[1..]);
    }
  }

  lemma {:induction false} BelowTransitive(a: Str, b: Str, c: Str)
    requires Below(a, b) && Below(b, c)
    ensures Below(a, c)
  {
    if |a| > 0 && a[0] == b[0] && b[0] == c[0] {
      BelowTransitive(a[1..], b[1..], c[1..]);
    }
  }

  /** Any two different strings are ordered one way or the other. */
  lemma {:induction false} BelowTotal(a: Str, b: Str)
    ensures a == b || Below(a, b) || Below(b, a)
  {
    if |a| > 0 && |b| > 0 && a[0] == b[0] {
      BelowTotal(a[1..], b[1..]);
      assert a == [a[0]] + a[1..] && b == [b[0]] + b[1..];
    }
  }

  lemma AtMostTransitive(a: Str, b: Str, c: Str)
    requires AtMost(a, b) && AtMost(b, c)
    ensures AtMost(a, c)
  {
    if a != b && b != c {
      BelowTransitive(a, b, c);
    }
  }

  /** `AtMost` is the complement of `Below` taken the other way round. */
  lemma AtMostIffNotBelow(a: Str, b: Str)
    ensures AtMost(a, b) <==> !Below(b, a)
  {
    BelowTotal(a, b);
    BelowAsymmetric(a, b);
    BelowIrreflexive(a);
  }
}
