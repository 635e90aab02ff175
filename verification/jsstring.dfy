/**
  JavaScript strings as the engine stores them: sequences of UTF-16 code
  units.  This module gives the handful of built-in string operations the
  checker uses (`split('\n')`, `join('\n')`, `trim()`, `includes(..)` and the
  comparison used by the default `Array.prototype.sort`), each stated exactly
  over code units.
*/
module JsString {

  /** One UTF-16 code unit. */
  newtype Unit = u: int | 0 <= u < 0x1_0000

  /** A JavaScript string value. */
  type Str = seq<Unit>

  /** The line feed, the separator of `split('\n')` and `join('\n')`. */
  const Newline: Unit := 0x0A

  /**
    The string value of a source literal whose characters all lie in the
    Basic Multilingual Plane, one code unit per character.
  */
  function Units(s: string): (r: Str)
    requires forall i | 0 <= i < |s| :: s[i] as int < 0x1_0000
    ensures |r| == |s|
  {
    seq(|s|, i requires 0 <= i < |s| => s[i] as int as Unit)
  }

  // ---------------------------------------------------------------------
  // split('\n') and join('\n')
  // ---------------------------------------------------------------------

  /** `s.split('\n')`: the pieces between line feeds, always at least one. */
  function Split(s: Str): (pieces: seq<Str>)
    ensures |pieces| >= 1
    ensures forall k | 0 <= k < |pieces| :: Newline !in pieces[k]
  {
    if |s| == 0 then [[]]
    else
      var rest := Split(s[1..]);
      if s[0] == Newline then [[]] + rest
      else [[s[0]] + rest[0]] + rest[1..]
  }

  /** `split('\n')` gives one piece more than there are line feeds. */
  lemma {:induction false} SplitPieceCount(s: Str)
    ensures |Split(s)| == multiset(s)[Newline] + 1
  {
    if |s| > 0 {
      SplitPieceCount(s[1..]);
      assert s == [s[0]] + s[1..];
      assert multiset(s)[Newline] == multiset([s[0]])[Newline] + multiset(s[1..])[Newline];
    }
  }

  /** `xs.join('\n')`: the pieces separated by line feeds, no trailing one. */
  function Join(xs: seq<Str>): (s: Str)
    ensures |xs| > 0 ==> xs[0] <= s
    ensures |xs| > 1 ==> xs[0] + [Newline] <= s
  {
    if |xs| == 0 then []
    else if |xs| == 1 then xs[0]
    else xs[0] + [Newline] + Join(xs[1..])
  }

  lemma JoinCons(x: Str, xs: seq<Str>)
    requires |xs| >= 1
    ensures Join([x] + xs) == x + [Newline] + Join(xs)
  {
    assert ([x] + xs)[1..] == xs;
  }

  lemma {:induction false} SplitSingle(a: Str)
    requires Newline !in a
    ensures Split(a) == [a]
  {
    if |a| > 0 {
      SplitSingle(a[1..]);
      assert [a[0]] + a[1..] == a;
    }
  }

  lemma {:induction false} SplitAfterLine(a: Str, b: Str)
    requires Newline !in a
    ensures Split(a + [Newline] + b) == [a] + Split(b)
  {
    var s := a + [Newline] + b;
    if |a| == 0 {
      assert s[1..] == b;
    } else {
      assert s[1..] == a[1..] + [Newline] + b;
      SplitAfterLine(a[1..], b);
      assert [a[0]] + a[1..] == a;
    }
  }

  /** Splitting a joined list gives the list back, provided no element holds a line feed. */
  lemma {:induction false} SplitJoin(xs: seq<Str>)
    requires |xs| >= 1
    requires forall k | 0 <= k < |xs| :: Newline !in xs[k]
    ensures Split(Join(xs)) == xs
  {
    if |xs| == 1 {
      SplitSingle(xs[0]);
    } else {
      SplitJoin(xs[1..]);
      SplitAfterLine(xs[0], Join(xs[1..]));
      assert [xs[0]] + xs[1..] == xs;
    }
  }

  /** Joining the pieces of a split gives the original string back. */
  lemma {:induction false} JoinSplit(s: Str)
    ensures Join(Split(s)) == s
  {
    if |s| > 0 {
      var rest := Split(s[1..]);
      JoinSplit(s[1..]);
      assert s == [s[0]] + s[1..];
      if s[0] == Newline {
        JoinCons([], rest);
      } else if |rest| == 1 {
        assert Split(s) == [[s[0]] + rest[0]];
      } else {
        assert rest == [rest[0]] + rest[1..];
        JoinCons(rest[0], rest[1..]);
        JoinCons([s[0]] + rest[0], rest[1..]);
      }
    }
  }

  // ---------------------------------------------------------------------
  // trim()
  // ---------------------------------------------------------------------

  /**
    The code units `String.prototype.trim` removes: ECMAScript WhiteSpace
    (tab, vertical tab, form feed, zero width no-break space and every
    space separator of Unicode category Zs) and LineTerminator (line
    feed, carriage return, line and paragraph separators).
  */
  predicate IsSpace(u: Unit)
  {
    || u == 0x09 || u == 0x0A || u == 0x0B || u == 0x0C || u == 0x0D
    || u == 0x20 || u == 0xA0 || u == 0x1680
    || (0x2000 <= u <= 0x200A)
    || u == 0x2028 || u == 0x2029 || u == 0x202F || u == 0x205F
    || u == 0x3000 || u == 0xFEFF
  }

  /** Every code unit of `s` is white space. */
  predicate AllSpace(s: Str)
  {
    forall k | 0 <= k < |s| :: IsSpace(s[k])
  }

  /** Neither end of `s` is white space. */
  predicate Trimmed(s: Str)
  {
    |s| == 0 || (!IsSpace(s[0]) && !IsSpace(s[|s| - 1]))
  }

  /** How many code units of white space `s` starts with. */
  function LeadingSpace(s: Str): (n: nat)
    ensures n <= |s|
  {
    if |s| > 0 && IsSpace(s[0]) then 1 + LeadingSpace(s[1..]) else 0
  }

  /** How many code units of white space `s` ends with. */
  function TrailingSpace(s: Str): (n: nat)
    ensures n <= |s|
  {
    if |s| > 0 && IsSpace(s[|s| - 1]) then 1 + TrailingSpace(s[..|s| - 1]) else 0
  }

  /** The leading white space is all white space, and it is all of it. */
  lemma {:induction false} LeadingSpaceIsMaximal(s: Str)
    ensures AllSpace(s[..LeadingSpace(s)])
    ensures LeadingSpace(s) < |s| ==> !IsSpace(s[LeadingSpace(s)])
  {
    if |s| > 0 && IsSpace(s[0]) {
      LeadingSpaceIsMaximal(s[1..]);
      var n := LeadingSpace(s[1..]);
      assert forall k | 1 <= k < n + 1 :: s[k] == s[1..][k - 1];
    }
  }

  /** The trailing white space is all white space, and it is all of it. */
  lemma {:induction false} TrailingSpaceIsMaximal(s: Str)
    ensures AllSpace(s[|s| - TrailingSpace(s)..])
    ensures TrailingSpace(s) < |s| ==> !IsSpace(s[|s| - TrailingSpace(s) - 1])
  {
    if |s| > 0 && IsSpace(s[|s| - 1]) {
      var p := s[..|s| - 1];
      TrailingSpaceIsMaximal(p);
      var n := TrailingSpace(p);
      assert TrailingSpace(s) == n + 1;
      var tail := s[|s| - (n + 1)..];
      forall j | 0 <= j < |tail|
        ensures IsSpace(tail[j])
      {
        if j < n {
          assert tail[j] == p[|p| - n..][j];
        }
      }
      if n + 1 < |s| {
        assert s[|s| - (n + 1) - 1] == p[|p| - n - 1];
      }
    }
  }

  /** Where `trim()` cuts: after the leading white space and before the trailing white space. */
  function TrimEnd(s: Str): (k: nat)
    ensures LeadingSpace(s) <= k <= |s|
  {
    |s| - TrailingSpace(s[LeadingSpace(s)..])
  }

  /** The leading cut is white space and stops at a code unit that is not. */
  lemma LeadCut(s: Str)
    ensures AllSpace(s[..LeadingSpace(s)])
    ensures LeadingSpace(s) < TrimEnd(s) ==> !IsSpace(s[LeadingSpace(s)])
  {
    LeadingSpaceIsMaximal(s);
  }

  /** The trailing cut is white space and stops at a code unit that is not. */
  lemma TailCut(s: Str)
    ensures AllSpace(s[TrimEnd(s)..])
    ensures LeadingSpace(s) < TrimEnd(s) ==> !IsSpace(s[TrimEnd(s) - 1])
  {
    var i, k := LeadingSpace(s), TrimEnd(s);
    var t := s[i..];
    TrailingSpaceIsMaximal(t);
    assert s[k..] == t[k - i..];
    if i < k {
      assert s[k - 1] == t[k - i - 1];
    }
  }

  /**
    `s.trim()`: `s` is the result with white space around it, and the
    result has white space on neither end.
  */
  function Trim(s: Str): (r: Str)
    ensures Trimmed(r)
    ensures exists lead, tail :: s == lead + r + tail && AllSpace(lead) && AllSpace(tail)
  {
    var i, k := LeadingSpace(s), TrimEnd(s);
    LeadCut(s);
    TailCut(s);
    assert s == s[..i] + s[i..k] + s[k..] by {
      assert s[..k] == s[..i] + s[i..k];
    }
    s[i..k]
  }

  /** Trimming changes exactly the strings that have white space at an end. */
  lemma TrimFixedPoint(s: Str)
    ensures Trim(s) == s <==> Trimmed(s)
  {
    if Trimmed(s) && |s| > 0 {
      assert LeadingSpace(s) == 0 && TrailingSpace(s) == 0;
    }
  }

  /** Trimming twice is trimming once. */
  lemma TrimIdempotent(s: Str)
    ensures Trim(Trim(s)) == Trim(s)
  {
    TrimFixedPoint(Trim(s));
  }

  // ---------------------------------------------------------------------
  // includes(..)
  // ---------------------------------------------------------------------

  /** `needle` occurs in `hay` starting at offset `i`. */
  predicate OccursAt(hay: Str, needle: Str, i: nat)
  {
    i + |needle| <= |hay| && hay[i..i + |needle|] == needle
  }

  /** `hay.includes(needle)`. */
  predicate Includes(hay: Str, needle: Str)
    ensures needle == [] ==> Includes(hay, needle)
    ensures Includes(hay, needle) ==> |needle| <= |hay|
  {
    needle <= hay || (|hay| > 0 && Includes(hay[1..], needle))
  }

  /** Where `includes` holds, the needle occurs at some offset. */
  lemma {:induction false} IncludesWitness(hay: Str, needle: Str) returns (i: nat)
    requires Includes(hay, needle)
    ensures OccursAt(hay, needle, i)
  {
    if needle <= hay {
      i := 0;
    } else {
      var j := IncludesWitness(hay[1..], needle);
      assert hay[1..][j..j + |needle|] == hay[j + 1..j + 1 + |needle|];
      i := j + 1;
    }
  }

  /** Wherever the needle occurs, `includes` holds. */
  lemma {:induction false} OccursIncludes(hay: Str, needle: Str, i: nat)
    requires OccursAt(hay, needle, i)
    ensures Includes(hay, needle)
  {
    if i == 0 {
      assert needle == hay[..|needle|];
    } else {
      assert hay[1..][i - 1..i - 1 + |needle|] == hay[i..i + |needle|];
      OccursIncludes(hay[1..], needle, i - 1);
    }
  }

  /** `includes` holds exactly when the needle occurs at some offset. */
  lemma IncludesIffOccurs(hay: Str, needle: Str)
    ensures Includes(hay, needle) <==> exists i: nat :: OccursAt(hay, needle, i)
  {
    if Includes(hay, needle) {
      var i := IncludesWitness(hay, needle);
    }
    forall i: nat | OccursAt(hay, needle, i)
      ensures Includes(hay, needle)
    {
      OccursIncludes(hay, needle, i);
    }
  }
}
