/**
  The wordlist loader: the text of `words.txt` split into lines, each line
  trimmed, duplicates dropped through a `Set`, and the rest sorted with the
  default comparator.  Reading the file is outside the model: its outcome
  is the argument, `None` when the read failed.
*/
module Wordlist {
  import opened Wrappers
  import opened JsString
  import opened CodeUnitOrder

  /** No string occurs twice. */
  predicate Distinct(s: seq<Str>)
  {
    forall i, j | 0 <= i < j < |s| :: s[i] != s[j]
  }

  /** In non-descending order. */
  predicate Sorted(s: seq<Str>)
  {
    forall i, j | 0 <= i < j < |s| :: AtMost(s[i], s[j])
  }

  /** In strictly ascending order. */
  predicate Ascending(s: seq<Str>)
  {
    forall i, j | 0 <= i < j < |s| :: Below(s[i], s[j])
  }

  /** Every line of `text` with its white space trimmed (`split('\n').map(w => w.trim())`). */
  function TrimmedLines(text: Str): (r: seq<Str>)
    ensures |r| == multiset(text)[Newline] + 1
    ensures forall k | 0 <= k < |r| :: Trimmed(r[k]) && Newline !in r[k]
  {
    var lines := Split(text);
    SplitPieceCount(text);
    seq(|lines|, k requires 0 <= k < |lines| => Trim(lines[k]))
  }

  /** `[...new Set(s)]`: each string once, at its first occurrence. */
  function Dedupe(s: seq<Str>): (r: seq<Str>)
    ensures Distinct(r)
    ensures forall w :: w in r <==> w in s
  {
    if |s| == 0 then []
    else
      var d := Dedupe(s[..|s| - 1]);
      assert forall w :: w in s <==> w in s[..|s| - 1] || w == s[|s| - 1];
      if s[|s| - 1] in d then d else d + [s[|s| - 1]]
  }

  /** A list without duplicates goes through the `Set` unchanged. */
  lemma {:induction false} DedupeDistinct(s: seq<Str>)
    requires Distinct(s)
    ensures Dedupe(s) == s
  {
    if |s| > 0 {
      DedupeDistinct(s[..|s| - 1]);
    }
  }

  /** Puts `x` into the sorted list `s`. */
  function Insert(x: Str, s: seq<Str>): (r: seq<Str>)
    ensures multiset(r) == multiset(s) + multiset{x}
  {
    if |s| == 0 then [x]
    else if Below(s[0], x) then
      assert s == [s[0]] + s[1..];
      [s[0]] + Insert(x, s[1..])
    else [x] + s
  }

  lemma {:induction false} InsertSorted(x: Str, s: seq<Str>)
    requires Sorted(s)
    ensures Sorted(Insert(x, s))
  {
    if |s| == 0 {
    } else if Below(s[0], x) {
      InsertSorted(x, s[1..]);
      var t := Insert(x, s[1..]);
      forall j | 0 <= j < |t|
        ensures AtMost(s[0], t[j])
      {
        assert t[j] in multiset(t);
        if t[j] != x {
          assert t[j] in multiset(s[1..]);
          var m :| 0 <= m < |s[1..]| && s[1..][m] == t[j];
          assert s[m + 1] == t[j];
        }
      }
    } else {
      AtMostIffNotBelow(x, s[0]);
      forall j | 0 <= j < |s|
        ensures AtMost(x, s[j])
      {
        if j > 0 {
          AtMostTransitive(x, s[0], s[j]);
        }
      }
    }
  }

  /** `sort()`: a sorted permutation of `s`. */
  function Sort(s: seq<Str>): (r: seq<Str>)
    ensures multiset(r) == multiset(s)
    ensures Sorted(r)
  {
    if |s| == 0 then []
    else
      var t := Sort(s[1..]);
      InsertSorted(s[0], t);
      assert s == [s[0]] + s[1..];
      Insert(s[0], t)
  }

  lemma {:induction false} DistinctCounts(s: seq<Str>, x: Str)
    requires Distinct(s)
    ensures multiset(s)[x] <= 1
  {
    if |s| > 0 {
      DistinctCounts(s[1..], x);
      assert s == [s[0]] + s[1..];
      assert s[0] !in s[1..];
    }
  }

  lemma {:induction false} CountsDistinct(s: seq<Str>)
    requires forall x :: multiset(s)[x] <= 1
    ensures Distinct(s)
  {
    if |s| > 0 {
      assert s == [s[0]] + s[1..];
      assert multiset(s) == multiset{s[0]} + multiset(s[1..]);
      forall x ensures multiset(s[1..])[x] <= 1 {
        assert multiset(s)[x] == multiset{s[0]}[x] + multiset(s[1..])[x];
      }
      CountsDistinct(s[1..]);
      assert multiset(s)[s[0]] == 1 + multiset(s[1..])[s[0]];
    }
  }

  /** A permutation of a list without duplicates has none either. */
  lemma PermutationDistinct(s: seq<Str>, r: seq<Str>)
    requires Distinct(s) && multiset(r) == multiset(s)
    ensures Distinct(r)
  {
    forall x ensures multiset(r)[x] <= 1 {
      DistinctCounts(s, x);
    }
    CountsDistinct(r);
  }

  lemma SameMembersBothEmpty(a: seq<Str>, b: seq<Str>)
    requires forall w :: w in a <==> w in b
    ensures |a| == 0 <==> |b| == 0
  {
    if |a| > 0 {
      assert a[0] in b;
    }
    if |b| > 0 {
      assert b[0] in a;
    }
  }

  /** Two ascending lists with the same elements are the same list. */
  lemma {:induction false} AscendingUnique(a: seq<Str>, b: seq<Str>)
    requires Ascending(a) && Ascending(b)
    requires forall w :: w in a <==> w in b
    ensures a == b
  {
    SameMembersBothEmpty(a, b);
    if |a| > 0 {
      assert a[0] in b;
      assert b[0] in a;
      var i :| 0 <= i < |a| && a[i] == b[0];
      var j :| 0 <= j < |b| && b[j] == a[0];
      if i != 0 && j != 0 {
        BelowAsymmetric(a[0], b[0]);
      }
      forall w ensures w in a[1..] <==> w in b[1..] {
        if w in a[1..] {
          var m :| 1 <= m < |a| && a[m] == w;
          BelowIrreflexive(w);
          assert w in b && w != b[0];
        }
        if w in b[1..] {
          var m :| 1 <= m < |b| && b[m] == w;
          BelowIrreflexive(w);
          assert w in a && w != a[0];
        }
      }
      AscendingUnique(a[1..], b[1..]);
      assert a == [a[0]] + a[1..] && b == [b[0]] + b[1..];
    }
  }

  /** Sorting a strictly ascending list leaves it as it is. */
  lemma SortAscending(s: seq<Str>)
    requires Ascending(s)
    ensures Sort(s) == s
  {
    forall i | 0 <= i < |s| ensures !Below(s[i], s[i]) {
      BelowIrreflexive(s[i]);
    }
    var r := Sort(s);
    PermutationDistinct(s, r);
    assert forall w :: w in r <==> w in multiset(s);
    AscendingUnique(r, s);
  }

  /**
    `getCleanWordlist()`: empty when the file cannot be read; otherwise the
    trimmed lines of the file, each exactly once, in ascending order.
  */
  function CleanWordlist(file: Option<Str>): (words: seq<Str>)
    ensures file.None? ==> words == []
    ensures Ascending(words)
    ensures file.Some? ==> forall w :: w in words <==> w in TrimmedLines(file.value)
  {
    match file
    case None => []
    case Some(text) =>
      var unique := Dedupe(TrimmedLines(text));
      var words := Sort(unique);
      PermutationDistinct(unique, words);
      assert forall w :: w in words <==> w in multiset(unique);
      words
  }

  /** A successful read always yields at least one word, maybe the empty one. */
  lemma CleanWordlistNonEmpty(text: Str)
    ensures |CleanWordlist(Some(text))| >= 1
  {
    assert TrimmedLines(text)[0] in CleanWordlist(Some(text));
  }

  /** Every cleaned word is trimmed and holds no line feed. */
  lemma CleanWordsAreLines(file: Option<Str>, w: Str)
    requires w in CleanWordlist(file)
    ensures Trimmed(w) && Newline !in w
  {
    var lines := Split(file.value);
    var k :| 0 <= k < |lines| && Trim(lines[k]) == w;
  }

  /**
    Loading a file that already is a clean wordlist, one word per line,
    gives that wordlist back.
  */
  lemma CleanOfCleanList(words: seq<Str>)
    requires |words| >= 1 && Ascending(words)
    requires forall k | 0 <= k < |words| :: Trimmed(words[k]) && Newline !in words[k]
    ensures CleanWordlist(Some(Join(words))) == words
  {
    SplitJoin(words);
    var lines := TrimmedLines(Join(words));
    forall k | 0 <= k < |words| ensures lines[k] == words[k] {
      TrimFixedPoint(words[k]);
    }
    assert lines == words;
    forall i, j | 0 <= i < j < |words| ensures words[i] != words[j] {
      BelowIrreflexive(words[i]);
    }
    DedupeDistinct(words);
    SortAscending(words);
  }

  /** Cleaning is idempotent: saving the cleaned list one word per line and loading it again changes nothing. */
  lemma CleanIdempotent(text: Str)
    ensures var words := CleanWordlist(Some(text)); CleanWordlist(Some(Join(words))) == words
  {
    var words := CleanWordlist(Some(text));
    CleanWordlistNonEmpty(text);
    forall k | 0 <= k < |words| ensures Trimmed(words[k]) && Newline !in words[k] {
      CleanWordsAreLines(Some(text), words[k]);
    }
    CleanOfCleanList(words);
  }

  /**
    An empty `words.txt` is read as one blank line, so the wordlist holds
    one word, the empty string.
  */
  lemma EmptyFileGivesBlankWord()
    ensures CleanWordlist(Some([])) == [[]]
  {
    CleanOfCleanList([[]]);
  }
}
