/** Byte-lexicographic ordering of version strings, as used by `Vec<String>::sort`.
    Rust compares `String`s by their UTF-8 bytes, which orders them exactly as
    comparing code points one by one does; the model's `char` comparison is that
    code-point comparison. The ordering is a plain string order, not a numeric
    version order: "4.10.0" sorts before "4.9.0". */
module Ordering {

  /** `a` sorts at or before `b`: the first differing character decides, and a
      proper prefix sorts first. */
  predicate LexLe(a: string, b: string)
    decreases |a|
  {
    |a| == 0 || (|b| > 0 && (a[0] < b[0] || (a[0] == b[0] && LexLe(a[1..], b[1..]))))
  }

  lemma {:induction false} LexLeReflexive(a: string)
    ensures LexLe(a, a)
    decreases |a|
  {
    if |a| > 0 { LexLeReflexive(a[1..]); }
  }

  lemma {:induction false} LexLeTotal(a: string, b: string)
    ensures LexLe(a, b) || LexLe(b, a)
    decreases |a|
  {
    if |a| > 0 && |b| > 0 && a[0] == b[0] { LexLeTotal(a[1..], b[1..]); }
  }

  lemma {:induction false} LexLeAntisymmetric(a: string, b: string)
    requires LexLe(a, b) && LexLe(b, a)
    ensures a == b
    decreases |a|
  {
    if |a| > 0 {
      LexLeAntisymmetric(a[1..], b[1..]);
      assert a == [a[0]] + a[1..] && b == [b[0]] + b[1..];
    }
  }

  lemma {:induction false} LexLeTransitive(a: string, b: string, c: string)
    requires LexLe(a, b) && LexLe(b, c)
    ensures LexLe(a, c)
    decreases |a|
  {
    if |a| > 0 && a[0] == b[0] && b[0] == c[0] { LexLeTransitive(a[1..], b[1..], c[1..]); }
  }

  /** Ascending order, every pair compared. */
  ghost predicate Sorted(s: seq<string>)
  {
    forall p, q :: 0 <= p < q < |s| ==> LexLe(s[p], s[q])
  }

  ghost predicate Distinct(s: seq<string>)
  {
    forall p, q :: 0 <= p < q < |s| ==> s[p] != s[q]
  }

  /** A set of strings has exactly one ascending, duplicate-free enumeration. */
  lemma {:induction false} SortedUnique(a: seq<string>, b: seq<string>)
    requires Sorted(a) && Distinct(a) && Sorted(b) && Distinct(b)
    requires forall x :: x in a <==> x in b
    ensures a == b
    decreases |a|
  {
    assert |b| > 0 ==> b[0] in a;
    if |a| > 0 {
      assert a[0] in b;
      assert |b| > 0;
      assert b[0] in a;
      var i :| 0 <= i < |a| && a[i] == b[0];
      var j :| 0 <= j < |b| && b[j] == a[0];
      assert LexLe(a[0], b[0]) by { if i > 0 { } else { LexLeReflexive(a[0]); } }
      assert LexLe(b[0], a[0]) by { if j > 0 { } else { LexLeReflexive(b[0]); } }
      LexLeAntisymmetric(a[0], b[0]);
      forall x ensures x in a[1..] <==> x in b[1..] {
        if x in a[1..] {
          var p :| 1 <= p < |a| && a[p] == x;
          assert x != a[0];
          assert x in b;
          var q :| 0 <= q < |b| && b[q] == x;
          assert q != 0;
        }
        if x in b[1..] {
          var q :| 1 <= q < |b| && b[q] == x;
          assert x != b[0];
          assert x in a;
          var p :| 0 <= p < |a| && a[p] == x;
          assert p != 0;
        }
      }
      SortedUnique(a[1..], b[1..]);
      assert a == [a[0]] + a[1..] && b == [b[0]] + b[1..];
    }
  }

  /** In a duplicate-free sequence every element is counted at most once. */
  lemma {:induction false} DistinctAtMostOnce(s: seq<string>)
    requires Distinct(s)
    ensures forall x :: multiset(s)[x] <= 1
    decreases |s|
  {
    if s != [] {
      var init := s[..|s| - 1];
      DistinctAtMostOnce(init);
      assert s == init + [s[|s| - 1]];
      assert s[|s| - 1] !in init;
    }
  }

  /** Rearranging a duplicate-free sequence keeps it duplicate-free. */
  lemma DistinctPermutation(a: seq<string>, b: seq<string>)
    requires Distinct(a) && multiset(a) == multiset(b)
    ensures Distinct(b)
  {
    DistinctAtMostOnce(a);
    forall p, q | 0 <= p < q < |b| ensures b[p] != b[q] {
      assert b == b[..q] + b[q..];
      assert b[p] in multiset(b[..q]);
      assert multiset(b)[b[q]] == multiset(b[..q])[b[q]] + multiset(b[q..])[b[q]];
      assert b[q] in multiset(b[q..]);
    }
  }

  /** Inserts `x` into an ascending sequence. */
  function Insert(x: string, s: seq<string>): (r: seq<string>)
    ensures |r| == |s| + 1
    ensures forall y :: y in r <==> y == x || y in s
    decreases |s|
  {
    if |s| == 0 || LexLe(x, s[0]) then [x] + s else [s[0]] + Insert(x, s[1..])
  }

  lemma {:induction false} InsertSorted(x: string, s: seq<string>)
    requires Sorted(s) && Distinct(s) && x !in s
    ensures Sorted(Insert(x, s)) && Distinct(Insert(x, s))
    decreases |s|
  {
    if |s| == 0 || LexLe(x, s[0]) {
      var r := [x] + s;
      forall p, q | 0 <= p < q < |r| ensures LexLe(r[p], r[q]) && r[p] != r[q] {
        if p == 0 {
          if q > 1 { LexLeTransitive(x, s[0], s[q - 1]); }
        }
      }
    } else {
      InsertSorted(x, s[1..]);
      var t := Insert(x, s[1..]);
      var r := [s[0]] + t;
      LexLeTotal(x, s[0]);
      forall q | 0 <= q < |t| ensures LexLe(s[0], t[q]) && s[0] != t[q] {
        assert t[q] in t;
        if t[q] != x {
          var k :| 1 <= k < |s| && s[k] == t[q];
        }
      }
      forall p, q | 0 <= p < q < |r| ensures LexLe(r[p], r[q]) && r[p] != r[q] {
        if p > 0 { assert r[p] == t[p - 1] && r[q] == t[q - 1]; }
        else { assert r[q] == t[q - 1]; }
      }
    }
  }

  /** The ascending enumeration of a finite set of strings. */
  ghost function SortedOf(xs: set<string>): seq<string>
    decreases xs
  {
    if xs == {} then []
    else
      var x :| x in xs;
      Insert(x, SortedOf(xs - {x}))
  }

  /** `SortedOf` enumerates exactly its set, ascending and without repeats. */
  lemma {:induction false} SortedOfSpec(xs: set<string>)
    ensures Sorted(SortedOf(xs)) && Distinct(SortedOf(xs))
    ensures forall y :: y in SortedOf(xs) <==> y in xs
    decreases xs
  {
    if xs != {} {
      var x :| x in xs && SortedOf(xs) == Insert(x, SortedOf(xs - {x}));
      SortedOfSpec(xs - {x});
      InsertSorted(x, SortedOf(xs - {x}));
    }
  }

  /** Every pair of positions below `n` is in ascending order. */
  ghost predicate SortedUpTo(s: seq<string>, n: int)
  {
    forall p, q :: 0 <= p < q < n && q < |s| ==> LexLe(s[p], s[q])
  }

  /** While `s[j]` sinks into the ascending prefix `s[..i + 1]`: the prefix
      without position `j` is ascending, and `s[j]` sorts before everything
      after it. */
  ghost predicate Sinking(s: seq<string>, j: int, i: int)
  {
    && 0 <= j <= i < |s|
    && (forall p, q :: 0 <= p < q <= i && p != j && q != j ==> LexLe(s[p], s[q]))
    && (forall q :: j < q <= i ==> LexLe(s[j], s[q]))
  }

  lemma SinkingStart(s: seq<string>, i: int)
    requires 0 <= i < |s| && SortedUpTo(s, i)
    ensures Sinking(s, i, i)
  {
  }

  /** Swapping `s[j]` with a larger left neighbour keeps sinking. */
  lemma SinkingStep(s: seq<string>, j: int, i: int)
    requires Sinking(s, j, i) && j > 0 && !LexLe(s[j - 1], s[j])
    ensures Sinking(s[j - 1 := s[j]][j := s[j - 1]], j - 1, i)
  {
    LexLeTotal(s[j - 1], s[j]);
  }

  /** Sinking stops at the front or behind a smaller element, with the
      prefix ascending. */
  lemma SinkingDone(s: seq<string>, j: int, i: int)
    requires Sinking(s, j, i) && (j == 0 || LexLe(s[j - 1], s[j]))
    ensures SortedUpTo(s, i + 1)
  {
    forall p | 0 <= p < j ensures LexLe(s[p], s[j]) {
      if p < j - 1 { LexLeTransitive(s[p], s[j - 1], s[j]); }
    }
  }

  /** In-place insertion sort, standing for `Vec::sort`. */
  method SortInPlace(a: array<string>)
    modifies a
    ensures Sorted(a[..])
    ensures multiset(a[..]) == multiset(old(a[..]))
  {
    var i := 0;
    while i < a.Length
      invariant 0 <= i <= a.Length
      invariant SortedUpTo(a[..], i)
      invariant multiset(a[..]) == multiset(old(a[..]))
    {
      SinkLast(a, i);
      i := i + 1;
    }
  }

  /** Moves `a[i]` down into the ascending prefix `a[..i]`. */
  method SinkLast(a: array<string>, i: int)
    requires 0 <= i < a.Length
    requires SortedUpTo(a[..], i)
    modifies a
    ensures SortedUpTo(a[..], i + 1)
    ensures multiset(a[..]) == multiset(old(a[..]))
  {
    var j := i;
    SinkingStart(a[..], i);
    while j > 0 && !LexLe(a[j - 1], a[j])
      invariant Sinking(a[..], j, i)
      invariant multiset(a[..]) == multiset(old(a[..]))
    {
      ghost var s := a[..];
      SinkingStep(s, j, i);
      a[j - 1], a[j] := a[j], a[j - 1];
      assert a[..] == s[j - 1 := s[j]][j := s[j - 1]];
      j := j - 1;
    }
    SinkingDone(a[..], j, i);
  }
}
