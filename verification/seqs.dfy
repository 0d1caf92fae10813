/** Generic sequence helpers shared by the hot-path, eligibility and rewrite models. */
module Seqs {

  /** No element occurs twice. */
  predicate Distinct<T(==)>(s: seq<T>) {
    forall i, j :: 0 <= i < j < |s| ==> s[i] != s[j]
  }

  /** `a` can be obtained from `b` by deleting elements, keeping the order of the rest. */
  predicate IsSubsequence<T(==)>(a: seq<T>, b: seq<T>)
    decreases |b|
  {
    if a == [] then true
    else if b == [] then false
    else if a[0] == b[0] then IsSubsequence(a[1..], b[1..])
    else IsSubsequence(a, b[1..])
  }

  /** The elements of `s` that satisfy `keep`, in their original order. */
  function Filter<T(!new)>(s: seq<T>, keep: T -> bool): (r: seq<T>)
    ensures |r| <= |s|
    ensures forall x :: x in r <==> x in s && keep(x)
    ensures forall i :: 0 <= i < |r| ==> keep(r[i])
  {
    if s == [] then []
    else (if keep(s[0]) then [s[0]] else []) + Filter(s[1..], keep)
  }

  lemma {:induction false} FilterIsSubsequence<T(!new)>(s: seq<T>, keep: T -> bool)
    ensures IsSubsequence(Filter(s, keep), s)
  {
    if s != [] {
      FilterIsSubsequence(s[1..], keep);
      var rest := Filter(s[1..], keep);
      if keep(s[0]) {
        assert Filter(s, keep) == [s[0]] + rest;
        assert ([s[0]] + rest)[1..] == rest;
      } else {
        assert Filter(s, keep) == rest;
        SubsequenceOfTail(rest, s);
      }
    }
  }

  /** A subsequence of the tail is a subsequence of the whole. */
  lemma {:induction false} SubsequenceOfTail<T>(a: seq<T>, b: seq<T>)
    requires b != []
    requires IsSubsequence(a, b[1..])
    ensures IsSubsequence(a, b)
    decreases |a| + |b|
  {
    if a != [] && a[0] == b[0] {
      // Both the kept element and the rest of `a` fit into the tail of `b`.
      SubsequenceDropHead(a, b[1..]);
    }
  }

  /** Dropping the head of a subsequence keeps it a subsequence. */
  lemma {:induction false} SubsequenceDropHead<T>(a: seq<T>, b: seq<T>)
    requires a != []
    requires IsSubsequence(a, b)
    ensures IsSubsequence(a[1..], b)
    decreases |a| + |b|
  {
    assert b != [];
    if a[0] == b[0] {
      if a[1..] != [] {
        SubsequenceOfTail(a[1..], b);
      }
    } else {
      SubsequenceDropHead(a, b[1..]);
      if a[1..] != [] {
        SubsequenceOfTail(a[1..], b);
      }
    }
  }

  /** The distinct elements of `s`, each at the position of its first occurrence. */
  function Dedup<T(==,!new)>(s: seq<T>): (d: seq<T>)
    ensures Distinct(d)
    ensures forall x :: x in d <==> x in s
    ensures |d| <= |s|
  {
    if s == [] then []
    else
      var d := Dedup(s[..|s| - 1]);
      var x := s[|s| - 1];
      assert forall y :: y in s <==> y in s[..|s| - 1] || y == x by {
        assert s == s[..|s| - 1] + [x];
      }
      if x in d then d else d + [x]
  }

  /** A non-empty sequence is its prefix followed by its last element. */
  lemma SplitLast<T>(s: seq<T>)
    requires s != []
    ensures s == s[..|s| - 1] + [s[|s| - 1]]
  {
  }

  /** Every element of a subsequence occurs in the whole. */
  lemma {:induction false} SubsequenceIn<T>(a: seq<T>, b: seq<T>)
    requires IsSubsequence(a, b)
    ensures forall x :: x in a ==> x in b
    decreases |b|
  {
    if a != [] {
      if a[0] == b[0] {
        SubsequenceIn(a[1..], b[1..]);
        assert forall x :: x in a ==> x == a[0] || x in a[1..];
      } else {
        SubsequenceIn(a, b[1..]);
      }
    }
  }

  /** A subsequence of a sequence without repetitions has none either. */
  lemma {:induction false} SubsequenceDistinct<T>(a: seq<T>, b: seq<T>)
    requires IsSubsequence(a, b) && Distinct(b)
    ensures Distinct(a)
    decreases |b|
  {
    if a != [] {
      assert Distinct(b[1..]) by {
        forall i, j | 0 <= i < j < |b[1..]|
          ensures b[1..][i] != b[1..][j]
        {
          assert b[1..][i] == b[i + 1] && b[1..][j] == b[j + 1];
        }
      }
      if a[0] == b[0] {
        SubsequenceDistinct(a[1..], b[1..]);
        SubsequenceIn(a[1..], b[1..]);
        forall i, j | 0 <= i < j < |a|
          ensures a[i] != a[j]
        {
          assert a[j] == a[1..][j - 1];
          if i > 0 {
            assert a[i] == a[1..][i - 1];
          } else {
            assert a[j] in b[1..];
            var m :| 0 <= m < |b[1..]| && b[1..][m] == a[j];
            assert b[m + 1] == a[j];
          }
        }
      } else {
        SubsequenceDistinct(a, b[1..]);
      }
    }
  }

  /** Deduplicating one more element keeps the list, or appends the element if it is new. */
  lemma DedupSnoc<T(!new)>(s: seq<T>, x: T)
    ensures Dedup(s + [x]) == if x in s then Dedup(s) else Dedup(s) + [x]
  {
    assert (s + [x])[..|s|] == s;
  }

  /** Position of the first occurrence of `x` in `s`. */
  function IndexOf<T(==)>(s: seq<T>, x: T): (i: nat)
    requires x in s
    ensures i < |s| && s[i] == x
    ensures forall j :: 0 <= j < i ==> s[j] != x
  {
    if s[0] == x then 0 else 1 + IndexOf(s[1..], x)
  }

  /** Appending an element keeps the first occurrence of what was there and places the new element last. */
  lemma {:induction false} IndexOfSnoc<T>(s: seq<T>, y: T, x: T)
    requires x in s || x == y
    ensures x in s ==> IndexOf(s + [y], x) == IndexOf(s, x)
    ensures x !in s ==> IndexOf(s + [y], x) == |s|
  {
    if s != [] && s[0] != x {
      assert (s + [y])[1..] == s[1..] + [y];
      IndexOfSnoc(s[1..], y, x);
    }
  }

  /** Some occurrence of `x` in `s` comes before some occurrence of `y`. */
  predicate Precedes<T(==)>(s: seq<T>, x: T, y: T) {
    exists i, j :: 0 <= i < j < |s| && s[i] == x && s[j] == y
  }

  /** Inserting an element anywhere keeps every ordered pair in order. */
  lemma PrecedesInsert<T>(s: seq<T>, at: nat, z: T, x: T, y: T)
    requires at <= |s| && Precedes(s, x, y)
    ensures Precedes(s[..at] + [z] + s[at..], x, y)
  {
    var t := s[..at] + [z] + s[at..];
    var i, j :| 0 <= i < j < |s| && s[i] == x && s[j] == y;
    var i', j' := if i < at then i else i + 1, if j < at then j else j + 1;
    assert t[i'] == x && t[j'] == y;
  }

  /** An element already present precedes one appended after it. */
  lemma PrecedesLast<T>(s: seq<T>, x: T, y: T)
    requires x in s
    ensures Precedes(s + [y], x, y)
  {
    var i :| 0 <= i < |s| && s[i] == x;
    assert (s + [y])[i] == x && (s + [y])[|s|] == y;
  }

  /** A sequence without repetitions drawn from `S` is no longer than `S` is large. */
  lemma {:induction false} DistinctLengthBound<T>(s: seq<T>, S: set<T>)
    requires Distinct(s)
    requires forall i :: 0 <= i < |s| ==> s[i] in S
    ensures |s| <= |S|
  {
    if s != [] {
      var rest := s[1..];
      assert forall i :: 0 <= i < |rest| ==> rest[i] in S - {s[0]} by {
        forall i | 0 <= i < |rest|
          ensures rest[i] in S - {s[0]}
        {
          assert rest[i] == s[i + 1];
        }
      }
      DistinctLengthBound(rest, S - {s[0]});
    }
  }
}
