/*
 * Identifiers of classes, functions and variables, and the ordering the
 * registry uses to enumerate them.
 *
 * An identifier wraps a string and derives Rust's `Ord`, which compares
 * strings lexicographically; `Vec::sort` and `Vec::dedup` are modelled by
 * `Sort` and `Dedup` below.
 */
module Identifiers {

  type Class = string
  type Fn = string
  type Var = string

  /** Lexicographic order on strings: `a` comes strictly before `b`. */
  predicate Less(a: string, b: string)
    decreases |a|
  {
    if a == [] then b != []
    else if b == [] then false
    else if a[0] != b[0] then a[0] < b[0]
    else Less(a[1..], b[1..])
  }

  lemma {:induction false} LessIrreflexive(a: string)
    ensures !Less(a, a)
    decreases |a|
  {
    if a != [] {
      LessIrreflexive(a[1..]);
    }
  }

  lemma {:induction false} LessTransitive(a: string, b: string, c: string)
    requires Less(a, b) && Less(b, c)
    ensures Less(a, c)
    decreases |a|
  {
    if a != [] && a[0] == b[0] && b[0] == c[0] {
      LessTransitive(a[1..], b[1..], c[1..]);
    }
  }

  lemma {:induction false} LessTotal(a: string, b: string)
    ensures a == b || Less(a, b) || Less(b, a)
    decreases |a|
  {
    if a != [] && b != [] && a[0] == b[0] {
      LessTotal(a[1..], b[1..]);
      if a[1..] == b[1..] {
        assert a == [a[0]] + a[1..] && b == [b[0]] + b[1..];
      }
    }
  }

  /** Non-decreasing order. */
  predicate Sorted(s: seq<string>) {
    forall i, j :: 0 <= i < j < |s| ==> !Less(s[j], s[i])
  }

  /** Increasing order, hence also free of duplicates. */
  predicate StrictlySorted(s: seq<string>) {
    forall i, j :: 0 <= i < j < |s| ==> Less(s[i], s[j])
  }

  /** Inserts `x` into the sorted sequence `s`, before the first element not less than it. */
  function Insert(x: string, s: seq<string>): (r: seq<string>)
    requires Sorted(s)
    ensures Sorted(r)
    ensures multiset(r) == multiset(s) + multiset{x}
  {
    if s == [] then [x]
    else if !Less(s[0], x) then
      LessBelowSorted(x, s);
      [x] + s
    else
      var rest := Insert(x, s[1..]);
      assert s == [s[0]] + s[1..];
      forall k | 0 <= k < |rest| ensures !Less(rest[k], s[0]) {
        assert rest[k] in multiset(rest);
        if rest[k] == x {
          LessIrreflexive(x);
        } else {
          assert rest[k] in multiset(s[1..]);
          var m :| 0 <= m < |s[1..]| && s[1..][m] == rest[k];
          assert s[m + 1] == rest[k];
        }
        if Less(rest[k], s[0]) && rest[k] == x {
          LessTotal(x, s[0]);
          LessTransitive(x, s[0], x);
        }
      }
      [s[0]] + rest
  }

  /** If `x` is not above the head of a sorted sequence, it is not above any element. */
  lemma LessBelowSorted(x: string, s: seq<string>)
    requires Sorted(s) && s != [] && !Less(s[0], x)
    ensures forall k :: 0 <= k < |s| ==> !Less(s[k], x)
  {
    forall k | 0 <= k < |s| ensures !Less(s[k], x) {
      if Less(s[k], x) {
        LessTotal(s[0], s[k]);
        if Less(s[0], s[k]) {
          LessTransitive(s[0], s[k], x);
        }
      }
    }
  }

  /** `Vec::sort`: a sorted permutation of `s`. */
  function Sort(s: seq<string>): (r: seq<string>)
    ensures Sorted(r)
    ensures multiset(r) == multiset(s)
  {
    if s == [] then []
    else
      assert s == [s[0]] + s[1..];
      Insert(s[0], Sort(s[1..]))
  }

  /** `Vec::dedup`: drops every element equal to the one before it. */
  function Dedup(s: seq<string>): (r: seq<string>)
    ensures forall x :: x in r <==> x in s
    ensures forall k :: 0 <= k < |r| - 1 ==> r[k] != r[k + 1]
    ensures s != [] ==> r != [] && r[0] == s[0]
  {
    if |s| <= 1 then s
    else if s[0] == s[1] then Dedup(s[1..])
    else [s[0]] + Dedup(s[1..])
  }

  /** On sorted input, removing adjacent duplicates leaves a strictly increasing sequence. */
  lemma {:induction false} DedupSortedIsStrict(s: seq<string>)
    requires Sorted(s)
    ensures StrictlySorted(Dedup(s))
    decreases |s|
  {
    if |s| > 1 {
      DedupSortedIsStrict(s[1..]);
      var rest := Dedup(s[1..]);
      if s[0] != s[1] {
        LessTotal(s[0], s[1]);
        forall k | 0 <= k < |rest| ensures Less(s[0], rest[k]) {
          assert rest[k] in s[1..];
          var m :| 1 <= m < |s| && s[m] == rest[k];
          if m > 1 {
            LessTotal(s[1], s[m]);
            if s[1] != s[m] {
              LessTransitive(s[0], s[1], s[m]);
            }
          }
        }
      }
    }
  }

  /** Sorting and deduplicating: the strictly increasing sequence of the elements of `s`. */
  function SortDedup(s: seq<string>): (r: seq<string>)
    ensures StrictlySorted(r)
    ensures forall x :: x in r <==> x in s
  {
    var sorted := Sort(s);
    DedupSortedIsStrict(sorted);
    assert forall x :: x in sorted <==> x in multiset(s);
    Dedup(sorted)
  }

  /** A sorted sequence without repeated elements is strictly increasing. */
  lemma SortedDistinctIsStrict(s: seq<string>)
    requires Sorted(s)
    requires forall i, j :: 0 <= i < j < |s| ==> s[i] != s[j]
    ensures StrictlySorted(s)
  {
    forall i, j | 0 <= i < j < |s| ensures Less(s[i], s[j]) {
      LessTotal(s[i], s[j]);
    }
  }

  /**
   * Collects the keys of a map into a vector and sorts it, as `keys().cloned().collect()`
   * followed by `sort()` does: the result is the unique strictly increasing enumeration
   * of `keys` (see `StrictlySortedUnique`).
   */
  method SortedKeys(keys: set<string>) returns (r: seq<string>)
    ensures StrictlySorted(r)
    ensures forall x :: x in r <==> x in keys
  {
    var collected: seq<string> := [];
    var rest := keys;
    while rest != {}
      invariant rest <= keys
      invariant forall x :: x in collected <==> x in keys && x !in rest
      invariant forall i, j :: 0 <= i < j < |collected| ==> collected[i] != collected[j]
      decreases rest
    {
      var k :| k in rest;
      collected := collected + [k];
      rest := rest - {k};
    }
    r := Sort(collected);
    SortKeepsDistinct(collected);
    SortedDistinctIsStrict(r);
    assert forall x :: x in r <==> x in multiset(collected);
  }

  /** Sorting a sequence without repeats yields a sequence without repeats. */
  lemma SortKeepsDistinct(s: seq<string>)
    requires forall i, j :: 0 <= i < j < |s| ==> s[i] != s[j]
    ensures forall i, j :: 0 <= i < j < |Sort(s)| ==> Sort(s)[i] != Sort(s)[j]
  {
    var r := Sort(s);
    forall i, j | 0 <= i < j < |r| ensures r[i] != r[j] {
      if r[i] == r[j] {
        RepeatCountsTwo(r, i, j);
        DistinctCountsOne(s, r[i]);
      }
    }
  }

  /** An element found at two positions occurs at least twice. */
  lemma RepeatCountsTwo(r: seq<string>, i: nat, j: nat)
    requires i < j < |r| && r[i] == r[j]
    ensures multiset(r)[r[i]] >= 2
  {
    assert r == r[..j] + r[j..];
    assert r[..j][i] == r[i] && r[j..][0] == r[i];
    assert multiset(r) == multiset(r[..j]) + multiset(r[j..]);
  }

  /** In a sequence without repeats, every element occurs at most once. */
  lemma {:induction false} DistinctCountsOne(s: seq<string>, x: string)
    requires forall i, j :: 0 <= i < j < |s| ==> s[i] != s[j]
    ensures multiset(s)[x] <= 1
    decreases |s|
  {
    if s != [] {
      assert s == [s[0]] + s[1..];
      DistinctCountsOne(s[1..], x);
      if s[0] == x {
        assert x !in s[1..];
      }
    }
  }

  /**
   * Two strictly increasing sequences with the same elements are equal: the sorted
   * enumeration of a set of identifiers is unique, whatever order the keys were found in.
   */
  lemma {:induction false} StrictlySortedUnique(a: seq<string>, b: seq<string>)
    requires StrictlySorted(a) && StrictlySorted(b)
    requires forall x :: x in a <==> x in b
    ensures a == b
    decreases |a|
  {
    if a != [] {
      assert a[0] in b;
      assert b != [] && b[0] in a;
      if a[0] != b[0] {
        var i :| 0 <= i < |a| && a[i] == b[0];
        var j :| 0 <= j < |b| && b[j] == a[0];
        assert Less(a[0], a[i]) && Less(b[0], b[j]);
        LessTransitive(a[0], b[0], a[0]);
        LessIrreflexive(a[0]);
      }
      forall x ensures x in a[1..] <==> x in b[1..] {
        if x in a[1..] {
          var i :| 1 <= i < |a| && a[i] == x;
          assert Less(a[0], x);
          LessIrreflexive(x);
          assert x in a;
          var j :| 0 <= j < |b| && b[j] == x;
          assert j != 0;
          assert b[1..][j - 1] == x;
        }
        if x in b[1..] {
          var j :| 1 <= j < |b| && b[j] == x;
          assert Less(b[0], x);
          LessIrreflexive(x);
          assert x in b;
          var i :| 0 <= i < |a| && a[i] == x;
          assert i != 0;
          assert a[1..][i - 1] == x;
        }
      }
      StrictlySortedUnique(a[1..], b[1..]);
      assert a == [a[0]] + a[1..] && b == [b[0]] + b[1..];
    } else if b != [] {
      HeadIsMember(b);
      assert false;
    }
  }

  /** Only brings the head's membership into a proof's context; the solver needs no help with it. */
  lemma HeadIsMember(s: seq<string>)
    requires s != []
    ensures s[0] in s
  {
  }
}
