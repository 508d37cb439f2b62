/*
 * The crate root of the linearization engine: its error type and the three
 * small list helpers the merge relies on.
 */
module C3Lib {

  /** The failures the linearization engine reports. */
  datatype C3Error =
    | BaseClassDoesNotExists(name: string)
    | EmptySet
    | PushingEmptySet
    | NoMoreCandidates

  datatype Result<T> = Success(value: T) | Failure(error: C3Error)

  datatype Option<T> = None | Some(value: T)

  // ---------------------------------------------------------------------
  // split_coma: `s.split(", ")` with the empty pieces filtered out
  // ---------------------------------------------------------------------

  /** `p` contains the separator ", " somewhere. */
  predicate HasSeparator(p: string) {
    exists i :: 0 <= i && i + 1 < |p| && p[i] == ',' && p[i + 1] == ' '
  }

  /**
   * `str::split(", ")`: the pieces between the leftmost non-overlapping occurrences
   * of the separator; the empty string gives one empty piece.
   */
  function Split(s: string): (r: seq<string>)
    ensures |r| >= 1
    decreases |s|
  {
    if |s| < 2 then [s]
    else if s[0] == ',' && s[1] == ' ' then [""] + Split(s[2..])
    else
      var rest := Split(s[1..]);
      [[s[0]] + rest[0]] + rest[1..]
  }

  /** The pieces glued back together with the separator. */
  function Join(ps: seq<string>): string
    requires |ps| >= 1
  {
    if |ps| == 1 then ps[0] else ps[0] + ", " + Join(ps[1..])
  }

  /** The non-empty pieces, in order. */
  function DropEmpty(ps: seq<string>): (r: seq<string>)
    ensures forall p :: p in r ==> p != []
    ensures forall p :: p in r ==> p in ps
    ensures forall p :: p in ps && p != [] ==> p in r
    ensures |ps| == 1 ==> r == (if ps[0] == [] then [] else ps)
  {
    if ps == [] then []
    else if ps[0] == [] then DropEmpty(ps[1..])
    else [ps[0]] + DropEmpty(ps[1..])
  }

  /** `split_coma`: the parent list of a declaration such as "B, C". */
  function SplitComa(s: string): (r: seq<string>)
    ensures forall p :: p in r ==> p != []
  {
    DropEmpty(Split(s))
  }

  /** Splitting then joining gives back the original string. */
  lemma {:induction false} JoinSplit(s: string)
    ensures Join(Split(s)) == s
    decreases |s|
  {
    if |s| >= 2 {
      if s[0] == ',' && s[1] == ' ' {
        JoinSplit(s[2..]);
        assert s == ", " + s[2..];
      } else {
        var rest := Split(s[1..]);
        JoinSplit(s[1..]);
        if |rest| == 1 {
          assert s == [s[0]] + s[1..];
        } else {
          assert Join(rest) == rest[0] + ", " + Join(rest[1..]);
          assert ([[s[0]] + rest[0]] + rest[1..])[1..] == rest[1..];
          assert s == [s[0]] + s[1..];
        }
      }
    }
  }

  /** A piece without the separator splits off cleanly in front of one. */
  lemma {:induction false} SplitAfterPiece(p: string, t: string)
    requires !HasSeparator(p)
    ensures Split(p + ", " + t) == [p] + Split(t)
    decreases |p|
  {
    var s := p + ", " + t;
    if p == [] {
      assert s == ", " + t && s[2..] == t;
    } else {
      assert !(s[0] == ',' && s[1] == ' ') by {
        if |p| >= 2 {
          assert !(p[0] == ',' && p[1] == ' ');
        }
      }
      SeparatorInSuffix(p);
      SplitAfterPiece(p[1..], t);
      assert s[1..] == p[1..] + ", " + t;
      assert [p[0]] + p[1..] == p;
    }
  }

  /** A separator in the suffix after the first character is a separator in the string. */
  lemma SeparatorInSuffix(p: string)
    requires p != []
    ensures HasSeparator(p[1..]) ==> HasSeparator(p)
  {
    if HasSeparator(p[1..]) {
      var i :| 0 <= i && i + 1 < |p[1..]| && p[1..][i] == ',' && p[1..][i + 1] == ' ';
      assert p[i + 1] == ',' && p[i + 2] == ' ';
    }
  }

  /** A string without the separator is a single piece. */
  lemma {:induction false} SplitSinglePiece(p: string)
    requires !HasSeparator(p)
    ensures Split(p) == [p]
    decreases |p|
  {
    if |p| >= 2 {
      assert !(p[0] == ',' && p[1] == ' ');
      SeparatorInSuffix(p);
      SplitSinglePiece(p[1..]);
      assert [p[0]] + p[1..] == p;
    }
  }

  /** Joining pieces that do not contain the separator, then splitting, gives back the pieces. */
  lemma {:induction false} SplitJoin(ps: seq<string>)
    requires |ps| >= 1
    requires forall p :: p in ps ==> !HasSeparator(p)
    ensures Split(Join(ps)) == ps
    decreases |ps|
  {
    if |ps| == 1 {
      SplitSinglePiece(ps[0]);
    } else {
      SplitJoin(ps[1..]);
      SplitAfterPiece(ps[0], Join(ps[1..]));
      assert ps == [ps[0]] + ps[1..];
    }
  }

  /** The filter keeps the non-empty pieces in their order: one before another in the input stays before it. */
  lemma {:induction false} DropEmptyKeepsOrder(ps: seq<string>, i: nat, j: nat)
    requires i < j < |ps| && ps[i] != [] && ps[j] != []
    ensures exists p, q :: 0 <= p < q < |DropEmpty(ps)| && DropEmpty(ps)[p] == ps[i] && DropEmpty(ps)[q] == ps[j]
    decreases |ps|
  {
    var r := DropEmpty(ps);
    var r' := DropEmpty(ps[1..]);
    if i == 0 {
      assert ps[1..][j - 1] == ps[j];
      assert ps[j] in r';
      var q :| 0 <= q < |r'| && r'[q] == ps[j];
      assert r[0] == ps[0] && r[q + 1] == ps[j];
    } else {
      DropEmptyKeepsOrder(ps[1..], i - 1, j - 1);
      var p, q :| 0 <= p < q < |r'| && r'[p] == ps[1..][i - 1] && r'[q] == ps[1..][j - 1];
      if ps[0] == [] {
        assert r == r';
      } else {
        assert r[p + 1] == ps[i] && r[q + 1] == ps[j];
      }
    }
  }

  /** The filter drops exactly the empty pieces: its length is the input's less the number of empty pieces. */
  lemma {:induction false} DropEmptyCount(ps: seq<string>)
    ensures |DropEmpty(ps)| + multiset(ps)[""] == |ps|
    decreases |ps|
  {
    if ps != [] {
      DropEmptyCount(ps[1..]);
      assert ps == [ps[0]] + ps[1..];
    }
  }

  /**
   * The filter works piece by piece: filtering a concatenation concatenates the filtered parts.
   * With the one-piece case of `DropEmpty`'s contract, this fixes its result exactly.
   */
  lemma {:induction false} DropEmptyAppend(a: seq<string>, b: seq<string>)
    ensures DropEmpty(a + b) == DropEmpty(a) + DropEmpty(b)
    decreases |a|
  {
    if a == [] {
      assert a + b == b;
    } else {
      assert (a + b)[0] == a[0] && (a + b)[1..] == a[1..] + b;
      DropEmptyAppend(a[1..], b);
    }
  }

  lemma {:induction false} DropEmptyKeepsNonEmpty(ps: seq<string>)
    requires forall p :: p in ps ==> p != []
    ensures DropEmpty(ps) == ps
    decreases |ps|
  {
    if ps != [] {
      assert ps[0] in ps;
      assert forall p :: p in ps[1..] ==> p in ps;
      DropEmptyKeepsNonEmpty(ps[1..]);
      assert ps == [ps[0]] + ps[1..];
    }
  }

  /**
   * `split_coma` inverts writing a parent list out: joining non-empty names that
   * do not contain the separator and splitting them again gives back the names.
   */
  lemma SplitComaJoin(ps: seq<string>)
    requires |ps| >= 1
    requires forall p :: p in ps ==> p != [] && !HasSeparator(p)
    ensures SplitComa(Join(ps)) == ps
  {
    SplitJoin(ps);
    DropEmptyKeepsNonEmpty(ps);
  }

  /** The two parent lists the tests spell out, and two lists with empty pieces that the filter drops. */
  lemma SplitComaExamples()
    ensures SplitComa("") == []
    ensures SplitComa("B, C") == ["B", "C"]
    ensures SplitComa("B, , C") == ["B", "C"]
    ensures SplitComa("B, C, ") == ["B", "C"]
  {
    assert Split("") == [""];
    assert "B, C" == Join(["B", "C"]);
    assert !HasSeparator("B") && !HasSeparator("C") && !HasSeparator("");
    SplitComaJoin(["B", "C"]);
    assert "B, , C" == Join(["B", "", "C"]);
    SplitJoin(["B", "", "C"]);
    assert "B, C, " == Join(["B", "C", ""]);
    SplitJoin(["B", "C", ""]);
  }

  // ---------------------------------------------------------------------
  // in_tail and is_subset
  // ---------------------------------------------------------------------

  /**
   * `in_tail`: whether `element` occurs in `list` after its first position;
   * an empty list has no head and is an `EmptySet` error.
   */
  function InTail<T(==)>(element: T, list: seq<T>): (r: Result<bool>)
    ensures list == [] <==> r == Failure(EmptySet)
    ensures r.Success? ==> (r.value <==> exists i :: 1 <= i < |list| && list[i] == element)
  {
    if list == [] then Failure(EmptySet)
    else
      assert forall i :: 1 <= i < |list| ==> list[i] == list[1..][i - 1];
      Success(element in list[1..])
  }

  /**
   * `is_subset(larger, smaller)`: every element of `smaller` occurs in `larger`,
   * whatever the order and multiplicity; an empty `smaller` is a subset of anything.
   */
  function IsSubset<T(==)>(larger: seq<T>, smaller: seq<T>): (r: bool)
    ensures r <==> forall x :: x in smaller ==> x in larger
    ensures smaller == [] ==> r
  {
    if smaller == [] then true
    else
      smaller[0] in larger && IsSubset(larger, smaller[1..])
  }
}
