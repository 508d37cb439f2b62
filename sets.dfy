/*
 * The list of candidate orders the C3 merge works on, and its merge step.
 *
 * `Sets` holds a list of non-empty lists. One merge step picks the first head,
 * in list order, that occurs in no list's tail, deletes it from every list and
 * drops the lists that become empty.
 */
module C3Sets {
  import opened C3Lib

  // ---------------------------------------------------------------------
  // The lists as values
  // ---------------------------------------------------------------------

  /** Every stored list is non-empty: the invariant of `Sets`. */
  predicate NoEmpty<T>(ss: seq<seq<T>>) {
    forall i :: 0 <= i < |ss| ==> ss[i] != []
  }

  /** The total number of stored elements: the measure that the merge decreases. */
  function Size<T>(ss: seq<seq<T>>): nat {
    if ss == [] then 0 else |ss[0]| + Size(ss[1..])
  }

  /** `y` is stored in some list. */
  predicate Occurs<T(==)>(y: T, ss: seq<seq<T>>) {
    exists i :: 0 <= i < |ss| && y in ss[i]
  }

  /** The heads of the lists, in list order. */
  function Heads<T>(ss: seq<seq<T>>): (r: seq<T>)
    requires NoEmpty(ss)
    ensures |r| == |ss|
    ensures forall i :: 0 <= i < |ss| ==> r[i] == ss[i][0]
  {
    if ss == [] then [] else [ss[0][0]] + Heads(ss[1..])
  }

  /** `x` occurs in some list after that list's head. */
  predicate InSomeTail<T(==)>(x: T, ss: seq<seq<T>>) {
    ss != [] && ((ss[0] != [] && x in ss[0][1..]) || InSomeTail(x, ss[1..]))
  }

  /** `InSomeTail` says that `x` stands at a position other than the first in some list. */
  lemma {:induction false} InSomeTailAt<T>(x: T, ss: seq<seq<T>>)
    ensures InSomeTail(x, ss) <==> exists i, j :: 0 <= i < |ss| && 1 <= j < |ss[i]| && ss[i][j] == x
    decreases |ss|
  {
    if ss != [] {
      InSomeTailAt(x, ss[1..]);
      if InSomeTail(x, ss) {
        if ss[0] != [] && x in ss[0][1..] {
          var j :| 0 <= j < |ss[0][1..]| && ss[0][1..][j] == x;
          assert ss[0][j + 1] == x;
        } else {
          var i, j :| 0 <= i < |ss[1..]| && 1 <= j < |ss[1..][i]| && ss[1..][i][j] == x;
          assert ss[i + 1][j] == x;
        }
      }
      if exists i, j :: 0 <= i < |ss| && 1 <= j < |ss[i]| && ss[i][j] == x {
        var i, j :| 0 <= i < |ss| && 1 <= j < |ss[i]| && ss[i][j] == x;
        if i == 0 {
          assert ss[0][1..][j - 1] == x;
        } else {
          assert ss[1..][i - 1][j] == x;
        }
      }
    }
  }

  /** The first of `candidates` that occurs in no tail of `ss`. */
  function FirstSolutionAmong<T(==)>(candidates: seq<T>, ss: seq<seq<T>>): Option<T> {
    if candidates == [] then None
    else if !InSomeTail(candidates[0], ss) then Some(candidates[0])
    else FirstSolutionAmong(candidates[1..], ss)
  }

  /** The element one merge step takes: the first head, in list order, found in no tail. */
  function FirstSolution<T(==)>(ss: seq<seq<T>>): Option<T>
    requires NoEmpty(ss)
  {
    FirstSolutionAmong(Heads(ss), ss)
  }

  lemma {:induction false} FirstSolutionAmongIsFirst<T>(candidates: seq<T>, ss: seq<seq<T>>)
    ensures FirstSolutionAmong(candidates, ss).None? <==>
              forall k :: 0 <= k < |candidates| ==> InSomeTail(candidates[k], ss)
    ensures FirstSolutionAmong(candidates, ss).Some? ==>
              exists k :: 0 <= k < |candidates| && FirstSolutionAmong(candidates, ss).value == candidates[k]
                && !InSomeTail(candidates[k], ss)
                && forall m :: 0 <= m < k ==> InSomeTail(candidates[m], ss)
    decreases |candidates|
  {
    if candidates != [] && InSomeTail(candidates[0], ss) {
      var rest := candidates[1..];
      FirstSolutionAmongIsFirst(rest, ss);
      if FirstSolutionAmong(rest, ss).Some? {
        var k :| 0 <= k < |rest| && FirstSolutionAmong(rest, ss).value == rest[k]
                 && !InSomeTail(rest[k], ss)
                 && forall m :: 0 <= m < k ==> InSomeTail(rest[m], ss);
        assert candidates[k + 1] == rest[k];
        forall m | 0 <= m < k + 1 ensures InSomeTail(candidates[m], ss) {
          if m > 0 {
            assert candidates[m] == rest[m - 1];
          }
        }
      } else {
        forall k | 0 <= k < |candidates| ensures InSomeTail(candidates[k], ss) {
          if k > 0 {
            assert candidates[k] == rest[k - 1];
          }
        }
      }
    }
  }

  /**
   * The merge step's choice: it succeeds exactly when some head is in no tail, and
   * then it is the head of the first such list, all earlier heads being in some tail.
   */
  lemma FirstSolutionIsFirst<T>(ss: seq<seq<T>>)
    requires NoEmpty(ss)
    ensures FirstSolution(ss).None? <==> forall k :: 0 <= k < |ss| ==> InSomeTail(ss[k][0], ss)
    ensures FirstSolution(ss).Some? ==>
              exists k :: 0 <= k < |ss| && FirstSolution(ss).value == ss[k][0]
                && !InSomeTail(ss[k][0], ss)
                && forall m :: 0 <= m < k ==> InSomeTail(ss[m][0], ss)
  {
    FirstSolutionAmongIsFirst(Heads(ss), ss);
  }

  /** The solution found stands in no tail. */
  lemma FirstSolutionNotInTail<T>(ss: seq<seq<T>>)
    requires NoEmpty(ss) && FirstSolution(ss).Some?
    ensures !InSomeTail(FirstSolution(ss).value, ss)
  {
    FirstSolutionIsFirst(ss);
  }

  /** Conversely, the first candidate found in no tail is the one chosen. */
  lemma {:induction false} FirstSolutionAmongAt<T>(candidates: seq<T>, ss: seq<seq<T>>, k: nat)
    requires k < |candidates|
    requires forall m :: 0 <= m < k ==> InSomeTail(candidates[m], ss)
    requires !InSomeTail(candidates[k], ss)
    ensures FirstSolutionAmong(candidates, ss) == Some(candidates[k])
    decreases k
  {
    if k > 0 {
      assert InSomeTail(candidates[0], ss);
      var rest := candidates[1..];
      assert forall m :: 0 <= m < k - 1 ==> rest[m] == candidates[m + 1];
      FirstSolutionAmongAt(rest, ss, k - 1);
    }
  }

  /** Conversely, the first head found in no tail is the solution. */
  lemma FirstSolutionAt<T>(ss: seq<seq<T>>, k: nat)
    requires NoEmpty(ss) && k < |ss|
    requires forall m :: 0 <= m < k ==> InSomeTail(ss[m][0], ss)
    requires !InSomeTail(ss[k][0], ss)
    ensures FirstSolution(ss) == Some(ss[k][0])
  {
    FirstSolutionAmongAt(Heads(ss), ss, k);
  }

  /** `retain(|x| x != solution)` on one list. */
  function Without<T(==)>(s: seq<T>, x: T): (r: seq<T>)
    ensures forall k :: 0 <= k < |r| ==> r[k] in s && r[k] != x
    ensures forall k :: 0 <= k < |s| && s[k] != x ==> s[k] in r
    ensures |r| <= |s|
    ensures x in s ==> |r| < |s|
    ensures |s| == 1 ==> r == (if s[0] == x then [] else s)
  {
    if s == [] then []
    else if s[0] == x then Without(s[1..], x)
    else [s[0]] + Without(s[1..], x)
  }

  /** `Without` deletes the element everywhere and keeps the others in their relative order. */
  lemma {:induction false} WithoutKeepsOrder<T>(s: seq<T>, x: T, i: nat, j: nat)
    requires i < j < |s| && s[i] != x && s[j] != x
    ensures exists p, q :: 0 <= p < q < |Without(s, x)| && Without(s, x)[p] == s[i] && Without(s, x)[q] == s[j]
    decreases |s|
  {
    var w := Without(s, x);
    if i == 0 {
      assert w[0] == s[0];
      assert s[j] in Without(s[1..], x) by { assert s[1..][j - 1] == s[j]; }
      var q :| 0 <= q < |Without(s[1..], x)| && Without(s[1..], x)[q] == s[j];
      assert w[q + 1] == s[j];
    } else {
      WithoutKeepsOrder(s[1..], x, i - 1, j - 1);
      var w' := Without(s[1..], x);
      var p, q :| 0 <= p < q < |w'| && w'[p] == s[1..][i - 1] && w'[q] == s[1..][j - 1];
      if s[0] == x {
        assert w == w';
      } else {
        assert w[p + 1] == s[i] && w[q + 1] == s[j];
      }
    }
  }

  /**
   * `Without` works element by element: on a concatenation it concatenates the parts.
   * With the one-element case of its contract, this fixes its result exactly.
   */
  lemma {:induction false} WithoutAppend<T>(a: seq<T>, b: seq<T>, x: T)
    ensures Without(a + b, x) == Without(a, x) + Without(b, x)
    decreases |a|
  {
    if a == [] {
      assert a + b == b;
    } else {
      assert (a + b)[0] == a[0] && (a + b)[1..] == a[1..] + b;
      WithoutAppend(a[1..], b, x);
    }
  }

  /** `Without` deletes exactly the copies of `x`: its length is the input's less their number. */
  lemma {:induction false} WithoutCount<T>(s: seq<T>, x: T)
    ensures |Without(s, x)| + multiset(s)[x] == |s|
    decreases |s|
  {
    if s != [] {
      WithoutCount(s[1..], x);
      assert s == [s[0]] + s[1..];
    }
  }

  /** Deleting an element that does not occur changes nothing. */
  lemma {:induction false} WithoutAbsent<T>(s: seq<T>, x: T)
    requires x !in s
    ensures Without(s, x) == s
    decreases |s|
  {
    if s != [] {
      WithoutAbsent(s[1..], x);
      assert s == [s[0]] + s[1..];
    }
  }

  /** Every list with `x` deleted, before the emptied lists are dropped. */
  function MapWithout<T(==)>(ss: seq<seq<T>>, x: T): (r: seq<seq<T>>)
    ensures |r| == |ss|
    ensures forall i :: 0 <= i < |ss| ==> r[i] == Without(ss[i], x)
  {
    if ss == [] then [] else [Without(ss[0], x)] + MapWithout(ss[1..], x)
  }

  /** `retain(|set| !set.is_empty())`: the non-empty lists, in order. */
  function RetainNonEmpty<T>(ss: seq<seq<T>>): (r: seq<seq<T>>)
    ensures NoEmpty(r)
    ensures Size(r) == Size(ss)
    ensures forall k :: 0 <= k < |r| ==> r[k] in ss
    ensures forall k :: 0 <= k < |ss| && ss[k] != [] ==> ss[k] in r
    ensures |ss| == 1 ==> r == (if ss[0] == [] then [] else ss)
  {
    if ss == [] then []
    else if ss[0] == [] then RetainNonEmpty(ss[1..])
    else [ss[0]] + RetainNonEmpty(ss[1..])
  }

  /** The kept lists keep their order: one before another in the input stays before it. */
  lemma {:induction false} RetainNonEmptyKeepsOrder<T>(ss: seq<seq<T>>, i: nat, j: nat)
    requires i < j < |ss| && ss[i] != [] && ss[j] != []
    ensures exists p, q :: 0 <= p < q < |RetainNonEmpty(ss)| && RetainNonEmpty(ss)[p] == ss[i] && RetainNonEmpty(ss)[q] == ss[j]
    decreases |ss|
  {
    var r := RetainNonEmpty(ss);
    var r' := RetainNonEmpty(ss[1..]);
    if i == 0 {
      assert ss[1..][j - 1] == ss[j];
      assert ss[j] in r';
      var q :| 0 <= q < |r'| && r'[q] == ss[j];
      assert r[0] == ss[0] && r[q + 1] == ss[j];
    } else {
      RetainNonEmptyKeepsOrder(ss[1..], i - 1, j - 1);
      var p, q :| 0 <= p < q < |r'| && r'[p] == ss[1..][i - 1] && r'[q] == ss[1..][j - 1];
      if ss[0] == [] {
        assert r == r';
      } else {
        assert r[p + 1] == ss[i] && r[q + 1] == ss[j];
      }
    }
  }

  /** Exactly the empty lists are dropped: the length is the input's less the number of empty lists. */
  lemma {:induction false} RetainNonEmptyCount<T>(ss: seq<seq<T>>)
    ensures |RetainNonEmpty(ss)| + multiset(ss)[[]] == |ss|
    decreases |ss|
  {
    if ss != [] {
      RetainNonEmptyCount(ss[1..]);
      assert ss == [ss[0]] + ss[1..];
    }
  }

  /**
   * `retain` works list by list: on a concatenation it concatenates the parts.
   * With the one-list case of `RetainNonEmpty`'s contract, this fixes its result exactly.
   */
  lemma {:induction false} RetainNonEmptyAppend<T>(a: seq<seq<T>>, b: seq<seq<T>>)
    ensures RetainNonEmpty(a + b) == RetainNonEmpty(a) + RetainNonEmpty(b)
    decreases |a|
  {
    if a == [] {
      assert a + b == b;
    } else {
      assert (a + b)[0] == a[0] && (a + b)[1..] == a[1..] + b;
      RetainNonEmptyAppend(a[1..], b);
    }
  }

  /** The lists after the solution `x` has been removed from all of them. */
  function Removed<T(==)>(ss: seq<seq<T>>, x: T): seq<seq<T>> {
    RetainNonEmpty(MapWithout(ss, x))
  }

  /** Drops `x` from the heads it stands at, and the lists that this empties. */
  function DropHeads<T(==)>(ss: seq<seq<T>>, x: T): seq<seq<T>>
    requires NoEmpty(ss)
  {
    if ss == [] then []
    else
      var head := if ss[0][0] != x then [ss[0]] else if |ss[0]| == 1 then [] else [ss[0][1..]];
      head + DropHeads(ss[1..], x)
  }

  /**
   * An element found in no tail stands, if anywhere, at the heads of lists: removing it
   * drops exactly those heads and the lists they emptied, and leaves every other list as it was.
   */
  lemma {:induction false} RemovedSolutionDropsHeads<T>(ss: seq<seq<T>>, x: T)
    requires NoEmpty(ss) && !InSomeTail(x, ss)
    ensures Removed(ss, x) == DropHeads(ss, x)
    decreases |ss|
  {
    if ss != [] {
      RemovedSolutionDropsHeads(ss[1..], x);
      var s := ss[0];
      WithoutAbsent(s[1..], x);
      if s[0] != x {
        assert x !in s;
        WithoutAbsent(s, x);
      }
      var mw := MapWithout(ss, x);
      assert mw[1..] == MapWithout(ss[1..], x);
      assert mw == [Without(s, x)] + mw[1..];
    }
  }

  lemma {:induction false} SizeOfMapWithout<T>(ss: seq<seq<T>>, x: T)
    ensures Size(MapWithout(ss, x)) <= Size(ss)
    ensures Occurs(x, ss) ==> Size(MapWithout(ss, x)) < Size(ss)
    decreases |ss|
  {
    if ss != [] {
      SizeOfMapWithout(ss[1..], x);
      assert MapWithout(ss, x)[1..] == MapWithout(ss[1..], x);
      if Occurs(x, ss) && x !in ss[0] {
        var i :| 0 <= i < |ss| && x in ss[i];
        assert ss[1..][i - 1] == ss[i];
      }
    }
  }

  lemma {:induction false} OccursInMapWithout<T>(y: T, ss: seq<seq<T>>, x: T)
    ensures Occurs(y, MapWithout(ss, x)) <==> Occurs(y, ss) && y != x
  {
    var ms := MapWithout(ss, x);
    if Occurs(y, ms) {
      var i :| 0 <= i < |ms| && y in ms[i];
      assert y in ss[i];
    }
    if Occurs(y, ss) && y != x {
      var i :| 0 <= i < |ss| && y in ss[i];
      assert y in ms[i];
    }
  }

  lemma OccursInRetainNonEmpty<T>(y: T, ss: seq<seq<T>>)
    ensures Occurs(y, RetainNonEmpty(ss)) <==> Occurs(y, ss)
  {
    var r := RetainNonEmpty(ss);
    if Occurs(y, r) {
      var i :| 0 <= i < |r| && y in r[i];
      assert r[i] in ss;
    }
    if Occurs(y, ss) {
      var i :| 0 <= i < |ss| && y in ss[i];
      assert ss[i] in r;
    }
  }

  /**
   * What removing a solution does: no empty list is left, the solution occurs nowhere,
   * every other element stays, and the total size shrinks when the solution was present.
   */
  lemma RemovedSpec<T>(ss: seq<seq<T>>, x: T)
    ensures NoEmpty(Removed(ss, x))
    ensures !Occurs(x, Removed(ss, x))
    ensures forall y :: y != x ==> (Occurs(y, Removed(ss, x)) <==> Occurs(y, ss))
    ensures Size(Removed(ss, x)) <= Size(ss)
    ensures Occurs(x, ss) ==> Size(Removed(ss, x)) < Size(ss)
  {
    SizeOfMapWithout(ss, x);
    OccursInRetainNonEmpty(x, MapWithout(ss, x));
    OccursInMapWithout(x, ss, x);
    forall y | y != x ensures Occurs(y, Removed(ss, x)) <==> Occurs(y, ss) {
      OccursInRetainNonEmpty(y, MapWithout(ss, x));
      OccursInMapWithout(y, ss, x);
    }
  }

  /** A successful merge step strictly shrinks the lists: the merge loop terminates. */
  lemma FirstSolutionShrinks<T>(ss: seq<seq<T>>)
    requires NoEmpty(ss) && FirstSolution(ss).Some?
    ensures NoEmpty(Removed(ss, FirstSolution(ss).value))
    ensures Size(Removed(ss, FirstSolution(ss).value)) < Size(ss)
  {
    FirstSolutionIsFirst(ss);
    var k :| 0 <= k < |ss| && FirstSolution(ss).value == ss[k][0];
    assert ss[k][0] in ss[k];
    RemovedSpec(ss, FirstSolution(ss).value);
  }

  // ---------------------------------------------------------------------
  // The lists as a mutable object
  // ---------------------------------------------------------------------

  class Sets<T(==)> {
    var sets: seq<seq<T>>

    ghost predicate Valid()
      reads this
    {
      NoEmpty(sets)
    }

    /** `Sets::new`. */
    constructor ()
      ensures Valid() && sets == []
    {
      sets := [];
    }

    /** `push`: appends a non-empty list; an empty one is refused and nothing changes. */
    method Push(list: seq<T>) returns (r: Result<()>)
      requires Valid()
      modifies this
      ensures Valid()
      ensures list == [] ==> r == Failure(PushingEmptySet) && sets == old(sets)
      ensures list != [] ==> r == Success(()) && sets == old(sets) + [list]
    {
      if list == [] {
        r := Failure(PushingEmptySet);
      } else {
        sets := sets + [list];
        r := Success(());
      }
    }

    /** `is_empty`: no list is left. */
    function IsEmpty(): (b: bool)
      reads this
      ensures b <==> |sets| == 0
    {
      sets == []
    }

    /** `candidates`: the head of every list, in list order. */
    function Candidates(): (c: seq<T>)
      reads this
      requires Valid()
      ensures |c| == |sets|
      ensures forall i :: 0 <= i < |sets| ==> c[i] == sets[i][0]
    {
      Heads(sets)
    }

    /** `is_solution`: the candidate occurs in no list's tail. */
    method IsSolution(candidate: T) returns (r: Result<bool>)
      requires Valid()
      ensures r == Success(!InSomeTail(candidate, sets))
    {
      var k := 0;
      while k < |sets|
        invariant 0 <= k <= |sets|
        invariant InSomeTail(candidate, sets) == InSomeTail(candidate, sets[k..])
      {
        assert sets[k..][1..] == sets[k + 1..];
        var inTail := InTail(candidate, sets[k]);
        if inTail.value {
          return Success(false);
        }
        k := k + 1;
      }
      return Success(true);
    }

    /** `remove_solution`: deletes the solution from every list, then drops the emptied lists. */
    method RemoveSolution(solution: T)
      requires Valid()
      modifies this
      ensures Valid()
      ensures sets == Removed(old(sets), solution)
    {
      var k := 0;
      while k < |sets|
        invariant 0 <= k <= |sets| == |old(sets)|
        invariant forall m :: 0 <= m < k ==> sets[m] == Without(old(sets)[m], solution)
        invariant forall m :: k <= m < |sets| ==> sets[m] == old(sets)[m]
      {
        sets := sets[k := Without(sets[k], solution)];
        k := k + 1;
      }
      assert sets == MapWithout(old(sets), solution);
      sets := RetainNonEmpty(sets);
    }

    /**
     * `find_solution`: one merge step. It takes the first candidate, in list order, that
     * is in no tail and removes it everywhere; if every candidate is in some tail it fails
     * with `NoMoreCandidates` and nothing changes.
     */
    method FindSolution() returns (r: Result<T>)
      requires Valid()
      modifies this
      ensures Valid()
      ensures FirstSolution(old(sets)).None? ==> r == Failure(NoMoreCandidates) && sets == old(sets)
      ensures FirstSolution(old(sets)).Some? ==>
                r == Success(FirstSolution(old(sets)).value) && sets == Removed(old(sets), r.value)
    {
      var candidates := Candidates();
      assert candidates == Heads(sets);
      var i := 0;
      while i < |candidates|
        invariant 0 <= i <= |candidates|
        invariant sets == old(sets)
        invariant FirstSolution(sets) == FirstSolutionAmong(candidates[i..], sets)
      {
        assert candidates[i..][1..] == candidates[i + 1..];
        var isSolution := IsSolution(candidates[i]);
        if isSolution.value {
          RemoveSolution(candidates[i]);
          return Success(candidates[i]);
        }
        i := i + 1;
      }
      return Failure(NoMoreCandidates);
    }
  }
}
