/*
 * The C3 linearization: the merge of the parents' orders into one, and the
 * driver that resolves every declared class whose parents are resolved.
 */
module C3Linearization {
  import opened Identifiers
  import opened C3Lib
  import opened C3Sets
  import opened C3Registry

  // ---------------------------------------------------------------------
  // merge
  // ---------------------------------------------------------------------

  /** What the merge appends after the class itself: one merge step at a time until no list is left. */
  function MergeTail<T(==)>(ss: seq<seq<T>>): Result<seq<T>>
    requires NoEmpty(ss)
    decreases Size(ss)
  {
    if ss == [] then Success([])
    else
      match FirstSolution(ss)
      case None => Failure(NoMoreCandidates)
      case Some(x) =>
        FirstSolutionShrinks(ss);
        match MergeTail(Removed(ss, x))
        case Failure(e) => Failure(e)
        case Success(rest) => Success([x] + rest)
  }

  /** `merge(base, sets)`: `base` followed by the merge of the lists. */
  function MergeSpec<T(==)>(base: T, ss: seq<seq<T>>): Result<seq<T>>
    requires NoEmpty(ss)
  {
    match MergeTail(ss)
    case Failure(e) => Failure(e)
    case Success(rest) => Success([base] + rest)
  }

  /** The elements `pre` in front of the result of a successful merge. */
  function Prefixed<T>(pre: seq<T>, r: Result<seq<T>>): Result<seq<T>> {
    match r
    case Failure(e) => Failure(e)
    case Success(rest) => Success(pre + rest)
  }

  /** `merge`: repeats the merge step until no list is left, or fails when no head qualifies. */
  method Merge<T(==)>(base: T, sets: Sets<T>) returns (r: Result<seq<T>>)
    requires sets.Valid()
    modifies sets
    ensures r == MergeSpec(base, old(sets.sets))
  {
    var solutions := [base];
    while !sets.IsEmpty()
      invariant sets.Valid()
      invariant MergeSpec(base, old(sets.sets)) == Prefixed(solutions, MergeTail(sets.sets))
      decreases Size(sets.sets)
    {
      ghost var before := sets.sets;
      var solution := sets.FindSolution();
      if solution.Failure? {
        return Failure(solution.error);
      }
      FirstSolutionShrinks(before);
      assert MergeTail(before) == Prefixed([solution.value], MergeTail(sets.sets));
      PrefixedAssociates(solutions, [solution.value], MergeTail(sets.sets));
      solutions := solutions + [solution.value];
    }
    assert MergeTail(sets.sets) == Success([]);
    assert solutions + [] == solutions;
    return Success(solutions);
  }

  lemma PrefixedAssociates<T>(a: seq<T>, b: seq<T>, r: Result<seq<T>>)
    ensures Prefixed(a, Prefixed(b, r)) == Prefixed(a + b, r)
  {
    if r.Success? {
      assert a + (b + r.value) == (a + b) + r.value;
    }
  }

  /** The merge fails in one way only: every remaining head is in some list's tail. */
  lemma {:induction false} MergeFailsOnlyWhenStuck<T>(ss: seq<seq<T>>)
    requires NoEmpty(ss)
    ensures MergeTail(ss).Failure? ==> MergeTail(ss).error == NoMoreCandidates
    decreases Size(ss)
  {
    if ss != [] && FirstSolution(ss).Some? {
      var x := FirstSolution(ss).value;
      FirstSolutionShrinks(ss);
      RemovedSpec(ss, x);
      MergeFailsOnlyWhenStuck(Removed(ss, x));
    }
  }

  /** No element repeats in `s`. */
  predicate Distinct<T(==)>(s: seq<T>) {
    forall i, j :: 0 <= i < j < |s| ==> s[i] != s[j]
  }

  /** `a` stands before `b` in `s`. */
  predicate Precedes<T(==)>(s: seq<T>, a: T, b: T) {
    exists p, q :: 0 <= p < q < |s| && s[p] == a && s[q] == b
  }

  /** One step of a successful merge: its first element is a head found in no tail, and the rest merges what is left. */
  lemma MergeStep<T>(ss: seq<seq<T>>)
    requires NoEmpty(ss) && ss != [] && MergeTail(ss).Success?
    ensures FirstSolution(ss).Some?
    ensures Occurs(FirstSolution(ss).value, ss) && !InSomeTail(FirstSolution(ss).value, ss)
    ensures NoEmpty(Removed(ss, FirstSolution(ss).value))
    ensures Size(Removed(ss, FirstSolution(ss).value)) < Size(ss)
    ensures MergeTail(Removed(ss, FirstSolution(ss).value)).Success?
    ensures MergeTail(ss).value == [FirstSolution(ss).value] + MergeTail(Removed(ss, FirstSolution(ss).value)).value
  {
    var x := FirstSolution(ss).value;
    FirstSolutionShrinks(ss);
    RemovedSpec(ss, x);
    FirstSolutionIsFirst(ss);
    var k :| 0 <= k < |ss| && x == ss[k][0];
    assert x in ss[k];
  }

  /** A successful merge lists every element of the lists, each exactly once. */
  lemma {:induction false} MergeElements<T>(ss: seq<seq<T>>)
    requires NoEmpty(ss) && MergeTail(ss).Success?
    ensures forall y :: y in MergeTail(ss).value <==> Occurs(y, ss)
    ensures Distinct(MergeTail(ss).value)
    decreases Size(ss)
  {
    if ss != [] {
      MergeStep(ss);
      var x := FirstSolution(ss).value;
      var rest := Removed(ss, x);
      MergeElements(rest);
      RemovedSpec(ss, x);
      var mr := MergeTail(rest).value;
      assert x !in mr;
      DistinctCons(x, mr);
    }
  }

  /** Putting a new element in front keeps a sequence free of repetitions. */
  lemma DistinctCons<T>(x: T, s: seq<T>)
    requires Distinct(s) && x !in s
    ensures Distinct([x] + s)
  {
    var m := [x] + s;
    forall i, j | 0 <= i < j < |m| ensures m[i] != m[j] {
      assert m[j] == s[j - 1];
      if i > 0 {
        assert m[i] == s[i - 1];
      }
    }
  }

  /**
   * A successful merge keeps the order of every list: whatever stands before something
   * else in one of the lists stands before it in the result.
   */
  lemma {:induction false} MergeKeepsOrder<T>(ss: seq<seq<T>>, l: nat, i: nat, j: nat)
    requires NoEmpty(ss) && MergeTail(ss).Success?
    requires l < |ss| && i < j < |ss[l]|
    ensures Precedes(MergeTail(ss).value, ss[l][i], ss[l][j])
    decreases Size(ss)
  {
    MergeStep(ss);
    var x := FirstSolution(ss).value;
    NotInTail(x, ss, l, j);
    if ss[l][i] == x {
      HeadPrecedesRest(ss, l, j);
    } else {
      var rest := Removed(ss, x);
      var l', p, q := KeptInRemoved(ss, x, l, i, j);
      MergeKeepsOrder(rest, l', p, q);
      PrecedesAfterHead(x, MergeTail(rest).value, ss[l][i], ss[l][j]);
    }
  }

  /** An element that is in no tail does not stand after the head of any list. */
  lemma NotInTail<T>(x: T, ss: seq<seq<T>>, l: nat, j: nat)
    requires !InSomeTail(x, ss)
    requires l < |ss| && 1 <= j < |ss[l]|
    ensures ss[l][j] != x
  {
    InSomeTailAt(x, ss);
  }

  /** The element a merge step takes stands before every other element of the lists. */
  lemma HeadPrecedesRest<T>(ss: seq<seq<T>>, l: nat, j: nat)
    requires NoEmpty(ss) && ss != [] && MergeTail(ss).Success?
    requires l < |ss| && j < |ss[l]|
    requires FirstSolution(ss).Some? && ss[l][j] != FirstSolution(ss).value
    ensures Precedes(MergeTail(ss).value, FirstSolution(ss).value, ss[l][j])
  {
    MergeStep(ss);
    var x := FirstSolution(ss).value;
    var rest := Removed(ss, x);
    var mr := MergeTail(rest).value;
    MergeElements(rest);
    RemovedSpec(ss, x);
    assert ss[l][j] in ss[l];
    assert Occurs(ss[l][j], rest);
    var q :| 0 <= q < |mr| && mr[q] == ss[l][j];
    assert MergeTail(ss).value[0] == x && MergeTail(ss).value[q + 1] == ss[l][j];
  }

  /** Two elements of a list other than `x` keep their order in some list left once `x` is removed. */
  lemma KeptInRemoved<T>(ss: seq<seq<T>>, x: T, l: nat, i: nat, j: nat) returns (l': nat, p: nat, q: nat)
    requires l < |ss| && i < j < |ss[l]| && ss[l][i] != x && ss[l][j] != x
    ensures l' < |Removed(ss, x)| && p < q < |Removed(ss, x)[l']|
    ensures Removed(ss, x)[l'][p] == ss[l][i] && Removed(ss, x)[l'][q] == ss[l][j]
  {
    WithoutKeepsOrder(ss[l], x, i, j);
    var w := Without(ss[l], x);
    p, q :| 0 <= p < q < |w| && w[p] == ss[l][i] && w[q] == ss[l][j];
    assert MapWithout(ss, x)[l] == w;
    var rest := Removed(ss, x);
    assert w in rest;
    l' :| 0 <= l' < |rest| && rest[l'] == w;
  }

  /** Order in the rest of a merge is order in the whole merge. */
  lemma PrecedesAfterHead<T>(x: T, rest: seq<T>, a: T, b: T)
    requires Precedes(rest, a, b)
    ensures Precedes([x] + rest, a, b)
  {
    var p, q :| 0 <= p < q < |rest| && rest[p] == a && rest[q] == b;
    assert ([x] + rest)[p + 1] == a && ([x] + rest)[q + 1] == b;
  }

  /**
   * `merge(base, sets)` on success: `base` first, then every element of the lists once,
   * in an order that keeps the order of each list.
   */
  lemma MergeSpecIsLinearization<T>(base: T, ss: seq<seq<T>>)
    requires NoEmpty(ss) && MergeSpec(base, ss).Success?
    ensures MergeSpec(base, ss).value[0] == base
    ensures forall y :: y in MergeSpec(base, ss).value[1..] <==> Occurs(y, ss)
    ensures Distinct(MergeSpec(base, ss).value[1..])
    ensures forall l, i, j :: 0 <= l < |ss| && 0 <= i < j < |ss[l]| ==>
              Precedes(MergeSpec(base, ss).value[1..], ss[l][i], ss[l][j])
  {
    MergeElements(ss);
    var m := MergeSpec(base, ss).value;
    assert m[1..] == MergeTail(ss).value;
    forall l, i, j | 0 <= l < |ss| && 0 <= i < j < |ss[l]| ensures Precedes(m[1..], ss[l][i], ss[l][j]) {
      MergeKeepsOrder(ss, l, i, j);
    }
  }

  /** With no lists to merge, the result is the class alone. */
  lemma MergeOfNothing<T>(base: T)
    ensures MergeSpec(base, []) == Success([base])
  {
    assert [base] + [] == [base];
  }

  /**
   * `xs` is the sequence of elements that successive merge steps take from `ss`
   * until no list is left, each step dropping the heads it took.
   */
  ghost predicate MergesTo<T>(ss: seq<seq<T>>, xs: seq<T>)
    decreases |xs|
  {
    NoEmpty(ss) &&
    if xs == [] then ss == []
    else ss != [] && FirstSolution(ss) == Some(xs[0]) && MergesTo(DropHeads(ss, xs[0]), xs[1..])
  }

  /** A trace of merge steps is what the merge appends. */
  lemma {:induction false} MergesToIsMergeTail<T>(ss: seq<seq<T>>, xs: seq<T>)
    requires MergesTo(ss, xs)
    ensures MergeTail(ss) == Success(xs)
    decreases |xs|
  {
    if xs != [] {
      var x := xs[0];
      assert [x] + xs[1..] == xs;
      FirstSolutionNotInTail(ss);
      RemovedSolutionDropsHeads(ss, x);
      MergesToIsMergeTail(DropHeads(ss, x), xs[1..]);
    }
  }

  // ---------------------------------------------------------------------
  // c3_linearization: the fixed-point driver
  // ---------------------------------------------------------------------

  /** The path a class with parents `parents` is given: the merge of the parents' paths in `out`, then the parents. */
  function PathFor(out: map<Class, seq<Class>>, base: Class, parents: seq<Class>): Result<seq<Class>> {
    match SetsForSpec(out, parents)
    case Failure(e) => Failure(e)
    case Success(ss) =>
      SetsForSpecNoEmpty(out, parents);
      MergeSpec(base, ss)
  }

  /** Every parent is among `solved`: the `is_subset(&solved, &parents)` test. */
  predicate ParentsIn(parents: seq<Class>, solved: set<Class>) {
    forall k :: 0 <= k < |parents| ==> parents[k] in solved
  }

  /** The pending classes a round resolves: those whose parents were all solved when the round began. */
  ghost function Ready(pending: map<Class, seq<Class>>, solved: set<Class>): set<Class> {
    set b | b in pending && ParentsIn(pending[b], solved)
  }

  /**
   * `out` holds resolved classes only: each is declared, its parents are resolved,
   * and its path is the merge of their paths.
   */
  ghost predicate Consistent(decl: map<Class, seq<Class>>, out: map<Class, seq<Class>>) {
    forall c :: c in out ==>
      c in decl && ParentsIn(decl[c], out.Keys) && PathFor(out, c, decl[c]) == Success(out[c])
  }

  /** No class is left that a further round would resolve: each unresolved one has an unresolved or undeclared parent. */
  ghost predicate Stuck(decl: map<Class, seq<Class>>, out: map<Class, seq<Class>>) {
    forall c :: c in decl && c !in out ==> !ParentsIn(decl[c], out.Keys)
  }

  /** What a successful `c3_linearization` returns for the declarations `decl`. */
  ghost predicate Resolves(decl: map<Class, seq<Class>>, out: map<Class, seq<Class>>) {
    Consistent(decl, out) && Stuck(decl, out)
  }

  /** A path computed against `out` stays the same once `out` grows by classes that are not parents. */
  lemma PathForGrows(out: map<Class, seq<Class>>, more: map<Class, seq<Class>>, base: Class, parents: seq<Class>)
    requires ParentsIn(parents, out.Keys)
    requires forall c :: c in out ==> c in more && more[c] == out[c]
    ensures PathFor(more, base, parents) == PathFor(out, base, parents)
  {
    ParentPathsAgree(out, more, parents);
  }

  /** A strictly sorted sequence holds each element once. */
  lemma NotBefore(keys: seq<Class>, i: nat)
    requires StrictlySorted(keys) && i < |keys|
    ensures keys[i] !in keys[..i]
  {
    forall j | 0 <= j < i ensures keys[j] != keys[i] {
      assert Less(keys[j], keys[i]);
      LessIrreflexive(keys[i]);
    }
  }

  /**
   * One round of `c3_linearization`: every pending class, in sorted order, whose parents
   * were all solved when the round began is merged, removed from `input` and added to `output`.
   * `r` says whether any class was resolved; a failing merge ends the round with its error.
   */
  method Round(input: C3, output: C3) returns (r: Result<bool>)
    requires input != output
    requires input.classes.Keys !! output.classes.Keys
    modifies input, output
    ensures r.Failure? ==>
              r.error == NoMoreCandidates &&
              exists b :: b in Ready(old(input.classes), old(output.classes).Keys) &&
                PathFor(old(output.classes), b, old(input.classes)[b]).Failure?
    ensures r.Success? ==>
              var ready := Ready(old(input.classes), old(output.classes).Keys);
              && output.classes.Keys == old(output.classes).Keys + ready
              && (forall c :: c in old(output.classes) ==> output.classes[c] == old(output.classes)[c])
              && (forall b :: b in ready ==> PathFor(old(output.classes), b, old(input.classes)[b]) == Success(output.classes[b]))
              && input.classes == old(input.classes) - ready
              && (r.value <==> ready != {})
    ensures input.functions == old(input.functions) && input.variables == old(input.variables)
    ensures output.functions == old(output.functions) && output.variables == old(output.variables)
  {
    ghost var pending := input.classes;
    ghost var out := output.classes;
    ghost var ready := Ready(pending, out.Keys);
    ghost var done: set<Class> := {};
    var solved := output.AllClasses();
    var found := false;
    var keys := input.AllClasses();
    for i := 0 to |keys|
      invariant forall b :: b in done <==> b in ready && b in keys[..i]
      invariant pending.Keys !! out.Keys
      invariant RoundSoFar(pending, out, done, input.classes, output.classes)
      invariant found <==> done != {}
      invariant input.functions == old(input.functions) && input.variables == old(input.variables)
      invariant output.functions == old(output.functions) && output.variables == old(output.variables)
    {
      var base := keys[i];
      NotBefore(keys, i);
      assert keys[..i + 1] == keys[..i] + [base];
      var parents := input.Path(base);
      if parents.Failure? {
        assert false;
      }
      if IsSubset(solved, parents.value) {
        assert base in ready;
        var sets := output.SetsFor(parents.value);
        PathForGrows(out, output.classes, base, parents.value);
        ParentPathsKnown(output.classes, parents.value);
        if sets.Failure? {
          assert false;
        }
        ghost var ss := sets.value.sets;
        var solution := Merge(base, sets.value);
        if solution.Failure? {
          MergeFailsOnlyWhenStuck(ss);
          return Failure(solution.error);
        }
        RoundStep(pending, out, done, input.classes, output.classes, base, solution.value);
        var removed := input.Remove(base);
        if removed.Failure? {
          assert false;
        }
        output.Add(base, solution.value);
        done := done + {base};
        found := true;
      } else {
        assert base !in ready;
      }
    }
    assert keys[..|keys|] == keys;
    assert done == ready;
    return Success(found);
  }

  /** The state part way through a round: the classes `done` so far are resolved against the output the round began with. */
  ghost predicate RoundSoFar(pending: map<Class, seq<Class>>, out: map<Class, seq<Class>>, done: set<Class>,
                             input: map<Class, seq<Class>>, output: map<Class, seq<Class>>) {
    && output.Keys == out.Keys + done
    && (forall c :: c in out ==> output[c] == out[c])
    && (forall b :: b in done ==> b in pending && PathFor(out, b, pending[b]) == Success(output[b]))
    && input == pending - done
  }

  /** Resolving one more pending class moves it from the input to the output. */
  lemma RoundStep(pending: map<Class, seq<Class>>, out: map<Class, seq<Class>>, done: set<Class>,
                  input: map<Class, seq<Class>>, output: map<Class, seq<Class>>, base: Class, path: seq<Class>)
    requires pending.Keys !! out.Keys
    requires RoundSoFar(pending, out, done, input, output)
    requires base in pending && base !in done && PathFor(out, base, pending[base]) == Success(path)
    ensures RoundSoFar(pending, out, done + {base}, input - {base}, output[base := path])
  {
  }

  /**
   * `c3_linearization`: runs rounds until one resolves nothing. On success every resolved
   * class has the merge of its parents' paths and every other class waits on a parent
   * that is unresolved or undeclared; a failure is a merge that got stuck on a class
   * whose parents were all resolved.
   */
  method Linearize(input: C3) returns (r: Result<C3>)
    modifies input
    ensures r.Failure? ==>
              r.error == NoMoreCandidates &&
              exists out :: Consistent(old(input.classes), out) && MergeStuckAt(old(input.classes), out)
    ensures r.Success? ==>
              fresh(r.value) && Resolves(old(input.classes), r.value.classes)
              && r.value.functions == map[] && r.value.variables == map[]
  {
    ghost var decl := input.classes;
    var output := new C3();
    var found := true;
    while found
      invariant fresh(output)
      invariant input.classes == decl - output.classes.Keys
      invariant Consistent(decl, output.classes)
      invariant !found ==> Stuck(decl, output.classes)
      invariant output.functions == map[] && output.variables == map[]
      decreases |input.classes| + (if found then 1 else 0)
    {
      ghost var pending := input.classes;
      ghost var out := output.classes;
      var round := Round(input, output);
      if round.Failure? {
        assert MergeStuckAt(decl, out);
        return Failure(round.error);
      }
      found := round.value;
      RoundKeepsConsistent(decl, out, pending, output.classes);
      if found {
        ReadyShrinks(pending, out.Keys);
      } else {
        NothingReadyIsStuck(decl, output.classes, input.classes);
      }
    }
    return Success(output);
  }

  /** Some class whose parents are resolved in `out` has a merge that fails. */
  ghost predicate MergeStuckAt(decl: map<Class, seq<Class>>, out: map<Class, seq<Class>>) {
    exists b :: b in decl && b !in out && ParentsIn(decl[b], out.Keys) && PathFor(out, b, decl[b]).Failure?
  }

  /**
   * A round keeps the output consistent: the classes it adds had all their parents
   * resolved before it, so their paths read only entries that stay as they were.
   */
  lemma RoundKeepsConsistent(decl: map<Class, seq<Class>>, out: map<Class, seq<Class>>,
                             pending: map<Class, seq<Class>>, out': map<Class, seq<Class>>)
    requires Consistent(decl, out) && pending == decl - out.Keys
    requires out'.Keys == out.Keys + Ready(pending, out.Keys)
    requires forall d :: d in out ==> out'[d] == out[d]
    requires forall b :: b in Ready(pending, out.Keys) ==> PathFor(out, b, pending[b]) == Success(out'[b])
    ensures Consistent(decl, out')
    ensures pending - Ready(pending, out.Keys) == decl - out'.Keys
  {
    forall c | c in out' ensures c in decl && ParentsIn(decl[c], out'.Keys) && PathFor(out', c, decl[c]) == Success(out'[c]) {
      EntryStaysConsistent(decl, out, out', c);
    }
  }

  /** A round that resolves nothing leaves the output stuck. */
  lemma NothingReadyIsStuck(decl: map<Class, seq<Class>>, out: map<Class, seq<Class>>, pending: map<Class, seq<Class>>)
    requires pending == decl - out.Keys && Ready(pending, out.Keys) == {}
    ensures Stuck(decl, out)
  {
    forall c | c in decl && c !in out ensures !ParentsIn(decl[c], out.Keys) {
      assert c !in Ready(pending, out.Keys);
    }
  }

  /** One entry of the grown output: its parents were resolved before, and its path reads only their entries. */
  lemma EntryStaysConsistent(decl: map<Class, seq<Class>>, out: map<Class, seq<Class>>, out': map<Class, seq<Class>>, c: Class)
    requires c in out' && c in decl && out.Keys <= out'.Keys
    requires forall d :: d in out ==> out'[d] == out[d]
    requires c in out ==> ParentsIn(decl[c], out.Keys) && PathFor(out, c, decl[c]) == Success(out[c])
    requires c !in out ==> ParentsIn(decl[c], out.Keys) && PathFor(out, c, decl[c]) == Success(out'[c])
    ensures ParentsIn(decl[c], out'.Keys) && PathFor(out', c, decl[c]) == Success(out'[c])
  {
    PathForGrows(out, out', c, decl[c]);
  }

  /** A round that resolves something leaves fewer classes pending. */
  lemma ReadyShrinks(pending: map<Class, seq<Class>>, solved: set<Class>)
    requires Ready(pending, solved) != {}
    ensures |pending - Ready(pending, solved)| < |pending|
  {
    var b :| b in Ready(pending, solved);
    var rest := pending - Ready(pending, solved);
    assert rest.Keys <= pending.Keys - {b};
    SubsetCardinality(rest.Keys, pending.Keys - {b});
  }

  lemma SubsetCardinality<T>(a: set<T>, b: set<T>)
    requires a <= b
    ensures |a| <= |b|
  {
    assert b == a + (b - a);
  }


  // ---------------------------------------------------------------------
  // The diamond test: A(), B(A), C(A), D(B, C)
  // ---------------------------------------------------------------------

  /** A class name that `split_coma` reads back as itself. */
  predicate PlainName(n: Class) {
    n != [] && !HasSeparator(n)
  }

  /** The declarations of the diamond test, for any four distinct names. */
  function DiamondDecl(a: Class, b: Class, c: Class, d: Class): map<Class, seq<Class>> {
    map[a := [], b := [a], c := [a], d := [b, c]]
  }

  /** The paths the diamond test expects. */
  function DiamondPaths(a: Class, b: Class, c: Class, d: Class): map<Class, seq<Class>> {
    map[a := [a], b := [b, a], c := [c, a], d := [d, b, c, a]]
  }

  /** A single list of distinct elements merges to itself, one head at a time. */
  lemma {:induction false} OneListMergesTo<T>(q: seq<T>)
    requires q != [] && Distinct(q)
    ensures MergesTo([q], q)
    decreases |q|
  {
    var ss := [q];
    InSomeTailAt(q[0], ss);
    FirstSolutionAt(ss, 0);
    if |q| == 1 {
      assert DropHeads(ss, q[0]) == [];
      assert q[1..] == [];
    } else {
      assert DropHeads(ss, q[0]) == [q[1..]];
      OneListMergesTo(q[1..]);
    }
  }

  /**
   * A class with the one parent `p`, whose path is `P` (starting with `p`, without
   * repeats), gets itself followed by `P`: single inheritance extends the path.
   */
  lemma SingleParentPath(out: map<Class, seq<Class>>, p: Class, x: Class)
    requires p in out && out[p] != [] && out[p][0] == p && Distinct(out[p])
    ensures PathFor(out, x, [p]) == Success([x] + out[p])
  {
    var path := out[p];
    assert [p][1..] == [];
    assert ParentPaths(out, []) == Success([]);
    assert [path] + [] == [path] && [path] + [[p]] == [path, [p]];
    assert ParentPaths(out, [p]) == Success([path]);
    assert SetsForSpec(out, [p]) == Success([path, [p]]);
    var ss := [path, [p]];
    InSomeTailAt(p, ss);
    FirstSolutionAt(ss, 0);
    assert ss[1..][1..] == [] && DropHeads(ss[1..], p) == [];
    if |path| == 1 {
      assert DropHeads(ss, p) == [];
      assert path[1..] == [];
    } else {
      assert DropHeads(ss, p) == [path[1..]];
      OneListMergesTo(path[1..]);
    }
    assert MergesTo(ss, path);
    MergesToIsMergeTail(ss, path);
  }

  /** A root class is its own path. */
  lemma DiamondRoot(out: map<Class, seq<Class>>, a: Class)
    ensures PathFor(out, a, []) == Success([a])
  {
    MergeOfNothing(a);
  }

  /** A class whose one parent `a` has the path `[a]` gets `[b, a]`. */
  lemma DiamondSide(out: map<Class, seq<Class>>, a: Class, b: Class)
    requires a in out && out[a] == [a]
    ensures PathFor(out, b, [a]) == Success([b, a])
  {
    SingleParentPath(out, a, b);
    assert [b] + [a] == [b, a];
  }

  /** The bottom class gets `[d, b, c, a]` once its parents have their paths. */
  lemma DiamondBottom(out: map<Class, seq<Class>>, a: Class, b: Class, c: Class, d: Class)
    requires Distinct([a, b, c, d])
    requires b in out && out[b] == [b, a] && c in out && out[c] == [c, a]
    ensures PathFor(out, d, [b, c]) == Success([d, b, c, a])
  {
    assert [b, c][1..] == [c] && [c][1..] == [];
    assert ParentPaths(out, []) == Success([]);
    assert [[c, a]] + [] == [[c, a]];
    assert ParentPaths(out, [c]) == Success([[c, a]]);
    assert [[b, a]] + [[c, a]] == [[b, a], [c, a]];
    assert ParentPaths(out, [b, c]) == Success([[b, a], [c, a]]);
    assert [[b, a], [c, a]] + [[b, c]] == [[b, a], [c, a], [b, c]];
    assert SetsForSpec(out, [b, c]) == Success([[b, a], [c, a], [b, c]]);
    DiamondTrace(a, b, c, d);
  }

  /**
   * What a consistent output says about one class it holds. It only instantiates
   * `Consistent` at `x`, so that callers can keep the quantified predicate out of their own context.
   */
  lemma ConsistentAt(decl: map<Class, seq<Class>>, out: map<Class, seq<Class>>, x: Class)
    requires Consistent(decl, out) && x in out
    ensures x in decl && ParentsIn(decl[x], out.Keys) && PathFor(out, x, decl[x]) == Success(out[x])
  {
  }

  /** In a consistent output for the diamond, the root has the path `[a]`. */
  lemma DiamondHasRoot(a: Class, b: Class, c: Class, d: Class, out: map<Class, seq<Class>>)
    requires Distinct([a, b, c, d]) && Consistent(DiamondDecl(a, b, c, d), out) && a in out
    ensures out[a] == [a]
  {
    var names := [a, b, c, d];
    assert names[0] == a && names[1] == b && names[2] == c && names[3] == d;
    ConsistentAt(DiamondDecl(a, b, c, d), out, a);
    DiamondRoot(out, a);
  }

  /** In a consistent output for the diamond, a side class `x` (`b` or `c`) has the path `[x, a]`. */
  lemma DiamondHasSide(a: Class, b: Class, c: Class, d: Class, out: map<Class, seq<Class>>, x: Class)
    requires Distinct([a, b, c, d]) && Consistent(DiamondDecl(a, b, c, d), out)
    requires (x == b || x == c) && x in out
    ensures a in out && out[x] == [x, a]
  {
    var names := [a, b, c, d];
    assert names[0] == a && names[1] == b && names[2] == c && names[3] == d;
    var decl := DiamondDecl(a, b, c, d);
    ConsistentAt(decl, out, x);
    assert decl[x] == [a] && decl[x][0] == a;
    DiamondHasRoot(a, b, c, d, out);
    DiamondSide(out, a, x);
  }

  /** In a consistent output for the diamond, the bottom has the path `[d, b, c, a]`. */
  lemma DiamondHasBottom(a: Class, b: Class, c: Class, d: Class, out: map<Class, seq<Class>>)
    requires Distinct([a, b, c, d]) && Consistent(DiamondDecl(a, b, c, d), out) && d in out
    ensures out[d] == [d, b, c, a]
  {
    var names := [a, b, c, d];
    assert names[0] == a && names[1] == b && names[2] == c && names[3] == d;
    var decl := DiamondDecl(a, b, c, d);
    ConsistentAt(decl, out, d);
    assert decl[d] == [b, c] && decl[d][0] == b && decl[d][1] == c;
    DiamondHasSide(a, b, c, d, out, b);
    DiamondHasSide(a, b, c, d, out, c);
    DiamondBottom(out, a, b, c, d);
  }

  /** Whatever a consistent output holds for the diamond is the expected path. */
  lemma DiamondConsistent(a: Class, b: Class, c: Class, d: Class, out: map<Class, seq<Class>>)
    requires Distinct([a, b, c, d])
    requires Consistent(DiamondDecl(a, b, c, d), out)
    ensures forall x :: x in out ==> x in DiamondPaths(a, b, c, d) && out[x] == DiamondPaths(a, b, c, d)[x]
  {
    var names := [a, b, c, d];
    assert names[0] == a && names[1] == b && names[2] == c && names[3] == d;
    assert a != b && a != c && a != d && b != c && b != d && c != d;
    var paths := DiamondPaths(a, b, c, d);
    var decl := DiamondDecl(a, b, c, d);
    assert paths[a] == [a] && paths[b] == [b, a] && paths[c] == [c, a] && paths[d] == [d, b, c, a];
    assert forall x :: x in decl ==> x == a || x == b || x == c || x == d;
    forall x | x in out ensures x in paths && out[x] == paths[x] {
      ConsistentAt(decl, out, x);
      if x == a {
        DiamondHasRoot(a, b, c, d, out);
      } else if x == b || x == c {
        DiamondHasSide(a, b, c, d, out, x);
      } else {
        assert x == d;
        DiamondHasBottom(a, b, c, d, out);
      }
    }
  }

  /** The diamond test: the only output `c3_linearization` can return is the expected one. */
  lemma DiamondResolves(a: Class, b: Class, c: Class, d: Class, out: map<Class, seq<Class>>)
    requires Distinct([a, b, c, d])
    requires Resolves(DiamondDecl(a, b, c, d), out)
    ensures out == DiamondPaths(a, b, c, d)
  {
    DiamondConsistent(a, b, c, d, out);
    DiamondComplete(a, b, c, d, out);
    SameEntries(out, DiamondPaths(a, b, c, d));
  }

  /** When nothing more can be resolved, every class of the diamond has been. */
  lemma DiamondComplete(a: Class, b: Class, c: Class, d: Class, out: map<Class, seq<Class>>)
    requires Distinct([a, b, c, d])
    requires Stuck(DiamondDecl(a, b, c, d), out)
    ensures forall x :: x in DiamondPaths(a, b, c, d) ==> x in out
  {
    var names := [a, b, c, d];
    assert names[0] == a && names[1] == b && names[2] == c && names[3] == d;
    var decl := DiamondDecl(a, b, c, d);
    assert decl[a] == [] && decl[b] == [a] && decl[c] == [a] && decl[d] == [b, c];
    ResolvedOnceParentsAre(decl, out, a);
    ResolvedOnceParentsAre(decl, out, b);
    ResolvedOnceParentsAre(decl, out, c);
    ResolvedOnceParentsAre(decl, out, d);
  }

  /**
   * A class whose parents are all resolved in a stuck output is resolved itself. It only
   * instantiates `Stuck` at `x`, keeping the quantified predicate out of the callers' context.
   */
  lemma ResolvedOnceParentsAre(decl: map<Class, seq<Class>>, out: map<Class, seq<Class>>, x: Class)
    requires Stuck(decl, out) && x in decl && ParentsIn(decl[x], out.Keys)
    ensures x in out
  {
  }

  /**
   * Two maps with the same keys and the same value at each key are equal. This is map
   * extensionality, stated apart so that the callers' larger contexts need not search for it.
   */
  lemma SameEntries(out: map<Class, seq<Class>>, expected: map<Class, seq<Class>>)
    requires forall x :: x in out ==> x in expected && out[x] == expected[x]
    requires forall x :: x in expected ==> x in out
    ensures out == expected
  {
  }

  /** A successful merge takes lists that repeat no element: a repeated one would have to precede itself. */
  lemma MergeInputDistinct<T>(ss: seq<seq<T>>, l: nat)
    requires NoEmpty(ss) && MergeTail(ss).Success? && l < |ss|
    ensures Distinct(ss[l])
  {
    MergeElements(ss);
    forall i, j | 0 <= i < j < |ss[l]| ensures ss[l][i] != ss[l][j] {
      if ss[l][i] == ss[l][j] {
        MergeKeepsOrder(ss, l, i, j);
      }
    }
  }

  /** A sequence without repetitions whose elements all occur in `b` is no longer than `b`. */
  lemma {:induction false} DistinctNoLonger<T>(a: seq<T>, b: seq<T>)
    requires Distinct(a) && forall y :: y in a ==> y in b
    ensures |a| <= |b|
    decreases |a|
  {
    if a != [] {
      var b' := Without(b, a[0]);
      forall y | y in a[1..] ensures y in b' {
        var k :| 0 <= k < |a[1..]| && a[1..][k] == y;
        assert a[k + 1] == y && a[0] != y && y in a;
        var m :| 0 <= m < |b| && b[m] == y;
        assert b[m] != a[0];
      }
      DistinctNoLonger(a[1..], b');
    }
  }

  /** A class resolved in a consistent output has a path that starts with the class itself. */
  lemma ResolvedPathStarts(decl: map<Class, seq<Class>>, out: map<Class, seq<Class>>, p: Class)
    requires Consistent(decl, out) && p in out
    ensures out[p] != [] && out[p][0] == p
  {
    ConsistentAt(decl, out, p);
    SetsForSpecInParentOrder(out, decl[p]);
    SetsForSpecNoEmpty(out, decl[p]);
  }

  /** In a consistent output, the path of each parent of a resolved class is one of the lists merged for it. */
  lemma ParentPathMerged(decl: map<Class, seq<Class>>, out: map<Class, seq<Class>>, x: Class, k: nat) returns (l: nat)
    requires Consistent(decl, out) && x in out
    requires x in decl && k < |decl[x]|
    ensures decl[x][k] in out
    ensures SetsForSpec(out, decl[x]).Success? && NoEmpty(SetsForSpec(out, decl[x]).value)
    ensures MergeSpec(x, SetsForSpec(out, decl[x]).value) == Success(out[x])
    ensures l < |SetsForSpec(out, decl[x]).value| && SetsForSpec(out, decl[x]).value[l] == out[decl[x][k]]
  {
    ConsistentAt(decl, out, x);
    var parents := decl[x];
    var p := parents[k];
    ResolvedPathStarts(decl, out, p);
    SetsForSpecInParentOrder(out, parents);
    SetsForSpecNoEmpty(out, parents);
    var paths := PathsOfParents(out, parents);
    assert paths[k] == out[p];
    var kept := RetainNonEmpty(paths);
    assert out[p] in kept;
    var ss := SetsForSpec(out, parents).value;
    l :| 0 <= l < |kept| && kept[l] == out[p];
    assert ss[l] == kept[l];
  }

  /**
   * In a consistent output a parent's path is strictly shorter than its child's: the merge
   * for the child lists every element of the parent's path, each once, after the child itself.
   */
  lemma ParentPathShorter(decl: map<Class, seq<Class>>, out: map<Class, seq<Class>>, x: Class, k: nat)
    requires Consistent(decl, out) && x in out
    requires x in decl && k < |decl[x]|
    ensures decl[x][k] in out && |out[decl[x][k]]| < |out[x]|
  {
    var l := ParentPathMerged(decl, out, x, k);
    var p := decl[x][k];
    var ss := SetsForSpec(out, decl[x]).value;
    MergeSpecIsLinearization(x, ss);
    MergeInputDistinct(ss, l);
    forall y | y in out[p] ensures y in out[x][1..] {
      assert Occurs(y, ss);
    }
    DistinctNoLonger(out[p], out[x][1..]);
  }

  /** The path of a class depends only on the paths of its parents. */
  lemma PathForSameParents(o1: map<Class, seq<Class>>, o2: map<Class, seq<Class>>, base: Class, parents: seq<Class>)
    requires ParentsIn(parents, o1.Keys) && ParentsIn(parents, o2.Keys)
    requires forall k :: 0 <= k < |parents| ==> o1[parents[k]] == o2[parents[k]]
    ensures PathFor(o1, base, parents) == PathFor(o2, base, parents)
  {
    var common := map c | c in o1 && c in o2 && o1[c] == o2[c] :: o1[c];
    assert ParentsIn(parents, common.Keys);
    PathForGrows(common, o1, base, parents);
    PathForGrows(common, o2, base, parents);
  }

  /** A class resolved in one output satisfying `Resolves` is resolved, with the same path, in every other. */
  lemma {:induction false} ResolvedAgree(decl: map<Class, seq<Class>>, o1: map<Class, seq<Class>>, o2: map<Class, seq<Class>>, x: Class)
    requires Resolves(decl, o1) && Resolves(decl, o2) && x in o1
    ensures x in o2 && o2[x] == o1[x]
    decreases |o1[x]|
  {
    ConsistentAt(decl, o1, x);
    var parents := decl[x];
    forall k | 0 <= k < |parents| ensures parents[k] in o2 && o2[parents[k]] == o1[parents[k]] {
      ParentPathShorter(decl, o1, x, k);
      ResolvedAgree(decl, o1, o2, parents[k]);
    }
    assert ParentsIn(parents, o2.Keys);
    ResolvedOnceParentsAre(decl, o2, x);
    ConsistentAt(decl, o2, x);
    PathForSameParents(o1, o2, x, parents);
  }

  /**
   * `c3_linearization`'s result is determined by the declarations: two outputs that both
   * satisfy `Resolves` are equal.
   */
  lemma ResolvesUnique(decl: map<Class, seq<Class>>, o1: map<Class, seq<Class>>, o2: map<Class, seq<Class>>)
    requires Resolves(decl, o1) && Resolves(decl, o2)
    ensures o1 == o2
  {
    forall x | x in o1 ensures x in o2 && o1[x] == o2[x] {
      ResolvedAgree(decl, o1, o2, x);
    }
    forall x | x in o2 ensures x in o1 {
      ResolvedAgree(decl, o2, o1, x);
    }
    SameEntries(o1, o2);
  }

  /** The diamond test's merges all succeed, so `c3_linearization` cannot fail on it. */
  lemma DiamondNeverStuck(a: Class, b: Class, c: Class, d: Class, out: map<Class, seq<Class>>)
    requires Distinct([a, b, c, d])
    requires Consistent(DiamondDecl(a, b, c, d), out)
    ensures !MergeStuckAt(DiamondDecl(a, b, c, d), out)
  {
    var names := [a, b, c, d];
    assert names[0] == a && names[1] == b && names[2] == c && names[3] == d;
    var decl := DiamondDecl(a, b, c, d);
    DiamondConsistent(a, b, c, d, out);
    forall x | x in decl && x !in out && ParentsIn(decl[x], out.Keys) ensures PathFor(out, x, decl[x]).Success? {
      if x == a {
        DiamondRoot(out, a);
      } else if x == b || x == c {
        assert decl[x][0] == a;
        DiamondSide(out, a, x);
      } else {
        assert decl[x][0] == b && decl[x][1] == c;
        DiamondBottom(out, a, b, c, d);
      }
    }
  }

  /** The diamond test end to end: declare the classes as the test does and linearize them. */
  method DiamondExample(a: Class, b: Class, c: Class, d: Class) returns (r: Result<C3>)
    requires Distinct([a, b, c, d])
    requires PlainName(a) && PlainName(b) && PlainName(c)
    ensures r.Success? && r.value.classes == DiamondPaths(a, b, c, d)
    ensures r.Success? && r.value.functions == map[] && r.value.variables == map[]
  {
    var input := new C3();
    SplitComaExamples();
    SplitComaJoin([a]);
    SplitComaJoin([b, c]);
    assert Join([b, c]) == b + ", " + c;
    input.AddClassStr(a, "");
    input.AddClassStr(b, a);
    input.AddClassStr(c, a);
    input.AddClassStr(d, b + ", " + c);
    assert input.classes == DiamondDecl(a, b, c, d);
    r := Linearize(input);
    if r.Failure? {
      ghost var out :| Consistent(DiamondDecl(a, b, c, d), out) && MergeStuckAt(DiamondDecl(a, b, c, d), out);
      DiamondNeverStuck(a, b, c, d, out);
      assert false;
    }
    DiamondResolves(a, b, c, d, r.value.classes);
  }

  /** The declarations of the single-inheritance chain `a <- b <- c`, for any three distinct names. */
  function ChainDecl(a: Class, b: Class, c: Class): map<Class, seq<Class>> {
    map[a := [], b := [a], c := [b]]
  }

  /** The paths of the chain: each class followed by its ancestors, nearest first. */
  function ChainPaths(a: Class, b: Class, c: Class): map<Class, seq<Class>> {
    map[a := [a], b := [b, a], c := [c, b, a]]
  }

  /** In a consistent output for the chain, the root has the path `[a]`. */
  lemma ChainHasRoot(a: Class, b: Class, c: Class, out: map<Class, seq<Class>>)
    requires Distinct([a, b, c]) && Consistent(ChainDecl(a, b, c), out) && a in out
    ensures out[a] == [a]
  {
    var names := [a, b, c];
    assert names[0] == a && names[1] == b && names[2] == c;
    ConsistentAt(ChainDecl(a, b, c), out, a);
    DiamondRoot(out, a);
  }

  /** In a consistent output for the chain, the middle class has the path `[b, a]`. */
  lemma ChainHasMiddle(a: Class, b: Class, c: Class, out: map<Class, seq<Class>>)
    requires Distinct([a, b, c]) && Consistent(ChainDecl(a, b, c), out) && b in out
    ensures a in out && out[b] == [b, a]
  {
    var names := [a, b, c];
    assert names[0] == a && names[1] == b && names[2] == c;
    var decl := ChainDecl(a, b, c);
    ConsistentAt(decl, out, b);
    assert decl[b] == [a] && decl[b][0] == a;
    ChainHasRoot(a, b, c, out);
    DiamondSide(out, a, b);
  }

  /** In a consistent output for the chain, the leaf has the path `[c, b, a]`. */
  lemma ChainHasLeaf(a: Class, b: Class, c: Class, out: map<Class, seq<Class>>)
    requires Distinct([a, b, c]) && Consistent(ChainDecl(a, b, c), out) && c in out
    ensures out[c] == [c, b, a]
  {
    var names := [a, b, c];
    assert names[0] == a && names[1] == b && names[2] == c;
    var decl := ChainDecl(a, b, c);
    ConsistentAt(decl, out, c);
    assert decl[c] == [b] && decl[c][0] == b;
    ChainHasMiddle(a, b, c, out);
    ChainLeaf(out, a, b, c);
  }

  /** The leaf of the chain gets `[c, b, a]` once its parent has the path `[b, a]`. */
  lemma ChainLeaf(out: map<Class, seq<Class>>, a: Class, b: Class, c: Class)
    requires a != b && b in out && out[b] == [b, a]
    ensures PathFor(out, c, [b]) == Success([c, b, a])
  {
    assert Distinct(out[b]);
    SingleParentPath(out, b, c);
    assert [c] + [b, a] == [c, b, a];
  }

  /** Whatever a consistent output holds for the chain is the expected path. */
  lemma ChainConsistent(a: Class, b: Class, c: Class, out: map<Class, seq<Class>>)
    requires Distinct([a, b, c])
    requires Consistent(ChainDecl(a, b, c), out)
    ensures forall x :: x in out ==> x in ChainPaths(a, b, c) && out[x] == ChainPaths(a, b, c)[x]
  {
    var names := [a, b, c];
    assert names[0] == a && names[1] == b && names[2] == c;
    assert a != b && a != c && b != c;
    var paths := ChainPaths(a, b, c);
    var decl := ChainDecl(a, b, c);
    assert paths[a] == [a] && paths[b] == [b, a] && paths[c] == [c, b, a];
    assert forall x :: x in decl ==> x == a || x == b || x == c;
    forall x | x in out ensures x in paths && out[x] == paths[x] {
      ConsistentAt(decl, out, x);
      if x == a {
        ChainHasRoot(a, b, c, out);
      } else if x == b {
        ChainHasMiddle(a, b, c, out);
      } else {
        assert x == c;
        ChainHasLeaf(a, b, c, out);
      }
    }
  }

  /** An output that resolves the chain holds exactly the expected paths. */
  lemma ChainResolves(a: Class, b: Class, c: Class, out: map<Class, seq<Class>>)
    requires Distinct([a, b, c])
    requires Resolves(ChainDecl(a, b, c), out)
    ensures out == ChainPaths(a, b, c)
  {
    ChainConsistent(a, b, c, out);
    ChainComplete(a, b, c, out);
    SameEntries(out, ChainPaths(a, b, c));
  }

  /** When nothing more can be resolved, every class of the chain has been. */
  lemma ChainComplete(a: Class, b: Class, c: Class, out: map<Class, seq<Class>>)
    requires Distinct([a, b, c])
    requires Stuck(ChainDecl(a, b, c), out)
    ensures forall x :: x in ChainPaths(a, b, c) ==> x in out
  {
    var names := [a, b, c];
    assert names[0] == a && names[1] == b && names[2] == c;
    var decl := ChainDecl(a, b, c);
    assert decl[a] == [] && decl[b] == [a] && decl[c] == [b];
    ResolvedOnceParentsAre(decl, out, a);
    ResolvedOnceParentsAre(decl, out, b);
    ResolvedOnceParentsAre(decl, out, c);
  }

  /** The chain's merges all succeed, so `c3_linearization` cannot fail on it. */
  lemma ChainNeverStuck(a: Class, b: Class, c: Class, out: map<Class, seq<Class>>)
    requires Distinct([a, b, c])
    requires Consistent(ChainDecl(a, b, c), out)
    ensures !MergeStuckAt(ChainDecl(a, b, c), out)
  {
    var names := [a, b, c];
    assert names[0] == a && names[1] == b && names[2] == c;
    var decl := ChainDecl(a, b, c);
    ChainConsistent(a, b, c, out);
    forall x | x in decl && x !in out && ParentsIn(decl[x], out.Keys) ensures PathFor(out, x, decl[x]).Success? {
      if x == a {
        DiamondRoot(out, a);
      } else if x == b {
        assert decl[x][0] == a;
        DiamondSide(out, a, b);
      } else {
        assert decl[x][0] == b;
        ChainLeaf(out, a, b, c);
      }
    }
  }

  /** The single-inheritance chain end to end: declare `a`, `b(a)` and `c(b)` and linearize them. */
  method ChainExample(a: Class, b: Class, c: Class) returns (r: Result<C3>)
    requires Distinct([a, b, c])
    requires PlainName(a) && PlainName(b)
    ensures r.Success? && r.value.classes == ChainPaths(a, b, c)
    ensures r.Success? && r.value.functions == map[] && r.value.variables == map[]
    ensures fresh(r.value)
  {
    var input := new C3();
    SplitComaExamples();
    SplitComaJoin([a]);
    SplitComaJoin([b]);
    input.AddClassStr(a, "");
    input.AddClassStr(b, a);
    input.AddClassStr(c, b);
    assert input.classes == ChainDecl(a, b, c);
    r := Linearize(input);
    if r.Failure? {
      ghost var out :| Consistent(ChainDecl(a, b, c), out) && MergeStuckAt(ChainDecl(a, b, c), out);
      ChainNeverStuck(a, b, c, out);
      assert false;
    }
    ChainResolves(a, b, c, r.value.classes);
  }

  /** The merge that gives the bottom of the diamond its path, for any four distinct names. */
  lemma DiamondTrace<T>(a: T, b: T, c: T, d: T)
    requires Distinct([a, b, c, d])
    ensures MergeSpec(d, [[b, a], [c, a], [b, c]]) == Success([d, b, c, a])
  {
    assert [d] + [b, c, a] == [d, b, c, a];
    DiamondTraceTail0(a, b, c, d);
    MergesToIsMergeTail([[b, a], [c, a], [b, c]], [b, c, a]);
  }

  lemma DiamondTraceTail0<T>(a: T, b: T, c: T, d: T)
    requires Distinct([a, b, c, d])
    ensures MergesTo([[b, a], [c, a], [b, c]], [b, c, a])
  {
    assert [b, c, a][1..] == [c, a];
    DiamondTraceTail1(a, b, c, d);
    DiamondTraceStep0(a, b, c, d);
  }

  lemma DiamondTraceTail1<T>(a: T, b: T, c: T, d: T)
    requires Distinct([a, b, c, d])
    ensures MergesTo([[a], [c, a], [c]], [c, a])
  {
    assert [c, a][1..] == [a];
    DiamondTraceTail2(a, b, c, d);
    DiamondTraceStep1(a, b, c, d);
  }

  lemma DiamondTraceTail2<T>(a: T, b: T, c: T, d: T)
    requires Distinct([a, b, c, d])
    ensures MergesTo([[a], [a]], [a])
  {
    assert [a][1..] == [];
    DiamondTraceStep2(a, b, c, d);
  }

  lemma DiamondTraceStep0<T>(a: T, b: T, c: T, d: T)
    requires Distinct([a, b, c, d])
    ensures FirstSolution([[b, a], [c, a], [b, c]]) == Some(b)
    ensures DropHeads([[b, a], [c, a], [b, c]], b) == [[a], [c, a], [c]]
  {
    var names := [a, b, c, d];
    assert names[0] == a && names[1] == b && names[2] == c && names[3] == d;
    var ss := [[b, a], [c, a], [b, c]];
    InSomeTailAt(b, ss);
    FirstSolutionAt(ss, 0);
    assert DropHeads(ss[2..], b) == [[c]];
    assert DropHeads(ss[1..], b) == [[c, a], [c]];
  }

  lemma DiamondTraceStep1<T>(a: T, b: T, c: T, d: T)
    requires Distinct([a, b, c, d])
    ensures FirstSolution([[a], [c, a], [c]]) == Some(c)
    ensures DropHeads([[a], [c, a], [c]], c) == [[a], [a]]
  {
    var names := [a, b, c, d];
    assert names[0] == a && names[1] == b && names[2] == c && names[3] == d;
    var ss := [[a], [c, a], [c]];
    assert ss[1][1] == a;
    InSomeTailAt(a, ss);
    InSomeTailAt(c, ss);
    FirstSolutionAt(ss, 1);
    assert DropHeads(ss[2..], c) == [];
    assert DropHeads(ss[1..], c) == [[a]];
  }

  lemma DiamondTraceStep2<T>(a: T, b: T, c: T, d: T)
    requires Distinct([a, b, c, d])
    ensures FirstSolution([[a], [a]]) == Some(a)
    ensures DropHeads([[a], [a]], a) == []
  {
    var names := [a, b, c, d];
    assert names[0] == a && names[1] == b && names[2] == c && names[3] == d;
    var ss := [[a], [a]];
    InSomeTailAt(a, ss);
    FirstSolutionAt(ss, 0);
    assert DropHeads(ss[1..], a) == [];
  }


  /** The first merge test: `K` over the lists `[B, O]`, `[A, O]`, `[C, O]`, `[B, A, C]`, for any five distinct names. */
  method MergeExample<T(==)>(k: T, b: T, a: T, c: T, o: T) returns (r: Result<seq<T>>)
    requires Distinct([k, b, a, c, o])
    ensures r == Success([k, b, a, c, o])
  {
    var sets := new Sets<T>();
    var pushed := sets.Push([b, o]);
    pushed := sets.Push([a, o]);
    pushed := sets.Push([c, o]);
    pushed := sets.Push([b, a, c]);
    assert sets.sets == [[b, o], [a, o], [c, o], [b, a, c]];
    FirstMergeTrace(k, b, a, c, o);
    r := Merge(k, sets);
  }

  /** The second merge test: `Z` over `[K1, C, B, A, O]`, `[K3, A, D, O]`, `[K2, B, D, E, O]`, `[K1, K3, K2]`. */
  method SecondMergeExample<T(==)>(z: T, k1: T, k2: T, k3: T, a: T, b: T, c: T, d: T, e: T, o: T) returns (r: Result<seq<T>>)
    requires Distinct([z, k1, k2, k3, a, b, c, d, e, o])
    ensures r == Success([z, k1, c, k3, k2, b, a, d, e, o])
  {
    var sets := new Sets<T>();
    var pushed := sets.Push([k1, c, b, a, o]);
    pushed := sets.Push([k3, a, d, o]);
    pushed := sets.Push([k2, b, d, e, o]);
    pushed := sets.Push([k1, k3, k2]);
    assert sets.sets == [[k1, c, b, a, o], [k3, a, d, o], [k2, b, d, e, o], [k1, k3, k2]];
    SecondMergeTrace(z, k1, k2, k3, a, b, c, d, e, o);
    r := Merge(z, sets);
  }

  /** The merge of the first merge test, one step at a time, for any five distinct names. */
  lemma FirstMergeTrace<T>(k: T, b: T, a: T, c: T, o: T)
    requires Distinct([k, b, a, c, o])
    ensures MergeSpec(k, [[b, o], [a, o], [c, o], [b, a, c]]) == Success([k, b, a, c, o])
  {
    assert [k] + [b, a, c, o] == [k, b, a, c, o];
    FirstMergeTraceTail0(k, b, a, c, o);
    MergesToIsMergeTail([[b, o], [a, o], [c, o], [b, a, c]], [b, a, c, o]);
  }

  lemma FirstMergeTraceTail0<T>(k: T, b: T, a: T, c: T, o: T)
    requires Distinct([k, b, a, c, o])
    ensures MergesTo([[b, o], [a, o], [c, o], [b, a, c]], [b, a, c, o])
  {
    assert [b, a, c, o][1..] == [a, c, o];
    FirstMergeTraceTail1(k, b, a, c, o);
    FirstMergeTraceStep0(k, b, a, c, o);
  }

  lemma FirstMergeTraceTail1<T>(k: T, b: T, a: T, c: T, o: T)
    requires Distinct([k, b, a, c, o])
    ensures MergesTo([[o], [a, o], [c, o], [a, c]], [a, c, o])
  {
    assert [a, c, o][1..] == [c, o];
    FirstMergeTraceTail2(k, b, a, c, o);
    FirstMergeTraceStep1(k, b, a, c, o);
  }

  lemma FirstMergeTraceTail2<T>(k: T, b: T, a: T, c: T, o: T)
    requires Distinct([k, b, a, c, o])
    ensures MergesTo([[o], [o], [c, o], [c]], [c, o])
  {
    assert [c, o][1..] == [o];
    FirstMergeTraceTail3(k, b, a, c, o);
    FirstMergeTraceStep2(k, b, a, c, o);
  }

  lemma FirstMergeTraceTail3<T>(k: T, b: T, a: T, c: T, o: T)
    requires Distinct([k, b, a, c, o])
    ensures MergesTo([[o], [o], [o]], [o])
  {
    assert [o][1..] == [];
    FirstMergeTraceStep3(k, b, a, c, o);
  }

  lemma FirstMergeTraceStep0<T>(k: T, b: T, a: T, c: T, o: T)
    requires Distinct([k, b, a, c, o])
    ensures FirstSolution([[b, o], [a, o], [c, o], [b, a, c]]) == Some(b)
    ensures DropHeads([[b, o], [a, o], [c, o], [b, a, c]], b) == [[o], [a, o], [c, o], [a, c]]
  {
    var names := [k, b, a, c, o];
    assert names[0] == k && names[1] == b && names[2] == a && names[3] == c && names[4] == o;
    var ss := [[b, o], [a, o], [c, o], [b, a, c]];
    InSomeTailAt(b, ss);
    FirstSolutionAt(ss, 0);
    assert DropHeads(ss[3..], b) == [[a, c]];
    assert DropHeads(ss[2..], b) == [[c, o], [a, c]];
    assert DropHeads(ss[1..], b) == [[a, o], [c, o], [a, c]];
  }

  lemma FirstMergeTraceStep1<T>(k: T, b: T, a: T, c: T, o: T)
    requires Distinct([k, b, a, c, o])
    ensures FirstSolution([[o], [a, o], [c, o], [a, c]]) == Some(a)
    ensures DropHeads([[o], [a, o], [c, o], [a, c]], a) == [[o], [o], [c, o], [c]]
  {
    var names := [k, b, a, c, o];
    assert names[0] == k && names[1] == b && names[2] == a && names[3] == c && names[4] == o;
    var ss := [[o], [a, o], [c, o], [a, c]];
    assert ss[1][1] == o;
    InSomeTailAt(o, ss);
    InSomeTailAt(a, ss);
    FirstSolutionAt(ss, 1);
    assert DropHeads(ss[3..], a) == [[c]];
    assert DropHeads(ss[2..], a) == [[c, o], [c]];
    assert DropHeads(ss[1..], a) == [[o], [c, o], [c]];
  }

  lemma FirstMergeTraceStep2<T>(k: T, b: T, a: T, c: T, o: T)
    requires Distinct([k, b, a, c, o])
    ensures FirstSolution([[o], [o], [c, o], [c]]) == Some(c)
    ensures DropHeads([[o], [o], [c, o], [c]], c) == [[o], [o], [o]]
  {
    var names := [k, b, a, c, o];
    assert names[0] == k && names[1] == b && names[2] == a && names[3] == c && names[4] == o;
    var ss := [[o], [o], [c, o], [c]];
    assert ss[2][1] == o;
    InSomeTailAt(o, ss);
    InSomeTailAt(c, ss);
    FirstSolutionAt(ss, 2);
    assert DropHeads(ss[3..], c) == [];
    assert DropHeads(ss[2..], c) == [[o]];
    assert DropHeads(ss[1..], c) == [[o], [o]];
  }

  lemma FirstMergeTraceStep3<T>(k: T, b: T, a: T, c: T, o: T)
    requires Distinct([k, b, a, c, o])
    ensures FirstSolution([[o], [o], [o]]) == Some(o)
    ensures DropHeads([[o], [o], [o]], o) == []
  {
    var names := [k, b, a, c, o];
    assert names[0] == k && names[1] == b && names[2] == a && names[3] == c && names[4] == o;
    var ss := [[o], [o], [o]];
    InSomeTailAt(o, ss);
    FirstSolutionAt(ss, 0);
    assert DropHeads(ss[2..], o) == [];
    assert DropHeads(ss[1..], o) == [];
  }

  /** The merge of the second merge test, one step at a time, for any ten distinct names. */
  lemma SecondMergeTrace<T>(z: T, k1: T, k2: T, k3: T, a: T, b: T, c: T, d: T, e: T, o: T)
    requires Distinct([z, k1, k2, k3, a, b, c, d, e, o])
    ensures MergeSpec(z, [[k1, c, b, a, o], [k3, a, d, o], [k2, b, d, e, o], [k1, k3, k2]]) == Success([z, k1, c, k3, k2, b, a, d, e, o])
  {
    assert [z] + [k1, c, k3, k2, b, a, d, e, o] == [z, k1, c, k3, k2, b, a, d, e, o];
    SecondMergeTraceTail0(z, k1, k2, k3, a, b, c, d, e, o);
    MergesToIsMergeTail([[k1, c, b, a, o], [k3, a, d, o], [k2, b, d, e, o], [k1, k3, k2]], [k1, c, k3, k2, b, a, d, e, o]);
  }

  lemma SecondMergeTraceTail0<T>(z: T, k1: T, k2: T, k3: T, a: T, b: T, c: T, d: T, e: T, o: T)
    requires Distinct([z, k1, k2, k3, a, b, c, d, e, o])
    ensures MergesTo([[k1, c, b, a, o], [k3, a, d, o], [k2, b, d, e, o], [k1, k3, k2]], [k1, c, k3, k2, b, a, d, e, o])
  {
    assert [k1, c, k3, k2, b, a, d, e, o][1..] == [c, k3, k2, b, a, d, e, o];
    SecondMergeTraceTail1(z, k1, k2, k3, a, b, c, d, e, o);
    SecondMergeTraceStep0(z, k1, k2, k3, a, b, c, d, e, o);
  }

  lemma SecondMergeTraceTail1<T>(z: T, k1: T, k2: T, k3: T, a: T, b: T, c: T, d: T, e: T, o: T)
    requires Distinct([z, k1, k2, k3, a, b, c, d, e, o])
    ensures MergesTo([[c, b, a, o], [k3, a, d, o], [k2, b, d, e, o], [k3, k2]], [c, k3, k2, b, a, d, e, o])
  {
    assert [c, k3, k2, b, a, d, e, o][1..] == [k3, k2, b, a, d, e, o];
    SecondMergeTraceTail2(z, k1, k2, k3, a, b, c, d, e, o);
    SecondMergeTraceStep1(z, k1, k2, k3, a, b, c, d, e, o);
  }

  lemma SecondMergeTraceTail2<T>(z: T, k1: T, k2: T, k3: T, a: T, b: T, c: T, d: T, e: T, o: T)
    requires Distinct([z, k1, k2, k3, a, b, c, d, e, o])
    ensures MergesTo([[b, a, o], [k3, a, d, o], [k2, b, d, e, o], [k3, k2]], [k3, k2, b, a, d, e, o])
  {
    assert [k3, k2, b, a, d, e, o][1..] == [k2, b, a, d, e, o];
    SecondMergeTraceTail3(z, k1, k2, k3, a, b, c, d, e, o);
    SecondMergeTraceStep2(z, k1, k2, k3, a, b, c, d, e, o);
  }

  lemma SecondMergeTraceTail3<T>(z: T, k1: T, k2: T, k3: T, a: T, b: T, c: T, d: T, e: T, o: T)
    requires Distinct([z, k1, k2, k3, a, b, c, d, e, o])
    ensures MergesTo([[b, a, o], [a, d, o], [k2, b, d, e, o], [k2]], [k2, b, a, d, e, o])
  {
    assert [k2, b, a, d, e, o][1..] == [b, a, d, e, o];
    SecondMergeTraceTail4(z, k1, k2, k3, a, b, c, d, e, o);
    SecondMergeTraceStep3(z, k1, k2, k3, a, b, c, d, e, o);
  }

  lemma SecondMergeTraceTail4<T>(z: T, k1: T, k2: T, k3: T, a: T, b: T, c: T, d: T, e: T, o: T)
    requires Distinct([z, k1, k2, k3, a, b, c, d, e, o])
    ensures MergesTo([[b, a, o], [a, d, o], [b, d, e, o]], [b, a, d, e, o])
  {
    assert [b, a, d, e, o][1..] == [a, d, e, o];
    SecondMergeTraceTail5(z, k1, k2, k3, a, b, c, d, e, o);
    SecondMergeTraceStep4(z, k1, k2, k3, a, b, c, d, e, o);
  }

  lemma SecondMergeTraceTail5<T>(z: T, k1: T, k2: T, k3: T, a: T, b: T, c: T, d: T, e: T, o: T)
    requires Distinct([z, k1, k2, k3, a, b, c, d, e, o])
    ensures MergesTo([[a, o], [a, d, o], [d, e, o]], [a, d, e, o])
  {
    assert [a, d, e, o][1..] == [d, e, o];
    SecondMergeTraceTail6(z, k1, k2, k3, a, b, c, d, e, o);
    SecondMergeTraceStep5(z, k1, k2, k3, a, b, c, d, e, o);
  }

  lemma SecondMergeTraceTail6<T>(z: T, k1: T, k2: T, k3: T, a: T, b: T, c: T, d: T, e: T, o: T)
    requires Distinct([z, k1, k2, k3, a, b, c, d, e, o])
    ensures MergesTo([[o], [d, o], [d, e, o]], [d, e, o])
  {
    assert [d, e, o][1..] == [e, o];
    SecondMergeTraceTail7(z, k1, k2, k3, a, b, c, d, e, o);
    SecondMergeTraceStep6(z, k1, k2, k3, a, b, c, d, e, o);
  }

  lemma SecondMergeTraceTail7<T>(z: T, k1: T, k2: T, k3: T, a: T, b: T, c: T, d: T, e: T, o: T)
    requires Distinct([z, k1, k2, k3, a, b, c, d, e, o])
    ensures MergesTo([[o], [o], [e, o]], [e, o])
  {
    assert [e, o][1..] == [o];
    SecondMergeTraceTail8(z, k1, k2, k3, a, b, c, d, e, o);
    SecondMergeTraceStep7(z, k1, k2, k3, a, b, c, d, e, o);
  }

  lemma SecondMergeTraceTail8<T>(z: T, k1: T, k2: T, k3: T, a: T, b: T, c: T, d: T, e: T, o: T)
    requires Distinct([z, k1, k2, k3, a, b, c, d, e, o])
    ensures MergesTo([[o], [o], [o]], [o])
  {
    assert [o][1..] == [];
    SecondMergeTraceStep8(z, k1, k2, k3, a, b, c, d, e, o);
  }

  lemma SecondMergeTraceStep0<T>(z: T, k1: T, k2: T, k3: T, a: T, b: T, c: T, d: T, e: T, o: T)
    requires Distinct([z, k1, k2, k3, a, b, c, d, e, o])
    ensures FirstSolution([[k1, c, b, a, o], [k3, a, d, o], [k2, b, d, e, o], [k1, k3, k2]]) == Some(k1)
    ensures DropHeads([[k1, c, b, a, o], [k3, a, d, o], [k2, b, d, e, o], [k1, k3, k2]], k1) == [[c, b, a, o], [k3, a, d, o], [k2, b, d, e, o], [k3, k2]]
  {
    var names := [z, k1, k2, k3, a, b, c, d, e, o];
    assert names[0] == z && names[1] == k1 && names[2] == k2 && names[3] == k3 && names[4] == a && names[5] == b && names[6] == c && names[7] == d && names[8] == e && names[9] == o;
    var ss := [[k1, c, b, a, o], [k3, a, d, o], [k2, b, d, e, o], [k1, k3, k2]];
    InSomeTailAt(k1, ss);
    FirstSolutionAt(ss, 0);
    assert DropHeads(ss[3..], k1) == [[k3, k2]];
    assert DropHeads(ss[2..], k1) == [[k2, b, d, e, o], [k3, k2]];
    assert DropHeads(ss[1..], k1) == [[k3, a, d, o], [k2, b, d, e, o], [k3, k2]];
  }

  lemma SecondMergeTraceStep1<T>(z: T, k1: T, k2: T, k3: T, a: T, b: T, c: T, d: T, e: T, o: T)
    requires Distinct([z, k1, k2, k3, a, b, c, d, e, o])
    ensures FirstSolution([[c, b, a, o], [k3, a, d, o], [k2, b, d, e, o], [k3, k2]]) == Some(c)
    ensures DropHeads([[c, b, a, o], [k3, a, d, o], [k2, b, d, e, o], [k3, k2]], c) == [[b, a, o], [k3, a, d, o], [k2, b, d, e, o], [k3, k2]]
  {
    var names := [z, k1, k2, k3, a, b, c, d, e, o];
    assert names[0] == z && names[1] == k1 && names[2] == k2 && names[3] == k3 && names[4] == a && names[5] == b && names[6] == c && names[7] == d && names[8] == e && names[9] == o;
    var ss := [[c, b, a, o], [k3, a, d, o], [k2, b, d, e, o], [k3, k2]];
    InSomeTailAt(c, ss);
    FirstSolutionAt(ss, 0);
    assert DropHeads(ss[3..], c) == [[k3, k2]];
    assert DropHeads(ss[2..], c) == [[k2, b, d, e, o], [k3, k2]];
    assert DropHeads(ss[1..], c) == [[k3, a, d, o], [k2, b, d, e, o], [k3, k2]];
  }

  lemma SecondMergeTraceStep2<T>(z: T, k1: T, k2: T, k3: T, a: T, b: T, c: T, d: T, e: T, o: T)
    requires Distinct([z, k1, k2, k3, a, b, c, d, e, o])
    ensures FirstSolution([[b, a, o], [k3, a, d, o], [k2, b, d, e, o], [k3, k2]]) == Some(k3)
    ensures DropHeads([[b, a, o], [k3, a, d, o], [k2, b, d, e, o], [k3, k2]], k3) == [[b, a, o], [a, d, o], [k2, b, d, e, o], [k2]]
  {
    var names := [z, k1, k2, k3, a, b, c, d, e, o];
    assert names[0] == z && names[1] == k1 && names[2] == k2 && names[3] == k3 && names[4] == a && names[5] == b && names[6] == c && names[7] == d && names[8] == e && names[9] == o;
    var ss := [[b, a, o], [k3, a, d, o], [k2, b, d, e, o], [k3, k2]];
    assert ss[2][1] == b;
    InSomeTailAt(b, ss);
    InSomeTailAt(k3, ss);
    FirstSolutionAt(ss, 1);
    assert DropHeads(ss[3..], k3) == [[k2]];
    assert DropHeads(ss[2..], k3) == [[k2, b, d, e, o], [k2]];
    assert DropHeads(ss[1..], k3) == [[a, d, o], [k2, b, d, e, o], [k2]];
  }

  lemma SecondMergeTraceStep3<T>(z: T, k1: T, k2: T, k3: T, a: T, b: T, c: T, d: T, e: T, o: T)
    requires Distinct([z, k1, k2, k3, a, b, c, d, e, o])
    ensures FirstSolution([[b, a, o], [a, d, o], [k2, b, d, e, o], [k2]]) == Some(k2)
    ensures DropHeads([[b, a, o], [a, d, o], [k2, b, d, e, o], [k2]], k2) == [[b, a, o], [a, d, o], [b, d, e, o]]
  {
    var names := [z, k1, k2, k3, a, b, c, d, e, o];
    assert names[0] == z && names[1] == k1 && names[2] == k2 && names[3] == k3 && names[4] == a && names[5] == b && names[6] == c && names[7] == d && names[8] == e && names[9] == o;
    var ss := [[b, a, o], [a, d, o], [k2, b, d, e, o], [k2]];
    assert ss[2][1] == b;
    InSomeTailAt(b, ss);
    assert ss[0][1] == a;
    InSomeTailAt(a, ss);
    InSomeTailAt(k2, ss);
    FirstSolutionAt(ss, 2);
    assert DropHeads(ss[3..], k2) == [];
    assert DropHeads(ss[2..], k2) == [[b, d, e, o]];
    assert DropHeads(ss[1..], k2) == [[a, d, o], [b, d, e, o]];
  }

  lemma SecondMergeTraceStep4<T>(z: T, k1: T, k2: T, k3: T, a: T, b: T, c: T, d: T, e: T, o: T)
    requires Distinct([z, k1, k2, k3, a, b, c, d, e, o])
    ensures FirstSolution([[b, a, o], [a, d, o], [b, d, e, o]]) == Some(b)
    ensures DropHeads([[b, a, o], [a, d, o], [b, d, e, o]], b) == [[a, o], [a, d, o], [d, e, o]]
  {
    var names := [z, k1, k2, k3, a, b, c, d, e, o];
    assert names[0] == z && names[1] == k1 && names[2] == k2 && names[3] == k3 && names[4] == a && names[5] == b && names[6] == c && names[7] == d && names[8] == e && names[9] == o;
    var ss := [[b, a, o], [a, d, o], [b, d, e, o]];
    InSomeTailAt(b, ss);
    FirstSolutionAt(ss, 0);
    assert DropHeads(ss[2..], b) == [[d, e, o]];
    assert DropHeads(ss[1..], b) == [[a, d, o], [d, e, o]];
  }

  lemma SecondMergeTraceStep5<T>(z: T, k1: T, k2: T, k3: T, a: T, b: T, c: T, d: T, e: T, o: T)
    requires Distinct([z, k1, k2, k3, a, b, c, d, e, o])
    ensures FirstSolution([[a, o], [a, d, o], [d, e, o]]) == Some(a)
    ensures DropHeads([[a, o], [a, d, o], [d, e, o]], a) == [[o], [d, o], [d, e, o]]
  {
    var names := [z, k1, k2, k3, a, b, c, d, e, o];
    assert names[0] == z && names[1] == k1 && names[2] == k2 && names[3] == k3 && names[4] == a && names[5] == b && names[6] == c && names[7] == d && names[8] == e && names[9] == o;
    var ss := [[a, o], [a, d, o], [d, e, o]];
    InSomeTailAt(a, ss);
    FirstSolutionAt(ss, 0);
    assert DropHeads(ss[2..], a) == [[d, e, o]];
    assert DropHeads(ss[1..], a) == [[d, o], [d, e, o]];
  }

  lemma SecondMergeTraceStep6<T>(z: T, k1: T, k2: T, k3: T, a: T, b: T, c: T, d: T, e: T, o: T)
    requires Distinct([z, k1, k2, k3, a, b, c, d, e, o])
    ensures FirstSolution([[o], [d, o], [d, e, o]]) == Some(d)
    ensures DropHeads([[o], [d, o], [d, e, o]], d) == [[o], [o], [e, o]]
  {
    var names := [z, k1, k2, k3, a, b, c, d, e, o];
    assert names[0] == z && names[1] == k1 && names[2] == k2 && names[3] == k3 && names[4] == a && names[5] == b && names[6] == c && names[7] == d && names[8] == e && names[9] == o;
    var ss := [[o], [d, o], [d, e, o]];
    assert ss[1][1] == o;
    InSomeTailAt(o, ss);
    InSomeTailAt(d, ss);
    FirstSolutionAt(ss, 1);
    assert DropHeads(ss[2..], d) == [[e, o]];
    assert DropHeads(ss[1..], d) == [[o], [e, o]];
  }

  lemma SecondMergeTraceStep7<T>(z: T, k1: T, k2: T, k3: T, a: T, b: T, c: T, d: T, e: T, o: T)
    requires Distinct([z, k1, k2, k3, a, b, c, d, e, o])
    ensures FirstSolution([[o], [o], [e, o]]) == Some(e)
    ensures DropHeads([[o], [o], [e, o]], e) == [[o], [o], [o]]
  {
    var names := [z, k1, k2, k3, a, b, c, d, e, o];
    assert names[0] == z && names[1] == k1 && names[2] == k2 && names[3] == k3 && names[4] == a && names[5] == b && names[6] == c && names[7] == d && names[8] == e && names[9] == o;
    var ss := [[o], [o], [e, o]];
    assert ss[2][1] == o;
    InSomeTailAt(o, ss);
    InSomeTailAt(e, ss);
    FirstSolutionAt(ss, 2);
    assert DropHeads(ss[2..], e) == [[o]];
    assert DropHeads(ss[1..], e) == [[o], [o]];
  }

  lemma SecondMergeTraceStep8<T>(z: T, k1: T, k2: T, k3: T, a: T, b: T, c: T, d: T, e: T, o: T)
    requires Distinct([z, k1, k2, k3, a, b, c, d, e, o])
    ensures FirstSolution([[o], [o], [o]]) == Some(o)
    ensures DropHeads([[o], [o], [o]], o) == []
  {
    var names := [z, k1, k2, k3, a, b, c, d, e, o];
    assert names[0] == z && names[1] == k1 && names[2] == k2 && names[3] == k3 && names[4] == a && names[5] == b && names[6] == c && names[7] == d && names[8] == e && names[9] == o;
    var ss := [[o], [o], [o]];
    InSomeTailAt(o, ss);
    FirstSolutionAt(ss, 0);
    assert DropHeads(ss[2..], o) == [];
    assert DropHeads(ss[1..], o) == [];
  }
}
