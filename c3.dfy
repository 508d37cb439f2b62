/*
 * The class registry: for every class, a list of classes (declared parents in
 * the engine's input, the linearized path in its output), and the functions and
 * variables each class contributes directly.
 */
module C3Registry {
  import opened Identifiers
  import opened C3Lib
  import opened C3Sets

  /** A missing entry of a contribution table reads as the empty list (`unwrap_or_default`). */
  function Lookup(table: map<Class, seq<string>>, cls: Class): seq<string> {
    if cls in table then table[cls] else []
  }

  /** The paths of the parents, in parent order, the empty ones left out; the first unknown parent is an error. */
  function ParentPaths(classes: map<Class, seq<Class>>, bases: seq<Class>): Result<seq<seq<Class>>> {
    if bases == [] then Success([])
    else if bases[0] !in classes then Failure(BaseClassDoesNotExists(bases[0]))
    else
      match ParentPaths(classes, bases[1..])
      case Failure(e) => Failure(e)
      case Success(rest) =>
        Success((if classes[bases[0]] == [] then [] else [classes[bases[0]]]) + rest)
  }

  /** The input of the merge for a class with parents `bases`: the parents' paths, then `bases` itself. */
  function SetsForSpec(classes: map<Class, seq<Class>>, bases: seq<Class>): Result<seq<seq<Class>>> {
    match ParentPaths(classes, bases)
    case Failure(e) => Failure(e)
    case Success(paths) => Success(paths + (if bases == [] then [] else [bases]))
  }

  lemma {:induction false} ParentPathsSpec(classes: map<Class, seq<Class>>, bases: seq<Class>)
    ensures ParentPaths(classes, bases).Failure? <==> exists k :: 0 <= k < |bases| && bases[k] !in classes
    ensures ParentPaths(classes, bases).Failure? ==>
              exists k :: 0 <= k < |bases| && bases[k] !in classes
                && ParentPaths(classes, bases).error == BaseClassDoesNotExists(bases[k])
                && forall m :: 0 <= m < k ==> bases[m] in classes
    ensures ParentPaths(classes, bases).Success? ==>
              var ps := ParentPaths(classes, bases).value;
              && NoEmpty(ps)
              && (forall k :: 0 <= k < |bases| && classes[bases[k]] != [] ==> classes[bases[k]] in ps)
              && (forall i :: 0 <= i < |ps| ==> exists k :: 0 <= k < |bases| && ps[i] == classes[bases[k]])
    decreases |bases|
  {
    if bases != [] {
      var rest := bases[1..];
      ParentPathsSpec(classes, rest);
      if bases[0] in classes && ParentPaths(classes, rest).Failure? {
        var k :| 0 <= k < |rest| && rest[k] !in classes
                 && ParentPaths(classes, rest).error == BaseClassDoesNotExists(rest[k])
                 && forall m :: 0 <= m < k ==> rest[m] in classes;
        assert bases[k + 1] == rest[k];
        forall m | 0 <= m < k + 1 ensures bases[m] in classes {
          if m > 0 {
            assert bases[m] == rest[m - 1];
          }
        }
      }
      if ParentPaths(classes, rest).Success? && bases[0] in classes {
        var ps := ParentPaths(classes, bases).value;
        var tail := ParentPaths(classes, rest).value;
        var head := if classes[bases[0]] == [] then [] else [classes[bases[0]]];
        assert ps == head + tail;
        forall k | 0 <= k < |bases| && classes[bases[k]] != [] ensures classes[bases[k]] in ps {
          if k > 0 {
            assert bases[k] == rest[k - 1];
          }
        }
        forall i | 0 <= i < |ps| ensures exists k :: 0 <= k < |bases| && ps[i] == classes[bases[k]] {
          if i < |head| {
            assert ps[i] == classes[bases[0]];
          } else {
            assert ps[i] == tail[i - |head|];
            var k :| 0 <= k < |rest| && tail[i - |head|] == classes[rest[k]];
            assert bases[k + 1] == rest[k];
          }
        }
      }
      if exists k :: 0 <= k < |bases| && bases[k] !in classes {
        var k :| 0 <= k < |bases| && bases[k] !in classes;
        if k > 0 {
          assert rest[k - 1] == bases[k];
        }
      }
    }
  }

  /**
   * `sets_for`: fails with the first parent that is not registered; otherwise the
   * lists are non-empty, hold every parent's non-empty path, and end with the parent
   * list itself when there are parents. Each list is a parent's path or the parent list.
   */
  lemma SetsForSpecIsMergeInput(classes: map<Class, seq<Class>>, bases: seq<Class>)
    ensures SetsForSpec(classes, bases).Failure? <==> exists k :: 0 <= k < |bases| && bases[k] !in classes
    ensures SetsForSpec(classes, bases).Failure? ==>
              exists k :: 0 <= k < |bases| && bases[k] !in classes
                && SetsForSpec(classes, bases).error == BaseClassDoesNotExists(bases[k])
                && forall m :: 0 <= m < k ==> bases[m] in classes
    ensures SetsForSpec(classes, bases).Success? ==>
              var ss := SetsForSpec(classes, bases).value;
              && NoEmpty(ss)
              && (forall k :: 0 <= k < |bases| && classes[bases[k]] != [] ==> classes[bases[k]] in ss)
              && (bases != [] ==> ss[|ss| - 1] == bases)
              && (forall i :: 0 <= i < |ss| ==> ss[i] == bases || exists k :: 0 <= k < |bases| && ss[i] == classes[bases[k]])
  {
    ParentPathsSpec(classes, bases);
    if SetsForSpec(classes, bases).Success? {
      var ps := ParentPaths(classes, bases).value;
      var ss := SetsForSpec(classes, bases).value;
      assert forall i :: 0 <= i < |ps| ==> ss[i] == ps[i];
    }
  }

  /** The merge input of a known parent list holds no empty list. */
  lemma SetsForSpecNoEmpty(classes: map<Class, seq<Class>>, bases: seq<Class>)
    requires SetsForSpec(classes, bases).Success?
    ensures NoEmpty(SetsForSpec(classes, bases).value)
  {
    SetsForSpecIsMergeInput(classes, bases);
  }

  /** The paths of the registered parents `bases`, one per parent, in parent order. */
  function PathsOfParents(classes: map<Class, seq<Class>>, bases: seq<Class>): (r: seq<seq<Class>>)
    requires forall k :: 0 <= k < |bases| ==> bases[k] in classes
    ensures |r| == |bases|
    ensures forall k :: 0 <= k < |r| ==> r[k] == classes[bases[k]]
  {
    if bases == [] then [] else [classes[bases[0]]] + PathsOfParents(classes, bases[1..])
  }

  /**
   * `sets_for` keeps the parent order: with every parent registered, the merge input is
   * the parents' paths in parent order, the empty ones filtered out, then the parent list.
   */
  lemma {:induction false} SetsForSpecInParentOrder(classes: map<Class, seq<Class>>, bases: seq<Class>)
    requires forall k :: 0 <= k < |bases| ==> bases[k] in classes
    ensures ParentPaths(classes, bases) == Success(RetainNonEmpty(PathsOfParents(classes, bases)))
    ensures SetsForSpec(classes, bases) == Success(RetainNonEmpty(PathsOfParents(classes, bases)) + (if bases == [] then [] else [bases]))
    decreases |bases|
  {
    if bases != [] {
      SetsForSpecInParentOrder(classes, bases[1..]);
      var paths := PathsOfParents(classes, bases);
      assert paths[0] == classes[bases[0]] && paths[1..] == PathsOfParents(classes, bases[1..]);
      var rest := RetainNonEmpty(paths[1..]);
      assert RetainNonEmpty(paths) == (if paths[0] == [] then [] else [paths[0]]) + rest;
    }
  }

  /**
   * In the merge input, the path of an earlier parent comes before the path of a later one,
   * and there is one list per parent with a non-empty path, plus the parent list.
   */
  lemma SetsForSpecParentOrder(classes: map<Class, seq<Class>>, bases: seq<Class>, k: nat, m: nat)
    requires forall k :: 0 <= k < |bases| ==> bases[k] in classes
    requires k < m < |bases| && classes[bases[k]] != [] && classes[bases[m]] != []
    ensures SetsForSpec(classes, bases).Success?
    ensures var ss := SetsForSpec(classes, bases).value;
            exists p, q :: 0 <= p < q < |ss| && ss[p] == classes[bases[k]] && ss[q] == classes[bases[m]]
  {
    SetsForSpecInParentOrder(classes, bases);
    var paths := PathsOfParents(classes, bases);
    RetainNonEmptyKeepsOrder(paths, k, m);
    var r := RetainNonEmpty(paths);
    var p, q :| 0 <= p < q < |r| && r[p] == paths[k] && r[q] == paths[m];
    var ss := SetsForSpec(classes, bases).value;
    assert ss[p] == r[p] && ss[q] == r[q];
  }

  /** The merge input holds one list per parent with a non-empty path, and the parent list when there are parents. */
  lemma SetsForSpecCount(classes: map<Class, seq<Class>>, bases: seq<Class>)
    requires forall k :: 0 <= k < |bases| ==> bases[k] in classes
    ensures SetsForSpec(classes, bases).Success?
    ensures |SetsForSpec(classes, bases).value| + multiset(PathsOfParents(classes, bases))[[]]
              == |bases| + (if bases == [] then 0 else 1)
  {
    SetsForSpecInParentOrder(classes, bases);
    RetainNonEmptyCount(PathsOfParents(classes, bases));
  }

  /** `sets_for` succeeds when every parent is registered. */
  lemma {:induction false} ParentPathsKnown(classes: map<Class, seq<Class>>, bases: seq<Class>)
    requires forall k :: 0 <= k < |bases| ==> bases[k] in classes
    ensures ParentPaths(classes, bases).Success?
    ensures SetsForSpec(classes, bases).Success?
    decreases |bases|
  {
    if bases != [] {
      assert forall k :: 0 <= k < |bases[1..]| ==> bases[1..][k] == bases[k + 1];
      ParentPathsKnown(classes, bases[1..]);
    }
  }

  /** `sets_for` reads only the parents' paths: two registries that agree on them give the same lists. */
  lemma {:induction false} ParentPathsAgree(m1: map<Class, seq<Class>>, m2: map<Class, seq<Class>>, bases: seq<Class>)
    requires forall k :: 0 <= k < |bases| ==> bases[k] in m1 && bases[k] in m2 && m1[bases[k]] == m2[bases[k]]
    ensures ParentPaths(m1, bases) == ParentPaths(m2, bases)
    decreases |bases|
  {
    if bases != [] {
      assert forall k :: 0 <= k < |bases[1..]| ==> bases[1..][k] == bases[k + 1];
      ParentPathsAgree(m1, m2, bases[1..]);
    }
  }

  /** The lists `ps` in front of the lists of a successful result. */
  function PrependPaths(ps: seq<seq<Class>>, r: Result<seq<seq<Class>>>): Result<seq<seq<Class>>> {
    match r
    case Failure(e) => Failure(e)
    case Success(rest) => Success(ps + rest)
  }

  lemma PrependPathsAssociates(ps: seq<seq<Class>>, head: seq<seq<Class>>, r: Result<seq<seq<Class>>>)
    ensures PrependPaths(ps, PrependPaths(head, r)) == PrependPaths(ps + head, r)
  {
    if r.Success? {
      assert ps + (head + r.value) == (ps + head) + r.value;
    }
  }

  lemma PrependNothing(r: Result<seq<seq<Class>>>)
    ensures PrependPaths([], r) == r
  {
    if r.Success? {
      assert [] + r.value == r.value;
    }
  }

  /** The entries registered on the classes of `path`, gathered front to back. */
  method VisibleAlong(table: map<Class, seq<string>>, path: seq<Class>) returns (r: seq<string>)
    ensures StrictlySorted(r)
    ensures forall name :: name in r <==> exists k :: 0 <= k < |path| && name in Lookup(table, path[k])
  {
    var gathered: seq<string> := [];
    for i := 0 to |path|
      invariant forall name :: name in gathered <==> exists k :: 0 <= k < i && name in Lookup(table, path[k])
    {
      gathered := gathered + Lookup(table, path[i]);
    }
    var sorted := Sort(gathered);
    DedupSortedIsStrict(sorted);
    r := Dedup(sorted);
    forall name ensures name in r <==> name in gathered {
      calc {
        name in r;
        name in sorted;
        name in multiset(sorted);
        name in multiset(gathered);
        name in gathered;
      }
    }
  }

  class C3 {
    /** Class to its list of classes (declared parents, or the linearized path). */
    var classes: map<Class, seq<Class>>
    /** Class to the functions it declares itself, in registration order. */
    var functions: map<Class, seq<Fn>>
    /** Class to the variables it declares itself, in registration order. */
    var variables: map<Class, seq<Var>>

    /** `C3::new`. */
    constructor ()
      ensures classes == map[] && functions == map[] && variables == map[]
    {
      classes, functions, variables := map[], map[], map[];
    }

    /** `add`: inserts or overwrites the list of `base`; every other class keeps its list. */
    method Add(base: Class, path: seq<Class>)
      modifies this
      ensures classes == old(classes)[base := path]
      ensures functions == old(functions) && variables == old(variables)
    {
      classes := classes[base := path];
    }

    /** `add_class_str`: `add` with the parent list written out as "B, C". */
    method AddClassStr(base: string, parents: string)
      modifies this
      ensures classes == old(classes)[base := SplitComa(parents)]
      ensures functions == old(functions) && variables == old(variables)
    {
      Add(base, SplitComa(parents));
    }

    /** `remove`: deletes `base`, or fails with `BaseClassDoesNotExists` when it is not registered. */
    method Remove(base: Class) returns (r: Result<()>)
      modifies this
      ensures base in old(classes) ==> r == Success(()) && classes == old(classes) - {base}
      ensures base !in old(classes) ==> r == Failure(BaseClassDoesNotExists(base)) && classes == old(classes)
      ensures functions == old(functions) && variables == old(variables)
    {
      if base in classes {
        classes := classes - {base};
        r := Success(());
      } else {
        r := Failure(BaseClassDoesNotExists(base));
      }
    }

    /** `all_classes`: the registered classes in increasing order, each once. */
    method AllClasses() returns (keys: seq<Class>)
      ensures StrictlySorted(keys)
      ensures forall c :: c in keys <==> c in classes
    {
      keys := SortedKeys(classes.Keys);
    }

    /** `is_empty`: no class is registered. */
    function IsEmpty(): (b: bool)
      reads this
      ensures b <==> |classes| == 0
    {
      classes == map[]
    }

    /** `path`: the stored list of `base`, or `BaseClassDoesNotExists`. */
    function Path(base: Class): (r: Result<seq<Class>>)
      reads this
      ensures r.Success? <==> base in classes
      ensures r.Success? ==> r.value == classes[base]
      ensures r.Failure? ==> r.error == BaseClassDoesNotExists(base)
    {
      if base in classes then Success(classes[base]) else Failure(BaseClassDoesNotExists(base))
    }

    /** `sets_for`: builds the merge input for a class whose parents are `bases`. */
    method SetsFor(bases: seq<Class>) returns (r: Result<Sets<Class>>)
      ensures SetsForSpec(classes, bases).Failure? ==> r == Failure(SetsForSpec(classes, bases).error)
      ensures SetsForSpec(classes, bases).Success? ==>
                r.Success? && fresh(r.value) && r.value.Valid() && r.value.sets == SetsForSpec(classes, bases).value
    {
      var sets := new Sets();
      assert bases[0..] == bases;
      PrependNothing(ParentPaths(classes, bases));
      for k := 0 to |bases|
        invariant fresh(sets) && sets.Valid()
        invariant forall m :: 0 <= m < k ==> bases[m] in classes
        invariant ParentPaths(classes, bases) == PrependPaths(sets.sets, ParentPaths(classes, bases[k..]))
      {
        assert bases[k..][1..] == bases[k + 1..];
        var path := Path(bases[k]);
        if path.Failure? {
          return Failure(path.error);
        }
        ghost var before := sets.sets;
        var head := if path.value == [] then [] else [path.value];
        assert ParentPaths(classes, bases[k..]) == PrependPaths(head, ParentPaths(classes, bases[k + 1..]));
        if path.value != [] {
          var pushed := sets.Push(path.value);
        }
        assert sets.sets == before + head;
        PrependPathsAssociates(before, head, ParentPaths(classes, bases[k + 1..]));
        assert ParentPaths(classes, bases) == PrependPaths(before, ParentPaths(classes, bases[k..]));
      }
      assert bases[|bases|..] == [];
      if bases != [] {
        var pushed := sets.Push(bases);
      }
      return Success(sets);
    }

    /** `register_fn`: appends `fun` to the functions of `class`; repeats are kept. */
    method RegisterFn(cls: Class, fun: Fn)
      modifies this
      ensures functions == old(functions)[cls := Lookup(old(functions), cls) + [fun]]
      ensures classes == old(classes) && variables == old(variables)
    {
      functions := functions[cls := Lookup(functions, cls) + [fun]];
    }

    /** `register_fns`: `register_fn` for each of `funs`, in order. */
    method RegisterFns(cls: Class, funs: seq<Fn>)
      modifies this
      ensures funs == [] ==> functions == old(functions)
      ensures funs != [] ==> functions == old(functions)[cls := Lookup(old(functions), cls) + funs]
      ensures classes == old(classes) && variables == old(variables)
    {
      for i := 0 to |funs|
        invariant i == 0 ==> functions == old(functions)
        invariant i > 0 ==> functions == old(functions)[cls := Lookup(old(functions), cls) + funs[..i]]
        invariant classes == old(classes) && variables == old(variables)
      {
        ghost var before := functions;
        assert funs[..i + 1] == funs[..i] + [funs[i]];
        RegisterFn(cls, funs[i]);
        ghost var prefix := Lookup(old(functions), cls);
        assert (prefix + funs[..i]) + [funs[i]] == prefix + funs[..i + 1];
        if i > 0 {
          assert Lookup(before, cls) == prefix + funs[..i];
          assert functions == before[cls := prefix + funs[..i + 1]];
          assert before[cls := prefix + funs[..i + 1]] == old(functions)[cls := prefix + funs[..i + 1]];
        } else {
          assert funs[..1] == [funs[0]];
        }
      }
      assert funs[..|funs|] == funs;
    }

    /** `register_fn_str`. */
    method RegisterFnStr(cls: string, fun: string)
      modifies this
      ensures functions == old(functions)[cls := Lookup(old(functions), cls) + [fun]]
      ensures classes == old(classes) && variables == old(variables)
    {
      RegisterFn(cls, fun);
    }

    /** `functions`: the sorted, duplicate-free functions declared on the classes of the path of `class`. */
    method Functions(cls: Class) returns (fs: seq<Fn>)
      requires cls in classes
      ensures StrictlySorted(fs)
      ensures forall f :: f in fs <==> exists k :: 0 <= k < |classes[cls]| && f in Lookup(functions, classes[cls][k])
    {
      fs := VisibleAlong(functions, classes[cls]);
    }

    /** `register_var`: appends `var` to the variables of `class`; repeats are kept. */
    method RegisterVar(cls: Class, v: Var)
      modifies this
      ensures variables == old(variables)[cls := Lookup(old(variables), cls) + [v]]
      ensures classes == old(classes) && functions == old(functions)
    {
      variables := variables[cls := Lookup(variables, cls) + [v]];
    }

    /** `register_vars`: `register_var` for each of `vars`, in order. */
    method RegisterVars(cls: Class, vars: seq<Var>)
      modifies this
      ensures vars == [] ==> variables == old(variables)
      ensures vars != [] ==> variables == old(variables)[cls := Lookup(old(variables), cls) + vars]
      ensures classes == old(classes) && functions == old(functions)
    {
      for i := 0 to |vars|
        invariant i == 0 ==> variables == old(variables)
        invariant i > 0 ==> variables == old(variables)[cls := Lookup(old(variables), cls) + vars[..i]]
        invariant classes == old(classes) && functions == old(functions)
      {
        ghost var before := variables;
        assert vars[..i + 1] == vars[..i] + [vars[i]];
        RegisterVar(cls, vars[i]);
        ghost var prefix := Lookup(old(variables), cls);
        assert (prefix + vars[..i]) + [vars[i]] == prefix + vars[..i + 1];
        if i > 0 {
          assert Lookup(before, cls) == prefix + vars[..i];
          assert variables == before[cls := prefix + vars[..i + 1]];
          assert before[cls := prefix + vars[..i + 1]] == old(variables)[cls := prefix + vars[..i + 1]];
        } else {
          assert vars[..1] == [vars[0]];
        }
      }
      assert vars[..|vars|] == vars;
    }

    /** `register_var_str`. */
    method RegisterVarStr(cls: string, variable: string)
      modifies this
      ensures variables == old(variables)[cls := Lookup(old(variables), cls) + [variable]]
      ensures classes == old(classes) && functions == old(functions)
    {
      RegisterVar(cls, variable);
    }

    /** `variables`: the sorted, duplicate-free variables declared on the classes of the path of `class`. */
    method Variables(cls: Class) returns (vs: seq<Var>)
      requires cls in classes
      ensures StrictlySorted(vs)
      ensures forall v :: v in vs <==> exists k :: 0 <= k < |classes[cls]| && v in Lookup(variables, classes[cls][k])
    {
      vs := VisibleAlong(variables, classes[cls]);
    }
  }

  /** The registry of the registry test: three classes with their paths written out, and what they declare. */
  method BuildExampleRegistry() returns (c3: C3)
    ensures fresh(c3)
    ensures c3.classes == ExamplePaths()
    ensures c3.functions == ExampleFunctions() && c3.variables == ExampleVariables()
  {
    SplitComaOfNames();
    c3 := new C3();
    c3.AddClassStr("A", "A");
    c3.AddClassStr("B", "B, A");
    c3.AddClassStr("K1", "K1, K2, A");
    RegisterExampleContributions(c3);
  }

  /** The functions and variables of the registry test, registered one by one. */
  method RegisterExampleContributions(c3: C3)
    requires c3.functions == map[] && c3.variables == map[]
    modifies c3
    ensures c3.classes == old(c3.classes)
    ensures c3.functions == ExampleFunctions() && c3.variables == ExampleVariables()
  {
    assert Lookup(c3.functions, "A") + ["foo"] == ["foo"];
    c3.RegisterFnStr("A", "foo");
    assert Lookup(c3.functions, "A") + ["bar"] == ["foo", "bar"];
    c3.RegisterFnStr("A", "bar");
    assert Lookup(c3.functions, "B") + ["bar"] == ["bar"];
    c3.RegisterFnStr("B", "bar");
    assert Lookup(c3.variables, "A") + ["x"] == ["x"];
    c3.RegisterVarStr("A", "x");
    assert Lookup(c3.variables, "B") + ["y"] == ["y"];
    c3.RegisterVarStr("B", "y");
  }

  /**
   * The registry test: the registered classes in order, and the sorted functions and
   * variables visible along the paths of `A` and `B`.
   */
  method RegistryExample() returns (all: seq<Class>, fnsA: seq<Fn>, fnsB: seq<Fn>, varsA: seq<Var>, varsB: seq<Var>)
    ensures all == ["A", "B", "K1"]
    ensures fnsA == ["bar", "foo"] && fnsB == ["bar", "foo"]
    ensures varsA == ["x"] && varsB == ["x", "y"]
  {
    var c3 := BuildExampleRegistry();
    all := c3.AllClasses();
    ExampleOrder();
    StrictlySortedUnique(all, ["A", "B", "K1"]);
    fnsA := c3.Functions("A");
    ExampleView(fnsA, ExampleFunctions(), "A", ["bar", "foo"]);
    fnsB := c3.Functions("B");
    ExampleView(fnsB, ExampleFunctions(), "B", ["bar", "foo"]);
    varsA := c3.Variables("A");
    ExampleView(varsA, ExampleVariables(), "A", ["x"]);
    varsB := c3.Variables("B");
    ExampleView(varsB, ExampleVariables(), "B", ["x", "y"]);
  }

  function ExamplePaths(): map<Class, seq<Class>> {
    map["A" := ["A"], "B" := ["B", "A"], "K1" := ["K1", "K2", "A"]]
  }

  function ExampleFunctions(): map<Class, seq<Fn>> {
    map["A" := ["foo", "bar"], "B" := ["bar"]]
  }

  function ExampleVariables(): map<Class, seq<Var>> {
    map["A" := ["x"], "B" := ["y"]]
  }

  lemma ExampleOrder()
    ensures StrictlySorted(["A", "B", "K1"]) && StrictlySorted(["bar", "foo"])
    ensures StrictlySorted(["x"]) && StrictlySorted(["x", "y"])
  {
    assert Less("A", "B") && Less("B", "K1") && Less("A", "K1");
    assert Less("bar", "foo") && Less("x", "y");
  }

  /** The sorted views the registry test expects: the names on the path of `cls` in the test registry. */
  lemma ExampleView(r: seq<string>, table: map<Class, seq<string>>, cls: Class, expected: seq<string>)
    requires || (table, cls, expected) == (ExampleFunctions(), "A", ["bar", "foo"])
             || (table, cls, expected) == (ExampleFunctions(), "B", ["bar", "foo"])
             || (table, cls, expected) == (ExampleVariables(), "A", ["x"])
             || (table, cls, expected) == (ExampleVariables(), "B", ["x", "y"])
    requires StrictlySorted(r)
    requires forall name :: name in r <==> exists k :: 0 <= k < |ExamplePaths()[cls]| && name in Lookup(table, ExamplePaths()[cls][k])
    ensures r == expected
  {
    ExampleOrder();
    var path := ExamplePaths()[cls];
    var names := if cls == "A" then Lookup(table, "A") else Lookup(table, "B") + Lookup(table, "A");
    if cls == "A" {
      assert path == ["A"];
    } else {
      assert path == ["B", "A"];
    }
    forall name ensures name in names <==> exists k :: 0 <= k < |path| && name in Lookup(table, path[k]) {
      if name in Lookup(table, cls) {
        assert name in Lookup(table, path[0]);
      }
      if cls != "A" && name in Lookup(table, "A") {
        assert name in Lookup(table, path[1]);
      }
      if exists k :: 0 <= k < |path| && name in Lookup(table, path[k]) {
        var k :| 0 <= k < |path| && name in Lookup(table, path[k]);
        assert k == 0 || path[k] == "A";
      }
    }
    if table == ExampleFunctions() {
      assert Lookup(table, "A") == ["foo", "bar"] && Lookup(table, "B") == ["bar"];
    } else {
      assert Lookup(table, "A") == ["x"] && Lookup(table, "B") == ["y"];
    }
    assert forall name :: name in names <==> name in expected;
    StrictlySortedUnique(r, expected);
  }

  /** The parent lists of the registry test, split. */
  lemma SplitComaOfNames()
    ensures SplitComa("A") == ["A"]
    ensures SplitComa("B, A") == ["B", "A"]
    ensures SplitComa("K1, K2, A") == ["K1", "K2", "A"]
  {
    assert !HasSeparator("A") && !HasSeparator("B") && !HasSeparator("K1") && !HasSeparator("K2");
    assert "A" == Join(["A"]);
    SplitComaJoin(["A"]);
    assert "B, A" == Join(["B", "A"]);
    SplitComaJoin(["B", "A"]);
    assert "K1, K2, A" == Join(["K1", "K2", "A"]);
    SplitComaJoin(["K1", "K2", "A"]);
  }
}
