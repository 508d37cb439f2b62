/*
 * The implementation register of the code generator: for each function name,
 * the (class, implementation) pairs in the order they were added, and for each
 * variable the field that was added last. Implementations and fields are kept
 * abstract, as the type parameters `Impl` and `Field`.
 *
 * Each table is tied to a ghost history of the calls that built it. The
 * specification functions over those histories say what a lookup returns.
 */
module ImplRegister {
  import opened Identifiers
  import opened C3Lib

  /** One call of `add`: the class, the function name and the implementation. */
  type Added<Impl> = (Class, Fn, Impl)

  /** The pairs added for `fun`, in the order they were added. */
  function AddedFor<Impl>(history: seq<Added<Impl>>, fun: Fn): seq<(Class, Impl)>
    decreases |history|
  {
    if history == [] then []
    else
      var last := history[|history| - 1];
      AddedFor(history[..|history| - 1], fun) + (if last.1 == fun then [(last.0, last.2)] else [])
  }

  /** The field the last `add_var` for `v` stored, if there was one. */
  function LastAdded<Field>(history: seq<(Var, Field)>, v: Var): Option<Field>
    decreases |history|
  {
    if history == [] then None
    else if history[|history| - 1].0 == v then Some(history[|history| - 1].1)
    else LastAdded(history[..|history| - 1], v)
  }

  /** Appending one call to the history adds its pair to its own function and to no other. */
  lemma AddedForAppend<Impl>(history: seq<Added<Impl>>, e: Added<Impl>, fun: Fn)
    ensures e.1 == fun ==> AddedFor(history + [e], fun) == AddedFor(history, fun) + [(e.0, e.2)]
    ensures e.1 != fun ==> AddedFor(history + [e], fun) == AddedFor(history, fun)
  {
    assert (history + [e])[..|history + [e]| - 1] == history;
  }

  /**
   * The pairs for `fun` are exactly the calls that named `fun`, in call order: the
   * `j`-th pair comes from the `j`-th such call.
   */
  lemma {:induction false} AddedForIsInCallOrder<Impl>(history: seq<Added<Impl>>, fun: Fn, k: nat)
    requires k < |history| && history[k].1 == fun
    ensures var j := |AddedFor(history[..k], fun)|;
            j < |AddedFor(history, fun)| && AddedFor(history, fun)[j] == (history[k].0, history[k].2)
    decreases |history|
  {
    var prefix := history[..|history| - 1];
    if k == |history| - 1 {
      assert history[..k] == prefix;
    } else {
      assert prefix[..k] == history[..k];
      AddedForIsInCallOrder(prefix, fun, k);
      AddedForGrows(prefix, history, fun);
    }
  }

  /** The pairs of a prefix of the history are a prefix of the pairs of the whole history. */
  lemma {:induction false} AddedForGrows<Impl>(prefix: seq<Added<Impl>>, history: seq<Added<Impl>>, fun: Fn)
    requires prefix <= history
    ensures AddedFor(prefix, fun) <= AddedFor(history, fun)
    decreases |history|
  {
    if |prefix| < |history| {
      var front := history[..|history| - 1];
      assert prefix <= front;
      AddedForGrows(prefix, front, fun);
    } else {
      assert prefix == history;
    }
  }

  /** Every pair for `fun` comes from a call that named `fun`. */
  lemma {:induction false} AddedForFromCalls<Impl>(history: seq<Added<Impl>>, fun: Fn, j: nat)
    requires j < |AddedFor(history, fun)|
    ensures exists k :: 0 <= k < |history| && history[k] == (AddedFor(history, fun)[j].0, fun, AddedFor(history, fun)[j].1)
    decreases |history|
  {
    var front := history[..|history| - 1];
    var last := history[|history| - 1];
    if j < |AddedFor(front, fun)| {
      AddedForFromCalls(front, fun, j);
      var k :| 0 <= k < |front| && front[k] == (AddedFor(front, fun)[j].0, fun, AddedFor(front, fun)[j].1);
      assert history[k] == front[k];
    } else {
      assert history[|history| - 1] == last;
    }
  }

  /** Some pair was added for `fun` exactly when some call named `fun`. */
  lemma {:induction false} AddedForNonEmpty<Impl>(history: seq<Added<Impl>>, fun: Fn)
    ensures AddedFor(history, fun) != [] <==> exists k :: 0 <= k < |history| && history[k].1 == fun
  {
    if AddedFor(history, fun) != [] {
      AddedForFromCalls(history, fun, 0);
    }
    if exists k :: 0 <= k < |history| && history[k].1 == fun {
      var k :| 0 <= k < |history| && history[k].1 == fun;
      AddedForIsInCallOrder(history, fun, k);
    }
  }

  /** The first pair for `fun` comes from the earliest call that named `fun`. */
  lemma FirstAddedIsEarliest<Impl>(history: seq<Added<Impl>>, fun: Fn, k: nat)
    requires k < |history| && history[k].1 == fun
    requires forall m :: 0 <= m < k ==> history[m].1 != fun
    ensures AddedFor(history, fun) != [] && AddedFor(history, fun)[0] == (history[k].0, history[k].2)
  {
    AddedForIsInCallOrder(history, fun, k);
    AddedForNonEmpty(history[..k], fun);
  }

  /** `LastAdded` finds a field exactly when some `add_var` named `v`, and it is the last one. */
  lemma {:induction false} LastAddedIsLatest<Field>(history: seq<(Var, Field)>, v: Var)
    ensures LastAdded(history, v).Some? <==> exists k :: 0 <= k < |history| && history[k].0 == v
    ensures LastAdded(history, v).Some? ==>
              exists k :: 0 <= k < |history| && history[k] == (v, LastAdded(history, v).value)
                && forall m :: k < m < |history| ==> history[m].0 != v
    decreases |history|
  {
    if history != [] {
      var front := history[..|history| - 1];
      var n := |history| - 1;
      if history[n].0 != v {
        LastAddedIsLatest(front, v);
        if LastAdded(history, v).Some? {
          var k :| 0 <= k < |front| && front[k] == (v, LastAdded(front, v).value)
                   && forall m :: k < m < |front| ==> front[m].0 != v;
          assert history[k] == front[k];
          assert forall m :: k < m < |history| ==> history[m].0 != v by {
            forall m | k < m < |history| ensures history[m].0 != v {
              if m < n {
                assert history[m] == front[m];
              }
            }
          }
        }
        if exists k :: 0 <= k < |history| && history[k].0 == v {
          var k :| 0 <= k < |history| && history[k].0 == v;
          assert front[k] == history[k];
        }
      }
    }
  }

  /**
   * `Register`: the functions table and the variables table. The ghost histories
   * record every `add` and `add_var` call; `Valid` ties the tables to them.
   */
  class Register<Impl, Field> {
    var functions: map<Fn, seq<(Class, Impl)>>
    var variables: map<Var, Field>
    ghost var added: seq<Added<Impl>>
    ghost var addedVars: seq<(Var, Field)>

    ghost predicate Valid()
      reads this
    {
      && (forall fun :: fun in functions <==> AddedFor(added, fun) != [])
      && (forall fun :: fun in functions ==> functions[fun] == AddedFor(added, fun))
      && (forall v :: v in variables <==> LastAdded(addedVars, v).Some?)
      && (forall v :: v in variables ==> variables[v] == LastAdded(addedVars, v).value)
    }

    /** `Register::default`: both tables empty. */
    constructor ()
      ensures Valid() && added == [] && addedVars == []
      ensures functions == map[] && variables == map[]
    {
      functions, variables := map[], map[];
      added, addedVars := [], [];
    }

    /** `add`: appends `(class, impl)` to the list of `fun`, creating the list when needed. */
    method Add(cls: Class, fun: Fn, impl: Impl)
      requires Valid()
      modifies this
      ensures Valid() && added == old(added) + [(cls, fun, impl)] && addedVars == old(addedVars)
      ensures functions == old(functions)[fun := (if fun in old(functions) then old(functions)[fun] else []) + [(cls, impl)]]
      ensures variables == old(variables)
    {
      var list := if fun in functions then functions[fun] else [];
      ghost var h := added + [(cls, fun, impl)];
      ghost var before := functions;
      functions := functions[fun := list + [(cls, impl)]];
      added := h;
      forall g | g != fun
        ensures (g in functions <==> AddedFor(h, g) != []) && (g in functions ==> functions[g] == AddedFor(h, g))
      {
        AddedForAppend(old(added), (cls, fun, impl), g);
        assert (g in functions <==> g in before) && (g in functions ==> functions[g] == before[g]);
      }
      AddedForAppend(old(added), (cls, fun, impl), fun);
    }

    /** `get`: the pairs added for `fun`, in insertion order; `fun` must have been added. */
    function Get(fun: Fn): (r: seq<(Class, Impl)>)
      reads this
      requires Valid() && fun in functions
      ensures r == AddedFor(added, fun) && r != []
    {
      functions[fun]
    }

    /** `get_first_impl`: the implementation of the first pair added for `fun`. */
    function GetFirstImpl(fun: Fn): (r: Impl)
      reads this
      requires Valid() && fun in functions
      ensures r == AddedFor(added, fun)[0].1
    {
      Get(fun)[0].1
    }

    /** `functions`: every function name with an entry, in increasing order, each once. */
    method Functions() returns (names: seq<Fn>)
      requires Valid()
      ensures StrictlySorted(names)
      ensures forall fun :: fun in names <==> exists k :: 0 <= k < |added| && added[k].1 == fun
    {
      names := SortedKeys(functions.Keys);
      forall fun ensures fun in names <==> exists k :: 0 <= k < |added| && added[k].1 == fun {
        AddedForNonEmpty(added, fun);
      }
    }

    /** `add_var`: stores `field` for `v`, replacing any earlier field. */
    method AddVar(v: Var, field: Field)
      requires Valid()
      modifies this
      ensures Valid() && addedVars == old(addedVars) + [(v, field)] && added == old(added)
      ensures variables == old(variables)[v := field]
      ensures functions == old(functions)
    {
      variables := variables[v := field];
      ghost var h := addedVars + [(v, field)];
      assert h[..|h| - 1] == addedVars;
      addedVars := h;
    }

    /** `get_var`: the field added last for `v`; `v` must have been added. */
    function GetVar(v: Var): (r: Field)
      reads this
      requires Valid() && v in variables
      ensures LastAdded(addedVars, v) == Some(r)
    {
      variables[v]
    }
  }
}
