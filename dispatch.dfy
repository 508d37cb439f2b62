/*
 * The dispatch path stack of the generated code and the entry/`super_` protocol
 * built on it.
 *
 * Each generated class keeps its linearization reversed as `PATH`. Calling an
 * overridable function pushes a copy of `PATH` on the receiver's stack and runs
 * one `super_` step. Each `super_` step pops the next class off the top path and
 * runs that class's arm, or falls through to the next class when there is none.
 * When the call returns, the entry drops the top path.
 *
 * Method bodies are abstracted as `Body`: a constant, the next implementation
 * plus a constant, or a re-entrant call of an entry function plus a constant.
 */
module PathDispatch {
  import opened Identifiers
  import opened C3Lib
  import opened C3Registry
  import opened C3Linearization
  import opened ImplRegister

  /** What an implementation does: the three shapes the dispatch protocol distinguishes. */
  datatype Body =
    | Const(n: int)              // returns a value without further dispatch
    | AddToSuper(k: int)         // `self.super_f() + k`
    | AddToCall(fun: Fn, k: int) // `self.g() + k`: a fresh, re-entrant entry call

  /** How a call ends. A panic ends the program, and `OutOfFuel` bounds re-entrant calls. */
  datatype Outcome = Returned(value: int) | Panicked | OutOfFuel

  /** The outcome of `o` with `k` added to a returned value (`... + k`). */
  function Plus(o: Outcome, k: int): (r: Outcome)
    ensures r.Returned? <==> o.Returned?
    ensures r.Returned? ==> r.value == o.value + k
    ensures !o.Returned? ==> r == o
  {
    if o.Returned? then Returned(o.value + k) else o
  }

  function Reverse<T>(s: seq<T>): (r: seq<T>)
    ensures |r| == |s|
    ensures forall i :: 0 <= i < |s| ==> r[i] == s[|s| - 1 - i]
  {
    if s == [] then [] else Reverse(s[1..]) + [s[0]]
  }

  /** The top path of a stack. */
  function Top(st: seq<seq<Class>>): seq<Class>
    requires st != []
  {
    st[|st| - 1]
  }

  /** The length of the top path, or 0 on an empty stack: the measure of a chain walk. */
  function TopLength(st: seq<seq<Class>>): nat {
    if st == [] then 0 else |Top(st)|
  }

  /**
   * The arm that the generated `match` selects for `cls`: the first arm naming
   * `cls`, since a Rust `match` takes the first pattern that fits.
   */
  function FindArm(arms: seq<(Class, Body)>, cls: Class): (r: Option<Body>)
    ensures r.Some? <==> exists i :: 0 <= i < |arms| && arms[i].0 == cls
    ensures r.Some? ==> exists i :: 0 <= i < |arms| && arms[i] == (cls, r.value)
                          && forall j :: 0 <= j < i ==> arms[j].0 != cls
  {
    if arms == [] then None
    else if arms[0].0 == cls then Some(arms[0].1)
    else
      var r := FindArm(arms[1..], cls);
      if r.Some? then
        var i :| 0 <= i < |arms[1..]| && arms[1..][i] == (cls, r.value) && forall j :: 0 <= j < i ==> arms[1..][j].0 != cls;
        assert arms[i + 1] == (cls, r.value);
        r
      else
        r
  }

  /** The arms for `fun`, or none when the class generates no function `fun`. */
  function ArmsOf(arms: map<Fn, seq<(Class, Body)>>, fun: Fn): seq<(Class, Body)> {
    if fun in arms then arms[fun] else []
  }

  /** Every re-entrant call in the arms names a function the class generates. */
  ghost predicate WellFormed(arms: map<Fn, seq<(Class, Body)>>) {
    forall f, i :: f in arms && 0 <= i < |arms[f]| && arms[f][i].1.AddToCall? ==> arms[f][i].1.fun in arms
  }

  /**
   * The entry function `fun` of a class whose `PATH` is `path`, started on the
   * stack `st`: push `path`, run one `super_` step, then drop the top path. A
   * panic skips the drop, as unwinding does. The result is the outcome and the
   * final stack.
   */
  function EntrySpec(arms: map<Fn, seq<(Class, Body)>>, path: seq<Class>, fun: Fn, st: seq<seq<Class>>, fuel: nat): (Outcome, seq<seq<Class>>)
    decreases fuel, 1, 0
  {
    var (o, after) := SuperSpec(arms, path, fun, st + [path], fuel);
    if !o.Returned? then (o, after)
    else if after == [] then (Panicked, after)
    else (o, after[..|after| - 1])
  }

  /**
   * One `super_` step: pop the next class off the top path (a panic on an empty
   * stack or an empty top path) and run its arm; with no arm, take the next step.
   */
  function SuperSpec(arms: map<Fn, seq<(Class, Body)>>, path: seq<Class>, fun: Fn, st: seq<seq<Class>>, fuel: nat): (Outcome, seq<seq<Class>>)
    decreases fuel, 0, TopLength(st)
  {
    if st == [] || Top(st) == [] then (Panicked, st)
    else
      var top := Top(st);
      var cls := top[|top| - 1];
      var popped := st[..|st| - 1] + [top[..|top| - 1]];
      match FindArm(ArmsOf(arms, fun), cls)
      case None => SuperSpec(arms, path, fun, popped, fuel)
      case Some(Const(n)) => (Returned(n), popped)
      case Some(AddToSuper(k)) =>
        var (o, after) := SuperSpec(arms, path, fun, popped, fuel);
        (Plus(o, k), after)
      case Some(AddToCall(g, k)) =>
        if fuel == 0 then (OutOfFuel, popped)
        else
          var (o, after) := EntrySpec(arms, path, g, popped, fuel - 1);
          (Plus(o, k), after)
  }

  /** Popping the last class of a reversed linearization yields its first class and leaves the rest, reversed. */
  lemma ReversedPathPopsInOrder(lin: seq<Class>)
    requires lin != []
    ensures Reverse(lin)[|lin| - 1] == lin[0]
    ensures Reverse(lin)[..|lin| - 1] == Reverse(lin[1..])
  {
    var r := Reverse(lin);
    var rest := Reverse(lin[1..]);
    forall i | 0 <= i < |lin| - 1 ensures r[..|lin| - 1][i] == rest[i] {
      assert rest[i] == lin[1..][|lin| - 2 - i];
    }
  }

  /** With a reversed linearization on top, one pop takes its first class and leaves the rest reversed on top. */
  lemma PopReversed(st: seq<seq<Class>>, lin: seq<Class>)
    requires lin != []
    ensures var s := st + [Reverse(lin)];
            s != [] && Top(s) != [] && Top(s)[|Top(s)| - 1] == lin[0]
            && s[..|s| - 1] + [Top(s)[..|Top(s)| - 1]] == st + [Reverse(lin[1..])]
  {
    ReversedPathPopsInOrder(lin);
    var s := st + [Reverse(lin)];
    assert s[..|s| - 1] == st;
  }

  /**
   * A class without an arm is skipped: the `super_` step behaves, result and
   * final stack alike, as the step taken from the next class would.
   */
  lemma SuperSkipsClassWithoutArm(arms: map<Fn, seq<(Class, Body)>>, path: seq<Class>, fun: Fn, st: seq<seq<Class>>, lin: seq<Class>, fuel: nat)
    requires lin != [] && FindArm(ArmsOf(arms, fun), lin[0]).None?
    ensures SuperSpec(arms, path, fun, st + [Reverse(lin)], fuel) == SuperSpec(arms, path, fun, st + [Reverse(lin[1..])], fuel)
  {
    PopReversed(st, lin);
  }

  /** When no class of the linearization has an arm, the walk runs off its end and panics. */
  lemma {:induction false} NoImplementationPanics(arms: map<Fn, seq<(Class, Body)>>, path: seq<Class>, fun: Fn, st: seq<seq<Class>>, lin: seq<Class>, fuel: nat)
    requires forall c :: c in lin ==> FindArm(ArmsOf(arms, fun), c).None?
    ensures SuperSpec(arms, path, fun, st + [Reverse(lin)], fuel).0 == Panicked
    decreases |lin|
  {
    if lin != [] {
      SuperSkipsClassWithoutArm(arms, path, fun, st, lin, fuel);
      NoImplementationPanics(arms, path, fun, st, lin[1..], fuel);
    }
  }

  /**
   * A `super_` step that returns leaves the paths below the top untouched and
   * the top path a prefix of what it was: only classes were popped off it.
   */
  lemma {:induction false} SuperKeepsLowerStack(arms: map<Fn, seq<(Class, Body)>>, path: seq<Class>, fun: Fn, st: seq<seq<Class>>, fuel: nat)
    requires st != []
    ensures var (o, after) := SuperSpec(arms, path, fun, st, fuel);
            o.Returned? ==> |after| == |st| && after[..|st| - 1] == st[..|st| - 1] && Top(after) <= Top(st)
    decreases fuel, 0, TopLength(st)
  {
    if Top(st) != [] {
      var top := Top(st);
      var popped := st[..|st| - 1] + [top[..|top| - 1]];
      assert popped[..|st| - 1] == st[..|st| - 1] && Top(popped) <= top;
      match FindArm(ArmsOf(arms, fun), top[|top| - 1])
      case None => SuperKeepsLowerStack(arms, path, fun, popped, fuel);
      case Some(Const(n)) =>
      case Some(AddToSuper(k)) => SuperKeepsLowerStack(arms, path, fun, popped, fuel);
      case Some(AddToCall(g, k)) =>
        if fuel > 0 {
          EntryRestoresStack(arms, path, g, popped, fuel - 1);
        }
    }
  }

  /**
   * An entry call that returns leaves the stack exactly as it found it, so a
   * re-entrant call made from inside a `super_` step restores the outer path.
   */
  lemma {:induction false} EntryRestoresStack(arms: map<Fn, seq<(Class, Body)>>, path: seq<Class>, fun: Fn, st: seq<seq<Class>>, fuel: nat)
    ensures var (o, after) := EntrySpec(arms, path, fun, st, fuel);
            o.Returned? ==> after == st
    decreases fuel, 1, 0
  {
    SuperKeepsLowerStack(arms, path, fun, st + [path], fuel);
    assert (st + [path])[..|st|] == st;
  }

  /**
   * The dispatch chain of `fun` along a linearization: for each class of `lin`
   * in order, the implementation its arm gives, skipping classes without one.
   */
  function Chain(arms: seq<(Class, Body)>, lin: seq<Class>): (r: seq<(Class, Body)>)
    ensures forall i :: 0 <= i < |r| ==> r[i].0 in lin && FindArm(arms, r[i].0) == Some(r[i].1)
    ensures lin != [] && FindArm(arms, lin[0]).Some? ==> r != [] && r[0] == (lin[0], FindArm(arms, lin[0]).value)
  {
    if lin == [] then []
    else (if FindArm(arms, lin[0]).Some? then [(lin[0], FindArm(arms, lin[0]).value)] else []) + Chain(arms, lin[1..])
  }

  /** Every class of `lin` that has an arm appears in the chain. */
  lemma {:induction false} ChainHasEveryImplementer(arms: seq<(Class, Body)>, lin: seq<Class>, c: Class)
    requires c in lin && FindArm(arms, c).Some?
    ensures exists i :: 0 <= i < |Chain(arms, lin)| && Chain(arms, lin)[i] == (c, FindArm(arms, c).value)
  {
    var r := Chain(arms, lin);
    if c == lin[0] {
      assert r[0] == (c, FindArm(arms, c).value);
    } else {
      var rest := Chain(arms, lin[1..]);
      ChainHasEveryImplementer(arms, lin[1..], c);
      var i :| 0 <= i < |rest| && rest[i] == (c, FindArm(arms, c).value);
      assert r[|r| - |rest| + i] == rest[i];
    }
  }

  /** No implementation makes a re-entrant call. */
  predicate NoReentry(arms: seq<(Class, Body)>) {
    forall i :: 0 <= i < |arms| ==> !arms[i].1.AddToCall?
  }

  /**
   * The value of walking a dispatch chain without re-entrant calls: the first
   * implementation runs, each `super_` call runs the next one, and running off
   * the end of the chain panics.
   */
  function ChainValue(chain: seq<(Class, Body)>): Outcome
    requires NoReentry(chain)
  {
    if chain == [] then Panicked
    else
      match chain[0].1
      case Const(n) => Returned(n)
      case AddToSuper(k) => Plus(ChainValue(chain[1..]), k)
  }

  /** With the reversed linearization `lin` on top, a `super_` step walks the dispatch chain of `lin`. */
  lemma {:induction false} SuperFollowsChain(arms: map<Fn, seq<(Class, Body)>>, path: seq<Class>, fun: Fn, st: seq<seq<Class>>, lin: seq<Class>, fuel: nat)
    requires NoReentry(ArmsOf(arms, fun))
    ensures NoReentry(Chain(ArmsOf(arms, fun), lin))
    ensures SuperSpec(arms, path, fun, st + [Reverse(lin)], fuel).0 == ChainValue(Chain(ArmsOf(arms, fun), lin))
    decreases |lin|
  {
    var fa := ArmsOf(arms, fun);
    var chain := Chain(fa, lin);
    forall i | 0 <= i < |chain| ensures !chain[i].1.AddToCall? {
      var j :| 0 <= j < |fa| && fa[j] == (chain[i].0, chain[i].1);
    }
    if lin != [] {
      var s := st + [Reverse(lin)];
      var popped := st + [Reverse(lin[1..])];
      PopReversed(st, lin);
      SuperFollowsChain(arms, path, fun, st, lin[1..], fuel);
      var arm := FindArm(fa, lin[0]);
      if arm.Some? {
        var j :| 0 <= j < |fa| && fa[j] == (lin[0], arm.value);
        assert chain[1..] == Chain(fa, lin[1..]);
        match arm.value
        case Const(n) =>
          assert SuperSpec(arms, path, fun, s, fuel) == (Returned(n), popped);
        case AddToSuper(k) =>
          assert SuperSpec(arms, path, fun, s, fuel).0 == Plus(SuperSpec(arms, path, fun, popped, fuel).0, k);
      } else {
        assert chain == Chain(fa, lin[1..]);
        assert SuperSpec(arms, path, fun, s, fuel) == SuperSpec(arms, path, fun, popped, fuel);
      }
    }
  }

  /**
   * An entry call on a class whose `PATH` is its linearization `lin` reversed
   * returns what walking the dispatch chain of `lin` gives, most-derived first.
   */
  lemma EntryFollowsChain(arms: map<Fn, seq<(Class, Body)>>, lin: seq<Class>, fun: Fn, st: seq<seq<Class>>, fuel: nat)
    requires NoReentry(ArmsOf(arms, fun))
    ensures NoReentry(Chain(ArmsOf(arms, fun), lin))
    ensures EntrySpec(arms, Reverse(lin), fun, st, fuel).0 == ChainValue(Chain(ArmsOf(arms, fun), lin))
  {
    SuperFollowsChain(arms, Reverse(lin), fun, st, lin, fuel);
    SuperKeepsLowerStack(arms, Reverse(lin), fun, st + [Reverse(lin)], fuel);
  }

  /** The generated `PathStack`: a stack of class paths, the last path on top. */
  class PathStack {
    var stack: seq<seq<Class>>

    /** `PathStack::new`: an empty stack. */
    constructor ()
      ensures stack == []
    {
      stack := [];
    }

    /** `push_path_on_stack`: a copy of `path` becomes the new top; the paths below are kept. */
    method PushPathOnStack(path: seq<Class>)
      modifies this
      ensures stack == old(stack) + [path]
    {
      stack := stack + [path];
    }

    /** `drop_one_from_stack`: removes the top path; on an empty stack the `unwrap` panics (`ok` is false). */
    method DropOneFromStack() returns (ok: bool)
      modifies this
      ensures ok <==> old(stack) != []
      ensures ok ==> stack == old(stack)[..|old(stack)| - 1]
      ensures !ok ==> stack == old(stack)
    {
      if stack == [] {
        return false;
      }
      stack := stack[..|stack| - 1];
      return true;
    }

    /**
     * `pop_from_top_path`: removes and returns the last class of the top path,
     * leaving the shortened path on top. It panics (`None`) on an empty stack or
     * an empty top path.
     */
    method PopFromTopPath() returns (cls: Option<Class>)
      modifies this
      ensures cls.Some? <==> old(stack) != [] && Top(old(stack)) != []
      ensures cls.Some? ==> var top := Top(old(stack));
                cls.value == top[|top| - 1] && stack == old(stack)[..|old(stack)| - 1] + [top[..|top| - 1]]
      ensures cls.None? ==> stack == old(stack)
    {
      if stack == [] || Top(stack) == [] {
        return None;
      }
      var top := Top(stack);
      var last := top[|top| - 1];
      stack := stack[..|stack| - 1] + [top[..|top| - 1]];
      return Some(last);
    }
  }

  /**
   * An instance of a generated class: its `PATH`, the arms of each of its
   * functions (for `f`, the (class, implementation) pairs registered for `f`),
   * and its own path stack `__stack`.
   */
  class Receiver {
    const path: seq<Class>
    const arms: map<Fn, seq<(Class, Body)>>
    const stack: PathStack

    /** A fresh instance, with an empty stack (`PathStack::default`). */
    constructor (path: seq<Class>, arms: map<Fn, seq<(Class, Body)>>)
      requires WellFormed(arms)
      ensures this.path == path && this.arms == arms && WellFormed(this.arms)
      ensures fresh(stack) && stack.stack == []
    {
      this.path := path;
      this.arms := arms;
      stack := new PathStack();
    }

    /** The entry function `fun`: push `PATH`, one `super_` step, drop. */
    method Call(fun: Fn, fuel: nat) returns (o: Outcome)
      requires WellFormed(arms) && fun in arms
      modifies stack
      ensures (o, stack.stack) == EntrySpec(arms, path, fun, old(stack.stack), fuel)
      decreases fuel, 1, 0
    {
      stack.PushPathOnStack(path);
      o := Super(fun, fuel);
      if !o.Returned? {
        return;
      }
      var ok := stack.DropOneFromStack();
      if !ok {
        o := Panicked;
      }
    }

    /** `super_fun`: pop the next class and run its arm, or fall through to the next class. */
    method Super(fun: Fn, fuel: nat) returns (o: Outcome)
      requires WellFormed(arms) && fun in arms
      modifies stack
      ensures (o, stack.stack) == SuperSpec(arms, path, fun, old(stack.stack), fuel)
      decreases fuel, 0, TopLength(stack.stack)
    {
      var cls := stack.PopFromTopPath();
      if cls.None? {
        return Panicked;
      }
      var arm := FindArm(arms[fun], cls.value);
      match arm
      case None =>
        o := Super(fun, fuel);
      case Some(Const(n)) =>
        o := Returned(n);
      case Some(AddToSuper(k)) =>
        o := Super(fun, fuel);
        o := Plus(o, k);
      case Some(AddToCall(g, k)) =>
        if fuel == 0 {
          return OutOfFuel;
        }
        var i :| 0 <= i < |arms[fun]| && arms[fun][i] == (cls.value, arm.value);
        assert g in arms;
        o := Call(g, fuel - 1);
        o := Plus(o, k);
    }
  }

  /** The arms of `get` in the inheritance test: `a` returns 10, `b` and `c` add 1 to the next implementation. */
  function InheritanceArms(a: Class, b: Class, c: Class): seq<(Class, Body)> {
    [(a, Const(10)), (b, AddToSuper(1)), (c, AddToSuper(1))]
  }

  /** The arm each class of the inheritance test has for `get`. */
  lemma InheritanceArmsFound(a: Class, b: Class, c: Class)
    requires Distinct([a, b, c])
    ensures NoReentry(InheritanceArms(a, b, c))
    ensures FindArm(InheritanceArms(a, b, c), a) == Some(Const(10))
    ensures FindArm(InheritanceArms(a, b, c), b) == Some(AddToSuper(1))
    ensures FindArm(InheritanceArms(a, b, c), c) == Some(AddToSuper(1))
  {
    var names := [a, b, c];
    assert names[0] == a && names[1] == b && names[2] == c;
    var arms := InheritanceArms(a, b, c);
    assert arms[1..] == [(b, AddToSuper(1)), (c, AddToSuper(1))];
    assert arms[1..][1..] == [(c, AddToSuper(1))] && arms[1..][1..][1..] == [];
    assert FindArm(arms[1..][1..], c) == Some(AddToSuper(1));
  }

  /** `get` on `a` runs `a`'s implementation alone: 10. */
  lemma InheritanceChainOfA(a: Class, b: Class, c: Class)
    requires Distinct([a, b, c])
    ensures NoReentry(Chain(InheritanceArms(a, b, c), [a]))
    ensures ChainValue(Chain(InheritanceArms(a, b, c), [a])) == Returned(10)
  {
    InheritanceArmsFound(a, b, c);
    assert [a][1..] == [];
    assert Chain(InheritanceArms(a, b, c), [a]) == [(a, Const(10))];
  }

  /** `get` on `b` runs `b`'s implementation, then `a`'s: 11. */
  lemma InheritanceChainOfB(a: Class, b: Class, c: Class)
    requires Distinct([a, b, c])
    ensures NoReentry(Chain(InheritanceArms(a, b, c), [b, a]))
    ensures ChainValue(Chain(InheritanceArms(a, b, c), [b, a])) == Returned(11)
  {
    var arms := InheritanceArms(a, b, c);
    InheritanceChainOfA(a, b, c);
    InheritanceArmsFound(a, b, c);
    assert [b, a][1..] == [a];
    assert Chain(arms, [b, a]) == [(b, AddToSuper(1))] + Chain(arms, [a]);
  }

  /** `get` on `c` runs `c`'s implementation, then `b`'s, then `a`'s: 12. */
  lemma InheritanceChainOfC(a: Class, b: Class, c: Class)
    requires Distinct([a, b, c])
    ensures NoReentry(Chain(InheritanceArms(a, b, c), [c, b, a]))
    ensures ChainValue(Chain(InheritanceArms(a, b, c), [c, b, a])) == Returned(12)
  {
    var arms := InheritanceArms(a, b, c);
    InheritanceChainOfB(a, b, c);
    InheritanceArmsFound(a, b, c);
    assert [c, b, a][1..] == [b, a];
    assert Chain(arms, [c, b, a]) == [(c, AddToSuper(1))] + Chain(arms, [b, a]);
  }

  /** The function table of the inheritance test: the one function `get` and its arms. */
  function InheritanceTable(a: Class, b: Class, c: Class): map<Fn, seq<(Class, Body)>> {
    map["get" := InheritanceArms(a, b, c)]
  }

  /** An entry call of `get` on each class of the chain, its `PATH` the reversed linearization. */
  lemma InheritanceEntries(a: Class, b: Class, c: Class)
    requires Distinct([a, b, c])
    ensures WellFormed(InheritanceTable(a, b, c))
    ensures EntrySpec(InheritanceTable(a, b, c), Reverse([a]), "get", [], 0).0 == Returned(10)
    ensures EntrySpec(InheritanceTable(a, b, c), Reverse([b, a]), "get", [], 0).0 == Returned(11)
    ensures EntrySpec(InheritanceTable(a, b, c), Reverse([c, b, a]), "get", [], 0).0 == Returned(12)
  {
    var table := InheritanceTable(a, b, c);
    InheritanceArmsFound(a, b, c);
    assert ArmsOf(table, "get") == InheritanceArms(a, b, c);
    InheritanceChainOfA(a, b, c);
    EntryFollowsChain(table, [a], "get", [], 0);
    InheritanceChainOfB(a, b, c);
    EntryFollowsChain(table, [b, a], "get", [], 0);
    InheritanceChainOfC(a, b, c);
    EntryFollowsChain(table, [c, b, a], "get", [], 0);
  }

  /** The register of the inheritance test: the implementations of `get`, added in declaration order. */
  method InheritanceRegister(a: Class, b: Class, c: Class) returns (table: map<Fn, seq<(Class, Body)>>)
    ensures table == InheritanceTable(a, b, c)
  {
    var register := new Register<Body, ()>();
    register.Add(a, "get", Const(10));
    register.Add(b, "get", AddToSuper(1));
    register.Add(c, "get", AddToSuper(1));
    assert register.functions["get"] == InheritanceArms(a, b, c);
    table := map["get" := register.Get("get")];
  }

  /**
   * The inheritance test end to end, for any three distinct class names: declare
   * `a`, `b(a)` and `c(b)`, linearize them, register the three implementations of
   * `get`, and call `get` on fresh instances of `a`, `b` and `c`: 10, 11 and 12.
   */
  method InheritanceExample(a: Class, b: Class, c: Class) returns (ra: Outcome, rb: Outcome, rc: Outcome)
    requires Distinct([a, b, c])
    requires PlainName(a) && PlainName(b)
    ensures ra == Returned(10) && rb == Returned(11) && rc == Returned(12)
  {
    var linearized := ChainExample(a, b, c);
    var paths := linearized.value.classes;
    var names := [a, b, c];
    assert names[0] == a && names[1] == b && names[2] == c;
    assert paths[a] == [a] && paths[b] == [b, a] && paths[c] == [c, b, a];
    var table := InheritanceRegister(a, b, c);
    InheritanceEntries(a, b, c);
    var instanceA := new Receiver(Reverse(paths[a]), table);
    ra := instanceA.Call("get", 0);
    var instanceB := new Receiver(Reverse(paths[b]), table);
    rb := instanceB.Call("get", 0);
    var instanceC := new Receiver(Reverse(paths[c]), table);
    rc := instanceC.Call("get", 0);
  }
}
