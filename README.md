# c3-lang in Dafny: C3 linearization, class registry, implementation register and path-stack dispatch

c3-lang lets Rust code declare classes with multiple inheritance. A procedural
macro orders each class's ancestors with the C3 linearization, the monotonic
superclass linearization behind Python's method-resolution order. It then
generates code that dispatches every overridable function along that order,
most-derived class first, with `super_` calls moving on to the next class.

This project models that core and proves what it promises.

| module (file) | models |
|---|---|
| `Identifiers` (ids.dfy) | class, function and variable names as strings with the derived lexicographic order; `Vec::sort`, `Vec::dedup`, and the sorted key list of a map |
| `C3Lib` (lib.dfy) | the error type `C3Error`; `split_coma`, `in_tail`, `is_subset` |
| `C3Sets` (sets.dfy) | `Sets<T>`, the lists the merge works on: `push`, `is_empty`, `candidates`, `is_solution`, `remove_solution`, `find_solution` as a class over `seq<seq<T>>`, each proved against a specification function of the lists |
| `C3Registry` (c3.dfy) | the `C3` registry as a class with three map fields (class to path or parents, class to functions, class to variables): `add`, `remove`, `path`, `all_classes`, `sets_for`, `register_fn(s)`, `register_var(s)`, `functions`, `variables` |
| `C3Linearization` (c3_linearization.dfy) | `merge` (a loop over `find_solution`) and the round-by-round driver `c3_linearization`, with a declarative statement of what the driver returns; the diamond test, the single-inheritance chain and the two merge tests |
| `ImplRegister` (register.dfy) | the code generator's `Register`: function name to the (class, implementation) pairs in the order they were added, and variable to the last field added |
| `PathDispatch` (dispatch.dfy) | the generated `PathStack` and the entry / `super_` protocol of each generated function, on a receiver whose `PATH` is its linearization reversed; the end-to-end inheritance test (10, 11, 12) |

Main results:

- A successful merge has these properties (`MergeSpecIsLinearization`):
  - the class itself comes first;
  - every element of the merged lists then appears exactly once;
  - the order of every list is kept.
- The merge fails in one way only, with `NoMoreCandidates`, the error of a merge step whose heads all stand in some tail (`MergeFailsOnlyWhenStuck`, `FirstSolutionIsFirst`).
- One merge step takes the first head, in list order, that is in no tail. Removing it strictly shrinks the lists, so the merge terminates (`FirstSolutionIsFirst`, `RemovedSpec`, `FirstSolutionShrinks`).
- `c3_linearization` returns a registry with these properties (`Linearize`, `Resolves`):
  - every class it holds is declared, and its parents were resolved;
  - its path is the merge of its parents' paths followed by the parent list;
  - every declared class it leaves out waits on a parent that is unresolved or undeclared.
- At most one registry satisfies this for any declarations, so the result of `c3_linearization` is determined by them (`ResolvesUnique`). The reason is that a parent's path is strictly shorter than its child's (`ParentPathShorter`).
- The only output satisfying this for the diamond is the expected one (`DiamondResolves`). The same holds for a chain `a <- b <- c` (`ChainResolves`). The driver cannot fail on either (`DiamondExample`, `ChainExample`).
- An entry call that returns leaves the path stack as it found it (`EntryRestoresStack`). So a re-entrant call made inside a `super_` step restores the outer path.
- With the reversed linearization on top, a `super_` step walks the dispatch chain along the linearization, most-derived first. A class without an arm is skipped (`SuperFollowsChain`, `SuperSkipsClassWithoutArm`).

Method bodies in the dispatch model are abstracted as `Body`:

- a constant;
- the next implementation plus a constant (`self.super_f() + k`);
- a re-entrant entry call plus a constant.

The dispatch functions carry a `fuel` bound on re-entrant calls, because the generated code has none.

Three behaviours of the code worth knowing:

- A round of `c3_linearization` that resolves nothing ends the loop with `Ok`, and the classes left unresolved are simply absent from the result (c3-lang-linearization/src/c3_linearization.rs:21-25).
- The only error `c3_linearization` can return is `NoMoreCandidates`, from a merge that gets stuck (`merge(&base, sets)?`, c3-lang-linearization/src/c3_linearization.rs:15); the lookups around it cannot fail, because the class comes from the registry and its parents are already resolved.
- The arms of a generated `match` are every (class, implementation) pair registered for the function, in insertion order, not filtered or ordered by the path (c3-lang-parser/src/c3_ast_builder.rs:103-113). The class popped off the path selects its arm; when a class has two arms, the first one wins (c3-lang-parser/src/c3_ast_printer.rs:85-92).

## Model

| member | source | states |
|---|---|---|
| Identifiers.LessIrreflexive | c3-lang-linearization/src/id.rs:3-6 | the derived order never puts a name before itself |
| Identifiers.LessTransitive | c3-lang-linearization/src/id.rs:3-6 | the derived order is transitive |
| Identifiers.LessTotal | c3-lang-linearization/src/id.rs:3-6 | any two distinct names are ordered one way or the other |
| Identifiers.Insert | c3-lang-linearization/src/c3.rs:112 | inserting into a sorted list keeps it sorted and adds exactly that element (multiset) |
| Identifiers.Sort | c3-lang-linearization/src/c3.rs:112 | `sort` yields a sorted permutation of its input |
| Identifiers.Dedup | c3-lang-linearization/src/c3.rs:113 | `dedup` keeps the same elements and the first one, and leaves no two equal neighbours |
| Identifiers.DedupSortedIsStrict | c3-lang-linearization/src/c3.rs:112-113 | deduplicating a sorted list gives a strictly increasing one |
| Identifiers.SortDedup | c3-lang-linearization/src/c3.rs:112-113 | sort then dedup: strictly increasing, with exactly the input's elements |
| Identifiers.SortedKeys | c3-lang-linearization/src/c3.rs:50-52 | the collected and sorted keys are strictly increasing and are exactly the map's keys |
| Identifiers.SortKeepsDistinct | c3-lang-linearization/src/c3.rs:50-51 | sorting keys that have no repeats yields no repeats |
| Identifiers.StrictlySortedUnique | c3-lang-linearization/src/c3.rs:49-53 | two strictly increasing lists with the same elements are equal, so the sorted enumeration of a key set does not depend on hash order |
| C3Lib.Split | c3-lang-linearization/src/lib.rs:21 | `str::split(", ")` always yields at least one piece |
| C3Lib.DropEmpty | c3-lang-linearization/src/lib.rs:23 | the filter keeps only non-empty pieces, each taken from the input, and keeps every non-empty piece of the input; a single piece is kept iff it is non-empty |
| C3Lib.DropEmptyAppend | c3-lang-linearization/src/lib.rs:23 | the filter distributes over concatenation; with the single-piece case this fixes its result exactly, repeated pieces included |
| C3Lib.DropEmptyKeepsOrder | c3-lang-linearization/src/lib.rs:23 | two non-empty pieces keep their relative order after the filter |
| C3Lib.DropEmptyCount | c3-lang-linearization/src/lib.rs:23 | the filter drops exactly the empty pieces: kept plus empty pieces is the input's length |
| C3Lib.SplitComa | c3-lang-linearization/src/lib.rs:20-25 | `split_coma` never returns an empty name |
| C3Lib.JoinSplit | c3-lang-linearization/src/lib.rs:21 | gluing the pieces back with ", " gives the original string |
| C3Lib.SplitJoin | c3-lang-linearization/src/lib.rs:21 | splitting joined pieces that contain no separator gives the pieces back |
| C3Lib.SplitComaJoin | c3-lang-linearization/src/lib.rs:20-25 | `split_coma` inverts writing a list of non-empty, separator-free names as "B, C" |
| C3Lib.SplitComaExamples | c3-lang-linearization/src/c3_linearization.rs:46-49 | `split_coma("")` is `[]`, `split_coma("B, C")` is `["B", "C"]`, and an empty piece in the middle or at the end is dropped |
| C3Lib.InTail | c3-lang-linearization/src/lib.rs:28-33 | an empty list is an `EmptySet` error, and only an empty list is; otherwise true iff the element occurs at an index of at least 1 |
| C3Lib.IsSubset | c3-lang-linearization/src/lib.rs:36-38 | true iff every element of `smaller` occurs in `larger`, whatever the order and multiplicity; true for an empty `smaller` |
| C3Sets.Heads | c3-lang-linearization/src/sets.rs:36-42 | one head per list, in list order |
| C3Sets.InSomeTailAt | c3-lang-linearization/src/sets.rs:44-51 | "in some tail" means found at a position other than the first in some list |
| C3Sets.FirstSolutionAmongIsFirst | c3-lang-linearization/src/sets.rs:27-33 | the scan over candidates fails iff every candidate is in some tail; otherwise it returns the first that is in none |
| C3Sets.FirstSolutionIsFirst | c3-lang-linearization/src/sets.rs:26-33 | the merge step fails iff every head is in some tail; otherwise it takes the head of the first list whose head is in no tail |
| C3Sets.FirstSolutionAt | c3-lang-linearization/src/sets.rs:27-30 | a head in no tail, with every earlier head in some tail, is the one chosen |
| C3Sets.FirstSolutionNotInTail | c3-lang-linearization/src/sets.rs:28-30 | the element chosen stands in no tail |
| C3Sets.Without | c3-lang-linearization/src/sets.rs:55 | `retain(x != solution)` keeps only elements other than the solution, keeps each of them, and shortens a list that held the solution; a single element is kept iff it is not the solution |
| C3Sets.WithoutAppend | c3-lang-linearization/src/sets.rs:55 | `retain` distributes over concatenation; with the single-element case this fixes its result exactly, repeated elements included |
| C3Sets.WithoutCount | c3-lang-linearization/src/sets.rs:55 | `retain` deletes exactly the copies of the solution: kept plus deleted copies is the list's length |
| C3Sets.WithoutKeepsOrder | c3-lang-linearization/src/sets.rs:55 | the kept elements keep their relative order |
| C3Sets.WithoutAbsent | c3-lang-linearization/src/sets.rs:55 | removing an absent element changes nothing |
| C3Sets.MapWithout | c3-lang-linearization/src/sets.rs:54-56 | every list, same count, with the solution removed |
| C3Sets.RetainNonEmpty | c3-lang-linearization/src/sets.rs:57 | the non-empty lists are kept, the empty ones dropped, and the total size is unchanged; a single list is kept iff it is non-empty |
| C3Sets.RetainNonEmptyAppend | c3-lang-linearization/src/sets.rs:57 | `retain` distributes over concatenation; with the single-list case this fixes its result exactly, repeated lists included |
| C3Sets.RetainNonEmptyKeepsOrder | c3-lang-linearization/src/sets.rs:57 | `retain` keeps the order: two non-empty lists keep their relative order |
| C3Sets.RetainNonEmptyCount | c3-lang-linearization/src/sets.rs:57 | `retain` drops exactly the empty lists: kept plus empty lists is the input's length |
| C3Sets.RemovedSolutionDropsHeads | c3-lang-linearization/src/sets.rs:53-58 | removing an element that is in no tail only drops it from the heads, along with the lists this empties |
| C3Sets.RemovedSpec | c3-lang-linearization/src/sets.rs:53-58 | after removal no list is empty; the solution occurs nowhere; every other element still occurs; the total size shrinks when the solution was present |
| C3Sets.FirstSolutionShrinks | c3-lang-linearization/src/sets.rs:26-30 | a successful merge step keeps the lists non-empty and strictly shrinks their total size, which is the merge's termination measure |
| C3Sets.Sets.constructor | c3-lang-linearization/src/sets.rs:9-11 | no lists, invariant established |
| C3Sets.Sets.Push | c3-lang-linearization/src/sets.rs:13-20 | an empty list is refused with `PushingEmptySet` and nothing changes; otherwise it is appended; the no-empty-list invariant is kept |
| C3Sets.Sets.IsEmpty | c3-lang-linearization/src/sets.rs:22-24 | true iff no list is stored |
| C3Sets.Sets.Candidates | c3-lang-linearization/src/sets.rs:36-42 | exactly the heads, in list order |
| C3Sets.Sets.IsSolution | c3-lang-linearization/src/sets.rs:44-51 | true iff the candidate is in no tail; never the `EmptySet` error under the invariant |
| C3Sets.Sets.RemoveSolution | c3-lang-linearization/src/sets.rs:53-58 | the new lists are the old ones with the solution removed and the emptied lists dropped; invariant kept |
| C3Sets.Sets.FindSolution | c3-lang-linearization/src/sets.rs:26-34 | returns the first head in no tail and removes it everywhere; if every head is in some tail, fails with `NoMoreCandidates` and changes nothing |
| C3Registry.ParentPathsSpec | c3-lang-linearization/src/c3.rs:79-84 | fails with the first unknown parent; otherwise the non-empty parent paths, each from some parent, none missing |
| C3Registry.SetsForSpecIsMergeInput | c3-lang-linearization/src/c3.rs:77-89 | `sets_for` fails iff some parent is unknown, naming the first one; on success no list is empty, every non-empty parent path is there, the parent list comes last when non-empty, and nothing else is |
| C3Registry.SetsForSpecNoEmpty | c3-lang-linearization/src/c3.rs:81-87 | `sets_for` never pushes an empty list |
| C3Registry.PathsOfParents | c3-lang-linearization/src/c3.rs:79-80 | one registered path per parent, in the parents' order |
| C3Registry.SetsForSpecInParentOrder | c3-lang-linearization/src/c3.rs:77-89 | with every parent registered, `sets_for` is exactly the parents' paths in parent order with the empty ones filtered out, followed by the parent list when non-empty |
| C3Registry.SetsForSpecParentOrder | c3-lang-linearization/src/c3.rs:79-84 | the non-empty paths of two parents appear in `sets_for` in the order the parents are declared |
| C3Registry.SetsForSpecCount | c3-lang-linearization/src/c3.rs:79-87 | `sets_for` holds one list per parent with a non-empty path, plus one for the parent list when it is non-empty |
| C3Registry.ParentPathsKnown | c3-lang-linearization/src/c3.rs:79-84 | `sets_for` succeeds when every parent is registered |
| C3Registry.ParentPathsAgree | c3-lang-linearization/src/c3.rs:79-84 | `sets_for` reads only the parents' entries |
| C3Registry.VisibleAlong | c3-lang-linearization/src/c3.rs:106-114 | the entries of the classes on a path, gathered, sorted and deduplicated: strictly increasing, exactly those entries |
| C3Registry.C3.constructor | c3-lang-linearization/src/c3.rs:21-27 | all three tables empty |
| C3Registry.C3.Add | c3-lang-linearization/src/c3.rs:30-32 | inserts or overwrites the list of `base`; all other entries and tables unchanged |
| C3Registry.C3.AddClassStr | c3-lang-linearization/src/c3.rs:35-38 | `add` with the list `split_coma(parents)` |
| C3Registry.C3.Remove | c3-lang-linearization/src/c3.rs:41-46 | deletes exactly `base`; an absent class is `BaseClassDoesNotExists(base)` and nothing changes |
| C3Registry.C3.AllClasses | c3-lang-linearization/src/c3.rs:49-53 | strictly increasing, exactly the registered classes |
| C3Registry.C3.IsEmpty | c3-lang-linearization/src/c3.rs:64-66 | true iff no class is registered |
| C3Registry.C3.Path | c3-lang-linearization/src/c3.rs:69-74 | the stored list iff registered, else `BaseClassDoesNotExists(base)` |
| C3Registry.C3.SetsFor | c3-lang-linearization/src/c3.rs:77-89 | a fresh valid `Sets` holding the merge input, or the first unknown parent's error |
| C3Registry.C3.RegisterFn | c3-lang-linearization/src/c3.rs:91-93 | appends `fun` to the class's list, creating it if missing; repeats kept; nothing else changes |
| C3Registry.C3.RegisterFns | c3-lang-linearization/src/c3.rs:95-99 | the class's list extended by `funs` in order |
| C3Registry.C3.RegisterFnStr | c3-lang-linearization/src/c3.rs:101-103 | as `register_fn` |
| C3Registry.C3.Functions | c3-lang-linearization/src/c3.rs:105-115 | for a registered class: strictly increasing, exactly the functions registered on some class of its path |
| C3Registry.C3.RegisterVar | c3-lang-linearization/src/c3.rs:124-126 | appends `var` to the class's list; repeats kept; nothing else changes |
| C3Registry.C3.RegisterVars | c3-lang-linearization/src/c3.rs:128-132 | the class's list extended by `vars` in order |
| C3Registry.C3.RegisterVarStr | c3-lang-linearization/src/c3.rs:134-136 | as `register_var` |
| C3Registry.C3.Variables | c3-lang-linearization/src/c3.rs:138-148 | for a registered class: strictly increasing, exactly the variables registered on some class of its path |
| C3Registry.SplitComaOfNames | c3-lang-linearization/src/c3.rs:165-167 | the registry test's parent lists split as written |
| C3Registry.BuildExampleRegistry | c3-lang-linearization/src/c3.rs:164-178 | the registry test's calls build exactly the expected three tables |
| C3Registry.RegisterExampleContributions | c3-lang-linearization/src/c3.rs:171-178 | the test's `register_fn_str` and `register_var_str` calls give the expected contribution tables |
| C3Registry.ExampleOrder | c3-lang-linearization/src/c3.rs:169-180 | the expected views are strictly increasing |
| C3Registry.ExampleView | c3-lang-linearization/src/c3.rs:174-180 | any strictly increasing list of exactly the names on the path equals the expected view |
| C3Registry.RegistryExample | c3-lang-linearization/src/c3.rs:163-181 | the registry test: classes `[A, B, K1]`, functions of A and B `[bar, foo]`, variables `[x]` and `[x, y]` |
| C3Linearization.Merge | c3-lang-linearization/src/c3_linearization.rs:28-37 | the loop returns exactly the merge specification of the initial lists: `base`, then each merge step's solution, or the first failure |
| C3Linearization.MergeFailsOnlyWhenStuck | c3-lang-linearization/src/c3_linearization.rs:34 | a failing merge fails with `NoMoreCandidates`, never with another error |
| C3Linearization.MergeStep | c3-lang-linearization/src/c3_linearization.rs:34-35 | a successful merge starts with the first head in no tail and continues with the merge of what is left |
| C3Linearization.MergeElements | c3-lang-linearization/src/c3_linearization.rs:28-37 | a successful merge lists exactly the elements of the lists, each once |
| C3Linearization.MergeKeepsOrder | c3-lang-linearization/src/c3_linearization.rs:28-37 | whatever precedes something in one list precedes it in the merge |
| C3Linearization.HeadPrecedesRest | c3-lang-linearization/src/c3_linearization.rs:34-35 | the element a step takes precedes every other element of the lists in the merge |
| C3Linearization.MergeSpecIsLinearization | c3-lang-linearization/src/c3_linearization.rs:28-37 | on success: `base` first, then every element of the lists exactly once, in an order keeping each list's order |
| C3Linearization.MergeOfNothing | c3-lang-linearization/src/c3_linearization.rs:29-33 | with no lists the result is `[base]` |
| C3Linearization.MergesToIsMergeTail | c3-lang-linearization/src/c3_linearization.rs:30-36 | a trace of merge steps that empties the lists is the merge's result |
| C3Linearization.PathForGrows | c3-lang-linearization/src/c3_linearization.rs:13-15 | a class's path depends only on its parents' entries, so classes added later in the round do not change it |
| C3Linearization.Round | c3-lang-linearization/src/c3_linearization.rs:9-20 | one round resolves exactly the classes whose parents were all in the start-of-round snapshot. Each moves from input to output with the merge of its parents' paths; older outputs are unchanged; the flag says whether any was resolved. A failing merge means such a class got stuck |
| C3Linearization.RoundStep | c3-lang-linearization/src/c3_linearization.rs:16-17 | resolving one class removes it from the input and adds it, with its path, to the output |
| C3Linearization.Linearize | c3-lang-linearization/src/c3_linearization.rs:6-26 | on success the fresh output resolves the declarations: consistent, and no further class can be resolved. On failure some class with resolved parents has a stuck merge. The loop terminates |
| C3Linearization.RoundKeepsConsistent | c3-lang-linearization/src/c3_linearization.rs:9-19 | a round keeps the output consistent, and the pending classes are exactly the declared ones not yet resolved |
| C3Linearization.MergeInputDistinct | c3-lang-linearization/src/c3_linearization.rs:28-37 | a merge that succeeds took lists with no repeated element |
| C3Linearization.ResolvedPathStarts | c3-lang-linearization/src/c3_linearization.rs:13-17 | a resolved class's path is non-empty and starts with the class |
| C3Linearization.ParentPathMerged | c3-lang-linearization/src/c3_linearization.rs:13-15 | the path of each parent of a resolved class is one of the lists merged for that class |
| C3Linearization.ParentPathShorter | c3-lang-linearization/src/c3_linearization.rs:13-17 | every parent of a resolved class is resolved, with a strictly shorter path |
| C3Linearization.PathForSameParents | c3-lang-linearization/src/c3_linearization.rs:13-15 | two outputs that agree on a class's parents give that class the same path |
| C3Linearization.ResolvedAgree | c3-lang-linearization/src/c3_linearization.rs:6-26 | a class resolved in one output satisfying `Resolves` is resolved, with the same path, in every other |
| C3Linearization.ResolvesUnique | c3-lang-linearization/src/c3_linearization.rs:6-26 | two outputs that both satisfy `Resolves` for the same declarations are equal, so a successful `c3_linearization` has one possible result |
| C3Linearization.NothingReadyIsStuck | c3-lang-linearization/src/c3_linearization.rs:21-23 | stopping after a round that found nothing leaves every unresolved class waiting on an unresolved or undeclared parent |
| C3Linearization.ReadyShrinks | c3-lang-linearization/src/c3_linearization.rs:16-18 | a round that resolves something shrinks the input, so the driver terminates |
| C3Linearization.SingleParentPath | c3-lang-linearization/src/c3_linearization.rs:14-15 | a class with one parent gets itself followed by the parent's path |
| C3Linearization.DiamondRoot | c3-lang-linearization/src/c3_linearization.rs:46 | a root class's path is itself alone |
| C3Linearization.DiamondSide | c3-lang-linearization/src/c3_linearization.rs:47-48 | B(A) and C(A) get `[B, A]` and `[C, A]` |
| C3Linearization.DiamondBottom | c3-lang-linearization/src/c3_linearization.rs:49 | D(B, C) gets `[D, B, C, A]` |
| C3Linearization.DiamondHasRoot | c3-lang-linearization/src/c3_linearization.rs:52 | a consistent output maps A to `[A]` |
| C3Linearization.DiamondHasSide | c3-lang-linearization/src/c3_linearization.rs:53-54 | a consistent output maps B and C to `[B, A]` and `[C, A]` |
| C3Linearization.DiamondHasBottom | c3-lang-linearization/src/c3_linearization.rs:55 | a consistent output maps D to `[D, B, C, A]` |
| C3Linearization.DiamondConsistent | c3-lang-linearization/src/c3_linearization.rs:51-57 | every entry of a consistent output is the expected path |
| C3Linearization.DiamondComplete | c3-lang-linearization/src/c3_linearization.rs:44-57 | an output from which no further class can be resolved holds all four classes |
| C3Linearization.DiamondResolves | c3-lang-linearization/src/c3_linearization.rs:44-58 | the only output the driver can return for the diamond is the expected registry |
| C3Linearization.DiamondNeverStuck | c3-lang-linearization/src/c3_linearization.rs:44-58 | no merge of the diamond fails, so the driver cannot return an error |
| C3Linearization.DiamondExample | c3-lang-linearization/src/c3_linearization.rs:44-58 | the diamond test for any four distinct names: declared with `add_class_str`, linearization succeeds with the expected paths and empty function and variable tables |
| C3Linearization.ChainHasRoot | tests/src/lib.rs:3-11 | in the chain a <- b <- c, a consistent output maps a to `[a]` |
| C3Linearization.ChainHasMiddle | tests/src/lib.rs:13-22 | a consistent output maps b to `[b, a]` |
| C3Linearization.ChainHasLeaf | tests/src/lib.rs:24-33 | a consistent output maps c to `[c, b, a]` |
| C3Linearization.ChainLeaf | tests/src/lib.rs:24-33 | c(b) gets `[c, b, a]` once b has `[b, a]` |
| C3Linearization.ChainConsistent | tests/src/lib.rs:3-34 | every entry of a consistent output for the chain is its expected path |
| C3Linearization.ChainComplete | tests/src/lib.rs:3-34 | an output from which nothing more can be resolved holds all three classes |
| C3Linearization.ChainResolves | tests/src/lib.rs:3-34 | the only output the driver can return for the chain is each class followed by its ancestors, nearest first |
| C3Linearization.ChainNeverStuck | tests/src/lib.rs:3-34 | no merge of the chain fails |
| C3Linearization.ChainExample | tests/src/lib.rs:3-34 | linearizing the chain succeeds with the expected paths and empty function and variable tables |
| C3Linearization.DiamondTrace | c3-lang-linearization/src/c3_linearization.rs:49-55 | D over `[B, A]`, `[C, A]`, `[B, C]` merges to `[D, B, C, A]` |
| C3Linearization.MergeExample | c3-lang-linearization/src/c3_linearization.rs:97-107 | the first merge test, for any five distinct names: `[K, B, A, C, O]` |
| C3Linearization.FirstMergeTrace | c3-lang-linearization/src/c3_linearization.rs:97-107 | the merge specification of the first merge test |
| C3Linearization.SecondMergeExample | c3-lang-linearization/src/c3_linearization.rs:110-121 | the second merge test, for any ten distinct names: `[Z, K1, C, K3, K2, B, A, D, E, O]` |
| C3Linearization.SecondMergeTrace | c3-lang-linearization/src/c3_linearization.rs:110-121 | the merge specification of the second merge test |
| ImplRegister.AddedForAppend | c3-lang-parser/src/register.rs:13-18 | one `add` extends the pairs of its own function and of no other |
| ImplRegister.AddedForIsInCallOrder | c3-lang-parser/src/register.rs:13-18 | the j-th pair of a function comes from the j-th `add` that named it |
| ImplRegister.AddedForGrows | c3-lang-parser/src/register.rs:13-18 | later calls only append: earlier pairs are a prefix of later ones |
| ImplRegister.AddedForFromCalls | c3-lang-parser/src/register.rs:13-18 | every pair comes from an `add` call for that function |
| ImplRegister.AddedForNonEmpty | c3-lang-parser/src/register.rs:14-17 | a function has pairs iff some `add` named it |
| ImplRegister.FirstAddedIsEarliest | c3-lang-parser/src/register.rs:20-22 | the first pair comes from the earliest `add` for the function |
| ImplRegister.LastAddedIsLatest | c3-lang-parser/src/register.rs:34-40 | a field is found iff some `add_var` named the variable, and it is the one from the last such call |
| ImplRegister.Register.constructor | c3-lang-parser/src/register.rs:6-10 | both tables empty, no history |
| ImplRegister.Register.Add | c3-lang-parser/src/register.rs:13-18 | appends `(class, impl)` to the function's list, creating it if needed; other functions and variables unchanged; the tables still match the call history |
| ImplRegister.Register.Get | c3-lang-parser/src/register.rs:24-26 | for an added function: its non-empty pairs in insertion order |
| ImplRegister.Register.GetFirstImpl | c3-lang-parser/src/register.rs:20-22 | the implementation of the first pair added |
| ImplRegister.Register.Functions | c3-lang-parser/src/register.rs:28-32 | strictly increasing, exactly the functions some `add` named |
| ImplRegister.Register.AddVar | c3-lang-parser/src/register.rs:34-36 | overwrites the variable's field; everything else unchanged |
| ImplRegister.Register.GetVar | c3-lang-parser/src/register.rs:38-40 | for an added variable: the field of its last `add_var` |
| PathDispatch.Plus | tests/src/lib.rs:20 | `super_get() + 1`: adds to a returned value, passes a panic through |
| PathDispatch.Reverse | c3-lang-parser/src/c3_ast_printer.rs:32 | `PATH` is the linearization reversed: same length, index i holds element n-1-i |
| PathDispatch.FindArm | c3-lang-parser/src/c3_ast_printer.rs:87-91 | the `match` takes an arm iff one names the class, and then the first such |
| PathDispatch.ReversedPathPopsInOrder | c3-lang-parser/src/c3_ast_printer.rs:47-49 | the last class of a reversed linearization is its first, and dropping it leaves the rest reversed |
| PathDispatch.PopReversed | c3-lang-parser/src/c3_ast_printer.rs:153-159 | with a reversed linearization on top, one pop yields its first class and leaves the rest reversed on top |
| PathDispatch.SuperSkipsClassWithoutArm | c3-lang-parser/src/c3_ast_printer.rs:85-92 | a class without an arm falls through: the step behaves as the step from the next class |
| PathDispatch.NoImplementationPanics | c3-lang-parser/src/c3_ast_printer.rs:85-92 | when no class on the path has an arm, the walk runs off the path and panics |
| PathDispatch.SuperKeepsLowerStack | c3-lang-parser/src/c3_ast_printer.rs:85-92 | a `super_` step that returns leaves the lower paths untouched and only pops classes off the top path |
| PathDispatch.EntryRestoresStack | c3-lang-parser/src/c3_ast_printer.rs:78-83 | an entry call that returns leaves the stack exactly as before, so a re-entrant call restores the outer path |
| PathDispatch.Chain | c3-lang-parser/src/c3_ast_printer.rs:85-92 | the dispatch chain holds only classes of the linearization with their selected arms, starting with the first class when it has one |
| PathDispatch.ChainHasEveryImplementer | c3-lang-parser/src/c3_ast_printer.rs:85-92 | every class on the linearization that has an arm is in the chain |
| PathDispatch.SuperFollowsChain | c3-lang-parser/src/c3_ast_printer.rs:85-92 | without re-entrant calls, a `super_` step on a reversed linearization returns what walking the chain does |
| PathDispatch.EntryFollowsChain | c3-lang-parser/src/c3_ast_printer.rs:78-92 | an entry call on a class whose `PATH` is `lin` reversed returns the chain walk, most-derived first |
| PathDispatch.PathStack.constructor | c3-lang-parser/src/c3_ast_printer.rs:137-141 | an empty stack |
| PathDispatch.PathStack.PushPathOnStack | c3-lang-parser/src/c3_ast_printer.rs:143-146 | the path becomes the new top; lower paths unchanged |
| PathDispatch.PathStack.DropOneFromStack | c3-lang-parser/src/c3_ast_printer.rs:148-151 | removes exactly the top path; reports the panic of an empty stack |
| PathDispatch.PathStack.PopFromTopPath | c3-lang-parser/src/c3_ast_printer.rs:153-159 | returns the last class of the top path and leaves it one shorter on top, the rest unchanged; reports the panic of an empty stack or top path |
| PathDispatch.Receiver.constructor | c3-lang-parser/src/c3_ast_printer.rs:38-43 | a fresh instance with its `PATH`, its arms and an empty stack |
| PathDispatch.Receiver.Call | c3-lang-parser/src/c3_ast_printer.rs:78-83 | push `PATH`, one `super_` step, drop: outcome and final stack as the entry specification |
| PathDispatch.Receiver.Super | c3-lang-parser/src/c3_ast_printer.rs:85-92 | pop a class, run its arm or fall through: outcome and final stack as the `super_` specification |
| PathDispatch.InheritanceArmsFound | tests/src/lib.rs:7-33 | A's `get` returns 10; B's and C's add 1 to `super_get()`; none re-enters |
| PathDispatch.InheritanceChainOfA | tests/src/lib.rs:42-43 | the chain of A gives 10 |
| PathDispatch.InheritanceChainOfB | tests/src/lib.rs:45-46 | the chain of B gives 11 |
| PathDispatch.InheritanceChainOfC | tests/src/lib.rs:48-49 | the chain of C gives 12 |
| PathDispatch.InheritanceEntries | tests/src/lib.rs:41-50 | entry calls of `get` with the reversed linearizations of A, B and C give 10, 11 and 12 |
| PathDispatch.InheritanceRegister | tests/src/lib.rs:7-33 | registering the three implementations of `get` in declaration order gives the test's function table |
| PathDispatch.InheritanceExample | tests/src/lib.rs:41-50 | end to end for any three distinct names: linearize, register, and call `get` on fresh instances: 10, 11, 12 |

## Left out

- Code generation is not modelled: `ToTokens`, `quote!`, `format_ident!`, `args_to_params`, `attributes_to_token_stream` (c3-lang-parser/src/c3_ast_printer.rs). Only the generated `PathStack` and the entry / `super_` protocol are.
- c3-lang-parser/src/c3_ast_builder.rs, rust_class_def.rs, rust_package_def.rs and c3_ast.rs are not part of this model. They convert `syn` syntax trees, which are foreign library types. The inheritance example does their data work by hand: it linearizes, registers every implementation of `get`, and gives each class all registered arms.
- The `Arc<Mutex<...>>` around the path stack is modelled as a plain sequence of sequences. Locking, sharing between clones and concurrency are left out.
- PathDispatch.PathStack.DropOneFromStack: the panic on an empty stack is reported as `ok == false` with the stack unchanged. In Rust the panic poisons the mutex, so no later state can be observed.
- PathDispatch.PathStack.PopFromTopPath: a panic is `None` with the stack unchanged. The Rust code has by then already popped the top path, but the poisoned mutex makes that unobservable.
- PathDispatch.EntrySpec: a panic inside the `super_` step skips the drop, as unwinding does.
- PathDispatch.Receiver.Call: a re-entrant call consumes one unit of `fuel`, and running out is the outcome `OutOfFuel`. The generated code has no such bound, so unbounded mutual recursion is not modelled.
- Method bodies are abstracted as `Body` (constant, next implementation plus k, re-entrant call plus k). Other Rust code inside an implementation is not modelled.
- PathDispatch.Plus: the `u32` arithmetic of the test bodies is modelled on unbounded integers. Overflow panics are not modelled.
- C3Sets.Sets.IsSolution: the `EmptySet` error of `in_tail` cannot arise because no stored list is empty. The method therefore always succeeds; `C3Lib.InTail` models the error path itself.
- `all_classes_str`, `functions_str` and `varialbes_str` (c3-lang-linearization/src/c3.rs:56-61, 117-122, 150-155) only convert identifiers to `String`. Identifiers already are strings here, so `AllClasses`, `Functions` and `Variables` cover them.
- `id.rs` is modelled as plain strings with the derived lexicographic order. Its `From`, `Display` and `ToTokens` implementations are conversions only.
- C3Linearization.Round: the body of the outer loop of `c3_linearization` is a method of its own. This exposes the start-of-round snapshot.
- C3Linearization.Linearize: it returns `NoMoreCandidates` from a stuck merge. The other errors the Rust driver can propagate (`BaseClassDoesNotExists` from `path`, `sets_for` or `remove`, and `PushingEmptySet`) cannot arise: the visited class and its parents are registered, and `sets_for` pushes only non-empty lists.
- The second linearization test (ERC20 / Plascoin, c3-lang-linearization/src/c3_linearization.rs:61-94) is not proved. The diamond, the single-inheritance chain and both merge tests are.
- The examples are proved for any distinct names, not for the literal strings of the tests, which is a stronger statement. `PlainName` only asks that `split_coma` reads each name back as itself.
- The ghost histories in `Register` (`added`, `addedVars`) are specification state. They record the calls that built the tables.
- Test utilities that spawn `rustfmt` are process I/O and are left out.
