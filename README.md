# Selection criteria of the parameter framework, in Dafny

The parameter framework picks parameter settings from rules that test *selection criteria*:
named pieces of system state such as an audio mode or a set of active devices. This project
models the criterion (its 32-bit state, its literal/numerical value pairs, its named match
methods and its modification counter) and the `Criteria` registry that owns every criterion
by name, and proves what rules and the rest of the framework rely on.

- `wrappers.dfy` (`Wrappers`): `Option` for a lookup that returns `bool` and fills an
  out-parameter, `Outcome` for `addValuePair`'s `bool` return with an error text, and `Result`
  for `match`, which throws. A registry miss is Dafny's `null` (`Criterion?`).
- `string_order.dfy` (`StringOrder`): the lexicographic order of `std::string`, which is the
  order a `std::map` keeps its keys in, and insertion into a sorted key sequence.
- `criterion.dfy` (`CriterionState`): the class `Criterion` and the functions that specify it.
  The inclusive (bit-flag) specialisation is a `Kind` tag; what that subclass adds (its flag
  admission rule, its forward lookup, its own match methods, its initial value pairs) is a `Variant` value passed
  in, so every property holds whatever those rules are. A match method is `Is`, `IsNot` or a
  `Derived` predicate of the current state and the target state.
- `criteria.dfy` (`CriteriaRegistry`): the class `Criteria`: a map from name to `Criterion`
  plus the map's key sequence in iteration order.

The accessors `GetCriterionState`, `GetCriterionName`, `IsInclusive`, `HasBeenModified`,
`Snapshot` and `IsMatchMethodAvailable` carry no contract of their own; the rows below state
their behaviour through the members that use them.

## Model

| member | source | states |
|---|---|---|
| `CriterionState.Criterion.constructor` | parameter/criterion/include/criterion/Criterion.h:52 | an exclusive criterion keeps the given name, has exactly the match methods `Is` and `IsNot`, no value pairs, state 0 and is not modified |
| `CriterionState.Criterion.Derived` | parameter/criterion/include/criterion/Criterion.h:135-138 | a derived (inclusive) criterion has the variant's kind (so its flag rules), starts with the derived value pairs, and its match methods are the derived ones plus `Is`/`IsNot`, which keep their equality meaning; state 0, not modified |
| `CriterionState.Criterion.SetCriterionState` | parameter/criterion/include/criterion/Criterion.h:56 | afterwards the state read back is the new state; the counter moves one (saturating) step only when the value changes, and then the criterion reports modified; value pairs are untouched |
| `CriterionState.Criterion.ResetModifiedStatus` | parameter/criterion/include/criterion/Criterion.h:76-77 | afterwards the criterion does not report modified; state and value pairs are unchanged |
| `CriterionState.AddPair` | parameter/criterion/include/criterion/Criterion.h:64-66 | an exclusive criterion always accepts a pair and the last write for a literal wins; an inclusive one accepts exactly when its flag rule admits the value, else `InvalidValue`; on success the new literal maps to its code and every other literal keeps its code |
| `CriterionState.Criterion.AddValuePair` | parameter/criterion/include/criterion/Criterion.h:64-66 | the outcome and the new value pairs are those of `AddPair`; a rejected pair leaves the table as it was; state and counter are untouched |
| `CriterionState.Criterion.GetNumericalValue` | parameter/criterion/include/criterion/Criterion.h:70-71 | on an exclusive criterion succeeds exactly when the literal is registered, and then gives its code; an inclusive criterion answers through its kind's own lookup |
| `CriterionState.Criterion.GetLiteralValue` | parameter/criterion/include/criterion/Criterion.h:68 | not found exactly when no literal has the code; otherwise the literal found has the code and comes first, in literal order, among those that do |
| `CriterionState.FirstLiteralUnique` | parameter/criterion/include/criterion/Criterion.h:68 | the reverse lookup's answer is unique |
| `CriterionState.LiteralRoundTrip` | parameter/criterion/include/criterion/Criterion.h:123-124 | when codes are distinct, the reverse lookup of a literal's code gives back that literal |
| `CriterionState.AddAllExclusive` | parameter/criterion/include/criterion/Criterion.h:153 | adding listed pairs of a table to an exclusive criterion's pairs overlays exactly those pairs |
| `CriterionState.ReimportReproducesTable` | parameter/criterion/include/criterion/Criterion.h:123-124 | re-adding every pair of an exclusive criterion's table, in any order, to a fresh exclusive criterion rebuilds the same table |
| `CriterionState.Criterion.Match` | parameter/criterion/include/criterion/Criterion.h:79-87 | fails with `UnknownMatchMethod` exactly when the method is not available; otherwise returns that method's verdict on the current state and the target |
| `CriterionState.MatchIs` | parameter/criterion/include/criterion/Criterion.h:155-156 | on every criterion `Is` is available and holds exactly when the state equals the target |
| `CriterionState.MatchIsNot` | parameter/criterion/include/criterion/Criterion.h:155-156 | on every criterion `IsNot` is available and holds exactly when the state differs from the target |
| `CriterionState.ExclusiveMatchMethods` | parameter/criterion/include/criterion/Criterion.h:89-94 | on an exclusive criterion a method is available exactly when it is `Is` or `IsNot`, and any other name makes `Match` fail |
| `CriterionState.CheckFormattedStateEmptyness` | parameter/criterion/include/criterion/Criterion.h:140-150 | an empty formatted state becomes the default text, a non-empty one is returned unchanged; the result is never empty |
| `CriterionState.NextCount` | parameter/criterion/include/criterion/Criterion.h:166-167 | one more change leaves the 32-bit counter non-zero, one higher unless already at its maximum |
| `CriterionState.CountAfterSaturates` | parameter/criterion/include/criterion/Criterion.h:166-167 | after n changes the counter is n, capped at 2^32-1 |
| `CriterionState.ChangesAreRemembered` | parameter/criterion/include/criterion/Criterion.h:166-167 | after any positive number of changes the criterion reports modified |
| `CriterionState.CountAfterAsWrittenWraps` | parameter/criterion/include/criterion/Criterion.h:167 | with a plain 32-bit increment the counter after n changes is n modulo 2^32 |
| `CriterionState.AsWrittenForgetsModifications` | parameter/criterion/include/criterion/Criterion.h:167 | with a plain 32-bit increment, 2^32 changes bring the counter back to 0 |
| `StringOrder.BelowIrreflexive` | parameter/criterion/src/Criteria.cpp:81 | no name sorts before itself in the map's key order |
| `StringOrder.BelowTransitive` | parameter/criterion/src/Criteria.cpp:81 | the map's key order is transitive |
| `StringOrder.BelowTotal` | parameter/criterion/src/Criteria.cpp:81 | any two different names are ordered |
| `StringOrder.BelowAsymmetric` | parameter/criterion/src/Criteria.cpp:81 | two names are never ordered both ways |
| `StringOrder.InsertSorted` | parameter/criterion/src/Criteria.cpp:57 | inserting a new key into the map's sorted key sequence keeps it sorted and adds exactly that key |
| `CriteriaRegistry.Criteria.constructor` | parameter/criterion/src/Criteria.cpp:40-42 | the registry starts empty |
| `CriteriaRegistry.Criteria.GetCriterionPointer` | parameter/criterion/src/Criteria.cpp:44-53 | null exactly when no criterion has the name; otherwise the registered criterion, whose name is the one asked for; never fails |
| `CriteriaRegistry.Criteria.GetSelectionCriterion` | parameter/criterion/src/Criteria.cpp:67-75 | gives the same answer as `GetCriterionPointer` |
| `CriteriaRegistry.Criteria.Emplace` | parameter/criterion/src/Criteria.cpp:57 | a taken name leaves the registry unchanged; a new name adds exactly that one entry |
| `CriteriaRegistry.Criteria.CreateExclusiveCriterion` | parameter/criterion/src/Criteria.cpp:55-59 | afterwards the name is registered and the returned criterion is its entry; an existing entry is kept and returned unchanged; a new one is a fresh exclusive criterion, and no other entry changes |
| `CriteriaRegistry.Criteria.CreateInclusiveCriterion` | parameter/criterion/src/Criteria.cpp:61-65 | the same, with a fresh inclusive criterion of the inclusive variant's kind, holding its initial pairs and exactly its match methods plus `Is`/`IsNot` |
| `CriteriaRegistry.Criteria.ListSelectionCriteria` | parameter/criterion/src/Criteria.cpp:77-84 | the caller's list is kept as its prefix, followed by exactly one description per criterion in the map's order; every criterion's description appears |
| `CriteriaRegistry.Criteria.ResetModifiedStatus` | parameter/criterion/src/Criteria.cpp:86-91 | afterwards no criterion reports modified; names, states and value pairs are untouched |

## Left out

- `toXml` of the criterion and of the registry (Criterion.h:109, Criteria.cpp:93-102): data emission through an external XML library, no decisions.
- The logger (Criterion.h:169-170): diagnostics only; the `logger` parameters of the constructors and create functions are dropped.
- The text of `getFormattedState`, `getFormattedDescription` and `listPossibleValues`: their bodies are not part of this model. `ListSelectionCriteria` takes the description as a function `describe` of a criterion's name, kind, state and value pairs; only `CheckFormattedStateEmptyness` is modelled, with `<none>` as the default text.
- InclusiveCriterion is not part of this model: its flag admission rule, its flag match methods (such as `Includes`/`Excludes`) and its initial value pairs enter as the `Variant` given to the registry's constructor, so no flag rule is fixed here.
- Criterion.cpp is not part of this model. The model assumes that file's behaviour as follows: the initial state is 0; only a change of value counts as a modification; the exclusive `addValuePair` always succeeds, with the last write for a literal winning; `getLiteralValue` answers with the first matching literal in the map's order; and the protected constructor merges the match methods so that the base `Is`/`IsNot` win over a derived method of the same name.
- `CriterionState.Criterion.SetCriterionState`: uses the corrected, saturating counter step `NextCount`, not the plain `uint32_t` increment described under Findings, so it promises "modified" after any change even past 2^32 changes.
- `CriterionState.Criterion.GetNumericalValue`: the inclusive override (Criterion.h:70 is virtual and not final) is not modelled; an inclusive criterion's answer is its kind's `numericalValueOf`, about which nothing is proved.
- `StringOrder.Below` compares Unicode code points, while `std::string::compare` compares bytes as `unsigned char`; the two orders agree for UTF-8 names, and the model does not cover names in other encodings.
- `CriterionState.Criterion.AddValuePair`: reports the error kind only, not the error message text the source writes to its `error` argument.
- `std::function` match methods are the closed datatype `MatchMethod`; match-method dispatch by a thrown `std::out_of_range` is the `UnknownMatchMethod` failure.
- `CriterionWrapper` ownership and raw-pointer lifetimes: a handle is the object the registry's map holds.
- `CriteriaRegistry.Criteria.ListSelectionCriteria`: returns the extended list instead of appending to the caller's list in place.
- `CriteriaRegistry.Criteria.GetSelectionCriterion`: the mutable and the read-only overloads are one member, since constness has no counterpart here.
- Creating a criterion under a taken name is not reported as an error: the code drops the new criterion and returns the existing one, and the model does the same.

## Findings

| source | as written | input that shows it | evidently intended | confidence | as-written member | corrected member |
|---|---|---|---|---|---|---|
| parameter/criterion/include/criterion/Criterion.h:167 | the modification counter is a `uint32_t` that each state change increments by one | 2^32 state changes after a reset: the counter wraps to 0 and `hasBeenModified()` reports false although the state changed | a criterion whose state changed reports modified until the next reset (a saturating counter) | low, not executed; the increment itself is in Criterion.cpp, which is not part of this model | `CriterionState.AsWrittenForgetsModifications` | `CriterionState.ChangesAreRemembered` |
