/** One selection criterion: a named 32-bit state, the literal/numerical value pairs that name
    its values, the match methods rules use to test it, and a modification counter. The
    exclusive criterion is the base class; the inclusive (bit-flag) specialisation is a `Kind`
    tag whose flag rules are supplied from outside this model (see `Variant`). */
module CriterionState {
  import opened Wrappers
  import opened StringOrder

  /** The source's `int` / `int32_t`. */
  type Int32 = x: int | -0x8000_0000 <= x < 0x8000_0000

  /** Largest value of the `uint32_t` modification counter. */
  const MaxModifications: int := 0xFFFF_FFFF

  /** The source's `uint32_t`. */
  type UInt32 = x: int | 0 <= x <= 0xFFFF_FFFF

  /** `std::map<std::string, int>`: literal to numerical value, one entry per literal. */
  type ValuePairs = map<string, Int32>

  /** The two structural errors: a rule names a match method the criterion does not have
      (the source throws `std::out_of_range`), or an inclusive criterion rejects a flag value. */
  datatype Error = UnknownMatchMethod | InvalidValue

  /** A match method: equality and inequality, which every criterion has, or a predicate
      contributed by a derived criterion, given the current state and the state to match. */
  datatype MatchMethod =
    | Is
    | IsNot
    | Derived(verdict: (Int32, Int32) -> bool)

  /** What a match method answers for the current state and the state a rule asks for. */
  function Verdict(m: MatchMethod, current: Int32, target: Int32): bool
  {
    match m
    case Is => current == target
    case IsNot => current != target
    case Derived(f) => f(current, target)
  }

  /** The match methods the base criterion installs itself. */
  function BaseMatchMethods(): map<string, MatchMethod>
  {
    map["Is" := Is, "IsNot" := IsNot]
  }

  /** Exclusive (the base `Criterion`) or inclusive. The inclusive specialisation decides
      whether a new flag value may join the existing pairs, and may override the forward
      lookup from a literal to a numerical value; neither rule is modelled here, and they are
      carried as `admitsFlag` and `numericalValueOf`. */
  datatype Kind =
    | Exclusive
    | Inclusive(admitsFlag: (ValuePairs, Int32) -> bool, numericalValueOf: (ValuePairs, string) -> Option<Int32>)

  /** What a derived class hands to the protected constructor: its kind, its initial value
      pairs and its own match methods. */
  datatype Variant = Variant(kind: Kind, derivedValuePairs: ValuePairs, derivedMatchMethods: map<string, MatchMethod>)

  /** The value pairs after `addValuePair(numericalValue, literalValue)`: an exclusive
      criterion always accepts and the last write for a literal wins; an inclusive one first
      asks its flag rule. */
  function AddPair(kind: Kind, pairs: ValuePairs, numericalValue: Int32, literalValue: string): (r: Result<ValuePairs, Error>)
    ensures kind.Exclusive? ==> r.Success?
    ensures kind.Inclusive? ==> (r.Success? <==> kind.admitsFlag(pairs, numericalValue))
    ensures r.Failure? ==> r.error == InvalidValue
    ensures r.Success? ==> r.value.Keys == pairs.Keys + {literalValue} && r.value[literalValue] == numericalValue
    ensures r.Success? ==> forall l :: l in pairs && l != literalValue ==> r.value[l] == pairs[l]
  {
    if kind.Inclusive? && !kind.admitsFlag(pairs, numericalValue) then Failure(InvalidValue)
    else Success(pairs[literalValue := numericalValue])
  }

  /** `l` is the literal `getLiteralValue(numericalValue)` reports: the first, in the map's
      literal order, of the literals whose code is `numericalValue`. */
  ghost predicate IsFirstLiteral(pairs: ValuePairs, numericalValue: Int32, l: string)
  {
    && l in pairs
    && pairs[l] == numericalValue
    && forall other :: other in pairs && pairs[other] == numericalValue ==> other == l || Below(l, other)
  }

  /** At most one literal is the first for a code, so the reverse lookup is determined. */
  lemma FirstLiteralUnique(pairs: ValuePairs, numericalValue: Int32, a: string, b: string)
    requires IsFirstLiteral(pairs, numericalValue, a) && IsFirstLiteral(pairs, numericalValue, b)
    ensures a == b
  {
    if a != b {
      BelowAsymmetric(a, b);
    }
  }

  /** When no two literals share a code, the reverse lookup of a literal's code gives back
      that literal. */
  lemma LiteralRoundTrip(pairs: ValuePairs, l: string)
    requires l in pairs
    requires forall a, b :: a in pairs && b in pairs && a != b ==> pairs[a] != pairs[b]
    ensures IsFirstLiteral(pairs, pairs[l], l)
  {
  }

  /** Adds, in order, the pair of each listed literal taken from `table`. */
  function AddAll(kind: Kind, pairs: ValuePairs, literals: seq<string>, table: ValuePairs): Result<ValuePairs, Error>
    requires forall l :: l in literals ==> l in table
    decreases |literals|
  {
    if literals == [] then Success(pairs)
    else
      match AddPair(kind, pairs, table[literals[0]], literals[0])
      case Failure(e) => Failure(e)
      case Success(next) => AddAll(kind, next, literals[1..], table)
  }

  /** The pairs of `table` whose literal is listed. */
  function Restricted(table: ValuePairs, literals: seq<string>): ValuePairs
  {
    map l | l in literals && l in table :: table[l]
  }

  lemma {:induction false} AddAllExclusive(pairs: ValuePairs, literals: seq<string>, table: ValuePairs)
    requires forall l :: l in literals ==> l in table
    ensures AddAll(Exclusive, pairs, literals, table) == Success(pairs + Restricted(table, literals))
    decreases |literals|
  {
    if literals != [] {
      var next := pairs[literals[0] := table[literals[0]]];
      assert AddPair(Exclusive, pairs, table[literals[0]], literals[0]) == Success(next);
      AddAllExclusive(next, literals[1..], table);
      var after := next + Restricted(table, literals[1..]);
      var expected := pairs + Restricted(table, literals);
      assert forall l :: l in literals <==> l == literals[0] || l in literals[1..];
      assert after.Keys == expected.Keys;
      assert forall k :: k in after ==> after[k] == expected[k];
      assert after == expected;
      assert AddAll(Exclusive, pairs, literals, table) == AddAll(Exclusive, next, literals[1..], table);
    } else {
      assert Restricted(table, literals) == map[];
      assert pairs + map[] == pairs;
    }
  }

  /** Exporting an exclusive criterion's value pairs, literal by literal in any order, and
      adding them to a fresh exclusive criterion rebuilds the same table. */
  lemma ReimportReproducesTable(table: ValuePairs, literals: seq<string>)
    requires forall l :: l in literals <==> l in table
    ensures AddAll(Exclusive, map[], literals, table) == Success(table)
  {
    AddAllExclusive(map[], literals, table);
    assert map[] + Restricted(table, literals) == table;
  }

  /** The modification counter after one more state change. */
  function NextCount(count: UInt32): (r: UInt32)
    ensures r != 0
    ensures count < MaxModifications ==> r == count + 1
  {
    if count == MaxModifications then count else count + 1
  }

  /** The same step as the source's `uint32_t` increment performs it. */
  function NextCountAsWritten(count: UInt32): UInt32
  {
    (count + 1) % 0x1_0000_0000
  }

  /** The counter after `changes` state changes since a reset. */
  function CountAfter(changes: nat): UInt32
  {
    if changes == 0 then 0 else NextCount(CountAfter(changes - 1))
  }

  function CountAfterAsWritten(changes: nat): UInt32
  {
    if changes == 0 then 0 else NextCountAsWritten(CountAfterAsWritten(changes - 1))
  }

  /** With the saturating step the counter is the number of changes, capped at its maximum. */
  lemma {:induction false} CountAfterSaturates(changes: nat)
    ensures CountAfter(changes) == if changes < MaxModifications then changes else MaxModifications
  {
    if changes != 0 {
      CountAfterSaturates(changes - 1);
    }
  }

  /** With the wrapping step the counter is the number of changes modulo 2^32. */
  lemma {:induction false} CountAfterAsWrittenWraps(changes: nat)
    ensures CountAfterAsWritten(changes) == changes % 0x1_0000_0000
  {
    if changes != 0 {
      CountAfterAsWrittenWraps(changes - 1);
      WrapStep(changes - 1);
    }
  }

  lemma WrapStep(n: nat)
    ensures (n % 0x1_0000_0000 + 1) % 0x1_0000_0000 == (n + 1) % 0x1_0000_0000
  {
  }

  /** Exactly 2^32 state changes after a reset, the wrapping counter is back at zero, so the
      criterion would report that it has not been modified. */
  lemma AsWrittenForgetsModifications()
    ensures CountAfterAsWritten(0x1_0000_0000) == 0
  {
    CountAfterAsWrittenWraps(0x1_0000_0000);
  }

  /** With the saturating counter any positive number of changes is remembered. */
  lemma ChangesAreRemembered(changes: nat)
    requires changes > 0
    ensures CountAfter(changes) != 0
  {
    CountAfterSaturates(changes);
  }

  /** Text the formatted state falls back to when nothing is set. */
  const DefaultFormattedState: string := "<none>"

  /** Replaces an empty formatted state by the default and keeps any other one. */
  function CheckFormattedStateEmptyness(formattedState: string): (r: string)
    ensures r != []
    ensures formattedState != [] ==> r == formattedState
    ensures formattedState == [] ==> r == DefaultFormattedState
  {
    if formattedState == [] then DefaultFormattedState else formattedState
  }

  /** What a description of the criterion may depend on. */
  datatype CriterionView = CriterionView(name: string, inclusive: bool, state: Int32, valuePairs: ValuePairs)

  class Criterion {
    const name: string
    const kind: Kind
    /** Fixed at construction: no method can change a `const`. */
    const matchMethods: map<string, MatchMethod>
    var valuePairs: ValuePairs
    var state: Int32
    var modifications: UInt32

    /** Equality and inequality are always available and mean what they say; an exclusive
        criterion has no other match method. */
    ghost predicate Valid()
    {
      && "Is" in matchMethods && matchMethods["Is"].Is?
      && "IsNot" in matchMethods && matchMethods["IsNot"].IsNot?
      && (kind.Exclusive? ==> matchMethods.Keys == {"Is", "IsNot"})
    }

    /** An exclusive criterion, state 0, no value pairs, not modified. */
    constructor (name: string)
      ensures Valid() && !IsInclusive()
      ensures GetCriterionName() == name
      ensures matchMethods.Keys == {"Is", "IsNot"}
      ensures state == 0 && valuePairs == map[] && !HasBeenModified()
    {
      this.name := name;
      kind := Exclusive;
      matchMethods := BaseMatchMethods();
      valuePairs := map[];
      state := 0;
      modifications := 0;
    }

    /** The constructor a derived criterion calls with its own pairs and match methods; the
        base `Is` and `IsNot` are added and take precedence over a derived method of the same
        name. */
    constructor Derived(name: string, variant: Variant)
      requires variant.kind.Inclusive?
      ensures Valid() && IsInclusive() && kind == variant.kind
      ensures GetCriterionName() == name
      ensures matchMethods == variant.derivedMatchMethods + BaseMatchMethods()
      ensures matchMethods.Keys == variant.derivedMatchMethods.Keys + {"Is", "IsNot"}
      ensures forall m :: m in variant.derivedMatchMethods && m != "Is" && m != "IsNot" ==>
                matchMethods[m] == variant.derivedMatchMethods[m]
      ensures state == 0 && valuePairs == variant.derivedValuePairs && !HasBeenModified()
    {
      this.name := name;
      kind := variant.kind;
      matchMethods := variant.derivedMatchMethods + BaseMatchMethods();
      valuePairs := variant.derivedValuePairs;
      state := 0;
      modifications := 0;
    }

    function GetCriterionState(): Int32
      reads this
    {
      state
    }

    function GetCriterionName(): string
    {
      name
    }

    predicate IsInclusive()
    {
      kind.Inclusive?
    }

    predicate HasBeenModified()
      reads this
    {
      modifications != 0
    }

    function Snapshot(): CriterionView
      reads this
    {
      CriterionView(name, IsInclusive(), state, valuePairs)
    }

    /** Overwrites the state; only a change of value counts as a modification. */
    method SetCriterionState(newState: Int32)
      modifies this`state, this`modifications
      ensures GetCriterionState() == newState
      ensures old(state) == newState ==> modifications == old(modifications)
      ensures old(state) != newState ==> modifications == NextCount(old(modifications))
      ensures old(state) != newState ==> HasBeenModified()
      ensures old(HasBeenModified()) ==> HasBeenModified()
      ensures valuePairs == old(valuePairs)
    {
      if state != newState {
        state := newState;
        modifications := NextCount(modifications);
      }
    }

    method ResetModifiedStatus()
      modifies this`modifications
      ensures !HasBeenModified()
      ensures state == old(state) && valuePairs == old(valuePairs)
    {
      modifications := 0;
    }

    method AddValuePair(numericalValue: Int32, literalValue: string) returns (outcome: Outcome<Error>)
      modifies this`valuePairs
      ensures AddPair(kind, old(valuePairs), numericalValue, literalValue).Success? ==>
                outcome == Pass && valuePairs == AddPair(kind, old(valuePairs), numericalValue, literalValue).value
      ensures AddPair(kind, old(valuePairs), numericalValue, literalValue).Failure? ==>
                outcome == Fail(InvalidValue) && valuePairs == old(valuePairs)
      ensures !IsInclusive() ==> outcome == Pass
      ensures state == old(state) && modifications == old(modifications)
    {
      var r := AddPair(kind, valuePairs, numericalValue, literalValue);
      match r
      case Success(pairs) =>
        valuePairs := pairs;
        outcome := Pass;
      case Failure(e) =>
        outcome := Fail(e);
    }

    /** Forward lookup: the code of a literal, if the literal is registered. The inclusive
        criterion answers through its own override. */
    function GetNumericalValue(literalValue: string): (r: Option<Int32>)
      reads this
      ensures !IsInclusive() ==> (r.Some? <==> literalValue in valuePairs)
      ensures !IsInclusive() && r.Some? ==> valuePairs[literalValue] == r.value
      ensures IsInclusive() ==> r == kind.numericalValueOf(valuePairs, literalValue)
    {
      if kind.Inclusive? then kind.numericalValueOf(valuePairs, literalValue)
      else if literalValue in valuePairs then Some(valuePairs[literalValue]) else None
    }

    /** Reverse lookup: the first literal, in literal order, whose code is `numericalValue`. */
    method GetLiteralValue(numericalValue: Int32) returns (r: Option<string>)
      ensures r.None? <==> forall l :: l in valuePairs ==> valuePairs[l] != numericalValue
      ensures r.Some? ==> IsFirstLiteral(valuePairs, numericalValue, r.value)
    {
      var remaining := valuePairs.Keys;
      r := None;
      while remaining != {}
        invariant remaining <= valuePairs.Keys
        invariant r.None? ==> forall l :: l in valuePairs && l !in remaining ==> valuePairs[l] != numericalValue
        invariant r.Some? ==> r.value in valuePairs && r.value !in remaining && valuePairs[r.value] == numericalValue
        invariant r.Some? ==> forall l :: l in valuePairs && l !in remaining && valuePairs[l] == numericalValue ==>
                    l == r.value || Below(r.value, l)
        decreases remaining
      {
        var l :| l in remaining;
        if valuePairs[l] == numericalValue {
          if r.None? {
            r := Some(l);
          } else if Below(l, r.value) {
            forall other | other in valuePairs && other !in remaining && valuePairs[other] == numericalValue && other != r.value
              ensures Below(l, other)
            {
              BelowTransitive(l, r.value, other);
            }
            r := Some(l);
          } else {
            BelowTotal(l, r.value);
          }
        }
        remaining := remaining - {l};
      }
    }

    predicate IsMatchMethodAvailable(methodName: string)
    {
      methodName in matchMethods
    }

    /** The verdict of match method `methodName` on the current state and `target`, or
        `UnknownMatchMethod` when the criterion has no such method. */
    function Match(methodName: string, target: Int32): (r: Result<bool, Error>)
      reads this
      ensures r.Failure? <==> !IsMatchMethodAvailable(methodName)
      ensures r.Failure? ==> r.error == UnknownMatchMethod
      ensures r.Success? ==> r.value == Verdict(matchMethods[methodName], state, target)
    {
      if methodName in matchMethods then Success(Verdict(matchMethods[methodName], state, target))
      else Failure(UnknownMatchMethod)
    }
  }

  /** `Is` holds exactly when the current state equals the target. */
  lemma MatchIs(c: Criterion, target: Int32)
    requires c.Valid()
    ensures c.Match("Is", target) == Success(c.GetCriterionState() == target)
  {
  }

  /** `IsNot` holds exactly when the current state differs from the target. */
  lemma MatchIsNot(c: Criterion, target: Int32)
    requires c.Valid()
    ensures c.Match("IsNot", target) == Success(c.GetCriterionState() != target)
  {
  }

  /** An exclusive criterion answers `Is` and `IsNot` and nothing else. */
  lemma ExclusiveMatchMethods(c: Criterion, methodName: string, target: Int32)
    requires c.Valid() && !c.IsInclusive()
    ensures c.IsMatchMethodAvailable(methodName) <==> methodName == "Is" || methodName == "IsNot"
    ensures c.Match(methodName, target).Failure? <==> methodName != "Is" && methodName != "IsNot"
  {
  }
}
