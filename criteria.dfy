/** The registry that owns every selection criterion, keyed by name. A handle to a criterion
    is the object the registry's map holds under that name; a miss is `null`. */
module CriteriaRegistry {
  import opened StringOrder
  import opened CriterionState

  class Criteria {
    /** `mCriteria`: name to criterion. */
    var criteria: map<string, Criterion>
    /** The keys of `criteria` in the order the map visits them. */
    var order: seq<string>
    /** The derived criterion `createInclusiveCriterion` builds. */
    const inclusiveVariant: Variant

    /** Every criterion is filed under its own name; `order` lists each name once, sorted. */
    ghost predicate Valid()
      reads this
    {
      && inclusiveVariant.kind.Inclusive?
      && Sorted(order)
      && |order| == |criteria|
      && (forall k :: k in criteria <==> k in order)
      && (forall k :: k in criteria ==> criteria[k].name == k && criteria[k].Valid())
    }

    /** An empty registry. */
    constructor (inclusiveVariant: Variant)
      requires inclusiveVariant.kind.Inclusive?
      ensures Valid() && criteria == map[] && this.inclusiveVariant == inclusiveVariant
    {
      criteria := map[];
      order := [];
      this.inclusiveVariant := inclusiveVariant;
    }

    /** The criterion named `name`, or `null` when there is none; never fails. */
    function GetCriterionPointer(name: string): (c: Criterion?)
      reads this
      requires Valid()
      ensures c == null <==> name !in criteria
      ensures c != null ==> c == criteria[name] && c.GetCriterionName() == name
    {
      if name in criteria then criteria[name] else null
    }

    /** Both overloads (mutable and read-only handle) delegate to `GetCriterionPointer`. */
    function GetSelectionCriterion(name: string): (c: Criterion?)
      reads this
      requires Valid()
      ensures c == GetCriterionPointer(name)
    {
      GetCriterionPointer(name)
    }

    /** `std::map::emplace`: files `candidate` under `name` unless the name is taken, in which
        case the registry is left as it was and the candidate is dropped. */
    method Emplace(name: string, candidate: Criterion)
      requires Valid()
      requires candidate.GetCriterionName() == name && candidate.Valid()
      modifies this
      ensures Valid()
      ensures name in old(criteria) ==> criteria == old(criteria) && order == old(order)
      ensures name !in old(criteria) ==> criteria == old(criteria)[name := candidate]
    {
      if name !in criteria {
        order := InsertSorted(order, name);
        criteria := criteria[name := candidate];
      }
    }

    method CreateExclusiveCriterion(name: string) returns (c: Criterion)
      requires Valid()
      modifies this
      ensures Valid()
      ensures c == GetCriterionPointer(name)
      ensures name in old(criteria) ==> criteria == old(criteria) && order == old(order)
      ensures name !in old(criteria) ==> criteria == old(criteria)[name := c] && fresh(c)
      ensures name !in old(criteria) ==>
                !c.IsInclusive() && c.GetCriterionState() == 0 && c.valuePairs == map[] && !c.HasBeenModified()
      ensures unchanged(old(criteria.Values))
    {
      var candidate := new Criterion(name);
      Emplace(name, candidate);
      c := GetCriterionPointer(name);
    }

    method CreateInclusiveCriterion(name: string) returns (c: Criterion)
      requires Valid()
      modifies this
      ensures Valid()
      ensures c == GetCriterionPointer(name)
      ensures name in old(criteria) ==> criteria == old(criteria) && order == old(order)
      ensures name !in old(criteria) ==> criteria == old(criteria)[name := c] && fresh(c)
      ensures name !in old(criteria) ==>
                c.IsInclusive() && c.GetCriterionState() == 0 &&
                c.valuePairs == inclusiveVariant.derivedValuePairs && !c.HasBeenModified()
      ensures name !in old(criteria) ==>
                c.kind == inclusiveVariant.kind &&
                c.matchMethods == inclusiveVariant.derivedMatchMethods + BaseMatchMethods()
      ensures unchanged(old(criteria.Values))
    {
      var candidate := new Criterion.Derived(name, inclusiveVariant);
      Emplace(name, candidate);
      c := GetCriterionPointer(name);
    }

    /** Appends the description of every criterion, in the map's order, to `results`. */
    method ListSelectionCriteria(results: seq<string>, withTypeInfo: bool, humanReadable: bool,
                                 describe: (CriterionView, bool, bool) -> string)
      returns (listed: seq<string>)
      requires Valid()
      ensures |listed| == |results| + |criteria|
      ensures listed[..|results|] == results
      ensures forall j :: 0 <= j < |order| ==>
                listed[|results| + j] == describe(criteria[order[j]].Snapshot(), withTypeInfo, humanReadable)
      ensures forall k :: k in criteria ==>
                describe(criteria[k].Snapshot(), withTypeInfo, humanReadable) in listed[|results|..]
    {
      listed := results;
      for i := 0 to |order|
        invariant |listed| == |results| + i
        invariant listed[..|results|] == results
        invariant forall j :: 0 <= j < i ==>
                    listed[|results| + j] == describe(criteria[order[j]].Snapshot(), withTypeInfo, humanReadable)
      {
        listed := listed + [describe(criteria[order[i]].Snapshot(), withTypeInfo, humanReadable)];
      }
      forall k | k in criteria
        ensures describe(criteria[k].Snapshot(), withTypeInfo, humanReadable) in listed[|results|..]
      {
        var j :| 0 <= j < |order| && order[j] == k;
        assert listed[|results|..][j] == listed[|results| + j];
      }
    }

    /** Clears the modification status of every criterion and touches nothing else. */
    method ResetModifiedStatus()
      requires Valid()
      modifies criteria.Values
      ensures Valid()
      ensures forall k :: k in criteria ==> !criteria[k].HasBeenModified()
      ensures forall k :: k in criteria ==>
                criteria[k].GetCriterionState() == old(criteria[k].GetCriterionState()) &&
                criteria[k].valuePairs == old(criteria[k].valuePairs)
    {
      for i := 0 to |order|
        invariant forall k :: k in order[..i] ==> !criteria[k].HasBeenModified()
        invariant forall k :: k in criteria ==>
                    criteria[k].state == old(criteria[k].state) && criteria[k].valuePairs == old(criteria[k].valuePairs)
      {
        criteria[order[i]].ResetModifiedStatus();
      }
      assert order[..|order|] == order;
    }
  }
}
