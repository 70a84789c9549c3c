/** The merge loop of `load_subset_weights`: every parameter of the whole
    model whose name also occurs in the loaded subset takes the subset's
    value; parameters are named by strings and their values are opaque. */
module Weights {

  /** What the loop leaves in the whole model's state dictionary: the whole
      model's names, neither adding those found only in the subset nor
      dropping any; a shared name takes the subset's value, any other keeps
      its own. */
  function Merge<T>(whole: map<string, T>, subset: map<string, T>): (m: map<string, T>)
    ensures m.Keys == whole.Keys
    ensures forall name :: name in whole && name in subset ==> m[name] == subset[name]
    ensures forall name :: name in whole && name !in subset ==> m[name] == whole[name]
  {
    map name | name in whole :: if name in subset then subset[name] else whole[name]
  }

  /** The state dictionary of the whole model, updated in place. */
  class StateDict<T> {
    var entries: map<string, T>

    constructor(entries: map<string, T>)
      ensures this.entries == entries
    {
      this.entries := entries;
    }

    /** The loop over the whole model's items: each name found in the subset
        has its value copied over. The names are visited in an arbitrary
        order, which cannot matter since each step touches one name. */
    method LoadSubset(subset: map<string, T>)
      modifies this
      ensures entries == Merge(old(entries), subset)
      ensures entries.Keys == old(entries).Keys
      ensures forall name :: name in entries && name in subset ==> entries[name] == subset[name]
      ensures forall name :: name in entries && name !in subset ==> entries[name] == old(entries)[name]
    {
      var remaining := entries.Keys;
      while remaining != {}
        invariant remaining <= entries.Keys
        invariant entries.Keys == old(entries).Keys
        invariant forall name :: name in entries ==>
          entries[name] == if name in remaining || name !in subset then old(entries)[name] else subset[name]
        decreases remaining
      {
        var name :| name in remaining;
        if name in subset {
          entries := entries[name := subset[name]];
        }
        remaining := remaining - {name};
      }
    }
  }

  /** Loading the same subset twice changes nothing more. */
  lemma MergeIdempotent<T>(whole: map<string, T>, subset: map<string, T>)
    ensures Merge(Merge(whole, subset), subset) == Merge(whole, subset)
  {
  }

  /** Only the subset's entries on shared names matter: restricting the subset
      to the whole model's names gives the same result. */
  lemma MergeRestrict<T>(whole: map<string, T>, subset: map<string, T>)
    ensures Merge(whole, map name | name in subset && name in whole :: subset[name]) == Merge(whole, subset)
  {
  }

  /** An empty subset, or one with no shared name, leaves the model as it was. */
  lemma MergeDisjoint<T>(whole: map<string, T>, subset: map<string, T>)
    requires whole.Keys !! subset.Keys
    ensures Merge(whole, subset) == whole
  {
  }
}
