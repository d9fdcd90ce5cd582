/**
 * The older array helpers of `src/array.js`: `groupByAndNest` without the
 * element check and with every rest pushed, and `uniqueArray` without the
 * array check. Both reuse the definitions of `Arrays`.
 */
module ArraysLegacy {
  import opened Wrappers
  import opened Values
  import Arrays

  /** Some item is `null` or `undefined`, so reading `item[key]` from it throws. */
  predicate HasNullish(items: seq<Value>)
  {
    exists i :: 0 <= i < |items| && IsNullish(items[i])
  }

  /**
   * `groupByAndNest(array, groupByKeys, childrenKey)` of `src/array.js`: any
   * item but `null` and `undefined` is grouped, and every rest is pushed.
   */
  method GroupByAndNest(input: Value, groupByKeys: Value, childrenKey: Value, base: nat) returns (r: Result<Value>)
    ensures !input.Arr? ==> r == Err(Error("The \"array\" parameter is required and must be an array."))
    ensures input.Arr? && Arrays.NoGroupKeys(groupByKeys) ==> r == Ok(input)
    ensures input.Arr? && !Arrays.NoGroupKeys(groupByKeys) && HasNullish(input.items) ==> r == Err(TypeError)
    ensures input.Arr? && !Arrays.NoGroupKeys(groupByKeys) && !HasNullish(input.items) ==>
      r == Ok(Arr(base + 3 * |input.items|, Arrays.Grouped(input.items, Arrays.ByKeys(Arrays.KeyNames(groupByKeys), true, base), Arrays.ChildrenKeyName(childrenKey))))
  {
    if !input.Arr? {
      return Err(Error("The \"array\" parameter is required and must be an array."));
    }
    if groupByKeys.Undefined? || (groupByKeys.Arr? && |groupByKeys.items| == 0) {
      return Ok(input);
    }
    if HasNullish(input.items) {
      return Err(TypeError);
    }
    var keys := Arrays.KeyNames(groupByKeys);
    var records := Arrays.GroupItems(input.items, Arrays.ByKeys(keys, true, base), Arrays.ChildrenKeyName(childrenKey));
    return Ok(Arr(base + 3 * |input.items|, records));
  }

  /** The number of children each record holds at `childrenKey`, summed. */
  function TotalChildren(records: seq<Value>, childrenKey: string): nat
  {
    if records == [] then 0
    else
      var here := if records[0].Obj? then Lookup(records[0].fields, childrenKey) else None;
      (if here.Some? && here.value.Arr? then |here.value.items| else 0) + TotalChildren(records[1..], childrenKey)
  }

  lemma {:induction false} TotalFrom(items: seq<Value>, gr: Arrays.Grouping, childrenKey: string, p: nat)
    requires p <= |Arrays.FirstSeen(Arrays.Names(items, gr, |items|))|
    ensures var order := Arrays.FirstSeen(Arrays.Names(items, gr, |items|));
      |Arrays.Grouped(items, gr, childrenKey)| == |order|
      && TotalChildren(Arrays.Grouped(items, gr, childrenKey)[p..], childrenKey) == Arrays.ChildCount(items, gr, order[p..], |items|)
    decreases |Arrays.FirstSeen(Arrays.Names(items, gr, |items|))| - p
  {
    var order := Arrays.FirstSeen(Arrays.Names(items, gr, |items|));
    var recs := Arrays.Grouped(items, gr, childrenKey);
    if p < |order| {
      TotalFrom(items, gr, childrenKey, p + 1);
      Arrays.GroupedAt(items, gr, childrenKey, p);
      assert recs[p..][1..] == recs[p + 1..];
      assert order[p..][1..] == order[p + 1..];
    } else {
      assert recs[p..] == [];
    }
  }

  /** Every item lands in exactly one group's children, so the children number the items. */
  lemma LegacyKeepsEveryItem(items: seq<Value>, keys: seq<string>, base: nat, childrenKey: string)
    ensures TotalChildren(Arrays.Grouped(items, Arrays.ByKeys(keys, true, base), childrenKey), childrenKey) == |items|
  {
    var gr := Arrays.ByKeys(keys, true, base);
    var ks := Arrays.Names(items, gr, |items|);
    if ks == [] {
      assert Arrays.FirstSeen(ks) == [];
    } else {
      TotalFrom(items, gr, childrenKey, 0);
      var recs := Arrays.Grouped(items, gr, childrenKey);
      assert recs[0..] == recs;
      assert Arrays.FirstSeen(ks)[0..] == Arrays.FirstSeen(ks);
      Arrays.ChildCountAll(items, gr, |items|);
    }
  }

  /**
   * `uniqueArray(arr, keyForObjects)` of `src/array.js`: the same filter, but a
   * non-array has no `filter` method to call.
   */
  method UniqueArray(arr: Value, keyForObjects: Value, copyId: nat) returns (r: Result<Value>)
    ensures !arr.Arr? ==> r == Err(TypeError)
    ensures arr.Arr? ==> r == Ok(Arr(copyId, Arrays.Unique(arr.items, keyForObjects)))
  {
    if !arr.Arr? {
      return Err(TypeError);
    }
    var kept := Arrays.UniqueItems(arr.items, keyForObjects);
    return Ok(Arr(copyId, kept));
  }
}
