/**
 * The record and array helpers of `src/array/index.js`: sorting a copy by a
 * key, grouping with nested children, first-occurrence deduplication and
 * query filtering.
 */
module Arrays {
  import opened Text
  import opened Wrappers
  import opened Values
  import Utils

  // -----------------------------------------------------------------------
  // The relational operator `<`

  /** `a < b` on strings: code point by code point, a proper prefix first. */
  predicate StrLess(a: string, b: string)
  {
    if a == [] then b != []
    else if b == [] then false
    else if a[0] == b[0] then StrLess(a[1..], b[1..])
    else a[0] < b[0]
  }

  /** Two different strings are ordered one way or the other. */
  lemma {:induction false} StrLessTotal(a: string, b: string)
    ensures a == b || StrLess(a, b) || StrLess(b, a)
  {
    if a != [] && b != [] && a[0] == b[0] {
      StrLessTotal(a[1..], b[1..]);
      assert a == [a[0]] + a[1..];
      assert b == [b[0]] + b[1..];
    }
  }

  /** The primitive `<` and `>` work on: objects become their strings, a date its time value. */
  function ToPrimitive(v: Value): (p: Value)
    ensures !IsRef(p)
  {
    match v
    case DateVal(_, _) => ToNumber(v)
    case Arr(_, _) => Str(ToString(v))
    case Obj(_, _) => Str(ToString(v))
    case Re(_, _, _) => Str(ToString(v))
    case Func(_, _) => Str(ToString(v))
    case _ => v
  }

  /** `x < y`: two strings compare as strings, anything else as numbers, and NaN is never less. */
  predicate Less(x: Value, y: Value)
  {
    var px := ToPrimitive(x);
    var py := ToPrimitive(y);
    if px.Str? && py.Str? then StrLess(px.s, py.s)
    else
      var nx := ToNumber(px);
      var ny := ToNumber(py);
      nx.Num? && ny.Num? && nx.n < ny.n
  }

  // -----------------------------------------------------------------------
  // sortArrayByProperty

  /**
   * The comparator handed to `sort`: 0 for `===` keys, else -1 or 1 by `<`
   * for ascending order and by `>` for descending order.
   */
  function Compare(a: Value, b: Value, key: string, desc: bool): (c: int)
    ensures -1 <= c <= 1
    ensures c == 0 <==> StrictEquals(Get(a, key), Get(b, key))
  {
    var va := Get(a, key);
    var vb := Get(b, key);
    if StrictEquals(va, vb) then 0
    else if !desc then (if Less(va, vb) then -1 else 1)
    else (if Less(vb, va) then -1 else 1)
  }

  /** The keys of `x` and `y` are `===` or one is below the other. */
  predicate KeysComparable(x: Value, y: Value, key: string)
  {
    StrictEquals(Get(x, key), Get(y, key)) || Less(Get(x, key), Get(y, key)) || Less(Get(y, key), Get(x, key))
  }

  /** Any two items have comparable keys. */
  predicate Comparable(s: seq<Value>, key: string)
  {
    forall x, y :: x in s && y in s ==> KeysComparable(x, y, key)
  }

  /** All keys are `===` to one another. */
  predicate AllTied(s: seq<Value>, key: string)
  {
    forall i, j :: 0 <= i < |s| && 0 <= j < |s| ==> StrictEquals(Get(s[i], key), Get(s[j], key))
  }

  // The sort itself, for any comparator.

  /** A comparator is consistent on `s` when it never puts both of two items after each other. */
  predicate Consistent<T(==)>(s: seq<T>, cmp: (T, T) -> int)
  {
    forall x, y :: x in s && y in s && cmp(y, x) > 0 ==> cmp(x, y) < 0
  }

  /** No neighbour pair in `s[lo..hi]` is out of order. */
  predicate SortedRange<T>(s: seq<T>, lo: int, hi: int, cmp: (T, T) -> int)
    requires 0 <= lo && hi <= |s|
  {
    forall k :: lo < k < hi ==> cmp(s[k - 1], s[k]) <= 0
  }

  predicate SortedBy<T>(s: seq<T>, cmp: (T, T) -> int)
  {
    SortedRange(s, 0, |s|, cmp)
  }

  /** The comparator returns 0 on every pair of neighbours. */
  predicate AllEqualBy<T>(s: seq<T>, cmp: (T, T) -> int)
  {
    forall k :: 0 < k < |s| ==> cmp(s[k - 1], s[k]) == 0
  }

  /** The items of `s` that lie in `g`, in order. */
  function Picked<T(==)>(s: seq<T>, g: set<T>): (r: seq<T>)
    ensures |r| <= |s|
  {
    if s == [] then [] else (if s[0] in g then [s[0]] else []) + Picked(s[1..], g)
  }

  /** Picking distributes over concatenation. */
  lemma {:induction false} PickedAppend<T>(s: seq<T>, t: seq<T>, g: set<T>)
    ensures Picked(s + t, g) == Picked(s, g) + Picked(t, g)
  {
    if s != [] {
      assert (s + t)[0] == s[0];
      assert (s + t)[1..] == s[1..] + t;
      PickedAppend(s[1..], t, g);
    } else {
      assert s + t == t;
    }
  }

  /** `cmp` never puts one item of `g` after another: the items of `g` are tied. */
  predicate Tied<T(==)>(s: seq<T>, g: set<T>, cmp: (T, T) -> int)
  {
    forall x, y :: x in s && y in s && x in g && y in g ==> cmp(x, y) <= 0
  }

  /** Stability: every group of items of `orig` that `cmp` ties comes out of `s` in its order in `orig`. */
  ghost predicate KeepsTies<T(!new)>(s: seq<T>, orig: seq<T>, cmp: (T, T) -> int)
  {
    forall g: set<T> :: Tied(orig, g, cmp) ==> Picked(s, g) == Picked(orig, g)
  }

  /** Exchanging two neighbours that are not both in `g` leaves the picked items as they were. */
  lemma PickedSwap<T>(s: seq<T>, j: int, g: set<T>)
    requires 0 < j < |s| && !(s[j - 1] in g && s[j] in g)
    ensures Picked(s[j - 1 := s[j]][j := s[j - 1]], g) == Picked(s, g)
  {
    var t := s[j - 1 := s[j]][j := s[j - 1]];
    var front, back := s[..j - 1], s[j + 1..];
    assert s == front + ([s[j - 1], s[j]] + back);
    assert t == front + ([s[j], s[j - 1]] + back);
    PickedAppend(front, [s[j - 1], s[j]] + back, g);
    PickedAppend(front, [s[j], s[j - 1]] + back, g);
    PickedPair(s[j - 1], s[j], back, g);
  }

  /** Two neighbours that are not both in `g` can trade places. */
  lemma PickedPair<T>(x: T, y: T, back: seq<T>, g: set<T>)
    requires !(x in g && y in g)
    ensures Picked([x, y] + back, g) == Picked([y, x] + back, g)
  {
    PickedAppend([x, y], back, g);
    PickedAppend([y, x], back, g);
    assert [x, y][1..] == [y];
    assert [y, x][1..] == [x];
  }

  /** A swap of two neighbours that `cmp` puts the wrong way round keeps every tied group in order. */
  lemma SwapKeepsTies<T(!new)>(s: seq<T>, orig: seq<T>, j: int, cmp: (T, T) -> int)
    requires 0 < j < |s| && cmp(s[j - 1], s[j]) > 0
    requires multiset(s) == multiset(orig) && KeepsTies(s, orig, cmp)
    ensures KeepsTies(s[j - 1 := s[j]][j := s[j - 1]], orig, cmp)
  {
    assert s[j] in multiset(s) && s[j - 1] in multiset(s);
    assert s[j] in orig && s[j - 1] in orig;
    forall g: set<T> | Tied(orig, g, cmp)
      ensures Picked(s[j - 1 := s[j]][j := s[j - 1]], g) == Picked(orig, g)
    {
      PickedSwap(s, j, g);
    }
  }

  /** One swap of the insertion step keeps both sorted runs and the bridge between them. */
  lemma SwapStep<T>(s: seq<T>, orig: seq<T>, j: int, i: int, cmp: (T, T) -> int)
    requires 0 < j <= i < |s|
    requires multiset(s) == multiset(orig) && Consistent(orig, cmp)
    requires cmp(s[j - 1], s[j]) > 0
    requires SortedRange(s, 0, j, cmp) && SortedRange(s, j, i + 1, cmp)
    requires j < i ==> cmp(s[j - 1], s[j + 1]) <= 0
    ensures var t := s[j - 1 := s[j]][j := s[j - 1]];
      SortedRange(t, 0, j - 1, cmp) && SortedRange(t, j - 1, i + 1, cmp)
      && (0 < j - 1 < i ==> cmp(t[j - 2], t[j]) <= 0)
  {
    assert s[j] in multiset(s) && s[j - 1] in multiset(s);
    assert s[j] in orig && s[j - 1] in orig;
  }

  /**
   * `Array.prototype.sort` with comparator `cmp`, written as an in-place
   * insertion sort that moves each item left past every item the comparator
   * puts after it.
   */
  method SortWith<T(==,!new)>(a: array<T>, cmp: (T, T) -> int)
    modifies a
    ensures multiset(a[..]) == multiset(old(a[..]))
    ensures Consistent(old(a[..]), cmp) ==> SortedBy(a[..], cmp)
    ensures AllEqualBy(old(a[..]), cmp) ==> a[..] == old(a[..])
    ensures KeepsTies(a[..], old(a[..]), cmp)
  {
    ghost var orig := a[..];
    ghost var consistent := Consistent(orig, cmp);
    ghost var equal := AllEqualBy(orig, cmp);
    for i := 0 to a.Length
      invariant multiset(a[..]) == multiset(orig)
      invariant consistent ==> SortedRange(a[..], 0, i, cmp)
      invariant equal ==> a[..] == orig
      invariant KeepsTies(a[..], orig, cmp)
    {
      InsertLeft(a, i, cmp, orig, consistent);
    }
  }

  /** One insertion step: `a[i]` moves left into the sorted run `a[..i]`. */
  method InsertLeft<T(==,!new)>(a: array<T>, i: int, cmp: (T, T) -> int, ghost orig: seq<T>, ghost consistent: bool)
    requires 0 <= i < a.Length
    requires multiset(a[..]) == multiset(orig) && KeepsTies(a[..], orig, cmp)
    requires consistent ==> Consistent(orig, cmp) && SortedRange(a[..], 0, i, cmp)
    modifies a
    ensures multiset(a[..]) == multiset(orig) && KeepsTies(a[..], orig, cmp)
    ensures consistent ==> SortedRange(a[..], 0, i + 1, cmp)
    ensures i == 0 || cmp(old(a[i - 1]), old(a[i])) <= 0 ==> unchanged(a)
  {
    ghost var stays := i == 0 || cmp(a[i - 1], a[i]) <= 0;
    var j := i;
    while j > 0 && cmp(a[j - 1], a[j]) > 0
      invariant 0 <= j <= i && Inserting(a[..], orig, cmp, j, i, consistent)
      invariant stays ==> j == i && unchanged(a)
    {
      InsertTurn(a[..], orig, cmp, j, i, consistent);
      SwapLeft(a, j);
      j := j - 1;
    }
  }

  /** The state of the insertion loop with the moving item at `j`. */
  ghost predicate Inserting<T(!new)>(s: seq<T>, orig: seq<T>, cmp: (T, T) -> int, j: int, i: int, consistent: bool)
    requires 0 <= j <= i < |s|
  {
    multiset(s) == multiset(orig) && KeepsTies(s, orig, cmp)
    && (consistent ==> Consistent(orig, cmp) && SortedRange(s, 0, j, cmp) && SortedRange(s, j, i + 1, cmp))
    && (consistent ==> 0 < j < i ==> cmp(s[j - 1], s[j + 1]) <= 0)
  }

  /** One turn of the insertion loop keeps its state. */
  lemma InsertTurn<T(!new)>(s: seq<T>, orig: seq<T>, cmp: (T, T) -> int, j: int, i: int, consistent: bool)
    requires 0 < j <= i < |s| && cmp(s[j - 1], s[j]) > 0
    requires Inserting(s, orig, cmp, j, i, consistent)
    ensures Inserting(s[j - 1 := s[j]][j := s[j - 1]], orig, cmp, j - 1, i, consistent)
  {
    var t := s[j - 1 := s[j]][j := s[j - 1]];
    if consistent {
      SwapStep(s, orig, j, i, cmp);
    }
    SwapKeepsTies(s, orig, j, cmp);
    assert multiset(t) == multiset(s) by {
      SwapMultiset(s, j);
    }
  }

  lemma SwapMultiset<T>(s: seq<T>, j: int)
    requires 0 < j < |s|
    ensures multiset(s[j - 1 := s[j]][j := s[j - 1]]) == multiset(s)
  {
  }

  /** `a[j - 1]` and `a[j]` trade places. */
  method SwapLeft<T>(a: array<T>, j: int)
    requires 0 < j < a.Length
    modifies a
    ensures a[..] == old(a[..])[j - 1 := old(a[j])][j := old(a[j - 1])]
    ensures multiset(a[..]) == multiset(old(a[..]))
  {
    a[j - 1], a[j] := a[j], a[j - 1];
  }

  // Back to keys.

  /** With comparable keys the key comparator is consistent. */
  lemma ComparableConsistent(s: seq<Value>, key: string, desc: bool)
    requires Comparable(s, key)
    ensures Consistent(s, (x, y) => Compare(x, y, key, desc))
  {
    forall x, y | x in s && y in s && Compare(y, x, key, desc) > 0
      ensures Compare(x, y, key, desc) < 0
    {
      CompareFlip(x, y, key, desc);
    }
  }

  /** For comparable keys, the comparator is antisymmetric in sign. */
  lemma CompareFlip(x: Value, y: Value, key: string, desc: bool)
    requires KeysComparable(x, y, key)
    requires Compare(y, x, key, desc) > 0
    ensures Compare(x, y, key, desc) < 0
  {
  }

  /** With tied keys the key comparator returns 0 throughout. */
  lemma TiedAllEqual(s: seq<Value>, key: string, desc: bool)
    requires AllTied(s, key)
    ensures AllEqualBy(s, (x, y) => Compare(x, y, key, desc))
  {
  }

  /** Integer keys are always comparable. */
  lemma NumKeysComparable(s: seq<Value>, key: string)
    requires forall i :: 0 <= i < |s| ==> Get(s[i], key).Num?
    ensures Comparable(s, key)
  {
  }

  /** String keys are always comparable. */
  lemma StrKeysComparable(s: seq<Value>, key: string)
    requires forall i :: 0 <= i < |s| ==> Get(s[i], key).Str?
    ensures Comparable(s, key)
  {
    forall x, y | x in s && y in s
      ensures KeysComparable(x, y, key)
    {
      StrLessTotal(Get(x, key).s, Get(y, key).s);
    }
  }

  /** Sorted with integer keys: keys ascend for "asc" and descend for "desc", between any two positions. */
  lemma SortedNumKeys(s: seq<Value>, key: string, desc: bool)
    requires forall i :: 0 <= i < |s| ==> Get(s[i], key).Num?
    requires SortedBy(s, (x, y) => Compare(x, y, key, desc))
    ensures forall i, j :: 0 <= i <= j < |s| ==> if desc then Get(s[j], key).n <= Get(s[i], key).n else Get(s[i], key).n <= Get(s[j], key).n
  {
    NeighbourKeysOrdered(s, key, desc);
    ChainOrdered(KeyNumbers(s, key), desc);
  }

  /** The integer keys of `s`, in order. */
  function KeyNumbers(s: seq<Value>, key: string): (k: seq<int>)
    requires forall i :: 0 <= i < |s| ==> Get(s[i], key).Num?
    ensures |k| == |s| && forall i :: 0 <= i < |s| ==> k[i] == Get(s[i], key).n
  {
    seq(|s|, i requires 0 <= i < |s| => Get(s[i], key).n)
  }

  /** Sorted with integer keys: neighbouring keys are in the direction's order. */
  lemma NeighbourKeysOrdered(s: seq<Value>, key: string, desc: bool)
    requires forall i :: 0 <= i < |s| ==> Get(s[i], key).Num?
    requires SortedBy(s, (x, y) => Compare(x, y, key, desc))
    ensures var k := KeyNumbers(s, key);
      forall i :: 0 < i < |k| ==> if desc then k[i] <= k[i - 1] else k[i - 1] <= k[i]
  {
    var k := KeyNumbers(s, key);
    forall i | 0 < i < |s|
      ensures if desc then k[i] <= k[i - 1] else k[i - 1] <= k[i]
    {
      assert Compare(s[i - 1], s[i], key, desc) <= 0;
      NumCompareStep(s[i - 1], s[i], key, desc);
    }
  }

  /** Neighbours in order make every pair in order. */
  lemma {:induction false} ChainOrdered(k: seq<int>, desc: bool)
    requires forall i :: 0 < i < |k| ==> if desc then k[i] <= k[i - 1] else k[i - 1] <= k[i]
    ensures forall i, j :: 0 <= i <= j < |k| ==> if desc then k[j] <= k[i] else k[i] <= k[j]
  {
    if |k| > 1 {
      var t := k[..|k| - 1];
      ChainOrdered(t, desc);
      forall i, j | 0 <= i <= j < |k|
        ensures if desc then k[j] <= k[i] else k[i] <= k[j]
      {
        if j == |k| - 1 && i < j {
          assert t[i] == k[i] && t[j - 1] == k[j - 1];
        } else if j < |k| - 1 {
          assert t[i] == k[i] && t[j] == k[j];
        }
      }
    }
  }

  /** A comparison at most 0 between integer keys orders them as the direction says. */
  lemma NumCompareStep(a: Value, b: Value, key: string, desc: bool)
    requires Get(a, key).Num? && Get(b, key).Num?
    requires Compare(a, b, key, desc) <= 0
    ensures if desc then Get(b, key).n <= Get(a, key).n else Get(a, key).n <= Get(b, key).n
  {
  }

  /**
   * The element check before the copy: the first item that is not an object
   * or does not own `key`. `null` passes the `typeof` test and then fails in
   * `hasOwnProperty` with a TypeError.
   */
  function KeyCheck(items: seq<Value>, key: string): (r: Option<Failure>)
    ensures r.None? <==> forall i :: 0 <= i < |items| ==> IsObjectLike(items[i]) && HasOwn(items[i], key)
  {
    if items == [] then None
    else if TypeOf(items[0]) != "object" then Some(Error("The key \"" + key + "\" is not valid for the objects in the array."))
    else if items[0].Null? then Some(TypeError)
    else if !HasOwn(items[0], key) then Some(Error("The key \"" + key + "\" is not valid for the objects in the array."))
    else KeyCheck(items[1..], key)
  }

  /**
   * The `key` of the options `{key, order = "asc"} = {key: "name", order: "asc"}`,
   * as the property name `hasOwnProperty` and `a[key]` read.
   */
  function SortKey(options: Value): string
  {
    if options.Undefined? then "name" else ToString(Get(options, "key"))
  }

  /** The `order` of the options, "asc" when missing. */
  function SortOrder(options: Value): Value
  {
    var order := if options.Undefined? then Undefined else Get(options, "order");
    if order.Undefined? then Str("asc") else order
  }

  /** The items of `s` whose key is `===` to `v`. */
  function WithKey(s: seq<Value>, key: string, v: Value): set<Value>
  {
    set x | x in s && StrictEquals(Get(x, key), v)
  }

  /** Items whose keys are `===` to one value are tied by the key comparator. */
  lemma KeyGroupTied(s: seq<Value>, key: string, desc: bool, v: Value)
    ensures Tied(s, WithKey(s, key, v), (x, y) => Compare(x, y, key, desc))
  {
  }

  /**
   * `sortArrayByProperty(arr, options)`: destructuring `null` options throws;
   * then the checks, then a sorted copy (a new array, identity `copyId`).
   * `order.toLowerCase()` throws for an `order` that is not a string, and
   * the order is descending exactly when it lower-cases to "desc". The sort
   * is stable: the items with `===` keys keep their order.
   */
  method SortArrayByProperty(arr: Value, options: Value, copyId: nat) returns (r: Result<Value>)
    ensures options.Null? ==> r == Err(TypeError)
    ensures !options.Null? && !arr.Arr? ==> r == Err(Error("The first argument must be an array."))
    ensures !options.Null? && arr.Arr? && KeyCheck(arr.items, SortKey(options)).Some? ==> r == Err(KeyCheck(arr.items, SortKey(options)).value)
    ensures !options.Null? && arr.Arr? && KeyCheck(arr.items, SortKey(options)).None? && !SortOrder(options).Str? ==> r == Err(TypeError)
    ensures !options.Null? && arr.Arr? && KeyCheck(arr.items, SortKey(options)).None? && SortOrder(options).Str? ==> r.Ok? && r.value.Arr? && r.value.id == copyId
    ensures r.Ok? ==> multiset(r.value.items) == multiset(arr.items)
    ensures r.Ok? && Comparable(arr.items, SortKey(options)) ==>
      SortedBy(r.value.items, (x, y) => Compare(x, y, SortKey(options), Lower(SortOrder(options).s) == "desc"))
    ensures r.Ok? && AllTied(arr.items, SortKey(options)) ==> r.value.items == arr.items
    ensures r.Ok? ==> forall v :: Picked(r.value.items, WithKey(arr.items, SortKey(options), v)) == Picked(arr.items, WithKey(arr.items, SortKey(options), v))
  {
    if options.Null? {
      return Err(TypeError);
    }
    var key := SortKey(options);
    var order := SortOrder(options);
    if !Utils.IsArray(arr) {
      return Err(Error("The first argument must be an array."));
    }
    var check := KeyCheck(arr.items, key);
    if check.Some? {
      return Err(check.value);
    }
    if !order.Str? {
      return Err(TypeError);
    }
    var sorted := SortedCopy(arr.items, key, Lower(order.s) == "desc");
    return Ok(Arr(copyId, sorted));
  }

  /** The copy and its `sort` with the key comparator. */
  method SortedCopy(items: seq<Value>, key: string, desc: bool) returns (sorted: seq<Value>)
    ensures multiset(sorted) == multiset(items)
    ensures Comparable(items, key) ==> SortedBy(sorted, (x, y) => Compare(x, y, key, desc))
    ensures AllTied(items, key) ==> sorted == items
    ensures forall v :: Picked(sorted, WithKey(items, key, v)) == Picked(items, WithKey(items, key, v))
  {
    var copy := new Value[|items|](i requires 0 <= i < |items| => items[i]);
    assert copy[..] == items;
    if Comparable(items, key) {
      ComparableConsistent(items, key, desc);
    }
    if AllTied(items, key) {
      TiedAllEqual(items, key, desc);
    }
    SortWith(copy, (x, y) => Compare(x, y, key, desc));
    forall v
      ensures Picked(copy[..], WithKey(items, key, v)) == Picked(items, WithKey(items, key, v))
    {
      KeyGroupTied(items, key, desc, v);
    }
    sorted := copy[..];
  }

  // -----------------------------------------------------------------------
  // groupByAndNest

  /** `groupByKeys` as property names: the items of an array, or the one value. */
  function KeyNames(groupByKeys: Value): (ks: seq<string>)
    ensures groupByKeys.Arr? ==> |ks| == |groupByKeys.items|
    ensures !groupByKeys.Arr? ==> |ks| == 1
  {
    if groupByKeys.Arr? then seq(|groupByKeys.items|, i requires 0 <= i < |groupByKeys.items| => ToString(groupByKeys.items[i]))
    else [ToString(groupByKeys)]
  }

  /** An element as `join` writes it: `null` and `undefined` as "". */
  function JoinPart(v: Value): string
  {
    if IsNullish(v) then "" else ToString(v)
  }

  /** `vs.join(sep)`. */
  function JoinWith(vs: seq<Value>, sep: string): string
  {
    if vs == [] then ""
    else if |vs| == 1 then JoinPart(vs[0])
    else JoinPart(vs[0]) + sep + JoinWith(vs[1..], sep)
  }

  /** The values of `keys` in `item`. */
  function KeyValues(item: Value, keys: seq<string>): (vs: seq<Value>)
    ensures |vs| == |keys| && forall i :: 0 <= i < |keys| ==> vs[i] == Get(item, keys[i])
  {
    seq(|keys|, i requires 0 <= i < |keys| => Get(item, keys[i]))
  }

  /** `groupByKeys.map((key) => item[key]).join("|")`: the name of the item's group. */
  function GroupKey(item: Value, keys: seq<string>): string
  {
    JoinWith(KeyValues(item, keys), "|")
  }

  /** The `reduce` that copies each grouping key's value from `item` into a new object. */
  function HeadFields(item: Value, keys: seq<string>): (r: seq<Field>)
    ensures forall k :: k in keys ==> Lookup(r, k) == Some(Get(item, k))
    ensures forall k :: k !in keys ==> Lookup(r, k) == None
  {
    if keys == [] then []
    else
      var front := keys[..|keys| - 1];
      assert keys == front + [keys[|keys| - 1]];
      SetField(HeadFields(item, front), keys[|keys| - 1], Get(item, keys[|keys| - 1]))
  }

  /** The own enumerable properties `{...v}` copies; a string spreads into its characters. */
  function SpreadFields(v: Value): seq<Field>
  {
    match v
    case Obj(_, fields) => fields
    case Arr(_, items) => seq(|items|, i requires 0 <= i < |items| => Field(NatToString(i), items[i]))
    case Str(s) => seq(|s|, i requires 0 <= i < |s| => Field(NatToString(i), Str([s[i]])))
    case _ => []
  }

  /** `delete` of each key in turn. */
  function DeleteAll(fields: seq<Field>, keys: seq<string>): (r: seq<Field>)
    ensures forall k :: k in keys ==> Lookup(r, k) == None
    ensures forall k :: k !in keys ==> Lookup(r, k) == Lookup(fields, k)
  {
    if keys == [] then fields
    else
      var front := keys[..|keys| - 1];
      assert keys == front + [keys[|keys| - 1]];
      DeleteField(DeleteAll(fields, front), keys[|keys| - 1])
  }

  /** `rest`: a copy of the item without its grouping keys. */
  function RestFields(item: Value, keys: seq<string>): (r: seq<Field>)
    ensures forall k :: k in keys ==> Lookup(r, k) == None
    ensures forall k :: k !in keys ==> Lookup(r, k) == Lookup(SpreadFields(item), k)
  {
    DeleteAll(SpreadFields(item), keys)
  }


  /**
   * What the grouping loop does to one item, as functions of the item: the
   * name of its group, the head fields a new group takes from it, and its
   * `rest`; `keepEmpty` says whether a `rest` with no keys is still pushed,
   * and `base` is the first identity the loop hands out.
   */
  datatype Grouping = Grouping(name: Value -> string, head: Value -> seq<Field>, rest: Value -> seq<Field>, keepEmpty: bool, base: nat)

  /** The grouping of `groupByAndNest` for property names `keys`. */
  function ByKeys(keys: seq<string>, keepEmpty: bool, base: nat): Grouping
  {
    Grouping(v => GroupKey(v, keys), v => HeadFields(v, keys), v => RestFields(v, keys), keepEmpty, base)
  }

  /** The group names of the first `n` items. */
  function Names(items: seq<Value>, gr: Grouping, n: nat): (ks: seq<string>)
    requires n <= |items|
    ensures |ks| == n && forall i :: 0 <= i < n ==> ks[i] == gr.name(items[i])
  {
    seq(n, i requires 0 <= i < n => gr.name(items[i]))
  }

  /** The distinct names of `ks` in the order they first appear: the insertion order of a `Map`. */
  function FirstSeen(ks: seq<string>): (r: seq<string>)
    ensures forall k :: k in r <==> k in ks
    ensures forall p, q :: 0 <= p < q < |r| ==> r[p] != r[q]
  {
    if ks == [] then []
    else
      var front := ks[..|ks| - 1];
      assert ks == front + [ks[|ks| - 1]];
      var r := FirstSeen(front);
      if ks[|ks| - 1] in r then r else r + [ks[|ks| - 1]]
  }

  /** The first position of `g` in `ks`. */
  function FirstIndex(ks: seq<string>, g: string): (r: Option<nat>)
    ensures r.Some? <==> g in ks
    ensures r.Some? ==> r.value < |ks| && ks[r.value] == g && forall j :: 0 <= j < r.value ==> ks[j] != g
  {
    if ks == [] then None
    else if ks[0] == g then Some(0)
    else
      var r := FirstIndex(ks[1..], g);
      if r.Some? then Some(r.value + 1) else None
  }

  /** A position is the first one holding its name exactly when no earlier one does. */
  lemma FirstIndexUnique(ks: seq<string>, g: string, i: nat)
    requires i < |ks| && ks[i] == g && forall j :: 0 <= j < i ==> ks[j] != g
    ensures FirstIndex(ks, g) == Some(i)
  {
  }

  /** Appending a name keeps the position of every name already there. */
  lemma FirstIndexAppend(order: seq<string>, x: string, g: string)
    requires g in order
    ensures FirstIndex(order + [x], g) == FirstIndex(order, g)
  {
    var i := FirstIndex(order, g).value;
    FirstIndexUnique(order + [x], g, i);
  }

  /** A new name sits at the end. */
  lemma FirstIndexNew(order: seq<string>, x: string)
    requires x !in order
    ensures FirstIndex(order + [x], x) == Some(|order|)
  {
    FirstIndexUnique(order + [x], x, |order|);
  }

  /**
   * The children of group `g` after the first `n` items: each member's `rest`,
   * a new object whose identity is `base` plus the item's index.
   */
  function Children(items: seq<Value>, gr: Grouping, g: string, n: nat): seq<Value>
    requires n <= |items|
  {
    if n == 0 then []
    else
      var rest := gr.rest(items[n - 1]);
      Children(items, gr, g, n - 1)
        + (if gr.name(items[n - 1]) == g && (gr.keepEmpty || rest != []) then [Obj(gr.base + n - 1, rest)] else [])
  }

  /** A group as the `Map` holds it: its record's identity, its head fields and its children so far. */
  datatype Group = Group(id: nat, head: seq<Field>, children: seq<Value>)

  /**
   * Group `g` after the first `n` items: the record is the `p`-th group
   * created (identity `base + |items| + 2p`, its children array the next
   * identity) and takes its head from the group's first member.
   */
  function GroupAfter(items: seq<Value>, gr: Grouping, g: string, n: nat): Group
    requires n <= |items| && g in Names(items, gr, n)
  {
    var ks := Names(items, gr, n);
    Group(gr.base + |items| + 2 * FirstIndex(FirstSeen(ks), g).value,
          gr.head(items[FirstIndex(ks, g).value]),
          Children(items, gr, g, n))
  }

  /** The record a group becomes: its head fields with `childrenKey` set to the children array. */
  function Record(grp: Group, childrenKey: string): Value
  {
    Obj(grp.id, SetField(grp.head, childrenKey, Arr(grp.id + 1, grp.children)))
  }

  /** `Array.from(grouped.values())`: one record per group, in first-seen order. */
  function Grouped(items: seq<Value>, gr: Grouping, childrenKey: string): (r: seq<Value>)
  {
    var order := FirstSeen(Names(items, gr, |items|));
    seq(|order|, p requires 0 <= p < |order| => Record(GroupAfter(items, gr, order[p], |items|), childrenKey))
  }

  /** The state of the `forEach` after `n` items. */
  ghost predicate GroupState(items: seq<Value>, gr: Grouping, n: nat, order: seq<string>, grouped: map<string, Group>)
  {
    n <= |items|
    && order == FirstSeen(Names(items, gr, n))
    && (forall g :: g in grouped <==> g in order)
    && forall g :: g in grouped ==> grouped[g] == GroupAfter(items, gr, g, n)
  }

  /** The names grow by one per item. */
  lemma NamesStep(items: seq<Value>, gr: Grouping, n: nat)
    requires n < |items|
    ensures Names(items, gr, n + 1) == Names(items, gr, n) + [gr.name(items[n])]
  {
  }

  /** A name not among the first `n` items has no children yet. */
  lemma {:induction false} ChildrenUnseen(items: seq<Value>, gr: Grouping, g: string, n: nat)
    requires n <= |items| && g !in Names(items, gr, n)
    ensures Children(items, gr, g, n) == []
  {
    if n > 0 {
      NamesStep(items, gr, n - 1);
      ChildrenUnseen(items, gr, g, n - 1);
    }
  }

  /** How one item changes group `g`: a new group starts empty, and the item's group gains its `rest`. */
  lemma GroupAfterStep(items: seq<Value>, gr: Grouping, g: string, n: nat)
    requires n < |items| && g in Names(items, gr, n + 1)
    ensures var rest := gr.rest(items[n]);
      var prev := if g in Names(items, gr, n) then GroupAfter(items, gr, g, n)
                  else Group(gr.base + |items| + 2 * |FirstSeen(Names(items, gr, n))|, gr.head(items[n]), []);
      GroupAfter(items, gr, g, n + 1)
        == if g == gr.name(items[n]) && (gr.keepEmpty || rest != []) then Group(prev.id, prev.head, prev.children + [Obj(gr.base + n, rest)]) else prev
  {
    var gk := gr.name(items[n]);
    var ks := Names(items, gr, n);
    var ks' := Names(items, gr, n + 1);
    NamesStep(items, gr, n);
    var order := FirstSeen(ks);
    assert ks'[..n] == ks;
    assert FirstSeen(ks') == if gk in order then order else order + [gk];
    ChildrenNext(items, gr, g, n);
    if g in ks {
      var id := FirstIndex(order, g).value;
      var hi := FirstIndex(ks, g).value;
      FirstIndexAppend(ks, gk, g);
      if gk !in order {
        FirstIndexAppend(order, gk, g);
      }
      GroupAfterIs(items, gr, g, n, id, hi);
      GroupAfterIs(items, gr, g, n + 1, id, hi);
    } else {
      FirstIndexNew(ks, gk);
      FirstIndexNew(order, gk);
      ChildrenUnseen(items, gr, g, n);
      GroupAfterIs(items, gr, g, n + 1, |order|, n);
    }
  }

  /** The children of a group grow by the `rest` of a member with something to keep. */
  lemma ChildrenNext(items: seq<Value>, gr: Grouping, g: string, n: nat)
    requires n < |items|
    ensures var rest := gr.rest(items[n]);
      Children(items, gr, g, n + 1)
        == Children(items, gr, g, n) + if gr.name(items[n]) == g && (gr.keepEmpty || rest != []) then [Obj(gr.base + n, rest)] else []
  {
  }

  /** Group `g` from the positions of its name among the groups and among the items. */
  lemma GroupAfterIs(items: seq<Value>, gr: Grouping, g: string, n: nat, id: nat, hi: nat)
    requires n <= |items| && g in Names(items, gr, n)
    requires FirstIndex(FirstSeen(Names(items, gr, n)), g) == Some(id)
    requires FirstIndex(Names(items, gr, n), g) == Some(hi) && hi < |items|
    ensures GroupAfter(items, gr, g, n) == Group(gr.base + |items| + 2 * id, gr.head(items[hi]), Children(items, gr, g, n))
  {
  }

  /**
   * One turn of the `forEach` on the item's group: `grouped.get(groupKey)`,
   * or the record `grouped.set` creates for a new name, with the item's
   * `rest` pushed onto its children.
   */
  function NextGroup(items: seq<Value>, gr: Grouping, n: nat, order: seq<string>, grouped: map<string, Group>): Group
    requires n < |items|
  {
    var gk := gr.name(items[n]);
    var rest := gr.rest(items[n]);
    var g0 := if gk in grouped then grouped[gk] else Group(gr.base + |items| + 2 * |order|, gr.head(items[n]), []);
    if gr.keepEmpty || rest != [] then Group(g0.id, g0.head, g0.children + [Obj(gr.base + n, rest)]) else g0
  }

  /** One turn of the `forEach` keeps the state. */
  lemma GroupStep(items: seq<Value>, gr: Grouping, n: nat, order: seq<string>, grouped: map<string, Group>)
    requires n < |items| && GroupState(items, gr, n, order, grouped)
    ensures var gk := gr.name(items[n]);
      GroupState(items, gr, n + 1, if gk in grouped then order else order + [gk],
                 grouped[gk := NextGroup(items, gr, n, order, grouped)])
  {
    var gk := gr.name(items[n]);
    var ks := Names(items, gr, n);
    var ks' := Names(items, gr, n + 1);
    NamesStep(items, gr, n);
    assert ks'[..n] == ks;
    assert FirstSeen(ks') == if gk in order then order else order + [gk];
    GroupStepMap(items, gr, n, order, grouped);
  }

  /** The map part of `GroupStep`. */
  lemma GroupStepMap(items: seq<Value>, gr: Grouping, n: nat, order: seq<string>, grouped: map<string, Group>)
    requires n < |items| && GroupState(items, gr, n, order, grouped)
    ensures var grouped' := grouped[gr.name(items[n]) := NextGroup(items, gr, n, order, grouped)];
      forall g :: g in grouped' ==> g in Names(items, gr, n + 1) && grouped'[g] == GroupAfter(items, gr, g, n + 1)
  {
    var gk := gr.name(items[n]);
    var grouped' := grouped[gk := NextGroup(items, gr, n, order, grouped)];
    NamesStep(items, gr, n);
    forall g | g in grouped'
      ensures g in Names(items, gr, n + 1) && grouped'[g] == GroupAfter(items, gr, g, n + 1)
    {
      if g == gk {
        GroupStepOwn(items, gr, n, order, grouped);
      } else {
        GroupStepOther(items, gr, n, order, grouped, g);
      }
    }
  }

  /** The item's own group after one turn. */
  lemma GroupStepOwn(items: seq<Value>, gr: Grouping, n: nat, order: seq<string>, grouped: map<string, Group>)
    requires n < |items| && GroupState(items, gr, n, order, grouped)
    ensures gr.name(items[n]) in Names(items, gr, n + 1)
    ensures NextGroup(items, gr, n, order, grouped) == GroupAfter(items, gr, gr.name(items[n]), n + 1)
  {
    var gk := gr.name(items[n]);
    NamesStep(items, gr, n);
    assert Names(items, gr, n + 1)[n] == gk;
    var g0 := if gk in grouped then grouped[gk] else Group(gr.base + |items| + 2 * |order|, gr.head(items[n]), []);
    var prev := if gk in Names(items, gr, n) then GroupAfter(items, gr, gk, n)
                else Group(gr.base + |items| + 2 * |FirstSeen(Names(items, gr, n))|, gr.head(items[n]), []);
    assert (gk in grouped) == (gk in Names(items, gr, n));
    assert g0 == prev;
    GroupAfterStep(items, gr, gk, n);
  }

  /** Any other group is unchanged by one turn. */
  lemma GroupStepOther(items: seq<Value>, gr: Grouping, n: nat, order: seq<string>, grouped: map<string, Group>, g: string)
    requires n < |items| && GroupState(items, gr, n, order, grouped)
    requires g in grouped && g != gr.name(items[n])
    ensures g in Names(items, gr, n + 1) && grouped[g] == GroupAfter(items, gr, g, n + 1)
  {
    NamesStep(items, gr, n);
    assert g in Names(items, gr, n);
    assert g in Names(items, gr, n + 1);
    GroupAfterStep(items, gr, g, n);
  }

  /** The grouping loop: a `Map` from group name to group, filled item by item. */
  method GroupItems(items: seq<Value>, gr: Grouping, childrenKey: string) returns (records: seq<Value>)
    ensures records == Grouped(items, gr, childrenKey)
  {
    var order: seq<string> := [];
    var grouped: map<string, Group> := map[];
    var n := 0;
    while n < |items|
      invariant GroupState(items, gr, n, order, grouped)
    {
      GroupStep(items, gr, n, order, grouped);
      var gk := gr.name(items[n]);
      grouped := grouped[gk := NextGroup(items, gr, n, order, grouped)];
      if gk !in order {
        order := order + [gk];
      }
      n := n + 1;
    }
    records := seq(|order|, p requires 0 <= p < |order| => Record(grouped[order[p]], childrenKey));
    GroupedFromState(items, gr, childrenKey, order, grouped);
  }

  /** The final state gives the records of `Grouped`. */
  lemma GroupedFromState(items: seq<Value>, gr: Grouping, childrenKey: string, order: seq<string>, grouped: map<string, Group>)
    requires GroupState(items, gr, |items|, order, grouped)
    ensures seq(|order|, p requires 0 <= p < |order| => Record(grouped[order[p]], childrenKey)) == Grouped(items, gr, childrenKey)
  {
  }

  // Properties of the grouping.

  /** Names come out in the order of their first appearance. */
  lemma {:induction false} FirstSeenOrder(ks: seq<string>)
    ensures forall p, q :: 0 <= p < q < |FirstSeen(ks)| ==> FirstIndex(ks, FirstSeen(ks)[p]).value < FirstIndex(ks, FirstSeen(ks)[q]).value
  {
    if ks != [] {
      var front := ks[..|ks| - 1];
      var x := ks[|ks| - 1];
      assert ks == front + [x];
      FirstSeenOrder(front);
      var r := FirstSeen(front);
      forall g | g in front
        ensures FirstIndex(ks, g) == FirstIndex(front, g)
      {
        FirstIndexAppend(front, x, g);
      }
      if x !in r {
        FirstIndexNew(front, x);
      }
    }
  }

  /** Every child of group `g` is the `rest` of a member of `g`. */
  lemma {:induction false} ChildrenAreRests(items: seq<Value>, gr: Grouping, g: string, n: nat)
    requires n <= |items|
    ensures forall c :: c in Children(items, gr, g, n) ==>
      exists j :: 0 <= j < n && gr.name(items[j]) == g && c == Obj(gr.base + j, gr.rest(items[j]))
  {
    if n > 0 {
      ChildrenAreRests(items, gr, g, n - 1);
    }
  }

  /** Every value is an object, and the identities increase along `cs`. */
  predicate IdsIncrease(cs: seq<Value>)
  {
    forall a, b :: 0 <= a < b < |cs| ==> cs[a].Obj? && cs[b].Obj? && cs[a].id < cs[b].id
  }

  /** Children keep the order of their items: identities increase along the array. */
  lemma {:induction false} ChildrenInOrder(items: seq<Value>, gr: Grouping, g: string, n: nat)
    requires n <= |items|
    ensures IdsIncrease(Children(items, gr, g, n))
  {
    if n > 0 {
      ChildrenInOrder(items, gr, g, n - 1);
      ChildrenAreRests(items, gr, g, n - 1);
      var cs := Children(items, gr, g, n - 1);
      forall a | 0 <= a < |cs|
        ensures cs[a].Obj? && cs[a].id < gr.base + n - 1
      {
        assert cs[a] in cs;
      }
      var cs' := Children(items, gr, g, n);
      forall a, b | 0 <= a < b < |cs'|
        ensures cs'[a].Obj? && cs'[b].Obj? && cs'[a].id < cs'[b].id
      {
        assert cs'[a] == cs[a];
        if b < |cs| {
          assert cs'[b] == cs[b];
        } else {
          assert cs' == cs + [Obj(gr.base + n - 1, gr.rest(items[n - 1]))];
          assert cs'[a].id < gr.base + n - 1;
        }
      }
    }
  }

  /** The `rest` of item `i` is a child of group `g` exactly when `g` is the item's group (and the `rest` is kept). */
  lemma {:induction false} ChildOf(items: seq<Value>, gr: Grouping, g: string, n: nat, i: nat)
    requires i < n <= |items|
    ensures Obj(gr.base + i, gr.rest(items[i])) in Children(items, gr, g, n)
        <==> gr.name(items[i]) == g && (gr.keepEmpty || gr.rest(items[i]) != [])
  {
    var c := Obj(gr.base + i, gr.rest(items[i]));
    if i < n - 1 {
      ChildOf(items, gr, g, n - 1, i);
      ChildrenAreRests(items, gr, g, n - 1);
      assert c.id != gr.base + n - 1;
    } else {
      ChildrenAreRests(items, gr, g, n - 1);
    }
  }

  /** No child of `groupByAndNest` holds a grouping key. */
  lemma ChildrenLackKeys(items: seq<Value>, keys: seq<string>, keepEmpty: bool, base: nat, g: string, k: string)
    requires k in keys
    ensures forall c :: c in Children(items, ByKeys(keys, keepEmpty, base), g, |items|) ==> c.Obj? && Lookup(c.fields, k) == None
  {
    ChildrenAreRests(items, ByKeys(keys, keepEmpty, base), g, |items|);
  }

  /** The `p`-th record is the record of the `p`-th group name to appear. */
  lemma GroupedAt(items: seq<Value>, gr: Grouping, childrenKey: string, p: nat)
    requires p < |FirstSeen(Names(items, gr, |items|))|
    ensures var order := FirstSeen(Names(items, gr, |items|));
      && |Grouped(items, gr, childrenKey)| == |order|
      && order[p] in Names(items, gr, |items|)
      && Grouped(items, gr, childrenKey)[p] == Record(GroupAfter(items, gr, order[p], |items|), childrenKey)
      && GroupAfter(items, gr, order[p], |items|).id == gr.base + |items| + 2 * p
  {
    var order := FirstSeen(Names(items, gr, |items|));
    assert order[p] in order;
    FirstIndexUnique(order, order[p], p);
  }

  /**
   * The `p`-th record of `groupByAndNest`: `childrenKey` holds the children,
   * and every other grouping key the value of the group's first member.
   */
  lemma GroupRecordShape(items: seq<Value>, keys: seq<string>, keepEmpty: bool, base: nat, childrenKey: string, p: nat)
    requires p < |FirstSeen(Names(items, ByKeys(keys, keepEmpty, base), |items|))|
    ensures var gr := ByKeys(keys, keepEmpty, base);
      var ks := Names(items, gr, |items|);
      var g := FirstSeen(ks)[p];
      var first := items[FirstIndex(ks, g).value];
      var rec := Grouped(items, gr, childrenKey)[p];
      && g in ks
      && rec.Obj? && rec.id == base + |items| + 2 * p
      && GroupKey(first, keys) == g
      && Lookup(rec.fields, childrenKey) == Some(Arr(rec.id + 1, Children(items, gr, g, |items|)))
      && forall k :: k in keys && k != childrenKey ==> Lookup(rec.fields, k) == Some(Get(first, k))
  {
    var gr := ByKeys(keys, keepEmpty, base);
    GroupedAt(items, gr, childrenKey, p);
  }

  /** A missing value and "" give the same group name. */
  lemma MissingJoinsEmpty()
    ensures GroupKey(Obj(0, []), ["a"]) == GroupKey(Obj(1, [Field("a", Str(""))]), ["a"])
  {
    assert KeyValues(Obj(0, []), ["a"]) == [Undefined];
    assert KeyValues(Obj(1, [Field("a", Str(""))]), ["a"]) == [Str("")];
  }

  /** The total number of children over the groups named in `order`. */
  function ChildCount(items: seq<Value>, gr: Grouping, order: seq<string>, n: nat): nat
    requires n <= |items|
  {
    if order == [] then 0 else |Children(items, gr, order[0], n)| + ChildCount(items, gr, order[1..], n)
  }

  /** Item `n` adds one child to its group and none to any other. */
  lemma {:induction false} ChildCountStep(items: seq<Value>, gr: Grouping, order: seq<string>, n: nat)
    requires n < |items| && gr.keepEmpty
    requires forall p, q :: 0 <= p < q < |order| ==> order[p] != order[q]
    ensures ChildCount(items, gr, order, n + 1) == ChildCount(items, gr, order, n) + (if gr.name(items[n]) in order then 1 else 0)
  {
    if order != [] {
      ChildCountStep(items, gr, order[1..], n);
      assert forall q :: 0 <= q < |order[1..]| ==> order[1..][q] == order[q + 1];
      assert order[0] !in order[1..];
    }
  }

  lemma ChildCountAppend(items: seq<Value>, gr: Grouping, order: seq<string>, x: string, n: nat)
    requires n <= |items|
    ensures ChildCount(items, gr, order + [x], n) == ChildCount(items, gr, order, n) + |Children(items, gr, x, n)|
  {
    if order != [] {
      assert (order + [x])[1..] == order[1..] + [x];
      ChildCountAppend(items, gr, order[1..], x, n);
    } else {
      assert ([] + [x])[1..] == [];
    }
  }

  /** When every `rest` is pushed, the children of all groups together number the items. */
  lemma {:induction false} ChildCountAll(items: seq<Value>, gr: Grouping, n: nat)
    requires n <= |items| && gr.keepEmpty
    ensures ChildCount(items, gr, FirstSeen(Names(items, gr, n)), n) == n
  {
    if n > 0 {
      ChildCountAll(items, gr, n - 1);
      var ks := Names(items, gr, n - 1);
      NamesStep(items, gr, n - 1);
      var x := gr.name(items[n - 1]);
      assert Names(items, gr, n)[..n - 1] == ks;
      var order := FirstSeen(ks);
      ChildCountStep(items, gr, order, n - 1);
      if x !in order {
        ChildCountAppend(items, gr, order, x, n);
        ChildrenUnseen(items, gr, x, n - 1);
      }
    }
  }

  /** `isObject` holds for every item. */
  predicate AllObjects(items: seq<Value>)
  {
    forall i :: 0 <= i < |items| ==> Utils.IsObject(items[i])
  }

  /** `groupByKeys` is `undefined` or an empty array: the input comes back as it is. */
  predicate NoGroupKeys(groupByKeys: Value)
  {
    groupByKeys.Undefined? || (groupByKeys.Arr? && groupByKeys.items == [])
  }

  /**
   * The property name `[childrenKey]` gives: the default "children" when the
   * argument is `undefined`, and otherwise `String` of it.
   */
  function ChildrenKeyName(childrenKey: Value): (k: string)
    ensures childrenKey.Undefined? ==> k == "children"
    ensures childrenKey.Str? ==> k == childrenKey.s
  {
    if childrenKey.Undefined? then "children" else ToString(childrenKey)
  }

  /**
   * `groupByAndNest(array, groupByKeys, childrenKey)`: the checks, the
   * pass-through, then one record per group in a new array. New objects take
   * identities from `base` on: the rests, the records with their children
   * arrays, and last the result.
   */
  method GroupByAndNest(input: Value, groupByKeys: Value, childrenKey: Value, base: nat) returns (r: Result<Value>)
    ensures !input.Arr? ==> r == Err(Error("The \"array\" parameter is required and must be an array."))
    ensures input.Arr? && !AllObjects(input.items) ==> r == Err(Error("Array elements must be objects."))
    ensures input.Arr? && AllObjects(input.items) && NoGroupKeys(groupByKeys) ==> r == Ok(input)
    ensures input.Arr? && AllObjects(input.items) && !NoGroupKeys(groupByKeys) ==>
      r == Ok(Arr(base + 3 * |input.items|, Grouped(input.items, ByKeys(KeyNames(groupByKeys), false, base), ChildrenKeyName(childrenKey))))
  {
    if !Utils.IsArray(input) {
      return Err(Error("The \"array\" parameter is required and must be an array."));
    }
    if !AllObjects(input.items) {
      return Err(Error("Array elements must be objects."));
    }
    if groupByKeys.Undefined? || (Utils.IsArray(groupByKeys) && |groupByKeys.items| == 0) {
      return Ok(input);
    }
    var keys := KeyNames(groupByKeys);
    var records := GroupItems(input.items, ByKeys(keys, false, base), ChildrenKeyName(childrenKey));
    return Ok(Arr(base + 3 * |input.items|, records));
  }

  // -----------------------------------------------------------------------
  // uniqueArray

  /**
   * The identity `uniqueArray` keys its `Map` with: `item[keyForObjects]` for
   * an object when a key is given, the JSON text of an array, or the item.
   */
  function Identity(item: Value, keyForObjects: Value): Value
  {
    if Truthy(keyForObjects) && IsObjectLike(item) then Get(item, ToString(keyForObjects))
    else if item.Arr? then Str(Json(item).value)
    else item
  }

  function Identities(s: seq<Value>, keyForObjects: Value): (ids: seq<Value>)
    ensures |ids| == |s| && forall i :: 0 <= i < |s| ==> ids[i] == Identity(s[i], keyForObjects)
  {
    seq(|s|, i requires 0 <= i < |s| => Identity(s[i], keyForObjects))
  }

  /** `map.has(x)` on a map whose keys are `ids`. */
  predicate Has(ids: seq<Value>, x: Value)
  {
    exists k :: 0 <= k < |ids| && SameValueZero(ids[k], x)
  }

  /** The items `filter` keeps: each one whose identity the map does not have yet. */
  function Unique(items: seq<Value>, keyForObjects: Value): seq<Value>
  {
    if items == [] then []
    else
      var kept := Unique(items[..|items| - 1], keyForObjects);
      var x := items[|items| - 1];
      if Has(Identities(kept, keyForObjects), Identity(x, keyForObjects)) then kept else kept + [x]
  }

  /** `a` is `b` with some items left out. */
  predicate IsSubseq(a: seq<Value>, b: seq<Value>)
  {
    if b == [] then a == []
    else (a != [] && a[|a| - 1] == b[|b| - 1] && IsSubseq(a[..|a| - 1], b[..|b| - 1])) || IsSubseq(a, b[..|b| - 1])
  }

  /** The filter loop, with the map's keys as a sequence. */
  method UniqueItems(items: seq<Value>, keyForObjects: Value) returns (kept: seq<Value>)
    ensures kept == Unique(items, keyForObjects)
  {
    kept := [];
    var seen: seq<Value> := [];
    for i := 0 to |items|
      invariant kept == Unique(items[..i], keyForObjects)
      invariant seen == Identities(kept, keyForObjects)
    {
      var item := items[i];
      var id := Identity(item, keyForObjects);
      UniqueStep(items, keyForObjects, i);
      if !Has(seen, id) {
        IdentitiesAppend(kept, item, keyForObjects);
        seen := seen + [id];
        kept := kept + [item];
      }
    }
    assert items[..|items|] == items;
  }

  /** One more item through the filter. */
  lemma UniqueStep(items: seq<Value>, keyForObjects: Value, i: nat)
    requires i < |items|
    ensures var kept := Unique(items[..i], keyForObjects);
      Unique(items[..i + 1], keyForObjects)
      == if Has(Identities(kept, keyForObjects), Identity(items[i], keyForObjects)) then kept else kept + [items[i]]
  {
    assert items[..i + 1][..i] == items[..i];
  }

  lemma IdentitiesAppend(s: seq<Value>, x: Value, keyForObjects: Value)
    ensures Identities(s + [x], keyForObjects) == Identities(s, keyForObjects) + [Identity(x, keyForObjects)]
  {
  }

  /** The kept items are a subsequence of the input. */
  lemma {:induction false} UniqueSubseq(items: seq<Value>, keyForObjects: Value)
    ensures IsSubseq(Unique(items, keyForObjects), items)
  {
    if items != [] {
      var front := items[..|items| - 1];
      UniqueSubseq(front, keyForObjects);
      var kept := Unique(front, keyForObjects);
      assert (kept + [items[|items| - 1]])[..|kept|] == kept;
    }
  }

  /** No two identities in `ids` are the same value. */
  predicate DistinctIds(ids: seq<Value>)
  {
    forall p, q :: 0 <= p < q < |ids| ==> !SameValueZero(ids[p], ids[q])
  }

  /** No two kept items share an identity. */
  lemma {:induction false} UniqueDistinct(items: seq<Value>, keyForObjects: Value)
    ensures DistinctIds(Identities(Unique(items, keyForObjects), keyForObjects))
  {
    if items != [] {
      var front := items[..|items| - 1];
      UniqueDistinct(front, keyForObjects);
      var kept := Unique(front, keyForObjects);
      var x := items[|items| - 1];
      var ids := Identities(kept, keyForObjects);
      var id := Identity(x, keyForObjects);
      if !Has(ids, id) {
        var ids' := Identities(kept + [x], keyForObjects);
        assert ids' == ids + [id];
        assert forall k :: 0 <= k < |ids| ==> !SameValueZero(ids[k], id);
      }
    }
  }

  /** Every item's identity is the identity of a kept item. */
  lemma {:induction false} UniqueCovers(items: seq<Value>, keyForObjects: Value)
    ensures forall i :: 0 <= i < |items| ==> Has(Identities(Unique(items, keyForObjects), keyForObjects), Identity(items[i], keyForObjects))
  {
    if items != [] {
      var front := items[..|items| - 1];
      UniqueCovers(front, keyForObjects);
      var kept := Unique(front, keyForObjects);
      var x := items[|items| - 1];
      var ids := Identities(kept, keyForObjects);
      var ids' := Identities(Unique(items, keyForObjects), keyForObjects);
      forall i | 0 <= i < |items|
        ensures Has(ids', Identity(items[i], keyForObjects))
      {
        if i < |items| - 1 {
          assert items[i] == front[i];
          var k :| 0 <= k < |ids| && SameValueZero(ids[k], Identity(front[i], keyForObjects));
          assert ids'[k] == ids[k];
        } else if !Has(ids, Identity(x, keyForObjects)) {
          assert ids'[|kept|] == Identity(x, keyForObjects);
        }
      }
    }
  }

  /** Every kept item is an item of the input. */
  lemma {:induction false} UniqueFrom(items: seq<Value>, keyForObjects: Value)
    ensures forall m :: 0 <= m < |Unique(items, keyForObjects)| ==> Unique(items, keyForObjects)[m] in items
  {
    if items != [] {
      var front := items[..|items| - 1];
      UniqueFrom(front, keyForObjects);
      assert forall x :: x in front ==> x in items;
    }
  }

  lemma SameValueZeroTrans(a: Value, b: Value, c: Value)
    requires SameValueZero(a, b) && SameValueZero(b, c)
    ensures SameValueZero(a, c)
  {
  }

  /** The map holds an identity exactly when some item of the input has it. */
  lemma UniqueHasSame(items: seq<Value>, keyForObjects: Value, id: Value)
    ensures Has(Identities(Unique(items, keyForObjects), keyForObjects), id) <==> Has(Identities(items, keyForObjects), id)
  {
    var kept := Unique(items, keyForObjects);
    var ids, all := Identities(kept, keyForObjects), Identities(items, keyForObjects);
    if Has(ids, id) {
      var m :| 0 <= m < |ids| && SameValueZero(ids[m], id);
      UniqueFrom(items, keyForObjects);
      var k :| 0 <= k < |items| && items[k] == kept[m];
      assert SameValueZero(all[k], id);
    }
    if Has(all, id) {
      var k :| 0 <= k < |all| && SameValueZero(all[k], id);
      UniqueCovers(items, keyForObjects);
      var m :| 0 <= m < |ids| && SameValueZero(ids[m], all[k]);
      SameValueZeroTrans(ids[m], all[k], id);
    }
  }

  /** `items[i]` is the first item with its identity: no item before it has the same one. */
  predicate FirstOfItsIdentity(items: seq<Value>, keyForObjects: Value, i: nat)
    requires i < |items|
  {
    !Has(Identities(items[..i], keyForObjects), Identity(items[i], keyForObjects))
  }

  /** The input filtered, in order, to the items that are first of their identity. */
  function Firsts(items: seq<Value>, keyForObjects: Value): seq<Value>
  {
    if items == [] then []
    else
      Firsts(items[..|items| - 1], keyForObjects)
      + (if FirstOfItsIdentity(items, keyForObjects, |items| - 1) then [items[|items| - 1]] else [])
  }

  /** `uniqueArray` keeps an item exactly when no earlier item has its identity, and keeps the order. */
  lemma {:induction false} UniqueIsFirsts(items: seq<Value>, keyForObjects: Value)
    ensures Unique(items, keyForObjects) == Firsts(items, keyForObjects)
  {
    if items != [] {
      var front := items[..|items| - 1];
      UniqueIsFirsts(front, keyForObjects);
      UniqueHasSame(front, keyForObjects, Identity(items[|items| - 1], keyForObjects));
    }
  }

  /** Without a key, objects count by reference: two objects with the same fields are both kept. */
  lemma ObjectsByReference(fields: seq<Field>)
    ensures Unique([Obj(1, fields), Obj(2, fields)], Null) == [Obj(1, fields), Obj(2, fields)]
  {
    var s := [Obj(1, fields), Obj(2, fields)];
    assert s[..1] == [Obj(1, fields)];
    assert [Obj(1, fields)][..0] == [];
    assert Unique([Obj(1, fields)], Null) == [Obj(1, fields)];
    var ids := Identities([Obj(1, fields)], Null);
    assert ids == [Obj(1, fields)];
    assert !SameValueZero(ids[0], Obj(2, fields));
    assert !Has(ids, Identity(Obj(2, fields), Null));
  }

  /** The three identities share one map: the string "[1]" and the array [1] collide. */
  lemma StringMeetsArray(id: nat)
    ensures Unique([Str("[1]"), Arr(id, [Num(1)])], Null) == [Str("[1]")]
  {
    var s := [Str("[1]"), Arr(id, [Num(1)])];
    assert s[..1] == [Str("[1]")];
    assert [Str("[1]")][..0] == [];
    assert Unique([Str("[1]")], Null) == [Str("[1]")];
    assert NatToString(1) == "1";
    assert Json(Num(1)) == Some("1");
    assert JsonItems(Arr(id, [Num(1)]), 0) == "1";
    assert Identity(Arr(id, [Num(1)]), Null) == Str("[1]");
    var ids := Identities([Str("[1]")], Null);
    assert ids[0] == Str("[1]");
    assert SameValueZero(ids[0], Identity(Arr(id, [Num(1)]), Null));
  }

  /** `uniqueArray(arr, keyForObjects)`: a new array (identity `copyId`) of the first item of each identity. */
  method UniqueArray(arr: Value, keyForObjects: Value, copyId: nat) returns (r: Result<Value>)
    ensures !arr.Arr? ==> r == Err(Error("The \"arr\" parameter is required and must be an array."))
    ensures arr.Arr? ==> r == Ok(Arr(copyId, Unique(arr.items, keyForObjects)))
    ensures arr.Arr? ==> r.Ok? && r.value.items == Firsts(arr.items, keyForObjects)
  {
    if !Utils.IsArray(arr) {
      return Err(Error("The \"arr\" parameter is required and must be an array."));
    }
    var kept := UniqueItems(arr.items, keyForObjects);
    UniqueIsFirsts(arr.items, keyForObjects);
    return Ok(Arr(copyId, kept));
  }

  // -----------------------------------------------------------------------
  // filterArray

  /**
   * Whether `filterArray` keeps `item`: an object whose `item[key]` a string
   * query contains, an array query includes, or an object query has at `key`.
   * `includes` on a string refuses a regular expression with a TypeError.
   */
  function Keeps(item: Value, query: Value, key: string): Result<bool>
  {
    if !IsObjectLike(item) then Ok(false)
    else
      var v := Get(item, key);
      if query.Str? then (if v.Re? then Err(TypeError) else Ok(Contains(query.s, ToString(v))))
      else if query.Arr? then Ok(exists k :: 0 <= k < |query.items| && SameValueZero(query.items[k], v))
      else Ok(StrictEquals(v, Get(query, key)))
  }

  /** The positions of the items that the test keeps. */
  function KeptAt(items: seq<Value>, query: Value, key: string): set<int>
  {
    set i | 0 <= i < |items| && Keeps(items[i], query, key) == Ok(true)
  }

  /** One more item adds its position exactly when the test keeps it. */
  lemma KeptAtSnoc(front: seq<Value>, x: Value, query: Value, key: string)
    ensures KeptAt(front + [x], query, key)
         == KeptAt(front, query, key) + (if Keeps(x, query, key) == Ok(true) then {|front|} else {})
    ensures |front| !in KeptAt(front, query, key)
  {
    var items := front + [x];
    forall i | 0 <= i < |front| ensures items[i] == front[i] { }
  }

  /** `data.filter(...)`: the kept items in order, or the first error. */
  function FilterItems(items: seq<Value>, query: Value, key: string): (r: Result<seq<Value>>)
    ensures r.Err? <==> exists i :: 0 <= i < |items| && Keeps(items[i], query, key).Err?
    ensures r.Ok? ==> IsSubseq(r.value, items)
    ensures r.Ok? ==> forall x :: x in r.value ==> Keeps(x, query, key) == Ok(true)
    ensures r.Ok? ==> forall i :: 0 <= i < |items| && Keeps(items[i], query, key) == Ok(true) ==> items[i] in r.value
    decreases |items|
  {
    if items == [] then Ok([])
    else
      var front := items[..|items| - 1];
      var x := items[|items| - 1];
      assert items == front + [x];
      var rest := FilterItems(front, query, key);
      var keep := Keeps(x, query, key);
      if rest.Err? then rest
      else if keep.Err? then Err(keep.failure)
      else if keep.value then
        assert (rest.value + [x])[..|rest.value|] == rest.value;
        Ok(rest.value + [x])
      else Ok(rest.value)
  }

  /** The filter on one more item. */
  lemma FilterItemsSnoc(front: seq<Value>, x: Value, query: Value, key: string)
    ensures var rest, keep := FilterItems(front, query, key), Keeps(x, query, key);
      FilterItems(front + [x], query, key)
        == if rest.Err? then rest
           else if keep.Err? then Err(keep.failure)
           else if keep.value then Ok(rest.value + [x])
           else rest
  {
    var items := front + [x];
    assert items[..|items| - 1] == front;
  }

  /** The filter keeps one item per position the test keeps, so with `IsSubseq` it keeps exactly those. */
  lemma {:induction false} FilterItemsCount(items: seq<Value>, query: Value, key: string)
    requires FilterItems(items, query, key).Ok?
    ensures |FilterItems(items, query, key).value| == |KeptAt(items, query, key)|
    decreases |items|
  {
    if items == [] {
      assert KeptAt(items, query, key) == {};
    } else {
      var front := items[..|items| - 1];
      var x := items[|items| - 1];
      assert items == front + [x];
      KeptAtSnoc(front, x, query, key);
      FilterItemsSnoc(front, x, query, key);
      FilterItemsCount(front, query, key);
      KeptCount(KeptAt(front, query, key), |front|, Keeps(x, query, key) == Ok(true));
    }
  }

  lemma KeptCount(a: set<int>, n: int, add: bool)
    requires n !in a
    ensures |a + (if add then {n} else {})| == |a| + (if add then 1 else 0)
  {
    if !add {
      assert a + {} == a;
    }
  }

  /** The test's error on item `i`, with no error before it. */
  ghost predicate ThrowsFirstAt(items: seq<Value>, query: Value, key: string, i: int, e: Failure)
  {
    0 <= i < |items| && Keeps(items[i], query, key) == Err(e)
    && forall j :: 0 <= j < i ==> Keeps(items[j], query, key).Ok?
  }

  /** The error is the test's error on the first item whose test throws. */
  lemma {:induction false} FilterItemsFirstError(items: seq<Value>, query: Value, key: string)
    requires FilterItems(items, query, key).Err?
    ensures exists i :: ThrowsFirstAt(items, query, key, i, FilterItems(items, query, key).failure)
    decreases |items|
  {
    var e := FilterItems(items, query, key).failure;
    var front := items[..|items| - 1];
    var x := items[|items| - 1];
    assert items == front + [x];
    FilterItemsSnoc(front, x, query, key);
    var rest := FilterItems(front, query, key);
    if rest.Err? {
      assert rest.failure == e;
      FilterItemsFirstError(front, query, key);
      var i :| ThrowsFirstAt(front, query, key, i, e);
      ThrowsFirstExtends(front, x, query, key, i, e);
    } else {
      ThrowsLast(front, x, query, key, e);
    }
  }

  lemma ThrowsFirstExtends(front: seq<Value>, x: Value, query: Value, key: string, i: int, e: Failure)
    requires ThrowsFirstAt(front, query, key, i, e)
    ensures ThrowsFirstAt(front + [x], query, key, i, e)
  {
    SameFront(front, x);
  }

  lemma ThrowsLast(front: seq<Value>, x: Value, query: Value, key: string, e: Failure)
    requires FilterItems(front, query, key).Ok? && Keeps(x, query, key) == Err(e)
    ensures ThrowsFirstAt(front + [x], query, key, |front|, e)
  {
    SameFront(front, x);
  }

  lemma SameFront(front: seq<Value>, x: Value)
    ensures forall i :: 0 <= i < |front| ==> (front + [x])[i] == front[i]
    ensures (front + [x])[|front|] == x
  {
  }

  /**
   * `filterArray(data, query, key)`: the argument checks, then a new array
   * (identity `copyId`) of the kept items.
   */
  function FilterArray(data: Value, query: Value, key: Value, copyId: nat): (r: Result<Value>)
    ensures !data.Arr? ==> r == Err(Error("The first argument must be an array."))
    ensures data.Arr? && (query.Str? || query.Arr?) && !Truthy(key) ==> r == Err(Error("A key is required when querying with a string or an array."))
    ensures data.Arr? && (query.Obj? || query.DateVal? || query.Re?) && !Truthy(key) ==> r == Err(Error("A key is required when querying with an object."))
    ensures data.Arr? && !IsObjectLike(query) && !query.Str? ==> r == Err(Error("The second argument must be a string, an array, or an object."))
    ensures data.Arr? && (query.Str? || IsObjectLike(query)) && Truthy(key) ==>
      match FilterItems(data.items, query, ToString(key))
      case Ok(kept) => r == Ok(Arr(copyId, kept))
      case Err(e) => r == Err(e)
  {
    if !data.Arr? then Err(Error("The first argument must be an array."))
    else if !query.Str? && !IsObjectLike(query) then Err(Error("The second argument must be a string, an array, or an object."))
    else if !Truthy(key) then
      if query.Str? || query.Arr? then Err(Error("A key is required when querying with a string or an array."))
      else Err(Error("A key is required when querying with an object."))
    else
      var kept := FilterItems(data.items, query, ToString(key));
      if kept.Ok? then Ok(Arr(copyId, kept.value)) else Err(kept.failure)
  }
}
