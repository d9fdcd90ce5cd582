/**
 * `deepCompare` and the type predicates of the library's utilities.
 */
module Utils {
  import opened Text
  import opened Values
  import opened Wrappers
  import Calendar

  /** `a.getTime() === b.getTime()`: `NaN` (an invalid date) equals nothing. */
  predicate SameTime(a: Calendar.Moment, b: Calendar.Moment)
  {
    a.At? && b.At? && Calendar.TimeValue(a.t) == Calendar.TimeValue(b.t)
  }

  /**
   * The value of the `i`-th own enumerable key of `a`, which is what
   * `a[Object.keys(a)[i]]` reads (see `OwnValueIsGet`).
   */
  function OwnValue(a: Value, i: nat): Value
    requires i < |OwnKeys(a)|
  {
    match a
    case Arr(_, items) => items[i]
    case Obj(_, fields) => fields[i].val
    case Str(s) => Str([s[i]])
  }

  lemma IndexKeyIsIndex(i: nat, n: nat)
    requires i < n
    ensures IsIndexBelow(NatToString(i), n) && DigitsValue(NatToString(i)) == i
  {
    NatToStringRoundTrip(i);
  }

  lemma {:induction false} LookupDistinct(fields: seq<Field>, i: nat)
    requires DistinctKeys(fields) && i < |fields|
    ensures Lookup(fields, fields[i].key) == Some(fields[i].val)
  {
    if i > 0 {
      assert fields[0].key != fields[i].key;
      LookupDistinct(fields[1..], i - 1);
    }
  }

  predicate WellKeyed(a: Value)
  {
    a.Obj? ==> DistinctKeys(a.fields)
  }

  lemma OwnValueIsGet(a: Value, i: nat)
    requires i < |OwnKeys(a)| && WellKeyed(a)
    ensures Get(a, OwnKeys(a)[i]) == OwnValue(a, i)
  {
    match a
    case Arr(_, items) => IndexKeyIsIndex(i, |items|);
    case Obj(_, fields) => LookupDistinct(fields, i);
    case Str(s) => IndexKeyIsIndex(i, |s|);
  }

  /** `deepCompare(a, b)`, branch for branch. */
  function DeepCompare(a: Value, b: Value): bool
    decreases a, 1, 0
  {
    // `a === b`; the `+0`/`-0` test that follows is true for every integer.
    if StrictEquals(a, b) then true
    else if IsNullish(a) || IsNullish(b) then false
    else if TypeOf(a) != TypeOf(b) then false
    else if a.DateVal? && b.DateVal? then SameTime(a.moment, b.moment)
    else if a.Re? && b.Re? then a.source == b.source && a.flags == b.flags
    else if TypeOf(a) != "object" then false
    else if a.Arr? && b.Arr? then |a.items| == |b.items| && ItemsCompare(a, b, 0)
    else |OwnKeys(a)| == |OwnKeys(b)| && KeysCompare(a, b, 0)
  }

  /** The element loop: items `i..` of the two arrays compare equal. */
  function ItemsCompare(a: Value, b: Value, i: nat): bool
    requires a.Arr? && b.Arr? && |a.items| == |b.items| && i <= |a.items|
    decreases a, 0, |a.items| - i
  {
    i == |a.items| || (DeepCompare(a.items[i], b.items[i]) && ItemsCompare(a, b, i + 1))
  }

  /** The key loop: from the `i`-th key of `a` on, `b` owns the key and the values compare equal. */
  function KeysCompare(a: Value, b: Value, i: nat): bool
    requires IsObjectLike(a) && i <= |OwnKeys(a)|
    decreases a, 0, |OwnKeys(a)| - i
  {
    i == |OwnKeys(a)|
    || (var key := OwnKeys(a)[i];
        HasOwn(b, key)
        && (match a
            case Arr(_, items) => DeepCompare(items[i], Get(b, key))
            case Obj(_, fields) => DeepCompare(fields[i].val, Get(b, key))
            case _ => false)
        && KeysCompare(a, b, i + 1))
  }

  lemma {:induction false} ItemsCompareAll(a: Value, b: Value, i: nat)
    requires a.Arr? && b.Arr? && |a.items| == |b.items| && i <= |a.items|
    ensures ItemsCompare(a, b, i) <==> forall k :: i <= k < |a.items| ==> DeepCompare(a.items[k], b.items[k])
    decreases |a.items| - i
  {
    if i < |a.items| {
      ItemsCompareAll(a, b, i + 1);
    }
  }

  predicate KeyHolds(a: Value, b: Value, k: nat)
    requires k < |OwnKeys(a)|
  {
    HasOwn(b, OwnKeys(a)[k]) && DeepCompare(OwnValue(a, k), Get(b, OwnKeys(a)[k]))
  }

  lemma KeysCompareStep(a: Value, b: Value, i: nat)
    requires IsObjectLike(a) && i < |OwnKeys(a)|
    ensures KeysCompare(a, b, i) == (KeyHolds(a, b, i) && KeysCompare(a, b, i + 1))
  {
  }

  lemma {:induction false} KeysCompareAll(a: Value, b: Value, i: nat)
    requires IsObjectLike(a) && i <= |OwnKeys(a)|
    ensures KeysCompare(a, b, i) <==> forall k :: i <= k < |OwnKeys(a)| ==> KeyHolds(a, b, k)
    decreases |OwnKeys(a)| - i
  {
    if i < |OwnKeys(a)| {
      KeysCompareStep(a, b, i);
      KeysCompareAll(a, b, i + 1);
      KeysHoldSplit(a, b, i);
    }
  }

  /** The keys from `i` on hold exactly when key `i` and those after it do. */
  lemma KeysHoldSplit(a: Value, b: Value, i: nat)
    requires i < |OwnKeys(a)|
    ensures (forall k :: i <= k < |OwnKeys(a)| ==> KeyHolds(a, b, k))
        <==> KeyHolds(a, b, i) && forall k :: i + 1 <= k < |OwnKeys(a)| ==> KeyHolds(a, b, k)
  {
    if KeyHolds(a, b, i) && forall k :: i + 1 <= k < |OwnKeys(a)| ==> KeyHolds(a, b, k) {
      forall k | i <= k < |OwnKeys(a)| ensures KeyHolds(a, b, k) {
        if k > i {
          assert i + 1 <= k;
        }
      }
    }
  }

  /** Strictly equal values compare equal; so does every value but `NaN` with itself. */
  lemma DeepCompareStrict(a: Value, b: Value)
    ensures StrictEquals(a, b) ==> DeepCompare(a, b)
    ensures !a.NaN? ==> DeepCompare(a, a)
  {
    if !a.NaN? {
      assert StrictEquals(a, a);
    }
  }

  /** `null` and `undefined` equal only themselves; values of different `typeof` never compare equal. */
  lemma DeepCompareNullishAndTypes(a: Value, b: Value)
    ensures IsNullish(a) || IsNullish(b) ==> (DeepCompare(a, b) <==> a == b && IsNullish(a))
    ensures TypeOf(a) != TypeOf(b) ==> !DeepCompare(a, b)
  {
  }

  /** Two dates compare equal exactly when they are one object or have the same time value. */
  lemma DeepCompareDates(a: Value, b: Value)
    requires a.DateVal? && b.DateVal?
    ensures DeepCompare(a, b) <==> a.id == b.id || SameTime(a.moment, b.moment)
  {
  }

  /** Two regular expressions compare equal exactly when they are one object or have the same source and flags. */
  lemma DeepCompareRegExps(a: Value, b: Value)
    requires a.Re? && b.Re?
    ensures DeepCompare(a, b) <==> a.id == b.id || (a.source == b.source && a.flags == b.flags)
  {
  }

  /** Two arrays compare equal exactly when they are one object or agree in length and element by element. */
  lemma DeepCompareArrays(a: Value, b: Value)
    requires a.Arr? && b.Arr?
    ensures DeepCompare(a, b) <==>
      (a.id == b.id || (|a.items| == |b.items| && forall k :: 0 <= k < |a.items| ==> DeepCompare(a.items[k], b.items[k])))
  {
    if |a.items| == |b.items| {
      ItemsCompareAll(a, b, 0);
    }
  }

  /**
   * Any other pair of distinct objects, an array against a plain object
   * included, compares equal exactly when both have as many own enumerable
   * keys and every key of `a` is an own property of `b` holding an equal
   * value.
   */
  lemma DeepCompareObjects(a: Value, b: Value)
    requires IsObjectLike(a) && IsObjectLike(b) && a.id != b.id
    requires !(a.Arr? && b.Arr?) && !(a.DateVal? && b.DateVal?) && !(a.Re? && b.Re?)
    requires WellKeyed(a)
    ensures DeepCompare(a, b) <==>
      (|OwnKeys(a)| == |OwnKeys(b)|
       && forall k :: 0 <= k < |OwnKeys(a)| ==>
         HasOwn(b, OwnKeys(a)[k]) && DeepCompare(Get(a, OwnKeys(a)[k]), Get(b, OwnKeys(a)[k])))
  {
    DeepCompareObjectBranch(a, b);
    KeysCompareAll(a, b, 0);
    KeyHoldsMeans(a, b);
  }

  /** Two distinct objects that are not both arrays, dates or regular expressions reach the key loop. */
  lemma DeepCompareObjectBranch(a: Value, b: Value)
    requires IsObjectLike(a) && IsObjectLike(b) && a.id != b.id
    requires !(a.Arr? && b.Arr?) && !(a.DateVal? && b.DateVal?) && !(a.Re? && b.Re?)
    ensures DeepCompare(a, b) == (|OwnKeys(a)| == |OwnKeys(b)| && KeysCompare(a, b, 0))
  {
  }

  /** Key `k` holds when `b` owns it and the values under it compare equal. */
  lemma KeyHoldsMeans(a: Value, b: Value)
    requires WellKeyed(a)
    ensures forall k :: 0 <= k < |OwnKeys(a)| ==>
      (KeyHolds(a, b, k) <==> HasOwn(b, OwnKeys(a)[k]) && DeepCompare(Get(a, OwnKeys(a)[k]), Get(b, OwnKeys(a)[k])))
  {
    forall k | 0 <= k < |OwnKeys(a)|
      ensures KeyHolds(a, b, k) <==>
        HasOwn(b, OwnKeys(a)[k]) && DeepCompare(Get(a, OwnKeys(a)[k]), Get(b, OwnKeys(a)[k]))
    {
      OwnValueIsGet(a, k);
    }
  }

  /** `deepCompare([], {})` is true: the array branch needs two arrays. */
  lemma EmptyArrayEqualsEmptyObject()
    ensures DeepCompare(Arr(0, []), Obj(1, []))
  {
  }

  /**
   * `b` is a copy of `a`: the same structure, with objects possibly at new
   * identities, except that functions stay the same object; and neither
   * holds `NaN` or an invalid date.
   */
  predicate Twin(a: Value, b: Value)
    decreases a
  {
    match a
    case Arr(_, items) =>
      b.Arr? && |b.items| == |items| && forall k :: 0 <= k < |items| ==> Twin(items[k], b.items[k])
    case Obj(_, fields) =>
      b.Obj? && DistinctKeys(fields) && |b.fields| == |fields|
      && forall k :: 0 <= k < |fields| ==> fields[k].key == b.fields[k].key && Twin(fields[k].val, b.fields[k].val)
    case DateVal(_, m) => b.DateVal? && m.At? && b.moment == m
    case Re(_, source, flags) => b.Re? && b.source == source && b.flags == flags
    case NaN => false
    case _ => b == a
  }

  lemma TwinKeys(a: Value, b: Value)
    requires Twin(a, b)
    ensures OwnKeys(a) == OwnKeys(b)
  {
    if a.Obj? {
      assert Keys(a.fields) == Keys(b.fields);
    }
  }

  /** A structural copy compares equal to its original. */
  lemma {:induction false} TwinsCompareEqual(a: Value, b: Value)
    requires Twin(a, b)
    ensures DeepCompare(a, b)
    decreases a
  {
    match a
    case Arr(_, items) =>
      forall k | 0 <= k < |items|
        ensures DeepCompare(items[k], b.items[k])
      {
        TwinsCompareEqual(items[k], b.items[k]);
      }
      DeepCompareArrays(a, b);
    case Obj(_, fields) =>
      if a.id != b.id {
        TwinKeys(a, b);
        forall k | 0 <= k < |fields|
          ensures HasOwn(b, OwnKeys(a)[k]) && DeepCompare(Get(a, OwnKeys(a)[k]), Get(b, OwnKeys(a)[k]))
        {
          assert DistinctKeys(b.fields) by {
            assert forall i :: 0 <= i < |fields| ==> b.fields[i].key == fields[i].key;
          }
          OwnValueIsGet(a, k);
          OwnValueIsGet(b, k);
          TwinsCompareEqual(fields[k].val, b.fields[k].val);
        }
        DeepCompareObjects(a, b);
      }
    case DateVal(_, m) =>
    case Re(_, _, _) =>
    case _ =>
  }

  /**
   * `deepCompare` is not symmetric: `{length: 1}` equals `[5]`, because
   * `hasOwnProperty` sees an array's non-enumerable `length`, but `[5]`
   * does not equal `{length: 1}`, which has no key "0".
   */
  lemma DeepCompareAsymmetric()
    ensures DeepCompare(Obj(1, [Field("length", Num(1))]), Arr(2, [Num(5)]))
    ensures !DeepCompare(Arr(2, [Num(5)]), Obj(1, [Field("length", Num(1))]))
  {
    var o := Obj(1, [Field("length", Num(1))]);
    var a := Arr(2, [Num(5)]);
    assert DeepCompare(Num(1), Num(1));
    assert KeysCompare(o, a, 1);
    assert OwnKeys(a) == ["0"];
    assert !HasOwn(o, "0");
  }

  /** Every object inside `v` has distinct keys. */
  predicate DeepWellKeyed(v: Value)
    decreases v
  {
    match v
    case Arr(_, items) => forall k :: 0 <= k < |items| ==> DeepWellKeyed(items[k])
    case Obj(_, fields) => DistinctKeys(fields) && forall k :: 0 <= k < |fields| ==> DeepWellKeyed(fields[k].val)
    case _ => true
  }

  /**
   * Deep equality as the comments of `deepCompare` describe it: `NaN`
   * equals `NaN` (SameValueZero instead of `===`), an array equals only an
   * array, a date only a date, a regular expression only a regular
   * expression, and plain objects compare their own enumerable keys only.
   */
  function DeepEqual(a: Value, b: Value): bool
    decreases a, 1, 0
  {
    if SameValueZero(a, b) then true
    else if IsNullish(a) || IsNullish(b) then false
    else if TypeOf(a) != TypeOf(b) then false
    else if a.DateVal? || b.DateVal? then a.DateVal? && b.DateVal? && SameTime(a.moment, b.moment)
    else if a.Re? || b.Re? then a.Re? && b.Re? && a.source == b.source && a.flags == b.flags
    else if TypeOf(a) != "object" then false
    else if a.Arr? || b.Arr? then a.Arr? && b.Arr? && |a.items| == |b.items| && ItemsEqual(a, b, 0)
    else a.Obj? && b.Obj? && |a.fields| == |b.fields| && FieldsEqual(a, b, 0)
  }

  function ItemsEqual(a: Value, b: Value, i: nat): bool
    requires a.Arr? && b.Arr? && |a.items| == |b.items| && i <= |a.items|
    decreases a, 0, |a.items| - i
  {
    i == |a.items| || (DeepEqual(a.items[i], b.items[i]) && ItemsEqual(a, b, i + 1))
  }

  function FieldsEqual(a: Value, b: Value, i: nat): bool
    requires a.Obj? && b.Obj? && i <= |a.fields|
    decreases a, 0, |a.fields| - i
  {
    i == |a.fields|
    || (var f := a.fields[i];
        var r := Lookup(b.fields, f.key);
        r.Some? && DeepEqual(f.val, r.value) && FieldsEqual(a, b, i + 1))
  }

  lemma {:induction false} ItemsEqualAll(a: Value, b: Value, i: nat)
    requires a.Arr? && b.Arr? && |a.items| == |b.items| && i <= |a.items|
    ensures ItemsEqual(a, b, i) <==> forall k :: i <= k < |a.items| ==> DeepEqual(a.items[k], b.items[k])
    decreases |a.items| - i
  {
    if i < |a.items| {
      ItemsEqualAll(a, b, i + 1);
    }
  }

  predicate FieldHolds(a: Value, b: Value, k: nat)
    requires a.Obj? && b.Obj? && k < |a.fields|
  {
    var r := Lookup(b.fields, a.fields[k].key);
    r.Some? && DeepEqual(a.fields[k].val, r.value)
  }

  lemma {:induction false} FieldsEqualAll(a: Value, b: Value, i: nat)
    requires a.Obj? && b.Obj? && i <= |a.fields|
    ensures FieldsEqual(a, b, i) <==> forall k :: i <= k < |a.fields| ==> FieldHolds(a, b, k)
    decreases |a.fields| - i
  {
    if i < |a.fields| {
      FieldsEqualStep(a, b, i);
      FieldsEqualAll(a, b, i + 1);
      FieldsHoldSplit(a, b, i);
    }
  }

  lemma FieldsEqualStep(a: Value, b: Value, i: nat)
    requires a.Obj? && b.Obj? && i < |a.fields|
    ensures FieldsEqual(a, b, i) == (FieldHolds(a, b, i) && FieldsEqual(a, b, i + 1))
  {
  }

  /** The fields from `i` on hold exactly when field `i` and those after it do. */
  lemma FieldsHoldSplit(a: Value, b: Value, i: nat)
    requires a.Obj? && b.Obj? && i < |a.fields|
    ensures (forall k :: i <= k < |a.fields| ==> FieldHolds(a, b, k))
        <==> FieldHolds(a, b, i) && forall k :: i + 1 <= k < |a.fields| ==> FieldHolds(a, b, k)
  {
    if FieldHolds(a, b, i) && forall k :: i + 1 <= k < |a.fields| ==> FieldHolds(a, b, k) {
      forall k | i <= k < |a.fields| ensures FieldHolds(a, b, k) {
        if k > i {
          assert i + 1 <= k;
        }
      }
    }
  }

  function KeySet(fields: seq<Field>): set<string>
  {
    set k | k in Keys(fields)
  }

  lemma {:induction false} DistinctKeySetSize(fields: seq<Field>)
    requires DistinctKeys(fields)
    ensures |KeySet(fields)| == |fields|
  {
    if fields != [] {
      var tail := fields[1..];
      DistinctKeySetSize(tail);
      assert Keys(fields) == [fields[0].key] + Keys(tail);
      assert KeySet(fields) == KeySet(tail) + {fields[0].key};
      forall j | 0 <= j < |tail| ensures Keys(tail)[j] != fields[0].key {
        assert Keys(tail)[j] == fields[j + 1].key;
      }
      assert fields[0].key !in KeySet(tail);
    }
  }

  lemma SubsetOfSameSize(x: set<string>, y: set<string>)
    requires x <= y && |x| == |y|
    ensures x == y
  {
    assert |y - x| == |y| - |x|;
  }

  /** Two objects with distinct keys, as many of each, and every key of `a` in `b` have the same keys. */
  lemma SameKeySets(a: seq<Field>, b: seq<Field>)
    requires DistinctKeys(a) && DistinctKeys(b) && |a| == |b|
    requires forall k :: 0 <= k < |a| ==> a[k].key in Keys(b)
    ensures forall j :: 0 <= j < |b| ==> b[j].key in Keys(a)
  {
    DistinctKeySetSize(a);
    DistinctKeySetSize(b);
    forall x | x in KeySet(a) ensures x in KeySet(b) {
      var i :| 0 <= i < |a| && Keys(a)[i] == x;
    }
    SubsetOfSameSize(KeySet(a), KeySet(b));
    forall j | 0 <= j < |b| ensures b[j].key in Keys(a) {
      assert Keys(b)[j] == b[j].key;
      assert b[j].key in KeySet(b);
    }
  }

  lemma LookupIndex(fields: seq<Field>, key: string) returns (i: nat)
    requires DistinctKeys(fields) && key in Keys(fields)
    ensures i < |fields| && fields[i].key == key && Lookup(fields, key) == Some(fields[i].val)
  {
    i :| 0 <= i < |fields| && Keys(fields)[i] == key;
    LookupDistinct(fields, i);
  }

  /** The corrected deep equality is symmetric on values whose objects have distinct keys. */
  lemma {:induction false} DeepEqualSymmetric(a: Value, b: Value)
    requires DeepWellKeyed(a) && DeepWellKeyed(b)
    ensures DeepEqual(a, b) ==> DeepEqual(b, a)
    decreases a, 1
  {
    if DeepEqual(a, b) && !SameValueZero(a, b) {
      if a.Arr? {
        ArraysSymmetric(a, b);
      } else if a.Obj? {
        ObjectsSymmetric(a, b);
      }
    }
  }

  lemma ArraysSymmetric(a: Value, b: Value)
    requires a.Arr? && DeepWellKeyed(a) && DeepWellKeyed(b)
    requires DeepEqual(a, b) && !StrictEquals(a, b)
    ensures DeepEqual(b, a)
    decreases a, 0
  {
    assert b.Arr? && |a.items| == |b.items|;
    ItemsEqualAll(a, b, 0);
    ItemsEqualAll(b, a, 0);
    forall k | 0 <= k < |a.items| ensures DeepEqual(b.items[k], a.items[k]) {
      DeepEqualSymmetric(a.items[k], b.items[k]);
    }
  }

  lemma ObjectsSymmetric(a: Value, b: Value)
    requires a.Obj? && DeepWellKeyed(a) && DeepWellKeyed(b)
    requires DeepEqual(a, b) && !StrictEquals(a, b)
    ensures DeepEqual(b, a)
    decreases a, 0
  {
    assert b.Obj? && |a.fields| == |b.fields|;
    FieldsEqualAll(a, b, 0);
    FieldsEqualAll(b, a, 0);
    forall k | 0 <= k < |a.fields| ensures a.fields[k].key in Keys(b.fields) {
      assert FieldHolds(a, b, k);
    }
    SameKeySets(a.fields, b.fields);
    forall j | 0 <= j < |b.fields| ensures FieldHolds(b, a, j) {
      var i := LookupIndex(a.fields, b.fields[j].key);
      assert FieldHolds(a, b, i);
      LookupDistinct(b.fields, j);
      DeepEqualSymmetric(a.fields[i].val, b.fields[j].val);
    }
  }

  /** As written, `deepCompare(NaN, NaN)` is false, alone and inside arrays. */
  lemma DeepCompareNaN()
    ensures !DeepCompare(NaN, NaN)
    ensures !DeepCompare(Arr(1, [NaN]), Arr(2, [NaN]))
  {
    assert !ItemsCompare(Arr(1, [NaN]), Arr(2, [NaN]), 0);
  }

  /** The corrected equality equates `NaN` with itself, alone and inside arrays. */
  lemma DeepEqualNaN()
    ensures DeepEqual(NaN, NaN)
    ensures DeepEqual(Arr(1, [NaN]), Arr(2, [NaN]))
  {
    assert ItemsEqual(Arr(1, [NaN]), Arr(2, [NaN]), 1);
  }

  /** On the counterexample to symmetry, the corrected equality says false both ways. */
  lemma DeepEqualOnAsymmetricPair()
    ensures !DeepEqual(Obj(1, [Field("length", Num(1))]), Arr(2, [Num(5)]))
    ensures !DeepEqual(Arr(2, [Num(5)]), Obj(1, [Field("length", Num(1))]))
  {
  }

  // -----------------------------------------------------------------------
  // The type predicates

  /** `isObject`: a non-null object that is not an array (a date or a regular expression counts). */
  function IsObject(v: Value): (r: bool)
    ensures r <==> IsObjectLike(v) && !v.Arr?
  {
    if v.Null? then false
    else if TypeOf(v) != "object" || TypeOf(v) == "function" then false
    else if v.Arr? then false
    else true
  }

  /** `isArray`, which is `Array.isArray`: exactly the values that `type` names "Array". */
  function IsArray(v: Value): (r: bool)
    ensures r <==> Type(v) == "Array"
  {
    v.Arr?
  }

  /**
   * `isNaN`, which is `Number.isNaN`: no conversion, only the number `NaN`,
   * the one value that is not `===` to itself.
   */
  function IsNaN(v: Value): (r: bool)
    ensures r <==> !StrictEquals(v, v)
  {
    v.NaN?
  }

  /** `type` names "NaN" exactly the values `isNaN` accepts. */
  lemma IsNaNByType(v: Value)
    ensures IsNaN(v) <==> Type(v) == "NaN"
  {
    TypeNames(v);
  }

  /** The class name in `Object.prototype.toString.call(v)`. */
  function TagName(v: Value): string
  {
    match v
    case Undefined => "Undefined"
    case Null => "Null"
    case Bool(_) => "Boolean"
    case Num(_) => "Number"
    case NaN => "Number"
    case Str(_) => "String"
    case Arr(_, _) => "Array"
    case Obj(_, _) => "Object"
    case DateVal(_, _) => "Date"
    case Re(_, _, _) => "RegExp"
    case Func(_, _) => "Function"
  }

  /** `Object.prototype.toString.call(v)`. */
  function BuiltinTag(v: Value): string
  {
    "[object " + TagName(v) + "]"
  }

  /** `type(v)`: "Null", "Undefined", "NaN", or the built-in tag with "[object " and "]" cut off. */
  function Type(v: Value): (r: string)
    ensures !v.Null? && !v.Undefined? && !v.NaN? ==> r == TagName(v)
  {
    if v.Null? then "Null"
    else if v.Undefined? then "Undefined"
    else if IsNaN(v) then "NaN"
    else
      var tag := BuiltinTag(v);
      assert tag[8..|tag| - 1] == TagName(v);
      tag[8..|tag| - 1]
  }

  /** The names `type` gives, one per kind of value. */
  lemma TypeNames(v: Value)
    ensures Type(v) == "NaN" <==> v.NaN?
    ensures Type(v) == "Number" <==> v.Num?
    ensures Type(v) == "Array" <==> v.Arr?
    ensures Type(v) == "Object" <==> v.Obj?
    ensures Type(v) == "Date" <==> v.DateVal?
    ensures Type(v) == "RegExp" <==> v.Re?
    ensures Type(v) == "String" <==> v.Str?
    ensures Type(v) == "Boolean" <==> v.Bool?
    ensures Type(v) == "Function" <==> v.Func?
    ensures Type(v) == "Null" <==> v.Null?
    ensures Type(v) == "Undefined" <==> v.Undefined?
  {
  }
}
