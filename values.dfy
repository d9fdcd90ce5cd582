/**
 * JavaScript values as the library's functions see them, and the few
 * language operations they rely on: `typeof`, truthiness, `===`, the
 * SameValueZero equality of `Map` keys and `includes`, property access,
 * `String(v)` and `JSON.stringify`.
 *
 * Numbers are the integers plus `NaN`. Every object carries an identity
 * (`id`); `===` compares objects by identity, and two values with the same
 * identity are the same object. The fields of a plain object are listed
 * in property order, so `Object.keys` reads them in sequence.
 */
module Values {
  import opened Text
  import opened Wrappers
  import Calendar

  datatype Value =
    | Undefined
    | Null
    | Bool(b: bool)
    | Num(n: int)
    | NaN
    | Str(s: string)
    | Arr(id: nat, items: seq<Value>)
    | Obj(id: nat, fields: seq<Field>)
    | DateVal(id: nat, moment: Calendar.Moment)
    | Re(id: nat, source: string, flags: string)
    | Func(id: nat, code: string)

  datatype Field = Field(key: string, val: Value)

  predicate IsRef(v: Value)
  {
    v.Arr? || v.Obj? || v.DateVal? || v.Re? || v.Func?
  }

  /** `typeof v`. */
  function TypeOf(v: Value): string
  {
    match v
    case Undefined => "undefined"
    case Bool(_) => "boolean"
    case Num(_) => "number"
    case NaN => "number"
    case Str(_) => "string"
    case Func(_, _) => "function"
    case _ => "object"
  }

  /** `typeof v === "object" && v !== null`. */
  predicate IsObjectLike(v: Value)
  {
    v.Arr? || v.Obj? || v.DateVal? || v.Re?
  }

  /** Whether `if (v)` takes its branch. */
  predicate Truthy(v: Value)
  {
    match v
    case Undefined => false
    case Null => false
    case Bool(b) => b
    case Num(n) => n != 0
    case NaN => false
    case Str(s) => s != []
    case _ => true
  }

  /** The kind of object a reference points to. */
  function RefKind(v: Value): nat
  {
    match v
    case Arr(_, _) => 1
    case Obj(_, _) => 2
    case DateVal(_, _) => 3
    case Re(_, _, _) => 4
    case Func(_, _) => 5
    case _ => 0
  }

  /** `a === b`: objects are one and the same, primitives are equal and not `NaN`. */
  predicate StrictEquals(a: Value, b: Value)
  {
    if IsRef(a) || IsRef(b) then IsRef(a) && IsRef(b) && RefKind(a) == RefKind(b) && a.id == b.id
    else !a.NaN? && a == b
  }

  /** SameValueZero: `===`, except that `NaN` equals itself. */
  predicate SameValueZero(a: Value, b: Value)
  {
    StrictEquals(a, b) || (a.NaN? && b.NaN?)
  }

  /** `a == null`: `a` is `null` or `undefined`. */
  predicate IsNullish(a: Value)
  {
    a.Undefined? || a.Null?
  }

  // -----------------------------------------------------------------------
  // Properties

  /** `key` is the canonical numeral of an array index below `n`. */
  predicate IsIndexBelow(key: string, n: nat)
  {
    (forall i :: 0 <= i < |key| ==> IsDigit(key[i]))
    && key != [] && NatToString(DigitsValue(key)) == key && DigitsValue(key) < n
  }

  function Keys(fields: seq<Field>): (ks: seq<string>)
    ensures |ks| == |fields|
    ensures forall i :: 0 <= i < |fields| ==> ks[i] == fields[i].key
  {
    if fields == [] then [] else [fields[0].key] + Keys(fields[1..])
  }

  function IndexKeys(n: nat): (ks: seq<string>)
    ensures |ks| == n
    ensures forall i :: 0 <= i < n ==> ks[i] == NatToString(i)
  {
    seq(n, i requires 0 <= i < n => NatToString(i))
  }

  /** `Object.keys(v)`: the own enumerable string keys. */
  function OwnKeys(v: Value): seq<string>
  {
    match v
    case Arr(_, items) => IndexKeys(|items|)
    case Obj(_, fields) => Keys(fields)
    case Str(s) => IndexKeys(|s|)
    case _ => []
  }

  /** The value of the first field named `key`. */
  function Lookup(fields: seq<Field>, key: string): (r: Option<Value>)
    ensures r.Some? <==> key in Keys(fields)
  {
    if fields == [] then None
    else if fields[0].key == key then Some(fields[0].val)
    else Lookup(fields[1..], key)
  }

  /** `v.hasOwnProperty(key)`, own non-enumerable properties included. */
  predicate HasOwn(v: Value, key: string)
  {
    match v
    case Arr(_, items) => key == "length" || IsIndexBelow(key, |items|)
    case Obj(_, fields) => key in Keys(fields)
    case Str(s) => key == "length" || IsIndexBelow(key, |s|)
    case Re(_, _, _) => key == "lastIndex"
    case Func(_, _) => key == "length" || key == "name"
    case _ => false
  }

  /**
   * `v[key]` for an own property; a property `v` would inherit from a
   * prototype reads as `undefined` here.
   */
  function Get(v: Value, key: string): Value
  {
    match v
    case Arr(_, items) =>
      if key == "length" then Num(|items|)
      else if IsIndexBelow(key, |items|) then items[DigitsValue(key)]
      else Undefined
    case Obj(_, fields) =>
      var r := Lookup(fields, key);
      if r.Some? then r.value else Undefined
    case Str(s) =>
      if key == "length" then Num(|s|)
      else if IsIndexBelow(key, |s|) then Str([s[DigitsValue(key)]])
      else Undefined
    case Re(_, _, _) => if key == "lastIndex" then Num(0) else Undefined
    case _ => Undefined
  }

  /** `obj[key] = val` on a field list: an existing field keeps its place. */
  function SetField(fields: seq<Field>, key: string, val: Value): (r: seq<Field>)
    ensures Lookup(r, key) == Some(val)
    ensures forall k :: k != key ==> Lookup(r, k) == Lookup(fields, k)
  {
    if fields == [] then [Field(key, val)]
    else if fields[0].key == key then [Field(key, val)] + fields[1..]
    else
      var rest := SetField(fields[1..], key, val);
      assert ([fields[0]] + rest)[1..] == rest;
      [fields[0]] + rest
  }

  /** Setting a key keeps the key order; a new key goes last. */
  lemma {:induction false} SetFieldKeys(fields: seq<Field>, key: string, val: Value)
    ensures key in Keys(fields) ==> Keys(SetField(fields, key, val)) == Keys(fields)
    ensures key !in Keys(fields) ==> Keys(SetField(fields, key, val)) == Keys(fields) + [key]
  {
    if fields != [] && fields[0].key != key {
      SetFieldKeys(fields[1..], key, val);
      assert Keys(fields) == [fields[0].key] + Keys(fields[1..]);
    }
  }

  /** `delete obj[key]` on a field list. */
  function DeleteField(fields: seq<Field>, key: string): (r: seq<Field>)
    ensures Lookup(r, key) == None
    ensures forall k :: k != key ==> Lookup(r, k) == Lookup(fields, k)
    ensures |r| <= |fields|
  {
    if fields == [] then []
    else if fields[0].key == key then DeleteField(fields[1..], key)
    else [fields[0]] + DeleteField(fields[1..], key)
  }

  /** No key occurs twice, as in every JavaScript object. */
  predicate DistinctKeys(fields: seq<Field>)
  {
    forall i, j :: 0 <= i < j < |fields| ==> fields[i].key != fields[j].key
  }

  // -----------------------------------------------------------------------
  // String(v)

  /** `String(v)`; an array is joined with "," and shows `null`/`undefined` as "". */
  function ToString(v: Value): string
    decreases v, 1, 0
  {
    match v
    case Undefined => "undefined"
    case Null => "null"
    case Bool(b) => if b then "true" else "false"
    case Num(n) => IntToString(n)
    case NaN => "NaN"
    case Str(s) => s
    case Arr(_, items) => JoinFrom(v, 0)
    case Obj(_, _) => "[object Object]"
    case DateVal(_, m) => Calendar.DateToString(m)
    case Re(_, source, flags) => "/" + source + "/" + flags
    case Func(_, code) => code
  }

  /** `String` of the items of array `a` from index `i`, joined with ",". */
  function JoinFrom(a: Value, i: nat): string
    requires a.Arr? && i <= |a.items|
    decreases a, 0, |a.items| - i
  {
    if i == |a.items| then []
    else
      var x := a.items[i];
      var sx := if IsNullish(x) then [] else ToString(x);
      if i + 1 == |a.items| then sx else sx + "," + JoinFrom(a, i + 1)
  }

  // -----------------------------------------------------------------------
  // Number(v)

  /** The value of digits `s` in base `radix`, or `None` when a character is not such a digit. */
  function RadixValue(s: string, radix: nat): Option<nat>
    requires 2 <= radix <= 16
  {
    if s == [] then Some(0)
    else
      var d := HexValue(s[|s| - 1]);
      var rest := RadixValue(s[..|s| - 1], radix);
      if d.None? || d.value >= radix || rest.None? then None
      else Some(rest.value * radix + d.value)
  }

  function HexValue(c: char): Option<nat>
  {
    if IsDigit(c) then Some(c as int - '0' as int)
    else if 'a' <= c <= 'f' then Some(c as int - 'a' as int + 10)
    else if 'A' <= c <= 'F' then Some(c as int - 'A' as int + 10)
    else None
  }

  /**
   * `Number(s)` for a string, on the integer numerals: blank is 0, an
   * optionally signed run of decimal digits, or `0x`/`0o`/`0b` and digits.
   * Any other text, including numerals with a fraction or an exponent, is
   * `NaN` here.
   */
  function StringToNumber(s: string): (r: Value)
    ensures r.Num? || r.NaN?
  {
    var t := Trim(s);
    if t == [] then Num(0)
    else if |t| > 2 && t[0] == '0' && (t[1] == 'x' || t[1] == 'X' || t[1] == 'o' || t[1] == 'O' || t[1] == 'b' || t[1] == 'B') then
      var radix := if t[1] == 'x' || t[1] == 'X' then 16 else if t[1] == 'o' || t[1] == 'O' then 8 else 2;
      var v := RadixValue(t[2..], radix);
      if v.Some? then Num(v.value) else NaN
    else
      var neg := t[0] == '-';
      var digits := if t[0] == '-' || t[0] == '+' then t[1..] else t;
      if digits != [] && AllDigits(digits) then
        Num(if neg then 0 - DigitsValue(digits) else DigitsValue(digits))
      else NaN
  }

  /** `Number(v)`. */
  function ToNumber(v: Value): (r: Value)
    ensures r.Num? || r.NaN?
  {
    match v
    case Undefined => NaN
    case Null => Num(0)
    case Bool(b) => Num(if b then 1 else 0)
    case Num(n) => v
    case NaN => NaN
    case Str(s) => StringToNumber(s)
    case Arr(_, _) => StringToNumber(ToString(v))
    case DateVal(_, m) => if m.At? then Num(Calendar.TimeValue(m.t)) else NaN
    case _ => NaN
  }

  /** The number of decimal digits at the front of `s`. */
  function DigitPrefix(s: string): (n: nat)
    ensures n <= |s|
    ensures forall i :: 0 <= i < n ==> IsDigit(s[i])
    ensures n < |s| ==> !IsDigit(s[n])
  {
    if s != [] && IsDigit(s[0]) then 1 + DigitPrefix(s[1..]) else 0
  }

  /** An optional exponent part: nothing, or `e`/`E`, an optional sign and digits. */
  predicate IsExponentPart(e: string)
  {
    e == [] ||
    ((e[0] == 'e' || e[0] == 'E') &&
     var d := if |e| > 1 && (e[1] == '+' || e[1] == '-') then e[2..] else e[1..];
     d != [] && DigitPrefix(d) == |d|)
  }

  /** An unsigned decimal literal: `Infinity`, or digits with an optional fraction and exponent. */
  predicate IsUnsignedDecimal(u: string)
  {
    u == "Infinity" ||
    var m := DigitPrefix(u);
    if m < |u| && u[m] == '.' then
      var f := DigitPrefix(u[m + 1..]);
      (m > 0 || f > 0) && IsExponentPart(u[m + 1 + f..])
    else m > 0 && IsExponentPart(u[m..])
  }

  /** The whole grammar `Number(s)` accepts, with the value left aside. */
  predicate IsNumericString(s: string)
  {
    var t := Trim(s);
    t == [] ||
    (|t| > 2 && t[0] == '0' && (t[1] == 'x' || t[1] == 'X' || t[1] == 'o' || t[1] == 'O' || t[1] == 'b' || t[1] == 'B') &&
     RadixValue(t[2..], if t[1] == 'x' || t[1] == 'X' then 16 else if t[1] == 'o' || t[1] == 'O' then 8 else 2).Some?) ||
    IsUnsignedDecimal(if t[0] == '-' || t[0] == '+' then t[1..] else t)
  }

  /** `!isNaN(Number(v))`, fractions and exponents included. */
  predicate IsNumeric(v: Value)
  {
    match v
    case Undefined => false
    case Null => true
    case Bool(_) => true
    case Num(_) => true
    case NaN => false
    case Str(s) => IsNumericString(s)
    case Arr(_, _) => IsNumericString(ToString(v))
    case DateVal(_, m) => m.At?
    case _ => false
  }

  /** Every value `ToNumber` reads as an integer is numeric for `isNaN` too. */
  lemma ToNumberIsNumeric(v: Value)
    ensures ToNumber(v).Num? ==> IsNumeric(v)
  {
    match v
    case Str(s) => StringToNumberIsNumeric(s);
    case Arr(_, _) => StringToNumberIsNumeric(ToString(v));
    case _ =>
  }

  lemma StringToNumberIsNumeric(s: string)
    ensures StringToNumber(s).Num? ==> IsNumericString(s)
  {
    var t := Trim(s);
    if StringToNumber(s).Num? && t != [] && !(|t| > 2 && t[0] == '0' && (t[1] == 'x' || t[1] == 'X' || t[1] == 'o' || t[1] == 'O' || t[1] == 'b' || t[1] == 'B')) {
      var u := if t[0] == '-' || t[0] == '+' then t[1..] else t;
      DigitPrefixAll(u);
      assert IsExponentPart(u[|u|..]);
      assert IsUnsignedDecimal(u);
    }
  }

  lemma DigitPrefixAll(u: string)
    requires AllDigits(u)
    ensures DigitPrefix(u) == |u|
  {
    if u != [] {
      DigitPrefixAll(u[1..]);
    }
  }

  // -----------------------------------------------------------------------
  // JSON.stringify

  /** The lower-case hexadecimal digit of `d`. */
  function HexDigit(d: nat): (c: char)
    requires d < 16
    ensures '0' <= c <= '9' || 'a' <= c <= 'f'
    ensures HexValue(c) == Some(d)
  {
    if d < 10 then ('0' as int + d) as char else ('a' as int + d - 10) as char
  }

  /** One character of a JSON string literal (section 25.5.2.3 of ECMA-262, QuoteJSONString). */
  function JsonEscape(c: char): string
  {
    if c == '"' then "\\\""
    else if c == '\\' then "\\\\"
    else if c == '\U{0008}' then "\\b"
    else if c == '\U{000C}' then "\\f"
    else if c == '\n' then "\\n"
    else if c == '\r' then "\\r"
    else if c == '\t' then "\\t"
    else if (c as int) < 0x20 then "\\u00" + [HexDigit(c as int / 16), HexDigit(c as int % 16)]
    else [c]
  }

  function JsonQuote(s: string): string
  {
    "\"" + JsonChars(s) + "\""
  }

  function JsonChars(s: string): string
  {
    if s == [] then [] else JsonEscape(s[0]) + JsonChars(s[1..])
  }

  /**
   * `JSON.stringify(v)`; `None` where it returns `undefined` (for
   * `undefined` and functions). A date serialises through `toJSON`.
   */
  function Json(v: Value): Option<string>
    decreases v, 1, 0
  {
    match v
    case Undefined => None
    case Func(_, _) => None
    case Null => Some("null")
    case Bool(b) => Some(if b then "true" else "false")
    case Num(n) => Some(IntToString(n))
    case NaN => Some("null")
    case Str(s) => Some(JsonQuote(s))
    case Arr(_, items) => Some("[" + JsonItems(v, 0) + "]")
    case Obj(_, _) => Some("{" + JsonFields(v, 0, true) + "}")
    case DateVal(_, m) =>
      if m.Invalid? then Some("null") else Some(JsonQuote(Calendar.IsoString(m.t)))
    case Re(_, _, _) => Some("{}")
  }

  function JsonItems(a: Value, i: nat): string
    requires a.Arr? && i <= |a.items|
    decreases a, 0, |a.items| - i
  {
    if i == |a.items| then []
    else
      var j := Json(a.items[i]);
      var sj := if j.Some? then j.value else "null";
      if i + 1 == |a.items| then sj else sj + "," + JsonItems(a, i + 1)
  }

  /** The members of object `o` from field `i` on; a field whose value has no JSON form is skipped. */
  function JsonFields(o: Value, i: nat, first: bool): string
    requires o.Obj? && i <= |o.fields|
    decreases o, 0, |o.fields| - i
  {
    if i == |o.fields| then []
    else
      var f := o.fields[i];
      var j := Json(f.val);
      if j.None? then JsonFields(o, i + 1, first)
      else (if first then "" else ",") + JsonQuote(f.key) + ":" + j.value + JsonFields(o, i + 1, false)
  }
}
