/**
 * The random helpers of `src/random/index.js`.
 *
 * `Math.random()` is replaced by an oracle: the k-th draw of a call that
 * chooses among `n` outcomes (`Math.floor(Math.random() * n)`) is
 * `Pick(rand, k, n)`. Every statement below therefore holds for every
 * sequence of draws.
 */
module Random {
  import opened Text
  import opened Wrappers
  import opened Values
  import Calendar

  /** A source of draws: draw k is `rand(k)`. */
  type Oracle = nat -> nat

  /** The k-th draw scaled to `n` outcomes, i.e. `Math.floor(Math.random() * n)`. */
  function Pick(rand: Oracle, k: nat, n: nat): (r: nat)
    requires n > 0
    ensures r < n
  {
    Reduce(rand(k), n)
  }

  /** `x % n`, as `n` taken off `x` until it is below `n`. */
  function Reduce(x: nat, n: nat): (r: nat)
    requires n > 0
    ensures r < n
    decreases x
  {
    if x < n then x else Reduce(x - n, n)
  }

  /** `Reduce` is the remainder of division by `n`. */
  lemma {:induction false} ReduceIsRemainder(x: nat, n: nat)
    requires n > 0
    ensures Reduce(x, n) == x % n
    decreases x
  {
    if x >= n {
      ReduceIsRemainder(x - n, n);
      RemainderShift(x - n, n);
    }
  }

  /** Adding `n` leaves the remainder by `n` as it is. */
  lemma RemainderShift(y: nat, n: nat)
    requires n > 0
    ensures (y + n) % n == y % n
  {
    var q, r := y / n, y % n;
    assert y == q * n + r;
    assert y + n == (q + 1) * n + r;
    Calendar.DivModUnique(y + n, n, q + 1, r);
  }

  /** The 94 characters `getRandomString` draws from. */
  const Alphabet: string :=
    "ABCDEFGHIJKLMNOPQRSTUVWXYZabcdefghijklmnopqrstuvwxyz0123456789!@#$%^&*()-_=+[{]};:'\\\"|,<.>/?`~"

  /** The number of passes of `for (let i = 0; i < n; i++)`. */
  function Passes(n: int): nat
  {
    if n > 0 then n else 0
  }

  // -----------------------------------------------------------------------
  // getRandomString

  /**
   * `getRandomString(length)`: `length` defaults to 10; anything that is not
   * a number, and NaN, is refused; otherwise one alphabet character per pass.
   */
  method GetRandomString(length: Value, rand: Oracle) returns (r: Result<string>)
    ensures !(length.Undefined? || length.Num?) ==> r == Err(Error("args must be a number"))
    ensures length.Undefined? ==> r.Ok? && |r.value| == 10
    ensures length.Num? ==> r.Ok? && |r.value| == Passes(length.n)
    ensures r.Ok? ==> forall i :: 0 <= i < |r.value| ==> r.value[i] == Alphabet[Pick(rand, i, |Alphabet|)]
    ensures r.Ok? ==> forall i :: 0 <= i < |r.value| ==> r.value[i] in Alphabet
  {
    if !(length.Undefined? || length.Num?) {
      return Err(Error("args must be a number"));
    }
    var n := if length.Undefined? then 10 else length.n;
    var s := "";
    var i := 0;
    while i < n
      invariant 0 <= i <= Passes(n)
      invariant |s| == i
      invariant forall j :: 0 <= j < i ==> s[j] == Alphabet[Pick(rand, j, |Alphabet|)]
    {
      s := s + [Alphabet[Pick(rand, i, |Alphabet|)]];
      i := i + 1;
    }
    return Ok(s);
  }

  // -----------------------------------------------------------------------
  // getRandomBinary and getRandomHex

  /**
   * `getRandomBinary(length)`: a non-number or a number at most 0 is refused;
   * NaN passes the guard and the loop runs no pass.
   */
  method GetRandomBinary(length: Value, rand: Oracle) returns (r: Result<string>)
    ensures !(length.Num? && length.n > 0) && !length.NaN? ==> r == Err(Error("Length must be a positive number."))
    ensures length.NaN? ==> r == Ok("")
    ensures length.Num? && length.n > 0 ==> r.Ok? && |r.value| == length.n
    ensures r.Ok? ==> forall i :: 0 <= i < |r.value| ==> r.value[i] == DigitChar(Pick(rand, i, 2))
    ensures r.Ok? ==> forall i :: 0 <= i < |r.value| ==> r.value[i] == '0' || r.value[i] == '1'
  {
    if !(length.Num? || length.NaN?) || (length.Num? && length.n <= 0) {
      return Err(Error("Length must be a positive number."));
    }
    var n := if length.Num? then length.n else 0;
    var s := "";
    var i := 0;
    while i < n
      invariant 0 <= i <= Passes(n)
      invariant |s| == i
      invariant forall j :: 0 <= j < i ==> s[j] == DigitChar(Pick(rand, j, 2))
    {
      s := s + [DigitChar(Pick(rand, i, 2))];
      i := i + 1;
    }
    return Ok(s);
  }

  /** The lower-case hexadecimal digits. */
  predicate IsHexDigit(c: char)
  {
    IsDigit(c) || 'a' <= c <= 'f'
  }

  /** `getRandomHex(length)`: the same guard as `getRandomBinary`, one hex digit per pass. */
  method GetRandomHex(length: Value, rand: Oracle) returns (r: Result<string>)
    ensures !(length.Num? && length.n > 0) && !length.NaN? ==> r == Err(Error("Length must be a positive number."))
    ensures length.NaN? ==> r == Ok("")
    ensures length.Num? && length.n > 0 ==> r.Ok? && |r.value| == length.n
    ensures r.Ok? ==> forall i :: 0 <= i < |r.value| ==> r.value[i] == HexDigit(Pick(rand, i, 16))
    ensures r.Ok? ==> forall i :: 0 <= i < |r.value| ==> IsHexDigit(r.value[i])
  {
    if !(length.Num? || length.NaN?) || (length.Num? && length.n <= 0) {
      return Err(Error("Length must be a positive number."));
    }
    var n := if length.Num? then length.n else 0;
    var s := "";
    var i := 0;
    while i < n
      invariant 0 <= i <= Passes(n)
      invariant |s| == i
      invariant forall j :: 0 <= j < i ==> s[j] == HexDigit(Pick(rand, j, 16))
    {
      s := s + [HexDigit(Pick(rand, i, 16))];
      i := i + 1;
    }
    return Ok(s);
  }

  // -----------------------------------------------------------------------
  // getRandomBool and getRandomColor

  /** `getRandomBool()`: `Math.random() < 0.5`, so the lower half of the draws gives `true`. */
  function GetRandomBool(rand: Oracle): (r: bool)
    ensures r <==> rand(0) % 2 == 0
  {
    ReduceIsRemainder(rand(0), 2);
    Pick(rand, 0, 2) == 0
  }

  /** Both answers occur. */
  lemma GetRandomBoolBoth(rand: Oracle)
    ensures GetRandomBool(rand) != GetRandomBool((k: nat) => rand(k) + 1)
  {
  }

  /** `n.toString(16)`: the lower-case hexadecimal digits of `n`, with no leading zero. */
  function HexString(n: nat): (r: string)
    ensures r != [] && forall i :: 0 <= i < |r| ==> IsHexDigit(r[i])
    ensures RadixValue(r, 16) == Some(n)
    ensures n > 0 ==> r[0] != '0'
    decreases n
  {
    if n < 16 then [HexDigit(n)]
    else
      var r := HexString(n / 16) + [HexDigit(n % 16)];
      assert r[..|r| - 1] == HexString(n / 16);
      r
  }

  /** Below `16^k`, `toString(16)` has at most `k` digits. */
  lemma {:induction false} HexStringLength(n: nat, k: nat, p: nat)
    requires p == Power16(k) && n < p
    ensures |HexString(n)| <= k || (n == 0 && k == 0)
    decreases k
  {
    if n >= 16 {
      HexStringLength(n / 16, k - 1, p / 16);
    }
  }

  function Power16(k: nat): (p: nat)
    ensures p >= 1
  {
    if k == 0 then 1 else 16 * Power16(k - 1)
  }

  /** Leading zeros do not change the value of a hexadecimal numeral. */
  lemma {:induction false} RadixLeadingZeros(z: nat, s: string)
    ensures RadixValue(Repeat('0', z) + s, 16) == RadixValue(s, 16)
    decreases |s|, z
  {
    var t := Repeat('0', z) + s;
    if s == [] {
      if z > 0 {
        assert t[..|t| - 1] == Repeat('0', z - 1) + [];
        RadixLeadingZeros(z - 1, []);
      }
    } else {
      assert t[..|t| - 1] == Repeat('0', z) + s[..|s| - 1];
      RadixLeadingZeros(z, s[..|s| - 1]);
    }
  }

  /**
   * `getRandomColor()`: one draw among 0xFFFFFF outcomes, written in
   * hexadecimal, padded to six digits and prefixed with '#'.
   */
  function GetRandomColor(rand: Oracle): (r: string)
    ensures |r| == 7 && r[0] == '#'
    ensures forall i :: 1 <= i < 7 ==> IsHexDigit(r[i])
    ensures RadixValue(r[1..], 16) == Some(Pick(rand, 0, 0xFFFFFF))
  {
    ColorDigits(Pick(rand, 0, 0xFFFFFF))
  }

  /** '#' and `v.toString(16).padStart(6, "0")`. */
  function ColorDigits(v: nat): (r: string)
    requires v < 0x1000000
    ensures |r| == 7 && r[0] == '#'
    ensures forall i :: 1 <= i < 7 ==> IsHexDigit(r[i])
    ensures RadixValue(r[1..], 16) == Some(v)
  {
    var h := HexString(v);
    HexStringLength(v, 6, 0x1000000);
    var r := "#" + PadZeros(h, 6);
    assert r[1..] == PadZeros(h, 6);
    RadixLeadingZeros(6 - |h|, h);
    r
  }

  /** The largest outcome is 0xFFFFFE: the draw never yields white, "#ffffff". */
  lemma ColorNeverWhite(rand: Oracle)
    ensures GetRandomColor(rand) != "#ffffff"
  {
    var w := "#ffffff";
    assert w[1..] == "ffffff";
    WhiteValue();
  }

  /** "ffffff" is 0xFFFFFF, and it is what `toString(16)` writes for it. */
  lemma WhiteValue()
    ensures RadixValue("ffffff", 16) == Some(0xFFFFFF)
    ensures HexString(0xFFFFFF) == "ffffff"
  {
    assert HexDigit(15) == 'f';
    assert HexString(0xF) == "f";
    HexAppendF(0xF);
    assert HexString(0xFF) == "ff";
    HexAppendF(0xFF);
    assert HexString(0xFFF) == "fff";
    HexAppendF(0xFFF);
    assert HexString(0xFFFF) == "ffff";
    HexAppendF(0xFFFF);
    assert HexString(0xFFFFF) == "fffff";
    HexAppendF(0xFFFFF);
    assert HexString(0xFFFFFF) == "ffffff";
  }

  /** Appending the digit 'f' to a numeral multiplies its value by 16 and adds 15. */
  lemma HexAppendF(n: nat)
    requires n > 0
    ensures HexString(16 * n + 15) == HexString(n) + "f"
  {
    var m := 16 * n + 15;
    assert m / 16 == n && m % 16 == 15;
    assert HexDigit(15) == 'f';
  }

  /** With 0x1000000 outcomes, as the range "0x0 to 0xFFFFFF" says, every colour has a draw. */
  function GetRandomColorFull(rand: Oracle): (r: string)
    ensures |r| == 7 && r[0] == '#'
    ensures forall i :: 1 <= i < 7 ==> IsHexDigit(r[i])
    ensures RadixValue(r[1..], 16) == Some(Pick(rand, 0, 0x1000000))
  {
    ColorDigits(Pick(rand, 0, 0x1000000))
  }

  /** Every six-digit colour, white included, is drawn by `GetRandomColorFull` for some draw. */
  lemma ColorFullCovers(v: nat)
    requires v < 0x1000000
    ensures RadixValue(GetRandomColorFull((k: nat) => v)[1..], 16) == Some(v)
    ensures v == 0xFFFFFF ==> GetRandomColorFull((k: nat) => v) == "#ffffff"
  {
    var rand := (k: nat) => v;
    assert Pick(rand, 0, 0x1000000) == v;
    assert GetRandomColorFull(rand) == ColorDigits(v);
    if v == 0xFFFFFF {
      WhiteColor();
    }
  }

  /** The colour text of 0xFFFFFF is "#ffffff". */
  lemma WhiteColor()
    ensures ColorDigits(0xFFFFFF) == "#ffffff"
  {
    WhiteValue();
    var h := HexString(0xFFFFFF);
    assert PadZeros(h, 6) == h;
    assert "#" + "ffffff" == "#ffffff";
  }

  // -----------------------------------------------------------------------
  // getRandomUUID (RFC 4122, section 4.4)

  const UuidTemplate: string := "xxxxxxxx-xxxx-4xxx-yxxx-xxxxxxxxxxxx"

  /**
   * The digit the replacement callback gives for template character `c` and
   * draw `r`: `r` itself for 'x', and `(r & 0x3) | 0x8` for 'y', which sets
   * the two variant bits of section 4.1.1 of RFC 4122.
   */
  function UuidDigit(c: char, r: nat): (d: char)
    requires r < 16
    ensures IsHexDigit(d)
    ensures c != 'x' ==> d == '8' || d == '9' || d == 'a' || d == 'b'
  {
    if c == 'x' then HexDigit(r) else HexDigit((((r as bv8) & 3) | 8) as int)
  }

  /**
   * `template.replace(/[xy]/g, callback)` where the callback for the
   * `k`-th match uses draw `k`.
   */
  function FillTemplate(t: string, rand: Oracle, k: nat): (r: string)
    ensures |r| == |t|
    ensures forall i :: 0 <= i < |t| ==> Fills(t[i], r[i])
  {
    if t == [] then []
    else
      var x := t[0] == 'x' || t[0] == 'y';
      var d := if x then UuidDigit(t[0], Pick(rand, k, 16)) else t[0];
      var rest := FillTemplate(t[1..], rand, if x then k + 1 else k);
      FillsCons(t, d, rest);
      [d] + rest
  }

  /** A filled head before a filled tail fills the whole template. */
  lemma FillsCons(t: string, d: char, rest: string)
    requires t != [] && Fills(t[0], d) && |rest| == |t| - 1
    requires forall i :: 0 <= i < |rest| ==> Fills(t[1..][i], rest[i])
    ensures forall i :: 0 <= i < |t| ==> Fills(t[i], ([d] + rest)[i])
  {
    forall i | 1 <= i < |t|
      ensures Fills(t[i], ([d] + rest)[i])
    {
      assert t[i] == t[1..][i - 1];
    }
  }

  /**
   * What the replacement leaves at a position holding `c`: characters other
   * than 'x' and 'y' as they are, a hexadecimal digit for 'x' and 'y', and
   * one of 8, 9, a, b for 'y'.
   */
  predicate Fills(c: char, d: char)
  {
    && (c != 'x' && c != 'y' ==> d == c)
    && (c == 'x' || c == 'y' ==> IsHexDigit(d))
    && (c == 'y' ==> d == '8' || d == '9' || d == 'a' || d == 'b')
  }

  /** `getRandomUUID()`. */
  function GetRandomUuid(rand: Oracle): string
  {
    FillTemplate(UuidTemplate, rand, 0)
  }

  /**
   * The version-4 layout: 36 characters, hyphens at 8, 13, 18 and 23, the
   * version digit '4' at 14 (section 4.1.3 of RFC 4122), a variant digit in {8, 9, a, b}
   * at 19, and hexadecimal digits everywhere else.
   */
  lemma UuidLayout(rand: Oracle)
    ensures |GetRandomUuid(rand)| == 36
    ensures GetRandomUuid(rand)[8] == '-' && GetRandomUuid(rand)[13] == '-'
    ensures GetRandomUuid(rand)[18] == '-' && GetRandomUuid(rand)[23] == '-'
    ensures GetRandomUuid(rand)[14] == '4'
    ensures GetRandomUuid(rand)[19] in "89ab"
    ensures forall i :: 0 <= i < 36 && i != 8 && i != 13 && i != 14 && i != 18 && i != 19 && i != 23 ==>
      IsHexDigit(GetRandomUuid(rand)[i])
  {
    TemplateShape();
    FillLayout(UuidTemplate, GetRandomUuid(rand));
  }

  /** Where the template has its fixed characters and its 'x' and 'y' slots. */
  lemma TemplateShape()
    ensures |UuidTemplate| == 36
    ensures UuidTemplate[8] == '-' && UuidTemplate[13] == '-' && UuidTemplate[18] == '-' && UuidTemplate[23] == '-'
    ensures UuidTemplate[14] == '4' && UuidTemplate[19] == 'y'
    ensures forall i :: 0 <= i < 36 && i != 8 && i != 13 && i != 14 && i != 18 && i != 19 && i != 23 ==>
      UuidTemplate[i] == 'x'
  {
    TemplateXs(0, 8);
    TemplateXs(9, 13);
    TemplateXs(15, 18);
    TemplateXs(20, 23);
    TemplateXs(24, 30);
    TemplateXs(30, 36);
  }

  /** Each run of 'x' in the template, checked on its own. */
  lemma TemplateXs(lo: nat, hi: nat)
    requires (lo, hi) in {(0, 8), (9, 13), (15, 18), (20, 23), (24, 30), (30, 36)}
    ensures forall i :: lo <= i < hi ==> UuidTemplate[i] == 'x'
  {
  }

  /** The layout of any filling of a template shaped like the version-4 one. */
  lemma FillLayout(t: string, r: string)
    requires |t| == 36 && |r| == 36
    requires t[8] == '-' && t[13] == '-' && t[18] == '-' && t[23] == '-' && t[14] == '4' && t[19] == 'y'
    requires forall i :: 0 <= i < 36 && i != 8 && i != 13 && i != 14 && i != 18 && i != 19 && i != 23 ==> t[i] == 'x'
    requires forall i :: 0 <= i < |t| ==> Fills(t[i], r[i])
    ensures r[8] == '-' && r[13] == '-' && r[18] == '-' && r[23] == '-' && r[14] == '4'
    ensures r[19] in "89ab"
    ensures forall i :: 0 <= i < 36 && i != 8 && i != 13 && i != 14 && i != 18 && i != 19 && i != 23 ==> IsHexDigit(r[i])
  {
  }

  /** Every variant digit is reachable: draw r in 8..11 shows as itself. */
  lemma UuidVariantDigits()
    ensures UuidDigit('y', 8) == '8' && UuidDigit('y', 9) == '9'
    ensures UuidDigit('y', 10) == 'a' && UuidDigit('y', 11) == 'b'
  {
  }

  // -----------------------------------------------------------------------
  // shuffleArray (Fisher–Yates)

  /** `s` with positions `i` and `j` exchanged. */
  function Swap<T>(s: seq<T>, i: nat, j: nat): (r: seq<T>)
    requires i < |s| && j < |s|
    ensures |r| == |s| && r[i] == s[j] && r[j] == s[i]
    ensures forall k :: 0 <= k < |s| && k != i && k != j ==> r[k] == s[k]
  {
    s[i := s[j]][j := s[i]]
  }

  /** An exchange keeps the elements. */
  lemma SwapPermutes<T>(s: seq<T>, i: nat, j: nat)
    requires i < |s| && j < |s|
    ensures multiset(Swap(s, i, j)) == multiset(s)
  {
  }

  /**
   * The array after the first `n` passes of the swap loop: pass `p` is at
   * position `|s| - 1 - p`, takes the `p`-th draw and exchanges that
   * position with one in `0..|s| - 1 - p`.
   */
  function SwapPasses<T>(s: seq<T>, rand: Oracle, n: nat): (r: seq<T>)
    requires n < |s|
    ensures |r| == |s|
    ensures multiset(r) == multiset(s)
  {
    if n == 0 then s
    else
      var i := |s| - n;
      var prev := SwapPasses(s, rand, n - 1);
      var j := Pick(rand, n - 1, i + 1);
      SwapPermutes(prev, i, j);
      Swap(prev, i, j)
  }

  /** The swap loop from the last position down to 1: `|s| - 1` passes. Whatever the draws, it permutes its input. */
  function Shuffle<T>(s: seq<T>, rand: Oracle): (r: seq<T>)
    ensures |r| == |s|
    ensures multiset(r) == multiset(s)
  {
    if s == [] then s else SwapPasses(s, rand, |s| - 1)
  }

  /** Pass `n` works at position `i`, the `n`-th from the end. */
  lemma SwapPassesNext<T>(s: seq<T>, rand: Oracle, n: nat, i: nat)
    requires i + n + 1 == |s| && i > 0
    ensures SwapPasses(s, rand, n + 1) == Swap(SwapPasses(s, rand, n), i, Pick(rand, n, i + 1))
  {
  }

  /**
   * `shuffleArray(array)`: a non-array is refused; otherwise the swap loop
   * runs on a fresh copy (`array.slice()`, given identity `copyId`), so the
   * argument is left as it was.
   */
  method ShuffleArray(input: Value, rand: Oracle, copyId: nat) returns (r: Result<Value>)
    ensures !input.Arr? ==> r == Err(Error("Input must be an array"))
    ensures input.Arr? ==> r.Ok? && r.value.Arr? && r.value.id == copyId
    ensures input.Arr? ==> r.value.items == Shuffle(input.items, rand)
    ensures input.Arr? ==> multiset(r.value.items) == multiset(input.items)
  {
    if !input.Arr? {
      return Err(Error("Input must be an array"));
    }
    var items := input.items;
    var a := CopyToArray(items);
    ShuffleInPlace(a, rand);
    return Ok(Arr(copyId, a[..]));
  }

  /** `array.slice()`: a new array holding the items. */
  method CopyToArray<T>(items: seq<T>) returns (a: array<T>)
    ensures fresh(a) && a[..] == items
  {
    a := new T[|items|](p requires 0 <= p < |items| => items[p]);
  }

  /** The `for` loop of `shuffleArray`: position `i` from the last down to 1 swaps with a drawn position in `0..i`. */
  method ShuffleInPlace<T>(a: array<T>, rand: Oracle)
    modifies a
    ensures a[..] == Shuffle(old(a[..]), rand)
  {
    if a.Length == 0 {
      return;
    }
    ghost var start := a[..];
    var i := a.Length - 1;
    var k: nat := 0;
    while i > 0
      invariant 0 <= i < a.Length && k == a.Length - 1 - i
      invariant a[..] == SwapPasses(start, rand, k)
      decreases i
    {
      var j := Pick(rand, k, i + 1);
      SwapPassesNext(start, rand, k, i);
      Exchange(a, i, j);
      i := i - 1;
      k := k + 1;
    }
  }

  /** `[array[i], array[j]] = [array[j], array[i]]`. */
  method Exchange<T>(a: array<T>, i: nat, j: nat)
    requires i < a.Length && j < a.Length
    modifies a
    ensures a[..] == Swap(old(a[..]), i, j)
  {
    var t := a[i];
    a[i] := a[j];
    a[j] := t;
  }

  // -----------------------------------------------------------------------
  // getRandomNum

  /** A parameter with a default of `d` when it is `undefined`, passed through `Number`. */
  function NumberOr(v: Value, d: int): (r: Value)
    ensures r.Num? || r.NaN?
  {
    if v.Undefined? then Num(d) else ToNumber(v)
  }

  /**
   * `getRandomNum(minNum = 0, maxNum = 100)`: both bounds go through
   * `Number`; NaN is refused; reversed bounds are swapped; then
   * `Math.floor(Math.random() * (max - min + 1)) + min` with one draw.
   */
  function GetRandomNum(minNum: Value, maxNum: Value, rand: Oracle): (r: Result<int>)
    ensures r.Err? <==> (NumberOr(minNum, 0).NaN? || NumberOr(maxNum, 100).NaN?)
    ensures r.Err? ==> r.failure == Error("Both arguments must be numbers or numeric strings")
    ensures r.Ok? ==> var a, b := NumberOr(minNum, 0).n, NumberOr(maxNum, 100).n;
      var lo, hi := (if a <= b then a else b), (if a <= b then b else a);
      lo <= r.value <= hi && r.value - lo == rand(0) % (hi - lo + 1)
  {
    DrawBetween(NumberOr(minNum, 0), NumberOr(maxNum, 100), rand)
  }

  /** The refusal of `NaN`, then the draw between the two bounds. */
  function DrawBetween(lo: Value, hi: Value, rand: Oracle): (r: Result<int>)
    requires lo.Num? || lo.NaN?
    requires hi.Num? || hi.NaN?
    ensures r.Err? <==> (lo.NaN? || hi.NaN?)
  {
    if lo.NaN? || hi.NaN? then Err(Error("Both arguments must be numbers or numeric strings"))
    else Ok(Between(lo.n, hi.n, rand))
  }

  /** The draw scaled to the range between `x` and `y`, whichever order they come in. */
  function Between(x: int, y: int, rand: Oracle): (r: int)
    ensures var lo, hi := (if x <= y then x else y), (if x <= y then y else x);
      lo <= r <= hi && r - lo == rand(0) % (hi - lo + 1)
  {
    var a, b := if x > y then y else x, if x > y then x else y;
    ReduceIsRemainder(rand(0), b - a + 1);
    Pick(rand, 0, b - a + 1) + a
  }

  /** Because reversed bounds are swapped, the order of the bounds does not matter. */
  lemma GetRandomNumSymmetric(minNum: Value, maxNum: Value, rand: Oracle)
    requires !minNum.Undefined? && !maxNum.Undefined?
    ensures GetRandomNum(minNum, maxNum, rand) == GetRandomNum(maxNum, minNum, rand)
  {
    NumberOrDefined(minNum, 0, 100);
    NumberOrDefined(maxNum, 0, 100);
    DrawBetweenSymmetric(NumberOr(minNum, 0), NumberOr(maxNum, 0), rand);
  }

  /** A defined parameter ignores its default. */
  lemma NumberOrDefined(v: Value, d: int, e: int)
    requires !v.Undefined?
    ensures NumberOr(v, d) == NumberOr(v, e)
  {
  }

  /** The draw does not depend on the order of the bounds. */
  lemma DrawBetweenSymmetric(x: Value, y: Value, rand: Oracle)
    requires x.Num? || x.NaN?
    requires y.Num? || y.NaN?
    ensures DrawBetween(x, y, rand) == DrawBetween(y, x, rand)
  {
    if x.Num? && y.Num? && x.n == y.n {
    }
  }

  /** Every value of the range is the result of some draw. */
  lemma GetRandomNumCovers(lo: int, hi: int, v: int) returns (rand: Oracle)
    requires lo <= v <= hi
    ensures GetRandomNum(Num(lo), Num(hi), rand) == Ok(v)
  {
    rand := (k: nat) => (v - lo) as nat;
  }

  // -----------------------------------------------------------------------
  // getRandomElement and getRandomEnum

  /** `getRandomElement(array)`: `undefined` for a non-array or an empty array. */
  function GetRandomElement(input: Value, rand: Oracle): (r: Value)
    ensures !input.Arr? || input.items == [] ==> r.Undefined?
    ensures input.Arr? && input.items != [] ==> r in input.items
    ensures input.Arr? && input.items != [] ==> r == input.items[rand(0) % |input.items|]
  {
    if !input.Arr? || |input.items| == 0 then Undefined
    else
      ReduceIsRemainder(rand(0), |input.items|);
      input.items[Pick(rand, 0, |input.items|)]
  }

  /**
   * `Object.values(v)`: a `TypeError` for `null` and `undefined`; the
   * elements of an array, the characters of a string, the field values of an
   * object, and nothing for the other values (whose own properties are not
   * enumerable).
   */
  function ObjectValues(v: Value): (r: Result<seq<Value>>)
    ensures r.Err? <==> IsNullish(v)
    ensures r.Ok? ==> |r.value| == |OwnKeys(v)|
    ensures v.Arr? ==> r == Ok(v.items)
    ensures v.Obj? ==> forall i :: 0 <= i < |r.value| ==> r.value[i] == v.fields[i].val
    ensures v.Str? ==> forall i :: 0 <= i < |r.value| ==> r.value[i] == Str([v.s[i]])
  {
    match v
    case Undefined => Err(TypeError)
    case Null => Err(TypeError)
    case Arr(_, items) => Ok(items)
    case Str(s) => Ok(seq(|s|, i requires 0 <= i < |s| => Str([s[i]])))
    case Obj(_, fields) => Ok(FieldValues(fields))
    case _ => Ok([])
  }

  function FieldValues(fields: seq<Field>): (r: seq<Value>)
    ensures |r| == |fields|
    ensures forall i :: 0 <= i < |fields| ==> r[i] == fields[i].val
  {
    seq(|fields|, i requires 0 <= i < |fields| => fields[i].val)
  }

  /**
   * `getRandomEnum(enumType)`: one of `Object.values(enumType)`, refusing an
   * enumeration with no values.
   */
  function GetRandomEnum(enumType: Value, rand: Oracle): (r: Result<Value>)
    ensures IsNullish(enumType) ==> r == Err(TypeError)
    ensures !IsNullish(enumType) && |OwnKeys(enumType)| == 0 ==> r == Err(Error("The enumeration cannot be empty."))
    ensures r.Ok? ==> ObjectValues(enumType).Ok? && r.value in ObjectValues(enumType).value
    ensures !IsNullish(enumType) && |OwnKeys(enumType)| > 0 ==>
      r == Ok(ObjectValues(enumType).value[rand(0) % |OwnKeys(enumType)|])
  {
    var values := ObjectValues(enumType);
    if values.Err? then Err(values.failure)
    else if |values.value| == 0 then Err(Error("The enumeration cannot be empty."))
    else
      ReduceIsRemainder(rand(0), |values.value|);
      var i := Pick(rand, 0, |values.value|);
      Ok(values.value[i])
  }
}
