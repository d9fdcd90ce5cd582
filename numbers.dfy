/**
 * The number-to-text converters of `src/number.js`: English words in
 * base-1000 chunks, Chinese upper-case numerals in four-digit sections,
 * thousands separators, and Roman numerals in both directions.
 */
module Numbers {
  import opened Text
  import opened Wrappers
  import opened Values

  // -----------------------------------------------------------------------
  // convertNumberToWords

  const Scales: seq<string> := ["", "thousand", "million", "billion", "trillion"]
  const Ones: seq<string> := ["", "one", "two", "three", "four", "five", "six", "seven", "eight", "nine"]
  const Teens: seq<string> :=
    ["ten", "eleven", "twelve", "thirteen", "fourteen", "fifteen", "sixteen", "seventeen", "eighteen", "nineteen"]
  const Tens: seq<string> := ["", "", "twenty", "thirty", "forty", "fifty", "sixty", "seventy", "eighty", "ninety"]

  /** The largest number `convertNumberToWords` spells. */
  const MaxWords: nat := 999999999999999

  /**
   * `convertHundreds(n)`: a hundreds word and a space when more follows, then
   * a hyphenated tens word, or a teen word after one more space, or a units word.
   */
  function Hundreds(n: nat): string
    requires n < 1000
  {
    var head := if n >= 100 then Ones[n / 100] + " hundred" + (if n % 100 > 0 then " " else "") else "";
    var m := n % 100;
    if m >= 20 then head + Tens[m / 10] + (if m % 10 > 0 then "-" else "") + Ones[m % 10]
    else if m >= 10 then head + " " + Teens[m - 10]
    else head + Ones[m]
  }

  /** A teen follows one more space, so 115 reads "one hundred  fifteen". */
  lemma HundredsTeen(n: nat)
    requires 100 <= n < 1000 && 10 <= n % 100 < 20
    ensures Hundreds(n) == Ones[n / 100] + " hundred" + "  " + Teens[n % 100 - 10]
  {
  }

  /** The bound below which a number has its chunks at scales `c` to 4: `1000^(5 - c)`. */
  function Cap(c: nat): (p: nat)
    requires c <= 5
    ensures p >= 1
  {
    if c == 0 then 1_000_000_000_000_000
    else if c == 1 then 1_000_000_000_000
    else if c == 2 then 1_000_000_000
    else if c == 3 then 1_000_000
    else if c == 4 then 1000
    else 1
  }

  /** What a non-zero chunk `n` at scale `c` contributes: its words, a space and its scale word. */
  function Piece(n: nat, c: nat): string
    requires 0 < n < 1000 && c < |Scales|
  {
    Hundreds(n) + " " + Scales[c]
  }

  /**
   * The pieces of the non-zero base-1000 chunks of `num`, the lowest chunk
   * having scale `c`, highest chunk first. Zero chunks contribute nothing.
   */
  function Pieces(num: nat, c: nat): seq<string>
    requires c <= 5 && num < Cap(c)
    decreases num
  {
    if num == 0 then []
    else
      assert c < 5;
      assert num / 1000 < Cap(c + 1);
      Pieces(num / 1000, c + 1) + (if num % 1000 > 0 then [Piece(num % 1000, c)] else [])
  }

  /** `ps` joined with single spaces. */
  function JoinSpace(ps: seq<string>): string
  {
    if ps == [] then ""
    else if |ps| == 1 then ps[0]
    else ps[0] + " " + JoinSpace(ps[1..])
  }

  lemma {:induction false} JoinSpaceAppend(a: seq<string>, b: seq<string>)
    ensures JoinSpace(a + b) ==
      if a == [] then JoinSpace(b) else if b == [] then JoinSpace(a) else JoinSpace(a) + " " + JoinSpace(b)
  {
    if a == [] {
      assert a + b == b;
    } else if b == [] {
      assert a + b == a;
    } else if |a| == 1 {
      assert (a + b)[1..] == b;
    } else {
      assert (a + b)[1..] == a[1..] + b;
      JoinSpaceAppend(a[1..], b);
    }
  }

  /** A zero chunk at the bottom shifts every scale word up by one. */
  lemma PiecesOfThousands(num: nat, c: nat)
    requires c < 5 && num < Cap(c + 1)
    ensures num * 1000 < Cap(c)
    ensures Pieces(num * 1000, c) == Pieces(num, c + 1)
  {
    assert (num * 1000) / 1000 == num;
    assert (num * 1000) % 1000 == 0;
  }

  /** The lowest non-zero chunk is spelled last, with scale `c`. */
  lemma PiecesOfLowChunk(high: nat, low: nat, c: nat)
    requires c < 5 && high < Cap(c + 1) && 0 < low < 1000
    ensures high * 1000 + low < Cap(c)
    ensures Pieces(high * 1000 + low, c) == Pieces(high, c + 1) + [Piece(low, c)]
  {
    assert (high * 1000 + low) / 1000 == high;
    assert (high * 1000 + low) % 1000 == low;
  }

  /**
   * `convertNumberToWords(num)`: out-of-range numbers and 0 have fixed
   * answers; otherwise the `while` loop takes chunks from the low end,
   * prepending each non-zero chunk's piece, and the result is trimmed.
   */
  method ConvertNumberToWords(num: int) returns (r: string)
    ensures num < 0 || num > MaxWords ==> r == "Number out of range"
    ensures num == 0 ==> r == "zero"
    ensures 0 < num <= MaxWords ==> r == Trim(JoinSpace(Pieces(num, 0)))
  {
    if num < 0 || num > MaxWords {
      return "Number out of range";
    }
    if num == 0 {
      return "zero";
    }
    var words := ChunkWords(num);
    return Trim(words);
  }

  /** The `while` loop of `convertNumberToWords`: it builds the space-join of the pieces of `num`. */
  method ChunkWords(num: nat) returns (words: string)
    requires 0 < num <= MaxWords
    ensures words == JoinSpace(Pieces(num, 0))
  {
    var n: nat := num;
    words := "";
    var chunkCount := 0;
    ChunksAtStart(num);
    while n > 0
      invariant ChunksLeft(num, n, chunkCount, words)
      decreases n
    {
      PiecesStep(num, n, chunkCount, words);
      words := PrependChunk(words, n % 1000, chunkCount);
      n := n / 1000;
      chunkCount := chunkCount + 1;
    }
    ChunksAtEnd(num, chunkCount, words);
  }

  /**
   * The state of the `while` loop: `n` holds the chunks at scales `c` and
   * up, and their pieces followed by `words` join to the words of `num`.
   */
  predicate ChunksLeft(num: nat, n: nat, c: nat, words: string)
  {
    num <= MaxWords && c <= 5 && n < Cap(c)
    && JoinSpace(Pieces(num, 0)) == JoinSpace(Pieces(n, c) + if words == "" then [] else [words])
  }

  /** Before the first pass all chunks are left and no words are written. */
  lemma ChunksAtStart(num: nat)
    requires num <= MaxWords
    ensures ChunksLeft(num, num, 0, "")
  {
    assert Pieces(num, 0) + [] == Pieces(num, 0);
  }

  /** Once no chunk is left, the words are those of `num`. */
  lemma ChunksAtEnd(num: nat, c: nat, words: string)
    requires ChunksLeft(num, 0, c, words)
    ensures words == JoinSpace(Pieces(num, 0))
  {
    assert Pieces(0, c) == [];
    if words != "" {
      assert [] + [words] == [words];
    }
  }

  /** The words after a chunk: a non-zero chunk's piece goes in front, with a space when there are words already. */
  function Prepended(words: string, chunk: nat, c: nat): string
    requires chunk < 1000 && c < 5
  {
    if chunk > 0 then Piece(chunk, c) + (if words != "" then " " + words else words) else words
  }

  /** The body of the `while` loop: a non-zero chunk's words and scale, and a space, go in front of `words`. */
  method PrependChunk(words: string, chunk: nat, c: nat) returns (w: string)
    requires chunk < 1000 && c < 5
    ensures w == Prepended(words, chunk, c)
  {
    w := words;
    if chunk > 0 {
      if w != "" {
        w := " " + w;
      }
      w := Hundreds(chunk) + " " + Scales[c] + w;
    }
  }

  /** One pass of the loop keeps its state. */
  lemma PiecesStep(num: nat, n: nat, c: nat, words: string)
    requires 0 < n && ChunksLeft(num, n, c, words)
    ensures c < 5 && ChunksLeft(num, n / 1000, c + 1, Prepended(words, n % 1000, c))
  {
    PiecesBound(n, c);
    if n % 1000 > 0 {
      assert Pieces(n, c) == Pieces(n / 1000, c + 1) + [Piece(n % 1000, c)];
      PiecesJoin(Pieces(n / 1000, c + 1), Piece(n % 1000, c), words);
    } else {
      assert Pieces(n, c) == Pieces(n / 1000, c + 1) + [];
      assert Pieces(n, c) == Pieces(n / 1000, c + 1);
    }
  }

  lemma PiecesBound(n: nat, c: nat)
    requires 0 < n && c <= 5 && n < Cap(c)
    ensures c < 5 && n / 1000 < Cap(c + 1)
  {
    assert c < 5;
    assert Cap(c) == 1000 * Cap(c + 1);
  }

  /** Prepending `piece` to the words so far is joining it in front of them. */
  lemma PiecesJoin(rest: seq<string>, piece: string, words: string)
    ensures var tail := if words == "" then [] else [words];
      var next := piece + (if words != "" then " " + words else words);
      JoinSpace(rest + [piece] + tail) == JoinSpace(rest + [next])
  {
    var tail := if words == "" then [] else [words];
    assert rest + [piece] + tail == rest + ([piece] + tail);
    JoinSpaceAppend(rest, [piece] + tail);
    JoinSpaceAppend(rest, [piece + (if words != "" then " " + words else words)]);
    JoinSpaceAppend([piece], tail);
  }

  /** 1015 is one chunk at scale "thousand" and one at scale "". */
  lemma NumberWordsExample()
    ensures Pieces(1015, 0) == [Piece(1, 1), Piece(15, 0)]
  {
    PiecesOfLowChunk(1, 15, 0);
    PiecesOfLowChunk(0, 1, 1);
  }

  // -----------------------------------------------------------------------
  // convertToChineseUpperCase

  const ChineseDigits: seq<string> := ["零", "壹", "贰", "叁", "肆", "伍", "陆", "柒", "捌", "玖"]
  const ChineseUnits: seq<string> := ["", "拾", "佰", "仟"]
  const SectionMarks: seq<string> := ["", "万", "亿", "兆"]

  /** `digits[c]`: a digit's name, and `undefined` (written out) for any other character. */
  function DigitName(c: char): string
  {
    if IsDigit(c) then ChineseDigits[c as int - '0' as int] else "undefined"
  }

  /** `units[k]`, `undefined` past the table. */
  function UnitName(k: nat): string
  {
    if k < 4 then ChineseUnits[k] else "undefined"
  }

  /** `sections[k]`, `undefined` past the table. */
  function MarkName(k: nat): string
  {
    if k < 4 then SectionMarks[k] else "undefined"
  }

  function Concat(ss: seq<string>): string
  {
    if ss == [] then "" else Concat(ss[..|ss| - 1]) + ss[|ss| - 1]
  }

  /**
   * The groups the first loop `unshift`s: four characters at a time from the
   * right, so only the first group can be shorter.
   */
  function Groups(s: string): seq<string>
    decreases |s|
  {
    if s == [] then []
    else
      var lo := if |s| > 4 then |s| - 4 else 0;
      Groups(s[..lo]) + [s[lo..]]
  }

  /** The groups put back together are the text; each has one to four characters, and only the first fewer than four. */
  lemma {:induction false} GroupsShape(s: string)
    ensures Concat(Groups(s)) == s
    ensures forall k :: 0 <= k < |Groups(s)| ==> 0 < |Groups(s)[k]| <= 4
    ensures forall k :: 0 < k < |Groups(s)| ==> |Groups(s)[k]| == 4
    decreases |s|
  {
    if s != [] {
      var lo := if |s| > 4 then |s| - 4 else 0;
      GroupsShape(s[..lo]);
      var r := Groups(s);
      assert r == Groups(s[..lo]) + [s[lo..]];
      assert r[..|r| - 1] == Groups(s[..lo]);
      assert s[..lo] + s[lo..] == s;
      if lo == 0 {
        assert Groups(s[..lo]) == [];
      }
    }
  }

  /**
   * The inner loop over one group from position `pos`, `zero` being the
   * pending-zero flag: a zero digit only raises the flag; any other digit
   * writes one 零 if the flag is up, then its name and its unit.
   */
  function SectionScan(sec: string, pos: nat, zero: bool): string
    requires pos <= |sec|
    decreases |sec| - pos
  {
    if pos == |sec| then ""
    else if sec[pos] == '0' then SectionScan(sec, pos + 1, true)
    else (if zero then "零" else "") + DigitName(sec[pos]) + UnitName(|sec| - pos - 1) + SectionScan(sec, pos + 1, false)
  }

  /** A group of zeros writes nothing, so it gets no section mark. */
  lemma {:induction false} SectionOfZeros(sec: string, pos: nat, zero: bool)
    requires pos <= |sec|
    requires forall k :: pos <= k < |sec| ==> sec[k] == '0'
    ensures SectionScan(sec, pos, zero) == ""
    decreases |sec| - pos
  {
    if pos < |sec| {
      SectionOfZeros(sec, pos + 1, true);
    }
  }

  /** The `endsWith("零")` trim after the scan. */
  function DropFinalZero(w: string): string
  {
    if w != [] && w[|w| - 1] == '零' then w[..|w| - 1] else w
  }

  /** What group `sec` adds to the result when `k` groups follow it. */
  function SectionText(sec: string, k: nat): string
  {
    var w := DropFinalZero(SectionScan(sec, 0, false));
    w + (if w != "" then MarkName(k) else SectionMarks[0])
  }

  /** The outer loop from group `index` on. */
  function Assemble(groups: seq<string>, index: nat): string
    requires index <= |groups|
    decreases |groups| - index
  {
    if index == |groups| then ""
    else SectionText(groups[index], |groups| - index - 1) + Assemble(groups, index + 1)
  }

  predicate IsMark(c: char)
  {
    c == '万' || c == '亿' || c == '兆'
  }

  /** No two 零 in a row. */
  predicate NoZeroRun(s: string)
  {
    forall i :: 0 <= i < |s| - 1 ==> !(s[i] == '零' && s[i + 1] == '零')
  }

  /** No 零 right before a section mark. */
  predicate NoZeroBeforeMark(s: string)
  {
    forall i :: 0 <= i < |s| - 1 ==> !(s[i] == '零' && IsMark(s[i + 1]))
  }

  /** `s` with every `c` removed. */
  function Without(s: string, c: char): (r: string)
    ensures forall i :: 0 <= i < |r| ==> r[i] != c
  {
    if s == [] then [] else (if s[0] == c then [] else [s[0]]) + Without(s[1..], c)
  }

  lemma {:induction false} WithoutAppend(a: string, b: string, c: char)
    ensures Without(a + b, c) == Without(a, c) + Without(b, c)
  {
    if a == [] {
      assert a + b == b;
    } else {
      assert (a + b)[1..] == a[1..] + b;
      WithoutAppend(a[1..], b, c);
    }
  }

  function SkipZeros(s: string): (r: string)
    ensures |r| <= |s| && r == s[|s| - |r|..]
    ensures r == [] || r[0] != '零'
    ensures Without(s, '零') == Without(r, '零')
  {
    if s != [] && s[0] == '零' then SkipZeros(s[1..]) else s
  }

  /** `replace(/零+/g, "零")`: every run of 零 becomes one, and nothing else changes. */
  function CollapseZeros(s: string): (r: string)
    ensures s != [] ==> r != [] && r[0] == s[0]
    ensures NoZeroRun(r)
    ensures Without(r, '零') == Without(s, '零')
    decreases |s|
  {
    if s == [] then []
    else if s[0] == '零' then
      var rest := CollapseZeros(SkipZeros(s[1..]));
      assert Without(['零'] + rest, '零') == Without(rest, '零');
      ['零'] + rest
    else
      var rest := CollapseZeros(s[1..]);
      assert Without([s[0]] + rest, '零') == [s[0]] + Without(rest, '零');
      [s[0]] + rest
  }

  /** `replace(/零(万|亿|兆)/g, "$1")`, scanning left to right. */
  function DropZeroBeforeMark(s: string): (r: string)
    ensures s != [] ==> r != [] && r[0] == (if |s| >= 2 && s[0] == '零' && IsMark(s[1]) then s[1] else s[0])
    ensures NoZeroRun(s) ==> NoZeroRun(r) && NoZeroBeforeMark(r)
    decreases |s|
  {
    if s == [] then []
    else if |s| >= 2 && s[0] == '零' && IsMark(s[1]) then
      var rest := DropZeroBeforeMark(s[2..]);
      assert NoZeroRun(s) ==> NoZeroRun(s[2..]);
      [s[1]] + rest
    else
      var rest := DropZeroBeforeMark(s[1..]);
      assert NoZeroRun(s) ==> NoZeroRun(s[1..]);
      [s[0]] + rest
  }

  /** `replace(/亿万/, "亿")`: the first occurrence only. */
  function DropFirstYiWan(s: string): (r: string)
    ensures s != [] ==> r != [] && r[0] == s[0]
    ensures NoZeroRun(s) ==> NoZeroRun(r)
    ensures NoZeroBeforeMark(s) ==> NoZeroBeforeMark(r)
    decreases |s|
  {
    if s == [] then []
    else if |s| >= 2 && s[0] == '亿' && s[1] == '万' then
      assert NoZeroRun(s) ==> NoZeroRun(s[2..]);
      assert NoZeroBeforeMark(s) ==> NoZeroBeforeMark(s[2..]);
      "亿" + s[2..]
    else
      var rest := DropFirstYiWan(s[1..]);
      assert NoZeroRun(s) ==> NoZeroRun(s[1..]);
      assert NoZeroBeforeMark(s) ==> NoZeroBeforeMark(s[1..]);
      [s[0]] + rest
  }

  /** The three clean-ups, in order. */
  function CleanZeros(s: string): (r: string)
    ensures NoZeroRun(r) && NoZeroBeforeMark(r)
  {
    DropFirstYiWan(DropZeroBeforeMark(CollapseZeros(s)))
  }

  /**
   * `convertToChineseUpperCase(num)`: invalid for `null`, `undefined` and
   * anything `Number` reads as NaN; the number 0 (not the string "0") is 零;
   * a two-character `String(num)` ending in "0" is its first digit and 拾;
   * otherwise the cleaned concatenation of the groups.
   */
  function ChineseUpperCase(num: Value): string
  {
    if IsNullish(num) || !IsNumeric(num) then "Invalid input"
    else if num == Num(0) then "零"
    else ChineseOfNumeral(ToString(num))
  }

  /** The conversion proper, on `String(num)`. */
  function ChineseOfNumeral(numStr: string): string
  {
    if |numStr| == 2 && numStr[1] == '0' then DigitName(numStr[0]) + "拾"
    else CleanZeros(Assemble(Groups(numStr), 0))
  }

  /** Outside the invalid and special cases, the text has no doubled 零 and no 零 before a mark. */
  lemma ChineseZerosCleaned(num: Value)
    requires !IsNullish(num) && IsNumeric(num) && num != Num(0)
    requires !(|ToString(num)| == 2 && ToString(num)[1] == '0')
    ensures NoZeroRun(ChineseUpperCase(num)) && NoZeroBeforeMark(ChineseUpperCase(num))
  {
  }

  /** The number 10 and the other two-digit multiples of ten. */
  lemma ChineseTens(d: nat)
    requires 1 <= d <= 9
    ensures ChineseUpperCase(Num(d * 10)) == ChineseDigits[d] + "拾"
  {
    var s := NatToString(d * 10);
    assert s == NatToString(d) + [DigitChar(0)];
    assert NatToString(d) == [DigitChar(d)];
  }

  /**
   * `convertToChineseUpperCase(num)` with its loops: the groups are cut off
   * from the right, each group is scanned digit by digit with the pending-zero
   * flag, and the clean-ups run on the concatenation.
   */
  method ConvertToChineseUpperCase(num: Value) returns (r: string)
    ensures r == ChineseUpperCase(num)
  {
    if IsNullish(num) || !IsNumeric(num) {
      return "Invalid input";
    }
    if num == Num(0) {
      return "零";
    }
    r := ChineseOfText(ToString(num));
  }

  /** The loops and clean-ups on `numStr`. */
  method ChineseOfText(numStr: string) returns (r: string)
    ensures r == ChineseOfNumeral(numStr)
  {
    var groups := SplitGroups(numStr);
    var chinese := "";
    var index := 0;
    while index < |groups|
      invariant index <= |groups|
      invariant chinese + Assemble(groups, index) == Assemble(groups, 0)
    {
      var text := SectionWords(groups[index], |groups| - index - 1);
      AssembleStep(groups, index, chinese);
      chinese := chinese + text;
      index := index + 1;
    }
    assert chinese + "" == chinese;
    chinese := CleanZeros(chinese);
    if |numStr| == 2 && numStr[1] == '0' {
      chinese := DigitName(numStr[0]) + "拾";
    }
    return chinese;
  }

  /** One turn of the outer loop appends the text of one group. */
  lemma AssembleStep(groups: seq<string>, index: nat, chinese: string)
    requires index < |groups|
    ensures chinese + Assemble(groups, index)
         == (chinese + SectionText(groups[index], |groups| - index - 1)) + Assemble(groups, index + 1)
  {
  }

  /** The body of the outer loop: scan the group, drop a final 零, add the mark if anything was written. */
  method SectionWords(section: string, k: nat) returns (text: string)
    ensures text == SectionText(section, k)
  {
    var words := ScanSection(section);
    if words != [] && words[|words| - 1] == '零' {
      words := words[..|words| - 1];
    }
    text := words + (if words != "" then MarkName(k) else SectionMarks[0]);
  }

  /** The first loop: groups of four cut off from the right and `unshift`ed. */
  method SplitGroups(numStr: string) returns (groups: seq<string>)
    ensures groups == Groups(numStr)
  {
    groups := [];
    var i := |numStr|;
    assert numStr[..i] == numStr;
    while i > 0
      invariant i <= |numStr|
      invariant Groups(numStr[..if i > 0 then i else 0]) + groups == Groups(numStr)
      decreases i
    {
      var lo := if i - 4 > 0 then i - 4 else 0;
      assert numStr[..i][..lo] == numStr[..lo];
      assert numStr[..i][lo..] == numStr[lo..i];
      assert Groups(numStr[..i]) == Groups(numStr[..lo]) + [numStr[lo..i]];
      groups := [numStr[lo..i]] + groups;
      i := i - 4;
    }
    assert numStr[..0] == [];
  }

  /** A zero digit only raises the flag. */
  lemma ScanZero(sec: string, pos: nat, zero: bool)
    requires pos < |sec| && sec[pos] == '0'
    ensures SectionScan(sec, pos, zero) == SectionScan(sec, pos + 1, true)
  {
  }

  /** A non-zero digit with the flag up writes 零, then its name and unit. */
  lemma ScanPending(sec: string, pos: nat, words: string)
    requires pos < |sec| && sec[pos] != '0'
    ensures words + SectionScan(sec, pos, true)
         == ((words + "零") + (DigitName(sec[pos]) + UnitName(|sec| - pos - 1))) + SectionScan(sec, pos + 1, false)
  {
    var d, u, rest := DigitName(sec[pos]), UnitName(|sec| - pos - 1), SectionScan(sec, pos + 1, false);
    assert SectionScan(sec, pos, true) == (("零" + d) + u) + rest;
    Regroup(words, "零", d, u, rest);
  }

  /** Regrouping a five-part concatenation. */
  lemma Regroup(a: string, b: string, c: string, d: string, e: string)
    ensures a + (((b + c) + d) + e) == ((a + b) + (c + d)) + e
  {
  }

  /** A non-zero digit with the flag down writes its name and unit. */
  lemma ScanPlain(sec: string, pos: nat, words: string)
    requires pos < |sec| && sec[pos] != '0'
    ensures words + SectionScan(sec, pos, false)
         == (words + (DigitName(sec[pos]) + UnitName(|sec| - pos - 1))) + SectionScan(sec, pos + 1, false)
  {
    var d, u, rest := DigitName(sec[pos]), UnitName(|sec| - pos - 1), SectionScan(sec, pos + 1, false);
    assert SectionScan(sec, pos, false) == (("" + d) + u) + rest;
    Regroup(words, "", d, u, rest);
    assert words + "" == words;
  }

  /** The inner loop over one group. */
  method ScanSection(section: string) returns (words: string)
    ensures words == SectionScan(section, 0, false)
  {
    words := "";
    var zero := false;
    var pos := 0;
    assert Scanned(section, pos, zero, words);
    while pos < |section|
      invariant Scanned(section, pos, zero, words)
    {
      var digit := section[pos];
      if digit == '0' {
        ZeroStep(section, pos, zero, words);
        zero := true;
      } else {
        var piece := DigitName(digit) + UnitName(|section| - pos - 1);
        if zero {
          PendingStep(section, pos, words);
          words := words + "零";
          zero := false;
        } else {
          PlainStep(section, pos, words);
        }
        words := words + piece;
      }
      pos := pos + 1;
    }
    ScanEnd(section, zero, words);
  }

  /** The state of the inner loop: `words` followed by the scan from `pos` is the scan of the whole group. */
  predicate Scanned(section: string, pos: nat, zero: bool, words: string)
  {
    pos <= |section| && words + SectionScan(section, pos, zero) == SectionScan(section, 0, false)
  }

  /** A zero digit keeps the state with the flag raised. */
  lemma ZeroStep(section: string, pos: nat, zero: bool, words: string)
    requires Scanned(section, pos, zero, words) && pos < |section| && section[pos] == '0'
    ensures Scanned(section, pos + 1, true, words)
  {
    ScanZero(section, pos, zero);
  }

  /** A non-zero digit after zeros keeps the state with 零, its name and its unit written. */
  lemma PendingStep(section: string, pos: nat, words: string)
    requires Scanned(section, pos, true, words) && pos < |section| && section[pos] != '0'
    ensures Scanned(section, pos + 1, false, (words + "零") + (DigitName(section[pos]) + UnitName(|section| - pos - 1)))
  {
    ScanPending(section, pos, words);
  }

  /** A non-zero digit with the flag down keeps the state with its name and unit written. */
  lemma PlainStep(section: string, pos: nat, words: string)
    requires Scanned(section, pos, false, words) && pos < |section| && section[pos] != '0'
    ensures Scanned(section, pos + 1, false, words + (DigitName(section[pos]) + UnitName(|section| - pos - 1)))
  {
    ScanPlain(section, pos, words);
  }

  /** At the end of the group the words are its scan. */
  lemma ScanEnd(section: string, zero: bool, words: string)
    requires Scanned(section, |section|, zero, words)
    ensures words == SectionScan(section, 0, false)
  {
    assert words + "" == words;
  }

  // -----------------------------------------------------------------------
  // separateNumberByThousands

  /** The end of the run of decimal digits starting at `p`. */
  function DigitRunEnd(s: string, p: nat): (q: nat)
    requires p <= |s|
    ensures p <= q <= |s|
  {
    p + DigitPrefix(s[p..])
  }

  /**
   * `/\B(?=(\d{3})+(?!\d))/` matches the empty string at `p`: the character
   * before is a word character (so there is no word boundary before a digit),
   * and the run of digits from `p` is a non-zero multiple of three long.
   */
  predicate SeparatorAt(s: string, p: nat)
    requires p <= |s|
  {
    0 < p && IsWordChar(s[p - 1]) && var q := DigitRunEnd(s, p); q - p > 0 && (q - p) % 3 == 0
  }

  /**
   * What the group `(\d{3})` captured for a match at `p`: the repetition
   * `(\d{3})+` runs to the end of the digit run, so its last iteration is
   * the last three digits of that run.
   */
  function Capture(s: string, p: nat): (cap: string)
    requires p <= |s|
    ensures |cap| == 3 || cap == ""
  {
    var q := DigitRunEnd(s, p);
    if q - p >= 3 then s[q - 3..q] else ""
  }

  /**
   * The replacement text for an empty match at `p` of `s` with one capture
   * `cap`, as the GetSubstitution operation of ECMA-262 expands the template
   * `t`: `$$` is '$', `$&` the (empty) match, `` $` `` the text before the
   * match, `$'` the text after it, `$1` and `$01` the capture; any other `$`
   * stands for itself (`$0`, `$2` to `$9`, and `$<` without named groups).
   */
  function Substitute(t: string, s: string, p: nat, cap: string): string
    requires p <= |s|
    decreases |t|
  {
    if t == [] then []
    else if t[0] == '$' && |t| >= 2 then
      var c := t[1];
      if c == '$' then "$" + Substitute(t[2..], s, p, cap)
      else if c == '&' then Substitute(t[2..], s, p, cap)
      else if c == '`' then s[..p] + Substitute(t[2..], s, p, cap)
      else if c == '\'' then s[p..] + Substitute(t[2..], s, p, cap)
      else if c == '0' && |t| >= 3 && t[2] == '1' then cap + Substitute(t[3..], s, p, cap)
      else if c == '1' then cap + Substitute(t[2..], s, p, cap)
      else [t[0]] + Substitute(t[1..], s, p, cap)
    else [t[0]] + Substitute(t[1..], s, p, cap)
  }

  /** A template with no '$' is its own replacement. */
  lemma {:induction false} SubstituteLiteral(t: string, s: string, p: nat, cap: string)
    requires p <= |s| && forall i :: 0 <= i < |t| ==> t[i] != '$'
    ensures Substitute(t, s, p, cap) == t
    decreases |t|
  {
    if t != [] {
      SubstituteLiteral(t[1..], s, p, cap);
      assert t == [t[0]] + t[1..];
    }
  }

  /** A one-character template, '$' included, is literal. */
  lemma SubstituteSingle(c: char, s: string, p: nat, cap: string)
    requires p <= |s|
    ensures Substitute([c], s, p, cap) == [c]
  {
    assert [c][1..] == [];
  }

  /** The replacement from position `p` on: the expanded separator at every matching position. */
  function InsertSeparators(s: string, sep: string, p: nat): string
    requires p <= |s|
    decreases |s| - p
  {
    if p == |s| then ""
    else (if SeparatorAt(s, p) then Substitute(sep, s, p, Capture(s, p)) else "") + [s[p]] + InsertSeparators(s, sep, p + 1)
  }

  /** The position of the first '.', or the length when there is none. */
  function FirstDot(s: string): (d: nat)
    ensures d <= |s|
    ensures forall i :: 0 <= i < d ==> s[i] != '.'
    ensures d < |s| ==> s[d] == '.'
  {
    if s == [] || s[0] == '.' then 0 else 1 + FirstDot(s[1..])
  }

  /**
   * `separateNumberByThousands(num, separator = ",")`: invalid unless
   * `Number(num)` is a number; otherwise separators go into the text before
   * the first '.', and the rest (`parts.join(".")`) is kept.
   */
  function SeparateNumberByThousands(num: Value, separator: Value): string
  {
    if IsNullish(num) || !IsNumeric(num) then "Invalid input"
    else
      var numStr := ToString(num);
      var sep := if separator.Undefined? then "," else ToString(separator);
      var d := FirstDot(numStr);
      InsertSeparators(numStr[..d], sep, 0) + numStr[d..]
  }

  /** On a plain run of digits, separators go exactly before each full group of three from the right. */
  lemma SeparatorsInDigits(s: string, p: nat)
    requires AllDigits(s) && p <= |s|
    ensures SeparatorAt(s, p) <==> (0 < p < |s| && (|s| - p) % 3 == 0)
  {
    DigitPrefixAll(s[p..]);
  }

  /** Removing the separator character gives back the text, whatever it was. */
  lemma {:induction false} InsertThenRemove(s: string, c: char, p: nat)
    requires p <= |s|
    ensures Without(InsertSeparators(s, [c], p), c) == Without(s[p..], c)
    decreases |s| - p
  {
    if p < |s| {
      SubstituteSingle(c, s, p, Capture(s, p));
      var sep := if SeparatorAt(s, p) then [c] else "";
      InsertThenRemove(s, c, p + 1);
      WithoutAppend(sep + [s[p]], InsertSeparators(s, [c], p + 1), c);
      WithoutAppend(sep, [s[p]], c);
      assert s[p..] == [s[p]] + s[p + 1..];
      WithoutAppend([s[p]], s[p + 1..], c);
    }
  }

  lemma {:induction false} WithoutAbsent(s: string, c: char)
    requires forall i :: 0 <= i < |s| ==> s[i] != c
    ensures Without(s, c) == s
  {
    if s != [] {
      WithoutAbsent(s[1..], c);
    }
  }

  /**
   * For an integer and a one-character separator that is not a digit, '-'
   * or '.', removing the separators yields `num.toString()`.
   */
  lemma ThousandsRoundTrip(n: int, c: char)
    requires !IsDigit(c) && c != '-' && c != '.'
    ensures Without(SeparateNumberByThousands(Num(n), Str([c])), c) == IntToString(n)
  {
    var s := IntToString(n);
    SeparateOnInteger(n, c);
    InsertThenRemove(s, c, 0);
    assert s[0..] == s;
    assert forall i :: 0 <= i < |s| ==> IsDigit(s[i]) || s[i] == '-';
    WithoutAbsent(s, c);
  }

  /** An integer's text has no '.', so the separators go into all of it. */
  lemma SeparateOnInteger(n: int, c: char)
    ensures SeparateNumberByThousands(Num(n), Str([c])) == InsertSeparators(IntToString(n), [c], 0)
  {
    var s := IntToString(n);
    assert ToString(Str([c])) == [c];
    NoDotInInteger(n);
    assert s[..|s|] == s && s[|s|..] == [];
  }

  /** For any template, an integer's text has no '.', so the separators go into all of it. */
  lemma SeparateOnIntegerWith(n: int, t: string)
    ensures SeparateNumberByThousands(Num(n), Str(t)) == InsertSeparators(IntToString(n), t, 0)
  {
    var s := IntToString(n);
    assert ToString(Str(t)) == t;
    NoDotInInteger(n);
    assert s[..|s|] == s && s[|s|..] == [];
  }

  /** `$&` stands for the match, which is empty, so the separator "$&" inserts nothing. */
  lemma {:induction false} MatchTemplateInsertsNothing(s: string, p: nat)
    requires p <= |s|
    ensures InsertSeparators(s, "$&", p) == s[p..]
    decreases |s| - p
  {
    if p < |s| {
      MatchTemplateInsertsNothing(s, p + 1);
      assert "$&"[2..] == [];
      assert Substitute("$&", s, p, Capture(s, p)) == "";
      assert s[p..] == [s[p]] + s[p + 1..];
    }
  }

  /** `separateNumberByThousands(n, "$&")` is `n.toString()` unchanged. */
  lemma MatchTemplateKeepsInteger(n: int)
    ensures SeparateNumberByThousands(Num(n), Str("$&")) == IntToString(n)
  {
    SeparateOnIntegerWith(n, "$&");
    MatchTemplateInsertsNothing(IntToString(n), 0);
    assert IntToString(n)[0..] == IntToString(n);
  }

  /** `$$` stands for one '$', so the separator "$$" inserts "$". */
  lemma {:induction false} EscapedDollar(s: string, p: nat)
    requires p <= |s|
    ensures InsertSeparators(s, "$$", p) == InsertSeparators(s, "$", p)
    decreases |s| - p
  {
    if p < |s| {
      EscapedDollar(s, p + 1);
      assert "$$"[2..] == [];
      assert Substitute("$$", s, p, Capture(s, p)) == "$";
      SubstituteSingle('$', s, p, Capture(s, p));
    }
  }

  /** The text of an integer holds no '.'. */
  lemma NoDotInInteger(n: int)
    ensures FirstDot(IntToString(n)) == |IntToString(n)|
  {
    var s := IntToString(n);
    assert forall i :: 0 <= i < |s| ==> IsDigit(s[i]) || s[i] == '-';
  }

  // -----------------------------------------------------------------------
  // convertToRomanNumerals and convertRomanToInteger

  const RomanValues: seq<nat> := [1000, 900, 500, 400, 100, 90, 50, 40, 10, 9, 5, 4, 1]
  const RomanTokens: seq<string> := ["M", "CM", "D", "CD", "C", "XC", "L", "XL", "X", "IX", "V", "IV", "I"]

  /** The seven letters of the numeral table. */
  function RomanValue(c: char): Option<nat>
  {
    match c
    case 'I' => Some(1)
    case 'V' => Some(5)
    case 'X' => Some(10)
    case 'L' => Some(50)
    case 'C' => Some(100)
    case 'D' => Some(500)
    case 'M' => Some(1000)
    case _ => None
  }

  predicate IsRoman(s: string)
  {
    forall i :: 0 <= i < |s| ==> RomanValue(s[i]).Some?
  }

  /**
   * The greedy walk from table entry `i`: take entry `i` while it fits,
   * then move on.
   */
  function Greedy(n: nat, i: nat): string
    requires i <= 13
    decreases 13 - i, n
  {
    if i == 13 then ""
    else if n >= RomanValues[i] then RomanTokens[i] + Greedy(n - RomanValues[i], i)
    else Greedy(n, i + 1)
  }

  /**
   * `convertToRomanNumerals(num)`: refuses a non-number and a number outside
   * [1, 3999]; NaN slips through the comparisons and gives "". Only integers
   * are modelled.
   */
  method ConvertToRomanNumerals(num: Value) returns (r: Result<string>)
    ensures !num.NaN? && !(num.Num? && 1 <= num.n <= 3999) ==> r == Err(Error("Input must be an integer between 1 and 3999"))
    ensures num.NaN? ==> r == Ok("")
    ensures num.Num? && 1 <= num.n <= 3999 ==> r == Ok(Greedy(num.n, 0))
  {
    if num.NaN? {
      return Ok("");
    }
    if !(num.Num? && 1 <= num.n <= 3999) {
      return Err(Error("Input must be an integer between 1 and 3999"));
    }
    var numerals := RomanLoop(num.n);
    return Ok(numerals);
  }

  /** Taking entry `i` once. */
  lemma GreedyTake(n: nat, i: nat, result: string)
    requires i < 13 && n >= RomanValues[i]
    ensures result + Greedy(n, i) == (result + RomanTokens[i]) + Greedy(n - RomanValues[i], i)
  {
  }

  /** Moving past entry `i`. */
  lemma GreedySkip(n: nat, i: nat)
    requires i < 13 && n < RomanValues[i]
    ensures Greedy(n, i) == Greedy(n, i + 1)
  {
  }

  /** The loops of `convertToRomanNumerals`: each table entry, taken while it fits. */
  method RomanLoop(num: nat) returns (result: string)
    ensures result == Greedy(num, 0)
  {
    var n := num;
    result := "";
    var i := 0;
    while i < 13
      invariant 0 <= i <= 13
      invariant result + Greedy(n, i) == Greedy(num, 0)
    {
      while n >= RomanValues[i]
        invariant result + Greedy(n, i) == Greedy(num, 0)
        decreases n
      {
        GreedyTake(n, i, result);
        result := result + RomanTokens[i];
        n := n - RomanValues[i];
      }
      GreedySkip(n, i);
      i := i + 1;
    }
    assert result + Greedy(n, i) == result;
  }

  /**
   * The decoder's arithmetic: from the right, a letter smaller than its
   * right-hand neighbour (`prev`) is subtracted, any other letter added.
   */
  function Decode(s: string, prev: nat): int
    requires IsRoman(s)
  {
    if s == [] then 0
    else
      var v: int := RomanValue(s[|s| - 1]).value;
      (if v < prev then -v else v) + Decode(s[..|s| - 1], v)
  }

  /**
   * `convertRomanToInteger(s)`: the right-to-left loop. A character outside
   * the table reads as `undefined` and makes the sum NaN.
   */
  method ConvertRomanToInteger(s: string) returns (r: Value)
    ensures IsRoman(s) ==> r == Num(Decode(s, 0))
    ensures !IsRoman(s) ==> r == NaN
  {
    var result := 0;
    var nan := false;
    var prev := 0;
    var i := |s| - 1;
    while i >= 0
      invariant -1 <= i < |s|
      invariant nan <==> !IsRoman(s[i + 1..])
      invariant !nan ==> result == Decode(s[i + 1..], 0)
      invariant !nan ==> prev == if i + 1 < |s| then RomanValue(s[i + 1]).value else 0
      decreases i
    {
      var current := RomanValue(s[i]);
      if nan || current.None? {
        nan := true;
      } else {
        assert s[i..] == [s[i]] + s[i + 1..];
        DecodeAppend([s[i]], s[i + 1..], 0);
        result := (if current.value < prev then result - current.value else result + current.value);
        prev := current.value;
      }
      i := i - 1;
    }
    assert s[0..] == s;
    if nan {
      return NaN;
    }
    return Num(result);
  }

  lemma {:induction false} DecodeAppend(a: string, t: string, p: nat)
    requires IsRoman(a) && IsRoman(t)
    ensures IsRoman(a + t)
    ensures Decode(a + t, p) == Decode(a, if t == [] then p else RomanValue(t[0]).value) + Decode(t, p)
    decreases |t|
  {
    if t == [] {
      assert a + t == a;
    } else {
      var last := RomanValue(t[|t| - 1]).value;
      assert (a + t)[..|a + t| - 1] == a + t[..|t| - 1];
      DecodeAppend(a, t[..|t| - 1], last);
    }
  }

  /** A letter's sign depends only on its right neighbour: no smaller right neighbour, no change. */
  lemma DecodeFromBelow(s: string, p: nat)
    requires IsRoman(s) && s != [] && p <= RomanValue(s[|s| - 1]).value
    ensures Decode(s, p) == Decode(s, 0)
  {
  }

  function FirstValue(i: nat): nat
    requires i < 13
  {
    RomanValue(RomanTokens[i][0]).value
  }

  function LastValue(i: nat): nat
    requires i < 13
  {
    RomanValue(RomanTokens[i][|RomanTokens[i]| - 1]).value
  }

  /** Each table entry decodes to its value. */
  lemma TokenDecodes(i: nat)
    requires i < 13
    ensures IsRoman(RomanTokens[i]) && Decode(RomanTokens[i], 0) == RomanValues[i]
  {
  }

  /** No entry at or after `i` starts with a letter above the one entry `i` ends with. */
  lemma TokenOrder(i: nat, j: nat)
    requires i <= j < 13
    ensures FirstValue(j) <= LastValue(i)
  {
  }

  /** The greedy output starts with the first letter of an entry at or after `i`. */
  lemma {:induction false} GreedyStart(n: nat, i: nat) returns (j: nat)
    requires i <= 13 && Greedy(n, i) != []
    ensures i <= j < 13 && Greedy(n, i)[0] == RomanTokens[j][0]
    decreases 13 - i, n
  {
    if n >= RomanValues[i] {
      j := i;
    } else {
      j := GreedyStart(n, i + 1);
    }
  }

  /** The greedy walk writes only table letters. */
  lemma {:induction false} GreedyIsRoman(n: nat, i: nat)
    requires i <= 13
    ensures IsRoman(Greedy(n, i))
    ensures forall k :: 0 <= k < |Greedy(n, i)| ==> Greedy(n, i)[k] in "MDCLXVI"
    decreases 13 - i, n
  {
    if i < 13 {
      if n >= RomanValues[i] {
        GreedyIsRoman(n - RomanValues[i], i);
        TokenDecodes(i);
        assert forall k :: 0 <= k < |RomanTokens[i]| ==> RomanTokens[i][k] in "MDCLXVI";
      } else {
        GreedyIsRoman(n, i + 1);
      }
    }
  }

  /** From any entry but the last sentinel, the greedy walk spells exactly `n`. */
  lemma {:induction false} GreedyDecodes(n: nat, i: nat)
    requires i <= 12
    ensures IsRoman(Greedy(n, i)) && Decode(Greedy(n, i), 0) == n
    decreases 13 - i, n
  {
    if n >= RomanValues[i] {
      var rest := Greedy(n - RomanValues[i], i);
      GreedyIsRoman(n - RomanValues[i], i);
      GreedyDecodes(n - RomanValues[i], i);
      TokenDecodes(i);
      DecodeAppend(RomanTokens[i], rest, 0);
      if rest != [] {
        var j := GreedyStart(n - RomanValues[i], i);
        TokenOrder(i, j);
        DecodeFromBelow(RomanTokens[i], FirstValue(j));
      }
    } else if i < 12 {
      GreedyDecodes(n, i + 1);
    } else {
      assert RomanValues[12] == 1;
    }
  }

  /** `convertRomanToInteger(convertToRomanNumerals(n)) == n` on the accepted range. */
  lemma RomanRoundTrip(n: nat)
    requires 1 <= n <= 3999
    ensures IsRoman(Greedy(n, 0)) && Decode(Greedy(n, 0), 0) == n
    ensures forall k :: 0 <= k < |Greedy(n, 0)| ==> Greedy(n, 0)[k] in "MDCLXVI"
  {
    GreedyIsRoman(n, 0);
    GreedyDecodes(n, 0);
  }
}
