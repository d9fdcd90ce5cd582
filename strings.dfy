/**
 * The string helpers of the library: conversions between hyphenated
 * ("kebab-case") and camel-case names, capitalising words, and counting
 * characters. Each regular-expression replacement of the source is one
 * function here that scans its input left to right the way a global
 * `String.prototype.replace` does.
 */
module Strings {
  import opened Text

  /** The number of `-` characters `s` starts with. */
  function HyphenRun(s: string): (n: nat)
    ensures n <= |s|
    ensures forall i :: 0 <= i < n ==> s[i] == '-'
    ensures n == |s| || s[n] != '-'
  {
    if s == [] || s[0] != '-' then 0 else 1 + HyphenRun(s[1..])
  }

  /** The number of decimal digits `s` starts with. */
  function DigitRun(s: string): (n: nat)
    ensures n <= |s|
    ensures forall i :: 0 <= i < n ==> IsDigit(s[i])
    ensures n == |s| || !IsDigit(s[n])
  {
    if s == [] || !IsDigit(s[0]) then 0 else 1 + DigitRun(s[1..])
  }

  /** The number of characters other than `-` that `s` starts with: its first hyphen-free word. */
  function WordRun(s: string): (n: nat)
    ensures n <= |s|
    ensures forall i :: 0 <= i < n ==> s[i] != '-'
    ensures n == |s| || s[n] == '-'
  {
    if s == [] || s[0] == '-' then 0 else 1 + WordRun(s[1..])
  }

  predicate NoHyphen(w: string)
  {
    forall i :: 0 <= i < |w| ==> w[i] != '-'
  }

  predicate AllHyphens(h: string)
  {
    forall i :: 0 <= i < |h| ==> h[i] == '-'
  }

  /** Before a character that is not `-`, the hyphen run is all of `h`. */
  lemma {:induction false} HyphenRunBefore(h: string, x: string)
    requires AllHyphens(h) && (x == [] || x[0] != '-')
    ensures HyphenRun(h + x) == |h|
    decreases |h|
  {
    if h == [] {
      assert h + x == x;
    } else {
      assert (h + x)[1..] == h[1..] + x;
      HyphenRunBefore(h[1..], x);
    }
  }

  /** Decomposition of a name at its front: hyphen run `h`, word `w`, and the rest. */
  lemma FrontPieces(s: string)
    requires s != []
    ensures var j := HyphenRun(s); var k := j + WordRun(s[j..]);
      0 < k <= |s| && s == s[..j] + s[j..k] + s[k..]
      && AllHyphens(s[..j]) && NoHyphen(s[j..k]) && (s[k..] == [] || s[k..][0] == '-')
      && (j < k ==> s[j..k][0] == s[j]) && (j == k ==> j == |s|)
  {
    var j := HyphenRun(s);
    var n := WordRun(s[j..]);
    FrontHyphens(s, j);
    FrontWord(s, j, n);
    FrontConcat(s, j, j + n);
  }

  lemma FrontHyphens(s: string, j: nat)
    requires j <= |s| && forall i :: 0 <= i < j ==> s[i] == '-'
    ensures AllHyphens(s[..j])
  {
    forall i | 0 <= i < j ensures s[..j][i] == '-' {
      assert s[..j][i] == s[i];
    }
  }

  lemma FrontWord(s: string, j: nat, n: nat)
    requires j <= |s| && (j == |s| || s[j] != '-') && (j == 0 ==> s != [] && s[0] != '-')
    requires n == WordRun(s[j..])
    ensures 0 < j + n <= |s| && NoHyphen(s[j..j + n]) && (s[j + n..] == [] || s[j + n..][0] == '-')
    ensures (0 < n ==> s[j..j + n][0] == s[j]) && (n == 0 ==> j == |s|)
  {
    var t := s[j..];
    assert j < |s| ==> t[0] == s[j];
    var u := s[j..j + n];
    forall i | 0 <= i < n ensures u[i] != '-' {
      assert u[i] == t[i];
    }
    if j + n < |s| {
      assert s[j + n..][0] == t[n];
    }
  }

  lemma FrontConcat(s: string, j: nat, k: nat)
    requires j <= k <= |s|
    ensures s == s[..j] + s[j..k] + s[k..]
  {
    assert s[..j] + s[j..k] == s[..k];
  }

  lemma {:induction false} WordRunBefore(w: string, x: string)
    requires NoHyphen(w) && (x == [] || x[0] == '-')
    ensures WordRun(w + x) == |w|
    decreases |w|
  {
    if w == [] {
      assert w + x == x;
    } else {
      assert (w + x)[1..] == w[1..] + x;
      WordRunBefore(w[1..], x);
    }
  }

  /** Putting a hyphen run, a word and the rest together gives back exactly those three as the front pieces. */
  lemma PiecesOf(h: string, w: string, rest: string)
    requires AllHyphens(h) && NoHyphen(w) && (rest == [] || rest[0] == '-')
    requires w == [] ==> rest == []
    ensures var s := h + w + rest; var j := HyphenRun(s); var k := j + WordRun(s[j..]);
      j == |h| && k == |h| + |w| && s[..j] == h && s[j..k] == w && s[k..] == rest
  {
    var s := h + w + rest;
    assert s == h + (w + rest);
    HyphenRunBefore(h, w + rest);
    assert s[|h|..] == w + rest;
    WordRunBefore(w, rest);
    assert s[..|h|] == h && s[|h|..|h| + |w|] == w && s[|h| + |w|..] == rest;
  }

  /** `s.replace(/^-+/, "")`. */
  function StripLeadingHyphens(s: string): (r: string)
    ensures r == [] || r[0] != '-'
    ensures |r| <= |s| && r == s[|s| - |r|..]
    ensures forall i :: 0 <= i < |s| - |r| ==> s[i] == '-'
  {
    s[HyphenRun(s)..]
  }

  /** `s.replace(/-+$/, "")`. */
  function StripTrailingHyphens(s: string): (r: string)
    ensures r == [] || r[|r| - 1] != '-'
    ensures |r| <= |s| && r == s[..|r|]
    ensures forall i :: |r| <= i < |s| ==> s[i] == '-'
  {
    if s != [] && s[|s| - 1] == '-' then StripTrailingHyphens(s[..|s| - 1]) else s
  }

  /**
   * What a name spells when case and hyphens are ignored: its characters
   * lower-cased, with every `-` dropped. All three renaming functions
   * below keep it, which says which letters they write and in what order but
   * nothing about their case or where hyphens go; the piece-by-piece
   * definitions further down pin those.
   */
  function Key(s: string): string
  {
    if s == [] then [] else (if s[0] == '-' then [] else [LowerChar(s[0])]) + Key(s[1..])
  }

  lemma {:induction false} KeyAppend(a: string, b: string)
    ensures Key(a + b) == Key(a) + Key(b)
  {
    if a != [] {
      assert (a + b)[0] == a[0];
      assert (a + b)[1..] == a[1..] + b;
      KeyAppend(a[1..], b);
    } else {
      assert a + b == b;
    }
  }

  lemma KeySplit(s: string, n: nat)
    requires n <= |s|
    ensures Key(s) == Key(s[..n]) + Key(s[n..])
  {
    assert s == s[..n] + s[n..];
    KeyAppend(s[..n], s[n..]);
  }

  lemma KeyCons(c: char, t: string)
    ensures Key([c] + t) == (if c == '-' then [] else [LowerChar(c)]) + Key(t)
  {
    assert ([c] + t)[1..] == t;
  }

  lemma {:induction false} KeySkipHyphens(s: string, j: nat)
    requires j <= |s|
    requires forall i :: 0 <= i < j ==> s[i] == '-'
    ensures Key(s) == Key(s[j..])
  {
    if j > 0 {
      KeySkipHyphens(s[1..], j - 1);
      assert s[1..][j - 1..] == s[j..];
    }
  }

  lemma {:induction false} KeyOfHyphens(s: string)
    requires forall i :: 0 <= i < |s| ==> s[i] == '-'
    ensures Key(s) == []
  {
    if s != [] {
      KeyOfHyphens(s[1..]);
    }
  }

  lemma {:induction false} KeyOfLower(s: string)
    ensures Key(Lower(s)) == Key(s)
  {
    if s != [] {
      assert Lower(s)[1..] == Lower(s[1..]);
      KeyOfLower(s[1..]);
    }
  }

  lemma KeyOfStripLeading(s: string)
    ensures Key(StripLeadingHyphens(s)) == Key(s)
  {
    var n := HyphenRun(s);
    assert s == s[..n] + s[n..];
    KeyAppend(s[..n], s[n..]);
    KeyOfHyphens(s[..n]);
  }

  lemma KeyOfStripTrailing(s: string)
    ensures Key(StripTrailingHyphens(s)) == Key(s)
  {
    var r := StripTrailingHyphens(s);
    assert s == r + s[|r|..];
    KeyAppend(r, s[|r|..]);
    KeyOfHyphens(s[|r|..]);
  }

  // ---------------------------------------------------------------------
  // hyphenatedToLowerCamelCase

  /**
   * `s.replace(/-+(\d*[a-z])/g, g => g.toUpperCase())`: a run of hyphens
   * followed by digits and then a lower-case letter becomes those digits
   * and that letter in upper case; any other run of hyphens stays.
   */
  function UpperAfterHyphenRuns(s: string): string
    decreases |s|
  {
    if s == [] then []
    else var p := UpperPiece(s); p.0 + UpperAfterHyphenRuns(s[p.1..])
  }

  /**
   * One step of that scan at the front of `s`: the text written and the
   * number of characters consumed. A character other than `-` is copied;
   * a matching run is replaced; a run that does not match is copied whole.
   */
  function UpperPiece(s: string): (p: (string, nat))
    requires s != []
    ensures 0 < p.1 <= |s|
  {
    if s[0] != '-' then ([s[0]], 1)
    else HyphenPiece(s, HyphenRun(s), DigitRun(s[HyphenRun(s)..]))
  }

  /** The step at a run of `j` hyphens followed by `d` digits: the match, or the run copied. */
  function HyphenPiece(s: string, j: nat, d: nat): (p: (string, nat))
    requires 0 < j && j + d <= |s|
    ensures 0 < p.1 <= |s|
  {
    var k := j + d;
    if k < |s| && IsLower(s[k]) then (s[j..k] + [UpperChar(s[k])], k + 1)
    else (s[..j], j)
  }

  lemma KeyUpperLetter(d: string, c: char, t: string, t': string)
    requires IsLower(c) && Key(t') == Key(t)
    ensures Key(d + [UpperChar(c)] + t') == Key(d + [c] + t)
  {
    KeyUpperHead(c, t, t');
    KeyPrefixed(d, [UpperChar(c)] + t', [c] + t);
    assert d + [UpperChar(c)] + t' == d + ([UpperChar(c)] + t');
    assert d + [c] + t == d + ([c] + t);
  }

  lemma KeyUpperHead(c: char, t: string, t': string)
    requires IsLower(c) && Key(t') == Key(t)
    ensures Key([UpperChar(c)] + t') == Key([c] + t)
  {
    UpperOfLower(c);
    KeyCons(UpperChar(c), t');
    KeyCons(c, t);
  }

  lemma KeyPrefixed(d: string, x: string, y: string)
    requires Key(x) == Key(y)
    ensures Key(d + x) == Key(d + y)
  {
    KeyAppend(d, x);
    KeyAppend(d, y);
  }

  lemma {:induction false} KeyOfUpperAfterHyphenRuns(s: string)
    ensures Key(UpperAfterHyphenRuns(s)) == Key(s)
    decreases |s|
  {
    if s != [] {
      var p := UpperPiece(s);
      KeyOfUpperPiece(s);
      KeyOfUpperAfterHyphenRuns(s[p.1..]);
      KeySplit(s, p.1);
      KeyAppend(p.0, UpperAfterHyphenRuns(s[p.1..]));
    }
  }

  /** Each step writes the key of what it consumes. */
  lemma KeyOfUpperPiece(s: string)
    requires s != []
    ensures Key(UpperPiece(s).0) == Key(s[..UpperPiece(s).1])
  {
    if s[0] == '-' {
      var j := HyphenRun(s);
      var k := j + DigitRun(s[j..]);
      if k < |s| && IsLower(s[k]) {
        KeyOfUpperRunMatch(s, j, k);
      }
    }
  }

  /** A matching run: the hyphens are dropped and the letter upper-cased, which keeps the key. */
  lemma KeyOfUpperRunMatch(s: string, j: nat, k: nat)
    requires j <= k < |s| && IsLower(s[k])
    requires forall i :: 0 <= i < j ==> s[i] == '-'
    ensures Key(s[j..k] + [UpperChar(s[k])]) == Key(s[..k + 1])
  {
    assert s[..k + 1] == s[..j] + (s[j..k] + [s[k]]);
    KeyAppend(s[..j], s[j..k] + [s[k]]);
    KeyOfHyphens(s[..j]);
    KeyUpperLetter(s[j..k], s[k], [], []);
    assert s[j..k] + [UpperChar(s[k])] + [] == s[j..k] + [UpperChar(s[k])];
    assert s[j..k] + [s[k]] + [] == s[j..k] + [s[k]];
  }

  lemma UpperAfterHyphenRunsHead(s: string)
    requires s != [] && s[0] != '-'
    ensures UpperAfterHyphenRuns(s) != [] && UpperAfterHyphenRuns(s)[0] == s[0]
  {
  }

  /** `hyphenatedToLowerCamelCase`: "foo-bar-baz" becomes "fooBarBaz". */
  function HyphenatedToLowerCamelCase(name: string): string
  {
    StripTrailingHyphens(UpperAfterHyphenRuns(StripLeadingHyphens(Lower(name))))
  }

  /** The result neither starts nor ends with a hyphen and spells the same key. */
  lemma HyphenatedToLowerCamelCaseShape(name: string)
    ensures var r := HyphenatedToLowerCamelCase(name);
      (r == [] || (r[0] != '-' && r[|r| - 1] != '-')) && Key(r) == Key(name)
  {
    var t := StripLeadingHyphens(Lower(name));
    var u := UpperAfterHyphenRuns(t);
    if t != [] {
      UpperAfterHyphenRunsHead(t);
    }
    KeyOfLower(name);
    KeyOfStripLeading(Lower(name));
    KeyOfUpperAfterHyphenRuns(t);
    KeyOfStripTrailing(u);
  }

  /**
   * How the scan of `hyphenatedToLowerCamelCase` writes one word `w` with
   * the hyphen run `h` in front of it (empty for the first word): when the
   * word is digits and then a lower-case letter, the hyphens go and that
   * letter, after the digits, is upper-cased; otherwise the hyphens and the
   * word are kept as they are.
   */
  function LowerCamelPiece(h: string, w: string): string
  {
    var d := DigitRun(w);
    if h != [] && d < |w| && IsLower(w[d]) then w[..d] + [UpperChar(w[d])] + w[d + 1..]
    else h + w
  }

  /** An independent definition of the scan: the text cut into hyphen runs and words, piece by piece. */
  function LowerCamelPieces(s: string): string
    decreases |s|
  {
    if s == [] then []
    else
      var j := HyphenRun(s);
      var k := j + WordRun(s[j..]);
      FrontPieces(s);
      LowerCamelPiece(s[..j], s[j..k]) + LowerCamelPieces(s[k..])
  }

  lemma LowerCamelPiecesCons(h: string, w: string, rest: string)
    requires AllHyphens(h) && NoHyphen(w) && (rest == [] || rest[0] == '-')
    requires (w == [] ==> rest == []) && h + w != []
    ensures LowerCamelPieces(h + w + rest) == LowerCamelPiece(h, w) + LowerCamelPieces(rest)
  {
    PiecesOf(h, w, rest);
  }

  lemma {:induction false} UpperAfterSkipsWord(w: string, r: string)
    requires NoHyphen(w)
    ensures UpperAfterHyphenRuns(w + r) == w + UpperAfterHyphenRuns(r)
    decreases |w|
  {
    if w == [] {
      assert w + r == r;
    } else {
      assert (w + r)[0] == w[0] && (w + r)[1..] == w[1..] + r;
      UpperAfterSkipsWord(w[1..], r);
    }
  }

  lemma {:induction false} DigitRunInWord(w: string, x: string)
    requires NoHyphen(w) && (x == [] || x[0] == '-')
    ensures DigitRun(w + x) == DigitRun(w)
    decreases |w|
  {
    if w == [] {
      assert w + x == x;
    } else {
      assert (w + x)[0] == w[0] && (w + x)[1..] == w[1..] + x;
      DigitRunInWord(w[1..], x);
    }
  }

  /** One step of the scan at a hyphen run of length `j` followed by `d` digits. */
  lemma UpperPieceAtHyphen(s: string, j: nat, d: nat)
    requires s != [] && s[0] == '-' && HyphenRun(s) == j && j <= |s| && DigitRun(s[j..]) == d
    ensures UpperPiece(s) == HyphenPiece(s, j, d)
  {
  }

  lemma UpperAfterUnfold(s: string)
    requires s != []
    ensures UpperAfterHyphenRuns(s) == UpperPiece(s).0 + UpperAfterHyphenRuns(s[UpperPiece(s).1..])
  {
  }

  lemma UpperAfterStep(s: string, t: string, n: nat)
    requires s != [] && UpperPiece(s) == (t, n)
    ensures UpperAfterHyphenRuns(s) == t + UpperAfterHyphenRuns(s[n..])
  {
  }

  lemma Regroup3(a: string, b: string, c: string, x: string)
    ensures (a + b) + (c + x) == (a + b + c) + x
  {
  }

  lemma Regroup2(a: string, b: string, x: string)
    ensures a + (b + x) == (a + b) + x
  {
  }

  lemma SplitThree(s: string, h: string, w: string, rest: string)
    requires s == h + w + rest
    ensures s[|h|..] == w + rest && s[..|h|] == h
  {
  }

  lemma SplitInWord(s: string, h: string, w: string, rest: string, d: nat)
    requires s == h + w + rest && d < |w|
    ensures s[|h| + d] == w[d] && s[|h|..|h| + d] == w[..d] && s[|h| + d + 1..] == w[d + 1..] + rest
  {
  }

  lemma SplitAfterWord(s: string, h: string, w: string, rest: string, d: nat)
    requires s == h + w + rest && d <= |w| && |h| + d < |s|
    ensures s[|h| + d] == if d < |w| then w[d] else rest[0]
  {
  }

  /** After a hyphen run, the scan writes the piece and goes on after the word. */
  lemma LowerCamelLaterWord(s: string, h: string, w: string, rest: string)
    requires s == h + w + rest && AllHyphens(h) && h != [] && NoHyphen(w) && (rest == [] || rest[0] == '-')
    requires HyphenRun(s) == |h| && (w == [] ==> rest == [])
    ensures UpperAfterHyphenRuns(s) == LowerCamelPiece(h, w) + UpperAfterHyphenRuns(rest)
  {
    SplitThree(s, h, w, rest);
    DigitRunInWord(w, rest);
    var d := DigitRun(w);
    if d < |w| && IsLower(w[d]) {
      SplitInWord(s, h, w, rest, d);
      NoHyphenSuffix(w, d + 1);
      LowerCamelPieceMatch(h, w, d);
      LowerLaterMatch(s, |h|, d, w[..d] + [UpperChar(w[d])], w[d + 1..], rest);
    } else {
      if |h| + d < |s| {
        SplitAfterWord(s, h, w, rest, d);
      }
      LowerLaterKept(s, h, w, rest, d);
    }
  }

  lemma LowerLaterMatch(s: string, j: nat, d: nat, a: string, tail: string, rest: string)
    requires s != [] && s[0] == '-' && HyphenRun(s) == j && 0 < j && j + d < |s| && DigitRun(s[j..]) == d
    requires IsLower(s[j + d]) && a == s[j..j + d] + [UpperChar(s[j + d])]
    requires s[j + d + 1..] == tail + rest && NoHyphen(tail)
    ensures UpperAfterHyphenRuns(s) == (a + tail) + UpperAfterHyphenRuns(rest)
  {
    UpperPieceAtHyphen(s, j, d);
    HyphenPieceMatch(s, j, d);
    UpperAfterStep(s, a, j + d + 1);
    UpperAfterSkipsWord(tail, rest);
    Regroup2(a, tail, UpperAfterHyphenRuns(rest));
  }

  lemma HyphenPieceMatch(s: string, j: nat, d: nat)
    requires 0 < j && j + d < |s| && IsLower(s[j + d])
    ensures HyphenPiece(s, j, d) == (s[j..j + d] + [UpperChar(s[j + d])], j + d + 1)
  {
  }

  lemma LowerCamelPieceMatch(h: string, w: string, d: nat)
    requires h != [] && d == DigitRun(w) && d < |w| && IsLower(w[d])
    ensures LowerCamelPiece(h, w) == w[..d] + [UpperChar(w[d])] + w[d + 1..]
  {
  }

  lemma LowerLaterKept(s: string, h: string, w: string, rest: string, d: nat)
    requires s != [] && s[0] == '-' && HyphenRun(s) == |h| && h != [] && NoHyphen(w)
    requires d == DigitRun(w) && d <= |w| && !(d < |w| && IsLower(w[d])) && |h| + d <= |s| && DigitRun(s[|h|..]) == d
    requires s[|h|..] == w + rest && s[..|h|] == h
    requires |h| + d < |s| ==> s[|h| + d] == if d < |w| then w[d] else rest[0]
    requires rest == [] || rest[0] == '-'
    ensures UpperAfterHyphenRuns(s) == LowerCamelPiece(h, w) + UpperAfterHyphenRuns(rest)
  {
    var j := |h|;
    UpperPieceAtHyphen(s, j, d);
    UpperAfterUnfold(s);
    var p := HyphenPiece(s, j, d);
    assert p == (h, j);
    UpperAfterSkipsWord(w, rest);
    AssembleKept(UpperAfterHyphenRuns(s), h, UpperAfterHyphenRuns(s[p.1..]), w, UpperAfterHyphenRuns(rest), LowerCamelPiece(h, w));
  }

  lemma NoHyphenSuffix(w: string, k: nat)
    requires NoHyphen(w) && k <= |w|
    ensures NoHyphen(w[k..])
  {
    var t := w[k..];
    forall i | 0 <= i < |t| ensures t[i] != '-' {
      assert t[i] == w[k + i];
    }
  }

  lemma AssembleMatch(u: string, p0: string, y: string, a: string, tail: string, x: string, piece: string)
    requires u == p0 + y && p0 == a && y == tail + x && piece == a + tail
    ensures u == piece + x
  {
  }

  lemma AssembleKept(u: string, h: string, y: string, w: string, x: string, piece: string)
    requires u == h + y && y == w + x && piece == h + w
    ensures u == piece + x
  {
  }

  /** The scan of `hyphenatedToLowerCamelCase` writes the text piece by piece. */
  lemma {:induction false} LowerCamelPiecesAgree(s: string)
    ensures UpperAfterHyphenRuns(s) == LowerCamelPieces(s)
    decreases |s|
  {
    if s != [] {
      FrontPieces(s);
      var j := HyphenRun(s);
      var k := j + WordRun(s[j..]);
      var h, w, rest := s[..j], s[j..k], s[k..];
      if j == 0 {
        assert h == [] && s == w + rest;
        UpperAfterSkipsWord(w, rest);
      } else {
        LowerCamelLaterWord(s, h, w, rest);
      }
      LowerCamelPiecesAgree(rest);
    }
  }

  /**
   * `hyphenatedToLowerCamelCase`, for every input: the lower-cased text,
   * without its leading and trailing hyphens, written piece by piece. So the
   * result is lower-case except for the letter that ends each hyphen run,
   * digits and letter match, and every other hyphen run stays.
   */
  lemma HyphenatedToLowerCamelCasePieces(name: string)
    ensures HyphenatedToLowerCamelCase(name) == StripTrailingHyphens(LowerCamelPieces(StripLeadingHyphens(Lower(name))))
  {
    LowerCamelPiecesAgree(StripLeadingHyphens(Lower(name)));
  }

  // ---------------------------------------------------------------------
  // hyphenatedToUpperCamelCase

  predicate IsLowerOrDigit(c: char) { IsLower(c) || IsDigit(c) }

  /**
   * `s.replace(/(^|-+)([a-z0-9])/g, (m, p1, p2) => p2.toUpperCase())`.
   * `atStart` holds only at position 0, where `^` can match.
   */
  function CapitalizeAfterHyphenRuns(s: string, atStart: bool): string
    decreases |s|
  {
    if s == [] then []
    else if atStart && IsLowerOrDigit(s[0]) then [UpperChar(s[0])] + CapitalizeAfterHyphenRuns(s[1..], false)
    else if s[0] != '-' then [s[0]] + CapitalizeAfterHyphenRuns(s[1..], false)
    else
      var j := HyphenRun(s);
      if j < |s| && IsLowerOrDigit(s[j]) then [UpperChar(s[j])] + CapitalizeAfterHyphenRuns(s[j + 1..], false)
      else s[..j] + CapitalizeAfterHyphenRuns(s[j..], false)
  }

  /**
   * `s.replace(/(^|-+)([A-Z])/g, (m, p1, p2) => p2)`: a run of hyphens
   * before an upper-case letter is dropped. (At position 0 the `^`
   * alternative replaces a letter by itself, which changes nothing.)
   */
  function DropHyphensBeforeUpper(s: string): string
    decreases |s|
  {
    if s == [] then []
    else if s[0] != '-' then [s[0]] + DropHyphensBeforeUpper(s[1..])
    else
      var j := HyphenRun(s);
      if j < |s| && IsUpper(s[j]) then [s[j]] + DropHyphensBeforeUpper(s[j + 1..])
      else s[..j] + DropHyphensBeforeUpper(s[j..])
  }

  /** `hyphenatedToUpperCamelCase`: "foo-bar" becomes "FooBar". */
  function HyphenatedToUpperCamelCase(name: string): string
  {
    DropHyphensBeforeUpper(CapitalizeAfterHyphenRuns(StripTrailingHyphens(name), true))
  }

  /** No hyphen in `s` is directly followed by a character `Alnum` accepts, and `s` does not end in one. */
  predicate NoHyphenBeforeLowerOrDigit(s: string)
  {
    (s == [] || s[|s| - 1] != '-')
    && forall i :: 0 <= i < |s| - 1 && s[i] == '-' ==> !IsLowerOrDigit(s[i + 1])
  }

  predicate NoHyphenBeforeAlnum(s: string)
  {
    (s == [] || s[|s| - 1] != '-')
    && forall i :: 0 <= i < |s| - 1 && s[i] == '-' ==> !IsAlnum(s[i + 1])
  }

  lemma CleanLowerOrDigitCons(c: char, t: string)
    requires c != '-' && NoHyphenBeforeLowerOrDigit(t)
    ensures NoHyphenBeforeLowerOrDigit([c] + t)
  {
    var r := [c] + t;
    forall i | 0 <= i < |r| - 1 && r[i] == '-'
      ensures !IsLowerOrDigit(r[i + 1])
    {
      assert r[i] == t[i - 1] && r[i + 1] == t[i];
    }
  }

  lemma CleanLowerOrDigitRun(h: string, t: string)
    requires forall i :: 0 <= i < |h| ==> h[i] == '-'
    requires t != [] && t[0] != '-' && !IsLowerOrDigit(t[0]) && NoHyphenBeforeLowerOrDigit(t)
    ensures NoHyphenBeforeLowerOrDigit(h + t)
  {
    var r := h + t;
    forall i | 0 <= i < |r| - 1 && r[i] == '-'
      ensures !IsLowerOrDigit(r[i + 1])
    {
      if i + 1 < |h| {
      } else if i + 1 == |h| {
        assert r[i + 1] == t[0];
      } else {
        assert r[i] == t[i - |h|] && r[i + 1] == t[i - |h| + 1];
      }
    }
  }

  lemma CleanLowerOrDigitSuffix(s: string, m: nat)
    requires m <= |s| && NoHyphenBeforeLowerOrDigit(s)
    ensures NoHyphenBeforeLowerOrDigit(s[m..])
  {
    var t := s[m..];
    forall i | 0 <= i < |t| - 1 && t[i] == '-'
      ensures !IsLowerOrDigit(t[i + 1])
    {
      assert t[i] == s[m + i] && t[i + 1] == s[m + i + 1];
    }
  }

  lemma CleanAlnumCons(c: char, t: string)
    requires c != '-' && NoHyphenBeforeAlnum(t)
    ensures NoHyphenBeforeAlnum([c] + t)
  {
    var r := [c] + t;
    forall i | 0 <= i < |r| - 1 && r[i] == '-'
      ensures !IsAlnum(r[i + 1])
    {
      assert r[i] == t[i - 1] && r[i + 1] == t[i];
    }
  }

  lemma CleanAlnumRun(h: string, t: string)
    requires forall i :: 0 <= i < |h| ==> h[i] == '-'
    requires t != [] && t[0] != '-' && !IsAlnum(t[0]) && NoHyphenBeforeAlnum(t)
    ensures NoHyphenBeforeAlnum(h + t)
  {
    var r := h + t;
    forall i | 0 <= i < |r| - 1 && r[i] == '-'
      ensures !IsAlnum(r[i + 1])
    {
      if i + 1 < |h| {
      } else if i + 1 == |h| {
        assert r[i + 1] == t[0];
      } else {
        assert r[i] == t[i - |h|] && r[i + 1] == t[i - |h| + 1];
      }
    }
  }

  lemma CapitalizeAfterHyphenRunsHead(s: string)
    requires s != [] && s[0] != '-'
    ensures var r := CapitalizeAfterHyphenRuns(s, false); r != [] && r[0] == s[0]
  {
  }

  lemma DropHyphensBeforeUpperHead(s: string)
    requires s != [] && s[0] != '-'
    ensures var r := DropHyphensBeforeUpper(s); r != [] && r[0] == s[0]
  {
  }

  lemma {:induction false} CapitalizeAfterHyphenRunsClean(s: string, atStart: bool)
    requires s == [] || s[|s| - 1] != '-'
    ensures NoHyphenBeforeLowerOrDigit(CapitalizeAfterHyphenRuns(s, atStart))
    decreases |s|
  {
    if s == [] {
    } else if (atStart && IsLowerOrDigit(s[0])) || s[0] != '-' {
      CapitalizeAfterHyphenRunsClean(s[1..], false);
      var c := if atStart && IsLowerOrDigit(s[0]) then UpperChar(s[0]) else s[0];
      CleanLowerOrDigitCons(c, CapitalizeAfterHyphenRuns(s[1..], false));
    } else {
      var j := HyphenRun(s);
      if j < |s| && IsLowerOrDigit(s[j]) {
        CapitalizeAfterHyphenRunsClean(s[j + 1..], false);
        CleanLowerOrDigitCons(UpperChar(s[j]), CapitalizeAfterHyphenRuns(s[j + 1..], false));
      } else {
        assert j < |s|;
        CapitalizeAfterHyphenRunsClean(s[j..], false);
        CapitalizeAfterHyphenRunsHead(s[j..]);
        CleanLowerOrDigitRun(s[..j], CapitalizeAfterHyphenRuns(s[j..], false));
      }
    }
  }

  lemma {:induction false} DropHyphensBeforeUpperClean(s: string)
    requires NoHyphenBeforeLowerOrDigit(s)
    ensures NoHyphenBeforeAlnum(DropHyphensBeforeUpper(s))
    decreases |s|
  {
    if s == [] {
    } else if s[0] != '-' {
      CleanLowerOrDigitSuffix(s, 1);
      DropHyphensBeforeUpperClean(s[1..]);
      CleanAlnumCons(s[0], DropHyphensBeforeUpper(s[1..]));
    } else {
      var j := HyphenRun(s);
      assert j < |s| && !IsLowerOrDigit(s[j]) by {
        assert s[j - 1] == '-';
      }
      if IsUpper(s[j]) {
        CleanLowerOrDigitSuffix(s, j + 1);
        DropHyphensBeforeUpperClean(s[j + 1..]);
        CleanAlnumCons(s[j], DropHyphensBeforeUpper(s[j + 1..]));
      } else {
        CleanLowerOrDigitSuffix(s, j);
        DropHyphensBeforeUpperClean(s[j..]);
        DropHyphensBeforeUpperHead(s[j..]);
        CleanAlnumRun(s[..j], DropHyphensBeforeUpper(s[j..]));
      }
    }
  }

  lemma {:induction false} KeyOfCapitalizeAfterHyphenRuns(s: string, atStart: bool)
    ensures Key(CapitalizeAfterHyphenRuns(s, atStart)) == Key(s)
    decreases |s|
  {
    if s == [] {
    } else if atStart && IsLowerOrDigit(s[0]) {
      var rest := CapitalizeAfterHyphenRuns(s[1..], false);
      assert CapitalizeAfterHyphenRuns(s, atStart) == [UpperChar(s[0])] + rest;
      assert s == [s[0]] + s[1..];
      KeyOfCapitalizeAfterHyphenRuns(s[1..], false);
      KeyCapitalHead(s[0], s[1..], rest);
    } else if s[0] != '-' {
      var rest := CapitalizeAfterHyphenRuns(s[1..], false);
      assert CapitalizeAfterHyphenRuns(s, atStart) == [s[0]] + rest;
      assert s == [s[0]] + s[1..];
      KeyOfCapitalizeAfterHyphenRuns(s[1..], false);
      KeySameHead(s[0], s[1..], rest);
    } else {
      var j := HyphenRun(s);
      KeySkipHyphens(s, j);
      var r := CapitalizeAfterHyphenRuns(s, atStart);
      if j < |s| && IsLowerOrDigit(s[j]) {
        var rest := CapitalizeAfterHyphenRuns(s[j + 1..], false);
        assert r == [UpperChar(s[j])] + rest;
        assert s[j..] == [s[j]] + s[j + 1..];
        KeyOfCapitalizeAfterHyphenRuns(s[j + 1..], false);
        KeyCapitalHead(s[j], s[j + 1..], rest);
      } else {
        KeySkipHyphens(r, j);
        assert r[j..] == CapitalizeAfterHyphenRuns(s[j..], false);
        KeyOfCapitalizeAfterHyphenRuns(s[j..], false);
      }
    }
  }

  lemma KeyCapitalHead(c: char, t: string, t': string)
    requires IsLowerOrDigit(c) && Key(t') == Key(t)
    ensures Key([UpperChar(c)] + t') == Key([c] + t)
  {
    if IsLower(c) {
      KeyUpperHead(c, t, t');
    } else {
      KeySameHead(c, t, t');
    }
  }

  lemma KeySameHead(c: char, t: string, t': string)
    requires Key(t') == Key(t)
    ensures Key([c] + t') == Key([c] + t)
  {
    KeyCons(c, t');
    KeyCons(c, t);
  }

  lemma {:induction false} KeyOfDropHyphensBeforeUpper(s: string)
    ensures Key(DropHyphensBeforeUpper(s)) == Key(s)
    decreases |s|
  {
    if s == [] {
    } else if s[0] != '-' {
      assert s == [s[0]] + s[1..];
      KeyCons(s[0], s[1..]);
      KeyCons(s[0], DropHyphensBeforeUpper(s[1..]));
      KeyOfDropHyphensBeforeUpper(s[1..]);
    } else {
      var j := HyphenRun(s);
      KeySkipHyphens(s, j);
      var r := DropHyphensBeforeUpper(s);
      if j < |s| && IsUpper(s[j]) {
        assert s[j..] == [s[j]] + s[j + 1..];
        KeyCons(s[j], s[j + 1..]);
        KeyCons(s[j], DropHyphensBeforeUpper(s[j + 1..]));
        KeyOfDropHyphensBeforeUpper(s[j + 1..]);
      } else {
        KeySkipHyphens(r, j);
        assert r[j..] == DropHyphensBeforeUpper(s[j..]);
        KeyOfDropHyphensBeforeUpper(s[j..]);
      }
    }
  }

  /**
   * The result has no hyphen directly before a letter or digit, does not
   * end in a hyphen, and spells the same key as the input.
   */
  lemma HyphenatedToUpperCamelCaseShape(name: string)
    ensures var r := HyphenatedToUpperCamelCase(name);
      NoHyphenBeforeAlnum(r) && Key(r) == Key(name)
  {
    var t := StripTrailingHyphens(name);
    CapitalizeAfterHyphenRunsClean(t, true);
    DropHyphensBeforeUpperClean(CapitalizeAfterHyphenRuns(t, true));
    KeyOfStripTrailing(name);
    KeyOfCapitalizeAfterHyphenRuns(t, true);
    KeyOfDropHyphensBeforeUpper(CapitalizeAfterHyphenRuns(t, true));
  }

  /** A name that starts with a lower-case letter or a digit is capitalised. */
  lemma HyphenatedToUpperCamelCaseCapitalises(name: string)
    requires name != [] && IsLowerOrDigit(name[0])
    ensures var r := HyphenatedToUpperCamelCase(name); r != [] && r[0] == UpperChar(name[0])
  {
    var t := StripTrailingHyphens(name);
    assert t != [] && t[0] == name[0];
    var c := CapitalizeAfterHyphenRuns(t, true);
    assert c[0] == UpperChar(name[0]);
  }

  /**
   * How `hyphenatedToUpperCamelCase` writes one word `w` of the name
   * together with the hyphen run `h` in front of it (empty for the first
   * word): a word starting with a lower-case letter or a digit loses its
   * hyphens and has that character upper-cased; a word starting with a
   * capital loses its hyphens; any other word keeps them. Every other
   * character keeps its case.
   */
  function UpperCamelPiece(h: string, w: string): string
  {
    if w == [] then h
    else if IsLowerOrDigit(w[0]) then [UpperChar(w[0])] + w[1..]
    else if IsUpper(w[0]) then w
    else h + w
  }

  /** An independent definition of the conversion: the name cut into hyphen runs and words, piece by piece. */
  function UpperCamelPieces(s: string): string
    decreases |s|
  {
    if s == [] then []
    else
      var j := HyphenRun(s);
      var k := j + WordRun(s[j..]);
      FrontPieces(s);
      UpperCamelPiece(s[..j], s[j..k]) + UpperCamelPieces(s[k..])
  }

  lemma UpperCamelPiecesCons(h: string, w: string, rest: string)
    requires AllHyphens(h) && NoHyphen(w) && (rest == [] || rest[0] == '-')
    requires (w == [] ==> rest == []) && h + w != []
    ensures UpperCamelPieces(h + w + rest) == UpperCamelPiece(h, w) + UpperCamelPieces(rest)
  {
    PiecesOf(h, w, rest);
  }

  lemma {:induction false} CapitalizeSkipsWord(w: string, r: string)
    requires NoHyphen(w)
    ensures CapitalizeAfterHyphenRuns(w + r, false) == w + CapitalizeAfterHyphenRuns(r, false)
    decreases |w|
  {
    if w == [] {
      assert w + r == r;
    } else {
      assert (w + r)[0] == w[0] && (w + r)[1..] == w[1..] + r;
      CapitalizeSkipsWord(w[1..], r);
    }
  }

  lemma {:induction false} DropSkipsWord(w: string, r: string)
    requires NoHyphen(w)
    ensures DropHyphensBeforeUpper(w + r) == w + DropHyphensBeforeUpper(r)
    decreases |w|
  {
    if w == [] {
      assert w + r == r;
    } else {
      assert (w + r)[0] == w[0] && (w + r)[1..] == w[1..] + r;
      DropSkipsWord(w[1..], r);
    }
  }

  lemma UpperOfLowerOrDigit(c: char)
    requires IsLowerOrDigit(c)
    ensures UpperChar(c) != '-'
  {
  }

  /** A word whose first character is capitalised: both steps write it with that character upper-cased. */
  lemma CapitalisedWord(w: string, rest: string, x: string)
    requires w != [] && NoHyphen(w) && IsLowerOrDigit(w[0])
    requires x == CapitalizeAfterHyphenRuns(w[1..] + rest, false)
    ensures DropHyphensBeforeUpper([UpperChar(w[0])] + x)
      == [UpperChar(w[0])] + w[1..] + DropHyphensBeforeUpper(CapitalizeAfterHyphenRuns(rest, false))
  {
    var u := [UpperChar(w[0])] + w[1..];
    UpperOfLowerOrDigit(w[0]);
    CapitalizeSkipsWord(w[1..], rest);
    assert [UpperChar(w[0])] + x == u + CapitalizeAfterHyphenRuns(rest, false);
    DropSkipsWord(u, CapitalizeAfterHyphenRuns(rest, false));
  }

  /** A word after hyphens that is not capitalised: the first step keeps it and its hyphens. */
  lemma KeptWordAfterHyphens(h: string, w: string, x: string)
    requires h != [] && AllHyphens(h) && w != [] && NoHyphen(w) && !IsLowerOrDigit(w[0])
    ensures DropHyphensBeforeUpper(h + w + x) == UpperCamelPiece(h, w) + DropHyphensBeforeUpper(x)
  {
    var s := h + w + x;
    assert s == h + (w + x);
    HyphenRunBefore(h, w + x);
    assert s[..|h|] == h && s[|h|..] == w + x;
    DropKeptRun(s, |h|, w, x);
  }

  lemma DropKeptRun(s: string, j: nat, w: string, x: string)
    requires 0 < j < |s| && HyphenRun(s) == j && s[j..] == w + x
    requires w != [] && NoHyphen(w) && !IsLowerOrDigit(w[0])
    ensures DropHyphensBeforeUpper(s) == UpperCamelPiece(s[..j], w) + DropHyphensBeforeUpper(x)
  {
    var h := s[..j];
    assert s[j] == w[0];
    if IsUpper(w[0]) {
      assert s[j + 1..] == w[1..] + x;
      DropUpperAt(s, j, w, x);
      assert UpperCamelPiece(h, w) == w;
    } else {
      DropRunKept(s, j);
      DropSkipsWord(w, x);
      assert UpperCamelPiece(h, w) == h + w;
      Regroup2(h, w, DropHyphensBeforeUpper(x));
    }
  }

  lemma DropUpperAt(s: string, j: nat, w: string, x: string)
    requires s != [] && s[0] == '-' && HyphenRun(s) == j && j < |s| && w != [] && s[j] == w[0] && IsUpper(w[0])
    requires s[j + 1..] == w[1..] + x && NoHyphen(w)
    ensures DropHyphensBeforeUpper(s) == w + DropHyphensBeforeUpper(x)
  {
    DropRunUpper(s, j);
    DropUpperWord(w, x, DropHyphensBeforeUpper(s));
  }

  lemma DropUpperWord(w: string, x: string, d: string)
    requires w != [] && NoHyphen(w) && IsUpper(w[0])
    requires d == [w[0]] + DropHyphensBeforeUpper(w[1..] + x)
    ensures d == w + DropHyphensBeforeUpper(x)
  {
    DropSkipsWord(w[1..], x);
    assert [w[0]] + w[1..] == w;
  }

  /** One step of the second replacement at a hyphen run before a capital: the run goes. */
  lemma DropRunUpper(s: string, j: nat)
    requires s != [] && s[0] == '-' && HyphenRun(s) == j && j < |s| && IsUpper(s[j])
    ensures DropHyphensBeforeUpper(s) == [s[j]] + DropHyphensBeforeUpper(s[j + 1..])
  {
  }

  /** One step of the second replacement at any other hyphen run: the run stays. */
  lemma DropRunKept(s: string, j: nat)
    requires s != [] && s[0] == '-' && HyphenRun(s) == j && !(j < |s| && IsUpper(s[j]))
    ensures DropHyphensBeforeUpper(s) == s[..j] + DropHyphensBeforeUpper(s[j..])
  {
  }

  /** One step of the first replacement at a hyphen. */
  lemma CapitalizeAtHyphen(s: string, atStart: bool)
    requires s != [] && s[0] == '-'
    ensures var j := HyphenRun(s);
      CapitalizeAfterHyphenRuns(s, atStart)
        == if j < |s| && IsLowerOrDigit(s[j]) then [UpperChar(s[j])] + CapitalizeAfterHyphenRuns(s[j + 1..], false)
           else s[..j] + CapitalizeAfterHyphenRuns(s[j..], false)
  {
  }

  /** The first word of a name, at the start of the name. */
  lemma UpperCamelFirstWord(s: string)
    requires s != [] && s[0] != '-'
    ensures var k := WordRun(s);
      DropHyphensBeforeUpper(CapitalizeAfterHyphenRuns(s, true))
        == UpperCamelPiece([], s[..k]) + DropHyphensBeforeUpper(CapitalizeAfterHyphenRuns(s[k..], false))
  {
    FrontPieces(s);
    var k := WordRun(s);
    var w, rest := s[..k], s[k..];
    assert HyphenRun(s) == 0;
    if IsLowerOrDigit(s[0]) {
      FirstWordCapitalised(s, w, rest);
    } else {
      FirstWordKept(s, w, rest);
    }
  }

  lemma FirstWordCapitalised(s: string, w: string, rest: string)
    requires s == w + rest && w != [] && NoHyphen(w) && IsLowerOrDigit(w[0])
    ensures DropHyphensBeforeUpper(CapitalizeAfterHyphenRuns(s, true))
      == UpperCamelPiece([], w) + DropHyphensBeforeUpper(CapitalizeAfterHyphenRuns(rest, false))
  {
    assert s[0] == w[0] && s[1..] == w[1..] + rest;
    assert CapitalizeAfterHyphenRuns(s, true) == [UpperChar(w[0])] + CapitalizeAfterHyphenRuns(s[1..], false);
    CapitalisedWord(w, rest, CapitalizeAfterHyphenRuns(s[1..], false));
  }

  lemma FirstWordKept(s: string, w: string, rest: string)
    requires s == w + rest && w != [] && NoHyphen(w) && !IsLowerOrDigit(w[0])
    ensures DropHyphensBeforeUpper(CapitalizeAfterHyphenRuns(s, true))
      == UpperCamelPiece([], w) + DropHyphensBeforeUpper(CapitalizeAfterHyphenRuns(rest, false))
  {
    var x := CapitalizeAfterHyphenRuns(rest, false);
    CapitalizeStartKept(s);
    CapitalizeSkipsWord(w, rest);
    DropSkipsWord(w, x);
    assert UpperCamelPiece([], w) == w;
  }

  /** At the start of a name, a first character that is not capitalised leaves the first step as elsewhere. */
  lemma CapitalizeStartKept(s: string)
    requires s != [] && !IsLowerOrDigit(s[0])
    ensures CapitalizeAfterHyphenRuns(s, true) == CapitalizeAfterHyphenRuns(s, false)
  {
  }

  /** A name that is one hyphen run: both steps keep it. */
  lemma OnlyHyphens(s: string, atStart: bool)
    requires s != [] && s[0] == '-' && HyphenRun(s) == |s|
    ensures DropHyphensBeforeUpper(CapitalizeAfterHyphenRuns(s, atStart)) == s
  {
    CapitalizeAtHyphen(s, atStart);
    assert s[..|s|] == s && s[|s|..] == [];
    assert CapitalizeAfterHyphenRuns(s, atStart) == s;
    DropRunKept(s, |s|);
  }

  /** A later word of a name, with the hyphen run in front of it. */
  lemma UpperCamelLaterWord(s: string, atStart: bool)
    requires s != [] && s[0] == '-'
    ensures var j := HyphenRun(s); var k := j + WordRun(s[j..]);
      DropHyphensBeforeUpper(CapitalizeAfterHyphenRuns(s, atStart))
        == UpperCamelPiece(s[..j], s[j..k]) + DropHyphensBeforeUpper(CapitalizeAfterHyphenRuns(s[k..], false))
  {
    FrontPieces(s);
    var j := HyphenRun(s);
    var k := j + WordRun(s[j..]);
    var h, w, rest := s[..j], s[j..k], s[k..];
    if j == k {
      OnlyHyphens(s, atStart);
      assert UpperCamelPiece(h, w) == s && rest == [];
    } else {
      CapitalizeAtHyphen(s, atStart);
      if IsLowerOrDigit(w[0]) {
        LaterWordCapitalised(s, h, w, rest, atStart);
      } else {
        LaterWordKept(s, h, w, rest, atStart);
      }
    }
  }

  lemma LaterWordCapitalised(s: string, h: string, w: string, rest: string, atStart: bool)
    requires s == h + w + rest && h != [] && AllHyphens(h) && w != [] && NoHyphen(w) && IsLowerOrDigit(w[0])
    requires HyphenRun(s) == |h|
    requires CapitalizeAfterHyphenRuns(s, atStart) == [UpperChar(w[0])] + CapitalizeAfterHyphenRuns(s[|h| + 1..], false)
    ensures DropHyphensBeforeUpper(CapitalizeAfterHyphenRuns(s, atStart))
      == UpperCamelPiece(h, w) + DropHyphensBeforeUpper(CapitalizeAfterHyphenRuns(rest, false))
  {
    assert s[|h| + 1..] == w[1..] + rest;
    CapitalisedWord(w, rest, CapitalizeAfterHyphenRuns(s[|h| + 1..], false));
  }

  lemma LaterWordKept(s: string, h: string, w: string, rest: string, atStart: bool)
    requires s == h + w + rest && h != [] && AllHyphens(h) && w != [] && NoHyphen(w) && !IsLowerOrDigit(w[0])
    requires CapitalizeAfterHyphenRuns(s, atStart) == s[..|h|] + CapitalizeAfterHyphenRuns(s[|h|..], false)
    ensures DropHyphensBeforeUpper(CapitalizeAfterHyphenRuns(s, atStart))
      == UpperCamelPiece(h, w) + DropHyphensBeforeUpper(CapitalizeAfterHyphenRuns(rest, false))
  {
    assert s[..|h|] == h && s[|h|..] == w + rest;
    CapitalizeSkipsWord(w, rest);
    var x := CapitalizeAfterHyphenRuns(rest, false);
    assert CapitalizeAfterHyphenRuns(s, atStart) == h + w + x;
    KeptWordAfterHyphens(h, w, x);
  }

  /** The two replacements together write the name piece by piece. */
  lemma {:induction false} UpperCamelPiecesAgree(s: string, atStart: bool)
    requires atStart || s == [] || s[0] == '-'
    ensures DropHyphensBeforeUpper(CapitalizeAfterHyphenRuns(s, atStart)) == UpperCamelPieces(s)
    decreases |s|
  {
    if s != [] {
      FrontPieces(s);
      var j := HyphenRun(s);
      var k := j + WordRun(s[j..]);
      if s[0] == '-' {
        UpperCamelLaterWord(s, atStart);
      } else {
        assert k == WordRun(s) && s[..j] == [];
        UpperCamelFirstWord(s);
      }
      UpperCamelPiecesAgree(s[k..], false);
    }
  }

  /**
   * `hyphenatedToUpperCamelCase` writes the name without its trailing
   * hyphens piece by piece: the lower-case letter or digit that starts a
   * word is upper-cased, the hyphens before a word starting with a letter
   * or digit are dropped, and every other character is kept as written.
   */
  lemma HyphenatedToUpperCamelCasePieces(name: string)
    ensures HyphenatedToUpperCamelCase(name) == UpperCamelPieces(StripTrailingHyphens(name))
  {
    UpperCamelPiecesAgree(StripTrailingHyphens(name), true);
  }


  // ---------------------------------------------------------------------
  // camelCaseToHyphenated

  /** `s.replace(/^([A-Z])/, g => g.toLowerCase())`. */
  function LowerFirst(s: string): string
  {
    if s != [] && IsUpper(s[0]) then [LowerChar(s[0])] + s[1..] else s
  }

  /** `s.replace(/([A-Z])/g, "-$1")`. */
  function HyphenBeforeUpper(s: string): string
  {
    if s == [] then []
    else (if IsUpper(s[0]) then ['-', s[0]] else [s[0]]) + HyphenBeforeUpper(s[1..])
  }

  function CountUpper(s: string): nat
  {
    if s == [] then 0 else (if IsUpper(s[0]) then 1 else 0) + CountUpper(s[1..])
  }

  lemma {:induction false} HyphenBeforeUpperLength(s: string)
    ensures |HyphenBeforeUpper(s)| == |s| + CountUpper(s)
  {
    if s != [] {
      HyphenBeforeUpperLength(s[1..]);
    }
  }

  lemma {:induction false} KeyOfHyphenBeforeUpper(s: string)
    ensures Key(HyphenBeforeUpper(s)) == Key(s)
  {
    if s != [] {
      var head := if IsUpper(s[0]) then ['-', s[0]] else [s[0]];
      KeyAppend(head, HyphenBeforeUpper(s[1..]));
      assert Key(head) == Key([s[0]]);
      assert s == [s[0]] + s[1..];
      KeyAppend([s[0]], s[1..]);
      KeyOfHyphenBeforeUpper(s[1..]);
    }
  }

  /** `camelCaseToHyphenated`: "fooBarBaz" becomes "foo-bar-baz". */
  function CamelCaseToHyphenated(name: string): string
  {
    Lower(HyphenBeforeUpper(LowerFirst(name)))
  }

  /**
   * The result has no upper-case letter, is one character longer for each
   * upper-case letter after the first position, and spells the same key.
   */
  lemma CamelCaseToHyphenatedShape(name: string)
    ensures var r := CamelCaseToHyphenated(name);
      (forall i :: 0 <= i < |r| ==> !IsUpper(r[i]))
      && |r| == |name| + (if name == [] then 0 else CountUpper(name[1..]))
      && Key(r) == Key(name)
  {
    var f := LowerFirst(name);
    HyphenBeforeUpperLength(f);
    if name != [] {
      assert f[1..] == name[1..];
    }
    KeyOfLower(HyphenBeforeUpper(f));
    KeyOfHyphenBeforeUpper(f);
    if name != [] {
      assert name == [name[0]] + name[1..] && f == [f[0]] + f[1..];
      KeyAppend([name[0]], name[1..]);
      KeyAppend([f[0]], f[1..]);
    }
  }

  /** Every character is an ASCII letter or digit. */
  predicate IsAlnumName(s: string)
  {
    forall i :: 0 <= i < |s| ==> IsAlnum(s[i])
  }

  lemma {:induction false} UpperAfterHyphenRunsUndoes(s: string)
    requires IsAlnumName(s)
    ensures UpperAfterHyphenRuns(Lower(HyphenBeforeUpper(s))) == s
  {
    if s != [] {
      var rest := Lower(HyphenBeforeUpper(s[1..]));
      UpperAfterHyphenRunsUndoes(s[1..]);
      LowerHyphenBeforeUpperCons(s);
      if IsUpper(s[0]) {
        UndoUpperStep(s[0], rest);
      } else {
        UndoPlainStep(s[0], rest);
      }
    }
  }

  lemma LowerHyphenBeforeUpperCons(s: string)
    requires s != []
    ensures Lower(HyphenBeforeUpper(s)) ==
      (if IsUpper(s[0]) then ['-', LowerChar(s[0])] else [LowerChar(s[0])]) + Lower(HyphenBeforeUpper(s[1..]))
  {
    var tail := HyphenBeforeUpper(s[1..]);
    if IsUpper(s[0]) {
      LowerPair('-', s[0]);
      LowerAppend(['-', s[0]], tail);
      assert HyphenBeforeUpper(s) == ['-', s[0]] + tail;
    } else {
      LowerAppend([s[0]], tail);
      assert HyphenBeforeUpper(s) == [s[0]] + tail;
    }
  }

  lemma LowerPair(a: char, b: char)
    ensures Lower([a, b]) == [LowerChar(a), LowerChar(b)]
  {
    var r := Lower([a, b]);
    assert |r| == 2 && r[0] == LowerChar(a) && r[1] == LowerChar(b);
  }

  /** An upper-case letter comes back from its hyphen and lower-case form. */
  lemma UndoUpperStep(c: char, rest: string)
    requires IsUpper(c)
    ensures UpperAfterHyphenRuns(['-', LowerChar(c)] + rest) == [c] + UpperAfterHyphenRuns(rest)
  {
    var t := ['-', LowerChar(c)] + rest;
    UpperPieceOfPair(t);
    assert t[2..] == rest;
  }

  /** A single hyphen before a lower-case letter: the letter in upper case. */
  lemma UpperPieceOfPair(t: string)
    requires |t| >= 2 && t[0] == '-' && IsLower(t[1])
    ensures UpperPiece(t) == ([UpperChar(t[1])], 2)
  {
    assert t[1..][0] == t[1];
    assert HyphenRun(t[1..]) == 0;
    assert HyphenRun(t) == 1;
    assert DigitRun(t[1..]) == 0;
    assert t[1..1] + [UpperChar(t[1])] == [UpperChar(t[1])];
  }

  /** Any character but a hyphen is copied. */
  lemma UndoPlainStep(c: char, rest: string)
    requires c != '-' && !IsUpper(c)
    ensures UpperAfterHyphenRuns([LowerChar(c)] + rest) == [c] + UpperAfterHyphenRuns(rest)
  {
    var t := [c] + rest;
    assert UpperPiece(t) == ([c], 1);
    assert t[1..] == rest;
  }

  /**
   * Round trip: a camel-case name made of letters and digits that does not
   * start with an upper-case letter comes back unchanged from
   * `hyphenatedToLowerCamelCase(camelCaseToHyphenated(name))`.
   */
  lemma CamelCaseRoundTrip(name: string)
    requires IsAlnumName(name)
    requires name == [] || !IsUpper(name[0])
    ensures HyphenatedToLowerCamelCase(CamelCaseToHyphenated(name)) == name
  {
    var h := CamelCaseToHyphenated(name);
    assert LowerFirst(name) == name;
    assert Lower(h) == h;
    assert StripLeadingHyphens(h) == h by {
      if name != [] {
        assert h[0] == name[0];
      }
    }
    UpperAfterHyphenRunsUndoes(name);
    assert StripTrailingHyphens(name) == name by {
      if name != [] {
        assert name[|name| - 1] != '-';
      }
    }
  }

  // ---------------------------------------------------------------------
  // capitalizeWords

  /** `t.split(" ")`. */
  function SplitOnSpace(t: string): (r: seq<string>)
    ensures |r| >= 1
  {
    if t == [] then [[]]
    else
      var rest := SplitOnSpace(t[1..]);
      if t[0] == ' ' then [[]] + rest else [[t[0]] + rest[0]] + rest[1..]
  }

  /** `words.join(" ")`. */
  function JoinWithSpace(words: seq<string>): string
  {
    if words == [] then []
    else if |words| == 1 then words[0]
    else words[0] + " " + JoinWithSpace(words[1..])
  }

  /** `word.charAt(0).toUpperCase() + word.slice(1)`. */
  function CapitalizeWord(word: string): string
  {
    if word == [] then [] else [UpperChar(word[0])] + word[1..]
  }

  function CapitalizeAll(words: seq<string>): (r: seq<string>)
    ensures |r| == |words|
    ensures forall i :: 0 <= i < |words| ==> r[i] == CapitalizeWord(words[i])
  {
    seq(|words|, i requires 0 <= i < |words| => CapitalizeWord(words[i]))
  }

  /** `capitalizeWords`: lower-case, trim, then upper-case the first letter of every word. */
  function CapitalizeWords(str: string): string
  {
    JoinWithSpace(CapitalizeAll(SplitOnSpace(Trim(Lower(str)))))
  }

  /**
   * Reference definition: every character that starts the text or follows
   * a space is upper-cased.
   */
  function CapitalizeAfterSpaces(t: string, afterSpace: bool): (r: string)
    ensures |r| == |t|
    ensures forall i :: 0 <= i < |t| ==>
      r[i] == (if (if i == 0 then afterSpace else t[i - 1] == ' ') then UpperChar(t[i]) else t[i])
  {
    if t == [] then []
    else [if afterSpace then UpperChar(t[0]) else t[0]] + CapitalizeAfterSpaces(t[1..], t[0] == ' ')
  }

  lemma JoinHead(c: char, w: string, rest: seq<string>)
    ensures JoinWithSpace([[c] + w] + rest) == [c] + JoinWithSpace([w] + rest)
  {
    if rest != [] {
      assert ([[c] + w] + rest)[1..] == rest;
      assert ([w] + rest)[1..] == rest;
    }
  }

  lemma {:induction false} SplitCapitalizeJoin(t: string, capFirst: bool)
    ensures var ws := SplitOnSpace(t);
      JoinWithSpace([if capFirst then CapitalizeWord(ws[0]) else ws[0]] + CapitalizeAll(ws[1..]))
      == CapitalizeAfterSpaces(t, capFirst)
  {
    if t == [] {
    } else if t[0] == ' ' {
      SplitCapitalizeJoin(t[1..], true);
      JoinAtSpace(t, capFirst);
    } else {
      SplitCapitalizeJoin(t[1..], false);
      JoinInWord(t, capFirst);
    }
  }

  /** The step of that induction at a space: a new word starts, capitalised. */
  lemma JoinAtSpace(t: string, capFirst: bool)
    requires t != [] && t[0] == ' '
    requires var rs := SplitOnSpace(t[1..]);
      JoinWithSpace([CapitalizeWord(rs[0])] + CapitalizeAll(rs[1..])) == CapitalizeAfterSpaces(t[1..], true)
    ensures var ws := SplitOnSpace(t);
      JoinWithSpace([if capFirst then CapitalizeWord(ws[0]) else ws[0]] + CapitalizeAll(ws[1..]))
      == CapitalizeAfterSpaces(t, capFirst)
  {
    var ws := SplitOnSpace(t);
    var rest := SplitOnSpace(t[1..]);
    assert ws == [[]] + rest;
    assert ws[0] == [] && ws[1..] == rest;
    var capRest := CapitalizeAll(rest);
    CapitalizeAllCons(rest);
    JoinEmptyHead(capRest);
    CapitalizeAtSpace(t, capFirst);
  }

  lemma JoinEmptyHead(ws: seq<string>)
    requires ws != []
    ensures JoinWithSpace([[]] + ws) == " " + JoinWithSpace(ws)
  {
    assert ([[]] + ws)[1..] == ws;
  }

  lemma CapitalizeAtSpace(t: string, capFirst: bool)
    requires t != [] && t[0] == ' '
    ensures CapitalizeAfterSpaces(t, capFirst) == " " + CapitalizeAfterSpaces(t[1..], true)
  {
    assert UpperChar(' ') == ' ';
  }

  /** The step of that induction inside a word: the character joins the first word. */
  lemma JoinInWord(t: string, capFirst: bool)
    requires t != [] && t[0] != ' '
    requires var rs := SplitOnSpace(t[1..]);
      JoinWithSpace([rs[0]] + CapitalizeAll(rs[1..])) == CapitalizeAfterSpaces(t[1..], false)
    ensures var ws := SplitOnSpace(t);
      JoinWithSpace([if capFirst then CapitalizeWord(ws[0]) else ws[0]] + CapitalizeAll(ws[1..]))
      == CapitalizeAfterSpaces(t, capFirst)
  {
    var ws := SplitOnSpace(t);
    var rest := SplitOnSpace(t[1..]);
    var c := if capFirst then UpperChar(t[0]) else t[0];
    assert ws[0] == [t[0]] + rest[0] && ws[1..] == rest[1..];
    assert (if capFirst then CapitalizeWord(ws[0]) else ws[0]) == [c] + rest[0];
    JoinHead(c, rest[0], CapitalizeAll(rest[1..]));
  }

  /**
   * `capitalizeWords` keeps the length of the trimmed, lower-cased text and
   * upper-cases exactly the characters at its start and after each space.
   */
  lemma CapitalizeWordsSpec(str: string)
    ensures var t := Trim(Lower(str)); var r := CapitalizeWords(str);
      |r| == |t|
      && forall i :: 0 <= i < |t| ==>
        r[i] == (if i == 0 || t[i - 1] == ' ' then UpperChar(t[i]) else t[i])
  {
    var t := Trim(Lower(str));
    var ws := SplitOnSpace(t);
    SplitCapitalizeJoin(t, true);
    CapitalizeAllCons(ws);
    assert CapitalizeWords(str) == CapitalizeAfterSpaces(t, true);
  }

  lemma CapitalizeAllCons(ws: seq<string>)
    requires ws != []
    ensures [CapitalizeWord(ws[0])] + CapitalizeAll(ws[1..]) == CapitalizeAll(ws)
  {
  }

  // ---------------------------------------------------------------------
  // countChars

  /** `countChars`: how often each character occurs, keyed by the character. */
  method CountChars(str: string) returns (counts: map<char, nat>)
    ensures forall c :: c in counts <==> c in multiset(str)
    ensures forall c :: c in counts ==> counts[c] == multiset(str)[c]
  {
    counts := map[];
    for i := 0 to |str|
      invariant forall c :: c in counts <==> c in multiset(str[..i])
      invariant forall c :: c in counts ==> counts[c] == multiset(str[..i])[c]
    {
      var ch := str[i];
      counts := counts[ch := (if ch in counts then counts[ch] else 0) + 1];
      assert str[..i + 1] == str[..i] + [ch];
    }
    assert str[..|str|] == str;
  }
}
