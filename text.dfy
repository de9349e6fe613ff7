/**
 * Character classes and string helpers as JavaScript defines them:
 * `\s` and `String.prototype.trim`, `\d`, `parseInt(s, 10)` on digit strings,
 * `String(n)`, `split(/\s+/).filter(Boolean)`, `join(' ')` and the `<`
 * comparison of two strings.
 */
module Text {

  /** JavaScript's WhiteSpace and LineTerminator code points (`\s`, `trim`). */
  predicate IsSpace(c: char) {
    var k := c as int;
    (9 <= k <= 13) || k == 32 || k == 0xA0 || k == 0x1680 || (0x2000 <= k <= 0x200A)
    || k == 0x2028 || k == 0x2029 || k == 0x202F || k == 0x205F || k == 0x3000 || k == 0xFEFF
  }

  /** `\d` matches ASCII digits only. */
  predicate IsDigit(c: char) { '0' <= c <= '9' }

  predicate AllSpace(s: string) { forall i :: 0 <= i < |s| ==> IsSpace(s[i]) }
  predicate AllDigits(s: string) { forall i :: 0 <= i < |s| ==> IsDigit(s[i]) }
  predicate NoSpace(s: string) { forall i :: 0 <= i < |s| ==> !IsSpace(s[i]) }

  /** The length of the longest all-space prefix of `s`. */
  function SpanSpace(s: string): (n: nat)
    ensures n <= |s| && AllSpace(s[..n])
    ensures n == |s| || !IsSpace(s[n])
  {
    if s == [] || !IsSpace(s[0]) then 0
    else
      var k := SpanSpace(s[1..]);
      assert s[1..][..k] == s[1..k + 1];
      1 + k
  }

  /** The length of the longest all-digit prefix of `s`. */
  function SpanDigits(s: string): (n: nat)
    ensures n <= |s| && AllDigits(s[..n])
    ensures n == |s| || !IsDigit(s[n])
  {
    if s == [] || !IsDigit(s[0]) then 0
    else
      var k := SpanDigits(s[1..]);
      assert s[1..][..k] == s[1..k + 1];
      1 + k
  }

  /** The length of the longest non-space prefix of `s`. */
  function SpanWord(s: string): (n: nat)
    ensures n <= |s| && NoSpace(s[..n])
    ensures n == |s| || IsSpace(s[n])
  {
    if s == [] || IsSpace(s[0]) then 0
    else
      var k := SpanWord(s[1..]);
      assert s[1..][..k] == s[1..k + 1];
      1 + k
  }

  /** The span functions are determined by what they promise. */
  lemma {:induction false} SpanSpaceOf(a: string, b: string)
    requires AllSpace(a) && (b == [] || !IsSpace(b[0]))
    ensures SpanSpace(a + b) == |a|
    decreases |a|
  {
    if a != [] {
      assert (a + b)[1..] == a[1..] + b;
      SpanSpaceOf(a[1..], b);
    }
  }

  lemma {:induction false} SpanDigitsOf(a: string, b: string)
    requires AllDigits(a) && (b == [] || !IsDigit(b[0]))
    ensures SpanDigits(a + b) == |a|
    decreases |a|
  {
    if a != [] {
      assert (a + b)[1..] == a[1..] + b;
      SpanDigitsOf(a[1..], b);
    }
  }

  lemma {:induction false} SpanWordOf(a: string, b: string)
    requires NoSpace(a) && (b == [] || IsSpace(b[0]))
    ensures SpanWord(a + b) == |a|
    decreases |a|
  {
    if a != [] {
      assert (a + b)[1..] == a[1..] + b;
      SpanWordOf(a[1..], b);
    }
  }

  /** The number of trailing space characters of `s`. */
  function SpanSpaceBack(s: string): (n: nat)
    ensures n <= |s| && AllSpace(s[|s| - n..])
    ensures n == |s| || !IsSpace(s[|s| - n - 1])
    decreases |s|
  {
    if s == [] || !IsSpace(s[|s| - 1]) then 0
    else
      var k := SpanSpaceBack(s[..|s| - 1]);
      assert s[|s| - 1 - k..] == s[..|s| - 1][|s| - 1 - k..] + [s[|s| - 1]];
      1 + k
  }

  lemma {:induction false} SpanSpaceBackOf(a: string, b: string)
    requires (a == [] || !IsSpace(a[|a| - 1])) && AllSpace(b)
    ensures SpanSpaceBack(a + b) == |b|
    decreases |b|
  {
    if b != [] {
      assert (a + b)[..|a + b| - 1] == a + b[..|b| - 1];
      SpanSpaceBackOf(a, b[..|b| - 1]);
    }
  }

  /** `s.trim()`: `s` without its leading and trailing white space. */
  function Trim(s: string): (t: string)
    ensures exists i, j :: 0 <= i <= j <= |s| && t == s[i..j] && AllSpace(s[..i]) && AllSpace(s[j..])
    ensures t == [] || (!IsSpace(t[0]) && !IsSpace(t[|t| - 1]))
  {
    var i := SpanSpace(s);
    var rest := s[i..];
    var k := SpanSpaceBack(rest);
    if k == |rest| then
      assert s[..i] + rest == s;
      assert AllSpace(s[i..i]);
      assert AllSpace(s[..i]) && AllSpace(s[i..]);
      s[i..i]
    else
      assert s[i..][..|rest| - k] == s[i..|s| - k];
      assert rest[|rest| - k..] == s[|s| - k..];
      s[i..|s| - k]
  }

  /** Trimming changes nothing around text that already begins and ends with a non-space. */
  lemma TrimAround(a: string, t: string, b: string)
    requires AllSpace(a) && AllSpace(b) && t != [] && !IsSpace(t[0]) && !IsSpace(t[|t| - 1])
    ensures Trim(a + t + b) == t
  {
    var s := a + t + b;
    SpanSpaceOf(a, t + b);
    assert s == a + (t + b);
    var rest := s[|a|..];
    assert rest == t + b;
    var k := SpanSpaceBack(rest);
    SpanSpaceBackOf(t, b);
    assert k == |b|;
    assert s[|a|..|s| - k] == t;
  }

  function DigitValue(c: char): nat
    requires IsDigit(c)
  {
    (c as int) - ('0' as int)
  }

  function Digit(d: nat): (c: char)
    requires d < 10
    ensures IsDigit(c) && DigitValue(c) == d
  {
    ('0' as int + d) as char
  }

  /** `parseInt(s, 10)` of a string of decimal digits (the empty string reads as 0). */
  function DigitsValue(s: string): nat
    requires AllDigits(s)
    decreases |s|
  {
    if s == [] then 0 else DigitsValue(s[..|s| - 1]) * 10 + DigitValue(s[|s| - 1])
  }

  /** One or two digits read as a number below 100. */
  lemma ShortDigitsValue(s: string)
    requires AllDigits(s) && |s| <= 2
    ensures DigitsValue(s) < 100
  {
    if |s| == 2 { assert DigitsValue(s[..1]) == DigitValue(s[0]); }
  }

  /** `String(n)` for a non-negative integer: its shortest decimal numeral. */
  function NatToString(n: nat): (s: string)
    ensures 1 <= |s| && AllDigits(s) && DigitsValue(s) == n
    ensures n == 0 || s[0] != '0'
    ensures n < 10 <==> |s| == 1
    ensures n < 100 <==> |s| <= 2
    ensures n < 1000 <==> |s| <= 3
    ensures n < 10000 <==> |s| <= 4
    decreases n
  {
    if n < 10 then [Digit(n)]
    else
      var p := NatToString(n / 10);
      var s := p + [Digit(n % 10)];
      assert s[..|s| - 1] == p;
      s
  }

  /** A numeral with no leading zero has a value of at least 1 (digit count aside). */
  lemma {:induction false} NoLeadingZeroPositive(s: string)
    requires |s| >= 1 && AllDigits(s) && s[0] != '0'
    ensures DigitsValue(s) >= 1
    decreases |s|
  {
    if |s| > 1 {
      assert s[..|s| - 1][0] == s[0];
      NoLeadingZeroPositive(s[..|s| - 1]);
    }
  }

  /** `String(parseInt(s, 10))` gives back any numeral written without a leading zero. */
  lemma {:induction false} NatToStringOfDigits(s: string)
    requires |s| >= 1 && AllDigits(s) && (|s| == 1 || s[0] != '0')
    ensures NatToString(DigitsValue(s)) == s
    decreases |s|
  {
    if |s| > 1 {
      var p := s[..|s| - 1];
      var d := DigitValue(s[|s| - 1]);
      var v := DigitsValue(s);
      assert p[0] == s[0];
      NoLeadingZeroPositive(p);
      NatToStringOfDigits(p);
      assert v == DigitsValue(p) * 10 + d;
      assert v / 10 == DigitsValue(p) && v % 10 == d;
      assert Digit(d) == s[|s| - 1];
      assert s == p + [s[|s| - 1]];
    }
  }

  /** A leading zero does not change the value parseInt reads. */
  lemma {:induction false} LeadingZero(s: string)
    requires AllDigits(s)
    ensures AllDigits("0" + s) && DigitsValue("0" + s) == DigitsValue(s)
    decreases |s|
  {
    if s != [] {
      assert ("0" + s)[..|s|] == "0" + s[..|s| - 1];
      LeadingZero(s[..|s| - 1]);
    }
  }

  /** Strict "less than" on JavaScript strings: code-unit-wise lexicographic order. */
  predicate StrLess(a: string, b: string) {
    if a == [] then b != []
    else if b == [] then false
    else if a[0] != b[0] then a[0] < b[0]
    else StrLess(a[1..], b[1..])
  }

  lemma {:induction false} StrLessIrreflexive(a: string)
    ensures !StrLess(a, a)
  {
    if a != [] { StrLessIrreflexive(a[1..]); }
  }

  lemma {:induction false} StrLessAsymmetric(a: string, b: string)
    ensures !(StrLess(a, b) && StrLess(b, a))
  {
    if a != [] && b != [] && a[0] == b[0] { StrLessAsymmetric(a[1..], b[1..]); }
  }

  /** Two different strings are always ordered one way or the other. */
  lemma {:induction false} StrLessTotal(a: string, b: string)
    requires a != b
    ensures StrLess(a, b) || StrLess(b, a)
  {
    if a != [] && b != [] && a[0] == b[0] {
      assert a == [a[0]] + a[1..] && b == [b[0]] + b[1..];
      StrLessTotal(a[1..], b[1..]);
    }
  }

  lemma {:induction false} StrLessTransitive(a: string, b: string, c: string)
    requires StrLess(a, b) && StrLess(b, c)
    ensures StrLess(a, c)
  {
    if a != [] && b != [] && c != [] && a[0] == b[0] && b[0] == c[0] {
      StrLessTransitive(a[1..], b[1..], c[1..]);
    }
  }

  /** `s.split(/\s+/).filter(Boolean)`: the maximal runs of non-space characters. */
  function Words(s: string): (ws: seq<string>)
    ensures forall k :: 0 <= k < |ws| ==> ws[k] != [] && NoSpace(ws[k])
    decreases |s|
  {
    var t := s[SpanSpace(s)..];
    if t == [] then []
    else
      var n := SpanWord(t);
      [t[..n]] + Words(t[n..])
  }

  /** `ws.join(' ')` */
  function Join(ws: seq<string>): string {
    if ws == [] then ""
    else if |ws| == 1 then ws[0]
    else ws[0] + " " + Join(ws[1..])
  }

  predicate IsWordList(ws: seq<string>) {
    forall k :: 0 <= k < |ws| ==> ws[k] != [] && NoSpace(ws[k])
  }

  /** A word followed by a space (or nothing) is the first word split off. */
  lemma WordsCons(w: string, rest: string)
    requires w != [] && NoSpace(w) && (rest == [] || IsSpace(rest[0]))
    ensures Words(w + rest) == [w] + Words(rest)
  {
    var s := w + rest;
    SpanSpaceOf([], s);
    assert [] + s == s;
    SpanWordOf(w, rest);
    assert s[..|w|] == w && s[|w|..] == rest;
    if rest == [] {
      assert Words(rest) == [];
    }
  }

  /** Splitting the words joined with single spaces gives the words back. */
  lemma {:induction false} WordsJoin(ws: seq<string>)
    requires IsWordList(ws)
    ensures Words(Join(ws)) == ws
    decreases |ws|
  {
    if |ws| == 1 {
      WordsCons(ws[0], "");
      assert ws[0] + "" == ws[0];
    } else if |ws| > 1 {
      assert IsWordList(ws[1..]) by {
        forall k | 0 <= k < |ws| - 1 ensures ws[1..][k] == ws[k + 1] { }
      }
      WordsJoin(ws[1..]);
      WordsJoinStep(ws[0], ws[1..]);
      assert [ws[0]] + ws[1..] == ws;
    }
  }

  lemma WordsJoinStep(w: string, ws: seq<string>)
    requires w != [] && NoSpace(w) && ws != [] && Words(Join(ws)) == ws
    ensures Words(Join([w] + ws)) == [w] + ws
  {
    var j := Join(ws);
    assert ([w] + ws)[1..] == ws;
    assert Join([w] + ws) == w + " " + j;
    assert w + " " + j == w + (" " + j);
    assert IsSpace(' ');
    WordsCons(w, " " + j);
    WordsLeadingSpace(" ", j);
  }

  /** Splitting skips any run of leading spaces: with `WordsCons`, this fixes the words of any spacing. */
  lemma WordsLeadingSpace(a: string, s: string)
    requires AllSpace(a)
    ensures Words(a + s) == Words(s)
  {
    SpanSpaceAppend(a, s);
    WordsAfterSpace(a + s, s);
  }

  /** The words depend only on what follows the leading spaces. */
  lemma WordsAfterSpace(x: string, y: string)
    requires x[SpanSpace(x)..] == y[SpanSpace(y)..]
    ensures Words(x) == Words(y)
  {
  }

  /** A run of spaces in front adds its length to the leading run. */
  lemma {:induction false} SpanSpaceAppend(a: string, s: string)
    requires AllSpace(a)
    ensures SpanSpace(a + s) == |a| + SpanSpace(s)
    decreases |a|
  {
    if a == [] {
      assert a + s == s;
    } else {
      assert IsSpace(a[0]);
      assert AllSpace(a[1..]) by {
        forall i | 0 <= i < |a| - 1 ensures a[1..][i] == a[i + 1] { }
      }
      SpanSpaceAppend(a[1..], s);
      assert (a + s)[1..] == a[1..] + s;
    }
  }

  /** Joining words gives text that trimming leaves alone. */
  lemma {:induction false} JoinEnds(ws: seq<string>)
    requires IsWordList(ws) && ws != []
    ensures var j := Join(ws); j != [] && !IsSpace(j[0]) && !IsSpace(j[|j| - 1])
    decreases |ws|
  {
    if |ws| > 1 {
      JoinEnds(ws[1..]);
      var j := Join(ws[1..]);
      assert Join(ws) == ws[0] + " " + j;
      assert Join(ws)[0] == ws[0][0];
    }
  }
}
