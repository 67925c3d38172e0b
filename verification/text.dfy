/** Character classes and the few number/text conversions the calculator
    relies on: reading ASCII digit runs, zero-padded and plain decimal
    rendering (`%02d`, `%04d`, `%d`), and the last token of `str.split()`. */
module Text {

  datatype Option<+T> = None | Some(value: T)

  predicate IsDigit(c: char) {
    '0' <= c <= '9'
  }

  /** Python's whitespace (`\s` in a `str` pattern, and what `str.split()`
      splits on): the characters for which `str.isspace()` holds. */
  predicate IsSpace(c: char) {
    || '\t' <= c <= '\r'
    || '\U{1C}' <= c <= '\U{1F}'
    || c == ' ' || c == '\U{85}' || c == '\U{A0}' || c == '\U{1680}'
    || '\U{2000}' <= c <= '\U{200A}'
    || c == '\U{2028}' || c == '\U{2029}' || c == '\U{202F}'
    || c == '\U{205F}' || c == '\U{3000}'
  }

  predicate AllDigits(s: string) {
    forall i :: 0 <= i < |s| ==> IsDigit(s[i])
  }

  predicate NoSpace(s: string) {
    forall i :: 0 <= i < |s| ==> !IsSpace(s[i])
  }

  /** `s.startswith(t)`. */
  predicate StartsWith(s: string, t: string) {
    |t| <= |s| && s[..|t|] == t
  }

  /** `s.endswith(t)`. */
  predicate EndsWith(s: string, t: string) {
    |t| <= |s| && s[|s| - |t|..] == t
  }

  function DigitValue(c: char): nat
    requires IsDigit(c)
  {
    (c as int) - ('0' as int)
  }

  function DigitChar(n: nat): (c: char)
    requires n < 10
    ensures IsDigit(c) && DigitValue(c) == n
  {
    (('0' as int) + n) as char
  }

  /** The number a run of decimal digits denotes (`int(s)` for ASCII digits). */
  function DigitsValue(s: string): nat
    requires AllDigits(s)
  {
    if |s| == 0 then 0 else DigitsValue(s[..|s| - 1]) * 10 + DigitValue(s[|s| - 1])
  }

  /** `%02d` */
  function Pad2(n: nat): string
    requires n < 100
  {
    [DigitChar(n / 10), DigitChar(n % 10)]
  }

  /** `%04d` */
  function Pad4(n: nat): string
    requires n < 10000
  {
    [DigitChar(n / 1000), DigitChar(n / 100 % 10), DigitChar(n / 10 % 10), DigitChar(n % 10)]
  }

  /** A two-character digit run denotes `10 * first + second`. */
  lemma DigitsValue2(s: string)
    requires |s| == 2 && AllDigits(s)
    ensures DigitsValue(s) == DigitValue(s[0]) * 10 + DigitValue(s[1])
  {
    assert s[..1][..0] == [];
    assert DigitsValue(s[..1]) == DigitValue(s[0]);
  }

  /** A four-character digit run denotes its positional value. */
  lemma DigitsValue4(s: string)
    requires |s| == 4 && AllDigits(s)
    ensures DigitsValue(s) == DigitValue(s[0]) * 1000 + DigitValue(s[1]) * 100
                              + DigitValue(s[2]) * 10 + DigitValue(s[3])
  {
    assert s[..3][..2] == s[..2];
    DigitsValue2(s[..2]);
    assert DigitsValue(s[..3]) == DigitsValue(s[..2]) * 10 + DigitValue(s[2]);
  }

  /** Reading a zero-padded field back gives the number that was padded. */
  lemma Pad2RoundTrip(n: nat)
    requires n < 100
    ensures |Pad2(n)| == 2 && AllDigits(Pad2(n)) && DigitsValue(Pad2(n)) == n
  {
    DigitsValue2(Pad2(n));
  }

  lemma Pad4RoundTrip(n: nat)
    requires n < 10000
    ensures |Pad4(n)| == 4 && AllDigits(Pad4(n)) && DigitsValue(Pad4(n)) == n
  {
    DigitsValue4(Pad4(n));
    PositionalDigits(n);
  }

  /** A number below 10000 is the positional sum of its four digits. */
  lemma PositionalDigits(n: nat)
    requires n < 10000
    ensures (n / 1000) * 1000 + (n / 100 % 10) * 100 + (n / 10 % 10) * 10 + n % 10 == n
  {
    var q1, q2, q3 := n / 10, n / 100, n / 1000;
    assert n == q1 * 10 + n % 10;
    assert q2 == q1 / 10 && q1 == q2 * 10 + q1 % 10;
    assert q3 == q2 / 10 && q2 == q3 * 10 + q2 % 10;
  }

  /** The digits of a positional sum are the summands' digits. */
  lemma DigitsOfPositional(a: nat, b: nat, c: nat, d: nat)
    requires a < 10 && b < 10 && c < 10 && d < 10
    ensures var v := a * 1000 + b * 100 + c * 10 + d;
            v / 1000 == a && v / 100 % 10 == b && v / 10 % 10 == c && v % 10 == d
  {
    var v := a * 1000 + b * 100 + c * 10 + d;
    var q1 := a * 100 + b * 10 + c;
    assert v == q1 * 10 + d;
    assert v / 10 == q1 && v % 10 == d;
    var q2 := a * 10 + b;
    assert q1 == q2 * 10 + c;
    assert v / 100 == q1 / 10 == q2 && q1 % 10 == c;
    assert v / 1000 == q2 / 10 == a && q2 % 10 == b;
  }

  /** A two-digit field is the zero-padded rendering of its own value. */
  lemma Pad2OfDigits(s: string)
    requires |s| == 2 && AllDigits(s)
    ensures DigitsValue(s) < 100 && Pad2(DigitsValue(s)) == s
  {
    DigitsValue2(s);
    var v := DigitsValue(s);
    assert DigitChar(v / 10) == s[0];
    assert DigitChar(v % 10) == s[1];
  }

  lemma Pad4OfDigits(s: string)
    requires |s| == 4 && AllDigits(s)
    ensures DigitsValue(s) < 10000 && Pad4(DigitsValue(s)) == s
  {
    DigitsValue4(s);
    var v := DigitsValue(s);
    DigitsOfPositional(DigitValue(s[0]), DigitValue(s[1]), DigitValue(s[2]), DigitValue(s[3]));
    assert DigitChar(v / 1000) == s[0];
    assert DigitChar(v / 100 % 10) == s[1];
    assert DigitChar(v / 10 % 10) == s[2];
    assert DigitChar(v % 10) == s[3];
  }

  /** `%d` of a natural number: shortest decimal rendering, no leading zero. */
  function NatStr(n: nat): (s: string)
    ensures |s| >= 1 && AllDigits(s) && DigitsValue(s) == n
    ensures s[0] == '0' ==> n == 0
  {
    if n < 10 then [DigitChar(n)]
    else
      var p := NatStr(n / 10);
      var s := p + [DigitChar(n % 10)];
      assert s[..|s| - 1] == p;
      s
  }

  /** `%d` of an integer. */
  function IntStr(i: int): (s: string)
    ensures |s| >= 1 && NoSpace(s)
  {
    if i < 0 then "-" + NatStr(-i) else NatStr(i)
  }

  /** `s` with trailing whitespace removed. */
  function TrimEnd(s: string): string {
    if |s| > 0 && IsSpace(s[|s| - 1]) then TrimEnd(s[..|s| - 1]) else s
  }

  /** The part of `s` after its last whitespace character. */
  function AfterLastSpace(s: string): string {
    if |s| == 0 || IsSpace(s[|s| - 1]) then []
    else AfterLastSpace(s[..|s| - 1]) + [s[|s| - 1]]
  }

  /** `s.split()[-1]`: the last whitespace-separated token (empty when `s`
      has no token, where Python would raise instead). */
  function LastWord(s: string): string {
    AfterLastSpace(TrimEnd(s))
  }

  /** The last token of `prefix + sep + w` is `w` whenever `w` is a non-empty
      token and `sep` is whitespace, whatever the prefix holds. */
  lemma {:induction false} LastWordOf(prefix: string, sep: char, w: string)
    requires IsSpace(sep) && |w| >= 1 && NoSpace(w)
    ensures LastWord(prefix + [sep] + w) == w
  {
    var s := prefix + [sep] + w;
    assert TrimEnd(s) == s;
    AfterLastSpaceOf(prefix + [sep], w);
  }

  lemma {:induction false} AfterLastSpaceOf(p: string, w: string)
    requires |p| >= 1 && IsSpace(p[|p| - 1]) && NoSpace(w)
    ensures AfterLastSpace(p + w) == w
    decreases |w|
  {
    if |w| == 0 {
      assert p + w == p;
    } else {
      var s := p + w;
      assert s[..|s| - 1] == p + w[..|w| - 1];
      AfterLastSpaceOf(p, w[..|w| - 1]);
      assert w[..|w| - 1] + [w[|w| - 1]] == w;
    }
  }

  /** A string with no whitespace is its own single token. */
  lemma {:induction false} LastWordOfToken(w: string)
    requires |w| >= 1 && NoSpace(w)
    ensures LastWord(w) == w
    decreases |w|
  {
    assert TrimEnd(w) == w;
    if |w| > 1 {
      var p := w[..|w| - 1];
      LastWordOfToken(p);
      assert TrimEnd(p) == p;
    } else {
      assert w[..0] == [];
      assert AfterLastSpace(w[..0]) == [];
      assert [w[0]] == w;
    }
  }
}
