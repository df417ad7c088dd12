/** The JavaScript string primitives the extension relies on, written out:
    `String.prototype.trim` and the `\s` class (one whitespace set),
    `.length` (UTF-16 code units), `${n}` for a non-negative integer, the
    `parseInt` reading of such a string, and the two counter labels. */
module JsText {

  import opened Options

  /** ECMAScript WhiteSpace and LineTerminator code points: exactly what
      `trim()` strips and what `\s` matches. */
  const WhitespaceChars: set<char> := {
    '\t', '\n', '\U{000B}', '\U{000C}', '\r', ' ', '\U{00A0}', '\U{1680}',
    '\U{2000}', '\U{2001}', '\U{2002}', '\U{2003}', '\U{2004}', '\U{2005}',
    '\U{2006}', '\U{2007}', '\U{2008}', '\U{2009}', '\U{200A}',
    '\U{2028}', '\U{2029}', '\U{202F}', '\U{205F}', '\U{3000}', '\U{FEFF}'
  }

  predicate IsWhitespace(c: char) {
    c in WhitespaceChars
  }

  predicate AllWhitespace(s: string) {
    forall i :: 0 <= i < |s| ==> IsWhitespace(s[i])
  }

  /** Neither end of `s` is whitespace. */
  predicate Trimmed(s: string) {
    s == [] || (!IsWhitespace(s[0]) && !IsWhitespace(s[|s| - 1]))
  }

  /** The end of the run of whitespace characters from `from`. */
  function SpaceEnd(s: string, from: nat): (e: nat)
    requires from <= |s|
    ensures from <= e <= |s|
    ensures forall i :: from <= i < e ==> IsWhitespace(s[i])
    ensures e == |s| || !IsWhitespace(s[e])
    decreases |s| - from
  {
    if from < |s| && IsWhitespace(s[from]) then SpaceEnd(s, from + 1) else from
  }

  /** The start of the run of whitespace characters that ends at `end`,
      looking no further back than `lo`. */
  function SpaceStart(s: string, lo: nat, end: nat): (b: nat)
    requires lo <= end <= |s|
    ensures lo <= b <= end
    ensures forall i :: b <= i < end ==> IsWhitespace(s[i])
    ensures b == lo || !IsWhitespace(s[b - 1])
    decreases end
  {
    if lo < end && IsWhitespace(s[end - 1]) then SpaceStart(s, lo, end - 1) else end
  }

  /** `s` is `r` with the whitespace `s[..k]` before and `s[k + |r|..]` after. */
  predicate Padded(s: string, r: string, k: int) {
    0 <= k <= |s| - |r| && r == s[k..k + |r|] && AllWhitespace(s[..k]) && AllWhitespace(s[k + |r|..])
  }

  /** `s.trim()`: `s` is the result with whitespace runs added before and after. */
  function Trim(s: string): (r: string)
    ensures Trimmed(r)
    ensures exists k :: Padded(s, r, k)
    ensures r == [] <==> AllWhitespace(s)
  {
    var a := SpaceEnd(s, 0);
    var b := SpaceStart(s, a, |s|);
    TrimBounds(s, a, b);
    s[a..b]
  }

  /** The part `trim()` keeps lies between the leading and the trailing
      whitespace, and starts and ends with a non-whitespace character. */
  lemma TrimBounds(s: string, a: nat, b: nat)
    requires a <= b <= |s|
    requires forall i :: 0 <= i < a ==> IsWhitespace(s[i])
    requires a == |s| || !IsWhitespace(s[a])
    requires forall i :: b <= i < |s| ==> IsWhitespace(s[i])
    requires b == a || !IsWhitespace(s[b - 1])
    ensures Trimmed(s[a..b])
    ensures Padded(s, s[a..b], a)
    ensures s[a..b] == [] <==> AllWhitespace(s)
  {
    var r := s[a..b];
    assert |r| == b - a;
    forall i | 0 <= i < a ensures IsWhitespace(s[..a][i]) {
      assert s[..a][i] == s[i];
    }
    forall i | 0 <= i < |s| - b ensures IsWhitespace(s[b..][i]) {
      assert s[b..][i] == s[b + i];
    }
    if r != [] {
      assert r[0] == s[a] && r[|r| - 1] == s[b - 1];
      assert !AllWhitespace(s) by { assert !IsWhitespace(s[a]); }
    }
  }

  /** The UTF-16 code units that encode `c`: the character itself inside the
      Basic Multilingual Plane, a high and a low surrogate above it. */
  function Utf16Units(c: char): (u: seq<int>)
    ensures |u| == (if (c as int) < 0x1_0000 then 1 else 2)
    ensures forall k :: 0 <= k < |u| ==> 0 <= u[k] < 0x1_0000
  {
    var v := c as int;
    if v < 0x1_0000 then [v]
    else [0xD800 + (v - 0x1_0000) / 0x400, 0xDC00 + (v - 0x1_0000) % 0x400]
  }

  /** The UTF-16 encoding of `s`, the string as JavaScript stores it. */
  function Utf16Encode(s: string): seq<int> {
    if s == [] then [] else Utf16Units(s[0]) + Utf16Encode(s[1..])
  }

  /** JavaScript's `.length`: the number of UTF-16 code units, so a character
      outside the Basic Multilingual Plane (a surrogate pair) counts twice. */
  function Utf16Length(s: string): (n: nat)
    ensures n == |Utf16Encode(s)|
    ensures |s| <= n <= 2 * |s|
    ensures n == |s| <==> forall i :: 0 <= i < |s| ==> (s[i] as int) < 0x1_0000
  {
    CodeUnitsFromEncode(s, 0);
    assert s[0..] == s;
    CodeUnitsFrom(s, 0)
  }

  /** Counting code units from `from` counts the encoding of `s[from..]`. */
  lemma {:induction false} CodeUnitsFromEncode(s: string, from: nat)
    requires from <= |s|
    ensures CodeUnitsFrom(s, from) == |Utf16Encode(s[from..])|
    decreases |s| - from
  {
    if from < |s| {
      CodeUnitsFromEncode(s, from + 1);
      assert s[from..][0] == s[from] && s[from..][1..] == s[from + 1..];
    }
  }

  /** The UTF-16 code units of `s[from..]`. */
  function CodeUnitsFrom(s: string, from: nat): (n: nat)
    requires from <= |s|
    ensures |s| - from <= n <= 2 * (|s| - from)
    ensures n == |s| - from <==> forall i :: from <= i < |s| ==> (s[i] as int) < 0x1_0000
    decreases |s| - from
  {
    if from == |s| then 0
    else (if (s[from] as int) < 0x1_0000 then 1 else 2) + CodeUnitsFrom(s, from + 1)
  }

  /** JavaScript's `a % b` for `b > 0`: the quotient is truncated toward
      zero, so the remainder takes the sign of `a`. */
  function JsRemainder(a: int, b: int): (r: int)
    requires b > 0
    ensures -b < r < b
    ensures a >= 0 ==> r >= 0
    ensures a <= 0 ==> r <= 0
    ensures -b < a < b ==> r == a
    ensures a == b || a == -b ==> r == 0
    ensures (a - r) % b == 0
  {
    if a >= 0 then
      NonNegativeRemainder(a, b);
      a % b
    else
      NegativeRemainder(a, b);
      -((-a) % b)
  }

  /** The remainder of a non-negative dividend. */
  lemma NonNegativeRemainder(a: int, b: int)
    requires b > 0 && a >= 0
    ensures 0 <= a % b < b && (a < b ==> a % b == a) && (a == b ==> a % b == 0)
    ensures (a - a % b) % b == 0
  {
    DivisionCongruent(a, b);
  }

  /** The remainder of a negative dividend, which takes its sign. */
  lemma NegativeRemainder(a: int, b: int)
    requires b > 0 && a < 0
    ensures -b < -((-a) % b) <= 0 && (-b < a ==> -((-a) % b) == a) && (a == -b ==> (-a) % b == 0)
    ensures (a - -((-a) % b)) % b == 0
  {
    DivisionCongruent(-a, b);
    NegatedMultiple(a + (-a) % b, b);
  }

  /** `x - x % b` is a multiple of `b`. */
  lemma DivisionCongruent(x: int, b: int)
    requires b > 0
    ensures (x - x % b) % b == 0
  {
    assert x - x % b == (x / b) * b;
    ModOfMultiple(x / b, b);
  }

  /** The negation of a multiple of `b` is one too. */
  lemma NegatedMultiple(x: int, b: int)
    requires b > 0 && (-x) % b == 0
    ensures x % b == 0
  {
    var q := (-x) / b;
    assert -x == q * b;
    assert x == (-q) * b;
    ModOfMultiple(-q, b);
  }

  /** A multiple of `b` leaves no remainder. */
  lemma ModOfMultiple(q: int, b: int)
    requires b > 0
    ensures (q * b) % b == 0
  {
    var d, m := (q * b) / b, (q * b) % b;
    assert (q - d) * b == m;
    if q - d >= 1 {
      assert false;
    } else if q - d <= -1 {
      assert false;
    }
  }

  predicate IsDigit(c: char) {
    '0' <= c <= '9'
  }

  function DigitChar(d: nat): (c: char)
    requires d < 10
    ensures IsDigit(c)
  {
    ('0' as int + d) as char
  }

  function DigitValue(c: char): nat
    requires IsDigit(c)
  {
    c as int - '0' as int
  }

  /** `${n}` for a non-negative integer: its shortest decimal numeral. */
  function DecimalString(n: nat): (r: string)
    ensures |r| >= 1
    ensures forall i :: 0 <= i < |r| ==> IsDigit(r[i])
    ensures r[0] == '0' ==> n == 0 && r == "0"
  {
    if n < 10 then [DigitChar(n)] else DecimalString(n / 10) + [DigitChar(n % 10)]
  }

  /** The end of the run of digits that starts at `from`. */
  function DigitRunEnd(s: string, from: nat): (e: nat)
    requires from <= |s|
    ensures from <= e <= |s|
    ensures forall i :: from <= i < e ==> IsDigit(s[i])
    ensures e == |s| || !IsDigit(s[e])
    decreases |s| - from
  {
    if from < |s| && IsDigit(s[from]) then DigitRunEnd(s, from + 1) else from
  }

  /** The number a string of digits denotes. */
  function DigitsValue(s: string): nat
    requires forall i :: 0 <= i < |s| ==> IsDigit(s[i])
  {
    if s == [] then 0 else DigitsValue(s[..|s| - 1]) * 10 + DigitValue(s[|s| - 1])
  }

  /** `parseInt(s)` for a string that starts with a digit: the number its
      leading digits denote; `None` (NaN) when it does not start with one. */
  function ParseDecimal(s: string): (r: Option<nat>)
    ensures r.Some? <==> s != [] && IsDigit(s[0])
  {
    var e := DigitRunEnd(s, 0);
    if e == 0 then None else Some(DigitsValue(s[..e]))
  }

  lemma {:induction false} DigitsValueOfDecimal(n: nat)
    ensures DigitsValue(DecimalString(n)) == n
    decreases n
  {
    var r := DecimalString(n);
    if n >= 10 {
      DigitsValueOfDecimal(n / 10);
      assert r[..|r| - 1] == DecimalString(n / 10);
    }
  }

  /** Reading back the numeral `${n}` followed by anything that does not
      start with a digit yields `n`: `parseInt` inverts `${n}`. */
  lemma ParseDecimalOfNumeral(n: nat, rest: string)
    requires rest == [] || !IsDigit(rest[0])
    ensures ParseDecimal(DecimalString(n) + rest) == Some(n)
  {
    var d := DecimalString(n);
    var s := d + rest;
    assert forall i :: 0 <= i < |d| ==> s[i] == d[i];
    DigitRunFrom(s, 0, |d|);
    assert s[..|d|] == d;
    DigitsValueOfDecimal(n);
  }

  /** If `s[from..e]` is all digits and `e` ends the string or holds a
      non-digit, the digit run from `from` ends at `e`. */
  lemma {:induction false} DigitRunFrom(s: string, from: nat, e: nat)
    requires from <= e <= |s|
    requires forall i :: from <= i < e ==> IsDigit(s[i])
    requires e == |s| || !IsDigit(s[e])
    ensures DigitRunEnd(s, from) == e
    decreases e - from
  {
    if from < e { DigitRunFrom(s, from + 1, e); }
  }

  /** `${n} highlight${n !== 1 ? 's' : ''}`. */
  function CountLabel(n: nat): (r: string)
    ensures n == 1 ==> r == "1 highlight"
    ensures n != 1 ==> r == DecimalString(n) + " highlights"
    ensures ParseDecimal(r) == Some(n)
  {
    var r := DecimalString(n) + " highlight" + (if n != 1 then "s" else "");
    assert r == DecimalString(n) + (" highlight" + (if n != 1 then "s" else ""));
    ParseDecimalOfNumeral(n, " highlight" + (if n != 1 then "s" else ""));
    r
  }

  /** `${index + 1} / ${length}`: the navigation counter. Both numbers read
      back: the position before the separator, the total after it. */
  function PositionLabel(index: nat, length: nat): (r: string)
    ensures ParseDecimal(r) == Some(index + 1)
    ensures var k := |DecimalString(index + 1)|;
            k + 3 <= |r| && r[k..k + 3] == " / " && ParseDecimal(r[k + 3..]) == Some(length)
  {
    var head := DecimalString(index + 1);
    var tail := DecimalString(length);
    var r := head + " / " + tail;
    assert r == head + (" / " + tail);
    ParseDecimalOfNumeral(index + 1, " / " + tail);
    assert r[|head|..|head| + 3] == " / " && r[|head| + 3..] == tail;
    ParseDecimalOfNumeral(length, "");
    assert tail + "" == tail;
    r
  }
}
