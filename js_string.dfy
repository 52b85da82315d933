/**
 * The JavaScript string and number built-ins the application relies on, on
 * strings of code points: String.prototype.trim, includes, split on a
 * character class, replace of the first occurrence of one character,
 * toLowerCase, padStart, parseInt with no radix, String(n) for integers, and
 * the `x || d` fallback on a number.
 */
module JsString {
  import opened Wrappers

  /** ECMAScript WhiteSpace and LineTerminator code points: what trim strips and parseInt skips. */
  predicate IsWhitespace(c: char) {
    c == '\t' || c == '\n' || c == '\U{000B}' || c == '\U{000C}' || c == '\r' || c == ' '
    || c == '\U{00A0}' || c == '\U{1680}' || ('\U{2000}' <= c <= '\U{200A}')
    || c == '\U{2028}' || c == '\U{2029}' || c == '\U{202F}' || c == '\U{205F}'
    || c == '\U{3000}' || c == '\U{FEFF}'
  }

  predicate AllWhitespace(s: string) {
    forall i :: 0 <= i < |s| ==> IsWhitespace(s[i])
  }

  // ---------------------------------------------------------------- trim

  /** Drops the leading whitespace. */
  function TrimStart(s: string): (r: string)
    ensures |r| <= |s|
    ensures AllWhitespace(s[..|s| - |r|])
    ensures r == [] || !IsWhitespace(r[0])
  {
    if s == [] || !IsWhitespace(s[0]) then s
    else
      var r := TrimStart(s[1..]);
      assert s[..|s| - |r|] == [s[0]] + s[1..][..|s| - 1 - |r|];
      r
  }

  /** What TrimStart keeps is a suffix of its input. */
  lemma {:induction false} TrimStartIsSuffix(s: string)
    ensures TrimStart(s) == s[|s| - |TrimStart(s)|..]
  {
    if s != [] && IsWhitespace(s[0]) {
      TrimStartIsSuffix(s[1..]);
    }
  }

  /** Drops the trailing whitespace. */
  function TrimEnd(s: string): (r: string)
    ensures |r| <= |s| && r == s[..|r|]
    ensures AllWhitespace(s[|r|..])
    ensures r == [] || !IsWhitespace(r[|r| - 1])
  {
    if s == [] || !IsWhitespace(s[|s| - 1]) then s
    else
      var r := TrimEnd(s[..|s| - 1]);
      assert s[|r|..] == s[..|s| - 1][|r|..] + [s[|s| - 1]];
      r
  }

  /**
   * String.prototype.trim: the result is the slice of the input left once the
   * leading and the trailing whitespace are cut off, and it neither starts nor
   * ends with whitespace.
   */
  function Trim(s: string): (r: string)
    ensures |r| <= |s|
    ensures exists i :: 0 <= i <= |s| - |r| && r == s[i..i + |r|]
                     && AllWhitespace(s[..i]) && AllWhitespace(s[i + |r|..])
    ensures r == [] || (!IsWhitespace(r[0]) && !IsWhitespace(r[|r| - 1]))
  {
    var t := TrimStart(s);
    TrimStartIsSuffix(s);
    var i := |s| - |t|;
    var r := TrimEnd(t);
    assert t == s[i..];
    assert r == s[i..i + |r|];
    assert s[i + |r|..] == t[|r|..];
    r
  }

  lemma {:induction false} TrimStartSkips(w: string, s: string)
    requires AllWhitespace(w)
    ensures TrimStart(w + s) == TrimStart(s)
  {
    if w != [] {
      assert (w + s)[0] == w[0] && IsWhitespace(w[0]);
      assert (w + s)[1..] == w[1..] + s;
      assert TrimStart(w + s) == TrimStart(w[1..] + s);
      TrimStartSkips(w[1..], s);
    } else {
      assert w + s == s;
    }
  }

  lemma {:induction false} TrimStartKeepsTail(s: string, b: string)
    requires TrimStart(s) != []
    ensures TrimStart(s + b) == TrimStart(s) + b
  {
    assert s != [];
    if IsWhitespace(s[0]) {
      assert (s + b)[1..] == s[1..] + b;
      TrimStartKeepsTail(s[1..], b);
    }
  }

  lemma {:induction false} TrimEndSkips(s: string, w: string)
    requires AllWhitespace(w)
    ensures TrimEnd(s + w) == TrimEnd(s)
  {
    if w != [] {
      var n := |w| - 1;
      assert (s + w)[|s + w| - 1] == w[n] && IsWhitespace(w[n]);
      assert (s + w)[..|s + w| - 1] == s + w[..n];
      assert TrimEnd(s + w) == TrimEnd(s + w[..n]);
      TrimEndSkips(s, w[..n]);
    } else {
      assert s + w == s;
    }
  }

  /** Whitespace around a string never changes what trim returns. */
  lemma TrimIgnoresPadding(a: string, s: string, b: string)
    requires AllWhitespace(a) && AllWhitespace(b)
    ensures Trim(a + s + b) == Trim(s)
  {
    assert a + s + b == a + (s + b);
    TrimStartSkips(a, s + b);
    if TrimStart(s) != [] {
      TrimStartKeepsTail(s, b);
      TrimEndSkips(TrimStart(s), b);
    } else {
      assert s[..|s| - |TrimStart(s)|] == s;
      forall i | 0 <= i < |s + b| ensures IsWhitespace((s + b)[i]) {
        if i < |s| {
          assert (s + b)[i] == s[i];
        } else {
          assert (s + b)[i] == b[i - |s|];
        }
      }
      TrimStartSkips(s + b, []);
      assert s + b + [] == s + b;
    }
  }

  /** A string with no whitespace at either end is its own trim. */
  lemma TrimOfUnpadded(s: string)
    requires s == [] || (!IsWhitespace(s[0]) && !IsWhitespace(s[|s| - 1]))
    ensures Trim(s) == s
  {
  }

  // ------------------------------------------------------------ includes

  predicate StartsWith(s: string, t: string) {
    |t| <= |s| && s[..|t|] == t
  }

  /** String.prototype.includes. */
  predicate Contains(s: string, t: string)
    decreases |s|
  {
    StartsWith(s, t) || (s != [] && Contains(s[1..], t))
  }

  lemma {:induction false} ContainsChar(s: string, c: char)
    ensures Contains(s, [c]) <==> c in s
  {
    if s != [] {
      ContainsChar(s[1..], c);
      assert s == [s[0]] + s[1..];
    }
  }

  /** Every character of a contained string occurs in the container. */
  lemma {:induction false} ContainsHasChars(s: string, t: string, k: nat)
    requires Contains(s, t) && k < |t|
    ensures t[k] in s
  {
    if StartsWith(s, t) {
      assert s[k] == t[k];
    } else {
      ContainsHasChars(s[1..], t, k);
    }
  }

  /** An occurrence at a known position is an occurrence. */
  lemma {:induction false} ContainsAt(s: string, t: string, i: nat)
    requires i + |t| <= |s| && s[i..i + |t|] == t
    ensures Contains(s, t)
  {
    if i > 0 {
      assert s[1..][i - 1..i - 1 + |t|] == s[i..i + |t|];
      ContainsAt(s[1..], t, i - 1);
    }
  }

  // --------------------------------------------------------------- split

  /** String.prototype.split with a regular expression that is one character class. */
  function SplitOn(s: string, seps: set<char>): (parts: seq<string>)
    ensures |parts| >= 1
  {
    if s == [] then [""]
    else
      var rest := SplitOn(s[1..], seps);
      if s[0] in seps then [""] + rest else [[s[0]] + rest[0]] + rest[1..]
  }

  lemma {:induction false} SplitOnWithoutSeparator(s: string, seps: set<char>)
    requires forall i :: 0 <= i < |s| ==> s[i] !in seps
    ensures SplitOn(s, seps) == [s]
  {
    if s != [] {
      SplitOnWithoutSeparator(s[1..], seps);
      assert [s[0]] + s[1..] == s;
    }
  }

  /** Splitting at the first separator gives the part before it, then the split of the rest. */
  lemma {:induction false} SplitOnFirstSeparator(a: string, c: char, b: string, seps: set<char>)
    requires forall i :: 0 <= i < |a| ==> a[i] !in seps
    requires c in seps
    ensures SplitOn(a + [c] + b, seps) == [a] + SplitOn(b, seps)
  {
    if a == [] {
      assert a + [c] + b == [c] + b;
      assert ([c] + b)[1..] == b;
    } else {
      assert (a + [c] + b)[1..] == a[1..] + [c] + b;
      SplitOnFirstSeparator(a[1..], c, b, seps);
      assert [a[0]] + a[1..] == a;
    }
  }

  /** A string holding a separator splits into at least two parts. */
  lemma {:induction false} SplitOnSeparatorGivesTwo(s: string, seps: set<char>, k: nat)
    requires k < |s| && s[k] in seps
    ensures |SplitOn(s, seps)| >= 2
  {
    if k > 0 && s[0] !in seps {
      SplitOnSeparatorGivesTwo(s[1..], seps, k - 1);
    }
  }

  // ------------------------------------------------------------- replace

  /** s.replace(c, '') for a one-character pattern: only the first occurrence goes. */
  function RemoveFirst(s: string, c: char): (r: string)
    ensures c !in s ==> r == s
    ensures c in s ==> |r| == |s| - 1
  {
    if s == [] then []
    else if s[0] == c then s[1..]
    else [s[0]] + RemoveFirst(s[1..], c)
  }

  lemma {:induction false} RemoveFirstOccurrence(a: string, c: char, b: string)
    requires c !in a
    ensures RemoveFirst(a + [c] + b, c) == a + b
  {
    if a == [] {
      assert a + [c] + b == [c] + b;
    } else {
      assert (a + [c] + b)[1..] == a[1..] + [c] + b;
      RemoveFirstOccurrence(a[1..], c, b);
      assert [a[0]] + (a[1..] + b) == a + b;
    }
  }

  // ---------------------------------------------------------- lower case

  /**
   * toLowerCase on one code point, as far as it can matter to a match against
   * lower-case ASCII and CJK keywords: ASCII capitals, and KELVIN SIGN, whose
   * lower case is the ASCII letter k.
   */
  function ToLowerChar(c: char): char {
    if 'A' <= c <= 'Z' then (c as int + 32) as char
    else if c == '\U{212A}' then 'k'
    else c
  }

  function ToLower(s: string): (r: string)
    ensures |r| == |s|
    ensures forall i :: 0 <= i < |s| ==> r[i] == ToLowerChar(s[i])
  {
    seq(|s|, i requires 0 <= i < |s| => ToLowerChar(s[i]))
  }

  lemma ToLowerIdempotent(s: string)
    ensures ToLower(ToLower(s)) == ToLower(s)
  {
  }

  // -------------------------------------------------------------- digits

  /** The value of c as a digit in base 36, or 36 when it is not one. */
  function DigitValue(c: char): nat {
    if '0' <= c <= '9' then c as int - '0' as int
    else if 'a' <= c <= 'z' then c as int - 'a' as int + 10
    else if 'A' <= c <= 'Z' then c as int - 'A' as int + 10
    else 36
  }

  predicate IsDigit(c: char, radix: nat) {
    DigitValue(c) < radix
  }

  predicate AllDigits(s: string, radix: nat) {
    forall i :: 0 <= i < |s| ==> IsDigit(s[i], radix)
  }

  /** The longest prefix of s made of digits of the radix. */
  function DigitPrefix(s: string, radix: nat): (d: string)
    ensures |d| <= |s| && d == s[..|d|]
    ensures AllDigits(d, radix)
    ensures |d| == |s| || !IsDigit(s[|d|], radix)
  {
    if s == [] || !IsDigit(s[0], radix) then []
    else [s[0]] + DigitPrefix(s[1..], radix)
  }

  /** The value of a digit string, most significant digit first. */
  function DigitsValue(d: string, radix: nat): nat {
    if d == [] then 0
    else DigitsValue(d[..|d| - 1], radix) * radix + DigitValue(d[|d| - 1])
  }

  lemma {:induction false} DigitPrefixStops(d: string, rest: string, radix: nat)
    requires AllDigits(d, radix)
    requires rest == [] || !IsDigit(rest[0], radix)
    ensures DigitPrefix(d + rest, radix) == d
  {
    if d != [] {
      assert (d + rest)[1..] == d[1..] + rest;
      DigitPrefixStops(d[1..], rest, radix);
    }
  }

  // ------------------------------------------------------------ parseInt

  /**
   * parseInt(s) with no radix: skip leading whitespace, take one sign, read a
   * hexadecimal number after 0x or 0X and a decimal one otherwise, stopping at
   * the first character that is not a digit. None stands for NaN (no digits).
   */
  function ParseInt(s: string): Option<int> {
    ParseAfterWhitespace(TrimStart(s))
  }

  /** parseInt once the leading whitespace is gone. */
  function ParseAfterWhitespace(t: string): Option<int> {
    var sign := if |t| > 0 && t[0] == '-' then -1 else 1;
    var (u, radix) := DigitsAfterSign(t);
    var d := DigitPrefix(u, radix);
    if d == [] then None else Some(sign * DigitsValue(d, radix))
  }

  /** What follows the sign and the 0x prefix, and the radix that prefix selects. */
  function DigitsAfterSign(t: string): (string, nat) {
    var u := if |t| > 0 && (t[0] == '-' || t[0] == '+') then t[1..] else t;
    if |u| >= 2 && u[0] == '0' && (u[1] == 'x' || u[1] == 'X') then (u[2..], 16) else (u, 10)
  }

  /** JavaScript's `n || d` on the result of parseInt: NaN and 0 both give d. */
  function OrElse(n: Option<int>, d: int): (r: int)
    ensures r == d || (n.Some? && r == n.value && r != 0)
    ensures n.Some? && n.value != 0 ==> r == n.value
  {
    if n.None? || n.value == 0 then d else n.value
  }

  // ------------------------------------------------------ number to text

  function DigitChar(d: nat): (c: char)
    requires d < 10
    ensures '0' <= c <= '9' && DigitValue(c) == d
  {
    "0123456789"[d]
  }

  /** String(n) for a non-negative integer: decimal, no leading zero. */
  function NatToString(n: nat): (r: string)
    ensures |r| >= 1 && AllDigits(r, 10)
    ensures n < 10 <==> |r| == 1
    ensures |r| > 1 ==> r[0] != '0'
    ensures DigitsValue(r, 10) == n
  {
    if n < 10 then [DigitChar(n)]
    else
      var p := NatToString(n / 10);
      var r := p + [DigitChar(n % 10)];
      assert r[..|r| - 1] == p;
      r
  }

  /** String(n) for an integer. */
  function IntToString(n: int): (r: string)
    ensures |r| >= 1
    ensures forall i :: 0 <= i < |r| ==> r[i] == '-' || IsDigit(r[i], 10)
    ensures n >= 0 ==> r == NatToString(n)
  {
    if n < 0 then "-" + NatToString(-n) else NatToString(n)
  }

  lemma DecimalDigitsAreNotSpecial(c: char)
    requires IsDigit(c, 10)
    ensures !IsWhitespace(c) && c != '-' && c != '+' && c != 'x' && c != 'X'
  {
  }

  /** A decimal numeral followed by a non-digit, with no sign before it. */
  lemma {:induction false} ParseIntOfNumeral(m: nat, rest: string)
    requires rest == [] || (!IsDigit(rest[0], 10) && rest[0] != 'x' && rest[0] != 'X')
    ensures DigitsAfterSign(NatToString(m) + rest) == (NatToString(m) + rest, 10)
    ensures DigitPrefix(NatToString(m) + rest, 10) == NatToString(m)
  {
    var d := NatToString(m);
    var u := d + rest;
    DecimalDigitsAreNotSpecial(d[0]);
    assert u[0] == d[0];
    if |d| >= 2 {
      assert u[1] == d[1];
      DecimalDigitsAreNotSpecial(d[1]);
    } else if |u| >= 2 {
      assert u[1] == rest[0];
    }
    DigitPrefixStops(d, rest, 10);
  }

  /**
   * parseInt reads back what String(n) wrote, whatever text follows that is
   * not a digit (nor an x, which after a lone 0 would switch to hexadecimal).
   */
  lemma ParseIntOfIntToString(n: int, rest: string)
    requires rest == [] || (!IsDigit(rest[0], 10) && rest[0] != 'x' && rest[0] != 'X')
    ensures ParseInt(IntToString(n) + rest) == Some(n)
  {
    if n < 0 {
      ParseIntOfNegative(-n, rest);
    } else {
      ParseIntOfNonNegative(n, rest);
    }
  }

  lemma ParseIntOfNonNegative(m: nat, rest: string)
    requires rest == [] || (!IsDigit(rest[0], 10) && rest[0] != 'x' && rest[0] != 'X')
    ensures ParseInt(NatToString(m) + rest) == Some(m)
  {
    var d := NatToString(m);
    var u := d + rest;
    ParseIntOfNumeral(m, rest);
    assert u[0] == d[0];
    DecimalDigitsAreNotSpecial(u[0]);
    TrimStartOfUnpadded(u);
    assert ParseAfterWhitespace(u) == Some(1 * DigitsValue(d, 10));
  }

  lemma ParseIntOfNegative(m: nat, rest: string)
    requires rest == [] || (!IsDigit(rest[0], 10) && rest[0] != 'x' && rest[0] != 'X')
    ensures ParseInt("-" + NatToString(m) + rest) == Some(0 - m)
  {
    var d := NatToString(m);
    var u := d + rest;
    assert "-" + NatToString(m) + rest == "-" + u;
    ParseIntOfNumeral(m, rest);
    assert u[0] == d[0];
    DecimalDigitsAreNotSpecial(d[0]);
    ParseIntOfMinus(u, d, m);
  }

  /** parseInt of "-" followed by digits d, read in decimal, and then anything. */
  lemma ParseIntOfMinus(u: string, d: string, v: nat)
    requires u != [] && u[0] != '-' && u[0] != '+' && DigitsAfterSign(u) == (u, 10)
    requires DigitPrefix(u, 10) == d && d != [] && DigitsValue(d, 10) == v
    ensures ParseInt("-" + u) == Some(0 - v)
  {
    ParseAfterMinus(u);
    MinusStartsUnpadded(u);
  }

  /** parseInt of "-" followed by text that has no sign and no 0x prefix. */
  lemma ParseAfterMinus(u: string)
    requires u != [] && u[0] != '-' && u[0] != '+' && DigitsAfterSign(u) == (u, 10)
    ensures ParseAfterWhitespace("-" + u)
            == if DigitPrefix(u, 10) == [] then None else Some(-1 * DigitsValue(DigitPrefix(u, 10), 10))
  {
    var t := "-" + u;
    assert t[0] == '-' && t[1..] == u;
  }

  lemma MinusStartsUnpadded(u: string)
    ensures TrimStart("-" + u) == "-" + u
  {
    TrimStartOfUnpadded("-" + u);
  }

  lemma TrimStartOfUnpadded(s: string)
    requires s != [] && !IsWhitespace(s[0])
    ensures TrimStart(s) == s
  {
  }

  // -------------------------------------------------------------- padStart

  /** s.padStart(width, fill) for a one-character fill. */
  function PadStart(s: string, width: nat, fill: char): (r: string)
    ensures |r| == if |s| >= width then |s| else width
    ensures r[|r| - |s|..] == s
    ensures forall i :: 0 <= i < |r| - |s| ==> r[i] == fill
  {
    if |s| >= width then s else seq(width - |s|, _ => fill) + s
  }
}
