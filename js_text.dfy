/** The JavaScript string built-ins that the core's logic depends on:
    `String.prototype.trim` (blank-input guards), `String.prototype.includes`
    and `split(' ')[0]` (relative-timestamp parsing), the global `parseInt`
    with no radix, and `Number.prototype.toString` on a non-negative integer
    (clock-derived ids). Each is defined after the ECMAScript algorithm it
    stands for, on `seq<char>`. */
module JsText {
  import opened Wrappers

  /** ECMAScript WhiteSpace and LineTerminator code points: the set that
      `trim` and `parseInt` skip. */
  predicate IsJsWhitespace(c: char) {
    c == '\t' || c == '\U{000B}' || c == '\U{000C}' || c == ' ' || c == '\U{00A0}' || c == '\U{FEFF}'
    || c == '\n' || c == '\r' || c == '\U{2028}' || c == '\U{2029}'
    || c == '\U{1680}' || ('\U{2000}' <= c <= '\U{200A}') || c == '\U{202F}' || c == '\U{205F}' || c == '\U{3000}'
  }

  /** Every character of `s` is whitespace (the empty string included). */
  predicate IsBlank(s: string) {
    forall i :: 0 <= i < |s| ==> IsJsWhitespace(s[i])
  }

  function TrimStart(s: string): (r: string)
    ensures |r| <= |s| && r == s[|s| - |r|..]
    ensures r == [] || !IsJsWhitespace(r[0])
  {
    if s != [] && IsJsWhitespace(s[0]) then TrimStart(s[1..]) else s
  }

  function TrimEnd(s: string): (r: string)
    ensures |r| <= |s| && r == s[..|r|]
    ensures r == [] || !IsJsWhitespace(r[|r| - 1])
  {
    if s != [] && IsJsWhitespace(s[|s| - 1]) then TrimEnd(s[..|s| - 1]) else s
  }

  /** `s.trim()`. */
  function Trim(s: string): string {
    TrimEnd(TrimStart(s))
  }

  lemma {:induction false} TrimStartEmptyIffBlank(s: string)
    ensures TrimStart(s) == [] <==> IsBlank(s)
  {
    if s == [] {
    } else if !IsJsWhitespace(s[0]) {
      assert TrimStart(s) == s;
    } else {
      TrimStartEmptyIffBlank(s[1..]);
      BlankCons(s);
    }
  }

  lemma BlankCons(s: string)
    requires s != [] && IsJsWhitespace(s[0])
    ensures IsBlank(s) <==> IsBlank(s[1..])
  {
    if IsBlank(s[1..]) {
      forall i | 0 <= i < |s| ensures IsJsWhitespace(s[i]) {
        if i > 0 { assert s[i] == s[1..][i - 1]; }
      }
    }
  }

  /** The guard `!s.trim()` of both chat forms holds exactly for
      whitespace-only input, the empty string included. */
  lemma TrimEmptyIffBlank(s: string)
    ensures Trim(s) == [] <==> IsBlank(s)
  {
    TrimStartEmptyIffBlank(s);
    var t := TrimStart(s);
    if IsBlank(s) {
      assert t == [];
    } else {
      assert t != [] && !IsJsWhitespace(t[0]);
      assert TrimEnd(t) != [] by {
        if TrimEnd(t) == [] {
          TrimEndEmptyOnlyIfBlank(t);
        }
      }
    }
  }

  lemma {:induction false} TrimEndEmptyOnlyIfBlank(s: string)
    requires TrimEnd(s) == []
    ensures IsBlank(s)
  {
    if s != [] {
      TrimEndEmptyOnlyIfBlank(s[..|s| - 1]);
      forall i | 0 <= i < |s| ensures IsJsWhitespace(s[i]) {
        if i < |s| - 1 { assert s[i] == s[..|s| - 1][i]; }
      }
    }
  }

  // ---------------------------------------------------------------------
  // includes and split

  predicate StartsWith(s: string, w: string) {
    |w| <= |s| && s[..|w|] == w
  }

  /** `s.includes(w)`: `w` occurs in `s` at some position. */
  predicate Contains(s: string, w: string)
    decreases |s|
  {
    StartsWith(s, w) || (s != [] && Contains(s[1..], w))
  }

  /** One step of the search: a string that does not start with `w`
      contains it exactly when its tail does. */
  lemma ContainsStep(s: string, w: string)
    requires s != [] && !StartsWith(s, w)
    ensures Contains(s, w) <==> Contains(s[1..], w)
  {
  }

  /** `Contains` agrees with the positional reading of `includes`. */
  lemma {:induction false} ContainsAt(s: string, w: string, k: nat)
    requires k + |w| <= |s| && s[k..k + |w|] == w
    ensures Contains(s, w)
  {
    if k > 0 {
      assert s[1..][k - 1..k - 1 + |w|] == s[k..k + |w|];
      ContainsAt(s[1..], w, k - 1);
    }
  }

  /** An occurrence in a suffix is an occurrence in the whole. */
  lemma {:induction false} ContainsInSuffix(p: string, q: string, w: string)
    requires Contains(q, w)
    ensures Contains(p + q, w)
  {
    if p == [] {
      assert p + q == q;
    } else {
      assert (p + q)[1..] == p[1..] + q;
      ContainsInSuffix(p[1..], q, w);
    }
  }

  /** A prefix `p` that does not hold the first character of `w` cannot
      start or hold an occurrence of `w`. */
  lemma {:induction false} ContainsSkip(p: string, q: string, w: string)
    requires w != [] && w[0] !in p
    ensures Contains(p + q, w) <==> Contains(q, w)
  {
    if p == [] {
      assert p + q == q;
    } else {
      assert (p + q)[0] == p[0];
      assert !StartsWith(p + q, w);
      assert (p + q)[1..] == p[1..] + q;
      ContainsSkip(p[1..], q, w);
    }
  }

  /** An occurrence of `w` puts every character of `w` into `s`. */
  lemma {:induction false} ContainsChars(s: string, w: string, c: char)
    requires Contains(s, w) && c in w
    ensures c in s
  {
    if StartsWith(s, w) {
      var k :| 0 <= k < |w| && w[k] == c;
      assert s[k] == c;
    } else {
      ContainsChars(s[1..], w, c);
      var k :| 0 <= k < |s[1..]| && s[1..][k] == c;
      assert s[k + 1] == c;
    }
  }

  /** The converse of `ContainsAt`: an occurrence sits at some position. */
  lemma {:induction false} ContainsWitness(s: string, w: string) returns (k: nat)
    requires Contains(s, w)
    ensures k + |w| <= |s| && s[k..k + |w|] == w && s[k..][..|w|] == w
  {
    if StartsWith(s, w) {
      k := 0;
    } else {
      var j := ContainsWitness(s[1..], w);
      assert s[1..][j..j + |w|] == s[j + 1..j + 1 + |w|];
      k := j + 1;
    }
    assert s[k..][..|w|] == s[k..k + |w|];
  }

  /** A string none of whose windows spells `w` does not contain it. */
  lemma NoWindowNotContains(s: string, w: string)
    requires forall k :: 0 <= k <= |s| - |w| ==> s[k..][..|w|] != w
    ensures !Contains(s, w)
  {
    if Contains(s, w) {
      var k := ContainsWitness(s, w);
    }
  }

  /** An occurrence of `b` follows every occurrence of `a + b`. */
  lemma {:induction false} ContainsPatternSuffix(s: string, a: string, b: string)
    requires Contains(s, a + b)
    ensures Contains(s, b)
  {
    if StartsWith(s, a + b) {
      assert s[|a|..|a| + |b|] == (a + b)[|a|..];
      ContainsAt(s, b, |a|);
    } else {
      ContainsPatternSuffix(s[1..], a, b);
      ContainsInSuffix([s[0]], s[1..], b);
      assert [s[0]] + s[1..] == s;
    }
  }

  /** A string that lacks some character of `w` does not contain `w`. */
  lemma LacksChar(s: string, w: string, c: char)
    requires c in w && c !in s
    ensures !Contains(s, w)
  {
    if Contains(s, w) { ContainsChars(s, w, c); }
  }

  /** `s.split(' ')[0]`: everything before the first space, or all of `s`. */
  function FirstToken(s: string): (r: string)
    ensures |r| <= |s| && r == s[..|r|] && ' ' !in r
    ensures |r| < |s| ==> s[|r|] == ' '
  {
    if s == [] || s[0] == ' ' then [] else [s[0]] + FirstToken(s[1..])
  }

  lemma {:induction false} FirstTokenOfWord(word: string, rest: string)
    requires ' ' !in word
    ensures FirstToken(word + " " + rest) == word
  {
    if word == [] {
      assert (word + " " + rest)[0] == ' ';
    } else {
      assert (word + " " + rest)[1..] == word[1..] + " " + rest;
      FirstTokenOfWord(word[1..], rest);
    }
  }

  // ---------------------------------------------------------------------
  // Digits, parseInt and Number-to-string

  /** The value of `c` as a digit in any radix up to 36, or 36 when `c`
      is not a letter or a decimal digit. */
  function DigitValue(c: char): (v: nat)
    ensures v <= 36
  {
    if '0' <= c <= '9' then c as int - '0' as int
    else if 'a' <= c <= 'z' then c as int - 'a' as int + 10
    else if 'A' <= c <= 'Z' then c as int - 'A' as int + 10
    else 36
  }

  predicate IsRadixDigit(c: char, radix: nat) {
    DigitValue(c) < radix
  }

  /** The longest prefix of `s` made of digits of the radix. */
  function DigitPrefix(s: string, radix: nat): (r: string)
    ensures |r| <= |s| && r == s[..|r|]
    ensures forall i :: 0 <= i < |r| ==> IsRadixDigit(r[i], radix)
    ensures |r| < |s| ==> !IsRadixDigit(s[|r|], radix)
  {
    if s == [] || !IsRadixDigit(s[0], radix) then [] else [s[0]] + DigitPrefix(s[1..], radix)
  }

  /** The value of a digit string read most significant digit first. */
  function DigitsValue(ds: string, radix: nat): nat {
    if ds == [] then 0 else DigitsValue(ds[..|ds| - 1], radix) * radix + DigitValue(ds[|ds| - 1])
  }

  /** The digits after any sign: hexadecimal after a `0x` or `0X` prefix,
      decimal otherwise, up to the first character that is not a digit of
      that radix. No digit at all is NaN, here `None`. */
  function UnsignedValue(u: string): Option<nat> {
    var hex := |u| >= 2 && u[0] == '0' && (u[1] == 'x' || u[1] == 'X');
    var radix := if hex then 16 else 10;
    var digits := DigitPrefix(if hex then u[2..] else u, radix);
    if digits == [] then None else Some(DigitsValue(digits, radix))
  }

  /** One optional sign in front of the digits. */
  function SignedValue(t: string): Option<int> {
    var negative := t != [] && t[0] == '-';
    var u := if t != [] && (t[0] == '+' || t[0] == '-') then t[1..] else t;
    match UnsignedValue(u)
    case None => None
    case Some(m) =>
      var v: int := m;
      Some(if negative then -v else v)
  }

  /** The global `parseInt(s)` with no radix argument: skip leading
      whitespace, then read a signed number. The result is exact: the
      rounding of values above 2^53 to a double is not represented, and
      `-0` is 0. */
  function ParseInt(s: string): Option<int> {
    SignedValue(TrimStart(s))
  }

  /** Trimming leaves a string that starts with a visible character alone. */
  lemma TrimStartKeeps(s: string)
    requires s != [] && !IsJsWhitespace(s[0])
    ensures TrimStart(s) == s
  {
  }

  function DigitChar(d: nat): (c: char)
    requires d < 10
    ensures IsRadixDigit(c, 10) && DigitValue(c) == d
  {
    ('0' as int + d) as char
  }

  /** `n.toString()` for a non-negative integer: decimal, no leading zero. */
  function DecimalString(n: nat): (r: string)
    ensures r != []
    ensures forall i :: 0 <= i < |r| ==> IsRadixDigit(r[i], 10)
    ensures r[0] == '0' ==> n == 0 && r == "0"
  {
    if n < 10 then [DigitChar(n)] else DecimalString(n / 10) + [DigitChar(n % 10)]
  }

  lemma {:induction false} DecimalStringValue(n: nat)
    ensures DigitsValue(DecimalString(n), 10) == n
  {
    var r := DecimalString(n);
    if n < 10 {
      assert r[..|r| - 1] == [];
    } else {
      assert r[..|r| - 1] == DecimalString(n / 10);
      DecimalStringValue(n / 10);
    }
  }

  lemma {:induction false} DigitPrefixOfDigits(ds: string, rest: string, radix: nat)
    requires forall i :: 0 <= i < |ds| ==> IsRadixDigit(ds[i], radix)
    requires rest == [] || !IsRadixDigit(rest[0], radix)
    ensures DigitPrefix(ds + rest, radix) == ds
  {
    if ds == [] {
      assert ds + rest == rest;
    } else {
      assert (ds + rest)[1..] == ds[1..] + rest;
      DigitPrefixOfDigits(ds[1..], rest, radix);
    }
  }

  /** A string of decimal digits holds no character that is not one. */
  lemma DecimalLacks(n: nat, c: char)
    requires !IsRadixDigit(c, 10)
    ensures c !in DecimalString(n)
  {
  }

  /** Different clock values give different ids. */
  lemma {:induction false} DecimalStringInjective(m: nat, n: nat)
    requires DecimalString(m) == DecimalString(n)
    ensures m == n
  {
    DecimalStringValue(m);
    DecimalStringValue(n);
  }

  /** A string that starts with a digit has neither leading whitespace
      nor a sign. */
  lemma ParseIntUnsigned(s: string)
    requires s != [] && IsRadixDigit(s[0], 10)
    ensures ParseInt(s) == UnsignedValue(s)
  {
    TrimStartKeeps(s);
  }

  /** The digits of `toString` read back as the same number. */
  lemma UnsignedDecimalString(n: nat, rest: string)
    requires rest == [] || DigitValue(rest[0]) == 36
    ensures UnsignedValue(DecimalString(n) + rest) == Some(n)
  {
    var d := DecimalString(n);
    var s := d + rest;
    if n == 0 {
      assert d == "0";
      assert |s| >= 2 ==> s[1] == rest[0];
    } else {
      assert s[0] == d[0];
    }
    DigitPrefixOfDigits(d, rest, 10);
    DecimalStringValue(n);
  }

  /** Reading back a number written by `toString` gives the number: the
      round trip `parseInt(String(n)) == n`, also with text after it that
      starts with neither a digit nor a letter (after "0" an `x` would
      make a hexadecimal prefix). */
  lemma ParseIntDecimalString(n: nat, rest: string)
    requires rest == [] || DigitValue(rest[0]) == 36
    ensures ParseInt(DecimalString(n) + rest) == Some(n)
  {
    var s := DecimalString(n) + rest;
    assert s[0] == DecimalString(n)[0];
    ParseIntUnsigned(s);
    UnsignedDecimalString(n, rest);
  }

  /** A word that starts with a letter is not a number (NaN). */
  lemma ParseIntRejectsLetter(s: string)
    requires s != [] && (('a' <= s[0] <= 'z') || ('A' <= s[0] <= 'Z'))
    ensures ParseInt(s) == None
  {
    TrimStartKeeps(s);
    assert DigitPrefix(s, 10) == [];
  }
}
