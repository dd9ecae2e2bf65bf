/**
 * String helpers that the portal takes from JavaScript: `String.prototype.includes`,
 * `toLowerCase`, code-point ordering of strings, `String(n)` for integers,
 * `parseInt(s)` without a radix, `s.length` in UTF-16 code units, and the
 * `msg || "fallback"` idiom for server messages.
 */
module Text {
  import opened Wrappers

  // ---------------------------------------------------------------------------
  // Substring search (`s.includes(sub)`)
  // ---------------------------------------------------------------------------

  /** `sub` occurs in `s` starting at index `i`. */
  ghost predicate OccursAt(s: string, sub: string, i: int)
  {
    0 <= i && i + |sub| <= |s| && s[i..i + |sub|] == sub
  }

  lemma PrefixOccurs(s: string, sub: string)
    ensures sub <= s <==> OccursAt(s, sub, 0)
  {
    if sub <= s {
      assert s[0..|sub|] == sub;
    }
  }

  /** Occurrences in `s[1..]` are the occurrences in `s` shifted left by one. */
  lemma ShiftOccurs(s: string, sub: string)
    requires |s| > 0 && !(sub <= s)
    ensures (exists i :: OccursAt(s, sub, i)) <==> (exists j :: OccursAt(s[1..], sub, j))
  {
    PrefixOccurs(s, sub);
    if i :| OccursAt(s, sub, i) {
      assert i != 0;
      assert s[1..][i - 1..i - 1 + |sub|] == s[i..i + |sub|];
      assert OccursAt(s[1..], sub, i - 1);
    }
    if j :| OccursAt(s[1..], sub, j) {
      assert s[j + 1..j + 1 + |sub|] == s[1..][j..j + |sub|];
      assert OccursAt(s, sub, j + 1);
    }
  }

  /** JavaScript's `s.includes(sub)`: the empty string occurs everywhere. */
  function Contains(s: string, sub: string): (b: bool)
    ensures b <==> exists i :: OccursAt(s, sub, i)
    decreases |s|
  {
    PrefixOccurs(s, sub);
    if sub <= s then true
    else if |s| == 0 then false
    else ShiftOccurs(s, sub); Contains(s[1..], sub)
  }

  // ---------------------------------------------------------------------------
  // Case folding (`toLowerCase`, ASCII letters only)
  // ---------------------------------------------------------------------------

  function LowerChar(c: char): char
  {
    if 'A' <= c <= 'Z' then (c as int + 32) as char else c
  }

  function ToLower(s: string): (r: string)
    ensures |r| == |s|
    ensures forall i :: 0 <= i < |s| ==> r[i] == LowerChar(s[i])
  {
    seq(|s|, i requires 0 <= i < |s| => LowerChar(s[i]))
  }

  /** Lower-casing twice is lower-casing once, so a lower-cased search term is stable. */
  lemma ToLowerIdempotent(s: string)
    ensures ToLower(ToLower(s)) == ToLower(s)
    ensures forall i :: 0 <= i < |s| ==> !('A' <= ToLower(s)[i] <= 'Z')
  {
  }

  // ---------------------------------------------------------------------------
  // Length in UTF-16 code units (`s.length`)
  // ---------------------------------------------------------------------------

  /** A character outside the Basic Multilingual Plane takes two UTF-16 code units. */
  predicate IsAstral(c: char)
  {
    c as int >= 0x10000
  }

  /**
   * JavaScript's `s.length`: one unit per character, plus one more for each character
   * outside the Basic Multilingual Plane (it is stored as a surrogate pair).
   */
  function Utf16Length(s: string): (n: nat)
    ensures |s| <= n <= 2 * |s|
    ensures n == |s| <==> forall i :: 0 <= i < |s| ==> !IsAstral(s[i])
    ensures n == 2 * |s| <==> forall i :: 0 <= i < |s| ==> IsAstral(s[i])
    decreases |s|
  {
    if |s| == 0 then 0
    else
      assert forall i :: 1 <= i < |s| ==> s[1..][i - 1] == s[i];
      (if IsAstral(s[0]) then 2 else 1) + Utf16Length(s[1..])
  }

  // ---------------------------------------------------------------------------
  // Code-point ordering of strings: the model's stand-in for both the default
  // `Array.prototype.sort()` order (UTF-16 code units) and `localeCompare`
  // ---------------------------------------------------------------------------

  /** Three-way comparison: negative, zero or positive as `a` sorts before, with or after `b`. */
  function Compare(a: string, b: string): (r: int)
    ensures -1 <= r <= 1
    ensures r == 0 <==> a == b
    decreases |a|
  {
    if |a| == 0 then (if |b| == 0 then 0 else -1)
    else if |b| == 0 then 1
    else if a[0] < b[0] then -1
    else if a[0] > b[0] then 1
    else
      assert a == [a[0]] + a[1..] && b == [b[0]] + b[1..];
      Compare(a[1..], b[1..])
  }

  lemma {:induction false} CompareAntisymmetric(a: string, b: string)
    ensures Compare(a, b) == -Compare(b, a)
    decreases |a|
  {
    if |a| > 0 && |b| > 0 && a[0] == b[0] {
      CompareAntisymmetric(a[1..], b[1..]);
    }
  }

  lemma {:induction false} CompareTransitive(a: string, b: string, c: string)
    requires Compare(a, b) <= 0 && Compare(b, c) <= 0
    ensures Compare(a, c) <= 0
    decreases |a|
  {
    if |a| > 0 && |b| > 0 && |c| > 0 && a[0] == b[0] == c[0] {
      CompareTransitive(a[1..], b[1..], c[1..]);
    }
  }

  /** Strict order is transitive too, which is what duplicate-free sorted lists need. */
  lemma CompareStrictTransitive(a: string, b: string, c: string)
    requires Compare(a, b) < 0 && Compare(b, c) < 0
    ensures Compare(a, c) < 0
  {
    CompareTransitive(a, b, c);
    if a == c {
      CompareAntisymmetric(b, c);
    }
  }

  // ---------------------------------------------------------------------------
  // Decimal text of integers (`String(n)`, template literals) and `parseInt`
  // ---------------------------------------------------------------------------

  predicate IsDigit(c: char)
  {
    '0' <= c <= '9'
  }

  predicate AllDigits(s: string)
  {
    forall i :: 0 <= i < |s| ==> IsDigit(s[i])
  }

  function DigitChar(d: int): (c: char)
    requires 0 <= d < 10
    ensures IsDigit(c) && c as int - '0' as int == d
  {
    ('0' as int + d) as char
  }

  function NatToString(n: nat): (s: string)
    ensures 1 <= |s| && AllDigits(s)
    ensures n < 10 <==> |s| == 1
    ensures s[0] == '0' <==> n == 0
    decreases n
  {
    if n < 10 then [DigitChar(n)] else NatToString(n / 10) + [DigitChar(n % 10)]
  }

  function IntToString(i: int): (s: string)
    ensures 1 <= |s|
    ensures i < 0 <==> s[0] == '-'
  {
    if i < 0 then "-" + NatToString(-i) else NatToString(i)
  }

  /** Value of a string of decimal digits, most significant first. */
  function DigitsValue(s: string): nat
    requires AllDigits(s)
    decreases |s|
  {
    if |s| == 0 then 0
    else DigitsValue(s[..|s| - 1]) * 10 + (s[|s| - 1] as int - '0' as int)
  }

  /** The longest prefix of `s` made of digits. */
  function LeadingDigits(s: string): (p: string)
    ensures p <= s && AllDigits(p)
    ensures |p| < |s| ==> !IsDigit(s[|p|])
    decreases |s|
  {
    if |s| > 0 && IsDigit(s[0]) then [s[0]] + LeadingDigits(s[1..]) else []
  }

  /**
   * The characters `parseInt` skips at the front: JavaScript's WhiteSpace (tab, vertical
   * tab, form feed, the byte-order mark and every space separator) and LineTerminator.
   */
  predicate IsSpace(c: char)
  {
    var n := c as int;
    n == 0x09 || n == 0x0A || n == 0x0B || n == 0x0C || n == 0x0D || n == 0x20 || n == 0xA0
    || n == 0x1680 || (0x2000 <= n <= 0x200A) || n == 0x2028 || n == 0x2029 || n == 0x202F
    || n == 0x205F || n == 0x3000 || n == 0xFEFF
  }

  function TrimStart(s: string): (r: string)
    ensures |r| <= |s| && r == s[|s| - |r|..]
    ensures |r| > 0 ==> !IsSpace(r[0])
    decreases |s|
  {
    if |s| > 0 && IsSpace(s[0]) then TrimStart(s[1..]) else s
  }

  /** The value of the digit run at the front of `s`, or `None` when `s` does not start with a digit. */
  function ParseDigits(s: string): (r: Option<nat>)
    ensures r.None? <==> |s| == 0 || !IsDigit(s[0])
  {
    var digits := LeadingDigits(s);
    if |digits| == 0 then None else Some(DigitsValue(digits))
  }

  predicate IsHexDigit(c: char)
  {
    IsDigit(c) || 'a' <= c <= 'f' || 'A' <= c <= 'F'
  }

  function HexDigitValue(c: char): (d: nat)
    requires IsHexDigit(c)
    ensures d < 16
  {
    if IsDigit(c) then c as int - '0' as int
    else if 'a' <= c <= 'f' then c as int - 'a' as int + 10
    else c as int - 'A' as int + 10
  }

  /** The value of the hexadecimal digits at the front of `s`, read onto `acc`, most significant first. */
  function HexRun(s: string, acc: nat): nat
    decreases |s|
  {
    if |s| > 0 && IsHexDigit(s[0]) then HexRun(s[1..], acc * 16 + HexDigitValue(s[0])) else acc
  }

  /** The value of the hexadecimal run at the front of `s`, or `None` when there is none. */
  function ParseHexDigits(s: string): Option<nat>
  {
    if |s| > 0 && IsHexDigit(s[0]) then Some(HexRun(s, 0)) else None
  }

  /** `s` begins with the `0x` or `0X` prefix that selects base 16. */
  predicate HasHexPrefix(s: string)
  {
    |s| >= 2 && s[0] == '0' && (s[1] == 'x' || s[1] == 'X')
  }

  /** The magnitude `parseInt` reads after the sign: hexadecimal after `0x`/`0X`, else decimal. */
  function ParseMagnitude(u: string): Option<nat>
  {
    if HasHexPrefix(u) then ParseHexDigits(u[2..]) else ParseDigits(u)
  }

  /**
   * `parseInt(s)` with no radix: leading white space, an optional sign, then either `0x`/`0X`
   * and the longest run of hexadecimal digits, or the longest run of decimal digits. `None`
   * stands for `NaN`, returned when no digit follows (so `"0x"` alone is `NaN`). `-0` is 0.
   */
  function ParseInt(s: string): Option<int>
  {
    ParseSigned(TrimStart(s))
  }

  /** `parseInt` yields a number only when a digit follows the leading white space and the sign. */
  lemma ParseIntNeedsDigit(s: string)
    ensures ParseInt(s).Some? ==> var t := TrimStart(s);
      |t| > 0 && (IsDigit(t[0]) || ((t[0] == '-' || t[0] == '+') && |t| > 1 && IsDigit(t[1])))
  {
  }

  /** What `parseInt` reads once the leading white space is gone. */
  function ParseSigned(t: string): Option<int>
  {
    var negative := |t| > 0 && t[0] == '-';
    var u := if |t| > 0 && (t[0] == '-' || t[0] == '+') then t[1..] else t;
    match ParseMagnitude(u)
    case None => None
    case Some(n) => if negative then Some(-(n as int)) else Some(n)
  }

  lemma {:induction false} NatToStringValue(n: nat)
    ensures DigitsValue(NatToString(n)) == n
    decreases n
  {
    if n >= 10 {
      var s := NatToString(n);
      NatToStringValue(n / 10);
      assert s[..|s| - 1] == NatToString(n / 10);
    }
  }

  /** The digit run ends where the digits end. */
  lemma {:induction false} LeadingDigitsAppend(d: string, rest: string)
    requires AllDigits(d)
    requires |rest| > 0 ==> !IsDigit(rest[0])
    ensures LeadingDigits(d + rest) == d
    decreases |d|
  {
    if |d| > 0 {
      assert (d + rest)[1..] == d[1..] + rest;
      LeadingDigitsAppend(d[1..], rest);
    } else {
      assert d + rest == rest;
    }
  }

  /** A run of digits followed by a non-digit is read as its value. */
  lemma {:induction false} ParseDigitsAppend(d: string, rest: string)
    requires |d| > 0 && AllDigits(d)
    requires |rest| > 0 ==> !IsDigit(rest[0])
    ensures ParseDigits(d + rest) == Some(DigitsValue(d))
  {
    LeadingDigitsAppend(d, rest);
  }

  /** A `0` directly followed by `x` or `X` is the hexadecimal prefix, not the number 0. */
  predicate StartsWithX(rest: string)
  {
    |rest| > 0 && (rest[0] == 'x' || rest[0] == 'X')
  }

  /**
   * `parseInt` reads an integer back from the front of any text that continues with a
   * non-digit, except that `0` followed by `x`/`X` is read as a hexadecimal prefix
   * (`ParseIntHexPrefix` says what that gives).
   */
  lemma {:induction false} ParseIntPrefix(i: int, rest: string)
    requires |rest| > 0 ==> !IsDigit(rest[0])
    requires !(i == 0 && StartsWithX(rest))
    ensures ParseInt(IntToString(i) + rest) == Some(i)
  {
    if i < 0 {
      ParseNegativePrefix(-i, rest);
      NegativeText(i, rest);
    } else {
      ParseNaturalPrefix(i, rest);
    }
  }

  lemma NegativeText(i: int, rest: string)
    requires i < 0
    ensures IntToString(i) + rest == ['-'] + (NatToString(-i) + rest)
  {
  }

  /** Decimal text of `n` never starts a hexadecimal prefix unless it is `0` and `x`/`X` follows. */
  lemma NoHexPrefix(n: nat, rest: string)
    requires !(n == 0 && StartsWithX(rest))
    ensures !HasHexPrefix(NatToString(n) + rest)
  {
    var d := NatToString(n);
    if |d| >= 2 {
      assert (d + rest)[1] == d[1];
    } else {
      assert (d + rest)[0] == d[0];
      if n == 0 && |rest| > 0 {
        assert (d + rest)[1] == rest[0];
      }
    }
  }

  lemma {:induction false} ParseNaturalPrefix(n: nat, rest: string)
    requires |rest| > 0 ==> !IsDigit(rest[0])
    requires !(n == 0 && StartsWithX(rest))
    ensures ParseInt(NatToString(n) + rest) == Some(n)
  {
    NatToStringValue(n);
    NoHexPrefix(n, rest);
    ParseUnsigned(NatToString(n), rest);
  }

  lemma {:induction false} ParseNegativePrefix(n: nat, rest: string)
    requires n > 0
    requires |rest| > 0 ==> !IsDigit(rest[0])
    ensures ParseInt(['-'] + (NatToString(n) + rest)) == Some(-(n as int))
  {
    NatToStringValue(n);
    NoHexPrefix(n, rest);
    ParseNegative(NatToString(n), n, rest);
  }

  lemma {:induction false} ParseUnsigned(d: string, rest: string)
    requires |d| > 0 && AllDigits(d)
    requires |rest| > 0 ==> !IsDigit(rest[0])
    requires !HasHexPrefix(d + rest)
    ensures ParseInt(d + rest) == Some(DigitsValue(d) as int)
  {
    ParseDigitsAppend(d, rest);
    assert (d + rest)[0] == d[0];
    ParseAtDigit(d + rest, DigitsValue(d));
  }

  lemma {:induction false} ParseNegative(d: string, n: nat, rest: string)
    requires |d| > 0 && AllDigits(d) && DigitsValue(d) == n
    requires |rest| > 0 ==> !IsDigit(rest[0])
    requires !HasHexPrefix(d + rest)
    ensures ParseInt(['-'] + (d + rest)) == Some(-(n as int))
  {
    var u := d + rest;
    ParseDigitsAppend(d, rest);
    assert ParseDigits(u) == Some(n);
    ParseAtMinus(u, n);
  }

  lemma TrimAtNonBlank(t: string)
    requires |t| > 0 && !IsSpace(t[0])
    ensures TrimStart(t) == t
  {
  }

  lemma {:induction false} ParseAtDigit(t: string, n: nat)
    requires |t| > 0 && IsDigit(t[0]) && !HasHexPrefix(t)
    requires ParseDigits(t) == Some(n)
    ensures ParseInt(t) == Some(n as int)
  {
    TrimAtNonBlank(t);
  }

  lemma {:induction false} ParseAtMinus(u: string, n: nat)
    requires ParseDigits(u) == Some(n) && !HasHexPrefix(u)
    ensures ParseInt(['-'] + u) == Some(-(n as int))
  {
    var t := ['-'] + u;
    assert t[0] == '-' && t[1..] == u;
    TrimAtNonBlank(t);
    assert ParseInt(t) == ParseSigned(t);
  }

  /** Leading white space does not change what `parseInt` reads. */
  lemma ParseIntSkipsSpace(c: char, s: string)
    requires IsSpace(c)
    ensures ParseInt([c] + s) == ParseInt(s)
  {
    var t := [c] + s;
    assert t[0] == c && t[1..] == s;
    assert TrimStart(t) == TrimStart(s);
    assert ParseInt(t) == ParseSigned(TrimStart(t));
  }

  /**
   * After an optional sign, `0x` or `0X` switches to base 16: the value is the hexadecimal
   * run that follows, and `NaN` when no hexadecimal digit follows.
   */
  lemma ParseIntHexPrefix(x: char, rest: string)
    requires x == 'x' || x == 'X'
    ensures ParseInt(['0', x] + rest) == (match ParseHexDigits(rest) case None => None case Some(n) => Some(n as int))
    ensures ParseInt(['-', '0', x] + rest) == (match ParseHexDigits(rest) case None => None case Some(n) => Some(-(n as int)))
  {
    HexPrefixUnsigned(x, rest);
    HexPrefixNegative(x, rest);
  }

  lemma HexPrefixUnsigned(x: char, rest: string)
    requires x == 'x' || x == 'X'
    ensures ParseInt(['0', x] + rest) == (match ParseHexDigits(rest) case None => None case Some(n) => Some(n as int))
  {
    var t := ['0', x] + rest;
    assert t[2..] == rest;
    ParseHexUnsigned(t);
  }

  lemma HexPrefixNegative(x: char, rest: string)
    requires x == 'x' || x == 'X'
    ensures ParseInt(['-', '0', x] + rest) == (match ParseHexDigits(rest) case None => None case Some(n) => Some(-(n as int)))
  {
    var m := ['-', '0', x] + rest;
    assert m[1..] == ['0', x] + rest;
    assert m[3..] == rest;
    ParseHexNegative(m);
  }

  lemma ParseHexUnsigned(t: string)
    requires HasHexPrefix(t)
    ensures ParseInt(t) == (match ParseHexDigits(t[2..]) case None => None case Some(n) => Some(n as int))
  {
    TrimAtNonBlank(t);
    assert ParseInt(t) == ParseSigned(t);
    assert ParseMagnitude(t) == ParseHexDigits(t[2..]);
  }

  lemma ParseHexNegative(m: string)
    requires |m| > 0 && m[0] == '-' && HasHexPrefix(m[1..])
    ensures ParseInt(m) == (match ParseHexDigits(m[3..]) case None => None case Some(n) => Some(-(n as int)))
  {
    TrimAtNonBlank(m);
    assert ParseInt(m) == ParseSigned(m);
    assert m[1..][2..] == m[3..];
    assert ParseMagnitude(m[1..]) == ParseHexDigits(m[3..]);
  }

  /** Printing an integer and parsing it back with `parseInt` gives the integer. */
  lemma ParseIntRoundTrip(i: int)
    ensures ParseInt(IntToString(i)) == Some(i)
  {
    ParseIntPrefix(i, []);
    assert IntToString(i) + [] == IntToString(i);
  }

  /** Distinct integers print differently. */
  lemma IntToStringInjective(a: int, b: int)
    requires IntToString(a) == IntToString(b)
    ensures a == b
  {
    ParseIntRoundTrip(a);
    ParseIntRoundTrip(b);
  }

  // ---------------------------------------------------------------------------
  // `data.msg || "fallback"`
  // ---------------------------------------------------------------------------

  /** The server message when it is present and non-empty, else the fallback text. */
  function MsgOr(msg: Option<string>, fallback: string): (r: string)
    ensures (msg.Some? && msg.value != "") ==> r == msg.value
    ensures (msg.None? || msg.value == "") ==> r == fallback
  {
    if msg.Some? && msg.value != "" then msg.value else fallback
  }
}
