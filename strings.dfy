/** String helpers that stand for the JavaScript built-ins the source calls:
    `split` and `join` on one delimiter character, `String(n)`, `Number(s)`,
    `parseInt(s)` and `trim`. Strings are sequences of Unicode scalar values. */
module Strings {
  import opened Wrappers

  predicate IsDigit(c: char) { '0' <= c <= '9' }

  predicate AllDigits(s: string) { forall i :: 0 <= i < |s| ==> IsDigit(s[i]) }

  /** The characters that `String.prototype.trim` removes and that the regular-expression
      class `\s` matches (ECMAScript WhiteSpace and LineTerminator). */
  predicate IsJsWhitespace(c: char) {
    || c == ' ' || c == '\t' || c == '\n' || c == '\r' || c == '\U{B}' || c == '\U{C}'
    || c == '\U{A0}' || c == '\U{1680}' || ('\U{2000}' <= c <= '\U{200A}')
    || c == '\U{2028}' || c == '\U{2029}' || c == '\U{202F}' || c == '\U{205F}'
    || c == '\U{3000}' || c == '\U{FEFF}'
  }

  function DigitValue(c: char): (d: nat)
    requires IsDigit(c)
    ensures d < 10
  {
    c as int - '0' as int
  }

  function DigitChar(d: nat): (c: char)
    requires d < 10
    ensures IsDigit(c) && DigitValue(c) == d
  {
    ('0' as int + d) as char
  }

  /** Decimal value of a digit string, most significant digit first; the empty string is 0. */
  function DigitsValue(s: string): nat
    requires AllDigits(s)
  {
    if s == [] then 0 else DigitsValue(s[..|s| - 1]) * 10 + DigitValue(s[|s| - 1])
  }

  /** `n.toString()` for a non-negative integer: the shortest decimal numeral of `n`. */
  function NatToString(n: nat): (s: string)
    ensures 1 <= |s| && AllDigits(s)
    ensures DigitsValue(s) == n
    ensures s[0] == '0' ==> n == 0
  {
    if n < 10 then [DigitChar(n)]
    else
      var t := NatToString(n / 10) + [DigitChar(n % 10)];
      assert t[..|t| - 1] == NatToString(n / 10);
      t
  }

  function Negate(n: nat): int { -(n as int) }

  /** `i.toString()` for any integer. */
  function IntToString(i: int): (r: string)
    ensures |r| >= 1
    ensures r[0] == '-' <==> i < 0
  {
    if i < 0 then "-" + NatToString(-i) else NatToString(i)
  }

  /** Distinct numbers have distinct numerals, so `String(i)` names group `n`
      exactly when `i == n`. */
  lemma IntToStringNames(i: int, n: nat)
    ensures IntToString(i) == NatToString(n) <==> i == n
  {
    if i < 0 {
      assert IntToString(i)[0] == '-';
      assert IsDigit(NatToString(n)[0]);
    } else if IntToString(i) == NatToString(n) {
      assert DigitsValue(NatToString(i)) == DigitsValue(NatToString(n));
    }
  }

  function TrimStart(s: string): (r: string)
    ensures r == [] || !IsJsWhitespace(r[0])
  {
    if s != [] && IsJsWhitespace(s[0]) then TrimStart(s[1..]) else s
  }

  function TrimEnd(s: string): (r: string)
    ensures r == [] || !IsJsWhitespace(r[|r| - 1])
  {
    if s != [] && IsJsWhitespace(s[|s| - 1]) then TrimEnd(s[..|s| - 1]) else s
  }

  /** `s.trim()`. */
  function Trim(s: string): (r: string)
    ensures r == [] || !IsJsWhitespace(r[|r| - 1])
  {
    TrimEnd(TrimStart(s))
  }

  /** `Number(s)` for a string: after trimming, the empty string is 0 and an optionally
      signed run of decimal digits is its value; anything else is `NaN` (None). */
  function StringToNumber(s: string): (r: Option<int>)
    ensures AllDigits(s) ==> r == Some(DigitsValue(s))
  {
    var t := Trim(s);
    if t == [] then Some(0)
    else if AllDigits(t) then Some(DigitsValue(t))
    else if |t| > 1 && t[0] == '-' && AllDigits(t[1..]) then Some(Negate(DigitsValue(t[1..])))
    else if |t| > 1 && t[0] == '+' && AllDigits(t[1..]) then Some(DigitsValue(t[1..]))
    else None
  }

  /** The longest prefix of `s` made of decimal digits. */
  function LeadingDigits(s: string): (r: string)
    ensures |r| <= |s| && r == s[..|r|] && AllDigits(r)
    ensures |r| == |s| || !IsDigit(s[|r|])
  {
    if s != [] && IsDigit(s[0]) then [s[0]] + LeadingDigits(s[1..]) else []
  }

  /** `parseInt(s)` in base 10: leading white space, an optional sign, then the longest
      run of digits; no digit at all is `NaN` (None). */
  function ParseInt(s: string): (r: Option<int>)
    ensures s != [] && AllDigits(s) ==> r == Some(DigitsValue(s))
  {
    var t := TrimStart(s);
    var signed := |t| > 0 && (t[0] == '-' || t[0] == '+');
    var digits := LeadingDigits(if signed then t[1..] else t);
    assert s != [] && AllDigits(s) ==> IsDigit(s[0]) && t == s && !signed;
    assert s != [] && AllDigits(s) ==> |digits| == |s| && digits == s;
    if digits == [] then None
    else if signed && t[0] == '-' then Some(Negate(DigitsValue(digits)))
    else Some(DigitsValue(digits))
  }

  /** `parseInt` reads back every numeral that `toString` writes. */
  lemma ParseIntOfIntToString(i: int)
    ensures ParseInt(IntToString(i)) == Some(i)
  {
    var s := IntToString(i);
    var d := NatToString(if i < 0 then -i else i);
    assert TrimStart(s) == s by {
      assert s[0] == '-' || IsDigit(s[0]);
    }
    var body := if i < 0 then s[1..] else s;
    assert body == d;
    assert LeadingDigits(d) == d;
  }

  /** `parts.join(sep)`. */
  function Join(parts: seq<string>, sep: char): string
  {
    if |parts| == 0 then ""
    else if |parts| == 1 then parts[0]
    else parts[0] + [sep] + Join(parts[1..], sep)
  }

  /** `s.split(sep)` for a one-character delimiter: never empty, no part holds the delimiter,
      and joining the parts gives back `s`. In particular `"".split(sep)` is `[""]`. */
  function Split(s: string, sep: char): (parts: seq<string>)
    ensures |parts| >= 1
    ensures forall i :: 0 <= i < |parts| ==> sep !in parts[i]
    ensures Join(parts, sep) == s
  {
    if s == [] then [[]]
    else
      var rest := Split(s[1..], sep);
      if s[0] == sep then
        assert Join([[]] + rest, sep) == [] + [sep] + Join(rest, sep) by {
          assert ([[]] + rest)[1..] == rest;
        }
        [[]] + rest
      else
        var parts := [[s[0]] + rest[0]] + rest[1..];
        assert Join(parts, sep) == [s[0]] + Join(rest, sep) by {
          assert parts[1..] == rest[1..];
        }
        parts
  }

  /** A string without the delimiter splits into itself alone. */
  lemma {:induction false} SplitWithout(s: string, sep: char)
    ensures sep !in s ==> Split(s, sep) == [s]
  {
    if s != [] && sep !in s {
      SplitWithout(s[1..], sep);
    }
  }

  /** Splitting `p + t` where `p` holds no delimiter glues `p` onto the first part of `t`. */
  lemma {:induction false} SplitPrefix(p: string, t: string, sep: char)
    requires sep !in p
    ensures Split(p + t, sep) == [p + Split(t, sep)[0]] + Split(t, sep)[1..]
  {
    if p != [] {
      SplitPrefix(p[1..], t, sep);
      var parts := Split(t, sep);
      var s := p + t;
      assert s[0] == p[0] && s[0] != sep;
      assert s[1..] == p[1..] + t;
      var rest := Split(s[1..], sep);
      assert rest == [p[1..] + parts[0]] + parts[1..];
      assert rest[0] == p[1..] + parts[0] && rest[1..] == parts[1..];
      assert Split(s, sep) == [[s[0]] + rest[0]] + rest[1..];
      assert [p[0]] + (p[1..] + parts[0]) == p + parts[0];
    } else {
      var parts := Split(t, sep);
      assert p + t == t;
      assert p + parts[0] == parts[0];
      assert [parts[0]] + parts[1..] == parts;
    }
  }

  /** `split` inverts `join` on a non-empty list of parts none of which holds the delimiter. */
  lemma {:induction false} SplitJoin(parts: seq<string>, sep: char)
    requires |parts| >= 1
    requires forall i :: 0 <= i < |parts| ==> sep !in parts[i]
    ensures Split(Join(parts, sep), sep) == parts
  {
    if |parts| == 1 {
      SplitPrefix(parts[0], [], sep);
      assert parts[0] + [] == parts[0];
    } else {
      var rest := parts[1..];
      SplitJoin(rest, sep);
      var j := Join(rest, sep);
      assert Join(parts, sep) == parts[0] + ([sep] + j);
      SplitPrefix(parts[0], [sep] + j, sep);
      assert ([sep] + j)[1..] == j;
      assert Split([sep] + j, sep) == [[]] + rest;
      assert parts[0] + [] == parts[0];
      assert [parts[0]] + rest == parts;
    }
  }

  /** The first part of `s.split(sep)` for a delimiter of one or more characters:
      everything before the first occurrence of `sep`, or all of `s`. */
  function BeforeFirst(s: string, sep: string): (r: string)
    requires |sep| > 0
    ensures |r| <= |s| && r == s[..|r|]
  {
    if |s| < |sep| then s
    else if s[..|sep|] == sep then []
    else [s[0]] + BeforeFirst(s[1..], sep)
  }

  /** When `a` holds no copy of the delimiter's first character, the first part of
      `a + sep + b` split on `sep` is `a`. */
  lemma {:induction false} BeforeFirstOfJoined(a: string, sep: string, b: string)
    requires |sep| > 0
    requires sep[0] !in a
    ensures BeforeFirst(a + sep + b, sep) == a
  {
    var s := a + sep + b;
    if a == [] {
      assert s == sep + b;
      assert s[..|sep|] == sep;
    } else {
      assert |s| >= |sep|;
      assert s[..|sep|] != sep by { assert s[0] == a[0]; }
      var rest := a[1..] + sep + b;
      assert s[1..] == rest;
      BeforeFirstOfJoined(a[1..], sep, b);
      assert BeforeFirst(s, sep) == [a[0]] + BeforeFirst(rest, sep);
      assert a == [a[0]] + a[1..];
    }
  }
}
