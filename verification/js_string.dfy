/**
 * The few JavaScript string facilities the extension relies on: truthiness of an
 * attribute value, `String.prototype.trim`, `substring(0, n)` and the decimal text
 * of an integer in a template literal. A JavaScript string is a `seq<char>`; each
 * `char` stands for one UTF-16 code unit.
 */
module JsString {
  import opened Optional

  /** `getAttribute` yields `null` or a string; only a non-empty string is truthy. */
  predicate Truthy(attr: Option<string>) {
    attr.Some? && attr.value != ""
  }

  /** The ECMAScript WhiteSpace and LineTerminator code points removed by `trim`. */
  predicate IsWhitespace(c: char) {
    var u := c as int;
    || (0x09 <= u <= 0x0D) || u == 0x20 || u == 0xA0 || u == 0x1680
    || (0x2000 <= u <= 0x200A) || u == 0x2028 || u == 0x2029 || u == 0x202F
    || u == 0x205F || u == 0x3000 || u == 0xFEFF
  }

  /** Drops the leading whitespace of `s`. */
  function TrimStart(s: string): (r: string)
    ensures |r| <= |s| && r == s[|s| - |r|..]
    ensures forall k :: 0 <= k < |s| - |r| ==> IsWhitespace(s[k])
    ensures r == [] || !IsWhitespace(r[0])
  {
    if |s| > 0 && IsWhitespace(s[0]) then
      var r := TrimStart(s[1..]);
      assert s[1..][|s| - 1 - |r|..] == s[|s| - |r|..];
      r
    else s
  }

  /** Drops the trailing whitespace of `s`. */
  function TrimEnd(s: string): (r: string)
    ensures |r| <= |s| && r == s[..|r|]
    ensures forall k :: |r| <= k < |s| ==> IsWhitespace(s[k])
    ensures r == [] || !IsWhitespace(r[|r| - 1])
  {
    if |s| > 0 && IsWhitespace(s[|s| - 1]) then TrimEnd(s[..|s| - 1]) else s
  }

  /**
   * JavaScript's string trim: what is left of `s` once its leading and trailing
   * whitespace is removed (see TrimIsInfix).
   */
  function Trim(s: string): (r: string)
    ensures |r| <= |s|
    ensures r == [] || (!IsWhitespace(r[0]) && !IsWhitespace(r[|r| - 1]))
  {
    TrimEnd(TrimStart(s))
  }

  /**
   * The trimmed text is the infix of `s` that starts after the leading whitespace and
   * is followed by nothing but whitespace; with the ends of `Trim`'s contract, it is
   * the longest infix of `s` that has only whitespace around it.
   */
  lemma TrimIsInfix(s: string)
    ensures var r := Trim(s);
            var i := |s| - |TrimStart(s)|;
            && i + |r| <= |s| && r == s[i..i + |r|]
            && (forall j :: 0 <= j < i ==> IsWhitespace(s[j]))
            && (forall j :: i + |r| <= j < |s| ==> IsWhitespace(s[j]))
  {
    var t := TrimStart(s);
    var r := TrimEnd(t);
    DropTake(s, |s| - |t|, |r|);
    TrailingWhitespace(s, t, |r|);
  }

  /** Trimming leaves nothing exactly when the text is all whitespace. */
  lemma TrimEmptyIffWhitespace(s: string)
    ensures Trim(s) == "" <==> forall j :: 0 <= j < |s| ==> IsWhitespace(s[j])
  {
    TrimIsInfix(s);
  }

  /** What follows a prefix of the suffix `t` of `s` is whitespace if it is so in `t`. */
  lemma TrailingWhitespace(s: string, t: string, n: nat)
    requires |t| <= |s| && t == s[|s| - |t|..] && n <= |t|
    requires forall k :: n <= k < |t| ==> IsWhitespace(t[k])
    ensures forall j :: |s| - |t| + n <= j < |s| ==> IsWhitespace(s[j])
  {
    var i := |s| - |t|;
    forall j | i + n <= j < |s| ensures IsWhitespace(s[j]) {
      assert s[j] == t[j - i];
    }
  }

  /** The first `n` characters after the first `i`. */
  lemma DropTake(s: string, i: nat, n: nat)
    requires i + n <= |s|
    ensures s[i..][..n] == s[i..i + n]
  {
  }

  /** Trimming an already trimmed string changes nothing. */
  lemma TrimIdempotent(s: string)
    ensures Trim(Trim(s)) == Trim(s)
  {
    var t := Trim(s);
    assert TrimStart(t) == t;
    assert TrimEnd(t) == t;
  }

  /** The first `n` characters of `s`, or all of `s` when it is shorter (content.js:120). */
  function Prefix(s: string, n: nat): (r: string)
    ensures |r| == if n < |s| then n else |s|
    ensures r <= s
  {
    if n < |s| then s[..n] else s
  }

  predicate IsDigit(c: char) {
    '0' <= c <= '9'
  }

  function DigitChar(d: nat): (c: char)
    requires d < 10
    ensures IsDigit(c) && c as int - '0' as int == d
  {
    ('0' as int + d) as char
  }

  predicate AllDigits(s: string) {
    forall k :: 0 <= k < |s| ==> IsDigit(s[k])
  }

  /** The shortest decimal text of `n`, as `${n}` prints a non-negative integer. */
  function NatToString(n: nat): (r: string)
    ensures |r| > 0 && AllDigits(r)
    ensures n > 0 ==> r[0] != '0'
  {
    if n < 10 then [DigitChar(n)] else NatToString(n / 10) + [DigitChar(n % 10)]
  }

  /** The value of a string of decimal digits. */
  function DigitsValue(s: string): (n: nat)
    requires AllDigits(s)
  {
    if s == [] then 0 else 10 * DigitsValue(s[..|s| - 1]) + (s[|s| - 1] as int - '0' as int)
  }

  /** Decimal printing of a natural number is undone by reading its digits back. */
  lemma {:induction false} NatToStringRoundTrip(n: nat)
    ensures DigitsValue(NatToString(n)) == n
  {
    if n >= 10 {
      NatToStringRoundTrip(n / 10);
      var s := NatToString(n);
      assert s[..|s| - 1] == NatToString(n / 10);
    }
  }

  /** `${i}` for an integer `i`: a minus sign followed by the digits of `-i` when negative. */
  function IntToString(i: int): (r: string)
    ensures |r| > 0
    ensures i < 0 <==> r[0] == '-'
    ensures AllDigits(if i < 0 then r[1..] else r)
  {
    if i < 0 then "-" + NatToString(-i) else NatToString(i)
  }

  /** The length of the run of decimal digits at the start of `s`. */
  function DigitRun(s: string): (n: nat)
    ensures n <= |s| && AllDigits(s[..n])
    ensures n < |s| ==> !IsDigit(s[n])
  {
    if |s| > 0 && IsDigit(s[0]) then
      var n := 1 + DigitRun(s[1..]);
      assert s[..n] == [s[0]] + s[1..][..n - 1];
      n
    else 0
  }

  /** Reads a run of decimal digits at the start of `s`: its value and the text after it. */
  function ReadNat(s: string): (r: Option<(nat, string)>)
    ensures r.Some? ==> |r.value.1| < |s| && r.value.1 == s[|s| - |r.value.1|..]
  {
    var n := DigitRun(s);
    if n == 0 then None else Some((DigitsValue(s[..n]), s[n..]))
  }

  /**
   * Reads an optionally negative decimal integer at the start of `s`, returning its
   * value and the text after it, or `None` when no digit follows the optional sign.
   */
  function ReadInt(s: string): (r: Option<(int, string)>)
    ensures r.Some? ==> |r.value.1| < |s| && r.value.1 == s[|s| - |r.value.1|..]
  {
    var negative := |s| > 0 && s[0] == '-';
    match ReadNat(if negative then s[1..] else s)
    case None => None
    case Some((v, rest)) => Some((if negative then -(v as int) else v as int, rest))
  }

  /** The digits of `d` are read back up to the first character that is not a digit. */
  lemma {:induction false} DigitRunOfDigits(d: string, rest: string)
    requires AllDigits(d)
    requires rest == [] || !IsDigit(rest[0])
    ensures DigitRun(d + rest) == |d|
  {
    if d != [] {
      assert (d + rest)[1..] == d[1..] + rest;
      DigitRunOfDigits(d[1..], rest);
    }
  }

  /** A run of digits is read up to the text after it. */
  lemma ReadDigits(digits: string, rest: string)
    requires digits != [] && AllDigits(digits)
    requires rest == [] || !IsDigit(rest[0])
    ensures ReadNat(digits + rest) == Some((DigitsValue(digits), rest))
  {
    var s := digits + rest;
    assert DigitRun(s) == |digits| by {
      DigitRunOfDigits(digits, rest);
    }
    assert s[..|digits|] == digits && s[|digits|..] == rest;
  }

  /** A run of digits with no sign is read as its value. */
  lemma ReadNonNegative(digits: string, rest: string)
    requires digits != [] && AllDigits(digits)
    requires rest == [] || !IsDigit(rest[0])
    ensures ReadInt(digits + rest) == Some((DigitsValue(digits) as int, rest))
  {
    ReadDigits(digits, rest);
    assert IsDigit((digits + rest)[0]);
  }

  /** The digits of a natural number are read back as that number. */
  lemma NatReadBack(n: nat, rest: string)
    requires rest == [] || !IsDigit(rest[0])
    ensures ReadNat(NatToString(n) + rest) == Some((n, rest))
  {
    NatToStringRoundTrip(n);
    ReadDigits(NatToString(n), rest);
  }

  /** A minus sign followed by a readable natural number is read as its negation. */
  lemma ReadIntMinus(t: string)
    ensures ReadNat(t).Some? ==>
      ReadInt("-" + t) == Some((-(ReadNat(t).value.0 as int), ReadNat(t).value.1))
  {
    assert ("-" + t)[1..] == t;
  }

  /** A minus sign and the digits of `n` are read as `-n`. */
  lemma MinusDigitsRead(n: nat, rest: string)
    requires rest == [] || !IsDigit(rest[0])
    ensures ReadInt("-" + (NatToString(n) + rest)) == Some((-(n as int), rest))
  {
    NatReadBack(n, rest);
    ReadIntMinus(NatToString(n) + rest);
  }

  /** The text of a negative integer followed by `rest`. */
  lemma NegativeText(i: int, rest: string)
    requires i < 0
    ensures IntToString(i) + rest == "-" + (NatToString(-i) + rest)
  {
  }

  /** A negative integer is printed as a minus sign and the digits of its magnitude. */
  lemma NegativeRoundTrip(i: int, rest: string)
    requires i < 0 && (rest == [] || !IsDigit(rest[0]))
    ensures ReadInt(IntToString(i) + rest) == Some((i, rest))
  {
    var n: nat := -i;
    NegativeText(i, rest);
    MinusDigitsRead(n, rest);
  }

  /** A non-negative integer is printed as its digits alone. */
  lemma NonNegativeRoundTrip(i: nat, rest: string)
    requires rest == [] || !IsDigit(rest[0])
    ensures ReadInt(IntToString(i) + rest) == Some((i as int, rest))
  {
    NatToStringRoundTrip(i);
    ReadNonNegative(NatToString(i), rest);
  }

  /** Printing an integer and reading it back yields the integer and the text that followed. */
  lemma IntToStringRoundTrip(i: int, rest: string)
    requires rest == [] || !IsDigit(rest[0])
    ensures ReadInt(IntToString(i) + rest) == Some((i, rest))
  {
    if i < 0 {
      NegativeRoundTrip(i, rest);
    } else {
      NonNegativeRoundTrip(i, rest);
    }
  }
}
