/**
 * The string operations the scene selection relies on: `str.split(sep)` with an
 * explicit one-character separator, `sep.join(parts)`, `str.strip()` with no
 * argument, and `int(text)` in base 10 over ASCII digits.
 */
module Text {
  import opened Results

  /** `str.split(c)`: the maximal runs between separators, empty runs included. */
  function Split(s: string, c: char): (r: seq<string>)
    ensures |r| > 0
  {
    if |s| == 0 then [""]
    else
      var rest := Split(s[1..], c);
      if s[0] == c then [""] + rest else [[s[0]] + rest[0]] + rest[1..]
  }

  /** `sep.join(parts)`. */
  function Join(parts: seq<string>, sep: string): string {
    if |parts| == 0 then ""
    else if |parts| == 1 then parts[0]
    else parts[0] + sep + Join(parts[1..], sep)
  }

  /** The number of occurrences of `c` in `s`. */
  function Occurrences(s: string, c: char): nat {
    if |s| == 0 then 0 else (if s[0] == c then 1 else 0) + Occurrences(s[1..], c)
  }

  /** Splitting yields one more part than there are separators, and no part holds one. */
  lemma {:induction false} SplitParts(s: string, c: char)
    ensures |Split(s, c)| == Occurrences(s, c) + 1
    ensures forall k :: 0 <= k < |Split(s, c)| ==> c !in Split(s, c)[k]
  {
    if |s| > 0 {
      SplitParts(s[1..], c);
    }
  }

  /** Joining the parts with the separator gives back the text. */
  lemma {:induction false} JoinSplit(s: string, c: char)
    ensures Join(Split(s, c), [c]) == s
  {
    if |s| > 0 {
      JoinSplit(s[1..], c);
      var rest := Split(s[1..], c);
      if s[0] == c {
        assert Split(s, c) == [""] + rest;
      } else if |rest| == 1 {
        assert Split(s, c) == [[s[0]] + rest[0]];
      } else {
        var parts := Split(s, c);
        assert parts[1..] == rest[1..];
        assert Join(rest, [c]) == rest[0] + [c] + Join(rest[1..], [c]);
        assert s == [s[0]] + s[1..];
      }
    }
  }

  lemma {:induction false} SplitWithoutSeparator(a: string, c: char)
    requires c !in a
    ensures Split(a, c) == [a]
  {
    if |a| > 0 {
      SplitWithoutSeparator(a[1..], c);
      assert [a[0]] + a[1..] == a;
    }
  }

  /** A separator after a run without one closes that run. */
  lemma {:induction false} SplitAfterRun(a: string, c: char, b: string)
    requires c !in a
    ensures Split(a + [c] + b, c) == [a] + Split(b, c)
  {
    if |a| == 0 {
      assert a + [c] + b == [c] + b;
      assert ([c] + b)[1..] == b;
    } else {
      SplitAfterRun(a[1..], c, b);
      var s := a + [c] + b;
      assert s[0] == a[0] && s[1..] == a[1..] + [c] + b;
      assert [a[0]] + a[1..] == a;
    }
  }

  /** A separator before a run without one opens that run as the last part. */
  lemma {:induction false} SplitBeforeRun(a: string, c: char, b: string)
    requires c !in b
    ensures Split(a + [c] + b, c) == Split(a, c) + [b]
  {
    var s := a + [c] + b;
    if |a| == 0 {
      assert s == [c] + b && s[1..] == b;
      SplitWithoutSeparator(b, c);
    } else {
      SplitBeforeRun(a[1..], c, b);
      assert s[0] == a[0] && s[1..] == a[1..] + [c] + b;
    }
  }

  /** Splitting the join of separator-free parts gives back the parts. */
  lemma {:induction false} SplitJoin(parts: seq<string>, c: char)
    requires |parts| > 0
    requires forall k :: 0 <= k < |parts| ==> c !in parts[k]
    ensures Split(Join(parts, [c]), c) == parts
  {
    if |parts| == 1 {
      SplitWithoutSeparator(parts[0], c);
    } else {
      SplitJoin(parts[1..], c);
      SplitAfterRun(parts[0], c, Join(parts[1..], [c]));
      assert [parts[0]] + parts[1..] == parts;
    }
  }

  /** A text that ends with the separator splits into a last part that is empty. */
  lemma {:induction false} TrailingSeparator(s: string, c: char)
    ensures Split(s + [c], c)[|Split(s + [c], c)| - 1] == ""
  {
    var t := s + [c];
    if |s| == 0 {
      assert t[1..] == "";
    } else {
      assert t[1..] == s[1..] + [c];
      TrailingSeparator(s[1..], c);
      SplitParts(t[1..], c);
      assert c == t[1..][|t[1..]| - 1];
      OccurrencesOfLast(t[1..], c);
    }
  }

  lemma {:induction false} OccurrencesOfLast(s: string, c: char)
    requires |s| > 0 && s[|s| - 1] == c
    ensures Occurrences(s, c) > 0
  {
    if |s| > 1 && s[0] != c {
      OccurrencesOfLast(s[1..], c);
    }
  }

  /** The characters `str.isspace` accepts. */
  predicate IsSpace(ch: char) {
    var u := ch as int;
    (0x09 <= u <= 0x0D) || (0x1C <= u <= 0x20) || u == 0x85 || u == 0xA0 || u == 0x1680
    || (0x2000 <= u <= 0x200A) || u == 0x2028 || u == 0x2029 || u == 0x202F || u == 0x205F || u == 0x3000
  }

  function TrimStart(s: string): string {
    if |s| > 0 && IsSpace(s[0]) then TrimStart(s[1..]) else s
  }

  function TrimEnd(s: string): string {
    if |s| > 0 && IsSpace(s[|s| - 1]) then TrimEnd(s[..|s| - 1]) else s
  }

  /** Trimming the start drops a run of leading whitespace and stops at the first other character. */
  lemma {:induction false} TrimStartDropsLeadingSpace(s: string)
    ensures |TrimStart(s)| <= |s| && TrimStart(s) == s[|s| - |TrimStart(s)|..]
    ensures forall k :: 0 <= k < |s| - |TrimStart(s)| ==> IsSpace(s[k])
    ensures |TrimStart(s)| > 0 ==> !IsSpace(TrimStart(s)[0])
  {
    if |s| > 0 && IsSpace(s[0]) {
      TrimStartDropsLeadingSpace(s[1..]);
    }
  }

  /** Trimming the end drops a run of trailing whitespace and stops at the last other character. */
  lemma {:induction false} TrimEndDropsTrailingSpace(s: string)
    ensures |TrimEnd(s)| <= |s| && TrimEnd(s) == s[..|TrimEnd(s)|]
    ensures forall k :: |TrimEnd(s)| <= k < |s| ==> IsSpace(s[k])
    ensures |TrimEnd(s)| > 0 ==> !IsSpace(TrimEnd(s)[|TrimEnd(s)| - 1])
  {
    if |s| > 0 && IsSpace(s[|s| - 1]) {
      TrimEndDropsTrailingSpace(s[..|s| - 1]);
    }
  }

  /** `str.strip()`. */
  function Strip(s: string): string {
    TrimEnd(TrimStart(s))
  }

  /**
   * Stripping removes exactly a run of whitespace at each end: the result is a slice
   * of the text, everything outside it is whitespace, and it neither starts nor ends
   * with whitespace.
   */
  lemma StripSlice(s: string)
    ensures exists i, j :: 0 <= i <= j <= |s| && Strip(s) == s[i..j]
              && (forall k :: 0 <= k < i ==> IsSpace(s[k]))
              && (forall k :: j <= k < |s| ==> IsSpace(s[k]))
    ensures |Strip(s)| > 0 ==> !IsSpace(Strip(s)[0]) && !IsSpace(Strip(s)[|Strip(s)| - 1])
  {
    var t := TrimStart(s);
    TrimStartDropsLeadingSpace(s);
    TrimEndDropsTrailingSpace(t);
    var i := |s| - |t|;
    var j := i + |Strip(s)|;
    assert Strip(s) == s[i..j];
    forall k | j <= k < |s| ensures IsSpace(s[k]) {
      assert s[k] == t[k - i];
    }
  }

  /** Text without whitespace at either end is left alone by stripping. */
  lemma StripTrimmed(s: string)
    requires |s| > 0 ==> !IsSpace(s[0]) && !IsSpace(s[|s| - 1])
    ensures Strip(s) == s
  {
  }

  /** Stripping twice is stripping once. */
  lemma StripIdempotent(s: string)
    ensures Strip(Strip(s)) == Strip(s)
  {
    StripSlice(s);
    StripTrimmed(Strip(s));
  }

  predicate IsDigit(ch: char) {
    '0' <= ch <= '9'
  }

  function DigitValue(ch: char): nat
    requires IsDigit(ch)
  {
    ch as int - '0' as int
  }

  function DigitChar(d: nat): char
    requires d < 10
  {
    ('0' as int + d) as char
  }

  /** A digit literal consists of digits and underscores. */
  predicate DigitsAndUnderscores(s: string) {
    forall k :: 0 <= k < |s| ==> IsDigit(s[k]) || s[k] == '_'
  }

  /**
   * A base-10 literal as `int` accepts it: ASCII digits, with single underscores
   * allowed between two digits.
   */
  predicate DigitLiteral(s: string) {
    |s| > 0 && IsDigit(s[0]) && IsDigit(s[|s| - 1]) && DigitsAndUnderscores(s)
    && forall k :: 0 < k < |s| - 1 && s[k] == '_' ==> IsDigit(s[k - 1]) && IsDigit(s[k + 1])
  }

  /** The value of the digits, underscores ignored. */
  function LiteralValue(s: string): nat
    requires DigitsAndUnderscores(s)
  {
    if |s| == 0 then 0
    else if s[|s| - 1] == '_' then LiteralValue(s[..|s| - 1])
    else 10 * LiteralValue(s[..|s| - 1]) + DigitValue(s[|s| - 1])
  }

  predicate IsSign(ch: char) {
    ch == '+' || ch == '-'
  }

  /** What `int` accepts once whitespace is gone: an optional sign, then a digit literal. */
  predicate IntegerLiteral(t: string) {
    DigitLiteral(t) || (|t| > 0 && IsSign(t[0]) && DigitLiteral(t[1..]))
  }

  /**
   * CPython's default `sys.int_info.default_max_str_digits`: `int` refuses a decimal
   * literal with more digits than this, and `str` refuses a number that would need them.
   */
  const MaxStrDigits: nat := 4300

  /** The number of digits in a text; signs and underscores do not count. */
  function DigitCount(s: string): nat {
    if |s| == 0 then 0
    else DigitCount(s[..|s| - 1]) + (if IsDigit(s[|s| - 1]) then 1 else 0)
  }

  lemma {:induction false} DigitCountConcat(a: string, b: string)
    ensures DigitCount(a + b) == DigitCount(a) + DigitCount(b)
  {
    if |b| > 0 {
      assert (a + b)[..|a + b| - 1] == a + b[..|b| - 1];
      DigitCountConcat(a, b[..|b| - 1]);
    } else {
      assert a + b == a;
    }
  }

  lemma {:induction false} DigitCountOfDigits(s: string)
    requires forall k :: 0 <= k < |s| ==> IsDigit(s[k])
    ensures DigitCount(s) == |s|
  {
    if |s| > 0 {
      DigitCountOfDigits(s[..|s| - 1]);
    }
  }

  /** `int` of a literal with at most `MaxStrDigits` digits; longer ones raise `ValueError`. */
  function ParseLiteral(t: string): (r: Option<int>)
    ensures r.Some? <==> IntegerLiteral(t) && DigitCount(t) <= MaxStrDigits
  {
    if DigitCount(t) > MaxStrDigits then None
    else if |t| > 0 && IsSign(t[0]) then
      var d := t[1..];
      if DigitLiteral(d) then
        var v: int := LiteralValue(d);
        Some(if t[0] == '-' then -v else v)
      else None
    else if DigitLiteral(t) then Some(LiteralValue(t))
    else None
  }

  /**
   * `int(text)`: surrounding whitespace is ignored, an optional `+` or `-` sign is
   * followed by a digit literal of at most `MaxStrDigits` digits; anything else is a
   * `ValueError` (None).
   */
  function ParseInt(text: string): (r: Option<int>)
    ensures r.Some? <==> IntegerLiteral(Strip(text)) && DigitCount(Strip(text)) <= MaxStrDigits
    ensures Strip(text) == "" ==> r == None
  {
    ParseLiteral(Strip(text))
  }

  /** The decimal digits of `n` without sign or leading zeros. */
  function NatToText(n: nat): (s: string)
    ensures |s| > 0 && forall k :: 0 <= k < |s| ==> IsDigit(s[k])
  {
    if n < 10 then [DigitChar(n)] else NatToText(n / 10) + [DigitChar(n % 10)]
  }

  /** `str(n)`. */
  function IntToText(n: int): string {
    if n < 0 then "-" + NatToText(-n) else NatToText(n)
  }

  lemma {:induction false} NatToTextValue(n: nat)
    ensures DigitLiteral(NatToText(n)) && LiteralValue(NatToText(n)) == n
  {
    var s := NatToText(n);
    if n >= 10 {
      NatToTextValue(n / 10);
      assert s[..|s| - 1] == NatToText(n / 10);
    }
  }

  /** `str(n)` succeeds: the number has at most `MaxStrDigits` decimal digits. */
  predicate Printable(n: int) {
    |NatToText(if n < 0 then -n else n)| <= MaxStrDigits
  }

  /** `int(str(n)) == n` for every number `str` can print. */
  lemma ParseIntToText(n: int)
    requires Printable(n)
    ensures ParseInt(IntToText(n)) == Some(n)
  {
    var s := IntToText(n);
    var digits := NatToText(if n < 0 then -n else n);
    NatToTextValue(if n < 0 then -n else n);
    DigitCountOfDigits(digits);
    assert IsDigit(digits[0]) && IsDigit(digits[|digits| - 1]);
    if n < 0 {
      assert s == "-" + digits && s[1..] == digits;
      assert s[|s| - 1] == digits[|digits| - 1];
      DigitCountConcat("-", digits);
    }
    assert !IsSpace(s[0]) && !IsSpace(s[|s| - 1]);
    StripTrimmed(s);
    assert ParseLiteral(s) == Some(n);
  }

  /** A literal of `MaxStrDigits + 1` ones is refused, although every character is a digit. */
  lemma TooManyDigitsRejected()
    ensures ParseInt(seq(MaxStrDigits + 1, _ => '1')) == None
  {
    var s: string := seq(MaxStrDigits + 1, _ => '1');
    DigitCountOfDigits(s);
    StripTrimmed(s);
  }
}
