/** Decimal text for integers: `String(n)` / `str(n)`, the zero-padded
    `f"{n:04d}"`, and Python's `int(s)` for base 10. */
module Decimal {
  import opened Common
  import opened Strings

  predicate IsDigit(c: char) {
    '0' <= c <= '9'
  }

  predicate AllDigits(s: string) {
    forall i :: 0 <= i < |s| ==> IsDigit(s[i])
  }

  function DigitChar(d: int): (c: char)
    requires 0 <= d < 10
    ensures IsDigit(c) && c as int - '0' as int == d
  {
    ('0' as int + d) as char
  }

  /** The shortest decimal numeral of `n`. */
  function Digits(n: nat): (r: string)
    ensures |r| >= 1 && AllDigits(r)
    ensures r[0] != '0' || n == 0
    decreases n
  {
    if n < 10 then [DigitChar(n)] else Digits(n / 10) + [DigitChar(n % 10)]
  }

  /** The number a string of digits denotes (read from its last digit). */
  function Value(s: string): (v: nat)
    requires AllDigits(s)
    decreases |s|
  {
    if s == [] then 0 else Value(s[..|s| - 1]) * 10 + (s[|s| - 1] as int - '0' as int)
  }

  /** Reading the numeral of `n` gives back `n`. */
  lemma {:induction false} ValueDigits(n: nat)
    ensures Value(Digits(n)) == n
    decreases n
  {
    if n >= 10 {
      ValueDigits(n / 10);
      var s := Digits(n);
      assert s[..|s| - 1] == Digits(n / 10);
    }
  }

  /** Leading zeros do not change the value. */
  lemma {:induction false} ValueLeadingZero(s: string)
    requires AllDigits(s)
    ensures Value(['0'] + s) == Value(s)
    decreases |s|
  {
    if s != [] {
      var t := ['0'] + s;
      assert t[..|t| - 1] == ['0'] + s[..|s| - 1];
      ValueLeadingZero(s[..|s| - 1]);
    }
  }

  /** `String(n)` in JavaScript and `str(n)` in Python for an integer. */
  function IntToString(n: int): (r: string)
    ensures |r| >= 1
    ensures n >= 0 ==> r == Digits(n)
    ensures n < 0 ==> r == ['-'] + Digits(-n)
  {
    if n >= 0 then Digits(n) else ['-'] + Digits(-n)
  }

  /** Distinct integers have distinct decimal text. */
  lemma IntToStringInjective(m: int, n: int)
    requires IntToString(m) == IntToString(n)
    ensures m == n
  {
    if m >= 0 && n >= 0 {
      ValueDigits(m);
      ValueDigits(n);
    } else if m < 0 && n < 0 {
      assert Digits(-m) == IntToString(m)[1..] == IntToString(n)[1..] == Digits(-n);
      ValueDigits(-m);
      ValueDigits(-n);
    }
  }

  function Zeros(k: nat): (r: string)
    ensures |r| == k && forall i :: 0 <= i < k ==> r[i] == '0'
  {
    seq(k, _ => '0')
  }

  /** `s` left-padded with `'0'` to at least `w` characters. */
  function ZeroPad(s: string, w: nat): (r: string)
    ensures |r| == if |s| >= w then |s| else w
  {
    if |s| >= w then s else Zeros(w - |s|) + s
  }

  /** Python's `f"{n:04d}"` for a non-negative `n`: at least four digits,
      zero-filled on the left. */
  function Format04(n: nat): (r: string)
    ensures |r| >= 4 && AllDigits(r)
    ensures n >= 1000 ==> r == Digits(n)
  {
    DigitsLength(n);
    ZeroPad(Digits(n), 4)
  }

  /** Numerals of numbers of 1000 or more have at least four digits. */
  lemma {:induction false} DigitsLength(n: nat)
    ensures n >= 1000 ==> |Digits(n)| >= 4
    ensures n >= 100 ==> |Digits(n)| >= 3
    ensures n >= 10 ==> |Digits(n)| >= 2
    decreases n
  {
    if n >= 10 {
      DigitsLength(n / 10);
    }
  }

  /** Any run of leading zeros leaves the value unchanged. */
  lemma {:induction false} ValueZeros(k: nat, s: string)
    requires AllDigits(s)
    ensures AllDigits(Zeros(k) + s) && Value(Zeros(k) + s) == Value(s)
    decreases k
  {
    if k > 0 {
      ValueZeros(k - 1, s);
      var t := Zeros(k - 1) + s;
      assert Zeros(k) + s == ['0'] + t;
      assert AllDigits(['0'] + t);
      ValueLeadingZero(t);
    } else {
      assert Zeros(k) + s == s;
    }
  }

  /** The digits of `f"{n:04d}"` denote `n`. */
  lemma Format04Value(n: nat)
    ensures Value(Format04(n)) == n
  {
    ValueDigits(n);
    var d := Digits(n);
    if |d| < 4 {
      ValueZeros(4 - |d|, d);
    }
  }

  /** The digits of a decimal literal as Python's `int` reads them: ASCII
      digits, with single underscores allowed between two digits. */
  predicate Grouped(s: string) {
    && s != [] && IsDigit(s[0]) && IsDigit(s[|s| - 1])
    && (forall i :: 0 <= i < |s| ==> IsDigit(s[i]) || s[i] == '_')
    && (forall i :: 0 <= i < |s| - 1 ==> !(s[i] == '_' && s[i + 1] == '_'))
  }

  /** The digits of a grouped literal, underscores dropped. */
  function Ungroup(s: string): (r: string)
    requires forall i :: 0 <= i < |s| ==> IsDigit(s[i]) || s[i] == '_'
    ensures AllDigits(r) && |r| <= |s|
    decreases |s|
  {
    if s == [] then []
    else
      var rest := Ungroup(s[1..]);
      if s[0] == '_' then rest else [s[0]] + rest
  }

  /** Ungrouping a plain numeral leaves it as it is. */
  lemma {:induction false} UngroupDigits(s: string)
    requires AllDigits(s)
    ensures Ungroup(s) == s
    decreases |s|
  {
    if s != [] {
      UngroupDigits(s[1..]);
    }
  }

  /** Python `int(s)` for base 10: surrounding whitespace is ignored, an
      optional sign is allowed, and one or more digits must follow, grouped
      by single underscores; anything else is a `ValueError` (`None`). */
  function ParseInt(s: string): (r: Option<int>)
    ensures r.Some? ==> |Strip(s)| >= 1
    ensures r.Some? && r.value < 0 ==> Strip(s)[0] == '-'
  {
    var t := Strip(s);
    if t == [] then None
    else
      var sign := if t[0] == '-' then -1 else 1;
      var body := if t[0] == '-' || t[0] == '+' then t[1..] else t;
      if Grouped(body) then Some(sign * Value(Ungroup(body))) else None
  }

  /** A plain numeral reads as its value. */
  lemma ParsePlain(s: string)
    requires Strip(s) != [] && AllDigits(Strip(s))
    ensures ParseInt(s) == Some(Value(Strip(s)))
  {
    UngroupDigits(Strip(s));
  }

  /** A minus sign and a plain numeral read as the negated value. */
  lemma ParseNegative(s: string)
    requires var t := Strip(s); |t| >= 2 && t[0] == '-' && AllDigits(t[1..])
    ensures ParseInt(s).Some? && ParseInt(s).value + Value(Strip(s)[1..]) == 0
  {
    UngroupDigits(Strip(s)[1..]);
  }

  /** `1_000` is a grouped literal of the numeral `1000`. */
  lemma GroupedThousand()
    ensures Grouped("1_000") && Ungroup("1_000") == "1000" && Value("1000") == 1000
  {
    UngroupDigits("000");
    assert "1_000"[1..][1..] == "000";
    assert "1000"[..3] == "100" && "100"[..2] == "10" && "10"[..1] == "1";
  }

  /** `int(" 1_000 ") == 1000`: an underscore between digits is accepted. */
  lemma ParseGrouped(s: string)
    requires Strip(s) == "1_000"
    ensures ParseInt(s) == Some(1000)
  {
    GroupedThousand();
  }

  /** A doubled, a trailing or a leading underscore is a `ValueError`. */
  lemma ParseMisgrouped(s: string)
    requires Strip(s) == "1__0" || Strip(s) == "10_" || Strip(s) == "_10"
    ensures ParseInt(s).None?
  {
    assert "1__0"[1] == '_' && "1__0"[2] == '_';
  }

  /** Text with a non-blank first and last character is its own strip. */
  lemma StripUnpadded(s: string)
    requires s != [] && !IsSpace(s[0]) && !IsSpace(s[|s| - 1])
    ensures Strip(s) == s
  {
  }

  /** `int(f"{n:04d}") == n`: the zero-padded numeral parses back. */
  lemma ParseFormat04(n: nat)
    ensures ParseInt(Format04(n)) == Some(n)
  {
    var f := Format04(n);
    StripUnpadded(f);
    Format04Value(n);
    ParsePlain(f);
  }

  /** `int(str(n)) == n`. */
  lemma ParseIntToString(n: int)
    ensures ParseInt(IntToString(n)) == Some(n)
  {
    var s := IntToString(n);
    ValueDigits(if n >= 0 then n else -n);
    StripUnpadded(s);
    if n < 0 {
      assert s[1..] == Digits(-n);
      ParseNegative(s);
    } else {
      ParsePlain(s);
    }
  }
}
