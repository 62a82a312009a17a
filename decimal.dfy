/** Decimal digit strings and the two `%` conversions the snapshot file
    name uses: `%0<w>d` on an integer and `%0<w>.2f` on a number of seconds
    given in microseconds. */
module Decimal {

  predicate IsDigit(ch: char)
  {
    '0' <= ch <= '9'
  }

  /** Every character of `s` is a decimal digit, checked from the last. */
  predicate AllDigits(s: string)
    decreases |s|
  {
    s == [] || (IsDigit(s[|s| - 1]) && AllDigits(s[..|s| - 1]))
  }

  /** `AllDigits` read at one index. */
  lemma {:induction false} DigitAt(s: string, i: nat)
    requires AllDigits(s) && i < |s|
    ensures IsDigit(s[i])
    decreases |s|
  {
    if i < |s| - 1 {
      DigitAt(s[..|s| - 1], i);
    }
  }

  function DigitValue(ch: char): nat
    requires IsDigit(ch)
  {
    ch as int - '0' as int
  }

  function DigitChar(d: nat): (ch: char)
    requires d < 10
    ensures IsDigit(ch) && DigitValue(ch) == d
  {
    ('0' as int + d) as char
  }

  /** The number a digit string denotes, read most significant digit first. */
  function ValueOf(s: string): nat
    requires AllDigits(s)
    decreases |s|
  {
    if s == [] then 0 else ValueOf(s[..|s| - 1]) * 10 + DigitValue(s[|s| - 1])
  }

  /** The shortest decimal spelling of `n`: no leading zero unless `n` is 0. */
  function Digits(n: nat): (s: string)
    ensures |s| >= 1 && AllDigits(s) && ValueOf(s) == n
    ensures |s| == 1 || s[0] != '0'
    decreases n
  {
    if n < 10 then [DigitChar(n)]
    else
      var s := Digits(n / 10) + [DigitChar(n % 10)];
      assert s[..|s| - 1] == Digits(n / 10);
      s
  }

  /** `k` zeros. */
  function Zeros(k: nat): (z: string)
    ensures |z| == k && AllDigits(z) && ValueOf(z) == 0
  {
    if k == 0 then ""
    else
      var z := Zeros(k - 1) + "0";
      assert z[..k - 1] == Zeros(k - 1);
      z
  }

  /** Leading zeros leave the value of a digit string unchanged. */
  lemma {:induction false} LeadingZerosValue(k: nat, s: string)
    requires AllDigits(s)
    ensures AllDigits(Zeros(k) + s) && ValueOf(Zeros(k) + s) == ValueOf(s)
    decreases |s|, k
  {
    var t := Zeros(k) + s;
    if s == [] {
      assert t == Zeros(k);
    } else {
      assert t[..|t| - 1] == Zeros(k) + s[..|s| - 1];
      LeadingZerosValue(k, s[..|s| - 1]);
    }
  }

  /** Left-pads `s` with zeros to at least `width` characters; longer
      strings are kept whole. */
  function ZeroPad(s: string, width: nat): (r: string)
    requires AllDigits(s)
    ensures |r| == if |s| < width then width else |s|
    ensures r[|r| - |s|..] == s
    ensures AllDigits(r) && ValueOf(r) == ValueOf(s)
  {
    var z := Zeros(if |s| < width then width - |s| else 0);
    LeadingZerosValue(|z|, s);
    z + s
  }

  /** Python's `"%0<width>d" % n`: the sign, if any, counts toward the width
      and the zeros go between sign and digits. */
  function FormatInt(n: int, width: nat): string
  {
    if n >= 0 then ZeroPad(Digits(n), width)
    else "-" + ZeroPad(Digits(-n), if width > 0 then width - 1 else 0)
  }

  /** A non-negative number is spelled by its digits, zero-padded to `width`. */
  lemma FormatIntNonNegative(n: int, width: nat)
    requires n >= 0
    ensures var r := FormatInt(n, width);
            AllDigits(r) && ValueOf(r) == n && |r| == Max(width, |Digits(n)|)
  {
  }

  /** A negative number is a `-` followed by its magnitude padded to one
      place less: the sign counts toward the width. */
  lemma FormatIntNegative(n: int, width: nat)
    requires n < 0
    ensures FormatInt(n, width) == "-" + FormatInt(-n, if width > 0 then width - 1 else 0)
  {
  }

  function Max(a: nat, b: nat): nat
  {
    if a < b then b else a
  }

  /** Microseconds per hundredth of a second. */
  const MicrosPerHundredth: nat := 10000

  /** `m` microseconds rounded to the nearest hundredth of a second, ties
      going to the even hundredth. */
  function RoundToHundredths(m: nat): (h: nat)
    ensures h * MicrosPerHundredth <= m + MicrosPerHundredth / 2
    ensures m <= h * MicrosPerHundredth + MicrosPerHundredth / 2
    ensures m % MicrosPerHundredth == MicrosPerHundredth / 2 ==> h % 2 == 0
  {
    var q, rem := m / MicrosPerHundredth, m % MicrosPerHundredth;
    if rem * 2 > MicrosPerHundredth || (rem * 2 == MicrosPerHundredth && q % 2 == 1) then q + 1 else q
  }

  /** The integer digits, a point and the two decimal digits of `h`
      hundredths, before any padding. */
  function Fixed2(h: nat): (s: string)
    ensures |s| >= 4 && s[|s| - 3] == '.'
    ensures AllDigits(s[..|s| - 3]) && ValueOf(s[..|s| - 3]) == h / 100
    ensures |s[..|s| - 3]| == 1 || s[0] != '0'
    ensures s[|s| - 2] == DigitChar(h % 100 / 10) && s[|s| - 1] == DigitChar(h % 10)
  {
    var ip := Digits(h / 100);
    var s := ip + "." + [DigitChar(h % 100 / 10), DigitChar(h % 10)];
    assert s[..|s| - 3] == ip;
    s
  }

  /** Zero-pads the integer digits of a fixed two-decimal spelling so that
      the whole spelling is at least `width` characters. */
  function PadFixed2(s: string, width: nat): (r: string)
    requires |s| >= 4 && s[|s| - 3] == '.' && AllDigits(s[..|s| - 3])
    ensures |r| == Max(width, |s|) && r[|r| - 3] == '.' && IsDigit(r[0])
    ensures AllDigits(r[..|r| - 3]) && ValueOf(r[..|r| - 3]) == ValueOf(s[..|s| - 3])
    ensures r[|r| - 2] == s[|s| - 2] && r[|r| - 1] == s[|s| - 1]
  {
    var ip := ZeroPad(s[..|s| - 3], if width > 3 then width - 3 else 0);
    var r := ip + s[|s| - 3..];
    assert r[..|r| - 3] == ip;
    assert r[0] == ip[0];
    DigitAt(ip, 0);
    r
  }

  /** Python's `"%0<width>.2f" % seconds` for `seconds` given exactly as a
      whole number of microseconds: the magnitude is rounded to hundredths,
      the zeros go between the sign and the integer digits. */
  function FormatFixed2(micros: int, width: nat): string
  {
    var s := Fixed2(RoundToHundredths(Abs(micros)));
    if micros < 0 then "-" + PadFixed2(s, if width > 0 then width - 1 else 0)
    else PadFixed2(s, width)
  }

  /** `g` spells `h` hundredths without a sign: the whole part in digits,
      zero-padded so that the spelling is exactly `width` characters unless
      it is longer unpadded, then a point and the tens and units of the
      hundredths. */
  predicate SpellsMagnitude(g: string, h: nat, width: nat)
  {
    && |g| == Max(width, |Fixed2(h)|) && |g| >= 4 && IsDigit(g[0]) && g[|g| - 3] == '.'
    && AllDigits(g[..|g| - 3]) && ValueOf(g[..|g| - 3]) == h / 100
    && g[|g| - 2] == DigitChar(h % 100 / 10) && g[|g| - 1] == DigitChar(h % 10)
  }

  /** A non-negative time is spelled by its magnitude rounded to the
      nearest hundredth. */
  lemma FormatFixed2NonNegative(micros: int, width: nat)
    requires micros >= 0
    ensures SpellsMagnitude(FormatFixed2(micros, width), RoundToHundredths(micros), width)
  {
    var s := Fixed2(RoundToHundredths(micros));
    assert FormatFixed2(micros, width) == PadFixed2(s, width);
  }

  /** A negative time is a `-` followed by its magnitude spelled in one
      place less. */
  lemma FormatFixed2Negative(micros: int, width: nat)
    requires micros < 0
    ensures FormatFixed2(micros, width) == "-" + FormatFixed2(-micros, if width > 0 then width - 1 else 0)
  {
  }

  /** `f` spells the time `micros` to two decimals in `width` characters
      (more only when the unpadded spelling is longer): a `-` first exactly
      for a negative time, the sign counting toward the width, then the
      magnitude rounded to the nearest hundredth. */
  predicate SpellsHundredths(f: string, micros: int, width: nat)
  {
    var h := RoundToHundredths(Abs(micros));
    if micros < 0 then |f| > 0 && f[0] == '-' && SpellsMagnitude(f[1..], h, if width > 0 then width - 1 else 0)
    else SpellsMagnitude(f, h, width)
  }

  /** A `-` in front of the spelling of a negative time's magnitude, in
      one place less, spells that time. */
  lemma SignedSpelling(micros: int, width: nat, f: string, g: string)
    requires micros < 0 && f == "-" + g
    requires SpellsMagnitude(g, RoundToHundredths(-micros), if width > 0 then width - 1 else 0)
    ensures SpellsHundredths(f, micros, width)
  {
    assert f[1..] == g;
  }

  /** `FormatFixed2` spells the time it is given. */
  lemma FormatFixed2Spelling(micros: int, width: nat)
    ensures SpellsHundredths(FormatFixed2(micros, width), micros, width)
  {
    if micros < 0 {
      NegativeSpelling(micros, width);
    } else {
      FormatFixed2NonNegative(micros, width);
    }
  }

  /** The negative case of `FormatFixed2Spelling`. */
  lemma NegativeSpelling(micros: int, width: nat)
    requires micros < 0
    ensures SpellsHundredths(FormatFixed2(micros, width), micros, width)
  {
    var w := if width > 0 then width - 1 else 0;
    FormatFixed2Negative(micros, width);
    FormatFixed2NonNegative(-micros, w);
    SignedSpelling(micros, width, FormatFixed2(micros, width), FormatFixed2(-micros, w));
  }

  /** `"%08d" % 7` is `00000007`. */
  lemma FormatIntExample()
    ensures FormatInt(7, 8) == "00000007"
  {
    assert Digits(7) == "7";
    assert Zeros(7) == "0000000";
  }

  /** 790 hundredths are spelled `7.90`. */
  lemma Fixed2Example()
    ensures Fixed2(790) == "7.90"
  {
    assert Digits(7) == "7";
  }

  /** `7.90` padded to 10 characters is `0000007.90`. */
  lemma PadFixed2Example()
    ensures PadFixed2("7.90", 10) == "0000007.90"
  {
    assert Zeros(6) == "000000";
    assert ZeroPad("7", 7) == Zeros(6) + "7";
    var s := "7.90";
    assert s[..|s| - 3] == "7";
    assert s[|s| - 3..] == ".90";
    assert PadFixed2(s, 10) == ZeroPad("7", 7) + ".90";
  }

  /** `"%010.2f" % 7.9` is `0000007.90`. */
  lemma FormatFixed2Example()
    ensures FormatFixed2(7900000, 10) == "0000007.90"
  {
    assert RoundToHundredths(7900000) == 790;
    Fixed2Example();
    PadFixed2Example();
  }

  function Abs(x: int): nat
  {
    if x < 0 then -x else x
  }
}
