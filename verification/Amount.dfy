/** TRX amounts (crates/primitives/src/amount.rs): a decimal parser with checked 64-bit
    steps, the printer, and checked arithmetic. Amounts are counted in sun. */
module Amount {
  import opened Wrappers
  import opened Integers
  import opened Decimals

  const MAX_SUN: int := I64_MAX
  const SUN_PER_TRX: int := 1_000_000

  datatype AmountError = ParseError(text: string) | Negative(sun: int)

  // ---- What the accepted strings mean, independent of how they are read ----

  predicate IsAscii(s: string) { forall i :: 0 <= i < |s| ==> s[i] < 128 as char }

  /** Digits, separators and at most one decimal point. */
  predicate WellFormed(s: string)
  {
    && (forall i :: 0 <= i < |s| ==> IsDigit(s[i]) || s[i] == '_' || s[i] == '.')
    && (forall i, j :: 0 <= i < j < |s| ==> !(s[i] == '.' && s[j] == '.'))
  }

  /** All the digits, on both sides of the point. */
  function Digits(s: string): (d: string)
    ensures AllDigits(d)
  {
    if s == [] then []
    else
      var last := s[|s| - 1];
      Digits(s[..|s| - 1]) + (if IsDigit(last) then [last] else [])
  }

  /** How many of those digits follow the point. */
  function FractionLength(s: string): (n: nat)
    ensures n <= |Digits(s)|
  {
    if s == [] then 0
    else
      FractionLength(s[..|s| - 1])
      + (if IsDigit(s[|s| - 1]) && '.' in s[..|s| - 1] then 1 else 0)
  }

  /** The value in sun, rounded down: digits / 10^fraction * 10^6. */
  function TruncatedSun(s: string): nat
  {
    ValueOf(Digits(s)) * SUN_PER_TRX / Pow10(FractionLength(s))
  }

  predicate Accepted(s: string) { WellFormed(s) && TruncatedSun(s) <= MAX_SUN }

  /** Dropping the fraction digits past the sixth is the same as rounding down. */
  lemma TruncationIsFloor(whole: string, fraction: string)
    requires AllDigits(whole) && AllDigits(fraction)
    ensures AllDigits(whole + fraction)
    ensures ValueOf(whole + fraction) * SUN_PER_TRX / Pow10(|fraction|)
         == if |fraction| <= 6 then ValueOf(whole + fraction) * Pow10(6 - |fraction|)
            else ValueOf(whole + fraction[..6])
  {
    var f := |fraction|;
    if f <= 6 {
      ShortFraction(ValueOf(whole + fraction), f);
    } else {
      var kept, cut := fraction[..6], fraction[6..];
      assert whole + fraction == (whole + kept) + cut;
      ValueOfConcat(whole + kept, cut);
      ValueOfBound(cut);
      LongFraction(ValueOf(whole + kept), ValueOf(cut), f);
    }
  }

  /** `TruncatedSun` with the division worked out. */
  lemma TruncatedSunOf(s: string, whole: string, fraction: string)
    requires AllDigits(whole) && AllDigits(fraction)
    requires Digits(s) == whole + fraction && FractionLength(s) == |fraction|
    ensures AllDigits(whole + fraction)
    ensures TruncatedSun(s)
         == if |fraction| <= 6 then ValueOf(whole + fraction) * Pow10(6 - |fraction|)
            else ValueOf(whole + fraction[..6])
  {
    TruncationIsFloor(whole, fraction);
  }

  lemma ShortFraction(v: nat, f: nat)
    requires f <= 6
    ensures v * SUN_PER_TRX / Pow10(f) == v * Pow10(6 - f)
  {
    assert Pow10(6) == SUN_PER_TRX;
    Pow10Add(f, 6 - f);
    Regroup(v, Pow10(f), Pow10(6 - f));
    ExactQuotient(v * Pow10(6 - f), Pow10(f), 0);
  }

  lemma LongFraction(v: nat, c: nat, f: nat)
    requires f > 6 && c < Pow10(f - 6)
    ensures (v * Pow10(f - 6) + c) * SUN_PER_TRX / Pow10(f) == v
  {
    assert Pow10(6) == SUN_PER_TRX;
    Pow10Add(6, f - 6);
    var p := Pow10(f - 6);
    assert Pow10(f) == p * SUN_PER_TRX;
    Regroup(v, SUN_PER_TRX, p);
    assert (v * p + c) * SUN_PER_TRX == v * Pow10(f) + c * SUN_PER_TRX;
    ExactQuotient(v, Pow10(f), c * SUN_PER_TRX);
  }

  lemma Regroup(v: nat, p: nat, q: nat)
    ensures v * (p * q) == (v * q) * p
  {
  }

  lemma ExactQuotient(q: nat, d: nat, r: nat)
    requires r < d
    ensures (q * d + r) / d == q
  {
    var n := q * d + r;
    var m := n / d;
    assert n == d * m + n % d;
    if m > q {
      MulMonotone(q + 1, m, d);
      assert false;
    } else if m < q {
      MulMonotone(m + 1, q, d);
      assert false;
    }
  }

  // ---- The parser ----

  /** What the first pass has gathered from the text so far. */
  ghost predicate Scanned(read: string, whole: string, fraction: string, inFraction: bool)
  {
    && WellFormed(read) && AllDigits(whole) && AllDigits(fraction)
    && whole + fraction == Digits(read) && |fraction| == FractionLength(read)
    && (inFraction <==> '.' in read)
    && (!inFraction ==> fraction == [])
  }

  lemma ScanMark(read: string, whole: string, fraction: string, inFraction: bool, c: char)
    requires Scanned(read, whole, fraction, inFraction) && (c == '_' || (c == '.' && !inFraction))
    ensures Scanned(read + [c], whole, fraction, inFraction || c == '.')
  {
    WellFormedSnoc(read, c);
    DigitsSnoc(read, c);
  }

  lemma ScanDigit(read: string, whole: string, fraction: string, inFraction: bool, c: char)
    requires Scanned(read, whole, fraction, inFraction) && IsDigit(c)
    ensures inFraction ==> Scanned(read + [c], whole, fraction + [c], true)
    ensures !inFraction ==> Scanned(read + [c], whole + [c], fraction, false)
  {
    WellFormedSnoc(read, c);
    DigitsSnoc(read, c);
    assert whole + (fraction + [c]) == (whole + fraction) + [c];
    assert !inFraction ==> (whole + [c]) + fraction == (whole + fraction) + [c];
  }

  lemma ScanRefuses(s: string, i: nat, whole: string, fraction: string, inFraction: bool)
    requires i < |s| && Scanned(s[..i], whole, fraction, inFraction)
    requires s[i] != '_' && !(s[i] == '.' && !inFraction) && !IsDigit(s[i])
    ensures !WellFormed(s)
  {
    assert s[..i + 1] == s[..i] + [s[i]];
    WellFormedSnoc(s[..i], s[i]);
    WellFormedPrefix(s, i + 1);
  }

  /** The first pass: every character is checked, even those whose value is dropped later. */
  method SplitDigits(s: string) returns (ok: bool, whole: string, fraction: string)
    ensures ok <==> WellFormed(s)
    ensures AllDigits(whole) && AllDigits(fraction)
    ensures ok ==> whole + fraction == Digits(s) && |fraction| == FractionLength(s)
  {
    whole, fraction := [], [];
    var inFraction := false;
    for i := 0 to |s|
      invariant Scanned(s[..i], whole, fraction, inFraction)
    {
      var c := s[i];
      assert s[..i + 1] == s[..i] + [c];
      if c == '_' {
        ScanMark(s[..i], whole, fraction, inFraction, c);
      } else if c == '.' && !inFraction {
        ScanMark(s[..i], whole, fraction, inFraction, c);
        inFraction := true;
      } else if IsDigit(c) && inFraction {
        ScanDigit(s[..i], whole, fraction, inFraction, c);
        fraction := fraction + [c];
      } else if IsDigit(c) {
        ScanDigit(s[..i], whole, fraction, inFraction, c);
        whole := whole + [c];
      } else {
        ScanRefuses(s, i, whole, fraction, inFraction);
        return false, whole, fraction;
      }
    }
    assert s[..|s|] == s;
    ok := true;
  }

  lemma DigitsSnoc(s: string, c: char)
    ensures Digits(s + [c]) == Digits(s) + (if IsDigit(c) then [c] else [])
    ensures FractionLength(s + [c]) == FractionLength(s) + (if IsDigit(c) && '.' in s then 1 else 0)
  {
    assert (s + [c])[..|s|] == s;
  }

  lemma WellFormedPrefix(s: string, k: nat)
    requires k <= |s|
    ensures WellFormed(s) ==> WellFormed(s[..k])
  {
  }

  /** The second pass: fold the digits into an unsigned 64-bit value, or `None` on overflow. */
  method Accumulate(digits: string) returns (r: Option<U64>)
    requires AllDigits(digits)
    ensures r == if ValueOf(digits) <= U64_MAX then Some(ValueOf(digits)) else None
  {
    var value: U64 := 0;
    for k := 0 to |digits|
      invariant value == ValueOf(digits[..k])
    {
      assert digits[..k + 1][..k] == digits[..k];
      var next := value * 10 + DigitValue(digits[k]);
      if next > U64_MAX {
        PrefixValue(digits, k + 1);
        return None;
      }
      value := next;
    }
    assert digits[..|digits|] == digits;
    return Some(value);
  }

  /** `Trx::from_str`: two passes, every 64-bit step checked. The checks never turn away
      an amount that can be represented: the only refusals are malformed text and values
      above the maximum. */
  method FromStr(s: string) returns (r: Result<I64, AmountError>)
    ensures r == if Accepted(s) then Ok(TruncatedSun(s)) else Err(ParseError(s))
  {
    if (|s| > 0 && s[0] == '-') || !IsAscii(s) {
      return Err(ParseError(s));
    }
    var ok, whole, fraction := SplitDigits(s);
    if !ok {
      return Err(ParseError(s));
    }
    TruncatedSunOf(s, whole, fraction);
    var decimalLen := |fraction|;
    if |fraction| > 6 {
      fraction := fraction[..6];
    }
    var scale := if decimalLen < 6 then 6 - decimalLen else 0;
    assert TruncatedSun(s) == ValueOf(whole + fraction) * Pow10(scale);
    ScaleUp(ValueOf(whole + fraction), Pow10(scale));
    var value := Accumulate(whole + fraction);
    if value.None? {
      return Err(ParseError(s));
    }
    var scaled := value.value * Pow10(scale);
    if scaled > U64_MAX || scaled > MAX_SUN {
      return Err(ParseError(s));
    }
    return Ok(scaled);
  }

  lemma ScaleUp(v: nat, p: nat)
    requires p >= 1
    ensures v * p >= v
  {
    assert v * p == v + v * (p - 1);
  }

  /** The parse result as a function of the text; what `FromStr` returns. */
  function Parse(s: string): Option<int>
  {
    if Accepted(s) then Some(TruncatedSun(s)) else None
  }

  /** Which texts are amounts: ASCII digits, underscores and at most one point, standing for no
      more than the largest 64-bit number of sun. */
  lemma AcceptedExactlyWhen(s: string)
    ensures Parse(s).Some? <==>
      && (forall c :: c in s ==> '0' <= c <= '9' || c == '_' || c == '.')
      && multiset(s)['.'] <= 1
      && TruncatedSun(s) <= 0x7FFF_FFFF_FFFF_FFFF
    ensures Parse(s).Some? ==> Parse(s).value == TruncatedSun(s)
  {
    WellFormedMeaning(s);
  }

  lemma WellFormedMeaning(s: string)
    ensures WellFormed(s) <==>
      (forall c :: c in s ==> '0' <= c <= '9' || c == '_' || c == '.') && multiset(s)['.'] <= 1
  {
    OnePoint(s);
    assert forall i :: 0 <= i < |s| ==> s[i] in s;
  }

  lemma {:induction false} OnePoint(s: string)
    ensures multiset(s)['.'] >= 1 <==> '.' in s
    ensures multiset(s)['.'] <= 1 <==> forall i, j :: 0 <= i < j < |s| ==> !(s[i] == '.' && s[j] == '.')
  {
    if s != [] {
      var init, c := s[..|s| - 1], s[|s| - 1];
      assert s == init + [c];
      OnePoint(init);
      if c == '.' && '.' in init {
        var i :| 0 <= i < |init| && init[i] == '.';
        assert s[i] == '.' && s[|s| - 1] == '.';
      }
      assert forall i :: 0 <= i < |init| ==> s[i] == init[i];
    }
  }

  function WithoutSeparators(s: string): string
  {
    if s == [] then []
    else WithoutSeparators(s[..|s| - 1]) + (if s[|s| - 1] == '_' then [] else [s[|s| - 1]])
  }

  lemma {:induction false} StrippedFacts(s: string)
    ensures forall c :: c in WithoutSeparators(s) <==> c in s && c != '_'
    ensures Digits(WithoutSeparators(s)) == Digits(s)
    ensures FractionLength(WithoutSeparators(s)) == FractionLength(s)
    ensures WellFormed(WithoutSeparators(s)) == WellFormed(s)
  {
    if s != [] {
      var init, c := s[..|s| - 1], s[|s| - 1];
      StrippedFacts(init);
      assert s == init + [c];
      WellFormedSnoc(init, c);
      var t := WithoutSeparators(init);
      if c != '_' {
        assert (t + [c])[..|t|] == t;
        WellFormedSnoc(t, c);
      } else {
        assert WithoutSeparators(s) == t;
      }
    }
  }

  lemma WellFormedSnoc(s: string, c: char)
    ensures WellFormed(s + [c]) <==>
      WellFormed(s) && (IsDigit(c) || c == '_' || c == '.') && !(c == '.' && '.' in s)
  {
    var t := s + [c];
    assert t[..|s|] == s;
    assert t[|s|] == c;
    if WellFormed(t) {
      assert forall i :: 0 <= i < |s| ==> s[i] == t[i];
    }
  }

  /** Separators never matter. */
  lemma SeparatorsAreIgnored(s: string)
    ensures Parse(WithoutSeparators(s)) == Parse(s)
  {
    StrippedFacts(s);
  }

  lemma DigitPastTheSixthIsIgnored(s: string, c: char)
    requires WellFormed(s) && FractionLength(s) >= 6 && IsDigit(c)
    ensures Parse(s + [c]) == Parse(s)
  {
    LongFractionSnoc(s, c);
    var d, cut := Digits(s), |Digits(s)| - FractionLength(s);
    assert d == d[..cut] + d[cut..];
    assert TruncatedSun(s + [c]) == TruncatedSun(s) by {
      SameSixKept(s, s + [c], d[..cut], d[cut..], c);
    }
  }

  lemma SameSixKept(s: string, t: string, whole: string, fraction: string, c: char)
    requires AllDigits(whole) && AllDigits(fraction) && |fraction| >= 6 && IsDigit(c)
    requires Digits(s) == whole + fraction && FractionLength(s) == |fraction|
    requires Digits(t) == Digits(s) + [c] && FractionLength(t) == FractionLength(s) + 1
    ensures TruncatedSun(t) == TruncatedSun(s)
  {
    assert Digits(t) == whole + (fraction + [c]);
    assert (fraction + [c])[..6] == fraction[..6];
    SixKept(s, whole, fraction);
    SixKept(t, whole, fraction + [c]);
  }

  /** Of a long fraction the first six digits count. */
  lemma SixKept(s: string, whole: string, fraction: string)
    requires AllDigits(whole) && AllDigits(fraction) && |fraction| >= 6
    requires Digits(s) == whole + fraction && FractionLength(s) == |fraction|
    ensures AllDigits(whole + fraction[..6]) && TruncatedSun(s) == ValueOf(whole + fraction[..6])
  {
    TruncatedSunOf(s, whole, fraction);
    if |fraction| == 6 {
      assert fraction[..6] == fraction && Pow10(0) == 1;
    }
  }

  /** A digit after a fraction lengthens the fraction. */
  lemma LongFractionSnoc(s: string, c: char)
    requires WellFormed(s) && FractionLength(s) >= 6 && IsDigit(c)
    ensures WellFormed(s + [c]) && Digits(s + [c]) == Digits(s) + [c]
    ensures FractionLength(s + [c]) == FractionLength(s) + 1
  {
    assert (s + [c])[..|s|] == s;
    WellFormedSnoc(s, c);
    if '.' !in s {
      NoPointNoFraction(s);
    }
  }

  /** Digits past the sixth decimal never matter, however many. */
  lemma {:induction false} DigitsPastTheSixthAreIgnored(s: string, digits: string)
    requires WellFormed(s) && FractionLength(s) >= 6 && AllDigits(digits)
    ensures Parse(s + digits) == Parse(s)
    decreases |digits|
  {
    if digits == [] {
      assert s + digits == s;
    } else {
      var first, rest := s + [digits[0]], digits[1..];
      assert first + rest == s + digits;
      DigitPastTheSixthIsIgnored(s, digits[0]);
      LongFractionSnoc(s, digits[0]);
      DigitsPastTheSixthAreIgnored(first, rest);
    }
  }

  lemma {:induction false} NoPointNoFraction(s: string)
    requires '.' !in s
    ensures FractionLength(s) == 0
  {
    if s != [] {
      NoPointNoFraction(s[..|s| - 1]);
    }
  }

  // ---- The printer ----

  function Abs(n: int): nat { if n < 0 then -n else n }

  /** `{frac:06}`: at least six digits, zero padded. */
  function Padded6(n: nat): string
  {
    var d := Decimal(n);
    Zeros(if |d| < 6 then 6 - |d| else 0) + d
  }

  function Display(n: I64): string
  {
    (if n < 0 then "-" else "") + Decimal(Abs(n) / SUN_PER_TRX) + "." + Padded6(Abs(n) % SUN_PER_TRX)
  }

  lemma Padded6Facts(n: nat)
    requires n < SUN_PER_TRX
    ensures AllDigits(Padded6(n)) && |Padded6(n)| == 6 && ValueOf(Padded6(n)) == n
  {
    DecimalReadsBack(n);
    assert Pow10(6) == SUN_PER_TRX;
    DecimalLength(n, 6);
    LeadingZeros(6 - |Decimal(n)|, Decimal(n));
  }

  lemma {:induction false} ScanDigits(s: string)
    requires AllDigits(s)
    ensures WellFormed(s) && '.' !in s && Digits(s) == s && FractionLength(s) == 0
  {
    if s != [] {
      ScanDigits(s[..|s| - 1]);
      assert s == s[..|s| - 1] + [s[|s| - 1]];
      assert forall c :: c in s ==> IsDigit(c);
    }
  }

  lemma {:induction false} ScanFraction(w: string, f: string)
    requires AllDigits(w) && AllDigits(f)
    ensures WellFormed(w + "." + f)
    ensures Digits(w + "." + f) == w + f && FractionLength(w + "." + f) == |f|
  {
    if f == [] {
      ScanDigits(w);
      var t := w + ".";
      assert t + f == t && t[..|t| - 1] == w && w + f == w;
      WellFormedSnoc(w, '.');
    } else {
      var f' := f[..|f| - 1];
      ScanFraction(w, f');
      var t := w + "." + f;
      var t' := w + "." + f';
      assert t == t' + [f[|f| - 1]] && t[..|t| - 1] == t';
      assert t'[|w|] == '.';
      WellFormedSnoc(t', f[|f| - 1]);
      assert w + f' + [f[|f| - 1]] == w + f;
    }
  }

  lemma JoinedValue(n: nat)
    ensures var q, m := Decimal(n / SUN_PER_TRX), Padded6(n % SUN_PER_TRX);
      AllDigits(q + m) && ValueOf(q + m) == n
  {
    var q, m := n / SUN_PER_TRX, n % SUN_PER_TRX;
    DecimalReadsBack(q);
    Padded6Facts(m);
    ValueOfConcat(Decimal(q), Padded6(m));
    assert Pow10(6) == SUN_PER_TRX;
  }

  lemma DisplayParts(n: I64)
    requires n >= 0
    ensures Display(n) == Decimal(n / SUN_PER_TRX) + "." + Padded6(n % SUN_PER_TRX)
    ensures AllDigits(Decimal(n / SUN_PER_TRX)) && AllDigits(Padded6(n % SUN_PER_TRX))
    ensures |Padded6(n % SUN_PER_TRX)| == 6
  {
    DecimalReadsBack(n / SUN_PER_TRX);
    Padded6Facts(n % SUN_PER_TRX);
  }

  /** Two parts with six decimals stand for their joined digits. */
  lemma SixDecimals(whole: string, fraction: string)
    requires AllDigits(whole) && AllDigits(fraction) && |fraction| == 6
    ensures AllDigits(whole + fraction) && WellFormed(whole + "." + fraction)
    ensures TruncatedSun(whole + "." + fraction) == ValueOf(whole + fraction)
  {
    ScanFraction(whole, fraction);
    TruncatedSunOf(whole + "." + fraction, whole, fraction);
    assert Pow10(0) == 1;
  }

  /** Printing and parsing are inverse on every amount a user can hold. */
  lemma ParseUndoesDisplay(n: I64)
    requires n >= 0
    ensures Parse(Display(n)) == Some(n)
  {
    DisplayParts(n);
    SixDecimals(Decimal(n / SUN_PER_TRX), Padded6(n % SUN_PER_TRX));
    JoinedValue(n);
  }

  /** The printed form is canonical: a minus sign for negative amounts, the whole TRX without
      leading zeros, a point and six digits. */
  lemma {:induction false} DisplayIsCanonical(n: I64)
    ensures var s := Display(n);
      var start := if n < 0 then 1 else 0;
      && |s| >= start + 8
      && (n < 0 ==> s[0] == '-')
      && s[|s| - 7] == '.'
      && (forall i :: start <= i < |s| && i != |s| - 7 ==> IsDigit(s[i]))
      && (s[start] == '0' ==> |s| == start + 8)
  {
    var q, m := Abs(n) / SUN_PER_TRX, Abs(n) % SUN_PER_TRX;
    DecimalReadsBack(q);
    NoLeadingZero(q);
    Padded6Facts(m);
    var sign := if n < 0 then "-" else "";
    assert Display(n) == sign + Decimal(q) + "." + Padded6(m);
  }

  lemma {:induction false} NoLeadingZero(n: nat)
    ensures Decimal(n) != [] && (Decimal(n)[0] == '0' ==> |Decimal(n)| == 1)
    ensures n > 0 ==> Decimal(n)[0] != '0'
  {
    if n >= 10 {
      NoLeadingZero(n / 10);
    }
  }

  /** A negative amount can be shown but never read back as an amount. */
  lemma NegativeNeverParses(n: I64)
    requires n < 0
    ensures Parse(Display(n)) == None
  {
    assert Display(n)[0] == '-';
  }

  /** No two amounts, of either sign, print alike. */
  lemma DisplayInjective(m: I64, n: I64)
    requires Display(m) == Display(n)
    ensures m == n
  {
    DecimalReadsBack(Abs(m) / SUN_PER_TRX);
    DecimalReadsBack(Abs(n) / SUN_PER_TRX);
    assert (m < 0) == (Display(m)[0] == '-');
    assert (n < 0) == (Display(n)[0] == '-');
    if m >= 0 {
      ParseUndoesDisplay(m);
      ParseUndoesDisplay(n);
    } else {
      PositivePart(m);
      PositivePart(n);
    }
  }

  lemma PositivePart(n: I64)
    requires n < 0
    ensures Digits(Display(n)[1..]) != [] && ValueOf(Digits(Display(n)[1..])) == Abs(n)
  {
    var q, m := Abs(n) / SUN_PER_TRX, Abs(n) % SUN_PER_TRX;
    DecimalReadsBack(q);
    Padded6Facts(m);
    assert Display(n)[1..] == Decimal(q) + "." + Padded6(m);
    ScanFraction(Decimal(q), Padded6(m));
    JoinedValue(Abs(n));
  }

  // ---- Checked arithmetic ----

  function FromSun(sun: I64): Result<I64, AmountError>
  {
    if sun < 0 then Err(Negative(sun)) else Ok(sun)
  }

  function CheckedAdd(a: I64, b: I64): Option<I64>
  {
    if a < 0 || b < 0 then None
    else if a + b > I64_MAX then None else Some(a + b)
  }

  function CheckedSub(a: I64, b: I64): Option<I64>
  {
    if a < 0 || b < 0 then None
    else if a - b < 0 then None else Some(a - b)
  }

  /** Each is exact: the sum or difference of two amounts when that is an amount itself, and
      nothing otherwise. */
  lemma CheckedArithmeticIsExact(a: I64, b: I64, c: I64)
    ensures CheckedAdd(a, b) == Some(c) <==> a >= 0 && b >= 0 && c == a + b
    ensures CheckedSub(a, b) == Some(c) <==> a >= 0 && b >= 0 && c >= 0 && c == a - b
    ensures FromSun(a) == Ok(c) <==> a >= 0 && c == a
    ensures FromSun(a).Err? ==> FromSun(a).error == Negative(a)
  {
  }

  /** Addition and subtraction undo each other, and neither leaves the amounts `FromSun` allows. */
  lemma CheckedArithmeticInverse(a: I64, b: I64, c: I64)
    ensures CheckedAdd(a, b) == Some(c) <==> b >= 0 && CheckedSub(c, b) == Some(a)
    ensures CheckedAdd(a, b) == Some(c) ==> FromSun(c).Ok?
  {
  }
}
