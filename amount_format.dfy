/** The calculator's amount fields: the text a user types is reduced to its
    decimal digits and parsed, and the stored amount is shown again with its
    digits grouped in threes by apostrophes ("1'234'567"). */
module AmountFormat {
  import Seqs

  predicate IsDigit(c: char) { '0' <= c <= '9' }

  predicate AllDigits(s: string) { forall i :: 0 <= i < |s| ==> IsDigit(s[i]) }

  function DigitValue(c: char): (d: nat)
    requires IsDigit(c)
    ensures d < 10
  {
    (c as int) - ('0' as int)
  }

  function DigitChar(d: nat): (c: char)
    requires d < 10
    ensures IsDigit(c) && DigitValue(c) == d
  {
    ('0' as int + d) as char
  }

  function Pow10(k: nat): nat
  {
    if k == 0 then 1 else 10 * Pow10(k - 1)
  }

  // ----- Reading an amount field -----

  /** The digits `0`-`9` of `raw`, in order; every other character is dropped. */
  function StripNonDigits(raw: string): (ds: string)
    ensures AllDigits(ds)
  {
    Seqs.Filter(raw, IsDigit)
  }

  /** The decimal value of a string of digits; leading zeros are allowed. */
  function ParseDigits(ds: string): (n: nat)
    requires AllDigits(ds)
    ensures n < Pow10(|ds|)
  {
    if ds == [] then 0 else ParseDigits(ds[..|ds| - 1]) * 10 + DigitValue(ds[|ds| - 1])
  }

  /** The amount stored for the text of an amount field: 0 when it holds no
      digit, otherwise the decimal value of its digits. */
  function Sanitize(raw: string): (n: nat)
    ensures n < Pow10(|StripNonDigits(raw)|)
    ensures n == 0 <==> forall i :: 0 <= i < |StripNonDigits(raw)| ==> StripNonDigits(raw)[i] == '0'
  {
    var ds := StripNonDigits(raw);
    ParseZeroIff(ds);
    if ds == "" then 0 else ParseDigits(ds)
  }

  /** A string of digits reads as 0 exactly when all its digits are `0`. */
  lemma {:induction false} ParseZeroIff(ds: string)
    requires AllDigits(ds)
    ensures ParseDigits(ds) == 0 <==> forall i :: 0 <= i < |ds| ==> ds[i] == '0'
    decreases |ds|
  {
    if ds != [] {
      var init := ds[..|ds| - 1];
      assert AllDigits(init) by {
        forall i | 0 <= i < |init| ensures IsDigit(init[i]) { assert init[i] == ds[i]; }
      }
      ParseZeroIff(init);
      assert forall i :: 0 <= i < |init| ==> init[i] == ds[i];
      if forall i :: 0 <= i < |ds| ==> ds[i] == '0' {
        assert DigitValue(ds[|ds| - 1]) == 0;
      }
    }
  }

  // ----- Showing an amount -----

  /** The shortest decimal notation of `n`. */
  function Decimal(n: nat): (s: string)
    ensures s != [] && AllDigits(s)
    ensures s[0] == '0' ==> n == 0
  {
    if n < 10 then [DigitChar(n)] else Decimal(n / 10) + [DigitChar(n % 10)]
  }

  /** A group of exactly three digits, zero-padded. */
  function ThreeDigits(n: nat): (s: string)
    requires n < 1000
    ensures |s| == 3 && AllDigits(s)
  {
    [DigitChar(n / 100), DigitChar(n / 10 % 10), DigitChar(n % 10)]
  }

  /** `n` in en-US grouping with the `,` separators replaced by `'`. */
  function FormatWithApostrophe(n: nat): (s: string)
    ensures s != []
    ensures forall i :: 0 <= i < |s| ==> IsDigit(s[i]) || s[i] == '\''
  {
    if n < 1000 then Decimal(n)
    else FormatWithApostrophe(n / 1000) + "'" + ThreeDigits(n % 1000)
  }

  /** An amount below 1000 has at most three digits. */
  lemma DecimalShort(n: nat)
    requires n < 1000
    ensures |Decimal(n)| <= 3
  {
    if n >= 10 {
      assert |Decimal(n)| == |Decimal(n / 10)| + 1;
      if n / 10 >= 10 {
        assert n / 10 / 10 < 10;
        assert |Decimal(n / 10)| == |Decimal(n / 10 / 10)| + 1;
      }
    }
  }

  /** The decimal notation of an amount of four digits or more is the notation of
      its thousands followed by its last three digits. */
  lemma DecimalSplit(n: nat)
    requires n >= 1000
    ensures Decimal(n) == Decimal(n / 1000) + ThreeDigits(n % 1000)
  {
    ThousandsDigits(n);
    assert Decimal(n) == Decimal(n / 10) + [DigitChar(n % 10)];
    assert Decimal(n / 10) == Decimal(n / 10 / 10) + [DigitChar(n / 10 % 10)];
    assert Decimal(n / 10 / 10) == Decimal(n / 10 / 10 / 10) + [DigitChar(n / 10 / 10 % 10)];
  }

  /** Peeling three decimal digits off `n` leaves `n / 1000`, and the peeled
      digits are those of `n % 1000`. */
  lemma ThousandsDigits(n: nat)
    ensures n / 10 / 10 / 10 == n / 1000
    ensures n / 10 / 10 % 10 == n % 1000 / 100
    ensures n / 10 % 10 == n % 1000 / 10 % 10
    ensures n % 10 == n % 1000 % 10
  {
    var q, r := n / 1000, n % 1000;
    assert n == 1000 * q + r;
    assert n / 10 == 100 * q + r / 10;
    assert n / 10 / 10 == 10 * q + r / 100;
  }

  /** The display holds exactly the decimal digits of the amount. */
  lemma {:induction false} FormatDigitsAreDecimal(n: nat)
    ensures StripNonDigits(FormatWithApostrophe(n)) == Decimal(n)
  {
    if n < 1000 {
      Seqs.FilterKeepsAll(Decimal(n), IsDigit);
    } else {
      var high := FormatWithApostrophe(n / 1000);
      var low := ThreeDigits(n % 1000);
      FormatDigitsAreDecimal(n / 1000);
      Seqs.FilterAppend(high + "'", low, IsDigit);
      Seqs.FilterAppend(high, "'", IsDigit);
      Seqs.FilterSingleton('\'', IsDigit);
      Seqs.FilterKeepsAll(low, IsDigit);
      assert StripNonDigits(FormatWithApostrophe(n)) == StripNonDigits(high) + low;
      DecimalSplit(n);
    }
  }

  /** en-US grouping: the display starts with a digit, and a character is an
      apostrophe exactly when it stands four, eight, ... places from the end, so
      every apostrophe is followed by three digits and the first group has one
      to three digits. */
  lemma {:induction false} GroupedInThrees(n: nat)
    ensures var s := FormatWithApostrophe(n);
      && IsDigit(s[0])
      && forall i :: 0 <= i < |s| ==> (s[i] == '\'' <==> (|s| - i) % 4 == 0)
  {
    if n < 1000 {
      DecimalShort(n);
    } else {
      GroupedInThrees(n / 1000);
      AppendGroup(FormatWithApostrophe(n / 1000), ThreeDigits(n % 1000));
    }
  }

  /** Appending an apostrophe and a group of three digits keeps the grouping. */
  lemma AppendGroup(high: string, low: string)
    requires high != [] && IsDigit(high[0])
    requires forall i :: 0 <= i < |high| ==> (high[i] == '\'' <==> (|high| - i) % 4 == 0)
    requires |low| == 3 && AllDigits(low)
    ensures var s := high + "'" + low;
      && IsDigit(s[0])
      && forall i :: 0 <= i < |s| ==> (s[i] == '\'' <==> (|s| - i) % 4 == 0)
  {
    var s := high + "'" + low;
    forall i | 0 <= i < |s| ensures s[i] == '\'' <==> (|s| - i) % 4 == 0 {
      if i < |high| {
        assert s[i] == high[i];
        assert (|s| - i) % 4 == (|high| - i) % 4;
      } else if i > |high| {
        assert s[i] == low[i - |high| - 1];
      }
    }
  }

  /** What an amount field's change handler stores: the amount and the text
      the field shows from then on. */
  datatype AmountField = AmountField(value: nat, display: string)

  function HandleAmountChange(raw: string): (f: AmountField)
    ensures f.value == Sanitize(raw)
    ensures Sanitize(f.display) == f.value
    ensures f.display == FormatWithApostrophe(f.value)
  {
    var v := Sanitize(raw);
    SanitizeFormatted(v);
    AmountField(v, FormatWithApostrophe(v))
  }

  // ----- Properties of reading -----

  /** The sanitiser keeps exactly the digits of its input, in order. */
  lemma StripKeepsExactlyDigits(raw: string, c: char)
    ensures Seqs.IsSubsequence(StripNonDigits(raw), raw)
    ensures multiset(StripNonDigits(raw))[c] == if IsDigit(c) then multiset(raw)[c] else 0
  {
    Seqs.FilterIsSubsequence(raw, IsDigit);
    Seqs.FilterCounts(raw, IsDigit, c);
  }

  /** A character that is not a digit makes no difference to the amount. */
  lemma SanitizeIgnoresNonDigit(before: string, c: char, after: string)
    requires !IsDigit(c)
    ensures Sanitize(before + [c] + after) == Sanitize(before + after)
  {
    Seqs.FilterAppend(before + [c], after, IsDigit);
    Seqs.FilterAppend(before, [c], IsDigit);
    Seqs.FilterAppend(before, after, IsDigit);
    Seqs.FilterSingleton(c, IsDigit);
    assert StripNonDigits(before + [c]) == StripNonDigits(before) + [];
    assert StripNonDigits(before + [c] + after) == StripNonDigits(before + after);
  }

  /** Text made only of digits is read as its decimal value (the empty text as 0). */
  lemma SanitizeDigits(ds: string)
    requires AllDigits(ds)
    ensures Sanitize(ds) == ParseDigits(ds)
  {
    Seqs.FilterKeepsAll(ds, IsDigit);
  }

  /** Text with no digit at all is read as 0. */
  lemma SanitizeNoDigits(raw: string)
    requires forall i :: 0 <= i < |raw| ==> !IsDigit(raw[i])
    ensures Sanitize(raw) == 0
  {
    Seqs.FilterDropsAll(raw, IsDigit);
  }

  lemma AllDigitsAppend(a: string, b: string)
    requires AllDigits(a) && AllDigits(b)
    ensures AllDigits(a + b)
  {
    forall i | 0 <= i < |a + b| ensures IsDigit((a + b)[i]) {
      if i < |a| { assert (a + b)[i] == a[i]; } else { assert (a + b)[i] == b[i - |a|]; }
    }
  }

  lemma Regroup(x: int, y: int, z: int, d: int)
    ensures (x * y + z) * 10 + d == x * (y * 10) + (z * 10 + d)
  {
  }

  lemma {:induction false} ParseAppend(a: string, b: string)
    requires AllDigits(a) && AllDigits(b)
    ensures AllDigits(a + b)
    ensures ParseDigits(a + b) == ParseDigits(a) * Pow10(|b|) + ParseDigits(b)
    decreases |b|
  {
    AllDigitsAppend(a, b);
    if b == [] {
      assert a + b == a;
    } else {
      var b' := b[..|b| - 1];
      var c := b[|b| - 1];
      assert b == b' + [c];
      assert AllDigits(b') by {
        forall i | 0 <= i < |b'| ensures IsDigit(b'[i]) { assert b'[i] == b[i]; }
      }
      ParseAppend(a, b');
      assert (a + b)[..|a + b| - 1] == a + b';
      assert (a + b)[|a + b| - 1] == c;
      var pa, pb', pw := ParseDigits(a), ParseDigits(b'), Pow10(|b'|);
      assert ParseDigits(a + b) == ParseDigits(a + b') * 10 + DigitValue(c);
      assert ParseDigits(a + b') == pa * pw + pb';
      assert ParseDigits(b) == pb' * 10 + DigitValue(c);
      assert Pow10(|b|) == pw * 10;
      Regroup(pa, pw, pb', DigitValue(c));
    }
  }

  lemma {:induction false} ParseDecimal(n: nat)
    ensures ParseDigits(Decimal(n)) == n
  {
    if n >= 10 {
      ParseDecimal(n / 10);
      var s := Decimal(n / 10) + [DigitChar(n % 10)];
      assert s[..|s| - 1] == Decimal(n / 10);
    }
  }

  lemma ParseThreeDigits(n: nat)
    requires n < 1000
    ensures ParseDigits(ThreeDigits(n)) == n
  {
    var s := ThreeDigits(n);
    assert s[..2][..1] == [s[0]];
    assert [s[0]][..0] == [];
    assert ParseDigits([s[0]]) == n / 100;
    assert s[..2][1] == s[1];
    assert ParseDigits(s[..2]) == ParseDigits([s[0]]) * 10 + DigitValue(s[1]);
    assert ParseDigits(s[..2]) == (n / 100) * 10 + n / 10 % 10;
    assert ParseDigits(s) == ParseDigits(s[..2]) * 10 + n % 10;
    assert n / 10 == (n / 100) * 10 + n / 10 % 10;
  }

  /** The digits of a grouped amount, read back, give the amount. */
  lemma {:induction false} StripFormatted(n: nat)
    ensures StripNonDigits(FormatWithApostrophe(n)) != []
    ensures ParseDigits(StripNonDigits(FormatWithApostrophe(n))) == n
  {
    if n < 1000 {
      Seqs.FilterKeepsAll(Decimal(n), IsDigit);
      ParseDecimal(n);
    } else {
      var high := FormatWithApostrophe(n / 1000);
      var low := ThreeDigits(n % 1000);
      StripFormatted(n / 1000);
      Seqs.FilterAppend(high + "'", low, IsDigit);
      Seqs.FilterAppend(high, "'", IsDigit);
      Seqs.FilterSingleton('\'', IsDigit);
      Seqs.FilterKeepsAll(low, IsDigit);
      assert StripNonDigits(FormatWithApostrophe(n)) == StripNonDigits(high) + low;
      ParseAppend(StripNonDigits(high), low);
      ParseThreeDigits(n % 1000);
      assert Pow10(3) == 1000;
      assert ParseDigits(StripNonDigits(high)) == n / 1000;
    }
  }

  /** Round trip: reading the grouped display of an amount gives the amount. */
  lemma SanitizeFormatted(n: nat)
    ensures Sanitize(FormatWithApostrophe(n)) == n
  {
    StripFormatted(n);
  }

  /** Feeding a field's own display back into its handler changes nothing. */
  lemma HandleAmountChangeIdempotent(raw: string)
    ensures HandleAmountChange(HandleAmountChange(raw).display) == HandleAmountChange(raw)
  {
    SanitizeFormatted(Sanitize(raw));
  }

  /** The calculator's opening amounts, as displayed. */
  lemma FormatExamples()
    ensures FormatWithApostrophe(5000) == "5'000"
    ensures FormatWithApostrophe(200) == "200"
    ensures FormatWithApostrophe(1234567) == "1'234'567"
  {
    assert Decimal(5) == "5";
    assert ThreeDigits(0) == "000";
    assert Decimal(20) == "20";
    assert ThreeDigits(234) == "234";
    assert ThreeDigits(567) == "567";
    assert FormatWithApostrophe(1234) == "1'234";
  }
}
