/** Decimal text: how the script turns integers into text and how a sheet cell's text
    becomes an integer (gspread's numericise, pandas' to_numeric, then astype(int)). */
module Numbers {
  import opened Sheet

  predicate IsDigit(c: char)
  {
    '0' <= c <= '9'
  }

  predicate AllDigits(s: string)
  {
    forall i :: 0 <= i < |s| ==> IsDigit(s[i])
  }

  function DigitChar(d: nat): (c: char)
    requires d < 10
    ensures IsDigit(c) && DigitValue(c) == d
  {
    (48 + d) as char
  }

  function DigitValue(c: char): (d: nat)
    requires IsDigit(c)
    ensures d < 10
  {
    c as int - 48
  }

  /** The value of a run of decimal digits. */
  function DigitsValue(s: string): nat
    requires AllDigits(s)
  {
    if s == [] then 0 else 10 * DigitsValue(s[..|s| - 1]) + DigitValue(s[|s| - 1])
  }

  /** A natural number written in decimal without leading zeros; reading it back gives the number. */
  function NatText(n: nat): (s: string)
    ensures |s| >= 1 && AllDigits(s)
    ensures DigitsValue(s) == n
    ensures s[0] == '0' <==> n == 0
  {
    if n < 10 then [DigitChar(n)]
    else
      var prefix := NatText(n / 10);
      var s := prefix + [DigitChar(n % 10)];
      assert s[..|s| - 1] == prefix;
      s
  }

  /** A number from 1000 to 9999 is written with four digits. */
  lemma NatTextOfFourDigits(n: nat)
    ensures 1000 <= n <= 9999 ==> |NatText(n)| == 4
  {
    if 1000 <= n <= 9999 {
      assert |NatText(n / 1000)| == 1;
      assert |NatText(n / 100)| == 2;
      assert |NatText(n / 10)| == 3;
    }
  }

  /** Python's `str(n)` for an int. */
  function IntText(n: int): string
  {
    if n < 0 then "-" + NatText(-n) else NatText(n)
  }

  /** Exactly two digits, as strftime's %m and %d write them; reading them back gives the number. */
  function Pad2(n: nat): (s: string)
    requires n < 100
    ensures |s| == 2 && AllDigits(s) && DigitsValue(s) == n
  {
    var s := [DigitChar(n / 10), DigitChar(n % 10)];
    assert s[..1] == [DigitChar(n / 10)] && s[..1][..0] == [];
    assert DigitsValue(s[..1]) == n / 10;
    s
  }

  predicate IsSign(c: char)
  {
    c == '+' || c == '-'
  }

  /** The text after an optional leading sign. */
  function Unsigned(s: string): string
  {
    if |s| > 0 && IsSign(s[0]) then s[1..] else s
  }

  /** An unsigned plain decimal as Python's int() and float() read one: digits and at most
      one '.', with at least one digit ("7", "007", "7.", ".5", "7.25"). */
  predicate IsUnsignedDecimal(b: string)
  {
    && (forall i :: 0 <= i < |b| ==> IsDigit(b[i]) || b[i] == '.')
    && (forall i, j :: 0 <= i < j < |b| && b[i] == '.' ==> b[j] != '.')
    && (exists i :: 0 <= i < |b| && IsDigit(b[i]))
  }

  /** A plain decimal: an optional sign, then an unsigned plain decimal. */
  predicate IsDecimal(s: string)
  {
    IsUnsignedDecimal(Unsigned(s))
  }

  /** The longest run of digits a text starts with. */
  function LeadingDigits(s: string): (d: string)
    ensures AllDigits(d) && |d| <= |s|
  {
    if s != [] && IsDigit(s[0]) then [s[0]] + LeadingDigits(s[1..]) else []
  }

  /** The integer part of a signed decimal text: the value of the digits before any '.',
      negated after a '-'.  This is what astype(int) keeps of the number. */
  function IntegerPartValue(s: string): int
  {
    var m := DigitsValue(LeadingDigits(Unsigned(s)));
    if |s| > 0 && s[0] == '-' then -(m as int) else m as int
  }

  /** Python's float() spellings of infinity: an optional sign, then "inf" or "infinity"
      in any mix of cases. */
  predicate IsInfinity(s: string)
  {
    var b := Unsigned(s);
    SameIgnoringCase(b, "inf") || SameIgnoringCase(b, "infinity")
  }

  function Lower(c: char): char
  {
    if 'A' <= c <= 'Z' then (c as int + 32) as char else c
  }

  predicate SameIgnoringCase(a: string, b: string)
  {
    |a| == |b| && forall i :: 0 <= i < |a| ==> Lower(a[i]) == Lower(b[i])
  }

  /** An infinity spelling is not a plain decimal: it starts with a letter. */
  lemma InfinityIsNotDecimal(s: string)
    requires IsInfinity(s)
    ensures !IsDecimal(s)
  {
    var b := Unsigned(s);
    assert Lower(b[0]) == 'i';
    assert !IsDigit(b[0]) && b[0] != '.';
  }

  /** Position of the first '.', or the length when there is none. */
  function DotIndex(s: string): (k: nat)
    ensures k <= |s| && (k < |s| ==> s[k] == '.')
    ensures forall i :: 0 <= i < k ==> s[i] != '.'
  {
    if s == [] || s[0] == '.' then 0 else DotIndex(s[1..]) + 1
  }

  lemma DotIndexOfDigits(s: string)
    requires AllDigits(s)
    ensures DotIndex(s) == |s|
  {
  }

  /** The integer part of an unsigned decimal (digits, optional '.' and fraction digits,
      at least one digit in all); None when the text is not one. */
  function ParseUnsigned(body: string): Option<nat>
  {
    var k := DotIndex(body);
    var whole := body[..k];
    var frac := if k < |body| then body[k + 1..] else [];
    if AllDigits(whole) && AllDigits(frac) && (|whole| > 0 || |frac| > 0) then
      assert body == whole + (if k < |body| then ['.'] + frac else []);
      Some(DigitsValue(whole))
    else
      None
  }

  /** The integer the script gets from a cell that holds a plain decimal number (optional
      sign, digits, optional '.' and fraction digits): its value truncated toward zero, as
      astype(int) truncates a float.  None when the text is not such a number. */
  function ParseNumber(s: string): (r: Option<int>)
    ensures r.Some? <==> IsDecimal(s)
    ensures r.Some? ==> r.value == IntegerPartValue(s)
  {
    ParseUnsignedIsDecimal(Unsigned(s));
    if |s| > 0 && IsSign(s[0]) then
      match ParseUnsigned(s[1..])
      case None => None
      case Some(v) =>
        assert s == [s[0]] + s[1..];
        Some(if s[0] == '-' then -(v as int) else v as int)
    else
      match ParseUnsigned(s)
      case None => None
      case Some(v) => Some(v as int)
  }

  lemma ParseUnsignedDigits(digits: string)
    requires AllDigits(digits) && digits != []
    ensures ParseUnsigned(digits) == Some(DigitsValue(digits))
  {
    DotIndexOfDigits(digits);
    assert digits[..|digits|] == digits;
  }

  /** Reading back an integer the script wrote gives that integer. */
  lemma ParseIntText(n: int)
    ensures ParseNumber(IntText(n)) == Some(n)
  {
    var m: nat := if n < 0 then -n else n;
    ParseUnsignedDigits(NatText(m));
    if n < 0 {
      assert IntText(n)[1..] == NatText(m);
    } else {
      assert IsDigit(IntText(n)[0]);
    }
  }

  /** The first '.' after a run of digits is the one that ends the run. */
  lemma {:induction false} DotIndexAfterDigits(digits: string, rest: string)
    requires AllDigits(digits) && rest != [] && rest[0] == '.'
    ensures DotIndex(digits + rest) == |digits|
  {
    if digits != [] {
      assert (digits + rest)[1..] == digits[1..] + rest;
      DotIndexAfterDigits(digits[1..], rest);
    }
  }

  lemma ParseUnsignedFraction(digits: string, frac: string)
    requires AllDigits(digits) && digits != [] && AllDigits(frac)
    ensures ParseUnsigned(digits + "." + frac) == Some(DigitsValue(digits))
  {
    var body := digits + ("." + frac);
    assert digits + "." + frac == body;
    DotIndexAfterDigits(digits, "." + frac);
    assert body[..|digits|] == digits;
    assert body[|digits| + 1..] == frac;
  }

  /** A sign in front of a text starting with a digit negates (or keeps) its value. */
  lemma ParseSigned(negative: bool, body: string, v: nat)
    requires body != [] && IsDigit(body[0]) && ParseUnsigned(body) == Some(v)
    ensures ParseNumber((if negative then "-" else "") + body) == Some(if negative then -(v as int) else v as int)
  {
    var s := (if negative then "-" else "") + body;
    if negative {
      assert IsSign(s[0]) && s[1..] == body;
    } else {
      assert s == body && !IsSign(s[0]);
    }
    assert Unsigned(s) == body;
    ParseUnsignedIsDecimal(body);
    assert IsDecimal(s);
    assert IntegerPartValue(s) == (if negative then -(v as int) else v as int);
  }

  /** A number with a fraction is truncated toward zero: "-3.7" gives -3 and "3.7" gives 3. */
  lemma ParseTruncatesTowardZero(m: nat, negative: bool, frac: string)
    requires AllDigits(frac)
    ensures ParseNumber((if negative then "-" else "") + (NatText(m) + "." + frac))
         == Some(if negative then -(m as int) else m as int)
  {
    var body := NatText(m) + "." + frac;
    ParseUnsignedFraction(NatText(m), frac);
    assert body[0] == NatText(m)[0];
    ParseSigned(negative, body, m);
  }

  /** A text of digits whose run of digits stops at `k` starts with exactly those digits. */
  lemma {:induction false} LeadingDigitsUpTo(b: string, k: nat)
    requires k <= |b| && (forall i :: 0 <= i < k ==> IsDigit(b[i])) && (k < |b| ==> !IsDigit(b[k]))
    ensures LeadingDigits(b) == b[..k]
  {
    if k > 0 {
      LeadingDigitsUpTo(b[1..], k - 1);
      assert b[..k] == [b[0]] + b[1..][..k - 1];
    }
  }

  /** ParseUnsigned accepts exactly the unsigned plain decimals, and gives the value of the
      digits before the '.'. */
  lemma ParseUnsignedIsDecimal(b: string)
    ensures ParseUnsigned(b).Some? <==> IsUnsignedDecimal(b)
    ensures ParseUnsigned(b).Some? ==> ParseUnsigned(b).value == DigitsValue(LeadingDigits(b))
  {
    var k := DotIndex(b);
    var whole := b[..k];
    var frac := if k < |b| then b[k + 1..] else [];
    if AllDigits(whole) && AllDigits(frac) && (|whole| > 0 || |frac| > 0) {
      forall i | 0 <= i < |b| ensures IsDigit(b[i]) || b[i] == '.' {
        if i < k {
          assert b[i] == whole[i];
        } else if i > k {
          assert b[i] == frac[i - k - 1];
        }
      }
      forall j | k < j < |b| ensures IsDigit(b[j]) {
        assert b[j] == frac[j - k - 1];
      }
      if |whole| > 0 {
        assert IsDigit(b[0]);
      } else {
        assert IsDigit(b[k + 1]);
      }
      LeadingDigitsUpTo(b, k);
    }
    if IsUnsignedDecimal(b) {
      forall i | 0 <= i < |whole| ensures IsDigit(whole[i]) {
        assert whole[i] == b[i];
      }
      if k < |b| {
        forall i | 0 <= i < |frac| ensures IsDigit(frac[i]) {
          assert frac[i] == b[k + 1 + i];
        }
      }
      var d :| 0 <= d < |b| && IsDigit(b[d]);
      if d < k {
        assert |whole| > 0;
      } else {
        assert |frac| > 0;
      }
    }
  }
}
