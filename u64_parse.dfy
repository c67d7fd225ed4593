/**
 * Rust's `str::parse::<u64>()` (`u64::from_str`, i.e. `from_str_radix(s, 10)`):
 * an optional leading `+`, then one or more ASCII decimal digits, folded left
 * to right with checked multiplication and addition so that any value above
 * 2^64 - 1 is an error. A leading `-` is an invalid digit for an unsigned type.
 */
module U64Parse {
  import opened Wrappers
  import opened MachineInts

  predicate IsDigit(c: char) {
    '0' <= c <= '9'
  }

  predicate AllDigits(s: string) {
    forall i :: 0 <= i < |s| ==> IsDigit(s[i])
  }

  function DigitValue(c: char): (d: nat)
    requires IsDigit(c)
    ensures d < 10
  {
    c as int - '0' as int
  }

  /** The number a digit string denotes, read as positional decimal notation. */
  function DecimalValue(s: string): (n: nat)
    requires AllDigits(s)
  {
    if |s| == 0 then 0 else DecimalValue(s[..|s| - 1]) * 10 + DigitValue(s[|s| - 1])
  }

  /**
   * The digit loop of `from_str_radix`: for each character, `checked_mul(10)`,
   * the digit check, then `checked_add(digit)`; the first failure ends the parse.
   */
  function Accumulate(acc: U64, digits: string): (r: Option<U64>)
    decreases |digits|
  {
    if |digits| == 0 then Some(acc)
    else
      var mul := acc * 10;
      if !IsDigit(digits[0]) then None
      else if mul > U64_MAX then None
      else if mul + DigitValue(digits[0]) > U64_MAX then None
      else Accumulate(mul + DigitValue(digits[0]), digits[1..])
  }

  /** Appending one character continues the fold from where the prefix left it. */
  lemma {:induction false} AccumulateSnoc(acc: U64, d: string, c: char)
    decreases |d|
    ensures Accumulate(acc, d + [c]) ==
      match Accumulate(acc, d) case None => None case Some(v) => Accumulate(v, [c])
  {
    if |d| > 0 {
      assert (d + [c])[0] == d[0];
      assert (d + [c])[1..] == d[1..] + [c];
      if IsDigit(d[0]) && acc * 10 + DigitValue(d[0]) <= U64_MAX {
        AccumulateSnoc(acc * 10 + DigitValue(d[0]), d[1..], c);
      }
    } else {
      assert d + [c] == [c];
    }
  }

  /**
   * The checked loop started at 0 succeeds exactly when every character is a
   * digit and the decimal value fits in 64 bits, and then yields that value.
   */
  lemma {:induction false} AccumulateExact(d: string)
    decreases |d|
    ensures Accumulate(0, d) ==
      if AllDigits(d) && DecimalValue(d) <= U64_MAX then Some(DecimalValue(d)) else None
  {
    if |d| > 0 {
      var init, c := d[..|d| - 1], d[|d| - 1];
      assert d == init + [c];
      AccumulateExact(init);
      AccumulateSnoc(0, init, c);
      assert AllDigits(d) <==> AllDigits(init) && IsDigit(c) by {
        if AllDigits(init) && IsDigit(c) {
          forall i | 0 <= i < |d| ensures IsDigit(d[i]) {
            if i < |d| - 1 { assert d[i] == init[i]; }
          }
        }
        if AllDigits(d) {
          forall i | 0 <= i < |init| ensures IsDigit(init[i]) {
            assert init[i] == d[i];
          }
        }
      }
    }
  }

  /** The text after an optional leading `+`. */
  function Unsigned(s: string): (t: string) {
    if |s| > 0 && s[0] == '+' then s[1..] else s
  }

  /**
   * `s.parse::<u64>()`; `None` stands for every `ParseIntError`. It accepts
   * exactly an optional `+` and a non-empty run of decimal digits whose value
   * is at most 2^64 - 1 (leading zeros are fine), and yields that value.
   */
  function ParseU64(s: string): (r: Option<U64>)
    ensures r.Some? <==>
      |Unsigned(s)| > 0 && AllDigits(Unsigned(s)) && DecimalValue(Unsigned(s)) <= U64_MAX
    ensures r.Some? ==> r.value == DecimalValue(Unsigned(s))
  {
    AccumulateExact(Unsigned(s));
    if |s| == 0 then None
    else if (s[0] == '+' || s[0] == '-') && |s| == 1 then None
    else if s[0] == '+' then Accumulate(0, s[1..])
    else
      assert s[0] == '-' ==> !IsDigit(Unsigned(s)[0]);
      Accumulate(0, s)
  }

  function DigitChar(d: nat): (c: char)
    requires d < 10
    ensures IsDigit(c) && DigitValue(c) == d
  {
    ('0' as int + d) as char
  }

  /** `n.to_string()`: decimal notation without leading zeros, the partner of `ParseU64`. */
  function Format(n: nat): (s: string)
    ensures |s| > 0 && AllDigits(s)
  {
    if n < 10 then [DigitChar(n)] else Format(n / 10) + [DigitChar(n % 10)]
  }

  lemma {:induction false} FormatValue(n: nat)
    ensures DecimalValue(Format(n)) == n
  {
    if n >= 10 {
      FormatValue(n / 10);
      var s := Format(n);
      assert s[..|s| - 1] == Format(n / 10);
    }
  }

  /** Parsing what `to_string` prints gives back every 64-bit value. */
  lemma ParseFormat(n: U64)
    ensures ParseU64(Format(n)) == Some(n)
    ensures ParseU64("+" + Format(n)) == Some(n)
  {
    FormatValue(n);
    assert ("+" + Format(n))[1..] == Format(n);
    assert Format(n)[0] != '+';
  }

  /** Every decimal numeral above 2^64 - 1 is rejected as an overflow. */
  lemma ParseOverflow(n: nat)
    requires n > U64_MAX
    ensures ParseU64(Format(n)) == None
    ensures ParseU64("+" + Format(n)) == None
  {
    FormatValue(n);
    assert ("+" + Format(n))[1..] == Format(n);
    assert Format(n)[0] != '+';
  }

  /** A text holding anything but an optional `+` and digits is rejected. */
  lemma ParseRejectsNonDigit(s: string, i: nat)
    requires i < |Unsigned(s)| && !IsDigit(Unsigned(s)[i])
    ensures ParseU64(s) == None
  {
  }
}
