/** ASCII decimal digit runs, their numeric value, and the conversion of a
    digit run to an unsigned 32-bit integer as `str::parse::<u32>` does it. */
module Decimal {
  import opened Wrappers

  /** Largest value of a Rust `u32`. */
  const U32_MAX: nat := 0xFFFF_FFFF

  type U32 = x: nat | x <= U32_MAX

  predicate IsDigit(c: char) {
    '0' <= c <= '9'
  }

  predicate AllDigits(t: string) {
    forall k :: 0 <= k < |t| ==> IsDigit(t[k])
  }

  function DigitValue(c: char): (d: nat)
    requires IsDigit(c)
    ensures d < 10
  {
    (c as int) - ('0' as int)
  }

  function DigitChar(d: nat): (c: char)
    requires d < 10
    ensures IsDigit(c) && DigitValue(c) == d
  {
    ('0' as int + d) as char
  }

  /** The number a run of decimal digits denotes; leading zeros add nothing. */
  function DecimalValue(t: string): nat
    requires AllDigits(t)
  {
    if t == [] then 0 else 10 * DecimalValue(t[..|t| - 1]) + DigitValue(t[|t| - 1])
  }

  /** Dropping trailing digits never makes the value larger. */
  lemma {:induction false} DecimalValuePrefix(t: string, j: nat)
    requires AllDigits(t) && j <= |t|
    ensures DecimalValue(t[..j]) <= DecimalValue(t)
    decreases |t| - j
  {
    if j < |t| {
      DecimalValuePrefix(t, j + 1);
      assert t[..j + 1][..j] == t[..j];
      assert DecimalValue(t[..j + 1]) == 10 * DecimalValue(t[..j]) + DigitValue(t[j]);
    } else {
      assert t[..j] == t;
    }
  }

  /** The canonical decimal rendering of `n`: no sign, no leading zeros. */
  function Dec(n: nat): (t: string)
    ensures t != [] && AllDigits(t) && DecimalValue(t) == n
    ensures n > 0 ==> t[0] != '0'
  {
    if n < 10 then [DigitChar(n)]
    else
      var t := Dec(n / 10) + [DigitChar(n % 10)];
      assert t[..|t| - 1] == Dec(n / 10);
      t
  }

  /** The digit loop of `u32::from_str`: left to right, each character must be
      a digit, and `acc * 10 + digit` is checked against the `u32` range. */
  function Accumulate(t: string, i: nat, acc: U32): Option<U32>
    requires i <= |t|
    decreases |t| - i
  {
    if i == |t| then Some(acc)
    else if !IsDigit(t[i]) then None
    else if 10 * acc + DigitValue(t[i]) > U32_MAX then None
    else Accumulate(t, i + 1, 10 * acc + DigitValue(t[i]))
  }

  /** Over a digit run, the checked loop yields the run's value exactly when
      that value fits in a `u32`: an overflow part-way is never undone. */
  lemma {:induction false} AccumulateValue(t: string, i: nat, acc: U32)
    requires AllDigits(t) && i <= |t|
    requires acc == DecimalValue(t[..i])
    ensures Accumulate(t, i, acc) == if DecimalValue(t) <= U32_MAX then Some(DecimalValue(t)) else None
    decreases |t| - i
  {
    if i == |t| {
      assert t[..i] == t;
    } else {
      assert t[..i + 1][..i] == t[..i];
      var next := 10 * acc + DigitValue(t[i]);
      assert next == DecimalValue(t[..i + 1]);
      if next > U32_MAX {
        DecimalValuePrefix(t, i + 1);
      } else {
        AccumulateValue(t, i + 1, next);
      }
    }
  }

  /** A character that is not a digit, anywhere from `i` on, makes the
      checked loop fail. */
  lemma {:induction false} AccumulateRejects(t: string, i: nat, acc: U32, k: nat)
    requires i <= k < |t| && !IsDigit(t[k])
    ensures Accumulate(t, i, acc) == None
    decreases |t| - i
  {
    if i < k && IsDigit(t[i]) && 10 * acc + DigitValue(t[i]) <= U32_MAX {
      AccumulateRejects(t, i + 1, 10 * acc + DigitValue(t[i]), k);
    }
  }

  /** The digits `str::parse::<u32>` reads: the text after an optional
      leading `+`. */
  function Unsigned(t: string): string {
    if |t| > 0 && t[0] == '+' then t[1..] else t
  }

  /** `str::parse::<u32>`: an optional leading `+`, then one or more ASCII
      digits whose value fits in 32 bits; anything else is an error. */
  function ParseU32(t: string): (r: Option<U32>)
    ensures r.Some? <==> Unsigned(t) != [] && AllDigits(Unsigned(t)) && DecimalValue(Unsigned(t)) <= U32_MAX
    ensures r.Some? ==> r.value == DecimalValue(Unsigned(t))
    ensures AllDigits(t) && t != [] ==>
      r == if DecimalValue(t) <= U32_MAX then Some(DecimalValue(t)) else None
  {
    var digits := Unsigned(t);
    if digits == [] then None
    else
      var r := Accumulate(digits, 0, 0);
      assert r.Some? <==> AllDigits(digits) && DecimalValue(digits) <= U32_MAX by {
        if AllDigits(digits) {
          assert digits[..0] == [];
          AccumulateValue(digits, 0, 0);
        } else {
          var k :| 0 <= k < |digits| && !IsDigit(digits[k]);
          AccumulateRejects(digits, 0, 0, k);
        }
      }
      assert AllDigits(digits) ==> r == if DecimalValue(digits) <= U32_MAX then Some(DecimalValue(digits)) else None by {
        if AllDigits(digits) {
          assert digits[..0] == [];
          AccumulateValue(digits, 0, 0);
        }
      }
      r
  }
}
