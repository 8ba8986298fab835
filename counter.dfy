/**
 * The animated statistics counters. A counter's final text (such as "800,000",
 * "~100" or "75%") is reduced to the integer formed by its decimal digits, and
 * an interval callback then raises a running value by a sixtieth of that
 * integer per tick until it reaches the integer, when the final text is written
 * back verbatim. The running value is modelled with exact reals.
 */
module Counter {
  import opened Wrappers

  predicate IsDigit(c: char) {
    '0' <= c <= '9'
  }

  predicate AllDigits(s: string) {
    forall i :: 0 <= i < |s| ==> IsDigit(s[i])
  }

  predicate NoDigits(s: string) {
    forall i :: 0 <= i < |s| ==> !IsDigit(s[i])
  }

  /** `s.replace(/[^0-9]/g, '')`: the decimal digits of `s`, in order. */
  function DigitsOnly(s: string): (d: string)
    ensures AllDigits(d)
    ensures |d| <= |s|
    ensures |d| == 0 <==> NoDigits(s)
  {
    if |s| == 0 then []
    else (if IsDigit(s[0]) then [s[0]] else []) + DigitsOnly(s[1..])
  }

  /** Stripping distributes over concatenation. */
  lemma {:induction false} DigitsOnlyAppend(a: string, b: string)
    ensures DigitsOnly(a + b) == DigitsOnly(a) + DigitsOnly(b)
  {
    if |a| == 0 {
      assert a + b == b;
    } else {
      var head: string := if IsDigit(a[0]) then [a[0]] else [];
      assert (a + b)[0] == a[0];
      assert (a + b)[1..] == a[1..] + b;
      calc {
        DigitsOnly(a + b);
        head + DigitsOnly(a[1..] + b);
        { DigitsOnlyAppend(a[1..], b); }
        head + (DigitsOnly(a[1..]) + DigitsOnly(b));
        (head + DigitsOnly(a[1..])) + DigitsOnly(b);
        DigitsOnly(a) + DigitsOnly(b);
      }
    }
  }

  /** A string of digits is left as it is; one without digits vanishes. */
  lemma {:induction false} DigitsOnlyFixes(s: string)
    ensures AllDigits(s) ==> DigitsOnly(s) == s
    ensures NoDigits(s) ==> DigitsOnly(s) == []
  {
    if |s| > 0 {
      DigitsOnlyFixes(s[1..]);
    }
  }

  function DigitValue(c: char): nat
    requires IsDigit(c)
  {
    c as int - '0' as int
  }

  /** `parseInt` of a string of decimal digits, most significant first. */
  function DecimalValue(d: string): nat
    requires AllDigits(d)
  {
    if |d| == 0 then 0 else DecimalValue(d[..|d| - 1]) * 10 + DigitValue(d[|d| - 1])
  }

  /** `parseInt(finalValue.replace(/[^0-9]/g, ''))`; None stands for NaN, when there is no digit at all. */
  function CleanValue(finalValue: string): (r: Option<nat>)
    ensures r.None? <==> NoDigits(finalValue)
  {
    var d := DigitsOnly(finalValue);
    if |d| == 0 then None else Some(DecimalValue(d))
  }

  /** The decimal numeral of `n`, without leading zeros. */
  function Numeral(n: nat): (s: string)
    ensures |s| > 0 && AllDigits(s)
  {
    if n < 10 then [('0' as int + n) as char]
    else Numeral(n / 10) + [('0' as int + n % 10) as char]
  }

  lemma {:induction false} NumeralValue(n: nat)
    ensures DecimalValue(Numeral(n)) == n
  {
    if n >= 10 {
      var s := Numeral(n);
      assert s[..|s| - 1] == Numeral(n / 10);
      NumeralValue(n / 10);
    }
  }

  /** The parse recovers a number from its numeral with any digit-free prefix (such as "~") and suffix (such as "%"). */
  lemma CleanValueOfDecorated(prefix: string, n: nat, suffix: string)
    requires NoDigits(prefix) && NoDigits(suffix)
    ensures CleanValue(prefix + Numeral(n) + suffix) == Some(n)
  {
    var s := Numeral(n);
    DigitsOnlyAppend(prefix + s, suffix);
    DigitsOnlyAppend(prefix, s);
    DigitsOnlyFixes(prefix);
    DigitsOnlyFixes(suffix);
    DigitsOnlyFixes(s);
    NumeralValue(n);
    assert DigitsOnly(prefix + s + suffix) == s;
  }

  /** A non-digit anywhere, such as a thousands separator, does not change the parsed value. */
  lemma CleanValueIgnoresSeparator(a: string, c: char, b: string)
    requires !IsDigit(c)
    ensures CleanValue(a + [c] + b) == CleanValue(a + b)
  {
    DigitsOnlyAppend(a + [c], b);
    DigitsOnlyAppend(a, [c]);
    DigitsOnlyAppend(a, b);
    assert DigitsOnly([c]) == [] by {
      assert [c][1..] == [];
    }
    assert DigitsOnly(a + [c] + b) == DigitsOnly(a + b);
  }

  /** Appending a digit multiplies the value so far by ten and adds the digit. */
  lemma DecimalValueSnoc(d: string, c: char)
    requires AllDigits(d) && IsDigit(c)
    ensures AllDigits(d + [c]) && DecimalValue(d + [c]) == DecimalValue(d) * 10 + DigitValue(c)
  {
    assert (d + [c])[..|d|] == d;
  }

  /** The digits "800000" stand for 800000. */
  lemma DecimalValueOf800000()
    ensures AllDigits("800000") && DecimalValue("800000") == 800000
  {
    var d1: string := ['8'];
    DecimalValueSnoc([], '8');
    assert [] + ['8'] == d1;
    var d2 := d1 + ['0'];
    DecimalValueSnoc(d1, '0');
    var d3 := d2 + ['0'];
    DecimalValueSnoc(d2, '0');
    var d4 := d3 + ['0'];
    DecimalValueSnoc(d3, '0');
    var d5 := d4 + ['0'];
    DecimalValueSnoc(d4, '0');
    var d6 := d5 + ['0'];
    DecimalValueSnoc(d5, '0');
    assert d6 == "800000";
  }

  /** "800,000" parses as 800000. */
  lemma CleanValueWithSeparator()
    ensures CleanValue("800,000") == Some(800000)
  {
    assert "800,000" == "800" + [','] + "000";
    CleanValueIgnoresSeparator("800", ',', "000");
    assert "800" + "000" == "800000";
    DecimalValueOf800000();
    DigitsOnlyFixes("800000");
  }

  // ---------------------------------------------------------------------------
  // The ticks of the interval

  /** The number of increments the running value takes to reach the target. */
  const Steps: nat := 60

  /** What one tick writes: the final text, the running value rounded down, or NaN. */
  datatype Frame = Final(text: string) | Counting(shown: int) | CountingNaN

  /** The running value after `step` increments of a sixtieth of the target `c`. */
  function Running(c: nat, step: nat): real {
    (step as real) * (c as real / Steps as real)
  }

  /** The running value has reached the target. */
  predicate Reached(c: nat, step: nat) {
    Running(c, step) >= c as real
  }

  /**
   * What the `step`-th tick (`step >= 1`) writes: the running value is then
   * `step * (target / 60)`; once it has reached the target the final text is
   * written verbatim, before that the value rounded down. Without digits the
   * target is NaN, every comparison with it is false, and the tick never ends.
   */
  function Tick(finalValue: string, step: nat): (f: Frame)
    ensures f.CountingNaN? <==> NoDigits(finalValue)
    ensures f.Final? ==> f.text == finalValue
  {
    match CleanValue(finalValue)
    case None => CountingNaN
    case Some(c) =>
      if Reached(c, step) then Final(finalValue) else Counting(Running(c, step).Floor)
  }

  /** Scaling both sides by a positive factor keeps their order. */
  lemma ScaleKeepsOrder(a: real, b: real, x: real)
    requires x > 0.0
    ensures a * x >= b * x <==> a >= b
  {
    if a >= b {
      assert a * x - b * x == (a - b) * x;
    } else {
      assert b * x - a * x == (b - a) * x;
    }
  }

  /** The running value grows with the number of increments. */
  lemma RunningMonotone(c: nat, s1: nat, s2: nat)
    requires s1 <= s2
    ensures Running(c, s1) <= Running(c, s2)
  {
    var x := c as real / Steps as real;
    assert x >= 0.0;
    assert Running(c, s2) - Running(c, s1) == ((s2 - s1) as real) * x;
  }

  /** The running value reaches a positive target exactly at the 60th increment. */
  lemma ReachedIff(c: nat, step: nat)
    requires step >= 1
    ensures Reached(c, step) <==> (c == 0 || step >= Steps)
  {
    var x := c as real / Steps as real;
    assert c as real == (Steps as real) * x;
    if c == 0 {
      assert Running(c, step) == 0.0;
    } else {
      assert x > 0.0;
      ScaleKeepsOrder(step as real, Steps as real, x);
    }
  }

  /** The counter finishes exactly at tick 60 (at once for a zero target), and then shows its final text verbatim. */
  lemma TickFinalIff(finalValue: string, c: nat, step: nat)
    requires CleanValue(finalValue) == Some(c) && step >= 1
    ensures Tick(finalValue, step).Final? <==> (c == 0 || step >= Steps)
    ensures Tick(finalValue, step).Final? ==> Tick(finalValue, step).text == finalValue
  {
    ReachedIff(c, step);
  }

  /** Before it finishes, the counter shows a whole number below the target. */
  lemma TickCountingBelowTarget(finalValue: string, c: nat, step: nat)
    requires CleanValue(finalValue) == Some(c) && Tick(finalValue, step).Counting?
    ensures 0 <= Tick(finalValue, step).shown < c
  {
    RunningMonotone(c, 0, step);
    assert Running(c, 0) == 0.0;
  }

  /** The shown value never goes down from one tick to a later one. */
  lemma TickNondecreasing(finalValue: string, c: nat, s1: nat, s2: nat)
    requires CleanValue(finalValue) == Some(c) && s1 <= s2
    requires Tick(finalValue, s1).Counting? && Tick(finalValue, s2).Counting?
    ensures Tick(finalValue, s1).shown <= Tick(finalValue, s2).shown
  {
    RunningMonotone(c, s1, s2);
  }

  /** Below 60 the shown value can repeat: "50" shows 5 at both tick 6 and tick 7. */
  lemma TickCanRepeat()
    ensures Tick("50", 6) == Counting(5) && Tick("50", 7) == Counting(5)
  {
    assert "50" == Numeral(50);
    CleanValueOfDecorated("", 50, "");
    assert "" + Numeral(50) + "" == "50";
  }

  /**
   * From a target of 59 on, every tick before the last shows a larger value than
   * the tick before it: the increment is at least one, or, for 59, tick `k` shows `k - 1`.
   */
  lemma TickStrictFrom59(finalValue: string, c: nat, step: nat)
    requires CleanValue(finalValue) == Some(c) && c >= Steps - 1
    requires 1 <= step && step + 1 < Steps
    ensures StepsUp(finalValue, step)
  {
    ReachedIff(c, step);
    ReachedIff(c, step + 1);
    var x := c as real / Steps as real;
    assert Running(c, step + 1) == Running(c, step) + x;
    if c == Steps - 1 {
      assert Running(c, step) == (step - 1) as real + (Steps - step) as real / Steps as real;
      assert Running(c, step + 1) == step as real + (Steps - step - 1) as real / Steps as real;
    } else {
      assert x >= 1.0;
    }
  }

  /** Ticks `s` and `s + 1` both count, and the second shows more than the first. */
  predicate StepsUp(finalValue: string, s: nat) {
    Tick(finalValue, s).Counting? && Tick(finalValue, s + 1).Counting?
    && Tick(finalValue, s).shown < Tick(finalValue, s + 1).shown
  }

  /**
   * Every shown value is at least one more than the one before: then tick `k`
   * shows at least `k - 1`.
   */
  lemma {:induction false} StrictGrowth(finalValue: string, c: nat, k: nat)
    requires CleanValue(finalValue) == Some(c) && c >= 1
    requires 1 <= k < Steps
    requires forall s :: 1 <= s < k ==> StepsUp(finalValue, s)
    ensures Tick(finalValue, k).Counting? && Tick(finalValue, k).shown >= k - 1
  {
    ReachedIff(c, k);
    if k == 1 {
      TickCountingBelowTarget(finalValue, c, 1);
    } else {
      StrictGrowth(finalValue, c, k - 1);
      assert StepsUp(finalValue, k - 1);
    }
  }

  /**
   * For every target from 1 to 58 some shown value repeats: 59 ticks cannot all
   * show a new value when fewer than 59 values lie below the target.
   */
  lemma TickRepeatsBelow59(finalValue: string, c: nat)
    requires CleanValue(finalValue) == Some(c) && 1 <= c < Steps - 1
    ensures exists s :: 1 <= s < Steps - 1 && Tick(finalValue, s) == Tick(finalValue, s + 1)
  {
    if forall s :: 1 <= s < Steps - 1 ==> Tick(finalValue, s) != Tick(finalValue, s + 1) {
      forall s | 1 <= s < Steps - 1
        ensures StepsUp(finalValue, s)
      {
        ReachedIff(c, s);
        ReachedIff(c, s + 1);
        TickNondecreasing(finalValue, c, s, s + 1);
      }
      StrictGrowth(finalValue, c, Steps - 1);
      TickCountingBelowTarget(finalValue, c, Steps - 1);
      assert false;
    }
  }
}
