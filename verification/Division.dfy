/** Division by a number that is not a constant. */
module Division {
  /** Two parts of a number put together. */
  function Joined(radix: nat, high: int, low: int): int {
    radix * high + low
  }

  lemma Fewer(value: nat, radix: nat, bound: nat)
    requires 0 < radix && value < radix * bound
    ensures value / radix < bound
  {
    var q := value / radix;
    assert value == radix * q + value % radix;
    assert q >= bound ==> radix * q >= radix * bound;
  }

  lemma AtLeast(value: nat, radix: nat, bound: nat)
    requires 0 < radix && value >= radix * bound
    ensures value / radix >= bound
  {
    var q := value / radix;
    assert value == radix * q + value % radix;
    assert q + 1 <= bound ==> radix * (q + 1) <= radix * bound;
    assert radix * (q + 1) == radix * q + radix;
  }

  lemma QuotientOf(high: nat, low: nat, radix: nat)
    requires low < radix
    ensures var v := Joined(radix, high, low);
            v / radix == high && v % radix == low && v >= 0 && (high > 0 ==> v >= radix)
  {
    var v := radix * high + low;
    assert radix * high >= 0;
    assert radix * (high + 1) == radix * high + radix;
    Fewer(v, radix, high + 1);
    AtLeast(v, radix, high);
    assert v == radix * (v / radix) + v % radix;
    assert high > 0 ==> radix * high >= radix;
  }

  lemma Shrinks(value: nat, radix: nat)
    requires 2 <= radix
    ensures value == Joined(radix, value / radix, value % radix)
    ensures 0 <= value / radix <= value && (value > 0 ==> value / radix < value)
    ensures value >= radix ==> value / radix > 0
    ensures value < radix ==> value / radix == 0 && value % radix == value
  {
    AtLeast(value, radix, 0);
    var q: nat := value / radix;
    assert value == radix * q + value % radix;
    Doubles(radix, q);
  }

  lemma Doubles(radix: nat, q: nat)
    requires 2 <= radix
    ensures radix * q >= 2 * q && (q > 0 ==> radix * q >= radix)
  {
  }
}
