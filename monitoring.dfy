/**
 * NTC temperature conversion of monitoring.c: the look-up table holds one raw ADC code
 * per integer degree Celsius, starting at NTC_MINTEMP and descending as the temperature
 * rises; getNtcCelsius range-checks a raw code, bisects the table and interpolates
 * tenths of a degree.
 */
module Monitoring {
  import opened Status
  import opened Arith

  const U16: int := 0x1_0000

  /**
   * A table the conversion can use: at least two entries, every entry a uint16_t, and
   * every adjacent gap at least 10, so that the interpolation divisor gap/10 is not zero.
   */
  ghost predicate IsNtcTable(t: seq<int>)
  {
    |t| >= 2 &&
    (forall i :: 0 <= i < |t| ==> 0 <= t[i] < U16) &&
    (forall i :: 0 <= i < |t| - 1 ==> t[i + 1] + 10 <= t[i])
  }

  /** Entries further down the table are smaller by at least 10 per slot. */
  lemma {:induction false} Descending(t: seq<int>, i: int, j: int)
    requires IsNtcTable(t) && 0 <= i <= j < |t|
    ensures t[j] + 10 * (j - i) <= t[i]
    decreases j - i
  {
    if i < j {
      Descending(t, i, j - 1);
    }
  }

  /** NTC_COMP_TEMP: slot `idx` plus `degTenths` tenths, in tenths of a degree Celsius. */
  function CompTemp(minTemp: int, idx: int, degTenths: int): (t: int)
    ensures t - degTenths == 10 * (minTemp + idx)
  {
    ((idx + minTemp) * 10) + degTenths
  }

  function Abs(x: int): nat { if x < 0 then -x else x }

  /**
   * C's integer division: the quotient is truncated toward zero, whereas Dafny's own `/`
   * is Euclidean (its remainder is never negative).
   */
  function CDiv(a: int, b: int): (q: int)
    requires b != 0
    ensures 0 <= a && 0 < b ==> q == a / b
  {
    if (a >= 0) == (b > 0) then Abs(a) / Abs(b) else -(Abs(a) / Abs(b))
  }

  /**
   * Slot `k` brackets the code `v`: v lies in [t[k+1], t[k]), or v is exactly the first
   * entry and k is the first slot. The last slot never brackets anything.
   */
  ghost predicate Brackets(t: seq<int>, v: int, k: int): (b: bool)
    ensures b ==> 0 <= k < |t| - 1 && t[k + 1] <= v <= t[k]
  {
    0 <= k < |t| - 1 && t[k + 1] <= v && (v < t[k] || (k == 0 && v == t[0]))
  }

  /** An in-range code has exactly one bracketing slot. */
  lemma BracketUnique(t: seq<int>, v: int, k1: int, k2: int)
    requires IsNtcTable(t) && Brackets(t, v, k1) && Brackets(t, v, k2)
    ensures k1 == k2
  {
    if k1 < k2 {
      Descending(t, k1 + 1, k2);
    } else if k2 < k1 {
      Descending(t, k2 + 1, k1);
    }
  }

  /** The bracketing slot found by a linear scan from slot `k` on: the reference for the bisection. */
  function LinearBracket(t: seq<int>, v: int, k: nat): (r: nat)
    requires IsNtcTable(t) && t[|t| - 1] <= v <= t[0]
    requires k < |t| - 1 && (k == 0 || v < t[k])
    ensures Brackets(t, v, r)
    decreases |t| - k
  {
    if t[k + 1] <= v then k else LinearBracket(t, v, k + 1)
  }

  /** The fractional part of getNtcCelsius: (t[k] - v) / ((t[k] - t[k+1]) / 10), both divisions C's. */
  function Tenths(t: seq<int>, k: nat, v: int): (d: int)
    requires IsNtcTable(t) && k < |t| - 1
    ensures t[k + 1] <= v <= t[k] ==> 0 <= d <= 19
  {
    var g := t[k] - t[k + 1];
    assert t[k + 1] <= v <= t[k] ==> 0 <= (t[k] - v) / (g / 10) <= 19 by {
      if t[k + 1] <= v <= t[k] {
        DivBelow(t[k] - v, g, g / 10);
      }
    }
    CDiv(t[k] - v, CDiv(g, 10))
  }

  /**
   * Inside a bracket the fraction is never negative, is 0 on the bracket's own entry, and
   * stays below 20: the truncated divisor gap/10 can make it exceed 9.
   */
  lemma TenthsBounds(t: seq<int>, k: nat, v: int)
    requires IsNtcTable(t) && k < |t| - 1 && t[k + 1] <= v <= t[k]
    ensures 0 <= Tenths(t, k, v) <= 19
    ensures v == t[k] ==> Tenths(t, k, v) == 0
  {
    var g := t[k] - t[k + 1];
    var q := g / 10;
    assert q >= 1 && g < 10 * q + 10;
    assert Tenths(t, k, v) == (t[k] - v) / q;
    DivBelow(t[k] - v, g, q);
  }

  /** 0 <= a <= g < 10q + 10 with q >= 1 gives a / q <= 19. */
  lemma DivBelow(a: int, g: int, q: int)
    requires 0 <= a <= g && 1 <= q && g < 10 * q + 10
    ensures 0 <= a / q <= 19
  {
    if a / q >= 20 {
      assert (a / q) * q >= 20 * q by { MulMono(20, a / q, q); }
      assert false;
    }
  }

  /** The outcome of a conversion: the status and the temperature written through `temp`. */
  datatype Reading = Reading(status: BccStatus, temp: int)

  /**
   * The conversion getNtcCelsius performs, stated with the linear scan instead of the
   * bisection: the hot clamp is checked first, then the cold clamp.
   */
  function Celsius(t: seq<int>, minTemp: int, v: int): (r: Reading)
    requires IsNtcTable(t)
    ensures r.status == BccSuccess <==> t[|t| - 1] <= v <= t[0]
    ensures r.status != BccSuccess ==> r.status == ParamRange
  {
    if t[|t| - 1] > v then Reading(ParamRange, CompTemp(minTemp, |t| - 1, 0))
    else if t[0] < v then Reading(ParamRange, CompTemp(minTemp, 0, 0))
    else
      var k := LinearBracket(t, v, 0);
      Reading(BccSuccess, CompTemp(minTemp, k, Tenths(t, k, v)))
  }

  /** A code below the last entry reads as the maximum temperature, out of range. */
  lemma CelsiusTooHot(t: seq<int>, minTemp: int, v: int)
    requires IsNtcTable(t) && v < t[|t| - 1]
    ensures Celsius(t, minTemp, v) == Reading(ParamRange, 10 * (minTemp + |t| - 1))
  {
  }

  /** A code above the first entry reads as the minimum temperature, out of range. */
  lemma CelsiusTooCold(t: seq<int>, minTemp: int, v: int)
    requires IsNtcTable(t) && t[0] < v
    ensures Celsius(t, minTemp, v) == Reading(ParamRange, 10 * minTemp)
  {
    Descending(t, 0, |t| - 1);
  }

  /** An in-range code reads as the temperature of its bracket plus 0 to 19 tenths. */
  lemma CelsiusInBracket(t: seq<int>, minTemp: int, v: int, k: int)
    requires IsNtcTable(t) && Brackets(t, v, k)
    ensures Celsius(t, minTemp, v).status == BccSuccess
    ensures 10 * (minTemp + k) <= Celsius(t, minTemp, v).temp <= 10 * (minTemp + k) + 19
  {
    Descending(t, 0, k);
    Descending(t, k + 1, |t| - 1);
    BracketUnique(t, v, k, LinearBracket(t, v, 0));
    TenthsBounds(t, k, v);
  }

  /** The first entry itself reads exactly as the minimum temperature, with success. */
  lemma CelsiusFirstEntry(t: seq<int>, minTemp: int)
    requires IsNtcTable(t)
    ensures Celsius(t, minTemp, t[0]) == Reading(BccSuccess, 10 * minTemp)
  {
    Descending(t, 0, |t| - 1);
    TenthsBounds(t, 0, t[0]);
  }

  /**
   * Entry i > 0 reads as its own temperature plus gap % 10 / (gap / 10) tenths, where gap
   * is t[i-1] - t[i]: exact whenever gap % 10 < gap / 10 (every gap of 100 or more).
   */
  lemma CelsiusAtEntry(t: seq<int>, minTemp: int, i: int)
    requires IsNtcTable(t) && 0 < i < |t|
    ensures var g := t[i - 1] - t[i];
      Celsius(t, minTemp, t[i]) == Reading(BccSuccess, 10 * (minTemp + i) + g % 10 / (g / 10))
    ensures 10 * (minTemp + i) <= Celsius(t, minTemp, t[i]).temp <= 10 * (minTemp + i) + 9
  {
    var g := t[i - 1] - t[i];
    EntryBracket(t, i);
    EntryTenths(g);
    var e := g % 10 / (g / 10);
    assert 0 <= e <= 9;
    assert Tenths(t, i - 1, t[i]) == 10 + e;
    assert Celsius(t, minTemp, t[i]).temp == 10 * (minTemp + i - 1) + 10 + e;
  }

  /** Entry i > 0 lies in the bracket of slot i - 1. */
  lemma EntryBracket(t: seq<int>, i: int)
    requires IsNtcTable(t) && 0 < i < |t|
    ensures t[|t| - 1] <= t[i] <= t[0] && LinearBracket(t, t[i], 0) == i - 1
  {
    assert Brackets(t, t[i], i - 1);
    Descending(t, 0, i);
    Descending(t, i, |t| - 1);
    BracketUnique(t, t[i], i - 1, LinearBracket(t, t[i], 0));
  }

  /** For a gap g >= 10, g / (g / 10) == 10 + g % 10 / (g / 10), which is at most 19. */
  lemma EntryTenths(g: int)
    requires g >= 10
    ensures CDiv(g, CDiv(g, 10)) == 10 + g % 10 / (g / 10)
    ensures 0 <= g % 10 / (g / 10) <= 9
  {
    var q, r := g / 10, g % 10;
    assert g == 10 * q + r;
    DivSplit(q, r);
  }

  /** (10q + r) / q == 10 + r / q, and r / q <= 9, for q >= 1 and 0 <= r < 10. */
  lemma DivSplit(q: int, r: int)
    requires q >= 1 && 0 <= r < 10
    ensures (10 * q + r) / q == 10 + r / q && 0 <= r / q <= 9
  {
    var d := r / q;
    assert r == d * q + r % q;
    assert 10 * q + r == (10 + d) * q + r % q;
    DivUnique(10 * q + r, q, 10 + d, r % q);
    DivBelow(r, r, q);
  }

  lemma DivUnique(a: int, b: int, d: int, m: int)
    requires b > 0 && a == d * b + m && 0 <= m < b
    ensures a / b == d
  {
    var e := a / b;
    assert e * b <= a < e * b + b;
    if e > d {
      MulMono(d + 1, e, b);
      assert false;
    } else if e < d {
      MulMono(e + 1, d, b);
      assert false;
    }
  }

  /**
   * As written, the conversion is not monotone: with the table [40, 21, 0] the code 21
   * (slot 1 exactly, one degree above the minimum) reads 19 tenths above the minimum,
   * while the smaller, hotter code 20 reads only 10 tenths above it.
   */
  lemma NonMonotoneExample(minTemp: int)
    ensures IsNtcTable([40, 21, 0])
    ensures Celsius([40, 21, 0], minTemp, 21) == Reading(BccSuccess, 10 * minTemp + 19)
    ensures Celsius([40, 21, 0], minTemp, 20) == Reading(BccSuccess, 10 * minTemp + 10)
  {
    var t := [40, 21, 0];
    assert IsNtcTable(t);
    assert LinearBracket(t, 21, 0) == 0;
    assert LinearBracket(t, 20, 0) == 1;
  }

  /** The interpolation evidently intended: (t[k] - v) * 10 / (t[k] - t[k+1]), from 0 to 10 tenths. */
  function CorrectedTenths(t: seq<int>, k: nat, v: int): (d: int)
    requires IsNtcTable(t) && k < |t| - 1 && t[k + 1] <= v <= t[k]
    ensures 0 <= d <= 10
    ensures d == 0 <== v == t[k]
    ensures d == 10 <==> v == t[k + 1]
  {
    var g, a := t[k] - t[k + 1], t[k] - v;
    ScaledFraction(a, g);
    CDiv(a * 10, g)
  }

  /** 0 <= a <= g, g > 0: a * 10 / g is in [0, 10] and reaches 10 exactly when a == g. */
  lemma ScaledFraction(a: int, g: int)
    requires 0 <= a <= g && 0 < g
    ensures 0 <= a * 10 / g <= 10
    ensures a * 10 / g == 10 <==> a == g
  {
    var d := a * 10 / g;
    assert d * g <= a * 10 < d * g + g;
    if d > 10 {
      MulMono(11, d, g);
      assert false;
    }
    if a == g {
      DivUnique(a * 10, g, 10, 0);
    }
  }

  /** The conversion with the corrected interpolation; range checks and search unchanged. */
  function CorrectedCelsius(t: seq<int>, minTemp: int, v: int): (r: Reading)
    requires IsNtcTable(t)
    ensures r.status == BccSuccess <==> t[|t| - 1] <= v <= t[0]
  {
    if t[|t| - 1] > v then Reading(ParamRange, CompTemp(minTemp, |t| - 1, 0))
    else if t[0] < v then Reading(ParamRange, CompTemp(minTemp, 0, 0))
    else
      var k := LinearBracket(t, v, 0);
      Reading(BccSuccess, CompTemp(minTemp, k, CorrectedTenths(t, k, v)))
  }

  /** Corrected, every table entry reads back exactly as its own temperature. */
  lemma CorrectedAtEntry(t: seq<int>, minTemp: int, i: int)
    requires IsNtcTable(t) && 0 <= i < |t|
    ensures CorrectedCelsius(t, minTemp, t[i]) == Reading(BccSuccess, 10 * (minTemp + i))
  {
    if i == 0 {
      Descending(t, 0, |t| - 1);
    } else {
      EntryBracket(t, i);
    }
  }

  /** A larger code lies in the same or an earlier bracket. */
  lemma BracketOrder(t: seq<int>, v1: int, v2: int, k1: int, k2: int)
    requires IsNtcTable(t) && v1 <= v2 && Brackets(t, v1, k1) && Brackets(t, v2, k2)
    ensures k2 <= k1
  {
    if k2 > k1 {
      Descending(t, k1 + 1, k2);
    }
  }

  /** Corrected, a larger raw code never reads as a higher temperature, clamps included. */
  lemma CorrectedMonotone(t: seq<int>, minTemp: int, v1: int, v2: int)
    requires IsNtcTable(t) && v1 <= v2
    ensures CorrectedCelsius(t, minTemp, v2).temp <= CorrectedCelsius(t, minTemp, v1).temp
  {
    var last := |t| - 1;
    Descending(t, 0, last);
    var in1 := t[last] <= v1 <= t[0];
    var in2 := t[last] <= v2 <= t[0];
    if in1 && in2 {
      var k1, k2 := LinearBracket(t, v1, 0), LinearBracket(t, v2, 0);
      BracketOrder(t, v1, v2, k1, k2);
      if k2 == k1 {
        var g := t[k1] - t[k1 + 1];
        DivMono((t[k1] - v2) * 10, (t[k1] - v1) * 10, g);
      }
    }
  }

  /**
   * The table of fillNtcTable: slot i holds the code of temperature minTemp + i, where
   * `code` stands for the thermistor model (exp/round on doubles).
   */
  function NtcLayout(code: int -> int, minTemp: int, size: nat): (t: seq<int>)
    ensures |t| == size && forall i :: 0 <= i < size ==> t[i] == code(minTemp + i)
  {
    seq(size, i => code(minTemp + i))
  }

  /**
   * A model whose codes are uint16_t values that drop by at least 10 per degree gives a
   * table the conversion can use.
   */
  lemma LayoutIsNtcTable(code: int -> int, minTemp: int, maxTemp: int)
    requires minTemp < maxTemp
    requires forall temp :: minTemp <= temp <= maxTemp ==> 0 <= code(temp) < U16
    requires forall temp :: minTemp <= temp < maxTemp ==> code(temp + 1) + 10 <= code(temp)
    ensures IsNtcTable(NtcLayout(code, minTemp, maxTemp - minTemp + 1))
  {
    var t := NtcLayout(code, minTemp, maxTemp - minTemp + 1);
    forall i | 0 <= i < |t| - 1 ensures t[i + 1] + 10 <= t[i] {
      assert t[i] == code(minTemp + i) && t[i + 1] == code(minTemp + i + 1);
    }
  }

  /**
   * fillNtcTable: one entry per integer temperature from minTemp to maxTemp, slot i for
   * temperature minTemp + i.
   */
  method FillNtcTable(table: array<int>, minTemp: int, maxTemp: int, code: int -> int)
    requires table.Length == maxTemp - minTemp + 1
    modifies table
    ensures table[..] == NtcLayout(code, minTemp, table.Length)
  {
    var i := 0;
    var temp := minTemp;
    while temp <= maxTemp
      invariant minTemp <= temp <= maxTemp + 1 && i == temp - minTemp
      invariant forall j :: 0 <= j < i ==> table[j] == code(minTemp + j)
    {
      table[i] := code(temp);
      i := i + 1;
      temp := temp + 1;
    }
  }

  /**
   * getNtcCelsius: range checks (hot first), then bisection for the bracketing slot,
   * then the interpolated tenths.
   */
  method GetNtcCelsius(table: array<int>, minTemp: int, regVal: int) returns (status: BccStatus, temp: int)
    requires IsNtcTable(table[..]) && 0 <= regVal < U16
    ensures Reading(status, temp) == Celsius(table[..], minTemp, regVal)
  {
    var size := table.Length;
    var left := 0;
    var right := size - 1;

    if table[size - 1] > regVal {
      return ParamRange, CompTemp(minTemp, size - 1, 0);
    }
    if table[0] < regVal {
      return ParamRange, CompTemp(minTemp, 0, 0);
    }

    while left + 1 != right
      invariant 0 <= left < right <= size - 1
      invariant table[right] <= regVal
      invariant left == 0 || regVal < table[left]
      decreases right - left
    {
      var middle := (left + right) / 2;
      if table[middle] <= regVal {
        right := middle;
      } else {
        left := middle;
      }
    }

    ghost var t := table[..];
    assert Brackets(t, regVal, left);
    BracketUnique(t, regVal, left, LinearBracket(t, regVal, 0));
    var degTenths := CDiv(table[left] - regVal, CDiv(table[left] - table[left + 1], 10));
    return BccSuccess, CompTemp(minTemp, left, degTenths);
  }
}
