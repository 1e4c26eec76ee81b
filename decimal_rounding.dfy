/** Python `Decimal` values are modelled as exact reals. This module gives
    `quantize(Decimal(10) ** -places, rounding=ROUND_HALF_UP)` and `str()` of a
    non-negative quantized value. */
module DecimalRounding {
  import opened Wrappers
  import opened Text

  function Abs(x: real): real
  {
    if x < 0.0 then -x else x
  }

  function Scale(places: nat): (s: real)
    ensures s >= 1.0
  {
    Pow10(places) as real
  }

  /** `x` counted in units of `10^-places`. */
  function Scaled(x: real, places: nat): real
  {
    x * Scale(places)
  }

  /** `x` is a whole number of units of `10^-places`. */
  predicate IsQuantized(x: real, places: nat)
  {
    Scaled(x, places).Floor as real == Scaled(x, places)
  }

  /** The signed count of `10^-places` units that `ROUND_HALF_UP` keeps. */
  function Units(x: real, places: nat): int
  {
    var m := (Abs(x) * Scale(places) + 0.5).Floor;
    if x < 0.0 then -m else m
  }

  /** `x.quantize(10^-places, ROUND_HALF_UP)`: the nearest multiple of
      `10^-places`, a tie going away from zero. */
  function HalfUp(x: real, places: nat): (r: real)
    ensures IsQuantized(r, places)
    ensures x >= 0.0 ==> r >= 0.0 && Scaled(r, places) - 0.5 <= Scaled(x, places) < Scaled(r, places) + 0.5
    ensures x < 0.0 ==> r <= 0.0 && Scaled(r, places) - 0.5 < Scaled(x, places) <= Scaled(r, places) + 0.5
  {
    var u := Units(x, places);
    UnitsBounds(x, places);
    var r := u as real / Scale(places);
    assert Scaled(r, places) == u as real;
    assert Scaled(r, places).Floor == u;
    assert u >= 0 ==> r >= 0.0;
    assert u <= 0 ==> r <= 0.0;
    r
  }

  lemma {:induction false} UnitsBounds(x: real, places: nat)
    ensures x >= 0.0 ==> Units(x, places) >= 0
    ensures x >= 0.0 ==> (Units(x, places) as real) - 0.5 <= Scaled(x, places) < (Units(x, places) as real) + 0.5
    ensures x < 0.0 ==> Units(x, places) <= 0
    ensures x < 0.0 ==> (Units(x, places) as real) - 0.5 < Scaled(x, places) <= (Units(x, places) as real) + 0.5
  {
    var s := Scale(places);
    var m := (Abs(x) * s + 0.5).Floor;
    assert (m as real) <= Abs(x) * s + 0.5 < (m as real) + 1.0;
    if x < 0.0 {
      assert Abs(x) * s == -(x * s);
    } else {
      assert Abs(x) * s == x * s;
    }
  }

  /** Rounding never moves a value by more than half a unit of the last place. */
  lemma {:induction false} HalfUpError(x: real, places: nat)
    ensures Abs(Scaled(HalfUp(x, places), places) - Scaled(x, places)) <= 0.5
  {
  }

  /** A value that is already quantized is left as it is. */
  lemma {:induction false} HalfUpFixed(x: real, places: nat)
    requires IsQuantized(x, places)
    ensures HalfUp(x, places) == x
  {
    var r := HalfUp(x, places);
    assert Scaled(r, places) - 0.5 <= Scaled(x, places) <= Scaled(r, places) + 0.5;
    SameUnits(Scaled(r, places), Scaled(x, places));
    SameScaled(r, x, places);
  }

  lemma {:induction false} SameUnits(rs: real, xs: real)
    requires rs.Floor as real == rs && xs.Floor as real == xs
    requires rs - 0.5 <= xs <= rs + 0.5
    ensures rs == xs
  {
    NearIntegers(rs.Floor, xs.Floor);
  }

  lemma {:induction false} NearIntegers(j: int, k: int)
    requires (j as real) - 0.5 <= k as real <= (j as real) + 0.5
    ensures j == k
  {
  }

  lemma {:induction false} SameScaled(a: real, b: real, places: nat)
    requires Scaled(a, places) == Scaled(b, places)
    ensures a == b
  {
    var s := Scale(places);
    assert (a - b) * s == a * s - b * s == 0.0;
  }

  /** Rounding keeps the order of values: a larger value never rounds to a
      smaller result. */
  lemma {:induction false} HalfUpMonotone(x: real, y: real, places: nat)
    requires x <= y
    ensures HalfUp(x, places) <= HalfUp(y, places)
  {
    var s := Scale(places);
    assert Abs(x) * s + 0.5 <= Abs(y) * s + 0.5 || Abs(y) * s + 0.5 <= Abs(x) * s + 0.5;
    if 0.0 <= x {
      FloorMonotone(Abs(x) * s + 0.5, Abs(y) * s + 0.5);
    } else if y < 0.0 {
      FloorMonotone(Abs(y) * s + 0.5, Abs(x) * s + 0.5);
    }
    UnitsOrder(Units(x, places), Units(y, places), s);
  }

  lemma {:induction false} FloorMonotone(a: real, b: real)
    requires a <= b
    ensures a.Floor <= b.Floor
  {
  }

  lemma {:induction false} UnitsOrder(u: int, v: int, s: real)
    requires u <= v && s >= 1.0
    ensures u as real / s <= v as real / s
  {
  }

  /** The sum of two values quantized to the same place is quantized there
      too, so rounding the sum leaves it as it is. */
  lemma {:induction false} QuantizedSum(x: real, y: real, places: nat)
    requires IsQuantized(x, places) && IsQuantized(y, places)
    ensures IsQuantized(x + y, places) && IsQuantized(x - y, places)
  {
    assert Scaled(x + y, places) == Scaled(x, places) + Scaled(y, places);
    assert Scaled(x - y, places) == Scaled(x, places) - Scaled(y, places);
    WholeFloor(Scaled(x, places).Floor + Scaled(y, places).Floor);
    WholeFloor(Scaled(x, places).Floor - Scaled(y, places).Floor);
  }

  lemma {:induction false} WholeFloor(n: int)
    ensures (n as real).Floor == n
  {
  }

  /** Zero is quantized at every place. */
  lemma {:induction false} ZeroQuantized(places: nat)
    ensures IsQuantized(0.0, places)
  {
    assert Scaled(0.0, places) == 0.0;
  }

  /** `ROUND_HALF_UP` sends a tie away from zero: 0.125 becomes 0.13 and
      -0.125 becomes -0.13. */
  lemma {:induction false} HalfUpTies()
    ensures HalfUp(0.125, 2) == 0.13
    ensures HalfUp(-0.125, 2) == -0.13
    ensures HalfUp(2.5, 0) == 3.0
  {
    assert Scale(2) == 100.0;
    assert Scale(0) == 1.0;
  }

  /** Python's built-in `round(x, places)` on a float, the float taken as the
      exact value it holds: the nearest multiple of `10^-places`, a tie going
      to the even multiple. */
  function HalfEven(x: real, places: nat): (r: real)
    ensures IsQuantized(r, places)
    ensures Abs(Scaled(r, places) - Scaled(x, places)) <= 0.5
    ensures Abs(Scaled(r, places) - Scaled(x, places)) == 0.5 ==> Scaled(r, places).Floor % 2 == 0
  {
    var xs := Scaled(x, places);
    var f := xs.Floor;
    var d := xs - f as real;
    var u := if d < 0.5 then f else if d > 0.5 then f + 1 else if f % 2 == 0 then f else f + 1;
    var r := u as real / Scale(places);
    assert Scaled(r, places) == u as real;
    WholeFloor(u);
    r
  }

  /** Unlike `ROUND_HALF_UP`, `round` sends 2.5 to 2 and 3.5 to 4, and
      0.125, a tie that a binary float holds exactly, to 0.12. The last
      case is about the exact real 0.00125: the float Python reads for
      that literal lies just above it. */
  lemma {:induction false} HalfEvenTies()
    ensures HalfEven(2.5, 0) == 2.0 && HalfUp(2.5, 0) == 3.0
    ensures HalfEven(3.5, 0) == 4.0
    ensures HalfEven(0.125, 2) == 0.12
    ensures HalfEven(0.00125, 4) == 0.0012
  {
    assert Scale(0) == 1.0;
    assert Scale(2) == 100.0 by {
      assert Pow10(2) == 100;
    }
    assert Scale(4) == 10000.0 by {
      assert Pow10(4) == 10000;
    }
  }

  /** `str()` of a non-negative `Decimal` quantized to two places, for
      instance "22.75" or "0.05". */
  function Fixed2(x: real): (t: string)
    requires x >= 0.0
  {
    var n := (x * 100.0).Floor;
    NatToString(n / 100) + "." + TwoDigits(n % 100)
  }

  /** A number below 100 written with exactly two digits. */
  function TwoDigits(d: nat): (t: string)
    requires d < 100
    ensures |t| == 2 && AllDigits(t) && DigitsValue(t) == d
  {
    var t := ['0' + (d / 10) as char, '0' + (d % 10) as char];
    assert t[..1] == [t[0]];
    t
  }

  /** The value of a decimal text made of digits and at most one '.'. */
  function DecimalTextValue(t: string): (v: real)
    requires AllDigits(RemoveFirst(t, '.'))
    ensures v >= 0.0
  {
    match IndexOf(t, ".")
    case None => DigitsValue(t) as real
    case Some(i) =>
      assert t == t[..i] + "." + t[i + 1..];
      RemoveFirstAt(t, i);
      DigitsValue(t[..i]) as real + DigitsValue(t[i + 1..]) as real / Scale(|t| - i - 1)
  }

  /** Python `t.replace(c, "", 1)`. */
  function RemoveFirst(t: string, c: char): (r: string)
    ensures |r| == |t| || |r| == |t| - 1
  {
    match IndexOf(t, [c])
    case None => t
    case Some(i) => t[..i] + t[i + 1..]
  }

  lemma {:induction false} RemoveFirstAt(t: string, i: nat)
    requires IndexOf(t, ".") == Some(i)
    ensures RemoveFirst(t, '.') == t[..i] + t[i + 1..]
    ensures AllDigits(RemoveFirst(t, '.')) ==> AllDigits(t[..i]) && AllDigits(t[i + 1..])
  {
    var r := RemoveFirst(t, '.');
    if AllDigits(r) {
      forall k | 0 <= k < i ensures IsDigit(t[..i][k]) { assert t[..i][k] == r[k]; }
      var tail := t[i + 1..];
      forall k | 0 <= k < |tail| ensures IsDigit(tail[k]) { assert tail[k] == r[i + k]; }
    }
  }

  /** The first '.' of `ip + "." + rest` is the one after `ip` when `ip` has none. */
  lemma {:induction false} DotAfter(ip: string, rest: string)
    requires '.' !in ip
    ensures IndexOf(ip + "." + rest, ".") == Some(|ip|)
  {
    var t := ip + "." + rest;
    assert OccursAt(t, ".", |ip|);
    forall k: nat | k < |ip| ensures !OccursAt(t, ".", k) { assert t[k] == ip[k]; }
  }

  /** Reading back what `Fixed2` prints gives the same value. */
  lemma {:induction false} Fixed2RoundTrip(x: real)
    requires x >= 0.0 && IsQuantized(x, 2)
    ensures AllDigits(RemoveFirst(Fixed2(x), '.'))
    ensures DecimalTextValue(Fixed2(x)) == x
  {
    var n := (x * 100.0).Floor;
    assert Scale(2) == 100.0;
    assert n as real == x * 100.0 by { assert Scaled(x, 2) == x * 100.0; }
    var ip := NatToString(n / 100);
    var fp := TwoDigits(n % 100);
    var t := Fixed2(x);
    Fixed2Pieces(ip, fp, t);
    DecimalTextValueAt(t, |ip|);
    NatToStringValue(n / 100);
    FixedValue(x, n);
  }

  lemma {:induction false} Fixed2Pieces(ip: string, fp: string, t: string)
    requires AllDigits(ip) && AllDigits(fp) && t == ip + "." + fp
    ensures IndexOf(t, ".") == Some(|ip|)
    ensures RemoveFirst(t, '.') == ip + fp && AllDigits(ip + fp)
    ensures t[..|ip|] == ip && t[|ip| + 1..] == fp
  {
    assert '.' !in ip by {
      forall k | 0 <= k < |ip| ensures ip[k] != '.' { assert IsDigit(ip[k]); }
    }
    DotAfter(ip, fp);
    RemoveFirstAt(t, |ip|);
    assert t[..|ip|] == ip && t[|ip| + 1..] == fp;
  }

  lemma {:induction false} DecimalTextValueAt(t: string, i: nat)
    requires IndexOf(t, ".") == Some(i) && AllDigits(RemoveFirst(t, '.'))
    ensures AllDigits(t[..i]) && AllDigits(t[i + 1..])
    ensures DecimalTextValue(t) == DigitsValue(t[..i]) as real + DigitsValue(t[i + 1..]) as real / Scale(|t| - i - 1)
  {
    RemoveFirstAt(t, i);
  }

  lemma {:induction false} FixedValue(x: real, n: int)
    requires x >= 0.0 && n as real == x * 100.0
    ensures ((n / 100) as real) + ((n % 100) as real) / Scale(2) == x
  {
    assert Scale(2) == 100.0;
    assert (n / 100) * 100 + n % 100 == n;
  }
}
