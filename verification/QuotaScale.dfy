// Scaling the pool quotas down by a common divisor.
module QuotaScale {

  // ---------- the divisor that adjust_quota_gcd finds ----------

  // The lowest nonzero quota, 0 when there is none.
  function Lowest(quotas: seq<int>): (r: int)
    requires forall i :: 0 <= i < |quotas| ==> quotas[i] >= 0
    ensures r >= 0
    ensures r == 0 <==> forall i :: 0 <= i < |quotas| ==> quotas[i] == 0
    ensures forall i :: 0 <= i < |quotas| && quotas[i] != 0 ==> r <= quotas[i]
    ensures r != 0 ==> r in quotas
  {
    if quotas == [] then 0
    else
      var l, q := Lowest(quotas[..|quotas| - 1]), quotas[|quotas| - 1];
      if q != 0 && (l == 0 || q < l) then q else l
  }

  // The largest divisor of quota that is at most g.
  function Descend(quota: int, g: int): (r: int)
    requires g >= 1
    ensures 1 <= r <= g
  {
    if quota % g == 0 then g else Descend(quota, g - 1)
  }

  lemma {:induction false} DescendIsLargest(quota: int, g: int)
    requires g >= 1
    ensures quota % Descend(quota, g) == 0
    ensures forall d :: 1 <= d <= g && quota % d == 0 ==> d <= Descend(quota, g)
  {
    if quota % g != 0 {
      DescendIsLargest(quota, g - 1);
    }
  }

  // quota_gcd, the scaled quota.
  function Share(quota: int, gcd: int): int
    requires gcd >= 1
  {
    quota / gcd
  }

  function DescendAll(quotas: seq<int>, g: int): (r: int)
    requires g >= 1
    ensures 1 <= r <= g
  {
    if quotas == [] then g
    else
      var r, q := DescendAll(quotas[..|quotas| - 1], g), quotas[|quotas| - 1];
      if q == 0 then r else Descend(q, r)
  }

  ghost function Shares(quotas: seq<int>, gcd: int): (r: seq<int>)
    requires gcd >= 1
    ensures |r| == |quotas|
  {
    seq(|quotas|, i requires 0 <= i < |quotas| => Share(quotas[i], gcd))
  }

  lemma DescendNone(quotas: seq<int>, g: int)
    requires g >= 1
    ensures DescendAll(quotas[..0], g) == g
  {
  }

  lemma DescendAllStep(quotas: seq<int>, i: nat, g: int)
    requires g >= 1 && i < |quotas|
    ensures var r := DescendAll(quotas[..i], g);
            DescendAll(quotas[..i + 1], g) == if quotas[i] == 0 then r else Descend(quotas[i], r)
  {
    assert quotas[..i + 1][..i] == quotas[..i];
  }

  lemma LowestStep(quotas: seq<int>, i: nat)
    requires NonNegative(quotas) && i < |quotas|
    ensures var l, q := Lowest(quotas[..i]), quotas[i];
            Lowest(quotas[..i + 1]) == if q != 0 && (l == 0 || q < l) then q else l
  {
    assert quotas[..i + 1][..i] == quotas[..i];
  }

  ghost predicate NonNegative(quotas: seq<int>) {
    forall i :: 0 <= i < |quotas| ==> quotas[i] >= 0
  }

  function Divisor(quotas: seq<int>): (g: int)
    requires forall i :: 0 <= i < |quotas| ==> quotas[i] >= 0
    ensures g >= 1
    ensures forall i :: 0 <= i < |quotas| && quotas[i] != 0 ==> g <= quotas[i]
  {
    if Lowest(quotas) == 0 then 1 else DescendAll(quotas, Lowest(quotas))
  }

  // ---------- how it relates to the greatest common divisor ----------

  ghost predicate Common(quotas: seq<int>, d: int) {
    d >= 1 && forall i :: 0 <= i < |quotas| ==> quotas[i] % d == 0
  }

  ghost predicate IsGcd(quotas: seq<int>, g: int) {
    Common(quotas, g) && forall d :: Common(quotas, d) ==> d <= g
  }

  // A non-increasing choice of one divisor for each quota, starting at or below `low`.
  ghost predicate Chain(quotas: seq<int>, low: int, ds: seq<int>) {
    && |ds| == |quotas|
    && (forall i :: 0 <= i < |ds| ==> 1 <= ds[i] <= low && quotas[i] % ds[i] == 0)
    && (forall i :: 0 < i < |ds| ==> ds[i] <= ds[i - 1])
  }

  lemma {:induction false} ChainsEndBelow(quotas: seq<int>, low: int, ds: seq<int>)
    requires low >= 1 && Chain(quotas, low, ds) && quotas != []
    ensures ds[|ds| - 1] <= DescendAll(quotas, low)
  {
    var n := |quotas| - 1;
    DescendIsLargest(quotas[n], DescendAll(quotas[..n], low));
    if n > 0 {
      assert Chain(quotas[..n], low, ds[..n]);
      ChainsEndBelow(quotas[..n], low, ds[..n]);
    }
  }

  lemma {:induction false} SomeChainEndsThere(quotas: seq<int>, low: int) returns (ds: seq<int>)
    requires low >= 1
    ensures Chain(quotas, low, ds)
    ensures quotas != [] ==> ds[|ds| - 1] == DescendAll(quotas, low)
    ensures quotas == [] ==> DescendAll(quotas, low) == low
  {
    if quotas == [] {
      ds := [];
    } else {
      var n := |quotas| - 1;
      var d := DescendAll(quotas, low);
      ds := SomeChainEndsThere(quotas[..n], low);
      DescendIsLargest(quotas[n], DescendAll(quotas[..n], low));
      if quotas[n] == 0 {
        ZeroIsMultiple(d);
      }
      ds := ds + [d];
    }
  }

  lemma ZeroIsMultiple(d: int)
    requires d >= 1
    ensures 0 % d == 0
  {
  }

  // The divisor found is the largest end of a non-increasing chain of divisors of the quotas in pool order.
  lemma DivisorIsBestChainEnd(quotas: seq<int>)
    requires NonNegative(quotas) && Lowest(quotas) != 0
    ensures exists ds :: Chain(quotas, Lowest(quotas), ds) && ds[|ds| - 1] == Divisor(quotas)
    ensures forall ds :: Chain(quotas, Lowest(quotas), ds) ==> ds[|ds| - 1] <= Divisor(quotas)
  {
    var low := Lowest(quotas);
    var best := SomeChainEndsThere(quotas, low);
    forall ds | Chain(quotas, low, ds)
      ensures ds[|ds| - 1] <= Divisor(quotas)
    {
      ChainsEndBelow(quotas, low, ds);
    }
  }

  // No common divisor is larger, so the divisor found is never below the greatest common one.
  lemma DivisorAtLeastCommon(quotas: seq<int>, d: int)
    requires NonNegative(quotas) && Lowest(quotas) != 0 && Common(quotas, d)
    ensures d <= Divisor(quotas)
  {
    var low := Lowest(quotas);
    var i :| 0 <= i < |quotas| && quotas[i] == low;
    assert quotas[i] % d == 0;
    DivisorAtMost(low, d);
    ChainsEndBelow(quotas, low, seq(|quotas|, _ => d));
  }

  lemma DivisorAtMost(q: int, d: int)
    requires q > 0 && d >= 1 && q % d == 0
    ensures d <= q
  {
    assert q == (q / d) * d;
    MulMonotone(1, q / d, d);
    MulMonotone(q / d, 0, d);
  }

  // A share is the quota in units of the divisor, less than one unit short, and exact for a multiple of it.
  lemma ShareBounds(quota: int, gcd: int)
    requires gcd >= 1
    ensures Share(quota, gcd) * gcd <= quota < Share(quota, gcd) * gcd + gcd
    ensures Share(quota, gcd) * gcd == quota <==> quota % gcd == 0
  {
    assert quota == quota / gcd * gcd + quota % gcd;
  }

  // All shares are exact exactly when the divisor is a common one.
  lemma SharesExactIff(quotas: seq<int>, gcd: int)
    requires gcd >= 1
    ensures (forall i :: 0 <= i < |quotas| ==> Shares(quotas, gcd)[i] * gcd == quotas[i]) <==> Common(quotas, gcd)
  {
    hide Share;
    forall i | 0 <= i < |quotas|
      ensures Shares(quotas, gcd)[i] * gcd == quotas[i] <==> quotas[i] % gcd == 0
    {
      ShareBounds(quotas[i], gcd);
    }
  }

  // Every pool with a quota keeps a share, and shares keep the order of the quotas.
  lemma SharesSurvive(quotas: seq<int>, i: nat, j: nat)
    requires NonNegative(quotas) && i < |quotas| && j < |quotas|
    ensures Share(quotas[i], Divisor(quotas)) >= 1 <==> quotas[i] != 0
    ensures quotas[i] <= quotas[j] ==> Share(quotas[i], Divisor(quotas)) <= Share(quotas[j], Divisor(quotas))
  {
    hide Divisor;
    var g := Divisor(quotas);
    DivisorInRange(quotas, i);
    QuotientUnique(g, g, 1, 0);
    QuotientUnique(0, g, 0, 0);
    if quotas[i] != 0 {
      DivisionMonotone(g, quotas[i], g);
    }
    if quotas[i] <= quotas[j] {
      DivisionMonotone(quotas[i], quotas[j], g);
    }
  }

  lemma DivisorInRange(quotas: seq<int>, i: nat)
    requires NonNegative(quotas) && i < |quotas|
    ensures 1 <= Divisor(quotas) && (quotas[i] != 0 ==> Divisor(quotas) <= quotas[i])
  {
  }

  // It is the greatest common divisor exactly when no chain of divisors ends above that.
  lemma GcdFoundIff(quotas: seq<int>, gcd: int)
    requires NonNegative(quotas) && Lowest(quotas) != 0 && IsGcd(quotas, gcd)
    ensures Divisor(quotas) == gcd <==> forall ds :: Chain(quotas, Lowest(quotas), ds) ==> ds[|ds| - 1] <= gcd
    ensures Divisor(quotas) == gcd <==> forall i :: 0 <= i < |quotas| ==> quotas[i] % Divisor(quotas) == 0
  {
    DivisorIsBestChainEnd(quotas);
    DivisorAtLeastCommon(quotas, gcd);
    if forall i :: 0 <= i < |quotas| ==> quotas[i] % Divisor(quotas) == 0 {
      assert Common(quotas, Divisor(quotas));
    }
  }

  // Quotas 9 and 8, in this order: the divisor is 2 although only 1 divides both.
  lemma NineEight()
    ensures Divisor([9, 8]) == 2 && IsGcd([9, 8], 1)
  {
    var s := [9, 8];
    assert s[..1] == [9] && s[..1][..0] == [];
    assert Lowest([9]) == 9 && Lowest(s) == 8;
    assert DescendAll([9], 8) == Descend(9, 8) == 3;
    assert DescendAll(s, 8) == Descend(8, 3) == 2;
    forall d | Common(s, d)
      ensures d <= 1
    {
      assert s[0] % d == 0 && s[1] % d == 0;
      DivisorAtMost(8, d);
      assert d == 1 || d == 2 || d == 3 || d == 4 || d == 5 || d == 6 || d == 7 || d == 8;
    }
    assert s[0] % 1 == 0 && s[1] % 1 == 0;
  }

  // ---------- rescaling the use counters ----------

  const TWO32: int := 0x1_0000_0000
  const TWO64: int := 0x1_0000_0000_0000_0000

  // Conversions between int (32 bits) and unsigned long (64 bits).
  function ToUlong(x: int): int {
    x % TWO64
  }

  function ToInt(x: int): int {
    if x % TWO32 >= 0x8000_0000 then x % TWO32 - TWO32 else x % TWO32
  }

  predicate IsInt(x: int) {
    -0x8000_0000 <= x < 0x8000_0000
  }

  // quota_used *= global_quota_gcd; quota_used /= gcd.
  function Rescaled(used: int, oldGcd: int, gcd: int): int
    requires gcd >= 1
  {
    var scaled := ToInt(ToUlong(ToUlong(used) * oldGcd));
    ToInt(ToUlong(scaled) / gcd)
  }

  ghost function RescaledAll(used: seq<int>, oldGcd: int, gcd: int): (r: seq<int>)
    requires gcd >= 1
    ensures |r| == |used|
  {
    seq(|used|, i requires 0 <= i < |used| => Rescaled(used[i], oldGcd, gcd))
  }

  lemma MulMonotone(a: int, b: int, m: int)
    requires m >= 1
    ensures a <= b ==> a * m <= b * m
    ensures a > b ==> a * m >= b * m + m
  {
    MulAtLeast(b - a, m);
    assert b * m == a * m + (b - a) * m;
  }

  // Multiplying by m >= 1 does not shrink.
  lemma MulAtLeast(a: int, m: int)
    requires m >= 1
    ensures a >= 0 ==> a * m >= a && (a >= 1 ==> a * m >= m)
    ensures a <= 0 ==> a * m <= a && (a <= -1 ==> a * m <= -m)
  {
  }

  lemma QuotientUnique(x: int, m: int, q: int, r: int)
    requires m > 0 && x == q * m + r && 0 <= r < m
    ensures x / m == q && x % m == r
  {
    assert x == (x / m) * m + x % m;
    MulMonotone(x / m, q, m);
    MulMonotone(q, x / m, m);
  }

  lemma ModuloShift(x: int, k: int, m: int)
    requires m > 0
    ensures (x + k * m) % m == x % m
  {
    assert x + k * m == (x / m + k) * m + x % m;
    QuotientUnique(x + k * m, m, x / m + k, x % m);
  }

  lemma DivisionMonotone(a: int, b: int, m: int)
    requires a <= b && m >= 1
    ensures a / m <= b / m
  {
    MulMonotone(a / m, b / m, m);
  }

  // ToUlong then ToInt is ToInt: 2^32 divides 2^64.
  lemma LowWord(x: int, k: int)
    ensures ToInt(ToUlong(x + k * TWO64)) == ToInt(x)
  {
    ModuloShift(x, k, TWO64);
    var t := x / TWO64;
    assert x % TWO64 == x - t * TWO64;
    assert x - t * TWO64 == x + (-t * TWO32) * TWO32;
    ModuloShift(x, -t * TWO32, TWO32);
  }

  // The product, as the int it is stored in.
  lemma ScaledValue(used: int, oldGcd: int)
    requires IsInt(used)
    ensures ToInt(ToUlong(ToUlong(used) * oldGcd)) == ToInt(used * oldGcd)
  {
    hide ToInt;
    if used < 0 {
      assert ToUlong(used) == used + TWO64;
      Distribute(used, TWO64, oldGcd);
      LowWord(used * oldGcd, oldGcd);
    } else {
      LowWord(used * oldGcd, 0);
    }
  }

  // How many units of 2^32 the two conversions add to the product before it is divided.
  function Words(x: int): int {
    if x % TWO32 >= 0x8000_0000 then TWO32 - 1 - x / TWO32 else -(x / TWO32)
  }

  lemma WordsAdded(x: int)
    ensures ToUlong(ToInt(x)) == x + Words(x) * TWO32
  {
  }

  lemma QuotientBounds(x: int, m: int)
    requires m >= 1
    ensures (x / m) * m <= x < (x / m) * m + m
  {
  }

  // Main result on rescaling: a counter keeps its value to within one new unit exactly when the quotient
  // fits an int and the new divisor divides the number of units of 2^32 that the conversions add.
  lemma RescaledKeepsValueIff(used: int, oldGcd: int, gcd: int)
    requires IsInt(used) && oldGcd >= 1 && 1 <= gcd < 0x8000_0000
    ensures var x, r := used * oldGcd, Rescaled(used, oldGcd, gcd);
            r * gcd <= x < r * gcd + gcd <==> IsInt(x / gcd) && Words(x) % gcd == 0
  {
    var x := used * oldGcd;
    ScaledValue(used, oldGcd);
    WordsAdded(x);
    var r := ToInt((x + Words(x) * TWO32) / gcd);
    hide ToInt;
    if r * gcd <= x < r * gcd + gcd {
      QuotientUnique(x, gcd, r, x - r * gcd);
      KeptDivides(x, Words(x), gcd);
    }
    if IsInt(x / gcd) && Words(x) % gcd == 0 {
      DividesKeeps(x, Words(x), gcd);
    }
  }

  lemma KeptDivides(x: int, d: int, gcd: int)
    requires 1 <= gcd < 0x8000_0000 && ToInt((x + d * TWO32) / gcd) == x / gcd
    ensures d % gcd == 0 && IsInt(x / gcd)
  {
    var u := x + d * TWO32;
    var q, f := u / gcd, x / gcd;
    var t := ToIntCarry(q);
    Distribute(t * TWO32, f, gcd);
    Swap(t, TWO32, gcd);
    QuotientBounds(u, gcd);
    QuotientBounds(x, gcd);
    var e := (t * gcd) * TWO32;
    assert q * gcd == e + f * gcd;
    assert -gcd < d * TWO32 - e < gcd;
    WholeUnits(d, t * gcd);
    QuotientUnique(d, gcd, t, 0);
  }

  lemma WholeUnits(a: int, b: int)
    requires -TWO32 < a * TWO32 - b * TWO32 < TWO32
    ensures a == b
  {
  }

  lemma DividesKeeps(x: int, d: int, gcd: int)
    requires 1 <= gcd && d % gcd == 0 && IsInt(x / gcd)
    ensures var r := ToInt((x + d * TWO32) / gcd); r * gcd <= x < r * gcd + gcd
  {
    var w, f := d / gcd, x / gcd;
    QuotientBounds(x, gcd);
    Distribute(w * TWO32, f, gcd);
    Swap(w, TWO32, gcd);
    assert d == w * gcd;
    QuotientUnique(x + d * TWO32, gcd, w * TWO32 + f, x - f * gcd);
    ToIntShift(w, f);
  }

  // A counter that is not negative, and whose product fits, keeps its value.
  lemma RescaledKeepsValue(used: int, oldGcd: int, gcd: int)
    requires 0 <= used && oldGcd >= 1 && 1 <= gcd < 0x8000_0000 && IsInt(used) && IsInt(used * oldGcd)
    ensures var r := Rescaled(used, oldGcd, gcd);
            0 <= r && r == (used * oldGcd) / gcd && r * gcd <= used * oldGcd < r * gcd + gcd
  {
    var x := used * oldGcd;
    hide Rescaled;
    MulMonotone(0, used, oldGcd);
    RescaledKeepsValueIff(used, oldGcd, gcd);
    QuotientUnique(0, gcd, 0, 0);
    DivisionMonotone(0, x, gcd);
    QuotientAtMost(x, gcd);
    var r := Rescaled(used, oldGcd, gcd);
    QuotientUnique(x, gcd, r, x - r * gcd);
  }

  // A pool that had not used up its share before the rescaling has not overdrawn it afterwards.
  lemma RescaledKeepsShare(used: int, oldGcd: int, gcd: int, quota: int)
    requires 0 <= used && oldGcd >= 1 && 1 <= gcd < 0x8000_0000 && IsInt(used) && IsInt(used * oldGcd)
    requires 0 <= quota && used <= quota / oldGcd
    ensures Rescaled(used, oldGcd, gcd) <= quota / gcd
  {
    RescaledKeepsValue(used, oldGcd, gcd);
    hide Rescaled;
    ShareBound(used, oldGcd, quota);
    DivisionMonotone(used * oldGcd, quota, gcd);
  }

  lemma ShareBound(used: int, oldGcd: int, quota: int)
    requires oldGcd >= 1 && used <= quota / oldGcd
    ensures used * oldGcd <= quota
  {
    MulMonotone(used, quota / oldGcd, oldGcd);
    QuotientBounds(quota, oldGcd);
  }

  // One discarded work at the wrong moment blocks a pool: -1 becomes 1431655765 when the divisor goes from
  // 1 to 3.
  lemma NegativeCounterJumps()
    ensures Rescaled(-1, 1, 3) == 1431655765
  {
    ScaledValue(-1, 1);
  }

  lemma QuotientAtMost(x: int, m: int)
    requires x >= 0 && m >= 1
    ensures x / m <= x
  {
    MulAtLeast(x / m, m);
  }

  // discard_work can leave a counter negative.  Then, because it is divided as an unsigned number, it keeps
  // its value to within one new unit if and only if the new divisor divides 2^32.
  lemma NegativeRescaledIff(used: int, oldGcd: int, gcd: int)
    requires used < 0 && oldGcd >= 1 && 1 <= gcd < 0x8000_0000 && IsInt(used) && IsInt(used * oldGcd)
    ensures var r := Rescaled(used, oldGcd, gcd);
            r * gcd <= used * oldGcd < r * gcd + gcd <==> TWO32 % gcd == 0
  {
    hide Rescaled;
    var x := used * oldGcd;
    MulMonotone(used, -1, oldGcd);
    RescaledKeepsValueIff(used, oldGcd, gcd);
    QuotientRange(x, gcd);
    QuotientUnique(x, TWO32, -1, x + TWO32);
  }

  lemma ToIntCarry(q: int) returns (t: int)
    ensures q == t * TWO32 + ToInt(q)
  {
    t := if q % TWO32 >= 0x8000_0000 then q / TWO32 + 1 else q / TWO32;
  }

  lemma Distribute(a: int, b: int, m: int)
    ensures (a + b) * m == a * m + b * m
  {
  }

  lemma Swap(a: int, b: int, c: int)
    ensures (a * b) * c == (a * c) * b
  {
  }

  lemma ToIntShift(u: int, f: int)
    requires IsInt(f)
    ensures ToInt(u * TWO32 + f) == f
  {
    ModuloShift(f, u, TWO32);
  }

  lemma QuotientRange(x: int, gcd: int)
    requires -0x8000_0000 <= x < 0 && 1 <= gcd
    ensures x <= x / gcd < 0
  {
    DivisionMonotone(x, -1, gcd);
    QuotientUnique(-1, gcd, -1, gcd - 1);
    MulAtLeast(x / gcd + 1, gcd);
    QuotientBounds(x, gcd);
    Distribute(x / gcd, 1, gcd);
  }
}
