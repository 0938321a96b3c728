/**
 The bucket size of fine-grained ECMP: for every bank the least common multiple of the numbers up to
 its count, summed over the banks
 (src/sonic-config-engine/minigraph.py, lines 127-150). Division is exact integer division.
 */
module EcmpBuckets {
  import opened Powers

  // ----- divisibility -----

  predicate Divides(d: nat, n: int)
    requires 0 < d
  {
    n % d == 0
  }

  lemma Quotient(d: nat, n: int)
    requires 0 < d && Divides(d, n)
    ensures n == d * (n / d)
  {
  }

  lemma AtLeast(d: nat, j: int)
    requires 0 < d
    ensures 1 <= j ==> d <= d * j
    ensures j <= -1 ==> d * j <= 0 - d
    ensures j == 0 ==> d * j == 0
  {
    if 1 <= j {
      assert 0 <= d * (j - 1);
    }
    if j <= -1 {
      assert 0 <= d * (-1 - j);
    }
  }

  lemma Multiple(d: nat, k: int)
    requires 0 < d
    ensures Divides(d, d * k) && d * k / d == k
  {
    var n := d * k;
    var j := k - n / d;
    assert d * j == n % d by {
      assert n == d * (n / d) + n % d;
      assert d * j == d * k - d * (n / d);
    }
    AtLeast(d, j);
  }

  // Whatever divides two numbers divides their combinations.
  lemma Combination(d: nat, x: int, y: int, u: int, v: int)
    requires 0 < d && Divides(d, x) && Divides(d, y)
    ensures Divides(d, u * x + v * y)
  {
    Quotient(d, x);
    Quotient(d, y);
    var a, b := x / d, y / d;
    assert u * x + v * y == d * (u * a + v * b) by {
      assert u * (d * a) == d * (u * a);
      assert v * (d * b) == d * (v * b);
    }
    Multiple(d, u * a + v * b);
  }

  // ----- the greatest common divisor -----

  function Gcd(x: nat, y: nat): nat
    decreases y
  {
    if y == 0 then x else Gcd(y, x % y)
  }

  // The result of Euclid's algorithm is a combination of the two numbers.
  lemma {:induction false} Bezout(x: nat, y: nat) returns (u: int, v: int)
    ensures Gcd(x, y) == u * x + v * y
    decreases y
  {
    if y == 0 {
      u, v := 1, 0;
    } else {
      var q, r := x / y, x % y;
      var u', v' := Bezout(y, r);
      u, v := v', u' - v' * q;
      assert x == y * q + r;
      BezoutStep(x, y, q, r, u', v');
    }
  }

  lemma BezoutStep(x: int, y: int, q: int, r: int, u: int, v: int)
    requires x == y * q + r
    ensures v * x + (u - v * q) * y == u * y + v * r
  {
    assert v * x == v * (y * q) + v * r;
    assert (u - v * q) * y == u * y - (v * q) * y;
    assert v * (y * q) == (v * q) * y;
  }

  lemma {:induction false} GcdDivides(x: nat, y: nat)
    requires 0 < x || 0 < y
    ensures 0 < Gcd(x, y) && Divides(Gcd(x, y), x) && Divides(Gcd(x, y), y)
    decreases y
  {
    if y == 0 {
      Multiple(x, 1);
      Multiple(x, 0);
    } else {
      var q, r := x / y, x % y;
      GcdDivides(y, r);
      assert x == q * y + 1 * r;
      Combination(Gcd(y, r), y, r, q, 1);
    }
  }

  // It divides both numbers, and every common divisor divides it.
  lemma GcdIsGreatest(x: nat, y: nat, d: nat)
    requires (0 < x || 0 < y) && 0 < d && Divides(d, x) && Divides(d, y)
    ensures Divides(d, Gcd(x, y)) && d <= Gcd(x, y)
  {
    var u, v := Bezout(x, y);
    Combination(d, x, y, u, v);
    GcdDivides(x, y);
    Quotient(d, Gcd(x, y));
    var k := Gcd(x, y) / d;
    AtLeast(d, k);
  }

  // `calculate_gcd`.
  method CalculateGcd(x0: nat, y0: nat) returns (g: nat)
    ensures g == Gcd(x0, y0)
  {
    var x, y := x0, y0;
    while y != 0
      invariant Gcd(x, y) == Gcd(x0, y0)
      decreases y
    {
      x, y := y, x % y;
    }
    g := x;
  }

  // ----- the least common multiple of 1 to n -----

  function Lcm(n: nat): (r: nat)
    ensures 0 < r
  {
    if n <= 1 then 1
    else
      var l := Lcm(n - 1);
      LcmPositive(l, n);
      l * n / Gcd(l, n)
  }

  lemma LcmPositive(l: nat, n: nat)
    requires 0 < l && 0 < n
    ensures 0 < Gcd(l, n) && 0 < l * n / Gcd(l, n)
  {
    GcdDivides(l, n);
    var g := Gcd(l, n);
    LcmFactors(l, n);
    Quotient(g, n);
    AtLeast(g, n / g);
    assert 0 < l * (n / g);
  }

  // The quotient in both readings.
  lemma LcmFactors(l: nat, n: nat)
    requires 0 < l && 0 < n && 0 < Gcd(l, n) && Divides(Gcd(l, n), l) && Divides(Gcd(l, n), n)
    ensures var g := Gcd(l, n); l * n / g == l * (n / g) && l * n / g == n * (l / g) && l * n == g * (l * n / g)
  {
    var g := Gcd(l, n);
    Quotient(g, l);
    Quotient(g, n);
    ProductOver(g, l, n, n / g);
    ProductOver(g, n, l, l / g);
    assert l * n == n * l;
  }

  lemma ProductOver(g: nat, a: int, b: int, k: int)
    requires 0 < g && b == g * k
    ensures a * b == g * (a * k) && a * b / g == a * k
  {
    assert a * (g * k) == g * (a * k);
    Multiple(g, a * k);
  }

  // The step from one number to two: a common multiple of both, dividing every other.
  lemma LcmStep(l: nat, n: nat)
    requires 0 < l && 0 < n
    ensures 0 < Gcd(l, n) && var m := l * n / Gcd(l, n); 0 < m && Divides(l, m) && Divides(n, m)
  {
    GcdDivides(l, n);
    LcmPositive(l, n);
    LcmFactors(l, n);
    Multiple(l, n / Gcd(l, n));
    Multiple(n, l / Gcd(l, n));
  }

  lemma LcmLeast(l: nat, n: nat, m: int)
    requires 0 < l && 0 < n && Divides(l, m) && Divides(n, m)
    ensures 0 < Gcd(l, n) && 0 < l * n / Gcd(l, n) && Divides(l * n / Gcd(l, n), m)
  {
    GcdDivides(l, n);
    LcmPositive(l, n);
    LcmFactors(l, n);
    var g := Gcd(l, n);
    var c := l * n / g;
    var u, v := Bezout(l, n);
    Quotient(l, m);
    Quotient(n, m);
    var s, t := m / l, m / n;
    var k := u * t + v * s;
    Cancel(g, c, m, l, n, u, v, s, t);
    Multiple(c, k);
  }

  // m is a multiple of l and of n, and g their combination, so m is a multiple of l * n / g.
  lemma Cancel(g: nat, c: nat, m: int, l: nat, n: nat, u: int, v: int, s: int, t: int)
    requires 0 < g && g == u * l + v * n && l * n == g * c && m == l * s && m == n * t
    ensures m == c * (u * t + v * s)
  {
    var k := u * t + v * s;
    assert g * m == (u * l) * m + (v * n) * m by {
      assert (u * l + v * n) * m == (u * l) * m + (v * n) * m;
    }
    assert (u * l) * m == (l * n) * (u * t) by {
      assert (u * l) * (n * t) == (l * n) * (u * t);
    }
    assert (v * n) * m == (l * n) * (v * s) by {
      assert (v * n) * (l * s) == (l * n) * (v * s);
    }
    assert g * m == (l * n) * k by {
      assert (l * n) * (u * t) + (l * n) * (v * s) == (l * n) * (u * t + v * s);
    }
    assert g * m == g * (c * k) by {
      assert (g * c) * k == g * (c * k);
    }
    SameFactor(g, m, c * k);
  }

  lemma SameFactor(g: nat, a: int, b: int)
    requires 0 < g && g * a == g * b
    ensures a == b
  {
    assert g * (a - b) == 0;
    AtLeast(g, a - b);
  }

  lemma DividesThrough(d: nat, e: nat, n: int)
    requires 0 < d && 0 < e && Divides(d, e) && Divides(e, n)
    ensures Divides(d, n)
  {
    Quotient(e, n);
    Combination(d, e, e, n / e, 0);
    assert (n / e) * e + 0 * e == n;
  }

  // It is a multiple of every number up to n, and divides every such multiple.
  lemma {:induction false} LcmIsMultiple(n: nat, i: nat)
    requires 1 <= i <= n
    ensures Divides(i, Lcm(n))
  {
    if n == 1 {
      Multiple(1, 1);
    } else {
      LcmStep(Lcm(n - 1), n);
      if i < n {
        LcmIsMultiple(n - 1, i);
        DividesThrough(i, Lcm(n - 1), Lcm(n));
      }
    }
  }

  lemma {:induction false} LcmIsLeast(n: nat, m: int)
    requires forall i :: 1 <= i <= n ==> Divides(i, m)
    ensures Divides(Lcm(n), m)
  {
    if n <= 1 {
      Multiple(1, m);
    } else {
      LcmIsLeast(n - 1, m);
      assert Divides(n, m);
      LcmLeast(Lcm(n - 1), n, m);
    }
  }

  // The inner loop of `calculate_lcm_for_ecmp`.
  method LcmUpTo(n: nat) returns (lcm: nat)
    ensures lcm == Lcm(n)
  {
    lcm := 1;
    var i := 2;
    while i <= n
      invariant 2 <= i && (i <= n + 1 || i == 2) && lcm == Lcm(i - 1)
    {
      LcmPositive(lcm, i);
      var g := CalculateGcd(lcm, i);
      lcm := lcm * i / g;
      i := i + 1;
    }
  }

  // ----- the banks -----

  // How often a bank occurs.
  function Count(banks: seq<int>, b: int): nat {
    if banks == [] then 0 else Count(banks[..|banks| - 1], b) + if banks[|banks| - 1] == b then 1 else 0
  }

  // What the two counting loops leave for a bank: a next hop is counted once for every device of its
  // bank.
  function Enumerated(devices: seq<int>, hops: seq<int>, b: int): nat {
    Count(devices, b) * Count(hops, b)
  }

  // The count of a bank when some devices are done, and one more has seen some next hops.
  function Seen(devices: seq<int>, hops: seq<int>, value: int, seen: seq<int>, b: int): nat {
    Enumerated(devices, hops, b) + if b == value then Count(seen, b) else 0
  }

  ghost predicate Holds(banks: map<int, nat>, order: seq<int>, devices: seq<int>, hops: seq<int>, value: int,
                        seen: seq<int>) {
    && (forall b :: b in banks <==> 0 < Seen(devices, hops, value, seen, b))
    && (forall b :: b in banks ==> banks[b] == Seen(devices, hops, value, seen, b))
    && (forall b :: b in order <==> b in banks)
    && (forall i, j :: 0 <= i < j < |order| ==> order[i] != order[j])
  }

  // One next hop.
  method CountHop(value: int, hop: int, banks0: map<int, nat>, order0: seq<int>, ghost devices: seq<int>,
                  ghost hops: seq<int>, ghost seen: seq<int>)
    returns (banks: map<int, nat>, order: seq<int>)
    requires Holds(banks0, order0, devices, hops, value, seen)
    ensures Holds(banks, order, devices, hops, value, seen + [hop])
  {
    assert (seen + [hop])[..|seen|] == seen;
    banks, order := banks0, order0;
    if hop == value {
      if value !in banks {
        banks := banks[value := 1];
        order := order + [value];
      } else {
        banks := banks[value := banks[value] + 1];
      }
    }
  }

  // One device's turn of the counting loop.
  method CountHops(value: int, hops: seq<int>, banks0: map<int, nat>, order0: seq<int>, ghost devices: seq<int>,
                   ghost any: int)
    returns (banks: map<int, nat>, order: seq<int>)
    requires Holds(banks0, order0, devices, hops, any, [])
    ensures Holds(banks, order, devices + [value], hops, any, [])
  {
    banks, order := banks0, order0;
    var i := 0;
    assert hops[..0] == [];
    while i < |hops|
      invariant 0 <= i <= |hops| && Holds(banks, order, devices, hops, value, hops[..i])
    {
      assert hops[..i + 1] == hops[..i] + [hops[i]];
      banks, order := CountHop(value, hops[i], banks, order, devices, hops, hops[..i]);
      i := i + 1;
    }
    assert hops[..i] == hops;
    forall b ensures Seen(devices, hops, value, hops, b) == Seen(devices + [value], hops, any, [], b) {
      EnumeratedMore(devices, value, hops, b);
    }
    SameHolds(banks, order, devices, hops, value, any);
  }

  lemma EnumeratedMore(devices: seq<int>, value: int, hops: seq<int>, b: int)
    ensures Enumerated(devices + [value], hops, b) == Enumerated(devices, hops, b)
                                                      + if b == value then Count(hops, b) else 0
  {
    assert (devices + [value])[..|devices|] == devices;
    var c, h := Count(devices, b), Count(hops, b);
    assert (c + 1) * h == c * h + h;
  }

  lemma SameHolds(banks: map<int, nat>, order: seq<int>, devices: seq<int>, hops: seq<int>, value: int, any: int)
    requires Holds(banks, order, devices, hops, value, hops)
    requires forall b :: Seen(devices, hops, value, hops, b) == Seen(devices + [value], hops, any, [], b)
    ensures Holds(banks, order, devices + [value], hops, any, [])
  {
  }

  function SumLcm(order: seq<int>, devices: seq<int>, hops: seq<int>): nat {
    if order == [] then 0
    else SumLcm(order[..|order| - 1], devices, hops) + Lcm(Enumerated(devices, hops, order[|order| - 1]))
  }

  // Each bank that has both a device and a next hop, once.
  ghost predicate BanksOf(order: seq<int>, devices: seq<int>, hops: seq<int>) {
    && (forall i, j :: 0 <= i < j < |order| ==> order[i] != order[j])
    && forall b :: b in order <==> b in devices && b in hops
  }

  // `calculate_lcm_for_ecmp`: the sum over the banks of the least common multiple of 1 to the count,
  // which is the number of next hops of the bank exactly when no bank has two devices.
  method CalculateLcmForEcmp(devices: seq<int>, hops: seq<int>) returns (lcm: nat, order: seq<int>)
    ensures BanksOf(order, devices, hops) && lcm == SumLcm(order, devices, hops)
    ensures lcm == SumHops(order, hops) <==> AllOnce(order, devices)
  {
    var banks: map<int, nat> := map[];
    order := [];
    var i := 0;
    while i < |devices|
      invariant 0 <= i <= |devices| && Holds(banks, order, devices[..i], hops, 0, [])
    {
      assert devices[..i + 1] == devices[..i] + [devices[i]];
      banks, order := CountHops(devices[i], hops, banks, order, devices[..i], 0);
      i := i + 1;
    }
    assert devices[..i] == devices;
    forall b ensures b in order <==> b in devices && b in hops {
      CountPositive(devices, b);
      CountPositive(hops, b);
      BothPositive(Count(devices, b), Count(hops, b));
    }
    lcm := 0;
    i := 0;
    while i < |order|
      invariant 0 <= i <= |order| && lcm == SumLcm(order[..i], devices, hops)
    {
      assert order[..i + 1][..i] == order[..i];
      var one := LcmUpTo(banks[order[i]]);
      lcm := lcm + one;
      i := i + 1;
    }
    assert order[..i] == order;
    BucketAsMeant(order, devices, hops);
  }

  lemma {:induction false} CountPositive(banks: seq<int>, b: int)
    ensures 0 < Count(banks, b) <==> b in banks
  {
    if banks != [] {
      CountPositive(banks[..|banks| - 1], b);
      assert banks == banks[..|banks| - 1] + [banks[|banks| - 1]];
    }
  }

  lemma BothPositive(a: nat, b: nat)
    ensures 0 < a * b <==> 0 < a && 0 < b
  {
  }

  // ----- when the bucket size is the one meant -----

  // The bucket size meant: the least common multiple of 1 to the number of next hops of each bank.
  function SumHops(order: seq<int>, hops: seq<int>): nat {
    if order == [] then 0 else SumHops(order[..|order| - 1], hops) + Lcm(Count(hops, order[|order| - 1]))
  }

  // There is a power of two above n and not above 2n.
  lemma {:induction false} PowerAbove(n: nat) returns (k: nat)
    requires 1 <= n
    ensures n < Pow2(k) <= 2 * n
    decreases n
  {
    if n == 1 {
      k := 1;
      assert Pow2(1) == 2 * Pow2(0);
    } else {
      k := PowerAbove(n / 2);
      k := k + 1;
      if Pow2(k) > 2 * n {
        k := k - 1;
      }
    }
  }

  lemma Halve(d: nat, n: int)
    requires 0 < d && Divides(2 * d, 2 * n)
    ensures Divides(d, n)
  {
    Quotient(2 * d, 2 * n);
    var q := 2 * n / (2 * d);
    assert (2 * d) * q == 2 * (d * q);
    Multiple(d, q);
  }

  lemma Double(d: nat, n: int)
    requires 0 < d && Divides(d, n)
    ensures Divides(2 * d, 2 * n)
  {
    Quotient(d, n);
    assert 2 * (d * (n / d)) == (2 * d) * (n / d);
    Multiple(2 * d, n / d);
  }

  // A multiple of a power of two above i that i divides is a multiple of 2i.
  lemma {:induction false} TwiceDivides(i: nat, k: nat, l: int)
    requires 1 <= i < Pow2(k) && Divides(Pow2(k), l) && Divides(i, l)
    ensures Divides(2 * i, l)
    decreases k
  {
    assert k != 0 && Pow2(k) == 2 * Pow2(k - 1);
    Multiple(2, Pow2(k - 1));
    DividesThrough(2, Pow2(k), l);
    Quotient(2, l);
    if i % 2 == 0 {
      Halve(Pow2(k - 1), l / 2);
      Halve(i / 2, l / 2);
      TwiceDivides(i / 2, k - 1, l / 2);
      Double(2 * (i / 2), l / 2);
    } else {
      Quotient(i, l);
      OddFactor(i, l / i);
      assert i * (2 * (l / i / 2)) == (2 * i) * (l / i / 2);
      Multiple(2 * i, l / i / 2);
    }
  }

  // An even product with an odd factor has an even one.
  lemma OddFactor(i: nat, m: int)
    requires i % 2 == 1 && (i * m) % 2 == 0
    ensures m == 2 * (m / 2)
  {
    OddTimes(i, m, i / 2, i * m, i * m / 2);
  }

  lemma OddTimes(i: nat, m: int, h: nat, x: int, k: int)
    requires i == 2 * h + 1 && x == i * m && x == 2 * k
    ensures m == 2 * (m / 2)
  {
    assert x == 2 * (h * m) + m;
    Even(m, k - h * m);
  }

  lemma Even(m: int, q: int)
    requires m == 2 * q
    ensures m == 2 * (m / 2)
  {
  }

  lemma DivisorAtMost(d: nat, n: nat)
    requires 0 < d && 0 < n && Divides(d, n)
    ensures d <= n
  {
    Quotient(d, n);
    AtLeast(d, n / d);
  }

  lemma LcmMonotone(m: nat, n: nat)
    requires m <= n
    ensures Lcm(m) <= Lcm(n)
  {
    forall i | 1 <= i <= m ensures Divides(i, Lcm(n)) {
      LcmIsMultiple(n, i);
    }
    LcmIsLeast(m, Lcm(n));
    DivisorAtMost(Lcm(m), Lcm(n));
  }

  // The least common multiple of 1 to n is not a multiple of a power of two above n.
  lemma NoPowerDivides(n: nat, k: nat)
    requires 1 <= n < Pow2(k)
    ensures !Divides(Pow2(k), Lcm(n))
  {
    var l := Lcm(n);
    if Divides(Pow2(k), l) {
      forall i | 1 <= i <= n ensures Divides(i, l / 2) {
        HalfIsMultiple(n, k, i);
      }
      TwiceDivides(1, k, l);
      LcmIsLeast(n, l / 2);
      DivisorAtMost(l, l / 2);
    }
  }

  lemma HalfIsMultiple(n: nat, k: nat, i: nat)
    requires 1 <= i <= n < Pow2(k) && Divides(Pow2(k), Lcm(n))
    ensures Divides(i, Lcm(n) / 2)
  {
    LcmIsMultiple(n, i);
    Multiple(1, Lcm(n));
    TwiceDivides(i, k, Lcm(n));
    TwiceDivides(1, k, Lcm(n));
    Quotient(2, Lcm(n));
    Halve(i, Lcm(n) / 2);
  }

  lemma TwiceAtMost(n: nat, d: nat)
    requires 2 <= d
    ensures 2 * n <= d * n
  {
    assert d * n == 2 * n + (d - 2) * n;
  }

  // Counting next hops more than once makes the least common multiple larger.
  lemma LcmGrows(n: nat, d: nat)
    requires 1 <= n && 2 <= d
    ensures Lcm(n) < Lcm(d * n)
  {
    var k := PowerAbove(n);
    TwiceAtMost(n, d);
    LcmMonotone(n, d * n);
    LcmIsMultiple(d * n, Pow2(k));
    NoPowerDivides(n, k);
  }

  // One bank is as meant exactly when it has one device.
  lemma BankAsMeant(devices: seq<int>, hops: seq<int>, b: int)
    requires b in devices && b in hops
    ensures Lcm(Count(hops, b)) <= Lcm(Enumerated(devices, hops, b))
    ensures Lcm(Count(hops, b)) == Lcm(Enumerated(devices, hops, b)) <==> Count(devices, b) == 1
  {
    CountPositive(devices, b);
    CountPositive(hops, b);
    if Count(devices, b) != 1 {
      LcmGrows(Count(hops, b), Count(devices, b));
    }
  }

  ghost predicate AllOnce(order: seq<int>, devices: seq<int>) {
    forall b :: b in order ==> Count(devices, b) == 1
  }

  // The bucket size is never below the one meant, and is the one meant exactly when every bank has
  // one device.
  lemma {:induction false} BucketAsMeant(order: seq<int>, devices: seq<int>, hops: seq<int>)
    requires forall b :: b in order ==> b in devices && b in hops
    ensures SumHops(order, hops) <= SumLcm(order, devices, hops)
    ensures SumLcm(order, devices, hops) == SumHops(order, hops) <==> AllOnce(order, devices)
  {
    if order != [] {
      var front, b := order[..|order| - 1], order[|order| - 1];
      assert order == front + [b];
      BucketAsMeant(front, devices, hops);
      BankAsMeant(devices, hops, b);
      assert AllOnce(order, devices) <==> AllOnce(front, devices) && Count(devices, b) == 1;
    }
  }

  // The banks of the only caller: it numbers its devices.
  function Numbered(n: nat): seq<int> {
    if n == 0 then [] else Numbered(n - 1) + [n - 1]
  }

  lemma {:induction false} NumberedOnce(n: nat, b: int)
    ensures Count(Numbered(n), b) == if 0 <= b < n then 1 else 0
    ensures b in Numbered(n) <==> 0 <= b < n
  {
    if n != 0 {
      NumberedOnce(n - 1, b);
      var front := Numbered(n - 1);
      assert (front + [n - 1])[..|front|] == front;
    }
  }

  // With numbered devices the bucket size is always the one meant.
  lemma CallerAsMeant(n: nat, order: seq<int>, hops: seq<int>)
    requires BanksOf(order, Numbered(n), hops)
    ensures SumLcm(order, Numbered(n), hops) == SumHops(order, hops)
  {
    forall b | b in order ensures Count(Numbered(n), b) == 1 {
      NumberedOnce(n, b);
    }
    BucketAsMeant(order, Numbered(n), hops);
  }

  lemma LcmSmall()
    ensures Lcm(2) == 2 && Lcm(3) == 6 && Lcm(4) == 12
  {
    assert Gcd(1, 2) == Gcd(2, 1) == Gcd(1, 0) == 1;
    assert Gcd(2, 3) == Gcd(3, 2) == Gcd(2, 1) == 1;
    assert Gcd(6, 4) == Gcd(4, 2) == Gcd(2, 0) == 2;
  }

  // Two devices on one bank: two next hops count as four, and the bucket size is 12 instead of 2.
  lemma TwoDevicesExample(b: int)
    ensures BanksOf([b], [b, b], [b, b]) && SumLcm([b], [b, b], [b, b]) == 12 && SumHops([b], [b, b]) == 2
  {
    LcmSmall();
    var one, two := [b], [b, b];
    assert one[..|one| - 1] == [] && two[..|two| - 1] == one;
    assert Count(one, b) == 1;
    assert Count(two, b) == Count(one, b) + 1;
  }
}
