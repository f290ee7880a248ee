/** Instants of the plan. With `users` users, instants are counted in ticks of one second
    divided by `users`: second and slot of a user make one whole number, exactly. */
module PlanInstants {

  /* ---------------- products and quotients, step by step ---------------- */

  /** `x` taken `y` times, defined so that linear reasoning can follow it. */
  function Product(x: nat, y: nat): nat {
    if y == 0 then 0 else Product(x, y - 1) + x
  }

  /** How often `d` goes into `n`. */
  function Quotient(n: nat, d: nat): (q: nat)
    requires d > 0
    ensures Product(d, q) <= n < Product(d, q) + d
  {
    if n < d then 0 else 1 + Quotient(n - d, d)
  }

  lemma {:induction false} ProductIsProduct(x: nat, y: nat)
    ensures Product(x, y) == x * y
  {
    if y > 0 {
      ProductIsProduct(x, y - 1);
      assert x * y == x * (y - 1) + x;
    }
  }

  /** The sum of the numbers below `n`. */
  function Triangle(n: nat): nat {
    if n == 0 then 0 else Triangle(n - 1) + n - 1
  }

  lemma {:induction false} TriangleInClosedForm(n: nat)
    ensures 2 * Triangle(n) == n * (n - 1)
  {
    if n > 0 {
      TriangleInClosedForm(n - 1);
    }
  }

  lemma {:induction false} Gap(d: nat, x: nat, y: nat)
    requires x < y
    ensures Product(d, x) + d <= Product(d, y)
  {
    if y > x + 1 {
      Gap(d, x, y - 1);
    }
  }

  lemma OnlyQuotient(n: nat, d: nat, q: nat)
    requires d > 0 && Product(d, q) <= n < Product(d, q) + d
    ensures Quotient(n, d) == q
  {
    var m := Quotient(n, d);
    if q < m {
      Gap(d, q, m);
    } else if m < q {
      Gap(d, m, q);
    }
  }

  lemma QuotientIsQuotient(n: nat, d: nat)
    requires d > 0
    ensures Quotient(n, d) == n / d
  {
    ProductIsProduct(d, n / d);
    OnlyQuotient(n, d, n / d);
  }

  /* ---------------- seconds and slots ---------------- */

  function Tick(users: nat, second: nat, index: nat): nat
    requires index < users
  {
    Product(users, second) + index
  }

  /** The second an instant falls in. */
  function SecondOf(users: nat, tick: nat): nat
    requires users > 0
  {
    Quotient(tick, users)
  }

  lemma TickParts(users: nat, second: nat, index: nat)
    requires index < users
    ensures SecondOf(users, Tick(users, second, index)) == second
  {
    OnlyQuotient(Tick(users, second, index), users, second);
  }

  /* ---------------- rounding ---------------- */

  const MICROSECONDS := 1000000

  /** The quotient rounded to the nearest whole number, to the even one on a tie. */
  function Rounded(n: nat, d: nat): (r: nat)
    requires d > 0
    ensures 2 * n - d <= 2 * Product(d, r) <= 2 * n + d
    ensures 2 * Product(d, r) == 2 * n - d || 2 * Product(d, r) == 2 * n + d ==> r % 2 == 0
  {
    var q := Quotient(n, d);
    var rest := n - Product(d, q);
    if 2 * rest < d || (2 * rest == d && q % 2 == 0) then q else q + 1
  }

  /** Whatever is nearer than half is what a number is rounded to. */
  lemma NearestIsRounded(n: nat, d: nat, r: nat)
    requires d > 0 && 2 * n - d < 2 * Product(d, r) < 2 * n + d
    ensures Rounded(n, d) == r
  {
    var m := Rounded(n, d);
    if m < r {
      Gap(d, m, r);
    } else if r < m {
      Gap(d, r, m);
    }
  }

  /** The instant as the plan states it: in seconds, rounded to six digits. */
  function Micros(users: nat, tick: nat): nat
    requires users > 0
  {
    Rounded(tick * MICROSECONDS, users)
  }

  /** With up to a million users, rounding keeps the order of instants strict. */
  lemma RoundingKeepsOrder(users: nat, a: nat, b: nat)
    requires 0 < users <= MICROSECONDS && a < b
    ensures Micros(users, a) < Micros(users, b)
  {
    if users == MICROSECONDS {
      ProductIsProduct(users, a);
      ProductIsProduct(users, b);
      NearestIsRounded(a * MICROSECONDS, users, a);
      NearestIsRounded(b * MICROSECONDS, users, b);
    } else {
      var m, n := Micros(users, a), Micros(users, b);
      if n < m {
        Gap(users, n, m);
      }
    }
  }

  lemma WholeSecond(users: nat, s: nat)
    requires users > 0
    ensures Micros(users, Product(users, s)) == s * MICROSECONDS
  {
    ProductIsProduct(users, s);
    ProductIsProduct(users, s * MICROSECONDS);
    assert users * s * MICROSECONDS == users * (s * MICROSECONDS);
    NearestIsRounded(Product(users, s) * MICROSECONDS, users, s * MICROSECONDS);
  }

  /** And it keeps every instant in its second. */
  lemma RoundingKeepsTheSecond(users: nat, tick: nat)
    requires 0 < users <= MICROSECONDS
    ensures Micros(users, tick) / MICROSECONDS == SecondOf(users, tick)
  {
    var s := SecondOf(users, tick);
    WholeSecond(users, s);
    WholeSecond(users, s + 1);
    if Product(users, s) < tick {
      RoundingKeepsOrder(users, Product(users, s), tick);
    }
    RoundingKeepsOrder(users, tick, Product(users, s + 1));
  }

  /** Two neighbours of the first second that are rounded to one instant. */
  predicate Collide(users: nat, t: nat) {
    t + 1 < users && Micros(users, t) == Micros(users, t + 1)
  }

  /** With more than a million users there are such neighbours. */
  lemma RoundingMustCollide(users: nat)
    requires users > MICROSECONDS
    ensures exists t :: Collide(users, t)
  {
    if forall t :: !Collide(users, t) {
      Climbs(users, users - 1);
      var m := Micros(users, users - 1);
      ProductIsProduct(users, MICROSECONDS);
      if m > MICROSECONDS {
        Gap(users, MICROSECONDS, m);
      }
    }
  }

  lemma {:induction false} Climbs(users: nat, n: nat)
    requires 0 < users && n < users
    requires forall t :: !Collide(users, t)
    ensures Micros(users, n) >= n
  {
    if n > 0 {
      Climbs(users, n - 1);
      NeverFalls(users, n - 1);
      assert !Collide(users, n - 1);
    }
  }

  lemma NeverFalls(users: nat, t: nat)
    requires users > 0
    ensures Micros(users, t) <= Micros(users, t + 1)
  {
    var m, n := Micros(users, t), Micros(users, t + 1);
    if n < m {
      Gap(users, n, m);
    }
  }
}
