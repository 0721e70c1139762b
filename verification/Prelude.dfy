/** What several parts of the model share. */
module Prelude {

  datatype Option<T> = None | Some(value: T)

  /** The largest MSDU, in octets. */
  const MAX_MSDU_SIZE: nat := 2304

  function Max(a: real, b: real): (m: real)
    ensures m >= a && m >= b && (m == a || m == b)
  {
    if a >= b then a else b
  }

  function NatMin(a: nat, b: nat): nat { if a < b then a else b }

  function NatMax(a: nat, b: nat): nat { if a > b then a else b }

  /** n is the integer nearest to x, the even one of two. */
  predicate Nearest(x: real, n: int) {
    -0.5 <= x - n as real <= 0.5 && (x - n as real == 0.5 || x - n as real == -0.5 ==> n % 2 == 0)
  }

  /** lrint. */
  function Lrint(x: real): (n: int)
    ensures Nearest(x, n)
  {
    var f := x.Floor;
    var rest := x - f as real;
    if rest < 0.5 then f
    else if rest > 0.5 then f + 1
    else if f % 2 == 0 then f else f + 1
  }

  lemma NearestUnique(x: real, m: int, n: int)
    requires Nearest(x, m) && Nearest(x, n)
    ensures m == n
  {
    assert -1.0 <= (m - n) as real <= 1.0;
  }

  lemma LrintMonotonic(x: real, y: real)
    requires x <= y
    ensures Lrint(x) <= Lrint(y)
  {
    assert x.Floor <= y.Floor;
  }

  function Power2(k: nat): (p: nat)
    ensures p > 0
  {
    if k == 0 then 1 else 2 * Power2(k - 1)
  }

  lemma {:induction false} Power2Monotonic(a: nat, b: nat)
    requires a < b
    ensures 2 * Power2(a) <= Power2(b)
  {
    if a + 1 < b {
      Power2Monotonic(a, b - 1);
    }
  }

  /** Bitwise or. */
  function Or(a: nat, b: nat): (r: nat)
  {
    if a == 0 then b
    else if b == 0 then a
    else 2 * Or(a / 2, b / 2) + if a % 2 == 1 || b % 2 == 1 then 1 else 0
  }

  /** Where the bits do not overlap, or is addition. */
  lemma {:induction false} OrDisjoint(high: nat, low: nat, k: nat)
    requires low < Power2(k)
    ensures Or(high * Power2(k), low) == high * Power2(k) + low
  {
    if k > 0 && high > 0 && low > 0 {
      var p := high * Power2(k - 1);
      assert high * Power2(k) == 2 * p;
      OrDisjoint(high, low / 2, k - 1);
    }
  }

  lemma OrNibble(high: nat, low: nat)
    requires low < 16
    ensures Or(high * 16, low) == high * 16 + low
  {
    assert Power2(4) == 16;
    OrDisjoint(high, low, 4);
  }
}
