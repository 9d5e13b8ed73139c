/** Rounding socket address lengths up to whole machine words. */
module RoundUp {
  import opened Numerals
  import opened NetDigits

  /** Bitwise or with `2^k - 1`: the low `k` bits set, the others kept. */
  function OrLow(x: nat, k: nat): (r: nat)
  {
    x - x % Two(k) + (Two(k) - 1)
  }

  /** The macro, for a `long` of `2^k` bytes. */
  function Rounded(a: int, k: nat): nat {
    if a > 0 then 1 + OrLow(a - 1, k) else Two(k)
  }

  /** Every bit of the or is the or of the bits. */
  lemma OrBits(x: nat, k: nat, i: nat)
    ensures Bit(OrLow(x, k), i) == if i < k then 1 else Bit(x, i)
  {
    var m := Two(k);
    hide Two, Pow, Bit;
    Floor(x, m);
    SplitBits(x, k, m, i);
    if i < k {
      AllOnesBit(k, i);
      LowBit(x / m, m - 1, k, i);
    } else {
      HighBit(x / m, m - 1, k, i - k);
      HighBit(x / m, 0, k, i - k);
    }
  }

  lemma Floor(x: nat, m: nat)
    requires m > 0
    ensures x - x % m == x / m * m >= 0
  {
  }

  lemma AllOnesBit(k: nat, i: nat)
    requires i < k
    ensures Bit(Two(k) - 1, i) == 1
  {
    TwoSum(k - i - 1, i + 1);
    assert Two(i + 1) == 2 * Two(i);
    hide Two, Pow;
    Times(Two(k - i - 1), 2, Two(i));
    OddQuotient(Two(k - i - 1), Two(i));
  }

  lemma OddQuotient(u: nat, t: nat)
    requires u > 0 && t > 0
    ensures u * 2 * t >= 1 && (u * 2 * t - 1) / t % 2 == 1
  {
    Spread(u * 2 - 1, 1, t);
    Divides(u * 2 * t - 1, u * 2 - 1, t, t - 1);
  }

  /** The rounded length is the least multiple of the word not below `a`, and never nothing. */
  lemma RoundedMeans(a: int, k: nat)
    ensures Rounded(a, k) % Two(k) == 0 && Rounded(a, k) >= Two(k) && Rounded(a, k) >= a
    ensures forall n: nat :: n % Two(k) == 0 && n >= a && n > 0 ==> n >= Rounded(a, k)
  {
    var m := Two(k);
    hide Two, Pow;
    if a > 0 {
      Floor(a - 1, m);
      var q := (a - 1) / m;
      Spread(q, 1, m);
      Divides(Rounded(a, k), q + 1, m, 0);
      forall n: nat | n % m == 0 && n >= a
        ensures n >= Rounded(a, k)
      {
        Above(n, q, m);
      }
    } else {
      Divides(m, 1, m, 0);
      forall n: nat | n % m == 0 && n > 0
        ensures n >= m
      {
        Above(n, 0, m);
      }
    }
  }

  lemma Above(n: nat, q: nat, m: nat)
    requires m > 0 && n % m == 0 && n > q * m
    ensures n >= q * m + m
  {
    Floor(n, m);
    if n / m <= q {
      AtLeast(q, n / m, m);
    } else {
      AtLeast(n / m, q + 1, m);
      Spread(q, 1, m);
    }
  }

  /** A walk over records, each advancing by its rounded length, ends within a step for every word. */
  function Steps(lengths: int -> int, at: nat, size: nat, k: nat): (n: nat)
    requires at <= size
    ensures n * Two(k) < size - at + Two(k)
    decreases size - at
  {
    RoundedMeans(lengths(at), k);
    var next := at + Rounded(lengths(at), k);
    if at == size then 0
    else if next >= size then 1
    else
      var n := Steps(lengths, next, size, k);
      Spread(n, 1, Two(k));
      n + 1
  }
}
