/**
 * An address as a number. A buffer is a row of digits of equal width, most significant first:
 * the four octets of IPv4, the eight groups of IPv6.
 */
module NetDigits {
  import opened Numerals

  datatype Part = HOST | NETWORK

  function Two(k: nat): (r: nat)
    ensures r >= 1
  {
    Pow(2, k)
  }

  function Bit(x: nat, i: nat): nat {
    x / Two(i) % 2
  }

  predicate Fits(d: seq<nat>, w: nat) {
    forall i :: 0 <= i < |d| ==> d[i] < Two(w)
  }

  /** The number that the digits `d` of `w` bits denote. */
  function Value(d: seq<nat>, w: nat): nat {
    if d == [] then 0 else Value(d[..|d| - 1], w) * Two(w) + d[|d| - 1]
  }

  /** One digit with its leading `kept` bits cleared (HOST) or alone kept (NETWORK). */
  function Share(x: nat, w: nat, kept: nat, part: Part): (r: nat)
    requires kept <= w
    ensures r <= x
  {
    var host := x % Two(w - kept);
    if part == HOST then host else x - host
  }

  /** How many bits of digit `i` a prefix of `p` bits covers. */
  function Kept(w: nat, p: nat, i: nat): (k: nat)
    requires w > 0
    ensures k <= w
  {
    if i < p / w then w else if i == p / w then p % w else 0
  }

  function Parted(d: seq<nat>, w: nat, p: nat, part: Part): (r: seq<nat>)
    requires w > 0
    ensures |r| == |d|
    ensures forall i :: 0 <= i < |d| ==> r[i] == Share(d[i], w, Kept(w, p, i), part) <= d[i]
  {
    seq(|d|, i requires 0 <= i < |d| => Share(d[i], w, Kept(w, p, i), part))
  }

  // ---------- Powers and remainders ----------

  lemma {:induction false} TwoSum(a: nat, b: nat)
    ensures Two(a + b) == Two(a) * Two(b)
  {
    if a > 0 {
      TwoSum(a - 1, b);
      Times(2, Two(a - 1), Two(b));
    }
  }

  lemma Times(a: int, b: int, c: int)
    ensures (a * b) * c == a * (b * c)
  {
  }

  lemma Divides(x: nat, q: nat, m: nat, r: nat)
    requires m > 0 && x == q * m + r && r < m
    ensures x / m == q && x % m == r
  {
    var z, y := x / m, x % m;
    assert x == z * m + y && 0 <= y < m;
    var k: int := z - q;
    Spread(k, q, m);
    Small(k, m, r - y);
  }

  lemma Small(k: int, m: int, r: int)
    requires k * m == r && -m < r < m
    ensures k == 0
  {
  }

  /** Adding whole multiples of `m` leaves the remainder alone. */
  lemma Multiples(z: nat, m: nat, c: nat)
    requires m > 0
    ensures (z * m + c) % m == c % m && (z * m + c) / m == z + c / m
  {
    Spread(z, c / m, m);
    assert c == c / m * m + c % m;
    Divides(z * m + c, z + c / m, m, c % m);
  }

  lemma Below(q: nat, m: nat, n: nat, r: nat)
    requires q < n && r < m
    ensures q * m + r < n * m
  {
    assert q * m + m == (q + 1) * m <= n * m;
  }

  /** Taking a remainder above a low digit leaves that digit alone. */
  lemma RemainderAbove(a: nat, b: nat, c: nat, m: nat)
    requires m > 0 && c < b
    ensures m * b > 0 && (a * b + c) % (m * b) == a % m * b + c
  {
    var q, r := a / m, a % m;
    assert m * b > 0;
    Below(r, b, m, c);
    assert a * b + c == q * (m * b) + (r * b + c) by {
      assert a == q * m + r;
      assert (q * m + r) * b == q * m * b + r * b;
      Times(q, m, b);
    }
    Divides(a * b + c, q, m * b, r * b + c);
  }

  /** A remainder below a digit's width sees that digit only. */
  lemma RemainderWithin(a: nat, c: nat, k: nat, w: nat)
    requires k <= w
    ensures (a * Two(w) + c) % Two(k) == c % Two(k)
  {
    hide Two, Pow;
    TwoSum(w - k, k);
    Times(a, Two(w - k), Two(k));
    Multiples(a * Two(w - k), Two(k), c);
  }

  // ---------- Numbers of digit strings ----------

  lemma {:induction false} ValueSum(d: seq<nat>, a: seq<nat>, b: seq<nat>, w: nat)
    requires |d| == |a| == |b|
    requires forall i :: 0 <= i < |d| ==> d[i] == a[i] + b[i]
    ensures Value(d, w) == Value(a, w) + Value(b, w)
  {
    if d != [] {
      var n := |d| - 1;
      ValueSum(d[..n], a[..n], b[..n], w);
      Spread(Value(a[..n], w), Value(b[..n], w), Two(w));
    }
  }

  lemma Spread(a: int, b: int, c: int)
    ensures (a + b) * c == a * c + b * c
  {
  }

  lemma {:induction false} ValueZero(d: seq<nat>, w: nat)
    requires forall i :: 0 <= i < |d| ==> d[i] == 0
    ensures Value(d, w) == 0
  {
    if d != [] {
      ValueZero(d[..|d| - 1], w);
    }
  }

  /** Different digit strings of one length are different numbers, ordered by their first difference. */
  lemma {:induction false} FirstDifference(a: seq<nat>, b: seq<nat>, w: nat, i: nat)
    requires Fits(a, w) && Fits(b, w) && |a| == |b| && i < |a|
    requires a[..i] == b[..i] && a[i] < b[i]
    ensures Value(a, w) < Value(b, w)
    decreases |a|
  {
    var n := |a| - 1;
    if i == n {
    } else {
      assert a[..n][..i] == a[..i] && b[..n][..i] == b[..i];
      FirstDifference(a[..n], b[..n], w, i);
      Below(Value(a[..n], w), Two(w), Value(b[..n], w), a[n]);
    }
  }

  lemma Injective(a: seq<nat>, b: seq<nat>, w: nat)
    requires Fits(a, w) && Fits(b, w) && |a| == |b|
    ensures Value(a, w) == Value(b, w) <==> a == b
  {
    if a != b {
      var i := Differ(a, b);
      if a[i] < b[i] {
        FirstDifference(a, b, w, i);
      } else {
        FirstDifference(b, a, w, i);
      }
    }
  }

  /** The first position at which two strings differ. */
  function Differ<T(==)>(a: seq<T>, b: seq<T>): (i: nat)
    requires |a| == |b| && a != b
    ensures i < |a| && a[..i] == b[..i] && a[i] != b[i]
  {
    if a[0] != b[0] then 0
    else
      assert a == [a[0]] + a[1..] && b == [b[0]] + b[1..];
      var k := Differ(a[1..], b[1..]);
      assert a[..k + 1] == [a[0]] + a[1..][..k] && b[..k + 1] == [b[0]] + b[1..][..k];
      k + 1
  }

  // ---------- Network and host part ----------

  lemma LastKept(w: nat, p: nat, n: nat)
    requires w > 0 && n > 0 && p <= w * n
    ensures p <= w * (n - 1) ==> Kept(w, p, n - 1) == 0
    ensures p > w * (n - 1) ==> w - Kept(w, p, n - 1) == w * n - p
    ensures p > w * (n - 1) ==> forall i :: 0 <= i < n - 1 ==> Kept(w, p, i) == w
  {
    var q := p / w;
    assert w * n == w * (n - 1) + w;
    if p < w * (n - 1) {
      Quotient(p, w, n - 1);
    } else if p < w * n {
      Divides(p, n - 1, w, p - w * (n - 1));
    } else {
      Divides(p, n, w, 0);
    }
  }

  lemma Quotient(p: nat, w: nat, n: nat)
    requires w > 0 && p < w * n
    ensures p / w < n
  {
    assert p == p / w * w + p % w;
    if p / w >= n {
      AtLeast(p / w, n, w);
    }
  }

  lemma AtLeast(a: nat, b: nat, c: nat)
    requires a >= b
    ensures a * c >= b * c
  {
  }

  /** The host part is the address modulo the size of the network. */
  lemma {:induction false} HostValue(d: seq<nat>, w: nat, p: nat)
    requires w > 0 && Fits(d, w) && p <= w * |d|
    ensures Value(Parted(d, w, p, HOST), w) == Value(d, w) % Two(w * |d| - p)
  {
    hide Kept, Two, Pow;
    if d == [] {
      assert p == 0;
      Divides(0, 0, Two(0), 0);
    } else if p <= w * (|d| - 1) {
      HostValue(d[..|d| - 1], w, p);
      HostAbove(d, w, p);
    } else {
      HostWithin(d, w, p);
    }
  }

  lemma HostAbove(d: seq<nat>, w: nat, p: nat)
    requires w > 0 && d != [] && Fits(d, w) && p <= w * (|d| - 1) <= w * |d|
    requires Value(Parted(d[..|d| - 1], w, p, HOST), w) == Value(d[..|d| - 1], w) % Two(w * (|d| - 1) - p)
    ensures Value(Parted(d, w, p, HOST), w) == Value(d, w) % Two(w * |d| - p)
  {
    hide Kept, Two, Pow;
    var n := |d| - 1;
    var h := Parted(d, w, p, HOST);
    LastKept(w, p, |d|);
    assert h[..n] == Parted(d[..n], w, p, HOST);
    assert h[n] == d[n] by {
      Divides(d[n], 0, Two(w), d[n]);
    }
    RemainderAbove(Value(d[..n], w), Two(w), d[n], Two(w * n - p));
    TwoSum(w * n - p, w);
    assert w * n - p + w == w * |d| - p;
  }

  lemma HostWithin(d: seq<nat>, w: nat, p: nat)
    requires w > 0 && d != [] && Fits(d, w) && w * (|d| - 1) < p <= w * |d|
    ensures Value(Parted(d, w, p, HOST), w) == Value(d, w) % Two(w * |d| - p)
  {
    hide Kept, Pow;
    var n := |d| - 1;
    var h := Parted(d, w, p, HOST);
    LastKept(w, p, |d|);
    HostZeros(d, w, p, n);
    hide Two;
    ValueZero(h[..n], w);
    Nothing(Two(w));
    assert w * |d| - p == w - Kept(w, p, n) <= w;
    RemainderWithin(Value(d[..n], w), d[n], w * |d| - p, w);
  }

  lemma HostZeros(d: seq<nat>, w: nat, p: nat, n: nat)
    requires w > 0 && n <= |d| && forall i :: 0 <= i < n ==> Kept(w, p, i) == w
    ensures forall i :: 0 <= i < n ==> Parted(d, w, p, HOST)[..n][i] == 0
  {
    hide Kept, Two;
    forall i | 0 <= i < n
      ensures Parted(d, w, p, HOST)[i] == 0
    {
      One(d[i]);
    }
  }

  lemma One(x: nat)
    ensures x % Two(0) == 0
  {
  }

  lemma Nothing(x: nat)
    ensures 0 * x == 0
  {
  }

  lemma Recombine(d: seq<nat>, w: nat, p: nat)
    requires w > 0
    ensures Value(Parted(d, w, p, NETWORK), w) + Value(Parted(d, w, p, HOST), w) == Value(d, w)
  {
    ValueSum(d, Parted(d, w, p, NETWORK), Parted(d, w, p, HOST), w);
  }

  /** The two parts as bits: the network has those above, the host those below, and no bit is in both. */
  lemma PartsAsBits(d: seq<nat>, w: nat, p: nat, i: nat)
    requires w > 0 && Fits(d, w) && p <= w * |d|
    ensures Value(Parted(d, w, p, NETWORK), w) + Value(Parted(d, w, p, HOST), w) == Value(d, w)
    ensures Bit(Value(Parted(d, w, p, NETWORK), w), i) == if i >= w * |d| - p then Bit(Value(d, w), i) else 0
    ensures Bit(Value(Parted(d, w, p, HOST), w), i) == if i >= w * |d| - p then 0 else Bit(Value(d, w), i)
  {
    hide Value, Bit, Two, Pow, Parted;
    HostValue(d, w, p);
    Recombine(d, w, p);
    SplitBits(Value(d, w), w * |d| - p, Two(w * |d| - p), i);
  }

  lemma SplitBits(x: nat, k: nat, m: nat, i: nat)
    requires m == Two(k) && m > 0
    ensures Bit(x % m, i) == if i >= k then 0 else Bit(x, i)
    ensures Bit(x - x % m, i) == if i >= k then Bit(x, i) else 0
  {
    hide Two, Pow, Bit;
    var q, r := x / m, x % m;
    assert x == q * m + r;
    NoBits(i);
    Nothing(m);
    if i >= k {
      NoBits(i - k);
      HighBit(q, r, k, i - k);
      HighBit(q, 0, k, i - k);
      HighBit(0, r, k, i - k);
    } else {
      LowBit(q, r, k, i);
      LowBit(q, 0, k, i);
    }
  }

  lemma NoBits(i: nat)
    ensures Bit(0, i) == 0
  {
    hide Two, Pow;
    Divides(0, 0, Two(i), 0);
  }

  lemma HighBit(q: nat, r: nat, k: nat, j: nat)
    requires r < Two(k)
    ensures Bit(q * Two(k) + r, k + j) == Bit(q, j)
  {
    hide Two, Pow;
    TwoSum(j, k);
    Nested(q, r, Two(k), Two(j));
  }

  lemma Nested(q: nat, r: nat, m: nat, t: nat)
    requires r < m && t > 0
    ensures t * m > 0 && (q * m + r) / (t * m) == q / t
  {
    var a, b := q / t, q % t;
    assert q == a * t + b;
    Spread(a * t, b, m);
    Times(a, t, m);
    Below(b, m, t, r);
    Divides(q * m + r, a, t * m, b * m + r);
  }

  lemma LowBit(q: nat, r: nat, k: nat, i: nat)
    requires i < k
    ensures Bit(q * Two(k) + r, i) == Bit(r, i)
  {
    var u := Two(k - i - 1);
    assert Two(i + 1) == 2 * Two(i);
    hide Two, Pow;
    TwoSum(k - i - 1, i + 1);
    Times(q, u, Two(i + 1));
    Times(q * u, 2, Two(i));
    Multiples(q * u * 2, Two(i), r);
    Multiples(q * u, 2, r / Two(i));
  }

  /** For a network number of the right size, having it as network part is lying in its interval. */
  lemma Interval(d: seq<nat>, w: nat, p: nat, n: nat)
    requires w > 0 && Fits(d, w) && p <= w * |d|
    requires n % Two(w * |d| - p) == 0
    ensures Value(Parted(d, w, p, NETWORK), w) == n <==> n <= Value(d, w) <= n + Two(w * |d| - p) - 1
  {
    hide Value, Two, Pow, Parted;
    HostValue(d, w, p);
    Recombine(d, w, p);
    Around(Value(d, w), Two(w * |d| - p), n);
  }

  lemma Around(x: nat, m: nat, n: nat)
    requires m > 0 && n % m == 0
    ensures x - x % m == n <==> n <= x < n + m
  {
    if n <= x < n + m {
      assert n == n / m * m;
      Divides(x, n / m, m, x - n);
    }
  }
}
