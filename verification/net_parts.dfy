/** What the network and host parts of an address mean: prefixes, ranges, membership, masks. */
module NetParts {
  import opened Numerals
  import opened NetDigits
  import opened NetAddress

  /** The effect of `impose`: nothing for a prefix of no bits or of too many. */
  function Imposed(a: Address, p: nat, part: Part): (r: Address)
    requires Sound(a)
    ensures Sound(r) && r.kind == a.kind
  {
    if p == 0 || p > Bits(a.kind) then a
    else if a.kind == IPV4 then Address(IPV4, Parted(a.bytes, 8, p, part))
    else Address(IPV6, Ungrouped(Parted(Groups(a.bytes), 16, p, part)))
  }

  lemma ImposedDigits(a: Address, p: nat, part: Part)
    requires Sound(a) && 0 < p <= Bits(a.kind)
    ensures Digits(Imposed(a, p, part)) == Parted(Digits(a), Width(a.kind), p, part)
  {
    hide Parted, Share, Kept;
    if a.kind == IPV6 {
      Regroup(Parted(Groups(a.bytes), 16, p, part));
    }
  }

  /** The parts share no bit, have every bit, and add up to the address. */
  lemma PartsRecombine(a: Address, p: nat, i: nat)
    requires Sound(a) && 0 < p <= Bits(a.kind)
    ensures Number(Imposed(a, p, NETWORK)) + Number(Imposed(a, p, HOST)) == Number(a)
    ensures Number(Imposed(a, p, HOST)) < Two(Bits(a.kind) - p)
    ensures Bit(Number(Imposed(a, p, NETWORK)), i) == if i >= Bits(a.kind) - p then Bit(Number(a), i) else 0
    ensures Bit(Number(Imposed(a, p, HOST)), i) == if i >= Bits(a.kind) - p then 0 else Bit(Number(a), i)
  {
    hide Value, Two, Pow, Parted, Bit, Imposed;
    ImposedDigits(a, p, NETWORK);
    ImposedDigits(a, p, HOST);
    DigitsFit(a);
    PartsAsBits(Digits(a), Width(a.kind), p, i);
    HostValue(Digits(a), Width(a.kind), p);
  }

  // ---------- Membership ----------

  /** Within one kind, equal numbers are equal addresses. */
  lemma SameNumber(a: Address, b: Address)
    requires Sound(a) && Sound(b) && a.kind == b.kind
    ensures Number(a) == Number(b) <==> a == b
  {
    hide Value;
    DigitsFit(a);
    DigitsFit(b);
    Injective(Digits(a), Digits(b), Width(a.kind));
    if a.kind == IPV6 {
      Ungroup(a.bytes);
      Ungroup(b.bytes);
    }
  }

  /** A network given by its first address holds the numbers from it up to its last. */
  lemma InNetwork(a: Address, n: Address, p: nat)
    requires Sound(a) && Sound(n) && a.kind == n.kind && 0 < p <= Bits(a.kind)
    requires Imposed(n, p, NETWORK) == n
    ensures Imposed(a, p, NETWORK) == n <==> Number(n) <= Number(a) <= Number(n) + Two(Bits(a.kind) - p) - 1
  {
    hide Value, Two, Pow, Parted, Bit, Imposed;
    DigitsFit(a);
    DigitsFit(n);
    ImposedDigits(a, p, NETWORK);
    ImposedDigits(n, p, NETWORK);
    HostValue(Digits(n), Width(n.kind), p);
    Recombine(Digits(n), Width(n.kind), p);
    Interval(Digits(a), Width(a.kind), p, Number(n));
    SameNumber(Imposed(a, p, NETWORK), n);
  }

  lemma NetworkNumber(a: Address, p: nat)
    requires Sound(a) && 0 < p <= Bits(a.kind)
    ensures Number(Imposed(a, p, NETWORK)) == Number(a) - Number(a) % Two(Bits(a.kind) - p)
  {
    hide Value, Two, Pow, Parted, Imposed;
    ImposedDigits(a, p, NETWORK);
    DigitsFit(a);
    HostValue(Digits(a), Width(a.kind), p);
    Recombine(Digits(a), Width(a.kind), p);
  }

  lemma ImposedTwice(a: Address, p: nat)
    requires Sound(a)
    ensures Imposed(Imposed(a, p, NETWORK), p, NETWORK) == Imposed(a, p, NETWORK)
  {
    if 0 < p <= Bits(a.kind) {
      hide Number, Two, Pow, Imposed;
      var n := Imposed(a, p, NETWORK);
      NetworkNumber(a, p);
      NetworkNumber(n, p);
      Floors(Number(a), Two(Bits(a.kind) - p));
      SameNumber(Imposed(n, p, NETWORK), n);
    }
  }

  lemma Floors(x: nat, m: nat)
    requires m > 0
    ensures (x - x % m) % m == 0
  {
    Divides(x - x % m, x / m, m, 0);
  }

  /** What an object holds after being assigned `a`'s number: `v4` ignores zero. */
  function Assigned(held: Address, a: Address): Address {
    if a.kind == NONE || (a.kind == IPV4 && Zero(a.bytes)) then held else a
  }

  /** The verdict of `mapping` with a prefix, for a network text that was read as `n`. */
  predicate Mapped(a: Address, n: Address, p: nat, part: Part)
    requires Sound(a) && Sound(n)
  {
    p > 0 && a.kind == n.kind != NONE && Imposed(Assigned(n, a), p, part) == n
  }

  /** `mapping` decides membership, but holds `0.0.0.0` to be in every network. */
  lemma MappedMeans(a: Address, n: Address, p: nat)
    requires Sound(a) && Sound(n) && a.kind == n.kind && 0 < p <= Bits(a.kind)
    ensures Mapped(a, n, p, NETWORK) <==>
      Imposed(n, p, NETWORK) == n &&
      ((a.kind == IPV4 && Number(a) == 0) || Number(n) <= Number(a) <= Number(n) + Two(Bits(a.kind) - p) - 1)
  {
    hide Value, Two, Pow, Parted, Bit, Imposed;
    RawZero(a.bytes);
    ImposedTwice(a, p);
    if Imposed(n, p, NETWORK) == n {
      InNetwork(a, n, p);
    }
  }

  lemma RawZero(b: seq<byte>)
    ensures Value(b, 8) == 0 <==> Zero(b)
  {
    MirroredValue(b);
    LEOfBytes(Mirrored(b));
    if Zero(Mirrored(b)) {
      forall i | 0 <= i < |b|
        ensures b[i] == 0
      {
        assert Mirrored(b)[|b| - 1 - i] == 0;
      }
    }
  }

  /** The verdict of `mapping` without a prefix: a zero digit of the network admits any. */
  predicate Wildcard(d: seq<nat>, n: seq<nat>)
    requires |d| == |n|
  {
    forall i :: 0 <= i < |d| ==> d[i] == n[i] || n[i] == 0
  }

  /** For a network of `k` digits, none of them zero, it is membership under their prefix. */
  lemma WildcardMeans(a: Address, n: Address, k: nat)
    requires Sound(a) && Sound(n) && a.kind == n.kind != NONE && 0 < k <= |Digits(n)|
    requires forall i :: 0 <= i < |Digits(n)| ==> (Digits(n)[i] == 0 <==> i >= k)
    ensures Wildcard(Digits(a), Digits(n)) <==> Imposed(a, k * Width(a.kind), NETWORK) == n
  {
    hide Value, Two, Pow, Imposed;
    var w, x, y := Width(a.kind), Digits(a), Digits(n);
    ImposedDigits(a, k * w, NETWORK);
    DigitsFit(a);
    DigitsFit(n);
    Injective(Digits(Imposed(a, k * w, NETWORK)), y, w);
    SameNumber(Imposed(a, k * w, NETWORK), n);
    DigitsFit(Imposed(a, k * w, NETWORK));
    WholeDigits(x, w, k);
    if Parted(x, w, k * w, NETWORK) == y {
      forall i | 0 <= i < |x|
        ensures x[i] == y[i] || y[i] == 0
      {
        assert Parted(x, w, k * w, NETWORK)[i] == y[i];
      }
    }
  }

  lemma WholeDigits(d: seq<nat>, w: nat, k: nat)
    requires w > 0 && Fits(d, w) && k <= |d|
    ensures forall i :: 0 <= i < |d| ==> Parted(d, w, k * w, NETWORK)[i] == if i < k then d[i] else 0
  {
    Divides(k * w, k, w, 0);
    forall i | 0 <= i < |d|
      ensures Parted(d, w, k * w, NETWORK)[i] == if i < k then d[i] else 0
    {
      if i < k {
        One(d[i]);
      } else {
        Divides(d[i], 0, Two(w), d[i]);
      }
    }
  }

  // ---------- Ranges ----------

  /** Whether the host part of `a` lies between those of `b` and `e`. */
  predicate Between(a: Address, b: Address, e: Address, p: nat)
    requires Sound(a) && Sound(b) && Sound(e)
  {
    AtMost(Imposed(b, p, HOST), Imposed(a, p, HOST)) && AtMost(Imposed(a, p, HOST), Imposed(e, p, HOST))
  }

  /** The verdict of `range` for two address objects. */
  predicate Ranged(a: Address, b: Address, e: Address, p: nat)
    requires Sound(a) && Sound(b) && Sound(e)
  {
    a.kind == b.kind == e.kind && Between(Assigned(EMPTY, a), Assigned(EMPTY, b), Assigned(EMPTY, e), p)
  }

  lemma SplitWord(x: word, k: nat, r: nat)
    requires k <= 16 && r == x % Two(k) && r <= x
    ensures r % 256 + (x - r) % 256 == x % 256 && r / 256 + (x - r) / 256 == x / 256
  {
    hide Two, Pow;
    var l, h := x % 256, x / 256;
    if k <= 8 {
      LowRemainder(l, h, k);
      SplitLow(l, h, Two(k));
    } else {
      HighRemainder(l, h, k);
      SplitHigh(l, h, h % Two(k - 8));
    }
  }

  lemma LowRemainder(l: byte, h: byte, k: nat)
    requires k <= 8
    ensures (h * 256 + l) % Two(k) == l % Two(k)
  {
    Widths();
    hide Two, Pow;
    RemainderWithin(h, l, k, 8);
  }

  lemma HighRemainder(l: byte, h: byte, k: nat)
    requires k > 8
    ensures (h * 256 + l) % Two(k) == h % Two(k - 8) * 256 + l
  {
    Widths();
    hide Two, Pow;
    TwoSum(k - 8, 8);
    RemainderAbove(h, 256, l, Two(k - 8));
  }

  lemma SplitLow(l: byte, h: byte, m: nat)
    requires m > 0
    ensures (l % m) % 256 + (h * 256 + l - l % m) % 256 == l && (l % m) / 256 + (h * 256 + l - l % m) / 256 == h
  {
    var r := l % m;
    Divides(r, 0, 256, r);
    Divides(h * 256 + l - r, h, 256, l - r);
  }

  lemma SplitHigh(l: byte, h: byte, r: nat)
    requires r <= h
    ensures (r * 256 + l) % 256 + (h * 256 + l - (r * 256 + l)) % 256 == l
    ensures (r * 256 + l) / 256 + (h * 256 + l - (r * 256 + l)) / 256 == h
  {
    Divides(r * 256 + l, r, 256, l);
    Divides(h * 256 + l - (r * 256 + l), h - r, 256, 0);
  }

  lemma {:induction false} UngroupedSum(d: seq<word>, a: seq<word>, b: seq<word>)
    requires |d| == |a| == |b|
    requires forall i :: 0 <= i < |d| ==> d[i] % 256 == a[i] % 256 + b[i] % 256 && d[i] / 256 == a[i] / 256 + b[i] / 256
    ensures forall j :: 0 <= j < 2 * |d| ==> Ungrouped(d)[j] as int == Ungrouped(a)[j] as int + Ungrouped(b)[j] as int
  {
    if d != [] {
      UngroupedSum(d[1..], a[1..], b[1..]);
      UngroupedHead(d);
      UngroupedHead(a);
      UngroupedHead(b);
      hide Ungrouped;
      forall j | 2 <= j < 2 * |d|
        ensures Ungrouped(d)[j] as int == Ungrouped(a)[j] as int + Ungrouped(b)[j] as int
      {
        assert Ungrouped(d)[j] == Ungrouped(d[1..])[j - 2];
      }
    }
  }

  lemma SplitGroups(d: seq<word>, p: nat)
    ensures var n, h := Parted(d, 16, p, NETWORK), Parted(d, 16, p, HOST);
            forall i :: 0 <= i < |d| ==> d[i] % 256 == n[i] % 256 + h[i] % 256 && d[i] / 256 == n[i] / 256 + h[i] / 256
  {
    hide Parted, Kept;
    var n, h := Parted(d, 16, p, NETWORK), Parted(d, 16, p, HOST);
    forall i | 0 <= i < |d|
      ensures d[i] % 256 == n[i] % 256 + h[i] % 256 && d[i] / 256 == n[i] / 256 + h[i] / 256
    {
      SplitWord(d[i], 16 - Kept(16, p, i), h[i]);
    }
  }

  /** The parts recombine in the order of the operators too. */
  lemma RawRecombine(a: Address, p: nat)
    requires Sound(a) && 0 < p <= Bits(a.kind)
    ensures Raw(Imposed(a, p, NETWORK)) + Raw(Imposed(a, p, HOST)) == Raw(a)
  {
    hide Value, Parted, Two, Pow;
    if a.kind == IPV4 {
      Recombine(a.bytes, 8, p);
    } else {
      var g := Groups(a.bytes);
      var n: seq<word>, h: seq<word> := Parted(g, 16, p, NETWORK), Parted(g, 16, p, HOST);
      SplitGroups(g, p);
      UngroupedSum(g, n, h);
      Ungroup(a.bytes);
      ValueSum(a.bytes, Ungrouped(n), Ungrouped(h), 8);
    }
  }

  /**
   * When all three share the network part, `range` is `begin <= address <= end` in the order of the
   * operators, except that no IPv4 range may begin at `0.0.0.0`.
   */
  lemma RangedMeans(a: Address, b: Address, e: Address, p: nat)
    requires Sound(a) && Sound(b) && Sound(e) && a.kind == b.kind == e.kind && 0 < p <= Bits(a.kind)
    requires Imposed(a, p, NETWORK) == Imposed(b, p, NETWORK) == Imposed(e, p, NETWORK)
    ensures Ranged(a, b, e, p) <==> AtMost(b, a) && AtMost(a, e) && (b.kind == IPV4 ==> Raw(b) != 0)
  {
    hide Value, Imposed;
    RawRecombine(a, p);
    RawRecombine(b, p);
    RawRecombine(e, p);
    RawZero(a.bytes);
    RawZero(b.bytes);
    RawZero(e.bytes);
  }

  /** With both ends given as texts it is the address itself that may not be `0.0.0.0`. */
  lemma BetweenMeans(a: Address, b: Address, e: Address, p: nat)
    requires Sound(a) && Sound(b) && Sound(e) && a.kind == b.kind == e.kind && 0 < p <= Bits(a.kind)
    requires Imposed(a, p, NETWORK) == Imposed(b, p, NETWORK) == Imposed(e, p, NETWORK)
    ensures Between(Assigned(EMPTY, a), b, e, p) <==> AtMost(b, a) && AtMost(a, e) && (a.kind == IPV4 ==> Raw(a) != 0)
  {
    hide Value, Imposed;
    RawRecombine(a, p);
    RawRecombine(b, p);
    RawRecombine(e, p);
    RawZero(a.bytes);
  }
}
