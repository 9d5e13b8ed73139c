/** The loops of `Net::compare` and `Net::impose` over bytes and bits. */
module NetLoops {
  import opened Numerals
  import opened NetDigits
  import opened NetAddress

  // ---------- Comparing buffers ----------

  lemma {:induction false} HighestDifference(a: seq<byte>, b: seq<byte>, i: nat)
    requires |a| == |b| && i < |a| && a[i + 1..] == b[i + 1..] && a[i] > b[i]
    ensures FromLE(a) > FromLE(b)
  {
    if i > 0 {
      assert a[1..][i..] == a[i + 1..] && b[1..][i..] == b[i + 1..];
      HighestDifference(a[1..], b[1..], i - 1);
    }
  }

  lemma BitsAbove(x: byte, i: nat)
    ensures x / Two(i + 1) == x / Two(i) / 2 && Bit(x, i) <= 1 && x / Two(i) == x / Two(i + 1) * 2 + Bit(x, i)
  {
    assert Two(i + 1) == 2 * Two(i);
    hide Two, Pow;
    Nested(x, 0, 1, 1);
    HalfQuotient(x, Two(i));
  }

  lemma HalfQuotient(x: nat, t: nat)
    requires t > 0
    ensures x / (2 * t) == x / t / 2
  {
    var q := x / t;
    assert x == q * t + x % t;
    assert q == q / 2 * 2 + q % 2;
    Spread(q / 2 * 2, q % 2, t);
    Times(q / 2, 2, t);
    Divides(x, q / 2, 2 * t, q % 2 * t + x % t);
  }

  lemma BitOrder(x: byte, y: byte, i: nat)
    requires x / Two(i + 1) == y / Two(i + 1) && Bit(x, i) > Bit(y, i)
    ensures x > y
  {
    BitsAbove(x, i);
    BitsAbove(y, i);
    hide Two, Pow, Bit;
    Monotone(y, x, Two(i));
  }

  lemma Monotone(x: nat, y: nat, m: nat)
    requires m > 0 && x / m < y / m
    ensures x < y
  {
    assert x == x / m * m + x % m && y == y / m * m + y % m;
    AtLeast(y / m, x / m + 1, m);
    Spread(x / m, 1, m);
  }

  /** The verdict of `compare`, which keeps its size in a byte. */
  predicate Compared(value1: seq<byte>, value2: seq<byte>)
    requires |value1| == |value2|
  {
    var n := |value1| % 256;
    FromLE(value1[..n]) > FromLE(value2[..n])
  }

  /** `compare`: whether the first of two buffers is the larger number, from the highest bit down. */
  method Compare(value1: seq<byte>, value2: seq<byte>) returns (result: bool)
    requires |value1| == |value2|
    ensures result <==> Compared(value1, value2)
  {
    hide FromLE, Two, Pow, Bit;
    result := false;
    var index := |value1| % 256;
    ghost var a, b := value1[..index], value2[..index];
    while index > 0
      invariant index <= |a| && a[index..] == b[index..]
    {
      index := index - 1;
      var num1, num2 := value1[index], value2[index];
      var count := 8;
      Whole(num1);
      Whole(num2);
      while count > 0
        invariant 0 <= count <= 8 && num1 / Two(count) == num2 / Two(count)
      {
        count := count - 1;
        BitsAbove(num1, count);
        BitsAbove(num2, count);
        var bit1, bit2 := Bit(num1, count), Bit(num2, count);
        if bit1 != bit2 {
          result := bit1 > bit2;
          if result {
            BitOrder(num1, num2, count);
            HighestDifference(a, b, index);
          } else {
            BitOrder(num2, num1, count);
            HighestDifference(b, a, index);
          }
          return;
        }
      }
      Lowest(num1);
      Lowest(num2);
      assert a[index..] == [num1] + a[index + 1..] && b[index..] == [num2] + b[index + 1..];
    }
  }

  /** `compare` tells the larger of all buffers of one size exactly when a byte can count that size. */
  lemma CompareSized(size: nat)
    ensures size < 256 <==>
            forall a: seq<byte>, b: seq<byte> | |a| == |b| == size :: Compared(a, b) == (FromLE(a) > FromLE(b))
  {
    if size >= 256 {
      var b := seq(size, i => 0 as byte);
      var a := b[size - 1 := 1];
      var n := size % 256;
      assert a[size - 1 + 1..] == b[size - 1 + 1..];
      HighestDifference(a, b, size - 1);
      assert a[..n] == b[..n];
      assert Compared(a, b) != (FromLE(a) > FromLE(b));
    } else {
      forall a: seq<byte>, b: seq<byte> | |a| == |b| == size
        ensures Compared(a, b) == (FromLE(a) > FromLE(b))
      {
        assert a[..size] == a && b[..size] == b;
      }
    }
  }

  lemma Whole(x: byte)
    ensures x / Two(8) == 0
  {
    Widths();
  }

  lemma Lowest(x: byte)
    ensures x / Two(0) == x
  {
  }

  // ---------- Clearing bits ----------

  /** `bits.set(i, 0)` for the bits from `low` up to `high`. */
  method ClearBits(value: nat, low: nat, high: nat) returns (bits: nat)
    requires low <= high
    ensures bits == value % Two(low) + value / Two(high) * Two(high)
  {
    hide Two, Pow;
    bits := value;
    ghost var r := value % Two(low);
    Euclid(value, Two(low));
    for i := low to high
      invariant r < Two(i) && bits == r + value / Two(i) * Two(i)
    {
      TwoStep(i);
      ClearBit(value, r, Two(i));
      bits := bits - Bit(bits, i) * Two(i);
    }
  }

  lemma TwoStep(i: nat)
    ensures Two(i + 1) == 2 * Two(i)
  {
  }

  lemma ClearBit(value: nat, r: nat, t: nat)
    requires r < t
    ensures var y := r + value / t * t;
            0 <= y - y / t % 2 * t == r + value / (2 * t) * (2 * t)
  {
    HalfQuotient(value, t);
    ClearLowest(value / t, t, r);
  }

  lemma ClearLowest(q: nat, t: nat, r: nat)
    requires r < t
    ensures (r + q * t) / t == q
    ensures 0 <= r + q * t - q % 2 * t == r + q / 2 * (2 * t)
  {
    Divides(q * t + r, q, t, r);
    Spread(q / 2 * 2, q % 2, t);
    Times(q / 2, 2, t);
  }

  lemma LowBits(x: nat, k: nat, w: nat)
    requires k <= w && x < Two(w)
    ensures x % Two(k) + x / Two(w) * Two(w) == x % Two(k) <= x
    ensures x % Two(0) + x / Two(k) * Two(k) == x - x % Two(k)
  {
    One(x);
    hide Two, Pow;
    Divides(x, 0, Two(w), x);
    Nothing(Two(w));
    Euclid(x, Two(k));
  }

  // ---------- The arms of `impose` ----------

  lemma PartedDigit(d: seq<nat>, w: nat, p: nat, i: nat)
    requires w > 0 && Fits(d, w) && i < |d|
    ensures var n, m := p / w, Two(w - p % w);
            && Parted(d, w, p, HOST)[i] == (if i < n then 0 else if i == n && p % w != 0 then d[i] % m else d[i])
            && Parted(d, w, p, NETWORK)[i] ==
               if i < n then d[i] else if i == n && p % w != 0 then d[i] - d[i] % m else 0
  {
    ShareEnds(d[i], w);
  }

  lemma ShareEnds(x: nat, w: nat)
    requires x < Two(w)
    ensures x % Two(0) == 0 && x % Two(w) == x
  {
    One(x);
    hide Two, Pow;
    Divides(x, 0, Two(w), x);
  }

  lemma PrefixFits(p: nat, w: nat, n: nat)
    requires w > 0 && p <= w * n
    ensures p / w <= n && (p % w != 0 ==> p / w < n)
  {
    if p < w * n {
      Quotient(p, w, n);
    } else {
      Divides(p, n, w, 0);
    }
  }

  method ImposeOctets(held: seq<byte>, prefix: nat, part: Part) returns (buffer: seq<byte>)
    requires |held| == 4 && prefix <= 32
    ensures buffer == Parted(held, 8, prefix, part)
  {
    BytesFit(held);
    PrefixFits(prefix, 8, 4);
    hide Two, Pow, Parted;
    buffer := held;
    var num := prefix / 8;
    if part == HOST {
      buffer := ZeroTo(buffer, num);
      if prefix % 8 != 0 {
        var oct := ClearBits(buffer[num], 8 - prefix % 8, 8);
        LowBits(held[num], 8 - prefix % 8, 8);
        buffer := buffer[num := oct];
      }
    } else if prefix % 8 == 0 {
      buffer := ZeroFrom(buffer, num);
    } else {
      var oct := ClearBits(buffer[num], 0, 8 - prefix % 8);
      LowBits(held[num], 8 - prefix % 8, 8);
      buffer := buffer[num := oct];
      buffer := ZeroFrom(buffer, num + 1);
    }
    forall i | 0 <= i < 4
      ensures buffer[i] == Parted(held, 8, prefix, part)[i]
    {
      PartedDigit(held, 8, prefix, i);
    }
  }

  /** Writing the two bytes of a word at group `n`, as `memcpy` does. */
  function Stored(b: seq<byte>, n: nat, x: word): (r: seq<byte>)
    requires 2 * n + 2 <= |b|
    ensures |r| == |b|
  {
    b[2 * n := x % 256][2 * n + 1 := x / 256]
  }

  /** `memset` with zeros from byte `n` on. */
  function ZeroFrom(b: seq<byte>, n: nat): (r: seq<byte>)
    ensures |r| == |b| && forall i :: 0 <= i < |b| ==> r[i] == if i < n then b[i] else 0
  {
    seq(|b|, i requires 0 <= i < |b| => if i < n then b[i] else 0)
  }

  /** `memset` with zeros up to byte `n`. */
  function ZeroTo(b: seq<byte>, n: nat): (r: seq<byte>)
    ensures |r| == |b| && forall i :: 0 <= i < |b| ==> r[i] == if i < n then 0 else b[i]
  {
    seq(|b|, i requires 0 <= i < |b| => if i < n then 0 else b[i])
  }

  function GroupOf(b: seq<byte>, i: nat): word
    requires 2 * i + 1 < |b|
  {
    Word(b[2 * i], b[2 * i + 1])
  }

  lemma StoredGroup(b: seq<byte>, n: nat, x: word, i: nat)
    requires 2 * n + 1 < |b| && 2 * i + 1 < |b|
    ensures GroupOf(Stored(b, n, x), i) == if i == n then x else GroupOf(b, i)
  {
  }

  lemma CutGroup(b: seq<byte>, n: nat, i: nat)
    requires 2 * i + 1 < |b|
    ensures GroupOf(ZeroFrom(b, 2 * n), i) == if i < n then GroupOf(b, i) else 0
    ensures GroupOf(ZeroTo(b, 2 * n), i) == if i < n then 0 else GroupOf(b, i)
  {
  }

  lemma SameParts(held: seq<byte>, b: seq<byte>, p: nat, part: Part)
    requires |held| == |b| == 16
    requires forall i :: 0 <= i < 8 ==> GroupOf(b, i) == Parted(Groups(held), 16, p, part)[i]
    ensures b == Ungrouped(Parted(Groups(held), 16, p, part))
  {
    hide Parted, Groups, Ungrouped, GroupOf;
    forall i | 0 <= i < 8
      ensures Groups(b)[i] == Parted(Groups(held), 16, p, part)[i]
    {
      GroupAt(b, i);
    }
    assert Groups(b) == Parted(Groups(held), 16, p, part);
    Ungroup(b);
  }

  lemma GroupDigit(held: seq<byte>, p: nat, i: nat)
    requires |held| == 16 && i < 8
    ensures var n, m, x, g := p / 16, Two(16 - p % 16), GroupOf(held, i), Groups(held);
            && Parted(g, 16, p, HOST)[i] == (if i < n then 0 else if i == n && p % 16 != 0 then x % m else x)
            && Parted(g, 16, p, NETWORK)[i] == if i < n then x else if i == n && p % 16 != 0 then x - x % m else 0
  {
    Widths();
    hide Two, Pow, Groups, Parted;
    GroupAt(held, i);
    PartedDigit(Groups(held), 16, p, i);
  }

  method ImposeGroups(held: seq<byte>, prefix: nat, part: Part) returns (buffer: seq<byte>)
    requires |held| == 16 && prefix <= 128
    ensures buffer == Ungrouped(Parted(Groups(held), 16, prefix, part))
  {
    hide Two, Pow, Parted, Groups, Ungrouped, Stored, ZeroFrom, ZeroTo, GroupOf;
    buffer := held;
    PrefixFits(prefix, 16, 8);
    var num := prefix / 16;
    if prefix % 16 == 0 {
      buffer := if part == HOST then ZeroTo(buffer, 2 * num) else ZeroFrom(buffer, 2 * num);
    } else {
      Widths();
      var hex := GroupOf(held, num);
      LowBits(hex, 16 - prefix % 16, 16);
      if part == HOST {
        buffer := ZeroTo(buffer, 2 * num);
        CutGroup(held, num, num);
        var bits := ClearBits(GroupOf(buffer, num), 16 - prefix % 16, 16);
        StoredGroups(buffer, num, bits);
        buffer := Stored(buffer, num, bits);
      } else {
        var bits := ClearBits(hex, 0, 16 - prefix % 16);
        StoredGroups(buffer, num, bits);
        CutGroups(Stored(buffer, num, bits), num + 1);
        buffer := ZeroFrom(Stored(buffer, num, bits), 2 * (num + 1));
      }
    }
    CutGroups(held, num);
    GroupDigits(held, prefix);
    SameParts(held, buffer, prefix, part);
  }

  lemma CutGroups(b: seq<byte>, n: nat)
    requires |b| == 16 && n <= 8
    ensures forall i :: 0 <= i < 8 ==> GroupOf(ZeroFrom(b, 2 * n), i) == if i < n then GroupOf(b, i) else 0
    ensures forall i :: 0 <= i < 8 ==> GroupOf(ZeroTo(b, 2 * n), i) == if i < n then 0 else GroupOf(b, i)
  {
    hide GroupOf, ZeroFrom, ZeroTo;
    forall i | 0 <= i < 8
      ensures GroupOf(ZeroFrom(b, 2 * n), i) == if i < n then GroupOf(b, i) else 0
      ensures GroupOf(ZeroTo(b, 2 * n), i) == if i < n then 0 else GroupOf(b, i)
    {
      CutGroup(b, n, i);
    }
  }

  lemma StoredGroups(b: seq<byte>, n: nat, x: word)
    requires |b| == 16 && n < 8
    ensures forall i :: 0 <= i < 8 ==> GroupOf(Stored(b, n, x), i) == if i == n then x else GroupOf(b, i)
  {
    hide GroupOf, Stored;
    forall i | 0 <= i < 8
      ensures GroupOf(Stored(b, n, x), i) == if i == n then x else GroupOf(b, i)
    {
      StoredGroup(b, n, x, i);
    }
  }

  lemma GroupDigits(held: seq<byte>, p: nat)
    requires |held| == 16
    ensures forall i :: 0 <= i < 8 ==>
      (Parted(Groups(held), 16, p, HOST)[i] == if i < p / 16 then 0
       else if i == p / 16 && p % 16 != 0 then GroupOf(held, i) % Two(16 - p % 16) else GroupOf(held, i))
    ensures forall i :: 0 <= i < 8 ==>
      (Parted(Groups(held), 16, p, NETWORK)[i] == if i < p / 16 then GroupOf(held, i)
       else if i == p / 16 && p % 16 != 0 then GroupOf(held, i) - GroupOf(held, i) % Two(16 - p % 16) else 0)
  {
    hide Two, Pow, Groups, Parted, GroupOf;
    forall i | 0 <= i < 8
      ensures Parted(Groups(held), 16, p, HOST)[i] == if i < p / 16 then 0
              else if i == p / 16 && p % 16 != 0 then GroupOf(held, i) % Two(16 - p % 16) else GroupOf(held, i)
      ensures Parted(Groups(held), 16, p, NETWORK)[i] == if i < p / 16 then GroupOf(held, i)
              else if i == p / 16 && p % 16 != 0 then GroupOf(held, i) - GroupOf(held, i) % Two(16 - p % 16) else 0
    {
      GroupDigit(held, p, i);
    }
  }

  lemma GroupAt(b: seq<byte>, n: nat)
    requires |b| == 16 && n < 8
    ensures Groups(b)[n] == GroupOf(b, n)
  {
    assert b == b[..2 * n] + b[2 * n..];
    GroupsConcat(b[..2 * n], b[2 * n..]);
  }
}
