/** Addresses as values: their digits, their order, their network and host parts. */
module NetAddress {
  import opened Numerals
  import opened NetDigits

  datatype Kind = NONE | IPV4 | IPV6

  datatype Address = Address(kind: Kind, bytes: seq<byte>)

  const EMPTY := Address(NONE, [])

  predicate Sound(a: Address) {
    |a.bytes| == match a.kind case NONE => 0 case IPV4 => 4 case IPV6 => 16
  }

  function Width(k: Kind): nat {
    if k == IPV6 then 16 else 8
  }

  function Bits(k: Kind): nat {
    match k case NONE => 0 case IPV4 => 32 case IPV6 => 128
  }

  type word = x: int | 0 <= x < 65536

  function Word(low: byte, high: byte): word {
    low + 256 * high
  }

  /** The groups of an IPv6 buffer; each lies in it low byte first. */
  function Groups(b: seq<byte>): (g: seq<word>)
    ensures |g| == |b| / 2
  {
    if |b| < 2 then [] else [Word(b[0], b[1])] + Groups(b[2..])
  }

  function Ungrouped(g: seq<word>): (b: seq<byte>)
    ensures |b| == 2 * |g|
  {
    if g == [] then [] else [g[0] % 256, g[0] / 256] + Ungrouped(g[1..])
  }

  function Digits(a: Address): (d: seq<nat>)
    requires Sound(a)
    ensures |d| == match a.kind case NONE => 0 case IPV4 => 4 case IPV6 => 8
  {
    if a.kind == IPV6 then Groups(a.bytes) else a.bytes
  }

  /** The number an address stands for. */
  function Number(a: Address): nat
    requires Sound(a)
  {
    Value(Digits(a), Width(a.kind))
  }

  /** The number its buffer denotes when read byte by byte, which is what the operators compare. */
  function Raw(a: Address): nat {
    Value(a.bytes, 8)
  }

  predicate Zero(b: seq<byte>) {
    forall i :: 0 <= i < |b| ==> b[i] == 0
  }

  // ---------- Byte facts ----------

  lemma Widths()
    ensures Two(8) == 256 && Two(16) == 65536
  {
    assert Pow(2, 4) == 16;
    assert Pow(2, 8) == 256;
    assert Pow(2, 12) == 4096;
  }

  lemma BytesFit(b: seq<byte>)
    ensures Fits(b, 8)
  {
    Widths();
  }

  lemma DigitsFit(a: Address)
    requires Sound(a)
    ensures Fits(Digits(a), Width(a.kind))
  {
    Widths();
  }

  lemma {:induction false} Regroup(g: seq<word>)
    ensures Groups(Ungrouped(g)) == g
  {
    if g != [] {
      Regroup(g[1..]);
      assert Ungrouped(g)[2..] == Ungrouped(g[1..]);
    }
  }

  lemma {:induction false} Ungroup(b: seq<byte>)
    requires |b| % 2 == 0
    ensures Ungrouped(Groups(b)) == b
  {
    if b != [] {
      Ungroup(b[2..]);
      Divides(Word(b[0], b[1]), b[1], 256, b[0]);
      assert Groups(b)[1..] == Groups(b[2..]);
    }
  }

  lemma GroupsCons(x: byte, y: byte, b: seq<byte>)
    ensures Groups([x, y] + b) == [Word(x, y)] + Groups(b)
  {
    assert ([x, y] + b)[2..] == b;
  }

  lemma {:induction false} GroupsConcat(a: seq<byte>, b: seq<byte>)
    requires |a| % 2 == 0
    ensures Groups(a + b) == Groups(a) + Groups(b)
  {
    if a == [] {
      assert a + b == b;
    } else {
      hide Groups;
      var x, y, rest := a[0], a[1], a[2..];
      GroupsConcat(rest, b);
      GroupsCons(x, y, rest);
      GroupsCons(x, y, rest + b);
      assert a == [x, y] + rest && a + b == [x, y] + (rest + b);
      Assoc([Word(x, y)], Groups(rest), Groups(b));
    }
  }

  lemma UngroupedCons(x: word, g: seq<word>)
    ensures Ungrouped([x] + g) == [x % 256, x / 256] + Ungrouped(g)
  {
    assert ([x] + g)[1..] == g;
  }

  lemma {:induction false} UngroupedConcat(g: seq<word>, h: seq<word>)
    ensures Ungrouped(g + h) == Ungrouped(g) + Ungrouped(h)
  {
    if g == [] {
      assert g + h == h;
    } else {
      hide Ungrouped;
      var x, rest := g[0], g[1..];
      UngroupedConcat(rest, h);
      UngroupedCons(x, rest);
      UngroupedCons(x, rest + h);
      assert g == [x] + rest && g + h == [x] + (rest + h);
      Assoc([x % 256, x / 256], Ungrouped(rest), Ungrouped(h));
    }
  }

  lemma {:induction false} LEOfBytes(s: seq<byte>)
    ensures FromLE(s) < Pow(256, |s|) && ToLE(FromLE(s), |s|) == s
    ensures FromLE(s) == 0 <==> Zero(s)
  {
    if s != [] {
      LEOfBytes(s[1..]);
      Divides(FromLE(s), FromLE(s[1..]), 256, s[0]);
      assert s == [s[0]] + s[1..];
      assert Zero(s[1..]) ==> forall i :: 1 <= i < |s| ==> s[i] == s[1..][i - 1];
    }
  }

  /** Read backwards, a buffer's low byte first is its high byte first. */
  lemma {:induction false} MirroredValue(b: seq<byte>)
    ensures FromLE(Mirrored(b)) == Value(b, 8)
  {
    Widths();
    if b != [] {
      var n := |b| - 1;
      MirroredValue(b[..n]);
      assert Mirrored(b)[1..] == Mirrored(b[..n]);
    }
  }

  // ---------- Order ----------

  /** The order the operators decide: within one kind, by the buffer's bytes. */
  predicate Less(a: Address, b: Address) {
    a.kind == b.kind != NONE && Raw(a) < Raw(b)
  }

  predicate AtMost(a: Address, b: Address) {
    a.kind == b.kind != NONE && Raw(a) <= Raw(b)
  }

  /** One total order within a kind, for IPv4 that of the numbers; no order and no equality between kinds. */
  lemma TotalOrder(a: Address, b: Address, c: Address)
    requires Sound(a) && Sound(b) && Sound(c)
    ensures a.kind == b.kind != NONE ==>
      (Less(a, b) <==> !AtMost(b, a)) && (AtMost(a, b) && AtMost(b, a) <==> a == b)
    ensures a.kind != b.kind ==> !AtMost(a, b) && !AtMost(b, a)
    ensures AtMost(a, b) && AtMost(b, c) ==> AtMost(a, c)
    ensures Less(a, b) <==> AtMost(a, b) && a != b
    ensures a.kind == b.kind == IPV4 ==> (Less(a, b) <==> Number(a) < Number(b))
  {
    BytesFit(a.bytes);
    BytesFit(b.bytes);
    if a.kind == b.kind {
      Injective(a.bytes, b.bytes, 8);
    }
  }

  /** The bytes of two groups differ in opposite directions. */
  predicate Opposed(g: nat, h: nat) {
    (g % 256 < h % 256 && g / 256 > h / 256) || (g % 256 > h % 256 && g / 256 < h / 256)
  }

  /** IPv6 addresses are ordered as numbers exactly when their first differing groups are not opposed. */
  lemma GroupOrder(a: Address, b: Address)
    requires Sound(a) && Sound(b) && a.kind == b.kind == IPV6 && a != b
    ensures Digits(a) != Digits(b)
    ensures var i := Differ(Digits(a), Digits(b));
            (Less(a, b) <==> Number(a) < Number(b)) <==> !Opposed(Digits(a)[i], Digits(b)[i])
  {
    hide Groups, Value, Ungrouped, Two, Pow, Differ;
    Ungroup(a.bytes);
    Ungroup(b.bytes);
    DigitsFit(a);
    DigitsFit(b);
    var g, h := Groups(a.bytes), Groups(b.bytes);
    var i := Differ(g, h);
    if g[i] < h[i] {
      FirstDifference(g, h, 16, i);
      RawAtGroup(g, h, i);
    } else {
      FirstDifference(h, g, 16, i);
      RawAtGroup(h, g, i);
    }
  }

  lemma RawAtGroup(g: seq<word>, h: seq<word>, i: nat)
    requires |g| == |h| && i < |g| && g[..i] == h[..i] && g[i] < h[i]
    ensures Value(Ungrouped(g), 8) < Value(Ungrouped(h), 8) <==> !Opposed(g[i], h[i])
    ensures Value(Ungrouped(g), 8) != Value(Ungrouped(h), 8)
  {
    hide Value;
    var p := Ungrouped(g[..i]);
    var x, y := Ungrouped(g[i + 1..]), Ungrouped(h[i + 1..]);
    AtGroup(g, i);
    AtGroup(h, i);
    ByteOrder(p, g[i] % 256, g[i] / 256, x, h[i] % 256, h[i] / 256, y);
  }

  lemma AtGroup(g: seq<word>, i: nat)
    requires i < |g|
    ensures Ungrouped(g) == Ungrouped(g[..i]) + [g[i] % 256, g[i] / 256] + Ungrouped(g[i + 1..])
  {
    hide Ungrouped;
    assert g == g[..i] + g[i..];
    UngroupedConcat(g[..i], g[i..]);
    assert g[i..][0] == g[i] && g[i..][1..] == g[i + 1..];
    UngroupedHead(g[i..]);
    Assoc(Ungrouped(g[..i]), [g[i] % 256, g[i] / 256], Ungrouped(g[i + 1..]));
  }

  lemma UngroupedHead(g: seq<word>)
    requires g != []
    ensures Ungrouped(g) == [g[0] % 256, g[0] / 256] + Ungrouped(g[1..])
  {
  }

  lemma ByteOrder(p: seq<byte>, k: byte, l: byte, x: seq<byte>, m: byte, n: byte, y: seq<byte>)
    requires |x| == |y| && k + 256 * l < m + 256 * n
    ensures Value(p + [k, l] + x, 8) < Value(p + [m, n] + y, 8) <==> k < m || (k == m && l < n)
    ensures Value(p + [k, l] + x, 8) != Value(p + [m, n] + y, 8)
  {
    hide Value;
    var a, b := p + [k, l] + x, p + [m, n] + y;
    BytesFit(a);
    BytesFit(b);
    assert a[..|p|] == p == b[..|p|];
    if k < m {
      FirstDifference(a, b, 8, |p|);
    } else if k > m {
      FirstDifference(b, a, 8, |p|);
    } else {
      assert a[..|p| + 1] == p + [k] == b[..|p| + 1];
      FirstDifference(a, b, 8, |p| + 1);
    }
  }

  /** `::2` is above `::100`. */
  lemma NotNumeric(a: Address, b: Address)
    requires a == Address(IPV6, Ungrouped([0, 0, 0, 0, 0, 0, 0, 0x100]))
    requires b == Address(IPV6, Ungrouped([0, 0, 0, 0, 0, 0, 0, 2]))
    ensures Less(a, b) && Number(b) < Number(a)
  {
    hide Ungrouped, Groups, Value;
    var g: seq<word>, h: seq<word> := [0, 0, 0, 0, 0, 0, 0, 0x100], [0, 0, 0, 0, 0, 0, 0, 2];
    Regroup(g);
    Regroup(h);
    assert g[..7] == h[..7];
    DigitsFit(a);
    DigitsFit(b);
    FirstDifference(h, g, 16, 7);
    RawAtGroup(h, g, 7);
  }
}
