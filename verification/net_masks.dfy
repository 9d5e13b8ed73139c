/** Masks: the text of a prefix, the prefix of a text, and imposing either. */
module NetMasks {
  import opened Numerals
  import opened NetDigits
  import opened NetAddress
  import opened NetParts
  import opened NetText
  import NetRoundTrip

  // ---------- Counting bits ----------

  function Ones(x: nat, w: nat): (n: nat)
    ensures n <= w
  {
    if w == 0 then 0 else Bit(x, w - 1) + Ones(x, w - 1)
  }

  function OnesIn(b: seq<byte>): (n: nat)
    ensures n <= 8 * |b|
  {
    if b == [] then 0 else OnesIn(b[..|b| - 1]) + Ones(b[|b| - 1], 8)
  }

  /** The bits the first `n` digits keep of a prefix of `p` bits. */
  function Total(w: nat, p: nat, n: nat): nat
    requires w > 0
  {
    if n == 0 then 0 else Total(w, p, n - 1) + Kept(w, p, n - 1)
  }

  lemma {:induction false} TotalIs(w: nat, p: nat, n: nat)
    requires w > 0
    ensures Total(w, p, n) == if p <= w * n then p else w * n
  {
    hide Kept;
    if n > 0 {
      TotalIs(w, p, n - 1);
      assert w * n == w * (n - 1) + w;
      if p <= w * n {
        LastKept(w, p, n);
      } else {
        BeyondKept(w, p, n);
      }
    }
  }

  lemma BeyondKept(w: nat, p: nat, n: nat)
    requires w > 0 && n > 0 && p > w * n
    ensures Kept(w, p, n - 1) == w
  {
    Euclidean(p, w);
    if p / w < n {
      AtLeast(n, p / w + 1, w);
    }
  }

  lemma Euclidean(p: nat, w: nat)
    requires w > 0
    ensures p == p / w * w + p % w && p < (p / w + 1) * w
  {
  }

  lemma Powers()
    ensures Two(0) == 1 && Two(1) == 2 && Two(2) == 4 && Two(3) == 8 && Two(4) == 16
    ensures Two(5) == 32 && Two(6) == 64 && Two(7) == 128 && Two(8) == 256
  {
    assert Pow(2, 3) == 8;
    assert Pow(2, 6) == 64;
  }

  lemma HighOnes(x: byte, k: nat)
    requires k <= 8 && x == 256 - Two(8 - k)
    ensures Ones(x, 8) == k
  {
    Powers();
    hide Two, Pow, Ones;
    OnesOfByte(x);
  }

  lemma OnesOfByte(x: byte)
    ensures Ones(x, 8) == x % 2 + x / 2 % 2 + x / 4 % 2 + x / 8 % 2 + x / 16 % 2 + x / 32 % 2 + x / 64 % 2 + x / 128 % 2
  {
    Powers();
    hide Two, Pow, Ones;
    OnesStep(x, 7);
    OnesStep(x, 6);
    OnesStep(x, 5);
    OnesStep(x, 4);
    OnesStep(x, 3);
    OnesStep(x, 2);
    OnesStep(x, 1);
    OnesStep(x, 0);
  }

  lemma OnesStep(x: nat, w: nat)
    ensures Ones(x, 0) == 0 && Ones(x, w + 1) == x / Two(w) % 2 + Ones(x, w)
  {
  }

  // ---------- Masks ----------

  function AllOnes(k: Kind): (a: Address)
    ensures Sound(a) && a.kind == k
  {
    match k
    case NONE => EMPTY
    case IPV4 => Address(IPV4, [255, 255, 255, 255])
    case IPV6 => Address(IPV6, Ungrouped([0xFFFF, 0xFFFF, 0xFFFF, 0xFFFF, 0xFFFF, 0xFFFF, 0xFFFF, 0xFFFF]))
  }

  function Mask(k: Kind, p: nat): (a: Address)
    ensures Sound(a) && a.kind == k
  {
    Imposed(AllOnes(k), p, NETWORK)
  }

  lemma FullDigits(k: Kind)
    ensures forall i :: 0 <= i < |Digits(AllOnes(k))| ==> Digits(AllOnes(k))[i] == Two(Width(k)) - 1
  {
    Widths();
    if k == IPV6 {
      hide Ungrouped, Groups, Two, Pow;
      Regroup([0xFFFF, 0xFFFF, 0xFFFF, 0xFFFF, 0xFFFF, 0xFFFF, 0xFFFF, 0xFFFF]);
    }
  }

  lemma FullShare(w: nat, kept: nat)
    requires kept <= w
    ensures Two(w) >= Two(w - kept) && Share(Two(w) - 1, w, kept, NETWORK) == Two(w) - Two(w - kept)
  {
    hide Two, Pow;
    var m, t := Two(w - kept), Two(kept);
    TwoSum(kept, w - kept);
    assert t * m == (t - 1) * m + m by {
      Spread(t - 1, 1, m);
    }
    Divides(Two(w) - 1, t - 1, m, m - 1);
  }

  lemma MaskDigit(k: Kind, p: nat, i: nat)
    requires 0 < p <= Bits(k) && i < |Digits(Mask(k, p))|
    ensures var kept := Kept(Width(k), p, i);
            Two(Width(k)) >= Two(Width(k) - kept) && Digits(Mask(k, p))[i] == Two(Width(k)) - Two(Width(k) - kept)
  {
    hide Two, Pow, Kept, Share, Imposed, AllOnes;
    ImposedDigits(AllOnes(k), p, NETWORK);
    FullDigits(k);
    FullShare(Width(k), Kept(Width(k), p, i));
  }

  lemma GroupOnes(g: word, kept: nat)
    requires kept <= 16 && g == 65536 - Two(16 - kept)
    ensures Ones(g % 256, 8) + Ones(g / 256, 8) == kept
  {
    Widths();
    if kept <= 8 {
      TwoSum(8 - kept, 8);
      var t := Two(8 - kept);
      SmallPower(8 - kept);
      hide Two, Pow, Ones;
      Divides(g, 256 - t, 256, 0);
      HighOnes(256 - t, kept);
      HighOnes(0, 0);
    } else {
      SmallPower(16 - kept);
      hide Two, Pow, Ones;
      Divides(g, 255, 256, 256 - Two(16 - kept));
      HighOnes(256 - Two(16 - kept), kept - 8);
      assert Two(0) == 1 by {
        Powers();
      }
      HighOnes(255, 8);
    }
  }

  lemma SmallPower(k: nat)
    requires k <= 8
    ensures Two(k) <= 256
  {
    Powers();
  }

  lemma {:induction false} OctetCount(b: seq<byte>, p: nat)
    requires forall i :: 0 <= i < |b| ==> b[i] == 256 - Two(8 - Kept(8, p, i))
    ensures OnesIn(b) == Total(8, p, |b|)
  {
    hide Two, Pow, Kept, Ones;
    if b != [] {
      var n := |b| - 1;
      OctetCount(b[..n], p);
      HighOnes(b[n], Kept(8, p, n));
    }
  }

  lemma {:induction false} GroupCount(g: seq<word>, p: nat)
    requires forall i :: 0 <= i < |g| ==> g[i] == 65536 - Two(16 - Kept(16, p, i))
    ensures OnesIn(Ungrouped(g)) == Total(16, p, |g|)
    decreases |g|
  {
    hide Two, Pow, Kept, Ones, Ungrouped, OnesIn;
    if g == [] {
      OnesOfNone();
    } else {
      var n := |g| - 1;
      GroupCount(g[..n], p);
      GroupOnes(g[n], Kept(16, p, n));
      assert g == g[..n] + [g[n]];
      UngroupedConcat(g[..n], [g[n]]);
      UngroupedHead([g[n]]);
      OnesOfNone();
      assert [g[n]][1..] == [];
      OnesPair(Ungrouped(g[..n]), g[n] % 256, g[n] / 256);
      assert Ungrouped(g) == Ungrouped(g[..n]) + [g[n] % 256, g[n] / 256];
      assert Total(16, p, |g|) == Total(16, p, n) + Kept(16, p, n);
    }
  }

  lemma OnesOfNone()
    ensures Ungrouped([]) == [] && OnesIn([]) == 0
  {
  }

  lemma OnesPair(b: seq<byte>, x: byte, y: byte)
    ensures Ungrouped([]) == [] && OnesIn(b + [x, y]) == OnesIn(b) + Ones(x, 8) + Ones(y, 8)
  {
    hide Ones;
    assert (b + [x, y])[..|b| + 1] == b + [x];
    assert (b + [x])[..|b|] == b;
  }

  /** The mask of a prefix has exactly its bits. */
  lemma MaskOnes(k: Kind, p: nat)
    requires 0 < p <= Bits(k)
    ensures OnesIn(Mask(k, p).bytes) == p
  {
    hide Two, Pow, Kept, OnesIn, Mask, Groups, Ungrouped;
    Widths();
    var m := Mask(k, p);
    forall i | 0 <= i < |Digits(m)|
      ensures Digits(m)[i] == Two(Width(k)) - Two(Width(k) - Kept(Width(k), p, i))
    {
      MaskDigit(k, p, i);
    }
    TotalIs(Width(k), p, |Digits(m)|);
    if k == IPV4 {
      OctetCount(m.bytes, p);
    } else {
      GroupCount(Groups(m.bytes), p);
      Ungroup(m.bytes);
    }
  }

  // ---------- Texts of masks ----------

  /** The verdict of `mask2Prefix` for a mask that was read as `r`. */
  function PrefixOf(r: Reading, k: Kind): nat {
    if r.ok && r.address.kind == k != NONE then OnesIn(r.address.bytes) else 0
  }

  function PrefixOfText(text: string, hosted: Kind, k: Kind): (p: nat)
    requires Room(text, hosted)
  {
    PrefixOf(Read(EMPTY, text, hosted), k)
  }

  /** The verdict of `prefix2Mask`. */
  function MaskText(p: nat, k: Kind): string {
    if 0 < p <= Bits(k) then Printed(Mask(k, p), SHORT) else ""
  }

  lemma MaskZeros(p: nat, i: nat)
    requires 0 < p <= 128 && i < 8
    ensures Groups(Mask(IPV6, p).bytes)[i] == 0 <==> 16 * i >= p
  {
    hide Two, Pow, Mask, Groups;
    MaskDigit(IPV6, p, i);
    Widths();
    if Kept(16, p, i) > 0 {
      LowerPower(16 - Kept(16, p, i), 16);
    }
  }

  lemma {:induction false} LowerPower(k: nat, w: nat)
    requires k < w
    ensures Two(k) < Two(w)
    decreases w
  {
    assert Two(w) == 2 * Two(w - 1);
    if k < w - 1 {
      LowerPower(k, w - 1);
    }
  }

  lemma MaskReads(k: Kind, p: nat)
    requires 0 < p <= Bits(k)
    ensures Room(MaskText(p, k), k) && Read(EMPTY, MaskText(p, k), k) == Reading(true, Mask(k, p))
  {
    hide Mask, Groups, Read, Room, Printed, OneRun;
    var m := Mask(k, p);
    if k == IPV4 {
      IPv4RoundTrip(m, SHORT, EMPTY);
    } else {
      var g := Groups(m.bytes);
      MaskZeros(p, 0);
      ZerosLast(g, p);
      NetRoundTrip.IPv6RoundTrip(m, SHORT, EMPTY);
    }
  }

  lemma ZerosLast(g: seq<word>, p: nat)
    requires 0 < p <= 128 && g == Groups(Mask(IPV6, p).bytes)
    ensures OneRun(g)
  {
    hide Mask, Groups;
    forall i | 0 <= i < 8
      ensures g[i] == 0 <==> 16 * i >= p
    {
      MaskZeros(p, i);
    }
  }

  /** `mask2Prefix` undoes `prefix2Mask`. */
  lemma PrefixOfMask(k: Kind, p: nat)
    requires 0 < p <= Bits(k)
    ensures Room(MaskText(p, k), k) && PrefixOfText(MaskText(p, k), k, k) == p
  {
    hide Mask, Read, Room, MaskText, OnesIn;
    MaskReads(k, p);
    MaskOnes(k, p);
  }

  /** The effect of `impose` with a mask. */
  function ImposedByText(a: Address, text: string, hosted: Kind, part: Part): (r: Address)
    requires Sound(a) && Room(text, hosted)
    ensures Sound(r) && r.kind == a.kind
  {
    Imposed(a, PrefixOfText(text, hosted, a.kind), part)
  }

  /** Imposing the mask of a prefix is imposing the prefix. */
  lemma ImposeMask(a: Address, p: nat, part: Part)
    requires Sound(a) && 0 < p <= Bits(a.kind)
    ensures Room(MaskText(p, a.kind), a.kind)
    ensures ImposedByText(a, MaskText(p, a.kind), a.kind, part) == Imposed(a, p, part)
  {
    hide Imposed, MaskText, PrefixOfText, Room;
    PrefixOfMask(a.kind, p);
  }
}
