/** Printing an IPv6 address and parsing it back: the formats and addresses for which this is the identity. */
module NetRoundTrip {
  import opened Numerals
  import opened Texts
  import opened NetAddress
  import opened NetText

  // ---------- The text is taken apart again ----------

  lemma {:induction false} JoinFree(p: seq<string>, sep: char, c: char)
    requires c != sep && Clear(p, c)
    ensures c !in Join(p, sep)
    decreases |p|
  {
    if |p| > 1 {
      JoinFree(p[..|p| - 1], sep, c);
    }
  }

  lemma Unpieced(p: seq<string>)
    requires AllTidy(p) && |p| >= 2
    ensures Join(p, ':') != "" && Sections(Join(p, ':')) == p
  {
    hide Join, Split, Trim;
    JoinFree(p, ':', '[');
    SplitJoin(p, ':');
    JoinLength(p, ':');
    assert Trimmed(p) == p;
  }

  lemma DottedTidy(b: seq<byte>, format: Format)
    requires |b| == 4
    ensures Tidy(Dotted(b, format)) && Dotted(b, format) != ""
  {
    hide Octet, Join, Plain;
    var p, s := Octets(b, format), Dotted(b, format);
    OctetsClear(b, format);
    DottedLength(b, format);
    forall c | c == ':' || c == '[' || IsSpace(c)
      ensures c !in s
    {
      forall i | 0 <= i < |p|
        ensures c !in p[i]
      {
        PlainFree(p[i], c);
      }
      JoinFree(p, '.', c);
    }
    assert !IsSpace(s[0]) && !IsSpace(s[|s| - 1]);
  }

  lemma PlainFree(s: string, c: char)
    requires Plain(s) && (c == ':' || c == '[' || IsSpace(c))
    ensures c !in s
  {
    assert FigureOf(c) >= 16;
  }

  lemma PiecesTidy(g: seq<word>, format: Format)
    requires |g| >= 2
    ensures AllTidy(Pieces(g, format)) && |Pieces(g, format)| >= 2
  {
    hide Tidy, Shortened, Group;
    SpelledReads(g, format);
    ShortenedTidy(g);
    PlainTidy("");
  }

  lemma ColonsTidy(b: seq<byte>, format: Format)
    requires |b| == 16
    ensures AllTidy(Colons(b, format)) && |Colons(b, format)| >= 2
  {
    hide Tidy, Dotted, Pieces, Groups, Broadcast;
    if Broadcast(b) {
      PiecesTidy(Groups(b)[..6], format);
      DottedTidy(b[12..], format);
    } else {
      PiecesTidy(Groups(b), format);
    }
  }

  // ---------- LONG and MIDDLE ----------

  lemma WholeRoundTrip(a: Address, format: Format)
    requires Sound(a) && a.kind == IPV6 && format != SHORT && !Broadcast(a.bytes)
    ensures Room6(Colons(a.bytes, format)) && Read6(Colons(a.bytes, format)) == Reading(true, a)
  {
    hide Tidy, Group, HexWord, Groups, Ungrouped, Lead, Trail;
    var g := Groups(a.bytes);
    var p := Spelled(g, format);
    SpelledReads(g, format);
    LeadWords(p);
    Ungroup(a.bytes);
    assert p[0] != "";
    assert g + Zeros(0) == g;
  }

  lemma BroadcastLost(a: Address, format: Format)
    requires Sound(a) && a.kind == IPV6 && format != SHORT && Broadcast(a.bytes)
    ensures var p := Colons(a.bytes, format);
            Room6(p) && Read6(p).ok && Read6(p).address != a
  {
    hide Tidy, Group, HexWord, Groups, Ungrouped, Lead, Trail, Dotted, Words, Overlay;
    var g := Groups(a.bytes)[..6];
    var d := Dotted(a.bytes[12..], format);
    var p := Spelled(g, format) + [d];
    SpelledReads(g, format);
    DottedTidy(a.bytes[12..], format);
    assert p[0] == Spelled(g, format)[0] != "";
    LeadWords(p);
    TrailWords(p);
    assert |Words(p)| == 7;
    OneShort(Spelled(g, format), d);
    Regroup(Overlay(Words(p) + Zeros(1), Words(p)));
    assert Groups(a.bytes)[5] == g[5];
  }

  /** Seven groups, read from the front and then from the back: the sixth becomes the fifth. */
  lemma OneShort(p: seq<string>, d: string)
    requires |p| == 6
    ensures |Words(p + [d])| == 7
    ensures Overlay(Words(p + [d]) + Zeros(1), Words(p + [d]))[5] == Words(p)[4]
  {
    hide HexWord;
  }

  // ---------- SHORT ----------

  lemma BroadcastHead(b: seq<byte>)
    requires Broadcast(b)
    ensures Ungrouped([0, 0, 0, 0, 0, 0xFFFF]) == b[..12]
  {
    hide Ungrouped, Groups;
    var g := Groups(b);
    Ungroup(b);
    assert g == g[..6] + g[6..];
    UngroupedConcat(g[..6], g[6..]);
  }

  lemma BroadcastPieces()
    ensures var q := Shortened([0, 0, 0, 0, 0, 0xFFFF]);
            q != [] && q[0] == "" && Trail(q) == [0xFFFF]
  {
    hide Trail, Shortened, FirstZero;
    var g: seq<word> := [0, 0, 0, 0, 0, 0xFFFF];
    ShortenedReads(g);
    ShortenedTidy(g);
    ZeroAtFront(g);
    assert g[0] == 0;
    assert g[0..] == g;
    NonzeroBroadcast();
  }

  lemma BroadcastTail(tail: seq<byte>)
    requires |tail| == 4
    ensures |Split(Dotted(tail, SHORT), '.')| == 4
    ensures var r := Filled(NOWHERE, 12, Split(Dotted(tail, SHORT), '.'));
            r.0 && r.1[12..] == tail
  {
    hide Dotted, Filled, Split;
    DottedSplits(tail, SHORT);
    OctetsFill(tail, NOWHERE, 12, SHORT);
  }

  lemma BroadcastShort(a: Address)
    requires Sound(a) && a.kind == IPV6 && Broadcast(a.bytes)
    ensures Room6(Colons(a.bytes, SHORT)) && Read6(Colons(a.bytes, SHORT)) == Reading(true, a)
  {
    hide Groups, Ungrouped, Lead, Trail, Dotted, Shortened, Filled, Split;
    var tail := a.bytes[12..];
    var q, d := Shortened([0, 0, 0, 0, 0, 0xFFFF]), Dotted(tail, SHORT);
    var p := q + [d];
    BroadcastPieces();
    BroadcastTail(tail);
    DottedLength(tail, SHORT);
    BroadcastHead(a.bytes);
    assert p[..|p| - 1] == q && p[0] == q[0];
    assert Overlay(Zeros(6), [0xFFFF]) == [0, 0, 0, 0, 0, 0xFFFF];
    assert a.bytes == a.bytes[..12] + tail;
  }

  lemma ZeroAtFront(g: seq<word>)
    requires g != [] && g[0] == 0
    ensures FirstZero(g) == 0
  {
  }

  lemma NonzeroBroadcast()
    ensures Nonzero([0, 0, 0, 0, 0, 0xFFFF]) == [0xFFFF]
  {
    NonzeroOfZeros([0, 0, 0, 0, 0]);
    NonzeroSnoc([0, 0, 0, 0, 0], 0xFFFF);
    assert [0, 0, 0, 0, 0] + [0xFFFF as word] == [0, 0, 0, 0, 0, 0xFFFF];
  }

  /** What the pieces of a SHORT text hold after their last empty one. */
  function Rear(g: seq<word>): seq<word>
    requires g != []
  {
    if g[|g| - 1] == 0 then [] else Nonzero(g[FirstZero(g)..])
  }

  lemma PiecesRead(g: seq<word>)
    requires |g| == 8
    ensures var p, s := Pieces(g, SHORT), FirstZero(g);
            && p != []
            && Lead(p) == g[..s]
            && (s < 8 ==> Trail(p) == Rear(g))
            && (p[0] == "" <==> g[0] == 0)
            && (g[7] == 0 <==> p[|p| - 1] == "")
            && (g[7] != 0 ==> 1 <= |p[|p| - 1]| <= 4)
  {
    hide Lead, Trail, FirstZero, Tidy, Numeral;
    var q := Shortened(g);
    var init := g[..7];
    assert g == init + [g[7]];
    ShortenedReads(g);
    ShortenedTidy(g);
    ShortenedSnoc(init, g[7]);
    FirstZeroSnoc(init, g[7]);
    NonzeroSnoc(g[..7], g[7]);
    hide Shortened;
    if g[7] != 0 {
      GroupReads(g[7], SHORT);
      NotEmpty(Numeral(g[7], 16));
    } else if 0 in init {
      LeadConcat(q, [""]);
      TrailSnoc(q, "");
    } else {
      assert g[7..] == [0];
      assert Nonzero([0]) == [];
      assert q == Shortened(init) + [""];
    }
  }

  lemma OverlayMeans(g: seq<word>)
    requires |g| == 8 && 0 in g
    ensures |Rear(g)| <= 8 - FirstZero(g)
    ensures Overlay(g[..FirstZero(g)] + Zeros(8 - FirstZero(g)), Rear(g)) == g <==> OneRun(g)
  {
    hide FirstZero, Nonzero, OneRun, Overlay;
    var s := FirstZero(g);
    var r := g[s..];
    RunFrom(g, s);
    LastOf(g, s);
    if g[7] == 0 {
      AllZero(r);
      Layers(g[..s], 8 - s, []);
      assert Zeros(8 - s) + [] == Zeros(8 - s);
      SameRest(g, s, Zeros(8 - s));
    } else {
      ZerosFirst(r);
      Layers(g[..s], 8 - s, Nonzero(r));
      SameRest(g, s, Zeros(8 - s - |Nonzero(r)|) + Nonzero(r));
    }
  }

  lemma LastOf(g: seq<word>, s: nat)
    requires s < |g|
    ensures g[s..] != [] && g[s..][|g| - s - 1] == g[|g| - 1]
  {
  }

  lemma SameRest(g: seq<word>, s: nat, r: seq<word>)
    requires s <= |g|
    ensures g[..s] + r == g <==> r == g[s..]
  {
    assert g == g[..s] + g[s..];
    assert r == (g[..s] + r)[s..];
  }

  lemma AllZero(r: seq<word>)
    requires r != [] && r[0] == 0 && r[|r| - 1] == 0
    ensures r == Zeros(|r|) <==> OneRun(r)
  {
    if OneRun(r) {
      assert forall j :: 0 < j < |r| - 1 ==> r[j] == 0;
    }
  }

  lemma Layers(a: seq<word>, k: nat, n: seq<word>)
    requires |n| <= k
    ensures Overlay(a + Zeros(k), n) == a + (Zeros(k - |n|) + n)
  {
    assert (a + Zeros(k))[..|a| + k - |n|] == a + Zeros(k - |n|);
  }

  lemma SameGroups(g: seq<word>, a: Address)
    requires Sound(a) && a.kind == IPV6
    ensures Address(IPV6, Ungrouped(g)) == a <==> g == Groups(a.bytes)
  {
    Regroup(g);
    Ungroup(a.bytes);
  }

  predicate Shorts(a: Address)
    requires Sound(a) && a.kind == IPV6
  {
    var g, p := Groups(a.bytes), Colons(a.bytes, SHORT);
    && Room6(p)
    && (Read6(p).address == a <==> OneRun(g))
    && (Read6(p).ok <==> g[0] != 0 || g[7] != 0)
  }

  lemma ShortRoundTrip(a: Address)
    requires Sound(a) && a.kind == IPV6 && !Broadcast(a.bytes)
    ensures Shorts(a)
  {
    hide Groups, Shorts;
    var g := Groups(a.bytes);
    if g[0] == 0 {
      ShortBehind(a);
    } else if 0 in g {
      ShortBefore(a);
    } else {
      ShortWhole(a);
    }
  }

  /** A zero group at the front: the groups are read from the back alone. */
  lemma ShortBehind(a: Address)
    requires Sound(a) && a.kind == IPV6 && !Broadcast(a.bytes) && Groups(a.bytes)[0] == 0
    ensures Shorts(a)
  {
    hide Tidy, Groups, Ungrouped, Lead, Trail, Pieces, FirstZero, OneRun, Nonzero;
    var g := Groups(a.bytes);
    PiecesRead(g);
    ZeroAtFront(g);
    OverlayMeans(g);
    SameGroups(Overlay(Zeros(8), Rear(g)), a);
    assert [] + Zeros(8) == Zeros(8) && g[..0] == [];
    NowhereZeros();
  }

  /** Zero groups, but not at the front: those read from the back overlay those read from the front. */
  lemma ShortBefore(a: Address)
    requires Sound(a) && a.kind == IPV6 && !Broadcast(a.bytes) && Groups(a.bytes)[0] != 0 && 0 in Groups(a.bytes)
    ensures Shorts(a)
  {
    hide Tidy, Groups, Ungrouped, Lead, Trail, Pieces, FirstZero, OneRun, Nonzero, Rear;
    var g := Groups(a.bytes);
    PiecesRead(g);
    OverlayMeans(g);
    SameGroups(Overlay(g[..FirstZero(g)] + Zeros(8 - FirstZero(g)), Rear(g)), a);
  }

  lemma ShortWhole(a: Address)
    requires Sound(a) && a.kind == IPV6 && !Broadcast(a.bytes) && 0 !in Groups(a.bytes)
    ensures Shorts(a)
  {
    hide Tidy, Groups, Ungrouped, Lead, Trail, Pieces, OneRun, Nonzero;
    var g := Groups(a.bytes);
    PiecesRead(g);
    assert g[..8] == g && g + Zeros(0) == g;
    SameGroups(g, a);
    NoZeros(g);
  }

  lemma NoZeros(g: seq<word>)
    requires 0 !in g
    ensures OneRun(g)
  {
  }

  lemma NowhereZeros()
    ensures Ungrouped(Overlay(Zeros(8), [])) == NOWHERE
  {
    assert Overlay(Zeros(8), []) == [0, 0, 0, 0, 0, 0, 0, 0];
    assert Ungrouped([0, 0]) == [0, 0, 0, 0];
    UngroupedConcat([0, 0], [0, 0]);
    assert [0, 0] + [0, 0] == [0, 0, 0, 0 as word];
    UngroupedConcat([0, 0, 0, 0], [0, 0, 0, 0]);
    assert [0, 0, 0, 0] + [0, 0, 0, 0] == [0, 0, 0, 0, 0, 0, 0, 0 as word];
  }

  // ---------- Any placement of the double colon ----------

  lemma {:induction false} TrailConcat(p: seq<string>, q: seq<string>)
    requires "" !in q
    ensures Trail(p + [""] + q) == Words(q)
    decreases |q|
  {
    hide HexWord, Trail;
    if q == [] {
      TrailSnoc(p, "");
      assert p + [""] + q == p + [""];
    } else {
      var init, last := q[..|q| - 1], q[|q| - 1];
      TrailConcat(p, init);
      TrailSnoc(p + [""] + init, last);
      assert p + [""] + q == (p + [""] + init) + [last];
    }
  }

  /** The pieces of a text with one double colon between two runs of groups. */
  function Doubled(front: seq<string>, back: seq<string>): seq<string> {
    (if front == [] then [""] else front) + [""] + (if back == [] then [""] else back)
  }

  /** Section 2.2 of RFC 4291: the double colon stands for the groups that are missing, wherever it is. */
  lemma DoubleColon(front: seq<string>, back: seq<string>)
    requires |front| + |back| < 8
    requires forall i :: 0 <= i < |front| ==> Plain(front[i])
    requires forall i :: 0 <= i < |back| ==> Plain(back[i]) && |back[i]| <= 4
    ensures var p := Doubled(front, back);
            && Room6(p) && Read6(p).ok == (front != [] || back != [])
            && Read6(p).address == Address(IPV6, Ungrouped(Words(front) + Zeros(8 - |front| - |back|) + Words(back)))
  {
    hide HexWord, Lead, Trail, Ungrouped, Plain, Overlay;
    NonePlain(front);
    NonePlain(back);
    DoubledTrail(front, back);
    Layers(Words(front), 8 - |front|, Words(back));
    Assoc(Words(front), Zeros(8 - |front| - |back|), Words(back));
    if front == [] {
      DoubledHead(back);
    } else {
      DoubledLead(front, back);
    }
  }

  lemma DoubledHead(back: seq<string>)
    requires |back| < 8 && "" !in back
    requires forall i :: 0 <= i < |back| ==> |back[i]| <= 4
    requires Trail(Doubled([], back)) == Words(back)
    ensures var p := Doubled([], back);
            && Room6(p) && Read6(p).ok == (back != [])
            && Read6(p).address == Address(IPV6, Ungrouped(Words([]) + Zeros(8 - |back|) + Words(back)))
  {
    hide HexWord, Lead, Trail, Ungrouped;
    var last := if back == [] then "" else back[|back| - 1];
    assert Doubled([], back)[|Doubled([], back)| - 1] == last;
    Layers([], 8, Words(back));
    assert [] + Zeros(8) == Zeros(8) && Words([]) == [];
    assert Words([]) + Zeros(8 - |back|) + Words(back) == [] + (Zeros(8 - |back|) + Words(back));
    NowhereZeros();
    if back == [] {
      assert Words(back) == [];
    } else {
      assert last in back;
    }
  }

  lemma NonePlain(p: seq<string>)
    requires forall i :: 0 <= i < |p| ==> Plain(p[i])
    ensures "" !in p
  {
    assert forall i :: 0 <= i < |p| ==> p[i] != "";
  }

  lemma DoubledTrail(front: seq<string>, back: seq<string>)
    requires "" !in back
    ensures Trail(Doubled(front, back)) == Words(back)
  {
    hide HexWord, Trail;
    var f := if front == [] then [""] else front;
    if back == [] {
      TrailSnoc(f + [""], "");
      assert Words(back) == [];
    } else {
      TrailConcat(f, back);
    }
  }

  lemma DoubledLead(front: seq<string>, back: seq<string>)
    requires front != [] && "" !in front
    ensures Lead(Doubled(front, back)) == Words(front) && Doubled(front, back)[0] != ""
  {
    hide HexWord, Lead;
    var b := if back == [] then [""] else back;
    LeadConcat(front, [""] + b);
    LeadStep("", b);
    assert Doubled(front, back) == front + ([""] + b);
    assert Words(front) + [] == Words(front);
    assert front[0] in front;
  }

  /**
   * An IPv6 address is read back from its LONG and MIDDLE texts unless it carries an IPv4 address, and from its
   * SHORT text if it does or if its zero groups are one run. Parsing denies only the SHORT text that has a zero
   * group at either end.
   */
  lemma IPv6RoundTrip(a: Address, format: Format, held: Address)
    requires Sound(a) && Sound(held) && a.kind == IPV6
    ensures Room(Printed(a, format), IPV6)
    ensures var g, r := Groups(a.bytes), Read(held, Printed(a, format), IPV6);
            && (r.address == a <==> if format == SHORT then Broadcast(a.bytes) || OneRun(g) else !Broadcast(a.bytes))
            && (r.ok <==> format != SHORT || Broadcast(a.bytes) || g[0] != 0 || g[7] != 0)
  {
    hide Groups, Colons, Read6, Room6, Sections, OneRun;
    ColonsTidy(a.bytes, format);
    Unpieced(Colons(a.bytes, format));
    if Broadcast(a.bytes) {
      if format == SHORT {
        BroadcastShort(a);
      } else {
        BroadcastLost(a, format);
      }
    } else if format == SHORT {
      ShortRoundTrip(a);
    } else {
      WholeRoundTrip(a, format);
    }
  }
}
