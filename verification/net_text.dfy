/** The texts of an address: what is printed in each format, what parsing makes of it, and when the two agree. */
module NetText {
  import opened Numerals
  import opened Texts
  import opened NetDigits
  import opened NetAddress
  import opened Wrappers

  datatype Format = LONG | MIDDLE | SHORT

  // ---------- Printing ----------

  function Octet(b: byte, format: Format): string {
    if format == LONG then Padded(Numeral(b, 10), 3) else Numeral(b, 10)
  }

  function Octets(b: seq<byte>, format: Format): (p: seq<string>)
    ensures |p| == |b| && forall i :: 0 <= i < |b| ==> p[i] == Octet(b[i], format)
  {
    seq(|b|, i requires 0 <= i < |b| => Octet(b[i], format))
  }

  function Dotted(b: seq<byte>, format: Format): string {
    Join(Octets(b, format), '.')
  }

  function Group(g: word, format: Format): string {
    if format == LONG then Padded(Numeral(g, 16), 4) else Numeral(g, 16)
  }

  function Spelled(g: seq<word>, format: Format): (p: seq<string>)
    ensures |p| == |g| && forall i :: 0 <= i < |g| ==> p[i] == Group(g[i], format)
  {
    seq(|g|, i requires 0 <= i < |g| => Group(g[i], format))
  }

  /** Nonzero groups, and one empty piece for the first zero group; at the very front it takes two. */
  function Shortened(g: seq<word>): seq<string> {
    if g == [] then []
    else
      var n := |g| - 1;
      var p := Shortened(g[..n]);
      if g[n] != 0 then p + [Numeral(g[n], 16)]
      else if 0 in g[..n] then p
      else if n == 0 then ["", ""] else p + [""]
  }

  /** A zero group at the end is seen again unless it was the first. */
  function Pieces(g: seq<word>, format: Format): seq<string> {
    if format != SHORT then Spelled(g, format)
    else if g != [] && g[|g| - 1] == 0 && 0 in g[..|g| - 1] then Shortened(g) + [""]
    else Shortened(g)
  }

  /** An IPv4 address carried in an IPv6 one, `::FFFF:a.b.c.d`. */
  predicate Broadcast(b: seq<byte>) {
    |b| == 16 && Groups(b)[..6] == [0, 0, 0, 0, 0, 0xFFFF]
  }

  /** The pieces between the colons of an IPv6 text. */
  function Colons(b: seq<byte>, format: Format): seq<string>
    requires |b| == 16
  {
    if Broadcast(b) then Pieces(Groups(b)[..6], format) + [Dotted(b[12..], format)]
    else Pieces(Groups(b), format)
  }

  function Printed(a: Address, format: Format): string
    requires Sound(a)
  {
    match a.kind
    case NONE => ""
    case IPV4 => Dotted(a.bytes, format)
    case IPV6 => Join(Colons(a.bytes, format), ':')
  }

  // ---------- Parsing ----------

  datatype Reading = Reading(ok: bool, address: Address)

  /** `std::stoi`: no figures or too large a number is an exception. */
  function Stoi(s: string): Option<nat> {
    if Leading(s, 10) == 0 || Extracted(s, 10) > 0x7FFF_FFFF then None else Some(Extracted(s, 10))
  }

  /** Octets written from `at` on, up to the first text that is no number. */
  function Filled(b: seq<byte>, at: nat, pieces: seq<string>): (r: (bool, seq<byte>))
    requires at + |pieces| <= |b|
    ensures |r.1| == |b|
    decreases |pieces|
  {
    if pieces == [] then (true, b)
    else match Stoi(pieces[0])
      case None => (false, b)
      case Some(n) => Filled(b[at := n % 256], at + 1, pieces[1..])
  }

  function HexWord(s: string): word {
    Extracted(s, 16) % 65536
  }

  /** The groups before the first empty piece. */
  function Lead(p: seq<string>): seq<word> {
    if p == [] || p[0] == "" then [] else [HexWord(p[0])] + Lead(p[1..])
  }

  /** The groups after the last empty piece. */
  function Trail(p: seq<string>): seq<word> {
    if p == [] || p[|p| - 1] == "" then [] else Trail(p[..|p| - 1]) + [HexWord(p[|p| - 1])]
  }

  function Zeros(n: nat): (g: seq<word>)
    ensures |g| == n && forall i :: 0 <= i < n ==> g[i] == 0
  {
    seq(n, i => 0)
  }

  function Overlay(g: seq<word>, t: seq<word>): (r: seq<word>)
    requires |t| <= |g|
    ensures |r| == |g|
  {
    g[..|g| - |t|] + t
  }

  function Inner(text: string): string {
    if |text| >= 2 && text[0] == '[' && text[|text| - 1] == ']' then text[1..|text| - 1] else text
  }

  function Sections(text: string): seq<string> {
    if Inner(text) == "" then [] else Trimmed(Split(Inner(text), ':'))
  }

  /** No write of the parser lands outside its buffers. */
  predicate Room6(p: seq<string>) {
    p != [] ==>
      var last := p[|p| - 1];
      if p[0] != "" then |Lead(p)| <= 8 && (|Lead(p)| < 8 ==> |Trail(p)| <= 8)
      else if 7 <= |last| <= 15 then |Trail(p[..|p| - 1])| <= 6 && |Split(last, '.')| <= 4
      else |Trail(p)| <= 8
  }

  predicate Room(text: string, kind: Kind) {
    match kind
    case NONE => true
    case IPV4 => |Split(text, '.')| <= 4
    case IPV6 => Room6(Sections(text))
  }

  const NOWHERE: seq<byte> := [0, 0, 0, 0, 0, 0, 0, 0, 0, 0, 0, 0, 0, 0, 0, 0]

  function Read6(p: seq<string>): (r: Reading)
    requires Room6(p)
    ensures Sound(r.address)
  {
    if p == [] then Reading(false, Address(IPV6, NOWHERE))
    else
      var last := p[|p| - 1];
      if p[0] != "" then
        var lead := Lead(p);
        var g := lead + Zeros(8 - |lead|);
        Reading(true, Address(IPV6, Ungrouped(if |lead| < 8 then Overlay(g, Trail(p)) else g)))
      else if 7 <= |last| <= 15 then
        var r := Filled(NOWHERE, 12, Split(last, '.'));
        var head := Ungrouped(Overlay(Zeros(6), Trail(p[..|p| - 1])));
        Reading(true, Address(IPV6, if r.0 then head + r.1[12..] else r.1))
      else if 1 <= |last| <= 4 then
        Reading(true, Address(IPV6, Ungrouped(Overlay(Zeros(8), Trail(p)))))
      else Reading(false, Address(IPV6, NOWHERE))
  }

  /** `parse` of a text recognised as `kind`, into an object that holds `held`. */
  function Read(held: Address, text: string, kind: Kind): (r: Reading)
    requires Sound(held) && Room(text, kind)
    ensures Sound(r.address)
  {
    if text == "" || kind == NONE then Reading(false, held)
    else if kind == IPV4 then Reading(true, Address(IPV4, Filled([0, 0, 0, 0], 0, Split(text, '.')).1))
    else Read6(Sections(text))
  }

  // ---------- Pieces are read back ----------

  predicate Plain(s: string) {
    s != "" && AllFigures(s, 16)
  }

  /** A piece that survives splitting and trimming. */
  predicate Tidy(s: string) {
    ':' !in s && '[' !in s && Trim(s) == s
  }

  predicate AllTidy(p: seq<string>) {
    forall i :: 0 <= i < |p| ==> Tidy(p[i])
  }

  lemma PlainTidy(s: string)
    requires Plain(s) || s == ""
    ensures Tidy(s) && '.' !in s
  {
    assert forall i :: 0 <= i < |s| ==> FigureOf(s[i]) < 16;
    if s != "" {
      assert !IsSpace(s[0]) && !IsSpace(s[|s| - 1]);
    }
  }

  lemma {:induction false} NumeralLength(n: nat, radix: nat, k: nat)
    requires 2 <= radix <= 36 && 0 < k && n < Pow(radix, k)
    ensures |Numeral(n, radix)| <= k
    decreases n
  {
    assert Pow(radix, 1) == radix * Pow(radix, 0);
    if n >= radix && k > 1 {
      Shrinks(n, radix);
      Quotient(n, radix, Pow(radix, k - 1));
      NumeralLength(n / radix, radix, k - 1);
    }
  }

  lemma GroupReads(g: word, format: Format)
    ensures Plain(Group(g, format)) && |Group(g, format)| <= 4 && HexWord(Group(g, format)) == g
  {
    hide Numeral, NumeralValue, Padded, Leading;
    var s := Numeral(g, 16);
    ValueOfNumeral(g, 16);
    assert Pow(16, 2) == 256;
    assert Pow(16, 4) == 65536;
    NumeralLength(g, 16, 4);
    ValueOfPadded(s, 16, 4);
    var t := Group(g, format);
    assert t[..|t|] == t;
  }

  lemma OctetReads(b: byte, format: Format)
    ensures Plain(Octet(b, format)) && |Octet(b, format)| <= 3 && Stoi(Octet(b, format)) == Some(b)
  {
    hide Numeral, NumeralValue, Padded, Leading;
    var s := Numeral(b, 10);
    ValueOfNumeral(b, 10);
    assert Pow(10, 2) == 100;
    assert Pow(10, 3) == 1000;
    NumeralLength(b, 10, 3);
    ValueOfPadded(s, 10, 3);
    var t := Octet(b, format);
    assert t[..|t|] == t;
    assert forall i :: 0 <= i < |t| ==> FigureOf(t[i]) < 10;
  }

  // ---------- Dotted octets ----------

  lemma OctetsClear(b: seq<byte>, format: Format)
    ensures Clear(Octets(b, format), '.') && AllTidy(Octets(b, format))
    ensures forall i :: 0 <= i < |b| ==> Plain(Octets(b, format)[i]) && 1 <= |Octets(b, format)[i]| <= 3
  {
    hide Octet, Tidy, Plain;
    forall i | 0 <= i < |b|
      ensures '.' !in Octets(b, format)[i] && Tidy(Octets(b, format)[i])
      ensures Plain(Octets(b, format)[i]) && 1 <= |Octets(b, format)[i]| <= 3
    {
      OctetReads(b[i], format);
      PlainTidy(Octet(b[i], format));
      NotEmpty(Octet(b[i], format));
    }
  }

  lemma NotEmpty(s: string)
    requires Plain(s)
    ensures 1 <= |s|
  {
  }

  lemma {:induction false} OctetsFill(b: seq<byte>, held: seq<byte>, at: nat, format: Format)
    requires at + |b| <= |held|
    ensures Filled(held, at, Octets(b, format)) == (true, held[..at] + b + held[at + |b|..])
    decreases |b|
  {
    hide Octet, Stoi;
    var p := Octets(b, format);
    if b == [] {
      assert held == held[..at] + b + held[at..];
    } else {
      OctetReads(b[0], format);
      var next := held[at := b[0]];
      OctetsFill(b[1..], next, at + 1, format);
      assert p[1..] == Octets(b[1..], format);
      assert next[..at + 1] == held[..at] + [b[0]];
      assert next[at + |b|..] == held[at + |b|..];
      assert held[..at] + b == held[..at] + [b[0]] + b[1..];
    }
  }

  lemma DottedSplits(b: seq<byte>, format: Format)
    requires b != []
    ensures Split(Dotted(b, format), '.') == Octets(b, format)
  {
    OctetsClear(b, format);
    SplitJoin(Octets(b, format), '.');
  }

  /** Every IPv4 address is read back from each of its texts. */
  lemma IPv4RoundTrip(a: Address, format: Format, held: Address)
    requires Sound(a) && Sound(held) && a.kind == IPV4
    ensures Room(Printed(a, format), IPV4)
    ensures Read(held, Printed(a, format), IPV4) == Reading(true, a)
  {
    hide Octet, Split, Filled;
    DottedSplits(a.bytes, format);
    OctetsFill(a.bytes, [0, 0, 0, 0], 0, format);
    JoinLength(Octets(a.bytes, format), '.');
    assert [0, 0, 0, 0][..0] + a.bytes + [0, 0, 0, 0][4..] == a.bytes;
  }

  lemma {:induction false} JoinLength(p: seq<string>, sep: char)
    requires p != []
    ensures |Join(p, sep)| >= |p| - 1
  {
    if |p| > 1 {
      JoinLength(p[..|p| - 1], sep);
    }
  }

  lemma DottedLength(b: seq<byte>, format: Format)
    requires |b| == 4
    ensures 7 <= |Dotted(b, format)| <= 15
  {
    hide Octet;
    var p := Octets(b, format);
    OctetsClear(b, format);
    assert p[..3][..2][..1] == [p[0]];
    assert Join(p[..3][..2], '.') == p[0] + ['.'] + p[1];
    assert Join(p[..3], '.') == Join(p[..3][..2], '.') + ['.'] + p[2];
    assert Join(p, '.') == Join(p[..3], '.') + ['.'] + p[3];
  }

  // ---------- Groups ----------

  function Words(p: seq<string>): (g: seq<word>)
    ensures |g| == |p| && forall i :: 0 <= i < |p| ==> g[i] == HexWord(p[i])
  {
    seq(|p|, i requires 0 <= i < |p| => HexWord(p[i]))
  }

  lemma {:induction false} LeadConcat(p: seq<string>, q: seq<string>)
    ensures Lead(p + q) == if "" in p then Lead(p) else Words(p) + Lead(q)
    decreases |p|
  {
    hide HexWord, Lead;
    if p == [] {
      assert p + q == q;
      assert Words(p) + Lead(q) == Lead(q);
    } else {
      LeadConcat(p[1..], q);
      LeadCons(p[0], p[1..], q);
      assert p == [p[0]] + p[1..];
    }
  }

  lemma LeadCons(s: string, t: seq<string>, q: seq<string>)
    requires Lead(t + q) == if "" in t then Lead(t) else Words(t) + Lead(q)
    ensures Lead([s] + t + q) == if "" in [s] + t then Lead([s] + t) else Words([s] + t) + Lead(q)
  {
    hide HexWord, Lead;
    LeadStep(s, t);
    LeadStep(s, t + q);
    Assoc([s], t, q);
    assert Words([s] + t) == [HexWord(s)] + Words(t);
    Assoc([HexWord(s)], Words(t), Lead(q));
  }

  lemma LeadStep(s: string, p: seq<string>)
    ensures Lead([s] + p) == if s == "" then [] else [HexWord(s)] + Lead(p)
  {
    assert ([s] + p)[1..] == p;
  }

  lemma TrailSnoc(p: seq<string>, s: string)
    ensures Trail(p + [s]) == if s == "" then [] else Trail(p) + [HexWord(s)]
  {
    assert (p + [s])[..|p|] == p;
  }

  lemma {:induction false} TrailWords(p: seq<string>)
    requires "" !in p
    ensures Trail(p) == Words(p)
    decreases |p|
  {
    hide HexWord;
    if p != [] {
      TrailWords(p[..|p| - 1]);
    }
  }

  lemma LeadWords(p: seq<string>)
    requires "" !in p
    ensures Lead(p) == Words(p)
  {
    assert p + [] == p;
    LeadConcat(p, []);
  }

  lemma SpelledReads(g: seq<word>, format: Format)
    ensures Words(Spelled(g, format)) == g && "" !in Spelled(g, format) && AllTidy(Spelled(g, format))
  {
    hide Group, HexWord, Tidy, Plain;
    forall i | 0 <= i < |g|
      ensures HexWord(Group(g[i], format)) == g[i] && Tidy(Group(g[i], format)) && Group(g[i], format) != ""
    {
      GroupReads(g[i], format);
      PlainTidy(Group(g[i], format));
      NotEmpty(Group(g[i], format));
    }
  }

  /** The groups that are not zero. */
  function Nonzero(g: seq<word>): (r: seq<word>)
    ensures |r| <= |g| && forall i :: 0 <= i < |r| ==> r[i] != 0
  {
    if g == [] then [] else Nonzero(g[..|g| - 1]) + (if g[|g| - 1] == 0 then [] else [g[|g| - 1]])
  }

  function FirstZero(g: seq<word>): (s: nat)
    ensures s <= |g| && 0 !in g[..s] && (s < |g| ==> g[s] == 0)
    ensures s < |g| <==> 0 in g
  {
    if g == [] || g[0] == 0 then 0 else 1 + FirstZero(g[1..])
  }

  lemma {:induction false} FirstZeroSnoc(g: seq<word>, x: word)
    ensures FirstZero(g + [x]) == if 0 in g then FirstZero(g) else if x == 0 then |g| else |g| + 1
  {
    if g == [] {
      assert g + [x] == [x];
      assert [x][1..] == [];
    } else {
      FirstZeroSnoc(g[1..], x);
      assert (g + [x])[1..] == g[1..] + [x];
      assert 0 in g <==> g[0] == 0 || 0 in g[1..];
    }
  }

  lemma NonzeroSnoc(g: seq<word>, x: word)
    ensures Nonzero(g + [x]) == Nonzero(g) + if x == 0 then [] else [x]
  {
    assert (g + [x])[..|g|] == g;
  }

  lemma ShortenedSnoc(g: seq<word>, x: word)
    ensures Shortened(g + [x]) ==
            if x != 0 then Shortened(g) + [Numeral(x, 16)]
            else if 0 in g then Shortened(g)
            else if g == [] then ["", ""] else Shortened(g) + [""]
  {
    assert (g + [x])[..|g|] == g;
  }

  /** Reading the pieces `p` of `g`: the groups before the first zero, and those after it that are not zero. */
  predicate Shows(p: seq<string>, g: seq<word>) {
    var s := FirstZero(g);
    && Lead(p) == g[..s]
    && ("" in p <==> 0 in g)
    && (0 in g ==> Trail(p) == Nonzero(g[s..]))
    && (0 !in g ==> Words(p) == g)
  }

  lemma {:induction false} ShortenedReads(g: seq<word>)
    ensures Shows(Shortened(g), g)
    decreases |g|
  {
    if g == [] {
      assert Words([]) == [];
    } else {
      hide Shortened, Shows;
      var init, x := g[..|g| - 1], g[|g| - 1];
      assert g == init + [x];
      ShortenedReads(init);
      ShortenedSnoc(init, x);
      if 0 in init {
        LaterGroup(Shortened(init), init, x);
      } else if x == 0 {
        FirstGap(Shortened(init), init);
      } else {
        AnotherGroup(Shortened(init), init, x);
      }
    }
  }

  lemma LaterGroup(p: seq<string>, g: seq<word>, x: word)
    requires Shows(p, g) && 0 in g
    ensures Shows(if x == 0 then p else p + [Numeral(x, 16)], g + [x])
  {
    hide HexWord, Lead, Trail, FirstZero, Nonzero;
    var s := FirstZero(g);
    FirstZeroSnoc(g, x);
    NonzeroSnoc(g[s..], x);
    assert (g + [x])[..s] == g[..s] && (g + [x])[s..] == g[s..] + [x];
    if x != 0 {
      GroupReads(x, SHORT);
      LeadConcat(p, [Numeral(x, 16)]);
      TrailSnoc(p, Numeral(x, 16));
    }
  }

  lemma FirstGap(p: seq<string>, g: seq<word>)
    requires Shows(p, g) && 0 !in g
    ensures Shows(if g == [] then ["", ""] else p + [""], g + [0])
  {
    hide HexWord, FirstZero;
    FirstZeroSnoc(g, 0);
    assert (g + [0])[..|g|] == g && (g + [0])[|g|..] == [0];
    assert Nonzero([0]) == [];
    LeadConcat(p, [""]);
    TrailSnoc(p, "");
    TrailSnoc([""], "");
    assert [""] + [""] == ["", ""];
  }

  lemma AnotherGroup(p: seq<string>, g: seq<word>, x: word)
    requires Shows(p, g) && 0 !in g && x != 0
    ensures Shows(p + [Numeral(x, 16)], g + [x])
  {
    hide HexWord, Lead, FirstZero;
    var s := Numeral(x, 16);
    FirstZeroSnoc(g, x);
    GroupReads(x, SHORT);
    assert Words(p + [s]) == Words(p) + [HexWord(s)];
    assert (g + [x])[..|g| + 1] == g + [x];
    LeadWords(p + [s]);
  }

  lemma {:induction false} ShortenedTidy(g: seq<word>)
    ensures AllTidy(Shortened(g)) && |Shortened(g)| <= |g| + 1
    ensures g != [] ==> Shortened(g) != [] && (Shortened(g)[0] == "" <==> g[0] == 0)
    ensures |g| >= 2 ==> |Shortened(g)| >= 2
    decreases |g|
  {
    hide Tidy, Plain, Numeral;
    PlainTidy("");
    if g != [] {
      var init, x := g[..|g| - 1], g[|g| - 1];
      ShortenedTidy(init);
      GroupReads(x, SHORT);
      PlainTidy(Numeral(x, 16));
      NotEmpty(Numeral(x, 16));
    }
  }

  // ---------- One run of zeros ----------

  predicate OneRun(g: seq<word>) {
    forall i, j, k :: 0 <= i < j < k < |g| && g[i] == 0 && g[k] == 0 ==> g[j] == 0
  }

  lemma {:induction false} NonzeroOfZeros(g: seq<word>)
    requires forall i :: 0 <= i < |g| ==> g[i] == 0
    ensures Nonzero(g) == []
  {
    if g != [] {
      NonzeroOfZeros(g[..|g| - 1]);
    }
  }

  lemma {:induction false} RunFirst(r: seq<word>)
    requires r != [] && r[0] == 0 && OneRun(r)
    ensures r == Zeros(|r| - |Nonzero(r)|) + Nonzero(r)
    decreases |r|
  {
    var init, x := r[..|r| - 1], r[|r| - 1];
    hide Nonzero, OneRun;
    if x == 0 {
      OneRunWhole(r);
      NonzeroOfZeros(r);
    } else {
      OneRunInit(r);
      RunFirst(init);
      assert r == init + [x];
      NonzeroSnoc(init, x);
      Assoc(Zeros(|init| - |Nonzero(init)|), Nonzero(init), [x]);
    }
  }

  /** Zeros in front of the groups that are not zero: the string itself just when its zeros are one run. */
  lemma ZerosFirst(r: seq<word>)
    requires r != [] && r[0] == 0
    ensures Zeros(|r| - |Nonzero(r)|) + Nonzero(r) == r <==> OneRun(r)
  {
    hide OneRun;
    ZerosThen(Zeros(|r| - |Nonzero(r)|), Nonzero(r));
    if OneRun(r) {
      RunFirst(r);
    }
  }

  lemma ZerosThen(z: seq<word>, m: seq<word>)
    requires (forall i :: 0 <= i < |z| ==> z[i] == 0) && 0 !in m
    ensures OneRun(z + m)
  {
  }

  lemma OneRunWhole(r: seq<word>)
    requires r != [] && OneRun(r) && r[0] == 0 && r[|r| - 1] == 0
    ensures forall j :: 0 <= j < |r| ==> r[j] == 0
  {
    assert forall j :: 0 < j < |r| - 1 ==> r[j] == 0;
  }

  lemma OneRunInit(r: seq<word>)
    requires r != [] && OneRun(r)
    ensures OneRun(r[..|r| - 1])
  {
  }

  /** The first zero and what follows decide whether the zeros are one run. */
  lemma RunFrom(g: seq<word>, s: nat)
    requires s < |g| && g[s] == 0 && 0 !in g[..s]
    ensures OneRun(g) <==> OneRun(g[s..])
  {
    assert forall i :: 0 <= i < s ==> g[i] in g[..s];
    if OneRun(g[s..]) {
      forall i, j, k | 0 <= i < j < k < |g| && g[i] == 0 && g[k] == 0
        ensures g[j] == 0
      {
        assert g[s..][i - s] == 0 && g[s..][k - s] == 0;
        assert g[s..][j - s] == g[j];
      }
    }
  }
}
