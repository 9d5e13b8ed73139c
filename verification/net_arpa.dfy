/** Reverse names: the octets or nibbles of an address from the last to the first, under their ARPA domain. */
module NetArpa {
  import opened Numerals
  import opened Texts
  import opened NetAddress
  import opened NetText
  import opened NetPrinter
  import NetReader
  import opened Wrappers

  const IN_ADDR := ".in-addr.arpa"
  const IP6 := ".ip6.arpa"

  function Singles(s: string): (p: seq<string>)
    ensures |p| == |s| && forall i :: 0 <= i < |s| ==> p[i] == [s[i]]
  {
    seq(|s|, i requires 0 <= i < |s| => [s[i]])
  }

  function Nibbles(g: word): (s: string) {
    Lowers(Padded(Numeral(g, 16), 4))
  }

  function AllNibbles(g: seq<word>): string {
    if g == [] then "" else AllNibbles(g[..|g| - 1]) + Nibbles(g[|g| - 1])
  }

  /** A text backwards, with a dot between any two characters. */
  function Dots(s: string): string {
    Join(Singles(Mirrored(s)), '.')
  }

  function Reversed(a: Address): string
    requires Sound(a)
  {
    match a.kind
    case NONE => ""
    case IPV4 => Dotted(Mirrored(a.bytes), MIDDLE) + IN_ADDR
    case IPV6 => Dots(AllNibbles(Groups(a.bytes))) + IP6
  }

  // ---------- Reading ----------

  predicate EndsWith(s: string, tail: string) {
    |s| >= |tail| && s[|s| - |tail|..] == tail
  }

  /** The character at the start of every piece: of an empty one it is the dot behind it, and the end has none. */
  function Starts(p: seq<string>): Option<string>
    requires p != []
  {
    if |p| == 1 then if p[0] == "" then None else Some([p[0][0]])
    else
      var rest := Starts(p[1..]);
      if rest == None then None else Some([if p[0] == "" then '.' else p[0][0]] + rest.value)
  }

  /** The group spelled backwards by four characters. */
  function Quad(s: string, j: nat): word
    requires 4 * j + 4 <= |s|
  {
    HexWord([s[4 * j + 3], s[4 * j + 2], s[4 * j + 1], s[4 * j]])
  }

  /** Groups filled from the last to the first, one for every four characters. */
  function Quads(s: string): (g: seq<word>)
    requires |s| < 36
    ensures |g| == 8
  {
    seq(8, i requires 0 <= i < 8 => if 4 * (7 - i) + 4 <= |s| then Quad(s, 7 - i) else 0)
  }

  function Front(text: string, tail: string): string
    requires EndsWith(text, tail)
  {
    text[..|text| - |tail|]
  }

  /** No write of the reader lands outside its buffers. */
  predicate ArpaRoom(text: string) {
    && (EndsWith(text, IN_ADDR) ==> |Split(Front(text, IN_ADDR), '.')| <= 4)
    && (EndsWith(text, IP6) ==> |Split(Front(text, IP6), '.')| < 36)
  }

  function ReadReversed(held: Address, text: string): (r: Reading)
    requires Sound(held) && ArpaRoom(text)
    ensures Sound(r.address)
  {
    if |text| <= 13 then Reading(false, held)
    else if EndsWith(text, IN_ADDR) then
      Reading(true, Address(IPV4, Mirrored(Filled([0, 0, 0, 0], 0, Split(Front(text, IN_ADDR), '.')).1)))
    else if EndsWith(text, IP6) then
      StartsLength(Split(Front(text, IP6), '.'));
      var s := Starts(Split(Front(text, IP6), '.'));
      Reading(true, Address(IPV6, if s == None then NOWHERE else Ungrouped(Quads(s.value))))
    else Reading(false, held)
  }

  lemma {:induction false} StartsLength(p: seq<string>)
    requires p != []
    ensures Starts(p) != None ==> |Starts(p).value| == |p|
  {
    if |p| > 1 {
      StartsLength(p[1..]);
    }
  }

  // ---------- Round trip ----------

  lemma NibblesRead(g: word)
    ensures |Nibbles(g)| == 4 && HexWord(Nibbles(g)) == g
    ensures forall i :: 0 <= i < 4 ==> Nibbles(g)[i] != '.'
  {
    var s := Group(g, LONG);
    GroupReads(g, LONG);
    hide Numeral;
    assert s[..4] == s && Lowers(s)[..4] == Lowers(s);
    LowerFigures(s);
    hide NumeralValue, Padded;
    assert Leading(s, 16) == 4 && Leading(Lowers(s), 16) == 4;
    PlainTidy(Lowers(s));
  }

  lemma {:induction false} LowerFigures(s: string)
    ensures AllFigures(s, 16) ==> AllFigures(Lowers(s), 16)
    ensures NumeralValue(Lowers(s), 16) == NumeralValue(s, 16)
  {
    if s != "" {
      LowerFigures(s[..|s| - 1]);
      assert Lowers(s)[..|s| - 1] == Lowers(s[..|s| - 1]);
    }
  }

  lemma NibblesSnoc(g: seq<word>, x: word)
    ensures AllNibbles(g + [x]) == AllNibbles(g) + Nibbles(x)
  {
    assert (g + [x])[..|g|] == g;
  }

  lemma {:induction false} AllNibblesRead(g: seq<word>, k: nat)
    requires k < |g|
    ensures |AllNibbles(g)| == 4 * |g| && '.' !in AllNibbles(g)
    ensures AllNibbles(g)[4 * k..4 * k + 4] == Nibbles(g[k])
    decreases |g|
  {
    hide Nibbles, AllNibbles;
    var n := |g| - 1;
    var s, t := AllNibbles(g[..n]), Nibbles(g[n]);
    NibblesRead(g[n]);
    NibblesSnoc(g[..n], g[n]);
    assert g == g[..n] + [g[n]];
    assert '.' !in t;
    if n == 0 {
      NoNibbles();
    } else {
      AllNibblesRead(g[..n], if k < n then k else 0);
    }
    if k < n {
      assert (s + t)[4 * k..4 * k + 4] == s[4 * k..4 * k + 4];
      assert g[..n][k] == g[k];
    } else {
      assert k == n && |s| == 4 * k;
      assert (s + t)[4 * k..] == t;
      assert (s + t)[4 * k..4 * k + 4] == t;
    }
  }

  lemma NoNibbles()
    ensures AllNibbles([]) == ""
  {
  }

  lemma {:induction false} StartsOfSingles(s: string)
    requires s != ""
    ensures Starts(Singles(s)) == Some(s)
  {
    if |s| == 1 {
      assert s == [s[0]];
    } else {
      StartsOfSingles(s[1..]);
      assert Singles(s)[1..] == Singles(s[1..]);
      assert s == [s[0]] + s[1..];
    }
  }

  lemma DotsSplit(s: string)
    requires s != "" && '.' !in s
    ensures Split(Dots(s), '.') == Singles(Mirrored(s))
    ensures Starts(Split(Dots(s), '.')) == Some(Mirrored(s))
  {
    var p := Singles(Mirrored(s));
    forall i | 0 <= i < |p|
      ensures '.' !in p[i]
    {
      assert p[i] == [s[|s| - 1 - i]];
    }
    SplitJoin(p, '.');
    StartsOfSingles(Mirrored(s));
  }

  lemma QuadOfNibbles(g: seq<word>, k: nat)
    requires |g| == 8 && k < 8 && |AllNibbles(g)| == 32
    ensures Quad(Mirrored(AllNibbles(g)), 7 - k) == g[k]
  {
    hide AllNibbles, Nibbles, HexWord;
    AllNibblesRead(g, k);
    NibblesRead(g[k]);
    var s, t := AllNibbles(g), Mirrored(AllNibbles(g));
    var j := 7 - k;
    assert t[4 * j + 3] == s[4 * k] && t[4 * j + 2] == s[4 * k + 1] && t[4 * j + 1] == s[4 * k + 2] && t[4 * j] == s[4 * k + 3];
    assert [t[4 * j + 3], t[4 * j + 2], t[4 * j + 1], t[4 * j]] == s[4 * k..4 * k + 4];
  }

  lemma Tails(s: string)
    ensures EndsWith(s + IN_ADDR, IN_ADDR) && Front(s + IN_ADDR, IN_ADDR) == s && !EndsWith(s + IN_ADDR, IP6)
    ensures EndsWith(s + IP6, IP6) && Front(s + IP6, IP6) == s && !EndsWith(s + IP6, IN_ADDR)
  {
    var t, u := s + IN_ADDR, s + IP6;
    assert t[|t| - 9..][0] == IN_ADDR[4];
    if |u| >= 13 {
      assert u[|u| - 13..][4] == IP6[0];
    }
  }

  lemma MirroredTwice(b: seq<byte>)
    ensures Mirrored(Mirrored(b)) == b
  {
  }

  /** Every address is read back from its reverse name. */
  lemma ReverseRoundTrip(a: Address, held: Address)
    requires Sound(a) && Sound(held) && a.kind != NONE
    ensures ArpaRoom(Reversed(a)) && ReadReversed(held, Reversed(a)) == Reading(true, a)
  {
    hide EndsWith, Front, Dots, AllNibbles, Groups, Ungrouped, Split, Filled, Starts, Quad, Dotted;
    if a.kind == IPV4 {
      ReverseIPv4(a);
    } else {
      ReverseIPv6(a);
    }
  }

  lemma ReverseIPv4(a: Address)
    requires Sound(a) && a.kind == IPV4
    ensures var t := Reversed(a);
            && |t| > 13 && EndsWith(t, IN_ADDR) && !EndsWith(t, IP6) && |Split(Front(t, IN_ADDR), '.')| == 4
            && Mirrored(Filled([0, 0, 0, 0], 0, Split(Front(t, IN_ADDR), '.')).1) == a.bytes
  {
    hide EndsWith, Front, Split, Filled, Dotted;
    var m := Mirrored(a.bytes);
    DottedLength(m, MIDDLE);
    DottedSplits(m, MIDDLE);
    OctetsFill(m, [0, 0, 0, 0], 0, MIDDLE);
    Tails(Dotted(m, MIDDLE));
    assert [0, 0, 0, 0][..0] + m + [0, 0, 0, 0][4..] == m;
    MirroredTwice(a.bytes);
  }

  lemma ReverseIPv6(a: Address)
    requires Sound(a) && a.kind == IPV6
    ensures var t := Reversed(a);
            && |t| > 13 && EndsWith(t, IP6) && !EndsWith(t, IN_ADDR) && |Split(Front(t, IP6), '.')| == 32
            && Starts(Split(Front(t, IP6), '.')) != None
            && |Starts(Split(Front(t, IP6), '.')).value| == 32
            && Ungrouped(Quads(Starts(Split(Front(t, IP6), '.')).value)) == a.bytes
  {
    hide EndsWith, Front, AllNibbles, Groups, Ungrouped, Split, Starts, Quad;
    var g := Groups(a.bytes);
    var s := AllNibbles(g);
    AllNibblesRead(g, 0);
    DotsSplit(s);
    Tails(Dots(s));
    JoinLength(Singles(Mirrored(s)), '.');
    forall k | 0 <= k < 8
      ensures Quads(Mirrored(s))[k] == g[k]
    {
      QuadOfNibbles(g, k);
    }
    assert Quads(Mirrored(s)) == g;
    Ungroup(a.bytes);
  }

  // ---------- The loops ----------

  lemma DotsSnoc(s: string, c: char)
    ensures Dots(s + [c]) == [c] + if s == "" then "" else "." + Dots(s)
  {
    JoinCons([c], Singles(Mirrored(s)), '.');
    assert Singles(Mirrored(s + [c])) == [[c]] + Singles(Mirrored(s));
  }

  lemma DotsFront(s: string)
    ensures s == "" <==> Dots(s) == ""
    ensures s != "" ==> Dots(s)[0] == s[|s| - 1]
  {
    if s == "" {
      assert Singles(Mirrored(s)) == [];
    } else {
      DotsSnoc(s[..|s| - 1], s[|s| - 1]);
      assert s == s[..|s| - 1] + [s[|s| - 1]];
    }
  }

  /** Four nibbles put in front of the name, the last of them foremost. */
  method PutGroup(held: string, num: word, ghost shown: string) returns (result: string)
    requires held == Dots(shown) && (shown != "" ==> shown[|shown| - 1] != '.')
    ensures result == Dots(shown + Nibbles(num))
  {
    hide Dots, Numeral, Padded;
    result := held;
    DotsFront(shown);
    if result != "" {
      result := "." + result;
    }
    var text := Itoa(num, 16);
    text := ZeroPad(text, 4);
    NibblesRead(num);
    assert shown + Nibbles(num)[..0] == shown;
    for i := 0 to |text|
      invariant i == 0 ==> result == (if shown == "" then "" else ".") + Dots(shown)
      invariant i > 0 ==> result == Dots(shown + Nibbles(num)[..i])
    {
      ghost var before := shown + Nibbles(num)[..i];
      DotsFront(before);
      if result != "" && result[0] != '.' {
        result := "." + result;
      }
      DotsSnoc(before, Nibbles(num)[i]);
      assert before + [Nibbles(num)[i]] == shown + Nibbles(num)[..i + 1];
      result := [Lower(text[i])] + result;
    }
    assert Nibbles(num)[..4] == Nibbles(num);
  }

  method PrintReversed(a: Address) returns (result: string)
    requires Sound(a)
    ensures result == Reversed(a)
  {
    hide Dots, AllNibbles, Dotted, Groups;
    result := "";
    if a.kind == IPV4 {
      result := PrintOctets(Mirrored(a.bytes), MIDDLE);
      result := result + IN_ADDR;
    } else if a.kind == IPV6 {
      var groups := Groups(a.bytes);
      DotsFront("");
      NoNibbles();
      for i := 0 to 8
        invariant result == Dots(AllNibbles(groups[..i]))
      {
        NibblesEnd(groups[..i]);
        NibblesSnoc(groups[..i], groups[i]);
        assert groups[..i + 1] == groups[..i] + [groups[i]];
        result := PutGroup(result, groups[i], AllNibbles(groups[..i]));
      }
      assert groups[..8] == groups;
      result := result + IP6;
    }
  }

  lemma NibblesEnd(g: seq<word>)
    ensures AllNibbles(g) != "" ==> AllNibbles(g)[|AllNibbles(g)| - 1] != '.'
  {
    hide Nibbles;
    if g != [] {
      NibblesRead(g[|g| - 1]);
    }
  }

  /** One more character: the fourth completes a group. */
  method PutNibble(held: seq<char>, at: nat, groups: seq<word>, c: char, ghost start: string)
      returns (hexset: seq<char>, index: nat, address: seq<word>)
    requires Gathered(start, held, at, groups) && |start| < 35
    ensures Gathered(start + [c], hexset, index, address)
  {
    hide HexWord, Quads;
    QuadsStep(start, c, held);
    hexset, index, address := [c] + held, at, groups;
    if |hexset| == 4 {
      index := index - 1;
      address := address[index := HexWord(hexset)];
      hexset := [];
    }
  }

  /** The characters at the starts of the pieces, gathered by fours into groups from the last to the first. */
  method GatherQuads(text: string) returns (ok: bool, address: seq<word>)
    requires |Split(text, '.')| < 36
    ensures Starts(Split(text, '.')) != None ==> |Starts(Split(text, '.')).value| < 36
    ensures ok == (Starts(Split(text, '.')) != None)
    ensures ok ==> address == Quads(Starts(Split(text, '.')).value)
  {
    hide Split, Starts, Quads, Gathered, Behind, Zeros;
    ghost var start := "";
    var rest, hexset: seq<char> := text, [];
    var index: nat := 8;
    address := Zeros(8);
    GatherNothing();
    BehindNothing(Starts(Split(text, '.')));
    var stop := Find(rest, '.');
    while stop < |rest|
      invariant stop == Find(rest, '.')
      invariant |start| + |Split(rest, '.')| == |Split(text, '.')|
      invariant Starts(Split(text, '.')) == Behind(start, Starts(Split(rest, '.')))
      invariant Gathered(start, hexset, index, address)
      decreases |rest|
    {
      SplitHead(rest, '.');
      StartsStep(start, rest[0], rest[..stop], Split(rest[stop + 1..], '.'));
      hexset, index, address := PutNibble(hexset, index, address, rest[0], start);
      start := start + [rest[0]];
      rest := rest[stop + 1..];
      stop := Find(rest, '.');
    }
    SplitHead(rest, '.');
    assert rest[..stop] == rest && Split(rest, '.') == [rest];
    LastStart(start, rest);
    ok := rest != "";
    if ok {
      hexset, index, address := PutNibble(hexset, index, address, rest[0], start);
      GatherMeans(start + [rest[0]], hexset, index, address);
    }
  }

  lemma GatherNothing()
    ensures Gathered("", [], 8, Zeros(8))
  {
    assert Quads("") == Zeros(8);
  }

  lemma GatherMeans(start: string, hexset: seq<char>, index: nat, address: seq<word>)
    requires Gathered(start, hexset, index, address)
    ensures |start| < 36 && address == Quads(start)
  {
  }

  function Behind(start: string, rest: Option<string>): Option<string> {
    if rest == None then None else Some(start + rest.value)
  }

  lemma BehindNothing(s: Option<string>)
    ensures Behind("", s) == s
  {
    if s != None {
      assert "" + s.value == s.value;
    }
  }

  lemma StartsStep(start: string, c: char, piece: string, p: seq<string>)
    requires p != [] && c == if piece == "" then '.' else piece[0]
    ensures Behind(start, Starts([piece] + p)) == Behind(start + [c], Starts(p))
  {
    assert ([piece] + p)[1..] == p;
    if Starts(p) != None {
      Assoc(start, [c], Starts(p).value);
    }
  }

  lemma LastStart(start: string, piece: string)
    ensures Behind(start, Starts([piece])) == if piece == "" then None else Some(start + [piece[0]])
  {
  }

  /** The reader's state after the characters `start`: whole groups stored, the rest still in `hexset`. */
  predicate Gathered(start: string, hexset: seq<char>, index: nat, address: seq<word>) {
    && |start| < 36 && |hexset| == |start| % 4 && index + |start| / 4 == 8
    && (forall i :: 0 <= i < |hexset| ==> hexset[i] == start[|start| - 1 - i])
    && address == Quads(start)
  }

  lemma QuadsStep(s: string, c: char, held: seq<char>)
    requires |s| < 35 && |held| == |s| % 4
    requires forall i :: 0 <= i < |held| ==> held[i] == s[|s| - 1 - i]
    ensures |held| < 3 ==> Quads(s + [c]) == Quads(s)
    ensures |held| == 3 ==> Quads(s + [c]) == Quads(s)[7 - |s| / 4 := HexWord([c] + held)]
  {
    hide HexWord, Quad;
    var t, done := s + [c], |s| / 4;
    forall j | 0 <= j < done
      ensures Quad(t, j) == Quad(s, j)
    {
      SameQuad(s, c, j);
    }
    if |held| == 3 {
      NewQuad(s, c, held);
    }
  }

  lemma NewQuad(s: string, c: char, held: seq<char>)
    requires |s| % 4 == 3 && |held| == 3
    requires forall i :: 0 <= i < |held| ==> held[i] == s[|s| - 1 - i]
    ensures Quad(s + [c], |s| / 4) == HexWord([c] + held)
  {
    hide HexWord;
    var t, d := s + [c], |s| / 4;
    assert [c] + held == [t[4 * d + 3], t[4 * d + 2], t[4 * d + 1], t[4 * d]];
  }

  lemma SameQuad(s: string, c: char, j: nat)
    requires 4 * j + 4 <= |s|
    ensures Quad(s + [c], j) == Quad(s, j)
  {
  }

  method ReadArpa(held: Address, text: string) returns (r: Reading)
    requires Sound(held) && ArpaRoom(text)
    ensures r == ReadReversed(held, text)
  {
    hide Split, Filled, Starts, Quads, Ungrouped, EndsWith;
    r := Reading(false, held);
    if |text| > 13 {
      if EndsWith(text, IN_ADDR) {
        var ok, buffer := NetReader.FillOctets([0, 0, 0, 0], 0, Front(text, IN_ADDR));
        r := Reading(true, Address(IPV4, Mirrored(buffer)));
      } else if EndsWith(text, IP6) {
        var ok, groups := GatherQuads(Front(text, IP6));
        r := Reading(true, Address(IPV6, if ok then Ungrouped(groups) else NOWHERE));
      }
    }
  }
}
