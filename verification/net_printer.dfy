/** The loops of `Net::get`. */
module NetPrinter {
  import opened Numerals
  import opened Texts
  import opened NetAddress
  import opened NetText

  lemma OctetsSnoc(b: seq<byte>, x: byte, format: Format)
    ensures Join(Octets(b + [x], format), '.') ==
            if b == [] then Octet(x, format) else Join(Octets(b, format), '.') + "." + Octet(x, format)
  {
    hide Octet, Join;
    JoinSnoc(Octets(b, format), Octet(x, format), '.');
    assert Octets(b + [x], format) == Octets(b, format) + [Octet(x, format)];
  }

  lemma SpelledSnoc(g: seq<word>, x: word, format: Format)
    ensures Join(Spelled(g + [x], format), ':') ==
            if g == [] then Group(x, format) else Join(Spelled(g, format), ':') + ":" + Group(x, format)
  {
    hide Group, Join;
    JoinSnoc(Spelled(g, format), Group(x, format), ':');
    assert Spelled(g + [x], format) == Spelled(g, format) + [Group(x, format)];
  }

  method PrintOctets(bytes: seq<byte>, format: Format) returns (result: string)
    ensures result == Dotted(bytes, format)
  {
    hide Join, Numeral, Padded;
    result := "";
    Nothing();
    for i := 0 to |bytes|
      invariant result == Join(Octets(bytes[..i], format), '.')
    {
      if i > 0 {
        result := result + ".";
      }
      var octet := Itoa(bytes[i], 10);
      if format == LONG {
        octet := ZeroPad(octet, 3);
      }
      result := result + octet;
      OctetsSnoc(bytes[..i], bytes[i], format);
      assert bytes[..i + 1] == bytes[..i] + [bytes[i]];
    }
    assert bytes[..|bytes|] == bytes;
  }

  lemma SpelledText(g: seq<word>, format: Format)
    ensures Join(Spelled(g, format), ':') == "" <==> g == []
  {
    var p := Spelled(g, format);
    if g != [] {
      JoinLength(p, ':');
      GroupReads(g[0], format);
      NotEmpty(p[0]);
    }
  }

  method PrintWhole(groups: seq<word>, format: Format) returns (result: string)
    requires format != SHORT
    ensures result == Join(Pieces(groups, format), ':')
  {
    hide Join, Numeral, Padded;
    result := "";
    Nothing();
    for i := 0 to |groups|
      invariant result == Join(Spelled(groups[..i], format), ':')
    {
      SpelledText(groups[..i], format);
      if result != "" {
        result := result + ":";
      }
      var group := Itoa(groups[i], 16);
      if format == LONG {
        group := ZeroPad(group, 4);
      }
      result := result + group;
      SpelledSnoc(groups[..i], groups[i], format);
      assert groups[..i + 1] == groups[..i] + [groups[i]];
    }
    assert groups[..|groups|] == groups;
  }

  lemma ShortenedText(g: seq<word>)
    ensures Join(Shortened(g), ':') == "" <==> g == []
  {
    if g != [] {
      hide Shortened, Numeral;
      ShortenedTidy(g);
      JoinLength(Shortened(g), ':');
      if |g| == 1 {
        ShortenedSnoc([], g[0]);
        assert g == [] + [g[0]];
        GroupReads(g[0], SHORT);
        NotEmpty(Group(g[0], SHORT));
        assert Shortened([]) == [];
      }
    }
  }

  /** One group of the SHORT text. */
  lemma ShortenedJoin(g: seq<word>, x: word)
    ensures Join(Shortened(g + [x]), ':') ==
            if x != 0 then Join(Shortened(g), ':') + (if g == [] then "" else ":") + Numeral(x, 16)
            else if 0 in g then Join(Shortened(g), ':')
            else Join(Shortened(g), ':') + ":"
    ensures Join(Pieces(g + [x], SHORT), ':') ==
            Join(Shortened(g + [x]), ':') + if x == 0 && 0 in g then ":" else ""
  {
    hide Shortened, Join, Numeral, Tidy;
    ShortenedSnoc(g, x);
    ShortenedTidy(g);
    JoinSnoc(Shortened(g), Numeral(x, 16), ':');
    JoinSnoc(Shortened(g), "", ':');
    assert (g + [x])[..|g|] == g;
    JoinSnoc([], "", ':');
    JoinSnoc([""], "", ':');
    assert [""] + [""] == ["", ""] && [] + [""] == [""];
    if g == [] {
      assert Shortened([]) == [] && Join([], ':') == "" by {
        Nothing();
      }
    }
  }

  lemma Nothing()
    ensures Shortened([]) == [] && Join([], ':') == "" && Join([], '.') == ""
  {
  }

  method PrintShort(groups: seq<word>) returns (result: string)
    requires groups != []
    ensures result == Join(Pieces(groups, SHORT), ':')
  {
    hide Join, Shortened, Numeral, Pieces;
    result := "";
    var separators, count := 0, |groups|;
    Nothing();
    for i := 0 to count
      invariant result == Join(if i < count then Shortened(groups[..i]) else Pieces(groups[..i], SHORT), ':')
      invariant separators == 0 <==> 0 !in groups[..i]
    {
      var num := groups[i];
      assert groups[..i + 1] == groups[..i] + [num];
      ShortenedText(groups[..i]);
      ShortenedJoin(groups[..i], num);
      if num > 0 {
        if result != "" {
          result := result + ":";
        }
        var group := Itoa(num, 16);
        result := result + group;
      } else {
        separators := separators + 1;
        if separators < 2 || i == count - 1 {
          result := result + ":";
        }
      }
    }
    assert groups[..count] == groups;
  }

  lemma JoinBack(p: seq<string>, sep: char)
    requires p != [] && p[|p| - 1] != ""
    ensures Join(p, sep) != "" && Join(p, sep)[|Join(p, sep)| - 1] == p[|p| - 1][|p[|p| - 1]| - 1]
  {
  }

  /** The group before the dotted tail is `FFFF`, so a colon is still wanted. */
  lemma BroadcastBack(g: seq<word>, format: Format)
    requires g == [0, 0, 0, 0, 0, 0xFFFF]
    ensures var s := Join(Pieces(g, format), ':');
            s != "" && s[|s| - 1] != ':'
  {
    hide Shortened, Join, Numeral;
    var p := Pieces(g, format);
    var last := Group(0xFFFF, format);
    ShortenedTidy(g);
    assert g == g[..5] + [0xFFFF];
    ShortenedSnoc(g[..5], 0xFFFF);
    GroupReads(0xFFFF, format);
    NotEmpty(last);
    assert p[|p| - 1] == last;
    JoinBack(p, ':');
    PlainTidy(last);
  }

  method PrintGroups(bytes: seq<byte>, format: Format) returns (result: string)
    requires |bytes| == 16
    ensures result == Join(Colons(bytes, format), ':')
  {
    hide Join, Groups, Pieces, Dotted;
    var broadcast := Broadcast(bytes);
    var groups := if broadcast then Groups(bytes)[..6] else Groups(bytes);
    if format == SHORT {
      result := PrintShort(groups);
    } else {
      result := PrintWhole(groups, format);
    }
    if broadcast {
      BroadcastBack(groups, format);
      if result[|result| - 1] != ':' {
        result := result + ":";
      }
      var tail := PrintOctets(bytes[12..], format);
      result := result + tail;
      JoinSnoc(Pieces(groups, format), tail, ':');
      assert Pieces(groups, format) != [] by {
        SomePiece(format);
      }
    }
  }

  lemma SomePiece(format: Format)
    ensures Pieces([0, 0, 0, 0, 0, 0xFFFF], format) != []
  {
    ShortenedTidy([0, 0, 0, 0, 0, 0xFFFF]);
  }
}
