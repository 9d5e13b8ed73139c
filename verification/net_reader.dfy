/** The loops of `Net::parse`. */
module NetReader {
  import opened Numerals
  import opened Texts
  import opened NetAddress
  import opened NetText
  import opened Wrappers

  /** Octets between dots, written into `buffer` from `at` on until one is no number. */
  method FillOctets(buffer: seq<byte>, at: nat, text: string) returns (ok: bool, result: seq<byte>)
    requires at + |Split(text, '.')| <= |buffer|
    ensures (ok, result) == Filled(buffer, at, Split(text, '.'))
  {
    hide Split, Stoi;
    ok, result := true, buffer;
    var rest := text;
    var index: nat := at;
    var stop := Find(rest, '.');
    SplitHead(rest, '.');
    while stop < |rest|
      invariant stop == Find(rest, '.') && |result| == |buffer|
      invariant index + |Split(rest, '.')| <= |buffer|
      invariant Filled(buffer, at, Split(text, '.')) == Filled(result, index, Split(rest, '.'))
      decreases |rest|
    {
      SplitHead(rest, '.');
      var number := Stoi(rest[..stop]);
      if number == None {
        ok := false;
        return;
      }
      result := result[index := number.value % 256];
      rest := rest[stop + 1..];
      index := index + 1;
      stop := Find(rest, '.');
    }
    SplitHead(rest, '.');
    assert rest[..stop] == rest;
    var number := Stoi(rest);
    if number == None {
      ok := false;
    } else {
      result := result[index := number.value % 256];
    }
  }

  /** Groups from the front up to an empty piece. */
  method FillFront(pieces: seq<string>) returns (buffer: seq<word>, index: nat)
    requires |Lead(pieces)| <= 8
    ensures index == |Lead(pieces)| && buffer == Lead(pieces) + Zeros(8 - index)
  {
    hide HexWord;
    buffer, index := Zeros(8), 0;
    ghost var done: seq<word> := [];
    for i := 0 to |pieces|
      invariant index == |done| && Lead(pieces) == done + Lead(pieces[i..])
      invariant index <= 8 && buffer == done + Zeros(8 - index)
    {
      var piece := pieces[i];
      assert pieces[i..] == [piece] + pieces[i + 1..];
      LeadStep(piece, pieces[i + 1..]);
      if piece == "" {
        assert done + [] == done;
        return;
      }
      Assoc(done, [HexWord(piece)], Lead(pieces[i + 1..]));
      buffer := buffer[index := HexWord(piece)];
      done := done + [HexWord(piece)];
      index := index + 1;
    }
  }

  /** Groups from the back down to an empty piece. */
  method FillBack(held: seq<word>, pieces: seq<string>) returns (buffer: seq<word>)
    requires |Trail(pieces)| <= |held|
    ensures buffer == Overlay(held, Trail(pieces))
  {
    hide HexWord;
    buffer := held;
    var index, i := |held|, |pieces|;
    ghost var done: seq<word> := [];
    assert pieces[..i] == pieces;
    while i > 0
      invariant i <= |pieces| && index + |done| == |held|
      invariant Trail(pieces) == Trail(pieces[..i]) + done
      invariant buffer == held[..index] + done
    {
      i := i - 1;
      var piece := pieces[i];
      if piece == "" {
        return;
      }
      assert pieces[..i + 1][..i] == pieces[..i];
      index := index - 1;
      buffer := buffer[index := HexWord(piece)];
      done := [HexWord(piece)] + done;
    }
  }

  method ReadGroups(pieces: seq<string>) returns (r: Reading)
    requires Room6(pieces)
    ensures r == Read6(pieces)
  {
    hide Lead, Trail, Filled, Split, Ungrouped;
    r := Reading(false, Address(IPV6, NOWHERE));
    if pieces == [] {
      return;
    }
    var last := pieces[|pieces| - 1];
    if pieces[0] == "" {
      if 7 <= |last| <= 15 {
        var head := FillBack(Zeros(6), pieces[..|pieces| - 1]);
        var ok, buffer := FillOctets(NOWHERE, 12, last);
        r := Reading(true, Address(IPV6, if ok then Ungrouped(head) + buffer[12..] else buffer));
      } else if 1 <= |last| <= 4 {
        var groups := FillBack(Zeros(8), pieces);
        r := Reading(true, Address(IPV6, Ungrouped(groups)));
      }
    } else {
      var groups, index := FillFront(pieces);
      if index < 8 {
        groups := FillBack(groups, pieces);
      }
      r := Reading(true, Address(IPV6, Ungrouped(groups)));
    }
  }
}
