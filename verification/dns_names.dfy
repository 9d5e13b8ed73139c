/** Domain names on the wire: labels, their dotted text, and the walk along pointers. */
module DnsNames {
  import opened Numerals
  import Texts

  const DOT: byte := 46
  const JUMP: byte := 0xC0

  type Label = seq<byte>

  // ---------- Labels and text ----------

  predicate IsBlank(b: byte) {
    9 <= b <= 13 || b == 32
  }

  /** `Framework::split` at dots: every piece, empty ones too, without surrounding space. */
  function Sections(s: seq<byte>): (r: seq<Label>)
    ensures |r| == |Texts.Split(s, DOT)|
    ensures forall i :: 0 <= i < |r| ==> r[i] == Texts.Stripped(Texts.Split(s, DOT)[i], IsBlank)
  {
    var p := Texts.Split(s, DOT);
    seq(|p|, i requires 0 <= i < |p| => Texts.Stripped(p[i], IsBlank))
  }

  function Wire(labels: seq<Label>): seq<byte>
    requires forall i :: 0 <= i < |labels| ==> |labels[i]| < 256
  {
    if labels == [] then [] else [|labels[0]|] + labels[0] + Wire(labels[1..])
  }

  function Dotted(labels: seq<Label>): seq<byte> {
    Texts.Join(labels, DOT)
  }

  /** A label that text can carry: no dot, no space at its ends, a length that is no pointer. */
  predicate TextLabel(l: Label) {
    && 0 < |l| < 256 && |l| != JUMP
    && (forall i :: 0 <= i < |l| ==> l[i] != DOT)
    && !IsBlank(l[0]) && !IsBlank(l[|l| - 1])
  }

  predicate TextName(labels: seq<Label>) {
    labels != [] && forall i :: 0 <= i < |labels| ==> TextLabel(labels[i])
  }

  // ---------- `split` ----------

  function Encoded(sections: seq<Label>): seq<byte> {
    if sections == [] then [] else Encoded(sections[..|sections| - 1]) + [|sections[|sections| - 1]| % 256] + sections[|sections| - 1]
  }

  method Split(domain: seq<byte>) returns (result: seq<byte>)
    ensures result == if domain == [] then [] else Encoded(Sections(domain))
  {
    result := [];
    if domain != [] {
      var sections := Sections(domain);
      for i := 0 to |sections|
        invariant result == Encoded(sections[..i])
      {
        assert sections[..i + 1][..i] == sections[..i];
        result := result + [|sections[i]| % 256] + sections[i];
      }
      assert sections[..|sections|] == sections;
    }
  }

  lemma SectionsOfDotted(labels: seq<Label>)
    requires TextName(labels)
    ensures Dotted(labels) != [] && Sections(Dotted(labels)) == labels
  {
    hide Texts.Join, Texts.Split;
    Texts.SplitJoin(labels, DOT);
    forall i | 0 <= i < |labels|
      ensures Texts.Stripped(labels[i], IsBlank) == labels[i]
    {
      assert TextLabel(labels[i]);
    }
    assert TextLabel(labels[0]);
    NoText();
    assert Dotted(labels) == [] ==> labels == [[]];
  }

  lemma NoText()
    ensures Texts.Split([], DOT) == [[]]
  {
  }

  lemma DottedCons(l: Label, rest: seq<Label>)
    ensures Dotted([l] + rest) == l + (if rest == [] then [] else [DOT] + Dotted(rest))
  {
    hide Texts.Join;
    Texts.JoinCons(l, rest, DOT);
    assert [l] + [] == [l];
    if rest != [] {
      Assoc(l, [DOT], Texts.Join(rest, DOT));
    }
  }

  lemma {:induction false} EncodedIsWire(labels: seq<Label>)
    requires forall i :: 0 <= i < |labels| ==> |labels[i]| < 256
    ensures Encoded(labels) == Wire(labels)
    decreases |labels|
  {
    if labels != [] {
      var init, last := labels[..|labels| - 1], labels[|labels| - 1];
      EncodedIsWire(init);
      WireConcat(init, [last]);
      assert labels == init + [last];
      assert Wire([last]) == [|last|] + last + [];
    }
  }

  lemma WireCons(l: Label, rest: seq<Label>)
    requires |l| < 256 && forall i :: 0 <= i < |rest| ==> |rest[i]| < 256
    ensures Wire([l] + rest) == [|l|] + l + Wire(rest)
  {
    assert ([l] + rest)[1..] == rest;
  }

  lemma {:induction false} WireConcat(a: seq<Label>, b: seq<Label>)
    requires forall i :: 0 <= i < |a| ==> |a[i]| < 256
    requires forall i :: 0 <= i < |b| ==> |b[i]| < 256
    ensures Wire(a + b) == Wire(a) + Wire(b)
    decreases |a|
  {
    if a == [] {
      assert a + b == b;
    } else {
      hide Wire;
      WireConcat(a[1..], b);
      WireCons(a[0], a[1..]);
      WireCons(a[0], a[1..] + b);
      assert a == [a[0]] + a[1..] && a + b == [a[0]] + (a[1..] + b);
      Assoc([|a[0]|] + a[0], Wire(a[1..]), Wire(b));
    }
  }

  // ---------- `join` and `items` ----------

  /** Label by label from `i` there is always a byte behind the label. */
  predicate Framed(b: seq<byte>, i: nat, size: nat)
    decreases |b| - i
  {
    i >= size || (i < |b| && (b[i] == JUMP || (i + b[i] + 1 < |b| &&
      (b[i + b[i] + 1] == 0 || Framed(b, i + b[i] + 1, size)))))
  }

  function LabelsAt(b: seq<byte>, i: nat, size: nat): seq<Label>
    requires Framed(b, i, size)
    decreases |b| - i
  {
    if i >= size || b[i] == JUMP then []
    else
      var next := i + b[i] + 1;
      [b[i + 1..next]] + (if b[next] == 0 then [] else LabelsAt(b, next, size))
  }

  function TextAt(b: seq<byte>, i: nat, size: nat): seq<byte>
    requires Framed(b, i, size)
    decreases |b| - i
  {
    if i >= size || b[i] == JUMP then []
    else
      var next := i + b[i] + 1;
      b[i + 1..next] + (if b[next] == 0 then [] else [DOT] + TextAt(b, next, size))
  }

  /** The inner loop of `join` and `items`: the bytes of one label. */
  method CopyLabel(buffer: seq<byte>, offset: nat, length: nat) returns (text: seq<byte>)
    requires offset + length < |buffer|
    ensures text == buffer[offset + 1..offset + 1 + length]
  {
    text := [];
    for j := 0 to length
      invariant text == buffer[offset + 1..offset + 1 + j]
    {
      text := text + [buffer[j + 1 + offset]];
    }
  }

  lemma StepOn(b: seq<byte>, i: nat, size: nat)
    requires Framed(b, i, size) && i < size
    ensures i < |b|
    ensures b[i] != JUMP ==> i + b[i] + 1 < |b| && (b[i + b[i] + 1] == 0 || Framed(b, i + b[i] + 1, size))
  {
  }

  lemma StopsAt(b: seq<byte>, i: nat, size: nat)
    requires Framed(b, i, size) && (i >= size || (i < |b| && b[i] == JUMP))
    ensures TextAt(b, i, size) == [] && LabelsAt(b, i, size) == []
  {
  }

  /** One label more of the text, and of the labels. */
  lemma JoinStep(b: seq<byte>, i: nat, size: nat, result: seq<byte>, labels: seq<Label>)
    requires i < |b| && b[i] != JUMP && i + b[i] + 1 < |b| && i < size
    requires b[i + b[i] + 1] == 0 || Framed(b, i + b[i] + 1, size)
    ensures Framed(b, i, size)
    ensures var next := i + b[i] + 1;
            var l := b[i + 1..next];
            && result + TextAt(b, i, size) == result + l + (if b[next] == 0 then [] else [DOT] + TextAt(b, next, size))
            && labels + LabelsAt(b, i, size) == labels + [l] + (if b[next] == 0 then [] else LabelsAt(b, next, size))
            && (b[next] != 0 ==> result + TextAt(b, i, size) == result + l + [DOT] + TextAt(b, next, size))
  {
    StepBack(b, i, size);
    hide Framed, TextAt, LabelsAt;
    var next := i + b[i] + 1;
    var l := b[i + 1..next];
    if b[next] == 0 {
      assert result + (l + []) == result + l + [] && labels + ([l] + []) == labels + [l] + [];
    } else {
      Assoc(result, l, [DOT] + TextAt(b, next, size));
      Assoc(result + l, [DOT], TextAt(b, next, size));
      Assoc(labels, [l], LabelsAt(b, next, size));
    }
  }

  method Join(buffer: seq<byte>, size: nat) returns (result: seq<byte>)
    requires size < 0x1_0000 && Framed(buffer, 0, size)
    ensures result == TextAt(buffer, 0, size)
  {
    hide Framed, TextAt, LabelsAt;
    result := [];
    var i := 0;
    while i < size
      invariant Framed(buffer, i, size)
      invariant TextAt(buffer, 0, size) == result + TextAt(buffer, i, size)
    {
      StepOn(buffer, i, size);
      if buffer[i] == JUMP {
        break;
      }
      JoinStep(buffer, i, size, result, []);
      var text := CopyLabel(buffer, i, buffer[i]);
      var next := i + buffer[i] + 1;
      result := result + text;
      if buffer[next] == 0 {
        return;
      }
      result := result + [DOT];
      i := next;
    }
    StopsAt(buffer, i, size);
  }

  method Items(buffer: seq<byte>, size: nat) returns (result: seq<Label>)
    requires size < 0x1_0000 && Framed(buffer, 0, size)
    ensures result == LabelsAt(buffer, 0, size)
  {
    hide Framed, TextAt, LabelsAt;
    result := [];
    var i := 0;
    while i < size
      invariant Framed(buffer, i, size)
      invariant LabelsAt(buffer, 0, size) == result + LabelsAt(buffer, i, size)
    {
      StepOn(buffer, i, size);
      if buffer[i] == JUMP {
        break;
      }
      JoinStep(buffer, i, size, [], result);
      var text := CopyLabel(buffer, i, buffer[i]);
      var next := i + buffer[i] + 1;
      result := result + [text];
      if buffer[next] == 0 {
        return;
      }
      i := next;
    }
    StopsAt(buffer, i, size);
  }

  /** Labels with a length that is no pointer. */
  predicate WireLabels(labels: seq<Label>) {
    forall k :: 0 <= k < |labels| ==> 0 < |labels[k]| < 256 && |labels[k]| != JUMP
  }

  /** A name on the wire, its end and whatever follows: read back as its labels and text. */
  lemma {:induction false} ReadsName(b: seq<byte>, i: nat, labels: seq<Label>, after: seq<byte>, size: nat)
    requires labels != [] && WireLabels(labels)
    requires i <= |b| && b[i..] == Wire(labels) + [0] + after && i + |Wire(labels)| <= size
    ensures Framed(b, i, size) && LabelsAt(b, i, size) == labels && TextAt(b, i, size) == Dotted(labels)
    decreases |labels|
  {
    hide Wire, Framed, LabelsAt, TextAt, Dotted;
    var l, rest := labels[0], labels[1..];
    PeelName(b, i, labels, after);
    if rest != [] {
      ReadsName(b, i + |l| + 1, rest, after, size);
    }
    StepBack(b, i, size);
    DottedCons(l, rest);
    assert labels == [l] + rest;
  }

  /** The first label of a name, and the name behind it. */
  lemma PeelName(b: seq<byte>, i: nat, labels: seq<Label>, after: seq<byte>)
    requires labels != [] && WireLabels(labels)
    requires i <= |b| && b[i..] == Wire(labels) + [0] + after
    ensures var l, rest, next := labels[0], labels[1..], i + |labels[0]| + 1;
      && next < |b| && b[i] == |l| != JUMP && b[i + 1..next] == l
      && b[next..] == Wire(rest) + [0] + after && |Wire(labels)| == |l| + 1 + |Wire(rest)|
      && WireLabels(rest) && (b[next] == 0 <==> rest == [])
  {
    var l, rest := labels[0], labels[1..];
    var w := Wire(rest);
    WireStart(rest);
    assert Wire(labels) == [|l|] + l + w;
    hide Wire;
    Regroup([|l|] + l, w, [0], after);
    Peel(b, i, l, w + [0] + after);
  }

  lemma Regroup(a: seq<byte>, b: seq<byte>, c: seq<byte>, d: seq<byte>)
    ensures a + b + c + d == a + (b + c + d)
  {
  }

  lemma WireStart(labels: seq<Label>)
    requires WireLabels(labels)
    ensures if labels == [] then Wire(labels) == [] else |Wire(labels)| > 0 && Wire(labels)[0] == |labels[0]|
  {
  }

  lemma StepBack(b: seq<byte>, i: nat, size: nat)
    requires i < |b| && b[i] != JUMP && i + b[i] + 1 < |b| && i < size
    requires b[i + b[i] + 1] == 0 || Framed(b, i + b[i] + 1, size)
    ensures Framed(b, i, size)
    ensures var next := i + b[i] + 1;
      && TextAt(b, i, size) == b[i + 1..next] + (if b[next] == 0 then [] else [DOT] + TextAt(b, next, size))
      && LabelsAt(b, i, size) == [b[i + 1..next]] + (if b[next] == 0 then [] else LabelsAt(b, next, size))
  {
  }

  lemma Peel(b: seq<byte>, i: nat, l: Label, tail: seq<byte>)
    requires |l| < 256 && i <= |b| && b[i..] == ([|l|] + l) + tail && tail != []
    ensures var next := i + |l| + 1;
      next < |b| && b[i] == |l| && b[i + 1..next] == l && b[next..] == tail && b[next] == tail[0]
  {
    var s := b[i..];
    Slice(b, i, |l| + 1);
    assert s[..|l| + 1] == [|l|] + l && s[|l| + 1..] == tail;
    assert b[i] == s[0];
    assert b[i + 1..i + |l| + 1] == s[..|l| + 1][1..];
    assert b[i + |l| + 1] == b[i + |l| + 1..][0];
  }

  /** Section 3.1 of RFC 1035: a name of labels that text can carry survives its encoding. */
  lemma NameRoundTrip(labels: seq<Label>)
    requires TextName(labels)
    ensures var b := Encoded(Sections(Dotted(labels))) + [0];
      b == Wire(labels) + [0] && Framed(b, 0, |b|) && TextAt(b, 0, |b|) == Dotted(labels) && LabelsAt(b, 0, |b|) == labels
  {
    SectionsOfDotted(labels);
    EncodedIsWire(labels);
    var b := Wire(labels) + [0];
    assert b[0..] == Wire(labels) + [0] + [];
    ReadsName(b, 0, labels, [], |b|);
  }

  // ---------- Blanks at the ends of labels ----------

  /** Labels of legal length without dots. */
  predicate LegalNames(labels: seq<Label>) {
    labels != [] && forall i :: 0 <= i < |labels| ==> 1 <= |labels[i]| <= 63 && DOT !in labels[i]
  }

  predicate Unblanked(labels: seq<Label>) {
    forall i :: 0 <= i < |labels| && labels[i] != [] ==> !IsBlank(labels[i][0]) && !IsBlank(labels[i][|labels[i]| - 1])
  }

  lemma {:induction false} TrimmedLeft(l: Label)
    ensures |Texts.TrimLeft(l, IsBlank)| <= |l|
    ensures l != [] ==> if IsBlank(l[0]) then |Texts.TrimLeft(l, IsBlank)| < |l| else Texts.TrimLeft(l, IsBlank) == l
  {
    if l != [] && IsBlank(l[0]) {
      TrimmedLeft(l[1..]);
    }
  }

  lemma {:induction false} TrimmedRight(l: Label)
    ensures |Texts.TrimRight(l, IsBlank)| <= |l|
    ensures l != [] ==> if IsBlank(l[|l| - 1]) then |Texts.TrimRight(l, IsBlank)| < |l| else Texts.TrimRight(l, IsBlank) == l
  {
    if l != [] && IsBlank(l[|l| - 1]) {
      TrimmedRight(l[..|l| - 1]);
    }
  }

  lemma StrippedLabel(l: Label)
    ensures |Texts.Stripped(l, IsBlank)| <= |l|
    ensures l != [] ==> (Texts.Stripped(l, IsBlank) == l <==> !IsBlank(l[0]) && !IsBlank(l[|l| - 1]))
  {
    TrimmedLeft(l);
    TrimmedRight(Texts.TrimLeft(l, IsBlank));
  }

  /** What splitting a name makes of its labels. */
  lemma SectionsStripped(labels: seq<Label>)
    requires LegalNames(labels)
    ensures var r := Sections(Dotted(labels));
            && |r| == |labels| && (forall i :: 0 <= i < |r| ==> |r[i]| <= 63)
            && (r == labels <==> Unblanked(labels))
            && Dotted(labels) != []
  {
    hide Texts.Join, Texts.Split, Texts.Stripped;
    Texts.SplitJoin(labels, DOT);
    NoText();
    var r := Sections(Dotted(labels));
    forall i | 0 <= i < |r|
      ensures |r[i]| <= 63 && (r[i] == labels[i] <==> !IsBlank(labels[i][0]) && !IsBlank(labels[i][|labels[i]| - 1]))
    {
      StrippedLabel(labels[i]);
    }
    if Unblanked(labels) {
      assert forall i :: 0 <= i < |r| ==> r[i] == labels[i];
    }
    assert labels[0] != [];
    assert Dotted(labels) == [] ==> labels == [[]];
  }

  /** Labels read from the wire are the ones written. */
  lemma {:induction false} WrittenLabels(b: seq<byte>, i: nat, written: seq<Label>, labels: seq<Label>, size: nat)
    requires |written| == |labels| > 0 && forall k :: 0 <= k < |labels| ==> |written[k]| <= 63 && labels[k] != []
    requires i < size == |b| && b[i..] == Wire(written) + [0]
    requires Framed(b, i, size) && LabelsAt(b, i, size) == labels
    ensures written == labels
    decreases |labels|
  {
    hide Wire, Framed, LabelsAt;
    var l, rest := written[0], written[1..];
    assert written == [l] + rest;
    WireCons(l, rest);
    var tail := Wire(rest) + [0];
    assert b[i..] == ([|l|] + l) + tail;
    Peel(b, i, l, tail);
    var next := i + |l| + 1;
    StepOn(b, i, size);
    StepBack(b, i, size);
    assert labels[0] == l;
    if b[next] == 0 {
      assert |labels| == 1;
    } else {
      assert labels[1..] == LabelsAt(b, next, size);
      WireStartsZero(rest);
      WrittenLabels(b, next, rest, labels[1..], size);
    }
    assert labels == [labels[0]] + labels[1..];
  }

  lemma WireStartsZero(rest: seq<Label>)
    requires forall k :: 0 <= k < |rest| ==> |rest[k]| <= 63
    ensures rest == [] ==> (Wire(rest) + [0])[0] == 0
  {
  }

  /** Labels of 1 to 63 bytes without dots survive their encoding exactly if none starts or ends with a blank. */
  lemma NameSurvives(labels: seq<Label>)
    requires LegalNames(labels)
    ensures var b := Encoded(Sections(Dotted(labels))) + [0];
            Framed(b, 0, |b|) && LabelsAt(b, 0, |b|) == labels <==> Unblanked(labels)
  {
    hide Wire, Framed, LabelsAt, Encoded, Sections, Dotted, TextAt;
    var r := Sections(Dotted(labels));
    var b := Encoded(r) + [0];
    SectionsStripped(labels);
    EncodedIsWire(r);
    assert b[0..] == Wire(r) + [0];
    if Unblanked(labels) {
      NameRoundTrip(labels);
    } else if Framed(b, 0, |b|) && LabelsAt(b, 0, |b|) == labels {
      WrittenLabels(b, 0, r, labels, |b|);
    }
  }
}
