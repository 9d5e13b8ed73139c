/** Text made of pieces between separators, and numerals in any radix. */
module Texts {
  import opened Numerals

  // ---------- Pieces ----------

  function Join<T>(pieces: seq<seq<T>>, sep: T): seq<T> {
    if pieces == [] then []
    else if |pieces| == 1 then pieces[0]
    else Join(pieces[..|pieces| - 1], sep) + [sep] + pieces[|pieces| - 1]
  }

  lemma JoinSnoc<T>(p: seq<seq<T>>, s: seq<T>, sep: T)
    ensures Join(p + [s], sep) == if p == [] then s else Join(p, sep) + [sep] + s
  {
    assert (p + [s])[..|p|] == p;
  }

  lemma {:induction false} JoinCons<T>(s: seq<T>, p: seq<seq<T>>, sep: T)
    ensures Join([s] + p, sep) == if p == [] then s else s + [sep] + Join(p, sep)
    decreases |p|
  {
    hide Join;
    if p == [] {
      JoinSnoc([], s, sep);
      assert [s] + p == [] + [s];
    } else {
      var init, last := p[..|p| - 1], p[|p| - 1];
      JoinCons(s, init, sep);
      JoinSnoc([s] + init, last, sep);
      JoinSnoc(init, last, sep);
      assert p == init + [last];
      Assoc([s], init, [last]);
      if init == [] {
        assert s + [sep] + last == s + [sep] + Join(p, sep);
      } else {
        Regrouped(s + [sep], Join(init, sep), [sep], last);
      }
    }
  }

  lemma Regrouped<T>(a: seq<T>, b: seq<T>, c: seq<T>, d: seq<T>)
    ensures (a + b) + c + d == a + (b + c + d)
  {
  }

  /** The position of the first `sep`, or the end. */
  function Find<T(==)>(s: seq<T>, sep: T): (n: nat)
    ensures n <= |s| && sep !in s[..n] && (n < |s| ==> s[n] == sep)
  {
    if s == [] || s[0] == sep then 0 else 1 + Find(s[1..], sep)
  }

  /** The pieces between the separators, empty ones too. */
  function Split<T(==)>(s: seq<T>, sep: T): (p: seq<seq<T>>)
    ensures p != []
    decreases |s|
  {
    var n := Find(s, sep);
    if n == |s| then [s] else [s[..n]] + Split(s[n + 1..], sep)
  }

  lemma {:induction false} FindIn<T>(a: seq<T>, b: seq<T>, sep: T)
    requires sep !in a && (b != [] ==> b[0] == sep)
    ensures Find(a + b, sep) == |a|
  {
    if a == [] {
      assert a + b == b;
    } else {
      FindIn(a[1..], b, sep);
      assert (a + b)[1..] == a[1..] + b;
    }
  }

  lemma SplitStep<T>(a: seq<T>, b: seq<T>, sep: T)
    requires sep !in a
    ensures Split(a, sep) == [a] && Split(a + [sep] + b, sep) == [a] + Split(b, sep)
  {
    var s := a + [sep] + b;
    FindIn(a, [], sep);
    assert a + [] == a;
    FindIn(a, [sep] + b, sep);
    assert s == a + ([sep] + b);
    assert s[..|a|] == a && s[|a| + 1..] == b;
  }

  lemma {:induction false} SplitConcat<T>(a: seq<T>, b: seq<T>, sep: T)
    ensures Split(a + [sep] + b, sep) == Split(a, sep) + Split(b, sep)
    decreases |a|
  {
    hide Split;
    var n := Find(a, sep);
    if n == |a| {
      assert a[..n] == a;
      SplitStep(a, b, sep);
    } else {
      var h, t := a[..n], a[n + 1..];
      assert a == h + [sep] + t;
      SplitStep(h, t, sep);
      SplitStep(h, t + [sep] + b, sep);
      SplitConcat(t, b, sep);
      assert a + [sep] + b == h + [sep] + (t + [sep] + b);
    }
  }

  predicate Clear<T(==)>(pieces: seq<seq<T>>, sep: T) {
    forall i :: 0 <= i < |pieces| ==> sep !in pieces[i]
  }

  /** Splitting undoes joining. */
  lemma {:induction false} SplitJoin<T>(pieces: seq<seq<T>>, sep: T)
    requires pieces != [] && Clear(pieces, sep)
    ensures Split(Join(pieces, sep), sep) == pieces
    decreases |pieces|
  {
    var n := |pieces| - 1;
    FindIn(pieces[n], [], sep);
    assert pieces[n] + [] == pieces[n];
    if n > 0 {
      SplitJoin(pieces[..n], sep);
      SplitConcat(Join(pieces[..n], sep), pieces[n], sep);
      assert pieces == pieces[..n] + [pieces[n]];
    }
  }

  function TrimLeft<T>(s: seq<T>, space: T -> bool): seq<T> {
    if s != [] && space(s[0]) then TrimLeft(s[1..], space) else s
  }

  function TrimRight<T>(s: seq<T>, space: T -> bool): seq<T> {
    if s != [] && space(s[|s| - 1]) then TrimRight(s[..|s| - 1], space) else s
  }

  /** A text without the space around it. */
  function Stripped<T>(s: seq<T>, space: T -> bool): seq<T> {
    TrimRight(TrimLeft(s, space), space)
  }

  predicate IsSpace(c: char) {
    '\t' <= c <= '\r' || c == ' '
  }

  function Trim(s: string): string {
    Stripped(s, IsSpace)
  }

  function Trimmed(p: seq<string>): (r: seq<string>)
    ensures |r| == |p| && forall i :: 0 <= i < |p| ==> r[i] == Trim(p[i])
  {
    seq(|p|, i requires 0 <= i < |p| => Trim(p[i]))
  }

  // ---------- Numerals ----------

  function Figure(d: nat): (c: char)
    requires d < 36
    ensures FigureOf(c) == d
  {
    if d < 10 then '0' + d as char else 'A' + (d - 10) as char
  }

  function FigureOf(c: char): nat {
    if '0' <= c <= '9' then (c - '0') as nat
    else if 'A' <= c <= 'Z' then (c - 'A') as nat + 10
    else if 'a' <= c <= 'z' then (c - 'a') as nat + 10
    else 36
  }

  /** The shortest numeral of `n`. */
  function Numeral(n: nat, radix: nat): (s: string)
    requires 2 <= radix <= 36
    ensures s != ""
    decreases n
  {
    if n < radix then [Figure(n)] else Shrinks(n, radix); Numeral(n / radix, radix) + [Figure(n % radix)]
  }

  lemma Shrinks(n: nat, radix: nat)
    requires 2 <= radix <= n
    ensures 0 < n / radix < n
  {
    Euclid(n, radix);
    var q := n / radix;
    if q > 0 {
      assert q * radix >= q * 2;
    }
  }

  predicate AllFigures(s: string, radix: nat) {
    forall i :: 0 <= i < |s| ==> FigureOf(s[i]) < radix
  }

  function NumeralValue(s: string, radix: nat): nat {
    if s == "" then 0 else NumeralValue(s[..|s| - 1], radix) * radix + FigureOf(s[|s| - 1])
  }

  lemma {:induction false} ValueOfNumeral(n: nat, radix: nat)
    requires 2 <= radix <= 36
    ensures AllFigures(Numeral(n, radix), radix) && NumeralValue(Numeral(n, radix), radix) == n
    decreases n
  {
    hide Numeral;
    Euclid(n, radix);
    NumeralStep(n, radix);
    if n >= radix {
      Shrinks(n, radix);
      ValueOfNumeral(n / radix, radix);
      LastFigure(Numeral(n / radix, radix), n % radix, radix);
    } else {
      assert [Figure(n)] == "" + [Figure(n)];
      LastFigure("", n, radix);
    }
  }

  lemma LastFigure(s: string, d: nat, radix: nat)
    requires d < radix <= 36 && AllFigures(s, radix)
    ensures AllFigures(s + [Figure(d)], radix)
    ensures NumeralValue(s + [Figure(d)], radix) == NumeralValue(s, radix) * radix + d
  {
    assert (s + [Figure(d)])[..|s|] == s;
  }

  lemma NumeralStep(n: nat, radix: nat)
    requires 2 <= radix <= 36
    ensures Numeral(n, radix) == if n < radix then [Figure(n)] else Numeral(n / radix, radix) + [Figure(n % radix)]
  {
  }

  /** `size` is reached by zeros on the left. */
  function Padded(s: string, size: nat): (r: string)
    ensures |r| == if |s| < size then size else |s|
    decreases size - |s|
  {
    if |s| < size then Padded("0" + s, size) else s
  }

  lemma {:induction false} ValueOfPadded(s: string, radix: nat, size: nat)
    requires radix > 0 && AllFigures(s, radix)
    ensures AllFigures(Padded(s, size), radix) && NumeralValue(Padded(s, size), radix) == NumeralValue(s, radix)
    decreases size - |s|
  {
    if |s| < size {
      LeadingZero(s, radix);
      ValueOfPadded("0" + s, radix, size);
    }
  }

  lemma {:induction false} LeadingZero(s: string, radix: nat)
    ensures NumeralValue("0" + s, radix) == NumeralValue(s, radix)
  {
    if s == "" {
      assert ("0" + s)[..0] == "" && "0" + s == "0";
    } else {
      LeadingZero(s[..|s| - 1], radix);
      assert ("0" + s)[..|s|] == "0" + s[..|s| - 1];
    }
  }

  /** How many figures a text starts with. */
  function Leading(s: string, radix: nat): (n: nat)
    ensures n <= |s| && AllFigures(s[..n], radix)
    ensures AllFigures(s, radix) ==> n == |s|
  {
    if s == "" || FigureOf(s[0]) >= radix then 0
    else
      var n := 1 + Leading(s[1..], radix);
      assert s[..n] == [s[0]] + s[1..][..n - 1];
      n
  }

  /** The number that extraction reads off the front of a text. */
  function Extracted(s: string, radix: nat): nat {
    NumeralValue(s[..Leading(s, radix)], radix)
  }

  /** The numeral of a number of either sign; radixes without figures have none. */
  function Signed(value: int, radix: nat): string {
    if radix < 2 || radix > 36 then ""
    else if value < 0 then "-" + Numeral(-value, radix) else Numeral(value, radix)
  }

  method Itoa(value: int, radix: nat) returns (result: string)
    requires radix != 1
    ensures result == Signed(value, radix)
  {
    hide Numeral;
    result := "";
    if 0 < radix < 37 {
      var num: nat := if value < 0 then -value else value;
      ghost var size := num;
      if num == 0 {
        ZeroNumeral(radix);
        result := [Figure(0)];
      }
      while num != 0
        invariant Numeral(size, radix) == if num == 0 then result else Numeral(num, radix) + result
        decreases num
      {
        Prepend(num, radix, result);
        var q, r := num / radix, num % radix;
        result := [Figure(r)] + result;
        num := q;
      }
      if value < 0 {
        result := "-" + result;
      }
    }
  }

  lemma ZeroNumeral(radix: nat)
    requires 2 <= radix <= 36
    ensures Numeral(0, radix) == [Figure(0)]
  {
  }

  lemma Prepend(num: nat, radix: nat, rest: string)
    requires 2 <= radix <= 36 && num > 0
    ensures 0 <= num / radix < num && 0 <= num % radix < 36
    ensures Numeral(num, radix) + rest ==
            (if num / radix == 0 then "" else Numeral(num / radix, radix)) + ([Figure(num % radix)] + rest)
  {
    hide Numeral;
    Euclid(num, radix);
    NumeralStep(num, radix);
    if num >= radix {
      Shrinks(num, radix);
      Assoc(Numeral(num / radix, radix), [Figure(num % radix)], rest);
    }
  }

  method ZeroPad(num: string, size: nat) returns (result: string)
    ensures result == Padded(num, size)
  {
    result := num;
    if |num| < size {
      var tmp := seq(size - |num|, i => '0');
      ZerosPad(num, size);
      result := tmp + num;
    }
  }

  lemma {:induction false} ZerosPad(s: string, size: nat)
    requires |s| <= size
    ensures Padded(s, size) == seq(size - |s|, i => '0') + s
    decreases size - |s|
  {
    if |s| < size {
      ZerosPad("0" + s, size);
    }
  }

  method SplitText(str: string, delim: char) returns (result: seq<string>)
    ensures result == if str == "" then [] else Trimmed(Split(str, delim))
  {
    hide Split, Trim;
    result := [];
    if str == "" {
      return;
    }
    var rest := str;
    var j := Find(rest, delim);
    while j < |rest|
      invariant j == Find(rest, delim)
      invariant Trimmed(Split(str, delim)) == result + Trimmed(Split(rest, delim))
      decreases |rest|
    {
      Step(rest, delim);
      result := result + [Trim(rest[..j])];
      rest := rest[j + 1..];
      j := Find(rest, delim);
    }
    Step(rest, delim);
    assert rest[..j] == rest && Trimmed([]) == [];
    result := result + [Trim(rest)];
  }

  lemma Step(s: string, sep: char)
    ensures var n := Find(s, sep);
            Trimmed(Split(s, sep)) == [Trim(s[..n])] + (if n == |s| then [] else Trimmed(Split(s[n + 1..], sep)))
  {
    hide Trim, Trimmed;
    var n := Find(s, sep);
    SplitHead(s, sep);
    hide Split;
    if n == |s| {
      TrimmedHead(s[..n], []);
    } else {
      TrimmedHead(s[..n], Split(s[n + 1..], sep));
    }
  }

  lemma SplitHead(s: string, sep: char)
    ensures var n := Find(s, sep);
            Split(s, sep) == [s[..n]] + (if n == |s| then [] else Split(s[n + 1..], sep))
  {
    assert s[..|s|] == s;
  }

  lemma TrimmedHead(a: string, b: seq<string>)
    ensures Trimmed([a] + b) == [Trim(a)] + Trimmed(b)
  {
  }
}
