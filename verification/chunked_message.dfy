/** What the chunked coding means: encoded messages are read back, to their last byte. */
module ChunkedMessage {
  import opened Numerals
  import Texts
  import opened ChunkedBody
  import opened WebParser

  const CRLF := "\r\n"

  /** A size line of hexadecimal digits that fits the machine word, and its data. */
  datatype Part = Part(size: string, data: string)

  predicate GoodSize(size: string, n: nat) {
    0 < |size| <= 16 && Texts.AllFigures(size, 16) && Texts.NumeralValue(size, 16) == n
  }

  predicate GoodParts(parts: seq<Part>) {
    forall i :: 0 <= i < |parts| ==> parts[i].data != "" && GoodSize(parts[i].size, |parts[i].data|)
  }

  datatype Field = Field(key: string, value: string)

  predicate GoodField(f: Field) {
    && (forall i :: 0 <= i < |f.key| ==> f.key[i] != ':' && f.key[i] != '\r' && f.key[i] != '\n')
    && (forall i :: 0 <= i < |f.value| ==> f.value[i] != '\r' && f.value[i] != '\n')
  }

  /** Trailer fields announced beforehand, each at most once. */
  predicate GoodFields(fields: seq<Field>, declared: set<string>) {
    && (forall i :: 0 <= i < |fields| ==> GoodField(fields[i]) && Lowers(fields[i].key) in declared)
    && (forall i, j :: 0 <= i < j < |fields| ==> Lowers(fields[i].key) != Lowers(fields[j].key))
  }

  function PartText(part: Part): string {
    part.size + CRLF + part.data + CRLF
  }

  function PartsText(parts: seq<Part>): string {
    if parts == [] then "" else PartText(parts[0]) + PartsText(parts[1..])
  }

  function FieldText(f: Field): string {
    f.key + ":" + f.value + CRLF
  }

  function FieldsText(fields: seq<Field>): string {
    if fields == [] then "" else FieldText(fields[0]) + FieldsText(fields[1..])
  }

  /** Section 7.1 of RFC 9112: chunks, last chunk, trailer section, empty line. */
  function MessageText(parts: seq<Part>, zero: string, fields: seq<Field>): string {
    PartsText(parts) + (zero + CRLF) + FieldsText(fields) + CRLF
  }

  function Data(parts: seq<Part>): string {
    if parts == [] then "" else parts[0].data + Data(parts[1..])
  }

  function Keys(fields: seq<Field>): set<string> {
    set i | 0 <= i < |fields| :: Lowers(fields[i].key)
  }

  function Stored(fields: seq<Field>): multiset<(string, string)> {
    if fields == [] then multiset{}
    else multiset{(Lowers(fields[0].key), Texts.Trim(fields[0].value))} + Stored(fields[1..])
  }

  // ---------- All of a text, read in steps ----------

  /** The parser reads the whole of `s`, and that takes it from `p` to `q`. */
  ghost predicate Reads(p: Parser, s: string, q: Parser) {
    Run(p, s) == q && Taken(p, s) == |s|
  }

  lemma ReadsConcat(p: Parser, a: string, q: Parser, b: string, r: Parser)
    requires Reads(p, a, q) && Reads(q, b, r)
    ensures Reads(p, a + b, r)
  {
    RunConcat(p, a, b);
  }

  lemma ReadsByte(p: Parser, c: char)
    requires p.state == BODY
    ensures Reads(p, [c], Step(p, c))
  {
    RunOne(p, [c]);
    RunNothing(Step(p, c));
  }

  lemma ReadsCRLF(p: Parser)
    requires p.state == BODY && Step(p, '\r').state == BODY
    ensures Reads(p, CRLF, Step(Step(p, '\r'), '\n'))
  {
    ReadsByte(p, '\r');
    ReadsByte(Step(p, '\r'), '\n');
    ReadsConcat(p, "\r", Step(p, '\r'), "\n", Step(Step(p, '\r'), '\n'));
  }

  /** Reaching the end of the text means not having ended before. */
  lemma NotBefore(p: Parser, s: string, q: Parser, k: nat)
    requires Reads(p, s, q) && k < |s|
    ensures Run(p, s[..k]).state == BODY
  {
    assert s == s[..k] + s[k..];
    RunConcat(p, s[..k], s[k..]);
  }

  // ---------- The size line ----------

  lemma {:induction false} HexBound(s: string)
    requires Texts.AllFigures(s, 16)
    ensures Texts.NumeralValue(s, 16) < Pow(16, |s|)
  {
    if s != "" {
      HexBound(s[..|s| - 1]);
    }
  }

  lemma {:induction false} PowGrows(e: nat, f: nat)
    requires e <= f
    ensures Pow(16, e) <= Pow(16, f)
    decreases f
  {
    if e < f {
      PowGrows(e, f - 1);
    }
  }

  lemma {:induction false} HexIsPositional(s: string)
    requires Texts.AllFigures(s, 16)
    ensures AllDigits36(Uppers(s)) && Texts.NumeralValue(Uppers(s), 16) == Texts.NumeralValue(s, 16)
  {
    if s != "" {
      HexIsPositional(s[..|s| - 1]);
      assert Uppers(s)[..|s| - 1] == Uppers(s[..|s| - 1]);
    }
  }

  lemma ExaminedHex(s: string)
    requires Texts.AllFigures(s, 16) && 0 < |s| <= 16
    ensures Examined(s) == Uppers(s)
  {
    if |s| >= 2 {
      assert Texts.FigureOf(s[1]) < 16 && Texts.FigureOf('x') >= 16;
    }
  }

  /** Every hexadecimal size that fits the word is read as its value. */
  lemma SizeOfHex(s: string)
    requires Texts.AllFigures(s, 16) && 0 < |s| <= 16
    ensures SizeOf(s) == Texts.NumeralValue(s, 16)
  {
    hide Examined, Texts.NumeralValue, Pow, AllDigits36;
    ExaminedHex(s);
    HexIsPositional(s);
    HexBound(s);
    PowGrows(|s|, 16);
    PowValue();
  }

  lemma PowValue()
    ensures Pow(16, 16) == WORD
  {
    assert Pow(16, 4) == 0x1_0000;
    assert Pow(16, 8) == 0x1_0000_0000;
    assert Pow(16, 12) == 0x1_0000_0000_0000;
  }

  lemma {:induction false} CollectSize(p: Parser, s: string)
    requires p.state == BODY && p.chunk.phase == SIZE
    requires forall i :: 0 <= i < |s| ==> s[i] != '\r'
    ensures Reads(p, s, p.(chunk := p.chunk.(data := p.chunk.data + s)))
    decreases |s|
  {
    if s == "" {
      assert p.chunk.data + s == p.chunk.data;
    } else {
      CollectSize(Step(p, s[0]), s[1..]);
      assert (p.chunk.data + [s[0]]) + s[1..] == p.chunk.data + s;
    }
  }

  /** A size line: what follows it is decided by the size and the announced trailers. */
  lemma SizeLine(p: Parser, line: string)
    requires p.state == BODY && p.chunk == NoChunk
    requires forall i :: 0 <= i < |line| ==> line[i] != '\r'
    ensures Reads(p, line + CRLF, Step(p.(chunk := Chunk(SizeOf(line), END_SIZE, "")), '\n'))
  {
    hide Run, Taken, SizeOf;
    var q := p.(chunk := p.chunk.(data := p.chunk.data + line));
    CollectSize(p, line);
    assert p.chunk.data + line == line;
    ReadsCRLF(q);
    ReadsConcat(p, line, q, CRLF, Step(Step(q, '\r'), '\n'));
  }

  // ---------- Chunks ----------

  /** A parser ready for the next chunk. */
  predicate Ready(p: Parser) {
    p.state == BODY && p.bodySize < 0 && p.chunk == NoChunk
  }

  lemma ReadsData(p: Parser, data: string)
    requires p.state == BODY && p.chunk == Chunk(|data|, DATA, "") && data != ""
    ensures Reads(p, data, p.(chunk := Chunk(|data|, STOP_BODY, data)))
  {
    hide Run, Taken;
    RunMissingData(p, data);
    assert "" + data == data;
  }

  /** A chunk behind any line that is read as its size. */
  lemma PartBehind(p: Parser, line: string, data: string)
    requires Ready(p) && data != "" && SizeOf(line) == |data|
    requires forall i :: 0 <= i < |line| ==> line[i] != '\r'
    ensures Reads(p, line + CRLF + data + CRLF, Deliver(p, data))
  {
    hide Run, Taken, SizeOf;
    SizeLine(p, line);
    var n := |data|;
    var q := p.(chunk := Chunk(n, DATA, ""));
    var r := p.(chunk := Chunk(n, STOP_BODY, data));
    ReadsData(q, data);
    ReadsConcat(p, line + CRLF, q, data, r);
    ReadsCRLF(r);
    ReadsConcat(p, line + CRLF + data, r, CRLF, Deliver(p, data));
  }

  lemma OnePart(p: Parser, part: Part)
    requires Ready(p) && part.data != "" && GoodSize(part.size, |part.data|)
    ensures Reads(p, PartText(part), Deliver(p, part.data))
  {
    hide Run, Taken, Texts.NumeralValue, SizeOf;
    SizeOfHex(part.size);
    assert forall i :: 0 <= i < |part.size| ==> Texts.FigureOf(part.size[i]) < 16 && part.size[i] != '\r';
    PartBehind(p, part.size, part.data);
  }

  function Delivers(p: Parser, parts: seq<Part>): Parser
    decreases |parts|
  {
    if parts == [] then p else Delivers(Deliver(p, parts[0].data), parts[1..])
  }

  lemma {:induction false} AllParts(p: Parser, parts: seq<Part>)
    requires Ready(p) && GoodParts(parts)
    ensures Reads(p, PartsText(parts), Delivers(p, parts))
    ensures Ready(Delivers(p, parts))
    decreases |parts|
  {
    hide Run, Taken;
    if parts == [] {
      RunNothing(p);
    } else {
      var q := Deliver(p, parts[0].data);
      OnePart(p, parts[0]);
      AllParts(q, parts[1..]);
      ReadsConcat(p, PartText(parts[0]), q, PartsText(parts[1..]), Delivers(p, parts));
    }
  }

  /** Delivering chunk by chunk leaves the concatenated data, if the callback keeps it. */
  lemma {:induction false} DeliversData(p: Parser, parts: seq<Part>)
    ensures var q := Delivers(p, parts);
      q == p.(body := q.body, events := q.events) &&
      q.body == (if p.keeps then p.body + Data(parts) else p.body)
    decreases |parts|
  {
    if parts == [] {
      assert p.body + Data(parts) == p.body;
    } else {
      DeliversData(Deliver(p, parts[0].data), parts[1..]);
      Assoc(p.body, parts[0].data, Data(parts[1..]));
    }
  }

  // ---------- Trailers ----------

  lemma {:induction false} CollectLine(p: Parser, s: string)
    requires p.state == BODY && p.chunk.phase == TRAILERS
    requires forall i :: 0 <= i < |s| ==> s[i] != '\r' && s[i] != '\n'
    ensures Reads(p, s, p.(chunk := p.chunk.(data := p.chunk.data + s)))
    decreases |s|
  {
    if s == "" {
      assert p.chunk.data + s == p.chunk.data;
    } else {
      CollectLine(Step(p, s[0]), s[1..]);
      assert (p.chunk.data + [s[0]]) + s[1..] == p.chunk.data + s;
    }
  }

  lemma ColonAt(s: string, pos: nat)
    requires pos < |s| && s[pos] == ':' && forall i :: 0 <= i < pos ==> s[i] != ':'
    ensures Texts.Find(s, ':') == pos
  {
    assert s == s[..pos] + s[pos..];
    Texts.FindIn(s[..pos], s[pos..], ':');
  }

  /** A parser between two trailer fields. */
  predicate InTrailers(p: Parser) {
    p.state == BODY && p.bodySize < 0 && p.chunk == Chunk(0, TRAILERS, "")
  }

  function AfterField(p: Parser, f: Field): Parser {
    var key, value := Lowers(f.key), Texts.Trim(f.value);
    Emit(p, Header(key, value)).(
      headers := p.headers + multiset{(key, value)}, trailers := p.trailers - {key},
      chunk := Chunk(0, if p.trailers - {key} == {} then STOP_BODY else TRAILERS, ""))
  }

  /** The line of a field is collected, and its first colon is the one behind the key. */
  lemma FieldLine(p: Parser, f: Field, line: string)
    requires InTrailers(p) && GoodField(f) && line == f.key + ":" + f.value
    ensures Reads(p, line, p.(chunk := Chunk(0, TRAILERS, line)))
    ensures Texts.Find(line, ':') == |f.key| && line[..|f.key|] == f.key && line[|f.key| + 1..] == f.value
  {
    hide Run, Taken, Reads;
    CollectLine(p, line);
    assert "" + line == line;
    ColonAt(line, |f.key|);
  }

  lemma FieldTaken(p: Parser, f: Field, line: string)
    requires InTrailers(p) && Lowers(f.key) in p.trailers && |f.key| < |line| && Texts.Find(line, ':') == |f.key|
    requires line[..|f.key|] == f.key && line[|f.key| + 1..] == f.value
    ensures var q := Step(p.(chunk := Chunk(0, TRAILERS, line)), '\r');
            q.state == BODY && Step(q, '\n') == AfterField(p, f)
  {
    hide Texts.Find, Texts.Trim, Lowers, TakeTrailer, AfterField;
    var q, r := p.(chunk := Chunk(0, TRAILERS, line)), AfterField(p, f);
    FieldKept(p, f, line);
    assert Step(q, '\r') == r.(chunk := Chunk(0, TRAILERS, ""));
  }

  lemma FieldKept(p: Parser, f: Field, line: string)
    requires InTrailers(p) && Lowers(f.key) in p.trailers && |f.key| < |line| && Texts.Find(line, ':') == |f.key|
    requires line[..|f.key|] == f.key && line[|f.key| + 1..] == f.value
    ensures var r := AfterField(p, f);
            && TakeTrailer(p.(chunk := Chunk(0, TRAILERS, line))) == r.(chunk := Chunk(0, TRAILERS, ""))
            && r.state == BODY && r.chunk == Chunk(0, if r.trailers == {} then STOP_BODY else TRAILERS, "")
  {
    hide Texts.Find, Texts.Trim, Lowers;
  }

  lemma OneField(p: Parser, f: Field)
    requires InTrailers(p) && GoodField(f) && Lowers(f.key) in p.trailers
    ensures Reads(p, FieldText(f), AfterField(p, f))
  {
    hide Run, Taken, Step, AfterField, Reads, GoodField, Texts.Find, Lowers;
    var line := f.key + ":" + f.value;
    var q := p.(chunk := Chunk(0, TRAILERS, line));
    FieldLine(p, f, line);
    FieldTaken(p, f, line);
    ReadsCRLF(q);
    ReadsConcat(p, line, q, CRLF, AfterField(p, f));
  }

  function AfterFields(p: Parser, fields: seq<Field>): Parser
    decreases |fields|
  {
    if fields == [] then p else AfterFields(AfterField(p, fields[0]), fields[1..])
  }

  lemma {:induction false} AllFields(p: Parser, fields: seq<Field>)
    requires InTrailers(p) && p.trailers != {} && GoodFields(fields, p.trailers)
    ensures Reads(p, FieldsText(fields), AfterFields(p, fields))
    decreases |fields|
  {
    hide Run, Taken, GoodField, Lowers, FieldText;
    if fields == [] {
      RunNothing(p);
    } else {
      var q, rest := AfterField(p, fields[0]), fields[1..];
      OneField(p, fields[0]);
      assert AfterFields(p, fields) == AfterFields(q, rest);
      if rest == [] {
        RunNothing(q);
        assert AfterFields(q, rest) == q;
      } else {
        OtherFields(fields, p.trailers);
        assert Lowers(rest[0].key) in q.trailers;
        AllFields(q, rest);
      }
      ReadsConcat(p, FieldText(fields[0]), q, FieldsText(rest), AfterFields(p, fields));
    }
  }

  /** What the fields change: the headers, the trailers still announced and, behind the last, where the parser goes on. */
  lemma {:induction false} FieldsKept(p: Parser, fields: seq<Field>)
    ensures var q := AfterFields(p, fields);
      && q == p.(headers := q.headers, events := q.events, trailers := p.trailers - Keys(fields), chunk := q.chunk)
      && q.headers == p.headers + Stored(fields)
      && q.chunk == (if fields == [] then p.chunk else Chunk(0, if q.trailers == {} then STOP_BODY else TRAILERS, ""))
    decreases |fields|
  {
    hide Lowers, Texts.Trim;
    if fields != [] {
      KeysCons(fields);
      FieldsKept(AfterField(p, fields[0]), fields[1..]);
      assert p.trailers - Keys(fields) == p.trailers - {Lowers(fields[0].key)} - Keys(fields[1..]);
    }
  }

  lemma OtherFields(fields: seq<Field>, declared: set<string>)
    requires fields != [] && GoodFields(fields, declared)
    ensures GoodFields(fields[1..], declared - {Lowers(fields[0].key)})
  {
    hide Lowers;
  }

  lemma KeysCons(fields: seq<Field>)
    requires fields != []
    ensures Keys(fields) == {Lowers(fields[0].key)} + Keys(fields[1..])
  {
    hide Lowers;
    forall i | 0 <= i < |fields| ensures Lowers(fields[i].key) in {Lowers(fields[0].key)} + Keys(fields[1..]) {
      if i > 0 {
        assert fields[1..][i - 1] == fields[i];
      }
    }
    forall i | 0 <= i < |fields[1..]| ensures Lowers(fields[1..][i].key) in Keys(fields) {
      assert fields[i + 1] == fields[1..][i];
    }
  }

  // ---------- Whole messages ----------

  /** The last chunk: the trailer fields follow if some were announced to a client. */
  lemma LastChunk(p: Parser, zero: string)
    requires Ready(p) && GoodSize(zero, 0) && (p.trailers != {} ==> p.hid == Client)
    ensures Reads(p, zero + CRLF, p.(chunk := Chunk(0, if p.trailers == {} then STOP_BODY else TRAILERS, "")))
  {
    hide Run, Taken, Texts.NumeralValue, SizeOf;
    SizeOfHex(zero);
    assert forall i :: 0 <= i < |zero| ==> Texts.FigureOf(zero[i]) < 16 && zero[i] != '\r';
    SizeLine(p, zero);
  }

  /** The empty line ends the message, unless an announced trailer is still missing. */
  lemma EmptyLine(p: Parser)
    requires p.state == BODY && p.chunk == Chunk(0, if p.trailers == {} then STOP_BODY else TRAILERS, "")
    ensures Reads(p, CRLF, if p.trailers == {} then Finish(p) else p)
  {
    hide Run, Taken;
    ReadsCRLF(p);
  }

  /** The state a message leaves. */
  function Outcome(p: Parser, parts: seq<Part>, fields: seq<Field>): Parser {
    var q := Delivers(p, parts);
    var r := if p.trailers == {} then q.(chunk := Chunk(0, STOP_BODY, ""))
             else AfterFields(q.(chunk := Chunk(0, TRAILERS, "")), fields);
    if r.trailers == {} then Finish(r) else r
  }

  lemma ReadsMessage(p: Parser, parts: seq<Part>, zero: string, fields: seq<Field>)
    requires Ready(p) && GoodParts(parts) && GoodSize(zero, 0) && GoodFields(fields, p.trailers)
    requires p.trailers != {} ==> p.hid == Client
    ensures Reads(p, MessageText(parts, zero, fields), Outcome(p, parts, fields))
  {
    hide Run, Taken, Texts.NumeralValue, Lowers, Texts.Trim;
    var q := Delivers(p, parts);
    AllParts(p, parts);
    DeliversData(p, parts);
    LastChunk(q, zero);
    var r := q.(chunk := Chunk(0, if p.trailers == {} then STOP_BODY else TRAILERS, ""));
    ReadsConcat(p, PartsText(parts), q, zero + CRLF, r);
    var t := PartsText(parts) + (zero + CRLF);
    var u := if p.trailers == {} then r else AfterFields(r, fields);
    if p.trailers == {} {
      NoFields(fields, p.trailers);
      RunNothing(r);
    } else {
      AllFields(r, fields);
      FieldsKept(r, fields);
    }
    ReadsConcat(p, t, r, FieldsText(fields), u);
    EmptyLine(u);
    ReadsConcat(p, t + FieldsText(fields), u, CRLF, Outcome(p, parts, fields));
  }

  /** A message with announced trailers only, each at most once, that a client reads (or a server that announced
      none): it is taken whole and ends no earlier than at the last byte of its empty line, exactly when every
      announced trailer came; the parser then holds the concatenated data and the trailer fields. */
  lemma AnnouncedRead(p: Parser, parts: seq<Part>, zero: string, fields: seq<Field>, rest: string)
    requires Ready(p) && GoodParts(parts) && GoodSize(zero, 0) && GoodFields(fields, p.trailers)
    requires p.trailers != {} ==> p.hid == Client
    ensures var text := MessageText(parts, zero, fields);
      var q := Run(p, text);
      && Taken(p, text) == |text|
      && (q.state == END <==> Keys(fields) == p.trailers)
      && q.body == (if p.keeps then p.body + Data(parts) else p.body)
      && q.headers == p.headers + Stored(fields)
      && (forall k :: 0 <= k < |text| ==> Run(p, text[..k]).state == BODY)
      && (q.state == END ==> Run(p, text + rest) == q && Taken(p, text + rest) == |text|)
  {
    hide Run, Taken, Texts.NumeralValue, Lowers, Texts.Trim, MessageText, Stored;
    var text, q := MessageText(parts, zero, fields), Outcome(p, parts, fields);
    ReadsMessage(p, parts, zero, fields);
    DeliversData(p, parts);
    var d := Delivers(p, parts).(chunk := Chunk(0, TRAILERS, ""));
    if p.trailers == {} {
      NoFields(fields, p.trailers);
    } else {
      AllParts(p, parts);
      AllFields(d, fields);
      FieldsKept(d, fields);
      KeysDeclared(fields, p.trailers);
    }
    forall k | 0 <= k < |text| ensures Run(p, text[..k]).state == BODY {
      NotBefore(p, text, q, k);
    }
    if q.state == END {
      RunConcat(p, text, rest);
      RunEnded(q, rest);
    }
  }

  lemma NoFields(fields: seq<Field>, declared: set<string>)
    requires GoodFields(fields, declared) && declared == {}
    ensures fields == [] && Keys(fields) == {} && Stored(fields) == multiset{}
  {
    hide Lowers;
    KeysDeclared(fields, declared);
    KeysEmpty(fields);
  }

  lemma KeysEmpty(fields: seq<Field>)
    ensures Keys(fields) == {} <==> fields == []
  {
    hide Lowers;
    if fields != [] {
      assert Lowers(fields[0].key) in Keys(fields);
    }
  }

  lemma KeysDeclared(fields: seq<Field>, declared: set<string>)
    requires GoodFields(fields, declared)
    ensures Keys(fields) <= declared
    ensures declared - Keys(fields) == {} <==> Keys(fields) == declared
  {
    hide Lowers;
    assert forall i :: 0 <= i < |fields| ==> Lowers(fields[i].key) in declared;
    if declared - Keys(fields) == {} {
      assert forall key :: key in declared ==> key in declared - Keys(fields) || key in Keys(fields);
    }
  }

  lemma RunEnded(p: Parser, s: string)
    requires p.state != BODY
    ensures Run(p, s) == p && Taken(p, s) == 0
  {
  }

  /** A server never accepts announced trailers: the first byte after the last chunk
      that is not a line feed ends the message with an error, the empty line included. */
  lemma ServerTrailers(p: Parser, zero: string, rest: string)
    requires Ready(p) && GoodSize(zero, 0) && p.trailers != {} && p.hid != Client
    requires rest != "" && rest[0] != '\n'
    ensures var q := Run(p, zero + CRLF + rest);
      q.state == END && q.body == p.body && q.headers == p.headers
      && Taken(p, zero + CRLF + rest) == |zero| + 3
      && |q.events| > 0 && q.events[|q.events| - 1] == Fault(ExpectedLF)
  {
    hide Run, Taken, Texts.NumeralValue, SizeOf;
    SizeOfHex(zero);
    assert forall i :: 0 <= i < |zero| ==> Texts.FigureOf(zero[i]) < 16 && zero[i] != '\r';
    SizeLine(p, zero);
    var q := Emit(p.(chunk := Chunk(0, END_SIZE, "")), Fault(ClientTrailers));
    RunConcat(p, zero + CRLF, rest);
    RunOne(q, rest);
    RunEnded(Step(q, rest[0]), rest[1..]);
  }

  // ---------- Any trailer fields at all ----------

  /** The text ends the message, with its last byte. */
  predicate Ends(p: Parser, s: string) {
    Run(p, s).state == END && Taken(p, s) == |s|
  }

  lemma EndsBehind(p: Parser, a: string, q: Parser, b: string)
    requires Reads(p, a, q)
    ensures Ends(p, a + b) <==> Ends(q, b)
  {
    RunConcat(p, a, b);
  }

  /** A message that ends before the text does. */
  lemma EndsEarly(p: Parser, a: string, q: Parser, c: char, b: string)
    requires Reads(p, a, q) && q.state == BODY && Step(q, c).state == END && b != ""
    ensures !Ends(p, a + ([c] + b))
  {
    hide Run, Taken, Step;
    EndsBehind(p, a, q, [c] + b);
    RunOne(q, [c] + b);
    assert ([c] + b)[1..] == b;
    RunEnded(Step(q, c), b);
  }

  predicate GoodEach(fields: seq<Field>) {
    forall i :: 0 <= i < |fields| ==> GoodField(fields[i])
  }

  /** A parser behind the last chunk's line or behind a trailer field. */
  predicate Behind(p: Parser) {
    p.state == BODY && p.bodySize < 0 && p.chunk == Chunk(0, if p.trailers == {} then STOP_BODY else TRAILERS, "")
  }

  /** Without announcements left, the first byte of a field ends the message. */
  lemma StrayByte(p: Parser, c: char, rest: string)
    requires Behind(p) && p.trailers == {} && c != '\r' && rest != ""
    ensures !Ends(p, [c] + rest)
  {
    hide Run, Taken, Ends;
    RunNothing(p);
    assert [] + ([c] + rest) == [c] + rest;
    EndsEarly(p, [], p, c, rest);
  }

  /** While others are left, the carriage return of a field that is none of them does. */
  lemma StrayLine(p: Parser, f: Field, line: string, rest: string)
    requires Behind(p) && p.trailers != {} && GoodField(f) && Lowers(f.key) !in p.trailers && rest != ""
    requires line == f.key + ":" + f.value
    ensures !Ends(p, line + (['\r'] + rest))
  {
    hide Run, Taken, Reads, Step, GoodField, Lowers, Ends;
    FieldLine(p, f, line);
    FieldRefused(p, f, line);
    EndsEarly(p, line, p.(chunk := Chunk(0, TRAILERS, line)), '\r', rest);
  }

  lemma FieldRefused(p: Parser, f: Field, line: string)
    requires InTrailers(p) && Lowers(f.key) !in p.trailers && |f.key| < |line|
    requires Texts.Find(line, ':') == |f.key| && line[..|f.key|] == f.key
    ensures Step(p.(chunk := Chunk(0, TRAILERS, line)), '\r').state == END
  {
    hide Texts.Find, Texts.Trim, Lowers;
  }

  lemma FieldStart(f: Field, rest: string)
    requires GoodField(f)
    ensures var line, t := f.key + ":" + f.value, FieldText(f) + rest;
            && t == line + (['\r'] + (['\n'] + rest))
            && |t| >= 3 && t[0] != '\r' && t[0] != '\n' && t == [t[0]] + t[1..]
  {
    var line := f.key + ":" + f.value;
    assert CRLF == ['\r'] + ['\n'];
    assert FieldText(f) + rest == line + (['\r'] + (['\n'] + rest));
  }

  /** A field no announcement is left for ends the message before the text does. */
  lemma StrayField(p: Parser, f: Field, rest: string)
    requires Behind(p) && GoodField(f) && Lowers(f.key) !in p.trailers
    ensures !Ends(p, FieldText(f) + rest)
  {
    hide Ends, Lowers, GoodField, FieldText;
    FieldStart(f, rest);
    var t := FieldText(f) + rest;
    if p.trailers == {} {
      StrayByte(p, t[0], t[1..]);
    } else {
      StrayLine(p, f, f.key + ":" + f.value, ['\n'] + rest);
    }
  }

  /** What is left to come behind an announced field. */
  lemma OneFewer(fields: seq<Field>, declared: set<string>)
    requires fields != [] && GoodField(fields[0]) && Lowers(fields[0].key) in declared
    ensures var others := declared - {Lowers(fields[0].key)};
            (GoodFields(fields, declared) && Keys(fields) == declared) <==>
            (GoodFields(fields[1..], others) && Keys(fields[1..]) == others)
  {
    hide Lowers, GoodField;
    var key, rest := Lowers(fields[0].key), fields[1..];
    var others := declared - {key};
    KeysCons(fields);
    if GoodFields(fields, declared) {
      forall i | 0 <= i < |rest|
        ensures Lowers(rest[i].key) in others
      {
        assert rest[i] == fields[i + 1];
      }
      assert GoodFields(rest, others);
      assert key !in Keys(rest);
    }
    if GoodFields(rest, others) {
      forall i | 0 < i < |fields|
        ensures Lowers(fields[i].key) in others && GoodField(fields[i])
      {
        assert fields[i] == rest[i - 1];
      }
      assert forall i, j :: 0 < i < j < |fields| ==> fields[i] == rest[i - 1] && fields[j] == rest[j - 1];
    }
  }

  lemma {:induction false} TrailerSection(p: Parser, fields: seq<Field>)
    requires Behind(p) && GoodEach(fields)
    ensures Ends(p, FieldsText(fields) + CRLF) <==> GoodFields(fields, p.trailers) && Keys(fields) == p.trailers
    decreases |fields|
  {
    hide Run, Taken, Texts.Trim, Lowers, GoodFields, Ends, GoodField;
    if fields == [] {
      assert FieldsText(fields) + CRLF == CRLF;
      NoneLeft(p, fields);
    } else {
      var f, rest := fields[0], FieldsText(fields[1..]) + CRLF;
      assert FieldsText(fields) + CRLF == FieldText(f) + rest;
      if Lowers(f.key) in p.trailers {
        var q := AfterField(p, f);
        OneField(p, f);
        EndsBehind(p, FieldText(f), q, rest);
        OneFewer(fields, p.trailers);
        TrailerSection(q, fields[1..]);
      } else {
        StrayField(p, f, rest);
        NotDeclared(fields, p.trailers);
      }
    }
  }

  lemma NoneLeft(p: Parser, fields: seq<Field>)
    requires Behind(p) && fields == []
    ensures Ends(p, CRLF) <==> GoodFields(fields, p.trailers) && Keys(fields) == p.trailers
  {
    EmptyLine(p);
  }

  lemma NotDeclared(fields: seq<Field>, declared: set<string>)
    requires fields != [] && Lowers(fields[0].key) !in declared
    ensures !GoodFields(fields, declared)
  {
  }

  /**
   * For every list of non-empty chunks and of trailer fields, announced or not, the encoded message is read to its end,
   * and its end is its last byte, exactly if each announced trailer came once and nothing else did, and a server
   * announced none. The parser then holds the data and the fields, and takes nothing of what follows.
   */
  lemma MessageRead(p: Parser, parts: seq<Part>, zero: string, fields: seq<Field>, rest: string)
    requires Ready(p) && GoodParts(parts) && GoodSize(zero, 0) && GoodEach(fields)
    ensures Ends(p, MessageText(parts, zero, fields)) <==>
            if p.trailers == {} then fields == []
            else p.hid == Client && GoodFields(fields, p.trailers) && Keys(fields) == p.trailers
    ensures var text := MessageText(parts, zero, fields);
            var q := Run(p, text);
            Ends(p, text) ==>
              && q.body == (if p.keeps then p.body + Data(parts) else p.body)
              && q.headers == p.headers + Stored(fields)
              && (forall k :: 0 <= k < |text| ==> Run(p, text[..k]).state == BODY)
              && Run(p, text + rest) == q && Taken(p, text + rest) == |text|
  {
    hide Run, Taken, MessageText, Stored, Keys, GoodFields, GoodEach;
    MessageEnds(p, parts, zero, fields);
    if Ends(p, MessageText(parts, zero, fields)) {
      NoneGood();
      AnnouncedRead(p, parts, zero, fields, rest);
    }
  }

  lemma NoneGood()
    ensures GoodFields([], {})
  {
  }

  lemma MessageEnds(p: Parser, parts: seq<Part>, zero: string, fields: seq<Field>)
    requires Ready(p) && GoodParts(parts) && GoodSize(zero, 0) && GoodEach(fields)
    ensures Ends(p, MessageText(parts, zero, fields)) <==>
            if p.trailers == {} then fields == []
            else p.hid == Client && GoodFields(fields, p.trailers) && Keys(fields) == p.trailers
  {
    hide Run, Taken, Texts.NumeralValue, Lowers, GoodFields, Ends, GoodField;
    var q, tail := Delivers(p, parts), FieldsText(fields) + CRLF;
    AllParts(p, parts);
    DeliversData(p, parts);
    var front := PartsText(parts) + (zero + CRLF);
    assert MessageText(parts, zero, fields) == front + tail;
    if p.trailers == {} || p.hid == Client {
      LastChunk(q, zero);
      var r := q.(chunk := Chunk(0, if p.trailers == {} then STOP_BODY else TRAILERS, ""));
      ReadsConcat(p, PartsText(parts), q, zero + CRLF, r);
      EndsBehind(p, front, r, tail);
      TrailerSection(r, fields);
      if p.trailers == {} {
        NoneDeclared(fields);
      }
    } else {
      RefusedTail(q, zero, fields);
      EndsBehind(p, PartsText(parts), q, zero + CRLF + tail);
      assert MessageText(parts, zero, fields) == PartsText(parts) + (zero + CRLF + tail);
    }
  }

  lemma NoneDeclared(fields: seq<Field>)
    ensures GoodFields(fields, {}) && Keys(fields) == {} <==> fields == []
  {
    if fields != [] {
      NotDeclared(fields, {});
    }
  }

  lemma RefusedTail(p: Parser, zero: string, fields: seq<Field>)
    requires Ready(p) && GoodSize(zero, 0) && GoodEach(fields) && p.trailers != {} && p.hid != Client
    ensures !Ends(p, zero + CRLF + (FieldsText(fields) + CRLF))
  {
    hide Run, Taken, Texts.NumeralValue, Lowers;
    var tail := FieldsText(fields) + CRLF;
    TailStart(fields);
    ServerTrailers(p, zero, tail);
  }

  lemma TailStart(fields: seq<Field>)
    requires GoodEach(fields)
    ensures var tail := FieldsText(fields) + CRLF;
            |tail| >= 2 && tail[0] != '\n'
  {
    if fields != [] {
      FieldStart(fields[0], FieldsText(fields[1..]) + CRLF);
    }
  }

  // ---------- Chunk extensions ----------

  /** Text behind a size that does not start with a letter or a digit. */
  predicate Extension(ext: string) {
    ext == "" || !IsDigit36(Upper(ext[0]))
  }

  lemma {:induction false} PrefixValue(s: string, k: nat)
    requires k <= |s|
    ensures Texts.NumeralValue(s[..k], 16) <= Texts.NumeralValue(s, 16)
    ensures k < |s| && Texts.NumeralValue(s, 16) > 0 ==> Texts.NumeralValue(s[..k], 16) < Texts.NumeralValue(s, 16)
  {
    if k == |s| {
      assert s[..k] == s;
    } else {
      var init := s[..|s| - 1];
      assert init[..k] == s[..k];
      PrefixValue(init, k);
    }
  }

  lemma XFigure()
    ensures IsDigit36(Upper('x')) && Texts.FigureOf('x') >= 16
  {
  }

  /** The part of a size line with an extension that an 8-bit counter lets `Framework::atoi` see. */
  lemma ExaminedExtended(size: string, ext: string)
    requires Texts.AllFigures(size, 16) && size != "" && Extension(ext)
    ensures var k := |size + ext| % 256;
            if k <= |size| then Examined(size + ext) == Uppers(size[..k]) else !AllDigits36(Examined(size + ext))
  {
    var line, k := size + ext, |size + ext| % 256;
    hide Texts.FigureOf, Upper;
    if |line| >= 2 {
      XFigure();
      assert line[1] == if |size| >= 2 then size[1] else ext[0];
    }
    assert Examined(line) == Uppers(line)[..k];
    if k <= |size| {
      assert Uppers(line)[..k] == Uppers(size[..k]);
    } else {
      assert Examined(line)[|size|] == Upper(ext[0]);
    }
  }

  /**
   * Section 7.1.1 of RFC 9112 lets a chunk size be followed by extensions to be ignored. Here they count, unless
   * the size is zero or the line happens to be as long as its size, modulo 256.
   */
  lemma ExtendedSize(size: string, ext: string)
    requires Texts.AllFigures(size, 16) && 0 < |size| <= 16 && Extension(ext)
    ensures var k := |size + ext| % 256;
            SizeOf(size + ext) == if k <= |size| then Texts.NumeralValue(size[..k], 16) else 0
    ensures SizeOf(size + ext) == Texts.NumeralValue(size, 16) <==>
            Texts.NumeralValue(size, 16) == 0 || |size + ext| % 256 == |size|
    ensures SizeOf(size + ext) <= Texts.NumeralValue(size, 16)
  {
    hide Examined, Texts.NumeralValue, Pow, AllDigits36;
    var k := |size + ext| % 256;
    ExaminedExtended(size, ext);
    if k <= |size| {
      var front := size[..k];
      HexIsPositional(front);
      HexBound(front);
      PowGrows(|front|, 16);
      PowValue();
      PrefixValue(size, k);
      assert k == |size| ==> front == size;
    }
  }

  /** The parser will never deliver `data` as its next report: it has reported something else, or can only
      deliver less. */
  predicate Astray(base: nat, data: string, q: Parser) {
    var c := q.chunk;
    if |q.events| > base then q.events[base] != Binary(data)
    else |q.events| == base && (q.state == BODY ==> match c.phase
      case TRAILERS => c.size == 0
      case STOP_BODY | END_BODY => c.size == 0 || |c.data| == c.size < |data|
      case DATA => |c.data| < c.size < |data|
      case _ => false)
  }

  lemma TrailerReports(p: Parser)
    ensures var q := TakeTrailer(p);
            && p.events <= q.events && (|q.events| > |p.events| ==> q.events[|p.events|].Header?)
            && (q.chunk == p.chunk.(data := "") || q.state == END)
  {
    hide Texts.Find, Texts.Trim, Lowers;
  }

  lemma StepAppends(p: Parser, c: char)
    ensures p.events <= Step(p, c).events
  {
    if p.chunk.phase == TRAILERS {
      TrailerReports(p);
      hide TakeTrailer;
    } else {
      hide SizeOf, TakeTrailer;
    }
  }

  lemma AstrayStep(base: nat, data: string, p: Parser, c: char)
    requires Astray(base, data, p) && p.state == BODY
    ensures Astray(base, data, Step(p, c))
  {
    if |p.events| > base {
      hide Step;
      StepAppends(p, c);
    } else if p.chunk.phase == TRAILERS {
      TrailerReports(p);
      hide TakeTrailer;
    } else if p.chunk.phase == END_BODY {
      EndAstray(base, data, p, c);
    } else {
      DataAstray(base, data, p, c);
    }
  }

  lemma EndAstray(base: nat, data: string, p: Parser, c: char)
    requires Astray(base, data, p) && p.state == BODY && p.chunk.phase == END_BODY && |p.events| == base
    ensures Astray(base, data, Step(p, c))
  {
    hide TakeTrailer, SizeOf;
  }

  lemma DataAstray(base: nat, data: string, p: Parser, c: char)
    requires Astray(base, data, p) && p.state == BODY && p.chunk.phase in {DATA, STOP_BODY} && |p.events| == base
    ensures Astray(base, data, Step(p, c))
  {
    hide TakeTrailer, SizeOf;
  }

  lemma {:induction false} AstrayRun(base: nat, data: string, p: Parser, s: string)
    requires Astray(base, data, p)
    ensures Astray(base, data, Run(p, s))
    decreases |s|
  {
    hide Astray, Step;
    if s != "" && p.state == BODY {
      AstrayStep(base, data, p, s[0]);
      AstrayRun(base, data, Step(p, s[0]), s[1..]);
    }
  }

  /** A chunk whose size line carries an extension is delivered exactly if the line is as long as its size,
      modulo 256: never for the lengths in use. */
  lemma ChunkExtension(p: Parser, size: string, ext: string, data: string)
    requires Ready(p) && data != "" && GoodSize(size, |data|) && Extension(ext)
    requires forall i :: 0 <= i < |ext| ==> ext[i] != '\r'
    ensures Run(p, size + ext + CRLF + data + CRLF) == Deliver(p, data) <==> |size + ext| % 256 == |size|
  {
    hide Run, Taken, SizeOf, Texts.NumeralValue;
    var line := size + ext;
    ExtendedSize(size, ext);
    assert forall i :: 0 <= i < |size| ==> Texts.FigureOf(size[i]) < 16 && size[i] != '\r';
    if SizeOf(line) == |data| {
      PartBehind(p, line, data);
    } else {
      SizeLine(p, line);
      var q := Step(p.(chunk := Chunk(SizeOf(line), END_SIZE, "")), '\n');
      assert Astray(|p.events|, data, q);
      RunConcat(p, line + CRLF, data + CRLF);
      assert line + CRLF + data + CRLF == line + CRLF + (data + CRLF);
      AstrayRun(|p.events|, data, q, data + CRLF);
    }
  }

  /** A size line read as zero is the last chunk's: data behind it ends the message with an error at the first
      byte that is not a carriage return. */
  lemma ExtensionFault(p: Parser, line: string, data: string)
    requires Ready(p) && p.trailers == {} && SizeOf(line) == 0
    requires forall i :: 0 <= i < |line| ==> line[i] != '\r'
    requires data != "" && data[0] != '\r'
    ensures var q := Run(p, line + CRLF + data);
            && q.state == END && q.body == p.body && Taken(p, line + CRLF + data) == |line| + 3
            && |q.events| > 0 && q.events[|q.events| - 1] == Fault(ExpectedCR)
  {
    hide Run, Taken, SizeOf;
    SizeLine(p, line);
    var q := p.(chunk := Chunk(0, STOP_BODY, ""));
    RunConcat(p, line + CRLF, data);
    RunOne(q, data);
    RunEnded(Step(q, data[0]), data[1..]);
  }
}
