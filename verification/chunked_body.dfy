/**
 The body parser of an HTTP/1.1 message (`Web::readPayload`): the chunked coding,
 a body of announced length and a body that runs until the connection closes.

 `Step` is the meaning of one byte of a chunked body.  The parser itself copies
 whole runs of bytes and may be called with any fragment of the message; its
 method is proved equal to `Run`, the byte-by-byte meaning.
 */
module ChunkedBody {
  import opened Numerals
  import Texts

  datatype Hid = NoRole | Client | Server
  datatype State = END | BODY | QUERY | HEADERS
  datatype Phase = SIZE | DATA | TRAILERS | END_SIZE | END_BODY | STOP_BODY
  datatype Chunk = Chunk(size: nat, phase: Phase, data: string)

  const NoChunk := Chunk(0, SIZE, "")

  datatype Problem = ExpectedLF | ExpectedCR | ClientTrailers | UnknownTrailer(key: string)

  /** What the parser reports to its callbacks, in order. */
  datatype Event = Binary(data: string) | Header(key: string, value: string) | Entity(body: string) | Fault(problem: Problem)

  /** The parser's fields.  `keeps` says that the installed "binary" callback
      appends the data to the body, as the library's own servers do. */
  datatype Parser = Parser(
    hid: Hid, keeps: bool, state: State, bodySize: int, chunk: Chunk, body: string,
    trailers: set<string>, headers: multiset<(string, string)>, events: seq<Event>)

  // ---------- The size line ----------

  const WORD := 0x1_0000_0000_0000_0000

  predicate IsDigit36(c: char) {
    '0' <= c <= '9' || 'A' <= c <= 'Z'
  }

  predicate AllDigits36(s: string) {
    forall i :: 0 <= i < |s| ==> IsDigit36(s[i])
  }

  /** The characters `Framework::atoi` looks at: "0x" dropped, upper case, and as
      many of them as an 8-bit counter can count. */
  function Examined(line: string): string {
    var t := Uppers(if |line| >= 2 && line[..2] == "0x" then line[2..] else line);
    t[..|t| % 256]
  }

  /** The chunk size read from a size line. */
  function SizeOf(line: string): nat {
    if AllDigits36(Examined(line)) then Texts.NumeralValue(Examined(line), 16) % WORD else 0
  }

  lemma ModShift(a: nat, k: nat)
    ensures (a + k * WORD) % WORD == a % WORD
  {
    var b := a + k * WORD;
    assert b == (a / WORD + k) * WORD + a % WORD;
  }

  lemma AddScaled(acc: nat, d: nat, p: nat)
    ensures (acc % WORD + d * (p % WORD)) % WORD == (acc + d * p) % WORD
  {
    var low, q, k := acc % WORD + d * (p % WORD), acc / WORD, p / WORD;
    assert d * p == d * (k * WORD) + d * (p % WORD) by { assert p == k * WORD + p % WORD; }
    assert d * (k * WORD) == (d * k) * WORD;
    assert acc + d * p == low + (q + d * k) * WORD;
    ModShift(low, q + d * k);
  }

  lemma Distribute(v: nat, d: nat, p: nat)
    ensures v * (16 * p) + d * p == (16 * v + d) * p
  {
  }

  /** The sum of the first `i` digits times their powers, in the machine word. */
  function Summed(t: string, i: nat): nat
    requires i <= |t|
  {
    (Texts.NumeralValue(t[..i], 16) * Pow(16, |t| - i)) % WORD
  }

  function Added(sum: nat, c: char, exponent: nat): nat {
    (sum + Texts.FigureOf(c) * (Pow(16, exponent) % WORD)) % WORD
  }

  lemma NextDigit(t: string, i: nat)
    requires i < |t|
    ensures Added(Summed(t, i), t[i], |t| - i - 1) == Summed(t, i + 1)
  {
    var p, v, d := Pow(16, |t| - i - 1), Texts.NumeralValue(t[..i], 16), Texts.FigureOf(t[i]);
    assert Pow(16, |t| - i) == 16 * p;
    assert Texts.NumeralValue(t[..i + 1], 16) == 16 * v + d by { assert t[..i + 1][..i] == t[..i]; }
    hide Pow, Texts.NumeralValue, Texts.FigureOf;
    AddScaled(v * (16 * p), d, p);
    Distribute(v, d, p);
  }

  lemma SummedEnds(t: string)
    ensures Summed(t, 0) == 0 && Summed(t, |t|) == Texts.NumeralValue(t, 16) % WORD
  {
    assert t[..|t|] == t;
  }

  /** The loop of `Framework::atoi`: powers from the highest down; any other character makes the result 0. */
  method SumDigits(number: string) returns (result: nat)
    ensures result == if AllDigits36(number) then Texts.NumeralValue(number, 16) % WORD else 0
  {
    hide Summed, Added, IsDigit36;
    result := 0;
    var i := 0;
    SummedEnds(number);
    while i < |number|
      invariant i <= |number| && AllDigits36(number[..i])
      invariant result == Summed(number, i)
    {
      if !IsDigit36(number[i]) {
        return 0;
      }
      NextDigit(number, i);
      result := Added(result, number[i], |number| - i - 1);
      i := i + 1;
    }
    assert number[..i] == number;
  }

  method Atoi(value: string) returns (r: nat)
    ensures r == SizeOf(value)
  {
    var number := if |value| >= 2 && value[..2] == "0x" then value[2..] else value;
    number := Uppers(number);
    var count := |number| % 256;
    r := SumDigits(number[..count]);
  }

  // ---------- One byte ----------

  function Emit(p: Parser, e: Event): Parser {
    p.(events := p.events + [e])
  }

  /** The "binary" callback with the collected data. */
  function Deliver(p: Parser, data: string): Parser {
    Emit(p, Binary(data)).(body := if p.keeps then p.body + data else p.body)
  }

  /** The "entityClient" or "entityServer" callback, and the end of the message. */
  function Finish(p: Parser): Parser {
    (if p.hid == NoRole then p else Emit(p, Entity(p.body))).(chunk := NoChunk, state := END)
  }

  function Fail(p: Parser, problem: Problem): Parser {
    Emit(Finish(p), Fault(problem))
  }

  /** The collected line of a trailer, at its carriage return. */
  function TakeTrailer(p: Parser): Parser {
    var line := p.chunk.data;
    var pos := Texts.Find(line, ':');
    if pos == |line| then p.(chunk := p.chunk.(data := ""))
    else
      var key, value := Lowers(line[..pos]), Texts.Trim(line[pos + 1..]);
      var q := Emit(p, Header(key, value)).(headers := p.headers + multiset{(key, value)});
      if key in p.trailers then q.(trailers := p.trailers - {key}, chunk := p.chunk.(data := ""))
      else Finish(Emit(q.(trailers := {}), Fault(UnknownTrailer(key))))
  }

  /** The effect of one byte of a chunked body. */
  function Step(p: Parser, c: char): Parser {
    match p.chunk.phase
    case SIZE =>
      if c == '\r' then p.(chunk := Chunk(SizeOf(p.chunk.data), END_SIZE, ""))
      else p.(chunk := p.chunk.(data := p.chunk.data + [c]))
    case END_SIZE =>
      if c != '\n' then Fail(p, ExpectedLF)
      else if p.chunk.size > 0 then p.(chunk := p.chunk.(phase := DATA))
      else if p.trailers == {} then p.(chunk := p.chunk.(phase := STOP_BODY))
      else if p.hid == Client then p.(chunk := p.chunk.(phase := TRAILERS, data := ""))
      else Emit(p, Fault(ClientTrailers))
    case DATA =>
      var data := p.chunk.data + [c];
      p.(chunk := p.chunk.(data := data, phase := if |data| >= p.chunk.size then STOP_BODY else DATA))
    case STOP_BODY =>
      if c == '\r' then p.(chunk := p.chunk.(phase := END_BODY)) else Fail(p, ExpectedCR)
    case END_BODY =>
      if c != '\n' then Fail(p, ExpectedLF)
      else if p.chunk.size == 0 then Finish(p)
      else Deliver(p, p.chunk.data).(chunk := NoChunk)
    case TRAILERS =>
      if c == '\n' then (if p.trailers == {} then p.(chunk := p.chunk.(phase := STOP_BODY)) else p)
      else if c == '\r' then TakeTrailer(p)
      else p.(chunk := p.chunk.(data := p.chunk.data + [c]))
  }

  // ---------- Any number of bytes ----------

  /** The state after the bytes of `s` the parser accepts: all of them, or all up to
      the one that ends the message. */
  function Run(p: Parser, s: string): Parser
    decreases |s|
  {
    if s == "" || p.state != BODY then p else Run(Step(p, s[0]), s[1..])
  }

  /** How many bytes of `s` that is. */
  function Taken(p: Parser, s: string): (n: nat)
    ensures n <= |s|
    ensures n < |s| ==> Run(p, s).state != BODY
    decreases |s|
  {
    if s == "" || p.state != BODY then 0 else 1 + Taken(Step(p, s[0]), s[1..])
  }

  lemma RunNothing(p: Parser)
    ensures Run(p, "") == p && Taken(p, "") == 0
  {
  }

  lemma RunOne(p: Parser, s: string)
    requires s != "" && p.state == BODY
    ensures Run(p, s) == Run(Step(p, s[0]), s[1..]) && Taken(p, s) == 1 + Taken(Step(p, s[0]), s[1..])
  {
  }

  lemma {:induction false} RunConcat(p: Parser, a: string, b: string)
    ensures Run(p, a + b) == Run(Run(p, a), b)
    ensures Taken(p, a + b) == Taken(p, a) + Taken(Run(p, a), b)
    decreases |a|
  {
    if a == "" || p.state != BODY {
      assert a == "" ==> a + b == b;
    } else {
      assert (a + b)[0] == a[0] && (a + b)[1..] == a[1..] + b;
      RunConcat(Step(p, a[0]), a[1..], b);
    }
  }

  // ---------- What holds of the collected chunk ----------

  predicate ChunkFits(c: Chunk) {
    match c.phase
    case DATA => |c.data| < c.size
    case STOP_BODY | END_BODY => c.size > 0 ==> |c.data| == c.size
    case END_SIZE => c.data == ""
    case TRAILERS => c.size == 0
    case SIZE => true
  }

  lemma TrailerFits(p: Parser)
    ensures TakeTrailer(p).chunk == p.chunk.(data := "") || TakeTrailer(p).chunk == NoChunk
    ensures TakeTrailer(p).bodySize == p.bodySize
  {
    hide Texts.Find, Texts.Trim, Lowers;
  }

  lemma StepFits(p: Parser, c: char)
    requires ChunkFits(p.chunk)
    ensures ChunkFits(Step(p, c).chunk)
  {
    TrailerFits(p);
    hide TakeTrailer, SizeOf;
  }

  lemma {:induction false} ChunkFitsAlways(p: Parser, s: string)
    requires ChunkFits(p.chunk)
    ensures ChunkFits(Run(p, s).chunk)
    decreases |s|
  {
    hide Step, ChunkFits;
    if s != "" && p.state == BODY {
      StepFits(p, s[0]);
      ChunkFitsAlways(Step(p, s[0]), s[1..]);
    }
  }

  /** The collected data is no longer than its declared size, and as long behind the data. */
  predicate ChunkWithin(c: Chunk) {
    ChunkFits(c) && (c.phase == STOP_BODY || c.phase == END_BODY ==> |c.data| == c.size)
  }

  /** A line feed that ends the trailers behind text that no carriage return completed. */
  predicate Spills(p: Parser, c: char) {
    p.chunk.phase == TRAILERS && c == '\n' && p.trailers == {} && p.chunk.data != ""
  }

  predicate NeverSpills(p: Parser, s: string)
    decreases |s|
  {
    s == "" || p.state != BODY || (!Spills(p, s[0]) && NeverSpills(Step(p, s[0]), s[1..]))
  }

  predicate WithinAll(p: Parser, s: string)
    decreases |s|
  {
    ChunkWithin(p.chunk) && (s == "" || p.state != BODY || WithinAll(Step(p, s[0]), s[1..]))
  }

  lemma StepWithin(p: Parser, c: char)
    requires ChunkWithin(p.chunk)
    ensures ChunkWithin(Step(p, c).chunk) <==> !Spills(p, c)
  {
    StepFits(p, c);
    TrailerFits(p);
    hide TakeTrailer, SizeOf, ChunkFits;
  }

  /** On the way through a stream the data keeps within its declared size exactly if no line of trailers is cut. */
  lemma {:induction false} ChunkWithinAlways(p: Parser, s: string)
    requires ChunkWithin(p.chunk)
    ensures WithinAll(p, s) <==> NeverSpills(p, s)
    decreases |s|
  {
    hide Step, ChunkWithin, Spills;
    if s != "" && p.state == BODY {
      StepWithin(p, s[0]);
      if ChunkWithin(Step(p, s[0]).chunk) {
        ChunkWithinAlways(Step(p, s[0]), s[1..]);
      } else {
        assert !WithinAll(Step(p, s[0]), s[1..]);
      }
    }
  }
}
