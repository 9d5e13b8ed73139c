/** `Web`: the parser object, fed one buffer at a time. */
module WebParser {
  import opened Numerals
  import Texts
  import opened ChunkedBody

  /** A buffer of a body of announced or unlimited length: how much is taken ... */
  function PlainTaken(p: Parser, buffer: string): nat
    requires p.bodySize > -1
  {
    if p.bodySize == 0 then |buffer|
    else
      // an unsigned subtraction: a body that outgrew its size leaves a huge remainder
      var left := (p.bodySize - |p.body|) % WORD;
      if |buffer| > left then left else |buffer|
  }

  /** ... and what it does. */
  function PlainNext(p: Parser, buffer: string): Parser
    requires p.bodySize > -1
  {
    var n := PlainTaken(p, buffer);
    var piece := if n <= |buffer| then buffer[..n] else buffer;
    if p.bodySize == 0 then Deliver(p.(chunk := p.chunk.(data := piece)), piece)
    else
      var q := Deliver(p.(chunk := p.chunk.(size := p.chunk.size + n, data := piece)), piece);
      if p.bodySize == q.chunk.size then Finish(q) else q
  }

  /** One call of `readPayload`: the new state and the number of bytes processed. */
  function Next(p: Parser, buffer: string): Parser {
    if buffer == "" || p.state != BODY then p
    else if p.bodySize > -1 then PlainNext(p, buffer)
    else Run(p, buffer)
  }

  function Processed(p: Parser, buffer: string): (n: nat)
    ensures n <= |buffer|
  {
    if buffer == "" || p.state != BODY then 0
    else if p.bodySize > -1 then PlainTaken(p, buffer)
    else Taken(p, buffer)
  }

  lemma DataStep(p: Parser, c: char)
    requires p.chunk.phase == DATA && |p.chunk.data| < p.chunk.size
    ensures Step(p, c) == Collected(p, [c])
  {
  }

  /** Phase DATA after more of the data; the phase ends with the last missing byte. */
  function Collected(p: Parser, s: string): Parser {
    var data := p.chunk.data + s;
    p.(chunk := Chunk(p.chunk.size, if |data| >= p.chunk.size then STOP_BODY else DATA, data))
  }

  lemma {:induction false} RunMissingData(p: Parser, s: string)
    requires p.state == BODY && p.chunk.phase == DATA && |p.chunk.data| < p.chunk.size
    requires |p.chunk.data| + |s| <= p.chunk.size
    ensures Run(p, s) == Collected(p, s) && Taken(p, s) == |s|
    decreases |s|
  {
    hide Run, Taken, Step;
    if s == "" {
      RunNothing(p);
      assert p.chunk.data + s == p.chunk.data;
    } else {
      var q := Collected(p, [s[0]]);
      RunOne(p, s);
      DataStep(p, s[0]);
      assert (p.chunk.data + [s[0]]) + s[1..] == p.chunk.data + s;
      if |s| == 1 {
        RunNothing(q);
      } else {
        RunMissingData(q, s[1..]);
      }
    }
  }

  /** In phase DATA the parser moves a run of bytes at once: all that are missing, or all there are. */
  lemma RunData(p: Parser, s: string)
    requires p.state == BODY && p.chunk.phase == DATA && |p.chunk.data| < p.chunk.size
    ensures var rem := p.chunk.size - |p.chunk.data|;
      var n := if |s| < rem then |s| else rem;
      Run(p, s) == Run(Collected(p, s[..n]), s[n..]) && Taken(p, s) == n + Taken(Collected(p, s[..n]), s[n..])
  {
    hide Run, Taken, Step;
    var rem := p.chunk.size - |p.chunk.data|;
    var n := if |s| < rem then |s| else rem;
    RunMissingData(p, s[..n]);
    assert s == s[..n] + s[n..];
    RunConcat(p, s[..n], s[n..]);
  }

  /** From `was`, the first `i` bytes of the buffer lead to `p`. */
  ghost predicate Reached(was: Parser, buffer: string, p: Parser, i: nat) {
    i <= |buffer| && Run(was, buffer) == Run(p, buffer[i..]) && Taken(was, buffer) == i + Taken(p, buffer[i..])
  }

  lemma ReachedStep(was: Parser, buffer: string, p: Parser, i: nat)
    requires Reached(was, buffer, p, i) && i < |buffer| && p.state == BODY
    ensures Reached(was, buffer, Step(p, buffer[i]), i + 1)
  {
    assert buffer[i..][0] == buffer[i];
    Slice(buffer, i, 1);
  }

  lemma ByteFits(p: Parser, c: char)
    requires ChunkFits(p.chunk) && p.chunk.phase != DATA
    ensures var q := Step(p, c);
      ChunkFits(q.chunk) && q.bodySize == p.bodySize &&
      (q.chunk.phase == DATA ==> p.chunk.phase == END_SIZE && c == '\n' && p.chunk.size > 0)
  {
    hide TakeTrailer, SizeOf;
    TrailerFits(p);
  }

  class Web {
    var hid: Hid
    var keeps: bool
    var state: State
    var bodySize: int
    var chunk: Chunk
    var body: string
    var trailers: set<string>
    var headers: multiset<(string, string)>
    var events: seq<Event>

    ghost function Now(): Parser
      reads this
    {
      Parser(hid, keeps, state, bodySize, chunk, body, trailers, headers, events)
    }

    /** The fields hold a chunk the state machine could have collected. */
    ghost predicate Valid()
      reads this
    {
      bodySize < 0 ==> ChunkFits(chunk)
    }

    method Entity()
      modifies this
      ensures Now() == Finish(old(Now()))
    {
      chunk := NoChunk;
      if hid != NoRole {
        events := events + [ChunkedBody.Entity(body)];
      }
      state := END;
    }

    method Stop(problem: Problem)
      modifies this
      ensures Now() == Fail(old(Now()), problem)
    {
      Entity();
      events := events + [Fault(problem)];
    }

    method CallBinary()
      modifies `events, `body
      ensures Now() == Deliver(old(Now()), chunk.data)
    {
      events := events + [Binary(chunk.data)];
      if keeps {
        body := body + chunk.data;
      }
    }

    method RefuseTrailer(key: string)
      modifies this
      ensures Now() == Finish(Emit(old(Now()).(trailers := {}), Fault(UnknownTrailer(key))))
    {
      trailers := {};
      events := events + [Fault(UnknownTrailer(key))];
      Entity();
    }

    method StoreHeader(key: string, value: string)
      modifies `headers, `events
      ensures Now() == Emit(old(Now()), Header(key, value)).(headers := old(headers) + multiset{(key, value)})
    {
      headers := headers + multiset{(key, value)};
      events := events + [Header(key, value)];
    }

    /** The line of a trailer is complete. */
    method ReadTrailer()
      modifies this
      ensures Now() == TakeTrailer(old(Now()))
    {
      var pos := Texts.Find(chunk.data, ':');
      if pos < |chunk.data| {
        var key, value := Lowers(chunk.data[..pos]), Texts.Trim(chunk.data[pos + 1..]);
        StoreHeader(key, value);
        if key in trailers {
          trailers := trailers - {key};
          chunk := chunk.(data := "");
        } else {
          RefuseTrailer(key);
        }
      } else {
        chunk := chunk.(data := "");
      }
    }

    method OnTrailers(c: char)
      requires chunk.phase == TRAILERS
      modifies this
      ensures Now() == Step(old(Now()), c)
    {
      if c == '\n' {
        if trailers == {} {
          chunk := chunk.(phase := STOP_BODY);
        }
      } else if c == '\r' {
        ReadTrailer();
      } else {
        chunk := chunk.(data := chunk.data + [c]);
      }
    }

    method OnSize(c: char)
      requires chunk.phase == SIZE
      modifies `chunk
      ensures Now() == Step(old(Now()), c)
    {
      if c == '\r' {
        var n := Atoi(chunk.data);
        chunk := Chunk(n, END_SIZE, "");
      } else {
        chunk := chunk.(data := chunk.data + [c]);
      }
    }

    method OnEndSize(c: char)
      requires chunk.phase == END_SIZE && !(c == '\n' && chunk.size > 0)
      modifies this
      ensures Now() == Step(old(Now()), c)
    {
      if c != '\n' {
        Stop(ExpectedLF);
      } else if trailers == {} {
        chunk := chunk.(phase := STOP_BODY);
      } else if hid == Client {
        chunk := chunk.(data := "", phase := TRAILERS);
      } else {
        events := events + [Fault(ClientTrailers)];
      }
    }

    method OnStopBody(c: char)
      requires chunk.phase == STOP_BODY
      modifies this
      ensures Now() == Step(old(Now()), c)
    {
      if c == '\r' {
        chunk := chunk.(phase := END_BODY);
      } else {
        Stop(ExpectedCR);
      }
    }

    method OnEndBody(c: char)
      requires chunk.phase == END_BODY
      modifies this
      ensures Now() == Step(old(Now()), c)
    {
      if c != '\n' {
        Stop(ExpectedLF);
      } else if chunk.size == 0 {
        Entity();
      } else {
        CallBinary();
        chunk := NoChunk;
      }
    }

    /** A byte that no run of data starts from or belongs to. */
    method ReadByte(c: char)
      requires state == BODY && chunk.phase != DATA && ChunkFits(chunk)
      requires !(chunk.phase == END_SIZE && c == '\n' && chunk.size > 0)
      modifies this
      ensures Now() == Step(old(Now()), c)
      ensures bodySize == old(bodySize) && chunk.phase != DATA && ChunkFits(chunk)
    {
      ByteFits(Now(), c);
      match chunk.phase
      case TRAILERS => OnTrailers(c);
      case SIZE => OnSize(c);
      case END_SIZE => OnEndSize(c);
      case STOP_BODY => OnStopBody(c);
      case END_BODY => OnEndBody(c);
    }

    /** Moves the run of data that starts at `from`: all that is missing, or all there is. */
    method ReadRun(buffer: string, from: nat) returns (end: nat)
      requires state == BODY && chunk.phase == DATA && |chunk.data| < chunk.size && from <= |buffer|
      modifies `chunk
      ensures from <= end <= |buffer| && (from < |buffer| ==> from < end)
      ensures Run(old(Now()), buffer[from..]) == Run(Now(), buffer[end..])
      ensures Taken(old(Now()), buffer[from..]) == end - from + Taken(Now(), buffer[end..])
      ensures ChunkFits(chunk) && (chunk.phase == DATA ==> end == |buffer|)
    {
      hide Run, Taken, Step;
      RunData(Now(), buffer[from..]);
      var rem := chunk.size - |chunk.data|;
      if |buffer| - from >= rem {
        end := from + rem;
        Slice(buffer, from, rem);
        chunk := chunk.(phase := STOP_BODY, data := chunk.data + buffer[from..end]);
      } else {
        end := |buffer|;
        Slice(buffer, from, end - from);
        assert buffer[from..end] == buffer[from..];
        chunk := chunk.(data := chunk.data + buffer[from..]);
      }
    }

    /** The chunked branch of `readPayload`. */
    method ReadChunks(buffer: string) returns (result: nat)
      requires Valid() && state == BODY && bodySize < 0
      modifies this
      ensures Valid()
      ensures Now() == Run(old(Now()), buffer)
      ensures result == Taken(old(Now()), buffer)
    {
      ghost var was := Now();
      var i := 0;
      assert buffer[0..] == buffer && Reached(was, buffer, was, 0);
      hide Run, Taken, Step;
      while i < |buffer| && state == BODY
        invariant i <= |buffer| && bodySize < 0 && ChunkFits(chunk)
        invariant state == BODY && chunk.phase == DATA ==> i == 0 || i == |buffer|
        invariant Reached(was, buffer, Now(), i)
      {
        ReachedStep(was, buffer, Now(), i);
        if chunk.phase == DATA {
          i := ReadRun(buffer, 0);
        } else if chunk.phase == END_SIZE && buffer[i] == '\n' && chunk.size > 0 {
          chunk := chunk.(phase := DATA);
          i := ReadRun(buffer, i + 1);
        } else {
          ReadByte(buffer[i]);
          i := i + 1;
        }
      }
      return i;
    }

    /** `readPayload`: takes what it can of the buffer and says how much that was. */
    method ReadPayload(buffer: string) returns (result: nat)
      requires Valid()
      modifies this
      ensures Valid()
      ensures Now() == Next(old(Now()), buffer)
      ensures result == Processed(old(Now()), buffer)
    {
      result := 0;
      if buffer != "" && state == BODY {
        if bodySize > -1 {
          if bodySize == 0 {
            result := |buffer|;
            chunk := chunk.(data := buffer[..result]);
            CallBinary();
          } else {
            result := (bodySize - |body|) % WORD;
            result := if |buffer| > result then result else |buffer|;
            chunk := chunk.(size := chunk.size + result, data := buffer[..result]);
            CallBinary();
            if bodySize == chunk.size {
              Entity();
            }
          }
        } else {
          result := ReadChunks(buffer);
        }
      }
    }
  }
}
