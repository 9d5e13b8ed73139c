/** How a body is cut into calls does not matter: the runs of `parse` over a stream. */
module WebCalls {
  import opened Numerals
  import opened ChunkedBody
  import opened WebParser

  /** A caller keeps the bytes a call did not process and presents them again. */
  datatype Session = Session(p: Parser, carry: string, used: nat)

  function Call(s: Session, piece: string): Session {
    var buffer := s.carry + piece;
    var n := Processed(s.p, buffer);
    Session(Next(s.p, buffer), buffer[n..], s.used + n)
  }

  function Calls(s: Session, pieces: seq<string>): Session
    decreases |pieces|
  {
    if pieces == [] then s else Calls(Call(s, pieces[0]), pieces[1..])
  }

  function Concat(pieces: seq<string>): string {
    if pieces == [] then "" else pieces[0] + Concat(pieces[1..])
  }

  // ---------- The chunked coding ----------

  /** The session of a single call with all the bytes sent so far. */
  function At(p: Parser, sent: string): Session {
    Session(Run(p, sent), sent[Taken(p, sent)..], Taken(p, sent))
  }

  /** Every cut of every byte stream gives the state and the count of one single call. */
  lemma {:induction false} ChunkedCuts(p: Parser, pieces: seq<string>)
    requires p.bodySize < 0
    ensures var all, s := Concat(pieces), Calls(Session(p, "", 0), pieces);
      s.p == Next(p, all) && s.used == Processed(p, all) && s.carry == all[s.used..]
  {
    ChunkedCutsFrom(p, "", pieces);
    assert "" + Concat(pieces) == Concat(pieces);
  }

  lemma {:induction false} ChunkedCutsFrom(p: Parser, sent: string, pieces: seq<string>)
    requires p.bodySize < 0
    ensures Calls(At(p, sent), pieces) == At(p, sent + Concat(pieces))
    decreases |pieces|
  {
    hide Run, Taken, Step;
    if pieces == [] {
      assert sent + Concat(pieces) == sent;
    } else {
      Assoc(sent, pieces[0], Concat(pieces[1..]));
      ChunkedCall(p, sent, pieces[0]);
      ChunkedCutsFrom(p, sent + pieces[0], pieces[1..]);
    }
  }

  lemma NextIsRun(p: Parser, s: string)
    requires p.bodySize < 0
    ensures Next(p, s) == Run(p, s) && Processed(p, s) == Taken(p, s)
  {
  }

  lemma TakenShort(p: Parser, s: string)
    ensures Taken(p, s) < |s| ==> Run(p, s).state != BODY
  {
  }

  lemma RunOver(p: Parser, s: string)
    requires p.state != BODY
    ensures Run(p, s) == p && Taken(p, s) == 0
  {
  }

  lemma ChunkedCall(p: Parser, sent: string, piece: string)
    requires p.bodySize < 0
    ensures Call(At(p, sent), piece) == At(p, sent + piece)
  {
    hide Run, Taken, Next, Processed;
    var q, n := Run(p, sent), Taken(p, sent);
    RunConcat(p, sent, piece);
    KeepsBodySize(p, sent);
    TakenShort(p, sent);
    NextIsRun(q, sent[n..] + piece);
    if n < |sent| {
      RunOver(q, sent[n..] + piece);
      RunOver(q, piece);
    } else {
      assert sent[n..] + piece == piece;
    }
    Onward(sent, piece, n, Taken(q, sent[n..] + piece));
  }

  lemma {:induction false} KeepsBodySize(p: Parser, s: string)
    ensures Run(p, s).bodySize == p.bodySize
    decreases |s|
  {
    hide Step;
    if s != "" && p.state == BODY {
      StepKeepsSize(p, s[0]);
      KeepsBodySize(Step(p, s[0]), s[1..]);
    }
  }

  lemma StepKeepsSize(p: Parser, c: char)
    ensures Step(p, c).bodySize == p.bodySize
  {
    TrailerFits(p);
    hide TakeTrailer, SizeOf;
  }

  // ---------- A body of announced length ----------

  /** The data of the "binary" callbacks, and all other callbacks. */
  function Delivered(events: seq<Event>): string {
    if events == [] then ""
    else Delivered(events[..|events| - 1]) + (match events[|events| - 1] case Binary(d) => d case _ => "")
  }

  function Notices(events: seq<Event>): seq<Event> {
    if events == [] then []
    else Notices(events[..|events| - 1]) + (if events[|events| - 1].Binary? then [] else [events[|events| - 1]])
  }

  /** A parser in the middle of a body of announced length whose callback keeps the body. */
  predicate Counting(p: Parser) {
    p.state == BODY && p.bodySize > 0 && p.keeps && |p.body| == p.chunk.size < p.bodySize < WORD
  }

  /** What a caller can see once `got` of the announced bytes came in. */
  predicate Holds(p: Parser, q: Parser, got: string) {
    && q.body == p.body + got
    && q.trailers == p.trailers && q.headers == p.headers
    && q.bodySize == p.bodySize && q.hid == p.hid && q.keeps
    && Delivered(q.events) == Delivered(p.events) + got
    && if |q.body| == p.bodySize then
         q.state == END && q.chunk == NoChunk
         && Notices(q.events) == Notices(p.events) + (if p.hid == NoRole then [] else [Entity(q.body)])
       else
         q.state == BODY && q.chunk.size == |q.body| && Notices(q.events) == Notices(p.events)
  }

  lemma DeliverLog(q: Parser, data: string)
    requires q.keeps
    ensures var d := Deliver(q, data);
            && d == q.(body := d.body, events := d.events) && d.body == q.body + data
            && Delivered(d.events) == Delivered(q.events) + data && Notices(d.events) == Notices(q.events)
  {
    LogOne(q.events, Binary(data));
    hide Delivered, Notices;
    assert Notices(q.events) + [] == Notices(q.events);
  }

  lemma FinishLog(q: Parser)
    ensures var d := Finish(q);
            && d == q.(state := END, chunk := NoChunk, events := d.events)
            && Delivered(d.events) == Delivered(q.events)
            && Notices(d.events) == Notices(q.events) + (if q.hid == NoRole then [] else [Entity(q.body)])
  {
    LogOne(q.events, Entity(q.body));
    hide Delivered, Notices;
    assert Delivered(q.events) + "" == Delivered(q.events);
  }

  /** The next bytes of an announced body: they are delivered and kept. */
  lemma Receive(p: Parser, q: Parser, got: string, more: string)
    requires Counting(p) && Holds(p, q, got) && q.state == BODY && |got| + |more| <= p.bodySize - |p.body|
    ensures var d := Deliver(q.(chunk := q.chunk.(size := q.chunk.size + |more|, data := more)), more);
            Holds(p, if d.bodySize == d.chunk.size then Finish(d) else d, got + more)
  {
    hide Deliver, Finish, Delivered, Notices;
    var r := q.(chunk := q.chunk.(size := q.chunk.size + |more|, data := more));
    DeliverLog(r, more);
    FinishLog(Deliver(r, more));
    Assoc(p.body, got, more);
    Assoc(Delivered(p.events), got, more);
  }

  lemma LogOne(events: seq<Event>, e: Event)
    ensures Delivered(events + [e]) == Delivered(events) + (match e case Binary(d) => d case _ => "")
    ensures Notices(events + [e]) == Notices(events) + (if e.Binary? then [] else [e])
  {
    assert (events + [e])[..|events|] == events;
  }

  lemma OneCall(p: Parser, q: Parser, got: string, buffer: string)
    requires Counting(p) && |got| <= p.bodySize - |p.body| && Holds(p, q, got)
    ensures var n, room := Processed(q, buffer), p.bodySize - |p.body| - |got|;
      n == (if |buffer| <= room then |buffer| else room)
      && Holds(p, Next(q, buffer), got + buffer[..n])
  {
    hide Delivered, Notices, Run, Taken;
    if q.state == BODY && buffer != "" {
      Receive(p, q, got, buffer[..PlainTaken(q, buffer)]);
    } else {
      assert got + buffer[..0] == got;
    }
  }

  /** The session has taken all that was sent, or all that was announced. */
  predicate Counted(p: Parser, s: Session, sent: string) {
    s.used == (if |sent| <= p.bodySize - |p.body| then |sent| else p.bodySize - |p.body|)
    && 0 <= s.used && Holds(p, s.p, sent[..s.used]) && s.carry == sent[s.used..]
  }

  /** A body of announced length is the same bytes, and ends at the same byte, for every cut. */
  lemma {:induction false} AnnouncedCuts(p: Parser, pieces: seq<string>)
    requires Counting(p)
    ensures Counted(p, Calls(Session(p, "", 0), pieces), Concat(pieces))
  {
    assert p.body + "" == p.body && Delivered(p.events) + "" == Delivered(p.events);
    AnnouncedCutsFrom(p, Session(p, "", 0), "", pieces);
    assert "" + Concat(pieces) == Concat(pieces);
  }

  lemma {:induction false} AnnouncedCutsFrom(p: Parser, s: Session, sent: string, pieces: seq<string>)
    requires Counting(p) && Counted(p, s, sent)
    ensures Counted(p, Calls(s, pieces), sent + Concat(pieces))
    decreases |pieces|
  {
    hide Counted;
    if pieces == [] {
      assert sent + Concat(pieces) == sent;
    } else {
      Assoc(sent, pieces[0], Concat(pieces[1..]));
      var next := Call(s, pieces[0]);
      assert Calls(s, pieces) == Calls(next, pieces[1..]);
      AnnouncedCall(p, s, sent, pieces[0]);
      AnnouncedCutsFrom(p, next, sent + pieces[0], pieces[1..]);
    }
  }

  lemma AnnouncedCall(p: Parser, s: Session, sent: string, piece: string)
    requires Counting(p) && Counted(p, s, sent)
    ensures Counted(p, Call(s, piece), sent + piece)
  {
    hide Holds, Counting, Next, Processed;
    var buffer := s.carry + piece;
    OneCall(p, s.p, sent[..s.used], buffer);
    var n := Processed(s.p, buffer);
    Onward(sent, piece, s.used, n);
    NextCount(|sent + piece|, p.bodySize - |p.body|, s.used, n);
  }

  /** What was taken and what is left, once `n` of the bytes not taken yet and the new ones are. */
  lemma Onward(sent: string, piece: string, i: nat, n: nat)
    requires i <= |sent| && n <= |sent[i..] + piece|
    ensures var buffer, all := sent[i..] + piece, sent + piece;
            sent[..i] + buffer[..n] == all[..i + n] && buffer[n..] == all[i + n..] && |buffer| == |all| - i
  {
    assert sent[i..] + piece == (sent + piece)[i..];
    Slice(sent + piece, i, n);
  }

  lemma NextCount(size: nat, room: int, used: nat, n: nat)
    requires used <= room && used <= size && n == if size - used <= room - used then size - used else room - used
    ensures used + n == if size <= room then size else room
  {
  }

  // ---------- A body nobody keeps ----------

  /** A parser in an announced body whose callback keeps nothing (an application took the chunks over). */
  predicate Unkept(p: Parser) {
    p.state == BODY && !p.keeps && p.body == "" && 0 < p.bodySize < WORD
  }

  /** The first `k` pieces together. */
  function Sum(pieces: seq<string>, k: nat): nat
    requires k <= |pieces|
  {
    |Concat(pieces[..k])|
  }

  lemma SumNext(pieces: seq<string>, k: nat)
    requires pieces != [] && k < |pieces|
    ensures Sum(pieces, k + 1) == |pieces[0]| + Sum(pieces[1..], k)
    ensures Sum(pieces, 0) == 0
  {
    assert pieces[..k + 1][1..] == pieces[1..][..k];
  }

  /** Some of the pieces, taken from the first on, have `n` bytes together. */
  ghost predicate Hits(pieces: seq<string>, n: int) {
    exists k :: 0 <= k <= |pieces| && Sum(pieces, k) == n
  }

  lemma HitsNext(pieces: seq<string>, n: int)
    requires pieces != []
    ensures Hits(pieces, n) <==> n == 0 || Hits(pieces[1..], n - |pieces[0]|)
  {
    hide Concat;
    SumNext(pieces, 0);
    if n != 0 && Hits(pieces, n) {
      var k :| 0 <= k <= |pieces| && Sum(pieces, k) == n;
      SumNext(pieces, k - 1);
      assert Sum(pieces[1..], k - 1) == n - |pieces[0]|;
    }
    if Hits(pieces[1..], n - |pieces[0]|) {
      var k :| 0 <= k <= |pieces[1..]| && Sum(pieces[1..], k) == n - |pieces[0]|;
      SumNext(pieces, k);
      assert Sum(pieces, k + 1) == n;
    }
  }

  lemma HitsNothing(n: int)
    ensures Hits([], n) <==> n == 0
    ensures n < 0 ==> forall pieces: seq<string> :: !Hits(pieces, n)
  {
    assert Sum([], 0) == 0;
  }

  /** Once the message has ended, calls do nothing. */
  lemma {:induction false} EndStays(s: Session, pieces: seq<string>)
    requires s.p.state == END
    ensures Calls(s, pieces).p == s.p && Calls(s, pieces).used == s.used
    decreases |pieces|
  {
    if pieces != [] {
      EndStays(Call(s, pieces[0]), pieces[1..]);
    }
  }

  /** Past the announced length no call ends the message. */
  lemma {:induction false} OvershotStays(s: Session, pieces: seq<string>)
    requires Unkept(s.p) && s.p.chunk.size > s.p.bodySize
    ensures Calls(s, pieces).p.state == BODY
    decreases |pieces|
  {
    if pieces != [] {
      OvershotStays(Call(s, pieces[0]), pieces[1..]);
    }
  }

  /** One call of an unkept parser that has no bytes left over from before. */
  lemma UnkeptCall(s: Session, piece: string)
    requires Unkept(s.p) && s.carry == "" && s.p.chunk.size < s.p.bodySize
    ensures var t, u := Call(s, piece), s.p.chunk.size + |piece|;
            && t.used == s.used + (if |piece| <= s.p.bodySize then |piece| else s.p.bodySize)
            && (t.p.state == END <==> u == s.p.bodySize || (s.p.chunk.size == 0 && u > s.p.bodySize))
            && (t.p.state != END ==> Unkept(t.p) && t.p.bodySize == s.p.bodySize)
            && (u < s.p.bodySize ==> t.carry == "" && t.p.chunk.size == u)
            && (u > s.p.bodySize && s.p.chunk.size > 0 ==> t.p.chunk.size > s.p.bodySize)
  {
    assert s.carry + piece == piece;
    if piece != "" {
      assert piece[..|piece|] == piece;
    }
  }

  /**
   * When the callback does not keep the body, each call counts from the start again: a body of which some bytes
   * came already ends, over every cut, exactly if some call's bytes stop at its very end.
   */
  lemma {:induction false} UnkeptCuts(s: Session, pieces: seq<string>)
    requires Unkept(s.p) && s.carry == "" && 0 < s.p.chunk.size < s.p.bodySize
    ensures var t := Calls(s, pieces);
            && (t.p.state == END <==> Hits(pieces, s.p.bodySize - s.p.chunk.size))
            && (t.p.state == END ==> t.used == s.used + (s.p.bodySize - s.p.chunk.size))
    decreases |pieces|
  {
    hide Call, Hits, Next, Processed;
    var n := s.p.bodySize - s.p.chunk.size;
    HitsNothing(n);
    if pieces != [] {
      var piece, t := pieces[0], Call(s, pieces[0]);
      UnkeptCall(s, piece);
      HitsNext(pieces, n);
      HitsNothing(n - |piece|);
      if |piece| < n {
        UnkeptCuts(t, pieces[1..]);
      } else if |piece| == n {
        EndStays(t, pieces[1..]);
        HitsAtOnce(pieces[1..]);
      } else {
        OvershotStays(t, pieces[1..]);
      }
    }
  }

  lemma HitsAtOnce(pieces: seq<string>)
    ensures Hits(pieces, 0)
  {
    assert Sum(pieces, 0) == 0;
  }

  /** The first piece that is not empty. */
  function FirstPiece(pieces: seq<string>): string {
    if pieces == [] then "" else if pieces[0] != "" then pieces[0] else FirstPiece(pieces[1..])
  }

  /** From the start of the body the first call cannot overshoot: a first piece with the whole body ends it too. */
  lemma {:induction false} UnkeptBody(s: Session, pieces: seq<string>)
    requires Unkept(s.p) && s.carry == "" && s.p.chunk.size == 0
    ensures var t := Calls(s, pieces);
            && (t.p.state == END <==> |FirstPiece(pieces)| >= s.p.bodySize || Hits(pieces, s.p.bodySize))
            && (t.p.state == END ==> t.used == s.used + s.p.bodySize)
    decreases |pieces|
  {
    hide Call, Hits, Next, Processed;
    var n := s.p.bodySize;
    HitsNothing(n);
    if pieces != [] {
      var piece, t := pieces[0], Call(s, pieces[0]);
      UnkeptCall(s, piece);
      HitsNext(pieces, n);
      if piece == "" {
        UnkeptBody(t, pieces[1..]);
      } else if |piece| < n {
        UnkeptCuts(t, pieces[1..]);
      } else {
        EndStays(t, pieces[1..]);
      }
    }
  }

  /** A Content-Length of zero on a closing connection: all that arrives is body, and no
      call ends it. */
  lemma UnlimitedBody(p: Parser, buffer: string)
    requires p.bodySize == 0 && p.state == BODY && p.keeps
    ensures Processed(p, buffer) == |buffer| && Next(p, buffer).state == BODY
    ensures Next(p, buffer).body == p.body + buffer
  {
  }
}
