/** The whole life of one HTTP/2 stream: buffers that may be thrown away, and a submission that may outlive them. */
module Http2Stream {
  import opened Numerals
  import opened Http2Data

  /**
   * What happened to a stream. `pieces` and `frames` were accepted and written since its buffer was last thrown away,
   * `before` and `gone` earlier; `lost` is what was thrown away. nghttp2 holds at most one submission, of the flag in
   * `pending`; it is `stale` when the records it was made for are gone. A submission served without any data resets
   * the stream.
   */
  datatype History = History(before: seq<Piece>, pieces: seq<Piece>, gone: seq<Frame>, frames: seq<Frame>,
                             rights: seq<bool>, lost: seq<byte>, pending: seq<Flag>, stale: bool, reset: bool)

  datatype Stream = Stream(payload: seq<byte>, records: seq<Record>, past: History)

  const NOTHING := History([], [], [], [], [], [], [], false, false)

  const FRESH := Stream([], [], NOTHING)

  function Accepted(s: Stream): seq<byte> {
    Bytes(s.past.before + s.past.pieces)
  }

  function Emitted(s: Stream): seq<byte> {
    Sent(s.past.gone + s.past.frames)
  }

  // ---------- Steps ----------

  /** Data is accepted; or the buffer is thrown away by a refused `sendData`, or with the whole session; the first
      record is submitted; nghttp2 asks for at most so many bytes. */
  datatype Step = Take(piece: Piece) | Refuse | Abandon | Submit | Ask(size: nat)

  function Dropped(s: Stream): Stream {
    var h := s.past;
    Stream([], [], h.(before := h.before + h.pieces, pieces := [], gone := h.gone + h.frames, frames := [], rights := [],
                      lost := h.lost + s.payload, stale := h.pending != []))
  }

  function Answered(s: Stream, size: nat): Stream
    requires s.past.pending != []
  {
    var h, answer := s.past, Served(s.payload, s.records, size);
    if answer.Failure? then
      s.(past := h.(pending := [], stale := false, reset := true))
    else
      Stream(s.payload[|answer.data|..], Rest(s.records, |answer.data|),
             h.(frames := h.frames + [Written(answer, h.pending[0])],
                rights := h.rights + [Agrees(h.pending[0], s.records[0], size)], pending := [], stale := false))
  }

  predicate Possible(s: Stream, step: Step) {
    match step
    case Take(p) => p.data != []
    case Submit => s.records != [] && s.past.pending == [] && !s.past.reset
    case Ask(_) => s.past.pending != []
    case _ => true
  }

  function Next(s: Stream, step: Step): Stream
    requires Possible(s, step)
  {
    var h := s.past;
    match step
    case Take(p) =>
      Stream(s.payload + p.data, s.records + [Record(|p.data|, p.flag)], h.(pieces := h.pieces + [p]))
    case Refuse => Dropped(s)
    case Abandon => var d := Dropped(s); d.(past := d.past.(pending := [], stale := false))
    case Submit => s.(past := h.(pending := [s.records[0].flag]))
    case Ask(size) => Answered(s, size)
  }

  predicate PossibleRun(s: Stream, run: seq<Step>)
    decreases |run|
  {
    run == [] || (Possible(s, run[0]) && PossibleRun(Next(s, run[0]), run[1..]))
  }

  function Run(s: Stream, run: seq<Step>): Stream
    requires PossibleRun(s, run)
    decreases |run|
  {
    if run == [] then s else Run(Next(s, run[0]), run[1..])
  }

  predicate Some(s: Stream, run: seq<Step>, bad: (Stream, Step) -> bool)
    requires PossibleRun(s, run)
    decreases |run|
  {
    run != [] && (bad(s, run[0]) || Some(Next(s, run[0]), run[1..], bad))
  }

  // ---------- What every step keeps ----------

  /** What was accepted before went out, but for what was lost. */
  predicate Balanced(before: seq<Piece>, gone: seq<Frame>, lost: seq<byte>) {
    && |Bytes(before)| == |Sent(gone)| + |lost|
    && (lost == [] ==> Sent(gone) == Bytes(before))
  }

  /** A submission that is not stale has the flag of the first record. */
  predicate Submitted(h: History, records: seq<Record>) {
    && |h.pending| <= 1 && (h.stale ==> h.pending != [])
    && (h.pending != [] && !h.stale ==> records != [] && records[0].flag == h.pending[0])
  }

  predicate Sound(s: Stream) {
    && Coherent(s.past.pieces, s.past.frames, s.past.rights, s.payload, s.records)
    && Balanced(s.past.before, s.past.gone, s.past.lost) && Submitted(s.past, s.records)
  }

  lemma FreshSound()
    ensures Sound(FRESH)
  {
  }

  lemma {:induction false} BytesConcat(a: seq<Piece>, b: seq<Piece>)
    ensures Bytes(a + b) == Bytes(a) + Bytes(b)
    decreases |a|
  {
    if a == [] {
      assert a + b == b;
    } else {
      assert (a + b)[1..] == a[1..] + b;
      BytesConcat(a[1..], b);
      Assoc(a[0].data, Bytes(a[1..]), Bytes(b));
    }
  }

  lemma {:induction false} SentConcat(a: seq<Frame>, b: seq<Frame>)
    ensures Sent(a + b) == Sent(a) + Sent(b)
    decreases |b|
  {
    if b == [] {
      assert a + b == a;
    } else {
      var init, last := b[..|b| - 1], b[|b| - 1];
      SentConcat(a, init);
      assert b == init + [last] && a + b == (a + init) + [last];
      SentOne(a + init, last);
      SentOne(init, last);
      Assoc(Sent(a), Sent(init), last.data);
    }
  }

  lemma NothingCoherent()
    ensures Coherent([], [], [], [], [])
  {
  }

  lemma BalancedMore(before: seq<Piece>, pieces: seq<Piece>, gone: seq<Frame>, frames: seq<Frame>, lost: seq<byte>, payload: seq<byte>)
    requires Balanced(before, gone, lost) && Sent(frames) + payload == Bytes(pieces)
    ensures Balanced(before + pieces, gone + frames, lost + payload)
  {
    BytesConcat(before, pieces);
    SentConcat(gone, frames);
    hide Bytes, Sent;
    assert |Sent(frames) + payload| == |Bytes(pieces)|;
    if lost + payload == [] {
      assert |lost + payload| == 0;
      assert Sent(frames) + [] == Sent(frames);
    }
  }

  lemma DroppedSound(s: Stream)
    requires Sound(s)
    ensures Sound(Dropped(s))
  {
    var h := s.past;
    BalancedMore(h.before, h.pieces, h.gone, h.frames, h.lost, s.payload);
    NothingCoherent();
    hide Coherent, Balanced;
  }

  /** A submission finds no data only when it is stale and nothing was accepted since. */
  lemma AskSound(s: Stream, size: nat)
    requires Sound(s) && s.past.pending != []
    ensures Sound(Answered(s, size))
    ensures Served(s.payload, s.records, size).Failure? <==> s.payload == []
    ensures s.payload == [] ==> s.past.stale
  {
    var h := s.past;
    Covered(h.pieces, h.frames, h.rights, s.payload, s.records);
    if s.records != [] {
      Hands(h.pieces, h.frames, h.rights, s.payload, s.records, h.pending[0], size);
    }
    hide Coherent, Balanced;
  }

  lemma SoundStep(s: Stream, step: Step)
    requires Sound(s) && Possible(s, step)
    ensures Sound(Next(s, step))
  {
    hide Coherent, Balanced;
    match step
    case Take(p) => Accepts(s.past.pieces, s.past.frames, s.past.rights, s.payload, s.records, p);
    case Refuse => DroppedSound(s);
    case Abandon => DroppedSound(s);
    case Submit =>
    case Ask(size) => AskSound(s, size);
  }

  // ---------- What is accepted goes out ----------

  /** All bytes accepted so far went out, were lost, or are buffered; in their order exactly if none was lost. */
  lemma Account(s: Stream)
    requires Sound(s)
    ensures |Accepted(s)| == |Emitted(s)| + |s.past.lost| + |s.payload|
    ensures Emitted(s) + s.payload == Accepted(s) <==> s.past.lost == []
  {
    var h := s.past;
    BytesConcat(h.before, h.pieces);
    SentConcat(h.gone, h.frames);
    hide Bytes, Sent, Left;
    Assoc(Sent(h.gone), Sent(h.frames), s.payload);
  }

  /** A refused `sendData`, or the end of the session, while bytes are buffered. */
  predicate Loses(s: Stream, step: Step) {
    (step == Refuse || step == Abandon) && s.payload != []
  }

  lemma LossStep(s: Stream, step: Step)
    requires Possible(s, step)
    ensures Next(s, step).past.lost == [] <==> s.past.lost == [] && !Loses(s, step)
  {
  }

  lemma {:induction false} LossRun(s: Stream, run: seq<Step>)
    requires Sound(s) && PossibleRun(s, run)
    ensures Sound(Run(s, run))
    ensures Run(s, run).past.lost == [] <==> s.past.lost == [] && !Some(s, run, Loses)
    decreases |run|
  {
    hide Next, Sound, Loses, Possible;
    if run != [] {
      SoundStep(s, run[0]);
      LossStep(s, run[0]);
      LossRun(Next(s, run[0]), run[1..]);
    }
  }

  /** Over every run of a stream, the bytes written and buffered are the accepted ones, in order, exactly if nothing
      was refused or abandoned while bytes were buffered. */
  lemma StreamConserved(run: seq<Step>)
    requires PossibleRun(FRESH, run)
    ensures var s := Run(FRESH, run);
            Emitted(s) + s.payload == Accepted(s) <==> !Some(FRESH, run, Loses)
  {
    hide Sound;
    FreshSound();
    LossRun(FRESH, run);
    Account(Run(FRESH, run));
  }

  // ---------- END_STREAM ----------

  /** The frame an answer makes ends the stream when it should not, or does not when it should. */
  predicate Misleads(s: Stream, step: Step) {
    step.Ask? && s.past.pending != [] && s.records != [] &&
    var answer := Served(s.payload, s.records, step.size);
    answer.Filled? &&
    Written(answer, s.past.pending[0]).endStream != (s.records[0].flag == END_STREAM && |answer.data| == s.records[0].size)
  }

  /** A stale submission is served from a record it does not agree with. */
  predicate Outlived(s: Stream, step: Step) {
    step.Ask? && s.past.stale && s.past.pending != [] && s.records != [] && !Agrees(s.past.pending[0], s.records[0], step.size)
  }

  lemma MisleadsStep(s: Stream, step: Step)
    requires Sound(s) && Possible(s, step)
    ensures Misleads(s, step) <==> Outlived(s, step)
  {
    if step.Ask? {
      Covered(s.past.pieces, s.past.frames, s.past.rights, s.payload, s.records);
      hide Coherent, Balanced;
    }
  }

  /** Over every run, END_STREAM goes out with the last byte of a record that carries it, and only then, exactly if no
      submission that outlived a drop is served from a record it does not agree with. */
  lemma {:induction false} EndStreamRuns(s: Stream, run: seq<Step>)
    requires Sound(s) && PossibleRun(s, run)
    ensures Some(s, run, Misleads) <==> Some(s, run, Outlived)
    decreases |run|
  {
    hide Next, Sound, Misleads, Outlived, Possible;
    if run != [] {
      SoundStep(s, run[0]);
      MisleadsStep(s, run[0]);
      EndStreamRuns(Next(s, run[0]), run[1..]);
    }
  }

  /** Without a refusal under way no submission is stale. */
  predicate Refuses(s: Stream, step: Step) {
    step == Refuse && s.past.pending != []
  }

  lemma {:induction false} NeverStale(s: Stream, run: seq<Step>)
    requires !s.past.stale && PossibleRun(s, run) && !Some(s, run, Refuses)
    ensures !Some(s, run, Outlived)
    decreases |run|
  {
    if run != [] {
      NeverStale(Next(s, run[0]), run[1..]);
    }
  }

  /** A stream accepts `data`, has it submitted, is dropped by an empty `sendData` and accepts more that ends it: the
      submission it still has serves that without the flag. */
  lemma EndStreamLost(x: byte)
    ensures var run := [Take(Piece([x], NONE)), Submit, Refuse, Take(Piece([x], END_STREAM)), Ask(1)];
            && PossibleRun(FRESH, run) && Run(FRESH, run).past.frames == [Frame([x], false)]
            && Run(FRESH, run).records == [] && Run(FRESH, run).past.lost == [x]
  {
    var s1 := Next(FRESH, Take(Piece([x], NONE)));
    var s2 := Next(s1, Submit);
    var s3 := Next(s2, Refuse);
    var s4 := Next(s3, Take(Piece([x], END_STREAM)));
    var s5 := Next(s4, Ask(1));
    assert s1.payload == [x] && s1.records == [Record(1, NONE)];
    assert s4.payload == [x] && s4.records == [Record(1, END_STREAM)];
    assert s4.payload[..1] == [x];
    assert s5.past.frames == [Frame([x], false)] && s5.records == [] && s5.past.lost == [x];
    RunLast(s5);
    RunOn(s4, [Ask(1)]);
    RunOn(s3, [Take(Piece([x], END_STREAM)), Ask(1)]);
    RunOn(s2, [Refuse, Take(Piece([x], END_STREAM)), Ask(1)]);
    RunOn(s1, [Submit, Refuse, Take(Piece([x], END_STREAM)), Ask(1)]);
    RunOn(FRESH, [Take(Piece([x], NONE)), Submit, Refuse, Take(Piece([x], END_STREAM)), Ask(1)]);
  }

  lemma RunLast(s: Stream)
    ensures PossibleRun(s, []) && Run(s, []) == s
  {
  }

  lemma RunOn(s: Stream, run: seq<Step>)
    requires run != [] && Possible(s, run[0]) && PossibleRun(Next(s, run[0]), run[1..])
    ensures PossibleRun(s, run) && Run(s, run) == Run(Next(s, run[0]), run[1..])
  {
  }
}
