/** The HTTP/2 object: its per-stream buffers. */
module Http2Object {
  import opened Numerals
  import opened Http2Data
  import opened Http2Stream

  function At<T>(m: map<int, seq<T>>, sid: int): seq<T> {
    if sid in m then m[sid] else []
  }

  function Past(m: map<int, History>, sid: int): History {
    if sid in m then m[sid] else NOTHING
  }

  class Streams {
    var session: bool
    var payloads: map<int, seq<byte>>
    var records: map<int, seq<Record>>
    /** What happened to each stream, with what nghttp2 holds of it; nothing is ever forgotten. */
    var history: map<int, History>

    ghost function Of(sid: int): Stream
      reads this
    {
      Stream(At(payloads, sid), At(records, sid), Past(history, sid))
    }

    ghost predicate Holds(sid: int)
      reads this
    {
      Sound(Of(sid))
    }

    ghost predicate Valid()
      reads this
    {
      forall sid :: Holds(sid)
    }

    /** Only `sid` changed, so only `sid` needs a look. */
    twostate lemma OthersHold(sid: int)
      requires Holds(sid) && forall other :: other != sid ==> old(Holds(other))
      requires history - {sid} == old(history) - {sid}
      requires payloads - {sid} == old(payloads) - {sid} && records - {sid} == old(records) - {sid}
      ensures Valid()
      ensures forall other :: other != sid ==> Of(other) == old(Of(other))
    {
      hide Sound;
      forall other
        ensures Holds(other) && (other != sid ==> Of(other) == old(Of(other)))
      {
        if other != sid {
          assert old(Holds(other));
          assert other in payloads <==> other in payloads - {sid};
          assert other in old(payloads) <==> other in old(payloads) - {sid};
          assert other in records <==> other in records - {sid};
          assert other in old(records) <==> other in old(records) - {sid};
          assert other in history <==> other in history - {sid};
          assert other in old(history) <==> other in old(history) - {sid};
        }
      }
    }

    constructor ()
      ensures Valid() && session && forall sid :: Of(sid) == FRESH
    {
      session := true;
      payloads, records, history := map[], map[], map[];
      new;
      FreshSound();
      hide Sound;
    }

    /** Everything a stream still had is gone. */
    method Drop(sid: int)
      modifies `payloads, `records
      ensures payloads == old(payloads) - {sid} && records == old(records) - {sid}
    {
      payloads, records := payloads - {sid}, records - {sid};
    }

    /** Appends to the stream's buffer and queues the record. */
    method Push(sid: int, data: seq<byte>, flag: Flag)
      modifies `payloads, `records
      ensures payloads == old(payloads)[sid := old(At(payloads, sid)) + data]
      ensures records == old(records)[sid := old(At(records, sid)) + [Record(|data|, flag)]]
    {
      payloads := payloads[sid := At(payloads, sid) + data];
      records := records[sid := At(records, sid) + [Record(|data|, flag)]];
    }

    /** `sendData` up to its submissions.  `alive` says whether nghttp2 still wants to read
        or write.  An empty buffer, a missing session or a finished one drops the stream. */
    method SendData(sid: int, data: seq<byte>, flag: Flag, alive: bool) returns (ok: bool)
      requires Valid()
      modifies this
      ensures Valid() && session == old(session)
      ensures ok <==> data != [] && session && alive
      ensures Of(sid) == Next(old(Of(sid)), if ok then Take(Piece(data, flag)) else Refuse)
      ensures forall other :: other != sid ==> Of(other) == old(Of(other))
    {
      assert Holds(sid);
      ghost var step := if data != [] && session && alive then Take(Piece(data, flag)) else Refuse;
      ghost var after := Next(Of(sid), step);
      SoundStep(Of(sid), step);
      hide Sound;
      Forgets(payloads, sid, At(payloads, sid) + data);
      Forgets(records, sid, At(records, sid) + [Record(|data|, flag)]);
      Forgets(history, sid, after.past);
      var payload, queued := At(payloads, sid), At(records, sid);
      ok := false;
      if data != [] && session {
        Push(sid, data, flag);
        ok := alive;
      }
      if !ok {
        Drop(sid);
      }
      history := history[sid := Next(Stream(payload, queued, Past(history, sid)), if ok then Take(Piece(data, flag)) else Refuse).past];
      assert Of(sid) == after;
      OthersHold(sid);
    }

    /** One turn of the submission loop: the first record goes to nghttp2 when the peer's
        window has room for all of it.  nghttp2 refuses a second submission, and any for a stream it has reset. */
    method Submit(sid: int, available: nat) returns (submitted: bool)
      requires Valid()
      modifies `history
      ensures Valid()
      ensures submitted <==> old(Possible(Of(sid), Step.Submit)) && available >= At(records, sid)[0].size
      ensures Of(sid) == if submitted then Next(old(Of(sid)), Step.Submit) else old(Of(sid))
      ensures forall other :: other != sid ==> Of(other) == old(Of(other))
    {
      submitted := Possible(Stream(At(payloads, sid), At(records, sid), Past(history, sid)), Step.Submit)
                   && available >= At(records, sid)[0].size;
      if submitted {
        assert Holds(sid);
        SoundStep(Of(sid), Step.Submit);
        hide Sound;
        ghost var after := Next(Of(sid), Step.Submit);
        var past := Past(history, sid).(pending := [records[sid][0].flag]);
        Forgets(history, sid, past);
        history := history[sid := past];
        assert Of(sid) == after;
        OthersHold(sid);
      }
    }

    /** The data-source callback: fills at most `size` bytes from the first record. */
    method Fill(sid: int, size: nat) returns (answer: Answer)
      modifies `payloads, `records
      ensures answer == Served(old(At(payloads, sid)), old(At(records, sid)), size)
      ensures answer.Filled? ==>
        payloads == old(payloads)[sid := old(At(payloads, sid))[|answer.data|..]] &&
        records == old(records)[sid := Rest(old(At(records, sid)), |answer.data|)]
      ensures answer.Failure? && old(At(records, sid)) != [] ==> payloads == old(payloads) - {sid} && records == old(records) - {sid}
      ensures answer.Failure? && old(At(records, sid)) == [] ==> payloads == old(payloads) && records == old(records)
    {
      if sid in records && records[sid] != [] {
        var front := records[sid][0];
        if sid in payloads && payloads[sid] != [] && |payloads[sid]| >= front.size {
          var n := if front.size > size then size else front.size;
          var data, no := payloads[sid][..n], false;
          payloads := payloads[sid := payloads[sid][n..]];
          front := front.(size := front.size - n);
          if front.size == 0 {
            records := records[sid := records[sid][1..]];
          } else {
            records := records[sid := [front] + records[sid][1..]];
            if front.flag == END_STREAM {
              no := true;
            }
          }
          return Filled(data, true, no);
        } else {
          records, payloads := records - {sid}, payloads - {sid};
        }
      }
      return Failure;
    }

    /** nghttp2 serves the submission it holds.  It finds data unless that submission outlived its records; then the
        stream is reset. */
    method Read(sid: int, size: nat) returns (answer: Answer)
      requires Valid() && Past(history, sid).pending != []
      modifies this
      ensures Valid() && session == old(session)
      ensures answer == Served(old(At(payloads, sid)), old(At(records, sid)), size)
      ensures answer.Failure? <==> old(At(payloads, sid)) == []
      ensures answer.Failure? ==> old(Past(history, sid)).stale
      ensures Of(sid) == Next(old(Of(sid)), Ask(size))
      ensures forall other :: other != sid ==> Of(other) == old(Of(other))
    {
      assert Holds(sid);
      ghost var after := Next(Of(sid), Ask(size));
      AskSound(Of(sid), size);
      NoRecords(Of(sid));
      hide Sound, Served, Rest, Written, Agrees;
      var past, record := Past(history, sid), At(records, sid);
      answer := Fill(sid, size);
      if answer.Filled? {
        Forgets(old(payloads), sid, old(At(payloads, sid))[|answer.data|..]);
        Forgets(old(records), sid, Rest(old(At(records, sid)), |answer.data|));
        past := past.(frames := past.frames + [Written(answer, past.pending[0])],
                      rights := past.rights + [Agrees(past.pending[0], record[0], size)], pending := [], stale := false);
      } else {
        past := past.(pending := [], stale := false, reset := true);
      }
      Forgets(history, sid, past);
      history := history[sid := past];
      assert Of(sid) == after;
      OthersHold(sid);
    }

    /** `free`: the session and everything buffered is gone, for every stream. */
    method Free()
      requires Valid()
      modifies this
      ensures Valid() && !session && payloads == map[] && records == map[]
      ensures forall sid :: Of(sid) == if sid in old(history) then Next(old(Of(sid)), Abandon) else FRESH
    {
      hide Sound, Next, Ended;
      forall sid
        ensures Sound(Stream([], [], Past(Ended(payloads, records, history), sid)))
        ensures Stream([], [], Past(Ended(payloads, records, history), sid)) == if sid in history then Next(Of(sid), Abandon) else FRESH
      {
        assert Holds(sid);
        EndedMeans(payloads, records, history, sid);
      }
      session := false;
      history := Ended(payloads, records, history);
      payloads, records := map[], map[];
    }
  }

  /** The history of every stream once the session is gone. */
  function Ended(payloads: map<int, seq<byte>>, records: map<int, seq<Record>>, history: map<int, History>): map<int, History> {
    map sid | sid in history :: Next(Stream(At(payloads, sid), At(records, sid), history[sid]), Abandon).past
  }

  lemma EndedMeans(payloads: map<int, seq<byte>>, records: map<int, seq<Record>>, history: map<int, History>, sid: int)
    requires Sound(Stream(At(payloads, sid), At(records, sid), Past(history, sid)))
    ensures var s := Stream([], [], Past(Ended(payloads, records, history), sid));
            Sound(s) && s == if sid in history then Next(Stream(At(payloads, sid), At(records, sid), Past(history, sid)), Abandon) else FRESH
  {
    var s := Stream(At(payloads, sid), At(records, sid), Past(history, sid));
    SoundStep(s, Abandon);
    FreshSound();
    hide Sound, At;
  }

  lemma Forgets<T>(m: map<int, T>, sid: int, x: T)
    ensures m[sid := x] - {sid} == m - {sid}
    ensures m - {sid} - {sid} == m - {sid}
  {
  }

  lemma NoRecords(s: Stream)
    requires Sound(s)
    ensures s.payload == [] <==> s.records == []
  {
    Covered(s.past.pieces, s.past.frames, s.past.rights, s.payload, s.records);
  }

  /** In every reachable state and for every stream: all accepted bytes went out, were thrown away or are buffered,
      and in their order if none was thrown away; what was accepted since the last drop went out or is buffered in
      order; and each frame since then ends the stream as its record asks exactly if its submission agreed with it. */
  lemma StreamHistory(h: Streams, sid: int, i: nat)
    requires h.Valid()
    ensures var s := h.Of(sid);
            && |Accepted(s)| == |Emitted(s)| + |s.past.lost| + |s.payload|
            && (Emitted(s) + s.payload == Accepted(s) <==> s.past.lost == [])
            && Sent(s.past.frames) + s.payload == Bytes(s.past.pieces)
            && Sizes(s.records) == |s.payload|
            && (i < |s.past.frames| ==>
                var at := |Sent(s.past.frames[..i])|;
                Carries(s.past.pieces, at, s.past.frames[i]) && i < |s.past.rights| &&
                (EndsRight(s.past.pieces, at, s.past.frames[i]) <==> s.past.rights[i]))
  {
    var s := h.Of(sid);
    assert h.Holds(sid);
    Account(s);
    Covered(s.past.pieces, s.past.frames, s.past.rights, s.payload, s.records);
  }
}
