/**
 The data path of HTTP/2: payload buffers, their records, and the data-source callback
 that nghttp2 drives with requests of any size.
 */
module Http2Data {
  import opened Numerals

  datatype Flag = NONE | PADDED | PRIORITY | END_STREAM | END_HEADERS

  /** A prepared record: how much of it is still to be sent, and its flag. */
  datatype Record = Record(size: nat, flag: Flag)

  /** The bytes of one accepted `sendData`. */
  datatype Piece = Piece(data: seq<byte>, flag: Flag)

  /** A DATA frame as nghttp2 writes it. */
  datatype Frame = Frame(data: seq<byte>, endStream: bool)

  /** What the callback answers: a temporary failure, or a number of bytes with the flags
      EOF and NO_END_STREAM. */
  datatype Answer = Failure | Filled(data: seq<byte>, eof: bool, noEndStream: bool)

  function Sizes(records: seq<Record>): nat {
    if records == [] then 0 else records[0].size + Sizes(records[1..])
  }

  function Bytes(pieces: seq<Piece>): seq<byte> {
    if pieces == [] then [] else pieces[0].data + Bytes(pieces[1..])
  }

  function Sent(frames: seq<Frame>): seq<byte> {
    if frames == [] then [] else Sent(frames[..|frames| - 1]) + frames[|frames| - 1].data
  }

  /** The records left of the accepted pieces once `n` bytes have gone out. */
  function Left(pieces: seq<Piece>, n: nat): seq<Record>
    decreases |pieces|
  {
    if pieces == [] then []
    else if n >= |pieces[0].data| then Left(pieces[1..], n - |pieces[0].data|)
    else [Record(|pieces[0].data| - n, pieces[0].flag)] + Left(pieces[1..], 0)
  }

  predicate Solid(pieces: seq<Piece>) {
    forall i :: 0 <= i < |pieces| ==> pieces[i].data != []
  }

  lemma {:induction false} LeftSizes(pieces: seq<Piece>, n: nat)
    requires n <= |Bytes(pieces)|
    ensures Sizes(Left(pieces, n)) == |Bytes(pieces)| - n
    ensures n < |Bytes(pieces)| ==> Left(pieces, n) != [] && Left(pieces, n)[0].size > 0
    ensures n == |Bytes(pieces)| ==> Sizes(Left(pieces, n)) == 0
    decreases |pieces|
  {
    if pieces != [] {
      if n >= |pieces[0].data| {
        LeftSizes(pieces[1..], n - |pieces[0].data|);
      } else {
        LeftSizes(pieces[1..], 0);
        var r := Left(pieces, n);
        assert r[1..] == Left(pieces[1..], 0);
      }
    }
  }

  /** With solid pieces there is a record exactly while there is something to send. */
  lemma {:induction false} LeftNone(pieces: seq<Piece>)
    requires Solid(pieces)
    ensures Left(pieces, |Bytes(pieces)|) == []
    decreases |pieces|
  {
    if pieces != [] {
      LeftNone(pieces[1..]);
    }
  }

  /** Sending `k` bytes of the first record. */
  lemma {:induction false} LeftTake(pieces: seq<Piece>, n: nat, k: nat)
    requires Solid(pieces) && n <= |Bytes(pieces)| && Left(pieces, n) != [] && k <= Left(pieces, n)[0].size
    ensures var r := Left(pieces, n);
      Left(pieces, n + k) == if k == r[0].size then r[1..] else [r[0].(size := r[0].size - k)] + r[1..]
    decreases |pieces|
  {
    if n >= |pieces[0].data| {
      LeftTake(pieces[1..], n - |pieces[0].data|, k);
    } else {
      var r := Left(pieces, n);
      assert r[1..] == Left(pieces[1..], 0);
    }
  }

  lemma {:induction false} BytesAppend(pieces: seq<Piece>, p: Piece)
    ensures Bytes(pieces + [p]) == Bytes(pieces) + p.data
    decreases |pieces|
  {
    if pieces == [] {
      assert ([p])[1..] == [];
    } else {
      assert (pieces + [p])[1..] == pieces[1..] + [p];
      BytesAppend(pieces[1..], p);
      Assoc(pieces[0].data, Bytes(pieces[1..]), p.data);
    }
  }

  lemma {:induction false} LeftAppend(pieces: seq<Piece>, n: nat, p: Piece)
    requires n <= |Bytes(pieces)| && p.data != []
    ensures Left(pieces + [p], n) == Left(pieces, n) + [Record(|p.data|, p.flag)]
    decreases |pieces|
  {
    if pieces == [] {
      assert Left(([p])[1..], 0) == [];
    } else {
      assert (pieces + [p])[0] == pieces[0] && (pieces + [p])[1..] == pieces[1..] + [p];
      if n >= |pieces[0].data| {
        LeftAppend(pieces[1..], n - |pieces[0].data|, p);
      } else {
        LeftAppend(pieces[1..], 0, p);
        Assoc([Record(|pieces[0].data| - n, pieces[0].flag)], Left(pieces[1..], 0), [Record(|p.data|, p.flag)]);
      }
    }
  }

  lemma SentOne(frames: seq<Frame>, f: Frame)
    ensures Sent(frames + [f]) == Sent(frames) + f.data
  {
    assert (frames + [f])[..|frames|] == frames;
  }

  // ---------- One stream ----------

  /** A frame holds the next bytes of the first record that is left. */
  predicate Carries(pieces: seq<Piece>, at: nat, f: Frame) {
    at <= |Bytes(pieces)| && Left(pieces, at) != [] && |f.data| <= Left(pieces, at)[0].size
  }

  /** It ends the stream exactly when it holds the last byte of a record with that flag. */
  predicate EndsRight(pieces: seq<Piece>, at: nat, f: Frame)
    requires Carries(pieces, at, f)
  {
    var r := Left(pieces, at)[0];
    f.endStream <==> r.flag == END_STREAM && |f.data| == r.size
  }

  /** All frames carry the accepted bytes; those marked in `rights` end the stream as they should. */
  predicate Carried(pieces: seq<Piece>, frames: seq<Frame>, rights: seq<bool>) {
    && |rights| == |frames|
    && forall i :: 0 <= i < |frames| ==>
      Carries(pieces, |Sent(frames[..i])|, frames[i]) && (EndsRight(pieces, |Sent(frames[..i])|, frames[i]) <==> rights[i])
  }

  /** A stream since its buffer was last thrown away: what was accepted went out or is buffered, in order, and the
      records are the rest of the accepted pieces. */
  predicate Coherent(pieces: seq<Piece>, frames: seq<Frame>, rights: seq<bool>, payload: seq<byte>, records: seq<Record>) {
    && Solid(pieces)
    && Sent(frames) + payload == Bytes(pieces)
    && records == Left(pieces, |Sent(frames)|)
    && Carried(pieces, frames, rights)
  }

  /** The frame nghttp2 makes of an answer to a submission with `flag`. */
  function Written(answer: Answer, flag: Flag): Frame {
    match answer
    case Filled(data, eof, no) => Frame(data, eof && !no && flag == END_STREAM)
    case Failure => Frame([], false)
  }

  /** The records after `n` bytes of the first one. */
  function Rest(records: seq<Record>, n: nat): seq<Record>
    requires records != []
  {
    if n >= records[0].size then records[1..] else [records[0].(size := records[0].size - n)] + records[1..]
  }

  function Served(payload: seq<byte>, records: seq<Record>, size: nat): (r: Answer)
    ensures r.Filled? ==> records != [] && |r.data| <= |payload|
  {
    if records == [] || payload == [] || |payload| < records[0].size then Failure
    else
      var n := if records[0].size > size then size else records[0].size;
      Filled(payload[..n], true, records[0].flag == END_STREAM && n < records[0].size)
  }

  /** A submission agrees with the record it is served from: both end the stream or neither does, or the record that
      does has bytes left. */
  predicate Agrees(flag: Flag, record: Record, size: nat) {
    (flag == END_STREAM <==> record.flag == END_STREAM) || (record.flag == END_STREAM && size < record.size)
  }

  lemma FramesAppend(pieces: seq<Piece>, frames: seq<Frame>, rights: seq<bool>, f: Frame, right: bool)
    requires Carried(pieces, frames, rights) && Carries(pieces, |Sent(frames)|, f)
    requires EndsRight(pieces, |Sent(frames)|, f) <==> right
    ensures Carried(pieces, frames + [f], rights + [right])
  {
    var all := frames + [f];
    hide Carries, EndsRight;
    forall i | 0 <= i < |all|
      ensures Carries(pieces, |Sent(all[..i])|, all[i])
      ensures EndsRight(pieces, |Sent(all[..i])|, all[i]) <==> (rights + [right])[i]
    {
      assert all[..i] == frames[..i];
      assert i == |frames| ==> frames[..i] == frames;
    }
  }

  /** More accepted data changes nothing for the frames there are. */
  lemma CarriesOn(pieces: seq<Piece>, at: nat, f: Frame, p: Piece)
    requires Carries(pieces, at, f) && p.data != []
    ensures Carries(pieces + [p], at, f) && (EndsRight(pieces + [p], at, f) <==> EndsRight(pieces, at, f))
  {
    BytesAppend(pieces, p);
    LeftAppend(pieces, at, p);
  }

  /** `sendData` accepts more: the new record goes behind the others. */
  lemma Accepts(pieces: seq<Piece>, frames: seq<Frame>, rights: seq<bool>, payload: seq<byte>, records: seq<Record>, p: Piece)
    requires Coherent(pieces, frames, rights, payload, records) && p.data != []
    ensures Coherent(pieces + [p], frames, rights, payload + p.data, records + [Record(|p.data|, p.flag)])
  {
    hide Left, Bytes, Sent, Carries, EndsRight;
    BytesAppend(pieces, p);
    LeftAppend(pieces, |Sent(frames)|, p);
    Assoc(Sent(frames), payload, p.data);
    forall i | 0 <= i < |frames|
      ensures Carries(pieces + [p], |Sent(frames[..i])|, frames[i])
      ensures EndsRight(pieces + [p], |Sent(frames[..i])|, frames[i]) <==> rights[i]
    {
      CarriesOn(pieces, |Sent(frames[..i])|, frames[i], p);
    }
  }

  /** The callback hands out the first bytes of the first record, under the flag of whatever submission asks; the frame
      ends the stream as it should exactly when that submission agrees with the record. */
  lemma Hands(pieces: seq<Piece>, frames: seq<Frame>, rights: seq<bool>, payload: seq<byte>, records: seq<Record>, flag: Flag, size: nat)
    requires Coherent(pieces, frames, rights, payload, records) && records != []
    ensures payload != [] && |payload| >= records[0].size
    ensures var answer := Served(payload, records, size);
            && answer.Filled? && |answer.data| <= |payload|
            && Coherent(pieces, frames + [Written(answer, flag)], rights + [Agrees(flag, records[0], size)],
                        payload[|answer.data|..], Rest(records, |answer.data|))
  {
    hide Left, Bytes, Sent, Carried;
    Covered(pieces, frames, rights, payload, records);
    var n := if records[0].size > size then size else records[0].size;
    var f := Written(Served(payload, records, size), flag);
    SentOne(frames, f);
    LeftTake(pieces, |Sent(frames)|, n);
    FramesAppend(pieces, frames, rights, f, Agrees(flag, records[0], size));
    assert Sent(frames) + payload[..n] + payload[n..] == Sent(frames) + payload;
  }

  lemma Covered(pieces: seq<Piece>, frames: seq<Frame>, rights: seq<bool>, payload: seq<byte>, records: seq<Record>)
    requires Coherent(pieces, frames, rights, payload, records)
    ensures Sizes(records) == |payload|
    ensures records == [] <==> payload == []
    ensures records != [] ==> records[0].size <= |payload|
  {
    hide Carried;
    LeftSizes(pieces, |Sent(frames)|);
    if payload == [] {
      assert Sent(frames) == Bytes(pieces);
      LeftNone(pieces);
    }
  }
}
