/** The encoder and decoder objects of the cluster message protocol. */
module Cmp {
  import opened Numerals
  import opened CmpWire

  /** The slice the encoder's copy loop moves next, as an unsigned subtraction. */
  function SliceLength(chunkSize: nat, left: nat): int {
    if HEADER_SIZE + left > chunkSize then (chunkSize - HEADER_SIZE) % WORD else left
  }

  /** The setter accepts every positive size, but only a size above the header's lets the
      loop advance within the payload; at the header's size it never advances. */
  lemma CopyLoopProgress(chunkSize: nat, left: nat)
    requires 0 < left && HEADER_SIZE + left < WORD && 0 < chunkSize < WORD
    ensures 0 < SliceLength(chunkSize, left) <= left <==> chunkSize > HEADER_SIZE
    ensures chunkSize == HEADER_SIZE ==> SliceLength(chunkSize, left) == 0
  {
  }

  class Encoder {
    const pid: nat
    const hash: Hash
    var chunkSize: nat
    var cipher: nat
    var packing: byte
    var header: Header
    var buffer: seq<byte>
    /** A push that does not come back from its copy loop. */
    var stalled: bool
    /** All accepted pushes, and the bytes drained so far. */
    ghost var sent: seq<Sent>
    ghost var drained: seq<byte>

    ghost predicate Valid()
      reads this
    {
      && 0 < chunkSize < WORD && pid < 0x1_0000_0000 && cipher < 0x1_0000
      && header.pid == pid && header.sign == SIGN
      && (!stalled ==> drained + buffer == Wire(hash, sent))
      && AllSendable(hash, sent)
    }

    constructor (pid: nat, hash: Hash)
      requires pid < 0x1_0000_0000
      ensures Valid() && buffer == [] && sent == [] && drained == [] && !stalled
      ensures this.pid == pid && this.hash == hash && chunkSize == CHUNK_SIZE && cipher == 0 && packing == 0
    {
      this.pid, this.hash := pid, hash;
      chunkSize, cipher, packing := CHUNK_SIZE, 0, 0;
      header := NoHeader.(pid := pid);
      buffer, sent, drained, stalled := [], [], [], false;
    }

    method SetChunkSize(size: nat)
      requires Valid() && size < WORD
      modifies `chunkSize
      ensures Valid() && chunkSize == if size > 0 then size else CHUNK_SIZE
    {
      chunkSize := if size > 0 then size else CHUNK_SIZE;
    }

    /** Appends the header and the payload; the payload goes in slices that fit a chunk.  A chunk with no room
        behind the header stalls the loop: its next slice is empty or beyond the payload. */
    method Work(payload: seq<byte>)
      requires payload != [] && HEADER_SIZE + |payload| < WORD && 0 < chunkSize < WORD
      modifies `header, `buffer, `stalled
      ensures header == old(header).(size := |payload|)
      ensures stalled == (old(stalled) || chunkSize <= HEADER_SIZE)
      ensures buffer == old(buffer) + (HeaderBytes(header) + (if chunkSize <= HEADER_SIZE then [] else payload))
    {
      var size := |payload|;
      header := header.(size := size);
      ghost var start := buffer + HeaderBytes(header);
      buffer := buffer + HeaderBytes(header);
      if HEADER_SIZE + size > chunkSize {
        var offset := 0;
        while size - offset > 0
          invariant 0 <= offset <= size && header == old(header).(size := size) && stalled == old(stalled)
          invariant buffer == start + payload[..offset]
          invariant offset > 0 ==> chunkSize > HEADER_SIZE
        {
          CopyLoopProgress(chunkSize, size - offset);
          var length := SliceLength(chunkSize, size - offset);
          if !(0 < length <= size - offset) {
            stalled := true;
            assert HeaderBytes(header) + [] == HeaderBytes(header);
            return;
          }
          assert payload[..offset] + payload[offset..offset + length] == payload[..offset + length];
          Assoc(start, payload[..offset], payload[offset..offset + length]);
          buffer := buffer + payload[offset..offset + length];
          offset := offset + length;
        }
        assert payload[..offset] == payload;
      } else {
        buffer := buffer + payload;
      }
      Assoc(old(buffer), HeaderBytes(header), payload);
    }

    /** The result depends on the chunk size only in that one not above the header's stalls. */
    method Push(mid: byte, payload: seq<byte>)
      requires Valid() && !stalled
      requires HEADER_SIZE + |Pack(hash, payload, cipher, packing).payload| < WORD
      requires Inverts(hash)
      modifies `header, `buffer, `sent, `stalled
      ensures Valid() && (stalled <==> payload != [] && chunkSize <= HEADER_SIZE)
      ensures !stalled ==> sent == old(sent) + (if payload == [] then [] else [Sent(pid, mid, payload, cipher, packing)])
      ensures !stalled && payload != [] ==> buffer == old(buffer) + Record(hash, Sent(pid, mid, payload, cipher, packing))
    {
      if payload != [] {
        hide Wire, HeaderBytes, Unpack, Pack, Sendable, SentHeader, Record, Inverts, AllSendable;
        ghost var s := Sent(pid, mid, payload, cipher, packing);
        PackedRecord(hash, s, header);
        var p := Pack(hash, payload, cipher, packing);
        header := header.(mid := mid, cipher := p.cipher, packing := p.packing);
        Work(p.payload);
        if !stalled {
          OneMore(hash, sent, s, drained, old(buffer));
          sent := sent + [s];
        }
      }
    }

    /** Removes bytes the caller has written to its peer. */
    method Erase(size: nat)
      requires Valid() && size <= |buffer|
      modifies `buffer, `drained
      ensures Valid()
      ensures buffer == old(buffer)[size..] && drained == old(drained) + old(buffer)[..size]
    {
      drained := drained + buffer[..size];
      buffer := buffer[size..];
    }

    method Clear()
      modifies `buffer, `sent, `drained
      requires Valid()
      ensures Valid() && buffer == [] && sent == []
    {
      buffer := [];
      sent, drained := [], [];
    }
  }

  class Decoder {
    const hash: Hash
    var pid: nat
    var queue: seq<seq<byte>>
    var header: Header
    var buffer: seq<byte>
    /** Set when a header cannot be survived. */
    var fate: Fate
    /** All bytes received, and the messages taken from the queue. */
    ghost var received: seq<byte>
    ghost var popped: seq<Message>

    ghost predicate Valid()
      reads this
    {
      var r := Read(hash, NoHeader, received);
      && fate == r.fate
      && (forall i :: 0 <= i < |queue| ==> queue[i] != [])
      && (fate == Going ==> header.size < WORD && buffer == r.rest && Now() == r.header && popped + Queued(queue) == r.out)
    }

    /** The header in force; a header of size 0 is none. */
    ghost function Now(): Header
      reads this
    {
      if header.size > 0 then header else NoHeader
    }

    constructor (hash: Hash)
      ensures Valid() && received == [] && popped == [] && queue == [] && this.hash == hash
    {
      this.hash := hash;
      pid, queue, header, buffer, fate := 0, [], NoHeader, [], Going;
      received, popped := [], [];
    }

    predicate Sound()
      reads this
    {
      header.size < WORD && forall i :: 0 <= i < |queue| ==> queue[i] != []
    }

    /** Uses one header, one payload, or both; answers how many bytes that took. */
    method Process(data: seq<byte>) returns (result: nat, ghost out: seq<Message>)
      requires fate == Going && Sound() && data != []
      modifies `pid, `header, `queue, `fate
      ensures result <= |data| && Sound()
      ensures fate != Going ==> Read(hash, old(Now()), data).fate == fate
      ensures fate == Going ==>
        Queued(queue) == old(Queued(queue)) + out &&
        Read(hash, old(Now()), data) == Prefixed(out, Read(hash, Now(), data[result..])) &&
        (result == 0 || |data| - result < HEADER_SIZE ==>
          Read(hash, Now(), data[result..]) == Reading(Now(), data[result..], [], Going))
    {
      hide Read, ParseHeader;
      result, out := 0, [];
      if header.size == 0 {
        if |data| >= HEADER_SIZE {
          ReadHeader(hash, data);
          header := ParseHeader(data[..HEADER_SIZE]);
          if header.sign != SIGN {
            fate := Blocked;
            return;
          }
          pid := header.pid;
          result := HEADER_SIZE;
        }
      }
      if header.size > 0 {
        SumWraps(header, result);
        if |data| >= (result + header.size) % WORD {
          if result + header.size >= WORD {
            fate := Overrun;
            return;
          }
          assert data[0..] == data;
          result, out := Take(data, result);
          Waits(hash, NoHeader, data[result..]);
          return;
        }
      }
      Waits(hash, Now(), data[result..]);
      assert data[0..] == data;
    }

    /** Queues the payload of the header in force. */
    method Take(data: seq<byte>, from: nat) returns (end: nat, ghost out: seq<Message>)
      requires Sound() && header.size > 0 && from + header.size <= |data|
      modifies `header, `queue
      ensures Sound() && header == NoHeader && from < end <= |data|
      ensures Queued(queue) == old(Queued(queue)) + out
      ensures Read(hash, old(Now()), data[from..]) == Prefixed(out, Read(hash, NoHeader, data[end..]))
    {
      end := from + header.size;
      Slice(data, from, header.size);
      out := Delivered(hash, header, data[from..end]);
      var x := Unpack(hash, Packed(data[from..end], header.cipher, header.packing));
      if x.Some? {
        QueuedOne(queue, [header.mid] + x.value);
        queue := queue + [[header.mid] + x.value];
      }
      header := NoHeader;
    }

    /** Uses all it can of the data; answers how many bytes that took. */
    method Prepare(data: seq<byte>) returns (result: nat)
      requires fate == Going && Sound() && data != []
      modifies `pid, `header, `queue, `fate
      ensures result <= |data| && Sound()
      ensures fate == Read(hash, old(Now()), data).fate
      ensures fate == Going ==>
        var r := Read(hash, old(Now()), data);
        r.header == Now() && r.rest == data[result..] && Queued(queue) == old(Queued(queue)) + r.out
    {
      hide Read, Queued;
      ghost var was, all := Now(), Queued(queue);
      ghost var out: seq<Message> := [];
      var bytes := 0;
      result := 0;
      var more := true;
      assert data[0..] == data;
      while more
        invariant result <= |data| && Sound()
        invariant more ==> fate == Going && result < |data|
        invariant fate != Going ==> Read(hash, was, data).fate == fate
        invariant fate == Going ==> Queued(queue) == all + out && Read(hash, was, data) == Prefixed(out, Read(hash, Now(), data[result..]))
        invariant !more && fate == Going ==> Read(hash, Now(), data[result..]) == Reading(Now(), data[result..], [], Going)
        decreases more, |data| - result
      {
        ghost var o;
        ghost var from := result;
        bytes, o := Process(data[result..]);
        if fate != Going {
          return;
        }
        Slice(data, from, bytes);
        result := result + bytes;
        assert data[from..][bytes..] == data[result..];
        Assoc(all, out, o);
        Assoc(out, o, Read(hash, Now(), data[result..]).out);
        out := out + o;
        more := bytes > 0 && |data| > result && |data| - result >= HEADER_SIZE;
      }
    }

    /** Adds received bytes: those not used yet come first. */
    method Push(data: seq<byte>)
      requires Valid() && fate == Going
      modifies this
      ensures Valid() && received == old(received) + data && popped == old(popped)
    {
      if data != [] {
        ReadSplit(hash, NoHeader, received, data);
        ghost var r := Read(hash, NoHeader, received);
        Assoc(popped, Queued(queue), Read(hash, Now(), buffer + data).out);
        if buffer != [] {
          buffer := buffer + data;
          var result := Prepare(buffer);
          if fate == Going && result > 0 {
            buffer := buffer[result..];
          }
        } else {
          assert buffer + data == data;
          var result := Prepare(data);
          if fate == Going && |data| - result > 0 {
            buffer := buffer + data[result..];
          }
        }
        received := received + data;
      } else {
        assert received + data == received;
      }
    }

    /** The first message: its number and its data. */
    method Get() returns (mid: byte, payload: seq<byte>)
      requires Valid()
      ensures queue != [] ==> Queued(queue)[0] == Message(mid, payload)
      ensures queue == [] ==> mid == 0 && payload == []
    {
      mid, payload := 0, [];
      if queue != [] {
        mid, payload := queue[0][0], queue[0][1..];
      }
    }

    method Pop()
      requires Valid()
      modifies `queue, `popped
      ensures Valid() && received == old(received)
      ensures popped + Queued(queue) == old(popped + Queued(queue))
      ensures old(queue) != [] ==> queue == old(queue)[1..] && popped == old(popped) + [old(Queued(queue))[0]]
    {
      if queue != [] {
        ghost var first := Queued(queue)[0];
        assert Queued(queue) == [first] + Queued(queue[1..]);
        queue := queue[1..];
        popped := popped + [first];
      }
    }
  }

  /** Without enough bytes nothing is read. */
  lemma Waits(h: Hash, header: Header, bytes: seq<byte>)
    ensures header.size > 0 && |bytes| < header.size ==> Read(h, header, bytes) == Reading(header, bytes, [], Going)
    ensures header == NoHeader && |bytes| < HEADER_SIZE ==> Read(h, header, bytes) == Reading(header, bytes, [], Going)
  {
  }

  lemma ReadHeader(h: Hash, data: seq<byte>)
    requires |data| >= HEADER_SIZE
    ensures var next := ParseHeader(data[..HEADER_SIZE]);
            && next.size < WORD
            && (FateOf(next) != Going ==> Read(h, NoHeader, data).fate == FateOf(next))
            && (FateOf(next) == Going ==>
                Read(h, NoHeader, data) == Read(h, if next.size > 0 then next else NoHeader, data[HEADER_SIZE..]))
  {
    SizeFits(data[..HEADER_SIZE]);
  }

  /** The record is the header in use, filled in for the payload, and the packed payload. */
  lemma PackedRecord(h: Hash, s: Sent, header: Header)
    requires Inverts(h) && s.payload != [] && s.pid < 0x1_0000_0000 && s.cipher < 0x1_0000
    requires HEADER_SIZE + |Pack(h, s.payload, s.cipher, s.packing).payload| < WORD
    requires header.pid == s.pid && header.sign == SIGN
    ensures Sendable(h, s)
    ensures var p := Pack(h, s.payload, s.cipher, s.packing);
            && p.payload != []
            && Record(h, s) == HeaderBytes(header.(mid := s.mid, cipher := p.cipher, packing := p.packing, size := |p.payload|)) + p.payload
  {
    UnpackPack(h, s.payload, s.cipher, s.packing);
  }

  lemma OneMore(h: Hash, sent: seq<Sent>, s: Sent, drained: seq<byte>, buffer: seq<byte>)
    requires AllSendable(h, sent) && Sendable(h, s) && drained + buffer == Wire(h, sent)
    ensures AllSendable(h, sent + [s])
    ensures drained + (buffer + Record(h, s)) == Wire(h, sent + [s])
  {
    hide Sendable, Record;
    WireOne(h, sent, s);
    Assoc(drained, buffer, Record(h, s));
  }

  /** Whatever was pushed, drained and received so far: the decoder never blocks, and the
      messages it has handed out are the first ones pushed, in order and unaltered, all of
      them once every byte has arrived. */
  lemma EndToEnd(e: Encoder, d: Decoder)
    requires e.Valid() && !e.stalled && d.Valid() && e.hash == d.hash && Inverts(e.hash)
    requires d.received <= e.drained
    ensures d.fate == Going && d.popped + Queued(d.queue) <= Messages(e.sent)
    ensures d.received == e.drained && e.buffer == [] ==> d.popped + Queued(d.queue) == Messages(e.sent)
  {
    assert d.received <= e.drained + e.buffer;
    Delivery(e.hash, e.sent, d.received);
    assert e.buffer == [] ==> e.drained + e.buffer == e.drained;
  }

  function Prefixed(out: seq<Message>, r: Reading): Reading {
    r.(out := out + r.out)
  }

  lemma WireOne(h: Hash, sent: seq<Sent>, s: Sent)
    ensures Wire(h, sent + [s]) == Wire(h, sent) + Record(h, s)
  {
    assert (sent + [s])[..|sent|] == sent;
  }

  /** The messages behind the queue's records: a message number and its data. */
  ghost function Queued(queue: seq<seq<byte>>): seq<Message>
    requires forall i :: 0 <= i < |queue| ==> queue[i] != []
  {
    seq(|queue|, i requires 0 <= i < |queue| => Message(queue[i][0], queue[i][1..]))
  }

  lemma QueuedOne(queue: seq<seq<byte>>, record: seq<byte>)
    requires record != [] && forall i :: 0 <= i < |queue| ==> queue[i] != []
    ensures Queued(queue + [record]) == Queued(queue) + [Message(record[0], record[1..])]
  {
  }
}
