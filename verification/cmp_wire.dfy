/** The records of the cluster message protocol, and what a stream of them means. */
module CmpWire {
  import opened Numerals
  import opened Wrappers

  const HEADER_SIZE := 19
  const CHUNK_SIZE := 0x1000
  const WORD := 0x1_0000_0000_0000_0000
  const SIGN: seq<byte> := [65, 87, 72]

  /** The packed header: 4 + 1 + 8 + 3 + 2 + 1 bytes. */
  datatype Header = Header(pid: nat, mid: byte, size: nat, sign: seq<byte>, cipher: nat, packing: byte)

  const NoHeader := Header(0, 0, 0, SIGN, 0, 0)

  predicate Fits(h: Header) {
    h.pid < 0x1_0000_0000 && h.size < WORD && |h.sign| == 3 && h.cipher < 0x1_0000
  }

  function HeaderBytes(h: Header): seq<byte> {
    ToLE(h.pid, 4) + [h.mid] + ToLE(h.size, 8) + h.sign + ToLE(h.cipher, 2) + [h.packing]
  }

  function ParseHeader(b: seq<byte>): Header
    requires |b| == HEADER_SIZE
  {
    Header(FromLE(b[..4]), b[4], FromLE(b[5..13]), b[13..16], FromLE(b[16..18]), b[18])
  }

  lemma HeaderRoundTrip(h: Header)
    requires Fits(h)
    ensures |HeaderBytes(h)| == HEADER_SIZE && ParseHeader(HeaderBytes(h)) == h
  {
    var b := HeaderBytes(h);
    assert b[..4] == ToLE(h.pid, 4) && b[5..13] == ToLE(h.size, 8) && b[13..16] == h.sign && b[16..18] == ToLE(h.cipher, 2);
    assert Pow(256, 4) == 0x1_0000_0000 && Pow(256, 2) == 0x1_0000;
    assert Pow(256, 8) == WORD;
    LERoundTrip(h.pid, 4);
    LERoundTrip(h.size, 8);
    LERoundTrip(h.cipher, 2);
  }

  // ---------- Encryption and compression ----------

  /** The hash object of one configuration; an empty result reports a failure. */
  datatype Hash = Hash(
    encode: (seq<byte>, nat) -> seq<byte>, decode: (seq<byte>, nat) -> seq<byte>,
    compress: (seq<byte>, byte) -> seq<byte>, decompress: (seq<byte>, byte) -> seq<byte>)

  ghost predicate Inverts(h: Hash) {
    && (forall x, c :: h.encode(x, c) != [] ==> h.decode(h.encode(x, c), c) == x)
    && (forall x, m :: h.compress(x, m) != [] ==> h.decompress(h.compress(x, m), m) == x)
  }

  datatype Packed = Packed(payload: seq<byte>, cipher: nat, packing: byte)

  function Encipher(h: Hash, x: seq<byte>, cipher: nat, packing: byte): Packed {
    if cipher == 0 then Packed(x, 0, packing)
    else
      var y := h.encode(x, cipher);
      if y != [] then Packed(y, cipher, packing) else Packed(x, 0, packing)
  }

  /** What an encoder puts in a record: small payloads are never compressed, and a step
      that fails is skipped. */
  function Pack(h: Hash, x: seq<byte>, cipher: nat, packing: byte): Packed {
    if packing == 0 || |x| <= CHUNK_SIZE then Encipher(h, x, cipher, 0)
    else
      var y := h.compress(x, packing);
      if y != [] then Encipher(h, y, cipher, packing) else Encipher(h, x, cipher, 0)
  }

  function Inflate(h: Hash, x: seq<byte>, packing: byte): seq<byte> {
    if packing == 0 then x
    else
      var y := h.decompress(x, packing);
      if y != [] then y else x
  }

  /** What a decoder makes of a record; a payload that cannot be deciphered is dropped. */
  function Unpack(h: Hash, p: Packed): Option<seq<byte>> {
    if p.cipher != 0 then
      var y := h.decode(p.payload, p.cipher);
      if y != [] then Some(Inflate(h, y, p.packing)) else None
    else Some(Inflate(h, p.payload, p.packing))
  }

  /** Whichever of the steps applied or failed, the payload comes back unaltered. */
  lemma UnpackPack(h: Hash, x: seq<byte>, cipher: nat, packing: byte)
    requires Inverts(h) && x != []
    ensures Unpack(h, Pack(h, x, cipher, packing)) == Some(x)
    ensures Pack(h, x, cipher, packing).payload != []
  {
    if packing != 0 && |x| > CHUNK_SIZE && h.compress(x, packing) != [] {
      var y := h.compress(x, packing);
      assert h.decompress(y, packing) == x;
      assert cipher != 0 && h.encode(y, cipher) != [] ==> h.decode(h.encode(y, cipher), cipher) == y;
    } else {
      assert cipher != 0 && h.encode(x, cipher) != [] ==> h.decode(h.encode(x, cipher), cipher) == x;
    }
  }

  // ---------- Reading a stream ----------

  datatype Message = Message(mid: byte, payload: seq<byte>)

  /** `Blocked` is a header without the signature: the decoder then waits for its own lock and never returns.
      `Overrun` is one whose size wraps around when the header's is added: a payload of that size is taken out
      of a buffer that does not hold it. */
  datatype Fate = Going | Blocked | Overrun

  /** A decoder that used all it could: the header it is in, if any, the bytes it could
      not use yet, and the messages it delivered. */
  datatype Reading = Reading(header: Header, rest: seq<byte>, out: seq<Message>, fate: Fate)

  function Delivered(h: Hash, header: Header, payload: seq<byte>): seq<Message> {
    match Unpack(h, Packed(payload, header.cipher, header.packing))
    case Some(x) => [Message(header.mid, x)]
    case None => []
  }

  /** What a header just read leads to. */
  function FateOf(header: Header): Fate {
    if header.sign != SIGN then Blocked else if HEADER_SIZE + header.size >= WORD then Overrun else Going
  }

  /** The sum of the header's and the payload's size that is compared with the data, in the machine word: right
      unless it wraps around, and then smaller than the header, so that all data there is suffices. */
  lemma SumWraps(header: Header, result: nat)
    requires header.size < WORD && result <= HEADER_SIZE
    ensures result + header.size < WORD ==> (result + header.size) % WORD == result + header.size
    ensures result + header.size >= WORD ==> (result + header.size) % WORD < result
  {
  }

  lemma SizeFits(b: seq<byte>)
    requires |b| == HEADER_SIZE
    ensures ParseHeader(b).size < WORD
  {
    LEBound(b[5..13]);
    assert Pow(256, 4) == 0x1_0000_0000;
    assert Pow(256, 8) == WORD;
  }

  /** All that can be made of `bytes` behind `header`; size 0 means no header. */
  function Read(h: Hash, header: Header, bytes: seq<byte>): (r: Reading)
    ensures r.fate == Going ==> |r.rest| < (if r.header.size > 0 then r.header.size else HEADER_SIZE)
    decreases |bytes|
  {
    if header.size > 0 then
      if |bytes| < header.size then Reading(header, bytes, [], Going)
      else
        var r := Read(h, NoHeader, bytes[header.size..]);
        r.(out := Delivered(h, header, bytes[..header.size]) + r.out)
    else if |bytes| < HEADER_SIZE then Reading(NoHeader, bytes, [], Going)
    else
      var next := ParseHeader(bytes[..HEADER_SIZE]);
      if FateOf(next) != Going then Reading(NoHeader, [], [], FateOf(next))
      else Read(h, if next.size > 0 then next else NoHeader, bytes[HEADER_SIZE..])
  }

  /** Reading on with more bytes. */
  function ReadOn(h: Hash, r: Reading, more: seq<byte>): Reading {
    if r.fate != Going then r
    else
      var q := Read(h, r.header, r.rest + more);
      q.(out := r.out + q.out)
  }

  /** Fragments do not matter: reading a part and then the rest is reading it all. */
  lemma {:induction false} ReadSplit(h: Hash, header: Header, a: seq<byte>, b: seq<byte>)
    requires header.size == 0 ==> header == NoHeader
    ensures Read(h, header, a + b) == ReadOn(h, Read(h, header, a), b)
    decreases |a|
  {
    var n := if header.size > 0 then header.size else HEADER_SIZE;
    if |a| >= n {
      assert (a + b)[..n] == a[..n] && (a + b)[n..] == a[n..] + b;
      if header.size > 0 {
        ReadSplit(h, NoHeader, a[n..], b);
        var r := Read(h, NoHeader, a[n..]);
        Assoc(Delivered(h, header, a[..n]), r.out, Read(h, r.header, r.rest + b).out);
      } else {
        var next := ParseHeader(a[..n]);
        if FateOf(next) == Going {
          ReadSplit(h, if next.size > 0 then next else NoHeader, a[n..], b);
        }
      }
    }
  }

  // ---------- Writing a stream ----------

  /** One accepted `push` and the settings it was made under. */
  datatype Sent = Sent(pid: nat, mid: byte, payload: seq<byte>, cipher: nat, packing: byte)

  function SentHeader(h: Hash, s: Sent): Header {
    var p := Pack(h, s.payload, s.cipher, s.packing);
    Header(s.pid, s.mid, |p.payload|, SIGN, p.cipher, p.packing)
  }

  function Record(h: Hash, s: Sent): seq<byte> {
    HeaderBytes(SentHeader(h, s)) + Pack(h, s.payload, s.cipher, s.packing).payload
  }

  function Wire(h: Hash, sent: seq<Sent>): seq<byte> {
    if sent == [] then [] else Wire(h, sent[..|sent| - 1]) + Record(h, sent[|sent| - 1])
  }

  function Messages(sent: seq<Sent>): seq<Message> {
    if sent == [] then []
    else Messages(sent[..|sent| - 1]) + [Message(sent[|sent| - 1].mid, sent[|sent| - 1].payload)]
  }

  predicate Sendable(h: Hash, s: Sent) {
    s.payload != [] && Fits(SentHeader(h, s)) && HEADER_SIZE + SentHeader(h, s).size < WORD
  }

  ghost predicate AllSendable(h: Hash, sent: seq<Sent>) {
    forall i :: 0 <= i < |sent| ==> Sendable(h, sent[i])
  }

  lemma ReadRecord(h: Hash, s: Sent)
    requires Inverts(h) && Sendable(h, s)
    ensures Read(h, NoHeader, Record(h, s)) == Reading(NoHeader, [], [Message(s.mid, s.payload)], Going)
  {
    var header, p := SentHeader(h, s), Pack(h, s.payload, s.cipher, s.packing);
    HeaderRoundTrip(header);
    UnpackPack(h, s.payload, s.cipher, s.packing);
    var b := Record(h, s);
    assert b[..HEADER_SIZE] == HeaderBytes(header) && b[HEADER_SIZE..] == p.payload;
    ReadPayload(h, header, p.payload);
  }

  lemma ReadPayload(h: Hash, header: Header, payload: seq<byte>)
    requires header.size == |payload| > 0
    ensures Read(h, header, payload) == Reading(NoHeader, [], Delivered(h, header, payload), Going)
  {
    assert payload[..|payload|] == payload && payload[|payload|..] == [];
    assert Delivered(h, header, payload) + [] == Delivered(h, header, payload);
  }

  lemma {:induction false} ReadWire(h: Hash, sent: seq<Sent>)
    requires Inverts(h) && AllSendable(h, sent)
    ensures Read(h, NoHeader, Wire(h, sent)) == Reading(NoHeader, [], Messages(sent), Going)
  {
    if sent != [] {
      var init, last := sent[..|sent| - 1], sent[|sent| - 1];
      ReadWire(h, init);
      ReadRecord(h, last);
      ReadSplit(h, NoHeader, Wire(h, init), Record(h, last));
      assert [] + Record(h, last) == Record(h, last);
    }
  }

  /** Whatever part of the stream has arrived, the decoder goes on and has delivered
      the first messages, in order and unaltered; once all of it has, all of them. */
  lemma Delivery(h: Hash, sent: seq<Sent>, arrived: seq<byte>)
    requires Inverts(h) && AllSendable(h, sent)
    requires arrived <= Wire(h, sent)
    ensures var r := Read(h, NoHeader, arrived);
      r.fate == Going && r.out <= Messages(sent) && (arrived == Wire(h, sent) ==> r.out == Messages(sent) && r.rest == [])
  {
    var wire := Wire(h, sent);
    ReadWire(h, sent);
    assert wire == arrived + wire[|arrived|..];
    ReadSplit(h, NoHeader, arrived, wire[|arrived|..]);
  }

  /** After the stream of accepted pushes, the next header decides: the decoder blocks exactly without the signature,
      and overruns exactly when the size of a signed one wraps around. */
  lemma NextHeader(h: Hash, sent: seq<Sent>, next: seq<byte>)
    requires Inverts(h) && AllSendable(h, sent)
    requires |next| == HEADER_SIZE
    ensures var r := Read(h, NoHeader, Wire(h, sent) + next);
            && r.fate == FateOf(ParseHeader(next)) && r.out == Messages(sent)
            && (r.fate == Blocked <==> next[13..16] != SIGN)
            && (r.fate == Overrun <==> next[13..16] == SIGN && HEADER_SIZE + FromLE(next[5..13]) >= WORD)
  {
    ReadWire(h, sent);
    ReadSplit(h, NoHeader, Wire(h, sent), next);
    assert [] + next == next && next[..HEADER_SIZE] == next && next[HEADER_SIZE..] == [];
    var header := ParseHeader(next);
    assert Messages(sent) + [] == Messages(sent);
    if FateOf(header) == Going {
      assert Read(h, if header.size > 0 then header else NoHeader, []).out == [];
    }
  }
}
