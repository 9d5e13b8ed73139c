/** The address object: a buffer and its kind, changed in place by parsing, assigning and imposing. */
module NetObject {
  import opened Numerals
  import opened NetDigits
  import opened NetAddress
  import opened NetParts
  import opened NetText
  import opened NetMasks
  import NetArpa
  import NetLoops
  import NetPrinter
  import NetReader
  import NetRoundTrip
  import Texts

  datatype Endian = BIG | LITTLE

  /** Octets read back with any endianness are one number, read backwards for BIG. */
  function Octets32(b: seq<byte>, endian: Endian): nat {
    if endian == BIG then Value(b, 8) else FromLE(b)
  }

  /** The loops of `v4` and `v6`: bytes from the last to the first. */
  method Reverse(buffer: seq<byte>) returns (result: seq<byte>)
    ensures result == Mirrored(buffer)
  {
    result := [];
    var i := |buffer|;
    while i > 0
      invariant 0 <= i <= |buffer| && |result| == |buffer| - i
      invariant forall j :: 0 <= j < |result| ==> result[j] == buffer[|buffer| - 1 - j]
    {
      i := i - 1;
      result := result + [buffer[i]];
    }
  }

  lemma Quads32()
    ensures Pow(256, 4) == 0x1_0000_0000
  {
    assert Pow(256, 2) == 65536;
  }

  /** Comparing two IPv6 buffers read backwards is comparing them. */
  lemma WholeBuffers(a: seq<byte>, b: seq<byte>)
    requires |a| == |b| == 16
    ensures FromLE(Mirrored(a)[..16]) == Value(a, 8) && FromLE(Mirrored(b)[..16]) == Value(b, 8)
    ensures Mirrored(a) == Mirrored(b) <==> Value(a, 8) == Value(b, 8)
  {
    hide FromLE, Value;
    assert Mirrored(a)[..16] == Mirrored(a) && Mirrored(b)[..16] == Mirrored(b);
    MirroredValue(a);
    MirroredValue(b);
    BytesFit(a);
    BytesFit(b);
    Injective(a, b, 8);
    NetArpa.MirroredTwice(a);
    NetArpa.MirroredTwice(b);
  }

  lemma OnesSnoc(b: seq<byte>, x: byte)
    ensures OnesIn([]) == 0 && OnesIn(b + [x]) == OnesIn(b) + Ones(x, 8)
  {
    assert (b + [x])[..|b|] == b;
  }

  lemma Kind6(p: seq<string>)
    requires Room6(p)
    ensures Read6(p).address.kind == IPV6
  {
  }

  /** Nothing lies between addresses of other kinds, and no address without a kind lies anywhere. */
  lemma Apart(a: Address, b: Address, e: Address, p: nat)
    requires Sound(a) && Sound(b) && Sound(e)
    ensures !(a.kind == b.kind == e.kind != NONE) ==> !Between(a, b, e, p)
  {
  }

  /** The text of a mask of ones only. */
  function FullText(kind: Kind): string {
    match kind
    case NONE => ""
    case IPV4 => "255.255.255.255"
    case IPV6 => "ffff:ffff:ffff:ffff:ffff:ffff:ffff:ffff"
  }

  lemma FullReads(kind: Kind)
    requires kind != NONE
    ensures Room(FullText(kind), kind) && Read(EMPTY, FullText(kind), kind) == Reading(true, AllOnes(kind))
  {
    if kind == IPV4 {
      FullText4();
    } else {
      FullText6();
    }
  }

  lemma FullText4()
    ensures Room(FullText(IPV4), IPV4) && Read(EMPTY, FullText(IPV4), IPV4) == Reading(true, AllOnes(IPV4))
  {
    var a := AllOnes(IPV4);
    var p := Octets(a.bytes, MIDDLE);
    assert Texts.Numeral(255, 10) == "255";
    assert p == ["255", "255", "255", "255"];
    Join4(p, '.');
    assert Printed(a, MIDDLE) == FullText(IPV4);
    IPv4RoundTrip(a, MIDDLE, EMPTY);
  }

  lemma Join4(p: seq<string>, sep: char)
    requires |p| == 4
    ensures Texts.Join(p, sep) == p[0] + [sep] + p[1] + [sep] + p[2] + [sep] + p[3]
  {
    assert p[..3][..2][..1] == [p[0]];
    assert Texts.Join(p[..3][..2], sep) == p[0] + [sep] + p[1];
    assert Texts.Join(p[..3], sep) == Texts.Join(p[..3][..2], sep) + [sep] + p[2];
  }

  lemma FullText6()
    ensures Room(FullText(IPV6), IPV6) && Read(EMPTY, FullText(IPV6), IPV6) == Reading(true, AllOnes(IPV6))
  {
    hide FullText, Texts.Join, Sections, Read6, Room6, Tidy, AllOnes;
    var p := ["ffff", "ffff", "ffff", "ffff", "ffff", "ffff", "ffff", "ffff"];
    FullJoin(p);
    TidyFs();
    NetRoundTrip.Unpieced(p);
    FullGroups(p);
  }

  lemma TidyFs()
    ensures Tidy("ffff")
  {
    PlainTidy("ffff");
  }

  lemma FullGroups(p: seq<string>)
    requires p == ["ffff", "ffff", "ffff", "ffff", "ffff", "ffff", "ffff", "ffff"]
    ensures Room6(p) && Read6(p) == Reading(true, AllOnes(IPV6))
  {
    hide Lead, Trail, HexWord, Ungrouped;
    LeadWords(p);
    FourFs();
    assert Words(p) == [0xFFFF, 0xFFFF, 0xFFFF, 0xFFFF, 0xFFFF, 0xFFFF, 0xFFFF, 0xFFFF];
    assert Words(p) + Zeros(0) == Words(p);
  }

  lemma FullJoin(p: seq<string>)
    requires p == ["ffff", "ffff", "ffff", "ffff", "ffff", "ffff", "ffff", "ffff"]
    ensures Texts.Join(p, ':') == FullText(IPV6)
  {
    hide Texts.Join;
    var q := ["ffff", "ffff", "ffff", "ffff"];
    Join4(q, ':');
    assert p[..4] == q && p[..8] == p;
    NextPiece(p, 4);
    assert Texts.Join(p[..5], ':') == "ffff:ffff:ffff:ffff:ffff";
    NextPiece(p, 5);
    assert Texts.Join(p[..6], ':') == "ffff:ffff:ffff:ffff:ffff:ffff";
    NextPiece(p, 6);
    assert Texts.Join(p[..7], ':') == "ffff:ffff:ffff:ffff:ffff:ffff:ffff";
    NextPiece(p, 7);
  }

  lemma NextPiece(p: seq<string>, n: nat)
    requires 0 < n < |p|
    ensures Texts.Join(p[..n + 1], ':') == Texts.Join(p[..n], ':') + ":" + p[n]
  {
    hide Texts.Join;
    Texts.JoinSnoc(p[..n], p[n], ':');
    assert p[..n + 1] == p[..n] + [p[n]];
  }

  lemma FourFs()
    ensures HexWord("ffff") == 0xFFFF
  {
    assert Texts.Leading("ffff", 16) == 4;
    assert "ffff"[..4] == "ffff" && "ffff"[..3] == "fff" && "fff"[..2] == "ff" && "ff"[..1] == "f" && "f"[..0] == "";
    assert Texts.NumeralValue("ff", 16) == 255;
  }

  lemma ReadKind(held: Address, text: string, hosted: Kind)
    requires Sound(held) && Room(text, hosted)
    ensures Read(held, text, hosted).ok ==> Read(held, text, hosted).address.kind == hosted != NONE && text != ""
    ensures text != "" && hosted != NONE ==> Read(held, text, hosted) == Read(EMPTY, text, hosted)
  {
    hide Read6, Room6, Filled;
    if hosted == IPV6 {
      Kind6(Sections(text));
    }
  }

  /** The loop of `mask2Prefix` over a mask's bytes. */
  method CountOnes(bytes: seq<byte>) returns (result: nat)
    ensures result == OnesIn(bytes)
  {
    hide OnesIn;
    result := 0;
    OnesSnoc([], 0);
    for i := 0 to |bytes|
      invariant result == OnesIn(bytes[..i])
    {
      OnesSnoc(bytes[..i], bytes[i]);
      assert bytes[..i + 1] == bytes[..i] + [bytes[i]];
      result := result + Ones(bytes[i], 8);
    }
    assert bytes[..|bytes|] == bytes;
  }

  /** The loop of `mapping` over a network's digits. */
  method Admits(addr: seq<nat>, nwk: seq<nat>) returns (result: bool)
    requires |addr| == |nwk|
    ensures result <==> Wildcard(addr, nwk)
  {
    result := true;
    for i := 0 to |nwk|
      invariant result && forall j :: 0 <= j < i ==> addr[j] == nwk[j] || nwk[j] == 0
    {
      result := addr[i] == nwk[i] || nwk[i] == 0;
      if !result {
        return;
      }
    }
  }

  /** The text of a mask, made from the text of all ones. */
  method MaskOf(full: string, prefix: nat, kind: Kind) returns (result: string)
    requires kind != NONE && 0 < prefix <= Bits(kind)
    requires Room(full, kind) && Read(EMPTY, full, kind) == Reading(true, AllOnes(kind))
    ensures result == MaskText(prefix, kind)
  {
    hide Read, Room, Imposed, Printed, AllOnes;
    var net := new Net();
    var ok := net.Parse(full, kind);
    net.Impose(prefix, NETWORK);
    result := net.Get(SHORT);
  }

  class Net {
    var buffer: seq<byte>
    var kind: Kind

    ghost function State(): Address
      reads this
    {
      Address(kind, buffer)
    }

    ghost predicate Valid()
      reads this
    {
      Sound(State())
    }

    constructor ()
      ensures Valid() && State() == EMPTY
    {
      buffer, kind := [], NONE;
    }

    method Clear()
      modifies this
      ensures Valid() && State() == EMPTY
    {
      buffer, kind := [], NONE;
    }

    method V4(endian: Endian) returns (result: nat)
      requires Valid()
      ensures result == if kind == IPV4 then Octets32(buffer, endian) else 0
    {
      result := 0;
      if |buffer| == 4 {
        if endian == BIG {
          var bytes := Reverse(buffer);
          MirroredValue(buffer);
          result := FromLE(bytes);
        } else {
          result := FromLE(buffer);
        }
      }
    }

    method SetV4(addr: nat, endian: Endian)
      requires Valid() && addr < 0x1_0000_0000
      modifies this
      ensures Valid()
      ensures addr == 0 ==> State() == old(State())
      ensures addr != 0 ==> kind == IPV4 && Octets32(buffer, endian) == addr
    {
      if addr > 0 {
        kind := IPV4;
        Quads32();
        LERoundTrip(addr, 4);
        if endian == BIG {
          buffer := Reverse(ToLE(addr, 4));
          NetArpa.MirroredTwice(ToLE(addr, 4));
          MirroredValue(buffer);
        } else {
          buffer := ToLE(addr, 4);
        }
      }
    }

    method V6(endian: Endian) returns (result: seq<byte>)
      requires Valid() && kind == IPV6
      ensures result == if endian == BIG then Mirrored(buffer) else buffer
    {
      result := buffer;
      if endian == BIG {
        result := Reverse(buffer);
      }
    }

    method SetV6(addr: seq<byte>, endian: Endian)
      requires |addr| == 16
      modifies this
      ensures Valid() && kind == IPV6 && buffer == if endian == BIG then Mirrored(addr) else addr
    {
      kind, buffer := IPV6, addr;
      if endian == BIG {
        buffer := Reverse(addr);
      }
    }

    /** `net = other.v4()` or `net = other.v6()`, as `range`, `mapping` and the assignment operator do it. */
    method Assign(addr: Net)
      requires Valid() && addr.Valid()
      modifies this
      ensures Valid() && State() == Assigned(old(State()), old(addr.State()))
    {
      if addr.kind == IPV4 {
        var number := addr.V4(LITTLE);
        LEOfBytes(addr.buffer);
        Quads32();
        SetV4(number, LITTLE);
        LEOfBytes(buffer);
      } else if addr.kind == IPV6 {
        var bytes := addr.V6(LITTLE);
        SetV6(bytes, LITTLE);
      }
    }

    // ---------- The comparison operators ----------

    method IsLess(addr: Net) returns (result: bool)
      requires Valid() && addr.Valid()
      ensures result <==> Less(State(), addr.State())
    {
      hide Value, FromLE;
      result := false;
      if kind == addr.kind {
        if kind == IPV4 {
          var first := V4(BIG);
          var second := addr.V4(BIG);
          result := first < second;
        } else if kind == IPV6 {
          var first := V6(BIG);
          var second := addr.V6(BIG);
          WholeBuffers(buffer, addr.buffer);
          result := NetLoops.Compare(second, first);
        }
      }
    }

    method IsGreater(addr: Net) returns (result: bool)
      requires Valid() && addr.Valid()
      ensures result <==> Less(addr.State(), State())
    {
      hide Value, FromLE;
      result := false;
      if kind == addr.kind {
        if kind == IPV4 {
          var first := V4(BIG);
          var second := addr.V4(BIG);
          result := first > second;
        } else if kind == IPV6 {
          var first := V6(BIG);
          var second := addr.V6(BIG);
          WholeBuffers(buffer, addr.buffer);
          result := NetLoops.Compare(first, second);
        }
      }
    }

    method IsAtMost(addr: Net) returns (result: bool)
      requires Valid() && addr.Valid()
      ensures result <==> AtMost(State(), addr.State())
    {
      hide Value, FromLE;
      result := false;
      if kind == addr.kind {
        if kind == IPV4 {
          var first := V4(BIG);
          var second := addr.V4(BIG);
          result := first <= second;
        } else if kind == IPV6 {
          var first := V6(BIG);
          var second := addr.V6(BIG);
          WholeBuffers(buffer, addr.buffer);
          result := first == second;
          if !result {
            result := NetLoops.Compare(second, first);
          }
        }
      }
    }

    method IsAtLeast(addr: Net) returns (result: bool)
      requires Valid() && addr.Valid()
      ensures result <==> AtMost(addr.State(), State())
    {
      hide Value, FromLE;
      result := false;
      if kind == addr.kind {
        if kind == IPV4 {
          var first := V4(BIG);
          var second := addr.V4(BIG);
          result := first >= second;
        } else if kind == IPV6 {
          var first := V6(BIG);
          var second := addr.V6(BIG);
          WholeBuffers(buffer, addr.buffer);
          result := first == second;
          if !result {
            result := NetLoops.Compare(first, second);
          }
        }
      }
    }

    method IsEqual(addr: Net) returns (result: bool)
      requires Valid() && addr.Valid()
      ensures result <==> kind != NONE && State() == addr.State()
    {
      result := false;
      if kind == addr.kind {
        if kind == IPV4 {
          var first := V4(LITTLE);
          var second := addr.V4(LITTLE);
          LEOfBytes(buffer);
          LEOfBytes(addr.buffer);
          result := first == second;
        } else if kind == IPV6 {
          var first := V6(LITTLE);
          var second := addr.V6(LITTLE);
          result := first == second;
        }
      }
    }

    /** `!=` does not look at the other's kind: an IPv4 zero does not differ from any IPv6 address, and an IPv6 address
        is compared with what `memory` holds where a number of another kind would have been written. */
    method IsDifferent(addr: Net, memory: seq<byte>) returns (result: bool)
      requires Valid() && addr.Valid() && |memory| == 16
      ensures kind == addr.kind != NONE ==> (result <==> State() != addr.State())
      ensures kind == IPV4 && addr.kind != IPV4 ==> (result <==> !Zero(buffer))
      ensures kind == IPV6 && addr.kind != IPV6 ==> (result <==> buffer != memory)
      ensures kind == NONE ==> !result
    {
      result := false;
      if kind == IPV4 {
        var first := V4(LITTLE);
        var second := addr.V4(LITTLE);
        LEOfBytes(buffer);
        LEOfBytes(addr.buffer);
        result := first != second;
      } else if kind == IPV6 {
        var first := V6(LITTLE);
        var second := memory;
        if addr.kind == IPV6 {
          second := addr.V6(LITTLE);
        }
        result := first != second;
      }
    }

    // ---------- Network and host ----------

    method Impose(prefix: nat, part: Part)
      requires Valid()
      modifies this
      ensures Valid() && State() == Imposed(old(State()), prefix, part)
    {
      hide Parted, Groups, Ungrouped;
      if buffer != [] && prefix > 0 {
        if kind == IPV4 {
          if prefix <= 32 {
            buffer := NetLoops.ImposeOctets(buffer, prefix, part);
          }
        } else if kind == IPV6 {
          if prefix <= 128 {
            buffer := NetLoops.ImposeGroups(buffer, prefix, part);
          }
        }
      }
    }

    /** `parse` of a text that the host patterns recognise as `hosted`. */
    method Parse(text: string, hosted: Kind) returns (result: bool)
      requires Valid() && Room(text, hosted)
      modifies this
      ensures Valid() && Reading(result, State()) == Read(old(State()), text, hosted)
    {
      hide Read6, Filled, Texts.Split;
      result := text != "" && hosted != NONE;
      if result {
        kind := hosted;
        if hosted == IPV4 {
          var ok;
          ok, buffer := NetReader.FillOctets([0, 0, 0, 0], 0, text);
        } else {
          var data := Texts.SplitText(Inner(text), ':');
          var r := NetReader.ReadGroups(data);
          result, buffer := r.ok, r.address.bytes;
          Kind6(data);
        }
      }
    }

    method Get(format: Format) returns (result: string)
      requires Valid()
      ensures result == Printed(State(), format)
    {
      result := "";
      if buffer != [] {
        if kind == IPV4 {
          result := NetPrinter.PrintOctets(buffer, format);
        } else if kind == IPV6 {
          result := NetPrinter.PrintGroups(buffer, format);
        }
      }
    }

    method Arpa() returns (result: string)
      requires Valid()
      ensures result == NetArpa.Reversed(State())
    {
      result := NetArpa.PrintReversed(Address(kind, buffer));
    }

    method SetArpa(text: string) returns (result: bool)
      requires Valid() && NetArpa.ArpaRoom(text)
      modifies this
      ensures Valid() && Reading(result, State()) == NetArpa.ReadReversed(old(State()), text)
    {
      var r := NetArpa.ReadArpa(Address(kind, buffer), text);
      result, kind, buffer := r.ok, r.address.kind, r.address.bytes;
    }

    // ---------- Masks ----------

    method Mask2Prefix(mask: string, hosted: Kind) returns (result: nat)
      requires Room(mask, hosted)
      ensures result == PrefixOfText(mask, hosted, kind)
    {
      hide OnesIn, Read, Room;
      ReadKind(EMPTY, mask, hosted);
      result := 0;
      if mask != "" {
        var net := new Net();
        var ok := net.Parse(mask, hosted);
        if ok && kind == net.kind != NONE {
          result := CountOnes(net.buffer);
        }
      }
    }

    method Prefix2Mask(prefix: nat) returns (result: string)
      ensures result == MaskText(prefix, kind)
    {
      hide FullText, Read, Room, Mask, AllOnes;
      result := "";
      if prefix > 0 {
        if kind == IPV4 && prefix <= 32 {
          FullReads(IPV4);
          result := MaskOf(FullText(IPV4), prefix, IPV4);
        } else if kind == IPV6 && prefix <= 128 {
          FullReads(IPV6);
          result := MaskOf(FullText(IPV6), prefix, IPV6);
        }
      }
    }

    method ImposeMask(mask: string, hosted: Kind, part: Part)
      requires Valid() && Room(mask, hosted)
      modifies this
      ensures Valid() && State() == ImposedByText(old(State()), mask, hosted, part)
    {
      if buffer != [] && mask != "" {
        var prefix := Mask2Prefix(mask, hosted);
        if prefix > 0 {
          Impose(prefix, part);
        }
      }
    }

    // ---------- Ranges and membership ----------

    method Range(begin: Net, end: Net, prefix: nat) returns (result: bool)
      requires Valid() && begin.Valid() && end.Valid()
      ensures result <==> Ranged(State(), begin.State(), end.State(), prefix)
    {
      hide Imposed, AtMost;
      result := false;
      if kind == begin.kind && kind == end.kind {
        var net1 := new Net();
        var net2 := new Net();
        var net3 := new Net();
        net1.Assign(this);
        net2.Assign(begin);
        net3.Assign(end);
        net1.Impose(prefix, HOST);
        net2.Impose(prefix, HOST);
        net3.Impose(prefix, HOST);
        result := net1.IsAtLeast(net2);
        if result {
          result := net1.IsAtMost(net3);
        }
      }
    }

    /** `range` of two texts; `kinds` are what the host patterns recognise them as. */
    method RangeText(begin: string, end: string, kinds: (Kind, Kind), prefix: nat) returns (result: bool)
      requires Valid() && Room(begin, kinds.0) && Room(end, kinds.1)
      ensures var b, e := Read(EMPTY, begin, kinds.0).address, Read(EMPTY, end, kinds.1).address;
              result <==> begin != "" && end != "" && Between(Assigned(EMPTY, State()), b, e, prefix)
    {
      hide Imposed, AtMost, Read, Room;
      result := false;
      if buffer != [] && begin != "" && end != "" {
        var net1 := new Net();
        var net2 := new Net();
        var net3 := new Net();
        var ok := net2.Parse(begin, kinds.0);
        ok := net3.Parse(end, kinds.1);
        net1.Assign(this);
        Apart(net1.State(), net2.State(), net3.State(), prefix);
        if net1.kind == net2.kind && net1.kind == net3.kind {
          net1.Impose(prefix, HOST);
          net2.Impose(prefix, HOST);
          net3.Impose(prefix, HOST);
          result := net1.IsAtLeast(net2);
          if result {
            result := net1.IsAtMost(net3);
          }
        }
      } else {
        Apart(Assigned(EMPTY, State()), Read(EMPTY, begin, kinds.0).address, Read(EMPTY, end, kinds.1).address, prefix);
      }
    }

    /** `mapping` of a network alone: equal digits, and none asked for where the network has zero. */
    method Mapping(network: string, hosted: Kind) returns (result: bool)
      requires Valid() && Room(network, hosted)
      ensures var r := Read(EMPTY, network, hosted);
              result <==> r.ok && r.address.kind == kind && Wildcard(Digits(State()), Digits(r.address))
    {
      hide Read, Room, Wildcard;
      ReadKind(EMPTY, network, hosted);
      result := network != "";
      if result {
        var net := new Net();
        result := net.Parse(network, hosted);
        if result {
          result := kind == net.kind;
          if result {
            result := Admits(Digits(Address(kind, buffer)), Digits(Address(net.kind, net.buffer)));
          }
        }
      }
    }

    method MappingPrefix(network: string, hosted: Kind, prefix: nat, part: Part) returns (result: bool)
      requires Valid() && Room(network, hosted)
      ensures var r := Read(EMPTY, network, hosted);
              result <==> r.ok && Mapped(State(), r.address, prefix, part)
    {
      hide Read, Room, Imposed;
      ReadKind(EMPTY, network, hosted);
      result := network != "" && prefix > 0;
      if result {
        var net := new Net();
        result := net.Parse(network, hosted);
        ghost var n := net.State();
        if result {
          result := kind == net.kind;
          if result && kind != NONE {
            net.Assign(this);
            net.Impose(prefix, part);
            var imposed := net.buffer;
            ReadKind(net.State(), network, hosted);
            var again := net.Parse(network, hosted);
            result := imposed == net.buffer;
          }
        }
      }
    }

    /** A mask of no bits, or no mask at all, maps every address. */
    method MappingMask(network: string, hosted: Kind, mask: string, hostedMask: Kind, part: Part) returns (result: bool)
      requires Valid() && Room(network, hosted) && Room(mask, hostedMask)
      ensures var r, p := Read(EMPTY, network, hosted), PrefixOfText(mask, hostedMask, kind);
              result <==> network != "" && mask != "" && (p == 0 || (r.ok && Mapped(State(), r.address, p, part)))
    {
      hide Read, Imposed;
      result := network != "" && mask != "";
      if result {
        var prefix := Mask2Prefix(mask, hostedMask);
        if prefix > 0 {
          result := MappingPrefix(network, hosted, prefix, part);
        }
      }
    }
  }
}
