/** `Worker::extract`: following a name through a message along compression pointers. */
module DnsWalk {
  import opened Numerals
  import opened DnsNames
  import opened Wrappers

  /** The end of a walk: the bytes it collected, a step out of the buffer, or not yet. */
  datatype Outcome = Done(bytes: seq<byte>) | Outside | Running

  /** At most `fuel` steps from `p`: a zero ends the walk, the byte 0xC0 jumps to the offset
      in the next byte, and every other byte is collected. */
  function Walk(data: seq<byte>, p: nat, fuel: nat): Outcome
    decreases fuel
  {
    if p >= |data| then Outside
    else if data[p] == 0 then Done([])
    else if fuel == 0 then Running
    else if data[p] == JUMP then
      if p + 1 >= |data| then Outside else Walk(data, data[p + 1], fuel - 1)
    else
      match Walk(data, p + 1, fuel - 1)
      case Done(s) => Done([data[p]] + s)
      case other => other
  }

  /** A walk that ends inside the buffer collects its bytes and a final zero. */
  method Extract(data: seq<byte>, pos: nat, ghost fuel: nat) returns (result: seq<byte>)
    requires Walk(data, pos, fuel).Done?
    ensures result == Walk(data, pos, fuel).bytes + [0]
  {
    result := [];
    var temp: nat := pos;
    ghost var left := fuel;
    while data[temp] != 0
      invariant Walk(data, temp, left).Done?
      invariant Walk(data, pos, fuel).bytes == result + Walk(data, temp, left).bytes
      decreases left
    {
      if data[temp] == JUMP {
        temp := temp + 1;
        temp := data[temp];
      } else {
        Assoc(result, [data[temp]], Walk(data, temp + 1, left - 1).bytes);
        result := result + [data[temp]];
        temp := temp + 1;
      }
      left := left - 1;
    }
    result := result + [0];
  }

  lemma {:induction false} MoreFuel(data: seq<byte>, p: nat, n: nat, m: nat)
    requires n <= m && !Walk(data, p, n).Running?
    ensures Walk(data, p, m) == Walk(data, p, n)
    decreases n
  {
    if p < |data| && data[p] != 0 {
      if data[p] != JUMP {
        MoreFuel(data, p + 1, n - 1, m - 1);
      } else if p + 1 < |data| {
        MoreFuel(data, data[p + 1], n - 1, m - 1);
      }
    }
  }

  // ---------- Termination ----------

  /** Where the walk stands after `k` steps. */
  function Position(data: seq<byte>, p: nat, k: nat): nat
    requires Walk(data, p, k).Running?
    decreases k
  {
    if k == 0 then p else if data[p] == JUMP then Position(data, data[p + 1], k - 1) else Position(data, p + 1, k - 1)
  }

  lemma {:induction false} InTwo(data: seq<byte>, p: nat, k: nat, m: nat)
    requires Walk(data, p, k).Running?
    ensures Walk(data, p, k + m).Running? <==> Walk(data, Position(data, p, k), m).Running?
    ensures Walk(data, p, k + m).Running? ==> Position(data, p, k + m) == Position(data, Position(data, p, k), m)
    decreases k
  {
    if k > 0 {
      InTwo(data, if data[p] == JUMP then data[p + 1] else p + 1, k - 1, m);
    }
  }

  /** A position that comes back comes back for ever. */
  lemma {:induction false} CycleRuns(data: seq<byte>, p: nat, k: nat, n: nat)
    requires 0 < k && Walk(data, p, k).Running? && Position(data, p, k) == p
    ensures Walk(data, p, n).Running?
    decreases n
  {
    if n <= k {
      if !Walk(data, p, n).Running? {
        MoreFuel(data, p, n, k);
      }
    } else {
      CycleRuns(data, p, k, n - k);
      InTwo(data, p, k, n - k);
    }
  }

  function UpTo(n: nat): (r: set<nat>)
    ensures |r| == n && forall x: nat :: x in r <==> x < n
  {
    if n == 0 then {} else UpTo(n - 1) + {n - 1}
  }

  function Elements(s: seq<nat>): (r: set<nat>)
    ensures forall x: nat :: x in r <==> x in s
  {
    if s == [] then {} else Elements(s[..|s| - 1]) + {s[|s| - 1]}
  }

  lemma {:induction false} Distinct(s: seq<nat>)
    requires forall i, j :: 0 <= i < j < |s| ==> s[i] != s[j]
    ensures |Elements(s)| == |s|
  {
    if s != [] {
      Distinct(s[..|s| - 1]);
      assert s[|s| - 1] !in s[..|s| - 1];
    }
  }

  lemma Pigeonhole(s: seq<nat>, n: nat)
    requires |s| > n && forall i :: 0 <= i < |s| ==> s[i] < n
    ensures exists i, j :: 0 <= i < j < |s| && s[i] == s[j]
  {
    Subset(Elements(s), UpTo(n));
    if forall i, j :: 0 <= i < j < |s| ==> s[i] != s[j] {
      Distinct(s);
    }
  }

  lemma Subset(a: set<nat>, b: set<nat>)
    requires a <= b
    ensures |a| <= |b|
  {
    assert b == a + (b - a);
  }

  /** A walk that ends at a zero ends so within as many steps as any in which it does not go on. */
  lemma FinalZero(data: seq<byte>, p: nat)
    ensures forall n: nat, m: nat :: Walk(data, p, n).Done? && !Walk(data, p, m).Running? ==> Walk(data, p, m).Done?
  {
    forall n: nat, m: nat | Walk(data, p, n).Done? && !Walk(data, p, m).Running?
      ensures Walk(data, p, m).Done?
    {
      MoreFuel(data, p, n, n + m);
      MoreFuel(data, p, m, n + m);
    }
  }

  /** A walk that has not ended within as many steps as the buffer has bytes never ends. */
  lemma EndsSoonOrNever(data: seq<byte>, p: nat)
    ensures (exists n: nat :: !Walk(data, p, n).Running?) <==> !Walk(data, p, |data|).Running?
    ensures (exists n: nat :: Walk(data, p, n).Done?) <==> Walk(data, p, |data|).Done?
  {
    FinalZero(data, p);
    var size := |data|;
    if Walk(data, p, size).Running? {
      forall k | 0 <= k <= size ensures Walk(data, p, k).Running? {
        if !Walk(data, p, k).Running? {
          MoreFuel(data, p, k, size);
        }
      }
      var trail := seq(size + 1, k requires 0 <= k <= size => Position(data, p, k));
      forall k | 0 <= k <= size ensures trail[k] < size {
        InTwo(data, p, k, 0);
      }
      Pigeonhole(trail, size);
      var i, j :| 0 <= i < j <= size && trail[i] == trail[j];
      InTwo(data, p, i, j - i);
      forall n: nat ensures Walk(data, p, n).Running? {
        if n <= i {
          assert 0 <= n <= size;
        } else {
          CycleRuns(data, trail[i], j - i, n - i);
          InTwo(data, p, i, n - i);
        }
      }
    }
  }

  /** Where a run of plain bytes ends: at a zero, a pointer, or the end of the buffer. */
  function RunEnd(data: seq<byte>, p: nat): (e: nat)
    ensures p <= |data| ==> p <= e <= |data|
    decreases |data| - p
  {
    if p >= |data| || data[p] == 0 || data[p] == JUMP then p else RunEnd(data, p + 1)
  }

  /** Every pointer leads to a run of bytes that ends before the pointer itself. */
  predicate PointsBack(data: seq<byte>) {
    forall e :: 0 <= e < |data| - 1 && data[e] == JUMP ==> RunEnd(data, data[e + 1]) < e
  }

  /** Then every walk ends, from every position, within as many steps as there are bytes. */
  lemma BackwardWalksEnd(data: seq<byte>, p: nat)
    requires PointsBack(data)
    ensures !Walk(data, p, |data|).Running?
    ensures p < |data| && data[|data| - 1] == 0 ==> Walk(data, p, |data|).Done?
  {
    var n := BackwardSteps(data, p);
    EndsSoonOrNever(data, p);
    if p < |data| && data[|data| - 1] == 0 {
      forall e | 0 <= e < |data| - 1 && data[e] == JUMP
        ensures data[e + 1] < e
      {
        RunStarts(data, data[e + 1]);
      }
      NeverOutside(data, p, |data|);
    }
  }

  lemma RunStarts(data: seq<byte>, p: nat)
    ensures p <= RunEnd(data, p)
  {
  }

  /** Every pointer leads to a position before its own. */
  predicate Prior(data: seq<byte>) {
    forall e :: 0 <= e < |data| - 1 && data[e] == JUMP ==> data[e + 1] < e
  }

  /** A zero at the end of the buffer keeps walks inside. */
  lemma {:induction false} NeverOutside(data: seq<byte>, p: nat, n: nat)
    requires Prior(data) && p < |data| && data[|data| - 1] == 0
    ensures !Walk(data, p, n).Outside?
    decreases n
  {
    if data[p] != 0 && n > 0 {
      NeverOutside(data, if data[p] == JUMP then data[p + 1] else p + 1, n - 1);
    }
  }

  lemma {:induction false} BackwardSteps(data: seq<byte>, p: nat) returns (n: nat)
    requires PointsBack(data)
    ensures !Walk(data, p, n).Running?
    decreases RunEnd(data, p), |data| - p
  {
    n := 0;
    if p < |data| && data[p] != 0 {
      if data[p] != JUMP {
        n := BackwardSteps(data, p + 1);
        n := n + 1;
      } else if p + 1 < |data| {
        n := BackwardSteps(data, data[p + 1]);
        n := n + 1;
      } else {
        n := 1;
      }
    }
  }

  lemma {:induction false} RunStops(data: seq<byte>, p: nat, e: nat)
    requires p <= e < |data| && data[e] == JUMP
    ensures RunEnd(data, p) <= e
    decreases e - p
  {
    if p < e && data[p] != 0 && data[p] != JUMP {
      RunStops(data, p + 1, e);
    }
  }

  /** A walk reaches the pointer its run of bytes ends at. */
  lemma {:induction false} WalkToPointer(data: seq<byte>, p: nat)
    requires p <= RunEnd(data, p) < |data| && data[RunEnd(data, p)] == JUMP
    ensures Walk(data, p, RunEnd(data, p) - p).Running?
    ensures Position(data, p, RunEnd(data, p) - p) == RunEnd(data, p)
    decreases |data| - p
  {
    if data[p] != JUMP {
      WalkToPointer(data, p + 1);
    }
  }

  /** A pointer into the very run of bytes that ends at it is followed for ever. */
  lemma OwnRunLoops(data: seq<byte>, e: nat)
    requires e + 1 < |data| && data[e] == JUMP && data[e + 1] < e == RunEnd(data, data[e + 1])
    ensures Walk(data, e, |data|).Running?
  {
    WalkToPointer(data, data[e + 1]);
    CycleRuns(data, e, 1 + (e - data[e + 1]), |data|);
  }

  /**
   * When all pointers lead to prior positions, extraction ends from every position exactly if none of them
   * leads into the run of bytes that ends at that pointer itself.
   */
  lemma PriorWalksEnd(data: seq<byte>)
    requires Prior(data)
    ensures (forall p: nat :: !Walk(data, p, |data|).Running?) <==> PointsBack(data)
  {
    if PointsBack(data) {
      forall p: nat
        ensures !Walk(data, p, |data|).Running?
      {
        BackwardWalksEnd(data, p);
      }
    } else {
      var e :| 0 <= e < |data| - 1 && data[e] == JUMP && RunEnd(data, data[e + 1]) >= e;
      RunStops(data, data[e + 1], e);
      OwnRunLoops(data, e);
    }
  }

  /**
   * Extraction reads no further than the buffer and ends at a zero from every position, when all pointers lead to
   * prior positions, exactly if none of them leads into its own run and the last byte is zero. The source knows no
   * end of the buffer: a walk that leaves it goes on in memory that is not part of the message.
   */
  lemma PriorWalksDone(data: seq<byte>)
    requires Prior(data) && data != []
    ensures AllDone(data) <==> PointsBack(data) && data[|data| - 1] == 0
  {
    hide PointsBack;
    PriorWalksEnd(data);
    if PointsBack(data) && data[|data| - 1] == 0 {
      forall p: nat | p < |data|
        ensures Walk(data, p, |data|).Done?
      {
        BackwardWalksEnd(data, p);
      }
    } else if AllDone(data) {
      LastByte(data);
      forall p: nat
        ensures !Walk(data, p, |data|).Running?
      {
        if p < |data| {
          assert Walk(data, p, |data|).Done?;
        }
      }
    }
  }

  /** From every position of the buffer extraction ends at a zero in it. */
  ghost predicate AllDone(data: seq<byte>) {
    forall p: nat :: p < |data| ==> Walk(data, p, |data|).Done?
  }

  lemma LastByte(data: seq<byte>)
    requires data != [] && AllDone(data)
    ensures data[|data| - 1] == 0
  {
    assert Walk(data, |data| - 1, |data|).Done?;
  }

  /** A pointer to a position before it is not enough: it may lead back to itself. */
  lemma {:induction false} PriorPointerLoops(n: nat)
    ensures var data: seq<byte> := [1, 97, JUMP, 0];
      data[3] < 2 && Walk(data, 0, n).Running? && Walk(data, 1, n).Running? && Walk(data, 2, n).Running?
    decreases n
  {
    if n > 0 {
      PriorPointerLoops(n - 1);
    }
  }

  // ---------- Faithfulness ----------

  /** Section 4.1.4 of RFC 1035: the labels of the name at `p`, within so many labels and pointers. */
  function Name(data: seq<byte>, p: nat, depth: nat): (r: Option<seq<Label>>)
    ensures r.Some? ==> forall i :: 0 <= i < |r.value| ==> 0 < |r.value[i]| < 64
    decreases depth
  {
    if depth == 0 || p >= |data| then None
    else
      var l: nat := data[p];
      if l == 0 then Some([])
      else if l >= 192 then
        if p + 1 < |data| then Name(data, (l - 192) * 256 + data[p + 1], depth - 1) else None
      else if l < 64 && p + l < |data| then
        match Name(data, p + l + 1, depth - 1)
        case Some(labels) => Some([data[p + 1..p + l + 1]] + labels)
        case None => None
      else None
  }

  predicate PlainBytes(s: seq<byte>) {
    forall i :: 0 <= i < |s| ==> s[i] != 0 && s[i] != JUMP
  }

  /** On the way through the name every pointer's offset fits one byte, and no first holds
      a zero or the byte 0xC0. */
  predicate Plain(data: seq<byte>, p: nat, depth: nat)
    requires Name(data, p, depth).Some?
    decreases depth
  {
    var l := data[p];
    if l == 0 then true
    else if l >= 192 then l == JUMP && Plain(data, data[p + 1], depth - 1)
    else PlainBytes(data[p + 1..p + l + 1]) && Plain(data, p + l + 1, depth - 1)
  }

  /** Plain bytes are collected one after the other. */
  lemma {:induction false} WalkRun(data: seq<byte>, p: nat, k: nat, n: nat)
    requires p + k <= |data| && PlainBytes(data[p..p + k])
    ensures Walk(data, p, k + n) == match Walk(data, p + k, n)
      case Done(s) => Done(data[p..p + k] + s)
      case other => other
    decreases k
  {
    if k > 0 {
      assert data[p] == data[p..p + k][0];
      assert data[p + 1..p + k] == data[p..p + k][1..];
      WalkRun(data, p + 1, k - 1, n);
      if Walk(data, p + k, n).Done? {
        Assoc([data[p]], data[p + 1..p + k], Walk(data, p + k, n).bytes);
        assert data[p..p + k] == [data[p]] + data[p + 1..p + k];
      }
    } else if Walk(data, p, n).Done? {
      assert data[p..p] + Walk(data, p, n).bytes == Walk(data, p, n).bytes;
    }
  }

  lemma {:induction false} WalkIsPlain(data: seq<byte>, p: nat, n: nat)
    requires Walk(data, p, n).Done?
    ensures PlainBytes(Walk(data, p, n).bytes)
    decreases n
  {
    if data[p] != 0 {
      WalkIsPlain(data, if data[p] == JUMP then data[p + 1] else p + 1, n - 1);
    }
  }

  lemma {:induction false} PlainWalk(data: seq<byte>, p: nat, depth: nat) returns (n: nat)
    requires Name(data, p, depth).Some? && Plain(data, p, depth)
    ensures Walk(data, p, n) == Done(Wire(Name(data, p, depth).value))
    decreases depth
  {
    n := 0;
    var l := data[p];
    if l >= 192 {
      n := PlainWalk(data, data[p + 1], depth - 1);
      n := n + 1;
    } else if l != 0 {
      n := PlainWalk(data, p + l + 1, depth - 1);
      var first := data[p + 1..p + l + 1];
      assert data[p..p + l + 1] == [l] + first;
      WalkRun(data, p, l + 1, n);
      n := l + 1 + n;
    }
  }

  lemma {:induction false} WalkedIsPlain(data: seq<byte>, p: nat, depth: nat, n: nat)
    requires Name(data, p, depth).Some? && Walk(data, p, n) == Done(Wire(Name(data, p, depth).value))
    ensures Plain(data, p, depth)
    decreases depth
  {
    var l, labels := data[p], Name(data, p, depth).value;
    WireHead(labels);
    if l == JUMP {
      WalkedIsPlain(data, data[p + 1], depth - 1, n - 1);
    } else if l < 64 && l != 0 {
      WalkIsPlain(data, p, n);
      var first, rest := data[p + 1..p + l + 1], Wire(labels[1..]);
      assert labels[0] == first && Wire(labels) == [l] + first + rest;
      WalkedLabel(data, p, first, rest, n);
      WalkedIsPlain(data, p + l + 1, depth - 1, n);
    }
  }

  /** A length byte is below 64, so no name starts like a long pointer. */
  lemma WireHead(labels: seq<Label>)
    requires forall i :: 0 <= i < |labels| ==> 0 < |labels[i]| < 64
    ensures Wire(labels) != [] ==> Wire(labels)[0] < 64
  {
  }

  /** A walk that collected a label has collected the rest behind it. */
  lemma WalkedLabel(data: seq<byte>, p: nat, first: Label, rest: seq<byte>, n: nat)
    requires 0 < |first| < 64 && p + |first| < |data| && data[p] == |first| && data[p + 1..p + |first| + 1] == first
    requires PlainBytes([|first|] + first + rest) && Walk(data, p, n) == Done([|first|] + first + rest)
    ensures PlainBytes(first) && Walk(data, p + |first| + 1, n) == Done(rest)
  {
    var k, head := |first| + 1, [|first|] + first;
    assert data[p..p + k] == head;
    assert PlainBytes(head) && PlainBytes(first) by {
      assert forall i :: 0 <= i < k ==> head[i] == (head + rest)[i];
      assert forall i :: 0 <= i < |first| ==> first[i] == head[i + 1];
    }
    MoreFuel(data, p, n, k + n);
    WalkRun(data, p, k, n);
    hide Walk;
    var after := Walk(data, p + k, n);
    assert after.Done? && head + after.bytes == head + rest;
    assert after.bytes == (head + after.bytes)[k..] && rest == (head + rest)[k..];
  }

  /** A well-formed name, however compressed, is extracted as its labels on the wire exactly
      when its pointers stay below offset 256 and its labels hold no zero and no 0xC0. */
  lemma FaithfulExtraction(data: seq<byte>, p: nat, depth: nat)
    requires Name(data, p, depth).Some?
    ensures (exists n: nat :: Walk(data, p, n) == Done(Wire(Name(data, p, depth).value))) <==> Plain(data, p, depth)
  {
    if Plain(data, p, depth) {
      var n := PlainWalk(data, p, depth);
    } else if n: nat :| Walk(data, p, n) == Done(Wire(Name(data, p, depth).value)) {
      WalkedIsPlain(data, p, depth, n);
    }
  }

  /** What `extract` returned, read by `join` and `items` with the zero every string ends in:
      the dotted text and the labels of the name, whichever way it was compressed. */
  lemma ExtractedName(data: seq<byte>, p: nat, depth: nat)
    requires Name(data, p, depth).Some? && Plain(data, p, depth) && Name(data, p, depth).value != []
    ensures var labels := Name(data, p, depth).value;
      var record := Wire(labels) + [0];
      && (exists n: nat :: Walk(data, p, n).Done? && Walk(data, p, n).bytes + [0] == record)
      && Framed(record + [0], 0, |record|)
      && TextAt(record + [0], 0, |record|) == Dotted(labels) && LabelsAt(record + [0], 0, |record|) == labels
  {
    hide Walk, Name, Plain, Framed, TextAt, LabelsAt, Wire;
    var n := PlainWalk(data, p, depth);
    var labels := Name(data, p, depth).value;
    var b := Wire(labels) + [0] + [0];
    assert b[0..] == b;
    ReadsName(b, 0, labels, [0], |Wire(labels)| + 1);
  }
}
