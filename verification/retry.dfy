/** The web server's retry queues on top of the node: refused payloads wait for room. */
module RetryQueue {
  import opened Numerals
  import opened NodeCore

  function Queue(queues: map<nat, seq<seq<byte>>>, bid: nat): seq<seq<byte>> {
    if bid in queues then queues[bid] else []
  }

  /** For one broker: every payload refused so far, and every payload accepted on retry. */
  datatype Ledger = Ledger(refused: seq<seq<byte>>, retried: seq<seq<byte>>)

  function LedgerOf(ledgers: map<nat, Ledger>, bid: nat): Ledger {
    if bid in ledgers then ledgers[bid] else Ledger([], [])
  }

  /** What was refused has been accepted on retry or is queued, in order, each once; and
      nothing empty is ever queued. */
  predicate Settled(l: Ledger, queue: seq<seq<byte>>) {
    l.refused == l.retried + queue && forall i :: 0 <= i < |queue| ==> queue[i] != []
  }

  // ---------- Runs of refusals and retries ----------

  /** A payload is refused and queued, or the first queued payload is accepted on retry. */
  datatype Event = Refused(bid: nat, payload: seq<byte>) | Retried(bid: nat)

  predicate Possible(queues: map<nat, seq<seq<byte>>>, e: Event) {
    e.Retried? ==> Queue(queues, e.bid) != []
  }

  function After(queues: map<nat, seq<seq<byte>>>, e: Event): map<nat, seq<seq<byte>>>
    requires Possible(queues, e)
  {
    var q := Queue(queues, e.bid);
    queues[e.bid := if e.Refused? then q + [e.payload] else q[1..]]
  }

  predicate PossibleRun(queues: map<nat, seq<seq<byte>>>, run: seq<Event>)
    decreases |run|
  {
    run == [] || (Possible(queues, run[0]) && PossibleRun(After(queues, run[0]), run[1..]))
  }

  function AfterRun(queues: map<nat, seq<seq<byte>>>, run: seq<Event>): map<nat, seq<seq<byte>>>
    requires PossibleRun(queues, run)
    decreases |run|
  {
    if run == [] then queues else AfterRun(After(queues, run[0]), run[1..])
  }

  /** The payloads refused for one broker. */
  function RefusedIn(run: seq<Event>, bid: nat): seq<seq<byte>> {
    if run == [] then []
    else (if run[0].Refused? && run[0].bid == bid then [run[0].payload] else []) + RefusedIn(run[1..], bid)
  }

  /** The payloads accepted on retry for one broker. */
  function RetriedIn(queues: map<nat, seq<seq<byte>>>, run: seq<Event>, bid: nat): seq<seq<byte>>
    requires PossibleRun(queues, run)
    decreases |run|
  {
    if run == [] then []
    else
      (if run[0].Retried? && run[0].bid == bid then [Queue(queues, bid)[0]] else []) +
      RetriedIn(After(queues, run[0]), run[1..], bid)
  }

  /** Over every run, what was queued and refused is what was accepted on retry and what is still queued. */
  lemma {:induction false} NothingLost(queues: map<nat, seq<seq<byte>>>, run: seq<Event>, bid: nat)
    requires PossibleRun(queues, run)
    ensures Queue(queues, bid) + RefusedIn(run, bid) == RetriedIn(queues, run, bid) + Queue(AfterRun(queues, run), bid)
    decreases |run|
  {
    var q := Queue(queues, bid);
    if run == [] {
      assert q + [] == [] + q;
    } else {
      var e, rest := run[0], run[1..];
      var next := After(queues, e);
      NothingLost(next, rest, bid);
      hide RefusedIn, RetriedIn, AfterRun, PossibleRun;
      HeadOfRun(queues, run, bid);
      var r, t := RefusedIn(rest, bid), RetriedIn(next, rest, bid);
      if e.bid != bid {
        assert [] + r == r && [] + t == t;
      } else if e.Refused? {
        Assoc(q, [e.payload], r);
        assert [] + t == t;
      } else {
        assert q == [q[0]] + q[1..];
        assert [] + r == r;
        Assoc([q[0]], q[1..], r);
        Assoc([q[0]], t, Queue(AfterRun(next, rest), bid));
      }
    }
  }

  lemma HeadOfRun(queues: map<nat, seq<seq<byte>>>, run: seq<Event>, bid: nat)
    requires run != [] && PossibleRun(queues, run)
    ensures Possible(queues, run[0]) && PossibleRun(After(queues, run[0]), run[1..])
    ensures RefusedIn(run, bid) ==
      (if run[0].Refused? && run[0].bid == bid then [run[0].payload] else []) + RefusedIn(run[1..], bid)
    ensures RetriedIn(queues, run, bid) ==
      (if run[0].Retried? && run[0].bid == bid then [Queue(queues, bid)[0]] else []) +
      RetriedIn(After(queues, run[0]), run[1..], bid)
    ensures AfterRun(queues, run) == AfterRun(After(queues, run[0]), run[1..])
  {
  }

  // ---------- The order of submission ----------

  /** What happens to one broker's payloads: one is accepted at once, refused and queued, or accepted on retry. */
  datatype Turn = Direct | Refusal | Retry

  /** A broker's payloads, numbered as they are submitted: those queued, and those that reached the node. */
  datatype Line = Line(next: nat, queue: seq<nat>, reached: seq<nat>)

  const NoLine := Line(0, [], [])

  predicate CanServe(l: Line, t: Turn) {
    t == Retry ==> l.queue != []
  }

  function Served(l: Line, t: Turn): Line
    requires CanServe(l, t)
  {
    match t
    case Direct => Line(l.next + 1, l.queue, l.reached + [l.next])
    case Refusal => Line(l.next + 1, l.queue + [l.next], l.reached)
    case Retry => Line(l.next, l.queue[1..], l.reached + [l.queue[0]])
  }

  predicate CanServeAll(l: Line, turns: seq<Turn>)
    decreases |turns|
  {
    turns == [] || (CanServe(l, turns[0]) && CanServeAll(Served(l, turns[0]), turns[1..]))
  }

  function ServedAll(l: Line, turns: seq<Turn>): Line
    requires CanServeAll(l, turns)
    decreases |turns|
  {
    if turns == [] then l else ServedAll(Served(l, turns[0]), turns[1..])
  }

  /** Some payload is accepted at once while others of its broker are queued. */
  predicate Overtakes(l: Line, turns: seq<Turn>)
    requires CanServeAll(l, turns)
    decreases |turns|
  {
    turns != [] && ((turns[0] == Direct && l.queue != []) || Overtakes(Served(l, turns[0]), turns[1..]))
  }

  /** All payloads so far, those that reached the node and then those queued, as they were submitted. */
  predicate InOrder(l: Line) {
    var all := l.reached + l.queue;
    |all| == l.next && forall i :: 0 <= i < |all| ==> all[i] == i
  }

  /** A payload that reached the node out of its turn. */
  predicate Jumped(l: Line) {
    exists i :: 0 <= i < |l.reached| && l.reached[i] != i
  }

  lemma InOrderStep(l: Line, t: Turn)
    requires InOrder(l) && CanServe(l, t)
    ensures if t == Direct && l.queue != [] then Jumped(Served(l, t)) else InOrder(Served(l, t))
  {
    var m, all := Served(l, t), l.reached + l.queue;
    if t == Direct && l.queue != [] {
      assert m.reached[|l.reached|] == l.next;
    } else if t == Retry {
      assert m.reached + m.queue == all;
    } else {
      assert m.reached + m.queue == all + [l.next];
    }
  }

  lemma {:induction false} JumpedStays(l: Line, turns: seq<Turn>)
    requires Jumped(l) && CanServeAll(l, turns)
    ensures Jumped(ServedAll(l, turns))
    decreases |turns|
  {
    if turns != [] {
      var i :| 0 <= i < |l.reached| && l.reached[i] != i;
      assert Served(l, turns[0]).reached[i] == l.reached[i];
      JumpedStays(Served(l, turns[0]), turns[1..]);
    }
  }

  lemma JumpedIsOut(l: Line)
    requires Jumped(l)
    ensures !InOrder(l)
  {
    var i :| 0 <= i < |l.reached| && l.reached[i] != i;
    assert (l.reached + l.queue)[i] == l.reached[i];
  }

  /** Over every run a broker's payloads keep the order of their submission exactly if none overtakes. */
  lemma {:induction false} SubmissionOrder(l: Line, turns: seq<Turn>)
    requires InOrder(l) && CanServeAll(l, turns)
    ensures InOrder(ServedAll(l, turns)) <==> !Overtakes(l, turns)
    decreases |turns|
  {
    hide InOrder, Jumped, Served;
    if turns != [] {
      InOrderStep(l, turns[0]);
      if turns[0] == Direct && l.queue != [] {
        JumpedStays(Served(l, turns[0]), turns[1..]);
        JumpedIsOut(ServedAll(l, turns));
      } else {
        SubmissionOrder(Served(l, turns[0]), turns[1..]);
      }
    }
  }

  function LineOf(lines: map<nat, Line>, bid: nat): Line {
    if bid in lines then lines[bid] else NoLine
  }

  // ---------- The queues ----------

  class WebServer {
    var payloads: map<nat, seq<seq<byte>>>
    ghost var ledgers: map<nat, Ledger>

    ghost predicate Holds(bid: nat)
      reads this
    {
      Settled(LedgerOf(ledgers, bid), Queue(payloads, bid))
    }

    ghost predicate Valid()
      reads this
    {
      forall bid: nat :: Holds(bid)
    }

    constructor ()
      ensures Valid() && payloads == map[] && ledgers == map[]
    {
      payloads, ledgers := map[], map[];
    }

    /** The "unavailable" event. */
    method Unavailable(bid: nat, payload: seq<byte>)
      requires Valid() && payload != []
      modifies this
      ensures Valid()
      ensures payloads == After(old(payloads), Refused(bid, payload))
      ensures ledgers == old(ledgers)[bid := old(LedgerOf(ledgers, bid)).(refused := old(LedgerOf(ledgers, bid)).refused + [payload])]
    {
      assert Holds(bid);
      if bid in payloads {
        payloads := payloads[bid := payloads[bid] + [payload]];
      } else {
        payloads := payloads[bid := []];
        payloads := payloads[bid := payloads[bid] + [payload]];
      }
      ghost var l := LedgerOf(ledgers, bid);
      Assoc(l.retried, old(Queue(payloads, bid)), [payload]);
      ledgers := ledgers[bid := l.(refused := l.refused + [payload])];
      forall other ensures Holds(other) {
        assert old(Holds(other));
      }
    }

    method Pop(bid: nat)
      requires Valid() && Queue(payloads, bid) != []
      modifies this
      ensures Valid()
      ensures payloads == After(old(payloads), Retried(bid))
      ensures ledgers == old(ledgers)[bid := old(LedgerOf(ledgers, bid)).(retried := old(LedgerOf(ledgers, bid)).retried + [old(Queue(payloads, bid))[0]])]
    {
      assert Holds(bid);
      ghost var l, q := LedgerOf(ledgers, bid), Queue(payloads, bid);
      assert l.retried + q == l.retried + [q[0]] + q[1..];
      payloads := payloads[bid := payloads[bid][1..]];
      ledgers := ledgers[bid := l.(retried := l.retried + [q[0]])];
      forall other ensures Holds(other) {
        assert old(Holds(other));
      }
    }

    /** The "available" event: the first queued payload is sent again if it fits the reported
        size.  A refusal raises "unavailable" before `send` returns, so the payload is then
        queued a second time; a reported size that is what the node has free excludes that. */
    method Available(bid: nat, size: nat, core: Node) returns (sent: bool)
      requires Valid() && core.Valid()
      modifies this, core
      ensures Valid() && core.Valid() && core.brokers == old(core.brokers)
      ensures var q := old(Queue(payloads, bid));
        && (sent <==> q != [] && |q[0]| <= size && bid in core.brokers && |q[0]| <= old(core.Free(bid)))
        && (sent ==> payloads == old(payloads)[bid := q[1..]])
        && (sent ==> ledgers == old(ledgers)[bid := old(LedgerOf(ledgers, bid)).(retried := old(LedgerOf(ledgers, bid)).retried + [q[0]])])
        && (sent ==> PastOf(core.past, bid).accepted == old(PastOf(core.past, bid)).accepted + q[0])
        && (!sent ==> core.payloads == old(core.payloads) && core.past == old(core.past) && core.memory == old(core.memory))
        && (!sent && q != [] && |q[0]| <= size && bid in core.brokers ==> payloads == old(payloads)[bid := q + [q[0]]])
        && (!sent && !(q != [] && |q[0]| <= size && bid in core.brokers) ==> payloads == old(payloads) && ledgers == old(ledgers))
    {
      assert Holds(bid);
      sent := false;
      if bid in payloads && payloads[bid] != [] {
        var front := payloads[bid][0];
        if |front| <= size {
          var refused;
          sent, refused := core.Send(front, bid);
          if refused {
            Unavailable(bid, front);
          }
          if sent {
            Pop(bid);
          }
        }
      }
    }
  }

  /** The numbered lines have the lengths of the queues. */
  ghost predicate Numbered(lines: map<nat, Line>, queues: map<nat, seq<seq<byte>>>) {
    forall bid: nat :: |LineOf(lines, bid).queue| == |Queue(queues, bid)|
  }

  lemma NumberedNext(lines: map<nat, Line>, queues: map<nat, seq<seq<byte>>>, bid: nat, t: Turn, q: seq<seq<byte>>)
    requires Numbered(lines, queues) && CanServe(LineOf(lines, bid), t)
    requires |q| == |Queue(queues, bid)| + (match t case Direct => 0 case Refusal => 1 case Retry => -1)
    ensures Numbered(lines[bid := Served(LineOf(lines, bid), t)], queues[bid := q])
    ensures t == Direct ==> Numbered(lines[bid := Served(LineOf(lines, bid), t)], queues)
  {
    var next := lines[bid := Served(LineOf(lines, bid), t)];
    QueueLength(lines, queues, bid);
    forall other: nat
      ensures |LineOf(next, other).queue| == |Queue(queues[bid := q], other)|
      ensures t == Direct ==> |LineOf(next, other).queue| == |Queue(queues, other)|
    {
      QueueLength(lines, queues, other);
    }
  }

  /** The server program: the node raises its events at the queues. */
  class Program {
    const core: Node
    const web: WebServer
    ghost var lines: map<nat, Line>

    ghost predicate Valid()
      reads this, core, web
    {
      core.Valid() && web.Valid() && Numbered(lines, web.payloads)
    }

    constructor (brokerSize: nat, memory: nat)
      ensures Valid() && fresh(core) && fresh(web) && core.brokers == {} && web.payloads == map[] && lines == map[]
    {
      core := new Node(brokerSize, memory);
      web := new WebServer();
      lines := map[];
    }

    /** The application sends: the payload is accepted, or refused and queued once.  It overtakes the queued
        payloads of its broker when it fits and there are any. */
    method Submit(bid: nat, payload: seq<byte>)
      requires Valid() && bid in core.brokers && payload != []
      modifies this, core, web
      ensures Valid() && core.brokers == old(core.brokers)
      ensures if |payload| <= old(core.Free(bid)) then
          PastOf(core.past, bid).accepted == old(PastOf(core.past, bid)).accepted + payload && web.payloads == old(web.payloads)
        else
          core.past == old(core.past) && web.payloads == old(web.payloads)[bid := old(Queue(web.payloads, bid)) + [payload]]
      ensures lines == old(lines)[bid := Served(LineOf(old(lines), bid), if |payload| <= old(core.Free(bid)) then Direct else Refusal)]
    {
      var result, refused := core.Send(payload, bid);
      ghost var t := if refused then Refusal else Direct;
      NumberedNext(lines, web.payloads, bid, t, Queue(web.payloads, bid) + if refused then [payload] else []);
      hide Numbered, Served;
      lines := lines[bid := Served(LineOf(lines, bid), t)];
      if refused {
        web.Unavailable(bid, payload);
      }
    }

    /** Room is reported to the queues. */
    method Report(bid: nat, size: nat) returns (sent: bool)
      requires core.Valid() && web.Valid() && bid in core.brokers && size <= |Stored(core.payloads, bid)|
      modifies core, web
      ensures core.Valid() && web.Valid() && core.brokers == old(core.brokers)
      ensures var q := old(Queue(web.payloads, bid));
        && (sent ==> q != [] && web.payloads == old(web.payloads)[bid := q[1..]])
        && (sent ==> PastOf(core.past, bid).accepted == old(PastOf(core.past, bid)).accepted + q[0])
        && (!sent ==> web.payloads == old(web.payloads) && web.ledgers == old(web.ledgers))
        && (!sent ==> (q == [] || |q[0]| > core.Free(bid)) && PastOf(core.past, bid).accepted == old(PastOf(core.past, bid)).accepted)
      ensures LedgerOf(web.ledgers, bid).refused == old(LedgerOf(web.ledgers, bid)).refused
    {
      var reported := core.Erase(bid, size);
      sent := web.Available(bid, reported, core);
    }

    /** The socket took bytes: room is reported, and the first queued payload goes out exactly
        when it fits.  Nothing is refused again, and no other broker's queue is touched. */
    method Written(bid: nat, size: nat) returns (sent: bool)
      requires Valid() && bid in core.brokers && size <= |Stored(core.payloads, bid)|
      modifies this, core, web
      ensures Valid() && core.brokers == old(core.brokers)
      ensures var q := old(Queue(web.payloads, bid));
        && (sent ==> q != [] && web.payloads == old(web.payloads)[bid := q[1..]])
        && (sent ==> PastOf(core.past, bid).accepted == old(PastOf(core.past, bid)).accepted + q[0])
        && (!sent ==> web.payloads == old(web.payloads) && web.ledgers == old(web.ledgers))
        && (!sent ==> (q == [] || |q[0]| > core.Free(bid)) && PastOf(core.past, bid).accepted == old(PastOf(core.past, bid)).accepted)
      ensures LedgerOf(web.ledgers, bid).refused == old(LedgerOf(web.ledgers, bid)).refused
      ensures forall other :: other != bid ==> Queue(web.payloads, other) == old(Queue(web.payloads, other))
      ensures sent ==> LineOf(old(lines), bid).queue != [] && lines == old(lines)[bid := Served(LineOf(old(lines), bid), Retry)]
      ensures !sent ==> lines == old(lines)
    {
      ghost var q := Queue(web.payloads, bid);
      QueueLength(lines, web.payloads, bid);
      if q != [] {
        NumberedNext(lines, web.payloads, bid, Retry, q[1..]);
      }
      hide Numbered, Served, LedgerOf, PastOf;
      sent := Report(bid, size);
      if sent {
        lines := lines[bid := Served(LineOf(lines, bid), Retry)];
      }
    }
  }

  lemma QueueLength(lines: map<nat, Line>, queues: map<nat, seq<seq<byte>>>, bid: nat)
    requires Numbered(lines, queues)
    ensures |LineOf(lines, bid).queue| == |Queue(queues, bid)|
  {
  }
}
