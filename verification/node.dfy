/** The node: payloads waiting to be written, under a budget per broker and one for all. */
module NodeCore {
  import opened Numerals

  function Stored(payloads: map<nat, seq<byte>>, bid: nat): seq<byte> {
    if bid in payloads then payloads[bid] else []
  }

  function Amount(available: map<nat, nat>, bid: nat): nat {
    if bid in available then available[bid] else 0
  }

  function Min(a: nat, b: nat): nat {
    if a < b then a else b
  }

  /** All bytes stored for a set of brokers. */
  ghost function Total(payloads: map<nat, seq<byte>>, brokers: set<nat>): nat
    decreases brokers
  {
    if brokers == {} then 0
    else
      var bid :| bid in brokers;
      |Stored(payloads, bid)| + Total(payloads, brokers - {bid})
  }

  lemma {:induction false} TotalSplit(payloads: map<nat, seq<byte>>, brokers: set<nat>, bid: nat)
    requires bid in brokers
    ensures Total(payloads, brokers) == |Stored(payloads, bid)| + Total(payloads, brokers - {bid})
    decreases brokers
  {
    var first :| first in brokers && Total(payloads, brokers) == |Stored(payloads, first)| + Total(payloads, brokers - {first});
    if first != bid {
      TotalSplit(payloads, brokers - {first}, bid);
      assert brokers - {first} - {bid} == brokers - {bid} - {first};
      TotalSplit(payloads, brokers - {bid}, first);
    }
  }

  lemma {:induction false} TotalSame(p: map<nat, seq<byte>>, q: map<nat, seq<byte>>, brokers: set<nat>)
    requires forall bid :: bid in brokers ==> |Stored(p, bid)| == |Stored(q, bid)|
    ensures Total(p, brokers) == Total(q, brokers)
    decreases brokers
  {
    if brokers != {} {
      var bid :| bid in brokers;
      TotalSplit(p, brokers, bid);
      TotalSplit(q, brokers, bid);
      TotalSame(p, q, brokers - {bid});
    }
  }

  /** One broker's store changes. */
  lemma TotalUpdate(p: map<nat, seq<byte>>, q: map<nat, seq<byte>>, brokers: set<nat>, bid: nat)
    requires bid in brokers && forall other :: other in brokers && other != bid ==> Stored(p, other) == Stored(q, other)
    ensures Total(q, brokers) == Total(p, brokers) - |Stored(p, bid)| + |Stored(q, bid)|
  {
    TotalSplit(p, brokers, bid);
    TotalSplit(q, brokers, bid);
    TotalSame(p, q, brokers - {bid});
  }

  /** What a broker's connection accepted and wrote so far. */
  datatype Past = Past(accepted: seq<byte>, written: seq<byte>)

  function PastOf(past: map<nat, Past>, bid: nat): Past {
    if bid in past then past[bid] else Past([], [])
  }

  /** A broker's account: its counter is the length of its store, within its allowance, and
      what it wrote and what it stores make up what it accepted. */
  predicate Balanced(stored: seq<byte>, amount: nat, past: Past, brokerSize: nat) {
    |stored| == amount <= brokerSize && past.written + stored == past.accepted
  }

  lemma Forgets<T>(m: map<nat, T>, bid: nat, x: T)
    ensures m[bid := x] - {bid} == m - {bid}
    ensures m - {bid} - {bid} == m - {bid}
  {
  }

  class Node {
    const brokerSize: nat
    /** The memory budget the node started with. */
    ghost const budget: nat
    var memory: nat
    var brokers: set<nat>
    var available: map<nat, nat>
    var payloads: map<nat, seq<byte>>
    ghost var past: map<nat, Past>
    /** Bytes that were stored for brokers when these were removed. */
    ghost var lost: nat

    ghost predicate Holds(bid: nat)
      reads this
    {
      Balanced(Stored(payloads, bid), Amount(available, bid), PastOf(past, bid), brokerSize)
    }

    /** Only `bid` changed, so only `bid` needs a look. */
    twostate lemma OthersHold(bid: nat)
      requires old(Valid()) && brokers <= old(brokers) && (bid in brokers ==> Holds(bid))
      requires payloads - {bid} == old(payloads) - {bid} && available - {bid} == old(available) - {bid} && past - {bid} == old(past) - {bid}
      ensures forall other :: other in brokers ==> Holds(other)
      ensures forall other :: other != bid ==> Stored(payloads, other) == old(Stored(payloads, other))
    {
      hide Balanced, Total;
      forall other | other != bid
        ensures other in brokers ==> Holds(other)
        ensures Stored(payloads, other) == old(Stored(payloads, other))
      {
        assert other in brokers ==> old(Holds(other));
        assert other in payloads <==> other in payloads - {bid};
        assert other in old(payloads) <==> other in old(payloads) - {bid};
        assert other in available <==> other in available - {bid};
        assert other in old(available) <==> other in old(available) - {bid};
        assert other in past <==> other in past - {bid};
        assert other in old(past) <==> other in old(past) - {bid};
      }
    }

    ghost predicate Valid()
      reads this
    {
      && 0 !in brokers && payloads.Keys <= brokers && available.Keys <= brokers
      && (forall bid :: bid in brokers ==> Holds(bid))
      && memory + Total(payloads, brokers) + lost == budget
    }

    constructor (brokerSize: nat, memory: nat)
      ensures Valid() && brokers == {} && lost == 0 && budget == memory == this.memory && this.brokerSize == brokerSize
    {
      this.brokerSize, this.budget, this.memory := brokerSize, memory, memory;
      brokers, available, payloads, past, lost := {}, map[], map[], map[], 0;
    }

    /** The size an "available" event reports: what a `send` may take now. */
    ghost function Free(bid: nat): nat
      reads this
      requires Valid()
    {
      if bid in brokers then
        assert Holds(bid);
        Min(brokerSize - |Stored(payloads, bid)|, memory)
      else Min(brokerSize, memory)
    }

    method Connect(bid: nat)
      requires Valid() && bid > 0 && bid !in brokers
      modifies this
      ensures Valid() && brokers == old(brokers) + {bid} && payloads == old(payloads) && memory == old(memory)
      ensures past == old(past) - {bid} && lost == old(lost) && available == old(available)
    {
      brokers := brokers + {bid};
      past := past - {bid};
      assert brokers - {bid} == old(brokers);
      TotalSplit(payloads, brokers, bid);
      forall other | other in brokers ensures Holds(other) {
        if other != bid {
          assert old(Holds(other));
        }
      }
    }

    /** Buffers an accepted payload. */
    method Store(payload: seq<byte>, bid: nat)
      requires Valid() && bid in brokers && payload != [] && |payload| <= Free(bid)
      modifies this
      ensures Valid() && brokers == old(brokers) && lost == old(lost)
      ensures payloads == old(payloads)[bid := old(Stored(payloads, bid)) + payload] && memory == old(memory) - |payload|
      ensures past == old(past)[bid := old(PastOf(past, bid)).(accepted := old(PastOf(past, bid)).accepted + payload)]
    {
      assert Holds(bid);
      ghost var p := PastOf(past, bid);
      Assoc(p.written, Stored(payloads, bid), payload);
      Forgets(payloads, bid, Stored(payloads, bid) + payload);
      Forgets(available, bid, Amount(available, bid) + |payload|);
      Forgets(past, bid, p.(accepted := p.accepted + payload));
      payloads := payloads[bid := Stored(payloads, bid) + payload];
      memory := memory - |payload|;
      available := available[bid := Amount(available, bid) + |payload|];
      past := past[bid := p.(accepted := p.accepted + payload)];
      assert Holds(bid);
      OthersHold(bid);
      TotalUpdate(old(payloads), payloads, brokers, bid);
    }

    /** `refused` says that the "unavailable" event is raised with the payload. */
    method Send(payload: seq<byte>, bid: nat) returns (result: bool, refused: bool)
      requires Valid()
      modifies this
      ensures Valid() && brokers == old(brokers) && lost == old(lost)
      ensures result <==> bid in brokers && payload != [] && |payload| <= old(Free(bid))
      ensures refused <==> bid in brokers && payload != [] && |payload| > old(Free(bid))
      ensures result ==>
        payloads == old(payloads)[bid := old(Stored(payloads, bid)) + payload] && memory == old(memory) - |payload| &&
        past == old(past)[bid := old(PastOf(past, bid)).(accepted := old(PastOf(past, bid)).accepted + payload)]
      ensures !result ==> payloads == old(payloads) && memory == old(memory) && past == old(past) && available == old(available)
    {
      result, refused := false, false;
      if bid > 0 && bid in brokers && payload != [] {
        assert Holds(bid);
        if bid in available {
          refused := brokerSize < available[bid] || Min(brokerSize - available[bid], memory) < |payload|;
        } else {
          refused := Min(brokerSize, memory) < |payload|;
        }
        result := !refused;
        hide Balanced, Total;
        if result {
          Store(payload, bid);
        }
      }
    }

    /** Takes the first bytes out of a broker's store; answers what stays counted.  Only
        brokers that are present have a store, so its removal for an absent one never runs. */
    method TakeOut(bid: nat, size: nat) returns (amount: nat)
      requires Valid() && bid in brokers && bid in payloads && size <= |payloads[bid]|
      modifies `memory, `available, `payloads
      ensures memory == old(memory) + size && payloads - {bid} == old(payloads) - {bid} && available - {bid} == old(available) - {bid}
      ensures payloads.Keys <= old(payloads.Keys) && available.Keys == old(available.Keys)
      ensures Stored(payloads, bid) == old(Stored(payloads, bid))[size..]
      ensures amount == Amount(available, bid) == old(Amount(available, bid)) - size
    {
      assert Holds(bid);
      amount := 0;
      memory := memory + size;
      if bid in available {
        Forgets(available, bid, available[bid] - size);
        available := available[bid := available[bid] - size];
        amount := available[bid];
      }
      Forgets(payloads, bid, payloads[bid][size..]);
      payloads := payloads[bid := payloads[bid][size..]];
      if payloads[bid] == [] {
        payloads := payloads - {bid};
      }
    }

    /** The socket took the first `size` bytes; answers the size reported as available. */
    method Erase(bid: nat, size: nat) returns (reported: nat)
      requires Valid() && bid in brokers && size <= |Stored(payloads, bid)|
      modifies this
      ensures Valid() && brokers == old(brokers) && lost == old(lost)
      ensures reported == Free(bid)
      ensures Stored(payloads, bid) == old(Stored(payloads, bid))[size..] && memory == old(memory) + size
      ensures past == old(past)[bid := old(PastOf(past, bid)).(written := old(PastOf(past, bid)).written + old(Stored(payloads, bid))[..size])]
      ensures forall other :: other != bid ==> Stored(payloads, other) == old(Stored(payloads, other))
    {
      hide Total;
      assert Holds(bid);
      ghost var stored, p := Stored(payloads, bid), PastOf(past, bid);
      var amount := 0;
      if bid in payloads && payloads[bid] != [] {
        amount := TakeOut(bid, size);
      }
      assert p.written + stored[..size] + stored[size..] == p.written + stored;
      Forgets(past, bid, p.(written := p.written + stored[..size]));
      past := past[bid := p.(written := p.written + stored[..size])];
      assert Holds(bid);
      OthersHold(bid);
      TotalUpdate(old(payloads), payloads, brokers, bid);
      reported := 0;
      if amount <= brokerSize {
        reported := Min(brokerSize - amount, memory);
      }
    }

    /** The broker's stored bytes go, but the memory they took is not given back. */
    method Remove(bid: nat)
      requires Valid()
      modifies this
      ensures Valid() && brokers == old(brokers) - {bid} && memory == old(memory) && past == old(past)
      ensures lost == old(lost) + (if bid in old(brokers) then |old(Stored(payloads, bid))| else 0)
      ensures forall other :: other != bid ==> Stored(payloads, other) == old(Stored(payloads, other))
    {
      hide Total;
      if bid > 0 && bid in brokers {
        TotalSplit(payloads, brokers, bid);
        lost := lost + |Stored(payloads, bid)|;
        payloads := payloads - {bid};
        available := available - {bid};
        brokers := brokers - {bid};
        OthersHold(bid);
        TotalSame(old(payloads), payloads, brokers);
      }
    }
  }

  /** In every reachable state: a broker's stored and free bytes make up its allowance, all
      stored bytes stay within the budget, and a broker's written and stored bytes are the
      accepted ones in order.  Stored and free memory make up the budget exactly when no
      broker was removed with bytes still stored. */
  lemma Budgets(n: Node, bid: nat)
    requires n.Valid()
    ensures Total(n.payloads, n.brokers) <= n.budget
    ensures n.memory + Total(n.payloads, n.brokers) == n.budget <==> n.lost == 0
    ensures bid in n.brokers ==>
      |Stored(n.payloads, bid)| + (n.brokerSize - Amount(n.available, bid)) == n.brokerSize
      && PastOf(n.past, bid).written + Stored(n.payloads, bid) == PastOf(n.past, bid).accepted
  {
    if bid in n.brokers {
      assert n.Holds(bid);
    }
  }
}
