/** The datagram echo pair: a client that waits for each answer, a server that adds ten. */
module Echo {

  const INT_MAX := 0x7FFF_FFFF

  datatype Turn = Sending | Receiving

  /** Both processes' turns and buffers, the datagrams on their way, and what the client has printed. */
  datatype State = State(client: Turn, held: int, server: Turn, answer: int,
                         toServer: seq<int>, toClient: seq<int>, printed: seq<int>)

  datatype Step = ClientSends | ClientReceives | ServerReceives | ServerSends

  const START := State(Sending, 1, Receiving, 0, [], [], [])

  predicate Enabled(s: State, e: Step) {
    match e
    case ClientSends => s.client == Sending
    case ClientReceives => s.client == Receiving && s.toClient != []
    case ServerReceives => s.server == Receiving && s.toServer != []
    case ServerSends => s.server == Sending
  }

  function Next(s: State, e: Step): State
    requires Enabled(s, e)
  {
    match e
    case ClientSends => s.(client := Receiving, toServer := s.toServer + [s.held])
    case ClientReceives =>
      s.(client := Sending, held := s.toClient[0] + 1, toClient := s.toClient[1..], printed := s.printed + [s.toClient[0]])
    case ServerReceives => s.(server := Sending, answer := s.toServer[0] + 10, toServer := s.toServer[1..])
    case ServerSends => s.(server := Receiving, toClient := s.toClient + [s.answer])
  }

  /** The two endless loops over a lossless channel, cut at their system calls and taken in any order. */
  class Pair {
    var client: Turn
    var server: Turn
    var clientBuffer: int
    var serverBuffer: int
    var toServer: seq<int>
    var toClient: seq<int>
    var printed: seq<int>

    ghost function Now(): State
      reads this
    {
      State(client, clientBuffer, server, serverBuffer, toServer, toClient, printed)
    }

    constructor ()
      ensures Now() == START
    {
      client, server := Sending, Receiving;
      clientBuffer, serverBuffer := 1, 0;
      toServer, toClient, printed := [], [], [];
    }

    method ClientSend()
      requires Enabled(Now(), ClientSends)
      modifies this
      ensures Now() == Next(old(Now()), ClientSends)
    {
      toServer := toServer + [clientBuffer];
      client := Receiving;
    }

    method ClientReceive()
      requires Enabled(Now(), ClientReceives)
      modifies this
      ensures Now() == Next(old(Now()), ClientReceives)
    {
      clientBuffer, toClient := toClient[0], toClient[1..];
      printed := printed + [clientBuffer];
      clientBuffer := clientBuffer + 1;
      client := Sending;
    }

    method ServerReceive()
      requires Enabled(Now(), ServerReceives)
      modifies this
      ensures Now() == Next(old(Now()), ServerReceives)
    {
      serverBuffer, toServer := toServer[0], toServer[1..];
      serverBuffer := serverBuffer + 10;
      server := Sending;
    }

    method ServerSend()
      requires Enabled(Now(), ServerSends)
      modifies this
      ensures Now() == Next(old(Now()), ServerSends)
    {
      toClient := toClient + [serverBuffer];
      server := Receiving;
    }
  }

  predicate Possible(s: State, run: seq<Step>)
    decreases |run|
  {
    run == [] || (Enabled(s, run[0]) && Possible(Next(s, run[0]), run[1..]))
  }

  function Run(s: State, run: seq<Step>): State
    requires Possible(s, run)
    decreases |run|
  {
    if run == [] then s else Run(Next(s, run[0]), run[1..])
  }

  /** The server has added to the number of the round under way. */
  predicate Served(s: State) {
    s.server == Sending || s.toClient != []
  }

  /** One of four places holds the turn: client, way there, server, way back. */
  predicate Invariant(s: State) {
    var n := |s.printed|;
    && (forall i :: 0 <= i < n ==> s.printed[i] == 11 * (i + 1))
    && s.held == 11 * n + 1 && s.answer == (if Served(s) then 11 * n + 11 else 11 * n)
    && (s.client == Sending ==> s.server == Receiving && s.toServer == s.toClient == [])
    && (s.client == Receiving ==>
          || (s.toServer == [11 * n + 1] && s.server == Receiving && s.toClient == [])
          || (s.toServer == [] && s.server == Sending && s.toClient == [])
          || (s.toServer == [] && s.server == Receiving && s.toClient == [11 * n + 11]))
  }

  lemma {:induction false} RunInvariant(s: State, run: seq<Step>)
    requires Invariant(s) && Possible(s, run)
    ensures Invariant(Run(s, run))
    decreases |run|
  {
    if run != [] {
      RunInvariant(Next(s, run[0]), run[1..]);
    }
  }

  /** In every run at most one datagram is under way, the client's k-th number is 11 k, and the pair goes on. */
  lemma EchoRuns(run: seq<Step>)
    requires Possible(START, run)
    ensures var s := Run(START, run);
            && |s.toServer| + |s.toClient| <= 1
            && (forall i :: 0 <= i < |s.printed| ==> s.printed[i] == 11 * (i + 1))
            && (exists e :: Enabled(s, e))
            && (forall d, e :: Enabled(s, d) && Enabled(s, e) ==> d == e)
  {
    RunInvariant(START, run);
    var s := Run(START, run);
    var e := if s.client == Sending then ClientSends else if s.toServer != [] then ServerReceives
             else if s.server == Sending then ServerSends else ClientReceives;
    assert Enabled(s, e);
  }

  /** The buffers keep within a 32-bit `int` until the server adds in round 195225787. */
  lemma EchoFits(run: seq<Step>)
    requires Possible(START, run)
    ensures var s := Run(START, run);
            s.held <= INT_MAX && s.answer <= INT_MAX <==>
            |s.printed| < 195225786 || (|s.printed| == 195225786 && !Served(s))
  {
    RunInvariant(START, run);
  }
}
