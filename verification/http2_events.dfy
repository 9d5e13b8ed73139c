/** The event of an HTTP/2 object, and the function its callers leave behind under id 1. */
module Http2Events {

  datatype Event = NONE | SEND_PUSH | SEND_PING | SEND_DATA | RECV_FRAME | SEND_ALTSVC | SEND_GOAWAY
    | SEND_ORIGIN | SEND_REJECT | SEND_HEADERS | SEND_TRAILERS | SEND_SHUTDOWN

  /** A kept function; registrations are numbered in order. */
  datatype Trigger = Free | Kept(id: nat)

  /** What became of a registration: it waits, it was called so often, another one replaced it before it was called,
      or it was forgotten without a call. */
  datatype Status = Waiting | Called(times: nat) | Replaced | Forgotten

  /**
   * The fields, and what happened: the operations in progress (innermost last), how many of them were in progress
   * at each call of a kept function that has not returned (innermost last), what became of each registration, and
   * the number of calls made while an operation was in progress.
   */
  datatype Gate = Gate(event: Event, trigger: Trigger, closing: bool, session: bool,
                       active: seq<Event>, inside: seq<nat>, fates: seq<Status>, during: nat)

  const Idle := Gate(NONE, Free, false, true, [], [], [], 0)

  function Last<T>(s: seq<T>): T
    requires s != []
  {
    s[|s| - 1]
  }

  function Init<T>(s: seq<T>): seq<T>
    requires s != []
  {
    s[..|s| - 1]
  }

  // ---------- The operations ----------

  /** Every public operation starts by naming its event. */
  function Begin(g: Gate, e: Event): Gate {
    g.(event := e, active := g.active + [e])
  }

  /** `commit` names the event of the operation in progress again. */
  function Commit(g: Gate): Gate
    requires g.active != []
  {
    g.(event := Last(g.active))
  }

  function Close(g: Gate): Gate {
    if g.event != NONE then g.(closing := true) else g.(closing := false, session := false)
  }

  function Again(s: Status): Status {
    if s.Called? then Called(s.times + 1) else Called(1)
  }

  /** A registration's fate once it is no longer kept. */
  function Unkept(g: Gate, fate: Status): seq<Status> {
    if g.trigger.Kept? && g.trigger.id < |g.fates| && g.fates[g.trigger.id] == Waiting then g.fates[g.trigger.id := fate]
    else g.fates
  }

  /** `on` with id 1: at once when no event is set, otherwise kept, in place of an earlier one. */
  function On(g: Gate): Gate {
    if g.event == NONE then g.(fates := g.fates + [Called(1)], during := g.during + if g.active != [] then 1 else 0)
    else g.(trigger := Kept(|g.fates|), fates := Unkept(g, Replaced) + [Waiting])
  }

  /** `completed` up to the call of the kept function, which is one of those registered; without one it goes on to
      its end. */
  function Complete(g: Gate): Gate
    requires g.active != []
  {
    var r := g.(active := Init(g.active));
    if Last(g.active) != g.event then r
    else if g.trigger == Free || g.trigger.id >= |g.fates| then
      if r.closing then Close(r.(event := NONE)) else r.(event := NONE)
    else
      r.(event := NONE, inside := r.inside + [|r.active|], during := r.during + (if r.active != [] then 1 else 0),
         fates := r.fates[r.trigger.id := Again(r.fates[r.trigger.id])])
  }

  /** `completed` behind that call: whatever is kept is forgotten, a close is made good. */
  function Return(g: Gate): Gate
    requires g.inside != []
  {
    var r := g.(trigger := Free, inside := Init(g.inside), fates := Unkept(g, Forgotten));
    if r.closing then Close(r) else r
  }

  // ---------- Runs ----------

  datatype Step = DoBegin(e: Event) | DoCommit | DoOn | DoClose | DoComplete | DoReturn

  /** The operations that began since the innermost call of a kept function. */
  function Own(g: Gate): int {
    |g.active| - (if g.inside == [] then 0 else Last(g.inside))
  }

  /** What one thread does: operations and calls end in the order opposite to that of their beginning. */
  predicate Possible(g: Gate, s: Step) {
    match s
    case DoBegin(e) => e != NONE
    case DoCommit | DoComplete => Own(g) > 0 && g.active != []
    case DoReturn => g.inside != [] && Own(g) == 0
    case _ => true
  }

  function Next(g: Gate, s: Step): Gate
    requires Possible(g, s)
  {
    match s
    case DoBegin(e) => Begin(g, e)
    case DoCommit => Commit(g)
    case DoOn => On(g)
    case DoClose => Close(g)
    case DoComplete => Complete(g)
    case DoReturn => Return(g)
  }

  predicate PossibleRun(g: Gate, steps: seq<Step>)
    decreases |steps|
  {
    steps == [] || (Possible(g, steps[0]) && PossibleRun(Next(g, steps[0]), steps[1..]))
  }

  function Run(g: Gate, steps: seq<Step>): Gate
    requires PossibleRun(g, steps)
    decreases |steps|
  {
    if steps == [] then g else Run(Next(g, steps[0]), steps[1..])
  }

  /** A condition on the steps of a run, each in the state it is taken in. */
  predicate Some(g: Gate, steps: seq<Step>, bad: (Gate, Step) -> bool)
    requires PossibleRun(g, steps)
    decreases |steps|
  {
    steps != [] && (bad(g, steps[0]) || Some(Next(g, steps[0]), steps[1..], bad))
  }

  /** The completion of an operation whose event is still the one named last. */
  predicate Matches(g: Gate, s: Step) {
    s == DoComplete && g.active != [] && Last(g.active) == g.event
  }

  // ---------- No function runs during an operation ----------

  predicate Calm(g: Gate) {
    g.during == 0
  }

  /** A registration while an outer operation goes on whose event an inner one ended; or the completion of a
      nested operation with a function kept. */
  predicate Disturbs(g: Gate, s: Step) {
    || (s == DoOn && g.event == NONE && g.active != [])
    || (Matches(g, s) && |g.active| >= 2 && g.trigger.Kept?)
  }

  lemma CalmStep(g: Gate, s: Step)
    requires Sound(g) && Possible(g, s)
    ensures Calm(Next(g, s)) <==> Calm(g) && !Disturbs(g, s)
  {
  }

  /** Over every run, functions kept out of operations exactly if no step is one of those two. */
  lemma {:induction false} CalmRuns(g: Gate, steps: seq<Step>)
    requires Sound(g) && PossibleRun(g, steps)
    ensures Calm(Run(g, steps)) <==> Calm(g) && !Some(g, steps, Disturbs)
    decreases |steps|
  {
    hide Next, Calm, Disturbs, Possible, Accounted, Framed;
    if steps != [] {
      FramedStep(g, steps[0]);
      AccountedStep(g, steps[0]);
      CalmStep(g, steps[0]);
      CalmRuns(Next(g, steps[0]), steps[1..]);
    }
  }

  /** An operation that begins inside another. */
  predicate Nests(g: Gate, s: Step) {
    s.DoBegin? && g.active != []
  }

  /** One operation at most, and its event is the one named. */
  predicate Flat(g: Gate) {
    |g.active| <= 1 && (g.active != [] ==> g.event == Last(g.active) != NONE)
  }

  lemma FlatStep(g: Gate, s: Step)
    requires Flat(g) && Possible(g, s) && !Nests(g, s)
    ensures !Disturbs(g, s) && Flat(Next(g, s))
  {
  }

  lemma {:induction false} FlatRuns(g: Gate, steps: seq<Step>)
    requires Flat(g) && PossibleRun(g, steps) && !Some(g, steps, Nests)
    ensures !Some(g, steps, Disturbs)
    decreases |steps|
  {
    hide Next, Flat, Nests, Disturbs, Possible;
    if steps != [] {
      FlatStep(g, steps[0]);
      FlatRuns(Next(g, steps[0]), steps[1..]);
    }
  }

  /** As long as no operation begins inside another, no function runs during an operation, whatever kept functions
      start. */
  lemma UnnestedCalm(steps: seq<Step>)
    requires PossibleRun(Idle, steps) && !Some(Idle, steps, Nests)
    ensures Calm(Run(Idle, steps))
  {
    FlatRuns(Idle, steps);
    CalmRuns(Idle, steps);
  }

  // ---------- Each registration runs once ----------

  /** The kept function waits or was called; what waits is kept. */
  predicate Accounted(g: Gate) {
    && (g.trigger.Kept? ==> g.trigger.id < |g.fates| && (g.fates[g.trigger.id] == Waiting || g.fates[g.trigger.id].Called?))
    && (forall n :: 0 <= n < |g.fates| && g.fates[n] == Waiting ==> g.trigger == Kept(n))
    && (forall n :: 0 <= n < |g.fates| && g.fates[n].Called? ==> g.fates[n].times > 0)
  }

  /** The kept function has been called. */
  predicate Spent(g: Gate) {
    g.trigger.Kept? && g.trigger.id < |g.fates| && g.fates[g.trigger.id].Called?
  }

  /** Outside of calls what is kept was not called and is kept under an event; and the event is that of the innermost
      operation, if one is named at all. */
  predicate Framed(g: Gate) {
    && (g.inside == [] ==> !Spent(g))
    && (g.event != NONE ==> g.active != [] && g.event == Last(g.active))
    && (g.event == NONE && g.inside == [] ==> g.trigger == Free)
    && (forall i :: 0 <= i < |g.active| ==> g.active[i] != NONE)
  }

  predicate Sound(g: Gate) {
    Accounted(g) && Framed(g)
  }

  /** Each registration has been called once, replaced before that, or is still kept and not called. */
  predicate Conserved(g: Gate) {
    forall n :: 0 <= n < |g.fates| ==> g.fates[n] == Called(1) || g.fates[n] == Replaced || g.fates[n] == Waiting
  }

  /** A completion that calls a function whose call has not returned, or the return of a call while a function
      registered meanwhile is kept. */
  predicate Upsets(g: Gate, s: Step) {
    || (Matches(g, s) && Spent(g))
    || (s == DoReturn && g.trigger.Kept? && !Spent(g))
  }

  lemma FramedStep(g: Gate, s: Step)
    requires Sound(g) && Possible(g, s)
    ensures Framed(Next(g, s))
  {
  }

  lemma AccountedOn(g: Gate)
    requires Accounted(g)
    ensures Accounted(On(g))
  {
  }

  lemma AccountedComplete(g: Gate)
    requires Accounted(g) && g.active != []
    ensures Accounted(Complete(g))
  {
  }

  lemma AccountedReturn(g: Gate)
    requires Accounted(g) && g.inside != []
    ensures Accounted(Return(g))
  {
  }

  lemma AccountedStep(g: Gate, s: Step)
    requires Accounted(g) && Possible(g, s)
    ensures Accounted(Next(g, s))
  {
    hide On, Complete, Return;
    match s
    case DoOn => AccountedOn(g);
    case DoComplete => AccountedComplete(g);
    case DoReturn => AccountedReturn(g);
    case _ =>
  }

  lemma ConservedStep(g: Gate, s: Step)
    requires Accounted(g) && Possible(g, s)
    ensures Conserved(Next(g, s)) <==> Conserved(g) && !Upsets(g, s)
  {
    if n :| 0 <= n < |g.fates| && !(g.fates[n] == Called(1) || g.fates[n] == Replaced || g.fates[n] == Waiting) {
      StaysOdd(g, s, n);
    } else if Upsets(g, s) {
      assert Next(g, s).fates[g.trigger.id] == Forgotten || Next(g, s).fates[g.trigger.id].times > 1;
    }
  }

  lemma StaysOdd(g: Gate, s: Step, n: nat)
    requires Accounted(g) && Possible(g, s) && n < |g.fates|
    requires !(g.fates[n] == Called(1) || g.fates[n] == Replaced || g.fates[n] == Waiting)
    ensures var h := Next(g, s);
            n < |h.fates| && !(h.fates[n] == Called(1) || h.fates[n] == Replaced || h.fates[n] == Waiting)
  {
  }

  lemma {:induction false} ConservedRuns(g: Gate, steps: seq<Step>)
    requires Sound(g) && PossibleRun(g, steps)
    ensures Sound(Run(g, steps))
    ensures Conserved(Run(g, steps)) <==> Conserved(g) && !Some(g, steps, Upsets)
    decreases |steps|
  {
    hide Next, Accounted, Framed, Conserved, Upsets, Possible;
    if steps != [] {
      FramedStep(g, steps[0]);
      AccountedStep(g, steps[0]);
      ConservedStep(g, steps[0]);
      ConservedRuns(Next(g, steps[0]), steps[1..]);
    }
  }

  /** Over every run, with any nesting and re-entrance, registrations are conserved exactly if no step upsets. */
  lemma TriggerConserved(steps: seq<Step>)
    requires PossibleRun(Idle, steps)
    ensures Conserved(Run(Idle, steps)) <==> !Some(Idle, steps, Upsets)
  {
    ConservedRuns(Idle, steps);
  }

  /** A kept function that starts an operation of its own. */
  predicate Reenters(g: Gate, s: Step) {
    s.DoBegin? && g.inside != []
  }

  /** While kept functions start nothing, a call goes on with no event named and no new function kept. */
  predicate Quiet(g: Gate) {
    && (g.inside != [] ==> g.event == NONE && |g.inside| == 1 && Last(g.inside) == |g.active| && Spent(g))
    && (g.inside == [] ==> !Spent(g))
  }

  lemma QuietStep(g: Gate, s: Step)
    requires Accounted(g) && Quiet(g) && Possible(g, s) && !Reenters(g, s)
    ensures !Upsets(g, s) && Quiet(Next(g, s))
  {
  }

  lemma {:induction false} QuietRuns(g: Gate, steps: seq<Step>)
    requires Accounted(g) && Quiet(g) && PossibleRun(g, steps) && !Some(g, steps, Reenters)
    ensures !Some(g, steps, Upsets)
    decreases |steps|
  {
    hide Next, Quiet, Upsets, Reenters, Possible, Accounted;
    if steps != [] {
      AccountedStep(g, steps[0]);
      QuietStep(g, steps[0]);
      QuietRuns(Next(g, steps[0]), steps[1..]);
    }
  }

  /** With operations nested in any way, registrations are conserved as long as kept functions start none. */
  lemma NestedConserved(steps: seq<Step>)
    requires PossibleRun(Idle, steps) && !Some(Idle, steps, Reenters)
    ensures Conserved(Run(Idle, steps))
  {
    hide Conserved;
    QuietRuns(Idle, steps);
    TriggerConserved(steps);
  }

  /** A function kept in a reachable state is called when the innermost operation completes, and nothing is kept
      when no event is named outside of a call. */
  lemma KeptRuns(steps: seq<Step>)
    requires PossibleRun(Idle, steps)
    ensures var g := Run(Idle, steps);
            && (g.event == NONE && g.inside == [] ==> g.trigger == Free)
            && (g.event != NONE && g.trigger.Kept? ==>
                g.active != [] && g.trigger.id < |g.fates| && Complete(g).fates[g.trigger.id] == Again(g.fates[g.trigger.id]))
  {
    ConservedRuns(Idle, steps);
  }

  // ---------- Which registration runs ----------

  function OnTimes(g: Gate, times: nat): Gate
    decreases times
  {
    if times == 0 then g else OnTimes(On(g), times - 1)
  }

  /** Registrations during an operation replace one another. */
  lemma {:induction false} OnTimesKeeps(g: Gate, times: nat, n: nat)
    requires Accounted(g) && g.event != NONE && g.trigger == Kept(n) && n + 1 == |g.fates| && g.fates[n] == Waiting
    ensures var h := OnTimes(g, times);
            && h.event == g.event && h.active == g.active && |h.fates| == |g.fates| + times && h.trigger == Kept(n + times)
            && h.fates[n + times] == Waiting && (times > 0 ==> h.fates[n] == Replaced)
    ensures var h := OnTimes(g, times);
            forall m :: 0 <= m < n ==> h.fates[m] == g.fates[m]
    decreases times
  {
    if times > 0 {
      var next := On(g);
      assert Accounted(next) && next.fates[n] == Replaced;
      OnTimesKeeps(next, times - 1, n + 1);
    }
  }

  /** A function registered while an operation runs is the one called at its end exactly when nothing else was
      registered after it. */
  lemma LastRegistrationRuns(g: Gate, later: nat)
    requires Accounted(g) && g.active != [] && Last(g.active) == g.event != NONE
    ensures var h, n := OnTimes(On(g), later), |g.fates|;
            h.active == g.active && n < |h.fates| && (Complete(h).fates[n] == Called(1) <==> later == 0)
  {
    AccountedStep(g, DoOn);
    OnTimesKeeps(On(g), later, |g.fates|);
  }

  // ---------- What goes wrong ----------

  /** An operation started inside another ends the event of both: the kept function then runs with the outer
      operation still in progress. */
  lemma NestedCompletion(g: Gate, e: Event)
    requires g.active != [] && e != NONE && g.event != NONE
    ensures var h := Complete(Begin(On(g), e));
            h.active == g.active && h.event == NONE && h.fates[|g.fates|] == Called(1) && h.during == g.during + 1
  {
    assert Init(g.active + [e]) == g.active;
  }

  /** The function is called before it is forgotten: if it completes an operation of its own, it is called a
      second time. */
  lemma ReentrantTrigger(g: Gate, e: Event)
    requires Accounted(g) && Matches(g, DoComplete) && g.trigger.Kept? && e != NONE
    ensures var h, id := Complete(Begin(Complete(g), e)), g.trigger.id;
            h.fates[id] == Again(Again(g.fates[id]))
  {
    var r := Complete(g);
    assert Init(r.active + [e]) == r.active;
  }

  // ---------- The object ----------

  class Events {
    var event: Event
    var trigger: Trigger
    var closing: bool
    var session: bool
    ghost var log: Gate

    ghost function Now(): Gate
      reads this
    {
      log.(event := event, trigger := trigger, closing := closing, session := session)
    }

    constructor ()
      ensures Now() == Idle
    {
      event, trigger, closing, session := NONE, Free, false, true;
      log := Idle;
    }

    method StartEvent(e: Event)
      modifies this
      ensures Now() == Begin(old(Now()), e)
    {
      event := e;
      log := Begin(log, e);
    }

    method CommitEvent(e: Event)
      requires Now().active != [] && e == Last(Now().active)
      modifies this
      ensures Now() == Commit(old(Now()))
    {
      event := e;
    }

    /** Answers whether the function runs at once; `id` numbers it among the registrations. */
    method Register(id: nat) returns (atOnce: bool)
      requires id == |Now().fates|
      modifies this
      ensures Now() == On(old(Now())) && (atOnce <==> old(event) == NONE)
    {
      log := On(Now());
      atOnce := event == NONE;
      if !atOnce {
        trigger := Kept(id);
      }
    }

    method CloseSession()
      modifies this
      ensures Now() == Close(old(Now()))
    {
      closing := event != NONE;
      if !closing {
        session := false;
      }
    }

    /** `completed` up to the call: answers the function to be called, if any. */
    method FinishEvent(e: Event) returns (called: Trigger)
      requires Accounted(Now()) && Now().active != [] && e == Last(Now().active)
      modifies this
      ensures Now() == Complete(old(Now()))
      ensures called == if e == old(event) then old(trigger) else Free
    {
      log := Complete(Now());
      called := Free;
      if e == event {
        event := NONE;
        called := trigger;
        if trigger == Free && closing {
          CloseSession();
        }
      }
    }

    /** `completed` behind the call, whatever the function did meanwhile. */
    method Forget()
      requires Now().inside != []
      modifies this
      ensures Now() == Return(old(Now()))
    {
      log := Return(Now());
      trigger := Free;
      if closing {
        CloseSession();
      }
    }
  }
}
