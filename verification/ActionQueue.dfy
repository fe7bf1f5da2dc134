/**
 The asynchronous action queue (lib/malloy/core/detail/action_queue.hpp) as a
 system of atomic strand handlers.

 A state holds the fields of the queue together with what its executor and its
 actions still owe it. `dispatch` runs a handler at once (`inline`) or posts it.
 */
module ActionQueues {

  datatype Queue<A> = Queue(
    acts: seq<A>,     // m_acts
    running: bool,    // m_running
    busy: bool,       // m_currently_running_act
    execs: nat,       // execute handlers posted and not run
    inFlight: nat,    // started actions whose callback has not been called
    pushed: seq<A>,   // all actions, in the order of their push handlers
    started: seq<A>)  // all actions invoked, in order

  /** A queue as constructed: nothing runs. */
  function Constructed<A>(): Queue<A> {
    Queue([], false, false, 0, 0, [], [])
  }

  /** The handler `exe_next` dispatches. */
  function Execute<A>(q: Queue<A>): Queue<A> {
    if q.acts != [] then
      q.(acts := q.acts[1..], inFlight := q.inFlight + 1, started := q.started + [q.acts[0]])
    else q.(busy := false)
  }

  function ExeNext<A>(q: Queue<A>, inline: bool): Queue<A> {
    var r := q.(busy := true);
    if inline then Execute(r) else r.(execs := r.execs + 1)
  }

  function Run<A>(q: Queue<A>, inline: bool): Queue<A> {
    ExeNext(q.(running := true), inline)
  }

  /** The handler `push` dispatches. */
  function PushHandler<A>(q: Queue<A>, act: A, inline: bool): Queue<A> {
    var r := q.(acts := q.acts + [act], pushed := q.pushed + [act]);
    if !r.busy then Run(r, inline) else r
  }

  /** The callback handed to an action. */
  function Callback<A>(q: Queue<A>, inline: bool): Queue<A>
    requires q.inFlight > 0
  {
    var r := q.(inFlight := q.inFlight - 1);
    if r.acts != [] then ExeNext(r, inline) else r.(busy := false)
  }

  // ----- Runs --------------------------------------------------------------------

  datatype Event<A> = Push(act: A, inline: bool) | Exec | Done(inline: bool)

  predicate Enabled<A>(q: Queue<A>, e: Event<A>) {
    match e
    case Push(_, _) => true
    case Exec => q.execs > 0
    case Done(_) => q.inFlight > 0
  }

  function Step<A>(q: Queue<A>, e: Event<A>): Queue<A>
    requires Enabled(q, e)
  {
    match e
    case Push(act, inline) => PushHandler(q, act, inline)
    case Exec => Execute(q.(execs := q.execs - 1))
    case Done(inline) => Callback(q, inline)
  }

  predicate CanRun<A>(q: Queue<A>, events: seq<Event<A>>)
    decreases |events|
  {
    events == [] || (Enabled(q, events[0]) && CanRun(Step(q, events[0]), events[1..]))
  }

  function After<A>(q: Queue<A>, events: seq<Event<A>>): Queue<A>
    requires CanRun(q, events)
    decreases |events|
  {
    if events == [] then q else After(Step(q, events[0]), events[1..])
  }

  /** Running a dispatched handler inline is posting it and running it next. */
  lemma InlineIsImmediate<A>(q: Queue<A>)
    ensures ExeNext(q, true) == Step(ExeNext(q, false), Exec)
  {
  }

  // ----- Mutual exclusion, no lost wake-up, first in first out ----------------------

  ghost predicate Inv<A>(q: Queue<A>) {
    && q.inFlight + q.execs == (if q.busy then 1 else 0)
    && (!q.busy ==> q.acts == [])
    && q.started + q.acts == q.pushed
  }

  lemma StartedHolds<A>(inline: bool)
    ensures Inv(Run(Constructed<A>(), inline))
  {
  }

  lemma StepKeepsInv<A>(q: Queue<A>, e: Event<A>)
    requires Inv(q) && Enabled(q, e)
    ensures Inv(Step(q, e))
  {
    if e.Push? {
      assert q.started + (q.acts + [e.act]) == q.pushed + [e.act];
      MovesOne(q.started, q.acts + [e.act]);
    } else if q.acts != [] {
      MovesOne(q.started, q.acts);
    }
  }

  lemma MovesOne<A>(a: seq<A>, b: seq<A>)
    requires b != []
    ensures a + [b[0]] + b[1..] == a + b
  {
  }

  /** Along every run that starts with `run()`, and in every interleaving. */
  lemma {:induction false} AlongEveryRun<A>(q: Queue<A>, events: seq<Event<A>>)
    requires Inv(q) && CanRun(q, events)
    ensures Inv(After(q, events))
    decreases |events|
  {
    if events != [] {
      StepKeepsInv(q, events[0]);
      AlongEveryRun(Step(q, events[0]), events[1..]);
    }
  }

  /**
   With `run()` called once before any push: at most one action is in flight or
   about to start, and the flag says so; an idle queue has nothing waiting; what
   has started and what waits is what was pushed, in order.
   */
  lemma QueueDiscipline<A>(inline: bool, events: seq<Event<A>>)
    requires CanRun(Run(Constructed<A>(), inline), events)
    ensures var q := After(Run(Constructed<A>(), inline), events);
            && q.running && q.inFlight + q.execs <= 1
            && (q.inFlight + q.execs == 1 <==> q.busy)
            && (!q.busy ==> q.acts == [])
            && q.started + q.acts == q.pushed
  {
    StartedHolds<A>(inline);
    AlongEveryRun(Run(Constructed<A>(), inline), events);
    StaysRunning(Run(Constructed<A>(), inline), events);
  }

  lemma {:induction false} StaysRunning<A>(q: Queue<A>, events: seq<Event<A>>)
    requires q.running && CanRun(q, events)
    ensures After(q, events).running
    decreases |events|
  {
    if events != [] {
      StaysRunning(Step(q, events[0]), events[1..]);
    }
  }

  /** Calling `run()` once more keeps the discipline exactly when nothing is in flight or about to start. */
  lemma RunAgain<A>(q: Queue<A>, inline: bool)
    requires Inv(q)
    ensures Inv(Run(q, inline)) <==> !q.busy
  {
  }

  /** Two actions in flight at once, by a `run()` during an action. */
  lemma RunAgainWitness()
    ensures var q := Run(Constructed<nat>(), true);
            var events := [Push(1, true), Push(2, true)];
            CanRun(q, events) && Run(After(q, events), true).inFlight == 2
  {
    var q := Run(Constructed<nat>(), true);
    var events := [Push(1, true), Push(2, true)];
    var q1 := Step(q, events[0]);
    assert q1.inFlight == 1 && q1.busy;
    var q2 := Step(q1, events[1]);
    assert q2.acts == [2];
    assert events[1..] == [Push(2, true)] && events[1..][1..] == [];
    assert CanRun(q2, events[1..][1..]);
    assert CanRun(q1, events[1..]);
  }

  // ----- Draining ---------------------------------------------------------------------

  /** What is left to do when nothing more is pushed. */
  function Work<A>(q: Queue<A>): nat {
    2 * |q.acts| + q.execs + 2 * q.inFlight
  }

  predicate Quiescent<A>(q: Queue<A>) {
    q.execs == 0 && q.inFlight == 0
  }

  predicate NoPush<A>(events: seq<Event<A>>) {
    forall i | 0 <= i < |events| :: !events[i].Push?
  }

  lemma StepWorks<A>(q: Queue<A>, e: Event<A>)
    requires Enabled(q, e) && !e.Push?
    ensures Work(Step(q, e)) < Work(q) && Step(q, e).pushed == q.pushed
  {
  }

  /**
   Without further pushes a run has at most `Work` steps, and when no step is
   left every action pushed has been started.
   */
  lemma {:induction false} Drains<A>(q: Queue<A>, events: seq<Event<A>>)
    requires Inv(q) && CanRun(q, events) && NoPush(events)
    ensures |events| + Work(After(q, events)) <= Work(q)
    ensures After(q, events).pushed == q.pushed
    ensures Quiescent(After(q, events)) ==>
              After(q, events).started == q.pushed && After(q, events).acts == [] && !After(q, events).busy
    decreases |events|
  {
    if events != [] {
      StepWorks(q, events[0]);
      StepKeepsInv(q, events[0]);
      Drains(Step(q, events[0]), events[1..]);
    } else if Quiescent(q) {
      assert q.started + [] == q.started;
    }
  }

  /** From every state the queue can be driven to rest by its own handlers and callbacks. */
  lemma {:induction false} CanDrain<A>(q: Queue<A>) returns (events: seq<Event<A>>)
    requires Inv(q)
    ensures CanRun(q, events) && NoPush(events) && Quiescent(After(q, events))
    decreases Work(q)
  {
    if Quiescent(q) {
      events := [];
    } else {
      var e: Event<A> := if q.execs > 0 then Exec else Done(false);
      StepWorks(q, e);
      StepKeepsInv(q, e);
      var rest := CanDrain(Step(q, e));
      events := [e] + rest;
      assert events[1..] == rest;
    }
  }

  // ----- The code ------------------------------------------------------------------------

  /** The class with its fields; the ghost fields record the debts of its environment. */
  class ActionQueue<A> {
    var acts: seq<A>
    var running: bool
    var currentlyRunningAct: bool
    ghost var execs: nat
    ghost var inFlight: nat
    ghost var pushed: seq<A>
    ghost var started: seq<A>

    ghost function State(): Queue<A>
      reads this
    {
      Queue(acts, running, currentlyRunningAct, execs, inFlight, pushed, started)
    }

    constructor ()
      ensures State() == Constructed()
    {
      acts, running, currentlyRunningAct := [], false, false;
      execs, inFlight, pushed, started := 0, 0, [], [];
    }

    method Push(act: A, inline: bool) returns (toStart: seq<A>)
      modifies this
      ensures State() == PushHandler(old(State()), act, inline)
      ensures started == old(started) + toStart
    {
      toStart := [];
      acts, pushed := acts + [act], pushed + [act];
      if !currentlyRunningAct {
        toStart := Start(inline);
      }
    }

    /** `run()`. Returns the action that an inline handler invokes. */
    method Start(inline: bool) returns (toStart: seq<A>)
      modifies this
      ensures State() == Run(old(State()), inline)
      ensures started == old(started) + toStart
    {
      running := true;
      toStart := ExecuteNext(inline);
    }

    method ExecuteNext(inline: bool) returns (toStart: seq<A>)
      modifies this
      ensures State() == ExeNext(old(State()), inline)
      ensures started == old(started) + toStart
    {
      toStart := [];
      currentlyRunningAct := true;
      if inline {
        toStart := OnExecute();
      } else {
        execs := execs + 1;
      }
    }

    /** The dispatched handler: takes the first action off the queue and invokes it. */
    method OnExecute() returns (toStart: seq<A>)
      modifies this
      ensures State() == Execute(old(State()))
      ensures started == old(started) + toStart
      ensures toStart == if old(acts) == [] then [] else [old(acts)[0]]
    {
      toStart := [];
      if |acts| != 0 {
        toStart := [acts[0]];
        acts := acts[1..];
        inFlight, started := inFlight + 1, started + toStart;
      } else {
        currentlyRunningAct := false;
      }
    }

    /** A posted execute handler runs. */
    method RunPosted() returns (toStart: seq<A>)
      requires execs > 0
      modifies this
      ensures State() == Step(old(State()), Exec)
      ensures toStart == if old(acts) == [] then [] else [old(acts)[0]]
    {
      execs := execs - 1;
      toStart := OnExecute();
    }

    method OnDone(inline: bool) returns (toStart: seq<A>)
      requires inFlight > 0
      modifies this
      ensures State() == Callback(old(State()), inline)
      ensures started == old(started) + toStart
    {
      toStart := [];
      inFlight := inFlight - 1;
      if |acts| != 0 {
        toStart := ExecuteNext(inline);
      } else {
        currentlyRunningAct := false;
      }
    }
  }
}
