/**
 A WebSocket connection on its two action queues
 (lib/malloy/core/websocket/connection.hpp), as a system of atomic handlers on
 the strand of its stream.

 The model starts when `go_active` has run. Handlers are posted here; that
 nothing changes when `dispatch` runs some of them at once is proved by
 `InlineIsPosted` and `InlineRunIsPosted`.
 */
module WebSockets {
  import opened ActionQueues
  import opened Wrappers

  /** What the queues hold: a read or a send, or the action `disconnect` builds. */
  datatype Op = Transfer(id: nat) | Close

  datatype ConnectionState = Inactive | Handshaking | Active | Closing | Closed

  /** One direction: its queue and what is outstanding for it. */
  datatype Side = Side(
    queue: Queue<Op>,
    outstanding: seq<nat>, // async_read or async_write operations not completed
    callbacks: seq<nat>,   // callbacks invoked, in order
    returning: nat,        // actions about to call the queue's callback
    closing: nat,          // async_close operations whose handler belongs to this queue
    closePosted: nat)      // push handlers of disconnect() not run

  datatype Connection = Connection(
    state: ConnectionState,
    reading: Side,
    writing: Side,
    forced: nat,           // async_close operations of force_disconnect()
    closesIssued: nat)     // calls of async_close so far

  datatype Direction = Reads | Writes

  function Get(c: Connection, d: Direction): Side {
    match d case Reads => c.reading case Writes => c.writing
  }

  function Put(c: Connection, d: Direction, s: Side): Connection {
    match d case Reads => c.(reading := s) case Writes => c.(writing := s)
  }

  // ----- The handlers ----------------------------------------------------------------

  function FreshSide(): Side {
    Side(Run(Constructed(), false), [], [], 0, 0, 0)
  }

  /** `go_active` on a connection with empty queues. */
  function GoActive(): Connection {
    Connection(Active, FreshSide(), FreshSide(), 0, 0)
  }

  predicate IsOver(state: ConnectionState) {
    state == Closing || state == Closed
  }

  /** The push handler of `read` or `send`. */
  function Request(c: Connection, d: Direction, id: nat): Connection {
    var s := Get(c, d);
    Put(c, d, s.(queue := PushHandler(s.queue, Transfer(id), false)))
  }

  /** `disconnect`: two push handlers are dispatched, unless closing has begun. */
  function Disconnect(c: Connection): Connection {
    if IsOver(c.state) then c
    else
      c.(writing := c.writing.(closePosted := c.writing.closePosted + 1),
         reading := c.reading.(closePosted := c.reading.closePosted + 1))
  }

  function PushClose(c: Connection, d: Direction): Connection
    requires Get(c, d).closePosted > 0
  {
    var s := Get(c, d);
    Put(c, d, s.(queue := PushHandler(s.queue, Close, false), closePosted := s.closePosted - 1))
  }

  /** `force_disconnect` on an active connection. */
  function ForceDisconnect(c: Connection): Connection {
    if IsOver(c.state) then c
    else c.(state := Closing, forced := c.forced + 1, closesIssued := c.closesIssued + 1)
  }

  /** The body of an action the queue has just taken off. */
  function Invoke(c: Connection, d: Direction, op: Op): Connection
    requires Get(c, d).queue.inFlight > 0
  {
    var s := Get(c, d);
    match op
    case Transfer(id) => Put(c, d, s.(outstanding := s.outstanding + [id]))
    case Close =>
      if IsOver(c.state) then Put(c, d, s.(queue := Callback(s.queue, false)))
      else
        Put(c, d, s.(closing := s.closing + 1)).(state := Closing, closesIssued := c.closesIssued + 1)
  }

  /** An execute handler of a queue. */
  function RunExecute(c: Connection, d: Direction): Connection
    requires Get(c, d).queue.execs > 0
  {
    var s := Get(c, d);
    var q := Step(s.queue, Exec);
    var r := Put(c, d, s.(queue := q));
    if s.queue.acts != [] then Invoke(r, d, s.queue.acts[0]) else r
  }

  /** An operation completes and its callback is invoked. */
  function Complete(c: Connection, d: Direction, i: nat): Connection
    requires i < |Get(c, d).outstanding|
  {
    var s := Get(c, d);
    Put(c, d, s.(outstanding := s.outstanding[..i] + s.outstanding[i + 1..],
                 callbacks := s.callbacks + [s.outstanding[i]],
                 returning := s.returning + 1))
  }

  /** The completion handler calls `on_done`, after what its callback did. */
  function Return(c: Connection, d: Direction): Connection
    requires Get(c, d).returning > 0 && Get(c, d).queue.inFlight > 0
  {
    var s := Get(c, d);
    Put(c, d, s.(returning := s.returning - 1, queue := Callback(s.queue, false)))
  }

  /** async_close completes for a queue; an error leaves the state as it is. */
  function CompleteClose(c: Connection, d: Direction, ok: bool): Connection
    requires Get(c, d).closing > 0
  {
    var s := Get(c, d);
    Put(c, d, s.(closing := s.closing - 1, returning := s.returning + 1))
      .(state := if ok then Closed else c.state)
  }

  function CompleteForced(c: Connection, ok: bool): Connection
    requires c.forced > 0
  {
    c.(forced := c.forced - 1, state := if ok then Closed else c.state)
  }

  // ----- Runs -------------------------------------------------------------------------

  datatype Happening =
    | Requested(d: Direction, id: nat)
    | Disconnects
    | ForceDisconnects
    | ClosePushed(d: Direction)
    | Executes(d: Direction)
    | Completes(d: Direction, i: nat)
    | Returns(d: Direction)
    | CloseCompletes(d: Direction, ok: bool)
    | ForcedCompletes(ok: bool)

  predicate Possible(c: Connection, h: Happening) {
    match h
    case Requested(_, _) => true
    case Disconnects => true
    case ForceDisconnects => true
    case ClosePushed(d) => Get(c, d).closePosted > 0
    case Executes(d) => Get(c, d).queue.execs > 0
    case Completes(d, i) => i < |Get(c, d).outstanding|
    case Returns(d) => Get(c, d).returning > 0 && Get(c, d).queue.inFlight > 0
    case CloseCompletes(d, _) => Get(c, d).closing > 0
    case ForcedCompletes(_) => c.forced > 0
  }

  function Next(c: Connection, h: Happening): Connection
    requires Possible(c, h)
  {
    match h
    case Requested(d, id) => Request(c, d, id)
    case Disconnects => Disconnect(c)
    case ForceDisconnects => ForceDisconnect(c)
    case ClosePushed(d) => PushClose(c, d)
    case Executes(d) => RunExecute(c, d)
    case Completes(d, i) => Complete(c, d, i)
    case Returns(d) => Return(c, d)
    case CloseCompletes(d, ok) => CompleteClose(c, d, ok)
    case ForcedCompletes(ok) => CompleteForced(c, ok)
  }

  predicate CanHappen(c: Connection, hs: seq<Happening>)
    decreases |hs|
  {
    hs == [] || (Possible(c, hs[0]) && CanHappen(Next(c, hs[0]), hs[1..]))
  }

  function Finally(c: Connection, hs: seq<Happening>): Connection
    requires CanHappen(c, hs)
    decreases |hs|
  {
    if hs == [] then c else Finally(Next(c, hs[0]), hs[1..])
  }

  // ----- One direction -------------------------------------------------------------------

  /** The operations requested among queued actions. */
  function Transfers(ops: seq<Op>): seq<nat> {
    if ops == [] then []
    else (if ops[0].Transfer? then [ops[0].id] else []) + Transfers(ops[1..])
  }

  lemma Associative(a: seq<nat>, b: seq<nat>, c: seq<nat>)
    ensures a + (b + c) == a + b + c
  {
  }

  lemma {:induction false} TransfersAppend(a: seq<Op>, b: seq<Op>)
    ensures Transfers(a + b) == Transfers(a) + Transfers(b)
  {
    if a == [] {
      assert a + b == b;
    } else {
      TransfersAppend(a[1..], b);
      assert (a + b)[1..] == a[1..] + b && (a + b)[0] == a[0];
      Associative(if a[0].Transfer? then [a[0].id] else [], Transfers(a[1..]), Transfers(b));
    }
  }

  /**
   A started action is an outstanding operation, an outstanding close, or about
   to return; operations are called back in the order they were started; once a
   close has started, the connection is no longer active.
   */
  ghost predicate SideInv(s: Side, over: bool) {
    && Inv(s.queue)
    && s.queue.inFlight == |s.outstanding| + s.closing + s.returning
    && s.callbacks + s.outstanding == Transfers(s.queue.started)
    && (Close in s.queue.started ==> over)
  }

  ghost predicate ConnectionInv(c: Connection) {
    && (c.state == Active || IsOver(c.state))
    && SideInv(c.reading, IsOver(c.state))
    && SideInv(c.writing, IsOver(c.state))
    && c.closesIssued == (if IsOver(c.state) then 1 else 0)
    && c.reading.closing + c.writing.closing + c.forced <= c.closesIssued
  }

  lemma ActiveHolds()
    ensures ConnectionInv(GoActive())
  {
  }

  lemma PushKeepsSide(s: Side, over: bool, op: Op, s': Side)
    requires SideInv(s, over)
    requires s' == s.(queue := PushHandler(s.queue, op, false), closePosted := s'.closePosted)
    ensures SideInv(s', over)
  {
    StepKeepsInv(s.queue, Push(op, false));
  }

  lemma ClosePostedKeepsSide(s: Side, over: bool)
    requires SideInv(s, over)
    ensures SideInv(s.(closePosted := s.closePosted + 1), over)
  {
  }

  lemma ReturnKeepsSide(s: Side, over: bool)
    requires SideInv(s, over) && s.returning > 0
    ensures s.queue.inFlight > 0
    ensures SideInv(s.(returning := s.returning - 1, queue := Callback(s.queue, false)), over)
  {
    StepKeepsInv(s.queue, Done(false));
  }

  lemma CompleteKeepsSide(s: Side, over: bool, i: nat)
    requires SideInv(s, over) && i < |s.outstanding|
    ensures i == 0
    ensures SideInv(s.(outstanding := s.outstanding[..i] + s.outstanding[i + 1..],
                       callbacks := s.callbacks + [s.outstanding[i]],
                       returning := s.returning + 1), over)
  {
    MovesOne(s.callbacks, s.outstanding);
    assert s.outstanding[..0] + s.outstanding[1..] == s.outstanding[1..];
  }

  /** The queue takes an action off: nothing of this direction was outstanding. */
  lemma ExecuteKeepsSide(s: Side, over: bool, over': bool, s': Side)
    requires SideInv(s, over) && s.queue.execs > 0 && (over ==> over')
    requires var q := Step(s.queue, Exec);
             if s.queue.acts == [] then s' == s.(queue := q)
             else
               match s.queue.acts[0]
               case Transfer(id) => s' == s.(queue := q, outstanding := s.outstanding + [id])
               case Close => over' && s' == if over then s.(queue := Callback(q, false))
                                            else s.(queue := q, closing := s.closing + 1)
    ensures SideInv(s', over')
  {
    StepKeepsInv(s.queue, Exec);
    var q := Step(s.queue, Exec);
    if s.queue.acts != [] {
      var op := s.queue.acts[0];
      TransfersAppend(s.queue.started, [op]);
      assert [op][1..] == [];
      assert Transfers([op]) == if op.Transfer? then [op.id] else [];
      if op.Close? {
        StepKeepsInv(q, Done(false));
      }
    }
  }

  // ----- The whole connection --------------------------------------------------------------

  lemma OverWeakens(s: Side, over: bool)
    requires SideInv(s, over)
    ensures SideInv(s, true)
  {
  }

  lemma ExecutesKeepsInv(c: Connection, d: Direction)
    requires ConnectionInv(c) && Possible(c, Executes(d))
    ensures ConnectionInv(RunExecute(c, d))
  {
    var s, c' := Get(c, d), RunExecute(c, d);
    ExecuteKeepsSide(s, IsOver(c.state), IsOver(c'.state), Get(c', d));
    var other := if d == Reads then c.writing else c.reading;
    if IsOver(c'.state) {
      OverWeakens(other, IsOver(c.state));
    }
  }

  lemma CloseCompletesKeepsInv(c: Connection, d: Direction, ok: bool)
    requires ConnectionInv(c) && Possible(c, CloseCompletes(d, ok))
    ensures ConnectionInv(CompleteClose(c, d, ok))
  {
    hide Inv, Transfers;
  }

  lemma PushKeepsInv(c: Connection, h: Happening)
    requires ConnectionInv(c) && Possible(c, h) && (h.Requested? || h.ClosePushed?)
    ensures ConnectionInv(Next(c, h))
  {
    hide SideInv, PushHandler;
    var op := if h.Requested? then Transfer(h.id) else Close;
    PushKeepsSide(Get(c, h.d), IsOver(c.state), op, Get(Next(c, h), h.d));
  }

  lemma DisconnectKeepsInv(c: Connection)
    requires ConnectionInv(c)
    ensures ConnectionInv(Disconnect(c))
  {
    hide SideInv;
    ClosePostedKeepsSide(c.reading, IsOver(c.state));
    ClosePostedKeepsSide(c.writing, IsOver(c.state));
  }

  lemma ForceDisconnectKeepsInv(c: Connection)
    requires ConnectionInv(c)
    ensures ConnectionInv(ForceDisconnect(c))
  {
    hide SideInv;
    OverWeakens(c.reading, IsOver(c.state));
    OverWeakens(c.writing, IsOver(c.state));
  }

  lemma CompletesKeepsInv(c: Connection, d: Direction, i: nat)
    requires ConnectionInv(c) && Possible(c, Completes(d, i))
    ensures ConnectionInv(Complete(c, d, i))
  {
    hide SideInv;
    CompleteKeepsSide(Get(c, d), IsOver(c.state), i);
  }

  lemma ReturnsKeepsInv(c: Connection, d: Direction)
    requires ConnectionInv(c) && Possible(c, Returns(d))
    ensures ConnectionInv(Return(c, d))
  {
    hide SideInv, Callback;
    ReturnKeepsSide(Get(c, d), IsOver(c.state));
  }

  lemma ForcedCompletesKeepsInv(c: Connection, ok: bool)
    requires ConnectionInv(c) && Possible(c, ForcedCompletes(ok))
    ensures ConnectionInv(CompleteForced(c, ok))
  {
    hide SideInv;
  }

  lemma NextKeepsInv(c: Connection, h: Happening)
    requires ConnectionInv(c) && Possible(c, h)
    ensures ConnectionInv(Next(c, h))
  {
    hide ConnectionInv, Possible, Disconnect, ForceDisconnect, RunExecute, Complete, Return, CompleteClose,
         CompleteForced, Request, PushClose;
    match h
    case Requested(_, _) => PushKeepsInv(c, h);
    case Disconnects => DisconnectKeepsInv(c);
    case ForceDisconnects => ForceDisconnectKeepsInv(c);
    case ClosePushed(_) => PushKeepsInv(c, h);
    case Executes(d) => ExecutesKeepsInv(c, d);
    case Completes(d, i) => CompletesKeepsInv(c, d, i);
    case Returns(d) => ReturnsKeepsInv(c, d);
    case CloseCompletes(d, ok) => CloseCompletesKeepsInv(c, d, ok);
    case ForcedCompletes(ok) => ForcedCompletesKeepsInv(c, ok);
  }

  lemma {:induction false} AlongEveryConnectionRun(c: Connection, hs: seq<Happening>)
    requires ConnectionInv(c) && CanHappen(c, hs)
    ensures ConnectionInv(Finally(c, hs))
    decreases |hs|
  {
    if hs != [] {
      NextKeepsInv(c, hs[0]);
      hide ConnectionInv;
      AlongEveryConnectionRun(Next(c, hs[0]), hs[1..]);
    }
  }

  /** The requests made in a direction, in the order their push handlers ran. */
  function RequestsIn(d: Direction, hs: seq<Happening>): seq<nat> {
    if hs == [] then []
    else (if hs[0].Requested? && hs[0].d == d then [hs[0].id] else []) + RequestsIn(d, hs[1..])
  }

  lemma NextPushed(c: Connection, h: Happening, d: Direction)
    requires Possible(c, h)
    ensures Transfers(Get(Next(c, h), d).queue.pushed) == Transfers(Get(c, d).queue.pushed) + RequestsIn(d, [h])
  {
    hide Transfers, RequestsIn;
    PushedBy(c, h, d);
    RequestOf(d, h);
    TransfersAppend(Get(c, d).queue.pushed, Pushed(h, d));
  }

  /** What a step pushes on the queue of a direction. */
  function Pushed(h: Happening, d: Direction): seq<Op> {
    match h
    case Requested(e, id) => if e == d then [Transfer(id)] else []
    case ClosePushed(e) => if e == d then [Close] else []
    case _ => []
  }

  lemma PushedBy(c: Connection, h: Happening, d: Direction)
    requires Possible(c, h)
    ensures Get(Next(c, h), d).queue.pushed == Get(c, d).queue.pushed + Pushed(h, d)
  {
    var pushed := Get(c, d).queue.pushed;
    assert pushed + [] == pushed;
  }

  lemma RequestOf(d: Direction, h: Happening)
    ensures RequestsIn(d, [h]) == Transfers(Pushed(h, d))
  {
    assert [h][1..] == [];
    assert RequestsIn(d, [h]) == if h.Requested? && h.d == d then [h.id] else [];
    if Pushed(h, d) != [] {
      assert Pushed(h, d)[1..] == [];
    }
  }

  lemma {:induction false} PushedAreRequests(c: Connection, hs: seq<Happening>, d: Direction)
    requires CanHappen(c, hs)
    ensures Transfers(Get(Finally(c, hs), d).queue.pushed)
            == Transfers(Get(c, d).queue.pushed) + RequestsIn(d, hs)
    decreases |hs|
  {
    if hs != [] {
      NextPushed(c, hs[0], d);
      assert [hs[0]][1..] == [];
      hide Possible, Next, Transfers;
      PushedAreRequests(Next(c, hs[0]), hs[1..], d);
    }
  }

  /**
   In every run of an active connection, in either direction: at most one
   operation is outstanding; the callbacks invoked, then the outstanding
   operation, then those waiting are the requests made, in order.
   */
  lemma OperationDiscipline(hs: seq<Happening>, d: Direction)
    requires CanHappen(GoActive(), hs)
    ensures var s := Get(Finally(GoActive(), hs), d);
            && |s.outstanding| + s.closing + s.returning <= 1
            && s.callbacks + s.outstanding + Transfers(s.queue.acts) == RequestsIn(d, hs)
  {
    assert Transfers(Get(GoActive(), d).queue.pushed) == [];
    hide Finally, CanHappen, RequestsIn, Transfers, GoActive;
    ActiveHolds();
    AlongEveryConnectionRun(GoActive(), hs);
    PushedAreRequests(GoActive(), hs, d);
    var s := Get(Finally(GoActive(), hs), d);
    TransfersAppend(s.queue.started, s.queue.acts);
    assert [] + RequestsIn(d, hs) == RequestsIn(d, hs);
  }

  /** In every run of an active connection async_close is issued at most once, exactly if closing has begun. */
  lemma AtMostOneClose(hs: seq<Happening>)
    requires CanHappen(GoActive(), hs)
    ensures var c := Finally(GoActive(), hs);
            c.closesIssued <= 1 && (c.closesIssued == 1 <==> IsOver(c.state)) && (c.state == Active || IsOver(c.state))
  {
    ActiveHolds();
    AlongEveryConnectionRun(GoActive(), hs);
  }

  function Rank(state: ConnectionState): nat {
    match state
    case Inactive => 0
    case Handshaking => 1
    case Active => 2
    case Closing => 3
    case Closed => 4
  }

  /** A step never takes the state back, and leaves `Active` only for `Closing`. */
  lemma StateStep(c: Connection, h: Happening)
    requires ConnectionInv(c) && Possible(c, h)
    ensures Rank(c.state) <= Rank(Next(c, h).state)
    ensures c.state == Active ==> Next(c, h).state in {Active, Closing}
  {
    hide SideInv;
  }

  /** Nor does a run. */
  lemma {:induction false} StateMovesForward(c: Connection, hs: seq<Happening>)
    requires ConnectionInv(c) && CanHappen(c, hs)
    ensures Rank(c.state) <= Rank(Finally(c, hs).state)
    decreases |hs|
  {
    if hs != [] {
      NextKeepsInv(c, hs[0]);
      StateStep(c, hs[0]);
      hide Next, Possible, ConnectionInv;
      StateMovesForward(Next(c, hs[0]), hs[1..]);
    }
  }

  /** The copy of the close action that comes second completes at once and lets its queue go on. */
  lemma LosingCloseReturns(c: Connection, d: Direction)
    requires ConnectionInv(c) && Possible(c, Executes(d)) && IsOver(c.state)
    requires Get(c, d).queue.acts != [] && Get(c, d).queue.acts[0] == Close
    ensures var c', s, s' := Next(c, Executes(d)), Get(c, d), Get(Next(c, Executes(d)), d);
            && c'.state == c.state && c'.closesIssued == c.closesIssued
            && s'.closing == s.closing && s'.queue.inFlight == s.queue.inFlight
            && s'.queue.acts == s.queue.acts[1..]
            && (s'.queue.acts != [] ==> s'.queue.execs == 1)
            && (s'.queue.acts == [] ==> !s'.queue.busy)
  {
  }

  // ----- Draining ------------------------------------------------------------------------------

  function SideWork(s: Side): nat {
    3 * |s.queue.acts| + s.queue.execs + 3 * |s.outstanding| + 3 * s.closing + 2 * s.returning + 5 * s.closePosted
  }

  /** What is left to do when nothing more is requested. */
  function ConnectionWork(c: Connection): nat {
    SideWork(c.reading) + SideWork(c.writing) + c.forced
  }

  predicate IsInternal(h: Happening) {
    !h.Requested? && !h.Disconnects? && !h.ForceDisconnects?
  }

  predicate SideAtRest(s: Side) {
    s.queue.execs == 0 && s.outstanding == [] && s.closing == 0 && s.returning == 0 && s.closePosted == 0
  }

  predicate AtRest(c: Connection) {
    SideAtRest(c.reading) && SideAtRest(c.writing) && c.forced == 0
  }

  lemma ExecutesWorks(c: Connection, d: Direction)
    requires Possible(c, Executes(d))
    ensures SideWork(Get(RunExecute(c, d), d)) < SideWork(Get(c, d))
    ensures ConnectionWork(RunExecute(c, d)) < ConnectionWork(c)
  {
    var s, s' := Get(c, d), Get(RunExecute(c, d), d);
    ExecuteWorks(s.queue);
    assert SideWork(s') < SideWork(s);
  }

  lemma ExecuteWorks(q: Queue<Op>)
    requires q.execs > 0
    ensures |Step(q, Exec).acts| == (if q.acts == [] then 0 else |q.acts| - 1) && Step(q, Exec).execs == q.execs - 1
  {
  }

  lemma NextWorks(c: Connection, h: Happening)
    requires Possible(c, h) && IsInternal(h)
    ensures ConnectionWork(Next(c, h)) < ConnectionWork(c)
  {
    match h
    case Executes(d) => ExecutesWorks(c, d);
    case Completes(d, _) => assert SideWork(Get(Next(c, h), d)) < SideWork(Get(c, d));
    case Returns(d) => assert SideWork(Get(Next(c, h), d)) < SideWork(Get(c, d));
    case CloseCompletes(d, _) => assert SideWork(Get(Next(c, h), d)) < SideWork(Get(c, d));
    case ClosePushed(d) => assert SideWork(Get(Next(c, h), d)) < SideWork(Get(c, d));
    case ForcedCompletes(_) =>
  }

  /** A state is at rest exactly when no handler and no completion is left. */
  lemma AtRestMeansStuck(c: Connection)
    requires ConnectionInv(c)
    ensures AtRest(c) <==> forall h | IsInternal(h) :: !Possible(c, h)
  {
    if !AtRest(c) {
      var h := PossibleNext(c);
    }
  }

  lemma PossibleNext(c: Connection) returns (h: Happening)
    requires ConnectionInv(c) && !AtRest(c)
    ensures IsInternal(h) && Possible(c, h)
  {
    if c.forced > 0 {
      h := ForcedCompletes(true);
    } else {
      var d := if SideAtRest(c.reading) then Writes else Reads;
      var s := Get(c, d);
      h := if s.queue.execs > 0 then Executes(d)
           else if s.outstanding != [] then Completes(d, 0)
           else if s.closing > 0 then CloseCompletes(d, true)
           else if s.returning > 0 then Returns(d)
           else ClosePushed(d);
    }
  }

  /**
   Once requests stop, a run has a bounded number of steps. At rest both queues
   are empty, every request has been called back, and a requested close has
   been issued.
   */
  lemma {:induction false} ConnectionDrains(c: Connection, hs: seq<Happening>)
    requires ConnectionInv(c) && CanHappen(c, hs) && forall i | 0 <= i < |hs| :: IsInternal(hs[i])
    ensures |hs| + ConnectionWork(Finally(c, hs)) <= ConnectionWork(c)
    ensures AtRest(Finally(c, hs)) ==> forall d ::
              var s := Get(Finally(c, hs), d);
              && s.queue.acts == [] && !s.queue.busy
              && s.callbacks == Transfers(s.queue.pushed)
              && (Close in s.queue.pushed ==> Finally(c, hs).closesIssued == 1)
    decreases |hs|
  {
    if hs != [] {
      NextWorks(c, hs[0]);
      NextKeepsInv(c, hs[0]);
      hide Next, Possible, ConnectionInv, ConnectionWork;
      ConnectionDrains(Next(c, hs[0]), hs[1..]);
    } else if AtRest(c) {
      forall d
        ensures var s := Get(c, d);
                && s.queue.acts == [] && !s.queue.busy
                && s.callbacks == Transfers(s.queue.pushed)
                && (Close in s.queue.pushed ==> c.closesIssued == 1)
      {
        var s := Get(c, d);
        assert s.queue.started + [] == s.queue.started;
        assert s.callbacks + [] == s.callbacks;
      }
    }
  }

  // ----- A disconnect closes the connection ------------------------------------------------------

  /** How many close actions are among queued actions. */
  function Closes(ops: seq<Op>): nat {
    if ops == [] then 0 else (if ops[0].Close? then 1 else 0) + Closes(ops[1..])
  }

  lemma {:induction false} ClosesAppend(a: seq<Op>, b: seq<Op>)
    ensures Closes(a + b) == Closes(a) + Closes(b)
  {
    if a == [] {
      assert a + b == b;
    } else {
      ClosesAppend(a[1..], b);
      assert (a + b)[1..] == a[1..] + b && (a + b)[0] == a[0];
    }
  }

  /** The disconnects of a run that find the connection neither closing nor closed. */
  function DisconnectsWhileActive(c: Connection, hs: seq<Happening>): nat
    requires CanHappen(c, hs)
    decreases |hs|
  {
    if hs == [] then 0
    else (if hs[0].Disconnects? && !IsOver(c.state) then 1 else 0) + DisconnectsWhileActive(Next(c, hs[0]), hs[1..])
  }

  /** The close actions a queue has taken in or is about to take in. */
  function ClosesOf(c: Connection, d: Direction): nat {
    Closes(Get(c, d).queue.pushed) + Get(c, d).closePosted
  }

  lemma StepCloses(c: Connection, h: Happening, d: Direction)
    requires Possible(c, h)
    ensures ClosesOf(Next(c, h), d) == ClosesOf(c, d) + (if h.Disconnects? && !IsOver(c.state) then 1 else 0)
  {
    PushedBy(c, h, d);
    hide Closes;
    ClosesAppend(Get(c, d).queue.pushed, Pushed(h, d));
    ClosesOfPushed(h, d);
  }

  lemma ClosesOfPushed(h: Happening, d: Direction)
    ensures Closes(Pushed(h, d)) == if h == ClosePushed(d) then 1 else 0
  {
    if Pushed(h, d) != [] {
      assert Pushed(h, d)[1..] == [];
    }
  }

  /** Every such disconnect gives each queue one close action. */
  lemma {:induction false} ClosesAreDisconnects(c: Connection, hs: seq<Happening>, d: Direction)
    requires CanHappen(c, hs)
    ensures ClosesOf(Finally(c, hs), d) == ClosesOf(c, d) + DisconnectsWhileActive(c, hs)
    decreases |hs|
  {
    if hs != [] {
      StepCloses(c, hs[0], d);
      hide Next, Possible, ClosesOf;
      ClosesAreDisconnects(Next(c, hs[0]), hs[1..], d);
    }
  }

  /** Closing has begun, or a close action is on its way through the queue of reads. */
  predicate WillClose(c: Connection) {
    IsOver(c.state) || c.reading.closePosted > 0 || Close in c.reading.queue.acts
  }

  predicate AsksForClose(h: Happening) {
    h.Disconnects? || h.ForceDisconnects?
  }

  lemma NextWillClose(c: Connection, h: Happening)
    requires ConnectionInv(c) && Possible(c, h) && (WillClose(c) || AsksForClose(h))
    ensures WillClose(Next(c, h))
  {
    hide SideInv;
    if h.Executes? && h.d == Reads && c.reading.queue.acts != [] {
      var acts := c.reading.queue.acts;
      assert acts == [acts[0]] + acts[1..];
    }
  }

  lemma {:induction false} StillWillClose(c: Connection, hs: seq<Happening>)
    requires ConnectionInv(c) && CanHappen(c, hs) && (WillClose(c) || exists h | h in hs :: AsksForClose(h))
    ensures WillClose(Finally(c, hs))
    decreases |hs|
  {
    if hs != [] {
      NextKeepsInv(c, hs[0]);
      if WillClose(c) || AsksForClose(hs[0]) {
        NextWillClose(c, hs[0]);
      } else {
        assert hs == [hs[0]] + hs[1..];
      }
      hide Next, Possible, ConnectionInv, WillClose, AsksForClose;
      StillWillClose(Next(c, hs[0]), hs[1..]);
    }
  }

  lemma RestMeans(c: Connection, d: Direction)
    requires ConnectionInv(c) && AtRest(c)
    ensures Get(c, d).queue.acts == [] && Get(c, d).closePosted == 0
  {
  }

  lemma {:induction false} NotOverInside(c: Connection, hs: seq<Happening>)
    requires ConnectionInv(c) && CanHappen(c, hs) && !IsOver(c.state)
    requires forall h | h in hs :: !AsksForClose(h)
    requires ClosesOf(c, Reads) == 0 && ClosesOf(c, Writes) == 0
    ensures !IsOver(Finally(c, hs).state)
    decreases |hs|
  {
    if hs != [] {
      var next := Next(c, hs[0]);
      NextKeepsInv(c, hs[0]);
      StepCloses(c, hs[0], Reads);
      StepCloses(c, hs[0], Writes);
      assert !AsksForClose(hs[0]) by {
        assert hs[0] in hs;
      }
      StaysActive(c, hs[0]);
      hide Next, Possible, ConnectionInv;
      NotOverInside(next, hs[1..]);
    }
  }

  /** Without a close action nothing begins to close. */
  lemma StaysActive(c: Connection, h: Happening)
    requires ConnectionInv(c) && Possible(c, h) && !IsOver(c.state) && !AsksForClose(h)
    requires ClosesOf(c, Reads) == 0 && ClosesOf(c, Writes) == 0
    ensures !IsOver(Next(c, h).state)
  {
    match h
    case Executes(d) =>
      var q := Get(c, d).queue;
      ClosesAppend(q.started, q.acts);
      assert Closes(q.acts) == 0;
    case _ =>
      hide SideInv;
  }

  predicate Disconnected(hs: seq<Happening>) {
    exists h | h in hs :: AsksForClose(h)
  }

  lemma RestCloses(hs: seq<Happening>)
    requires CanHappen(GoActive(), hs) && AtRest(Finally(GoActive(), hs))
    ensures IsOver(Finally(GoActive(), hs).state) <==> Disconnected(hs)
  {
    ActiveHolds();
    ActiveAtFirst();
    hide Next, Possible, CanHappen, Finally, GoActive, AsksForClose, ConnectionInv, AtRest;
    AlongEveryConnectionRun(GoActive(), hs);
    RestMeans(Finally(GoActive(), hs), Reads);
    if Disconnected(hs) {
      StillWillClose(GoActive(), hs);
    } else {
      NotOverInside(GoActive(), hs);
    }
  }

  /**
   In every run of an active connection, once nothing is left to do: if and only
   if it was ever disconnected or forcibly disconnected, it is closing or closed
   and async_close has been issued, once. Each queue has taken in one close
   action for each disconnect that found the connection active.
   */
  lemma DisconnectCloses(hs: seq<Happening>, d: Direction)
    requires CanHappen(GoActive(), hs)
    ensures var c := Finally(GoActive(), hs);
            && Closes(Get(c, d).queue.pushed) + Get(c, d).closePosted == DisconnectsWhileActive(GoActive(), hs)
            && (AtRest(c) ==>
                  && Get(c, d).closePosted == 0
                  && (IsOver(c.state) <==> Disconnected(hs))
                  && c.closesIssued == (if Disconnected(hs) then 1 else 0))
  {
    ActiveHolds();
    ActiveAtFirst();
    hide *;
    ClosesAreDisconnects(GoActive(), hs, d);
    ClosesOfMeans(GoActive(), d);
    ClosesOfMeans(Finally(GoActive(), hs), d);
    AtMostOneClose(hs);
    if AtRest(Finally(GoActive(), hs)) {
      AlongEveryConnectionRun(GoActive(), hs);
      RestCloses(hs);
      RestMeans(Finally(GoActive(), hs), d);
    }
  }

  lemma ClosesOfMeans(c: Connection, d: Direction)
    ensures ClosesOf(c, d) == Closes(Get(c, d).queue.pushed) + Get(c, d).closePosted
  {
  }

  lemma ActiveAtFirst()
    ensures !IsOver(GoActive().state)
    ensures forall d :: ClosesOf(GoActive(), d) == 0
  {
  }

  predicate ClosesWell(h: Happening) {
    (h.CloseCompletes? && h.ok) || (h.ForcedCompletes? && h.ok)
  }

  lemma CloseStep(c: Connection, h: Happening)
    requires ConnectionInv(c) && Possible(c, h)
    ensures Next(c, h).state == Closed <==> c.state == Closed || ClosesWell(h)
  {
    hide SideInv;
  }

  /** The connection is closed exactly if an async_close has completed without an error. */
  lemma {:induction false} ClosedExactly(c: Connection, hs: seq<Happening>)
    requires ConnectionInv(c) && CanHappen(c, hs)
    ensures Finally(c, hs).state == Closed <==> c.state == Closed || exists h | h in hs :: ClosesWell(h)
    decreases |hs|
  {
    if hs != [] {
      NextKeepsInv(c, hs[0]);
      CloseStep(c, hs[0]);
      hide Next, Possible, ConnectionInv, ClosesWell;
      ClosedExactly(Next(c, hs[0]), hs[1..]);
      assert hs == [hs[0]] + hs[1..];
    }
  }

  // ----- Handlers that run at once -----------------------------------------------------------------

  /**
   The queue has just run its execute handler, with `acts` waiting before. In
   all that follows `choices` says, for one dispatch after the other, whether
   the handler runs at once; without a choice it is posted.
   */
  function Started(c: Connection, d: Direction, q: Queue<Op>, acts: seq<Op>, choices: seq<bool>): Connection
    requires acts != [] ==> q.inFlight > 0 && |q.acts| < |acts|
    decreases |acts|, 0
  {
    var r := Put(c, d, Get(c, d).(queue := q));
    if acts == [] then r else InvokeNow(r, d, acts[0], choices)
  }

  /** As `Invoke`, with the choices for the dispatch in the callback of a close that comes second. */
  function InvokeNow(c: Connection, d: Direction, op: Op, choices: seq<bool>): Connection
    requires Get(c, d).queue.inFlight > 0
    decreases |Get(c, d).queue.acts|, 2
  {
    if op == Close && IsOver(c.state) then CallBackNow(c, d, choices) else Invoke(c, d, op)
  }

  /** The callback of a queue is called. */
  function CallBackNow(c: Connection, d: Direction, choices: seq<bool>): Connection
    requires Get(c, d).queue.inFlight > 0
    decreases |Get(c, d).queue.acts|, 1
  {
    var q := Get(c, d).queue;
    if choices != [] && choices[0] && q.acts != [] then Started(c, d, Callback(q, true), q.acts, choices[1..])
    else Put(c, d, Get(c, d).(queue := Callback(q, false)))
  }

  /** A push handler runs. */
  function PushNow(c: Connection, d: Direction, op: Op, choices: seq<bool>): Connection {
    var q := Get(c, d).queue;
    if choices != [] && choices[0] && !q.busy then
      Started(c, d, PushHandler(q, op, true), q.acts + [op], choices[1..])
    else Put(c, d, Get(c, d).(queue := PushHandler(q, op, false)))
  }

  function NextNow(c: Connection, h: Happening, choices: seq<bool>): Connection
    requires Possible(c, h)
  {
    match h
    case Requested(d, id) => PushNow(c, d, Transfer(id), choices)
    case ClosePushed(d) =>
      PushNow(Put(c, d, Get(c, d).(closePosted := Get(c, d).closePosted - 1)), d, Close, choices)
    case Executes(d) => Started(c, d, Step(Get(c, d).queue, Exec), Get(c, d).queue.acts, choices)
    case Returns(d) => CallBackNow(Put(c, d, Get(c, d).(returning := Get(c, d).returning - 1)), d, choices)
    case _ => Next(c, h)
  }

  /** Execute handlers of one queue, one after the other. */
  function Times(d: Direction, n: nat): seq<Happening> {
    if n == 0 then [] else [Executes(d)] + Times(d, n - 1)
  }

  /** The state follows from the other by execute handlers of one queue. */
  ghost predicate Follows(c: Connection, d: Direction, n: nat, c': Connection) {
    CanHappen(c, Times(d, n)) && Finally(c, Times(d, n)) == c'
  }

  lemma FollowsItself(c: Connection, d: Direction)
    ensures Follows(c, d, 0, c)
  {
  }

  lemma FollowsStep(c: Connection, d: Direction, n: nat, c': Connection)
    requires Possible(c, Executes(d)) && Follows(RunExecute(c, d), d, n, c')
    ensures Follows(c, d, n + 1, c')
  {
    hide RunExecute;
    assert Times(d, n + 1)[1..] == Times(d, n);
  }

  /** An execute handler with choices is that handler followed by others. */
  lemma {:induction false} StartedFollows(c: Connection, d: Direction, choices: seq<bool>) returns (n: nat)
    requires Possible(c, Executes(d))
    ensures Follows(RunExecute(c, d), d, n,
                    Started(c, d, Step(Get(c, d).queue, Exec), Get(c, d).queue.acts, choices))
    decreases |Get(c, d).queue.acts|
  {
    var acts, next := Get(c, d).queue.acts, RunExecute(c, d);
    if |acts| > 1 && acts[0] == Close && IsOver(c.state) && choices != [] && choices[0] {
      SecondClose(c, d, choices);
      var m := StartedFollows(next, d, choices[1..]);
      hide *;
      FollowsStep(next, d, m, Started(c, d, Step(Get(c, d).queue, Exec), acts, choices));
      n := m + 1;
    } else {
      StartsPosted(c, d, choices);
      hide *;
      FollowsItself(next, d);
      n := 0;
    }
  }

  lemma StartedCloses(c: Connection, d: Direction, q: Queue<Op>, acts: seq<Op>, choices: seq<bool>)
    requires acts != [] && q.inFlight > 0 && |q.acts| < |acts| && acts[0] == Close && IsOver(c.state)
    ensures Started(c, d, q, acts, choices) == CallBackNow(Put(c, d, Get(c, d).(queue := q)), d, choices)
  {
    var r := Put(c, d, Get(c, d).(queue := q));
    assert Started(c, d, q, acts, choices) == InvokeNow(r, d, acts[0], choices);
    hide Started, CallBackNow;
  }

  lemma StartsPosted(c: Connection, d: Direction, choices: seq<bool>)
    requires Possible(c, Executes(d))
    requires var acts := Get(c, d).queue.acts;
             |acts| <= 1 || acts[0] != Close || !IsOver(c.state) || choices == [] || !choices[0]
    ensures Started(c, d, Step(Get(c, d).queue, Exec), Get(c, d).queue.acts, choices) == RunExecute(c, d)
  {
    var acts, q := Get(c, d).queue.acts, Step(Get(c, d).queue, Exec);
    if acts != [] {
      var r := Put(c, d, Get(c, d).(queue := q));
      if acts[0] == Close && IsOver(c.state) {
        StartedCloses(c, d, q, acts, choices);
        hide Started;
        assert CallBackNow(r, d, choices) == Put(r, d, Get(r, d).(queue := Callback(q, false)));
      } else {
        assert Started(c, d, q, acts, choices) == InvokeNow(r, d, acts[0], choices) == Invoke(r, d, acts[0]);
      }
    }
  }

  /** A close that comes second calls back; the next action taken off at once is the next execute handler. */
  lemma SecondClose(c: Connection, d: Direction, choices: seq<bool>)
    requires Possible(c, Executes(d)) && |Get(c, d).queue.acts| > 1
    requires Get(c, d).queue.acts[0] == Close && IsOver(c.state) && choices != [] && choices[0]
    ensures var next := RunExecute(c, d);
            && Possible(next, Executes(d))
            && |Get(next, d).queue.acts| < |Get(c, d).queue.acts|
            && Started(c, d, Step(Get(c, d).queue, Exec), Get(c, d).queue.acts, choices)
               == Started(next, d, Step(Get(next, d).queue, Exec), Get(next, d).queue.acts, choices[1..])
  {
    var acts, q := Get(c, d).queue.acts, Step(Get(c, d).queue, Exec);
    var r, next := Put(c, d, Get(c, d).(queue := q)), RunExecute(c, d);
    CallbackInline(q);
    assert Get(next, d).queue == Callback(q, false);
    StartedCloses(c, d, q, acts, choices);
    CallBackStarts(r, d, choices);
    StartedForgets(r, next, d, Callback(q, true), q.acts, choices[1..]);
  }

  lemma CallBackStarts(c: Connection, d: Direction, choices: seq<bool>)
    requires Get(c, d).queue.inFlight > 0 && Get(c, d).queue.acts != [] && choices != [] && choices[0]
    ensures CallBackNow(c, d, choices)
            == Started(c, d, Callback(Get(c, d).queue, true), Get(c, d).queue.acts, choices[1..])
  {
    hide Started, Callback;
  }

  lemma CallbackInline(q: Queue<Op>)
    requires q.inFlight > 0 && q.acts != []
    ensures Callback(q, false).acts == q.acts && Callback(q, false).execs > 0
    ensures Callback(q, true) == Step(Callback(q, false), Exec)
  {
  }

  /** What was in the place of the queue does not matter. */
  lemma StartedForgets(c: Connection, c': Connection, d: Direction, q: Queue<Op>, acts: seq<Op>, choices: seq<bool>)
    requires acts != [] ==> q.inFlight > 0 && |q.acts| < |acts|
    requires Put(c, d, Get(c, d).(queue := q)) == Put(c', d, Get(c', d).(queue := q))
    ensures Started(c, d, q, acts, choices) == Started(c', d, q, acts, choices)
  {
  }

  lemma PushInline(q: Queue<Op>, op: Op)
    requires !q.busy
    ensures PushHandler(q, op, false).acts == q.acts + [op] && PushHandler(q, op, false).execs > 0
    ensures PushHandler(q, op, true) == Step(PushHandler(q, op, false), Exec)
  {
  }

  /** A push handler with choices is one that posts, followed by execute handlers. */
  lemma PushFollows(c: Connection, d: Direction, op: Op, choices: seq<bool>) returns (n: nat)
    ensures Follows(Put(c, d, Get(c, d).(queue := PushHandler(Get(c, d).queue, op, false))), d, n,
                    PushNow(c, d, op, choices))
  {
    var q := Get(c, d).queue;
    var posted := Put(c, d, Get(c, d).(queue := PushHandler(q, op, false)));
    if choices != [] && choices[0] && !q.busy {
      PushInline(q, op);
      StartedForgets(c, posted, d, PushHandler(q, op, true), q.acts + [op], choices[1..]);
      hide Started, PushHandler, Step, Follows;
      var m := StartedFollows(posted, d, choices[1..]);
      FollowsStep(posted, d, m, PushNow(c, d, op, choices));
      n := m + 1;
    } else {
      hide PushHandler, Follows;
      FollowsItself(posted, d);
      n := 0;
    }
  }

  lemma CallBackFollows(c: Connection, d: Direction, choices: seq<bool>) returns (n: nat)
    requires Get(c, d).queue.inFlight > 0
    ensures Follows(Put(c, d, Get(c, d).(queue := Callback(Get(c, d).queue, false))), d, n, CallBackNow(c, d, choices))
  {
    var q := Get(c, d).queue;
    var posted := Put(c, d, Get(c, d).(queue := Callback(q, false)));
    if choices != [] && choices[0] && q.acts != [] {
      CallbackInline(q);
      StartedForgets(c, posted, d, Callback(q, true), q.acts, choices[1..]);
      CallBackStarts(c, d, choices);
      hide Started, Callback, Step, Follows, CallBackNow;
      var m := StartedFollows(posted, d, choices[1..]);
      FollowsStep(posted, d, m, CallBackNow(c, d, choices));
      n := m + 1;
    } else {
      hide Callback, Follows;
      FollowsItself(posted, d);
      n := 0;
    }
  }

  function SideOfStep(h: Happening): Direction {
    if h.Requested? || h.ClosePushed? || h.Executes? || h.Returns? then h.d else Reads
  }

  /**
   Whatever handlers run at once, a step is the step that posts them, followed
   by execute handlers of the same queue.
   */
  lemma InlineIsPosted(c: Connection, h: Happening, choices: seq<bool>) returns (n: nat)
    requires Possible(c, h)
    ensures Follows(Next(c, h), SideOfStep(h), n, NextNow(c, h, choices))
  {
    hide Follows, Started, PushNow, CallBackNow, Times;
    match h
    case Requested(d, id) =>
      n := PushFollows(c, d, Transfer(id), choices);
    case ClosePushed(d) =>
      n := PushFollows(Put(c, d, Get(c, d).(closePosted := Get(c, d).closePosted - 1)), d, Close, choices);
    case Executes(d) =>
      n := StartedFollows(c, d, choices);
    case Returns(d) =>
      n := CallBackFollows(Put(c, d, Get(c, d).(returning := Get(c, d).returning - 1)), d, choices);
    case _ =>
      FollowsItself(Next(c, h), Reads);
      n := 0;
  }

  predicate CanHappenNow(c: Connection, hs: seq<Happening>, choices: seq<seq<bool>>)
    decreases |hs|
  {
    |choices| == |hs| &&
    (hs == [] || (Possible(c, hs[0]) && CanHappenNow(NextNow(c, hs[0], choices[0]), hs[1..], choices[1..])))
  }

  function FinallyNow(c: Connection, hs: seq<Happening>, choices: seq<seq<bool>>): Connection
    requires CanHappenNow(c, hs, choices)
    decreases |hs|
  {
    if hs == [] then c else FinallyNow(NextNow(c, hs[0], choices[0]), hs[1..], choices[1..])
  }

  /** A run with handlers that run at once ends as a run with the same requests that posts them all. */
  lemma {:induction false} InlineRunIsPosted(c: Connection, hs: seq<Happening>, choices: seq<seq<bool>>)
    returns (posted: seq<Happening>)
    requires CanHappenNow(c, hs, choices)
    ensures CanHappen(c, posted) && Finally(c, posted) == FinallyNow(c, hs, choices)
    ensures forall d :: RequestsIn(d, posted) == RequestsIn(d, hs)
    ensures DisconnectsWhileActive(c, posted) == DisconnectsNow(c, hs, choices)
    ensures forall h: Happening | !h.Executes? :: h in posted <==> h in hs
    decreases |hs|
  {
    if hs == [] {
      posted := [];
    } else {
      var h := hs[0];
      var n := InlineIsPosted(c, h, choices[0]);
      var rest := InlineRunIsPosted(NextNow(c, h, choices[0]), hs[1..], choices[1..]);
      var times := Times(SideOfStep(h), n);
      posted := [h] + (times + rest);
      hide Next, NextNow, Possible, Times, SideOfStep;
      RunsOneAfterTheOther(Next(c, h), times, rest);
      assert posted[1..] == times + rest;
      DisconnectsApart(Next(c, h), SideOfStep(h), n, rest);
      SameButExecutes(hs, SideOfStep(h), n, rest);
      hide CanHappen, Finally;
      forall d
        ensures RequestsIn(d, posted) == RequestsIn(d, hs)
      {
        NoRequestsInTimes(d, SideOfStep(h), n);
        RequestsAppend(d, times, rest);
        assert [] + RequestsIn(d, rest) == RequestsIn(d, rest);
      }
    }
  }

  /** As `DisconnectsWhileActive`. */
  function DisconnectsNow(c: Connection, hs: seq<Happening>, choices: seq<seq<bool>>): nat
    requires CanHappenNow(c, hs, choices)
    decreases |hs|
  {
    if hs == [] then 0
    else
      (if hs[0].Disconnects? && !IsOver(c.state) then 1 else 0)
      + DisconnectsNow(NextNow(c, hs[0], choices[0]), hs[1..], choices[1..])
  }

  lemma {:induction false} DisconnectsApart(c: Connection, d: Direction, n: nat, rest: seq<Happening>)
    requires CanHappen(c, Times(d, n) + rest) && CanHappen(c, Times(d, n)) && CanHappen(Finally(c, Times(d, n)), rest)
    ensures DisconnectsWhileActive(c, Times(d, n) + rest) == DisconnectsWhileActive(Finally(c, Times(d, n)), rest)
    decreases n
  {
    if n == 0 {
      assert [] + rest == rest;
    } else {
      assert Times(d, n)[1..] == Times(d, n - 1);
      assert (Times(d, n) + rest)[1..] == Times(d, n - 1) + rest;
      hide RunExecute;
      DisconnectsApart(Next(c, Executes(d)), d, n - 1, rest);
    }
  }

  lemma {:induction false} TimesExecute(d: Direction, n: nat)
    ensures forall h | h in Times(d, n) :: h.Executes?
  {
    if n > 0 {
      TimesExecute(d, n - 1);
    }
  }

  lemma SameButExecutes(hs: seq<Happening>, d: Direction, n: nat, rest: seq<Happening>)
    requires hs != [] && forall h: Happening | !h.Executes? :: h in rest <==> h in hs[1..]
    ensures forall h: Happening | !h.Executes? :: h in [hs[0]] + (Times(d, n) + rest) <==> h in hs
  {
    TimesExecute(d, n);
    assert hs == [hs[0]] + hs[1..];
  }

  lemma {:induction false} RunsOneAfterTheOther(c: Connection, a: seq<Happening>, b: seq<Happening>)
    requires CanHappen(c, a) && CanHappen(Finally(c, a), b)
    ensures CanHappen(c, a + b) && Finally(c, a + b) == Finally(Finally(c, a), b)
    decreases |a|
  {
    if a == [] {
      assert a + b == b;
    } else {
      hide Next, Possible;
      RunsOneAfterTheOther(Next(c, a[0]), a[1..], b);
      assert (a + b)[1..] == a[1..] + b;
    }
  }

  lemma {:induction false} NoRequestsInTimes(d: Direction, d': Direction, n: nat)
    ensures RequestsIn(d, Times(d', n)) == []
  {
    if n > 0 {
      NoRequestsInTimes(d, d', n - 1);
      assert Times(d', n)[1..] == Times(d', n - 1);
    }
  }

  lemma {:induction false} RequestsAppend(d: Direction, a: seq<Happening>, b: seq<Happening>)
    ensures RequestsIn(d, a + b) == RequestsIn(d, a) + RequestsIn(d, b)
  {
    if a == [] {
      assert a + b == b;
    } else {
      RequestsAppend(d, a[1..], b);
      assert (a + b)[1..] == a[1..] + b && (a + b)[0] == a[0];
      Associative(if a[0].Requested? && a[0].d == d then [a[0].id] else [], RequestsIn(d, a[1..]), RequestsIn(d, b));
    }
  }

  /** So the discipline and the single close hold whatever handlers run at once. */
  lemma InlineRunDiscipline(hs: seq<Happening>, choices: seq<seq<bool>>, d: Direction)
    requires CanHappenNow(GoActive(), hs, choices)
    ensures var c := FinallyNow(GoActive(), hs, choices);
            && |Get(c, d).outstanding| + Get(c, d).closing + Get(c, d).returning <= 1
            && Get(c, d).callbacks + Get(c, d).outstanding + Transfers(Get(c, d).queue.acts) == RequestsIn(d, hs)
            && c.closesIssued <= 1 && (c.closesIssued == 1 <==> IsOver(c.state))
  {
    hide *;
    var posted := InlineRunIsPosted(GoActive(), hs, choices);
    OperationDiscipline(posted, d);
    AtMostOneClose(posted);
  }

  /** And a disconnect closes the connection whatever handlers run at once. */
  lemma InlineDisconnectCloses(hs: seq<Happening>, choices: seq<seq<bool>>, d: Direction)
    requires CanHappenNow(GoActive(), hs, choices)
    ensures var c := FinallyNow(GoActive(), hs, choices);
            && Closes(Get(c, d).queue.pushed) + Get(c, d).closePosted == DisconnectsNow(GoActive(), hs, choices)
            && (c.state == Closed <==> exists h | h in hs :: ClosesWell(h))
            && (AtRest(c) ==>
                  && Get(c, d).closePosted == 0
                  && (IsOver(c.state) <==> Disconnected(hs))
                  && c.closesIssued == (if Disconnected(hs) then 1 else 0))
  {
    ActiveHolds();
    assert GoActive().state == Active;
    assert forall h: Happening :: ClosesWell(h) || AsksForClose(h) ==> !h.Executes?;
    hide Next, NextNow, Possible, CanHappen, CanHappenNow, Finally, FinallyNow, GoActive, AtRest, AsksForClose,
         ClosesWell, DisconnectsWhileActive, DisconnectsNow, ConnectionInv, Closes, IsOver, Get;
    var posted := InlineRunIsPosted(GoActive(), hs, choices);
    DisconnectCloses(posted, d);
    ClosedExactly(GoActive(), posted);
  }

  // ----- The code --------------------------------------------------------------------------------

  /** What the stream and the executor owe one direction. */
  datatype Debts = Debts(outstanding: seq<nat>, callbacks: seq<nat>, returning: nat, closing: nat, closePosted: nat)

  const NO_DEBTS := Debts([], [], 0, 0, 0)

  ghost function SideOf(q: Queue<Op>, debts: Debts): Side {
    Side(q, debts.outstanding, debts.callbacks, debts.returning, debts.closing, debts.closePosted)
  }

  ghost function CallBack(debts: Debts, i: nat): Debts
    requires i < |debts.outstanding|
  {
    debts.(outstanding := debts.outstanding[..i] + debts.outstanding[i + 1..],
           callbacks := debts.callbacks + [debts.outstanding[i]],
           returning := debts.returning + 1)
  }

  /** A connection on which nothing has been requested. */
  ghost function Unused(state: ConnectionState): Connection {
    Connection(state, SideOf(Constructed(), NO_DEBTS), SideOf(Constructed(), NO_DEBTS), 0, 0)
  }

  class WebSocketConnection {
    var state: ConnectionState
    const readQueue: ActionQueue<Op>
    const writeQueue: ActionQueue<Op>
    ghost var readDebts: Debts
    ghost var writeDebts: Debts
    ghost var forced: nat
    ghost var closesIssued: nat

    ghost predicate Valid() {
      readQueue != writeQueue
    }

    ghost function View(): Connection
      reads this, readQueue, writeQueue
    {
      Connection(state, SideOf(readQueue.State(), readDebts), SideOf(writeQueue.State(), writeDebts),
                 forced, closesIssued)
    }

    constructor ()
      ensures Valid() && fresh(readQueue) && fresh(writeQueue)
      ensures View() == Unused(Inactive)
    {
      state := Inactive;
      readQueue := new ActionQueue();
      writeQueue := new ActionQueue();
      readDebts, writeDebts, forced, closesIssued := NO_DEBTS, NO_DEBTS, 0, 0;
    }

    /** `accept`, up to the start of the handshake. */
    method Accept() returns (r: Result<()>)
      modifies this`state
      ensures r.Throws? <==> old(state) != Inactive
      ensures state == if r.Throws? then old(state) else Handshaking
    {
      if state != Inactive {
        return Throws(LogicError);
      }
      state := Handshaking;
      return Ok(());
    }

    method BecomeActive()
      requires Valid()
      modifies this`state, readQueue, writeQueue
      ensures old(View()) == Unused(Handshaking) ==> View() == GoActive()
    {
      state := Active;
      var _ := readQueue.Start(false);
      var _ := writeQueue.Start(false);
    }

    method OnRequested(d: Direction, id: nat)
      requires Valid()
      modifies readQueue, writeQueue
      ensures View() == Next(old(View()), Requested(d, id))
    {
      match d {
        case Reads => var _ := readQueue.Push(Transfer(id), false);
        case Writes => var _ := writeQueue.Push(Transfer(id), false);
      }
    }

    method DisconnectRequested()
      requires Valid()
      modifies this`readDebts, this`writeDebts
      ensures View() == Next(old(View()), Disconnects)
    {
      if state == Closed || state == Closing {
        return;
      }
      writeDebts := writeDebts.(closePosted := writeDebts.closePosted + 1);
      readDebts := readDebts.(closePosted := readDebts.closePosted + 1);
    }

    method OnClosePushed(d: Direction)
      requires Valid() && Possible(View(), ClosePushed(d))
      modifies this`readDebts, this`writeDebts, readQueue, writeQueue
      ensures View() == Next(old(View()), ClosePushed(d))
    {
      match d {
        case Reads =>
          readDebts := readDebts.(closePosted := readDebts.closePosted - 1);
          var _ := readQueue.Push(Close, false);
        case Writes =>
          writeDebts := writeDebts.(closePosted := writeDebts.closePosted - 1);
          var _ := writeQueue.Push(Close, false);
      }
    }

    /** `force_disconnect`: an error on an inactive connection, nothing on a closing one. */
    method ForceDisconnectRequested() returns (r: Result<()>)
      requires Valid()
      modifies this`state, this`forced, this`closesIssued
      ensures r.Throws? <==> old(state) == Inactive
      ensures View() == if r.Throws? then old(View()) else Next(old(View()), ForceDisconnects)
    {
      if state == Inactive {
        return Throws(LogicError);
      } else if state == Closed || state == Closing {
        return Ok(());
      }
      IssueClose();
      forced := forced + 1;
      return Ok(());
    }

    /** `do_disconnect`, up to the call of async_close. */
    method IssueClose()
      modifies this`state, this`closesIssued
      ensures state == Closing && closesIssued == old(closesIssued) + 1
    {
      state := Closing;
      closesIssued := closesIssued + 1;
    }

    /** An execute handler of a queue takes an action off and invokes it. */
    method OnExecute(d: Direction)
      requires Valid() && Possible(View(), Executes(d))
      modifies this, readQueue, writeQueue
      ensures View() == Next(old(View()), Executes(d))
    {
      var queue := if d == Reads then readQueue else writeQueue;
      var toStart := queue.RunPosted();
      if |toStart| == 0 {
        return;
      }
      match toStart[0] {
        case Transfer(id) =>
          match d {
            case Reads => readDebts := readDebts.(outstanding := readDebts.outstanding + [id]);
            case Writes => writeDebts := writeDebts.(outstanding := writeDebts.outstanding + [id]);
          }
        case Close =>
          if state == Closed || state == Closing {
            var _ := queue.OnDone(false);
            return;
          }
          IssueClose();
          match d {
            case Reads => readDebts := readDebts.(closing := readDebts.closing + 1);
            case Writes => writeDebts := writeDebts.(closing := writeDebts.closing + 1);
          }
      }
    }

    /** The handler of an async_close of a queue, up to its call of `on_done`. */
    method OnCloseCompleted(d: Direction, ok: bool)
      requires Valid() && Possible(View(), CloseCompletes(d, ok))
      modifies this`state, this`readDebts, this`writeDebts
      ensures View() == Next(old(View()), CloseCompletes(d, ok))
    {
      if ok {
        state := Closed;
      }
      match d {
        case Reads =>
          readDebts := readDebts.(closing := readDebts.closing - 1, returning := readDebts.returning + 1);
        case Writes =>
          writeDebts := writeDebts.(closing := writeDebts.closing - 1, returning := writeDebts.returning + 1);
      }
    }

    /** An operation completes; its handler invokes the callback first. */
    method OnCompleted(d: Direction, i: nat)
      requires Valid() && Possible(View(), Completes(d, i))
      modifies this`readDebts, this`writeDebts
      ensures View() == Next(old(View()), Completes(d, i))
    {
      match d {
        case Reads => readDebts := CallBack(readDebts, i);
        case Writes => writeDebts := CallBack(writeDebts, i);
      }
    }

    method OnForcedCompleted(ok: bool)
      requires Valid() && Possible(View(), ForcedCompletes(ok))
      modifies this`state, this`forced
      ensures View() == Next(old(View()), ForcedCompletes(ok))
    {
      if ok {
        state := Closed;
      }
      forced := forced - 1;
    }

    method OnReturn(d: Direction)
      requires Valid() && Possible(View(), Returns(d))
      modifies this`readDebts, this`writeDebts, readQueue, writeQueue
      ensures View() == Next(old(View()), Returns(d))
    {
      match d {
        case Reads =>
          readDebts := readDebts.(returning := readDebts.returning - 1);
          var _ := readQueue.OnDone(false);
        case Writes =>
          writeDebts := writeDebts.(returning := writeDebts.returning - 1);
          var _ := writeQueue.OnDone(false);
      }
    }
  }
}
