/**
 An HTTP server connection (lib/malloy/server/http/connection.hpp) and the
 dispatch of its requests through a tree of routers
 (lib/malloy/server/routing/router.hpp), as a system of completion handlers.
 */
module HttpConnections {
  import opened Routing
  import ServerStrings
  import opened Wrappers

  /** An operation on the stream that has not completed. */
  datatype Operation =
    | ReadHeader
    | ReadBody(answer: (Header, string) -> Response, header: Header, who: Router)
    | Write(response: Response)

  datatype End = ClosedByPeer | ClosedByResponse | Failed | HandedOver

  datatype Exchange = Exchange(
    parser: bool,              // m_parser holds a parser
    held: Option<Response>,    // m_response
    operations: seq<Operation>,
    headerReads: nat,          // async_read_header started
    accepted: seq<Header>,     // requests handed to the router
    bodies: seq<Option<string>>, // the body that was read for each of them
    written: seq<Response>,    // responses written in full
    end: Option<End>)

  /** A connection before its first `do_read`. */
  const IDLE := Exchange(false, None, [], 0, [], [], [], None)

  function DoRead(e: Exchange): Exchange {
    e.(parser := true, operations := e.operations + [ReadHeader], headerReads := e.headerReads + 1)
  }

  function DoWrite(e: Exchange, response: Response): Exchange {
    e.(held := Some(response), operations := e.operations + [Write(response)])
  }

  /** What a dispatch does to the connection. */
  function Do(e: Exchange, outcome: Outcome): Exchange {
    match outcome
    case Written(response) => DoWrite(e, response)
    case ReadsBody(answer, header, who) => e.(operations := e.operations + [ReadBody(answer, header, who)])
    case Upgraded(_) => e
  }

  // ----- Runs ----------------------------------------------------------------------

  /** Completions; `i` is the place of the operation among the outstanding ones. */
  datatype Event =
    | HeaderRead(i: nat, header: Header, path: seq<string>)
    | HeaderFails(i: nat, closes: bool)
    | BodyRead(i: nat, body: string)
    | BodyFails(i: nat)
    | WriteDone(i: nat)
    | WriteFails(i: nat)

  predicate Possible(r: Router, e: Exchange, ev: Event) {
    && ev.i < |e.operations|
    && match ev
       case HeaderRead(i, header, path) => e.operations[i].ReadHeader? && Descends(r, header.target, path)
       case HeaderFails(i, _) => e.operations[i].ReadHeader?
       case BodyRead(i, _) => e.operations[i].ReadBody?
       case BodyFails(i) => e.operations[i].ReadBody?
       case WriteDone(i) => e.operations[i].Write?
       case WriteFails(i) => e.operations[i].Write?
  }

  function Without(operations: seq<Operation>, i: nat): seq<Operation>
    requires i < |operations|
  {
    operations[..i] + operations[i + 1..]
  }

  /** The body is that of the last request. */
  function Recorded(bodies: seq<Option<string>>, body: string): seq<Option<string>> {
    if bodies == [] then [] else bodies[|bodies| - 1 := Some(body)]
  }

  function Next(r: Router, e: Exchange, ev: Event): Exchange
    requires Possible(r, e, ev)
  {
    var rest := e.(operations := Without(e.operations, ev.i));
    match ev
    case HeaderRead(_, header, path) =>
      var handed := rest.(parser := false, accepted := e.accepted + [header], bodies := e.bodies + [None]);
      if header.upgrade then Do(handed.(end := Some(HandedOver)), Serve(r, header, path, true))
      else Do(handed, Serve(r, header, path, false))
    case HeaderFails(_, closes) => rest.(end := Some(if closes then ClosedByPeer else Failed))
    case BodyRead(i, body) =>
      var op := e.operations[i];
      DoWrite(rest.(bodies := Recorded(e.bodies, body)), Signed(op.answer(op.header, body), op.who))
    case BodyFails(_) => rest.(end := Some(Failed))
    case WriteDone(i) =>
      var done := rest.(written := e.written + [e.operations[i].response]);
      if e.operations[i].response.needsEof then done.(end := Some(ClosedByResponse))
      else DoRead(done.(held := None))
    case WriteFails(_) => rest.(end := Some(Failed))
  }

  predicate CanHappen(r: Router, e: Exchange, evs: seq<Event>)
    decreases |evs|
  {
    evs == [] || (Possible(r, e, evs[0]) && CanHappen(r, Next(r, e, evs[0]), evs[1..]))
  }

  function Finally(r: Router, e: Exchange, evs: seq<Event>): Exchange
    requires CanHappen(r, e, evs)
    decreases |evs|
  {
    if evs == [] then e else Finally(r, Next(r, e, evs[0]), evs[1..])
  }

  // ----- One response per request ------------------------------------------------------

  /** The operation is the one the tree prescribes for the request and the body read for it, if any. */
  ghost predicate Serves(r: Router, h: Header, read: Option<string>, op: Operation) {
    !h.upgrade && exists path :: Descends(r, h.target, path) && ServesAlong(r, h, path, read, op)
  }

  ghost predicate ServesAlong(r: Router, h: Header, path: seq<string>, read: Option<string>, op: Operation)
    requires Descends(r, h.target, path)
  {
    match Serve(r, h, path, false)
    case Written(response) => read.None? && op == Write(response)
    case ReadsBody(answer, header, who) =>
      op == (match read
             case None => ReadBody(answer, header, who)
             case Some(body) => Write(Signed(answer(header, body), who)))
    case Upgraded(_) => false
  }

  /** The outstanding operation reads the next request or serves the last one. */
  ghost predicate InProgress(r: Router, e: Exchange, op: Operation)
    requires |e.bodies| == |e.accepted|
  {
    && e.headerReads == |e.written| + 1
    && (op.ReadHeader? <==> e.parser)
    && (op.ReadHeader? ==> |e.accepted| == |e.written|)
    && (!op.ReadHeader? ==>
          && |e.accepted| == |e.written| + 1
          && Serves(r, e.accepted[|e.written|], e.bodies[|e.written|], op))
    && (op.Write? ==> e.held == Some(op.response))
  }

  ghost predicate Answered(r: Router, e: Exchange) {
    && |e.written| <= |e.accepted| == |e.bodies|
    && forall i | 0 <= i < |e.written| :: Serves(r, e.accepted[i], e.bodies[i], Write(e.written[i]))
  }

  /** Only the last response can ask for the end of the connection. */
  predicate EofLast(e: Exchange) {
    forall i | 0 <= i < |e.written| ::
      e.written[i].needsEof ==> i == |e.written| - 1 && e.end == Some(ClosedByResponse)
  }

  ghost predicate Inv(r: Router, e: Exchange) {
    && Answered(r, e)
    && EofLast(e)
    && |e.accepted| <= e.headerReads
    && |e.written| <= e.headerReads <= |e.written| + 1
    && (e.end.None? ==> |e.operations| == 1 && InProgress(r, e, e.operations[0]))
    && (e.end.Some? ==> e.operations == [])
  }

  lemma StartHolds(r: Router)
    ensures Inv(r, DoRead(IDLE))
  {
  }

  /** What a header that was read does. */
  lemma HeaderStep(r: Router, e: Exchange, ev: Event)
    requires Possible(r, e, ev) && ev.HeaderRead? && |e.operations| == 1
    ensures var h, e' := ev.header, Next(r, e, ev);
            && e'.accepted == e.accepted + [h] && e'.bodies == e.bodies + [None]
            && e'.written == e.written && e'.headerReads == e.headerReads && !e'.parser
            && (h.upgrade ==> e'.end == Some(HandedOver) && e'.operations == [] && e'.held == e.held)
            && (!h.upgrade ==>
                  && e'.end == e.end && |e'.operations| == 1 && Serves(r, h, None, e'.operations[0])
                  && !e'.operations[0].ReadHeader?
                  && e'.held == (if e'.operations[0].Write? then Some(e'.operations[0].response) else e.held))
  {
    var h := ev.header;
    assert Without(e.operations, 0) == [];
    if h.upgrade {
      AlwaysUpgraded(r, h, ev.path);
    } else {
      NotUpgraded(r, h, ev.path);
      var outcome := Serve(r, h, ev.path, false);
      hide Serve, Descends, Without;
      assert ServesAlong(r, h, ev.path, None, Next(r, e, ev).operations[0]);
    }
  }

  lemma HeaderReadKeepsInv(r: Router, e: Exchange, ev: Event)
    requires Inv(r, e) && Possible(r, e, ev) && ev.HeaderRead?
    ensures Inv(r, Next(r, e, ev))
  {
    var e' := Next(r, e, ev);
    HeaderStep(r, e, ev);
    hide Next, Serves, Descends;
    assert e'.accepted[..|e.accepted|] == e.accepted && e'.bodies[..|e.bodies|] == e.bodies;
  }

  lemma {:induction false} NotUpgraded(r: Router, h: Header, path: seq<string>)
    requires Descends(r, h.target, path)
    ensures !Serve(r, h, path, false).Upgraded?
    decreases |path|
  {
    if path != [] {
      NotUpgraded(r.subRouters[path[0]], Chop(h, |path[0]|), path[1..]);
    }
  }

  lemma AlwaysUpgraded(r: Router, h: Header, path: seq<string>)
    requires Descends(r, h.target, path)
    ensures Serve(r, h, path, true).Upgraded?
  {
    UpgradeMeaning(r, h, path);
  }

  lemma BodyAnswers(r: Router, h: Header, op: Operation, body: string)
    requires op.ReadBody? && Serves(r, h, None, op)
    ensures Serves(r, h, Some(body), Write(Signed(op.answer(op.header, body), op.who)))
  {
    var path :| Descends(r, h.target, path) && ServesAlong(r, h, path, None, op);
    hide Serve, Descends;
    assert ServesAlong(r, h, path, Some(body), Write(Signed(op.answer(op.header, body), op.who)));
  }

  lemma OneBody(r: Router, h: Header, read: Option<string>, op: Operation)
    requires op.ReadBody? && Serves(r, h, read, op)
    ensures read == None
  {
    hide Serve, Descends;
  }

  lemma BodyReadKeepsInv(r: Router, e: Exchange, ev: Event)
    requires Inv(r, e) && Possible(r, e, ev) && ev.BodyRead?
    ensures Inv(r, Next(r, e, ev))
  {
    hide Serves;
    var n, op := |e.written|, e.operations[0];
    assert Without(e.operations, 0) == [];
    OneBody(r, e.accepted[n], e.bodies[n], op);
    BodyAnswers(r, e.accepted[n], op, ev.body);
    assert Recorded(e.bodies, ev.body)[..n] == e.bodies[..n];
  }

  lemma WriteDoneKeepsInv(r: Router, e: Exchange, ev: Event)
    requires Inv(r, e) && Possible(r, e, ev) && ev.WriteDone?
    ensures Inv(r, Next(r, e, ev))
  {
    hide Serves;
    assert Without(e.operations, 0) == [];
  }

  lemma NextKeepsInv(r: Router, e: Exchange, ev: Event)
    requires Inv(r, e) && Possible(r, e, ev)
    ensures Inv(r, Next(r, e, ev))
  {
    if ev.HeaderRead? {
      HeaderReadKeepsInv(r, e, ev);
    } else if ev.BodyRead? {
      BodyReadKeepsInv(r, e, ev);
    } else if ev.WriteDone? {
      WriteDoneKeepsInv(r, e, ev);
    } else {
      hide Serves;
      assert Without(e.operations, 0) == [];
    }
  }

  lemma {:induction false} AlongEveryRun(r: Router, e: Exchange, evs: seq<Event>)
    requires Inv(r, e) && CanHappen(r, e, evs)
    ensures Inv(r, Finally(r, e, evs))
    decreases |evs|
  {
    if evs != [] {
      NextKeepsInv(r, e, evs[0]);
      hide Inv;
      AlongEveryRun(r, Next(r, e, evs[0]), evs[1..]);
    }
  }

  /**
   In every run of a connection, for every router tree: requests and responses
   alternate strictly, the i-th response is one the tree gives to the i-th
   request, computed from the body that was read for it if the endpoint wants
   one, at most one operation of the stream is outstanding, and exactly one
   as long as the connection has not come to an end; the response being written
   is held.
   */
  lemma OneResponsePerRequest(r: Router, evs: seq<Event>)
    requires CanHappen(r, DoRead(IDLE), evs)
    ensures var e := Finally(r, DoRead(IDLE), evs);
            && |e.written| <= |e.accepted| <= |e.written| + 1
            && |e.written| <= e.headerReads <= |e.written| + 1
            && |e.bodies| == |e.accepted|
            && (forall i | 0 <= i < |e.written| :: Serves(r, e.accepted[i], e.bodies[i], Write(e.written[i])))
            && |e.operations| == (if e.end.None? then 1 else 0)
            && (forall i | 0 <= i < |e.operations| ::
                  && (e.operations[i].Write? ==> e.held == Some(e.operations[i].response))
                  && (e.operations[i].ReadHeader? <==> e.parser))
            && EofLast(e)
  {
    hide *;
    StartHolds(r);
    AlongEveryRun(r, DoRead(IDLE), evs);
    InvMeans(r, Finally(r, DoRead(IDLE), evs));
  }

  lemma InvMeans(r: Router, e: Exchange)
    requires Inv(r, e)
    ensures |e.written| <= |e.accepted| <= |e.written| + 1 && |e.bodies| == |e.accepted|
    ensures |e.written| <= e.headerReads <= |e.written| + 1
    ensures forall i | 0 <= i < |e.written| :: Serves(r, e.accepted[i], e.bodies[i], Write(e.written[i]))
    ensures |e.operations| == (if e.end.None? then 1 else 0)
    ensures forall i | 0 <= i < |e.operations| ::
              && (e.operations[i].Write? ==> e.held == Some(e.operations[i].response))
              && (e.operations[i].ReadHeader? <==> e.parser)
    ensures EofLast(e)
  {
    hide Serves;
  }

  /** The requests of a run, and the bodies read for them. */
  function HeadersIn(evs: seq<Event>): seq<Header> {
    if evs == [] then []
    else (if evs[0].HeaderRead? then [evs[0].header] else []) + HeadersIn(evs[1..])
  }

  function BodiesStep(bodies: seq<Option<string>>, ev: Event): seq<Option<string>> {
    match ev
    case HeaderRead(_, _, _) => bodies + [None]
    case BodyRead(_, body) => Recorded(bodies, body)
    case _ => bodies
  }

  function BodiesAfter(bodies: seq<Option<string>>, evs: seq<Event>): seq<Option<string>>
    decreases |evs|
  {
    if evs == [] then bodies else BodiesAfter(BodiesStep(bodies, evs[0]), evs[1..])
  }

  lemma {:induction false} RecordsOfRun(r: Router, e: Exchange, evs: seq<Event>)
    requires CanHappen(r, e, evs)
    ensures Finally(r, e, evs).accepted == e.accepted + HeadersIn(evs)
    ensures Finally(r, e, evs).bodies == BodiesAfter(e.bodies, evs)
    decreases |evs|
  {
    if evs == [] {
      assert e.accepted + [] == e.accepted;
    } else {
      RecordsOfStep(r, e, evs[0]);
      hide Next, Possible, Recorded;
      RecordsOfRun(r, Next(r, e, evs[0]), evs[1..]);
      hide CanHappen, HeadersIn, BodiesStep;
      HeadersApart(e.accepted, evs);
    }
  }

  lemma HeadersApart(accepted: seq<Header>, evs: seq<Event>)
    requires evs != []
    ensures accepted + HeadersIn(evs)
            == (if evs[0].HeaderRead? then accepted + [evs[0].header] else accepted) + HeadersIn(evs[1..])
  {
    var rest := HeadersIn(evs[1..]);
    if evs[0].HeaderRead? {
      assert accepted + [evs[0].header] + rest == accepted + ([evs[0].header] + rest);
    } else {
      assert [] + rest == rest;
    }
  }

  lemma RecordsOfStep(r: Router, e: Exchange, ev: Event)
    requires Possible(r, e, ev)
    ensures Next(r, e, ev).accepted == if ev.HeaderRead? then e.accepted + [ev.header] else e.accepted
    ensures Next(r, e, ev).bodies == BodiesStep(e.bodies, ev)
  {
    hide Serve, Recorded;
  }

  /**
   Whatever router or policy of a tree with one server string answers, every
   response written in a run carries the string of the root, unless a handler
   sets a server field itself.
   */
  lemma ResponsesCarryRootString(r: Router, evs: seq<Event>, i: nat)
    requires ServerStrings.Uniform(r) && ServerStrings.LeavesServerOpen(r)
    requires CanHappen(r, DoRead(IDLE), evs) && i < |Finally(r, DoRead(IDLE), evs).written|
    ensures Finally(r, DoRead(IDLE), evs).written[i].server == Some(r.serverString)
  {
    hide *;
    OneResponsePerRequest(r, evs);
    var e := Finally(r, DoRead(IDLE), evs);
    AnswerCarriesRootString(r, e.accepted[i], e.bodies[i], e.written[i]);
  }

  lemma AnswerCarriesRootString(r: Router, h: Header, read: Option<string>, response: Response)
    requires ServerStrings.Uniform(r) && ServerStrings.LeavesServerOpen(r)
    requires Serves(r, h, read, Write(response))
    ensures response.server == Some(r.serverString)
  {
    var path :| Descends(r, h.target, path) && ServesAlong(r, h, path, read, Write(response));
    hide ServerStrings.Uniform, ServerStrings.LeavesServerOpen, Descends, Serve, Signed;
    ServerStrings.ResponsesCarryRootString(r, h, path);
  }

  // ----- Which policy or endpoint a response comes from ---------------------------------------

  /** What the endpoints of a router give for a request and the body read for it, if any. */
  ghost predicate EndpointGives(who: Router, seen: Header, read: Option<string>, given: Response) {
    || (NoneMatches(who, seen) && read == None && given == Response(400, None, "unknown request", false))
    || exists i: nat ::
         && IsFirstMatch(who, seen, i)
         && match who.endpoints[i].handler
            case Direct(respond) => read == None && given == respond(seen)
            case WithBody(answer) => read.Some? && given == answer(seen, read.value)
  }

  /** The router after `n` keys of a way down, the header it sees, and that no policy before it responds. */
  ghost predicate Reaches(r: Router, h: Header, path: seq<string>, n: nat, who: Router, seen: Header) {
    && Descends(r, h.target, path) && n <= |path|
    && IsRoute(r, path[..n]) && |Concat(path[..n])| <= |h.target|
    && who == Follow(r, path[..n]) && seen == h.(target := h.target[|Concat(path[..n])|..])
    && forall m: nat | m < n :: Passed(r, h, path, m)
  }

  ghost predicate Passed(r: Router, h: Header, path: seq<string>, m: nat) {
    && m <= |path| && IsRoute(r, path[..m]) && |Concat(path[..m])| <= |h.target|
    && NoPolicyResponds(Follow(r, path[..m]), h.(target := h.target[|Concat(path[..m])|..]))
  }

  /**
   The response comes from the first policy that responds on some way down or,
   if there is none, from the endpoints of its last router.
   */
  ghost predicate IsExplained(r: Router, h: Header, read: Option<string>, response: Response) {
    exists path, n, who, seen, given :: Explains(r, h, read, response, path, n, who, seen, given)
  }

  ghost predicate Explains(r: Router, h: Header, read: Option<string>, response: Response, path: seq<string>, n: nat,
                           who: Router, seen: Header, given: Response)
  {
    && Reaches(r, h, path, n, who, seen) && IsSent(response, given, who)
    && (|| (PolicyGives(who, seen, given) && read == None)
        || (n == |path| && NoPolicyResponds(who, seen) && EndpointGives(who, seen, read, given)))
  }

  /** The first router on the way that responds, or the last one. */
  lemma {:induction false} Stopping(r: Router, h: Header, path: seq<string>, from: nat) returns (n: nat)
    requires Descends(r, h.target, path) && from <= |path|
    requires forall m: nat | m < from :: PassesAt(r, h, path, m)
    ensures from <= n <= |path| && (forall m: nat | m < n :: PassesAt(r, h, path, m))
    ensures n == |path| || !PassesAt(r, h, path, n)
    decreases |path| - from
  {
    hide PassesAt, Descends;
    if from < |path| && PassesAt(r, h, path, from) {
      n := Stopping(r, h, path, from + 1);
    } else {
      n := from;
    }
  }

  lemma PassesMeans(r: Router, h: Header, path: seq<string>, n: nat)
    requires Descends(r, h.target, path) && n <= |path|
    ensures PassesAt(r, h, path, n) <==> Passed(r, h, path, n)
  {
    PartOfDescent(r, h.target, path, n);
    hide Descends, IsRoute, Verdict, NoPolicyResponds;
    VerdictMeaning(Follow(r, path[..n]), HeaderAt(h, path, n));
  }

  lemma ServesExplained(r: Router, h: Header, read: Option<string>, response: Response)
    requires Serves(r, h, read, Write(response))
    ensures IsExplained(r, h, read, response)
  {
    var path :| Descends(r, h.target, path) && ServesAlong(r, h, path, read, Write(response));
    hide *;
    var n := Stopping(r, h, path, 0);
    var who, seen := StopsThere(r, h, path, n);
    var given := GivenThere(r, h, path, n, read, response, who, seen);
    ExplainedBy(r, h, read, response, path, n, who, seen, given);
  }

  lemma ExplainedBy(r: Router, h: Header, read: Option<string>, response: Response, path: seq<string>, n: nat,
                    who: Router, seen: Header, given: Response)
    requires Explains(r, h, read, response, path, n, who, seen, given)
    ensures IsExplained(r, h, read, response)
  {
    hide Explains;
  }

  lemma StopsThere(r: Router, h: Header, path: seq<string>, n: nat) returns (who: Router, seen: Header)
    requires Descends(r, h.target, path) && n <= |path|
    requires (forall m: nat | m < n :: PassesAt(r, h, path, m)) && (n == |path| || !PassesAt(r, h, path, n))
    ensures Reaches(r, h, path, n, who, seen)
    ensures NoPolicyResponds(who, seen) <==> PassesAt(r, h, path, n)
    ensures Serve(r, h, path, false)
            == (if NoPolicyResponds(who, seen) then Answer(who, seen)
                else match Verdict(who, seen) case Some(v) => Written(v) case None => Answer(who, seen))
  {
    ServeMeaning(r, h, path, n);
    who, seen := Follow(r, path[..n]), HeaderAt(h, path, n);
    PassesMeans(r, h, path, n);
    PassesThere(r, h, path, n, who, seen);
    forall m: nat | m < n
      ensures Passed(r, h, path, m)
    {
      PassesMeans(r, h, path, m);
    }
    VerdictMeaning(who, seen);
    hide Serve, Descends, Answer, Verdict, PassesAt, NoPolicyResponds, PolicyGives, Follow, Passed, IsSent;
  }

  lemma PassesThere(r: Router, h: Header, path: seq<string>, n: nat, who: Router, seen: Header)
    requires Descends(r, h.target, path) && n <= |path| && IsRoute(r, path[..n]) && |Concat(path[..n])| <= |h.target|
    requires who == Follow(r, path[..n]) && seen == HeaderAt(h, path, n)
    ensures Passed(r, h, path, n) <==> NoPolicyResponds(who, seen)
  {
  }

  lemma GivenThere(r: Router, h: Header, path: seq<string>, n: nat, read: Option<string>, response: Response,
                   who: Router, seen: Header) returns (given: Response)
    requires Descends(r, h.target, path) && ServesAlong(r, h, path, read, Write(response))
    requires Reaches(r, h, path, n, who, seen) && (n == |path| || !NoPolicyResponds(who, seen))
    requires Serve(r, h, path, false)
             == (if NoPolicyResponds(who, seen) then Answer(who, seen)
                 else match Verdict(who, seen) case Some(v) => Written(v) case None => Answer(who, seen))
    ensures Explains(r, h, read, response, path, n, who, seen, given)
  {
    VerdictMeaning(who, seen);
    hide Serve, Descends, Reaches, Answer, Verdict, NoPolicyResponds, PolicyGives, EndpointGives, IsSent;
    if NoPolicyResponds(who, seen) {
      given := FromEndpoint(who, seen, read, response);
    } else {
      given :| PolicyGives(who, seen, given) && IsSent(Verdict(who, seen).value, given, who);
    }
  }

  lemma FromEndpoint(who: Router, seen: Header, read: Option<string>, response: Response) returns (given: Response)
    requires match Answer(who, seen)
             case Written(written) => read.None? && response == written
             case ReadsBody(answer, header, asked) =>
               read.Some? && response == Signed(answer(header, read.value), asked)
             case Upgraded(_) => false
    ensures EndpointGives(who, seen, read, given) && IsSent(response, given, who)
  {
    var i := FirstMatch(who, seen);
    AnswerMeaning(who, seen, i);
    hide Answer;
    if NoneMatches(who, seen) {
      given := BAD_REQUEST;
    } else {
      match who.endpoints[i].handler
      case Direct(respond) => given := respond(seen);
      case WithBody(answer) => given := answer(seen, read.value);
    }
  }

  /** Every response of a run is that of the policy or endpoint that has to answer its request. */
  lemma ResponsesExplained(r: Router, evs: seq<Event>, i: nat)
    requires CanHappen(r, DoRead(IDLE), evs) && i < |Finally(r, DoRead(IDLE), evs).written|
    ensures var e := Finally(r, DoRead(IDLE), evs);
            && |e.written| <= |e.accepted| == |e.bodies| && !e.accepted[i].upgrade
            && IsExplained(r, e.accepted[i], e.bodies[i], e.written[i])
  {
    var e := Finally(r, DoRead(IDLE), evs);
    hide *;
    OneResponsePerRequest(r, evs);
    NoUpgrade(r, e.accepted[i], e.bodies[i], Write(e.written[i]));
    ServesExplained(r, e.accepted[i], e.bodies[i], e.written[i]);
  }

  lemma NoUpgrade(r: Router, h: Header, read: Option<string>, op: Operation)
    requires Serves(r, h, read, op)
    ensures !h.upgrade
  {
  }

  // ----- A connection goes on until there is a reason to end it -------------------------------

  /** A response that asks for it ends the connection, and every other one is followed by a read. */
  ghost predicate GoesOn(e: Exchange) {
    && (e.end == Some(ClosedByResponse) <==> e.written != [] && e.written[|e.written| - 1].needsEof)
    && e.headerReads == |e.written| + (if e.end == Some(ClosedByResponse) then 0 else 1)
    && (forall i | 0 <= i < |e.operations| :: !e.operations[i].Write? ==> e.held == None)
    && (e.end == Some(ClosedByPeer) || e.end == Some(HandedOver) ==> e.held == None)
    && (e.end == Some(ClosedByResponse) ==> e.held == Some(e.written[|e.written| - 1]))
    && (e.end == Some(Failed) && |e.written| == |e.accepted| ==> e.held == None)
  }

  lemma OneOutstanding(r: Router, e: Exchange, ev: Event)
    requires Inv(r, e) && Possible(r, e, ev)
    ensures e.end == None && |e.operations| == 1 && ev.i == 0 && Without(e.operations, 0) == []
    ensures e.operations[0].Write? ==> e.held == Some(e.operations[0].response)
    ensures e.operations[0].ReadHeader? <==> |e.accepted| == |e.written|
  {
    hide Serves, Descends;
  }

  lemma NextGoesOn(r: Router, e: Exchange, ev: Event)
    requires e.end == None && |e.operations| == 1 && Without(e.operations, 0) == []
    requires e.operations[0].Write? ==> e.held == Some(e.operations[0].response)
    requires e.operations[0].ReadHeader? <==> |e.accepted| == |e.written|
    requires GoesOn(e) && Possible(r, e, ev)
    ensures GoesOn(Next(r, e, ev))
  {
    if ev.HeaderRead? {
      HeaderStep(r, e, ev);
      hide Next, Serves, Possible;
    } else {
      hide Serve, Descends, Without, Recorded;
    }
  }

  lemma {:induction false} RunGoesOn(r: Router, e: Exchange, evs: seq<Event>)
    requires Inv(r, e) && GoesOn(e) && CanHappen(r, e, evs)
    ensures GoesOn(Finally(r, e, evs))
    decreases |evs|
  {
    if evs != [] {
      NextKeepsInv(r, e, evs[0]);
      OneOutstanding(r, e, evs[0]);
      NextGoesOn(r, e, evs[0]);
      hide Inv, GoesOn;
      RunGoesOn(r, Next(r, e, evs[0]), evs[1..]);
    }
  }

  /** What ends a connection, but for a response that asks for it. */
  predicate Causes(ev: Event, end: End) {
    match end
    case Failed => (ev.HeaderFails? && !ev.closes) || ev.BodyFails? || ev.WriteFails?
    case ClosedByPeer => ev.HeaderFails? && ev.closes
    case HandedOver => ev.HeaderRead? && ev.header.upgrade
    case ClosedByResponse => ev.WriteDone?
  }

  function WritesIn(evs: seq<Event>): nat {
    if evs == [] then 0 else (if evs[0].WriteDone? then 1 else 0) + WritesIn(evs[1..])
  }

  lemma StepEnds(r: Router, e: Exchange, ev: Event, end: End)
    requires e.end == None && Possible(r, e, ev) && end != ClosedByResponse
    ensures Next(r, e, ev).end == Some(end) <==> Causes(ev, end)
    ensures |Next(r, e, ev).written| == |e.written| + (if ev.WriteDone? then 1 else 0)
  {
    hide Serve, Descends, Without, Recorded;
  }

  predicate AnyCauses(evs: seq<Event>, end: End) {
    exists ev | ev in evs :: Causes(ev, end)
  }

  lemma AnyApart(evs: seq<Event>, end: End)
    requires evs != []
    ensures AnyCauses(evs, end) <==> Causes(evs[0], end) || AnyCauses(evs[1..], end)
  {
    hide Causes;
    assert evs == [evs[0]] + evs[1..];
  }

  lemma {:induction false} RunEnds(r: Router, e: Exchange, evs: seq<Event>, end: End)
    requires Inv(r, e) && CanHappen(r, e, evs) && end != ClosedByResponse
    ensures Finally(r, e, evs).end == Some(end) <==> e.end == Some(end) || AnyCauses(evs, end)
    ensures |Finally(r, e, evs).written| == |e.written| + WritesIn(evs)
    decreases |evs|
  {
    if evs != [] {
      NextKeepsInv(r, e, evs[0]);
      OneOutstanding(r, e, evs[0]);
      StepEnds(r, e, evs[0], end);
      AnyApart(evs, end);
      hide Inv, Next, Possible, Causes, AnyCauses;
      RunEnds(r, Next(r, e, evs[0]), evs[1..], end);
    }
  }

  /**
   In every run, exactly why a connection ends: a failure, the peer, an upgrade,
   or a response that asks for it. Until then it goes on: when all requests are
   answered it awaits the header of the next one and holds no response.
   */
  lemma KeptAlive(r: Router, evs: seq<Event>)
    requires CanHappen(r, DoRead(IDLE), evs)
    ensures var e := Finally(r, DoRead(IDLE), evs);
            && (forall end | end != ClosedByResponse ::
                  e.end == Some(end) <==> AnyCauses(evs, end))
            && (e.end == Some(ClosedByResponse) <==> e.written != [] && e.written[|e.written| - 1].needsEof)
            && |e.written| == WritesIn(evs)
            && e.headerReads == |e.written| + (if e.end == Some(ClosedByResponse) then 0 else 1)
            && (e.end == Some(ClosedByResponse) ==> e.held == Some(e.written[|e.written| - 1]))
            && (e.end == Some(ClosedByPeer) || e.end == Some(HandedOver) ==> e.held == None)
            && (e.end == Some(Failed) && |e.written| == |e.accepted| ==> e.held == None)
            && (e.end == None && |e.written| == |e.accepted| ==>
                  e.operations == [ReadHeader] && e.parser && e.held == None)
            && (e.end == None && |e.written| < |e.accepted| ==>
                  |e.operations| == 1 && !e.operations[0].ReadHeader? && !e.parser
                  && (e.operations[0].ReadBody? ==> e.held == None))
  {
    StartHolds(r);
    assert GoesOn(DoRead(IDLE)) && DoRead(IDLE).end == None && DoRead(IDLE).written == [];
    var e := Finally(r, DoRead(IDLE), evs);
    hide Inv, CanHappen, Finally, AnyCauses, WritesIn, DoRead;
    AlongEveryRun(r, DoRead(IDLE), evs);
    RunGoesOn(r, DoRead(IDLE), evs);
    RunEnds(r, DoRead(IDLE), evs, Failed);
    forall end | end != ClosedByResponse
      ensures e.end == Some(end) <==> AnyCauses(evs, end)
    {
      RunEnds(r, DoRead(IDLE), evs, end);
    }
    if e.end == None {
      Awaiting(r, e);
    }
  }

  lemma Awaiting(r: Router, e: Exchange)
    requires Inv(r, e) && GoesOn(e) && e.end == None
    ensures |e.written| == |e.accepted| ==> e.operations == [ReadHeader] && e.parser && e.held == None
    ensures |e.written| < |e.accepted| ==>
              |e.operations| == 1 && !e.operations[0].ReadHeader? && !e.parser
              && (e.operations[0].ReadBody? ==> e.held == None)
  {
    hide Serves;
  }

  // ----- The code --------------------------------------------------------------------------

  /** A request whose header is rewritten on its way through the routers. */
  class RequestGenerator {
    var header: Header

    constructor (header: Header)
      ensures this.header == header
    {
      this.header := header;
    }

    method ChopResource(resource: string)
      requires |resource| <= |header.target|
      modifies this
      ensures header == Chop(old(header), |resource|)
    {
      header := header.(target := header.target[|resource|..]);
    }
  }

  class Connection {
    var parser: bool
    var response: Option<Response>
    ghost var operations: seq<Operation>
    ghost var headerReads: nat
    ghost var accepted: seq<Header>
    ghost var bodies: seq<Option<string>>
    ghost var written: seq<Response>
    ghost var end: Option<End>

    ghost function State(): Exchange
      reads this
    {
      Exchange(parser, response, operations, headerReads, accepted, bodies, written, end)
    }

    constructor ()
      ensures State() == IDLE
    {
      parser, response, operations, headerReads := false, None, [], 0;
      accepted, bodies, written, end := [], [], [], None;
    }

    method DoReadNext()
      modifies this
      ensures State() == DoRead(old(State()))
    {
      parser := true;
      operations, headerReads := operations + [ReadHeader], headerReads + 1;
    }

    method StartWrite(message: Response)
      modifies this
      ensures State() == DoWrite(old(State()), message)
    {
      response := Some(message);
      operations := operations + [Write(message)];
    }

    /** `request_generator::body`: the request is answered when its body is there. */
    method StartBody(answer: (Header, string) -> Response, header: Header, who: Router)
      modifies this
      ensures State() == Do(old(State()), ReadsBody(answer, header, who))
    {
      operations := operations + [ReadBody(answer, header, who)];
    }

    /** `on_read` after an error. */
    method OnReadError(i: nat, closes: bool)
      requires i < |operations| && operations[i].ReadHeader?
      modifies this
      ensures forall r | Possible(r, old(State()), HeaderFails(i, closes)) ::
                State() == Next(r, old(State()), HeaderFails(i, closes))
    {
      operations := Without(operations, i);
      end := Some(if closes then ClosedByPeer else Failed);
    }

    /** `on_read`: the parser is moved out, and the request handed to the routers. */
    method OnRead(r: Router, i: nat, header: Header) returns (ghost path: seq<string>)
      requires i < |operations| && operations[i].ReadHeader?
      modifies this
      ensures Possible(r, old(State()), HeaderRead(i, header, path))
      ensures State() == Next(r, old(State()), HeaderRead(i, header, path))
    {
      operations := Without(operations, i);
      accepted, bodies := accepted + [header], bodies + [None];
      parser := false;
      var gen := new RequestGenerator(header);
      if header.upgrade {
        end := Some(HandedOver);
        var _, p := HandleRequest(r, gen, this, true);
        path := p;
        AlwaysUpgraded(r, header, path);
      } else {
        var _, p := HandleRequest(r, gen, this, false);
        path := p;
      }
    }

    method OnBody(i: nat, answer: (Header, string) -> Response, header: Header, who: Router, body: string)
      requires i < |operations| && operations[i] == ReadBody(answer, header, who)
      modifies this
      ensures forall r | Possible(r, old(State()), BodyRead(i, body)) ::
                State() == Next(r, old(State()), BodyRead(i, body))
    {
      operations, bodies := Without(operations, i), Recorded(bodies, body);
      SendResponse(answer(header, body), this, who);
    }

    method OnWrite(i: nat, close: bool, failed: bool)
      requires i < |operations| && operations[i].Write? && close == operations[i].response.needsEof
      modifies this
      ensures failed ==> forall r | Possible(r, old(State()), WriteFails(i)) ::
                State() == Next(r, old(State()), WriteFails(i))
      ensures !failed ==> forall r | Possible(r, old(State()), WriteDone(i)) ::
                State() == Next(r, old(State()), WriteDone(i))
    {
      ghost var op := operations[i];
      operations := Without(operations, i);
      if failed {
        end := Some(Failed);
        return;
      }
      written := written + [op.response];
      if close {
        end := Some(ClosedByResponse);
        return;
      }
      response := None;
      DoReadNext();
    }
  }

  method SendResponse(response: Response, conn: Connection, r: Router)
    modifies conn
    ensures conn.State() == DoWrite(old(conn.State()), Signed(response, r))
  {
    var message := response;
    if message.server.None? {
      message := message.(server := Some(r.serverString));
    }
    conn.StartWrite(message);
  }

  method IsHandledByPolicies(r: Router, req: RequestGenerator, conn: Connection) returns (handled: bool)
    modifies conn
    ensures handled == Verdict(r, req.header).Some?
    ensures handled ==> conn.State() == DoWrite(old(conn.State()), Verdict(r, req.header).value)
    ensures !handled ==> conn.State() == old(conn.State())
  {
    ghost var responds := Responds(req.header);
    var i := 0;
    while i < |r.policies|
      invariant i <= |r.policies|
      invariant forall j | 0 <= j < i :: !responds(r.policies[j])
      invariant conn.State() == old(conn.State())
    {
      var policy := r.policies[i];
      if policy.matches(req.header.target) {
        var maybe := policy.validator(req.header);
        if maybe.Some? {
          FirstIndexUnique(r.policies, responds, i);
          SendResponse(maybe.value, conn, r);
          return true;
        }
      }
      i := i + 1;
    }
    FirstIndexUnique(r.policies, responds, i);
    return false;
  }

  method HandleHttpRequest(r: Router, req: RequestGenerator, conn: Connection)
    modifies conn
    ensures conn.State() == Do(old(conn.State()), Answer(r, req.header))
  {
    ghost var matches := Matches(req.header);
    var i := 0;
    while i < |r.endpoints|
      invariant i <= |r.endpoints|
      invariant forall j | 0 <= j < i :: !matches(r.endpoints[j])
      invariant conn.State() == old(conn.State())
    {
      if r.endpoints[i].matches(req.header) {
        FirstIndexUnique(r.endpoints, matches, i);
        match r.endpoints[i].handler {
          case Direct(respond) => SendResponse(respond(req.header), conn, r);
          case WithBody(answer) => conn.StartBody(answer, req.header, r);
        }
        return;
      }
      i := i + 1;
    }
    FirstIndexUnique(r.endpoints, matches, i);
    SendResponse(BAD_REQUEST, conn, r);
  }

  method HandleWsRequest(r: Router, req: RequestGenerator) returns (handler: Option<nat>)
    ensures Upgraded(handler) == Upgrade(r, req.header)
  {
    var resource := ResourceString(req.header.target);
    ghost var takes := Takes(resource);
    var i := 0;
    while i < |r.sockets|
      invariant i <= |r.sockets|
      invariant forall j | 0 <= j < i :: !takes(r.sockets[j])
    {
      var socket := r.sockets[i];
      i := i + 1;
      if socket.resource != resource {
        continue;
      }
      if socket.handler.None? {
        continue;
      }
      FirstIndexUnique(r.sockets, takes, i - 1);
      return socket.handler;
    }
    FirstIndexUnique(r.sockets, takes, i);
    return None;
  }

  /**
   `handle_request`. The sub-routers are looked at in an arbitrary order, and
   the target of the request is rewritten at each step down.
   */
  method HandleRequest(r: Router, req: RequestGenerator, conn: Connection, isWebsocket: bool)
    returns (handler: Option<nat>, ghost path: seq<string>)
    modifies req, conn
    ensures Descends(r, old(req.header.target), path)
    ensures conn.State() == Do(old(conn.State()), Serve(r, old(req.header), path, isWebsocket))
    ensures isWebsocket ==> Upgraded(handler) == Serve(r, old(req.header), path, true)
    ensures req.header == old(req.header).(target := FinalTarget(r, old(req.header), path, isWebsocket))
    decreases r
  {
    handler := None;
    if !isWebsocket {
      var handled := IsHandledByPolicies(r, req, conn);
      if handled {
        path := SomeDescent(r, req.header.target);
        return;
      }
    }
    var keys := r.subRouters.Keys;
    while keys != {}
      invariant keys <= r.subRouters.Keys
      invariant forall k | k in r.subRouters && k !in keys :: !(k <= ResourceString(req.header.target))
      invariant conn.State() == old(conn.State()) && req.header == old(req.header)
      decreases |keys|
    {
      var resourceBase :| resourceBase in keys;
      keys := keys - {resourceBase};
      if !(resourceBase <= ResourceString(req.header.target)) {
        continue;
      }
      req.ChopResource(resourceBase);
      ghost var below;
      handler, below := HandleRequest(r.subRouters[resourceBase], req, conn, isWebsocket);
      path := [resourceBase] + below;
      assert path[1..] == below;
      return;
    }
    path := [];
    if isWebsocket {
      handler := HandleWsRequest(r, req);
    } else {
      HandleHttpRequest(r, req, conn);
    }
  }
}
