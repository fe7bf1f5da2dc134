/**
 Sessions: the manager (lib/malloy/core/http/session/manager.cpp), the memory
 storage (storage_memory.hpp) and the sessions (session.hpp).

 A state maps session ids to session objects `S` and each object to its fields.
 Ids, new objects and clock readings come from outside.
 */
module Sessions {
  import opened Headers
  import Text
  import opened Wrappers

  const COOKIE_NAME := "sessionId"

  datatype Object = Object(id: string, data: map<string, string>, accessed: int)

  datatype State<!S> = State(sessions: map<string, S>, objects: map<S, Object>)

  // ----- A session ---------------------------------------------------------------------

  /** `set`: the new fields and what is returned. */
  function Set(o: Object, key: string, value: string, now: int): (Object, bool) {
    if key == "" || value == "" then (o, false)
    else (o.(data := o.data[key := value], accessed := now), true)
  }

  function Get(o: Object, key: string, now: int): (Object, Option<string>) {
    if key == "" then (o, None)
    else
      var r := o.(accessed := now);
      if key in o.data && o.data[key] != "" then (r, Some(o.data[key])) else (r, None)
  }

  function Remove(o: Object, key: string, now: int): (Object, bool) {
    if key == "" then (o, false) else (o.(data := o.data - {key}, accessed := now), key in o.data)
  }

  // ----- The manager ---------------------------------------------------------------------

  function IdOf(cookie: Option<string>): Option<string> {
    CookieValueSpec(cookie, COOKIE_NAME)
  }

  predicate Known<S>(st: State<S>, cookie: Option<string>) {
    IdOf(cookie).Some? && IdOf(cookie).value in st.sessions
  }

  /** `storage_memory::create`: a taken id keeps its session. */
  function Create<S>(st: State<S>, id: string, s: S, now: int): State<S> {
    State(if id in st.sessions then st.sessions else st.sessions[id := s],
          st.objects[s := Object(id, map[], now)])
  }

  /** `start`: the session and the cookie added to the response, if any. */
  function Start<S>(st: State<S>, cookie: Option<string>, id: string, s: S, now: int): (State<S>, S, Option<Cookie>) {
    if Known(st, cookie) then (st, st.sessions[IdOf(cookie).value], None)
    else (Create(st, id, s, now), s, Some(Cookie(COOKIE_NAME, id)))
  }

  /** `destroy`: whether the cookie is cleared. */
  function Destroy<S>(st: State<S>, cookie: Option<string>): (State<S>, bool) {
    if IdOf(cookie).None? then (st, false)
    else (st.(sessions := st.sessions - {IdOf(cookie).value}), true)
  }

  /** `clock` is what the clock says when the session of an id is looked at. */
  predicate Expired<S>(st: State<S>, id: string, limit: int, clock: string -> int)
    requires id in st.sessions && st.sessions[id] in st.objects
  {
    clock(id) - st.objects[st.sessions[id]].accessed > limit
  }

  predicate Closed<S>(st: State<S>) {
    forall id | id in st.sessions :: st.sessions[id] in st.objects
  }

  function ExpiredIds<S>(st: State<S>, limit: int, clock: string -> int): set<string>
    requires Closed(st)
  {
    set id | id in st.sessions && Expired(st, id, limit, clock)
  }

  /** `destroy_expired` of the manager. */
  function Sweep<S>(st: State<S>, limit: int, clock: string -> int): (State<S>, nat)
    requires Closed(st)
  {
    if limit <= 0 then (st, 0)
    else
      (st.(sessions := st.sessions - ExpiredIds(st, limit, clock)), |ExpiredIds(st, limit, clock)|)
  }

  // ----- Runs --------------------------------------------------------------------------------

  datatype Event<S> =
    | Started(cookie: Option<string>, id: string, s: S, now: int)
    | Destroyed(cookie: Option<string>)
    | Swept(limit: int, clock: string -> int)
    | DidSet(s: S, key: string, value: string, now: int)
    | DidGet(s: S, key: string, now: int)
    | DidRemove(s: S, key: string, now: int)

  /** An id that can be the value of a cookie, as those of `generate_id` can. */
  predicate IsId(id: string) {
    id != "" && '=' !in id && ';' !in id
  }

  /** A new object is a new one, and its id is no object's. */
  predicate Enabled<S>(st: State<S>, ev: Event<S>) {
    match ev
    case Started(_, id, s, _) => IsId(id) && s !in st.objects && forall o | o in st.objects :: st.objects[o].id != id
    case Destroyed(_) => true
    case Swept(_, _) => true
    case DidSet(s, _, _, _) => s in st.objects
    case DidGet(s, _, _) => s in st.objects
    case DidRemove(s, _, _) => s in st.objects
  }

  function Touch(o: Object, ev: Event): Object {
    match ev
    case DidSet(_, key, value, now) => Set(o, key, value, now).0
    case DidGet(_, key, now) => Get(o, key, now).0
    case DidRemove(_, key, now) => Remove(o, key, now).0
    case _ => o
  }

  function Step<S>(st: State<S>, ev: Event<S>): (r: State<S>)
    requires Closed(st) && Enabled(st, ev)
    ensures Closed(r)
  {
    match ev
    case Started(cookie, id, s, now) => Start(st, cookie, id, s, now).0
    case Destroyed(cookie) => Destroy(st, cookie).0
    case Swept(limit, clock) => Sweep(st, limit, clock).0
    case _ => st.(objects := st.objects[ev.s := Touch(st.objects[ev.s], ev)])
  }

  predicate CanHappen<S>(st: State<S>, evs: seq<Event<S>>)
    requires Closed(st)
    decreases |evs|
  {
    evs == [] || (Enabled(st, evs[0]) && CanHappen(Step(st, evs[0]), evs[1..]))
  }

  function After<S>(st: State<S>, evs: seq<Event<S>>): (r: State<S>)
    requires Closed(st) && CanHappen(st, evs)
    ensures Closed(r)
    decreases |evs|
  {
    if evs == [] then st else After(Step(st, evs[0]), evs[1..])
  }

  // ----- What every state keeps -----------------------------------------------------------------

  ghost predicate NothingEmpty(o: Object) {
    "" !in o.data && forall key | key in o.data :: o.data[key] != ""
  }

  /** A stored session has the id it is stored under; ids are not shared; nothing empty is kept. */
  ghost predicate Inv<S>(st: State<S>) {
    && Closed(st)
    && (forall id | id in st.sessions :: st.objects[st.sessions[id]].id == id)
    && (forall s, t | s in st.objects && t in st.objects :: st.objects[s].id == st.objects[t].id ==> s == t)
    && (forall s | s in st.objects :: NothingEmpty(st.objects[s]))
  }

  lemma TouchKeeps(o: Object, ev: Event)
    requires NothingEmpty(o)
    ensures NothingEmpty(Touch(o, ev)) && Touch(o, ev).id == o.id
  {
  }

  lemma StepKeepsInv<S>(st: State<S>, ev: Event<S>)
    requires Inv(st) && Enabled(st, ev)
    ensures Inv(Step(st, ev))
    ensures forall s | s in st.objects :: s in Step(st, ev).objects && Step(st, ev).objects[s].id == st.objects[s].id
  {
    if ev.Started? {
      StartKeepsInv(st, ev);
    } else if ev.DidSet? || ev.DidGet? || ev.DidRemove? {
      TouchKeeps(st.objects[ev.s], ev);
    }
    hide Touch, Start, NothingEmpty;
  }

  lemma StartKeepsInv<S>(st: State<S>, ev: Event<S>)
    requires Inv(st) && Enabled(st, ev) && ev.Started?
    ensures Inv(Start(st, ev.cookie, ev.id, ev.s, ev.now).0)
    ensures var r := Start(st, ev.cookie, ev.id, ev.s, ev.now).0;
            forall s | s in st.objects :: s in r.objects && r.objects[s] == st.objects[s]
  {
    hide IdOf;
  }

  /** Without a known cookie `start` stores the session it returns exactly if the new id is not in use. */
  lemma StartNeedsFreshId<S>(st: State<S>, cookie: Option<string>, id: string, s: S, now: int)
    requires Closed(st) && !Known(st, cookie) && s !in st.objects
    ensures var (next, session, _) := Start(st, cookie, id, s, now);
            session == s && (next.sessions[id] == session <==> id !in st.sessions)
  {
  }

  /** In every run: no session ever stores an empty key or an empty value, and the rest of `Inv`. */
  lemma {:induction false} AlongEveryRun<S>(st: State<S>, evs: seq<Event<S>>)
    requires Inv(st) && CanHappen(st, evs)
    ensures Inv(After(st, evs))
    ensures forall s | s in After(st, evs).objects :: NothingEmpty(After(st, evs).objects[s])
    decreases |evs|
  {
    if evs != [] {
      StepKeepsInv(st, evs[0]);
      hide Step, Enabled, NothingEmpty;
      AlongEveryRun(Step(st, evs[0]), evs[1..]);
    }
  }

  // ----- The life of a session --------------------------------------------------------------------

  /** The event takes the session of that id out of the storage. */
  predicate Ends<S>(st: State<S>, ev: Event<S>, id: string)
    requires Closed(st) && id in st.sessions
  {
    match ev
    case Destroyed(cookie) => IdOf(cookie).Some? && IdOf(cookie).value == id
    case Swept(limit, clock) => limit > 0 && Expired(st, id, limit, clock)
    case _ => false
  }

  predicate EndsIn<S>(st: State<S>, evs: seq<Event<S>>, id: string)
    requires Closed(st) && CanHappen(st, evs) && id in st.sessions
    decreases |evs|
  {
    evs != [] && (Ends(st, evs[0], id) || (id in Step(st, evs[0]).sessions && EndsIn(Step(st, evs[0]), evs[1..], id)))
  }

  lemma StepAndSession<S>(st: State<S>, ev: Event<S>, id: string)
    requires Inv(st) && Enabled(st, ev) && id in st.sessions
    ensures id in Step(st, ev).sessions <==> !Ends(st, ev, id)
    ensures id in Step(st, ev).sessions ==> Step(st, ev).sessions[id] == st.sessions[id]
  {
    hide Touch;
  }

  /** Some object has that id, which no later session gets. */
  ghost predicate Taken<S>(st: State<S>, id: string) {
    exists s :: s in st.objects && st.objects[s].id == id
  }

  lemma StepNeverRevives<S>(st: State<S>, ev: Event<S>, id: string)
    requires Inv(st) && Enabled(st, ev) && Taken(st, id)
    ensures Taken(Step(st, ev), id)
    ensures id !in st.sessions ==> id !in Step(st, ev).sessions
  {
    StepKeepsInv(st, ev);
    var s :| s in st.objects && st.objects[s].id == id;
    assert s in Step(st, ev).objects && Step(st, ev).objects[s].id == id;
    hide Touch, Inv;
  }

  /** An id is stored after a run exactly if nothing in the run takes it out; then it is the same session. */
  lemma {:induction false} SessionLives<S>(st: State<S>, evs: seq<Event<S>>, id: string)
    requires Inv(st) && CanHappen(st, evs) && id in st.sessions
    ensures id in After(st, evs).sessions <==> !EndsIn(st, evs, id)
    ensures id in After(st, evs).sessions ==> After(st, evs).sessions[id] == st.sessions[id]
    decreases |evs|
  {
    if evs != [] {
      StepAndSession(st, evs[0], id);
      StepKeepsInv(st, evs[0]);
      assert st.sessions[id] in st.objects;
      assert Taken(st, id);
      StepNeverRevives(st, evs[0], id);
      hide Step, Enabled, Inv, Ends;
      if Ends(st, evs[0], id) {
        SessionStaysAway(Step(st, evs[0]), evs[1..], id);
      } else {
        SessionLives(Step(st, evs[0]), evs[1..], id);
      }
    }
  }

  lemma {:induction false} SessionStaysAway<S>(st: State<S>, evs: seq<Event<S>>, id: string)
    requires Inv(st) && CanHappen(st, evs) && Taken(st, id) && id !in st.sessions
    ensures id !in After(st, evs).sessions
    decreases |evs|
  {
    if evs != [] {
      StepKeepsInv(st, evs[0]);
      StepNeverRevives(st, evs[0], id);
      hide Step, Enabled, Inv, Taken;
      SessionStaysAway(Step(st, evs[0]), evs[1..], id);
    }
  }

  lemma {:induction false} FirstAmongOthers(cookies: seq<Cookie>, i: nat, id: string)
    requires i < |cookies| && cookies[i] == Cookie(COOKIE_NAME, id) && ValueRead(id) == Some(id)
    requires forall j | 0 <= j < i :: cookies[j].name != COOKIE_NAME
    ensures FirstNamed(cookies, COOKIE_NAME) == Some(id)
  {
    if i > 0 {
      FirstAmongOthers(cookies[1..], i - 1, id);
    }
  }

  /** What a request with the session cookie among any others, behind differently named ones, is known by. */
  lemma IdOfRequest(cookies: seq<Cookie>, i: nat, id: string)
    requires forall c | c in cookies :: IsCookie(c)
    requires i < |cookies| && cookies[i] == Cookie(COOKIE_NAME, id) && IsId(id)
    requires forall j | 0 <= j < i :: cookies[j].name != COOKIE_NAME
    ensures IdOf(Some(RenderCookies(cookies))) == Some(id)
  {
    WholeValueRead(id);
    FirstAmongOthers(cookies, i, id);
    CookieValueOfRender(cookies, COOKIE_NAME);
  }

  lemma FreshIdNotStored<S>(st: State<S>, id: string)
    requires Inv(st) && forall o | o in st.objects :: st.objects[o].id != id
    ensures id !in st.sessions
  {
  }

  /**
   A session that `start` made, and any run after it: a later request that
   carries the issued cookie gets that same session and no new cookie exactly if
   nothing in the run destroyed or swept it; otherwise it gets the new session
   and a cookie for it.
   */
  lemma SameSessionUntilEnded<S>(st: State<S>, first: Event<S>, evs: seq<Event<S>>,
                                 cookies: seq<Cookie>, i: nat, later: Event<S>)
    requires Inv(st) && first.Started? && Enabled(st, first) && !Known(st, first.cookie)
    requires CanHappen(Step(st, first), evs)
    requires later.Started? && Enabled(After(Step(st, first), evs), later)
    requires forall c | c in cookies :: IsCookie(c)
    requires i < |cookies| && cookies[i] == Cookie(COOKIE_NAME, first.id)
    requires forall j | 0 <= j < i :: cookies[j].name != COOKIE_NAME
    requires later.cookie == Some(RenderCookies(cookies))
    ensures first.id in Step(st, first).sessions
    ensures var st2 := After(Step(st, first), evs);
            var (next, session, cookie) := Start(st2, later.cookie, later.id, later.s, later.now);
            if EndsIn(Step(st, first), evs, first.id)
            then session == later.s && cookie == Some(Cookie(COOKIE_NAME, later.id))
            else session == first.s && cookie == None && next == st2
  {
    var st1 := Step(st, first);
    StepKeepsInv(st, first);
    IdOfRequest(cookies, i, first.id);
    FreshIdNotStored(st, first.id);
    assert first.id in st1.sessions && st1.sessions[first.id] == first.s by {
      hide IdOf;
    }
    hide *;
    SessionLives(st1, evs, first.id);
  }

  // ----- Access times and sweeping -------------------------------------------------------------------

  /** The event updates the access time of the session. */
  predicate Touches<S(==)>(ev: Event<S>, s: S) {
    match ev
    case DidSet(t, key, value, _) => t == s && key != "" && value != ""
    case DidGet(t, key, _) => t == s && key != ""
    case DidRemove(t, key, _) => t == s && key != ""
    case _ => false
  }

  /** The time of the last event that touches the session. */
  function LastTouch<S(==)>(evs: seq<Event<S>>, s: S, before: int): int {
    if evs == [] then before
    else LastTouch(evs[1..], s, if Touches(evs[0], s) then evs[0].now else before)
  }

  lemma StepAccess<S>(st: State<S>, ev: Event<S>, s: S)
    requires Closed(st) && Enabled(st, ev) && s in st.objects
    ensures s in Step(st, ev).objects
    ensures Step(st, ev).objects[s].accessed == if Touches(ev, s) then ev.now else st.objects[s].accessed
  {
  }

  lemma {:induction false} AccessTimeIsLastTouch<S>(st: State<S>, evs: seq<Event<S>>, s: S)
    requires Closed(st) && CanHappen(st, evs) && s in st.objects
    ensures s in After(st, evs).objects
    ensures After(st, evs).objects[s].accessed == LastTouch(evs, s, st.objects[s].accessed)
    decreases |evs|
  {
    if evs != [] {
      StepAccess(st, evs[0], s);
      hide Step, Enabled, Touches;
      AccessTimeIsLastTouch(Step(st, evs[0]), evs[1..], s);
    }
  }

  /**
   A sweep takes out exactly the sessions untouched for longer than a positive
   limit, keeps the others as they are, and returns by how many there are fewer.
   */
  lemma SweepIsExact<S>(st: State<S>, limit: int, clock: string -> int, id: string)
    requires Closed(st)
    ensures var (swept, count) := Sweep(st, limit, clock);
            && count == |st.sessions| - |swept.sessions|
            && swept.objects == st.objects
            && (id in swept.sessions <==>
                id in st.sessions
                && (limit <= 0 || clock(id) - st.objects[st.sessions[id]].accessed <= limit))
            && (id in swept.sessions ==> swept.sessions[id] == st.sessions[id])
  {
    if limit > 0 {
      var gone := ExpiredIds(st, limit, clock);
      MinusSize(st.sessions, gone);
    }
  }

  lemma MinusSize<S>(m: map<string, S>, gone: set<string>)
    requires gone <= m.Keys
    ensures |m - gone| == |m| - |gone|
  {
    assert (m - gone).Keys == m.Keys - gone;
    assert m.Keys == (m.Keys - gone) + gone;
  }

  // ----- What a session keeps -------------------------------------------------------------------------

  /** The value last set for a key and not removed since. */
  function Stored<S(==)>(evs: seq<Event<S>>, s: S, key: string, before: Option<string>): Option<string> {
    if evs == [] then before
    else
      Stored(evs[1..], s, key,
             match evs[0]
             case DidSet(t, k, value, _) => if t == s && k == key && value != "" then Some(value) else before
             case DidRemove(t, k, _) => if t == s && k == key then None else before
             case _ => before)
  }

  /** What a session has under a key. */
  function Has(o: Object, key: string): Option<string> {
    if key in o.data then Some(o.data[key]) else None
  }

  lemma StepStores<S>(st: State<S>, ev: Event<S>, s: S, key: string)
    requires Closed(st) && Enabled(st, ev) && s in st.objects && key != ""
    ensures s in Step(st, ev).objects
    ensures Has(Step(st, ev).objects[s], key) == Stored([ev], s, key, Has(st.objects[s], key))
  {
    assert [ev][1..] == [];
  }

  lemma {:induction false} RunStores<S>(st: State<S>, evs: seq<Event<S>>, s: S, key: string)
    requires Closed(st) && CanHappen(st, evs) && s in st.objects && key != ""
    ensures s in After(st, evs).objects
    ensures Has(After(st, evs).objects[s], key) == Stored(evs, s, key, Has(st.objects[s], key))
    decreases |evs|
  {
    if evs != [] {
      StepStores(st, evs[0], s, key);
      assert [evs[0]][1..] == [];
      hide Step, Enabled, Has;
      RunStores(Step(st, evs[0]), evs[1..], s, key);
    }
  }

  /**
   After any run a session returns for a key just the value last set for it and
   not removed since, and says truly whether it has set or removed something.
   */
  lemma ValuesOfRun<S>(st: State<S>, evs: seq<Event<S>>, s: S, key: string, value: string, now: int)
    requires Inv(st) && CanHappen(st, evs) && s in st.objects
    ensures s in After(st, evs).objects
    ensures var o, stored := After(st, evs).objects[s], Stored(evs, s, key, Has(st.objects[s], key));
            && Get(o, key, now).1 == (if key == "" then None else stored)
            && Remove(o, key, now).1 == (key != "" && stored.Some?)
            && Set(o, key, value, now).1 == (key != "" && value != "")
  {
    AlongEveryRun(st, evs);
    AccessTimeIsLastTouch(st, evs, s);
    if key != "" {
      RunStores(st, evs, s, key);
    }
    hide After, CanHappen, Stored, Inv;
  }

  /** Even if one were stored, no session returns an empty value. */
  lemma NoEmptyValue(o: Object, key: string, now: int)
    ensures Get(o, key, now).1 != Some("")
    ensures key != "" && Has(o, key) != Some("") ==> Get(o, key, now).1 == Has(o, key)
  {
  }

  /** A session that `start` makes has its id, no values, and was accessed when it was made. */
  lemma ValuesOfNewSession<S>(st: State<S>, first: Event<S>, evs: seq<Event<S>>, key: string, now: int)
    requires Inv(st) && first.Started? && Enabled(st, first) && !Known(st, first.cookie)
    requires CanHappen(Step(st, first), evs)
    ensures first.s in After(Step(st, first), evs).objects
    ensures var o := After(Step(st, first), evs).objects[first.s];
            && o.id == first.id
            && o.accessed == LastTouch(evs, first.s, first.now)
            && Get(o, key, now).1 == (if key == "" then None else Stored(evs, first.s, key, None))
  {
    var st1 := Step(st, first);
    StepKeepsInv(st, first);
    NewObject(st, first);
    hide *;
    InvIsClosed(st1);
    ValuesOfRun(st1, evs, first.s, key, "", now);
    AccessTimeIsLastTouch(st1, evs, first.s);
    IdsStay(st1, evs, first.s);
    NothingHeld(first.id, first.now, key);
  }

  lemma NewObject<S>(st: State<S>, first: Event<S>)
    requires Closed(st) && first.Started? && Enabled(st, first) && !Known(st, first.cookie)
    ensures first.s in Step(st, first).objects
    ensures Step(st, first).objects[first.s] == Object(first.id, map[], first.now)
  {
  }

  lemma InvIsClosed<S>(st: State<S>)
    requires Inv(st)
    ensures Closed(st)
  {
  }

  lemma NothingHeld(id: string, now: int, key: string)
    ensures Has(Object(id, map[], now), key) == None
  {
  }

  lemma {:induction false} IdsStay<S>(st: State<S>, evs: seq<Event<S>>, s: S)
    requires Inv(st) && CanHappen(st, evs) && s in st.objects
    ensures s in After(st, evs).objects && After(st, evs).objects[s].id == st.objects[s].id
    decreases |evs|
  {
    if evs != [] {
      StepKeepsInv(st, evs[0]);
      hide Step, Enabled, Inv;
      IdsStay(Step(st, evs[0]), evs[1..], s);
    }
  }

  /**
   `destroy` for a request with the session cookie: that id is gone, everything
   else stays, and the cookie is cleared. Without any cookie nothing happens.
   */
  lemma DestroyMeaning<S>(st: State<S>, cookies: seq<Cookie>, i: nat, id: string, other: string)
    requires forall c | c in cookies :: IsCookie(c)
    requires i < |cookies| && cookies[i] == Cookie("sessionId", id) && IsId(id)
    requires forall j | 0 <= j < i :: cookies[j].name != "sessionId"
    ensures var (next, cleared) := Destroy(st, Some(RenderCookies(cookies)));
            && cleared && id !in next.sessions && next.objects == st.objects
            && (other != id ==> (other in next.sessions <==> other in st.sessions))
            && (other != id && other in st.sessions ==> next.sessions[other] == st.sessions[other])
    ensures Destroy(st, None) == (st, false)
  {
    IdOfRequest(cookies, i, id);
    hide RenderCookies;
  }

  /** The sessions with the expired ones erased, but for ids not yet looked at. */
  ghost predicate SweptBut<S>(st: State<S>, sessions: map<string, S>, left: set<string>, limit: int,
                              clock: string -> int)
    requires Closed(st)
  {
    && (forall id | id in sessions :: id in st.sessions && sessions[id] == st.sessions[id])
    && (forall id | id in left :: id in sessions)
    && (forall id | id in st.sessions && id !in left :: id in sessions <==> !Expired(st, id, limit, clock))
  }

  lemma SweepTurn<S>(st: State<S>, sessions: map<string, S>, left: set<string>, id: string, limit: int,
                     clock: string -> int)
    requires Closed(st) && SweptBut(st, sessions, left, limit, clock) && id in left
    ensures id in sessions && id in st.sessions && sessions[id] == st.sessions[id]
    ensures |sessions - {id}| == |sessions| - 1
    ensures SweptBut(st, if Expired(st, id, limit, clock) then sessions - {id} else sessions, left - {id}, limit, clock)
  {
    MinusSize(sessions, {id});
  }

  lemma UnexpiredAreLeft<S>(st: State<S>, left: map<string, S>, limit: int, clock: string -> int)
    requires Closed(st) && SweptBut(st, left, {}, limit, clock)
    ensures left == st.sessions - ExpiredIds(st, limit, clock)
    ensures |left| + |ExpiredIds(st, limit, clock)| == |st.sessions|
  {
    assert left == st.sessions - ExpiredIds(st, limit, clock);
    MinusSize(st.sessions, ExpiredIds(st, limit, clock));
  }

  // ----- The code ---------------------------------------------------------------------------------------

  class Session {
    const id: string
    var data: map<string, string>
    var accessTime: int

    ghost function Fields(): Object
      reads this
    {
      Object(id, data, accessTime)
    }

    constructor (id: string, now: int)
      ensures Fields() == Object(id, map[], now)
    {
      this.id, data, accessTime := id, map[], now;
    }

    method SetValue(key: string, value: string, now: int) returns (ok: bool)
      modifies this
      ensures Fields() == Set(old(Fields()), key, value, now).0
      ensures ok == Set(old(Fields()), key, value, now).1
    {
      if key == "" || value == "" {
        return false;
      }
      accessTime := now;
      data := data[key := value];
      return true;
    }

    method GetValue(key: string, now: int) returns (r: Option<string>)
      modifies this
      ensures Fields() == Get(old(Fields()), key, now).0
      ensures r == Get(old(Fields()), key, now).1
    {
      if key == "" {
        return None;
      }
      accessTime := now;
      r := if key in data then Some(data[key]) else None;
      if r.Some? && r.value == "" {
        return None;
      }
    }

    method RemoveValue(key: string, now: int) returns (ok: bool)
      modifies this
      ensures Fields() == Remove(old(Fields()), key, now).0
      ensures ok == Remove(old(Fields()), key, now).1
    {
      if key == "" {
        return false;
      }
      accessTime := now;
      ok := key in data;
      data := data - {key};
    }
  }

  /** `storage_memory`; the ghost field has all sessions made so far, stored or not. */
  class StorageMemory {
    var sessions: map<string, Session>
    ghost var made: set<Session>

    ghost function Objects(): map<Session, Object>
      reads this`made, made
    {
      map s | s in made :: s.Fields()
    }

    ghost function View(): State<Session>
      reads this, made
    {
      State(sessions, Objects())
    }

    ghost predicate Valid()
      reads this, made
    {
      Closed(View())
    }

    constructor ()
      ensures Valid() && View() == State(map[], map[])
    {
      sessions, made := map[], {};
    }

    method CreateSession(id: string, now: int) returns (s: Session)
      requires Valid()
      modifies this
      ensures fresh(s) && Valid() && View() == Create(old(View()), id, s, now)
      ensures made == old(made) + {s}
    {
      s := new Session(id, now);
      made := made + {s};
      if id !in sessions {
        sessions := sessions[id := s];
      }
      assert View().objects == old(View()).objects[s := Object(id, map[], now)];
    }

    method GetSession(id: string) returns (s: Session?)
      ensures s == if id in sessions then sessions[id] else null
    {
      if id !in sessions {
        return null;
      }
      return sessions[id];
    }

    method DestroySession(id: string)
      requires Valid()
      modifies this`sessions
      ensures Valid() && View() == old(View()).(sessions := old(sessions) - {id})
    {
      sessions := sessions - {id};
    }

    /** `std::erase_if` over the sessions, which asks the clock anew for each. */
    static method EraseExpired(all: map<string, Session>, limit: int, clock: string -> int, ghost st: State<Session>)
      returns (kept: map<string, Session>, count: nat)
      requires Closed(st) && st.sessions == all
      requires forall id | id in all :: all[id].accessTime == st.objects[all[id]].accessed
      ensures kept == all - ExpiredIds(st, limit, clock) && count == |ExpiredIds(st, limit, clock)|
    {
      kept, count := all, 0;
      var left := all.Keys;
      while left != {}
        invariant SweptBut(st, kept, left, limit, clock)
        invariant count + |kept| == |all|
        decreases |left|
      {
        var id :| id in left;
        SweepTurn(st, kept, left, id, limit, clock);
        left := left - {id};
        if clock(id) - kept[id].accessTime > limit {
          kept := kept - {id};
          count := count + 1;
        }
      }
      UnexpiredAreLeft(st, kept, limit, clock);
    }

    method DestroyExpired(limit: int, clock: string -> int) returns (count: nat)
      requires Valid()
      modifies this`sessions
      ensures Valid() && sessions == old(sessions) - ExpiredIds(old(View()), limit, clock)
      ensures Objects() == old(Objects())
      ensures count == |ExpiredIds(old(View()), limit, clock)|
    {
      sessions, count := EraseExpired(sessions, limit, clock, View());
    }
  }

  /** The cookies added to a response. */
  class Response {
    var cookies: seq<Cookie>

    constructor ()
      ensures cookies == []
    {
      cookies := [];
    }

    method AddCookie(c: Cookie)
      modifies this
      ensures cookies == old(cookies) + [c]
    {
      cookies := cookies + [c];
    }
  }

  class Manager {
    const storage: StorageMemory

    /** The constructor throws without a storage. */
    static method Make(storage: StorageMemory?) returns (r: Result<Manager>)
      ensures r == Throws(InvalidArgument) <==> storage == null
      ensures r.Ok? ==> fresh(r.value) && r.value.storage == storage
    {
      if storage == null {
        return Throws(InvalidArgument);
      }
      var m := new Manager(storage);
      return Ok(m);
    }

    constructor (storage: StorageMemory)
      ensures this.storage == storage
    {
      this.storage := storage;
    }

    method GetId(cookie: Option<string>) returns (r: Option<string>)
      requires cookie.Some? ==> |cookie.value| <= Text.MAX_SIZE
      ensures r == IdOf(cookie)
    {
      var sesId := CookieValue(cookie, COOKIE_NAME);
      if sesId.None? {
        return None;
      }
      return Some(sesId.value);
    }

    /** `start`; `newId` is what `generate_id` gives. */
    method StartSession(cookie: Option<string>, resp: Response, newId: string, now: int) returns (session: Session)
      requires storage.Valid() && (cookie.Some? ==> |cookie.value| <= Text.MAX_SIZE)
      modifies storage, resp
      ensures storage.Valid()
      ensures !Known(old(storage.View()), cookie) ==> fresh(session)
      ensures storage.View() == Start(old(storage.View()), cookie, newId, session, now).0
      ensures session == Start(old(storage.View()), cookie, newId, session, now).1
      ensures var added := Start(old(storage.View()), cookie, newId, session, now).2;
              resp.cookies == old(resp.cookies) + (if added.Some? then [added.value] else [])
    {
      var found: Session? := null;
      var sesId := GetId(cookie);
      if sesId.Some? {
        found := storage.GetSession(sesId.value);
      }
      if found == null {
        session := storage.CreateSession(newId, now);
        resp.AddCookie(Cookie(COOKIE_NAME, newId));
      } else {
        session := found;
      }
    }

    method DestroySession(cookie: Option<string>, resp: Response)
      requires storage.Valid() && (cookie.Some? ==> |cookie.value| <= Text.MAX_SIZE)
      modifies storage, resp
      ensures storage.Valid() && storage.View() == Destroy(old(storage.View()), cookie).0
      ensures resp.cookies == old(resp.cookies)
                              + (if Destroy(old(storage.View()), cookie).1 then [Cookie(COOKIE_NAME, "")] else [])
    {
      var sesId := GetId(cookie);
      if sesId.None? {
        return;
      }
      storage.DestroySession(sesId.value);
      resp.AddCookie(Cookie(COOKIE_NAME, ""));
    }

    method DestroyExpired(limit: int, clock: string -> int) returns (count: nat)
      requires storage.Valid()
      modifies storage
      ensures storage.Valid() && storage.View() == Sweep(old(storage.View()), limit, clock).0
      ensures count == Sweep(old(storage.View()), limit, clock).1
    {
      if limit <= 0 {
        return 0;
      }
      count := storage.DestroyExpired(limit, clock);
    }
  }
}
