/**
 The router tree (lib/malloy/server/routing/router.hpp) and the resource
 functions it uses (lib/malloy/core/http/utils.hpp).

 A router owns its sub-routers, so a tree of routers is a value while requests
 are dispatched through it. The order in which the sub-routers are looked at
 is left open.
 */
module Routing {
  import opened Wrappers

  /** `upgrade` is what the HTTP library says of the fields. */
  datatype Header = Header(target: string, verb: string, upgrade: bool, fields: seq<(string, string)>)

  /** `needsEof` tells that the connection has to be closed after the response. */
  datatype Response = Response(status: nat, server: Option<string>, content: string, needsEof: bool)

  /** Whether the resource expression matches is the regex library's affair. */
  datatype Policy = Policy(matches: string -> bool, validator: Header -> Option<Response>)

  /** How an endpoint answers: at once, or after reading the body of the request. */
  datatype Handler = Direct(respond: Header -> Response) | WithBody(answer: (Header, string) -> Response)

  datatype Endpoint = Endpoint(matches: Header -> bool, handler: Handler)

  datatype Socket = Socket(resource: string, handler: Option<nat>)

  datatype Router = Router(
    subRouters: map<string, Router>,
    policies: seq<Policy>,
    endpoints: seq<Endpoint>,
    sockets: seq<Socket>,
    serverString: string)

  // ----- Resources --------------------------------------------------------------------

  predicate EndsResource(c: char) {
    c == '?' || c == '#'
  }

  /** `find_first_of("?#")`, or the length of the target. */
  function Stop(target: string): (i: nat)
    ensures i <= |target|
    ensures i < |target| ==> EndsResource(target[i])
    ensures forall j | 0 <= j < i :: !EndsResource(target[j])
  {
    if target == [] || EndsResource(target[0]) then 0 else 1 + Stop(target[1..])
  }

  function ResourceString(target: string): string {
    target[..Stop(target)]
  }

  /** What `resource_string` leaves off. */
  function Query(target: string): string {
    target[Stop(target)..]
  }

  lemma StopUnique(target: string, i: nat)
    requires i <= |target| && (i < |target| ==> EndsResource(target[i]))
    requires forall j | 0 <= j < i :: !EndsResource(target[j])
    ensures Stop(target) == i
  {
  }

  /** Chopping a prefix of the resource chops just that and keeps the query. */
  lemma Chopped(target: string, key: string)
    requires key <= ResourceString(target)
    ensures Stop(target[|key|..]) == Stop(target) - |key|
    ensures ResourceString(target[|key|..]) == ResourceString(target)[|key|..]
    ensures Query(target[|key|..]) == Query(target)
  {
    var rest, i := target[|key|..], Stop(target) - |key|;
    assert forall j | 0 <= j < i :: rest[j] == target[|key| + j];
    StopUnique(rest, i);
  }

  /** The resource is what stands before the first '?' or '#'. */
  lemma ResourceOf(resource: string, rest: string)
    requires '?' !in resource && '#' !in resource
    ensures ResourceString(resource) == resource
    ensures ResourceString(resource + "?" + rest) == resource
    ensures ResourceString(resource + "#" + rest) == resource
  {
    StopUnique(resource, |resource|);
    StopUnique(resource + "?" + rest, |resource|);
    StopUnique(resource + "#" + rest, |resource|);
  }

  // ----- The ways down ----------------------------------------------------------------

  /** The keys `path` are a way down from `r`: each matches, and below the last none does. */
  predicate Descends(r: Router, target: string, path: seq<string>)
    decreases |path|
  {
    if path == [] then forall k | k in r.subRouters :: !(k <= ResourceString(target))
    else
      && path[0] in r.subRouters
      && path[0] <= ResourceString(target)
      && Descends(r.subRouters[path[0]], target[|path[0]|..], path[1..])
  }

  /** A router of the tree, by its keys. */
  predicate IsRoute(r: Router, path: seq<string>)
    decreases |path|
  {
    path == [] || (path[0] in r.subRouters && IsRoute(r.subRouters[path[0]], path[1..]))
  }

  function Follow(r: Router, path: seq<string>): Router
    requires IsRoute(r, path)
    decreases |path|
  {
    if path == [] then r else Follow(r.subRouters[path[0]], path[1..])
  }

  function Concat(path: seq<string>): string {
    if path == [] then [] else path[0] + Concat(path[1..])
  }

  /** There is always a way down, and it ends. */
  lemma {:induction false} SomeDescent(r: Router, target: string) returns (path: seq<string>)
    ensures Descends(r, target, path)
    decreases r
  {
    if k :| k in r.subRouters && k <= ResourceString(target) {
      var rest := SomeDescent(r.subRouters[k], target[|k|..]);
      path := [k] + rest;
      assert path[1..] == rest;
    } else {
      path := [];
    }
  }

  /** The router at the end of a way down sees what the keys have left of the target. */
  lemma {:induction false} DescentChops(r: Router, target: string, path: seq<string>)
    requires Descends(r, target, path)
    ensures IsRoute(r, path) && Concat(path) <= ResourceString(target)
    ensures ResourceString(target[|Concat(path)|..]) == ResourceString(target)[|Concat(path)|..]
    ensures Query(target[|Concat(path)|..]) == Query(target)
    decreases |path|
  {
    if path != [] {
      Chopped(target, path[0]);
      DescentChops(r.subRouters[path[0]], target[|path[0]|..], path[1..]);
      PrefixApart(path[0], Concat(path[1..]), ResourceString(target));
      hide Descends, IsRoute;
      Chopped(target, Concat(path));
    } else {
      hide Descends;
      assert target[0..] == target;
    }
  }

  lemma PrefixApart(a: string, b: string, s: string)
    requires a <= s
    ensures a + b <= s <==> b <= s[|a|..]
  {
    if a + b <= s {
      assert s[|a|..][..|b|] == s[..|a + b|][|a|..];
    }
    if b <= s[|a|..] {
      assert s == a + s[|a|..];
    }
  }

  // ----- When the order of the sub-routers does not matter ----------------------------------

  /** A key that can match at all. */
  predicate Live(key: string) {
    forall i | 0 <= i < |key| :: !EndsResource(key[i])
  }

  /** No live key is a prefix of a sibling. */
  predicate SiblingsPrefixFree(r: Router) {
    forall a, b | a in r.subRouters && b in r.subRouters && Live(a) && Live(b) :: a <= b ==> a == b
  }

  ghost predicate PrefixFree(r: Router) {
    && SiblingsPrefixFree(r)
    && forall k | k in r.subRouters && Live(k) :: PrefixFree(r.subRouters[k])
  }

  lemma MatchingIsLive(key: string, target: string)
    requires key <= ResourceString(target)
    ensures Live(key)
  {
    assert forall i | 0 <= i < |key| :: key[i] == target[i];
  }

  lemma ComparablePrefixes(a: string, b: string, s: string)
    requires a <= s && b <= s && |a| <= |b|
    ensures a <= b
  {
    assert b == s[..|b|];
    assert a == s[..|a|] == b[..|a|];
  }

  lemma OneMatch(r: Router, target: string, a: string, b: string)
    requires SiblingsPrefixFree(r) && a in r.subRouters && b in r.subRouters
    requires a <= ResourceString(target) && b <= ResourceString(target)
    ensures a == b
  {
    MatchingIsLive(a, target);
    MatchingIsLive(b, target);
    var s := ResourceString(target);
    hide ResourceString, Live;
    if |a| <= |b| {
      ComparablePrefixes(a, b, s);
    } else {
      ComparablePrefixes(b, a, s);
    }
  }

  /** Any router whose keys match the target is on the way down. */
  lemma {:induction false} MatchingIsOnTheWay(r: Router, target: string, path: seq<string>, other: seq<string>)
    requires PrefixFree(r) && Descends(r, target, path)
    requires IsRoute(r, other) && Concat(other) <= ResourceString(target)
    ensures other <= path
    decreases |path|
  {
    if other != [] {
      var k := other[0];
      assert k <= ResourceString(target) by {
        assert k == Concat(other)[..|k|];
      }
      assert path != [];
      OneMatch(r, target, path[0], k);
      MatchingIsLive(k, target);
      Chopped(target, k);
      PrefixApart(k, Concat(other[1..]), ResourceString(target));
      hide ResourceString, Live;
      MatchingIsOnTheWay(r.subRouters[k], target[|k|..], path[1..], other[1..]);
      assert path == [k] + path[1..] && other == [k] + other[1..];
    }
  }

  /** Of the matching routers, `path` is the one that all others lead to. */
  ghost predicate IsLongestMatch(r: Router, target: string, path: seq<string>) {
    && IsRoute(r, path) && Concat(path) <= ResourceString(target)
    && forall other | IsRoute(r, other) && Concat(other) <= ResourceString(target) :: other <= path
  }

  lemma {:induction false} RouteExtends(r: Router, path: seq<string>, key: string)
    requires IsRoute(r, path) && key in Follow(r, path).subRouters
    ensures IsRoute(r, path + [key]) && Concat(path + [key]) == Concat(path) + key
    decreases |path|
  {
    if path == [] {
      assert [key][1..] == [];
    } else {
      RouteExtends(r.subRouters[path[0]], path[1..], key);
      assert (path + [key])[1..] == path[1..] + [key];
    }
  }

  lemma ExtensionApart(a: string, b: string, key: string, s: string)
    requires a <= s
    ensures a + b + key <= s <==> b + key <= s[|a|..]
  {
    PrefixApart(a, b + key, s);
    assert a + (b + key) == a + b + key;
  }

  lemma {:induction false} DescendsUnlessExtensible(r: Router, target: string, path: seq<string>)
    requires IsRoute(r, path) && Concat(path) <= ResourceString(target)
    requires forall k | k in Follow(r, path).subRouters :: !(Concat(path) + k <= ResourceString(target))
    ensures Descends(r, target, path)
    decreases |path|
  {
    if path == [] {
      forall k | k in r.subRouters
        ensures !(k <= ResourceString(target))
      {
        assert Concat(path) + k == k;
      }
    } else {
      var a, b, s := path[0], Concat(path[1..]), ResourceString(target);
      assert a <= s by {
        assert a == Concat(path)[..|a|];
      }
      Chopped(target, a);
      PrefixApart(a, b, s);
      forall k | k in Follow(r, path).subRouters
        ensures !(b + k <= s[|a|..])
      {
        ExtensionApart(a, b, k, s);
      }
      hide ResourceString;
      DescendsUnlessExtensible(r.subRouters[a], target[|a|..], path[1..]);
    }
  }

  /**
   In a tree without prefixes among siblings the dispatch, in whatever order it
   looks at sub-routers, is the lookup of the longest match.
   */
  lemma DispatchIsLongestMatch(r: Router, target: string, path: seq<string>)
    requires PrefixFree(r)
    ensures Descends(r, target, path) <==> IsLongestMatch(r, target, path)
  {
    if Descends(r, target, path) {
      DescentChops(r, target, path);
      forall other | IsRoute(r, other) && Concat(other) <= ResourceString(target)
        ensures other <= path
      {
        MatchingIsOnTheWay(r, target, path, other);
      }
    }
    if IsLongestMatch(r, target, path) {
      forall k | k in Follow(r, path).subRouters
        ensures !(Concat(path) + k <= ResourceString(target))
      {
        RouteExtends(r, path, k);
        assert !(path + [k] <= path);
      }
      DescendsUnlessExtensible(r, target, path);
    }
  }

  /** Two ways down for one target. */
  ghost predicate Ambiguous(r: Router, target: string, p: seq<string>, q: seq<string>) {
    p != q && Descends(r, target, p) && Descends(r, target, q)
  }

  lemma LiveResource(key: string, rest: string)
    requires Live(key)
    ensures ResourceString(key + rest) == key + ResourceString(rest)
    ensures (key + rest)[|key|..] == rest
  {
    var target, i := key + rest, |key| + Stop(rest);
    assert forall j | 0 <= j < i :: target[j] == if j < |key| then key[j] else rest[j - |key|];
    StopUnique(target, i);
  }

  lemma Enter(r: Router, key: string, rest: string, path: seq<string>)
    requires key in r.subRouters && Live(key) && Descends(r.subRouters[key], rest, path)
    ensures Descends(r, key + rest, [key] + path)
  {
    LiveResource(key, rest);
    assert ([key] + path)[1..] == path;
  }

  /** Where siblings are not free of prefixes, the order decides for some target. */
  lemma {:induction false} AmbiguousTarget(r: Router) returns (target: string, p: seq<string>, q: seq<string>)
    requires !PrefixFree(r)
    ensures Ambiguous(r, target, p, q)
    decreases r
  {
    if !SiblingsPrefixFree(r) {
      var a, b :| a in r.subRouters && b in r.subRouters && Live(a) && Live(b) && a <= b && a != b;
      target := b;
      var p' := SomeDescent(r.subRouters[a], b[|a|..]);
      var q' := SomeDescent(r.subRouters[b], []);
      Enter(r, a, b[|a|..], p');
      Enter(r, b, [], q');
      assert a + b[|a|..] == b == b + [];
      p, q := [a] + p', [b] + q';
      assert p[0] != q[0];
    } else {
      var k :| k in r.subRouters && Live(k) && !PrefixFree(r.subRouters[k]);
      var rest, p', q' := AmbiguousTarget(r.subRouters[k]);
      Enter(r, k, rest, p');
      Enter(r, k, rest, q');
      target, p, q := k + rest, [k] + p', [k] + q';
      assert p[1..] == p' && q[1..] == q';
    }
  }

  /** The exact condition: the order never matters if and only if no live key is a prefix of a sibling. */
  lemma OrderIrrelevant(r: Router)
    ensures PrefixFree(r) <==> forall target, p, q :: !Ambiguous(r, target, p, q)
  {
    if PrefixFree(r) {
      forall target, p, q
        ensures !Ambiguous(r, target, p, q)
      {
        if Ambiguous(r, target, p, q) {
          DescentChops(r, target, p);
          DescentChops(r, target, q);
          MatchingIsOnTheWay(r, target, p, q);
          MatchingIsOnTheWay(r, target, q, p);
        }
      }
    } else {
      var target, p, q := AmbiguousTarget(r);
    }
  }

  // ----- What the routers on the way answer ---------------------------------------------------

  /** What a dispatch does with its connection. */
  datatype Outcome =
    | Written(response: Response)
    | ReadsBody(answer: (Header, string) -> Response, header: Header, who: Router)
    | Upgraded(handler: Option<nat>)

  function FirstIndex<T>(s: seq<T>, p: T -> bool): (i: nat)
    ensures i <= |s|
    ensures i < |s| ==> p(s[i])
    ensures forall j | 0 <= j < i :: !p(s[j])
  {
    if s == [] || p(s[0]) then 0 else 1 + FirstIndex(s[1..], p)
  }

  lemma FirstIndexUnique<T>(s: seq<T>, p: T -> bool, i: nat)
    requires i <= |s| && (i < |s| ==> p(s[i]))
    requires forall j | 0 <= j < i :: !p(s[j])
    ensures FirstIndex(s, p) == i
  {
  }

  /** `send_response`: a response without a server field gets the one of the router. */
  function Signed(response: Response, r: Router): Response {
    if response.server.None? then response.(server := Some(r.serverString)) else response
  }

  const BAD_REQUEST := Response(400, None, "unknown request", false)

  function PolicyResponse(p: Policy, h: Header): Option<Response> {
    if p.matches(h.target) then p.validator(h) else None
  }

  function Responds(h: Header): Policy -> bool {
    (p: Policy) => PolicyResponse(p, h).Some?
  }

  /** The response of the first policy that has one. */
  function Verdict(r: Router, h: Header): Option<Response> {
    var i := FirstIndex(r.policies, Responds(h));
    if i == |r.policies| then None else Some(Signed(PolicyResponse(r.policies[i], h).value, r))
  }

  function Act(handler: Handler, h: Header, r: Router): Outcome {
    match handler
    case Direct(respond) => Written(Signed(respond(h), r))
    case WithBody(answer) => ReadsBody(answer, h, r)
  }

  function Matches(h: Header): Endpoint -> bool {
    (e: Endpoint) => e.matches(h)
  }

  /** What the first matching endpoint does. */
  function Answer(r: Router, h: Header): Outcome {
    var i := FirstIndex(r.endpoints, Matches(h));
    if i == |r.endpoints| then Written(Signed(BAD_REQUEST, r)) else Act(r.endpoints[i].handler, h, r)
  }

  function Takes(resource: string): Socket -> bool {
    (s: Socket) => s.resource == resource && s.handler.Some?
  }

  /** The handler of the first socket of just that resource that has one. */
  function Upgrade(r: Router, h: Header): Outcome {
    var i := FirstIndex(r.sockets, Takes(ResourceString(h.target)));
    Upgraded(if i == |r.sockets| then None else r.sockets[i].handler)
  }

  function Chop(h: Header, size: nat): Header
    requires size <= |h.target|
  {
    h.(target := h.target[size..])
  }

  /** `handle_request` along a way down; policies are for HTTP requests only. */
  function Serve(r: Router, h: Header, path: seq<string>, isWebsocket: bool): Outcome
    requires Descends(r, h.target, path)
    decreases |path|
  {
    if !isWebsocket && Verdict(r, h).Some? then Written(Verdict(r, h).value)
    else if path != [] then Serve(r.subRouters[path[0]], Chop(h, |path[0]|), path[1..], isWebsocket)
    else if isWebsocket then Upgrade(r, h)
    else Answer(r, h)
  }

  /** What is left of the target when the request is answered. */
  function FinalTarget(r: Router, h: Header, path: seq<string>, isWebsocket: bool): string
    requires Descends(r, h.target, path)
    decreases |path|
  {
    if (!isWebsocket && Verdict(r, h).Some?) || path == [] then h.target
    else FinalTarget(r.subRouters[path[0]], Chop(h, |path[0]|), path[1..], isWebsocket)
  }

  /** The header as the router after `n` keys of the path sees it. */
  function HeaderAt(h: Header, path: seq<string>, n: nat): Header
    requires n <= |path| && |Concat(path[..n])| <= |h.target|
  {
    Chop(h, |Concat(path[..n])|)
  }

  lemma {:induction false} PartOfDescent(r: Router, target: string, path: seq<string>, n: nat)
    requires Descends(r, target, path) && n <= |path|
    ensures IsRoute(r, path[..n]) && Concat(path[..n]) <= ResourceString(target)
    ensures n > 0 ==>
              && IsRoute(r.subRouters[path[0]], path[1..][..n - 1])
              && Follow(r, path[..n]) == Follow(r.subRouters[path[0]], path[1..][..n - 1])
              && |Concat(path[..n])| == |path[0]| + |Concat(path[1..][..n - 1])|
    decreases |path|
  {
    if n > 0 {
      Chopped(target, path[0]);
      assert path[..n][1..] == path[1..][..n - 1];
      PartOfDescent(r.subRouters[path[0]], target[|path[0]|..], path[1..], n - 1);
      PrefixApart(path[0], Concat(path[1..][..n - 1]), ResourceString(target));
    }
  }

  /** The router reached after `n` keys, and what it says to the request as it sees it. */
  ghost predicate PassesAt(r: Router, h: Header, path: seq<string>, n: nat)
    requires Descends(r, h.target, path) && n <= |path|
  {
    PartOfDescent(r, h.target, path, n);
    Verdict(Follow(r, path[..n]), HeaderAt(h, path, n)).None?
  }

  lemma PassesFirst(r: Router, h: Header, path: seq<string>)
    requires Descends(r, h.target, path)
    ensures PassesAt(r, h, path, 0) <==> Verdict(r, h).None?
  {
    assert path[..0] == [] && h.target[0..] == h.target;
  }

  lemma PassesBelow(r: Router, h: Header, path: seq<string>, n: nat)
    requires Descends(r, h.target, path) && 0 < n <= |path|
    ensures PassesAt(r, h, path, n) <==> PassesAt(r.subRouters[path[0]], Chop(h, |path[0]|), path[1..], n - 1)
  {
    PartOfDescent(r, h.target, path, n);
    PartOfDescent(r.subRouters[path[0]], h.target[|path[0]|..], path[1..], n - 1);
    HeaderBelow(r, h, path, n);
  }

  lemma AllPassBelow(r: Router, h: Header, path: seq<string>, n: nat)
    requires Descends(r, h.target, path) && 0 < n <= |path|
    requires forall m: nat | m < n :: PassesAt(r, h, path, m)
    ensures forall m: nat | m < n - 1 :: PassesAt(r.subRouters[path[0]], Chop(h, |path[0]|), path[1..], m)
    ensures PassesAt(r, h, path, n) <==> PassesAt(r.subRouters[path[0]], Chop(h, |path[0]|), path[1..], n - 1)
  {
    hide PassesAt;
    forall m: nat | m < n - 1
      ensures PassesAt(r.subRouters[path[0]], Chop(h, |path[0]|), path[1..], m)
    {
      PassesBelow(r, h, path, m + 1);
    }
    PassesBelow(r, h, path, n);
  }

  lemma HeaderBelow(r: Router, h: Header, path: seq<string>, n: nat)
    requires Descends(r, h.target, path) && 0 < n <= |path|
    ensures Concat(path[..n]) <= h.target && Concat(path[1..][..n - 1]) <= h.target[|path[0]|..]
    ensures HeaderAt(Chop(h, |path[0]|), path[1..], n - 1) == HeaderAt(h, path, n)
  {
    PartOfDescent(r, h.target, path, n);
    PartOfDescent(r.subRouters[path[0]], h.target[|path[0]|..], path[1..], n - 1);
    assert h.target[|path[0]|..][|Concat(path[1..][..n - 1])|..] == h.target[|Concat(path[..n])|..];
  }

  /**
   The dispatch as a flat lookup: the first router on the way whose policies
   respond answers; if none does, the last one answers, and it sees the target
   without the keys.
   */
  lemma {:induction false} ServeMeaning(r: Router, h: Header, path: seq<string>, n: nat)
    requires Descends(r, h.target, path) && n <= |path|
    requires forall m: nat | m < n :: PassesAt(r, h, path, m)
    requires n == |path| || !PassesAt(r, h, path, n)
    ensures IsRoute(r, path[..n]) && |Concat(path[..n])| <= |h.target|
    ensures var last, seen := Follow(r, path[..n]), HeaderAt(h, path, n);
            && Serve(r, h, path, false) == (if PassesAt(r, h, path, n) then Answer(last, seen)
                                            else Written(Verdict(last, seen).value))
            && FinalTarget(r, h, path, false) == seen.target
    decreases |path|
  {
    hide Verdict, Answer, PassesAt;
    PartOfDescent(r, h.target, path, n);
    PassesFirst(r, h, path);
    if n > 0 {
      assert PassesAt(r, h, path, 0);
      AllPassBelow(r, h, path, n);
      HeaderBelow(r, h, path, n);
      hide HeaderAt, Concat, Stop;
      ServeMeaning(r.subRouters[path[0]], Chop(h, |path[0]|), path[1..], n - 1);
    } else {
      assert path[..0] == [] && h.target[0..] == h.target;
    }
  }

  /** A WebSocket request goes all the way down and is not shown to any policy. */
  lemma {:induction false} UpgradeMeaning(r: Router, h: Header, path: seq<string>)
    requires Descends(r, h.target, path)
    ensures IsRoute(r, path) && |Concat(path)| <= |h.target|
    ensures Serve(r, h, path, true) == Upgrade(Follow(r, path), Chop(h, |Concat(path)|))
    ensures FinalTarget(r, h, path, true) == h.target[|Concat(path)|..]
    decreases |path|
  {
    DescentChops(r, h.target, path);
    if path != [] {
      var below := h.target[|path[0]|..];
      UpgradeMeaning(r.subRouters[path[0]], Chop(h, |path[0]|), path[1..]);
      assert below[|Concat(path[1..])|..] == h.target[|Concat(path)|..];
    } else {
      assert h.target[0..] == h.target;
    }
  }
  // ----- What is answered -------------------------------------------------------------------

  /** What is written for a response that a policy or an endpoint gives: only the server field is filled in. */
  predicate IsSent(response: Response, given: Response, who: Router) {
    && response.status == given.status && response.content == given.content && response.needsEof == given.needsEof
    && response.server == (if given.server.Some? then given.server else Some(who.serverString))
  }

  /** The policy is asked about this target. */
  predicate Asked(p: Policy, seen: Header) {
    p.matches(seen.target)
  }

  predicate NoPolicyResponds(who: Router, seen: Header) {
    forall i | 0 <= i < |who.policies| :: Asked(who.policies[i], seen) ==> who.policies[i].validator(seen).None?
  }

  /** The first policy that matches and responds gives this response. */
  ghost predicate PolicyGives(who: Router, seen: Header, given: Response) {
    exists i | 0 <= i < |who.policies| ::
      && Asked(who.policies[i], seen) && who.policies[i].validator(seen) == Some(given)
      && forall j | 0 <= j < i :: Asked(who.policies[j], seen) ==> who.policies[j].validator(seen).None?
  }

  lemma VerdictMeaning(who: Router, seen: Header)
    ensures Verdict(who, seen).None? <==> NoPolicyResponds(who, seen)
    ensures Verdict(who, seen).Some? ==>
              exists given :: PolicyGives(who, seen, given) && IsSent(Verdict(who, seen).value, given, who)
  {
    var i := FirstIndex(who.policies, Responds(seen));
    forall j | 0 <= j < |who.policies|
      ensures Responds(seen)(who.policies[j]) <==>
                Asked(who.policies[j], seen) && who.policies[j].validator(seen).Some?
    {
    }
    if i < |who.policies| {
      var given := who.policies[i].validator(seen).value;
      assert PolicyGives(who, seen, given) && IsSent(Verdict(who, seen).value, given, who);
    }
  }

  predicate IsFirstMatch(who: Router, seen: Header, i: nat) {
    i < |who.endpoints| && who.endpoints[i].matches(seen) && forall j | 0 <= j < i :: !who.endpoints[j].matches(seen)
  }

  predicate NoneMatches(who: Router, seen: Header) {
    forall i | 0 <= i < |who.endpoints| :: !who.endpoints[i].matches(seen)
  }

  /** The first endpoint that matches answers, and without one the request is bad. */
  lemma AnswerMeaning(who: Router, seen: Header, i: nat)
    ensures IsFirstMatch(who, seen, i) ==>
              match who.endpoints[i].handler
              case Direct(respond) =>
                Answer(who, seen).Written? && IsSent(Answer(who, seen).response, respond(seen), who)
              case WithBody(answer) => Answer(who, seen) == ReadsBody(answer, seen, who)
    ensures NoneMatches(who, seen) ==>
              && Answer(who, seen).Written?
              && IsSent(Answer(who, seen).response, Response(400, None, "unknown request", false), who)
  {
    if IsFirstMatch(who, seen, i) {
      FirstIndexUnique(who.endpoints, Matches(seen), i);
    } else if NoneMatches(who, seen) {
      FirstIndexUnique(who.endpoints, Matches(seen), |who.endpoints|);
    }
  }

  lemma FirstMatch(who: Router, seen: Header) returns (i: nat)
    ensures IsFirstMatch(who, seen, i) || NoneMatches(who, seen)
  {
    i := FirstIndex(who.endpoints, Matches(seen));
    if i == |who.endpoints| {
      assert forall j | 0 <= j < |who.endpoints| :: !Matches(seen)(who.endpoints[j]);
    } else {
      assert forall j | 0 <= j < i :: !Matches(seen)(who.endpoints[j]);
    }
  }

  /** The socket has that resource and somebody to take the connection. */
  predicate Accepts(s: Socket, resource: string) {
    s.resource == resource && s.handler.Some?
  }

  /**
   A WebSocket connection goes to the first socket of the last router that has
   just the resource the keys leave and a handler, and to nobody without one.
   */
  lemma SocketMeaning(r: Router, h: Header, path: seq<string>, i: nat)
    requires Descends(r, h.target, path)
    ensures IsRoute(r, path) && |Concat(path)| <= |h.target|
    ensures var sockets, resource := Follow(r, path).sockets, ResourceString(h.target[|Concat(path)|..]);
            && (i < |sockets| && Accepts(sockets[i], resource)
                && (forall j | 0 <= j < i :: !Accepts(sockets[j], resource)) ==>
                  Serve(r, h, path, true) == Upgraded(sockets[i].handler))
            && ((forall j | 0 <= j < |sockets| :: !Accepts(sockets[j], resource)) ==>
                  Serve(r, h, path, true) == Upgraded(None))
  {
    UpgradeMeaning(r, h, path);
    hide Serve, Descends, Stop, Follow, Concat;
    var sockets, resource := Follow(r, path).sockets, ResourceString(h.target[|Concat(path)|..]);
    if i < |sockets| && Accepts(sockets[i], resource) && forall j | 0 <= j < i :: !Accepts(sockets[j], resource) {
      FirstIndexUnique(sockets, Takes(resource), i);
    } else if forall j | 0 <= j < |sockets| :: !Accepts(sockets[j], resource) {
      FirstIndexUnique(sockets, Takes(resource), |sockets|);
    }
  }
}
