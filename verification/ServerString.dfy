/**
 The server string of the routers of a tree
 (lib/malloy/server/routing/router.cpp): how it is passed down, and the early
 return when a router has it already.
 */
module ServerStrings {
  import opened Routing
  import opened Wrappers

  // ----- On trees as values --------------------------------------------------------------

  ghost predicate Uniform(r: Router) {
    forall k | k in r.subRouters ::
      r.subRouters[k].serverString == r.serverString && Uniform(r.subRouters[k])
  }

  /** Every router of the tree gets the string. */
  function Painted(r: Router, s: string): Router
    decreases r
  {
    r.(serverString := s, subRouters := map k | k in r.subRouters :: Painted(r.subRouters[k], s))
  }

  /** `set_server_string`: nothing is done below a router that has the string. */
  function SetServer(r: Router, s: string): Router
    decreases r
  {
    if s == r.serverString then r
    else r.(serverString := s, subRouters := map k | k in r.subRouters :: SetServer(r.subRouters[k], s))
  }

  /** Every router of a uniform tree has the string of its root. */
  lemma {:induction false} UniformAlongRoutes(r: Router, path: seq<string>)
    requires Uniform(r) && IsRoute(r, path)
    ensures Follow(r, path).serverString == r.serverString
    decreases |path|
  {
    if path != [] {
      UniformAlongRoutes(r.subRouters[path[0]], path[1..]);
    }
  }

  lemma {:induction false} PaintedIsUniform(r: Router, s: string)
    ensures Uniform(Painted(r, s)) && Painted(r, s).serverString == s
    decreases r
  {
    forall k | k in r.subRouters
      ensures Painted(r.subRouters[k], s).serverString == s && Uniform(Painted(r.subRouters[k], s))
    {
      PaintedIsUniform(r.subRouters[k], s);
    }
  }

  lemma {:induction false} PaintingAgain(r: Router)
    ensures Painted(r, r.serverString) == r <==> Uniform(r)
    decreases r
  {
    var p := Painted(r, r.serverString);
    forall k | k in r.subRouters
      ensures r.subRouters[k].serverString == r.serverString ==>
                (p.subRouters[k] == r.subRouters[k] <==> Uniform(r.subRouters[k]))
      ensures p.subRouters[k].serverString == r.serverString
    {
      PaintingAgain(r.subRouters[k]);
      PaintedIsUniform(r.subRouters[k], r.serverString);
    }
    if Uniform(r) {
      assert p.subRouters == r.subRouters;
    }
  }

  lemma {:induction false} SetIsPainted(r: Router, s: string)
    requires Uniform(r)
    ensures SetServer(r, s) == Painted(r, s)
    decreases r
  {
    if s == r.serverString {
      PaintingAgain(r);
    } else {
      forall k | k in r.subRouters
        ensures SetServer(r.subRouters[k], s) == Painted(r.subRouters[k], s)
      {
        SetIsPainted(r.subRouters[k], s);
      }
      assert SetServer(r, s).subRouters == Painted(r, s).subRouters;
    }
  }

  /** The early return loses nothing, whatever string is set, exactly on uniform trees. */
  lemma EarlyReturnSound(r: Router)
    ensures Uniform(r) <==> forall s :: SetServer(r, s) == Painted(r, s)
  {
    if Uniform(r) {
      forall s
        ensures SetServer(r, s) == Painted(r, s)
      {
        SetIsPainted(r, s);
      }
    } else {
      PaintingAgain(r);
      assert SetServer(r, r.serverString) == r;
    }
  }

  /** No policy and no handler of the tree sets a server field. */
  ghost predicate LeavesServerOpen(r: Router) {
    && (forall i, h | 0 <= i < |r.policies| ::
          r.policies[i].validator(h).Some? ==> r.policies[i].validator(h).value.server.None?)
    && (forall i, h | 0 <= i < |r.endpoints| && r.endpoints[i].handler.Direct? ::
          r.endpoints[i].handler.respond(h).server.None?)
    && (forall i, h, body | 0 <= i < |r.endpoints| && r.endpoints[i].handler.WithBody? ::
          r.endpoints[i].handler.answer(h, body).server.None?)
    && forall k | k in r.subRouters :: LeavesServerOpen(r.subRouters[k])
  }

  /** Then every response of a uniform tree carries the string of the root. */
  lemma {:induction false} ResponsesCarryRootString(r: Router, h: Header, path: seq<string>)
    requires Uniform(r) && LeavesServerOpen(r) && Descends(r, h.target, path)
    ensures var outcome := Serve(r, h, path, false);
            && (outcome.Written? ==> outcome.response.server == Some(r.serverString))
            && (outcome.ReadsBody? ==> forall body ::
                  Signed(outcome.answer(outcome.header, body), outcome.who).server == Some(r.serverString))
    decreases |path|
  {
    if Verdict(r, h).None? && path != [] {
      ResponsesCarryRootString(r.subRouters[path[0]], Chop(h, |path[0]|), path[1..]);
    }
  }

  // ----- Whole runs ------------------------------------------------------------------------------

  /** `add_subrouter`; without a sub-router there is a null pointer. */
  function AddSubRouter(r: Router, resource: string, sub: Option<Router>): (bool, Router) {
    if resource == "" || sub.None? then (false, r)
    else if resource in r.subRouters then (true, r)
    else (true, r.(subRouters := r.subRouters[resource := SetServer(sub.value, r.serverString)]))
  }

  /** The same at a router further down. */
  function AddBelow(r: Router, path: seq<string>, resource: string, sub: Option<Router>): Router
    requires IsRoute(r, path)
    decreases |path|
  {
    if path == [] then AddSubRouter(r, resource, sub).1
    else
      r.(subRouters := r.subRouters[path[0] := AddBelow(r.subRouters[path[0]], path[1..], resource, sub)])
  }

  /** The routers a program owns; one that has been moved away is gone. */
  type Forest = seq<Option<Router>>

  datatype Action =
    | Construct(serverString: string)
    | Add(root: nat, path: seq<string>, resource: string, sub: nat)
    | Rename(root: nat, serverString: string)

  const EMPTY := Router(map[], [], [], [], "")

  predicate Owns(f: Forest, i: nat) {
    i < |f| && f[i].Some?
  }

  predicate CanDo(f: Forest, a: Action) {
    match a
    case Construct(_) => true
    case Add(root, path, _, sub) => Owns(f, root) && sub < |f| && root != sub && IsRoute(f[root].value, path)
    case Rename(root, _) => Owns(f, root)
  }

  function Perform(f: Forest, a: Action): Forest
    requires CanDo(f, a)
  {
    match a
    case Construct(s) => f + [Some(EMPTY.(serverString := s))]
    case Add(root, path, resource, sub) =>
      f[root := Some(AddBelow(f[root].value, path, resource, f[sub]))][sub := None]
    case Rename(root, s) => f[root := Some(SetServer(f[root].value, s))]
  }

  predicate CanPerform(f: Forest, actions: seq<Action>)
    decreases |actions|
  {
    actions == [] || (CanDo(f, actions[0]) && CanPerform(Perform(f, actions[0]), actions[1..]))
  }

  function PerformAll(f: Forest, actions: seq<Action>): Forest
    requires CanPerform(f, actions)
    decreases |actions|
  {
    if actions == [] then f else PerformAll(Perform(f, actions[0]), actions[1..])
  }

  ghost predicate AllUniform(f: Forest) {
    forall i: nat | Owns(f, i) :: Uniform(f[i].value)
  }

  lemma SetServerUniform(r: Router, s: string)
    requires Uniform(r)
    ensures Uniform(SetServer(r, s)) && SetServer(r, s).serverString == s
  {
    SetIsPainted(r, s);
    PaintedIsUniform(r, s);
  }

  lemma {:induction false} AddBelowUniform(r: Router, path: seq<string>, resource: string, sub: Option<Router>)
    requires IsRoute(r, path) && Uniform(r) && (sub.Some? ==> Uniform(sub.value))
    ensures Uniform(AddBelow(r, path, resource, sub))
    ensures AddBelow(r, path, resource, sub).serverString == r.serverString
    decreases |path|
  {
    if path != [] {
      AddBelowUniform(r.subRouters[path[0]], path[1..], resource, sub);
    } else if sub.Some? {
      SetServerUniform(sub.value, r.serverString);
    }
  }

  lemma PerformKeepsUniform(f: Forest, a: Action)
    requires AllUniform(f) && CanDo(f, a)
    ensures AllUniform(Perform(f, a))
  {
    match a
    case Construct(s) =>
    case Add(root, path, resource, sub) =>
      assert Owns(f, root);
      assert f[sub].Some? ==> Owns(f, sub);
      AddBelowUniform(f[root].value, path, resource, f[sub]);
      hide AddBelow, IsRoute;
      forall i: nat | Owns(Perform(f, a), i)
        ensures Uniform(Perform(f, a)[i].value)
      {
        assert i != root ==> Owns(f, i);
      }
    case Rename(root, s) =>
      assert Owns(f, root);
      SetServerUniform(f[root].value, s);
      forall i: nat | Owns(Perform(f, a), i)
        ensures Uniform(Perform(f, a)[i].value)
      {
        assert i != root ==> Owns(f, i);
      }
  }

  /**
   After any sequence of constructions, additions at any level and renamings of
   roots, every router in a tree has the string of the root of its tree.
   */
  lemma {:induction false} UniformAfterEveryRun(f: Forest, actions: seq<Action>)
    requires AllUniform(f) && CanPerform(f, actions)
    ensures AllUniform(PerformAll(f, actions))
    ensures forall i: nat, path | Owns(PerformAll(f, actions), i) && IsRoute(PerformAll(f, actions)[i].value, path) ::
              Follow(PerformAll(f, actions)[i].value, path).serverString == PerformAll(f, actions)[i].value.serverString
    decreases |actions|
  {
    if actions != [] {
      PerformKeepsUniform(f, actions[0]);
      hide *;
      UniformAfterEveryRun(Perform(f, actions[0]), actions[1..]);
    } else {
      forall i: nat, path | Owns(f, i) && IsRoute(f[i].value, path)
        ensures Follow(f[i].value, path).serverString == f[i].value.serverString
      {
        UniformAlongRoutes(f[i].value, path);
      }
    }
  }

  // ----- What else the operations do to the trees --------------------------------------------------

  /** The routers differ in nothing but their sub-routers and their strings. */
  ghost predicate SameAnswers(a: Router, b: Router) {
    a.policies == b.policies && a.endpoints == b.endpoints && a.sockets == b.sockets
  }

  /** Setting the string keeps every router in its place, with what it answers. */
  lemma {:induction false} TreeKept(r: Router, s: string, path: seq<string>)
    ensures IsRoute(SetServer(r, s), path) <==> IsRoute(r, path)
    ensures IsRoute(r, path) ==> SameAnswers(Follow(SetServer(r, s), path), Follow(r, path))
    decreases |path|
  {
    if path != [] && s != r.serverString && path[0] in r.subRouters {
      TreeKept(r.subRouters[path[0]], s, path[1..]);
    }
  }

  /**
   A sub-router is added, with the string of its owner, unless the resource is
   empty or taken or there is no sub-router; all other routers stay as they are.
   Only an empty resource and a missing sub-router are reported.
   */
  lemma SubRouterAdded(r: Router, resource: string, sub: Option<Router>, key: string, path: seq<string>)
    requires sub.Some? ==> Uniform(sub.value)
    ensures var (ok, r') := AddSubRouter(r, resource, sub);
            && ok == (resource != "" && sub.Some?)
            && SameAnswers(r', r) && r'.serverString == r.serverString
            && (key in r'.subRouters <==> key in r.subRouters || (ok && key == resource))
            && (key in r.subRouters ==> r'.subRouters[key] == r.subRouters[key])
            && (ok && resource !in r.subRouters ==>
                  && r'.subRouters[resource].serverString == r.serverString
                  && (IsRoute(r'.subRouters[resource], path) <==> IsRoute(sub.value, path))
                  && (IsRoute(sub.value, path) ==>
                        SameAnswers(Follow(r'.subRouters[resource], path), Follow(sub.value, path))))
  {
    if sub.Some? {
      TreeKept(sub.value, r.serverString, path);
      SetServerUniform(sub.value, r.serverString);
    }
    hide IsRoute, Follow, SetServer, SameAnswers, Uniform;
  }

  /** An addition further down is one to the router at that place. */
  lemma {:induction false} AddedThere(r: Router, path: seq<string>, resource: string, sub: Option<Router>)
    requires IsRoute(r, path)
    ensures IsRoute(AddBelow(r, path, resource, sub), path)
    ensures Follow(AddBelow(r, path, resource, sub), path) == AddSubRouter(Follow(r, path), resource, sub).1
    decreases |path|
  {
    if path != [] {
      AddedThere(r.subRouters[path[0]], path[1..], resource, sub);
    }
  }

  /** And it changes no router that is not on the way there. */
  lemma {:induction false} NothingElseAdded(r: Router, path: seq<string>, resource: string, sub: Option<Router>,
                                            other: seq<string>)
    requires IsRoute(r, path) && IsRoute(r, other) && !(other <= path) && !(path <= other)
    ensures IsRoute(AddBelow(r, path, resource, sub), other)
    ensures Follow(AddBelow(r, path, resource, sub), other) == Follow(r, other)
    decreases |path|
  {
    assert path != [] && other != [];
    if path[0] == other[0] {
      assert other[1..] <= path[1..] ==> other <= path;
      assert path[1..] <= other[1..] ==> path <= other;
      NothingElseAdded(r.subRouters[path[0]], path[1..], resource, sub, other[1..]);
    }
  }

  /**
   What the operations of a program do to its routers: a new one is empty and has
   its string, an addition takes its sub-router away, and no other tree changes.
   */
  lemma PerformMeaning(f: Forest, a: Action, i: nat)
    requires CanDo(f, a) && i < |f|
    ensures var f' := Perform(f, a);
            match a
            case Construct(s) =>
              |f'| == |f| + 1 && f'[i] == f[i] && f'[|f|] == Some(Router(map[], [], [], [], s))
            case Add(root, path, resource, sub) =>
              && |f'| == |f| && f'[sub] == None && (i != root && i != sub ==> f'[i] == f[i])
              && f'[root].Some? && IsRoute(f'[root].value, path)
              && Follow(f'[root].value, path) == AddSubRouter(Follow(f[root].value, path), resource, f[sub]).1
            case Rename(root, s) =>
              && |f'| == |f| && (i != root ==> f'[i] == f[i])
              && (f[root].Some? && Uniform(f[root].value) ==> f'[root] == Some(Painted(f[root].value, s)))
  {
    match a
    case Add(root, path, resource, sub) =>
      AddedThere(f[root].value, path, resource, f[sub]);
    case Rename(root, s) =>
      if Uniform(f[root].value) {
        SetIsPainted(f[root].value, s);
      }
    case _ =>
  }

  // ----- The code -----------------------------------------------------------------------------------

  /** The sub-routers of every router are among `world`, and each has one owner. */
  ghost predicate Owned(world: set<RouterNode>)
    reads world`subRouters
  {
    && (forall n, k | n in world && k in n.subRouters :: n.subRouters[k] in world)
    && (forall n, k, m, l | n in world && k in n.subRouters && m in world && l in m.subRouters ::
          n.subRouters[k] == m.subRouters[l] ==> n == m && k == l)
  }

  /** The server strings of the routers at some time. */
  type Strings = map<RouterNode, string>

  ghost predicate Covers(world: set<RouterNode>, a: Strings) {
    forall n | n in world :: n in a
  }

  /** Every sub-router has the string of its owner, unless the owner has the string `str`. */
  ghost predicate AgreeUnless(world: set<RouterNode>, a: Strings, str: Option<string>)
    requires Owned(world) && Covers(world, a)
    reads world`subRouters
  {
    forall n, k | n in world && k in n.subRouters :: a[n.subRouters[k]] == a[n] || Some(a[n]) == str
  }

  /** Strings change to the new one only, and below `top`: where one changes, so does its owner's. */
  ghost predicate Repainted(world: set<RouterNode>, a: Strings, b: Strings, top: RouterNode, str: string)
    requires Owned(world) && Covers(world, a) && Covers(world, b)
    reads world`subRouters
  {
    && (forall n | n in world :: b[n] == a[n] || b[n] == str)
    && (forall n, k | n in world && k in n.subRouters && n.subRouters[k] != top ::
          b[n.subRouters[k]] == a[n.subRouters[k]] || b[n] != a[n])
  }

  /** A router whose string changed agrees with its sub-routers, but for `top` and the given keys. */
  ghost predicate AgreeWhereChanged(world: set<RouterNode>, a: Strings, b: Strings, top: RouterNode, keys: set<string>)
    requires Owned(world) && Covers(world, a) && Covers(world, b)
    reads world`subRouters
  {
    forall n, k | n in world && k in n.subRouters && b[n] != a[n] ::
      b[n.subRouters[k]] == b[n] || Awaits(n, k, top, keys)
  }

  predicate Awaits(n: RouterNode, k: string, top: RouterNode, keys: set<string>) {
    n == top && k in keys
  }

  /** The owner of a router, if any, has the string. */
  ghost predicate OwnerHas(world: set<RouterNode>, a: Strings, top: RouterNode, str: string)
    requires Owned(world) && Covers(world, a)
    reads world`subRouters
  {
    forall n, k | n in world && k in n.subRouters && n.subRouters[k] == top :: a[n] == str
  }

  ghost predicate Ownerless(world: set<RouterNode>, top: RouterNode)
    reads world`subRouters
  {
    forall n, k | n in world && k in n.subRouters :: n.subRouters[k] != top
  }

  lemma RootReady(world: set<RouterNode>, a: Strings, top: RouterNode, str: string)
    requires Owned(world) && Covers(world, a) && AgreeUnless(world, a, None) && Ownerless(world, top)
    ensures AgreeUnless(world, a, Some(str)) && OwnerHas(world, a, top, str)
  {
  }

  lemma OwnerGoesFirst(world: set<RouterNode>, a: Strings, b: Strings, top: RouterNode, str: string)
    requires Owned(world) && Covers(world, a) && Covers(world, b) && top in world
    requires AgreeUnless(world, a, Some(str)) && OwnerHas(world, a, top, str)
    requires b[top] == str && forall n | n in world && n != top :: b[n] == a[n]
    ensures Repainted(world, a, b, top, str) && AgreeUnless(world, b, Some(str))
    ensures AgreeWhereChanged(world, a, b, top, top.subRouters.Keys)
  {
  }

  /** Going on with one more sub-router. */
  lemma SubRouterFollows(world: set<RouterNode>, a: Strings, b: Strings, c: Strings, top: RouterNode, keys: set<string>,
                         key: string, str: string)
    requires Owned(world) && Covers(world, a) && Covers(world, b) && Covers(world, c)
    requires top in world && key in top.subRouters && b[top] == str && a[top] != str
    requires Repainted(world, a, b, top, str) && AgreeWhereChanged(world, a, b, top, keys)
    requires Repainted(world, b, c, top.subRouters[key], str)
    requires AgreeWhereChanged(world, b, c, top.subRouters[key], {}) && c[top.subRouters[key]] == str
    ensures Repainted(world, a, c, top, str) && AgreeWhereChanged(world, a, c, top, keys - {key})
  {
    ChangesAddUp(world, a, b, c, top, key, str);
    hide Repainted;
    forall n, k | n in world && k in n.subRouters && c[n] != a[n]
      ensures c[n.subRouters[k]] == c[n] || Awaits(n, k, top, keys - {key})
    {
      if b[n] != a[n] {
        StringsStay(world, b, c, top.subRouters[key], str, n);
        StringsStay(world, b, c, top.subRouters[key], str, n.subRouters[k]);
        StringsStay(world, a, b, top, str, n);
      }
    }
  }

  lemma StringsStay(world: set<RouterNode>, a: Strings, b: Strings, top: RouterNode, str: string, n: RouterNode)
    requires Owned(world) && Covers(world, a) && Covers(world, b) && n in world && Repainted(world, a, b, top, str)
    ensures b[n] == a[n] || b[n] == str
  {
  }

  lemma ChangesAddUp(world: set<RouterNode>, a: Strings, b: Strings, c: Strings, top: RouterNode, key: string,
                     str: string)
    requires Owned(world) && Covers(world, a) && Covers(world, b) && Covers(world, c)
    requires top in world && key in top.subRouters && b[top] == str && a[top] != str
    requires Repainted(world, a, b, top, str) && Repainted(world, b, c, top.subRouters[key], str)
    ensures Repainted(world, a, c, top, str)
  {
  }

  /** Where all routers agreed with their owners before, they do after. */
  lemma AgreementKept(world: set<RouterNode>, a: Strings, b: Strings, top: RouterNode, str: string)
    requires Owned(world) && Covers(world, a) && Covers(world, b) && top in world
    requires Repainted(world, a, b, top, str) && AgreeUnless(world, b, Some(str))
    requires AgreeWhereChanged(world, a, b, top, {})
    requires AgreeUnless(world, a, None)
    ensures AgreeUnless(world, b, None)
  {
    forall n, k | n in world && k in n.subRouters
      ensures b[n.subRouters[k]] == b[n]
    {
      assert a[n.subRouters[k]] == a[n];
      assert b[n] == a[n] || b[n] == str;
    }
  }

  /** The routers of `path` lead from one router to another. */
  ghost predicate Leads(world: set<RouterNode>, from: RouterNode, path: seq<string>, to: RouterNode)
    requires Owned(world) && from in world
    reads world`subRouters
    decreases |path|
  {
    if path == [] then from == to
    else path[0] in from.subRouters && Leads(world, from.subRouters[path[0]], path[1..], to)
  }

  /** Where all routers agree with their owners, all below a router have its string. */
  lemma {:induction false} SameStringBelow(world: set<RouterNode>, a: Strings, from: RouterNode, path: seq<string>,
                                           to: RouterNode)
    requires Owned(world) && Covers(world, a) && AgreeUnless(world, a, None)
    requires from in world && Leads(world, from, path, to)
    ensures to in world && a[to] == a[from]
    decreases |path|
  {
    if path != [] {
      SameStringBelow(world, a, from.subRouters[path[0]], path[1..], to);
    }
  }

  type Links = map<RouterNode, map<string, RouterNode>>

  /** `Owned` and `Ownerless` of links as they were at some time. */
  ghost predicate LinksOwned(world: set<RouterNode>, links: Links, free: RouterNode) {
    && (forall n | n in world :: n in links)
    && (forall n, k | n in world && k in links[n] :: links[n][k] in world && links[n][k] != free)
    && (forall n, k, m, l | n in world && k in links[n] && m in world && l in links[m] ::
          links[n][k] == links[m][l] ==> n == m && k == l)
  }

  ghost predicate LinksAgree(world: set<RouterNode>, links: Links, a: Strings, free: RouterNode)
    requires LinksOwned(world, links, free) && Covers(world, a)
  {
    forall n, k | n in world && k in links[n] :: a[links[n][k]] == a[n]
  }

  lemma LinksCaptured(world: set<RouterNode>, a: Strings, free: RouterNode)
    requires Owned(world) && Covers(world, a) && AgreeUnless(world, a, None) && Ownerless(world, free)
    ensures LinksOwned(world, RouterNode.LinksOf(world), free) && LinksAgree(world, RouterNode.LinksOf(world), a, free)
  {
  }

  /** Linking a router without owner, and with the string of its new owner. */
  lemma LinkAdded(world: set<RouterNode>, links: Links, a: Strings, owner: RouterNode, resource: string,
                  free: RouterNode)
    requires owner in world && free in world && LinksOwned(world, links, free) && Covers(world, a)
    requires LinksAgree(world, links, a, free) && a[free] == a[owner]
    requires owner.subRouters == links[owner][resource := free]
    requires forall n | n in world && n != owner :: n.subRouters == links[n]
    ensures Owned(world) && AgreeUnless(world, a, None)
  {
    forall n, k | n in world && k in n.subRouters
      ensures n.subRouters[k] in world && a[n.subRouters[k]] == a[n]
    {
      assert (n == owner && k == resource) || k in links[n];
    }
  }

  class RouterNode {
    var subRouters: map<string, RouterNode>
    var serverString: string

    constructor (serverString: string)
      ensures this.serverString == serverString && subRouters == map[]
    {
      this.serverString := serverString;
      subRouters := map[];
    }

    static ghost function Snapshot(world: set<RouterNode>): (a: Strings)
      ensures Covers(world, a)
      reads world`serverString
    {
      map n | n in world :: n.serverString
    }

    /** The routers that do not have the string. */
    static ghost function Others(world: set<RouterNode>, a: Strings, str: string): set<RouterNode>
      requires Covers(world, a)
    {
      set n | n in world && a[n] != str
    }

    /**
     `set_server_string`, called on a router whose owner, if any, has the string.
     What it changes hangs together below this router, and where all routers
     agreed with their owners, they still do.
     */
    method SetServerString(str: string, ghost world: set<RouterNode>)
      requires this in world && Owned(world)
      requires AgreeUnless(world, Snapshot(world), Some(str)) && OwnerHas(world, Snapshot(world), this, str)
      modifies world`serverString
      ensures serverString == str
      ensures Repainted(world, old(Snapshot(world)), Snapshot(world), this, str)
      ensures AgreeWhereChanged(world, old(Snapshot(world)), Snapshot(world), this, {})
      ensures AgreeUnless(world, Snapshot(world), Some(str))
      decreases Others(world, Snapshot(world), str)
    {
      if str == serverString {
        return;
      }
      hide Owned, Repainted, AgreeWhereChanged, AgreeUnless, OwnerHas;
      ghost var before := Snapshot(world);
      serverString := str;
      OwnerGoesFirst(world, before, Snapshot(world), this, str);
      var keys := subRouters.Keys;
      while keys != {}
        invariant keys <= subRouters.Keys
        invariant serverString == str
        invariant Repainted(world, before, Snapshot(world), this, str)
        invariant AgreeWhereChanged(world, before, Snapshot(world), this, keys)
        invariant AgreeUnless(world, Snapshot(world), Some(str))
        decreases |keys|
      {
        ghost var now := Snapshot(world);
        var key :| key in keys;
        OwnerOf(world, now, this, key, str);
        FewerOthers(world, before, now, this, str);
        subRouters[key].SetServerString(str, world);
        SubRouterFollows(world, before, now, Snapshot(world), this, keys, key, str);
        keys := keys - {key};
      }
    }

    static lemma OwnerOf(world: set<RouterNode>, a: Strings, top: RouterNode, key: string, str: string)
      requires Owned(world) && Covers(world, a) && top in world && key in top.subRouters && a[top] == str
      ensures top.subRouters[key] in world && OwnerHas(world, a, top.subRouters[key], str)
    {
    }

    static lemma FewerOthers(world: set<RouterNode>, a: Strings, b: Strings, top: RouterNode, str: string)
      requires Owned(world) && Covers(world, a) && Covers(world, b) && top in world
      requires Repainted(world, a, b, top, str) && a[top] != str && b[top] == str
      ensures Others(world, b, str) < Others(world, a, str)
    {
      assert top in Others(world, a, str) && top !in Others(world, b, str);
    }

    /**
     `add_subrouter`, where all routers agree with their owners and the sub-router
     has none. A resource that is taken keeps its sub-router.
     */
    method AddSubRouter(resource: string, subRouter: RouterNode?, ghost world: set<RouterNode>) returns (ok: bool)
      requires this in world && Owned(world) && AgreeUnless(world, Snapshot(world), None)
      requires subRouter != null ==> subRouter in world
      requires subRouter != null ==> Ownerless(world, subRouter)
      modifies world`serverString, this`subRouters
      ensures ok <==> resource != "" && subRouter != null
      ensures subRouters == if ok && resource !in old(subRouters) then old(subRouters)[resource := subRouter]
                            else old(subRouters)
      ensures forall n | n in world ::
                n.serverString == old(n.serverString) || (ok && n.serverString == old(serverString))
      ensures subRouter != null && ok ==> subRouter.serverString == serverString == old(serverString)
      ensures Owned(world) && AgreeUnless(world, Snapshot(world), None)
    {
      if resource == "" {
        return false;
      }
      if subRouter == null {
        return false;
      }
      RootReady(world, Snapshot(world), subRouter, serverString);
      hide Owned, AgreeUnless, AgreeWhereChanged, OwnerHas;
      subRouter.SetServerString(serverString, world);
      AgreementKept(world, old(Snapshot(world)), Snapshot(world), subRouter, serverString);
      if resource !in subRouters {
        Attach(resource, subRouter, world);
      }
      return true;
    }

    /** `try_emplace` of a resource that is not taken. */
    method Attach(resource: string, subRouter: RouterNode, ghost world: set<RouterNode>)
      requires this in world && subRouter in world && Owned(world) && AgreeUnless(world, Snapshot(world), None)
      requires resource !in subRouters && subRouter.serverString == serverString
      requires Ownerless(world, subRouter)
      modifies this`subRouters
      ensures subRouters == old(subRouters)[resource := subRouter]
      ensures Owned(world) && AgreeUnless(world, Snapshot(world), None)
    {
      ghost var links := LinksOf(world);
      LinksCaptured(world, Snapshot(world), subRouter);
      hide Owned, AgreeUnless, Ownerless, LinksOwned, LinksAgree;
      subRouters := subRouters[resource := subRouter];
      LinkAdded(world, links, Snapshot(world), this, resource, subRouter);
    }

    static ghost function LinksOf(world: set<RouterNode>): Links
      reads world`subRouters
    {
      map n | n in world :: n.subRouters
    }
  }
}
