/**
 * The `Platform` class of ionic/platform/platform.ts: the resolved platform
 * names and versions of one page, the query and user-agent tests, and `load`,
 * which resolves the registry into a hierarchy of active platforms.
 */
module Platforms {

  import opened Wrappers
  import opened JsArray
  import opened JsString
  import JsObject
  import opened PlatformRegistry
  import opened PlatformNodes
  import opened Resolver

  /** A resize listener, known by identity only. */
  datatype Callback = Callback(id: nat)

  /**
   * `testQuery(queryValue, queryTestValue)`: the test value is one of the
   * `;`-separated parts of the lower-cased query value.
   */
  function TestQuery(queryValue: string, queryTestValue: string): (r: bool)
    ensures r ==> ';' !in queryTestValue
    ensures r ==> forall i :: 0 <= i < |queryTestValue| ==> !IsUpperAscii(queryTestValue[i])
  {
    IndexOf(Split(ToLowerCase(queryValue), ';'), queryTestValue) > -1
  }

  lemma TestQueryParts(queryValue: string, queryTestValue: string)
    ensures TestQuery(queryValue, queryTestValue) <==> queryTestValue in Split(ToLowerCase(queryValue), ';')
    ensures ';' in queryTestValue ==> !TestQuery(queryValue, queryTestValue)
  {
  }

  /** A string without upper-case letters is its own lower case. */
  lemma LowerCaseOfLower(s: string)
    requires forall i :: 0 <= i < |s| ==> !IsUpperAscii(s[i])
    ensures ToLowerCase(s) == s
  {
  }

  /** Joining lower-case parts without `;`: exactly the parts pass `testQuery`. */
  lemma {:induction false} TestQueryJoin(parts: seq<string>, queryTestValue: string)
    requires |parts| >= 1
    requires forall i :: 0 <= i < |parts| ==> ';' !in parts[i] && ToLowerCase(parts[i]) == parts[i]
    ensures TestQuery(Join(parts, ';'), queryTestValue) <==> queryTestValue in parts
  {
    var q := Join(parts, ';');
    JoinLower(parts);
    LowerCaseOfLower(q);
    SplitJoin(parts, ';');
  }

  /** A join of lower-case parts has no upper-case letter. */
  lemma {:induction false} JoinLower(parts: seq<string>)
    requires |parts| >= 1
    requires forall i :: 0 <= i < |parts| ==> ToLowerCase(parts[i]) == parts[i]
    ensures forall i :: 0 <= i < |Join(parts, ';')| ==> !IsUpperAscii(Join(parts, ';')[i])
    decreases |parts|
  {
    var p := parts[0];
    assert forall i :: 0 <= i < |p| ==> !IsUpperAscii(p[i]) by {
      assert forall i :: 0 <= i < |p| ==> !IsUpperAscii(ToLowerCase(p)[i]);
    }
    if |parts| > 1 {
      JoinLower(parts[1..]);
      var rest := Join(parts[1..], ';');
      var q := Join(parts, ';');
      assert q == p + [';'] + rest;
      forall i | 0 <= i < |q|
        ensures !IsUpperAscii(q[i])
      {
        if i > |p| {
          assert q[i] == rest[i - |p| - 1];
        }
      }
    }
  }

  class Platform {
    /** `_platforms`: the active platform names, root first, the most specific last. */
    var platforms: seq<Option<string>>
    /** `_versions`: platform name to parsed version (None is undefined), in insertion order. */
    var versions: seq<(Option<string>, Option<Version>)>
    var isRtl: bool
    var onResizes: seq<Callback>
    /** What the match predicates see: query, user-agent tests and `platformOverride`. */
    var context: Context
    /** Members added to the instance by `extend(this, engineMethods)`. */
    var hooks: map<string, Hook>
    /** `_engineReady` */
    var engineReady: Option<Hook>

    /** `_versions` is a JavaScript object: each key once. */
    ghost predicate Valid()
      reads this
    {
      JsObject.DistinctKeys(versions)
    }

    /** `new Platform(platforms)`, with the page's query and user-agent tests. */
    constructor (platforms: seq<Option<string>>, context: Context)
      ensures Valid()
      ensures this.platforms == platforms && versions == [] && !isRtl && onResizes == []
      ensures this.context == context && hooks == map[] && engineReady == None
    {
      this.platforms := platforms;
      versions := [];
      isRtl := false;
      onResizes := [];
      this.context := context;
      hooks := map[];
      engineReady := None;
    }

    /** `is(name)` */
    function Is(name: string): (r: bool)
      reads this
      ensures r <==> Some(name) in platforms
    {
      IndexOf(platforms, Some(name)) > -1
    }

    /** `versions(name)`: the version stored under `name`, None when absent or undefined. */
    function Versions(name: string): (r: Option<Version>)
      reads this
      ensures r.Some? ==> exists i :: 0 <= i < |versions| && versions[i] == (Some(name), r)
      ensures Some(name) !in JsObject.Keys(versions) ==> r.None?
      ensures Valid() ==> forall i :: 0 <= i < |versions| && versions[i].0 == Some(name) ==> r == versions[i].1
    {
      var v := JsObject.Get(versions, Some(name));
      if v.Some? then v.value else None
    }

    /** `version()`: the first defined version in insertion order, None for `{}`. */
    method Version() returns (v: Option<Version>)
      ensures v.Some? ==>
        exists i :: 0 <= i < |versions| && versions[i].1 == v && (forall j :: 0 <= j < i ==> versions[j].1.None?)
      ensures v.None? <==> forall i :: 0 <= i < |versions| ==> versions[i].1.None?
    {
      var i := 0;
      while i < |versions|
        invariant 0 <= i <= |versions|
        invariant forall j :: 0 <= j < i ==> versions[j].1.None?
      {
        if versions[i].1.Some? {
          return versions[i].1;
        }
        i := i + 1;
      }
      return None;
    }

    /** `setIsRTL(val)` */
    method SetIsRTL(val: bool)
      modifies this
      ensures isRtl == val
      ensures platforms == old(platforms) && versions == old(versions) && onResizes == old(onResizes)
      ensures context == old(context) && hooks == old(hooks) && engineReady == old(engineReady)
    {
      isRtl := val;
    }

    /** `onResize(cb)`: registers a listener after the existing ones. */
    method OnResize(cb: Callback)
      modifies this
      ensures onResizes == old(onResizes) + [cb]
      ensures platforms == old(platforms) && versions == old(versions) && isRtl == old(isRtl)
      ensures context == old(context) && hooks == old(hooks) && engineReady == old(engineReady)
    {
      onResizes := onResizes + [cb];
    }

    /** `query(key)`: undefined before a URL was set or when the key is absent. */
    function Query(key: string): (r: Option<string>)
      reads this
      ensures r.Some? <==> context.query.Some? && key in context.query.value
      ensures r.Some? ==> r.value == context.query.value[key]
    {
      if context.query.Some? && key in context.query.value then Some(context.query.value[key]) else None
    }

    /**
     * `isPlatform(queryTestValue, userAgentExpression)`: a truthy
     * `ionicplatform` query value decides by `testQuery`, and the user agent is
     * then ignored; otherwise the user agent is tested against the expression,
     * which defaults to the test value.
     */
    function IsPlatform(queryTestValue: string, userAgentExpression: Option<string>): (r: bool)
      reads this
      ensures Truthy(Query("ionicplatform")) ==> r == TestQuery(Query("ionicplatform").value, queryTestValue)
      ensures !Truthy(Query("ionicplatform")) ==>
        r == context.userAgentTest(if Truthy(userAgentExpression) then userAgentExpression.value else queryTestValue)
    {
      var expression := if Truthy(userAgentExpression) then userAgentExpression.value else queryTestValue;
      var queryValue := Query("ionicplatform");
      if Truthy(queryValue) then TestQuery(queryValue.value, queryTestValue)
      else context.userAgentTest(expression)
    }

    /**
     * `matchPlatform(name)`: a new node for `name` searches upward; on success
     * its root gets as depth the number of nodes below it.
     */
    method MatchPlatform(arena: NodeArena, reg: Entries, ghost rank: string -> nat, name: string)
      returns (root: Option<nat>, ghost path: seq<nat>)
      requires arena.Valid() && Ranked(reg, rank)
      modifies arena
      ensures arena.Valid() && old(arena.nodes) <= arena.nodes
      ensures root.None? <==> Chain(reg, context, rank, name).None?
      ensures root.Some? ==> Matched(arena.nodes, root.value, path, Chain(reg, context, rank, name).value, old(|arena.nodes|))
    {
      var x := arena.NewNode(Some(name));
      ghost var created := arena.nodes;
      root, path := arena.GetRoot(reg, context, rank, x, name);
      if root.Some? {
        assert arena.nodes[x].child == None;
        var depth := CountBelow(arena, root.value, path);
        SetDepthKeepsChain(arena.nodes, path, root.value, depth);
        arena.SetDepth(root.value, depth);
      }
    }
 
    /**
     * One turn of the registry loop of `load`: the name is matched, and its
     * chain's root, if any, is weighed against the engine and best nodes so far.
     */
    method ConsiderPlatform(arena: NodeArena, reg: Entries, ghost rank: string -> nat, name: string, ghost s: Selection,
                            best: Option<nat>, engine: Option<nat>, ghost bestPath: seq<nat>)
      returns (best': Option<nat>, engine': Option<nat>, ghost bestPath': seq<nat>)
      requires arena.Valid() && Ranked(reg, rank) && Selected(arena.nodes, best, engine, bestPath, s)
      modifies arena
      ensures arena.Valid()
      ensures Selected(arena.nodes, best', engine', bestPath', Step(reg, s, Chain(reg, context, rank, name)))
    {
      ghost var before := arena.nodes;
      var r, path := MatchPlatform(arena, reg, rank, name);
      KeepSelected(before, arena.nodes, best, engine, bestPath, s);
      ghost var c := Chain(reg, context, rank, name);
      best', engine', bestPath' := best, engine, bestPath;
      if r.Some? {
        var node := arena.nodes[r.value];
        assert node.key == Some(c.value[0]) by {
          assert KeysOf(arena.nodes, path)[0] == Lift(c.value)[0];
        }
        if IsEngine(Config(reg, node.key)) {
          EngineStep(reg, arena.nodes, best, engine, bestPath, s, r.value, path, c.value, |before|);
          engine' := r;
        } else if best.None? || node.depth > arena.nodes[best.value].depth {
          BestStep(reg, arena.nodes, best, engine, bestPath, s, r.value, path, c.value, |before|);
          best', bestPath' := r, path;
        } else {
          SkipStep(reg, arena.nodes, best, engine, bestPath, s, r.value, path, c.value, |before|);
        }
      }
    }

    /**
     * The registry loop of `load`: every registered name is matched in turn;
     * the root of a chain rooted at an engine becomes the engine node, any
     * other root becomes the best node when there is none or it is deeper.
     */
    method FindPlatforms(arena: NodeArena, reg: Entries, ghost rank: string -> nat)
      returns (best: Option<nat>, engine: Option<nat>, ghost bestPath: seq<nat>)
      requires arena.Valid() && Ranked(reg, rank)
      modifies arena
      ensures arena.Valid() && Selected(arena.nodes, best, engine, bestPath, Select(reg, context, rank, JsObject.Keys(reg)))
    {
      var names := JsObject.Keys(reg);
      best, engine, bestPath := None, None, [];
      var i := 0;
      while i < |names|
        invariant 0 <= i <= |names|
        invariant arena.Valid()
        invariant Selected(arena.nodes, best, engine, bestPath, Select(reg, context, rank, names[..i]))
      {
        SelectSnoc(reg, context, rank, names, i);
        best, engine, bestPath := ConsiderPlatform(arena, reg, rank, names[i], Select(reg, context, rank, names[..i]), best, engine, bestPath);
        assert names[..i + 1][..i] == names[..i];
        i := i + 1;
      }
      assert names[..i] == names;
    }

    /**
     * The first half of `load`: the most specific matching non-engine chain
     * (or a new node for the default name when none matched), with the
     * matching engine's node, if any, joined above it as the new root.
     * Returns the root and the engine's key.
     */
    method RootNode(arena: NodeArena, reg: Entries, ghost rank: string -> nat, defaultName: Option<string>)
      returns (root: nat, engine: Option<string>, ghost path: seq<nat>)
      requires arena.Valid() && Ranked(reg, rank)
      modifies arena
      ensures arena.Valid() && Chained(arena.nodes, path) && path[0] == root
      ensures var s := Select(reg, context, rank, JsObject.Keys(reg));
        KeysOf(arena.nodes, path) == Spliced(s, defaultName) && engine == s.engine
    {
      var best, e, bestPath := FindPlatforms(arena, reg, rank);
      root, engine, path := JoinRoot(arena, best, e, bestPath, Select(reg, context, rank, JsObject.Keys(reg)), defaultName);
    }

    /**
     * The node work of `load` on a fresh arena: the hierarchy is built (see
     * `RootNode`), supersets are inserted, the root is found again and every
     * node's name and version are pushed onto `ps` and `vs`. Returns the
     * engine's key, if an engine matched.
     */
    method Hierarchy(reg: Entries, ghost rank: string -> nat, defaultName: Option<string>,
                     ps: seq<Option<string>>, vs: seq<(Option<string>, Option<Version>)>)
      returns (ps': seq<Option<string>>, vs': seq<(Option<string>, Option<Version>)>, engine: Option<string>)
      requires Ranked(reg, rank)
      ensures engine == Select(reg, context, rank, JsObject.Keys(reg)).engine
      ensures var ks := ResolvedKeys(reg, context, rank, defaultName);
        ps' == ps + Names(reg, ks) && vs' == PutVersions(vs, reg, context, ks)
    {
      var arena := new NodeArena();
      var root: nat;
      ghost var path: seq<nat>;
      root, engine, path := RootNode(arena, reg, rank, defaultName);
      ghost var chain, m := InsertSupersets(arena, reg, root, path);
      root := FindRoot(arena, root, chain, m);
      ps', vs' := PushPlatforms(arena, reg, context, root, chain, ps, vs);
    }

    /** The end of `load`: the resolved platforms, versions and engine hooks become the instance's. */
    method Commit(ps: seq<Option<string>>, vs: seq<(Option<string>, Option<Version>)>,
                  hs: map<string, Hook>, ready: Option<Hook>)
      requires JsObject.DistinctKeys(vs)
      modifies this
      ensures Valid()
      ensures platforms == ps && versions == vs && hooks == hs && engineReady == ready
      ensures context == old(context) && isRtl == old(isRtl) && onResizes == old(onResizes)
    {
      platforms, versions, hooks, engineReady := ps, vs, hs, ready;
    }

    /**
     * `load(platformOverride)`: resolves the registry into the hierarchy of
     * active platforms. The most specific non-engine chain (or a node for the
     * default name) gets the engine, if any, as its new root and the engine's
     * methods are merged in; every node gets its superset inserted above it;
     * the names and versions are then recorded root first, and `mobileweb` is
     * added for a mobile platform outside Cordova.
     */
    method Load(reg: Entries, defaultName: Option<string>, platformOverride: Option<string>, ghost rank: string -> nat)
      requires Valid() && Ranked(reg, rank)
      modifies this
      ensures Valid()
      ensures context == old(context).(platformOverride := platformOverride)
      ensures var ks := ResolvedKeys(reg, context, rank, defaultName);
        && platforms == MobileWeb(old(platforms) + Names(reg, ks))
        && versions == PutVersions(old(versions), reg, context, ks)
      ensures var s := Select(reg, context, rank, JsObject.Keys(reg));
        var methods := MethodsOf(Config(reg, s.engine));
        if s.engine.Some? then hooks == MergeHooks(old(hooks), methods) && engineReady == EngineReady(methods)
        else hooks == old(hooks) && engineReady == old(engineReady)
      ensures isRtl == old(isRtl) && onResizes == old(onResizes)
    {
      var hs, ready := hooks, engineReady;
      context := context.(platformOverride := platformOverride);
      var ps, vs, engine := Hierarchy(reg, rank, defaultName, platforms, versions);
      if engine.Some? {
        var methods := MethodsOf(Config(reg, engine));
        ready := EngineReady(methods);
        hs := MergeHooks(hs, methods);
      }
      assert JsObject.DistinctKeys(vs) by {
        PutVersionsSpec(old(versions), reg, context, ResolvedKeys(reg, context, rank, defaultName));
      }
      if IndexOf(ps, Some("mobile")) > -1 && IndexOf(ps, Some("cordova")) == -1 {
        ps := ps + [Some("mobileweb")];
      }
      Commit(ps, vs, hs, ready);
    }
  }

  /** The depth count of `matchPlatform`: the number of nodes below the root of a chain. */
  method CountBelow(arena: NodeArena, root: nat, ghost path: seq<nat>) returns (depth: nat)
    requires Chained(arena.nodes, path) && path[0] == root
    ensures depth == |path| - 1
  {
    depth := 0;
    var below := arena.nodes[root].child;
    ghost var j := 1;
    while below.Some?
      invariant 1 <= j <= |path| && depth == j - 1
      invariant below == if j < |path| then Some(path[j]) else None
      decreases |path| - j
    {
      ChainNext(arena.nodes, path, j);
      depth := depth + 1;
      below := arena.nodes[below.value].child;
      j := j + 1;
    }
  }

  /**
   * The end of the registry loop of `load`: the best node, or a fresh node
   * for the default name when there is none, roots the chain, and the engine
   * node, if any, is joined above it. Returns the root and the engine's key.
   */
  method JoinRoot(arena: NodeArena, best: Option<nat>, e: Option<nat>, ghost bestPath: seq<nat>, ghost s: Selection,
                  defaultName: Option<string>)
    returns (root: nat, engine: Option<string>, ghost path: seq<nat>)
    requires arena.Valid() && Selected(arena.nodes, best, e, bestPath, s)
    modifies arena
    ensures arena.Valid() && Chained(arena.nodes, path) && path[0] == root
    ensures KeysOf(arena.nodes, path) == Spliced(s, defaultName) && engine == s.engine
  {
    if best.Some? {
      root, path := best.value, bestPath;
    } else {
      ghost var before := arena.nodes;
      root := arena.NewNode(defaultName);
      path := [root];
      assert e.Some? ==> arena.nodes[e.value] == before[e.value];
    }
    assert KeysOf(arena.nodes, path) == Spliced(s.(engine := None), defaultName);
    engine := None;
    if e.Some? {
      engine := arena.nodes[e.value].key;
      root, path := SpliceEngine(arena, e.value, root, path);
    }
  }

  /**
   * The state of the registry loop agrees with the selection `s`: the best
   * node roots a chain with the best chain's keys and its depth, and the
   * engine node is a root named as the engine, off that chain.
   */
  ghost predicate Selected(nodes: seq<Node>, best: Option<nat>, engine: Option<nat>, bestPath: seq<nat>, s: Selection)
  {
    && (best.Some? <==> s.best.Some?)
    && (best.Some? ==>
          Chained(nodes, bestPath) && bestPath[0] == best.value
          && KeysOf(nodes, bestPath) == Lift(s.best.value)
          && nodes[best.value].depth == |bestPath| - 1)
    && (engine.Some? <==> s.engine.Some?)
    && (engine.Some? ==>
          engine.value < |nodes| && nodes[engine.value].key == s.engine
          && nodes[engine.value].parent == None
          && (best.Some? ==> engine.value !in bestPath))
  }

  /**
   * What `matchPlatform` returns for a chain `c`: a new root `r` of a chain of
   * nodes created at or after index `lo`, keyed by `c`, with its depth set.
   */
  ghost predicate Matched(nodes: seq<Node>, r: nat, path: seq<nat>, c: seq<string>, lo: nat)
  {
    && Chained(nodes, path) && path[0] == r
    && KeysOf(nodes, path) == Lift(c)
    && (forall i :: 0 <= i < |path| ==> lo <= path[i])
    && nodes[r].depth == |path| - 1
  }

  /** The nodes the registry loop holds were all created before index `lo`. */
  ghost predicate Older(best: Option<nat>, engine: Option<nat>, bestPath: seq<nat>, lo: nat)
  {
    && (best.Some? ==> forall i :: 0 <= i < |bestPath| ==> bestPath[i] < lo)
    && (engine.Some? ==> engine.value < lo)
  }

  /** A chain rooted at an engine makes its root the engine node. */
  lemma EngineStep(reg: Entries, nodes: seq<Node>, best: Option<nat>, engine: Option<nat>, bestPath: seq<nat>,
                   s: Selection, r: nat, path: seq<nat>, c: seq<string>, lo: nat)
    requires Selected(nodes, best, engine, bestPath, s) && Older(best, engine, bestPath, lo)
    requires Matched(nodes, r, path, c, lo) && IsEngine(Config(reg, nodes[r].key))
    ensures Selected(nodes, best, Some(r), bestPath, Step(reg, s, Some(c)))
  {
    assert KeysOf(nodes, path)[0] == nodes[r].key;
    assert lo <= path[0] == r;
    assert best.Some? ==> r !in bestPath;
  }

  /** A deeper, or first, non-engine chain makes its root the best node. */
  lemma BestStep(reg: Entries, nodes: seq<Node>, best: Option<nat>, engine: Option<nat>, bestPath: seq<nat>,
                 s: Selection, r: nat, path: seq<nat>, c: seq<string>, lo: nat)
    requires Selected(nodes, best, engine, bestPath, s) && Older(best, engine, bestPath, lo)
    requires Matched(nodes, r, path, c, lo) && !IsEngine(Config(reg, nodes[r].key))
    requires best.None? || nodes[r].depth > nodes[best.value].depth
    ensures Selected(nodes, Some(r), engine, path, Step(reg, s, Some(c)))
  {
    assert KeysOf(nodes, path)[0] == nodes[r].key;
    assert |c| == |path|;
    assert engine.Some? ==> engine.value !in path;
  }

  /** A chain no deeper than the best one changes nothing. */
  lemma SkipStep(reg: Entries, nodes: seq<Node>, best: Option<nat>, engine: Option<nat>, bestPath: seq<nat>,
                 s: Selection, r: nat, path: seq<nat>, c: seq<string>, lo: nat)
    requires Selected(nodes, best, engine, bestPath, s) && Older(best, engine, bestPath, lo)
    requires Matched(nodes, r, path, c, lo) && !IsEngine(Config(reg, nodes[r].key))
    requires best.Some? && nodes[r].depth <= nodes[best.value].depth
    ensures Selected(nodes, best, engine, bestPath, Step(reg, s, Some(c)))
  {
    assert KeysOf(nodes, path)[0] == nodes[r].key;
    assert |c| == |path| && |s.best.value| == |bestPath|;
  }

  /** Appending nodes to the arena keeps the registry loop's state. */
  lemma KeepSelected(nodes: seq<Node>, nodes': seq<Node>, best: Option<nat>, engine: Option<nat>, bestPath: seq<nat>, s: Selection)
    requires Selected(nodes, best, engine, bestPath, s) && nodes <= nodes'
    ensures Selected(nodes', best, engine, bestPath, s)
    ensures Older(best, engine, bestPath, |nodes|)
  {
    if best.Some? {
      ChainedGrows(nodes, nodes', bestPath);
    }
  }

  /** Setting a node's depth leaves every link and key as it was. */
  lemma SetDepthKeepsChain(nodes: seq<Node>, path: seq<nat>, r: nat, d: nat)
    requires Chained(nodes, path) && r < |nodes|
    ensures var nodes' := nodes[r := nodes[r].(depth := d)];
      Chained(nodes', path) && KeysOf(nodes', path) == KeysOf(nodes, path)
  {
    var nodes' := nodes[r := nodes[r].(depth := d)];
    assert forall i :: 0 <= i < |nodes| ==>
      (nodes'[i].key == nodes[i].key && nodes'[i].parent == nodes[i].parent && nodes'[i].child == nodes[i].child);
  }

  /** One turn of the last loop of `load`, as a step of `Names` and of `PutVersions`. */
  lemma PushStep(reg: Entries, ctx: Context, ks: seq<Option<string>>, j: nat,
                 ps: seq<Option<string>>, vs: seq<(Option<string>, Option<Version>)>,
                 ps': seq<Option<string>>, vs': seq<(Option<string>, Option<Version>)>)
    requires j < |ks| && Pushed(reg, ctx, ks, j, ps, vs, ps', vs')
    ensures Pushed(reg, ctx, ks, j + 1, ps, vs, ps' + [NameOf(Config(reg, ks[j]))],
                   JsObject.Put(vs', NameOf(Config(reg, ks[j])), NodeVersion(Config(reg, ks[j]), ctx)))
  {
    var n := NameOf(Config(reg, ks[j]));
    var v := NodeVersion(Config(reg, ks[j]), ctx);
    assert Names(reg, ks[..j + 1]) == Names(reg, ks[..j]) + [n]
        && PutVersions(vs, reg, ctx, ks[..j + 1]) == JsObject.Put(PutVersions(vs, reg, ctx, ks[..j]), n, v) by {
      PushPrefix(reg, ctx, vs, ks, j);
    }
    AppendAssoc(ps, Names(reg, ks[..j]), [n]);
  }

  lemma AppendAssoc<T>(a: seq<T>, b: seq<T>, c: seq<T>)
    ensures (a + b) + c == a + (b + c)
  {
  }

  /** `Names` and `PutVersions` over one key more. */
  lemma PushPrefix(reg: Entries, ctx: Context, vs: seq<(Option<string>, Option<Version>)>, ks: seq<Option<string>>, j: nat)
    requires j < |ks|
    ensures Names(reg, ks[..j + 1]) == Names(reg, ks[..j]) + [NameOf(Config(reg, ks[j]))]
    ensures PutVersions(vs, reg, ctx, ks[..j + 1]) ==
      JsObject.Put(PutVersions(vs, reg, ctx, ks[..j]), NameOf(Config(reg, ks[j])), NodeVersion(Config(reg, ks[j]), ctx))
  {
    var es := VersionEntries(reg, ctx, ks[..j + 1]);
    assert es[..j] == VersionEntries(reg, ctx, ks[..j]);
  }

  /**
   * Joining the engine node `e`, a root off the chain `path`, above the chain's
   * first node (the arena `n2` is `nodes` with those two links set) gives a
   * chain one longer with `e`'s key in front.
   */
  lemma SpliceAbove(nodes: seq<Node>, n2: seq<Node>, e: nat, path: seq<nat>)
    requires Chained(nodes, path) && e < |nodes| && e !in path && nodes[e].parent == None
    requires |n2| == |nodes|
    requires n2[e] == nodes[e].(child := Some(path[0]))
    requires n2[path[0]] == nodes[path[0]].(parent := Some(e))
    requires forall i :: 0 <= i < |nodes| && i != e && i != path[0] ==> n2[i] == nodes[i]
    ensures Chained(n2, [e] + path)
    ensures KeysOf(n2, [e] + path) == [nodes[e].key] + KeysOf(nodes, path)
  {
    var p := [e] + path;
    SpliceDistinct(e, path);
    SpliceLinks(nodes, n2, e, path);
    assert n2[p[|p| - 1]].child == None by {
      if |path| > 1 {
        assert p[|p| - 1] == path[|path| - 1] != path[0];
      }
    }
    KeysOfCons(nodes, n2, e, path);
  }

  /** Putting a node that is not on a chain in front of it keeps the nodes distinct. */
  lemma SpliceDistinct(e: nat, path: seq<nat>)
    requires e !in path
    requires forall i, j :: 0 <= i < j < |path| ==> path[i] != path[j]
    ensures forall a, b :: 0 <= a < b < |[e] + path| ==> ([e] + path)[a] != ([e] + path)[b]
  {
    var p := [e] + path;
    forall a, b | 0 <= a < b < |p|
      ensures p[a] != p[b]
    {
      if a > 0 {
        assert p[a] == path[a - 1] && p[b] == path[b - 1];
      }
    }
  }

  /** The child and parent links along `e` followed by `path` in the spliced arena. */
  lemma SpliceLinks(nodes: seq<Node>, n2: seq<Node>, e: nat, path: seq<nat>)
    requires Linked(nodes, path) && e < |nodes| && e !in path
    requires |n2| == |nodes|
    requires n2[e] == nodes[e].(child := Some(path[0]))
    requires n2[path[0]] == nodes[path[0]].(parent := Some(e))
    requires forall i :: 0 <= i < |nodes| && i != e && i != path[0] ==> n2[i] == nodes[i]
    ensures forall q :: 0 <= q < |path| ==> n2[([e] + path)[q]].child == Some(([e] + path)[q + 1])
    ensures forall q :: 0 <= q < |path| ==> n2[([e] + path)[q + 1]].parent == Some(([e] + path)[q])
  {
    var p := [e] + path;
    forall q | 0 <= q < |path|
      ensures n2[p[q]].child == Some(p[q + 1]) && n2[p[q + 1]].parent == Some(p[q])
    {
      if q > 0 {
        assert p[q] == path[q - 1] && p[q + 1] == path[q];
        assert path[q] != path[0];
      }
    }
  }

  /** The keys along `e` followed by `path`, where no key changed. */
  lemma KeysOfCons(nodes: seq<Node>, n2: seq<Node>, e: nat, path: seq<nat>)
    requires InArena(nodes, path) && e < |nodes| && |n2| == |nodes|
    requires n2[e].key == nodes[e].key
    requires forall i :: 0 <= i < |path| ==> n2[path[i]].key == nodes[path[i]].key
    ensures KeysOf(n2, [e] + path) == [nodes[e].key] + KeysOf(nodes, path)
  {
    var p := [e] + path;
    var ks := KeysOf(n2, p);
    var want := [nodes[e].key] + KeysOf(nodes, path);
    forall i | 0 <= i < |p|
      ensures ks[i] == want[i]
    {
      if i > 0 {
        assert p[i] == path[i - 1];
      }
    }
    assert ks == want;
  }

  /**
   * The invariant of the superset walk over the chain `path` with keys `ks`,
   * `j` nodes in: the arena holds a chain `q` whose keys are those of the first
   * `j` nodes with their supersets inserted, followed by the rest unchanged,
   * and the walk's starting node is at index `m` of `q`.
   */
  ghost predicate Walking(reg: Entries, nodes: seq<Node>, q: seq<nat>, path: seq<nat>, ks: seq<Option<string>>, j: nat, m: nat)
  {
    && j <= |path| == |ks| && Tail(q, path, j)
    && Chained(nodes, q)
    && KeysOf(nodes, q) == WithSupersets(reg, ks[..j]) + ks[j..]
    && m < |q| && q[m] == path[0]
  }

  /** One turn of the superset walk keeps its invariant, and the walk goes on to the next original node. */
  lemma SupersetStep(reg: Entries, nodes: seq<Node>, nodes': seq<Node>, q: seq<nat>, path: seq<nat>,
                     ks: seq<Option<string>>, j: nat, m: nat)
    returns (q': seq<nat>, m': nat)
    requires Walking(reg, nodes, q, path, ks, j, m) && j < |path|
    requires SupersetInserted(reg, nodes, nodes', path[j])
    ensures Walking(reg, nodes', q', path, ks, j + 1, m')
    ensures path[j] < |nodes'| && nodes'[path[j]].child == if j + 1 < |path| then Some(path[j + 1]) else None
  {
    var sup := SupersetOf(Config(reg, nodes[path[j]].key));
    if sup.Some? {
      q', m' := SupersetAdded(reg, nodes, q, path, ks, j, m, sup.value);
    } else {
      q', m' := q, m;
      SupersetSkipped(reg, nodes, q, path, ks, j, m);
    }
  }

  /** The walk's turn at a node with a superset: the superset's node goes in just above it. */
  lemma SupersetAdded(reg: Entries, nodes: seq<Node>, q: seq<nat>, path: seq<nat>,
                         ks: seq<Option<string>>, j: nat, m: nat, s: string)
    returns (q': seq<nat>, m': nat)
    requires Walking(reg, nodes, q, path, ks, j, m) && j < |path|
    requires path[j] < |nodes| && (nodes[path[j]].parent.Some? ==> nodes[path[j]].parent.value < |nodes|)
    requires SupersetOf(Config(reg, nodes[path[j]].key)) == Some(s)
    ensures var nodes' := InsertAbove(nodes, path[j], s);
      && Walking(reg, nodes', q', path, ks, j + 1, m')
      && path[j] < |nodes'| && nodes'[path[j]].child == if j + 1 < |path| then Some(path[j + 1]) else None
  {
    var i := |q| - (|path| - j);
    var keys := KeysOf(nodes, q);
    WalkAt(reg, nodes, q, path, ks, j);
    q', m' := Spread(q, i, |nodes|, m);
    WalkKeys(reg, keys, ks, j, i, [Some(s)]);
    InsertAboveKeepsChain(nodes, q, i, s);
    var nodes' := InsertAbove(nodes, q[i], s);
    WalkTail(q, q', path, j, |nodes|);
    ChildInChain(nodes', q', path, j);
  }

  /** The walk's turn at a node without a superset changes nothing. */
  lemma SupersetSkipped(reg: Entries, nodes: seq<Node>, q: seq<nat>, path: seq<nat>,
                        ks: seq<Option<string>>, j: nat, m: nat)
    requires Walking(reg, nodes, q, path, ks, j, m) && j < |path|
    requires path[j] < |nodes| && SupersetOf(Config(reg, nodes[path[j]].key)).None?
    ensures Walking(reg, nodes, q, path, ks, j + 1, m)
    ensures nodes[path[j]].child == if j + 1 < |path| then Some(path[j + 1]) else None
  {
    assert Tail(q, path, j + 1) by {
      WalkTail(q, q, path, j, |nodes|);
    }
    assert KeysOf(nodes, q) == WithSupersets(reg, ks[..j + 1]) + ks[j + 1..] by {
      var i := |q| - (|path| - j);
      var keys := KeysOf(nodes, q);
      WalkAt(reg, nodes, q, path, ks, j);
      WalkKeys(reg, keys, ks, j, i, []);
    }
    ChildInChain(nodes, q, path, j);
  }

  /** A chain with `n` put in at `i`, and where its `m`th node went. */
  lemma Spread(q: seq<nat>, i: nat, n: nat, m: nat) returns (q': seq<nat>, m': nat)
    requires i <= |q| && m < |q|
    ensures q' == q[..i] + [n] + q[i..]
    ensures m' < |q'| && q'[m'] == q[m]
  {
    q' := q[..i] + [n] + q[i..];
    m' := if m < i then m else m + 1;
    if m < i {
      assert q'[m'] == q[..i][m];
    } else {
      assert q'[m'] == q[i..][m - i];
    }
  }

  /** The original nodes from the `j`th on are, in order, the last ones of the walked chain `q`. */
  ghost predicate Tail(q: seq<nat>, path: seq<nat>, j: nat)
  {
    && j <= |path| <= |q| + j
    && forall k :: j <= k < |path| ==> q[|q| - |path| + k] == path[k]
  }

  /** Where the walk stands: the `j`th original node is in `q` after the inserted ones, with key `ks[j]`. */
  lemma WalkAt(reg: Entries, nodes: seq<Node>, q: seq<nat>, path: seq<nat>, ks: seq<Option<string>>, j: nat)
    requires j < |path| == |ks| && Tail(q, path, j) && InArena(nodes, q)
    requires KeysOf(nodes, q) == WithSupersets(reg, ks[..j]) + ks[j..]
    ensures q[|q| - (|path| - j)] == path[j]
    ensures |WithSupersets(reg, ks[..j])| == |q| - (|path| - j)
    ensures nodes[path[j]].key == ks[j]
  {
    var i := |q| - (|path| - j);
    assert (WithSupersets(reg, ks[..j]) + ks[j..])[i] == ks[j..][0];
  }

  /** The keys after one more turn of the walk: `a` (the node's superset, if any) goes in at `i`. */
  lemma WalkKeys(reg: Entries, keys: seq<Option<string>>, ks: seq<Option<string>>, j: nat, i: nat, a: seq<Option<string>>)
    requires j < |ks| && i == |WithSupersets(reg, ks[..j])|
    requires keys == WithSupersets(reg, ks[..j]) + ks[j..]
    requires a == Above(reg, ks[j])
    ensures keys[..i] + a + keys[i..] == WithSupersets(reg, ks[..j + 1]) + ks[j + 1..]
    ensures a == [] ==> keys == WithSupersets(reg, ks[..j + 1]) + ks[j + 1..]
  {
    var pre := WithSupersets(reg, ks[..j]);
    assert keys[..i] == pre && keys[i..] == ks[j..];
    assert ks[j..] == [ks[j]] + ks[j + 1..] by {
      assert ks[j..][1..] == ks[j + 1..];
    }
    assert ks[..j + 1] == ks[..j] + [ks[j]];
    WithSupersetsAppend(reg, ks[..j], [ks[j]]);
    assert WithSupersets(reg, [ks[j]]) == a + [ks[j]] by {
      assert [ks[j]][1..] == [];
    }
    if a == [] {
      calc {
        keys[..i] + a + keys[i..];
        keys[..i] + keys[i..];
        keys;
      }
    }
  }

  /** The original nodes past the `j`th stay at the end of the walked chain, whether or not a node went in before it. */
  lemma WalkTail(q: seq<nat>, q': seq<nat>, path: seq<nat>, j: nat, n: nat)
    requires j < |path| && Tail(q, path, j)
    requires q' == q || q' == q[..|q| - (|path| - j)] + [n] + q[|q| - (|path| - j)..]
    ensures Tail(q', path, j + 1)
  {
    var i := |q| - (|path| - j);
    forall k | j + 1 <= k < |path|
      ensures q'[|q'| - |path| + k] == path[k]
    {
      if q' != q {
        assert q'[|q'| - |path| + k] == q[i..][k - j];
      }
    }
  }

  /** In a chain, a node is followed by the one after it in any tail of the chain. */
  lemma ChildInChain(nodes: seq<Node>, q: seq<nat>, path: seq<nat>, j: nat)
    requires Chained(nodes, q) && j < |path| && Tail(q, path, j)
    ensures path[j] < |nodes| && nodes[path[j]].child == if j + 1 < |path| then Some(path[j + 1]) else None
  {
    var i := |q| - (|path| - j);
    assert q[i] == path[j];
    if j + 1 < |path| {
      assert q[i + 1] == path[j + 1];
    }
  }

  /**
   * `engineNode.child(root); root.parent(engineNode)`: the engine's node `e`
   * becomes the parent of the chain's first node and the new root.
   */
  method SpliceEngine(arena: NodeArena, e: nat, root: nat, ghost path: seq<nat>) returns (root': nat, ghost path': seq<nat>)
    requires arena.Valid() && Chained(arena.nodes, path) && path[0] == root
    requires e < |arena.nodes| && e !in path && arena.nodes[e].parent == None
    modifies arena
    ensures arena.Valid() && Chained(arena.nodes, path') && path'[0] == root' == e
    ensures KeysOf(arena.nodes, path') == [old(arena.nodes)[e].key] + KeysOf(old(arena.nodes), path)
  {
    ghost var before := arena.nodes;
    arena.nodes := arena.nodes[e := arena.nodes[e].(child := Some(root))];
    arena.nodes := arena.nodes[root := arena.nodes[root].(parent := Some(e))];
    SpliceAbove(before, arena.nodes, e, path);
    root', path' := e, [e] + path;
  }

  /**
   * The last loop of `load`: from the root down, each node's name is pushed
   * onto the platform list `ps` and its version stored in the versions object
   * `vs` under that name.
   */
  method PushPlatforms(arena: NodeArena, reg: Entries, ctx: Context, root: nat, ghost path: seq<nat>,
                       ps: seq<Option<string>>, vs: seq<(Option<string>, Option<Version>)>)
    returns (ps': seq<Option<string>>, vs': seq<(Option<string>, Option<Version>)>)
    requires Chained(arena.nodes, path) && path[0] == root
    ensures ps' == ps + Names(reg, KeysOf(arena.nodes, path))
    ensures vs' == PutVersions(vs, reg, ctx, KeysOf(arena.nodes, path))
  {
    ghost var ks := KeysOf(arena.nodes, path);
    ps', vs' := ps, vs;
    var node: Option<nat> := Some(root);
    ghost var j := 0;
    assert Pushed(reg, ctx, ks, 0, ps, vs, ps', vs');
    while node.Some?
      invariant 0 <= j <= |path|
      invariant node == if j < |path| then Some(path[j]) else None
      invariant Pushed(reg, ctx, ks, j, ps, vs, ps', vs')
      decreases |path| - j
    {
      node, ps', vs' := PushNode(arena, reg, ctx, node.value, path, ks, j, ps, vs, ps', vs');
      j := j + 1;
    }
    assert ks[..j] == ks;
  }

  /** The lists `ps'` and `vs'` are `ps` and `vs` with the first `j` keys of `ks` pushed. */
  ghost predicate Pushed(reg: Entries, ctx: Context, ks: seq<Option<string>>, j: nat,
                         ps: seq<Option<string>>, vs: seq<(Option<string>, Option<Version>)>,
                         ps': seq<Option<string>>, vs': seq<(Option<string>, Option<Version>)>)
  {
    j <= |ks| && ps' == ps + Names(reg, ks[..j]) && vs' == PutVersions(vs, reg, ctx, ks[..j])
  }

  /** One round of the last loop of `load`: the `j`-th node's name and version are pushed, and the walk moves to its child. */
  method PushNode(arena: NodeArena, reg: Entries, ctx: Context, x: nat, ghost path: seq<nat>, ghost ks: seq<Option<string>>,
                  ghost j: nat, ghost ps: seq<Option<string>>, ghost vs: seq<(Option<string>, Option<Version>)>,
                  ps': seq<Option<string>>, vs': seq<(Option<string>, Option<Version>)>)
    returns (next: Option<nat>, ps'': seq<Option<string>>, vs'': seq<(Option<string>, Option<Version>)>)
    requires Chained(arena.nodes, path) && ks == KeysOf(arena.nodes, path) && j < |path| && x == path[j]
    requires Pushed(reg, ctx, ks, j, ps, vs, ps', vs')
    ensures Pushed(reg, ctx, ks, j + 1, ps, vs, ps'', vs'')
    ensures next == if j + 1 < |path| then Some(path[j + 1]) else None
  {
    var c := Config(reg, arena.nodes[x].key);
    assert arena.nodes[x].key == ks[j];
    PushStep(reg, ctx, ks, j, ps, vs, ps', vs');
    ps'' := ps' + [NameOf(c)];
    vs'' := JsObject.Put(vs', NameOf(c), NodeVersion(c, ctx));
    ChainNext(arena.nodes, path, j);
    next := arena.nodes[x].child;
  }

  /**
   * The middle loop of `load`: from the root down, each node's superset (if
   * any) is inserted just above it, so the chain's keys become the walk with
   * supersets of its old keys; `m` is where the old root now sits.
   */
  method InsertSupersets(arena: NodeArena, reg: Entries, root: nat, ghost path: seq<nat>)
    returns (ghost q: seq<nat>, ghost m: nat)
    requires arena.Valid() && Chained(arena.nodes, path) && path[0] == root
    modifies arena
    ensures arena.Valid() && Chained(arena.nodes, q)
    ensures KeysOf(arena.nodes, q) == WithSupersets(reg, KeysOf(old(arena.nodes), path))
    ensures m < |q| && q[m] == root
  {
    ghost var ks := KeysOf(arena.nodes, path);
    WalkStart(reg, arena.nodes, path);
    q, m := WalkDown(arena, reg, root, path, ks);
    WalkEnd(reg, arena.nodes, q, path, ks, |path|, m);
  }

  /** The loop of `InsertSupersets`, from the first node of the chain to the last. */
  method WalkDown(arena: NodeArena, reg: Entries, root: nat, ghost path: seq<nat>, ghost ks: seq<Option<string>>)
    returns (ghost q: seq<nat>, ghost m: nat)
    requires arena.Valid() && Walking(reg, arena.nodes, path, path, ks, 0, 0) && path[0] == root
    modifies arena
    ensures arena.Valid() && Walking(reg, arena.nodes, q, path, ks, |path|, m)
  {
    q, m := path, 0;
    var node: Option<nat> := Some(root);
    ghost var j := 0;
    while node.Some?
      invariant arena.Valid() && Walking(reg, arena.nodes, q, path, ks, j, m)
      invariant node == if j < |path| then Some(path[j]) else None
      decreases |path| - j
    {
      node, q, m := InsertSupersetAt(arena, reg, node.value, path, ks, q, j, m);
      j := j + 1;
    }
  }

  /** The walk starts on the chain itself, with no node visited. */
  lemma WalkStart(reg: Entries, nodes: seq<Node>, path: seq<nat>)
    requires Chained(nodes, path)
    ensures Walking(reg, nodes, path, path, KeysOf(nodes, path), 0, 0)
  {
    var ks := KeysOf(nodes, path);
    assert ks[..0] == [] && ks[0..] == ks;
  }

  /** Once every node is visited, the chain's keys are those of the whole walk. */
  lemma WalkEnd(reg: Entries, nodes: seq<Node>, q: seq<nat>, path: seq<nat>, ks: seq<Option<string>>, j: nat, m: nat)
    requires Walking(reg, nodes, q, path, ks, j, m) && j == |path|
    ensures Chained(nodes, q) && KeysOf(nodes, q) == WithSupersets(reg, ks) && m < |q| && q[m] == path[0]
  {
    assert ks[..j] == ks && ks[j..] == [];
  }

  /** One round of the descent of `load`: the superset of the `j`-th node of the chain goes in above it, and the walk moves to its child. */
  method InsertSupersetAt(arena: NodeArena, reg: Entries, x: nat, ghost path: seq<nat>, ghost ks: seq<Option<string>>,
                          ghost q: seq<nat>, ghost j: nat, ghost m: nat)
    returns (next: Option<nat>, ghost q': seq<nat>, ghost m': nat)
    requires arena.Valid() && Walking(reg, arena.nodes, q, path, ks, j, m) && j < |path| && x == path[j]
    modifies arena
    ensures arena.Valid() && Walking(reg, arena.nodes, q', path, ks, j + 1, m')
    ensures next == if j + 1 < |path| then Some(path[j + 1]) else None
  {
    ghost var before := arena.nodes;
    assert q[|q| - (|path| - j)] == path[j];
    arena.InsertSuperset(reg, x);
    q', m' := SupersetStep(reg, before, arena.nodes, q, path, ks, j, m);
    next := arena.nodes[x].child;
  }

  /** The ascent of `load`: from `x`, at index `m` of the chain, up the parents to the chain's root. */
  method FindRoot(arena: NodeArena, x: nat, ghost chain: seq<nat>, ghost m: nat) returns (root: nat)
    requires Chained(arena.nodes, chain) && m < |chain| && chain[m] == x
    ensures root == chain[0]
  {
    root := x;
    var up := arena.nodes[x].parent;
    ghost var k: nat := m;
    while up.Some?
      invariant k < |chain| && root == chain[k]
      invariant up == if k > 0 then Some(chain[k - 1]) else None
      decreases k
    {
      root := up.value;
      up := arena.nodes[root].parent;
      k := k - 1;
    }
  }
}
