/**
 * `PlatformNode` of ionic/platform/platform.ts: the per-resolution wrapper of a
 * registry descriptor, its match test, its version record, and the upward
 * search `getRoot` for a chain of matching "subset" parents.
 *
 * Nodes live in an arena (`NodeArena.nodes`) and refer to each other by index.
 */
module PlatformNodes {

  import opened Wrappers
  import opened JsString
  import JsObject
  import opened PlatformRegistry

  /** A node: the name it was created with, its `_parent`/`_child` links and its `depth`. */
  datatype Node = Node(key: Option<string>, parent: Option<nat>, child: Option<nat>, depth: nat)

  /** The version record `{str, major, minor}`; a major or minor of None is NaN. */
  datatype Version = Version(str: string, major: Option<int>, minor: Option<int>)

  /** `this.c` of a node created with `key`: the registered descriptor, or None for `{}`. */
  function Config(reg: Entries, key: Option<string>): Option<Descriptor>
  {
    if key.Some? then JsObject.Get(reg, key.value) else None
  }

  /** `name()`: None (undefined) for the empty descriptor. */
  function NameOf(c: Option<Descriptor>): Option<string>
  {
    if c.Some? then Some(c.value.name) else None
  }

  predicate IsEngine(c: Option<Descriptor>)
  {
    c.Some? && c.value.isEngine
  }

  /** `superset()`, counted only when truthy. */
  function SupersetOf(c: Option<Descriptor>): Option<string>
  {
    if c.Some? && Truthy(c.value.superset) then c.value.superset else None
  }

  /** `methods()`: the descriptor's methods, or `{}`. */
  function MethodsOf(c: Option<Descriptor>): map<string, Hook>
  {
    if c.Some? then c.value.methods else map[]
  }

  /**
   * `isMatch(p)`: a truthy override decides alone for a non-engine node; otherwise
   * the descriptor's own predicate decides, and a descriptor without one never matches.
   */
  predicate Matches(c: Option<Descriptor>, ctx: Context)
    ensures Matches(c, ctx) ==> c.Some?
  {
    if Truthy(ctx.platformOverride) && !IsEngine(c) then NameOf(c) == ctx.platformOverride
    else if c.None? || c.value.isMatch.None? then false
    else c.value.isMatch.value(ctx)
  }

  /** Under an override, a non-engine node matches exactly when it bears the overriding name. */
  lemma OverrideDecides(c: Option<Descriptor>, ctx: Context)
    requires Truthy(ctx.platformOverride) && !IsEngine(c)
    ensures Matches(c, ctx) <==> c.Some? && Some(c.value.name) == ctx.platformOverride
  {
  }

  /** An engine is matched by its own predicate, whatever the override. */
  lemma EngineIgnoresOverride(c: Option<Descriptor>, ctx: Context)
    requires IsEngine(c)
    ensures Matches(c, ctx) <==> c.value.isMatch.Some? && c.value.isMatch.value(ctx)
  {
  }

  /** Without an override, a descriptor lacking a predicate never matches. */
  lemma NoPredicateNeverMatches(c: Option<Descriptor>, ctx: Context)
    requires c.None? || c.value.isMatch.None?
    requires !Truthy(ctx.platformOverride) || IsEngine(c)
    ensures !Matches(c, ctx)
  {
  }

  /** `version(p)`: None when there is no parser or it parsed nothing. */
  function NodeVersion(c: Option<Descriptor>, ctx: Context): (v: Option<Version>)
    ensures v.Some? <==> c.Some? && c.value.versionParser.Some? && c.value.versionParser.value(ctx).Some?
    ensures v.Some? ==> '.' in v.value.str
  {
    if c.None? || c.value.versionParser.None? then None
    else
      match c.value.versionParser.value(ctx)
      case None => None
      case Some(raw) =>
        Some(Version(raw.major + "." + raw.minor, ParseInt(raw.major), ParseInt(raw.minor)))
  }

  /**
   * A version parsed from decimal captures gives back those numbers, and its
   * string splits at the dot into the two captures.
   */
  lemma VersionRoundTrip(c: Option<Descriptor>, ctx: Context, major: nat, minor: nat)
    requires c.Some? && c.value.versionParser.Some?
    requires c.value.versionParser.value(ctx) == Some(RawVersion(Decimal(major), Decimal(minor)))
    ensures NodeVersion(c, ctx).Some?
    ensures NodeVersion(c, ctx).value.major == Some(major as int)
    ensures NodeVersion(c, ctx).value.minor == Some(minor as int)
    ensures Split(NodeVersion(c, ctx).value.str, '.') == [Decimal(major), Decimal(minor)]
  {
    ParseDecimalExact(major);
    ParseDecimalExact(minor);
    SplitDecimals(major, minor);
  }

  // The search of getRoot, as a function of the registry and the context

  /**
   * The chain of names, root first, that `getRoot` links above a node named
   * `k`, ending in `k`; None when `getRoot` returns null.
   */
  function Chain(reg: Entries, ctx: Context, rank: string -> nat, k: string): (r: Option<seq<string>>)
    requires Ranked(reg, rank)
    ensures r.Some? ==> |r.value| >= 1 && r.value[|r.value| - 1] == k
    decreases rank(k), 1, 0
  {
    if !Matches(Config(reg, Some(k)), ctx) then None
    else
      var ps := SubsetParents(reg, k);
      if |ps| == 0 then Some([k])
      else
        ParentsRankedBelow(reg, rank, k);
        var c := FirstChain(reg, ctx, rank, k, ps);
        if c.Some? then Some(c.value + [k]) else None
  }

  /** The chain of the first candidate parent, in the order given, whose own search succeeds. */
  function FirstChain(reg: Entries, ctx: Context, rank: string -> nat, k: string, ps: seq<string>): (r: Option<seq<string>>)
    requires Ranked(reg, rank)
    requires forall p :: p in ps ==> rank(p) < rank(k)
    ensures r.Some? ==> |r.value| >= 1
    decreases rank(k), 0, |ps|
  {
    if |ps| == 0 then None
    else
      var c := Chain(reg, ctx, rank, ps[0]);
      if c.Some? then c else FirstChain(reg, ctx, rank, k, ps[1..])
  }

  lemma ChainUnfold(reg: Entries, ctx: Context, rank: string -> nat, k: string)
    requires Ranked(reg, rank)
    requires Matches(Config(reg, Some(k)), ctx) && SubsetParents(reg, k) != []
    ensures forall p :: p in SubsetParents(reg, k) ==> rank(p) < rank(k)
    ensures var f := FirstChain(reg, ctx, rank, k, SubsetParents(reg, k));
      Chain(reg, ctx, rank, k) == if f.Some? then Some(f.value + [k]) else None
  {
    ParentsRankedBelow(reg, rank, k);
  }

  lemma FirstChainUnfold(reg: Entries, ctx: Context, rank: string -> nat, k: string, ps: seq<string>)
    requires Ranked(reg, rank)
    requires forall p :: p in ps ==> rank(p) < rank(k)
    requires |ps| > 0
    ensures FirstChain(reg, ctx, rank, k, ps) ==
      if Chain(reg, ctx, rank, ps[0]).Some? then Chain(reg, ctx, rank, ps[0]) else FirstChain(reg, ctx, rank, k, ps[1..])
  {
  }

  /** A registered name's descriptor bears that name. */
  lemma ConfigNamed(reg: Entries, k: string)
    requires KeysAreNames(reg)
    requires Config(reg, Some(k)).Some?
    ensures Config(reg, Some(k)).value.name == k
  {
    var g := JsObject.Get(reg, k);
    var e :| 0 <= e < |reg| && reg[e] == (k, g.value) && k !in JsObject.Keys(reg)[..e];
  }

  /** First success wins: the result is the chain of the earliest candidate that has one. */
  lemma {:induction false} FirstChainIsFirstSuccess(reg: Entries, ctx: Context, rank: string -> nat, k: string, ps: seq<string>)
    requires Ranked(reg, rank)
    requires forall p :: p in ps ==> rank(p) < rank(k)
    ensures FirstChain(reg, ctx, rank, k, ps).None? <==> forall j :: 0 <= j < |ps| ==> Chain(reg, ctx, rank, ps[j]).None?
    ensures FirstChain(reg, ctx, rank, k, ps).Some? ==>
      exists j :: 0 <= j < |ps| && Chain(reg, ctx, rank, ps[j]) == FirstChain(reg, ctx, rank, k, ps)
        && forall j' :: 0 <= j' < j ==> Chain(reg, ctx, rank, ps[j']).None?
  {
    if |ps| > 0 {
      FirstChainIsFirstSuccess(reg, ctx, rank, k, ps[1..]);
      var f := FirstChain(reg, ctx, rank, k, ps[1..]);
      if Chain(reg, ctx, rank, ps[0]).None? {
        assert forall j :: 1 <= j < |ps| ==> ps[j] == ps[1..][j - 1];
        if f.Some? {
          var j :| 0 <= j < |ps[1..]| && Chain(reg, ctx, rank, ps[1..][j]) == f
            && forall j' :: 0 <= j' < j ==> Chain(reg, ctx, rank, ps[1..][j']).None?;
          assert Chain(reg, ctx, rank, ps[j + 1]) == f;
          assert forall j' :: 0 <= j' < j + 1 ==> Chain(reg, ctx, rank, ps[j']).None? by {
            forall j' | 1 <= j' < j + 1 ensures Chain(reg, ctx, rank, ps[j']).None? {
              assert ps[j'] == ps[1..][j' - 1];
            }
          }
        }
      } else {
        assert FirstChain(reg, ctx, rank, k, ps) == Chain(reg, ctx, rank, ps[0]);
      }
    }
  }

  /**
   * For a matching node that some descriptor lists as a subset, `getRoot`
   * fails exactly when every candidate parent fails, and otherwise extends the
   * chain of the first candidate, in registry order, that succeeds.
   */
  lemma GetRootFirstParent(reg: Entries, ctx: Context, rank: string -> nat, k: string)
    requires Ranked(reg, rank)
    requires Matches(Config(reg, Some(k)), ctx) && SubsetParents(reg, k) != []
    ensures var ps := SubsetParents(reg, k);
      && (Chain(reg, ctx, rank, k).None? <==> forall j :: 0 <= j < |ps| ==> Chain(reg, ctx, rank, ps[j]).None?)
      && (Chain(reg, ctx, rank, k).Some? ==>
            exists j :: 0 <= j < |ps| && Chain(reg, ctx, rank, ps[j]).Some?
              && Chain(reg, ctx, rank, k).value == Chain(reg, ctx, rank, ps[j]).value + [k]
              && forall j' :: 0 <= j' < j ==> Chain(reg, ctx, rank, ps[j']).None?)
  {
    var ps := SubsetParents(reg, k);
    ParentsRankedBelow(reg, rank, k);
    var f := FirstChain(reg, ctx, rank, k, ps);
    assert Chain(reg, ctx, rank, k) == if f.Some? then Some(f.value + [k]) else None;
    FirstChainIsFirstSuccess(reg, ctx, rank, k, ps);
    if f.Some? {
      var j :| 0 <= j < |ps| && Chain(reg, ctx, rank, ps[j]) == f
        && forall j' :: 0 <= j' < j ==> Chain(reg, ctx, rank, ps[j']).None?;
      assert Chain(reg, ctx, rank, k).value == Chain(reg, ctx, rank, ps[j]).value + [k];
    }
  }

  /**
   * The other two outcomes of `getRoot`: null for a node that does not match,
   * the node itself when no descriptor lists it as a subset.
   */
  lemma GetRootEnds(reg: Entries, ctx: Context, rank: string -> nat, k: string)
    requires Ranked(reg, rank)
    ensures !Matches(Config(reg, Some(k)), ctx) ==> Chain(reg, ctx, rank, k).None?
    ensures Matches(Config(reg, Some(k)), ctx) && SubsetParents(reg, k) == [] ==> Chain(reg, ctx, rank, k) == Some([k])
  {
  }

  /**
   * Every chain is a path of matching platforms: each element lists the next as
   * a subset, and the first is listed as a subset by no descriptor (a root).
   */
  lemma {:induction false} ChainShape(reg: Entries, ctx: Context, rank: string -> nat, k: string)
    requires Ranked(reg, rank)
    requires Chain(reg, ctx, rank, k).Some?
    ensures var c := Chain(reg, ctx, rank, k).value;
      && SubsetParents(reg, c[0]) == []
      && (forall i :: 0 <= i < |c| ==> Matches(Config(reg, Some(c[i])), ctx))
      && (forall i :: 0 <= i < |c| - 1 ==> c[i] in SubsetParents(reg, c[i + 1]))
    decreases rank(k)
  {
    var ps := SubsetParents(reg, k);
    if ps != [] {
      ParentsRankedBelow(reg, rank, k);
      var j := ChainParent(reg, ctx, rank, k);
      ChainShape(reg, ctx, rank, ps[j]);
      var up := Chain(reg, ctx, rank, ps[j]).value;
      assert up[|up| - 1] == ps[j] && ps[j] in ps;
      ChainExtends(reg, ctx, up, k);
    } else {
      assert Chain(reg, ctx, rank, k).value == [k];
    }
  }

  /** The parent whose chain a successful search of `k` extends. */
  lemma ChainParent(reg: Entries, ctx: Context, rank: string -> nat, k: string) returns (j: nat)
    requires Ranked(reg, rank) && Chain(reg, ctx, rank, k).Some? && SubsetParents(reg, k) != []
    ensures var ps := SubsetParents(reg, k);
      && j < |ps| && rank(ps[j]) < rank(k) && Chain(reg, ctx, rank, ps[j]).Some?
      && Matches(Config(reg, Some(k)), ctx)
      && Chain(reg, ctx, rank, k).value == Chain(reg, ctx, rank, ps[j]).value + [k]
  {
    var ps := SubsetParents(reg, k);
    ParentsRankedBelow(reg, rank, k);
    var f := FirstChain(reg, ctx, rank, k, ps);
    assert Matches(Config(reg, Some(k)), ctx) && Chain(reg, ctx, rank, k) == Some(f.value + [k]);
    j := FirstChainWitness(reg, ctx, rank, k, ps);
  }

  /** The candidate whose chain `FirstChain` returns. */
  lemma {:induction false} FirstChainWitness(reg: Entries, ctx: Context, rank: string -> nat, k: string, ps: seq<string>)
    returns (j: nat)
    requires Ranked(reg, rank)
    requires forall p :: p in ps ==> rank(p) < rank(k)
    requires FirstChain(reg, ctx, rank, k, ps).Some?
    ensures j < |ps| && rank(ps[j]) < rank(k) && Chain(reg, ctx, rank, ps[j]) == FirstChain(reg, ctx, rank, k, ps)
    decreases |ps|
  {
    if Chain(reg, ctx, rank, ps[0]).Some? {
      j := 0;
    } else {
      var i := FirstChainWitness(reg, ctx, rank, k, ps[1..]);
      j := i + 1;
      assert ps[j] == ps[1..][i];
    }
  }

  /** Putting a matching `k` below a chain whose last element is one of `k`'s subset parents keeps the chain's shape. */
  lemma ChainExtends(reg: Entries, ctx: Context, up: seq<string>, k: string)
    requires |up| >= 1 && SubsetParents(reg, up[0]) == []
    requires forall i :: 0 <= i < |up| ==> Matches(Config(reg, Some(up[i])), ctx)
    requires forall i :: 0 <= i < |up| - 1 ==> up[i] in SubsetParents(reg, up[i + 1])
    requires Matches(Config(reg, Some(k)), ctx) && up[|up| - 1] in SubsetParents(reg, k)
    ensures var c := up + [k];
      && SubsetParents(reg, c[0]) == []
      && (forall i :: 0 <= i < |c| ==> Matches(Config(reg, Some(c[i])), ctx))
      && (forall i :: 0 <= i < |c| - 1 ==> c[i] in SubsetParents(reg, c[i + 1]))
  {
    var c := up + [k];
    assert c[0] == up[0];
    forall i | 0 <= i < |c|
      ensures Matches(Config(reg, Some(c[i])), ctx)
    {
      if i < |up| {
        assert c[i] == up[i];
      }
    }
    forall i | 0 <= i < |c| - 1
      ensures c[i] in SubsetParents(reg, c[i + 1])
    {
      if i < |up| - 1 {
        assert c[i] == up[i] && c[i + 1] == up[i + 1];
      }
    }
  }

  /**
   * Under a truthy override, every matching chain is made of engines and of
   * nodes named after the override.
   */
  lemma OverrideChains(reg: Entries, ctx: Context, rank: string -> nat, k: string)
    requires Ranked(reg, rank)
    requires Truthy(ctx.platformOverride)
    requires Chain(reg, ctx, rank, k).Some?
    ensures var c := Chain(reg, ctx, rank, k).value;
      forall i :: 0 <= i < |c| && !IsEngine(Config(reg, Some(c[i]))) ==> Some(c[i]) == ctx.platformOverride
  {
    ChainShape(reg, ctx, rank, k);
    var c := Chain(reg, ctx, rank, k).value;
    forall i | 0 <= i < |c| && !IsEngine(Config(reg, Some(c[i])))
      ensures Some(c[i]) == ctx.platformOverride
    {
      assert Matches(Config(reg, Some(c[i])), ctx);
      var g := JsObject.Get(reg, c[i]);
      if g.Some? {
        var n :| 0 <= n < |reg| && reg[n] == (c[i], g.value) && c[i] !in JsObject.Keys(reg)[..n];
      }
    }
  }

  // The arena

  /** Names as node keys. */
  function Lift(c: seq<string>): (r: seq<Option<string>>)
    ensures |r| == |c| && forall i :: 0 <= i < |c| ==> r[i] == Some(c[i])
  {
    seq(|c|, i requires 0 <= i < |c| => Some(c[i]))
  }

  ghost predicate InArena(nodes: seq<Node>, path: seq<nat>)
  {
    forall i :: 0 <= i < |path| ==> path[i] < |nodes|
  }

  /**
   * `path` is a doubly linked chain of distinct nodes: its first node has no
   * parent, each node's child is the next one and the next one's parent is it.
   * The last node's child is left open.
   */
  ghost predicate Linked(nodes: seq<Node>, path: seq<nat>)
  {
    && |path| > 0
    && InArena(nodes, path)
    && nodes[path[0]].parent == None
    && (forall i :: 0 <= i < |path| - 1 ==> nodes[path[i]].child == Some(path[i + 1]))
    && (forall i :: 0 <= i < |path| - 1 ==> nodes[path[i + 1]].parent == Some(path[i]))
    && (forall i, j :: 0 <= i < j < |path| ==> path[i] != path[j])
  }

  /** A complete root-to-leaf chain: linked, and its last node has no child. */
  ghost predicate Chained(nodes: seq<Node>, path: seq<nat>)
  {
    Linked(nodes, path) && nodes[path[|path| - 1]].child == None
  }

  /** Following the child link from a node of a chain leads to the next node of the chain, or nowhere from the last. */
  lemma ChainNext(nodes: seq<Node>, path: seq<nat>, j: nat)
    requires Chained(nodes, path) && j < |path|
    ensures nodes[path[j]].child == if j + 1 < |path| then Some(path[j + 1]) else None
  {
  }

  /** The keys along a path of nodes. */
  function KeysOf(nodes: seq<Node>, path: seq<nat>): (ks: seq<Option<string>>)
    requires InArena(nodes, path)
    ensures |ks| == |path| && forall i :: 0 <= i < |path| ==> ks[i] == nodes[path[i]].key
  {
    seq(|path|, i requires 0 <= i < |path| => nodes[path[i]].key)
  }

  /** A path stays a chain, with the same keys, when nodes are only appended to the arena. */
  lemma ChainedGrows(nodes: seq<Node>, nodes': seq<Node>, path: seq<nat>)
    requires Chained(nodes, path) && nodes <= nodes'
    ensures Chained(nodes', path) && KeysOf(nodes', path) == KeysOf(nodes, path)
  {
    assert forall i :: 0 <= i < |nodes| ==> nodes'[i] == nodes[i];
  }

  /**
   * `insertSuperset` on the node `x` as a function of the arena: a new node for
   * the superset `s` takes `x`'s old parent as its parent and `x` as its child,
   * the old parent's child becomes the new node, and `x`'s parent becomes it.
   */
  function InsertAbove(nodes: seq<Node>, x: nat, s: string): (r: seq<Node>)
    requires x < |nodes|
    requires nodes[x].parent.Some? ==> nodes[x].parent.value < |nodes|
    ensures |r| == |nodes| + 1
    ensures r[|nodes|] == Node(Some(s), nodes[x].parent, Some(x), 0)
    ensures r[x].parent == Some(|nodes|) && r[x].key == nodes[x].key
    ensures nodes[x].parent.Some? && nodes[x].parent.value != x ==>
      r[x] == nodes[x].(parent := Some(|nodes|))
      && r[nodes[x].parent.value] == nodes[nodes[x].parent.value].(child := Some(|nodes|))
    ensures forall j :: 0 <= j < |nodes| && j != x && Some(j) != nodes[x].parent ==> r[j] == nodes[j]
  {
    var n := |nodes|;
    var up := nodes[x].parent;
    var withNew := nodes + [Node(Some(s), up, Some(x), 0)];
    var relinked := if up.Some? then withNew[up.value := withNew[up.value].(child := Some(n))] else withNew;
    relinked[x := relinked[x].(parent := Some(n))]
  }

  /** `after` is `before` with a node for `x`'s superset, if it has one, spliced in above `x`. */
  ghost predicate SupersetInserted(reg: Entries, before: seq<Node>, after: seq<Node>, x: nat)
  {
    && x < |before|
    && (before[x].parent.Some? ==> before[x].parent.value < |before|)
    && var s := SupersetOf(Config(reg, before[x].key));
       after == if s.Some? then InsertAbove(before, x, s.value) else before
  }

  /**
   * Inserting above the `i`th node of a chain puts the new node exactly between
   * it and its old parent: the result is again a chain, with the new key at
   * position `i`, and no node off the chain changes.
   */
  lemma InsertAboveKeepsChain(nodes: seq<Node>, path: seq<nat>, i: nat, s: string)
    requires Chained(nodes, path) && i < |path|
    ensures nodes[path[i]].parent.Some? ==> nodes[path[i]].parent.value < |nodes|
    ensures var r := InsertAbove(nodes, path[i], s);
      var path' := path[..i] + [|nodes|] + path[i..];
      && Chained(r, path')
      && KeysOf(r, path') == KeysOf(nodes, path)[..i] + [Some(s)] + KeysOf(nodes, path)[i..]
      && (forall j :: 0 <= j < |nodes| && j !in path ==> r[j] == nodes[j])
      && (forall j :: 0 <= j < |path| ==> r[path[j]].key == nodes[path[j]].key)
  {
    var x := path[i];
    assert i > 0 ==> nodes[x].parent == Some(path[i - 1]);
    assert i == 0 ==> nodes[x].parent == None;
    InsertAboveChained(nodes, path, i, s);
    InsertAboveKeys(nodes, path, i, s);
    InsertAboveOff(nodes, path, i, s);
  }

  /** Inserting above a node of a chain changes no node off the chain. */
  lemma InsertAboveOff(nodes: seq<Node>, path: seq<nat>, i: nat, s: string)
    requires Chained(nodes, path) && i < |path|
    requires nodes[path[i]].parent == if i == 0 then None else Some(path[i - 1])
    ensures var r := InsertAbove(nodes, path[i], s);
      forall j :: 0 <= j < |nodes| && j !in path ==> r[j] == nodes[j]
  {
    assert i > 0 ==> path[i - 1] in path;
  }

  lemma InsertAboveChained(nodes: seq<Node>, path: seq<nat>, i: nat, s: string)
    requires Chained(nodes, path) && i < |path|
    requires nodes[path[i]].parent == if i == 0 then None else Some(path[i - 1])
    ensures Chained(InsertAbove(nodes, path[i], s), path[..i] + [|nodes|] + path[i..])
  {
    var n := |nodes|;
    var r := InsertAbove(nodes, path[i], s);
    var path' := path[..i] + [n] + path[i..];
    InsertAboveLinks(nodes, path, i, s);
    forall a, b | 0 <= a < b < |path'|
      ensures path'[a] != path'[b]
    {
      if a == i || b == i {
        assert n !in path;
      } else {
        assert path'[a] == path[if a < i then a else a - 1];
        assert path'[b] == path[if b < i then b else b - 1];
      }
    }
  }

  lemma InsertAboveOffPath(nodes: seq<Node>, path: seq<nat>, i: nat, s: string)
    requires Chained(nodes, path) && i < |path|
    requires nodes[path[i]].parent == if i == 0 then None else Some(path[i - 1])
    ensures var r := InsertAbove(nodes, path[i], s);
      && r[|nodes|] == Node(Some(s), nodes[path[i]].parent, Some(path[i]), 0)
      && r[path[i]] == nodes[path[i]].(parent := Some(|nodes|))
      && (i > 0 ==> r[path[i - 1]] == nodes[path[i - 1]].(child := Some(|nodes|)))
      && forall j :: 0 <= j < |path| && j != i && j != i - 1 ==> r[path[j]] == nodes[path[j]]
  {
    var x := path[i];
    var r := InsertAbove(nodes, x, s);
    forall j | 0 <= j < |path| && j != i && j != i - 1
      ensures r[path[j]] == nodes[path[j]]
    {
      assert path[j] != x;
      assert i > 0 ==> path[j] != path[i - 1];
    }
  }

  lemma InsertAboveLinks(nodes: seq<Node>, path: seq<nat>, i: nat, s: string)
    requires Chained(nodes, path) && i < |path|
    requires nodes[path[i]].parent == if i == 0 then None else Some(path[i - 1])
    ensures var r := InsertAbove(nodes, path[i], s);
      var path' := path[..i] + [|nodes|] + path[i..];
      && InArena(r, path')
      && r[path'[0]].parent == None
      && r[path'[|path'| - 1]].child == None
      && (forall q :: 0 <= q < |path'| - 1 ==> r[path'[q]].child == Some(path'[q + 1]))
      && (forall q :: 0 <= q < |path'| - 1 ==> r[path'[q + 1]].parent == Some(path'[q]))
  {
    var n := |nodes|;
    var r := InsertAbove(nodes, path[i], s);
    var path' := path[..i] + [n] + path[i..];
    assert |path'| == |path| + 1;
    assert InArena(r, path') by {
      assert forall j :: 0 <= j < i ==> path'[j] == path[j];
      assert forall j :: i < j < |path'| ==> path'[j] == path[j - 1];
    }
    assert r[path'[0]].parent == None by {
      InsertAboveOffPath(nodes, path, i, s);
      if i > 0 {
        assert path'[0] == path[0];
      }
    }
    assert r[path'[|path'| - 1]].child == None by {
      InsertAboveOffPath(nodes, path, i, s);
      assert path'[|path'| - 1] == path[|path| - 1];
    }
    forall q | 0 <= q < |path'| - 1
      ensures r[path'[q]].child == Some(path'[q + 1])
      ensures r[path'[q + 1]].parent == Some(path'[q])
    {
      InsertAboveLinkAt(nodes, path, i, s, q);
    }
  }

  /** The `q`th link of the chain with the new node put in at `i`. */
  lemma InsertAboveLinkAt(nodes: seq<Node>, path: seq<nat>, i: nat, s: string, q: nat)
    requires Chained(nodes, path) && i < |path| && q < |path|
    requires nodes[path[i]].parent == if i == 0 then None else Some(path[i - 1])
    ensures var r := InsertAbove(nodes, path[i], s);
      var path' := path[..i] + [|nodes|] + path[i..];
      && r[path'[q]].child == Some(path'[q + 1])
      && r[path'[q + 1]].parent == Some(path'[q])
  {
    var n := |nodes|;
    var path' := path[..i] + [n] + path[i..];
    InsertAboveOffPath(nodes, path, i, s);
    if q + 1 < i {
      assert path'[q] == path[q] && path'[q + 1] == path[q + 1];
    } else if q + 1 == i {
      assert path'[q] == path[q] && path'[q + 1] == n;
    } else if q == i {
      assert path'[q] == n && path'[q + 1] == path[i];
    } else {
      assert path'[q] == path[q - 1] && path'[q + 1] == path[q];
    }
  }

  lemma InsertAboveKeys(nodes: seq<Node>, path: seq<nat>, i: nat, s: string)
    requires Chained(nodes, path) && i < |path|
    requires nodes[path[i]].parent == if i == 0 then None else Some(path[i - 1])
    ensures var r := InsertAbove(nodes, path[i], s);
      var path' := path[..i] + [|nodes|] + path[i..];
      && InArena(r, path')
      && KeysOf(r, path') == KeysOf(nodes, path)[..i] + [Some(s)] + KeysOf(nodes, path)[i..]
      && (forall j :: 0 <= j < |path| ==> r[path[j]].key == nodes[path[j]].key)
  {
    var x := path[i];
    var n := |nodes|;
    var r := InsertAbove(nodes, x, s);
    var path' := path[..i] + [n] + path[i..];
    forall j | 0 <= j < |path|
      ensures r[path[j]].key == nodes[path[j]].key
    {
    }
    var ks := KeysOf(nodes, path);
    var ks' := KeysOf(r, path');
    var want := ks[..i] + [Some(s)] + ks[i..];
    forall j | 0 <= j < |ks'|
      ensures ks'[j] == want[j]
    {
      if j < i {
        assert ks'[j] == r[path[j]].key;
      } else if j > i {
        assert path'[j] == path[j - 1];
        assert ks'[j] == r[path[j - 1]].key;
      }
    }
    assert ks' == want;
  }

  /** Hanging `x` below the last node of a linked path, whose child is already `x`, extends the path. */
  lemma LinkBelow(nodes: seq<Node>, up: seq<nat>, x: nat)
    requires Linked(nodes, up) && x < |nodes| && x !in up
    requires nodes[up[|up| - 1]].child == Some(x)
    ensures var r := nodes[x := nodes[x].(parent := Some(up[|up| - 1]))];
      && Linked(r, up + [x])
      && KeysOf(r, up + [x]) == KeysOf(nodes, up) + [nodes[x].key]
  {
    var n := |up|;
    var r := nodes[x := nodes[x].(parent := Some(up[n - 1]))];
    var path := up + [x];
    assert forall i :: 0 <= i < n ==> r[up[i]] == nodes[up[i]] && path[i] == up[i];
    assert path[n] == x;
    forall i | 0 <= i < n
      ensures r[path[i]].child == Some(path[i + 1]) && r[path[i + 1]].parent == Some(path[i])
    {
      if i + 1 < n {
        assert path[i + 1] == up[i + 1];
      }
    }
    forall i, j | 0 <= i < j < |path|
      ensures path[i] != path[j]
    {
      if j == n {
        assert path[i] in up;
      }
    }
    assert Linked(r, path);
    var ks := KeysOf(r, path);
    assert forall i :: 0 <= i < n ==> ks[i] == KeysOf(nodes, up)[i];
    assert ks == KeysOf(nodes, up) + [nodes[x].key];
  }

  /** Growing the arena from `before` to `after` changed no old node but `x`, and `x` only in its parent. */
  ghost predicate Kept(before: seq<Node>, after: seq<Node>, x: nat)
    requires |before| <= |after| && x < |before|
  {
    && (forall i :: 0 <= i < |before| && i != x ==> after[i] == before[i])
    && after[x] == before[x].(parent := after[x].parent)
  }

  /**
   * `path` is a linked path of nodes ending at `x` whose keys are `keys`, and
   * every node on it above `x` was created at or after index `from`.
   */
  ghost predicate Found(nodes: seq<Node>, path: seq<nat>, x: nat, keys: seq<Option<string>>, from: nat)
  {
    && Linked(nodes, path) && path[|path| - 1] == x
    && KeysOf(nodes, path) == keys
    && forall i :: 0 <= i < |path| - 1 ==> from <= path[i]
  }

  /** The nodes created during one resolution, linked by index. */
  class NodeArena {
    var nodes: seq<Node>

    /** Every link points into the arena. */
    ghost predicate Valid()
      reads this
    {
      forall i :: 0 <= i < |nodes| ==>
        (nodes[i].parent.Some? ==> nodes[i].parent.value < |nodes|)
        && (nodes[i].child.Some? ==> nodes[i].child.value < |nodes|)
    }

    constructor ()
      ensures Valid() && nodes == []
    {
      nodes := [];
    }

    /** `new PlatformNode(key)`: a fresh node with no links. */
    method NewNode(key: Option<string>) returns (id: nat)
      requires Valid()
      modifies this
      ensures Valid()
      ensures id == old(|nodes|) && nodes == old(nodes) + [Node(key, None, None, 0)]
    {
      id := |nodes|;
      nodes := nodes + [Node(key, None, None, 0)];
    }

    /**
     * `getRoot(p)` on node `x`, named `k`: on success links `x` below the chain of
     * new parent nodes found and returns that chain's root; returns None exactly
     * when the search of `Chain` fails. Old nodes other than `x` do not change, and
     * `x` changes only in its parent, which is set only on success.
     */
    method GetRoot(reg: Entries, ctx: Context, ghost rank: string -> nat, x: nat, ghost k: string)
      returns (root: Option<nat>, ghost path: seq<nat>)
      requires Valid() && Ranked(reg, rank)
      requires x < |nodes| && nodes[x].key == Some(k) && nodes[x].parent == None
      modifies this
      decreases rank(k), 2
      ensures Valid()
      ensures old(|nodes|) <= |nodes| && Kept(old(nodes), nodes, x)
      ensures root.None? <==> Chain(reg, ctx, rank, k).None?
      ensures root.None? ==> nodes[x] == old(nodes)[x]
      ensures root.Some? ==>
        Found(nodes, path, x, Lift(Chain(reg, ctx, rank, k).value), old(|nodes|)) && path[0] == root.value
    {
      var c := Config(reg, nodes[x].key);
      if !Matches(c, ctx) {
        GetRootEnds(reg, ctx, rank, k);
        return None, [];
      }
      ConfigNamed(reg, k);
      var parents := SubsetParents(reg, c.value.name);
      if |parents| == 0 {
        GetRootEnds(reg, ctx, rank, k);
        return Some(x), [x];
      }
      ChainUnfold(reg, ctx, rank, k);
      ParentsRankedBelow(reg, rank, k);
      root, path := TryParents(reg, ctx, rank, x, k, parents);
    }

    /**
     * The loop of `getRoot` over the candidate parents `ps` of node `x`, in
     * order: stops at the first one whose search succeeds, which is the one
     * `FirstChain` picks.
     */
    method TryParents(reg: Entries, ctx: Context, ghost rank: string -> nat, x: nat, ghost k: string, ps: seq<string>)
      returns (root: Option<nat>, ghost path: seq<nat>)
      requires Valid() && Ranked(reg, rank)
      requires x < |nodes| && nodes[x].key == Some(k) && nodes[x].parent == None
      requires forall p :: p in ps ==> rank(p) < rank(k)
      modifies this
      decreases rank(k), 1
      ensures Valid()
      ensures old(|nodes|) <= |nodes| && Kept(old(nodes), nodes, x)
      ensures root.None? <==> FirstChain(reg, ctx, rank, k, ps).None?
      ensures root.None? ==> nodes[x] == old(nodes)[x]
      ensures root.Some? ==>
        Found(nodes, path, x, Lift(FirstChain(reg, ctx, rank, k, ps).value + [k]), old(|nodes|)) && path[0] == root.value
    {
      ghost var all := FirstChain(reg, ctx, rank, k, ps);
      var i := 0;
      while i < |ps|
        invariant 0 <= i <= |ps|
        invariant Valid()
        invariant old(nodes) <= nodes
        invariant FirstChain(reg, ctx, rank, k, ps[i..]) == all
      {
        FirstChainUnfold(reg, ctx, rank, k, ps[i..]);
        var r;
        r, path := TryParent(reg, ctx, rank, x, k, ps[i]);
        if r.Some? {
          return r, path;
        }
        assert ps[i..][1..] == ps[i + 1..];
        i := i + 1;
      }
      return None, [];
    }

    /**
     * One turn of `getRoot`'s loop: a new node for the candidate parent `name`
     * gets `x` as its child and searches upward; on success `x` takes it as parent.
     */
    method TryParent(reg: Entries, ctx: Context, ghost rank: string -> nat, x: nat, ghost k: string, name: string)
      returns (root: Option<nat>, ghost path: seq<nat>)
      requires Valid() && Ranked(reg, rank)
      requires x < |nodes| && nodes[x].key == Some(k) && nodes[x].parent == None
      requires rank(name) < rank(k)
      modifies this
      decreases rank(k), 0
      ensures Valid()
      ensures old(|nodes|) <= |nodes| && Kept(old(nodes), nodes, x)
      ensures root.None? <==> Chain(reg, ctx, rank, name).None?
      ensures root.None? ==> nodes[x] == old(nodes)[x]
      ensures root.Some? ==>
        Found(nodes, path, x, Lift(Chain(reg, ctx, rank, name).value + [k]), old(|nodes|)) && path[0] == root.value
    {
      path := [];
      var p := NewNode(Some(name));
      SetChild(p, x);
      ghost var before := nodes;
      ghost var up;
      root, up := GetRoot(reg, ctx, rank, p, name);
      if root.Some? {
        assert nodes[x] == before[x];
        assert x !in up;
        ghost var above := Chain(reg, ctx, rank, name).value;
        assert Lift(above + [k]) == Lift(above) + [Some(k)];
        LinkBelow(nodes, up, x);
        SetParent(x, p);
        path := up + [x];
      }
    }

    /** `node.child = c` */
    method SetChild(x: nat, c: nat)
      requires Valid() && x < |nodes| && c < |nodes|
      modifies this
      ensures Valid() && nodes == old(nodes)[x := old(nodes)[x].(child := Some(c))]
    {
      nodes := nodes[x := nodes[x].(child := Some(c))];
    }

    /** `node.depth = d` */
    method SetDepth(x: nat, d: nat)
      requires Valid() && x < |nodes|
      modifies this
      ensures Valid() && nodes == old(nodes)[x := old(nodes)[x].(depth := d)]
    {
      nodes := nodes[x := nodes[x].(depth := d)];
    }

    /** `node.parent = p` */
    method SetParent(x: nat, p: nat)
      requires Valid() && x < |nodes| && p < |nodes|
      modifies this
      ensures Valid() && nodes == old(nodes)[x := old(nodes)[x].(parent := Some(p))]
    {
      nodes := nodes[x := nodes[x].(parent := Some(p))];
    }

    /** `insertSuperset(node)`: splices a node for `x`'s truthy superset in above `x`. */
    method InsertSuperset(reg: Entries, x: nat)
      requires Valid() && x < |nodes|
      modifies this
      ensures Valid() && SupersetInserted(reg, old(nodes), nodes, x)
    {
      var s := SupersetOf(Config(reg, nodes[x].key));
      if s.Some? {
        var n := NewNode(s);
        nodes := nodes[n := nodes[n].(parent := nodes[x].parent, child := Some(x))];
        var up := nodes[n].parent;
        if up.Some? {
          nodes := nodes[up.value := nodes[up.value].(child := Some(n))];
        }
        nodes := nodes[x := nodes[x].(parent := Some(n))];
      }
    }
  }
}
