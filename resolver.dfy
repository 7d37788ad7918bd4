/**
 * What `Platform.load` of ionic/platform/platform.ts computes, as functions of
 * the registry and the context: which chain of platforms is the most specific
 * match, which engine is active, how the two are joined, how supersets are
 * inserted, and the platform names and versions that result.
 */
module Resolver {

  import opened Wrappers
  import opened JsArray
  import opened JsString
  import JsObject
  import opened PlatformRegistry
  import opened PlatformNodes

  /** The state of `load`'s registry loop: the chain of `rootPlatformNode`, and the root name of `engineNode`. */
  datatype Selection = Selection(best: Option<seq<string>>, engine: Option<string>)

  /** A matched chain whose root is not an engine: a candidate for the most specific platform. */
  predicate Candidate(reg: Entries, c: Option<seq<string>>)
  {
    c.Some? && |c.value| >= 1 && !IsEngine(Config(reg, Some(c.value[0])))
  }

  /** A matched chain whose root is an engine. */
  predicate EngineRooted(reg: Entries, c: Option<seq<string>>)
  {
    c.Some? && |c.value| >= 1 && IsEngine(Config(reg, Some(c.value[0])))
  }

  /**
   * One turn of the registry loop, given the chain `c` that `matchPlatform`
   * found: a matched engine root replaces the engine; a matched non-engine
   * chain replaces the best one when there is none yet or when it is strictly
   * deeper.
   */
  function Step(reg: Entries, s: Selection, c: Option<seq<string>>): (r: Selection)
    ensures r.engine == (if EngineRooted(reg, c) then Some(c.value[0]) else s.engine)
    ensures r.best == s.best || (Candidate(reg, c) && r.best == c && (s.best.None? || |c.value| > |s.best.value|))
    ensures s.best.Some? ==> r.best.Some? && |r.best.value| >= |s.best.value|
  {
    if EngineRooted(reg, c) then s.(engine := Some(c.value[0]))
    else if Candidate(reg, c) && (s.best.None? || |c.value| > |s.best.value|) then s.(best := c)
    else s
  }

  /**
   * The registry loop over the chains found, in registry order. The best chain
   * is always a candidate and the engine always an engine: each slot only ever
   * takes its own kind of chain.
   */
  function SelectFrom(reg: Entries, cs: seq<Option<seq<string>>>): (s: Selection)
    ensures s.best.Some? ==> Candidate(reg, s.best)
    ensures s.engine.Some? ==> IsEngine(Config(reg, s.engine))
    decreases |cs|
  {
    if cs == [] then Selection(None, None)
    else Step(reg, SelectFrom(reg, cs[..|cs| - 1]), cs[|cs| - 1])
  }

  /** The chain `matchPlatform` finds for each name. */
  function Chains(reg: Entries, ctx: Context, rank: string -> nat, names: seq<string>): (cs: seq<Option<seq<string>>>)
    requires Ranked(reg, rank)
    ensures |cs| == |names| && forall i :: 0 <= i < |names| ==> cs[i] == Chain(reg, ctx, rank, names[i])
  {
    seq(|names|, i requires 0 <= i < |names| => Chain(reg, ctx, rank, names[i]))
  }

  /** The outcome of the registry loop over `names`. */
  function Select(reg: Entries, ctx: Context, rank: string -> nat, names: seq<string>): Selection
    requires Ranked(reg, rank)
  {
    SelectFrom(reg, Chains(reg, ctx, rank, names))
  }

  /** The registry loop one name further. */
  lemma SelectSnoc(reg: Entries, ctx: Context, rank: string -> nat, names: seq<string>, i: nat)
    requires Ranked(reg, rank) && i < |names|
    ensures Select(reg, ctx, rank, names[..i + 1]) ==
      Step(reg, Select(reg, ctx, rank, names[..i]), Chain(reg, ctx, rank, names[i]))
  {
    var cs := Chains(reg, ctx, rank, names[..i + 1]);
    assert cs[..i] == Chains(reg, ctx, rank, names[..i]);
  }

  /** There is no best chain exactly when no chain is a candidate. */
  lemma {:induction false} SelectBestNone(reg: Entries, cs: seq<Option<seq<string>>>)
    ensures SelectFrom(reg, cs).best.None? <==> forall i :: 0 <= i < |cs| ==> !Candidate(reg, cs[i])
    decreases |cs|
  {
    if cs != [] {
      var init := cs[..|cs| - 1];
      SelectBestNone(reg, init);
      assert forall i :: 0 <= i < |init| ==> init[i] == cs[i];
    }
  }

  /** The best chain is at least as long as every candidate chain. */
  lemma {:induction false} SelectBestLongest(reg: Entries, cs: seq<Option<seq<string>>>)
    ensures var s := SelectFrom(reg, cs);
      forall i :: 0 <= i < |cs| && Candidate(reg, cs[i]) ==> s.best.Some? && |cs[i].value| <= |s.best.value|
    decreases |cs|
  {
    if cs != [] {
      var init := cs[..|cs| - 1];
      SelectBestLongest(reg, init);
      assert forall i :: 0 <= i < |init| ==> init[i] == cs[i];
    }
  }

  /**
   * The best chain is some candidate chain, and every candidate before it is
   * strictly shorter: among equally deep chains the first in registry order wins.
   */
  lemma {:induction false} SelectBestFirst(reg: Entries, cs: seq<Option<seq<string>>>)
    ensures var s := SelectFrom(reg, cs);
      s.best.Some? ==>
        exists i :: 0 <= i < |cs| && Candidate(reg, cs[i]) && cs[i] == s.best
          && forall j :: 0 <= j < i && Candidate(reg, cs[j]) ==> |cs[j].value| < |s.best.value|
    decreases |cs|
  {
    if cs != [] {
      var init := cs[..|cs| - 1];
      SelectBestFirst(reg, init);
      SelectBestLongest(reg, init);
      assert forall i :: 0 <= i < |init| ==> init[i] == cs[i];
      var s0 := SelectFrom(reg, init);
      var s := SelectFrom(reg, cs);
      if s.best != s0.best {
        assert cs[|cs| - 1] == s.best;
      } else if s.best.Some? {
        var i :| 0 <= i < |init| && Candidate(reg, init[i]) && init[i] == s0.best
          && forall j :: 0 <= j < i && Candidate(reg, init[j]) ==> |init[j].value| < |s0.best.value|;
        assert cs[i] == init[i];
      }
    }
  }

  /** There is an engine exactly when some chain is rooted at an engine. */
  lemma {:induction false} SelectEngineNone(reg: Entries, cs: seq<Option<seq<string>>>)
    ensures SelectFrom(reg, cs).engine.None? <==> forall i :: 0 <= i < |cs| ==> !EngineRooted(reg, cs[i])
    decreases |cs|
  {
    if cs != [] {
      var init := cs[..|cs| - 1];
      SelectEngineNone(reg, init);
      assert forall i :: 0 <= i < |init| ==> init[i] == cs[i];
    }
  }

  /** The engine is the root of the last engine-rooted chain: a later engine match overrides an earlier one. */
  lemma {:induction false} SelectEngineLast(reg: Entries, cs: seq<Option<seq<string>>>)
    ensures var s := SelectFrom(reg, cs);
      s.engine.Some? ==>
        exists i :: 0 <= i < |cs| && EngineRooted(reg, cs[i]) && s.engine == Some(cs[i].value[0])
          && forall j :: i < j < |cs| ==> !EngineRooted(reg, cs[j])
    decreases |cs|
  {
    if cs != [] {
      var n := |cs| - 1;
      var init := cs[..n];
      var s := SelectFrom(reg, cs);
      if EngineRooted(reg, cs[n]) {
        assert s.engine == Some(cs[n].value[0]);
      } else if s.engine.Some? {
        SelectEngineLast(reg, init);
        assert s.engine == SelectFrom(reg, init).engine;
        var i :| 0 <= i < |init| && EngineRooted(reg, init[i]) && s.engine == Some(init[i].value[0])
          && forall j :: i < j < |init| ==> !EngineRooted(reg, init[j]);
        assert cs[i] == init[i];
        forall j | i < j < |cs|
          ensures !EngineRooted(reg, cs[j])
        {
          if j < n {
            assert cs[j] == init[j];
          }
        }
      }
    }
  }

  /**
   * The node keys, root first, after the engine is joined on: the engine's
   * root above the best chain, or above a node for the default name when no
   * chain was found.
   */
  function Spliced(s: Selection, defaultName: Option<string>): seq<Option<string>>
  {
    (if s.engine.Some? then [s.engine] else [])
    + (if s.best.Some? then Lift(s.best.value) else [defaultName])
  }

  /** The superset node `insertSuperset` puts above a node with key `k`, if any. */
  function Above(reg: Entries, k: Option<string>): seq<Option<string>>
  {
    var s := SupersetOf(Config(reg, k));
    if s.Some? then [s] else []
  }

  /** The keys after the superset walk: every original node preceded by its own superset, if it has one. */
  function WithSupersets(reg: Entries, ks: seq<Option<string>>): seq<Option<string>>
  {
    if ks == [] then [] else Above(reg, ks[0]) + [ks[0]] + WithSupersets(reg, ks[1..])
  }

  /** The superset walk distributes over concatenation, so it can be done node by node. */
  lemma {:induction false} WithSupersetsAppend(reg: Entries, a: seq<Option<string>>, b: seq<Option<string>>)
    ensures WithSupersets(reg, a + b) == WithSupersets(reg, a) + WithSupersets(reg, b)
    decreases |a|
  {
    if a == [] {
      assert a + b == b;
    } else {
      assert (a + b)[0] == a[0];
      assert (a + b)[1..] == a[1..] + b;
      WithSupersetsAppend(reg, a[1..], b);
    }
  }

  /**
   * The superset walk keeps every original key, in order, and adds at most one
   * node per key, each the superset of the key that follows it; the most
   * specific (last) key stays last.
   */
  lemma {:induction false} WithSupersetsShape(reg: Entries, ks: seq<Option<string>>)
    ensures var r := WithSupersets(reg, ks);
      && |ks| <= |r| <= 2 * |ks|
      && (ks != [] ==> r[|r| - 1] == ks[|ks| - 1])
      && (forall k :: k in ks ==> k in r)
      && (forall x :: x in r && x !in ks ==> exists i :: 0 <= i < |ks| && Above(reg, ks[i]) == [x])
    decreases |ks|
  {
    if ks != [] {
      WithSupersetsShape(reg, ks[1..]);
      var r := WithSupersets(reg, ks);
      var rest := WithSupersets(reg, ks[1..]);
      var head := Above(reg, ks[0]) + [ks[0]];
      assert r == head + rest;
      assert |head| <= 2;
      assert r[|r| - 1] == ks[|ks| - 1] by {
        if |ks| == 1 {
          assert ks[1..] == [] && rest == [];
        } else {
          assert r[|r| - 1] == rest[|rest| - 1];
          assert ks[1..][|ks| - 2] == ks[|ks| - 1];
        }
      }
      forall k | k in ks
        ensures k in r
      {
        if k != ks[0] {
          var i :| 0 <= i < |ks| && ks[i] == k;
          assert ks[1..][i - 1] == k;
        }
      }
      forall x | x in r && x !in ks
        ensures exists i :: 0 <= i < |ks| && Above(reg, ks[i]) == [x]
      {
        if x in rest {
          var i :| 0 <= i < |ks[1..]| && Above(reg, ks[1..][i]) == [x];
          assert Above(reg, ks[i + 1]) == [x];
        } else {
          assert x in Above(reg, ks[0]);
          assert Above(reg, ks[0]) == [x];
        }
      }
    }
  }

  /** The keys of the final hierarchy, root first: the resolved platforms before `mobileweb`. */
  function ResolvedKeys(reg: Entries, ctx: Context, rank: string -> nat, defaultName: Option<string>): seq<Option<string>>
    requires Ranked(reg, rank)
  {
    WithSupersets(reg, Spliced(Select(reg, ctx, rank, JsObject.Keys(reg)), defaultName))
  }

  /** The `name()` of each node: the key of a registered platform, undefined (None) otherwise. */
  function Names(reg: Entries, ks: seq<Option<string>>): (ns: seq<Option<string>>)
    ensures |ns| == |ks| && forall i :: 0 <= i < |ks| ==> ns[i] == NameOf(Config(reg, ks[i]))
  {
    seq(|ks|, i requires 0 <= i < |ks| => NameOf(Config(reg, ks[i])))
  }

  /** A registered key names itself; any other key has no name. */
  lemma NameOfKey(reg: Entries, k: Option<string>)
    requires KeysAreNames(reg)
    ensures NameOf(Config(reg, k)) == if k.Some? && k.value in JsObject.Keys(reg) then k else None
  {
    if k.Some? && k.value in JsObject.Keys(reg) {
      ConfigNamed(reg, k.value);
    }
  }

  /** The `(name, version)` assignment each node makes to `_versions`, root first. */
  function VersionEntries(reg: Entries, ctx: Context, ks: seq<Option<string>>): (es: seq<(Option<string>, Option<Version>)>)
    ensures |es| == |ks|
    ensures forall i :: 0 <= i < |ks| ==> es[i] == (NameOf(Config(reg, ks[i])), NodeVersion(Config(reg, ks[i]), ctx))
  {
    seq(|ks|, i requires 0 <= i < |ks| => (NameOf(Config(reg, ks[i])), NodeVersion(Config(reg, ks[i]), ctx)))
  }

  /** The `_versions` object after the version walk over the nodes with keys `ks`. */
  function PutVersions(vs: seq<(Option<string>, Option<Version>)>, reg: Entries, ctx: Context, ks: seq<Option<string>>)
    : seq<(Option<string>, Option<Version>)>
  {
    JsObject.PutAll(vs, VersionEntries(reg, ctx, ks))
  }

  /**
   * After the version walk every node's name is a key, old keys keep their
   * places, a name holds the version of the last node that bears it, and a
   * name no node bears keeps its old version.
   */
  lemma PutVersionsSpec(vs: seq<(Option<string>, Option<Version>)>, reg: Entries, ctx: Context, ks: seq<Option<string>>)
    ensures var r := PutVersions(vs, reg, ctx, ks);
      && JsObject.Keys(vs) <= JsObject.Keys(r)
      && (JsObject.DistinctKeys(vs) ==> JsObject.DistinctKeys(r))
      && (forall i :: 0 <= i < |ks| ==> NameOf(Config(reg, ks[i])) in JsObject.Keys(r))
      && (forall i :: 0 <= i < |ks| && (forall j :: i < j < |ks| ==> NameOf(Config(reg, ks[j])) != NameOf(Config(reg, ks[i]))) ==>
            JsObject.Get(r, NameOf(Config(reg, ks[i]))) == Some(NodeVersion(Config(reg, ks[i]), ctx)))
      && (forall k :: (forall i :: 0 <= i < |ks| ==> NameOf(Config(reg, ks[i])) != k) ==> JsObject.Get(r, k) == JsObject.Get(vs, k))
  {
    PutVersionsKeys(vs, reg, ctx, ks);
    PutVersionsValues(vs, reg, ctx, ks);
    PutVersionsOthers(vs, reg, ctx, ks);
  }

  /** A name no node bears keeps the version it had. */
  lemma PutVersionsOthers(vs: seq<(Option<string>, Option<Version>)>, reg: Entries, ctx: Context, ks: seq<Option<string>>)
    ensures forall k :: (forall i :: 0 <= i < |ks| ==> NameOf(Config(reg, ks[i])) != k) ==>
      JsObject.Get(PutVersions(vs, reg, ctx, ks), k) == JsObject.Get(vs, k)
  {
    var es := VersionEntries(reg, ctx, ks);
    forall k | forall i :: 0 <= i < |ks| ==> NameOf(Config(reg, ks[i])) != k
      ensures JsObject.Get(PutVersions(vs, reg, ctx, ks), k) == JsObject.Get(vs, k)
    {
      JsObject.PutAllOther(vs, es, k);
    }
  }

  lemma PutVersionsKeys(vs: seq<(Option<string>, Option<Version>)>, reg: Entries, ctx: Context, ks: seq<Option<string>>)
    ensures var r := PutVersions(vs, reg, ctx, ks);
      && JsObject.Keys(vs) <= JsObject.Keys(r)
      && (JsObject.DistinctKeys(vs) ==> JsObject.DistinctKeys(r))
      && (forall i :: 0 <= i < |ks| ==> NameOf(Config(reg, ks[i])) in JsObject.Keys(r))
  {
    var es := VersionEntries(reg, ctx, ks);
    JsObject.PutAllKeys(vs, es);
    forall i | 0 <= i < |ks|
      ensures NameOf(Config(reg, ks[i])) in JsObject.Keys(PutVersions(vs, reg, ctx, ks))
    {
      assert es[i].0 == NameOf(Config(reg, ks[i]));
    }
  }

  lemma PutVersionsValues(vs: seq<(Option<string>, Option<Version>)>, reg: Entries, ctx: Context, ks: seq<Option<string>>)
    ensures var r := PutVersions(vs, reg, ctx, ks);
      forall i :: 0 <= i < |ks| && (forall j :: i < j < |ks| ==> NameOf(Config(reg, ks[j])) != NameOf(Config(reg, ks[i]))) ==>
        JsObject.Get(r, NameOf(Config(reg, ks[i]))) == Some(NodeVersion(Config(reg, ks[i]), ctx))
  {
    var es := VersionEntries(reg, ctx, ks);
    forall i | 0 <= i < |ks| && (forall j :: i < j < |ks| ==> NameOf(Config(reg, ks[j])) != NameOf(Config(reg, ks[i])))
      ensures JsObject.Get(PutVersions(vs, reg, ctx, ks), NameOf(Config(reg, ks[i]))) == Some(NodeVersion(Config(reg, ks[i]), ctx))
    {
      assert forall j :: i < j < |es| ==> es[j].0 != es[i].0;
      JsObject.PutAllValue(vs, es, i);
    }
  }

  /**
   * A matched engine heads the resolved keys, preceded only by its own
   * superset if it has one, and is named by its own name.
   */
  lemma EngineFirst(reg: Entries, ctx: Context, rank: string -> nat, defaultName: Option<string>)
    requires Ranked(reg, rank)
    ensures var s := Select(reg, ctx, rank, JsObject.Keys(reg));
      var r := ResolvedKeys(reg, ctx, rank, defaultName);
      s.engine.Some? ==>
        && |r| >= 2
        && r[|Above(reg, s.engine)|] == s.engine
        && (Above(reg, s.engine) == [] ==> r[0] == s.engine && Names(reg, r)[0] == s.engine)
  {
    var s := Select(reg, ctx, rank, JsObject.Keys(reg));
    if s.engine.Some? {
      var ks := Spliced(s, defaultName);
      assert ks[0] == s.engine && |ks| >= 2;
      var r := ResolvedKeys(reg, ctx, rank, defaultName);
      assert r == Above(reg, ks[0]) + [ks[0]] + WithSupersets(reg, ks[1..]);
      WithSupersetsShape(reg, ks[1..]);
      NameOfKey(reg, s.engine);
    }
  }

  /**
   * The most specific platform is last: the keys of the hierarchy built from a
   * selection end with the leaf of the best chain, or with the default name
   * when no chain matched. (`ResolvedKeys` is this for the selection of `load`,
   * whose best chain is a candidate by the contract of `SelectFrom`.)
   */
  lemma LeafLast(reg: Entries, s: Selection, defaultName: Option<string>)
    requires s.best.Some? ==> |s.best.value| >= 1
    ensures var r := WithSupersets(reg, Spliced(s, defaultName));
      && |r| >= 1
      && r[|r| - 1] == if s.best.Some? then Some(s.best.value[|s.best.value| - 1]) else defaultName
  {
    var ks := Spliced(s, defaultName);
    var tail := if s.best.Some? then Lift(s.best.value) else [defaultName];
    assert ks == (if s.engine.Some? then [s.engine] else []) + tail;
    WithSupersetsShape(reg, ks);
  }

  /** The `mobileweb` rule: added when `mobile` was resolved and `cordova` was not. */
  function MobileWeb(ps: seq<Option<string>>): (r: seq<Option<string>>)
    ensures r == ps || r == ps + [Some("mobileweb")]
    ensures r == ps + [Some("mobileweb")] <==> Some("mobile") in ps && Some("cordova") !in ps
  {
    if IndexOf(ps, Some("mobile")) > -1 && IndexOf(ps, Some("cordova")) == -1 then ps + [Some("mobileweb")] else ps
  }

  lemma MobileWebRule(ps: seq<Option<string>>)
    ensures Some("mobileweb") in MobileWeb(ps) <==>
      Some("mobileweb") in ps || (Some("mobile") in ps && Some("cordova") !in ps)
    ensures ps <= MobileWeb(ps)
  {
  }

  /** The page methods after `extend(this, engineMethods)`: the engine's methods other than `ready` replace or join them. */
  function MergeHooks(hooks: map<string, Hook>, methods: map<string, Hook>): (r: map<string, Hook>)
    ensures r.Keys == hooks.Keys + (methods.Keys - {"ready", "_engineReady"})
    ensures forall m :: m in methods && m != "ready" && m != "_engineReady" ==> r[m] == methods[m]
    ensures forall m :: m in hooks && m !in methods ==> r[m] == hooks[m]
  {
    hooks + (methods - {"ready", "_engineReady"})
  }

  /** `_engineReady` after `extend`: the engine's `ready`, or undefined. */
  function EngineReady(methods: map<string, Hook>): (r: Option<Hook>)
    ensures r.Some? <==> "ready" in methods
    ensures r.Some? ==> r.value == methods["ready"]
  {
    if "ready" in methods then Some(methods["ready"]) else None
  }

  /**
   * A truthy override naming a registered non-engine platform that no
   * descriptor lists as a subset makes that platform the root of the best
   * chain, so it is among the resolved platforms.
   */
  lemma OverrideSelects(reg: Entries, ctx: Context, rank: string -> nat, defaultName: Option<string>)
    requires Ranked(reg, rank) && Truthy(ctx.platformOverride)
    requires var o := ctx.platformOverride.value;
      && o in JsObject.Keys(reg) && !IsEngine(Config(reg, Some(o))) && SubsetParents(reg, o) == []
    ensures var s := Select(reg, ctx, rank, JsObject.Keys(reg));
      s.best.Some? && |s.best.value| >= 1 && s.best.value[0] == ctx.platformOverride.value
    ensures ctx.platformOverride in ResolvedKeys(reg, ctx, rank, defaultName)
    ensures ctx.platformOverride in Names(reg, ResolvedKeys(reg, ctx, rank, defaultName))
  {
    var o := ctx.platformOverride.value;
    var names := JsObject.Keys(reg);
    var cs := Chains(reg, ctx, rank, names);
    ConfigNamed(reg, o);
    assert Chain(reg, ctx, rank, o) == Some([o]);
    var i := IndexOf(names, o);
    assert Candidate(reg, cs[i]);
    SelectBestLongest(reg, cs);
    SelectBestFirst(reg, cs);
    var s := Select(reg, ctx, rank, names);
    var j :| 0 <= j < |cs| && Candidate(reg, cs[j]) && cs[j] == s.best;
    OverrideRoot(reg, ctx, rank, names[j]);
    var ks := Spliced(s, defaultName);
    assert ctx.platformOverride in ks by {
      assert Lift(s.best.value)[0] == ctx.platformOverride;
    }
    WithSupersetsShape(reg, ks);
    var r := ResolvedKeys(reg, ctx, rank, defaultName);
    var p := IndexOf(r, ctx.platformOverride);
    NameOfKey(reg, ctx.platformOverride);
    assert Names(reg, r)[p] == ctx.platformOverride;
  }

  /** Under a truthy override every non-engine root of a chain is the overriding platform. */
  lemma OverrideRoot(reg: Entries, ctx: Context, rank: string -> nat, n: string)
    requires Ranked(reg, rank) && Truthy(ctx.platformOverride)
    requires Candidate(reg, Chain(reg, ctx, rank, n))
    ensures Chain(reg, ctx, rank, n).value[0] == ctx.platformOverride.value
  {
    var c := Chain(reg, ctx, rank, n).value;
    ChainShape(reg, ctx, rank, n);
    assert Matches(Config(reg, Some(c[0])), ctx);
    ConfigNamed(reg, c[0]);
  }
}
