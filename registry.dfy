/**
 * The platform registry of ionic/platform/platform.ts: descriptors registered by
 * name, in registration order, and the default platform name used when no
 * descriptor matches.
 */
module PlatformRegistry {

  import opened Wrappers
  import opened JsArray
  import JsObject

  /** A native function supplied by an engine (Cordova's `ready`, `exitApp`, ...), known by identity only. */
  datatype Hook = Hook(id: nat)

  /** What a version parser returns: the major and minor strings it captured. */
  datatype RawVersion = RawVersion(major: string, minor: string)

  /**
   * What match predicates and version parsers read from the Platform instance:
   * the parsed query string (None before a URL was set), the outcome of
   * `testUserAgent` / `testNavigatorPlatform` for each expression (regular
   * expression matching is not modelled), and the override passed to `load`.
   */
  datatype Context = Context(
    query: Option<map<string, string>>,
    userAgentTest: string -> bool,
    navigatorPlatformTest: string -> bool,
    platformOverride: Option<string>)

  /**
   * A registered platform configuration. An absent `subsets` list is the empty
   * sequence, absent `methods` the empty map; an absent `isMatch` or
   * `versionParser` is None.
   */
  datatype Descriptor = Descriptor(
    name: string,
    isEngine: bool,
    subsets: seq<string>,
    superset: Option<string>,
    isMatch: Option<Context -> bool>,
    versionParser: Option<Context -> Option<RawVersion>>,
    methods: map<string, Hook>)

  /** The registry object: name to descriptor, in insertion order. */
  type Entries = seq<(string, Descriptor)>

  /** Every entry is stored under its descriptor's own name, as `register` stores it. */
  ghost predicate KeysAreNames(reg: Entries)
  {
    forall i :: 0 <= i < |reg| ==> reg[i].0 == reg[i].1.name
  }

  /**
   * `getSubsetParents(name)`: the names, in registry order, of the descriptors
   * whose `subsets` list `name`: the candidate parents of a node named `name`.
   */
  function SubsetParents(reg: Entries, name: string): (ps: seq<string>)
    ensures |ps| <= |reg|
    ensures forall p :: p in ps <==> exists i :: 0 <= i < |reg| && reg[i].0 == p && name in reg[i].1.subsets
  {
    if |reg| == 0 then []
    else
      var rest := SubsetParents(reg[1..], name);
      assert forall i :: 1 <= i < |reg| ==> reg[i] == reg[1..][i - 1];
      (if IndexOf(reg[0].1.subsets, name) > -1 then [reg[0].0] else []) + rest
  }

  /**
   * A witness that the `subsets` relation has no cycle: every descriptor is
   * ranked strictly below each platform it lists as a subset. Resolution walks
   * from a subset up to its parents, so it descends in rank and terminates.
   */
  ghost predicate Ranked(reg: Entries, rank: string -> nat)
  {
    KeysAreNames(reg)
    && forall i, s :: 0 <= i < |reg| && s in reg[i].1.subsets ==> rank(reg[i].0) < rank(s)
  }

  /**
   * `ps` lists, in registry order, the keys of exactly the entries whose
   * `subsets` list `name`, found at the increasing indices `idx`.
   */
  ghost predicate InRegistryOrder(reg: Entries, name: string, ps: seq<string>, idx: seq<nat>)
  {
    && |idx| == |ps|
    && (forall a :: 0 <= a < |idx| ==> idx[a] < |reg| && reg[idx[a]].0 == ps[a] && name in reg[idx[a]].1.subsets)
    && (forall a, b :: 0 <= a < b < |idx| ==> idx[a] < idx[b])
    && (forall i {:trigger i in idx} :: 0 <= i < |reg| && name in reg[i].1.subsets ==> i in idx)
  }

  /** The parents come in registry order, so the first parent found is the earliest registered. */
  lemma {:induction false} SubsetParentsInOrder(reg: Entries, name: string) returns (idx: seq<nat>)
    ensures InRegistryOrder(reg, name, SubsetParents(reg, name), idx)
    decreases |reg|
  {
    if |reg| == 0 {
      idx := [];
    } else {
      var rest := SubsetParentsInOrder(reg[1..], name);
      idx := OrderCons(reg, name, SubsetParents(reg[1..], name), rest);
    }
  }

  /** Order is kept when one more entry is put in front of the registry. */
  lemma OrderCons(reg: Entries, name: string, tail: seq<string>, rest: seq<nat>) returns (idx: seq<nat>)
    requires |reg| > 0 && InRegistryOrder(reg[1..], name, tail, rest)
    ensures InRegistryOrder(reg, name, (if IndexOf(reg[0].1.subsets, name) > -1 then [reg[0].0] else []) + tail, idx)
  {
    var shifted := OrderShift(reg, name, tail, rest);
    if name in reg[0].1.subsets {
      idx := OrderFront(reg, name, tail, shifted);
    } else {
      idx := shifted;
      forall i | 0 <= i < |reg| && name in reg[i].1.subsets
        ensures i in idx
      {
        assert i != 0 && OrderTail(reg, name, tail, shifted);
      }
    }
  }

  /** `idx` places `ps` in order among the entries of `reg` after the first, and covers them all. */
  ghost predicate OrderTail(reg: Entries, name: string, ps: seq<string>, idx: seq<nat>)
  {
    && |idx| == |ps|
    && (forall a :: 0 <= a < |idx| ==> 1 <= idx[a] < |reg| && reg[idx[a]].0 == ps[a] && name in reg[idx[a]].1.subsets)
    && (forall a, b :: 0 <= a < b < |idx| ==> idx[a] < idx[b])
    && (forall i {:trigger i in idx} :: 1 <= i < |reg| && name in reg[i].1.subsets ==> i in idx)
  }

  /** The indices for `reg[1..]`, moved up by one, are indices into `reg`. */
  lemma OrderShift(reg: Entries, name: string, tail: seq<string>, rest: seq<nat>) returns (shifted: seq<nat>)
    requires |reg| > 0 && InRegistryOrder(reg[1..], name, tail, rest)
    ensures OrderTail(reg, name, tail, shifted)
  {
    var r1 := reg[1..];
    shifted := seq(|rest|, a requires 0 <= a < |rest| => rest[a] + 1);
    forall i | 1 <= i < |reg| && name in reg[i].1.subsets
      ensures i in shifted
    {
      assert reg[i] == r1[i - 1];
      assert i - 1 in rest;
      var a :| 0 <= a < |rest| && rest[a] == i - 1;
      assert shifted[a] == i;
    }
    forall a | 0 <= a < |shifted|
      ensures 1 <= shifted[a] < |reg| && reg[shifted[a]].0 == tail[a] && name in reg[shifted[a]].1.subsets
    {
      assert reg[shifted[a]] == r1[rest[a]];
    }
  }

  /** A first entry that lists `name` goes in front, at index 0. */
  lemma OrderFront(reg: Entries, name: string, tail: seq<string>, shifted: seq<nat>) returns (idx: seq<nat>)
    requires |reg| > 0 && name in reg[0].1.subsets && OrderTail(reg, name, tail, shifted)
    ensures InRegistryOrder(reg, name, [reg[0].0] + tail, idx)
  {
    idx := [0] + shifted;
    var ps := [reg[0].0] + tail;
    forall a | 0 < a < |idx|
      ensures idx[a] == shifted[a - 1] && ps[a] == tail[a - 1]
    {
    }
    forall a, b | 0 <= a < b < |idx|
      ensures idx[a] < idx[b]
    {
      assert idx[b] == shifted[b - 1];
    }
    forall i | 0 <= i < |reg| && name in reg[i].1.subsets
      ensures i in idx
    {
      if i > 0 {
        assert i in shifted;
      }
    }
  }

  lemma ParentsRankedBelow(reg: Entries, rank: string -> nat, name: string)
    requires Ranked(reg, rank)
    ensures forall p :: p in SubsetParents(reg, name) ==> rank(p) < rank(name)
  {
  }

  /** The process-wide registry together with the default platform name. */
  class Registry {
    var entries: Entries
    var defaultName: Option<string>

    ghost predicate Valid()
      reads this
    {
      KeysAreNames(entries) && JsObject.DistinctKeys(entries)
    }

    constructor ()
      ensures Valid() && entries == [] && defaultName == None
    {
      entries := [];
      defaultName := None;
    }

    /** `Platform.register(config)`: stores or replaces the descriptor under its name. */
    method Register(d: Descriptor)
      requires Valid()
      modifies this
      ensures Valid()
      ensures entries == JsObject.Put(old(entries), d.name, d)
      ensures defaultName == old(defaultName)
    {
      entries := JsObject.Put(entries, d.name, d);
      forall i | 0 <= i < |entries|
        ensures entries[i].0 == entries[i].1.name
      {
        var ks := JsObject.Keys(old(entries));
        var k := IndexOf(ks, d.name);
        if k < 0 {
          assert i == |old(entries)| ==> entries[i] == (d.name, d);
        } else {
          assert entries == old(entries)[k := (d.name, d)];
        }
      }
    }

    /** `Platform.get(name)`: the descriptor, or None for the empty descriptor `{}` of an unknown name. */
    function Get(name: string): (r: Option<Descriptor>)
      reads this
      ensures r.Some? <==> name in JsObject.Keys(entries)
      ensures Valid() && r.Some? ==> r.value.name == name
      ensures r.Some? ==> (name, r.value) in entries
      ensures Valid() ==> forall i :: 0 <= i < |entries| && entries[i].0 == name ==> r == Some(entries[i].1)
    {
      JsObject.Get(entries, name)
    }

    /** `Platform.setDefault(name)` */
    method SetDefault(name: string)
      modifies this
      ensures defaultName == Some(name) && entries == old(entries)
    {
      defaultName := Some(name);
    }
  }
}
