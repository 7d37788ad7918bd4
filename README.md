# Platform resolver of ionic2, in Dafny

This project models the platform resolver of `ionic/platform/platform.ts`. A page
registers platform descriptors by name. `Platform.load` then works out which of them
apply to the current environment and arranges them as one chain, from the broadest
platform (or the hosting engine) down to the most specific one. The result is the
ordered platform list of `is()`, and the version of each platform that `versions()`
and `version()` report.

Resolution has four parts, and each is modelled on mutable state and also specified
by functions:

- **Parent search.** `PlatformNode.getRoot` searches upward through the descriptors
  that list a platform among their `subsets`. The first parent in registry order whose
  own search succeeds wins. It is modelled by `PlatformNodes.NodeArena.GetRoot` and
  `TryParents`, and specified by `PlatformNodes.Chain` / `FirstChain`.
- **Root selection.** `load` keeps the deepest non-engine root, the first one on a
  tie, and the last matching engine. It is modelled by `Platforms.Platform.FindPlatforms`
  and `MatchPlatform`, and specified by the fold `Resolver.Select`.
- **Engine splice.** The engine becomes the parent of the chosen root. It is modelled
  by `Platforms.SpliceEngine` / `JoinRoot`, and specified by `Resolver.Spliced`.
- **Supersets and output.** `insertSuperset` puts each node's `superset` between the
  node and its parent. The true root is found again, names and versions are pushed
  root first, and `mobileweb` is added for a mobile platform outside Cordova. This is
  modelled by `Platforms.InsertSupersets`, `FindRoot`, `PushPlatforms` and
  `Platform.Load`, and specified by `Resolver.WithSupersets`, `ResolvedKeys`, `Names`,
  `PutVersions` and `MobileWeb`.

Modules, one per file, in dependency order:

- `Wrappers` (`wrappers.dfy`): `Option`.
- `JsArray` (`js_array.dfy`): `indexOf`.
- `JsObject` (`js_object.dfy`): a JavaScript object as an insertion-ordered list of
  key/value pairs. Assigning to an existing key keeps its place; a new key goes last.
- `JsString` (`js_string.dfy`): ASCII `toLowerCase`, `split`/`join` on one character,
  and `parseInt(s, 10)` on decimal digits.
- `PlatformRegistry` (`registry.dfy`): descriptors, the environment `Context`, the
  `Registry` class (`register`, `get`, `setDefault`), `getSubsetParents`.
- `PlatformNodes` (`platform_node.dfy`): `PlatformNode` behaviour (`isMatch`,
  `version`, `getRoot`), the specification of `getRoot`, and the `NodeArena` class.
  The arena holds every node of one resolution; `parent`/`child` are node indices.
- `Resolver` (`resolver.dfy`): what `load` computes, as functions, with their lemmas.
- `Platforms` (`platform.dfy`): the `Platform` class, with `load` and `matchPlatform`
  as loops over the arena, and the free function `insertSuperset`'s walk.

Modelling decisions:

- **Termination.** `getRoot` recurses without a guard. A `subsets` relation with a
  cycle makes it recurse for ever.
  - The model asks the caller for a ranking witness, `Ranked(reg, rank)`: every
    descriptor ranks strictly below each platform in its `subsets`.
  - Resolution is proved to terminate only under that witness.
- **Environment.**
  - The regular-expression tests (`testUserAgent`, `testNavigatorPlatform`) are
    functions in the `Context`.
  - Match predicates and version parsers are functions of the `Context`.
  - The parsed query string is a map in the `Context`, or `None` before a URL is set.
- **Registry.** The registry and the default name are passed to `load` as values. In
  the source they are module globals.
- **Undefined values.**
  - A node's name is `Option<string>`. `None` is JavaScript `undefined`: the name of
    a node whose key is not registered, or of the default node when no default was set.
  - Such names are pushed and stored in `_versions` as they are in the source.
- **Truthiness.** An empty string counts as absent, as in JavaScript. This applies to
  the override, a superset name, the query value and the user-agent expression.

Where the design description and the code disagree, the model follows the code:

- A superset name that is not registered is not added to the list under its own
  name. The pushed name is the node's `name()`, which is `undefined` for an
  unregistered descriptor (`Resolver.Names`, `Resolver.NameOfKey`).
- A node without a version parser still gets a `_versions` entry, holding
  `undefined` (`Resolver.PutVersionsSpec`).
- Superset insertion happens once per node of the chain. Inserted nodes are not
  walked again, so a `superset` relation with a cycle cannot make `load` loop. Only
  the `subsets` relation needs the ranking witness.
- The source does not detect a cyclic configuration. The model requires acyclicity
  and reports no configuration error.
- A matched engine heads the list only when it has no superset. Otherwise its
  superset comes first (`Resolver.EngineFirst`).

## Model

| member | source | states |
|---|---|---|
| PlatformRegistry.Registry.Register | ionic/platform/platform.ts:319-321 | The registry becomes the old one with the descriptor stored under its own name: in place when the name is already present, appended otherwise. Entries stay keyed by their descriptors' names and keys stay distinct. The default name does not change. |
| PlatformRegistry.Registry.Get | ionic/platform/platform.ts:333-335 | A descriptor is returned exactly when the name is registered, otherwise the empty descriptor (`None`). The returned descriptor is the one stored under that name, and it bears the requested name. |
| PlatformRegistry.Registry.SetDefault | ionic/platform/platform.ts:340-342 | The default name becomes the given name and the registry does not change. |
| PlatformRegistry.SubsetParents | ionic/platform/platform.ts:620-635 | A name is among the parents exactly when it is a registry key whose descriptor lists the platform in `subsets`. There are never more parents than entries. |
| PlatformRegistry.SubsetParentsInOrder | ionic/platform/platform.ts:620-635 | The parents are the names of exactly those registry entries that list the platform, in registry order: a strictly increasing sequence of entry positions covers every such entry. |
| PlatformRegistry.ParentsRankedBelow | ionic/platform/platform.ts:620-635 | Under the ranking witness every candidate parent ranks strictly below its subset, so the upward search descends. |
| PlatformNodes.Matches | ionic/platform/platform.ts:567-576 | Only a node with a descriptor can match. |
| PlatformNodes.NodeVersion | ionic/platform/platform.ts:578-591 | A version record exists exactly when the descriptor has a version parser and the parser captures something. Its string always contains the dot that joins the captures. |
| PlatformNodes.OverrideDecides | ionic/platform/platform.ts:567-570 | Under a truthy override a non-engine node matches exactly when its descriptor bears the overriding name. |
| PlatformNodes.EngineIgnoresOverride | ionic/platform/platform.ts:567-576 | An engine matches exactly when it has a predicate and the predicate holds, whatever the override. |
| PlatformNodes.NoPredicateNeverMatches | ionic/platform/platform.ts:571-573 | Without an override in force, an empty descriptor or one without `isMatch` never matches. |
| PlatformNodes.VersionRoundTrip | ionic/platform/platform.ts:578-591 | When the parser captures the decimal strings of two numbers, the version record holds those two numbers. Its string splits at the dot back into the two captures. |
| PlatformNodes.GetRootEnds | ionic/platform/platform.ts:593-600 | The search fails for a node that does not match. A matching node with no candidate parent is its own root, a chain of one. |
| PlatformNodes.GetRootFirstParent | ionic/platform/platform.ts:602-617 | For a matching node with candidate parents: the search fails exactly when every parent's search fails. Otherwise its chain is the chain of the first parent, in registry order, whose search succeeds, extended by the node. |
| PlatformNodes.FirstChainIsFirstSuccess | ionic/platform/platform.ts:605-614 | The loop over the parents yields nothing exactly when no parent's chain exists. Otherwise it yields the chain of a parent before which every parent failed. |
| PlatformNodes.ChainShape | ionic/platform/platform.ts:593-635 | Every chain found starts at a platform that no descriptor lists as a subset. Every platform on it matches, and each is a registered parent of the next. |
| PlatformNodes.ChainExtends | ionic/platform/platform.ts:593-635 | Conversely, a chain with that shape, extended by a matching subset of its last platform, again has that shape. |
| PlatformNodes.ChainParent | ionic/platform/platform.ts:605-614 | A successful search of a node with parents went through a lower-ranked parent whose own chain is the node's chain without the node. |
| PlatformNodes.OverrideChains | ionic/platform/platform.ts:567-570 | Under a truthy override every non-engine platform on a matching chain is the overriding platform. |
| PlatformNodes.NodeArena.NewNode | ionic/platform/platform.ts:532-535 | A new node is appended with the given key and no links, and its index is returned. |
| PlatformNodes.NodeArena.GetRoot | ionic/platform/platform.ts:593-618 | Returns no root exactly when `Chain` fails, and then the node is unchanged. On success the node hangs below a fresh linked path whose keys are the chain and whose first node is the returned root. Old nodes other than the searched one never change, and the searched node changes only in its parent. |
| PlatformNodes.NodeArena.TryParents | ionic/platform/platform.ts:602-614 | The parent loop returns no root exactly when `FirstChain` fails over the parents. On success it links the node below the chain of the first successful parent, with the same frame guarantees as `GetRoot`. |
| PlatformNodes.NodeArena.TryParent | ionic/platform/platform.ts:606-613 | One parent attempt fails exactly when that parent's chain does not exist. On success the node's parent becomes the last node of a fresh path whose keys are the parent's chain. |
| PlatformNodes.NodeArena.SetChild | ionic/platform/platform.ts:560-565 | Exactly the one node's `child` link changes, to the given node. |
| PlatformNodes.NodeArena.SetParent | ionic/platform/platform.ts:553-558 | Exactly the one node's `parent` link changes, to the given node. |
| PlatformNodes.NodeArena.SetDepth | ionic/platform/platform.ts:502-506 | Exactly the one node's `depth` changes. |
| PlatformNodes.NodeArena.InsertSuperset | ionic/platform/platform.ts:514-527 | The arena becomes `InsertAbove` of the node when its descriptor has a truthy superset, and is unchanged otherwise. |
| PlatformNodes.InsertAboveKeepsChain | ionic/platform/platform.ts:514-527 | Inserting above the i-th node of a chain yields again a complete chain, with the new node between the node and its old parent. The keys are the old keys with the superset at position i, and no node off the chain changes. |
| PlatformNodes.InsertAbove | ionic/platform/platform.ts:514-527 | The new node is appended, with the superset as key, the node's old parent as parent and the node as child. The node's parent becomes the new node and it keeps its key. When the old parent is a different node, its child becomes the new node. No other node changes. |
| PlatformNodes.LinkBelow | ionic/platform/platform.ts:607-611 | Setting a node's parent to the last node of a linked path that already points down to it extends the linked path by that node, with its key. |
| Resolver.Step | ionic/platform/platform.ts:413-429 | A chain rooted at an engine replaces the engine, and nothing else does. The best chain changes only to a non-engine chain that is the first or strictly deeper than the kept one, so the kept chain never gets shallower. |
| Resolver.SelectFrom | ionic/platform/platform.ts:411-430 | After the registry loop the kept chain, if any, is rooted at a non-engine, and the engine, if any, is an engine. |
| Resolver.SelectBestNone | ionic/platform/platform.ts:411-434 | No best chain is kept exactly when no matched chain has a non-engine root, which is when the default node is used. |
| Resolver.SelectBestLongest | ionic/platform/platform.ts:423-427 | The kept chain is at least as deep as every matched non-engine chain. |
| Resolver.SelectBestFirst | ionic/platform/platform.ts:423-427 | The kept chain is one of the matched non-engine chains, and every candidate before it in registry order is strictly shallower, so ties keep the first found. |
| Resolver.SelectEngineNone | ionic/platform/platform.ts:418-422 | There is an engine exactly when some matched chain is rooted at an engine. |
| Resolver.SelectEngineLast | ionic/platform/platform.ts:418-422 | The engine is the root of the last engine-rooted chain in registry order. |
| Resolver.SelectSnoc | ionic/platform/platform.ts:411-430 | Selecting over one more registry name is one more step of the loop, on that name's chain. |
| Resolver.WithSupersetsAppend | ionic/platform/platform.ts:458-462 | Superset insertion distributes over concatenation, node by node. |
| Resolver.WithSupersetsShape | ionic/platform/platform.ts:458-462 | Insertion keeps every key, adds at most one key per node, keeps the last key last, and adds only the supersets of nodes. |
| Resolver.EngineFirst | ionic/platform/platform.ts:442-448 | A matched engine is in the resolved keys just after its own superset, if any. Without a superset it is the first key and the first name. |
| Resolver.LeafLast | ionic/platform/platform.ts:432-434 | The hierarchy ends with the leaf of the kept chain, the most specific platform, or with the default name when no chain was kept. |
| Resolver.NameOfKey | ionic/platform/platform.ts:537-539 | A registered key names itself; an unregistered key, or none, has an undefined name. |
| Resolver.PutVersionsSpec | ionic/platform/platform.ts:478-479 | After the version walk: old keys are kept, keys stay distinct, every node's name is a key, and a name maps to the version of the last node bearing it. A name that no node bears keeps its old value. |
| Resolver.PutVersionsOthers | ionic/platform/platform.ts:478-479 | The version walk leaves the value of every name that no node bears as it was. |
| Resolver.MobileWebRule | ionic/platform/platform.ts:486-488 | `mobileweb` is in the list exactly when it was before, or when `mobile` is in the list and `cordova` is not. The old list is a prefix of the new one. |
| Resolver.MobileWeb | ionic/platform/platform.ts:486-488 | The list is unchanged or gains `mobileweb` as its last element. It gains it exactly when `mobile` is in the list and `cordova` is not. |
| Resolver.MergeHooks | ionic/platform/platform.ts:452-455 | The instance gains every engine method except `ready`, and the engine's methods win. Members the engine does not provide keep their values. |
| Resolver.EngineReady | ionic/platform/platform.ts:453 | `_engineReady` is defined exactly when the engine provides `ready`, and then it is the engine's `ready`. |
| Resolver.OverrideSelects | ionic/platform/platform.ts:407 | A truthy override naming a registered non-engine platform with no parents becomes the root of the kept chain, and appears among the resolved keys and names. |
| Resolver.OverrideRoot | ionic/platform/platform.ts:568-569 | Under a truthy override every kept chain is rooted at the overriding platform. |
| Platforms.TestQuery | ionic/platform/platform.ts:347-350 | A test value that passes contains no `;` and no upper-case letter, since it equals a part of the lower-cased query value. |
| Platforms.TestQueryParts | ionic/platform/platform.ts:347-350 | The test value passes exactly when it is one of the `;`-separated parts of the lower-cased query value. A test value containing `;` never passes. |
| Platforms.TestQueryJoin | ionic/platform/platform.ts:347-350 | For a query value joined from lower-case parts without `;`, exactly those parts pass. |
| Platforms.Platform.IsPlatform | ionic/platform/platform.ts:386-397 | With a truthy `ionicplatform` query value the result is `testQuery` on it, and the user agent is ignored. Otherwise the user-agent test decides, on the expression, or on the test value when no expression is given. |
| Platforms.Platform.constructor | ionic/platform/platform.ts:26-33 | The list is the given one; versions, listeners and hooks are empty; the text is not right-to-left. |
| Platforms.Platform.Is | ionic/platform/platform.ts:58-60 | True exactly when the name is in the platform list. |
| Platforms.Platform.Versions | ionic/platform/platform.ts:105-113 | A version is returned only when it is stored under that name; an absent name gives undefined. The version returned is the one stored under the name. |
| Platforms.Platform.Version | ionic/platform/platform.ts:119-126 | Returns the first defined version in insertion order, with every earlier one undefined. Returns `{}` (`None`) exactly when none is defined. |
| Platforms.Platform.SetIsRTL | ionic/platform/platform.ts:182-184 | Only the right-to-left flag changes. |
| Platforms.Platform.Query | ionic/platform/platform.ts:233-235 | A value is returned exactly when a query string was parsed and holds the key, and it is that key's value. |
| Platforms.Platform.OnResize | ionic/platform/platform.ts:308-310 | The listener is appended after the existing ones; nothing else changes. |
| Platforms.Platform.MatchPlatform | ionic/platform/platform.ts:494-510 | Returns no root exactly when the name's `Chain` fails. Otherwise the root heads a fresh complete chain whose keys are that chain, and the root's depth is the number of nodes below it. |
| Platforms.CountBelow | ionic/platform/platform.ts:501-508 | The count of nodes walked below the root is the chain's length minus one. |
| Platforms.Platform.ConsiderPlatform | ionic/platform/platform.ts:413-429 | One turn of the registry loop keeps the node state in step with `Resolver.Step`. |
| Platforms.Platform.FindPlatforms | ionic/platform/platform.ts:411-430 | After the registry loop the kept root and engine nodes head chains whose keys are the best chain and the engine of `Resolver.Select`. |
| Platforms.JoinRoot | ionic/platform/platform.ts:432-448 | The default node is created when nothing was kept, and the engine is spliced on when there is one. The root heads a complete chain whose keys are `Resolver.Spliced`. |
| Platforms.SpliceEngine | ionic/platform/platform.ts:446-448 | The engine becomes the new root: a complete chain whose keys are the engine's followed by the old chain's. |
| Platforms.Platform.RootNode | ionic/platform/platform.ts:411-448 | The first half of `load` yields a complete chain with keys `Spliced(Select(...))`, and the engine of `Select`. |
| Platforms.InsertSupersets | ionic/platform/platform.ts:458-462 | After the walk the arena holds a complete chain whose keys are `WithSupersets` of the old keys, and the old root is on it. |
| Platforms.InsertSupersetAt | ionic/platform/platform.ts:459-461 | One turn of the superset walk keeps the walk invariant one node further and moves to the next old node. |
| Platforms.FindRoot | ionic/platform/platform.ts:466-470 | Climbing parent links from any node of a complete chain reaches its first node. |
| Platforms.PushPlatforms | ionic/platform/platform.ts:472-483 | The walk appends the names of the chain root first, and stores each node's version by `PutVersions`. |
| Platforms.PushNode | ionic/platform/platform.ts:473-482 | One turn of the push walk handles one more node and moves to its child. |
| Platforms.Platform.Hierarchy | ionic/platform/platform.ts:436-484 | Building and walking the hierarchy appends `Names(ResolvedKeys)` and stores `PutVersions` over `ResolvedKeys`, and reports the engine of `Select`. |
| Platforms.Platform.Commit | ionic/platform/platform.ts:476-479 | The computed list, versions and hooks become the instance's, and the instance stays valid. |
| Platforms.Platform.Load | ionic/platform/platform.ts:402-489 | The list is `MobileWeb` of the old list followed by the resolved names. The versions are the old ones updated by `PutVersions`. With an engine, the hooks are merged and `_engineReady` is set; without one they are unchanged. The override is recorded and nothing else changes. |
| JsArray.IndexOf | ionic/platform/platform.ts:58-60 | The index is -1 exactly when the element is absent. Otherwise the element is at that index and not before it. |
| JsObject.Put | ionic/platform/platform.ts:479 | Assigning a property keeps an existing key in place or appends a new one. The key then reads the value, every other key reads as before, and keys stay distinct. |
| JsObject.PutAllValue | ionic/platform/platform.ts:479 | After a run of assignments a key reads the value of its last assignment. |
| JsString.SplitJoin | ionic/platform/platform.ts:348 | Splitting the join of parts without the separator gives the parts back. |
| JsString.JoinSplit | ionic/platform/platform.ts:348 | Joining the parts of a split gives the string back. |
| JsString.ParseDecimal | ionic/platform/platform.ts:586-587 | `parseInt` of a decimal numeral followed by a non-digit is that number. |

## Left out

- Platforms.Platform.Versions: `versions()` with no argument returns the whole `_versions` object. That is the `versions` field itself and has no member of its own.
- Platforms.Platform.Load: the registry and the default name are parameters, and the engine's `methods` object is copied, not mutated.
  - The source deletes `ready` from the registered descriptor's own `methods` object, so a second `load` would see no `ready`. That aliasing is not modelled.
  - `extend` could also overwrite any member of the instance, including its methods; the model keeps the engine's methods in a separate `hooks` map.
- Platforms.Platform.Load: the loops are split into helper methods. The instance fields are written once at the end (`Commit`), where the source pushes onto `_platforms` and writes `_versions` inside the walk. The only code that runs in between is the descriptors' version parsers, which the model takes to read only the `Context`, so the final state is the same. A parser that read or changed the instance would see the difference.
- PlatformNodes.NodeArena.GetRoot: termination is proved only for a `subsets` relation with a ranking witness (`Ranked`). The source recurses without bound only when the search reaches a cycle whose platforms all match (line 594 stops at a node that does not match). `Ranked` rules out every cycle, so registries with a cycle that the source resolves, because the cycle is never reached or one of its platforms does not match, are outside the model.
- `testUserAgent`, `testNavigatorPlatform` and `matchUserAgentVersion` (lines 355-381) use regular expressions. They are functions supplied in the `Context`.
- The `num: parseFloat(str)` field of a version record (line 585) is floating point and is not modelled. `major`/`minor` are `parseInt(s, 10)`: leading white space (the JavaScript white-space and line-terminator characters), an optional sign, then the leading decimal digits.
- JsString.ParseInt: the result is the exact integer. JavaScript rounds a numeral beyond 2^53 to the nearest double.
- `ready`, `prepareReady` (lines 145-168), `windowResize` (lines 288-303), `width`, `height`, `isPortrait`, `isLandscape` (lines 260-283): promises, timers and DOM measurements.
- The `isRTL` getter (lines 175-177) reads the field, and the no-op engine hooks `on`, `exitApp` and the like (lines 193-213) do nothing. Neither has a member.
- The `url`, `userAgent` and `navigatorPlatform` setters and getters (lines 222-255) parse or store raw strings. The model takes their results as the `Context`; the query-string parser is not part of this model.
- `PlatformNode.settings()` (lines 541-543) is not used by resolution.
- JavaScript object-key coercion is not modelled. An `undefined` key is a key of its own (`None`), and integer-like keys are not reordered.
- `toLowerCase` is ASCII only.
- `ionic/components/content/content.ts` and `demos/component-docs/icons/basic/pages.ts` are DOM and demo code with no resolution logic.
