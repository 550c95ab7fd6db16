# Parent index over replaced immutable nodes

A model of `ImmutableNodeMappings` from Apache Commons Configuration 2.5
(`org.apache.commons.configuration2.tree`). The class answers "what is the
current parent of node X" for a structure of immutable nodes. It keeps the
parent map from the last full build and does not update it on edits.
Instead it keeps a replacement map (old node -> node that replaced it) and
derives, once, the inverse replacement map (new node -> old node).
`getParent` walks the query node back through the inverse map to the
identity the parent map knows, looks up that identity's parent, and walks
the parent forward through the replacement map to its live replacement.

Files:

- `chains.dfy`, module `ReplacementChains`: the chain walk of
  `handleReplacements`. `Follow(n, m, k)` is the node reached after at most
  `k` steps; `Ends(n, m)` says the walk from `n` stops; `Resolve(n, m)` is
  the node where it stops; `Acyclic(m)` says every walk over `m` stops.
  `HandleReplacements` is the loop, proved equal to `Resolve`.
- `node_mappings.dfy`, module `NodeMappings`: the inverse map
  (`IsInverse`, `CreateInverseMapping`), the query (`ParentLookup`, the
  specification of `getParent`), and the class `ImmutableNodeMappings` with
  its constructor, getters, copy methods and `GetParent`.

Modelling decisions:

- Nodes are opaque identities: a type parameter `N` with equality. The maps
  are Dafny `map<N, N>`; Java's `get` returning `null` is "key not in map".
- The Java loop in `handleReplacements` has no termination guard. The model
  states the condition under which it terminates: `Ends(n, m)`, "the walk
  from `n` reaches a node with no entry after finitely many steps".
  `GetParent` requires exactly the two walks it makes to stop
  (`GetParentDefined`); `AcyclicSuffices` shows that an acyclic
  replacement map guarantees this for every query.
- `ChainBound` shows that a walk that stops does so within `|m|` steps,
  so the bound `|m|` on chain length is no restriction on terminating walks.
- Java's `HashMap.entrySet()` order is unspecified. `CreateInverseMapping`
  visits the entries in a nondeterministic order, so when two nodes were
  replaced by the same node the inverse keeps one of them, without saying
  which. `IsInverse` states exactly that.
- The three fields are `final` in Java and `const` in the model, so no
  operation can change them after construction. The model also takes the
  contents of the two maps to be frozen once they are handed over, which
  is why `Valid()` holds for the object's whole life.
- The failure of `getParent` (an `IllegalArgumentException`) is the
  `NotPartOfModel` case of `ParentResult`.

## Model

| member | source | states |
|---|---|---|
| `ReplacementChains.HandleReplacements` | src/main/java/org/apache/commons/configuration2/tree/ImmutableNodeMappings.java:77-91 | when the walk from `replace` stops, the loop returns the node where it stops: `Resolve(replace, mapping)`, which has no entry in `mapping`; a node without an entry is returned unchanged |
| `ReplacementChains.Resolve` | src/main/java/org/apache/commons/configuration2/tree/ImmutableNodeMappings.java:80-90 | the end of the chain is never a key of the map, and a node that is not a key is its own end |
| `ReplacementChains.ResolveCharacterization` | src/main/java/org/apache/commons/configuration2/tree/ImmutableNodeMappings.java:82-90 | `Resolve(n, m) == r` exactly when `r` lies on the chain from `n` and has no entry in `m` (both directions) |
| `ReplacementChains.ResolveStep` | src/main/java/org/apache/commons/configuration2/tree/ImmutableNodeMappings.java:84-87 | chain following: for `n` in `m`, the walk from `n` stops iff the walk from `m[n]` stops, and then both end at the same node |
| `ReplacementChains.TwoStepChain` | src/main/java/org/apache/commons/configuration2/tree/ImmutableNodeMappings.java:84-87 | with `{a -> b, b -> c}` the walk from `a` ends at `c` |
| `ReplacementChains.ChainBound` | src/main/java/org/apache/commons/configuration2/tree/ImmutableNodeMappings.java:82-89 | a walk that stops after `k` steps has already stopped, at the same node, after `|m|` steps |
| `ReplacementChains.AcyclicIffShortChains` | src/main/java/org/apache/commons/configuration2/tree/ImmutableNodeMappings.java:82-89 | "every walk stops" is equivalent to "every walk stops within `|m|` steps" |
| `NodeMappings.CreateInverseMapping` | src/main/java/org/apache/commons/configuration2/tree/ImmutableNodeMappings.java:99-110 | the result's keys are exactly the values of `replacements`, and each key is mapped to a node that `replacements` maps to it |
| `NodeMappings.InverseInjective` | src/main/java/org/apache/commons/configuration2/tree/ImmutableNodeMappings.java:102-109 | an inverse never maps two nodes to the same node |
| `NodeMappings.InverseOfInjective` | src/main/java/org/apache/commons/configuration2/tree/ImmutableNodeMappings.java:104-108 | when no two nodes share a replacement, the inverse maps `replacements[k]` back to `k` for every key `k` |
| `NodeMappings.InverseRoundTrip` | src/main/java/org/apache/commons/configuration2/tree/ImmutableNodeMappings.java:102-109 | when no two nodes share a replacement, the inverse is unique and inverting it gives the replacement map back |
| `NodeMappings.InverseAcyclic` | src/main/java/org/apache/commons/configuration2/tree/ImmutableNodeMappings.java:99-110 | the inverse of an acyclic replacement map is acyclic, so the backward walk of `getParent` stops |
| `NodeMappings.InverseChainEnds` | src/main/java/org/apache/commons/configuration2/tree/ImmutableNodeMappings.java:53 | for an acyclic replacement map, the backward walk from any node over its inverse stops |
| `NodeMappings.AcyclicSuffices` | src/main/java/org/apache/commons/configuration2/tree/ImmutableNodeMappings.java:52-62 | an acyclic replacement map makes both walks of `getParent` stop, for every query |
| `NodeMappings.ReplacedNodeSameParent` | src/main/java/org/apache/commons/configuration2/tree/ImmutableNodeMappings.java:52-62 | when no two nodes share a replacement, querying the replacement of `a` gives the same answer as querying `a` |
| `NodeMappings.NoReplacements` | src/main/java/org/apache/commons/configuration2/tree/ImmutableNodeMappings.java:52-61 | with an empty replacement map the query returns `pm[k]` for every key `k` of the parent map and fails for every other node |
| `NodeMappings.BothEmpty` | src/main/java/org/apache/commons/configuration2/tree/ImmutableNodeMappings.java:52-61 | with both maps empty every query fails |
| `NodeMappings.UnknownNode` | src/main/java/org/apache/commons/configuration2/tree/ImmutableNodeMappings.java:55-60 | a node that is no replacement and not a key of the parent map is not part of the model |
| `NodeMappings.BackwardChainScenario` | src/main/java/org/apache/commons/configuration2/tree/ImmutableNodeMappings.java:53-55 | replacements `{a -> b, b -> c}`, parents `{a -> p}`: the parent of `c` is `p` |
| `NodeMappings.ForwardScenario` | src/main/java/org/apache/commons/configuration2/tree/ImmutableNodeMappings.java:55-61 | parents `{x -> p}`, replacements `{p -> p2}`: the parent of `x` is `p2` |
| `NodeMappings.CombinedScenario` | src/main/java/org/apache/commons/configuration2/tree/ImmutableNodeMappings.java:52-62 | parents `{a -> p}`, replacements `{a -> b, p -> p2}`: the parent of `b` is `p2` |
| `NodeMappings.ImmutableNodeMappings.constructor` | src/main/java/org/apache/commons/configuration2/tree/ImmutableNodeMappings.java:21-26 | stores the two maps as given and an inverse of the replacement map |
| `NodeMappings.ImmutableNodeMappings.QueryDefined` | src/main/java/org/apache/commons/configuration2/tree/ImmutableNodeMappings.java:52-62 | on an object built by the constructor, an acyclic replacement map makes `getParent` defined for every node |
| `NodeMappings.ImmutableNodeMappings.GetParentMapping` | src/main/java/org/apache/commons/configuration2/tree/ImmutableNodeMappings.java:28-30 | returns the parent map given to the constructor |
| `NodeMappings.ImmutableNodeMappings.GetReplacementMapping` | src/main/java/org/apache/commons/configuration2/tree/ImmutableNodeMappings.java:32-34 | returns the replacement map given to the constructor |
| `NodeMappings.ImmutableNodeMappings.CopyParentMapping` | src/main/java/org/apache/commons/configuration2/tree/ImmutableNodeMappings.java:40-42 | returns a map with the same keys and the same entries as the parent map |
| `NodeMappings.ImmutableNodeMappings.CopyReplacementMapping` | src/main/java/org/apache/commons/configuration2/tree/ImmutableNodeMappings.java:48-50 | returns a map with the same keys and the same entries as the replacement map |
| `NodeMappings.ImmutableNodeMappings.GetParent` | src/main/java/org/apache/commons/configuration2/tree/ImmutableNodeMappings.java:52-62 | fails exactly when the node reached by the backward walk has no parent; otherwise returns the forward walk's end from that parent, which is never a replaced node |

## Left out

- The exception message built from `node.toString()`: only the failure itself is modelled.
- The content of `ImmutableNode` and its `equals`/`hashCode`: nodes are opaque identities. The class ImmutableNode is not part of this model.
- `HashMap` hashing and iteration order: on a collision the model keeps some preimage, not a specific one.
- Aliasing: Java's getters return the stored maps and the copy methods return fresh `HashMap`s; with value semantics both are equal to the stored map, so the guarantee that changing a copy leaves the index untouched has no counterpart. In Java, whoever holds the map given to the constructor, or the one returned by `getReplacementMapping`, can still change it, which leaves the inverse map stale; the model assumes the maps are frozen after construction and does not capture that case.
- Concurrency: the class has none of its own.
- HandleReplacements: requires that the walk stops; on a cyclic map the Java loop never returns, and the model does not represent that divergence.
- ImmutableNodeMappings.GetParent: requires that both of its walks stop, for the same reason.
