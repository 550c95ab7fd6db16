/**
 * The parent index of the immutable node model: a parent map frozen at the
 * last full build, a replacement map (old node -> node that replaced it)
 * and the inverse replacement map (new node -> old node) derived from it.
 * `GetParent` maps a live node back to the identity the parent map knows,
 * looks up its parent and maps that parent forward to its live replacement.
 *
 * Nodes are opaque identities: any type `N` with equality.
 */
module NodeMappings {
  import opened ReplacementChains

  /** The outcome of a parent query: the live parent, or the failure that
      Java signals with an `IllegalArgumentException`. */
  datatype ParentResult<N> = Parent(node: N) | NotPartOfModel

  /** No two keys of `m` are mapped to the same node. */
  ghost predicate Injective<N>(m: map<N, N>)
  {
    forall x, y :: x in m && y in m && x != y ==> m[x] != m[y]
  }

  /** `inv` maps every value of `m` back to some key that `m` maps to it,
      and has no other entries. */
  ghost predicate IsInverse<N>(inv: map<N, N>, m: map<N, N>)
  {
    && inv.Keys == m.Values
    && forall v :: v in inv ==> inv[v] in m && m[inv[v]] == v
  }

  /**
   * Model of `createInverseMapping`: put `value -> key` for every entry of
   * `replacements`. The entries are visited in an unspecified order, as
   * `HashMap.entrySet()` does; when two keys share a value, the one put last
   * survives, so the result keeps some preimage of each value.
   */
  method CreateInverseMapping<N(==)>(replacements: map<N, N>) returns (inverse: map<N, N>)
    ensures IsInverse(inverse, replacements)
  {
    inverse := map[];
    var todo := replacements.Keys;
    while todo != {}
      invariant todo <= replacements.Keys
      invariant forall k :: k in replacements && k !in todo ==> replacements[k] in inverse
      invariant forall v :: v in inverse ==> inverse[v] in replacements && replacements[inverse[v]] == v
      decreases todo
    {
      var k :| k in todo;
      inverse := inverse[replacements[k] := k];
      todo := todo - {k};
    }
    forall v | v in inverse ensures v in replacements.Values {
      assert replacements[inverse[v]] == v;
    }
  }

  /** An inverse never maps two nodes to the same node. */
  lemma InverseInjective<N>(inv: map<N, N>, m: map<N, N>)
    requires IsInverse(inv, m)
    ensures Injective(inv)
  {
  }

  /** When `m` is injective its inverse is exact: it sends each value back to
      the one key with that value. */
  lemma InverseOfInjective<N>(inv: map<N, N>, m: map<N, N>)
    requires IsInverse(inv, m) && Injective(m)
    ensures forall k :: k in m ==> m[k] in inv && inv[m[k]] == k
  {
  }

  /** When `m` is injective there is only one inverse, and inverting it gives `m` back. */
  lemma InverseRoundTrip<N>(inv: map<N, N>, inv': map<N, N>, m: map<N, N>)
    requires IsInverse(inv, m) && IsInverse(inv', m) && Injective(m)
    ensures inv == inv'
    ensures IsInverse(m, inv)
  {
    InverseOfInjective(inv, m);
    InverseOfInjective(inv', m);
    forall v | v in inv ensures inv[v] == inv'[v] {
      assert m[inv[v]] == v;
    }
    forall k | k in m ensures k in inv.Values {
      assert inv[m[k]] == k;
    }
    forall k | k in inv.Values ensures k in m {
      var v :| v in inv && inv[v] == k;
    }
  }

  /** Walking back `j` inverse steps and then `j` forward steps returns to the start. */
  lemma {:induction false} BackAndForth<N>(v: N, inv: map<N, N>, m: map<N, N>, j: nat)
    requires IsInverse(inv, m)
    requires forall i :: 0 <= i < j ==> Follow(v, inv, i) in inv
    ensures Follow(Follow(v, inv, j), m, j) == v
    decreases j
  {
    if j > 0 {
      assert Follow(v, inv, 0) in inv;
      var u := inv[v];
      forall i | 0 <= i < j - 1 ensures Follow(u, inv, i) in inv {
        assert Follow(v, inv, i + 1) == Follow(u, inv, i);
      }
      BackAndForth(u, inv, m, j - 1);
      var w := Follow(v, inv, j);
      assert w == Follow(u, inv, j - 1);
      FollowCompose(w, m, j - 1, 1);
    }
  }

  /** Every backward walk over the inverse of an acyclic map stops. */
  lemma InverseChainEnds<N>(v: N, inv: map<N, N>, m: map<N, N>)
    requires IsInverse(inv, m) && Acyclic(m)
    ensures Ends(v, inv)
  {
    var bound := |m| + 2;
    if Follow(v, inv, bound) in inv {
      forall i | 0 <= i <= bound ensures Follow(v, inv, i) in inv {
        FollowStable(v, inv, i, bound);
      }
      assert Follow(v, inv, 0) in inv;
      var u := inv[v];
      forall i | 0 <= i < |m| + 1 ensures Follow(u, inv, i) in inv {
        assert Follow(v, inv, i + 1) == Follow(u, inv, i);
      }
      BackAndForth(u, inv, m, |m| + 1);
      var x := Follow(u, inv, |m| + 1);
      FollowCompose(u, inv, |m|, 1);
      assert x in m;
      assert Ends(x, m);
      var k: nat :| Follow(x, m, k) !in m;
      ChainBound(x, m, k);
      FollowCompose(x, m, |m|, 1);
      assert false;
    }
  }

  /** The inverse of an acyclic replacement map is acyclic. */
  lemma InverseAcyclic<N>(inv: map<N, N>, m: map<N, N>)
    requires IsInverse(inv, m) && Acyclic(m)
    ensures Acyclic(inv)
  {
    forall v | v in inv ensures Ends(v, inv) {
      InverseChainEnds(v, inv, m);
    }
  }

  /** Both walks of `getParent` stop: the backward walk from `node` over the
      inverse map and, when the parent map knows the node it reaches, the
      forward walk from that parent over the replacement map. */
  ghost predicate GetParentDefined<N>(pm: map<N, N>, rm: map<N, N>, inv: map<N, N>, node: N)
  {
    && Ends(node, inv)
    && (Resolve(node, inv) in pm ==> Ends(pm[Resolve(node, inv)], rm))
  }

  /** What `getParent` computes, on the three maps of the index: the
      reference that `GetParent` is proved against and that the lemmas
      below are stated over. */
  ghost function ParentLookup<N>(pm: map<N, N>, rm: map<N, N>, inv: map<N, N>, node: N): (r: ParentResult<N>)
    requires GetParentDefined(pm, rm, inv, node)
  {
    var org := Resolve(node, inv);
    if org in pm then Parent(Resolve(pm[org], rm)) else NotPartOfModel
  }

  /** An acyclic replacement map makes `getParent` defined for every node. */
  lemma AcyclicSuffices<N>(pm: map<N, N>, rm: map<N, N>, inv: map<N, N>, node: N)
    requires IsInverse(inv, rm) && Acyclic(rm)
    ensures GetParentDefined(pm, rm, inv, node)
  {
    InverseChainEnds(node, inv, rm);
    var p := if Resolve(node, inv) in pm then pm[Resolve(node, inv)] else node;
    if p in rm {
      assert Ends(p, rm);
    } else {
      assert Follow(p, rm, 0) !in rm;
    }
  }

  /** Querying a node's replacement gives the same answer as querying the node
      itself, provided no two nodes were replaced by the same node. */
  lemma ReplacedNodeSameParent<N>(pm: map<N, N>, rm: map<N, N>, inv: map<N, N>, a: N)
    requires IsInverse(inv, rm) && Injective(rm) && a in rm
    requires GetParentDefined(pm, rm, inv, a)
    ensures GetParentDefined(pm, rm, inv, rm[a])
    ensures ParentLookup(pm, rm, inv, rm[a]) == ParentLookup(pm, rm, inv, a)
  {
    InverseOfInjective(inv, rm);
    ResolveStep(rm[a], inv);
  }

  /** Without replacements the query is a plain lookup in the parent map. */
  lemma NoReplacements<N>(pm: map<N, N>, inv: map<N, N>, node: N)
    requires IsInverse(inv, map[])
    ensures GetParentDefined(pm, map[], inv, node)
    ensures ParentLookup(pm, map[], inv, node) == if node in pm then Parent(pm[node]) else NotPartOfModel
  {
    assert inv == map[];
    assert Follow(node, inv, 0) !in inv;
    if node in pm {
      var rm: map<N, N> := map[];
      assert Follow(pm[node], rm, 0) !in rm;
    }
  }

  /** With both maps empty every query fails. */
  lemma BothEmpty<N>(inv: map<N, N>, node: N)
    requires IsInverse(inv, map[])
    ensures GetParentDefined(map[], map[], inv, node)
    ensures ParentLookup(map[], map[], inv, node) == NotPartOfModel
  {
    NoReplacements(map[], inv, node);
  }

  /** A node that no replacement produced and that the parent map does not
      know is not part of the model. */
  lemma UnknownNode<N>(pm: map<N, N>, rm: map<N, N>, inv: map<N, N>, z: N)
    requires IsInverse(inv, rm) && z !in rm.Values && z !in pm
    ensures GetParentDefined(pm, rm, inv, z)
    ensures ParentLookup(pm, rm, inv, z) == NotPartOfModel
  {
    assert Follow(z, inv, 0) !in inv;
  }

  /** Replacements `{a -> b, b -> c}` and parents `{a -> p}`: the parent of
      `c` is `p`, found by walking `c` back to `a`. */
  lemma BackwardChainScenario<N>(a: N, b: N, c: N, p: N, inv: map<N, N>)
    requires a != b && a != c && b != c && p != a && p != b
    requires IsInverse(inv, map[a := b, b := c])
    ensures GetParentDefined(map[a := p], map[a := b, b := c], inv, c)
    ensures ParentLookup(map[a := p], map[a := b, b := c], inv, c) == Parent(p)
  {
    var rm := map[a := b, b := c];
    assert Injective(rm);
    InverseOfInjective(inv, rm);
    assert inv.Keys == {b, c} by {
      assert rm.Values == {b, c} by {
        assert rm[a] == b && rm[b] == c;
      }
    }
    assert Follow(c, inv, 2) == Follow(b, inv, 1) == Follow(a, inv, 0) == a;
    ResolveAt(c, inv, 2);
    assert Follow(p, rm, 0) !in rm;
  }

  /** Parents `{x -> p}` and replacements `{p -> p2}`: the parent of `x` is
      the live replacement `p2` of the recorded parent. */
  lemma ForwardScenario<N>(x: N, p: N, p2: N, inv: map<N, N>)
    requires x != p && x != p2 && p != p2
    requires IsInverse(inv, map[p := p2])
    ensures GetParentDefined(map[x := p], map[p := p2], inv, x)
    ensures ParentLookup(map[x := p], map[p := p2], inv, x) == Parent(p2)
  {
    var rm := map[p := p2];
    assert rm.Values == {p2} by {
      assert rm[p] == p2;
    }
    assert Follow(x, inv, 0) !in inv;
    assert Follow(p, rm, 1) == p2;
    ResolveAt(p, rm, 1);
  }

  /** Parents `{a -> p}` and replacements `{a -> b, p -> p2}`: the parent of
      `b` is `p2`; both walks are needed. */
  lemma CombinedScenario<N>(a: N, b: N, p: N, p2: N, inv: map<N, N>)
    requires a != b && a != p && a != p2 && b != p && b != p2 && p != p2
    requires IsInverse(inv, map[a := b, p := p2])
    ensures GetParentDefined(map[a := p], map[a := b, p := p2], inv, b)
    ensures ParentLookup(map[a := p], map[a := b, p := p2], inv, b) == Parent(p2)
  {
    var rm := map[a := b, p := p2];
    assert Injective(rm);
    InverseOfInjective(inv, rm);
    assert inv.Keys == {b, p2} by {
      assert rm.Values == {b, p2} by {
        assert rm[a] == b && rm[p] == p2;
      }
    }
    assert Follow(b, inv, 1) == a && a !in inv;
    ResolveAt(b, inv, 1);
    assert Follow(p, rm, 1) == p2 && p2 !in rm;
    ResolveAt(p, rm, 1);
    assert map[a := p][a] == p;
  }

  /**
   * Model of the class `ImmutableNodeMappings`. Its three fields are `final`
   * in Java and `const` here, so no operation can change them after the
   * constructor.
   */
  class ImmutableNodeMappings<N(==)> {
    /** Each node's parent, as of the last full build of the structure. */
    const parentMapping: map<N, N>
    /** Nodes replaced since then, mapped to the node that replaced them. */
    const replacementMapping: map<N, N>
    /** The inverse of `replacementMapping`. */
    const inverseReplacementMapping: map<N, N>

    /** The inverse field is an inverse of the replacement field. */
    ghost predicate Valid()
    {
      IsInverse(inverseReplacementMapping, replacementMapping)
    }

    /** On a valid object an acyclic replacement map makes `GetParent`
        callable for every node. */
    lemma QueryDefined(node: N)
      requires Valid() && Acyclic(replacementMapping)
      ensures GetParentDefined(parentMapping, replacementMapping, inverseReplacementMapping, node)
    {
      AcyclicSuffices(parentMapping, replacementMapping, inverseReplacementMapping, node);
    }

    /** Stores both maps and derives the inverse replacement map. */
    constructor (parentMapping: map<N, N>, replacements: map<N, N>)
      ensures this.parentMapping == parentMapping
      ensures this.replacementMapping == replacements
      ensures Valid()
    {
      this.parentMapping := parentMapping;
      this.replacementMapping := replacements;
      var inverse := CreateInverseMapping(replacements);
      this.inverseReplacementMapping := inverse;
    }

    /** The parent map given to the constructor. */
    function GetParentMapping(): (r: map<N, N>)
      ensures r == parentMapping
    {
      parentMapping
    }

    /** The replacement map given to the constructor. */
    function GetReplacementMapping(): (r: map<N, N>)
      ensures r == replacementMapping
    {
      replacementMapping
    }

    /** A copy of the parent map: the same entries. */
    function CopyParentMapping(): (r: map<N, N>)
      ensures r.Keys == parentMapping.Keys
      ensures forall k :: k in r ==> r[k] == parentMapping[k]
    {
      map k | k in parentMapping :: parentMapping[k]
    }

    /** A copy of the replacement map: the same entries. */
    function CopyReplacementMapping(): (r: map<N, N>)
      ensures r.Keys == replacementMapping.Keys
      ensures forall k :: k in r ==> r[k] == replacementMapping[k]
    {
      map k | k in replacementMapping :: replacementMapping[k]
    }

    /**
     * Model of `getParent`: resolve `node` backward over the inverse map,
     * look up the parent of the node reached, and resolve that parent
     * forward over the replacement map.
     */
    method GetParent(node: N) returns (r: ParentResult<N>)
      requires GetParentDefined(parentMapping, replacementMapping, inverseReplacementMapping, node)
      ensures r == ParentLookup(parentMapping, replacementMapping, inverseReplacementMapping, node)
      ensures r.NotPartOfModel? <==> Resolve(node, inverseReplacementMapping) !in parentMapping
      ensures r.Parent? ==> r.node !in replacementMapping
    {
      var org := HandleReplacements(node, inverseReplacementMapping);
      if org !in GetParentMapping() {
        return NotPartOfModel;
      }
      var parent := GetParentMapping()[org];
      var live := HandleReplacements(parent, GetReplacementMapping());
      return Parent(live);
    }
  }
}
