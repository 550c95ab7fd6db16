/**
 * Replacement chains: a map read as "node -> the node that supersedes it".
 * Walking the map from a node until reaching a node that is not a key is
 * what `ImmutableNodeMappings.handleReplacements` does, forward over the
 * replacement map and backward over its inverse.
 *
 * The walk has no termination guard of its own, so the model makes its
 * termination explicit: `Ends(n, m)` says the walk from `n` stops after
 * finitely many steps, and `Acyclic(m)` says that every walk over `m` stops.
 */
module ReplacementChains {

  /** The node reached from `n` after at most `k` steps through `m`
      (the walk stays put once it meets a node that is not a key). */
  function Follow<N>(n: N, m: map<N, N>, k: nat): (r: N)
    decreases k
  {
    if k == 0 || n !in m then n else Follow(m[n], m, k - 1)
  }

  /** The walk from `n` reaches, after finitely many steps, a node with no entry. */
  ghost predicate Ends<N>(n: N, m: map<N, N>)
  {
    exists k: nat :: Follow(n, m, k) !in m
  }

  /** Every walk through `m` stops: `m` has no replacement cycle. (A walk
      from a node that is not a key stops at once, so only keys are asked.) */
  ghost predicate Acyclic<N>(m: map<N, N>)
  {
    forall n :: n in m ==> Ends(n, m)
  }

  /** No walk through `m` needs more than `|m|` steps. */
  ghost predicate ShortChains<N>(m: map<N, N>)
  {
    forall n :: n in m ==> Follow(n, m, |m|) !in m
  }

  /** Walking `a + b` steps is walking `a` steps and then `b` more. */
  lemma {:induction false} FollowCompose<N>(n: N, m: map<N, N>, a: nat, b: nat)
    ensures Follow(n, m, a + b) == Follow(Follow(n, m, a), m, b)
    decreases a
  {
    if a > 0 && n in m {
      FollowCompose(m[n], m, a - 1, b);
    }
  }

  /** Once the walk has stopped it stays where it stopped. */
  lemma FollowStable<N>(n: N, m: map<N, N>, j: nat, j': nat)
    requires j <= j'
    ensures Follow(n, m, j) !in m ==> Follow(n, m, j') == Follow(n, m, j)
  {
    FollowCompose(n, m, j, j' - j);
  }

  /** A sequence longer than the set its elements are drawn from repeats an element. */
  lemma {:induction false} Pigeonhole<N>(s: seq<N>, keys: set<N>)
    requires forall i :: 0 <= i < |s| ==> s[i] in keys
    requires |keys| < |s|
    ensures exists i, j :: 0 <= i < j < |s| && s[i] == s[j]
  {
    if s[0] in s[1..] {
      var j' :| 0 <= j' < |s| - 1 && s[1..][j'] == s[0];
      assert s[0] == s[j' + 1];
    } else {
      var rest := keys - {s[0]};
      assert |rest| == |keys| - 1;
      forall i | 0 <= i < |s| - 1 ensures s[1..][i] in rest {
        assert s[1..][i] == s[i + 1];
      }
      Pigeonhole(s[1..], rest);
      var i, j :| 0 <= i < j < |s| - 1 && s[1..][i] == s[1..][j];
      assert s[i + 1] == s[j + 1];
    }
  }

  /** A walk that revisits a node before stopping never stops. */
  lemma {:induction false} CycleNeverEnds<N>(n: N, m: map<N, N>, i: nat, j: nat, x: nat)
    requires i < j
    requires Follow(n, m, i) == Follow(n, m, j)
    requires forall t :: 0 <= t <= j ==> Follow(n, m, t) in m
    ensures Follow(n, m, x) in m
    decreases x
  {
    if x > j {
      FollowCompose(n, m, j, x - j);
      FollowCompose(n, m, i, x - j);
      CycleNeverEnds(n, m, i, j, x - (j - i));
    }
  }

  /** A walk that stops at all stops within `|m|` steps, at the same node. */
  lemma ChainBound<N>(n: N, m: map<N, N>, k: nat)
    requires Follow(n, m, k) !in m
    ensures Follow(n, m, |m|) == Follow(n, m, k)
  {
    if k <= |m| {
      FollowStable(n, m, k, |m|);
    } else {
      if Follow(n, m, |m|) in m {
        forall t | 0 <= t <= |m| ensures Follow(n, m, t) in m {
          FollowStable(n, m, t, |m|);
        }
        var s := seq(|m| + 1, t requires 0 <= t <= |m| => Follow(n, m, t));
        Pigeonhole(s, m.Keys);
        var i, j :| 0 <= i < j < |s| && s[i] == s[j];
        CycleNeverEnds(n, m, i, j, k);
        assert false;
      }
      FollowStable(n, m, |m|, k);
    }
  }

  /** "Every walk stops" and "every walk stops within |m| steps" are the same condition. */
  lemma AcyclicIffShortChains<N>(m: map<N, N>)
    ensures Acyclic(m) <==> ShortChains(m)
  {
    if Acyclic(m) {
      forall n | n in m ensures Follow(n, m, |m|) !in m {
        assert Ends(n, m);
        var k: nat :| Follow(n, m, k) !in m;
        ChainBound(n, m, k);
      }
    }
    if ShortChains(m) {
      forall n | n in m ensures Ends(n, m) {
        assert Follow(n, m, |m|) !in m;
      }
    }
  }

  /** The node where the walk from `n` stops: the last node of its chain. */
  ghost function Resolve<N>(n: N, m: map<N, N>): (r: N)
    requires Ends(n, m)
    ensures r !in m
    ensures n !in m ==> r == n
  {
    var k: nat :| Follow(n, m, k) !in m;
    ChainBound(n, m, k);
    Follow(n, m, |m|)
  }

  /** Reference characterisation: `Resolve(n, m)` is exactly the node on the
      chain from `n` that has no entry in `m`. */
  lemma ResolveCharacterization<N>(n: N, m: map<N, N>, r: N)
    requires Ends(n, m)
    ensures Resolve(n, m) == r <==> (r !in m && exists k: nat :: Follow(n, m, k) == r)
  {
    if Resolve(n, m) == r {
      assert Follow(n, m, |m|) == r;
    }
    if r !in m && exists k: nat :: Follow(n, m, k) == r {
      var k: nat :| Follow(n, m, k) == r;
      ChainBound(n, m, k);
    }
  }

  /** A chain that reaches a node with no entry after `k` steps resolves to it. */
  lemma ResolveAt<N>(n: N, m: map<N, N>, k: nat)
    requires Follow(n, m, k) !in m
    ensures Ends(n, m) && Resolve(n, m) == Follow(n, m, k)
  {
    ResolveCharacterization(n, m, Follow(n, m, k));
  }

  /** Chain following: a node and the node replacing it resolve to the same end,
      and the walk from one stops exactly when the walk from the other does. */
  lemma ResolveStep<N>(n: N, m: map<N, N>)
    requires n in m
    ensures Ends(n, m) <==> Ends(m[n], m)
    ensures Ends(n, m) ==> Resolve(n, m) == Resolve(m[n], m)
  {
    if Ends(n, m) {
      var k: nat :| Follow(n, m, k) !in m;
      assert k > 0;
      assert Follow(m[n], m, k - 1) == Follow(n, m, k);
      ResolveCharacterization(n, m, Follow(n, m, k));
      ResolveCharacterization(m[n], m, Follow(n, m, k));
    }
    if Ends(m[n], m) {
      var k: nat :| Follow(m[n], m, k) !in m;
      assert Follow(n, m, k + 1) == Follow(m[n], m, k);
    }
  }

  /** With `{a -> b, b -> c}` and `c` not replaced, the walk from `a` ends at `c`. */
  lemma TwoStepChain<N>(a: N, b: N, c: N)
    requires a != b && b != c && a != c
    ensures Ends(a, map[a := b, b := c])
    ensures Resolve(a, map[a := b, b := c]) == c
  {
    var m := map[a := b, b := c];
    assert Follow(a, m, 2) == Follow(b, m, 1) == Follow(c, m, 0) == c;
    ResolveAt(a, m, 2);
  }

  /**
   * Model of `handleReplacements`: follow `mapping` from `replace` until
   * reaching a node without an entry, and return that node. Java's
   * `mapping.get(node) == null` is `node !in mapping` here.
   */
  method HandleReplacements<N(==)>(replace: N, mapping: map<N, N>) returns (node: N)
    requires Ends(replace, mapping)
    ensures node == Resolve(replace, mapping)
    ensures node !in mapping
    ensures replace !in mapping ==> node == replace
  {
    ghost var k: nat :| Follow(replace, mapping, k) !in mapping;
    ghost var fuel: nat := k;
    node := replace;
    while node in mapping
      invariant Follow(node, mapping, fuel) == Follow(replace, mapping, k)
      decreases fuel
    {
      node := mapping[node];
      fuel := fuel - 1;
    }
    ResolveCharacterization(replace, mapping, node);
  }
}
