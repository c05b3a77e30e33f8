/**
 * Model of `ConjuntoDisjunto` in minimum_spanning_tree/kruskal/kruskal.py
 * (lines 18-79): a union-find structure over the elements 0 .. size-1, kept
 * in two arrays updated in place, `pai` (here `parent`) and `rank`, with
 * path compression in the recursive find and union by rank.
 */
module UnionFind {

  /**
   * The labelling after two classes are joined: every element labelled `a`
   * or `b` is relabelled `root`; every other label stays.
   */
  function Merge(labels: seq<int>, a: int, b: int, root: int): seq<int>
  {
    seq(|labels|, x requires 0 <= x < |labels| => if labels[x] == a || labels[x] == b then root else labels[x])
  }

  /**
   * After joining the classes of `u` and `v`, two elements share a class
   * exactly when they did before, or one was with `u` and the other with `v`.
   */
  lemma MergeSameSet(labels: seq<int>, u: nat, v: nat, root: int, x: nat, y: nat)
    requires u < |labels| && v < |labels| && x < |labels| && y < |labels|
    requires root == labels[u] || root == labels[v]
    ensures
      var m := Merge(labels, labels[u], labels[v], root);
      m[x] == m[y] <==>
        || labels[x] == labels[y]
        || (labels[x] == labels[u] && labels[y] == labels[v])
        || (labels[x] == labels[v] && labels[y] == labels[u])
  {
  }

  class DisjointSet {
    /** The number of elements. */
    const size: nat
    /** `pai`: the parent of each element; a root is its own parent. */
    const parent: array<int>
    /** `rank`: grows only on a root, when two roots of equal rank are joined. */
    const rank: array<int>

    /** The root of each element's tree: the set it belongs to. */
    ghost var root: seq<int>
    /** An upper bound on every rank, raised with each rank increment. */
    ghost var bound: nat

    ghost predicate Valid()
      reads this, parent, rank
    {
      && parent.Length == size && rank.Length == size && parent != rank && |root| == size
      && (forall x :: 0 <= x < size ==> 0 <= parent[x] < size)
      && (forall x :: 0 <= x < size ==> 0 <= rank[x] <= bound)
      // ranks grow strictly towards the root, so following parents ends
      && (forall x :: 0 <= x < size && parent[x] != x ==> rank[x] < rank[parent[x]])
      // `root` names a root, is shared along parent links, and is the root itself on a root
      && (forall x :: 0 <= x < size ==> 0 <= root[x] < size && parent[root[x]] == root[x])
      && (forall x :: 0 <= x < size ==> root[parent[x]] == root[x])
      && (forall x :: 0 <= x < size && parent[x] == x ==> root[x] == x)
    }

    /** The elements that `encontrar_raiz(x)` visits: `x`, its parent, and so on up to the root. */
    ghost function Path(x: int): seq<int>
      requires Valid() && 0 <= x < size
      reads this, parent, rank
      decreases bound - rank[x]
    {
      if parent[x] == x then [x] else [x] + Path(parent[x])
    }

    /** The walk up the parents from `x` stays inside `x`'s set and ends at its root. */
    lemma {:induction false} PathEndsAtRoot(x: int)
      requires Valid() && 0 <= x < size
      ensures Path(x)[0] == x && Path(x)[|Path(x)| - 1] == root[x]
      ensures forall i :: 0 <= i < |Path(x)| ==> 0 <= Path(x)[i] < size && root[Path(x)[i]] == root[x]
      decreases bound - rank[x]
    {
      if parent[x] != x {
        PathEndsAtRoot(parent[x]);
      }
    }

    /** `__init__` (lines 27-37): every element is its own parent, with rank 0. */
    constructor (n: nat)
      ensures Valid() && size == n && fresh(parent) && fresh(rank)
      ensures parent[..] == seq(n, x => x) && rank[..] == seq(n, _ => 0)
      ensures root == seq(n, x => x)
    {
      size := n;
      parent := new int[n](x => x);
      rank := new int[n](_ => 0);
      root := seq(n, x => x);
      bound := 0;
    }

    /**
     * `encontrar_raiz` (lines 39-53): returns the root of `x`'s set and makes
     * every element on the way point straight at it. No element's root and
     * no rank changes.
     */
    method Find(x: int) returns (r: int)
      requires Valid() && 0 <= x < size
      modifies parent
      ensures Valid()
      ensures r == root[x] && parent[r] == r && rank[x] <= rank[r]
      ensures forall y :: 0 <= y < size ==> parent[y] == if y in old(Path(x)) then r else old(parent[y])
      decreases bound - rank[x]
    {
      if parent[x] != x {
        var p := parent[x];
        var r' := Find(p);
        parent[x] := r';
      }
      r := parent[x];
    }

    /**
     * `unir_conjuntos` (lines 55-79): joins the sets of `a` and `b` unless
     * they already share a root. The root of lower rank goes under the other;
     * on equal ranks the root of `a` survives and its rank grows by one.
     */
    method Union(a: int, b: int) returns (merged: bool)
      requires Valid() && 0 <= a < size && 0 <= b < size
      modifies this, parent, rank
      ensures Valid()
      ensures merged <==> old(root[a] != root[b])
      ensures !merged ==> root == old(root) && rank[..] == old(rank[..])
      ensures merged && old(rank[root[a]] < rank[root[b]]) ==>
        && root == Merge(old(root), old(root[a]), old(root[b]), old(root[b]))
        && rank[..] == old(rank[..])
      ensures merged && old(rank[root[a]] >= rank[root[b]]) ==>
        && root == Merge(old(root), old(root[a]), old(root[b]), old(root[a]))
        && rank[..] == old(rank[..][root[a] := rank[root[a]] + if rank[root[a]] == rank[root[b]] then 1 else 0])
    {
      var ra := Find(a);
      var rb := Find(b);
      if ra == rb {
        return false;
      }
      if rank[ra] < rank[rb] {
        Link(ra, rb);
      } else {
        Link(rb, ra);
      }
      return true;
    }

    /**
     * The linking step of `unir_conjuntos` (lines 73-78): the root `low` goes
     * under the root `high`, whose rank grows by one when the ranks were equal.
     */
    method Link(low: int, high: int)
      requires Valid() && 0 <= low < size && 0 <= high < size && low != high
      requires parent[low] == low && parent[high] == high && rank[low] <= rank[high]
      modifies this, parent, rank
      ensures Valid()
      ensures root == Merge(old(root), low, high, high)
      ensures rank[..] == old(rank[..][high := rank[high] + if rank[low] == rank[high] then 1 else 0])
      ensures parent[..] == old(parent[..][low := high])
    {
      var newRoot := Merge(root, low, high, high);
      assert forall x :: 0 <= x < size ==> newRoot[x] == if root[x] == low || root[x] == high then high else root[x];
      parent[low] := high;
      if rank[low] == rank[high] {
        rank[high] := rank[high] + 1;
        bound := bound + 1;
      }
      root := newRoot;
    }
  }
}
