/**
 * Model of `algoritmo_kruskal` in minimum_spanning_tree/kruskal/kruskal.py
 * (lines 81-107): the edges are sorted by weight (stably, as Python's
 * `sorted` is), then each edge either joins two sets of a union-find
 * structure and enters the spanning forest, or is reported as closing a
 * circuit. The flag says whether no edge was rejected.
 *
 * The specification `Scan` runs the same selection on abstract component
 * labels; the lemmas below say what it selects in terms of graph
 * connectivity.
 */
module MinimumSpanningTree {
  import opened UnionFind

  /** An edge `(origem, destino, peso)`. */
  datatype Edge = Edge(u: int, v: int, weight: int)

  // ---------------------------------------------------------------------------
  // sorted(arestas, key=lambda x: x[2])

  /** Puts `e` before the first edge that weighs at least as much. */
  function Insert(e: Edge, s: seq<Edge>): (r: seq<Edge>)
    ensures multiset(r) == multiset(s) + multiset{e}
  {
    if s == [] || e.weight <= s[0].weight then [e] + s
    else
      assert s == [s[0]] + s[1..];
      [s[0]] + Insert(e, s[1..])
  }

  /** Python's stable `sorted` by weight, as an insertion sort. */
  function SortByWeight(s: seq<Edge>): (r: seq<Edge>)
    ensures multiset(r) == multiset(s)
  {
    if s == [] then []
    else
      assert s == [s[0]] + s[1..];
      Insert(s[0], SortByWeight(s[1..]))
  }

  predicate SortedByWeight(s: seq<Edge>)
  {
    forall i, j :: 0 <= i < j < |s| ==> s[i].weight <= s[j].weight
  }

  /** The edges of `s` that weigh `w`, in their order in `s`. */
  function OfWeight(s: seq<Edge>, w: int): seq<Edge>
  {
    if s == [] then [] else (if s[0].weight == w then [s[0]] else []) + OfWeight(s[1..], w)
  }

  lemma {:induction false} InsertSorted(e: Edge, s: seq<Edge>)
    requires SortedByWeight(s)
    ensures SortedByWeight(Insert(e, s)) && multiset(Insert(e, s)) == multiset(s) + multiset{e}
    ensures Insert(e, s) != [] && (Insert(e, s)[0] == e || (s != [] && Insert(e, s)[0] == s[0]))
  {
    if s == [] || e.weight <= s[0].weight {
      SortedCons(e, s);
    } else {
      var t := Insert(e, s[1..]);
      InsertSorted(e, s[1..]);
      SortedCons(s[0], t);
      assert s == [s[0]] + s[1..];
    }
  }

  lemma SortedCons(x: Edge, t: seq<Edge>)
    requires SortedByWeight(t) && (t == [] || x.weight <= t[0].weight)
    ensures SortedByWeight([x] + t)
  {
    var s := [x] + t;
    forall i, j | 0 <= i < j < |s|
      ensures s[i].weight <= s[j].weight
    {
      if i == 0 && j > 1 {
        assert t[0].weight <= t[j - 1].weight;
      }
    }
  }

  lemma OfWeightCons(x: Edge, s: seq<Edge>, w: int)
    ensures OfWeight([x] + s, w) == (if x.weight == w then [x] else []) + OfWeight(s, w)
  {
    assert ([x] + s)[1..] == s;
  }

  lemma {:induction false} InsertOfWeight(e: Edge, s: seq<Edge>, w: int)
    ensures OfWeight(Insert(e, s), w) == (if e.weight == w then [e] else []) + OfWeight(s, w)
  {
    if s == [] || e.weight <= s[0].weight {
      OfWeightCons(e, s, w);
    } else {
      var t := Insert(e, s[1..]);
      InsertOfWeight(e, s[1..], w);
      OfWeightCons(s[0], t, w);
      assert s == [s[0]] + s[1..];
      OfWeightCons(s[0], s[1..], w);
      if e.weight == w {
        assert OfWeight(Insert(e, s), w) == [e] + OfWeight(s[1..], w);
      } else if s[0].weight == w {
        assert OfWeight(Insert(e, s), w) == [s[0]] + OfWeight(s[1..], w);
      } else {
        assert OfWeight(Insert(e, s), w) == OfWeight(s[1..], w);
      }
    }
  }

  /** The sort returns the same edges, in non-decreasing weight. */
  lemma {:induction false} SortByWeightSorted(s: seq<Edge>)
    ensures SortedByWeight(SortByWeight(s)) && multiset(SortByWeight(s)) == multiset(s)
  {
    if s != [] {
      SortByWeightSorted(s[1..]);
      InsertSorted(s[0], SortByWeight(s[1..]));
      assert s == [s[0]] + s[1..];
    }
  }

  /** The sort is stable: the edges of any one weight keep their input order. */
  lemma {:induction false} SortByWeightStable(s: seq<Edge>, w: int)
    ensures OfWeight(SortByWeight(s), w) == OfWeight(s, w)
  {
    if s != [] {
      SortByWeightStable(s[1..], w);
      InsertOfWeight(s[0], SortByWeight(s[1..]), w);
    }
  }

  // ---------------------------------------------------------------------------
  // The selection, on abstract component labels

  /** Both endpoints are vertices of a graph with `n` vertices. */
  predicate EdgeIn(n: nat, e: Edge)
  {
    0 <= e.u < n && 0 <= e.v < n
  }

  predicate EdgesIn(n: nat, es: seq<Edge>)
  {
    forall i :: 0 <= i < |es| ==> EdgeIn(n, es[i])
  }

  /** Component labels of the vertices, and the two output lists so far. */
  datatype Selection = Selection(labels: seq<int>, mst: seq<Edge>, cycles: seq<Edge>)

  /**
   * The loop of lines 100-104 over the edges `es`, in order: an edge whose
   * endpoints carry the same label closes a circuit; any other edge joins
   * the two components and enters the forest.
   */
  function Scan(n: nat, es: seq<Edge>): (s: Selection)
    requires EdgesIn(n, es)
    ensures |s.labels| == n
    ensures |s.mst| + |s.cycles| == |es|
  {
    if es == [] then Selection(seq(n, x => x), [], [])
    else
      var prev := Scan(n, es[..|es| - 1]);
      var e := es[|es| - 1];
      if prev.labels[e.u] == prev.labels[e.v] then
        prev.(cycles := prev.cycles + [e])
      else
        prev.(labels := Merge(prev.labels, prev.labels[e.u], prev.labels[e.v], prev.labels[e.v]),
              mst := prev.mst + [e])
  }

  // ---------------------------------------------------------------------------
  // Connectivity

  /** Some edge of `es` joins `x` and `y`, in either direction. */
  predicate Joined(es: seq<Edge>, x: int, y: int)
  {
    exists i :: 0 <= i < |es| && ((es[i].u == x && es[i].v == y) || (es[i].u == y && es[i].v == x))
  }

  /** `p` is a walk in the graph `es`: each vertex is joined to the next. */
  predicate IsWalk(es: seq<Edge>, p: seq<int>)
  {
    |p| >= 1 && forall i :: 0 <= i < |p| - 1 ==> Joined(es, p[i], p[i + 1])
  }

  /** Some walk along the edges `es` leads from `x` to `y`. */
  ghost predicate Connected(es: seq<Edge>, x: int, y: int)
  {
    exists p :: IsWalk(es, p) && p[0] == x && p[|p| - 1] == y
  }

  /** The edges accepted in `mst` never close a circuit: each joins two vertices the earlier ones left apart. */
  ghost predicate Forest(mst: seq<Edge>)
  {
    forall i :: 0 <= i < |mst| ==> !Connected(mst[..i], mst[i].u, mst[i].v)
  }

  lemma ConnectedRefl(es: seq<Edge>, x: int)
    ensures Connected(es, x, x)
  {
    assert IsWalk(es, [x]);
  }

  lemma ConnectedEdge(es: seq<Edge>, i: nat)
    requires i < |es|
    ensures Connected(es, es[i].u, es[i].v)
  {
    assert IsWalk(es, [es[i].u, es[i].v]);
  }

  /** A walk stays a walk when more edges are added. */
  lemma ConnectedGrows(es: seq<Edge>, more: seq<Edge>, x: int, y: int)
    requires Connected(es, x, y)
    ensures Connected(es + more, x, y)
  {
    var p :| IsWalk(es, p) && p[0] == x && p[|p| - 1] == y;
    forall i | 0 <= i < |p| - 1
      ensures Joined(es + more, p[i], p[i + 1])
    {
      var k :| 0 <= k < |es| && ((es[k].u == p[i] && es[k].v == p[i + 1]) || (es[k].u == p[i + 1] && es[k].v == p[i]));
      assert (es + more)[k] == es[k];
    }
    assert IsWalk(es + more, p);
  }

  lemma ConnectedSymmetric(es: seq<Edge>, x: int, y: int)
    requires Connected(es, x, y)
    ensures Connected(es, y, x)
  {
    var p :| IsWalk(es, p) && p[0] == x && p[|p| - 1] == y;
    var q := seq(|p|, i requires 0 <= i < |p| => p[|p| - 1 - i]);
    forall i | 0 <= i < |q| - 1
      ensures Joined(es, q[i], q[i + 1])
    {
      var j := |p| - 2 - i;
      assert q[i] == p[j + 1] && q[i + 1] == p[j];
      var k :| 0 <= k < |es| && ((es[k].u == p[j] && es[k].v == p[j + 1]) || (es[k].u == p[j + 1] && es[k].v == p[j]));
    }
    assert IsWalk(es, q);
  }

  lemma ConnectedTrans(es: seq<Edge>, x: int, y: int, z: int)
    requires Connected(es, x, y) && Connected(es, y, z)
    ensures Connected(es, x, z)
  {
    var p :| IsWalk(es, p) && p[0] == x && p[|p| - 1] == y;
    var q :| IsWalk(es, q) && q[0] == y && q[|q| - 1] == z;
    var r := p + q[1..];
    forall i | 0 <= i < |r| - 1
      ensures Joined(es, r[i], r[i + 1])
    {
      if i < |p| - 1 {
        assert r[i] == p[i] && r[i + 1] == p[i + 1];
      } else {
        var j := i - |p| + 1;
        assert r[i] == q[j] && r[i + 1] == q[j + 1];
      }
    }
    assert IsWalk(es, r);
  }

  /** Labels that agree along every edge agree at both ends of every walk. */
  lemma {:induction false} WalkKeepsLabel(es: seq<Edge>, labels: seq<int>, p: seq<int>)
    requires IsWalk(es, p) && 0 <= p[0] < |labels|
    requires forall i :: 0 <= i < |es| ==> 0 <= es[i].u < |labels| && 0 <= es[i].v < |labels|
    requires forall i :: 0 <= i < |es| ==> labels[es[i].u] == labels[es[i].v]
    ensures 0 <= p[|p| - 1] < |labels| && labels[p[0]] == labels[p[|p| - 1]]
    decreases |p|
  {
    if |p| > 1 {
      var k :| 0 <= k < |es| && ((es[k].u == p[0] && es[k].v == p[1]) || (es[k].u == p[1] && es[k].v == p[0]));
      assert IsWalk(es, p[1..]);
      WalkKeepsLabel(es, labels, p[1..]);
    }
  }

  // ---------------------------------------------------------------------------
  // What the selection computes

  /** Every edge lands in exactly one of the two outputs. */
  lemma {:induction false} ScanPartitions(n: nat, es: seq<Edge>)
    requires EdgesIn(n, es)
    ensures multiset(Scan(n, es).mst + Scan(n, es).cycles) == multiset(es)
  {
    if es != [] {
      var init := es[..|es| - 1];
      var e := es[|es| - 1];
      var prev := Scan(n, init);
      ScanPartitions(n, init);
      assert es == init + [e];
      if prev.labels[e.u] == prev.labels[e.v] {
        assert Scan(n, es).mst + Scan(n, es).cycles == (prev.mst + prev.cycles) + [e];
      } else {
        assert multiset(Scan(n, es).mst + Scan(n, es).cycles) == multiset(prev.mst + prev.cycles) + multiset{e};
      }
    }
  }

  lemma AppendSorted(s: seq<Edge>, e: Edge)
    requires SortedByWeight(s)
    requires forall f :: f in s ==> f.weight <= e.weight
    ensures SortedByWeight(s + [e])
  {
    forall i, j | 0 <= i < j < |s| + 1
      ensures (s + [e])[i].weight <= (s + [e])[j].weight
    {
      if j == |s| {
        assert (s + [e])[i] in s;
      }
    }
  }

  /** From edges sorted by weight, both outputs come out sorted by weight. */
  lemma {:induction false} ScanKeepsOrder(n: nat, es: seq<Edge>)
    requires EdgesIn(n, es) && SortedByWeight(es)
    ensures SortedByWeight(Scan(n, es).mst) && SortedByWeight(Scan(n, es).cycles)
  {
    if es != [] {
      var init := es[..|es| - 1];
      var e := es[|es| - 1];
      var prev := Scan(n, init);
      ScanKeepsOrder(n, init);
      ScanPartitions(n, init);
      forall f | f in prev.mst + prev.cycles
        ensures f.weight <= e.weight
      {
        assert f in multiset(prev.mst + prev.cycles);
        assert f in init;
      }
      if prev.labels[e.u] == prev.labels[e.v] {
        AppendSorted(prev.cycles, e);
      } else {
        AppendSorted(prev.mst, e);
      }
    }
  }

  /** The labels are a faithful picture of the forest: same label exactly when connected in `mst`. */
  lemma {:induction false} ScanLabelsConnectivity(n: nat, es: seq<Edge>)
    requires EdgesIn(n, es)
    ensures EdgesIn(n, Scan(n, es).mst)
    ensures forall x, y :: 0 <= x < n && 0 <= y < n ==>
      (Scan(n, es).labels[x] == Scan(n, es).labels[y] <==> Connected(Scan(n, es).mst, x, y))
  {
    var s := Scan(n, es);
    if es == [] {
      forall x, y | 0 <= x < n && 0 <= y < n
        ensures s.labels[x] == s.labels[y] <==> Connected(s.mst, x, y)
      {
        if x == y {
          ConnectedRefl(s.mst, x);
        }
        if Connected(s.mst, x, y) {
          var p :| IsWalk(s.mst, p) && p[0] == x && p[|p| - 1] == y;
          assert |p| > 1 ==> !Joined(s.mst, p[0], p[1]);
        }
      }
    } else {
      var init := es[..|es| - 1];
      var e := es[|es| - 1];
      var prev := Scan(n, init);
      ScanLabelsConnectivity(n, init);
      if prev.labels[e.u] != prev.labels[e.v] {
        var L := prev.labels;
        var mst := prev.mst + [e];
        assert s.labels == Merge(L, L[e.u], L[e.v], L[e.v]) && s.mst == mst;
        // every edge of the new forest has endpoints with equal new labels
        forall i | 0 <= i < |mst|
          ensures s.labels[mst[i].u] == s.labels[mst[i].v]
        {
          if i < |prev.mst| {
            assert mst[i] == prev.mst[i];
            ConnectedEdge(prev.mst, i);
          }
          MergeSameSet(L, e.u, e.v, L[e.v], mst[i].u, mst[i].v);
        }
        forall x, y | 0 <= x < n && 0 <= y < n
          ensures s.labels[x] == s.labels[y] <==> Connected(mst, x, y)
        {
          MergeSameSet(L, e.u, e.v, L[e.v], x, y);
          if s.labels[x] == s.labels[y] {
            if L[x] == L[y] {
              ConnectedGrows(prev.mst, [e], x, y);
            } else {
              ConnectedEdge(mst, |mst| - 1);
              var a := if L[x] == L[e.u] then x else y;
              var b := if L[x] == L[e.u] then y else x;
              ConnectedGrows(prev.mst, [e], a, e.u);
              ConnectedGrows(prev.mst, [e], e.v, b);
              ConnectedTrans(mst, a, e.u, e.v);
              ConnectedTrans(mst, a, e.v, b);
              if a == y {
                ConnectedSymmetric(mst, y, x);
              }
            }
          }
          if Connected(mst, x, y) {
            var p :| IsWalk(mst, p) && p[0] == x && p[|p| - 1] == y;
            WalkKeepsLabel(mst, s.labels, p);
          }
        }
      }
    }
  }

  /** An edge closes a circuit exactly when the edges accepted before it already connect its endpoints. */
  lemma ScanChoice(n: nat, es: seq<Edge>)
    requires EdgesIn(n, es) && es != []
    ensures
      var prev, e := Scan(n, es[..|es| - 1]), es[|es| - 1];
      if Connected(prev.mst, e.u, e.v) then
        Scan(n, es).mst == prev.mst && Scan(n, es).cycles == prev.cycles + [e]
      else
        Scan(n, es).mst == prev.mst + [e] && Scan(n, es).cycles == prev.cycles
  {
    ScanLabelsConnectivity(n, es[..|es| - 1]);
  }

  /** The accepted edges form a forest, and every rejected edge joins two vertices the forest connects. */
  lemma ScanForest(n: nat, es: seq<Edge>)
    requires EdgesIn(n, es)
    ensures Forest(Scan(n, es).mst)
    ensures forall i :: 0 <= i < |Scan(n, es).cycles| ==>
      Connected(Scan(n, es).mst, Scan(n, es).cycles[i].u, Scan(n, es).cycles[i].v)
  {
    ScanAcyclic(n, es);
    ScanCyclesConnected(n, es);
  }

  lemma {:induction false} ScanAcyclic(n: nat, es: seq<Edge>)
    requires EdgesIn(n, es)
    ensures Forest(Scan(n, es).mst)
  {
    if es != [] {
      var init := es[..|es| - 1];
      var e := es[|es| - 1];
      var prev := Scan(n, init);
      var s := Scan(n, es);
      ScanAcyclic(n, init);
      ScanChoice(n, es);
      if !Connected(prev.mst, e.u, e.v) {
        forall i | 0 <= i < |s.mst|
          ensures !Connected(s.mst[..i], s.mst[i].u, s.mst[i].v)
        {
          if i < |prev.mst| {
            assert s.mst[..i] == prev.mst[..i] && s.mst[i] == prev.mst[i];
          } else {
            assert s.mst[..i] == prev.mst;
          }
        }
      }
    }
  }

  lemma {:induction false} ScanCyclesConnected(n: nat, es: seq<Edge>)
    requires EdgesIn(n, es)
    ensures forall i :: 0 <= i < |Scan(n, es).cycles| ==>
      Connected(Scan(n, es).mst, Scan(n, es).cycles[i].u, Scan(n, es).cycles[i].v)
  {
    if es != [] {
      var init := es[..|es| - 1];
      var e := es[|es| - 1];
      var prev := Scan(n, init);
      var s := Scan(n, es);
      ScanCyclesConnected(n, init);
      ScanChoice(n, es);
      if Connected(prev.mst, e.u, e.v) {
        forall i | 0 <= i < |s.cycles|
          ensures Connected(s.mst, s.cycles[i].u, s.cycles[i].v)
        {
          if i < |prev.cycles| {
            assert s.cycles[i] == prev.cycles[i];
          }
        }
      } else {
        forall i | 0 <= i < |s.cycles|
          ensures Connected(s.mst, s.cycles[i].u, s.cycles[i].v)
        {
          ConnectedGrows(prev.mst, [e], s.cycles[i].u, s.cycles[i].v);
        }
      }
    }
  }

  /** `a` is `b` with some elements left out, the rest in their order in `b`. */
  predicate IsSubseq<T(==)>(a: seq<T>, b: seq<T>)
    decreases |b|
  {
    if b == [] then a == []
    else
      IsSubseq(a, b[..|b| - 1])
      || (a != [] && a[|a| - 1] == b[|b| - 1] && IsSubseq(a[..|a| - 1], b[..|b| - 1]))
  }

  /** Each output keeps the relative order that its edges had in the input. */
  lemma {:induction false} ScanSubseq(n: nat, es: seq<Edge>)
    requires EdgesIn(n, es)
    ensures IsSubseq(Scan(n, es).mst, es) && IsSubseq(Scan(n, es).cycles, es)
  {
    if es != [] {
      var init := es[..|es| - 1];
      var e := es[|es| - 1];
      var prev := Scan(n, init);
      ScanSubseq(n, init);
      if prev.labels[e.u] == prev.labels[e.v] {
        assert (prev.cycles + [e])[..|prev.cycles|] == prev.cycles;
      } else {
        assert (prev.mst + [e])[..|prev.mst|] == prev.mst;
      }
    }
  }

  lemma {:induction false} OfWeightSnoc(s: seq<Edge>, x: Edge, w: int)
    ensures OfWeight(s + [x], w) == OfWeight(s, w) + (if x.weight == w then [x] else [])
    decreases |s|
  {
    if s == [] {
      OfWeightCons(x, [], w);
      assert [x] + [] == [x];
    } else {
      assert s + [x] == [s[0]] + (s[1..] + [x]);
      OfWeightCons(s[0], s[1..] + [x], w);
      OfWeightSnoc(s[1..], x, w);
      assert s == [s[0]] + s[1..];
      OfWeightCons(s[0], s[1..], w);
    }
  }

  /** Keeping the edges of one weight keeps a subsequence a subsequence. */
  lemma {:induction false} OfWeightSubseq(a: seq<Edge>, b: seq<Edge>, w: int)
    requires IsSubseq(a, b)
    ensures IsSubseq(OfWeight(a, w), OfWeight(b, w))
    decreases |b|
  {
    if b != [] {
      var b', y := b[..|b| - 1], b[|b| - 1];
      assert b == b' + [y];
      OfWeightSnoc(b', y, w);
      var ob := OfWeight(b, w);
      if IsSubseq(a, b') {
        OfWeightSubseq(a, b', w);
        if y.weight == w {
          assert ob == OfWeight(b', w) + [y];
          assert ob[..|ob| - 1] == OfWeight(b', w);
        } else {
          assert OfWeight(b', w) + [] == OfWeight(b', w);
          assert ob == OfWeight(b', w);
        }
      } else {
        assert a != [] && a[|a| - 1] == y && IsSubseq(a[..|a| - 1], b');
        var a' := a[..|a| - 1];
        assert a == a' + [y];
        OfWeightSnoc(a', y, w);
        OfWeightSubseq(a', b', w);
        var oa := OfWeight(a, w);
        if y.weight == w {
          assert oa == OfWeight(a', w) + [y] && ob == OfWeight(b', w) + [y];
          assert oa[..|oa| - 1] == OfWeight(a', w);
          assert ob[..|ob| - 1] == OfWeight(b', w);
        } else {
          assert OfWeight(a', w) + [] == OfWeight(a', w) && OfWeight(b', w) + [] == OfWeight(b', w);
          assert oa == OfWeight(a', w) && ob == OfWeight(b', w);
        }
      }
    }
  }

  /** The labels in use, one per component. */
  function LabelSet(labels: seq<int>): set<int>
  {
    set x | 0 <= x < |labels| :: labels[x]
  }

  /** Labels that are pairwise different name as many components as there are elements. */
  lemma {:induction false} DistinctLabels(labels: seq<int>)
    requires forall i, j :: 0 <= i < j < |labels| ==> labels[i] != labels[j]
    ensures |LabelSet(labels)| == |labels|
    decreases |labels|
  {
    if labels != [] {
      var init := labels[..|labels| - 1];
      var last := labels[|labels| - 1];
      DistinctLabels(init);
      assert LabelSet(labels) == LabelSet(init) + {last} by {
        forall c | c in LabelSet(labels)
          ensures c in LabelSet(init) + {last}
        {
          var x :| 0 <= x < |labels| && labels[x] == c;
          if x < |init| {
            assert init[x] == c;
          }
        }
      }
      assert last !in LabelSet(init);
    }
  }

  /** Joining two different components removes exactly one label. */
  lemma MergeDropsLabel(labels: seq<int>, u: nat, v: nat)
    requires u < |labels| && v < |labels| && labels[u] != labels[v]
    ensures LabelSet(Merge(labels, labels[u], labels[v], labels[v])) == LabelSet(labels) - {labels[u]}
    ensures |LabelSet(Merge(labels, labels[u], labels[v], labels[v]))| == |LabelSet(labels)| - 1
  {
    var m := Merge(labels, labels[u], labels[v], labels[v]);
    forall c | c in LabelSet(labels) - {labels[u]}
      ensures c in LabelSet(m)
    {
      var x :| 0 <= x < |labels| && labels[x] == c;
      assert m[x] == c;
    }
    assert labels[u] in LabelSet(labels);
  }

  /** Each accepted edge merges two components: forest edges plus components always make `n`. */
  lemma {:induction false} ScanComponents(n: nat, es: seq<Edge>)
    requires EdgesIn(n, es)
    ensures |Scan(n, es).mst| + |LabelSet(Scan(n, es).labels)| == n
  {
    if es == [] {
      DistinctLabels(seq(n, x => x));
    } else {
      var init := es[..|es| - 1];
      var e := es[|es| - 1];
      var prev := Scan(n, init);
      ScanComponents(n, init);
      if prev.labels[e.u] != prev.labels[e.v] {
        MergeDropsLabel(prev.labels, e.u, e.v);
      }
    }
  }

  /** On at least one vertex the forest has at most `n - 1` edges. */
  lemma ScanForestSize(n: nat, es: seq<Edge>)
    requires EdgesIn(n, es) && n >= 1
    ensures |Scan(n, es).mst| <= n - 1
  {
    ScanComponents(n, es);
    assert Scan(n, es).labels[0] in LabelSet(Scan(n, es).labels);
  }

  // ---------------------------------------------------------------------------
  // algoritmo_kruskal

  /** Sorting keeps every edge, so it keeps them all inside the graph. */
  lemma SortKeepsEdgesIn(n: nat, edges: seq<Edge>)
    requires EdgesIn(n, edges)
    ensures EdgesIn(n, SortByWeight(edges))
  {
    SortByWeightSorted(edges);
    var sorted := SortByWeight(edges);
    assert |sorted| == |multiset(sorted)| == |multiset(edges)| == |edges|;
    forall i | 0 <= i < |sorted|
      ensures EdgeIn(n, sorted[i])
    {
      assert sorted[i] in multiset(edges);
    }
  }

  /** What `algoritmo_kruskal(n, edges)` selects: the scan over the stably sorted edges. */
  function Selected(n: nat, edges: seq<Edge>): Selection
    requires EdgesIn(n, edges)
  {
    SortKeepsEdgesIn(n, edges);
    Scan(n, SortByWeight(edges))
  }

  /**
   * Edges of equal weight keep their input order in both outputs: for every
   * weight, the output's edges of that weight are a subsequence of the input's,
   * since the sort is stable and the loop only appends.
   */
  lemma SelectedKeepsInputOrder(n: nat, edges: seq<Edge>, w: int)
    requires EdgesIn(n, edges)
    ensures IsSubseq(OfWeight(Selected(n, edges).mst, w), OfWeight(edges, w))
    ensures IsSubseq(OfWeight(Selected(n, edges).cycles, w), OfWeight(edges, w))
  {
    SortKeepsEdgesIn(n, edges);
    var sorted := SortByWeight(edges);
    ScanSubseq(n, sorted);
    OfWeightSubseq(Scan(n, sorted).mst, sorted, w);
    OfWeightSubseq(Scan(n, sorted).cycles, sorted, w);
    SortByWeightStable(edges, w);
  }

  /** A walk along edges that all occur in `fs` is a walk in `fs`. */
  lemma ConnectedWithin(es: seq<Edge>, fs: seq<Edge>, x: int, y: int)
    requires forall k :: 0 <= k < |es| ==> es[k] in fs
    requires Connected(es, x, y)
    ensures Connected(fs, x, y)
  {
    var p :| IsWalk(es, p) && p[0] == x && p[|p| - 1] == y;
    forall i | 0 <= i < |p| - 1
      ensures Joined(fs, p[i], p[i + 1])
    {
      var k :| 0 <= k < |es| && ((es[k].u == p[i] && es[k].v == p[i + 1]) || (es[k].u == p[i + 1] && es[k].v == p[i]));
      var j :| 0 <= j < |fs| && fs[j] == es[k];
    }
    assert IsWalk(fs, p);
  }

  /** Every scanned edge, kept or rejected, ends with the same label at both endpoints. */
  lemma EdgeLabelsAgree(n: nat, es: seq<Edge>)
    requires EdgesIn(n, es)
    ensures forall i :: 0 <= i < |es| ==> Scan(n, es).labels[es[i].u] == Scan(n, es).labels[es[i].v]
  {
    var s := Scan(n, es);
    ScanPartitions(n, es);
    forall i | 0 <= i < |es|
      ensures s.labels[es[i].u] == s.labels[es[i].v]
    {
      assert es[i] in multiset(es);
      assert es[i] in multiset(s.mst + s.cycles);
      OutputLabelsAgree(n, es, es[i]);
    }
  }

  lemma OutputLabelsAgree(n: nat, es: seq<Edge>, e: Edge)
    requires EdgesIn(n, es) && EdgeIn(n, e) && e in Scan(n, es).mst + Scan(n, es).cycles
    ensures Scan(n, es).labels[e.u] == Scan(n, es).labels[e.v]
  {
    var s := Scan(n, es);
    if e in s.mst {
      var k :| 0 <= k < |s.mst| && s.mst[k] == e;
      ConnectedEdge(s.mst, k);
    } else {
      var k :| 0 <= k < |s.cycles| && s.cycles[k] == e;
      ScanCyclesConnected(n, es);
    }
    ScanLabelsConnectivity(n, es);
  }

  /** The forest connects exactly the vertices that the scanned edges connect. */
  lemma ScanSpans(n: nat, es: seq<Edge>)
    requires EdgesIn(n, es)
    ensures forall x, y :: 0 <= x < n ==> (Connected(es, x, y) <==> Connected(Scan(n, es).mst, x, y))
  {
    var s := Scan(n, es);
    EdgeLabelsAgree(n, es);
    ScanLabelsConnectivity(n, es);
    ScanPartitions(n, es);
    forall k | 0 <= k < |s.mst|
      ensures s.mst[k] in es
    {
      assert s.mst[k] in multiset(s.mst + s.cycles);
    }
    forall x, y | 0 <= x < n
      ensures Connected(es, x, y) <==> Connected(s.mst, x, y)
    {
      if Connected(es, x, y) {
        var p :| IsWalk(es, p) && p[0] == x && p[|p| - 1] == y;
        WalkKeepsLabel(es, s.labels, p);
      }
      if Connected(s.mst, x, y) {
        ConnectedWithin(s.mst, es, x, y);
      }
    }
  }

  /**
   * The forest that `algoritmo_kruskal` returns spans the graph: two vertices
   * are connected in the forest exactly when the input edges connect them.
   */
  lemma SelectedSpans(n: nat, edges: seq<Edge>)
    requires EdgesIn(n, edges)
    ensures forall x, y :: 0 <= x < n ==> (Connected(edges, x, y) <==> Connected(Selected(n, edges).mst, x, y))
  {
    SortKeepsEdgesIn(n, edges);
    SortByWeightSorted(edges);
    var sorted := SortByWeight(edges);
    ScanSpans(n, sorted);
    forall k | 0 <= k < |edges|
      ensures edges[k] in sorted
    {
      assert edges[k] in multiset(sorted);
    }
    forall k | 0 <= k < |sorted|
      ensures sorted[k] in edges
    {
      assert sorted[k] in multiset(edges);
    }
    forall x, y | 0 <= x < n
      ensures Connected(edges, x, y) <==> Connected(sorted, x, y)
    {
      if Connected(edges, x, y) {
        ConnectedWithin(edges, sorted, x, y);
      }
      if Connected(sorted, x, y) {
        ConnectedWithin(sorted, edges, x, y);
      }
    }
  }

  // ---------------------------------------------------------------------------
  // Minimum total weight

  /** The sum of `f` over the edges of `s`. */
  function Total(s: seq<Edge>, f: Edge -> int): int
  {
    if s == [] then 0 else Total(s[..|s| - 1], f) + f(s[|s| - 1])
  }

  function WeightOf(e: Edge): int
  {
    e.weight
  }

  /** The total weight of the edges of `s`. */
  function Weight(s: seq<Edge>): int
  {
    Total(s, WeightOf)
  }

  /** Counts one for an edge that weighs at most `k`. */
  function AtMostOne(k: int): Edge -> int
  {
    (e: Edge) => if e.weight <= k then 1 else 0
  }

  lemma {:induction false} TotalAppend(s: seq<Edge>, t: seq<Edge>, f: Edge -> int)
    ensures Total(s + t, f) == Total(s, f) + Total(t, f)
    decreases |t|
  {
    if t == [] {
      assert s + t == s;
    } else {
      var t' := t[..|t| - 1];
      assert (s + t)[..|s + t| - 1] == s + t';
      TotalAppend(s, t', f);
    }
  }

  lemma TotalRemove(b: seq<Edge>, j: nat, f: Edge -> int)
    requires j < |b|
    ensures Total(b, f) == Total(b[..j] + b[j + 1..], f) + f(b[j])
  {
    var p, x, q := b[..j], b[j], b[j + 1..];
    assert b == p + ([x] + q);
    calc {
      Total(b, f);
      { TotalAppend(p, [x] + q, f); }
      Total(p, f) + Total([x] + q, f);
      { TotalAppend([x], q, f); }
      Total(p, f) + Total([x], f) + Total(q, f);
      { assert [x][..0] == []; }
      Total(p, f) + f(x) + Total(q, f);
      { TotalAppend(p, q, f); }
      Total(p + q, f) + f(x);
    }
  }

  lemma MultisetRemove(b: seq<Edge>, j: nat)
    requires j < |b|
    ensures multiset(b[..j] + b[j + 1..]) == multiset(b) - multiset{b[j]}
  {
    assert b == b[..j] + [b[j]] + b[j + 1..];
    calc {
      multiset(b) - multiset{b[j]};
      (multiset(b[..j]) + multiset{b[j]} + multiset(b[j + 1..])) - multiset{b[j]};
      multiset(b[..j]) + multiset(b[j + 1..]);
    }
  }

  /** A sum does not depend on the order of the edges. */
  lemma {:induction false} TotalPermutation(a: seq<Edge>, b: seq<Edge>, f: Edge -> int)
    requires multiset(a) == multiset(b)
    ensures Total(a, f) == Total(b, f)
    decreases |a|
  {
    if a != [] {
      var a', x := a[..|a| - 1], a[|a| - 1];
      assert x in multiset(b);
      var j :| 0 <= j < |b| && b[j] == x;
      var b' := b[..j] + b[j + 1..];
      assert multiset(a') == multiset(b') by {
        MultisetRemove(b, j);
        MultisetRemove(a, |a| - 1);
        assert a[..|a| - 1] + a[|a|..] == a';
      }
      TotalPermutation(a', b', f);
      TotalRemove(b, j, f);
    }
  }

  /** The edges of `s` that weigh at most `k`, in their order in `s`. */
  function AtMost(s: seq<Edge>, k: int): (r: seq<Edge>)
    ensures |r| == Total(s, AtMostOne(k)) && |r| <= |s|
    ensures forall e :: e in r <==> e in s && e.weight <= k
  {
    if s == [] then []
    else AtMost(s[..|s| - 1], k) + (if s[|s| - 1].weight <= k then [s[|s| - 1]] else [])
  }

  lemma ForestPrefix(h: seq<Edge>, m: nat)
    requires Forest(h) && m <= |h|
    ensures Forest(h[..m])
  {
    forall i | 0 <= i < m
      ensures !Connected(h[..m][..i], h[..m][i].u, h[..m][i].v)
    {
      assert h[..m][..i] == h[..i] && h[..m][i] == h[i];
    }
  }

  /** The edges of a subsequence all occur in the whole. */
  lemma {:induction false} SubseqIn(a: seq<Edge>, b: seq<Edge>)
    requires IsSubseq(a, b)
    ensures forall k :: 0 <= k < |a| ==> a[k] in b
    decreases |b|
  {
    if b != [] {
      var b' := b[..|b| - 1];
      if IsSubseq(a, b') {
        SubseqIn(a, b');
        assert forall e :: e in b' ==> e in b;
      } else {
        var a' := a[..|a| - 1];
        SubseqIn(a', b');
        forall k | 0 <= k < |a|
          ensures a[k] in b
        {
          if k < |a'| {
            assert a[k] == a'[k] && a'[k] in b';
          }
        }
      }
    }
  }

  lemma ForestLast(h: seq<Edge>)
    requires Forest(h) && h != []
    ensures !Connected(h[..|h| - 1], h[|h| - 1].u, h[|h| - 1].v)
  {
  }

  /** An edge that the forest leaves unconnected extends it to a forest. */
  lemma ForestSnoc(h: seq<Edge>, e: Edge)
    requires Forest(h) && !Connected(h, e.u, e.v)
    ensures Forest(h + [e])
  {
    var h' := h + [e];
    forall i | 0 <= i < |h'|
      ensures !Connected(h'[..i], h'[i].u, h'[i].v)
    {
      if i < |h| {
        assert h'[..i] == h[..i] && h'[i] == h[i];
      } else {
        assert h'[..i] == h;
      }
    }
  }

  /** Leaving edges out of a forest leaves a forest. */
  lemma {:induction false} SubseqForest(a: seq<Edge>, b: seq<Edge>)
    requires IsSubseq(a, b) && Forest(b)
    ensures Forest(a)
    decreases |b|
  {
    if b != [] {
      var b', y := b[..|b| - 1], b[|b| - 1];
      assert b == b' + [y];
      ForestPrefix(b, |b| - 1);
      assert Forest(b');
      if IsSubseq(a, b') {
        SubseqForest(a, b');
      } else {
        var a' := a[..|a| - 1];
        SubseqForest(a', b');
        SubseqIn(a', b');
        ForestLast(b);
        if Connected(a', y.u, y.v) {
          ConnectedWithin(a', b', y.u, y.v);
        }
        ForestSnoc(a', y);
        assert a == a' + [y];
      }
    }
  }

  /** On a forest, the scan keeps every edge. */
  lemma {:induction false} ScanOfForest(n: nat, h: seq<Edge>)
    requires EdgesIn(n, h) && Forest(h)
    ensures Scan(n, h).mst == h
  {
    if h != [] {
      var h', e := h[..|h| - 1], h[|h| - 1];
      assert h == h' + [e];
      ForestPrefix(h, |h| - 1);
      assert Forest(h') && EdgesIn(n, h');
      ScanOfForest(n, h');
      ScanChoice(n, h);
      ForestLast(h);
    }
  }

  /** A walk along edges whose ends `g` connects leads between vertices that `g` connects. */
  lemma {:induction false} WalkConnects(es: seq<Edge>, g: seq<Edge>, p: seq<int>)
    requires IsWalk(es, p)
    requires forall k :: 0 <= k < |es| ==> Connected(g, es[k].u, es[k].v)
    ensures Connected(g, p[0], p[|p| - 1])
    decreases |p|
  {
    if |p| == 1 {
      ConnectedRefl(g, p[0]);
    } else {
      var k :| 0 <= k < |es| && ((es[k].u == p[0] && es[k].v == p[1]) || (es[k].u == p[1] && es[k].v == p[0]));
      if !(es[k].u == p[0] && es[k].v == p[1]) {
        ConnectedSymmetric(g, p[1], p[0]);
      }
      assert IsWalk(es, p[1..]);
      WalkConnects(es, g, p[1..]);
      ConnectedTrans(g, p[0], p[1], p[|p| - 1]);
    }
  }

  lemma LabelSetSnoc(labels: seq<int>)
    requires labels != []
    ensures LabelSet(labels) == LabelSet(labels[..|labels| - 1]) + {labels[|labels| - 1]}
  {
    var init := labels[..|labels| - 1];
    forall c | c in LabelSet(labels)
      ensures c in LabelSet(init) + {labels[|labels| - 1]}
    {
      var x :| 0 <= x < |labels| && labels[x] == c;
      if x < |init| {
        assert init[x] == c;
      }
    }
    forall c | c in LabelSet(init)
      ensures c in LabelSet(labels)
    {
      var x :| 0 <= x < |init| && init[x] == c;
      assert labels[x] == c;
    }
  }

  /** A labelling that only joins classes of another uses at most as many labels. */
  lemma {:induction false} CoarserLabels(a: seq<int>, b: seq<int>)
    requires |a| == |b|
    requires forall x, y :: 0 <= x < |a| && 0 <= y < |a| && a[x] == a[y] ==> b[x] == b[y]
    ensures |LabelSet(b)| <= |LabelSet(a)|
    decreases |a|
  {
    if a != [] {
      var a', b' := a[..|a| - 1], b[..|b| - 1];
      var p, q := a[|a| - 1], b[|b| - 1];
      CoarserLabels(a', b');
      LabelSetSnoc(a);
      LabelSetSnoc(b);
      if p in LabelSet(a') {
        var x :| 0 <= x < |a'| && a'[x] == p;
        assert a[x] == a[|a| - 1];
        assert b'[x] == q;
      }
    }
  }

  /**
   * The rank bound: a forest whose every edge joins two vertices that `g`
   * connects has at most as many edges as the forest the scan picks from `g`.
   */
  lemma ForestRank(n: nat, h: seq<Edge>, g: seq<Edge>)
    requires EdgesIn(n, h) && EdgesIn(n, g) && Forest(h)
    requires forall k :: 0 <= k < |h| ==> Connected(g, h[k].u, h[k].v)
    ensures |h| <= |Scan(n, g).mst|
  {
    var lh, lg := Scan(n, h).labels, Scan(n, g).labels;
    forall x, y | 0 <= x < n && 0 <= y < n && lh[x] == lh[y]
      ensures lg[x] == lg[y]
    {
      ForestJoinsLabels(n, h, g, x, y);
    }
    CoarserLabels(lh, lg);
    ScanOfForest(n, h);
    ScanComponents(n, h);
    ScanComponents(n, g);
  }

  lemma ForestJoinsLabels(n: nat, h: seq<Edge>, g: seq<Edge>, x: int, y: int)
    requires EdgesIn(n, h) && EdgesIn(n, g) && Forest(h)
    requires forall k :: 0 <= k < |h| ==> Connected(g, h[k].u, h[k].v)
    requires 0 <= x < n && 0 <= y < n && Scan(n, h).labels[x] == Scan(n, h).labels[y]
    ensures Scan(n, g).labels[x] == Scan(n, g).labels[y]
  {
    ScanLabelsConnectivity(n, h);
    assert Connected(Scan(n, h).mst, x, y);
    ScanOfForest(n, h);
    assert Connected(h, x, y);
    var p :| IsWalk(h, p) && p[0] == x && p[|p| - 1] == y;
    WalkConnects(h, g, p);
    ScanSpans(n, g);
    assert Connected(Scan(n, g).mst, x, y);
    ScanLabelsConnectivity(n, g);
  }

  lemma {:induction false} AtMostSubseq(s: seq<Edge>, k: int)
    ensures IsSubseq(AtMost(s, k), s)
    decreases |s|
  {
    if s != [] {
      var s', e := s[..|s| - 1], s[|s| - 1];
      var r' := AtMost(s', k);
      AtMostSubseq(s', k);
      if e.weight <= k {
        assert (r' + [e])[..|r'|] == r';
      } else {
        assert r' + [] == r';
      }
    }
  }

  /** Edges that all weigh at most `k` pass the filter unchanged. */
  lemma {:induction false} AtMostAll(s: seq<Edge>, k: int)
    requires forall i :: 0 <= i < |s| ==> s[i].weight <= k
    ensures AtMost(s, k) == s
    decreases |s|
  {
    if s != [] {
      var s', e := s[..|s| - 1], s[|s| - 1];
      assert s == s' + [e];
      assert forall i :: 0 <= i < |s'| ==> s'[i].weight <= k;
      AtMostAll(s', k);
    }
  }

  /** At least the first `m` edges pass when each of them weighs at most `k`. */
  lemma {:induction false} AtMostLower(s: seq<Edge>, m: nat, k: int)
    requires m <= |s| && forall j :: 0 <= j < m ==> s[j].weight <= k
    ensures |AtMost(s, k)| >= m
    decreases |s|
  {
    if s != [] {
      var s' := s[..|s| - 1];
      if m == |s| {
        AtMostLower(s', m - 1, k);
      } else {
        AtMostLower(s', m, k);
      }
    }
  }

  /** At most `m` edges pass when every edge from position `m` on weighs more than `k`. */
  lemma {:induction false} AtMostUpper(s: seq<Edge>, m: nat, k: int)
    requires m <= |s| && forall j :: m <= j < |s| ==> s[j].weight > k
    ensures |AtMost(s, k)| <= m
    decreases |s|
  {
    if |s| > m {
      AtMostUpper(s[..|s| - 1], m, k);
    }
  }

  lemma AtMostEdgesIn(n: nat, s: seq<Edge>, k: int)
    requires EdgesIn(n, s)
    ensures EdgesIn(n, AtMost(s, k))
  {
    forall i | 0 <= i < |AtMost(s, k)|
      ensures EdgeIn(n, AtMost(s, k)[i])
    {
      assert AtMost(s, k)[i] in s;
    }
  }

  /** When no edge weighs more than `k`, neither does any edge of the forest. */
  lemma ScanAllAtMost(n: nat, s: seq<Edge>, k: int)
    requires EdgesIn(n, s) && forall i :: 0 <= i < |s| ==> s[i].weight <= k
    ensures AtMost(Scan(n, s).mst, k) == Scan(n, s).mst
  {
    var mst := Scan(n, s).mst;
    ScanPartitions(n, s);
    forall i | 0 <= i < |mst|
      ensures mst[i].weight <= k
    {
      assert mst[i] in multiset(mst + Scan(n, s).cycles);
      assert mst[i] in multiset(s);
    }
    AtMostAll(mst, k);
  }

  /**
   * On edges sorted by weight, cutting at weight `k` and then scanning gives the
   * forest's own edges of weight at most `k`.
   */
  lemma {:induction false} ScanAtMost(n: nat, s: seq<Edge>, k: int)
    requires EdgesIn(n, s) && SortedByWeight(s)
    ensures EdgesIn(n, AtMost(s, k))
    ensures AtMost(Scan(n, s).mst, k) == Scan(n, AtMost(s, k)).mst
    decreases |s|
  {
    AtMostEdgesIn(n, s, k);
    if s != [] {
      var s', e := s[..|s| - 1], s[|s| - 1];
      if e.weight <= k {
        assert forall i :: 0 <= i < |s| ==> s[i].weight <= k;
        AtMostAll(s, k);
        ScanAllAtMost(n, s, k);
      } else {
        assert SortedByWeight(s') && EdgesIn(n, s');
        ScanAtMost(n, s', k);
        ScanSkipsHeavy(n, s, k);
      }
    }
  }

  /** An edge heavier than `k` changes neither the light edges nor the light part of the forest. */
  lemma ScanSkipsHeavy(n: nat, s: seq<Edge>, k: int)
    requires EdgesIn(n, s) && s != [] && s[|s| - 1].weight > k
    ensures AtMost(s, k) == AtMost(s[..|s| - 1], k)
    ensures AtMost(Scan(n, s).mst, k) == AtMost(Scan(n, s[..|s| - 1]).mst, k)
  {
    var s', e := s[..|s| - 1], s[|s| - 1];
    var mst, prev := Scan(n, s).mst, Scan(n, s');
    assert AtMost(s', k) + [] == AtMost(s', k);
    if prev.labels[e.u] != prev.labels[e.v] {
      assert mst == prev.mst + [e];
      assert (prev.mst + [e])[..|prev.mst|] == prev.mst;
      assert AtMost(prev.mst, k) + [] == AtMost(prev.mst, k);
    }
  }

  /** Comparing two lists of equal length edge by edge compares their weights. */
  lemma {:induction false} WeightPointwise(a: seq<Edge>, b: seq<Edge>)
    requires |a| == |b| && forall i :: 0 <= i < |a| ==> a[i].weight <= b[i].weight
    ensures Weight(a) <= Weight(b)
    decreases |a|
  {
    if a != [] {
      WeightPointwise(a[..|a| - 1], b[..|b| - 1]);
    }
  }

  lemma AtMostWithin(a: seq<Edge>, b: seq<Edge>, k: int)
    requires forall i :: 0 <= i < |a| ==> a[i] in b
    ensures forall i :: 0 <= i < |AtMost(a, k)| ==> AtMost(a, k)[i] in AtMost(b, k)
  {
    forall i | 0 <= i < |AtMost(a, k)|
      ensures AtMost(a, k)[i] in AtMost(b, k)
    {
      assert AtMost(a, k)[i] in a;
    }
  }

  /** Edges that all occur in `g` join vertices that `g` connects. */
  lemma MembersConnected(n: nat, h: seq<Edge>, g: seq<Edge>)
    requires EdgesIn(n, g) && forall i :: 0 <= i < |h| ==> h[i] in g
    ensures EdgesIn(n, h) && forall i :: 0 <= i < |h| ==> Connected(g, h[i].u, h[i].v)
  {
    forall i | 0 <= i < |h|
      ensures EdgeIn(n, h[i]) && Connected(g, h[i].u, h[i].v)
    {
      var j :| 0 <= j < |g| && g[j] == h[i];
      ConnectedEdge(g, j);
    }
  }

  /**
   * For every weight `k`, the forest of `algoritmo_kruskal` has at least as
   * many edges of weight at most `k` as any forest drawn from the input edges.
   */
  lemma SelectedDominates(n: nat, edges: seq<Edge>, other: seq<Edge>, k: int)
    requires EdgesIn(n, edges) && Forest(other)
    requires forall i :: 0 <= i < |other| ==> other[i] in edges
    ensures |AtMost(other, k)| <= |AtMost(Selected(n, edges).mst, k)|
  {
    SortKeepsEdgesIn(n, edges);
    SortByWeightSorted(edges);
    var sorted := SortByWeight(edges);
    ScanAtMost(n, sorted, k);
    var g := AtMost(sorted, k);
    var h := AtMost(other, k);
    AtMostSubseq(other, k);
    SubseqForest(h, other);
    forall i | 0 <= i < |other|
      ensures other[i] in sorted
    {
      assert other[i] in multiset(edges);
    }
    AtMostWithin(other, sorted, k);
    MembersConnected(n, h, g);
    ForestRank(n, h, g);
  }

  /**
   * Of two lists sorted by weight and of equal length, the one with at least
   * as many edges at or below the weight found at position `i` of the other
   * is no heavier at position `i`.
   */
  lemma LighterAtEachPosition(t: seq<Edge>, o: seq<Edge>, i: nat)
    requires SortedByWeight(t) && SortedByWeight(o) && |t| == |o| && i < |t|
    requires |AtMost(o, o[i].weight)| <= |AtMost(t, o[i].weight)|
    ensures t[i].weight <= o[i].weight
  {
    var k := o[i].weight;
    if t[i].weight > k {
      SortedBelow(o, i);
      AtMostLower(o, i + 1, k);
      SortedAbove(t, i);
      AtMostUpper(t, i, k);
      assert false;
    }
  }

  lemma SortedBelow(s: seq<Edge>, i: nat)
    requires SortedByWeight(s) && i < |s|
    ensures forall j :: 0 <= j < i + 1 ==> s[j].weight <= s[i].weight
  {
  }

  lemma SortedAbove(s: seq<Edge>, i: nat)
    requires SortedByWeight(s) && i < |s|
    ensures forall j :: i <= j < |s| ==> s[j].weight >= s[i].weight
  {
  }

  /** `f` is a forest of edges of the graph that connects every pair the graph connects. */
  ghost predicate SpanningForest(n: nat, edges: seq<Edge>, f: seq<Edge>)
  {
    && (forall i :: 0 <= i < |f| ==> f[i] in edges)
    && Forest(f)
    && (forall x, y :: 0 <= x < n && Connected(edges, x, y) ==> Connected(f, x, y))
  }

  /** The forest of `algoritmo_kruskal` is a spanning forest of its input. */
  lemma SelectedSpanningForest(n: nat, edges: seq<Edge>)
    requires EdgesIn(n, edges)
    ensures SpanningForest(n, edges, Selected(n, edges).mst)
  {
    SortKeepsEdgesIn(n, edges);
    SortByWeightSorted(edges);
    var sorted := SortByWeight(edges);
    var s := Scan(n, sorted);
    SelectedSpans(n, edges);
    ScanAcyclic(n, sorted);
    ScanPartitions(n, sorted);
    forall i | 0 <= i < |s.mst|
      ensures s.mst[i] in edges
    {
      assert s.mst[i] in multiset(s.mst + s.cycles);
      assert s.mst[i] in multiset(edges);
    }
  }

  /** Every spanning forest of the graph has as many edges as the forest of `algoritmo_kruskal`. */
  lemma SpanningForestSize(n: nat, edges: seq<Edge>, f: seq<Edge>)
    requires EdgesIn(n, edges) && SpanningForest(n, edges, f)
    ensures |f| == |Selected(n, edges).mst|
  {
    SortKeepsEdgesIn(n, edges);
    SortByWeightSorted(edges);
    var sorted := SortByWeight(edges);
    var t := Scan(n, sorted).mst;
    SelectedSpanningForest(n, edges);
    ScanLabelsConnectivity(n, sorted);
    forall i | 0 <= i < |f|
      ensures EdgeIn(n, f[i]) && Connected(sorted, f[i].u, f[i].v)
    {
      assert f[i] in multiset(sorted);
      var j :| 0 <= j < |sorted| && sorted[j] == f[i];
      ConnectedEdge(sorted, j);
    }
    ForestRank(n, f, sorted);
    forall i | 0 <= i < |t|
      ensures Connected(f, t[i].u, t[i].v)
    {
      var j :| 0 <= j < |edges| && edges[j] == t[i];
      ConnectedEdge(edges, j);
    }
    ForestRank(n, t, f);
    ScanOfForest(n, f);
  }

  /**
   * The forest of `algoritmo_kruskal` is a minimum spanning forest: no spanning
   * forest of the graph drawn from its edges weighs less in total.
   */
  lemma SelectedIsMinimum(n: nat, edges: seq<Edge>, other: seq<Edge>)
    requires EdgesIn(n, edges) && SpanningForest(n, edges, other)
    ensures Weight(Selected(n, edges).mst) <= Weight(other)
  {
    SortKeepsEdgesIn(n, edges);
    SortByWeightSorted(edges);
    var t := Selected(n, edges).mst;
    ScanKeepsOrder(n, SortByWeight(edges));
    SpanningForestSize(n, edges, other);
    SortByWeightSorted(other);
    var o := SortByWeight(other);
    assert |o| == |multiset(o)| == |multiset(other)| == |other|;
    forall i | 0 <= i < |t|
      ensures t[i].weight <= o[i].weight
    {
      var k := o[i].weight;
      SelectedDominates(n, edges, other, k);
      TotalPermutation(other, o, AtMostOne(k));
      LighterAtEachPosition(t, o, i);
    }
    WeightPointwise(t, o);
    TotalPermutation(o, other, WeightOf);
  }

  /** Two labellings describe the same partition of the elements. */
  predicate SamePartition(a: seq<int>, b: seq<int>)
  {
    |a| == |b| && forall x, y :: 0 <= x < |a| && 0 <= y < |a| ==> (a[x] == a[y] <==> b[x] == b[y])
  }

  /** Joining the classes of `u` and `v` in two labellings of the same partition keeps them alike. */
  lemma MergeKeepsPartition(a: seq<int>, b: seq<int>, u: nat, v: nat, ra: int, rb: int)
    requires SamePartition(a, b) && u < |a| && v < |a|
    requires ra == a[u] || ra == a[v]
    requires rb == b[u] || rb == b[v]
    ensures SamePartition(Merge(a, a[u], a[v], ra), Merge(b, b[u], b[v], rb))
  {
    forall x, y | 0 <= x < |a| && 0 <= y < |a|
      ensures Merge(a, a[u], a[v], ra)[x] == Merge(a, a[u], a[v], ra)[y]
          <==> Merge(b, b[u], b[v], rb)[x] == Merge(b, b[u], b[v], rb)[y]
    {
      MergeSameSet(a, u, v, ra, x, y);
      MergeSameSet(b, u, v, rb, x, y);
    }
  }

  /**
   * One turn of the loop of `algoritmo_kruskal`: a union on a structure whose
   * sets match the labels of `Scan` advances `Scan` by one edge and keeps the
   * two partitions alike.
   */
  lemma ScanStep(n: nat, es: seq<Edge>, i: nat, before: seq<int>, after: seq<int>, merged: bool, r: int)
    requires EdgesIn(n, es) && i < |es|
    requires SamePartition(before, Scan(n, es[..i]).labels)
    requires merged <==> before[es[i].u] != before[es[i].v]
    requires !merged ==> after == before
    requires merged ==> r == before[es[i].u] || r == before[es[i].v]
    requires merged ==> after == Merge(before, before[es[i].u], before[es[i].v], r)
    ensures merged ==> Scan(n, es[..i + 1]).mst == Scan(n, es[..i]).mst + [es[i]]
    ensures merged ==> Scan(n, es[..i + 1]).cycles == Scan(n, es[..i]).cycles
    ensures !merged ==> Scan(n, es[..i + 1]).mst == Scan(n, es[..i]).mst
    ensures !merged ==> Scan(n, es[..i + 1]).cycles == Scan(n, es[..i]).cycles + [es[i]]
    ensures SamePartition(after, Scan(n, es[..i + 1]).labels)
  {
    var e := es[i];
    var prev := Scan(n, es[..i]);
    assert es[..i + 1][..i] == es[..i];
    assert es[..i + 1][i] == e;
    if merged {
      MergeKeepsPartition(before, prev.labels, e.u, e.v, r, prev.labels[e.v]);
    }
  }

  /**
   * `algoritmo_kruskal` (lines 81-107): sorts the edges by weight, offers each
   * to a fresh union-find structure, and sorts it into the forest or the
   * circuit list; the flag compares the forest's size with the input's.
   */
  method Kruskal(n: nat, edges: seq<Edge>) returns (mst: seq<Edge>, cycles: seq<Edge>, isTree: bool)
    requires EdgesIn(n, edges)
    ensures mst == Selected(n, edges).mst && cycles == Selected(n, edges).cycles
    ensures isTree <==> cycles == []
    ensures SpanningForest(n, edges, mst)
    ensures forall x, y :: 0 <= x < n ==> (Connected(edges, x, y) <==> Connected(mst, x, y))
    ensures forall other :: SpanningForest(n, edges, other) ==> Weight(mst) <= Weight(other)
  {
    var uf := new DisjointSet(n);
    mst, cycles := [], [];
    var sorted := SortByWeight(edges);
    SortKeepsEdgesIn(n, edges);
    var i := 0;
    while i < |sorted|
      invariant 0 <= i <= |sorted|
      invariant uf.Valid() && uf.size == n
      invariant var s := Scan(n, sorted[..i]);
        mst == s.mst && cycles == s.cycles && SamePartition(uf.root, s.labels)
    {
      var e := sorted[i];
      ghost var before := uf.root;
      var merged := uf.Union(e.u, e.v);
      ScanStep(n, sorted, i, before, uf.root, merged, uf.root[e.u]);
      if merged {
        mst := mst + [e];
      } else {
        cycles := cycles + [e];
      }
      i := i + 1;
    }
    assert sorted[..|sorted|] == sorted;
    ScanPartitions(n, sorted);
    SelectedSpanningForest(n, edges);
    SelectedSpans(n, edges);
    forall other | SpanningForest(n, edges, other)
      ensures Weight(mst) <= Weight(other)
    {
      SelectedIsMinimum(n, edges, other);
    }
    isTree := |mst| == |edges|;
  }

  // ---------------------------------------------------------------------------
  // The scenarios of minimum_spanning_tree/kruskal/test_kruskal.py

  /** Sorting edges that are already in weight order changes nothing. */
  lemma {:induction false} SortSortedIsIdentity(s: seq<Edge>)
    requires SortedByWeight(s)
    ensures SortByWeight(s) == s
  {
    if s != [] {
      SortSortedIsIdentity(s[1..]);
      assert s == [s[0]] + s[1..];
    }
  }

  /** On edges already in weight order, the selection is the scan of the edges as given. */
  lemma SelectedOfSorted(n: nat, es: seq<Edge>)
    requires EdgesIn(n, es) && SortedByWeight(es)
    ensures Selected(n, es) == Scan(n, es)
  {
    SortSortedIsIdentity(es);
  }

  /** The graph of `TestGraphWithCircuit`: a triangle 0-1-2 and a pendant edge to 3. */
  function CircuitGraph(): seq<Edge>
  {
    [Edge(0, 1, 1), Edge(1, 2, 2), Edge(2, 0, 3), Edge(1, 3, 4)]
  }

  lemma CircuitGraphFirstTwo()
    ensures EdgesIn(4, CircuitGraph())
    ensures Scan(4, CircuitGraph()[..2]) == Selection([2, 2, 2, 3], [Edge(0, 1, 1), Edge(1, 2, 2)], [])
  {
    var es := CircuitGraph();
    assert es[..2][..1] == es[..1] && es[..1][..0] == [];
    assert Scan(4, es[..1]) == Selection([1, 1, 2, 3], [Edge(0, 1, 1)], []);
  }

  /** A triangle with a pendant edge: the heaviest triangle edge `(2, 0, 3)` is the one circuit. */
  lemma TestGraphWithCircuit()
    ensures EdgesIn(4, CircuitGraph())
    ensures Selected(4, CircuitGraph()).mst == [Edge(0, 1, 1), Edge(1, 2, 2), Edge(1, 3, 4)]
    ensures Selected(4, CircuitGraph()).cycles == [Edge(2, 0, 3)]
  {
    CircuitGraphScan();
    SelectedOfSorted(4, CircuitGraph());
  }

  lemma CircuitGraphScan()
    ensures EdgesIn(4, CircuitGraph())
    ensures Scan(4, CircuitGraph()).mst == [Edge(0, 1, 1), Edge(1, 2, 2), Edge(1, 3, 4)]
    ensures Scan(4, CircuitGraph()).cycles == [Edge(2, 0, 3)]
  {
    var es := CircuitGraph();
    CircuitGraphFirstThree();
    assert es[..4][..3] == es[..3] && es[..4] == es;
  }

  lemma CircuitGraphFirstThree()
    ensures EdgesIn(4, CircuitGraph())
    ensures Scan(4, CircuitGraph()[..3]) == Selection([2, 2, 2, 3], [Edge(0, 1, 1), Edge(1, 2, 2)], [Edge(2, 0, 3)])
  {
    var es := CircuitGraph();
    CircuitGraphFirstTwo();
    assert es[..3][..2] == es[..2] && es[..3][2] == Edge(2, 0, 3);
  }

  /** A graph that is already a tree loses no edge. */
  lemma TestGraphIsTree()
    ensures
      var es := [Edge(0, 1, 1), Edge(1, 2, 2), Edge(2, 3, 3)];
      EdgesIn(4, es) && Selected(4, es).mst == es && Selected(4, es).cycles == []
  {
    var es := [Edge(0, 1, 1), Edge(1, 2, 2), Edge(2, 3, 3)];
    PathGraphScan();
    SelectedOfSorted(4, es);
  }

  lemma PathGraphScan()
    ensures
      var es := [Edge(0, 1, 1), Edge(1, 2, 2), Edge(2, 3, 3)];
      EdgesIn(4, es) && Scan(4, es).mst == es && Scan(4, es).cycles == []
  {
    var es := [Edge(0, 1, 1), Edge(1, 2, 2), Edge(2, 3, 3)];
    assert es[..1][..0] == [];
    assert Scan(4, es[..1]) == Selection([1, 1, 2, 3], [Edge(0, 1, 1)], []);
    assert es[..2][..1] == es[..1];
    assert Scan(4, es[..2]) == Selection([2, 2, 2, 3], [Edge(0, 1, 1), Edge(1, 2, 2)], []);
    assert es[..3][..2] == es[..2] && es[..3] == es;
  }

  /** The empty graph and a single edge give no circuit. */
  lemma TestSmallGraphs()
    ensures Selected(0, []).mst == [] && Selected(0, []).cycles == []
    ensures EdgesIn(2, [Edge(0, 1, 5)])
    ensures Selected(2, [Edge(0, 1, 5)]).mst == [Edge(0, 1, 5)] && Selected(2, [Edge(0, 1, 5)]).cycles == []
  {
    var es := [Edge(0, 1, 5)];
    SortSortedIsIdentity(es);
    assert es[..0] == [];
  }
}
