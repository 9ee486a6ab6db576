/**
 * The interference graph as a value: the temps still to colour, each temp's
 * neighbour set and its degree counter, and what the allocator's operations
 * do to them.
 */
module Graphs {
  import opened Wrappers
  import opened Tac

  /** Why register allocation of a block stops with an exception. */
  datatype Fault =
    | NullDereference    // a temp without a neighbour set is dereferenced
    | IllegalOpcode      // a branch or return reached the graph builder
    | SpillUnsupported   // every remaining node has at least K neighbours

  /**
   * `nodes` is the set still to colour, `adj` the neighbour sets and `deg`
   * the degree counters (`neighbours` and `nodeDeg` in the allocator).
   */
  datatype Graph = Graph(nodes: set<Temp>, adj: map<Temp, set<Temp>>, deg: map<Temp, int>)

  /** What `clear` leaves. */
  const Empty := Graph({}, map[], map[])

  /** Every node still to colour has a neighbour set and a counter. */
  predicate Keyed(g: Graph) {
    g.nodes <= g.adj.Keys && g.nodes <= g.deg.Keys
  }

  /** Adjacency is symmetric, joins temps that have neighbour sets, and has no self-loops. */
  predicate Symmetric(adj: map<Temp, set<Temp>>) {
    forall a, b {:trigger b in adj[a]} :: a in adj && b in adj[a] ==> b in adj && a in adj[b] && a != b
  }

  /** Each node's counter is at least its number of distinct neighbours still to colour. */
  predicate Covered(g: Graph)
    requires Keyed(g)
  {
    forall a {:trigger CoveredAt(g, a)} :: a in g.nodes ==> CoveredAt(g, a)
  }

  /** Node `a`'s counter is at least its number of neighbours still to colour. */
  predicate CoveredAt(g: Graph, a: Temp)
    requires a in g.adj && a in g.deg
  {
    g.deg[a] >= |g.adj[a] * g.nodes|
  }

  /** Each counter is at least the number of distinct neighbours. */
  predicate Counted(g: Graph)
    requires g.adj.Keys <= g.deg.Keys
  {
    forall a :: a in g.adj ==> g.deg[a] >= |g.adj[a]|
  }

  /**
   * The shape the construction keeps: the nodes are exactly the temps with a
   * neighbour set and a counter, adjacency is symmetric, and the counters
   * count at least the neighbours.
   */
  predicate Shaped(g: Graph) {
    && g.nodes == g.adj.Keys == g.deg.Keys
    && Symmetric(g.adj)
    && Counted(g)
  }

  /** A constructed graph is ready for colouring: every node's counter covers its neighbours still to colour. */
  lemma ShapedCovered(g: Graph)
    requires Shaped(g)
    ensures Keyed(g) && Covered(g)
  {
    forall a | a in g.nodes ensures CoveredAt(g, a) {
      assert g.adj[a] * g.nodes == g.adj[a];
    }
  }

  /** addNode: a temp not yet a node and not bound to the frame pointer becomes a node with no neighbours. */
  function WithNode(g: Graph, n: Temp, onFp: bool): (r: Graph)
    ensures r.nodes == if onFp then g.nodes else g.nodes + {n}
    ensures n in g.nodes || onFp ==> r == g
    ensures n !in g.nodes && !onFp ==> r.adj == g.adj[n := {}] && r.deg == g.deg[n := 0]
  {
    if n in g.nodes || onFp then g else Graph(g.nodes + {n}, g.adj[n := {}], g.deg[n := 0])
  }

  /** addNode leaves the state alone the second time. */
  lemma WithNodeIdempotent(g: Graph, n: Temp, onFp: bool)
    ensures WithNode(WithNode(g, n, onFp), n, onFp) == WithNode(g, n, onFp)
  {
  }

  /** addNode keeps the construction's shape. */
  lemma WithNodeShaped(g: Graph, n: Temp, onFp: bool)
    requires Shaped(g)
    ensures Shaped(WithNode(g, n, onFp))
  {
    var r := WithNode(g, n, onFp);
    if r != g {
      forall a, b | a in r.adj && b in r.adj[a] ensures b in r.adj && a in r.adj[b] && a != b {
        assert a != n && r.adj[a] == g.adj[a];
        assert b in g.adj && b != n;
      }
    }
  }

  /** The nodes `ts` adds, skipping the temps of `skip` (those bound to the frame pointer). */
  function WithNodes(g: Graph, ts: set<Temp>, skip: set<Temp>): (r: Graph)
    requires g.adj.Keys == g.deg.Keys
    ensures r.nodes == g.nodes + (ts - skip)
    ensures r.adj.Keys == r.deg.Keys
  {
    Grow(g, ts - skip - g.nodes)
  }

  /** `g` with the temps of `added` as new nodes without neighbours. */
  function Grow(g: Graph, added: set<Temp>): (r: Graph)
    requires g.adj.Keys == g.deg.Keys
    ensures r.nodes == g.nodes + added && r.adj.Keys == r.deg.Keys == g.adj.Keys + added
  {
    Graph(g.nodes + added,
      map x | x in g.adj.Keys + added :: if x in added then {} else g.adj[x],
      map x | x in g.deg.Keys + added :: if x in added then 0 else g.deg[x])
  }

  /** Adding one more candidate node one at a time is adding it with the rest. */
  lemma WithNodesStep(g: Graph, ts: set<Temp>, skip: set<Temp>, t: Temp)
    requires g.adj.Keys == g.deg.Keys
    ensures WithNode(WithNodes(g, ts, skip), t, t in skip) == WithNodes(g, ts + {t}, skip)
  {
    var added := ts - skip - g.nodes;
    if t in skip || t in g.nodes + (ts - skip) {
      assert (ts + {t}) - skip - g.nodes == added;
    } else {
      assert (ts + {t}) - skip - g.nodes == added + {t};
      GrowStep(g, added, t);
    }
  }

  /** A temp that is not a key yet grows the graph by one isolated node. */
  lemma GrowStep(g: Graph, added: set<Temp>, t: Temp)
    requires g.adj.Keys == g.deg.Keys && t !in g.nodes + added
    ensures WithNode(Grow(g, added), t, false) == Grow(g, added + {t})
  {
    var h := Grow(g, added);
    var b := Grow(g, added + {t});
    var adj, deg := h.adj[t := {}], h.deg[t := 0];
    assert adj.Keys == b.adj.Keys;
    forall x | x in adj ensures adj[x] == b.adj[x] {
      if x != t {
        assert adj[x] == h.adj[x];
      }
    }
    assert deg.Keys == b.deg.Keys;
    forall x | x in deg ensures deg[x] == b.deg[x] {
      if x != t {
        assert deg[x] == h.deg[x];
      }
    }
    assert adj == b.adj && deg == b.deg;
    assert WithNode(h, t, false) == Graph(h.nodes + {t}, adj, deg);
  }

  /** No candidates, no change. */
  lemma WithNodesNone(g: Graph, skip: set<Temp>)
    requires g.adj.Keys == g.deg.Keys
    ensures WithNodes(g, {}, skip) == g
  {
    var r := WithNodes(g, {}, skip);
    assert r.adj == g.adj;
    assert r.deg == g.deg;
  }

  /** Nodes built from candidates keep the construction's shape. */
  lemma WithNodesShaped(g: Graph, ts: set<Temp>, skip: set<Temp>)
    requires Shaped(g)
    ensures Shaped(WithNodes(g, ts, skip))
  {
    var r := WithNodes(g, ts, skip);
    var added := ts - skip - g.nodes;
    forall a, b | a in r.adj && b in r.adj[a] ensures b in r.adj && a in r.adj[b] && a != b {
      assert a !in added && r.adj[a] == g.adj[a];
      assert b in g.adj && b !in added;
    }
    forall a | a in r.adj ensures r.deg[a] >= |r.adj[a]| {
      if a !in added {
        assert r.adj[a] == g.adj[a] && r.deg[a] == g.deg[a];
      }
    }
  }

  /** No node has a neighbour or a nonzero counter: what makeNodes leaves. */
  predicate Isolated(g: Graph) {
    && (forall x :: x in g.adj ==> g.adj[x] == {})
    && (forall x :: x in g.deg ==> g.deg[x] == 0)
  }

  /** Starting from no graph, the candidates become nodes without neighbours. */
  lemma WithNodesIsolated(ts: set<Temp>, skip: set<Temp>)
    ensures Isolated(WithNodes(Empty, ts, skip))
  {
  }

  /**
   * addEdge: `b` joins `a`'s neighbours and `a` joins `b`'s, and both
   * counters go up by one whether or not the pair was already adjacent.
   */
  function WithEdge(g: Graph, a: Temp, b: Temp): (r: Graph)
    requires a in g.adj && b in g.adj && a in g.deg && b in g.deg
    ensures r.nodes == g.nodes && r.adj.Keys == g.adj.Keys && r.deg.Keys == g.deg.Keys
    ensures a != b ==> r.adj[a] == g.adj[a] + {b} && r.adj[b] == g.adj[b] + {a}
    ensures a != b ==> r.deg[a] == g.deg[a] + 1 && r.deg[b] == g.deg[b] + 1
    ensures a == b ==> r.adj[a] == g.adj[a] + {a} && r.deg[a] == g.deg[a] + 2
    ensures forall x :: x in r.adj && x != a && x != b ==> r.adj[x] == g.adj[x]
    ensures forall x :: x in r.deg && x != a && x != b ==> r.deg[x] == g.deg[x]
  {
    var adj := g.adj[a := g.adj[a] + {b}];
    var deg := g.deg[a := g.deg[a] + 1];
    Graph(g.nodes, adj[b := adj[b] + {a}], deg[b := deg[b] + 1])
  }

  /** An edge between two distinct nodes keeps the construction's shape, duplicate or not. */
  lemma WithEdgeShaped(g: Graph, a: Temp, b: Temp)
    requires Shaped(g) && a in g.nodes && b in g.nodes && a != b
    ensures Shaped(WithEdge(g, a, b))
  {
    WithEdgeSymmetric(g, a, b);
    WithEdgeCounted(g, a, b);
  }

  lemma WithEdgeSymmetric(g: Graph, a: Temp, b: Temp)
    requires a in g.adj && b in g.adj && a in g.deg && b in g.deg && Symmetric(g.adj) && a != b
    ensures Symmetric(WithEdge(g, a, b).adj)
  {
    var r := WithEdge(g, a, b);
    forall x, y | x in r.adj && y in r.adj[x] ensures y in r.adj && x in r.adj[y] && x != y {
      if y !in g.adj[x] {
        assert (x == a && y == b) || (x == b && y == a);
      }
    }
  }

  lemma WithEdgeCounted(g: Graph, a: Temp, b: Temp)
    requires g.adj.Keys <= g.deg.Keys && a in g.adj && b in g.adj && Counted(g) && a != b
    ensures Counted(WithEdge(g, a, b))
  {
    var r := WithEdge(g, a, b);
    forall x | x in r.adj ensures r.deg[x] >= |r.adj[x]| {
      if x == a {
        OneMore(g.adj[x], b);
      } else if x == b {
        OneMore(g.adj[x], a);
      } else {
        assert r.adj[x] == g.adj[x];
      }
    }
  }

  /** Adding one element grows a set by at most one. */
  lemma OneMore<T>(s: set<T>, x: T)
    ensures |s + {x}| <= |s| + 1
  {
    if x !in s {
      assert |s + {x}| == |s| + 1;
    } else {
      assert s + {x} == s;
    }
  }

  /** Two maps with the same keys and the same value at each key are equal. */
  lemma MapsEqual<K, V>(m1: map<K, V>, m2: map<K, V>)
    requires m1.Keys == m2.Keys && forall x :: x in m1 ==> m1[x] == m2[x]
    ensures m1 == m2
  {
  }

  /**
   * `r` is `g` with `d` joined to each temp of `cs` (not `d` itself) by one
   * addEdge apiece: `d` gains all of `cs` and its counter goes up by `|cs|`,
   * each temp of `cs` gains `d` and one on its counter (a pair already
   * adjacent is counted again), and nothing else changes.
   */
  predicate IsStar(g: Graph, d: Temp, cs: set<Temp>, r: Graph) {
    && d !in cs
    && r.nodes == g.nodes && r.adj.Keys == g.adj.Keys && r.deg.Keys == g.deg.Keys
    && StarAdj(g.adj, d, cs, r.adj)
    && StarDeg(g.deg, d, cs, r.deg)
  }

  /** The neighbour sets of a star. */
  predicate StarAdj(adj: map<Temp, set<Temp>>, d: Temp, cs: set<Temp>, radj: map<Temp, set<Temp>>)
    requires radj.Keys == adj.Keys
  {
    && (forall x {:trigger radj[x]} :: x in radj && x == d ==> radj[x] == adj[x] + cs)
    && (forall x {:trigger radj[x]} :: x in radj && x in cs ==> radj[x] == adj[x] + {d})
    && (forall x {:trigger radj[x]} :: x in radj && x != d && x !in cs ==> radj[x] == adj[x])
  }

  /** The counters of a star. */
  predicate StarDeg(deg: map<Temp, int>, d: Temp, cs: set<Temp>, rdeg: map<Temp, int>)
    requires rdeg.Keys == deg.Keys
  {
    && (forall x {:trigger rdeg[x]} :: x in rdeg && x == d ==> rdeg[x] == deg[x] + |cs|)
    && (forall x {:trigger rdeg[x]} :: x in rdeg && x in cs ==> rdeg[x] == deg[x] + 1)
    && (forall x {:trigger rdeg[x]} :: x in rdeg && x != d && x !in cs ==> rdeg[x] == deg[x])
  }

  /** The graph `IsStar` describes. */
  function Star(g: Graph, d: Temp, cs: set<Temp>): (r: Graph)
    requires g.adj.Keys == g.deg.Keys && d !in cs
    ensures IsStar(g, d, cs, r)
  {
    Graph(g.nodes,
      map x | x in g.adj :: if x == d then g.adj[x] + cs else if x in cs then g.adj[x] + {d} else g.adj[x],
      map x | x in g.deg :: if x == d then g.deg[x] + |cs| else if x in cs then g.deg[x] + 1 else g.deg[x])
  }

  /** Two graphs with the same nodes, keys and entries are the same graph. */
  lemma SameGraph(r1: Graph, r2: Graph)
    requires r1.nodes == r2.nodes && r1.adj.Keys == r2.adj.Keys && r1.deg.Keys == r2.deg.Keys
    requires forall x :: x in r1.adj ==> r1.adj[x] == r2.adj[x]
    requires forall x :: x in r1.deg ==> r1.deg[x] == r2.deg[x]
    ensures r1 == r2
  {
    MapsEqual(r1.adj, r2.adj);
    MapsEqual(r1.deg, r2.deg);
  }

  /** A star is determined by its centre and leaves. */
  lemma StarUnique(g: Graph, d: Temp, cs: set<Temp>, r1: Graph, r2: Graph)
    requires IsStar(g, d, cs, r1) && IsStar(g, d, cs, r2)
    ensures r1 == r2
  {
    forall x | x in r1.adj ensures r1.adj[x] == r2.adj[x] {
      if x == d {
      } else if x in cs {
      }
    }
    forall x | x in r1.deg ensures r1.deg[x] == r2.deg[x] {
      if x == d {
      } else if x in cs {
      }
    }
    SameGraph(r1, r2);
  }

  /** No leaves, no change. */
  lemma StarNone(g: Graph, d: Temp)
    ensures IsStar(g, d, {}, g)
  {
  }

  /** One more leaf is one more addEdge. */
  lemma StarStep(g: Graph, d: Temp, cs: set<Temp>, c: Temp, r: Graph)
    requires IsStar(g, d, cs, r) && g.adj.Keys == g.deg.Keys && d in g.adj && c in g.adj && c != d && c !in cs
    ensures IsStar(g, d, cs + {c}, WithEdge(r, d, c))
  {
    var w := WithEdge(r, d, c);
    StarStepAdj(g.adj, d, cs, c, r.adj, w.adj);
    StarStepDeg(g.deg, d, cs, c, r.deg, w.deg);
  }

  lemma StarStepAdj(adj: map<Temp, set<Temp>>, d: Temp, cs: set<Temp>, c: Temp, radj: map<Temp, set<Temp>>, wadj: map<Temp, set<Temp>>)
    requires radj.Keys == adj.Keys == wadj.Keys && d in adj && c in adj && c != d && c !in cs && d !in cs
    requires StarAdj(adj, d, cs, radj)
    requires wadj[d] == radj[d] + {c} && wadj[c] == radj[c] + {d}
    requires forall x :: x in wadj && x != d && x != c ==> wadj[x] == radj[x]
    ensures StarAdj(adj, d, cs + {c}, wadj)
  {
  }

  lemma StarStepDeg(deg: map<Temp, int>, d: Temp, cs: set<Temp>, c: Temp, rdeg: map<Temp, int>, wdeg: map<Temp, int>)
    requires rdeg.Keys == deg.Keys == wdeg.Keys && d in deg && c in deg && c != d && c !in cs && d !in cs
    requires StarDeg(deg, d, cs, rdeg)
    requires wdeg[d] == rdeg[d] + 1 && wdeg[c] == rdeg[c] + 1
    requires forall x :: x in wdeg && x != d && x != c ==> wdeg[x] == rdeg[x]
    ensures StarDeg(deg, d, cs + {c}, wdeg)
  {
    assert |cs + {c}| == |cs| + 1;
  }

  /** Joining a node to other nodes keeps the construction's shape. */
  lemma StarShaped(g: Graph, d: Temp, cs: set<Temp>, r: Graph)
    requires Shaped(g) && IsStar(g, d, cs, r) && d in g.nodes && cs <= g.nodes
    ensures Shaped(r)
  {
    StarSymmetric(g, d, cs, r);
    forall x | x in r.adj ensures r.deg[x] >= |r.adj[x]| {
      StarCounted(g, d, cs, r, x);
    }
  }

  lemma StarSymmetric(g: Graph, d: Temp, cs: set<Temp>, r: Graph)
    requires Symmetric(g.adj) && IsStar(g, d, cs, r) && d in g.adj && cs <= g.adj.Keys
    ensures Symmetric(r.adj)
  {
    forall x, y | x in r.adj && y in r.adj[x] ensures y in r.adj && x in r.adj[y] && x != y {
      StarSymmetricAt(g, d, cs, r, x, y);
    }
  }

  lemma StarSymmetricAt(g: Graph, d: Temp, cs: set<Temp>, r: Graph, x: Temp, y: Temp)
    requires Symmetric(g.adj) && IsStar(g, d, cs, r) && d in g.adj && cs <= g.adj.Keys
    requires x in r.adj && y in r.adj[x]
    ensures y in r.adj && x in r.adj[y] && x != y
  {
    StarGrows(g, d, cs, r, y);
    if y !in g.adj[x] {
      if x == d {
        assert y in cs;
      } else {
        assert x in cs && y == d;
      }
    }
  }

  /** A star only adds neighbours. */
  lemma StarGrows(g: Graph, d: Temp, cs: set<Temp>, r: Graph, y: Temp)
    requires IsStar(g, d, cs, r) && y in g.adj
    ensures g.adj[y] <= r.adj[y]
    ensures y == d ==> cs <= r.adj[y]
    ensures y in cs ==> d in r.adj[y]
  {
  }

  lemma StarCounted(g: Graph, d: Temp, cs: set<Temp>, r: Graph, x: Temp)
    requires Shaped(g) && IsStar(g, d, cs, r) && x in g.adj
    ensures r.deg[x] >= |r.adj[x]|
  {
    if x == d {
      UnionCard(g.adj[x], cs);
    } else if x in cs {
      OneMore(g.adj[x], d);
    }
  }

  /** A union is no larger than its parts together. */
  lemma {:induction false} UnionCard<T>(a: set<T>, b: set<T>)
    ensures |a + b| <= |a| + |b|
    decreases b
  {
    if b != {} {
      var x :| x in b;
      UnionCard(a, b - {x});
      assert a + b == (a + (b - {x})) + {x};
      OneMore(a + (b - {x}), x);
    }
  }

  /** `deg` with the counters of `ms` lowered by one. */
  function Decrement(deg: map<Temp, int>, ms: set<Temp>): (r: map<Temp, int>)
    ensures r.Keys == deg.Keys
  {
    map m | m in deg :: if m in ms then deg[m] - 1 else deg[m]
  }

  /** Lowering no counter changes nothing. */
  lemma DecrementNone(deg: map<Temp, int>)
    ensures Decrement(deg, {}) == deg
  {
    MapsEqual(Decrement(deg, {}), deg);
  }

  /** Lowering one more counter is one more `put(m, get(m) - 1)`. */
  lemma DecrementStep(deg: map<Temp, int>, ms: set<Temp>, m: Temp)
    requires m in deg && m !in ms
    ensures Decrement(deg, ms)[m := Decrement(deg, ms)[m] - 1] == Decrement(deg, ms + {m})
  {
    var d, e := Decrement(deg, ms), Decrement(deg, ms + {m});
    var u := d[m := d[m] - 1];
    forall x | x in u ensures u[x] == e[x] {
      if x != m {
        assert u[x] == d[x];
      }
    }
    MapsEqual(u, e);
  }

  /**
   * removeNode: `n` leaves the nodes to colour and each neighbour of `n`
   * still to colour loses one from its counter; neighbour sets stay. Java
   * dereferences `n`'s neighbour set and the counters of the nodes, whether
   * or not `n` is itself a node.
   */
  function WithoutNode(g: Graph, n: Temp): (r: Graph)
    requires n in g.adj && g.nodes <= g.deg.Keys
    ensures r.nodes == g.nodes - {n} && r.adj == g.adj && r.deg.Keys == g.deg.Keys
    ensures Keyed(g) ==> Keyed(r)
    ensures forall m :: m in r.deg && m !in g.adj[n] * r.nodes ==> r.deg[m] == g.deg[m]
    ensures forall m :: m in g.adj[n] * r.nodes ==> r.deg[m] == g.deg[m] - 1
  {
    Graph(g.nodes - {n}, g.adj, Decrement(g.deg, g.adj[n] * (g.nodes - {n})))
  }

  /** removeNode keeps each remaining counter at least the number of remaining neighbours. */
  lemma WithoutNodeCovered(g: Graph, n: Temp)
    requires Keyed(g) && Symmetric(g.adj) && Covered(g) && n in g.nodes
    ensures Covered(WithoutNode(g, n))
  {
    forall m | m in g.nodes - {n} ensures CoveredAt(WithoutNode(g, n), m) {
      WithoutNodeAt(g, n, m);
      assert CoveredAt(g, m);
    }
  }

  /** One remaining node loses a counted neighbour exactly when it loses a neighbour still to colour. */
  lemma WithoutNodeAt(g: Graph, n: Temp, m: Temp)
    requires Keyed(g) && Symmetric(g.adj) && n in g.nodes && m in g.nodes && m != n
    ensures WithoutNode(g, n).deg[m] - |g.adj[m] * (g.nodes - {n})| == g.deg[m] - |g.adj[m] * g.nodes|
  {
    var d := WithoutNode(g, n).deg[m];
    if n in g.adj[m] {
      assert m in g.adj[n];
      assert d == g.deg[m] - 1;
      assert g.adj[m] * g.nodes == (g.adj[m] * (g.nodes - {n})) + {n};
    } else {
      assert m !in g.adj[n];
      assert d == g.deg[m];
      assert g.adj[m] * g.nodes == g.adj[m] * (g.nodes - {n});
    }
  }

  /** The first register of `regs` not in `used`, if any (chooseAvailableRegister's second loop). */
  function FirstFree(regs: seq<Register>, used: set<Register>): (r: Option<Register>)
    ensures r.Some? ==> r.value in regs && r.value !in used
    ensures r.Some? ==> exists i :: 0 <= i < |regs| && regs[i] == r.value && forall j :: 0 <= j < i ==> regs[j] in used
    ensures r.None? <==> forall i :: 0 <= i < |regs| ==> regs[i] in used
    decreases |regs|
  {
    if regs == [] then None
    else if regs[0] !in used then Some(regs[0])
    else
      var r := FirstFree(regs[1..], used);
      assert forall i :: 0 < i < |regs| ==> regs[i] == regs[1..][i - 1];
      if r.Some? then
        assert exists i :: 1 <= i < |regs| && regs[i] == r.value && forall j :: 0 <= j < i ==> regs[j] in used by {
          var i' :| 0 <= i' < |regs[1..]| && regs[1..][i'] == r.value && forall j :: 0 <= j < i' ==> regs[1..][j] in used;
          assert regs[i' + 1] == r.value;
        }
        r
      else r
  }

  /** The registers of `regs` are pairwise different. */
  predicate DistinctRegs(regs: seq<Register>) {
    forall i, j :: 0 <= i < j < |regs| ==> regs[i] != regs[j]
  }

  /** A sequence of distinct registers holds as many registers as it has entries. */
  lemma {:induction false} DistinctCount(regs: seq<Register>)
    requires DistinctRegs(regs)
    ensures |set r | r in regs| == |regs|
  {
    if regs != [] {
      DistinctCount(regs[1..]);
      assert (set r | r in regs) == (set r | r in regs[1..]) + {regs[0]};
      assert regs[0] !in regs[1..] by {
        forall i | 0 <= i < |regs[1..]| ensures regs[1..][i] != regs[0] {
          assert regs[1..][i] == regs[i + 1];
        }
      }
    }
  }

  /** With K distinct registers, fewer than K held ones always leave one free. */
  lemma FreeRegister(regs: seq<Register>, used: set<Register>)
    requires DistinctRegs(regs) && |used| < |regs|
    ensures FirstFree(regs, used).Some?
  {
    if FirstFree(regs, used).None? {
      var held := set r | r in regs;
      DistinctCount(regs);
      assert held <= used;
      SubsetCard(held, used);
    }
  }

  /** A subset is no larger. */
  lemma {:induction false} SubsetCard<T>(a: set<T>, b: set<T>)
    requires a <= b
    ensures |a| <= |b|
    decreases a
  {
    if a != {} {
      var x :| x in a;
      SubsetCard(a - {x}, b - {x});
    }
  }
}
