/**
 * What makeGraph builds for one basic block, as functions of the block's
 * live-on-entry temps, its instruction values and their live-out
 * annotations: the nodes (makeNodes), the clique of live-on-entry temps and
 * the conflicts between a defined temp and what is live after it
 * (makeEdges).
 */
module Construction {
  import opened Wrappers
  import opened Tac
  import opened Graphs
  import Liveness

  /**
   * The operand slots makeNodes offers to addNode for one instruction: all
   * three of a binary operation, result and operand of a unary one, a load
   * or a store, the result of a constant load, the argument of a parameter
   * push, and the result of a call when it has one (an indirect call also
   * its target). Markers offer nothing; branches and returns are refused
   * separately.
   */
  function NodeOperands(i: Instr): (r: set<Temp>)
    requires WellFormed(i)
  {
    if i.opc.IsBinary() then {i.op0, i.op1, i.op2}
    else if i.opc.Neg? || i.opc.LNot? || i.opc.Assign? || i.opc.Load? || i.opc.Store? then {i.op0, i.op1}
    else if i.opc.LoadVtbl? || i.opc.LoadImm4? || i.opc.LoadStrConst? || i.opc.Parm? then {i.op0}
    else if i.opc.IndirectCall? then {i.op1} + (if i.op0 != null then {i.op0} else {})
    else if i.opc.DirectCall? then (if i.op0 != null then {i.op0} else {})
    else {}
  }

  /**
   * Every temp an instruction reads or overwrites, by the liveness table,
   * becomes a node candidate, and nothing else does: the graph has a node
   * for each temp whose liveness the allocator has to respect.
   */
  lemma NodeOperandsAreAccesses(i: Instr)
    requires WellFormed(i) && !i.opc.EndsBlock()
    ensures NodeOperands(i) == Liveness.Read(i) + (if Liveness.Killed(i) != null then {Liveness.Killed(i)} else {})
  {
  }

  /** Some instruction of `code` ends a block: makeNodes throws on it. */
  predicate HasBlockEnd(code: seq<Instr>) {
    exists k :: 0 <= k < |code| && code[k].opc.EndsBlock()
  }

  /** The node candidates offered by the first `k` instructions. */
  function OperandsUpTo(code: seq<Instr>, k: int): set<Temp>
    requires WellFormedCode(code) && 0 <= k <= |code|
    decreases k
  {
    if k == 0 then {}
    else
      OperandsUpTo(code, k - 1) + NodeOperands(code[k - 1])
  }

  /** A temp is offered by the first `k` instructions exactly when it is an operand slot of one of them. */
  lemma {:induction false} OperandsMeaning(code: seq<Instr>, k: int)
    requires WellFormedCode(code) && 0 <= k <= |code|
    ensures forall t :: t in OperandsUpTo(code, k) ==> exists j :: 0 <= j < k && t in NodeOperands(code[j])
    ensures forall j, t :: 0 <= j < k && t in NodeOperands(code[j]) ==> t in OperandsUpTo(code, k)
    decreases k
  {
    if k > 0 {
      OperandsMeaning(code, k - 1);
    }
  }

  /**
   * makeNodes' result, from a cleared graph: every live-on-entry temp and
   * every operand of the block that is not bound to the frame pointer
   * (those of `skip`) is a node without neighbours.
   */
  function Nodes(live: set<Temp>, code: seq<Instr>, skip: set<Temp>): Graph
    requires WellFormedCode(code)
  {
    WithNodes(Empty, live + OperandsUpTo(code, |code|), skip)
  }

  /** The nodes are exactly the candidates not bound to the frame pointer, isolated, in the construction's shape. */
  lemma NodesMeaning(live: set<Temp>, code: seq<Instr>, skip: set<Temp>)
    requires WellFormedCode(code)
    ensures var g := Nodes(live, code, skip);
      && (forall t :: t in g.nodes <==> t !in skip && (t in live || exists k :: 0 <= k < |code| && t in NodeOperands(code[k])))
      && Shaped(g) && Isolated(g)
  {
    OperandsMeaning(code, |code|);
    WithNodesShaped(Empty, live + OperandsUpTo(code, |code|), skip);
    WithNodesIsolated(live + OperandsUpTo(code, |code|), skip);
  }

  /**
   * `r` is the isolated graph `g` after makeEdges' first loop has done the
   * rows of `rows` (a row is one `a` of `ts` against every `b` of `ts`): a
   * temp whose row is done neighbours all of `ts` but itself, another temp
   * of `ts` neighbours the done rows, and since the `contains` guard adds
   * each pair once, each counter is its number of neighbours.
   */
  predicate IsClique(g: Graph, ts: set<Temp>, rows: set<Temp>, r: Graph) {
    && r.nodes == g.nodes && r.adj.Keys == g.adj.Keys && r.deg.Keys == g.deg.Keys
    && CliqueAdj(ts, rows, r.adj)
    && CliqueDeg(ts, rows, r.deg)
  }

  /** The neighbour sets of a partial clique. */
  predicate CliqueAdj(ts: set<Temp>, rows: set<Temp>, adj: map<Temp, set<Temp>>) {
    && (forall x {:trigger adj[x]} :: x in adj && x in rows ==> adj[x] == ts - {x})
    && (forall x {:trigger adj[x]} :: x in adj && x in ts && x !in rows ==> adj[x] == rows)
    && (forall x {:trigger adj[x]} :: x in adj && x !in ts && x !in rows ==> adj[x] == {})
  }

  /** The counters of a partial clique. */
  predicate CliqueDeg(ts: set<Temp>, rows: set<Temp>, deg: map<Temp, int>) {
    && (forall x {:trigger deg[x]} :: x in deg && x in rows ==> deg[x] == |ts| - 1)
    && (forall x {:trigger deg[x]} :: x in deg && x in ts && x !in rows ==> deg[x] == |rows|)
    && (forall x {:trigger deg[x]} :: x in deg && x !in ts && x !in rows ==> deg[x] == 0)
  }

  /** The first loop's result: every row done. */
  function Clique(g: Graph, ts: set<Temp>): (r: Graph)
    requires g.adj.Keys == g.deg.Keys
    ensures IsClique(g, ts, ts, r)
  {
    Graph(g.nodes,
      map x | x in g.adj :: if x in ts then ts - {x} else {},
      map x | x in g.deg :: if x in ts then |ts| - 1 else 0)
  }

  /** makeEdges' first loop throws when two distinct live-on-entry temps are not both graph temps. */
  predicate CliqueFault(keys: set<Temp>, ts: set<Temp>) {
    exists a, b :: a in ts && b in ts && a != b && !(a in keys && b in keys)
  }

  /** Before any row, the isolated nodes are untouched. */
  lemma CliqueNone(g: Graph, ts: set<Temp>)
    requires Isolated(g)
    ensures IsClique(g, ts, {}, g)
  {
  }

  /** A partial clique is determined by its done rows. */
  lemma CliqueUnique(g: Graph, ts: set<Temp>, rows: set<Temp>, r1: Graph, r2: Graph)
    requires IsClique(g, ts, rows, r1) && IsClique(g, ts, rows, r2)
    ensures r1 == r2
  {
    forall x | x in r1.adj ensures r1.adj[x] == r2.adj[x] {
      if x in rows {
      } else if x in ts {
      }
    }
    forall x | x in r1.deg ensures r1.deg[x] == r2.deg[x] {
      if x in rows {
      } else if x in ts {
      }
    }
    SameGraph(r1, r2);
  }

  /**
   * Row `a`: the pairs `(a, b)` not already adjacent are exactly `b` in `ts`
   * other than `a` and the done rows, and adding them one addEdge apiece
   * completes the row.
   */
  lemma CliqueRow(g: Graph, ts: set<Temp>, rows: set<Temp>, a: Temp, r: Graph, s: Graph)
    requires IsClique(g, ts, rows, r) && IsStar(r, a, (ts - {a}) - rows, s) && rows <= ts && a in ts - rows
    ensures IsClique(g, ts, rows + {a}, s)
  {
    CliqueRowAdj(ts, rows, a, r.adj, s.adj);
    CliqueRowDeg(ts, rows, a, r.deg, s.deg);
  }

  lemma CliqueRowAdj(ts: set<Temp>, rows: set<Temp>, a: Temp, radj: map<Temp, set<Temp>>, sadj: map<Temp, set<Temp>>)
    requires sadj.Keys == radj.Keys && CliqueAdj(ts, rows, radj) && StarAdj(radj, a, (ts - {a}) - rows, sadj) && rows <= ts && a in ts - rows
    ensures CliqueAdj(ts, rows + {a}, sadj)
  {
    if a in sadj {
      assert rows + ((ts - {a}) - rows) == ts - {a};
    }
  }

  lemma CliqueRowDeg(ts: set<Temp>, rows: set<Temp>, a: Temp, rdeg: map<Temp, int>, sdeg: map<Temp, int>)
    requires sdeg.Keys == rdeg.Keys && CliqueDeg(ts, rows, rdeg) && StarDeg(rdeg, a, (ts - {a}) - rows, sdeg) && rows <= ts && a in ts - rows
    ensures CliqueDeg(ts, rows + {a}, sdeg)
  {
    var cs := (ts - {a}) - rows;
    assert rows + cs == ts - {a} && rows !! cs;
    assert |rows + cs| == |rows| + |cs|;
    assert |ts - {a}| == |ts| - 1;
    assert |rows + {a}| == |rows| + 1;
  }

  /**
   * When every row is done, two temps are neighbours exactly when they are
   * distinct live-on-entry temps (the first a graph temp).
   */
  lemma CliqueMeaning(g: Graph, ts: set<Temp>, r: Graph, x: Temp, y: Temp)
    requires IsClique(g, ts, ts, r)
    ensures x in r.adj && y in r.adj[x] <==> x in g.adj && x in ts && y in ts && x != y
  {
    if x in r.adj && x in ts {
      assert r.adj[x] == ts - {x};
    }
  }

  /** Without a fault the complete clique keeps the construction's shape. */
  lemma CliqueShaped(g: Graph, ts: set<Temp>, r: Graph)
    requires Shaped(g) && IsClique(g, ts, ts, r) && !CliqueFault(g.adj.Keys, ts)
    ensures Shaped(r)
  {
    forall x, y | x in r.adj && y in r.adj[x] ensures y in r.adj && x in r.adj[y] && x != y {
      CliqueMeaning(g, ts, r, x, y);
      assert y in g.adj.Keys;
      CliqueMeaning(g, ts, r, y, x);
    }
    forall x | x in r.adj ensures r.deg[x] >= |r.adj[x]| {
      if x in ts {
        assert |ts - {x}| == |ts| - 1;
      }
    }
  }

  /**
   * The temps makeEdges' second loop joins to the result of instruction
   * `i`: the nodes live after `i` other than the result itself, when `i`
   * defines a result and carries a live-out annotation.
   */
  function Conflicts(i: Instr, out: Option<set<Temp>>, nodes: set<Temp>): (r: set<Temp>)
    ensures r <= nodes && i.op0 !in r
    ensures r != {} ==> i.op0 != null && out.Some?
  {
    if i.opc.Defines() && !i.opc.EndsBlock() && i.op0 != null && out.Some? then (out.value * nodes) - {i.op0} else {}
  }

  /**
   * One instruction of the second loop: a branch or return throws; a
   * result with conflicts is joined to each of them by addEdge, which
   * throws when the result has no neighbour set (it is bound to the frame
   * pointer).
   */
  function EdgeStep(h: Graph, i: Instr, out: Option<set<Temp>>): (r: Result<Graph, Fault>)
    requires h.adj.Keys == h.deg.Keys
    ensures r.Success? ==> r.value.nodes == h.nodes && r.value.adj.Keys == r.value.deg.Keys == h.adj.Keys
  {
    if i.opc.EndsBlock() then Failure(IllegalOpcode)
    else
      var cs := Conflicts(i, out, h.nodes);
      if cs == {} then Success(h)
      else
        var d: Temp := i.op0;
        if d !in h.adj then Failure(NullDereference) else Success(Star(h, d, cs))
  }

  /** An instruction whose result has been joined to each of its conflicts has done its `EdgeStep`. */
  lemma DefinitionDone(h: Graph, i: Instr, out: Option<set<Temp>>, s: Graph)
    requires h.adj.Keys == h.deg.Keys && !i.opc.EndsBlock() && i.opc.Defines() && i.op0 != null && out.Some?
    requires IsStar(h, i.op0, Conflicts(i, out, h.nodes), s)
    requires Conflicts(i, out, h.nodes) != {} ==> i.op0 in h.adj
    ensures EdgeStep(h, i, out) == Success(s)
  {
    var cs := Conflicts(i, out, h.nodes);
    if cs == {} {
      StarNone(h, i.op0);
      StarUnique(h, i.op0, cs, s, h);
    } else {
      StarUnique(h, i.op0, cs, s, Star(h, i.op0, cs));
    }
  }

  /** The second loop over the instructions in list order; the first exception ends it. */
  function Edges(h: Graph, code: seq<Instr>, outs: seq<Option<set<Temp>>>): (r: Result<Graph, Fault>)
    requires h.adj.Keys == h.deg.Keys && |outs| == |code|
    ensures r.Success? ==> r.value.nodes == h.nodes && r.value.adj.Keys == r.value.deg.Keys == h.adj.Keys
    decreases |code|
  {
    if code == [] then Success(h)
    else
      match EdgeStep(h, code[0], outs[0])
      case Failure(e) => Failure(e)
      case Success(h1) => Edges(h1, code[1..], outs[1..])
  }

  /** Instruction `i` makes `x` and `y` interfere: one is its result and the other a conflict of it. */
  predicate Joins(i: Instr, out: Option<set<Temp>>, nodes: set<Temp>, x: Temp, y: Temp) {
    (i.op0 == x && y in Conflicts(i, out, nodes)) || (i.op0 == y && x in Conflicts(i, out, nodes))
  }

  /** One instruction adds exactly the pairs it joins. */
  lemma EdgeStepMeaning(h: Graph, i: Instr, out: Option<set<Temp>>, x: Temp, y: Temp)
    requires h.adj.Keys == h.deg.Keys && EdgeStep(h, i, out).Success? && x in h.adj
    ensures y in EdgeStep(h, i, out).value.adj[x] <==> y in h.adj[x] || Joins(i, out, h.nodes, x, y)
  {
    var cs := Conflicts(i, out, h.nodes);
    if cs != {} {
      var r := EdgeStep(h, i, out).value;
      assert IsStar(h, i.op0, cs, r);
      if x == i.op0 {
        assert r.adj[x] == h.adj[x] + cs;
      } else if x in cs {
        assert r.adj[x] == h.adj[x] + {i.op0};
      } else {
        assert r.adj[x] == h.adj[x];
      }
    }
  }

  /**
   * What the second loop adds: after it, `y` neighbours `x` exactly when it
   * did before or some instruction defines one of them while the other is
   * a node live after it.
   */
  lemma {:induction false} EdgesMeaning(h: Graph, code: seq<Instr>, outs: seq<Option<set<Temp>>>, x: Temp, y: Temp)
    requires h.adj.Keys == h.deg.Keys && |outs| == |code| && Edges(h, code, outs).Success? && x in h.adj
    ensures y in Edges(h, code, outs).value.adj[x] <==>
      y in h.adj[x] || exists k :: 0 <= k < |code| && Joins(code[k], outs[k], h.nodes, x, y)
    decreases |code|
  {
    if code != [] {
      var h1 := EdgeStep(h, code[0], outs[0]).value;
      EdgeStepMeaning(h, code[0], outs[0], x, y);
      EdgesMeaning(h1, code[1..], outs[1..], x, y);
      var later := exists k :: 0 <= k < |code| - 1 && Joins(code[1..][k], outs[1..][k], h.nodes, x, y);
      var any := exists k :: 0 <= k < |code| && Joins(code[k], outs[k], h.nodes, x, y);
      if later {
        var k :| 0 <= k < |code| - 1 && Joins(code[1..][k], outs[1..][k], h.nodes, x, y);
        assert Joins(code[k + 1], outs[k + 1], h.nodes, x, y);
      }
      if any && !Joins(code[0], outs[0], h.nodes, x, y) {
        var k :| 0 <= k < |code| && Joins(code[k], outs[k], h.nodes, x, y);
        assert k != 0 && code[1..][k - 1] == code[k] && outs[1..][k - 1] == outs[k];
      }
    }
  }

  /** The second loop keeps the construction's shape. */
  lemma {:induction false} EdgesShaped(h: Graph, code: seq<Instr>, outs: seq<Option<set<Temp>>>)
    requires Shaped(h) && |outs| == |code| && Edges(h, code, outs).Success?
    ensures Shaped(Edges(h, code, outs).value)
    decreases |code|
  {
    if code != [] {
      var cs := Conflicts(code[0], outs[0], h.nodes);
      var h1 := EdgeStep(h, code[0], outs[0]).value;
      if cs != {} {
        StarShaped(h, code[0].op0, cs, h1);
      }
      EdgesShaped(h1, code[1..], outs[1..]);
    }
  }

  /**
   * makeEdges on the isolated graph `g` makeNodes leaves: a live-on-entry
   * pair that is not two graph temps throws, and otherwise the clique of
   * live-on-entry temps, then the definition conflicts in list order.
   */
  function Joined(g: Graph, live: set<Temp>, code: seq<Instr>, outs: seq<Option<set<Temp>>>): Result<Graph, Fault>
    requires g.adj.Keys == g.deg.Keys && |outs| == |code|
  {
    if CliqueFault(g.adj.Keys, live) then Failure(NullDereference)
    else Edges(Clique(g, live), code, outs)
  }

  /**
   * makeGraph from a cleared graph: a branch or return anywhere throws, a
   * live-on-entry pair that is not two graph temps throws, and otherwise the
   * nodes, the live-on-entry clique and the definition conflicts, in that
   * order.
   */
  function Build(live: set<Temp>, code: seq<Instr>, outs: seq<Option<set<Temp>>>, skip: set<Temp>): (r: Result<Graph, Fault>)
    requires WellFormedCode(code) && |outs| == |code|
  {
    if HasBlockEnd(code) then Failure(IllegalOpcode)
    else Joined(Nodes(live, code, skip), live, code, outs)
  }

  /**
   * A built graph is ready for colouring: the nodes are the candidates not
   * bound to the frame pointer, adjacency is symmetric without self-loops,
   * and each counter covers the node's neighbours.
   */
  lemma BuildShaped(live: set<Temp>, code: seq<Instr>, outs: seq<Option<set<Temp>>>, skip: set<Temp>)
    requires WellFormedCode(code) && |outs| == |code| && Build(live, code, outs, skip).Success?
    ensures var r := Build(live, code, outs, skip).value;
      && r.nodes == Nodes(live, code, skip).nodes
      && Shaped(r) && Keyed(r) && Covered(r)
  {
    var g := Nodes(live, code, skip);
    NodesMeaning(live, code, skip);
    var c := Clique(g, live);
    CliqueShaped(g, live, c);
    EdgesShaped(c, code, outs);
    ShapedCovered(Build(live, code, outs, skip).value);
  }

  /**
   * The interference relation of a built graph: two temps are neighbours
   * exactly when they are distinct live-on-entry temps, or one is the result
   * of an instruction and the other a node live after it.
   */
  lemma BuildMeaning(live: set<Temp>, code: seq<Instr>, outs: seq<Option<set<Temp>>>, skip: set<Temp>, x: Temp, y: Temp)
    requires WellFormedCode(code) && |outs| == |code| && Build(live, code, outs, skip).Success?
    requires x in Build(live, code, outs, skip).value.adj
    ensures var g := Nodes(live, code, skip);
      y in Build(live, code, outs, skip).value.adj[x] <==>
        (x in live && y in live && x != y) || exists k :: 0 <= k < |code| && Joins(code[k], outs[k], g.nodes, x, y)
  {
    var g := Nodes(live, code, skip);
    var c := Clique(g, live);
    EdgesMeaning(c, code, outs, x, y);
    CliqueMeaning(g, live, c, x, y);
  }

  // ---------------------------------------------------------------------------
  // Repeated addEdge calls inflate the counters

  /**
   * `a = 4; b = 4; a = a + b; c = a + b; parm c`: at most two temps are live
   * at once, but both the first and the third instruction join `a` and `b`.
   */
  function InflatingBlock(a: Temp, b: Temp, c: Temp): seq<Instr> {
    [Instr(LoadImm4, a, null, null, 0), Instr(LoadImm4, b, null, null, 1),
     Instr(Add, a, a, b, 2), Instr(Add, c, a, b, 3), Instr(Parm, c, null, null, 4)]
  }

  /** The live-out annotations of `InflatingBlock` with nothing live at exit. */
  function InflatingOuts(a: Temp, b: Temp, c: Temp): seq<Option<set<Temp>>> {
    [Some({a}), Some({a, b}), Some({a, b}), Some({c}), Some({})]
  }

  /** The block's nodes, `a`, `b` and `c`, with `a` and `b` joined and each counter `da`, `db`. */
  function Pair3(a: Temp, b: Temp, c: Temp, joined: bool, da: int, db: int): Graph {
    Graph({a, b, c},
      map[a := if joined then {b} else {}, b := if joined then {a} else {}, c := {}],
      map[a := da, b := db, c := 0])
  }

  lemma InflatingWellFormed(a: Temp, b: Temp, c: Temp)
    ensures WellFormedCode(InflatingBlock(a, b, c))
  {
    var code := InflatingBlock(a, b, c);
    forall k | 0 <= k < 5 ensures WellFormed(code[k]) { }
  }

  /** What is live after each of the last three instructions of `InflatingBlock`. */
  lemma InflatingLateLiveness(a: Temp, b: Temp, c: Temp)
    requires a != b && b != c && a != c && WellFormedCode(InflatingBlock(a, b, c))
    ensures Liveness.LiveOutAt(InflatingBlock(a, b, c), {}, 2) == {a, b}
    ensures Liveness.LiveOutAt(InflatingBlock(a, b, c), {}, 3) == {c}
    ensures Liveness.LiveOutAt(InflatingBlock(a, b, c), {}, 4) == {}
  {
    var code := InflatingBlock(a, b, c);
    assert Liveness.LiveOutAt(code, {}, 4) == {};
    assert Liveness.Transfer(code[4], {}) == {c};
    assert Liveness.Transfer(code[3], {c}) == {a, b};
  }

  /** The annotations of `InflatingBlock` are its liveness from an empty exit, two temps at most, and nothing is live on entry. */
  lemma InflatingLiveness(a: Temp, b: Temp, c: Temp)
    requires a != b && b != c && a != c && WellFormedCode(InflatingBlock(a, b, c))
    ensures forall k :: 0 <= k < 5 ==>
      InflatingOuts(a, b, c)[k] == Some(Liveness.LiveOutAt(InflatingBlock(a, b, c), {}, k))
      && |InflatingOuts(a, b, c)[k].value| <= 2
    ensures Liveness.Transfer(InflatingBlock(a, b, c)[0], {a}) == {}
  {
    var code := InflatingBlock(a, b, c);
    InflatingLateLiveness(a, b, c);
    assert Liveness.Transfer(code[2], {a, b}) == {a, b};
    assert Liveness.Transfer(code[1], {a, b}) == {a};
    assert |{a, b}| == 2;
  }

  /** The operand slots of `InflatingBlock` are its three temps. */
  lemma InflatingOperands(a: Temp, b: Temp, c: Temp)
    requires a != b && b != c && a != c && WellFormedCode(InflatingBlock(a, b, c))
    ensures OperandsUpTo(InflatingBlock(a, b, c), 5) == {a, b, c}
  {
    var code := InflatingBlock(a, b, c);
    assert OperandsUpTo(code, 1) == {a};
    assert OperandsUpTo(code, 2) == {a, b};
    assert OperandsUpTo(code, 3) == {a, b};
    assert OperandsUpTo(code, 4) == {a, b, c};
  }

  /** makeNodes gives `InflatingBlock` three isolated nodes. */
  lemma InflatingNodes(a: Temp, b: Temp, c: Temp)
    requires a != b && b != c && a != c && WellFormedCode(InflatingBlock(a, b, c))
    ensures Nodes({}, InflatingBlock(a, b, c), {}) == Pair3(a, b, c, false, 0, 0)
  {
    var code := InflatingBlock(a, b, c);
    var ts: set<Temp> := {} + OperandsUpTo(code, |code|);
    InflatingOperands(a, b, c);
    assert ts == {a, b, c};
    var g0 := WithNodes(Empty, ts, {});
    WithNodesIsolated(ts, {});
    assert g0.adj.Keys == {a, b, c} by {
      WithNodesShaped(Empty, ts, {});
    }
    SameGraph(g0, Pair3(a, b, c, false, 0, 0));
  }

  /** `b = 4` with `a` live after it joins `b` to `a`. */
  lemma InflatingFirstJoin(a: Temp, b: Temp, c: Temp)
    requires a != b && b != c && a != c
    ensures EdgeStep(Pair3(a, b, c, false, 0, 0), Instr(LoadImm4, b, null, null, 1), Some({a, b}))
      == Success(Pair3(a, b, c, true, 1, 1))
  {
    var g0, g1 := Pair3(a, b, c, false, 0, 0), Pair3(a, b, c, true, 1, 1);
    var i := Instr(LoadImm4, b, null, null, 1);
    assert i.opc.Defines() && !i.opc.EndsBlock();
    assert ({a, b} * g0.nodes) - {b} == {a};
    assert Conflicts(i, Some({a, b}), g0.nodes) == {a};
    assert |{a}| == 1;
    assert StarAdj(g0.adj, b, {a}, g1.adj);
    assert StarDeg(g0.deg, b, {a}, g1.deg);
    StarUnique(g0, b, {a}, Star(g0, b, {a}), g1);
  }

  /** `a = a + b` with `b` live after it joins `a` to `b` a second time. */
  lemma InflatingSecondJoin(a: Temp, b: Temp, c: Temp)
    requires a != b && b != c && a != c
    ensures EdgeStep(Pair3(a, b, c, true, 1, 1), Instr(Add, a, a, b, 2), Some({a, b}))
      == Success(Pair3(a, b, c, true, 2, 2))
  {
    var g1, g2 := Pair3(a, b, c, true, 1, 1), Pair3(a, b, c, true, 2, 2);
    var i := Instr(Add, a, a, b, 2);
    assert i.opc.Defines() && !i.opc.EndsBlock();
    assert ({a, b} * g1.nodes) - {a} == {b};
    assert Conflicts(i, Some({a, b}), g1.nodes) == {b};
    assert |{b}| == 1;
    assert StarAdj(g1.adj, a, {b}, g2.adj);
    assert StarDeg(g1.deg, a, {b}, g2.deg);
    StarUnique(g1, a, {b}, Star(g1, a, {b}), g2);
  }

  /** `c = a + b` and `parm c` join nothing: nothing but `c` is live after the first. */
  lemma InflatingTail(a: Temp, b: Temp, c: Temp)
    requires a != b && b != c && a != c
    ensures Edges(Pair3(a, b, c, true, 2, 2), InflatingBlock(a, b, c)[3..], InflatingOuts(a, b, c)[3..])
      == Success(Pair3(a, b, c, true, 2, 2))
  {
    var g2 := Pair3(a, b, c, true, 2, 2);
    var code: seq<Instr> := InflatingBlock(a, b, c)[3..];
    var outs: seq<Option<set<Temp>>> := InflatingOuts(a, b, c)[3..];
    assert code == [Instr(Add, c, a, b, 3), Instr(Parm, c, null, null, 4)] && outs == [Some({c}), Some({})];
    assert Conflicts(code[0], outs[0], g2.nodes) == {};
    assert Conflicts(code[1], outs[1], g2.nodes) == {};
    assert EdgeStep(g2, code[0], outs[0]) == Success(g2) && EdgeStep(g2, code[1], outs[1]) == Success(g2);
    assert Edges(g2, code[1..], outs[1..]) == Success(g2) by {
      assert code[1..][0] == code[1] && outs[1..][0] == outs[1];
      assert |code[1..][1..]| == 0;
    }
  }

  /** From `a = a + b` on, the second loop joins `a` and `b` again. */
  lemma InflatingFromSecond(a: Temp, b: Temp, c: Temp)
    requires a != b && b != c && a != c
    ensures Edges(Pair3(a, b, c, true, 1, 1), InflatingBlock(a, b, c)[2..], InflatingOuts(a, b, c)[2..])
      == Success(Pair3(a, b, c, true, 2, 2))
  {
    var code: seq<Instr> := InflatingBlock(a, b, c);
    var outs: seq<Option<set<Temp>>> := InflatingOuts(a, b, c);
    InflatingSecondJoin(a, b, c);
    InflatingTail(a, b, c);
    assert code[2..][0] == Instr(Add, a, a, b, 2) && outs[2..][0] == Some({a, b});
    assert code[2..][1..] == code[3..] && outs[2..][1..] == outs[3..];
  }

  /** The second loop over `InflatingBlock` joins `a` and `b` twice. */
  lemma InflatingEdges(a: Temp, b: Temp, c: Temp)
    requires a != b && b != c && a != c
    ensures Edges(Pair3(a, b, c, false, 0, 0), InflatingBlock(a, b, c), InflatingOuts(a, b, c))
      == Success(Pair3(a, b, c, true, 2, 2))
  {
    var code: seq<Instr> := InflatingBlock(a, b, c);
    var outs: seq<Option<set<Temp>>> := InflatingOuts(a, b, c);
    var g0 := Pair3(a, b, c, false, 0, 0);
    InflatingFirstJoin(a, b, c);
    InflatingFromSecond(a, b, c);
    assert Conflicts(code[0], outs[0], g0.nodes) == {};
    assert code[1..][0] == Instr(LoadImm4, b, null, null, 1) && outs[1..][0] == Some({a, b});
    assert code[1..][1..] == code[2..] && outs[1..][1..] == outs[2..];
  }

  /** makeGraph over `InflatingBlock` gives `a` and `b` one neighbour each and a counter of 2. */
  lemma InflatingBuild(a: Temp, b: Temp, c: Temp)
    requires a != b && b != c && a != c && WellFormedCode(InflatingBlock(a, b, c))
    ensures Build({}, InflatingBlock(a, b, c), InflatingOuts(a, b, c), {}) == Success(Pair3(a, b, c, true, 2, 2))
  {
    var code := InflatingBlock(a, b, c);
    assert !HasBlockEnd(code) by {
      forall k | 0 <= k < 5 ensures !code[k].opc.EndsBlock() { }
    }
    var g0 := Nodes({}, code, {});
    InflatingNodes(a, b, c);
    assert !CliqueFault(g0.adj.Keys, {});
    assert Clique(g0, {}) == g0 by {
      SameGraph(Clique(g0, {}), g0);
    }
    InflatingEdges(a, b, c);
  }

  /** Once `c` is set aside, `a` and `b` keep counters of 2 with one neighbour each. */
  lemma InflatingStuck(a: Temp, b: Temp, c: Temp)
    requires a != b && b != c && a != c
    ensures var r := WithoutNode(Pair3(a, b, c, true, 2, 2), c);
      r.nodes == {a, b} && forall x :: x in r.nodes ==> |r.adj[x]| == 1 && r.deg[x] == 2
  {
    assert |{a}| == 1 && |{b}| == 1;
  }

  /**
   * makeEdges' second loop calls addEdge for a pair that is already
   * adjacent, and addEdge counts every call. In `InflatingBlock` no more than
   * two temps are live at once, yet `a` and `b` each have one neighbour and a
   * counter of 2, so with two registers colouring can set aside only `c` and
   * then finds no node with a counter below 2.
   */
  lemma InflatedCounters(a: Temp, b: Temp, c: Temp)
    requires a != b && b != c && a != c
    ensures WellFormedCode(InflatingBlock(a, b, c))
    ensures forall k :: 0 <= k < 5 ==>
      InflatingOuts(a, b, c)[k] == Some(Liveness.LiveOutAt(InflatingBlock(a, b, c), {}, k))
      && |InflatingOuts(a, b, c)[k].value| <= 2
    ensures Build({}, InflatingBlock(a, b, c), InflatingOuts(a, b, c), {}) == Success(Pair3(a, b, c, true, 2, 2))
    ensures var r := WithoutNode(Pair3(a, b, c, true, 2, 2), c);
      r.nodes == {a, b} && forall x :: x in r.nodes ==> |r.adj[x]| == 1 && r.deg[x] == 2
  {
    InflatingWellFormed(a, b, c);
    InflatingLiveness(a, b, c);
    InflatingBuild(a, b, c);
    InflatingStuck(a, b, c);
  }
}
