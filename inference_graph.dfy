/**
 * The per-block register allocator: an interference graph over the temps of
 * one basic block, built from the block's liveness annotations and coloured
 * with K = |regs| registers by repeatedly setting aside a node with fewer
 * than K neighbours (Kempe simplification, no spilling).
 */
module Backend {
  import opened Wrappers
  import opened Tac
  import opened Graphs
  import opened Construction
  import BasicBlocks

  /** The registers the temps of `ms` hold. */
  ghost function HeldBy(ms: set<Temp>): set<Register>
    reads ms
  {
    set m | m in ms && m.reg.Some? :: m.reg.value
  }

  /** The temps of `ms` that hold a register. */
  ghost function Coloured(ms: set<Temp>): set<Temp>
    reads ms
  {
    set m | m in ms && m.reg.Some?
  }

  /** No more registers are held than there are temps holding one. */
  lemma {:induction false} HeldCount(ms: set<Temp>)
    ensures |HeldBy(ms)| <= |Coloured(ms)|
    decreases ms
  {
    if ms == {} {
      assert HeldBy(ms) == {};
    } else {
      var m :| m in ms;
      HeldCount(ms - {m});
      if m.reg.Some? {
        assert HeldBy(ms) == HeldBy(ms - {m}) + {m.reg.value};
        assert Coloured(ms) == Coloured(ms - {m}) + {m};
        OneMore(HeldBy(ms - {m}), m.reg.value);
      } else {
        assert HeldBy(ms) == HeldBy(ms - {m});
        assert Coloured(ms) == Coloured(ms - {m});
      }
    }
  }

  /**
   * A node with fewer than `k` counted neighbours, whose neighbours hold
   * registers only among `rest`, sees fewer than `k` registers held.
   */
  lemma HeldFewer(adj: set<Temp>, rest: set<Temp>, nodes: set<Temp>, k: int)
    requires forall m {:trigger m in adj} :: m in adj && m.reg.Some? ==> m in rest
    requires rest <= nodes && |adj * nodes| < k
    ensures |HeldBy(adj)| < k
  {
    HeldCount(adj);
    SubsetCard(Coloured(adj), adj * nodes);
  }

  /** The temps of `ts` that addNode turns away because they already hold the frame pointer. */
  ghost function FpBound(ts: set<Temp>, fp: Option<Register>): set<Temp>
    reads ts
  {
    set t | t in ts && t.reg.Some? && t.reg == fp
  }

  /** The temps makeNodes offers to addNode for block `b`. */
  ghost function Candidates(b: BasicBlocks.BasicBlock): set<Temp>
    requires WellFormedCode(b.Code())
    reads b, b.tacs
  {
    b.liveUse + OperandsUpTo(b.Code(), |b.Code()|)
  }

  /** What makeGraph builds for block `b` with frame pointer `fp`, from a cleared graph. */
  ghost function Planned(b: BasicBlocks.BasicBlock, fp: Option<Register>): Result<Graph, Fault>
    requires WellFormedCode(b.Code())
    reads b, b.tacs, Candidates(b)
  {
    Build(b.liveUse, b.Code(), LiveOuts(b.tacs), FpBound(Candidates(b), fp))
  }

  class InferenceGraph {
    var nodes: set<Temp>
    var neighbours: map<Temp, set<Temp>>
    var nodeDeg: map<Temp, int>
    var bb: BasicBlocks.BasicBlock?
    var regs: seq<Register>
    var fp: Option<Register>

    /** The graph the three containers hold. */
    ghost function State(): Graph
      reads this`nodes, this`neighbours, this`nodeDeg
    {
      Graph(nodes, neighbours, nodeDeg)
    }

    /** `t` already holds the frame pointer register. */
    predicate OnFp(t: Temp)
      reads this`fp, t`reg
    {
      t.reg.Some? && t.reg == fp
    }

    /** No two neighbours among `ts` that hold a register hold the same one. */
    ghost predicate Proper(ts: set<Temp>)
      reads this`neighbours, ts`reg
    {
      forall x, y {:trigger y in neighbours[x], x in ts} :: x in ts && y in ts && x in neighbours && y in neighbours[x] && x.reg.Some? ==> x.reg != y.reg
    }

    /** Every temp of `ts` that holds a register holds one of `regs`. */
    ghost predicate FromRegs(ts: set<Temp>)
      reads this`regs, ts`reg
    {
      forall t {:trigger t in ts} :: t in ts && t.reg.Some? ==> t.reg.value in regs
    }

    /** Every temp of `ts` holds a register. */
    ghost predicate AllColoured(ts: set<Temp>)
      reads ts`reg
    {
      forall t {:trigger t in ts} :: t in ts ==> t.reg.Some?
    }

    /** No temp of the graph holds a register yet. */
    ghost predicate Uncoloured()
      reads this`neighbours, neighbours.Keys`reg
    {
      forall t {:trigger t in neighbours} :: t in neighbours ==> t.reg.None?
    }

    constructor ()
      ensures State() == Empty && bb == null && regs == [] && fp == None
    {
      nodes, neighbours, nodeDeg := {}, map[], map[];
      bb, regs, fp := null, [], None;
    }

    method Clear()
      modifies this`nodes, this`neighbours, this`nodeDeg
      ensures State() == Empty
    {
      nodes := {};
      neighbours := map[];
      nodeDeg := map[];
    }

    method AddNode(node: Temp)
      modifies this`nodes, this`neighbours, this`nodeDeg
      ensures State() == WithNode(old(State()), node, OnFp(node))
    {
      if node in nodes {
        return;
      }
      if node.reg.Some? && node.reg == fp {
        return;
      }
      nodes := nodes + {node};
      neighbours := neighbours[node := {}];
      nodeDeg := nodeDeg[node := 0];
    }

    /** Java dereferences `n`'s neighbour set and the counters of the neighbours still to colour. */
    method RemoveNode(n: Temp)
      requires n in neighbours && nodes <= nodeDeg.Keys
      modifies this`nodes, this`nodeDeg
      ensures State() == WithoutNode(old(State()), n)
    {
      nodes := nodes - {n};
      var todo := neighbours[n];
      ghost var done: set<Temp> := {};
      DecrementNone(nodeDeg);
      while todo != {}
        invariant nodes == old(nodes) - {n}
        invariant todo + done == neighbours[n] && todo !! done
        invariant nodeDeg == Decrement(old(nodeDeg), done * nodes)
        decreases todo
      {
        var m :| m in todo;
        if m in nodes {
          DecrementStep(old(nodeDeg), done * nodes, m);
          nodeDeg := nodeDeg[m := nodeDeg[m] - 1];
          assert (done + {m}) * nodes == done * nodes + {m};
        } else {
          assert (done + {m}) * nodes == done * nodes;
        }
        todo, done := todo - {m}, done + {m};
      }
    }

    /** Java dereferences both neighbour sets and both counters; it does not check for an existing edge. */
    method AddEdge(a: Temp, b: Temp)
      requires a in neighbours && b in neighbours && a in nodeDeg && b in nodeDeg
      modifies this`neighbours, this`nodeDeg
      ensures State() == WithEdge(old(State()), a, b)
    {
      neighbours := neighbours[a := neighbours[a] + {b}];
      neighbours := neighbours[b := neighbours[b] + {a}];
      nodeDeg := nodeDeg[a := nodeDeg[a] + 1];
      nodeDeg := nodeDeg[b := nodeDeg[b] + 1];
    }

    /** color's search: some node with fewer than K counted neighbours, or null when there is none. */
    method LowDegreeNode() returns (n: Temp?)
      requires nodes <= nodeDeg.Keys
      ensures n != null ==> n in nodes && nodeDeg[n] < |regs|
      ensures n == null ==> forall t :: t in nodes ==> nodeDeg[t] >= |regs|
    {
      var todo := nodes;
      while todo != {}
        invariant todo <= nodes
        invariant forall t :: t in nodes - todo ==> nodeDeg[t] >= |regs|
        decreases todo
      {
        var t :| t in todo;
        if nodeDeg[t] < |regs| {
          return t;
        }
        todo := todo - {t};
      }
      return null;
    }

    /** The first register of `regs` that no neighbour of `n` holds. */
    method ChooseAvailableRegister(n: Temp) returns (r: Option<Register>)
      requires n in neighbours
      ensures r == FirstFree(regs, HeldBy(neighbours[n]))
    {
      var usedRegs: set<Register> := {};
      var todo := neighbours[n];
      ghost var done: set<Temp> := {};
      while todo != {}
        invariant todo + done == neighbours[n] && todo !! done
        invariant usedRegs == HeldBy(done)
        decreases todo
      {
        var m :| m in todo;
        if m.reg.Some? {
          usedRegs := usedRegs + {m.reg.value};
        }
        assert HeldBy(done + {m}) == HeldBy(done) + (if m.reg.Some? then {m.reg.value} else {});
        todo, done := todo - {m}, done + {m};
      }
      var i := 0;
      while i < |regs|
        invariant 0 <= i <= |regs|
        invariant forall j :: 0 <= j < i ==> regs[j] in usedRegs
      {
        if regs[i] !in usedRegs {
          FirstFreeAt(regs, usedRegs, i);
          return Some(regs[i]);
        }
        i := i + 1;
      }
      return None;
    }

    /** The first free register is the one at the first index not in `used`. */
    static lemma FirstFreeAt(regs: seq<Register>, used: set<Register>, i: int)
      requires 0 <= i < |regs| && regs[i] !in used && forall j :: 0 <= j < i ==> regs[j] in used
      ensures FirstFree(regs, used) == Some(regs[i])
    {
      var r := FirstFree(regs, used);
      assert r.Some?;
      var i' :| 0 <= i' < |regs| && regs[i'] == r.value && forall j :: 0 <= j < i' ==> regs[j] in used;
    }

    /**
     * color's last step for `n`: take the first register no neighbour holds.
     * Over the nodes `ts` that `n` completes, this keeps colours apart
     * across edges (with symmetric adjacency), keeps them drawn from `regs`,
     * and colours `n` whenever its neighbours hold fewer than K distinct
     * registers.
     */
    method AssignRegister(n: Temp, ghost ts: set<Temp>)
      requires n in neighbours && n in ts
      modifies n`reg
      ensures n.reg == FirstFree(regs, old(HeldBy(neighbours[n])))
      ensures old(Symmetric(neighbours) && Proper(ts - {n})) ==> Proper(ts)
      ensures old(FromRegs(ts - {n})) ==> FromRegs(ts)
      ensures old(AllColoured(ts - {n})) && DistinctRegs(regs) && old(|HeldBy(neighbours[n])|) < |regs| ==> AllColoured(ts)
    {
      ghost var rest := ts - {n};
      ghost var free := DistinctRegs(regs) && |HeldBy(neighbours[n])| < |regs|;
      if free {
        FreeRegister(regs, HeldBy(neighbours[n]));
      }
      var reg := ChooseAvailableRegister(n);
      label Chosen:
      n.reg := reg;
      if old(Symmetric(neighbours) && Proper(rest)) {
        assert Proper(rest);
        forall x, y | x in ts && y in ts && x in neighbours && y in neighbours[x] && x.reg.Some?
          ensures x.reg != y.reg
        {
          if x == n {
            assert y != n && y.reg == old@Chosen(y.reg);
            if y.reg.Some? {
              assert y.reg.value in old@Chosen(HeldBy(neighbours[n]));
            }
          } else if y == n {
            assert x in neighbours[n] && x.reg == old@Chosen(x.reg);
            assert x.reg.value in old@Chosen(HeldBy(neighbours[n]));
          } else {
            assert x in rest && y in rest;
          }
        }
      }
      if old(FromRegs(rest)) {
        assert FromRegs(rest);
        forall t | t in ts && t.reg.Some? ensures t.reg.value in regs {
          if t != n {
            assert t in rest;
          }
        }
      }
      if old(AllColoured(rest)) && free {
        assert AllColoured(rest) && n.reg.Some?;
        forall t | t in ts ensures t.reg.Some? {
          if t != n {
            assert t in rest;
          }
        }
      }
    }

    /**
     * Kempe simplification: while nodes remain, set aside one with fewer
     * than K counted neighbours, colour the rest, then give it the first
     * register its neighbours leave free; with none left below K it throws.
     * It returns true whenever it returns. Colours never clash across an
     * edge, every colour comes from `regs`, and on a graph whose counters
     * cover the neighbours still to colour, with K distinct registers and no
     * temp coloured yet, every node gets a register.
     */
    method Color() returns (r: Result<bool, Fault>)
      requires Keyed(State())
      modifies this`nodes, this`nodeDeg, nodes`reg
      ensures r.Success? ==> r.value && nodes == {}
      ensures r.Failure? ==> && r.error == SpillUnsupported && nodes != {} && nodes <= old(nodes) && Keyed(State())
                             && forall t :: t in nodes ==> nodeDeg[t] >= |regs|
      ensures r.Success? ==> FromRegs(old(nodes))
      ensures r.Success? && old(Symmetric(neighbours)) ==> Proper(old(nodes))
      ensures r.Success? && old(Symmetric(neighbours) && Covered(State()) && Uncoloured()) && DistinctRegs(regs) ==>
        AllColoured(old(nodes))
      decreases |nodes|
    {
      if nodes == {} {
        return Success(true);
      }
      var n := LowDegreeNode();
      if n == null {
        return Failure(SpillUnsupported);
      }
      ghost var g0 := State();
      assert g0.nodes == old(nodes);
      ghost var ready := old(Symmetric(neighbours) && Covered(State()) && Uncoloured()) && DistinctRegs(regs);
      if ready {
        assert CoveredAt(g0, n);
        WithoutNodeCovered(g0, n);
      }
      RemoveNode(n);
      if ready {
        assert Symmetric(neighbours) && Covered(State()) && Uncoloured();
      }
      var sub := Color();
      if sub.Failure? {
        return sub;
      }
      if ready {
        forall m | m in neighbours[n] && m.reg.Some? ensures m in g0.nodes - {n} {
          if m !in g0.nodes {
            assert old(m.reg).None?;
          }
        }
        HeldFewer(neighbours[n], g0.nodes - {n}, g0.nodes, |regs|);
      }
      AssignRegister(n, g0.nodes);
      if ready {
        assert AllColoured(g0.nodes);
      }
      return sub;
    }

    /** addNode on one candidate, which joins the candidates offered so far. */
    method Offer(t: Temp, ghost base: Graph, ghost before: set<Temp>, ghost skip: set<Temp>)
      requires base.adj.Keys == base.deg.Keys && State() == WithNodes(base, before, skip)
      requires t in skip <==> OnFp(t)
      modifies this`nodes, this`neighbours, this`nodeDeg
      ensures State() == WithNodes(base, before + {t}, skip)
    {
      WithNodesStep(base, before, skip, t);
      AddNode(t);
    }

    /**
     * makeNodes' switch for one instruction that does not end the block: the
     * operand slots of its opcode are offered to addNode, in the order Java
     * offers them.
     */
    method AddOperands(tac: Tac, ghost base: Graph, ghost before: set<Temp>, ghost skip: set<Temp>)
      requires WellFormed(tac.View()) && !tac.opc.EndsBlock()
      requires base.adj.Keys == base.deg.Keys && State() == WithNodes(base, before, skip)
      requires forall t :: t in NodeOperands(tac.View()) ==> (t in skip <==> OnFp(t))
      modifies this`nodes, this`neighbours, this`nodeDeg
      ensures State() == WithNodes(base, before + NodeOperands(tac.View()), skip)
    {
      var opc := tac.opc;
      ghost var ops := NodeOperands(tac.View());
      if opc.IsBinary() {
        Offer(tac.op0, base, before, skip);
        Offer(tac.op1, base, before + {tac.op0}, skip);
        Offer(tac.op2, base, before + {tac.op0} + {tac.op1}, skip);
        assert before + {tac.op0} + {tac.op1} + {tac.op2} == before + ops;
      } else if opc.Neg? || opc.LNot? || opc.Assign? {
        Offer(tac.op0, base, before, skip);
        Offer(tac.op1, base, before + {tac.op0}, skip);
        assert before + {tac.op0} + {tac.op1} == before + ops;
      } else if opc.LoadVtbl? || opc.LoadImm4? || opc.LoadStrConst? {
        Offer(tac.op0, base, before, skip);
      } else if opc.IndirectCall? || opc.DirectCall? {
        ghost var acc := before;
        if opc.IndirectCall? {
          Offer(tac.op1, base, before, skip);
          acc := before + {tac.op1};
        }
        if tac.op0 != null {
          Offer(tac.op0, base, acc, skip);
          acc := acc + {tac.op0};
        }
        assert acc == before + ops;
      } else if opc.Parm? {
        Offer(tac.op0, base, before, skip);
      } else if opc.Load? || opc.Store? {
        Offer(tac.op0, base, before, skip);
        Offer(tac.op1, base, before + {tac.op0}, skip);
        assert before + {tac.op0} + {tac.op1} == before + ops;
      } else {
        assert before + ops == before;
      }
    }

    /** makeNodes' first loop: each live-on-entry temp offered to addNode. */
    method OfferLiveUse(ghost skip: set<Temp>)
      requires bb != null && neighbours.Keys == nodeDeg.Keys
      requires forall t :: t in bb.liveUse ==> (t in skip <==> OnFp(t))
      modifies this`nodes, this`neighbours, this`nodeDeg
      ensures State() == WithNodes(old(State()), bb.liveUse, skip)
    {
      ghost var g0 := State();
      var todo := bb.liveUse;
      ghost var done: set<Temp> := {};
      WithNodesNone(g0, skip);
      while todo != {}
        invariant todo + done == bb.liveUse && todo !! done
        invariant State() == WithNodes(g0, done, skip)
        decreases todo
      {
        var t :| t in todo;
        Offer(t, g0, done, skip);
        todo, done := todo - {t}, done + {t};
      }
    }

    /** One instruction of makeNodes' second loop, which does not end the block. */
    method OfferAt(ghost code: seq<Instr>, ghost k: int, tac: Tac, ghost g0: Graph, ghost live: set<Temp>, ghost skip: set<Temp>, ghost before: set<Temp>)
      returns (ghost after: set<Temp>)
      requires WellFormedCode(code) && 0 <= k < |code| && tac.View() == code[k] && !tac.opc.EndsBlock()
      requires g0.adj.Keys == g0.deg.Keys && State() == WithNodes(g0, before, skip) && before == live + OperandsUpTo(code, k)
      requires forall j, t :: 0 <= j < |code| && t in NodeOperands(code[j]) ==> (t in skip <==> OnFp(t))
      modifies this`nodes, this`neighbours, this`nodeDeg
      ensures State() == WithNodes(g0, after, skip) && after == live + OperandsUpTo(code, k + 1)
    {
      assert forall t :: t in NodeOperands(tac.View()) ==> (t in skip <==> OnFp(t));
      AddOperands(tac, g0, before, skip);
      after := before + NodeOperands(code[k]);
      assert after == live + OperandsUpTo(code, k + 1);
    }

    /** makeNodes' second loop: the operands of each instruction in list order; a branch or return throws. */
    method OfferCode(ghost code: seq<Instr>, ghost g0: Graph, ghost skip: set<Temp>) returns (r: Outcome<Fault>)
      requires bb != null && bb.NextLinked() && bb.tacList == (if bb.tacs == [] then null else bb.tacs[0])
      requires code == bb.Code() && WellFormedCode(code) && g0.adj.Keys == g0.deg.Keys
      requires State() == WithNodes(g0, bb.liveUse, skip)
      requires forall j, t :: 0 <= j < |code| && t in NodeOperands(code[j]) ==> (t in skip <==> OnFp(t))
      modifies this`nodes, this`neighbours, this`nodeDeg
      ensures r.Fail? <==> HasBlockEnd(code)
      ensures r.Fail? ==> r.error == IllegalOpcode
      ensures r.Pass? ==> State() == WithNodes(g0, bb.liveUse + OperandsUpTo(code, |code|), skip)
    {
      ghost var ts, k, live, offered := bb.tacs, 0, bb.liveUse, bb.liveUse;
      assert offered == live + OperandsUpTo(code, 0);
      var tac := bb.tacList;
      while tac != null
        invariant 0 <= k <= |ts| == |code|
        invariant tac == if k < |ts| then ts[k] else null
        invariant Linked(ts) && code == Snapshot(ts)
        invariant forall j :: 0 <= j < k ==> !code[j].opc.EndsBlock()
        invariant State() == WithNodes(g0, offered, skip) && offered == live + OperandsUpTo(code, k)
        decreases |ts| - k
      {
        assert tac.next == if k + 1 < |ts| then ts[k + 1] else null;
        assert tac.View() == code[k];
        if tac.opc.EndsBlock() {
          return Fail(IllegalOpcode);
        }
        assert forall j :: 0 <= j < k + 1 ==> !code[j].opc.EndsBlock();
        offered := OfferAt(code, k, tac, g0, live, skip, offered);
        tac := tac.next;
        k := k + 1;
      }
      return Pass;
    }

    /**
     * makeNodes: every live-on-entry temp, then the operands of each
     * instruction in list order, offered to addNode; a branch or return
     * throws. Without a throw, the nodes added are exactly the candidates
     * not already bound to the frame pointer.
     */
    method MakeNodes(ghost live: set<Temp>, ghost code: seq<Instr>, ghost skip: set<Temp>) returns (r: Outcome<Fault>)
      requires bb != null && bb.NextLinked() && bb.tacList == (if bb.tacs == [] then null else bb.tacs[0])
      requires live == bb.liveUse && code == bb.Code() && WellFormedCode(code) && skip == FpBound(Candidates(bb), fp)
      requires neighbours.Keys == nodeDeg.Keys
      modifies this`nodes, this`neighbours, this`nodeDeg
      ensures r.Fail? <==> HasBlockEnd(code)
      ensures r.Fail? ==> r.error == IllegalOpcode
      ensures r.Pass? ==> State() == WithNodes(old(State()), live + OperandsUpTo(code, |code|), skip)
    {
      ghost var g0, cands := State(), Candidates(bb);
      OfferLiveUse(skip);
      OperandsMeaning(code, |code|);
      forall j, t | 0 <= j < |code| && t in NodeOperands(code[j]) ensures t in skip <==> OnFp(t) {
        assert t in cands;
      }
      r := OfferCode(code, g0, skip);
    }

    /**
     * One pair `(a, b)` of makeEdges' first loop, in row `a` on the graph
     * `h` the row started from, where the columns of `todo` remain and `cs`
     * are the edges the row has added so far.
     */
    method JoinPair(a: Temp, b: Temp, ghost h: Graph, ghost live: set<Temp>, ghost rows: set<Temp>,
                    ghost todo: set<Temp>, ghost cs: set<Temp>) returns (r: Outcome<Fault>, ghost cs': set<Temp>)
      requires h.adj.Keys == h.deg.Keys && a in live && a !in rows && b in todo && todo <= live
      requires (a in h.adj ==> h.adj[a] == rows) && rows <= h.adj.Keys && cs <= h.adj.Keys
      requires forall x {:trigger x in cs} :: x in cs <==> x in live && x !in todo && x != a && x !in rows
      requires IsStar(h, a, cs, State()) && neighbours.Keys == nodeDeg.Keys
      modifies this`neighbours, this`nodeDeg
      ensures r.Fail? ==> r.error == NullDereference && CliqueFault(h.adj.Keys, live)
      ensures r.Pass? ==> forall x {:trigger x in cs'} :: x in cs' <==> x in live && x !in todo - {b} && x != a && x !in rows
      ensures r.Pass? ==> IsStar(h, a, cs', State()) && cs' <= h.adj.Keys
      ensures r.Pass? && a != b ==> a in h.adj && b in h.adj
    {
      cs' := cs;
      if a != b {
        if a !in neighbours {
          return Fail(NullDereference), cs';
        }
        assert neighbours[a] == rows + cs;
        if b !in neighbours[a] {
          if b !in neighbours {
            return Fail(NullDereference), cs';
          }
          StarStep(h, a, cs, b, State());
          AddEdge(a, b);
          cs' := cs + {b};
        }
      }
      return Pass, cs';
    }

    /**
     * One row of makeEdges' first loop: `a` against every live-on-entry `b`.
     * A distinct pair not yet adjacent gets an edge, so the row adds the
     * star from `a` to the temps of the rows still to come; a temp without
     * a neighbour set throws.
     */
    method JoinRow(a: Temp, ghost live: set<Temp>, ghost rows: set<Temp>) returns (r: Outcome<Fault>)
      requires bb != null && live == bb.liveUse && neighbours.Keys == nodeDeg.Keys
      requires a in live && a !in rows && (a in neighbours ==> neighbours[a] == rows) && rows <= neighbours.Keys
      modifies this`neighbours, this`nodeDeg
      ensures r.Fail? ==> r.error == NullDereference && CliqueFault(old(neighbours.Keys), live)
      ensures r.Pass? ==> IsStar(old(State()), a, (live - {a}) - rows, State())
      ensures r.Pass? ==> forall y {:trigger y in live} :: y in live && y != a ==> a in old(neighbours) && y in old(neighbours)
    {
      ghost var h := State();
      var todo := bb.liveUse;
      ghost var cs: set<Temp> := {};
      StarNone(h, a);
      while todo != {}
        invariant todo <= live
        invariant forall x {:trigger x in cs} :: x in cs <==> x in live && x !in todo && x != a && x !in rows
        invariant IsStar(h, a, cs, State()) && cs <= h.adj.Keys
        invariant forall y {:trigger y in live} :: y in live && y !in todo && y != a ==> a in h.adj && y in h.adj
        decreases todo
      {
        var b :| b in todo;
        r, cs := JoinPair(a, b, h, live, rows, todo, cs);
        if r.Fail? {
          return;
        }
        todo := todo - {b};
      }
      assert cs == (live - {a}) - rows;
      return Pass;
    }

    /**
     * makeEdges' first loop, from the isolated graph makeNodes leaves: every
     * two distinct live-on-entry temps become neighbours, and it throws
     * exactly when some such pair is not two graph temps.
     */
    method JoinLiveUse() returns (r: Outcome<Fault>)
      requires bb != null && Isolated(State()) && neighbours.Keys == nodeDeg.Keys
      modifies this`neighbours, this`nodeDeg
      ensures r.Fail? <==> CliqueFault(old(neighbours.Keys), bb.liveUse)
      ensures r.Fail? ==> r.error == NullDereference
      ensures r.Pass? ==> State() == Clique(old(State()), bb.liveUse)
    {
      ghost var g0, live := State(), bb.liveUse;
      var todo := bb.liveUse;
      ghost var rows: set<Temp> := {};
      CliqueNone(g0, live);
      while todo != {}
        invariant todo <= live && forall x {:trigger x in rows} :: x in rows <==> x in live && x !in todo
        invariant IsClique(g0, live, rows, State()) && neighbours.Keys == nodeDeg.Keys
        invariant forall x, y {:trigger x in rows, y in live} :: x in rows && y in live && x != y ==> x in g0.adj && y in g0.adj
        decreases todo
      {
        var a :| a in todo;
        ghost var h := State();
        assert (a in neighbours ==> neighbours[a] == rows) && rows <= neighbours.Keys;
        r := JoinRow(a, live, rows);
        if r.Fail? {
          return;
        }
        CliqueRow(g0, live, rows, a, h, State());
        todo, rows := todo - {a}, rows + {a};
      }
      assert rows == live;
      CliqueUnique(g0, live, live, State(), Clique(g0, live));
      return Pass;
    }

    /**
     * One live-out temp `out` of an instruction defining `d`, where those of
     * `todo` remain and `cs` are the edges added so far: another node is
     * joined to `d`, and addEdge throws when `d` has no neighbour set.
     */
    method JoinOut(d: Temp, out: Temp, ghost h: Graph, ghost outs: set<Temp>, ghost todo: set<Temp>, ghost cs: set<Temp>)
      returns (r: Outcome<Fault>, ghost cs': set<Temp>)
      requires h.nodes <= h.adj.Keys && out in todo && todo <= outs
      requires forall x {:trigger x in cs} :: x in cs <==> x in outs && x !in todo && x in h.nodes && x != d
      requires IsStar(h, d, cs, State()) && neighbours.Keys == nodeDeg.Keys && (cs != {} ==> d in h.adj)
      modifies this`neighbours, this`nodeDeg
      ensures r.Fail? ==> r.error == NullDereference && out in h.nodes && out != d && d !in h.adj
      ensures r.Pass? ==> forall x {:trigger x in cs'} :: x in cs' <==> x in outs && x !in todo - {out} && x in h.nodes && x != d
      ensures r.Pass? ==> IsStar(h, d, cs', State()) && (cs' != {} ==> d in h.adj)
    {
      cs' := cs;
      if out != d && out in nodes {
        if d !in neighbours {
          return Fail(NullDereference), cs';
        }
        StarStep(h, d, cs, out, State());
        AddEdge(d, out);
        cs' := cs + {out};
      }
      return Pass, cs';
    }

    /**
     * The loop of makeEdges' switch for a result `d` with live-out temps
     * `outs`: `d` is joined to every other node among them.
     */
    method JoinConflicts(d: Temp, outs: set<Temp>) returns (r: Outcome<Fault>, ghost cs: set<Temp>)
      requires neighbours.Keys == nodeDeg.Keys && nodes <= neighbours.Keys
      modifies this`neighbours, this`nodeDeg
      ensures r.Fail? ==> r.error == NullDereference && (outs * old(nodes)) - {d} != {} && d !in old(neighbours)
      ensures r.Pass? ==> cs == (outs * old(nodes)) - {d} && IsStar(old(State()), d, cs, State())
      ensures r.Pass? && cs != {} ==> d in old(neighbours)
    {
      ghost var h := State();
      var todo := outs;
      cs := {};
      StarNone(h, d);
      while todo != {}
        invariant todo <= outs
        invariant forall x {:trigger x in cs} :: x in cs <==> x in outs && x !in todo && x in h.nodes && x != d
        invariant IsStar(h, d, cs, State()) && neighbours.Keys == nodeDeg.Keys
        invariant cs != {} ==> d in h.adj
        decreases todo
      {
        var out :| out in todo;
        r, cs := JoinOut(d, out, h, outs, todo, cs);
        if r.Fail? {
          assert out in (outs * h.nodes) - {d};
          return;
        }
        todo := todo - {out};
      }
      assert cs == (outs * h.nodes) - {d};
      return Pass, cs;
    }

    /**
     * makeEdges' switch for one instruction that does not end the block: a
     * defined result with a live-out annotation is joined to every other
     * node live after the instruction; addEdge throws when the result has
     * no neighbour set.
     */
    method JoinDefinition(tac: Tac) returns (r: Outcome<Fault>)
      requires !tac.opc.EndsBlock() && neighbours.Keys == nodeDeg.Keys && nodes <= neighbours.Keys
      modifies this`neighbours, this`nodeDeg
      ensures var e := EdgeStep(old(State()), tac.View(), tac.liveOut);
        && (r.Pass? <==> e.Success?)
        && (r.Fail? ==> r.error == e.error)
        && (r.Pass? ==> State() == e.value)
    {
      ghost var h := State();
      if tac.opc.Defines() && tac.op0 != null && tac.liveOut.Some? {
        ghost var cs;
        r, cs := JoinConflicts(tac.op0, tac.liveOut.value);
        if r.Pass? {
          DefinitionDone(h, tac.View(), tac.liveOut, State());
        }
      } else {
        r := Pass;
      }
    }

    /** makeEdges' second loop: each instruction in list order; a branch or return throws. */
    method JoinDefinitions(ghost code: seq<Instr>, ghost outs: seq<Option<set<Temp>>>) returns (r: Outcome<Fault>)
      requires bb != null && bb.NextLinked() && bb.tacList == (if bb.tacs == [] then null else bb.tacs[0])
      requires code == bb.Code() && outs == LiveOuts(bb.tacs) && neighbours.Keys == nodeDeg.Keys && nodes <= neighbours.Keys
      modifies this`neighbours, this`nodeDeg
      ensures var e := Edges(old(State()), code, outs);
        && (r.Pass? <==> e.Success?)
        && (r.Fail? ==> r.error == e.error)
        && (r.Pass? ==> State() == e.value)
    {
      ghost var ts, k, g1 := bb.tacs, 0, State();
      var tac := bb.tacList;
      while tac != null
        invariant 0 <= k <= |ts| == |code| == |outs|
        invariant tac == if k < |ts| then ts[k] else null
        invariant Linked(ts) && code == Snapshot(ts) && outs == LiveOuts(ts)
        invariant neighbours.Keys == nodeDeg.Keys && nodes == g1.nodes && neighbours.Keys == g1.adj.Keys
        invariant Edges(State(), code[k..], outs[k..]) == Edges(g1, code, outs)
        decreases |ts| - k
      {
        assert tac.next == if k + 1 < |ts| then ts[k + 1] else null;
        assert tac.View() == code[k] && tac.liveOut == outs[k];
        assert code[k..][0] == code[k] && outs[k..][0] == outs[k];
        assert code[k..][1..] == code[k + 1..] && outs[k..][1..] == outs[k + 1..];
        if tac.opc.EndsBlock() {
          return Fail(IllegalOpcode);
        }
        r := JoinDefinition(tac);
        if r.Fail? {
          return;
        }
        tac := tac.next;
        k := k + 1;
      }
      assert code[k..] == [];
      return Pass;
    }

    /**
     * makeEdges on the isolated graph makeNodes leaves: the live-on-entry
     * clique, then the definition conflicts; it throws where `Joined` fails.
     */
    method MakeEdges(ghost live: set<Temp>, ghost code: seq<Instr>, ghost outs: seq<Option<set<Temp>>>) returns (r: Outcome<Fault>)
      requires bb != null && bb.NextLinked() && bb.tacList == (if bb.tacs == [] then null else bb.tacs[0])
      requires live == bb.liveUse && code == bb.Code() && outs == LiveOuts(bb.tacs)
      requires Isolated(State()) && neighbours.Keys == nodeDeg.Keys && nodes <= neighbours.Keys
      modifies this`neighbours, this`nodeDeg
      ensures var e := Joined(old(State()), live, code, outs);
        && (r.Pass? <==> e.Success?)
        && (r.Fail? ==> r.error == e.error)
        && (r.Pass? ==> State() == e.value)
    {
      r := JoinLiveUse();
      if r.Fail? {
        return;
      }
      r := JoinDefinitions(code, outs);
    }

    /**
     * makeGraph on a cleared graph: makeNodes, then makeEdges; the graph
     * is the one `Planned` builds for the block, and it throws where
     * `Planned` fails.
     */
    method MakeGraph(ghost live: set<Temp>, ghost code: seq<Instr>, ghost outs: seq<Option<set<Temp>>>, ghost skip: set<Temp>)
      returns (r: Outcome<Fault>)
      requires bb != null && bb.NextLinked() && bb.tacList == (if bb.tacs == [] then null else bb.tacs[0])
      requires live == bb.liveUse && code == bb.Code() && WellFormedCode(code) && outs == LiveOuts(bb.tacs)
      requires skip == FpBound(Candidates(bb), fp) && State() == Empty
      modifies this`nodes, this`neighbours, this`nodeDeg
      ensures var p := Build(live, code, outs, skip);
        && (r.Pass? <==> p.Success?)
        && (r.Fail? ==> r.error == p.error)
        && (r.Pass? ==> State() == p.value)
    {
      r := MakeNodes(live, code, skip);
      if r.Fail? {
        return;
      }
      NodesMeaning(live, code, skip);
      r := MakeEdges(live, code, outs);
    }

    /**
     * The first half of one pass of alloc's do-while loop: clear, then
     * makeGraph. The graph built is the one `Build` plans, ready for
     * colouring, and none of its temps holds a register when no candidate
     * held one but the frame pointer.
     */
    method Rebuild(ghost live: set<Temp>, ghost code: seq<Instr>, ghost outs: seq<Option<set<Temp>>>,
                   ghost skip: set<Temp>, ghost cands: set<Temp>, ghost blank: bool) returns (r: Outcome<Fault>)
      requires bb != null && bb.NextLinked() && bb.tacList == (if bb.tacs == [] then null else bb.tacs[0])
      requires live == bb.liveUse && code == bb.Code() && WellFormedCode(code) && outs == LiveOuts(bb.tacs)
      requires cands == live + OperandsUpTo(code, |code|) && skip == FpBound(cands, fp)
      requires blank ==> forall t :: t in cands ==> t.reg.None? || t.reg == fp
      modifies this`nodes, this`neighbours, this`nodeDeg
      ensures var p := Build(live, code, outs, skip);
        && (r.Pass? <==> p.Success?) && (r.Fail? ==> r.error == p.error)
        && (r.Pass? ==> State() == p.value && Keyed(State()) && Symmetric(neighbours) && Covered(State()))
      ensures r.Pass? && blank ==> Uncoloured()
    {
      Clear();
      r := MakeGraph(live, code, outs, skip);
      if r.Fail? {
        return;
      }
      BuildShaped(live, code, outs, skip);
      assert nodes == cands - skip;
      if blank {
        forall t | t in neighbours ensures t.reg.None? {
          assert t in cands && t !in skip;
        }
      }
    }

    /**
     * One pass of alloc's do-while loop: `Rebuild`, then color. On success
     * the nodes of the planned graph that hold registers hold ones of
     * `regs` and no two neighbours hold the same one; when the registers
     * are distinct and no candidate held one beforehand (other than the
     * frame pointer), every node holds one.
     */
    method Attempt(ghost live: set<Temp>, ghost code: seq<Instr>, ghost outs: seq<Option<set<Temp>>>,
                   ghost skip: set<Temp>, ghost cands: set<Temp>, ghost blank: bool) returns (r: Outcome<Fault>, coloured: bool)
      requires bb != null && bb.NextLinked() && bb.tacList == (if bb.tacs == [] then null else bb.tacs[0])
      requires live == bb.liveUse && code == bb.Code() && WellFormedCode(code) && outs == LiveOuts(bb.tacs)
      requires cands == live + OperandsUpTo(code, |code|) && skip == FpBound(cands, fp)
      requires blank ==> forall t :: t in cands ==> t.reg.None? || t.reg == fp
      modifies this`nodes, this`neighbours, this`nodeDeg, cands`reg
      ensures var p := Build(live, code, outs, skip);
        && (p.Failure? ==> r == Fail(p.error))
        && (p.Success? && r.Fail? ==> r.error == SpillUnsupported)
        && (r.Pass? ==> coloured && p.Success? && nodes == {} && neighbours == p.value.adj)
        && (r.Pass? ==> Proper(p.value.nodes) && FromRegs(p.value.nodes))
        && (r.Pass? && DistinctRegs(regs) && blank ==> AllColoured(p.value.nodes))
    {
      r := Rebuild(live, code, outs, skip, cands, blank);
      if r.Fail? {
        return r, false;
      }
      var c := Color();
      if c.Failure? {
        return Fail(c.error), false;
      }
      return Pass, c.value;
    }

    /**
     * alloc: remembers the block, the registers and the frame pointer, then
     * clears, builds and colours the graph until colouring succeeds. Since
     * colouring either succeeds or throws, the loop body runs once. On
     * success the planned graph is coloured as `Attempt` states.
     */
    method Alloc(b: BasicBlocks.BasicBlock, rs: seq<Register>, f: Option<Register>) returns (r: Outcome<Fault>)
      requires b.NextLinked() && b.tacList == (if b.tacs == [] then null else b.tacs[0]) && WellFormedCode(b.Code())
      modifies this`regs, this`bb, this`fp, this`nodes, this`neighbours, this`nodeDeg, Candidates(b)`reg
      ensures bb == b && regs == rs && fp == f
      ensures var p := old(Planned(b, f));
        && (p.Failure? ==> r == Fail(p.error))
        && (p.Success? && r.Fail? ==> r.error == SpillUnsupported)
        && (r.Pass? ==> p.Success? && nodes == {} && neighbours == p.value.adj)
        && (r.Pass? ==> Proper(p.value.nodes) && FromRegs(p.value.nodes))
        && (r.Pass? && DistinctRegs(rs) && old(forall t :: t in Candidates(b) ==> t.reg.None? || t.reg == f) ==>
              AllColoured(p.value.nodes))
    {
      ghost var live, code, outs := b.liveUse, b.Code(), LiveOuts(b.tacs);
      ghost var cands := live + OperandsUpTo(code, |code|);
      ghost var skip := FpBound(cands, f);
      ghost var p := Build(live, code, outs, skip);
      ghost var blank := forall t :: t in cands ==> t.reg.None? || t.reg == f;
      regs, bb, fp := rs, b, f;
      var coloured := false;
      while !coloured
        invariant bb == b && regs == rs && fp == f
        invariant !coloured ==> b.NextLinked() && b.tacList == (if b.tacs == [] then null else b.tacs[0])
        invariant !coloured ==> live == b.liveUse && code == b.Code() && outs == LiveOuts(b.tacs)
        invariant !coloured ==> skip == FpBound(cands, f) && (blank ==> forall t :: t in cands ==> t.reg.None? || t.reg == f)
        invariant coloured ==> p.Success? && nodes == {} && neighbours == p.value.adj
        invariant coloured ==> Proper(p.value.nodes) && FromRegs(p.value.nodes)
        invariant coloured && DistinctRegs(rs) && blank ==> AllColoured(p.value.nodes)
        decreases if coloured then 0 else 1
      {
        r, coloured := Attempt(live, code, outs, skip, cands, blank);
        if r.Fail? {
          return;
        }
      }
      r := Pass;
    }
  }
}
