/**
 * A basic block of three-address code and its per-block dataflow analysis:
 * def/use classification, liveness annotation and DU chains, over a doubly
 * linked instruction list.
 */
module BasicBlocks {
  import opened Wrappers
  import opened Tac
  import DefUse
  import Liveness
  import DUChain

  class BasicBlock {
    var bbNum: int
    /** Id drawn after every instruction id; the end-of-block read of `endVar` happens here. */
    var endId: int
    /** Head of the instruction list (null when empty). */
    var tacList: Tac?
    /** The temp the block's ending reads (branch condition or returned value), `var` in Java. */
    var endVar: Temp?

    var def: set<Temp>
    var liveUse: set<Temp>
    var liveIn: set<Temp>
    /** Live on exit; the whole-function analysis fills it before liveness runs. */
    var liveOut: set<Temp>

    var reference: set<Pair>
    var defDU: set<Pair>
    var liveUseDU: set<Pair>
    var liveInDU: set<Pair>
    /** Live-out reference points; filled outside this class. */
    var liveOutDU: set<Pair>

    /** Definition point -> positions that may read it. */
    var duChain: map<Pair, set<int>>

    /** The instruction list, head first. */
    ghost var tacs: seq<Tac>

    /**
     * The links spell out `tacs`: `tacList` is its head, each `next` is the
     * following element (null at the end) and each `prev` but the head's is
     * the preceding one. The head's `prev` is left free: insertAfter on an
     * empty list does not set it, and no pass follows it.
     */
    ghost predicate Valid()
      reads this`tacList, this`tacs, tacs`next, tacs`prev
    {
      && tacList == (if tacs == [] then null else tacs[0])
      && NextLinked()
      && PrevLinked()
      && Distinct(tacs)
    }

    /** Each instruction's `next` is the following one, null at the end. */
    ghost predicate NextLinked()
      reads this`tacs, tacs`next
    {
      Linked(tacs)
    }

    /** The link from instruction `k` to its successor. */
    lemma NextLink(k: int)
      requires NextLinked() && 0 <= k < |tacs|
      ensures tacs[k].next == if k + 1 < |tacs| then tacs[k + 1] else null
    {
    }

    /** Each instruction's `prev` but the head's is the preceding one. */
    ghost predicate PrevLinked()
      reads this`tacs, tacs`prev
    {
      BackLinked(tacs)
    }

    /** The instructions as values. */
    ghost function Code(): seq<Instr>
      reads this`tacs, tacs`id
    {
      Snapshot(tacs)
    }

    /** The operand occurrences the forward scan visits. */
    ghost function Occ(): seq<DefUse.Occurrence>
      requires WellFormedCode(Code())
      reads this`tacs, tacs`id, this`endId, this`endVar
    {
      DefUse.BlockOccurrences(Code(), endId, endVar)
    }

    /** The sets the forward scan fills. */
    ghost function Sets(): DefUse.ScanSets
      reads this`liveUse, this`def, this`reference, this`defDU, this`liveUseDU
    {
      DefUse.ScanSets(liveUse, def, reference, defDU, liveUseDU)
    }

    /** What is live after the last instruction: the block's liveOut plus the temp its ending reads. */
    ghost function Exit(): set<Temp>
      reads this`liveOut, this`endVar
    {
      liveOut + (if endVar != null then {endVar} else {})
    }

    constructor ()
      ensures Valid() && tacs == [] && endVar == null
      ensures def == liveUse == liveIn == liveOut == {}
      ensures reference == defDU == liveUseDU == liveInDU == liveOutDU == {}
      ensures duChain == map[]
    {
      tacList, endVar, tacs := null, null, [];
      def, liveUse, liveIn, liveOut := {}, {}, {}, {};
      reference, defDU, liveUseDU, liveInDU, liveOutDU := {}, {}, {}, {}, {};
      duChain := map[];
    }

    /**
     * Numbers the instructions in list order from the sequence counter and
     * then draws `endId`, so ids follow program order and `endId` comes after
     * all of them.
     */
    method AllocateTacIds(ids: IdAllocator)
      requires Valid()
      modifies tacs`id, this`endId, ids
      ensures forall k :: 0 <= k < |tacs| ==> tacs[k].id == old(ids.counter) + k
      ensures endId == old(ids.counter) + |tacs| && ids.counter == endId + 1
      ensures forall i, j :: 0 <= i < j < |tacs| ==> tacs[i].id < tacs[j].id < endId
    {
      var tac := tacList;
      ghost var k := 0;
      while tac != null
        invariant NextLinked()
        invariant 0 <= k <= |tacs|
        invariant tac == if k < |tacs| then tacs[k] else null
        invariant ids.counter == old(ids.counter) + k
        invariant forall j :: 0 <= j < k ==> tacs[j].id == old(ids.counter) + j
        decreases |tacs| - k
      {
        assert tac.next == if k + 1 < |tacs| then tacs[k + 1] else null;
        tac.id := ids.Apply();
        tac := tac.next;
        k := k + 1;
      }
      endId := ids.Apply();
    }

    /**
     * Records a read of `temp` at position `pos`: always a reference, and an
     * upward-exposed read unless defDU already holds a definition of `temp`.
     */
    method InsertToLiveUseDU(pos: int, temp: Temp)
      modifies this`reference, this`liveUseDU
      ensures reference == old(reference) + {Pair(pos, temp)}
      ensures liveUseDU == old(liveUseDU) + (if temp in TempsOfPairs(defDU) then {} else {Pair(pos, temp)})
    {
      var pair := Pair(pos, temp);
      reference := reference + {pair};
      if !exists d :: d in defDU && d.tmp == temp {
        liveUseDU := liveUseDU + {pair};
      }
    }

    /** Temps among `temps` whose marker names block `n`. */
    ghost function Marked(temps: set<Temp>, n: int): set<Temp>
      reads temps`lastVisitedBB
    {
      set t | t in temps && t.lastVisitedBB == n
    }

    /**
     * The scan so far has produced the sets `s`, and a temp of `temps` has
     * its marker naming this block exactly when it is in `seen`.
     */
    ghost predicate Tracks(s: DefUse.ScanSets, seen: set<Temp>, temps: set<Temp>)
      reads this`liveUse, this`def, this`reference, this`defDU, this`liveUseDU, this`bbNum, temps`lastVisitedBB
    {
      && Sets() == s
      && forall u :: u in temps ==> (u.lastVisitedBB == bbNum <==> u in seen)
    }

    /** One read slot of the scan: classify `t` as live-on-entry if unmarked, then record the reference. */
    method VisitUse(pos: int, t: Temp, ghost s: DefUse.ScanSets, ghost seen: set<Temp>, ghost temps: set<Temp>)
      requires t in temps && Tracks(s, seen, temps)
      modifies this`liveUse, this`reference, this`liveUseDU, t`lastVisitedBB
      ensures Tracks(DefUse.ScanStep(s, t !in seen, DefUse.Use(pos, t)), seen + {t}, temps)
    {
      if t.lastVisitedBB != bbNum {
        liveUse := liveUse + {t};
        t.lastVisitedBB := bbNum;
      }
      InsertToLiveUseDU(pos, t);
    }

    /** One write slot of the scan: classify `t` as defined if unmarked, then record the definition point. */
    method VisitDef(pos: int, t: Temp, ghost s: DefUse.ScanSets, ghost seen: set<Temp>, ghost temps: set<Temp>)
      requires t in temps && Tracks(s, seen, temps)
      modifies this`def, this`defDU, t`lastVisitedBB
      ensures Tracks(DefUse.ScanStep(s, t !in seen, DefUse.Def(pos, t)), seen + {t}, temps)
    {
      if t.lastVisitedBB != bbNum {
        def := def + {t};
        t.lastVisitedBB := bbNum;
      }
      defDU := defDU + {Pair(pos, t)};
    }

    /** The scan's step over one instruction: its read slots, then its write slot, as the opcode has them. */
    method VisitTac(tac: Tac, ghost s: DefUse.ScanSets, ghost seen: set<Temp>, ghost temps: set<Temp>)
      requires WellFormed(tac.View())
      requires forall o :: o in DefUse.Occurrences(tac.View()) ==> o.tmp in temps
      requires Tracks(s, seen, temps)
      modifies this`liveUse, this`def, this`reference, this`defDU, this`liveUseDU, temps`lastVisitedBB
      ensures var r := DefUse.Run(s, seen, DefUse.Occurrences(tac.View())); Tracks(r.0, r.1, temps)
    {
      ghost var occs := DefUse.Occurrences(tac.View());
      if tac.opc.IsBinary() {
        ghost var a, b, c := DefUse.Use(tac.id, tac.op1), DefUse.Use(tac.id, tac.op2), DefUse.Def(tac.id, tac.op0);
        assert occs == [a, b, c] && occs[1..] == [b, c] && [b, c][1..] == [c] && [c][1..] == [];
        VisitUse(tac.id, tac.op1, s, seen, temps);
        ghost var s1, seen1 := DefUse.ScanStep(s, a.tmp !in seen, a), seen + {a.tmp};
        assert DefUse.Run(s, seen, occs) == DefUse.Run(s1, seen1, [b, c]);
        VisitUse(tac.id, tac.op2, s1, seen1, temps);
        ghost var s2, seen2 := DefUse.ScanStep(s1, b.tmp !in seen1, b), seen1 + {b.tmp};
        assert DefUse.Run(s1, seen1, [b, c]) == DefUse.Run(s2, seen2, [c]);
        assert DefUse.Run(s2, seen2, [c]) == (DefUse.ScanStep(s2, c.tmp !in seen2, c), seen2 + {c.tmp});
        VisitDef(tac.id, tac.op0, s2, seen2, temps);
      } else if tac.opc.IsUnary() {
        ghost var a := DefUse.Use(tac.id, tac.op1);
        VisitUse(tac.id, tac.op1, s, seen, temps);
        ghost var s1, seen1 := DefUse.ScanStep(s, a.tmp !in seen, a), seen + {a.tmp};
        if tac.op0 != null {
          ghost var b := DefUse.Def(tac.id, tac.op0);
          assert occs == [a, b] && occs[1..] == [b] && [b][1..] == [];
          assert DefUse.Run(s, seen, occs) == DefUse.Run(s1, seen1, [b]);
          assert DefUse.Run(s1, seen1, [b]) == (DefUse.ScanStep(s1, b.tmp !in seen1, b), seen1 + {b.tmp});
          VisitDef(tac.id, tac.op0, s1, seen1, temps);
        } else {
          assert occs == [a] && occs[1..] == [];
        }
      } else if tac.opc.IsDefOnly() {
        if tac.op0 != null {
          ghost var a := DefUse.Def(tac.id, tac.op0);
          assert occs == [a] && occs[1..] == [];
          VisitDef(tac.id, tac.op0, s, seen, temps);
        }
      } else if tac.opc.Store? {
        ghost var a, b := DefUse.Use(tac.id, tac.op0), DefUse.Use(tac.id, tac.op1);
        assert occs == [a, b] && occs[1..] == [b] && [b][1..] == [];
        VisitUse(tac.id, tac.op0, s, seen, temps);
        ghost var s1, seen1 := DefUse.ScanStep(s, a.tmp !in seen, a), seen + {a.tmp};
        assert DefUse.Run(s, seen, occs) == DefUse.Run(s1, seen1, [b]);
        assert DefUse.Run(s1, seen1, [b]) == (DefUse.ScanStep(s1, b.tmp !in seen1, b), seen1 + {b.tmp});
        VisitUse(tac.id, tac.op1, s1, seen1, temps);
      } else if tac.opc.Parm? {
        ghost var a := DefUse.Use(tac.id, tac.op0);
        assert occs == [a] && occs[1..] == [];
        VisitUse(tac.id, tac.op0, s, seen, temps);
      }
    }

    /** Visits instruction `k` of the code, extending the scan by its occurrences. */
    method VisitAt(ghost code: seq<Instr>, ghost k: int, tac: Tac, ghost s: DefUse.ScanSets, ghost seen: set<Temp>, ghost temps: set<Temp>)
      requires WellFormedCode(code) && 0 <= k < |code| && code[k] == tac.View()
      requires DefUse.TempsOf(DefUse.CodeOccurrences(code)) <= temps
      requires var r := DefUse.Run(s, seen, DefUse.OccurrencesUpTo(code, k)); Tracks(r.0, r.1, temps)
      modifies this`liveUse, this`def, this`reference, this`defDU, this`liveUseDU, temps`lastVisitedBB
      ensures var r := DefUse.Run(s, seen, DefUse.OccurrencesUpTo(code, k + 1)); Tracks(r.0, r.1, temps)
    {
      ghost var done := DefUse.OccurrencesUpTo(code, k);
      ghost var occs := DefUse.Occurrences(code[k]);
      DefUse.CodeOccurrencesStep(code, k);
      ghost var r := DefUse.Run(s, seen, done);
      VisitTac(tac, r.0, r.1, temps);
      DefUse.RunAppend(s, seen, done, occs);
    }

    /** The scan's walk over the instruction list, in list order. */
    method VisitList(ghost code: seq<Instr>, ghost s: DefUse.ScanSets, ghost seen: set<Temp>, ghost temps: set<Temp>)
      requires NextLinked() && tacList == (if tacs == [] then null else tacs[0])
      requires WellFormedCode(code) && code == Code()
      requires DefUse.TempsOf(DefUse.CodeOccurrences(code)) <= temps
      requires Tracks(s, seen, temps)
      modifies this`liveUse, this`def, this`reference, this`defDU, this`liveUseDU, temps`lastVisitedBB
      ensures var r := DefUse.Run(s, seen, DefUse.CodeOccurrences(code)); Tracks(r.0, r.1, temps)
    {
      ghost var ts, k := tacs, 0;
      var tac := tacList;
      while tac != null
        invariant 0 <= k <= |ts| == |code|
        invariant tac == if k < |ts| then ts[k] else null
        invariant Linked(ts) && code == Snapshot(ts)
        invariant var r := DefUse.Run(s, seen, DefUse.OccurrencesUpTo(code, k)); Tracks(r.0, r.1, temps)
        decreases |ts| - k
      {
        assert tac.next == if k + 1 < |ts| then ts[k + 1] else null;
        VisitAt(code, k, tac, s, seen, temps);
        tac := tac.next;
        k := k + 1;
      }
      DefUse.OccurrencesUpToPrefix(code, k);
      assert code[..k] == code;
    }

    /**
     * The forward scan. Each temp not already marked for this block is put in
     * liveUse or def by its first occurrence (reads of an instruction before
     * its write), every read becomes a reference, every write a defDU entry,
     * a read before any definition of its temp an upward-exposed read, and the
     * ending's temp is read at `endId`. liveIn and liveInDU are then seeded
     * with liveUse and liveUseDU.
     */
    method ComputeDefAndLiveUse()
      requires Valid() && WellFormedCode(Code())
      modifies this`liveUse, this`def, this`reference, this`defDU, this`liveUseDU, this`liveIn, this`liveInDU
      modifies DefUse.TempsOf(Occ())`lastVisitedBB
      ensures Sets() == DefUse.Run(old(Sets()), old(Marked(DefUse.TempsOf(Occ()), bbNum)), old(Occ())).0
      ensures liveIn == old(liveIn) + liveUse && liveInDU == old(liveInDU) + liveUseDU
      ensures forall t :: t in old(DefUse.TempsOf(Occ())) ==> t.lastVisitedBB == bbNum
    {
      ghost var code := Code();
      ghost var occ := Occ();
      ghost var temps := DefUse.TempsOf(occ);
      ghost var marked := Marked(temps, bbNum);
      ghost var s0 := Sets();
      ghost var body := DefUse.CodeOccurrences(code);
      DefUse.PrefixTemps(body, occ);
      VisitList(code, s0, marked, temps);
      ghost var r := DefUse.Run(s0, marked, body);
      if endVar != null {
        ghost var o := DefUse.Use(endId, endVar);
        assert occ == body + [o] && o in occ;
        VisitUse(endId, endVar, r.0, r.1, temps);
        DefUse.RunAppend(s0, marked, body, [o]);
        assert [o][1..] == [];
      } else {
        assert occ == body;
      }
      DefUse.RunSeen(s0, marked, occ);
      liveIn := liveIn + liveUse;
      liveInDU := liveInDU + liveUseDU;
    }

    /**
     * The backward pass: annotates every instruction with what is live after
     * it, starting from `Exit()` at the last one. An empty list is left as is.
     */
    method AnalyzeLiveness()
      requires Valid() && WellFormedCode(Code())
      modifies tacs`liveOut
      ensures forall k :: 0 <= k < |tacs| ==> tacs[k].liveOut == Some(Liveness.LiveOutAt(old(Code()), old(Exit()), k))
    {
      if tacList == null {
        return;
      }
      ghost var ts, code, exit := tacs, Code(), Exit();
      var tac;
      ghost var k;
      tac, k := LastTac();
      var last := liveOut;
      if endVar != null {
        last := last + {endVar};
      }
      assert last == exit && k == |code| - 1;
      tac.liveOut := Some(last);
      while tac != tacList
        invariant 0 <= k < |ts| && tac == ts[k]
        invariant old(BackLinked(ts)) && code == old(Snapshot(ts)) && Distinct(ts)
        invariant forall j {:trigger ts[j].liveOut} :: k <= j < |ts| ==> ts[j].liveOut == Some(Liveness.LiveOutAt(code, exit, j))
        decreases k
      {
        assert tac.prev == old(tac.prev) == ts[k - 1] && tac.View() == old(tac.View());
        var live := LiveBefore(tac, tac.liveOut.value);
        assert live == Liveness.LiveOutAt(code, exit, k - 1);
        assert forall j :: k <= j < |ts| ==> ts[j] != ts[k - 1];
        tac.prev.liveOut := Some(live);
        tac := tac.prev;
        k := k - 1;
      }
    }

    /** The walk to the last instruction of a non-empty list. */
    method LastTac() returns (tac: Tac, ghost k: int)
      requires Valid() && tacList != null
      ensures k == |tacs| - 1 && tac == tacs[k]
    {
      tac, k := tacList, 0;
      while tac.next != null
        invariant 0 <= k < |tacs| && tac == tacs[k]
        decreases |tacs| - k
      {
        NextLink(k);
        tac := tac.next;
        k := k + 1;
      }
      NextLink(k);
    }

    /** Live before `tac`, given `out` live after it: one case of the backward table. */
    method LiveBefore(tac: Tac, out: set<Temp>) returns (live: set<Temp>)
      requires WellFormed(tac.View())
      ensures live == Liveness.Transfer(tac.View(), out)
    {
      live := out;
      if tac.opc.IsBinary() {
        live := live - {tac.op0};
        live := live + {tac.op1} + {tac.op2};
      } else if tac.opc.IsUnary() {
        if tac.op0 != null {
          live := live - {tac.op0};
        }
        live := live + {tac.op1};
      } else if tac.opc.IsDefOnly() {
        if tac.op0 != null {
          live := live - {tac.op0};
        }
      } else if tac.opc.Store? {
        live := live + {tac.op0} + {tac.op1};
      } else if tac.opc.Beqz? || tac.opc.Bnez? || tac.opc.Parm? {
        live := live + {tac.op0};
      }
    }

    /** Adds position `pos` to the chain of `pair`, creating the entry if it has none. */
    method InsertToDUChain(pair: Pair, pos: int)
      modifies this`duChain
      ensures duChain == DUChain.AddAll(old(duChain), pair, {pos})
    {
      if pair in duChain {
        duChain := duChain[pair := duChain[pair] + {pos}];
      } else {
        assert DUChain.Prior(duChain, pair) + {pos} == {pos};
        duChain := duChain[pair := {pos}];
      }
    }

    /**
     * The element of defDU that follows `d` in (temp, position) order, or
     * None when `d` is the last: where the sorted iterator lands after `d`.
     */
    method NextInOrder(d: Pair) returns (next: Option<Pair>)
      ensures next.Some? ==> DUChain.IsSuccessor(defDU, d, next.value)
      ensures next.None? ==> forall q :: q in defDU ==> !Precedes(d, q)
    {
      next := None;
      var todo := defDU;
      while todo != {}
        invariant todo <= defDU
        invariant next.Some? ==> next.value in defDU && Precedes(d, next.value)
        invariant next.Some? ==> forall q :: q in defDU - todo && Precedes(d, q) ==> !Precedes(q, next.value)
        invariant next.None? ==> forall q :: q in defDU - todo ==> !Precedes(d, q)
        decreases todo
      {
        var q :| q in todo;
        if Precedes(d, q) && (next.None? || Precedes(q, next.value)) {
          next := Some(q);
        }
        todo := todo - {q};
      }
    }

    /** Streams `src`, chaining to `d` the position of every pair on `d`'s temp within the bounds. */
    method InsertMatching(d: Pair, src: set<Pair>, lo: Option<int>, hi: Option<int>)
      modifies this`duChain
      ensures duChain == DUChain.AddAll(old(duChain), d, DUChain.Matching(src, d.tmp, lo, hi))
    {
      var todo := src;
      ghost var done: set<Pair> := {};
      assert DUChain.AddAll(duChain, d, {}) == duChain;
      while todo != {}
        invariant todo + done == src
        invariant duChain == DUChain.AddAll(old(duChain), d, DUChain.Matching(done, d.tmp, lo, hi))
        decreases todo
      {
        var p :| p in todo;
        DUChain.MatchingAdd(done, p, d.tmp, lo, hi);
        if p.tmp == d.tmp && (lo.None? || lo.value < p.pos) && (hi.None? || p.pos <= hi.value) {
          InsertToDUChain(d, p.pos);
          DUChain.AddAllTwice(old(duChain), d, DUChain.Matching(done, d.tmp, lo, hi), {p.pos});
        } else {
          assert DUChain.Matching(done + {p}, d.tmp, lo, hi) == DUChain.Matching(done, d.tmp, lo, hi);
        }
        todo, done := todo - {p}, done + {p};
      }
    }

    /**
     * Builds the DU chains: every definition point of defDU gets, added to
     * what it already had, the positions that may read its value (see
     * `DUChain.Chain`); a definition with nothing to add gets no entry.
     * Requires distinct temps of defDU to have distinct ids, so that
     * (temp, position) order is total on defDU.
     */
    method AnalyzeDUChain()
      requires UniqueTempIds(defDU)
      modifies this`duChain
      ensures duChain.Keys == old(duChain).Keys + set d | d in defDU && DUChain.Chain(defDU, reference, liveOutDU, d) != {}
      ensures forall x :: x in duChain ==>
        duChain[x] == DUChain.Prior(old(duChain), x) + (if x in defDU then DUChain.Chain(defDU, reference, liveOutDU, x) else {})
    {
      ghost var defs, refs, outs := defDU, reference, liveOutDU;
      var todo := defDU;
      ghost var done: set<Pair> := {};
      DUChain.ExpectedStart(duChain, defs, refs, outs);
      while todo != {}
        invariant todo + done == defs && todo !! done
        invariant duChain == DUChain.Expected(old(duChain), defs, refs, outs, done)
        decreases todo
      {
        var d :| d in todo;
        DUChain.ExpectedStep(old(duChain), defs, refs, outs, done, d);
        ChainDefinition(d);
        todo, done := todo - {d}, done + {d};
      }
      DUChain.BuiltAll(old(duChain), duChain, defs, refs, outs);
    }

    /**
     * One turn of analyzeDUChain: finds the successor of `d` in defDU and
     * streams reference (and, when `d` is its temp's last definition,
     * liveOutDU) into the chain of `d`.
     */
    method ChainDefinition(d: Pair)
      requires UniqueTempIds(defDU) && d in defDU
      modifies this`duChain
      ensures duChain == DUChain.AddAll(old(duChain), d, DUChain.Chain(old(defDU), old(reference), old(liveOutDU), d))
    {
      var next := NextInOrder(d);
      DUChain.ChainBySuccessor(defDU, reference, liveOutDU, d, next);
      if next.Some? && next.value.tmp == d.tmp {
        InsertMatching(d, reference, Some(d.pos), Some(next.value.pos));
      } else {
        ghost var m0 := duChain;
        InsertMatching(d, reference, Some(d.pos), None);
        InsertMatching(d, liveOutDU, None, None);
        DUChain.AddAllTwice(m0, d, DUChain.Matching(reference, d.tmp, Some(d.pos), None), DUChain.Matching(liveOutDU, d.tmp, None, None));
      }
    }

    /** Links `ins` into the list just before `base`, which becomes the head's successor if it was the head. */
    method InsertBefore(ins: Tac, base: Tac)
      requires Valid() && base in tacs && ins !in tacs
      modifies this`tacList, this`tacs, tacs`next, tacs`prev, ins`next, ins`prev
      ensures Valid()
      ensures exists k :: 0 <= k < |old(tacs)| && old(tacs)[k] == base && tacs == old(tacs)[..k] + [ins] + old(tacs)[k..]
      ensures ins.next == base && base.prev == ins
      ensures tacList == if base == old(tacList) then ins else old(tacList)
    {
      ghost var ts := tacs;
      ghost var k :| 0 <= k < |ts| && ts[k] == base;
      ghost var t := ts[..k] + [ins] + ts[k..];
      assert Linked(ts) && BackLinked(ts) && Distinct(ts);
      if base == tacList {
        assert k == 0;
        tacList := ins;
      } else {
        assert k > 0 && base.prev == ts[k - 1];
        base.prev.next := ins;
      }
      ins.prev := base.prev;
      base.prev := ins;
      ins.next := base;
      tacs := t;
      assert |t| == |ts| + 1 && t[k] == ins;
      assert forall i :: 0 <= i < k ==> t[i] == ts[i];
      assert forall i :: k < i < |t| ==> t[i] == ts[i - 1];
      assert Distinct(t);
      assert Linked(t) by {
        forall i | 0 <= i < |t| ensures t[i].next == if i + 1 < |t| then t[i + 1] else null {
          if i < k - 1 || k < i {
            assert t[i] != ins && (k > 0 ==> t[i] != ts[k - 1]);
            assert t[i].next == old(t[i].next);
          }
        }
      }
      assert BackLinked(t) by {
        forall i | 0 < i < |t| ensures t[i].prev == t[i - 1] {
          if i < k || k + 1 < i {
            assert t[i] != ins && t[i] != base;
            assert t[i].prev == old(t[i].prev);
          }
        }
      }
    }

    /**
     * Links `ins` into the list just after `base`; on an empty list `ins`
     * becomes the only instruction and `base` is ignored.
     */
    method InsertAfter(ins: Tac, base: Tac?)
      requires Valid() && ins !in tacs && (tacs != [] ==> base != null && base in tacs)
      modifies this`tacList, this`tacs, tacs`next, tacs`prev, ins`next, ins`prev
      ensures Valid()
      ensures old(tacs) == [] ==> tacs == [ins] && tacList == ins
      ensures old(tacs) != [] ==>
        && (exists k :: 0 <= k < |old(tacs)| && old(tacs)[k] == base && tacs == old(tacs)[..k + 1] + [ins] + old(tacs)[k + 1..])
        && ins.prev == base && ins.next == old(base.next) && base.next == ins && tacList == old(tacList)
    {
      if tacList == null {
        tacList := ins;
        ins.next := null;
        tacs := [ins];
        return;
      }
      ghost var k :| 0 <= k < |tacs| && tacs[k] == base;
      ghost var t := tacs[..k + 1] + [ins] + tacs[k + 1..];
      if base.next != null {
        base.next.prev := ins;
      }
      ins.prev := base;
      ins.next := base.next;
      base.next := ins;
      tacs := t;
    }
  }
}
