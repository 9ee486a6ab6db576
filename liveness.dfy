/**
 * The backward liveness pass of a basic block, as a specification over the
 * block's instruction values.
 */
module Liveness {
  import opened Tac
  import DefUse

  /** The temp an instruction overwrites, per the backward table: op0 of every defining opcode, possibly null. */
  function Killed(i: Instr): Temp? {
    if i.opc.Defines() then i.op0 else null
  }

  /** The temps an instruction reads, per the backward table (which, unlike the forward scan, counts BEQZ and BNEZ). */
  function Read(i: Instr): set<Temp>
    requires WellFormed(i)
  {
    if i.opc.IsBinary() then {i.op1, i.op2}
    else if i.opc.IsUnary() then {i.op1}
    else if i.opc.Store? then {i.op0, i.op1}
    else if i.opc.Beqz? || i.opc.Bnez? || i.opc.Parm? then {i.op0}
    else {}
  }

  /** Live before `i`, given `out` live after it. */
  function Transfer(i: Instr, out: set<Temp>): set<Temp>
    requires WellFormed(i)
  {
    (if Killed(i) != null then out - {Killed(i)} else out) + Read(i)
  }

  /** The set annotated on instruction `k`: `exit` for the last one, and backwards by `Transfer`. */
  function LiveOutAt(code: seq<Instr>, exit: set<Temp>, k: int): set<Temp>
    requires WellFormedCode(code) && 0 <= k < |code|
    decreases |code| - k
  {
    if k == |code| - 1 then exit else Transfer(code[k + 1], LiveOutAt(code, exit, k + 1))
  }

  /** No instruction strictly between `lo` and `hi` overwrites `t`. */
  predicate NotKilledBetween(code: seq<Instr>, t: Temp, lo: int, hi: int)
    requires 0 <= lo <= hi <= |code|
  {
    forall m :: lo < m < hi ==> Killed(code[m]) != t
  }

  /**
   * What the annotation means: `t` is live after instruction `k` exactly when
   * a later instruction reads it before anything in between overwrites it, or
   * it is live at the block's exit and nothing after `k` overwrites it.
   */
  lemma {:induction false} LiveOutMeaning(code: seq<Instr>, exit: set<Temp>, k: int, t: Temp)
    requires WellFormedCode(code) && 0 <= k < |code|
    ensures t in LiveOutAt(code, exit, k) <==>
      (exists j :: k < j < |code| && t in Read(code[j]) && NotKilledBetween(code, t, k, j))
      || (t in exit && NotKilledBetween(code, t, k, |code|))
    decreases |code| - k
  {
    if k < |code| - 1 {
      LiveOutMeaning(code, exit, k + 1, t);
      var here := t in Read(code[k + 1]);
      if t in LiveOutAt(code, exit, k) {
        if !here {
          assert Killed(code[k + 1]) != t;
          if j :| k + 1 < j < |code| && t in Read(code[j]) && NotKilledBetween(code, t, k + 1, j) {
            assert NotKilledBetween(code, t, k, j);
          } else {
            assert NotKilledBetween(code, t, k, |code|);
          }
        } else {
          assert NotKilledBetween(code, t, k, k + 1);
        }
      } else {
        assert !here;
        if j :| k < j < |code| && t in Read(code[j]) && NotKilledBetween(code, t, k, j) {
          assert j != k + 1;
          assert Killed(code[k + 1]) == t;
        }
      }
    }
  }

  /**
   * The forward scan and the backward pass classify operand slots alike: the
   * scan writes exactly the temp liveness kills, and reads exactly what
   * liveness reads except at BEQZ and BNEZ, whose condition only the backward
   * pass counts.
   */
  lemma TablesAgree(i: Instr)
    requires WellFormed(i)
    ensures DefUse.DefTemps(DefUse.Occurrences(i)) == if Killed(i) != null then {Killed(i)} else {}
    ensures DefUse.UseTemps(DefUse.Occurrences(i)) == if i.opc.Beqz? || i.opc.Bnez? then {} else Read(i)
  {
    var occ := DefUse.Occurrences(i);
    if i.opc.IsUnary() && i.op0 != null {
      assert occ == [DefUse.Use(i.id, i.op1), DefUse.Def(i.id, i.op0)];
      assert occ[0] in occ && occ[1] in occ;
    } else if i.opc.IsBinary() || i.opc.Store? {
      assert occ[0] in occ && occ[1] in occ;
    } else if occ != [] {
      assert occ[0] in occ;
    }
  }
}
