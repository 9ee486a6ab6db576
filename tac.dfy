/**
 * Three-address code as the backend sees it: temporaries, instructions in a
 * doubly linked list, reference points `(position, temp)` and the sequence
 * counter that numbers instructions.
 */
module Tac {
  import opened Wrappers

  /** A physical register of the target machine; the core only compares registers. */
  type Register(==)

  /**
   * A virtual register. `id` is the key Temp.ID_COMPARATOR orders by; `reg` is the
   * physical register the allocator writes (null in Java is `None`), and
   * `lastVisitedBB` is the per-block marker the forward scan uses to classify
   * a temp only once.
   */
  class Temp {
    const id: int
    var reg: Option<Register>
    var lastVisitedBB: int
  }

  /** The TAC opcodes the two passes distinguish. */
  datatype Opcode =
    | Add | Sub | Mul | Div | Mod | LAnd | LOr | Gtr | Geq | Equ | Neq | Leq | Les
    | Neg | LNot | Assign | IndirectCall | Load
    | LoadVtbl | DirectCall | Return | LoadStrConst | LoadImm4
    | Store | Parm | Beqz | Bnez | Branch | Memo | Mark
  {
    /** Uses op1 and op2, defines op0. */
    predicate IsBinary() {
      Add? || Sub? || Mul? || Div? || Mod? || LAnd? || LOr? || Gtr? || Geq? || Equ? || Neq? || Leq? || Les?
    }

    /** Uses op1, defines op0 when op0 is present (a void indirect call has none). */
    predicate IsUnary() {
      Neg? || LNot? || Assign? || IndirectCall? || Load?
    }

    /** Defines op0 when op0 is present and uses nothing. */
    predicate IsDefOnly() {
      LoadVtbl? || DirectCall? || Return? || LoadStrConst? || LoadImm4?
    }

    /** The opcodes whose op0 is a result slot: the three groups above. */
    predicate Defines() {
      IsBinary() || IsUnary() || IsDefOnly()
    }

    /** Block-ending opcodes, which the register allocator refuses to see. */
    predicate EndsBlock() {
      Branch? || Beqz? || Bnez? || Return?
    }
  }

  /**
   * One instruction. The opcode and operands are fixed when the lowering pass
   * creates the instruction; the backend writes `id`, `liveOut` and the links.
   * A `liveOut` of `None` is Java's null (not yet analysed).
   */
  class Tac {
    const opc: Opcode
    const op0: Temp?
    const op1: Temp?
    const op2: Temp?
    var id: int
    var prev: Tac?
    var next: Tac?
    var liveOut: Option<set<Temp>>

    /** The instruction as a value: what the analyses read of it. */
    ghost function View(): Instr
      reads this`id
    {
      Instr(opc, op0, op1, op2, id)
    }
  }

  /** An instruction as a value, the vocabulary of the pure specifications. */
  datatype Instr = Instr(opc: Opcode, op0: Temp?, op1: Temp?, op2: Temp?, id: int)

  /**
   * The operand slots the model needs present. Most are dereferenced by the
   * forward scan (Java would throw a NullPointerException). op0 of NEG, LNOT,
   * ASSIGN, LOAD, LOAD_VTBL, LOAD_STR_CONST and LOAD_IMM4 is null-checked by
   * the scan and only removed from a set by liveness; makeNodes alone
   * dereferences it. op0 of BEQZ and BNEZ only enters a liveness set, which
   * here holds non-null temps.
   */
  predicate WellFormed(i: Instr) {
    && (i.opc.IsBinary() ==> i.op0 != null && i.op1 != null && i.op2 != null)
    && ((i.opc.Neg? || i.opc.LNot? || i.opc.Assign? || i.opc.Load?) ==> i.op0 != null && i.op1 != null)
    && (i.opc.IndirectCall? ==> i.op1 != null)
    && ((i.opc.LoadVtbl? || i.opc.LoadStrConst? || i.opc.LoadImm4?) ==> i.op0 != null)
    && (i.opc.Store? ==> i.op0 != null && i.op1 != null)
    && ((i.opc.Parm? || i.opc.Beqz? || i.opc.Bnez?) ==> i.op0 != null)
  }

  predicate WellFormedCode(code: seq<Instr>) {
    forall k :: 0 <= k < |code| ==> WellFormed(code[k])
  }

  /** Each instruction's `next` is the following one in `ts`, null after the last. */
  ghost predicate Linked(ts: seq<Tac>)
    reads ts`next
  {
    forall i {:trigger ts[i].next} :: 0 <= i < |ts| ==> ts[i].next == if i + 1 < |ts| then ts[i + 1] else null
  }

  /** Each instruction's `prev` but the first's is the preceding one in `ts`. */
  ghost predicate BackLinked(ts: seq<Tac>)
    reads ts`prev
  {
    forall i {:trigger ts[i].prev} :: 0 < i < |ts| ==> ts[i].prev == ts[i - 1]
  }

  /** No instruction object occurs twice in `ts`. */
  ghost predicate Distinct(ts: seq<Tac>) {
    forall i, j :: 0 <= i < j < |ts| ==> ts[i] != ts[j]
  }

  /** The values of a list of instruction objects, in list order. */
  ghost function Snapshot(ts: seq<Tac>): (code: seq<Instr>)
    reads ts`id
    ensures |code| == |ts|
    ensures forall k {:trigger ts[k].View()} :: 0 <= k < |ts| ==> code[k] == ts[k].View()
    decreases |ts|
  {
    if ts == [] then [] else [ts[0].View()] + Snapshot(ts[1..])
  }

  /** The live-out annotations of a list of instruction objects, in list order. */
  ghost function LiveOuts(ts: seq<Tac>): (outs: seq<Option<set<Temp>>>)
    reads ts`liveOut
    ensures |outs| == |ts|
    ensures forall k {:trigger ts[k].liveOut} :: 0 <= k < |ts| ==> outs[k] == ts[k].liveOut
    decreases |ts|
  {
    if ts == [] then [] else [ts[0].liveOut] + LiveOuts(ts[1..])
  }

  /** A reference point: the instruction id `pos` at which `tmp` is used or defined. */
  datatype Pair = Pair(pos: int, tmp: Temp)

  /**
   * Pair.COMPARATOR's order: by temp (its id), then by position. It is a strict
   * total order on any set of pairs whose temps have distinct ids.
   */
  predicate Precedes(p: Pair, q: Pair) {
    p.tmp.id < q.tmp.id || (p.tmp.id == q.tmp.id && p.pos < q.pos)
  }

  /** Distinct temps of `s` have distinct ids, as the TreeSets keyed by id assume. */
  predicate UniqueTempIds(s: set<Pair>) {
    forall p, q :: p in s && q in s && p.tmp.id == q.tmp.id ==> p.tmp == q.tmp
  }

  /** The temps mentioned by a set of reference points. */
  function TempsOfPairs(s: set<Pair>): set<Temp> {
    set p | p in s :: p.tmp
  }

  /**
   * The compilation-wide sequence counter (IDAllocator), made an explicit
   * object: every id it hands out is larger than all earlier ones.
   */
  class IdAllocator {
    var counter: int

    constructor (start: int)
      ensures counter == start
    {
      counter := start;
    }

    method Apply() returns (id: int)
      modifies this
      ensures id == old(counter) && counter == id + 1
    {
      id := counter;
      counter := counter + 1;
    }
  }
}
