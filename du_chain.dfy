/**
 * DU chains of a basic block: for each definition point, the positions that
 * may read the value it defines.
 */
module DUChain {
  import opened Wrappers
  import opened Tac

  /** `n` is the element of `s` right after `d` in Pair.COMPARATOR order: what an iterator positioned at `d` yields next. */
  ghost predicate IsSuccessor(s: set<Pair>, d: Pair, n: Pair) {
    n in s && Precedes(d, n) && forall q :: q in s && Precedes(d, q) ==> !Precedes(q, n)
  }

  /** No definition of `t` lies strictly between positions `lo` and `hi`. */
  ghost predicate NoDefBetween(defs: set<Pair>, t: Temp, lo: int, hi: int) {
    forall q :: q in defs && q.tmp == t ==> !(lo < q.pos < hi)
  }

  /** No definition of `t` lies after position `lo`. */
  ghost predicate NoDefAfter(defs: set<Pair>, t: Temp, lo: int) {
    forall q :: q in defs && q.tmp == t ==> q.pos <= lo
  }

  /**
   * The DU chain of definition `d`, by what it means: every later reference
   * of `d`'s temp that no other definition of that temp comes before (a
   * reference at the redefining instruction itself still reads `d`), and, when
   * `d` is the temp's last definition in the block, its live-out positions.
   */
  ghost function Chain(defs: set<Pair>, refs: set<Pair>, liveOutDU: set<Pair>, d: Pair): set<int> {
    (set p | p in refs && p.tmp == d.tmp && d.pos < p.pos && NoDefBetween(defs, d.tmp, d.pos, p.pos) :: p.pos)
    + (if NoDefAfter(defs, d.tmp, d.pos) then set p | p in liveOutDU && p.tmp == d.tmp :: p.pos else {})
  }

  /** The positions already chained to `k` in `m` (map-or-create reads a missing key as empty). */
  function Prior(m: map<Pair, set<int>>, k: Pair): set<int> {
    if k in m then m[k] else {}
  }

  /** `m` with the positions `ps` added to key `k`, creating the entry only when there is something to add. */
  function AddAll(m: map<Pair, set<int>>, k: Pair, ps: set<int>): (r: map<Pair, set<int>>)
    ensures r.Keys == m.Keys + (if ps == {} then {} else {k})
    ensures forall x :: x in r ==> r[x] == Prior(m, x) + (if x == k then ps else {})
  {
    if ps == {} then m else m[k := Prior(m, k) + ps]
  }

  /** `p` is on temp `t` with position in `(lo, hi]`; an absent bound is no bound. */
  predicate InRange(p: Pair, t: Temp, lo: Option<int>, hi: Option<int>) {
    p.tmp == t && (lo.None? || lo.value < p.pos) && (hi.None? || p.pos <= hi.value)
  }

  /** The positions of the pairs of `src` in range: what one filtered stream of analyzeDUChain chains. */
  function Matching(src: set<Pair>, t: Temp, lo: Option<int>, hi: Option<int>): set<int> {
    set p | p in src && InRange(p, t, lo, hi) :: p.pos
  }

  /** Streaming one more pair adds its position exactly when it is in range. */
  lemma MatchingAdd(src: set<Pair>, p: Pair, t: Temp, lo: Option<int>, hi: Option<int>)
    ensures Matching(src + {p}, t, lo, hi) == Matching(src, t, lo, hi) + (if InRange(p, t, lo, hi) then {p.pos} else {})
  {
  }

  /** Adding to a key twice is adding the union once. */
  lemma AddAllTwice(m: map<Pair, set<int>>, k: Pair, a: set<int>, b: set<int>)
    ensures AddAll(AddAll(m, k, a), k, b) == AddAll(m, k, a + b)
  {
    if a == {} {
      assert a + b == b;
    } else if b == {} {
      assert a + b == a;
    } else {
      var m1 := m[k := Prior(m, k) + a];
      assert Prior(m1, k) + b == Prior(m, k) + (a + b);
      assert m1[k := Prior(m1, k) + b] == m[k := Prior(m, k) + (a + b)];
    }
  }

  /** The definitions of `ds` whose chain is not empty: the keys a pass over `ds` creates. */
  ghost function Chained(defs: set<Pair>, refs: set<Pair>, liveOutDU: set<Pair>, ds: set<Pair>): set<Pair> {
    set x | x in ds && Chain(defs, refs, liveOutDU, x) != {}
  }

  /** `m` is `m0` with the chain of every definition in `done` added. */
  ghost predicate Built(m0: map<Pair, set<int>>, m: map<Pair, set<int>>, defs: set<Pair>, refs: set<Pair>, liveOutDU: set<Pair>, done: set<Pair>) {
    && m.Keys == m0.Keys + Chained(defs, refs, liveOutDU, done)
    && forall x :: x in m ==> m[x] == Prior(m0, x) + (if x in done then Chain(defs, refs, liveOutDU, x) else {})
  }

  /** Adding the chain of one more definition extends what has been built. */
  lemma BuiltStep(m0: map<Pair, set<int>>, m: map<Pair, set<int>>, defs: set<Pair>, refs: set<Pair>, liveOutDU: set<Pair>, done: set<Pair>, d: Pair)
    requires Built(m0, m, defs, refs, liveOutDU, done) && d !in done
    ensures Built(m0, AddAll(m, d, Chain(defs, refs, liveOutDU, d)), defs, refs, liveOutDU, done + {d})
  {
    var c := Chain(defs, refs, liveOutDU, d);
    var m' := AddAll(m, d, c);
    assert m'.Keys == m0.Keys + Chained(defs, refs, liveOutDU, done + {d}) by {
      ChainedAdd(defs, refs, liveOutDU, done, d);
    }
    forall x | x in m' ensures m'[x] == Prior(m0, x) + (if x in done + {d} then Chain(defs, refs, liveOutDU, x) else {}) {
      BuiltAt(m0, m, defs, refs, liveOutDU, done, d, x);
    }
  }

  /** The map a pass over the definitions `done` leaves, starting from `m0`. */
  ghost function Expected(m0: map<Pair, set<int>>, defs: set<Pair>, refs: set<Pair>, liveOutDU: set<Pair>, done: set<Pair>): map<Pair, set<int>> {
    map x | x in m0.Keys + Chained(defs, refs, liveOutDU, done) :: Prior(m0, x) + (if x in done then Chain(defs, refs, liveOutDU, x) else {})
  }

  /** `Expected` is a map that `Built` describes. */
  lemma ExpectedIsBuilt(m0: map<Pair, set<int>>, defs: set<Pair>, refs: set<Pair>, liveOutDU: set<Pair>, done: set<Pair>)
    ensures Built(m0, Expected(m0, defs, refs, liveOutDU, done), defs, refs, liveOutDU, done)
  {
  }

  /** `Built` describes no map but `Expected`. */
  lemma BuiltIsExpected(m0: map<Pair, set<int>>, m: map<Pair, set<int>>, defs: set<Pair>, refs: set<Pair>, liveOutDU: set<Pair>, done: set<Pair>)
    requires Built(m0, m, defs, refs, liveOutDU, done)
    ensures m == Expected(m0, defs, refs, liveOutDU, done)
  {
    var e := Expected(m0, defs, refs, liveOutDU, done);
    assert m.Keys == e.Keys;
    forall x | x in m ensures m[x] == e[x] {
    }
  }

  /** One turn of the pass: adding the chain of a new definition `d` moves `d` to the definitions done. */
  lemma ExpectedStep(m0: map<Pair, set<int>>, defs: set<Pair>, refs: set<Pair>, liveOutDU: set<Pair>, done: set<Pair>, d: Pair)
    requires d !in done
    ensures AddAll(Expected(m0, defs, refs, liveOutDU, done), d, Chain(defs, refs, liveOutDU, d)) == Expected(m0, defs, refs, liveOutDU, done + {d})
  {
    var e := Expected(m0, defs, refs, liveOutDU, done);
    ExpectedIsBuilt(m0, defs, refs, liveOutDU, done);
    BuiltStep(m0, e, defs, refs, liveOutDU, done, d);
    BuiltIsExpected(m0, AddAll(e, d, Chain(defs, refs, liveOutDU, d)), defs, refs, liveOutDU, done + {d});
  }

  /** Before the pass, nothing has been added. */
  lemma ExpectedStart(m0: map<Pair, set<int>>, defs: set<Pair>, refs: set<Pair>, liveOutDU: set<Pair>)
    ensures Expected(m0, defs, refs, liveOutDU, {}) == m0
  {
    var e := Expected(m0, defs, refs, liveOutDU, {});
    assert Chained(defs, refs, liveOutDU, {}) == {};
    assert e.Keys == m0.Keys;
    forall x | x in e ensures e[x] == m0[x] {
    }
  }

  /** Having added the chain of every definition of `defs`, the keys and entries are as analyzeDUChain leaves them. */
  lemma BuiltAll(m0: map<Pair, set<int>>, m: map<Pair, set<int>>, defs: set<Pair>, refs: set<Pair>, liveOutDU: set<Pair>)
    requires m == Expected(m0, defs, refs, liveOutDU, defs)
    ensures m.Keys == m0.Keys + set d | d in defs && Chain(defs, refs, liveOutDU, d) != {}
    ensures forall x :: x in m ==> m[x] == Prior(m0, x) + (if x in defs then Chain(defs, refs, liveOutDU, x) else {})
  {
    ExpectedIsBuilt(m0, defs, refs, liveOutDU, defs);
  }

  /** One more definition adds itself to the created keys exactly when its chain is not empty. */
  lemma ChainedAdd(defs: set<Pair>, refs: set<Pair>, liveOutDU: set<Pair>, done: set<Pair>, d: Pair)
    ensures Chained(defs, refs, liveOutDU, done + {d}) ==
      Chained(defs, refs, liveOutDU, done) + (if Chain(defs, refs, liveOutDU, d) == {} then {} else {d})
  {
  }

  /** The entry of one key after adding the chain of `d`. */
  lemma BuiltAt(m0: map<Pair, set<int>>, m: map<Pair, set<int>>, defs: set<Pair>, refs: set<Pair>, liveOutDU: set<Pair>, done: set<Pair>, d: Pair, x: Pair)
    requires Built(m0, m, defs, refs, liveOutDU, done) && d !in done
    requires x in AddAll(m, d, Chain(defs, refs, liveOutDU, d))
    ensures AddAll(m, d, Chain(defs, refs, liveOutDU, d))[x] ==
      Prior(m0, x) + (if x in done + {d} then Chain(defs, refs, liveOutDU, x) else {})
  {
    if x !in m {
      assert x == d && x !in m0;
    }
  }

  /**
   * The successor of `d` in the (temp, position) order is the next definition
   * of the same temp exactly when the temp is defined again later, and then it
   * is the nearest such definition.
   */
  lemma SuccessorIsNextDefinition(defs: set<Pair>, d: Pair, n: Pair)
    requires UniqueTempIds(defs) && d in defs && IsSuccessor(defs, d, n)
    ensures n.tmp == d.tmp <==> !NoDefAfter(defs, d.tmp, d.pos)
    ensures n.tmp == d.tmp ==>
      d.pos < n.pos && forall q :: q in defs && q.tmp == d.tmp && d.pos < q.pos ==> n.pos <= q.pos
  {
    if !NoDefAfter(defs, d.tmp, d.pos) {
      var q :| q in defs && q.tmp == d.tmp && q.pos > d.pos;
      assert Precedes(d, q);
      assert !Precedes(q, n);
      assert n.tmp.id == d.tmp.id;
    }
    if n.tmp == d.tmp {
      forall q | q in defs && q.tmp == d.tmp && d.pos < q.pos ensures n.pos <= q.pos {
        assert Precedes(d, q);
      }
    }
  }

  /**
   * The filters analyzeDUChain applies compute the DU chain: with `next` the
   * successor of `d` in defDU (None when `d` is the last element), a successor
   * of the same temp bounds the chain to `(d.pos, next.pos]`; otherwise the
   * chain is every later reference plus every live-out position of the temp.
   */
  lemma ChainBySuccessor(defs: set<Pair>, refs: set<Pair>, liveOutDU: set<Pair>, d: Pair, next: Option<Pair>)
    requires UniqueTempIds(defs) && d in defs
    requires next.Some? ==> IsSuccessor(defs, d, next.value)
    requires next.None? ==> forall q :: q in defs ==> !Precedes(d, q)
    ensures Chain(defs, refs, liveOutDU, d) ==
      if next.Some? && next.value.tmp == d.tmp then
        Matching(refs, d.tmp, Some(d.pos), Some(next.value.pos))
      else
        Matching(refs, d.tmp, Some(d.pos), None) + Matching(liveOutDU, d.tmp, None, None)
  {
    if next.Some? {
      SuccessorIsNextDefinition(defs, d, next.value);
    } else {
      assert NoDefAfter(defs, d.tmp, d.pos) by {
        forall q | q in defs && q.tmp == d.tmp ensures q.pos <= d.pos {
          assert !Precedes(d, q);
        }
      }
    }
    if next.Some? && next.value.tmp == d.tmp {
      var n := next.value;
      forall p | p in refs && p.tmp == d.tmp && d.pos < p.pos
        ensures NoDefBetween(defs, d.tmp, d.pos, p.pos) <==> p.pos <= n.pos
      {
        if p.pos > n.pos {
          assert !NoDefBetween(defs, d.tmp, d.pos, p.pos) by { assert n in defs; }
        }
      }
    }
  }
}
