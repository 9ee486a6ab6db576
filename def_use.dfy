/**
 * The forward def/use scan of a basic block, as a specification over the
 * sequence of operand occurrences the scan visits.
 */
module DefUse {
  import opened Wrappers
  import opened Tac

  /** One operand slot visited by the scan: a read (`Use`) or a write (`Def`) of `tmp` at instruction `pos`. */
  datatype Occurrence = Use(pos: int, tmp: Temp) | Def(pos: int, tmp: Temp)

  /**
   * The occurrences one instruction contributes, in the order the scan visits
   * its slots: op1, op2, then op0. Branches, MEMO and MARK contribute nothing;
   * a void call (op0 absent) defines nothing.
   */
  function Occurrences(i: Instr): seq<Occurrence>
    requires WellFormed(i)
  {
    if i.opc.IsBinary() then [Use(i.id, i.op1), Use(i.id, i.op2), Def(i.id, i.op0)]
    else if i.opc.IsUnary() then [Use(i.id, i.op1)] + (if i.op0 != null then [Def(i.id, i.op0)] else [])
    else if i.opc.IsDefOnly() then (if i.op0 != null then [Def(i.id, i.op0)] else [])
    else if i.opc.Store? then [Use(i.id, i.op0), Use(i.id, i.op1)]
    else if i.opc.Parm? then [Use(i.id, i.op0)]
    else []
  }

  /** The occurrences of a whole instruction sequence, in program order. */
  function CodeOccurrences(code: seq<Instr>): seq<Occurrence>
    requires WellFormedCode(code)
    decreases |code|
  {
    if code == [] then [] else CodeOccurrences(code[..|code| - 1]) + Occurrences(code[|code| - 1])
  }

  /** The block's occurrences: its instructions, then the end-of-block temp read at `endId`. */
  function BlockOccurrences(code: seq<Instr>, endId: int, endVar: Temp?): seq<Occurrence>
    requires WellFormedCode(code)
  {
    CodeOccurrences(code) + (if endVar != null then [Use(endId, endVar)] else [])
  }

  function TempsOf(occ: seq<Occurrence>): set<Temp> {
    set o | o in occ :: o.tmp
  }

  function DefTemps(occ: seq<Occurrence>): set<Temp> {
    set o | o in occ && o.Def? :: o.tmp
  }

  function UseTemps(occ: seq<Occurrence>): set<Temp> {
    set o | o in occ && o.Use? :: o.tmp
  }

  /** The first occurrence of `t`, if `t` occurs at all. */
  function FirstOcc(occ: seq<Occurrence>, t: Temp): Option<Occurrence>
    decreases |occ|
  {
    if occ == [] then None
    else if occ[0].tmp == t then Some(occ[0])
    else FirstOcc(occ[1..], t)
  }

  /** Temps not in `marked` whose first occurrence is a read: what the scan adds to liveUse. */
  function FirstUsed(occ: seq<Occurrence>, marked: set<Temp>): set<Temp> {
    set t | t in TempsOf(occ) && t !in marked && FirstOcc(occ, t).Some? && FirstOcc(occ, t).value.Use?
  }

  /** Temps not in `marked` whose first occurrence is a write: what the scan adds to def. */
  function FirstDefined(occ: seq<Occurrence>, marked: set<Temp>): set<Temp> {
    set t | t in TempsOf(occ) && t !in marked && FirstOcc(occ, t).Some? && FirstOcc(occ, t).value.Def?
  }

  /** Every read as a reference point: what the scan adds to reference. */
  function UsePairs(occ: seq<Occurrence>): set<Pair> {
    set o | o in occ && o.Use? :: Pair(o.pos, o.tmp)
  }

  /** Every write as a reference point: what the scan adds to defDU. */
  function DefPairs(occ: seq<Occurrence>): set<Pair> {
    set o | o in occ && o.Def? :: Pair(o.pos, o.tmp)
  }

  /**
   * Upward-exposed reads: reads of a temp that neither `defined` (the temps of
   * defDU before the scan) nor any earlier occurrence writes. What the scan
   * adds to liveUseDU.
   */
  function Exposed(occ: seq<Occurrence>, defined: set<Temp>): set<Pair> {
    set k | 0 <= k < |occ| && occ[k].Use? && occ[k].tmp !in defined && occ[k].tmp !in DefTemps(occ[..k])
      :: Pair(occ[k].pos, occ[k].tmp)
  }

  /** The five sets the scan fills, as one value. */
  datatype ScanSets = ScanSets(
    liveUse: set<Temp>, def: set<Temp>, reference: set<Pair>, defDU: set<Pair>, liveUseDU: set<Pair>)

  /**
   * What the sets hold after scanning `occ` from `s0`, stated declaratively,
   * with `marked` the temps whose marker already named this block.
   */
  function ScanMeaning(s0: ScanSets, marked: set<Temp>, occ: seq<Occurrence>): ScanSets {
    ScanSets(
      s0.liveUse + FirstUsed(occ, marked),
      s0.def + FirstDefined(occ, marked),
      s0.reference + UsePairs(occ),
      s0.defDU + DefPairs(occ),
      s0.liveUseDU + Exposed(occ, TempsOfPairs(s0.defDU)))
  }

  /** The occurrences of a prefix of the code are a prefix of the code's occurrences. */
  lemma {:induction false} CodeOccurrencesPrefix(code: seq<Instr>, k: int)
    requires WellFormedCode(code) && 0 <= k <= |code|
    ensures CodeOccurrences(code[..k]) <= CodeOccurrences(code)
    decreases |code| - k
  {
    if k < |code| {
      CodeOccurrencesPrefix(code, k + 1);
      assert code[..k + 1][..k] == code[..k];
    } else {
      assert code[..k] == code;
    }
  }

  /** The occurrences of the first `k` instructions, in program order. */
  function OccurrencesUpTo(code: seq<Instr>, k: int): seq<Occurrence>
    requires WellFormedCode(code) && 0 <= k <= |code|
    decreases k
  {
    if k == 0 then [] else OccurrencesUpTo(code, k - 1) + Occurrences(code[k - 1])
  }

  /** Counting occurrences up to `k` is taking the occurrences of the first `k` instructions. */
  lemma {:induction false} OccurrencesUpToPrefix(code: seq<Instr>, k: int)
    requires WellFormedCode(code) && 0 <= k <= |code|
    ensures OccurrencesUpTo(code, k) == CodeOccurrences(code[..k])
    decreases k
  {
    if k == 0 {
      assert code[..k] == [];
    } else {
      OccurrencesUpToPrefix(code, k - 1);
      assert code[..k][..k - 1] == code[..k - 1] && code[..k][k - 1] == code[k - 1];
    }
  }

  /** One more instruction extends the occurrences by its own, whose temps are among the code's. */
  lemma CodeOccurrencesStep(code: seq<Instr>, k: int)
    requires WellFormedCode(code) && 0 <= k < |code|
    ensures CodeOccurrences(code[..k + 1]) == CodeOccurrences(code[..k]) + Occurrences(code[k])
    ensures forall o :: o in Occurrences(code[k]) ==> o.tmp in TempsOf(CodeOccurrences(code))
  {
    CodeOccurrencesPrefix(code, k + 1);
    assert code[..k + 1][..k] == code[..k] && code[..k + 1][k] == code[k];
    var upto := CodeOccurrences(code[..k + 1]);
    assert upto == CodeOccurrences(code[..k]) + Occurrences(code[k]);
    PrefixTemps(upto, CodeOccurrences(code));
    forall o | o in Occurrences(code[k]) ensures o.tmp in TempsOf(CodeOccurrences(code)) {
      assert o in upto;
    }
  }

  lemma PrefixTemps(occ: seq<Occurrence>, occ': seq<Occurrence>)
    requires occ <= occ'
    ensures TempsOf(occ) <= TempsOf(occ')
  {
    forall o | o in occ ensures o in occ' {
      var i :| 0 <= i < |occ| && occ[i] == o;
      assert occ'[i] == o;
    }
  }

  // ---------------------------------------------------------------------------
  // First occurrences

  lemma {:induction false} FirstOccFound(occ: seq<Occurrence>, t: Temp)
    ensures FirstOcc(occ, t).Some? <==> t in TempsOf(occ)
    ensures FirstOcc(occ, t).Some? ==> FirstOcc(occ, t).value in occ && FirstOcc(occ, t).value.tmp == t
    decreases |occ|
  {
    if occ != [] {
      FirstOccFound(occ[1..], t);
      assert occ == [occ[0]] + occ[1..];
      assert TempsOf(occ) == {occ[0].tmp} + TempsOf(occ[1..]);
    }
  }

  /** The first occurrence sits at an index before which `t` does not occur. */
  lemma {:induction false} FirstOccIndex(occ: seq<Occurrence>, t: Temp) returns (j: nat)
    requires FirstOcc(occ, t).Some?
    ensures j < |occ| && occ[j] == FirstOcc(occ, t).value && occ[j].tmp == t
    ensures forall i :: 0 <= i < j ==> occ[i].tmp != t
    decreases |occ|
  {
    if occ[0].tmp == t {
      j := 0;
    } else {
      var j' := FirstOccIndex(occ[1..], t);
      j := j' + 1;
    }
  }

  /** Scanning one more occurrence never changes a temp's first occurrence once it has one. */
  lemma {:induction false} FirstOccAppend(occ: seq<Occurrence>, o: Occurrence, t: Temp)
    ensures FirstOcc(occ + [o], t) ==
      if FirstOcc(occ, t).Some? then FirstOcc(occ, t) else if o.tmp == t then Some(o) else None
    decreases |occ|
  {
    if occ != [] {
      assert (occ + [o])[1..] == occ[1..] + [o];
      FirstOccAppend(occ[1..], o, t);
    }
  }

  // ---------------------------------------------------------------------------
  // One occurrence more: what the scan's step has to add

  lemma TempsOfAppend(occ: seq<Occurrence>, o: Occurrence)
    ensures TempsOf(occ + [o]) == TempsOf(occ) + {o.tmp}
    ensures DefTemps(occ + [o]) == DefTemps(occ) + (if o.Def? then {o.tmp} else {})
    ensures UsePairs(occ + [o]) == UsePairs(occ) + (if o.Use? then {Pair(o.pos, o.tmp)} else {})
    ensures DefPairs(occ + [o]) == DefPairs(occ) + (if o.Def? then {Pair(o.pos, o.tmp)} else {})
    ensures TempsOfPairs(DefPairs(occ)) == DefTemps(occ)
  {
    assert forall x :: x in occ + [o] <==> x in occ || x == o;
    assert forall p :: p in DefPairs(occ) ==> p.tmp in DefTemps(occ);
    forall t | t in DefTemps(occ) ensures t in TempsOfPairs(DefPairs(occ)) {
      var x :| x in occ && x.Def? && x.tmp == t;
      assert Pair(x.pos, x.tmp) in DefPairs(occ);
    }
  }

  lemma {:induction false} FirstUsedAppend(occ: seq<Occurrence>, o: Occurrence, marked: set<Temp>)
    ensures FirstUsed(occ + [o], marked) == FirstUsed(occ, marked) +
      (if o.Use? && o.tmp !in TempsOf(occ) && o.tmp !in marked then {o.tmp} else {})
    ensures FirstDefined(occ + [o], marked) == FirstDefined(occ, marked) +
      (if o.Def? && o.tmp !in TempsOf(occ) && o.tmp !in marked then {o.tmp} else {})
  {
    TempsOfAppend(occ, o);
    forall t ensures FirstOcc(occ + [o], t) ==
      if FirstOcc(occ, t).Some? then FirstOcc(occ, t) else if o.tmp == t then Some(o) else None
    {
      FirstOccAppend(occ, o, t);
    }
    forall t ensures FirstOcc(occ, t).Some? <==> t in TempsOf(occ) {
      FirstOccFound(occ, t);
    }
  }

  lemma ExposedAppend(occ: seq<Occurrence>, o: Occurrence, defined: set<Temp>)
    ensures Exposed(occ + [o], defined) == Exposed(occ, defined) +
      (if o.Use? && o.tmp !in defined && o.tmp !in DefTemps(occ) then {Pair(o.pos, o.tmp)} else {})
  {
    var occ' := occ + [o];
    assert occ'[..|occ|] == occ;
    forall k | 0 <= k < |occ| ensures occ'[k] == occ[k] && occ'[..k] == occ[..k] { }
    var extra := if o.Use? && o.tmp !in defined && o.tmp !in DefTemps(occ) then {Pair(o.pos, o.tmp)} else {};
    forall p | p in Exposed(occ', defined) ensures p in Exposed(occ, defined) + extra {
      var k :| 0 <= k < |occ'| && occ'[k].Use? && occ'[k].tmp !in defined && occ'[k].tmp !in DefTemps(occ'[..k])
        && p == Pair(occ'[k].pos, occ'[k].tmp);
      if k < |occ| {
        assert p in Exposed(occ, defined);
      }
    }
    forall p | p in Exposed(occ, defined) + extra ensures p in Exposed(occ', defined) {
      if p in Exposed(occ, defined) {
        var k :| 0 <= k < |occ| && occ[k].Use? && occ[k].tmp !in defined && occ[k].tmp !in DefTemps(occ[..k])
          && p == Pair(occ[k].pos, occ[k].tmp);
        assert occ'[k] == occ[k];
      } else {
        assert occ'[|occ|] == o;
      }
    }
  }

  /**
   * What one visited occurrence adds to the sets: a temp seen for the first
   * time (`unseen`) is classified by this occurrence, a read is a reference
   * and is upward-exposed unless defDU already defines its temp, a write is a
   * definition point.
   */
  function ScanStep(s: ScanSets, unseen: bool, o: Occurrence): ScanSets {
    match o
    case Use(pos, t) =>
      ScanSets(s.liveUse + (if unseen then {t} else {}), s.def, s.reference + {Pair(pos, t)}, s.defDU,
               s.liveUseDU + (if t in TempsOfPairs(s.defDU) then {} else {Pair(pos, t)}))
    case Def(pos, t) =>
      ScanSets(s.liveUse, s.def + (if unseen then {t} else {}), s.reference, s.defDU + {Pair(pos, t)}, s.liveUseDU)
  }

  /** What one more occurrence adds to the first-use and first-definition sets. */
  lemma ScanAppendFirst(s0: ScanSets, marked: set<Temp>, occ: seq<Occurrence>, o: Occurrence)
    ensures var s, s' := ScanMeaning(s0, marked, occ), ScanMeaning(s0, marked, occ + [o]);
      var unseen := o.tmp !in TempsOf(occ) && o.tmp !in marked;
      && s'.liveUse == s.liveUse + (if o.Use? && unseen then {o.tmp} else {})
      && s'.def == s.def + (if o.Def? && unseen then {o.tmp} else {})
  {
    FirstUsedAppend(occ, o, marked);
  }

  /** What one more occurrence adds to the reference and definition points. */
  lemma ScanAppendPoints(s0: ScanSets, marked: set<Temp>, occ: seq<Occurrence>, o: Occurrence)
    ensures var s, s' := ScanMeaning(s0, marked, occ), ScanMeaning(s0, marked, occ + [o]);
      && s'.reference == s.reference + (if o.Use? then {Pair(o.pos, o.tmp)} else {})
      && s'.defDU == s.defDU + (if o.Def? then {Pair(o.pos, o.tmp)} else {})
  {
    TempsOfAppend(occ, o);
  }

  /** One more use is upward exposed exactly when its temp has no definition point so far. */
  lemma ScanAppendExposed(s0: ScanSets, marked: set<Temp>, occ: seq<Occurrence>, o: Occurrence)
    ensures var s, s' := ScanMeaning(s0, marked, occ), ScanMeaning(s0, marked, occ + [o]);
      s'.liveUseDU == s.liveUseDU + (if o.Use? && o.tmp !in TempsOfPairs(s.defDU) then {Pair(o.pos, o.tmp)} else {})
  {
    TempsOfAppend(occ, o);
    ExposedAppend(occ, o, TempsOfPairs(s0.defDU));
    assert TempsOfPairs(s0.defDU + DefPairs(occ)) == TempsOfPairs(s0.defDU) + TempsOfPairs(DefPairs(occ));
  }

  /** The declarative sets grow by exactly what the scan's step adds for one more occurrence. */
  lemma ScanMeaningAppend(s0: ScanSets, marked: set<Temp>, occ: seq<Occurrence>, o: Occurrence)
    ensures ScanMeaning(s0, marked, occ + [o]) ==
      ScanStep(ScanMeaning(s0, marked, occ), o.tmp !in TempsOf(occ) && o.tmp !in marked, o)
  {
    ScanAppendFirst(s0, marked, occ, o);
    ScanAppendPoints(s0, marked, occ, o);
    ScanAppendExposed(s0, marked, occ, o);
  }

  /**
   * The scan as it runs, front to back: one `ScanStep` per occurrence, `seen`
   * holding the temps whose marker already names this block (a temp is unseen
   * until its first occurrence marks it). Returns the sets and the final
   * marked temps.
   */
  function Run(s: ScanSets, seen: set<Temp>, occ: seq<Occurrence>): (ScanSets, set<Temp>)
    decreases |occ|
  {
    if occ == [] then (s, seen)
    else Run(ScanStep(s, occ[0].tmp !in seen, occ[0]), seen + {occ[0].tmp}, occ[1..])
  }

  /** Scanning `a + b` is scanning `a`, then `b` from where `a` left off. */
  lemma {:induction false} RunAppend(s: ScanSets, seen: set<Temp>, a: seq<Occurrence>, b: seq<Occurrence>)
    ensures Run(s, seen, a + b) == Run(Run(s, seen, a).0, Run(s, seen, a).1, b)
    decreases |a|
  {
    if a == [] {
      assert a + b == b;
    } else {
      assert (a + b)[0] == a[0] && (a + b)[1..] == a[1..] + b;
      RunAppend(ScanStep(s, a[0].tmp !in seen, a[0]), seen + {a[0].tmp}, a[1..], b);
    }
  }

  /** The scan marks exactly the temps marked before plus the temps that occur. */
  lemma {:induction false} RunSeen(s: ScanSets, seen: set<Temp>, occ: seq<Occurrence>)
    ensures Run(s, seen, occ).1 == seen + TempsOf(occ)
    decreases |occ|
  {
    if occ == [] {
      assert TempsOf(occ) == {};
    } else {
      RunSeen(ScanStep(s, occ[0].tmp !in seen, occ[0]), seen + {occ[0].tmp}, occ[1..]);
      assert TempsOf(occ) == {occ[0].tmp} + TempsOf(occ[1..]) by {
        forall o | o in occ ensures o == occ[0] || o in occ[1..] {
          var i :| 0 <= i < |occ| && occ[i] == o;
          if i > 0 { assert occ[1..][i - 1] == o; }
        }
      }
    }
  }

  /**
   * Running the scan yields exactly the declarative sets, and marks exactly
   * the temps marked before plus the temps that occur.
   */
  lemma {:induction false} RunMeaning(s0: ScanSets, marked: set<Temp>, occ: seq<Occurrence>)
    ensures Run(s0, marked, occ) == (ScanMeaning(s0, marked, occ), marked + TempsOf(occ))
    decreases |occ|
  {
    if occ == [] {
      assert FirstUsed(occ, marked) == {} && FirstDefined(occ, marked) == {};
      assert UsePairs(occ) == {} && DefPairs(occ) == {} && Exposed(occ, TempsOfPairs(s0.defDU)) == {};
      assert TempsOf(occ) == {};
      assert ScanMeaning(s0, marked, occ) == s0;
      assert marked + TempsOf(occ) == marked;
      assert Run(s0, marked, occ) == (s0, marked);
    } else {
      var prefix, o := occ[..|occ| - 1], occ[|occ| - 1];
      assert occ == prefix + [o];
      var r := Run(s0, marked, prefix);
      assert r == (ScanMeaning(s0, marked, prefix), marked + TempsOf(prefix)) by {
        RunMeaning(s0, marked, prefix);
      }
      assert Run(s0, marked, occ) == Run(r.0, r.1, [o]) by {
        RunAppend(s0, marked, prefix, [o]);
      }
      assert Run(r.0, r.1, [o]) == (ScanStep(r.0, o.tmp !in r.1, o), r.1 + {o.tmp}) by {
        assert [o][1..] == [];
      }
      assert ScanStep(r.0, o.tmp !in r.1, o) == ScanMeaning(s0, marked, occ) by {
        ScanMeaningAppend(s0, marked, prefix, o);
      }
      assert r.1 + {o.tmp} == marked + TempsOf(occ) by {
        TempsOfAppend(prefix, o);
      }
    }
  }

  // ---------------------------------------------------------------------------
  // Properties of the classification

  /**
   * A temp is classified by its first occurrence only, so the temps the scan
   * adds to liveUse and to def are disjoint, and together they are exactly the
   * unmarked temps of the block.
   */
  lemma Classification(occ: seq<Occurrence>, marked: set<Temp>)
    ensures FirstUsed(occ, marked) !! FirstDefined(occ, marked)
    ensures FirstUsed(occ, marked) + FirstDefined(occ, marked) == TempsOf(occ) - marked
  {
    forall t | t in TempsOf(occ) - marked ensures t in FirstUsed(occ, marked) + FirstDefined(occ, marked) {
      FirstOccFound(occ, t);
    }
  }

  /**
   * liveUseDU agrees with liveUse: an upward-exposed read is of a temp whose
   * first occurrence is a read, and every unmarked temp whose first occurrence
   * is a read, and that defDU did not already define, has an upward-exposed
   * read. Upward-exposed reads are references.
   */
  lemma ExposedMatchesFirstUse(occ: seq<Occurrence>, marked: set<Temp>, defined: set<Temp>)
    ensures Exposed(occ, defined) <= UsePairs(occ)
    ensures forall p :: p in Exposed(occ, defined) && p.tmp !in marked ==> p.tmp in FirstUsed(occ, marked)
    ensures forall t :: t in FirstUsed(occ, marked) && t !in defined ==>
      exists p :: p in Exposed(occ, defined) && p.tmp == t
  {
    forall p | p in Exposed(occ, defined) ensures p in UsePairs(occ) && (p.tmp !in marked ==> p.tmp in FirstUsed(occ, marked)) {
      var k :| 0 <= k < |occ| && occ[k].Use? && occ[k].tmp !in defined && occ[k].tmp !in DefTemps(occ[..k])
        && p == Pair(occ[k].pos, occ[k].tmp);
      assert occ[k] in occ;
      var t := p.tmp;
      FirstOccFound(occ, t);
      var j := FirstOccIndex(occ, t);
      assert j <= k;
      if j < k {
        assert occ[j] in occ[..k];
        assert occ[j].Use?;
      }
    }
    forall t | t in FirstUsed(occ, marked) && t !in defined ensures exists p :: p in Exposed(occ, defined) && p.tmp == t {
      var j := FirstOccIndex(occ, t);
      assert t !in DefTemps(occ[..j]) by {
        forall x | x in occ[..j] ensures x.tmp != t {
          var i :| 0 <= i < j && occ[..j][i] == x;
        }
      }
      assert Pair(occ[j].pos, t) in Exposed(occ, defined);
    }
  }

  /**
   * The scan over a whole block, in terms of its result: it adds to liveUse
   * and to def two disjoint sets of temps which together are exactly the
   * block's temps not already marked for it.
   */
  lemma BlockScan(s0: ScanSets, marked: set<Temp>, code: seq<Instr>, endId: int, endVar: Temp?)
    requires WellFormedCode(code)
    ensures var occ := BlockOccurrences(code, endId, endVar);
      var r := Run(s0, marked, occ).0;
      && r.liveUse == s0.liveUse + FirstUsed(occ, marked)
      && r.def == s0.def + FirstDefined(occ, marked)
      && FirstUsed(occ, marked) !! FirstDefined(occ, marked)
      && FirstUsed(occ, marked) + FirstDefined(occ, marked) == TempsOf(occ) - marked
  {
    var occ := BlockOccurrences(code, endId, endVar);
    RunMeaning(s0, marked, occ);
    Classification(occ, marked);
  }

  /** A temp that does not occur in `a` is first met in `b`. */
  lemma {:induction false} FirstOccSkip(a: seq<Occurrence>, b: seq<Occurrence>, t: Temp)
    requires t !in TempsOf(a)
    ensures FirstOcc(a + b, t) == FirstOcc(b, t)
    decreases |a|
  {
    if a == [] {
      assert a + b == b;
    } else {
      assert a[0] in a && (a + b)[0] == a[0];
      assert (a + b)[1..] == a[1..] + b;
      assert TempsOf(a[1..]) <= TempsOf(a) by {
        forall o | o in a[1..] ensures o in a { }
      }
      FirstOccSkip(a[1..], b, t);
    }
  }

  /** A temp that occurs in `a` is first met in `a`. */
  lemma {:induction false} FirstOccKeep(a: seq<Occurrence>, b: seq<Occurrence>, t: Temp)
    requires t in TempsOf(a)
    ensures FirstOcc(a + b, t) == FirstOcc(a, t)
    decreases |a|
  {
    assert a != [];
    if a[0].tmp != t {
      assert (a + b)[1..] == a[1..] + b;
      var o :| o in a && o.tmp == t;
      assert o in a[1..];
      FirstOccKeep(a[1..], b, t);
    }
  }

  /** No instruction before `k` touches `t`, so `t` occurs in none of their occurrences. */
  lemma {:induction false} UntouchedUpTo(code: seq<Instr>, k: int, t: Temp)
    requires WellFormedCode(code) && 0 <= k <= |code|
    requires forall j :: 0 <= j < k ==> t !in TempsOf(Occurrences(code[j]))
    ensures t !in TempsOf(OccurrencesUpTo(code, k))
    decreases k
  {
    if k > 0 {
      UntouchedUpTo(code, k - 1, t);
      var a, b := OccurrencesUpTo(code, k - 1), Occurrences(code[k - 1]);
      forall o: Occurrence | o in a + b ensures o.tmp != t {
        if o in a { assert o.tmp in TempsOf(a); } else { assert o.tmp in TempsOf(b); }
      }
    }
  }

  /** Each instruction lists its reads before its write, so a temp it reads is first met as a read. */
  lemma ReadsFirst(i: Instr, t: Temp)
    requires WellFormed(i) && t in UseTemps(Occurrences(i))
    ensures FirstOcc(Occurrences(i), t).Some? && FirstOcc(Occurrences(i), t).value.Use?
  {
    var occ := Occurrences(i);
    if i.opc.IsBinary() {
      assert occ[1..] == [Use(i.id, i.op2), Def(i.id, i.op0)];
    } else if i.opc.IsUnary() || i.opc.Store? || i.opc.Parm? {
      assert occ[0] == Use(i.id, if i.opc.Store? || i.opc.Parm? then i.op0 else i.op1);
      if i.opc.Store? {
        assert occ[1..] == [Use(i.id, i.op1)];
      }
    }
  }

  /** The first instruction of a block to touch a temp it reads makes that temp's first occurrence a read. */
  lemma FirstTouchReads(code: seq<Instr>, k: int, t: Temp)
    requires WellFormedCode(code) && 0 <= k < |code|
    requires forall j :: 0 <= j < k ==> t !in TempsOf(Occurrences(code[j]))
    requires t in UseTemps(Occurrences(code[k]))
    ensures FirstOcc(CodeOccurrences(code), t).Some? && FirstOcc(CodeOccurrences(code), t).value.Use?
  {
    var pre, mid := OccurrencesUpTo(code, k), Occurrences(code[k]);
    var body := CodeOccurrences(code);
    var upto := CodeOccurrences(code[..k + 1]);
    assert upto == pre + mid by {
      OccurrencesUpToPrefix(code, k);
      CodeOccurrencesStep(code, k);
    }
    assert upto <= body by {
      CodeOccurrencesPrefix(code, k + 1);
    }
    var rest := body[|upto|..];
    assert body == pre + (mid + rest);
    assert t !in TempsOf(pre) by {
      UntouchedUpTo(code, k, t);
    }
    assert FirstOcc(mid + rest, t) == FirstOcc(mid, t) by {
      ReadsFirst(code[k], t);
      FirstOccFound(mid, t);
      FirstOccKeep(mid, rest, t);
    }
    FirstOccSkip(pre, mid + rest, t);
    ReadsFirst(code[k], t);
  }

  /**
   * Reads of an instruction come before its write: when the first
   * instruction of a block to touch `t` reads it (`t = t + x` among others),
   * `t` is used rather than defined, whatever that instruction also writes.
   */
  lemma ReadBeforeWrite(code: seq<Instr>, endId: int, endVar: Temp?, k: int, t: Temp, marked: set<Temp>)
    requires WellFormedCode(code) && 0 <= k < |code| && t !in marked
    requires forall j :: 0 <= j < k ==> t !in TempsOf(Occurrences(code[j]))
    requires t in UseTemps(Occurrences(code[k]))
    ensures t in FirstUsed(BlockOccurrences(code, endId, endVar), marked)
    ensures t !in FirstDefined(BlockOccurrences(code, endId, endVar), marked)
  {
    var body := CodeOccurrences(code);
    var occ := BlockOccurrences(code, endId, endVar);
    FirstTouchReads(code, k, t);
    FirstOccFound(body, t);
    var tail := if endVar != null then [Use(endId, endVar)] else [];
    assert occ == body + tail;
    FirstOccKeep(body, tail, t);
    FirstOccFound(occ, t);
  }
}
