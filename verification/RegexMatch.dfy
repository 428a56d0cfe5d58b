/** The backtracking matcher that runs the bytecode, and the search for the leftmost match.

    Capture registers are overwritten in place and never restored when a choice fails. */
module RegexMatch {
  import opened Bytes
  import opened RegexSemantics
  import opened RegexBytecode

  /** A NUL-terminated subject as it lies in memory. */
  predicate CString(z: seq<byte>) {
    |z| > 0 && z[|z| - 1] == 0 && NulFree(Text(z))
  }

  function Text(z: seq<byte>): seq<byte>
    requires |z| > 0
  {
    z[..|z| - 1]
  }

  class StepVars {
    var loc1: int
    var loc2: int
    var locs: int           // negative when null
    var braslist: seq<int>
    var braelist: seq<int>
    var low: int
    var size: int

    ghost predicate Valid()
      reads this
    {
      |braslist| == NBRA && |braelist| == NBRA
    }

    ghost function Registers(): (r: Regs)
      reads this
    {
      Regs(braslist, braelist)
    }

    /** All zero, as after memset. */
    constructor ()
      ensures Valid() && loc1 == loc2 == 0 && locs == -1
    {
      loc1, loc2, locs := 0, 0, -1;
      braslist := seq(NBRA, _ => 0);
      braelist := seq(NBRA, _ => 0);
      low, size := 0, 0;
    }

    /** Load the bounds of the interval encoded at ep: the least count of the item, and how many
        repetitions more are tried. */
    method GetRange(code: seq<byte>, at: nat, ghost ep: nat, ghost it: Item)
      requires it.Single? && it.q.Range? && EncodesItem(code, ep, it) && at == ep + 1 + OperandSize(it.a)
      modifies this`low, this`size
      ensures low == MinCount(it.q) && size >= 0 && ExtraCap(it.q) == Some(size)
    {
      low := code[at];
      size := if code[at + 1] == NO_LIMIT then 20000 else code[at + 1] as int - low;
    }
  }

  /** do c = *lp++ while the atom accepts c: one past the first byte refused. */
  method RunOn(z: seq<byte>, lp0: nat, code: seq<byte>, op: byte, ep: nat, ghost a: Atom) returns (lp: nat)
    requires CString(z) && lp0 < |z|
    requires ProperAtom(a) && EncodesAtom(code, ep, a) && op == BaseOp(a)
    ensures lp == lp0 + RunLength(a, Text(z), lp0, None) + 1
  {
    lp := lp0;
    AcceptsIsHas(code, ep, a, z[lp]);
    while Accepts(code, op, ep, z[lp])
      invariant lp0 <= lp < |z|
      invariant Accepts(code, op, ep, z[lp]) == Has(a, z[lp])
      invariant RunLength(a, Text(z), lp0, None) == lp - lp0 + RunLength(a, Text(z), lp, None)
      decreases |z| - lp
    {
      assert z[lp] == Text(z)[lp];
      lp := lp + 1;
      AcceptsIsHas(code, ep, a, z[lp]);
    }
    lp := lp + 1;
  }

  /** The mandatory repetitions of an interval: while (low--). */
  method TakeLow(z: seq<byte>, lp0: nat, code: seq<byte>, op: byte, ep: nat, vars: StepVars, ghost a: Atom)
    returns (ok: bool, lp: nat)
    requires CString(z) && lp0 < |z| && vars.low >= 0
    requires ProperAtom(a) && EncodesAtom(code, ep, a) && op == BaseOp(a)
    modifies vars`low
    ensures ok == AllHave(a, Text(z), lp0, old(vars.low))
    ensures ok ==> lp == lp0 + old(vars.low)
  {
    lp := lp0;
    while vars.low > 0
      invariant 0 <= vars.low
      invariant lp < |z|
      invariant lp == lp0 + old(vars.low) - vars.low
      invariant AllHave(a, Text(z), lp0, lp - lp0)
    {
      vars.low := vars.low - 1;
      AcceptsIsHas(code, ep, a, z[lp]);
      if !Accepts(code, op, ep, z[lp]) {
        return false, lp;
      }
      assert z[lp] == Text(z)[lp];
      lp := lp + 1;
    }
    vars.low := -1;
    ok := true;
  }

  /** The optional repetitions of an interval: while (size--), leaving lp one past where the
      countdown starts, as RunOn does. */
  method TakeSize(z: seq<byte>, curlp: nat, code: seq<byte>, op: byte, ep: nat, vars: StepVars, ghost a: Atom)
    returns (lp: nat)
    requires CString(z) && curlp < |z| && vars.size >= 0
    requires ProperAtom(a) && EncodesAtom(code, ep, a) && op == BaseOp(a)
    modifies vars`size
    ensures lp == curlp + RunLength(a, Text(z), curlp, Some(old(vars.size))) + 1
  {
    lp := curlp;
    while vars.size > 0
      invariant 0 <= vars.size <= old(vars.size)
      invariant lp < |z|
      invariant lp == curlp + old(vars.size) - vars.size
      invariant RunLength(a, Text(z), curlp, Some(old(vars.size))) ==
        lp - curlp + RunLength(a, Text(z), lp, Some(vars.size))
    {
      vars.size := vars.size - 1;
      AcceptsIsHas(code, ep, a, z[lp]);
      if !Accepts(code, op, ep, z[lp]) {
        lp := lp + 1;
        return;
      }
      assert z[lp] == Text(z)[lp];
      lp := lp + 1;
    }
    vars.size := -1;
    lp := lp + 1;
  }

  lemma SameOutsideTrans(items: seq<Item>, j: nat, r0: Regs, r1: Regs, r2: Regs)
    requires j <= |items| && SameOutside(items, r1, r0) && SameOutside(items[j..], r2, r1)
    ensures SameOutside(items, r2, r0)
  {
    assert forall it :: it in items[j..] ==> it in items;
  }

  /** strncmp(bbeg, lp, ct) == 0 on the subject. */
  method SamePrefix(z: seq<byte>, bbeg: nat, lp: nat, ct: nat) returns (same: bool)
    requires CString(z) && bbeg + ct < |z| && lp < |z|
    ensures same == (lp + ct <= |Text(z)| && Text(z)[bbeg..bbeg + ct] == Text(z)[lp..lp + ct])
  {
    var i := 0;
    while i < ct
      invariant 0 <= i <= ct && lp + i < |z|
      invariant Text(z)[bbeg..bbeg + i] == Text(z)[lp..lp + i]
    {
      if z[bbeg + i] != z[lp + i] {
        if lp + ct <= |Text(z)| {
          assert Text(z)[bbeg..bbeg + ct][i] != Text(z)[lp..lp + ct][i];
        }
        return false;
      }
      assert Text(z)[bbeg..bbeg + i + 1] == Text(z)[bbeg..bbeg + i] + [z[bbeg + i]];
      assert Text(z)[lp..lp + i + 1] == Text(z)[lp..lp + i] + [z[lp + i]];
      i := i + 1;
    }
    same := true;
  }

  /** What the opcode under ep says about the items that start there. */
  lemma HeadItem(code: seq<byte>, ep: nat, items: seq<Item>)
    requires Encodes(code, ep, items)
    ensures ep < |code|
    ensures items == [] <==> code[ep] == CCEOF
    ensures items != [] ==> EncodesItem(code, ep, items[0]) && Encodes(code, ep + ItemSize(items[0]), items[1..])
    ensures items != [] && code[ep] == CDOL <==> items != [] && items[0].EndAnchor?
    ensures items != [] && code[ep] == CBRA <==> items != [] && items[0].Open?
    ensures items != [] && code[ep] == CKET <==> items != [] && items[0].Close?
    ensures items != [] && code[ep] == CBACK <==> items != [] && items[0].Back?
    ensures items != [] && code[ep] in {CCHR, CDOT, CXCL, CCL, NCCL} <==>
            items != [] && items[0].Single? && items[0].q == Once
  {
  }

  /** Run the bytecode at ep on the subject from lp0. The result, the end of the match and every
      capture register are those of the functional search, although failed attempts have
      overwritten registers on the way; after a failure only registers of these items changed. */
  method Advance(z: seq<byte>, lp0: nat, code: seq<byte>, ep0: nat, vars: StepVars,
                 ghost items: seq<Item>, ghost begun: set<nat>, ghost ended: set<nat>) returns (ok: bool)
    requires CString(z) && lp0 < |z|
    requires Encodes(code, ep0, items) && begun !! ended && Scoped(items, begun, ended)
    requires RegsOk(vars.Registers(), begun, ended, lp0)
    modifies vars
    ensures vars.locs == old(vars.locs) && vars.loc1 == old(vars.loc1) && vars.Valid()
    ensures var m := Match(items, Text(z), lp0, old(vars.Registers()), vars.locs);
      && ok == m.Some?
      && (ok ==> vars.loc2 == m.value.0 && vars.Registers() == m.value.1)
    ensures !ok ==> vars.loc2 == old(vars.loc2) && SameOutside(items, vars.Registers(), old(vars.Registers()))
    decreases |items|, 2
  {
    ghost var m := Match(items, Text(z), lp0, vars.Registers(), vars.locs);
    assert items[0..] == items;
    ok := Proceed(z, lp0, code, ep0, vars, items, begun, ended, m);
  }

  /** Run the bytecode at ep0, given what the search finds there. */
  method Proceed(z: seq<byte>, lp0: nat, code: seq<byte>, ep0: nat, vars: StepVars, ghost items: seq<Item>,
                 ghost begun: set<nat>, ghost ended: set<nat>, ghost m: Option<(nat, Regs)>) returns (ok: bool)
    requires CString(z) && lp0 < |z| && vars.Valid()
    requires Reached(items, 0, code, ep0, Text(z), lp0, vars.Registers(), vars.Registers(), vars.locs, begun, ended, m)
    modifies vars
    ensures vars.locs == old(vars.locs) && vars.loc1 == old(vars.loc1) && vars.Valid()
    ensures ok == m.Some?
    ensures ok ==> vars.loc2 == m.value.0 && vars.Registers() == m.value.1
    ensures !ok ==> vars.loc2 == old(vars.loc2) && SameOutside(items, vars.Registers(), old(vars.Registers()))
    decreases |items|, 1
  {
    var lp: nat, ep: nat := lp0, ep0;
    ghost var j: nat, b, e, s := 0, begun, ended, Text(z);
    ghost var r0 := vars.Registers();
    while true
      invariant lp < |z| && vars.Valid()
      invariant Reached(items, j, code, ep, s, lp, r0, vars.Registers(), vars.locs, b, e, m)
      invariant vars.locs == old(vars.locs) && vars.loc1 == old(vars.loc1) && vars.loc2 == old(vars.loc2)
      decreases |items| - j
    {
      ghost var r1 := vars.Registers();
      OpcodeAt(items, j, code, ep, s, lp, r0, r1, vars.locs, b, e, m);
      var op := code[ep];
      ep := ep + 1;
      if op == CCEOF {
        vars.loc2 := lp;
        return true;
      } else if op in {CCHR, CDOT, CXCL, NCCL, CCL, CDOL, CBRA, CKET, CBACK} {
        ok, lp, ep := PlainTurn(z, lp, code, op, ep, vars, items, j, r0, b, e, m);
        if !ok {
          return false;
        }
        j, b, e := j + 1, BegunAfter(items[j], b), EndedAfter(items[j], e);
      } else {
        ok := QuantTurn(z, lp, code, op, ep, vars, items, j, r0, b, e, m);
        return;
      }
    }
  }

  /** A plain item: on behind it, or the search has failed. */
  method PlainTurn(z: seq<byte>, lp: nat, code: seq<byte>, op: byte, ep: nat, vars: StepVars, ghost items: seq<Item>,
                   ghost j: nat, ghost r0: Regs, ghost b: set<nat>, ghost e: set<nat>, ghost m: Option<(nat, Regs)>)
    returns (ok: bool, lp2: nat, ep2: nat)
    requires CString(z) && lp < |z| && vars.Valid() && 0 < ep <= |code| && op == code[ep - 1]
    requires Reached(items, j, code, ep - 1, Text(z), lp, r0, vars.Registers(), vars.locs, b, e, m)
    requires j < |items| && Plain(items[j]) && EncodesItem(code, ep - 1, items[j])
    modifies vars`braslist, vars`braelist
    ensures vars.Valid()
    ensures ok ==> lp2 < |z| && Reached(items, j + 1, code, ep2, Text(z), lp2, r0, vars.Registers(), vars.locs,
                                        BegunAfter(items[j], b), EndedAfter(items[j], e), m)
    ensures !ok ==> m.None? && vars.Registers() == old(vars.Registers())
  {
    ReachedStep(items, j, code, ep - 1, Text(z), lp, r0, vars.Registers(), vars.locs, b, e, m);
    ok, lp2, ep2 := Simple(z, lp, code, op, ep, vars, items[j]);
  }

  /** A quantified item: it decides the outcome. */
  method QuantTurn(z: seq<byte>, lp: nat, code: seq<byte>, op: byte, ep: nat, vars: StepVars, ghost items: seq<Item>,
                   ghost j: nat, ghost r0: Regs, ghost b: set<nat>, ghost e: set<nat>, ghost m: Option<(nat, Regs)>)
    returns (ok: bool)
    requires CString(z) && lp < |z| && vars.Valid() && 0 < ep <= |code| && op == code[ep - 1]
    requires Reached(items, j, code, ep - 1, Text(z), lp, r0, vars.Registers(), vars.locs, b, e, m)
    requires j < |items| && !Plain(items[j]) && EncodesItem(code, ep - 1, items[j])
    modifies vars
    ensures vars.locs == old(vars.locs) && vars.loc1 == old(vars.loc1) && vars.Valid()
    ensures ok == m.Some?
    ensures ok ==> vars.loc2 == m.value.0 && vars.Registers() == m.value.1
    ensures !ok ==> vars.loc2 == old(vars.loc2) && SameOutside(items, vars.Registers(), r0)
    decreases |items|, 0
  {
    ghost var r1 := vars.Registers();
    ReachedQuant(items, j, code, ep - 1, Text(z), lp, r0, r1, vars.locs, b, e, m);
    ok := Repeated(z, lp, code, op, ep, vars, items[j], items[j + 1..], b, e, m);
    if !ok {
      SameOutsideTrans(items, j + 1, r0, r1, vars.Registers());
    }
  }

  /** The matcher stands at lp and ep before item j; from there the search finds m. */
  ghost predicate Reached(items: seq<Item>, j: nat, code: seq<byte>, ep: nat, s: seq<byte>, lp: nat,
                          r0: Regs, r: Regs, locs: int, b: set<nat>, e: set<nat>, m: Option<(nat, Regs)>)
  {
    && j <= |items| && lp <= |s|
    && Encodes(code, ep, items[j..]) && b !! e && Scoped(items[j..], b, e)
    && RegsOk(r, b, e, lp) && m == Match(items[j..], s, lp, r, locs)
    && SameOutside(items, r, r0)
  }

  /** What the opcode tells: the end, a plain item or a quantified one. */
  lemma OpcodeAt(items: seq<Item>, j: nat, code: seq<byte>, ep: nat, s: seq<byte>, lp: nat,
                 r0: Regs, r: Regs, locs: int, b: set<nat>, e: set<nat>, m: Option<(nat, Regs)>)
    requires Reached(items, j, code, ep, s, lp, r0, r, locs, b, e, m)
    ensures ep < |code| && (code[ep] == CCEOF <==> j == |items|)
    ensures j == |items| ==> m == Some((lp, r))
    ensures j < |items| ==> EncodesItem(code, ep, items[j])
    ensures j < |items| ==> (code[ep] in {CCHR, CDOT, CXCL, NCCL, CCL, CDOL, CBRA, CKET, CBACK} <==> Plain(items[j]))
  {
    HeadItem(code, ep, items[j..]);
  }

  lemma ReachedStep(items: seq<Item>, j: nat, code: seq<byte>, ep: nat, s: seq<byte>, lp: nat,
                    r0: Regs, r: Regs, locs: int, b: set<nat>, e: set<nat>, m: Option<(nat, Regs)>)
    requires Reached(items, j, code, ep, s, lp, r0, r, locs, b, e, m) && j < |items| && Plain(items[j])
    ensures items[j].Back? ==> items[j].k < NBRA && 0 <= r.bra[items[j].k] <= r.ket[items[j].k] <= lp
    ensures var t := Take(items[j], s, lp, r, locs, PlainCount(items[j]));
      && (t.None? ==> m.None?)
      && (t.Some? ==>
        Reached(items, j + 1, code, ep + ItemSize(items[j]), s, t.value.0, r0, t.value.1, locs,
                BegunAfter(items[j], b), EndedAfter(items[j], e), m))
  {
    var rest := items[j..];
    HeadItem(code, ep, rest);
    TakeStep(rest, s, lp, r, locs, b, e);
    assert rest[1..] == items[j + 1..];
    var t := Take(items[j], s, lp, r, locs, PlainCount(items[j]));
    if t.Some? {
      SameOutsideTrans(items, j, r0, r, t.value.1);
    }
  }

  lemma ReachedQuant(items: seq<Item>, j: nat, code: seq<byte>, ep: nat, s: seq<byte>, lp: nat,
                     r0: Regs, r: Regs, locs: int, b: set<nat>, e: set<nat>, m: Option<(nat, Regs)>)
    requires Reached(items, j, code, ep, s, lp, r0, r, locs, b, e, m) && j < |items| && !Plain(items[j])
    ensures m == SearchRepeated(items[j], items[j + 1..], s, lp, r, locs)
    ensures Encodes(code, ep + ItemSize(items[j]), items[j + 1..]) && Scoped(items[j + 1..], b, e)
  {
    var rest := items[j..];
    assert rest[1..] == items[j + 1..];
    HeadItem(code, ep, rest);
    QuantStep(rest, s, lp, r, locs);
    ScopedHead(rest, b, e);
  }

  /** The search passes a plain item exactly when it can be taken, and then goes on behind it. */
  lemma TakeStep(items: seq<Item>, s: seq<byte>, pos: nat, r: Regs, locs: int, begun: set<nat>, ended: set<nat>)
    requires items != [] && Plain(items[0]) && pos <= |s|
    requires begun !! ended && Scoped(items, begun, ended) && RegsOk(r, begun, ended, pos)
    ensures items[0].Back? ==> items[0].k in ended && items[0].k < NBRA
    ensures items[0].Open? || items[0].Close? ==> items[0].k < NBRA
    ensures var t := Take(items[0], s, pos, r, locs, PlainCount(items[0]));
      && (t.None? ==> Match(items, s, pos, r, locs).None?)
      && (t.Some? ==>
        var (next, r2) := t.value;
        var b2, e2 := BegunAfter(items[0], begun), EndedAfter(items[0], ended);
        && next <= |s| && Match(items, s, pos, r, locs) == Match(items[1..], s, next, r2, locs)
        && b2 !! e2 && Scoped(items[1..], b2, e2) && RegsOk(r2, b2, e2, next)
        && SameOutside(items, r2, r))
  {
  }

  /** One plain item of the bytecode, its operand at ep0. */
  method Simple(z: seq<byte>, lp0: nat, code: seq<byte>, op: byte, ep0: nat, vars: StepVars, ghost it: Item)
    returns (ok: bool, lp: nat, ep: nat)
    requires CString(z) && lp0 < |z| && vars.Valid()
    requires ep0 > 0 && Plain(it) && EncodesItem(code, ep0 - 1, it) && op == code[ep0 - 1]
    requires it.Back? ==> it.k < NBRA && 0 <= vars.braslist[it.k] <= vars.braelist[it.k] <= lp0
    modifies vars`braslist, vars`braelist
    ensures vars.Valid()
    ensures var t := Take(it, Text(z), lp0, old(vars.Registers()), vars.locs, PlainCount(it));
      && ok == t.Some?
      && (ok ==> lp == t.value.0 && vars.Registers() == t.value.1)
    ensures ok ==> lp < |z| && ep == ep0 - 1 + ItemSize(it)
    ensures !ok ==> vars.Registers() == old(vars.Registers())
  {
    lp, ep, ok := lp0, ep0, false;
    if op == CDOL {
      ok := z[lp] == 0;
    } else if op == CBRA {
      vars.braslist := vars.braslist[code[ep] := lp];
      ep, ok := ep + 1, true;
    } else if op == CKET {
      vars.braelist := vars.braelist[code[ep] := lp];
      ep, ok := ep + 1, true;
    } else if op == CBACK {
      var bbeg := vars.braslist[code[ep]];
      var ct := vars.braelist[code[ep]] - bbeg;
      ep := ep + 1;
      ok := SamePrefix(z, bbeg, lp, ct);
      if ok {
        lp := lp + ct;
      }
    } else {
      AcceptsIsHas(code, ep, it.a, z[lp]);
      ok := Accepts(code, op, ep, z[lp]);
      lp := lp + 1;
      ep := ep + (if op == CCHR then 1 else if op == CDOT then 0 else if op == CXCL then 32 else 16);
    }
  }

  lemma RegsLater(r: Regs, begun: set<nat>, ended: set<nat>, pos: nat, later: nat)
    requires RegsOk(r, begun, ended, pos) && pos <= later
    ensures RegsOk(r, begun, ended, later)
  {
  }

  /** A starred or interval atom before the items rest: take the longest run, then count down.
      m is what the search finds here. */
  method Repeated(z: seq<byte>, lp0: nat, code: seq<byte>, op: byte, ep0: nat, vars: StepVars, ghost it: Item,
                  ghost rest: seq<Item>, ghost begun: set<nat>, ghost ended: set<nat>, ghost m: Option<(nat, Regs)>)
    returns (ok: bool)
    requires CString(z) && lp0 < |z| && it.Single? && it.q != Once
    requires ep0 > 0 && EncodesItem(code, ep0 - 1, it) && op == code[ep0 - 1]
    requires Encodes(code, ep0 - 1 + ItemSize(it), rest)
    requires begun !! ended && Scoped(rest, begun, ended)
    requires RegsOk(vars.Registers(), begun, ended, lp0)
    requires m == SearchRepeated(it, rest, Text(z), lp0, vars.Registers(), vars.locs)
    modifies vars
    ensures vars.locs == old(vars.locs) && vars.loc1 == old(vars.loc1) && vars.Valid()
    ensures ok == m.Some?
    ensures ok ==> vars.loc2 == m.value.0 && vars.Registers() == m.value.1
    ensures !ok ==> vars.loc2 == old(vars.loc2) && SameOutside(rest, vars.Registers(), old(vars.Registers()))
    decreases |rest|, 5
  {
    var lp, curlp, ep;
    ok, lp, curlp, ep := StartRun(z, lp0, code, op, ep0, vars, it, rest, m);
    if ok {
      RegsLater(vars.Registers(), begun, ended, lp0, curlp);
      ok := CountDown(z, lp, curlp, code, ep, vars, rest, begun, ended, m);
    }
  }

  /** The run is taken: what the search finds is found by counting down from its end. */
  method StartRun(z: seq<byte>, lp0: nat, code: seq<byte>, op: byte, ep0: nat, vars: StepVars, ghost it: Item,
                  ghost rest: seq<Item>, ghost m: Option<(nat, Regs)>)
    returns (ok: bool, lp: nat, curlp: nat, ep: nat)
    requires CString(z) && lp0 < |z| && it.Single? && it.q != Once && vars.Valid()
    requires ep0 > 0 && EncodesItem(code, ep0 - 1, it) && op == code[ep0 - 1]
    requires m == SearchRepeated(it, rest, Text(z), lp0, vars.Registers(), vars.locs)
    modifies vars`low, vars`size
    ensures !ok ==> m.None?
    ensures ok ==> lp0 <= curlp < lp <= |z| && ep == ep0 - 1 + ItemSize(it)
    ensures ok ==> m == TryDown(rest, Text(z), curlp, lp - 1, vars.Registers(), vars.locs)
  {
    ok, lp, curlp, ep := Longest(z, lp0, code, op, ep0, vars, it);
  }

  /** The longest admissible run of a starred or interval atom: from curlp, where the mandatory
      repetitions end, to lp - 1. */
  method Longest(z: seq<byte>, lp0: nat, code: seq<byte>, op: byte, ep0: nat, vars: StepVars, ghost it: Item)
    returns (ok: bool, lp: nat, curlp: nat, ep: nat)
    requires CString(z) && lp0 < |z| && it.Single? && it.q != Once
    requires ep0 > 0 && EncodesItem(code, ep0 - 1, it) && op == code[ep0 - 1]
    modifies vars`low, vars`size
    ensures ok == AllHave(it.a, Text(z), lp0, MinCount(it.q))
    ensures ok ==> curlp == lp0 + MinCount(it.q) < |z|
    ensures ok ==> lp == curlp + RunLength(it.a, Text(z), curlp, ExtraCap(it.q)) + 1
    ensures ok ==> ep == ep0 - 1 + ItemSize(it)
  {
    lp, ep, curlp, ok := lp0, ep0, lp0, true;
    var base: byte := if op % 4 == STAR then op - STAR else op - RNGE;
    var operand := if base == CCHR then 1 else if base == CDOT then 0 else if base == CXCL then 32 else 16;
    if op % 4 == STAR {
      lp := RunOn(z, lp, code, base, ep, it.a);
      ep := ep + operand;
    } else {
      vars.GetRange(code, ep + operand, ep0 - 1, it);
      ok, lp := TakeLow(z, lp, code, base, ep, vars, it.a);
      if ok {
        curlp := lp;
        lp := TakeSize(z, lp, code, base, ep, vars, it.a);
        ep := ep + operand + 2;
      }
    }
  }

  /** The shared tail of every repetition: try the rest of the pattern from lp - 1 down to curlp,
      giving up at locs. */
  method CountDown(z: seq<byte>, lp0: nat, curlp: nat, code: seq<byte>, ep: nat, vars: StepVars,
                   ghost items: seq<Item>, ghost begun: set<nat>, ghost ended: set<nat>, ghost m: Option<(nat, Regs)>)
    returns (ok: bool)
    requires CString(z) && curlp < lp0 <= |z|
    requires Encodes(code, ep, items) && begun !! ended && Scoped(items, begun, ended)
    requires RegsOk(vars.Registers(), begun, ended, curlp)
    requires m == TryDown(items, Text(z), curlp, lp0 - 1, vars.Registers(), vars.locs)
    modifies vars
    ensures vars.locs == old(vars.locs) && vars.loc1 == old(vars.loc1) && vars.Valid()
    ensures ok == m.Some?
    ensures ok ==> vars.loc2 == m.value.0 && vars.Registers() == m.value.1
    ensures !ok ==> vars.loc2 == old(vars.loc2) && SameOutside(items, vars.Registers(), old(vars.Registers()))
    decreases |items|, 4
  {
    var lp := lp0;
    ghost var r0, s := vars.Registers(), Text(z);
    while true
      invariant curlp < lp <= |z|
      invariant vars.locs == old(vars.locs) && vars.loc1 == old(vars.loc1) && vars.loc2 == old(vars.loc2)
      invariant SameOutside(items, vars.Registers(), r0)
      invariant m == TryDown(items, s, curlp, lp - 1, r0, vars.locs)
      decreases lp
    {
      lp := lp - 1;
      if lp == vars.locs {
        return false;
      }
      ok := Attempt(z, lp, code, ep, vars, items, begun, ended, r0, curlp);
      if ok {
        return true;
      }
      if lp <= curlp {
        return false;
      }
    }
  }

  /** Another attempt, after others have failed: it finds what it would find with the registers r0. */
  method Attempt(z: seq<byte>, lp: nat, code: seq<byte>, ep: nat, vars: StepVars, ghost items: seq<Item>,
                 ghost begun: set<nat>, ghost ended: set<nat>, ghost r0: Regs, ghost pos: nat) returns (ok: bool)
    requires CString(z) && pos <= lp < |z|
    requires Encodes(code, ep, items) && begun !! ended && Scoped(items, begun, ended)
    requires SameOutside(items, vars.Registers(), r0) && RegsOk(r0, begun, ended, pos)
    modifies vars
    ensures vars.locs == old(vars.locs) && vars.loc1 == old(vars.loc1) && vars.Valid()
    ensures var m := Match(items, Text(z), lp, r0, vars.locs);
      ok == m.Some? && (ok ==> vars.loc2 == m.value.0 && vars.Registers() == m.value.1)
    ensures !ok ==> vars.loc2 == old(vars.loc2) && SameOutside(items, vars.Registers(), r0)
    decreases |items|, 3
  {
    ghost var r1 := vars.Registers();
    StaleRegsDontMatter(items, Text(z), lp, r1, r0, vars.locs, begun, ended);
    LiveRegsKept(items, r1, r0, begun, ended, pos, lp);
    ok := Advance(z, lp, code, ep, vars, items, begun, ended);
    if !ok {
      SameOutsideTrans(items, 0, r0, r1, vars.Registers());
    }
  }

  /** Failed attempts leave the registers of groups seen before intact. */
  lemma {:induction false} LiveRegsKept(items: seq<Item>, r1: Regs, r0: Regs, begun: set<nat>, ended: set<nat>,
                                        pos0: nat, pos: nat)
    requires SameOutside(items, r1, r0) && Scoped(items, begun, ended) && begun !! ended
    requires RegsOk(r0, begun, ended, pos0) && pos0 <= pos
    ensures RegsOk(r1, begun, ended, pos)
  {
    forall k | k in ended && k < NBRA ensures 0 <= r1.bra[k] <= r1.ket[k] <= pos {
      ClosedNotWritten(items, begun, ended, k);
    }
    forall k | k in begun && k < NBRA ensures 0 <= r1.bra[k] <= pos {
      BegunNotReopened(items, begun, ended, k);
    }
  }

  lemma {:induction false} BegunNotReopened(items: seq<Item>, begun: set<nat>, ended: set<nat>, k: nat)
    requires Scoped(items, begun, ended) && (k in begun || k in ended)
    ensures Open(k) !in items
    decreases |items|
  {
    if items != [] {
      BegunNotReopened(items[1..], BegunAfter(items[0], begun), EndedAfter(items[0], ended), k);
      assert items == [items[0]] + items[1..];
    }
  }

  /** Where an anchored or floating pattern matches first. */
  function Step(items: seq<Item>, circf: bool, s: seq<byte>, pos: nat, r: Regs, locs: int): (f: Found)
    requires ValidRegs(r) && pos <= |s|
    ensures f.Found? ==> pos <= f.start <= f.end <= |s| && ValidRegs(f.regs)
  {
    if !circf then FirstMatch(items, s, pos, r, locs)
    else
      match Match(items, s, pos, r, locs)
      case Some((end, regs)) => Found(pos, end, regs)
      case None => Missing
  }

  /** Search the subject from p1: leftmost start, with a fast path that only tries positions
      holding the first character when the code starts with a literal. Both paths give the
      leftmost match of the plain scan, its end and its captures. */
  method SedStep(z: seq<byte>, p1: nat, code: seq<byte>, p2: nat, circf: bool, vars: StepVars, ghost items: seq<Item>)
    returns (ok: bool)
    requires CString(z) && p1 < |z| && vars.Valid()
    requires Encodes(code, p2, items) && Scoped(items, {}, {})
    modifies vars
    ensures vars.Valid() && vars.locs == old(vars.locs)
    ensures var f := Step(items, circf, Text(z), p1, old(vars.Registers()), vars.locs);
      && ok == f.Found?
      && (ok ==> vars.loc1 == f.start && vars.loc2 == f.end && vars.Registers() == f.regs)
    ensures !ok ==> vars.loc2 == old(vars.loc2) && SameOutside(items, vars.Registers(), old(vars.Registers()))
  {
    if circf {
      vars.loc1 := p1;
      ok := Advance(z, p1, code, p2, vars, items, {}, {});
      return;
    }
    ghost var f := FirstMatch(items, Text(z), p1, vars.Registers(), vars.locs);
    ok := Scan(z, p1, code, p2, vars, items, f);
  }

  lemma FirstAt(items: seq<Item>, s: seq<byte>, p: nat, r: Regs, locs: int)
    requires ValidRegs(r) && p <= |s|
    ensures var m := Match(items, s, p, r, locs);
      FirstMatch(items, s, p, r, locs) ==
        if m.Some? then Found(p, m.value.0, m.value.1)
        else if p < |s| then FirstMatch(items, s, p + 1, r, locs)
        else Missing
  {
  }

  /** The positions from p1 on, one after the other; f is the first match. */
  method Scan(z: seq<byte>, p1: nat, code: seq<byte>, p2: nat, vars: StepVars, ghost items: seq<Item>, ghost f: Found)
    returns (ok: bool)
    requires CString(z) && p1 < |z| && vars.Valid()
    requires Encodes(code, p2, items) && Scoped(items, {}, {})
    requires f == FirstMatch(items, Text(z), p1, vars.Registers(), vars.locs)
    modifies vars
    ensures vars.Valid() && vars.locs == old(vars.locs) && ok == f.Found?
    ensures ok ==> vars.loc1 == f.start && vars.loc2 == f.end && vars.Registers() == f.regs
    ensures !ok ==> vars.loc2 == old(vars.loc2) && SameOutside(items, vars.Registers(), old(vars.Registers()))
  {
    HeadItem(code, p2, items);
    var fast := code[p2] == CCHR;
    var p: nat := p1;
    ghost var r0, s := vars.Registers(), Text(z);
    while true
      invariant p < |z|
      invariant vars.locs == old(vars.locs) && vars.loc2 == old(vars.loc2)
      invariant SameOutside(items, vars.Registers(), r0)
      invariant f == FirstMatch(items, s, p, r0, vars.locs)
      decreases |z| - p
    {
      FirstAt(items, s, p, r0, vars.locs);
      if !fast || z[p] == code[p2 + 1] {
        ok := Attempt(z, p, code, p2, vars, items, {}, {}, r0, p);
        if ok {
          vars.loc1 := p;
          return true;
        }
      } else {
        FastPathSkips(code, p2, items, s, p, r0, vars.locs);
      }
      if z[p] == 0 {
        return false;
      }
      p := p + 1;
    }
  }

  /** A literal first item cannot match where its character is not. */
  lemma FastPathSkips(code: seq<byte>, ep: nat, items: seq<Item>, s: seq<byte>, pos: nat, r: Regs, locs: int)
    requires Encodes(code, ep, items) && code[ep] == CCHR && ValidRegs(r) && pos <= |s| && NulFree(s)
    requires At(s, pos) != code[ep + 1]
    ensures Match(items, s, pos, r, locs).None?
  {
    HeadItem(code, ep, items);
    assert items[0].a == Chr(code[ep + 1]);
  }
}
