/** The s command as one left-to-right pass: the matches of the original line, and the line with
    chosen matches replaced. Also why it does not matter where in memory a suffix of the line lies. */
module SubstSpec {
  import opened Bytes
  import opened RegexSemantics
  import opened RegexMatch

  const GLOBAL := 999

  // ---------------------------------------------------------------- the matches of a line

  /** A later match always makes progress: some item consumes, or the pattern is anchored at the end. */
  predicate Productive(items: seq<Item>) {
    Consuming(items) || EndAnchor in items
  }

  lemma {:induction false} EndAnchorEnds(items: seq<Item>, s: seq<byte>, pos: nat, r: Regs, locs: int)
    requires ValidRegs(r) && pos <= |s| && EndAnchor in items && Match(items, s, pos, r, locs).Some?
    ensures Match(items, s, pos, r, locs).value.0 == |s|
    decreases |items|, 1, 0
  {
    var rest := items[1..];
    match items[0]
    case EndAnchor =>
    case Single(a, q) =>
      var low := pos + MinCount(q);
      if q == Once {
        EndAnchorEnds(rest, s, low, r, locs);
      } else {
        TryDownEnds(rest, s, low, low + RunLength(a, s, low, ExtraCap(q)), r, locs);
      }
    case Open(k) => EndAnchorEnds(rest, s, pos, SetBra(r, k, pos), locs);
    case Close(k) => EndAnchorEnds(rest, s, pos, SetKet(r, k, pos), locs);
    case Back(k) => EndAnchorEnds(rest, s, pos + (r.ket[k] - r.bra[k]), r, locs);
  }

  lemma {:induction false} TryDownEnds(items: seq<Item>, s: seq<byte>, low: nat, at: nat, r: Regs, locs: int)
    requires ValidRegs(r) && low <= at <= |s| && EndAnchor in items && TryDown(items, s, low, at, r, locs).Some?
    ensures TryDown(items, s, low, at, r, locs).value.0 == |s|
    decreases |items|, 2, at - low
  {
    if Match(items, s, at, r, locs).Some? {
      EndAnchorEnds(items, s, at, r, locs);
    } else {
      TryDownEnds(items, s, low, at - 1, r, locs);
    }
  }

  /** A later match of a productive pattern ends past where the search for it began. */
  lemma LaterMatchAdvances(items: seq<Item>, s: seq<byte>, pos: nat, r: Regs)
    requires ValidRegs(r) && pos < |s| && Productive(items)
    ensures var f := FirstMatch(items, s, pos, r, pos); f.Found? ==> f.end > pos
  {
    var f := FirstMatch(items, s, pos, r, pos);
    if f.Found? {
      if EndAnchor in items {
        EndAnchorEnds(items, s, f.start, r, pos);
      } else {
        MatchPassesLocs(items, s, f.start, r, pos);
      }
    }
  }

  /** Only groups and back-references: such a pattern matches the empty string wherever it is tried,
      so the replacement loop would find it at the same place for ever. */
  lemma {:induction false} UnproductiveStays(items: seq<Item>, s: seq<byte>, pos: nat, r: Regs, locs: int,
                                             begun: set<nat>, ended: set<nat>)
    requires ValidRegs(r) && pos <= |s| && !Productive(items) && Scoped(items, begun, ended)
    requires forall k :: (k in begun || k in ended) && k < NBRA ==> r.bra[k] == pos
    requires forall k :: k in ended && k < NBRA ==> r.ket[k] == pos
    ensures Match(items, s, pos, r, locs).Some? && Match(items, s, pos, r, locs).value.0 == pos
    decreases |items|
  {
    if items != [] {
      var rest := items[1..];
      assert items == [items[0]] + rest;
      assert !Productive(rest);
      assert !items[0].Single? && items[0] != EndAnchor;
      match items[0]
      case Open(k) => UnproductiveStays(rest, s, pos, SetBra(r, k, pos), locs, begun + {k}, ended);
      case Close(k) => UnproductiveStays(rest, s, pos, SetKet(r, k, pos), locs, begun - {k}, ended + {k});
      case Back(k) => UnproductiveStays(rest, s, pos, r, locs, begun, ended);
    }
  }

  /** The matches after the first, searched from pos. */
  function Later(items: seq<Item>, line: seq<byte>, pos: nat, r: Regs): (ms: seq<Found>)
    requires ValidRegs(r) && pos <= |line| && Productive(items)
    ensures forall i :: 0 <= i < |ms| ==> ms[i].Found?
    decreases |line| - pos
  {
    if pos == |line| then []
    else
      LaterMatchAdvances(items, line, pos, r);
      var f := FirstMatch(items, line, pos, r, pos);
      if f.Missing? then [] else [f] + Later(items, line, f.end, r)
  }

  /** The pattern may be applied again after its first match. */
  predicate Repeatable(items: seq<Item>, circf: bool, gfl: nat) {
    gfl == 0 || circf || Productive(items)
  }

  /** The matches the command considers: only the first for a plain s or an anchored pattern. */
  function AllMatches(items: seq<Item>, circf: bool, gfl: nat, line: seq<byte>, r: Regs): (ms: seq<Found>)
    requires ValidRegs(r) && Repeatable(items, circf, gfl)
    ensures forall i :: 0 <= i < |ms| ==> ms[i].Found?
  {
    var f := Step(items, circf, line, 0, r, -1);
    if f.Missing? then []
    else [f] + if gfl == 0 || circf then [] else Later(items, line, f.end, r)
  }

  // ---------------------------------------------------------------- replacing matches

  /** The replacement text with "&" and "\d" filled in from the match f of the line. */
  function Expand(rhs: seq<byte>, line: seq<byte>, f: Found): seq<byte>
    decreases |rhs|
  {
    if rhs == [] || f.Missing? then [] else FirstPiece(rhs, line, f) + Expand(Remaining(rhs), line, f)
  }

  /** What the first element of the replacement text stands for. */
  function FirstPiece(rhs: seq<byte>, line: seq<byte>, f: Found): seq<byte>
    requires rhs != [] && f.Found?
  {
    if rhs[0] == AMPERSAND then Slice(line, f.start, f.end)
    else if rhs[0] == BACKSLASH && |rhs| > 1 then
      if ONE <= rhs[1] <= NINE && ValidRegs(f.regs)
      then Slice(line, f.regs.bra[rhs[1] - ONE], f.regs.ket[rhs[1] - ONE])
      else [rhs[1]]
    else [rhs[0]]
  }

  /** The replacement text behind its first element. */
  function Remaining(rhs: seq<byte>): (r: seq<byte>)
    requires rhs != []
    ensures |r| < |rhs|
  {
    if rhs[0] == BACKSLASH && |rhs| > 1 then rhs[2..] else rhs[1..]
  }

  /** Looking at the replacement text from rp on. */
  lemma RestAt(rhs: seq<byte>, rp: nat)
    requires rp < |rhs|
    ensures rhs[rp..][0] == rhs[rp] && rhs[rp..][1..] == rhs[rp + 1..]
    ensures rp + 1 < |rhs| ==> rhs[rp..][1] == rhs[rp + 1] && rhs[rp..][2..] == rhs[rp + 2..]
  {
  }

  function Slice(s: seq<byte>, i: int, j: int): seq<byte> {
    if 0 <= i <= j <= |s| then s[i..j] else []
  }

  predicate FirstOk(rhs: seq<byte>, items: seq<Item>)
    requires rhs != []
  {
    && rhs[0] != 0
    && (rhs[0] == BACKSLASH ==>
      && |rhs| > 1 && rhs[1] != 0
      && (ONE <= rhs[1] <= NINE ==> Open(rhs[1] - ONE) in items && Close(rhs[1] - ONE) in items))
  }

  /** The replacement text is a C string in which every backslash escapes something and every digit
      names a group of the pattern. */
  predicate RhsOk(rhs: seq<byte>, items: seq<Item>)
    decreases |rhs|
  {
    rhs == [] || (FirstOk(rhs, items) && RhsOk(Remaining(rhs), items))
  }

  /** Is the k-th match (from 1) replaced? */
  predicate Chosen(gfl: nat, k: nat) {
    gfl == 0 || gfl >= GLOBAL || gfl == k
  }

  /** The line from pos on, with the chosen ones among its matches ms replaced; ms[0] has number k. */
  function Splice(line: seq<byte>, pos: int, ms: seq<Found>, k: nat, gfl: nat, rhs: seq<byte>): seq<byte>
    decreases |ms|
  {
    if ms == [] || ms[0].Missing? then Slice(line, pos, |line|)
    else
      Slice(line, pos, ms[0].start)
      + (if Chosen(gfl, k) then Expand(rhs, line, ms[0]) else Slice(line, ms[0].start, ms[0].end))
      + Splice(line, ms[0].end, ms[1..], k + 1, gfl, rhs)
  }

  // ---------------------------------------------------------------- matching a suffix elsewhere

  /** s1 from b1 on and s2 from b2 on are the same text. */
  predicate SameSuffix(s1: seq<byte>, b1: nat, s2: seq<byte>, b2: nat) {
    b1 <= |s1| && b2 <= |s2| && s1[b1..] == s2[b2..]
  }

  /** Registers of the groups in b and e point to the same places of the common suffix. */
  ghost predicate Moved(r1: Regs, b1: nat, r2: Regs, b2: nat, begun: set<nat>, ended: set<nat>) {
    && ValidRegs(r1) && ValidRegs(r2)
    && (forall k :: (k in begun || k in ended) && k < NBRA ==> r1.bra[k] >= b1 && r2.bra[k] - b2 == r1.bra[k] - b1)
    && (forall k :: k in ended && k < NBRA ==> r1.ket[k] >= b1 && r2.ket[k] - b2 == r1.ket[k] - b1)
  }

  predicate SameLocs(l1: int, b1: nat, l2: int, b2: nat) {
    l1 - b1 == l2 - b2 || (l1 < b1 && l2 < b2)
  }

  /** The two outcomes are the same up to where the suffix lies; every group is then captured. */
  ghost predicate SameOutcome(m1: Option<(nat, Regs)>, b1: nat, m2: Option<(nat, Regs)>, b2: nat, items: seq<Item>,
                              begun: set<nat>, ended: set<nat>) {
    && m1.Some? == m2.Some?
    && (m1.Some? ==>
      && m1.value.0 >= b1 && m2.value.0 - b2 == m1.value.0 - b1
      && ValidRegs(m1.value.1) && ValidRegs(m2.value.1)
      && (forall k: nat :: (k in begun || k in ended || Open(k) in items) && k < NBRA ==>
           m1.value.1.bra[k] >= b1 && m2.value.1.bra[k] - b2 == m1.value.1.bra[k] - b1)
      && (forall k: nat :: (k in ended || Close(k) in items) && k < NBRA ==>
           m1.value.1.ket[k] >= b1 && m2.value.1.ket[k] - b2 == m1.value.1.ket[k] - b1))
  }

  lemma SuffixByte(s1: seq<byte>, b1: nat, s2: seq<byte>, b2: nat, i: nat)
    requires SameSuffix(s1, b1, s2, b2) && b1 + i < |s1|
    ensures b2 + i < |s2| && s1[b1 + i] == s2[b2 + i]
  {
    assert s1[b1..][i] == s2[b2..][i];
  }

  lemma SuffixRun(a: Atom, s1: seq<byte>, q1: nat, s2: seq<byte>, q2: nat, n: nat)
    requires SameSuffix(s1, q1, s2, q2)
    ensures AllHave(a, s1, q1, n) == AllHave(a, s2, q2, n)
  {
    assert |s1| - q1 == |s2| - q2 by { assert |s1[q1..]| == |s2[q2..]|; }
    forall i | q1 <= i < q1 + n && q1 + n <= |s1| ensures s1[i] == s2[q2 + (i - q1)] {
      SuffixByte(s1, q1, s2, q2, i - q1);
    }
    forall i | q2 <= i < q2 + n && q1 + n <= |s1| ensures s2[i] == s1[q1 + (i - q2)] {
      SuffixByte(s1, q1, s2, q2, i - q2);
    }
  }

  lemma SuffixOn(s1: seq<byte>, b1: nat, s2: seq<byte>, b2: nat, n: nat)
    requires SameSuffix(s1, b1, s2, b2) && b1 + n <= |s1|
    ensures b2 + n <= |s2| && SameSuffix(s1, b1 + n, s2, b2 + n) && |s1| - b1 == |s2| - b2
  {
    assert |s1[b1..]| == |s2[b2..]|;
    assert s1[b1 + n..] == s1[b1..][n..] == s2[b2..][n..] == s2[b2 + n..];
  }

  lemma {:induction false} SuffixRunLength(a: Atom, s1: seq<byte>, q1: nat, s2: seq<byte>, q2: nat, cap: Option<nat>)
    requires SameSuffix(s1, q1, s2, q2)
    ensures RunLength(a, s1, q1, cap) == RunLength(a, s2, q2, cap)
    decreases |s1| - q1
  {
    SuffixOn(s1, q1, s2, q2, 0);
    if q1 < |s1| {
      SuffixByte(s1, q1, s2, q2, 0);
      if cap != Some(0) && Has(a, s1[q1]) {
        SuffixOn(s1, q1, s2, q2, 1);
        SuffixRunLength(a, s1, q1 + 1, s2, q2 + 1, if cap.Some? then Some(cap.value - 1) else None);
      }
    }
  }

  lemma SuffixSlice(s1: seq<byte>, b1: nat, s2: seq<byte>, b2: nat, x: nat, y: nat)
    requires SameSuffix(s1, b1, s2, b2) && x <= y && b1 + y <= |s1|
    ensures b2 + y <= |s2| && s1[b1 + x..b1 + y] == s2[b2 + x..b2 + y]
  {
    SuffixOn(s1, b1, s2, b2, 0);
    var u, v := s1[b1 + x..b1 + y], s2[b2 + x..b2 + y];
    forall i | 0 <= i < y - x ensures u[i] == v[i] {
      SuffixByte(s1, b1, s2, b2, x + i);
    }
  }

  lemma SuffixRepeats(s1: seq<byte>, b1: nat, s2: seq<byte>, b2: nat, n: nat, r1: Regs, r2: Regs, k: nat)
    requires SameSuffix(s1, b1, s2, b2) && b1 + n <= |s1| && ValidRegs(r1) && ValidRegs(r2) && k < NBRA
    requires r1.bra[k] >= b1 && r2.bra[k] - b2 == r1.bra[k] - b1
    requires r1.ket[k] >= b1 && r2.ket[k] - b2 == r1.ket[k] - b1
    ensures Repeats(s1, b1 + n, r1, k) == Repeats(s2, b2 + n, r2, k)
  {
    SuffixOn(s1, b1, s2, b2, 0);
    var x, y := r1.bra[k] - b1, r1.ket[k] - b1;
    if x <= y && b1 + y <= |s1| && b1 + n + (y - x) <= |s1| {
      SuffixSlice(s1, b1, s2, b2, x, y);
      SuffixSlice(s1, b1, s2, b2, n, n + (y - x));
    }
  }

  lemma TakeMoves(it: Item, s1: seq<byte>, b1: nat, r1: Regs, l1: int, s2: seq<byte>, b2: nat, r2: Regs, l2: int,
                  n: nat, begun: set<nat>, ended: set<nat>)
    requires Plain(it) && SameSuffix(s1, b1, s2, b2) && b1 + n <= |s1| && b2 + n <= |s2|
    requires Moved(r1, b1, r2, b2, begun, ended) && begun !! ended && Scoped([it], begun, ended)
    ensures var t1, t2 := Take(it, s1, b1 + n, r1, l1, PlainCount(it)), Take(it, s2, b2 + n, r2, l2, PlainCount(it));
      && t1.Some? == t2.Some?
      && (t1.Some? ==>
        && b1 + n <= t1.value.0 <= |s1| && t2.value.0 - b2 == t1.value.0 - b1 && t2.value.0 <= |s2|
        && Moved(t1.value.1, b1, t2.value.1, b2, BegunAfter(it, begun), EndedAfter(it, ended)))
  {
    SuffixOn(s1, b1, s2, b2, n);
    match it
    case Single(a, q) => SuffixRun(a, s1, b1 + n, s2, b2 + n, 1);
    case Back(k) => SuffixRepeats(s1, b1, s2, b2, n, r1, r2, k);
    case _ =>
  }

  lemma OutcomeCons(m1: Option<(nat, Regs)>, b1: nat, m2: Option<(nat, Regs)>, b2: nat, items: seq<Item>,
                    begun: set<nat>, ended: set<nat>)
    requires items != []
    requires SameOutcome(m1, b1, m2, b2, items[1..], BegunAfter(items[0], begun), EndedAfter(items[0], ended))
    ensures SameOutcome(m1, b1, m2, b2, items, begun, ended)
  {
    assert items == [items[0]] + items[1..];
  }

  lemma PlainStepAt(items: seq<Item>, s: seq<byte>, b: nat, n: nat, r: Regs, locs: int, n1: nat, r1: Regs)
    requires items != [] && Plain(items[0]) && b + n <= |s| && ValidRegs(r)
    requires Take(items[0], s, b + n, r, locs, PlainCount(items[0])) == Some((b + n1, r1))
    ensures b + n1 <= |s| && Match(items, s, b + n, r, locs) == Match(items[1..], s, b + n1, r1, locs)
  {
    PlainStep(items, s, b + n, r, locs);
  }

  lemma QuantStepAt(items: seq<Item>, s: seq<byte>, b: nat, n: nat, r: Regs, locs: int, low: nat, at: nat)
    requires items != [] && !Plain(items[0]) && b + n <= |s| && ValidRegs(r)
    requires low == n + MinCount(items[0].q) && AllHave(items[0].a, s, b + n, MinCount(items[0].q))
    requires at == low + RunLength(items[0].a, s, b + low, ExtraCap(items[0].q))
    ensures b + at <= |s| && Match(items, s, b + n, r, locs) == TryDown(items[1..], s, b + low, b + at, r, locs)
  {
    QuantStep(items, s, b + n, r, locs);
  }

  /** Matching depends only on the text from the start of the match on, not on what precedes it in the
      buffer nor on what the registers held before. */
  lemma {:induction false} MatchMoves(items: seq<Item>, s1: seq<byte>, b1: nat, r1: Regs, l1: int,
                                      s2: seq<byte>, b2: nat, r2: Regs, l2: int, n: nat, begun: set<nat>,
                                      ended: set<nat>)
    requires SameSuffix(s1, b1, s2, b2) && b1 + n <= |s1| && b2 + n <= |s2| && SameLocs(l1, b1, l2, b2)
    requires Moved(r1, b1, r2, b2, begun, ended) && begun !! ended && Scoped(items, begun, ended)
    ensures SameOutcome(Match(items, s1, b1 + n, r1, l1), b1, Match(items, s2, b2 + n, r2, l2), b2, items, begun, ended)
    decreases |items|, 1, 0
  {
    if items == [] {
    } else if Plain(items[0]) {
      PlainMoves(items, s1, b1, r1, l1, s2, b2, r2, l2, n, begun, ended);
    } else {
      QuantMoves(items, s1, b1, r1, l1, s2, b2, r2, l2, n, begun, ended);
    }
  }

  lemma {:induction false} PlainMoves(items: seq<Item>, s1: seq<byte>, b1: nat, r1: Regs, l1: int,
                                      s2: seq<byte>, b2: nat, r2: Regs, l2: int, n: nat, begun: set<nat>,
                                      ended: set<nat>)
    requires SameSuffix(s1, b1, s2, b2) && b1 + n <= |s1| && b2 + n <= |s2| && SameLocs(l1, b1, l2, b2)
    requires Moved(r1, b1, r2, b2, begun, ended) && begun !! ended && Scoped(items, begun, ended)
    requires items != [] && Plain(items[0])
    ensures SameOutcome(Match(items, s1, b1 + n, r1, l1), b1, Match(items, s2, b2 + n, r2, l2), b2, items, begun, ended)
    decreases |items|, 0, 0
  {
    var it, rest := items[0], items[1..];
    ScopedHead(items, begun, ended);
    TakeMoves(it, s1, b1, r1, l1, s2, b2, r2, l2, n, begun, ended);
    var t1, t2 := Take(it, s1, b1 + n, r1, l1, PlainCount(it)), Take(it, s2, b2 + n, r2, l2, PlainCount(it));
    if t1.None? {
      PlainStep(items, s1, b1 + n, r1, l1);
      PlainStep(items, s2, b2 + n, r2, l2);
    } else {
      var n1 := t1.value.0 - b1;
      PlainStepAt(items, s1, b1, n, r1, l1, n1, t1.value.1);
      PlainStepAt(items, s2, b2, n, r2, l2, n1, t2.value.1);
      var m1, m2 := Match(rest, s1, b1 + n1, t1.value.1, l1), Match(rest, s2, b2 + n1, t2.value.1, l2);
      MatchMoves(rest, s1, b1, t1.value.1, l1, s2, b2, t2.value.1, l2, n1, BegunAfter(it, begun),
                 EndedAfter(it, ended));
      OutcomeCons(m1, b1, m2, b2, items, begun, ended);
    }
  }

  lemma {:induction false} QuantMoves(items: seq<Item>, s1: seq<byte>, b1: nat, r1: Regs, l1: int,
                                      s2: seq<byte>, b2: nat, r2: Regs, l2: int, n: nat, begun: set<nat>,
                                      ended: set<nat>)
    requires SameSuffix(s1, b1, s2, b2) && b1 + n <= |s1| && b2 + n <= |s2| && SameLocs(l1, b1, l2, b2)
    requires Moved(r1, b1, r2, b2, begun, ended) && begun !! ended && Scoped(items, begun, ended)
    requires items != [] && !Plain(items[0])
    ensures SameOutcome(Match(items, s1, b1 + n, r1, l1), b1, Match(items, s2, b2 + n, r2, l2), b2, items, begun, ended)
    decreases |items|, 0, 0
  {
    var a, q := items[0].a, items[0].q;
    var low := n + MinCount(q);
    SuffixOn(s1, b1, s2, b2, n);
    SuffixRun(a, s1, b1 + n, s2, b2 + n, MinCount(q));
    if AllHave(a, s1, b1 + n, MinCount(q)) {
      SuffixOn(s1, b1, s2, b2, low);
      SuffixRunLength(a, s1, b1 + low, s2, b2 + low, ExtraCap(q));
      var at := low + RunLength(a, s1, b1 + low, ExtraCap(q));
      var m1 := TryDown(items[1..], s1, b1 + low, b1 + at, r1, l1);
      var m2 := TryDown(items[1..], s2, b2 + low, b2 + at, r2, l2);
      QuantStepAt(items, s1, b1, n, r1, l1, low, at);
      QuantStepAt(items, s2, b2, n, r2, l2, low, at);
      assert SameOutcome(m1, b1, m2, b2, items, begun, ended) by {
        TryDownMoves(items[1..], s1, b1, r1, l1, s2, b2, r2, l2, low, at, begun, ended);
        OutcomeCons(m1, b1, m2, b2, items, begun, ended);
      }
    }
  }

  lemma {:induction false} TryDownMoves(items: seq<Item>, s1: seq<byte>, b1: nat, r1: Regs, l1: int,
                                        s2: seq<byte>, b2: nat, r2: Regs, l2: int, low: nat, at: nat, begun: set<nat>,
                                        ended: set<nat>)
    requires SameSuffix(s1, b1, s2, b2) && low <= at && b1 + at <= |s1| && b2 + at <= |s2| && SameLocs(l1, b1, l2, b2)
    requires Moved(r1, b1, r2, b2, begun, ended) && begun !! ended && Scoped(items, begun, ended)
    ensures SameOutcome(TryDown(items, s1, b1 + low, b1 + at, r1, l1), b1,
                        TryDown(items, s2, b2 + low, b2 + at, r2, l2), b2, items, begun, ended)
    decreases |items|, 2, at - low
  {
    if b1 + at != l1 {
      MatchMoves(items, s1, b1, r1, l1, s2, b2, r2, l2, at, begun, ended);
      if at > low {
        TryDownMoves(items, s1, b1, r1, l1, s2, b2, r2, l2, low, at - 1, begun, ended);
      }
    }
  }

  /** Two matches at the same place of a common suffix, with the same captures. */
  ghost predicate SameFound(f1: Found, b1: nat, f2: Found, b2: nat, items: seq<Item>) {
    && f1.Found? == f2.Found?
    && (f1.Found? ==>
      && f1.start >= b1 && f2.start - b2 == f1.start - b1
      && SameOutcome(Some((f1.end, f1.regs)), b1, Some((f2.end, f2.regs)), b2, items, {}, {}))
  }

  lemma {:induction false} FirstMatchMoves(items: seq<Item>, s1: seq<byte>, b1: nat, r1: Regs, l1: int,
                                           s2: seq<byte>, b2: nat, r2: Regs, l2: int, n: nat)
    requires SameSuffix(s1, b1, s2, b2) && b1 + n <= |s1| && b2 + n <= |s2| && SameLocs(l1, b1, l2, b2)
    requires ValidRegs(r1) && ValidRegs(r2) && Scoped(items, {}, {})
    ensures SameFound(FirstMatch(items, s1, b1 + n, r1, l1), b1, FirstMatch(items, s2, b2 + n, r2, l2), b2, items)
    decreases |s1| - (b1 + n)
  {
    MatchMoves(items, s1, b1, r1, l1, s2, b2, r2, l2, n, {}, {});
    SuffixOn(s1, b1, s2, b2, n);
    if b1 + n < |s1| {
      FirstMatchMoves(items, s1, b1, r1, l1, s2, b2, r2, l2, n + 1);
    }
  }

  /** Groups closed in the items or before hold spans that end no later than the match. */
  ghost predicate Inside(m: Option<(nat, Regs)>, items: seq<Item>, ended: set<nat>) {
    m.Some? ==>
      && ValidRegs(m.value.1)
      && forall k: nat :: k < NBRA && (k in ended || Close(k) in items) ==>
           0 <= m.value.1.bra[k] <= m.value.1.ket[k] <= m.value.0
  }

  /** Captures lie inside the text up to the end of the match. */
  lemma {:induction false} CapturesInside(items: seq<Item>, s: seq<byte>, pos: nat, r: Regs, locs: int,
                                          begun: set<nat>, ended: set<nat>)
    requires begun !! ended && Scoped(items, begun, ended) && RegsOk(r, begun, ended, pos) && pos <= |s|
    ensures Inside(Match(items, s, pos, r, locs), items, ended)
    decreases |items|, 1, 0
  {
    if items != [] {
      var rest := items[1..];
      if Plain(items[0]) {
        TakeStep(items, s, pos, r, locs, begun, ended);
        var t := Take(items[0], s, pos, r, locs, PlainCount(items[0]));
        if t.Some? {
          CapturesInside(rest, s, t.value.0, t.value.1, locs, BegunAfter(items[0], begun), EndedAfter(items[0], ended));
          InsideCons(Match(items, s, pos, r, locs), items, ended);
        }
      } else {
        QuantStep(items, s, pos, r, locs);
        if AllHave(items[0].a, s, pos, MinCount(items[0].q)) {
          var low := pos + MinCount(items[0].q);
          TryDownCaptures(rest, s, low, low + RunLength(items[0].a, s, low, ExtraCap(items[0].q)), r, locs, begun,
                          ended);
          InsideCons(Match(items, s, pos, r, locs), items, ended);
        }
      }
    }
  }

  lemma InsideCons(m: Option<(nat, Regs)>, items: seq<Item>, ended: set<nat>)
    requires items != [] && Inside(m, items[1..], EndedAfter(items[0], ended))
    ensures Inside(m, items, ended)
  {
    assert items == [items[0]] + items[1..];
  }

  lemma {:induction false} TryDownCaptures(items: seq<Item>, s: seq<byte>, low: nat, at: nat, r: Regs, locs: int,
                                           begun: set<nat>, ended: set<nat>)
    requires begun !! ended && Scoped(items, begun, ended) && RegsOk(r, begun, ended, low) && low <= at <= |s|
    ensures Inside(TryDown(items, s, low, at, r, locs), items, ended)
    decreases |items|, 2, at - low
  {
    if at != locs {
      CapturesInside(items, s, at, r, locs, begun, ended);
      if at > low {
        TryDownCaptures(items, s, low, at - 1, r, locs, begun, ended);
      }
    }
  }

  lemma FoundInside(items: seq<Item>, circf: bool, s: seq<byte>, pos: nat, r: Regs, locs: int)
    requires Scoped(items, {}, {}) && ValidRegs(r) && pos <= |s|
    ensures var f := Step(items, circf, s, pos, r, locs); f.Found? ==> Inside(Some((f.end, f.regs)), items, {})
  {
    var f := Step(items, circf, s, pos, r, locs);
    if f.Found? {
      CapturesInside(items, s, f.start, r, locs, {}, {});
    }
  }

  lemma SliceMoves(s1: seq<byte>, b1: nat, s2: seq<byte>, b2: nat, i: int, j: int)
    requires SameSuffix(s1, b1, s2, b2) && i >= b1 && j >= b1
    ensures Slice(s1, i, j) == Slice(s2, i - b1 + b2, j - b1 + b2)
  {
    SuffixOn(s1, b1, s2, b2, 0);
    if i <= j <= |s1| {
      SuffixSlice(s1, b1, s2, b2, i - b1, j - b1);
    }
  }

  lemma FirstPieceMoves(rhs: seq<byte>, items: seq<Item>, s1: seq<byte>, b1: nat, f1: Found, s2: seq<byte>, b2: nat,
                        f2: Found)
    requires SameSuffix(s1, b1, s2, b2) && f1.Found? && SameFound(f1, b1, f2, b2, items) && rhs != []
    requires FirstOk(rhs, items)
    ensures FirstPiece(rhs, s1, f1) == FirstPiece(rhs, s2, f2)
  {
    if rhs[0] == BACKSLASH && ONE <= rhs[1] <= NINE {
      var k: nat := rhs[1] - ONE;
      SliceMoves(s1, b1, s2, b2, f1.regs.bra[k], f1.regs.ket[k]);
    } else if rhs[0] == AMPERSAND {
      SliceMoves(s1, b1, s2, b2, f1.start, f1.end);
    }
  }

  /** The replacement for a match does not depend on where in a buffer the match lies. */
  lemma {:induction false} ExpandMoves(rhs: seq<byte>, items: seq<Item>, s1: seq<byte>, b1: nat, f1: Found,
                                       s2: seq<byte>, b2: nat, f2: Found)
    requires SameSuffix(s1, b1, s2, b2) && f1.Found? && SameFound(f1, b1, f2, b2, items) && RhsOk(rhs, items)
    ensures Expand(rhs, s1, f1) == Expand(rhs, s2, f2)
    decreases |rhs|
  {
    if rhs != [] {
      FirstPieceMoves(rhs, items, s1, b1, f1, s2, b2, f2);
      ExpandMoves(Remaining(rhs), items, s1, b1, f1, s2, b2, f2);
    }
  }

  // ---------------------------------------------------------------- one turn of the replacement loop

  /** The text one match contributes: its replacement if it is chosen, itself otherwise. */
  function Piece(line: seq<byte>, f: Found, k: nat, gfl: nat, rhs: seq<byte>): seq<byte>
    requires f.Found?
  {
    if Chosen(gfl, k) then Expand(rhs, line, f) else Slice(line, f.start, f.end)
  }

  /** cur is the line after some turns: what is done, then the original line from pos on. f1 is a match
      of cur from there, f2 the same match of the original. */
  ghost predicate Turn(line: seq<byte>, pos: nat, out: seq<byte>, cur: seq<byte>, f1: Found, f2: Found,
                       items: seq<Item>) {
    && pos <= |line| && cur == out + line[pos..]
    && f1.Found? && f1.start <= f1.end <= |cur| && SameFound(f1, |out|, f2, pos, items)
  }

  lemma TurnSuffix(line: seq<byte>, pos: nat, out: seq<byte>, cur: seq<byte>, f1: Found, f2: Found, items: seq<Item>)
    requires Turn(line, pos, out, cur, f1, f2, items)
    ensures SameSuffix(cur, |out|, line, pos) && f2.Found? && pos <= f2.start <= f2.end <= |line|
    ensures cur[f1.end..] == line[f2.end..]
  {
    assert cur[|out|..] == line[pos..];
    SuffixOn(cur, |out|, line, pos, f1.end - |out|);
    assert SameSuffix(cur, f1.end, line, f2.end);
  }

  lemma TurnHead(line: seq<byte>, pos: nat, out: seq<byte>, cur: seq<byte>, f1: Found, f2: Found, items: seq<Item>)
    requires Turn(line, pos, out, cur, f1, f2, items)
    ensures f2.Found? && cur[..f1.start] == out + Slice(line, pos, f2.start)
  {
    TurnSuffix(line, pos, out, cur, f1, f2, items);
    SliceMoves(cur, |out|, line, pos, |out|, f1.start);
  }

  lemma TurnPiece(line: seq<byte>, pos: nat, out: seq<byte>, cur: seq<byte>, f1: Found, f2: Found,
                  items: seq<Item>, k: nat, gfl: nat, rhs: seq<byte>)
    requires Turn(line, pos, out, cur, f1, f2, items) && RhsOk(rhs, items)
    ensures f2.Found? && Piece(cur, f1, k, gfl, rhs) == Piece(line, f2, k, gfl, rhs)
  {
    TurnSuffix(line, pos, out, cur, f1, f2, items);
    ExpandMoves(rhs, items, cur, |out|, f1, line, pos, f2);
    SliceMoves(cur, |out|, line, pos, f1.start, f1.end);
  }

  /** Replacing the match f1 of cur extends what is done by the piece of the match f2 of the original. */
  lemma TurnExtends(line: seq<byte>, pos: nat, out: seq<byte>, cur: seq<byte>, f1: Found, f2: Found,
                    items: seq<Item>, k: nat, gfl: nat, rhs: seq<byte>)
    requires Turn(line, pos, out, cur, f1, f2, items) && RhsOk(rhs, items)
    ensures f2.Found? && pos <= f2.start <= f2.end <= |line| && cur[f1.end..] == line[f2.end..]
    ensures cur[..f1.start] + Piece(cur, f1, k, gfl, rhs) ==
      out + (Slice(line, pos, f2.start) + Piece(line, f2, k, gfl, rhs))
  {
    TurnSuffix(line, pos, out, cur, f1, f2, items);
    TurnHead(line, pos, out, cur, f1, f2, items);
    TurnPiece(line, pos, out, cur, f1, f2, items, k, gfl, rhs);
    Assoc(out, Slice(line, pos, f2.start), Piece(line, f2, k, gfl, rhs));
  }

  lemma SuffixKept(line: seq<byte>, pos: nat, out: seq<byte>, cur: seq<byte>)
    requires pos <= |line| && cur == out + line[pos..]
    ensures SameSuffix(cur, |out|, line, pos)
  {
    assert cur[|out|..] == line[pos..];
  }

  /** Searching the rewritten line finds the match that searching the original finds. */
  lemma TurnFound(line: seq<byte>, pos: nat, out: seq<byte>, cur: seq<byte>,
                  items: seq<Item>, k: nat, gfl: nat, rhs: seq<byte>, r0: Regs, r1: Regs)
    requires pos <= |line| && cur == out + line[pos..] && RhsOk(rhs, items)
    requires ValidRegs(r0) && ValidRegs(r1) && Scoped(items, {}, {})
    ensures var f1, f2 := FirstMatch(items, cur, |out|, r1, |out|), FirstMatch(items, line, pos, r0, pos);
      && f1.Found? == f2.Found?
      && (f1.Found? ==>
        && f2.end <= |line| && cur[f1.end..] == line[f2.end..]
        && cur[..f1.start] + Piece(cur, f1, k, gfl, rhs) ==
           out + (Slice(line, pos, f2.start) + Piece(line, f2, k, gfl, rhs)))
  {
    SuffixKept(line, pos, out, cur);
    FirstMatchMoves(items, cur, |out|, r1, |out|, line, pos, r0, pos, 0);
    SameTurn(line, pos, out, cur, FirstMatch(items, cur, |out|, r1, |out|), FirstMatch(items, line, pos, r0, pos),
             items, k, gfl, rhs);
  }

  lemma SameTurn(line: seq<byte>, pos: nat, out: seq<byte>, cur: seq<byte>, f1: Found, f2: Found,
                 items: seq<Item>, k: nat, gfl: nat, rhs: seq<byte>)
    requires pos <= |line| && cur == out + line[pos..] && RhsOk(rhs, items)
    requires SameFound(f1, |out|, f2, pos, items) && (f1.Found? ==> f1.start <= f1.end <= |cur|)
    ensures f1.Found? == f2.Found?
    ensures f1.Found? ==>
      && f2.end <= |line| && cur[f1.end..] == line[f2.end..]
      && cur[..f1.start] + Piece(cur, f1, k, gfl, rhs)
         == out + (Slice(line, pos, f2.start) + Piece(line, f2, k, gfl, rhs))
  {
    if f1.Found? {
      TurnExtends(line, pos, out, cur, f1, f2, items, k, gfl, rhs);
    }
  }

  /** Every intermediate line fits a buffer of cap bytes; outLen is the length of what is done. */
  predicate Fits(line: seq<byte>, outLen: nat, pos: int, ms: seq<Found>, k: nat, gfl: nat, rhs: seq<byte>, cap: nat)
    decreases |ms|
  {
    ms == [] || ms[0].Missing? ||
    var done := outLen + |Slice(line, pos, ms[0].start)| + |Piece(line, ms[0], k, gfl, rhs)|;
    && done + |Slice(line, ms[0].end, |line|)| < cap
    && Fits(line, done, ms[0].end, ms[1..], k + 1, gfl, rhs, cap)
  }

  /** Among the first n matches one is chosen. */
  predicate AnyChosen(gfl: nat, n: nat) {
    n > 0 && (gfl == 0 || gfl >= GLOBAL || gfl <= n)
  }

  /** The loop stands behind the match with number k - 1: total is the result to reach, n the number of
      matches in all. */
  ghost predicate Underway(items: seq<Item>, line: seq<byte>, pos: nat, out: seq<byte>, k: nat, gfl: nat,
                           rhs: seq<byte>, r0: Regs, cap: nat, total: seq<byte>, n: nat)
    requires Productive(items) && ValidRegs(r0)
  {
    pos <= |line| && 0 < k && Leads(line, pos, out, Later(items, line, pos, r0), k, gfl, rhs, cap, total, n)
  }

  /** Rewriting the matches later, of which the first has number k, leads to total. */
  ghost predicate Leads(line: seq<byte>, pos: int, out: seq<byte>, later: seq<Found>, k: nat, gfl: nat, rhs: seq<byte>,
                        cap: nat, total: seq<byte>, n: int)
  {
    && total == out + Splice(line, pos, later, k, gfl, rhs) && n == k - 1 + |later|
    && Fits(line, |out|, pos, later, k, gfl, rhs, cap)
  }

  lemma LeadsStep(line: seq<byte>, pos: int, out: seq<byte>, f: Found, rest: seq<Found>, k: nat, gfl: nat,
                  rhs: seq<byte>, cap: nat, total: seq<byte>, n: int)
    requires f.Found? && f.end <= |line| && Leads(line, pos, out, [f] + rest, k, gfl, rhs, cap, total, n)
    ensures var out2 := out + (Slice(line, pos, f.start) + Piece(line, f, k, gfl, rhs));
      |out2| + |line| - f.end < cap && Leads(line, f.end, out2, rest, k + 1, gfl, rhs, cap, total, n)
  {
    var out2 := out + (Slice(line, pos, f.start) + Piece(line, f, k, gfl, rhs));
    assert total == out2 + Splice(line, f.end, rest, k + 1, gfl, rhs) by {
      SpliceBehind(line, pos, out, f, rest, k, gfl, rhs);
    }
    FitsStep(line, |out|, pos, f, rest, k, gfl, rhs, cap);
  }

  lemma SpliceBehind(line: seq<byte>, pos: int, out: seq<byte>, f: Found, rest: seq<Found>, k: nat, gfl: nat,
                     rhs: seq<byte>)
    requires f.Found?
    ensures out + Splice(line, pos, [f] + rest, k, gfl, rhs) ==
      (out + (Slice(line, pos, f.start) + Piece(line, f, k, gfl, rhs))) + Splice(line, f.end, rest, k + 1, gfl, rhs)
  {
    SpliceStep(line, pos, f, rest, k, gfl, rhs);
    Assoc(out, Slice(line, pos, f.start) + Piece(line, f, k, gfl, rhs), Splice(line, f.end, rest, k + 1, gfl, rhs));
  }

  lemma UnderwayStep(items: seq<Item>, line: seq<byte>, pos: nat, out: seq<byte>, k: nat, gfl: nat, rhs: seq<byte>,
                     r0: Regs, cap: nat, total: seq<byte>, n: nat)
    requires Productive(items) && ValidRegs(r0) && Underway(items, line, pos, out, k, gfl, rhs, r0, cap, total, n)
    requires pos < |line| && FirstMatch(items, line, pos, r0, pos).Found?
    ensures var f := FirstMatch(items, line, pos, r0, pos);
      var out2 := out + (Slice(line, pos, f.start) + Piece(line, f, k, gfl, rhs));
      && pos < f.end <= |line| && |out2| + |line| - f.end < cap
      && Underway(items, line, f.end, out2, k + 1, gfl, rhs, r0, cap, total, n)
  {
    var f := FirstMatch(items, line, pos, r0, pos);
    LaterStep(items, line, pos, r0);
    LeadsStep(line, pos, out, f, Later(items, line, f.end, r0), k, gfl, rhs, cap, total, n);
  }

  lemma LaterStep(items: seq<Item>, line: seq<byte>, pos: nat, r: Regs)
    requires ValidRegs(r) && pos < |line| && Productive(items) && FirstMatch(items, line, pos, r, pos).Found?
    ensures var f := FirstMatch(items, line, pos, r, pos);
      pos < f.end <= |line| && Later(items, line, pos, r) == [f] + Later(items, line, f.end, r)
  {
    LaterMatchAdvances(items, line, pos, r);
  }

  lemma SpliceStep(line: seq<byte>, pos: int, f: Found, rest: seq<Found>, k: nat, gfl: nat, rhs: seq<byte>)
    requires f.Found?
    ensures Splice(line, pos, [f] + rest, k, gfl, rhs) ==
      (Slice(line, pos, f.start) + Piece(line, f, k, gfl, rhs)) + Splice(line, f.end, rest, k + 1, gfl, rhs)
  {
    assert ([f] + rest)[1..] == rest;
  }

  lemma FitsStep(line: seq<byte>, outLen: nat, pos: int, f: Found, rest: seq<Found>, k: nat, gfl: nat, rhs: seq<byte>,
                 cap: nat)
    requires f.Found? && f.end <= |line| && Fits(line, outLen, pos, [f] + rest, k, gfl, rhs, cap)
    ensures var done := outLen + |Slice(line, pos, f.start) + Piece(line, f, k, gfl, rhs)|;
      done + |line| - f.end < cap && Fits(line, done, f.end, rest, k + 1, gfl, rhs, cap)
  {
    assert ([f] + rest)[1..] == rest;
  }

  lemma UnderwayEnd(items: seq<Item>, line: seq<byte>, pos: nat, out: seq<byte>, k: nat, gfl: nat, rhs: seq<byte>,
                    r0: Regs, cap: nat, total: seq<byte>, n: nat)
    requires Productive(items) && ValidRegs(r0) && Underway(items, line, pos, out, k, gfl, rhs, r0, cap, total, n)
    requires pos == |line| || FirstMatch(items, line, pos, r0, pos).Missing?
    ensures total == out + line[pos..] && n == k - 1
  {
  }

  lemma UnderwayStart(items: seq<Item>, line: seq<byte>, gfl: nat, rhs: seq<byte>, r0: Regs, cap: nat)
    requires Productive(items) && ValidRegs(r0) && gfl != 0
    requires Fits(line, 0, 0, AllMatches(items, false, gfl, line, r0), 1, gfl, rhs, cap)
    ensures var f := Step(items, false, line, 0, r0, -1);
      f.Found? ==>
      var ms := AllMatches(items, false, gfl, line, r0);
      var out := Slice(line, 0, f.start) + Piece(line, f, 1, gfl, rhs);
      && |out| + |line| - f.end < cap
      && Underway(items, line, f.end, out, 2, gfl, rhs, r0, cap, Splice(line, 0, ms, 1, gfl, rhs), |ms|)
  {
    var f := Step(items, false, line, 0, r0, -1);
    if f.Found? {
      var rest := Later(items, line, f.end, r0);
      assert AllMatches(items, false, gfl, line, r0) == [f] + rest;
      StartLeads(line, f, rest, gfl, rhs, cap);
    }
  }

  lemma StartLeads(line: seq<byte>, f: Found, rest: seq<Found>, gfl: nat, rhs: seq<byte>, cap: nat)
    requires f.Found? && f.end <= |line| && Fits(line, 0, 0, [f] + rest, 1, gfl, rhs, cap)
    ensures var out := Slice(line, 0, f.start) + Piece(line, f, 1, gfl, rhs);
      && |out| + |line| - f.end < cap
      && Leads(line, f.end, out, rest, 2, gfl, rhs, cap, Splice(line, 0, [f] + rest, 1, gfl, rhs), |[f] + rest|)
  {
    var total, out := Splice(line, 0, [f] + rest, 1, gfl, rhs), Slice(line, 0, f.start) + Piece(line, f, 1, gfl, rhs);
    Assoc([], [], total);
    Assoc([], [], out);
    LeadsStep(line, 0, [], f, rest, 1, gfl, rhs, cap, total, 1 + |rest|);
  }

  /** With only the first match considered, the result is that match rewritten. */
  lemma SpliceFirst(line: seq<byte>, f: Found, gfl: nat, rhs: seq<byte>)
    requires f.Found? && f.start <= f.end <= |line|
    ensures Splice(line, 0, [f], 1, gfl, rhs) == (line[..f.start] + Piece(line, f, 1, gfl, rhs)) + line[f.end..]
  {
    assert [f][1..] == [];
    assert Slice(line, 0, f.start) == line[..f.start];
  }

  /** What the first match says about the whole command. */
  lemma MatchesStart(items: seq<Item>, circf: bool, gfl: nat, line: seq<byte>, r0: Regs, rhs: seq<byte>, cap: nat)
    requires ValidRegs(r0) && Repeatable(items, circf, gfl)
    requires gfl != 0 ==> Fits(line, 0, 0, AllMatches(items, circf, gfl, line, r0), 1, gfl, rhs, cap)
    ensures var f, ms := Step(items, circf, line, 0, r0, -1), AllMatches(items, circf, gfl, line, r0);
      var total := Splice(line, 0, ms, 1, gfl, rhs);
      && (f.Missing? ==> ms == [] && total == line)
      && (f.Found? ==>
        && f.start <= f.end <= |line| && ms != []
        && var out := line[..f.start] + Piece(line, f, 1, gfl, rhs);
           && (gfl == 0 || circf ==> |ms| == 1 && total == out + line[f.end..])
           && (gfl != 0 && !circf ==>
             && |out| + |line| - f.end < cap && Underway(items, line, f.end, out, 2, gfl, rhs, r0, cap, total, |ms|)))
  {
    var f := Step(items, circf, line, 0, r0, -1);
    if f.Found? {
      SpliceFirst(line, f, gfl, rhs);
      if gfl != 0 && !circf {
        UnderwayStart(items, line, gfl, rhs, r0, cap);
        assert Slice(line, 0, f.start) == line[..f.start];
      }
    }
  }
}
