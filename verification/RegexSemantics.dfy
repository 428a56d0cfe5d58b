/** What a compiled sed pattern means, independently of any bytecode.

    A pattern is a flat list of items: groups are never repeated. Two meanings are given and
    related: Walk follows one explicit choice of repetition counts, Match searches the choices
    longest first and threads the capture registers functionally. */
module RegexSemantics {
  import opened Bytes

  const NBRA := 9

  /** One element after the first of a bracket expression: a character, or "-c", a range from
      the previous element up to c. */
  datatype Elem = Ch(c: byte) | To(c: byte)

  /** "[" "^"? first more "-"? "]". */
  datatype Bracket = Bracket(neg: bool, first: byte, more: seq<Elem>, dash: bool)

  /** The last character named, the start of a range that may follow. */
  function LastChar(b: Bracket): byte {
    if b.more == [] then b.first else b.more[|b.more| - 1].c
  }

  function Init(b: Bracket): Bracket
    requires b.more != []
  {
    Bracket(b.neg, b.first, b.more[..|b.more| - 1], false)
  }

  /** Is c named by the element list, before negation? */
  predicate Listed(b: Bracket, c: byte)
    decreases |b.more|
  {
    || (b.dash && c == '-' as byte)
    || (if b.more == [] then c == b.first
        else
          var e := b.more[|b.more| - 1];
          || Listed(Init(b), c)
          || c == e.c
          || (e.To? && LastChar(Init(b)) <= c <= e.c))
  }

  datatype Atom = Chr(c: byte) | Any | Set(b: Bracket)

  /** The characters a one-character atom accepts. NUL ends the subject and is never accepted. */
  predicate Has(a: Atom, c: byte) {
    && c != 0
    && match a
       case Chr(x) => c == x
       case Any => true
       case Set(b) => Listed(b, c) != b.neg
  }

  /** x, x*, x\{lo,\} (extra = None) and x\{lo,lo+extra\}. */
  datatype Quant = Once | Star | Range(lo: nat, extra: Option<nat>)

  const UNBOUNDED := 20000

  predicate Allowed(q: Quant, n: nat) {
    match q
    case Once => n == 1
    case Star => true
    case Range(lo, Some(extra)) => lo <= n <= lo + extra
    case Range(lo, None) => lo <= n <= lo + UNBOUNDED
  }

  datatype Item =
    | Single(a: Atom, q: Quant)
    | EndAnchor
    | Open(k: nat)
    | Close(k: nat)
    | Back(k: nat)

  /** Capture registers: where each group starts and ends. */
  datatype Regs = Regs(bra: seq<int>, ket: seq<int>)

  predicate ValidRegs(r: Regs) {
    |r.bra| == NBRA && |r.ket| == NBRA
  }

  /** Items use groups properly: opened once, closed once while open, referred to only after
      being closed. begun and ended are the groups seen before the items. */
  predicate Scoped(items: seq<Item>, begun: set<nat>, ended: set<nat>)
    decreases |items|
  {
    items == [] ||
    match items[0]
    case Open(k) => k < NBRA && k !in begun && k !in ended && Scoped(items[1..], begun + {k}, ended)
    case Close(k) => k in begun && k !in ended && k < NBRA && Scoped(items[1..], begun - {k}, ended + {k})
    case Back(k) => k in ended && k < NBRA && Scoped(items[1..], begun, ended)
    case _ => Scoped(items[1..], begun, ended)
  }

  ghost function BegunAfter(it: Item, begun: set<nat>): set<nat> {
    if it.Open? then begun + {it.k} else if it.Close? then begun - {it.k} else begun
  }

  ghost function EndedAfter(it: Item, ended: set<nat>): set<nat> {
    if it.Close? then ended + {it.k} else ended
  }

  /** Registers of the groups seen so far hold positions of the subject, in order. */
  predicate RegsOk(r: Regs, begun: set<nat>, ended: set<nat>, pos: nat) {
    && ValidRegs(r)
    && (forall k :: k in begun && k < NBRA ==> 0 <= r.bra[k] <= pos)
    && (forall k :: k in ended && k < NBRA ==> 0 <= r.bra[k] <= r.ket[k] <= pos)
  }

  /** The text a back-reference to group k must repeat lies at pos. */
  predicate Repeats(s: seq<byte>, pos: nat, r: Regs, k: nat)
    requires ValidRegs(r)
  {
    && k < NBRA
    && 0 <= r.bra[k] <= r.ket[k] <= |s|
    && pos + (r.ket[k] - r.bra[k]) <= |s|
    && s[r.bra[k]..r.ket[k]] == s[pos..pos + (r.ket[k] - r.bra[k])]
  }

  function SetBra(r: Regs, k: nat, pos: int): Regs
    requires ValidRegs(r)
  {
    if k < NBRA then r.(bra := r.bra[k := pos]) else r
  }

  function SetKet(r: Regs, k: nat, pos: int): Regs
    requires ValidRegs(r)
  {
    if k < NBRA then r.(ket := r.ket[k := pos]) else r
  }

  predicate AllHave(a: Atom, s: seq<byte>, pos: nat, n: nat) {
    pos + n <= |s| && forall i :: pos <= i < pos + n ==> Has(a, s[i])
  }

  // ---------------------------------------------------------------- one choice of counts

  /** Take one item n times at pos (n is 0 for items that are not one-character atoms): the position
      and registers after it. A quantified item may not end at locs. */
  function Take(it: Item, s: seq<byte>, pos: nat, r: Regs, locs: int, n: nat): (res: Option<(nat, Regs)>)
    requires ValidRegs(r)
    ensures res.Some? ==> ValidRegs(res.value.1)
  {
    match it
    case Single(a, q) =>
      if Allowed(q, n) && AllHave(a, s, pos, n) && (q == Once || pos + n != locs) then Some((pos + n, r)) else None
    case EndAnchor => if n == 0 && pos == |s| then Some((pos, r)) else None
    case Open(k) => if n == 0 then Some((pos, SetBra(r, k, pos))) else None
    case Close(k) => if n == 0 then Some((pos, SetKet(r, k, pos))) else None
    case Back(k) => if n == 0 && Repeats(s, pos, r, k) then Some((pos + (r.ket[k] - r.bra[k]), r)) else None
  }

  /** Follow the items from pos, taking item i exactly counts[i] times. */
  function Walk(items: seq<Item>, s: seq<byte>, pos: nat, r: Regs, locs: int,
                counts: seq<nat>): (res: Option<(nat, Regs)>)
    requires ValidRegs(r) && |counts| == |items|
    ensures res.Some? ==> ValidRegs(res.value.1)
    decreases |items|
  {
    if items == [] then Some((pos, r))
    else
      match Take(items[0], s, pos, r, locs, counts[0])
      case None => None
      case Some((next, r2)) => Walk(items[1..], s, next, r2, locs, counts[1..])
  }

  // ---------------------------------------------------------------- longest-first search

  /** The longest run of a from pos, at most cap long (None: no limit). */
  function RunLength(a: Atom, s: seq<byte>, pos: nat, cap: Option<nat>): (n: nat)
    requires pos <= |s|
    ensures AllHave(a, s, pos, n)
    ensures cap.Some? ==> n <= cap.value
    ensures pos + n == |s| || !Has(a, s[pos + n]) || (cap.Some? && n == cap.value)
    decreases |s| - pos
  {
    if cap == Some(0) || pos == |s| || !Has(a, s[pos]) then 0
    else 1 + RunLength(a, s, pos + 1, if cap.Some? then Some(cap.value - 1) else None)
  }

  function MinCount(q: Quant): nat {
    match q
    case Once => 1
    case Star => 0
    case Range(lo, _) => lo
  }

  /** How many repetitions beyond the minimum are tried. */
  function ExtraCap(q: Quant): Option<nat> {
    match q
    case Once => Some(0)
    case Star => None
    case Range(_, Some(extra)) => Some(extra)
    case Range(_, None) => Some(UNBOUNDED)
  }

  function Match(items: seq<Item>, s: seq<byte>, pos: nat, r: Regs, locs: int): (res: Option<(nat, Regs)>)
    requires ValidRegs(r) && pos <= |s|
    ensures res.Some? ==> ValidRegs(res.value.1) && pos <= res.value.0 <= |s|
    decreases |items|, 1, 0
  {
    if items == [] then Some((pos, r))
    else
      var rest := items[1..];
      match items[0]
      case Single(a, q) =>
        if !AllHave(a, s, pos, MinCount(q)) then None
        else
          var low := pos + MinCount(q);
          if q == Once then Match(rest, s, low, r, locs)
          else TryDown(rest, s, low, low + RunLength(a, s, low, ExtraCap(q)), r, locs)
      case EndAnchor => if pos == |s| then Match(rest, s, pos, r, locs) else None
      case Open(k) => Match(rest, s, pos, SetBra(r, k, pos), locs)
      case Close(k) => Match(rest, s, pos, SetKet(r, k, pos), locs)
      case Back(k) =>
        if Repeats(s, pos, r, k) then Match(rest, s, pos + (r.ket[k] - r.bra[k]), r, locs) else None
  }

  /** Continue with the items at position at, at - 1, ..., low until one succeeds; give up on
      reaching locs. */
  function TryDown(items: seq<Item>, s: seq<byte>, low: nat, at: nat, r: Regs, locs: int): (res: Option<(nat, Regs)>)
    requires ValidRegs(r) && low <= at <= |s|
    ensures res.Some? ==> ValidRegs(res.value.1) && low <= res.value.0 <= |s|
    decreases |items|, 2, at - low
  {
    if at == locs then None
    else
      var m := Match(items, s, at, r, locs);
      if m.Some? then m
      else if at > low then TryDown(items, s, low, at - 1, r, locs)
      else None
  }

  // ---------------------------------------------------------------- one step of the search

  /** An item that is not quantified. */
  predicate Plain(it: Item) {
    it.Single? ==> it.q == Once
  }

  function PlainCount(it: Item): nat {
    if it.Single? then 1 else 0
  }

  /** The search at a plain item does what taking it does. */
  lemma PlainStep(items: seq<Item>, s: seq<byte>, pos: nat, r: Regs, locs: int)
    requires items != [] && Plain(items[0]) && pos <= |s| && ValidRegs(r)
    ensures var t := Take(items[0], s, pos, r, locs, PlainCount(items[0]));
      && (t.None? ==> Match(items, s, pos, r, locs).None?)
      && (t.Some? ==>
        t.value.0 <= |s| && Match(items, s, pos, r, locs) == Match(items[1..], s, t.value.0, t.value.1, locs))
  {
  }

  /** The part of the search that the quantified item it starts, before the items rest. */
  ghost function SearchRepeated(it: Item, rest: seq<Item>, s: seq<byte>, pos: nat, r: Regs,
                                locs: int): Option<(nat, Regs)>
    requires it.Single? && pos <= |s| && ValidRegs(r)
  {
    var low := pos + MinCount(it.q);
    if !AllHave(it.a, s, pos, MinCount(it.q)) then None
    else TryDown(rest, s, low, low + RunLength(it.a, s, low, ExtraCap(it.q)), r, locs)
  }

  lemma QuantStep(items: seq<Item>, s: seq<byte>, pos: nat, r: Regs, locs: int)
    requires items != [] && items[0].Single? && items[0].q != Once && pos <= |s| && ValidRegs(r)
    ensures Match(items, s, pos, r, locs) == SearchRepeated(items[0], items[1..], s, pos, r, locs)
  {
  }

  lemma ScopedHead(items: seq<Item>, begun: set<nat>, ended: set<nat>)
    requires items != [] && Scoped(items, begun, ended)
    ensures Scoped([items[0]], begun, ended)
    ensures Scoped(items[1..], BegunAfter(items[0], begun), EndedAfter(items[0], ended))
    ensures begun !! ended ==> BegunAfter(items[0], begun) !! EndedAfter(items[0], ended)
  {
  }

  // ---------------------------------------------------------------- registers that do not matter

  /** r1 and r2 differ at most in registers the items write. */
  predicate SameOutside(items: seq<Item>, r1: Regs, r2: Regs) {
    && ValidRegs(r1) && ValidRegs(r2)
    && (forall k :: 0 <= k < NBRA && Open(k) !in items ==> r1.bra[k] == r2.bra[k])
    && (forall k :: 0 <= k < NBRA && Close(k) !in items ==> r1.ket[k] == r2.ket[k])
  }

  /** Scoped items never write the registers of a group already closed. */
  lemma {:induction false} ClosedNotWritten(items: seq<Item>, begun: set<nat>, ended: set<nat>, k: nat)
    requires Scoped(items, begun, ended) && k in ended && k !in begun
    ensures Open(k) !in items && Close(k) !in items
    decreases |items|
  {
    if items != [] {
      ClosedNotWritten(items[1..], BegunAfter(items[0], begun), EndedAfter(items[0], ended), k);
      assert items == [items[0]] + items[1..];
    }
  }

  lemma SameOutsideTail(items: seq<Item>, r1: Regs, r2: Regs, pos: int)
    requires items != [] && SameOutside(items, r1, r2)
    ensures items[0].Open? ==> SameOutside(items[1..], SetBra(r1, items[0].k, pos), SetBra(r2, items[0].k, pos))
    ensures items[0].Close? ==> SameOutside(items[1..], SetKet(r1, items[0].k, pos), SetKet(r2, items[0].k, pos))
    ensures !items[0].Open? && !items[0].Close? ==> SameOutside(items[1..], r1, r2)
  {
    assert items == [items[0]] + items[1..];
  }

  /** The outcome of a match, captures included, does not depend on what the registers it writes
      held before: whatever failed attempts left there is overwritten before it is read. */
  lemma {:induction false} StaleRegsDontMatter(items: seq<Item>, s: seq<byte>, pos: nat, r1: Regs, r2: Regs, locs: int,
                                               begun: set<nat>, ended: set<nat>)
    requires pos <= |s| && SameOutside(items, r1, r2)
    requires begun !! ended && Scoped(items, begun, ended)
    ensures Match(items, s, pos, r1, locs) == Match(items, s, pos, r2, locs)
    decreases |items|, 1, 0
  {
    if items == [] {
      assert r1.bra == r2.bra && r1.ket == r2.ket;
    } else if Plain(items[0]) {
      TakeStale(items, s, pos, r1, r2, locs, begun, ended);
      ScopedHead(items, begun, ended);
      PlainStep(items, s, pos, r1, locs);
      PlainStep(items, s, pos, r2, locs);
      var n := PlainCount(items[0]);
      var t1, t2 := Take(items[0], s, pos, r1, locs, n), Take(items[0], s, pos, r2, locs, n);
      if t1.Some? {
        StaleRegsDontMatter(items[1..], s, t1.value.0, t1.value.1, t2.value.1, locs,
                            BegunAfter(items[0], begun), EndedAfter(items[0], ended));
      }
    } else {
      QuantStep(items, s, pos, r1, locs);
      QuantStep(items, s, pos, r2, locs);
      ScopedHead(items, begun, ended);
      SameOutsideTail(items, r1, r2, pos);
      StaleRegsQuant(items, s, pos, r1, r2, locs, begun, ended);
    }
  }

  lemma StaleRegsQuant(items: seq<Item>, s: seq<byte>, pos: nat, r1: Regs, r2: Regs, locs: int,
                       begun: set<nat>, ended: set<nat>)
    requires pos <= |s| && items != [] && items[0].Single? && SameOutside(items[1..], r1, r2)
    requires begun !! ended && Scoped(items[1..], begun, ended)
    ensures SearchRepeated(items[0], items[1..], s, pos, r1, locs) ==
      SearchRepeated(items[0], items[1..], s, pos, r2, locs)
    decreases |items|, 0, 0
  {
    var a, q := items[0].a, items[0].q;
    var low := pos + MinCount(q);
    if AllHave(a, s, pos, MinCount(q)) {
      StaleRegsTryDown(items[1..], s, low, low + RunLength(a, s, low, ExtraCap(q)), r1, r2, locs, begun, ended);
    }
  }

  /** Taking a plain item does not depend on registers that the items write. */
  lemma TakeStale(items: seq<Item>, s: seq<byte>, pos: nat, r1: Regs, r2: Regs, locs: int,
                  begun: set<nat>, ended: set<nat>)
    requires items != [] && Plain(items[0]) && SameOutside(items, r1, r2)
    requires begun !! ended && Scoped(items, begun, ended)
    ensures var n := PlainCount(items[0]);
      var t1, t2 := Take(items[0], s, pos, r1, locs, n), Take(items[0], s, pos, r2, locs, n);
      && t1.Some? == t2.Some?
      && (t1.Some? ==> t1.value.0 == t2.value.0 && SameOutside(items[1..], t1.value.1, t2.value.1))
  {
    SameOutsideTail(items, r1, r2, pos);
    if items[0].Back? {
      ClosedNotWritten(items, begun, ended, items[0].k);
    }
  }

  lemma {:induction false} StaleRegsTryDown(items: seq<Item>, s: seq<byte>, low: nat, at: nat, r1: Regs, r2: Regs,
                                            locs: int, begun: set<nat>, ended: set<nat>)
    requires low <= at <= |s| && SameOutside(items, r1, r2)
    requires begun !! ended && Scoped(items, begun, ended)
    ensures TryDown(items, s, low, at, r1, locs) == TryDown(items, s, low, at, r2, locs)
    decreases |items|, 2, at - low
  {
    if at != locs {
      StaleRegsDontMatter(items, s, at, r1, r2, locs, begun, ended);
      if at > low {
        StaleRegsTryDown(items, s, low, at - 1, r1, r2, locs, begun, ended);
      }
    }
  }

  // ---------------------------------------------------------------- search equals best choice

  /** c1 comes no later than c2 in the order that prefers larger counts at earlier items. */
  predicate LexLeq(c1: seq<nat>, c2: seq<nat>)
    requires |c1| == |c2|
    decreases |c1|
  {
    c1 == [] || c1[0] < c2[0] || (c1[0] == c2[0] && LexLeq(c1[1..], c2[1..]))
  }

  ghost predicate Succeeds(items: seq<Item>, s: seq<byte>, pos: nat, r: Regs, locs: int, counts: seq<nat>)
    requires ValidRegs(r)
  {
    |counts| == |items| && Walk(items, s, pos, r, locs, counts).Some?
  }

  /** counts is a successful choice and the preferred one: every other is lexicographically smaller. */
  ghost predicate Best(items: seq<Item>, s: seq<byte>, pos: nat, r: Regs, locs: int, counts: seq<nat>)
    requires ValidRegs(r)
  {
    && Succeeds(items, s, pos, r, locs, counts)
    && forall other :: Succeeds(items, s, pos, r, locs, other) ==> LexLeq(other, counts)
  }

  /** counts is the outcome of the search: the preferred choice if there is one. */
  ghost predicate Solved(items: seq<Item>, s: seq<byte>, pos: nat, r: Regs, locs: int, counts: seq<nat>)
    requires ValidRegs(r) && pos <= |s|
  {
    var m := Match(items, s, pos, r, locs);
    && (m.None? ==> forall other :: !Succeeds(items, s, pos, r, locs, other))
    && (m.Some? ==> Best(items, s, pos, r, locs, counts) && Walk(items, s, pos, r, locs, counts) == m)
  }

  /** The search finds exactly the preferred successful choice of counts, and fails exactly when
      no choice succeeds. locs is null (negative) or not beyond the start. */
  lemma {:induction false} MatchIsBestWalk(items: seq<Item>, s: seq<byte>, pos: nat, r: Regs, locs: int)
    returns (counts: seq<nat>)
    requires ValidRegs(r) && locs <= pos <= |s|
    ensures Solved(items, s, pos, r, locs, counts)
    decreases |items|, 1, 0
  {
    if items == [] {
      counts := [];
    } else if items[0].Single? && items[0].q != Once {
      counts := QuantifiedBest(items, s, pos, r, locs);
    } else {
      var n := if items[0].Single? then 1 else 0;
      match Take(items[0], s, pos, r, locs, n) {
        case None =>
          counts := [];
          NoFirstStep(items, s, pos, r, locs);
        case Some((next, r2)) =>
          var more := MatchIsBestWalk(items[1..], s, next, r2, locs);
          counts := ConsBest(items, s, pos, r, locs, n, next, r2, more);
      }
    }
  }

  lemma NoFirstStep(items: seq<Item>, s: seq<byte>, pos: nat, r: Regs, locs: int)
    requires items != [] && ValidRegs(r) && pos <= |s|
    requires forall n: nat :: Take(items[0], s, pos, r, locs, n).None?
    requires Match(items, s, pos, r, locs).None?
    ensures forall counts :: Solved(items, s, pos, r, locs, counts)
  {
    forall other ensures !Succeeds(items, s, pos, r, locs, other) {
      if |other| == |items| {
        assert Take(items[0], s, pos, r, locs, other[0]).None?;
      }
    }
  }

  /** One item that can only be taken with count n, in front of a solved rest. */
  lemma {:induction false} ConsBest(items: seq<Item>, s: seq<byte>, pos: nat, r: Regs, locs: int,
                                    n: nat, next: nat, r2: Regs, more: seq<nat>) returns (counts: seq<nat>)
    requires items != [] && ValidRegs(r) && ValidRegs(r2) && next <= |s| && pos <= |s|
    requires forall m: nat :: m != n ==> Take(items[0], s, pos, r, locs, m).None?
    requires Take(items[0], s, pos, r, locs, n) == Some((next, r2))
    requires Solved(items[1..], s, next, r2, locs, more)
    requires Match(items, s, pos, r, locs) == Match(items[1..], s, next, r2, locs)
    ensures Solved(items, s, pos, r, locs, counts)
  {
    counts := [n] + more;
    assert counts[1..] == more;
    forall other | Succeeds(items, s, pos, r, locs, other)
      ensures Succeeds(items[1..], s, next, r2, locs, other[1..]) && other[0] == n
    {
      assert Take(items[0], s, pos, r, locs, other[0]).Some?;
    }
  }

  /** The counts a quantified item may take are those from its minimum to the end of its run. */
  lemma TakesCount(a: Atom, q: Quant, s: seq<byte>, pos: nat, n: nat)
    requires pos <= |s| && q != Once && AllHave(a, s, pos, MinCount(q))
    ensures (Allowed(q, n) && AllHave(a, s, pos, n)) <==>
            MinCount(q) <= n <= MinCount(q) + RunLength(a, s, pos + MinCount(q), ExtraCap(q))
  {
    if Allowed(q, n) && AllHave(a, s, pos, n) {
      RunIsLongest(a, s, pos + MinCount(q), ExtraCap(q), n - MinCount(q));
    }
  }

  lemma {:induction false} RunIsLongest(a: Atom, s: seq<byte>, pos: nat, cap: Option<nat>, n: nat)
    requires AllHave(a, s, pos, n) && (cap.Some? ==> n <= cap.value)
    ensures n <= RunLength(a, s, pos, cap)
    decreases n
  {
    if n > 0 {
      RunIsLongest(a, s, pos + 1, if cap.Some? then Some(cap.value - 1) else None, n - 1);
    }
  }

  /** What the countdown from at has established: the preferred choice among counts up to at - pos. */
  ghost predicate SolvedUpTo(items: seq<Item>, s: seq<byte>, pos: nat, r: Regs, locs: int, at: nat,
                             res: Option<(nat, Regs)>, counts: seq<nat>)
    requires ValidRegs(r) && items != []
  {
    && (res.None? ==> forall other :: Succeeds(items, s, pos, r, locs, other) ==> pos + other[0] > at)
    && (res.Some? ==>
      && Succeeds(items, s, pos, r, locs, counts) && Walk(items, s, pos, r, locs, counts) == res
      && forall other :: Succeeds(items, s, pos, r, locs, other) && pos + other[0] <= at ==> LexLeq(other, counts))
  }

  ghost predicate QuantifiedAt(items: seq<Item>, s: seq<byte>, pos: nat) {
    && items != [] && items[0].Single? && items[0].q != Once && pos <= |s|
    && AllHave(items[0].a, s, pos, MinCount(items[0].q))
  }

  ghost function Lowest(items: seq<Item>, s: seq<byte>, pos: nat): nat
    requires QuantifiedAt(items, s, pos)
  {
    pos + MinCount(items[0].q)
  }

  ghost function Highest(items: seq<Item>, s: seq<byte>, pos: nat): nat
    requires QuantifiedAt(items, s, pos)
  {
    Lowest(items, s, pos) + RunLength(items[0].a, s, Lowest(items, s, pos), ExtraCap(items[0].q))
  }

  lemma {:induction false} QuantifiedBest(items: seq<Item>, s: seq<byte>, pos: nat, r: Regs, locs: int)
    returns (counts: seq<nat>)
    requires ValidRegs(r) && locs <= pos <= |s| && items != [] && items[0].Single? && items[0].q != Once
    ensures Solved(items, s, pos, r, locs, counts)
    decreases |items|, 0, |s| + 1
  {
    if !AllHave(items[0].a, s, pos, MinCount(items[0].q)) {
      counts := [];
      NoFirstStep(items, s, pos, r, locs);
    } else {
      counts := TryDownIsBest(items, s, pos, r, locs, Highest(items, s, pos));
      forall other | Succeeds(items, s, pos, r, locs, other) ensures pos + other[0] <= Highest(items, s, pos) {
        TakesCount(items[0].a, items[0].q, s, pos, other[0]);
      }
    }
  }

  lemma {:induction false} TryDownIsBest(items: seq<Item>, s: seq<byte>, pos: nat, r: Regs, locs: int, at: nat)
    returns (counts: seq<nat>)
    requires ValidRegs(r) && locs <= pos && QuantifiedAt(items, s, pos)
    requires Lowest(items, s, pos) <= at <= Highest(items, s, pos)
    ensures SolvedUpTo(items, s, pos, r, locs, at, TryDown(items[1..], s, Lowest(items, s, pos), at, r, locs), counts)
    decreases |items|, 0, at
  {
    var rest, low := items[1..], Lowest(items, s, pos);
    if at == locs {
      counts := [];
    } else {
      var more := MatchIsBestWalk(rest, s, at, r, locs);
      TakesCount(items[0].a, items[0].q, s, pos, at - pos);
      assert Take(items[0], s, pos, r, locs, at - pos) == Some((at, r));
      if Match(rest, s, at, r, locs).Some? {
        counts := [at - pos] + more;
        assert counts[1..] == more;
        FirstIsBest(items, s, pos, r, locs, at, counts);
      } else {
        NoneAt(items, s, pos, r, locs, at);
        if at > low {
          counts := TryDownIsBest(items, s, pos, r, locs, at - 1);
        } else {
          counts := [];
          forall other | Succeeds(items, s, pos, r, locs, other) ensures pos + other[0] >= at {
            TakesCount(items[0].a, items[0].q, s, pos, other[0]);
          }
        }
      }
    }
  }

  lemma FirstIsBest(items: seq<Item>, s: seq<byte>, pos: nat, r: Regs, locs: int, at: nat, counts: seq<nat>)
    requires ValidRegs(r) && items != [] && pos <= at <= |s| && |counts| == |items|
    requires Take(items[0], s, pos, r, locs, at - pos) == Some((at, r))
    requires Solved(items[1..], s, at, r, locs, counts[1..]) && counts[0] == at - pos
    requires Match(items[1..], s, at, r, locs).Some?
    ensures SolvedUpTo(items, s, pos, r, locs, at, Match(items[1..], s, at, r, locs), counts)
  {
    forall other | Succeeds(items, s, pos, r, locs, other) && pos + other[0] == at
      ensures LexLeq(other, counts)
    {
      assert Succeeds(items[1..], s, at, r, locs, other[1..]);
    }
  }

  lemma NoneAt(items: seq<Item>, s: seq<byte>, pos: nat, r: Regs, locs: int, at: nat)
    requires ValidRegs(r) && items != [] && pos <= at <= |s|
    requires Take(items[0], s, pos, r, locs, at - pos) == Some((at, r))
    requires forall other :: !Succeeds(items[1..], s, at, r, locs, other)
    ensures forall other :: Succeeds(items, s, pos, r, locs, other) ==> pos + other[0] != at
  {
    forall other | Succeeds(items, s, pos, r, locs, other) ensures pos + other[0] != at {
      if pos + other[0] == at {
        assert Succeeds(items[1..], s, at, r, locs, other[1..]);
      }
    }
  }

  /** Some choice of repetition counts takes the items through the subject from pos. */
  ghost predicate Matchable(items: seq<Item>, s: seq<byte>, pos: nat, r: Regs, locs: int)
    requires ValidRegs(r)
  {
    exists counts :: Succeeds(items, s, pos, r, locs, counts)
  }

  /** Completeness and soundness of the search for a null locs, and for any locs not beyond pos. */
  lemma MatchIffSomeCounts(items: seq<Item>, s: seq<byte>, pos: nat, r: Regs, locs: int)
    requires ValidRegs(r) && locs <= pos <= |s|
    ensures Match(items, s, pos, r, locs).Some? <==> Matchable(items, s, pos, r, locs)
  {
    var counts := MatchIsBestWalk(items, s, pos, r, locs);
  }

  // ---------------------------------------------------------------- progress past locs

  /** Some item consumes a character or may be repeated. */
  predicate Consuming(items: seq<Item>) {
    exists i :: 0 <= i < |items| && items[i].Single?
  }

  /** A pattern with a one-character atom never matches just the empty string at locs. */
  lemma {:induction false} MatchPassesLocs(items: seq<Item>, s: seq<byte>, pos: nat, r: Regs, locs: int)
    requires ValidRegs(r) && locs <= pos <= |s|
    requires Match(items, s, pos, r, locs).Some?
    ensures Consuming(items) || locs < pos ==> Match(items, s, pos, r, locs).value.0 > locs
    decreases |items|, 1, 0
  {
    if items != [] {
      if Consuming(items) && !items[0].Single? {
        ConsumingRest(items);
      }
      if Plain(items[0]) {
        PlainStep(items, s, pos, r, locs);
        var t := Take(items[0], s, pos, r, locs, PlainCount(items[0]));
        TakeForward(items[0], s, pos, r, locs);
        MatchPassesLocs(items[1..], s, t.value.0, t.value.1, locs);
      } else {
        QuantStep(items, s, pos, r, locs);
        QuantPassesLocs(items[0], items[1..], s, pos, r, locs);
      }
    }
  }

  lemma QuantPassesLocs(it: Item, rest: seq<Item>, s: seq<byte>, pos: nat, r: Regs, locs: int)
    requires ValidRegs(r) && locs <= pos <= |s| && it.Single?
    requires SearchRepeated(it, rest, s, pos, r, locs).Some?
    ensures SearchRepeated(it, rest, s, pos, r, locs).value.0 > locs
    decreases |rest|, 3, 0
  {
    var low := pos + MinCount(it.q);
    TryDownPassesLocs(rest, s, low, low + RunLength(it.a, s, low, ExtraCap(it.q)), r, locs);
  }

  /** A plain item does not go back, and a one-character atom goes on. */
  lemma TakeForward(it: Item, s: seq<byte>, pos: nat, r: Regs, locs: int)
    requires ValidRegs(r) && Plain(it) && Take(it, s, pos, r, locs, PlainCount(it)).Some?
    ensures Take(it, s, pos, r, locs, PlainCount(it)).value.0 >= if it.Single? then pos + 1 else pos
  {
  }

  lemma ConsumingRest(items: seq<Item>)
    requires items != [] && Consuming(items) && !items[0].Single?
    ensures Consuming(items[1..])
  {
    var i :| 0 <= i < |items| && items[i].Single?;
    assert items[1..][i - 1].Single?;
  }

  lemma {:induction false} TryDownPassesLocs(items: seq<Item>, s: seq<byte>, low: nat, at: nat, r: Regs, locs: int)
    requires ValidRegs(r) && locs <= low <= at <= |s|
    requires TryDown(items, s, low, at, r, locs).Some?
    ensures TryDown(items, s, low, at, r, locs).value.0 > locs
    decreases |items|, 2, at - low
  {
    if Match(items, s, at, r, locs).Some? {
      MatchPassesLocs(items, s, at, r, locs);
    } else {
      TryDownPassesLocs(items, s, low, at - 1, r, locs);
    }
  }

  // ---------------------------------------------------------------- leftmost match

  datatype Found = Missing | Found(start: nat, end: nat, regs: Regs)

  /** The match that starts first at or after pos. */
  function FirstMatch(items: seq<Item>, s: seq<byte>, pos: nat, r: Regs, locs: int): (f: Found)
    requires ValidRegs(r) && pos <= |s|
    ensures f.Missing? ==> forall i :: pos <= i <= |s| ==> Match(items, s, i, r, locs).None?
    ensures f.Found? ==>
      && pos <= f.start <= f.end <= |s| && ValidRegs(f.regs)
      && Match(items, s, f.start, r, locs) == Some((f.end, f.regs))
      && forall i :: pos <= i < f.start ==> Match(items, s, i, r, locs).None?
    decreases |s| - pos
  {
    match Match(items, s, pos, r, locs)
    case Some((end, regs)) => Found(pos, end, regs)
    case None => if pos < |s| then FirstMatch(items, s, pos + 1, r, locs) else Missing
  }
}
