/** What the s command does to a line, said match by match: which matches it considers, which of them it
    replaces, and what the replacement text is. */
module SubstMeaning {
  import opened Bytes
  import opened RegexSemantics
  import opened RegexMatch
  import opened SubstSpec

  // ---------------------------------------------------------------- the matches considered

  /** f is the first match of the line at or behind pos, at pos itself for an anchored pattern. */
  predicate IsNext(items: seq<Item>, circf: bool, line: seq<byte>, pos: nat, r: Regs, locs: int, f: Found)
    requires ValidRegs(r)
  {
    && f.Found? && pos <= f.start <= f.end <= |line| && (circf ==> f.start == pos)
    && Match(items, line, f.start, r, locs) == Some((f.end, f.regs))
    && forall p :: pos <= p < f.start ==> Match(items, line, p, r, locs).None?
  }

  predicate NoneFrom(items: seq<Item>, line: seq<byte>, pos: nat, r: Regs, locs: int)
    requires ValidRegs(r)
  {
    forall p :: pos <= p <= |line| ==> Match(items, line, p, r, locs).None?
  }

  /** Where the search for match i begins. */
  function From(pos: nat, ms: seq<Found>, i: nat): nat
    requires i <= |ms|
  {
    if i == 0 || ms[i - 1].Missing? then pos else ms[i - 1].end
  }

  /** Match i is the next one behind the match before it, and does not end where its search begins. */
  predicate Follows(items: seq<Item>, line: seq<byte>, pos: nat, r: Regs, ms: seq<Found>, i: nat)
    requires ValidRegs(r) && i < |ms|
  {
    IsNext(items, false, line, From(pos, ms, i), r, From(pos, ms, i), ms[i])
  }

  /** Behind the last match there is no other. */
  predicate Ended(items: seq<Item>, line: seq<byte>, pos: nat, r: Regs, ms: seq<Found>)
    requires ValidRegs(r)
  {
    var end := From(pos, ms, |ms|);
    end == |line| || NoneFrom(items, line, end, r, end)
  }

  lemma FollowsMore(items: seq<Item>, line: seq<byte>, pos: nat, r: Regs, f: Found, rest: seq<Found>, i: nat)
    requires ValidRegs(r) && f.Found? && i < |rest| && (i > 0 ==> rest[i - 1].Found?)
    ensures Follows(items, line, pos, r, [f] + rest, i + 1) == Follows(items, line, f.end, r, rest, i)
  {
    assert ([f] + rest)[i + 1] == rest[i];
    assert i > 0 ==> ([f] + rest)[i] == rest[i - 1];
  }

  lemma EndedMore(items: seq<Item>, line: seq<byte>, pos: nat, r: Regs, f: Found, rest: seq<Found>)
    requires ValidRegs(r) && f.Found? && (rest != [] ==> rest[|rest| - 1].Found?)
    ensures Ended(items, line, pos, r, [f] + rest) == Ended(items, line, f.end, r, rest)
  {
    var ms := [f] + rest;
    assert |rest| > 0 ==> ms[|ms| - 1] == rest[|rest| - 1];
  }

  lemma FirstFollows(items: seq<Item>, line: seq<byte>, pos: nat, r: Regs, f: Found, rest: seq<Found>)
    requires ValidRegs(r) && pos <= |line| && f == FirstMatch(items, line, pos, r, pos) && f.Found?
    ensures Follows(items, line, pos, r, [f] + rest, 0)
  {
  }

  lemma {:induction false} LaterAre(items: seq<Item>, line: seq<byte>, pos: nat, r: Regs)
    requires ValidRegs(r) && pos <= |line| && Productive(items)
    ensures forall i :: 0 <= i < |Later(items, line, pos, r)| ==>
      Follows(items, line, pos, r, Later(items, line, pos, r), i)
    ensures Ended(items, line, pos, r, Later(items, line, pos, r))
    decreases |line| - pos
  {
    var f := FirstMatch(items, line, pos, r, pos);
    if pos < |line| && f.Found? {
      LaterMatchAdvances(items, line, pos, r);
      LaterAre(items, line, f.end, r);
      LaterMore(items, line, pos, r, f, Later(items, line, f.end, r));
      LaterStep(items, line, pos, r);
    }
  }

  lemma LaterMore(items: seq<Item>, line: seq<byte>, pos: nat, r: Regs, f: Found, rest: seq<Found>)
    requires ValidRegs(r) && pos <= |line| && f == FirstMatch(items, line, pos, r, pos) && f.Found?
    requires forall i :: 0 <= i < |rest| ==> Follows(items, line, f.end, r, rest, i)
    requires Ended(items, line, f.end, r, rest)
    ensures forall i :: 0 <= i < |[f] + rest| ==> Follows(items, line, pos, r, [f] + rest, i)
    ensures Ended(items, line, pos, r, [f] + rest)
  {
    FirstFollows(items, line, pos, r, f, rest);
    BehindFirst(items, line, pos, r, f, rest);
  }

  lemma BehindFirst(items: seq<Item>, line: seq<byte>, pos: nat, r: Regs, f: Found, rest: seq<Found>)
    requires ValidRegs(r) && f.Found? && Ended(items, line, f.end, r, rest)
    requires forall i :: 0 <= i < |rest| ==> Follows(items, line, f.end, r, rest, i)
    ensures forall i :: 0 < i < |[f] + rest| ==> Follows(items, line, pos, r, [f] + rest, i)
    ensures Ended(items, line, pos, r, [f] + rest)
  {
    var ms := [f] + rest;
    forall i | 0 <= i < |rest| ensures rest[i].Found? {
      assert Follows(items, line, f.end, r, rest, i);
    }
    forall i | 0 < i < |ms| ensures Follows(items, line, pos, r, ms, i) {
      FollowsMore(items, line, pos, r, f, rest, i - 1);
    }
    EndedMore(items, line, pos, r, f, rest);
  }

  /** The matches of a command: the first of the line, for a plain command or an anchored pattern nothing
      else, and otherwise one behind the other as long as there is any. */
  lemma MatchesAre(items: seq<Item>, circf: bool, gfl: nat, line: seq<byte>, r: Regs)
    requires ValidRegs(r) && Repeatable(items, circf, gfl)
    ensures var ms := AllMatches(items, circf, gfl, line, r);
      && (ms == [] ==> if circf then Match(items, line, 0, r, -1).None? else NoneFrom(items, line, 0, r, -1))
      && (ms != [] ==> IsNext(items, circf, line, 0, r, -1, ms[0]))
      && (gfl == 0 || circf ==> |ms| <= 1)
      && (forall i :: 0 < i < |ms| ==> Follows(items, line, 0, r, ms, i))
      && (gfl != 0 && !circf && ms != [] ==> Ended(items, line, 0, r, ms))
  {
    var f := Step(items, circf, line, 0, r, -1);
    StepIsNext(items, circf, line, r);
    if gfl != 0 && !circf && f.Found? {
      LaterAre(items, line, f.end, r);
      BehindFirst(items, line, 0, r, f, Later(items, line, f.end, r));
    }
  }

  lemma StepIsNext(items: seq<Item>, circf: bool, line: seq<byte>, r: Regs)
    requires ValidRegs(r)
    ensures var f := Step(items, circf, line, 0, r, -1);
      if f.Found? then IsNext(items, circf, line, 0, r, -1, f)
      else if circf then Match(items, line, 0, r, -1).None? else NoneFrom(items, line, 0, r, -1)
  {
  }

  /** The matches follow each other in the line. */
  predicate InOrder(line: seq<byte>, pos: nat, ms: seq<Found>) {
    && pos <= |line|
    && forall i :: 0 <= i < |ms| ==> ms[i].Found? && From(pos, ms, i) <= ms[i].start <= ms[i].end <= |line|
  }

  lemma MatchesInOrder(items: seq<Item>, circf: bool, gfl: nat, line: seq<byte>, r: Regs)
    requires ValidRegs(r) && Repeatable(items, circf, gfl)
    ensures InOrder(line, 0, AllMatches(items, circf, gfl, line, r))
  {
    MatchesAre(items, circf, gfl, line, r);
    var ms := AllMatches(items, circf, gfl, line, r);
    forall i | 0 <= i < |ms| ensures ms[i].Found? && From(0, ms, i) <= ms[i].start <= ms[i].end <= |line| {
      if i > 0 {
        assert Follows(items, line, 0, r, ms, i);
      }
    }
  }

  lemma TailInOrder(line: seq<byte>, pos: nat, ms: seq<Found>)
    requires InOrder(line, pos, ms) && ms != []
    ensures ms[0].Found? && pos <= ms[0].start <= ms[0].end <= |line| && InOrder(line, ms[0].end, ms[1..])
  {
    var f, rest := ms[0], ms[1..];
    assert From(pos, ms, 0) == pos;
    forall i | 0 <= i < |rest|
      ensures rest[i].Found? && From(f.end, rest, i) <= rest[i].start <= rest[i].end <= |line|
    {
      assert rest[i] == ms[i + 1] && From(f.end, rest, i) == From(pos, ms, i + 1);
    }
  }

  // ---------------------------------------------------------------- which matches are replaced

  /** The line with the match f replaced, and nothing else changed. */
  function ReplacedOne(line: seq<byte>, f: Found, rhs: seq<byte>): seq<byte>
    requires f.Found? && f.start <= f.end <= |line|
  {
    line[..f.start] + Expand(rhs, line, f) + line[f.end..]
  }

  function Concat(parts: seq<seq<byte>>): seq<byte> {
    if parts == [] then [] else parts[0] + Concat(parts[1..])
  }

  /** What the line from pos on consists of when every match is replaced: what lies before the first match,
      its replacement, what lies before the second, and so on. */
  function Part(line: seq<byte>, pos: nat, ms: seq<Found>, rhs: seq<byte>, i: nat): seq<byte>
    requires InOrder(line, pos, ms) && i <= 2 * |ms|
  {
    if i % 2 == 1 then Expand(rhs, line, ms[i / 2])
    else Slice(line, From(pos, ms, i / 2), if i / 2 == |ms| then |line| else ms[i / 2].start)
  }

  function Parts(line: seq<byte>, pos: nat, ms: seq<Found>, rhs: seq<byte>): seq<seq<byte>>
    requires InOrder(line, pos, ms)
  {
    seq(2 * |ms| + 1, i requires 0 <= i <= 2 * |ms| => Part(line, pos, ms, rhs, i))
  }

  /** The outcome of a command whose matches in the line are ms. Without g or a count the first match is
      replaced; a count n replaces the n-th match, if there are so many; g, every match. */
  predicate Outcome(line: seq<byte>, ms: seq<Found>, gfl: nat, rhs: seq<byte>, after: seq<byte>, changed: bool)
    requires InOrder(line, 0, ms)
  {
    if ms == [] || (0 < gfl < 999 && gfl > |ms|) then after == line && !changed
    else if gfl == 0 then
      var f := ms[0];
      f.Found? && f.start <= f.end <= |line| && after == ReplacedOne(line, f, rhs) && changed
    else if gfl < 999 then
      var f := ms[gfl - 1];
      f.Found? && f.start <= f.end <= |line| && after == ReplacedOne(line, f, rhs) && changed
    else after == Concat(Parts(line, 0, ms, rhs)) && changed
  }

  /** The line from pos on with f replaced. */
  function OneFrom(line: seq<byte>, pos: nat, f: Found, rhs: seq<byte>): seq<byte> {
    if f.Found? then Slice(line, pos, f.start) + (Expand(rhs, line, f) + Slice(line, f.end, |line|)) else []
  }

  /** From the match with number k on, a count replaces exactly the match that has it for its number. */
  predicate CountedFrom(line: seq<byte>, pos: nat, ms: seq<Found>, k: nat, gfl: nat, rhs: seq<byte>, after: seq<byte>) {
    after == if k <= gfl < k + |ms| then OneFrom(line, pos, ms[gfl - k], rhs) else Slice(line, pos, |line|)
  }

  lemma {:induction false} SpliceCounted(line: seq<byte>, pos: nat, ms: seq<Found>, k: nat, gfl: nat, rhs: seq<byte>)
    requires InOrder(line, pos, ms) && 0 < gfl < GLOBAL
    ensures CountedFrom(line, pos, ms, k, gfl, rhs, Splice(line, pos, ms, k, gfl, rhs))
    decreases |ms|
  {
    if ms != [] {
      var f, rest := ms[0], ms[1..];
      TailInOrder(line, pos, ms);
      SpliceCounted(line, f.end, rest, k + 1, gfl, rhs);
      assert ms == [f] + rest;
      SpliceStep(line, pos, f, rest, k, gfl, rhs);
      CountedStep(line, pos, f, rest, k, gfl, rhs, Splice(line, f.end, rest, k + 1, gfl, rhs));
    }
  }

  lemma CountedStep(line: seq<byte>, pos: nat, f: Found, rest: seq<Found>, k: nat, gfl: nat, rhs: seq<byte>,
                    tail: seq<byte>)
    requires f.Found? && pos <= f.start <= f.end && InOrder(line, f.end, rest) && 0 < gfl < GLOBAL
    requires CountedFrom(line, f.end, rest, k + 1, gfl, rhs, tail)
    ensures CountedFrom(line, pos, [f] + rest, k, gfl, rhs,
                        (Slice(line, pos, f.start) + Piece(line, f, k, gfl, rhs)) + tail)
  {
    if gfl == k {
      Assoc(Slice(line, pos, f.start), Expand(rhs, line, f), tail);
    } else if gfl < k || gfl > k + |rest| {
      Whole3(line, pos, f.start, f.end);
    } else {
      var i := gfl - (k + 1);
      assert ([f] + rest)[gfl - k] == rest[i];
      GapBefore(line, pos, f, rest, i, rhs);
    }
  }

  lemma Whole3(line: seq<byte>, a: nat, b: nat, c: nat)
    requires a <= b <= c <= |line|
    ensures (Slice(line, a, b) + Slice(line, b, c)) + Slice(line, c, |line|) == Slice(line, a, |line|)
  {
  }

  /** What lies before a later match includes the match f. */
  lemma GapBefore(line: seq<byte>, pos: nat, f: Found, rest: seq<Found>, i: nat, rhs: seq<byte>)
    requires f.Found? && pos <= f.start <= f.end && InOrder(line, f.end, rest) && i < |rest|
    ensures (Slice(line, pos, f.start) + Slice(line, f.start, f.end)) + OneFrom(line, f.end, rest[i], rhs) ==
      OneFrom(line, pos, rest[i], rhs)
  {
    var g := rest[i];
    LaterStart(line, f.end, rest, i);
    Gap(line, pos, f.start, f.end, g.start, Expand(rhs, line, g) + Slice(line, g.end, |line|));
  }

  lemma {:induction false} LaterStart(line: seq<byte>, pos: nat, ms: seq<Found>, i: nat)
    requires InOrder(line, pos, ms) && i < |ms|
    ensures ms[i].Found? && pos <= ms[i].start <= ms[i].end <= |line|
    decreases i
  {
    assert ms[i].Found? && From(pos, ms, i) <= ms[i].start;
    if i > 0 {
      LaterStart(line, pos, ms, i - 1);
    }
  }

  lemma Gap(line: seq<byte>, a: nat, b: nat, c: nat, d: nat, rest: seq<byte>)
    requires a <= b <= c <= d <= |line|
    ensures (Slice(line, a, b) + Slice(line, b, c)) + (Slice(line, c, d) + rest) == Slice(line, a, d) + rest
  {
    Slices(line, a, b, c, d);
    Assoc(Slice(line, a, b) + Slice(line, b, c), Slice(line, c, d), rest);
  }

  lemma Slices(line: seq<byte>, a: nat, b: nat, c: nat, d: nat)
    requires a <= b <= c <= d <= |line|
    ensures Slice(line, a, d) == (Slice(line, a, b) + Slice(line, b, c)) + Slice(line, c, d)
  {
  }

  /** g replaces every match and leaves what lies between them. */
  lemma {:induction false} SpliceGlobal(line: seq<byte>, pos: nat, ms: seq<Found>, k: nat, gfl: nat, rhs: seq<byte>)
    requires InOrder(line, pos, ms) && gfl >= GLOBAL
    ensures Splice(line, pos, ms, k, gfl, rhs) == Concat(Parts(line, pos, ms, rhs))
    decreases |ms|
  {
    var parts := Parts(line, pos, ms, rhs);
    if ms == [] {
      assert parts[1..] == [];
      Assoc([], [], parts[0]);
    } else {
      var f, rest := ms[0], ms[1..];
      TailInOrder(line, pos, ms);
      SpliceGlobal(line, f.end, rest, k + 1, gfl, rhs);
      assert ms == [f] + rest;
      SpliceStep(line, pos, f, rest, k, gfl, rhs);
      PartsMore(line, pos, ms, rhs);
      ConcatTwo(Slice(line, pos, f.start), Expand(rhs, line, f), Parts(line, f.end, rest, rhs));
    }
  }

  lemma ConcatTwo(a: seq<byte>, b: seq<byte>, more: seq<seq<byte>>)
    ensures Concat([a, b] + more) == (a + b) + Concat(more)
  {
    var all := [a, b] + more;
    assert all[1..][1..] == more && all[1..][0] == b;
    Assoc(a, b, Concat(more));
  }

  lemma PartsMore(line: seq<byte>, pos: nat, ms: seq<Found>, rhs: seq<byte>)
    requires InOrder(line, pos, ms) && ms != []
    ensures ms[0].Found? && InOrder(line, ms[0].end, ms[1..])
    ensures Parts(line, pos, ms, rhs) ==
      [Slice(line, pos, ms[0].start), Expand(rhs, line, ms[0])] + Parts(line, ms[0].end, ms[1..], rhs)
  {
    TailInOrder(line, pos, ms);
    forall i | 0 <= i <= 2 * (|ms| - 1)
      ensures Part(line, pos, ms, rhs, i + 2) == Part(line, ms[0].end, ms[1..], rhs, i)
    {
      PartTail(line, pos, ms, rhs, i);
    }
  }

  lemma PartTail(line: seq<byte>, pos: nat, ms: seq<Found>, rhs: seq<byte>, i: nat)
    requires InOrder(line, pos, ms) && ms != [] && i <= 2 * (|ms| - 1)
    ensures ms[0].Found? && InOrder(line, ms[0].end, ms[1..])
    ensures Part(line, pos, ms, rhs, i + 2) == Part(line, ms[0].end, ms[1..], rhs, i)
  {
    TailInOrder(line, pos, ms);
    var n := i / 2;
    assert (i + 2) / 2 == n + 1 && (i + 2) % 2 == i % 2;
    assert From(pos, ms, n + 1) == From(ms[0].end, ms[1..], n);
    if n < |ms| - 1 {
      assert ms[n + 1] == ms[1..][n];
    }
  }

  /** What the pass over the line yields is the outcome of the command. */
  lemma SpliceOutcome(line: seq<byte>, ms: seq<Found>, gfl: nat, rhs: seq<byte>)
    requires InOrder(line, 0, ms) && (gfl == 0 ==> |ms| <= 1)
    ensures Outcome(line, ms, gfl, rhs, Splice(line, 0, ms, 1, gfl, rhs), AnyChosen(gfl, |ms|))
  {
    if ms == [] {
      assert Slice(line, 0, |line|) == line;
    } else if gfl == 0 {
      assert From(0, ms, 0) == 0;
      SpliceFirst(line, ms[0], gfl, rhs);
      assert ms == [ms[0]];
    } else if gfl < GLOBAL {
      SpliceCounted(line, 0, ms, 1, gfl, rhs);
      if gfl <= |ms| {
        LaterStart(line, 0, ms, gfl - 1);
        OneIs(line, ms[gfl - 1], rhs);
      }
    } else {
      SpliceGlobal(line, 0, ms, 1, gfl, rhs);
    }
  }

  lemma OneIs(line: seq<byte>, f: Found, rhs: seq<byte>)
    requires f.Found? && f.start <= f.end <= |line|
    ensures OneFrom(line, 0, f, rhs) == ReplacedOne(line, f, rhs)
  {
    Assoc(line[..f.start], Expand(rhs, line, f), line[f.end..]);
  }

  // ---------------------------------------------------------------- the replacement text

  /** The replacement text in parts: a character, one behind a backslash, "&", and "\1" to "\9". */
  datatype RhsPart = Plain(c: byte) | Escaped(c: byte) | Whole | Captured(k: nat)

  function SpellPart(p: RhsPart): seq<byte> {
    match p
    case Plain(c) => [c]
    case Escaped(c) => [BACKSLASH, c]
    case Whole => [AMPERSAND]
    case Captured(k) => [BACKSLASH, if k < 9 then ONE + k else ONE]
  }

  predicate ProperPart(p: RhsPart) {
    match p
    case Plain(c) => c != AMPERSAND && c != BACKSLASH
    case Escaped(c) => !(ONE <= c <= NINE)
    case Whole => true
    case Captured(k) => k < 9
  }

  /** The text a part stands for. */
  function PartText(p: RhsPart, line: seq<byte>, f: Found): seq<byte>
    requires f.Found? && ValidRegs(f.regs) && ProperPart(p)
  {
    match p
    case Plain(c) => [c]
    case Escaped(c) => [c]
    case Whole => Slice(line, f.start, f.end)
    case Captured(k) => Slice(line, f.regs.bra[k], f.regs.ket[k])
  }

  function SpellParts(ps: seq<RhsPart>): seq<byte> {
    if ps == [] then [] else SpellPart(ps[0]) + SpellParts(ps[1..])
  }

  function Texts(ps: seq<RhsPart>, line: seq<byte>, f: Found): seq<seq<byte>>
    requires f.Found? && ValidRegs(f.regs) && forall i :: 0 <= i < |ps| ==> ProperPart(ps[i])
  {
    seq(|ps|, i requires 0 <= i < |ps| => PartText(ps[i], line, f))
  }

  /** The replacement is what its parts stand for, one after the other. */
  lemma {:induction false} ExpandSpelled(ps: seq<RhsPart>, line: seq<byte>, f: Found)
    requires f.Found? && ValidRegs(f.regs) && forall i :: 0 <= i < |ps| ==> ProperPart(ps[i])
    ensures Expand(SpellParts(ps), line, f) == Concat(Texts(ps, line, f))
    decreases |ps|
  {
    if ps != [] {
      ExpandSpelled(ps[1..], line, f);
      assert Texts(ps, line, f)[1..] == Texts(ps[1..], line, f);
      PartExpanded(ps[0], SpellParts(ps[1..]), line, f);
    }
  }

  lemma PartExpanded(p: RhsPart, rest: seq<byte>, line: seq<byte>, f: Found)
    requires f.Found? && ValidRegs(f.regs) && ProperPart(p)
    ensures Expand(SpellPart(p) + rest, line, f) == PartText(p, line, f) + Expand(rest, line, f)
  {
    var rhs := SpellPart(p) + rest;
    if |SpellPart(p)| == 1 {
      assert rhs[1..] == rest;
    } else {
      assert rhs[2..] == rest;
    }
  }

  /** Every replacement text that the compiler lets through is made of such parts. */
  lemma {:induction false} RhsSpelled(rhs: seq<byte>, items: seq<Item>) returns (ps: seq<RhsPart>)
    requires RhsOk(rhs, items)
    ensures SpellParts(ps) == rhs && forall i :: 0 <= i < |ps| ==> ProperPart(ps[i])
    decreases |rhs|
  {
    ps := [];
    if rhs != [] {
      var p :=
        if rhs[0] == AMPERSAND then Whole
        else if rhs[0] != BACKSLASH then Plain(rhs[0])
        else if ONE <= rhs[1] <= NINE then Captured(rhs[1] - ONE)
        else Escaped(rhs[1]);
      var more := RhsSpelled(Remaining(rhs), items);
      ps := [p] + more;
      assert ps[1..] == more && rhs == SpellPart(p) + Remaining(rhs);
    }
  }
}
