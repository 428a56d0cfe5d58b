/** What addresses select, line by line: one address, ranges by number, ranges that end with a pattern. */
module ScriptSelect {
  import opened Bytes
  import opened Script
  import opened ScriptRun

  /** Does the address hold of the line in the pattern space? */
  predicate Holds<S>(m: Machine<S>, a: Address, core: S) {
    match a
    case LastLine => m.dol(core)
    case LineNo(n) => m.lnum(core) == n
    case Pattern(id) => m.hit(core, id)
  }

  /** Without an address a command is always selected, and with one exactly where that holds; "!" inverts it. */
  lemma OneAddress<S>(m: Machine<S>, sel: Sel, i: nat, st: State<S>)
    requires sel.ad2.None? && i !in st.inar
    ensures sel.ad1.None? ==> Select(m, sel, i, st) == (!sel.neg, st)
    ensures sel.ad1.Some? ==> Select(m, sel, i, st) == (Holds(m, sel.ad1.value, st.core) != sel.neg, st)
  {
  }

  /** Selecting opens or closes no other command's range, and changes nothing else. */
  lemma OthersKept<S>(m: Machine<S>, sel: Sel, i: nat, st: State<S>)
    ensures var st2 := Select(m, sel, i, st).1;
      st2.core == st.core && forall j :: j != i ==> (j in st2.inar <==> j in st.inar)
    ensures sel.ad1.None? || sel.ad2.None? ==> (i in Select(m, sel, i, st).1.inar ==> i in st.inar)
  {
  }

  /** The command is executed on one line after the other: what it makes of its own range is what it finds the
      next time, and line numbers grow. */
  ghost predicate Times<S>(m: Machine<S>, sel: Sel, i: nat, sts: seq<State<S>>) {
    && (forall j :: 0 <= j < |sts| - 1 ==> Passes(m, sel, i, sts, j))
    && (forall j, k :: 0 <= j < k < |sts| ==> Line(m, sts, j) < Line(m, sts, k))
  }

  ghost predicate Passes<S>(m: Machine<S>, sel: Sel, i: nat, sts: seq<State<S>>, j: nat)
    requires j + 1 < |sts|
  {
    i in sts[j + 1].inar <==> i in Select(m, sel, i, sts[j]).1.inar
  }

  function Line<S>(m: Machine<S>, sts: seq<State<S>>, j: nat): int
    requires j < |sts|
  {
    m.lnum(sts[j].core)
  }

  /** Line a is among the first n lines on which the command is executed. */
  ghost predicate Reached<S>(m: Machine<S>, sts: seq<State<S>>, n: nat, a: int)
    requires n <= |sts|
  {
    exists j :: 0 <= j < n && Line(m, sts, j) == a
  }

  /** A range by numbers, begun outside: its state before time j. */
  lemma {:induction false} NumbersState<S>(m: Machine<S>, a: int, b: int, neg: bool, i: nat, sts: seq<State<S>>, j: nat)
    requires Times(m, Sel(Some(LineNo(a)), Some(LineNo(b)), neg), i, sts) && j < |sts| && i !in sts[0].inar
    ensures i in sts[j].inar ==> Reached(m, sts, j, a) && a < Line(m, sts, j)
    ensures Reached(m, sts, j, a) && Line(m, sts, j) <= b ==> i in sts[j].inar
    decreases j
  {
    if j > 0 {
      var sel, n := Sel(Some(LineNo(a)), Some(LineNo(b)), neg), j - 1;
      NumbersState(m, a, b, neg, i, sts, n);
      assert Passes(m, sel, i, sts, n) && Line(m, sts, n) < Line(m, sts, j);
      if i in sts[j].inar {
        if i in sts[n].inar {
          var k :| 0 <= k < n && Line(m, sts, k) == a;
          assert k < j && Line(m, sts, k) == a;
        } else {
          assert Line(m, sts, n) == a;
        }
      }
      if Reached(m, sts, j, a) && Line(m, sts, n) != a {
        var k :| 0 <= k < j && Line(m, sts, k) == a;
        assert k < n;
      }
    }
  }

  /** Addresses a,b select exactly the lines from a, if the command is executed on it, up to b, and a itself
      even if b comes before it; "!" inverts that. */
  lemma NumbersSelect<S>(m: Machine<S>, a: int, b: int, neg: bool, i: nat, sts: seq<State<S>>, j: nat)
    requires Times(m, Sel(Some(LineNo(a)), Some(LineNo(b)), neg), i, sts) && j < |sts| && i !in sts[0].inar
    ensures var l := Line(m, sts, j);
      Select(m, Sel(Some(LineNo(a)), Some(LineNo(b)), neg), i, sts[j]).0 <==>
        (Reached(m, sts, j + 1, a) && (l == a || l <= b)) != neg
  {
    NumbersState(m, a, b, neg, i, sts, j);
    if Line(m, sts, j) == a {
      assert Reached(m, sts, j + 1, a);
    }
    if Reached(m, sts, j, a) {
      var k :| 0 <= k < j && Line(m, sts, k) == a;
      assert Reached(m, sts, j + 1, a);
    }
    if Reached(m, sts, j + 1, a) && Line(m, sts, j) != a {
      var k :| 0 <= k < j + 1 && Line(m, sts, k) == a;
      assert k < j && Reached(m, sts, j, a);
    }
  }

  /** Executed on every line from the first on, a,b without "!" selects lines a to b, or line a alone if b is
      smaller. */
  lemma EveryLine<S>(m: Machine<S>, a: int, b: int, i: nat, sts: seq<State<S>>, j: nat)
    requires Times(m, Sel(Some(LineNo(a)), Some(LineNo(b)), false), i, sts) && j < |sts| && i !in sts[0].inar
    requires a >= 1 && forall k :: 0 <= k < |sts| ==> Line(m, sts, k) == k + 1
    ensures a <= b ==> (Select(m, Sel(Some(LineNo(a)), Some(LineNo(b)), false), i, sts[j]).0 <==> a <= j + 1 <= b)
    ensures b < a ==> (Select(m, Sel(Some(LineNo(a)), Some(LineNo(b)), false), i, sts[j]).0 <==> j + 1 == a)
  {
    NumbersSelect(m, a, b, false, i, sts, j);
    assert Line(m, sts, j) == j + 1;
    if a <= j + 1 {
      assert Line(m, sts, a - 1) == a;
      assert Reached(m, sts, j + 1, a);
    } else if Reached(m, sts, j + 1, a) {
      var k :| 0 <= k < j + 1 && Line(m, sts, k) == a;
      assert Line(m, sts, k) == k + 1;
    }
  }

  /** The range that begins at time s is still active at time j. */
  lemma {:induction false} PatternState<S>(m: Machine<S>, ad1: Address, id: nat, neg: bool, i: nat,
                                           sts: seq<State<S>>, s: nat, j: nat)
    requires Times(m, Sel(Some(ad1), Some(Pattern(id)), neg), i, sts) && s < j < |sts|
    requires !ad1.LastLine? && i !in sts[s].inar && Holds(m, ad1, sts[s].core)
    requires forall k :: s < k < j ==> !m.hit(sts[k].core, id)
    ensures i in sts[j].inar
    decreases j
  {
    assert Passes(m, Sel(Some(ad1), Some(Pattern(id)), neg), i, sts, j - 1);
    if s < j - 1 {
      PatternState(m, ad1, id, neg, i, sts, s, j - 1);
    }
  }

  /** A range that ends with a pattern: it begins where the first address holds and goes through the first
      later line that the pattern hits; the next one may begin behind that. */
  lemma PatternSelects<S>(m: Machine<S>, ad1: Address, id: nat, neg: bool, i: nat, sts: seq<State<S>>, s: nat, j: nat)
    requires Times(m, Sel(Some(ad1), Some(Pattern(id)), neg), i, sts) && s <= j < |sts|
    requires !ad1.LastLine? && i !in sts[s].inar && Holds(m, ad1, sts[s].core)
    requires forall k :: s < k < j ==> !m.hit(sts[k].core, id)
    ensures Select(m, Sel(Some(ad1), Some(Pattern(id)), neg), i, sts[j]).0 == !neg
    ensures s < j && j + 1 < |sts| ==> (i in sts[j + 1].inar <==> !m.hit(sts[j].core, id))
  {
    if s < j {
      PatternState(m, ad1, id, neg, i, sts, s, j);
      if j + 1 < |sts| {
        assert Passes(m, Sel(Some(ad1), Some(Pattern(id)), neg), i, sts, j);
      }
    }
  }

  /** Outside its range a command with two addresses is selected exactly where the first holds, and the range
      is active afterwards exactly then; "$" selects the last line and begins no range. */
  lemma RangeBegins<S>(m: Machine<S>, ad1: Address, ad2: Address, neg: bool, i: nat, st: State<S>)
    requires i !in st.inar
    ensures var (yes, st2) := Select(m, Sel(Some(ad1), Some(ad2), neg), i, st);
      && yes == (Holds(m, ad1, st.core) != neg)
      && (i in st2.inar <==> !ad1.LastLine? && Holds(m, ad1, st.core))
  {
  }

  /** A range up to "$" lasts for good. */
  lemma {:induction false} ToTheEnd<S>(m: Machine<S>, ad1: Address, neg: bool, i: nat, sts: seq<State<S>>, s: nat,
                                       j: nat)
    requires Times(m, Sel(Some(ad1), Some(LastLine), neg), i, sts) && s <= j < |sts|
    requires !ad1.LastLine? && i !in sts[s].inar && Holds(m, ad1, sts[s].core)
    ensures Select(m, Sel(Some(ad1), Some(LastLine), neg), i, sts[j]).0 == !neg && (s < j ==> i in sts[j].inar)
    decreases j
  {
    if s < j {
      ToTheEnd(m, ad1, neg, i, sts, s, j - 1);
      assert Passes(m, Sel(Some(ad1), Some(LastLine), neg), i, sts, j - 1);
    }
  }
}
