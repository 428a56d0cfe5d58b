/** What sed patterns mean, said once more without the compiler's tables, counts and registers: which
    characters a bracket names, which repetitions a quantifier allows, which item each token gives, and where
    in the text the items of a match lie. */
module RegexMeaning {
  import opened Bytes
  import opened RegexSemantics
  import opened RegexBytecode
  import opened RegexSyntax

  // ---------------------------------------------------------------- numbers and counts

  function Pow10(n: nat): nat {
    if n == 0 then 1 else 10 * Pow10(n - 1)
  }

  /** The first digit counts the most: a number is decimal. */
  lemma {:induction false} ValuePlaces(d: byte, rest: seq<byte>)
    ensures Value([d] + rest) == (d - ZERO) * Pow10(|rest|) + Value(rest)
    decreases |rest|
  {
    var all := [d] + rest;
    if rest == [] {
      assert all[..0] == [];
    } else {
      var n := |rest| - 1;
      assert all[..|all| - 1] == [d] + rest[..n];
      ValuePlaces(d, rest[..n]);
      TenTimes(d - ZERO, Pow10(n), Value(rest[..n]));
    }
  }

  lemma TenTimes(a: int, p: int, v: int)
    ensures 10 * (a * p + v) == a * (10 * p) + 10 * v
  {
  }

  /** The counts a quantifier allows: any for a star, exactly m for \{m\}, m up to n for \{m,n\}, and for
      \{m,\} up to 20000 more than m. */
  lemma CountsAllowed(t: Token, n: nat)
    requires t.TStar? || (t.TInterval? && LegalInterval(t.lo, t.hi))
    ensures t.TStar? ==> Allowed(QuantOf(t), n)
    ensures t.TInterval? && t.hi.Exact? ==> (Allowed(QuantOf(t), n) <==> n == Value(t.lo))
    ensures t.TInterval? && t.hi.UpTo? ==> (Allowed(QuantOf(t), n) <==> Value(t.lo) <= n <= Value(t.hi.digits))
    ensures t.TInterval? && t.hi.Unlimited? ==>
      (Allowed(QuantOf(t), n) <==> Value(t.lo) <= n <= Value(t.lo) + 20000)
  {
    if t.TInterval? {
      ValueNat(t.lo);
    }
  }

  lemma {:induction false} ValueNat(d: seq<byte>)
    requires forall i :: 0 <= i < |d| ==> IsDigit(d[i])
    ensures Value(d) >= 0
    decreases |d|
  {
    if d != [] {
      ValueNat(d[..|d| - 1]);
    }
  }

  // ---------------------------------------------------------------- characters

  /** The character named before element i, where a range that element i ends begins. */
  function NamedBefore(b: Bracket, i: nat): byte
    requires i < |b.more|
  {
    if i == 0 then b.first else b.more[i - 1].c
  }

  /** Element i names c: the character itself, or a range it ends. */
  predicate NamedAt(b: Bracket, i: nat, c: byte)
    requires i < |b.more|
  {
    c == b.more[i].c || (b.more[i].To? && NamedBefore(b, i) <= c <= b.more[i].c)
  }

  /** A bracket names its first character, what its elements name, and a dash at its end. */
  lemma {:induction false} ListedIff(b: Bracket, c: byte)
    ensures Listed(b, c) <==>
      c == b.first || (b.dash && c == DASH) || exists i :: 0 <= i < |b.more| && NamedAt(b, i, c)
    decreases |b.more|
  {
    if b.more != [] {
      var pre, n := Init(b), |b.more| - 1;
      ListedIff(pre, c);
      assert LastChar(pre) == NamedBefore(b, n);
      forall i | 0 <= i < n ensures NamedAt(pre, i, c) == NamedAt(b, i, c) {
      }
      assert (exists i :: 0 <= i < |b.more| && NamedAt(b, i, c)) <==>
        NamedAt(b, n, c) || exists i :: 0 <= i < n && NamedAt(b, i, c);
    }
  }

  /** A character stands for itself, a dot for any, a bracket for what it names or for the rest; NUL is
      never matched. */
  lemma AtomMeans(t: Token, c: byte)
    requires IsAtom(t)
    ensures t.TChr? ==> (Has(AtomOf(t), c) <==> c == t.c && c != 0)
    ensures t.TAny? ==> (Has(AtomOf(t), c) <==> c != 0)
    ensures t.TSet? ==>
      var named := c == t.b.first || (t.b.dash && c == DASH) || exists i :: 0 <= i < |t.b.more| && NamedAt(t.b, i, c);
      Has(AtomOf(t), c) <==> c != 0 && named != t.b.neg
  {
    if t.TSet? {
      ListedIff(t.b, c);
    }
  }

  // ---------------------------------------------------------------- tokens and items

  predicate IsQuantifier(t: Token) {
    t.TStar? || t.TInterval?
  }

  /** How many items the first j tokens give: quantifiers give none. */
  function Place(ts: seq<Token>, j: nat): (p: nat)
    requires j <= |ts|
    ensures p <= j
  {
    if j == 0 then 0 else Place(ts, j - 1) + if IsQuantifier(ts[j - 1]) then 0 else 1
  }

  /** How deep in groups the text behind the first j tokens is. */
  function Depth(ts: seq<Token>, j: nat): int
    requires j <= |ts|
  {
    if j == 0 then 0
    else Depth(ts, j - 1) + if ts[j - 1].TOpen? then 1 else if ts[j - 1].TClose? then -1 else 0
  }

  /** How many groups the first j tokens open. */
  function Opened(ts: seq<Token>, j: nat): nat
    requires j <= |ts|
  {
    if j == 0 then 0 else Opened(ts, j - 1) + if ts[j - 1].TOpen? then 1 else 0
  }

  /** The group opened by token i is the innermost one that stays open up to place j. */
  predicate OpenTo(ts: seq<Token>, i: nat, j: nat)
    requires i < j <= |ts|
  {
    ts[i].TOpen? && forall m :: i < m <= j ==> Depth(ts, m) > Depth(ts, i)
  }

  /** Token j closes the group opened by token i. */
  predicate Closing(ts: seq<Token>, i: nat, j: nat)
    requires i < j < |ts|
  {
    OpenTo(ts, i, j) && ts[j].TClose? && Depth(ts, j + 1) == Depth(ts, i)
  }

  /** The item that token j gives. Groups are numbered as they open, and the item of a closing bracket has
      the number of the group that it closes. */
  predicate ItemIs(ts: seq<Token>, j: nat, it: Item)
    requires j < |ts|
  {
    var t := ts[j];
    if IsAtom(t) then
      it == Single(AtomOf(t), if j + 1 < |ts| && IsQuantifier(ts[j + 1]) then QuantOf(ts[j + 1]) else Once)
    else
      match t
      case TOpen => it == Open(Opened(ts, j))
      case TClose => exists i :: 0 <= i < j && Closing(ts, i, j) && it == Close(Opened(ts, i))
      case TBack(d) => it == Back(d)
      case _ => it == EndAnchor
  }

  lemma {:induction false} PrefixCounts(pre: seq<Token>, t: Token, j: nat)
    requires j <= |pre|
    ensures var ts := pre + [t];
      Place(ts, j) == Place(pre, j) && Depth(ts, j) == Depth(pre, j) && Opened(ts, j) == Opened(pre, j)
    decreases j
  {
    if j > 0 {
      PrefixCounts(pre, t, j - 1);
    }
  }

  lemma {:induction false} OpenedIs(ts: seq<Token>)
    ensures Opened(ts, |ts|) == Opens(ts)
    decreases |ts|
  {
    if ts != [] {
      var pre, t := ts[..|ts| - 1], ts[|ts| - 1];
      assert ts == pre + [t];
      OpenedIs(pre);
      PrefixCounts(pre, t, |pre|);
    }
  }

  /** Group number Pending(ts)[p] was opened by token i and is open since, at depth p. */
  predicate PendingFrom(ts: seq<Token>, p: nat, i: nat)
    requires p < |Pending(ts)| && i < |ts|
  {
    OpenTo(ts, i, |ts|) && Depth(ts, i) == p && Pending(ts)[p] == Opened(ts, i)
  }

  predicate IsPending(ts: seq<Token>, p: nat)
    requires p < |Pending(ts)|
  {
    exists i :: 0 <= i < |ts| && PendingFrom(ts, p, i)
  }

  lemma OpenToMore(pre: seq<Token>, t: Token, i: nat)
    requires i < |pre| && OpenTo(pre, i, |pre|)
    ensures var ts := pre + [t];
      && OpenTo(ts, i, |pre|) && Depth(ts, i) == Depth(pre, i) && Opened(ts, i) == Opened(pre, i)
      && (OpenTo(ts, i, |ts|) <==> Depth(ts, |ts|) > Depth(ts, i))
  {
    var ts := pre + [t];
    forall m | 0 <= m <= |pre| ensures Depth(ts, m) == Depth(pre, m) {
      PrefixCounts(pre, t, m);
    }
    PrefixCounts(pre, t, i);
  }

  /** The groups pending are those that brackets still open have opened. */
  lemma {:induction false} PendingIs(ts: seq<Token>)
    requires ContextOk(ts)
    ensures |Pending(ts)| == Depth(ts, |ts|)
    ensures forall p :: 0 <= p < |Pending(ts)| ==> IsPending(ts, p)
    decreases |ts|
  {
    if ts != [] {
      var pre, t := ts[..|ts| - 1], ts[|ts| - 1];
      assert ts == pre + [t];
      PendingIs(pre);
      GroupsAppend(pre, t);
      OpenedIs(pre);
      PrefixCounts(pre, t, |pre|);
      forall p | 0 <= p < |Pending(ts)| ensures IsPending(ts, p) {
        if p < |Pending(pre)| {
          assert IsPending(pre, p);
          var i :| 0 <= i < |pre| && PendingFrom(pre, p, i);
          OpenToMore(pre, t, i);
          assert PendingFrom(ts, p, i);
        } else {
          assert PendingFrom(ts, p, |pre|);
        }
      }
    }
  }

  lemma ItemIsMore(pre: seq<Token>, t: Token, j: nat, it: Item)
    requires j < |pre| && ItemIs(pre, j, it) && !(j + 1 == |pre| && IsQuantifier(t))
    ensures ItemIs(pre + [t], j, it)
  {
    var ts := pre + [t];
    assert ts[j] == pre[j] && (j + 1 < |pre| ==> ts[j + 1] == pre[j + 1]);
    PrefixCounts(pre, t, j);
    if pre[j].TClose? {
      var i :| 0 <= i < j && Closing(pre, i, j) && it == Close(Opened(pre, i));
      forall m | 0 <= m <= |pre| ensures Depth(ts, m) == Depth(pre, m) {
        PrefixCounts(pre, t, m);
      }
      PrefixCounts(pre, t, i);
      assert Closing(ts, i, j);
    }
  }

  /** What the last token adds. */
  lemma LastItem(pre: seq<Token>, t: Token)
    requires ContextOk(pre + [t]) && !IsQuantifier(t)
    ensures |ItemsOf(pre + [t])| == |ItemsOf(pre)| + 1 && ItemsOf(pre + [t])[..|ItemsOf(pre)|] == ItemsOf(pre)
    ensures ItemIs(pre + [t], |pre|, ItemsOf(pre + [t])[|ItemsOf(pre)|])
  {
    var ts := pre + [t];
    assert ts[..|ts| - 1] == pre && ts[|ts| - 1] == t;
    ItemsOfAppend(pre, t);
    OpenedIs(pre);
    PrefixCounts(pre, t, |pre|);
    if t.TClose? {
      PendingIs(pre);
      var p := |Pending(pre)| - 1;
      assert IsPending(pre, p);
      var i :| 0 <= i < |pre| && PendingFrom(pre, p, i);
      OpenToMore(pre, t, i);
      assert Closing(ts, i, |pre|);
    }
  }

  /** Every token but the quantifiers gives one item, in order, and a quantifier changes only the item before it. */
  lemma {:induction false} ItemAt(ts: seq<Token>, j: nat)
    requires ContextOk(ts) && Regular(ts) && j < |ts| && !IsQuantifier(ts[j])
    ensures |ItemsOf(ts)| == Place(ts, |ts|) && Place(ts, j) < Place(ts, |ts|)
    ensures ItemIs(ts, j, ItemsOf(ts)[Place(ts, j)])
    decreases |ts|
  {
    ItemCount(ts);
    PlaceBelow(ts, j);
    var pre, t := ts[..|ts| - 1], ts[|ts| - 1];
    assert ts == pre + [t];
    ItemCount(pre);
    PrefixCounts(pre, t, j);
    if j == |pre| {
      LastItem(pre, t);
    } else {
      ItemAt(pre, j);
      ItemsOfAppend(pre, t);
      if !IsQuantifier(t) {
        LastItem(pre, t);
        assert ItemsOf(ts)[Place(ts, j)] == ItemsOf(ts)[..|ItemsOf(pre)|][Place(ts, j)];
        ItemIsMore(pre, t, j, ItemsOf(pre)[Place(pre, j)]);
      } else {
        Requantify(pre, t, j);
      }
    }
  }

  /** A quantifier changes the last item and leaves the others as they were. */
  lemma Requantify(pre: seq<Token>, t: Token, j: nat)
    requires IsQuantifier(t) && pre != [] && IsAtom(pre[|pre| - 1]) && j < |pre|
    requires |ItemsOf(pre)| == Place(pre, |pre|) && !IsQuantifier(pre[j])
    requires Place(pre, j) < |ItemsOf(pre)| && ItemIs(pre, j, ItemsOf(pre)[Place(pre, j)])
    ensures |ItemsOf(pre + [t])| == |ItemsOf(pre)| && ItemIs(pre + [t], j, ItemsOf(pre + [t])[Place(pre, j)])
  {
    var n := |pre| - 1;
    LastQuantified(pre, t);
    if j == n {
      QuantifiedIs(pre, t);
    } else {
      PlaceStrict(pre, j, n);
      ItemIsMore(pre, t, j, ItemsOf(pre)[Place(pre, j)]);
    }
  }

  lemma LastQuantified(pre: seq<Token>, t: Token)
    requires IsQuantifier(t) && pre != [] && IsAtom(pre[|pre| - 1]) && |ItemsOf(pre)| == Place(pre, |pre|)
    ensures |ItemsOf(pre + [t])| == |ItemsOf(pre)| == Place(pre, |pre| - 1) + 1
    ensures ItemsOf(pre + [t])[|ItemsOf(pre)| - 1] == Single(AtomOf(pre[|pre| - 1]), QuantOf(t))
    ensures forall p :: 0 <= p < |ItemsOf(pre)| - 1 ==> ItemsOf(pre + [t])[p] == ItemsOf(pre)[p]
  {
    var pre2, atom := pre[..|pre| - 1], pre[|pre| - 1];
    assert pre == pre2 + [atom];
    QuantifierShape(pre2, atom, t);
  }

  lemma QuantifiedIs(pre: seq<Token>, t: Token)
    requires IsQuantifier(t) && pre != [] && IsAtom(pre[|pre| - 1])
    ensures ItemIs(pre + [t], |pre| - 1, Single(AtomOf(pre[|pre| - 1]), QuantOf(t)))
  {
  }

  lemma {:induction false} PlaceStrict(ts: seq<Token>, j: nat, n: nat)
    requires j < n <= |ts| && !IsQuantifier(ts[j])
    ensures Place(ts, j) < Place(ts, n)
    decreases n
  {
    if j < n - 1 {
      PlaceStrict(ts, j, n - 1);
    }
  }

  lemma PlaceBelow(ts: seq<Token>, j: nat)
    requires j < |ts| && !IsQuantifier(ts[j])
    ensures Place(ts, j) < Place(ts, |ts|)
  {
    PlaceStrict(ts, j, |ts|);
  }

  lemma {:induction false} ItemCount(ts: seq<Token>)
    requires Regular(ts)
    ensures |ItemsOf(ts)| == Place(ts, |ts|)
    decreases |ts|
  {
    if ts != [] {
      var pre, t := ts[..|ts| - 1], ts[|ts| - 1];
      assert ts == pre + [t];
      ItemCount(pre);
      PrefixCounts(pre, t, |pre|);
      ItemsOfAppend(pre, t);
      if IsQuantifier(t) {
        var pre2, atom := pre[..|pre| - 1], pre[|pre| - 1];
        assert pre == pre2 + [atom];
        ItemsOfAppend(pre2, atom);
      }
    }
  }

  /** How many groups the first j tokens close. */
  function Closed(ts: seq<Token>, j: nat): nat
    requires j <= |ts|
  {
    if j == 0 then 0 else Closed(ts, j - 1) + if ts[j - 1].TClose? then 1 else 0
  }

  lemma {:induction false} CountsOf(ts: seq<Token>, j: nat)
    requires j <= |ts|
    ensures Opens(ts[..j]) == Opened(ts, j) && Closes(ts[..j]) == Closed(ts, j)
    ensures Depth(ts, j) == Opened(ts, j) - Closed(ts, j)
    decreases j
  {
    if j > 0 {
      assert ts[..j][..j - 1] == ts[..j - 1];
      CountsOf(ts, j - 1);
    }
  }

  /** What the compiler demands of a token behind others: at most nine groups, none closed that is not open, and
      back-references numbered up to the count of those closed. */
  lemma ContextMeans(ts: seq<Token>, j: nat)
    requires j < |ts| && ContextOk(ts[..j])
    ensures ContextError(ts[..j], ts[j]) == 43 <==> ts[j].TOpen? && Opened(ts, j) >= 9
    ensures ContextError(ts[..j], ts[j]) == 42 <==> ts[j].TClose? && Depth(ts, j) == 0
    ensures ContextError(ts[..j], ts[j]) == 25 <==> ts[j].TBack? && ts[j].d >= Closed(ts, j)
    ensures ContextError(ts[..j], ts[j]) in {0, 25, 42, 43}
  {
    var pre := ts[..j];
    CountsOf(ts, j);
    PendingIs(pre);
    assert pre[..j] == pre;
    CountsOf(pre, j);
  }

  /** A "*" repeats what is before it, unless that is nothing or a bracket of a group: there it is a character. */
  lemma StarRead(text: seq<byte>, q: nat, eof: byte, ts: seq<Token>)
    requires q < |text| && text[q] == ASTERISK && eof != ASTERISK
    ensures Lex(text, q, eof, LastOp(ts)) ==
      Tok(if ts == [] || ts[|ts| - 1].TOpen? || ts[|ts| - 1].TClose? then TChr(ASTERISK, false) else TStar, q + 1)
  {
    LastIsBracket(ts);
    LexStar(text, q, eof, LastOp(ts));
  }

  lemma LexStar(text: seq<byte>, q: nat, eof: byte, last: int)
    requires q < |text| && text[q] == ASTERISK && eof != ASTERISK
    ensures Lex(text, q, eof, last) ==
      Tok(if last == -1 || last == CBRA || last == CKET then TChr(ASTERISK, false) else TStar, q + 1)
  {
  }

  lemma QuantifiedOdd(b: byte)
    ensures OrStar(b) != CBRA && OrStar(b) != CKET && OrRange(b) != CBRA && OrRange(b) != CKET
  {
    assert OrStar(b) % 2 == 1 && OrRange(b) % 4 == 3;
  }

  lemma LastIsBracket(ts: seq<Token>)
    ensures ts != [] ==> (LastOp(ts) == CBRA || LastOp(ts) == CKET <==> ts[|ts| - 1].TOpen? || ts[|ts| - 1].TClose?)
  {
    if ts != [] {
      var prev := LastOp(ts[..|ts| - 1]);
      if prev >= 0 {
        QuantifiedOdd(prev);
      }
    }
  }

  // ---------------------------------------------------------------- where the items of a match lie

  /** Items o and c are the brackets of group k. */
  predicate Group(items: seq<Item>, k: nat, o: nat, c: nat) {
    o < c < |items| && items[o] == Open(k) && items[c] == Close(k)
  }

  /** From pos to end the text of group k, which ends before item j, is repeated. */
  ghost predicate Repeated(items: seq<Item>, s: seq<byte>, at: seq<nat>, j: nat, k: nat, pos: nat, end: nat)
    requires j < |at| && end <= |s|
  {
    exists o: nat, c: nat ::
      Group(items, k, o, c) && c < j && at[o] <= at[c] <= |s| && pos <= end && s[pos..end] == s[at[o]..at[c]]
  }

  /** Item j lies in the text from at[j] to at[j + 1]: a one-character atom as often as allowed, a
      back-reference where the text of its group is repeated, all others on no text. A quantified item does
      not end at locs. */
  ghost predicate LiesAt(items: seq<Item>, s: seq<byte>, locs: int, at: seq<nat>, j: nat)
    requires j < |items| && j + 1 < |at|
  {
    && at[j] <= at[j + 1] <= |s|
    && match items[j]
       case Single(a, q) =>
         && Allowed(q, at[j + 1] - at[j]) && (q != Once ==> at[j + 1] != locs)
         && forall i :: at[j] <= i < at[j + 1] ==> Has(a, s[i])
       case EndAnchor => at[j] == at[j + 1] == |s|
       case Back(k) => Repeated(items, s, at, j, k, at[j], at[j + 1])
       case _ => at[j] == at[j + 1]
  }

  /** The items lie one behind the other from pos on. */
  ghost predicate Segmented(items: seq<Item>, s: seq<byte>, pos: nat, locs: int, at: seq<nat>) {
    && |at| == |items| + 1 && at[0] == pos
    && forall j :: 0 <= j < |items| ==> LiesAt(items, s, locs, at, j)
  }

  /** The register of item j, if it is a bracket of a group, holds its place. */
  predicate Held(items: seq<Item>, at: seq<nat>, r: Regs, j: nat)
    requires j < |items| && j < |at| && ValidRegs(r)
  {
    && (items[j].Open? && items[j].k < NBRA ==> r.bra[items[j].k] == at[j])
    && (items[j].Close? && items[j].k < NBRA ==> r.ket[items[j].k] == at[j])
  }

  /** Group k has been opened, or opened and closed, by one of the first n items. */
  ghost predicate Begun(items: seq<Item>, at: seq<nat>, n: nat, k: nat)
    requires n < |at| && n <= |items|
  {
    k < NBRA && exists o: nat :: o < n && items[o] == Open(k) && at[o] <= at[n]
  }

  ghost predicate Ended(items: seq<Item>, at: seq<nat>, n: nat, k: nat)
    requires n < |at|
  {
    k < NBRA && exists o: nat, c: nat :: Group(items, k, o, c) && c < n && at[o] <= at[c] <= at[n]
  }

  /** The first n items lie at the places at, and have begun and ended these groups. */
  ghost predicate SoFar(items: seq<Item>, n: nat, s: seq<byte>, locs: int, at: seq<nat>, r: Regs,
                        begun: set<nat>, ended: set<nat>)
  {
    && |at| == n + 1 && n <= |items| && at[n] <= |s| && ValidRegs(r)
    && (forall j :: 0 <= j < n ==> LiesAt(items, s, locs, at, j))
    && (forall j :: 0 <= j < n ==> Held(items, at, r, j))
    && (forall j :: 0 <= j < n ==> Seen(items[j], begun, ended))
    && (forall k :: k in begun ==> Begun(items, at, n, k))
    && (forall k :: k in ended ==> Ended(items, at, n, k))
  }

  predicate Seen(it: Item, begun: set<nat>, ended: set<nat>) {
    (it.Open? ==> it.k in begun || it.k in ended) && (it.Close? ==> it.k in ended)
  }

  function CountOf(it: Item, pos: nat, next: nat): nat {
    if it.Single? && next >= pos then next - pos else 0
  }

  /** What holds of the first places holds when one more is known. */
  lemma LiesMore(items: seq<Item>, s: seq<byte>, locs: int, at: seq<nat>, next: nat, j: nat)
    requires j < |items| && j + 1 < |at|
    ensures LiesAt(items, s, locs, at + [next], j) <==> LiesAt(items, s, locs, at, j)
  {
    var more := at + [next];
    assert more[j] == at[j] && more[j + 1] == at[j + 1];
    if items[j].Back? && at[j + 1] <= |s| {
      forall o: nat, c: nat | Group(items, items[j].k, o, c) && c < j ensures more[o] == at[o] && more[c] == at[c] {
      }
    }
  }

  /** A back-reference to a group that has ended: the registers tell where it lies. */
  lemma BackLies(items: seq<Item>, n: nat, s: seq<byte>, locs: int, at: seq<nat>, r: Regs,
                 begun: set<nat>, ended: set<nat>, k: nat, next: nat)
    requires SoFar(items, n, s, locs, at, r, begun, ended) && k in ended && next <= |s|
    ensures k < NBRA && 0 <= r.bra[k] <= r.ket[k] <= |s|
    ensures Repeated(items, s, at + [next], n, k, at[n], next) <==>
      at[n] <= next && s[at[n]..next] == s[r.bra[k]..r.ket[k]]
  {
    var more := at + [next];
    assert Ended(items, at, n, k);
    var o: nat, c: nat :| Group(items, k, o, c) && c < n && at[o] <= at[c] <= at[n];
    assert Held(items, at, r, o) && Held(items, at, r, c);
    assert more[o] == at[o] && more[c] == at[c];
    forall o2: nat, c2: nat | Group(items, k, o2, c2) && c2 < n ensures more[o2] == r.bra[k] && more[c2] == r.ket[k] {
      assert Held(items, at, r, o2) && Held(items, at, r, c2);
    }
  }

  /** Taking an item up to next is to lie there. */
  lemma TakeIsLies(items: seq<Item>, n: nat, s: seq<byte>, locs: int, at: seq<nat>, r: Regs,
                   begun: set<nat>, ended: set<nat>, next: nat)
    requires SoFar(items, n, s, locs, at, r, begun, ended) && n < |items| && next <= |s|
    requires Scoped(items[n..], begun, ended)
    ensures var t := Take(items[n], s, at[n], r, locs, CountOf(items[n], at[n], next));
      (t.Some? && t.value.0 == next) <==> LiesAt(items, s, locs, at + [next], n)
  {
    var more := at + [next];
    assert more[n] == at[n] && more[n + 1] == next && items[n..][0] == items[n];
    if items[n].Back? {
      BackLies(items, n, s, locs, at, r, begun, ended, items[n].k, next);
    }
  }

  /** Then one item more lies at its place. */
  lemma SoFarMore(items: seq<Item>, n: nat, s: seq<byte>, locs: int, at: seq<nat>, r: Regs,
                  begun: set<nat>, ended: set<nat>, next: nat)
    requires SoFar(items, n, s, locs, at, r, begun, ended) && n < |items| && next <= |s|
    requires Scoped(items[n..], begun, ended) && LiesAt(items, s, locs, at + [next], n)
    ensures var t := Take(items[n], s, at[n], r, locs, CountOf(items[n], at[n], next));
      t.Some? && SoFar(items, n + 1, s, locs, at + [next], t.value.1, BegunAfter(items[n], begun),
                       EndedAfter(items[n], ended))
  {
    TakeIsLies(items, n, s, locs, at, r, begun, ended, next);
    var r2 := Take(items[n], s, at[n], r, locs, CountOf(items[n], at[n], next)).value.1;
    var more, b2, e2 := at + [next], BegunAfter(items[n], begun), EndedAfter(items[n], ended);
    forall j | 0 <= j <= n ensures LiesAt(items, s, locs, more, j) {
      if j < n {
        LiesMore(items, s, locs, at, next, j);
      }
    }
    HeldMore(items, n, s, locs, at, r, begun, ended, next, r2);
    GroupsMore(items, n, s, locs, at, r, begun, ended, next);
  }

  lemma HeldMore(items: seq<Item>, n: nat, s: seq<byte>, locs: int, at: seq<nat>, r: Regs,
                 begun: set<nat>, ended: set<nat>, next: nat, r2: Regs)
    requires SoFar(items, n, s, locs, at, r, begun, ended) && n < |items| && next <= |s|
    requires Scoped(items[n..], begun, ended)
    requires var t := Take(items[n], s, at[n], r, locs, CountOf(items[n], at[n], next)); t.Some? && t.value.1 == r2
    ensures forall j :: 0 <= j <= n ==> Held(items, at + [next], r2, j)
    ensures forall j :: 0 <= j <= n ==> Seen(items[j], BegunAfter(items[n], begun), EndedAfter(items[n], ended))
  {
    assert items[n..][0] == items[n];
    forall j | 0 <= j <= n
      ensures Held(items, at + [next], r2, j)
      ensures Seen(items[j], BegunAfter(items[n], begun), EndedAfter(items[n], ended))
    {
      if j < n {
        assert Held(items, at, r, j) && Seen(items[j], begun, ended);
      }
    }
  }

  lemma GroupsMore(items: seq<Item>, n: nat, s: seq<byte>, locs: int, at: seq<nat>, r: Regs,
                   begun: set<nat>, ended: set<nat>, next: nat)
    requires SoFar(items, n, s, locs, at, r, begun, ended) && n < |items| && at[n] <= next <= |s|
    requires Scoped(items[n..], begun, ended)
    ensures forall k :: k in BegunAfter(items[n], begun) ==> Begun(items, at + [next], n + 1, k)
    ensures forall k :: k in EndedAfter(items[n], ended) ==> Ended(items, at + [next], n + 1, k)
  {
    var more := at + [next];
    assert items[n..][0] == items[n];
    forall k | k in BegunAfter(items[n], begun) ensures Begun(items, more, n + 1, k) {
      if k in begun {
        assert Begun(items, at, n, k);
        var o: nat :| o < n && items[o] == Open(k) && at[o] <= at[n];
        assert more[o] == at[o];
      } else {
        assert items[n] == Open(k) && more[n] == at[n];
      }
    }
    forall k | k in EndedAfter(items[n], ended) ensures Ended(items, more, n + 1, k) {
      if k in ended {
        assert Ended(items, at, n, k);
        var o: nat, c: nat :| Group(items, k, o, c) && c < n && at[o] <= at[c] <= at[n];
        assert more[o] == at[o] && more[c] == at[c];
      } else {
        assert items[n] == Close(k) && Begun(items, at, n, k);
        var o: nat :| o < n && items[o] == Open(k) && at[o] <= at[n];
        assert Group(items, k, o, n) && more[o] == at[o] && more[n] == at[n];
      }
    }
  }

  /** A choice of counts that succeeds gives the places where the items lie. */
  lemma {:induction false} WalkLies(items: seq<Item>, n: nat, s: seq<byte>, locs: int, at: seq<nat>, r: Regs,
                                    begun: set<nat>, ended: set<nat>, counts: seq<nat>) returns (all: seq<nat>)
    requires SoFar(items, n, s, locs, at, r, begun, ended) && Scoped(items[n..], begun, ended)
    requires |counts| == |items| - n && Walk(items[n..], s, at[n], r, locs, counts).Some?
    ensures at <= all && Segmented(items, s, at[0], locs, all)
    ensures var (end, r2) := Walk(items[n..], s, at[n], r, locs, counts).value;
      all[|items|] == end && forall j :: 0 <= j < |items| ==> Held(items, all, r2, j)
    decreases |items| - n
  {
    all := at;
    if n < |items| {
      var (next, r2) := Take(items[n], s, at[n], r, locs, counts[0]).value;
      TakeEnds(items[n], s, at[n], r, locs, counts[0]);
      assert items[n..][1..] == items[n + 1..];
      TakeIsLies(items, n, s, locs, at, r, begun, ended, next);
      SoFarMore(items, n, s, locs, at, r, begun, ended, next);
      all := WalkLies(items, n + 1, s, locs, at + [next], r2, BegunAfter(items[n], begun),
                      EndedAfter(items[n], ended), counts[1..]);
    }
  }

  lemma TakeEnds(it: Item, s: seq<byte>, pos: nat, r: Regs, locs: int, n: nat)
    requires ValidRegs(r) && pos <= |s| && Take(it, s, pos, r, locs, n).Some?
    ensures var next := Take(it, s, pos, r, locs, n).value.0; pos <= next <= |s| && n == CountOf(it, pos, next)
  {
  }

  /** Places where the items lie give a choice of counts that succeeds. */
  lemma {:induction false} LiesWalk(items: seq<Item>, n: nat, s: seq<byte>, locs: int, at: seq<nat>, r: Regs,
                                    begun: set<nat>, ended: set<nat>, all: seq<nat>) returns (counts: seq<nat>)
    requires SoFar(items, n, s, locs, at, r, begun, ended) && Scoped(items[n..], begun, ended)
    requires at <= all && Segmented(items, s, at[0], locs, all)
    ensures |counts| == |items| - n
    ensures var w := Walk(items[n..], s, at[n], r, locs, counts); w.Some? && w.value.0 == all[|items|]
    decreases |items| - n
  {
    counts := [];
    if n < |items| {
      var next := all[n + 1];
      assert LiesAt(items, s, locs, all, n);
      LiesCut(items, s, locs, all, at + [next], n);
      TakeIsLies(items, n, s, locs, at, r, begun, ended, next);
      SoFarMore(items, n, s, locs, at, r, begun, ended, next);
      var c := CountOf(items[n], at[n], next);
      var r2 := Take(items[n], s, at[n], r, locs, c).value.1;
      assert items[n..][1..] == items[n + 1..];
      var more := LiesWalk(items, n + 1, s, locs, at + [next], r2, BegunAfter(items[n], begun),
                           EndedAfter(items[n], ended), all);
      counts := [c] + more;
      assert counts[1..] == more;
    }
  }

  lemma LiesCut(items: seq<Item>, s: seq<byte>, locs: int, all: seq<nat>, at: seq<nat>, n: nat)
    requires n < |items| && |at| == n + 2 && at <= all && LiesAt(items, s, locs, all, n)
    ensures LiesAt(items, s, locs, at, n)
  {
    assert forall j :: 0 <= j < |at| ==> at[j] == all[j];
  }

  /** The search succeeds exactly if the items lie one behind the other from pos on. */
  lemma MatchIffSegmented(items: seq<Item>, s: seq<byte>, pos: nat, r: Regs, locs: int)
    requires ValidRegs(r) && locs <= pos <= |s| && Scoped(items, {}, {})
    ensures Match(items, s, pos, r, locs).Some? <==> exists at :: Segmented(items, s, pos, locs, at)
  {
    assert SoFar(items, 0, s, locs, [pos], r, {}, {}) && items[0..] == items;
    MatchIffSomeCounts(items, s, pos, r, locs);
    if Match(items, s, pos, r, locs).Some? {
      var at := MatchSegments(items, s, pos, r, locs);
    }
    forall at | Segmented(items, s, pos, locs, at) ensures Matchable(items, s, pos, r, locs) {
      var counts := LiesWalk(items, 0, s, locs, [pos], r, {}, {}, at);
      assert Succeeds(items, s, pos, r, locs, counts);
    }
  }

  /** What the search finds: where the items lie, up to the end of the match, and in the registers where the
      groups lie. */
  lemma MatchSegments(items: seq<Item>, s: seq<byte>, pos: nat, r: Regs, locs: int) returns (at: seq<nat>)
    requires ValidRegs(r) && locs <= pos <= |s| && Scoped(items, {}, {}) && Match(items, s, pos, r, locs).Some?
    ensures var (end, r2) := Match(items, s, pos, r, locs).value;
      && Segmented(items, s, pos, locs, at) && at[|items|] == end
      && forall k: nat, o: nat, c: nat :: Group(items, k, o, c) && k < NBRA ==> r2.bra[k] == at[o] && r2.ket[k] == at[c]
  {
    var counts := MatchIsBestWalk(items, s, pos, r, locs);
    assert SoFar(items, 0, s, locs, [pos], r, {}, {}) && items[0..] == items;
    at := WalkLies(items, 0, s, locs, [pos], r, {}, {}, counts);
    var r2 := Match(items, s, pos, r, locs).value.1;
    forall k: nat, o: nat, c: nat | Group(items, k, o, c) && k < NBRA ensures r2.bra[k] == at[o] && r2.ket[k] == at[c] {
      assert Held(items, at, r2, o) && Held(items, at, r2, c);
    }
  }
}
