/** Running scripts: nested blocks as they are written, and the flat list the compiler makes of them.
    Both run step by step on the same machine and go through the same states. */
module ScriptRun {
  import opened Bytes
  import opened Script

  // ---------------------------------------------------------------- the machine

  /** What a command other than a branch does to control. Suspend is n or N: the script resumes behind it
      when the next line has come. */
  datatype Control = Continue | EndCycle | Suspend | Quit

  /** The parts of the evaluator that control flow does not depend on: whether a pattern matches the
      pattern space, the line number, whether this is the last line, the effect of a command (told whether
      its range is active), the test of t, and the first half of D (is there more than one line?). */
  datatype Machine<!S> = Machine(
    hit: (S, nat) -> bool,
    lnum: S -> int,
    dol: S -> bool,
    act: (S, nat, bool) -> (S, Control),
    test: S -> (bool, S),
    drop: S -> (bool, S))

  /** The machine's state and the commands whose address range is active. */
  datatype State<S> = State(core: S, inar: set<nat>)

  /** Is command i, with its addresses and "!", selected? Ranges are opened and closed on the way. */
  function Select<S>(m: Machine<S>, sel: Sel, i: nat, st: State<S>): (bool, State<S>) {
    if sel.ad1.None? then (!sel.neg, st)
    else if i in st.inar then
      match sel.ad2
      case Some(LineNo(n)) =>
        if m.lnum(st.core) > n then (sel.neg, st.(inar := st.inar - {i}))
        else if m.lnum(st.core) == n then (!sel.neg, st.(inar := st.inar - {i}))
        else (!sel.neg, st)
      case Some(Pattern(id)) => (!sel.neg, if m.hit(st.core, id) then st.(inar := st.inar - {i}) else st)
      case _ => (!sel.neg, st)
    else
      match sel.ad1.value
      case LastLine => (m.dol(st.core) != sel.neg, st)
      case LineNo(n) =>
        if m.lnum(st.core) != n then (sel.neg, st)
        else (!sel.neg, if sel.ad2.Some? then st.(inar := st.inar + {i}) else st)
      case Pattern(id) =>
        if m.hit(st.core, id) then (!sel.neg, if sel.ad2.Some? then st.(inar := st.inar + {i}) else st)
        else (sel.neg, st)
  }

  /** Inverting "!" inverts the selection and nothing else. */
  lemma SelectInverted<S>(m: Machine<S>, sel: Sel, i: nat, st: State<S>)
    ensures var (yes, st2) := Select(m, sel, i, st);
      Select(m, sel.(neg := !sel.neg), i, st) == (!yes, st2)
  {
  }

  datatype Why = ScriptEnd | Cycle(after: Control)

  // ---------------------------------------------------------------- the flat list

  datatype FlatFlow<S> = Running(pc: nat, st: State<S>) | Halted(why: Why, pc: nat, st: State<S>)

  /** Follow the link lb1 of the node at pc; a null link ends the script. */
  function Follow<S>(reps: seq<Rep>, pc: nat, st: State<S>): FlatFlow<S>
    requires pc < |reps|
  {
    if 0 <= reps[pc].lb1 < |reps| then Running(reps[pc].lb1, st) else Halted(ScriptEnd, pc, st)
  }

  /** The command of node pc, selected. */
  function FlatDo<S>(reps: seq<Rep>, m: Machine<S>, pc: nat, st: State<S>): FlatFlow<S>
    requires pc < |reps|
  {
    match reps[pc].kind
    case KBranch => Follow(reps, pc, st)
    case KTest =>
      var (flag, core) := m.test(st.core);
      if flag then Follow(reps, pc, st.(core := core)) else Running(pc + 1, st.(core := core))
    case KRestart =>
      var (more, core) := m.drop(st.core);
      if more then Follow(reps, pc, st.(core := core)) else Halted(Cycle(EndCycle), pc + 1, st.(core := core))
    case KAct(op) =>
      var (core, after) := m.act(st.core, op, pc in st.inar);
      if after.Continue? then Running(pc + 1, st.(core := core)) else Halted(Cycle(after), pc + 1, st.(core := core))
    case KNone => Halted(ScriptEnd, pc, st)
  }

  /** One turn of the interpreter's loop at node pc. */
  function FlatStep<S>(reps: seq<Rep>, m: Machine<S>, pc: nat, st: State<S>): FlatFlow<S> {
    if pc >= |reps| || reps[pc].kind.KNone? then Halted(ScriptEnd, pc, st)
    else
      var (yes, st1) := Select(m, reps[pc].sel, pc, st);
      if yes then FlatDo(reps, m, pc, st1) else Running(pc + 1, st1)
  }

  // ---------------------------------------------------------------- nested scripts

  /** A script: commands (not blocks) and blocks, in order. */
  datatype Tree = Nil | One(c: Cmd, rest: Tree) | Block(sel: Sel, body: Tree, rest: Tree)

  predicate ProperTree(t: Tree) {
    match t
    case Nil => true
    case One(c, rest) => !c.Begin? && !c.End? && ProperTree(rest)
    case Block(_, body, rest) => ProperTree(body) && ProperTree(rest)
  }

  function Size(t: Tree): nat {
    match t
    case Nil => 0
    case One(_, rest) => 1 + Size(rest)
    case Block(_, body, rest) => Size(body) + 2 + Size(rest)
  }

  /** The script as it is read. */
  function Tokens(t: Tree): (cs: seq<Cmd>)
    ensures |cs| == Size(t)
  {
    match t
    case Nil => []
    case One(c, rest) => [c] + Tokens(rest)
    case Block(sel, body, rest) => [Begin(sel)] + Tokens(body) + [End(false)] + Tokens(rest)
  }

  /** What remains to be run: the rest of the innermost block and where its text begins, then what remains
      of the blocks around it. */
  datatype Cont = Done | Rest(t: Tree, at: nat, below: Cont)

  /** The number of the command at place k of the text. */
  function Number(text: seq<Cmd>, k: nat): nat {
    |Nodes(if k <= |text| then text[..k] else text)|
  }

  /** Pass over labels and leave finished blocks: the next thing to run is a command or a block, or nothing
      remains. */
  function Settle(k: Cont): (r: Cont)
    ensures r.Rest? ==> !r.t.Nil? && (r.t.One? ==> !r.t.c.Label?)
  {
    if k.Done? then Done else SettleAt(k.t, k.at, k.below)
  }

  function SettleAt(t: Tree, at: nat, below: Cont): (r: Cont)
    ensures r.Rest? ==> !r.t.Nil? && (r.t.One? ==> !r.t.c.Label?)
    decreases below, t
  {
    if t.One? && t.c.Label? then SettleAt(t.rest, at + 1, below)
    else if !t.Nil? then Rest(t, at, below)
    else if below.Done? then Done
    else SettleAt(below.t, below.at, below.below)
  }

  /** What remains when the block k.t.body is entered, or passed over. */
  function Behind(k: Cont): Cont
    requires k.Rest? && k.t.Block?
  {
    Rest(k.t.rest, k.at + Size(k.t.body) + 2, k.below)
  }

  function Inside(k: Cont): Cont
    requires k.Rest? && k.t.Block?
  {
    Rest(k.t.body, k.at + 1, Behind(k))
  }

  /** What remains behind a command. */
  function Next(k: Cont): Cont
    requires k.Rest? && k.t.One?
  {
    Rest(k.t.rest, k.at + 1, k.below)
  }

  /** Where a label is: what remains to be run from there. */
  function Find(k: Cont, name: Name): Option<Cont>
    requires k.Rest?
    decreases k.t
  {
    match k.t
    case Nil => None
    case One(c, _) => if c.Label? && c.name == name then Some(Next(k)) else Find(Next(k), name)
    case Block(_, _, _) =>
      var inside := Find(Inside(k), name);
      if inside.Some? then inside else Find(Behind(k), name)
  }

  datatype NestedFlow<S> = Going(k: Cont, st: State<S>) | Stopped(why: Why, k: Cont, st: State<S>)

  /** A branch: on to the label, or to the end of the script without one. */
  function Branch<S>(whole: Tree, target: Option<Name>, k: Cont, st: State<S>): NestedFlow<S> {
    if target.None? then Stopped(ScriptEnd, k, st)
    else
      match Find(Rest(whole, 0, Done), target.value)
      case Some(to) => Going(to, st)
      case None => Stopped(ScriptEnd, k, st)
  }

  /** The command c with number i, selected; k is what remains from it on, next what remains behind it. */
  function NestedDo<S>(whole: Tree, m: Machine<S>, c: Cmd, i: nat, k: Cont, next: Cont, st: State<S>): NestedFlow<S> {
    match c
    case Jump(_, cond, target) =>
      if !cond then Branch(whole, target, k, st)
      else
        var (flag, core) := m.test(st.core);
        if flag then Branch(whole, target, k, st.(core := core)) else Going(next, st.(core := core))
    case Restart(_) =>
      var (more, core) := m.drop(st.core);
      if more then Going(Rest(whole, 0, Done), st.(core := core)) else Stopped(Cycle(EndCycle), next, st.(core := core))
    case Act(_, op) =>
      var (core, after) := m.act(st.core, op, i in st.inar);
      if after.Continue? then Going(next, st.(core := core)) else Stopped(Cycle(after), next, st.(core := core))
    case _ => Stopped(ScriptEnd, k, st)
  }

  /** Run the command or block that comes first: a block is entered if selected and passed over otherwise. */
  function NestedAt<S>(whole: Tree, m: Machine<S>, k: Cont, st: State<S>): NestedFlow<S>
    requires k.Rest?
  {
    var i := Number(Tokens(whole), k.at);
    match k.t
    case Nil => Stopped(ScriptEnd, k, st)
    case Block(sel, _, _) =>
      var (yes, st1) := Select(m, sel, i, st);
      Going(if yes then Inside(k) else Behind(k), st1)
    case One(c, _) =>
      var (yes, st1) := Select(m, SelOf(c), i, st);
      if yes then NestedDo(whole, m, c, i, k, Next(k), st1) else Going(Next(k), st1)
  }

  function NestedStep<S>(whole: Tree, m: Machine<S>, k0: Cont, st: State<S>): NestedFlow<S> {
    var k := Settle(k0);
    if k.Done? then Stopped(ScriptEnd, k, st) else NestedAt(whole, m, k, st)
  }

  // ---------------------------------------------------------------- where the rest of a script lies in its text

  /** The tree t is written at place at of the text. */
  ghost predicate Written(text: seq<Cmd>, t: Tree, at: nat)
    decreases t
  {
    match t
    case Nil => at <= |text|
    case One(c, rest) => at < |text| && text[at] == c && !c.Begin? && !c.End? && Written(text, rest, at + 1)
    case Block(sel, body, rest) =>
      && at < |text| && text[at] == Begin(sel) && Written(text, body, at + 1)
      && var e := at + 1 + Size(body);
         e < |text| && text[e] == End(false) && Written(text, rest, e + 1)
  }

  /** The rests lie one after the other in the text, each block's rest before its "}". */
  ghost predicate Lies(text: seq<Cmd>, k: Cont)
    decreases k
  {
    k.Done? || (Written(text, k.t, k.at) && Follows(text, k.at + Size(k.t), k.below) && Lies(text, k.below))
  }

  ghost predicate Follows(text: seq<Cmd>, end: nat, below: Cont) {
    if below.Done? then end == |text| else end < |text| && text[end] == End(false) && below.at == end + 1
  }

  ghost function Place(text: seq<Cmd>, k: Cont): nat {
    if k.Done? then |text| else k.at
  }

  lemma NumberStep(text: seq<Cmd>, i: nat)
    requires i < |text|
    ensures Number(text, i + 1) == Number(text, i) + if IsNode(text[i]) then 1 else 0
    ensures IsNode(text[i]) ==> Number(text, i) < |Nodes(text)| && Nodes(text)[Number(text, i)] == text[i]
  {
    assert text[..i + 1] == text[..i] + [text[i]];
    NodesSnoc(text[..i], text[i]);
    NodesPrefix(text, i + 1);
  }

  lemma {:induction false} NodesPrefix(text: seq<Cmd>, i: nat)
    requires i <= |text|
    ensures Nodes(text[..i]) <= Nodes(text)
    decreases |text|
  {
    if i < |text| {
      var n := |text| - 1;
      assert text[..n][..i] == text[..i];
      NodesPrefix(text[..n], i);
    } else {
      assert text[..i] == text;
    }
  }

  lemma SettlePlace(text: seq<Cmd>, k: Cont)
    requires Lies(text, k)
    ensures Lies(text, Settle(k)) && Place(text, Settle(k)) <= |text|
    ensures Number(text, Place(text, Settle(k))) == Number(text, Place(text, k))
  {
    if k.Rest? {
      SettleAtPlace(text, k);
    }
  }

  lemma {:induction false} SettleAtPlace(text: seq<Cmd>, k: Cont)
    requires k.Rest? && Lies(text, k)
    ensures var r := SettleAt(k.t, k.at, k.below);
      Lies(text, r) && Place(text, r) <= |text| && Number(text, Place(text, r)) == Number(text, k.at)
    decreases k.below, k.t
  {
    if k.t.One? && k.t.c.Label? {
      LiesTail(text, k);
      NumberStep(text, k.at);
      SettleAtPlace(text, Next(k));
    } else if k.t.Nil? && k.below.Rest? {
      NumberStep(text, k.at);
      SettleAtPlace(text, k.below);
    }
  }

  /** Behind the first command the rest lies. */
  lemma LiesTail(text: seq<Cmd>, k: Cont)
    requires k.Rest? && Lies(text, k) && k.t.One?
    ensures k.at < |text| && text[k.at] == k.t.c && Lies(text, Next(k))
  {
  }

  /** A block: its body lies behind "{", the rest behind "}". */
  lemma LiesBlock(text: seq<Cmd>, k: Cont)
    requires k.Rest? && Lies(text, k) && k.t.Block?
    ensures Lies(text, Behind(k)) && Lies(text, Inside(k))
    ensures Behind(k).at <= |text| && text[k.at] == Begin(k.t.sel) && text[Behind(k).at - 1] == End(false)
  {
  }

  /** Where a tree is written its text is found. */
  lemma {:induction false} WrittenSlice(text: seq<Cmd>, t: Tree, at: nat)
    requires Written(text, t, at)
    ensures ProperTree(t) && at + |Tokens(t)| <= |text| && text[at..at + |Tokens(t)|] == Tokens(t)
    decreases t
  {
    if t.One? {
      WrittenSlice(text, t.rest, at + 1);
      Joined(text, at, [t.c], Tokens(t.rest));
    } else if t.Block? {
      WrittenSlice(text, t.body, at + 1);
      WrittenSlice(text, t.rest, at + Size(t.body) + 2);
      BlockJoined(text, at, Begin(t.sel), Tokens(t.body), End(false), Tokens(t.rest));
    }
  }

  lemma Joined(text: seq<Cmd>, at: nat, a: seq<Cmd>, b: seq<Cmd>)
    requires at + |a| + |b| <= |text| && text[at..at + |a|] == a && text[at + |a|..at + |a| + |b|] == b
    ensures text[at..at + |a| + |b|] == a + b
  {
  }

  lemma BlockJoined(text: seq<Cmd>, at: nat, x: Cmd, body: seq<Cmd>, y: Cmd, rest: seq<Cmd>)
    requires var e := at + 1 + |body|;
      && e + 1 + |rest| <= |text| && text[at] == x && text[at + 1..e] == body
      && text[e] == y && text[e + 1..e + 1 + |rest|] == rest
    ensures text[at..at + 2 + |body| + |rest|] == [x] + body + [y] + rest
  {
    Joined(text, at, [x], body);
    Joined(text, at, [x] + body, [y]);
    Joined(text, at, [x] + body + [y], rest);
  }

  /** A tree is written in its own text, whatever surrounds it. */
  lemma {:induction false} TokensWritten(pre: seq<Cmd>, t: Tree, post: seq<Cmd>)
    requires ProperTree(t)
    ensures Written(pre + Tokens(t) + post, t, |pre|)
    decreases t
  {
    if t.One? {
      OneSurrounded(pre, t.c, Tokens(t.rest), post);
      TokensWritten(pre + [t.c], t.rest, post);
    } else if t.Block? {
      var b, e := Begin(t.sel), End(false);
      BlockSurrounded(pre, b, Tokens(t.body), e, Tokens(t.rest), post);
      TokensWritten(pre + [b], t.body, [e] + Tokens(t.rest) + post);
      TokensWritten(pre + [b] + Tokens(t.body) + [e], t.rest, post);
    }
  }

  lemma OneSurrounded(pre: seq<Cmd>, c: Cmd, rest: seq<Cmd>, post: seq<Cmd>)
    ensures pre + ([c] + rest) + post == (pre + [c]) + rest + post && (pre + ([c] + rest) + post)[|pre|] == c
  {
  }

  lemma BlockSurrounded(pre: seq<Cmd>, b: Cmd, body: seq<Cmd>, e: Cmd, rest: seq<Cmd>, post: seq<Cmd>)
    ensures var text := pre + ([b] + body + [e] + rest) + post;
      && text == (pre + [b]) + body + ([e] + rest + post)
      && text == (pre + [b] + body + [e]) + rest + post
      && text[|pre|] == b && text[|pre| + 1 + |body|] == e
  {
    assert pre + ([b] + body + [e] + rest) == (pre + [b] + body + [e]) + rest;
  }

  // ---------------------------------------------------------------- where the links lead

  /** A whole block leaves the open blocks as they were. */
  lemma {:induction false} BalancedTree(h: seq<Cmd>, t: Tree)
    requires ProperTree(t)
    ensures OpenBlocks(h + Tokens(t)) == OpenBlocks(h)
    decreases t
  {
    match t
    case Nil => assert h + Tokens(t) == h;
    case One(c, rest) =>
      assert h + Tokens(t) == (h + [c]) + Tokens(rest);
      OpenBlocksSnoc(h, c);
      BalancedTree(h + [c], rest);
    case Block(sel, body, rest) =>
      var h1 := h + [Begin(sel)];
      var h2 := h1 + Tokens(body);
      assert h + Tokens(t) == (h2 + [End(false)]) + Tokens(rest);
      OpenBlocksSnoc(h, Begin(sel));
      BalancedTree(h1, body);
      OpenBlocksSnoc(h2, End(false));
      assert OpenBlocks(h2 + [End(false)]) == OpenBlocks(h);
      BalancedTree(h2 + [End(false)], rest);
  }

  /** A block, once closed, keeps its end. */
  lemma {:induction false} ClosedStays(h: seq<Cmd>, cs: seq<Cmd>, i: nat)
    requires i < |Nodes(h)| && i !in OpenBlocks(h)
    ensures i < |Nodes(h + cs)| && i !in OpenBlocks(h + cs) && BlockEnd(h + cs, i) == BlockEnd(h, i)
    decreases |cs|
  {
    if cs == [] {
      assert h + cs == h;
    } else {
      var pre, c := cs[..|cs| - 1], cs[|cs| - 1];
      assert h + cs == (h + pre) + [c];
      ClosedStays(h, pre, i);
      NodesSnoc(h + pre, c);
      OpenBlocksSnoc(h + pre, c);
      BlockEndSnoc(h + pre, c, i);
      if OpenBlocks(h + pre) != [] {
        assert OpenBlocks(h + pre)[|OpenBlocks(h + pre)| - 1] in OpenBlocks(h + pre);
      }
    }
  }

  lemma BlockCloses(h: seq<Cmd>, b: Cmd, body: Tree, e: Cmd, rest: seq<Cmd>)
    requires b.Begin? && e.End? && ProperTree(body)
    ensures BlockEnd(((h + [b] + Tokens(body)) + [e]) + rest, |Nodes(h)|) == |Nodes(h + [b] + Tokens(body))|
  {
    var i, h1 := |Nodes(h)|, h + [b];
    var h2 := h1 + Tokens(body);
    OpenBlocksSnoc(h, b);
    NodesSnoc(h, b);
    BalancedTree(h1, body);
    BlockEndSnoc(h2, e, i);
    OpenBlocksSnoc(h2, e);
    assert OpenBlocks(h2 + [e]) == OpenBlocks(h);
    OpenBlocksOrdered(h);
    NodesPrefix(h2 + [e], |h1|);
    assert (h2 + [e])[..|h1|] == h1;
    ClosedStays(h2 + [e], rest, i);
  }

  /** The branch that stands for "{" leads to the command behind the matching "}". */
  lemma BlockLink(text: seq<Cmd>, at: nat, body: Tree, e: nat)
    requires ProperTree(body) && at < e < |text|
    requires text[at].Begin? && text[e].End? && text[at + 1..e] == Tokens(body)
    ensures BlockEnd(text, Number(text, at)) == Number(text, e)
  {
    Around(text, at, e);
    BlockCloses(text[..at], text[at], body, text[e], text[e + 1..]);
  }

  lemma Around(text: seq<Cmd>, at: nat, e: nat)
    requires at < e < |text|
    ensures text[..e] == text[..at] + [text[at]] + text[at + 1..e]
    ensures text == (text[..at] + [text[at]] + text[at + 1..e] + [text[e]]) + text[e + 1..]
  {
    assert text[..e] == text[..at] + [text[at]] + text[at + 1..e];
    assert text == (text[..e] + [text[e]]) + text[e + 1..];
  }

  /** In a script read without error every label is read once, and stands for the command behind it. */
  lemma {:induction false} LabelStands(h: seq<Cmd>, cs: seq<Cmd>, name: Name)
    requires FirstError(h, cs).None? && LabelNode(h, name) != NULL
    ensures LabelNode(h + cs, name) == LabelNode(h, name)
    decreases |cs|
  {
    if cs == [] {
      assert h + cs == h;
    } else {
      LabelNodeSnoc(h, cs[0], name);
      assert h + cs == (h + [cs[0]]) + cs[1..];
      LabelStands(h + [cs[0]], cs[1..], name);
    }
  }

  lemma {:induction false} ErrorFreeSuffix(h: seq<Cmd>, cs: seq<Cmd>, i: nat)
    requires FirstError(h, cs).None? && i <= |cs|
    ensures FirstError(h + cs[..i], cs[i..]).None?
    decreases i
  {
    if i == 0 {
      assert h + cs[..0] == h && cs[0..] == cs;
    } else {
      ErrorFreeSuffix(h + [cs[0]], cs[1..], i - 1);
      assert h + cs[..i] == (h + [cs[0]]) + cs[1..][..i - 1] && cs[i..] == cs[1..][i - 1..];
    }
  }

  lemma LabelLink(text: seq<Cmd>, at: nat)
    requires FirstError([], text).None? && at < |text| && text[at].Label?
    ensures LabelNode(text, text[at].name) == Number(text, at + 1)
  {
    NumberStep(text, at);
    LabelNodeSnoc(text[..at], text[at], text[at].name);
    ErrorFreeSuffix([], text, at + 1);
    SplitAt(text, at);
    LabelStands(text[..at] + [text[at]], text[at + 1..], text[at].name);
  }

  lemma SplitAt(text: seq<Cmd>, at: nat)
    requires at < |text|
    ensures [] + text[..at + 1] == text[..at + 1] == text[..at] + [text[at]]
    ensures (text[..at] + [text[at]]) + text[at + 1..] == text
  {
  }

  /** k is what remains from behind a label of that name. */
  ghost predicate BehindLabel(text: seq<Cmd>, k: Cont, name: Name) {
    k.Rest? && Lies(text, k) && 0 < k.at <= |text| && text[k.at - 1].Label? && text[k.at - 1].name == name
  }

  /** Looking for a label finds the place behind it, with what surrounds it. */
  lemma {:induction false} FindLies(text: seq<Cmd>, k: Cont, name: Name)
    requires k.Rest? && Lies(text, k)
    ensures Find(k, name).Some? ==> BehindLabel(text, Find(k, name).value, name)
    decreases k.t
  {
    if k.t.One? {
      LiesTail(text, k);
      if !(k.t.c.Label? && k.t.c.name == name) {
        FindLies(text, Next(k), name);
      }
    } else if k.t.Block? {
      LiesBlock(text, k);
      FindLies(text, Inside(k), name);
      FindLies(text, Behind(k), name);
    }
  }

  lemma {:induction false} FindComplete(k: Cont, name: Name, c: Cmd)
    requires k.Rest? && c in Tokens(k.t) && c.Label? && c.name == name
    ensures Find(k, name).Some?
    decreases k.t
  {
    if k.t.One? {
      if !(k.t.c.Label? && k.t.c.name == name) {
        FindComplete(Next(k), name, c);
      }
    } else if c in Tokens(k.t.body) {
      FindComplete(Inside(k), name, c);
    } else {
      assert c in Tokens(k.t.rest);
      FindComplete(Behind(k), name, c);
    }
  }

  lemma {:induction false} LabelIsRead(h: seq<Cmd>, name: Name) returns (c: Cmd)
    requires LabelNode(h, name) != NULL
    ensures c in h && c.Label? && c.name == name
  {
    c := h[|h| - 1];
    if !(c.Label? && c.name == name) {
      c := LabelIsRead(h[..|h| - 1], name);
    }
  }

  // ---------------------------------------------------------------- both run alike

  /** reps is what the compiler makes of the script and accepts: no error, every label defined. At most
      one branch has no label (see BareBranches). */
  ghost predicate CompiledFrom(reps: seq<Rep>, whole: Tree) {
    var text := Tokens(whole);
    && ProperTree(whole) && FirstError([], text).None? && IsFlat(reps, text)
    && LabelsDefined(text) && |Users(text, None)| <= 1
  }

  /** The flat list stands at the command that the nested script runs next. */
  ghost predicate Same(text: seq<Cmd>, k: Cont, pc: nat) {
    Lies(text, k) && Place(text, k) <= |text| && pc == Number(text, Place(text, k))
  }

  ghost predicate SameFlow<S>(text: seq<Cmd>, nf: NestedFlow<S>, ff: FlatFlow<S>) {
    && nf.st == ff.st
    && (match nf
        case Going(k, _) => ff.Running? && Same(text, k, ff.pc)
        case Stopped(why, k, _) => ff.Halted? && ff.why == why && (why.Cycle? ==> Same(text, k, ff.pc)))
  }

  /** A branch of the flat list goes where the branch of the script goes. */
  lemma BranchSame<S>(reps: seq<Rep>, whole: Tree, at: nat, k: Cont, st: State<S>)
    requires CompiledFrom(reps, whole) && at < |Tokens(whole)| && Tokens(whole)[at].Jump?
    ensures var text := Tokens(whole);
      && Number(text, at) < |reps|
      && SameFlow(text, Branch(whole, text[at].target, k, st), Follow(reps, Number(text, at), st))
  {
    var text := Tokens(whole);
    var i, target := Number(text, at), text[at].target;
    NumberStep(text, at);
    assert reps[i] == FlatRep(text, i);
    if target.None? {
      BareLink(text, i);
    } else {
      NamedLink(whole, at, target.value);
    }
  }

  /** The only branch without a label has no link. */
  lemma BareLink(text: seq<Cmd>, i: nat)
    requires i < |Nodes(text)| && Nodes(text)[i].Jump? && Nodes(text)[i].target.None? && |Users(text, None)| <= 1
    ensures Link(text, i) == NULL
  {
    JumpIsUser(text, i);
    assert Users(text, None)[0] == i;
  }

  /** The place behind a label, found in the script, is where its node is. */
  lemma NamedLink(whole: Tree, at: nat, name: Name)
    requires ProperTree(whole) && FirstError([], Tokens(whole)).None? && LabelsDefined(Tokens(whole))
    requires at < |Tokens(whole)| && Tokens(whole)[at].Jump? && Tokens(whole)[at].target == Some(name)
    ensures var text, to := Tokens(whole), Find(Rest(whole, 0, Done), name);
      to.Some? && LabelNode(text, name) != NULL && Same(text, to.value, LabelNode(text, name))
  {
    var text, start := Tokens(whole), Rest(whole, 0, Done);
    TargetNamed(text, at);
    var c := LabelIsRead(text, name);
    FindComplete(start, name, c);
    WholeLies(whole);
    FindLies(text, start, name);
    LabelLink(text, Find(start, name).value.at - 1);
  }

  lemma WholeLies(whole: Tree)
    requires ProperTree(whole)
    ensures Lies(Tokens(whole), Rest(whole, 0, Done))
  {
    TokensWritten([], whole, []);
    assert [] + Tokens(whole) + [] == Tokens(whole);
  }

  lemma {:induction false} TargetNamed(h: seq<Cmd>, at: nat)
    requires at < |h| && h[at].Jump? && h[at].target.Some?
    ensures h[at].target.value in Names(h)
  {
    if at < |h| - 1 {
      TargetNamed(h[..|h| - 1], at);
    }
  }

  /** A selected command does the same in both. */
  lemma DoSame<S>(reps: seq<Rep>, whole: Tree, m: Machine<S>, at: nat, k: Cont, next: Cont, st: State<S>)
    requires CompiledFrom(reps, whole) && at < |Tokens(whole)|
    requires var c := Tokens(whole)[at]; c.Jump? || c.Restart? || c.Act?
    requires Same(Tokens(whole), next, Number(Tokens(whole), at) + 1)
    ensures Number(Tokens(whole), at) < |reps|
    ensures SameFlow(Tokens(whole), NestedDo(whole, m, Tokens(whole)[at], Number(Tokens(whole), at), k, next, st),
                     FlatDo(reps, m, Number(Tokens(whole), at), st))
  {
    var text := Tokens(whole);
    var i, c := Number(text, at), text[at];
    NumberStep(text, at);
    assert reps[i] == FlatRep(text, i);
    if c.Jump? {
      BranchSame(reps, whole, at, k, st);
      BranchSame(reps, whole, at, k, st.(core := m.test(st.core).1));
    } else if c.Restart? {
      WholeLies(whole);
      assert Same(text, Rest(whole, 0, Done), 0);
    }
  }

  /** One step of a command that is not a block. */
  lemma CommandSame<S>(reps: seq<Rep>, whole: Tree, m: Machine<S>, k: Cont, st: State<S>)
    requires CompiledFrom(reps, whole) && k.Rest? && Lies(Tokens(whole), k)
    requires k.t.One? && !k.t.c.Label?
    ensures SameFlow(Tokens(whole), NestedAt(whole, m, k, st), FlatStep(reps, m, Number(Tokens(whole), k.at), st))
  {
    var text := Tokens(whole);
    var i := Number(text, k.at);
    LiesTail(text, k);
    NumberStep(text, k.at);
    assert reps[i] == FlatRep(text, i);
    assert Same(text, Next(k), i + 1);
    DoSame(reps, whole, m, k.at, k, Next(k), Select(m, SelOf(k.t.c), i, st).1);
  }

  /** Where a block begins, its node is a branch with the opposite condition to the end of the block. */
  lemma BlockNode(reps: seq<Rep>, text: seq<Cmd>, k: Cont)
    requires IsFlat(reps, text) && k.Rest? && Lies(text, k) && k.t.Block?
    ensures var i := Number(text, k.at);
      && i < |reps| && reps[i].kind == KBranch && reps[i].sel == k.t.sel.(neg := !k.t.sel.neg)
      && 0 <= reps[i].lb1 < |reps| && Same(text, Behind(k), reps[i].lb1) && Same(text, Inside(k), i + 1)
  {
    BlockNumbers(text, k);
    NumberBound(text, Behind(k).at - 1);
    assert reps[Number(text, k.at)] == FlatRep(text, Number(text, k.at));
  }

  lemma BlockNumbers(text: seq<Cmd>, k: Cont)
    requires k.Rest? && Lies(text, k) && k.t.Block?
    ensures var i, e := Number(text, k.at), Behind(k).at - 1;
      && e < |text| && i < |Nodes(text)| && Nodes(text)[i] == Begin(k.t.sel) && BlockEnd(text, i) == Number(text, e)
      && Same(text, Behind(k), Number(text, e)) && Same(text, Inside(k), i + 1)
  {
    var e := Behind(k).at - 1;
    LiesBlock(text, k);
    NumberStep(text, k.at);
    NumberStep(text, e);
    LinkOfBlock(text, k.at, k.t, e);
  }

  lemma LinkOfBlock(text: seq<Cmd>, at: nat, t: Tree, e: nat)
    requires Written(text, t, at) && t.Block? && e == at + 1 + Size(t.body)
    ensures BlockEnd(text, Number(text, at)) == Number(text, e)
  {
    WrittenSlice(text, t.body, at + 1);
    BlockLink(text, at, t.body, e);
  }

  lemma FlatBranch<S>(reps: seq<Rep>, m: Machine<S>, pc: nat, st: State<S>, yes: bool, st1: State<S>)
    requires pc < |reps| && reps[pc].kind == KBranch && 0 <= reps[pc].lb1 < |reps|
    requires Select(m, reps[pc].sel, pc, st) == (yes, st1)
    ensures FlatStep(reps, m, pc, st) == Running(if yes then reps[pc].lb1 else pc + 1, st1)
  {
  }

  /** One step at a block. */
  lemma BlockSame<S>(reps: seq<Rep>, whole: Tree, m: Machine<S>, k: Cont, st: State<S>)
    requires CompiledFrom(reps, whole) && k.Rest? && Lies(Tokens(whole), k) && k.t.Block?
    ensures SameFlow(Tokens(whole), NestedAt(whole, m, k, st), FlatStep(reps, m, Number(Tokens(whole), k.at), st))
  {
    var i := Number(Tokens(whole), k.at);
    var (yes, st1) := Select(m, k.t.sel, i, st);
    BlockNode(reps, Tokens(whole), k);
    SelectInverted(m, k.t.sel, i, st);
    FlatBranch(reps, m, i, st, !yes, st1);
  }

  lemma NumberBound(text: seq<Cmd>, i: nat)
    requires i <= |text|
    ensures Number(text, i) <= |Nodes(text)|
  {
    NodesPrefix(text, i);
  }

  /** Every step of the flat list is a step of the nested script. */
  lemma StepSame<S>(reps: seq<Rep>, whole: Tree, m: Machine<S>, k: Cont, pc: nat, st: State<S>)
    requires CompiledFrom(reps, whole) && Same(Tokens(whole), k, pc)
    ensures SameFlow(Tokens(whole), NestedStep(whole, m, k, st), FlatStep(reps, m, pc, st))
  {
    var text, s := Tokens(whole), Settle(k);
    SettlePlace(text, k);
    if s.Done? {
      assert text[..|text|] == text;
    } else if s.t.One? {
      CommandSame(reps, whole, m, s, st);
    } else {
      BlockSame(reps, whole, m, s, st);
    }
  }

  function FlatRun<S>(reps: seq<Rep>, m: Machine<S>, n: nat, ff: FlatFlow<S>): FlatFlow<S> {
    if n == 0 || ff.Halted? then ff else FlatRun(reps, m, n - 1, FlatStep(reps, m, ff.pc, ff.st))
  }

  function NestedRun<S>(whole: Tree, m: Machine<S>, n: nat, nf: NestedFlow<S>): NestedFlow<S> {
    if n == 0 || nf.Stopped? then nf else NestedRun(whole, m, n - 1, NestedStep(whole, m, nf.k, nf.st))
  }

  /** Every step of reps is one of the nested script. */
  ghost predicate Simulates<S(!new)>(reps: seq<Rep>, whole: Tree, m: Machine<S>) {
    forall k, pc, st :: Same(Tokens(whole), k, pc) ==>
      SameFlow(Tokens(whole), NestedStep(whole, m, k, st), FlatStep(reps, m, pc, st))
  }

  lemma CompiledSimulates<S(!new)>(reps: seq<Rep>, whole: Tree, m: Machine<S>)
    requires CompiledFrom(reps, whole)
    ensures Simulates(reps, whole, m)
  {
    forall k, pc, st | Same(Tokens(whole), k, pc)
      ensures SameFlow(Tokens(whole), NestedStep(whole, m, k, st), FlatStep(reps, m, pc, st))
    {
      StepSame(reps, whole, m, k, pc, st);
    }
  }

  lemma {:induction false} SimulatedRun<S(!new)>(reps: seq<Rep>, whole: Tree, m: Machine<S>, n: nat, nf: NestedFlow<S>,
                                                 ff: FlatFlow<S>)
    requires Simulates(reps, whole, m) && SameFlow(Tokens(whole), nf, ff)
    ensures SameFlow(Tokens(whole), NestedRun(whole, m, n, nf), FlatRun(reps, m, n, ff))
    decreases n
  {
    if n > 0 && nf.Going? {
      SimulatedRun(reps, whole, m, n - 1, NestedStep(whole, m, nf.k, nf.st), FlatStep(reps, m, ff.pc, ff.st));
    }
  }

  /** Runs of any length, from the start of the script or from where it was suspended, go through the same
      commands on the same machine states. */
  lemma RunSame<S(!new)>(reps: seq<Rep>, whole: Tree, m: Machine<S>, n: nat, nf: NestedFlow<S>, ff: FlatFlow<S>)
    requires CompiledFrom(reps, whole) && SameFlow(Tokens(whole), nf, ff)
    ensures SameFlow(Tokens(whole), NestedRun(whole, m, n, nf), FlatRun(reps, m, n, ff))
  {
    CompiledSimulates(reps, whole, m);
    SimulatedRun(reps, whole, m, n, nf, ff);
  }

  /** A line is begun at the first node in both. */
  lemma StartSame<S>(reps: seq<Rep>, whole: Tree, st: State<S>)
    requires CompiledFrom(reps, whole)
    ensures SameFlow(Tokens(whole), Going(Rest(whole, 0, Done), st), Running(0, st))
  {
    WholeLies(whole);
  }

  lemma Closed(whole: Tree)
    requires ProperTree(whole)
    ensures OpenBlocks(Tokens(whole)) == [] && [] + Tokens(whole) == Tokens(whole)
  {
    assert [] + Tokens(whole) == Tokens(whole);
    BalancedTree([], whole);
  }

  /** Compile a script and check it: if both succeed, the flat list runs as the script does. */
  method CompileScript(whole: Tree) returns (cmds: Commands, ok: bool)
    requires ProperTree(whole) && Readable([], Tokens(whole))
    ensures ok <==> FirstError([], Tokens(whole)).None? && LabelsDefined(Tokens(whole))
    ensures ok && |Users(Tokens(whole), None)| <= 1 ==> CompiledFrom(cmds.reps, whole)
  {
    var text := Tokens(whole);
    cmds := new Commands();
    var err := cmds.Compile(text);
    if err.Some? {
      return cmds, false;
    }
    Closed(whole);
    assert cmds.h == text;
    ok := cmds.CheckFinalized();
  }

  // ---------------------------------------------------------------- branches without a label

  /** A branch without a label leads to the next such branch of the script, not to its end: it ends the
      script exactly when it is the last one. */
  lemma BareBranches(reps: seq<Rep>, text: seq<Cmd>, k: nat)
    requires IsFlat(reps, text) && k < |Users(text, None)|
    ensures Users(text, None)[k] < |Nodes(text)|
    ensures reps[Users(text, None)[k]].lb1 == (if k + 1 < |Users(text, None)| then Users(text, None)[k + 1] else NULL)
  {
    var us := Users(text, None);
    UsersOrdered(text, None);
    AfterAt(us, k);
    assert reps[us[k]] == FlatRep(text, us[k]);
  }

  /** "b" twice: the script has no error, its first branch ends it where blocks are nested as written, and in
      the flat list leads to the second one. */
  lemma TwoBareBranches<S>(reps: seq<Rep>, k: Cont, st: State<S>)
    requires IsFlat(reps, [Jump(NO_SEL, false, None), Jump(NO_SEL, false, None)])
    ensures var b := Jump(NO_SEL, false, None);
      var whole := One(b, One(b, Nil));
      && Tokens(whole) == [b, b] && FirstError([], [b, b]).None? && LabelsDefined([b, b])
      && Branch(whole, b.target, k, st) == Stopped(ScriptEnd, k, st)
      && |reps| == 3 && Follow(reps, 0, st) == Running(1, st)
  {
    var b := Jump(NO_SEL, false, None);
    TwiceRead(b);
    BareBranches(reps, [b, b], 0);
    assert Tokens(One(b, Nil)) == [b];
  }

  lemma TwiceRead(b: Cmd)
    requires b.Jump? && b.target.None?
    ensures |Nodes([b, b])| == 2 && Users([b, b], None) == [0, 1] && Names([b, b]) == []
    ensures FirstError([], [b, b]).None?
  {
    var one, two := [b], [b, b];
    assert [] + [b] == one && one + [b] == two && two[1..] == one && one[1..] == [];
    NodesSnoc([], b);
    NodesSnoc(one, b);
    UsersSnoc([], b, None);
    UsersSnoc(one, b, None);
    NamesSnoc([], b);
    NamesSnoc(one, b);
    assert FirstError(one, one) == FirstError(two, []) && FirstError([], two) == FirstError(one, one);
  }
}
