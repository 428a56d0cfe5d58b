/** Where each command of a compiled script leads, read off the text of the script. */
module ScriptSteps {
  import opened Bytes
  import opened Script
  import opened ScriptRun

  /** The command at place at of the script is node i. */
  ghost predicate NodeAt(reps: seq<Rep>, whole: Tree, at: nat, c: Cmd, i: nat) {
    && CompiledFrom(reps, whole) && at < |Tokens(whole)| && Tokens(whole)[at] == c && i == Number(Tokens(whole), at)
  }

  lemma NodeIs(reps: seq<Rep>, whole: Tree, at: nat, c: Cmd, i: nat)
    requires NodeAt(reps, whole, at, c, i) && IsNode(c)
    ensures i < |Nodes(Tokens(whole))| < |reps| && Nodes(Tokens(whole))[i] == c && reps[i] == FlatRep(Tokens(whole), i)
  {
    NumberStep(Tokens(whole), at);
  }

  /** A block is entered exactly if its addresses select it; otherwise the script goes on behind its "}". */
  lemma BlockLeads<S>(reps: seq<Rep>, whole: Tree, m: Machine<S>, at: nat, sel: Sel, body: Tree, e: nat, i: nat,
                      st: State<S>)
    requires NodeAt(reps, whole, at, Begin(sel), i) && ProperTree(body)
    requires at < e < |Tokens(whole)| && Tokens(whole)[e].End? && Tokens(whole)[at + 1..e] == Tokens(body)
    ensures var (yes, st1) := Select(m, sel, i, st);
      FlatStep(reps, m, i, st) == Running(if yes then i + 1 else Number(Tokens(whole), e), st1)
  {
    var text := Tokens(whole);
    NodeIs(reps, whole, at, Begin(sel), i);
    BlockLink(text, at, body, e);
    NumberBound(text, e);
    SelectInverted(m, sel, i, st);
  }

  /** A branch goes behind its label, t only if the test is met; then, or if it is not selected, the command
      behind it is next. */
  lemma JumpLeads<S>(reps: seq<Rep>, whole: Tree, m: Machine<S>, at: nat, sel: Sel, cond: bool, name: Name, p: nat,
                     i: nat, st: State<S>)
    requires NodeAt(reps, whole, at, Jump(sel, cond, Some(name)), i)
    requires p < |Tokens(whole)| && Tokens(whole)[p].Label? && Tokens(whole)[p].name == name
    ensures var (yes, st1) := Select(m, sel, i, st);
      var (flag, core) := m.test(st1.core);
      FlatStep(reps, m, i, st) ==
        if !yes then Running(i + 1, st1)
        else if !cond then Running(Number(Tokens(whole), p + 1), st1)
        else Running(if flag then Number(Tokens(whole), p + 1) else i + 1, st1.(core := core))
  {
    var text := Tokens(whole);
    NodeIs(reps, whole, at, Jump(sel, cond, Some(name)), i);
    LabelLink(text, p);
    NumberBound(text, p + 1);
  }

  /** A selected branch without a label ends the script, when there is only one. */
  lemma BareJumpLeads<S>(reps: seq<Rep>, whole: Tree, m: Machine<S>, at: nat, sel: Sel, i: nat, st: State<S>)
    requires NodeAt(reps, whole, at, Jump(sel, false, None), i)
    ensures var (yes, st1) := Select(m, sel, i, st);
      FlatStep(reps, m, i, st) == if yes then Halted(ScriptEnd, i, st1) else Running(i + 1, st1)
  {
    NodeIs(reps, whole, at, Jump(sel, false, None), i);
    BareLink(Tokens(whole), i);
  }

  /** D starts the script again if there is more than one line in the pattern space, and otherwise ends the
      cycle. */
  lemma RestartLeads<S>(reps: seq<Rep>, whole: Tree, m: Machine<S>, at: nat, sel: Sel, i: nat, st: State<S>)
    requires NodeAt(reps, whole, at, Restart(sel), i)
    ensures var (yes, st1) := Select(m, sel, i, st);
      var (more, core) := m.drop(st1.core);
      FlatStep(reps, m, i, st) ==
        if !yes then Running(i + 1, st1)
        else if more then Running(0, st1.(core := core))
        else Halted(Cycle(EndCycle), i + 1, st1.(core := core))
  {
    NodeIs(reps, whole, at, Restart(sel), i);
  }

  /** Any other command has its effect if selected, and the next one follows unless the effect ends the cycle. */
  lemma ActLeads<S>(reps: seq<Rep>, whole: Tree, m: Machine<S>, at: nat, sel: Sel, op: nat, i: nat, st: State<S>)
    requires NodeAt(reps, whole, at, Act(sel, op), i)
    ensures var (yes, st1) := Select(m, sel, i, st);
      var (core, after) := m.act(st1.core, op, i in st1.inar);
      FlatStep(reps, m, i, st) ==
        if !yes then Running(i + 1, st1)
        else if after.Continue? then Running(i + 1, st1.(core := core))
        else Halted(Cycle(after), i + 1, st1.(core := core))
  {
    NodeIs(reps, whole, at, Act(sel, op), i);
  }

  /** A run makes one step after the other: n more steps, then one. */
  lemma {:induction false} RunsAreSteps<S>(reps: seq<Rep>, m: Machine<S>, n: nat, ff: FlatFlow<S>)
    ensures FlatRun(reps, m, 0, ff) == ff
    ensures var f := FlatRun(reps, m, n, ff);
      FlatRun(reps, m, n + 1, ff) == if f.Halted? then f else FlatStep(reps, m, f.pc, f.st)
    decreases n
  {
    if n > 0 && ff.Running? {
      RunsAreSteps(reps, m, n - 1, FlatStep(reps, m, ff.pc, ff.st));
    }
  }

  lemma {:induction false} NestedRunsAreSteps<S>(whole: Tree, m: Machine<S>, n: nat, nf: NestedFlow<S>)
    ensures NestedRun(whole, m, 0, nf) == nf
    ensures var f := NestedRun(whole, m, n, nf);
      NestedRun(whole, m, n + 1, nf) == if f.Stopped? then f else NestedStep(whole, m, f.k, f.st)
    decreases n
  {
    if n > 0 && nf.Going? {
      NestedRunsAreSteps(whole, m, n - 1, NestedStep(whole, m, nf.k, nf.st));
    }
  }
}
