/** Conditional inclusion in the preprocessor: a few counters stand for the whole stack of open #if groups. */
module CppConditionals {

  /** The directives, with the value of their condition. #ifdef and #ifndef are If as well. */
  datatype Directive = If(cond: bool) | Elif(cond: bool) | Else | Endif

  /** An open #if. live: the text around it is not skipped. active: its current group is not skipped.
      taken: some group of it was active. inElse: #else has been seen. */
  datatype Frame = Frame(live: bool, active: bool, taken: bool, inElse: bool)

  // ---------------------------------------------------------------- what the standard asks for

  /** Text is processed when every open #if is in an active group. */
  predicate Processing(stack: seq<Frame>) {
    forall i :: 0 <= i < |stack| ==> stack[i].active
  }

  /** A further group is active if the #if is live, its condition holds and no group before it was active. */
  function NextGroup(f: Frame, cond: bool): Frame {
    var on := f.live && !f.taken && cond;
    f.(active := on, taken := f.taken || on)
  }

  /** Section 6.10.1 of ISO/IEC 9899:1999, with a stack. */
  function Meaning(stack: seq<Frame>, d: Directive): seq<Frame> {
    match d
    case If(cond) =>
      var live := Processing(stack);
      stack + [Frame(live, live && cond, live && cond, false)]
    case Elif(cond) =>
      if stack == [] then [] else stack[..|stack| - 1] + [NextGroup(stack[|stack| - 1], cond)]
    case Else =>
      if stack == [] then []
      else stack[..|stack| - 1] + [NextGroup(stack[|stack| - 1], true).(inElse := true)]
    case Endif => if stack == [] then [] else stack[..|stack| - 1]
  }

  /** Must the condition be evaluated? Only where a true one would make the group active. */
  predicate Needed(stack: seq<Frame>, d: Directive) {
    match d
    case If(_) => Processing(stack)
    case Elif(_) => stack != [] && stack[|stack| - 1].live && !stack[|stack| - 1].taken
    case _ => false
  }

  /** #elif and #else do not come after #else. */
  predicate Legal(stack: seq<Frame>, d: Directive) {
    (d.Elif? || d.Else?) && stack != [] ==> !stack[|stack| - 1].inElse
  }

  predicate LegalRun(stack: seq<Frame>, ds: seq<Directive>)
    decreases |ds|
  {
    ds == [] || (Legal(stack, ds[0]) && LegalRun(Meaning(stack, ds[0]), ds[1..]))
  }

  function MeaningOfRun(stack: seq<Frame>, ds: seq<Directive>): seq<Frame>
    decreases |ds|
  {
    if ds == [] then stack else MeaningOfRun(Meaning(stack, ds[0]), ds[1..])
  }

  /** #if and #elif with these conditions. */
  function Chain(conds: seq<bool>): seq<Directive> {
    seq(|conds|, i requires 0 <= i < |conds| => if i == 0 then If(conds[0]) else Elif(conds[i]))
  }

  /** The first condition that holds is the last one. */
  predicate FirstHolds(conds: seq<bool>) {
    conds != [] && conds[|conds| - 1] && forall i :: 0 <= i < |conds| - 1 ==> !conds[i]
  }

  lemma {:induction false} RunSnoc(stack: seq<Frame>, ds: seq<Directive>, d: Directive)
    ensures MeaningOfRun(stack, ds + [d]) == Meaning(MeaningOfRun(stack, ds), d)
    decreases |ds|
  {
    var all := ds + [d];
    if ds == [] {
      assert all[1..] == [];
    } else {
      assert all[1..] == ds[1..] + [d];
      RunSnoc(Meaning(stack, ds[0]), ds[1..], d);
    }
  }

  /** Where text is processed, exactly the first group of a chain whose condition holds is active, and #else
      makes one if none did; elsewhere none is. The #if's around it stay as they were, and #endif leaves only
      them. */
  lemma {:induction false} FirstGroup(stack: seq<Frame>, conds: seq<bool>) returns (f: Frame)
    requires conds != []
    ensures MeaningOfRun(stack, Chain(conds)) == stack + [f] && !f.inElse && f.live == Processing(stack)
    ensures f.active <==> Processing(stack) && FirstHolds(conds)
    ensures f.taken <==> Processing(stack) && true in conds
    decreases |conds|
  {
    var n := |conds| - 1;
    var ds := Chain(conds);
    if n == 0 {
      assert ds[1..] == [];
      f := Frame(Processing(stack), Processing(stack) && conds[0], Processing(stack) && conds[0], false);
    } else {
      var init := conds[..n];
      var g := FirstGroup(stack, init);
      assert ds == Chain(init) + [Elif(conds[n])];
      RunSnoc(stack, Chain(init), Elif(conds[n]));
      assert (stack + [g])[..|stack|] == stack;
      assert conds == init + [conds[n]];
      f := NextGroup(g, conds[n]);
    }
  }

  lemma ElseGroup(stack: seq<Frame>, conds: seq<bool>) returns (f: Frame)
    requires conds != []
    ensures MeaningOfRun(stack, Chain(conds) + [Else]) == stack + [f]
    ensures f.active <==> Processing(stack) && true !in conds
    ensures MeaningOfRun(stack, Chain(conds) + [Endif]) == stack
    ensures MeaningOfRun(stack, Chain(conds) + [Else] + [Endif]) == stack
  {
    var g := FirstGroup(stack, conds);
    f := NextGroup(g, true).(inElse := true);
    RunSnoc(stack, Chain(conds), Else);
    RunSnoc(stack, Chain(conds), Endif);
    RunSnoc(stack, Chain(conds) + [Else], Endif);
    assert (stack + [g])[..|stack|] == stack && (stack + [f])[..|stack|] == stack;
  }

  // ---------------------------------------------------------------- what the counters say

  /** The first tru groups are active; the next one, if any, is skipped, and so is all inside it. */
  predicate Levels(tru: nat, fls: nat, stack: seq<Frame>) {
    && |stack| == tru + fls
    && (forall i :: 0 <= i < tru ==> stack[i].live && stack[i].active && stack[i].taken)
    && (fls > 0 ==> stack[tru].live && !stack[tru].active)
    && (forall i :: tru < i < |stack| ==> !stack[i].live && !stack[i].active)
  }

  /** elf is trulvl + 1 when the group now skipped ended an active one at #elif, and 0 otherwise. */
  predicate ElseLevel(tru: nat, fls: nat, elf: nat, stack: seq<Frame>)
    requires fls > 0 ==> tru < |stack|
  {
    && (elf == 0 || (fls > 0 && elf == tru + 1 && stack[tru].taken))
    && (fls > 0 && stack[tru].taken ==> elf == tru + 1 || stack[tru].inElse)
    && (fls > 0 && stack[tru].inElse ==> stack[tru].taken)
  }

  predicate Refines(tru: nat, fls: nat, elf: nat, stack: seq<Frame>) {
    Levels(tru, fls, stack) && ElseLevel(tru, fls, elf, stack)
  }

  /** The directive turns on again a group that was active before its #else: the counters have forgotten it. */
  predicate Reactivates(fls: nat, elf: nat, stack: seq<Frame>, d: Directive)
    requires fls > 0 ==> stack != []
  {
    fls == 1 && elf == 0 && stack[|stack| - 1].inElse && (d.Else? || (d.Elif? && d.cond))
  }

  /** Skipping or not is read off one counter, and the depth off two. */
  lemma SkippingIsCounted(tru: nat, fls: nat, elf: nat, stack: seq<Frame>)
    requires Refines(tru, fls, elf, stack)
    ensures fls == 0 <==> Processing(stack)
    ensures tru + fls == |stack|
  {
    if fls > 0 {
      assert !stack[tru].active;
    }
  }

  /** A legal directive does not reactivate anything. */
  lemma LegalDoesNot(fls: nat, elf: nat, stack: seq<Frame>, d: Directive)
    requires fls > 0 ==> stack != []
    requires Legal(stack, d)
    ensures !Reactivates(fls, elf, stack, d)
  {
  }

  // ---------------------------------------------------------------- duplicate #else

  /** The depths at which #else has been seen since the last #endif. */
  function ElsesAfter(elses: set<nat>, depth: nat, d: Directive): set<nat> {
    if d.Endif? then {} else if d.Else? then elses + {depth} else elses
  }

  class Conditionals {
    var trulvl: nat
    var flslvl: nat
    var elflvl: nat
    var elslvl: nat
    ghost var elses: set<nat>   // depths of the #else's since the last #endif

    ghost predicate Valid(stack: seq<Frame>)
      reads this
    {
      Refines(trulvl, flslvl, elflvl, stack) && ElsesOk(stack)
    }

    /** elslvl is the deepest of the #else's since the last #endif, and those #if's are in their #else. */
    ghost predicate ElsesOk(stack: seq<Frame>)
      reads this
    {
      && elslvl <= |stack| && (elslvl == 0 || elslvl in elses)
      && forall e :: e in elses ==> e <= elslvl && (e > 0 ==> stack[e - 1].inElse)
    }

    constructor ()
      ensures Valid([]) && elses == {}
    {
      trulvl, flslvl, elflvl, elslvl, elses := 0, 0, 0, 0, {};
    }

    /** #if, #ifdef or #ifndef. The condition is looked at only if asked. */
    method OnIf(cond: bool, ghost stack: seq<Frame>) returns (asked: bool)
      requires Valid(stack)
      modifies this
      ensures Valid(Meaning(stack, If(cond))) && elses == old(elses)
      ensures asked == Needed(stack, If(cond))
    {
      SkippingIsCounted(trulvl, flslvl, elflvl, stack);
      asked := flslvl == 0;
      if asked && cond {
        trulvl := trulvl + 1;
      } else {
        flslvl := flslvl + 1;
      }
    }

    /** #elif. */
    method OnElif(cond: bool, ghost stack: seq<Frame>) returns (asked: bool, ifless: bool)
      requires Valid(stack)
      modifies this
      ensures ElsesOk(Meaning(stack, Elif(cond))) && elses == old(elses) && ifless == (stack == [])
      ensures Refines(trulvl, flslvl, elflvl, Meaning(stack, Elif(cond)))
        <==> !Reactivates(old(flslvl), old(elflvl), stack, Elif(cond))
      ensures Legal(stack, Elif(cond)) ==> asked == Needed(stack, Elif(cond))
    {
      asked, ifless := false, false;
      if flslvl == 0 {
        elflvl := trulvl;
      }
      if flslvl > 0 {
        if elflvl <= trulvl && flslvl == 1 {
          asked := true;
          if cond {
            trulvl, flslvl := trulvl + 1, 0;
          }
        }
      } else if trulvl > 0 {
        flslvl, trulvl := flslvl + 1, trulvl - 1;
      } else {
        ifless := true;
      }
    }

    /** #else. */
    method OnElse(ghost stack: seq<Frame>) returns (ifless: bool, tooMany: bool)
      requires Valid(stack)
      modifies this
      ensures ElsesOk(Meaning(stack, Else)) && elses == ElsesAfter(old(elses), |stack|, Else) && ifless == (stack == [])
      ensures Refines(trulvl, flslvl, elflvl, Meaning(stack, Else))
        <==> !Reactivates(old(flslvl), old(elflvl), stack, Else)
      ensures tooMany && stack != [] ==> stack[|stack| - 1].inElse
      ensures tooMany == (stack == [] || |stack| in old(elses))
    {
      ifless := false;
      if flslvl > 0 {
        if elflvl <= trulvl && flslvl == 1 {
          trulvl, flslvl := trulvl + 1, 0;
        }
      } else if trulvl > 0 {
        flslvl, trulvl := flslvl + 1, trulvl - 1;
      } else {
        ifless := true;
      }
      tooMany := elslvl == trulvl + flslvl;
      elslvl := trulvl + flslvl;
      elses := elses + {|stack|};
    }

    /** #endif. */
    method OnEndif(ghost stack: seq<Frame>) returns (ifless: bool)
      requires Valid(stack)
      modifies this
      ensures Valid(Meaning(stack, Endif)) && elses == {} && ifless == (stack == [])
    {
      ifless := false;
      if flslvl > 0 {
        flslvl := flslvl - 1;
      } else if trulvl > 0 {
        trulvl := trulvl - 1;
      } else {
        ifless := true;
      }
      if flslvl == 0 {
        elflvl := 0;
      }
      elslvl, elses := 0, {};
    }

    /** Any run of directives in which no #elif or #else comes after #else. */
    method Run(ds: seq<Directive>, ghost stack: seq<Frame>)
      requires Valid(stack) && LegalRun(stack, ds)
      modifies this
      ensures Valid(MeaningOfRun(stack, ds))
      ensures flslvl == 0 <==> Processing(MeaningOfRun(stack, ds))
      ensures trulvl + flslvl == |MeaningOfRun(stack, ds)|
      ensures elflvl == 0 || (flslvl > 0 && elflvl == trulvl + 1)
    {
      ghost var s := stack;
      var rest := ds;
      while rest != []
        invariant Valid(s) && LegalRun(s, rest) && MeaningOfRun(s, rest) == MeaningOfRun(stack, ds)
        decreases |rest|
      {
        var d := rest[0];
        LegalDoesNot(flslvl, elflvl, s, d);
        if d.If? {
          var _ := OnIf(d.cond, s);
        } else if d.Elif? {
          var _, _ := OnElif(d.cond, s);
        } else if d.Else? {
          var _, _ := OnElse(s);
        } else {
          var _ := OnEndif(s);
        }
        s, rest := Meaning(s, d), rest[1..];
      }
      SkippingIsCounted(trulvl, flslvl, elflvl, s);
    }
  }

  /** After #if 1 and #else, a second #else turns the #if on again, though its first group was active. */
  lemma SecondElse()
    ensures var stack := Meaning(Meaning([], If(true)), Else);
      Refines(0, 1, 0, stack) && Reactivates(1, 0, stack, Else) && !Processing(Meaning(stack, Else))
  {
    var stack := [Frame(true, false, true, true)];
    assert Meaning([], If(true)) == [Frame(true, true, true, false)];
    assert Meaning([Frame(true, true, true, false)], Else) == stack;
    assert !Meaning(stack, Else)[0].active;
  }
}
