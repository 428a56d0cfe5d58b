/** Patterns from text to match: the compiler and the matcher put together. */
module Regex {
  import opened Bytes
  import opened RegexSemantics
  import opened RegexBytecode
  import opened RegexSyntax
  import opened RegexMatch
  import RegexCompile
  import opened RegexMeaning

  /** The pattern spelled at cp: "^" or nothing, the tokens, the delimiter. */
  ghost predicate PatternAt(text: seq<byte>, cp: nat, circf: bool, ts: seq<Token>, eof: byte) {
    && Legal(ts, eof) && Regular(ts)
    && (if circf then SpelledAt(text, cp, [CARET]) && eof != CARET else ts != [] && Spell(ts[0])[0] != CARET)
    && var start := if circf then cp + 1 else cp;
       SpelledAt(text, start, SpellAll(ts)) && SpelledAt(text, start + |SpellAll(ts)|, [eof])
  }

  /** A spelled pattern is not taken for an empty one, and its tokens start behind its "^". */
  lemma PatternStarts(text: seq<byte>, cp: nat, circf: bool, ts: seq<Token>, eof: byte)
    requires PatternAt(text, cp, circf, ts, eof)
    ensures At(text, cp) != eof && At(text, cp) != NEWLINE && (At(text, cp) == CARET <==> circf) && cp <= |text|
    ensures Parse(text, RegexCompile.Start(text, cp), eof, []).Accepted?
    ensures Parse(text, RegexCompile.Start(text, cp), eof, []).ts == ts
  {
    var start := if circf then cp + 1 else cp;
    if circf {
      SpelledByte(text, cp, [CARET], 0);
    } else {
      assert LegalAt(ts, 0, eof);
      SpellStarts(ts[..0], ts[0], eof);
      FirstSpelled(text, cp, ts);
    }
    ParseSpelled(text, start, ts, eof);
  }

  /** Compile the pattern at cp, then run it at one position of the subject with null locs. With room
      for the code there is no error, and the run succeeds exactly when some choice of repetition
      counts takes the items through the subject from there. By PatternStarts this covers every
      spelled pattern. */
  method CompileAndAdvance(text: seq<byte>, cp: nat, buf: array<byte>, ep0: nat, endbuf: nat, eof: byte,
                           z: seq<byte>, lp: nat, vars: StepVars, ghost ts: seq<Token>, ghost next: nat)
    returns (compiled: bool, ok: bool)
    requires NulFree(text) && ep0 <= endbuf < buf.Length && cp <= |text|
    requires At(text, cp) != eof && At(text, cp) != NEWLINE
    requires Parse(text, RegexCompile.Start(text, cp), eof, []) == Accepted(ts, next) && Regular(ts)
    requires CString(z) && lp < |z| && vars.Valid() && vars.locs == -1
    modifies buf, vars
    ensures ep0 + CodeSize(ItemsOf(ts)) + 34 <= endbuf ==> compiled
    ensures compiled ==> (ok <==> Matchable(ItemsOf(ts), Text(z), lp, old(vars.Registers()), -1))
    ensures compiled ==> (ok <==> exists at :: Segmented(ItemsOf(ts), Text(z), lp, -1, at))
  {
    ghost var items, regs := ItemsOf(ts), vars.Registers();
    MatchIffSomeCounts(items, Text(z), lp, regs, -1);
    var r;
    ghost var read;
    r, read := RegexCompile.SedCompile(text, cp, buf, ep0, endbuf, eof);
    compiled, ok := r.Compiled?, false;
    if compiled {
      MatchIffSegmented(items, Text(z), lp, regs, -1);
      assert vars.Registers() == regs;
      ok := Advance(z, lp, buf[..], ep0, vars, items, {}, {});
    }
  }

  /** The compiler admits \d when d groups have been closed, not when group d has. The two agree
      exactly when every group still open has a number at or above the count of those closed. */
  lemma BackReferenceCheck(pre: seq<Token>)
    requires ContextOk(pre) && Regular(pre)
    ensures (forall d :: 0 <= d < Closes(pre) ==> Close(d) in ItemsOf(pre)) <==>
            (forall k :: k in Pending(pre) ==> k >= Closes(pre))
  {
    GroupsAreOk(pre);
    ClosesBound(pre);
    forall k | k in Pending(pre) ensures Close(k) !in ItemsOf(pre) {
    }
  }

  lemma {:induction false} ClosesBound(pre: seq<Token>)
    requires ContextOk(pre)
    ensures Closes(pre) + |Pending(pre)| == Opens(pre)
    decreases |pre|
  {
    if pre != [] {
      ClosesBound(pre[..|pre| - 1]);
    }
  }

  lemma ContextOkAppend(ts: seq<Token>, t: Token)
    ensures ContextOk(ts + [t]) == (ContextOk(ts) && ContextError(ts, t) == 0)
  {
    RegexCompile.PrefixFacts(ts, t);
  }

  /** "\(\(\)\1\)" passes the compiler's checks although \1 refers to a group that is still open. */
  lemma BackReferenceToOpenGroup()
    ensures var pre := [TOpen, TOpen, TClose];
      && ContextOk(pre) && ContextError(pre, TBack(0)) == 0
      && Close(0) !in ItemsOf(pre) && 0 in Pending(pre)
  {
    var p0: seq<Token> := [];
    var p1, p2, p3 := p0 + [TOpen], p0 + [TOpen] + [TOpen], p0 + [TOpen] + [TOpen] + [TClose];
    GroupsAppend(p0, TOpen);
    GroupsAppend(p1, TOpen);
    GroupsAppend(p2, TClose);
    ItemsOfAppend(p0, TOpen);
    ItemsOfAppend(p1, TOpen);
    ItemsOfAppend(p2, TClose);
    ContextOkAppend(p0, TOpen);
    ContextOkAppend(p1, TOpen);
    ContextOkAppend(p2, TClose);
    assert p3 == [TOpen, TOpen, TClose];
  }
}
