/** Which calls of the script a stream leads to: a script that records its calls gives the answer. */
module StreamCalls {
  import opened Bytes
  import opened StreamEval

  /** One execution: the line number, the pattern space, and whether this is the last line. */
  datatype Call = Call(lnum: nat, space: seq<byte>, dol: bool)

  /** The script, recording how it is called. */
  function Recorded<M>(script: Script<M>): Script<(M, seq<Call>)> {
    (mc: (M, seq<Call>), lnum: nat, space: seq<byte>, dol: bool) =>
      var e := script(mc.0, lnum, space, dol);
      Effect((e.m, mc.1 + [Call(lnum, space, dol)]), e.left, e.quit)
  }

  /** The evaluator without the record. */
  function Strip<M>(c: Core<(M, seq<Call>)>): Core<M> {
    Core(c.m.0, c.lnum, c.left, c.quit)
  }

  /** Call j is the execution of line j, behind what the lines before it left in the pattern space. */
  predicate CallIs<M>(script: Script<M>, c: Core<M>, lines: seq<seq<byte>>, j: nat, call: Call, dol: bool)
    requires j < |lines|
  {
    call == Call(c.lnum + j + 1, Run(script, c, lines[..j]).left + lines[j], dol)
  }

  lemma CallMore<M>(script: Script<M>, c: Core<M>, lines: seq<seq<byte>>, line: seq<byte>, j: nat, call: Call,
                    dol: bool)
    requires j < |lines|
    ensures CallIs(script, c, lines + [line], j, call, dol) == CallIs(script, c, lines, j, call, dol)
  {
    assert (lines + [line])[..j] == lines[..j];
  }

  /** The lines are executed in order, each with its number and none as the last, until the script quits. */
  lemma {:induction false} RunCalls<M>(script: Script<M>, c: Core<(M, seq<Call>)>, lines: seq<seq<byte>>)
    requires c.m.1 == [] && !c.quit
    ensures var d := Run(Recorded(script), c, lines);
      && Strip(d) == Run(script, Strip(c), lines) && d.lnum == c.lnum + |d.m.1| && |d.m.1| <= |lines|
      && (!d.quit ==> |d.m.1| == |lines|)
      && forall j :: 0 <= j < |d.m.1| ==> CallIs(script, Strip(c), lines, j, d.m.1[j], false)
    decreases |lines|
  {
    if lines != [] {
      var init, line := lines[..|lines| - 1], lines[|lines| - 1];
      RunCalls(script, c, init);
      var d0, d := Run(Recorded(script), c, init), Run(Recorded(script), c, lines);
      assert lines == init + [line] && lines[..|init|] == init;
      forall j | 0 <= j < |d.m.1| ensures CallIs(script, Strip(c), lines, j, d.m.1[j], false) {
        if j < |init| {
          assert d.m.1[j] == d0.m.1[j];
          CallMore(script, Strip(c), init, line, j, d.m.1[j], false);
        }
      }
    }
  }

  /** The lines of a stream, the last one included. */
  function AllLines(s: seq<byte>): seq<seq<byte>> {
    SplitLines(s).done + [SplitLines(s).last]
  }

  /** A stream that is not empty: each of its lines is executed once, in order, the last and it alone as the
      last one; only a script that quits leaves out lines, those behind. */
  lemma StreamIsCalls<M>(script: Script<M>, c: Core<(M, seq<Call>)>, s: seq<byte>)
    requires c.m.1 == [] && !c.quit && s != []
    ensures var d, lines := RunStream(Recorded(script), c, s), AllLines(s);
      && Strip(d) == RunStream(script, Strip(c), s) && |d.m.1| <= |lines|
      && (!Run(script, Strip(c), SplitLines(s).done).quit ==> |d.m.1| == |lines|)
      && forall j :: 0 <= j < |d.m.1| ==> CallIs(script, Strip(c), lines, j, d.m.1[j], j == |lines| - 1)
  {
    var done, last := SplitLines(s).done, SplitLines(s).last;
    var d0, d := Run(Recorded(script), c, done), RunStream(Recorded(script), c, s);
    RunCalls(script, c, done);
    assert AllLines(s)[..|done|] == done;
    forall j | 0 <= j < |d.m.1| ensures CallIs(script, Strip(c), AllLines(s), j, d.m.1[j], j == |done|) {
      if j < |done| {
        assert d.m.1[j] == d0.m.1[j];
        CallMore(script, Strip(c), done, last, j, d.m.1[j], false);
      }
    }
  }
}
