/** Streaming: the input comes in buffers cut anywhere, and lines are assembled from them. A line that ends
    exactly where a buffer ends is held back, because it might be the last one. */
module StreamEval {
  import opened Bytes
  import Substitute

  // ---------------------------------------------------------------- the stream, split at newlines

  /** The lines of a stream that are followed by more input, the last line, and whether that one has its newline. */
  datatype Split = Split(done: seq<seq<byte>>, last: seq<byte>, ready: bool)

  /** More input is coming: a finished last line is one of those done. */
  function Flush(p: Split): Split {
    if p.ready then Split(p.done + [p.last], [], false) else p
  }

  function Feed(p: Split, b: byte): Split {
    if b == NEWLINE then Flush(p).(ready := true) else Flush(p).(last := Flush(p).last + [b])
  }

  function SplitLines(s: seq<byte>): Split {
    if s == [] then Split([], [], false) else Feed(SplitLines(s[..|s| - 1]), s[|s| - 1])
  }

  predicate NoNewline(s: seq<byte>) {
    forall i :: 0 <= i < |s| ==> s[i] != NEWLINE
  }

  /** The lines with their newlines, one after the other. */
  function Joined(lines: seq<seq<byte>>): seq<byte> {
    if lines == [] then [] else Joined(lines[..|lines| - 1]) + (lines[|lines| - 1] + [NEWLINE])
  }

  /** The text a split stands for. */
  function Text(p: Split): seq<byte> {
    if p.ready then Joined(p.done) + (p.last + [NEWLINE]) else Joined(p.done) + p.last
  }

  predicate NoNewlines(p: Split) {
    NoNewline(p.last) && forall i :: 0 <= i < |p.done| ==> NoNewline(p.done[i])
  }

  /** Splitting loses nothing, lines have no newline inside, and a last line that has none of its own is
      not empty. These three say what splitting is. */
  lemma {:induction false} SplitIsSplit(s: seq<byte>)
    ensures Text(SplitLines(s)) == s && NoNewlines(SplitLines(s))
    ensures s != [] && !SplitLines(s).ready ==> SplitLines(s).last != []
  {
    if s != [] {
      var t, b := s[..|s| - 1], s[|s| - 1];
      assert s == t + [b];
      SplitIsSplit(t);
      FeedText(SplitLines(t), b);
      FeedClean(SplitLines(t), b);
    }
  }

  lemma FeedClean(p: Split, b: byte)
    requires NoNewlines(p)
    ensures NoNewlines(Feed(p, b)) && (Feed(p, b).ready || Feed(p, b).last != [])
  {
  }

  lemma FeedText(p: Split, b: byte)
    ensures Text(Feed(p, b)) == Text(p) + [b]
  {
    var q := Flush(p);
    FlushText(p);
    if b == NEWLINE {
      Assoc(Joined(q.done), q.last, [b]);
    } else {
      Assoc(Joined(q.done), q.last, [b]);
    }
  }

  lemma FlushText(p: Split)
    ensures Text(Flush(p)) == Text(p)
  {
    if p.ready {
      var d := p.done + [p.last];
      assert d[..|d| - 1] == p.done && d[|d| - 1] == p.last;
      assert Joined(d) + [] == Joined(d);
    }
  }

  lemma SplitSnoc(s: seq<byte>, b: byte)
    ensures SplitLines(s + [b]) == Feed(SplitLines(s), b)
  {
    assert (s + [b])[..|s + [b]| - 1] == s;
  }

  /** A piece without newlines goes to the last line. */
  lemma {:induction false} SplitPiece(s: seq<byte>, t: seq<byte>)
    requires NoNewline(t) && t != []
    ensures var q := Flush(SplitLines(s)); SplitLines(s + t) == q.(last := q.last + t)
    decreases |t|
  {
    var q, u, b := Flush(SplitLines(s)), t[..|t| - 1], t[|t| - 1];
    SplitUnsnoc(s, t);
    assert t == u + [b];
    if u == [] {
      assert s + u == s && t == [b];
    } else {
      SplitPiece(s, u);
      Assoc(q.last, u, [b]);
    }
  }

  /** A piece without newlines and a newline complete the last line. */
  lemma SplitLine(s: seq<byte>, t: seq<byte>)
    requires NoNewline(t)
    ensures var q := Flush(SplitLines(s)); SplitLines(s + t + [NEWLINE]) == Split(q.done, q.last + t, true)
  {
    SplitSnoc(s + t, NEWLINE);
    if t == [] {
      assert s + t == s;
      assert Flush(SplitLines(s)).last + t == Flush(SplitLines(s)).last;
    } else {
      SplitPiece(s, t);
    }
  }

  lemma SplitRest(s: seq<byte>, t: seq<byte>)
    requires t != [] && NoNewline(t[..|t| - 1])
    ensures var q := Flush(SplitLines(s));
      SplitLines(s + t) ==
        if t[|t| - 1] == NEWLINE then Split(q.done, q.last + t[..|t| - 1], true) else q.(last := q.last + t)
  {
    if t[|t| - 1] == NEWLINE {
      assert t == t[..|t| - 1] + [NEWLINE];
      Assoc(s, t[..|t| - 1], [NEWLINE]);
      SplitLine(s, t[..|t| - 1]);
    } else {
      SplitPiece(s, t);
    }
  }

  lemma Regroup(a: seq<byte>, b: seq<byte>, t: seq<byte>)
    ensures (a + b) + (t + [NEWLINE]) == (a + (b + t)) + [NEWLINE]
  {
  }

  lemma Advance(t: seq<byte>, rest: seq<byte>, n: nat)
    requires n <= |rest|
    ensures (t + rest[..n]) + rest[n..] == t + rest
  {
    assert rest == rest[..n] + rest[n..];
  }

  /** More input keeps the lines that are done. */
  lemma {:induction false} SplitExtends(s: seq<byte>, t: seq<byte>)
    requires t != []
    ensures Flush(SplitLines(s)).done <= SplitLines(s + t).done
    decreases |t|
  {
    var u, b := t[..|t| - 1], t[|t| - 1];
    SplitUnsnoc(s, t);
    if u == [] {
      assert s + u == s;
    } else {
      SplitExtends(s, u);
      FlushExtends(SplitLines(s + u));
    }
  }

  lemma SplitUnsnoc(s: seq<byte>, t: seq<byte>)
    requires t != []
    ensures SplitLines(s + t) == Feed(SplitLines(s + t[..|t| - 1]), t[|t| - 1])
  {
    var u, b := t[..|t| - 1], t[|t| - 1];
    assert t == u + [b];
    assert s + t == (s + u) + [b];
    SplitSnoc(s + u, b);
  }

  lemma FlushExtends(p: Split)
    ensures p.done <= Flush(p).done
  {
  }

  // ---------------------------------------------------------------- what is to be done with the lines

  /** What executing the script on a pattern space does: the rest of the evaluator's state, what it leaves
      in the pattern space (N), and whether the script quits. */
  datatype Effect<M> = Effect(m: M, left: seq<byte>, quit: bool)

  type Script<!M> = (M, nat, seq<byte>, bool) -> Effect<M>

  datatype Core<M> = Core(m: M, lnum: nat, left: seq<byte>, quit: bool)

  /** The script is executed on one more line, added to what was left. */
  function Do<M>(script: Script<M>, c: Core<M>, line: seq<byte>, dol: bool): Core<M> {
    var e := script(c.m, c.lnum + 1, c.left + line, dol);
    Core(e.m, c.lnum + 1, e.left, c.quit || e.quit)
  }

  /** The lines in order, until the script quits. */
  function Run<M>(script: Script<M>, c: Core<M>, lines: seq<seq<byte>>): Core<M> {
    if lines == [] then c
    else
      var d := Run(script, c, lines[..|lines| - 1]);
      if d.quit then d else Do(script, d, lines[|lines| - 1], false)
  }

  /** A whole stream: the last line, and it alone, is executed as the last one. */
  function RunStream<M>(script: Script<M>, c: Core<M>, s: seq<byte>): Core<M> {
    var d := Run(script, c, SplitLines(s).done);
    if d.quit then d
    else if s == [] then d.(quit := true)
    else Do(script, d, SplitLines(s).last, true).(quit := true)
  }

  lemma RunSnoc<M>(script: Script<M>, c: Core<M>, lines: seq<seq<byte>>, line: seq<byte>)
    ensures var d := Run(script, c, lines);
      Run(script, c, lines + [line]) == if d.quit then d else Do(script, d, line, false)
  {
    assert (lines + [line])[..|lines + [line]| - 1] == lines;
  }

  /** Nothing happens once the script has quit. */
  lemma {:induction false} RunQuit<M>(script: Script<M>, c: Core<M>, lines: seq<seq<byte>>, more: seq<seq<byte>>)
    requires lines <= more && Run(script, c, lines).quit
    ensures Run(script, c, more) == Run(script, c, lines)
    decreases |more|
  {
    if |lines| < |more| {
      RunQuit(script, c, lines, more[..|more| - 1]);
    } else {
      assert lines == more;
    }
  }

  lemma QuitStays<M>(script: Script<M>, c: Core<M>, s: seq<byte>, t: seq<byte>)
    requires Run(script, c, SplitLines(s).done).quit || (t != [] && Run(script, c, Flush(SplitLines(s)).done).quit)
    ensures Run(script, c, SplitLines(s).done).quit ==>
      Run(script, c, SplitLines(s + t).done) == Run(script, c, SplitLines(s).done)
    ensures t != [] ==> Run(script, c, SplitLines(s + t).done) == Run(script, c, Flush(SplitLines(s)).done)
  {
    if t == [] {
      assert s + t == s;
    } else {
      SplitExtends(s, t);
      var p := SplitLines(s);
      if Run(script, c, p.done).quit {
        RunQuit(script, c, p.done, Flush(p).done);
      }
      RunQuit(script, c, Flush(p).done, SplitLines(s + t).done);
    }
  }

  /** The line held back makes the script quit. */
  predicate HeldQuits<M>(script: Script<M>, c: Core<M>, s: seq<byte>) {
    var p := SplitLines(s);
    p.ready && !Run(script, c, p.done).quit && Run(script, c, Flush(p).done).quit
  }

  /** A newline before the last byte: a line of the buffer is complete and not held back. */
  predicate InnerNewline(buf: seq<byte>) {
    exists i :: 0 <= i < |buf| - 1 && buf[i] == NEWLINE
  }

  /** The place of the first newline. */
  function FirstLine(buf: seq<byte>): (n: nat)
    ensures n <= |buf|
  {
    if buf == [] || buf[0] == NEWLINE then 0 else 1 + FirstLine(buf[1..])
  }

  lemma {:induction false} FirstLineIs(buf: seq<byte>, n: nat)
    requires n < |buf| && buf[n] == NEWLINE && NoNewline(buf[..n])
    ensures FirstLine(buf) == n
  {
    if n > 0 {
      assert buf[0] == buf[..n][0];
      assert buf[1..][..n - 1] == buf[..n][1..];
      FirstLineIs(buf[1..], n - 1);
    }
  }

  /** The script quits on the line held back, and goes on with one more. */
  predicate Overruns<M>(script: Script<M>, c: Core<M>, s: seq<byte>, buf: seq<byte>) {
    HeldQuits(script, c, s) && InnerNewline(buf)
  }

  /** What comes of it: the first line of buf is executed after all. */
  function Overrun<M>(script: Script<M>, c: Core<M>, s: seq<byte>, buf: seq<byte>): Core<M> {
    Do(script, Run(script, c, SplitLines(s + buf).done), buf[..FirstLine(buf)], false)
  }

  lemma OverrunEnds<M>(script: Script<M>, c: Core<M>, s: seq<byte>, buf: seq<byte>, n: nat)
    requires HeldQuits(script, c, s) && n + 1 < |buf| && buf[n] == NEWLINE && NoNewline(buf[..n])
    ensures Overruns(script, c, s, buf)
    ensures var q := Flush(SplitLines(s));
      Do(script, Run(script, c, q.done), q.last + buf[..n], false) == Overrun(script, c, s, buf)
  {
    QuitStays(script, c, s, buf);
    FirstLineIs(buf, n);
    assert [] + buf[..n] == buf[..n];
  }

  /** The stream that comes in the buffers bufs. */
  function Flat(bufs: seq<seq<byte>>): seq<byte> {
    if bufs == [] then [] else bufs[0] + Flat(bufs[1..])
  }

  /** Once the script has quit, the rest of the stream changes nothing. */
  lemma {:induction false} QuitForGood<M>(script: Script<M>, c: Core<M>, s: seq<byte>, bufs: seq<seq<byte>>)
    requires Run(script, c, SplitLines(s).done).quit
    ensures !OverrunsSome(script, c, s, bufs)
    ensures RunStream(script, c, s + Flat(bufs)) == Run(script, c, SplitLines(s).done)
    decreases |bufs|
  {
    if bufs == [] {
      assert s + Flat(bufs) == s;
    } else {
      QuitStays(script, c, s, bufs[0]);
      Assoc(s, bufs[0], Flat(bufs[1..]));
      QuitForGood(script, c, s + bufs[0], bufs[1..]);
    }
  }

  /** The script has quit within the first of the buffers. */
  lemma QuitAt<M>(script: Script<M>, c: Core<M>, s: seq<byte>, bufs: seq<seq<byte>>)
    requires bufs != [] && (Overruns(script, c, s, bufs[0]) || Run(script, c, SplitLines(s + bufs[0]).done).quit)
    ensures OverrunsSome(script, c, s, bufs) == Overruns(script, c, s, bufs[0])
    ensures RunStream(script, c, s + Flat(bufs)) == Run(script, c, SplitLines(s + bufs[0]).done)
  {
    if Overruns(script, c, s, bufs[0]) {
      QuitStays(script, c, s, bufs[0]);
    }
    Assoc(s, bufs[0], Flat(bufs[1..]));
    QuitForGood(script, c, s + bufs[0], bufs[1..]);
  }

  /** A script that does not quit before the last line overruns no cut of the stream. */
  lemma {:induction false} QuitFree<M>(script: Script<M>, c: Core<M>, s: seq<byte>, bufs: seq<seq<byte>>)
    requires !Run(script, c, SplitLines(s + Flat(bufs)).done).quit
    ensures !OverrunsSome(script, c, s, bufs)
    decreases |bufs|
  {
    if bufs != [] {
      Assoc(s, bufs[0], Flat(bufs[1..]));
      if Overruns(script, c, s, bufs[0]) {
        assert bufs[0] + Flat(bufs[1..]) != [];
        QuitStays(script, c, s, Flat(bufs));
      }
      QuitFree(script, c, s + bufs[0], bufs[1..]);
    }
  }

  /** Every stream in which a line behind the one that quits is complete and not the end has a cut that is overrun. */
  lemma SomeCutOverruns<M>(script: Script<M>, c: Core<M>, s: seq<byte>, line: seq<byte>, more: seq<byte>)
    requires HeldQuits(script, c, s) && more != []
    ensures OverrunsSome(script, c, [], [s, line + [NEWLINE] + more])
  {
    var buf := line + [NEWLINE] + more;
    assert buf[|line|] == NEWLINE;
    assert [s, buf][1..] == [buf] && [] + s == s;
    assert Overruns(script, c, s, buf);
  }

  /** The script "1q", as far as the stream is concerned. */
  function QuitsOnFirst(m: int, lnum: nat, space: seq<byte>, dol: bool): Effect<int> {
    Effect(m, [], lnum == 1)
  }

  /** "1q" on the stream "a", "b", "c", cut behind the first newline: two lines are executed instead of one. */
  lemma OverrunOfFirstLine()
    ensures var c, bufs := Core(0, 0, [], false), [[97, NEWLINE], [98, NEWLINE, 99]];
      && HeldQuits(QuitsOnFirst, c, bufs[0])
      && OverrunsSome(QuitsOnFirst, c, [], bufs)
      && RunStream(QuitsOnFirst, c, Flat(bufs)).lnum == 1
  {
    var c, s := Core(0, 0, [], false), [97, NEWLINE];
    var more: seq<byte> := [99];
    assert s == [] + [97] + [NEWLINE];
    SplitLine([], [97]);
    assert [] + [97] == [97] && SplitLines([]) == Split([], [], false);
    RunSnoc(QuitsOnFirst, c, [], [97]);
    assert [] + [[97]] == [[97]];
    assert [98] + [NEWLINE] + more == [98, NEWLINE, 99];
    SomeCutOverruns(QuitsOnFirst, c, s, [98], more);
    QuitStays(QuitsOnFirst, c, s, [98, NEWLINE, 99]);
    var bufs := [s, [98, NEWLINE, 99]];
    assert bufs[1..] == [bufs[1]] && Flat([bufs[1]]) == bufs[1];
    assert Flat(bufs) == s + [98, NEWLINE, 99];
  }

  // ---------------------------------------------------------------- what the evaluator holds

  /** After the part s of the stream all its lines but the last have been executed, and the line buffer
      holds the last one. */
  ghost predicate Holds<M>(script: Script<M>, c: Core<M>, s: seq<byte>, now: Core<M>, line: seq<byte>, ready: bool) {
    && now == Run(script, c, SplitLines(s).done)
    && (!now.quit ==>
        && ready == SplitLines(s).ready
        && line == if ready then now.left + SplitLines(s).last + [NEWLINE] else now.left + SplitLines(s).last)
  }

  /** More follows: all finished lines of the part t have been executed. */
  ghost predicate Flushed<M>(script: Script<M>, c: Core<M>, t: seq<byte>, now: Core<M>, line: seq<byte>) {
    && now == Run(script, c, Flush(SplitLines(t)).done)
    && line == now.left + Flush(SplitLines(t)).last
  }

  /** The rest of a buffer is part of a line, or one whole line. */
  predicate OneLine(rest: seq<byte>, whole: bool) {
    rest != [] && NoNewline(rest[..|rest| - 1]) && (rest[|rest| - 1] == NEWLINE <==> whole)
  }

  /** What memchr finds at the end of a buffer, or not at all. */
  lemma LastIsOne(rest: seq<byte>, n: int)
    requires rest != []
    requires n == -1 ==> NoNewline(rest)
    requires n != -1 ==> n == |rest| - 1 && rest[n] == NEWLINE && NoNewline(rest[..n])
    ensures OneLine(rest, n != -1)
  {
    var init := rest[..|rest| - 1];
    forall i | 0 <= i < |init| ensures init[i] != NEWLINE {
      assert init[i] == rest[i];
    }
  }

  lemma NoInner(rest: seq<byte>, whole: bool)
    requires OneLine(rest, whole)
    ensures !InnerNewline(rest)
  {
    forall i | 0 <= i < |rest| - 1 ensures rest[i] != NEWLINE {
      assert rest[..|rest| - 1][i] == rest[i];
    }
  }

  /** The line buffer is empty only where the stream is. */
  lemma LineHeld<M>(script: Script<M>, c: Core<M>, s: seq<byte>, now: Core<M>, line: seq<byte>, ready: bool)
    requires Holds(script, c, s, now, line, ready) && !now.quit && c.left == []
    ensures line == [] <==> s == []
  {
    SplitIsSplit(s);
  }

  lemma Saved<M>(script: Script<M>, c: Core<M>, t: seq<byte>, now: Core<M>, line: seq<byte>, rest: seq<byte>,
                 whole: bool)
    requires Flushed(script, c, t, now, line) && OneLine(rest, whole)
    ensures Holds(script, c, t + rest, now, line + rest, whole)
  {
    var q := Flush(SplitLines(t));
    SplitRest(t, rest);
    if whole {
      assert rest == rest[..|rest| - 1] + [NEWLINE];
      Regroup(now.left, q.last, rest[..|rest| - 1]);
    } else {
      Assoc(now.left, q.last, rest);
    }
    SavedQuit(script, c, t, now, rest);
  }

  lemma SavedQuit<M>(script: Script<M>, c: Core<M>, t: seq<byte>, now: Core<M>, rest: seq<byte>)
    requires now == Run(script, c, Flush(SplitLines(t)).done) && rest != []
    ensures now.quit ==> now == Run(script, c, SplitLines(t + rest).done)
  {
    if now.quit {
      QuitStays(script, c, t, rest);
    }
  }

  /** A line completed by piece has been executed. */
  lemma Completed<M>(script: Script<M>, c: Core<M>, t: seq<byte>, now: Core<M>, line: seq<byte>, piece: seq<byte>)
    requires Flushed(script, c, t, now, line) && NoNewline(piece)
    ensures line + (piece + [NEWLINE]) == now.left + (Flush(SplitLines(t)).last + piece) + [NEWLINE]
    ensures !now.quit ==>
      var now2 := Do(script, now, Flush(SplitLines(t)).last + piece, false);
      Flushed(script, c, t + (piece + [NEWLINE]), now2, now2.left)
  {
    var q := Flush(SplitLines(t));
    Regroup(now.left, q.last, piece);
    Assoc(t, piece, [NEWLINE]);
    SplitLine(t, piece);
    RunSnoc(script, c, q.done, q.last + piece);
    var now2 := Do(script, now, q.last + piece, false);
    assert now2.left + [] == now2.left;
  }

  /** The line held back has been executed. */
  lemma HeldDone<M>(script: Script<M>, c: Core<M>, s: seq<byte>, now: Core<M>, line: seq<byte>)
    requires Holds(script, c, s, now, line, true) && !now.quit
    ensures var now2 := Do(script, now, SplitLines(s).last, false);
      Flushed(script, c, s, now2, now2.left) && now2.quit == HeldQuits(script, c, s)
  {
    var p := SplitLines(s);
    RunSnoc(script, c, p.done, p.last);
    var now2 := Do(script, now, p.last, false);
    assert now2.left + [] == now2.left;
  }

  /** Some buffer begins right behind the line on which the script quits, and completes another line. */
  ghost predicate OverrunsSome<M>(script: Script<M>, c: Core<M>, s: seq<byte>, bufs: seq<seq<byte>>)
    decreases |bufs|
  {
    bufs != [] && (Overruns(script, c, s, bufs[0]) || OverrunsSome(script, c, s + bufs[0], bufs[1..]))
  }

  // ---------------------------------------------------------------- the evaluator

  class Evaluator<M> {
    const script: Script<M>
    var m: M
    var lnum: nat
    var linebuf: array<byte>
    var lspend: nat
    var lreadyflag: bool
    var quitflag: bool
    var dolflag: bool
    ghost var left: seq<byte>   // what the last execution left in the pattern space

    ghost predicate Room()
      reads this
    {
      lspend <= linebuf.Length
    }

    ghost function Line(): seq<byte>
      reads this, linebuf
      requires Room()
    {
      linebuf[..lspend]
    }

    ghost function Now(): Core<M>
      reads this
    {
      Core(m, lnum, left, quitflag)
    }

    ghost predicate Valid(c: Core<M>, s: seq<byte>)
      reads this, linebuf
    {
      Room() && !dolflag && Holds(script, c, s, Now(), Line(), lreadyflag)
    }

    constructor (script: Script<M>, m: M)
      ensures Valid(Core(m, 0, [], false), []) && Now() == Core(m, 0, [], false)
      ensures this.script == script && fresh(linebuf)
    {
      this.script, this.m, lnum := script, m, 0;
      linebuf := new byte[1024](_ => 0);
      lspend, lreadyflag, quitflag, dolflag, left := 0, false, false, false, [];
    }

    /** Append to the line buffer. */
    method AppendMem(s: seq<byte>)
      requires Room()
      modifies this`linebuf, this`lspend, linebuf
      ensures Room() && Line() == old(Line()) + s
      ensures linebuf == old(linebuf) || fresh(linebuf)
    {
      ghost var before := Line();
      linebuf := Substitute.GrowBuffer(linebuf, lspend + |s|);
      assert linebuf[..lspend] == before by {
        assert linebuf[..lspend] == linebuf[..old(linebuf.Length)][..lspend];
      }
      Put(linebuf, lspend, s);
      assert linebuf[..lspend + |s|] == before + s;
      lspend := lspend + |s|;
    }

    /** Take the last byte off the line, and end it there. */
    method DropLast(ghost keep: seq<byte>)
      requires Room() && Line() == keep + [NEWLINE]
      modifies this`lspend, linebuf
      ensures Room() && Line() == keep
    {
      assert Line()[|keep|] == NEWLINE && Line()[..|keep|] == keep;
      lspend := lspend - 1;
      linebuf[lspend] := 0;
      assert linebuf[..lspend] == keep;
    }

    /** Execute the script on the line. */
    method Execute(ghost line: seq<byte>)
      requires Room() && Line() == left + line
      modifies this`m, this`lnum, this`linebuf, this`lspend, this`quitflag, this`left, linebuf
      ensures Room() && Line() == left && (linebuf == old(linebuf) || fresh(linebuf))
      ensures Now() == Do(script, old(Now()), line, dolflag)
    {
      var e := script(m, lnum + 1, linebuf[..lspend], dolflag);
      m, lnum, left, quitflag := e.m, lnum + 1, e.left, quitflag || e.quit;
      lspend := 0;
      AppendMem(e.left);
      assert [] + e.left == e.left;
    }

    /** memchr. */
    method FindNewline(buf: seq<byte>) returns (n: int)
      ensures n == -1 ==> NoNewline(buf)
      ensures n != -1 ==> 0 <= n < |buf| && buf[n] == NEWLINE && NoNewline(buf[..n])
    {
      n := 0;
      while n < |buf|
        invariant 0 <= n <= |buf| && forall i :: 0 <= i < n ==> buf[i] != NEWLINE
      {
        if buf[n] == NEWLINE {
          return;
        }
        n := n + 1;
      }
      n := -1;
    }

    /** The line held back is followed by more input. */
    method Held(ghost c: Core<M>, ghost s: seq<byte>)
      requires Valid(c, s) && !quitflag
      modifies this, linebuf
      ensures Room() && !dolflag && !lreadyflag && (linebuf == old(linebuf) || fresh(linebuf))
      ensures Flushed(script, c, s, Now(), Line()) && quitflag == HeldQuits(script, c, s)
    {
      if lreadyflag {
        HeldDone(script, c, s, Now(), Line());
        lreadyflag := false;
        DropLast(left + SplitLines(s).last);
        Execute(SplitLines(s).last);
      }
    }

    /** A line of the buffer, followed by more input. */
    method Complete(buf: seq<byte>, n: nat, ghost c: Core<M>, ghost t: seq<byte>)
      requires Room() && !dolflag && Flushed(script, c, t, Now(), Line())
      requires n < |buf| && buf[n] == NEWLINE && NoNewline(buf[..n])
      modifies this`m, this`lnum, this`linebuf, this`lspend, this`quitflag, this`left, linebuf
      ensures Room() && (linebuf == old(linebuf) || fresh(linebuf))
      ensures Now() == Do(script, old(Now()), Flush(SplitLines(t)).last + buf[..n], false)
      ensures !old(quitflag) ==> Flushed(script, c, t + buf[..n + 1], Now(), Line())
    {
      ghost var line := Flush(SplitLines(t)).last + buf[..n];
      assert buf[..n + 1] == buf[..n] + [NEWLINE];
      Completed(script, c, t, Now(), Line(), buf[..n]);
      AppendMem(buf[..n + 1]);
      DropLast(left + line);
      Execute(line);
    }

    /** sed_eval_buffer. s is the stream so far. After it the stream is s + buf, unless the script has quit
        on the line held back and buf completes another line: then that line is executed as well. */
    method Buffer(buf: seq<byte>, ghost c: Core<M>, ghost s: seq<byte>)
      requires Valid(c, s)
      modifies this, linebuf
      ensures linebuf == old(linebuf) || fresh(linebuf)
      ensures !Overruns(script, c, s, buf) ==> Valid(c, s + buf)
      ensures Overruns(script, c, s, buf) ==>
        Room() && !dolflag && quitflag && Now() == Overrun(script, c, s, buf)
    {
      if quitflag {
        QuitStays(script, c, s, buf);
        return;
      }
      if buf == [] {
        assert s + buf == s;
        return;
      }
      Held(c, s);
      Lines(buf, c, s);
    }

    /** The rest of the buffer is kept: part of a line, or one whole line. */
    method Keep(rest: seq<byte>, whole: bool, ghost c: Core<M>, ghost t: seq<byte>)
      requires Room() && !dolflag && Flushed(script, c, t, Now(), Line()) && OneLine(rest, whole)
      modifies this`lreadyflag, this`linebuf, this`lspend, linebuf
      ensures Valid(c, t + rest) && (linebuf == old(linebuf) || fresh(linebuf))
    {
      Saved(script, c, t, Now(), Line(), rest, whole);
      lreadyflag := whole;
      AppendMem(rest);
    }

    /** Of the buffer buf behind s, the lines up to rest have been executed. */
    ghost predicate InLines(c: Core<M>, s: seq<byte>, buf: seq<byte>, t: seq<byte>, rest: seq<byte>)
      reads this, linebuf
    {
      && rest != [] && t + rest == s + buf && Room() && !dolflag && !lreadyflag
      && Flushed(script, c, t, Now(), Line())
      && if quitflag then HeldQuits(script, c, s) && t == s && rest == buf else !HeldQuits(script, c, s)
    }

    /** What sed_eval_buffer leaves. */
    ghost predicate AfterBuffer(c: Core<M>, s: seq<byte>, buf: seq<byte>)
      reads this, linebuf
    {
      if Overruns(script, c, s, buf) then Room() && !dolflag && quitflag && Now() == Overrun(script, c, s, buf)
      else Valid(c, s + buf)
    }

    /** The last line of a buffer. */
    method LastLine(rest: seq<byte>, whole: bool, ghost c: Core<M>, ghost s: seq<byte>, ghost buf: seq<byte>,
                    ghost t: seq<byte>)
      requires InLines(c, s, buf, t, rest) && OneLine(rest, whole)
      modifies this`lreadyflag, this`linebuf, this`lspend, linebuf
      ensures AfterBuffer(c, s, buf) && (linebuf == old(linebuf) || fresh(linebuf))
    {
      NoInner(rest, whole);
      Keep(rest, whole, c, t);
    }

    /** A line of a buffer that is not its last. */
    method InnerLine(rest: seq<byte>, n: nat, ghost c: Core<M>, ghost s: seq<byte>, ghost buf: seq<byte>,
                     ghost t: seq<byte>)
      requires InLines(c, s, buf, t, rest) && n + 1 < |rest| && rest[n] == NEWLINE && NoNewline(rest[..n])
      modifies this`m, this`lnum, this`linebuf, this`lspend, this`quitflag, this`left, linebuf
      ensures linebuf == old(linebuf) || fresh(linebuf)
      ensures if quitflag then AfterBuffer(c, s, buf) else InLines(c, s, buf, t + rest[..n + 1], rest[n + 1..])
    {
      ghost var t2, rest2 := t + rest[..n + 1], rest[n + 1..];
      Advance(t, rest, n + 1);
      if quitflag {
        OverrunEnds(script, c, s, buf, n);
      }
      Complete(rest, n, c, t);
      if quitflag {
        if !HeldQuits(script, c, s) {
          SavedQuit(script, c, t2, Now(), rest2);
        }
        AppendMem(rest[n + 1..]);
      }
    }

    /** The lines of a buffer, the line held back having been dealt with. */
    method Lines(buf: seq<byte>, ghost c: Core<M>, ghost s: seq<byte>)
      requires buf != [] && Room() && !dolflag && !lreadyflag
      requires Flushed(script, c, s, Now(), Line()) && quitflag == HeldQuits(script, c, s)
      modifies this, linebuf
      ensures linebuf == old(linebuf) || fresh(linebuf)
      ensures AfterBuffer(c, s, buf)
    {
      var rest := buf;
      ghost var t := s;
      while true
        invariant InLines(c, s, buf, t, rest) && (linebuf == old(linebuf) || fresh(linebuf))
        decreases |rest|
      {
        var n := FindNewline(rest);
        if n == -1 || n == |rest| - 1 {
          LastIsOne(rest, n);
          LastLine(rest, n != -1, c, s, buf, t);
          return;
        }
        InnerLine(rest, n, c, s, buf, t);
        if quitflag {
          return;
        }
        t, rest := t + rest[..n + 1], rest[n + 1..];
      }
    }

    /** End the last line, which is keep, with or without its newline. */
    method EndLine(ghost keep: seq<byte>)
      requires Room() && Line() == if lreadyflag then keep + [NEWLINE] else keep
      modifies this`lreadyflag, this`linebuf, this`lspend, linebuf
      ensures Room() && Line() == keep && (linebuf == old(linebuf) || fresh(linebuf))
    {
      if lreadyflag {
        lreadyflag := false;
        DropLast(keep);
      } else {
        AppendMem([0]);
        lspend := lspend - 1;
        assert Line() == (keep + [0])[..lspend] == keep;
      }
    }

    /** sed_finalize_eval: the stream s has ended, so the line in the buffer is the last one. */
    method Finalize(ghost c: Core<M>, ghost s: seq<byte>)
      requires Valid(c, s) && c.left == []
      modifies this, linebuf
      ensures Now() == RunStream(script, c, s)
    {
      if quitflag {
        return;
      }
      dolflag := true;
      LineHeld(script, c, s, Now(), Line(), lreadyflag);
      if lspend > 0 {
        EndLine(left + SplitLines(s).last);
        Execute(SplitLines(s).last);
      }
      quitflag := true;
    }

    /** sed_eval_file: the whole stream, read buffer by buffer. However it is cut, each line is executed once
        and the last one as such; only on an overrun one line more is executed. */
    method Stream(bufs: seq<seq<byte>>, ghost c: Core<M>)
      requires Valid(c, []) && c.left == []
      modifies this, linebuf
      ensures Now().lnum == RunStream(script, c, Flat(bufs)).lnum + if OverrunsSome(script, c, [], bufs) then 1 else 0
      ensures !OverrunsSome(script, c, [], bufs) ==> Now() == RunStream(script, c, Flat(bufs))
    {
      var rest := bufs;
      ghost var s: seq<byte> := [];
      assert s + Flat(bufs) == Flat(bufs);
      while rest != []
        invariant Valid(c, s) && s + Flat(rest) == Flat(bufs)
        invariant OverrunsSome(script, c, [], bufs) == OverrunsSome(script, c, s, rest)
        invariant linebuf == old(linebuf) || fresh(linebuf)
        decreases |rest|
      {
        Buffer(rest[0], c, s);
        if quitflag {
          QuitAt(script, c, s, rest);
          return;
        }
        Assoc(s, rest[0], Flat(rest[1..]));
        s, rest := s + rest[0], rest[1..];
      }
      assert s + Flat(rest) == s;
      Finalize(c, s);
    }
  }
}
