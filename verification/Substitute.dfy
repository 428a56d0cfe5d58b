/** The s command on growable buffers: the line is rewritten in place, match by match. */
module Substitute {
  import opened Bytes
  import opened RegexSemantics
  import opened RegexBytecode
  import opened RegexMatch
  import opened SubstSpec
  import opened SubstMeaning

  /** The size a buffer gets when it must hold newsize bytes: at least doubled, in units of 4 KB. */
  function GrownSize(cursize: nat, newsize: nat): (n: nat)
    ensures n >= newsize && n >= cursize
  {
    if cursize >= newsize then cursize
    else
      var want := if newsize < cursize * 2 then cursize * 2 else newsize;
      (want + 4095) / 4096 * 4096
  }

  /** A buffer of at least newsize bytes that starts with the old contents: the old one if it is large enough. */
  method GrowBuffer(buf: array<byte>, newsize: nat) returns (grown: array<byte>)
    ensures grown.Length == GrownSize(buf.Length, newsize)
    ensures buf.Length >= newsize ==> grown == buf
    ensures buf.Length < newsize ==> fresh(grown)
    ensures grown[..buf.Length] == buf[..]
  {
    if buf.Length >= newsize {
      grown := buf;
    } else {
      grown := new byte[GrownSize(buf.Length, newsize)](_ => 0);
      CopyBytes(buf, 0, grown, 0, buf.Length);
      assert grown[..buf.Length] == grown[0..0 + buf.Length];
    }
  }

  /** memcpy between different buffers. */
  method CopyBytes(src: array<byte>, from: nat, dst: array<byte>, at: nat, n: nat)
    requires src != dst && from + n <= src.Length && at + n <= dst.Length
    modifies dst
    ensures dst[at..at + n] == src[from..from + n]
    ensures forall i :: 0 <= i < dst.Length && !(at <= i < at + n) ==> dst[i] == old(dst[i])
  {
    var i := 0;
    while i < n
      invariant 0 <= i <= n
      invariant forall j :: at <= j < at + i ==> dst[j] == src[from + (j - at)]
      invariant forall j :: 0 <= j < dst.Length && !(at <= j < at + i) ==> dst[j] == old(dst[j])
    {
      dst[at + i] := src[from + i];
      i := i + 1;
    }
  }

  lemma LastByte(s: seq<byte>, a: seq<byte>, b: seq<byte>)
    requires s == a + (b + [0])
    ensures |s| == |a| + |b| + 1 && s[|a| + |b|] == 0 && s[..|a| + |b|] == a + b
  {
  }

  /** Append n bytes of src to the first sp bytes of dst, which moves if it is smaller than room. */
  method AppendBytes(dst: array<byte>, sp: nat, src: array<byte>, from: nat, n: nat, room: nat)
    returns (grown: array<byte>)
    requires src != dst && sp <= dst.Length && from + n <= src.Length && sp + n <= room
    modifies dst
    ensures grown.Length >= room && (grown == dst || fresh(grown))
    ensures grown[..sp + n] == old(dst[..sp]) + src[from..from + n]
  {
    ghost var before := dst[..sp];
    grown := GrowBuffer(dst, room);
    assert grown[..sp] == grown[..dst.Length][..sp] == before;
    CopyBytes(src, from, grown, sp, n);
    assert grown[..sp] == before;
    assert grown[..sp + n] == grown[..sp] + grown[sp..sp + n];
  }

  /** strlen. */
  method StrLen(buf: array<byte>, at: nat, ghost n: nat) returns (len: nat)
    requires at + n < buf.Length && buf[at + n] == 0 && forall i :: at <= i < at + n ==> buf[i] != 0
    ensures len == n
  {
    len := 0;
    while buf[at + len] != 0
      invariant 0 <= len <= n
      decreases n - len
    {
      len := len + 1;
    }
  }

  class SedEval {
    var linebuf: array<byte>
    var lspend: nat
    var genbuf: array<byte>
    var numpass: nat
    var sflag: bool

    /** The line is a C string in linebuf that ends at lspend. */
    ghost predicate Valid()
      reads this, linebuf, genbuf
    {
      && linebuf != genbuf && genbuf.Length > 0
      && lspend < linebuf.Length && linebuf[lspend] == 0 && NulFree(linebuf[..lspend])
    }

    ghost function Line(): seq<byte>
      reads this, linebuf
      requires lspend <= linebuf.Length
    {
      linebuf[..lspend]
    }

    constructor (line: seq<byte>)
      requires NulFree(line)
      ensures Valid() && Line() == line && !sflag && fresh(linebuf) && fresh(genbuf)
    {
      linebuf := new byte[|line| + 1](i requires 0 <= i => if i < |line| then line[i] else 0);
      genbuf := new byte[1024](_ => 0);
      lspend, numpass, sflag := |line|, 0, false;
      new;
      assert linebuf[..lspend] == line;
    }

    /** Append the part [al1, al2) of the line at sp of genbuf, growing it if needed. */
    method Place(sp: nat, al1: nat, al2: nat) returns (sp2: nat)
      requires Valid() && sp <= genbuf.Length && al1 <= al2 <= lspend
      modifies this`genbuf, genbuf
      ensures Valid() && (genbuf == old(genbuf) || fresh(genbuf))
      ensures sp2 == sp + (al2 - al1) < genbuf.Length
      ensures genbuf[..sp2] == old(genbuf[..sp]) + linebuf[al1..al2]
    {
      var n := al2 - al1;
      genbuf := AppendBytes(genbuf, sp, linebuf, al1, n, sp + n + 1);
      sp2 := sp + n;
    }

    /** Append one character at sp of genbuf, then make room for the next. */
    method PutChar(sp: nat, c: byte) returns (sp2: nat)
      requires Valid() && sp < genbuf.Length
      modifies this`genbuf, genbuf
      ensures Valid() && (genbuf == old(genbuf) || fresh(genbuf))
      ensures sp2 == sp + 1 < genbuf.Length
      ensures genbuf[..sp2] == old(genbuf[..sp]) + [c]
    {
      ghost var before := genbuf[..sp];
      genbuf[sp] := c;
      sp2 := sp + 1;
      assert genbuf[..sp2] == before + [c];
      if sp2 >= genbuf.Length {
        ghost var full := genbuf[..sp2];
        genbuf := GrowBuffer(genbuf, genbuf.Length + 1024);
        assert genbuf[..sp2] == full;
      }
    }

    /** The registers describe the match f of the line, with its captures inside. */
    ghost predicate Describes(vars: StepVars, f: Found, items: seq<Item>)
      reads this, vars
    {
      && vars.Valid() && f.Found? && f == Found(f.start, f.end, vars.Registers())
      && vars.loc1 == f.start <= f.end == vars.loc2 && f.end <= lspend
      && Inside(Some((f.end, f.regs)), items, {})
    }

    /** One piece of the replacement text at rp: "&", an escape or a character. */
    method PutPiece(rhs: seq<byte>, rp: nat, sp: nat, vars: StepVars, ghost items: seq<Item>, ghost f: Found)
      returns (rp2: nat, sp2: nat, ghost add: seq<byte>)
      requires Valid() && sp < genbuf.Length && Describes(vars, f, items)
      requires rp < |rhs| && RhsOk(rhs[rp..], items)
      modifies this`genbuf, genbuf
      ensures Valid() && (genbuf == old(genbuf) || fresh(genbuf))
      ensures sp2 < genbuf.Length && genbuf[..sp2] == old(genbuf[..sp]) + add
      ensures rp < rp2 <= |rhs| && RhsOk(rhs[rp2..], items)
      ensures Expand(rhs[rp..], Line(), f) == add + Expand(rhs[rp2..], Line(), f)
    {
      var c := rhs[rp];
      ghost var rest := rhs[rp..];
      rp2 := rp + 1;
      RestAt(rhs, rp);
      if c == AMPERSAND {
        sp2 := Place(sp, vars.loc1, vars.loc2);
        add := Line()[f.start..f.end];
      } else if c == BACKSLASH {
        c := rhs[rp2];
        rp2 := rp2 + 1;
        if ONE <= c <= NINE {
          sp2 := Place(sp, vars.braslist[c - ONE], vars.braelist[c - ONE]);
          add := Line()[f.regs.bra[c - ONE]..f.regs.ket[c - ONE]];
        } else {
          sp2 := PutChar(sp, c);
          add := [c];
        }
      } else {
        sp2 := PutChar(sp, c);
        add := [c];
      }
      assert add == FirstPiece(rest, Line(), f) && rhs[rp2..] == Remaining(rest);
    }

    /** Fill genbuf with the line up to loc1 and the expanded replacement text. */
    method BuildHead(rhs: seq<byte>, vars: StepVars, ghost items: seq<Item>, ghost f: Found) returns (sp: nat)
      requires Valid() && Describes(vars, f, items) && RhsOk(rhs, items)
      modifies this`genbuf, genbuf
      ensures Valid() && (genbuf == old(genbuf) || fresh(genbuf))
      ensures sp < genbuf.Length && genbuf[..sp] == Line()[..f.start] + Expand(rhs, Line(), f)
    {
      ghost var line := Line();
      sp := Place(0, 0, vars.loc1);
      var rp := 0;
      ghost var done: seq<byte> := [];
      Assoc([], [], line[..f.start]);
      Assoc([], [], Expand(rhs, line, f));
      assert rhs[0..] == rhs;
      while rp < |rhs|
        invariant rp <= |rhs| && Valid() && (genbuf == old(genbuf) || fresh(genbuf))
        invariant RhsOk(rhs[rp..], items)
        invariant sp < genbuf.Length && genbuf[..sp] == line[..f.start] + done
        invariant Expand(rhs, line, f) == done + Expand(rhs[rp..], line, f)
      {
        ghost var add;
        rp, sp, add := PutPiece(rhs, rp, sp, vars, items, f);
        Assoc(done, add, Expand(rhs[rp..], line, f));
        Assoc(line[..f.start], done, add);
        done := done + add;
      }
      Assoc(done, [], []);
    }

    /** Append the line from lp on, with its NUL, at sp of genbuf. */
    method AppendTail(lp: nat, sp: nat) returns (sp2: nat)
      requires Valid() && sp <= genbuf.Length && lp <= lspend
      modifies this`genbuf, genbuf
      ensures Valid() && (genbuf == old(genbuf) || fresh(genbuf))
      ensures sp2 < genbuf.Length && genbuf[sp2] == 0 && genbuf[..sp2] == old(genbuf[..sp]) + Line()[lp..]
    {
      var len := StrLen(linebuf, lp, lspend - lp);
      genbuf := AppendBytes(genbuf, sp, linebuf, lp, len + 1, sp + len + 1);
      sp2 := sp + len;
      assert linebuf[lp..lp + (len + 1)] == Line()[lp..] + [0];
      LastByte(genbuf[..sp2 + 1], old(genbuf[..sp]), Line()[lp..]);
      assert genbuf[..sp2 + 1][..sp2] == genbuf[..sp2] && genbuf[..sp2 + 1][sp2] == genbuf[sp2];
    }

    /** Replace the line by the C string of length n in genbuf; the buffer moves if it is too small. */
    method CopyToLine(ghost n: nat)
      requires Valid() && n < genbuf.Length && genbuf[n] == 0 && NulFree(genbuf[..n])
      modifies this`linebuf, this`lspend, linebuf
      ensures Valid() && genbuf[..] == old(genbuf[..]) && Line() == genbuf[..n]
      ensures n < old(linebuf.Length) ==> linebuf == old(linebuf)
      ensures n >= old(linebuf.Length) ==> fresh(linebuf)
    {
      assert forall i :: 0 <= i < n ==> genbuf[i] == genbuf[..n][i];
      var len := StrLen(genbuf, 0, n);
      linebuf := GrowBuffer(linebuf, len + 1);
      CopyBytes(genbuf, 0, linebuf, 0, len + 1);
      lspend := len;
      assert linebuf[0..0 + (len + 1)][len] == 0;
      assert linebuf[..len] == linebuf[0..0 + (len + 1)][..len];
      assert genbuf[0..0 + (len + 1)][..len] == genbuf[..len];
    }

    /** Rewrite the line for the match f, its number k, unless a count n asks for another match. loc2
        becomes the offset behind the replacement, as computed before the line is copied back. */
    method Dosub(rhs: seq<byte>, n: nat, vars: StepVars, ghost items: seq<Item>, ghost f: Found, ghost k: nat)
      requires Valid() && Describes(vars, f, items) && RhsOk(rhs, items)
      requires 0 < n < GLOBAL ==> numpass + 1 == k
      modifies this, linebuf, genbuf, vars`loc2
      ensures Valid() && (linebuf == old(linebuf) || fresh(linebuf)) && (genbuf == old(genbuf) || fresh(genbuf))
      ensures 0 < n < GLOBAL ==> numpass == k
      ensures sflag == (old(sflag) || Chosen(n, k))
      ensures 0 < n < 999 && n != k ==> Line() == old(Line()) && vars.loc2 == f.end && sflag == old(sflag)
      ensures !(0 < n < 999 && n != k) ==>
        Line() == old(Line())[..f.start] + Expand(rhs, old(Line()), f) + old(Line())[f.end..] && sflag
      ensures var head := old(Line())[..f.start] + Piece(old(Line()), f, k, n, rhs);
        vars.loc2 == |head| && Line() == head + old(Line())[f.end..]
      ensures |Line()| < old(linebuf.Length) ==> linebuf == old(linebuf)
    {
      ghost var line := Line();
      if 0 < n < 999 {
        numpass := numpass + 1;
        if n != numpass {
          Unreplaced(line, f);
          return;
        }
      }
      sflag := true;
      var sp := BuildHead(rhs, vars, items, f);
      ghost var head := genbuf[..sp];
      var lp := vars.loc2;
      vars.loc2 := sp;
      sp := AppendTail(lp, sp);
      RewrittenNulFree(line, f, rhs, items, head + line[lp..]);
      CopyToLine(sp);
    }

    /** Match the pattern at expbuf (its first byte tells whether it is anchored) against the line: from
        the start with null locs, or again from loc2, which an anchored pattern refuses. */
    method MatchLine(code: seq<byte>, expbuf: nat, gf: bool, vars: StepVars, ghost items: seq<Item>) returns (ok: bool)
      requires Valid() && vars.Valid() && expbuf < |code| && Encodes(code, expbuf + 1, items) && Scoped(items, {}, {})
      requires gf ==> 0 <= vars.loc2 <= lspend
      modifies vars
      ensures vars.Valid()
      ensures gf && code[expbuf] != 0 ==> !ok
      ensures !(gf && code[expbuf] != 0) ==>
        var pos := if gf then old(vars.loc2) else 0;
        var f := Step(items, code[expbuf] != 0, Line(), pos, old(vars.Registers()), if gf then pos else -1);
        ok == f.Found? && (ok ==> Describes(vars, f, items))
    {
      var p1 := 0;
      if gf {
        if code[expbuf] != 0 {
          return false;
        }
        p1 := vars.loc2;
        vars.locs := p1;
      } else {
        vars.locs := -1;
      }
      var z := linebuf[..lspend + 1];
      assert Text(z) == Line();
      FoundInside(items, code[expbuf] != 0, Line(), p1, vars.Registers(), vars.locs);
      ok := SedStep(z, p1, code, expbuf + 1, code[expbuf] != 0, vars, items);
    }

    /** One turn of the replacement loop: find the next match behind loc2 and rewrite the line for it.
        The original line, what is done of it and the number of this match are ghost. */
    method Again(code: seq<byte>, expbuf: nat, rhs: seq<byte>, gfl: nat, vars: StepVars, ghost items: seq<Item>,
                ghost line: seq<byte>, ghost pos: nat, ghost out: seq<byte>, ghost k: nat, ghost r0: Regs)
      returns (found: bool, ghost f: Found)
      requires Valid() && vars.Valid() && expbuf < |code| && Encodes(code, expbuf + 1, items) && Scoped(items, {}, {})
      requires RhsOk(rhs, items) && gfl != 0 && ValidRegs(r0)
      requires pos < |line| && Line() == out + line[pos..] && vars.loc2 == |out|
      requires 0 < gfl < GLOBAL ==> numpass == k - 1
      requires k > 0
      modifies this, linebuf, genbuf, vars
      ensures Valid() && vars.Valid() && (linebuf == old(linebuf) || fresh(linebuf))
      ensures (genbuf == old(genbuf) || fresh(genbuf))
      ensures f == FirstMatch(items, line, pos, r0, pos) && found == (code[expbuf] == 0 && f.Found?)
      ensures !found ==> linebuf == old(linebuf) && Line() == old(Line()) && sflag == old(sflag)
      ensures found ==>
        var out2 := out + (Slice(line, pos, f.start) + Piece(line, f, k, gfl, rhs));
        && f.end <= |line| && Line() == out2 + line[f.end..] && vars.loc2 == |out2|
        && (0 < gfl < GLOBAL ==> numpass == k)
        && sflag == (old(sflag) || Chosen(gfl, k))
        && (|Line()| < old(linebuf.Length) ==> linebuf == old(linebuf))
    {
      ghost var cur, r1 := Line(), vars.Registers();
      f := FirstMatch(items, line, pos, r0, pos);
      ghost var f1 := FirstMatch(items, cur, |out|, r1, |out|);
      TurnFound(line, pos, out, cur, items, k, gfl, rhs, r0, r1);
      found := MatchLine(code, expbuf, true, vars, items);
      if found {
        Dosub(rhs, gfl, vars, items, f1, k);
      }
    }

    /** The state of the replacement loop before match number k: the line is what is done followed by
        the original from pos on, and total is what it will become. */
    ghost predicate InLoop(vars: StepVars, items: seq<Item>, line: seq<byte>, pos: nat, out: seq<byte>, k: nat,
                           gfl: nat, rhs: seq<byte>, r0: Regs, total: seq<byte>, n: nat)
      reads this, linebuf, vars
    {
      && lspend <= linebuf.Length && pos <= |line| && Line() == out + line[pos..] && vars.loc2 == |out|
      && k > 1 && (0 < gfl < GLOBAL ==> numpass == k - 1) && sflag == AnyChosen(gfl, k - 1)
      && Productive(items) && ValidRegs(r0)
      && Underway(items, line, pos, out, k, gfl, rhs, r0, linebuf.Length, total, n)
    }

    /** loc2 stands on the terminating NUL exactly when all of the original line has been gone through,
        and then the line is complete. */
    lemma LoopEnd(vars: StepVars, items: seq<Item>, line: seq<byte>, pos: nat, out: seq<byte>, k: nat,
                  gfl: nat, rhs: seq<byte>, r0: Regs, total: seq<byte>, n: nat)
      requires Valid() && InLoop(vars, items, line, pos, out, k, gfl, rhs, r0, total, n)
      ensures 0 <= vars.loc2 <= lspend && (linebuf[vars.loc2] == 0 <==> pos == |line|)
      ensures pos == |line| ==> Line() == total && sflag == AnyChosen(gfl, n)
    {
      assert lspend == |Line()| == |out| + (|line| - pos);
      assert vars.loc2 < lspend ==> linebuf[vars.loc2] == linebuf[..lspend][vars.loc2];
      if pos == |line| {
        UnderwayEnd(items, line, pos, out, k, gfl, rhs, r0, linebuf.Length, total, n);
      }
    }

    /** One turn of the loop while text remains behind loc2. */
    method LoopTurn(code: seq<byte>, re1: nat, rhs: seq<byte>, gfl: nat, vars: StepVars, ghost items: seq<Item>,
                    ghost line: seq<byte>, ghost pos: nat, ghost out: seq<byte>, ghost k: nat, ghost r0: Regs,
                    ghost total: seq<byte>, ghost n: nat)
      returns (found: bool, ghost pos2: nat, ghost out2: seq<byte>)
      requires Valid() && vars.Valid() && re1 < |code| && Encodes(code, re1 + 1, items) && Scoped(items, {}, {})
      requires RhsOk(rhs, items) && gfl != 0 && code[re1] == 0
      requires InLoop(vars, items, line, pos, out, k, gfl, rhs, r0, total, n) && pos < |line|
      modifies this, linebuf, genbuf, vars
      ensures Valid() && vars.Valid() && linebuf == old(linebuf) && (genbuf == old(genbuf) || fresh(genbuf))
      ensures found ==> pos < pos2 && InLoop(vars, items, line, pos2, out2, k + 1, gfl, rhs, r0, total, n)
      ensures !found ==> Line() == total && sflag == AnyChosen(gfl, n)
    {
      ghost var f;
      if FirstMatch(items, line, pos, r0, pos).Found? {
        UnderwayStep(items, line, pos, out, k, gfl, rhs, r0, linebuf.Length, total, n);
      } else {
        UnderwayEnd(items, line, pos, out, k, gfl, rhs, r0, linebuf.Length, total, n);
      }
      found, f := Again(code, re1, rhs, gfl, vars, items, line, pos, out, k, r0);
      pos2, out2 := pos, out;
      if found {
        out2 := out + (Slice(line, pos, f.start) + Piece(line, f, k, gfl, rhs));
        pos2 := f.end;
      }
    }

    /** The loop of a global or counted s command: as long as text remains behind loc2, match again. */
    method Repeat(code: seq<byte>, re1: nat, rhs: seq<byte>, gfl: nat, vars: StepVars, ghost items: seq<Item>,
                  ghost line: seq<byte>, ghost pos0: nat, ghost out0: seq<byte>, ghost r0: Regs,
                  ghost total: seq<byte>, ghost n: nat)
      requires Valid() && vars.Valid() && re1 < |code| && Encodes(code, re1 + 1, items) && Scoped(items, {}, {})
      requires RhsOk(rhs, items) && gfl != 0 && code[re1] == 0
      requires InLoop(vars, items, line, pos0, out0, 2, gfl, rhs, r0, total, n)
      modifies this, linebuf, genbuf, vars
      ensures Valid() && vars.Valid() && Line() == total && sflag == AnyChosen(gfl, n)
    {
      ghost var pos, out, k := pos0, out0, 2;
      LoopEnd(vars, items, line, pos, out, k, gfl, rhs, r0, total, n);
      while linebuf[vars.loc2] != 0
        invariant Valid() && vars.Valid() && linebuf == old(linebuf) && (genbuf == old(genbuf) || fresh(genbuf))
        invariant InLoop(vars, items, line, pos, out, k, gfl, rhs, r0, total, n)
        invariant 0 <= vars.loc2 <= lspend && (linebuf[vars.loc2] == 0 <==> pos == |line|)
        invariant pos == |line| ==> Line() == total && sflag == AnyChosen(gfl, n)
        decreases |line| - pos
      {
        var found;
        found, pos, out := LoopTurn(code, re1, rhs, gfl, vars, items, line, pos, out, k, r0, total, n);
        if !found {
          return;
        }
        k := k + 1;
        LoopEnd(vars, items, line, pos, out, k, gfl, rhs, r0, total, n);
      }
    }

    /** The first match and its replacement: f is that match. */
    method First(code: seq<byte>, re1: nat, rhs: seq<byte>, gfl: nat, vars: StepVars, ghost items: seq<Item>,
                 ghost f: Found)
      returns (found: bool)
      requires Valid() && vars.Valid() && re1 < |code| && Encodes(code, re1 + 1, items) && Scoped(items, {}, {})
      requires RhsOk(rhs, items) && f == Step(items, code[re1] != 0, Line(), 0, vars.Registers(), -1)
      modifies this, linebuf, genbuf, vars
      ensures Valid() && vars.Valid() && (linebuf == old(linebuf) || fresh(linebuf))
      ensures (genbuf == old(genbuf) || fresh(genbuf))
      ensures found == f.Found?
      ensures !found ==> Line() == old(Line()) && sflag == old(sflag)
      ensures found ==>
        var out := old(Line())[..f.start] + Piece(old(Line()), f, 1, gfl, rhs);
        && f.start <= f.end <= |old(Line())| && Line() == out + old(Line())[f.end..] && vars.loc2 == |out|
        && (0 < gfl < GLOBAL ==> numpass == 1) && sflag == AnyChosen(gfl, 1)
        && (|Line()| < old(linebuf.Length) ==> linebuf == old(linebuf))
    {
      found := MatchLine(code, re1, false, vars, items);
      if found {
        numpass, sflag := 0, false;
        Dosub(rhs, gfl, vars, items, f, 1);
      }
    }

    /** The s command. The line rewritten match by match in place is the original line with the chosen
        ones of its matches replaced: all of them for g, the n-th for a count, the first otherwise. */
    method Substitute(code: seq<byte>, re1: nat, rhs: seq<byte>, gfl: nat, vars: StepVars, ghost items: seq<Item>)
      returns (changed: bool)
      requires Valid() && vars.Valid() && re1 < |code| && Encodes(code, re1 + 1, items) && Scoped(items, {}, {})
      requires RhsOk(rhs, items) && Repeatable(items, code[re1] != 0, gfl)
      requires gfl != 0 ==>
        Fits(Line(), 0, 0, AllMatches(items, code[re1] != 0, gfl, Line(), vars.Registers()), 1, gfl, rhs,
             linebuf.Length)
      modifies this, linebuf, genbuf, vars
      ensures Valid() && vars.Valid()
      ensures var ms := AllMatches(items, code[re1] != 0, gfl, old(Line()), old(vars.Registers()));
        && Line() == Splice(old(Line()), 0, ms, 1, gfl, rhs)
        && changed == AnyChosen(gfl, |ms|)
        && sflag == if ms == [] then old(sflag) else changed
      ensures var ms := AllMatches(items, code[re1] != 0, gfl, old(Line()), old(vars.Registers()));
        InOrder(old(Line()), 0, ms) && Outcome(old(Line()), ms, gfl, rhs, Line(), changed)
    {
      ghost var line, r0, circf := Line(), vars.Registers(), code[re1] != 0;
      ghost var ms := AllMatches(items, circf, gfl, line, r0);
      ghost var f := Step(items, circf, line, 0, r0, -1);
      ghost var total := Splice(line, 0, ms, 1, gfl, rhs);
      MatchesStart(items, circf, gfl, line, r0, rhs, linebuf.Length);
      MatchesInOrder(items, circf, gfl, line, r0);
      SpliceOutcome(line, ms, gfl, rhs);
      var found := First(code, re1, rhs, gfl, vars, items, f);
      if found && gfl != 0 && code[re1] == 0 {
        Repeat(code, re1, rhs, gfl, vars, items, line, f.end, line[..f.start] + Piece(line, f, 1, gfl, rhs), r0, total,
               |ms|);
      }
      changed := found && sflag;
    }
  }

  lemma Unreplaced(cur: seq<byte>, f: Found)
    requires f.Found? && f.start <= f.end <= |cur|
    ensures cur == (cur[..f.start] + Slice(cur, f.start, f.end)) + cur[f.end..]
    ensures |cur[..f.start] + Slice(cur, f.start, f.end)| == f.end
  {
  }

  lemma {:induction false} ExpandNulFree(rhs: seq<byte>, line: seq<byte>, f: Found, items: seq<Item>)
    requires RhsOk(rhs, items) && NulFree(line)
    ensures NulFree(Expand(rhs, line, f))
    decreases |rhs|
  {
    if rhs != [] && f.Found? {
      ExpandNulFree(Remaining(rhs), line, f, items);
    }
  }

  lemma RewrittenNulFree(line: seq<byte>, f: Found, rhs: seq<byte>, items: seq<Item>, new_: seq<byte>)
    requires NulFree(line) && f.Found? && f.start <= f.end <= |line| && RhsOk(rhs, items)
    requires new_ == line[..f.start] + Expand(rhs, line, f) + line[f.end..]
    ensures NulFree(new_)
  {
    ExpandNulFree(rhs, line, f, items);
  }
}
