/** The preprocessor's scan buffer. Input is scanned in a buffer that can be refilled at its right end and
    pushed back into at its left; what does not fit waits in side buffers, and files wait for the files they
    include. Together they are one character sequence: the input that remains. */
module CppScanBuffer {
  import opened Bytes

  const BUFFERSIZ := 8192
  const SYMLEN := 128
  const MAXFRE := 14
  const MAXINC := 16

  // ---------------------------------------------------------------- the input that remains

  /** The side buffers of the current file, the rest of it, and so on for the files that include it. inctop
      tells how many side buffers belong to the files before. */
  function Pending(sides: seq<seq<byte>>, inctop: seq<nat>, files: seq<seq<byte>>): seq<byte>
    requires |inctop| == |files|
    decreases |files|, |sides|
  {
    if files == [] then []
    else if |sides| > inctop[|inctop| - 1] then sides[|sides| - 1] + Pending(sides[..|sides| - 1], inctop, files)
    else files[|files| - 1] + Pending(sides, inctop[..|inctop| - 1], files[..|files| - 1])
  }

  lemma PendingSide(sides: seq<seq<byte>>, t: seq<byte>, inctop: seq<nat>, files: seq<seq<byte>>)
    requires |inctop| == |files| > 0 && inctop[|inctop| - 1] <= |sides|
    ensures Pending(sides + [t], inctop, files) == t + Pending(sides, inctop, files)
  {
    assert (sides + [t])[..|sides + [t]| - 1] == sides;
  }

  lemma PendingFile(sides: seq<seq<byte>>, inctop: seq<nat>, files: seq<seq<byte>>, file: seq<byte>)
    requires |inctop| == |files|
    ensures Pending(sides, inctop + [|sides|], files + [file]) == file + Pending(sides, inctop, files)
  {
    assert (inctop + [|sides|])[..|inctop + [|sides|]| - 1] == inctop;
    assert (files + [file])[..|files + [file]| - 1] == files;
  }

  /** Part of the current file has been read. */
  lemma PendingRead(sides: seq<seq<byte>>, inctop: seq<nat>, files: seq<seq<byte>>, n: nat)
    requires |inctop| == |files| > 0 && inctop[|inctop| - 1] >= |sides| && n <= |files[|files| - 1]|
    ensures var last := |files| - 1;
      Pending(sides, inctop, files) == files[last][..n] + Pending(sides, inctop, files[last := files[last][n..]])
  {
    var last := |files| - 1;
    var file, files2 := files[last], files[last := files[last][n..]];
    assert files2[..last] == files[..last];
    assert file == file[..n] + file[n..];
    Assoc(file[..n], file[n..], Pending(sides, inctop[..last], files[..last]));
  }

  /** The marks of the files never pass one another. */
  predicate Nested(inctop: seq<nat>, top: nat) {
    inctop == [] || (inctop[|inctop| - 1] <= top && Nested(inctop[..|inctop| - 1], inctop[|inctop| - 1]))
  }

  lemma NestedMore(inctop: seq<nat>, top: nat)
    requires Nested(inctop, top)
    ensures Nested(inctop + [top], top)
  {
    assert (inctop + [top])[..|inctop + [top]| - 1] == inctop;
  }

  /** The text from p to end is what is kept of it and what is saved. */
  lemma Cuts(s: seq<byte>, p: nat, op: nat, end: nat)
    requires p <= op <= end <= |s|
    ensures s[p..end] == s[p..op] + s[op..end]
    ensures NulFree(s[p..end]) ==> NulFree(s[op..end]) && NulFree(s[p..op])
  {
    var a, b := s[p..op], s[op..end];
    assert s[p..end] == a + b;
    if NulFree(s[p..end]) {
      assert forall i :: 0 <= i < |a| ==> a[i] == s[p..end][i];
      assert forall i :: 0 <= i < |b| ==> b[i] == s[p..end][|a| + i];
    }
  }

  lemma Parts(s: seq<byte>, from: nat, p: nat, end: nat)
    requires from <= p <= end <= |s|
    ensures s[from..p] == s[from..end][..p - from] && s[p..end] == s[from..end][p - from..]
  {
  }

  lemma NothingLater(sides: seq<seq<byte>>, inctop: seq<nat>, files: seq<seq<byte>>)
    requires |inctop| == |files| == 1 && inctop[0] == |sides| && files[0] == []
    ensures Pending(sides, inctop, files) == []
  {
  }

  // ---------------------------------------------------------------- operations on a plain sequence

  /** Read a character, push a text back, or go on with an included file. */
  datatype Op = Get | Unget(s: seq<byte>) | Inc(s: seq<byte>)

  predicate OpNulFree(op: Op) {
    op.Get? || NulFree(op.s)
  }

  function After(rest: seq<byte>, op: Op): seq<byte> {
    if !op.Get? then op.s + rest else if rest == [] then [] else rest[1..]
  }

  /** The characters read by the operations; everything stops at the end of the input. */
  function Reads(rest: seq<byte>, ops: seq<Op>): seq<byte>
    decreases |ops|
  {
    if ops == [] || (ops[0].Get? && rest == []) then []
    else if ops[0].Get? then [rest[0]] + Reads(After(rest, ops[0]), ops[1..])
    else Reads(After(rest, ops[0]), ops[1..])
  }

  lemma PushStep(s: seq<byte>, i: nat, rest: seq<byte>)
    requires i < |s|
    ensures [s[i]] + (s[i + 1..] + rest) == s[i..] + rest
  {
  }

  lemma ReadsFirst(rest: seq<byte>, ops: seq<Op>)
    requires ops != []
    ensures ops[0].Get? && rest == [] ==> Reads(rest, ops) == []
    ensures ops[0].Get? && rest != [] ==> Reads(rest, ops) == [rest[0]] + Reads(After(rest, ops[0]), ops[1..])
    ensures !ops[0].Get? ==> Reads(rest, ops) == Reads(After(rest, ops[0]), ops[1..])
  {
  }

  // ---------------------------------------------------------------- moving characters

  /** *--np = *--op, down to from: the part [from, op) moves right, to end at np. */
  method Slide(buf: array<byte>, from: nat, op: nat, np: nat)
    requires from <= op <= np <= buf.Length
    modifies buf
    ensures buf[np - (op - from)..np] == old(buf[from..op])
    ensures forall i :: np <= i < buf.Length ==> buf[i] == old(buf[i])
  {
    var o, n := op, np;
    while from < o
      invariant from <= o <= op && n == np - (op - o)
      invariant forall i :: 0 <= i < o ==> buf[i] == old(buf[i])
      invariant forall i :: n <= i < np ==> buf[i] == old(buf[i - (np - op)])
      invariant forall i :: np <= i < buf.Length ==> buf[i] == old(buf[i])
    {
      o, n := o - 1, n - 1;
      buf[n] := buf[o];
    }
  }

  /** *np++ = *op++: the part [op, end) moves left, to begin at np. */
  method MoveDown(buf: array<byte>, op: nat, end: nat, np: nat)
    requires np <= op <= end <= buf.Length
    modifies buf
    ensures buf[np..np + (end - op)] == old(buf[op..end])
    ensures forall i :: end <= i < buf.Length ==> buf[i] == old(buf[i])
  {
    var o, n := op, np;
    while o < end
      invariant op <= o <= end && n == np + (o - op)
      invariant forall i :: o <= i < buf.Length ==> buf[i] == old(buf[i])
      invariant forall i :: np <= i < n ==> buf[i] == old(buf[i + (op - np)])
    {
      buf[n] := buf[o];
      o, n := o + 1, n + 1;
    }
  }

  /** (*np++ = *op++) != 0: a C string is copied with its NUL. The result is where np ends. */
  method StrCopy(src: array<byte>, op: nat, dst: array<byte>, np: nat, ghost t: seq<byte>) returns (end: nat)
    requires src != dst && NulFree(t) && op + |t| < src.Length && np + |t| < dst.Length
    requires src[op..op + |t|] == t && src[op + |t|] == 0
    modifies dst
    ensures end == np + |t| + 1 && dst[np..end - 1] == t && dst[end - 1] == 0
    ensures forall i :: 0 <= i < dst.Length && !(np <= i < end) ==> dst[i] == old(dst[i])
  {
    ghost var n := |t|;
    assert forall i :: 0 <= i < n ==> src[op + i] == t[i];
    var i := 0;
    while src[op + i] != 0
      invariant 0 <= i <= n
      invariant forall j :: 0 <= j < i ==> dst[np + j] == t[j]
      invariant forall j :: 0 <= j < dst.Length && !(np <= j < np + i) ==> dst[j] == old(dst[j])
      decreases n - i
    {
      dst[np + i] := src[op + i];
      i := i + 1;
    }
    dst[np + i] := 0;
    end := np + i + 1;
  }

  // ---------------------------------------------------------------- the buffer

  /** A side buffer holds the text t, with a NUL, up to end. */
  ghost predicate Holds(side: array<byte>, end: nat, t: seq<byte>)
    reads side
  {
    end == |t| + 1 <= side.Length && side[..|t|] == t && side[|t|] == 0
  }

  ghost predicate Distinct(a: seq<array<byte>>, b: seq<array<byte>>) {
    && (forall i, j :: 0 <= i < j < |a| ==> a[i] != a[j]) && (forall i, j :: 0 <= i < j < |b| ==> b[i] != b[j])
    && (forall i, j :: 0 <= i < |a| && 0 <= j < |b| ==> a[i] != b[j])
  }

  class ScanBuffer {
    const pbeg: nat
    const buffer: array<byte>
    var pend: nat
    var inp: nat
    var outp: nat
    var instack: seq<array<byte>>     // mactop is its length
    var endbuf: seq<nat>
    var bufstack: seq<array<byte>>    // side buffers free for use
    var inctop: seq<nat>              // one for each open file
    var files: seq<seq<byte>>         // what has not been read of each
    var fout: seq<byte>
    var flslvl: nat
    ghost var sides: seq<seq<byte>>   // the texts in the side buffers
    ghost var Repr: set<array<byte>>  // the memory in use

    function Pbuf(): nat { pbeg + BUFFERSIZ }

    function Top(): nat { pbeg + BUFFERSIZ + BUFFERSIZ }

    /** The scanned text ends at pend with a NUL; there is a NUL at the very end as well. */
    ghost predicate Buffer()
      reads this`pend, buffer
    {
      && buffer.Length == 2 * BUFFERSIZ + 2 * SYMLEN && 0 < pbeg <= SYMLEN
      && Pbuf() <= pend <= Top() && buffer[pend] == 0 && buffer[Top()] == 0
    }

    /** These are side buffers, not the buffer itself. */
    ghost predicate AllSide(s: seq<array<byte>>)
      reads this`Repr
    {
      forall i :: 0 <= i < |s| ==> s[i] in Repr && s[i] != buffer && s[i].Length == BUFFERSIZ + 1
    }

    ghost predicate Sides()
      reads this`instack, this`endbuf, this`bufstack, this`sides, this`Repr, set a | a in instack
    {
      && |instack| == |endbuf| == |sides| <= MAXFRE && |bufstack| <= MAXFRE && Distinct(instack, bufstack)
      && AllSide(instack) && AllSide(bufstack)
      && (forall k :: 0 <= k < |sides| ==>
            Holds(instack[k], endbuf[k], sides[k]) && NulFree(sides[k]) && sides[k] != [])
    }

    ghost predicate Files()
      reads this`inctop, this`files, this`sides
    {
      && 0 < |inctop| == |files| <= MAXINC && Nested(inctop, |sides|)
      && forall i :: 0 <= i < |files| ==> NulFree(files[i])
    }

    ghost predicate Valid()
      reads this, buffer, set a | a in instack
    {
      Buffer() && Sides() && Files() && buffer in Repr
    }

    /** p is a place in the scanned text. */
    ghost predicate Text(p: nat)
      reads this`pend, buffer
      requires Buffer()
    {
      pbeg <= p <= pend && NulFree(buffer[p..pend])
    }

    /** outp, inp and p are in order. */
    ghost predicate At(p: nat)
      reads this`pend, this`inp, this`outp, buffer
      requires Buffer()
    {
      pbeg <= outp <= inp <= p && Text(p)
    }

    ghost function Later(): seq<byte>
      reads this`inctop, this`files, this`sides
      requires |inctop| == |files|
    {
      Pending(sides, inctop, files)
    }

    /** The input that remains from p on. */
    ghost function Rest(p: nat): seq<byte>
      reads this`pend, this`inctop, this`files, this`sides, buffer
      requires Buffer() && p <= pend && |inctop| == |files|
    {
      buffer[p..pend] + Later()
    }

    constructor (symlen: nat, file: seq<byte>)
      requires 0 < symlen <= SYMLEN && NulFree(file)
      ensures Valid() && At(pend) && inp == pend && Rest(pend) == file && fresh(Repr)
    {
      pbeg := symlen;
      buffer := new byte[2 * BUFFERSIZ + 2 * SYMLEN](_ => 0);
      pend, inp, outp := symlen + 2 * BUFFERSIZ, symlen + 2 * BUFFERSIZ, symlen + 2 * BUFFERSIZ;
      instack, endbuf, bufstack, sides := [], [], [], [];
      inctop, files, fout, flslvl := [0], [file], [], 0;
      Repr := {buffer};
      new;
      PendingFile([], [], [], file);
      assert [] + [|sides|] == [0] && [] + [file] == [file];
      assert Rest(pend) == Later() && file + [] == file;
    }

    /** A side buffer to write to: a used one, or a new one. */
    method Take() returns (side: array<byte>)
      requires Sides()
      modifies this`bufstack, this`Repr
      ensures Sides() && side.Length == BUFFERSIZ + 1 && side != buffer && side !in instack && side !in bufstack
      ensures side in Repr && fresh(Repr - old(Repr)) && old(Repr) <= Repr
    {
      if |bufstack| > 0 {
        side := bufstack[|bufstack| - 1];
        bufstack := bufstack[..|bufstack| - 1];
      } else {
        side := new byte[BUFFERSIZ + 1](_ => 0);
        Repr := Repr + {side};
      }
    }

    /** Save the text from op to pend in a side buffer. */
    method Save(op: nat)
      requires Valid() && |instack| < MAXFRE && op < pend && pend - op <= BUFFERSIZ && NulFree(buffer[op..pend])
      modifies this`bufstack, this`instack, this`endbuf, this`sides, this`Repr, Repr - {buffer}
      ensures Sides() && Files() && fresh(Repr - old(Repr)) && buffer in Repr
      ensures sides == old(sides) + [buffer[op..pend]]
    {
      ghost var t := buffer[op..pend];
      var np := Take();
      var end := StrCopy(buffer, op, np, 0, t);
      assert np[..|t|] == np[0..end - 1];
      Stack(np, end, t);
    }

    method Stack(side: array<byte>, end: nat, ghost t: seq<byte>)
      requires Sides() && |instack| < MAXFRE && Holds(side, end, t) && NulFree(t) && t != []
      requires side in Repr && side.Length == BUFFERSIZ + 1 && side != buffer && side !in instack && side !in bufstack
      modifies this`instack, this`endbuf, this`sides
      ensures Sides() && instack == old(instack) + [side] && sides == old(sides) + [t]
    {
      instack, endbuf, sides := instack + [side], endbuf + [end], sides + [t];
      assert forall k :: 0 <= k < |old(sides)| ==> Holds(old(instack)[k], endbuf[k], sides[k]);
    }

    /** The text up to op moves right, to end at the top. */
    method Shift(p: nat, op: nat) returns (p2: nat)
      requires Buffer() && pbeg <= outp <= inp <= p <= op <= pend
      modifies this`pend, this`inp, this`outp, buffer
      ensures Buffer() && pend == Top() && pbeg <= outp <= inp <= p2 <= pend
      ensures pend - p2 == op - p && p2 - inp == p - old(inp) && p2 - outp == p - old(outp)
      ensures buffer[outp..p2] == old(buffer[outp..p]) && buffer[p2..pend] == old(buffer[p..op])
    {
      ghost var all := buffer[..];
      Slide(buffer, outp, op, Top());
      Parts(all, outp, p, op);
      pend := Top();
      var d := Top() - op;
      outp, inp, p2 := outp + d, inp + d, p + d;
      Parts(buffer[..], outp, p2, Top());
    }

    /** unfill: up to BUFFERSIZ characters at the right end go to a side buffer, and the rest moves right. */
    method Unfill(p: nat) returns (p2: nat)
      requires Valid() && At(p) && p < pend && |instack| < MAXFRE
      modifies this`bufstack, this`instack, this`endbuf, this`sides, this`pend, this`inp, this`outp, this`Repr, Repr
      ensures Valid() && At(p2) && fresh(Repr - old(Repr))
      ensures Rest(p2) == old(Rest(p)) && buffer[outp..p2] == old(buffer[outp..p]) && p2 - inp == p - old(inp)
      ensures |instack| == |old(instack)| + 1
      ensures pend == Top() && pend - p2 == if old(pend) - p <= BUFFERSIZ then 0 else old(pend) - p - BUFFERSIZ
    {
      var op := pend - BUFFERSIZ;
      if op < p {
        op := p;
      }
      SaveFrom(p, op);
      p2 := Shift(p, op);
    }

    method SaveFrom(p: nat, op: nat)
      requires Valid() && |instack| < MAXFRE && Text(p) && p <= op < pend && pend - op <= BUFFERSIZ
      modifies this`bufstack, this`instack, this`endbuf, this`sides, this`Repr, Repr - {buffer}
      ensures Sides() && Files() && fresh(Repr - old(Repr)) && buffer in Repr && |instack| == |old(instack)| + 1
      ensures buffer[p..op] + Later() == old(Rest(p)) && NulFree(buffer[p..op])
    {
      ghost var part := buffer[op..pend];
      Cuts(buffer[..], p, op, pend);
      Save(op);
      PendingSide(old(sides), part, inctop, files);
      Assoc(old(buffer[p..op]), part, old(Later()));
    }

    /** How many characters can be pushed back. */
    ghost function Capacity(p: nat): int
      reads this`instack
    {
      (p - pbeg) + (MAXFRE - |instack|) * BUFFERSIZ
    }

    /** Make room before p for a character. */
    method MakeRoom(p: nat) returns (p2: nat)
      requires Valid() && Text(p) && Capacity(p) > 0
      modifies this`bufstack, this`instack, this`endbuf, this`sides, this`pend, this`inp, this`outp, this`Repr, Repr
      ensures Valid() && Text(p2) && fresh(Repr - old(Repr)) && Capacity(p2) >= old(Capacity(p))
      ensures pbeg < p2 && Rest(p2) == old(Rest(p))
    {
      p2 := p;
      if p2 <= pbeg {
        outp, inp := p2, p2;
        p2 := Unfill(p2);
      }
    }

    /** Push a character back. */
    method Push(p: nat, c: byte) returns (p2: nat)
      requires Valid() && Text(p) && c != 0 && Capacity(p) > 0
      modifies this`bufstack, this`instack, this`endbuf, this`sides, this`pend, this`inp, this`outp, this`Repr, Repr
      ensures Valid() && Text(p2) && fresh(Repr - old(Repr)) && Capacity(p2) >= old(Capacity(p)) - 1
      ensures Rest(p2) == [c] + old(Rest(p))
    {
      p2 := MakeRoom(p);
      p2 := Prepend(p2, c);
    }

    method Prepend(p: nat, c: byte) returns (p2: nat)
      requires Buffer() && Files() && Text(p) && c != 0 && pbeg < p
      modifies buffer
      ensures p2 == p - 1 && Buffer() && Text(p2) && Rest(p2) == [c] + old(Rest(p))
    {
      p2 := p - 1;
      ghost var text := buffer[p..pend];
      buffer[p2] := c;
      assert buffer[p2..pend] == [c] + text;
      Assoc([c], text, Later());
    }

    /** Push back a text: its last character first. */
    method PushAll(p: nat, s: seq<byte>) returns (p2: nat)
      requires Valid() && Text(p) && NulFree(s) && Capacity(p) >= |s|
      modifies this`bufstack, this`instack, this`endbuf, this`sides, this`pend, this`inp, this`outp, this`Repr, Repr
      ensures Valid() && Text(p2) && fresh(Repr - old(Repr)) && Capacity(p2) >= old(Capacity(p)) - |s|
      ensures Rest(p2) == s + old(Rest(p))
    {
      p2 := p;
      var i := |s|;
      ghost var rest := Rest(p);
      assert s[i..] + rest == rest;
      while i > 0
        invariant 0 <= i <= |s| && Valid() && Text(p2) && fresh(Repr - old(Repr))
        invariant Capacity(p2) >= old(Capacity(p)) - (|s| - i) && Rest(p2) == s[i..] + rest
      {
        i := i - 1;
        PushStep(s, i, rest);
        p2 := Push(p2, s[i]);
      }
      assert s[0..] == s;
    }

    /** All the text from p on goes to side buffers. */
    method Stash(p: nat) returns (p2: nat)
      requires Valid() && At(p) && |instack| + 2 <= MAXFRE
      modifies this`bufstack, this`instack, this`endbuf, this`sides, this`pend, this`inp, this`outp, this`Repr, Repr
      ensures Valid() && At(p2) && fresh(Repr - old(Repr))
      ensures p2 == pend && Later() == old(Rest(p))
    {
      p2 := p;
      while p2 < pend
        invariant Valid() && At(p2) && fresh(Repr - old(Repr)) && Rest(p2) == old(Rest(p))
        invariant (pend - p2) + |instack| * BUFFERSIZ <= MAXFRE * BUFFERSIZ
        decreases pend - p2
      {
        p2 := Unfill(p2);
      }
      assert Rest(p2) == Later();
    }

    /** doincl, when the file has been opened: the text behind the #include line waits until file ends. */
    method Include(p: nat, file: seq<byte>) returns (p2: nat)
      requires Valid() && At(p) && NulFree(file) && |files| < MAXINC && |instack| + 2 <= MAXFRE
      modifies this`bufstack, this`instack, this`endbuf, this`sides, this`pend, this`inp, this`outp
      modifies this`inctop, this`files, this`Repr, Repr
      ensures Valid() && At(p2) && fresh(Repr - old(Repr))
      ensures p2 == pend && Rest(p2) == file + old(Rest(p))
    {
      p2 := Stash(p);
      BeginFile(file);
      assert Rest(p2) == Later();
    }

    method BeginFile(file: seq<byte>)
      requires Files() && NulFree(file) && |files| < MAXINC && |instack| == |sides|
      modifies this`inctop, this`files
      ensures Files() && Later() == file + old(Later())
    {
      PendingFile(sides, inctop, files, file);
      NestedMore(inctop, |sides|);
      inctop, files := inctop + [|instack|], files + [file];
    }

    /** dump: write what waits to be written, unless text is being skipped. */
    method Dump()
      requires Buffer() && outp <= inp <= pend
      modifies this`fout, this`outp
      ensures outp == old(outp) || outp == inp
      ensures fout == old(fout) + if flslvl == 0 then buffer[old(outp)..inp] else []
    {
      if outp == inp || flslvl != 0 {
        assert buffer[outp..inp] == [] || flslvl != 0;
        return;
      }
      fout, outp := fout + buffer[outp..inp], inp;
    }

    /** The token before p moves to where text will be read in, at pbuf. */
    method Retain(p: nat)
      requires Buffer() && pbeg <= outp <= inp <= p == pend && p - inp <= BUFFERSIZ
      modifies this`fout, this`inp, this`outp, buffer
      ensures Buffer() && pbeg <= outp == inp <= Pbuf() && Pbuf() - inp == p - old(inp)
      ensures buffer[inp..Pbuf()] == old(buffer[inp..p])
      ensures fout == old(fout) + if flslvl == 0 then old(buffer[outp..inp]) else []
    {
      Dump();
      var np := Pbuf() - (p - inp);
      MoveDown(buffer, inp, p, np);
      inp, outp := np, np;
    }

    /** Retrieve the last text pushed back. */
    method Pop()
      requires Valid() && |instack| > inctop[|inctop| - 1]
      modifies this`instack, this`endbuf, this`sides, this`bufstack, this`pend, buffer
      ensures Valid() && Repr == old(Repr)
      ensures pend > Pbuf() && forall i :: 0 <= i < Pbuf() ==> buffer[i] == old(buffer[i])
      ensures Text(Pbuf()) && Rest(Pbuf()) == old(Later())
    {
      ghost var top := |instack| - 1;
      CopyIn(instack[|instack| - 1], sides[top]);
      Unstack();
    }

    /** The text of a side buffer is copied to pbuf. */
    method CopyIn(side: array<byte>, ghost t: seq<byte>)
      requires Buffer() && side != buffer && 0 < |t| <= BUFFERSIZ && NulFree(t) && Holds(side, |t| + 1, t)
      modifies this`pend, buffer
      ensures Buffer() && Text(Pbuf()) && pend > Pbuf() && buffer[Pbuf()..pend] == t
      ensures forall i :: 0 <= i < Pbuf() ==> buffer[i] == old(buffer[i])
    {
      var np := StrCopy(side, 0, buffer, Pbuf(), t);
      pend := np - 1;
    }

    /** The side buffer on top is free again. */
    method Unstack()
      requires Sides() && Files() && |instack| > inctop[|inctop| - 1]
      modifies this`instack, this`endbuf, this`sides, this`bufstack
      ensures Sides() && Files() && Repr == old(Repr) && sides == old(sides)[..|old(sides)| - 1]
    {
      var top := |instack| - 1;
      if |bufstack| < MAXFRE {
        bufstack := bufstack + [instack[top]];
      }
      instack, endbuf, sides := instack[..top], endbuf[..top], sides[..top];
    }

    /** Read from the current file, which has not ended: as much as the system gives, at most limit. */
    method ReadFile(limit: nat)
      requires Valid() && |instack| == inctop[|inctop| - 1] && files[|files| - 1] != []
      modifies this`files, this`pend, buffer
      ensures Valid() && pend > Pbuf() && forall i :: 0 <= i < Pbuf() ==> buffer[i] == old(buffer[i])
      ensures Text(Pbuf()) && Rest(Pbuf()) == old(Later())
    {
      var last := |files| - 1;
      var n := |files[last]|;
      if n > BUFFERSIZ {
        n := BUFFERSIZ;
      }
      if 0 < limit < n {
        n := limit;
      }
      PendingRead(sides, inctop, files, n);
      ReadIn(files[last][..n]);
      files := files[last := files[last][n..]];
    }

    method ReadIn(t: seq<byte>)
      requires Buffer() && 0 < |t| <= BUFFERSIZ && NulFree(t)
      modifies this`pend, buffer
      ensures Buffer() && Text(Pbuf()) && pend > Pbuf() && buffer[Pbuf()..pend] == t
      ensures forall i :: 0 <= i < Pbuf() ==> buffer[i] == old(buffer[i])
    {
      Put(buffer, Pbuf(), t);
      assert forall i :: 0 <= i < Pbuf() ==> buffer[i] == buffer[..Pbuf()][i] == old(buffer[..Pbuf()])[i];
      pend := Pbuf() + |t|;
      buffer[pend] := 0;
      assert buffer[Pbuf()..pend] == t;
    }

    /** refill, at the end of the scanned text: the token from inp to p is kept and text read in behind it.
        There is none only when all input has been read. */
    method Refill(p: nat, limit: nat) returns (p2: nat, more: bool)
      requires Valid() && At(p) && p == pend && p - inp <= BUFFERSIZ
      modifies this, Repr
      ensures fresh(Repr - old(Repr)) && flslvl == old(flslvl)
      ensures more <==> old(Rest(p)) != []
      ensures more ==> Valid() && At(p2) && p2 < pend && Rest(p2) == old(Rest(p))
      ensures more ==> p2 - inp == p - old(inp) && buffer[inp..p2] == old(buffer[inp..p])
      ensures more ==> fout == old(fout) + if flslvl == 0 then old(buffer[outp..inp]) else []
    {
      Retain(p);
      assert old(Rest(p)) == Later();
      ghost var token := buffer[inp..Pbuf()];
      more := Load(limit);
      p2 := Pbuf();
      assert buffer[inp..p2] == token;
    }

    /** Read text in at pbuf: what was pushed back last, or the next part of a file. */
    method Load(limit: nat) returns (more: bool)
      requires Valid()
      modifies this`instack, this`endbuf, this`sides, this`bufstack, this`pend, this`files, this`inctop, buffer
      ensures Repr == old(Repr) && (more <==> old(Later()) != [])
      ensures forall i :: 0 <= i < Pbuf() ==> buffer[i] == old(buffer[i])
      ensures more ==> Valid() && pend > Pbuf() && Text(Pbuf()) && Rest(Pbuf()) == old(Later())
    {
      while |instack| == inctop[|inctop| - 1] && files[|files| - 1] == []
        invariant Valid() && Later() == old(Later()) && Repr == old(Repr) && buffer[..] == old(buffer[..])
        decreases |files|
      {
        if |files| == 1 {
          NothingLater(sides, inctop, files);
          return false;
        }
        EndOfFile();
      }
      if |instack| > inctop[|inctop| - 1] {
        Pop();
      } else {
        ReadFile(limit);
      }
      more := true;
    }

    /** An included file has ended: back to the one that includes it. */
    method EndOfFile()
      requires Files() && |files| > 1 && |sides| == inctop[|inctop| - 1] && files[|files| - 1] == []
      modifies this`files, this`inctop
      ensures Files() && Later() == old(Later()) && |files| == |old(files)| - 1
    {
      var last := |files| - 1;
      Assoc([], [], Pending(sides, inctop[..last], files[..last]));
      files, inctop := files[..last], inctop[..last];
    }

    /** The next character of the input. */
    method Next(p: nat, limit: nat) returns (p2: nat, c: Option<byte>)
      requires Valid() && At(p) && inp == p
      modifies this, Repr
      ensures fresh(Repr - old(Repr))
      ensures old(Rest(p)) == [] ==> c == None
      ensures old(Rest(p)) != [] ==> Valid() && At(p2) && c == Some(old(Rest(p))[0]) && Rest(p2) == old(Rest(p))[1..]
    {
      p2 := p;
      if p2 >= pend {
        var more;
        p2, more := Refill(p2, limit);
        if !more {
          return p2, None;
        }
      }
      c := Some(buffer[p2]);
      ghost var text := buffer[p2..pend];
      p2 := p2 + 1;
      assert buffer[p2..pend] == text[1..];
      assert (text + Later())[1..] == text[1..] + Later();
    }

    /** Scanning goes on at p. */
    method Settle(p: nat)
      requires Valid() && Text(p)
      modifies this`inp, this`outp
      ensures Valid() && At(p) && inp == p && Rest(p) == old(Rest(p))
    {
      outp, inp := p, p;
    }

    /** There is room for what the operation needs. */
    predicate Fits(p: nat, op: Op)
      reads this`instack, this`files
    {
      match op
      case Get => true
      case Unget(s) => (p - pbeg) + (MAXFRE - |instack|) * BUFFERSIZ >= |s|
      case Inc(_) => |files| < MAXINC && |instack| + 2 <= MAXFRE
    }

    method Perform(p: nat, op: Op, limit: nat) returns (p2: nat, c: Option<byte>)
      requires Valid() && At(p) && inp == p && Fits(p, op) && OpNulFree(op)
      modifies this, Repr
      ensures fresh(Repr - old(Repr))
      ensures c == if op.Get? && old(Rest(p)) != [] then Some(old(Rest(p))[0]) else None
      ensures op.Get? && c.None? <==> op.Get? && old(Rest(p)) == []
      ensures !(op.Get? && c.None?) ==> Valid() && At(p2) && inp == p2 && Rest(p2) == After(old(Rest(p)), op)
    {
      c := None;
      if op.Get? {
        p2, c := Next(p, limit);
        if c.None? {
          return;
        }
      } else if op.Unget? {
        p2 := PushAll(p, op.s);
      } else {
        p2 := Include(p, op.s);
      }
      Settle(p2);
    }

    /** Any sequence of operations, up to one that there is no room for: the characters read are those that
        would be read from one plain sequence. */
    method Use(p: nat, ops: seq<Op>, limit: nat) returns (p2: nat, read: seq<byte>, todo: seq<Op>, ended: bool)
      requires Valid() && At(p) && inp == p && forall i :: 0 <= i < |ops| ==> OpNulFree(ops[i])
      modifies this, Repr
      ensures ended ==> read == Reads(old(Rest(p)), ops)
      ensures !ended ==> Valid() && At(p2) && Reads(old(Rest(p)), ops) == read + Reads(Rest(p2), todo)
      ensures !ended && todo != [] ==> !Fits(p2, todo[0])
      ensures !ended && todo != [] ==>
        match todo[0]
        case Get => false
        case Unget(s) => |s| > (p2 - pbeg) + (MAXFRE - |instack|) * BUFFERSIZ
        case Inc(_) => |files| >= MAXINC || |instack| + 2 > MAXFRE
    {
      p2, read, todo, ended := p, [], ops, false;
      Assoc([], [], Reads(Rest(p), ops));
      while todo != [] && Fits(p2, todo[0])
        invariant Valid() && At(p2) && inp == p2 && fresh(Repr - old(Repr))
        invariant forall i :: 0 <= i < |todo| ==> OpNulFree(todo[i])
        invariant Reads(old(Rest(p)), ops) == read + Reads(Rest(p2), todo)
        decreases |todo|
      {
        ReadsFirst(Rest(p2), todo);
        var c;
        p2, c := Perform(p2, todo[0], limit);
        if todo[0].Get? && c.None? {
          ended := true;
          return;
        }
        if c.Some? {
          Assoc(read, [c.value], Reads(Rest(p2), todo[1..]));
          read := read + [c.value];
        }
        todo := todo[1..];
      }
    }
  }
}
