/** Macro bodies: #define stores the body with the formals marked, and a call pushes it back onto the input
    from its end to its beginning, with an actual in place of each mark. */
module CppMacroBody {
  import opened Bytes
  import opened CppScanBuffer

  const WARN: byte := 0xFE
  const MAXFRM := 31
  const NOPARAMS: byte := 0xFF   // -1: a macro with parentheses but no parameters

  // ---------------------------------------------------------------- bodies

  /** A body is made of characters and of formals, by number. */
  datatype Piece = Lit(c: byte) | Par(k: nat)

  predicate Plain(t: seq<byte>) {
    forall i :: 0 <= i < |t| ==> t[i] != 0 && t[i] != WARN
  }

  predicate Storable(p: Piece) {
    if p.Lit? then p.c != 0 && p.c != WARN else p.k < MAXFRM
  }

  predicate AllStorable(ps: seq<Piece>) {
    forall i :: 0 <= i < |ps| ==> Storable(ps[i])
  }

  /** A formal is its number and the mark WARN, which comes first when the body is read backwards. */
  function EncPiece(p: Piece): seq<byte> {
    if p.Lit? then [p.c] else [(p.k + 1) % 256, WARN]
  }

  function Enc(ps: seq<Piece>): seq<byte> {
    if ps == [] then [] else Enc(ps[..|ps| - 1]) + EncPiece(ps[|ps| - 1])
  }

  /** The body with texts in place of the formals. */
  function Fill(ps: seq<Piece>, texts: seq<seq<byte>>): seq<byte> {
    if ps == [] then [] else Fill(ps[..|ps| - 1], texts) + FillPiece(ps[|ps| - 1], texts)
  }

  function FillPiece(p: Piece, texts: seq<seq<byte>>): seq<byte> {
    if p.Lit? then [p.c] else if p.k < |texts| then texts[p.k] else []
  }

  lemma {:induction false} FillConcat(a: seq<Piece>, b: seq<Piece>, texts: seq<seq<byte>>)
    ensures Fill(a + b, texts) == Fill(a, texts) + Fill(b, texts)
    decreases |b|
  {
    if b == [] {
      assert a + b == a;
      Assoc([], [], Fill(a, texts));
    } else {
      var init, last := b[..|b| - 1], b[|b| - 1];
      assert (a + b)[..|a + b| - 1] == a + init;
      FillConcat(a, init, texts);
      Assoc(Fill(a, texts), Fill(init, texts), FillPiece(last, texts));
    }
  }

  // ---------------------------------------------------------------- the formals of a body

  predicate IsId(c: byte) {
    65 <= c <= 90 || 97 <= c <= 122 || ZERO <= c <= NINE || c == 95
  }

  /** The last formal of that name. */
  function FindFormal(formals: seq<seq<byte>>, t: seq<byte>): (k: Option<nat>)
    ensures k.Some? ==> k.value < |formals| && formals[k.value] == t && t !in formals[k.value + 1..]
    ensures k.None? ==> t !in formals
  {
    if formals == [] then None
    else if formals[|formals| - 1] == t then Some(|formals| - 1)
    else FindFormal(formals[..|formals| - 1], t)
  }

  function Lits(t: seq<byte>): seq<Piece> {
    seq(|t|, i requires 0 <= i < |t| => Lit(t[i]))
  }

  function Word(t: seq<byte>, formals: seq<seq<byte>>): seq<Piece> {
    var k := FindFormal(formals, t);
    if k.Some? then [Par(k.value)] else Lits(t)
  }

  /** The length of the run of identifier characters, or of others, at the beginning. */
  function Run(t: seq<byte>, id: bool): (n: nat)
    ensures n <= |t| && forall i :: 0 <= i < n ==> IsId(t[i]) == id
    ensures n < |t| ==> IsId(t[n]) != id
  {
    if t == [] || IsId(t[0]) != id then 0 else 1 + Run(t[1..], id)
  }

  /** The rest of a quotation: names in it are looked at as well, up to the closing quote. */
  function Quoted(quoc: byte, t: seq<byte>, formals: seq<seq<byte>>): seq<Piece>
    decreases |t|
  {
    if t == [] || t[0] == quoc then Lits(t)
    else
      var n := Run(t, false);
      var m := Run(t[n..], true);
      Lits(t[..n]) + Word(t[n..n + m], formals) + Quoted(quoc, t[n + m..], formals)
  }

  /** An escaped newline. */
  predicate Continuation(tok: seq<byte>) {
    |tok| >= 2 && tok[0] == BACKSLASH && tok[1] == NEWLINE
  }

  /** What a token of the body becomes. */
  function TokenPieces(tok: seq<byte>, formals: seq<seq<byte>>, params: byte): seq<Piece> {
    if tok == [] || Continuation(tok) then []
    else if params == 0 then Lits(tok)
    else if IsId(tok[0]) && !(ZERO <= tok[0] <= NINE) then Word(tok, formals)
    else if tok[0] == QUOTE || tok[0] == APOSTROPHE then [Lit(tok[0])] + Quoted(tok[0], tok[1..], formals)
    else Lits(tok)
  }

  predicate Tokens(toks: seq<seq<byte>>) {
    forall i :: 0 <= i < |toks| ==> toks[i] != [] && Plain(toks[i])
  }

  function Body(toks: seq<seq<byte>>, formals: seq<seq<byte>>, params: byte): seq<Piece> {
    if toks == [] then []
    else Body(toks[..|toks| - 1], formals, params) + TokenPieces(toks[|toks| - 1], formals, params)
  }

  /** The text of the body, as written. */
  function Text(toks: seq<seq<byte>>): seq<byte> {
    if toks == [] then []
    else Text(toks[..|toks| - 1]) + if Continuation(toks[|toks| - 1]) then [] else toks[|toks| - 1]
  }

  lemma {:induction false} FillLits(t: seq<byte>, texts: seq<seq<byte>>)
    ensures Fill(Lits(t), texts) == t
    decreases |t|
  {
    if t != [] {
      var ps, init := Lits(t), t[..|t| - 1];
      assert ps[..|ps| - 1] == Lits(init);
      FillLits(init, texts);
      assert t == init + [t[|t| - 1]];
    }
  }

  lemma FillWord(t: seq<byte>, formals: seq<seq<byte>>)
    ensures Fill(Word(t, formals), formals) == t
  {
    var k := FindFormal(formals, t);
    if k.Some? {
      var ps := [Par(k.value)];
      assert ps[..|ps| - 1] == [];
      Assoc([], [], t);
    } else {
      FillLits(t, formals);
    }
  }

  lemma InThree(t: seq<byte>, n: nat, m: nat)
    requires n + m <= |t|
    ensures t == t[..n] + t[n..n + m] + t[n + m..]
  {
  }

  lemma {:induction false} FillQuoted(quoc: byte, t: seq<byte>, formals: seq<seq<byte>>)
    ensures Fill(Quoted(quoc, t, formals), formals) == t
    decreases |t|
  {
    if t == [] || t[0] == quoc {
      FillLits(t, formals);
    } else {
      var n := Run(t, false);
      var m := Run(t[n..], true);
      var a, b, c := Lits(t[..n]), Word(t[n..n + m], formals), Quoted(quoc, t[n + m..], formals);
      FillLits(t[..n], formals);
      FillWord(t[n..n + m], formals);
      FillQuoted(quoc, t[n + m..], formals);
      FillConcat(a + b, c, formals);
      FillConcat(a, b, formals);
      InThree(t, n, m);
    }
  }

  lemma FillToken(tok: seq<byte>, formals: seq<seq<byte>>, params: byte)
    ensures Fill(TokenPieces(tok, formals, params), formals) == if Continuation(tok) then [] else tok
  {
    FillLits(tok, formals);
    FillWord(tok, formals);
    if tok != [] {
      FillQuotation(tok[0], tok[1..], formals);
      assert tok == [tok[0]] + tok[1..];
    }
  }

  lemma FillQuotation(quoc: byte, t: seq<byte>, formals: seq<seq<byte>>)
    ensures Fill([Lit(quoc)] + Quoted(quoc, t, formals), formals) == [quoc] + t
  {
    assert [Lit(quoc)] == Lits([quoc]);
    FillLits([quoc], formals);
    FillQuoted(quoc, t, formals);
    FillConcat([Lit(quoc)], Quoted(quoc, t, formals), formals);
  }

  /** With the formals' own names for actuals, the stored body is the text that was written. */
  lemma {:induction false} BodyIsText(toks: seq<seq<byte>>, formals: seq<seq<byte>>, params: byte)
    ensures Fill(Body(toks, formals, params), formals) == Text(toks)
  {
    if toks != [] {
      var init, tok := toks[..|toks| - 1], toks[|toks| - 1];
      BodyIsText(init, formals, params);
      FillToken(tok, formals, params);
      FillConcat(Body(init, formals, params), TokenPieces(tok, formals, params), formals);
    }
  }

  // ---------------------------------------------------------------- stored bodies

  lemma {:induction false} EncConcat(a: seq<Piece>, b: seq<Piece>)
    ensures Enc(a + b) == Enc(a) + Enc(b)
    decreases |b|
  {
    if b == [] {
      assert a + b == a;
      Assoc([], [], Enc(a));
    } else {
      var init, last := b[..|b| - 1], b[|b| - 1];
      assert (a + b)[..|a + b| - 1] == a + init;
      EncConcat(a, init);
      Assoc(Enc(a), Enc(init), EncPiece(last));
    }
  }

  lemma {:induction false} EncLits(t: seq<byte>)
    ensures Enc(Lits(t)) == t
    decreases |t|
  {
    if t != [] {
      var ps, init := Lits(t), t[..|t| - 1];
      assert ps[..|ps| - 1] == Lits(init);
      EncLits(init);
      assert t == init + [t[|t| - 1]];
    }
  }

  lemma StorableConcat(a: seq<Piece>, b: seq<Piece>)
    requires AllStorable(a) && AllStorable(b)
    ensures AllStorable(a + b)
  {
  }

  lemma WordStorable(t: seq<byte>, formals: seq<seq<byte>>)
    requires Plain(t) && |formals| <= MAXFRM
    ensures AllStorable(Word(t, formals))
  {
  }

  lemma LitsStorable(t: seq<byte>, n: nat)
    requires Plain(t) && n <= |t|
    ensures AllStorable(Lits(t[..n]))
  {
  }

  lemma {:induction false} QuotedStorable(quoc: byte, t: seq<byte>, formals: seq<seq<byte>>)
    requires Plain(t) && |formals| <= MAXFRM
    ensures AllStorable(Quoted(quoc, t, formals))
    decreases |t|
  {
    if t != [] && t[0] != quoc {
      var n := Run(t, false);
      var m := Run(t[n..], true);
      var a, b, c := Lits(t[..n]), Word(t[n..n + m], formals), Quoted(quoc, t[n + m..], formals);
      WordStorable(t[n..n + m], formals);
      QuotedStorable(quoc, t[n + m..], formals);
      LitsStorable(t, n);
      StorableConcat(a, b);
      StorableConcat(a + b, c);
    }
  }

  lemma {:induction false} BodyStorable(toks: seq<seq<byte>>, formals: seq<seq<byte>>, params: byte)
    requires Tokens(toks) && |formals| <= MAXFRM
    ensures AllStorable(Body(toks, formals, params))
  {
    if toks != [] {
      var init, tok := toks[..|toks| - 1], toks[|toks| - 1];
      BodyStorable(init, formals, params);
      TokenStorable(tok, formals, params);
      StorableConcat(Body(init, formals, params), TokenPieces(tok, formals, params));
    }
  }

  lemma TokenStorable(tok: seq<byte>, formals: seq<seq<byte>>, params: byte)
    requires tok != [] && Plain(tok) && |formals| <= MAXFRM
    ensures AllStorable(TokenPieces(tok, formals, params))
  {
    WordStorable(tok, formals);
    QuotedStorable(tok[0], tok[1..], formals);
  }

  /** No byte of a stored body is NUL, so scanning back stops only before it. */
  lemma {:induction false} EncNulFree(ps: seq<Piece>)
    requires AllStorable(ps)
    ensures NulFree(Enc(ps))
  {
    if ps != [] {
      EncNulFree(ps[..|ps| - 1]);
    }
  }

  /** Read backwards, a stored body is unambiguous. */
  lemma {:induction false} EncInjective(a: seq<Piece>, b: seq<Piece>)
    requires AllStorable(a) && AllStorable(b) && Enc(a) == Enc(b)
    ensures a == b
    decreases |a|
  {
    if a == [] || b == [] {
      EncEmpty(a);
      EncEmpty(b);
    } else {
      StorableInit(a);
      StorableInit(b);
      LastPiece(Enc(a[..|a| - 1]), a[|a| - 1], Enc(b[..|b| - 1]), b[|b| - 1]);
      EncInjective(a[..|a| - 1], b[..|b| - 1]);
      SameSnoc(a, b);
    }
  }

  lemma SameSnoc(a: seq<Piece>, b: seq<Piece>)
    requires a != [] && b != [] && a[..|a| - 1] == b[..|b| - 1] && a[|a| - 1] == b[|b| - 1]
    ensures a == b
  {
    assert a == a[..|a| - 1] + [a[|a| - 1]] && b == b[..|b| - 1] + [b[|b| - 1]];
  }

  lemma StorableInit(a: seq<Piece>)
    requires AllStorable(a) && a != []
    ensures AllStorable(a[..|a| - 1]) && Storable(a[|a| - 1])
    ensures Enc(a) == Enc(a[..|a| - 1]) + EncPiece(a[|a| - 1])
  {
  }

  lemma EncEmpty(ps: seq<Piece>)
    ensures Enc(ps) == [] <==> ps == []
  {
  }

  lemma LastPiece(s: seq<byte>, p: Piece, t: seq<byte>, q: Piece)
    requires Storable(p) && Storable(q) && s + EncPiece(p) == t + EncPiece(q)
    ensures p == q && s == t
  {
    var u := s + EncPiece(p);
    assert u[|u| - 1] == EncPiece(p)[|EncPiece(p)| - 1] == EncPiece(q)[|EncPiece(q)| - 1];
    if p.Par? {
      assert u[|u| - 2] == p.k + 1;
      assert u[|u| - 2] == (t + EncPiece(q))[|t + EncPiece(q)| - 2] == q.k + 1;
    }
    assert s == u[..|s|] && t == u[..|t|];
  }

  /** The number of parameters as it is stored. */
  predicate Count(params: byte) {
    params <= MAXFRM || params == NOPARAMS
  }

  /** In mem, between start and the final NUL at v, the body ps and the number of its parameters are stored. */
  predicate Stored(mem: seq<byte>, start: nat, v: nat, ps: seq<Piece>, params: byte) {
    && AllStorable(ps) && Count(params) && 0 < start < v < |mem| && mem[start - 1] == 0
    && mem[start..v - 1] == Enc(ps) && mem[v - 1] == params && mem[v] == 0
  }

  /** A stored macro as strcmp sees it. */
  function AsString(ps: seq<Piece>, params: byte): seq<byte> {
    if params == 0 then Enc(ps) else Enc(ps) + [params]
  }

  /** strcmp takes two stored macros for the same when they are, or when one has no parameters and ends
      with the character whose code is the number of parameters of the other. */
  lemma SameString(a: seq<Piece>, m: byte, b: seq<Piece>, n: byte)
    requires AllStorable(a) && AllStorable(b) && Count(m) && Count(n)
    ensures AsString(a, m) == AsString(b, n) <==>
      || (a == b && m == n)
      || (m == 0 != n && a == b + [Lit(n)])
      || (n == 0 != m && b == a + [Lit(m)])
  {
    if m == 0 && n != 0 {
      SameStringLit(a, b, n);
    } else if n == 0 && m != 0 {
      SameStringLit(b, a, m);
    } else {
      if AsString(a, m) == AsString(b, n) {
        var s := AsString(a, m);
        if m != 0 {
          assert s[|s| - 1] == m == n && Enc(a) == s[..|s| - 1] == Enc(b);
        }
        EncInjective(a, b);
      }
    }
  }

  /** A macro without parameters whose body is "x" and a tab cannot be told from one with nine parameters
      and the body "x": the code of a tab is nine. */
  lemma TabForNineParameters()
    ensures AsString([Lit(120), Lit(9)], 0) == AsString([Lit(120)], 9)
    ensures [Lit(120), Lit(9)] != [Lit(120)] && AllStorable([Lit(120), Lit(9)]) && Count(9)
  {
    assert [Lit(120), Lit(9)] == Lits([120, 9]) && [Lit(120)] == Lits([120]);
    EncLits([120, 9]);
    EncLits([120]);
  }

  lemma SameStringLit(a: seq<Piece>, b: seq<Piece>, n: byte)
    requires AllStorable(a) && AllStorable(b) && Count(n) && n != 0
    ensures Enc(a) == Enc(b) + [n] <==> a == b + [Lit(n)]
  {
    var c := b + [Lit(n)];
    assert c[..|c| - 1] == b;
    assert Enc(c) == Enc(b) + [n];
    if Enc(a) == Enc(b) + [n] {
      EncInjective(a, c);
    }
  }

  // ---------------------------------------------------------------- reading a stored body backwards

  lemma EncSplit(ps: seq<Piece>, i: nat)
    requires i <= |ps|
    ensures Enc(ps) == Enc(ps[..i]) + Enc(ps[i..])
  {
    assert ps == ps[..i] + ps[i..];
    EncConcat(ps[..i], ps[i..]);
  }

  /** What stands before the part of the body that has been read. */
  lemma BackStep(mem: seq<byte>, start: nat, v: nat, ps: seq<Piece>, params: byte, i: nat)
    requires Stored(mem, start, v, ps, params) && 0 < i <= |ps|
    ensures var e, p := start + |Enc(ps[..i])|, ps[i - 1];
      && start < e < v && start + |Enc(ps[..i - 1])| == e - |EncPiece(p)|
      && (p.Lit? ==> mem[e - 1] == p.c != WARN && p.c != 0)
      && (p.Par? ==> mem[e - 1] == WARN && e >= start + 2 && mem[e - 2] == p.k + 1)
  {
    EncSplit(ps, i);
    EncSnoc(ps, i);
    PieceBytes(ps[i - 1]);
    Located(mem, start, v - 1, Enc(ps[..i - 1]), EncPiece(ps[i - 1]), Enc(ps[i..]));
  }

  lemma PieceBytes(p: Piece)
    requires Storable(p)
    ensures EncPiece(p) == if p.Lit? then [p.c] else [p.k + 1, WARN]
  {
  }

  lemma EncSnoc(ps: seq<Piece>, i: nat)
    requires 0 < i <= |ps|
    ensures Enc(ps[..i]) == Enc(ps[..i - 1]) + EncPiece(ps[i - 1])
  {
    assert ps[..i][..i - 1] == ps[..i - 1];
  }

  lemma Located(mem: seq<byte>, start: nat, end: nat, a: seq<byte>, b: seq<byte>, c: seq<byte>)
    requires start <= end <= |mem| && mem[start..end] == (a + b) + c
    ensures start + |a| + |b| <= end
    ensures |b| > 0 ==> mem[start + |a| + |b| - 1] == b[|b| - 1]
    ensures |b| > 1 ==> mem[start + |a| + |b| - 2] == b[|b| - 2]
  {
    var all := mem[start..end];
    assert forall j :: 0 <= j < |b| ==> all[|a| + j] == b[j];
  }

  lemma FillSplit(ps: seq<Piece>, i: nat, texts: seq<seq<byte>>)
    requires 0 < i <= |ps|
    ensures Fill(ps[i - 1..], texts) == FillPiece(ps[i - 1], texts) + Fill(ps[i..], texts)
    ensures Fill(ps[..i], texts) == Fill(ps[..i - 1], texts) + FillPiece(ps[i - 1], texts)
  {
    var one := [ps[i - 1]];
    assert ps[i - 1..] == one + ps[i..];
    FillConcat(one, ps[i..], texts);
    assert one[..|one| - 1] == [];
    Assoc([], [], FillPiece(ps[i - 1], texts));
    assert ps[..i][..i - 1] == ps[..i - 1];
  }

  lemma FillRest(ps: seq<Piece>, i: nat, texts: seq<seq<byte>>, rest: seq<byte>)
    requires 0 < i <= |ps|
    ensures FillPiece(ps[i - 1], texts) + (Fill(ps[i..], texts) + rest) == Fill(ps[i - 1..], texts) + rest
    ensures |Fill(ps[..i], texts)| == |Fill(ps[..i - 1], texts)| + |FillPiece(ps[i - 1], texts)|
  {
    FillSplit(ps, i, texts);
    Assoc(FillPiece(ps[i - 1], texts), Fill(ps[i..], texts), rest);
  }

  // ---------------------------------------------------------------- storing a body

  /** The last formal of that name, or -1. */
  method SearchFormal(formals: seq<seq<byte>>, t: seq<byte>) returns (k: int)
    ensures k == if FindFormal(formals, t).Some? then FindFormal(formals, t).value else -1
  {
    k := |formals| - 1;
    assert formals[..k + 1] == formals;
    while k >= 0
      invariant -1 <= k < |formals| && FindFormal(formals[..k + 1], t) == FindFormal(formals, t)
    {
      assert formals[..k + 1][..k] == formals[..k];
      if formals[k] == t {
        return;
      }
      k := k - 1;
    }
  }

  method Scan(t: seq<byte>, id: bool) returns (n: nat)
    ensures n == Run(t, id)
  {
    n := 0;
    while n < |t| && IsId(t[n]) == id
      invariant n <= |t| && n + Run(t[n..], id) == Run(t, id)
    {
      assert t[n..][1..] == t[n + 1..];
      n := n + 1;
    }
  }

  /** Write bytes at psav. */
  method Emit(sbf: array<byte>, psav: nat, t: seq<byte>) returns (q: nat)
    requires psav + |t| <= sbf.Length
    modifies sbf
    ensures q == psav + |t| && sbf[..q] == old(sbf[..psav]) + t
  {
    Put(sbf, psav, t);
    q := psav + |t|;
    assert sbf[..q] == sbf[..psav] + sbf[psav..q];
  }

  /** A word of the body: the mark of a formal, or the word itself. */
  method EmitWord(sbf: array<byte>, psav: nat, t: seq<byte>, formals: seq<seq<byte>>) returns (q: nat)
    requires |formals| <= MAXFRM && psav + |Enc(Word(t, formals))| <= sbf.Length
    modifies sbf
    ensures q == psav + |Enc(Word(t, formals))| && sbf[..q] == old(sbf[..psav]) + Enc(Word(t, formals))
  {
    var qf := SearchFormal(formals, t);
    if qf >= 0 {
      ghost var ps := [Par(qf)];
      assert ps[..|ps| - 1] == [] && Enc(ps) == [qf + 1, WARN];
      q := Emit(sbf, psav, [qf + 1, WARN]);
    } else {
      EncLits(t);
      q := Emit(sbf, psav, t);
    }
  }

  /** The rest of a quotation. */
  method EmitQuoted(sbf: array<byte>, psav: nat, quoc: byte, t: seq<byte>, formals: seq<seq<byte>>) returns (q: nat)
    requires |formals| <= MAXFRM && psav + |Enc(Quoted(quoc, t, formals))| <= sbf.Length
    modifies sbf
    ensures q == psav + |Enc(Quoted(quoc, t, formals))| && sbf[..q] == old(sbf[..psav]) + Enc(Quoted(quoc, t, formals))
  {
    var pin := t;
    ghost var all, out := Enc(Quoted(quoc, t, formals)), [];
    q := psav;
    Assoc([], [], all);
    Assoc(sbf[..psav], [], []);
    while pin != [] && pin[0] != quoc
      invariant out + Enc(Quoted(quoc, pin, formals)) == all
      invariant q == psav + |out| && sbf[..q] == old(sbf[..psav]) + out
      decreases |pin|
    {
      var n := Scan(pin, false);
      var m := Scan(pin[n..], true);
      QuotedStep(quoc, pin, formals, n, m);
      ghost var a, b, c := pin[..n], Enc(Word(pin[n..n + m], formals)), Enc(Quoted(quoc, pin[n + m..], formals));
      Assoc(out + a, b, c);
      Assoc(out, a, b + c);
      Assoc(old(sbf[..psav]), out, a);
      Assoc(old(sbf[..psav]), out + a, b);
      q := Emit(sbf, q, pin[..n]);
      q := EmitWord(sbf, q, pin[n..n + m], formals);
      pin, out := pin[n + m..], (out + a) + b;
    }
    EncLits(pin);
    Assoc(old(sbf[..psav]), out, pin);
    q := Emit(sbf, q, pin);
  }

  lemma QuotedStep(quoc: byte, t: seq<byte>, formals: seq<seq<byte>>, n: nat, m: nat)
    requires t != [] && t[0] != quoc && n == Run(t, false) && m == Run(t[n..], true)
    ensures Enc(Quoted(quoc, t, formals)) ==
      t[..n] + (Enc(Word(t[n..n + m], formals)) + Enc(Quoted(quoc, t[n + m..], formals)))
  {
    var a, b, c := Lits(t[..n]), Word(t[n..n + m], formals), Quoted(quoc, t[n + m..], formals);
    EncConcat(a + b, c);
    EncConcat(a, b);
    EncLits(t[..n]);
    Assoc(t[..n], Enc(b), Enc(c));
  }

  /** One token of the body. */
  method EmitToken(sbf: array<byte>, psav: nat, tok: seq<byte>, formals: seq<seq<byte>>, params: byte) returns (q: nat)
    requires tok != [] && |formals| <= MAXFRM && psav + |Enc(TokenPieces(tok, formals, params))| <= sbf.Length
    modifies sbf
    ensures q == psav + |Enc(TokenPieces(tok, formals, params))|
    ensures sbf[..q] == old(sbf[..psav]) + Enc(TokenPieces(tok, formals, params))
  {
    EncLits(tok);
    if Continuation(tok) {
      Assoc(sbf[..psav], [], []);
      q := psav;
    } else if params != 0 && IsId(tok[0]) && !(ZERO <= tok[0] <= NINE) {
      q := EmitWord(sbf, psav, tok, formals);
    } else if params != 0 && (tok[0] == QUOTE || tok[0] == APOSTROPHE) {
      EncConcat([Lit(tok[0])], Quoted(tok[0], tok[1..], formals));
      assert [Lit(tok[0])] == Lits([tok[0]]);
      EncLits([tok[0]]);
      Assoc(sbf[..psav], [tok[0]], Enc(Quoted(tok[0], tok[1..], formals)));
      q := Emit(sbf, psav, [tok[0]]);
      q := EmitQuoted(sbf, q, tok[0], tok[1..], formals);
    } else {
      q := Emit(sbf, psav, tok);
    }
  }

  lemma {:induction false} BodyPrefix(toks: seq<seq<byte>>, formals: seq<seq<byte>>, params: byte, i: nat)
    requires i < |toks|
    ensures Body(toks[..i + 1], formals, params) ==
      Body(toks[..i], formals, params) + TokenPieces(toks[i], formals, params)
    ensures |Enc(Body(toks[..i + 1], formals, params))| <= |Enc(Body(toks, formals, params))|
    decreases |toks|
  {
    assert toks[..i + 1][..i] == toks[..i];
    if i + 1 < |toks| {
      var init := toks[..|toks| - 1];
      assert init[..i + 1] == toks[..i + 1] && init[..i] == toks[..i];
      BodyPrefix(init, formals, params, i);
      EncConcat(Body(init, formals, params), TokenPieces(toks[|toks| - 1], formals, params));
    } else {
      assert toks[..i + 1] == toks;
    }
  }

  lemma BodyNext(toks: seq<seq<byte>>, formals: seq<seq<byte>>, params: byte, i: nat)
    requires i < |toks|
    ensures Enc(Body(toks[..i + 1], formals, params)) ==
      Enc(Body(toks[..i], formals, params)) + Enc(TokenPieces(toks[i], formals, params))
    ensures |Enc(Body(toks[..i + 1], formals, params))| <= |Enc(Body(toks, formals, params))|
  {
    BodyPrefix(toks, formals, params, i);
    EncConcat(Body(toks[..i], formals, params), TokenPieces(toks[i], formals, params));
  }

  /** The tokens of a body, up to the end of the line. */
  method EmitBody(sbf: array<byte>, psav: nat, toks: seq<seq<byte>>, formals: seq<seq<byte>>, params: byte)
    returns (q: nat)
    requires Tokens(toks) && |formals| <= MAXFRM && psav + |Enc(Body(toks, formals, params))| <= sbf.Length
    modifies sbf
    ensures q == psav + |Enc(Body(toks, formals, params))|
    ensures sbf[..q] == old(sbf[..psav]) + Enc(Body(toks, formals, params))
  {
    q := psav;
    var i := 0;
    ghost var base := sbf[..psav];
    Assoc(base, [], []);
    while i < |toks|
      invariant 0 <= i <= |toks| && q == psav + |Enc(Body(toks[..i], formals, params))| <= sbf.Length
      invariant sbf[..q] == base + Enc(Body(toks[..i], formals, params))
    {
      BodyNext(toks, formals, params, i);
      Assoc(base, Enc(Body(toks[..i], formals, params)), Enc(TokenPieces(toks[i], formals, params)));
      q := EmitToken(sbf, q, toks[i], formals, params);
      i := i + 1;
    }
    assert toks[..i] == toks;
  }

  /** The byte before the part that has not been read is NUL only when all has been read. */
  lemma AtStart(mem: seq<byte>, start: nat, v: nat, ps: seq<Piece>, params: byte, i: nat)
    requires Stored(mem, start, v, ps, params) && i <= |ps|
    ensures var vp := start + |Enc(ps[..i])|;
      0 < vp < v && (mem[vp - 1] == 0 <==> i == 0) && (i > 0 ==> start + |Enc(ps[..i - 1])| < v)
  {
    if i > 0 {
      BackStep(mem, start, v, ps, params, i);
    }
  }

  lemma WholeBody(ps: seq<Piece>, texts: seq<seq<byte>>, rest: seq<byte>)
    ensures ps[..|ps|] == ps && ps[0..] == ps && ps[..0] == [] && Enc(ps[..0]) == []
    ensures Fill(ps[|ps|..], texts) + rest == rest
  {
  }

  predicate AllNulFree(texts: seq<seq<byte>>) {
    forall k :: 0 <= k < |texts| ==> NulFree(texts[k])
  }

  /** The C string x is at a. */
  predicate StringAt(mem: seq<byte>, a: nat, x: seq<byte>) {
    NulFree(x) && a + |x| < |mem| && mem[a..a + |x|] == x && mem[a + |x|] == 0
  }

  lemma StoredString(mem: seq<byte>, start: nat, v: nat, ps: seq<Piece>, params: byte)
    requires Stored(mem, start, v, ps, params)
    ensures StringAt(mem, start, AsString(ps, params))
  {
    EncNulFree(ps);
    assert start + |Enc(ps)| == v - 1;
    if params != 0 {
      assert mem[start..v] == mem[start..v - 1] + [params];
    }
  }

  lemma StoredStays(mem: seq<byte>, mem2: seq<byte>, n: nat, start: nat, v: nat, ps: seq<Piece>, params: byte)
    requires Stored(mem, start, v, ps, params) && v < n <= |mem| && n <= |mem2| && mem[..n] == mem2[..n]
    ensures Stored(mem2, start, v, ps, params)
  {
    assert forall i :: 0 <= i < n ==> mem[i] == mem[..n][i] == mem2[..n][i] == mem2[i];
    assert mem2[start..v - 1] == mem[start..v - 1];
  }

  lemma Parts(mem: seq<byte>, base: seq<byte>, e: seq<byte>, x: byte, y: byte)
    requires |base| + |e| + 2 <= |mem| && mem[..|base| + |e| + 2] == (base + e) + [x, y]
    ensures mem[..|base|] == base && mem[|base|..|base| + |e|] == e
    ensures mem[|base| + |e|] == x && mem[|base| + |e| + 1] == y
  {
    var all := (base + e) + [x, y];
    assert forall i :: 0 <= i < |all| ==> mem[i] == all[i];
    assert forall i :: 0 <= i < |base| ==> all[i] == base[i];
    assert forall i :: 0 <= i < |e| ==> all[|base| + i] == e[i];
    assert all[|base| + |e|] == x && all[|base| + |e| + 1] == y;
  }

  lemma NowStored(mem: seq<byte>, base: seq<byte>, ps: seq<Piece>, params: byte)
    requires base != [] && base[|base| - 1] == 0 && AllStorable(ps) && Count(params)
    requires var n := |base| + |Enc(ps)| + 2; n <= |mem| && mem[..n] == (base + Enc(ps)) + [params, 0]
    ensures Stored(mem, |base|, |base| + |Enc(ps)| + 1, ps, params) && mem[..|base|] == base
  {
    Parts(mem, base, Enc(ps), params, 0);
    assert mem[..|base|][|base| - 1] == 0;
  }

  lemma ArrayPrefix(a: array<byte>, n: nat)
    requires n <= a.Length
    ensures a[..][..n] == a[..n]
  {
  }

  /** The body, the number of parameters and the final NUL, at v. */
  method WriteMacro(sbf: array<byte>, psav: nat, toks: seq<seq<byte>>, formals: seq<seq<byte>>, params: byte)
    returns (v: nat)
    requires Tokens(toks) && |formals| <= MAXFRM && psav + |Enc(Body(toks, formals, params))| + 2 <= sbf.Length
    modifies sbf
    ensures v == psav + |Enc(Body(toks, formals, params))| + 1
    ensures sbf[..v + 1] == old(sbf[..psav]) + Enc(Body(toks, formals, params)) + [params, 0]
  {
    v := EmitBody(sbf, psav, toks, formals, params);
    v := Emit(sbf, v, [params, 0]);
    v := v - 1;
  }

  /** The body and what ends it, behind used memory that ends with a NUL. */
  method StoreAt(sbf: array<byte>, psav: nat, toks: seq<seq<byte>>, formals: seq<seq<byte>>, params: byte)
    returns (v: nat)
    requires Tokens(toks) && |formals| <= MAXFRM && psav + |Enc(Body(toks, formals, params))| + 2 <= sbf.Length
    requires 0 < psav && sbf[psav - 1] == 0 && Count(params)
    modifies sbf
    ensures Stored(sbf[..], psav, v, Body(toks, formals, params), params) && sbf[..psav] == old(sbf[..psav])
  {
    ghost var base, ps := sbf[..psav], Body(toks, formals, params);
    BodyStorable(toks, formals, params);
    v := WriteMacro(sbf, psav, toks, formals, params);
    ArrayPrefix(sbf, v + 1);
    NowStored(sbf[..], base, ps, params);
    ArrayPrefix(sbf, psav);
  }

  class Macros {
    const sbf: array<byte>
    var savch: nat
    ghost var mem: seq<byte>   // the contents of sbf

    ghost predicate Known()
      reads this`mem, sbf
    {
      mem == sbf[..]
    }

    /** Used memory ends with a NUL. */
    ghost predicate Valid()
      reads this, sbf
    {
      Known() && 0 < savch <= |mem| && mem[savch - 1] == 0
    }

    constructor (size: nat)
      requires size > 0
      ensures Valid() && fresh(sbf) && sbf.Length == size
    {
      sbf := new byte[size](_ => 0);
      savch := 1;
      mem := seq(size, _ => 0);
    }

    /** Write a body and the number of its parameters behind the used memory. */
    method Store(toks: seq<seq<byte>>, formals: seq<seq<byte>>, params: byte) returns (v: nat)
      requires Valid() && Tokens(toks) && |formals| <= MAXFRM && Count(params)
      requires savch + |Enc(Body(toks, formals, params))| + 2 <= sbf.Length
      modifies this`mem, sbf
      ensures Valid() && Stored(mem, savch, v, Body(toks, formals, params), params) && mem[..savch] == old(mem[..savch])
    {
      ArrayPrefix(sbf, savch);
      v := StoreAt(sbf, savch, toks, formals, params);
      mem := sbf[..];
      ArrayPrefix(sbf, savch);
    }

    /** Go back from a macro's value to the beginning of its body. */
    method BodyStart(v: nat, ghost start: nat, ghost ps: seq<Piece>, ghost params: byte) returns (cf: nat)
      requires Known() && Stored(mem, start, v, ps, params)
      ensures cf == start
    {
      EncNulFree(ps);
      assert forall i :: start <= i < v - 1 ==> mem[i] == mem[start..v - 1][i - start] == Enc(ps)[i - start] != 0;
      cf := v - 2;
      while sbf[cf] != 0
        invariant start - 1 <= cf < v - 1
        decreases cf
      {
        cf := cf - 1;
      }
      cf := cf + 1;
    }

    /** strcmp. */
    method StrEq(a: nat, b: nat, ghost x: seq<byte>, ghost y: seq<byte>) returns (eq: bool)
      requires Known() && StringAt(mem, a, x) && StringAt(mem, b, y)
      ensures eq <==> x == y
    {
      assert forall i :: 0 <= i < |x| ==> x[i] == mem[a + i];
      assert forall i :: 0 <= i < |y| ==> y[i] == mem[b + i];
      var i := 0;
      while sbf[a + i] == sbf[b + i] && sbf[a + i] != 0
        invariant 0 <= i <= |x| && i <= |y| && x[..i] == y[..i]
        decreases |x| - i
      {
        assert x[i] == mem[a + i] && y[i] == mem[b + i];
        i := i + 1;
      }
      eq := sbf[a + i] == sbf[b + i];
      assert i < |x| ==> x[i] == mem[a + i];
      assert i < |y| ==> y[i] == mem[b + i];
    }

    /** Is the body stored at the end the same as the one with value v, as far as strcmp can tell? */
    method Compare(v: nat, ghost start: nat, ghost ps: seq<Piece>, ghost params: byte,
                   at: nat, ghost v2: nat, ghost ps2: seq<Piece>, ghost params2: byte) returns (same: bool)
      requires Known() && Stored(mem, start, v, ps, params) && Stored(mem, at, v2, ps2, params2)
      ensures same <==> AsString(ps, params) == AsString(ps2, params2)
    {
      StoredString(mem, start, v, ps, params);
      StoredString(mem, at, v2, ps2, params2);
      var cf := BodyStart(v, start, ps, params);
      same := StrEq(cf, at, AsString(ps, params), AsString(ps2, params2));
    }

    /** The memory up to v is used. */
    method Commit(v: nat)
      requires Known() && v < |mem| && mem[v] == 0
      modifies this`savch
      ensures Valid() && savch == v + 1
    {
      savch := v + 1;
    }

    /** The end of #define for a new name. */
    method Define(toks: seq<seq<byte>>, formals: seq<seq<byte>>, params: byte) returns (v: nat)
      requires Valid() && Tokens(toks) && |formals| <= MAXFRM && Count(params)
      requires savch + |Enc(Body(toks, formals, params))| + 2 <= sbf.Length
      modifies this`savch, this`mem, sbf
      ensures Valid() && savch == v + 1 && |mem| == |old(mem)| && mem[..old(savch)] == old(mem[..savch])
      ensures Stored(mem, old(savch), v, Body(toks, formals, params), params)
    {
      v := Store(toks, formals, params);
      Commit(v);
    }

    /** Storing another body leaves those stored before as they are. */
    method StoreBeside(was: nat, ghost ostart: nat, ghost ops: seq<Piece>, ghost oparams: byte,
                       toks: seq<seq<byte>>, formals: seq<seq<byte>>, params: byte) returns (v: nat)
      requires Valid() && Tokens(toks) && |formals| <= MAXFRM && Count(params)
      requires savch + |Enc(Body(toks, formals, params))| + 2 <= sbf.Length
      requires was < savch && Stored(mem, ostart, was, ops, oparams)
      modifies this`mem, sbf
      ensures Valid() && mem[..savch] == old(mem[..savch]) && Stored(mem, ostart, was, ops, oparams)
      ensures Stored(mem, savch, v, Body(toks, formals, params), params)
    {
      v := Store(toks, formals, params);
      StoredStays(old(mem), mem, savch, ostart, was, ops, oparams);
    }

    /** The end of #define for a name with the value was: the new body counts only if strcmp tells it from
        the old one, and otherwise its memory is used again. */
    method Redefine(was: nat, ghost ostart: nat, ghost ops: seq<Piece>, ghost oparams: byte,
                    toks: seq<seq<byte>>, formals: seq<seq<byte>>, params: byte) returns (v: nat, redefined: bool)
      requires Valid() && Tokens(toks) && |formals| <= MAXFRM && Count(params)
      requires savch + |Enc(Body(toks, formals, params))| + 2 <= sbf.Length
      requires was < savch && Stored(mem, ostart, was, ops, oparams)
      modifies this`savch, this`mem, sbf
      ensures Valid() && |mem| == |old(mem)| && mem[..old(savch)] == old(mem[..savch])
      ensures redefined <==> AsString(ops, oparams) != AsString(Body(toks, formals, params), params)
      ensures redefined ==> savch == v + 1 && Stored(mem, old(savch), v, Body(toks, formals, params), params)
      ensures !redefined ==> v == was && savch == old(savch) && Stored(mem, ostart, v, ops, oparams)
    {
      v := StoreBeside(was, ostart, ops, oparams, toks, formals, params);
      var same := Compare(was, ostart, ops, oparams, savch, v, Body(toks, formals, params), params);
      redefined := !same;
      if same {
        v := was;
      } else {
        Commit(v);
      }
    }

    /** Push back the piece before vp. */
    method PushPiece(sb: ScanBuffer, p: nat, at: nat, actuals: seq<seq<byte>>, ghost rest: seq<byte>,
                     ghost v: nat, ghost start: nat, ghost ps: seq<Piece>, ghost params: byte, ghost i: nat)
      returns (p2: nat, vp: nat, ghost text: seq<byte>)
      requires Known() && Stored(mem, start, v, ps, params) && AllNulFree(actuals)
      requires 0 < i <= |ps| && at == start + |Enc(ps[..i])|
      requires sb.Valid() && sbf !in sb.Repr && sb.Text(p)
      requires sb.Capacity(p) >= |Fill(ps[..i], actuals)| && sb.Rest(p) == Fill(ps[i..], actuals) + rest
      modifies sb, sb.Repr
      ensures Known() && vp == start + |Enc(ps[..i - 1])| && 0 < vp <= sbf.Length && (sbf[vp - 1] == 0 <==> i == 1)
      ensures sb.Valid() && sbf !in sb.Repr && sb.Text(p2) && fresh(sb.Repr - old(sb.Repr))
      ensures sb.Capacity(p2) >= |Fill(ps[..i - 1], actuals)| && sb.Rest(p2) == text + rest
      ensures text == Fill(ps[i - 1..], actuals)
    {
      FillRest(ps, i, actuals, rest);
      var t;
      t, vp := PieceBefore(at, actuals, v, start, ps, params, i);
      NulBefore(start, v, ps, params, i - 1, vp);
      text := Fill(ps[i - 1..], actuals);
      p2 := sb.PushAll(p, t);
    }

    /** A call: the body is pushed back from its end, actuals in place of the marks, until the NUL before
        it. Then it is what comes next in the input. */
    method Subst(sb: ScanBuffer, p: nat, v: nat, actuals: seq<seq<byte>>,
                 ghost start: nat, ghost ps: seq<Piece>, ghost params: byte) returns (p2: nat, vp: nat)
      requires Known() && Stored(mem, start, v, ps, params) && AllNulFree(actuals)
      requires sb.Valid() && sbf !in sb.Repr && sb.Text(p) && sb.Capacity(p) >= |Fill(ps, actuals)|
      modifies sb, sb.Repr
      ensures sb.Valid() && sb.Text(p2) && sb.Rest(p2) == Fill(ps, actuals) + old(sb.Rest(p))
      ensures vp == start - 1
    {
      ghost var rest := sb.Rest(p);
      WholeBody(ps, actuals, rest);
      NulBefore(start, v, ps, params, |ps|, v - 1);
      p2, vp := PushBody(sb, p, v - 1, actuals, rest, v, start, ps, params, |ps|);
      vp := vp - 1;
    }

    /** Piece by piece, back to the beginning of the body. */
    method PushBody(sb: ScanBuffer, p: nat, at: nat, actuals: seq<seq<byte>>, ghost rest: seq<byte>,
                    ghost v: nat, ghost start: nat, ghost ps: seq<Piece>, ghost params: byte, ghost n: nat)
      returns (p2: nat, vp: nat)
      requires Known() && Stored(mem, start, v, ps, params) && AllNulFree(actuals)
      requires n <= |ps| && at == start + |Enc(ps[..n])| && 0 < at <= sbf.Length && (sbf[at - 1] == 0 <==> n == 0)
      requires sb.Valid() && sbf !in sb.Repr && sb.Text(p)
      requires sb.Capacity(p) >= |Fill(ps[..n], actuals)| && sb.Rest(p) == Fill(ps[n..], actuals) + rest
      modifies sb, sb.Repr
      ensures sb.Valid() && sb.Text(p2) && sb.Rest(p2) == Fill(ps[0..], actuals) + rest
      ensures vp == start + |Enc(ps[..0])|
    {
      p2, vp := p, at;
      ghost var i, text := n, Fill(ps[n..], actuals);
      while sbf[vp - 1] != 0
        invariant 0 <= i <= |ps| && Known() && vp == start + |Enc(ps[..i])|
        invariant 0 < vp <= sbf.Length && (sbf[vp - 1] == 0 <==> i == 0)
        invariant sb.Valid() && sb.Text(p2) && sbf !in sb.Repr
        invariant fresh(sb.Repr - old(sb.Repr)) && sb.Capacity(p2) >= |Fill(ps[..i], actuals)|
        invariant sb.Rest(p2) == text + rest && text == Fill(ps[i..], actuals)
        decreases i
      {
        p2, vp, text := PushPiece(sb, p2, vp, actuals, rest, v, start, ps, params, i);
        i := i - 1;
      }
    }

    lemma NulBefore(start: nat, v: nat, ps: seq<Piece>, params: byte, i: nat, vp: nat)
      requires Known() && Stored(mem, start, v, ps, params) && i <= |ps| && vp == start + |Enc(ps[..i])|
      ensures 0 < vp <= sbf.Length && (sbf[vp - 1] == 0 <==> i == 0)
    {
      AtStart(mem, start, v, ps, params, i);
    }

    lemma StepHere(at: nat, v: nat, start: nat, ps: seq<Piece>, params: byte, i: nat)
      requires Known() && Stored(mem, start, v, ps, params) && 0 < i <= |ps| && at == start + |Enc(ps[..i])|
      ensures var p := ps[i - 1];
        && 0 < at <= sbf.Length && start + |Enc(ps[..i - 1])| == at - (if p.Lit? then 1 else 2)
        && (p.Lit? ==> sbf[at - 1] == p.c != WARN && p.c != 0)
        && (p.Par? ==> sbf[at - 1] == WARN && at >= 2 && sbf[at - 2] == p.k + 1)
    {
      BackStep(mem, start, v, ps, params, i);
    }

    /** One step back: a character, or an actual in place of a mark. */
    method PieceBefore(at: nat, actuals: seq<seq<byte>>, ghost v: nat, ghost start: nat, ghost ps: seq<Piece>,
                       ghost params: byte, ghost i: nat) returns (t: seq<byte>, vp: nat)
      requires Known() && Stored(mem, start, v, ps, params) && 0 < i <= |ps| && at == start + |Enc(ps[..i])|
      requires AllNulFree(actuals)
      ensures t == FillPiece(ps[i - 1], actuals) && NulFree(t) && vp == start + |Enc(ps[..i - 1])|
    {
      StepHere(at, v, start, ps, params, i);
      vp := at - 1;
      if sbf[vp] == WARN {
        vp := vp - 1;
        var k: int := sbf[vp] as int - 1;
        t := if k < |actuals| then actuals[k] else [];
      } else {
        t := [sbf[vp]];
      }
    }
  }
}
