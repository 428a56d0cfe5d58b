/** What a macro call yields, said token by token of the body: which words the actuals replace. */
module CppMacroCall {
  import opened Bytes
  import opened CppScanBuffer
  import opened CppMacroBody

  // ---------------------------------------------------------------- words

  /** A word of the body stands for the actual of the last formal of that name, and for itself if there is none. */
  predicate WordStands(t: seq<byte>, part: seq<byte>, formals: seq<seq<byte>>, actuals: seq<seq<byte>>) {
    if t in formals then
      exists k :: 0 <= k < |formals| && LastNamed(formals, t, k) && part == if k < |actuals| then actuals[k] else []
    else part == t
  }

  predicate LastNamed(formals: seq<seq<byte>>, t: seq<byte>, k: nat)
    requires k < |formals|
  {
    formals[k] == t && forall j :: k < j < |formals| ==> formals[j] != t
  }

  lemma WordFilled(t: seq<byte>, formals: seq<seq<byte>>, actuals: seq<seq<byte>>)
    ensures WordStands(t, Fill(Word(t, formals), actuals), formals, actuals)
  {
    var k := FindFormal(formals, t);
    if k.Some? {
      var ps := [Par(k.value)];
      assert ps[..|ps| - 1] == [];
      Assoc([], [], FillPiece(ps[0], actuals));
      forall j | k.value < j < |formals| ensures formals[j] != t {
        assert formals[j] == formals[k.value + 1..][j - k.value - 1];
      }
      assert Fill(ps, actuals) == FillPiece(ps[0], actuals);
      assert LastNamed(formals, t, k.value) && formals[k.value] in formals;
    } else {
      FillLits(t, actuals);
    }
  }

  // ---------------------------------------------------------------- quotations

  /** A maximal run of identifier characters and the characters before it. */
  datatype Span = Span(gap: seq<byte>, word: seq<byte>)

  predicate AllIds(t: seq<byte>, id: bool) {
    forall i :: 0 <= i < |t| ==> IsId(t[i]) == id
  }

  /** The closing quote is looked for where a run of identifier characters has ended, and at the beginning. */
  predicate SpanOk(quoc: byte, s: Span) {
    AllIds(s.gap, false) && AllIds(s.word, true) && s.word != [] && (s.gap != [] ==> s.gap[0] != quoc)
  }

  predicate SpansOk(quoc: byte, spans: seq<Span>) {
    (forall i :: 0 <= i < |spans| ==> SpanOk(quoc, spans[i])) && forall i :: 0 < i < |spans| ==> spans[i].gap != []
  }

  /** The closing quote and what follows it, or the end without any further word. */
  predicate TailOk(quoc: byte, tail: seq<byte>) {
    tail == [] || tail[0] == quoc || AllIds(tail, false)
  }

  function Texts(spans: seq<Span>, parts: seq<seq<byte>>): seq<byte>
    requires |parts| == |spans|
  {
    if spans == [] then [] else spans[0].gap + (parts[0] + Texts(spans[1..], parts[1..]))
  }

  function WordsOf(spans: seq<Span>): (ws: seq<seq<byte>>)
    ensures |ws| == |spans|
  {
    seq(|spans|, i requires 0 <= i < |spans| => spans[i].word)
  }

  /** part is the text t of a quotation with the words up to the closing quote replaced, given its spans. */
  predicate Replaced(quoc: byte, t: seq<byte>, part: seq<byte>, formals: seq<seq<byte>>, actuals: seq<seq<byte>>,
                     spans: seq<Span>, parts: seq<seq<byte>>, tail: seq<byte>) {
    && SpansOk(quoc, spans) && TailOk(quoc, tail) && |parts| == |spans|
    && t == Texts(spans, WordsOf(spans)) + tail && part == Texts(spans, parts) + tail
    && forall i :: 0 <= i < |spans| ==> WordStands(spans[i].word, parts[i], formals, actuals)
  }

  /** The text of a quotation falls into spans and a tail. */
  ghost predicate QuotationStands(quoc: byte, t: seq<byte>, part: seq<byte>, formals: seq<seq<byte>>,
                                  actuals: seq<seq<byte>>) {
    exists spans, parts, tail :: Replaced(quoc, t, part, formals, actuals, spans, parts, tail)
  }

  lemma {:induction false} QuotationFilled(quoc: byte, t: seq<byte>, formals: seq<seq<byte>>, actuals: seq<seq<byte>>)
    returns (spans: seq<Span>, parts: seq<seq<byte>>, tail: seq<byte>)
    requires !IsId(quoc) && [] !in formals
    ensures Replaced(quoc, t, Fill(Quoted(quoc, t, formals), actuals), formals, actuals, spans, parts, tail)
    ensures spans != [] && t != [] && IsId(t[0]) ==> spans[0].gap == []
    ensures spans != [] && t != [] && !IsId(t[0]) ==> spans[0].gap != []
    decreases |t|
  {
    var n := Run(t, false);
    if t == [] || t[0] == quoc || n == |t| {
      spans, parts, tail := [], [], t;
      NoSpans(quoc, t, formals, actuals);
    } else {
      var m := Run(t[n..], true);
      var gap, word, rest := t[..n], t[n..n + m], t[n + m..];
      RunIs(t, n, m);
      var more, texts;
      more, texts, tail := QuotationFilled(quoc, rest, formals, actuals);
      var first := Span(gap, word);
      spans, parts := [first] + more, [Fill(Word(word, formals), actuals)] + texts;
      WordFilled(word, formals, actuals);
      SpanFilled(quoc, t, formals, actuals, n, m);
      SpanMore(quoc, first, parts[0], more, texts, rest, Fill(Quoted(quoc, rest, formals), actuals), tail, formals,
               actuals);
    }
  }

  lemma RunIs(t: seq<byte>, n: nat, m: nat)
    requires n == Run(t, false) < |t| && m == Run(t[n..], true)
    ensures n + m <= |t| && AllIds(t[..n], false) && AllIds(t[n..n + m], true) && m > 0
    ensures n + m < |t| ==> !IsId(t[n + m..][0])
    ensures t == t[..n] + (t[n..n + m] + t[n + m..])
  {
    var u := t[n..];
    PrefixIds(t, n, false);
    PrefixIds(u, m, true);
    assert u[0] == t[n] && u[..m] == t[n..n + m] && u[m..] == t[n + m..];
    Halves(t, n);
    Halves(u, m);
  }

  lemma PrefixIds(t: seq<byte>, n: nat, id: bool)
    requires n == Run(t, id)
    ensures n <= |t| && AllIds(t[..n], id) && (n < |t| ==> IsId(t[n..][0]) != id)
  {
  }

  lemma Halves(t: seq<byte>, n: nat)
    requires n <= |t|
    ensures t == t[..n] + t[n..]
  {
  }

  lemma NoSpans(quoc: byte, t: seq<byte>, formals: seq<seq<byte>>, actuals: seq<seq<byte>>)
    requires [] !in formals && (t == [] || t[0] == quoc || Run(t, false) == |t|)
    ensures Replaced(quoc, t, Fill(Quoted(quoc, t, formals), actuals), formals, actuals, [], [], t)
  {
    FillLits(t, actuals);
    Assoc([], [], t);
    if t != [] && t[0] != quoc {
      var n := |t|;
      assert t[..n] == t && t[n..] == [] && t[n..n + 0] == [] && t[n + 0..] == [];
      SpanFilled(quoc, t, formals, actuals, n, 0);
      FillLits([], actuals);
      assert t + ([] + []) == t;
    }
  }

  lemma SpanFilled(quoc: byte, t: seq<byte>, formals: seq<seq<byte>>, actuals: seq<seq<byte>>, n: nat, m: nat)
    requires t != [] && t[0] != quoc && n == Run(t, false) && m == Run(t[n..], true)
    ensures Fill(Quoted(quoc, t, formals), actuals) ==
      t[..n] + (Fill(Word(t[n..n + m], formals), actuals) + Fill(Quoted(quoc, t[n + m..], formals), actuals))
  {
    var a, b, c := Lits(t[..n]), Word(t[n..n + m], formals), Quoted(quoc, t[n + m..], formals);
    FillConcat(a + b, c, actuals);
    FillConcat(a, b, actuals);
    FillLits(t[..n], actuals);
    Assoc(t[..n], Fill(b, actuals), Fill(c, actuals));
  }

  lemma SpanMore(quoc: byte, s: Span, part: seq<byte>, spans: seq<Span>, parts: seq<seq<byte>>,
                 rest: seq<byte>, restPart: seq<byte>, tail: seq<byte>, formals: seq<seq<byte>>,
                 actuals: seq<seq<byte>>)
    requires SpanOk(quoc, s) && WordStands(s.word, part, formals, actuals)
    requires Replaced(quoc, rest, restPart, formals, actuals, spans, parts, tail)
    requires spans != [] ==> spans[0].gap != []
    ensures Replaced(quoc, s.gap + (s.word + rest), s.gap + (part + restPart), formals, actuals,
                     [s] + spans, [part] + parts, tail)
  {
    TextsMore(s, part, spans, parts, tail);
    TextsMore(s, s.word, spans, WordsOf(spans), tail);
    assert WordsOf([s] + spans) == [s.word] + WordsOf(spans);
  }

  lemma TextsMore(s: Span, part: seq<byte>, spans: seq<Span>, parts: seq<seq<byte>>, tail: seq<byte>)
    requires |parts| == |spans|
    ensures Texts([s] + spans, [part] + parts) + tail == s.gap + (part + (Texts(spans, parts) + tail))
  {
    var t := Texts(spans, parts);
    assert ([s] + spans)[1..] == spans && ([part] + parts)[1..] == parts;
    Assoc(s.gap, part + t, tail);
    Assoc(part, t, tail);
  }

  // ---------------------------------------------------------------- tokens and bodies

  predicate Identifier(tok: seq<byte>) {
    tok != [] && IsId(tok[0]) && !(ZERO <= tok[0] <= NINE)
  }

  predicate Quotation(tok: seq<byte>) {
    tok != [] && (tok[0] == QUOTE || tok[0] == APOSTROPHE)
  }

  /** What a token of the body contributes to a call. Without parameters it is the token itself; with any, words
      and the words in quotations are replaced. Escaped newlines are dropped. */
  ghost predicate TokenStands(tok: seq<byte>, part: seq<byte>, formals: seq<seq<byte>>, params: byte,
                              actuals: seq<seq<byte>>) {
    if Continuation(tok) then part == []
    else if params != 0 && Identifier(tok) then WordStands(tok, part, formals, actuals)
    else if params != 0 && Quotation(tok) then
      part != [] && part[0] == tok[0] && QuotationStands(tok[0], tok[1..], part[1..], formals, actuals)
    else part == tok
  }

  lemma TokenFilled(tok: seq<byte>, formals: seq<seq<byte>>, params: byte, actuals: seq<seq<byte>>)
    requires [] !in formals
    ensures TokenStands(tok, Fill(TokenPieces(tok, formals, params), actuals), formals, params, actuals)
  {
    FillLits(tok, actuals);
    WordFilled(tok, formals, actuals);
    if !Continuation(tok) && params != 0 && !Identifier(tok) && Quotation(tok) {
      var rest := Quoted(tok[0], tok[1..], formals);
      assert [Lit(tok[0])] == Lits([tok[0]]);
      FillLits([tok[0]], actuals);
      FillConcat([Lit(tok[0])], rest, actuals);
      var part := Fill([Lit(tok[0])] + rest, actuals);
      assert part[1..] == Fill(rest, actuals);
      var spans, parts, tail := QuotationFilled(tok[0], tok[1..], formals, actuals);
    }
  }

  function Concat(parts: seq<seq<byte>>): seq<byte> {
    if parts == [] then [] else Concat(parts[..|parts| - 1]) + parts[|parts| - 1]
  }

  /** What the tokens of a body contribute to a call. */
  ghost predicate CallParts(toks: seq<seq<byte>>, parts: seq<seq<byte>>, formals: seq<seq<byte>>, params: byte,
                            actuals: seq<seq<byte>>) {
    |parts| == |toks| && forall i :: 0 <= i < |toks| ==> TokenStands(toks[i], parts[i], formals, params, actuals)
  }

  /** A call yields what the tokens of the body contribute, one after the other, for any actuals. */
  lemma {:induction false} BodyFilled(toks: seq<seq<byte>>, formals: seq<seq<byte>>, params: byte,
                                      actuals: seq<seq<byte>>) returns (parts: seq<seq<byte>>)
    requires [] !in formals
    ensures CallParts(toks, parts, formals, params, actuals)
    ensures Fill(Body(toks, formals, params), actuals) == Concat(parts)
    decreases |toks|
  {
    parts := [];
    if toks != [] {
      var init, tok := toks[..|toks| - 1], toks[|toks| - 1];
      var first := BodyFilled(init, formals, params, actuals);
      var last := Fill(TokenPieces(tok, formals, params), actuals);
      TokenFilled(tok, formals, params, actuals);
      FillConcat(Body(init, formals, params), TokenPieces(tok, formals, params), actuals);
      parts := first + [last];
      PartsMore(toks, first, last, formals, params, actuals);
    }
  }

  lemma PartsMore(toks: seq<seq<byte>>, first: seq<seq<byte>>, last: seq<byte>, formals: seq<seq<byte>>, params: byte,
                  actuals: seq<seq<byte>>)
    requires toks != [] && CallParts(toks[..|toks| - 1], first, formals, params, actuals)
    requires TokenStands(toks[|toks| - 1], last, formals, params, actuals)
    ensures CallParts(toks, first + [last], formals, params, actuals)
    ensures Concat(first + [last]) == Concat(first) + last
  {
    var parts := first + [last];
    assert parts[..|parts| - 1] == first;
    forall i | 0 <= i < |toks| ensures TokenStands(toks[i], parts[i], formals, params, actuals) {
      if i < |toks| - 1 {
        assert toks[i] == toks[..|toks| - 1][i];
      }
    }
  }

  /** Without parameters a call yields the body as it is written. */
  lemma {:induction false} PlainCall(toks: seq<seq<byte>>, formals: seq<seq<byte>>, actuals: seq<seq<byte>>)
    ensures Fill(Body(toks, formals, 0), actuals) == Text(toks)
    decreases |toks|
  {
    if toks != [] {
      var init, tok := toks[..|toks| - 1], toks[|toks| - 1];
      PlainCall(init, formals, actuals);
      FillLits(tok, actuals);
      FillConcat(Body(init, formals, 0), TokenPieces(tok, formals, 0), actuals);
    }
  }

  /** The body "x" of a macro with the formal x is the mark of that formal. */
  lemma FormalIsMarked()
    ensures Body([[120]], [[120]], 1) == [Par(0)]
  {
    var toks: seq<seq<byte>> := [[120]];
    assert toks[..|toks| - 1] == [];
    assert Body([], [[120]], 1) == [];
  }

  /** Define a macro and call it: what comes next in the input is what the tokens of its body contribute. */
  method DefineAndCall(macros: Macros, sb: ScanBuffer, p: nat, toks: seq<seq<byte>>, formals: seq<seq<byte>>,
                       params: byte, actuals: seq<seq<byte>>)
    returns (p2: nat, ghost parts: seq<seq<byte>>)
    requires macros.Valid() && Tokens(toks) && |formals| <= MAXFRM && Count(params) && [] !in formals
    requires macros.savch + |Enc(Body(toks, formals, params))| + 2 <= macros.sbf.Length
    requires sb.Valid() && sb.Text(p) && macros.sbf !in sb.Repr && AllNulFree(actuals)
    requires sb.Capacity(p) >= |Fill(Body(toks, formals, params), actuals)|
    modifies macros`savch, macros`mem, macros.sbf, sb, sb.Repr
    ensures CallParts(toks, parts, formals, params, actuals)
    ensures sb.Valid() && sb.Text(p2) && sb.Rest(p2) == Concat(parts) + old(sb.Rest(p))
  {
    parts := BodyFilled(toks, formals, params, actuals);
    ghost var start := macros.savch;
    var v := macros.Define(toks, formals, params);
    var vp;
    p2, vp := macros.Subst(sb, p, v, actuals, start, Body(toks, formals, params), params);
  }
}
