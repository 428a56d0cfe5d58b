/** The concrete syntax of sed patterns: tokens, how they are spelled, how text is read back,
    and the item list they stand for. */
module RegexSyntax {
  import opened Bytes
  import opened RegexSemantics
  import opened RegexBytecode

  /** \{m\}, \{m,\} and \{m,n\}. */
  datatype Upper = Exact | Unlimited | UpTo(digits: seq<byte>)

  datatype Token =
    | TChr(c: byte, escaped: bool)
    | TAny
    | TSet(b: Bracket)
    | TStar
    | TInterval(lo: seq<byte>, hi: Upper)
    | TOpen
    | TClose
    | TBack(d: nat)
    | TDol

  predicate IsAtom(t: Token) {
    t.TChr? || t.TAny? || t.TSet?
  }

  predicate IsDigit(c: byte) {
    ZERO <= c <= NINE
  }

  /** The number a digit string denotes. */
  function Value(digits: seq<byte>): int {
    if digits == [] then 0 else 10 * Value(digits[..|digits| - 1]) + digits[|digits| - 1] - ZERO
  }

  // ---------------------------------------------------------------- spelling

  function SpellElem(e: Elem): seq<byte> {
    if e.Ch? then [e.c] else [DASH, e.c]
  }

  function SpellElems(more: seq<Elem>): seq<byte> {
    if more == [] then [] else SpellElem(more[0]) + SpellElems(more[1..])
  }

  function SpellBracket(b: Bracket): seq<byte> {
    BracketHead(b) + (SpellElems(b.more) + Closing(b.dash))
  }

  function BracketHead(b: Bracket): seq<byte> {
    if b.neg then [LBRACKET, CARET, b.first] else [LBRACKET, b.first]
  }

  function Closing(dash: bool): seq<byte> {
    if dash then [DASH, RBRACKET] else [RBRACKET]
  }

  function SpellUpper(hi: Upper): seq<byte> {
    match hi
    case Exact => [BACKSLASH, RBRACE]
    case Unlimited => [COMMA] + [BACKSLASH, RBRACE]
    case UpTo(digits) => [COMMA] + (digits + [BACKSLASH, RBRACE])
  }

  function Spell(t: Token): (s: seq<byte>)
    ensures s != []
  {
    match t
    case TChr(c, escaped) => if !escaped then [c] else if c == NEWLINE then [BACKSLASH, LETTER_N] else [BACKSLASH, c]
    case TAny => [DOT]
    case TSet(b) => SpellBracket(b)
    case TStar => [ASTERISK]
    case TInterval(lo, hi) => [BACKSLASH, LBRACE] + (lo + SpellUpper(hi))
    case TOpen => [BACKSLASH, LPAREN]
    case TClose => [BACKSLASH, RPAREN]
    case TBack(d) => [BACKSLASH, if d < 9 then ONE + d else ONE]
    case TDol => [DOLLAR]
  }

  function Words(ts: seq<Token>): seq<seq<byte>> {
    seq(|ts|, i requires 0 <= i < |ts| => Spell(ts[i]))
  }

  /** The first j words, one after the other. */
  function Join(ws: seq<seq<byte>>, j: nat): seq<byte>
    requires j <= |ws|
  {
    if j == 0 then [] else Join(ws, j - 1) + ws[j - 1]
  }

  function SpellAll(ts: seq<Token>): seq<byte> {
    Join(Words(ts), |ts|)
  }

  // ---------------------------------------------------------------- what tokens stand for

  function Opens(ts: seq<Token>): nat {
    if ts == [] then 0 else Opens(ts[..|ts| - 1]) + if ts[|ts| - 1].TOpen? then 1 else 0
  }

  function Closes(ts: seq<Token>): nat {
    if ts == [] then 0 else Closes(ts[..|ts| - 1]) + if ts[|ts| - 1].TClose? then 1 else 0
  }

  /** The groups open after ts, innermost last. */
  function Pending(ts: seq<Token>): seq<nat> {
    if ts == [] then []
    else
      var pre, t := ts[..|ts| - 1], ts[|ts| - 1];
      if t.TOpen? then Pending(pre) + [Opens(pre)]
      else if t.TClose? && Pending(pre) != [] then Pending(pre)[..|Pending(pre)| - 1]
      else Pending(pre)
  }

  /** The opcode byte of the most recent item, or -1 before the first. */
  function LastOp(ts: seq<Token>): (op: int)
    ensures op == -1 <==> ts == []
    ensures -1 <= op < 256
  {
    if ts == [] then -1
    else
      var t, prev := ts[|ts| - 1], LastOp(ts[..|ts| - 1]);
      match t
      case TChr(_, _) => CCHR
      case TAny => CDOT
      case TSet(b) => BaseOp(Set(b))
      case TStar => if prev < 0 then STAR as int else OrStar(prev) as int
      case TInterval(_, _) => if prev < 0 then RNGE as int else OrRange(prev) as int
      case TOpen => CBRA
      case TClose => CKET
      case TBack(_) => CBACK
      case TDol => CDOL
  }

  /** b | STAR and b | RNGE. */
  function OrStar(b: byte): byte {
    b - b % 2 + 1
  }

  function OrRange(b: byte): byte {
    b - b % 4 + 3
  }

  function QuantOf(t: Token): Quant {
    match t
    case TInterval(lo, hi) =>
      var m := Value(lo);
      if m < 0 then Star
      else
        (match hi
         case Exact => Range(m, Some(0))
         case Unlimited => Range(m, None)
         case UpTo(d) => if Value(d) >= m then Range(m, Some(Value(d) - m)) else Star)
    case _ => Star
  }

  function AtomOf(t: Token): Atom {
    match t
    case TChr(c, _) => Chr(c)
    case TSet(b) => Set(b)
    case _ => Any
  }

  function ItemsOf(ts: seq<Token>): (items: seq<Item>)
    ensures items == [] <==> ts == []
  {
    if ts == [] then []
    else
      var pre, t := ts[..|ts| - 1], ts[|ts| - 1];
      var items := ItemsOf(pre);
      if IsAtom(t) then items + [Single(AtomOf(t), Once)]
      else if t.TOpen? then items + [Open(Opens(pre))]
      else if t.TClose? then items + [Close(if Pending(pre) == [] then 0 else Pending(pre)[|Pending(pre)| - 1])]
      else if t.TBack? then items + [Back(t.d)]
      else if t.TDol? then items + [EndAnchor]
      else if items != [] && items[|items| - 1].Single? then
        items[|items| - 1 := Single(items[|items| - 1].a, QuantOf(t))]
      else items + [EndAnchor]
  }

  /** At most one quantifier, and only on one-character atoms; back-references only to groups
      already closed. */
  predicate RegularNext(pre: seq<Token>, t: Token) {
    && (t.TStar? || t.TInterval? ==> pre != [] && IsAtom(pre[|pre| - 1]))
    && (t.TBack? ==> Close(t.d) in ItemsOf(pre))
  }

  predicate Regular(ts: seq<Token>) {
    ts == [] || (Regular(ts[..|ts| - 1]) && RegularNext(ts[..|ts| - 1], ts[|ts| - 1]))
  }

  // ---------------------------------------------------------------- reading text back

  /** RunOff: the text ended where the compiler reads on past its terminating NUL. */
  datatype Lexeme = Tok(t: Token, next: nat) | End(next: nat) | Bad(code: nat) | RunOff

  function DigitsEnd(text: seq<byte>, sp: nat): (k: nat)
    ensures k >= sp && (sp <= |text| ==> k <= |text|)
    decreases |text| - sp
  {
    if sp < |text| && IsDigit(text[sp]) then DigitsEnd(text, sp + 1) else sp
  }

  /** The error of the number that starts at sp, or 0. */
  function NumberError(text: seq<byte>, sp: nat): nat {
    var k := DigitsEnd(text, sp);
    if k == sp || k > |text| || (At(text, k) != BACKSLASH && At(text, k) != COMMA) then 16
    else if Value(text[sp..k]) >= 255 then 11
    else 0
  }

  /** After "\{lo," with the comma at k. */
  function LexUpper(text: seq<byte>, lo: seq<byte>, k: nat): (r: Lexeme)
    ensures !r.End?
    ensures r.Tok? ==> r.t.TInterval? && k < r.next <= |text|
  {
    var m := DigitsEnd(text, k + 1);
    if At(text, k + 1) == BACKSLASH then
      if At(text, k + 2) == RBRACE then Tok(TInterval(lo, Unlimited), k + 3) else Bad(45)
    else if NumberError(text, k + 1) != 0 then Bad(NumberError(text, k + 1))
    else if text[m] == COMMA then Bad(44)
    else if At(text, m + 1) != RBRACE then Bad(45)
    else if Value(text[k + 1..m]) < Value(lo) then Bad(46)
    else Tok(TInterval(lo, UpTo(text[k + 1..m])), m + 2)
  }

  /** After "\{". */
  function LexInterval(text: seq<byte>, sp: nat): (r: Lexeme)
    ensures !r.End?
    ensures r.Tok? ==> r.t.TInterval? && sp < r.next <= |text|
  {
    var k := DigitsEnd(text, sp);
    if NumberError(text, sp) != 0 then Bad(NumberError(text, sp))
    else if text[k] == COMMA then LexUpper(text, text[sp..k], k)
    else if At(text, k + 1) == RBRACE then Tok(TInterval(text[sp..k], Exact), k + 2)
    else Bad(45)
  }

  /** After the elements collected in b. */
  function LexElems(text: seq<byte>, sp: nat, b: Bracket): (r: Lexeme)
    ensures !r.End?
    ensures r.Tok? ==> r.t.TSet? && sp < r.next <= |text|
    decreases |text| - sp
  {
    var c := At(text, sp);
    if c == RBRACKET then Tok(TSet(b), sp + 1)
    else if c == 0 || c == NEWLINE || sp >= |text| then Bad(49)
    else if c == DASH then
      if At(text, sp + 1) == RBRACKET then Tok(TSet(b.(dash := true)), sp + 2)
      else if sp + 1 >= |text| then RunOff
      else LexElems(text, sp + 2, b.(more := b.more + [To(text[sp + 1])]))
    else LexElems(text, sp + 1, b.(more := b.more + [Ch(c)]))
  }

  /** After "[". */
  function LexBracket(text: seq<byte>, sp: nat): (r: Lexeme)
    ensures !r.End?
    ensures r.Tok? ==> r.t.TSet? && sp < r.next <= |text|
  {
    var neg := At(text, sp) == CARET;
    var p := if neg then sp + 1 else sp;
    var c := At(text, p);
    if c == 0 || c == NEWLINE then Bad(49)
    else LexElems(text, p + 1, Bracket(neg, c, [], false))
  }

  /** After a backslash at sp - 1. */
  function LexEscape(text: seq<byte>, sp: nat, last: int): (r: Lexeme)
    ensures !r.End?
    ensures r.Tok? ==> sp < r.next <= |text|
  {
    var d := At(text, sp);
    if sp >= |text| then RunOff
    else if d == LPAREN then Tok(TOpen, sp + 1)
    else if d == RPAREN then Tok(TClose, sp + 1)
    else if d == LBRACE && last != -1 then LexInterval(text, sp + 1)
    else if d == NEWLINE then Bad(36)
    else if d == LETTER_N then Tok(TChr(NEWLINE, true), sp + 1)
    else if ONE <= d <= NINE then Tok(TBack(d - ONE), sp + 1)
    else Tok(TChr(d, true), sp + 1)
  }

  /** The token at sp, when the most recent item has the opcode last. */
  function Lex(text: seq<byte>, sp: nat, eof: byte, last: int): (r: Lexeme)
    ensures r.Tok? ==> sp < r.next <= |text|
    ensures r.End? ==> sp < r.next <= |text|
  {
    if sp >= |text| then RunOff
    else
      var c := text[sp];
      if c == eof then End(sp + 1)
      else if c == DOT then Tok(TAny, sp + 1)
      else if c == NEWLINE then Bad(36)
      else if c == ASTERISK then
        if last == -1 || last == CBRA || last == CKET then Tok(TChr(c, false), sp + 1) else Tok(TStar, sp + 1)
      else if c == DOLLAR then
        if At(text, sp + 1) != eof && At(text, sp + 1) != NEWLINE then Tok(TChr(c, false), sp + 1)
        else Tok(TDol, sp + 1)
      else if c == LBRACKET then LexBracket(text, sp + 1)
      else if c == BACKSLASH then LexEscape(text, sp + 1, last)
      else Tok(TChr(c, false), sp + 1)
  }

  /** The error for accepting t after ts, or 0: too many groups, a group closed that is not open,
      a back-reference numbered above the count of groups closed. */
  function ContextError(ts: seq<Token>, t: Token): nat {
    match t
    case TOpen => if Opens(ts) >= NBRA then 43 else 0
    case TClose => if Pending(ts) == [] then 42 else 0
    case TBack(d) => if d >= Closes(ts) then 25 else 0
    case _ => 0
  }

  datatype Parsed = Accepted(ts: seq<Token>, next: nat) | Rejected(code: nat) | Unterminated

  /** Read tokens from sp up to the delimiter. */
  function Parse(text: seq<byte>, sp: nat, eof: byte, ts: seq<Token>): Parsed
    decreases |text| - sp
  {
    match Lex(text, sp, eof, LastOp(ts))
    case RunOff => Unterminated
    case Bad(code) => Rejected(code)
    case End(next) => if Pending(ts) != [] then Rejected(42) else Accepted(ts, next)
    case Tok(t, next) =>
      if ContextError(ts, t) != 0 then Rejected(ContextError(ts, t))
      else Parse(text, next, eof, ts + [t])
  }

  // ---------------------------------------------------------------- spelling and reading are inverse

  predicate LegalElem(e: Elem) {
    if e.Ch? then e.c != 0 && e.c != NEWLINE && e.c != RBRACKET && e.c != DASH
    else e.c != 0 && e.c != RBRACKET
  }

  predicate LegalDigits(d: seq<byte>) {
    d != [] && Value(d) < 255 && forall i :: 0 <= i < |d| ==> IsDigit(d[i])
  }

  predicate LegalBracket(b: Bracket) {
    && b.first != 0 && b.first != NEWLINE && (b.first == CARET ==> b.neg)
    && forall i :: 0 <= i < |b.more| ==> LegalElem(b.more[i])
  }

  predicate LegalInterval(lo: seq<byte>, hi: Upper) {
    LegalDigits(lo) && (hi.UpTo? ==> LegalDigits(hi.digits) && Value(lo) <= Value(hi.digits))
  }

  /** Tokens spelled with a backslash and one more byte, when the most recent item has the opcode last. */
  predicate EscapeLegal(t: Token, last: int) {
    match t
    case TChr(c, escaped) =>
      && escaped && c != 0 && c != LPAREN && c != RPAREN && c != LETTER_N && !(ONE <= c <= NINE)
      && (c == LBRACE ==> last == -1)
    case TOpen => true
    case TClose => true
    case TBack(d) => d < 9
    case _ => false
  }

  /** Tokens spelled as one byte. */
  predicate ByteLegal(t: Token, last: int) {
    match t
    case TChr(c, escaped) =>
      && !escaped && c != 0 && c != NEWLINE && c != BACKSLASH && c != DOT && c != LBRACKET
      && (c == ASTERISK ==> last == -1 || last == CBRA || last == CKET)
    case TStar => last != -1 && last != CBRA && last != CKET
    case TAny => true
    case TDol => true
    case _ => false
  }

  /** t, spelled after the tokens pre, is read as t (a plain "$" must not come last, see LegalAt). */
  predicate LegalNext(pre: seq<Token>, t: Token, eof: byte) {
    && Spell(t)[0] != eof
    && ContextError(pre, t) == 0
    && match t
       case TSet(b) => LegalBracket(b)
       case TInterval(lo, hi) => pre != [] && LegalInterval(lo, hi)
       case _ => ByteLegal(t, LastOp(pre)) || EscapeLegal(t, LastOp(pre))
  }

  predicate LegalAt(ts: seq<Token>, j: nat, eof: byte)
    requires j < |ts|
  {
    && LegalNext(ts[..j], ts[j], eof)
    && (ts[j] == TChr(DOLLAR, false) ==> j + 1 < |ts|)
    && (ts[j].TDol? ==> j + 1 == |ts|)
  }

  /** ts spells a complete pattern ended by the delimiter eof. */
  predicate Legal(ts: seq<Token>, eof: byte) {
    eof != 0 && eof != NEWLINE && Pending(ts) == [] && forall j :: 0 <= j < |ts| ==> LegalAt(ts, j, eof)
  }

  /** text has the word at sp. */
  predicate SpelledAt(text: seq<byte>, sp: nat, word: seq<byte>)
    decreases |word|
  {
    word == [] || (sp < |text| && text[sp] == word[0] && SpelledAt(text, sp + 1, word[1..]))
  }

  lemma {:induction false} SpelledByte(text: seq<byte>, sp: nat, word: seq<byte>, i: nat)
    requires SpelledAt(text, sp, word) && i < |word|
    ensures sp + i < |text| && text[sp + i] == word[i]
    decreases |word|
  {
    if i != 0 {
      SpelledByte(text, sp + 1, word[1..], i - 1);
    }
  }

  lemma {:induction false} SpelledSplit(text: seq<byte>, sp: nat, u: seq<byte>, v: seq<byte>)
    requires SpelledAt(text, sp, u + v)
    ensures SpelledAt(text, sp, u) && SpelledAt(text, sp + |u|, v)
    decreases |u|
  {
    if u == [] {
      assert u + v == v;
    } else {
      assert (u + v)[1..] == u[1..] + v;
      SpelledSplit(text, sp + 1, u[1..], v);
    }
  }

  lemma {:induction false} SpelledSlice(text: seq<byte>, sp: nat, word: seq<byte>)
    requires SpelledAt(text, sp, word) && sp <= |text|
    ensures sp + |word| <= |text| && text[sp..sp + |word|] == word
    decreases |word|
  {
    if word != [] {
      SpelledSlice(text, sp + 1, word[1..]);
      assert text[sp..sp + |word|] == [text[sp]] + text[sp + 1..sp + |word|];
    }
  }

  lemma LexClosing(text: seq<byte>, sp: nat, b: Bracket, dash: bool)
    requires !b.dash && SpelledAt(text, sp, Closing(dash))
    ensures LexElems(text, sp, b) == Tok(TSet(b.(dash := dash)), sp + |Closing(dash)|)
  {
    SpelledByte(text, sp, Closing(dash), 0);
    if dash { SpelledByte(text, sp, Closing(dash), 1); }
  }

  lemma LexOneElem(text: seq<byte>, sp: nat, b: Bracket, e: Elem)
    requires LegalElem(e) && SpelledAt(text, sp, SpellElem(e))
    ensures LexElems(text, sp, b) == LexElems(text, sp + |SpellElem(e)|, b.(more := b.more + [e]))
  {
    SpelledByte(text, sp, SpellElem(e), 0);
    if e.To? { SpelledByte(text, sp, SpellElem(e), 1); }
  }

  lemma {:induction false} LexElemsSpelled(text: seq<byte>, sp: nat, b: Bracket, more: seq<Elem>, dash: bool)
    requires !b.dash && forall i :: 0 <= i < |more| ==> LegalElem(more[i])
    requires SpelledAt(text, sp, SpellElems(more) + Closing(dash))
    ensures LexElems(text, sp, b) ==
      Tok(TSet(Bracket(b.neg, b.first, b.more + more, dash)), sp + |SpellElems(more)| + |Closing(dash)|)
    decreases |more|
  {
    if more == [] {
      assert b.more + more == b.more && SpellElems(more) + Closing(dash) == Closing(dash);
      LexClosing(text, sp, b, dash);
    } else {
      var e, b2 := more[0], b.(more := b.more + [more[0]]);
      assert SpellElems(more) + Closing(dash) == SpellElem(e) + (SpellElems(more[1..]) + Closing(dash));
      SpelledSplit(text, sp, SpellElem(e), SpellElems(more[1..]) + Closing(dash));
      LexOneElem(text, sp, b, e);
      LexElemsSpelled(text, sp + |SpellElem(e)|, b2, more[1..], dash);
      assert b2.more + more[1..] == b.more + more;
    }
  }

  lemma {:induction false} LexBracketSpelled(text: seq<byte>, sp: nat, b: Bracket)
    requires LegalBracket(b) && SpelledAt(text, sp, SpellBracket(b))
    ensures sp < |text| && text[sp] == LBRACKET
    ensures LexBracket(text, sp + 1) == Tok(TSet(b), sp + |SpellBracket(b)|)
  {
    var b0 := Bracket(b.neg, b.first, [], false);
    SpelledSplit(text, sp, BracketHead(b), SpellElems(b.more) + Closing(b.dash));
    BracketRead(text, sp, b0);
    LexElemsSpelled(text, sp + |BracketHead(b)|, b0, b.more, b.dash);
    assert b0.more + b.more == b.more;
  }

  lemma BracketRead(text: seq<byte>, sp: nat, b0: Bracket)
    requires b0.more == [] && !b0.dash && b0.first != 0 && b0.first != NEWLINE && (b0.first == CARET ==> b0.neg)
    requires SpelledAt(text, sp, BracketHead(b0))
    ensures sp < |text| && text[sp] == LBRACKET
    ensures LexBracket(text, sp + 1) == LexElems(text, sp + |BracketHead(b0)|, b0)
  {
    SpelledByte(text, sp, BracketHead(b0), 0);
    SpelledByte(text, sp, BracketHead(b0), 1);
    if b0.neg { SpelledByte(text, sp, BracketHead(b0), 2); }
  }

  lemma {:induction false} DigitsEndSpelled(text: seq<byte>, sp: nat, digits: seq<byte>)
    requires SpelledAt(text, sp, digits) && forall i :: 0 <= i < |digits| ==> IsDigit(digits[i])
    requires !IsDigit(At(text, sp + |digits|))
    ensures DigitsEnd(text, sp) == sp + |digits|
    decreases |digits|
  {
    if digits != [] {
      DigitsEndSpelled(text, sp + 1, digits[1..]);
    }
  }

  lemma {:induction false} DigitsSpelled(text: seq<byte>, sp: nat, digits: seq<byte>)
    requires LegalDigits(digits) && SpelledAt(text, sp, digits)
    requires At(text, sp + |digits|) == BACKSLASH || At(text, sp + |digits|) == COMMA
    ensures DigitsEnd(text, sp) == sp + |digits| && NumberError(text, sp) == 0
    ensures sp + |digits| < |text| && text[sp..sp + |digits|] == digits
  {
    DigitsEndSpelled(text, sp, digits);
    SpelledByte(text, sp, digits, 0);
    SpelledSlice(text, sp, digits);
  }

  lemma ExactSpelled(text: seq<byte>, sp: nat, lo: seq<byte>)
    requires LegalDigits(lo) && SpelledAt(text, sp, lo) && SpelledAt(text, sp + |lo|, [BACKSLASH, RBRACE])
    ensures LexInterval(text, sp) == Tok(TInterval(lo, Exact), sp + |lo| + 2)
  {
    SpelledByte(text, sp + |lo|, [BACKSLASH, RBRACE], 1);
    DigitsSpelled(text, sp, lo);
  }

  lemma UnlimitedSpelled(text: seq<byte>, k: nat, lo: seq<byte>)
    requires SpelledAt(text, k + 1, [BACKSLASH, RBRACE])
    ensures LexUpper(text, lo, k) == Tok(TInterval(lo, Unlimited), k + 3)
  {
    SpelledByte(text, k + 1, [BACKSLASH, RBRACE], 1);
  }

  lemma UpToRead(text: seq<byte>, k: nat, lo: seq<byte>, m: nat)
    requires At(text, k + 1) != BACKSLASH && DigitsEnd(text, k + 1) == m && NumberError(text, k + 1) == 0
    requires k < m < |text| && text[m] == BACKSLASH && At(text, m + 1) == RBRACE && Value(lo) <= Value(text[k + 1..m])
    ensures LexUpper(text, lo, k) == Tok(TInterval(lo, UpTo(text[k + 1..m])), m + 2)
  {
  }

  lemma UpToSpelled(text: seq<byte>, k: nat, lo: seq<byte>, hi: seq<byte>)
    requires LegalDigits(hi) && Value(lo) <= Value(hi)
    requires SpelledAt(text, k + 1, hi) && SpelledAt(text, k + 1 + |hi|, [BACKSLASH, RBRACE])
    ensures LexUpper(text, lo, k) == Tok(TInterval(lo, UpTo(hi)), k + |hi| + 3)
  {
    SpelledByte(text, k + 1, hi, 0);
    SpelledByte(text, k + 1 + |hi|, [BACKSLASH, RBRACE], 0);
    SpelledByte(text, k + 1 + |hi|, [BACKSLASH, RBRACE], 1);
    DigitsSpelled(text, k + 1, hi);
    UpToRead(text, k, lo, k + 1 + |hi|);
  }

  lemma CommaSpelled(text: seq<byte>, sp: nat, lo: seq<byte>)
    requires LegalDigits(lo) && SpelledAt(text, sp, lo) && At(text, sp + |lo|) == COMMA
    ensures LexInterval(text, sp) == LexUpper(text, lo, sp + |lo|)
  {
    DigitsSpelled(text, sp, lo);
  }

  lemma {:induction false} LexIntervalSpelled(text: seq<byte>, sp: nat, lo: seq<byte>, hi: Upper)
    requires LegalInterval(lo, hi) && SpelledAt(text, sp, lo + SpellUpper(hi))
    ensures LexInterval(text, sp) == Tok(TInterval(lo, hi), sp + |lo| + |SpellUpper(hi)|)
  {
    var k := sp + |lo|;
    SpelledSplit(text, sp, lo, SpellUpper(hi));
    if hi.Exact? {
      ExactSpelled(text, sp, lo);
    } else {
      UpperSpelled(text, k, lo, hi);
      CommaSpelled(text, sp, lo);
    }
  }

  lemma UpperSpelled(text: seq<byte>, k: nat, lo: seq<byte>, hi: Upper)
    requires LegalInterval(lo, hi) && !hi.Exact? && SpelledAt(text, k, SpellUpper(hi))
    ensures At(text, k) == COMMA && LexUpper(text, lo, k) == Tok(TInterval(lo, hi), k + |SpellUpper(hi)|)
  {
    SpelledByte(text, k, SpellUpper(hi), 0);
    if hi.Unlimited? {
      SpelledSplit(text, k, [COMMA], [BACKSLASH, RBRACE]);
      UnlimitedSpelled(text, k, lo);
    } else {
      SpelledSplit(text, k, [COMMA], hi.digits + [BACKSLASH, RBRACE]);
      SpelledSplit(text, k + 1, hi.digits, [BACKSLASH, RBRACE]);
      UpToSpelled(text, k, lo, hi.digits);
    }
  }

  /** The second byte of an escape. */
  function EscapeByte(t: Token): byte {
    match t
    case TChr(c, _) => if c == NEWLINE then LETTER_N else c
    case TOpen => LPAREN
    case TClose => RPAREN
    case TBack(d) => if d < 9 then ONE + d else ONE
    case _ => 0
  }

  lemma EscapeRead(text: seq<byte>, sp: nat, t: Token, eof: byte, last: int)
    requires sp + 1 < |text| && text[sp] == BACKSLASH && eof != BACKSLASH && EscapeLegal(t, last)
    requires text[sp + 1] == EscapeByte(t)
    ensures Lex(text, sp, eof, last) == Tok(t, sp + 2)
  {
  }

  lemma ByteRead(text: seq<byte>, sp: nat, t: Token, eof: byte, last: int)
    requires ByteLegal(t, last) && sp < |text| && text[sp] != eof
    requires text[sp] == if t.TChr? then t.c else if t.TStar? then ASTERISK else if t.TAny? then DOT else DOLLAR
    requires t == TChr(DOLLAR, false) ==> At(text, sp + 1) != eof && At(text, sp + 1) != NEWLINE
    requires t.TDol? ==> At(text, sp + 1) == eof
    ensures Lex(text, sp, eof, last) == Tok(t, sp + 1)
  {
  }

  lemma SetRead(text: seq<byte>, sp: nat, b: Bracket, eof: byte, last: int)
    requires LegalBracket(b) && SpelledAt(text, sp, SpellBracket(b)) && eof != LBRACKET
    ensures Lex(text, sp, eof, last) == Tok(TSet(b), sp + |SpellBracket(b)|)
  {
    LexBracketSpelled(text, sp, b);
  }

  lemma IntervalRead(text: seq<byte>, sp: nat, lo: seq<byte>, hi: Upper, eof: byte, last: int)
    requires LegalInterval(lo, hi) && SpelledAt(text, sp, [BACKSLASH, LBRACE] + (lo + SpellUpper(hi)))
    requires eof != BACKSLASH && last != -1
    ensures Lex(text, sp, eof, last) == Tok(TInterval(lo, hi), sp + 2 + |lo| + |SpellUpper(hi)|)
  {
    SpelledSplit(text, sp, [BACKSLASH, LBRACE], lo + SpellUpper(hi));
    SpelledByte(text, sp, [BACKSLASH, LBRACE], 0);
    SpelledByte(text, sp, [BACKSLASH, LBRACE], 1);
    LexIntervalSpelled(text, sp + 2, lo, hi);
    BoundsRead(text, sp, eof, last);
  }

  lemma BoundsRead(text: seq<byte>, sp: nat, eof: byte, last: int)
    requires sp + 1 < |text| && text[sp] == BACKSLASH && text[sp + 1] == LBRACE && eof != BACKSLASH && last != -1
    ensures Lex(text, sp, eof, last) == LexInterval(text, sp + 2)
  {
  }

  /** One token, spelled where it is legal and followed by a byte that is not mistaken, is read back. */
  lemma LexSpelled(text: seq<byte>, sp: nat, pre: seq<Token>, t: Token, eof: byte)
    requires LegalNext(pre, t, eof) && SpelledAt(text, sp, Spell(t))
    requires t == TChr(DOLLAR, false) ==> At(text, sp + 1) != eof && At(text, sp + 1) != NEWLINE
    requires t.TDol? ==> At(text, sp + 1) == eof
    ensures Lex(text, sp, eof, LastOp(pre)) == Tok(t, sp + |Spell(t)|)
  {
    SpelledByte(text, sp, Spell(t), 0);
    if t.TSet? {
      SetRead(text, sp, t.b, eof, LastOp(pre));
    } else if t.TInterval? {
      IntervalRead(text, sp, t.lo, t.hi, eof, LastOp(pre));
    } else if |Spell(t)| == 1 {
      ByteRead(text, sp, t, eof, LastOp(pre));
    } else {
      SpelledByte(text, sp, Spell(t), 1);
      EscapeRead(text, sp, t, eof, LastOp(pre));
    }
  }

  /** A spelled token begins with neither the delimiter nor a newline. */
  lemma SpellStarts(pre: seq<Token>, t: Token, eof: byte)
    requires LegalNext(pre, t, eof)
    ensures Spell(t)[0] != eof && Spell(t)[0] != NEWLINE
  {
  }

  /** at lists where the words of ws begin, put one after the other from sp on, and where the last ends. */
  predicate Laid(sp: nat, ws: seq<seq<byte>>, at: seq<nat>) {
    |at| == |ws| + 1 && at[0] == sp && forall j {:trigger ws[j]} :: 0 <= j < |ws| ==> at[j + 1] == at[j] + |ws[j]|
  }

  function Places(sp: nat, ws: seq<seq<byte>>): (at: seq<nat>)
    ensures Laid(sp, ws, at)
  {
    var at := seq(|ws| + 1, j requires 0 <= j <= |ws| => sp + |Join(ws, j)|);
    assert forall j {:trigger ws[j]} :: 0 <= j < |ws| ==> at[j + 1] == at[j] + |ws[j]|;
    at
  }

  /** Word number j stands at its place. */
  predicate WordAt(text: seq<byte>, at: seq<nat>, ws: seq<seq<byte>>, j: nat)
    requires j < |ws| < |at|
  {
    SpelledAt(text, at[j], ws[j])
  }

  lemma {:induction false} SpelledInParts(text: seq<byte>, sp: nat, ws: seq<seq<byte>>, at: seq<nat>, n: nat)
    requires Laid(sp, ws, at) && n <= |ws|
    ensures SpelledAt(text, sp, Join(ws, n)) <==> forall j :: 0 <= j < n ==> WordAt(text, at, ws, j)
    ensures at[n] == sp + |Join(ws, n)|
  {
    if n > 0 {
      SpelledInTwo(text, sp, Join(ws, n - 1), ws[n - 1]);
      SpelledInParts(text, sp, ws, at, n - 1);
      assert WordAt(text, at, ws, n - 1) <==> SpelledAt(text, at[n - 1], ws[n - 1]);
    }
  }

  lemma OneSpelled(text: seq<byte>, sp: nat, b: byte)
    ensures SpelledAt(text, sp, [b]) <==> sp < |text| && text[sp] == b
  {
    assert [b][1..] == [];
  }

  lemma SpelledInTwo(text: seq<byte>, sp: nat, u: seq<byte>, v: seq<byte>)
    ensures SpelledAt(text, sp, u + v) <==> SpelledAt(text, sp, u) && SpelledAt(text, sp + |u|, v)
  {
    if SpelledAt(text, sp, u + v) {
      SpelledSplit(text, sp, u, v);
    } else if SpelledAt(text, sp, u) && SpelledAt(text, sp + |u|, v) {
      SpelledJoin(text, sp, u, v);
    }
  }

  /** ws are the words of the tokens. */
  predicate WordOf(ts: seq<Token>, ws: seq<seq<byte>>, j: nat)
    requires j < |ts| == |ws|
  {
    ws[j] == Spell(ts[j])
  }

  lemma WordsOf(ts: seq<Token>)
    ensures |Words(ts)| == |ts| && forall j :: 0 <= j < |ts| ==> WordOf(ts, Words(ts), j)
  {
  }

  /** Of the places listed, the last has the delimiter and no other, and none a newline. */
  predicate Fenced(text: seq<byte>, at: seq<nat>, eof: byte) {
    forall j :: 0 <= j < |at| ==> (At(text, at[j]) == eof <==> j + 1 == |at|) && At(text, at[j]) != NEWLINE
  }

  /** The token t is read at q behind the tokens pre, from the word w. */
  predicate ReadsAs(text: seq<byte>, q: nat, pre: seq<Token>, t: Token, w: seq<byte>, eof: byte) {
    Lex(text, q, eof, LastOp(pre)) == Tok(t, q + |w|) && ContextError(pre, t) == 0
  }

  /** The tokens are read from the words, each at its place. */
  predicate ReadAt(text: seq<byte>, at: seq<nat>, ts: seq<Token>, ws: seq<seq<byte>>, j: nat, eof: byte)
    requires j < |ts| == |ws| < |at|
  {
    ReadsAs(text, at[j], ts[..j], ts[j], ws[j], eof)
  }

  /** A legal token is read where it is spelled, given what the byte behind it tells. */
  lemma TokenRead(text: seq<byte>, q: nat, ts: seq<Token>, j: nat, w: seq<byte>, eof: byte)
    requires j < |ts| && LegalAt(ts, j, eof) && w == Spell(ts[j]) && SpelledAt(text, q, w)
    requires (At(text, q + |w|) == eof <==> j + 1 == |ts|) && At(text, q + |w|) != NEWLINE
    ensures ReadsAs(text, q, ts[..j], ts[j], w, eof)
  {
    LexSpelled(text, q, ts[..j], ts[j], eof);
  }

  lemma WordStarts(text: seq<byte>, q: nat, ts: seq<Token>, j: nat, w: seq<byte>, eof: byte)
    requires j < |ts| && LegalAt(ts, j, eof) && w == Spell(ts[j]) && SpelledAt(text, q, w)
    ensures At(text, q) != eof && At(text, q) != NEWLINE
  {
    SpellStarts(ts[..j], ts[j], eof);
    SpelledByte(text, q, w, 0);
  }

  /** The tokens spelled at their places are read there. */
  lemma SpelledRead(text: seq<byte>, at: seq<nat>, ts: seq<Token>, ws: seq<seq<byte>>, j: nat, eof: byte)
    requires j < |ts| == |ws| && |at| == |ws| + 1 && LegalAt(ts, j, eof) && WordOf(ts, ws, j)
    requires WordAt(text, at, ws, j) && at[j + 1] == at[j] + |ws[j]|
    requires Fenced(text, at, eof)
    ensures ReadAt(text, at, ts, ws, j, eof)
  {
    TokenRead(text, at[j], ts, j, ws[j], eof);
  }

  /** What parsing from each place on gives. */
  function Parses(text: seq<byte>, at: seq<nat>, ts: seq<Token>, eof: byte): seq<Parsed>
    requires |at| == |ts| + 1
  {
    seq(|at|, j requires 0 <= j < |at| => Parse(text, at[j], eof, ts[..j]))
  }

  predicate KeptBy(ps: seq<Parsed>, p: Parsed, j: nat)
    requires j + 1 < |ps|
  {
    ps[j] == p ==> ps[j + 1] == p
  }

  lemma {:induction false} KeptAlong(ps: seq<Parsed>, p: Parsed, n: nat)
    requires n < |ps| && ps[0] == p && forall j :: 0 <= j < |ps| - 1 ==> KeptBy(ps, p, j)
    ensures ps[n] == p
  {
    if n > 0 {
      KeptAlong(ps, p, n - 1);
      assert KeptBy(ps, p, n - 1);
    }
  }

  lemma ParsesAt(text: seq<byte>, at: seq<nat>, ts: seq<Token>, eof: byte, j: nat)
    requires j < |at| == |ts| + 1
    ensures |Parses(text, at, ts, eof)| == |at| && Parses(text, at, ts, eof)[j] == Parse(text, at[j], eof, ts[..j])
  {
  }

  lemma ParseAlong(text: seq<byte>, at: seq<nat>, ts: seq<Token>, ws: seq<seq<byte>>, p: Parsed, j: nat, eof: byte)
    requires j < |ts| == |ws| && |at| == |ts| + 1 && at[j + 1] == at[j] + |ws[j]|
    requires Parse(text, at[j], eof, ts[..j]) == p ==> ReadAt(text, at, ts, ws, j, eof)
    ensures |Parses(text, at, ts, eof)| == |at| && KeptBy(Parses(text, at, ts, eof), p, j)
  {
    ParseStep(text, at[j], eof, ts, j, ws[j]);
    ParsesAt(text, at, ts, eof, j);
    ParsesAt(text, at, ts, eof, j + 1);
  }

  /** Tokens that are read one after the other are accepted. */
  lemma ReadAccepted(text: seq<byte>, at: seq<nat>, ts: seq<Token>, ws: seq<seq<byte>>, eof: byte)
    requires |ts| == |ws| && at != [] && Laid(at[0], ws, at)
    requires forall j :: 0 <= j < |ts| ==> ReadAt(text, at, ts, ws, j, eof)
    requires SpelledAt(text, at[|ts|], [eof]) && Pending(ts) == []
    ensures Parse(text, at[0], eof, []) == Accepted(ts, at[|ts|] + 1)
  {
    var ps := Parses(text, at, ts, eof);
    ParsesAt(text, at, ts, eof, 0);
    forall j | 0 <= j < |ps| - 1 ensures KeptBy(ps, ps[0], j) {
      assert ReadAt(text, at, ts, ws, j, eof);
      assert |ws[j]| >= 0;
      ParseAlong(text, at, ts, ws, ps[0], j, eof);
    }
    KeptAlong(ps, ps[0], |ts|);
    ParsesAt(text, at, ts, eof, |ts|);
    assert ts[..0] == [] && ts[..|ts|] == ts;
    OneSpelled(text, at[|ts|], eof);
    ParseEnds(text, at[|ts|], eof, ts);
  }

  lemma ParseStep(text: seq<byte>, q: nat, eof: byte, ts: seq<Token>, j: nat, w: seq<byte>)
    requires j < |ts|
    ensures ReadsAs(text, q, ts[..j], ts[j], w, eof) ==>
      Parse(text, q, eof, ts[..j]) == Parse(text, q + |w|, eof, ts[..j + 1])
  {
    PrefixSnoc(ts, j);
    ParseToken(text, q, eof, ts[..j], ts[j], q + |w|);
  }

  lemma ParseEnds(text: seq<byte>, sp: nat, eof: byte, ts: seq<Token>)
    ensures sp < |text| && text[sp] == eof && Pending(ts) == [] ==> Parse(text, sp, eof, ts) == Accepted(ts, sp + 1)
  {
  }

  lemma PrefixSnoc(ts: seq<Token>, j: nat)
    requires j < |ts|
    ensures ts[..j] + [ts[j]] == ts[..j + 1]
  {
  }

  lemma ParseToken(text: seq<byte>, sp: nat, eof: byte, pre: seq<Token>, t: Token, next: nat)
    ensures Lex(text, sp, eof, LastOp(pre)) == Tok(t, next) && ContextError(pre, t) == 0 ==>
      Parse(text, sp, eof, pre) == Parse(text, next, eof, pre + [t])
  {
  }

  /** Where the words of a legal pattern begin there is no delimiter. */
  lemma SpelledFenced(text: seq<byte>, at: seq<nat>, ts: seq<Token>, ws: seq<seq<byte>>, eof: byte)
    requires Legal(ts, eof) && |ts| == |ws| && |at| == |ws| + 1 && SpelledAt(text, at[|ws|], [eof])
    requires forall j :: 0 <= j < |ws| ==> WordOf(ts, ws, j) && WordAt(text, at, ws, j)
    ensures Fenced(text, at, eof)
  {
    OneSpelled(text, at[|ws|], eof);
    forall j | 0 <= j < |ws| ensures At(text, at[j]) != eof && At(text, at[j]) != NEWLINE {
      assert LegalAt(ts, j, eof) && WordOf(ts, ws, j) && WordAt(text, at, ws, j);
      WordStarts(text, at[j], ts, j, ws[j], eof);
    }
  }

  lemma SpelledAccepted(text: seq<byte>, at: seq<nat>, ts: seq<Token>, ws: seq<seq<byte>>, eof: byte)
    requires Legal(ts, eof) && |ts| == |ws| && at != [] && Laid(at[0], ws, at) && SpelledAt(text, at[|ws|], [eof])
    requires forall j :: 0 <= j < |ws| ==> WordOf(ts, ws, j) && WordAt(text, at, ws, j)
    ensures Parse(text, at[0], eof, []) == Accepted(ts, at[|ts|] + 1)
  {
    SpelledFenced(text, at, ts, ws, eof);
    forall j | 0 <= j < |ts| ensures ReadAt(text, at, ts, ws, j, eof) {
      assert LegalAt(ts, j, eof) && WordOf(ts, ws, j) && WordAt(text, at, ws, j) && |ws[j]| >= 0;
      SpelledRead(text, at, ts, ws, j, eof);
    }
    ReadAccepted(text, at, ts, ws, eof);
  }

  /** Every legal pattern, spelled before its delimiter, is accepted and read as itself. */
  lemma ParseSpelled(text: seq<byte>, sp: nat, ts: seq<Token>, eof: byte)
    requires Legal(ts, eof)
    requires SpelledAt(text, sp, SpellAll(ts)) && SpelledAt(text, sp + |SpellAll(ts)|, [eof])
    ensures Parse(text, sp, eof, []) == Accepted(ts, sp + |SpellAll(ts)| + 1)
  {
    WordsOf(ts);
    var at := Places(sp, Words(ts));
    SpelledInParts(text, sp, Words(ts), at, |ts|);
    SpelledAccepted(text, at, ts, Words(ts), eof);
  }

  /** A spelled pattern begins with the first byte of its first token. */
  lemma FirstSpelled(text: seq<byte>, sp: nat, ts: seq<Token>)
    requires ts != [] && SpelledAt(text, sp, SpellAll(ts))
    ensures sp < |text| && text[sp] == Spell(ts[0])[0]
  {
    WordsOf(ts);
    var at := Places(sp, Words(ts));
    SpelledInParts(text, sp, Words(ts), at, |ts|);
    assert WordAt(text, at, Words(ts), 0) && WordOf(ts, Words(ts), 0);
    SpelledByte(text, sp, Spell(ts[0]), 0);
  }

  // ---------------------------------------------------------------- what is accepted is spelled

  lemma {:induction false} SpelledJoin(text: seq<byte>, sp: nat, u: seq<byte>, v: seq<byte>)
    requires SpelledAt(text, sp, u) && SpelledAt(text, sp + |u|, v)
    ensures SpelledAt(text, sp, u + v)
    decreases |u|
  {
    if u == [] {
      assert u + v == v;
    } else {
      assert (u + v)[1..] == u[1..] + v;
      SpelledJoin(text, sp + 1, u[1..], v);
    }
  }

  lemma {:induction false} SliceSpelled(text: seq<byte>, i: nat, j: nat)
    requires i <= j <= |text|
    ensures SpelledAt(text, i, text[i..j])
    decreases j - i
  {
    if i < j {
      assert text[i..j][1..] == text[i + 1..j];
      SliceSpelled(text, i + 1, j);
    }
  }

  lemma TwoSpelled(text: seq<byte>, sp: nat, a: byte, b: byte)
    requires sp + 1 < |text| && text[sp] == a && text[sp + 1] == b
    ensures SpelledAt(text, sp, [a, b])
  {
    assert [a, b][1..] == [b] && [b][1..] == [];
    assert SpelledAt(text, sp + 1, [b]);
  }

  /** The elements read behind those collected in b, and the closing bracket, are spelled there. */
  lemma {:induction false} ElemsLexed(text: seq<byte>, sp: nat, b: Bracket) returns (more: seq<Elem>)
    requires NulFree(text) && !b.dash && LexElems(text, sp, b).Tok?
    ensures var r := LexElems(text, sp, b); var c := r.t.b;
      && c == Bracket(b.neg, b.first, b.more + more, c.dash)
      && (forall i :: 0 <= i < |more| ==> LegalElem(more[i]))
      && SpelledAt(text, sp, SpellElems(more) + Closing(c.dash)) && r.next == sp + |SpellElems(more) + Closing(c.dash)|
    decreases |text| - sp
  {
    var c := At(text, sp);
    if c == RBRACKET || (c == DASH && At(text, sp + 1) == RBRACKET) {
      more := [];
      var dash := c == DASH;
      assert b.more + more == b.more && SpellElems(more) + Closing(dash) == Closing(dash);
      if dash {
        TwoSpelled(text, sp, DASH, RBRACKET);
      }
    } else {
      var e := if c == DASH then To(text[sp + 1]) else Ch(c);
      var b2 := b.(more := b.more + [e]);
      var rest := ElemsLexed(text, sp + |SpellElem(e)|, b2);
      more := [e] + rest;
      ElemSpelled(text, sp, e);
      OneMore(text, sp, b, e, rest, LexElems(text, sp, b).t.b.dash);
    }
  }

  lemma ElemSpelled(text: seq<byte>, sp: nat, e: Elem)
    requires sp < |text|
    requires if e.Ch? then text[sp] == e.c else sp + 1 < |text| && text[sp] == DASH && text[sp + 1] == e.c
    ensures SpelledAt(text, sp, SpellElem(e))
  {
    if e.To? {
      TwoSpelled(text, sp, DASH, e.c);
    }
  }

  lemma OneMore(text: seq<byte>, sp: nat, b: Bracket, e: Elem, rest: seq<Elem>, dash: bool)
    requires SpelledAt(text, sp, SpellElem(e))
    requires SpelledAt(text, sp + |SpellElem(e)|, SpellElems(rest) + Closing(dash))
    ensures (b.more + [e]) + rest == b.more + ([e] + rest)
    ensures SpelledAt(text, sp, SpellElems([e] + rest) + Closing(dash))
    ensures |SpellElems([e] + rest) + Closing(dash)| == |SpellElem(e)| + |SpellElems(rest) + Closing(dash)|
  {
    ElemsCons(e, rest);
    Assoc(SpellElem(e), SpellElems(rest), Closing(dash));
    SpelledJoin(text, sp, SpellElem(e), SpellElems(rest) + Closing(dash));
  }

  lemma ElemsCons(e: Elem, rest: seq<Elem>)
    ensures SpellElems([e] + rest) == SpellElem(e) + SpellElems(rest)
  {
    assert ([e] + rest)[1..] == rest;
  }

  /** A bracket expression is spelled where it is read. */
  lemma BracketLexed(text: seq<byte>, sp: nat)
    requires NulFree(text) && sp < |text| && text[sp] == LBRACKET && LexBracket(text, sp + 1).Tok?
    ensures var r := LexBracket(text, sp + 1);
      LegalBracket(r.t.b) && SpelledAt(text, sp, SpellBracket(r.t.b)) && r.next == sp + |SpellBracket(r.t.b)|
  {
    var neg := At(text, sp + 1) == CARET;
    var p := if neg then sp + 2 else sp + 1;
    var b0 := Bracket(neg, At(text, p), [], false);
    var more := ElemsLexed(text, p + 1, b0);
    var b := LexBracket(text, sp + 1).t.b;
    assert b0.more + more == more;
    HeadSpelled(text, sp, b);
    SpelledJoin(text, sp, BracketHead(b), SpellElems(b.more) + Closing(b.dash));
  }

  lemma HeadSpelled(text: seq<byte>, sp: nat, b: Bracket)
    requires sp + 1 < |text| && text[sp] == LBRACKET
    requires !b.neg ==> text[sp + 1] == b.first
    requires b.neg ==> text[sp + 1] == CARET && sp + 2 < |text| && text[sp + 2] == b.first
    ensures SpelledAt(text, sp, BracketHead(b))
  {
    if b.neg {
      TwoSpelled(text, sp + 1, CARET, b.first);
      assert BracketHead(b)[1..] == [CARET, b.first];
    } else {
      TwoSpelled(text, sp, LBRACKET, b.first);
    }
  }

  lemma {:induction false} DigitsBetween(text: seq<byte>, sp: nat)
    requires sp <= |text|
    ensures forall i :: sp <= i < DigitsEnd(text, sp) ==> IsDigit(text[i])
    decreases |text| - sp
  {
    if sp < |text| && IsDigit(text[sp]) {
      DigitsBetween(text, sp + 1);
    }
  }

  /** A number read without error is spelled, and a backslash or a comma comes behind it. */
  lemma NumberLexed(text: seq<byte>, sp: nat)
    requires NumberError(text, sp) == 0 && sp <= |text|
    ensures var k := DigitsEnd(text, sp);
      && sp < k < |text| && LegalDigits(text[sp..k]) && SpelledAt(text, sp, text[sp..k])
      && (text[k] == BACKSLASH || text[k] == COMMA)
  {
    DigitsBetween(text, sp);
    SliceSpelled(text, sp, DigitsEnd(text, sp));
  }

  lemma UpperLexed(text: seq<byte>, lo: seq<byte>, k: nat)
    requires k < |text| && text[k] == COMMA && LexUpper(text, lo, k).Tok?
    ensures var r := LexUpper(text, lo, k);
      && r.t.lo == lo && SpelledAt(text, k, SpellUpper(r.t.hi)) && r.next == k + |SpellUpper(r.t.hi)|
      && (r.t.hi.UpTo? ==> LegalDigits(r.t.hi.digits) && Value(lo) <= Value(r.t.hi.digits))
  {
    var hi := LexUpper(text, lo, k).t.hi;
    assert SpelledAt(text, k, [COMMA]);
    if hi.Unlimited? {
      TwoSpelled(text, k + 1, BACKSLASH, RBRACE);
      SpelledJoin(text, k, [COMMA], [BACKSLASH, RBRACE]);
    } else {
      var m := DigitsEnd(text, k + 1);
      NumberLexed(text, k + 1);
      TwoSpelled(text, m, BACKSLASH, RBRACE);
      SpelledJoin(text, k + 1, text[k + 1..m], [BACKSLASH, RBRACE]);
      SpelledJoin(text, k, [COMMA], text[k + 1..m] + [BACKSLASH, RBRACE]);
    }
  }

  /** An interval is spelled where it is read. */
  lemma IntervalLexed(text: seq<byte>, sp: nat)
    requires sp <= |text| && LexInterval(text, sp).Tok?
    ensures var r := LexInterval(text, sp);
      && LegalInterval(r.t.lo, r.t.hi) && SpelledAt(text, sp, r.t.lo + SpellUpper(r.t.hi))
      && r.next == sp + |r.t.lo + SpellUpper(r.t.hi)|
  {
    var k := DigitsEnd(text, sp);
    NumberLexed(text, sp);
    if text[k] == COMMA {
      UpperLexed(text, text[sp..k], k);
    } else {
      TwoSpelled(text, k, BACKSLASH, RBRACE);
    }
    SpelledJoin(text, sp, text[sp..k], SpellUpper(LexInterval(text, sp).t.hi));
  }

  /** A token is legal and spelled where it is read. */
  lemma TokenLexed(text: seq<byte>, sp: nat, pre: seq<Token>, t: Token, next: nat, eof: byte)
    requires NulFree(text) && Lex(text, sp, eof, LastOp(pre)) == Tok(t, next) && ContextError(pre, t) == 0
    ensures LegalNext(pre, t, eof) && SpelledAt(text, sp, Spell(t)) && next == sp + |Spell(t)|
  {
    if t.TSet? {
      BracketLexed(text, sp);
    } else if t.TInterval? {
      IntervalLexed(text, sp + 2);
      TwoSpelled(text, sp, BACKSLASH, LBRACE);
      SpelledJoin(text, sp, [BACKSLASH, LBRACE], t.lo + SpellUpper(t.hi));
    } else if text[sp] == BACKSLASH {
      TwoSpelled(text, sp, BACKSLASH, text[sp + 1]);
    }
  }

  /** Behind a "$" stands what tells the literal from the anchor. */
  lemma DollarLexed(text: seq<byte>, sp: nat, last: int, t: Token, next: nat, eof: byte)
    requires Lex(text, sp, eof, last) == Tok(t, next)
    ensures t == TChr(DOLLAR, false) ==> At(text, next) != eof
    ensures t.TDol? ==> At(text, next) == eof || At(text, next) == NEWLINE
  {
  }

  /** Accepting keeps the tokens collected so far. */
  lemma {:induction false} ParseExtends(text: seq<byte>, sp: nat, eof: byte, ts: seq<Token>)
    ensures var p := Parse(text, sp, eof, ts); p.Accepted? ==> ts <= p.ts
    decreases |text| - sp
  {
    match Lex(text, sp, eof, LastOp(ts))
    case Tok(t, next) =>
      if ContextError(ts, t) == 0 {
        ParseExtends(text, next, eof, ts + [t]);
      }
    case _ =>
  }

  /** The next token of what is accepted is the one read at q. */
  lemma NextAccepted(text: seq<byte>, q: nat, ts: seq<Token>, j: nat, eof: byte, next: nat)
    requires NulFree(text) && j < |ts| && Parse(text, q, eof, ts[..j]) == Accepted(ts, next)
    ensures ReadsAs(text, q, ts[..j], ts[j], Spell(ts[j]), eof)
  {
    var r := Lex(text, q, eof, LastOp(ts[..j]));
    assert |ts[..j]| != |ts|;
    ParseExtends(text, r.next, eof, ts[..j] + [r.t]);
    assert (ts[..j] + [r.t])[j] == r.t;
    TokenLexed(text, q, ts[..j], r.t, r.next, eof);
  }

  lemma LastAccepted(text: seq<byte>, q: nat, ts: seq<Token>, eof: byte, next: nat)
    requires Parse(text, q, eof, ts) == Accepted(ts, next)
    ensures SpelledAt(text, q, [eof]) && Pending(ts) == []
  {
    var r := Lex(text, q, eof, LastOp(ts));
    if r.Tok? {
      ParseExtends(text, r.next, eof, ts + [r.t]);
    }
    OneSpelled(text, q, eof);
  }

  /** What is accepted has been read token by token. */
  lemma AcceptedSoFar(text: seq<byte>, at: seq<nat>, ts: seq<Token>, ws: seq<seq<byte>>, n: nat, eof: byte, next: nat)
    requires NulFree(text) && n <= |ts| == |ws| && (forall i :: 0 <= i < |ts| ==> WordOf(ts, ws, i))
    requires at != [] && Laid(at[0], ws, at)
    requires Parse(text, at[0], eof, []) == Accepted(ts, next)
    ensures Parse(text, at[n], eof, ts[..n]) == Accepted(ts, next)
  {
    var ps, p := Parses(text, at, ts, eof), Accepted(ts, next);
    ParsesAt(text, at, ts, eof, 0);
    assert ts[..0] == [];
    forall j | 0 <= j < |ps| - 1 ensures KeptBy(ps, p, j) {
      assert WordOf(ts, ws, j) && |ws[j]| >= 0;
      AcceptedHere(text, at, ts, ws, j, eof, next);
      ParseAlong(text, at, ts, ws, p, j, eof);
    }
    ParsesAt(text, at, ts, eof, n);
    KeptAlong(ps, p, n);
  }

  lemma AcceptedHere(text: seq<byte>, at: seq<nat>, ts: seq<Token>, ws: seq<seq<byte>>, j: nat, eof: byte, next: nat)
    requires NulFree(text) && j < |ts| == |ws| < |at| && WordOf(ts, ws, j)
    ensures Parse(text, at[j], eof, ts[..j]) == Accepted(ts, next) ==> ReadAt(text, at, ts, ws, j, eof)
  {
    if Parse(text, at[j], eof, ts[..j]) == Accepted(ts, next) {
      NextAccepted(text, at[j], ts, j, eof, next);
    }
  }

  lemma AcceptedRead(text: seq<byte>, at: seq<nat>, ts: seq<Token>, ws: seq<seq<byte>>, j: nat, eof: byte, next: nat)
    requires NulFree(text) && j < |ts| == |ws| && (forall i :: 0 <= i < |ts| ==> WordOf(ts, ws, i))
    requires at != [] && Laid(at[0], ws, at)
    requires Parse(text, at[0], eof, []) == Accepted(ts, next)
    ensures ReadAt(text, at, ts, ws, j, eof)
  {
    AcceptedSoFar(text, at, ts, ws, j, eof, next);
    assert WordOf(ts, ws, j);
    AcceptedHere(text, at, ts, ws, j, eof, next);
  }

  lemma AcceptedEnds(text: seq<byte>, at: seq<nat>, ts: seq<Token>, ws: seq<seq<byte>>, eof: byte, next: nat)
    requires NulFree(text) && |ws| == |ts| && (forall i :: 0 <= i < |ts| ==> WordOf(ts, ws, i))
    requires at != [] && Laid(at[0], ws, at)
    requires Parse(text, at[0], eof, []) == Accepted(ts, next)
    ensures SpelledAt(text, at[|ts|], [eof]) && Pending(ts) == []
  {
    AcceptedSoFar(text, at, ts, ws, |ts|, eof, next);
    assert ts[..|ts|] == ts;
    LastAccepted(text, at[|ts|], ts, eof, next);
  }

  /** A token that is read is legal and spelled, and what stands behind it tells the "$" from the anchor. */
  lemma StepLegal(text: seq<byte>, q: nat, pre: seq<Token>, t: Token, w: seq<byte>, eof: byte)
    requires NulFree(text) && ReadsAs(text, q, pre, t, w, eof)
    ensures LegalNext(pre, t, eof) && SpelledAt(text, q, Spell(t))
    ensures t == TChr(DOLLAR, false) ==> At(text, q + |w|) != eof
    ensures t.TDol? ==> At(text, q + |w|) == eof || At(text, q + |w|) == NEWLINE
  {
    TokenLexed(text, q, pre, t, q + |w|, eof);
    DollarLexed(text, q, LastOp(pre), t, q + |w|, eof);
  }

  lemma TokenStarts(text: seq<byte>, q: nat, pre: seq<Token>, t: Token, w: seq<byte>, eof: byte)
    ensures ReadsAs(text, q, pre, t, w, eof) ==> At(text, q) != eof && At(text, q) != NEWLINE
  {
  }

  /** Where a token is read there is no delimiter. */
  lemma ReadFenced(text: seq<byte>, at: seq<nat>, ts: seq<Token>, ws: seq<seq<byte>>, eof: byte)
    requires eof != NEWLINE && |ts| == |ws| && |at| == |ws| + 1 && SpelledAt(text, at[|ws|], [eof])
    requires forall j :: 0 <= j < |ts| ==> ReadAt(text, at, ts, ws, j, eof)
    ensures Fenced(text, at, eof)
  {
    OneSpelled(text, at[|ws|], eof);
    forall j | 0 <= j < |ws| ensures At(text, at[j]) != eof && At(text, at[j]) != NEWLINE {
      assert ReadAt(text, at, ts, ws, j, eof);
      TokenStarts(text, at[j], ts[..j], ts[j], ws[j], eof);
    }
  }

  lemma ReadLegal(text: seq<byte>, at: seq<nat>, ts: seq<Token>, ws: seq<seq<byte>>, j: nat, eof: byte)
    requires NulFree(text) && j < |ts| == |ws| && |at| == |ws| + 1
    requires WordOf(ts, ws, j) && at[j + 1] == at[j] + |ws[j]|
    requires ReadAt(text, at, ts, ws, j, eof) && Fenced(text, at, eof)
    ensures LegalAt(ts, j, eof) && WordAt(text, at, ws, j)
  {
    StepLegal(text, at[j], ts[..j], ts[j], ws[j], eof);
  }

  lemma AcceptedLegal(text: seq<byte>, at: seq<nat>, ts: seq<Token>, ws: seq<seq<byte>>, eof: byte, next: nat)
    requires NulFree(text) && eof != 0 && eof != NEWLINE && |ts| == |ws| && at != [] && Laid(at[0], ws, at)
    requires forall j :: 0 <= j < |ws| ==> WordOf(ts, ws, j)
    requires Parse(text, at[0], eof, []) == Accepted(ts, next)
    ensures Legal(ts, eof) && SpelledAt(text, at[|ws|], [eof])
    ensures forall j :: 0 <= j < |ws| ==> WordAt(text, at, ws, j)
  {
    forall j | 0 <= j < |ts| ensures ReadAt(text, at, ts, ws, j, eof) {
      AcceptedRead(text, at, ts, ws, j, eof, next);
    }
    AcceptedEnds(text, at, ts, ws, eof, next);
    ReadFenced(text, at, ts, ws, eof);
    forall j | 0 <= j < |ts| ensures LegalAt(ts, j, eof) && WordAt(text, at, ws, j) {
      assert ReadAt(text, at, ts, ws, j, eof) && WordOf(ts, ws, j) && |ws[j]| >= 0;
      ReadLegal(text, at, ts, ws, j, eof);
    }
  }

  /** What is accepted is a legal pattern, spelled before the delimiter. */
  lemma AcceptedSpelled(text: seq<byte>, sp: nat, ts: seq<Token>, eof: byte, next: nat)
    requires NulFree(text) && eof != 0 && eof != NEWLINE && Parse(text, sp, eof, []) == Accepted(ts, next)
    ensures Legal(ts, eof) && SpelledAt(text, sp, SpellAll(ts)) && SpelledAt(text, sp + |SpellAll(ts)|, [eof])
  {
    WordsOf(ts);
    var at := Places(sp, Words(ts));
    AcceptedLegal(text, at, ts, Words(ts), eof, next);
    SpelledInParts(text, sp, Words(ts), at, |ts|);
  }

  /** The texts that are accepted are exactly the spellings of legal patterns before the delimiter, and
      each is read as the pattern it spells. */
  lemma ParseIffSpelled(text: seq<byte>, sp: nat, ts: seq<Token>, eof: byte, next: nat)
    requires NulFree(text) && eof != 0 && eof != NEWLINE
    ensures Parse(text, sp, eof, []) == Accepted(ts, next) <==>
      (&& Legal(ts, eof) && SpelledAt(text, sp, SpellAll(ts)) && SpelledAt(text, sp + |SpellAll(ts)|, [eof])
       && next == sp + |SpellAll(ts)| + 1)
  {
    if Parse(text, sp, eof, []) == Accepted(ts, next) {
      AcceptedSpelled(text, sp, ts, eof, next);
    }
    if Legal(ts, eof) && SpelledAt(text, sp, SpellAll(ts)) && SpelledAt(text, sp + |SpellAll(ts)|, [eof]) {
      ParseSpelled(text, sp, ts, eof);
    }
  }

  // ---------------------------------------------------------------- accepted patterns are well scoped

  predicate ContextOk(ts: seq<Token>) {
    ts == [] || (ContextOk(ts[..|ts| - 1]) && ContextError(ts[..|ts| - 1], ts[|ts| - 1]) == 0)
  }

  ghost function BegunAll(items: seq<Item>, b: set<nat>): set<nat> {
    if items == [] then b else BegunAll(items[1..], BegunAfter(items[0], b))
  }

  ghost function EndedAll(items: seq<Item>, e: set<nat>): set<nat> {
    if items == [] then e else EndedAll(items[1..], EndedAfter(items[0], e))
  }

  lemma {:induction false} ScopedAppend(items: seq<Item>, it: Item, b: set<nat>, e: set<nat>)
    requires Scoped(items, b, e) && Scoped([it], BegunAll(items, b), EndedAll(items, e))
    ensures Scoped(items + [it], b, e)
    ensures BegunAll(items + [it], b) == BegunAfter(it, BegunAll(items, b))
    ensures EndedAll(items + [it], e) == EndedAfter(it, EndedAll(items, e))
    decreases |items|
  {
    if items == [] {
      assert items + [it] == [it];
    } else {
      assert (items + [it])[0] == items[0] && (items + [it])[1..] == items[1..] + [it];
      ScopedAppend(items[1..], it, BegunAfter(items[0], b), EndedAfter(items[0], e));
    }
  }

  /** A quantifier token changes only the last item. */
  lemma QuantifierShape(pre: seq<Token>, atom: Token, t: Token)
    requires IsAtom(atom) && (t.TStar? || t.TInterval?)
    ensures ItemsOf(pre + [atom]) == ItemsOf(pre) + [Single(AtomOf(atom), Once)]
    ensures ItemsOf(pre + [atom] + [t]) == ItemsOf(pre) + [Single(AtomOf(atom), QuantOf(t))]
  {
    ItemsOfAppend(pre, atom);
    ItemsOfAppend(pre + [atom], t);
    var items := ItemsOf(pre) + [Single(AtomOf(atom), Once)];
    assert items[|items| - 1 := Single(AtomOf(atom), QuantOf(t))] == ItemsOf(pre) + [Single(AtomOf(atom), QuantOf(t))];
  }

  lemma ItemsOfAppend(pre: seq<Token>, t: Token)
    ensures
      var items := ItemsOf(pre);
      ItemsOf(pre + [t]) ==
      if IsAtom(t) then items + [Single(AtomOf(t), Once)]
      else if t.TOpen? then items + [Open(Opens(pre))]
      else if t.TClose? then items + [Close(if Pending(pre) == [] then 0 else Pending(pre)[|Pending(pre)| - 1])]
      else if t.TBack? then items + [Back(t.d)]
      else if t.TDol? then items + [EndAnchor]
      else if items != [] && items[|items| - 1].Single? then
        items[|items| - 1 := Single(items[|items| - 1].a, QuantOf(t))]
      else items + [EndAnchor]
  {
    var ts := pre + [t];
    assert ts[..|ts| - 1] == pre && ts[|ts| - 1] == t;
  }

  lemma GroupsAppend(pre: seq<Token>, t: Token)
    ensures Opens(pre + [t]) == Opens(pre) + if t.TOpen? then 1 else 0
    ensures Closes(pre + [t]) == Closes(pre) + if t.TClose? then 1 else 0
    ensures Pending(pre + [t]) ==
      if t.TOpen? then Pending(pre) + [Opens(pre)]
      else if t.TClose? && Pending(pre) != [] then Pending(pre)[..|Pending(pre)| - 1]
      else Pending(pre)
  {
    var ts := pre + [t];
    assert ts[..|ts| - 1] == pre && ts[|ts| - 1] == t;
  }

  /** What holds of the groups after some tokens: their items, the groups pending and how many were opened. */
  ghost predicate GroupsOk(items: seq<Item>, stack: seq<nat>, opens: nat) {
    && opens <= NBRA
    && Scoped(items, {}, {})
    && (forall k :: k in BegunAll(items, {}) <==> k in stack)
    && (forall k :: k in stack ==> k < opens)
    && (forall k :: k in EndedAll(items, {}) ==> k < opens && k !in stack)
    && (forall i, j :: 0 <= i < j < |stack| ==> stack[i] < stack[j])
    && (forall k :: Close(k) in items ==> k in EndedAll(items, {}))
    && (forall k :: 0 <= k < opens ==> k in stack || Close(k) in items)
  }

  lemma GroupsPlain(items: seq<Item>, stack: seq<nat>, opens: nat, it: Item)
    requires GroupsOk(items, stack, opens) && (it.Single? || it.EndAnchor? || (it.Back? && Close(it.k) in items))
    ensures GroupsOk(items + [it], stack, opens)
  {
    ScopedAppend(items, it, {}, {});
  }

  lemma GroupsOpen(items: seq<Item>, stack: seq<nat>, opens: nat)
    requires GroupsOk(items, stack, opens) && opens < NBRA
    ensures GroupsOk(items + [Open(opens)], stack + [opens], opens + 1)
  {
    ScopedAppend(items, Open(opens), {}, {});
    var grown := stack + [opens];
    forall i, j | 0 <= i < j < |grown| ensures grown[i] < grown[j] {
      assert stack == [] || grown[i] in stack;
    }
  }

  lemma GroupsClose(items: seq<Item>, stack: seq<nat>, opens: nat)
    requires GroupsOk(items, stack, opens) && stack != []
    ensures GroupsOk(items + [Close(stack[|stack| - 1])], stack[..|stack| - 1], opens)
  {
    var k, rest := stack[|stack| - 1], stack[..|stack| - 1];
    assert k in stack && stack == rest + [k];
    ScopedAppend(items, Close(k), {}, {});
    forall j | j in rest ensures j != k && j in stack {
    }
    forall j | 0 <= j < opens ensures j in rest || Close(j) in items + [Close(k)] {
      assert j in stack || Close(j) in items;
    }
  }

  /** The groups after the tokens ts. */
  ghost predicate TokensOk(ts: seq<Token>) {
    GroupsOk(ItemsOf(ts), Pending(ts), Opens(ts))
  }

  lemma AtomGroups(pre: seq<Token>, t: Token)
    requires TokensOk(pre) && RegularNext(pre, t) && (IsAtom(t) || t.TBack? || t.TDol?)
    ensures TokensOk(pre + [t])
  {
    ItemsOfAppend(pre, t);
    GroupsAppend(pre, t);
    var it := if IsAtom(t) then Single(AtomOf(t), Once) else if t.TBack? then Back(t.d) else EndAnchor;
    GroupsPlain(ItemsOf(pre), Pending(pre), Opens(pre), it);
  }

  lemma BraceGroups(pre: seq<Token>, t: Token)
    requires TokensOk(pre) && (t.TOpen? || t.TClose?) && ContextError(pre, t) == 0
    ensures TokensOk(pre + [t])
  {
    ItemsOfAppend(pre, t);
    GroupsAppend(pre, t);
    if t.TOpen? {
      GroupsOpen(ItemsOf(pre), Pending(pre), Opens(pre));
    } else {
      GroupsClose(ItemsOf(pre), Pending(pre), Opens(pre));
    }
  }

  lemma QuantifierGroups(pre: seq<Token>, atom: Token, t: Token)
    requires TokensOk(pre) && IsAtom(atom) && (t.TStar? || t.TInterval?)
    ensures TokensOk(pre + [atom] + [t])
  {
    GroupsAppend(pre, atom);
    GroupsAppend(pre + [atom], t);
    QuantifierShape(pre, atom, t);
    GroupsPlain(ItemsOf(pre), Pending(pre), Opens(pre), Single(AtomOf(atom), QuantOf(t)));
  }

  lemma {:induction false} GroupsAreOk(ts: seq<Token>)
    requires ContextOk(ts) && Regular(ts)
    ensures TokensOk(ts)
    decreases |ts|
  {
    if ts != [] {
      var n := |ts| - 1;
      var pre, t := ts[..n], ts[n];
      assert ts == pre + [t];
      if t.TStar? || t.TInterval? {
        var pre2, atom := pre[..n - 1], pre[n - 1];
        assert pre == pre2 + [atom];
        GroupsAreOk(pre2);
        QuantifierGroups(pre2, atom, t);
      } else {
        GroupsAreOk(pre);
        if t.TOpen? || t.TClose? {
          BraceGroups(pre, t);
        } else {
          AtomGroups(pre, t);
        }
      }
    }
  }
}
