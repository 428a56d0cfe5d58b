/** The pattern compiler: one pass over the text, writing bytecode into a buffer and patching the
    opcode of the previous item when a quantifier follows. */
module RegexCompile {
  import opened Bytes
  import opened RegexSemantics
  import opened RegexBytecode
  import opened RegexSyntax

  // ---------------------------------------------------------------- bracket bitmaps

  /** The first n bytes at ep are the bitmap of the characters p accepts. */
  ghost predicate Bitmap(code: seq<byte>, ep: nat, n: nat, p: int -> bool) {
    ep + n <= |code| && forall c :: 0 <= c < 8 * n ==> IsThere(code, ep, c) == p(c)
  }

  lemma PlaceBit(code: seq<byte>, ep: nat, n: nat, x: nat, p: int -> bool)
    requires Bitmap(code, ep, n, p) && x < 8 * n
    ensures Bitmap(code[ep + x / 8 := SetBit(code[ep + x / 8], x % 8)], ep, n, c => c == x || p(c))
  {
    var code2 := code[ep + x / 8 := SetBit(code[ep + x / 8], x % 8)];
    forall c | 0 <= c < 8 * n ensures IsThere(code2, ep, c) == (c == x || p(c)) {
      assert IsThere(code, ep, c) == p(c);
      if c / 8 == x / 8 {
        assert Bit(code2[ep + c / 8], c % 8) == (c % 8 == x % 8 || Bit(code[ep + c / 8], c % 8));
      }
    }
  }

  lemma SamePredicate(code: seq<byte>, ep: nat, n: nat, p: int -> bool, q: int -> bool)
    requires Bitmap(code, ep, n, p) && forall c :: 0 <= c < 8 * n ==> p(c) == q(c)
    ensures Bitmap(code, ep, n, q)
  {
    forall c | 0 <= c < 8 * n ensures IsThere(code, ep, c) == q(c) {
      assert IsThere(code, ep, c) == p(c);
    }
  }

  function Names(b: Bracket): int -> bool {
    (c: int) => 0 <= c < 256 && Listed(b, c)
  }

  /** PLACE(c): set one bit. */
  method Place(buf: array<byte>, ep: nat, c: nat, n: nat, ghost p: int -> bool)
    requires c < 8 * n && ep + n <= buf.Length && Bitmap(buf[..], ep, n, p)
    modifies buf
    ensures Bitmap(buf[..], ep, n, x => x == c || p(x))
    ensures forall i :: 0 <= i < buf.Length && !(ep <= i < ep + n) ==> buf[i] == old(buf[i])
  {
    ghost var code := buf[..];
    buf[ep + c / 8] := SetBit(buf[ep + c / 8], c % 8);
    assert buf[..] == code[ep + c / 8 := SetBit(code[ep + c / 8], c % 8)];
    PlaceBit(code, ep, n, c, p);
  }

  /** Clear the bytes [from, to) of the bitmap at ep. */
  method Clear(buf: array<byte>, ep: nat, from: nat, to: nat)
    requires from <= to && ep + to <= buf.Length
    modifies buf
    ensures forall i :: ep + from <= i < ep + to ==> buf[i] == 0
    ensures forall i :: 0 <= i < buf.Length && !(ep + from <= i < ep + to) ==> buf[i] == old(buf[i])
  {
    var i := from;
    while i < to
      invariant from <= i <= to
      invariant forall j :: ep + from <= j < ep + i ==> buf[j] == 0
      invariant forall j :: 0 <= j < buf.Length && !(ep + from <= j < ep + i) ==> buf[j] == old(buf[j])
    {
      buf[ep + i] := 0;
      i := i + 1;
    }
  }

  lemma {:induction false} ZeroBits(k: nat)
    ensures !Bit(0, k)
  {
    if k > 0 { ZeroBits(k - 1); }
  }

  lemma EmptyBitmap(code: seq<byte>, ep: nat, n: nat)
    requires ep + n <= |code| && forall i :: ep <= i < ep + n ==> code[i] == 0
    ensures Bitmap(code, ep, n, c => false)
  {
    forall c | 0 <= c < 8 * n ensures IsThere(code, ep, c) == false {
      ZeroBits(c % 8);
    }
  }

  /** Switch to the wide bitmap: the upper half starts empty. */
  method Widen(buf: array<byte>, ep: nat, ghost b: Bracket)
    requires 0 < ep && ep + 32 <= buf.Length && Bitmap(buf[..], ep, 16, Names(b)) && ProperAtom(Set(b)) && !Wide(b)
    modifies buf
    ensures buf[ep - 1] == CXCL && Bitmap(buf[..], ep, 32, Names(b))
    ensures forall i :: 0 <= i < buf.Length && !(ep - 1 <= i < ep + 32) ==> buf[i] == old(buf[i])
  {
    ghost var code := buf[..];
    buf[ep - 1] := CXCL;
    Clear(buf, ep, 16, 32);
    WidenedBits(code, buf[..], ep, b);
  }

  lemma WidenedBits(code: seq<byte>, code2: seq<byte>, ep: nat, b: Bracket)
    requires ep + 32 <= |code| == |code2| && Bitmap(code, ep, 16, Names(b)) && ProperAtom(Set(b)) && !Wide(b)
    requires forall i :: ep <= i < ep + 16 ==> code2[i] == code[i]
    requires forall i :: ep + 16 <= i < ep + 32 ==> code2[i] == 0
    ensures Bitmap(code2, ep, 32, Names(b))
  {
    forall c | 0 <= c < 256 ensures IsThere(code2, ep, c) == Names(b)(c) {
      ListedBounds(b, c);
      if c < 128 {
        assert IsThere(code, ep, c) == Names(b)(c);
      } else {
        ZeroBits(c % 8);
      }
    }
  }

  /** Complement the wide bitmap, then clear NUL. */
  method Negate(buf: array<byte>, ep: nat, ghost b: Bracket)
    requires ep + 32 <= buf.Length && Bitmap(buf[..], ep, 32, Names(b))
    modifies buf
    ensures Bitmap(buf[..], ep, 32, c => c != 0 && !Names(b)(c))
    ensures forall i :: 0 <= i < buf.Length && !(ep <= i < ep + 32) ==> buf[i] == old(buf[i])
  {
    ghost var code := buf[..];
    var i := 0;
    while i < 32
      invariant 0 <= i <= 32
      invariant forall j :: ep <= j < ep + i ==> buf[j] == Complement(code[j])
      invariant forall j :: 0 <= j < buf.Length && !(ep <= j < ep + i) ==> buf[j] == code[j]
    {
      buf[ep + i] := Complement(buf[ep + i]);
      i := i + 1;
    }
    buf[ep] := ClearLow(buf[ep]);
    NegatedBits(code, buf[..], ep, Names(b));
  }

  lemma NegatedBits(code: seq<byte>, code2: seq<byte>, ep: nat, p: int -> bool)
    requires |code| == |code2| && Bitmap(code, ep, 32, p)
    requires code2[ep] == ClearLow(Complement(code[ep]))
    requires forall j :: ep < j < ep + 32 ==> code2[j] == Complement(code[j])
    ensures Bitmap(code2, ep, 32, c => c != 0 && !p(c))
  {
    forall c | 0 <= c < 256 ensures IsThere(code2, ep, c) == (c != 0 && !p(c)) {
      assert IsThere(code, ep, c) == p(c);
      assert Bit(Complement(code[ep + c / 8]), c % 8) == !Bit(code[ep + c / 8], c % 8);
    }
  }

  lemma AddElem(b: Bracket, e: Elem, c: byte)
    requires !b.dash
    ensures Listed(b.(more := b.more + [e]), c) == (Listed(b, c) || c == e.c || (e.To? && LastChar(b) <= c <= e.c))
  {
    var b2 := b.(more := b.more + [e]);
    assert b2.more[..|b2.more| - 1] == b.more;
    assert Init(b2) == b;
  }

  lemma AddDash(b: Bracket, c: byte)
    requires !b.dash
    ensures Listed(b.(dash := true), c) == (Listed(b, c) || c == DASH)
  {
    if b.more != [] {
      assert Init(b.(dash := true)) == Init(b);
    }
  }

  lemma MarksElem(code: seq<byte>, ep: nat, n: nat, b: Bracket, e: Elem, p: int -> bool)
    requires Bitmap(code, ep, n, p) && n <= 32 && !b.dash
    requires forall c :: 0 <= c < 256 ==> p(c) == (Listed(b, c) || c == e.c || (e.To? && LastChar(b) <= c < e.c))
    ensures Bitmap(code, ep, n, Names(b.(more := b.more + [e])))
  {
    forall c | 0 <= c < 8 * n ensures p(c) == Names(b.(more := b.more + [e]))(c) {
      AddElem(b, e, c);
    }
    SamePredicate(code, ep, n, p, Names(b.(more := b.more + [e])));
  }

  /** while (lc < c) PLACE(lc++), then PLACE(c): the range that ends with c. */
  method PlaceRange(buf: array<byte>, ep: nat, from: byte, c: byte, n: nat, ghost b: Bracket)
    requires n <= 32 && c < 8 * n && ep + n <= buf.Length && Bitmap(buf[..], ep, n, Names(b)) && !b.dash
    requires from == LastChar(b)
    modifies buf
    ensures Bitmap(buf[..], ep, n, Names(b.(more := b.more + [To(c)])))
    ensures forall i :: 0 <= i < buf.Length && !(ep <= i < ep + n) ==> buf[i] == old(buf[i])
  {
    var lc: nat := from;
    SamePredicate(buf[..], ep, n, Names(b), x => Names(b)(x) || from <= x < lc);
    while lc < c
      invariant from <= lc && (lc <= c || lc == from)
      invariant Bitmap(buf[..], ep, n, x => Names(b)(x) || from <= x < lc)
      invariant forall i :: 0 <= i < buf.Length && !(ep <= i < ep + n) ==> buf[i] == old(buf[i])
    {
      Place(buf, ep, lc, n, x => Names(b)(x) || from <= x < lc);
      SamePredicate(buf[..], ep, n, x => x == lc || Names(b)(x) || from <= x < lc,
                    x => Names(b)(x) || from <= x < lc + 1);
      lc := lc + 1;
    }
    Place(buf, ep, c, n, x => Names(b)(x) || from <= x < lc);
    MarksElem(buf[..], ep, n, b, To(c), x => x == c || Names(b)(x) || from <= x < lc);
  }

  lemma MarksDash(code: seq<byte>, ep: nat, n: nat, b: Bracket)
    requires Bitmap(code, ep, n, x => x == DASH || Names(b)(x)) && n <= 32 && !b.dash
    ensures Bitmap(code, ep, n, Names(b.(dash := true)))
  {
    forall c | 0 <= c < 8 * n ensures (c == DASH || Names(b)(c)) == Names(b.(dash := true))(c) {
      AddDash(b, c);
    }
    SamePredicate(code, ep, n, x => x == DASH || Names(b)(x), Names(b.(dash := true)));
  }

  lemma WideGrows(b: Bracket, e: Elem)
    ensures Wide(b.(more := b.more + [e])) == (Wide(b) || e.c >= 128)
    ensures ProperAtom(Set(b)) && e.c != 0 ==> ProperAtom(Set(b.(more := b.more + [e])))
  {
    var more := b.more + [e];
    assert more[|b.more|] == e && forall i :: 0 <= i < |b.more| ==> more[i] == b.more[i];
  }

  /** The bytes at ep - 1 hold opcode and bitmap of the elements b, 32 bytes wide if wide. */
  ghost predicate Marked(code: seq<byte>, ep: nat, endbuf: nat, wide: bool, b: Bracket) {
    && 0 < ep && ep + 16 < endbuf < |code| && (wide ==> ep + 32 < endbuf)
    && ProperAtom(Set(b)) && wide == Wide(b)
    && Bitmap(code, ep, if wide then 32 else 16, Names(b))
    && code[ep - 1] == if wide then CXCL else CCL
  }

  /** Mark one more element; false if the wide form does not fit. */
  method MarkElem(buf: array<byte>, ep: nat, endbuf: nat, wide0: bool, lc: byte, e: Elem, ghost b: Bracket)
    returns (ok: bool, wide: bool)
    requires Marked(buf[..], ep, endbuf, wide0, b) && !b.dash && lc == LastChar(b) && e.c != 0
    modifies buf
    ensures forall i :: 0 <= i < buf.Length && !(ep - 1 <= i < ep + 32) ==> buf[i] == old(buf[i])
    ensures ok ==> Marked(buf[..], ep, endbuf, wide, b.(more := b.more + [e]))
    ensures !ok ==> endbuf <= ep + 32
  {
    WideGrows(b, e);
    wide, ok := wide0, true;
    if e.c >= 128 && !wide {
      if ep + 32 >= endbuf {
        ok := false;
        return;
      }
      Widen(buf, ep, b);
      wide := true;
    }
    var n := if wide then 32 else 16;
    if e.To? {
      PlaceRange(buf, ep, lc, e.c, n, b);
    } else {
      Place(buf, ep, e.c, n, Names(b));
      MarksElem(buf[..], ep, n, b, e, x => x == e.c || Names(b)(x));
    }
  }

  /** Outcome of compiling a bracket expression. */
  datatype BracketResult = Done(sp: nat, wide: bool) | Failed(code: nat) | Overrun

  /** What a bracket compiled from sp says, when lex is how the text reads there. */
  ghost predicate BracketOk(r: BracketResult, lex: Lexeme, code: seq<byte>, ep: nat, endbuf: nat, b: Bracket) {
    match r
    case Done(sp, wide) => lex == Tok(TSet(b), sp) && Marked(code, ep, endbuf, wide, b)
    case Failed(err) => (err == 50 && endbuf <= ep + 32) || lex == Bad(err)
    case Overrun => lex.RunOff?
  }

  /** The loop over the elements after the first, whose bitmap is already at ep. */
  method CompileElems(text: seq<byte>, sp0: nat, buf: array<byte>, ep: nat, endbuf: nat, wide0: bool, lc0: byte,
                      ghost b0: Bracket)
    returns (r: BracketResult, ghost b: Bracket)
    requires NulFree(text) && sp0 <= |text|
    requires Marked(buf[..], ep, endbuf, wide0, b0) && !b0.dash && lc0 == LastChar(b0)
    modifies buf
    ensures forall i :: 0 <= i < buf.Length && !(ep - 1 <= i < ep + 32) ==> buf[i] == old(buf[i])
    ensures BracketOk(r, LexElems(text, sp0, b0), buf[..], ep, endbuf, b)
    ensures b.neg == b0.neg
  {
    b := b0;
    var sp, wide, lc := sp0, wide0, lc0;
    while true
      invariant sp <= |text|
      invariant Marked(buf[..], ep, endbuf, wide, b) && !b.dash && lc == LastChar(b) && b.neg == b0.neg
      invariant LexElems(text, sp0, b0) == LexElems(text, sp, b)
      invariant forall i :: 0 <= i < buf.Length && !(ep - 1 <= i < ep + 32) ==> buf[i] == old(buf[i])
      decreases |text| - sp
    {
      var c := At(text, sp);
      if c == RBRACKET {
        return Done(sp + 1, wide), b;
      } else if c == 0 || c == NEWLINE {
        return Failed(49), b;
      }
      var e := Ch(c);
      sp := sp + 1;
      if c == DASH {
        var d := At(text, sp);
        if d == RBRACKET {
          var n := if wide then 32 else 16;
          Place(buf, ep, DASH, n, Names(b));
          MarksDash(buf[..], ep, n, b);
          return Done(sp + 1, wide), b.(dash := true);
        } else if sp >= |text| {
          return Overrun, b;
        }
        e := To(d);
        sp := sp + 1;
      }
      var ok;
      ok, wide := MarkElem(buf, ep, endbuf, wide, lc, e, b);
      if !ok {
        return Failed(50), b;
      }
      b := b.(more := b.more + [e]);
      lc := e.c;
    }
  }

  /** A whole bracket expression from sp0, just after "[", its opcode at ep - 1 and bitmap at ep. */
  method CompileBracket(text: seq<byte>, sp0: nat, buf: array<byte>, ep: nat, endbuf: nat)
    returns (r: BracketResult, ghost b: Bracket)
    requires NulFree(text) && 0 < ep && ep + 16 < endbuf < buf.Length && sp0 <= |text|
    modifies buf
    ensures forall i :: 0 <= i < buf.Length && !(ep - 1 <= i < ep + 32) ==> buf[i] == old(buf[i])
    ensures match r
      case Done(sp, wide) =>
        && LexBracket(text, sp0) == Tok(TSet(b), sp) && ep + OperandSize(Set(b)) < endbuf && ProperAtom(Set(b))
        && wide == Wide(b) && EncodesAtom(buf[..], ep, Set(b)) && buf[ep - 1] == BaseOp(Set(b))
      case Failed(err) => (err == 50 && endbuf <= ep + 32) || LexBracket(text, sp0) == Bad(err)
      case Overrun => LexBracket(text, sp0).RunOff?
  {
    buf[ep - 1] := CCL;
    Clear(buf, ep, 0, 16);
    var sp := sp0;
    var neg := At(text, sp) == CARET;
    if neg {
      sp := sp + 1;
    }
    var c := At(text, sp);
    b := Bracket(neg, c, [], false);
    if c == 0 || c == NEWLINE {
      return Failed(49), b;
    }
    var wide := false;
    if c >= 128 {
      if ep + 32 >= endbuf {
        return Failed(50), b;
      }
      buf[ep - 1] := CXCL;
      Clear(buf, ep, 16, 32);
      wide := true;
    }
    EmptyBitmap(buf[..], ep, if wide then 32 else 16);
    Place(buf, ep, c, if wide then 32 else 16, x => false);
    SamePredicate(buf[..], ep, if wide then 32 else 16, x => x == c || false, Names(b));
    r, b := CompileElems(text, sp + 1, buf, ep, endbuf, wide, c, b);
    if r.Done? && neg {
      if r.wide {
        Negate(buf, ep, b);
        SamePredicate(buf[..], ep, 32, c => c != 0 && !Names(b)(c), FinalNames(b));
      } else {
        ghost var code := buf[..];
        buf[ep - 1] := NCCL;
        assert Bitmap(buf[..], ep, 16, Names(b)) by {
          NarrowKept(code, buf[..], ep, Names(b));
        }
        Place(buf, ep, 0, 16, Names(b));
        SamePredicate(buf[..], ep, 16, c => c == 0 || Names(b)(c), FinalNames(b));
      }
    } else if r.Done? {
      SamePredicate(buf[..], ep, if r.wide then 32 else 16, Names(b), FinalNames(b));
    }
    if r.Done? {
      FinalBits(buf[..], ep, b);
    }
  }

  lemma NarrowKept(code: seq<byte>, code2: seq<byte>, ep: nat, p: int -> bool)
    requires Bitmap(code, ep, 16, p) && |code| == |code2| && forall i :: ep <= i < ep + 16 ==> code2[i] == code[i]
    ensures Bitmap(code2, ep, 16, p)
  {
    forall c | 0 <= c < 128 ensures IsThere(code2, ep, c) == p(c) {
      assert IsThere(code, ep, c) == p(c);
    }
  }

  /** The predicate a finished bitmap holds. */
  function FinalNames(b: Bracket): int -> bool {
    c => if !b.neg then Names(b)(c) else if Wide(b) then c != 0 && !Names(b)(c) else c == 0 || Names(b)(c)
  }

  /** The bitmap in its final form encodes the bracket. */
  lemma FinalBits(code: seq<byte>, ep: nat, b: Bracket)
    requires Bitmap(code, ep, if Wide(b) then 32 else 16, FinalNames(b))
    ensures EncodesAtom(code, ep, Set(b))
  {
    if Wide(b) {
      forall c | 0 <= c < 256
        ensures IsThere(code, ep, c) == (if b.neg then c != 0 && !Listed(b, c) else Listed(b, c))
      {
        assert IsThere(code, ep, c) == FinalNames(b)(c);
        assert Names(b)(c) == Listed(b, c);
      }
    } else {
      forall c | 0 <= c < 128 ensures IsThere(code, ep, c) == (Listed(b, c) || (b.neg && c == 0)) {
        assert IsThere(code, ep, c) == FinalNames(b)(c);
        assert Names(b)(c) == Listed(b, c);
      }
    }
  }

  // ---------------------------------------------------------------- intervals

  /** Outcome of compiling an interval. */
  datatype IntervalResult = Bounds(sp: nat) | Refused(code: nat)

  /** One number, up to a backslash or comma. */
  method CompileNumber(text: seq<byte>, sp0: nat) returns (err: nat, i: int, sp: nat)
    requires NulFree(text) && sp0 <= |text|
    ensures err == NumberError(text, sp0)
    ensures err == 0 ==> sp0 < sp < |text| && sp == DigitsEnd(text, sp0) && i == Value(text[sp0..sp]) && 0 <= i < 255
  {
    sp, i, err := sp0, 0, 0;
    var c := At(text, sp);
    while true
      invariant sp0 <= sp <= |text| && c == At(text, sp)
      invariant sp == sp0 || (c != BACKSLASH && c != COMMA)
      invariant DigitsEnd(text, sp0) == DigitsEnd(text, sp)
      invariant i == Value(text[sp0..sp]) && 0 <= i
      decreases |text| - sp
    {
      if ZERO <= c <= NINE {
        i := 10 * i + c - ZERO;
      } else {
        return 16, i, sp;
      }
      assert text[sp0..sp + 1][..sp - sp0] == text[sp0..sp];
      sp := sp + 1;
      c := At(text, sp);
      if c == BACKSLASH || c == COMMA {
        break;
      }
    }
    if i >= 255 {
      err := 11;
    }
  }

  /** After "\{": write the two count bytes at ep. */
  method CompileInterval(text: seq<byte>, sp0: nat, buf: array<byte>, ep: nat)
    returns (r: IntervalResult, ghost t: Token)
    requires NulFree(text) && ep + 2 <= buf.Length && sp0 <= |text|
    modifies buf
    ensures forall i :: 0 <= i < buf.Length && i != ep && i != ep + 1 ==> buf[i] == old(buf[i])
    ensures r.Refused? ==> LexInterval(text, sp0) == Bad(r.code)
    ensures r.Bounds? ==>
      && LexInterval(text, sp0) == Tok(t, r.sp) && t.TInterval?
      && QuantOf(t).Range? && QuantOf(t).lo < NO_LIMIT && buf[ep] == QuantOf(t).lo
      && (match QuantOf(t).extra
          case None => buf[ep + 1] == NO_LIMIT
          case Some(m) => QuantOf(t).lo + m < NO_LIMIT && buf[ep + 1] == QuantOf(t).lo + m)
    ensures r.Bounds? ==>
      && buf[ep] == Value(t.lo)
      && (match t.hi
          case Exact => buf[ep + 1] == Value(t.lo)
          case Unlimited => buf[ep + 1] == 255
          case UpTo(d) => buf[ep + 1] == Value(d))
  {
    var err, i, sp := CompileNumber(text, sp0);
    t := TStar;
    if err != 0 {
      return Refused(err), t;
    }
    buf[ep] := i;
    if text[sp] == BACKSLASH {
      if At(text, sp + 1) != RBRACE {
        return Refused(45), t;
      }
      buf[ep + 1] := i;
      return Bounds(sp + 2), TInterval(text[sp0..sp], Exact);
    }
    if At(text, sp + 1) == BACKSLASH {
      buf[ep + 1] := NO_LIMIT;
      if At(text, sp + 2) != RBRACE {
        return Refused(45), t;
      }
      return Bounds(sp + 3), TInterval(text[sp0..sp], Unlimited);
    }
    var j, sp2;
    err, j, sp2 := CompileNumber(text, sp + 1);
    if err != 0 {
      return Refused(err), t;
    }
    buf[ep + 1] := j;
    if text[sp2] == COMMA {
      return Refused(44), t;
    }
    if At(text, sp2 + 1) != RBRACE {
      return Refused(45), t;
    }
    if j < i {
      return Refused(46), t;
    }
    return Bounds(sp2 + 2), TInterval(text[sp0..sp], UpTo(text[sp + 1..sp2]));
  }

  // ---------------------------------------------------------------- emitted code

  lemma {:induction false} EncodesFrame(code: seq<byte>, code2: seq<byte>, ep: nat, items: seq<Item>)
    requires EncodesItems(code, ep, items) && ep + CodeSize(items) <= |code2|
    requires forall i :: ep <= i < ep + CodeSize(items) && i < |code| ==> code2[i] == code[i]
    ensures EncodesItems(code2, ep, items)
    decreases |items|
  {
    if items != [] {
      ItemFrame(code, code2, ep, items[0]);
      EncodesFrame(code, code2, ep + ItemSize(items[0]), items[1..]);
    }
  }

  lemma ItemFrame(code: seq<byte>, code2: seq<byte>, ep: nat, it: Item)
    requires EncodesItem(code, ep, it) && ep + ItemSize(it) <= |code2|
    requires forall i :: ep <= i < ep + ItemSize(it) ==> code2[i] == code[i]
    ensures EncodesItem(code2, ep, it)
  {
    if it.Single? && it.a.Set? {
      var at, n := ep + 1, if Wide(it.a.b) then 256 else 128;
      forall c | 0 <= c < n ensures IsThere(code2, at, c) == IsThere(code, at, c) {
      }
    }
  }

  lemma {:induction false} EncodesAppend(code: seq<byte>, ep: nat, items: seq<Item>, it: Item)
    requires EncodesItems(code, ep, items) && EncodesItem(code, ep + CodeSize(items), it)
    ensures EncodesItems(code, ep, items + [it]) && CodeSize(items + [it]) == CodeSize(items) + ItemSize(it)
    decreases |items|
  {
    if items == [] {
      assert items + [it] == [it];
    } else {
      assert (items + [it])[0] == items[0] && (items + [it])[1..] == items[1..] + [it];
      EncodesAppend(code, ep + ItemSize(items[0]), items[1..], it);
    }
  }

  lemma {:induction false} EncodesSplit(code: seq<byte>, ep: nat, items: seq<Item>, it: Item)
    requires EncodesItems(code, ep, items + [it])
    ensures EncodesItems(code, ep, items) && EncodesItem(code, ep + CodeSize(items), it)
    ensures CodeSize(items + [it]) == CodeSize(items) + ItemSize(it)
    decreases |items|
  {
    if items == [] {
      assert items + [it] == [it];
    } else {
      assert (items + [it])[0] == items[0] && (items + [it])[1..] == items[1..] + [it];
      EncodesSplit(code, ep + ItemSize(items[0]), items[1..], it);
    }
  }

  /** The code at ep0 holds the items of ts and ends at ep; lastep is where the last one starts. */
  ghost predicate Laid(code: seq<byte>, ep0: nat, ep: nat, lastep: int, items: seq<Item>) {
    && EncodesItems(code, ep0, items)
    && ep == ep0 + CodeSize(items)
    && (items != [] ==> lastep == ep - ItemSize(items[|items| - 1]))
  }

  ghost predicate Emitted(code: seq<byte>, ep0: nat, ep: nat, lastep: int, ts: seq<Token>) {
    && ep0 <= ep <= |code|
    && (ts == [] <==> lastep == -1)
    && (ts != [] ==> ep0 <= lastep < ep && code[lastep] == LastOp(ts))
    && (Regular(ts) ==> Laid(code, ep0, ep, lastep, ItemsOf(ts)))
  }

  lemma LaidAppend(code: seq<byte>, code2: seq<byte>, ep0: nat, ep: nat, lastep: int, items: seq<Item>, it: Item)
    requires Laid(code, ep0, ep, lastep, items) && EncodesItem(code2, ep, it)
    requires forall i :: ep0 <= i < ep && i < |code| ==> code2[i] == code[i]
    ensures Laid(code2, ep0, ep + ItemSize(it), ep, items + [it])
  {
    EncodesFrame(code, code2, ep0, items);
    EncodesAppend(code2, ep0, items, it);
  }

  lemma PrefixFacts(ts: seq<Token>, t: Token)
    ensures (ts + [t])[..|ts + [t]| - 1] == ts && (ts + [t])[|ts + [t]| - 1] == t
    ensures Regular(ts + [t]) == (Regular(ts) && RegularNext(ts, t))
  {
    assert (ts + [t])[..|ts + [t]| - 1] == ts;
  }

  /** A token that adds an item, encoded at ep. */
  lemma EmitItem(code: seq<byte>, code2: seq<byte>, ep0: nat, ep: nat, lastep: int, ts: seq<Token>, t: Token, it: Item)
    requires Emitted(code, ep0, ep, lastep, ts) && !t.TStar? && !t.TInterval?
    requires ItemsOf(ts + [t]) == ItemsOf(ts) + [it] && EncodesItem(code2, ep, it) && code2[ep] == LastOp(ts + [t])
    requires forall i :: ep0 <= i < ep && i < |code| ==> code2[i] == code[i]
    ensures Emitted(code2, ep0, ep + ItemSize(it), ep, ts + [t])
  {
    PrefixFacts(ts, t);
    if Regular(ts + [t]) {
      LaidAppend(code, code2, ep0, ep, lastep, ItemsOf(ts), it);
    }
  }

  /** A quantifier token: the opcode at lastep is patched and an interval's counts follow. */
  lemma EmitQuantifier(code: seq<byte>, code2: seq<byte>, ep0: nat, ep: nat, lastep: int, ts: seq<Token>, t: Token,
                       ep2: nat)
    requires Emitted(code, ep0, ep, lastep, ts) && ts != [] && ep <= ep2 <= |code2|
    requires (t.TStar? && ep2 == ep) || (t.TInterval? && ep2 == ep + 2 && QuantOf(t).Range?)
    requires code2[lastep] == if t.TStar? then OrStar(code[lastep]) else OrRange(code[lastep])
    requires forall i :: ep0 <= i < ep && i != lastep && i < |code| ==> code2[i] == code[i]
    requires t.TInterval? ==>
      && QuantOf(t).lo < NO_LIMIT && code2[ep] == QuantOf(t).lo
      && (match QuantOf(t).extra
          case None => code2[ep + 1] == NO_LIMIT
          case Some(m) => QuantOf(t).lo + m < NO_LIMIT && code2[ep + 1] == QuantOf(t).lo + m)
    ensures Emitted(code2, ep0, ep2, lastep, ts + [t])
  {
    PrefixFacts(ts, t);
    assert code2[lastep] == LastOp(ts + [t]);
    if Regular(ts + [t]) {
      var pre, atom := ts[..|ts| - 1], ts[|ts| - 1];
      assert ts == pre + [atom];
      QuantifierShape(pre, atom, t);
      Requantified(code, code2, ep0, ep, lastep, ItemsOf(pre), AtomOf(atom), QuantOf(t), ep2);
    }
  }

  lemma Requantified(code: seq<byte>, code2: seq<byte>, ep0: nat, ep: nat, lastep: int, items: seq<Item>, a: Atom,
                     q: Quant, ep2: nat)
    requires Laid(code, ep0, ep, lastep, items + [Single(a, Once)]) && lastep < |code2| && lastep < |code|
    requires ep2 <= |code2| && 0 <= lastep
    requires (q == Star && ep2 == ep) || (q.Range? && ep2 == ep + 2)
    requires code2[lastep] == if q == Star then OrStar(code[lastep]) else OrRange(code[lastep])
    requires forall i :: ep0 <= i < ep && i != lastep && i < |code| ==> code2[i] == code[i]
    requires q.Range? ==>
      && q.lo < NO_LIMIT && code2[ep] == q.lo
      && (match q.extra
          case None => code2[ep + 1] == NO_LIMIT
          case Some(m) => q.lo + m < NO_LIMIT && code2[ep + 1] == q.lo + m)
    ensures Laid(code2, ep0, ep2, lastep, items + [Single(a, q)])
  {
    EncodesSplit(code, ep0, items, Single(a, Once));
    assert lastep == ep0 + CodeSize(items);
    EncodesFrame(code, code2, ep0, items);
    if a.Set? {
      var at, n := lastep + 1, if Wide(a.b) then 256 else 128;
      forall c | 0 <= c < n ensures IsThere(code2, at, c) == IsThere(code, at, c) {
      }
    }
    assert EncodesItem(code2, lastep, Single(a, q));
    EncodesAppend(code2, ep0, items, Single(a, q));
  }

  lemma LastOpAppend(ts: seq<Token>, t: Token)
    ensures LastOp(ts + [t]) ==
      match t
      case TChr(_, _) => CCHR as int
      case TAny => CDOT as int
      case TSet(b) => BaseOp(Set(b)) as int
      case TStar => if LastOp(ts) < 0 then STAR as int else OrStar(LastOp(ts)) as int
      case TInterval(_, _) => if LastOp(ts) < 0 then RNGE as int else OrRange(LastOp(ts)) as int
      case TOpen => CBRA as int
      case TClose => CKET as int
      case TBack(_) => CBACK as int
      case TDol => CDOL as int
  {
    PrefixFacts(ts, t);
  }

  /** An opcode with one operand byte: a character or a group number. */
  method EmitPair(buf: array<byte>, ep0: nat, ep: nat, op: byte, arg: byte, ghost lastep: int, ghost ts: seq<Token>,
                  ghost t: Token)
    requires ep + 2 <= buf.Length && Emitted(buf[..], ep0, ep, lastep, ts)
    requires
      || (t.TChr? && op == CCHR && arg == t.c && arg != 0)
      || (t.TOpen? && op == CBRA && arg == Opens(ts) < NBRA)
      || (t.TClose? && op == CKET && Pending(ts) != [] && arg == Pending(ts)[|Pending(ts)| - 1] < NBRA)
      || (t.TBack? && op == CBACK && arg == t.d < NBRA)
    modifies buf
    ensures forall i :: 0 <= i < buf.Length && i != ep && i != ep + 1 ==> buf[i] == old(buf[i])
    ensures Emitted(buf[..], ep0, ep + 2, ep, ts + [t])
  {
    ghost var code := buf[..];
    buf[ep] := op;
    buf[ep + 1] := arg;
    ItemsOfAppend(ts, t);
    LastOpAppend(ts, t);
    EmitItem(code, buf[..], ep0, ep, lastep, ts, t, ItemsOf(ts + [t])[|ItemsOf(ts)|]);
  }

  /** An opcode alone: "." or "$". */
  method EmitOp(buf: array<byte>, ep0: nat, ep: nat, op: byte, ghost lastep: int, ghost ts: seq<Token>, ghost t: Token)
    requires ep < buf.Length && Emitted(buf[..], ep0, ep, lastep, ts)
    requires (t.TAny? && op == CDOT) || (t.TDol? && op == CDOL)
    modifies buf
    ensures forall i :: 0 <= i < buf.Length && i != ep ==> buf[i] == old(buf[i])
    ensures Emitted(buf[..], ep0, ep + 1, ep, ts + [t])
  {
    ghost var code := buf[..];
    buf[ep] := op;
    ItemsOfAppend(ts, t);
    LastOpAppend(ts, t);
    EmitItem(code, buf[..], ep0, ep, lastep, ts, t, ItemsOf(ts + [t])[|ItemsOf(ts)|]);
  }

  /** "*": patch the opcode of the last item. */
  method EmitStar(buf: array<byte>, ghost ep0: nat, ghost ep: nat, lastep: int, ghost ts: seq<Token>)
    requires Emitted(buf[..], ep0, ep, lastep, ts) && ts != []
    modifies buf
    ensures forall i :: 0 <= i < buf.Length && i != lastep ==> buf[i] == old(buf[i])
    ensures Emitted(buf[..], ep0, ep, lastep, ts + [TStar])
  {
    ghost var code := buf[..];
    buf[lastep] := OrStar(buf[lastep]);
    EmitQuantifier(code, buf[..], ep0, ep, lastep, ts, TStar, ep);
  }

  datatype Group = Neither | Opened | Closed

  /** What one turn of the compiler's loop does. */
  datatype Turn =
    | Go(sp: nat, ep: nat, lastep: int, group: Group)
    | Fail(code: nat)
    | Off

  /** The turn agrees with how the text reads after ts. */
  ghost predicate TurnOk(turn: Turn, lex: Lexeme, ts: seq<Token>, t: Token, code: seq<byte>, ep0: nat, ep: nat,
                         endbuf: nat) {
    match turn
    case Go(sp, ep2, lastep, group) =>
      && lex == Tok(t, sp) && ContextError(ts, t) == 0
      && (group.Opened? <==> t.TOpen?) && (group.Closed? <==> t.TClose?)
      && Emitted(code, ep0, ep2, lastep, ts + [t]) && ep2 <= endbuf + 1
    case Fail(err) =>
      || (err == 50 && endbuf <= ep + 33)
      || (err != 0 && err != 50 && lex == Bad(err))
      || (err != 0 && err != 50 && lex.Tok? && ContextError(ts, lex.t) == err)
    case Off => lex.RunOff?
  }

  /** The escape cases, sp just behind the backslash. bracket is the stack of open groups. */
  method CompileEscape(text: seq<byte>, sp: nat, buf: array<byte>, ep0: nat, ep: nat, endbuf: nat, lastep: int,
                       bracket: seq<nat>, nbra: nat, closed: nat, ghost ts: seq<Token>)
    returns (turn: Turn, ghost t: Token)
    requires NulFree(text) && sp <= |text| && ep < endbuf < buf.Length
    requires Emitted(buf[..], ep0, ep, lastep, ts)
    requires bracket == Pending(ts) && nbra == Opens(ts) && closed == Closes(ts)
    requires forall k :: k in bracket ==> k < NBRA
    modifies buf
    ensures forall i :: 0 <= i < ep0 ==> buf[i] == old(buf[i])
    ensures TurnOk(turn, LexEscape(text, sp, LastOp(ts)), ts, t, buf[..], ep0, ep, endbuf)
  {
    var c := At(text, sp);
    t := TChr(c, true);
    if c == LPAREN {
      t := TOpen;
      if nbra >= NBRA {
        return Fail(43), t;
      }
      EmitPair(buf, ep0, ep, CBRA, nbra, lastep, ts, t);
    } else if c == RPAREN {
      t := TClose;
      if bracket == [] {
        return Fail(42), t;
      }
      assert bracket[|bracket| - 1] in bracket;
      EmitPair(buf, ep0, ep, CKET, bracket[|bracket| - 1], lastep, ts, t);
    } else if c == LBRACE && lastep != -1 {
      turn, t := CompileBounds(text, sp + 1, buf, ep0, ep, endbuf, lastep, ts);
      return;
    } else if c == NEWLINE {
      return Fail(36), t;
    } else if c == LETTER_N {
      t := TChr(NEWLINE, true);
      EmitPair(buf, ep0, ep, CCHR, NEWLINE, lastep, ts, t);
    } else if ONE <= c <= NINE {
      t := TBack(c - ONE);
      if c - ONE >= closed {
        return Fail(25), t;
      }
      EmitPair(buf, ep0, ep, CBACK, c - ONE, lastep, ts, t);
    } else if sp >= |text| {
      return Off, t;
    } else {
      EmitPair(buf, ep0, ep, CCHR, c, lastep, ts, t);
    }
    turn := Go(sp + 1, ep + 2, ep, if c == LPAREN then Opened else if c == RPAREN then Closed else Neither);
  }

  /** "\{": patch the opcode of the last item and write the counts. */
  method CompileBounds(text: seq<byte>, sp: nat, buf: array<byte>, ghost ep0: nat, ep: nat, ghost endbuf: nat,
                       lastep: int, ghost ts: seq<Token>)
    returns (turn: Turn, ghost t: Token)
    requires NulFree(text) && sp <= |text| && ep < endbuf < buf.Length
    requires Emitted(buf[..], ep0, ep, lastep, ts) && ts != []
    modifies buf
    ensures forall i :: 0 <= i < ep0 ==> buf[i] == old(buf[i])
    ensures TurnOk(turn, LexInterval(text, sp), ts, t, buf[..], ep0, ep, endbuf)
  {
    ghost var code := buf[..];
    buf[lastep] := OrRange(buf[lastep]);
    var r;
    r, t := CompileInterval(text, sp, buf, ep);
    match r {
      case Refused(err) =>
        IntervalErrors(text, sp);
        turn := Fail(err);
      case Bounds(next) =>
        EmitQuantifier(code, buf[..], ep0, ep, lastep, ts, t, ep + 2);
        turn := Go(next, ep + 2, lastep, Neither);
    }
  }

  lemma IntervalErrors(text: seq<byte>, sp: nat)
    ensures LexInterval(text, sp).Bad? ==> LexInterval(text, sp).code != 0 && LexInterval(text, sp).code != 50
  {
  }

  /** "[": an opcode and a bitmap of 16 or 32 bytes. */
  method CompileSet(text: seq<byte>, sp: nat, buf: array<byte>, ghost ep0: nat, ep: nat, endbuf: nat,
                    ghost lastep: int, ghost ts: seq<Token>)
    returns (turn: Turn, ghost t: Token)
    requires NulFree(text) && sp <= |text| && ep < endbuf < buf.Length
    requires Emitted(buf[..], ep0, ep, lastep, ts)
    modifies buf
    ensures forall i :: 0 <= i < ep0 ==> buf[i] == old(buf[i])
    ensures TurnOk(turn, LexBracket(text, sp), ts, t, buf[..], ep0, ep, endbuf)
  {
    t := TAny;
    if ep + 17 >= endbuf {
      return Fail(50), t;
    }
    ghost var code := buf[..];
    var r;
    ghost var b;
    r, b := CompileBracket(text, sp, buf, ep + 1, endbuf);
    t := TSet(b);
    match r {
      case Done(next, wide) =>
        SetEmitted(code, buf[..], ep0, ep, lastep, ts, b, next, endbuf);
        turn := Go(next, ep + 1 + (if wide then 32 else 16), ep, Neither);
      case Failed(err) =>
        BracketErrors(text, sp);
        turn := Fail(err);
      case Overrun =>
        turn := Off;
    }
  }

  lemma SetEmitted(code: seq<byte>, code2: seq<byte>, ep0: nat, ep: nat, lastep: int, ts: seq<Token>, b: Bracket,
                   next: nat, endbuf: nat)
    requires Emitted(code, ep0, ep, lastep, ts) && ProperAtom(Set(b)) && ep + 1 + OperandSize(Set(b)) <= |code2|
    requires EncodesAtom(code2, ep + 1, Set(b)) && code2[ep] == BaseOp(Set(b)) && ep + OperandSize(Set(b)) < endbuf
    requires forall i :: ep0 <= i < ep && i < |code| ==> code2[i] == code[i]
    ensures TurnOk(Go(next, ep + 1 + (if Wide(b) then 32 else 16), ep, Neither), Tok(TSet(b), next), ts, TSet(b),
                   code2, ep0, ep, endbuf)
  {
    ItemsOfAppend(ts, TSet(b));
    LastOpAppend(ts, TSet(b));
    EmitItem(code, code2, ep0, ep, lastep, ts, TSet(b), Single(Set(b), Once));
  }

  lemma {:induction false} ElemErrors(text: seq<byte>, sp: nat, b: Bracket)
    ensures LexElems(text, sp, b).Bad? ==> LexElems(text, sp, b).code == 49
    decreases |text| - sp
  {
    if sp < |text| {
      if text[sp] == DASH {
        if sp + 1 < |text| {
          ElemErrors(text, sp + 2, b.(more := b.more + [To(text[sp + 1])]));
        }
      } else {
        ElemErrors(text, sp + 1, b.(more := b.more + [Ch(text[sp])]));
      }
    }
  }

  lemma BracketErrors(text: seq<byte>, sp: nat)
    ensures LexBracket(text, sp).Bad? ==> LexBracket(text, sp).code == 49
  {
    var neg := At(text, sp) == CARET;
    var p := if neg then sp + 1 else sp;
    ElemErrors(text, p + 1, Bracket(neg, At(text, p), [], false));
  }

  /** One turn of the loop at sp, where the delimiter is not. */
  method CompileToken(text: seq<byte>, sp: nat, buf: array<byte>, ep0: nat, ep: nat, endbuf: nat, eof: byte,
                      lastep: int, bracket: seq<nat>, nbra: nat, closed: nat, ghost ts: seq<Token>)
    returns (turn: Turn, ghost t: Token)
    requires NulFree(text) && sp < |text| && text[sp] != eof && ep < endbuf < buf.Length
    requires Emitted(buf[..], ep0, ep, lastep, ts)
    requires bracket == Pending(ts) && nbra == Opens(ts) && closed == Closes(ts)
    requires forall k :: k in bracket ==> k < NBRA
    modifies buf
    ensures forall i :: 0 <= i < ep0 ==> buf[i] == old(buf[i])
    ensures TurnOk(turn, Lex(text, sp, eof, LastOp(ts)), ts, t, buf[..], ep0, ep, endbuf)
  {
    var c := text[sp];
    t := TChr(c, false);
    if c == DOT {
      t := TAny;
      EmitOp(buf, ep0, ep, CDOT, lastep, ts, t);
      turn := Go(sp + 1, ep + 1, ep, Neither);
    } else if c == NEWLINE {
      turn := Fail(36);
    } else if c == ASTERISK && !(lastep == -1 || buf[lastep] == CBRA || buf[lastep] == CKET) {
      t := TStar;
      EmitStar(buf, ep0, ep, lastep, ts);
      turn := Go(sp + 1, ep, lastep, Neither);
    } else if c == DOLLAR && (At(text, sp + 1) == eof || At(text, sp + 1) == NEWLINE) {
      t := TDol;
      EmitOp(buf, ep0, ep, CDOL, lastep, ts, t);
      turn := Go(sp + 1, ep + 1, ep, Neither);
    } else if c == LBRACKET {
      turn, t := CompileSet(text, sp + 1, buf, ep0, ep, endbuf, lastep, ts);
    } else if c == BACKSLASH {
      turn, t := CompileEscape(text, sp + 1, buf, ep0, ep, endbuf, lastep, bracket, nbra, closed, ts);
    } else {
      EmitPair(buf, ep0, ep, CCHR, c, lastep, ts, t);
      turn := Go(sp + 1, ep + 2, ep, Neither);
    }
  }

  // ---------------------------------------------------------------- the compiler

  datatype CompileResult =
    | Compiled(ep: nat, cp: nat, circf: bool, nbra: nat)
    | NoPattern(cp: nat)
    | Error(code: nat)
    | RanOff

  /** Where the tokens start: behind a leading "^". */
  function Start(text: seq<byte>, cp: nat): nat {
    if At(text, cp) == CARET then cp + 1 else cp
  }

  /** What the compiler's result means for the text at cp. Error 50 says the buffer is too small for
      the pattern (within 34 bytes); every other error is the one the text has. */
  ghost predicate ResultOk(r: CompileResult, text: seq<byte>, cp: nat, eof: byte, code: seq<byte>, ep0: nat,
                           endbuf: nat, ts: seq<Token>) {
    var c, parsed := At(text, cp), Parse(text, Start(text, cp), eof, []);
    match r
    case NoPattern(next) => (c == eof && next == cp + 1) || (c != eof && c == NEWLINE && next == cp)
    case Compiled(ep, next, circf, nbra) =>
      && c != eof && c != NEWLINE && circf == (c == CARET)
      && parsed == Accepted(ts, next) && nbra == Opens(ts)
      && (Regular(ts) ==>
        && Encodes(code, ep0, ItemsOf(ts)) && ep == ep0 + CodeSize(ItemsOf(ts)) + 1
        && Scoped(ItemsOf(ts), {}, {}))
    case Error(err) =>
      && c != eof && c != NEWLINE
      && (err != 50 ==> parsed == Rejected(err))
      && (err == 50 && parsed.Accepted? && Regular(parsed.ts) ==> endbuf < ep0 + CodeSize(ItemsOf(parsed.ts)) + 34)
    case RanOff => c != eof && c != NEWLINE && parsed == Unterminated
  }

  lemma {:induction false} CodeSizeAppend(items: seq<Item>, it: Item)
    ensures CodeSize(items + [it]) == CodeSize(items) + ItemSize(it)
  {
    if items == [] {
      assert items + [it] == [it];
    } else {
      assert (items + [it])[0] == items[0] && (items + [it])[1..] == items[1..] + [it];
      CodeSizeAppend(items[1..], it);
    }
  }

  /** More tokens never take less room. */
  lemma {:induction false} CodeGrows(ts: seq<Token>, ts2: seq<Token>)
    requires ts <= ts2 && Regular(ts2)
    ensures Regular(ts) && CodeSize(ItemsOf(ts)) <= CodeSize(ItemsOf(ts2))
    decreases |ts2|
  {
    if ts != ts2 {
      var n := |ts2| - 1;
      var pre, t := ts2[..n], ts2[n];
      assert ts2 == pre + [t];
      CodeGrows(ts, pre);
      ItemsOfAppend(pre, t);
      if t.TStar? || t.TInterval? {
        var pre2, atom := pre[..n - 1], pre[n - 1];
        assert pre == pre2 + [atom];
        QuantifierShape(pre2, atom, t);
        CodeSizeAppend(ItemsOf(pre2), Single(AtomOf(atom), Once));
        CodeSizeAppend(ItemsOf(pre2), Single(AtomOf(atom), QuantOf(t)));
      } else {
        CodeSizeAppend(ItemsOf(pre), ItemsOf(ts2)[|ItemsOf(pre)|]);
      }
    } else {
      assert ts == ts2;
    }
  }

  /** The code written so far is no longer than that of the whole pattern. */
  lemma BufferFull(text: seq<byte>, sp: nat, eof: byte, ts: seq<Token>)
    ensures var p := Parse(text, sp, eof, ts);
      p.Accepted? && Regular(p.ts) ==> Regular(ts) && CodeSize(ItemsOf(ts)) <= CodeSize(ItemsOf(p.ts))
  {
    var p := Parse(text, sp, eof, ts);
    if p.Accepted? && Regular(p.ts) {
      ParseExtends(text, sp, eof, ts);
      CodeGrows(ts, p.ts);
    }
  }

  /** The end mark completes the pattern. */
  lemma Finished(code: seq<byte>, code2: seq<byte>, ep0: nat, ep: nat, lastep: int, ts: seq<Token>)
    requires Emitted(code, ep0, ep, lastep, ts) && ContextOk(ts) && ep < |code2| && code2[ep] == CCEOF
    requires forall i :: ep0 <= i < ep && i < |code| ==> code2[i] == code[i]
    ensures Regular(ts) ==> Encodes(code2, ep0, ItemsOf(ts)) && ep == ep0 + CodeSize(ItemsOf(ts))
    ensures Regular(ts) ==> Scoped(ItemsOf(ts), {}, {})
  {
    if Regular(ts) {
      EncodesFrame(code, code2, ep0, ItemsOf(ts));
      GroupsAreOk(ts);
    }
  }

  lemma {:induction false} PendingBound(ts: seq<Token>)
    requires ContextOk(ts)
    ensures Opens(ts) <= NBRA && forall k :: k in Pending(ts) ==> k < Opens(ts)
    decreases |ts|
  {
    if ts != [] {
      var pre, t := ts[..|ts| - 1], ts[|ts| - 1];
      PendingBound(pre);
      if t.TClose? {
        assert forall k :: k in Pending(ts) ==> k in Pending(pre);
      } else if t.TOpen? {
        assert forall k :: k in Pending(ts) ==> k in Pending(pre) || k == Opens(pre);
      }
    }
  }

  /** The turn agrees with what the whole text is parsed to. */
  ghost predicate TurnParsed(turn: Turn, parsed: Parsed, text: seq<byte>, eof: byte, ts: seq<Token>, t: Token,
                             code: seq<byte>, ep0: nat, ep: nat, endbuf: nat) {
    match turn
    case Go(sp, ep2, lastep, group) =>
      && sp <= |text| && parsed == Parse(text, sp, eof, ts + [t]) && ContextError(ts, t) == 0
      && (group.Opened? <==> t.TOpen?) && (group.Closed? <==> t.TClose?)
      && Emitted(code, ep0, ep2, lastep, ts + [t]) && ep2 <= endbuf + 1
    case Fail(err) => (err == 50 && endbuf <= ep + 33) || (err != 50 && parsed == Rejected(err))
    case Off => parsed == Unterminated
  }

  lemma TurnMeans(turn: Turn, text: seq<byte>, sp: nat, eof: byte, ts: seq<Token>, t: Token,
                  code: seq<byte>, ep0: nat, ep: nat, endbuf: nat)
    requires TurnOk(turn, Lex(text, sp, eof, LastOp(ts)), ts, t, code, ep0, ep, endbuf)
    ensures TurnParsed(turn, Parse(text, sp, eof, ts), text, eof, ts, t, code, ep0, ep, endbuf)
  {
  }

  method NextToken(text: seq<byte>, sp: nat, buf: array<byte>, ep0: nat, ep: nat, endbuf: nat, eof: byte, lastep: int,
                   bracket: seq<nat>, nbra: nat, closed: nat, ghost ts: seq<Token>, ghost parsed: Parsed)
    returns (turn: Turn, ghost t: Token)
    requires NulFree(text) && sp < |text| && text[sp] != eof && ep < endbuf < buf.Length
    requires Emitted(buf[..], ep0, ep, lastep, ts) && ContextOk(ts) && parsed == Parse(text, sp, eof, ts)
    requires bracket == Pending(ts) && nbra == Opens(ts) && closed == Closes(ts)
    modifies buf
    ensures forall i :: 0 <= i < ep0 ==> buf[i] == old(buf[i])
    ensures TurnParsed(turn, parsed, text, eof, ts, t, buf[..], ep0, ep, endbuf)
    ensures turn.Go? ==> turn.sp > sp
  {
    PendingBound(ts);
    turn, t := CompileToken(text, sp, buf, ep0, ep, endbuf, eof, lastep, bracket, nbra, closed, ts);
    TurnMeans(turn, text, sp, eof, ts, t, buf[..], ep0, ep, endbuf);
  }

  /** Compile the pattern whose text starts at cp and ends with eof into buf from ep0. */
  method SedCompile(text: seq<byte>, cp: nat, buf: array<byte>, ep0: nat, endbuf: nat, eof: byte)
    returns (r: CompileResult, ghost ts: seq<Token>)
    requires NulFree(text) && cp <= |text| && ep0 <= endbuf < buf.Length
    modifies buf
    ensures forall i :: 0 <= i < ep0 ==> buf[i] == old(buf[i])
    ensures ResultOk(r, text, cp, eof, buf[..], ep0, endbuf, ts)
  {
    ts := [];
    var c := At(text, cp);
    if c == eof || c == NEWLINE {
      return NoPattern(if c == eof then cp + 1 else cp), ts;
    }
    var sp := if c == CARET then cp + 1 else cp;
    var ep: nat, lastep, bracket: seq<nat>, nbra: nat, closed: nat := ep0, -1, [], 0, 0;
    ghost var parsed := Parse(text, sp, eof, []);
    while true
      invariant sp <= |text| && ep <= endbuf + 1
      invariant Emitted(buf[..], ep0, ep, lastep, ts)
      invariant bracket == Pending(ts) && nbra == Opens(ts) && closed == Closes(ts) && ContextOk(ts)
      invariant parsed == Parse(text, sp, eof, ts)
      invariant forall i :: 0 <= i < ep0 ==> buf[i] == old(buf[i])
      decreases |text| - sp
    {
      if ep >= endbuf {
        BufferFull(text, sp, eof, ts);
        return Error(50), ts;
      }
      if sp >= |text| {
        return RanOff, ts;
      }
      if text[sp] == eof {
        ghost var code := buf[..];
        buf[ep] := CCEOF;
        if bracket != [] {
          return Error(42), ts;
        }
        Finished(code, buf[..], ep0, ep, lastep, ts);
        return Compiled(ep + 1, sp + 1, c == CARET, nbra), ts;
      }
      var turn;
      ghost var t;
      turn, t := NextToken(text, sp, buf, ep0, ep, endbuf, eof, lastep, bracket, nbra, closed, ts, parsed);
      match turn {
        case Fail(err) =>
          BufferFull(text, sp, eof, ts);
          return Error(err), ts;
        case Off =>
          return RanOff, ts;
        case Go(sp2, ep2, lastep2, group) =>
          GroupsAppend(ts, t);
          PrefixFacts(ts, t);
          if group == Opened {
            bracket, nbra := bracket + [nbra], nbra + 1;
          } else if group == Closed {
            bracket, closed := bracket[..|bracket| - 1], closed + 1;
          }
          sp, ep, lastep, ts := sp2, ep2, lastep2, ts + [t];
      }
    }
  }
}
