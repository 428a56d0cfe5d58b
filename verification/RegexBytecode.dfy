/** The bytecode of a pattern: an opcode, its operand and, for an interval, two count bytes. */
module RegexBytecode {
  import opened Bytes
  import opened RegexSemantics

  const CBRA: byte := 2
  const CCHR: byte := 4
  const CDOT: byte := 8
  const CCL: byte := 12
  const CXCL: byte := 16
  const CDOL: byte := 20
  const CCEOF: byte := 22
  const CKET: byte := 24
  const CBACK: byte := 36
  const NCCL: byte := 40

  const STAR: byte := 1
  const RNGE: byte := 3

  /** The second count byte of an interval without an upper bound. */
  const NO_LIMIT: byte := 255

  /** Some character of the bracket has its high bit set: the wide bitmap form is needed. */
  predicate Wide(b: Bracket) {
    b.first >= 128 || exists i :: 0 <= i < |b.more| && b.more[i].c >= 128
  }

  function BaseOp(a: Atom): byte {
    match a
    case Chr(_) => CCHR
    case Any => CDOT
    case Set(b) => if Wide(b) then CXCL else if b.neg then NCCL else CCL
  }

  function Suffix(q: Quant): byte {
    match q
    case Once => 0
    case Star => STAR
    case Range(_, _) => RNGE
  }

  function OperandSize(a: Atom): nat {
    match a
    case Chr(_) => 1
    case Any => 0
    case Set(b) => if Wide(b) then 32 else 16
  }

  function ItemSize(it: Item): nat {
    match it
    case Single(a, q) => 1 + OperandSize(a) + if q.Range? then 2 else 0
    case EndAnchor => 1
    case _ => 2
  }

  function CodeSize(items: seq<Item>): nat {
    if items == [] then 0 else ItemSize(items[0]) + CodeSize(items[1..])
  }

  /** Bit c of the bitmap that starts at ep: ep[c >> 3] & bittab[c & 07]. */
  predicate IsThere(code: seq<byte>, ep: nat, c: nat)
    requires ep + c / 8 < |code|
  {
    Bit(code[ep + c / 8], c % 8)
  }

  /** The operand at ep describes the atom. A narrow negated bitmap lists the excluded characters
      and NUL; a wide one is complemented, without NUL. */
  predicate EncodesAtom(code: seq<byte>, ep: nat, a: Atom) {
    && ep + OperandSize(a) <= |code|
    && match a
       case Chr(c) => c != 0 && code[ep] == c
       case Any => true
       case Set(b) =>
         if Wide(b) then
           forall c :: 0 <= c < 256 ==>
             IsThere(code, ep, c) == (if b.neg then c != 0 && !Listed(b, c) else Listed(b, c))
         else
           forall c :: 0 <= c < 128 ==> IsThere(code, ep, c) == (Listed(b, c) || (b.neg && c == 0))
  }

  /** Bracket elements come from text: no NUL among them. */
  predicate ProperAtom(a: Atom) {
    match a
    case Chr(c) => c != 0
    case Any => true
    case Set(b) => b.first != 0 && forall i :: 0 <= i < |b.more| ==> b.more[i].c != 0
  }

  predicate EncodesItem(code: seq<byte>, ep: nat, it: Item) {
    && ep + ItemSize(it) <= |code|
    && match it
       case Single(a, q) =>
         && ProperAtom(a)
         && code[ep] == BaseOp(a) + Suffix(q)
         && EncodesAtom(code, ep + 1, a)
         && (q.Range? ==>
           var at := ep + 1 + OperandSize(a);
           && q.lo < NO_LIMIT
           && code[at] == q.lo
           && (match q.extra
               case None => code[at + 1] == NO_LIMIT
               case Some(m) => q.lo + m < NO_LIMIT && code[at + 1] == q.lo + m))
       case EndAnchor => code[ep] == CDOL
       case Open(k) => k < NBRA && code[ep] == CBRA && code[ep + 1] == k
       case Close(k) => k < NBRA && code[ep] == CKET && code[ep + 1] == k
       case Back(k) => k < NBRA && code[ep] == CBACK && code[ep + 1] == k
  }

  /** The items lie one after the other from ep. */
  predicate EncodesItems(code: seq<byte>, ep: nat, items: seq<Item>)
    decreases |items|
  {
    items == [] || (EncodesItem(code, ep, items[0]) && EncodesItems(code, ep + ItemSize(items[0]), items[1..]))
  }

  /** A complete pattern: its items and the end mark. */
  predicate Encodes(code: seq<byte>, ep: nat, items: seq<Item>) {
    && EncodesItems(code, ep, items)
    && ep + CodeSize(items) < |code|
    && code[ep + CodeSize(items)] == CCEOF
  }

  // ---------------------------------------------------------------- the one-character test

  /** The test the matcher makes on a subject byte c for the opcode op (without its quantifier
      bits) with operand at ep. */
  predicate Accepts(code: seq<byte>, op: byte, ep: nat, c: byte)
    requires op == CCHR ==> ep < |code|
    requires op == CXCL ==> ep + 32 <= |code|
    requires op == CCL || op == NCCL ==> ep + 16 <= |code|
  {
    if op == CCHR then code[ep] == c
    else if op == CDOT then c != 0
    else if op == CXCL then IsThere(code, ep, c)
    else if op == CCL then c < 128 && IsThere(code, ep, c)
    else if op == NCCL then !(c < 128 && IsThere(code, ep, c))
    else false
  }

  /** Without high characters among its elements a bracket lists none, and never NUL. */
  lemma {:induction false} ListedBounds(b: Bracket, c: byte)
    requires ProperAtom(Set(b))
    ensures Listed(b, c) ==> c != 0
    ensures Listed(b, c) && !Wide(b) ==> c < 128
    decreases |b.more|
  {
    if b.more != [] {
      var pre := Init(b);
      assert forall i :: 0 <= i < |pre.more| ==> pre.more[i] == b.more[i];
      ListedBounds(pre, c);
      assert LastChar(pre) != 0;
    }
  }

  /** The bytecode test accepts exactly the characters of the atom; NUL never passes. */
  lemma AcceptsIsHas(code: seq<byte>, ep: nat, a: Atom, c: byte)
    requires ProperAtom(a) && EncodesAtom(code, ep, a)
    ensures Accepts(code, BaseOp(a), ep, c) == Has(a, c)
  {
    if a.Set? {
      ListedBounds(a.b, c);
    }
  }
}
