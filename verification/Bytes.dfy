/** Bytes, C strings and the bit operations the programs perform on single bytes.
    Bitwise operators are written arithmetically: a byte is an integer below 256. */
module Bytes {

  type byte = b: int | 0 <= b < 256

  // Characters with a meaning in patterns, scripts and source text.
  const NEWLINE: byte := 10
  const QUOTE: byte := 34
  const DOLLAR: byte := 36
  const AMPERSAND: byte := 38
  const APOSTROPHE: byte := 39
  const LPAREN: byte := 40
  const RPAREN: byte := 41
  const ASTERISK: byte := 42
  const COMMA: byte := 44
  const DASH: byte := 45
  const DOT: byte := 46
  const ZERO: byte := 48
  const ONE: byte := 49
  const NINE: byte := 57
  const LBRACKET: byte := 91
  const BACKSLASH: byte := 92
  const RBRACKET: byte := 93
  const CARET: byte := 94
  const LETTER_N: byte := 110
  const LBRACE: byte := 123
  const RBRACE: byte := 125

  datatype Option<+T> = None | Some(value: T)

  /** The text of a C string: no NUL inside. */
  predicate NulFree(s: seq<byte>) {
    forall i :: 0 <= i < |s| ==> s[i] != 0
  }

  /** The byte a C program reads at offset i of the string s followed by its NUL. */
  function At(s: seq<byte>, i: nat): byte {
    if i < |s| then s[i] else 0
  }

  /** (b >> k) & 1, as a truth value. */
  predicate Bit(b: nat, k: nat)
    decreases k
  {
    if k == 0 then b % 2 == 1 else Bit(b / 2, k - 1)
  }

  /** b | (1 << k). */
  function WithBit(b: nat, k: nat): nat
    decreases k
  {
    if k == 0 then b - b % 2 + 1 else b % 2 + 2 * WithBit(b / 2, k - 1)
  }

  /** (1 << w) - 1. */
  function Mask(w: nat): nat {
    if w == 0 then 0 else 2 * Mask(w - 1) + 1
  }

  lemma {:induction false} WithBitBits(b: nat, k: nat, j: nat)
    ensures Bit(WithBit(b, k), j) == (j == k || Bit(b, j))
    decreases k
  {
    if j == 0 {
      assert k != 0 ==> WithBit(b, k) % 2 == b % 2;
    } else if k == 0 {
      assert WithBit(b, k) / 2 == b / 2;
    } else {
      WithBitBits(b / 2, k - 1, j - 1);
      var w := WithBit(b / 2, k - 1);
      assert (b % 2 + 2 * w) / 2 == w;
    }
  }

  lemma {:induction false} WithBitFits(b: nat, k: nat, w: nat)
    requires b <= Mask(w) && k < w
    ensures WithBit(b, k) <= Mask(w)
    decreases k
  {
    if k != 0 {
      WithBitFits(b / 2, k - 1, w - 1);
    }
  }

  lemma {:induction false} ComplementBits(b: nat, w: nat, j: nat)
    requires b <= Mask(w) && j < w
    ensures Bit(Mask(w) - b, j) == !Bit(b, j)
    decreases j
  {
    if j != 0 {
      ComplementBits(b / 2, w - 1, j - 1);
      assert (Mask(w) - b) / 2 == Mask(w - 1) - b / 2;
    }
  }

  lemma ByteMask()
    ensures Mask(8) == 255
  {
    assert Mask(4) == 15;
  }

  /** b |= bittab[k]. */
  function SetBit(b: byte, k: nat): (r: byte)
    requires k < 8
    ensures forall j :: 0 <= j < 8 ==> Bit(r, j) == (j == k || Bit(b, j))
  {
    ByteMask();
    WithBitFits(b, k, 8);
    assert forall j :: 0 <= j < 8 ==> Bit(WithBit(b, k), j) == (j == k || Bit(b, j)) by {
      forall j | 0 <= j < 8 ensures Bit(WithBit(b, k), j) == (j == k || Bit(b, j)) {
        WithBitBits(b, k, j);
      }
    }
    WithBit(b, k)
  }

  /** b ^= 0377. */
  function Complement(b: byte): (r: byte)
    ensures forall j :: 0 <= j < 8 ==> Bit(r, j) == !Bit(b, j)
  {
    ByteMask();
    assert forall j :: 0 <= j < 8 ==> Bit(255 - b, j) == !Bit(b, j) by {
      forall j | 0 <= j < 8 ensures Bit(255 - b, j) == !Bit(b, j) {
        ComplementBits(b, 8, j);
      }
    }
    255 - b
  }

  /** b &= 0376. */
  function ClearLow(b: byte): (r: byte)
    ensures !Bit(r, 0)
    ensures forall j :: 0 < j < 8 ==> Bit(r, j) == Bit(b, j)
  {
    assert forall j :: 0 < j < 8 ==> Bit(b - b % 2, j) == Bit(b, j) by {
      assert (b - b % 2) / 2 == b / 2;
    }
    b - b % 2
  }

  lemma Assoc(a: seq<byte>, b: seq<byte>, c: seq<byte>)
    ensures (a + b) + c == a + (b + c) && c + [] == c && [] + c == c && a + [] == a
  {
  }

  /** memcpy. */
  method Put(buf: array<byte>, at: nat, s: seq<byte>)
    requires at + |s| <= buf.Length
    modifies buf
    ensures buf[..at] == old(buf[..at]) && buf[at..at + |s|] == s
    ensures forall j :: at + |s| <= j < buf.Length ==> buf[j] == old(buf[j])
  {
    var i := 0;
    while i < |s|
      invariant 0 <= i <= |s| && buf[..at] == old(buf[..at])
      invariant forall j :: at + |s| <= j < buf.Length ==> buf[j] == old(buf[j])
      invariant forall j :: 0 <= j < i ==> buf[at + j] == s[j]
    {
      buf[at + i] := s[i];
      i := i + 1;
    }
  }
}
