/** The preprocessor's symbol table: open addressing with downward probing and tombstones, and in front of it
    a superimposed code that tells most identifiers from macro names without a search. */
module CppSymbols {
  import opened Bytes

  type Name = seq<byte>

  const SYMSIZ := 4000
  const SALT: byte := 35
  const DROP: byte := 0xFE
  const ALFSIZ := 256

  // ---------------------------------------------------------------- hashing

  /** 32-bit arithmetic. */
  function Wrap(i: int): int {
    (i + 0x8000_0000) % 0x1_0000_0000 - 0x8000_0000
  }

  /** A char, sign extended. */
  function Char(b: byte): int {
    if b < 128 then b else b - 256
  }

  function Hash(i: int, s: Name): int
    decreases |s|
  {
    if s == [] then i else Hash(Wrap(i + i + Char(s[0])), s[1..])
  }

  /** The C remainder has the sign of the dividend. */
  function Remainder(i: int): int {
    if i >= 0 then i % SYMSIZ else -((-i) % SYMSIZ)
  }

  function Slot(i: int): (c: nat)
    ensures c < SYMSIZ
  {
    if Remainder(i) < 0 then Remainder(i) + SYMSIZ else Remainder(i)
  }

  /** The slot where the search for a name begins; i is 0, or the salt for directives. */
  function Home(i: byte, s: Name): (c: nat)
    ensures c < SYMSIZ
  {
    Slot(Hash(i, s))
  }

  /** A directive is entered by its bare name with the salt as seed, and found by its name with "#" in front. */
  lemma SaltedHome(s: Name)
    ensures Home(SALT, s) == Home(0, [SALT] + s)
  {
    assert ([SALT] + s)[1..] == s;
  }

  /** Searching from h downwards and around, slot j comes before slot i. */
  predicate Before(h: nat, j: nat, i: nat) {
    if i <= h then i < j <= h else j <= h || i < j
  }

  datatype Entry<V> = Entry(name: Option<Name>, value: Option<V>)

  predicate Tombstone(n: Name) {
    n != [] && n[0] == DROP
  }

  /** The name of a directive. */
  predicate Salted(n: Name) {
    n != [] && n[0] == SALT
  }

  function Trunc(ident: Name, symlen: nat): Name {
    if |ident| > symlen then ident[..symlen] else ident
  }

  /** Within the first n characters the identifiers are not the same. */
  predicate DifferWithin(a: Name, b: Name, n: nat) {
    exists i :: 0 <= i < n && DifferAt(a, b, i)
  }

  predicate DifferAt(a: Name, b: Name, i: nat) {
    if i < |a| && i < |b| then a[i] != b[i] else i < |a| || i < |b|
  }

  /** Cutting tells identifiers apart exactly if they differ within the characters that are kept. */
  lemma TruncDiffers(a: Name, b: Name, n: nat)
    ensures Trunc(a, n) != Trunc(b, n) <==> DifferWithin(a, b, n)
  {
    var s, t := Trunc(a, n), Trunc(b, n);
    if DifferWithin(a, b, n) {
      var i :| 0 <= i < n && DifferAt(a, b, i);
      assert i < |s| && i < |t| ==> s[i] != t[i];
    } else {
      if |s| != |t| {
        assert DifferAt(a, b, if |s| < |t| then |s| else |t|);
      }
      forall i | 0 <= i < |s| ensures s[i] == t[i] {
        assert !DifferAt(a, b, i);
      }
    }
  }

  /** The value of an identifier. */
  function ValueIn<V>(defs: map<Name, V>, ident: Name, symlen: nat): Option<V> {
    if Trunc(ident, symlen) in defs then Some(defs[Trunc(ident, symlen)]) else None
  }

  /** A definition gives its value to all identifiers that agree with its own within symlen characters, and
      leaves the values of the others. */
  lemma DefinitionReaches<V>(defs: map<Name, V>, ident: Name, v: V, symlen: nat, other: Name)
    ensures ValueIn(defs[Trunc(ident, symlen) := v], other, symlen) ==
      if DifferWithin(ident, other, symlen) then ValueIn(defs, other, symlen) else Some(v)
  {
    TruncDiffers(ident, other, symlen);
  }

  /** Slot j is in use, and not for name. */
  predicate Other<V>(e: Entry<V>, name: Name) {
    e.name.Some? && e.name.value != name
  }

  datatype Probe = Found(slot: nat) | Free(slot: nat) | Full

  /** A name that is not a tombstone is at its place; other slots have no value. */
  ghost predicate Accounted<V>(e: Entry<V>, i: nat, at: map<Name, nat>) {
    if e.name.Some? && !Tombstone(e.name.value) then e.name.value in at && at[e.name.value] == i else e.value.None?
  }

  // ---------------------------------------------------------------- tables

  ghost predicate Sits<V>(tab: seq<Entry<V>>, n: Name, i: nat) {
    i < |tab| && tab[i].name == Some(n) && tab[i].value.Some? && !Tombstone(n)
  }

  ghost predicate PlacedIn<V>(tab: seq<Entry<V>>, at: map<Name, nat>) {
    && |tab| == SYMSIZ && (forall n :: n in at ==> Sits(tab, n, at[n]))
    && (forall i :: 0 <= i < |tab| ==> Accounted(tab[i], i, at))
  }

  ghost predicate ChainedIn<V>(tab: seq<Entry<V>>, at: map<Name, nat>) {
    forall n, j :: n in at && 0 <= j < |tab| && Before(Home(0, n), j, at[n]) ==> tab[j].name.Some?
  }

  ghost function DefsIn<V>(tab: seq<Entry<V>>, at: map<Name, nat>): map<Name, V>
    requires PlacedIn(tab, at)
  {
    map n | n in at :: assert Sits(tab, n, at[n]); tab[at[n]].value.value
  }

  ghost predicate OpenIn<V>(tab: seq<Entry<V>>, i: nat, h: nat) {
    i < |tab| && tab[i].name.None? && forall j :: 0 <= j < |tab| && Before(h, j, i) ==> tab[j].name.Some?
  }

  /** A new name in a free slot that its search reaches. */
  lemma EnterIn<V>(tab: seq<Entry<V>>, at: map<Name, nat>, i: nat, name: Name, v: V)
    requires PlacedIn(tab, at) && ChainedIn(tab, at) && !Tombstone(name) && name !in at && OpenIn(tab, i, Home(0, name))
    ensures var tab2, at2 := tab[i := Entry(Some(name), Some(v))], at[name := i];
      PlacedIn(tab2, at2) && ChainedIn(tab2, at2) && DefsIn(tab2, at2) == DefsIn(tab, at)[name := v]
  {
    var tab2, at2 := tab[i := Entry(Some(name), Some(v))], at[name := i];
    forall n | n in at ensures Sits(tab2, n, at[n]) {
      assert Sits(tab, n, at[n]);
    }
    forall j | 0 <= j < |tab| ensures Accounted(tab2[j], j, at2) {
      assert Accounted(tab[j], j, at);
    }
  }

  /** A new value for a name. */
  lemma RedefineIn<V>(tab: seq<Entry<V>>, at: map<Name, nat>, name: Name, v: V)
    requires PlacedIn(tab, at) && ChainedIn(tab, at) && name in at
    ensures Sits(tab, name, at[name])
    ensures var tab2 := tab[at[name] := tab[at[name]].(value := Some(v))];
      PlacedIn(tab2, at) && ChainedIn(tab2, at) && DefsIn(tab2, at) == DefsIn(tab, at)[name := v]
  {
    assert Sits(tab, name, at[name]);
    var tab2 := tab[at[name] := tab[at[name]].(value := Some(v))];
    forall n | n in at ensures Sits(tab2, n, at[n]) {
      assert Sits(tab, n, at[n]);
    }
    forall j | 0 <= j < |tab| ensures Accounted(tab2[j], j, at) {
      assert Accounted(tab[j], j, at);
    }
  }

  /** A tombstone in the place of a name. */
  lemma DropIn<V>(tab: seq<Entry<V>>, at: map<Name, nat>, name: Name)
    requires PlacedIn(tab, at) && ChainedIn(tab, at) && name in at && name != []
    ensures Sits(tab, name, at[name])
    ensures var tab2, at2 := tab[at[name] := Entry(Some([DROP] + name[1..]), None)], at - {name};
      PlacedIn(tab2, at2) && ChainedIn(tab2, at2) && DefsIn(tab2, at2) == DefsIn(tab, at) - {name}
  {
    assert Sits(tab, name, at[name]);
    var tab2, at2 := tab[at[name] := Entry(Some([DROP] + name[1..]), None)], at - {name};
    forall n | n in at2 ensures Sits(tab2, n, at[n]) {
      assert Sits(tab, n, at[n]);
    }
    forall j | 0 <= j < |tab| ensures Accounted(tab2[j], j, at2) {
      assert Accounted(tab[j], j, at);
    }
  }

  class Symbols<V> {
    const symlen: nat
    const stab: array<Entry<V>>
    const macbit: array<byte>
    ghost var at: map<Name, nat>       // where the names are

    /** Every name is where the table says it is, and nowhere else. */
    ghost predicate Placed()
      reads this`at, stab
    {
      PlacedIn(stab[..], at)
    }

    /** No search for a name is stopped by a free slot before it. */
    ghost predicate Chained()
      reads this`at, stab
    {
      ChainedIn(stab[..], at)
    }

    ghost predicate InCode(n: Name)
      reads macbit
      requires macbit.Length == ALFSIZ
    {
      forall k :: 0 <= k < |n| && k < 8 ==> Bit(macbit[n[k]], k)
    }

    /** The code has the first eight characters of every name, each in its position. */
    ghost predicate Coded()
      reads this, macbit
    {
      macbit.Length == ALFSIZ && symlen >= 8 && forall n :: n in at && !Salted(n) ==> InCode(n)
    }

    ghost predicate Valid()
      reads this, stab, macbit
    {
      Placed() && Chained() && Coded()
    }

    /** The finite map that the table stands for. */
    ghost function Defs(): map<Name, V>
      reads this`at, stab
      requires Placed()
    {
      DefsIn(stab[..], at)
    }

    constructor (symlen: nat)
      requires symlen >= 8
      ensures Valid() && Defs() == map[] && fresh(stab) && fresh(macbit) && this.symlen == symlen
    {
      this.symlen := symlen;
      stab := new Entry<V>[SYMSIZ](_ => Entry(None, None));
      macbit := new byte[ALFSIZ](_ => 0);
      at := map[];
    }

    /** Search for name, from slot h on: downwards, then around once. */
    method Search(h: nat, name: Name) returns (r: Probe)
      requires stab.Length == SYMSIZ && h < SYMSIZ
      ensures r.Full? ==> forall j :: 0 <= j < SYMSIZ ==> Other(stab[j], name)
      ensures !r.Full? ==> r.slot < SYMSIZ
      ensures r.Found? ==> stab[r.slot].name == Some(name)
      ensures r.Free? ==> stab[r.slot].name.None?
      ensures r.Free? ==> forall j :: 0 <= j < SYMSIZ && Before(h, j, r.slot) ==> Other(stab[j], name)
    {
      var sp, around := h, false;
      while stab[sp].name.Some?
        invariant 0 <= sp < SYMSIZ
        invariant !around ==> sp <= h && forall j :: sp < j <= h ==> Other(stab[j], name)
        invariant around ==> forall j :: 0 <= j < SYMSIZ && (j <= h || sp < j) ==> Other(stab[j], name)
        decreases !around, sp
      {
        if stab[sp].name == Some(name) {
          return Found(sp);
        }
        if sp > 0 {
          sp := sp - 1;
        } else if around {
          return Full;
        } else {
          around, sp := true, SYMSIZ - 1;
        }
      }
      r := Free(sp);
    }

    /** lookup, for a name with its own hash. */
    method Lookup(name: Name) returns (r: Probe)
      requires Placed() && Chained() && !Tombstone(name)
      ensures if r.Found? then name in at && r.slot == at[name] else name !in at
      ensures r.Full? <==> name !in at && forall j :: 0 <= j < SYMSIZ ==> stab[j].name.Some?
      ensures r.Free? ==> OpenFor(r.slot, Home(0, name))
    {
      r := Search(Home(0, name), name);
      if r.Found? {
        assert Accounted(stab[r.slot], r.slot, at);
      }
    }

    /** The search from h reaches the free slot i. */
    ghost predicate OpenFor(i: nat, h: nat)
      reads stab
    {
      OpenIn(stab[..], i, h)
    }

    /** Put a new name into a free slot. */
    method Enter(i: nat, name: Name, v: V)
      requires Placed() && Chained() && !Tombstone(name) && name !in at && OpenFor(i, Home(0, name))
      modifies stab, this`at
      ensures Placed() && Chained() && at == old(at)[name := i] && Defs() == old(Defs())[name := v]
    {
      ghost var tab, e := stab[..], Entry(Some(name), Some(v));
      EnterIn(tab, at, i, name, v);
      stab[i] := Entry(Some(name), Some(v));
      at := at[name := i];
      assert stab[..] == tab[i := e];
    }

    /** Give a name in the table a new value. */
    method Redefine(i: nat, name: Name, v: V)
      requires Placed() && Chained() && name in at && at[name] == i
      modifies stab
      ensures Placed() && Chained() && Defs() == old(Defs())[name := v]
    {
      ghost var tab, e := stab[..], stab[i].(value := Some(v));
      RedefineIn(tab, at, name, v);
      stab[i] := stab[i].(value := Some(v));
      assert stab[..] == tab[i := e];
    }

    /** lookup with DROP: the name in the table becomes a tombstone. */
    method Drop(name: Name)
      requires Valid() && !Tombstone(name) && name != [] && name in Defs()
      modifies stab, this`at
      ensures Valid() && Defs() == old(Defs()) - {name}
    {
      var r := Lookup(name);
      Bury(r.slot, name);
    }

    method Bury(i: nat, name: Name)
      requires Valid() && name != [] && name in at && at[name] == i
      modifies stab, this`at
      ensures Valid() && Defs() == old(Defs()) - {name}
    {
      ghost var tab, e := stab[..], Entry(Some([DROP] + name[1..]), None);
      DropIn(tab, at, name);
      stab[i] := Entry(Some([DROP] + name[1..]), None);
      at := at - {name};
      assert stab[..] == tab[i := e];
    }

    /** Add a name to the code: the bit for position k of its kth character, for the first eight. */
    method Code(ident: Name)
      requires macbit.Length == ALFSIZ
      modifies macbit
      ensures InCode(ident)
      ensures forall c, k :: 0 <= c < ALFSIZ && 0 <= k < 8 && old(Bit(macbit[c], k)) ==> Bit(macbit[c], k)
      ensures old(Coded()) ==> Coded()
    {
      var cf := 0;
      while cf < |ident|
        invariant 0 <= cf <= |ident|
        invariant forall k :: 0 <= k < cf && k < 8 ==> Bit(macbit[ident[k]], k)
        invariant forall c, k :: 0 <= c < ALFSIZ && 0 <= k < 8 && old(Bit(macbit[c], k)) ==> Bit(macbit[c], k)
      {
        if cf < 8 {
          macbit[ident[cf]] := SetBit(macbit[ident[cf]], cf);
        }
        cf := cf + 1;
      }
    }

    lemma CutInCode(ident: Name)
      requires macbit.Length == ALFSIZ && symlen >= 8 && InCode(ident)
      ensures InCode(Trunc(ident, symlen))
    {
    }

    /** #define: the identifier, cut to symlen characters, gets the value v. The table has room unless
        the name is new and every slot is in use. */
    method Define(ident: Name, v: V) returns (ok: bool)
      requires Valid() && !Tombstone(ident)
      modifies stab, macbit, this`at
      ensures Valid()
      ensures !ok <==> Trunc(ident, symlen) !in old(Defs()) && forall j :: 0 <= j < SYMSIZ ==> old(stab[j].name.Some?)
      ensures !ok ==> forall j :: 0 <= j < SYMSIZ ==> stab[j].name.Some?
      ensures Defs() == if ok then old(Defs())[Trunc(ident, symlen) := v] else old(Defs())
      ensures ok ==> forall other: Name ::
        (ValueIn(Defs(), other, symlen) ==
         if DifferWithin(ident, other, symlen) then ValueIn(old(Defs()), other, symlen) else Some(v))
    {
      ghost var defs := Defs();
      var name := Trunc(ident, symlen);
      var r := Lookup(name);
      if r.Full? {
        return false;
      }
      Code(ident);
      CutInCode(ident);
      if r.Found? {
        Redefine(r.slot, name, v);
      } else {
        Enter(r.slot, name, v);
      }
      forall other: Name ensures ValueIn(Defs(), other, symlen) ==
        if DifferWithin(ident, other, symlen) then ValueIn(defs, other, symlen) else Some(v)
      {
        DefinitionReaches(defs, ident, v, symlen, other);
      }
      ok := true;
    }

    method EnterSalted(i: nat, name: Name, v: V)
      requires Valid() && Salted(name) && name !in at && OpenFor(i, Home(0, name))
      modifies stab, this`at
      ensures Valid() && Defs() == old(Defs())[name := v]
    {
      Enter(i, name, v);
    }

    /** The search with the salted hash of a name that is not there ends where the name with the salt goes. */
    method SearchSalted(name: Name) returns (r: Probe)
      requires Placed() && !Tombstone(name) && name !in at
      ensures !r.Found? && (r.Full? <==> forall j :: 0 <= j < SYMSIZ ==> stab[j].name.Some?)
      ensures r.Free? ==> OpenFor(r.slot, Home(0, [SALT] + name))
    {
      forall j | 0 <= j < SYMSIZ ensures stab[j].name != Some(name) {
        assert Accounted(stab[j], j, at);
      }
      r := Search(Home(SALT, name), name);
      SaltedHome(name);
    }

    /** A directive, entered under its bare name with the salted hash and then renamed. */
    method DefineDirective(name: Name, v: V) returns (ok: bool)
      requires Valid() && !Tombstone(name) && name !in Defs() && [SALT] + name !in Defs()
      modifies stab, macbit, this`at
      ensures Valid() && (!ok <==> forall j :: 0 <= j < SYMSIZ ==> old(stab[j].name.Some?))
      ensures Defs() == if ok then old(Defs())[[SALT] + name := v] else old(Defs())
    {
      var r := SearchSalted(name);
      if r.Full? {
        return false;
      }
      Code(name);
      EnterSalted(r.slot, [SALT] + name, v);
      ok := true;
    }

    /** The value of an identifier, if it is a macro. Only a full table without it has no answer. */
    method Value(ident: Name) returns (ok: bool, v: Option<V>)
      requires Valid() && !Tombstone(ident)
      ensures !ok <==> Trunc(ident, symlen) !in Defs() && forall j :: 0 <= j < SYMSIZ ==> stab[j].name.Some?
      ensures ok ==> v == if Trunc(ident, symlen) in Defs() then Some(Defs()[Trunc(ident, symlen)]) else None
    {
      var r := Lookup(Trunc(ident, symlen));
      if r.Full? {
        return false, None;
      }
      assert Accounted(stab[r.slot], r.slot, at);
      return true, stab[r.slot].value;
    }

    method Perform(op: Op<V>) returns (ok: bool)
      requires Valid() && SensibleOp(Defs(), op)
      modifies stab, macbit, this`at
      ensures Valid() && Defs() == if ok then Effect(old(Defs()), symlen, op) else old(Defs())
      ensures !ok ==> op.Define? && Trunc(op.ident, symlen) !in Defs()
      ensures !ok ==> forall j :: 0 <= j < SYMSIZ ==> stab[j].name.Some?
    {
      ok := true;
      if op.Define? {
        ok := Define(op.ident, op.v);
      } else {
        Drop(op.name);
      }
    }

    /** Any sequence of definitions and undefinitions. The table stands for what the first n of them leave:
        for all of them, unless the next defines a name and every slot is in use. */
    method Use(ops: seq<Op<V>>) returns (ok: bool, n: nat)
      requires Valid() && Sensible(Defs(), symlen, ops)
      modifies stab, macbit, this`at
      ensures Valid() && n <= |ops| && (ok <==> n == |ops|) && Defs() == Definitions(old(Defs()), symlen, ops[..n])
      ensures !ok ==> ops[n].Define? && Trunc(ops[n].ident, symlen) !in Defs()
      ensures !ok ==> forall j :: 0 <= j < SYMSIZ ==> stab[j].name.Some?
    {
      n := 0;
      assert ops[0..] == ops && ops[..0] == [];
      while n < |ops|
        invariant 0 <= n <= |ops| && Valid() && Sensible(Defs(), symlen, ops[n..])
        invariant Defs() == Definitions(old(Defs()), symlen, ops[..n])
      {
        DefinitionsStep(old(Defs()), symlen, ops, n);
        SensibleStep(Defs(), symlen, ops, n);
        ok := Perform(ops[n]);
        if !ok {
          return;
        }
        n := n + 1;
      }
      assert ops[..n] == ops;
      ok := true;
    }

    /** The scanner's test: an identifier that fails it is not a macro, whatever was defined or undefined. */
    method NotMacro(ident: Name) returns (nomac: bool)
      requires Valid() && !Salted(ident)
      ensures nomac ==> Trunc(ident, symlen) !in Defs()
      ensures nomac <==> exists k :: 0 <= k < |ident| && k < 8 && !Bit(macbit[ident[k]], k)
    {
      var k := 0;
      while k < |ident| && k < 8
        invariant 0 <= k <= |ident|
        invariant forall j :: 0 <= j < k && j < 8 ==> Bit(macbit[ident[j]], j)
      {
        if !Bit(macbit[ident[k]], k) {
          assert Trunc(ident, symlen)[k] == ident[k];
          assert !InCode(Trunc(ident, symlen));
          return true;
        }
        k := k + 1;
      }
      nomac := false;
    }
  }

  datatype Op<V> = Define(ident: Name, v: V) | Undef(name: Name)

  function Effect<V>(defs: map<Name, V>, symlen: nat, op: Op<V>): map<Name, V> {
    match op
    case Define(ident, v) => defs[Trunc(ident, symlen) := v]
    case Undef(name) => defs - {name}
  }

  /** The definitions that remain. */
  function Definitions<V>(defs: map<Name, V>, symlen: nat, ops: seq<Op<V>>): map<Name, V>
    decreases |ops|
  {
    if ops == [] then defs else Definitions(Effect(defs, symlen, ops[0]), symlen, ops[1..])
  }

  lemma {:induction false} DefinitionsStep<V>(defs: map<Name, V>, symlen: nat, ops: seq<Op<V>>, i: nat)
    requires i < |ops|
    ensures Definitions(defs, symlen, ops[..i + 1]) == Effect(Definitions(defs, symlen, ops[..i]), symlen, ops[i])
    decreases i
  {
    var first := ops[..i + 1];
    if i == 0 {
      assert first[1..] == [] && ops[..0] == [];
    } else {
      var rest := ops[1..];
      DefinitionsStep(Effect(defs, symlen, ops[0]), symlen, rest, i - 1);
      assert first[1..] == rest[..i] && ops[..i][1..] == rest[..i - 1] && rest[i - 1] == ops[i];
    }
  }

  /** Only what is defined is undefined, and no name begins with the tombstone's mark. */
  predicate Sensible<V>(defs: map<Name, V>, symlen: nat, ops: seq<Op<V>>)
    decreases |ops|
  {
    ops == [] || (SensibleOp(defs, ops[0]) && Sensible(Effect(defs, symlen, ops[0]), symlen, ops[1..]))
  }

  predicate SensibleOp<V>(defs: map<Name, V>, op: Op<V>) {
    if op.Define? then !Tombstone(op.ident) else !Tombstone(op.name) && op.name != [] && op.name in defs
  }

  lemma SensibleStep<V>(defs: map<Name, V>, symlen: nat, ops: seq<Op<V>>, i: nat)
    requires i < |ops| && Sensible(defs, symlen, ops[i..])
    ensures SensibleOp(defs, ops[i]) && Sensible(Effect(defs, symlen, ops[i]), symlen, ops[i + 1..])
  {
    assert ops[i..][1..] == ops[i + 1..];
  }
}
