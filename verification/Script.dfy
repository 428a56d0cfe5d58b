/** The script compiler: commands become a flat list of nodes. Blocks and branches are links from node
    to node; a branch to a label not yet seen waits in a chain threaded through the link fields. */
module Script {
  import opened Bytes

  type Name = seq<byte>

  /** An address: "$", a line number or a pattern (its number). */
  datatype Address = LastLine | LineNo(n: int) | Pattern(id: nat)

  /** The addresses of a command and its "!". */
  datatype Sel = Sel(ad1: Option<Address>, ad2: Option<Address>, neg: bool)

  /** Commands as they are read. addressed tells that an address was given where none is allowed. */
  datatype Cmd =
    | Begin(sel: Sel)
    | End(addressed: bool)
    | Label(name: Name, addressed: bool)
    | Jump(sel: Sel, cond: bool, target: Option<Name>)
    | Restart(sel: Sel)
    | Act(sel: Sel, op: nat)

  datatype Kind = KNone | KBranch | KTest | KRestart | KAct(op: nat)

  /** A node of the flat list. lb1 is the number of another node, or NULL. */
  datatype Rep = Rep(kind: Kind, sel: Sel, lb1: int)

  const NULL := -1
  const NO_SEL := Sel(None, None, false)

  datatype Lab = Lab(asc: Name, chain: int, address: int)

  const LABSIZE := 50
  const DEPTH := 20

  datatype Error = AddressNotAllowed | TooManyClose | LabelTooLong | DuplicateLabel | TooManyLabels

  // ---------------------------------------------------------------- what the commands read so far mean

  predicate IsNode(c: Cmd) {
    !c.End? && !c.Label?
  }

  /** The commands that have nodes, in order: node i is command Nodes(h)[i]. */
  function Nodes(h: seq<Cmd>): seq<Cmd> {
    if h == [] then []
    else if IsNode(h[|h| - 1]) then Nodes(h[..|h| - 1]) + [h[|h| - 1]] else Nodes(h[..|h| - 1])
  }

  /** The node number a label stands for: that of the command current when it was read. */
  function LabelNode(h: seq<Cmd>, name: Name): (n: int)
    ensures NULL <= n <= |Nodes(h)|
  {
    if h == [] then NULL
    else
      var pre, c := h[..|h| - 1], h[|h| - 1];
      if c.Label? && c.name == name then |Nodes(pre)| else LabelNode(pre, name)
  }

  /** The nodes that branch to target, in order. */
  function Users(h: seq<Cmd>, target: Option<Name>): seq<nat> {
    if h == [] then []
    else
      var pre, c := h[..|h| - 1], h[|h| - 1];
      if c.Jump? && c.target == target then Users(pre, target) + [|Nodes(pre)|] else Users(pre, target)
  }

  /** The blocks still open, innermost last. */
  function OpenBlocks(h: seq<Cmd>): seq<nat> {
    if h == [] then []
    else
      var pre, c := h[..|h| - 1], h[|h| - 1];
      if c.Begin? then OpenBlocks(pre) + [|Nodes(pre)|]
      else if c.End? && OpenBlocks(pre) != [] then OpenBlocks(pre)[..|OpenBlocks(pre)| - 1]
      else OpenBlocks(pre)
  }

  /** The node current when the block that node i opens was closed. */
  function BlockEnd(h: seq<Cmd>, i: nat): int {
    if h == [] then NULL
    else
      var pre, c := h[..|h| - 1], h[|h| - 1];
      if c.End? && OpenBlocks(pre) != [] && OpenBlocks(pre)[|OpenBlocks(pre)| - 1] == i then |Nodes(pre)|
      else BlockEnd(pre, i)
  }

  /** The labels named so far, in order of first mention. */
  function Names(h: seq<Cmd>): seq<Name> {
    if h == [] then []
    else
      var pre, c := h[..|h| - 1], h[|h| - 1];
      var n := if c.Label? then Some(c.name) else if c.Jump? then c.target else None;
      if n.Some? && n.value !in Names(pre) then Names(pre) + [n.value] else Names(pre)
  }

  /** The element after x in an increasing list, or NULL. */
  function After(us: seq<nat>, x: nat): int {
    if us == [] then NULL
    else if us[0] == x then (if |us| > 1 then us[1] else NULL)
    else After(us[1..], x)
  }

  /** The link node i must have once the commands h have been read. */
  function Link(h: seq<Cmd>, i: nat): int
    requires i < |Nodes(h)|
  {
    match Nodes(h)[i]
    case Begin(_) => BlockEnd(h, i)
    case Jump(_, _, target) =>
      if target.Some? && LabelNode(h, target.value) != NULL then LabelNode(h, target.value)
      else After(Users(h, target), i)
    case Restart(_) => 0
    case _ => NULL
  }

  function KindOf(c: Cmd): Kind {
    match c
    case Begin(_) => KBranch
    case Jump(_, cond, _) => if cond then KTest else KBranch
    case Restart(_) => KRestart
    case Act(_, op) => KAct(op)
    case _ => KNone
  }

  /** A block is entered by falling through a branch with the opposite condition. */
  function SelOf(c: Cmd): Sel {
    match c
    case Begin(sel) => sel.(neg := !sel.neg)
    case Jump(sel, _, _) => sel
    case Restart(sel) => sel
    case Act(sel, _) => sel
    case _ => NO_SEL
  }

  /** Node i as it must be once h has been read. */
  function FlatRep(h: seq<Cmd>, i: nat): Rep
    requires i < |Nodes(h)|
  {
    Rep(KindOf(Nodes(h)[i]), SelOf(Nodes(h)[i]), Link(h, i))
  }

  const EMPTY_REP := Rep(KNone, NO_SEL, NULL)

  /** reps is the flat list for the commands h: their nodes and the current, empty one. */
  ghost predicate IsFlat(reps: seq<Rep>, h: seq<Cmd>) {
    && |reps| == |Nodes(h)| + 1 && reps[|Nodes(h)|] == EMPTY_REP
    && forall i :: 0 <= i < |Nodes(h)| ==> reps[i] == FlatRep(h, i)
  }

  /** labels is the label table for the commands h. */
  ghost predicate IsTable(labels: seq<Lab>, h: seq<Cmd>) {
    && |labels| == |Names(h)|
    && forall l :: 0 <= l < |Names(h)| ==> labels[l] == LabOf(h, Names(h)[l])
  }

  function LabOf(h: seq<Cmd>, name: Name): Lab {
    Lab(name, Head(h, Some(name)), LabelNode(h, name))
  }

  /** The head of the chain of branches waiting for target. */
  function Head(h: seq<Cmd>, target: Option<Name>): int {
    if target.Some? && LabelNode(h, target.value) != NULL then NULL
    else if Users(h, target) == [] then NULL
    else Users(h, target)[0]
  }

  // ---------------------------------------------------------------- reading one more command

  lemma Snoc(h: seq<Cmd>, c: Cmd)
    ensures (h + [c])[..|h + [c]| - 1] == h && (h + [c])[|h + [c]| - 1] == c
  {
    assert (h + [c])[..|h + [c]| - 1] == h;
  }

  lemma NodesSnoc(h: seq<Cmd>, c: Cmd)
    ensures Nodes(h + [c]) == if IsNode(c) then Nodes(h) + [c] else Nodes(h)
  {
    Snoc(h, c);
  }

  lemma UsersSnoc(h: seq<Cmd>, c: Cmd, target: Option<Name>)
    ensures Users(h + [c], target) ==
      if c.Jump? && c.target == target then Users(h, target) + [|Nodes(h)|] else Users(h, target)
  {
    Snoc(h, c);
  }

  lemma LabelNodeSnoc(h: seq<Cmd>, c: Cmd, name: Name)
    ensures LabelNode(h + [c], name) == if c.Label? && c.name == name then |Nodes(h)| else LabelNode(h, name)
  {
    Snoc(h, c);
  }

  lemma OpenBlocksSnoc(h: seq<Cmd>, c: Cmd)
    ensures OpenBlocks(h + [c]) ==
      if c.Begin? then OpenBlocks(h) + [|Nodes(h)|]
      else if c.End? && OpenBlocks(h) != [] then OpenBlocks(h)[..|OpenBlocks(h)| - 1]
      else OpenBlocks(h)
  {
    Snoc(h, c);
  }

  lemma BlockEndSnoc(h: seq<Cmd>, c: Cmd, i: nat)
    ensures BlockEnd(h + [c], i) ==
      if c.End? && OpenBlocks(h) != [] && OpenBlocks(h)[|OpenBlocks(h)| - 1] == i then |Nodes(h)| else BlockEnd(h, i)
  {
    Snoc(h, c);
  }

  lemma NamesSnoc(h: seq<Cmd>, c: Cmd)
    ensures var n := if c.Label? then Some(c.name) else if c.Jump? then c.target else None;
      Names(h + [c]) == if n.Some? && n.value !in Names(h) then Names(h) + [n.value] else Names(h)
  {
    Snoc(h, c);
  }

  /** A strictly increasing list. */
  predicate Increasing(us: seq<nat>) {
    forall i, j :: 0 <= i < j < |us| ==> us[i] < us[j]
  }

  predicate Below(us: seq<nat>, n: nat) {
    forall k :: 0 <= k < |us| ==> us[k] < n
  }

  /** A chain visits each branch to its target once, in order: it is acyclic, and as a branch has one
      target, chains are disjoint. */
  lemma {:induction false} UsersOrdered(h: seq<Cmd>, target: Option<Name>)
    ensures Increasing(Users(h, target)) && Below(Users(h, target), |Nodes(h)|)
    ensures forall k :: 0 <= k < |Users(h, target)| ==>
      && Below(Users(h, target), |Nodes(h)|) && Nodes(h)[Users(h, target)[k]].Jump?
      && Nodes(h)[Users(h, target)[k]].target == target
  {
    if h != [] {
      UsersOrdered(h[..|h| - 1], target);
    }
  }

  lemma {:induction false} OpenBlocksOrdered(h: seq<Cmd>)
    ensures Increasing(OpenBlocks(h)) && Below(OpenBlocks(h), |Nodes(h)|)
    ensures forall k :: 0 <= k < |OpenBlocks(h)| ==>
      Below(OpenBlocks(h), |Nodes(h)|) && Nodes(h)[OpenBlocks(h)[k]].Begin?
  {
    if h != [] {
      OpenBlocksOrdered(h[..|h| - 1]);
    }
  }

  lemma {:induction false} NamesDistinct(h: seq<Cmd>)
    ensures forall i, j :: 0 <= i < j < |Names(h)| ==> Names(h)[i] != Names(h)[j]
  {
    if h != [] {
      NamesDistinct(h[..|h| - 1]);
    }
  }

  lemma {:induction false} UnreadBlock(h: seq<Cmd>, i: nat)
    requires i >= |Nodes(h)|
    ensures BlockEnd(h, i) == NULL
  {
    if h != [] {
      OpenBlocksOrdered(h[..|h| - 1]);
      UnreadBlock(h[..|h| - 1], i);
    }
  }

  /** Mentioned names only: a label or branch puts its name in the table. */
  lemma {:induction false} UnnamedUnused(h: seq<Cmd>, name: Name)
    requires name !in Names(h)
    ensures Users(h, Some(name)) == [] && LabelNode(h, name) == NULL
  {
    if h != [] {
      var pre, c := h[..|h| - 1], h[|h| - 1];
      assert name !in Names(pre);
      UnnamedUnused(pre, name);
    }
  }

  /** The successor in a list is the next element. */
  lemma {:induction false} AfterAt(us: seq<nat>, k: nat)
    requires k < |us| && Increasing(us)
    ensures After(us, us[k]) == if k + 1 < |us| then us[k + 1] else NULL
    decreases |us|
  {
    if k > 0 {
      AfterAt(us[1..], k - 1);
    }
  }

  lemma {:induction false} AfterSnoc(us: seq<nat>, x: nat, i: nat)
    requires Below(us, x) && Increasing(us) && i in us
    ensures After(us + [x], i) == if i == us[|us| - 1] then x else After(us, i)
    decreases |us|
  {
    if us[0] == i {
      assert (us + [x])[0] == i;
    } else {
      assert (us + [x])[1..] == us[1..] + [x];
      AfterSnoc(us[1..], x, i);
    }
  }

  lemma {:induction false} AfterLast(us: seq<nat>, x: nat)
    requires Below(us, x)
    ensures After(us + [x], x) == NULL
    decreases |us|
  {
    if us != [] {
      assert (us + [x])[1..] == us[1..] + [x];
      AfterLast(us[1..], x);
    } else {
      assert us + [x] == [x];
    }
  }

  /** Every branch to target is among its users. */
  lemma {:induction false} JumpIsUser(h: seq<Cmd>, i: nat)
    requires i < |Nodes(h)| && Nodes(h)[i].Jump?
    ensures i in Users(h, Nodes(h)[i].target)
  {
    if h != [] {
      var pre, c := h[..|h| - 1], h[|h| - 1];
      if i < |Nodes(pre)| {
        JumpIsUser(pre, i);
      }
    }
  }

  /** Reading c makes node i point at the current node: c closes its block, defines its label, or is the
      next branch to wait for the same label. */
  predicate Relinked(h: seq<Cmd>, c: Cmd, i: nat)
    requires i < |Nodes(h)|
  {
    var d := Nodes(h)[i];
    || (c.End? && OpenBlocks(h) != [] && OpenBlocks(h)[|OpenBlocks(h)| - 1] == i)
    || (c.Label? && d.Jump? && d.target == Some(c.name))
    || (c.Jump? && d.Jump? && d.target == c.target && Head(h, c.target) != NULL
        && i == Users(h, c.target)[|Users(h, c.target)| - 1])
  }

  /** What a branch to target links to, with its users us and its label at node lab. */
  function JumpLink(target: Option<Name>, lab: int, us: seq<nat>, i: nat): int {
    if target.Some? && lab != NULL then lab else After(us, i)
  }

  lemma LinkSnocJump(h: seq<Cmd>, c: Cmd, i: nat)
    requires i < |Nodes(h)| && i < |Nodes(h + [c])| && Nodes(h + [c])[i] == Nodes(h)[i] && Nodes(h)[i].Jump?
    ensures Link(h + [c], i) == if Relinked(h, c, i) then |Nodes(h)| else Link(h, i)
  {
    var target := Nodes(h)[i].target;
    var us, lab := Users(h, target), if target.Some? then LabelNode(h, target.value) else NULL;
    UsersSnoc(h, c, target);
    if target.Some? {
      LabelNodeSnoc(h, c, target.value);
    }
    LinkOfJump(h, i);
    LinkOfJump(h + [c], i);
    JumpRelinked(h, c, i);
    UserLinkSnoc(h, c, i);
  }

  lemma LinkOfJump(h: seq<Cmd>, i: nat)
    requires i < |Nodes(h)| && Nodes(h)[i].Jump?
    ensures var target := Nodes(h)[i].target;
      Link(h, i) == JumpLink(target, if target.Some? then LabelNode(h, target.value) else NULL, Users(h, target), i)
  {
  }

  lemma UserLinkSnoc(h: seq<Cmd>, c: Cmd, i: nat)
    requires i < |Nodes(h)| && Nodes(h)[i].Jump?
    ensures var target := Nodes(h)[i].target;
      var n, us, lab := |Nodes(h)|, Users(h, target), if target.Some? then LabelNode(h, target.value) else NULL;
      var lab2 := if c.Label? && target == Some(c.name) then n else lab;
      var us2 := if c.Jump? && c.target == target then us + [n] else us;
      us != [] && JumpLink(target, lab2, us2, i) ==
        if c.Label? && target == Some(c.name) then n
        else if c.Jump? && c.target == target && lab == NULL && i == us[|us| - 1] then n
        else JumpLink(target, lab, us, i)
  {
    var target := Nodes(h)[i].target;
    JumpIsUser(h, i);
    UsersOrdered(h, target);
    JumpLinkSnoc(target, if target.Some? then LabelNode(h, target.value) else NULL, Users(h, target), c, |Nodes(h)|, i);
  }

  lemma JumpLinkSnoc(target: Option<Name>, lab: int, us: seq<nat>, c: Cmd, n: nat, i: nat)
    requires Below(us, n) && Increasing(us) && i in us && (target.None? ==> lab == NULL)
    ensures var lab2 := if c.Label? && target == Some(c.name) then n else lab;
      var us2 := if c.Jump? && c.target == target then us + [n] else us;
      JumpLink(target, lab2, us2, i) ==
        if c.Label? && target == Some(c.name) then n
        else if c.Jump? && c.target == target && lab == NULL && i == us[|us| - 1] then n
        else JumpLink(target, lab, us, i)
  {
    if c.Jump? && c.target == target {
      AfterSnoc(us, n, i);
    }
  }

  lemma JumpRelinked(h: seq<Cmd>, c: Cmd, i: nat)
    requires i < |Nodes(h)| && Nodes(h)[i].Jump?
    ensures var target := Nodes(h)[i].target;
      var us, lab := Users(h, target), if target.Some? then LabelNode(h, target.value) else NULL;
      us != [] && (Relinked(h, c, i) <==>
        (c.Label? && target == Some(c.name)) || (c.Jump? && c.target == target && lab == NULL && i == us[|us| - 1]))
  {
    NotOpen(h, i);
    JumpIsUser(h, i);
  }

  lemma NotOpen(h: seq<Cmd>, i: nat)
    requires i < |Nodes(h)| && Nodes(h)[i].Jump?
    ensures OpenBlocks(h) == [] || OpenBlocks(h)[|OpenBlocks(h)| - 1] != i
  {
    OpenBlocksOrdered(h);
  }

  /** How reading c changes the link of an earlier node i. */
  lemma LinkSnoc(h: seq<Cmd>, c: Cmd, i: nat)
    requires i < |Nodes(h)|
    ensures i < |Nodes(h + [c])| && Nodes(h + [c])[i] == Nodes(h)[i]
    ensures Link(h + [c], i) == if Relinked(h, c, i) then |Nodes(h)| else Link(h, i)
  {
    NodesSnoc(h, c);
    OpenBlocksOrdered(h);
    if Nodes(h)[i].Begin? {
      BlockEndSnoc(h, c, i);
    } else if Nodes(h)[i].Jump? {
      LinkSnocJump(h, c, i);
    }
  }

  /** The link of the node that c itself creates. */
  lemma LinkNew(h: seq<Cmd>, c: Cmd)
    requires IsNode(c)
    ensures |Nodes(h + [c])| == |Nodes(h)| + 1 && Nodes(h + [c])[|Nodes(h)|] == c
    ensures Link(h + [c], |Nodes(h)|) ==
      if c.Restart? then 0
      else if c.Jump? && c.target.Some? && LabelNode(h, c.target.value) != NULL then LabelNode(h, c.target.value)
      else NULL
  {
    NodesSnoc(h, c);
    if c.Begin? {
      BlockEndSnoc(h, c, |Nodes(h)|);
      UnreadBlock(h, |Nodes(h)|);
    } else if c.Jump? {
      UsersSnoc(h, c, c.target);
      UsersOrdered(h, c.target);
      AfterLast(Users(h, c.target), |Nodes(h)|);
      if c.target.Some? {
        LabelNodeSnoc(h, c, c.target.value);
      }
    }
  }

  // ---------------------------------------------------------------- the compiler

  /** The error for reading c after h, if any. */
  function ReadError(h: seq<Cmd>, c: Cmd): Option<Error> {
    match c
    case End(addressed) =>
      if addressed then Some(AddressNotAllowed) else if OpenBlocks(h) == [] then Some(TooManyClose) else None
    case Label(name, addressed) =>
      if addressed then Some(AddressNotAllowed)
      else if |name| >= 8 then Some(LabelTooLong)
      else if name == [] || LabelNode(h, name) != NULL then Some(DuplicateLabel)
      else if name !in Names(h) && |Names(h)| + 2 >= LABSIZE then Some(TooManyLabels)
      else None
    case Jump(_, _, Some(name)) =>
      if |name| >= 8 then Some(LabelTooLong)
      else if name !in Names(h) && |Names(h)| + 2 >= LABSIZE then Some(TooManyLabels)
      else None
    case _ => None
  }

  /** Member k of the chain us links to the next one, the last to nothing. */
  ghost predicate LinksOn(reps: seq<Rep>, us: seq<nat>, k: nat)
    requires k < |us| && Below(us, |reps|)
  {
    reps[us[k]].lb1 == if k + 1 < |us| then us[k + 1] else NULL
  }

  /** The table entry of a name that c does not mention stays as it is. */
  lemma LabKept(h: seq<Cmd>, c: Cmd, name: Name)
    requires !(c.Label? && c.name == name) && !(c.Jump? && c.target == Some(name))
    ensures LabOf(h + [c], name) == LabOf(h, name)
  {
    UsersSnoc(h, c, Some(name));
    LabelNodeSnoc(h, c, name);
  }

  lemma TableKept(labels: seq<Lab>, h: seq<Cmd>, c: Cmd)
    requires IsTable(labels, h) && !c.Label? && (c.Jump? ==> c.target == None)
    ensures IsTable(labels, h + [c])
  {
    NamesSnoc(h, c);
    forall l | 0 <= l < |Names(h)| ensures LabOf(h + [c], Names(h)[l]) == LabOf(h, Names(h)[l]) {
      LabKept(h, c, Names(h)[l]);
    }
  }

  lemma BareKept(h: seq<Cmd>, c: Cmd)
    requires c.Jump? ==> c.target != None
    ensures Head(h + [c], None) == Head(h, None)
  {
    UsersSnoc(h, c, None);
  }

  /** The flat list after a command with a node: earlier links change where they are relinked, and the
      new node takes the place of the empty one. */
  lemma FlatNode(reps: seq<Rep>, h: seq<Cmd>, c: Cmd, reps2: seq<Rep>)
    requires IsFlat(reps, h) && IsNode(c)
    requires |reps2| == |reps| + 1 && reps2[|reps|] == EMPTY_REP
    requires reps2[|reps| - 1] == Rep(KindOf(c), SelOf(c), Link(h + [c], |Nodes(h)|))
    requires forall i :: 0 <= i < |Nodes(h)| ==>
      reps2[i] == if Relinked(h, c, i) then reps[i].(lb1 := |Nodes(h)|) else reps[i]
    ensures IsFlat(reps2, h + [c])
  {
    LinkNew(h, c);
    forall i | 0 <= i < |Nodes(h)| ensures reps2[i] == FlatRep(h + [c], i) {
      LinkSnoc(h, c, i);
    }
  }

  /** Where no link changes only the new node is added. */
  lemma PlainFlat(reps: seq<Rep>, h: seq<Cmd>, c: Cmd)
    requires IsFlat(reps, h) && (c.Begin? || c.Restart? || c.Act?)
    ensures IsFlat(reps[|reps| - 1 := Rep(KindOf(c), SelOf(c), if c.Restart? then 0 else NULL)] + [EMPTY_REP], h + [c])
  {
    LinkNew(h, c);
    FlatNode(reps, h, c, reps[|reps| - 1 := Rep(KindOf(c), SelOf(c), if c.Restart? then 0 else NULL)] + [EMPTY_REP]);
  }

  /** The flat list after "}" or a label: links change, no node is added. */
  lemma FlatRelinked(reps: seq<Rep>, h: seq<Cmd>, c: Cmd, reps2: seq<Rep>)
    requires IsFlat(reps, h) && !IsNode(c)
    requires |reps2| == |reps| && reps2[|reps| - 1] == EMPTY_REP
    requires forall i :: 0 <= i < |Nodes(h)| ==>
      reps2[i] == if Relinked(h, c, i) then reps[i].(lb1 := |Nodes(h)|) else reps[i]
    ensures IsFlat(reps2, h + [c])
  {
    NodesSnoc(h, c);
    forall i | 0 <= i < |Nodes(h)| ensures reps2[i] == FlatRep(h + [c], i) {
      LinkSnoc(h, c, i);
    }
  }

  /** "}": the innermost open block is linked to the current node. */
  lemma EndFlat(reps: seq<Rep>, h: seq<Cmd>, c: Cmd)
    requires IsFlat(reps, h) && c.End? && OpenBlocks(h) != []
    ensures var b := OpenBlocks(h)[|OpenBlocks(h)| - 1];
      b < |reps| && IsFlat(reps[b := reps[b].(lb1 := |reps| - 1)], h + [c])
  {
    OpenBlocksOrdered(h);
    var b := OpenBlocks(h)[|OpenBlocks(h)| - 1];
    FlatRelinked(reps, h, c, reps[b := reps[b].(lb1 := |reps| - 1)]);
  }

  /** In the flat list the branches waiting for target form a chain. */
  lemma WaitingChained(reps: seq<Rep>, h: seq<Cmd>, target: Option<Name>)
    requires IsFlat(reps, h) && Head(h, target) != NULL
    ensures var us := Users(h, target);
      && us != [] && Increasing(us) && Below(us, |Nodes(h)|) && Below(us, |reps|)
      && forall k :: 0 <= k < |us| ==> LinksOn(reps, us, k)
  {
    var us := Users(h, target);
    UsersOrdered(h, target);
    forall k | 0 <= k < |us| ensures LinksOn(reps, us, k) {
      AfterAt(us, k);
      assert reps[us[k]] == FlatRep(h, us[k]);
    }
  }

  /** A label relinks exactly the branches to it. */
  lemma RelinkedByLabel(h: seq<Cmd>, c: Cmd, i: nat)
    requires c.Label? && i < |Nodes(h)|
    ensures Relinked(h, c, i) <==> i in Users(h, Some(c.name))
  {
    UsersOrdered(h, Some(c.name));
    if Nodes(h)[i].Jump? {
      JumpIsUser(h, i);
    }
  }

  /** A name in the table without a node has branches waiting. */
  lemma {:induction false} NamedIsUsed(h: seq<Cmd>, name: Name)
    requires name in Names(h) && LabelNode(h, name) == NULL
    ensures Users(h, Some(name)) != []
  {
    if h != [] {
      var pre, c := h[..|h| - 1], h[|h| - 1];
      if name in Names(pre) {
        NamedIsUsed(pre, name);
      }
    }
  }

  /** The table when c mentions name: its entry is updated, or added at the end. */
  lemma TableUpdated(labels: seq<Lab>, h: seq<Cmd>, c: Cmd, name: Name, l: int, labels2: seq<Lab>)
    requires IsTable(labels, h) && ((c.Label? && c.name == name) || (c.Jump? && c.target == Some(name)))
    requires if l == NULL then name !in Names(h) && labels2 == labels + [LabOf(h + [c], name)]
             else 0 <= l < |labels| && Names(h)[l] == name && labels2 == labels[l := LabOf(h + [c], name)]
    ensures IsTable(labels2, h + [c])
  {
    NamesSnoc(h, c);
    NamesDistinct(h);
    forall k | 0 <= k < |Names(h)| && k != l ensures labels2[k] == LabOf(h + [c], Names(h)[k]) {
      if l == NULL {
        assert Names(h)[k] in Names(h);
      }
      LabKept(h, c, Names(h)[k]);
    }
  }

  lemma LabAfterLabel(h: seq<Cmd>, c: Cmd)
    requires c.Label?
    ensures LabOf(h + [c], c.name) == Lab(c.name, NULL, |Nodes(h)|)
  {
    LabelNodeSnoc(h, c, c.name);
  }

  lemma LabAfterJump(h: seq<Cmd>, c: Cmd)
    requires c.Jump? && c.target.Some?
    ensures var name := c.target.value;
      LabOf(h + [c], name) ==
      if LabelNode(h, name) != NULL then LabOf(h, name)
      else Lab(name, if Users(h, c.target) == [] then |Nodes(h)| else Users(h, c.target)[0], NULL)
  {
    LabelNodeSnoc(h, c, c.target.value);
    UsersSnoc(h, c, c.target);
  }

  /** The first error met in reading cmds after h. */
  function FirstError(h: seq<Cmd>, cmds: seq<Cmd>): Option<Error>
    decreases |cmds|
  {
    if cmds == [] then None
    else if ReadError(h, cmds[0]).Some? then ReadError(h, cmds[0])
    else FirstError(h + [cmds[0]], cmds[1..])
  }

  /** No empty label names (the reader takes those for branches without a label), and never more than
      DEPTH blocks open. */
  predicate Readable(h: seq<Cmd>, cmds: seq<Cmd>)
    decreases |cmds|
  {
    cmds == [] ||
    (&& (cmds[0].Jump? ==> cmds[0].target != Some([]))
     && |OpenBlocks(h + [cmds[0]])| <= DEPTH && Readable(h + [cmds[0]], cmds[1..]))
  }

  lemma ConsRest(all: seq<Cmd>, h2: seq<Cmd>, cmds: seq<Cmd>, i: nat)
    requires i < |cmds| && h2 != [] && h2[|h2| - 1] == cmds[i] && h2[..|h2| - 1] + cmds[i..] == all
    ensures h2 + cmds[i + 1..] == all
  {
    assert cmds[i..] == [cmds[i]] + cmds[i + 1..];
    assert h2 == h2[..|h2| - 1] + [cmds[i]];
  }

  /** Every label that is mentioned has been read. */
  ghost predicate LabelsDefined(h: seq<Cmd>) {
    forall name :: name in Names(h) ==> LabelNode(h, name) != NULL
  }

  class Commands {
    var reps: seq<Rep>
    var labels: seq<Lab>
    var bareChain: int        // the chain of branches without a label, kept in table entry 0
    var cmpend: seq<nat>      // blocks to close; its length is the depth
    ghost var h: seq<Cmd>     // the commands read so far

    ghost predicate Valid()
      reads this
    {
      IsFlat(reps, h) && IsTable(labels, h) && bareChain == Head(h, None) && cmpend == OpenBlocks(h)
    }

    constructor ()
      ensures Valid() && h == []
    {
      reps, labels, bareChain, cmpend, h := [EMPTY_REP], [], NULL, [], [];
    }

    /** The table entry of a label, or NULL. */
    method Search(name: Name) returns (l: int)
      requires Valid()
      ensures l == NULL ==> name !in Names(h)
      ensures l != NULL ==> 0 <= l < |labels| && Names(h)[l] == name
    {
      l := 0;
      while l < |labels|
        invariant 0 <= l <= |labels|
        invariant forall k :: 0 <= k < l ==> Names(h)[k] != name
      {
        if labels[l].asc == name {
          return;
        }
        l := l + 1;
      }
      l := NULL;
    }

    /** Write node i's link. */
    method SetLink(i: nat, to: int)
      requires i < |reps|
      modifies this`reps
      ensures reps == old(reps)[i := old(reps[i]).(lb1 := to)]
    {
      reps := reps[i := reps[i].(lb1 := to)];
    }

    /** The chain that starts at node us[0] runs through us and ends there. */
    ghost predicate Chained(us: seq<nat>)
      reads this
    {
      us != [] && Increasing(us) && Below(us, |reps|) && forall k :: 0 <= k < |us| ==> LinksOn(reps, us, k)
    }

    /** Point every node of a chain at address. */
    method Dechain(chain: nat, address: nat, ghost us: seq<nat>)
      requires Chained(us) && chain == us[0]
      modifies this`reps
      ensures |reps| == |old(reps)|
      ensures forall i :: 0 <= i < |reps| ==> reps[i] == if i in us then old(reps)[i].(lb1 := address) else old(reps)[i]
    {
      var rep := chain;
      ghost var k := 0;
      while reps[rep].lb1 != NULL
        invariant 0 <= k < |us| && rep == us[k] && us[k] !in us[..k] && |reps| == |old(reps)|
        invariant forall i :: 0 <= i < |reps| ==>
          reps[i] == if i in us[..k] then old(reps)[i].(lb1 := address) else old(reps)[i]
        decreases |us| - k
      {
        assert LinksOn(old(reps), us, k);
        var next := reps[rep].lb1;
        SetLink(rep, address);
        assert us[..k + 1] == us[..k] + [us[k]];
        rep, k := next, k + 1;
        assert us[k] !in us[..k];
      }
      assert LinksOn(old(reps), us, k);
      assert us == us[..k] + [us[k]];
      SetLink(rep, address);
    }

    /** Put node n at the end of a chain. */
    method Enchain(chain: nat, n: nat, ghost us: seq<nat>)
      requires Chained(us) && chain == us[0]
      modifies this`reps
      ensures reps == old(reps)[us[|us| - 1] := old(reps[us[|us| - 1]]).(lb1 := n)]
    {
      var pt := chain;
      ghost var k := 0;
      while reps[pt].lb1 != NULL
        invariant 0 <= k < |us| && pt == us[k] && reps == old(reps)
        decreases |us| - k
      {
        assert LinksOn(reps, us, k);
        pt, k := reps[pt].lb1, k + 1;
      }
      assert LinksOn(reps, us, k);
      SetLink(pt, n);
    }

    /** A command that only adds a node: "{", D or any other that is not a branch. */
    method ReadPlain(c: Cmd)
      requires Valid() && (c.Begin? || c.Restart? || c.Act?) && (c.Begin? ==> |cmpend| < DEPTH)
      modifies this
      ensures Valid() && h == old(h) + [c]
    {
      var n := |reps| - 1;
      PlainFlat(reps, h, c);
      reps := reps[|reps| - 1 := Rep(KindOf(c), SelOf(c), if c.Restart? then 0 else NULL)] + [EMPTY_REP];
      if c.Begin? {
        cmpend := cmpend + [n];
      }
      TableKept(labels, h, c);
      BareKept(h, c);
      OpenBlocksSnoc(h, c);
      h := h + [c];
    }

    /** "}": the innermost open block ends at the current node. */
    method ReadEnd(c: Cmd) returns (err: Option<Error>)
      requires Valid() && c.End?
      modifies this
      ensures err == ReadError(old(h), c)
      ensures err.None? ==> Valid() && h == old(h) + [c]
    {
      if c.addressed {
        return Some(AddressNotAllowed);
      }
      if |cmpend| == 0 {
        return Some(TooManyClose);
      }
      var b := cmpend[|cmpend| - 1];
      EndFlat(reps, h, c);
      cmpend := cmpend[..|cmpend| - 1];
      SetLink(b, |reps| - 1);
      TableKept(labels, h, c);
      BareKept(h, c);
      OpenBlocksSnoc(h, c);
      h := h + [c];
      err := None;
    }

    /** Links after a label: the branches waiting for it, if any, now lead to the current node. */
    method ResolveWaiting(c: Cmd, chain: int)
      requires Valid() && c.Label? && LabelNode(h, c.name) == NULL && chain == Head(h, Some(c.name))
      modifies this`reps
      ensures IsFlat(reps, h + [c]) && |reps| == |old(reps)|
    {
      ghost var us := Users(h, Some(c.name));
      UsersOrdered(h, Some(c.name));
      if chain != NULL {
        WaitingChained(reps, h, Some(c.name));
        Dechain(chain, |reps| - 1, us);
      }
      forall i | 0 <= i < |Nodes(h)| ensures Relinked(h, c, i) <==> i in us {
        RelinkedByLabel(h, c, i);
      }
      FlatRelinked(old(reps), h, c, reps);
    }

    /** The label stands for the current node: its entry is updated, or a new one made. */
    method SetLabel(c: Cmd, l: int)
      requires IsTable(labels, h) && c.Label? && |reps| == |Nodes(h)| + 1
      requires if l == NULL then c.name !in Names(h) else 0 <= l < |labels| && Names(h)[l] == c.name
      modifies this`labels
      ensures IsTable(labels, h + [c])
    {
      var lab := Lab(c.name, NULL, |reps| - 1);
      LabAfterLabel(h, c);
      labels := if l == NULL then labels + [lab] else labels[l := lab];
      TableUpdated(old(labels), h, c, c.name, l, labels);
    }

    /** ":name". */
    method ReadLabel(c: Cmd) returns (err: Option<Error>)
      requires Valid() && c.Label?
      modifies this
      ensures err == ReadError(old(h), c)
      ensures err.None? ==> Valid() && h == old(h) + [c]
    {
      if c.addressed {
        return Some(AddressNotAllowed);
      }
      if |c.name| >= 8 {
        return Some(LabelTooLong);
      }
      if c.name == [] {
        return Some(DuplicateLabel);
      }
      var l := Search(c.name);
      if l == NULL {
        UnnamedUnused(h, c.name);
        if |labels| + 2 >= LABSIZE {
          return Some(TooManyLabels);
        }
      } else if labels[l].address != NULL {
        return Some(DuplicateLabel);
      }
      ResolveWaiting(c, if l == NULL then NULL else labels[l].chain);
      SetLabel(c, l);
      BareKept(h, c);
      OpenBlocksSnoc(h, c);
      h := h + [c];
      err := None;
    }

    /** Put the branch c, at the current node, at the end of the chain of those waiting for its target,
        or start that chain; then make room for the next node. */
    method Wait(c: Cmd, chain: int) returns (head: int)
      requires Valid() && c.Jump? && chain == Head(h, c.target)
      requires c.target.Some? ==> LabelNode(h, c.target.value) == NULL
      modifies this`reps
      ensures IsFlat(reps, h + [c])
      ensures head == if Users(h, c.target) == [] then |Nodes(h)| else Users(h, c.target)[0]
    {
      var n := |reps| - 1;
      ghost var us := Users(h, c.target);
      UsersOrdered(h, c.target);
      LinkNew(h, c);
      head := n;
      if chain != NULL {
        WaitingChained(reps, h, c.target);
        Enchain(chain, n, us);
        head := chain;
      }
      reps := reps[n := Rep(KindOf(c), SelOf(c), NULL)] + [EMPTY_REP];
      FlatNode(old(reps), h, c, reps);
    }

    /** b or t. */
    method ReadJump(c: Cmd) returns (err: Option<Error>)
      requires Valid() && c.Jump? && c.target != Some([])
      modifies this
      ensures err == ReadError(old(h), c)
      ensures err.None? ==> Valid() && h == old(h) + [c]
    {
      err := None;
      if c.target.None? {
        bareChain := Wait(c, bareChain);
        UsersSnoc(h, c, None);
        TableKept(labels, h, c);
      } else {
        var name := c.target.value;
        if |name| >= 8 {
          return Some(LabelTooLong);
        }
        var l := Search(name);
        LabAfterJump(h, c);
        if l == NULL {
          UnnamedUnused(h, name);
          if |labels| + 2 >= LABSIZE {
            return Some(TooManyLabels);
          }
          var head := Wait(c, NULL);
          labels := labels + [Lab(name, head, NULL)];
        } else if labels[l].address != NULL {
          Linked(c, labels[l].address);
        } else {
          NamedIsUsed(h, name);
          var head := Wait(c, labels[l].chain);
        }
        TableUpdated(old(labels), h, c, name, l, labels);
        BareKept(h, c);
      }
      OpenBlocksSnoc(h, c);
      h := h + [c];
    }

    /** A branch to a label already seen: link it at once. */
    method Linked(c: Cmd, address: int)
      requires Valid() && c.Jump? && c.target.Some? && address == LabelNode(h, c.target.value) != NULL
      modifies this`reps
      ensures IsFlat(reps, h + [c])
    {
      LinkNew(h, c);
      reps := reps[|reps| - 1 := Rep(KindOf(c), SelOf(c), address)] + [EMPTY_REP];
      FlatNode(old(reps), h, c, reps);
    }

    /** One command. */
    method Read(c: Cmd) returns (err: Option<Error>)
      requires Valid() && (c.Jump? ==> c.target != Some([])) && (c.Begin? ==> |cmpend| < DEPTH)
      modifies this
      ensures err == ReadError(old(h), c)
      ensures err.None? ==> Valid() && h == old(h) + [c]
    {
      match c
      case End(_) => err := ReadEnd(c);
      case Label(_, _) => err := ReadLabel(c);
      case Jump(_, _, _) => err := ReadJump(c);
      case _ =>
        ReadPlain(c);
        err := None;
    }

    /** A whole script, or a further piece of one: the commands are read in order up to the first error. */
    method Compile(cmds: seq<Cmd>) returns (err: Option<Error>)
      requires Valid() && Readable(h, cmds)
      modifies this
      ensures err == FirstError(old(h), cmds)
      ensures err.None? ==> Valid() && h == old(h) + cmds
    {
      var i := 0;
      err := None;
      assert cmds[0..] == cmds && h + cmds[i..] == h + cmds;
      while i < |cmds|
        invariant 0 <= i <= |cmds| && Valid() && h + cmds[i..] == old(h) + cmds && err.None?
        invariant FirstError(old(h), cmds) == FirstError(h, cmds[i..])
        invariant Readable(h, cmds[i..])
      {
        ghost var rest := cmds[i..];
        assert rest[0] == cmds[i] && rest[1..] == cmds[i + 1..];
        OpenBlocksSnoc(h, cmds[i]);
        err := Read(cmds[i]);
        if err.Some? {
          return;
        }
        assert h + cmds[i + 1..] == old(h) + cmds by { ConsRest(old(h) + cmds, h, cmds, i); }
        i := i + 1;
      }
      assert cmds[i..] == [];
    }

    /** May the script be run? All blocks closed, all labels defined, no branch waiting. */
    method CheckFinalized() returns (ok: bool)
      requires Valid()
      ensures ok <==> OpenBlocks(h) == [] && LabelsDefined(h)
    {
      if |cmpend| > 0 {
        return false;
      }
      var l := 0;
      while l < |labels|
        invariant 0 <= l <= |labels|
        invariant forall k :: 0 <= k < l ==> LabelNode(h, Names(h)[k]) != NULL
      {
        if labels[l].address == NULL || labels[l].chain != NULL {
          assert labels[l] == LabOf(h, Names(h)[l]);
          assert Names(h)[l] in Names(h);
          return false;
        }
        assert labels[l] == LabOf(h, Names(h)[l]);
        l := l + 1;
      }
      ok := true;
    }
  }
}
