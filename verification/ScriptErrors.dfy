/** Which scripts the compiler refuses, said of the commands of the script alone. */
module ScriptErrors {
  import opened Bytes
  import opened Script

  /** The name that a command mentions. */
  function Mention(c: Cmd): Option<Name> {
    if c.Label? then Some(c.name) else if c.Jump? then c.target else None
  }

  function Mentioned(cmds: seq<Cmd>, n: nat): set<Name>
    requires n <= |cmds|
  {
    set i | 0 <= i < n && Mention(cmds[i]).Some? :: Mention(cmds[i]).value
  }

  /** How many blocks are open behind the first n commands. */
  function Depth(cmds: seq<Cmd>, n: nat): int
    requires n <= |cmds|
  {
    if n == 0 then 0
    else Depth(cmds, n - 1) + if cmds[n - 1].Begin? then 1 else if cmds[n - 1].End? then -1 else 0
  }

  /** The label table has room for the name: entry 0 is not used, and the last one never filled. */
  predicate HasRoom(cmds: seq<Cmd>, i: nat, name: Name)
    requires i <= |cmds|
  {
    name in Mentioned(cmds, i) || |Mentioned(cmds, i)| <= 47
  }

  /** Command i is read without error: no address before "}" or ":", no "}" too many, names of at most seven
      characters, and no label twice. */
  predicate Fine(cmds: seq<Cmd>, i: nat)
    requires i < |cmds|
  {
    match cmds[i]
    case End(addressed) => !addressed && Depth(cmds, i) > 0
    case Label(name, addressed) =>
      && !addressed && 0 < |name| <= 7 && HasRoom(cmds, i, name)
      && forall j :: 0 <= j < i ==> !IsLabel(cmds[j], name)
    case Jump(_, _, Some(name)) => |name| <= 7 && HasRoom(cmds, i, name)
    case _ => true
  }

  lemma {:induction false} LabelRead(cmds: seq<Cmd>, n: nat, name: Name)
    requires n <= |cmds|
    ensures LabelNode(cmds[..n], name) != NULL <==> exists j :: 0 <= j < n && IsLabel(cmds[j], name)
    decreases n
  {
    if n > 0 {
      assert cmds[..n] == cmds[..n - 1] + [cmds[n - 1]];
      LabelNodeSnoc(cmds[..n - 1], cmds[n - 1], name);
      LabelRead(cmds, n - 1, name);
      if cmds[n - 1].Label? && cmds[n - 1].name == name {
        assert n - 1 < n;
      }
    }
  }

  lemma {:induction false} NamesAre(cmds: seq<Cmd>, n: nat)
    requires n <= |cmds|
    ensures |Names(cmds[..n])| == |Mentioned(cmds, n)|
    ensures forall name :: name in Names(cmds[..n]) <==> name in Mentioned(cmds, n)
    decreases n
  {
    if n == 0 {
      assert Mentioned(cmds, 0) == {};
    } else {
      var c := cmds[n - 1];
      assert cmds[..n] == cmds[..n - 1] + [c];
      NamesSnoc(cmds[..n - 1], c);
      NamesAre(cmds, n - 1);
      MentionedMore(cmds, n - 1);
    }
  }

  lemma MentionedMore(cmds: seq<Cmd>, n: nat)
    requires n < |cmds|
    ensures Mentioned(cmds, n + 1) == Mentioned(cmds, n) + match Mention(cmds[n]) case Some(x) => {x} case None => {}
  {
    var one := match Mention(cmds[n]) case Some(x) => {x} case None => {};
    forall x | x in Mentioned(cmds, n + 1) ensures x in Mentioned(cmds, n) + one {
      var i :| 0 <= i < n + 1 && Mention(cmds[i]).Some? && Mention(cmds[i]).value == x;
      assert i == n || x in Mentioned(cmds, n);
    }
  }

  /** While no block is closed too often, the open blocks are as many as the depth says. */
  lemma {:induction false} DepthIs(cmds: seq<Cmd>, n: nat)
    requires n <= |cmds| && forall i :: 0 <= i < n && cmds[i].End? ==> Depth(cmds, i) > 0
    ensures |OpenBlocks(cmds[..n])| == Depth(cmds, n)
    decreases n
  {
    if n > 0 {
      assert cmds[..n] == cmds[..n - 1] + [cmds[n - 1]];
      OpenBlocksSnoc(cmds[..n - 1], cmds[n - 1]);
      DepthIs(cmds, n - 1);
    }
  }

  lemma FineIsRead(cmds: seq<Cmd>, i: nat)
    requires i < |cmds| && forall j :: 0 <= j < i ==> Fine(cmds, j)
    ensures ReadError(cmds[..i], cmds[i]).None? <==> Fine(cmds, i)
  {
    forall j | 0 <= j < i && cmds[j].End? ensures Depth(cmds, j) > 0 {
      assert Fine(cmds, j);
    }
    DepthIs(cmds, i);
    NamesAre(cmds, i);
    if cmds[i].Label? {
      LabelRead(cmds, i, cmds[i].name);
    }
  }

  lemma {:induction false} FineFrom(cmds: seq<Cmd>, n: nat)
    requires n <= |cmds| && forall j :: 0 <= j < n ==> Fine(cmds, j)
    ensures FirstError(cmds[..n], cmds[n..]).None? <==> forall i :: n <= i < |cmds| ==> Fine(cmds, i)
    ensures forall i :: n <= i < |cmds| && !Fine(cmds, i) && (forall j :: n <= j < i ==> Fine(cmds, j)) ==>
      FirstError(cmds[..n], cmds[n..]) == ReadError(cmds[..i], cmds[i])
    decreases |cmds| - n
  {
    if n < |cmds| {
      assert cmds[n..][0] == cmds[n] && cmds[n..][1..] == cmds[n + 1..] && cmds[..n] + [cmds[n]] == cmds[..n + 1];
      FineIsRead(cmds, n);
      if Fine(cmds, n) {
        FineFrom(cmds, n + 1);
      }
    }
  }

  /** A script is read without error exactly if each of its commands is fine. */
  lemma ErrorFree(cmds: seq<Cmd>)
    ensures FirstError([], cmds).None? <==> forall i :: 0 <= i < |cmds| ==> Fine(cmds, i)
  {
    assert cmds[..0] == [] && cmds[0..] == cmds;
    FineFrom(cmds, 0);
  }

  /** A script has no block left open and no label missing exactly if its blocks balance and each name mentioned
      is some label's. */
  lemma FinishedIs(cmds: seq<Cmd>)
    requires FirstError([], cmds).None?
    ensures OpenBlocks(cmds) == [] <==> Depth(cmds, |cmds|) == 0
    ensures LabelsDefined(cmds) <==>
      forall name :: name in Mentioned(cmds, |cmds|) ==> exists j :: 0 <= j < |cmds| && IsLabel(cmds[j], name)
  {
    ErrorFree(cmds);
    forall i | 0 <= i < |cmds| && cmds[i].End? ensures Depth(cmds, i) > 0 {
      assert Fine(cmds, i);
    }
    DepthIs(cmds, |cmds|);
    NamesAre(cmds, |cmds|);
    assert cmds[..|cmds|] == cmds;
    forall name ensures LabelNode(cmds, name) != NULL <==>
      exists j :: 0 <= j < |cmds| && IsLabel(cmds[j], name)
    {
      LabelRead(cmds, |cmds|, name);
    }
  }

  predicate IsLabel(c: Cmd, name: Name) {
    c.Label? && c.name == name
  }
}
