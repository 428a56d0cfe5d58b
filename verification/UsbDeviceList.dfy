/** The list of USB devices: a doubly linked list that is brought up to date with what a scan has found. */
module UsbDeviceList {

  type Name = string

  class Dev {
    const filename: Name
    var next: Dev?
    var prev: Dev?

    constructor (filename: Name)
      ensures this.filename == filename && next == prev == null
    {
      this.filename, next, prev := filename, null, null;
    }
  }

  function NextIn(s: seq<Dev>, i: nat): Dev? {
    if i + 1 < |s| then s[i + 1] else null
  }

  function PrevIn(s: seq<Dev>, i: nat): Dev? {
    if 0 < i <= |s| then s[i - 1] else null
  }

  function First(s: seq<Dev>): Dev? {
    if s == [] then null else s[0]
  }

  predicate Distinct(s: seq<Dev>) {
    forall i, j :: 0 <= i < j < |s| ==> s[i] != s[j]
  }

  /** The devices s, linked both ways. */
  ghost predicate Linked(s: seq<Dev>)
    reads s
  {
    Distinct(s) && forall i :: 0 <= i < |s| ==> s[i].next == NextIn(s, i) && s[i].prev == PrevIn(s, i)
  }

  /** usb_add_device: at the beginning of the list. */
  method AddDevice(list: Dev?, dev: Dev, ghost s: seq<Dev>) returns (list2: Dev?)
    requires Linked(s) && list == First(s) && dev !in s
    modifies dev, s
    ensures Linked([dev] + s) && list2 == dev
  {
    if list != null {
      dev.next := list;
      list.prev := dev;
    } else {
      dev.next := null;
    }
    dev.prev := null;
    list2 := dev;
  }

  ghost function Without(s: seq<Dev>, k: nat): seq<Dev>
    requires k < |s|
  {
    s[..k] + s[k + 1..]
  }

  /** Element i is linked as if element k were not there. */
  ghost predicate Bypassed(s: seq<Dev>, k: nat, i: nat)
    requires i < |s|
    reads s[i]
  {
    && s[i].next == NextIn(s, if i + 1 == k then k else i)
    && s[i].prev == PrevIn(s, if i == k + 1 then k else i)
  }

  lemma BypassedIsLinked(s: seq<Dev>, k: nat)
    requires k < |s| && Distinct(s) && forall i :: 0 <= i < |s| && i != k ==> Bypassed(s, k, i)
    ensures Linked(Without(s, k))
  {
    var t := Without(s, k);
    forall j | 0 <= j < |t| ensures t[j].next == NextIn(t, j) && t[j].prev == PrevIn(t, j) {
      assert Bypassed(s, k, if j < k then j else j + 1);
    }
  }

  /** The element before dev, if any, is linked to the one behind it. */
  method BypassForward(dev: Dev, ghost s: seq<Dev>, ghost k: nat)
    requires Linked(s) && k < |s| && s[k] == dev
    modifies s
    ensures forall i :: 0 <= i < |s| ==> s[i].prev == old(s[i].prev)
    ensures forall i :: 0 <= i < |s| ==> s[i].next == if i + 1 == k then NextIn(s, k) else old(s[i].next)
  {
    if dev.prev != null {
      dev.prev.next := dev.next;
    }
  }

  method BypassBack(dev: Dev, ghost s: seq<Dev>, ghost k: nat)
    requires Distinct(s) && k < |s| && s[k] == dev && dev.next == NextIn(s, k) && dev.prev == PrevIn(s, k)
    modifies s
    ensures forall i :: 0 <= i < |s| ==> s[i].next == old(s[i].next)
    ensures forall i :: 0 <= i < |s| ==> s[i].prev == if i == k + 1 then PrevIn(s, k) else old(s[i].prev)
  {
    if dev.next != null {
      dev.next.prev := dev.prev;
    }
  }

  /** usb_remove_device. */
  method RemoveDevice(list: Dev?, dev: Dev, ghost s: seq<Dev>, ghost k: nat) returns (list2: Dev?)
    requires Linked(s) && list == First(s) && k < |s| && s[k] == dev
    modifies s
    ensures Linked(Without(s, k)) && list2 == First(Without(s, k)) && dev.next == dev.prev == null
  {
    list2 := list;
    if dev.prev == null {
      list2 := dev.next;
    }
    BypassForward(dev, s, k);
    BypassBack(dev, s, k);
    dev.prev, dev.next := null, null;
    forall i | 0 <= i < |s| && i != k ensures Bypassed(s, k, i) {
      assert s[i] != dev;
    }
    BypassedIsLinked(s, k);
  }

  // ---------------------------------------------------------------- which devices are listed

  function NamesOf(s: seq<Dev>): set<Name> {
    set i | 0 <= i < |s| :: s[i].filename
  }

  predicate Within(a: seq<Dev>, b: seq<Dev>) {
    forall i :: 0 <= i < |a| ==> a[i] in b
  }

  predicate Apart(a: seq<Dev>, b: seq<Dev>) {
    forall i :: 0 <= i < |a| ==> a[i] !in b
  }

  predicate DistinctNames(s: seq<Dev>) {
    forall i, j :: 0 <= i < j < |s| ==> s[i].filename != s[j].filename
  }

  /** Those devices whose name is, or is not, among names. */
  function Keep(s: seq<Dev>, names: set<Name>, among: bool): (r: seq<Dev>) {
    if s == [] then []
    else
      var r := Keep(s[..|s| - 1], names, among);
      if (s[|s| - 1].filename in names) == among then r + [s[|s| - 1]] else r
  }

  lemma {:induction false} KeepMembers(s: seq<Dev>, names: set<Name>, among: bool)
    ensures Within(Keep(s, names, among), s)
    ensures forall i :: 0 <= i < |Keep(s, names, among)| ==> (Keep(s, names, among)[i].filename in names) == among
    ensures forall i :: 0 <= i < |s| && (s[i].filename in names) == among ==> s[i] in Keep(s, names, among)
  {
    if s != [] {
      KeepMembers(s[..|s| - 1], names, among);
      assert s == s[..|s| - 1] + [s[|s| - 1]];
    }
  }

  lemma {:induction false} KeepDistinctNames(s: seq<Dev>, names: set<Name>, among: bool)
    requires DistinctNames(s)
    ensures DistinctNames(Keep(s, names, among))
  {
    if s != [] {
      var init, last := s[..|s| - 1], s[|s| - 1];
      var r := Keep(init, names, among);
      KeepDistinctNames(init, names, among);
      KeepMembers(init, names, among);
      forall i | 0 <= i < |r| ensures r[i].filename != last.filename {
        assert r[i] in init;
        var j :| 0 <= j < |init| && init[j] == r[i];
      }
    }
  }

  lemma {:induction false} KeepAll(s: seq<Dev>)
    ensures Keep(s, {}, false) == s
  {
    if s != [] {
      KeepAll(s[..|s| - 1]);
    }
  }

  lemma {:induction false} KeepTwice(s: seq<Dev>, a: set<Name>, b: set<Name>)
    ensures Keep(Keep(s, a, false), b, false) == Keep(s, a + b, false)
  {
    if s != [] {
      var init, last := s[..|s| - 1], s[|s| - 1];
      KeepTwice(init, a, b);
      var k := Keep(init, a, false);
      assert (k + [last])[..|k + [last]| - 1] == k;
    }
  }

  /** Taking out the one device of that name. */
  lemma {:induction false} KeepWithout(s: seq<Dev>, k: nat)
    requires k < |s| && DistinctNames(s)
    ensures Keep(s, {s[k].filename}, false) == Without(s, k)
    decreases |s|
  {
    var init, last := s[..|s| - 1], s[|s| - 1];
    if k < |s| - 1 {
      KeepWithout(init, k);
      assert Without(s, k) == Without(init, k) + [last];
    } else {
      KeepNoneSuch(init, last.filename);
      assert Without(s, k) == init;
    }
  }

  lemma {:induction false} KeepNoneSuch(s: seq<Dev>, name: Name)
    requires name !in NamesOf(s)
    ensures Keep(s, {name}, false) == s
  {
    if s != [] {
      var init, last := s[..|s| - 1], s[|s| - 1];
      assert NamesOf(s) == NamesOf(init) + {last.filename};
      KeepNoneSuch(init, name);
      assert s == init + [last];
    }
  }

  lemma KeepNext(s: seq<Dev>, i: nat, names: set<Name>)
    requires i < |s|
    ensures var k := Keep(s[..i], names, true);
      Keep(s[..i + 1], names, true) == if s[i].filename in names then k + [s[i]] else k
    ensures NamesOf(s[..i + 1]) == NamesOf(s[..i]) + {s[i].filename}
  {
    assert s[..i + 1][..i] == s[..i];
    assert s[..i + 1] == s[..i] + [s[i]];
  }

  /** a, reversed, before b. */
  function RevOnto(a: seq<Dev>, b: seq<Dev>): seq<Dev>
    decreases |a|
  {
    if a == [] then b else RevOnto(a[1..], [a[0]] + b)
  }

  lemma {:induction false} RevOntoMembers(a: seq<Dev>, b: seq<Dev>)
    ensures Within(a, RevOnto(a, b)) && Within(b, RevOnto(a, b)) && Within(RevOnto(a, b), a + b)
    decreases |a|
  {
    if a != [] {
      var b2 := [a[0]] + b;
      RevOntoMembers(a[1..], b2);
      assert a == [a[0]] + a[1..] && b2[0] == a[0];
      assert forall i :: 0 <= i < |b| ==> b2[i + 1] == b[i];
    }
  }

  lemma {:induction false} RevOntoDistinctNames(a: seq<Dev>, b: seq<Dev>)
    requires DistinctNames(a) && DistinctNames(b) && NamesOf(a) !! NamesOf(b)
    ensures DistinctNames(RevOnto(a, b))
    decreases |a|
  {
    if a != [] {
      var rest, b2 := a[1..], [a[0]] + b;
      NamesConcat([a[0]], b);
      NamesConcat([a[0]], rest);
      assert a == [a[0]] + rest && NamesOf([a[0]]) == {a[0].filename};
      RevOntoDistinctNames(rest, b2);
    }
  }

  lemma {:induction false} NamesCounted(s: seq<Dev>)
    requires DistinctNames(s)
    ensures |NamesOf(s)| == |s|
  {
    if s != [] {
      var init, last := s[..|s| - 1], s[|s| - 1];
      NamesCounted(init);
      assert s == init + [last];
      assert NamesOf(s) == NamesOf(init) + {last.filename};
    }
  }

  /** The list brought up to date: the new ones, then those of the old list that are still there. */
  function Updated(old1: seq<Dev>, scan: seq<Dev>): seq<Dev> {
    RevOnto(Keep(scan, NamesOf(old1), false), Keep(old1, NamesOf(scan), true))
  }

  lemma NamesConcat(a: seq<Dev>, b: seq<Dev>)
    ensures NamesOf(a + b) == NamesOf(a) + NamesOf(b)
  {
    var c := a + b;
    forall i | 0 <= i < |a| ensures a[i].filename in NamesOf(c) {
      assert c[i] == a[i];
    }
    forall i | 0 <= i < |b| ensures b[i].filename in NamesOf(c) {
      assert c[|a| + i] == b[i];
    }
  }

  lemma KeptNames(s: seq<Dev>, names: set<Name>, among: bool)
    ensures NamesOf(Keep(s, names, among)) == if among then NamesOf(s) * names else NamesOf(s) - names
  {
    var r := Keep(s, names, among);
    KeepMembers(s, names, among);
    forall i | 0 <= i < |r| ensures r[i].filename in NamesOf(s) && (r[i].filename in names) == among {
      assert r[i] in s;
    }
    forall i | 0 <= i < |s| && (s[i].filename in names) == among ensures s[i].filename in NamesOf(r) {
      assert s[i] in r;
    }
  }

  lemma NamesWithin(a: seq<Dev>, b: seq<Dev>)
    requires Within(a, b)
    ensures NamesOf(a) <= NamesOf(b)
  {
    forall i | 0 <= i < |a| ensures a[i].filename in NamesOf(b) {
      assert a[i] in b;
    }
  }

  lemma RevOntoNames(a: seq<Dev>, b: seq<Dev>)
    ensures NamesOf(RevOnto(a, b)) == NamesOf(a) + NamesOf(b)
  {
    RevOntoMembers(a, b);
    NamesWithin(a, RevOnto(a, b));
    NamesWithin(b, RevOnto(a, b));
    NamesWithin(RevOnto(a, b), a + b);
    NamesConcat(a, b);
  }

  /** An old device is among the updated ones exactly if the scan has its name, and a device of the updated
      list with an old name is an old one. */
  lemma UpdatedKeeps(old1: seq<Dev>, scan: seq<Dev>)
    requires DistinctNames(old1)
    ensures forall i :: 0 <= i < |old1| && old1[i].filename in NamesOf(scan) ==> old1[i] in Updated(old1, scan)
    ensures forall i :: 0 <= i < |Updated(old1, scan)| && Updated(old1, scan)[i].filename in NamesOf(old1) ==>
      Updated(old1, scan)[i] in old1
    ensures forall i :: 0 <= i < |Updated(old1, scan)| ==>
      Updated(old1, scan)[i] in old1 || Updated(old1, scan)[i] in scan
  {
    var added, kept, u := Keep(scan, NamesOf(old1), false), Keep(old1, NamesOf(scan), true), Updated(old1, scan);
    KeepMembers(scan, NamesOf(old1), false);
    KeepMembers(old1, NamesOf(scan), true);
    RevOntoMembers(added, kept);
    forall i | 0 <= i < |old1| && old1[i].filename in NamesOf(scan) ensures old1[i] in u {
      assert old1[i] in kept;
    }
    forall i | 0 <= i < |u| && u[i].filename in NamesOf(old1) ensures u[i] in old1 {
      assert u[i] in added + kept;
    }
  }

  /** The list brought up to date has what the scan found, under different names. */
  lemma UpdatedIsScan(old1: seq<Dev>, scan: seq<Dev>)
    requires DistinctNames(old1) && DistinctNames(scan)
    ensures NamesOf(Updated(old1, scan)) == NamesOf(scan) && DistinctNames(Updated(old1, scan))
    ensures |Keep(scan, NamesOf(old1), false)| == |NamesOf(scan) - NamesOf(old1)|
  {
    var added, kept := Keep(scan, NamesOf(old1), false), Keep(old1, NamesOf(scan), true);
    KeepDistinctNames(scan, NamesOf(old1), false);
    KeepDistinctNames(old1, NamesOf(scan), true);
    KeptNames(scan, NamesOf(old1), false);
    KeptNames(old1, NamesOf(scan), true);
    RevOntoNames(added, kept);
    RevOntoDistinctNames(added, kept);
    NamesCounted(added);
  }

  /** The list in mid-run: what is kept of the first i devices, device i and those behind it. */
  lemma CurNext(kept: seq<Dev>, s: seq<Dev>, i: nat)
    requires i < |s|
    ensures var cur := kept + s[i..];
      && cur[|kept|] == s[i] && NextIn(cur, |kept|) == NextIn(s, i)
      && Without(cur, |kept|) == kept + s[i + 1..] && (kept + [s[i]]) + s[i + 1..] == cur
  {
  }

  /** Whether the scan has a device is not changed by those that have been taken out for others. */
  lemma StillFound(old1: seq<Dev>, i: nat, scan: seq<Dev>)
    requires i < |old1| && DistinctNames(old1) && DistinctNames(scan)
    ensures var rest, name := Keep(scan, NamesOf(old1[..i]), false), old1[i].filename;
      && DistinctNames(rest) && (name in NamesOf(rest) <==> name in NamesOf(scan))
      && Keep(rest, {name}, false) == Keep(scan, NamesOf(old1[..i + 1]), false)
      && Within(rest, scan)
  {
    var names := NamesOf(old1[..i]);
    KeepMembers(scan, names, false);
    KeepDistinctNames(scan, names, false);
    KeptNames(scan, names, false);
    KeepTwice(scan, names, {old1[i].filename});
    KeepNext(old1, i, {});
    assert old1[i].filename !in names;
  }

  // ---------------------------------------------------------------- bringing the list up to date

  /** Is there a device of that name in the scan? If so it is taken out. */
  method TakeMatch(list: Dev?, name: Name, ghost s: seq<Dev>) returns (list2: Dev?, found: bool)
    requires Linked(s) && list == First(s) && DistinctNames(s)
    modifies s
    ensures Linked(Keep(s, {name}, false)) && list2 == First(Keep(s, {name}, false))
    ensures found <==> name in NamesOf(s)
  {
    list2, found := list, false;
    var new1 := list;
    ghost var k := 0;
    while new1 != null
      invariant 0 <= k <= |s| && new1 == (if k < |s| then s[k] else null)
      invariant Linked(s) && forall i :: 0 <= i < k ==> s[i].filename != name
      decreases |s| - k
    {
      if new1.filename == name {
        assert new1 in s;
        KeepWithout(s, k);
        list2 := RemoveDevice(list, new1, s, k);
        found := true;
        return;
      }
      new1, k := new1.next, k + 1;
    }
    assert name !in NamesOf(s);
    KeepNoneSuch(s, name);
  }

  /** The two lists when the first i devices have been looked at. */
  function Cur(old1: seq<Dev>, scan: seq<Dev>, i: nat): seq<Dev>
    requires i <= |old1|
  {
    Keep(old1[..i], NamesOf(scan), true) + old1[i..]
  }

  function Rest(old1: seq<Dev>, scan: seq<Dev>, i: nat): seq<Dev>
    requires i <= |old1|
  {
    Keep(scan, NamesOf(old1[..i]), false)
  }

  ghost predicate Midway(list: Dev?, scanned: Dev?, old1: seq<Dev>, scan: seq<Dev>, i: nat)
    reads old1, scan, Cur(old1, scan, i), Rest(old1, scan, i)
    requires i <= |old1|
  {
    && Linked(Cur(old1, scan, i)) && list == First(Cur(old1, scan, i))
    && Linked(Rest(old1, scan, i)) && scanned == First(Rest(old1, scan, i))
  }

  lemma CurMembers(old1: seq<Dev>, scan: seq<Dev>, i: nat)
    requires i <= |old1|
    ensures Within(Cur(old1, scan, i), old1) && Within(Rest(old1, scan, i), scan)
  {
    KeepMembers(old1[..i], NamesOf(scan), true);
    KeepMembers(scan, NamesOf(old1[..i]), false);
  }

  /** The next device of the old list: it stays if the scan has it, and otherwise is removed. */
  method Look(list: Dev?, scanned: Dev?, dev: Dev, ghost old1: seq<Dev>, ghost scan: seq<Dev>, ghost i: nat)
    returns (list2: Dev?, scanned2: Dev?, next: Dev?)
    requires i < |old1| && dev == old1[i] && DistinctNames(old1) && DistinctNames(scan)
    requires Midway(list, scanned, old1, scan, i) && Apart(old1, scan)
    modifies old1, scan
    ensures Midway(list2, scanned2, old1, scan, i + 1) && next == NextIn(old1, i)
  {
    ghost var kept, cur, rest := Keep(old1[..i], NamesOf(scan), true), Cur(old1, scan, i), Rest(old1, scan, i);
    CurMembers(old1, scan, i);
    KeepNext(old1, i, NamesOf(scan));
    StillFound(old1, i, scan);
    CurNext(kept, old1, i);
    CurMembers(old1, scan, i + 1);
    ApartWithin(old1, scan, cur, rest);
    ApartWithin(old1, scan, cur, Rest(old1, scan, i + 1));
    list2, next := list, dev.next;
    var found;
    scanned2, found := TakeMatch(scanned, dev.filename, rest);
    assert Linked(cur);
    if !found {
      list2 := RemoveDevice(list2, dev, cur, |kept|);
      assert Linked(Rest(old1, scan, i + 1));
    }
  }

  lemma ApartWithin(a: seq<Dev>, b: seq<Dev>, c: seq<Dev>, d: seq<Dev>)
    requires Apart(a, b) && Within(c, a) && Within(d, b)
    ensures Apart(c, d) && Apart(d, c)
  {
    forall i | 0 <= i < |d| ensures d[i] !in c {
      assert d[i] in b;
    }
  }

  lemma MidwayStart(list: Dev?, scanned: Dev?, old1: seq<Dev>, scan: seq<Dev>)
    requires Linked(old1) && list == First(old1) && Linked(scan) && scanned == First(scan)
    ensures Midway(list, scanned, old1, scan, 0)
  {
    KeepAll(scan);
    assert NamesOf(old1[..0]) == {} && Cur(old1, scan, 0) == old1;
  }

  /** Devices that the scan has not found are removed; those it has found are taken out of the scan. */
  method Reconcile(list: Dev?, scanned: Dev?, ghost old1: seq<Dev>, ghost scan: seq<Dev>)
    returns (list2: Dev?, scanned2: Dev?)
    requires Linked(old1) && list == First(old1) && DistinctNames(old1)
    requires Linked(scan) && scanned == First(scan) && DistinctNames(scan)
    requires Apart(old1, scan)
    modifies old1, scan
    ensures Midway(list2, scanned2, old1, scan, |old1|)
  {
    list2, scanned2 := list, scanned;
    var dev := list;
    ghost var i := 0;
    MidwayStart(list, scanned, old1, scan);
    while dev != null
      invariant 0 <= i <= |old1| && dev == (if i < |old1| then old1[i] else null)
      invariant Midway(list2, scanned2, old1, scan, i)
      decreases |old1| - i
    {
      list2, scanned2, dev := Look(list2, scanned2, dev, old1, scan, i);
      i := i + 1;
    }
  }

  /** The devices left in the scan are new: they are moved to the front of the list, one by one. */
  method MoveNew(list: Dev?, scanned: Dev?, ghost s: seq<Dev>, ghost added: seq<Dev>)
    returns (list2: Dev?, changes: nat)
    requires Linked(s) && list == First(s) && Linked(added) && scanned == First(added) && Apart(added, s)
    modifies s, added
    ensures Linked(RevOnto(added, s)) && list2 == First(RevOnto(added, s)) && changes == |added|
  {
    list2, changes := list, 0;
    var new1 := scanned;
    ghost var cur: seq<Dev>, rest: seq<Dev> := s, added;
    while new1 != null
      invariant Linked(cur) && list2 == First(cur) && Linked(rest) && new1 == First(rest)
      invariant Within(cur, s + added) && Within(rest, added) && Apart(rest, cur)
      invariant RevOnto(rest, cur) == RevOnto(added, s) && changes + |rest| == |added|
      decreases |rest|
    {
      assert Without(rest, 0) == rest[1..] && rest[0] == new1 && rest[0] !in rest[1..];
      var next := RemoveDevice(new1, new1, rest, 0);
      list2 := AddDevice(list2, new1, cur);
      cur, rest := [new1] + cur, rest[1..];
      new1, changes := next, changes + 1;
    }
  }

  /** usb_find_devices, when the scan has been made: the list then has exactly the devices found, those that
      were there before are the same objects, and the result is the number of new ones. */
  method FindDevices(list: Dev?, scanned: Dev?, ghost old1: seq<Dev>, ghost scan: seq<Dev>)
    returns (list2: Dev?, changes: nat, ghost now: seq<Dev>)
    requires Linked(old1) && list == First(old1) && DistinctNames(old1)
    requires Linked(scan) && scanned == First(scan) && DistinctNames(scan)
    requires Apart(old1, scan)
    modifies old1, scan
    ensures Linked(now) && list2 == First(now) && NamesOf(now) == NamesOf(scan) && DistinctNames(now)
    ensures forall i :: 0 <= i < |old1| && old1[i].filename in NamesOf(scan) ==> old1[i] in now
    ensures forall i :: 0 <= i < |now| && now[i].filename in NamesOf(old1) ==> now[i] in old1
    ensures forall i :: 0 <= i < |now| ==> now[i] in old1 || now[i] in scan
    ensures changes == |NamesOf(scan) - NamesOf(old1)|
  {
    var l, n := Reconcile(list, scanned, old1, scan);
    ghost var kept, added := Keep(old1, NamesOf(scan), true), Keep(scan, NamesOf(old1), false);
    assert old1[..|old1|] == old1 && Cur(old1, scan, |old1|) == kept;
    CurMembers(old1, scan, |old1|);
    list2, changes := MoveNew(l, n, kept, added);
    now := Updated(old1, scan);
    UpdatedIsScan(old1, scan);
    UpdatedKeeps(old1, scan);
  }
}
