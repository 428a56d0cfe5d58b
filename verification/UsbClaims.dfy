/** Handles on a USB device: interface claims, and the control endpoint's descriptors that all handles share. */
module UsbClaims {
  import opened Bytes

  const MAX_INTERFACES := 256

  datatype Config = Config(value: int, interfaces: nat)

  datatype Code = Ok | Invalid | Busy

  /** With n handles, the pair (fd, stat) is open if n is not 0, and nothing else but what has leaked. */
  ghost predicate Accounts(n: nat, ref: int, fd: int, stat: int, fds: set<int>, leaked: set<int>) {
    && ref == n && (fd == 0 <==> n == 0)
    && (n > 0 ==> fd > 0 && stat >= 0 && fd != stat && fd !in leaked && stat !in leaked)
    && fds == (if n == 0 then leaked else leaked + {fd, stat})
  }

  /** Calls of the library. A handle is named by the number of the open that made it; one that failed, or
      has been closed, or never was, is a null handle. */
  datatype Op =
    | OpenDevice(listed: bool, configsOk: bool)
    | CloseHandle(k: nat)
    | ClaimInterface(k: nat, interface: int)
    | ReleaseInterface(k: nat, interface: int)
    | Configure(k: nat, value: int)

  /** What the system answers when the control endpoint and its status are opened: never a descriptor that
      is open, never two equal ones, and never 0 for the control endpoint. */
  ghost predicate Honest(system: (nat, set<int>) -> (int, int)) {
    forall n, open ::
      var (fd, stat) := system(n, open);
      fd !in open && stat !in open && (fd == stat ==> fd < 0) && fd != 0
  }

  // ---------------------------------------------------------------- what the calls do, without tables and counts

  /** A handle: its configuration and the interface that it claims, -1 for none. */
  datatype Slot = Slot(config: int, claim: int)

  /** For each open so far its handle or none, the descriptors that the handles share, and those that leaked. */
  datatype Plain = Plain(slots: seq<Option<Slot>>, fd: int, stat: int, leaked: set<int>)

  predicate InUse(p: Plain) {
    exists k :: 0 <= k < |p.slots| && p.slots[k].Some?
  }

  /** The descriptors that are open. */
  function OpenFds(p: Plain): set<int> {
    if InUse(p) then p.leaked + {p.fd, p.stat} else p.leaked
  }

  predicate Owned(p: Plain, interface: int) {
    exists k :: 0 <= k < |p.slots| && p.slots[k].Some? && p.slots[k].value.claim == interface
  }

  /** The number of interfaces in the first configuration with that value. */
  function Interfaces(configs: seq<Config>, value: int): nat {
    if configs == [] then 0
    else if configs[0].value == value then configs[0].interfaces
    else Interfaces(configs[1..], value)
  }

  /** usb_open, when the system answers fd and stat: the first handle opens the descriptors. */
  function StepOpen(p: Plain, listed: bool, configsOk: bool, fd: int, stat: int): (Plain, Code) {
    if !listed then (p.(slots := p.slots + [None]), Invalid)
    else if InUse(p) then
      if configsOk then (p.(slots := p.slots + [Some(Slot(-1, -1))]), Ok) else (p.(slots := p.slots + [None]), Invalid)
    else if fd < 0 then (p.(slots := p.slots + [None]), Invalid)
    else if stat < 0 then (p.(slots := p.slots + [None], leaked := p.leaked + {fd}), Invalid)
    else if !configsOk then (p.(slots := p.slots + [None]), Invalid)
    else (p.(slots := p.slots + [Some(Slot(-1, -1))], fd := fd, stat := stat), Ok)
  }

  /** usb_claim_interface: a handle without a configuration takes the first; an interface that no handle owns
      goes to a handle that owns none. */
  function StepClaim(configs: seq<Config>, p: Plain, k: nat, interface: int): (Plain, Code)
    requires configs != [] && k < |p.slots| && p.slots[k].Some?
  {
    var s := p.slots[k].value;
    var config := if s.config == -1 then configs[0].value else s.config;
    var p1 := p.(slots := p.slots[k := Some(Slot(config, s.claim))]);
    if !(0 <= interface < 256 && interface < Interfaces(configs, config)) then (p1, Invalid)
    else if s.claim == interface then (p1, Ok)
    else if s.claim != -1 || Owned(p, interface) then (p1, Busy)
    else (p.(slots := p.slots[k := Some(Slot(config, interface))]), Ok)
  }

  /** One call, when the system answers fd and stat. */
  function Step(configs: seq<Config>, p: Plain, op: Op, fd: int, stat: int): (Plain, Code)
    requires configs != []
  {
    if op.OpenDevice? then StepOpen(p, op.listed, op.configsOk, fd, stat)
    else if op.k >= |p.slots| || p.slots[op.k].None? then (p, Invalid)
    else
      var s := p.slots[op.k].value;
      match op
      case CloseHandle(k) => (p.(slots := p.slots[k := None]), Ok)
      case ClaimInterface(k, interface) => StepClaim(configs, p, k, interface)
      case ReleaseInterface(k, interface) =>
        if s.claim == interface != -1 then (p.(slots := p.slots[k := Some(Slot(s.config, -1))]), Ok) else (p, Invalid)
      case Configure(k, value) =>
        if exists j :: 0 <= j < |configs| && configs[j].value == value
        then (p.(slots := p.slots[k := Some(Slot(value, -1))]), Ok)
        else (p, Invalid)
  }

  /** The calls one after the other; the system is asked with the number of the call and what is open. */
  function Played(configs: seq<Config>, leaked: set<int>, ops: seq<Op>,
                  system: (nat, set<int>) -> (int, int)): (r: (Plain, seq<Code>))
    requires configs != []
  {
    if ops == [] then (Plain([], 0, 0, leaked), [])
    else
      var n := |ops| - 1;
      var (p, codes) := Played(configs, leaked, ops[..n], system);
      var (fd, stat) := system(n, OpenFds(p));
      var (p2, code) := Step(configs, p, ops[n], fd, stat);
      (p2, codes + [code])
  }

  class Handle {
    var configuration_value: int
    var claimed_interface: int
    var alternate: int
    var ep_fd: int
    var ep_status_fd: int

    constructor ()
      ensures configuration_value == claimed_interface == alternate == ep_fd == ep_status_fd == -1
    {
      configuration_value, claimed_interface, alternate, ep_fd, ep_status_fd := -1, -1, -1, -1, -1;
    }
  }

  ghost predicate Numbers(hs: seq<Handle?>, handles: set<Handle>) {
    && (forall k :: 0 <= k < |hs| && hs[k] != null ==> hs[k] in handles) && (forall h :: h in handles ==> h in hs)
    && (forall j, k :: 0 <= j < k < |hs| && hs[j] != null ==> hs[j] != hs[k])
  }

  lemma Renumbered(handles: set<Handle>, hs: seq<Handle?>, k: nat)
    requires Numbers(hs, handles) && k < |hs| && hs[k] != null
    ensures Numbers(hs[k := null], handles - {hs[k]})
  {
    var hs2 := hs[k := null];
    forall g | g in handles && g != hs[k] ensures g in hs2 {
      var j :| 0 <= j < |hs| && hs[j] == g;
      assert hs2[j] == g;
    }
  }

  lemma NumberedMore(handles: set<Handle>, hs: seq<Handle?>, h: Handle?)
    requires Numbers(hs, handles) && (h != null ==> h !in handles)
    ensures Numbers(hs + [h], if h == null then handles else handles + {h})
  {
    var hs2 := hs + [h];
    forall g | g in handles || (h != null && g == h) ensures g in hs2 {
      if g in handles {
        var j :| 0 <= j < |hs| && hs[j] == g;
        assert hs2[j] == g;
      } else {
        assert hs2[|hs|] == g;
      }
    }
    forall j, k | 0 <= j < k < |hs2| && hs2[j] != null ensures hs2[j] != hs2[k] {
      assert hs2[j] == hs[j] && hs[j] in handles;
    }
  }

  class Device {
    const configs: seq<Config>
    const claimed: array<Handle?>
    var ref_count: int
    var ep0_fd: int
    var ep0_fd_stat: int
    ghost var handles: set<Handle>   // the open ones
    var fds: set<int>                // descriptors of the control endpoint that are open in the system
    ghost var leaked: set<int>       // those that were opened for a handle that could not be made

    /** A handle's claim is in the table, and the table's claims are the handles'. */
    ghost predicate Claims()
      reads this`handles, claimed, handles
    {
      && claimed.Length == MAX_INTERFACES
      && (forall h :: h in handles ==>
            if h.claimed_interface == -1 then true
            else 0 <= h.claimed_interface < MAX_INTERFACES && claimed[h.claimed_interface] == h)
      && (forall i :: 0 <= i < MAX_INTERFACES && claimed[i] != null ==>
            claimed[i] in handles && claimed[i].claimed_interface == i)
    }

    /** A handle has no configuration yet, or one of the device's. */
    ghost predicate Configured()
      reads this`handles, handles
    {
      configs != [] && forall h :: h in handles ==> h.configuration_value == -1 || HasConfig(h.configuration_value)
    }

    ghost predicate HasConfig(value: int) {
      exists k :: 0 <= k < |configs| && configs[k].value == value
    }

    /** The handles share one pair of descriptors. */
    ghost predicate Shared()
      reads this`handles, this`ep0_fd, this`ep0_fd_stat, handles
    {
      forall h :: h in handles ==> h.ep_fd == ep0_fd && h.ep_status_fd == ep0_fd_stat
    }

    ghost predicate Counted()
      reads this`handles, this`ref_count, this`ep0_fd, this`ep0_fd_stat, this`fds, this`leaked
    {
      Accounts(|handles|, ref_count, ep0_fd, ep0_fd_stat, fds, leaked)
    }

    /** The same, with one handle more to come. */
    ghost predicate Opened()
      reads this`handles, this`ref_count, this`ep0_fd, this`ep0_fd_stat, this`fds, this`leaked
    {
      Accounts(|handles| + 1, ref_count, ep0_fd, ep0_fd_stat, fds, leaked)
    }

    ghost predicate Valid()
      reads this, claimed, handles
    {
      Claims() && Configured() && Shared() && Counted()
    }

    constructor (configs: seq<Config>)
      requires configs != []
      ensures Valid() && handles == {} && fds == {} && fresh(claimed) && this.configs == configs
    {
      this.configs := configs;
      claimed := new Handle?[MAX_INTERFACES](_ => null);
      ref_count, ep0_fd, ep0_fd_stat := 0, 0, 0;
      handles, fds, leaked := {}, {}, {};
    }

    /** No interface has two owners. */
    lemma OneOwner(a: Handle, b: Handle)
      requires Valid() && a in handles && b in handles && a.claimed_interface == b.claimed_interface != -1
      ensures a == b
    {
    }

    /** Open the control endpoint for a new handle, or share it. fd and stat are what the system answers. */
    method OpenEp0(h: Handle, fd: int, stat: int) returns (ok: bool)
      requires Counted() && h !in handles && fd !in fds && stat !in fds && (fd == stat ==> fd < 0)
      modifies this`ref_count, this`ep0_fd, this`ep0_fd_stat, this`fds, this`leaked, h`ep_fd, h`ep_status_fd
      ensures ok <==> old(ep0_fd) != 0 || (fd >= 0 && stat >= 0)
      ensures ok ==> h.ep_fd == ep0_fd && h.ep_status_fd == ep0_fd_stat && leaked == old(leaked)
      ensures old(ep0_fd) != 0 ==> ep0_fd == old(ep0_fd) && ep0_fd_stat == old(ep0_fd_stat) && fds == old(fds)
      ensures old(ep0_fd) != 0 ==> Opened()
      ensures ok && old(ep0_fd) == 0 ==> ep0_fd == fd && ep0_fd_stat == stat && fds == old(fds) + {fd, stat}
      ensures ok && old(ep0_fd) == 0 ==> ref_count == 1 && (Opened() <==> fd != 0)
      ensures !ok ==> Counted() && ep0_fd == old(ep0_fd) && ep0_fd_stat == old(ep0_fd_stat)
      ensures !ok ==> leaked == old(leaked) + if fd >= 0 then {fd} else {}
    {
      if ep0_fd != 0 {
        ref_count := ref_count + 1;
        h.ep_fd, h.ep_status_fd := ep0_fd, ep0_fd_stat;
        return true;
      }
      h.ep_fd := fd;
      if fd < 0 {
        return false;
      }
      fds := fds + {fd};
      h.ep_status_fd := stat;
      if stat < 0 {
        leaked := leaked + {fd};
        return false;
      }
      fds := fds + {stat};
      ep0_fd, ep0_fd_stat, ref_count := fd, stat, ref_count + 1;
      return true;
    }

    /** Give up the control endpoint: the last one to do so closes it. */
    method CloseEp0(h: Handle, ghost n: nat)
      requires h.ep_fd == ep0_fd && h.ep_status_fd == ep0_fd_stat
      requires (ep0_fd != 0 ==> Accounts(n + 1, ref_count, ep0_fd, ep0_fd_stat, fds, leaked))
      modifies this`ref_count, this`ep0_fd, this`ep0_fd_stat, this`fds, h`ep_fd, h`ep_status_fd
      ensures old(ep0_fd) != 0 ==> Accounts(n, ref_count, ep0_fd, ep0_fd_stat, fds, leaked)
      ensures n > 0 && old(ep0_fd) != 0 ==> ep0_fd == old(ep0_fd) && ep0_fd_stat == old(ep0_fd_stat) && fds == old(fds)
      ensures old(ep0_fd) == 0 ==> ref_count == old(ref_count)
    {
      if ep0_fd != 0 {
        ref_count := ref_count - 1;
        if ref_count > 0 {
          return;
        }
      }
      if h.ep_fd != -1 {
        fds := fds - {h.ep_fd};
        h.ep_fd := -1;
      }
      if h.ep_status_fd != -1 {
        fds := fds - {h.ep_status_fd};
        h.ep_status_fd := -1;
      }
      ep0_fd, ep0_fd_stat := 0, 0;
    }

    /** usb_open; listed tells whether the device is in the list. All is well unless the system opens the
        control endpoint with descriptor 0, which the library takes for no descriptor. */
    method Open(listed: bool, fd: int, stat: int, configsOk: bool) returns (h: Handle?)
      requires Valid() && fd !in fds && stat !in fds && (fd == stat ==> fd < 0)
      modifies this`ref_count, this`ep0_fd, this`ep0_fd_stat, this`fds, this`leaked, this`handles
      ensures Claims() && Configured() && Shared()
      ensures Counted() <==> !(listed && old(ep0_fd) == 0 && fd == 0 && stat >= 0)
      ensures h != null <==> listed && configsOk && (old(ep0_fd) != 0 || (fd >= 0 && stat >= 0))
      ensures h != null ==>
        fresh(h) && h.claimed_interface == h.configuration_value == -1 && handles == old(handles) + {h}
      ensures h == null ==> handles == old(handles)
      ensures h != null && old(ep0_fd) == 0 ==>
        ep0_fd == fd && ep0_fd_stat == stat && fds == old(fds) + {fd, stat}
      ensures old(ep0_fd) != 0 ==> ep0_fd == old(ep0_fd) && ep0_fd_stat == old(ep0_fd_stat) && fds == old(fds)
      ensures h == null && old(ep0_fd) == 0 && fd != 0 ==> ep0_fd == 0 && fds == leaked
      ensures leaked == old(leaked) + if listed && old(ep0_fd) == 0 && fd >= 0 && stat < 0 then {fd} else {}
    {
      if !listed {
        return null;
      }
      var ok;
      h, ok := NewHandle(fd, stat);
      if !ok {
        return null;
      }
      if !configsOk {
        CloseEp0(h, |handles|);
        return null;
      }
      Attach(h);
    }

    /** A handle with the control endpoint open for it. */
    method NewHandle(fd: int, stat: int) returns (h: Handle, ok: bool)
      requires Valid() && fd !in fds && stat !in fds && (fd == stat ==> fd < 0)
      modifies this`ref_count, this`ep0_fd, this`ep0_fd_stat, this`fds, this`leaked
      ensures fresh(h) && h.claimed_interface == h.configuration_value == -1 && (!ok ==> Counted())
      ensures Claims() && Configured() && Shared()
      ensures ok <==> old(ep0_fd) != 0 || (fd >= 0 && stat >= 0)
      ensures ok ==> h.ep_fd == ep0_fd && h.ep_status_fd == ep0_fd_stat && leaked == old(leaked)
      ensures ok ==> (Opened() <==> old(ep0_fd) != 0 || fd != 0)
      ensures ok && old(ep0_fd) == 0 ==> ep0_fd == fd && ref_count == 1 && handles == {}
      ensures ok && old(ep0_fd) == 0 ==> ep0_fd_stat == stat && fds == old(fds) + {fd, stat}
      ensures old(ep0_fd) != 0 ==> ep0_fd == old(ep0_fd) && ep0_fd_stat == old(ep0_fd_stat) && fds == old(fds)
      ensures !ok ==> ep0_fd == old(ep0_fd)
      ensures !ok ==> leaked == old(leaked) + if fd >= 0 then {fd} else {}
    {
      h := new Handle();
      ok := OpenEp0(h, fd, stat);
    }

    /** A new handle, with nothing claimed, is one of the open ones. */
    ghost method Attach(h: Handle)
      requires Claims() && Configured() && Shared() && h !in handles
      requires h.ep_fd == ep0_fd && h.ep_status_fd == ep0_fd_stat && h.claimed_interface == h.configuration_value == -1
      modifies this`handles
      ensures Claims() && Configured() && Shared() && handles == old(handles) + {h} && |handles| == |old(handles)| + 1
    {
      handles := handles + {h};
    }

    /** usb_release_interface. */
    method Release(h: Handle?, interface: int) returns (code: Code)
      requires Valid() && (h != null ==> h in handles)
      modifies claimed, h
      ensures Valid()
      ensures code == if h != null && old(h.claimed_interface) == interface != -1 then Ok else Invalid
      ensures h != null ==> h.claimed_interface == if code == Ok then -1 else old(h.claimed_interface)
      ensures forall i :: 0 <= i < MAX_INTERFACES ==>
        claimed[i] == if code == Ok && i == interface then null else old(claimed[i])
      ensures h != null ==> h.configuration_value == old(h.configuration_value) && h.alternate == old(h.alternate)
    {
      if h == null {
        return Invalid;
      }
      code := GiveUp(h, interface);
    }

    /** The same, for a handle. */
    method GiveUp(h: Handle, interface: int) returns (code: Code)
      requires Claims() && h in handles
      modifies claimed, h`claimed_interface
      ensures Claims()
      ensures code == if old(h.claimed_interface) == interface != -1 then Ok else Invalid
      ensures h.claimed_interface == if code == Ok then -1 else old(h.claimed_interface)
      ensures forall i :: 0 <= i < MAX_INTERFACES ==>
        claimed[i] == if code == Ok && i == interface then null else old(claimed[i])
    {
      if h.claimed_interface == -1 || h.claimed_interface != interface {
        return Invalid;
      }
      claimed[interface] := null;
      h.claimed_interface := -1;
      code := Ok;
    }

    /** usb_close: the claim is given up, and the last handle closes the shared descriptors. */
    method Close(h: Handle?) returns (code: Code)
      requires Valid() && (h != null ==> h in handles)
      modifies this`ref_count, this`ep0_fd, this`ep0_fd_stat, this`fds, this`handles, claimed, h
      ensures Valid() && code == (if h == null then Invalid else Ok) && handles == old(handles) - {h}
      ensures h != null ==> forall i :: 0 <= i < MAX_INTERFACES ==>
        claimed[i] == if old(claimed[i]) == h then null else old(claimed[i])
      ensures fds == (if h != null && |old(handles)| == 1 then leaked else old(fds))
      ensures handles != {} ==> ep0_fd == old(ep0_fd) && ep0_fd_stat == old(ep0_fd_stat)
    {
      if h == null {
        return Invalid;
      }
      if h.claimed_interface != -1 {
        var _ := GiveUp(h, h.claimed_interface);
      }
      assert |handles - {h}| == |handles| - 1;
      CloseEp0(h, |handles| - 1);
      handles := handles - {h};
      code := Ok;
    }

    /** The number of the configuration with that value. */
    method FindConfig(value: int) returns (index: nat)
      ensures index <= |configs| && (index < |configs| <==> HasConfig(value))
      ensures index < |configs| ==> configs[index].value == value
      ensures forall k :: 0 <= k < index ==> configs[k].value != value
    {
      index := 0;
      while index < |configs| && configs[index].value != value
        invariant index <= |configs| && forall k :: 0 <= k < index ==> configs[k].value != value
      {
        index := index + 1;
      }
    }

    /** usb_set_configuration: a claim does not survive it. */
    method SetConfiguration(h: Handle?, value: int) returns (code: Code)
      requires Valid() && (h != null ==> h in handles)
      modifies claimed, h
      ensures Valid() && code == (if h != null && HasConfig(value) then Ok else Invalid)
      ensures h != null ==> h.configuration_value == if code == Ok then value else old(h.configuration_value)
      ensures h != null ==> h.claimed_interface == if code == Ok then -1 else old(h.claimed_interface)
      ensures forall i :: 0 <= i < MAX_INTERFACES ==>
        claimed[i] == if code == Ok && old(claimed[i]) == h then null else old(claimed[i])
      ensures h != null ==> h.alternate == old(h.alternate)
    {
      if h == null {
        return Invalid;
      }
      var index := FindConfig(value);
      if index >= |configs| {
        return Invalid;
      }
      h.configuration_value := value;
      if h.claimed_interface != -1 {
        var _ := GiveUp(h, h.claimed_interface);
      }
      code := Ok;
    }

    /** The number of interfaces in the first configuration with that value. */
    ghost predicate InterfacesOf(value: int, n: nat) {
      exists k :: 0 <= k < |configs| && configs[k] == Config(value, n) &&
        forall j :: 0 <= j < k ==> configs[j].value != value
    }

    /** usb_claim_interface. An interface is granted to one handle at a time, and a handle has at most one. */
    method Claim(h: Handle?, interface: int) returns (code: Code, ghost n: nat)
      requires Valid() && (h != null ==> h in handles)
      modifies claimed, h
      ensures Valid() && (h == null ==> code == Invalid && n == 0)
      ensures h != null ==> InterfacesOf(h.configuration_value, n)
      ensures h != null && old(h.configuration_value) == -1 ==> h.configuration_value == configs[0].value
      ensures h != null && old(h.configuration_value) != -1 ==> h.configuration_value == old(h.configuration_value)
      ensures h != null ==> h.claimed_interface == if code == Ok then interface else old(h.claimed_interface)
      ensures code == Invalid <==> !(0 <= interface < MAX_INTERFACES && interface < n)
      ensures code == Ok <==> 0 <= interface < MAX_INTERFACES && interface < n && claimed[interface] == h
      ensures code == Busy ==> claimed[interface] != h && (claimed[interface] != null || h.claimed_interface != -1)
      ensures forall i :: 0 <= i < MAX_INTERFACES && !(code == Ok && i == interface) ==> claimed[i] == old(claimed[i])
      ensures code == Ok ==>
        old(claimed[interface]) == h || (old(claimed[interface]) == null && old(h.claimed_interface) == -1)
      ensures h != null ==> h.alternate == if code == Ok && old(h.claimed_interface) == -1 then 0 else old(h.alternate)
    {
      if h == null {
        return Invalid, 0;
      }
      var index := ConfigIndex(h);
      n := configs[index].interfaces;
      if interface < 0 || interface > 255 || interface >= configs[index].interfaces {
        return Invalid, n;
      }
      code := Grant(h, interface);
    }

    /** The number of the handle's configuration; a handle without one gets the first. */
    method ConfigIndex(h: Handle) returns (index: nat)
      requires Configured() && h in handles
      modifies h`configuration_value
      ensures Configured() && index < |configs| && InterfacesOf(h.configuration_value, configs[index].interfaces)
      ensures h.configuration_value ==
        (if old(h.configuration_value) == -1 then configs[0].value else old(h.configuration_value))
    {
      index := 0;
      if h.configuration_value != -1 {
        index := FindConfig(h.configuration_value);
      }
      h.configuration_value := configs[index].value;
    }

    /** A valid interface is claimed, unless it or the handle has another claim. */
    method Grant(h: Handle, interface: nat) returns (code: Code)
      requires Claims() && h in handles && interface < MAX_INTERFACES
      modifies claimed, h`claimed_interface, h`alternate
      ensures Claims() && code != Invalid && (code == Ok <==> claimed[interface] == h)
      ensures h.claimed_interface == if code == Ok then interface else old(h.claimed_interface)
      ensures code == Busy ==> claimed[interface] != null || h.claimed_interface != -1
      ensures forall i :: 0 <= i < MAX_INTERFACES && !(code == Ok && i == interface) ==> claimed[i] == old(claimed[i])
      ensures code == Ok ==>
        old(claimed[interface]) == h || (old(claimed[interface]) == null && old(h.claimed_interface) == -1)
      ensures h.alternate == if code == Ok && old(h.claimed_interface) == -1 then 0 else old(h.alternate)
    {
      if claimed[interface] == h {
        return Ok;
      }
      if h.claimed_interface != -1 || claimed[interface] != null {
        return Busy;
      }
      h.claimed_interface, h.alternate := interface, 0;
      claimed[interface] := h;
      code := Ok;
    }

    /** hs are the handles, by number; the open ones are those that are not null. */
    ghost predicate Numbered(hs: seq<Handle?>)
      reads this`handles
    {
      Numbers(hs, handles)
    }

    /** The handles, by number, are those of the plain state, and so are the descriptors they share. */
    ghost predicate Shows(hs: seq<Handle?>, p: Plain)
      reads this, handles, hs
    {
      && Numbered(hs) && |hs| == |p.slots| && leaked == p.leaked
      && (forall k :: 0 <= k < |hs| ==> SlotOf(hs[k]) == p.slots[k])
      && (handles != {} ==> ep0_fd == p.fd && ep0_fd_stat == p.stat)
    }

    ghost function SlotOf(h: Handle?): Option<Slot>
      reads h
    {
      if h == null then None else Some(Slot(h.configuration_value, h.claimed_interface))
    }

    /** The tables and counts tell what the plain state tells. */
    lemma Told(hs: seq<Handle?>, p: Plain)
      requires Valid() && Shows(hs, p)
      ensures InUse(p) <==> handles != {}
      ensures fds == OpenFds(p)
      ensures forall i :: 0 <= i < MAX_INTERFACES ==> (Owned(p, i) <==> claimed[i] != null)
    {
      if handles != {} {
        var h :| h in handles;
        var k :| 0 <= k < |hs| && hs[k] == h;
        assert p.slots[k].Some?;
      }
      if InUse(p) {
        var k :| 0 <= k < |p.slots| && p.slots[k].Some?;
        assert hs[k] in handles;
      }
      forall i | 0 <= i < MAX_INTERFACES ensures Owned(p, i) <==> claimed[i] != null {
        if claimed[i] != null {
          var k :| 0 <= k < |hs| && hs[k] == claimed[i];
          assert p.slots[k].Some? && p.slots[k].value.claim == i;
        }
        if Owned(p, i) {
          var k :| 0 <= k < |p.slots| && p.slots[k].Some? && p.slots[k].value.claim == i;
          assert hs[k] in handles;
        }
      }
    }

    /** One call; n is its number. It does what it does to the plain state. */
    method Call(op: Op, n: nat, system: (nat, set<int>) -> (int, int), hs: seq<Handle?>, ghost p: Plain)
      returns (hs2: seq<Handle?>, code: Code)
      requires Valid() && Shows(hs, p) && Honest(system)
      modifies this`ref_count, this`ep0_fd, this`ep0_fd_stat, this`fds, this`leaked, this`handles, claimed, handles
      ensures Valid() && fresh(handles - old(handles))
      ensures |hs2| == |hs| + if op.OpenDevice? then 1 else 0
      ensures var (fd, stat) := system(n, OpenFds(p));
        var (p2, c) := Step(configs, p, op, fd, stat);
        Shows(hs2, p2) && code == c
    {
      Told(hs, p);
      hs2 := hs;
      if op.OpenDevice? {
        hs2, code := CallOpen(op, n, system, hs, p);
      } else if op.k >= |hs| || hs[op.k] == null {
        code := CallNull(op, hs, p);
      } else {
        hs2, code := CallOn(op, hs[op.k], hs, p);
      }
    }

    /** A call on a null handle. */
    method CallNull(op: Op, hs: seq<Handle?>, ghost p: Plain) returns (code: Code)
      requires Valid() && Shows(hs, p) && !op.OpenDevice?
      modifies this`ref_count, this`ep0_fd, this`ep0_fd_stat, this`fds, this`handles, claimed
      ensures Valid() && handles == old(handles) && Shows(hs, p) && code == Invalid
    {
      match op
      case CloseHandle(_) => code := Close(null);
      case ClaimInterface(_, interface) => ghost var n; code, n := Claim(null, interface);
      case ReleaseInterface(_, interface) => code := Release(null, interface);
      case Configure(_, value) => code := SetConfiguration(null, value);
    }

    /** A call on an open handle. */
    method CallOn(op: Op, h: Handle, hs: seq<Handle?>, ghost p: Plain) returns (hs2: seq<Handle?>, code: Code)
      requires Valid() && Shows(hs, p) && !op.OpenDevice? && op.k < |hs| && hs[op.k] == h
      modifies this`ref_count, this`ep0_fd, this`ep0_fd_stat, this`fds, this`handles, claimed, handles
      ensures Valid() && handles <= old(handles) && |hs2| == |hs|
      ensures var (p2, c) := Step(configs, p, op, 0, 0); Shows(hs2, p2) && code == c
    {
      hs2 := hs;
      match op
      case CloseHandle(k) => hs2, code := CallClose(k, h, hs, p);
      case ClaimInterface(k, interface) => code := CallClaim(k, h, interface, hs, p);
      case ReleaseInterface(k, interface) => code := CallRelease(k, h, interface, hs, p);
      case Configure(k, value) => code := CallConfigure(k, h, value, hs, p);
    }

    method CallOpen(op: Op, n: nat, system: (nat, set<int>) -> (int, int), hs: seq<Handle?>, ghost p: Plain)
      returns (hs2: seq<Handle?>, code: Code)
      requires Valid() && Shows(hs, p) && Honest(system) && op.OpenDevice?
      modifies this`ref_count, this`ep0_fd, this`ep0_fd_stat, this`fds, this`leaked, this`handles
      ensures Valid() && fresh(handles - old(handles)) && |hs2| == |hs| + 1
      ensures var (fd, stat) := system(n, OpenFds(p));
        Shows(hs2, StepOpen(p, op.listed, op.configsOk, fd, stat).0)
        && code == StepOpen(p, op.listed, op.configsOk, fd, stat).1
    {
      Told(hs, p);
      var (fd, stat) := system(n, fds);
      var h := PlainOpen(op.listed, fd, stat, op.configsOk, p);
      hs2, code := hs + [h], if h != null then Ok else Invalid;
      Extended(hs, h, p, StepOpen(p, op.listed, op.configsOk, fd, stat).0, old(handles));
    }

    /** Opening, as the plain state has it. */
    method PlainOpen(listed: bool, fd: int, stat: int, configsOk: bool, ghost p: Plain) returns (h: Handle?)
      requires Valid() && fd !in fds && stat !in fds && (fd == stat ==> fd < 0) && fd != 0
      requires (InUse(p) <==> handles != {}) && leaked == p.leaked
      requires handles != {} ==> ep0_fd == p.fd && ep0_fd_stat == p.stat
      modifies this`ref_count, this`ep0_fd, this`ep0_fd_stat, this`fds, this`leaked, this`handles
      ensures Valid() && (h != null ==> fresh(h)) && handles == old(handles) + if h == null then {} else {h}
      ensures var (p2, c) := StepOpen(p, listed, configsOk, fd, stat);
        && p2.slots == p.slots + [SlotOf(h)] && leaked == p2.leaked && c == (if h != null then Ok else Invalid)
        && (handles != {} ==> ep0_fd == p2.fd && ep0_fd_stat == p2.stat)
    {
      h := Open(listed, fd, stat, configsOk);
    }

    lemma Extended(hs: seq<Handle?>, h: Handle?, p: Plain, p2: Plain, was: set<Handle>)
      requires Numbers(hs, was) && handles == (if h == null then was else was + {h}) && (h != null ==> h !in was)
      requires |hs| == |p.slots| && p2.slots == p.slots + [SlotOf(h)] && leaked == p2.leaked
      requires forall j :: 0 <= j < |hs| ==> SlotOf(hs[j]) == p.slots[j]
      requires handles != {} ==> ep0_fd == p2.fd && ep0_fd_stat == p2.stat
      ensures Shows(hs + [h], p2)
    {
      NumberedMore(was, hs, h);
    }

    method CallClose(k: nat, h: Handle, hs: seq<Handle?>, ghost p: Plain) returns (hs2: seq<Handle?>, code: Code)
      requires Valid() && Shows(hs, p) && k < |hs| && h == hs[k]
      modifies this`ref_count, this`ep0_fd, this`ep0_fd_stat, this`fds, this`handles, claimed, h
      ensures Valid() && handles <= old(handles) && |hs2| == |hs|
      ensures code == Ok && Shows(hs2, p.(slots := p.slots[k := None]))
    {
      code := Close(h);
      hs2 := hs[k := null];
      Emptied(hs, k, h, p, old(handles));
    }

    lemma Emptied(hs: seq<Handle?>, k: nat, h: Handle, p: Plain, was: set<Handle>)
      requires Numbers(hs, was) && handles == was - {h} && k < |hs| == |p.slots| && hs[k] == h && leaked == p.leaked
      requires forall j :: 0 <= j < |hs| && hs[j] != h ==> SlotOf(hs[j]) == p.slots[j]
      requires handles != {} ==> ep0_fd == p.fd && ep0_fd_stat == p.stat
      ensures Shows(hs[k := null], p.(slots := p.slots[k := None]))
    {
      Renumbered(was, hs, k);
      var hs2, slots2 := hs[k := null], p.slots[k := None];
      forall j | 0 <= j < |hs2| ensures SlotOf(hs2[j]) == slots2[j] {
        if j != k {
          assert hs2[j] == hs[j] && hs[j] != h;
        }
      }
    }

    method CallClaim(k: nat, h: Handle, interface: int, hs: seq<Handle?>, ghost p: Plain) returns (code: Code)
      requires Valid() && Shows(hs, p) && k < |hs| && h == hs[k]
      modifies claimed, h
      ensures Valid() && Shows(hs, StepClaim(configs, p, k, interface).0)
      ensures code == StepClaim(configs, p, k, interface).1
    {
      Told(hs, p);
      ghost var n;
      code, n := Claim(h, interface);
      InterfacesIs(h.configuration_value, n);
    }

    method CallRelease(k: nat, h: Handle, interface: int, hs: seq<Handle?>, ghost p: Plain) returns (code: Code)
      requires Valid() && Shows(hs, p) && k < |hs| && h == hs[k]
      modifies claimed, h
      ensures Valid()
      ensures var s := p.slots[k].value;
        if s.claim == interface != -1 then Shows(hs, p.(slots := p.slots[k := Some(Slot(s.config, -1))])) && code == Ok
        else Shows(hs, p) && code == Invalid
    {
      code := Release(h, interface);
    }

    method CallConfigure(k: nat, h: Handle, value: int, hs: seq<Handle?>, ghost p: Plain) returns (code: Code)
      requires Valid() && Shows(hs, p) && k < |hs| && h == hs[k]
      modifies claimed, h
      ensures Valid()
      ensures if HasConfig(value) then Shows(hs, p.(slots := p.slots[k := Some(Slot(value, -1))])) && code == Ok
              else Shows(hs, p) && code == Invalid
    {
      code := SetConfiguration(h, value);
    }

    lemma InterfacesIs(value: int, n: nat)
      requires InterfacesOf(value, n)
      ensures n == Interfaces(configs, value)
    {
      var k :| 0 <= k < |configs| && configs[k] == Config(value, n) &&
        forall j :: 0 <= j < k ==> configs[j].value != value;
      FirstWithValue(configs, value, n, k);
    }

    /** Any run of the library on this device, with any answers of the system, returns what the plain state
        gives, call by call. Claims and handles stay mutual inverses, so an interface has one owner, handles
        are counted, and the shared descriptors are open exactly while there are handles. */
    method Use(ops: seq<Op>, system: (nat, set<int>) -> (int, int)) returns (hs: seq<Handle?>, codes: seq<Code>)
      requires Valid() && handles == {} && Honest(system)
      modifies this`ref_count, this`ep0_fd, this`ep0_fd_stat, this`fds, this`leaked, this`handles, claimed
      ensures Valid() && ref_count == |handles|
      ensures var (p, played) := Played(configs, old(leaked), ops, system);
        Shows(hs, p) && codes == played && fds == OpenFds(p)
      ensures forall j, k :: 0 <= j < k < |hs| && hs[j] != null && hs[k] != null && hs[j].claimed_interface != -1 ==>
        hs[j].claimed_interface != hs[k].claimed_interface
    {
      hs, codes := [], [];
      var i := 0;
      assert ops[..0] == [];
      while i < |ops|
        invariant 0 <= i <= |ops| && Valid() && fresh(handles)
        invariant var (p, played) := Played(configs, old(leaked), ops[..i], system); Shows(hs, p) && codes == played
      {
        assert ops[..i + 1][..i] == ops[..i];
        var code;
        hs, code := Call(ops[i], i, system, hs, Played(configs, old(leaked), ops[..i], system).0);
        codes := codes + [code];
        i := i + 1;
      }
      assert ops[..i] == ops;
      Told(hs, Played(configs, old(leaked), ops, system).0);
    }
  }

  lemma {:induction false} FirstWithValue(configs: seq<Config>, value: int, n: nat, k: nat)
    requires k < |configs| && configs[k] == Config(value, n) && forall j :: 0 <= j < k ==> configs[j].value != value
    ensures n == Interfaces(configs, value)
    decreases k
  {
    if k > 0 {
      assert forall j :: 0 <= j < k - 1 ==> configs[1..][j] == configs[j + 1];
      FirstWithValue(configs[1..], value, n, k - 1);
    }
  }

  /** Opened as descriptor 0, the endpoint counts as not open: there is a handle and an open descriptor, but
      the device has neither. */
  method DescriptorZero(configs: seq<Config>, stat: int) returns (d: Device, h: Handle?)
    requires configs != [] && stat > 0
    ensures h != null && d.handles == {h} && d.ep0_fd == 0 && 0 in d.fds && !d.Counted()
  {
    d := new Device(configs);
    h := d.Open(true, 0, stat, true);
  }
}
