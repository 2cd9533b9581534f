/**
 * Character-device nodes under /dev (`DevfsDeviceNode`): a table of 32 instance slots shared by all
 * nodes of the driver, indexed by minor number; the permission check against the caller's
 * credentials; and the entry points that route a request for a device number to its node.
 */
module Devfs {
  import opened Common
  import opened CString

  /** `MAX_INSTANCES`: the number of minor numbers, and of slots in the instance table. */
  const MaxInstances: nat := 32

  /** `mode_t`, 16 bits wide. */
  type FileMode = bv16

  const S_IRWXU: FileMode := 0x1C0  // 0700
  const S_IRWXG: FileMode := 0x38   // 0070
  const S_IRWXO: FileMode := 0x7    // 0007
  const S_IREAD: FileMode := 0x100  // 0400, owner read
  const S_IWRITE: FileMode := 0x80  // 0200, owner write

  /** A device number: `makedev(major, minor)` is `major << 24 | minor`. */
  function Makedev(major: nat, minor: nat): (dev: nat)
    requires major < 0x100 && minor < 0x100_0000
    ensures Major(dev) == major && Minor(dev) == minor
  {
    major * 0x100_0000 + minor
  }

  function Major(dev: nat): nat { (dev / 0x100_0000) % 0x100 }
  function Minor(dev: nat): nat { dev % 0x100_0000 }

  /** The caller's credentials, as the kernel's `kauth` calls report them. */
  datatype Cred = Cred(uid: int, superuser: bool, groups: set<int>)

  // ---------------------------------------------------------------------------------------------
  // Permission check

  /** The owner-position permissions a caller holds on a node with the given owner, group and mode. */
  function Granted(mode: FileMode, uid: int, gid: int, cred: Cred): FileMode
  {
    ((mode & S_IRWXO) << 6)
    | (if gid in cred.groups then (mode & S_IRWXG) << 3 else 0)
    | (if cred.uid == uid then mode & S_IRWXU else 0)
  }

  /** `devAccess`: 0 when every requested bit is held, else EACCES; the superuser holds all. */
  function Access(mode: FileMode, uid: int, gid: int, cred: Cred, req: FileMode): (err: int)
    ensures err == 0 || err == EACCES
    ensures cred.superuser ==> err == 0
  {
    if cred.superuser then 0
    else if req & Granted(mode, uid, gid, cred) == req then 0
    else EACCES
  }

  /** A request for several permissions is granted exactly when each part of it is. */
  lemma AccessSplit(mode: FileMode, uid: int, gid: int, cred: Cred, a: FileMode, b: FileMode)
    ensures Access(mode, uid, gid, cred, a | b) == 0 <==>
      Access(mode, uid, gid, cred, a) == 0 && Access(mode, uid, gid, cred, b) == 0
  {
    OrWithin(a, b, Granted(mode, uid, gid, cred));
  }

  lemma OrWithin(a: FileMode, b: FileMode, g: FileMode)
    ensures (a | b) & g == (a | b) <==> a & g == a && b & g == b
  {
    if (a | b) & g == (a | b) {
      OrPartWithin(a, b, g);
      assert b | a == a | b;
      OrPartWithin(b, a, g);
    }
  }

  lemma OrPartWithin(a: FileMode, b: FileMode, g: FileMode)
    requires (a | b) & g == (a | b)
    ensures a & g == a
  {
  }

  /** Only the owner positions (0700) can be granted to a caller who is not the superuser. */
  lemma OwnerPositionsOnly(mode: FileMode, uid: int, gid: int, cred: Cred, req: FileMode)
    requires !cred.superuser && req & !S_IRWXU != 0
    ensures Access(mode, uid, gid, cred, req) == EACCES
  {
    var g := Granted(mode, uid, gid, cred);
    assert g & !S_IRWXU == 0;
  }

  /** Adding permission bits to the node's mode never takes access away. */
  lemma AccessMonotone(mode: FileMode, more: FileMode, uid: int, gid: int, cred: Cred, req: FileMode)
    requires Access(mode, uid, gid, cred, req) == 0
    ensures Access(mode | more, uid, gid, cred, req) == 0
  {
    var g, g' := Granted(mode, uid, gid, cred), Granted(mode | more, uid, gid, cred);
    assert g & g' == g;
  }

  /** Reading is granted by any of the three read bits the caller's relation to the node selects. */
  lemma ReadAccess(mode: FileMode, uid: int, gid: int, cred: Cred)
    ensures Access(mode, uid, gid, cred, S_IREAD) == 0 <==>
      || cred.superuser
      || mode & 0x4 != 0
      || (gid in cred.groups && mode & 0x20 != 0)
      || (cred.uid == uid && mode & 0x100 != 0)
  {
  }

  /** Execution likewise, with the three execute bits. */
  lemma ExecAccess(mode: FileMode, uid: int, gid: int, cred: Cred)
    ensures Access(mode, uid, gid, cred, 0x40) == 0 <==>
      || cred.superuser
      || mode & 0x1 != 0
      || (gid in cred.groups && mode & 0x8 != 0)
      || (cred.uid == uid && mode & 0x40 != 0)
  {
  }

  /** Writing likewise, with the three write bits. */
  lemma WriteAccess(mode: FileMode, uid: int, gid: int, cred: Cred)
    ensures Access(mode, uid, gid, cred, S_IWRITE) == 0 <==>
      || cred.superuser
      || mode & 0x2 != 0
      || (gid in cred.groups && mode & 0x10 != 0)
      || (cred.uid == uid && mode & 0x80 != 0)
  {
  }

  // ---------------------------------------------------------------------------------------------
  // Node names

  /**
   * The node-name patterns the driver passes to `devCreate`: at most one `%`, and only as the
   * conversion `%d`.
   */
  predicate NamePattern(p: string)
  {
    forall i :: 0 <= i < |p| && p[i] == '%' ==> i + 1 < |p| && p[i + 1] == 'd' && '%' !in p[i + 1..]
  }

  /** `snprintf(name, size, pattern, minor)`: the pattern with `%d` replaced by the minor number. */
  function Subst(p: string, minor: nat): string
  {
    if p == [] then []
    else if p[0] == '%' && |p| >= 2 && p[1] == 'd' then Decimal(minor) + p[2..]
    else [p[0]] + Subst(p[1..], minor)
  }

  /** A minor number below 100 takes at most the two characters of `%d`: the name always fits. */
  lemma {:induction false} SubstFits(p: string, minor: nat)
    requires minor < 100
    ensures |Subst(p, minor)| <= |p|
  {
    if p != [] && !(p[0] == '%' && |p| >= 2 && p[1] == 'd') {
      SubstFits(p[1..], minor);
    } else if p != [] {
      DecimalShort(minor);
    }
  }

  /** A pattern without `%` is the name itself, as for the control node "vpcmctl". */
  lemma {:induction false} SubstPlain(p: string, minor: nat)
    requires '%' !in p
    ensures Subst(p, minor) == p
  {
    if p != [] {
      assert '%' !in p[1..];
      SubstPlain(p[1..], minor);
    }
  }

  /** "vpcm%d" names the engine node with the given minor, e.g. "vpcm5". */
  lemma {:induction false} SubstEngine(prefix: string, minor: nat)
    requires '%' !in prefix
    ensures Subst(prefix + "%d", minor) == prefix + Decimal(minor)
  {
    if prefix == [] {
      assert ("%d")[2..] == [];
    } else {
      assert (prefix + "%d")[0] == prefix[0] && (prefix + "%d")[1..] == prefix[1..] + "%d";
      assert '%' !in prefix[1..];
      SubstEngine(prefix[1..], minor);
    }
  }

  // ---------------------------------------------------------------------------------------------
  // Owner and group of a new node

  /**
   * The group `devCreate` stores as written: a negative argument assigns the caller's group to the
   * argument itself, so the node keeps whatever group it had before.
   */
  function NodeGroupAsWritten(gid: int, callerGid: int, previous: int): int
  {
    if gid < 0 then previous else gid
  }

  /**
   * The owner or group a new node gets, as intended for both: the requested id, or the caller's
   * when none is requested (a negative id).
   */
  function NodeId(id: int, callerId: int): (r: int)
    ensures id >= 0 ==> r == id
    ensures id < 0 ==> r == callerId
  {
    if id < 0 then callerId else id
  }

  /** With no group requested, the node written as the source does ignores the caller's group. */
  lemma NodeGroupDiffers()
    ensures NodeGroupAsWritten(-1, 20, 0) == 0 && NodeId(-1, 20) == 20
    ensures forall previous: int, callerGid: int :: previous != callerGid ==>
      NodeGroupAsWritten(-1, callerGid, previous) != NodeId(-1, callerGid)
  {
  }

  // ---------------------------------------------------------------------------------------------
  // The instance table and its nodes

  /** The index of the first free slot, or the table size when every slot is taken. */
  function LowestFree(slots: seq<DeviceNode?>): (k: nat)
    ensures k <= |slots| && (k < |slots| ==> slots[k] == null)
    ensures forall j :: 0 <= j < k ==> slots[j] != null
  {
    if slots == [] then 0 else if slots[0] == null then 0 else 1 + LowestFree(slots[1..])
  }

  /** The driver-wide state of all nodes: the character-device major and the 32 instance slots. */
  class Registry {
    const major: nat
    const instances: array<DeviceNode?>

    ghost predicate Valid()
    {
      major < 0x100 && instances.Length == MaxInstances
    }

    constructor (major: nat)
      requires major < 0x100
      ensures Valid() && this.major == major && fresh(instances)
      ensures forall i :: 0 <= i < MaxInstances ==> instances[i] == null
    {
      this.major := major;
      instances := new DeviceNode?[MaxInstances](_ => null);
    }

    /** `getInstance`: the slot of the device's minor, for this driver's major only. */
    function GetInstance(dev: nat): (p: DeviceNode?)
      requires Valid()
      reads this, instances
      ensures Major(dev) != major ==> p == null
      ensures Minor(dev) >= MaxInstances ==> p == null
      ensures Major(dev) == major && Minor(dev) < MaxInstances ==> p == instances[Minor(dev)]
    {
      if Major(dev) != major then null
      else if Minor(dev) < MaxInstances then instances[Minor(dev)]
      else null
    }

    /**
     * The static entry points (`open`, `close`, `read`, `write`, `ioctl`, `select`): the request
     * goes to the node registered for the device, or fails with ENXIO. `handle` stands for the
     * node's own handler, which the engine and control nodes define.
     */
    function Dispatch(dev: nat, op: Op, handle: (DeviceNode, Op) -> int): (r: int)
      requires Valid()
      reads this, instances
    {
      var p := GetInstance(dev);
      if p == null then ENXIO else handle(p, op)
    }
  }

  /** The requests the entry points forward. */
  datatype Op = Open(flags: Flags) | Close | Read | Write | Ioctl(cmd: bv32) | Select(rw: int)

  /** The base-class handlers a node does not override; `open` and `close` have none. */
  function DefaultHandler(op: Op): (r: Option<int>)
    ensures op.Read? || op.Write? ==> r == Some(ENOTSUP)
    ensures op.Ioctl? ==> r == Some(ENOTTY)
    ensures op.Select? ==> r == Some(1)
    ensures op.Open? || op.Close? ==> r.None?
  {
    match op
    case Read => Some(ENOTSUP)
    case Write => Some(ENOTSUP)
    case Ioctl(_) => Some(ENOTTY)
    case Select(_) => Some(1)
    case _ => None
  }

  /** A node: its name, its device number, its owner, group and mode, and whether it is in /dev. */
  class DeviceNode {
    var name: Option<string>
    var dev: nat
    var uid: int
    var gid: int
    var mode: FileMode
    var hasNode: bool

    constructor ()
      ensures name == None && dev == 0 && !hasNode
    {
      name := None;
      dev := 0;
      uid := 0;
      gid := 0;
      mode := 0;
      hasNode := false;
    }

    /** `devAccess` against this node's owner, group and mode. */
    function DevAccess(cred: Cred, req: FileMode): (err: int)
      reads this
      ensures err == 0 || err == EACCES
      ensures cred.superuser ==> err == 0
    {
      Access(mode, uid, gid, cred, req)
    }

    /**
     * `devCreate`: owner, group and mode are recorded; the node takes the lowest free slot, gets
     * the device number of that minor and the pattern's name, and appears in /dev. The group is the
     * intended one (`NodeId`) and the slot scan tests the bound before a slot, unlike
     * `FreeSlotAsWritten`; creating the /dev entry is taken to succeed.
     */
    method DevCreate(reg: Registry, pattern: Option<string>, mode: FileMode, uid: int, gid: int, caller: Cred, callerGid: int)
      returns (err: int)
      requires reg.Valid() && (pattern.Some? ==> NamePattern(pattern.value))
      modifies this, reg.instances
      ensures pattern.None? ==> err == EINVAL && unchanged(this) && unchanged(reg.instances)
      ensures pattern.Some? ==>
        && this.uid == NodeId(uid, caller.uid) && this.gid == NodeId(gid, callerGid) && this.mode == mode
      ensures pattern.Some? && LowestFree(old(reg.instances[..])) == MaxInstances ==>
        err == ENOMEM && unchanged(reg.instances) && name == old(name) && dev == old(dev) && hasNode == old(hasNode)
      ensures pattern.Some? && LowestFree(old(reg.instances[..])) < MaxInstances ==>
        var minor := LowestFree(old(reg.instances[..]));
        && err == 0
        && reg.instances[..] == old(reg.instances[..])[minor := this]
        && dev == Makedev(reg.major, minor)
        && name == Some(Subst(pattern.value, minor))
        && hasNode
    {
      if pattern.None? {
        return EINVAL;
      }
      this.uid := NodeId(uid, caller.uid);
      this.gid := NodeId(gid, callerGid);
      this.mode := mode;
      var minor := 0;
      while minor < MaxInstances && reg.instances[minor] != null
        invariant minor <= MaxInstances
        invariant forall j :: 0 <= j < minor ==> reg.instances[j] != null
        decreases MaxInstances - minor
      {
        minor := minor + 1;
      }
      assert minor == LowestFree(reg.instances[..]) by {
        LowestFreeAt(reg.instances[..], minor);
      }
      if minor >= MaxInstances {
        return ENOMEM;
      }
      dev := Makedev(reg.major, minor);
      reg.instances[minor] := this;
      SubstFits(pattern.value, minor);
      name := Some(Subst(pattern.value, minor));
      hasNode := true;
      err := 0;
    }

    /**
     * `devDestroy`: the node leaves /dev and loses its name; its slot is cleared only if it was
     * registered and the slot still holds it.
     */
    method DevDestroy(reg: Registry) returns (err: int)
      requires reg.Valid()
      modifies this`name, this`hasNode, reg.instances
      ensures err == 0 && name == None && !hasNode
      ensures var m := Minor(dev);
        if dev != 0 && m < MaxInstances && old(reg.instances[m]) == this
        then reg.instances[..] == old(reg.instances[..])[m := null]
        else reg.instances[..] == old(reg.instances[..])
    {
      hasNode := false;
      var minor := Minor(dev);
      if dev != 0 && minor < MaxInstances && reg.instances[minor] == this {
        reg.instances[minor] := null;
      }
      name := None;
      err := 0;
    }
  }

  lemma {:induction false} LowestFreeAt(slots: seq<DeviceNode?>, k: nat)
    requires k <= |slots| && (k < |slots| ==> slots[k] == null)
    requires forall j :: 0 <= j < k ==> slots[j] != null
    ensures LowestFree(slots) == k
    decreases k
  {
    if k > 0 {
      assert slots[1..][..k - 1] == slots[1..k];
      LowestFreeAt(slots[1..], k - 1);
    }
  }

  /**
   * `devCreate`'s slot scan as written, from `minor` on: it reads the slot before it tests the bound,
   * so a scan that finds no free slot reads the entry one past the table (`None` here).
   */
  function FreeSlotAsWritten(slots: seq<DeviceNode?>, minor: nat): Option<nat>
    decreases |slots| - minor
  {
    if minor >= |slots| then None
    else if slots[minor] == null then Some(minor)
    else FreeSlotAsWritten(slots, minor + 1)
  }

  /**
   * The scan as written finds the same slot as `LowestFree` whenever one is free, and reads past
   * the table exactly when every slot from `minor` on is taken.
   */
  lemma {:induction false} SlotScanAsWritten(slots: seq<DeviceNode?>, minor: nat)
    requires minor <= |slots|
    ensures var k := LowestFree(slots[minor..]);
      FreeSlotAsWritten(slots, minor) == if minor + k < |slots| then Some(minor + k) else None
    ensures FreeSlotAsWritten(slots, minor).None? <==> forall j :: minor <= j < |slots| ==> slots[j] != null
    decreases |slots| - minor
  {
    if minor < |slots| && slots[minor] != null {
      assert slots[minor..][1..] == slots[minor + 1..];
      SlotScanAsWritten(slots, minor + 1);
    }
  }

  // ---------------------------------------------------------------------------------------------
  // Properties of the table

  /** After a successful `devCreate`, the node's own device number routes to it. */
  lemma CreatedIsFound(reg: Registry, n: DeviceNode, op: Op, handle: (DeviceNode, Op) -> int)
    requires reg.Valid()
    requires Minor(n.dev) < MaxInstances && Major(n.dev) == reg.major && reg.instances[Minor(n.dev)] == n
    ensures reg.GetInstance(n.dev) == n
    ensures reg.Dispatch(n.dev, op, handle) == handle(n, op)
  {
  }

  /** A free slot, a foreign major and a minor past the table all answer ENXIO. */
  lemma MissingIsNxio(reg: Registry, dev: nat, op: Op, handle: (DeviceNode, Op) -> int)
    requires reg.Valid()
    requires Major(dev) != reg.major || Minor(dev) >= MaxInstances || reg.instances[Minor(dev)] == null
    ensures reg.Dispatch(dev, op, handle) == ENXIO
  {
  }
}
