/** Splitting the code region of a flash that is shared with a ROM loader or network processor. */
module PlanSplit {
  import opened Partitions
  import opened Options

  datatype Label = CodePartition | BootPartition | Slot0Partition | NvmPartition | FsPartition | OtherLabel(text: string)

  datatype Title = Mcuboot | Image0 | OtherTitle(text: string)

  datatype Reg = Reg(off: int, size: int)

  /** A devicetree node: `fork` says that this tool's own files define it. */
  datatype Node = Node(labels: seq<Label>, title: Option<Title>, mapped: bool, reg: Option<Reg>, device: Option<string>, fork: bool)

  /** The region to split; its size is not known when only the tool's own earlier output is left of it. */
  datatype Region = Region(device: string, base: int, size: Option<int>, labels: seq<Label>)

  predicate Predefined(ns: seq<Node>) {
    && (exists n :: n in ns && !n.fork && n.title == Some(Mcuboot))
    && (exists n :: n in ns && !n.fork && n.title == Some(Image0))
  }

  // ----- the region -----

  predicate IsCode(n: Node) {
    n.mapped && CodePartition in n.labels && n.reg.Some? && n.device.Some?
  }

  predicate IsOwnBoot(n: Node, device: string) {
    BootPartition in n.labels && n.fork && n.device == Some(device) && n.reg.Some?
  }

  function BootOffset(ns: seq<Node>, device: string): (off: Option<int>)
    ensures off.Some? ==> exists n :: n in ns && IsOwnBoot(n, device) && n.reg.value.off == off.value
    ensures off.None? ==> forall n :: n in ns ==> !IsOwnBoot(n, device)
  {
    if ns == [] then None
    else
      assert ns == [ns[0]] + ns[1..];
      if IsOwnBoot(ns[0], device) then Some(ns[0].reg.value.off) else BootOffset(ns[1..], device)
  }

  /** The region a code node stands for. */
  function RegionAt(all: seq<Node>, n: Node): (r: Option<Region>)
    requires IsCode(n)
  {
    if !n.fork then Some(Region(n.device.value, n.reg.value.off, Some(n.reg.value.size), n.labels))
    else
      match BootOffset(all, n.device.value)
      case None => None
      case Some(off) => Some(Region(n.device.value, off, None, n.labels))
  }

  function FindRegion(all: seq<Node>, ns: seq<Node>): (r: Option<Region>)
    ensures r.Some? ==> (exists n :: n in ns && IsCode(n) && RegionAt(all, n) == r) && CodePartition in r.value.labels
    ensures r.None? ==> forall n :: n in ns && IsCode(n) ==> RegionAt(all, n).None?
  {
    if ns == [] then None
    else
      assert ns == [ns[0]] + ns[1..];
      if IsCode(ns[0]) && RegionAt(all, ns[0]).Some? then RegionAt(all, ns[0]) else FindRegion(all, ns[1..])
  }

  method FindOwnBoot(ns: seq<Node>, device: string) returns (off: Option<int>)
    ensures off == BootOffset(ns, device)
  {
    for k := 0 to |ns|
      invariant BootOffset(ns, device) == BootOffset(ns[k..], device)
    {
      assert ns[k..][1..] == ns[k + 1..];
      if IsOwnBoot(ns[k], device) {
        return Some(ns[k].reg.value.off);
      }
    }
    off := None;
  }

  method LocateRegion(ns: seq<Node>) returns (r: Option<Region>)
    ensures r == FindRegion(ns, ns)
  {
    hide BootOffset;
    for i := 0 to |ns|
      invariant FindRegion(ns, ns) == FindRegion(ns, ns[i..])
    {
      var n := ns[i];
      assert ns[i..][1..] == ns[i + 1..];
      if !n.mapped || CodePartition !in n.labels || n.reg.None? || n.device.None? {
        continue;
      }
      var region := Region(n.device.value, n.reg.value.off, Some(n.reg.value.size), n.labels);
      if n.fork {
        var off := FindOwnBoot(ns, n.device.value);
        if off.None? {
          continue;
        }
        region := Region(n.device.value, off.value, None, n.labels);
      }
      return Some(region);
    }
    r := None;
  }

  // ----- how far it reaches -----

  predicate Share(a: seq<Label>, b: seq<Label>) {
    exists l :: l in a && l in b
  }

  /** A partition of the upstream layout that starts behind the base and is kept. */
  predicate Bounds(n: Node, r: Region) {
    n.mapped && !n.fork && !Share(n.labels, r.labels) && n.reg.Some? && n.device == Some(r.device) && n.reg.value.off > r.base
  }

  /** The nearest of the region's end, when known, and the kept partitions behind its base. */
  function TailBound(ns: seq<Node>, r: Region): (t: Option<int>)
    ensures t.Some? ==> (r.size.Some? && t.value == r.base + r.size.value) || exists n :: n in ns && Bounds(n, r) && t.value == n.reg.value.off
    ensures t.Some? ==> r.size.Some? ==> t.value <= r.base + r.size.value
    ensures forall n :: n in ns && Bounds(n, r) ==> t.Some? && t.value <= n.reg.value.off
    ensures r.size.Some? ==> t.Some?
  {
    if ns == [] then if r.size.Some? then Some(r.base + r.size.value) else None
    else
      assert ns == ns[..|ns| - 1] + [ns[|ns| - 1]];
      var t, n := TailBound(ns[..|ns| - 1], r), ns[|ns| - 1];
      if Bounds(n, r) && (t.None? || n.reg.value.off < t.value) then Some(n.reg.value.off) else t
  }

  method FindTail(ns: seq<Node>, r: Region) returns (t: Option<int>)
    ensures t == TailBound(ns, r)
  {
    t := if r.size.Some? then Some(r.base + r.size.value) else None;
    for i := 0 to |ns|
      invariant t == TailBound(ns[..i], r)
    {
      assert ns[..i + 1][..i] == ns[..i];
      var n := ns[i];
      if n.mapped && !n.fork && !Share(n.labels, r.labels) && n.reg.Some? && n.device == Some(r.device) {
        var off := n.reg.value.off;
        if off > r.base && (t.None? || off < t.value) {
          t := Some(off);
        }
      }
    }
    assert ns[..|ns|] == ns;
  }

  // ----- the split -----

  datatype Split = Split(device: string, boot: Part, slot0: Part, slot0Labels: seq<Label>, filesystem: Option<Part>, nvm: Part,
                         deleteLabel: Label)

  function Besides(ls: seq<Label>, l: Label): (r: seq<Label>)
    ensures forall x :: x in r <==> x in ls && x != l
  {
    if ls == [] then []
    else
      assert ls == [ls[0]] + ls[1..];
      (if ls[0] == l then [] else [ls[0]]) + Besides(ls[1..], l)
  }

  /** The label that names the replaced node in a fresh build too, if the node has it. */
  function FirstDeleted(ls: seq<Label>): (l: Label)
    requires ls != []
  {
    if CodePartition in ls then CodePartition else ls[0]
  }

  function SplitAt(r: Region, tail: int, erase: nat, slotKb: Option<nat>, fsKb: Option<nat>): (s: Split)
    requires erase > 0 && r.labels != []
  {
    var bootSize := AlignUp(128 * KB, erase);
    var off := r.base + bootSize;
    var avail := tail - erase - off;
    var fixed := fsKb.Some?;
    var wanted := if slotKb.Some? && slotKb.value != 0 then slotKb.value * KB else SLOT0_MIN_SIZE;
    var slot0 := if fixed then AlignDown(avail - AlignUp(fsKb.value * KB, erase), erase)
                 else Min(AlignUp(wanted, erase), AlignDown(avail - erase, erase));
    var fs := if fixed then AlignUp(fsKb.value * KB, erase) else AlignDown(avail - slot0, erase);
    Split(r.device, Part(Boot, r.base, bootSize), Part(Slot0, off, slot0), [Slot0Partition] + Besides(r.labels, Slot0Partition),
          if fs >= erase then Some(Part(Filesystem, off + slot0, fs)) else None, Part(Nvm, tail - erase, erase),
          FirstDeleted(r.labels))
  }

  method PlanCodeSplit(ns: seq<Node>, erase: string -> nat, slotKb: Option<nat>, fsKb: Option<nat>) returns (s: Option<Split>)
    requires forall d :: erase(d) > 0
    ensures s == SplitOf(ns, erase, slotKb, fsKb)
  {
    hide FindRegion, TailBound, SplitAt;
    if Predefined(ns) {
      return None;
    }
    var region := LocateRegion(ns);
    if region.None? {
      return None;
    }
    var tail := FindTail(ns, region.value);
    if tail.None? {
      return None;
    }
    s := Some(SplitAt(region.value, tail.value, erase(region.value.device), slotKb, fsKb));
  }

  function SplitOf(ns: seq<Node>, erase: string -> nat, slotKb: Option<nat>, fsKb: Option<nat>): (s: Option<Split>)
    requires forall d :: erase(d) > 0
  {
    if Predefined(ns) then None
    else
      match FindRegion(ns, ns)
      case None => None
      case Some(r) =>
        match TailBound(ns, r)
        case None => None
        case Some(t) => Some(SplitAt(r, t, erase(r.device), slotKb, fsKb))
  }
}
