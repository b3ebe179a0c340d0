/** The split as a layout, and planning it again from its own output. */
module PlanSplitAgain {
  import opened Partitions
  import opened Options
  import opened PlanSplit

  // ----- the layout -----

  /** The region holds the bootloader, the NVM page and what the filesystem is promised. */
  predicate Room(r: Region, tail: int, erase: nat, fsKb: Option<nat>)
    requires erase > 0
  {
    r.base + AlignUp(128 * KB, erase) + erase + (if fsKb.Some? then AlignUp(fsKb.value * KB, erase) else erase) <= tail
  }

  /** The parts follow each other from the base to the bound; slot 0 has a size exactly when there is room. */
  lemma SplitFits(r: Region, tail: int, erase: nat, slotKb: Option<nat>, fsKb: Option<nat>)
    requires erase > 0 && r.labels != []
    ensures
      var s := SplitAt(r, tail, erase, slotKb, fsKb);
      && s.boot.off == r.base && s.boot.End() == s.slot0.off && s.nvm.End() == tail && s.nvm.size == erase
      && (s.slot0.size >= 0 <==> Room(r, tail, erase, fsKb))
      && (Room(r, tail, erase, fsKb) ==>
            && s.slot0.End() <= s.nvm.off
            && (s.filesystem.Some? ==> s.filesystem.value.off == s.slot0.End() && s.filesystem.value.End() <= s.nvm.off))
      && s.boot.size % erase == 0 && s.slot0.size % erase == 0 && (s.filesystem.Some? ==> s.filesystem.value.size % erase == 0)
      // Without a pinned filesystem at least one sector is left to it.
      && (fsKb.None? ==> s.filesystem.Some?)
  {
    hide AlignUp, AlignDown, Besides;
    ModUnique(0, erase, 0, 0);
    ModUnique(erase, erase, 1, 0);
    var boot := AlignUp(128 * KB, erase);
    var avail := tail - erase - (r.base + boot);
    var s := SplitAt(r, tail, erase, slotKb, fsKb);
    if fsKb.Some? {
      var fs := AlignUp(fsKb.value * KB, erase);
      if avail - fs >= 0 {
        AlignDownGreatest(avail - fs, erase, 0);
      }
    } else {
      if avail - erase >= 0 {
        AlignDownGreatest(avail - erase, erase, 0);
      }
      AlignDownGreatest(avail - s.slot0.size, erase, erase);
    }
  }

  // ----- planning again -----

  ghost predicate UniqueLabels(ns: seq<Node>) {
    forall n, m :: n in ns && m in ns && Share(n.labels, m.labels) ==> n == m
  }

  function OwnNode(labels: seq<Label>, title: Title, device: string, p: Part): (n: Node) {
    Node(labels, Some(title), true, Some(Reg(p.off, p.size)), Some(device), true)
  }

  /** The nodes of the generated file. */
  function Generated(s: Split): (ns: seq<Node>) {
    [OwnNode([BootPartition], Mcuboot, s.device, s.boot), OwnNode(s.slot0Labels, Image0, s.device, s.slot0),
     OwnNode([NvmPartition], OtherTitle("nvm"), s.device, s.nvm)] +
    if s.filesystem.Some? then [OwnNode([FsPartition], OtherTitle("filesystem"), s.device, s.filesystem.value)] else []
  }

  /** The nodes of a build with the generated file: the upstream ones but for the deleted node, and the generated ones. */
  ghost predicate Rebuilt(ns: seq<Node>, s: Split, ns2: seq<Node>) {
    && (forall n :: n in ns2 && !n.fork <==> n in ns && s.deleteLabel !in n.labels)
    && (forall n :: n in ns2 && n.fork <==> n in Generated(s))
  }

  /** Upstream nodes with the deleted one gone. */
  function Kept(ns: seq<Node>, l: Label): (r: seq<Node>)
    ensures forall n :: n in r <==> n in ns && l !in n.labels
  {
    if ns == [] then []
    else
      assert ns == [ns[0]] + ns[1..];
      (if l in ns[0].labels then [] else [ns[0]]) + Kept(ns[1..], l)
  }

  /** Putting the generated nodes behind what is left of the upstream ones is one such build. */
  lemma BuildExists(ns: seq<Node>, s: Split)
    requires forall n :: n in ns ==> !n.fork
    ensures Rebuilt(ns, s, Kept(ns, s.deleteLabel) + Generated(s))
  {
    hide Kept;
    var ns2 := Kept(ns, s.deleteLabel) + Generated(s);
    assert forall n :: n in ns2 <==> n in Kept(ns, s.deleteLabel) || n in Generated(s);
    assert forall n :: n in Generated(s) ==> n.fork;
  }

  /** A first run: nothing of the tool's own, and a split. */
  ghost predicate FirstRun(ns: seq<Node>, r: Region) {
    && (forall n :: n in ns ==> !n.fork) && UniqueLabels(ns)
    && !Predefined(ns) && FindRegion(ns, ns) == Some(r)
  }

  lemma {:induction false} BesidesNone(ls: seq<Label>, l: Label)
    requires l !in ls
    ensures Besides(ls, l) == ls
  {
    if ls != [] {
      assert ls == [ls[0]] + ls[1..];
      BesidesNone(ls[1..], l);
    }
  }

  /** The labels of the generated slot 0 give the same labels again. */
  lemma LabelsAgain(ls: seq<Label>)
    ensures
      var once := [Slot0Partition] + Besides(ls, Slot0Partition);
      [Slot0Partition] + Besides(once, Slot0Partition) == once
  {
    hide Besides;
    var rest := Besides(ls, Slot0Partition);
    BesidesNone(rest, Slot0Partition);
    BesidesHead(rest, Slot0Partition);
  }

  lemma BesidesHead(rest: seq<Label>, l: Label)
    ensures Besides([l] + rest, l) == Besides(rest, l)
  {
    assert ([l] + rest)[1..] == rest;
  }

  lemma FirstRegion(ns: seq<Node>, r: Region)
    requires FirstRun(ns, r)
    ensures r.size.Some? && CodePartition in r.labels
    ensures exists n :: n in ns && IsCode(n) && n.labels == r.labels && n.device == Some(r.device)
  {
    var n :| n in ns && IsCode(n) && RegionAt(ns, n) == Some(r);
  }

  /** The second run finds the same region, with its size unknown. */
  lemma RegionAgain(ns: seq<Node>, r: Region, s: Split, ns2: seq<Node>)
    requires FirstRun(ns, r) && Rebuilt(ns, s, ns2) && UniqueLabels(ns2)
    requires s.device == r.device && s.boot.off == r.base && s.slot0Labels == [Slot0Partition] + Besides(r.labels, Slot0Partition)
    ensures FindRegion(ns2, ns2) == Some(Region(r.device, r.base, None, s.slot0Labels))
  {
    hide FindRegion, BootOffset, Besides;
    FirstRegion(ns, r);
    var boot, slot0 := Generated(s)[0], Generated(s)[1];
    assert boot in Generated(s) && slot0 in Generated(s);
    assert boot in ns2 && slot0 in ns2;
    assert CodePartition in slot0.labels && BootPartition in boot.labels;
    assert IsOwnBoot(boot, r.device) && IsCode(slot0);
    BootAgain(ns2, boot, r.device);
    assert RegionAt(ns2, slot0) == Some(Region(r.device, r.base, None, s.slot0Labels));
    OnlyCode(ns2, slot0);
  }

  lemma BootAgain(ns: seq<Node>, boot: Node, device: string)
    requires boot in ns && IsOwnBoot(boot, device) && UniqueLabels(ns)
    ensures BootOffset(ns, device) == Some(boot.reg.value.off)
  {
    hide BootOffset;
    assert forall n :: n in ns && IsOwnBoot(n, device) ==> Share(n.labels, boot.labels);
  }

  lemma OnlyCode(ns: seq<Node>, code: Node)
    requires code in ns && IsCode(code) && RegionAt(ns, code).Some? && UniqueLabels(ns)
    ensures FindRegion(ns, ns) == RegionAt(ns, code)
  {
    hide FindRegion, RegionAt;
    assert forall n :: n in ns && IsCode(n) ==> Share(n.labels, code.labels);
  }

  /** Both runs meet the same kept partitions. */
  lemma BoundsAgain(ns: seq<Node>, r: Region, s: Split, ns2: seq<Node>, n: Node)
    requires FirstRun(ns, r) && Rebuilt(ns, s, ns2) && UniqueLabels(ns2) && s.deleteLabel == CodePartition
    requires s.slot0Labels == [Slot0Partition] + Besides(r.labels, Slot0Partition)
    ensures
      var r2 := Region(r.device, r.base, None, s.slot0Labels);
      n in ns && Bounds(n, r) <==> n in ns2 && Bounds(n, r2)
  {
    hide FindRegion, Predefined;
    FirstRegion(ns, r);
    var slot0 := Generated(s)[1];
    assert slot0 in Generated(s) && slot0 in ns2;
    assert forall l :: l in r.labels ==> l in s.slot0Labels;
    if n in ns && Bounds(n, r) {
      assert CodePartition !in n.labels;
      assert n in ns2;
      assert !Share(n.labels, slot0.labels);
    }
  }

  /** Planning again gives the same split exactly when a kept partition starts behind the base and no later than the end of
      the original region, although the region's own node and size are gone. */
  lemma SplitAgain(ns: seq<Node>, r: Region, s: Split, ns2: seq<Node>, erase: string -> nat, slotKb: Option<nat>, fsKb: Option<nat>)
    requires forall d :: erase(d) > 0
    requires FirstRun(ns, r) && SplitOf(ns, erase, slotKb, fsKb) == Some(s) && Rebuilt(ns, s, ns2) && UniqueLabels(ns2)
    ensures r.size.Some?
    ensures SplitOf(ns2, erase, slotKb, fsKb) == Some(s) <==>
            exists n :: n in ns && Bounds(n, r) && n.reg.value.off <= r.base + r.size.value
  {
    hide FindRegion, TailBound, Besides, Predefined, Rebuilt, Bounds, SplitAt, UniqueLabels;
    FirstRegion(ns, r);
    var r2 := Region(r.device, r.base, None, s.slot0Labels);
    var t, t2, e := TailBound(ns, r).value, TailBound(ns2, r2), erase(r.device);
    SplitFields(r, t, e, slotKb, fsKb);
    RegionAgain(ns, r, s, ns2);
    NotPredefined(ns, s, ns2);
    forall n ensures n in ns && Bounds(n, r) <==> n in ns2 && Bounds(n, r2) {
      BoundsAgain(ns, r, s, ns2, n);
    }
    TailAgain(ns, r, ns2, r2);
    SameSplit(r, r2, t, e, slotKb, fsKb);
    if t2.Some? {
      SplitFields(r2, t2.value, e, slotKb, fsKb);
    }
  }

  lemma SplitFields(r: Region, tail: int, erase: nat, slotKb: Option<nat>, fsKb: Option<nat>)
    requires erase > 0 && CodePartition in r.labels
    ensures
      var s := SplitAt(r, tail, erase, slotKb, fsKb);
      && s.device == r.device && s.boot.off == r.base && s.nvm.off == tail - erase && s.deleteLabel == CodePartition
      && s.slot0Labels == [Slot0Partition] + Besides(r.labels, Slot0Partition) && CodePartition in s.slot0Labels
  {
    hide Besides, AlignUp, AlignDown;
  }

  lemma SameSplit(r: Region, r2: Region, tail: int, erase: nat, slotKb: Option<nat>, fsKb: Option<nat>)
    requires erase > 0 && CodePartition in r.labels && r2.labels == [Slot0Partition] + Besides(r.labels, Slot0Partition)
    requires r2.base == r.base && r2.device == r.device
    ensures SplitAt(r2, tail, erase, slotKb, fsKb) == SplitAt(r, tail, erase, slotKb, fsKb)
  {
    hide Besides, AlignUp, AlignDown;
    LabelsAgain(r.labels);
    assert CodePartition in r2.labels;
  }

  lemma NotPredefined(ns: seq<Node>, s: Split, ns2: seq<Node>)
    requires !Predefined(ns) && Rebuilt(ns, s, ns2) && forall n :: n in ns ==> !n.fork
    ensures !Predefined(ns2)
  {
    assert forall n :: n in ns2 && !n.fork ==> n in ns;
  }

  /** The least bound is the same exactly when one of the kept partitions gives it. */
  lemma TailAgain(ns: seq<Node>, r: Region, ns2: seq<Node>, r2: Region)
    requires r.size.Some? && r2.size.None? && r.base == r2.base
    requires forall n :: n in ns && Bounds(n, r) <==> n in ns2 && Bounds(n, r2)
    ensures TailBound(ns2, r2) == TailBound(ns, r) <==>
            exists n :: n in ns && Bounds(n, r) && n.reg.value.off <= r.base + r.size.value
  {
    hide TailBound;
    var t, t2 := TailBound(ns, r), TailBound(ns2, r2);
    if n :| n in ns && Bounds(n, r) && n.reg.value.off <= r.base + r.size.value {
      assert n in ns2 && Bounds(n, r2);
      var m :| m in ns2 && Bounds(m, r2) && t2.value == m.reg.value.off;
      assert m in ns && Bounds(m, r);
    }
  }

  /** Builds one after the other, each with the file generated from the one before. */
  ghost predicate Builds(ns: seq<Node>, s: Split, builds: seq<seq<Node>>, erase: string -> nat, slotKb: Option<nat>, fsKb: Option<nat>)
    requires forall d :: erase(d) > 0
    decreases |builds|
  {
    builds == [] ||
    (&& UniqueLabels(builds[0]) && Rebuilt(ns, s, builds[0])
     && match SplitOf(builds[0], erase, slotKb, fsKb)
        case None => |builds| == 1
        case Some(next) => Builds(ns, next, builds[1..], erase, slotKb, fsKb))
  }

  /** However often it is planned again, the split stays the same. */
  lemma {:induction false} SplitForever(ns: seq<Node>, r: Region, s: Split, builds: seq<seq<Node>>, erase: string -> nat,
                                        slotKb: Option<nat>, fsKb: Option<nat>, bound: Node)
    requires forall d :: erase(d) > 0
    requires FirstRun(ns, r) && SplitOf(ns, erase, slotKb, fsKb) == Some(s) && Builds(ns, s, builds, erase, slotKb, fsKb)
    requires r.size.Some? && bound in ns && Bounds(bound, r) && bound.reg.value.off <= r.base + r.size.value
    ensures forall k :: 0 <= k < |builds| ==> SplitOf(builds[k], erase, slotKb, fsKb) == Some(s)
    decreases |builds|
  {
    hide SplitOf, FirstRun, Rebuilt, UniqueLabels, Bounds;
    if builds != [] {
      SplitAgain(ns, r, s, builds[0], erase, slotKb, fsKb);
      SplitForever(ns, r, s, builds[1..], erase, slotKb, fsKb, bound);
      assert forall k :: 1 <= k < |builds| ==> builds[k] == builds[1..][k - 1];
    }
  }

  /** The split ends before every partition that starts behind the base and is kept. */
  lemma SplitTouchesNothing(ns: seq<Node>, r: Region, s: Split, erase: string -> nat, slotKb: Option<nat>, fsKb: Option<nat>, n: Node)
    requires forall d :: erase(d) > 0
    requires !Predefined(ns) && FindRegion(ns, ns) == Some(r) && SplitOf(ns, erase, slotKb, fsKb) == Some(s)
    requires s.slot0.size >= 0 && n in ns && Bounds(n, r)
    ensures s.boot.End() <= s.slot0.off && s.slot0.End() <= s.nvm.off && s.nvm.End() <= n.reg.value.off
    ensures s.filesystem.Some? ==> s.slot0.End() <= s.filesystem.value.off && s.filesystem.value.End() <= s.nvm.off
    ensures r.size.Some? ==> s.nvm.End() <= r.base + r.size.value
  {
    hide FindRegion, TailBound, Predefined, SplitAt, Bounds;
    SplitFits(r, TailBound(ns, r).value, erase(r.device), slotKb, fsKb);
  }
}
