/**
  * The interleaved placement of a development cluster's cores on the CPUs of one machine.
  * A (node, core) pair has a global slot number; slots fill the machine group by group, and the
  * members of a group are `stride` CPUs apart.
  */
module Cpuset {

  import opened Arithmetic
  import opened Decimals
  import opened Sequences

  datatype Placement<T> = Placed(value: T) | DivisionByZero

  /** The CPU of one core of one node.  Both divisions of the formula can meet a zero. */
  function CpusetCpu(cores: nat, stride: nat, smp: nat, node: nat, core: nat): Placement<nat> {
    if stride == 0 || cores / stride == 0 then DivisionByZero
    else Placed(SlotCpu(stride, cores / stride, node * smp + core))
  }

  /** The CPU of a slot, when each group takes `perGroup` slots. */
  function SlotCpu(stride: nat, perGroup: nat, slot: nat): nat
    requires perGroup > 0
  {
    slot / perGroup + slot % perGroup * stride
  }

  /** The slot that a CPU serves. */
  function CpuSlot(stride: nat, perGroup: nat, cpu: nat): nat
    requires stride > 0
  {
    cpu % stride * perGroup + cpu / stride
  }

  /** The CPUs of one node, in core order; a node without cores never divides. */
  function NodeCpus(cores: nat, stride: nat, smp: nat, node: nat): Placement<seq<nat>> {
    FirstCpus(cores, stride, smp, node, smp)
  }

  function FirstCpus(cores: nat, stride: nat, smp: nat, node: nat, n: nat): Placement<seq<nat>> {
    if n == 0 then Placed([])
    else match FirstCpus(cores, stride, smp, node, n - 1)
      case DivisionByZero => DivisionByZero
      case Placed(cpus) =>
        match CpusetCpu(cores, stride, smp, node, n - 1)
        case DivisionByZero => DivisionByZero
        case Placed(cpu) => Placed(cpus + [cpu])
  }

  // ---------------------------------------------------------------------------------------
  // The slots of the whole groups and their CPUs
  // ---------------------------------------------------------------------------------------

  lemma GroupBelow(group: nat, place: nat, a: nat, b: nat)
    requires group < a && place < b
    ensures group + place * a < a * b
  {
    AtLeastOne(b, place, a);
  }

  /** A slot within the whole groups goes to a CPU within them, and that CPU leads back to it. */
  lemma SlotsInvert(stride: nat, perGroup: nat, slot: nat)
    requires perGroup > 0 && slot < stride * perGroup
    ensures stride > 0
    ensures SlotCpu(stride, perGroup, slot) < stride * perGroup
    ensures CpuSlot(stride, perGroup, SlotCpu(stride, perGroup, slot)) == slot
  {
    DivBelow(slot, stride, perGroup);
    var group, place := slot / perGroup, slot % perGroup;
    GroupBelow(group, place, stride, perGroup);
    DivUnique(group + place * stride, stride, place, group);
  }

  /** And every such CPU is the CPU of exactly that slot. */
  lemma CpusInvert(stride: nat, perGroup: nat, cpu: nat)
    requires perGroup > 0 && stride > 0 && cpu < stride * perGroup
    ensures CpuSlot(stride, perGroup, cpu) < stride * perGroup
    ensures SlotCpu(stride, perGroup, CpuSlot(stride, perGroup, cpu)) == cpu
  {
    assert cpu < perGroup * stride;
    DivBelow(cpu, perGroup, stride);
    var group, place := cpu % stride, cpu / stride;
    GroupBelow(place, group, perGroup, stride);
    assert place + group * perGroup < stride * perGroup;
    DivUnique(group * perGroup + place, perGroup, group, place);
  }

  // ---------------------------------------------------------------------------------------
  // When a cluster fits
  // ---------------------------------------------------------------------------------------

  /** Every core gets a CPU of the machine, and no two cores share one. */
  ghost predicate Fits(cores: nat, stride: nat, smp: nat, nodes: nat) {
    && (forall n: nat, c: nat | n < nodes && c < smp :: OnMachine(cores, CpusetCpu(cores, stride, smp, n, c)))
    && (forall n: nat, c: nat, n': nat, c': nat
          | n < nodes && c < smp && n' < nodes && c' < smp
          :: CpusetCpu(cores, stride, smp, n, c) == CpusetCpu(cores, stride, smp, n', c') ==> n == n' && c == c')
  }

  predicate OnMachine(cores: nat, p: Placement<nat>) {
    p.Placed? && p.value < cores
  }

  /** What a caller can compute beforehand: the cores fill no more than the whole groups, or every
    * group holds a single slot and there are enough CPUs. */
  predicate Enough(cores: nat, stride: nat, smp: nat, nodes: nat) {
    || nodes * smp == 0
    || (stride > 0 && cores / stride > 0 && nodes * smp <= stride * (cores / stride))
    || (stride > 0 && cores / stride == 1 && nodes * smp <= cores)
  }

  lemma SlotBelow(smp: nat, nodes: nat, n: nat, c: nat)
    requires n < nodes && c < smp
    ensures n * smp + c < nodes * smp
  {
    AtLeastOne(nodes, n, smp);
  }

  lemma SlotDetermines(smp: nat, n: nat, c: nat, n': nat, c': nat)
    requires c < smp && c' < smp && n * smp + c == n' * smp + c'
    ensures n == n' && c == c'
  {
    DivUnique(n * smp + c, smp, n, c);
    DivUnique(n * smp + c, smp, n', c');
  }

  lemma GroupsWithinMachine(cores: nat, stride: nat)
    requires stride > 0
    ensures stride * (cores / stride) <= cores
  {
    assert cores == cores / stride * stride + cores % stride;
  }

  lemma SingleSlotGroups(stride: nat, slot: nat)
    ensures SlotCpu(stride, 1, slot) == slot
  {
    DivUnique(slot, 1, slot, 0);
  }

  /** A slot's CPU is on the machine, and the CPU determines the slot. */
  lemma EnoughSlots(cores: nat, stride: nat, total: nat, slot: nat)
    requires stride > 0 && cores / stride > 0 && slot < total
    requires total <= stride * (cores / stride) || (cores / stride == 1 && total <= cores)
    ensures SlotCpu(stride, cores / stride, slot) < cores
    ensures forall other: nat | other < total ::
      SlotCpu(stride, cores / stride, slot) == SlotCpu(stride, cores / stride, other) ==> slot == other
  {
    var perGroup := cores / stride;
    if total <= stride * perGroup {
      GroupsWithinMachine(cores, stride);
      SlotsInvert(stride, perGroup, slot);
      forall other: nat | other < total
        ensures CpuSlot(stride, perGroup, SlotCpu(stride, perGroup, other)) == other
      {
        SlotsInvert(stride, perGroup, other);
      }
    } else {
      forall other: nat | other < total
        ensures SlotCpu(stride, perGroup, other) == other
      {
        SingleSlotGroups(stride, other);
      }
    }
  }

  lemma EnoughForPair(cores: nat, stride: nat, smp: nat, nodes: nat, n: nat, c: nat, n': nat, c': nat)
    requires Enough(cores, stride, smp, nodes) && n < nodes && c < smp && n' < nodes && c' < smp
    ensures OnMachine(cores, CpusetCpu(cores, stride, smp, n, c))
    ensures CpusetCpu(cores, stride, smp, n, c) == CpusetCpu(cores, stride, smp, n', c') ==> n == n' && c == c'
  {
    hide SlotCpu;
    SlotBelow(smp, nodes, n, c);
    SlotBelow(smp, nodes, n', c');
    EnoughSlots(cores, stride, nodes * smp, n * smp + c);
    if n * smp + c == n' * smp + c' {
      SlotDetermines(smp, n, c, n', c');
    }
  }

  lemma EnoughFits(cores: nat, stride: nat, smp: nat, nodes: nat)
    requires Enough(cores, stride, smp, nodes)
    ensures Fits(cores, stride, smp, nodes)
  {
    hide SlotCpu, Enough, CpusetCpu, OnMachine;
    forall n: nat, c: nat, n': nat, c': nat
      | n < nodes && c < smp && n' < nodes && c' < smp
      ensures OnMachine(cores, CpusetCpu(cores, stride, smp, n, c))
      ensures CpusetCpu(cores, stride, smp, n, c) == CpusetCpu(cores, stride, smp, n', c') ==> n == n' && c == c'
    {
      EnoughForPair(cores, stride, smp, nodes, n, c, n', c');
    }
  }

  /** Every slot below `nodes * smp` is the slot of some core. */
  lemma SlotHasCore(smp: nat, nodes: nat, slot: nat) returns (n: nat, c: nat)
    requires slot < nodes * smp
    ensures n < nodes && c < smp && n * smp + c == slot
  {
    assert smp > 0;
    n, c := slot / smp, slot % smp;
    DivBelow(slot, nodes, smp);
  }

  /** Beyond the whole groups, a group of several slots meets the second slot of the first group. */
  lemma OverflowCollides(stride: nat, perGroup: nat)
    requires stride > 0 && perGroup > 1
    ensures 1 < stride * perGroup
    ensures SlotCpu(stride, perGroup, stride * perGroup) == SlotCpu(stride, perGroup, 1)
  {
    AtLeastOne(stride, 0, perGroup);
    DivUnique(stride * perGroup, perGroup, stride, 0);
    DivUnique(1, perGroup, 0, 1);
  }

  /** Two slots in use share a CPU only if they are the same slot. */
  lemma FittingSlots(cores: nat, stride: nat, smp: nat, nodes: nat, slot: nat, other: nat)
    requires Fits(cores, stride, smp, nodes) && slot < nodes * smp && other < nodes * smp
    ensures stride > 0 && cores / stride > 0
    ensures SlotCpu(stride, cores / stride, slot) < cores
    ensures SlotCpu(stride, cores / stride, slot) == SlotCpu(stride, cores / stride, other) ==> slot == other
  {
    hide SlotCpu;
    var n, c := SlotHasCore(smp, nodes, slot);
    var n', c' := SlotHasCore(smp, nodes, other);
    assert OnMachine(cores, CpusetCpu(cores, stride, smp, n, c));
    assert CpusetCpu(cores, stride, smp, n, c) == CpusetCpu(cores, stride, smp, n', c') ==> n == n' && c == c';
  }

  lemma FitsIsEnough(cores: nat, stride: nat, smp: nat, nodes: nat)
    requires Fits(cores, stride, smp, nodes)
    ensures Enough(cores, stride, smp, nodes)
  {
    hide SlotCpu, Fits;
    var total := nodes * smp;
    if total > 0 {
      FittingSlots(cores, stride, smp, nodes, 0, 0);
      var perGroup := cores / stride;
      if perGroup == 1 {
        SingleSlotGroups(stride, cores);
        if total > cores {
          FittingSlots(cores, stride, smp, nodes, cores, cores);
        }
      } else {
        OverflowCollides(stride, perGroup);
        if total > stride * perGroup {
          FittingSlots(cores, stride, smp, nodes, stride * perGroup, 1);
        }
      }
    }
  }

  /** A cluster fits its machine exactly when it is small enough. */
  lemma FitsExactly(cores: nat, stride: nat, smp: nat, nodes: nat)
    ensures Fits(cores, stride, smp, nodes) <==> Enough(cores, stride, smp, nodes)
  {
    if Enough(cores, stride, smp, nodes) {
      EnoughFits(cores, stride, smp, nodes);
    }
    if Fits(cores, stride, smp, nodes) {
      FitsIsEnough(cores, stride, smp, nodes);
    }
  }

  // ---------------------------------------------------------------------------------------
  // A node's list of CPUs
  // ---------------------------------------------------------------------------------------

  lemma {:induction false} FirstCpusAre(cores: nat, stride: nat, smp: nat, node: nat, n: nat)
    ensures FirstCpus(cores, stride, smp, node, n).DivisionByZero?
            <==> n > 0 && (stride == 0 || cores < stride)
    ensures FirstCpus(cores, stride, smp, node, n).Placed? ==>
              var cpus := FirstCpus(cores, stride, smp, node, n).value;
              |cpus| == n && forall c: nat | c < n :: CpusetCpu(cores, stride, smp, node, c) == Placed(cpus[c])
  {
    if stride > 0 {
      if cores < stride {
        DivUnique(cores, stride, 0, cores);
      } else {
        GroupsFrom(cores, stride);
      }
    }
    if n > 0 {
      FirstCpusAre(cores, stride, smp, node, n - 1);
    }
  }

  lemma GroupsFrom(cores: nat, stride: nat)
    requires 0 < stride <= cores
    ensures cores / stride > 0
  {
    assert cores == cores / stride * stride + cores % stride;
  }

  /** In a cluster that fits, every node gets a list of its own CPUs: as many as it has cores, all
    * different, all on the machine and none of them on another node's list. */
  lemma NodesGetTheirOwnCpus(cores: nat, stride: nat, smp: nat, nodes: nat, n: nat, n': nat)
    requires Enough(cores, stride, smp, nodes) && n < nodes && n' < nodes
    ensures NodeCpus(cores, stride, smp, n).Placed? && NodeCpus(cores, stride, smp, n').Placed?
    ensures
      var own, other := NodeCpus(cores, stride, smp, n).value, NodeCpus(cores, stride, smp, n').value;
      && |own| == smp
      && (forall c: nat | c < smp :: own[c] < cores)
      && (forall c: nat, c': nat | c < |own| && c' < |other| :: own[c] == other[c'] ==> n == n' && c == c')
  {
    EnoughFits(cores, stride, smp, nodes);
    FirstCpusAre(cores, stride, smp, n, smp);
    FirstCpusAre(cores, stride, smp, n', smp);
    if smp > 0 {
      assert OnMachine(cores, CpusetCpu(cores, stride, smp, n, 0));
      assert stride > 0;
      if cores < stride {
        DivUnique(cores, stride, 0, cores);
      }
    }
    hide SlotCpu, Enough;
    var own, other := NodeCpus(cores, stride, smp, n).value, NodeCpus(cores, stride, smp, n').value;
    forall c: nat | c < smp
      ensures own[c] < cores
    {
      assert OnMachine(cores, CpusetCpu(cores, stride, smp, n, c));
    }
    forall c: nat, c': nat | c < |own| && c' < |other| && own[c] == other[c']
      ensures n == n' && c == c'
    {
      assert CpusetCpu(cores, stride, smp, n, c) == CpusetCpu(cores, stride, smp, n', c');
    }
  }

  /** Within a group, neighbouring slots are `stride` CPUs apart. */
  lemma NeighboursAreStrideApart(stride: nat, perGroup: nat, slot: nat)
    requires perGroup > 0 && slot / perGroup == (slot + 1) / perGroup
    ensures SlotCpu(stride, perGroup, slot + 1) == SlotCpu(stride, perGroup, slot) + stride
  {
    DivStep(slot, perGroup);
    assert (slot % perGroup + 1) * stride == slot % perGroup * stride + stride;
  }

  /** With stride one the nodes take consecutive runs of CPUs. */
  lemma StrideOneIsContiguous(cores: nat, smp: nat, node: nat, core: nat)
    requires core < smp && node * smp + core < cores
    ensures CpusetCpu(cores, 1, smp, node, core) == Placed(node * smp + core)
  {
    DivUnique(cores, 1, cores, 0);
    DivUnique(node * smp + core, cores, 0, node * smp + core);
  }

  // ---------------------------------------------------------------------------------------
  // The list as text
  // ---------------------------------------------------------------------------------------

  /** The numbers, separated by commas. */
  function Joined(cpus: seq<nat>): string {
    if cpus == [] then ""
    else if |cpus| == 1 then DecimalNat(cpus[0])
    else Joined(cpus[..|cpus| - 1]) + "," + DecimalNat(cpus[|cpus| - 1])
  }

  /** What the node is told. */
  function NodeText(cores: nat, stride: nat, smp: nat, node: nat): Placement<string> {
    match NodeCpus(cores, stride, smp, node)
    case DivisionByZero => DivisionByZero
    case Placed(cpus) => Placed(Joined(cpus))
  }

  /** The last number stands behind the last comma. */
  lemma LastComma(cpus: seq<nat>)
    requires |cpus| > 1
    ensures var front, text := Joined(cpus[..|cpus| - 1]), Joined(cpus);
            && |front| < |text| && text[|front|] == ',' && text[..|front|] == front
            && text[|front| + 1..] == DecimalNat(cpus[|cpus| - 1])
            && forall j :: |front| < j < |text| ==> text[j] != ','
  {
    var front, last, text := Joined(cpus[..|cpus| - 1]), DecimalNat(cpus[|cpus| - 1]), Joined(cpus);
    assert text == front + "," + last;
    forall j | |front| < j < |text|
      ensures text[j] != ','
    {
      assert text[j] == last[j - |front| - 1] && IsDigit(last[j - |front| - 1]);
    }
  }

  lemma SingleNumber(cpus: seq<nat>)
    requires |cpus| == 1
    ensures |Joined(cpus)| > 0 && forall j :: 0 <= j < |Joined(cpus)| ==> IsDigit(Joined(cpus)[j])
  {
  }

  /** The text tells the numbers. */
  lemma {:induction false} JoinedInjective(a: seq<nat>, b: seq<nat>)
    requires Joined(a) == Joined(b)
    ensures a == b
    decreases |a|
  {
    hide DecimalNat;
    if |a| > 1 && |b| > 1 {
      LastComma(a);
      LastComma(b);
      var f, g := Joined(a[..|a| - 1]), Joined(b[..|b| - 1]);
      assert |f| == |g|;
      JoinedInjective(a[..|a| - 1], b[..|b| - 1]);
      DecimalNatInjective(a[|a| - 1], b[|b| - 1]);
      SplitLast(a);
      SplitLast(b);
    } else {
      if |a| > 1 { LastComma(a); }
      if |b| > 1 { LastComma(b); }
      if |a| == 1 { SingleNumber(a); }
      if |b| == 1 { SingleNumber(b); }
      if |a| == 1 && |b| == 1 { DecimalNatInjective(a[0], b[0]); }
    }
  }

  /** The first number stands first. */
  lemma {:induction false} JoinedStarts(cpu: nat, cpus: seq<nat>)
    requires cpus != []
    ensures Joined([cpu] + cpus) == DecimalNat(cpu) + "," + Joined(cpus)
  {
    hide DecimalNat;
    var all, n := [cpu] + cpus, |cpus|;
    assert all[..n] == [cpu] + cpus[..n - 1];
    if n == 1 {
      assert all[..1] == [cpu] && Joined([cpu]) == DecimalNat(cpu);
    } else {
      JoinedStarts(cpu, cpus[..n - 1]);
    }
  }

  /** In a cluster that fits, different nodes are told different CPUs. */
  lemma NodesAreToldApart(cores: nat, stride: nat, smp: nat, nodes: nat, n: nat, n': nat)
    requires Enough(cores, stride, smp, nodes) && n < nodes && n' < nodes && n != n' && smp > 0
    ensures var own, other := NodeText(cores, stride, smp, n), NodeText(cores, stride, smp, n');
            own.Placed? && other.Placed? && own != other
  {
    NodesGetTheirOwnCpus(cores, stride, smp, nodes, n, n');
    NodesGetTheirOwnCpus(cores, stride, smp, nodes, n', n);
    hide NodeCpus, Joined, Enough;
    var own, other := NodeCpus(cores, stride, smp, n).value, NodeCpus(cores, stride, smp, n').value;
    if Joined(own) == Joined(other) {
      JoinedInjective(own, other);
    }
  }
}
