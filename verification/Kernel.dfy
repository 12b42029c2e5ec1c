/** The memory side of the kernel as a machine: processes start, fork, write, fault and exit, and the
    kernel takes and gives back frames of its own. Every run is a run of processes with private memories. */
module Kernel {
  import opened Options
  import opened Frames
  import opened PageTable
  import opened Cloning
  import opened Mapping
  import opened TableWalk
  import opened AddressSpace
  import opened Vma
  import opened CopyOnWrite
  import opened Rights
  import opened Permissions
  import opened KernelHalf
  import opened Clearing
  import opened MemoryCalls

  /** A system, the references the kernel holds itself, per frame, and its half of every address space. */
  datatype Config = Config(s: Sys, ext: seq<nat>, kern: Kern)

  datatype Event =
    | Spawn(areas: seq<Area>)
    | Fork(i: nat)
    | ForkFail(i: nat)
    | Write(i: nat, a: nat, b: Byte)
    | PageFault(i: nat, a: nat)
    | Exit(i: nat)
    | Mmap(i: nat, v: Area)
    | MmapFail(i: nat, v: Area)
    | Munmap(i: nat, lo: nat, n: nat)
    | Mprotect(i: nat, lo: nat, n: nat, write: bool, exec: bool)
    | Take(nf: nat)
    | Drop(f: nat)

  /** munmap and mprotect where they may be called; the kernel does not give up its own tables. */
  ghost predicate Step(c: Config, e: Event, c': Config) {
    c'.kern == c.kern &&
    match e
    case Spawn(areas) => Spawns(c.s, areas, c'.s) && NewTopOf(c, c'.s) && c'.ext == c.ext
    case Fork(i) => Forks(c.s, i, c'.s) && c'.ext == c.ext
    case ForkFail(i) => ForkFails(c.s, i, c'.s) && c'.ext == c.ext
    case Write(i, a, b) => Writes(c.s, i, a, b, c'.s) && c'.ext == c.ext
    case PageFault(i, a) => c'.ext == c.ext && exists f, s1, s2 :: Faults(c.s, i, a, f, s1, s2, c'.s)
    case Exit(i) => Exits(c.s, i, c'.s) && c'.ext == c.ext
    case Mmap(i, v) => c'.ext == c.ext && exists list, s1 :: Mmaps(c.s, i, v, list, s1, c'.s)
    case MmapFail(i, v) => c'.ext == c.ext && exists s1, t :: MmapFails(c.s, i, v, s1, t, c'.s)
    case Munmap(i, lo, n) =>
      && c'.ext == c.ext && Frames.Valid(c.s.pmm)
      && exists s1 :: Unmaps(c.s, i, lo, n, s1, c'.s) && MayUnmap(c.s, i, lo, n)
    case Mprotect(i, lo, n, write, exec) =>
      c'.ext == c.ext && exists s1 :: Protects(c.s, i, lo, n, write, exec, s1, c'.s) && MayProtect(c.s, i, lo, n, write)
    case Take(nf) =>
      nf < |c.ext| && c'.ext == c.ext[nf := 1] && exists page :: Takes(c.s, nf, page, c'.s)
    case Drop(f) =>
      && f < |c.ext| && c.ext[f] > 0 && f !in c.kern.tables && c'.ext == c.ext[f := c.ext[f] - 1]
      && Drops(c.s, f, c'.s)
  }

  /** The last process has the kernel half of the kernel's own top-level table. */
  ghost predicate NewTopOf(c: Config, s': Sys) {
    |s'.procs| > 0 && s'.procs[|s'.procs| - 1].Alive? &&
    forall j :: USER_ENTRIES <= j < ENTRIES ==>
      TableOf(s'.mem, s'.procs[|s'.procs| - 1].root)[j] == TableOf(c.s.mem, c.kern.root)[j]
  }

  ghost predicate Run(cs: seq<Config>, es: seq<Event>) {
    |cs| == |es| + 1 && forall k :: 0 <= k < |es| ==> Step(cs[k], es[k], cs[k + 1])
  }

  // ---------- The specification: one private memory per process ----------

  type Memories = seq<nat -> Byte>

  function Apply(m: Memories, e: Event): (m': Memories) {
    match e
    case Spawn(_) => m + [(x: nat) => 0]
    case Fork(i) => if i < |m| then m + [m[i]] else m
    case Write(i, a, b) =>
      if i < |m| then
        var f := m[i];
        m[i := (x: nat) => if x == a then b else f(x)]
      else m
    case Munmap(i, lo, n) =>
      if i < |m| then
        var f := m[i];
        m[i := (x: nat) => if OnWay(lo, n, PathOf(x)) then 0 else f(x)]
      else m
    case _ => m
  }

  function ApplyAll(m: Memories, es: seq<Event>): (m': Memories) {
    if es == [] then m else Apply(ApplyAll(m, es[..|es| - 1]), es[|es| - 1])
  }

  /** Every process reads its private addresses as in its own memory. */
  ghost predicate Agrees(s: Sys, m: Memories) {
    |m| == |s.procs| && forall i: nat, x: nat :: Private(s, i, x) ==> m[i](x) == Read(s, i, x)
  }

  /** Every step keeps the books right and the kernel half as it should be. */
  lemma StepKeepsGood(c: Config, e: Event, c': Config)
    requires Good(c.s, c.ext, c.kern) && Step(c, e, c')
    ensures Good(c'.s, c'.ext, c'.kern)
  {
    hide Inv, Intact, Rightful, Spared, Spares, Spawns, Forks, ForkFails, Writes, Faults, Exits, Takes, Drops, Unmaps,
      Protects, MayProtect, Mmaps, MmapFails, MayUnmap, Frames.Valid, NewTopOf;
    var s, s', ext, kern := c.s, c'.s, c.ext, c.kern;
    IntactSpared(s, ext, kern);
    match e {
      case Spawn(areas) => SpawnStep(c, areas, c');
      case Fork(i) => ForkStep(c, i, c');
      case ForkFail(i) =>
        ForkFailsKeepsInv(s, ext, i, s');
        ForkFailRights(s, ext, i, s');
        ForkFailSpares(s, ext, i, s', kern.tables);
        ForkFailSize(s, i, s');
        SparedGood(s, ext, kern, s');
      case Write(i, a, b) =>
        WriteKeepsInv(s, ext, i, a, b, s');
        WriteSpares(s, ext, i, a, b, s', kern.tables);
        WriteSize(s, i, a, b, s');
        SameTablesRights(s, s');
        SparedGood(s, ext, kern, s');
      case PageFault(i, a) =>
        var f, s1, s2 :| Faults(s, i, a, f, s1, s2, s');
        FaultGood(s, ext, kern, i, a, f, s1, s2, s');
      case Exit(i) =>
        ExitKeepsInv(s, ext, i, s');
        ExitSpares(s, ext, i, s', kern.tables);
        ExitSize(s, i, s');
        SameTablesRights(s, s');
        SparedGood(s, ext, kern, s');
      case Mmap(i, v) =>
        var list, s1 :| Mmaps(s, i, v, list, s1, s');
        MmapKeeps(s, ext, kern, i, v, list, s1, s');
      case MmapFail(i, v) =>
        var s1, t :| MmapFails(s, i, v, s1, t, s');
        MmapFailKeeps(s, ext, kern, i, v, s1, t, s');
      case Munmap(i, lo, n) =>
        var s1 :| Unmaps(s, i, lo, n, s1, s');
        UnmapKeeps(s, ext, kern, i, lo, n, s1, s');
      case Mprotect(i, lo, n, write, exec) =>
        var s1 :| Protects(s, i, lo, n, write, exec, s1, s');
        ProtectGood(s, ext, kern, i, lo, n, write, exec, s1, s');
      case Take(nf) =>
        var page :| Takes(s, nf, page, s');
        TakeStep(c, nf, page, c');
      case Drop(f) => DropStep(c, f, c');
    }
  }

  lemma SpawnStep(c: Config, areas: seq<Area>, c': Config)
    requires Good(c.s, c.ext, c.kern) && Step(c, Spawn(areas), c')
    ensures Good(c'.s, c'.ext, c'.kern)
  {
    hide Inv, Spares, Rightful;
    SpawnKeepsInv(c.s, c.ext, areas, c'.s);
    SpawnRights(c.s, c.ext, areas, c'.s);
    IntactSpared(c.s, c.ext, c.kern);
    SpawnSpares(c.s, c.ext, areas, c'.s, c.kern.tables);
    InvValid(c.s, c.ext);
    KernelRoot(c.s, c.ext, c.kern);
    var root := c'.s.procs[|c.s.procs|].root;
    forall j | USER_ENTRIES <= j < ENTRIES
      ensures TableOf(c'.s.mem, root)[j] == TableOf(c.kern.mem, c.kern.root)[j]
    {
      assert TableOf(c'.s.mem, root)[j] == TableOf(c.s.mem, c.kern.root)[j];
    }
    SparedIntact(c.s, c.ext, c.kern, c'.s, c'.ext);
  }

  lemma KernelRoot(s: Sys, ext: seq<nat>, kern: Kern)
    requires Good(s, ext, kern)
    ensures 0 < kern.root < |s.pmm.used| == |s.mem| == |s.pmm.rc| == |kern.mem| && s.pmm.used[kern.root]
    ensures kern.root in kern.tables && s.mem[kern.root] == kern.mem[kern.root]
  {
    hide Inv;
  }

  lemma ForkStep(c: Config, i: nat, c': Config)
    requires Good(c.s, c.ext, c.kern) && Step(c, Fork(i), c')
    ensures Good(c'.s, c'.ext, c'.kern)
  {
    hide Inv, Spares, SpaceCloned, Rightful;
    ForkKeepsInv(c.s, c.ext, i, c'.s);
    ForkRights(c.s, c.ext, i, c'.s);
    IntactSpared(c.s, c.ext, c.kern);
    ForkSpares(c.s, c.ext, i, c'.s, c.kern.tables);
    InvValid(c.s, c.ext);
    assert SameTop(c.kern, c.s.mem, c.s.procs[i].root);
    SparedIntact(c.s, c.ext, c.kern, c'.s, c'.ext);
  }

  lemma ForkFailSize(s: Sys, i: nat, s': Sys)
    requires ForkFails(s, i, s')
    ensures |s'.procs| == |s.procs|
  {
  }

  lemma WriteSize(s: Sys, i: nat, a: nat, b: Byte, s': Sys)
    requires Writes(s, i, a, b, s')
    ensures |s'.procs| == |s.procs| && s'.mem == s.mem && s'.procs == s.procs
  {
  }

  lemma ExitSize(s: Sys, i: nat, s': Sys)
    requires Exits(s, i, s')
    ensures |s'.procs| == |s.procs| && s'.mem == s.mem
    ensures forall j :: 0 <= j < |s.procs| && s'.procs[j].Alive? ==> s'.procs[j] == s.procs[j]
  {
  }

  lemma TakeStep(c: Config, nf: nat, page: Page, c': Config)
    requires Good(c.s, c.ext, c.kern) && Step(c, Take(nf), c') && Takes(c.s, nf, page, c'.s)
    ensures Good(c'.s, c'.ext, c'.kern)
  {
    hide Inv, Spares, Rightful;
    TakeKeepsInv(c.s, c.ext, nf, page, c'.s);
    TakeRights(c.s, c.ext, nf, page, c'.s);
    IntactSpared(c.s, c.ext, c.kern);
    TakeSpares(c.s, c.ext, nf, page, c'.s, c.kern.tables);
    InvValid(c.s, c.ext);
    SparedIntact(c.s, c.ext, c.kern, c'.s, c'.ext);
  }

  lemma DropStep(c: Config, f: nat, c': Config)
    requires Good(c.s, c.ext, c.kern) && Step(c, Drop(f), c')
    ensures Good(c'.s, c'.ext, c'.kern)
  {
    hide Inv, Spares, Rightful;
    DropKeepsInv(c.s, c.ext, f, c'.s);
    SameTablesRights(c.s, c'.s);
    InvSize(c.s, c.ext);
    InvValid(c.s, c.ext);
    DropSpares(c.s, f, c'.s, c.kern.tables);
    SparedIntact(c.s, c.ext, c.kern, c'.s, c'.ext);
  }

  /** One step of the machine is one step of the private memories. */
  lemma StepAgrees(c: Config, e: Event, c': Config, m: Memories)
    requires Good(c.s, c.ext, c.kern) && Step(c, e, c') && Agrees(c.s, m)
    ensures Agrees(c'.s, Apply(m, e))
  {
    hide Inv, Intact, Rightful, Read, SharedAt, SpaceCloned, FaultEffect, Unmaps, Protects, MayProtect, Mmaps,
      MmapFails, MayUnmap, OnWay, PathOf, Frames.Valid, NewTopOf;
    StepSize(c, e, c', m);
    forall k: nat, x: nat | Private(c'.s, k, x)
      ensures Apply(m, e)[k](x) == Read(c'.s, k, x)
    {
      match e {
        case Spawn(areas) => SpawnReads(c.s, c.ext, areas, c'.s, k, x);
        case Fork(i) => ForkReads(c.s, c.ext, i, c'.s, k, x);
        case ForkFail(i) => WeakerReads(c.s, c.ext, c'.s, k, x);
        case Write(i, a, b) => WriteIsPrivate(c.s, c.ext, i, a, b, c'.s, k, x);
        case PageFault(i, a) =>
          var f, s1, s2 :| Faults(c.s, i, a, f, s1, s2, c'.s);
          FaultProcs(c.s, c.ext, i, a, f, s1, s2, c'.s);
          FaultKeeps(c.s, c.ext, i, a, f, s1, s2, c'.s);
          assert Private(c.s, k, x);
        case Exit(i) => ExitKeepsReads(c.s, c.ext, i, c'.s, k, x);
        case Mmap(i, v) =>
          var list, s1 :| Mmaps(c.s, i, v, list, s1, c'.s);
          MmapKeeps(c.s, c.ext, c.kern, i, v, list, s1, c'.s);
        case MmapFail(i, v) =>
          var s1, t :| MmapFails(c.s, i, v, s1, t, c'.s);
          MmapFailKeeps(c.s, c.ext, c.kern, i, v, s1, t, c'.s);
        case Munmap(i, lo, n) =>
          var s1 :| Unmaps(c.s, i, lo, n, s1, c'.s);
          UnmapReads(c.s, c.ext, c.kern, i, lo, n, s1, c'.s, k, x);
        case Mprotect(i, lo, n, write, exec) =>
          var s1 :| Protects(c.s, i, lo, n, write, exec, s1, c'.s);
          ProtectReads(c.s, c.ext, i, lo, n, write, exec, s1, c'.s, k, x);
        case Take(nf) =>
          var page :| Takes(c.s, nf, page, c'.s);
          TakeKeepsReads(c.s, c.ext, nf, page, c'.s, k, x);
        case Drop(f) => DropReads(c.s, f, c'.s, k, x);
      }
    }
  }

  lemma DropReads(s: Sys, f: nat, s': Sys, k: nat, x: nat)
    requires Drops(s, f, s') && Private(s', k, x)
    ensures Private(s, k, x) && Read(s', k, x) == Read(s, k, x)
  {
  }

  lemma FaultProcs(s: Sys, ext: seq<nat>, i: nat, a: nat, c: Fault, s1: Sys, s2: Sys, s': Sys)
    requires Faults(s, i, a, c, s1, s2, s')
    ensures s'.procs == s.procs
  {
    hide Mapped, Walked, Walk, PathOf;
  }

  lemma StepSize(c: Config, e: Event, c': Config, m: Memories)
    requires Good(c.s, c.ext, c.kern) && Step(c, e, c') && |m| == |c.s.procs|
    ensures |Apply(m, e)| == |c'.s.procs|
  {
    hide Inv, Intact, Rightful, Mapped, Walked, Walk, PathOf, SpaceCloned, Unmaps, Protects, MayProtect, Mmaps,
      MmapFails, MayUnmap, OnWay, Frames.Valid, NewTopOf;
    match e
    case PageFault(i, a) =>
      var f, s1, s2 :| Faults(c.s, i, a, f, s1, s2, c'.s);
      FaultProcs(c.s, c.ext, i, a, f, s1, s2, c'.s);
    case Mmap(i, v) =>
      var list, s1 :| Mmaps(c.s, i, v, list, s1, c'.s);
      MmapKeeps(c.s, c.ext, c.kern, i, v, list, s1, c'.s);
    case MmapFail(i, v) =>
      var s1, t :| MmapFails(c.s, i, v, s1, t, c'.s);
      MmapFailKeeps(c.s, c.ext, c.kern, i, v, s1, t, c'.s);
    case Munmap(i, lo, n) =>
      var s1 :| Unmaps(c.s, i, lo, n, s1, c'.s);
      UnmapKeeps(c.s, c.ext, c.kern, i, lo, n, s1, c'.s);
    case Mprotect(i, lo, n, write, exec) =>
      var s1 :| Protects(c.s, i, lo, n, write, exec, s1, c'.s);
      ProtectSize(c.s, c.ext, i, lo, n, write, exec, s1, c'.s);
    case _ =>
  }

  /** Copy-on-write isolation. In every run, every process reads every private address exactly as if
      it had its own memory, copied by each fork and changed by its own writes only; and no process ever
      changes the kernel half. */
  lemma {:induction false} Isolation(cs: seq<Config>, es: seq<Event>, m: Memories)
    requires Run(cs, es) && Good(cs[0].s, cs[0].ext, cs[0].kern) && Agrees(cs[0].s, m)
    ensures Good(cs[|es|].s, cs[|es|].ext, cs[0].kern)
    ensures Agrees(cs[|es|].s, ApplyAll(m, es))
    decreases |es|
  {
    hide Good, Agrees, Step;
    RunKern(cs, es);
    if es != [] {
      var n := |es| - 1;
      Isolation(cs[..n + 1], es[..n], m);
      RunKern(cs[..n + 1], es[..n]);
      StepKeepsGood(cs[n], es[n], cs[n + 1]);
      StepAgrees(cs[n], es[n], cs[n + 1], ApplyAll(m, es[..n]));
    }
  }

  lemma {:induction false} RunKern(cs: seq<Config>, es: seq<Event>)
    requires Run(cs, es)
    ensures cs[|es|].kern == cs[0].kern
    decreases |es|
  {
    hide Step;
    if es != [] {
      var n := |es| - 1;
      RunKern(cs[..n + 1], es[..n]);
      StepKern(cs[n], es[n], cs[n + 1]);
    }
  }

  lemma StepKern(c: Config, e: Event, c': Config)
    requires Step(c, e, c')
    ensures c'.kern == c.kern
  {
  }

  /** Process j reads byte b at address a. */
  predicate Gets(s: Sys, j: nat, a: nat, b: Byte) {
    j < |s.procs| && s.procs[j].Alive? && Read(s, j, a) == b
  }

  /** What sys_mprotect does to copy-on-write: after a fork, the parent makes a page writable that it still
      has in common with its child, and the child reads what the parent writes. */
  lemma ProtectBreaks(s: Sys, ext: seq<nat>, m: Memories, i: nat, s1: Sys, a: nat, exec: bool, s2: Sys, s3: Sys,
                      b: Byte, s': Sys)
    requires Private(s, i, a) && Walk(s.mem, s.procs[i].root, PathOf(a)).Some? && !Gets(s, i, a, b)
    requires Inv(s, ext) && Agrees(s, m) && Forks(s, i, s1)
    requires Protects(s1, i, PageStart(a), 1, true, exec, s2, s3) && Writes(s3, i, a, b, s')
    ensures var es := [Fork(i), Mprotect(i, PageStart(a), 1, true, exec), Write(i, a, b)];
            Gets(s', |s.procs|, a, b) && !Agrees(s', ApplyAll(m, es))
  {
    hide Inv, Walk, PathOf, SharedAt, Read, Protects, Writes, SpaceCloned;
    var child := |s.procs|;
    ForkKeepsInv(s, ext, i, s1);
    PageBase(a);
    ForkPage(s, ext, i, s1, i, PathOf(a));
    ForkPage(s, ext, i, s1, child, PathOf(a));
    assert Private(s1, child, a);
    ProtectShares(s1, ext, i, a, exec, s2, s3, b, s', child, a);
    ThreeEvents(m, i, a, exec, b);
  }

  lemma ThreeEvents(m: Memories, i: nat, a: nat, exec: bool, b: Byte)
    requires i < |m|
    ensures var es := [Fork(i), Mprotect(i, PageStart(a), 1, true, exec), Write(i, a, b)];
            |ApplyAll(m, es)| == |m| + 1 && ApplyAll(m, es)[|m|] == m[i]
  {
    var e1, e2, e3 := Fork(i), Mprotect(i, PageStart(a), 1, true, exec), Write(i, a, b);
    assert [e1, e2, e3][..2] == [e1, e2] && [e1, e2][..1] == [e1] && [e1][..0] == [];
    assert ApplyAll(m, [e1]) == Apply(ApplyAll(m, []), e1);
    assert ApplyAll(m, [e1, e2]) == Apply(ApplyAll(m, [e1]), e2);
    assert ApplyAll(m, [e1, e2, e3]) == Apply(ApplyAll(m, [e1, e2]), e3);
  }

  /** The kernel as it starts its first process: every reference is its own, and its tables are in use, most of
      them reserved since the boot loader made them. */
  ghost predicate Boots(c: Config) {
    && c.s.procs == [] && c.ext == c.s.pmm.rc && |c.s.mem| == |c.s.ram| == |c.s.pmm.rc| == |c.kern.mem|
    && Shaped(c.kern) && |c.s.pmm.used| == |c.s.mem|
    && (forall t :: t in c.kern.tables ==> 0 < t < |c.s.mem| && c.s.pmm.used[t] && c.s.mem[t] == c.kern.mem[t])
  }

  /** The invariant holds before the first process. */
  lemma BootGood(c: Config)
    requires Boots(c) && Frames.Valid(c.s.pmm)
    ensures Good(c.s, c.ext, c.kern) && Agrees(c.s, [])
  {
    hide Shaped;
  }

  /** Isolation from the first process on: whatever happens after boot, every process reads its private
      memory as if it had always been alone. */
  lemma IsolationFromBoot(cs: seq<Config>, es: seq<Event>)
    requires Run(cs, es) && Boots(cs[0]) && Frames.Valid(cs[0].s.pmm)
    ensures Good(cs[|es|].s, cs[|es|].ext, cs[0].kern) && Agrees(cs[|es|].s, ApplyAll([], es))
  {
    hide Run, Good, Agrees, Frames.Valid, Boots, ApplyAll;
    RunSize(cs, es);
    BootGood(cs[0]);
    Isolation(cs, es, []);
  }

  /** What user code loads, past all tables on the way: the byte of its private memory, if the page is there. */
  lemma LoadsFromBoot(cs: seq<Config>, es: seq<Event>, i: nat, a: nat)
    requires Run(cs, es) && Boots(cs[0]) && Frames.Valid(cs[0].s.pmm) && Private(cs[|es|].s, i, a)
    ensures var s, m := cs[|es|].s, ApplyAll([], es);
            i < |m| && Loads(s, i, a) == if Walk(s.mem, s.procs[i].root, PathOf(a)).Some? then Some(m[i](a)) else None
  {
    hide Run, Inv, Intact, Rightful, Frames.Valid, Boots, ApplyAll, Walk, Loads, Read;
    RunSize(cs, es);
    IsolationFromBoot(cs, es);
    LoadIsRead(cs[|es|].s, cs[|es|].ext, i, a);
  }

  lemma RunSize(cs: seq<Config>, es: seq<Event>)
    requires Run(cs, es)
    ensures |cs| == |es| + 1
  {
  }

  /** No leaks: when the last process is gone, exactly the kernel's own references are left. */
  lemma NoLeaks(s: Sys, ext: seq<nat>)
    requires Inv(s, ext) && forall i :: 0 <= i < |s.procs| ==> s.procs[i].Dead?
    ensures forall g :: 0 < g < |s.pmm.rc| ==> s.pmm.rc[g] == ext[g]
  {
    forall g | 0 < g < |s.pmm.rc|
      ensures s.pmm.rc[g] == ext[g]
    {
      DeadRefs(s.mem, s.procs, g);
    }
  }

  lemma {:induction false} DeadRefs(mem: Memory, procs: seq<Proc>, g: nat)
    requires forall i :: 0 <= i < |procs| ==> procs[i].Dead?
    ensures TotalRefs(mem, procs, g) == 0
  {
    if procs != [] {
      DeadRefs(mem, procs[..|procs| - 1], g);
    }
  }

  /** What user code can write is never a page table nor a frame of the kernel's. */
  lemma WritableIsOwn(s: Sys, ext: seq<nat>, i: nat, p: Path, j: nat, q: seq<Index>)
    requires Inv(s, ext) && i < |s.procs| && s.procs[i].Alive? && UserPath(p)
    requires j < |s.procs| && s.procs[j].Alive? && Inner(q, USER_ENTRIES)
    requires var r := Walk(s.mem, s.procs[i].root, p); r.Some? && r.value.flags.writable && !r.value.flags.shared
    ensures var f := Walk(s.mem, s.procs[i].root, p).value.frame;
            0 < f < |ext| && ext[f] == 0 && TableAt(s.mem, s.procs[j].root, 4, q) != Some(f)
  {
    hide NoMixing, SharedAt, RefsUpTo;
    var r, root := Walk(s.mem, s.procs[i].root, p), s.procs[j].root;
    assert PageOk(s, s.procs[i], p);
    MappedCounted(s, ext, i, p);
    TotalOne(s.mem, s.procs, i, r.value.frame);
    if TableAt(s.mem, root, 4, q) == Some(r.value.frame) {
      InvOwned(s, ext, j);
      if q != [] {
        TableRef(s.mem, root, 4, q);
        OneRef(s.mem, root, 4, USER_ENTRIES, q);
      }
      if i != j {
        HeldTwice(s, ext, i, j, r.value.frame);
      } else {
        assert ProcSound(s, s.procs[i]);
        LeafRef(s.mem, Singles(s.pmm.rc), root, USER_ENTRIES, p);
        OneRef(s.mem, root, 4, USER_ENTRIES, p);
        if q != [] {
          TwoRefs(s.mem, root, 4, USER_ENTRIES, p, q);
        }
      }
    }
  }

  // ---------- The code takes these steps ----------

  lemma RootNotKernel(s: Sys, ext: seq<nat>, kern: Kern, i: nat)
    requires Good(s, ext, kern) && i < |s.procs| && s.procs[i].Alive?
    ensures s.procs[i].root != kern.root && s.procs[i].root != 0
    ensures 0 < kern.root < |s.pmm.used| == |s.mem| == |s.pmm.rc| && s.pmm.used[kern.root]
  {
    hide PagesOk, NoMixing, RefsUpTo, Intact;
    assert ProcSound(s, s.procs[i]);
    KernelRoot(s, ext, kern);
    IntactSpared(s, ext, kern);
    SparedRefs(s, ext, kern.tables, kern.root, i);
  }

  /** An owned address space can be cloned. */
  lemma OwnedUserRoot(s: State, root: nat)
    requires Owned(s, root)
    ensures UserRoot(s, root)
  {
    forall g | 0 < g < |s.rc|
      ensures RefsUpTo(s.mem, root, 4, USER_ENTRIES, g) <= s.rc[g]
    {
      assert SpaceRefs(s.mem, root, g) <= s.rc[g];
    }
    forall j | 0 <= j < USER_ENTRIES
      ensures EntryRooted(s.mem, s.mem[root][j], 4)
    {
      assert EntrySound(s.mem, Singles(s.rc), TableOf(s.mem, root)[j], 4);
      SoundRooted(s.mem, Singles(s.rc), s.mem[root][j], 4);
    }
  }

  lemma {:induction false} SoundRooted(mem: Memory, tables: set<nat>, e: Pte, level: nat)
    requires EntrySound(mem, tables, e, level) && forall t :: t in tables ==> 0 < t < |mem|
    ensures EntryRooted(mem, e, level)
    decreases level
  {
    if Branches(e, level) {
      forall i | 0 <= i < ENTRIES
        ensures EntryRooted(mem, mem[e.frame][i], level - 1)
      {
        assert EntrySound(mem, tables, TableOf(mem, e.frame)[i], level - 1);
        SoundRooted(mem, tables, mem[e.frame][i], level - 1);
      }
    }
  }

  /** A clone that is dropped again leaves every reference count as it was. */
  lemma CloneThenFree(s0: State, s: State, rc: seq<nat>, src: nat, root: nat)
    requires SpaceCloned(s0, s, src, root) && |rc| == |s.rc| && rc[0] == s.rc[0]
    requires forall g :: 0 < g < |rc| ==> rc[g] == s.rc[g] - SpaceRefs(s.mem, root, g)
    ensures rc == s0.rc
  {
    hide Copied, Held, Aside, Sound;
    assert forall g :: 0 <= g < |rc| ==> rc[g] == s0.rc[g];
  }

  /** The faults that are not for the handler: reads of present pages, kernel addresses, addresses
      outside all areas, and writes that the area does not allow. */
  predicate Refused(areas: seq<Area>, addr: nat, present: bool, write: bool) {
    || (present && !write) || addr >= USER_LIMIT || Find(areas, addr).None?
    || (write && !Find(areas, addr).value.flags.writable)
  }

  /** Serving a fault at the address takes a frame: its page is not there, or others hold its frame. */
  ghost predicate NeedsFrame(s: Sys, i: nat, a: nat)
    requires i < |s.procs| && s.procs[i].Alive?
  {
    var r := Walk(s.mem, s.procs[i].root, PathOf(a));
    r.None? || (r.value.frame < |s.pmm.rc| && s.pmm.rc[r.value.frame] > 1)
  }

  /** The page of the address is mapped as its area asks for. */
  ghost predicate PageFor(mem: Memory, pr: Proc, addr: nat)
    requires pr.Alive?
  {
    HasFlags(Walk(mem, pr.root, PathOf(addr)), Find(pr.areas, addr))
  }

  /** So the processor sees it, with all tables on the way. */
  ghost predicate MappedFor(mem: Memory, pr: Proc, addr: nat)
    requires pr.Alive?
  {
    HasFlags(Access(mem, pr.root, PathOf(addr)), Find(pr.areas, addr))
  }

  /** Under the second root user code may use every page as it could under the first, but may write it only if it is
      shared. */
  ghost predicate SameUse(mem0: Memory, root0: nat, mem: Memory, root: nat) {
    forall p: Path :: UserPath(p) ==>
      var r, q := Access(mem0, root0, p), Access(mem, root, p);
      && q.Some? == r.Some?
      && (r.Some? ==>
            var f := r.value.flags;
            q.value == Pte(r.value.frame, f.(writable := f.writable && f.shared)))
  }

  /** The last process uses its pages so, and so does the parent now. */
  ghost predicate BothUse(mem0: Memory, parent: Proc, mem: Memory, procs: seq<Proc>)
    requires parent.Alive?
  {
    && |procs| > 0 && procs[|procs| - 1].Alive?
    && SameUse(mem0, parent.root, mem, parent.root) && SameUse(mem0, parent.root, mem, procs[|procs| - 1].root)
  }

  lemma DownUse(mem0: Memory, root0: nat, mem: Memory, root: nat)
    requires forall p: Path :: UserPath(p) ==> Access(mem, root, p) == Down(Access(mem0, root0, p))
    requires forall p: Path :: UserPath(p) && Access(mem0, root0, p).Some? ==> Access(mem0, root0, p).value.Present()
    ensures SameUse(mem0, root0, mem, root)
  {
    hide Access;
  }

  lemma ForkUse(s: Sys, ext: seq<nat>, i: nat, s': Sys)
    requires Inv(s, ext) && Rightful(s) && Forks(s, i, s')
    ensures BothUse(s.mem, s.procs[i], s'.mem, s'.procs)
  {
    hide Inv, Rightful, SpaceCloned, RamKept, Access, Frames.Valid, Walk, SameUse;
    ForkRights(s, ext, i, s');
    var child, root := s'.procs[|s.procs|].root, s.procs[i].root;
    forall p: Path | UserPath(p)
      ensures Access(s.mem, root, p).Some? ==> Access(s.mem, root, p).value.Present()
      ensures Access(s'.mem, child, p) == Down(Access(s.mem, root, p))
      ensures Access(s'.mem, root, p) == Down(Access(s.mem, root, p))
    {
      AccessIsPage(s, i, p);
      AccessIsPage(s', i, p);
      ForkAccess(s, ext, i, s', p);
      ForkPages(s, i, s', p);
      WalkPresent(s.mem, root, p);
    }
    DownUse(s.mem, root, s'.mem, root);
    DownUse(s.mem, root, s'.mem, child);
  }

  lemma ForkPages(s: Sys, i: nat, s': Sys, p: Path)
    requires Forks(s, i, s') && UserPath(p)
    ensures Walk(s'.mem, s.procs[i].root, p) == Down(Walk(s.mem, s.procs[i].root, p))
  {
    hide Walk, Sound, RefsUpTo, Held, Aside, SourceTop, Shadows;
  }

  lemma WalkPresent(mem: Memory, root: nat, p: Path)
    ensures Walk(mem, root, p).Some? ==> Walk(mem, root, p).value.Present()
  {
    WalkEntryPresent(mem, TableOf(mem, root)[p[0]], p);
  }

  lemma {:induction false} WalkEntryPresent(mem: Memory, e: Pte, p: Path)
    ensures WalkEntry(mem, e, p).Some? ==> WalkEntry(mem, e, p).value.Present()
    decreases |p|
  {
    if |p| > 1 && Branches(e, |p|) {
      WalkEntryPresent(mem, TableOf(mem, e.frame)[p[1]], p[1..]);
    }
  }

  class Machine {
    const t: Tables
    ghost const kern: Kern
    var ram: seq<Page>
    var procs: seq<Proc>

    constructor (t: Tables, ram: seq<Page>, procs: seq<Proc>, ghost kern: Kern)
      ensures this.t == t && this.ram == ram && this.procs == procs && this.kern == kern
    {
      this.t, this.ram, this.procs, this.kern := t, ram, procs, kern;
    }

    ghost function View(): Sys
      reads this, t
    {
      Sys(t.pmm, t.mem, ram, procs)
    }

    ghost predicate Ok(ext: seq<nat>)
      reads this, t
    {
      OkAs(procs, ext)
    }

    /** The same for other processes: while a system call is at work on a process, its areas are given. */
    ghost function ViewAs(ps: seq<Proc>): Sys
      reads this, t
    {
      Sys(t.pmm, t.mem, ram, ps)
    }

    ghost predicate OkAs(ps: seq<Proc>, ext: seq<nat>)
      reads this, t
    {
      Good(ViewAs(ps), ext, kern) && t.Valid() && t.kernelRoot == kern.root
    }

    /** A new process: vmm_create_address_space. Fails exactly when no frame is free. */
    method SpawnProcess(areas: seq<Area>, ghost ext: seq<nat>) returns (ok: bool)
      requires Ok(ext) && AreasOk(areas)
      modifies this`procs, t`pmm, t`mem
      ensures ok ==> Step(Config(old(View()), ext, kern), Spawn(areas), Config(View(), ext, kern))
      ensures ok <==> old(t.pmm).free > 0
      ensures !ok ==> View() == old(View())
      ensures Ok(ext)
    {
      hide Inv, Intact, Rightful, AreasOk, SameReserved, Frames.Valid, NewTop;
      ghost var s := View();
      InvSize(s, ext);
      InvFree(s, ext);
      KernelRoot(s, ext, kern);
      var root := t.CreateAddressSpace();
      ok := root != 0;
      if ok {
        procs := procs + [Alive(root, areas)];
        SpawnDone(s, ext, kern, areas, View());
      }
    }

    /** The end of a process: vmm_free_address_space. */
    method ExitProcess(i: nat, ghost ext: seq<nat>)
      requires Ok(ext) && i < |procs| && procs[i].Alive?
      modifies this`procs, t`pmm
      ensures Step(Config(old(View()), ext, kern), Exit(i), Config(View(), ext, kern)) && Ok(ext)
    {
      hide Inv, Intact, Rightful, Owned, SpaceRefs, Sound;
      ghost var s := View();
      RootNotKernel(s, ext, kern, i);
      InvOwned(s, ext, i);
      OwnedFacts(s.St(), procs[i].root);
      t.FreeAddressSpace(procs[i].root, Singles(t.pmm.rc));
      procs := procs[i := Dead];
      StepKeepsGood(Config(s, ext, kern), Exit(i), Config(View(), ext, kern));
    }

    /** A store by user code: done by the hardware if the page is present and writable. */
    method Store(i: nat, a: nat, b: Byte, ghost ext: seq<nat>) returns (ok: bool)
      requires Ok(ext) && i < |procs| && procs[i].Alive? && a < USER_LIMIT
      modifies this`ram
      ensures ok <==> exists e: Pte ::
                Walk(t.mem, procs[i].root, PathOf(a)) == Some(e) && e.flags.writable && e.frame < |ram|
      ensures ok ==> Step(Config(old(View()), ext, kern), Write(i, a, b), Config(View(), ext, kern))
      ensures !ok ==> View() == old(View())
      ensures Ok(ext)
    {
      hide Inv, Intact, Rightful, Access;
      ghost var s := View();
      AccessIsPage(s, i, PathOf(a));
      var r := Access(t.mem, procs[i].root, PathOf(a));
      ok := r.Some? && r.value.flags.user && r.value.flags.writable && r.value.frame < |ram|;
      if ok {
        ram := ram[r.value.frame := ram[r.value.frame][a % 4096 := b]];
        StepKeepsGood(Config(s, ext, kern), Write(i, a, b), Config(View(), ext, kern));
      }
    }

    /** process_fork, as far as memory is concerned, when malloc has room for `nodes` more list nodes. */
    method ForkProcess(i: nat, nodes: nat, ghost ext: seq<nat>) returns (r: Outcome)
      requires Ok(ext) && i < |procs| && procs[i].Alive?
      modifies this`procs, t`pmm, t`mem
      ensures r == Done ==> Step(Config(old(View()), ext, kern), Fork(i), Config(View(), ext, kern)) && Ok(ext)
      ensures r == Done ==> |old(procs)[i].areas| <= nodes
      ensures r == Done ==> BothUse(old(t.mem), old(procs)[i], t.mem, procs)
      ensures r == Failed ==> Step(Config(old(View()), ext, kern), ForkFail(i), Config(View(), ext, kern)) && Ok(ext)
      ensures r == Failed ==> t.pmm.used == old(t.pmm.used) && t.pmm.free == old(t.pmm.free)
      ensures r == Panic ==> !CountsFit(old(t.St()), old(procs)[i].root)
      ensures r == Failed && |old(procs)[i].areas| <= nodes ==>
                old(t.pmm).free < FRAME_SIZE * SpaceTables(old(t.mem), old(procs)[i].root)
      ensures r == Done ==>
                t.pmm.free == old(t.pmm).free - FRAME_SIZE * SpaceTables(old(t.mem), old(procs)[i].root) >= 0
    {
      hide Inv, Intact, Rightful, Owned, SpaceCloned, UserRoot, Clonable, Held, Aside, SameReserved, Frames.Valid,
        CountsFit, Step, SpaceTables, BothUse;
      ghost var s, pmm0 := View(), t.pmm;
      InvSize(s, ext);
      RootNotKernel(s, ext, kern, i);
      InvOwned(s, ext, i);
      OwnedUserRoot(s.St(), procs[i].root);
      OwnedClonable(s.St(), procs[i].root);
      var root;
      r, root := t.CloneAddressSpace(procs[i].root);
      if r == Panic {
        return;
      }
      if r == Failed {
        CountsDecide(pmm0, t.pmm);
        FailedFork(s, ext, kern, i, View());
        return;
      }
      var areas := CloneList(procs[i].areas, nodes);
      if procs[i].areas != [] && areas == [] {
        ghost var s1, pmm1 := View(), t.pmm;
        ClonedFacts(s.St(), s1.St(), procs[i].root, root, t.kernelRoot);
        t.FreeAddressSpace(root, Fresh(s.pmm.rc, t.pmm.rc));
        CloneThenFree(s.St(), s1.St(), t.pmm.rc, procs[i].root, root);
        SameReservedTransitive(pmm0, pmm1, t.pmm);
        CountsDecide(pmm0, t.pmm);
        DroppedFork(s, ext, kern, i, root, s1, View());
        return Failed;
      }
      procs := procs + [Alive(root, areas)];
      DoneFork(s, ext, kern, i, View());
      ForkUse(s, ext, i, View());
    }

    /** vmm_handle_page_fault for process i: true if the access can be retried. */
    method HandlePageFault(i: nat, addr: nat, present: bool, write: bool, ghost ext: seq<nat>) returns (ok: bool)
      requires Ok(ext) && i < |procs| && procs[i].Alive?
      modifies this`ram, t`pmm, t`mem
      ensures Step(Config(old(View()), ext, kern), PageFault(i, addr), Config(View(), ext, kern)) && Ok(ext)
      ensures Refused(procs[i].areas, addr, present, write) ==> !ok && View() == old(View())
      ensures !ok ==> Refused(procs[i].areas, addr, present, write) ||
                      (old(t.pmm).free < 4 * FRAME_SIZE && NeedsFrame(old(View()), i, addr))
      ensures ok ==> MappedFor(t.mem, procs[i], addr)
    {
      hide Inv, Intact, Rightful, Faults, FaultEffect, Walk, PathOf, PagePhys, Owned, TreeOk, PageFor;
      ghost var s := View();
      Ignore(s, ext, kern, i, addr);
      if (present && !write) || addr >= USER_LIMIT {
        return false;
      }
      var found := Find(procs[i].areas, addr);
      if found.None? || (write && !found.value.flags.writable) {
        return false;
      }
      var v := found.value;
      var phys := PagePhys(t.mem, procs[i].root, addr);
      FaultStart(s, ext, i, addr);
      FrameMapped(s, ext, i, addr);
      if phys == 0 {
        ok := DemandZero(i, addr, v, ext);
      } else if v.kind == Shared {
        ok := ReflagShared(i, addr, v, ext);
      } else {
        ok := BreakSharing(i, addr, v, phys / 4096, ext);
      }
      if ok {
        ServedAs(View(), ext, kern, i, addr);
      }
    }

    /** The branch for a page that is not there yet. */
    method DemandZero(i: nat, addr: nat, v: Area, ghost ext: seq<nat>) returns (ok: bool)
      requires Ok(ext) && i < |procs| && procs[i].Alive? && addr < USER_LIMIT
      requires Find(procs[i].areas, addr) == Some(v)
      requires PagePhys(t.mem, procs[i].root, addr) == 0
      modifies this`ram, t`pmm, t`mem
      ensures Step(Config(old(View()), ext, kern), PageFault(i, addr), Config(View(), ext, kern)) && Ok(ext)
      ensures ok ==> PageFor(t.mem, procs[i], addr)
      ensures !ok ==> old(t.pmm).free < 4 * FRAME_SIZE
    {
      hide Inv, Intact, Rightful, Owned, MapsPage, TreeOk, Walk, PathOf, SameReserved, Frames.Valid, PagePhys, Step,
        BuildsTables;
      ghost var s := View();
      FaultStart(s, ext, i, addr);
      var nf := t.AllocTable();
      if nf == 0 {
        Ignore(s, ext, kern, i, addr);
        return false;
      }
      ram := ram[nf := ZeroPage()];
      ghost var s1 := View();
      ok := MapTaken(i, addr, v, nf, ZeroPage(), s, ext);
      if ok {
        MapsLeaf(s, ext, nf, ZeroPage(), s1, i, PathOf(addr), Pte(nf, MapFlags(v)), View());
        Chosen(s, ext, kern, i, addr, Zeroed(nf), s1, s1, View());
      }
    }

    /** The branch for a private page that is there: others hold its frame, or nobody else does. */
    method BreakSharing(i: nat, addr: nat, v: Area, frame: nat, ghost ext: seq<nat>) returns (ok: bool)
      requires Ok(ext) && i < |procs| && procs[i].Alive? && addr < USER_LIMIT && v.kind != Shared
      requires Find(procs[i].areas, addr) == Some(v)
      requires PagePhys(t.mem, procs[i].root, addr) == frame * 4096 > 0
      modifies this`ram, t`pmm, t`mem
      ensures Step(Config(old(View()), ext, kern), PageFault(i, addr), Config(View(), ext, kern)) && Ok(ext)
      ensures ok ==> PageFor(t.mem, procs[i], addr)
      ensures !ok ==> frame < |old(t.pmm).rc| && old(t.pmm).rc[frame] > 1 && old(t.pmm).free < 4 * FRAME_SIZE
    {
      hide Inv, Intact, Rightful, Owned, MapsPage, TreeOk, Walk, PathOf, SameReserved, Frames.Valid, PagePhys, Step,
        BuildsTables;
      hide Mapped, Walked, DecRef;
      ghost var s := View();
      FaultStart(s, ext, i, addr);
      if frame < |t.pmm.rc| && t.pmm.rc[frame] > 1 {
        var nf := t.AllocTable();
        if nf == 0 {
          Ignore(s, ext, kern, i, addr);
          return false;
        }
        var page := ram[frame];
        ram := ram[nf := page];
        ghost var s1 := View();
        ok := MapTaken(i, addr, v, nf, page, s, ext);
        if ok {
          ghost var s2 := View();
          MapsLeaf(s, ext, nf, page, s1, i, PathOf(addr), Pte(nf, MapFlags(v)), s2);
          MapsHeld(s1, i, PathOf(addr), Pte(nf, MapFlags(v)), s2, frame);
          t.pmm := DecRef(t.pmm, frame);
          Chosen(s, ext, kern, i, addr, CopiedTo(nf), s1, s2, View());
        }
      } else {
        OwnedUnmarked(s.St(), procs[i].root, PathOf(addr));
        var r := t.MapPage(procs[i].root, addr, frame, MapFlags(v), USER_ENTRIES);
        ok := r == Done;
        MapsDone(s, i, PathOf(addr), Pte(frame, MapFlags(v)), View());
        MapsLeafDirect(s, ext, i, PathOf(addr), Pte(frame, MapFlags(v)), View());
        Chosen(s, ext, kern, i, addr, Reused, s, s, View());
      }
    }

    /** The branch for a shared page that is there. */
    method ReflagShared(i: nat, addr: nat, v: Area, ghost ext: seq<nat>) returns (ok: bool)
      requires Ok(ext) && i < |procs| && procs[i].Alive? && addr < USER_LIMIT && v.kind == Shared
      requires Find(procs[i].areas, addr) == Some(v)
      requires PagePhys(t.mem, procs[i].root, addr) != 0
      modifies t`pmm, t`mem
      ensures Step(Config(old(View()), ext, kern), PageFault(i, addr), Config(View(), ext, kern)) && Ok(ext)
      ensures ok
      ensures PageFor(t.mem, procs[i], addr)
    {
      hide Inv, Intact, Rightful, Owned, MapsPage, TreeOk, Walk, PathOf, SameReserved, Frames.Valid, Step,
        BuildsTables, Walked, Mapped;
      ghost var s := View();
      FaultStart(s, ext, i, addr);
      ghost var free := t.pmm.free;
      ghost var e := t.SetPageFlags(procs[i].root, addr, MapFlags(v), USER_ENTRIES);
      ok := true;
      if Reflagged(s.St(), View().St(), procs[i].root, USER_ENTRIES, PathOf(addr), MapFlags(v), e) {
        ReflaggedMaps(s.St(), View().St(), procs[i].root, PathOf(addr), MapFlags(v), e);
        ResharedFlags(s, ext, i, v, PathOf(addr), View(), e);
        MapsDone(s, i, PathOf(addr), e, View());
        MapsLeafDirect(s, ext, i, PathOf(addr), e, View());
        Chosen(s, ext, kern, i, addr, Reshared(e), s, s, View());
      } else {
        StuckMapped(s.St(), View().St(), free, procs[i].root, PathOf(addr));
        assert false;
      }
    }

    /** Mapping a frame just taken; if that fails, giving it back. */
    method MapTaken(i: nat, addr: nat, v: Area, nf: nat, page: Page, ghost s: Sys, ghost ext: seq<nat>)
      returns (ok: bool)
      requires Good(s, ext, kern) && t.Valid() && t.kernelRoot == kern.root
      requires Takes(s, nf, page, View()) && i < |procs| && procs[i].Alive? && addr < USER_LIMIT
      requires Find(procs[i].areas, addr) == Some(v)
      modifies t`pmm, t`mem
      ensures t.Valid()
      ensures ok ==> MapsPage(old(View()), i, PathOf(addr), Pte(nf, MapFlags(v)), View())
      ensures !ok ==> Step(Config(s, ext, kern), PageFault(i, addr), Config(View(), ext, kern)) && Ok(ext)
      ensures !ok ==> old(t.pmm).free < 3 * FRAME_SIZE
    {
      hide Inv, Intact, Rightful, Owned, MapsPage, TreeOk, Walk, PathOf, SameReserved, Frames.Valid, Step,
        BuildsTables, Walked, Mapped;
      hide DecRef;
      ghost var s1 := View();
      InvSize(s, ext);
      TakeKeepsInv(s, ext, nf, page, s1);
      FaultStart(s1, ext[nf := 1], i, addr);
      OwnedUnmarked(s1.St(), procs[i].root, PathOf(addr));
      var r := t.MapPage(procs[i].root, addr, nf, MapFlags(v), USER_ENTRIES);
      ok := r == Done;
      ghost var s2 := View();
      if ok {
        MapsDone(s1, i, PathOf(addr), Pte(nf, MapFlags(v)), s2);
      } else {
        BuildsDone(s1, i, s2);
        BuildsHeld(s1, i, s2, nf);
        t.pmm := DecRef(t.pmm, nf);
        Chosen(s, ext, kern, i, addr, Undone(nf, page), s1, s2, View());
      }
    }

    /** One page of munmap_process_range, at any address. */
    method ClearOne(root: nat, virt: nat, ghost i: nat, ghost ps: seq<Proc>, ghost ext: seq<nat>)
      returns (ghost mid: Sys)
      requires t.Valid() && root > 0 && virt % 4096 == 0
      modifies t`pmm, t`mem
      ensures t.Valid()
      ensures old(OkAs(ps, ext)) && i < |ps| && ps[i].Alive? && ps[i].root == root ==>
                Clears(old(ViewAs(ps)), i, PathOf(virt), mid, ViewAs(ps))
    {
      hide Inv, Intact, Rightful, Walk, PathOf, VirtToPhys, Owned, TreeOk, MapsPage, SameReserved, Frames.Valid,
        DecRef, Walked, Mapped, Stuck, UnmapCost;
      ghost var s, p := ViewAs(ps), PathOf(virt);
      ghost var ok := OkAs(ps, ext) && i < |ps| && ps[i].Alive? && ps[i].root == root;
      mid := s;
      PhysAt(t.mem, root, virt);
      EitherPath(p);
      var phys := VirtToPhys(t.mem, root, virt);
      if phys != 0 {
        ghost var hi := if UserPath(p) then USER_ENTRIES else ENTRIES;
        if ok {
          ClearStart(s, ext, kern, i, p);
        }
        ghost var free := t.pmm.free;
        t.UnmapPage(root, virt, hi);
        mid := ViewAs(ps);
        if ok && UserPath(p) {
          Unmapped(s, ext, i, p, free, mid);
          UnmappedFree(s, ext, i, p, mid);
        }
        t.pmm := DecRef(t.pmm, phys / 4096);
      }
    }

    /** The last loop of munmap_process_range, which also undoes a SYS_MMAP. */
    method ClearAll(root: nat, addr: nat, n: nat, ghost i: nat, ghost ps: seq<Proc>, ghost ext: seq<nat>)
      returns (ghost us: seq<Sys>)
      requires t.Valid() && t.kernelRoot == kern.root && root > 0 && addr % 4096 == 0
      requires i < |ps| && ps[i].Alive? && ps[i].root == root
      modifies t`pmm, t`mem
      ensures t.Valid() && |us| == n + 1 && us[0] == old(ViewAs(ps)) && us[n] == ViewAs(ps)
      ensures Passes(us, ext, kern, i, addr)
    {
      hide Good, Clears, PathOf, Frames.Valid;
      us := [ViewAs(ps)];
      for k := 0 to n
        invariant t.Valid() && |us| == k + 1 && us[0] == old(ViewAs(ps)) && us[k] == ViewAs(ps)
        invariant Passes(us, ext, kern, i, addr)
      {
        ghost var u := ViewAs(ps);
        ghost var v := ClearOne(root, addr + 4096 * k, i, ps, ext);
        PassesNext(us, ext, kern, i, addr, v, ViewAs(ps));
        us := us + [ViewAs(ps)];
      }
    }

    /** munmap_process_range; `splitOk` says whether malloc succeeds when an area is split. `us` are the states
        the pages go through, with the areas as they were. */
    method Munmap(i: nat, addr: nat, length: nat, splitOk: bool, ghost ext: seq<nat>)
      returns (ok: bool, ghost us: seq<Sys>)
      requires Ok(ext) && i < |procs| && procs[i].Alive?
      modifies this`procs, t`pmm, t`mem
      ensures t.Valid()
      ensures !ok ==> View() == old(View())
      ensures var areas, end := old(procs)[i].areas, addr + 4096 * Pages(length);
              ok <==> addr != 0 && length != 0 && addr % 4096 == 0 && length <= U64 - 4096 && end < U64 &&
                      !MeetsFixed(areas, addr, end) && (splitOk || forall v :: v in areas ==> !Inside(v, addr, end))
      ensures ok ==> |us| == Pages(length) + 1 && us[0] == old(View()) && Passes(us, ext, kern, i, addr)
      ensures ok ==> var areas := Cuts(old(procs)[i].areas, addr, addr + 4096 * Pages(length));
                     View() == us[Pages(length)].(procs := old(procs)[i := Alive(old(procs)[i].root, areas)])
      ensures ok ==> ((forall j :: 0 <= j < |us| ==> Good(us[j], ext, kern)) <==>
                      MayUnmap(old(View()), i, addr, Pages(length)))
      ensures ok && MayUnmap(old(View()), i, addr, Pages(length)) ==>
                Step(Config(old(View()), ext, kern), Event.Munmap(i, addr, Pages(length)), Config(View(), ext, kern))
      ensures !ok || MayUnmap(old(View()), i, addr, Pages(length)) ==> Ok(ext)
    {
      hide Inv, Intact, Rightful, Cuts, MeetsFixed, Inside, Step, Sorted, MayUnmap, Passes, Frames.Valid, Pages;
      ghost var s := View();
      us := [s];
      InvValid(s, ext);
      if addr == 0 || length == 0 || addr % 4096 != 0 || length > U64 - 4096 {
        return false, us;
      }
      SomePages(length);
      var n := Pages(length);
      var end := addr + 4096 * n;
      if end >= U64 {
        return false, us;
      }
      var fixed := AnyFixed(procs[i].areas, addr, end);
      if fixed {
        return false, us;
      }
      var list := new AreaList(procs[i].areas);
      InvAreas(s, ext, i);
      ok := list.Unmap(addr, end, splitOk);
      if !ok {
        return;
      }
      RootNotKernel(s, ext, kern, i);
      us := ClearAll(procs[i].root, addr, n, i, procs, ext);
      ghost var s1 := View();
      procs := procs[i := Alive(procs[i].root, list.list)];
      UnmapExact(us, ext, kern, i, addr, n);
      if MayUnmap(s, i, addr, n) {
        PassClears(us, ext, kern, i, addr, n);
        UnmapDone(s, ext, kern, i, addr, n, s1, View());
      }
    }

    /** One page of sys_mprotect: the walk to a mapped page of an owned address space never fails. */
    method ReflagOne(i: nat, virt: nat, flags: Flags)
      requires t.Valid() && i < |procs| && procs[i].Alive? && Owned(t.St(), procs[i].root)
      requires virt < USER_LIMIT && virt % 4096 == 0 && flags.user && flags.present
      requires var r := Walk(t.mem, procs[i].root, PathOf(virt)); r.Some? && r.value.frame > 0
      modifies t`pmm, t`mem
      ensures t.Valid() && Reflags(old(View()), i, PathOf(virt), flags, View())
    {
      hide Walk, PathOf, VirtToPhys, Owned, TreeOk, SameReserved, Frames.Valid, Mapped, Walked, TopMarked;
      ghost var s, p := View(), PathOf(virt);
      PageBase(virt);
      OwnedRoot(t.St(), procs[i].root);
      OwnedTree(t.St(), procs[i].root);
      OwnedUnmarked(t.St(), procs[i].root, p);
      PhysAt(t.mem, procs[i].root, virt);
      var phys := VirtToPhys(t.mem, procs[i].root, virt);
      var r := t.MapPage(procs[i].root, virt, phys / 4096, flags, USER_ENTRIES);
      MapsDone(s, i, p, Pte(phys / 4096, flags), View());
    }

    /** The first loop of sys_mprotect. */
    method PagesMapped(i: nat, addr: nat, n: nat, ghost ext: seq<nat>) returns (ok: bool)
      requires Ok(ext) && i < |procs| && procs[i].Alive? && addr % 4096 == 0 && addr + 4096 * n <= USER_LIMIT
      ensures ok <==> AllMapped(View(), i, addr, addr + 4096 * n)
    {
      hide Inv, Intact, Rightful, Walk, PathOf, VirtToPhys, AllMapped;
      RootNotKernel(View(), ext, kern, i);
      NoneMapped(View(), i, addr);
      for k := 0 to n
        invariant AllMapped(View(), i, addr, addr + 4096 * k)
      {
        var a := addr + 4096 * k;
        PhysAt(t.mem, procs[i].root, a);
        FrameMapped(View(), ext, i, a);
        if VirtToPhys(t.mem, procs[i].root, a) == 0 {
          NotAllMapped(View(), i, addr, addr + 4096 * n, a);
          return false;
        }
        PageMapped(View(), i, addr, a);
      }
      return true;
    }

    /** The last loop of sys_mprotect. */
    method ReflagAll(i: nat, addr: nat, n: nat, flags: Flags, ghost ext: seq<nat>)
      requires Ok(ext) && i < |procs| && procs[i].Alive? && addr % 4096 == 0 && addr + 4096 * n <= USER_LIMIT
      requires AllMapped(View(), i, addr, addr + 4096 * n) && flags.user && flags.present && !flags.huge
      modifies t`pmm, t`mem
      ensures t.Valid() && ReflagsTo(old(View()), i, addr, n, flags, View())
    {
      hide Inv, Intact, Rightful, Walk, PathOf, Owned, Reflags, ReflagsTo, Reflagging, AllMapped, Frames.Valid;
      ghost var s := View();
      InvOwned(s, ext, i);
      ReflagsNone(s, i, addr, flags);
      for k := 0 to n
        invariant t.Valid() && ReflagsTo(s, i, addr, k, flags, View())
      {
        ghost var u := View();
        ReflagRange(s, i, addr, k, flags, u);
        StillMapped(s, ext, i, addr, addr + 4096 * k, addr + 4096 * n, flags, u);
        ReflagOne(i, addr + 4096 * k, flags);
        ReflagsNext(s, i, addr, k, flags, u, View());
      }
    }

    /** sys_mprotect: 0, -22 for a bad range, -12 if a page of it is not mapped. */
    method Mprotect(i: nat, addr: nat, len: nat, write: bool, exec: bool, ghost ext: seq<nat>)
      returns (r: int, ghost mid: Sys)
      requires Ok(ext) && i < |procs| && procs[i].Alive?
      modifies this`procs, t`pmm, t`mem
      ensures r == 0 || r == -22 || r == -12
      ensures var end := addr + 4096 * WrappedPages(len);
              && (r == -22 <==> addr % 4096 != 0 || (len != 0 && end >= USER_LIMIT))
              && (r == -12 <==> r != -22 && len != 0 && !AllMapped(old(View()), i, addr, end))
      ensures r != 0 || len == 0 ==> View() == old(View())
      ensures r == 0 && len != 0 ==> Protects(old(View()), i, addr, WrappedPages(len), write, exec, mid, View())
      ensures Ok(ext) <==> r != 0 || len == 0 || MayProtect(old(View()), i, addr, WrappedPages(len), write)
      ensures r == 0 && len != 0 ==> NewRights(View(), i, addr, WrappedPages(len), write, exec)
    {
      hide Inv, Intact, Rightful, ReflagsTo, MayProtect, Retagged, AllMapped, WrappedPages, NewRights;
      ghost var s := View();
      mid := s;
      if addr % 4096 != 0 {
        return -22, s;
      }
      if len == 0 {
        return 0, s;
      }
      var n := WrappedPages(len);
      var end := addr + 4096 * n;
      if end >= USER_LIMIT {
        return -22, s;
      }
      var ok := PagesMapped(i, addr, n, ext);
      if !ok {
        return -12, s;
      }
      var areas := RetagAll(procs[i].areas, addr, end, ProtFlags(write, exec));
      ReflagAll(i, addr, n, ProtFlags(write, exec), ext);
      mid := View();
      procs := procs[i := Alive(procs[i].root, areas)];
      ProtectExact(s, ext, i, addr, n, write, exec, mid, View());
      ProtectServes(s, ext, i, addr, n, write, exec, mid, View());
      if MayProtect(s, i, addr, n, write) {
        ProtectGood(s, ext, kern, i, addr, n, write, exec, mid, View());
      }
      r := 0;
    }

    /** One page of SYS_MMAP: a frame is taken, mapped and zeroed, or given back. */
    method FillOne(root: nat, virt: nat, v: Area, ghost i: nat, ghost ps: seq<Proc>, ghost ext: seq<nat>)
      returns (ok: bool, ghost c: Fault, ghost w1: Sys, ghost w2: Sys)
      requires OkAs(ps, ext) && i < |ps| && ps[i].Alive? && ps[i].root == root && virt < USER_LIMIT
      requires Find(ps[i].areas, virt) == Some(v) && Walk(t.mem, root, PathOf(virt)) == None
      modifies this`ram, t`pmm, t`mem
      ensures OkAs(ps, ext) && Faults(old(ViewAs(ps)), i, virt, c, w1, w2, ViewAs(ps))
      ensures ok ==> c.Zeroed? && w1 == w2
      ensures !ok ==> (c.Ignored? || c.Undone?) && old(t.pmm).free < 4 * FRAME_SIZE
      ensures t.pmm.free >= old(t.pmm).free - 4 * FRAME_SIZE
    {
      hide Inv, Intact, Rightful, TreeOk, Walk, PathOf, SameReserved, Frames.Valid, FaultEffect, Find;
      ghost var s := ViewAs(ps);
      c, w1, w2 := Ignored, s, s;
      FaultStart(s, ext, i, virt);
      var nf := t.AllocTable();
      if nf == 0 {
        return false, c, w1, w2;
      }
      ok, c, w1, w2 := MapFilled(root, virt, v, nf, i, s, ext);
      FaultGood(s, ext, kern, i, virt, c, w1, w2, ViewAs(ps));
    }

    /** The part of it after pmm_alloc_frame. */
    method MapFilled(root: nat, virt: nat, v: Area, nf: nat, ghost i: nat, ghost s: Sys, ghost ext: seq<nat>)
      returns (ok: bool, ghost c: Fault, ghost w1: Sys, ghost w2: Sys)
      requires Good(s, ext, kern) && t.Valid() && nf < |ram| && Takes(s, nf, ram[nf], ViewAs(s.procs))
      requires i < |s.procs| && s.procs[i].Alive? && s.procs[i].root == root && virt < USER_LIMIT
      requires Walk(s.mem, root, PathOf(virt)) == None
      modifies this`ram, t`pmm, t`mem
      ensures t.Valid() && UserPath(PathOf(virt)) && FaultEffect(s, i, v, PathOf(virt), c, w1, w2, ViewAs(s.procs))
      ensures ok ==> c.Zeroed? && w1 == w2
      ensures !ok ==> c.Undone? && old(t.pmm).free < 3 * FRAME_SIZE
      ensures t.pmm.free >= old(t.pmm).free - 3 * FRAME_SIZE
    {
      hide Inv, Intact, Rightful, Owned, MapsPage, TreeOk, Walk, PathOf, SameReserved, Frames.Valid, BuildsTables,
        Walked, Mapped, DecRef, TopMarked, NeedsFrames, Find, AddrOf;
      ghost var s1, p := ViewAs(s.procs), PathOf(virt);
      InvSize(s, ext);
      TakeKeepsInv(s, ext, nf, ram[nf], s1);
      FaultStart(s1, ext[nf := 1], i, virt);
      OwnedUnmarked(s1.St(), root, p);
      var r := t.MapPage(root, virt, nf, MapFlags(v), USER_ENTRIES);
      ok := r == Done;
      if ok {
        ram := ram[nf := ZeroPage()];
        c, w1 := Zeroed(nf), s1.(ram := ram);
        w2 := w1;
        MapsDone(w1, i, p, Pte(nf, MapFlags(v)), ViewAs(s.procs));
      } else {
        w1, w2 := s1, ViewAs(s.procs);
        c := Undone(nf, ram[nf]);
        BuildsDone(s1, i, w2);
        BuildsHeld(s1, i, w2, nf);
        t.pmm := DecRef(t.pmm, nf);
      }
    }

    /** The loop of SYS_MMAP over the pages; k of them are filled, and the attempt for the next one is given. */
    method FillAll(root: nat, v: Area, n: nat, ghost i: nat, ghost ps: seq<Proc>, ghost ext: seq<nat>)
      returns (k: nat, ghost filled: Sys, ghost c: Fault, ghost w1: Sys, ghost w2: Sys)
      requires OkAs(ps, ext) && i < |ps| && ps[i].Alive? && ps[i].root == root
      requires NewArea(v) && v.start + 4096 * n == v.end && Ready(ViewAs(ps), i, v)
      modifies this`ram, t`pmm, t`mem
      ensures k <= n && OkAs(ps, ext) && FillsTo(old(ViewAs(ps)), i, v.start, k, filled)
      ensures Faults(filled, i, v.start + 4096 * k, c, w1, w2, ViewAs(ps)) && (c.Ignored? || c.Undone?)
      ensures k == n ==> filled == ViewAs(ps)
      ensures k < n ==> old(t.pmm).free < 4 * FRAME_SIZE * n
    {
      hide Inv, Intact, Rightful, Walk, PathOf, Find, FillsTo, FaultEffect, Ready, Frames.Valid;
      ghost var s, free := ViewAs(ps), t.pmm.free;
      FillsNone(s, i, v.start);
      k := 0;
      while k < n
        invariant k <= n && OkAs(ps, ext) && FillsTo(s, i, v.start, k, ViewAs(ps))
        invariant t.pmm.free >= free - 4 * FRAME_SIZE * k
      {
        filled := ViewAs(ps);
        var a := v.start + 4096 * k;
        StillReady(s, ext, i, v, k, filled, a);
        var ok;
        ok, c, w1, w2 := FillOne(root, a, v, i, ps, ext);
        if !ok {
          return;
        }
        FillsNext(s, i, v.start, k, filled, c.nf, w1, ViewAs(ps));
        k := k + 1;
      }
      filled, c, w1, w2 := ViewAs(ps), Ignored, ViewAs(ps), ViewAs(ps);
    }

    /** SYS_MMAP once it has found a place: the pages, then the area; everything is undone if either fails. */
    method MmapAt(i: nat, v: Area, n: nat, sentinelOk: bool, nodeOk: bool, ghost ext: seq<nat>) returns (ok: bool)
      requires Ok(ext) && i < |procs| && procs[i].Alive? && !v.isCow
      requires NewArea(v) && v.start + 4096 * n == v.end && Vacant(procs[i].areas, v.start, v.end)
      modifies this`procs, this`ram, t`pmm, t`mem
      ensures Ok(ext)
      ensures var e := if ok then Event.Mmap(i, v) else MmapFail(i, v);
              Step(Config(old(View()), ext, kern), e, Config(View(), ext, kern))
      ensures !ok ==> !nodeOk || (old(procs)[i].areas == [] && !sentinelOk) || old(t.pmm).free < 4 * FRAME_SIZE * n
      ensures ok ==> AllServed(View(), i, v)
    {
      hide Inv, Intact, Rightful, FillsTo, ClearsTo, Faults, Ready, Frames.Valid, Step, Inserted, Sorted, Vacant,
        Lookup, AllServed;
      var root, areas := procs[i].root, procs[i].areas;
      ghost var s := View();
      InvAreas(s, ext, i);
      ghost var list := InsertPlace(areas, v);
      ghost var ps := procs[i := Alive(root, list)];
      ghost var s1 := ViewAs(ps);
      AddGood(s, ext, kern, i, v, list, s1);
      RootNotKernel(s, ext, kern, i);
      AddsReady(s, ext, i, v, list, s1);
      ghost var filled, c, w1, w2;
      var k;
      k, filled, c, w1, w2 := FillAll(root, v, n, i, ps, ext);
      ghost var tried := ViewAs(ps);
      var l := new AreaList(areas);
      ok := k == n;
      if ok {
        ok := l.Add(v.start, v.end, v.flags, v.kind, sentinelOk, nodeOk);
      }
      if ok {
        InsertOnce(areas, v, list, l.list);
        procs := procs[i := Alive(root, l.list)];
        MmapDone(s, ext, kern, i, v, list, s1, View());
        FillServes(s1, ext, kern, i, v, View());
      } else {
        ghost var us := ClearAll(root, v.start, k, i, ps, ext);
        UserCleared(us, ext, kern, i, v.start, k);
        ghost var t := Attempt(list, k, filled, c, w1, w2, tried, ViewAs(ps), l.list);
        assert ps[i := Alive(root, l.list)] == procs[i := Alive(root, l.list)];
        procs := procs[i := Alive(root, l.list)];
        MmapFailed(s, ext, kern, i, v, s1, t, View());
      }
    }

    /** SYS_MMAP without a file: the lowest place above 4 GiB and below the stack. */
    method Mmap(i: nat, length: nat, write: bool, sentinelOk: bool, nodeOk: bool, ghost ext: seq<nat>)
      returns (r: Option<nat>)
      requires Ok(ext) && i < |procs| && procs[i].Alive?
      modifies this`procs, this`ram, t`pmm, t`mem
      ensures Ok(ext)
      ensures r.Some? ==>
                && Fits(old(procs)[i].areas, r.value, 4096 * Pages(length))
                && NoneBefore(old(procs)[i].areas, r.value, 4096 * Pages(length))
                && var e := Event.Mmap(i, AnonArea(r.value, length, write));
                   Step(Config(old(View()), ext, kern), e, Config(View(), ext, kern))
      ensures r.Some? ==> NewMemory(View(), i, r.value, length, write)
      ensures r.None? ==>
                || View() == old(View())
                || exists a ::
                     var e := MmapFail(i, AnonArea(a, length, write));
                     Step(Config(old(View()), ext, kern), e, Config(View(), ext, kern))
      ensures r.None? ==>
                || length == 0 || (forall a: nat :: !Fits(old(procs)[i].areas, a, 4096 * Pages(length)))
                || !nodeOk || (old(procs)[i].areas == [] && !sentinelOk)
                || old(t.pmm).free < 4 * FRAME_SIZE * Pages(length)
    {
      hide Inv, Intact, Rightful, Step, NoneBefore, Vacant, Frames.Valid, Access, PathOf, Find;
      if length == 0 {
        return None;
      }
      if length > U64 - 4096 {
        TooLong(procs[i].areas, length);
        return None;
      }
      var gap := FindGap(procs[i].areas, 4096 * Pages(length));
      if gap.None? {
        return None;
      }
      var v := AnonArea(gap.value, length, write);
      var ok := MmapAt(i, v, Pages(length), sentinelOk, nodeOk, ext);
      return if ok then gap else None;
    }
  }

  lemma PhysAt(mem: Memory, root: nat, a: nat)
    requires root != 0 && a % 4096 == 0
    ensures VirtToPhys(mem, root, a) == Phys(Walk(mem, root, PathOf(a)))
  {
    hide VirtToPhys, Walk, PathOf;
    PagePhysIsWalk(mem, root, a);
  }

  lemma MmapDone(s: Sys, ext: seq<nat>, kern: Kern, i: nat, v: Area, list: seq<Area>, s1: Sys, s': Sys)
    requires Good(s, ext, kern) && Mmaps(s, i, v, list, s1, s')
    ensures Step(Config(s, ext, kern), Mmap(i, v), Config(s', ext, kern)) && Good(s', ext, kern)
  {
    hide Good, Mmaps;
    MmapKeeps(s, ext, kern, i, v, list, s1, s');
  }

  lemma MmapFailed(s: Sys, ext: seq<nat>, kern: Kern, i: nat, v: Area, s1: Sys, t: Attempt, s': Sys)
    requires Good(s, ext, kern) && MmapFails(s, i, v, s1, t, s')
    ensures Step(Config(s, ext, kern), MmapFail(i, v), Config(s', ext, kern)) && Good(s', ext, kern)
  {
    hide Good, MmapFails;
    MmapFailKeeps(s, ext, kern, i, v, s1, t, s');
  }

  lemma TooLong(areas: seq<Area>, length: nat)
    requires length > U64 - 4096
    ensures forall a: nat :: !Fits(areas, a, 4096 * Pages(length))
  {
  }

  lemma UnmapDone(s: Sys, ext: seq<nat>, kern: Kern, i: nat, lo: nat, n: nat, s1: Sys, s': Sys)
    requires Good(s, ext, kern) && Frames.Valid(s.pmm) && Unmaps(s, i, lo, n, s1, s') && MayUnmap(s, i, lo, n)
    ensures Step(Config(s, ext, kern), Munmap(i, lo, n), Config(s', ext, kern)) && Good(s', ext, kern)
  {
    hide Good, Unmaps, MayUnmap, Frames.Valid;
    UnmapKeeps(s, ext, kern, i, lo, n, s1, s');
  }

  lemma SomePages(length: nat)
    requires length > 0
    ensures Pages(length) > 0
  {
  }

  lemma SpawnDone(s: Sys, ext: seq<nat>, kern: Kern, areas: seq<Area>, s': Sys)
    requires Good(s, ext, kern) && Spawns(s, areas, s') && NewTopOf(Config(s, ext, kern), s')
    ensures Step(Config(s, ext, kern), Spawn(areas), Config(s', ext, kern)) && Good(s', ext, kern)
  {
    hide Good, Spawns, NewTopOf;
    StepKeepsGood(Config(s, ext, kern), Spawn(areas), Config(s', ext, kern));
  }

  /** What munmap_process_range relies on when it comes to page p. */
  lemma ClearStart(s: Sys, ext: seq<nat>, kern: Kern, i: nat, p: Path)
    requires Good(s, ext, kern) && i < |s.procs| && s.procs[i].Alive? && |p| == 4
    ensures UserPath(p) ==> TreeOk(s.St(), s.procs[i].root, USER_ENTRIES)
    ensures TreeOk(s.St(), s.procs[i].root, ENTRIES)
  {
    hide Inv, Intact, Rightful, TreeOk, Owned;
    InvOwned(s, ext, i);
    OwnedTree(s.St(), s.procs[i].root);
    SpaceTree(s, ext, kern, i);
  }

  /** Unmapping a user page takes no frame. */
  lemma UnmappedFree(s: Sys, ext: seq<nat>, i: nat, p: Path, s': Sys)
    requires Inv(s, ext) && i < |s.procs| && s.procs[i].Alive? && UserPath(p)
    requires Walk(s.mem, s.procs[i].root, p).Some?
    requires UnmapCost(s.St(), s.pmm, s'.St(), s'.pmm, s.procs[i].root, USER_ENTRIES, p)
    ensures s'.pmm == s.pmm
  {
    hide Inv, Walk, Mapped, Owned, InPlace;
    InvOwned(s, ext, i);
    OwnedInPlace(s.St(), s.procs[i].root, p);
  }

  /** In an owned address space every page has an entry of its own. */
  lemma OwnedInPlace(s: State, root: nat, p: Path)
    requires Owned(s, root) && |p| == 4 && p[0] < USER_ENTRIES && Walk(s.mem, root, p).Some?
    ensures InPlace(s.mem, root, p, 3)
  {
    hide SpaceRefs, RefsUpTo;
    OwnedUnmarked(s, root, p);
    PassDown(s, root, p, 0);
    PassDown(s, root, p, 1);
    PassDown(s, root, p, 2);
  }

  lemma PassDown(s: State, root: nat, p: Path, n: nat)
    requires Owned(s, root) && |p| == 4 && p[0] < USER_ENTRIES && Walk(s.mem, root, p).Some? && n < 3
    requires TableAt(s.mem, root, 4, p[..n]).Some?
    ensures TableAt(s.mem, root, 4, p[..n + 1]).Some?
  {
    hide SpaceRefs, RefsUpTo, Walk;
    var t := TableAt(s.mem, root, 4, p[..n]).value;
    assert p == p[..n] + p[n..] && p[..n] + [p[n]] == p[..n + 1];
    WalkTable(s.mem, root, p[..n], p[n..]);
    SoundAt(s.mem, Singles(s.rc), root, 4, USER_ENTRIES, p[..n], p[n]);
    TableAtAppend(s.mem, root, 4, p[..n], p[n]);
    WalkThere(s.mem, t, p[n..]);
  }

  lemma WalkThere(mem: Memory, t: nat, p: Path)
    requires Walk(mem, t, p).Some?
    ensures TableOf(mem, t)[p[0]].Present()
  {
  }

  /** Clearing pages of the user half is always allowed. */
  lemma UserCleared(us: seq<Sys>, ext: seq<nat>, kern: Kern, i: nat, lo: nat, n: nat)
    requires Passes(us, ext, kern, i, lo) && |us| == n + 1 && lo % 4096 == 0 && Good(us[0], ext, kern)
    requires i < |us[0].procs| && us[0].procs[i].Alive? && lo + 4096 * n <= USER_LIMIT
    ensures ClearsTo(us[0], i, lo, n, us[n])
  {
    hide Inv, Intact, Rightful, Passes, MayUnmap, ClearsTo, Frames.Valid;
    InvValid(us[0], ext);
    UserRange(us[0], i, lo, n);
    UnmapExact(us, ext, kern, i, lo, n);
    PassClears(us, ext, kern, i, lo, n);
  }

  lemma OwnedRoot(s: State, root: nat)
    requires Owned(s, root)
    ensures root > 0
  {
  }

  lemma NoneMapped(s: Sys, i: nat, lo: nat)
    requires i < |s.procs| && s.procs[i].Alive?
    ensures AllMapped(s, i, lo, lo)
  {
  }

  lemma NotAllMapped(s: Sys, i: nat, lo: nat, hi: nat, a: nat)
    requires i < |s.procs| && s.procs[i].Alive? && lo <= a < hi && Walk(s.mem, s.procs[i].root, PathOf(a)).None?
    ensures !AllMapped(s, i, lo, hi)
  {
  }

  /** vmm_virt_to_phys_in returns 0 exactly for pages that are not mapped. */
  lemma FrameMapped(s: Sys, ext: seq<nat>, i: nat, a: nat)
    requires Inv(s, ext) && i < |s.procs| && s.procs[i].Alive? && a < USER_LIMIT
    ensures var r := Walk(s.mem, s.procs[i].root, PathOf(a)); Phys(r) == 0 <==> r.None?
  {
    hide Inv, Walk, PathOf;
    PageBase(a);
    InvPage(s, ext, i, PathOf(a));
  }

  lemma StillMapped(s: Sys, ext: seq<nat>, i: nat, lo: nat, a: nat, hi: nat, flags: Flags, s': Sys)
    requires Inv(s, ext) && i < |s.procs| && s.procs[i].Alive? && lo <= a < hi <= USER_LIMIT
    requires AllMapped(s, i, lo, hi) && Reflagging(s, i, lo, a, flags, s')
    ensures var r := Walk(s'.mem, s.procs[i].root, PathOf(a)); r.Some? && r.value.frame > 0
  {
    hide Inv, Walk, PathOf;
    PageBase(a);
    InvPage(s, ext, i, PathOf(a));
  }

  /** A page was unmapped, since nothing keeps a walk from it. */
  lemma Unmapped(s: Sys, ext: seq<nat>, i: nat, p: Path, free: int, s': Sys)
    requires Inv(s, ext) && i < |s.procs| && s.procs[i].Alive? && UserPath(p) && Frames.Valid(s'.pmm)
    requires SameReserved(s.pmm, s'.pmm) && s'.procs == s.procs && s'.ram == s.ram &&
             Walk(s.mem, s.procs[i].root, p).Some?
    requires var root := s.procs[i].root;
             Mapped(s.St(), s'.St(), root, USER_ENTRIES, p, ABSENT) || Walked(s.St(), s'.St(), root, USER_ENTRIES)
    requires var root := s.procs[i].root;
             Walk(s'.mem, root, p) == None || Stuck(s.St(), free, root, USER_ENTRIES, p)
    requires Linked(s.mem, s'.mem, s.procs[i].root, USER_ENTRIES, true)
    ensures MapsPage(s, i, p, ABSENT, s')
  {
    hide Inv, Walk, Walked, Mapped, Stuck, Owned, Frames.Valid, Linked;
    InvOwned(s, ext, i);
    if Walked(s.St(), s'.St(), s.procs[i].root, USER_ENTRIES) {
      StuckMapped(s.St(), s'.St(), free, s.procs[i].root, p);
    }
  }

  lemma ReflaggedMaps(s0: State, s: State, root: nat, p: Path, flags: Flags, e: Pte)
    requires Owned(s0, root) && flags.present && Reflagged(s0, s, root, USER_ENTRIES, p, flags, e)
    ensures Mapped(s0, s, root, USER_ENTRIES, p, e)
    ensures Walk(s.mem, root, p).Some? && Walk(s.mem, root, p).value.flags.writable == flags.writable
  {
    hide Owned, Walk, TreeOk, OnlyTree;
  }

  /** In an owned address space nothing keeps a walk from a mapped page. */
  lemma StuckMapped(s0: State, s: State, free: int, root: nat, p: Path)
    requires Owned(s0, root) && Walked(s0, s, root, USER_ENTRIES) && |p| == 4 && p[0] < USER_ENTRIES
    requires Walk(s0.mem, root, p).Some?
    ensures Walk(s.mem, root, p) != None && !Stuck(s0, free, root, USER_ENTRIES, p)
  {
    hide Owned, Walk, TreeOk, OnlyTree, SameSeen, Balanced, TopMarked;
    OwnedUnmarked(s0, root, p);
  }

  lemma InvFree(s: Sys, ext: seq<nat>)
    requires Inv(s, ext)
    ensures s.pmm.free >= 0
  {
  }

  lemma Ignore(s: Sys, ext: seq<nat>, kern: Kern, i: nat, a: nat)
    requires i < |s.procs| && s.procs[i].Alive?
    ensures Step(Config(s, ext, kern), PageFault(i, a), Config(s, ext, kern))
  {
    assert Faults(s, i, a, Ignored, s, s, s);
  }

  lemma Chosen(s: Sys, ext: seq<nat>, kern: Kern, i: nat, a: nat, c: Fault, s1: Sys, s2: Sys, s': Sys)
    requires Good(s, ext, kern) && i < |s.procs| && s.procs[i].Alive? && a < USER_LIMIT
    requires Find(s.procs[i].areas, a).Some?
    requires UserPath(PathOf(a)) && FaultEffect(s, i, Find(s.procs[i].areas, a).value, PathOf(a), c, s1, s2, s')
    requires !c.Ignored?
    ensures Step(Config(s, ext, kern), PageFault(i, a), Config(s', ext, kern)) && Good(s', ext, kern)
  {
    hide Good, FaultEffect, PathOf;
    assert Faults(s, i, a, c, s1, s2, s');
    FaultGood(s, ext, kern, i, a, c, s1, s2, s');
  }

  /** What the fault handler finds. */
  lemma FaultStart(s: Sys, ext: seq<nat>, i: nat, a: nat)
    requires Inv(s, ext) && i < |s.procs| && s.procs[i].Alive? && a < USER_LIMIT
    ensures |s.pmm.rc| == |s.mem| == |s.ram| == |ext|
    ensures Owned(s.St(), s.procs[i].root) && TreeOk(s.St(), s.procs[i].root, USER_ENTRIES)
    ensures UserPath(PathOf(a)) && PagePhys(s.mem, s.procs[i].root, a) == Phys(Walk(s.mem, s.procs[i].root, PathOf(a)))
  {
    hide PagesOk, NoMixing, Accounting, Walk, VirtToPhys, PathOf, PagePhys;
    InvOwned(s, ext, i);
    OwnedTree(s.St(), s.procs[i].root);
    PageBase(a);
    PagePhysIsWalk(s.mem, s.procs[i].root, a);
  }

  /** The physical address of the page of address a; 0 if it is not mapped. */
  function PagePhys(mem: Memory, root: nat, a: nat): nat {
    VirtToPhys(mem, root, a - a % 4096)
  }

  function Phys(r: Option<Pte>): nat {
    match r case None => 0 case Some(e) => e.frame * 4096
  }

  lemma PagePhysIsWalk(mem: Memory, root: nat, a: nat)
    requires root != 0
    ensures PagePhys(mem, root, a) == Phys(Walk(mem, root, PathOf(a)))
  {
    hide VirtToPhys, Walk, PathOf;
    var base := a - a % 4096;
    BasePath(a);
    VirtToPhysIsWalk(mem, root, base);
  }

  lemma BasePath(a: nat)
    ensures PathOf(a - a % 4096) == PathOf(a)
  {
    var n := a / 4096;
    assert a - a % 4096 == 4096 * n;
    assert (4096 * n) / 0x1000 == n && (4096 * n) / 0x20_0000 == n / 512 == a / 0x20_0000;
    assert (4096 * n) / 0x4000_0000 == n / 262144 == a / 0x4000_0000;
    assert (4096 * n) / 0x80_0000_0000 == n / 134217728 == a / 0x80_0000_0000;
  }

  lemma ServedAs(s: Sys, ext: seq<nat>, kern: Kern, i: nat, addr: nat)
    requires Good(s, ext, kern) && i < |s.procs| && s.procs[i].Alive? && addr < USER_LIMIT
    requires PageFor(s.mem, s.procs[i], addr)
    ensures MappedFor(s.mem, s.procs[i], addr)
  {
    hide Inv, Intact, Rightful, Walk, Access;
    AccessIsPage(s, i, PathOf(addr));
  }

  lemma MapsDone(s: Sys, i: nat, p: Path, e: Pte, s': Sys)
    requires i < |s.procs| && s.procs[i].Alive? && Frames.Valid(s'.pmm) && UserPath(p)
    requires s'.procs == s.procs && s'.ram == s.ram && SameReserved(s.pmm, s'.pmm)
    requires Mapped(s.St(), s'.St(), s.procs[i].root, USER_ENTRIES, p, e)
    requires Linked(s.mem, s'.mem, s.procs[i].root, USER_ENTRIES, true)
    ensures MapsPage(s, i, p, e, s')
  {
  }

  lemma BuildsDone(s: Sys, i: nat, s': Sys)
    requires i < |s.procs| && s.procs[i].Alive? && Frames.Valid(s'.pmm) && SameReserved(s.pmm, s'.pmm)
    requires s'.procs == s.procs && s'.ram == s.ram && Walked(s.St(), s'.St(), s.procs[i].root, USER_ENTRIES)
    requires Linked(s.mem, s'.mem, s.procs[i].root, USER_ENTRIES, true)
    ensures BuildsTables(s, i, s')
  {
  }

  lemma BuildsHeld(s: Sys, i: nat, s': Sys, f: nat)
    requires BuildsTables(s, i, s') && f < |s.pmm.rc| && s.pmm.rc[f] > 0
    ensures |s'.pmm.rc| == |s.pmm.rc| && s'.pmm.rc[f] == s.pmm.rc[f]
  {
  }

  lemma MapsLeafDirect(s: Sys, ext: seq<nat>, i: nat, p: Path, e: Pte, s': Sys)
    requires Inv(s, ext) && MapsPage(s, i, p, e, s')
    ensures Walk(s'.mem, s.procs[i].root, p) == LeafOf(e)
  {
    hide PagesOk, NoMixing, Walk, TreeOk, OnlyTree;
    InvOwned(s, ext, i);
  }

  lemma MapsLeaf(s: Sys, ext: seq<nat>, nf: nat, page: Page, s1: Sys, i: nat, p: Path, e: Pte, s2: Sys)
    requires Inv(s, ext) && Takes(s, nf, page, s1) && MapsPage(s1, i, p, e, s2)
    ensures Walk(s2.mem, s.procs[i].root, p) == LeafOf(e)
  {
    hide Inv, MapsPage, Walk;
    TakeKeepsInv(s, ext, nf, page, s1);
    InvSize(s, ext);
    MapsProcs(s1, i, p, e, s2);
    MapsLeafDirect(s1, ext[nf := 1], i, p, e, s2);
  }

  lemma MapsProcs(s: Sys, i: nat, p: Path, e: Pte, s': Sys)
    requires MapsPage(s, i, p, e, s')
    ensures i < |s.procs| && s.procs[i].Alive?
  {
  }

  /** No 16-bit reference count overflows when all of `root` is referred to once more. */
  ghost predicate CountsFit(s: State, root: nat) {
    forall g :: 0 < g < |s.rc| ==> s.rc[g] + SpaceRefs(s.mem, root, g) <= MAX_REFS
  }

  lemma OwnedClonable(s: State, root: nat)
    requires Owned(s, root)
    ensures CountsFit(s, root) ==> Clonable(s, root, 4, USER_ENTRIES)
  {
    SoundGrows(s.mem, Singles(s.rc), HeldFrames(s.rc), root, 4, USER_ENTRIES);
    if CountsFit(s, root) {
      forall g | 0 < g < |s.rc|
        ensures s.rc[g] + RefsUpTo(s.mem, root, 4, USER_ENTRIES, g) <= MAX_REFS
      {
        assert s.rc[g] + SpaceRefs(s.mem, root, g) <= MAX_REFS;
      }
    }
  }

  lemma OwnedFacts(s: State, root: nat)
    requires Owned(s, root)
    ensures root < |s.rc| && Sound(s.mem, Singles(s.rc), root, 4, USER_ENTRIES)
    ensures forall g :: 0 < g < |s.rc| ==> SpaceRefs(s.mem, root, g) <= s.rc[g]
  {
  }

  lemma ClonedFacts(s0: State, s: State, src: nat, root: nat, kernelRoot: nat)
    requires SpaceCloned(s0, s, src, root) && kernelRoot < |s0.used| && s0.used[kernelRoot]
    ensures |s0.rc| == |s.rc| && root != kernelRoot && root != 0 && root < |s.rc|
    ensures Sound(s.mem, Fresh(s0.rc, s.rc), root, 4, USER_ENTRIES)
    ensures forall g :: 0 < g < |s.rc| ==> SpaceRefs(s.mem, root, g) <= s.rc[g]
  {
  }

  lemma FailedFork(s: Sys, ext: seq<nat>, kern: Kern, i: nat, s': Sys)
    requires Good(s, ext, kern) && i < |s.procs| && s.procs[i].Alive?
    requires Frames.Valid(s'.pmm) && SameReserved(s.pmm, s'.pmm)
    requires s'.procs == s.procs && s'.ram == s.ram && s'.pmm.rc == s.pmm.rc
    requires Held(s.pmm.used, |s'.mem|, s.mem, s'.mem)
    requires Aside(s.St(), s'.mem, s.procs[i].root, |s'.mem|, 4, USER_ENTRIES)
    requires SourceTop(s.St(), s'.mem, s.procs[i].root, 4, USER_ENTRIES)
    requires Shadows(s.St(), s'.mem, s.procs[i].root, |s'.mem|, 4, 0, USER_ENTRIES)
    ensures Step(Config(s, ext, kern), ForkFail(i), Config(s', ext, kern)) && Good(s', ext, kern)
  {
    hide Intact, PagesOk, NoMixing, Accounting, ProcSound, Weaker, Aside, SourceTop, Shadows, Rightful;
    assert ForkFails(s, i, s');
    StepKeepsGood(Config(s, ext, kern), ForkFail(i), Config(s', ext, kern));
  }

  lemma DroppedFork(s: Sys, ext: seq<nat>, kern: Kern, i: nat, root: nat, s1: Sys, s': Sys)
    requires Good(s, ext, kern) && i < |s.procs| && s.procs[i].Alive?
    requires Frames.Valid(s'.pmm) && SameReserved(s.pmm, s'.pmm)
    requires s'.procs == s.procs && s'.ram == s.ram && s'.pmm.rc == s.pmm.rc && s'.mem == s1.mem
    requires SpaceCloned(s.St(), s1.St(), s.procs[i].root, root)
    ensures Step(Config(s, ext, kern), ForkFail(i), Config(s', ext, kern)) && Good(s', ext, kern)
  {
    hide Intact, PagesOk, NoMixing, Accounting, ProcSound, Sound, RefsUpTo, Weaker, Copied, Shadows, Rightful;
    ShadowsDropped(s.St(), s'.mem, s.procs[i].root, root, USER_ENTRIES);
    assert ForkFails(s, i, s');
    StepKeepsGood(Config(s, ext, kern), ForkFail(i), Config(s', ext, kern));
  }

  lemma DoneFork(s: Sys, ext: seq<nat>, kern: Kern, i: nat, s': Sys)
    requires Good(s, ext, kern) && i < |s.procs| && s.procs[i].Alive?
    requires Frames.Valid(s'.pmm) && SameReserved(s.pmm, s'.pmm) && s'.ram == s.ram
    requires |s'.procs| == |s.procs| + 1 && s'.procs[..|s.procs|] == s.procs
    requires var child := s'.procs[|s.procs|];
             child.Alive? && child.areas == s.procs[i].areas &&
             SpaceCloned(s.St(), s'.St(), s.procs[i].root, child.root)
    ensures Step(Config(s, ext, kern), Fork(i), Config(s', ext, kern)) && Good(s', ext, kern)
  {
    hide Intact, SpaceCloned, Accounting, PagesOk, NoMixing, ProcSound;
    assert Forks(s, i, s');
    StepKeepsGood(Config(s, ext, kern), Fork(i), Config(s', ext, kern));
  }
}
