/** From the boot loader to the kernel: the tables it leaves in the frames of its pool, which stay reserved. */
module Handover {
  import opened Options
  import opened Frames
  import opened PageTable
  import opened Cloning
  import opened Mapping
  import opened TableWalk
  import opened AddressSpace
  import opened CopyOnWrite
  import opened KernelHalf
  import opened Clearing
  import opened Kernel
  import Boot = BootPaging
  import Plan = BootPlan
  import Ram = PhysicalMemory

  /** The entry written for a slot; table t is frame base + t. */
  predicate Written(e: Pte, slot: Boot.Slot, base: nat) {
    match slot
    case Absent => e == ABSENT
    case Next(t) => e.Present() && !e.flags.huge && e.frame == base + t
    case LargePage(f) => e.Present() && e.flags.huge && e.frame == f
    case SmallPage(f) => e.Present() && !e.flags.huge && e.frame == f
  }

  ghost predicate Placed(mem: Memory, base: nat, tables: seq<seq<Boot.Slot>>) {
    && 0 < base && base + |tables| <= |mem|
    && (forall t :: 0 <= t < |tables| ==> |tables[t]| == 512)
    && (forall t, j :: 0 <= t < |tables| && 0 <= j < 512 ==> Written(mem[base + t][j], tables[t][j], base))
  }

  predicate Within(f: nat, base: nat, n: nat) { base <= f < base + n }

  /** The frames of the pool that were used. */
  function Pool(base: nat, n: nat): (s: set<nat>)
    ensures forall f: nat :: f in s <==> Within(f, base, n)
  {
    set f: nat | f < base + n && Within(f, base, n)
  }

  // ---------- The tables by their paths ----------

  /** The table that the indices lead to. */
  function KeyOf(q: seq<Index>): Boot.Key {
    if q == [] then Boot.Root else Boot.Child(KeyOf(q[..|q| - 1]), q[|q| - 1])
  }

  lemma {:induction false} KeyLevel(q: seq<Index>)
    requires |q| <= 3
    ensures |q| == 0 <==> KeyOf(q).Root?
    ensures |q| == 1 <==> KeyOf(q).Third?
    ensures |q| == 2 <==> KeyOf(q).Second?
    ensures |q| == 3 <==> KeyOf(q).First?
  {
    if q != [] {
      KeyLevel(q[..|q| - 1]);
    }
  }

  lemma {:induction false} KeyInjective(q: seq<Index>, u: seq<Index>)
    requires |q| <= 3 && |u| <= 3 && KeyOf(q) == KeyOf(u)
    ensures q == u
    decreases |q|
  {
    KeyLevel(q);
    KeyLevel(u);
    if q != [] {
      var n := |q| - 1;
      KeyLevel(q[..n]);
      KeyLevel(u[..n]);
      Boot.ChildInjective(KeyOf(q[..n]), q[n], KeyOf(u[..n]), u[n]);
      KeyInjective(q[..n], u[..n]);
      assert q == q[..n] + [q[n]] && u == u[..n] + [u[n]];
    }
  }

  /** The entry that the walk finds in a table. */
  lemma BootEntry(mem: Memory, base: nat, tables: seq<seq<Boot.Slot>>, v: Boot.View, key: Boot.Key, j: Index)
    requires Boot.Tree(tables, v) && Placed(mem, base, tables) && key in v.ids
    ensures v.ids[key] < |tables| && Written(TableOf(mem, base + v.ids[key])[j], Boot.Expect(v, key, j), base)
  {
    hide Boot.Expect, Written;
    Boot.EntryAt(tables, v, key, j);
  }

  /** The indices lead to a table exactly if the boot loader made one. */
  lemma {:induction false} BootTable(mem: Memory, base: nat, tables: seq<seq<Boot.Slot>>, v: Boot.View, q: seq<Index>)
    requires Boot.Tree(tables, v) && Placed(mem, base, tables) && |q| <= 3
    ensures TableAt(mem, base, 4, q) == if KeyOf(q) in v.ids then Some(base + v.ids[KeyOf(q)]) else None
    ensures KeyOf(q) in v.ids ==> v.ids[KeyOf(q)] < |tables|
    decreases |q|
  {
    hide Placed, TableOf, Boot.Child;
    if q != [] {
      var n := |q| - 1;
      var r, j := q[..n], q[n];
      assert q == r + [j];
      KeyLevel(r);
      BootTable(mem, base, tables, v, r);
      Boot.ChildParent(KeyOf(r), j);
      if KeyOf(r) in v.ids {
        TableAtAppend(mem, base, 4, r, j);
        BootEntry(mem, base, tables, v, KeyOf(r), j);
      } else {
        TableAtNone(mem, base, 4, r, [j]);
      }
    }
  }

  lemma {:induction false} TableAtNone(mem: Memory, f: nat, level: nat, q: seq<Index>, u: seq<Index>)
    requires TableAt(mem, f, level, q).None?
    ensures TableAt(mem, f, level, q + u).None?
    decreases |q|
  {
    var e := TableOf(mem, f)[q[0]];
    assert (q + u)[1..] == q[1..] + u;
    if level > 0 && Branches(e, level) {
      TableAtNone(mem, e.frame, level - 1, q[1..], u);
    }
  }

  // ---------- A tree of reserved tables ----------

  /** What the boot loader leaves is a tree, held or not: the walks, splits and mappings of the kernel work on it. */
  lemma BootTreeOk(s: State, base: nat, tables: seq<seq<Boot.Slot>>, v: Boot.View)
    requires Boot.Tree(tables, v) && Placed(s.mem, base, tables) && s.Tidy()
    requires forall f :: f in Pool(base, |tables|) ==> s.used[f]
    ensures TreeOk(s, base, ENTRIES)
  {
    hide TableAt, Boot.Tree, KeyOf;
    forall q: seq<Index> | Inner(q, ENTRIES) && TableAt(s.mem, base, 4, q).Some?
      ensures var t := TableAt(s.mem, base, 4, q).value; 0 < t < |s.mem| && s.used[t]
    {
      BootTable(s.mem, base, tables, v, q);
      assert TableAt(s.mem, base, 4, q).value in Pool(base, |tables|);
    }
    forall q: seq<Index>, u: seq<Index> | Inner(q, ENTRIES) && Inner(u, ENTRIES) &&
        TableAt(s.mem, base, 4, q).Some? && TableAt(s.mem, base, 4, q) == TableAt(s.mem, base, 4, u)
      ensures q == u
    {
      BootOnce(s.mem, base, tables, v, q, u);
    }
  }

  lemma BootOnce(mem: Memory, base: nat, tables: seq<seq<Boot.Slot>>, v: Boot.View, q: seq<Index>, u: seq<Index>)
    requires Boot.Tree(tables, v) && Placed(mem, base, tables) && |q| <= 3 && |u| <= 3
    requires TableAt(mem, base, 4, q).Some? && TableAt(mem, base, 4, q) == TableAt(mem, base, 4, u)
    ensures q == u
  {
    hide TableAt, KeyOf, Placed, Boot.Child;
    BootTable(mem, base, tables, v, q);
    BootTable(mem, base, tables, v, u);
    assert v.owner[v.ids[KeyOf(q)]] == KeyOf(q) && v.owner[v.ids[KeyOf(u)]] == KeyOf(u);
    KeyInjective(q, u);
  }

  /** The upper half is a kernel half: no bit 7 at the top, no 1 GiB page. */
  lemma BootShaped(mem: Memory, base: nat, tables: seq<seq<Boot.Slot>>, v: Boot.View)
    requires Boot.Tree(tables, v) && Placed(mem, base, tables)
    ensures Shaped(Kern(mem, base, Pool(base, |tables|)))
  {
    hide TableAt, Boot.Tree, KeyOf, Walk, Placed;
    var pool := Pool(base, |tables|);
    BootRoot(mem, base, tables, v);
    forall q: seq<Index> | Upper(q) && TableAt(mem, base, 4, q).Some?
      ensures TableAt(mem, base, 4, q).value in pool
    {
      BootTable(mem, base, tables, v, q);
    }
    forall q: seq<Index>, u: seq<Index> | Upper(q) && Upper(u) &&
        TableAt(mem, base, 4, q).Some? && TableAt(mem, base, 4, q) == TableAt(mem, base, 4, u)
      ensures q == u
    {
      BootOnce(mem, base, tables, v, q, u);
    }
    forall p: Path | KernelPath(p)
      ensures !TopMarked(mem, base, p)
      ensures Walk(mem, base, p).Some? ==> TableAt(mem, base, 4, p[..2]).Some?
    {
      BootTop(mem, base, tables, v, p);
    }
  }

  lemma BootRoot(mem: Memory, base: nat, tables: seq<seq<Boot.Slot>>, v: Boot.View)
    requires Boot.Tree(tables, v) && Placed(mem, base, tables)
    ensures 0 < base < |mem| && |tables| > 0 && base in Pool(base, |tables|)
  {
  }

  lemma BootTop(mem: Memory, base: nat, tables: seq<seq<Boot.Slot>>, v: Boot.View, p: Path)
    requires Boot.Tree(tables, v) && Placed(mem, base, tables) && |p| == 4
    ensures !TopMarked(mem, base, p)
    ensures Walk(mem, base, p).Some? ==> TableAt(mem, base, 4, p[..2]).Some?
  {
    hide Placed, TableOf, Boot.Tree;
    KeyUp(p);
    Boot.TreeFacts(tables, v);
    BootTable(mem, base, tables, v, p[..1]);
    BootTable(mem, base, tables, v, p[..2]);
    BootEntry(mem, base, tables, v, Boot.Root, p[0]);
    if KeyOf(p[..1]) in v.ids {
      BootEntry(mem, base, tables, v, KeyOf(p[..1]), p[1]);
    }
    WalkDown(mem, base, p);
  }

  lemma KeyUp(p: Path)
    requires |p| == 4
    ensures KeyOf([]) == Boot.Root && KeyOf(p[..1]) == Boot.Child(Boot.Root, p[0])
    ensures KeyOf(p[..2]) == Boot.Child(KeyOf(p[..1]), p[1]) && KeyOf(p[..3]) == Boot.Child(KeyOf(p[..2]), p[2])
  {
    assert p[..1][..0] == [] && p[..2][..1] == p[..1] && p[..3][..2] == p[..2];
  }

  // ---------- The translation ----------

  function FrameIn(r: Option<Pte>): Option<nat> {
    if r.Some? then Some(r.value.frame) else None
  }

  /** The kernel's walk finds what the hardware walk over the boot loader's tables finds. */
  lemma BootWalk(mem: Memory, base: nat, tables: seq<seq<Boot.Slot>>, v: Boot.View, page: nat)
    requires Boot.Tree(tables, v) && Placed(mem, base, tables) && Plan.LargeAligned(v) && page < PERIOD
    ensures |tables| > 0 && (forall t :: 0 <= t < |tables| ==> |tables[t]| == 512)
    ensures FrameIn(Walk(mem, base, PathFor(page))) == Boot.Walk(tables, page)
  {
    hide Placed, TableOf, Boot.Tree, Boot.Child, PathFor, Boot.Legal;
    var p, k3, k2, k1 := PathFor(page), page / 0x800_0000, page / 0x4_0000, page / 512;
    PathDigits(page);
    Boot.PageKeys(page);
    Boot.TreeFacts(tables, v);
    Boot.WalkFinds(tables, v, page);
    BootEntry(mem, base, tables, v, Boot.Root, p[0]);
    if Boot.Third(k3) in v.ids {
      BootEntry(mem, base, tables, v, Boot.Third(k3), p[1]);
      if Boot.Second(k2) in v.ids {
        BootEntry(mem, base, tables, v, Boot.Second(k2), p[2]);
        if Boot.First(k1) in v.ids {
          BootEntry(mem, base, tables, v, Boot.First(k1), p[3]);
        }
      }
    }
    WalkDown(mem, base, p);
  }

  lemma PathDigits(page: nat)
    requires page < PERIOD
    ensures var p := PathFor(page);
            p[0] == page / 0x800_0000 && p[1] == page / 0x4_0000 % 512 && p[2] == page / 512 % 512 && p[3] == page % 512
  {
  }

  /** The walk, level by level, where bit 7 is clear at the top and there is no 1 GiB page. */
  lemma WalkDown(mem: Memory, root: nat, p: Path)
    requires |p| == 4
    ensures var e4 := TableOf(mem, root)[p[0]];
            !e4.Present() ==> Walk(mem, root, p) == None
    ensures var e4 := TableOf(mem, root)[p[0]];
            var e3 := TableOf(mem, e4.frame)[p[1]];
            e4.Present() && !e3.Present() ==> Walk(mem, root, p) == None
    ensures var e4 := TableOf(mem, root)[p[0]];
            var e3 := TableOf(mem, e4.frame)[p[1]];
            var e2 := TableOf(mem, e3.frame)[p[2]];
            e4.Present() && e3.Present() && !e3.flags.huge ==>
              && (!e2.Present() ==> Walk(mem, root, p) == None)
              && (e2.Present() && e2.flags.huge ==> FrameIn(Walk(mem, root, p)) == Some(e2.frame / 512 * 512 + p[3]))
              && (e2.Present() && !e2.flags.huge ==>
                    FrameIn(Walk(mem, root, p)) ==
                    var e1 := TableOf(mem, e2.frame)[p[3]]; if e1.Present() then Some(e1.frame) else None)
  {
    hide TableOf;
    var e4 := TableOf(mem, root)[p[0]];
    var e3 := TableOf(mem, e4.frame)[p[1]];
    var e2 := TableOf(mem, e3.frame)[p[2]];
    assert p[1..][1..] == p[2..] && p[2..][1..] == p[3..];
    assert e4.Present() ==> Walk(mem, root, p) == WalkEntry(mem, e3, p[1..]);
    assert e3.Present() && !e3.flags.huge ==> WalkEntry(mem, e3, p[1..]) == WalkEntry(mem, e2, p[2..]);
    assert e2.Present() && !e2.flags.huge ==>
        WalkEntry(mem, e2, p[2..]) == WalkEntry(mem, TableOf(mem, e2.frame)[p[3]], p[3..]);
  }

  // ---------- The kernel takes over ----------

  /** No frame of the pool is usable memory. */
  ghost predicate Outside(memMap: seq<Ram.Entry>, base: nat, n: nat) {
    forall f :: f in Pool(base, n) ==> !Ram.Covered(memMap, |memMap|, f)
  }

  /** pmm_init leaves the boot loader's tables alone where they are outside usable memory. So the kernel starts with
      its books right: nobody holds the tables and nobody is given them. */
  lemma BootsKernel(p: Pmm, memMap: seq<Ram.Entry>, b: Ram.Range, r: Ram.Range, mem: Memory, ram: seq<Page>,
                    base: nat, tables: seq<seq<Boot.Slot>>, v: Boot.View)
    requires Ram.Initial(p, memMap, b, r) && Frames.Valid(p) && |mem| == |ram| == |p.rc|
    requires Boot.Tree(tables, v) && Placed(mem, base, tables)
    requires Outside(memMap, base, |tables|)
    ensures var c := Config(Sys(p, mem, ram, []), p.rc, Kern(mem, base, Pool(base, |tables|)));
            Boots(c) && Good(c.s, c.ext, c.kern)
  {
    hide Boot.Tree, Ram.Covered, Ram.In, Frames.Valid, Shaped, Inv, Intact;
    BootShaped(mem, base, tables, v);
    BootGood(Config(Sys(p, mem, ram, []), p.rc, Kern(mem, base, Pool(base, |tables|))));
  }

  /** The machine before its first process. */
  lemma StartsOk(m: Machine, memMap: seq<Ram.Entry>, b: Ram.Range, r: Ram.Range, base: nat,
                 tables: seq<seq<Boot.Slot>>, v: Boot.View)
    requires Ram.Initial(m.t.pmm, memMap, b, r) && m.t.Valid() && |m.ram| == |m.t.mem| && m.procs == []
    requires Boot.Tree(tables, v) && Placed(m.t.mem, base, tables) && m.t.kernelRoot == base
    requires m.kern == Kern(m.t.mem, base, Pool(base, |tables|))
    requires Outside(memMap, base, |tables|)
    ensures m.Ok(m.t.pmm.rc)
  {
    hide Boot.Tree, Ram.Covered, Ram.Initial, Good, Boots, Placed;
    BootsKernel(m.t.pmm, memMap, b, r, m.t.mem, m.ram, base, tables, v);
  }

  /** However the frames are filled otherwise, with these tables placed outside usable memory the kernel starts with
      its books right and with the translation that ranges and image ask for. */
  ghost predicate HandsOver(p: Pmm, memMap: seq<Ram.Entry>, tables: seq<seq<Boot.Slot>>, ranges: seq<Boot.Range>,
                            kernel: nat, phys: nat, size: nat)
    requires Boot.HHDM <= kernel
  {
    forall mem: Memory, ram: seq<Page>, base: nat ::
      Placed(mem, base, tables) && |mem| == |ram| == |p.rc| && Outside(memMap, base, |tables|) ==>
        && Boots(Config(Sys(p, mem, ram, []), p.rc, Kern(mem, base, Pool(base, |tables|))))
        && Translated(mem, base, ranges, kernel, phys, size)
  }

  ghost predicate Translated(mem: Memory, base: nat, ranges: seq<Boot.Range>, kernel: nat, phys: nat, size: nat)
    requires Boot.HHDM <= kernel
  {
    forall page: nat :: page < PERIOD ==>
      FrameIn(Walk(mem, base, PathFor(page))) == Plan.Wanted(ranges, kernel, phys, size, page)
  }

  lemma BootTranslated(mem: Memory, base: nat, tables: seq<seq<Boot.Slot>>, v: Boot.View, ranges: seq<Boot.Range>,
                       kernel: nat, phys: nat, size: nat)
    requires Boot.Tree(tables, v) && Placed(mem, base, tables) && Plan.LargeAligned(v) && Boot.HHDM <= kernel
    requires Plan.Translates(tables, ranges, kernel, phys, size)
    ensures Translated(mem, base, ranges, kernel, phys, size)
  {
    hide Boot.Tree, Placed, Walk, PathFor, Boot.Walk, Plan.Wanted;
    forall page: nat | page < PERIOD
      ensures FrameIn(Walk(mem, base, PathFor(page))) == Plan.Wanted(ranges, kernel, phys, size, page)
    {
      BootWalk(mem, base, tables, v, page);
    }
  }

  /** From the memory maps to a kernel that is ready for its first process. */
  method StartUp(ranges: seq<Boot.Range>, kernel: nat, phys: nat, size: nat, margin: nat, memMap: seq<Ram.Entry>)
    returns (t: Boot.Tables?, m: Ram.Manager?)
    requires Plan.Above(ranges, kernel, size)
    requires Boot.NoMix(Boot.Directs(ranges) + Boot.Image(kernel, phys, size))
    requires Ram.NoOverlap(memMap, |memMap|)
    ensures t != null && m != null ==> HandsOver(m.State(), memMap, t.tables, ranges, kernel, phys, size)
  {
    hide Boot.NoMix, Ram.NoOverlap, Boot.Tree, Ram.Initial, Frames.Valid, Plan.Translates, Boot.Directs, Boot.Image,
      Placed, Boots, Translated;
    var est;
    est, t := Plan.SizeAndBuild(ranges, kernel, phys, size, margin);
    var outcome, b, r;
    outcome, m, b, r := Ram.Init(memMap);
    if t != null && m != null {
      forall mem: Memory, ram: seq<Page>, base: nat | Placed(mem, base, t.tables) && |mem| == |ram| == |m.State().rc| &&
          Outside(memMap, base, |t.tables|)
        ensures Boots(Config(Sys(m.State(), mem, ram, []), m.State().rc, Kern(mem, base, Pool(base, |t.tables|))))
        ensures Translated(mem, base, ranges, kernel, phys, size)
      {
        BootsKernel(m.State(), memMap, b, r, mem, ram, base, t.tables, t.view);
        BootTranslated(mem, base, t.tables, t.view, ranges, kernel, phys, size);
      }
    }
  }

  /** vmm_map_page on the boot loader's tables, 2 MiB pages and all: the page is mapped and every other one is what
      the boot loader made it; with three free frames it cannot fail. */
  method MapOverBoot(t: Tables, virt: nat, frame: nat, flags: Flags, base: nat, ghost tables: seq<seq<Boot.Slot>>,
                     ghost v: Boot.View)
    returns (r: Outcome)
    requires t.Valid() && Boot.Tree(tables, v) && Placed(t.mem, base, tables) && Plan.LargeAligned(v)
    requires forall f :: f in Pool(base, |tables|) ==> t.pmm.used[f]
    modifies t
    ensures t.Valid() && |tables| > 0 && (forall k :: 0 <= k < |tables| ==> |tables[k]| == 512)
    ensures r == Panic <==> (virt >= KERNEL_STACK_TOP && flags.user) || (virt < USER_LIMIT && !flags.user)
    ensures r == Failed ==> old(t.pmm).free < 3 * FRAME_SIZE
    ensures r == Done ==> Seen(Walk(t.mem, base, PathOf(virt))) == Seen(LeafOf(Pte(frame, flags)))
    ensures forall page: nat :: page < PERIOD && (r == Done ==> page != Number(virt)) ==>
              FrameIn(Walk(t.mem, base, PathFor(page))) == Boot.Walk(tables, page)
  {
    hide Boot.Tree, Placed, Walk, PathOf, PathFor, TreeOk, Number, Boot.Walk, Frames.Valid;
    ghost var s0 := t.St();
    ValidTidy(t.pmm, t.mem);
    BootTreeOk(s0, base, tables, v);
    BootTop(t.mem, base, tables, v, PathOf(virt));
    Boot.TreeFacts(tables, v);
    r := t.MapPage(base, virt, frame, flags, ENTRIES);
    forall page: nat | page < PERIOD && (r == Done ==> page != Number(virt))
      ensures FrameIn(Walk(t.mem, base, PathFor(page))) == Boot.Walk(tables, page)
    {
      BootWalk(s0.mem, base, tables, v, page);
      if r == Done {
        OtherPath(page, virt);
      }
    }
  }

  lemma OtherPath(page: nat, virt: nat)
    requires page < PERIOD && page != Number(virt)
    ensures PathFor(page) != PathOf(virt)
  {
    hide PathOf, PathFor;
    PathByNumber(virt);
    PathByNumber(4096 * page);
    SamePath(4096 * page, virt);
  }
}
