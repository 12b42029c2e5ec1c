/** Copy-on-write over whole systems: processes that fork, write, fault and exit read their private
    pages exactly as if each owned a private copy, and no frame is ever leaked or freed early. */
module CopyOnWrite {
  import opened Options
  import opened Frames
  import opened PageTable
  import opened Cloning
  import opened Mapping
  import opened TableWalk
  import opened Rights
  import opened AddressSpace
  import opened Vma

  type Byte = b: int | 0 <= b < 256
  type Page = p: seq<Byte> | |p| == 4096 witness ZeroPage()

  function ZeroPage(): (p: seq<Byte>)
    ensures |p| == 4096 && forall i :: 0 <= i < 4096 ==> p[i] == 0
  {
    seq(4096, _ => 0)
  }

  datatype Proc = Dead | Alive(root: nat, areas: seq<Area>)

  /** `ram` holds the contents of the frames that are pages, `mem` those of the frames that are tables. */
  datatype Sys = Sys(pmm: Pmm, mem: Memory, ram: seq<Page>, procs: seq<Proc>) {
    ghost function St(): State { State(pmm.rc, mem, pmm.used) }
  }

  // ---------- References of all processes ----------

  ghost function ProcRefs(mem: Memory, pr: Proc, g: nat): nat {
    if pr.Alive? then SpaceRefs(mem, pr.root, g) else 0
  }

  ghost function TotalRefs(mem: Memory, procs: seq<Proc>, g: nat): nat {
    if procs == [] then 0
    else TotalRefs(mem, procs[..|procs| - 1], g) + ProcRefs(mem, procs[|procs| - 1], g)
  }

  lemma {:induction false} TotalOne(mem: Memory, procs: seq<Proc>, i: nat, g: nat)
    requires i < |procs|
    ensures ProcRefs(mem, procs[i], g) <= TotalRefs(mem, procs, g)
  {
    if i < |procs| - 1 {
      TotalOne(mem, procs[..|procs| - 1], i, g);
    }
  }

  lemma {:induction false} TotalTwo(mem: Memory, procs: seq<Proc>, i: nat, j: nat, g: nat)
    requires i < j < |procs|
    ensures ProcRefs(mem, procs[i], g) + ProcRefs(mem, procs[j], g) <= TotalRefs(mem, procs, g)
  {
    if j < |procs| - 1 {
      TotalTwo(mem, procs[..|procs| - 1], i, j, g);
    } else {
      TotalOne(mem, procs[..|procs| - 1], i, g);
    }
  }

  lemma {:induction false} TotalSame(mem: Memory, mem': Memory, procs: seq<Proc>, g: nat)
    requires forall j :: 0 <= j < |procs| ==> ProcRefs(mem', procs[j], g) == ProcRefs(mem, procs[j], g)
    ensures TotalRefs(mem', procs, g) == TotalRefs(mem, procs, g)
  {
    if procs != [] {
      TotalSame(mem, mem', procs[..|procs| - 1], g);
    }
  }

  lemma {:induction false} TotalChange(mem: Memory, mem': Memory, procs: seq<Proc>, procs': seq<Proc>, i: nat, g: nat)
    requires i < |procs| == |procs'|
    requires forall j :: 0 <= j < |procs| && j != i ==>
               procs'[j] == procs[j] && ProcRefs(mem', procs'[j], g) == ProcRefs(mem, procs[j], g)
    ensures TotalRefs(mem', procs', g) - TotalRefs(mem, procs, g) ==
            ProcRefs(mem', procs'[i], g) - ProcRefs(mem, procs[i], g)
  {
    var n := |procs| - 1;
    if i < n {
      TotalChange(mem, mem', procs[..n], procs'[..n], i, g);
    } else {
      assert procs'[..n] == procs[..n];
      TotalSame(mem, mem', procs[..n], g);
    }
  }

  // ---------- The invariant ----------

  predicate UserPath(p: Path) {
    |p| == 4 && p[0] < USER_ENTRIES
  }

  function AddrOf(p: Path): nat
    requires |p| == 4
  {
    4096 * (512 * (512 * (512 * (p[0] as nat) + p[1]) + p[2]) + p[3])
  }

  predicate SharedAt(areas: seq<Area>, a: nat) {
    Find(areas, a).Some? && Find(areas, a).value.kind == Shared
  }

  /** The list is sorted, areas are made of whole pages, and those of kind Shared carry PTE_SHARED. */
  ghost predicate AreasOk(areas: seq<Area>) {
    Kept(areas) &&
    forall v :: v in areas ==>
      v.start % 4096 == 0 && v.end % 4096 == 0 && v.flags.shared == (v.kind == Shared)
  }

  /** Every reference to a frame is one of the kernel's own (ext) or comes from an address space. */
  ghost predicate Accounting(s: Sys, ext: seq<nat>)
    requires |ext| == |s.pmm.rc|
  {
    forall g :: 0 < g < |s.pmm.rc| ==> s.pmm.rc[g] == ext[g] + TotalRefs(s.mem, s.procs, g)
  }

  /** The tables of a process are its own. */
  ghost predicate ProcSound(s: Sys, pr: Proc) {
    pr.Alive? ==>
      && 0 < pr.root < |s.pmm.rc| && s.pmm.rc[pr.root] == 1 && AreasOk(pr.areas)
      && Sound(s.mem, Singles(s.pmm.rc), pr.root, 4, USER_ENTRIES) && TopClear(s.mem, pr.root)
  }

  /** A mapped page lies in an area and is shared exactly if the area is; a private one is a managed frame,
      and can be written only while nobody else holds that frame. */
  ghost predicate PageOk(s: Sys, pr: Proc, p: Path)
    requires UserPath(p) && pr.Alive?
  {
    var r := Walk(s.mem, pr.root, p);
    r.Some? ==>
      && r.value.frame > 0 && Find(pr.areas, AddrOf(p)).Some?
      && r.value.flags.shared == SharedAt(pr.areas, AddrOf(p))
      && (!r.value.flags.shared ==>
            && 0 < r.value.frame < |s.pmm.rc|
            && (r.value.flags.writable ==> s.pmm.rc[r.value.frame] == 1))
  }

  ghost predicate PagesOk(s: Sys) {
    forall i, p: Path :: 0 <= i < |s.procs| && s.procs[i].Alive? && UserPath(p) ==> PageOk(s, s.procs[i], p)
  }

  /** A frame is not mapped both shared and private. */
  ghost predicate NoMixing(s: Sys) {
    forall i, j, p: Path, q: Path ::
      0 <= i < |s.procs| && 0 <= j < |s.procs| && s.procs[i].Alive? && s.procs[j].Alive? && UserPath(p) && UserPath(q)
      ==> SameKind(Walk(s.mem, s.procs[i].root, p), Walk(s.mem, s.procs[j].root, q))
  }

  predicate SameKind(r: Option<Pte>, r': Option<Pte>) {
    r.Some? && r'.Some? && r.value.frame == r'.value.frame ==> r.value.flags.shared == r'.value.flags.shared
  }

  ghost predicate Inv(s: Sys, ext: seq<nat>) {
    && Frames.Valid(s.pmm) && |s.mem| == |s.ram| == |s.pmm.rc| == |ext|
    && Accounting(s, ext)
    && (forall i :: 0 <= i < |s.procs| ==> ProcSound(s, s.procs[i]))
    && PagesOk(s) && NoMixing(s)
  }

  // ---------- What a process reads ----------

  function Read(s: Sys, i: nat, a: nat): Byte
    requires i < |s.procs| && s.procs[i].Alive?
  {
    match Walk(s.mem, s.procs[i].root, PathOf(a))
    case None => 0
    case Some(e) => if e.frame < |s.ram| then s.ram[e.frame][a % 4096] else 0
  }

  predicate Private(s: Sys, i: nat, a: nat) {
    i < |s.procs| && s.procs[i].Alive? && a < USER_LIMIT && !SharedAt(s.procs[i].areas, a)
  }

  // ---------- Consequences ----------

  lemma InvOwned(s: Sys, ext: seq<nat>, i: nat)
    requires Inv(s, ext) && i < |s.procs| && s.procs[i].Alive?
    ensures Owned(s.St(), s.procs[i].root)
  {
    hide PagesOk, NoMixing;
    assert ProcSound(s, s.procs[i]);
    forall g | 0 < g < |s.pmm.rc|
      ensures SpaceRefs(s.mem, s.procs[i].root, g) <= s.pmm.rc[g]
    {
      TotalOne(s.mem, s.procs, i, g);
    }
  }

  /** A page that is mapped is counted. */
  lemma MappedCounted(s: Sys, ext: seq<nat>, i: nat, p: Path)
    requires Inv(s, ext) && i < |s.procs| && s.procs[i].Alive? && UserPath(p)
    requires Walk(s.mem, s.procs[i].root, p).Some?
    ensures ProcRefs(s.mem, s.procs[i], Walk(s.mem, s.procs[i].root, p).value.frame) >= 1
  {
    hide PagesOk, NoMixing;
    var root := s.procs[i].root;
    assert ProcSound(s, s.procs[i]);
    LeafRef(s.mem, Singles(s.pmm.rc), root, USER_ENTRIES, p);
    OneRef(s.mem, root, 4, USER_ENTRIES, p);
  }

  /** A frame that is held once is mapped at one place only, in the whole system. */
  lemma Exclusive(s: Sys, ext: seq<nat>, i: nat, p: Path, j: nat, q: Path)
    requires Inv(s, ext) && i < |s.procs| && s.procs[i].Alive? && UserPath(p)
    requires j < |s.procs| && s.procs[j].Alive? && UserPath(q)
    requires Walk(s.mem, s.procs[i].root, p).Some? && Walk(s.mem, s.procs[j].root, q).Some?
    requires var f := Walk(s.mem, s.procs[i].root, p).value.frame;
             0 < f < |s.pmm.rc| && s.pmm.rc[f] == 1 && Walk(s.mem, s.procs[j].root, q).value.frame == f
    ensures i == j && p == q
  {
    hide PagesOk, NoMixing;
    var f := Walk(s.mem, s.procs[i].root, p).value.frame;
    MappedCounted(s, ext, i, p);
    MappedCounted(s, ext, j, q);
    if i < j {
      TotalTwo(s.mem, s.procs, i, j, f);
    } else if j < i {
      TotalTwo(s.mem, s.procs, j, i, f);
    } else {
      TotalOne(s.mem, s.procs, i, f);
      var root := s.procs[i].root;
      assert ProcSound(s, s.procs[i]);
      LeafRef(s.mem, Singles(s.pmm.rc), root, USER_ENTRIES, p);
      LeafRef(s.mem, Singles(s.pmm.rc), root, USER_ENTRIES, q);
      if p != q {
        TwoRefs(s.mem, root, 4, USER_ENTRIES, p, q);
      }
    }
  }

  // ---------- Addresses and pages ----------

  lemma PageBase(a: nat)
    requires a < USER_LIMIT
    ensures UserPath(PathOf(a)) && AddrOf(PathOf(a)) == a - a % 4096
  {
    var v3 := a / 0x1000;
    var v2 := a / 0x20_0000;
    var v1 := a / 0x4000_0000;
    assert v2 == v3 / 512 && v1 == v2 / 512 && a / 0x80_0000_0000 == v1 / 512;
    assert v1 / 512 < 512;
  }

  lemma SamePage(a: nat, b: nat)
    requires a < USER_LIMIT && b < USER_LIMIT && PathOf(a) == PathOf(b)
    ensures a - a % 4096 == b - b % 4096
  {
    PageBase(a);
    PageBase(b);
  }

  lemma {:induction false} FindInPage(areas: seq<Area>, a: nat)
    requires forall v :: v in areas ==> v.start % 4096 == 0 && v.end % 4096 == 0
    ensures Find(areas, a - a % 4096) == Find(areas, a)
  {
    if areas != [] {
      var v := areas[0];
      assert v in areas;
      WholePages(v.start, a);
      WholePages(v.end, a);
      FindInPage(areas[1..], a);
    }
  }

  lemma WholePages(x: nat, a: nat)
    requires x % 4096 == 0
    ensures x <= a <==> x <= a - a % 4096
  {
  }

  lemma PrivatePage(areas: seq<Area>, a: nat)
    requires AreasOk(areas) && a < USER_LIMIT
    ensures Find(areas, AddrOf(PathOf(a))) == Find(areas, a)
    ensures SharedAt(areas, AddrOf(PathOf(a))) == SharedAt(areas, a)
  {
    PageBase(a);
    FindInPage(areas, a);
  }

  // ---------- A user write ----------

  /** The hardware lets process i write byte b at address a: the page is present, and it and all tables on the way to
      it may be written in user mode. */
  ghost predicate Writes(s: Sys, i: nat, a: nat, b: Byte, s': Sys) {
    && i < |s.procs| && s.procs[i].Alive? && a < USER_LIMIT
    && var r := Access(s.mem, s.procs[i].root, PathOf(a));
      && r.Some? && r.value.flags.user && r.value.flags.writable && r.value.frame < |s.ram|
      && s' == s.(ram := s.ram[r.value.frame := s.ram[r.value.frame][a % 4096 := b]])
  }

  lemma WriteKeepsInv(s: Sys, ext: seq<nat>, i: nat, a: nat, b: Byte, s': Sys)
    requires Inv(s, ext) && Writes(s, i, a, b, s')
    ensures Inv(s', ext)
  {
    hide Walk, PathOf, Access;
    forall k, p: Path | 0 <= k < |s'.procs| && s'.procs[k].Alive? && UserPath(p)
      ensures PageOk(s', s'.procs[k], p)
    {
      assert PageOk(s, s.procs[k], p);
    }
    forall k | 0 <= k < |s'.procs|
      ensures ProcSound(s', s'.procs[k])
    {
      assert ProcSound(s, s.procs[k]);
    }
  }

  /** A write is seen by its own process at its own address, and by no private page elsewhere. */
  lemma WriteIsPrivate(s: Sys, ext: seq<nat>, i: nat, a: nat, b: Byte, s': Sys, k: nat, x: nat)
    requires Inv(s, ext) && Writes(s, i, a, b, s') && Private(s, k, x)
    ensures Read(s', k, x) == if k == i && x == a then b else Read(s, k, x)
  {
    hide Walk, Accounting, SharedAt, Access, PathOf;
    AccessNarrows(s.mem, s.procs[i].root, PathOf(a));
    var r, r' := Walk(s.mem, s.procs[i].root, PathOf(a)), Walk(s.mem, s.procs[k].root, PathOf(x));
    if r'.Some? && r'.value.frame == r.value.frame {
      PageBase(a);
      PageBase(x);
      assert ProcSound(s, s.procs[i]) && ProcSound(s, s.procs[k]);
      PrivatePage(s.procs[k].areas, x);
      assert PageOk(s, s.procs[k], PathOf(x)) && PageOk(s, s.procs[i], PathOf(a));
      assert SameKind(r', r);
      Exclusive(s, ext, i, PathOf(a), k, PathOf(x));
      SamePage(a, x);
    }
  }

  // ---------- Exit ----------

  /** vmm_free_address_space on the address space of process i. */
  ghost predicate Exits(s: Sys, i: nat, s': Sys) {
    && i < |s.procs| && s.procs[i].Alive?
    && Frames.Valid(s'.pmm) && SameReserved(s.pmm, s'.pmm)
    && (forall g :: 0 < g < |s.pmm.rc| ==> s'.pmm.rc[g] == s.pmm.rc[g] - SpaceRefs(s.mem, s.procs[i].root, g))
    && s'.mem == s.mem && s'.ram == s.ram && s'.procs == s.procs[i := Dead]
  }

  /** What process i refers to and another process refers to as well is held at least twice. */
  lemma HeldTwice(s: Sys, ext: seq<nat>, i: nat, j: nat, g: nat)
    requires Inv(s, ext) && i < |s.procs| && j < |s.procs| && i != j && 0 < g < |s.pmm.rc|
    requires ProcRefs(s.mem, s.procs[i], g) > 0 && ProcRefs(s.mem, s.procs[j], g) > 0
    ensures s.pmm.rc[g] >= 2
  {
    if i < j {
      TotalTwo(s.mem, s.procs, i, j, g);
    } else {
      TotalTwo(s.mem, s.procs, j, i, g);
    }
  }

  /** Soundness only depends on which frames may be tables. */
  lemma {:induction false} SoundMono(mem: Memory, tables: set<nat>, tables': set<nat>, f: nat, level: nat, n: nat)
    requires n <= ENTRIES && Sound(mem, tables, f, level, n)
    requires forall q: seq<Index> :: 0 < |q| < level && q[0] < n && RefAt(mem, f, level, q).Some? ==>
               RefAt(mem, f, level, q).value in tables'
    ensures Sound(mem, tables', f, level, n)
    decreases level
  {
    forall i: Index | 0 <= i < n
      ensures EntrySound(mem, tables', TableOf(mem, f)[i], level)
    {
      var e := TableOf(mem, f)[i];
      assert EntrySound(mem, tables, e, level);
      if e.Present() && level > 1 {
        assert RefAt(mem, f, level, [i]) == Some(e.frame);
        forall q: seq<Index> | 0 < |q| < level - 1 && q[0] < ENTRIES && RefAt(mem, e.frame, level - 1, q).Some?
          ensures RefAt(mem, e.frame, level - 1, q).value in tables'
        {
          assert ([i] + q)[1..] == q;
          assert RefAt(mem, f, level, [i] + q) == RefAt(mem, e.frame, level - 1, q);
        }
        SoundMono(mem, tables, tables', e.frame, level - 1, ENTRIES);
      }
    }
  }

  lemma ExitKeepsInv(s: Sys, ext: seq<nat>, i: nat, s': Sys)
    requires Inv(s, ext) && Exits(s, i, s')
    ensures Inv(s', ext)
  {
    hide PagesOk, NoMixing, TotalRefs, ProcSound, RefsUpTo;
    forall g | 0 < g < |s.pmm.rc|
      ensures s'.pmm.rc[g] == ext[g] + TotalRefs(s'.mem, s'.procs, g)
    {
      ExitTotal(s, ext, i, s', g);
    }
    forall j | 0 <= j < |s'.procs|
      ensures ProcSound(s', s'.procs[j])
    {
      ExitSound(s, ext, i, s', j);
    }
    ExitPages(s, ext, i, s');
  }

  lemma ExitTotal(s: Sys, ext: seq<nat>, i: nat, s': Sys, g: nat)
    requires Inv(s, ext) && Exits(s, i, s') && 0 < g < |s.pmm.rc|
    ensures s'.pmm.rc[g] == ext[g] + TotalRefs(s'.mem, s'.procs, g)
  {
    hide PagesOk, NoMixing, ProcSound, RefsUpTo;
    TotalChange(s.mem, s'.mem, s.procs, s'.procs, i, g);
  }

  lemma ExitSound(s: Sys, ext: seq<nat>, i: nat, s': Sys, j: nat)
    requires Inv(s, ext) && Exits(s, i, s') && j < |s'.procs|
    ensures ProcSound(s', s'.procs[j])
  {
    hide PagesOk, NoMixing, RefsUpTo;
    assert ProcSound(s, s.procs[j]);
    if j != i && s.procs[j].Alive? {
      var root := s.procs[j].root;
      forall q: seq<Index> | 0 < |q| < 4 && q[0] < USER_ENTRIES && RefAt(s.mem, root, 4, q).Some?
        ensures RefAt(s.mem, root, 4, q).value in Singles(s'.pmm.rc)
      {
        var t := RefAt(s.mem, root, 4, q).value;
        InnerRef(s.mem, Singles(s.pmm.rc), root, 4, USER_ENTRIES, q);
        OneRef(s.mem, root, 4, USER_ENTRIES, q);
        if ProcRefs(s.mem, s.procs[i], t) > 0 {
          HeldTwice(s, ext, i, j, t);
        }
      }
      if ProcRefs(s.mem, s.procs[i], root) > 0 {
        HeldTwice(s, ext, i, j, root);
      }
      SoundMono(s.mem, Singles(s.pmm.rc), Singles(s'.pmm.rc), root, 4, USER_ENTRIES);
    }
  }

  lemma ExitPages(s: Sys, ext: seq<nat>, i: nat, s': Sys)
    requires Inv(s, ext) && Exits(s, i, s')
    ensures PagesOk(s') && NoMixing(s')
  {
    hide Walk, Accounting, PageOk, SameKind, ProcSound, RefsUpTo;
    forall j, p: Path | 0 <= j < |s'.procs| && s'.procs[j].Alive? && UserPath(p)
      ensures PageOk(s', s'.procs[j], p)
    {
      ExitPage(s, ext, i, s', j, p);
    }
    forall j, k, p: Path, q: Path | 0 <= j < |s'.procs| && 0 <= k < |s'.procs| &&
        s'.procs[j].Alive? && s'.procs[k].Alive? && UserPath(p) && UserPath(q)
      ensures SameKind(Walk(s'.mem, s'.procs[j].root, p), Walk(s'.mem, s'.procs[k].root, q))
    {
      assert SameKind(Walk(s.mem, s.procs[j].root, p), Walk(s.mem, s.procs[k].root, q));
    }
  }

  lemma ExitPage(s: Sys, ext: seq<nat>, i: nat, s': Sys, j: nat, p: Path)
    requires Inv(s, ext) && Exits(s, i, s') && j < |s'.procs| && s'.procs[j].Alive? && UserPath(p)
    ensures PageOk(s', s'.procs[j], p)
  {
    hide Walk, Accounting, NoMixing, ProcSound, RefsUpTo, SharedAt;
    assert PageOk(s, s.procs[j], p);
    var r := Walk(s.mem, s.procs[j].root, p);
    if r.Some? && !r.value.flags.shared && r.value.flags.writable {
      MappedCounted(s, ext, j, p);
      if ProcRefs(s.mem, s.procs[i], r.value.frame) > 0 {
        HeldTwice(s, ext, i, j, r.value.frame);
      }
    }
  }

  lemma ExitKeepsReads(s: Sys, ext: seq<nat>, i: nat, s': Sys, k: nat, x: nat)
    requires Inv(s, ext) && Exits(s, i, s') && Private(s', k, x)
    ensures Private(s, k, x) && Read(s', k, x) == Read(s, k, x)
  {
    hide Inv, Walk, SharedAt, RefsUpTo;
  }

  // ---------- Fork ----------

  /** Frames in use keep their contents. */
  ghost predicate RamKept(s: Sys, s': Sys) {
    |s'.ram| == |s.ram| == |s.pmm.used| &&
    forall f :: 0 <= f < |s.ram| && s.pmm.used[f] ==> s'.ram[f] == s.ram[f]
  }

  ghost predicate TablesWeaker(s: Sys, mem': Memory) {
    |mem'| == |s.mem| == |s.pmm.used| &&
    forall t :: 0 <= t < |s.mem| && s.pmm.used[t] ==> Weaker(s.mem[t], mem'[t])
  }

  /** Process i forks: the new process has a copy of its address space and of its areas. */
  ghost predicate Forks(s: Sys, i: nat, s': Sys) {
    && i < |s.procs| && s.procs[i].Alive? && Frames.Valid(s'.pmm) && SameReserved(s.pmm, s'.pmm) && RamKept(s, s')
    && |s'.procs| == |s.procs| + 1 && s'.procs[..|s.procs|] == s.procs
    && var child := s'.procs[|s.procs|];
      child.Alive? && child.areas == s.procs[i].areas && SpaceCloned(s.St(), s'.St(), s.procs[i].root, child.root)
  }

  /** A fork that fails: everything taken was given back; at most write permissions were lost. */
  ghost predicate ForkFails(s: Sys, i: nat, s': Sys) {
    && i < |s.procs| && s.procs[i].Alive? && Frames.Valid(s'.pmm) && SameReserved(s.pmm, s'.pmm) && RamKept(s, s')
    && s'.procs == s.procs && s'.pmm.rc == s.pmm.rc && TablesWeaker(s, s'.mem)
    && Aside(s.St(), s'.mem, s.procs[i].root, |s.mem|, 4, USER_ENTRIES)
    && SourceTop(s.St(), s'.mem, s.procs[i].root, 4, USER_ENTRIES)
    && Shadows(s.St(), s'.mem, s.procs[i].root, |s.mem|, 4, 0, USER_ENTRIES)
  }

  /** Lost write permissions do not change what an address space refers to or translates to. */
  lemma WeakerSpace(s: Sys, ext: seq<nat>, mem': Memory, j: nat)
    requires Inv(s, ext) && TablesWeaker(s, mem') && j < |s.procs| && s.procs[j].Alive?
    ensures forall g :: SpaceRefs(mem', s.procs[j].root, g) == SpaceRefs(s.mem, s.procs[j].root, g)
    ensures Sound(mem', Singles(s.pmm.rc), s.procs[j].root, 4, USER_ENTRIES) && TopClear(mem', s.procs[j].root)
    ensures forall p: Path :: UserPath(p) ==>
              Walk(mem', s.procs[j].root, p) in {Walk(s.mem, s.procs[j].root, p), Down(Walk(s.mem, s.procs[j].root, p))}
  {
    hide PagesOk, NoMixing, Accounting, RefsUpTo, Walk, Sound;
    var root := s.procs[j].root;
    InvOwned(s, ext, j);
    forall k | 0 <= k < USER_ENTRIES
      ensures WeakerBelow(s.mem, mem', TableOf(s.mem, root)[k], 4)
    {
      OwnedBelow(s.St(), root, k);
    }
    assert ProcSound(s, s.procs[j]);
    WeakerTop(s.mem, mem', root);
    WeakerTable(s.mem, mem', Singles(s.pmm.rc), root, 4, USER_ENTRIES);
  }

  lemma WeakerTop(mem: Memory, mem': Memory, root: nat)
    requires TopClear(mem, root) && Weaker(TableOf(mem, root), TableOf(mem', root))
    ensures TopClear(mem', root)
  {
  }

  lemma WeakerTable(mem: Memory, mem': Memory, tables: set<nat>, f: nat, level: nat, n: nat)
    requires n <= ENTRIES && Weaker(TableOf(mem, f), TableOf(mem', f)) && Sound(mem, tables, f, level, n)
    requires forall j :: 0 <= j < n ==> WeakerBelow(mem, mem', TableOf(mem, f)[j], level)
    ensures forall g :: RefsUpTo(mem', f, level, n, g) == RefsUpTo(mem, f, level, n, g)
    ensures Sound(mem', tables, f, level, n)
    ensures forall p: Path :: |p| == level && p[0] < n ==>
              Walk(mem', f, p) in {Walk(mem, f, p), Down(Walk(mem, f, p))}
  {
    forall g
      ensures RefsUpTo(mem', f, level, n, g) == RefsUpTo(mem, f, level, n, g)
    {
      WeakerPrefix(mem, mem', f, level, n, g);
    }
    forall k | 0 <= k < n
      ensures EntrySound(mem', tables, TableOf(mem', f)[k], level)
    {
      assert EntrySound(mem, tables, TableOf(mem, f)[k], level);
      WeakerSound(mem, mem', tables, tables, TableOf(mem, f)[k], level);
    }
    forall p: Path | |p| == level && p[0] < n
      ensures Walk(mem', f, p) in {Walk(mem, f, p), Down(Walk(mem, f, p))}
    {
      WeakerWalk(mem, mem', TableOf(mem, f)[p[0]], p);
    }
  }

  lemma {:induction false} WeakerPrefix(mem: Memory, mem': Memory, f: nat, level: nat, n: nat, g: nat)
    requires n <= ENTRIES && Weaker(TableOf(mem, f), TableOf(mem', f))
    requires forall j :: 0 <= j < n ==> WeakerBelow(mem, mem', TableOf(mem, f)[j], level)
    ensures RefsUpTo(mem', f, level, n, g) == RefsUpTo(mem, f, level, n, g)
  {
    if n > 0 {
      WeakerPrefix(mem, mem', f, level, n - 1, g);
      WeakerRefs(mem, mem', TableOf(mem, f)[n - 1], level, g);
    }
  }

  /** What lost write permissions leave of the pages. */
  lemma WeakerPages(s: Sys, ext: seq<nat>, mem': Memory, j: nat, p: Path)
    requires Inv(s, ext) && TablesWeaker(s, mem') && j < |s.procs| && s.procs[j].Alive? && UserPath(p)
    ensures var r, r' := Walk(s.mem, s.procs[j].root, p), Walk(mem', s.procs[j].root, p);
            && r.Some? == r'.Some?
            && (r.Some? ==> r'.value.frame == r.value.frame && r'.value.flags.shared == r.value.flags.shared)
            && (r.Some? && r'.value.flags.writable ==> r.value.flags.writable)
  {
    WeakerSpace(s, ext, mem', j);
  }

  lemma ForkFailsKeepsInv(s: Sys, ext: seq<nat>, i: nat, s': Sys)
    requires Inv(s, ext) && ForkFails(s, i, s')
    ensures Inv(s', ext)
  {
    hide Walk, Weaker, RefsUpTo;
    forall g | 0 < g < |s.pmm.rc|
      ensures s'.pmm.rc[g] == ext[g] + TotalRefs(s'.mem, s'.procs, g)
    {
      forall j | 0 <= j < |s.procs|
        ensures ProcRefs(s'.mem, s.procs[j], g) == ProcRefs(s.mem, s.procs[j], g)
      {
        if s.procs[j].Alive? { WeakerSpace(s, ext, s'.mem, j); }
      }
      TotalSame(s.mem, s'.mem, s.procs, g);
    }
    forall j | 0 <= j < |s'.procs|
      ensures ProcSound(s', s'.procs[j])
    {
      assert ProcSound(s, s.procs[j]);
      if s.procs[j].Alive? { WeakerSpace(s, ext, s'.mem, j); }
    }
    ForkFailsPages(s, ext, i, s');
  }

  lemma ForkFailsPages(s: Sys, ext: seq<nat>, i: nat, s': Sys)
    requires Inv(s, ext) && ForkFails(s, i, s')
    ensures PagesOk(s') && NoMixing(s')
  {
    hide Walk, Weaker, TablesWeaker, RefsUpTo, Accounting, SharedAt;
    forall j, p: Path | 0 <= j < |s'.procs| && s'.procs[j].Alive? && UserPath(p)
      ensures PageOk(s', s'.procs[j], p)
    {
      assert PageOk(s, s.procs[j], p);
      WeakerPages(s, ext, s'.mem, j, p);
    }
    forall j, k, p: Path, q: Path | 0 <= j < |s'.procs| && 0 <= k < |s'.procs| &&
        s'.procs[j].Alive? && s'.procs[k].Alive? && UserPath(p) && UserPath(q)
      ensures SameKind(Walk(s'.mem, s'.procs[j].root, p), Walk(s'.mem, s'.procs[k].root, q))
    {
      assert SameKind(Walk(s.mem, s.procs[j].root, p), Walk(s.mem, s.procs[k].root, q));
      WeakerPages(s, ext, s'.mem, j, p);
      WeakerPages(s, ext, s'.mem, k, q);
    }
  }

  /** Reads are not changed by lost write permissions. */
  lemma WeakerReads(s: Sys, ext: seq<nat>, s': Sys, k: nat, x: nat)
    requires Inv(s, ext) && TablesWeaker(s, s'.mem) && RamKept(s, s')
    requires Private(s, k, x) && k < |s'.procs| && s'.procs[k] == s.procs[k]
    ensures Read(s', k, x) == Read(s, k, x)
  {
    hide Walk, Weaker, TablesWeaker, RefsUpTo;
    PageBase(x);
    WeakerPages(s, ext, s'.mem, k, PathOf(x));
    var r := Walk(s.mem, s.procs[k].root, PathOf(x));
    if r.Some? {
      assert ProcSound(s, s.procs[k]);
      PrivatePage(s.procs[k].areas, x);
      assert PageOk(s, s.procs[k], PathOf(x));
      MappedCounted(s, ext, k, PathOf(x));
      TotalOne(s.mem, s.procs, k, r.value.frame);
    }
  }

  lemma ForkWeakens(s: Sys, i: nat, s': Sys)
    requires Forks(s, i, s') && |s.mem| == |s.pmm.rc|
    ensures TablesWeaker(s, s'.mem)
  {
  }

  /** A page the child refers to, and that was held before, is a page of the parent. */
  lemma ChildRefs(s: Sys, ext: seq<nat>, i: nat, s': Sys, t: nat) returns (p: Path)
    requires Inv(s, ext) && Forks(s, i, s') && 0 < t < |s.pmm.rc| && s.pmm.rc[t] > 0
    requires SpaceRefs(s'.mem, s'.procs[|s.procs|].root, t) > 0
    ensures UserPath(p) && Walk(s.mem, s.procs[i].root, p).Some?
    ensures Walk(s.mem, s.procs[i].root, p).value.frame == t
    ensures RefAt(s.mem, s.procs[i].root, 4, p) == Some(t)
  {
    hide PagesOk, NoMixing, Accounting, Held, Aside, RefsUpTo, Sound;
    var root, src, rc' := s'.procs[|s.procs|].root, s.procs[i].root, s'.pmm.rc;
    var q := RefWitness(s'.mem, root, 4, USER_ENTRIES, t);
    if |q| < 4 {
      InnerRef(s'.mem, Fresh(s.pmm.rc, rc'), root, 4, USER_ENTRIES, q);
      assert false;
    }
    p := q;
    LeafRef(s'.mem, Fresh(s.pmm.rc, rc'), root, USER_ENTRIES, p);
    assert ProcSound(s, s.procs[i]);
    LeafRef(s.mem, Singles(s.pmm.rc), src, USER_ENTRIES, p);
  }

  /** Tables stay held once when a process forks. */
  lemma ForkTable(s: Sys, ext: seq<nat>, i: nat, s': Sys, j: nat, q: seq<Index>)
    requires Inv(s, ext) && Forks(s, i, s') && j < |s.procs| && s.procs[j].Alive?
    requires |q| < 4 && (q != [] ==> q[0] < USER_ENTRIES && RefAt(s.mem, s.procs[j].root, 4, q).Some?)
    ensures var t := if q == [] then s.procs[j].root else RefAt(s.mem, s.procs[j].root, 4, q).value;
            0 < t < |s.pmm.rc| && s'.pmm.rc[t] == 1
  {
    hide PagesOk, NoMixing, Copied, Held, Aside, RefsUpTo, Sound;
    var root := s.procs[j].root;
    var t := if q == [] then root else RefAt(s.mem, root, 4, q).value;
    assert ProcSound(s, s.procs[j]);
    if q != [] {
      InnerRef(s.mem, Singles(s.pmm.rc), root, 4, USER_ENTRIES, q);
      OneRef(s.mem, root, 4, USER_ENTRIES, q);
    }
    if SpaceRefs(s'.mem, s'.procs[|s.procs|].root, t) > 0 {
      var p := ChildRefs(s, ext, i, s', t);
      OneRef(s.mem, s.procs[i].root, 4, USER_ENTRIES, p);
      if i != j {
        HeldTwice(s, ext, i, j, t);
      } else {
        TotalOne(s.mem, s.procs, i, t);
        if q != [] {
          TwoRefs(s.mem, root, 4, USER_ENTRIES, p, q);
        }
      }
    }
  }

  lemma ForkSound(s: Sys, ext: seq<nat>, i: nat, s': Sys, j: nat)
    requires Inv(s, ext) && Forks(s, i, s') && j < |s'.procs|
    ensures ProcSound(s', s'.procs[j])
  {
    hide PagesOk, NoMixing, Accounting, Copied, Held, Aside, RefsUpTo, Weaker, Walk;
    var rc, rc' := s.pmm.rc, s'.pmm.rc;
    ForkWeakens(s, i, s');
    if j < |s.procs| {
      assert s'.procs[j] == s'.procs[..|s.procs|][j];
      assert ProcSound(s, s.procs[j]);
      if s.procs[j].Alive? {
        var root := s.procs[j].root;
        ForkTable(s, ext, i, s', j, []);
        forall q: seq<Index> | 0 < |q| < 4 && q[0] < USER_ENTRIES && RefAt(s.mem, root, 4, q).Some?
          ensures RefAt(s.mem, root, 4, q).value in Singles(rc')
        {
          ForkTable(s, ext, i, s', j, q);
        }
        SoundMono(s.mem, Singles(rc), Singles(rc'), root, 4, USER_ENTRIES);
        ForkSoundOld(s, ext, i, s', j);
        WeakerSpace(s, ext, s'.mem, j);
      }
    } else {
      assert ProcSound(s, s.procs[i]);
      var root := s'.procs[j].root;
      forall q: seq<Index> | 0 < |q| < 4 && q[0] < USER_ENTRIES && RefAt(s'.mem, root, 4, q).Some?
        ensures RefAt(s'.mem, root, 4, q).value in Singles(rc')
      {
        InnerRef(s'.mem, Fresh(rc, rc'), root, 4, USER_ENTRIES, q);
      }
      SoundMono(s'.mem, Fresh(rc, rc'), Singles(rc'), root, 4, USER_ENTRIES);
    }
  }

  lemma ForkSoundOld(s: Sys, ext: seq<nat>, i: nat, s': Sys, j: nat)
    requires Inv(s, ext) && Forks(s, i, s') && j < |s.procs| && s.procs[j].Alive?
    requires Sound(s.mem, Singles(s'.pmm.rc), s.procs[j].root, 4, USER_ENTRIES)
    ensures Sound(s'.mem, Singles(s'.pmm.rc), s.procs[j].root, 4, USER_ENTRIES)
  {
    hide PagesOk, NoMixing, Accounting, Copied, Held, Aside, RefsUpTo, Walk, Sound;
    ForkWeakens(s, i, s');
    InvOwned(s, ext, j);
    var root := s.procs[j].root;
    forall k | 0 <= k < USER_ENTRIES
      ensures WeakerBelow(s.mem, s'.mem, TableOf(s.mem, root)[k], 4)
    {
      OwnedBelow(s.St(), root, k);
    }
    assert ProcSound(s, s.procs[j]);
    WeakerTable(s.mem, s'.mem, Singles(s'.pmm.rc), root, 4, USER_ENTRIES);
  }

  /** The page of the parent behind a page after the fork, and what became of it. */
  lemma ForkPage(s: Sys, ext: seq<nat>, i: nat, s': Sys, j: nat, p: Path)
    requires Inv(s, ext) && Forks(s, i, s') && j < |s'.procs| && s'.procs[j].Alive? && UserPath(p)
    ensures var k := if j < |s.procs| then j else i;
            && k < |s.procs| && s.procs[k].Alive? && s'.procs[j].areas == s.procs[k].areas
            && var r, r' := Walk(s.mem, s.procs[k].root, p), Walk(s'.mem, s'.procs[j].root, p);
              && r.Some? == r'.Some?
              && (r.Some? ==> r'.value.frame == r.value.frame && r'.value.flags.shared == r.value.flags.shared)
              && (r.Some? && r'.value.flags.writable ==> r.value.flags.writable)
              && (r.Some? && k == i && r'.value.flags.writable ==> r.value.flags.shared)
  {
    hide PagesOk, NoMixing, Accounting, Held, Aside, RefsUpTo, Sound, Weaker, TablesWeaker, Walk;
    ForkWeakens(s, i, s');
    if j < |s.procs| {
      assert s'.procs[j] == s'.procs[..|s.procs|][j];
      WeakerPages(s, ext, s'.mem, j, p);
    }
    LeafPresent(s.mem, s.procs[i].root, p);
  }

  lemma LeafPresent(mem: Memory, f: nat, p: Path)
    ensures Walk(mem, f, p).Some? ==> Walk(mem, f, p).value.flags.present
  {
    EntryPresent(mem, TableOf(mem, f)[p[0]], p);
  }

  lemma {:induction false} EntryPresent(mem: Memory, e: Pte, p: Path)
    ensures WalkEntry(mem, e, p).Some? ==> WalkEntry(mem, e, p).value.flags.present
    decreases |p|
  {
    if Branches(e, |p|) {
      EntryPresent(mem, TableOf(mem, e.frame)[p[1]], p[1..]);
    }
  }

  lemma ForkPageOk(s: Sys, ext: seq<nat>, i: nat, s': Sys, j: nat, p: Path)
    requires Inv(s, ext) && Forks(s, i, s') && j < |s'.procs| && s'.procs[j].Alive? && UserPath(p)
    ensures PageOk(s', s'.procs[j], p)
  {
    hide NoMixing, Accounting, Held, Aside, Copied, RefsUpTo, Sound, Walk;
    ForkPage(s, ext, i, s', j, p);
    var k := if j < |s.procs| then j else i;
    assert PageOk(s, s.procs[k], p);
    var r, r' := Walk(s.mem, s.procs[k].root, p), Walk(s'.mem, s'.procs[j].root, p);
    if r.Some? && !r.value.flags.shared && r'.value.flags.writable {
      var t := r.value.frame;
      if SpaceRefs(s'.mem, s'.procs[|s.procs|].root, t) > 0 {
        var q := ChildRefs(s, ext, i, s', t);
        MappedCounted(s, ext, i, q);
        MappedCounted(s, ext, k, p);
        HeldTwice(s, ext, i, k, t);
      }
    }
  }

  lemma ForkKeepsInv(s: Sys, ext: seq<nat>, i: nat, s': Sys)
    requires Inv(s, ext) && Forks(s, i, s')
    ensures Inv(s', ext)
  {
    hide Walk, Held, Aside, Copied, Sound, SharedAt, RefsUpTo, NoMixing;
    forall g | 0 < g < |s.pmm.rc|
      ensures s'.pmm.rc[g] == ext[g] + TotalRefs(s'.mem, s'.procs, g)
    {
      ForkTotal(s, ext, i, s', g);
    }
    forall j | 0 <= j < |s'.procs|
      ensures ProcSound(s', s'.procs[j])
    {
      ForkSound(s, ext, i, s', j);
    }
    forall j, p: Path | 0 <= j < |s'.procs| && s'.procs[j].Alive? && UserPath(p)
      ensures PageOk(s', s'.procs[j], p)
    {
      ForkPageOk(s, ext, i, s', j, p);
    }
    ForkKinds(s, ext, i, s');
  }

  lemma ForkKinds(s: Sys, ext: seq<nat>, i: nat, s': Sys)
    requires Inv(s, ext) && Forks(s, i, s')
    ensures NoMixing(s')
  {
    hide Walk, Held, Aside, Copied, Sound, SharedAt, RefsUpTo, Accounting, PagesOk, SourceTop;
    forall j, k, p: Path, q: Path | 0 <= j < |s'.procs| && 0 <= k < |s'.procs| &&
        s'.procs[j].Alive? && s'.procs[k].Alive? && UserPath(p) && UserPath(q)
      ensures SameKind(Walk(s'.mem, s'.procs[j].root, p), Walk(s'.mem, s'.procs[k].root, q))
    {
      ForkPage(s, ext, i, s', j, p);
      ForkPage(s, ext, i, s', k, q);
      var j', k' := if j < |s.procs| then j else i, if k < |s.procs| then k else i;
      assert SameKind(Walk(s.mem, s.procs[j'].root, p), Walk(s.mem, s.procs[k'].root, q));
    }
  }

  lemma ForkTotal(s: Sys, ext: seq<nat>, i: nat, s': Sys, g: nat)
    requires Inv(s, ext) && Forks(s, i, s') && 0 < g < |s.pmm.rc|
    ensures s'.pmm.rc[g] == ext[g] + TotalRefs(s'.mem, s'.procs, g)
  {
    hide PagesOk, NoMixing, Held, Aside, Copied, Sound, RefsUpTo, Walk;
    ForkWeakens(s, i, s');
    forall j | 0 <= j < |s.procs|
      ensures ProcRefs(s'.mem, s.procs[j], g) == ProcRefs(s.mem, s.procs[j], g)
    {
      if s.procs[j].Alive? { WeakerSpace(s, ext, s'.mem, j); }
    }
    TotalSame(s.mem, s'.mem, s.procs, g);
  }

  /** The child reads what the parent reads, and nobody else notices the fork. */
  lemma ForkReads(s: Sys, ext: seq<nat>, i: nat, s': Sys, j: nat, x: nat)
    requires Inv(s, ext) && Forks(s, i, s') && Private(s', j, x)
    ensures var k := if j < |s.procs| then j else i; Private(s, k, x) && Read(s', j, x) == Read(s, k, x)
  {
    hide Walk, Held, Aside, Copied, Sound, RefsUpTo, SharedAt;
    var k := if j < |s.procs| then j else i;
    PageBase(x);
    ForkPage(s, ext, i, s', j, PathOf(x));
    var r := Walk(s.mem, s.procs[k].root, PathOf(x));
    if r.Some? {
      assert ProcSound(s, s.procs[k]);
      PrivatePage(s.procs[k].areas, x);
      assert PageOk(s, s.procs[k], PathOf(x));
      MappedCounted(s, ext, k, PathOf(x));
      TotalOne(s.mem, s.procs, k, r.value.frame);
    }
  }

  // ---------- New processes ----------

  /** A new process with an empty address space: vmm_create_address_space. */
  ghost predicate Spawns(s: Sys, areas: seq<Area>, s': Sys) {
    && Frames.Valid(s'.pmm) && SameReserved(s.pmm, s'.pmm) && s'.ram == s.ram && AreasOk(areas)
    && |s'.procs| == |s.procs| + 1 && s'.procs[..|s.procs|] == s.procs
    && var child := s'.procs[|s.procs|];
      && child.Alive? && child.areas == areas && 0 < child.root < |s.pmm.rc| && !s.pmm.used[child.root]
      && s'.pmm.rc == s.pmm.rc[child.root := 1]
      && |s'.mem| == |s.mem| == |s.pmm.rc| && s'.mem == s.mem[child.root := s'.mem[child.root]]
      && forall j :: 0 <= j < USER_ENTRIES ==> s'.mem[child.root][j] == ABSENT
  }

  lemma SpawnOld(s: Sys, areas: seq<Area>, s': Sys, j: nat)
    requires Spawns(s, areas, s') && j < |s.procs|
    ensures s'.procs[j] == s.procs[j]
  {
    assert s'.procs[j] == s'.procs[..|s.procs|][j];
  }

  lemma SpawnWeaker(s: Sys, areas: seq<Area>, s': Sys)
    requires Spawns(s, areas, s')
    ensures TablesWeaker(s, s'.mem)
  {
  }

  lemma SpawnTotal(s: Sys, ext: seq<nat>, areas: seq<Area>, s': Sys, g: nat)
    requires Inv(s, ext) && Spawns(s, areas, s') && 0 < g < |s.pmm.rc|
    ensures s'.pmm.rc[g] == ext[g] + TotalRefs(s'.mem, s'.procs, g)
  {
    hide PagesOk, NoMixing, Sound, RefsUpTo, Walk, TablesWeaker;
    SpawnWeaker(s, areas, s');
    forall j | 0 <= j < |s.procs|
      ensures ProcRefs(s'.mem, s.procs[j], g) == ProcRefs(s.mem, s.procs[j], g)
    {
      if s.procs[j].Alive? { WeakerSpace(s, ext, s'.mem, j); }
    }
    TotalSame(s.mem, s'.mem, s.procs, g);
    SpawnRefs(s'.mem, s'.procs[|s.procs|].root, USER_ENTRIES, g);
  }

  lemma {:induction false} SpawnRefs(mem: Memory, root: nat, n: nat, g: nat)
    requires n <= ENTRIES && forall j :: 0 <= j < n ==> TableOf(mem, root)[j] == ABSENT
    ensures RefsUpTo(mem, root, 4, n, g) == 0
    decreases n
  {
    if n > 0 {
      SpawnRefs(mem, root, n - 1, g);
    }
  }

  lemma SpawnSound(s: Sys, ext: seq<nat>, areas: seq<Area>, s': Sys, j: nat)
    requires Inv(s, ext) && Spawns(s, areas, s') && j < |s'.procs|
    ensures ProcSound(s', s'.procs[j])
  {
    hide PagesOk, NoMixing, Accounting, RefsUpTo, Walk, TablesWeaker;
    SpawnWeaker(s, areas, s');
    if j < |s.procs| {
      SpawnOld(s, areas, s', j);
      assert ProcSound(s, s.procs[j]);
      if s.procs[j].Alive? {
        WeakerSpace(s, ext, s'.mem, j);
        SoundGrows(s'.mem, Singles(s.pmm.rc), Singles(s'.pmm.rc), s.procs[j].root, 4, USER_ENTRIES);
      }
    } else {
      var root := s'.procs[j].root;
      assert forall i :: 0 <= i < USER_ENTRIES ==> TableOf(s'.mem, root)[i] == ABSENT;
    }
  }

  /** The new process has no pages; all others have the pages they had. */
  lemma SpawnPage(s: Sys, ext: seq<nat>, areas: seq<Area>, s': Sys, j: nat, p: Path)
    requires Inv(s, ext) && Spawns(s, areas, s') && j < |s'.procs| && s'.procs[j].Alive? && UserPath(p)
    ensures j == |s.procs| ==> Walk(s'.mem, s'.procs[j].root, p) == None
    ensures j < |s.procs| ==>
              && s'.procs[j] == s.procs[j]
              && var r, r' := Walk(s.mem, s.procs[j].root, p), Walk(s'.mem, s.procs[j].root, p);
                && r.Some? == r'.Some?
                && (r.Some? ==> r'.value.frame == r.value.frame && r'.value.flags.shared == r.value.flags.shared)
                && (r.Some? && r'.value.flags.writable ==> r.value.flags.writable)
  {
    hide PagesOk, NoMixing, Accounting, RefsUpTo, Sound, TablesWeaker, Weaker;
    SpawnWeaker(s, areas, s');
    if j < |s.procs| {
      SpawnOld(s, areas, s', j);
      WeakerPages(s, ext, s'.mem, j, p);
    } else {
      assert TableOf(s'.mem, s'.procs[j].root)[p[0]] == ABSENT;
    }
  }

  lemma SpawnPageOk(s: Sys, ext: seq<nat>, areas: seq<Area>, s': Sys, j: nat, p: Path)
    requires Inv(s, ext) && Spawns(s, areas, s') && j < |s'.procs| && s'.procs[j].Alive? && UserPath(p)
    ensures PageOk(s', s'.procs[j], p)
  {
    hide NoMixing, Accounting, RefsUpTo, Sound, Walk, SharedAt;
    SpawnPage(s, ext, areas, s', j, p);
    if j < |s.procs| {
      assert PageOk(s, s.procs[j], p);
    }
  }

  lemma SpawnKeepsInv(s: Sys, ext: seq<nat>, areas: seq<Area>, s': Sys)
    requires Inv(s, ext) && Spawns(s, areas, s')
    ensures Inv(s', ext)
  {
    hide Walk, Sound, SharedAt, RefsUpTo, TotalRefs;
    forall g | 0 < g < |s.pmm.rc|
      ensures s'.pmm.rc[g] == ext[g] + TotalRefs(s'.mem, s'.procs, g)
    {
      SpawnTotal(s, ext, areas, s', g);
    }
    forall j | 0 <= j < |s'.procs|
      ensures ProcSound(s', s'.procs[j])
    {
      SpawnSound(s, ext, areas, s', j);
    }
    forall j, p: Path | 0 <= j < |s'.procs| && s'.procs[j].Alive? && UserPath(p)
      ensures PageOk(s', s'.procs[j], p)
    {
      SpawnPageOk(s, ext, areas, s', j, p);
    }
    SpawnKinds(s, ext, areas, s');
  }

  lemma SpawnKinds(s: Sys, ext: seq<nat>, areas: seq<Area>, s': Sys)
    requires Inv(s, ext) && Spawns(s, areas, s')
    ensures NoMixing(s')
  {
    hide Walk, PagesOk, Accounting;
    forall j, k, p: Path, q: Path | 0 <= j < |s'.procs| && 0 <= k < |s'.procs| &&
        s'.procs[j].Alive? && s'.procs[k].Alive? && UserPath(p) && UserPath(q)
      ensures SameKind(Walk(s'.mem, s'.procs[j].root, p), Walk(s'.mem, s'.procs[k].root, q))
    {
      SpawnPage(s, ext, areas, s', j, p);
      SpawnPage(s, ext, areas, s', k, q);
      if j < |s.procs| && k < |s.procs| {
        assert SameKind(Walk(s.mem, s.procs[j].root, p), Walk(s.mem, s.procs[k].root, q));
      }
    }
  }

  /** The new process reads zeros, and nobody else notices it. */
  lemma SpawnReads(s: Sys, ext: seq<nat>, areas: seq<Area>, s': Sys, j: nat, x: nat)
    requires Inv(s, ext) && Spawns(s, areas, s') && Private(s', j, x)
    ensures j == |s.procs| ==> Read(s', j, x) == 0
    ensures j < |s.procs| ==> Private(s, j, x) && Read(s', j, x) == Read(s, j, x)
  {
    hide Walk, Inv, SharedAt, Weaker;
    PageBase(x);
    SpawnPage(s, ext, areas, s', j, PathOf(x));
    SpawnWeaker(s, areas, s');
    InvSize(s, ext);
    if j < |s.procs| {
      WeakerReads(s, ext, s', j, x);
    }
  }

  // ---------- Frames the kernel takes and gives back ----------

  /** pmm_alloc_frame: frame nf, cleared, now belongs to the kernel. */
  ghost predicate Takes(s: Sys, nf: nat, page: Page, s': Sys) {
    && SameReserved(s.pmm, s'.pmm) && 0 < nf < |s.pmm.rc| && !s.pmm.used[nf]
    && Frames.Valid(s'.pmm) && s'.pmm.rc == s.pmm.rc[nf := 1]
    && nf < |s.mem| && s'.mem == s.mem[nf := EmptyTable()]
    && nf < |s.ram| && s'.ram == s.ram[nf := page] && s'.procs == s.procs
  }

  lemma TakeKeepsInv(s: Sys, ext: seq<nat>, nf: nat, page: Page, s': Sys)
    requires Inv(s, ext) && Takes(s, nf, page, s')
    ensures ext[nf] == 0 && Inv(s', ext[nf := 1])
  {
    hide Walk, RefsUpTo, SharedAt, Sound;
    assert TablesWeaker(s, s'.mem);
    forall g | 0 < g < |s.pmm.rc|
      ensures TotalRefs(s'.mem, s'.procs, g) == TotalRefs(s.mem, s.procs, g)
    {
      forall j | 0 <= j < |s.procs|
        ensures ProcRefs(s'.mem, s.procs[j], g) == ProcRefs(s.mem, s.procs[j], g)
      {
        if s.procs[j].Alive? { WeakerSpace(s, ext, s'.mem, j); }
      }
      TotalSame(s.mem, s'.mem, s.procs, g);
    }
    forall j | 0 <= j < |s'.procs|
      ensures ProcSound(s', s'.procs[j])
    {
      assert ProcSound(s, s.procs[j]);
      if s.procs[j].Alive? {
        WeakerSpace(s, ext, s'.mem, j);
        SoundGrows(s'.mem, Singles(s.pmm.rc), Singles(s'.pmm.rc), s.procs[j].root, 4, USER_ENTRIES);
      }
    }
    TakePages(s, ext, nf, page, s');
  }

  lemma SoundGrows(mem: Memory, tables: set<nat>, tables': set<nat>, f: nat, level: nat, n: nat)
    requires n <= ENTRIES && Sound(mem, tables, f, level, n) && tables <= tables'
    ensures Sound(mem, tables', f, level, n)
  {
    forall q: seq<Index> | 0 < |q| < level && q[0] < n && RefAt(mem, f, level, q).Some?
      ensures RefAt(mem, f, level, q).value in tables'
    {
      InnerRef(mem, tables, f, level, n, q);
    }
    SoundMono(mem, tables, tables', f, level, n);
  }

  lemma TakePages(s: Sys, ext: seq<nat>, nf: nat, page: Page, s': Sys)
    requires Inv(s, ext) && Takes(s, nf, page, s')
    ensures PagesOk(s') && NoMixing(s')
  {
    hide Walk, Accounting, SharedAt, Sound;
    assert TablesWeaker(s, s'.mem);
    forall j, p: Path | 0 <= j < |s'.procs| && s'.procs[j].Alive? && UserPath(p)
      ensures PageOk(s', s'.procs[j], p)
    {
      assert PageOk(s, s.procs[j], p);
      WeakerPages(s, ext, s'.mem, j, p);
    }
    forall j, k, p: Path, q: Path | 0 <= j < |s'.procs| && 0 <= k < |s'.procs| &&
        s'.procs[j].Alive? && s'.procs[k].Alive? && UserPath(p) && UserPath(q)
      ensures SameKind(Walk(s'.mem, s'.procs[j].root, p), Walk(s'.mem, s'.procs[k].root, q))
    {
      assert SameKind(Walk(s.mem, s.procs[j].root, p), Walk(s.mem, s.procs[k].root, q));
      WeakerPages(s, ext, s'.mem, j, p);
      WeakerPages(s, ext, s'.mem, k, q);
    }
  }

  lemma TakeKeepsReads(s: Sys, ext: seq<nat>, nf: nat, page: Page, s': Sys, k: nat, x: nat)
    requires Inv(s, ext) && Takes(s, nf, page, s') && Private(s, k, x)
    ensures Read(s', k, x) == Read(s, k, x)
  {
    WeakerReads(s, ext, s', k, x);
  }

  /** pmm_free_frame on a frame of the kernel's. */
  ghost predicate Drops(s: Sys, f: nat, s': Sys) {
    && SameReserved(s.pmm, s'.pmm) && 0 < f < |s.pmm.rc| && s.pmm.rc[f] > 0
    && Frames.Valid(s'.pmm) && s'.pmm.rc == s.pmm.rc[f := s.pmm.rc[f] - 1]
    && s' == s.(pmm := s'.pmm)
  }

  lemma DropKeepsInv(s: Sys, ext: seq<nat>, f: nat, s': Sys)
    requires Inv(s, ext) && Drops(s, f, s') && ext[f] > 0
    ensures Inv(s', ext[f := ext[f] - 1])
  {
    hide Walk, RefsUpTo, SharedAt, Sound;
    forall j | 0 <= j < |s'.procs|
      ensures ProcSound(s', s'.procs[j])
    {
      assert ProcSound(s, s.procs[j]);
      if s.procs[j].Alive? {
        DropSound(s, ext, f, s', j);
      }
    }
    forall j, p: Path | 0 <= j < |s'.procs| && s'.procs[j].Alive? && UserPath(p)
      ensures PageOk(s', s'.procs[j], p)
    {
      assert PageOk(s, s.procs[j], p);
      var r := Walk(s.mem, s.procs[j].root, p);
      if r.Some? && r.value.frame == f {
        MappedCounted(s, ext, j, p);
        TotalOne(s.mem, s.procs, j, f);
      }
    }
  }

  lemma DropSound(s: Sys, ext: seq<nat>, f: nat, s': Sys, j: nat)
    requires Inv(s, ext) && Drops(s, f, s') && ext[f] > 0 && j < |s.procs| && s.procs[j].Alive?
    ensures s.procs[j].root != f
    ensures Sound(s.mem, Singles(s'.pmm.rc), s.procs[j].root, 4, USER_ENTRIES)
  {
    hide PagesOk, NoMixing, RefsUpTo;
    var root := s.procs[j].root;
    assert ProcSound(s, s.procs[j]);
    TotalOne(s.mem, s.procs, j, f);
    forall q: seq<Index> | 0 < |q| < 4 && q[0] < USER_ENTRIES && RefAt(s.mem, root, 4, q).Some?
      ensures RefAt(s.mem, root, 4, q).value in Singles(s'.pmm.rc)
    {
      InnerRef(s.mem, Singles(s.pmm.rc), root, 4, USER_ENTRIES, q);
      OneRef(s.mem, root, 4, USER_ENTRIES, q);
    }
    SoundMono(s.mem, Singles(s.pmm.rc), Singles(s'.pmm.rc), root, 4, USER_ENTRIES);
  }

  // ---------- Changes to the tables of one process ----------

  /** Tables that a tree does not use can change freely. */
  lemma KeptTable(mem: Memory, mem': Memory, tables: set<nat>, f: nat, level: nat, n: nat)
    requires n <= ENTRIES && TableOf(mem', f) == TableOf(mem, f) && Sound(mem, tables, f, level, n)
    requires forall t :: RefsUpTo(mem, f, level, n, t) > 0 ==> TableOf(mem', t) == TableOf(mem, t)
    ensures forall g :: RefsUpTo(mem', f, level, n, g) == RefsUpTo(mem, f, level, n, g)
    ensures Sound(mem', tables, f, level, n)
    ensures forall p: Path :: |p| == level && p[0] < n ==> Walk(mem', f, p) == Walk(mem, f, p)
  {
    forall j | 0 <= j < n
      ensures SameBelow(mem, mem', TableOf(mem, f)[j], level)
      ensures WeakerBelow(mem, mem', TableOf(mem, f)[j], level)
    {
      forall t | EntryRefs(mem, TableOf(mem, f)[j], level, t) > 0
        ensures TableOf(mem', t) == TableOf(mem, t)
      {
        RefsOfEntry(mem, f, level, j, n, t);
      }
    }
    WeakerTable(mem, mem', tables, f, level, n);
    forall p: Path | |p| == level && p[0] < n
      ensures Walk(mem', f, p) == Walk(mem, f, p)
    {
      SameWalk(mem, mem', TableOf(mem, f)[p[0]], p);
    }
  }

  /** Changes within the tables of process i do not concern process j. */
  lemma OthersKept(s: Sys, ext: seq<nat>, i: nat, mem': Memory, j: nat)
    requires Inv(s, ext) && i < |s.procs| && j < |s.procs| && i != j && s.procs[i].Alive? && s.procs[j].Alive?
    requires OnlyTree(s.St(), mem', s.procs[i].root, USER_ENTRIES)
    ensures forall g :: SpaceRefs(mem', s.procs[j].root, g) == SpaceRefs(s.mem, s.procs[j].root, g)
    ensures Sound(mem', Singles(s.pmm.rc), s.procs[j].root, 4, USER_ENTRIES) && TopClear(mem', s.procs[j].root)
    ensures forall p: Path :: UserPath(p) ==> Walk(mem', s.procs[j].root, p) == Walk(s.mem, s.procs[j].root, p)
    ensures UppersSame(s.mem, mem', s.procs[j].root, 4, USER_ENTRIES)
  {
    hide PagesOk, NoMixing, RefsUpTo, Sound, Walk, UppersSame;
    var root := s.procs[j].root;
    InvOwned(s, ext, i);
    InvOwned(s, ext, j);
    OwnedTree(s.St(), s.procs[i].root);
    forall t: nat | SpaceRefs(s.mem, root, t) > 0
      ensures TableOf(mem', t) == TableOf(s.mem, t)
    {
      if 0 < t < |s.mem| && mem'[t] != s.mem[t] {
        assert SpaceRefs(s.mem, root, t) <= s.pmm.rc[t];
        HeldTwice(s, ext, i, j, t);
      }
    }
    assert ProcSound(s, s.procs[j]);
    KeptTable(s.mem, mem', Singles(s.pmm.rc), root, 4, USER_ENTRIES);
    ReferredUppers(s.mem, mem', root);
  }

  /** Only tables of process i were changed, and only free frames were taken. */
  ghost predicate Touches(s: Sys, i: nat, s': Sys) {
    && i < |s.procs| && s.procs[i].Alive? && Frames.Valid(s'.pmm) && SameReserved(s.pmm, s'.pmm)
    && s'.procs == s.procs && s'.ram == s.ram
    && OnlyTree(s.St(), s'.mem, s.procs[i].root, USER_ENTRIES) && OnlyFree(s.St(), s'.St())
    && UpperKept(s.mem, s'.mem, s.procs[i].root, USER_ENTRIES)
  }

  lemma TouchSound(s: Sys, ext: seq<nat>, i: nat, s': Sys)
    requires Inv(s, ext) && Touches(s, i, s')
    requires ProcSound(s', s.procs[i])
    ensures forall j :: 0 <= j < |s'.procs| ==> ProcSound(s', s'.procs[j])
  {
    hide PagesOk, NoMixing, Accounting, Sound, OnlyTree;
    forall j | 0 <= j < |s'.procs|
      ensures ProcSound(s', s'.procs[j])
    {
      assert ProcSound(s, s.procs[j]);
      if j != i && s.procs[j].Alive? {
        OthersKept(s, ext, i, s'.mem, j);
        SoundGrows(s'.mem, Singles(s.pmm.rc), Singles(s'.pmm.rc), s.procs[j].root, 4, USER_ENTRIES);
      }
    }
  }

  lemma TouchTotal(s: Sys, ext: seq<nat>, i: nat, s': Sys, g: nat)
    requires Inv(s, ext) && Touches(s, i, s')
    ensures TotalRefs(s'.mem, s'.procs, g) - TotalRefs(s.mem, s.procs, g) ==
            SpaceRefs(s'.mem, s.procs[i].root, g) - SpaceRefs(s.mem, s.procs[i].root, g)
  {
    hide PagesOk, NoMixing, Accounting, Sound, OnlyTree, SpaceRefs;
    forall j | 0 <= j < |s.procs| && j != i
      ensures ProcRefs(s'.mem, s'.procs[j], g) == ProcRefs(s.mem, s.procs[j], g)
    {
      if s.procs[j].Alive? { OthersKept(s, ext, i, s'.mem, j); }
    }
    TotalChange(s.mem, s'.mem, s.procs, s'.procs, i, g);
  }

  /** What the pages look like after page p of process i was mapped as r. */
  ghost predicate PageSet(s: Sys, i: nat, p: Path, r: Option<Pte>, s': Sys)
    requires i < |s.procs| && s.procs[i].Alive? && s'.procs == s.procs
  {
    forall q: Path :: UserPath(q) ==>
      Walk(s'.mem, s.procs[i].root, q) == if q == p then r else Walk(s.mem, s.procs[i].root, q)
  }

  lemma TouchPage(s: Sys, ext: seq<nat>, i: nat, p: Path, r: Option<Pte>, s': Sys, j: nat, q: Path)
    requires Inv(s, ext) && Touches(s, i, s') && PageSet(s, i, p, r, s')
    requires j < |s.procs| && s.procs[j].Alive? && UserPath(q)
    ensures Walk(s'.mem, s.procs[j].root, q) == if i == j && q == p then r else Walk(s.mem, s.procs[j].root, q)
  {
    hide PagesOk, NoMixing, Accounting, Sound, OnlyTree, SpaceRefs, Walk;
    if j != i {
      OthersKept(s, ext, i, s'.mem, j);
    }
  }

  /** The new page r of process i at p is legal next to all other pages. */
  ghost predicate PageFits(s: Sys, i: nat, p: Path, r: Option<Pte>, s': Sys)
    requires i < |s.procs| && s.procs[i].Alive? && UserPath(p)
  {
    r.Some? ==>
      && r.value.frame > 0 && Find(s.procs[i].areas, AddrOf(p)).Some?
      && r.value.flags.shared == SharedAt(s.procs[i].areas, AddrOf(p))
      && (!r.value.flags.shared ==>
            && 0 < r.value.frame < |s'.pmm.rc|
            && (r.value.flags.writable ==> s'.pmm.rc[r.value.frame] == 1))
      && (forall j, q: Path :: 0 <= j < |s.procs| && s.procs[j].Alive? && UserPath(q) && !(j == i && q == p) ==>
            SameKind(r, Walk(s.mem, s.procs[j].root, q)))
  }

  lemma TouchPages(s: Sys, ext: seq<nat>, i: nat, p: Path, r: Option<Pte>, s': Sys)
    requires Inv(s, ext) && Touches(s, i, s') && UserPath(p) && PageSet(s, i, p, r, s') && PageFits(s, i, p, r, s')
    ensures PagesOk(s')
  {
    hide Accounting, NoMixing, Sound, OnlyTree, SpaceRefs, Walk, SharedAt, PageSet, UpperKept;
    forall j, q: Path | 0 <= j < |s'.procs| && s'.procs[j].Alive? && UserPath(q)
      ensures PageOk(s', s'.procs[j], q)
    {
      assert PageOk(s, s.procs[j], q);
      TouchPage(s, ext, i, p, r, s', j, q);
    }
  }

  lemma TouchKinds(s: Sys, ext: seq<nat>, i: nat, p: Path, r: Option<Pte>, s': Sys)
    requires Inv(s, ext) && Touches(s, i, s') && UserPath(p) && PageSet(s, i, p, r, s') && PageFits(s, i, p, r, s')
    ensures NoMixing(s')
  {
    hide Inv, Touches, PageSet, PageFits, Walk, SameKind;
    TouchProcs(s, i, s');
    forall j, k, q: Path, u: Path | 0 <= j < |s'.procs| && 0 <= k < |s'.procs| &&
        s'.procs[j].Alive? && s'.procs[k].Alive? && UserPath(q) && UserPath(u)
      ensures SameKind(Walk(s'.mem, s'.procs[j].root, q), Walk(s'.mem, s'.procs[k].root, u))
    {
      TouchPage(s, ext, i, p, r, s', j, q);
      TouchPage(s, ext, i, p, r, s', k, u);
      KindBefore(s, ext, i, p, r, s', j, q, k, u);
    }
  }

  lemma TouchProcs(s: Sys, i: nat, s': Sys)
    requires Touches(s, i, s')
    ensures s'.procs == s.procs && i < |s.procs| && s.procs[i].Alive?
  {
  }

  lemma KindBefore(s: Sys, ext: seq<nat>, i: nat, p: Path, r: Option<Pte>, s': Sys, j: nat, q: Path, k: nat, u: Path)
    requires Inv(s, ext) && i < |s.procs| && s.procs[i].Alive? && UserPath(p) && PageFits(s, i, p, r, s')
    requires j < |s.procs| && k < |s.procs| && s.procs[j].Alive? && s.procs[k].Alive? && UserPath(q) && UserPath(u)
    ensures SameKind(if i == j && q == p then r else Walk(s.mem, s.procs[j].root, q),
                     if i == k && u == p then r else Walk(s.mem, s.procs[k].root, u))
  {
    hide Accounting, PagesOk, ProcSound, Walk, SharedAt;
    assert SameKind(Walk(s.mem, s.procs[j].root, q), Walk(s.mem, s.procs[k].root, u));
  }

  /** A walk that built tables but mapped nothing. */
  lemma WalkKeepsInv(s: Sys, ext: seq<nat>, i: nat, s': Sys)
    requires Inv(s, ext) && i < |s.procs| && s.procs[i].Alive? && Frames.Valid(s'.pmm) && SameReserved(s.pmm, s'.pmm)
    requires s'.procs == s.procs && s'.ram == s.ram && Walked(s.St(), s'.St(), s.procs[i].root, USER_ENTRIES)
    ensures Inv(s', ext)
    ensures forall k: nat, x: nat :: Private(s, k, x) ==> Read(s', k, x) == Read(s, k, x)
  {
    hide PagesOk, NoMixing, Sound, SpaceRefs, Walk, SharedAt, TreeOk, SameSeen, RefsUpTo, PathOf;
    InvOwned(s, ext, i);
    assert ProcSound(s, s.procs[i]);
    assert ProcSound(s', s.procs[i]);
    TouchSound(s, ext, i, s');
    forall g | 0 < g < |s.pmm.rc|
      ensures s'.pmm.rc[g] == ext[g] + TotalRefs(s'.mem, s'.procs, g)
    {
      TouchTotal(s, ext, i, s', g);
    }
    var p: Path := [0, 0, 0, 0];
    var r := Walk(s.mem, s.procs[i].root, p);
    SameFits(s, ext, i, p, s');
    TouchPages(s, ext, i, p, r, s');
    TouchKinds(s, ext, i, p, r, s');
    forall k: nat, x: nat | Private(s, k, x)
      ensures Read(s', k, x) == Read(s, k, x)
    {
      PageBase(x);
      TouchPage(s, ext, i, p, r, s', k, PathOf(x));
    }
  }

  lemma SameFits(s: Sys, ext: seq<nat>, i: nat, p: Path, s': Sys)
    requires Inv(s, ext) && Touches(s, i, s') && UserPath(p)
    ensures PageFits(s, i, p, Walk(s.mem, s.procs[i].root, p), s')
  {
    hide Sound, SpaceRefs, Walk, SharedAt, OnlyTree;
    var r := Walk(s.mem, s.procs[i].root, p);
    assert PageOk(s, s.procs[i], p);
    forall j, q: Path | 0 <= j < |s.procs| && s.procs[j].Alive? && UserPath(q) && !(j == i && q == p)
      ensures SameKind(r, Walk(s.mem, s.procs[j].root, q))
    {
    }
  }

  /** Page p of process i was mapped by entry e, building tables as needed. */
  ghost predicate MapsPage(s: Sys, i: nat, p: Path, e: Pte, s': Sys) {
    && i < |s.procs| && s.procs[i].Alive? && Frames.Valid(s'.pmm) && SameReserved(s.pmm, s'.pmm) && UserPath(p)
    && s'.procs == s.procs && s'.ram == s.ram && Mapped(s.St(), s'.St(), s.procs[i].root, USER_ENTRIES, p, e)
    && Linked(s.mem, s'.mem, s.procs[i].root, USER_ENTRIES, true)
  }

  /** Tables were built for process i, but nothing was mapped. */
  ghost predicate BuildsTables(s: Sys, i: nat, s': Sys) {
    && i < |s.procs| && s.procs[i].Alive? && Frames.Valid(s'.pmm) && SameReserved(s.pmm, s'.pmm)
    && s'.procs == s.procs && s'.ram == s.ram && Walked(s.St(), s'.St(), s.procs[i].root, USER_ENTRIES)
    && Linked(s.mem, s'.mem, s.procs[i].root, USER_ENTRIES, true)
  }

  /** The reference to the new page comes from ext, the one to the old page goes there. */
  ghost predicate Swapped(ext: seq<nat>, ext': seq<nat>, prior: Option<Pte>, updated: Option<Pte>) {
    |ext'| == |ext| &&
    forall g :: 0 < g < |ext| ==>
      ext'[g] + (if Maps(updated, g) then 1 else 0) == ext[g] + (if Maps(prior, g) then 1 else 0)
  }

  lemma MapKeepsInv(s: Sys, ext: seq<nat>, i: nat, p: Path, e: Pte, s': Sys, ext': seq<nat>)
    requires Inv(s, ext) && MapsPage(s, i, p, e, s') && PageFits(s, i, p, LeafOf(e), s')
    requires Swapped(ext, ext', Walk(s.mem, s.procs[i].root, p), LeafOf(e))
    ensures Inv(s', ext')
    ensures Walk(s'.mem, s.procs[i].root, p) == LeafOf(e)
    ensures forall k: nat, x: nat :: Private(s, k, x) && !(k == i && PathOf(x) == p) ==> Read(s', k, x) == Read(s, k, x)
  {
    hide PagesOk, NoMixing, Sound, SpaceRefs, Walk, SharedAt, TreeOk, RefsUpTo, PathOf, PageFits, Seen;
    var r := LeafOf(e);
    InvOwned(s, ext, i);
    assert ProcSound(s, s.procs[i]);
    assert MappedOwned(s.St(), s'.St(), s.procs[i].root, p, e);
    assert ProcSound(s', s.procs[i]);
    TouchSound(s, ext, i, s');
    forall g | 0 < g < |s.pmm.rc|
      ensures s'.pmm.rc[g] == ext'[g] + TotalRefs(s'.mem, s'.procs, g)
    {
      TouchTotal(s, ext, i, s', g);
    }
    TouchPages(s, ext, i, p, r, s');
    TouchKinds(s, ext, i, p, r, s');
    forall k: nat, x: nat | Private(s, k, x) && !(k == i && PathOf(x) == p)
      ensures Read(s', k, x) == Read(s, k, x)
    {
      PageBase(x);
      TouchPage(s, ext, i, p, r, s', k, PathOf(x));
    }
  }

  // ---------- Page faults ----------

  /** How vmm_handle_page_fault ends: refused or out of frames; a frame taken and given back; a zeroed page;
      a copy of a page others hold; a page nobody else holds; a shared page. */
  datatype Fault = Ignored | Undone(nf: nat, page: Page) | Zeroed(nf: nat) | CopiedTo(nf: nat) | Reused
                 | Reshared(e: Pte)

  function MapFlags(v: Area): Flags {
    v.flags.(present := true, user := true)
  }

  ghost predicate Faults(s: Sys, i: nat, a: nat, c: Fault, s1: Sys, s2: Sys, s': Sys) {
    && i < |s.procs| && s.procs[i].Alive?
    && (c.Ignored? ==> s' == s)
    && (!c.Ignored? ==>
          a < USER_LIMIT && Find(s.procs[i].areas, a).Some? && UserPath(PathOf(a)) &&
          FaultEffect(s, i, Find(s.procs[i].areas, a).value, PathOf(a), c, s1, s2, s'))
  }

  ghost predicate FaultEffect(s: Sys, i: nat, v: Area, p: Path, c: Fault, s1: Sys, s2: Sys, s': Sys)
    requires i < |s.procs| && s.procs[i].Alive? && UserPath(p)
  {
    var r := Walk(s.mem, s.procs[i].root, p);
    match c
    case Ignored => true
    case Undone(nf, page) => Takes(s, nf, page, s1) && BuildsTables(s1, i, s2) && Drops(s2, nf, s')
    case Zeroed(nf) =>
      && (r.Some? ==> r.value.frame == 0)
      && Takes(s, nf, ZeroPage(), s1) && MapsPage(s1, i, p, Pte(nf, MapFlags(v)), s')
    case CopiedTo(nf) =>
      && r.Some? && v.kind != Shared
      && 0 < r.value.frame < |s.pmm.rc| && s.pmm.rc[r.value.frame] > 1 && r.value.frame < |s.ram|
      && Takes(s, nf, s.ram[r.value.frame], s1) && MapsPage(s1, i, p, Pte(nf, MapFlags(v)), s2)
      && Drops(s2, r.value.frame, s')
    case Reused =>
      && r.Some? && v.kind != Shared && (0 < r.value.frame < |s.pmm.rc| ==> s.pmm.rc[r.value.frame] <= 1)
      && MapsPage(s, i, p, Pte(r.value.frame, MapFlags(v)), s')
    case Reshared(e) =>
      && v.kind == Shared && MapsPage(s, i, p, e, s')
      && Reflagged(s.St(), s'.St(), s.procs[i].root, USER_ENTRIES, p, MapFlags(v), e)
  }

  ghost predicate SameReads(s: Sys, s': Sys) {
    |s'.procs| == |s.procs| &&
    forall k: nat, x: nat :: Private(s, k, x) ==> s'.procs[k] == s.procs[k] && Read(s', k, x) == Read(s, k, x)
  }

  /** The area of a page decides whether the page is shared. */
  lemma FaultArea(s: Sys, ext: seq<nat>, i: nat, a: nat)
    requires Inv(s, ext) && i < |s.procs| && s.procs[i].Alive? && a < USER_LIMIT && Find(s.procs[i].areas, a).Some?
    ensures UserPath(PathOf(a)) && Find(s.procs[i].areas, AddrOf(PathOf(a))) == Find(s.procs[i].areas, a)
    ensures var v := Find(s.procs[i].areas, a).value;
            SharedAt(s.procs[i].areas, AddrOf(PathOf(a))) == (v.kind == Shared) == v.flags.shared
  {
    PageBase(a);
    assert ProcSound(s, s.procs[i]);
    PrivatePage(s.procs[i].areas, a);
  }

  /** A frame nobody holds is mapped nowhere. */
  lemma FreshFits(s: Sys, ext: seq<nat>, i: nat, p: Path, r: Pte, s': Sys)
    requires Inv(s, ext) && i < |s.procs| && s.procs[i].Alive? && UserPath(p)
    requires 0 < r.frame < |s.pmm.rc| && TotalRefs(s.mem, s.procs, r.frame) == 0 && |s'.pmm.rc| == |s.pmm.rc|
    requires r.flags.shared == SharedAt(s.procs[i].areas, AddrOf(p)) && s'.pmm.rc[r.frame] == 1
    requires Find(s.procs[i].areas, AddrOf(p)).Some?
    ensures PageFits(s, i, p, Some(r), s')
  {
    hide Walk, SharedAt, Sound, RefsUpTo;
    forall j, q: Path | 0 <= j < |s.procs| && s.procs[j].Alive? && UserPath(q)
      ensures SameKind(Some(r), Walk(s.mem, s.procs[j].root, q))
    {
      var r' := Walk(s.mem, s.procs[j].root, q);
      if r'.Some? && r'.value.frame == r.frame {
        MappedCounted(s, ext, j, q);
        TotalOne(s.mem, s.procs, j, r.frame);
      }
    }
  }

  /** Taking a frame moves no page. */
  lemma TakeKeepsPage(s: Sys, ext: seq<nat>, nf: nat, page: Page, s': Sys, j: nat, p: Path)
    requires Inv(s, ext) && Takes(s, nf, page, s') && j < |s.procs| && s.procs[j].Alive? && UserPath(p)
    ensures var r, r' := Walk(s.mem, s.procs[j].root, p), Walk(s'.mem, s.procs[j].root, p);
            r'.Some? == r.Some? && (r.Some? ==> r'.value.frame == r.value.frame && r.value.frame != nf)
  {
    hide PagesOk, NoMixing, Walk, Sound, RefsUpTo;
    assert TablesWeaker(s, s'.mem);
    WeakerPages(s, ext, s'.mem, j, p);
    var r := Walk(s.mem, s.procs[j].root, p);
    if r.Some? && r.value.frame == nf {
      MappedCounted(s, ext, j, p);
      TotalOne(s.mem, s.procs, j, nf);
    }
  }

  lemma FaultUndone(s: Sys, ext: seq<nat>, i: nat, nf: nat, page: Page, s1: Sys, s2: Sys, s': Sys)
    requires Inv(s, ext) && Takes(s, nf, page, s1) && BuildsTables(s1, i, s2) && Drops(s2, nf, s')
    ensures Inv(s', ext) && SameReads(s, s')
  {
    hide Inv, Walked, Walk, SharedAt, PathOf;
    InvSize(s, ext);
    TakeKeepsInv(s, ext, nf, page, s1);
    var ext1 := ext[nf := 1];
    WalkKeepsInv(s1, ext1, i, s2);
    DropKeepsInv(s2, ext1, nf, s');
    assert ext1[nf := 0] == ext;
    forall k: nat, x: nat | Private(s, k, x)
      ensures Read(s', k, x) == Read(s, k, x)
    {
      TakeKeepsReads(s, ext, nf, page, s1, k, x);
      assert Private(s1, k, x);
    }
  }

  /** `page` reads as the page at address a does, where that is private. */
  ghost predicate ReadsAs(s: Sys, i: nat, a: nat, page: Page) {
    forall x: nat :: Private(s, i, x) && PathOf(x) == PathOf(a) ==> page[x % 4096] == Read(s, i, x)
  }

  /** Mapping a frame the kernel has just taken, over a page that reads the same. */
  lemma FaultFresh(s: Sys, ext: seq<nat>, i: nat, v: Area, a: nat, nf: nat, page: Page, s1: Sys, s2: Sys,
                   ext2: seq<nat>)
    requires Inv(s, ext) && i < |s.procs| && s.procs[i].Alive? && a < USER_LIMIT
    requires Find(s.procs[i].areas, a) == Some(v) && UserPath(PathOf(a)) && ReadsAs(s, i, a, page)
    requires Takes(s, nf, page, s1) && MapsPage(s1, i, PathOf(a), Pte(nf, MapFlags(v)), s2)
    requires Swapped(ext, ext2, Walk(s.mem, s.procs[i].root, PathOf(a)), None)
    ensures Inv(s2, ext2) && SameReads(s, s2)
  {
    hide Inv, Mapped, Walk, SharedAt, PathOf, PageFits;
    InvSize(s, ext);
    var p, ext1 := PathOf(a), ext[nf := 1];
    TakeKeepsInv(s, ext, nf, page, s1);
    TakeKeepsPage(s, ext, nf, page, s1, i, p);
    FaultArea(s, ext, i, a);
    FreshCount(s1, ext1, nf);
    MapsHeld(s1, i, p, Pte(nf, MapFlags(v)), s2, nf);
    FreshFits(s1, ext1, i, p, LeafOf(Pte(nf, MapFlags(v))).value, s2);
    MapKeepsInv(s1, ext1, i, p, Pte(nf, MapFlags(v)), s2, ext2);
    forall k: nat, x: nat | Private(s, k, x)
      ensures Read(s2, k, x) == Read(s, k, x)
    {
      TakeKeepsReads(s, ext, nf, page, s1, k, x);
      assert Private(s1, k, x);
    }
  }

  lemma FreshCount(s: Sys, ext: seq<nat>, nf: nat)
    requires Inv(s, ext) && 0 < nf < |ext| && ext[nf] == 1 && nf < |s.pmm.rc| && s.pmm.rc[nf] == 1
    ensures TotalRefs(s.mem, s.procs, nf) == 0
  {
  }

  lemma MapsHeld(s: Sys, i: nat, p: Path, e: Pte, s': Sys, f: nat)
    requires MapsPage(s, i, p, e, s') && f < |s.pmm.rc| && s.pmm.rc[f] > 0
    ensures |s'.pmm.rc| == |s.pmm.rc| && s'.pmm.rc[f] == s.pmm.rc[f]
  {
  }

  lemma FaultZeroed(s: Sys, ext: seq<nat>, i: nat, v: Area, a: nat, nf: nat, s1: Sys, s': Sys)
    requires Inv(s, ext) && i < |s.procs| && s.procs[i].Alive? && a < USER_LIMIT
    requires Find(s.procs[i].areas, a) == Some(v) && UserPath(PathOf(a))
    requires FaultEffect(s, i, v, PathOf(a), Zeroed(nf), s1, s1, s')
    ensures Inv(s', ext) && SameReads(s, s')
  {
    hide Inv, Mapped, Walk, SharedAt, PathOf;
    forall x: nat | Private(s, i, x) && PathOf(x) == PathOf(a)
      ensures ZeroPage()[x % 4096] == Read(s, i, x)
    {
      PrivateFrame(s, ext, i, x);
    }
    FaultFresh(s, ext, i, v, a, nf, ZeroPage(), s1, s', ext);
  }

  lemma PrivateFrame(s: Sys, ext: seq<nat>, i: nat, x: nat)
    requires Inv(s, ext) && Private(s, i, x)
    ensures var r := Walk(s.mem, s.procs[i].root, PathOf(x));
            r.Some? ==> !r.value.flags.shared && 0 < r.value.frame < |s.pmm.rc| == |s.ram|
                        && s.pmm.rc[r.value.frame] >= 1
  {
    hide Walk, SharedAt, Sound, RefsUpTo;
    PageBase(x);
    assert ProcSound(s, s.procs[i]);
    PrivatePage(s.procs[i].areas, x);
    assert PageOk(s, s.procs[i], PathOf(x));
    var r := Walk(s.mem, s.procs[i].root, PathOf(x));
    if r.Some? {
      MappedCounted(s, ext, i, PathOf(x));
      TotalOne(s.mem, s.procs, i, r.value.frame);
    }
  }

  lemma FaultCopied(s: Sys, ext: seq<nat>, i: nat, v: Area, a: nat, nf: nat, s1: Sys, s2: Sys, s': Sys)
    requires Inv(s, ext) && i < |s.procs| && s.procs[i].Alive? && a < USER_LIMIT
    requires Find(s.procs[i].areas, a) == Some(v) && UserPath(PathOf(a))
    requires FaultEffect(s, i, v, PathOf(a), CopiedTo(nf), s1, s2, s')
    ensures Inv(s', ext) && SameReads(s, s')
  {
    hide Inv, Mapped, Walk, SharedAt, PathOf;
    var f := Walk(s.mem, s.procs[i].root, PathOf(a)).value.frame;
    InvSize(s, ext);
    var ext2 := ext[f := ext[f] + 1];
    FaultFresh(s, ext, i, v, a, nf, s.ram[f], s1, s2, ext2);
    DropKeepsInv(s2, ext2, f, s');
    assert ext2[f := ext[f]] == ext;
  }

  lemma InvSize(s: Sys, ext: seq<nat>)
    requires Inv(s, ext)
    ensures |s.pmm.rc| == |s.mem| == |s.ram| == |ext|
  {
  }

  lemma FaultReused(s: Sys, ext: seq<nat>, i: nat, v: Area, a: nat, s': Sys)
    requires Inv(s, ext) && i < |s.procs| && s.procs[i].Alive? && a < USER_LIMIT
    requires Find(s.procs[i].areas, a) == Some(v) && UserPath(PathOf(a))
    requires FaultEffect(s, i, v, PathOf(a), Reused, s, s, s')
    ensures Inv(s', ext) && SameReads(s, s')
  {
    hide Inv, Mapped, Walk, SharedAt, PathOf, PageFits;
    var r := Walk(s.mem, s.procs[i].root, PathOf(a));
    var e := Pte(r.value.frame, MapFlags(v));
    FaultArea(s, ext, i, a);
    assert Private(s, i, a) by { PrivateArea(s, i, a); }
    PrivateFrame(s, ext, i, a);
    MapsHeld(s, i, PathOf(a), e, s', r.value.frame);
    SameFrameFits(s, ext, i, PathOf(a), LeafOf(e).value, s');
    MapKeepsInv(s, ext, i, PathOf(a), e, s', ext);
  }

  lemma PrivateArea(s: Sys, i: nat, a: nat)
    requires i < |s.procs| && s.procs[i].Alive? && a < USER_LIMIT && Find(s.procs[i].areas, a).Some?
    requires Find(s.procs[i].areas, a).value.kind != Shared
    ensures Private(s, i, a)
  {
  }

  /** Mapping the same frame again, of the same kind, fits. */
  lemma SameFrameFits(s: Sys, ext: seq<nat>, i: nat, p: Path, r': Pte, s': Sys)
    requires Inv(s, ext) && i < |s.procs| && s.procs[i].Alive? && UserPath(p) && |s'.pmm.rc| == |s.pmm.rc|
    requires var r := Walk(s.mem, s.procs[i].root, p);
             r.Some? && r.value.frame == r'.frame && r.value.flags.shared == r'.flags.shared
    requires !r'.flags.shared && r'.flags.writable && r'.frame < |s.pmm.rc| ==> s'.pmm.rc[r'.frame] == 1
    ensures PageFits(s, i, p, Some(r'), s')
  {
    hide Sound, Walk, SharedAt;
    var r := Walk(s.mem, s.procs[i].root, p);
    assert PageOk(s, s.procs[i], p);
    forall j, q: Path | 0 <= j < |s.procs| && s.procs[j].Alive? && UserPath(q)
      ensures SameKind(Some(r'), Walk(s.mem, s.procs[j].root, q))
    {
      assert SameKind(r, Walk(s.mem, s.procs[j].root, q));
    }
  }

  lemma FaultReshared(s: Sys, ext: seq<nat>, i: nat, v: Area, a: nat, e: Pte, s': Sys)
    requires Inv(s, ext) && i < |s.procs| && s.procs[i].Alive? && a < USER_LIMIT
    requires Find(s.procs[i].areas, a) == Some(v) && UserPath(PathOf(a))
    requires FaultEffect(s, i, v, PathOf(a), Reshared(e), s, s, s')
    ensures Inv(s', ext) && SameReads(s, s')
  {
    hide Inv, Mapped, Walk, SharedAt, PathOf, PageFits, Owned;
    var r := Walk(s.mem, s.procs[i].root, PathOf(a));
    FaultArea(s, ext, i, a);
    InvOwned(s, ext, i);
    InvPage(s, ext, i, PathOf(a));
    assert e.flags.(huge := false) == KeepFlags(MapFlags(v), r.value.flags).(huge := false);
    MapsSize(s, i, PathOf(a), e, s');
    SameFrameFits(s, ext, i, PathOf(a), LeafOf(e).value, s');
    MapKeepsInv(s, ext, i, PathOf(a), e, s', ext);
  }

  lemma MapsSize(s: Sys, i: nat, p: Path, e: Pte, s': Sys)
    requires MapsPage(s, i, p, e, s')
    ensures |s'.pmm.rc| == |s.pmm.rc|
  {
  }

  lemma InvPage(s: Sys, ext: seq<nat>, i: nat, p: Path)
    requires Inv(s, ext) && i < |s.procs| && s.procs[i].Alive? && UserPath(p)
    ensures PageOk(s, s.procs[i], p)
  {
  }

  /** A page fault is invisible: it keeps the invariant and what every process reads. */
  lemma FaultKeeps(s: Sys, ext: seq<nat>, i: nat, a: nat, c: Fault, s1: Sys, s2: Sys, s': Sys)
    requires Inv(s, ext) && Faults(s, i, a, c, s1, s2, s')
    ensures Inv(s', ext) && SameReads(s, s')
  {
    hide Inv, Mapped, Walked, Walk, SharedAt, PathOf;
    if !c.Ignored? {
      var v := Find(s.procs[i].areas, a).value;
      match c {
        case Undone(nf, page) => FaultUndone(s, ext, i, nf, page, s1, s2, s');
        case Zeroed(nf) => FaultZeroed(s, ext, i, v, a, nf, s1, s');
        case CopiedTo(nf) => FaultCopied(s, ext, i, v, a, nf, s1, s2, s');
        case Reused => FaultReused(s, ext, i, v, a, s');
        case Reshared(e) => FaultReshared(s, ext, i, v, a, e, s');
      }
    }
  }
}
