/** Four-level page tables held in physical memory (Intel SDM volume 3A, section 4.5): how the
    hardware and vmm_virt_to_phys_in walk them, and how often they refer to each frame. */
module PageTable {
  import opened Options

  const ENTRIES: nat := 512
  const USER_ENTRIES: nat := 256

  type Index = i: int | 0 <= i < ENTRIES

  /** `huge` is bit 7, `shared` the software bit PTE_SHARED, `rest` the remaining attribute bits. */
  datatype Flags = Flags(present: bool, writable: bool, user: bool, huge: bool, shared: bool, nx: bool,
                         rest: nat)

  datatype Pte = Pte(frame: nat, flags: Flags) {
    predicate Present() { flags.present }
  }

  /** Entry `e` of a table at `level` maps a 1 GiB or 2 MiB page. Bit 7 means nothing at level 4,
      and is the PAT bit at level 1. */
  predicate Huge(e: Pte, level: nat) {
    e.flags.huge && 2 <= level <= 3
  }

  /** Entry `e` of a table at `level` points to a table. */
  predicate Branches(e: Pte, level: nat) {
    e.Present() && level > 1 && !Huge(e, level)
  }

  const NO_FLAGS := Flags(false, false, false, false, false, false, 0)
  const ABSENT := Pte(0, NO_FLAGS)

  type Table = t: seq<Pte> | |t| == ENTRIES witness EmptyTable()

  function EmptyTable(): (t: seq<Pte>)
    ensures |t| == ENTRIES && forall i :: 0 <= i < ENTRIES ==> t[i] == ABSENT
  {
    seq(ENTRIES, _ => ABSENT)
  }

  /** The tables held in physical memory, by frame number. */
  type Memory = seq<Table>

  function TableOf(mem: Memory, f: nat): Table {
    if f < |mem| then mem[f] else EmptyTable()
  }

  /** The indices of one page from the top level down; its length is the level of the table. */
  type Path = p: seq<Index> | |p| > 0 witness [0]

  /** The leaf reached from entry `e`, with the frame of the 4 KiB page: huge leaves at levels 3
      and 2 are resolved to the frame inside them, bit 7 no longer meaning "huge". */
  function WalkEntry(mem: Memory, e: Pte, p: Path): (r: Option<Pte>)
    decreases |p|
  {
    var flags := e.flags.(huge := false);
    if !e.Present() then None
    else if |p| == 1 then Some(Pte(e.frame, flags))
    else if Huge(e, |p|) && |p| == 2 then Some(Pte(e.frame / 512 * 512 + p[1], flags))
    else if Huge(e, |p|) then Some(Pte(e.frame / 262144 * 262144 + 512 * (p[1] as nat) + p[2], flags))
    else WalkEntry(mem, TableOf(mem, e.frame)[p[1]], p[1..])
  }

  function Walk(mem: Memory, f: nat, p: Path): (r: Option<Pte>) {
    WalkEntry(mem, TableOf(mem, f)[p[0]], p)
  }

  // ---------- Counting references ----------

  /** How often frame `g` is referred to by entry `e` of a table at `level` and everything below. */
  ghost function EntryRefs(mem: Memory, e: Pte, level: nat, g: nat): nat
    decreases level, 0
  {
    if !e.Present() || level == 0 then 0
    else (if e.frame == g then 1 else 0)
         + (if Branches(e, level) then RefsUpTo(mem, e.frame, level - 1, ENTRIES, g) else 0)
  }

  /** The same for the first `n` entries of table `f`. */
  ghost function RefsUpTo(mem: Memory, f: nat, level: nat, n: nat, g: nat): nat
    requires n <= ENTRIES
    decreases level, n
  {
    if n == 0 then 0
    else RefsUpTo(mem, f, level, n - 1, g) + EntryRefs(mem, TableOf(mem, f)[n - 1], level, g)
  }

  /** The number of tables below entry `e`. */
  ghost function EntryTables(mem: Memory, e: Pte, level: nat): nat
    decreases level, 0
  {
    if Branches(e, level) then 1 + TablesUpTo(mem, e.frame, level - 1, ENTRIES) else 0
  }

  /** The same for the first `n` entries of table `f`. */
  ghost function TablesUpTo(mem: Memory, f: nat, level: nat, n: nat): nat
    requires n <= ENTRIES
    decreases level, n
  {
    if n == 0 then 0
    else TablesUpTo(mem, f, level, n - 1) + EntryTables(mem, TableOf(mem, f)[n - 1], level)
  }

  lemma {:induction false} TablesMonotone(mem: Memory, f: nat, level: nat, m: nat, n: nat)
    requires m <= n <= ENTRIES
    ensures TablesUpTo(mem, f, level, m) <= TablesUpTo(mem, f, level, n)
    decreases n
  {
    if m < n {
      TablesMonotone(mem, f, level, m, n - 1);
    }
  }

  /** Every table below entry `e` is one of `tables`, and there are no huge pages. */
  ghost predicate EntrySound(mem: Memory, tables: set<nat>, e: Pte, level: nat)
    decreases level, 0
  {
    e.Present() && level > 1 ==>
      !Huge(e, level) && e.frame in tables && Sound(mem, tables, e.frame, level - 1, ENTRIES)
  }

  ghost predicate Sound(mem: Memory, tables: set<nat>, f: nat, level: nat, n: nat)
    requires n <= ENTRIES
    decreases level, 1
  {
    forall i :: 0 <= i < n ==> EntrySound(mem, tables, TableOf(mem, f)[i], level)
  }

  lemma {:induction false} RefsMonotone(mem: Memory, f: nat, level: nat, m: nat, n: nat, g: nat)
    requires m <= n <= ENTRIES
    ensures RefsUpTo(mem, f, level, m, g) <= RefsUpTo(mem, f, level, n, g)
    decreases n
  {
    if m < n {
      RefsMonotone(mem, f, level, m, n - 1, g);
    }
  }

  lemma RefsOfEntry(mem: Memory, f: nat, level: nat, i: nat, n: nat, g: nat)
    requires i < n <= ENTRIES
    ensures EntryRefs(mem, TableOf(mem, f)[i], level, g) <= RefsUpTo(mem, f, level, n, g)
  {
    RefsMonotone(mem, f, level, i + 1, n, g);
  }

  // ---------- Weakening: what clearing write permission does to a table ----------

  /** Copy-on-write clears the write permission of pages that are not shared. */
  function DownPte(e: Pte): Pte {
    if e.Present() && e.flags.writable && !e.flags.shared then e.(flags := e.flags.(writable := false)) else e
  }

  function Down(r: Option<Pte>): Option<Pte> {
    if r.Some? then Some(DownPte(r.value)) else None
  }

  ghost predicate Weaker(t: Table, t': Table) {
    forall i :: 0 <= i < ENTRIES ==> t'[i] == t[i] || t'[i] == DownPte(t[i])
  }

  /** Every table below `e` is the same or weaker in mem'. */
  ghost predicate WeakerBelow(mem: Memory, mem': Memory, e: Pte, level: nat) {
    forall t ::
      EntryRefs(mem, e, level, t) > 0 ==> Weaker(TableOf(mem, t), TableOf(mem', t))
  }

  ghost predicate SameBelow(mem: Memory, mem': Memory, e: Pte, level: nat) {
    forall t ::
      EntryRefs(mem, e, level, t) > 0 ==> TableOf(mem, t) == TableOf(mem', t)
  }

  /** What a condition on everything below a table says about one of the entries. */
  lemma BelowChild(mem: Memory, e: Pte, level: nat, i: nat, t: nat)
    requires Branches(e, level) && i < ENTRIES
    ensures EntryRefs(mem, e, level, e.frame) > 0
    ensures EntryRefs(mem, TableOf(mem, e.frame)[i], level - 1, t) <= EntryRefs(mem, e, level, t)
  {
    RefsOfEntry(mem, e.frame, level - 1, i, ENTRIES, t);
  }

  lemma WeakerChild(mem: Memory, mem': Memory, e: Pte, level: nat, i: nat)
    requires Branches(e, level) && i < ENTRIES
    requires WeakerBelow(mem, mem', e, level)
    ensures Weaker(TableOf(mem, e.frame), TableOf(mem', e.frame))
    ensures WeakerBelow(mem, mem', TableOf(mem, e.frame)[i], level - 1)
  {
    BelowChild(mem, e, level, i, e.frame);
    forall t | EntryRefs(mem, TableOf(mem, e.frame)[i], level - 1, t) > 0
      ensures Weaker(TableOf(mem, t), TableOf(mem', t))
    {
      BelowChild(mem, e, level, i, t);
    }
  }

  /** Weakening tables never changes what they refer to. */
  lemma {:induction false} WeakerRefs(mem: Memory, mem': Memory, e: Pte, level: nat, g: nat)
    requires WeakerBelow(mem, mem', e, level)
    ensures EntryRefs(mem', e, level, g) == EntryRefs(mem, e, level, g)
    ensures EntryRefs(mem', DownPte(e), level, g) == EntryRefs(mem, e, level, g)
    decreases level, 0
  {
    if Branches(e, level) {
      WeakerRefsUpTo(mem, mem', e, level, ENTRIES, g);
    }
  }

  lemma {:induction false} WeakerRefsUpTo(mem: Memory, mem': Memory, e: Pte, level: nat, n: nat, g: nat)
    requires Branches(e, level) && n <= ENTRIES
    requires WeakerBelow(mem, mem', e, level)
    ensures RefsUpTo(mem', e.frame, level - 1, n, g) == RefsUpTo(mem, e.frame, level - 1, n, g)
    decreases level - 1, n
  {
    if n > 0 {
      WeakerRefsUpTo(mem, mem', e, level, n - 1, g);
      WeakerChild(mem, mem', e, level, n - 1);
      WeakerRefs(mem, mem', TableOf(mem, e.frame)[n - 1], level - 1, g);
    }
  }

  /** Weakening tables does not change their number. */
  lemma {:induction false} WeakerTables(mem: Memory, mem': Memory, e: Pte, level: nat)
    requires WeakerBelow(mem, mem', e, level)
    ensures EntryTables(mem', e, level) == EntryTables(mem, e, level)
    ensures EntryTables(mem', DownPte(e), level) == EntryTables(mem, e, level)
    decreases level, 0
  {
    if Branches(e, level) {
      WeakerTablesUpTo(mem, mem', e, level, ENTRIES);
    }
  }

  lemma {:induction false} WeakerTablesUpTo(mem: Memory, mem': Memory, e: Pte, level: nat, n: nat)
    requires Branches(e, level) && n <= ENTRIES
    requires WeakerBelow(mem, mem', e, level)
    ensures TablesUpTo(mem', e.frame, level - 1, n) == TablesUpTo(mem, e.frame, level - 1, n)
    decreases level - 1, n
  {
    if n > 0 {
      WeakerTablesUpTo(mem, mem', e, level, n - 1);
      WeakerChild(mem, mem', e, level, n - 1);
      WeakerTables(mem, mem', TableOf(mem, e.frame)[n - 1], level - 1);
    }
  }

  /** Weakening tables leaves every translation alone, or clears its write permission. */
  lemma {:induction false} WeakerWalk(mem: Memory, mem': Memory, e: Pte, p: Path)
    requires WeakerBelow(mem, mem', e, |p|)
    ensures WalkEntry(mem', e, p) in {WalkEntry(mem, e, p), Down(WalkEntry(mem, e, p))}
    ensures WalkEntry(mem', DownPte(e), p) in {WalkEntry(mem, e, p), Down(WalkEntry(mem, e, p))}
    decreases |p|
  {
    if Branches(e, |p|) {
      WeakerChild(mem, mem', e, |p|, p[1]);
      WeakerWalk(mem, mem', TableOf(mem, e.frame)[p[1]], p[1..]);
    }
  }

  lemma {:induction false} WeakerSound(mem: Memory, mem': Memory, tables: set<nat>, tables': set<nat>, e: Pte,
                                       level: nat)
    requires WeakerBelow(mem, mem', e, level) && tables <= tables'
    requires EntrySound(mem, tables, e, level)
    ensures EntrySound(mem', tables', e, level) && EntrySound(mem', tables', DownPte(e), level)
    decreases level
  {
    if e.Present() && level > 1 {
      forall i | 0 <= i < ENTRIES
        ensures EntrySound(mem', tables', TableOf(mem', e.frame)[i], level - 1)
      {
        WeakerChild(mem, mem', e, level, i);
        WeakerSound(mem, mem', tables, tables', TableOf(mem, e.frame)[i], level - 1);
      }
    }
  }

  lemma {:induction false} SameWalk(mem: Memory, mem': Memory, e: Pte, p: Path)
    requires SameBelow(mem, mem', e, |p|)
    ensures WalkEntry(mem', e, p) == WalkEntry(mem, e, p)
    decreases |p|
  {
    if Branches(e, |p|) {
      BelowChild(mem, e, |p|, p[1], e.frame);
      var c := TableOf(mem, e.frame)[p[1]];
      forall t | EntryRefs(mem, c, |p| - 1, t) > 0
        ensures TableOf(mem, t) == TableOf(mem', t)
      {
        BelowChild(mem, e, |p|, p[1], t);
      }
      SameWalk(mem, mem', c, p[1..]);
    }
  }
}
