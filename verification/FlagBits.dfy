/** The flags the models compute are those of the 64-bit masks in the code. */
module FlagBits {
  import opened Options
  import opened PageTable
  import opened PteBits
  import opened Mapping
  import opened TableWalk
  import opened AddressSpace
  import opened Vma
  import opened CopyOnWrite
  import opened MemoryCalls

  /** clone_page_table_level clears the write bit of a present, writable entry that is not shared. */
  lemma DownBits(e: bv64)
    ensures DownPte(Decode(e)) ==
            if Has(e, PRESENT) && Has(e, WRITABLE) && !Has(e, SHARED) then Decode(NoWrite(e)) else Decode(e)
  {
    hide Number, FrameOf, NoWrite, Address, Has;
    CloneBits(e);
  }

  lemma SplitFlagBits(e: bv64)
    ensures SplitFlags(Decode(e)) == DecodeFlags(Split(e))
  {
    hide Number, FrameOf, Split, Address, Has;
    SplitBits(e);
  }

  lemma KeepFlagBits(flags: bv64, prior: bv64)
    ensures KeepFlags(DecodeFlags(flags), DecodeFlags(prior)) == DecodeFlags(WithPreserved(flags, prior))
  {
    hide Number, FrameOf, WithPreserved, DecodeFlags;
    PreservedFlags(flags, prior);
  }

  /** The entry get_next_level makes: PTE_PRESENT | PTE_WRITABLE, and PTE_USER for user addresses. */
  function TableBits(user: bool): bv64 {
    if user then PRESENT | WRITABLE | USER else PRESENT | WRITABLE
  }

  lemma TableMask(user: bool)
    ensures var t := TableBits(user);
            && t & ADDRESS == 0 && Has(t, PRESENT) && Has(t, WRITABLE) && Has(t, USER) == user && !Has(t, HUGE)
            && !Has(t, SHARED) && !Has(t, NX) && t & REST == 0
  {
  }

  lemma NewTableBits(phys: bv64, user: bool)
    requires phys & ADDRESS == phys
    ensures NewTable(FrameOf(phys), user) == Decode(Or(phys, TableBits(user)))
  {
    hide FrameOf, Has, Address, Or, TableBits;
    TableMask(user);
    Compose(phys, TableBits(user));
  }

  /** The flags the fault handler maps a page with: those of the area, PTE_PRESENT and PTE_USER. */
  lemma MapMask(vma: bv64)
    ensures var m := vma | PRESENT | USER;
            && Has(m, PRESENT) && Has(m, USER) && m & WRITABLE == vma & WRITABLE && m & HUGE == vma & HUGE
            && m & SHARED == vma & SHARED && m & NX == vma & NX && m & REST == vma & REST
  {
  }

  lemma MapFlagBits(v: Area, vma: bv64)
    requires v.flags == DecodeFlags(vma)
    ensures MapFlags(v) == DecodeFlags(vma | PRESENT | USER)
  {
    hide Number;
    MapMask(vma);
  }

  /** pte_flags of sys_mprotect. */
  function ProtBits(write: bool, exec: bool): bv64 {
    var base := if write then PRESENT | USER | WRITABLE else PRESENT | USER;
    if exec then base else base | NX
  }

  lemma ProtMask(write: bool, exec: bool)
    ensures var m := ProtBits(write, exec);
            && Has(m, PRESENT) && Has(m, USER) && Has(m, WRITABLE) == write && !Has(m, HUGE) && !Has(m, SHARED)
            && Has(m, NX) == !exec && m & REST == 0
  {
  }

  lemma ProtFlagBits(write: bool, exec: bool)
    ensures ProtFlags(write, exec) == DecodeFlags(ProtBits(write, exec))
  {
    hide Has, ProtBits;
    ProtMask(write, exec);
  }

  /** The flags of SYS_MMAP are those of an executable protection. */
  lemma AnonFlagBits(write: bool)
    ensures AnonFlags(write) == DecodeFlags(ProtBits(write, true))
  {
    ProtFlagBits(write, true);
  }
}
