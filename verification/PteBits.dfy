/** The 64-bit form of a page-table entry: the masks and bit operations of the page-table code mean
    what the record of module PageTable says. */
module PteBits {
  import opened PageTable

  const PRESENT: bv64 := 0x1
  const WRITABLE: bv64 := 0x2
  const USER: bv64 := 0x4
  const HUGE: bv64 := 0x80
  const SHARED: bv64 := 0x10_0000_0000_0000
  const NX: bv64 := 0x8000_0000_0000_0000
  const ADDRESS: bv64 := 0xF_FFFF_FFFF_F000
  const LOW: bv64 := 0xFFF
  /** Attribute bits other than the ones above. */
  const REST: bv64 := 0xF78

  predicate Has(e: bv64, bit: bv64) { e & bit != 0 }

  function Number(b: bv64): nat { b as nat }

  function FrameOf(phys: bv64): nat { (phys >> 12) as nat }

  function Address(e: bv64): bv64 { e & ADDRESS }

  function DecodeFlags(e: bv64): Flags {
    Flags(Has(e, PRESENT), Has(e, WRITABLE), Has(e, USER), Has(e, HUGE), Has(e, SHARED), Has(e, NX), Number(e & REST))
  }

  function Decode(e: bv64): Pte {
    Pte(FrameOf(Address(e)), DecodeFlags(e))
  }

  /** Address and flags do not overlap. */
  predicate Composable(phys: bv64, flags: bv64) {
    phys & ADDRESS == phys && flags & ADDRESS == 0
  }

  /** Two words with the same bits under each mask are the same entry. */
  lemma SameFlags(e: bv64, f: bv64)
    requires e & PRESENT == f & PRESENT && e & WRITABLE == f & WRITABLE && e & USER == f & USER
    requires e & HUGE == f & HUGE && e & SHARED == f & SHARED && e & NX == f & NX && e & REST == f & REST
    ensures DecodeFlags(e) == DecodeFlags(f)
  {
    hide Number, FrameOf;
  }

  /** The entry the code writes for an address and flags. */
  function Or(phys: bv64, flags: bv64): bv64 { phys | flags }

  /** A union with an address has the flags' bits under every flag mask. */
  lemma OrFlag(phys: bv64, flags: bv64, m: bv64)
    requires phys & ADDRESS == phys && m & ADDRESS == 0
    ensures Or(phys, flags) & m == flags & m
  {
  }

  lemma OrMasks(phys: bv64, flags: bv64)
    requires phys & ADDRESS == phys
    ensures Or(phys, flags) & PRESENT == flags & PRESENT && Or(phys, flags) & WRITABLE == flags & WRITABLE
    ensures Or(phys, flags) & USER == flags & USER && Or(phys, flags) & HUGE == flags & HUGE
    ensures Or(phys, flags) & SHARED == flags & SHARED && Or(phys, flags) & NX == flags & NX
    ensures Or(phys, flags) & REST == flags & REST
  {
    hide Or;
    OrFlag(phys, flags, PRESENT);
    OrFlag(phys, flags, WRITABLE);
    OrFlag(phys, flags, USER);
    OrFlag(phys, flags, HUGE);
    OrFlag(phys, flags, SHARED);
    OrFlag(phys, flags, NX);
    OrFlag(phys, flags, REST);
  }

  lemma OrFlags(phys: bv64, flags: bv64)
    requires phys & ADDRESS == phys
    ensures DecodeFlags(Or(phys, flags)) == DecodeFlags(flags)
  {
    hide Number, FrameOf, Or, DecodeFlags;
    OrMasks(phys, flags);
    SameFlags(Or(phys, flags), flags);
  }

  lemma OrAddress(phys: bv64, flags: bv64)
    requires Composable(phys, flags)
    ensures Address(Or(phys, flags)) == phys
  {
  }

  /** phys | flags is the entry with that frame and those flags. */
  lemma Compose(phys: bv64, flags: bv64)
    requires Composable(phys, flags)
    ensures Decode(Or(phys, flags)) == Pte(FrameOf(phys), DecodeFlags(flags))
  {
    hide Number, FrameOf, DecodeFlags, Or, Address;
    OrAddress(phys, flags);
    OrFlags(phys, flags);
  }

  /** The flags clone_page_table_level keeps. */
  function Kept(e: bv64): bv64 { e & (LOW | NX | SHARED) }

  function NoWrite(e: bv64): bv64 { e & !WRITABLE }

  lemma KeptMask(e: bv64)
    ensures Kept(e) & PRESENT == e & PRESENT && Kept(e) & WRITABLE == e & WRITABLE && Kept(e) & USER == e & USER
    ensures Kept(e) & HUGE == e & HUGE && Kept(e) & SHARED == e & SHARED && Kept(e) & NX == e & NX
    ensures Kept(e) & REST == e & REST
  {
  }

  lemma KeptFlags(e: bv64)
    ensures DecodeFlags(Kept(e)) == DecodeFlags(e)
  {
    hide Number, FrameOf, Kept, DecodeFlags;
    KeptMask(e);
    SameFlags(Kept(e), e);
  }

  lemma NoWriteMask(e: bv64)
    ensures NoWrite(e) & PRESENT == e & PRESENT && NoWrite(e) & WRITABLE == 0 && NoWrite(e) & USER == e & USER
    ensures NoWrite(e) & HUGE == e & HUGE && NoWrite(e) & SHARED == e & SHARED && NoWrite(e) & NX == e & NX
    ensures NoWrite(e) & REST == e & REST
  {
  }

  lemma NoWriteFlags(e: bv64)
    ensures DecodeFlags(NoWrite(e)) == DecodeFlags(e).(writable := false)
  {
    hide Number, FrameOf, NoWrite;
    NoWriteMask(e);
  }

  lemma AddressIsAddress(e: bv64)
    ensures Address(e) & ADDRESS == Address(e)
  {
  }

  lemma KeptIsFlags(e: bv64)
    ensures Kept(e) & ADDRESS == 0
  {
  }

  lemma NoWriteSame(e: bv64, m: bv64)
    requires m & WRITABLE == 0
    ensures NoWrite(e) & m == e & m
  {
  }

  lemma Parts(e: bv64)
    ensures Composable(Address(e), Kept(e)) && Composable(Address(e), NoWrite(Kept(e)))
    ensures Address(NoWrite(e)) == Address(e)
  {
    hide NoWrite, Kept;
    AddressIsAddress(e);
    KeptIsFlags(e);
    NoWriteSame(Kept(e), ADDRESS);
    NoWriteSame(e, ADDRESS);
  }

  /** clone_page_table_level: the copied entry, and the entries after clearing the write bit. */
  lemma CloneBits(e: bv64)
    ensures Decode(Or(Address(e), Kept(e))) == Decode(e)
    ensures Decode(NoWrite(e)) == Decode(e).(flags := Decode(e).flags.(writable := false))
    ensures Decode(Or(Address(e), NoWrite(Kept(e)))) == Decode(NoWrite(e))
  {
    hide Number, FrameOf, DecodeFlags, Composable, Kept, NoWrite, Address, Or;
    Parts(e);
    Compose(Address(e), Kept(e));
    Compose(Address(e), NoWrite(Kept(e)));
    KeptFlags(e);
    NoWriteFlags(e);
    NoWriteFlags(Kept(e));
  }

  /** The flags split_huge_page hands down. */
  function Split(e: bv64): bv64 { ((e & LOW) | (e & NX)) & !HUGE }

  lemma SplitMask(e: bv64)
    ensures Split(e) & PRESENT == e & PRESENT && Split(e) & WRITABLE == e & WRITABLE && Split(e) & USER == e & USER
    ensures Split(e) & NX == e & NX && Split(e) & REST == e & REST && Split(e) & HUGE == 0 && Split(e) & SHARED == 0
  {
  }

  /** split_huge_page: the low bits and NX are handed down, so PTE_SHARED is lost. */
  lemma SplitBits(e: bv64)
    ensures DecodeFlags(Split(e)) == DecodeFlags(e).(huge := false, shared := false)
  {
    hide Number, FrameOf, Split;
    SplitMask(e);
  }

  /** The bits vmm_set_page_flags adds to the new flags. */
  function WithPreserved(flags: bv64, prior: bv64): bv64 { flags | (prior & (PRESENT | USER | SHARED)) }

  lemma PreservedMask(flags: bv64, prior: bv64)
    ensures WithPreserved(flags, prior) & WRITABLE == flags & WRITABLE
    ensures WithPreserved(flags, prior) & HUGE == flags & HUGE && WithPreserved(flags, prior) & NX == flags & NX
    ensures WithPreserved(flags, prior) & REST == flags & REST
  {
  }

  lemma PreservedBit(flags: bv64, prior: bv64, bit: bv64)
    requires bit & (PRESENT | USER | SHARED) == bit
    ensures WithPreserved(flags, prior) & bit == (flags & bit) | (prior & bit)
  {
  }

  lemma OrZero(x: bv64, y: bv64)
    ensures x | y == 0 <==> x == 0 && y == 0
  {
  }

  lemma PreservedHas(flags: bv64, prior: bv64, bit: bv64)
    requires bit & (PRESENT | USER | SHARED) == bit
    ensures Has(WithPreserved(flags, prior), bit) <==> Has(flags, bit) || Has(prior, bit)
  {
    hide WithPreserved;
    PreservedBit(flags, prior, bit);
    OrZero(flags & bit, prior & bit);
  }

  lemma PreservedIsFlags(flags: bv64, prior: bv64)
    requires flags & ADDRESS == 0
    ensures WithPreserved(flags, prior) & ADDRESS == 0
  {
  }

  lemma PreservedSets(flags: bv64, prior: bv64)
    ensures Has(WithPreserved(flags, prior), PRESENT) <==> Has(flags, PRESENT) || Has(prior, PRESENT)
    ensures Has(WithPreserved(flags, prior), USER) <==> Has(flags, USER) || Has(prior, USER)
    ensures Has(WithPreserved(flags, prior), SHARED) <==> Has(flags, SHARED) || Has(prior, SHARED)
  {
    hide WithPreserved, Has;
    PreservedHas(flags, prior, PRESENT);
    PreservedHas(flags, prior, USER);
    PreservedHas(flags, prior, SHARED);
  }

  /** vmm_set_page_flags: phys | flags | preserved. */
  lemma KeepBits(prior: bv64, flags: bv64)
    requires flags & ADDRESS == 0
    ensures var o, n := DecodeFlags(prior), DecodeFlags(flags);
            Decode(Or(Address(prior), WithPreserved(flags, prior))) ==
            Pte(FrameOf(Address(prior)), n.(present := n.present || o.present, user := n.user || o.user,
                                           shared := n.shared || o.shared))
  {
    hide Number, FrameOf, WithPreserved, Address, DecodeFlags, Or;
    PreservedIsFlags(flags, prior);
    AddressIsAddress(prior);
    Compose(Address(prior), WithPreserved(flags, prior));
    PreservedFlags(flags, prior);
  }

  lemma PreservedFlags(flags: bv64, prior: bv64)
    ensures var o, n := DecodeFlags(prior), DecodeFlags(flags);
            DecodeFlags(WithPreserved(flags, prior)) ==
            n.(present := n.present || o.present, user := n.user || o.user, shared := n.shared || o.shared)
  {
    hide Number, FrameOf, WithPreserved, Has;
    PreservedMask(flags, prior);
    PreservedSets(flags, prior);
    SameHas(WithPreserved(flags, prior), flags, WRITABLE);
    SameHas(WithPreserved(flags, prior), flags, HUGE);
    SameHas(WithPreserved(flags, prior), flags, NX);
  }

  lemma SameHas(x: bv64, y: bv64, bit: bv64)
    requires x & bit == y & bit
    ensures Has(x, bit) == Has(y, bit)
  {
  }
}
