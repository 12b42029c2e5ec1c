/** The reserved sectors of a FAT32 volume: the boot sector, FSInfo and the volume label, written and read back. */
module FatBoot {
  import opened Options
  import opened FatLayout
  import opened FatVolume
  import opened FatRecords

  const INFO_SECTOR: nat := 1
  const BACKUP_SECTOR: nat := 6
  const FATS: nat := 2

  // ---------- Text ----------

  predicate Ascii(s: string) {
    forall i :: 0 <= i < |s| ==> s[i] as int < 128
  }

  function Encoded(s: string): (b: seq<Octet>)
    requires Ascii(s)
    ensures |b| == |s| && forall i :: 0 <= i < |s| ==> b[i] == s[i] as int
  {
    if s == "" then [] else [s[0] as int] + Encoded(s[1..])
  }

  /** bytes.decode("ascii", errors="ignore"). */
  function Decoded(b: seq<Octet>): (s: string)
    ensures |s| <= |b|
  {
    if b == [] then ""
    else if b[0] < 128 then [b[0] as char] + Decoded(b[1..])
    else Decoded(b[1..])
  }

  lemma {:induction false} DecodedBack(b: seq<Octet>, s: string)
    requires Ascii(s) && b == Encoded(s)
    ensures Decoded(b) == s
  {
    if s != "" {
      DecodedBack(b[1..], s[1..]);
    }
  }

  /** What str.strip removes, among the ASCII characters. */
  predicate Blank(c: char) {
    c == ' ' || 9 <= c as int <= 13 || 28 <= c as int <= 31
  }

  function StripLeft(s: string): (r: string)
    ensures |r| <= |s| && (r != "" ==> !Blank(r[0]))
  {
    if s != "" && Blank(s[0]) then StripLeft(s[1..]) else s
  }

  function StripRight(s: string): (r: string)
    ensures |r| <= |s| && (r != "" ==> !Blank(r[|r| - 1]))
  {
    if s != "" && Blank(s[|s| - 1]) then StripRight(s[..|s| - 1]) else s
  }

  function Strip(s: string): string {
    StripLeft(StripRight(s))
  }

  predicate Trimmed(s: string) {
    s == "" || (!Blank(s[0]) && !Blank(s[|s| - 1]))
  }

  function Spaces(n: nat): (s: string)
    ensures |s| == n && forall i :: 0 <= i < n ==> s[i] == ' '
  {
    if n == 0 then "" else Spaces(n - 1) + " "
  }

  lemma {:induction false} StripPadding(s: string, n: nat)
    ensures StripRight(s + Spaces(n)) == StripRight(s)
  {
    if n == 0 {
      assert s + Spaces(0) == s;
    } else {
      var t := s + Spaces(n);
      assert t[|t| - 1] == ' ' && t[..|t| - 1] == s + Spaces(n - 1);
      StripPadding(s, n - 1);
    }
  }

  lemma {:induction false} StripLeftEnd(s: string)
    requires s != "" && !Blank(s[|s| - 1])
    ensures var r := StripLeft(s); r != "" && r[|r| - 1] == s[|s| - 1]
  {
    if Blank(s[0]) {
      StripLeftEnd(s[1..]);
    }
  }

  /** Stripping leaves exactly the trimmed strings alone. */
  lemma StripFixed(s: string)
    ensures Trimmed(Strip(s)) && (Strip(s) == s <==> Trimmed(s))
  {
    var r := StripRight(s);
    if r != "" {
      StripLeftEnd(r);
    }
  }

  // ---------- The boot sector ----------

  /** The label field: ten or more characters are cut off, fewer are filled up with spaces. */
  function LabelText(title: string): (s: string)
    ensures |s| == 11 && (Ascii(title) ==> Ascii(s))
  {
    if |title| >= 11 then title[..11] else title + Spaces(11 - |title|)
  }

  /** What make_fat32_boot_sector can put into its fields. */
  predicate BootFits(total: nat, g: Geometry) {
    total < U32 && 0 < g.spc < 256 && g.spf < U32
  }

  // Slices of a sector that are set, in ascending order.

  datatype Field = Field(at: nat, bytes: seq<Octet>)

  predicate Ascending(fs: seq<Field>, end: nat) {
    && (forall k :: 0 <= k < |fs| - 1 ==> fs[k].at + |fs[k].bytes| <= fs[k + 1].at)
    && (fs != [] ==> fs[|fs| - 1].at + |fs[|fs| - 1].bytes| <= end)
  }

  function SetAll(b: seq<Octet>, fs: seq<Field>): (r: seq<Octet>)
    requires Ascending(fs, |b|)
    ensures |r| == |b|
  {
    if fs == [] then b
    else
      AscendingLess(fs, |b|);
      var n := |fs| - 1;
      Splice(SetAll(b, fs[..n]), fs[n].at, fs[n].bytes)
  }

  lemma AscendingLess(fs: seq<Field>, end: nat)
    requires Ascending(fs, end) && fs != []
    ensures Ascending(fs[..|fs| - 1], fs[|fs| - 1].at) && Ascending(fs[..|fs| - 1], end)
  {
    var n := |fs| - 1;
    if n > 0 {
      assert fs[n - 1].at + |fs[n - 1].bytes| <= fs[n - 1 + 1].at;
    }
  }

  lemma {:induction false} Before(fs: seq<Field>, end: nat, k: nat)
    requires Ascending(fs, end) && k < |fs|
    ensures fs[k].at + |fs[k].bytes| <= end
    decreases |fs|
  {
    if k < |fs| - 1 {
      AscendingLess(fs, end);
      Before(fs[..|fs| - 1], fs[|fs| - 1].at, k);
    }
  }

  /** Every field holds what was put there. */
  lemma {:induction false} FieldRead(b: seq<Octet>, fs: seq<Field>, k: nat)
    requires Ascending(fs, |b|) && k < |fs|
    ensures fs[k].at + |fs[k].bytes| <= |b|
    ensures SetAll(b, fs)[fs[k].at..fs[k].at + |fs[k].bytes|] == fs[k].bytes
    decreases |fs|
  {
    hide Splice;
    Before(fs, |b|, k);
    var n := |fs| - 1;
    AscendingLess(fs, |b|);
    if k < n {
      FieldRead(b, fs[..n], k);
      Before(fs[..n], fs[n].at, k);
      SpliceApart(SetAll(b, fs[..n]), fs[n].at, fs[n].bytes, fs[k].at, fs[k].at + |fs[k].bytes|);
    }
  }

  /** What is between the fields stays. */
  lemma {:induction false} GapRead(b: seq<Octet>, fs: seq<Field>, lo: nat, hi: nat)
    requires Ascending(fs, |b|) && lo <= hi <= |b|
    requires forall k :: 0 <= k < |fs| ==> hi <= fs[k].at || fs[k].at + |fs[k].bytes| <= lo
    ensures SetAll(b, fs)[lo..hi] == b[lo..hi]
    decreases |fs|
  {
    hide Splice;
    if fs != [] {
      var n := |fs| - 1;
      AscendingLess(fs, |b|);
      GapRead(b, fs[..n], lo, hi);
      SpliceApart(SetAll(b, fs[..n]), fs[n].at, fs[n].bytes, lo, hi);
    }
  }

  function Jump(): (b: seq<Octet>)
    ensures |b| == 3
  {
    [0xEB, 0x58, 0x90]
  }

  function Signature(): (b: seq<Octet>)
    ensures |b| == 2
  {
    [0x55, 0xAA]
  }

  /** What make_fat32_boot_sector sets. */
  function BootFieldList(total: nat, g: Geometry, title: string, hidden: nat): (fs: seq<Field>)
    requires BootFits(total, g) && hidden < U32 && Ascii(title)
    ensures |fs| == 26
  {
    [Field(0, Jump()), Field(3, Encoded("uniOSEFI")), Field(11, Le16(SECTOR)), Field(13, [g.spc]),
     Field(14, Le16(RESERVED)), Field(16, [FATS]), Field(17, Le16(0)), Field(19, Le16(0)), Field(21, [0xF8]),
     Field(22, Le16(0)), Field(24, Le16(63)), Field(26, Le16(255)), Field(28, Le32(hidden)), Field(32, Le32(total)),
     Field(36, Le32(g.spf)), Field(40, Le16(0)), Field(42, Le16(0)), Field(44, Le32(ROOT)),
     Field(48, Le16(INFO_SECTOR)), Field(50, Le16(BACKUP_SECTOR)), Field(64, [0x80]),
     Field(66, [0x29]), Field(67, Le32(0x554E_694F)), Field(71, Encoded(LabelText(title))),
     Field(82, Encoded("FAT32   ")), Field(510, Signature())]
  }

  lemma BootAscending(total: nat, g: Geometry, title: string, hidden: nat)
    requires BootFits(total, g) && hidden < U32 && Ascii(title)
    ensures Ascending(BootFieldList(total, g, title, hidden), SECTOR)
  {
    hide Le16, Le32, Encoded, LabelText;
  }

  /** make_fat32_boot_sector. */
  function BootSector(total: nat, g: Geometry, title: string, hidden: nat): (b: seq<Octet>)
    requires BootFits(total, g) && hidden < U32 && Ascii(title)
    ensures |b| == SECTOR
  {
    BootAscending(total, g, title, hidden);
    SetAll(Zeros(SECTOR), BootFieldList(total, g, title, hidden))
  }

  // ---------- Reading it back ----------

  /** The fields of a boot sector at the head of b. */
  ghost predicate BootFields(b: seq<Octet>, total: nat, g: Geometry, title: string, hidden: nat) {
    && |b| >= SECTOR && Shape(b, g) && Extent(b, total, g, hidden) && Names(b, title)
    && b[52..64] == Zeros(12) && b[65..66] == Zeros(1) && b[90..510] == Zeros(420)
  }

  ghost predicate Shape(b: seq<Octet>, g: Geometry)
    requires |b| >= SECTOR
  {
    && GetLe16(b, 11) == SECTOR && b[13] == g.spc && GetLe16(b, 14) == RESERVED && b[16] == FATS
    && GetLe16(b, 17) == 0 && GetLe16(b, 19) == 0 && b[21] == 0xF8 && GetLe16(b, 22) == 0
    && GetLe16(b, 24) == 63 && GetLe16(b, 26) == 255
  }

  ghost predicate Extent(b: seq<Octet>, total: nat, g: Geometry, hidden: nat)
    requires |b| >= SECTOR
  {
    && GetLe32(b, 28) == hidden && GetLe32(b, 32) == total && GetLe32(b, 36) == g.spf
    && GetLe16(b, 40) == 0 && GetLe16(b, 42) == 0 && GetLe32(b, 44) == ROOT
    && GetLe16(b, 48) == INFO_SECTOR && GetLe16(b, 50) == BACKUP_SECTOR
  }

  ghost predicate Names(b: seq<Octet>, title: string)
    requires |b| >= SECTOR
  {
    && b[0..3] == Jump() && Decoded(b[3..11]) == "uniOSEFI" && b[64] == 0x80 && b[66] == 0x29
    && GetLe32(b, 67) == 0x554E_694F && Decoded(b[71..82]) == LabelText(title) && Decoded(b[82..90]) == "FAT32   "
    && b[510..512] == Signature()
  }

  /** The geometry a driver finds in an image; None if it is not such a volume. */
  function Mounted(img: seq<Octet>): Option<Geometry> {
    if |img| < SECTOR || img[510..512] != Signature() || GetLe16(img, 11) != SECTOR || img[13] == 0 ||
       GetLe16(img, 14) != RESERVED || img[16] != FATS || GetLe16(img, 17) != 0 || GetLe16(img, 22) != 0 ||
       GetLe32(img, 44) != ROOT || DataSectors(GetLe32(img, 32), GetLe32(img, 36)) <= 0 then None
    else
      var spc, spf := img[13], GetLe32(img, 36);
      Some(Geometry(spc, spf, ClusterCount(GetLe32(img, 32), spf, spc)))
  }

  lemma BootField(total: nat, g: Geometry, title: string, hidden: nat, k: nat)
    requires BootFits(total, g) && hidden < U32 && Ascii(title) && k < 26
    ensures var f := BootFieldList(total, g, title, hidden)[k];
            f.at + |f.bytes| <= SECTOR && BootSector(total, g, title, hidden)[f.at..f.at + |f.bytes|] == f.bytes
  {
    hide BootFieldList, SetAll;
    BootAscending(total, g, title, hidden);
    FieldRead(Zeros(SECTOR), BootFieldList(total, g, title, hidden), k);
  }

  lemma SliceOf(s: seq<Octet>, n: nat, lo: nat, hi: nat)
    requires lo <= hi <= n <= |s|
    ensures s[..n][lo..hi] == s[lo..hi]
  {
  }

  lemma FieldOf(b: seq<Octet>, total: nat, g: Geometry, title: string, hidden: nat, k: nat)
    requires BootFits(total, g) && hidden < U32 && Ascii(title) && k < 26
    requires |b| >= SECTOR && b[..SECTOR] == BootSector(total, g, title, hidden)
    ensures var f := BootFieldList(total, g, title, hidden)[k];
            f.at + |f.bytes| <= SECTOR && b[f.at..f.at + |f.bytes|] == f.bytes
  {
    hide BootFieldList, BootSector;
    BootField(total, g, title, hidden, k);
    var f := BootFieldList(total, g, title, hidden)[k];
    SliceOf(b, SECTOR, f.at, f.at + |f.bytes|);
  }

  lemma ShapeBack(b: seq<Octet>, total: nat, g: Geometry, title: string, hidden: nat)
    requires BootFits(total, g) && hidden < U32 && Ascii(title)
    requires |b| >= SECTOR && b[..SECTOR] == BootSector(total, g, title, hidden)
    ensures Shape(b, g)
  {
    hide BootSector, Le16, GetLe16, Le32, Encoded, LabelText;
    forall k | 2 <= k < 12
      ensures var f := BootFieldList(total, g, title, hidden)[k];
              f.at + |f.bytes| <= SECTOR && b[f.at..f.at + |f.bytes|] == f.bytes
    {
      FieldOf(b, total, g, title, hidden, k);
    }
    var fs := BootFieldList(total, g, title, hidden);
    assert fs[2].at == 11 && fs[3].at == 13 && fs[4].at == 14 && fs[5].at == 16 && fs[6].at == 17 && fs[7].at == 19;
    assert fs[8].at == 21 && fs[9].at == 22 && fs[10].at == 24 && fs[11].at == 26;
    Le16Back(SECTOR, b, 11);
    Le16Back(RESERVED, b, 14);
    Le16Back(0, b, 17);
    Le16Back(0, b, 19);
    Le16Back(0, b, 22);
    Le16Back(63, b, 24);
    Le16Back(255, b, 26);
    assert b[13..14][0] == b[13] && b[16..17][0] == b[16] && b[21..22][0] == b[21];
  }

  lemma ExtentBack(b: seq<Octet>, total: nat, g: Geometry, title: string, hidden: nat)
    requires BootFits(total, g) && hidden < U32 && Ascii(title)
    requires |b| >= SECTOR && b[..SECTOR] == BootSector(total, g, title, hidden)
    ensures Extent(b, total, g, hidden)
  {
    hide BootSector, Le16, GetLe16, Le32, GetLe32, Encoded, LabelText;
    forall k | 12 <= k < 20
      ensures var f := BootFieldList(total, g, title, hidden)[k];
              f.at + |f.bytes| <= SECTOR && b[f.at..f.at + |f.bytes|] == f.bytes
    {
      FieldOf(b, total, g, title, hidden, k);
    }
    var fs := BootFieldList(total, g, title, hidden);
    assert fs[12].at == 28 && fs[13].at == 32 && fs[14].at == 36 && fs[15].at == 40 && fs[16].at == 42;
    assert fs[17].at == 44 && fs[18].at == 48 && fs[19].at == 50;
    Le32Back(hidden, b, 28);
    Le32Back(total, b, 32);
    Le32Back(g.spf, b, 36);
    Le16Back(0, b, 40);
    Le16Back(0, b, 42);
    Le32Back(ROOT, b, 44);
    Le16Back(INFO_SECTOR, b, 48);
    Le16Back(BACKUP_SECTOR, b, 50);
  }

  lemma NamesBack(b: seq<Octet>, total: nat, g: Geometry, title: string, hidden: nat)
    requires BootFits(total, g) && hidden < U32 && Ascii(title)
    requires |b| >= SECTOR && b[..SECTOR] == BootSector(total, g, title, hidden)
    ensures Names(b, title)
  {
    hide BootSector, Le16, Le32, GetLe32, Encoded, LabelText, Decoded;
    forall k | 0 <= k < 26
      ensures var f := BootFieldList(total, g, title, hidden)[k];
              f.at + |f.bytes| <= SECTOR && b[f.at..f.at + |f.bytes|] == f.bytes
    {
      FieldOf(b, total, g, title, hidden, k);
    }
    var fs := BootFieldList(total, g, title, hidden);
    assert fs[0].at == 0 && fs[1].at == 3 && fs[20].at == 64 && fs[21].at == 66 && fs[22].at == 67;
    assert fs[23].at == 71 && fs[24].at == 82 && fs[25].at == 510;
    DecodedBack(b[3..11], "uniOSEFI");
    DecodedBack(b[71..82], LabelText(title));
    DecodedBack(b[82..90], "FAT32   ");
    Le32Back(0x554E_694F, b, 67);
    assert b[64..65][0] == b[64] && b[66..67][0] == b[66];
  }

  lemma GapsBack(total: nat, g: Geometry, title: string, hidden: nat, lo: nat, hi: nat)
    requires BootFits(total, g) && hidden < U32 && Ascii(title)
    requires (lo, hi) in {(52, 64), (65, 66), (90, 510)}
    ensures BootSector(total, g, title, hidden)[lo..hi] == Zeros(hi - lo)
  {
    hide SetAll, Le16, Le32, Encoded, LabelText;
    BootAscending(total, g, title, hidden);
    GapRead(Zeros(SECTOR), BootFieldList(total, g, title, hidden), lo, hi);
  }

  /** Everything in the boot sector reads back. */
  lemma BootBack(b: seq<Octet>, total: nat, g: Geometry, title: string, hidden: nat)
    requires BootFits(total, g) && hidden < U32 && Ascii(title)
    requires |b| >= SECTOR && b[..SECTOR] == BootSector(total, g, title, hidden)
    ensures BootFields(b, total, g, title, hidden)
  {
    hide BootSector, Shape, Extent, Names;
    ShapeBack(b, total, g, title, hidden);
    ExtentBack(b, total, g, title, hidden);
    NamesBack(b, total, g, title, hidden);
    GapsBack(total, g, title, hidden, 52, 64);
    GapsBack(total, g, title, hidden, 65, 66);
    GapsBack(total, g, title, hidden, 90, 510);
    SliceOf(b, SECTOR, 52, 64);
    SliceOf(b, SECTOR, 65, 66);
    SliceOf(b, SECTOR, 90, 510);
  }

  /** A driver gets the geometry the volume was made with, if the clusters are those the sectors have room for. */
  lemma MountBack(b: seq<Octet>, total: nat, g: Geometry, title: string, hidden: nat)
    requires BootFields(b, total, g, title, hidden) && g.spc > 0 && DataSectors(total, g.spf) > 0
    ensures Mounted(b) == Some(g) <==> g.clusters == ClusterCount(total, g.spf, g.spc)
  {
    hide GetLe16, GetLe32, Decoded, ClusterCount;
  }

  // ---------- The label ----------

  /** fat32_volume_label. */
  function VolumeLabel(img: seq<Octet>): string {
    if |img| < SECTOR || img[510..512] != Signature() then "" else Strip(Decoded(img[71..82]))
  }

  /** The label that is found, and when it is the one that was given. */
  lemma LabelBack(b: seq<Octet>, total: nat, g: Geometry, title: string, hidden: nat)
    requires BootFields(b, total, g, title, hidden)
    ensures VolumeLabel(b) == Strip(if |title| <= 11 then title else title[..11])
    ensures VolumeLabel(b) == title <==> |title| <= 11 && Trimmed(title)
  {
    hide GetLe16, GetLe32, Decoded, StripRight, StripLeft, Shape, Extent;
    if |title| <= 11 {
      StripPadding(title, 11 - |title|);
      assert title[..|title|] == title;
    }
    StripFixed(title);
    StripLength(title[..if |title| <= 11 then |title| else 11]);
  }

  lemma StripLength(s: string)
    ensures |Strip(s)| <= |s|
  {
  }

  // ---------- FSInfo ----------

  /** What make_fat32_fsinfo sets. */
  function InfoFieldList(next: nat, free: nat): (fs: seq<Field>)
    requires next < U32 && free < U32
    ensures |fs| == 5
  {
    [Field(0, Le32(0x4161_5252)), Field(484, Le32(0x6141_7272)), Field(488, Le32(free)), Field(492, Le32(next)),
     Field(508, Le32(0xAA55_0000))]
  }

  lemma InfoAscending(next: nat, free: nat)
    requires next < U32 && free < U32
    ensures Ascending(InfoFieldList(next, free), SECTOR)
  {
    hide Le32;
  }

  /** make_fat32_fsinfo. */
  function FsInfo(next: nat, free: nat): (b: seq<Octet>)
    requires next < U32 && free < U32
    ensures |b| == SECTOR
  {
    InfoAscending(next, free);
    SetAll(Zeros(SECTOR), InfoFieldList(next, free))
  }

  /** An FSInfo sector at o with these numbers. */
  ghost predicate InfoAt(img: seq<Octet>, o: nat, next: nat, free: nat) {
    && o + SECTOR <= |img| && GetLe32(img, o) == 0x4161_5252 && GetLe32(img, o + 484) == 0x6141_7272
    && GetLe32(img, o + 488) == free && GetLe32(img, o + 492) == next && GetLe32(img, o + 508) == 0xAA55_0000
  }

  lemma InfoBack(img: seq<Octet>, o: nat, next: nat, free: nat)
    requires next < U32 && free < U32 && o + SECTOR <= |img| && img[o..o + SECTOR] == FsInfo(next, free)
    ensures InfoAt(img, o, next, free)
  {
    hide Le32, GetLe32, SetAll;
    InfoAscending(next, free);
    var fs := InfoFieldList(next, free);
    forall k | 0 <= k < 5
      ensures fs[k].at + 4 <= SECTOR && img[o + fs[k].at..o + fs[k].at + 4] == fs[k].bytes
    {
      FieldRead(Zeros(SECTOR), fs, k);
      InnerSlice(img, o, SECTOR, fs[k].at, fs[k].at + 4);
    }
    Le32Back(0x4161_5252, img, o + fs[0].at);
    Le32Back(0x6141_7272, img, o + fs[1].at);
    Le32Back(free, img, o + fs[2].at);
    Le32Back(next, img, o + fs[3].at);
    Le32Back(0xAA55_0000, img, o + fs[4].at);
  }

  lemma InnerSlice(s: seq<Octet>, o: nat, n: nat, lo: nat, hi: nat)
    requires lo <= hi <= n && o + n <= |s|
    ensures s[o..o + n][lo..hi] == s[o + lo..o + hi]
  {
    var x, y := s[o..o + n][lo..hi], s[o + lo..o + hi];
    assert forall k :: 0 <= k < |x| ==> x[k] == y[k];
  }

  // ---------- Hidden sectors ----------

  /** patch_hidden_sectors. */
  function PatchHidden(img: seq<Octet>, hidden: nat): (r: seq<Octet>)
    requires |img| >= SECTOR && hidden < U32
    ensures |r| == |img|
  {
    Splice(img, 28, Le32(hidden))
  }

  predicate SameBut(b: seq<Octet>, r: seq<Octet>, lo: nat, hi: nat) {
    |r| == |b| && forall i :: 0 <= i < |b| && !(lo <= i < hi) ==> r[i] == b[i]
  }

  lemma SameSlice(b: seq<Octet>, r: seq<Octet>, lo: nat, hi: nat, i: nat, j: nat)
    requires SameBut(b, r, lo, hi) && i <= j <= |b| && (j <= lo || hi <= i)
    ensures r[i..j] == b[i..j]
  {
  }

  lemma SameNumbers(b: seq<Octet>, r: seq<Octet>, total: nat, g: Geometry, was: nat, hidden: nat)
    requires |b| >= SECTOR && SameBut(b, r, 28, 32) && Shape(b, g) && Extent(b, total, g, was)
    requires GetLe32(r, 28) == hidden
    ensures Shape(r, g) && Extent(r, total, g, hidden) && r[64] == b[64] && r[66] == b[66]
    ensures GetLe32(r, 67) == GetLe32(b, 67)
  {
  }

  lemma SameDrive(b: seq<Octet>, r: seq<Octet>, total: nat, g: Geometry, was: nat, hidden: nat)
    requires |r| == |b| >= SECTOR && Shape(b, g) && Shape(r, g)
    requires Extent(b, total, g, was) && Extent(r, total, g, hidden)
    requires r[510..512] == b[510..512] && r[71..82] == b[71..82]
    ensures Mounted(r) == Mounted(b) && VolumeLabel(r) == VolumeLabel(b)
  {
    hide GetLe16, GetLe32, Decoded, Strip;
  }

  /** The volume is moved behind other sectors: everything else stays, for a driver too. But the backup of the boot
      sector is not patched: see StaleBackup. */
  lemma Patched(img: seq<Octet>, total: nat, g: Geometry, title: string, was: nat, hidden: nat)
    requires BootFields(img, total, g, title, was) && hidden < U32
    ensures var r := PatchHidden(img, hidden);
            && BootFields(r, total, g, title, hidden) && r[SECTOR..] == img[SECTOR..]
            && Mounted(r) == Mounted(img) && VolumeLabel(r) == VolumeLabel(img)
  {
    hide Shape, Extent, Decoded, LabelText, Mounted, VolumeLabel, GetLe32, Le32, Splice;
    var r := PatchHidden(img, hidden);
    assert r[28..28 + 4] == Le32(hidden);
    Le32Back(hidden, r, 28);
    OutsideSplice(img, 28, Le32(hidden));
    SameNumbers(img, r, total, g, was, hidden);
    SameSlice(img, r, 28, 32, 0, 3);
    SameSlice(img, r, 28, 32, 3, 11);
    SameSlice(img, r, 28, 32, 52, 64);
    SameSlice(img, r, 28, 32, 65, 66);
    SameSlice(img, r, 28, 32, 71, 82);
    SameSlice(img, r, 28, 32, 82, 90);
    SameSlice(img, r, 28, 32, 90, 510);
    SameSlice(img, r, 28, 32, 510, 512);
    SameSlice(img, r, 28, 32, SECTOR, |img|);
    SameDrive(img, r, total, g, was, hidden);
  }

  lemma OutsideSplice(b: seq<Octet>, o: nat, d: seq<Octet>)
    requires o + |d| <= |b|
    ensures SameBut(b, Splice(b, o, d), o, o + |d|)
  {
  }

  /** The backup agrees with the patched boot sector if and only if nothing changed. */
  lemma StaleBackup(img: seq<Octet>, total: nat, g: Geometry, title: string, was: nat, hidden: nat)
    requires BootFields(img, total, g, title, was) && hidden < U32 && |img| >= (BACKUP_SECTOR + 1) * SECTOR
    requires img[BACKUP_SECTOR * SECTOR..(BACKUP_SECTOR + 1) * SECTOR] == img[..SECTOR]
    ensures var r := PatchHidden(img, hidden);
            r[BACKUP_SECTOR * SECTOR..(BACKUP_SECTOR + 1) * SECTOR] == r[..SECTOR] <==> hidden == was
  {
    hide Shape, Decoded, LabelText, Names, GetLe32, Le32, Splice;
    var r, o := PatchHidden(img, hidden), BACKUP_SECTOR * SECTOR;
    Patched(img, total, g, title, was, hidden);
    OutsideSplice(img, 28, Le32(hidden));
    SameSlice(img, r, 28, 32, o, o + SECTOR);
    if hidden == was {
      NumberBytes(img, 28, hidden);
      SpliceSame(img, 28, Le32(hidden));
    }
    SliceOf(r, SECTOR, 28, 32);
    SliceOf(img, SECTOR, 28, 32);
    NumberSlice(r, img, 28);
  }

  lemma NumberSlice(b: seq<Octet>, c: seq<Octet>, o: nat)
    requires o + 4 <= |b| && o + 4 <= |c|
    ensures b[o..o + 4] == c[o..o + 4] ==> GetLe32(b, o) == GetLe32(c, o)
  {
    var s, t := b[o..o + 4], c[o..o + 4];
    assert s[0] == b[o] && s[1] == b[o + 1] && s[2] == b[o + 2] && s[3] == b[o + 3];
    assert t[0] == c[o] && t[1] == c[o + 1] && t[2] == c[o + 2] && t[3] == c[o + 3];
  }

  lemma Digit(v: nat, q: nat, r: nat)
    requires v == 256 * q + r && r < 256
    ensures v / 256 == q && v % 256 == r
  {
  }

  lemma NumberBytes(b: seq<Octet>, o: nat, v: nat)
    requires o + 4 <= |b| && v < U32 && GetLe32(b, o) == v
    ensures b[o..o + 4] == Le32(v)
  {
    var q3: nat := b[o + 3];
    var q2: nat := 256 * q3 + b[o + 2];
    var q1: nat := 256 * q2 + b[o + 1];
    Digit(v, q1, b[o]);
    Digit(q1, q2, b[o + 1]);
    Digit(q2, q3, b[o + 2]);
    Quotients(v);
  }

  lemma Quotients(v: nat)
    ensures v / 0x1_0000 == v / 256 / 256 && v / 0x100_0000 == v / 256 / 256 / 256
  {
  }

  lemma SpliceSame(b: seq<Octet>, o: nat, d: seq<Octet>)
    requires o + |d| <= |b| && b[o..o + |d|] == d
    ensures Splice(b, o, d) == b
  {
  }
}
