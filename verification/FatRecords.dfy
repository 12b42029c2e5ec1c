/** Directory records: 8.3 names, 32-byte entries, and a directory's listing. */
module FatRecords {
  import opened Options
  import opened FatLayout
  import opened FatVolume

  const DIRECTORY: Octet := 0x10
  const ARCHIVE: Octet := 0x20

  /** A directory entry. */
  datatype Record = Record(name: seq<Octet>, attr: Octet, cluster: nat, size: nat)

  predicate Encodable(r: Record) {
    |r.name| == 11 && r.name[0] != 0 && r.cluster < U32 && r.size < U32
  }

  function Le16(v: nat): (s: seq<Octet>)
    requires v < 0x1_0000
    ensures |s| == 2
  {
    [v % 256, v / 256]
  }

  function GetLe16(b: seq<Octet>, o: nat): nat
    requires o + 2 <= |b|
  {
    (b[o] as int) + (b[o + 1] as int) * 256
  }

  /** make_dir_entry. */
  function Encode(r: Record): (b: seq<Octet>)
    requires Encodable(r)
    ensures |b| == 32
  {
    r.name + [r.attr] + Zeros(8) + Le16(r.cluster / 0x1_0000) + Zeros(4) + Le16(r.cluster % 0x1_0000) + Le32(r.size)
  }

  function Decode(b: seq<Octet>): Record
    requires |b| >= 32
  {
    Record(b[..11], b[11], GetLe16(b, 20) * 0x1_0000 + GetLe16(b, 26), GetLe32(b, 28))
  }

  lemma DecodeEncode(r: Record, rest: seq<Octet>)
    requires Encodable(r)
    ensures Decode(Encode(r) + rest) == r
  {
    hide Le32, GetLe32, Le16, GetLe16, Zeros;
    var b := Encode(r) + rest;
    assert b[..11] == r.name && b[11] == r.attr;
    assert b[20..22] == Le16(r.cluster / 0x1_0000) && b[26..28] == Le16(r.cluster % 0x1_0000);
    assert b[28..32] == Le32(r.size);
    Le16Back(r.cluster / 0x1_0000, b, 20);
    Le16Back(r.cluster % 0x1_0000, b, 26);
    Le32Back(r.size, b, 28);
  }

  lemma Le16Back(v: nat, b: seq<Octet>, o: nat)
    requires v < 0x1_0000 && o + 2 <= |b| && b[o..o + 2] == Le16(v)
    ensures GetLe16(b, o) == v
  {
    assert b[o] == b[o..o + 2][0] && b[o + 1] == b[o..o + 2][1];
  }

  function EncodeAll(rs: seq<Record>): (b: seq<Octet>)
    requires forall r :: r in rs ==> Encodable(r)
    ensures |b| == 32 * |rs|
  {
    if rs == [] then [] else Encode(rs[0]) + EncodeAll(rs[1..])
  }

  /** Reads entries up to the first that starts with a zero byte. */
  function Parse(b: seq<Octet>): seq<Record> {
    if |b| < 32 || b[0] == 0 then [] else [Decode(b)] + Parse(b[32..])
  }

  /** A directory's entries, closed by a zero entry, parse back. */
  lemma {:induction false} ParseBack(rs: seq<Record>, rest: seq<Octet>)
    requires forall r :: r in rs ==> Encodable(r)
    ensures Parse(EncodeAll(rs) + Zeros(32) + rest) == rs
  {
    hide Encode, Decode;
    if rs == [] {
      assert (EncodeAll(rs) + Zeros(32) + rest)[0] == 0;
    } else {
      var tail := EncodeAll(rs[1..]) + Zeros(32) + rest;
      var b := EncodeAll(rs) + Zeros(32) + rest;
      assert b == Encode(rs[0]) + tail;
      DecodeEncode(rs[0], tail);
      FirstByte(rs[0], tail);
      ParseBack(rs[1..], rest);
      assert b[32..] == tail;
    }
  }

  lemma FirstByte(r: Record, rest: seq<Octet>)
    requires Encodable(r)
    ensures (Encode(r) + rest)[0] == r.name[0]
  {
  }

  // Names.

  function Upper(c: char): char {
    if 'a' <= c <= 'z' then c - 'a' + 'A' else c
  }

  function UpperAll(s: string): (r: string)
    ensures |r| == |s|
  {
    if s == "" then "" else [Upper(s[0])] + UpperAll(s[1..])
  }

  /** str.split("."). */
  function Split(s: string): (parts: seq<string>)
    ensures |parts| >= 1
  {
    if s == "" then [""]
    else
      var rest := Split(s[1..]);
      if s[0] == '.' then [""] + rest else [[s[0]] + rest[0]] + rest[1..]
  }

  predicate Allowed(c: char) {
    || 'A' <= c <= 'Z' || '0' <= c <= '9'
    || c in {'_', '$', '%', '\'', '-', '@', '~', '`', '!', '(', ')', '{', '}', '^', '#', '&'}
  }

  function Spaces(n: nat): (s: seq<Octet>)
    ensures |s| == n
  {
    if n == 0 then [] else Spaces(n - 1) + [0x20]
  }

  function Ascii(s: string): (b: seq<Octet>)
    ensures |b| == |s|
  {
    if s == "" then [] else Ascii(s[..|s| - 1]) + [s[|s| - 1] as int % 256]
  }

  /** fat_name, for ASCII letters. */
  function FatName(name: string): (r: Option<seq<Octet>>)
    ensures r.Some? ==> |r.value| == 11
  {
    var parts := Split(UpperAll(name));
    if |parts| > 2 then None
    else
      var base, ext := parts[0], if |parts| == 2 then parts[1] else "";
      if base == "" || |base| > 8 || |ext| > 3 then None
      else if exists c :: c in base + ext && !Allowed(c) then None
      else Some(Ascii(base) + Spaces(8 - |base|) + Ascii(ext) + Spaces(3 - |ext|))
  }

  lemma {:induction false} AsciiAt(s: string, i: nat)
    requires i < |s|
    ensures Ascii(s)[i] == s[i] as int % 256
  {
    if i < |s| - 1 {
      AsciiAt(s[..|s| - 1], i);
    }
  }

  /** A name of up to eight characters and an extension of up to three: upper case, each filled up with spaces. */
  lemma ShortName(base: string, ext: string)
    requires 0 < |base| <= 8 && |ext| <= 3
    requires forall i :: 0 <= i < |base| ==> Allowed(Upper(base[i]))
    requires forall i :: 0 <= i < |ext| ==> Allowed(Upper(ext[i]))
    ensures var r := FatName(base + "." + ext);
            && r.Some? && (ext == "" ==> FatName(base) == r)
            && (forall i :: 0 <= i < 8 ==> r.value[i] == if i < |base| then Upper(base[i]) as int else 0x20)
            && (forall i :: 0 <= i < 3 ==> r.value[8 + i] == if i < |ext| then Upper(ext[i]) as int else 0x20)
  {
    hide Ascii, Spaces, Allowed, Upper;
    var b, e := UpperAll(base), UpperAll(ext);
    UpperAt(base);
    UpperAt(ext);
    AllowedText(b);
    AllowedText(e);
    UpperDot(base, ext);
    SplitOnce(b, e);
    SplitNone(b);
    SplitNone(e);
    SpacesAt(8 - |b|);
    SpacesAt(3 - |e|);
    assert forall c :: c in b + e ==> Allowed(c);
  }

  lemma AllowedText(s: string)
    requires forall i :: 0 <= i < |s| ==> Allowed(s[i])
    ensures forall i :: 0 <= i < |s| ==> s[i] != '.' && Ascii(s)[i] == s[i] as int
  {
    hide Ascii, Allowed;
    forall i | 0 <= i < |s|
      ensures s[i] != '.' && Ascii(s)[i] == s[i] as int
    {
      NoDot(s[i]);
      AsciiAt(s, i);
    }
  }

  lemma NoDot(c: char)
    requires Allowed(c)
    ensures c != '.' && c as int < 128
  {
  }

  lemma {:induction false} UpperAt(s: string)
    ensures forall i :: 0 <= i < |s| ==> UpperAll(s)[i] == Upper(s[i])
  {
    hide Upper;
    if s != "" {
      UpperAt(s[1..]);
    }
  }

  lemma UpperDot(base: string, ext: string)
    ensures UpperAll(base + "." + ext) == UpperAll(base) + "." + UpperAll(ext)
  {
    UpperAt(base + "." + ext);
    UpperAt(base);
    UpperAt(ext);
  }

  lemma {:induction false} SplitNone(s: string)
    requires forall i :: 0 <= i < |s| ==> s[i] != '.'
    ensures Split(s) == [s]
  {
    if s != "" {
      SplitNone(s[1..]);
      assert s == [s[0]] + s[1..];
    }
  }

  lemma {:induction false} SplitOnce(b: string, e: string)
    requires forall i :: 0 <= i < |b| ==> b[i] != '.'
    requires forall i :: 0 <= i < |e| ==> e[i] != '.'
    ensures Split(b + "." + e) == [b, e]
  {
    var s := b + "." + e;
    if b == "" {
      assert s[1..] == e;
      SplitNone(e);
    } else {
      assert s[1..] == b[1..] + "." + e;
      SplitOnce(b[1..], e);
      assert b == [b[0]] + b[1..];
    }
  }

  lemma {:induction false} SpacesAt(n: nat)
    ensures forall i :: 0 <= i < n ==> Spaces(n)[i] == 0x20
  {
    if n > 0 {
      SpacesAt(n - 1);
    }
  }

  /** No name starts like the end of a directory, or like the two dot entries. */
  lemma NameStart(name: string)
    requires FatName(name).Some?
    ensures FatName(name).value[0] != 0 && FatName(name).value[0] != '.' as int
  {
    hide Ascii, Spaces;
    var base := Split(UpperAll(name))[0];
    AsciiAt(base, 0);
    assert base[0] in base && Allowed(base[0]);
    AllowedByte(base[0]);
  }

  lemma AllowedByte(c: char)
    requires Allowed(c)
    ensures c as int % 256 != 0 && c as int % 256 != '.' as int
  {
  }
}
