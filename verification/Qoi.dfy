/** The QOI image codec (QOI specification version 1.0): the encoder of the asset tools and the decoder
    of the GUI library. The bit fields of a chunk are written as sums, since they do not overlap. */
module Qoi {
  import opened Options

  type Octet = b: int | 0 <= b < 256

  datatype Pixel = Pixel(r: Octet, g: Octet, b: Octet, a: Octet)

  const ZERO := Pixel(0, 0, 0, 0)
  const FIRST := Pixel(0, 0, 0, 255)

  /** qoi_hash and qoi_pixel_hash: the slot of a pixel in the index of recent pixels. */
  function Hash(p: Pixel): (h: nat)
    ensures h < 64
  {
    (p.r * 3 + p.g * 5 + p.b * 7 + p.a * 11) % 64
  }

  type Index = s: seq<Pixel> | |s| == 64 witness EmptyIndex()

  function EmptyIndex(): (s: seq<Pixel>)
    ensures |s| == 64 && forall i :: 0 <= i < 64 ==> s[i] == ZERO
  {
    seq(64, _ => ZERO)
  }

  // The encoder.

  datatype Encoder = Encoder(out: seq<Octet>, index: Index, prev: Pixel, run: nat)

  function RunByte(run: nat): Octet
    requires 0 < run <= 62
  {
    0xC0 + (run - 1)
  }

  function Flush(e: Encoder): Encoder
    requires e.run <= 62
  {
    if e.run > 0 then e.(out := e.out + [RunByte(e.run)], run := 0) else e
  }

  predicate Small(dr: int, dg: int, db: int) {
    -2 <= dr <= 1 && -2 <= dg <= 1 && -2 <= db <= 1
  }

  predicate Luma(dr: int, dg: int, db: int) {
    -32 <= dg <= 31 && -8 <= dr - dg <= 7 && -8 <= db - dg <= 7
  }

  /** The chunk for a pixel that is not in the index: the shortest of DIFF, LUMA, RGB and RGBA that can say it. */
  function Literal(prev: Pixel, p: Pixel): seq<Octet> {
    if p.a != prev.a then [0xFF, p.r, p.g, p.b, p.a]
    else
      var dr, dg, db := p.r - prev.r, p.g - prev.g, p.b - prev.b;
      if Small(dr, dg, db) then [0x40 + (dr + 2) * 16 + (dg + 2) * 4 + (db + 2)]
      else if Luma(dr, dg, db) then [0x80 + (dg + 32), (dr - dg + 8) * 16 + (db - dg + 8)]
      else [0xFE, p.r, p.g, p.b]
  }

  /** One turn of the encoder's loop. */
  function EncodePixel(e: Encoder, p: Pixel): (f: Encoder)
    requires e.run < 62
    ensures f.run < 62
    ensures e.out <= f.out
  {
    if p == e.prev then
      var f := e.(run := e.run + 1);
      if f.run == 62 then Flush(f) else f
    else
      var f, h := Flush(e), Hash(p);
      if f.index[h] == p then f.(out := f.out + [h], prev := p)
      else f.(out := f.out + Literal(e.prev, p), index := f.index[h := p], prev := p)
  }

  const ENCODER := Encoder([], EmptyIndex(), FIRST, 0)

  function EncodeAll(pixels: seq<Pixel>, n: nat): (e: Encoder)
    requires n <= |pixels|
    ensures e.run < 62
  {
    if n == 0 then ENCODER else EncodePixel(EncodeAll(pixels, n - 1), pixels[n - 1])
  }

  /** The chunks of an image. */
  function Chunks(pixels: seq<Pixel>): seq<Octet> {
    Flush(EncodeAll(pixels, |pixels|)).out
  }

  function Be32(n: nat): (s: seq<Octet>)
    requires n < 0x1_0000_0000
    ensures |s| == 4
  {
    [n / 0x100_0000, n / 0x1_0000 % 256, n / 256 % 256, n % 256]
  }

  function Header(width: nat, height: nat): seq<Octet>
    requires width < 0x1_0000_0000 && height < 0x1_0000_0000
  {
    ['q' as int, 'o' as int, 'i' as int, 'f' as int] + Be32(width) + Be32(height) + [4, 0]
  }

  const END_MARKER: seq<Octet> := [0, 0, 0, 0, 0, 0, 0, 1]
  const HEADER_SIZE: nat := 14

  /** The six kinds of chunks, byte by byte: a run, a small difference, three colours, a difference in luma, a look into
      the index, and four channels. */
  lemma KnownChunks()
    ensures var p, q := Pixel(10, 20, 30, 255), Pixel(20, 30, 35, 255);
            Chunks([FIRST, Pixel(1, 1, 0, 255), p, q, p, Pixel(10, 20, 30, 128)]) ==
            [0xC0, 0x7E, 0xFE, 10, 20, 30, 0xAA, 0x83, 9, 0xFF, 10, 20, 30, 128]
  {
    var o, p, q, t := Pixel(1, 1, 0, 255), Pixel(10, 20, 30, 255), Pixel(20, 30, 35, 255), Pixel(10, 20, 30, 128);
    var s := [FIRST, o, p, q, p, t];
    var i1 := EmptyIndex()[61 := o];
    var i2 := i1[9 := p];
    var i3 := i2[60 := q];
    assert EncodeAll(s, 1) == Encoder([], EmptyIndex(), FIRST, 1);
    assert EncodeAll(s, 2) == Encoder([0xC0, 0x7E], i1, o, 0);
    assert EncodeAll(s, 3) == Encoder([0xC0, 0x7E, 0xFE, 10, 20, 30], i2, p, 0);
    assert EncodeAll(s, 4) == Encoder([0xC0, 0x7E, 0xFE, 10, 20, 30, 0xAA, 0x83], i3, q, 0);
    assert EncodeAll(s, 5) == Encoder([0xC0, 0x7E, 0xFE, 10, 20, 30, 0xAA, 0x83, 9], i3, p, 0);
  }

  // The decoder.

  datatype Decoder = Decoder(off: nat, index: Index, px: Pixel, run: nat)

  /** A DIFF chunk; components wrap around at 256. */
  function AddSmall(px: Pixel, b1: Octet): Pixel {
    Pixel((px.r + b1 / 16 % 4 - 2) % 256, (px.g + b1 / 4 % 4 - 2) % 256, (px.b + b1 % 4 - 2) % 256, px.a)
  }

  /** A LUMA chunk. */
  function AddLuma(px: Pixel, b1: Octet, b2: Octet): Pixel {
    var dg: int, dr: int, db: int := b1 % 64 - 32, b2 / 16 - 8, b2 % 16 - 8;
    Pixel((px.r + dg + dr) % 256, (px.g + dg) % 256, (px.b + dg + db) % 256, px.a)
  }

  /** One turn of the decoder's loop; None when the chunks end too early. */
  function ReadPixel(b: seq<Octet>, end: nat, d: Decoder): (r: Option<Decoder>)
    requires end <= |b|
    ensures r.Some? ==> d.off <= r.value.off && (d.off <= end ==> r.value.off <= end)
  {
    if d.run > 0 then Some(d.(run := d.run - 1, index := d.index[Hash(d.px) := d.px]))
    else if d.off >= end then None
    else
      var b1, o, px := b[d.off], d.off + 1, d.px;
      if b1 == 0xFE then
        if o + 3 > end then None else Seen(d, o + 3, Pixel(b[o], b[o + 1], b[o + 2], px.a), 0)
      else if b1 == 0xFF then
        if o + 4 > end then None else Seen(d, o + 4, Pixel(b[o], b[o + 1], b[o + 2], b[o + 3]), 0)
      else if b1 / 64 == 0 then
        Seen(d, o, d.index[b1 % 64], 0)
      else if b1 / 64 == 1 then
        Seen(d, o, AddSmall(px, b1), 0)
      else if b1 / 64 == 2 then
        if o >= end then None else Seen(d, o + 1, AddLuma(px, b1, b[o]), 0)
      else
        Seen(d, o, px, b1 % 64)
  }

  function Seen(d: Decoder, off: nat, px: Pixel, run: nat): Option<Decoder> {
    Some(Decoder(off, d.index[Hash(px) := px], px, run))
  }

  /** The difference of two channels modulo 256, from -128 on. */
  function Wrapped(d: int): int { (d + 128) % 256 - 128 }

  /** Differences count modulo 256: for any two pixels with one alpha whose wrapped differences fit a DIFF or a LUMA
      chunk, the decoder gets from the one to the other by that chunk, though the encoder never uses it that way. */
  lemma WrapReads(prev: Pixel, p: Pixel)
    requires p.a == prev.a
    ensures var dr, dg, db := Wrapped(p.r - prev.r), Wrapped(p.g - prev.g), Wrapped(p.b - prev.b);
            && (Small(dr, dg, db) ==> AddSmall(prev, 0x40 + (dr + 2) * 16 + (dg + 2) * 4 + (db + 2)) == p)
            && (Luma(dr, dg, db) ==> AddLuma(prev, 0x80 + (dg + 32), (dr - dg + 8) * 16 + (db - dg + 8)) == p)
  {
    hide Wrapped, AddSmall, AddLuma;
    var dr, dg, db := Wrapped(p.r - prev.r), Wrapped(p.g - prev.g), Wrapped(p.b - prev.b);
    WrapsBack(prev.r, p.r);
    WrapsBack(prev.g, p.g);
    WrapsBack(prev.b, p.b);
    if Small(dr, dg, db) {
      SmallAdds(prev, dr, dg, db);
    }
    if Luma(dr, dg, db) {
      LumaAdds(prev, dr, dg, db);
    }
  }

  lemma SmallAdds(px: Pixel, dr: int, dg: int, db: int)
    requires Small(dr, dg, db)
    ensures AddSmall(px, 0x40 + (dr + 2) * 16 + (dg + 2) * 4 + (db + 2)) ==
            Pixel((px.r + dr) % 256, (px.g + dg) % 256, (px.b + db) % 256, px.a)
  {
    SmallFields(dr + 2, dg + 2, db + 2);
  }

  lemma LumaAdds(px: Pixel, dr: int, dg: int, db: int)
    requires Luma(dr, dg, db)
    ensures AddLuma(px, 0x80 + (dg + 32), (dr - dg + 8) * 16 + (db - dg + 8)) ==
            Pixel((px.r + dr) % 256, (px.g + dg) % 256, (px.b + db) % 256, px.a)
  {
    LumaFields(dg + 32, dr - dg + 8, db - dg + 8);
  }

  lemma WrapsBack(from: Octet, to: Octet)
    ensures (from + Wrapped(to - from)) % 256 == to
  {
  }

  lemma SmallFields(x: int, y: int, z: int)
    requires 0 <= x < 4 && 0 <= y < 4 && 0 <= z < 4
    ensures var b := 0x40 + x * 16 + y * 4 + z; b / 16 % 4 == x && b / 4 % 4 == y && b % 4 == z
  {
  }

  lemma LumaFields(x: int, y: int, z: int)
    requires 0 <= x < 64 && 0 <= y < 16 && 0 <= z < 16
    ensures (0x80 + x) % 64 == x && (y * 16 + z) / 16 == y && (y * 16 + z) % 16 == z
  {
  }

  /** No channel differs by half its range or more. */
  predicate Near(p: Pixel, q: Pixel) {
    -128 < p.r - q.r < 128 && -128 < p.g - q.g < 128 && -128 < p.b - q.b < 128
  }

  /** The encoder takes the shortest chunk there is: one byte if some DIFF chunk gets from the one pixel to the other,
      two if some LUMA chunk does, where no channel wraps around. */
  lemma LiteralShortest(prev: Pixel, p: Pixel, b1: Octet, b2: Octet)
    requires p.a == prev.a && Near(p, prev)
    ensures 0x40 <= b1 < 0x80 && AddSmall(prev, b1) == p ==> |Literal(prev, p)| == 1
    ensures 0x80 <= b1 < 0xC0 && AddLuma(prev, b1, b2) == p ==> |Literal(prev, p)| <= 2
  {
    if 0x40 <= b1 < 0x80 && AddSmall(prev, b1) == p {
      Unwrapped(prev.r, p.r, b1 / 16 % 4 - 2);
      Unwrapped(prev.g, p.g, b1 / 4 % 4 - 2);
      Unwrapped(prev.b, p.b, b1 % 4 - 2);
    }
    if 0x80 <= b1 < 0xC0 && AddLuma(prev, b1, b2) == p {
      var dg: int := b1 % 64 - 32;
      Unwrapped(prev.r, p.r, dg + (b2 / 16 - 8));
      Unwrapped(prev.g, p.g, dg);
      Unwrapped(prev.b, p.b, dg + (b2 % 16 - 8));
    }
  }

  lemma Unwrapped(from: Octet, to: Octet, d: int)
    requires -128 <= d < 128 && -128 < to - from < 128 && (from + d) % 256 == to
    ensures d == to - from
  {
  }

  /** Bytes no encoder writes: a difference below zero, a slot nothing was put into, a run, and a pixel cut short. */
  lemma KnownReads()
    ensures var b: seq<Octet>, d := [0x40, 0x00, 0xC1, 0xFE, 1, 2], DECODER.(off := 0);
            && ReadAll(b, 6, d, 1).Some? && ReadAll(b, 6, d, 1).value.px == Pixel(254, 254, 254, 255)
            && ReadAll(b, 6, d, 2).Some? && ReadAll(b, 6, d, 2).value.px == ZERO
            && ReadAll(b, 6, d, 4).Some? && ReadAll(b, 6, d, 4).value.px == ZERO
            && ReadAll(b, 6, d, 5).None?
  {
    hide ReadPixel;
    var b: seq<Octet>, d := [0x40, 0x00, 0xC1, 0xFE, 1, 2], DECODER.(off := 0);
    var low := Pixel(254, 254, 254, 255);
    var i1 := EmptyIndex()[23 := low];
    var d1, d2 := Decoder(1, i1, low, 0), Decoder(2, i1, ZERO, 0);
    BelowZero(b, d);
    NeverPut(b, d1);
    ShortRun(b, d2);
    CutShort(b, d2.(off := 3));
    assert ReadAll(b, 6, d, 1) == Some(d1);
    assert ReadAll(b, 6, d, 2) == Some(d2);
    assert ReadAll(b, 6, d, 3) == Some(d2.(off := 3, run := 1));
    assert ReadAll(b, 6, d, 4) == Some(d2.(off := 3));
  }

  lemma BelowZero(b: seq<Octet>, d: Decoder)
    requires b == [0x40, 0x00, 0xC1, 0xFE, 1, 2] && d == Decoder(0, EmptyIndex(), FIRST, 0)
    ensures ReadPixel(b, 6, d) ==
            Some(Decoder(1, EmptyIndex()[23 := Pixel(254, 254, 254, 255)], Pixel(254, 254, 254, 255), 0))
  {
    assert Hash(Pixel(254, 254, 254, 255)) == 23;
  }

  lemma NeverPut(b: seq<Octet>, d: Decoder)
    requires b == [0x40, 0x00, 0xC1, 0xFE, 1, 2] && d.off == 1 && d.run == 0 && d.index[0] == ZERO
    ensures ReadPixel(b, 6, d) == Some(Decoder(2, d.index, ZERO, 0))
  {
    assert Hash(ZERO) == 0 && d.index[0 := ZERO] == d.index;
  }

  lemma ShortRun(b: seq<Octet>, d: Decoder)
    requires b == [0x40, 0x00, 0xC1, 0xFE, 1, 2] && d.off == 2 && d.run == 0 && d.px == ZERO && d.index[0] == ZERO
    ensures ReadPixel(b, 6, d) == Some(d.(off := 3, run := 1))
    ensures ReadPixel(b, 6, d.(off := 3, run := 1)) == Some(d.(off := 3))
  {
    assert Hash(ZERO) == 0 && d.index[0 := ZERO] == d.index;
  }

  lemma CutShort(b: seq<Octet>, d: Decoder)
    requires b == [0x40, 0x00, 0xC1, 0xFE, 1, 2] && d.off == 3 && d.run == 0
    ensures ReadPixel(b, 6, d).None?
  {
  }

  /** The decoder after n pixels. */
  function ReadAll(b: seq<Octet>, end: nat, d: Decoder, n: nat): (r: Option<Decoder>)
    requires end <= |b|
  {
    if n == 0 then Some(d)
    else
      var q := ReadAll(b, end, d, n - 1);
      if q.None? then None else ReadPixel(b, end, q.value)
  }

  // Round trip.

  lemma {:induction false} ReadMore(b: seq<Octet>, end: nat, d: Decoder, m: nat, n: nat)
    requires end <= |b| && ReadAll(b, end, d, m).Some?
    ensures ReadAll(b, end, d, m + n) == ReadAll(b, end, ReadAll(b, end, d, m).value, n)
  {
    hide ReadPixel;
    if n > 0 {
      ReadMore(b, end, d, m, n - 1);
      assert m + (n - 1) == m + n - 1;
    }
  }

  /** A run chunk gives its pixel `run` times. */
  lemma {:induction false} ReadRun(b: seq<Octet>, end: nat, d: Decoder, run: nat, k: nat)
    requires d.off < end <= |b| && d.run == 0 && 0 < run <= 62 && b[d.off] == RunByte(run) && 0 < k <= run
    ensures ReadAll(b, end, d, k) == Some(Decoder(d.off + 1, d.index[Hash(d.px) := d.px], d.px, run - k))
  {
    hide Hash;
    if k > 1 {
      ReadRun(b, end, d, run, k - 1);
      var i := d.index[Hash(d.px) := d.px];
      assert i[Hash(d.px) := d.px] == i;
    } else {
      assert ReadAll(b, end, d, 0) == Some(d);
    }
  }

  /** The bytes at `base` start with `out`. */
  predicate Holds(b: seq<Octet>, end: nat, base: nat, out: seq<Octet>) {
    base + |out| <= end <= |b| && b[base..base + |out|] == out
  }

  lemma SmallBack(prev: Pixel, p: Pixel)
    requires p.a == prev.a && Small(p.r - prev.r, p.g - prev.g, p.b - prev.b)
    ensures var l := Literal(prev, p); |l| == 1 && l[0] / 64 == 1 && AddSmall(prev, l[0]) == p
  {
    var dr, dg, db := p.r - prev.r, p.g - prev.g, p.b - prev.b;
    var l := Literal(prev, p)[0];
    assert l / 16 == 4 + (dr + 2) && l / 4 == 16 + 4 * (dr + 2) + (dg + 2) && l / 64 == 1;
    assert l / 16 % 4 == dr + 2 && l / 4 % 4 == dg + 2 && l % 4 == db + 2;
  }

  lemma LumaBack(prev: Pixel, p: Pixel)
    requires p.a == prev.a
    requires var dr, dg, db := p.r - prev.r, p.g - prev.g, p.b - prev.b; !Small(dr, dg, db) && Luma(dr, dg, db)
    ensures var l := Literal(prev, p); |l| == 2 && l[0] / 64 == 2 && AddLuma(prev, l[0], l[1]) == p
  {
    var dr, dg, db := p.r - prev.r, p.g - prev.g, p.b - prev.b;
    var l := Literal(prev, p);
    assert l[0] % 64 == dg + 32 && l[1] / 16 == dr - dg + 8 && l[1] % 16 == db - dg + 8;
  }

  lemma HoldsAt(b: seq<Octet>, end: nat, base: nat, out: seq<Octet>, i: nat)
    requires Holds(b, end, base, out) && i < |out|
    ensures base + i < end && b[base + i] == out[i]
  {
    assert b[base..base + |out|][i] == out[i];
  }

  /** A literal chunk says its pixel. */
  lemma ReadLiteral(b: seq<Octet>, end: nat, d: Decoder, p: Pixel)
    requires d.run == 0 && Holds(b, end, d.off, Literal(d.px, p))
    ensures ReadPixel(b, end, d) == Some(Decoder(d.off + |Literal(d.px, p)|, d.index[Hash(p) := p], p, 0))
  {
    hide Hash, AddSmall, AddLuma, Holds;
    var l, o := Literal(d.px, p), d.off;
    HoldsAt(b, end, o, l, 0);
    if p.a == d.px.a {
      var dr, dg, db := p.r - d.px.r, p.g - d.px.g, p.b - d.px.b;
      if Small(dr, dg, db) {
        SmallBack(d.px, p);
      } else if Luma(dr, dg, db) {
        LumaBack(d.px, p);
        HoldsAt(b, end, o, l, 1);
      } else {
        HoldsAt(b, end, o, l, 1);
        HoldsAt(b, end, o, l, 2);
        HoldsAt(b, end, o, l, 3);
      }
    } else {
      HoldsAt(b, end, o, l, 1);
      HoldsAt(b, end, o, l, 2);
      HoldsAt(b, end, o, l, 3);
      HoldsAt(b, end, o, l, 4);
    }
  }

  /** The two index tables agree wherever the encoder's slot holds a pixel of that slot. They may differ
      at the slot of the initial pixel, which only the decoder enters. */
  ghost predicate Agree(enc: Index, dec: Index) {
    forall h :: 0 <= h < 64 && Hash(enc[h]) == h ==> dec[h] == enc[h]
  }

  /** The previous pixel is in its slot, or its slot was never written. */
  ghost predicate PrevKnown(e: Encoder) {
    var h := Hash(e.prev);
    Hash(e.index[h]) == h ==> e.index[h] == e.prev
  }

  lemma AgreeSeen(enc: Index, dec: Index, p: Pixel)
    requires Agree(enc, dec)
    ensures Agree(enc[Hash(p) := p], dec[Hash(p) := p])
    ensures (Hash(enc[Hash(p)]) == Hash(p) ==> enc[Hash(p)] == p) ==> Agree(enc, dec[Hash(p) := p])
  {
    hide Hash;
  }

  /** The i-th pixel decoded is p. */
  predicate GivesAt(b: seq<Octet>, end: nat, d0: Decoder, i: nat, p: Pixel)
    requires end <= |b|
  {
    var r := ReadAll(b, end, d0, i + 1);
    r.Some? && r.value.px == p
  }

  /** The first pixels decoded are these. */
  ghost predicate Gives(b: seq<Octet>, end: nat, d0: Decoder, pixels: seq<Pixel>)
    requires end <= |b|
  {
    forall i :: 0 <= i < |pixels| ==> GivesAt(b, end, d0, i, pixels[i])
  }

  /** The decoder has read all the encoder has written, and is behind by the pending run. */
  ghost predicate Follows(b: seq<Octet>, end: nat, base: nat, d0: Decoder, e: Encoder, pixels: seq<Pixel>, n: nat)
    requires end <= |b|
  {
    && e.run <= n <= |pixels| && e.run <= 62 && PrevKnown(e)
    && (forall i :: n - e.run <= i < n ==> pixels[i] == e.prev)
    && Gives(b, end, d0, pixels[..n - e.run])
    && var r := ReadAll(b, end, d0, n - e.run);
       r.Some? && r.value.off == base + |e.out| && r.value.run == 0 && r.value.px == e.prev &&
       Agree(e.index, r.value.index)
  }

  lemma HoldsPrefix(b: seq<Octet>, end: nat, base: nat, out: seq<Octet>, more: seq<Octet>)
    requires Holds(b, end, base, out + more)
    ensures Holds(b, end, base, out) && Holds(b, end, base + |out|, more)
  {
    assert b[base..base + |out|] == b[base..base + |out + more|][..|out|];
    assert b[base + |out|..base + |out| + |more|] == b[base..base + |out + more|][|out|..];
  }

  /** Writing out the pending run lets the decoder catch up. */
  lemma FlushFollows(b: seq<Octet>, end: nat, base: nat, d0: Decoder, e: Encoder, pixels: seq<Pixel>, n: nat)
    requires end <= |b| && Follows(b, end, base, d0, e, pixels, n) && Holds(b, end, base, Flush(e).out)
    ensures Follows(b, end, base, d0, Flush(e), pixels, n)
  {
    hide ReadPixel, ReadAll, Hash, Agree, Holds, Gives;
    if e.run > 0 {
      var m := n - e.run;
      var d := ReadAll(b, end, d0, m).value;
      HoldsPrefix(b, end, base, e.out, [RunByte(e.run)]);
      HoldsAt(b, end, d.off, [RunByte(e.run)], 0);
      assert pixels[..n][..m] == pixels[..m];
      RunGives(b, end, d0, m, e.run, pixels[..n]);
      ReadMore(b, end, d0, m, e.run);
      ReadRun(b, end, d, e.run, e.run);
      AgreeSeen(e.index, d.index, e.prev);
    }
  }

  lemma RunGives(b: seq<Octet>, end: nat, d0: Decoder, m: nat, run: nat, pixels: seq<Pixel>)
    requires end <= |b| && ReadAll(b, end, d0, m).Some? && |pixels| == m + run && Gives(b, end, d0, pixels[..m])
    requires var d := ReadAll(b, end, d0, m).value;
             d.off < end && d.run == 0 && 0 < run <= 62 && b[d.off] == RunByte(run) &&
             forall i :: m <= i < m + run ==> pixels[i] == d.px
    ensures Gives(b, end, d0, pixels)
  {
    hide ReadAll, Hash;
    var d := ReadAll(b, end, d0, m).value;
    forall i | 0 <= i < |pixels|
      ensures GivesAt(b, end, d0, i, pixels[i])
    {
      if i < m {
        assert pixels[..m][i] == pixels[i];
      } else {
        ReadMore(b, end, d0, m, i + 1 - m);
        ReadRun(b, end, d, run, i + 1 - m);
        assert m + (i + 1 - m) == i + 1;
      }
    }
  }

  /** A pixel that differs from the one before it. */
  lemma ChunkFollows(b: seq<Octet>, end: nat, base: nat, d0: Decoder, e: Encoder, pixels: seq<Pixel>, n: nat)
    requires end <= |b| && n < |pixels| && e.run == 0 && Follows(b, end, base, d0, e, pixels, n)
    requires pixels[n] != e.prev && Holds(b, end, base, EncodePixel(e, pixels[n]).out)
    ensures Follows(b, end, base, d0, EncodePixel(e, pixels[n]), pixels, n + 1)
  {
    hide Agree, Holds, Literal, AddSmall, AddLuma, Gives;
    var p, h := pixels[n], Hash(pixels[n]);
    var d := ReadAll(b, end, d0, n).value;
    AgreeSeen(e.index, d.index, p);
    if e.index[h] == p {
      HoldsPrefix(b, end, base, e.out, [h]);
      HoldsAt(b, end, d.off, [h], 0);
      AgreeAt(e.index, d.index, h);
    } else {
      HoldsPrefix(b, end, base, e.out, Literal(e.prev, p));
      ReadLiteral(b, end, d, p);
    }
    assert ReadAll(b, end, d0, n + 1) == ReadPixel(b, end, d);
    OneMore(b, end, d0, pixels, n);
  }

  lemma OneMore(b: seq<Octet>, end: nat, d0: Decoder, pixels: seq<Pixel>, n: nat)
    requires end <= |b| && n < |pixels| && Gives(b, end, d0, pixels[..n]) && GivesAt(b, end, d0, n, pixels[n])
    ensures Gives(b, end, d0, pixels[..n + 1])
  {
    hide GivesAt;
    var q := pixels[..n + 1];
    forall i | 0 <= i < |q|
      ensures GivesAt(b, end, d0, i, q[i])
    {
      assert i < n ==> pixels[..n][i] == pixels[i];
    }
  }

  lemma AgreeAt(enc: Index, dec: Index, h: nat)
    requires Agree(enc, dec) && h < 64 && Hash(enc[h]) == h
    ensures dec[h] == enc[h]
  {
  }

  lemma PixelFollows(b: seq<Octet>, end: nat, base: nat, d0: Decoder, e: Encoder, pixels: seq<Pixel>, n: nat)
    requires end <= |b| && n < |pixels| && e.run < 62 && Follows(b, end, base, d0, e, pixels, n)
    requires Holds(b, end, base, EncodePixel(e, pixels[n]).out)
    ensures Follows(b, end, base, d0, EncodePixel(e, pixels[n]), pixels, n + 1)
  {
    hide ReadPixel, ReadAll, Hash, Agree, Holds, Literal, Gives;
    var p := pixels[n];
    if p == e.prev {
      var f := e.(run := e.run + 1);
      assert Follows(b, end, base, d0, f, pixels, n + 1);
      if f.run == 62 {
        FlushFollows(b, end, base, d0, f, pixels, n + 1);
      }
    } else {
      var f := Flush(e);
      var g := EncodePixel(e, p);
      assert g.out == f.out + g.out[|f.out|..];
      HoldsPrefix(b, end, base, f.out, g.out[|f.out|..]);
      FlushFollows(b, end, base, d0, e, pixels, n);
      ChunkFollows(b, end, base, d0, f, pixels, n);
    }
  }

  lemma {:induction false} AllFollows(b: seq<Octet>, end: nat, base: nat, pixels: seq<Pixel>, n: nat)
    requires end <= |b| && n <= |pixels| && Holds(b, end, base, EncodeAll(pixels, n).out)
    ensures Follows(b, end, base, Decoder(base, EmptyIndex(), FIRST, 0), EncodeAll(pixels, n), pixels, n)
  {
    hide ReadPixel, Holds, EncodePixel;
    if n > 0 {
      var e, f := EncodeAll(pixels, n - 1), EncodeAll(pixels, n);
      assert f.out == e.out + f.out[|e.out|..];
      HoldsPrefix(b, end, base, e.out, f.out[|e.out|..]);
      AllFollows(b, end, base, pixels, n - 1);
      PixelFollows(b, end, base, Decoder(base, EmptyIndex(), FIRST, 0), e, pixels, n - 1);
    }
  }

  /** The decoder reads back every pixel, and stops exactly at the end of the chunks. */
  lemma RoundTrip(b: seq<Octet>, base: nat, pixels: seq<Pixel>)
    requires var end := base + |Chunks(pixels)|; Holds(b, end, base, Chunks(pixels))
    ensures var end, d0 := base + |Chunks(pixels)|, Decoder(base, EmptyIndex(), FIRST, 0);
            && Gives(b, end, d0, pixels)
            && ReadAll(b, end, d0, |pixels|).Some? && ReadAll(b, end, d0, |pixels|).value.off == end
  {
    hide ReadPixel, ReadAll, Holds, EncodeAll, Agree, Gives;
    assert pixels[..|pixels|] == pixels;
    var e, end, n := EncodeAll(pixels, |pixels|), base + |Chunks(pixels)|, |pixels|;
    assert Chunks(pixels) == e.out + Chunks(pixels)[|e.out|..];
    HoldsPrefix(b, end, base, e.out, Chunks(pixels)[|e.out|..]);
    AllFollows(b, end, base, pixels, n);
    FlushFollows(b, end, base, Decoder(base, EmptyIndex(), FIRST, 0), e, pixels, n);
  }

  /** The whole file. */
  function File(width: nat, height: nat, pixels: seq<Pixel>): seq<Octet>
    requires width < 0x1_0000_0000 && height < 0x1_0000_0000
  {
    Header(width, height) + Chunks(pixels) + END_MARKER
  }

  /** read_be32. */
  function ReadBe32(b: seq<Octet>, o: nat): nat
    requires o + 4 <= |b|
  {
    (b[o] as int) * 0x100_0000 + (b[o + 1] as int) * 0x1_0000 + (b[o + 2] as int) * 256 + b[o + 3]
  }

  /** The checks of the decoder before the first pixel. */
  predicate HeaderOk(b: seq<Octet>, width: nat, height: nat) {
    && |b| >= HEADER_SIZE + 8
    && b[0] == 'q' as int && b[1] == 'o' as int && b[2] == 'i' as int && b[3] == 'f' as int
    && b[|b| - 8..] == END_MARKER
    && ReadBe32(b, 4) == width && ReadBe32(b, 8) == height && (b[12] == 3 || b[12] == 4)
  }

  const DECODER := Decoder(HEADER_SIZE, EmptyIndex(), FIRST, 0)

  lemma Be32Back(n: nat, b: seq<Octet>, o: nat)
    requires n < 0x1_0000_0000 && o + 4 <= |b| && b[o..o + 4] == Be32(n)
    ensures ReadBe32(b, o) == n
  {
    assert b[o] == b[o..o + 4][0] && b[o + 1] == b[o..o + 4][1] && b[o + 2] == b[o..o + 4][2] &&
           b[o + 3] == b[o..o + 4][3];
    assert n / 256 == n / 0x1_0000 * 256 + n / 256 % 256;
    assert n / 0x1_0000 == n / 0x100_0000 * 256 + n / 0x1_0000 % 256;
  }

  /** Every image the encoder writes is read back pixel for pixel, and all its chunks are used. */
  lemma FileRoundTrip(width: nat, height: nat, pixels: seq<Pixel>)
    requires width < 0x1_0000_0000 && height < 0x1_0000_0000
    ensures var b := File(width, height, pixels);
            && HeaderOk(b, width, height)
            && Gives(b, |b| - 8, DECODER, pixels)
            && ReadAll(b, |b| - 8, DECODER, |pixels|).Some?
            && ReadAll(b, |b| - 8, DECODER, |pixels|).value.off == |b| - 8
  {
    hide Chunks, Gives, ReadAll, Be32, ReadBe32;
    var b := File(width, height, pixels);
    var h := Header(width, height);
    assert b[4..8] == h[4..8] == Be32(width) && b[8..12] == h[8..12] == Be32(height);
    Be32Back(width, b, 4);
    Be32Back(height, b, 8);
    assert b[|b| - 8..] == END_MARKER;
    assert b[HEADER_SIZE..|b| - 8] == Chunks(pixels);
    RoundTrip(b, HEADER_SIZE, pixels);
  }

  /** The decoder shows exactly the encoded pixels. */
  lemma ShowsRoundTrip(width: nat, height: nat, pixels: seq<Pixel>, straight: bool, i: nat, v: nat)
    requires width < 0x1_0000_0000 && height < 0x1_0000_0000 && i < |pixels|
    ensures var b := File(width, height, pixels);
            ShowsAt(b, |b| - 8, i, v, straight) <==> v == Pack(pixels[i], straight)
  {
    hide File, ReadAll, Pack;
    FileRoundTrip(width, height, pixels);
    var b := File(width, height, pixels);
    assert GivesAt(b, |b| - 8, DECODER, i, pixels[i]);
  }

  /** qoi_encode_rgba; the header cannot be packed when a dimension needs more than 32 bits. */
  method Encode(width: nat, height: nat, pixels: seq<Pixel>) returns (r: Option<seq<Octet>>)
    requires |pixels| == width * height
    ensures r.Some? <==> width < 0x1_0000_0000 && height < 0x1_0000_0000
    ensures r.Some? ==> r.value == File(width, height, pixels)
  {
    hide Hash;
    if width >= 0x1_0000_0000 || height >= 0x1_0000_0000 {
      return None;
    }
    var out: seq<Octet> := [];
    var index: Index := EmptyIndex();
    var prev, run := FIRST, 0;
    for i := 0 to |pixels|
      invariant 0 <= run < 62 && Encoder(out, index, prev, run) == EncodeAll(pixels, i)
    {
      var px := pixels[i];
      if px == prev {
        run := run + 1;
        if run == 62 {
          out := out + [0xC0 + (run - 1)];
          run := 0;
        }
        continue;
      }
      if run > 0 {
        out := out + [0xC0 + (run - 1)];
        run := 0;
      }
      var pos := Hash(px);
      if index[pos] == px {
        out := out + [pos];
      } else {
        index := index[pos := px];
        var chunk := EncodeLiteral(prev, px);
        out := out + chunk;
      }
      prev := px;
    }
    if run > 0 {
      out := out + [0xC0 + (run - 1)];
    }
    return Some(Header(width, height) + out + END_MARKER);
  }

  method EncodeLiteral(prev: Pixel, px: Pixel) returns (out: seq<Octet>)
    ensures out == Literal(prev, px)
  {
    if px.a != prev.a {
      return [0xFF, px.r, px.g, px.b, px.a];
    }
    var dr: int, dg: int, db: int := px.r - prev.r, px.g - prev.g, px.b - prev.b;
    if Small(dr, dg, db) {
      return [0x40 + (dr + 2) * 16 + (dg + 2) * 4 + (db + 2)];
    }
    if Luma(dr, dg, db) {
      return [0x80 + (dg + 32), (dr - dg + 8) * 16 + (db - dg + 8)];
    }
    return [0xFE, px.r, px.g, px.b];
  }

  /** pack_surface_pixel: transparent is 0, straight alpha is multiplied in with rounding. */
  function Pack(p: Pixel, straight: bool): nat {
    if p.a == 0 then 0
    else
      var q := if straight && p.a < 255
               then Pixel(Scale(p.r, p.a), Scale(p.g, p.a), Scale(p.b, p.a), p.a) else p;
      Word(q)
  }

  function Word(p: Pixel): nat {
    (p.a as int) * 0x100_0000 + (p.r as int) * 0x1_0000 + (p.g as int) * 256 + p.b
  }

  function Scale(c: int, a: int): (s: Octet)
    requires 0 <= c < 256 && 0 <= a < 256
  {
    ScaleBound(c, a);
    (c * a + 127) / 255
  }

  lemma ScaleBound(c: int, a: int)
    requires 0 <= c < 256 && 0 <= a < 256
    ensures 0 <= c * a <= 255 * 255
  {
    assert c * a <= c * 255;
  }

  /** The i-th pixel decoded, packed, is v. */
  predicate ShowsAt(b: seq<Octet>, end: nat, i: nat, v: nat, straight: bool)
    requires end <= |b|
  {
    var r := ReadAll(b, end, DECODER, i + 1);
    r.Some? && v == Pack(r.value.px, straight)
  }

  /** The surface word by its bytes: alpha in the top byte, then red, green and blue. */
  function Unpack(v: nat): Pixel {
    Pixel(v / 0x1_0000 % 256, v / 256 % 256, v % 256, v / 0x100_0000 % 256)
  }

  lemma WordBack(p: Pixel)
    ensures Unpack(Word(p)) == p && (p.a > 0 ==> Word(p) > 0)
  {
    var a: int, r: int, g: int, b: int := p.a, p.r, p.g, p.b;
    var v := a * 0x100_0000 + r * 0x1_0000 + g * 256 + b;
    assert v / 256 == a * 0x1_0000 + r * 256 + g;
    assert v / 0x1_0000 == a * 256 + r;
    assert v / 0x100_0000 == a;
  }

  /** A channel of straight alpha comes out as the nearest whole number to its share of the alpha, and never above the
      alpha itself. */
  predicate Weighted(c: int, a: int, s: int) {
    -127 <= 255 * s - c * a <= 127 && 0 <= s <= a
  }

  lemma ScaleNearest(c: int, a: int)
    requires 0 <= c < 256 && 0 <= a < 256
    ensures Weighted(c, a, Scale(c, a))
  {
    ScaleBound(c, a);
    var s := Scale(c, a);
    assert 255 * s <= c * a + 127 < 255 * s + 255;
    assert c * a <= 255 * a;
  }

  lemma FullWeight(c: int)
    requires 0 <= c < 256
    ensures Weighted(c, 255, c)
  {
  }

  /** What is in the surface word: nothing for a transparent pixel; the pixel itself, if its alpha is not multiplied in;
      else its alpha and the weighted channels. */
  lemma PackBytes(p: Pixel, straight: bool)
    ensures Pack(p, straight) == 0 <==> p.a == 0
    ensures p.a > 0 && (!straight || p.a == 255) ==> Unpack(Pack(p, straight)) == p
    ensures p.a > 0 ==>
              var q := Unpack(Pack(p, true));
              q.a == p.a && Weighted(p.r, p.a, q.r) && Weighted(p.g, p.a, q.g) && Weighted(p.b, p.a, q.b)
  {
    hide Scale, Word, Unpack, Weighted;
    var q := Pixel(Scale(p.r, p.a), Scale(p.g, p.a), Scale(p.b, p.a), p.a);
    WordBack(p);
    WordBack(q);
    ScaleNearest(p.r, p.a);
    ScaleNearest(p.g, p.a);
    ScaleNearest(p.b, p.a);
    FullWeight(p.r);
    FullWeight(p.g);
    FullWeight(p.b);
  }

  function Area(width: nat, height: nat): nat {
    width * height
  }

  lemma HeaderSize(b: seq<Octet>, width: nat, height: nat)
    ensures HeaderOk(b, width, height) ==> |b| >= HEADER_SIZE + 8
  {
  }

  /** qoi_decode_to_surface; surfaceOk says whether the surface can be allocated. */
  method Decode(b: seq<Octet>, width: nat, height: nat, straight: bool, surfaceOk: bool)
    returns (ok: bool, surface: seq<nat>)
    requires |b| < 0x1_0000_0000
    ensures ok <==> HeaderOk(b, width, height) && surfaceOk && ReadAll(b, |b| - 8, DECODER, Area(width, height)).Some?
    ensures ok ==> |surface| == Area(width, height)
    ensures ok ==> forall i :: 0 <= i < |surface| ==> ShowsAt(b, |b| - 8, i, surface[i], straight)
  {
    hide ReadPixel, Pack, HeaderOk;
    HeaderSize(b, width, height);
    if !HeaderOk(b, width, height) || !surfaceOk {
      return false, [];
    }
    var d, end, n := DECODER, |b| - 8, Area(width, height);
    surface := [];
    for i := 0 to n
      invariant |surface| == i && ReadAll(b, end, DECODER, i) == Some(d)
      invariant forall k :: 0 <= k < |surface| ==> ShowsAt(b, end, k, surface[k], straight)
    {
      var r := ReadPixel(b, end, d);
      if r.None? {
        ReadFails(b, end, i + 1, n);
        return false, [];
      }
      d := r.value;
      assert ShowsAt(b, end, i, Pack(d.px, straight), straight);
      surface := surface + [Pack(d.px, straight)];
    }
    return true, surface;
  }

  lemma {:induction false} ReadFails(b: seq<Octet>, end: nat, m: nat, n: nat)
    requires end <= |b| && m <= n && ReadAll(b, end, DECODER, m).None?
    ensures ReadAll(b, end, DECODER, n).None?
    decreases n
  {
    if m < n {
      ReadFails(b, end, m, n - 1);
    }
  }
}
