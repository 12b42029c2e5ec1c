/** The allocation bitmap: a byte buffer searched a 64-bit word at a time. Every search is proved
    equal to the naive search over the bits it represents. */
module Bitmap {
  import opened Bits
  import opened Words

  const SIZE_MAX: nat := 0xFFFF_FFFF_FFFF_FFFF

  /** The bits [lo, hi) have value v, all others are as before. */
  ghost predicate RangeSet(prior: seq<bool>, updated: seq<bool>, lo: nat, hi: nat, v: bool) {
    |updated| == |prior| &&
    forall k :: 0 <= k < |updated| ==> updated[k] == if lo <= k < hi then v else prior[k]
  }

  /** The `count` bits from s on are clear. */
  predicate Free(bits: seq<bool>, s: nat, count: nat) {
    Clear(bits, s, s + count)
  }

  /** [s, s + count) is the first run of `count` clear bits at or after `lo`. */
  ghost predicate FirstRun(bits: seq<bool>, lo: nat, count: nat, s: nat) {
    lo <= s && Free(bits, s, count) && forall k :: lo <= k < s ==> !Free(bits, k, count)
  }

  ghost predicate LastRun(bits: seq<bool>, count: nat, s: nat) {
    Free(bits, s, count) && forall k :: s < k ==> !Free(bits, k, count)
  }

  /** After looking at [lo, i): no run of `count` clear bits was met, and the last `run` bits are clear,
      preceded by a set bit or by nothing. */
  ghost predicate Scanned(bits: seq<bool>, lo: nat, i: nat, count: nat, run: nat) {
    && lo <= i - run <= i <= |bits| && run < count
    && Clear(bits, i - run, i)
    && (lo < i - run ==> bits[i - run - 1])
    && (forall k :: lo <= k && k + count <= i ==> !Free(bits, k, count))
  }

  lemma ScanClear(bits: seq<bool>, lo: nat, i: nat, count: nat, run: nat, n: nat)
    requires Scanned(bits, lo, i, count, run) && i + n <= |bits| && Clear(bits, i, i + n)
    ensures run + n < count ==> Scanned(bits, lo, i + n, count, run + n)
    ensures run + n >= count ==> FirstRun(bits, lo, count, i - run)
  {
    forall k | lo <= k && k + count <= i + n && (k < i - run || run + n < count)
      ensures !Free(bits, k, count)
    {
      if k + count > i && k < i - run {
        assert bits[i - run - 1];
      }
    }
  }

  lemma ScanSet(bits: seq<bool>, lo: nat, i: nat, count: nat, run: nat, n: nat)
    requires Scanned(bits, lo, i, count, run) && 0 < n && i + n <= |bits| && count > 0
    requires forall k :: i <= k < i + n ==> bits[k]
    ensures Scanned(bits, lo, i + n, count, 0)
  {
    forall k | lo <= k && k + count <= i + n
      ensures !Free(bits, k, count)
    {
      if k + count > i {
        if k >= i {
          assert bits[k];
        } else {
          assert bits[i];
        }
      }
    }
  }

  /** Looking downwards: no run of `count` clear bits starts in [i, |bits|), and exactly the first `run`
      bits from i on are clear. */
  ghost predicate ScannedDown(bits: seq<bool>, i: nat, count: nat, run: nat) {
    && i + run <= |bits| && run < count
    && Clear(bits, i, i + run)
    && (i + run < |bits| ==> bits[i + run])
    && (forall k :: i <= k ==> !Free(bits, k, count))
  }

  lemma DownClear(bits: seq<bool>, i: nat, count: nat, run: nat, n: nat)
    requires ScannedDown(bits, i, count, run) && n <= i && Clear(bits, i - n, i)
    ensures run + n < count ==> ScannedDown(bits, i - n, count, run + n)
    ensures run + n >= count ==> LastRun(bits, count, i - n + (run + n - count))
  {
    forall k: nat | i - n <= k && (run + n < count || i - n + (run + n - count) < k)
      ensures !Free(bits, k, count)
    {
      if k < i {
        assert k + count > i + run;
        if i + run < |bits| {
          assert bits[i + run];
        }
      }
    }
  }

  lemma DownSet(bits: seq<bool>, i: nat, count: nat, run: nat, n: nat)
    requires ScannedDown(bits, i, count, run) && 0 < n <= i && forall k :: i - n <= k < i ==> bits[k]
    ensures ScannedDown(bits, i - n, count, 0)
  {
    forall k: nat | i - n <= k
      ensures !Free(bits, k, count)
    {
      if k < i {
        assert bits[k];
      }
    }
  }

  /** The bytes hold these bits, least significant bit first. */
  ghost predicate Represents(buf: seq<bv8>, bits: seq<bool>) {
    |bits| <= 8 * |buf| && forall i :: 0 <= i < |bits| ==> bits[i] == Bit(buf[i / 8], i % 8)
  }

  /** buf[i >> 3] |= or &= ~ of 1 << (i & 7). */
  function PutByte(b: bv8, i: nat, v: bool): bv8 {
    if v then b | Mask(i % 8) else b & !Mask(i % 8)
  }

  lemma PutByteBit(b: bv8, i: nat, v: bool, k: nat)
    requires k / 8 == i / 8
    ensures Bit(PutByte(b, i, v), k % 8) == if k == i then v else Bit(b, k % 8)
  {
    hide Bit, Mask;
    assert k == i <==> k % 8 == i % 8 by {
      assert k == 8 * (k / 8) + k % 8 && i == 8 * (i / 8) + i % 8;
    }
    SetBit(b, i % 8, k % 8);
    ClearBit(b, i % 8, k % 8);
  }

  lemma PutRepresents(buf: seq<bv8>, bits: seq<bool>, i: nat, v: bool)
    requires Represents(buf, bits) && i < |bits|
    ensures Represents(buf[i / 8 := PutByte(buf[i / 8], i, v)], bits[i := v])
  {
    hide Bit, PutByte;
    var buf', bits' := buf[i / 8 := PutByte(buf[i / 8], i, v)], bits[i := v];
    forall k | 0 <= k < |bits|
      ensures bits'[k] == Bit(buf'[k / 8], k % 8)
    {
      if k / 8 == i / 8 {
        PutByteBit(buf[i / 8], i, v, k);
      }
    }
  }

  lemma FillRepresents(buf: seq<bv8>, buf': seq<bv8>, bits: seq<bool>, bits': seq<bool>, first: nat, n: nat, v: bool)
    requires Represents(buf, bits) && |buf'| == |buf| && RangeSet(bits, bits', 8 * first, 8 * (first + n), v)
    requires forall k :: 0 <= k < |buf| ==>
               buf'[k] == if first <= k < first + n then (if v then 0xFF else 0x00) else buf[k]
    ensures Represents(buf', bits')
  {
    hide Bit;
    forall k | 0 <= k < |bits|
      ensures bits'[k] == Bit(buf'[k / 8], k % 8)
    {
      ConstantBits(k % 8);
      assert 8 * first <= k < 8 * (first + n) <==> first <= k / 8 < first + n;
    }
  }

  lemma RangeJoin(a: seq<bool>, b: seq<bool>, c: seq<bool>, lo: nat, mid: nat, hi: nat, v: bool)
    requires RangeSet(a, b, lo, mid, v) && RangeSet(b, c, mid, hi, v) && lo <= mid <= hi
    ensures RangeSet(a, c, lo, hi, v)
  {
  }

  class Map {
    var buffer: array<bv8>
    var size: nat
    var hint: nat
    ghost var bits: seq<bool>

    ghost predicate Valid()
      reads this, buffer
    {
      size <= SIZE_MAX && |bits| == size && Represents(buffer[..], bits)
    }

    /** init: all bits clear. */
    constructor (buffer: array<bv8>, size: nat)
      requires size <= 8 * buffer.Length && size <= SIZE_MAX
      modifies buffer
      ensures Valid() && this.buffer == buffer && this.size == size && hint == 0
      ensures forall i :: 0 <= i < size ==> !bits[i]
    {
      this.buffer, this.size, this.hint := buffer, size, 0;
      this.bits := seq(size, _ => false);
      new;
      for i := 0 to buffer.Length
        invariant this.buffer == buffer && this.size == size && hint == 0 && bits == seq(size, _ => false)
        invariant forall k :: 0 <= k < i ==> buffer[k] == 0
      {
        buffer[i] := 0;
      }
      forall i | 0 <= i < size
        ensures !Bit(buffer[..][i / 8], i % 8)
      {
        ConstantBits(i % 8);
      }
    }

    /** operator[]: out of range reads as clear. */
    method Get(i: nat) returns (b: bool)
      requires Valid()
      ensures b == (i < size && bits[i])
    {
      hide Bit;
      b := i < size && Bit(buffer[i / 8], i % 8);
    }

    method Set(i: nat, v: bool)
      requires Valid()
      modifies buffer, this`bits
      ensures Valid()
      ensures bits == if i < size then old(bits)[i := v] else old(bits)
    {
      if i >= size {
        return;
      }
      PutBit(i, v);
    }

    /** buffer[i >> 3] |= or &= ~ of 1 << (i & 7). */
    method PutBit(i: nat, v: bool)
      requires Valid() && i < size
      modifies buffer, this`bits
      ensures Valid() && bits == old(bits)[i := v]
    {
      hide Bit, PutByte;
      PutRepresents(buffer[..], bits, i, v);
      buffer[i / 8] := PutByte(buffer[i / 8], i, v);
      bits := bits[i := v];
      assert buffer[..] == old(buffer[..])[i / 8 := buffer[i / 8]];
    }

    /** set_range: single bits up to a byte boundary, whole bytes, then single bits. */
    method SetRange(start: nat, count: nat, v: bool)
      requires Valid() && start <= SIZE_MAX && count <= SIZE_MAX
      modifies buffer, this`bits
      ensures Valid()
      ensures RangeSet(old(bits), bits, start, start + count, v)
    {
      hide Represents;
      if start >= size || count == 0 {
        return;
      }
      var end := (start + count) % (SIZE_MAX + 1);
      if end < start || end > size {
        end := size;
      }
      var i := start;
      while i < end && i % 8 != 0
        invariant Valid() && start <= i <= end <= size && RangeSet(old(bits), bits, start, i, v)
        decreases end - i
      {
        PutBit(i, v);
        i := i + 1;
      }
      var bytes := (end - i) / 8;
      if bytes > 0 {
        ghost var mid := bits;
        FillBytes(i / 8, bytes, v);
        RangeJoin(old(bits), mid, bits, start, i, i + 8 * bytes, v);
        i := i + 8 * bytes;
      }
      while i < end
        invariant Valid() && start <= i <= end <= size && RangeSet(old(bits), bits, start, i, v)
        decreases end - i
      {
        PutBit(i, v);
        i := i + 1;
      }
    }

    /** memset of whole bytes. */
    method FillBytes(first: nat, n: nat, v: bool)
      requires Valid() && 8 * (first + n) <= size
      modifies buffer, this`bits
      ensures Valid() && RangeSet(old(bits), bits, 8 * first, 8 * (first + n), v)
    {
      hide Bit;
      ghost var before := buffer[..];
      for j := 0 to n
        invariant bits == old(bits)
        invariant forall k :: 0 <= k < buffer.Length ==>
                    buffer[k] == if first <= k < first + j then (if v then 0xFF else 0x00) else before[k]
      {
        buffer[first + j] := if v then 0xFF else 0x00;
      }
      ghost var was := bits;
      bits := seq(|was|, k requires 0 <= k < |was| => if 8 * first <= k < 8 * (first + n) then v else was[k]);
      FillRepresents(before, buffer[..], was, bits, first, n, v);
    }

    /** The word of bits i to i + 63. */
    method Word(i: nat) returns (w: bv64)
      requires Valid() && i % 64 == 0 && i + 64 <= size
      ensures forall k :: i <= k < i + 64 ==> bits[k] == WordBit(w, k - i)
      ensures w == 0 ==> Clear(bits, i, i + 64)
      ensures w == !0 ==> forall k :: i <= k < i + 64 ==> bits[k]
      ensures w != !0 ==> exists k :: 0 <= k < 64 && !WordBit(w, k)
    {
      hide Bit, Load, WordBit;
      var b := buffer[i / 8..i / 8 + 8];
      w := Load(b);
      forall k | i <= k < i + 64
        ensures bits[k] == WordBit(w, k - i)
      {
        LoadBit(b, k - i);
        assert k / 8 == i / 8 + (k - i) / 8 && k % 8 == (k - i) % 8;
      }
      WordIs(w);
      if w != !0 {
        SomeClear(b);
      }
    }

    /** One word of the search. */
    method WordZero(i: nat, ghost end: nat) returns (r: int)
      requires Valid() && i % 64 == 0 && i + 64 <= end <= size
      ensures r >= 0 ==> r == FirstClear(bits, i, end) < end
      ensures r < 0 ==> FirstClear(bits, i, end) == FirstClear(bits, i + 64, end)
    {
      hide Represents, WordBit;
      var w := Word(i);
      if w == !0 {
        FirstClearSkip(bits, i, i + 64, end);
        return -1;
      }
      var z := FirstZero(w, 0);
      FirstClearIs(bits, i, end, i + z);
      return i + z;
    }

    /** One bit of the search. */
    method BitZero(i: nat, ghost end: nat) returns (b: bool)
      requires Valid() && i < end <= size
      ensures if b then i == FirstClear(bits, i, end) else FirstClear(bits, i, end) == FirstClear(bits, i + 1, end)
    {
      hide Represents;
      var v := Get(i);
      b := !v;
    }

    /** The lambda of find_first_free: the first clear bit of [begin, end), or -1. */
    method ScanRange(begin: nat, end: nat) returns (r: int)
      requires Valid() && begin <= end <= size
      ensures var i := FirstClear(bits, begin, end); r == if i < end then i else -1
    {
      hide Represents, FirstClear;
      var i := begin;
      while i < end && i % 64 != 0
        invariant begin <= i <= end && FirstClear(bits, begin, end) == FirstClear(bits, i, end)
        decreases end - i
      {
        var b := BitZero(i, end);
        if b {
          return i;
        }
        i := i + 1;
      }
      var wordEnd := end / 64 * 64;
      while i < wordEnd
        invariant begin <= i <= end && (i < wordEnd ==> i % 64 == 0)
        invariant FirstClear(bits, begin, end) == FirstClear(bits, i, end)
        decreases end - i
      {
        var r := WordZero(i, end);
        if r >= 0 {
          return r;
        }
        i := i + 64;
      }
      while i < end
        invariant begin <= i <= end && FirstClear(bits, begin, end) == FirstClear(bits, i, end)
        decreases end - i
      {
        var b := BitZero(i, end);
        if b {
          return i;
        }
        i := i + 1;
      }
      return -1;
    }

    /** find_first_free: from the given index, or from the hint if that is 0, then from the start. */
    method FindFirstFree(start: nat) returns (r: int)
      requires Valid()
      modifies this`hint
      ensures var from := if start == 0 then old(hint) else start;
              var i := FirstClearFrom(bits, from);
              && r == (if i < size then i else -1)
              && hint == if i == size then old(hint) else if i + 1 < size then i + 1 else 0
    {
      hide Represents;
      if size == 0 {
        return -1;
      }
      var from := if start == 0 then hint else start;
      if from >= size {
        from := 0;
      }
      r := ScanRange(from, size);
      if r == -1 && from != 0 {
        r := ScanRange(0, from);
      }
      if r != -1 {
        hint := if r + 1 < size then r + 1 else 0;
      }
    }

    /** One word of the run counting: the start of a run that is long enough, or -1. */
    method WordRun(ghost lo: nat, i: nat, count: nat, run: nat) returns (run': nat, r: int)
      requires Valid() && i % 64 == 0 && i + 64 <= size && count > 0 && Scanned(bits, lo, i, count, run)
      ensures r < 0 ==> Scanned(bits, lo, i + 64, count, run')
      ensures r >= 0 ==> FirstRun(bits, lo, count, r)
    {
      hide Represents, WordBit;
      var w := Word(i);
      run' := run;
      if w == 0 {
        ScanClear(bits, lo, i, count, run, 64);
        return run + 64, if run + 64 >= count then i - run else -1;
      }
      if w == !0 {
        ScanSet(bits, lo, i, count, run, 64);
        return 0, -1;
      }
      for bit := 0 to 64
        invariant Scanned(bits, lo, i + bit, count, run')
      {
        var found;
        run', found := Advance(lo, i + bit, count, run');
        if found {
          return run', i + bit + 1 - run';
        }
      }
      r := -1;
    }

    /** find_first_free_sequence. */
    method FindFirstFreeSequence(count: nat, start: nat) returns (r: int)
      requires Valid()
      ensures var lo := if start >= size then 0 else start;
              && (count == 0 || count > size ==> r == -1)
              && (r >= 0 ==> count > 0 && FirstRun(bits, lo, count, r))
              && (r < 0 ==> r == -1 && (count > 0 ==> forall k :: lo <= k ==> !Free(bits, k, count)))
    {
      hide Represents, FirstRun;
      if count == 0 || count > size {
        return -1;
      }
      var lo := if start >= size then 0 else start;
      var wordStart := (lo + 63) / 64 * 64;
      if wordStart > size {
        wordStart := size;
      }
      var run;
      run, r := BitRun(lo, lo, wordStart, count, 0);
      if r >= 0 {
        return;
      }
      var i, wordEnd := if lo < wordStart then wordStart else lo, size / 64 * 64;
      while i < wordEnd
        invariant i <= size && (i < wordEnd ==> i % 64 == 0) && Scanned(bits, lo, i, count, run)
        decreases size - i
      {
        run, r := WordRun(lo, i, count, run);
        if r >= 0 {
          return;
        }
        i := i + 64;
      }
      run, r := BitRun(lo, i, size, count, run);
    }

    /** Bit by bit from i to end. */
    method BitRun(ghost lo: nat, i: nat, end: nat, count: nat, run: nat) returns (run': nat, r: int)
      requires Valid() && i <= size && end <= size && count > 0 && Scanned(bits, lo, i, count, run)
      ensures r < 0 ==> r == -1 && Scanned(bits, lo, if i < end then end else i, count, run')
      ensures r >= 0 ==> FirstRun(bits, lo, count, r)
    {
      hide Represents, FirstRun, Scanned;
      run' := run;
      var k := i;
      while k < end
        invariant k <= size && (k <= end || k == i) && i <= k && Scanned(bits, lo, k, count, run')
        decreases end - k
      {
        var found;
        run', found := Advance(lo, k, count, run');
        if found {
          return run', k + 1 - run';
        }
        k := k + 1;
      }
      return run', -1;
    }

    /** One bit of the run counting: `found` when the run is long enough. */
    method Advance(ghost lo: nat, i: nat, count: nat, run: nat) returns (run': nat, found: bool)
      requires Valid() && i < size && count > 0 && Scanned(bits, lo, i, count, run)
      ensures !found ==> Scanned(bits, lo, i + 1, count, run')
      ensures found ==> run' <= i + 1 && run' == count && FirstRun(bits, lo, count, i + 1 - run')
    {
      hide Represents;
      var b := Get(i);
      if b {
        ScanSet(bits, lo, i, count, run, 1);
        return 0, false;
      }
      ScanClear(bits, lo, i, count, run, 1);
      return run + 1, run + 1 == count;
    }

    method WordRunDown(i: nat, count: nat, run: nat) returns (run': nat, r: int)
      requires Valid() && i % 64 == 0 && i + 64 <= size && count > 0 && ScannedDown(bits, i + 64, count, run)
      ensures r < 0 ==> ScannedDown(bits, i, count, run')
      ensures r >= 0 ==> LastRun(bits, count, r)
    {
      hide Represents, WordBit;
      var w := Word(i);
      run' := run;
      if w == 0 {
        DownClear(bits, i + 64, count, run, 64);
        return run + 64, if run + 64 >= count then i + (run + 64 - count) else -1;
      }
      if w == !0 {
        DownSet(bits, i + 64, count, run, 64);
        return 0, -1;
      }
      var bit: nat := 64;
      while bit > 0
        invariant bit <= 64 && ScannedDown(bits, i + bit, count, run')
      {
        bit := bit - 1;
        var found;
        run', found := Retreat(i + bit, count, run');
        if found {
          return run', i + bit;
        }
      }
      r := -1;
    }

    /** find_last_free_sequence. */
    method FindLastFreeSequence(count: nat) returns (r: int)
      requires Valid()
      ensures count == 0 || count > size ==> r == -1
      ensures r >= 0 ==> count > 0 && LastRun(bits, count, r)
      ensures r < 0 ==> r == -1 && (count > 0 ==> forall k: nat :: !Free(bits, k, count))
    {
      hide Represents, LastRun;
      if count == 0 || count > size {
        return -1;
      }
      var i: nat, run: nat := size, 0;
      var wordEnd := size / 64 * 64;
      while i > wordEnd
        invariant wordEnd <= i <= size && ScannedDown(bits, i, count, run)
      {
        i := i - 1;
        var found;
        run, found := Retreat(i, count, run);
        if found {
          return i;
        }
      }
      var q: nat := i / 64;
      while q > 0
        invariant 64 * q <= size && ScannedDown(bits, 64 * q, count, run)
      {
        q := q - 1;
        var r;
        run, r := WordRunDown(64 * q, count, run);
        if r >= 0 {
          return r;
        }
      }
      return -1;
    }

    method Retreat(i: nat, count: nat, run: nat) returns (run': nat, found: bool)
      requires Valid() && i < size && count > 0 && ScannedDown(bits, i + 1, count, run)
      ensures !found ==> ScannedDown(bits, i, count, run')
      ensures found ==> LastRun(bits, count, i)
    {
      hide Represents;
      var b := Get(i);
      if b {
        DownSet(bits, i + 1, count, run, 1);
        return 0, false;
      }
      DownClear(bits, i + 1, count, run, 1);
      return run + 1, run + 1 == count;
    }
  }

  lemma {:induction false} FirstClearSkip(bits: seq<bool>, lo: nat, mid: nat, hi: nat)
    requires lo <= mid <= hi <= |bits| && forall k :: lo <= k < mid ==> bits[k]
    ensures FirstClear(bits, lo, hi) == FirstClear(bits, mid, hi)
    decreases mid - lo
  {
    if lo < mid {
      FirstClearSkip(bits, lo + 1, mid, hi);
    }
  }

  lemma FirstClearIs(bits: seq<bool>, lo: nat, hi: nat, i: nat)
    requires lo <= i < hi <= |bits| && !bits[i] && forall k :: lo <= k < i ==> bits[k]
    ensures FirstClear(bits, lo, hi) == i
  {
  }
}
