/** Bytes as rows of bits, and the 64-bit little-endian words made of them. */
module Words {

  /** 1 << k. */
  function Mask(k: nat): bv8
    requires k < 8
  {
    if k == 0 then 0x01 else if k == 1 then 0x02 else if k == 2 then 0x04 else if k == 3 then 0x08
    else if k == 4 then 0x10 else if k == 5 then 0x20 else if k == 6 then 0x40 else 0x80
  }

  predicate Bit(b: bv8, k: nat)
    requires k < 8
  {
    b & Mask(k) != 0
  }

  lemma SetBit(b: bv8, k: nat, j: nat)
    requires k < 8 && j < 8
    ensures Bit(b | Mask(k), j) == (j == k || Bit(b, j))
  {
  }

  lemma ClearBit(b: bv8, k: nat, j: nat)
    requires k < 8 && j < 8
    ensures Bit(b & !Mask(k), j) == (j != k && Bit(b, j))
  {
  }

  lemma ConstantBits(j: nat)
    requires j < 8
    ensures Bit(0xFF, j) && !Bit(0x00, j)
  {
  }

  lemma ByteIs(b: bv8)
    ensures b == 0x00 <==> forall j :: 0 <= j < 8 ==> !Bit(b, j)
    ensures b == 0xFF <==> forall j :: 0 <= j < 8 ==> Bit(b, j)
  {
    if forall j :: 0 <= j < 8 ==> !Bit(b, j) {
      assert !Bit(b, 0) && !Bit(b, 1) && !Bit(b, 2) && !Bit(b, 3) && !Bit(b, 4) && !Bit(b, 5) && !Bit(b, 6) &&
             !Bit(b, 7);
    }
    if forall j :: 0 <= j < 8 ==> Bit(b, j) {
      assert Bit(b, 0) && Bit(b, 1) && Bit(b, 2) && Bit(b, 3) && Bit(b, 4) && Bit(b, 5) && Bit(b, 6) && Bit(b, 7);
    }
    forall j | 0 <= j < 8
      ensures Bit(0xFF, j) && !Bit(0x00, j)
    {
      ConstantBits(j);
    }
  }

  /** The 32-bit word at four bytes. */
  function Half(b: seq<bv8>): bv32
    requires |b| == 4
  {
    (b[0] as bv32) | ((b[1] as bv32) << 8) | ((b[2] as bv32) << 16) | ((b[3] as bv32) << 24)
  }

  function HalfMask(m: nat, k: nat): bv32
    requires m < 4 && k < 8
  {
    var x := Mask(k) as bv32;
    if m == 0 then x else if m == 1 then x << 8 else if m == 2 then x << 16 else x << 24
  }

  lemma HalfBit(b: seq<bv8>, m: nat, k: nat)
    requires |b| == 4 && m < 4 && k < 8
    ensures HalfMeets(Half(b), HalfMask(m, k)) == Bit(b[m], k)
  {
  }

  function Join(lo: bv32, hi: bv32): bv64 { (lo as bv64) | ((hi as bv64) << 32) }

  function Low(x: bv32): bv64 { x as bv64 }

  function High(x: bv32): bv64 { (x as bv64) << 32 }

  /** The 64-bit word at eight bytes. */
  function Load(b: seq<bv8>): bv64
    requires |b| == 8
  {
    Join(Half(b[..4]), Half(b[4..]))
  }

  predicate Meets(w: bv64, mask: bv64) { w & mask != 0 }

  predicate HalfMeets(w: bv32, mask: bv32) { w & mask != 0 }

  lemma JoinMeets(lo: bv32, hi: bv32, mask: bv32)
    ensures Meets(Join(lo, hi), Low(mask)) == HalfMeets(lo, mask)
    ensures Meets(Join(lo, hi), High(mask)) == HalfMeets(hi, mask)
  {
  }

  /** 1ULL << k. */
  function WordMask(k: nat): bv64
    requires k < 64
  {
    (1 as bv64) << k
  }

  predicate WordBit(w: bv64, k: nat)
    requires k < 64
  {
    Meets(w, WordMask(k))
  }

  lemma LowWordMask(m: nat, k: nat)
    requires m < 2 && k < 8
    ensures WordMask(8 * m + k) == Low(HalfMask(m, k)) && WordMask(32 + 8 * m + k) == High(HalfMask(m, k))
  {
  }

  lemma HighWordMask(m: nat, k: nat)
    requires 2 <= m < 4 && k < 8
    ensures WordMask(8 * m + k) == Low(HalfMask(m, k)) && WordMask(32 + 8 * m + k) == High(HalfMask(m, k))
  {
  }

  /** Bit k of a little-endian word is bit k % 8 of byte k / 8. */
  lemma LoadBit(b: seq<bv8>, k: nat)
    requires |b| == 8 && k < 64
    ensures WordBit(Load(b), k) == Bit(b[k / 8], k % 8)
  {
    hide Half, HalfMask, WordMask, Bit, Join, Low, High, Meets, HalfMeets;
    var m, j := if k < 32 then k / 8 else k / 8 - 4, k % 8;
    var lo, hi := Half(b[..4]), Half(b[4..]);
    if m < 2 {
      LowWordMask(m, j);
    } else {
      HighWordMask(m, j);
    }
    JoinMeets(lo, hi, HalfMask(m, j));
    HalfBit(if k < 32 then b[..4] else b[4..], m, j);
  }

  /** A word is zero when all its bits are clear, and all ones when they are set. */
  lemma WordIs(w: bv64)
    ensures w == 0 ==> forall k :: 0 <= k < 64 ==> !WordBit(w, k)
    ensures w == !0 ==> forall k :: 0 <= k < 64 ==> WordBit(w, k)
  {
  }

  /** A word that is not all ones has a clear bit. */
  lemma SomeClear(b: seq<bv8>)
    requires |b| == 8 && Load(b) != !0
    ensures exists k :: 0 <= k < 64 && !WordBit(Load(b), k)
  {
    hide Load, WordBit;
    if forall k :: 0 <= k < 64 ==> WordBit(Load(b), k) {
      forall m | 0 <= m < 8
        ensures b[m] == 0xFF
      {
        forall j | 0 <= j < 8
          ensures Bit(b[m], j)
        {
          LoadBit(b, 8 * m + j);
          assert (8 * m + j) / 8 == m && (8 * m + j) % 8 == j;
        }
        ByteIs(b[m]);
      }
      AllOnes(b);
    }
  }

  lemma AllOnes(b: seq<bv8>)
    requires |b| == 8 && forall m :: 0 <= m < 8 ==> b[m] == 0xFF
    ensures Load(b) == !0
  {
  }

  /** __builtin_ctzll(~w): the first clear bit of w, from bit k on. */
  function FirstZero(w: bv64, k: nat): (z: nat)
    requires k <= 64 && exists j :: k <= j < 64 && !WordBit(w, j)
    ensures k <= z < 64 && !WordBit(w, z) && forall j :: k <= j < z ==> WordBit(w, j)
    decreases 64 - k
  {
    if !WordBit(w, k) then k else FirstZero(w, k + 1)
  }
}
