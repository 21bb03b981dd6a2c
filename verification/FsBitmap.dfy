/** filesystems-checker/xchecker.c: bytes of the free-block bitmap as 8-bit vectors (`bitmap_exist`,
    `bitmap_delete`). */
module FsBitmap {

  /** Bit `k` of a byte, read as the source reads it. */
  function Bit(b: bv8, k: nat): bool
    requires k < 8
  {
    (b >> k) & 1 == 1
  }

  function One(k: nat): bv8
    requires k < 8
  {
    if k == 0 then 1 else if k == 1 then 2 else if k == 2 then 4 else if k == 3 then 8
    else if k == 4 then 16 else if k == 5 then 32 else if k == 6 then 64 else 128
  }

  lemma BitIsMask(b: bv8, k: nat)
    requires k < 8
    ensures Bit(b, k) == (b & One(k) != 0)
  {
    if k == 0 {
      assert b >> 0 == b;
    } else if k == 1 {
    } else if k == 2 {
    } else if k == 3 {
    } else if k == 4 {
    } else if k == 5 {
    } else if k == 6 {
    } else {
    }
  }

  /** The mask of `bitmap_delete`, truncated to a byte. */
  function ClearMask(k: nat): bv8
    requires k < 8
  {
    (0xFE << k) | (0xFE >> (8 - k))
  }

  lemma MaskIs(k: nat)
    requires k < 8
    ensures ClearMask(k) == !One(k)
  {
    if k == 0 {
      assert ClearMask(0) == 0xFE;
    } else if k == 1 {
      assert ClearMask(1) == 0xFD;
    } else if k == 2 {
      assert ClearMask(2) == 0xFB;
    } else if k == 3 {
      assert ClearMask(3) == 0xF7;
    } else if k == 4 {
      assert ClearMask(4) == 0xEF;
    } else if k == 5 {
      assert ClearMask(5) == 0xDF;
    } else if k == 6 {
      assert ClearMask(6) == 0xBF;
    } else {
      assert ClearMask(7) == 0x7F;
    }
  }

  lemma AndOnes(b: bv8, k: nat, m: nat)
    requires k < 8 && m < 8
    ensures (b & !One(k)) & One(m) == if k == m then 0 else b & One(m)
  {
  }

  lemma ClearBit(b: bv8, k: nat, m: nat)
    requires k < 8 && m < 8
    ensures Bit(b & ClearMask(k), m) == (Bit(b, m) && m != k)
  {
    MaskIs(k);
    BitIsMask(b, m);
    BitIsMask(b & ClearMask(k), m);
    AndOnes(b, k, m);
  }

  /** The mask 2^k - 1 that the source computes with `pow`. */
  function Low(k: nat): bv8
    requires k < 8
  {
    One(k) - 1
  }

  lemma LowMasks(b: bv8, k: nat)
    requires k < 8
    ensures b == Low(k) <==>
            && (b & 1 != 0 <==> 0 < k) && (b & 2 != 0 <==> 1 < k) && (b & 4 != 0 <==> 2 < k)
            && (b & 8 != 0 <==> 3 < k) && (b & 16 != 0 <==> 4 < k) && (b & 32 != 0 <==> 5 < k)
            && (b & 64 != 0 <==> 6 < k) && (b & 128 == 0)
  {
  }

  /** A byte is 2^k - 1 exactly when its k low bits, and no others, are set. */
  lemma LowBits(b: bv8, k: nat)
    requires k < 8
    ensures b == Low(k) <==> forall m :: 0 <= m < 8 ==> (Bit(b, m) <==> m < k)
  {
    forall m | 0 <= m < 8 ensures Bit(b, m) == (b & One(m) != 0) {
      BitIsMask(b, m);
    }
    LowMasks(b, k);
    if forall m :: 0 <= m < 8 ==> (Bit(b, m) <==> m < k) {
      assert Bit(b, 0) <==> 0 < k;
      assert Bit(b, 1) <==> 1 < k;
      assert Bit(b, 2) <==> 2 < k;
      assert Bit(b, 3) <==> 3 < k;
      assert Bit(b, 4) <==> 4 < k;
      assert Bit(b, 5) <==> 5 < k;
      assert Bit(b, 6) <==> 6 < k;
      assert Bit(b, 7) <==> 7 < k;
    }
  }

  // ---- the bitmap

  ghost predicate Marked(bitmap: seq<bv8>, addr: nat) {
    addr / 8 < |bitmap| && Bit(bitmap[addr / 8], addr % 8)
  }

  /** The byte index as both functions compute it. */
  function CharIndex(addr: nat): (index: nat)
    ensures index == addr / 8
  {
    if (addr + 1) % 8 == 0 then (addr + 1) / 8 - 1 else (addr + 1) / 8
  }

  predicate BitmapExist(addr: nat, bitmap: seq<bv8>)
    requires addr < 8 * |bitmap|
    ensures BitmapExist(addr, bitmap) <==> Marked(bitmap, addr)
  {
    Bit(bitmap[CharIndex(addr)], addr % 8)
  }

  lemma SameAddress(addr: nat, m: nat)
    ensures m == addr <==> m / 8 == addr / 8 && m % 8 == addr % 8
  {
  }

  lemma DeleteBit(before: seq<bv8>, after: seq<bv8>, addr: nat, m: nat)
    requires addr < 8 * |before| && |after| == |before|
    requires after[addr / 8] == before[addr / 8] & ClearMask(addr % 8)
    requires m / 8 != addr / 8 && m / 8 < |before| ==> after[m / 8] == before[m / 8]
    ensures Marked(after, m) <==> Marked(before, m) && m != addr
  {
    SameAddress(addr, m);
    if m / 8 == addr / 8 {
      ClearBit(before[addr / 8], addr % 8, m % 8);
    }
  }

  /** Clears one bit and leaves all others. */
  method BitmapDelete(addr: nat, bitmap: array<bv8>)
    requires addr < 8 * bitmap.Length
    modifies bitmap
    ensures forall m: nat :: Marked(bitmap[..], m) <==> Marked(old(bitmap[..]), m) && m != addr
  {
    ghost var before := bitmap[..];
    var charIndex := CharIndex(addr);
    bitmap[charIndex] := bitmap[charIndex] & ClearMask(addr % 8);
    ghost var after := bitmap[..];
    forall m: nat ensures Marked(after, m) <==> Marked(before, m) && m != addr {
      DeleteBit(before, after, addr, m);
    }
  }
}
