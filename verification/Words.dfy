/** Boundary tags: 32-bit words that hold a block size, an allocated bit and a tag bit. */
module Words {
  import opened Bits

  /** `w & ~0x7` */
  function GetSize(w: Word32): Word32 { w - w % 8 }

  /** `w & 0x1` */
  function GetAlloc(w: Word32): Word32 { w % 2 }

  /** `w & 0x2` */
  function GetTag(w: Word32): Word32 { w % 4 - w % 2 }

  /** A block size leaves the three flag bits free. */
  predicate Aligned(size: int) { size % 8 == 0 }

  predicate Even(words: int) { words % 2 == 0 }

  /** `size | alloc` for a block size */
  function Pack(size: int, alloc: int): (w: Word32)
    requires 0 <= size < 0xFFFF_FFFF && Aligned(size) && 0 <= alloc <= 1
  {
    size + alloc
  }

  /** `val | (prior & 0x2)` for a packed value: the tag bit of the overwritten word survives. */
  function WithTag(val: Word32, prior: Word32): Word32
    requires GetTag(val) == 0
  {
    val + GetTag(prior)
  }

  /** `w | 0x2` */
  function SetTag(w: Word32): Word32 { w - GetTag(w) + 2 }

  /** `w & ~0x2` */
  function ClearTag(w: Word32): Word32 { w - GetTag(w) }

  /** The arithmetic definitions above are the bit operations of the macros. */
  lemma MasksAreBitwise(w: Word32)
    ensures And(w, 0xFFFF_FFF8) == GetSize(w)
    ensures And(w, 0x1) == GetAlloc(w) && And(w, 0x2) == GetTag(w)
    ensures And(w, 0xFFFF_FFFD) == ClearTag(w) && Or(w, 0x2) == SetTag(w)
  {
    SizeMask(w);
    FlagMasks(w);
  }

  lemma SizeMask(w: Word32)
    ensures And(w, 0xFFFF_FFF8) == GetSize(w)
  {
    Pow2Values();
    assert Shl(0x1FFF_FFFF, 3) == 0xFFFF_FFF8;
    MaskField(w, 3, 29);
    EighthIsSmall(w);
  }

  lemma EighthIsSmall(w: Word32)
    ensures w / 8 % 0x2000_0000 == w / 8 && w / 8 * 8 == GetSize(w)
  {
  }

  lemma FlagMasks(w: Word32)
    ensures And(w, 0x1) == GetAlloc(w) && And(w, 0x2) == GetTag(w)
    ensures And(w, 0xFFFF_FFFD) == ClearTag(w) && Or(w, 0x2) == SetTag(w)
  {
    var q, tag, alloc := w / 4, w / 2 % 2, w % 2;
    LowBits(w);
    AndZero(q);
    AndZero(w / 2);
    Pow2Values();
    MaskLow(q, 30);
    assert And(w / 2, 1) == tag;
    assert And(w / 2, 0x7FFF_FFFE) == 2 * And(q, 0x3FFF_FFFF);
    assert Or(w / 2, 1) == 2 * q + 1;
  }

  lemma LowBits(w: Word32)
    ensures w / 2 / 2 == w / 4 && w / 4 % 0x4000_0000 == w / 4
    ensures w == 4 * (w / 4) + 2 * (w / 2 % 2) + w % 2
    ensures GetTag(w) == 2 * (w / 2 % 2)
  {
  }

  lemma PackIsBitwise(size: int, alloc: int)
    requires 0 <= size < 0xFFFF_FFFF && Aligned(size) && 0 <= alloc <= 1
    ensures Or(size, alloc) == Pack(size, alloc)
  {
  }

  lemma WithTagIsBitwise(val: Word32, prior: Word32)
    requires GetTag(val) == 0
    ensures Or(val, GetTag(prior)) == WithTag(val, prior)
  {
    var half := val / 2;
    assert half % 2 == 0;
    if half > 0 { OrDisjoint(half, 1, 1); }
    assert Or(half, 1) == half + 1;
  }
}
