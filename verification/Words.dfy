/**
 Bytes, half-words and 32-bit words of the card's memory, as a little-endian host sees them.

 The driver's byte masks (0xff << 8k, 0xffff << 8k) cover whole byte lanes, so and-ing with a
 complement clears lanes and or-ing fills them; they are written lane by lane here. Lanes shifted
 past bit 31 are lost.
 */
module Words {

  type Byte = b: int | 0 <= b < 0x100
  type Half = h: int | 0 <= h < 0x1_0000
  type Word = w: int | 0 <= w < 0x1_0000_0000

  /** `w >> 8k` */
  function Shr(w: nat, k: nat): nat
    requires k < 4
  {
    if k == 0 then w else Shr(w, k - 1) / 0x100
  }

  /** `(w >> 8k) & 0xff` */
  function ByteOf(w: Word, k: nat): Byte
    requires k < 4
  {
    Shr(w, k) % 0x100
  }

  function Pack(b0: Byte, b1: Byte, b2: Byte, b3: Byte): Word {
    b0 + 0x100 * b1 + 0x1_0000 * b2 + 0x100_0000 * b3
  }

  /** `(w & ~(0xff << 8k)) | (val << 8k)` */
  function SetByte(w: Word, k: nat, val: Byte): Word
    requires k < 4
  {
    Pack(if k == 0 then val else ByteOf(w, 0),
         if k == 1 then val else ByteOf(w, 1),
         if k == 2 then val else ByteOf(w, 2),
         if k == 3 then val else ByteOf(w, 3))
  }

  /** `(w & ~(0xffff << 8k)) | (val << 8k)` in 32 bits */
  function SetHalf(w: Word, k: nat, val: Half): Word
    requires k < 4
  {
    var lo, hi := val % 0x100, val / 0x100;
    Pack(if k == 0 then lo else ByteOf(w, 0),
         if k == 1 then lo else if k == 0 then hi else ByteOf(w, 1),
         if k == 2 then lo else if k == 1 then hi else ByteOf(w, 2),
         if k == 3 then lo else if k == 2 then hi else ByteOf(w, 3))
  }

  /** `(w >> 8k) & 0xffff` */
  function HalfOf(w: Word, k: nat): Half
    requires k < 4
  {
    Shr(w, k) % 0x1_0000
  }

  /** The bytes of a word are its digits, the least significant one first. */
  lemma PackBytes(w: Word)
    ensures w == ByteOf(w, 0) + 0x100 * ByteOf(w, 1) + 0x1_0000 * ByteOf(w, 2) + 0x100_0000 * ByteOf(w, 3)
    ensures w == Pack(ByteOf(w, 0), ByteOf(w, 1), ByteOf(w, 2), ByteOf(w, 3))
  {
    var q1: nat := Shr(w, 1);
    var q2: nat := Shr(w, 2);
    var q3: nat := Shr(w, 3);
    assert w == 0x100 * q1 + ByteOf(w, 0);
    assert q1 == 0x100 * q2 + ByteOf(w, 1);
    assert q2 == 0x100 * q3 + ByteOf(w, 2);
    assert q3 < 0x100;
  }

  lemma BytesPack(b0: Byte, b1: Byte, b2: Byte, b3: Byte)
    ensures var w := Pack(b0, b1, b2, b3);
            ByteOf(w, 0) == b0 && ByteOf(w, 1) == b1 && ByteOf(w, 2) == b2 && ByteOf(w, 3) == b3
  {
    var w: nat := Pack(b0, b1, b2, b3);
    var q3: nat := b3;
    var q2: nat := 0x100 * q3 + b2;
    var q1: nat := 0x100 * q2 + b1;
    assert w == 0x100 * q1 + b0;
    assert Shr(w, 1) == q1;
    assert Shr(w, 2) == q2;
    assert Shr(w, 3) == q3;
  }

  lemma SetByteBytes(w: Word, k: nat, val: Byte)
    requires k < 4
    ensures forall j :: 0 <= j < 4 ==> ByteOf(SetByte(w, k, val), j) == if j == k then val else ByteOf(w, j)
  {
    BytesPack(if k == 0 then val else ByteOf(w, 0),
              if k == 1 then val else ByteOf(w, 1),
              if k == 2 then val else ByteOf(w, 2),
              if k == 3 then val else ByteOf(w, 3));
  }

  /** Lanes k and k+1 take the two bytes of val; at k == 3 the high byte is lost. */
  lemma SetHalfBytes(w: Word, k: nat, val: Half)
    requires k < 4
    ensures forall j :: 0 <= j < 4 ==>
      ByteOf(SetHalf(w, k, val), j) ==
        if j == k then val % 0x100 else if j == k + 1 then val / 0x100 else ByteOf(w, j)
  {
    var lo, hi := val % 0x100, val / 0x100;
    BytesPack(if k == 0 then lo else ByteOf(w, 0),
              if k == 1 then lo else if k == 0 then hi else ByteOf(w, 1),
              if k == 2 then lo else if k == 1 then hi else ByteOf(w, 2),
              if k == 3 then lo else if k == 2 then hi else ByteOf(w, 3));
  }

  /** The low sixteen bits, split at the byte boundary. */
  lemma LowHalf(w: nat, q: nat, r: nat)
    requires w == 0x100 * q + r && r < 0x100
    ensures w % 0x1_0000 == r + 0x100 * (q % 0x100)
  {
    var q', r' := q / 0x100, q % 0x100;
    assert q == 0x100 * q' + r';
    assert w == 0x1_0000 * q' + (r + 0x100 * r');
  }

  lemma HalfOfBytes(w: Word, k: nat)
    requires k < 4
    ensures HalfOf(w, k) == ByteOf(w, k) + if k == 3 then 0 else 0x100 * ByteOf(w, k + 1)
  {
    if k == 3 {
      assert Shr(w, 3) < 0x100 by { PackBytes(w); }
    } else {
      LowHalf(Shr(w, k), Shr(w, k + 1), ByteOf(w, k));
    }
  }

  /** A half-word reads back as written just if it does not straddle the word or its high byte is zero. */
  lemma HalfRoundTripIff(w: Word, k: nat, val: Half)
    requires k < 4
    ensures HalfOf(SetHalf(w, k, val), k) == val <==> k != 3 || val < 0x100
  {
    SetHalfBytes(w, k, val);
    HalfOfBytes(SetHalf(w, k, val), k);
  }

  /** The four lanes of a word, on bit vectors. */
  predicate Lanes(w: bv32, b0: bv32, b1: bv32, b2: bv32, b3: bv32) {
    w & 0xff == b0 && (w >> 8) & 0xff == b1 && (w >> 16) & 0xff == b2 && (w >> 24) & 0xff == b3
  }

  /** The masks of a byte store, for each byte of the word, have the lanes that SetByteBytes states. */
  lemma ByteMasks(w: bv32, val: bv32, b0: bv32, b1: bv32, b2: bv32, b3: bv32)
    requires val <= 0xff && Lanes(w, b0, b1, b2, b3)
    ensures Lanes((w & !0xff) | val, val, b1, b2, b3)
    ensures Lanes((w & !(0xff << 8)) | (val << 8), b0, val, b2, b3)
    ensures Lanes((w & !(0xff << 16)) | (val << 16), b0, b1, val, b3)
    ensures Lanes((w & !(0xff << 24)) | (val << 24), b0, b1, b2, val)
  {
  }

  /** The masks of a half-word store have the lanes that SetHalfBytes states. */
  lemma HalfMasks(w: bv32, val: bv32, b0: bv32, b1: bv32, b2: bv32, b3: bv32)
    requires val <= 0xffff && Lanes(w, b0, b1, b2, b3)
    ensures Lanes((w & !0xffff) | val, val & 0xff, val >> 8, b2, b3)
    ensures Lanes((w & !(0xffff << 8)) | (val << 8), b0, val & 0xff, val >> 8, b3)
    ensures Lanes((w & !(0xffff << 16)) | (val << 16), b0, b1, val & 0xff, val >> 8)
    ensures Lanes((w & !(0xffff << 24)) | (val << 24), b0, b1, b2, val & 0xff)
  {
  }

  lemma Regroup<T>(a: seq<T>, b: seq<T>, c: seq<T>)
    ensures a + b + c == a + (b + c)
  {
  }

  /** The bytes of a sequence of transfers, one after the other. */
  function Concat(chunks: seq<seq<Byte>>): seq<Byte> {
    if chunks == [] then [] else Concat(chunks[..|chunks| - 1]) + chunks[|chunks| - 1]
  }
}
