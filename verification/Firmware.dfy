/**
 Firmware images: reading them (boot.c), writing and verifying them in the card's memory (merge.c), and
 the transfers of the TNETW1450 USB boot (usb.c).
 */
module Firmware {
  import opened Words
  import opened Multiples
  import opened SlaveMemory

  const TWO_TO_THE_32: nat := 0x1_0000_0000
  const OK: nat := 0
  const NOT_OK: nat := 1
  const TRIES: nat := 5
  /** USB_RWMEM_MAXLEN */
  const USB_BLOCK: nat := 2048

  datatype Option<T> = None | Some(value: T)

  /** `firmware_image_t`: both header fields are little-endian. */
  datatype Image = Image(chksum: Word, size: Word, data: seq<Byte>)

  // ---- Reading an image ----

  function WordBytes(w: Word): (bs: seq<Byte>)
    ensures |bs| == 4
  {
    [ByteOf(w, 0), ByteOf(w, 1), ByteOf(w, 2), ByteOf(w, 3)]
  }

  /** 32-bit arithmetic: x modulo 2^32, see WrapIsModulo. */
  function Wrap(x: nat): Word {
    if x < TWO_TO_THE_32 then x else Wrap(x - TWO_TO_THE_32)
  }

  lemma {:induction false} WrapIsModulo(x: nat)
    ensures Wrap(x) == x % 0x1_0000_0000
  {
    if x < TWO_TO_THE_32 {
    } else {
      WrapIsModulo(x - TWO_TO_THE_32);
    }
  }

  /** `acx_read_fw`: the file must be as long as its header says, in 32-bit arithmetic. */
  function ReadFw(file: seq<Byte>): Option<Image> {
    if |file| < 8 then None
    else if |file| != Wrap(8 + SourceWord(file, 1)) then None
    else Some(Image(SourceWord(file, 0), SourceWord(file, 1), file[8..]))
  }

  function FileOf(image: Image): seq<Byte> {
    WordBytes(image.chksum) + WordBytes(image.size) + image.data
  }

  predicate Sized(image: Image) {
    |image.data| == image.size && image.size + 8 < TWO_TO_THE_32
  }

  lemma BytesOfWord(file: seq<Byte>, j: nat)
    requires 4 * j + 4 <= |file|
    ensures WordBytes(SourceWord(file, j)) == file[4 * j..4 * j + 4]
  {
    BytesPack(file[4 * j], file[4 * j + 1], file[4 * j + 2], file[4 * j + 3]);
  }

  /** A wrapped length is less than eight or not wrapped at all. */
  lemma WrapLength(size: Word)
    ensures Wrap(8 + size) == if 8 + size < TWO_TO_THE_32 then 8 + size else 8 + size - TWO_TO_THE_32
  {
    WrapSmall(size, 8);
  }

  /** Exactly the files of well-sized images are accepted; the 32-bit sum lets no other file through. */
  lemma ReadFwAccepts(file: seq<Byte>)
    ensures ReadFw(file).Some? <==> |file| >= 8 && |file| == 8 + SourceWord(file, 1) && |file| < TWO_TO_THE_32
    ensures ReadFw(file).Some? ==> Sized(ReadFw(file).value) && FileOf(ReadFw(file).value) == file
    ensures ReadFw(file).Some? ==>
      var image := ReadFw(file).value;
      && image.chksum == file[0] + 0x100 * file[1] as int + 0x1_0000 * file[2] as int + 0x100_0000 * file[3] as int
      && image.size == file[4] + 0x100 * file[5] as int + 0x1_0000 * file[6] as int + 0x100_0000 * file[7] as int
      && image.data == file[8..]
  {
    if |file| >= 8 {
      BytesOfWord(file, 0);
      BytesOfWord(file, 1);
      WrapLength(SourceWord(file, 1));
      assert file[0..4] + file[4..8] + file[8..] == file;
    }
  }

  lemma ReadFwInverts(image: Image)
    requires Sized(image)
    ensures ReadFw(FileOf(image)) == Some(image)
  {
    var file := FileOf(image);
    assert SourceWord(file, 0) == image.chksum by {
      PackBytes(image.chksum);
    }
    assert SourceWord(file, 1) == image.size by {
      PackBytes(image.size);
    }
    assert file[8..] == image.data;
  }

  // ---- Words and sums of an image ----

  /** `be32_to_cpu` of word j of the image. */
  function BeWord(data: seq<Byte>, j: nat): Word
    requires 4 * j + 4 <= |data|
  {
    Pack(data[4 * j + 3], data[4 * j + 2], data[4 * j + 1], data[4 * j])
  }

  /** Words j to k of the image, as the card is to hold them. */
  function BeWords(data: seq<Byte>, j: nat, k: nat): (ws: seq<Word>)
    requires j <= k && 4 * k <= |data|
    ensures |ws| == k - j
  {
    seq<Word>(k - j, i requires 0 <= i < k - j => BeWord(data, j + i))
  }

  /** The sum of the first n bytes. */
  function Sum(bs: seq<Byte>, n: nat): nat
    requires n <= |bs|
  {
    if n == 0 then 0 else Sum(bs, n - 1) + bs[n - 1]
  }

  /** The checksum over the size field and the first n bytes of data: a byte sum modulo 2^32. */
  function Checksum(image: Image, n: nat): Word
    requires n <= |image.data|
  {
    Wrap(Sum(WordBytes(image.size), 4) + Sum(image.data, n))
  }

  /** A sum of bytes: the bytes of two lists add up, and one byte is its own sum. */
  lemma {:induction false} SumOfAppend(a: seq<Byte>, b: seq<Byte>, n: nat)
    requires n <= |b|
    ensures Sum(a + b, |a| + n) == Sum(a, |a|) + Sum(b, n)
    ensures n == 1 ==> Sum(b, n) == b[0]
  {
    if n == 0 {
      SumOfPrefix(a, b, |a|);
    } else {
      SumOfAppend(a, b, n - 1);
      assert Sum(b, 0) == 0;
    }
  }

  lemma {:induction false} SumOfPrefix(a: seq<Byte>, b: seq<Byte>, n: nat)
    requires n <= |a|
    ensures Sum(a + b, n) == Sum(a, n)
  {
    if n == 0 {
    } else {
      SumOfPrefix(a, b, n - 1);
    }
  }

  /** The checksum in plain terms: the bytes of the size field and of the data, in 32 bits. */
  lemma ChecksumInBytes(image: Image, n: nat)
    requires n <= |image.data|
    ensures var s := image.size;
            Checksum(image, n) ==
              (s % 0x100 + s / 0x100 % 0x100 + s / 0x1_0000 % 0x100 + s / 0x100_0000 + Sum(image.data, n))
                % 0x1_0000_0000
  {
    WrapIsModulo(Sum(WordBytes(image.size), 4) + Sum(image.data, n));
    SumNextWord(WordBytes(image.size), 0);
    ByteDigits(image.size);
  }

  lemma ByteDigits(w: Word)
    ensures ByteOf(w, 0) == w % 0x100 && ByteOf(w, 1) == w / 0x100 % 0x100
    ensures ByteOf(w, 2) == w / 0x1_0000 % 0x100 && ByteOf(w, 3) == w / 0x100_0000
  {
    assert Shr(w, 1) == w / 0x100;
    assert Shr(w, 2) == w / 0x100 / 0x100 == w / 0x1_0000;
    assert Shr(w, 3) == w / 0x1_0000 / 0x100 == w / 0x100_0000;
  }

  function Sum4(a: nat, b: nat, c: nat, d: nat): nat {
    a + b + c + d
  }

  function WordSum(w: Word): nat {
    Sum4(ByteOf(w, 0), ByteOf(w, 1), ByteOf(w, 2), ByteOf(w, 3))
  }

  lemma SumNextWord(data: seq<Byte>, n: nat)
    requires n + 4 <= |data|
    ensures Sum(data, n + 4) == Sum(data, n) + Sum4(data[n], data[n + 1], data[n + 2], data[n + 3])
  {
    assert Sum(data, n + 3) == Sum(data, n + 2) + data[n + 2];
    assert Sum(data, n + 2) == Sum(data, n + 1) + data[n + 1];
  }

  lemma WordSumOf(data: seq<Byte>, j: nat)
    requires 4 * j + 4 <= |data|
    ensures WordSum(BeWord(data, j)) == Sum4(data[4 * j], data[4 * j + 1], data[4 * j + 2], data[4 * j + 3])
  {
    BytesPack(data[4 * j + 3], data[4 * j + 2], data[4 * j + 1], data[4 * j]);
  }

  /** `sum += x` in 32 bits */
  function Add(sum: Word, x: nat): Word {
    Wrap(sum + x)
  }

  /** Wrapping at every addition or once at the end is the same. */
  lemma {:induction false} WrapOnce(sum: nat, x: nat)
    ensures Add(Wrap(sum), x) == Wrap(sum + x)
  {
    if sum < TWO_TO_THE_32 {
    } else {
      WrapOnce(sum - TWO_TO_THE_32, x);
    }
  }

  lemma ChecksumStart(image: Image)
    ensures Checksum(image, 0) == WordSum(image.size)
  {
    SumNextWord(WordBytes(image.size), 0);
    assert WordSum(image.size) < TWO_TO_THE_32;
  }

  lemma ChecksumGrows(image: Image, n: nat, m: nat, x: nat)
    requires n <= |image.data| && m <= |image.data| && Sum(image.data, m) == Sum(image.data, n) + x
    ensures Add(Checksum(image, n), x) == Checksum(image, m)
  {
    WrapOnce(Sum(WordBytes(image.size), 4) + Sum(image.data, n), x);
  }

  lemma ChecksumNext(image: Image, n: nat)
    requires n < |image.data|
    ensures Add(Checksum(image, n), image.data[n]) == Checksum(image, n + 1)
  {
    ChecksumGrows(image, n, n + 1, image.data[n]);
  }

  lemma ChecksumNextWord(image: Image, j: nat)
    requires 4 * j + 4 <= |image.data|
    ensures Add(Checksum(image, 4 * j), WordSum(BeWord(image.data, j))) == Checksum(image, 4 * j + 4)
  {
    WordSumOf(image.data, j);
    SumNextWord(image.data, 4 * j);
    ChecksumGrows(image, 4 * j, 4 * j + 4, WordSum(BeWord(image.data, j)));
  }

  /** Up to three more bytes add nothing just if they are zero. */
  lemma RestOfSum(data: seq<Byte>, n: nat)
    requires n <= |data| < n + 4
    ensures Sum(data, n) <= Sum(data, |data|) < Sum(data, n) + 0x1000
    ensures Sum(data, n) == Sum(data, |data|) <==> forall i: nat :: n <= i < |data| ==> data[i] == 0
  {
    if n + 2 < |data| { assert Sum(data, n + 3) == Sum(data, n + 2) + data[n + 2]; }
    if n + 1 < |data| { assert Sum(data, n + 2) == Sum(data, n + 1) + data[n + 1]; }
    if n < |data| { assert Sum(data, n + 1) == Sum(data, n) + data[n]; }
  }

  lemma SmallAdd(sum: nat, x: nat)
    requires x < TWO_TO_THE_32
    ensures Wrap(sum + x) == Wrap(sum) <==> x == 0
  {
    WrapOnce(sum, x);
    WrapSmall(Wrap(sum), x);
  }

  lemma WrapSmall(low: Word, x: nat)
    requires x < TWO_TO_THE_32
    ensures Wrap(low + x) == if low + x < TWO_TO_THE_32 then low + x else low + x - TWO_TO_THE_32
  {
    if low + x >= TWO_TO_THE_32 {
      assert Wrap(low + x - TWO_TO_THE_32) == low + x - TWO_TO_THE_32;
    }
  }

  /** The two checksums, of whole words (PCI, MEM) and of all bytes (USB), agree just if the rest is zero. */
  lemma ChecksumsAgreeIff(image: Image)
    requires Sized(image)
    ensures Checksum(image, image.size / 4 * 4) == Checksum(image, image.size)
            <==> forall i: nat :: image.size / 4 * 4 <= i < image.size ==> image.data[i] == 0
  {
    var n: nat := image.size / 4 * 4;
    RestOfSum(image.data, n);
    SmallAdd(Sum(WordBytes(image.size), 4) + Sum(image.data, n), Sum(image.data, image.size) - Sum(image.data, n));
  }

  // ---- Writing and verifying in slave memory ----

  /** What `acx_read_fw` guarantees, below the limit of the signed length the loops use. */
  predicate Loaded(image: Image) {
    |image.data| == image.size && image.size < 0x8000_0000
  }

  predicate InMemory(words: nat, image: Image, offset: nat) {
    offset / 4 + image.size / 4 <= words
  }

  /** The memory with the first j words of the image written at word lo. */
  function UpTo(words: seq<Word>, image: Image, lo: nat, j: nat): (ws: seq<Word>)
    requires 4 * j <= |image.data| && lo + j <= |words|
    ensures |ws| == |words|
  {
    words[..lo] + BeWords(image.data, 0, j) + words[lo + j..]
  }

  /** The memory after an upload. */
  function Written(words: seq<Word>, image: Image, offset: nat): (ws: seq<Word>)
    requires Loaded(image) && InMemory(|words|, image, offset)
    ensures |ws| == |words|
  {
    UpTo(words, image, offset / 4, image.size / 4)
  }

  /** The card's memory holds the image's whole words, most significant byte first in the image. */
  ghost predicate HoldsImage(words: seq<Word>, image: Image, offset: nat)
    requires Loaded(image) && InMemory(|words|, image, offset)
  {
    forall j: nat :: j < image.size / 4 ==> words[offset / 4 + j] == BeWord(image.data, j)
  }

  /** The four bytes of word j of the image lie at address a, in the opposite order. */
  predicate HoldsWord(words: seq<Word>, data: seq<Byte>, a: nat, j: nat)
    requires a + 3 < 4 * |words| && 4 * j + 4 <= |data|
  {
    && ByteAt(words, a) == data[4 * j + 3] && ByteAt(words, a + 1) == data[4 * j + 2]
    && ByteAt(words, a + 2) == data[4 * j + 1] && ByteAt(words, a + 3) == data[4 * j]
  }

  /** The card's memory holds the image's whole words from a word-aligned address on, byte by byte. */
  ghost predicate HoldsBytes(words: seq<Word>, image: Image, offset: nat)
    requires Loaded(image) && InMemory(|words|, image, offset)
  {
    offset % 4 == 0 ==>
      forall j: nat :: j < image.size / 4 ==> HoldsWord(words, image.data, offset + 4 * j, j)
  }

  lemma WordInBytes(words: seq<Word>, data: seq<Byte>, a: nat, j: nat)
    requires a % 4 == 0 && a / 4 < |words| && 4 * j + 4 <= |data|
    ensures words[a / 4] == BeWord(data, j) <==> HoldsWord(words, data, a, j)
  {
    BytesPack(data[4 * j + 3], data[4 * j + 2], data[4 * j + 1], data[4 * j]);
    PackBytes(words[a / 4]);
    BytesFromWord(words, a, 0);
    BytesFromWord(words, a, 1);
    BytesFromWord(words, a, 2);
    BytesFromWord(words, a, 3);
  }

  lemma WordHeld(words: seq<Word>, image: Image, offset: nat, j: nat)
    requires Loaded(image) && InMemory(|words|, image, offset) && offset % 4 == 0 && j < image.size / 4
    ensures words[offset / 4 + j] == BeWord(image.data, j) <==> HoldsWord(words, image.data, offset + 4 * j, j)
  {
    WordAddress(offset, j);
    WordInBytes(words, image.data, offset + 4 * j, j);
  }

  lemma HoldsInBytes(words: seq<Word>, image: Image, offset: nat)
    requires Loaded(image) && InMemory(|words|, image, offset)
    ensures HoldsImage(words, image, offset) ==> HoldsBytes(words, image, offset)
    ensures offset % 4 == 0 && HoldsBytes(words, image, offset) ==> HoldsImage(words, image, offset)
  {
    if offset % 4 == 0 {
      forall j: nat | j < image.size / 4 && HoldsImage(words, image, offset)
        ensures HoldsWord(words, image.data, offset + 4 * j, j)
      {
        WordHeld(words, image, offset, j);
      }
      forall j: nat | j < image.size / 4 && HoldsBytes(words, image, offset)
        ensures words[offset / 4 + j] == BeWord(image.data, j)
      {
        assert HoldsWord(words, image.data, offset + 4 * j, j);
        WordHeld(words, image, offset, j);
      }
    }
  }

  predicate SumsUp(image: Image)
    requires Loaded(image)
  {
    image.chksum == Checksum(image, image.size / 4 * 4)
  }

  lemma WrittenHolds(words: seq<Word>, image: Image, offset: nat)
    requires Loaded(image) && InMemory(|words|, image, offset)
    ensures HoldsImage(Written(words, image, offset), image, offset)
  {
    var n: nat := image.size / 4;
    forall j: nat | j < n
      ensures Written(words, image, offset)[offset / 4 + j] == BeWord(image.data, j)
    {
      assert BeWords(image.data, 0, n)[j] == BeWord(image.data, j);
    }
  }

  lemma WordAddress(offset: nat, j: nat)
    ensures (offset + 4 * j) / 4 == offset / 4 + j
  {
  }

  lemma OneWordMore(w: seq<Word>, image: Image, lo: nat, j: nat)
    requires 4 * j + 4 <= |image.data| && lo + j < |w|
    ensures UpTo(w, image, lo, j + 1) == UpTo(w, image, lo, j)[lo + j := BeWord(image.data, j)]
  {
    var a, b := UpTo(w, image, lo, j), UpTo(w, image, lo, j + 1);
    assert BeWords(image.data, 0, j + 1) == BeWords(image.data, 0, j) + [BeWord(image.data, j)];
    assert w[lo + j..] == [w[lo + j]] + w[lo + j + 1..];
  }

  /** Writes word j of the image. */
  method WriteWord(mem: SlaveMem, image: Image, offset: nat, j: nat, v32: Word, ghost w: seq<Word>)
    requires 4 * j + 4 <= |image.data| && v32 == BeWord(image.data, j)
    requires offset / 4 + j < mem.words.Length == |w| && mem.words[..] == UpTo(w, image, offset / 4, j)
    modifies mem, mem.words
    ensures mem.words[..] == UpTo(w, image, offset / 4, j + 1)
  {
    WordAddress(offset, j);
    OneWordMore(w, image, offset / 4, j);
    mem.Write32(offset + 4 * j, v32);
  }

  /** `acx_write_fw` */
  method WriteFw(mem: SlaveMem, image: Image, offset: nat) returns (res: nat)
    requires Loaded(image) && InMemory(mem.words.Length, image, offset)
    modifies mem, mem.words
    ensures mem.words[..] == Written(old(mem.words[..]), image, offset) && HoldsBytes(mem.words[..], image, offset)
    ensures res == if SumsUp(image) then OK else NOT_OK
  {
    WrittenHolds(mem.words[..], image, offset);
    HoldsInBytes(Written(mem.words[..], image, offset), image, offset);
    res := WriteWords(mem, image, offset);
  }

  /** The loop of the upload, and its end. */
  method WriteWords(mem: SlaveMem, image: Image, offset: nat) returns (res: nat)
    requires Loaded(image) && InMemory(mem.words.Length, image, offset)
    modifies mem, mem.words
    ensures mem.words[..] == Written(old(mem.words[..]), image, offset)
    ensures res == if SumsUp(image) then OK else NOT_OK
  {
    ghost var w := mem.words[..];
    var data := image.data;
    ChecksumStart(image);
    var sum: Word := WordSum(image.size);
    var j: nat, size: nat := 0, image.size / 4;
    assert w == UpTo(w, image, offset / 4, 0);
    while j < size
      invariant j <= size
      invariant sum == Checksum(image, 4 * j)
      invariant mem.words[..] == UpTo(w, image, offset / 4, j)
    {
      var v32 := BeWord(data, j);
      ChecksumNextWord(image, j);
      WordSumOf(data, j);
      sum := Add(sum, Sum4(data[4 * j], data[4 * j + 1], data[4 * j + 2], data[4 * j + 3]));
      WriteWord(mem, image, offset, j, v32, w);
      j := j + 1;
    }
    res := if sum != image.chksum then NOT_OK else OK;
  }

  /** `acx_validate_fw`: sound and complete, whatever the card's memory holds. */
  method ValidateFw(mem: SlaveMem, image: Image, offset: nat) returns (res: nat)
    requires Loaded(image) && InMemory(mem.words.Length, image, offset)
    modifies mem
    ensures res == OK <==> HoldsImage(mem.words[..], image, offset) && SumsUp(image)
    ensures res == OK ==> HoldsBytes(mem.words[..], image, offset)
    ensures res == OK || res == NOT_OK
  {
    HoldsInBytes(mem.words[..], image, offset);
    res := CompareWords(mem, image, offset);
  }

  /** The first j words of the image are there. */
  ghost predicate HoldsUpTo(words: seq<Word>, data: seq<Byte>, lo: nat, j: nat)
    requires lo + j <= |words| && 4 * j <= |data|
  {
    forall i: nat :: i < j ==> words[lo + i] == BeWord(data, i)
  }

  lemma HoldsOneMore(words: seq<Word>, data: seq<Byte>, lo: nat, j: nat)
    requires lo + j < |words| && 4 * j + 4 <= |data| && HoldsUpTo(words, data, lo, j)
    ensures HoldsUpTo(words, data, lo, j + 1) <==> words[lo + j] == BeWord(data, j)
  {
  }

  lemma HoldsNoMore(words: seq<Word>, data: seq<Byte>, lo: nat, j: nat, n: nat)
    requires j < n && lo + n <= |words| && 4 * n <= |data| && words[lo + j] != BeWord(data, j)
    ensures !HoldsUpTo(words, data, lo, n)
  {
  }

  /** Word j: read back, compared, and added to the sum. */
  method CompareWord(mem: SlaveMem, image: Image, offset: nat, j: nat, sum: Word) returns (same: bool, next: Word)
    requires offset / 4 + j < mem.words.Length && 4 * j + 4 <= |image.data| && sum == Checksum(image, 4 * j)
    modifies mem
    ensures same == (mem.words[..][offset / 4 + j] == BeWord(image.data, j))
    ensures same ==> next == Checksum(image, 4 * j + 4)
  {
    WordAddress(offset, j);
    ChecksumNextWord(image, j);
    var w32 := mem.Read32(offset + 4 * j);
    same, next := w32 == BeWord(image.data, j), Add(sum, WordSum(w32));
  }

  /** The loop of the verification, and its end. */
  method CompareWords(mem: SlaveMem, image: Image, offset: nat) returns (res: nat)
    requires Loaded(image) && InMemory(mem.words.Length, image, offset)
    modifies mem
    ensures res == OK <==> HoldsUpTo(mem.words[..], image.data, offset / 4, image.size / 4) && SumsUp(image)
    ensures res == OK || res == NOT_OK
  {
    ChecksumStart(image);
    ghost var w, lo := mem.words[..], offset / 4;
    var sum: Word := WordSum(image.size);
    var j: nat, size: nat := 0, image.size / 4;
    while j < size
      invariant j <= size && mem.words[..] == w
      invariant sum == Checksum(image, 4 * j) && HoldsUpTo(w, image.data, lo, j)
    {
      var same;
      same, sum := CompareWord(mem, image, offset, j, sum);
      if !same {
        HoldsNoMore(w, image.data, lo, j, size);
        return NOT_OK;
      }
      HoldsOneMore(w, image.data, lo, j);
      j := j + 1;
    }
    res := if sum != image.chksum then NOT_OK else OK;
  }

  /** After a write to memory that keeps what it is given, verification succeeds just if the write did. */
  method WriteThenValidate(mem: SlaveMem, image: Image, offset: nat) returns (written: nat, valid: nat)
    requires Loaded(image) && InMemory(mem.words.Length, image, offset)
    modifies mem, mem.words
    ensures valid == written == if SumsUp(image) then OK else NOT_OK
  {
    WrittenHolds(mem.words[..], image, offset);
    written := WriteFw(mem, image, offset);
    valid := ValidateFw(mem, image, offset);
  }

  /** The card's memory after t attempts, when `noise` is what becomes of it after each write. */
  ghost function AfterTries(words: seq<Word>, image: Image, noise: (nat, seq<Word>) -> seq<Word>, t: nat)
    : (ws: seq<Word>)
    requires Loaded(image) && InMemory(|words|, image, 0)
    requires forall k, ws :: |noise(k, ws)| == |ws|
    ensures |ws| == |words|
  {
    if t == 0 then words else noise(t, Written(AfterTries(words, image, noise, t - 1), image, 0))
  }

  ghost predicate ReadsBack(words: seq<Word>, image: Image, noise: (nat, seq<Word>) -> seq<Word>, t: nat)
    requires Loaded(image) && InMemory(|words|, image, 0)
    requires forall k, ws :: |noise(k, ws)| == |ws|
  {
    HoldsImage(AfterTries(words, image, noise, t), image, 0)
  }

  method Disturb(mem: SlaveMem, ws: seq<Word>)
    requires |ws| == mem.words.Length
    modifies mem.words
    ensures mem.words[..] == ws
  {
    forall i | 0 <= i < mem.words.Length {
      mem.words[i] := ws[i];
    }
  }

  /** One attempt: write, and verify if that went well. */
  method TryUpload(mem: SlaveMem, image: Image, noise: (nat, seq<Word>) -> seq<Word>, try: nat, ghost w: seq<Word>)
    returns (res: nat)
    requires Loaded(image) && InMemory(mem.words.Length, image, 0) && 0 < try && |w| == mem.words.Length
    requires forall k, ws :: |noise(k, ws)| == |ws|
    requires mem.words[..] == AfterTries(w, image, noise, try - 1)
    modifies mem, mem.words
    ensures mem.words[..] == AfterTries(w, image, noise, try)
    ensures res == OK <==> SumsUp(image) && ReadsBack(w, image, noise, try)
    ensures res == OK ==> HoldsImage(mem.words[..], image, 0) && HoldsBytes(mem.words[..], image, 0)
  {
    res := WriteFw(mem, image, 0);
    Disturb(mem, noise(try, mem.words[..]));
    if res == OK {
      res := ValidateFw(mem, image, 0);
    }
  }

  /**
   `_acx_upload_fw` on memory that may go wrong between write and verification: it succeeds just if the
   checksum is right and one of five attempts reads back, and success means that the card holds the image.
   */
  method UploadFw(mem: SlaveMem, image: Image, noise: (nat, seq<Word>) -> seq<Word>) returns (res: nat)
    requires Loaded(image) && InMemory(mem.words.Length, image, 0)
    requires forall k, ws :: |noise(k, ws)| == |ws|
    modifies mem, mem.words
    ensures res == OK ==> HoldsImage(mem.words[..], image, 0) && HoldsBytes(mem.words[..], image, 0)
    ensures res == OK <==>
      SumsUp(image) && exists t: nat :: 1 <= t <= 5 && ReadsBack(old(mem.words[..]), image, noise, t)
  {
    ghost var w := mem.words[..];
    res := NOT_OK;
    var try: nat := 1;
    while try <= TRIES
      invariant 1 <= try <= TRIES + 1 && res != OK
      invariant mem.words[..] == AfterTries(w, image, noise, try - 1)
      invariant SumsUp(image) ==>
        forall t: nat :: 1 <= t < try ==> !ReadsBack(w, image, noise, t)
    {
      res := TryUpload(mem, image, noise, try, w);
      if res == OK {
        return;
      }
      try := try + 1;
    }
  }

  // ---- The TNETW1450 USB boot ----

  lemma ConcatAdd(transfers: seq<seq<Byte>>, t: seq<Byte>)
    ensures Concat(transfers + [t]) == Concat(transfers) + t
  {
    assert (transfers + [t])[..|transfers|] == transfers;
  }

  /** The number of blocks that size bytes need, see CountIsCeiling. */
  function BlockCount(size: nat): nat {
    if size == 0 then 0 else if size <= USB_BLOCK then 1 else BlockCount(size - USB_BLOCK) + 1
  }

  lemma {:induction false} CountIsCeiling(size: nat)
    ensures BlockCount(size) == (size + 2047) / 2048
  {
    if size <= USB_BLOCK {
    } else {
      CountIsCeiling(size - USB_BLOCK);
    }
  }

  lemma {:induction false} CountOf(n: nat, size: nat)
    requires size <= Span(n, USB_BLOCK) < size + USB_BLOCK
    ensures BlockCount(size) == n
  {
    if size <= USB_BLOCK {
    } else {
      CountOf(n - 1, size - USB_BLOCK);
    }
  }

  /** `acxusb_fw_needs_padding`, in unsigned 32-bit arithmetic. */
  function NeedsPadding(size: Word): (r: bool)
    ensures r <==> BlockCount(size) % 2 == 0
  {
    CountIsCeiling(size);
    var numXfers: nat := (size - 1) % 0x1_0000_0000 / 2048 + 1;
    numXfers % 2 == 0
  }

  /** The word at b of dst is the word at a of src with its bytes in the opposite order. */
  predicate Swapped(src: seq<Byte>, a: nat, dst: seq<Byte>, b: nat) {
    && a + 4 <= |src| && b + 4 <= |dst|
    && dst[b] == src[a + 3] && dst[b + 1] == src[a + 2] && dst[b + 2] == src[a + 1] && dst[b + 3] == src[a]
  }

  lemma SwappedStay(src: seq<Byte>, dst: seq<Byte>, dst': seq<Byte>, i: nat)
    requires 4 * i <= |dst| == |dst'| && dst'[..4 * i] == dst[..4 * i]
    requires forall j: nat :: j < i ==> Swapped(src, 4 * j, dst, 4 * j)
    ensures forall j: nat :: j < i ==> Swapped(src, 4 * j, dst', 4 * j)
  {
    forall j: nat | j < i
      ensures Swapped(src, 4 * j, dst', 4 * j)
    {
      assert Swapped(src, 4 * j, dst, 4 * j);
      assert forall k :: 0 <= k < 4 * i ==> dst'[k] == dst'[..4 * i][k] == dst[..4 * i][k] == dst[k];
    }
  }

  /** The swap loop over one block: whole words are swapped in place, the last partial one too. */
  method SwapBlock(buf: array<Byte>, n: nat)
    requires n <= buf.Length == USB_BLOCK
    modifies buf
    ensures forall j: nat :: 4 * j < n && 4 * j + 4 <= USB_BLOCK ==> Swapped(old(buf[..]), 4 * j, buf[..], 4 * j)
  {
    ghost var b := buf[..];
    var i: nat := 0;
    while 4 * i < n
      invariant i <= WordCount(n)
      invariant forall j: nat :: j < i ==> Swapped(b, 4 * j, buf[..], 4 * j)
      invariant buf[4 * i..] == b[4 * i..]
    {
      ghost var was := buf[..];
      assert forall k | 0 <= k < 4 :: buf[4 * i + k] == buf[4 * i..][k] == b[4 * i + k];
      buf[4 * i], buf[4 * i + 1], buf[4 * i + 2], buf[4 * i + 3] :=
        buf[4 * i + 3], buf[4 * i + 2], buf[4 * i + 1], buf[4 * i];
      SwappedStay(b, was, buf[..], i);
      i := i + 1;
    }
  }

  /** The block of the image at offset, with the bytes of its whole words in the opposite order. */
  ghost predicate Piece(data: seq<Byte>, offset: nat, t: seq<Byte>) {
    && offset <= |data| && |t| == Min(|data| - offset, USB_BLOCK)
    && forall j: nat :: 4 * j + 4 <= |t| ==> Swapped(data, offset + 4 * j, t, 4 * j)
  }

  lemma PieceSwapped(data: seq<Byte>, offset: nat, b: seq<Byte>, c: seq<Byte>, n: nat)
    requires |b| == |c| == USB_BLOCK && offset <= |data| && n == Min(|data| - offset, USB_BLOCK)
    requires forall i :: 0 <= i < n ==> b[i] == data[offset + i]
    requires forall j: nat :: 4 * j < n && 4 * j + 4 <= USB_BLOCK ==> Swapped(b, 4 * j, c, 4 * j)
    ensures Piece(data, offset, c[..n])
  {
    forall j: nat | 4 * j + 4 <= n
      ensures Swapped(data, offset + 4 * j, c[..n], 4 * j)
    {
      assert Swapped(b, 4 * j, c, 4 * j);
    }
  }

  /** One block of the image: its whole words are sent in the order in which the card keeps them. */
  method BlockOf(buf: array<Byte>, data: seq<Byte>, offset: nat) returns (t: seq<Byte>)
    requires buf.Length == USB_BLOCK && offset < |data|
    modifies buf
    ensures Piece(data, offset, t)
  {
    var blkLen := Min(|data| - offset, USB_BLOCK);
    forall i | 0 <= i < blkLen {
      buf[i] := data[offset + i];
    }
    ghost var b := buf[..];
    SwapBlock(buf, blkLen);
    t := buf[..blkLen];
    PieceSwapped(data, offset, b, buf[..], blkLen);
    assert t == buf[..][..blkLen];
  }

  /** Of the image's first n bytes, the whole words have been sent with their bytes in the opposite order. */
  ghost predicate SentWords(data: seq<Byte>, n: nat, sent: seq<Byte>) {
    n <= |data| && n <= |sent| && forall j: nat :: 4 * j + 4 <= n ==> Swapped(data, 4 * j, sent, 4 * j)
  }

  lemma BlocksJoin(data: seq<Byte>, sent: seq<Byte>, offset: nat, t: seq<Byte>)
    requires offset % 4 == 0 && |sent| == offset && SentWords(data, offset, sent) && Piece(data, offset, t)
    ensures SentWords(data, offset + |t|, sent + t)
  {
    forall j: nat | 4 * j + 4 <= offset + |t|
      ensures Swapped(data, 4 * j, sent + t, 4 * j)
    {
      if 4 * j < offset {
        assert Swapped(data, 4 * j, sent, 4 * j);
      } else {
        var k: nat := j - offset / 4;
        assert offset + 4 * k == 4 * j && Swapped(data, offset + 4 * k, t, 4 * k);
      }
    }
  }

  lemma SentStays(data: seq<Byte>, n: nat, sent: seq<Byte>, more: seq<Byte>)
    requires SentWords(data, n, sent)
    ensures SentWords(data, n, sent + more)
  {
    forall j: nat | 4 * j + 4 <= n
      ensures Swapped(data, 4 * j, sent + more, 4 * j)
    {
      assert Swapped(data, 4 * j, sent, 4 * j);
    }
  }

  /** The byte sum of the USB boot, over the size field and the whole of the data. */
  method UsbSum(image: Image) returns (sum: Word)
    requires Sized(image)
    ensures sum == Checksum(image, image.size)
  {
    ChecksumStart(image);
    sum := WordSum(image.size);
    var i: nat := 0;
    while i < image.size
      invariant i <= image.size
      invariant sum == Checksum(image, i)
    {
      ChecksumNext(image, i);
      sum := Add(sum, image.data[i]);
      i := i + 1;
    }
  }

  /** The first offset bytes of the image have been sent, in blocks of which only the last may be short. */
  ghost predicate Blocks(data: seq<Byte>, offset: nat, transfers: seq<seq<Byte>>) {
    && |Concat(transfers)| == offset && SentWords(data, offset, Concat(transfers))
    && offset == Min(|data|, Span(|transfers|, USB_BLOCK))
    && Span(|transfers|, USB_BLOCK) < |data| + USB_BLOCK
    && NoneTooLong(transfers)
  }

  predicate NoneTooLong(transfers: seq<seq<Byte>>) {
    forall t :: t in transfers ==> 0 < |t| <= USB_BLOCK
  }

  lemma OneMoreShort(transfers: seq<seq<Byte>>, t: seq<Byte>)
    requires NoneTooLong(transfers) && 0 < |t| <= USB_BLOCK
    ensures NoneTooLong(transfers + [t])
  {
  }

  lemma OneMoreSent(data: seq<Byte>, offset: nat, transfers: seq<seq<Byte>>, t: seq<Byte>)
    requires offset % 4 == 0 && |Concat(transfers)| == offset && Piece(data, offset, t)
    requires SentWords(data, offset, Concat(transfers))
    ensures SentWords(data, offset + |t|, Concat(transfers + [t])) && |Concat(transfers + [t])| == offset + |t|
  {
    BlocksJoin(data, Concat(transfers), offset, t);
    ConcatAdd(transfers, t);
  }

  lemma NoBlocks(data: seq<Byte>)
    ensures Blocks(data, 0, [])
  {
  }

  lemma WholeBlocks(data: seq<Byte>, offset: nat, transfers: seq<seq<Byte>>)
    requires Blocks(data, offset, transfers) && offset < |data|
    ensures offset % 4 == 0
  {
    SpanAligned(|transfers|, USB_BLOCK);
  }

  /** One block more: all blocks but the last are full. */
  lemma OneBlockMore(size: nat, n: nat, offset: nat, len: nat)
    requires offset == Min(size, Span(n, USB_BLOCK)) && offset < size && len == Min(size - offset, USB_BLOCK)
    ensures 0 < len <= USB_BLOCK
    ensures offset + len == Min(size, Span(n + 1, USB_BLOCK)) && Span(n + 1, USB_BLOCK) < size + USB_BLOCK
  {
    assert Span(n + 1, USB_BLOCK) == Span(n, USB_BLOCK) + USB_BLOCK;
  }

  lemma NextBlock(data: seq<Byte>, offset: nat, transfers: seq<seq<Byte>>, t: seq<Byte>,
                  transfers': seq<seq<Byte>>, next: nat)
    requires Blocks(data, offset, transfers) && offset < |data| && offset % 4 == 0
    requires Piece(data, offset, t) && transfers' == transfers + [t] && next == offset + |t|
    ensures offset < next <= |data| && Blocks(data, next, transfers')
  {
    OneBlockMore(|data|, |transfers|, offset, |t|);
    OneMoreSent(data, offset, transfers, t);
    OneMoreShort(transfers, t);
  }

  lemma AllBlocks(data: seq<Byte>, transfers: seq<seq<Byte>>)
    requires Blocks(data, |data|, transfers)
    ensures |transfers| == BlockCount(|data|)
  {
    CountOf(|transfers|, |data|);
  }

  /** One round of the upload loop. */
  method SendNext(buf: array<Byte>, data: seq<Byte>, offset: nat, sent: seq<seq<Byte>>)
    returns (transfers: seq<seq<Byte>>, next: nat)
    requires buf.Length == USB_BLOCK && Blocks(data, offset, sent) && offset < |data| && offset % 4 == 0
    modifies buf
    ensures Blocks(data, next, transfers) && offset < next <= |data|
  {
    var t := BlockOf(buf, data, offset);
    transfers, next := sent + [t], offset + |t|;
    NextBlock(data, offset, sent, t, transfers, next);
  }

  /** The upload loop. */
  method SendBlocks(data: seq<Byte>) returns (transfers: seq<seq<Byte>>)
    ensures Blocks(data, |data|, transfers)
  {
    var buf := new Byte[USB_BLOCK];
    var offset: nat := 0;
    transfers := [];
    NoBlocks(data);
    while offset < |data|
      invariant Blocks(data, offset, transfers)
    {
      WholeBlocks(data, offset, transfers);
      transfers, offset := SendNext(buf, data, offset, transfers);
    }
  }

  /** An odd number of transfers: the words of the image in blocks, then possibly four bytes of padding. */
  ghost predicate Sent(image: Image, transfers: seq<seq<Byte>>)
    requires Sized(image)
  {
    && |transfers| % 2 == 1
    && (Blocks(image.data, image.size, transfers)
        || (Blocks(image.data, image.size, transfers[..|transfers| - 1])
            && transfers[|transfers| - 1] == [0, 0, 0, 0]))
  }

  lemma Padded(image: Image, blocks: seq<seq<Byte>>)
    requires Sized(image) && Blocks(image.data, image.size, blocks)
    ensures NeedsPadding(image.size) ==>
      Sent(image, blocks + [[0, 0, 0, 0]]) && |Concat(blocks + [[0, 0, 0, 0]])| == image.size + 4
    ensures SentWords(image.data, image.size, Concat(blocks + [[0, 0, 0, 0]]))
    ensures !NeedsPadding(image.size) ==> Sent(image, blocks) && |Concat(blocks)| == image.size
  {
    var pad: seq<Byte> := [0, 0, 0, 0];
    AllBlocks(image.data, blocks);
    ConcatAdd(blocks, pad);
    SentStays(image.data, image.size, Concat(blocks), pad);
    assert (blocks + [pad])[..|blocks|] == blocks;
  }

  /**
   The upload of `acxusb_boot`: a command goes out first and announces the number of bytes to come, even if
   the checksum turns out to be wrong; then none of the image is sent. Else it is sent in an odd number of
   transfers, and as many bytes as announced.
   */
  method UsbBoot(image: Image) returns (announced: Word, transfers: seq<seq<Byte>>)
    requires Sized(image)
    ensures if Checksum(image, image.size) == image.chksum
      then
        && Sent(image, transfers) && |Concat(transfers)| == announced
        && SentWords(image.data, image.size, Concat(transfers))
      else transfers == []
    ensures announced == image.size + if (image.size + 2047) / 2048 % 2 == 0 then 4 else 0
  {
    CountIsCeiling(image.size);
    var padding := NeedsPadding(image.size);
    announced := if padding then image.size + 4 else image.size;
    transfers := [];
    var sum := UsbSum(image);
    if sum != image.chksum {
      return;
    }
    transfers := SendBlocks(image.data);
    Padded(image, transfers);
    if padding {
      transfers := transfers + [[0, 0, 0, 0]];
    }
  }
}
