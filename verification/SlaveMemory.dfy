/**
 The card's memory behind the slave-memory port, and the driver's accessors to it.

 The host sees three address registers (control, chain pointer, address) and a data register; every
 access is a sequence of register accesses. In basic mode a data access goes to the word at the
 address register. In chain mode the address register steps by one word after each data access and,
 at the end of a block, moves to the first data word of the block that the first word of the current
 block links to.
 */
module SlaveMemory {
  import opened Words
  import opened BlockChains

  /** Control register value of the basic mode. */
  const BASIC_MODE: Word := 0
  /** Chain mode (bits 17:16 == 2) with the data portion one word into the block (bits 5:2 == 1). */
  const CHAIN_MODE: Word := 0x2_0004
  /** WLAN_A4FR_MAXLEN_WEP_FCS: the longest frame, and the size of the bounce buffers. */
  const MAX_FRAME: nat := 2346
  /** Size of the bounce buffer of the plain block copy. */
  const COPY_BUFFER: nat := 512

  /** Number of words that hold count bytes. */
  function WordCount(count: int): (r: nat)
    ensures count <= 0 ==> r == 0
    ensures 0 < count ==> count <= 4 * r < count + 4
  {
    if count <= 0 then 0 else (count + 3) / 4
  }

  function ByteAt(w: seq<Word>, a: nat): Byte
    requires a / 4 < |w|
  {
    ByteOf(w[a / 4], a % 4)
  }

  function Min(a: nat, b: nat): nat {
    if a < b then a else b
  }

  /** `((u32 *) src)[j]` */
  function SourceWord(src: seq<Byte>, j: nat): Word
    requires 4 * j + 4 <= |src|
  {
    Pack(src[4 * j], src[4 * j + 1], src[4 * j + 2], src[4 * j + 3])
  }

  /** The first k words of a byte buffer, as the host reads them. */
  function WordsOf(src: seq<Byte>, k: nat): (ws: seq<Word>)
    requires 4 * k <= |src|
    ensures |ws| == k
  {
    seq(k, j requires 0 <= j < k => SourceWord(src, j))
  }

  function BytesOf(ws: seq<Word>): (bs: seq<Byte>)
    ensures |bs| == 4 * |ws|
  {
    seq(4 * |ws|, i requires 0 <= i < 4 * |ws| => ByteOf(ws[i / 4], i % 4))
  }

  lemma BytesOfWordsOf(src: seq<Byte>, k: nat)
    requires 4 * k <= |src|
    ensures BytesOf(WordsOf(src, k)) == src[..4 * k]
  {
    forall i | 0 <= i < 4 * k
      ensures BytesOf(WordsOf(src, k))[i] == src[i]
    {
      var j := i / 4;
      BytesPack(src[4 * j], src[4 * j + 1], src[4 * j + 2], src[4 * j + 3]);
    }
  }

  lemma StoreWordByte(w: seq<Word>, a: nat, v: Word, b: nat)
    requires a % 4 == 0 && a / 4 < |w| && b / 4 < |w|
    ensures ByteAt(w[a / 4 := v], b) == if a <= b < a + 4 then ByteOf(v, b - a) else ByteAt(w, b)
  {
    if a <= b < a + 4 {
      assert b / 4 == a / 4 && b % 4 == b - a;
    } else {
      assert b / 4 != a / 4;
    }
  }

  /** The memory w differs from w0 in that the bytes of src have been written at address d. */
  predicate Copied(w0: seq<Word>, w: seq<Word>, d: nat, src: seq<Byte>) {
    && |w| == |w0|
    && forall b :: 0 <= b < 4 * |w| ==>
      ByteAt(w, b) == if d <= b < d + |src| then src[b - d] else ByteAt(w0, b)
  }

  /** Copying one more word. */
  lemma CopyStep(w0: seq<Word>, w: seq<Word>, d: nat, src: seq<Byte>, i: nat)
    requires d % 4 == 0 && i % 4 == 0 && i + 4 <= |src| && (d + i) / 4 < |w|
    requires Copied(w0, w, d, src[..i])
    ensures Copied(w0, w[(d + i) / 4 := Pack(src[i], src[i + 1], src[i + 2], src[i + 3])], d, src[..i + 4])
  {
    var v := Pack(src[i], src[i + 1], src[i + 2], src[i + 3]);
    var w' := w[(d + i) / 4 := v];
    BytesPack(src[i], src[i + 1], src[i + 2], src[i + 3]);
    forall b | 0 <= b < 4 * |w'|
      ensures ByteAt(w', b) == if d <= b < d + (i + 4) then src[..i + 4][b - d] else ByteAt(w0, b)
    {
      StoreWordByte(w, d + i, v, b);
      assert ByteAt(w, b) == if d <= b < d + i then src[..i][b - d] else ByteAt(w0, b);
    }
  }

  /** `*((u32 *) destination + m) = v` */
  method StoreBytes(destination: array<Byte>, m: nat, v: Word)
    requires 4 * m + 4 <= destination.Length
    modifies destination
    ensures destination[..] == old(destination[..4 * m]) + BytesOf([v]) + old(destination[4 * m + 4..])
  {
    destination[4 * m], destination[4 * m + 1], destination[4 * m + 2], destination[4 * m + 3] :=
      ByteOf(v, 0), ByteOf(v, 1), ByteOf(v, 2), ByteOf(v, 3);
  }

  /** Filling a buffer with words, one word further. */
  lemma FillStep(buf: seq<Byte>, ws: seq<Word>, j: nat)
    requires j < |ws| && 4 * |ws| <= |buf|
    ensures var b := BytesOf(ws[..j]) + buf[4 * j..];
            b[..4 * j] + BytesOf([ws[j]]) + b[4 * j + 4..] == BytesOf(ws[..j + 1]) + buf[4 * (j + 1)..]
  {
    forall i | 0 <= i < 4
      ensures BytesOf(ws[..j + 1])[4 * j + i] == BytesOf([ws[j]])[i]
    {
      assert (4 * j + i) / 4 == j && (4 * j + i) % 4 == i;
    }
    forall i | 0 <= i < 4 * j
      ensures BytesOf(ws[..j + 1])[i] == BytesOf(ws[..j])[i]
    {
      assert i / 4 < j;
    }
  }

  lemma BytesFromWord(w: seq<Word>, a: nat, k: nat)
    requires a % 4 == 0 && (a + k) / 4 < |w|
    ensures ByteAt(w, a + k) == ByteOf(w[a / 4 + k / 4], k % 4)
  {
    assert (a + k) / 4 == a / 4 + k / 4 && (a + k) % 4 == k % 4;
  }

  class SlaveMem {
    /** The card's memory, word by word. */
    const words: array<Word>
    /** The size of a memory block in bytes, as configured on the card. */
    const blockSize: nat
    var ctl: Word
    var cp: nat
    var addr: nat

    constructor (words: array<Word>, blockSize: nat)
      ensures this.words == words && this.blockSize == blockSize
    {
      this.words := words;
      this.blockSize := blockSize;
      ctl, cp, addr := BASIC_MODE, 0, 0;
    }

    /** The first word of the current block, as the card follows it. */
    ghost function NextBlock(): nat
      reads this, words
    {
      if cp / 4 < words.Length then Follow(words[cp / 4]) else 0
    }

    ghost predicate AtBlockEnd()
      reads this
    {
      ctl == CHAIN_MODE && addr + 4 == cp + blockSize
    }

    /** The card's step after a data access. */
    method Advance()
      modifies this`cp, this`addr
      ensures cp == if old(AtBlockEnd()) then old(NextBlock()) else old(cp)
      ensures addr ==
        if ctl != CHAIN_MODE then old(addr) else if old(AtBlockEnd()) then cp + 4 else old(addr) + 4
    {
      if ctl == CHAIN_MODE {
        addr := addr + 4;
        if addr == cp + blockSize {
          cp := if cp / 4 < words.Length then Follow(words[cp / 4]) else 0;
          addr := cp + 4;
        }
      }
    }

    method WriteData(v: Word)
      requires addr / 4 < words.Length
      modifies this`cp, this`addr, words
      ensures words[..] == old(words[..])[old(addr) / 4 := v]
      ensures old(addr / 4 != cp / 4) ==> cp == if old(AtBlockEnd()) then old(NextBlock()) else old(cp)
      ensures addr ==
        if ctl != CHAIN_MODE then old(addr) else if old(AtBlockEnd()) then cp + 4 else old(addr) + 4
    {
      words[addr / 4] := v;
      Advance();
    }

    method ReadData() returns (v: Word)
      requires addr / 4 < words.Length
      modifies this`cp, this`addr
      ensures v == words[old(addr) / 4]
      ensures cp == if old(AtBlockEnd()) then old(NextBlock()) else old(cp)
      ensures addr ==
        if ctl != CHAIN_MODE then old(addr) else if old(AtBlockEnd()) then cp + 4 else old(addr) + 4
    {
      v := words[addr / 4];
      Advance();
    }

    method Write32(a: nat, v: Word)
      requires a / 4 < words.Length
      modifies this, words
      ensures words[..] == old(words[..])[a / 4 := v]
    {
      ctl := BASIC_MODE;
      addr := a;
      WriteData(v);
    }

    method Read32(a: nat) returns (v: Word)
      requires a / 4 < words.Length
      modifies this
      ensures v == words[a / 4]
    {
      ctl := BASIC_MODE;
      addr := a;
      v := ReadData();
    }

    /** Changes exactly the byte at a. */
    method Write8(a: nat, val: Byte)
      requires a / 4 < words.Length
      modifies this, words
      ensures words[..] == old(words[..])[a / 4 := SetByte(old(words[a / 4]), a % 4, val)]
      ensures forall b :: 0 <= b < 4 * words.Length ==>
        ByteAt(words[..], b) == if b == a then val else ByteAt(old(words[..]), b)
    {
      var base := a / 4 * 4;
      var data := Read32(base);
      SetByteBytes(data, a % 4, val);
      Write32(base, SetByte(data, a % 4, val));
    }

    method Read8(a: nat) returns (val: Byte)
      requires a / 4 < words.Length
      modifies this
      ensures val == ByteAt(words[..], a)
    {
      var data := Read32(a / 4 * 4);
      val := ByteOf(data, a % 4);
    }

    /** Changes the bytes at a and a + 1, but never leaves the word: at a % 4 == 3 only the byte at a. */
    method Write16(a: nat, val: Half)
      requires a / 4 < words.Length
      modifies this, words
      ensures words[..] == old(words[..])[a / 4 := SetHalf(old(words[a / 4]), a % 4, val)]
      ensures forall b :: 0 <= b < 4 * words.Length ==>
        ByteAt(words[..], b) ==
          if b == a then val % 0x100
          else if b == a + 1 && a % 4 != 3 then val / 0x100
          else ByteAt(old(words[..]), b)
    {
      var base := a / 4 * 4;
      var data := Read32(base);
      SetHalfBytes(data, a % 4, val);
      Write32(base, SetHalf(data, a % 4, val));
    }

    method Read16(a: nat) returns (val: Half)
      requires a / 4 < words.Length
      modifies this
      ensures val == ByteAt(words[..], a) + if a % 4 == 3 then 0 else 0x100 * ByteAt(words[..], a + 1)
    {
      var data := Read32(a / 4 * 4);
      HalfOfBytes(data, a % 4);
      val := HalfOf(data, a % 4);
    }

    /**
     Writes min(count, 512) bytes of source at a word-aligned address, and nothing else: the last,
     partial word is merged into the word that is already there.
     */
    method CopyTo(destination: nat, source: seq<Byte>, count: nat)
      requires destination % 4 == 0
      requires var n := Min(count, COPY_BUFFER); n <= |source| && destination + n <= 4 * words.Length
      modifies this`addr, this`cp, words
      ensures forall b :: 0 <= b < 4 * words.Length ==>
        ByteAt(words[..], b) ==
          if destination <= b < destination + Min(count, 512) then source[b - destination]
          else ByteAt(old(words[..]), b)
    {
      var n := Min(count, COPY_BUFFER);
      ghost var w := words[..];
      var i := 0;
      while n - i >= 4
        invariant 0 <= i <= n && i % 4 == 0
        invariant Copied(w, words[..], destination, source[..i])
      {
        CopyStep(w, words[..], destination, source, i);
        addr := destination + i;
        WriteData(Pack(source[i], source[i + 1], source[i + 2], source[i + 3]));
        i := i + 4;
      }
      if i < n {
        CopyTail(destination + i, source[i..n]);
      }
    }

    /** The last one to three bytes of a copy: read the word, merge, write it back. */
    method CopyTail(destination: nat, source: seq<Byte>)
      requires destination % 4 == 0 && 1 <= |source| <= 3 && destination < 4 * words.Length
      modifies this`addr, this`cp, words
      ensures forall b :: 0 <= b < 4 * words.Length ==>
        ByteAt(words[..], b) ==
          if destination <= b < destination + |source| then source[b - destination] else ByteAt(old(words[..]), b)
    {
      addr := destination;
      var tmp := ReadData();
      var i := 0;
      while i < |source|
        invariant 0 <= i <= |source|
        invariant words[..] == old(words[..])
        invariant forall k :: 0 <= k < 4 ==>
          ByteOf(tmp, k) == if k < i then source[k] else ByteOf(old(words[destination / 4]), k)
      {
        SetByteBytes(tmp, i, source[i]);
        tmp := SetByte(tmp, i, source[i]);
        i := i + 1;
      }
      addr := destination;
      WriteData(tmp);
    }

    /** Reads count bytes from a word-aligned address into the buffer, and changes nothing behind them. */
    method CopyFrom(destination: array<Byte>, source: nat, count: nat)
      requires source % 4 == 0 && source + count <= 4 * words.Length && count <= destination.Length
      modifies this`addr, this`cp, destination
      ensures forall k :: 0 <= k < count ==> destination[k] == ByteAt(words[..], source + k)
      ensures forall k :: count <= k < destination.Length ==> destination[k] == old(destination[k])
    {
      ghost var ws := words[source / 4..source / 4 + count / 4];
      var full := CopyWords(destination, source / 4, count, ws);
      label L:
      if 4 * full < count {
        ReadTail(destination, 4 * full, source + 4 * full, count - 4 * full);
      }
      forall k: nat | k < count
        ensures destination[k] == ByteAt(words[..], source + k)
      {
        BytesFromWord(words[..], source, k);
        if k < 4 * full {
          assert destination[k] == old@L(destination[..])[k] == BytesOf(ws)[k] == ByteOf(ws[k / 4], k % 4);
        }
      }
    }

    /** The whole words of a copy: the words ws, which start at word base. */
    method CopyWords(destination: array<Byte>, base: nat, count: nat, ghost ws: seq<Word>) returns (j: nat)
      requires base + |ws| <= words.Length && ws == words[base..base + |ws|]
      requires |ws| == count / 4 && count <= destination.Length
      modifies this`addr, this`cp, destination
      ensures j == |ws|
      ensures destination[..] == BytesOf(ws) + old(destination[..])[4 * j..]
    {
      var left := count;
      j := 0;
      while left >= 4
        invariant left == count - 4 * j && j <= |ws|
        invariant destination[..] == BytesOf(ws[..j]) + old(destination[..])[4 * j..]
      {
        FillStep(old(destination[..]), ws, j);
        var v := ReadAt(4 * (base + j), base + j);
        assert v == ws[j];
        StoreBytes(destination, j, v);
        j, left := j + 1, left - 4;
      }
      assert ws[..j] == ws;
    }

    method ReadAt(a: nat, ghost i: nat) returns (v: Word)
      requires a / 4 == i < words.Length
      modifies this`addr, this`cp
      ensures v == words[i]
    {
      addr := a;
      v := ReadData();
    }

    /** The last bytes of a copy, out of one more word. */
    method ReadTail(destination: array<Byte>, i: nat, source: nat, count: nat)
      requires source % 4 == 0 && source / 4 < words.Length && count < 4 && i + count <= destination.Length
      modifies this`addr, this`cp, destination
      ensures forall k :: 0 <= k < destination.Length ==>
        destination[k] == if i <= k < i + count then ByteOf(words[source / 4], k - i) else old(destination[k])
    {
      addr := source;
      var tmp := ReadData();
      var j := 0;
      while j < count
        invariant 0 <= j <= count
        invariant forall k :: 0 <= k < destination.Length ==>
          destination[k] == if i <= k < i + j then ByteOf(tmp, k - i) else old(destination[k])
      {
        destination[i + j] := ByteOf(tmp, j);
        j := j + 1;
      }
    }

    /** The chain bs lies in the card's memory. */
    ghost predicate HasChain(bs: seq<nat>)
      reads words
    {
      && blockSize % 32 == 0 && 32 <= blockSize
      && bs != []
      && Linked(words[..], blockSize / 4, bs)
      && Apart(blockSize / 4, bs)
    }

    /** In chain mode the next data access goes to data word r of block k of bs. */
    ghost predicate AtDataWord(bs: seq<nat>, k: nat, r: nat)
      reads this
    {
      ctl == CHAIN_MODE && k < |bs| && r + 1 < blockSize / 4 && cp == bs[k] && addr == bs[k] + 4 + 4 * r
    }

    /** The next data access goes to the data word behind word r of block k, if there is one. */
    ghost predicate AtNextDataWord(bs: seq<nat>, k: nat, r: nat)
      reads this
    {
      if r + 2 < blockSize / 4 then AtDataWord(bs, k, r + 1)
      else k + 1 < |bs| ==> AtDataWord(bs, k + 1, 0)
    }

    method StartChain(b: nat, ghost bs: seq<nat>)
      requires HasChain(bs) && bs[0] == b
      modifies this
      ensures AtDataWord(bs, 0, 0)
    {
      ctl := CHAIN_MODE;
      cp := b;
      addr := b + 4;
    }

    /** Block k of bs lies in the memory and links to block k + 1. */
    ghost predicate LinksOn(bs: seq<nat>, k: nat)
      reads words
    {
      && blockSize % 32 == 0 && 32 <= blockSize && k < |bs|
      && IsBlock(words[..], blockSize / 4, bs[k])
      && (k + 1 < |bs| ==> Follow(words[bs[k] / 4]) == bs[k + 1])
    }

    method ChainWrite(v: Word, ghost bs: seq<nat>, ghost k: nat, ghost r: nat)
      requires LinksOn(bs, k) && AtDataWord(bs, k, r)
      modifies this`cp, this`addr, words
      ensures words[..] == old(words[..])[bs[k] / 4 + 1 + r := v]
      ensures AtNextDataWord(bs, k, r)
    {
      WriteData(v);
    }

    method ChainRead(ghost bs: seq<nat>, ghost k: nat, ghost r: nat) returns (v: Word)
      requires LinksOn(bs, k) && AtDataWord(bs, k, r)
      modifies this`cp, this`addr
      ensures v == words[bs[k] / 4 + 1 + r]
      ensures AtNextDataWord(bs, k, r)
    {
      v := ReadData();
    }

    /** The next data access goes to the place of word j of a frame in bs. */
    ghost predicate AtWord(bs: seq<nat>, j: nat)
      reads this
    {
      8 <= blockSize / 4 && AtDataWord(bs, BlockIndex(blockSize / 4, j), WordIndex(blockSize / 4, j))
    }

    /** Writes word j of the frame ws behind the words already carried by bs. */
    method PutWord(v: Word, ghost bs: seq<nat>, ghost ws: seq<Word>, ghost j: nat)
      requires HasChain(bs) && AtWord(bs, j)
      requires Fits(blockSize / 4, bs, |ws|) && j < |ws| && v == ws[j]
      requires Carries(words[..], blockSize / 4, bs, ws[..j])
      modifies this`cp, this`addr, words
      ensures HasChain(bs) && (j + 1 < |ws| ==> AtWord(bs, j + 1))
      ensures Carries(words[..], blockSize / 4, bs, ws[..j + 1])
      ensures forall i :: 0 <= i < words.Length && !InData(blockSize / 4, bs, i) ==> words[i] == old(words[i])
    {
      ghost var n := blockSize / 4;
      ghost var w := words[..];
      StoreCarries(w, n, bs, ws, j);
      DataWriteKeepsLinks(w, w[DataWord(n, bs, j) := v], n, bs);
      NextDataWord(n, j);
      ChainLinks(w, n, bs, BlockIndex(n, j));
      ChainWrite(v, bs, BlockIndex(n, j), WordIndex(n, j));
      assert words[..] == w[DataWord(n, bs, j) := v];
      assert j + 1 < |ws| ==> BlockIndex(n, j + 1) < |bs|;
    }

    method GetWord(ghost bs: seq<nat>, ghost ws: seq<Word>, ghost j: nat) returns (v: Word)
      requires HasChain(bs) && AtWord(bs, j)
      requires Fits(blockSize / 4, bs, |ws|) && j < |ws|
      requires Carries(words[..], blockSize / 4, bs, ws)
      modifies this`cp, this`addr
      ensures v == ws[j] && (j + 1 < |ws| ==> AtWord(bs, j + 1))
    {
      ghost var n := blockSize / 4;
      NextDataWord(n, j);
      ChainLinks(words[..], n, bs, BlockIndex(n, j));
      v := ChainRead(bs, BlockIndex(n, j), WordIndex(n, j));
      assert v == words[DataWord(n, bs, j)] == ws[j];
      assert j + 1 < |ws| ==> BlockIndex(n, j + 1) < |bs|;
    }

    /**
     Writes a frame into the data portions of the chain bs, which starts at destination, and touches
     no link word and no other block.
     */
    method ChainCopyTo(destination: nat, source: seq<Byte>, count: nat, ghost bs: seq<nat>)
      requires HasChain(bs) && bs[0] == destination
      requires 4 * WordCount(Min(count, MAX_FRAME)) <= |source|
      requires Fits(blockSize / 4, bs, WordCount(Min(count, MAX_FRAME)))
      modifies this, words
      ensures HasChain(bs)
      ensures Carries(words[..], blockSize / 4, bs, WordsOf(source, WordCount(Min(count, 2346))))
      ensures forall i :: 0 <= i < words.Length && !InData(blockSize / 4, bs, i) ==> words[i] == old(words[i])
    {
      var left: int := Min(count, MAX_FRAME);
      ghost var ws := WordsOf(source, WordCount(left));
      StartChain(destination, bs);
      var j := 0;
      while left > 0
        invariant j + WordCount(left) == |ws|
        invariant HasChain(bs) && (left > 0 ==> AtWord(bs, j))
        invariant Carries(words[..], blockSize / 4, bs, ws[..j])
        invariant forall i :: 0 <= i < words.Length && !InData(blockSize / 4, bs, i) ==> words[i] == old(words[i])
        decreases left
      {
        PutWord(SourceWord(source, j), bs, ws, j);
        j, left := j + 1, left - 4;
      }
      assert ws[..j] == ws;
    }

    /** Reads a frame out of the data portions of the chain bs, rounded up to whole words. */
    method ChainCopyFrom(destination: array<Byte>, source: nat, count: nat, ghost bs: seq<nat>, ghost ws: seq<Word>)
      requires HasChain(bs) && bs[0] == source
      requires |ws| == WordCount(count) && Fits(blockSize / 4, bs, |ws|)
      requires Carries(words[..], blockSize / 4, bs, ws)
      requires 4 * |ws| <= destination.Length
      modifies this, destination
      ensures destination[..4 * |ws|] == BytesOf(ws)
      ensures forall k :: 4 * |ws| <= k < destination.Length ==> destination[k] == old(destination[k])
    {
      var left: int := count;
      StartChain(source, bs);
      var j := 0;
      while left > 0
        invariant j + WordCount(left) == |ws|
        invariant left > 0 ==> AtWord(bs, j)
        invariant destination[..] == BytesOf(ws[..j]) + old(destination[..])[4 * j..]
        decreases left
      {
        var v := GetWord(bs, ws, j);
        FillStep(old(destination[..]), ws, j);
        StoreBytes(destination, j, v);
        j, left := j + 1, left - 4;
      }
      assert ws[..j] == ws;
    }
  }
}
