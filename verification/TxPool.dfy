/**
 The transmit block pool in the card's memory (mem.c): the driver links the blocks into a free list,
 cuts chains off its front for frames, and splices the chains of finished frames back.
 */
module TxPool {
  import opened Words
  import opened Multiples
  import opened BlockChains
  import opened SlaveMemory

  /** Where the pool lies: `start`, `num` blocks of `size` bytes. */
  datatype Geometry = Geometry(start: nat, num: nat, size: nat) {

    /** What the driver's configuration guarantees of the pool in a memory of `words` words. */
    predicate Ok(words: nat) {
      && 0 < num && 0 < start && start % 32 == 0
      && 32 <= size && size % 32 == 0
      && Block(num) <= ADDRESS_LIMIT
      && Block(num) <= 4 * words
    }

    /** Words per block. */
    function N(): nat {
      size / 4
    }

    function Block(i: nat): nat {
      start + Span(i, size)
    }

    /** All blocks, in address order. */
    function All(): (bs: seq<nat>)
      ensures |bs| == num
    {
      seq(num, i requires 0 <= i < num => Block(i))
    }

    /** The driver's test of a block pointer. */
    predicate InRange(b: nat)
      requires 0 < num
    {
      start <= b <= Block(num - 1)
    }
  }

  /** Blocks needed for len bytes: one word of each block is reserved for the link. */
  function Needed(size: nat, len: nat): nat
    requires 4 < size
  {
    len / (size - 4) + if len % (size - 4) != 0 then 1 else 0
  }

  predicate NoDuplicates(s: seq<nat>) {
    forall j, k :: 0 <= j < k < |s| ==> s[j] != s[k]
  }

  /** Needed is the number of blocks whose data portions hold len bytes: enough, and one less is not. */
  lemma NeededIsCeiling(size: nat, len: nat)
    requires 4 < size
    ensures len <= Needed(size, len) * (size - 4) < len + (size - 4)
  {
    var m := size - 4;
    assert len == (len / m) * m + len % m;
    assert (len / m + 1) * m == (len / m) * m + m;
  }

  lemma NeededPositive(size: nat, len: nat)
    requires 4 < size && 0 < len
    ensures 0 < Needed(size, len)
  {
    NeededIsCeiling(size, len);
  }

  /** The words of a frame of len bytes, rounded up, fit into the blocks needed for it. */
  lemma NeededHolds(g: Geometry, w: nat, bs: seq<nat>, len: nat)
    requires g.Ok(w) && |bs| == Needed(g.size, len)
    ensures Fits(g.N(), bs, WordCount(len))
  {
    NeededIsCeiling(g.size, len);
    FourTimes(g.size, |bs|);
    FitsIff(g.N(), bs, WordCount(len));
  }

  lemma FourTimes(size: nat, k: nat)
    requires 4 <= size && size % 4 == 0
    ensures k * (size - 4) == 4 * (k * (size / 4 - 1))
  {
    var n := size / 4 - 1;
    assert size - 4 == 4 * n;
    assert k * (4 * n) == 4 * (k * n);
  }

  lemma BlocksAscend(g: Geometry, i: nat, j: nat)
    requires i < j
    ensures g.Block(i) + g.size <= g.Block(j)
  {
    SpanGrows(i + 1, j, g.size);
  }

  /** Two different blocks of the pool do not overlap. */
  lemma BlocksDisjoint(g: Geometry, w: nat, i: nat, j: nat)
    requires g.Ok(w) && i < j < g.num
    ensures Disjoint(g.N(), g.Block(i), g.Block(j)) && g.Block(i) != g.Block(j)
  {
    BlocksAscend(g, i, j);
    BlockAligned(g, w, i);
  }

  lemma BlockAligned(g: Geometry, w: nat, i: nat)
    requires g.Ok(w)
    ensures g.Block(i) % 32 == 0
  {
    SpanAligned(i, g.size);
  }

  lemma BlockOk(g: Geometry, w: seq<Word>, i: nat)
    requires g.Ok(|w|) && i < g.num
    ensures IsBlock(w, g.N(), g.Block(i)) && g.InRange(g.Block(i))
    ensures g.start <= g.Block(i) && g.Block(i) + g.size <= g.Block(g.num)
  {
    BlockAligned(g, |w|, i);
    BlocksAscend(g, i, g.num);
    if i + 1 < g.num {
      BlocksAscend(g, i, g.num - 1);
    }
  }

  /** All blocks of bs are pool blocks. */
  predicate FromPool(g: Geometry, bs: seq<nat>) {
    forall k :: 0 <= k < |bs| ==> bs[k] in g.All()
  }

  /** Different pool blocks are apart, and all of them are usable as blocks of a chain. */
  lemma PoolBlocks(g: Geometry, w: seq<Word>, bs: seq<nat>)
    requires g.Ok(|w|) && FromPool(g, bs) && NoDuplicates(bs)
    ensures AreBlocks(w, g.N(), bs) && Apart(g.N(), bs)
    ensures forall k :: 0 <= k < |bs| ==> g.InRange(bs[k]) && g.start <= bs[k]
  {
    forall k | 0 <= k < |bs|
      ensures IsBlock(w, g.N(), bs[k]) && g.InRange(bs[k]) && g.start <= bs[k]
    {
      assert bs[k] in g.All();
      var i :| 0 <= i < |g.All()| && bs[k] == g.All()[i];
      BlockOk(g, w, i);
    }
    forall j, k | 0 <= j < k < |bs|
      ensures Disjoint(g.N(), bs[j], bs[k])
    {
      TwoBlocks(g, |w|, bs[j], bs[k]);
    }
  }

  lemma TwoBlocks(g: Geometry, w: nat, a: nat, b: nat)
    requires g.Ok(w) && a in g.All() && b in g.All() && a != b
    ensures Disjoint(g.N(), a, b)
  {
    var i :| 0 <= i < |g.All()| && a == g.All()[i];
    var j :| 0 <= j < |g.All()| && b == g.All()[j];
    if i < j {
      BlocksDisjoint(g, w, i, j);
    } else {
      BlocksDisjoint(g, w, j, i);
    }
  }

  /** The link word that the initialisation writes into block i. */
  function InitialLink(g: Geometry, i: nat): Word {
    var next := g.Block(i + 1);
    if i + 1 == g.num || next >= ADDRESS_LIMIT then END_OF_CHAIN else LinkTo(next)
  }

  predicate HasInitialLink(g: Geometry, w: seq<Word>, i: nat) {
    g.Block(i) / 4 < |w| && w[g.Block(i) / 4] == InitialLink(g, i)
  }

  /** Word k is the link word of a block. */
  predicate IsLink(g: Geometry, k: nat) {
    exists j :: 0 <= j < g.num && k == g.Block(j) / 4
  }

  lemma NoLinkInFront(g: Geometry)
    ensures forall k :: 0 <= k < g.start / 4 ==> !IsLink(g, k)
  {
  }

  /** The first i blocks carry their initial links, and no other word has changed since w0. */
  predicate LinkedUpTo(g: Geometry, w0: seq<Word>, w: seq<Word>, i: nat)
    requires g.Ok(|w|)
  {
    && |w0| == |w|
    && (forall j :: 0 <= j < i ==> HasInitialLink(g, w, j))
    && (forall k :: 0 <= k < |w| && !IsLink(g, k) ==> w[k] == w0[k])
  }

  lemma LinkNextBlock(g: Geometry, w0: seq<Word>, w: seq<Word>, i: nat)
    requires g.Ok(|w|) && i < g.num && LinkedUpTo(g, w0, w, i)
    ensures i + 1 < g.num ==> g.Block(i + 1) < ADDRESS_LIMIT
    ensures g.Block(i) / 4 < |w|
    ensures LinkedUpTo(g, w0, w[g.Block(i) / 4 := InitialLink(g, i)], i + 1)
  {
    BlockOk(g, w, i);
    if i + 1 < g.num {
      BlockOk(g, w, i + 1);
    }
    var w' := w[g.Block(i) / 4 := InitialLink(g, i)];
    assert IsLink(g, g.Block(i) / 4);
    forall j | 0 <= j < i + 1
      ensures HasInitialLink(g, w', j)
    {
      if j < i {
        assert HasInitialLink(g, w, j);
        BlocksDisjoint(g, |w|, j, i);
      }
    }
  }

  /** The initial links make one list of all blocks. */
  lemma InitLinks(g: Geometry, w0: seq<Word>, w: seq<Word>)
    requires g.Ok(|w|) && LinkedUpTo(g, w0, w, g.num)
    ensures Linked(w, g.N(), g.All()) && FromPool(g, g.All()) && Apart(g.N(), g.All())
  {
    var all := g.All();
    forall k {:trigger all[k]} | 0 <= k < |all|
      ensures IsBlock(w, g.N(), all[k])
      ensures (k + 1 < |all| ==> all[k + 1] < ADDRESS_LIMIT) && w[all[k] / 4] == LinkWord(all, k)
    {
      assert HasInitialLink(g, w, k);
      InitialLinkWord(g, w, k);
    }
    AllApart(g, |w|);
  }

  lemma InitialLinkWord(g: Geometry, w: seq<Word>, k: nat)
    requires g.Ok(|w|) && k < g.num && HasInitialLink(g, w, k)
    ensures IsBlock(w, g.N(), g.All()[k])
    ensures k + 1 < g.num ==> g.All()[k + 1] < ADDRESS_LIMIT
    ensures w[g.All()[k] / 4] == LinkWord(g.All(), k)
  {
    BlockOk(g, w, k);
    if k + 1 < g.num {
      BlockOk(g, w, k + 1);
    }
  }

  lemma AllApart(g: Geometry, w: nat)
    requires g.Ok(w)
    ensures Apart(g.N(), g.All())
  {
    forall j, k | 0 <= j < k < g.num
      ensures Disjoint(g.N(), g.All()[j], g.All()[k])
    {
      BlocksDisjoint(g, w, j, k);
    }
  }

  /**
   The state of the allocation loop after i blocks of the list l: nothing has changed in the memory,
   except that the mark of the last block of the list has been cleared once that block is taken.
   */
  predicate Cutting(w0: seq<Word>, l: seq<nat>, i: nat, w: seq<Word>, free: nat, blocksFree: nat, last: nat) {
    && i <= |l| && blocksFree == |l| - i && free == Head(l[i..])
    && last == (if i == 0 then Head(l) else l[i - 1])
    && last / 4 < |w0|
    && w == if 0 < i == |l| then w0[last / 4 := 0] else w0
  }

  lemma CutNext(w0: seq<Word>, n: nat, l: seq<nat>, i: nat, w: seq<Word>, free: nat, blocksFree: nat, last: nat)
    requires 0 < n && Linked(w0, n, l) && Cutting(w0, l, i, w, free, blocksFree, last) && i < |l|
    ensures free / 4 < |w|
    ensures var next := w[free / 4] % 0x8_0000;
            Cutting(w0, l, i + 1, w[free / 4 := next], next * 32, blocksFree - 1, free)
  {
    ChainLinks(w0, n, l, i);
    assert w0[l[i] / 4] == LinkWord(l, i);
    if i + 1 < |l| {
      assert w[free / 4 := w[free / 4]] == w;
    }
  }

  lemma CutDone(w0: seq<Word>, l: seq<nat>, k: nat, w: seq<Word>, free: nat, blocksFree: nat, last: nat)
    requires Cutting(w0, l, k, w, free, blocksFree, last)
    ensures w[last / 4 := END_OF_CHAIN] == if k == 0 then w0[Head(l) / 4 := END_OF_CHAIN] else CutMemory(w0, l, k)
  {
  }

  /** What holds of a list of pool blocks holds of its two parts. */
  lemma Parts(g: Geometry, l: seq<nat>, k: nat)
    requires FromPool(g, l) && Apart(g.N(), l) && k <= |l|
    ensures FromPool(g, l[..k]) && FromPool(g, l[k..]) && Apart(g.N(), l[..k]) && Apart(g.N(), l[k..])
  {
  }

  /**
   A request for no bytes marks the head of the free list as the end of a chain: the list stays intact
   just if it has no second block.
   */
  lemma ZeroRequestIff(w: seq<Word>, n: nat, l: seq<nat>)
    requires 0 < n && Linked(w, n, l) && Apart(n, l) && Head(l) / 4 < |w|
    ensures Linked(w[Head(l) / 4 := END_OF_CHAIN], n, l) <==> |l| <= 1
  {
    var w' := w[Head(l) / 4 := END_OF_CHAIN];
    if |l| > 1 {
      assert IsBlock(w, n, l[0]) && IsBlock(w, n, l[1]);
      assert LinkWord(l, 0) < END_OF_CHAIN == w'[l[0] / 4];
    } else if |l| == 1 {
      assert IsBlock(w, n, l[0]);
    }
  }

  class TxBufPool {
    const mem: SlaveMem
    /** acx_txbuf_start, acx_txbuf_numblocks and memblocksize. */
    const g: Geometry
    /** acx_txbuf_free */
    var free: nat
    /** acx_txbuf_blocks_free */
    var blocksFree: nat
    /** The free blocks in list order. */
    ghost var freeList: seq<nat>

    ghost predicate Configured() {
      g.Ok(mem.words.Length) && mem.blockSize == g.size
    }

    /** The bookkeeping agrees with the list that is linked through the card's memory. */
    ghost predicate Valid()
      reads this, mem.words
    {
      && Configured()
      && FromPool(g, freeList) && Apart(g.N(), freeList)
      && Linked(mem.words[..], g.N(), freeList)
      && free == Head(freeList)
      && blocksFree == |freeList|
    }

    constructor (mem: SlaveMem, g: Geometry)
      requires g.Ok(mem.words.Length) && mem.blockSize == g.size
      ensures this.mem == mem && this.g == g && Configured()
    {
      this.mem := mem;
      this.g := g;
      free, blocksFree, freeList := 0, 0, [];
    }

    /**
     Cuts the blocks needed for count bytes off the front of the free list, if there are enough.
     A request for no bytes does not cut anything, but marks the first free block (or address 0, if
     there is none) as the end of a chain.
     */
    method Allocate(count: nat) returns (block: nat)
      requires Valid()
      modifies this, mem, mem.words
      ensures var k, l := Needed(g.size, count), old(freeList);
        if k > |l| then
          && block == 0 && freeList == l && mem.words[..] == old(mem.words[..]) && Valid()
        else if k > 0 then
          && block == l[0] && freeList == l[k..]
          && l[k - 1] / 4 < mem.words.Length
          && mem.words[..] == CutMemory(old(mem.words[..]), l, k)
          && Linked(mem.words[..], g.N(), l[..k])
          && Valid()
        else
          && block == old(free) && free == old(free) && blocksFree == old(blocksFree) && freeList == l
          && free / 4 < mem.words.Length
          && mem.words[..] == old(mem.words[..])[free / 4 := END_OF_CHAIN]
    {
      var blocksNeeded: int := Needed(g.size, count);
      if blocksNeeded <= blocksFree {
        ghost var l, k := freeList, blocksNeeded;
        ghost var w := mem.words[..];
        block := free;
        TakeBlocks(blocksNeeded);
        if k > 0 {
          CutLinks(w, g.N(), l, k);
          Parts(g, l, k);
          freeList := l[k..];
        }
      } else {
        block := 0;
      }
    }

    /** Moves the free pointer over k blocks and marks the last of them as the end of a chain. */
    method TakeBlocks(k: nat)
      requires Valid() && k <= blocksFree
      modifies this`free, this`blocksFree, mem, mem.words
      ensures free == Head(freeList[k..]) && blocksFree == |freeList| - k
      ensures k == 0 ==> free / 4 < mem.words.Length && mem.words[..] == old(mem.words[..])[free / 4 := END_OF_CHAIN]
      ensures k > 0 ==>
        && freeList[k - 1] / 4 < mem.words.Length
        && mem.words[..] == CutMemory(old(mem.words[..]), freeList, k)
    {
      ghost var n, l := g.N(), freeList;
      ghost var w := mem.words[..];
      assert l != [] ==> IsBlock(w, n, l[0]);
      var blocksNeeded := k;
      var lastBlock := free;
      ghost var i := 0;
      while blocksNeeded > 0
        invariant i + blocksNeeded == k
        invariant Cutting(w, l, i, mem.words[..], free, blocksFree, lastBlock)
      {
        CutNext(w, n, l, i, mem.words[..], free, blocksFree, lastBlock);
        lastBlock := free;
        var link := mem.Read32(free);
        var next := link % 0x8_0000;
        mem.Write32(free, next);
        free := next * 32;
        blocksFree := blocksFree - 1;
        blocksNeeded := blocksNeeded - 1;
        i := i + 1;
      }
      CutDone(w, l, k, mem.words[..], free, blocksFree, lastBlock);
      mem.Write32(lastBlock, END_OF_CHAIN);
      if blocksFree == 0 {
        free := 0;
      }
    }

    /**
     Walks the chain bs that starts at blockptr and splices it in front of the free list. A pointer
     outside the pool is ignored.
     */
    method Reclaim(blockptr: nat, ghost bs: seq<nat>)
      requires Valid()
      requires g.InRange(blockptr) ==>
        && bs != [] && bs[0] == blockptr
        && Linked(mem.words[..], g.N(), bs)
        && FromPool(g, bs) && Apart(g.N(), bs + freeList)
      modifies this, mem, mem.words
      ensures Valid()
      ensures blockptr < g.start || g.Block(g.num - 1) < blockptr ==>
        freeList == old(freeList) && mem.words[..] == old(mem.words[..])
      ensures g.InRange(blockptr) ==>
        && freeList == bs + old(freeList)
        && bs[|bs| - 1] / 4 < mem.words.Length && Head(old(freeList)) < ADDRESS_LIMIT
        && mem.words[..] == SpliceMemory(old(mem.words[..]), bs, old(freeList))
    {
      if g.InRange(blockptr) {
        ghost var n, l := g.N(), freeList;
        ghost var w := mem.words[..];
        SpliceLinks(w, n, bs, l);
        var cur := blockptr;
        ghost var i := 0;
        ChainLinks(w, n, bs, 0);
        var last := cur;
        var next := mem.Read32(cur);
        cur := Follow(next);
        blocksFree := blocksFree + 1;
        while !EndsChain(next)
          invariant 0 <= i < |bs| && last == bs[i] && next == w[bs[i] / 4]
          invariant EndsChain(next) <==> i + 1 == |bs|
          invariant !EndsChain(next) ==> cur == bs[i + 1]
          invariant blocksFree == |l| + i + 1
          invariant mem.words[..] == w && free == Head(l)
          decreases |bs| - i
        {
          ChainLinks(w, n, bs, i + 1);
          last := cur;
          next := mem.Read32(cur);
          cur := Follow(next);
          blocksFree := blocksFree + 1;
          i := i + 1;
        }
        ChainLinks(w, n, bs, i);
        if free != 0 {
          mem.Write32(last, free / 32);
        } else {
          mem.Write32(last, END_OF_CHAIN);
        }
        free := blockptr;
        freeList := bs + l;
      }
    }

    /**
     `acxmem_init_acx_txbuf`, after the card has linked its transmit blocks itself: only the two variables
     are set.
     */
    method Reset()
      requires Configured() && Linked(mem.words[..], g.N(), g.All())
      modifies this
      ensures Valid() && freeList == g.All()
    {
      AllApart(g, mem.words.Length);
      free := g.start;
      blocksFree := g.num;
      freeList := g.All();
    }

    /** `acxmem_init_acx_txbuf2`: links all blocks of the pool into the free list, in address order. */
    method Init()
      requires Configured()
      modifies this, mem, mem.words
      ensures Valid() && freeList == g.All()
      ensures forall k :: 0 <= k < mem.words.Length && !IsLink(g, k) ==> mem.words[..][k] == old(mem.words[..])[k]
    {
      ghost var w0 := mem.words[..];
      var adr := g.start;
      var i := 0;
      while i < g.num
        invariant 0 <= i <= g.num && adr == g.Block(i)
        invariant LinkedUpTo(g, w0, mem.words[..], i)
      {
        var nextAdr := adr + g.size;
        LinkNextBlock(g, w0, mem.words[..], i);
        if i == g.num - 1 {
          mem.Write32(adr, END_OF_CHAIN);
        } else {
          mem.Write32(adr, nextAdr / 32);
        }
        adr := nextAdr;
        i := i + 1;
      }
      InitLinks(g, w0, mem.words[..]);
      free := g.start;
      blocksFree := g.num;
      freeList := g.All();
    }
  }
}
