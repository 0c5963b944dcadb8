/**
 Chains of memory blocks as values: the first word of a block links to the next block of its chain,
 the other words are its data portion.
 */
module BlockChains {
  import opened Words

  /** Control flag in the link word of the last block of a chain. */
  const END_OF_CHAIN: Word := 0x200_0000
  /** Block addresses must fit in bits 23:5 of the chain pointer. */
  const ADDRESS_LIMIT: nat := 0x100_0000

  /** `(link & 0x7ffff) << 5` */
  function Follow(link: Word): nat {
    link % 0x8_0000 * 32
  }

  /** `address >> 5` */
  function LinkTo(a: nat): (r: Word)
    requires a < ADDRESS_LIMIT
    ensures a % 32 == 0 ==> Follow(r) == a
  {
    a / 32
  }

  /** `link & 0x02000000` */
  predicate EndsChain(link: Word) {
    link / END_OF_CHAIN % 2 == 1
  }

  /** A block of n words lies inside the memory and its address can be linked to. */
  predicate IsBlock(w: seq<Word>, n: nat, b: nat) {
    0 < b < ADDRESS_LIMIT && b % 32 == 0 && b / 4 + n <= |w|
  }

  predicate AreBlocks(w: seq<Word>, n: nat, bs: seq<nat>) {
    forall k :: 0 <= k < |bs| ==> IsBlock(w, n, bs[k])
  }

  /** Two blocks of n words do not share a word. */
  predicate Disjoint(n: nat, a: nat, b: nat) {
    a / 4 + n <= b / 4 || b / 4 + n <= a / 4
  }

  /** The blocks of bs are pairwise disjoint. */
  predicate Apart(n: nat, bs: seq<nat>) {
    forall j, k :: 0 <= j < k < |bs| ==> Disjoint(n, bs[j], bs[k])
  }

  /** The link word of block k of bs. */
  function LinkWord(bs: seq<nat>, k: nat): Word
    requires k < |bs|
    requires k + 1 < |bs| ==> bs[k + 1] < ADDRESS_LIMIT
  {
    if k + 1 < |bs| then LinkTo(bs[k + 1]) else END_OF_CHAIN
  }

  /** The blocks of bs are linked in this order and the last one carries the end mark. */
  predicate Linked(w: seq<Word>, n: nat, bs: seq<nat>)
    requires 0 < n
  {
    && AreBlocks(w, n, bs)
    && forall k {:trigger LinkWord(bs, k)} :: 0 <= k < |bs| ==> w[bs[k] / 4] == LinkWord(bs, k)
  }

  /** Word i belongs to the data portion of a block of bs. */
  predicate InData(n: nat, bs: seq<nat>, i: nat) {
    exists k :: 0 <= k < |bs| && bs[k] / 4 < i < bs[k] / 4 + n
  }

  function BlockIndex(n: nat, j: nat): nat
    requires 2 <= n
  {
    j / (n - 1)
  }

  function WordIndex(n: nat, j: nat): (r: nat)
    requires 2 <= n
    ensures r < n - 1
  {
    j % (n - 1)
  }

  /**
   Where word j of a frame lives in the chain bs of blocks of n words: every block holds n - 1 words,
   behind its link word.
   */
  function DataWord(n: nat, bs: seq<nat>, j: nat): nat
    requires 2 <= n && BlockIndex(n, j) < |bs|
  {
    bs[BlockIndex(n, j)] / 4 + 1 + WordIndex(n, j)
  }

  /** The chain bs has room for k words. */
  predicate Fits(n: nat, bs: seq<nat>, k: nat)
    requires 2 <= n
  {
    forall j :: 0 <= j < k ==> BlockIndex(n, j) < |bs|
  }

  /** The data portions of bs hold the words ws. */
  predicate Carries(w: seq<Word>, n: nat, bs: seq<nat>, ws: seq<Word>)
    requires 2 <= n && AreBlocks(w, n, bs) && Fits(n, bs, |ws|)
  {
    forall j {:trigger ws[j]} :: 0 <= j < |ws| ==> DataWord(n, bs, j) < |w| && w[DataWord(n, bs, j)] == ws[j]
  }

  /** k words fit into a chain of b blocks exactly if k <= b * (n - 1). */
  lemma FitsIff(n: nat, bs: seq<nat>, k: nat)
    requires 2 <= n
    ensures Fits(n, bs, k) <==> k <= |bs| * (n - 1)
  {
    var m := n - 1;
    forall j | 0 <= j < k && k <= |bs| * m
      ensures j / m < |bs|
    {
      QuotientBelow(j, m, |bs|);
    }
    if k > |bs| * m {
      QuotientOf(|bs| * m, m, |bs|, 0);
      assert BlockIndex(n, |bs| * m) == |bs|;
    }
  }

  lemma QuotientBelow(j: nat, m: nat, b: nat)
    requires 0 < m && j < b * m
    ensures j / m < b
  {
    var q := j / m;
    assert b <= q ==> b * m <= q * m by {
      if b <= q {
        assert (q - b) * m >= 0;
      }
    }
  }

  lemma SmallMultiple(d: int, m: int, x: int)
    requires 0 < m && d * m == x && x < m
    ensures d <= 0
  {
    assert 1 <= d ==> m <= d * m by {
      if 1 <= d {
        assert (d - 1) * m >= 0;
      }
    }
  }

  /** Quotient and remainder are unique. */
  lemma QuotientOf(j: nat, m: nat, q: nat, r: nat)
    requires 0 < m && j == q * m + r && r < m
    ensures j / m == q && j % m == r
  {
    var q', r' := j / m, j % m;
    assert j == q' * m + r';
    assert (q' - q) * m == q' * m - q * m == r - r';
    assert (q - q') * m == r' - r;
    SmallMultiple(q' - q, m, r - r');
    SmallMultiple(q - q', m, r' - r);
  }

  /** From one word of a frame to the next: the next word of the block, or the first of the next block. */
  lemma NextDataWord(n: nat, j: nat)
    requires 2 <= n
    ensures
      if WordIndex(n, j) + 2 < n
      then BlockIndex(n, j + 1) == BlockIndex(n, j) && WordIndex(n, j + 1) == WordIndex(n, j) + 1
      else BlockIndex(n, j + 1) == BlockIndex(n, j) + 1 && WordIndex(n, j + 1) == 0
  {
    var m := n - 1;
    assert j == (j / m) * m + j % m;
    if j % m + 1 == m {
      assert j + 1 == (j / m + 1) * m + 0;
      QuotientOf(j + 1, m, j / m + 1, 0);
    } else {
      QuotientOf(j + 1, m, j / m, j % m + 1);
    }
  }

  /** A word of the frame lies in the data portion of its block. */
  lemma DataWordInData(n: nat, bs: seq<nat>, j: nat)
    requires 2 <= n && BlockIndex(n, j) < |bs|
    ensures InData(n, bs, DataWord(n, bs, j))
  {
    var k := BlockIndex(n, j);
    assert bs[k] / 4 < DataWord(n, bs, j) < bs[k] / 4 + n;
  }

  /** Different words of the frame live in different words of the memory. */
  lemma DataWordsDiffer(n: nat, bs: seq<nat>, i: nat, j: nat)
    requires 2 <= n && Apart(n, bs) && i != j
    requires BlockIndex(n, i) < |bs| && BlockIndex(n, j) < |bs|
    ensures DataWord(n, bs, i) != DataWord(n, bs, j)
  {
    var m := n - 1;
    assert i == (i / m) * m + i % m && j == (j / m) * m + j % m;
    if i / m < j / m {
      assert Disjoint(n, bs[i / m], bs[j / m]);
    } else if j / m < i / m {
      assert Disjoint(n, bs[j / m], bs[i / m]);
    }
  }

  /** No data word of a chain is a link word of a block that is in the chain or disjoint from it. */
  lemma LinkNotInData(n: nat, bs: seq<nat>, b: nat)
    requires forall k :: 0 <= k < |bs| ==> bs[k] == b || Disjoint(n, bs[k], b) || Disjoint(n, b, bs[k])
    ensures !InData(n, bs, b / 4)
  {
  }

  lemma ApartBlocks(n: nat, bs: seq<nat>, i: nat)
    requires Apart(n, bs) && i < |bs|
    ensures forall k :: 0 <= k < |bs| ==> bs[k] == bs[i] || Disjoint(n, bs[k], bs[i])
  {
    forall k | 0 <= k < |bs|
      ensures bs[k] == bs[i] || Disjoint(n, bs[k], bs[i])
    {
      if k < i {
        assert Disjoint(n, bs[k], bs[i]);
      } else if i < k {
        assert Disjoint(n, bs[i], bs[k]);
      }
    }
  }

  /** Two memories that agree on the link words of bs agree on whether it is linked. */
  lemma LinkedFrame(w: seq<Word>, w': seq<Word>, n: nat, bs: seq<nat>)
    requires 0 < n && |w| == |w'| && Linked(w, n, bs)
    requires forall k :: 0 <= k < |bs| ==> w'[bs[k] / 4] == w[bs[k] / 4]
    ensures Linked(w', n, bs)
  {
    forall k | 0 <= k < |bs|
      ensures IsBlock(w', n, bs[k]) && w'[bs[k] / 4] == LinkWord(bs, k)
    {
      assert IsBlock(w, n, bs[k]);
    }
  }

  /** A write to the data portions of a chain keeps the chain linked. */
  lemma DataWriteKeepsLinks(w: seq<Word>, w': seq<Word>, n: nat, bs: seq<nat>)
    requires 0 < n && |w| == |w'| && Linked(w, n, bs) && Apart(n, bs)
    requires forall i :: 0 <= i < |w| && !InData(n, bs, i) ==> w'[i] == w[i]
    ensures Linked(w', n, bs)
  {
    forall k | 0 <= k < |bs|
      ensures w'[bs[k] / 4] == w[bs[k] / 4]
    {
      ApartBlocks(n, bs, k);
      LinkNotInData(n, bs, bs[k]);
      assert IsBlock(w, n, bs[k]);
    }
    LinkedFrame(w, w', n, bs);
  }

  /** Storing word j of a frame adds it to the words already carried. */
  lemma StoreCarries(w: seq<Word>, n: nat, bs: seq<nat>, ws: seq<Word>, j: nat)
    requires 2 <= n && AreBlocks(w, n, bs) && Apart(n, bs) && Fits(n, bs, |ws|) && j < |ws|
    requires Carries(w, n, bs, ws[..j])
    ensures DataWord(n, bs, j) < |w|
    ensures var w' := w[DataWord(n, bs, j) := ws[j]];
            && AreBlocks(w', n, bs) && Carries(w', n, bs, ws[..j + 1])
            && forall i :: 0 <= i < |w| && !InData(n, bs, i) ==> w'[i] == w[i]
  {
    DataWordInData(n, bs, j);
    assert IsBlock(w, n, bs[BlockIndex(n, j)]);
    var w' := w[DataWord(n, bs, j) := ws[j]];
    forall k | 0 <= k < j
      ensures w'[DataWord(n, bs, k)] == ws[k]
    {
      assert ws[..j][k] == ws[k];
      DataWordsDiffer(n, bs, k, j);
    }
    forall k | 0 <= k < |bs|
      ensures IsBlock(w', n, bs[k])
    {
      assert IsBlock(w, n, bs[k]);
    }
  }

  /** What following the link of block k of a chain leads to. */
  lemma ChainLinks(w: seq<Word>, n: nat, bs: seq<nat>, k: nat)
    requires 0 < n && Linked(w, n, bs) && k < |bs|
    ensures IsBlock(w, n, bs[k])
    ensures k + 1 < |bs| ==> Follow(w[bs[k] / 4]) == bs[k + 1] && !EndsChain(w[bs[k] / 4])
    ensures k + 1 == |bs| ==> Follow(w[bs[k] / 4]) == 0 && EndsChain(w[bs[k] / 4])
    ensures w[bs[k] / 4] == if k + 1 < |bs| then bs[k + 1] / 32 else 0x200_0000
  {
    assert w[bs[k] / 4] == LinkWord(bs, k);
    if k + 1 < |bs| {
      assert IsBlock(w, n, bs[k + 1]);
    }
  }

  /** The address of the first block of a list; null if there is none. */
  function Head(bs: seq<nat>): nat {
    if bs == [] then 0 else bs[0]
  }

  /** The memory after cutting the first k blocks off the list l. */
  function CutMemory(w: seq<Word>, l: seq<nat>, k: nat): (r: seq<Word>)
    requires 0 < k <= |l| && l[k - 1] / 4 < |w|
    ensures |r| == |w|
  {
    w[l[k - 1] / 4 := END_OF_CHAIN]
  }

  /** The memory after splicing the chain bs in front of the list l. */
  function SpliceMemory(w: seq<Word>, bs: seq<nat>, l: seq<nat>): (r: seq<Word>)
    requires bs != [] && bs[|bs| - 1] / 4 < |w| && Head(l) < ADDRESS_LIMIT
    ensures |r| == |w|
  {
    w[bs[|bs| - 1] / 4 := if l == [] then END_OF_CHAIN else LinkTo(l[0])]
  }

  /** A store to the link word of one block of a list is seen by no other block of the list. */
  lemma OtherLinks(w: seq<Word>, n: nat, l: seq<nat>, j: nat, v: Word)
    requires 0 < n && AreBlocks(w, n, l) && Apart(n, l) && j < |l|
    ensures l[j] / 4 < |w| && AreBlocks(w[l[j] / 4 := v], n, l)
    ensures forall i :: 0 <= i < |l| && i != j ==> w[l[j] / 4 := v][l[i] / 4] == w[l[i] / 4]
  {
    assert IsBlock(w, n, l[j]);
    forall i | 0 <= i < |l|
      ensures IsBlock(w[l[j] / 4 := v], n, l[i])
      ensures i != j ==> w[l[j] / 4 := v][l[i] / 4] == w[l[i] / 4]
    {
      assert IsBlock(w, n, l[i]);
      if i < j {
        assert Disjoint(n, l[i], l[j]);
      } else if j < i {
        assert Disjoint(n, l[j], l[i]);
      }
    }
  }

  /** A cut list is two well-formed lists. */
  lemma CutLinks(w: seq<Word>, n: nat, l: seq<nat>, k: nat)
    requires 0 < n && Linked(w, n, l) && Apart(n, l) && 0 < k <= |l|
    ensures l[k - 1] / 4 < |w|
    ensures Linked(CutMemory(w, l, k), n, l[..k]) && Linked(CutMemory(w, l, k), n, l[k..])
  {
    OtherLinks(w, n, l, k - 1, END_OF_CHAIN);
    var w' := CutMemory(w, l, k);
    forall i | 0 <= i < |l[k..]|
      ensures IsBlock(w', n, l[k..][i]) && w'[l[k..][i] / 4] == LinkWord(l[k..], i)
    {
      assert IsBlock(w', n, l[k + i]);
      assert w'[l[k + i] / 4] == LinkWord(l, k + i);
    }
    forall i | 0 <= i < k
      ensures IsBlock(w', n, l[..k][i]) && w'[l[..k][i] / 4] == LinkWord(l[..k], i)
    {
      assert IsBlock(w', n, l[i]);
      assert i < k - 1 ==> w'[l[i] / 4] == LinkWord(l, i);
    }
  }

  /** A chain spliced in front of a disjoint list is one well-formed list. */
  lemma SpliceLinks(w: seq<Word>, n: nat, bs: seq<nat>, l: seq<nat>)
    requires 0 < n && bs != [] && Linked(w, n, bs) && Linked(w, n, l) && Apart(n, bs + l)
    ensures bs[|bs| - 1] / 4 < |w| && Head(l) < ADDRESS_LIMIT
    ensures Linked(SpliceMemory(w, bs, l), n, bs + l)
  {
    var all := bs + l;
    var last := |bs| - 1;
    forall i | 0 <= i < |all|
      ensures IsBlock(w, n, all[i])
    {
      assert if i < |bs| then IsBlock(w, n, bs[i]) else IsBlock(w, n, l[i - |bs|]);
    }
    assert l != [] ==> IsBlock(w, n, l[0]);
    var v := if l == [] then END_OF_CHAIN else LinkTo(l[0]);
    OtherLinks(w, n, all, last, v);
    var w' := SpliceMemory(w, bs, l);
    forall i | 0 <= i < |all|
      ensures IsBlock(w', n, all[i]) && w'[all[i] / 4] == LinkWord(all, i)
    {
      if i < last {
        assert w[bs[i] / 4] == LinkWord(bs, i);
      } else if last < i {
        assert w[l[i - |bs|] / 4] == LinkWord(l, i - |bs|);
      }
    }
  }

  /** Giving back the chain just cut off restores the list and every word of the memory. */
  lemma SpliceUndoesCut(w: seq<Word>, n: nat, l: seq<nat>, k: nat)
    requires 0 < n && Linked(w, n, l) && Apart(n, l) && 0 < k <= |l|
    ensures l[k - 1] / 4 < |w| && Head(l[k..]) < ADDRESS_LIMIT
    ensures SpliceMemory(CutMemory(w, l, k), l[..k], l[k..]) == w && l[..k] + l[k..] == l
  {
    assert IsBlock(w, n, l[k - 1]);
    assert k < |l| ==> IsBlock(w, n, l[k]);
    assert w[l[k - 1] / 4] == LinkWord(l, k - 1);
  }
}
