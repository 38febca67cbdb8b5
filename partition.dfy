/** How the host script cuts the binary into mailbox-sized blocks
    (JFlash.py:201-235) and the word count it commands per block
    (JFlash.py:218). */
module Partition {
  import opened Layout

  /** A block of the image: `size` bytes starting at file offset `start`. */
  datatype Block = Block(start: nat, size: nat)

  /** Largest block: the capacity of the mailbox data buffer. */
  const MAX_BLOCK: nat := LD_DATA_SZ

  /** The blocks the writing cycle produces for `rest` bytes still to write,
      the next one starting at file offset `start`: a full buffer while more
      than a buffer is left, then all that remains. */
  function Split(rest: nat, start: nat): seq<Block>
    decreases rest
  {
    if rest == 0 then []
    else if rest > MAX_BLOCK then [Block(start, MAX_BLOCK)] + Split(rest - MAX_BLOCK, start + MAX_BLOCK)
    else [Block(start, rest)]
  }

  /** One pass of the writing cycle: with `rest` > 0 bytes left, the next
      block is a full buffer or all that is left, and the remaining blocks
      are those of what is then left. */
  lemma SplitStep(rest: nat, start: nat)
    requires rest > 0
    ensures var sz := if rest > MAX_BLOCK then MAX_BLOCK else rest;
      0 < sz <= rest && Split(rest, start) == [Block(start, sz)] + Split(rest - sz, start + sz)
  {
  }

  /** The blocks of an image of `n` bytes: ceil(n / MAX_BLOCK) of them,
      block k at offset k * MAX_BLOCK, each non-empty, at most a buffer long
      and inside the image. */
  function Blocks(n: nat): seq<Block>
  {
    Split(n, 0)
  }

  /** Number of blocks for `n` bytes: ceil(n / MAX_BLOCK). */
  function BlockCount(n: nat): nat
  {
    (n + MAX_BLOCK - 1) / MAX_BLOCK
  }

  /** Closed form of `Split`: block k starts k buffers further on and is full
      unless it is the last one, which holds what is left (1..MAX_BLOCK bytes). */
  lemma {:induction false} SplitClosedForm(rest: nat, start: nat)
    ensures |Split(rest, start)| == BlockCount(rest)
    ensures forall k :: 0 <= k < |Split(rest, start)| ==>
      Split(rest, start)[k].start == start + k * MAX_BLOCK &&
      Split(rest, start)[k].size == (if k < |Split(rest, start)| - 1 then MAX_BLOCK else rest - k * MAX_BLOCK)
    ensures |Split(rest, start)| > 0 ==> 0 < Split(rest, start)[|Split(rest, start)| - 1].size <= MAX_BLOCK
    decreases rest
  {
    if rest > MAX_BLOCK {
      var tail := Split(rest - MAX_BLOCK, start + MAX_BLOCK);
      SplitClosedForm(rest - MAX_BLOCK, start + MAX_BLOCK);
      assert Split(rest, start) == [Block(start, MAX_BLOCK)] + tail;
      assert BlockCount(rest) == BlockCount(rest - MAX_BLOCK) + 1;
      forall k | 0 < k < |Split(rest, start)|
        ensures Split(rest, start)[k] == tail[k - 1]
      {
      }
    }
  }

  /** Block k of an n-byte image, in closed form. */
  lemma BlockAt(n: nat, k: nat)
    requires k < |Blocks(n)|
    ensures |Blocks(n)| == BlockCount(n)
    ensures Blocks(n)[k].start == k * MAX_BLOCK
    ensures Blocks(n)[k].size == if (k + 1) * MAX_BLOCK <= n then MAX_BLOCK else n - k * MAX_BLOCK
    ensures 0 < Blocks(n)[k].size <= MAX_BLOCK
    ensures Blocks(n)[k].start + Blocks(n)[k].size <= n
  {
    SplitClosedForm(n, 0);
  }

  /** There are ceil(n / MAX_BLOCK) blocks, none for an empty image; all but
      the last are full and the last holds 1..MAX_BLOCK bytes. */
  lemma BlockSizes(n: nat)
    ensures |Blocks(n)| == BlockCount(n)
    ensures n == 0 <==> Blocks(n) == []
    ensures forall k :: 0 <= k < |Blocks(n)| - 1 ==> Blocks(n)[k].size == MAX_BLOCK
    ensures n > 0 ==> 0 < Blocks(n)[|Blocks(n)| - 1].size <= MAX_BLOCK
  {
    SplitClosedForm(n, 0);
  }

  /** Sum of the block sizes. */
  function TotalSize(bs: seq<Block>): nat
  {
    if bs == [] then 0 else bs[0].size + TotalSize(bs[1..])
  }

  /** The blocks cut from `rest` bytes hold exactly `rest` bytes. */
  lemma {:induction false} SplitTotal(rest: nat, start: nat)
    ensures TotalSize(Split(rest, start)) == rest
    decreases rest
  {
    if rest > 0 {
      SplitStep(rest, start);
      var sz := Split(rest, start)[0].size;
      SplitTotal(rest - sz, start + sz);
      assert Split(rest, start)[1..] == Split(rest - sz, start + sz);
    }
  }

  /** Each block cut from `rest` bytes at `start` starts where the ones
      before it end. */
  lemma {:induction false} SplitStarts(rest: nat, start: nat)
    ensures forall k :: 0 <= k < |Split(rest, start)| ==>
      Split(rest, start)[k].start == start + TotalSize(Split(rest, start)[..k])
    decreases rest
  {
    if rest > 0 {
      SplitStep(rest, start);
      var s := Split(rest, start);
      var sz := s[0].size;
      var tail := Split(rest - sz, start + sz);
      SplitStarts(rest - sz, start + sz);
      forall k | 0 <= k < |s|
        ensures s[k].start == start + TotalSize(s[..k])
      {
        if k > 0 {
          assert s[..k][0] == s[0];
          assert s[..k][1..] == tail[..k - 1];
          assert s[k] == tail[k - 1];
        } else {
          assert s[..k] == [];
        }
      }
    }
  }

  /** Each block starts where the previous ones end, so blocks are
      contiguous and non-overlapping, and together they hold exactly n bytes. */
  lemma BlocksContiguous(n: nat)
    ensures forall k :: 0 <= k < |Blocks(n)| ==> Blocks(n)[k].start == TotalSize(Blocks(n)[..k])
    ensures TotalSize(Blocks(n)) == n
  {
    SplitTotal(n, 0);
    SplitStarts(n, 0);
  }

  /** Every byte offset of the file lies in exactly one block, block i / MAX_BLOCK. */
  lemma BlocksCover(n: nat, i: nat)
    requires i < n
    ensures i / MAX_BLOCK < |Blocks(n)|
    ensures forall k :: 0 <= k < |Blocks(n)| ==>
      (Blocks(n)[k].start <= i < Blocks(n)[k].start + Blocks(n)[k].size <==> k == i / MAX_BLOCK)
  {
    SplitClosedForm(n, 0);
    var bs := Blocks(n);
    forall k | 0 <= k < |bs|
      ensures bs[k].start <= i < bs[k].start + bs[k].size <==> k == i / MAX_BLOCK
    {
      BlockAt(n, k);
    }
  }

  /** Block starts are strictly increasing. */
  lemma BlocksIncreasing(n: nat)
    ensures forall j, k :: 0 <= j < k < |Blocks(n)| ==>
      Blocks(n)[j].start + Blocks(n)[j].size <= Blocks(n)[k].start
  {
    SplitClosedForm(n, 0);
  }

  /** The block length in 32-bit words sent as `LD_LEN`: `(sz + 3) // 4`,
      the least number of words holding `sz` bytes. */
  function WordLen(sz: nat): (w: nat)
    ensures 4 * w >= sz && 4 * w < sz + 4
  {
    (sz + 3) / 4
  }

  lemma WordLenTable()
    ensures [WordLen(0), WordLen(1), WordLen(2), WordLen(3), WordLen(4),
             WordLen(5), WordLen(6), WordLen(7), WordLen(8)] == [0, 1, 1, 1, 1, 2, 2, 2, 2]
  {
  }

  /** A full buffer is 4096 words. */
  lemma WordLenOfFullBlock(sz: nat)
    requires sz <= MAX_BLOCK
    ensures WordLen(sz) <= MAX_BLOCK / 4
  {
  }
}
