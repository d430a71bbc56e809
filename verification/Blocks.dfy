/** A file cut into 512-byte blocks, the last one shorter than 512 and possibly empty (RFC 1350 section 6). */
module Blocks {
  import opened Bytes

  const BLOCK_SIZE := 512

  function Min(a: nat, b: nat): nat {
    if a < b then a else b
  }

  /** The k-th `fread` of 512 bytes, counting from 1; past the end of the file it reads nothing. */
  function Block(f: seq<byte>, k: nat): seq<byte>
    requires 1 <= k
  {
    f[Min((k - 1) * BLOCK_SIZE, |f|)..Min(k * BLOCK_SIZE, |f|)]
  }

  /** How many blocks a transfer of `f` has: the first short read ends it. */
  function Count(f: seq<byte>): nat {
    |f| / BLOCK_SIZE + 1
  }

  /** The first `k` blocks of `f`, in order. */
  function Prefix(f: seq<byte>, k: nat): (r: seq<seq<byte>>)
    ensures |r| == k
  {
    seq(k, i requires 0 <= i => Block(f, i + 1))
  }

  /** Only the last block is short. */
  lemma OnlyLastShort(f: seq<byte>, k: nat)
    requires 1 <= k <= Count(f)
    ensures |Block(f, k)| < BLOCK_SIZE <==> k == Count(f)
    ensures k < Count(f) ==> |Block(f, k)| == BLOCK_SIZE
    ensures k == Count(f) ==> |Block(f, k)| == |f| % BLOCK_SIZE
  {
    if k < Count(f) {
      assert k * BLOCK_SIZE <= |f|;
    } else {
      assert (k - 1) * BLOCK_SIZE <= |f| < k * BLOCK_SIZE;
    }
  }

  /** The first `k` blocks together are the first `512 * k` bytes. */
  lemma {:induction false} ConcatPrefix(f: seq<byte>, k: nat)
    ensures Concat(Prefix(f, k)) == f[..Min(k * BLOCK_SIZE, |f|)]
  {
    if k == 0 {
    } else {
      ConcatPrefix(f, k - 1);
      assert Prefix(f, k) == Prefix(f, k - 1) + [Block(f, k)];
      ConcatSnoc(Prefix(f, k - 1), Block(f, k));
    }
  }

  lemma ConcatAll(f: seq<byte>)
    ensures Concat(Prefix(f, Count(f))) == f
  {
    ConcatPrefix(f, Count(f));
  }

  /** A list of blocks as TFTP sends them: all full but the last, which is short. */
  ghost predicate Framed(blocks: seq<seq<byte>>) {
    && blocks != []
    && (forall i :: 0 <= i < |blocks| - 1 ==> |blocks[i]| == BLOCK_SIZE)
    && |blocks[|blocks| - 1]| < BLOCK_SIZE
  }

  lemma BlockShift(x: seq<byte>, f: seq<byte>, k: nat)
    requires |x| == BLOCK_SIZE && 1 <= k
    ensures Count(x + f) == Count(f) + 1
    ensures Block(x + f, k + 1) == Block(f, k)
  {
    assert k * BLOCK_SIZE == (k - 1) * BLOCK_SIZE + BLOCK_SIZE;
    var lo, hi := Min((k - 1) * BLOCK_SIZE, |f|), Min(k * BLOCK_SIZE, |f|);
    assert (x + f)[BLOCK_SIZE + lo..BLOCK_SIZE + hi] == f[lo..hi];
  }

  lemma {:induction false} ConcatAt(blocks: seq<seq<byte>>, k: nat)
    requires Framed(blocks) && 1 <= k <= |blocks|
    ensures |blocks| == Count(Concat(blocks))
    ensures Block(Concat(blocks), k) == blocks[k - 1]
  {
    var rest := blocks[1..];
    if rest == [] {
      assert Concat(blocks) == blocks[0] + Concat(rest);
    } else {
      ConcatAt(rest, if k == 1 then 1 else k - 1);
      BlockShift(blocks[0], Concat(rest), if k == 1 then 1 else k - 1);
    }
  }

  /** Cutting a file into blocks and joining blocks into a file undo each other. */
  lemma SplitAndJoin(f: seq<byte>, blocks: seq<seq<byte>>)
    requires Framed(blocks)
    ensures Framed(Prefix(f, Count(f))) && Concat(Prefix(f, Count(f))) == f
    ensures Prefix(Concat(blocks), Count(Concat(blocks))) == blocks
  {
    ConcatAll(f);
    var cut := Prefix(f, Count(f));
    forall i | 0 <= i < |cut|
      ensures |cut[i]| < BLOCK_SIZE <==> i == |cut| - 1
      ensures i < |cut| - 1 ==> |cut[i]| == BLOCK_SIZE
    {
      OnlyLastShort(f, i + 1);
    }
    ConcatAt(blocks, 1);
    var again := Prefix(Concat(blocks), Count(Concat(blocks)));
    forall i | 0 <= i < |blocks|
      ensures again[i] == blocks[i]
    {
      ConcatAt(blocks, i + 1);
    }
  }
}
