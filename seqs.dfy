/** Sequence helpers shared by the grid, the observation encoding and the
    history stacking. */
module Seqs {

  /** n copies of v (a numpy `zeros` vector, an all-zero grid row). */
  function Repeat<T>(v: T, n: nat): (r: seq<T>)
    ensures |r| == n
    ensures forall i :: 0 <= i < n ==> r[i] == v
  {
    seq(n, _ => v)
  }

  /** The concatenation of a sequence of blocks, first block first
      (numpy `concatenate`, and the row-major `flatten` of a grid). */
  function Concat<T>(blocks: seq<seq<T>>): seq<T>
  {
    if blocks == [] then [] else blocks[0] + Concat(blocks[1..])
  }

  /** Blocks that all have k entries concatenate to |blocks| * k entries. */
  lemma {:induction false} ConcatLength<T>(blocks: seq<seq<T>>, k: nat)
    requires forall b :: 0 <= b < |blocks| ==> |blocks[b]| == k
    ensures |Concat(blocks)| == |blocks| * k
  {
    if blocks != [] {
      ConcatLength(blocks[1..], k);
      assert |blocks| * k == k + (|blocks| - 1) * k;
    }
  }

  /** In a concatenation of blocks of k entries each, entry i * k + j is
      entry j of block i. */
  lemma {:induction false} ConcatAt<T>(blocks: seq<seq<T>>, k: nat, i: nat, j: nat)
    requires forall b :: 0 <= b < |blocks| ==> |blocks[b]| == k
    requires i < |blocks| && j < k
    ensures |Concat(blocks)| == |blocks| * k
    ensures i * k + j < |blocks| * k
    ensures Concat(blocks)[i * k + j] == blocks[i][j]
  {
    ConcatLength(blocks, k);
    BlockIndexBound(i, |blocks|, k, j);
    if i > 0 {
      var m := (i - 1) * k + j;
      ConcatAt(blocks[1..], k, i - 1, j);
      ShiftBlock(i, k, j);
      assert Concat(blocks) == blocks[0] + Concat(blocks[1..]);
      assert Concat(blocks)[k + m] == Concat(blocks[1..])[m];
    }
  }

  lemma BlockIndexBound(i: nat, n: nat, k: nat, j: nat)
    requires i < n && j < k
    ensures i * k + j < n * k
  {
    assert i * k <= (n - 1) * k;
  }

  lemma ShiftBlock(i: nat, k: nat, j: nat)
    requires i > 0
    ensures i * k + j == k + ((i - 1) * k + j)
  {
  }
}
