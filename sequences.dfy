/** Sequences of blocks: the per-item results a loop appends to one accumulating list. */
module Sequences {

  /** The concatenation of a sequence of blocks, in order. */
  function Flatten<T>(blocks: seq<seq<T>>): seq<T> {
    if blocks == [] then [] else Flatten(blocks[..|blocks| - 1]) + blocks[|blocks| - 1]
  }

  lemma {:induction false} FlattenMember<T>(blocks: seq<seq<T>>, x: T)
    ensures x in Flatten(blocks) <==> exists k | 0 <= k < |blocks| :: x in blocks[k]
  {
    if blocks != [] {
      var init := blocks[..|blocks| - 1];
      FlattenMember(init, x);
      assert forall k | 0 <= k < |init| :: init[k] == blocks[k];
    }
  }

  lemma {:induction false} FlattenAppend<T>(a: seq<seq<T>>, b: seq<seq<T>>)
    ensures Flatten(a + b) == Flatten(a) + Flatten(b)
  {
    if b != [] {
      assert (a + b)[..|a + b| - 1] == a + b[..|b| - 1];
      FlattenAppend(a, b[..|b| - 1]);
    } else {
      assert a + b == a;
    }
  }

  /** The length of a concatenation is the sum of the block lengths: nothing is deduplicated. */
  function SumOfLengths<T>(blocks: seq<seq<T>>): nat {
    if blocks == [] then 0 else SumOfLengths(blocks[..|blocks| - 1]) + |blocks[|blocks| - 1]|
  }

  lemma {:induction false} FlattenLength<T>(blocks: seq<seq<T>>)
    ensures |Flatten(blocks)| == SumOfLengths(blocks)
  {
    if blocks != [] {
      FlattenLength(blocks[..|blocks| - 1]);
    }
  }
}
