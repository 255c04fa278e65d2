/** The data commands a session accepted. */
module Blocks {
  import opened Words

  /** One accepted data command. */
  datatype Block = Block(index: U32, address: U32, data: seq<Word>)

  /** The words of all blocks, one after the other. */
  function WordsOf(bs: seq<Block>): seq<Word> {
    if bs == [] then [] else WordsOf(bs[..|bs| - 1]) + bs[|bs| - 1].data
  }

  lemma WordsOfStep(bs: seq<Block>, b: Block)
    ensures WordsOf(bs + [b]) == WordsOf(bs) + b.data
  {
    assert (bs + [b])[..|bs|] == bs;
  }

  /** The blocks carry the indexes 0, 1, 2, ... */
  predicate InOrder(bs: seq<Block>) {
    forall k :: 0 <= k < |bs| ==> bs[k].index == k
  }

  lemma InOrderStep(bs: seq<Block>, b: Block)
    requires InOrder(bs) && b.index == |bs|
    ensures InOrder(bs + [b])
  {
  }
}
