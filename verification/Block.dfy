/** The storage layer: a sequence of blocks of fixed size. */
module Block {

  type Byte = n: int | 0 <= n < 256

  const BLOCK_SIZE := 512

  type Block = s: seq<Byte> | |s| == BLOCK_SIZE witness seq(BLOCK_SIZE, _ => 0)

  function Zeros(): Block {
    seq(BLOCK_SIZE, _ => 0)
  }

  class Blocks {
    var blocks: seq<Block>

    constructor (num: nat)
      ensures blocks == seq(num, _ => Zeros())
    {
      blocks := seq(num, _ => Zeros());
    }

    method BlockRead(no: nat) returns (status: int, block: Block)
      ensures status == if no < |blocks| then 0 else -1
      ensures no < |blocks| ==> block == blocks[no]
    {
      if no >= |blocks| {
        return -1, Zeros();
      }
      return 0, blocks[no];
    }

    method BlockWrite(no: nat, block: Block) returns (status: int)
      modifies this
      ensures status == if no < |old(blocks)| then 0 else -1
      ensures blocks == if no < |old(blocks)| then old(blocks)[no := block] else old(blocks)
    {
      if no >= |blocks| {
        return -1;
      }
      blocks := blocks[no := block];
      return 0;
    }
  }
}
