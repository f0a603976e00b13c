/** Disk blocks as raw bytes, and the little-endian 32-bit words that the kernel
    reads out of them by casting `bp->data` to `uint*` or to a struct. */
module Blocks {
  const BSIZE: nat := 1024
  const WORDS: nat := 256
  const WORD_LIMIT: nat := 0x1_0000_0000

  type Byte = x: int | 0 <= x < 256
  type Block = b: seq<Byte> | |b| == BSIZE witness seq(BSIZE, i => 0)
  type Disk = seq<Block>

  function ZeroBlock(): Block {
    seq(BSIZE, i => 0)
  }

  function Word(b: Block, j: nat): (w: nat)
    requires j < WORDS
    ensures w < WORD_LIMIT
  {
    var b0: int, b1: int, b2: int, b3: int := b[4 * j], b[4 * j + 1], b[4 * j + 2], b[4 * j + 3];
    b0 + 0x100 * b1 + 0x1_0000 * b2 + 0x100_0000 * b3
  }

  function SetWord(b: Block, j: nat, w: nat): Block
    requires j < WORDS && w < WORD_LIMIT
  {
    b[4 * j := w % 0x100][4 * j + 1 := w / 0x100 % 0x100]
     [4 * j + 2 := w / 0x1_0000 % 0x100][4 * j + 3 := w / 0x100_0000]
  }

  lemma DigitsOfWord(w: nat)
    requires w < WORD_LIMIT
    ensures w == w % 0x100 + 0x100 * (w / 0x100 % 0x100)
              + 0x1_0000 * (w / 0x1_0000 % 0x100) + 0x100_0000 * (w / 0x100_0000)
  {
    var u := w / 0x100;
    var v := u / 0x100;
    assert v == w / 0x1_0000 && v / 0x100 == w / 0x100_0000;
    assert w == w % 0x100 + 0x100 * u && u == u % 0x100 + 0x100 * v && v == v % 0x100 + 0x100 * (v / 0x100);
  }

  /** A stored word reads back, and no other word of the block moves. */
  lemma WordOfSetWord(b: Block, j: nat, w: nat)
    requires j < WORDS && w < WORD_LIMIT
    ensures Word(SetWord(b, j, w), j) == w
    ensures forall i: nat | i < WORDS && i != j :: Word(SetWord(b, j, w), i) == Word(b, i)
  {
    DigitsOfWord(w);
  }

  lemma ZeroBlockWords(j: nat)
    requires j < WORDS
    ensures Word(ZeroBlock(), j) == 0
  {
  }
}
