/**
 * Machine-level vocabulary of cbc_lib.c: bytes, 64-bit blocks and the
 * compile-time constants of the library.
 *
 * The library's BYTES_PER_BLOCK is sizeof(long); this model fixes it at 8,
 * so a block is a 64-bit word.
 */
module Words {

  /** One `char` / `unsigned char` of a text or ciphertext buffer. */
  type Byte = bv8

  /** A `block64`: an unsigned 64-bit word, the unit the cipher works on. */
  type Block = bv64

  /**
   * A `block64` as an element of a block array.  The wrapper adds nothing
   * to the word; arrays and sequences of blocks hold their elements in
   * this form.
   */
  datatype Word = Word(bits: Block)

  /** The C `^` on two blocks. */
  function Xor(a: Block, b: Block): Block
  {
    a ^ b
  }

  /** XOR-ing the same block in twice, on either side, gives back the original. */
  lemma XorCancel(a: Block, b: Block)
    ensures Xor(Xor(a, b), b) == a
    ensures Xor(Xor(b, a), b) == a
    ensures Xor(b, Xor(a, b)) == a
  {
  }

  const BytesPerBlock: nat := 8
  const BitsPerByte: nat := 8
  const BitsPerBlock: nat := BytesPerBlock * BitsPerByte

  /** Base size of every buffer the library allocates, in elements. */
  const InputSize: nat := 24 * BytesPerBlock

  /** The static key used by both directions of the cipher. */
  const Key: Block := 0x1234_DEAD_BEEF_CAFE

  /** The starting vector every chain begins from. */
  const InitializationVector: Block := 0

  const ExitSuccess: int := 0
  const ExitFailure: int := 1
}
