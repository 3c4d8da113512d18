/**
 * The block transform (block_cipher_encrypt and block_cipher_decrypt):
 * four rounds of "roll left by 10, then XOR the key", and its inverse,
 * four rounds of "XOR the key, then roll right by 10".
 *
 * The functions are the specification; the two methods are the source's
 * counting loops, proved to compute them.
 */
module BlockCipher {
  import opened Words
  import opened Rotation

  const Rounds: nat := 4
  const RollCount: bv64 := 10
  /** One round of block_cipher_encrypt: roll left by 10 bits, then XOR the key. */
  function EncryptRound(block: Block, key: Block): Block
  {
    RollLeft(block, RollCount) ^ key
  }

  /** One round of block_cipher_decrypt: XOR the key, then roll right by 10 bits. */
  function DecryptRound(block: Block, key: Block): Block
  {
    RollRight(block ^ key, RollCount)
  }

  /** The block after `n` encryption rounds. */
  function EncryptRounds(block: Block, key: Block, n: nat): Block
  {
    if n == 0 then block else EncryptRound(EncryptRounds(block, key, n - 1), key)
  }

  /** The block after `n` decryption rounds. */
  function DecryptRounds(block: Block, key: Block, n: nat): Block
  {
    if n == 0 then block else DecryptRound(DecryptRounds(block, key, n - 1), key)
  }

  /** block_cipher_encrypt: four encryption rounds. */
  function Encrypt(block: Block, key: Block): Block
  {
    EncryptRounds(block, key, Rounds)
  }

  /** block_cipher_decrypt: four decryption rounds. */
  function Decrypt(block: Block, key: Block): Block
  {
    DecryptRounds(block, key, Rounds)
  }

  /** One decryption round undoes one encryption round, and conversely. */
  lemma RoundInverse(block: Block, key: Block)
    ensures DecryptRound(EncryptRound(block, key), key) == block
    ensures EncryptRound(DecryptRound(block, key), key) == block
  {
    RollInverse(block);
    RollInverse(block ^ key);
  }

  /** The first of `n` encryption rounds can be peeled off the front. */
  lemma {:induction false} EncryptRoundsFirst(block: Block, key: Block, n: nat)
    requires n > 0
    ensures EncryptRounds(block, key, n) == EncryptRounds(EncryptRound(block, key), key, n - 1)
  {
    if n > 1 {
      EncryptRoundsFirst(block, key, n - 1);
    }
  }

  /** The first of `n` decryption rounds can be peeled off the front. */
  lemma {:induction false} DecryptRoundsFirst(block: Block, key: Block, n: nat)
    requires n > 0
    ensures DecryptRounds(block, key, n) == DecryptRounds(DecryptRound(block, key), key, n - 1)
  {
    if n > 1 {
      DecryptRoundsFirst(block, key, n - 1);
    }
  }

  /**
   * For any number of rounds and any key, decryption undoes encryption and
   * encryption undoes decryption: each is a bijection on 64-bit words.
   */
  lemma {:induction false} RoundsInverse(block: Block, key: Block, n: nat)
    ensures DecryptRounds(EncryptRounds(block, key, n), key, n) == block
    ensures EncryptRounds(DecryptRounds(block, key, n), key, n) == block
  {
    if n > 0 {
      var e := EncryptRounds(block, key, n - 1);
      DecryptRoundsFirst(EncryptRound(e, key), key, n);
      RoundInverse(e, key);
      var d := DecryptRounds(block, key, n - 1);
      EncryptRoundsFirst(DecryptRound(d, key), key, n);
      RoundInverse(d, key);
      RoundsInverse(block, key, n - 1);
    }
  }

  /** The four-round transform and its inverse. */
  lemma DecryptEncrypt(block: Block, key: Block)
    ensures Decrypt(Encrypt(block, key), key) == block
    ensures Encrypt(Decrypt(block, key), key) == block
  {
    RoundsInverse(block, key, Rounds);
  }

  /** Consequently neither direction maps two blocks to one. */
  lemma TransformInjective(a: Block, b: Block, key: Block)
    ensures Encrypt(a, key) == Encrypt(b, key) ==> a == b
    ensures Decrypt(a, key) == Decrypt(b, key) ==> a == b
  {
    DecryptEncrypt(a, key);
    DecryptEncrypt(b, key);
  }

  method BlockCipherEncrypt(block: Block, key: Block) returns (newBlock: Block)
    ensures newBlock == Encrypt(block, key)
  {
    newBlock := block;
    for i := 0 to Rounds
      invariant newBlock == EncryptRounds(block, key, i)
    {
      newBlock := EncryptRound(newBlock, key);  // roll left by 10, then XOR the key
    }
  }

  method BlockCipherDecrypt(block: Block, key: Block) returns (newBlock: Block)
    ensures newBlock == Decrypt(block, key)
  {
    newBlock := block;
    for i := 0 to Rounds
      invariant newBlock == DecryptRounds(block, key, i)
    {
      newBlock := DecryptRound(newBlock, key);  // XOR the key, then roll right by 10
    }
  }
}
