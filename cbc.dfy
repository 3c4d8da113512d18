/**
 * Cipher Block Chaining over the block transform (cbc_encrypt and
 * cbc_decrypt), as in section 6.2 of NIST SP 800-38A:
 *   C[i] = E(P[i] ^ C[i-1]),   P[i] = D(C[i]) ^ C[i-1],   C[-1] = IV.
 *
 * The text handed to encryption is the bytes of a C buffer.  It is cut
 * into strlen/8 + 1 little-endian words; bytes beyond the end of the
 * buffer read as zero.  Decryption yields, per block, the bytes before
 * the block's first NUL, and joins them.
 */
module Cbc {
  import opened Words
  import opened BlockCipher
  import opened Marshal
  import opened LibC

  /** One step of encryption on bare words: XOR the plaintext into the chaining value, then transform. */
  function EncryptStep(p: Block, chain: Block, key: Block): Block
  {
    Encrypt(Xor(chain, p), key)
  }

  /** One step of decryption on bare words: transform back, then XOR out the chaining value. */
  function DecryptStep(c: Block, chain: Block, key: Block): Block
  {
    Xor(Decrypt(c, key), chain)
  }

  /** With the same chaining value and key, a decryption step undoes an encryption step ... */
  lemma DecryptEncryptStep(p: Block, chain: Block, key: Block)
    ensures DecryptStep(EncryptStep(p, chain, key), chain, key) == p
  {
    DecryptEncrypt(Xor(chain, p), key);
    XorCancel(p, chain);
  }

  /** ... and an encryption step undoes a decryption step. */
  lemma EncryptDecryptStep(c: Block, chain: Block, key: Block)
    ensures EncryptStep(DecryptStep(c, chain, key), chain, key) == c
  {
    XorCancel(Decrypt(c, key), chain);
    DecryptEncrypt(c, key);
  }

  /** A decryption step is injective in the ciphertext word ... */
  lemma DecryptStepInjective(c: Block, c': Block, chain: Block, key: Block)
    ensures c != c' ==> DecryptStep(c, chain, key) != DecryptStep(c', chain, key)
  {
    if c != c' && DecryptStep(c, chain, key) == DecryptStep(c', chain, key) {
      XorCancel(Decrypt(c, key), chain);
      XorCancel(Decrypt(c', key), chain);
      TransformInjective(c, c', key);
      assert false;
    }
  }

  /** ... and in the chaining value. */
  lemma DecryptStepChainInjective(c: Block, chain: Block, chain': Block, key: Block)
    ensures chain != chain' ==> DecryptStep(c, chain, key) != DecryptStep(c, chain', key)
  {
    if chain != chain' && DecryptStep(c, chain, key) == DecryptStep(c, chain', key) {
      XorCancel(chain, Decrypt(c, key));
      XorCancel(chain', Decrypt(c, key));
      assert false;
    }
  }

  /** The encryption step on array elements. */
  function EncryptWord(p: Word, chain: Word, key: Block): Word
  {
    Word(EncryptStep(p.bits, chain.bits, key))
  }

  /** The decryption step on array elements. */
  function DecryptWord(c: Word, chain: Word, key: Block): Word
  {
    Word(DecryptStep(c.bits, chain.bits, key))
  }

  /** The chaining value word `i` is combined with: the IV, then the previous ciphertext word. */
  function Chain(iv: Word, cs: seq<Word>, i: nat): Word
    requires i <= |cs|
  {
    if i == 0 then iv else cs[i - 1]
  }

  /** CBC encryption of a sequence of plaintext words; each ciphertext word becomes the next IV. */
  function CbcEncryptBlocks(iv: Word, ps: seq<Word>, key: Block): (cs: seq<Word>)
    ensures |cs| == |ps|
    decreases |ps|
  {
    if ps == [] then []
    else
      var c := EncryptWord(ps[0], iv, key);
      [c] + CbcEncryptBlocks(c, ps[1..], key)
  }

  /** CBC decryption of a sequence of ciphertext words; each ciphertext word becomes the next IV. */
  function CbcDecryptBlocks(iv: Word, cs: seq<Word>, key: Block): (ps: seq<Word>)
    ensures |ps| == |cs|
    decreases |cs|
  {
    if cs == [] then []
    else [DecryptWord(cs[0], iv, key)] + CbcDecryptBlocks(cs[0], cs[1..], key)
  }

  /** Word `i` of the ciphertext is the encryption step on plaintext word `i` and its chaining value. */
  lemma {:induction false} CbcEncryptAt(iv: Word, ps: seq<Word>, key: Block, i: nat)
    requires i < |ps|
    ensures var cs := CbcEncryptBlocks(iv, ps, key);
      cs[i] == EncryptWord(ps[i], Chain(iv, cs, i), key)
    decreases i
  {
    if i > 0 {
      var c := EncryptWord(ps[0], iv, key);
      CbcEncryptAt(c, ps[1..], key, i - 1);
    }
  }

  /** Word `j` of the plaintext depends on ciphertext words `j` and `j - 1` (or the IV) alone. */
  lemma {:induction false} CbcDecryptAt(iv: Word, cs: seq<Word>, key: Block, j: nat)
    requires j < |cs|
    ensures CbcDecryptBlocks(iv, cs, key)[j] == DecryptWord(cs[j], Chain(iv, cs, j), key)
    decreases j
  {
    if j > 0 {
      CbcDecryptAt(cs[0], cs[1..], key, j - 1);
    }
  }

  /** CBC round trip: decryption with the same IV and key recovers every plaintext word. */
  lemma {:induction false} CbcRoundTrip(iv: Word, ps: seq<Word>, key: Block)
    ensures CbcDecryptBlocks(iv, CbcEncryptBlocks(iv, ps, key), key) == ps
    decreases |ps|
  {
    if ps != [] {
      var c := EncryptWord(ps[0], iv, key);
      var cs := CbcEncryptBlocks(iv, ps, key);
      assert cs[0] == c && cs[1..] == CbcEncryptBlocks(c, ps[1..], key);
      DecryptEncryptStep(ps[0].bits, iv.bits, key);
      CbcRoundTrip(c, ps[1..], key);
      assert [ps[0]] + ps[1..] == ps;
    }
  }

  /** And conversely: every ciphertext is the encryption of its decryption. */
  lemma {:induction false} CbcEncryptDecrypt(iv: Word, cs: seq<Word>, key: Block)
    ensures CbcEncryptBlocks(iv, CbcDecryptBlocks(iv, cs, key), key) == cs
    decreases |cs|
  {
    if cs != [] {
      var p := DecryptWord(cs[0], iv, key);
      var ps := CbcDecryptBlocks(iv, cs, key);
      assert ps[0] == p && ps[1..] == CbcDecryptBlocks(cs[0], cs[1..], key);
      EncryptDecryptStep(cs[0].bits, iv.bits, key);
      CbcEncryptDecrypt(cs[0], cs[1..], key);
      assert [cs[0]] + cs[1..] == cs;
    }
  }

  /**
   * Error propagation in decryption: changing ciphertext word `i` leaves
   * every recovered word other than `i` and `i + 1` as it was.
   */
  lemma DecryptLocality(iv: Word, cs: seq<Word>, cs': seq<Word>, key: Block, i: nat)
    requires |cs| == |cs'| && i < |cs|
    requires forall j :: 0 <= j < |cs| && j != i ==> cs[j] == cs'[j]
    ensures var ps, ps' := CbcDecryptBlocks(iv, cs, key), CbcDecryptBlocks(iv, cs', key);
      forall j :: 0 <= j < |cs| && j != i && j != i + 1 ==> ps[j] == ps'[j]
  {
    forall j | 0 <= j < |cs| && j != i && j != i + 1
      ensures CbcDecryptBlocks(iv, cs, key)[j] == CbcDecryptBlocks(iv, cs', key)[j]
    {
      CbcDecryptAt(iv, cs, key, j);
      CbcDecryptAt(iv, cs', key, j);
      assert Chain(iv, cs, j) == Chain(iv, cs', j);
    }
  }

  /** ... and it does change recovered words `i` and `i + 1`. */
  lemma DecryptSensitivity(iv: Word, cs: seq<Word>, cs': seq<Word>, key: Block, i: nat)
    requires |cs| == |cs'| && i < |cs|
    requires forall j :: 0 <= j < |cs| && j != i ==> cs[j] == cs'[j]
    requires cs[i] != cs'[i]
    ensures CbcDecryptBlocks(iv, cs, key)[i] != CbcDecryptBlocks(iv, cs', key)[i]
    ensures i + 1 < |cs| ==> CbcDecryptBlocks(iv, cs, key)[i + 1] != CbcDecryptBlocks(iv, cs', key)[i + 1]
  {
    CbcDecryptAt(iv, cs, key, i);
    CbcDecryptAt(iv, cs', key, i);
    assert Chain(iv, cs, i) == Chain(iv, cs', i);
    DecryptStepInjective(cs[i].bits, cs'[i].bits, Chain(iv, cs, i).bits, key);
    if i + 1 < |cs| {
      CbcDecryptAt(iv, cs, key, i + 1);
      CbcDecryptAt(iv, cs', key, i + 1);
      DecryptStepChainInjective(cs[i + 1].bits, cs[i].bits, cs'[i].bits, key);
    }
  }

  /** The byte at offset `i` of the buffer, or zero once the buffer has ended. */
  function ByteAt(text: seq<Byte>, i: nat): Byte
  {
    if i < |text| then text[i] else 0
  }

  /** The 8 bytes of `text` from `start` on, zero where the buffer has ended. */
  function Window(text: seq<Byte>, start: nat): (w: seq<Byte>)
    ensures |w| == BytesPerBlock
  {
    [ByteAt(text, start), ByteAt(text, start + 1), ByteAt(text, start + 2), ByteAt(text, start + 3),
     ByteAt(text, start + 4), ByteAt(text, start + 5), ByteAt(text, start + 6), ByteAt(text, start + 7)]
  }

  /** The number of words cbc_encrypt emits for a text: strlen(text) / 8 + 1. */
  function BlockCount(text: seq<Byte>): nat
  {
    Strlen(text) / BitsPerByte + 1
  }

  /** `n` little-endian words read from `text`, the first at byte offset `start`. */
  function WindowWords(text: seq<Byte>, start: nat, n: nat): (ws: seq<Word>)
    ensures |ws| == n
    decreases n
  {
    if n == 0 then []
    else [Word(FromBytes(Window(text, start)))] + WindowWords(text, start + BytesPerBlock, n - 1)
  }

  /** The plaintext words cbc_encrypt reads from `text`. */
  function TextBlocks(text: seq<Byte>): seq<Word>
  {
    WindowWords(text, 0, BlockCount(text))
  }

  /** The words cbc_encrypt returns for `text`: the chain always starts from the zero IV. */
  function EncryptText(text: seq<Byte>, key: Block): seq<Word>
  {
    CbcEncryptBlocks(Word(InitializationVector), TextBlocks(text), key)
  }

  /** The string built by joining, in order, each word's bytes before its first NUL. */
  function JoinCStrs(ps: seq<Word>): (text: seq<Byte>)
    ensures 0 !in text
    ensures |text| <= BytesPerBlock * |ps|
  {
    if ps == [] then [] else CStr(ToBytes(ps[0].bits)) + JoinCStrs(ps[1..])
  }

  /** The string cbc_decrypt returns for the words `cs`. */
  function DecryptText(cs: seq<Word>, key: Block): seq<Byte>
  {
    JoinCStrs(CbcDecryptBlocks(Word(InitializationVector), cs, key))
  }

  /** Joining words read from a text starts with the string in the first window. */
  lemma JoinFirstWindow(text: seq<Byte>, start: nat, n: nat)
    requires n > 0
    ensures JoinCStrs(WindowWords(text, start, n))
         == CStr(Window(text, start)) + JoinCStrs(WindowWords(text, start + BytesPerBlock, n - 1))
  {
    var ws := WindowWords(text, start, n);
    ToFromBytes(Window(text, start));
    assert ws[1..] == WindowWords(text, start + BytesPerBlock, n - 1);
  }

  /** As far as the buffer reaches, a window holds the buffer's own bytes. */
  lemma WindowAgrees(text: seq<Byte>, start: nat, m: nat)
    requires m <= BytesPerBlock && start + m <= |text|
    ensures Window(text, start)[..m] == text[start..start + m]
  {
  }

  /** A window that lies wholly before the NUL holds eight bytes of the string. */
  lemma FullWindow(text: seq<Byte>, start: nat)
    requires start + BytesPerBlock <= Strlen(text)
    ensures CStr(Window(text, start)) == text[start..start + BytesPerBlock]
  {
    var w := Window(text, start);
    WindowAgrees(text, start, BytesPerBlock);
    assert w == w[..BytesPerBlock];
    CStrOfUnterminated(w);
  }

  /** The window that holds the NUL holds the end of the string. */
  lemma LastWindow(text: seq<Byte>, start: nat)
    requires 0 in text
    requires start <= Strlen(text) < start + BytesPerBlock
    ensures CStr(Window(text, start)) == text[start..Strlen(text)]
  {
    var len := Strlen(text);
    StrlenFrom(text, start);
    WindowAgrees(text, start, len - start + 1);
    CStrOfPrefix(text[start..len + 1], Window(text, start));
  }

  /**
   * The words read from a terminated text, from a word boundary before its
   * NUL on, join back to the rest of its string.
   */
  lemma {:induction false} JoinWindows(text: seq<Byte>, start: nat, n: nat)
    requires 0 in text
    requires n > 0
    requires start + BytesPerBlock * (n - 1) <= Strlen(text) < start + BytesPerBlock * n
    ensures JoinCStrs(WindowWords(text, start, n)) == text[start..Strlen(text)]
    decreases n
  {
    var len := Strlen(text);
    JoinFirstWindow(text, start, n);
    if n == 1 {
      LastWindow(text, start);
    } else {
      FullWindow(text, start);
      JoinWindows(text, start + BytesPerBlock, n - 1);
      SliceSplit(text, start, start + BytesPerBlock, len);
    }
  }

  /** Adjacent slices join into one. */
  lemma SliceSplit(s: seq<Byte>, i: nat, j: nat, k: nat)
    requires i <= j <= k <= |s|
    ensures s[i..j] + s[j..k] == s[i..k]
  {
  }

  /** Text round trip: decrypting what encryption produced gives back the string that was encrypted. */
  lemma TextRoundTrip(text: seq<Byte>, key: Block)
    requires 0 in text
    ensures DecryptText(EncryptText(text, key), key) == CStr(text)
  {
    CbcRoundTrip(Word(InitializationVector), TextBlocks(text), key);
    JoinWindows(text, 0, BlockCount(text));
  }

  /** Word `k` read from a text is the window at byte `start + 8k`. */
  lemma {:induction false} WindowWordsAt(text: seq<Byte>, start: nat, n: nat, k: nat)
    requires k < n
    ensures WindowWords(text, start, n)[k] == Word(FromBytes(Window(text, start + BytesPerBlock * k)))
    decreases k
  {
    if k > 0 {
      WindowWordsAt(text, start + BytesPerBlock, n - 1, k - 1);
    }
  }

  /**
   * Ciphertext word `i` of a text, as cbc_encrypt forms it: the encryption
   * of the text's word at byte `8i` XORed with the previous ciphertext word
   * (the zero IV for the first).
   */
  lemma EncryptTextAt(text: seq<Byte>, key: Block, i: nat)
    requires i < BlockCount(text)
    ensures var cs := EncryptText(text, key);
      cs[i] == EncryptWord(Word(FromBytes(Window(text, BytesPerBlock * i))), Chain(Word(InitializationVector), cs, i), key)
  {
    CbcEncryptAt(Word(InitializationVector), TextBlocks(text), key, i);
    WindowWordsAt(text, 0, BlockCount(text), i);
  }

  /**
   * One turn of the loop of cbc_encrypt: XOR the text's word `i` into the
   * chaining value and encrypt the result.
   */
  method ChainNext(text: seq<Byte>, i: nat, chain: Block, key: Block) returns (encrypted: Block)
    requires i < BlockCount(text)
    requires Word(chain) == Chain(Word(InitializationVector), EncryptText(text, key), i)
    ensures Word(encrypted) == EncryptText(text, key)[i]
  {
    EncryptTextAt(text, key, i);
    var newBlock := FromBytes(Window(text, BytesPerBlock * i));
    var pIV := Xor(chain, newBlock);
    encrypted := BlockCipherEncrypt(pIV, key);
  }

  /**
   * cbc_encrypt: reads strlen(text) / 8 + 1 words from the text and chains
   * them, from a zeroed IV, into a block buffer that doubles whenever the
   * bits written reach its capacity.  The caller's `pIV` is not read: the
   * source replaces the argument with a fresh zeroed allocation.
   */
  method CbcEncrypt(text: seq<Byte>, pIV: Word, key: Block) returns (returnBlocks: array<Word>)
    ensures InputSize <= returnBlocks.Length
    ensures BitsPerBlock * BlockCount(text) < BytesPerBlock * returnBlocks.Length
    ensures returnBlocks[..BlockCount(text)] == EncryptText(text, key)
  {
    ghost var expected := EncryptText(text, key);
    returnBlocks := new Word[InputSize](_ => Word(0));
    var allocatedSpace := InputSize * BytesPerBlock;
    var spaceFilled := 0;
    var chain: Block := 0;  // *pIV of a zeroed allocation
    var i := 0;
    while i < Strlen(text) / BitsPerByte + 1
      invariant i <= BlockCount(text) == |expected|
      invariant fresh(returnBlocks)
      invariant InputSize <= returnBlocks.Length
      invariant allocatedSpace == BytesPerBlock * returnBlocks.Length
      invariant spaceFilled == BitsPerBlock * i < allocatedSpace
      invariant forall k :: 0 <= k < i ==> returnBlocks[k] == expected[k]
      invariant Word(chain) == Chain(Word(InitializationVector), expected, i)
      decreases BlockCount(text) - i
    {
      spaceFilled := spaceFilled + BitsPerBlock;
      if spaceFilled >= allocatedSpace {
        returnBlocks := Realloc(returnBlocks, 2 * returnBlocks.Length);
        allocatedSpace := 2 * allocatedSpace;
      }
      var encrypted := ChainNext(text, i, chain, key);
      returnBlocks[i] := Word(encrypted);
      chain := returnBlocks[i].bits;
      i := i + 1;
    }
    assert returnBlocks[..i] == expected;
  }

  /** Joining one more word appends that word's string. */
  lemma {:induction false} JoinCStrsSnoc(ps: seq<Word>, p: Word)
    ensures JoinCStrs(ps + [p]) == JoinCStrs(ps) + CStr(ToBytes(p.bits))
    decreases |ps|
  {
    if ps != [] {
      assert (ps + [p])[1..] == ps[1..] + [p];
      JoinCStrsSnoc(ps[1..], p);
    } else {
      assert [p][1..] == [];
    }
  }

  /** Joining the first `i + 1` words appends word `i`'s string to the join of the first `i`. */
  lemma JoinStep(ps: seq<Word>, i: nat, b: Block)
    requires i < |ps| && Word(b) == ps[i]
    ensures JoinCStrs(ps[..i]) + CStr(ToBytes(b)) == JoinCStrs(ps[..i + 1])
  {
    assert ps[..i + 1] == ps[..i] + [ps[i]];
    JoinCStrsSnoc(ps[..i], ps[i]);
  }

  /**
   * The chaining recurrence determines the plaintext: words that each are
   * the decryption step on their ciphertext word and the previous
   * ciphertext word (the IV for the first) are the CBC decryption.
   */
  lemma {:induction false} CbcDecryptUnique(iv: Word, cs: seq<Word>, key: Block, ps: seq<Word>)
    requires |ps| == |cs|
    requires forall j :: 0 <= j < |ps| ==> ps[j] == DecryptWord(cs[j], Chain(iv, cs, j), key)
    ensures ps == CbcDecryptBlocks(iv, cs, key)
    decreases |cs|
  {
    if cs != [] {
      forall j | 0 <= j < |ps| - 1
        ensures ps[1..][j] == DecryptWord(cs[1..][j], Chain(cs[0], cs[1..], j), key)
      {
        assert ps[j + 1] == DecryptWord(cs[j + 1], Chain(iv, cs, j + 1), key);
      }
      CbcDecryptUnique(cs[0], cs[1..], key, ps[1..]);
      assert ps == [ps[0]] + ps[1..];
    }
  }

  /**
   * One turn of the loop of cbc_decrypt: decrypt ciphertext word `i` and
   * XOR the chaining value into the result.
   */
  method DecryptNext(ciphertext: seq<Word>, count: nat, i: nat, chain: Block, key: Block, ghost ps: seq<Word>)
    returns (newBlock: Block)
    requires i < count <= |ciphertext|
    requires ps == CbcDecryptBlocks(Word(InitializationVector), ciphertext[..count], key)
    requires Word(chain) == Chain(Word(InitializationVector), ciphertext[..count], i)
    ensures Word(newBlock) == ps[i]
  {
    CbcDecryptAt(Word(InitializationVector), ciphertext[..count], key, i);
    newBlock := BlockCipherDecrypt(ciphertext[i].bits, key);
    newBlock := Xor(newBlock, chain);
  }

  /**
   * The per-block buffer of cbc_decrypt: a zeroed allocation that
   * block64_to_string fills with the word's eight bytes.  It is given room
   * for a NUL after them, so it always holds a terminated string.
   */
  method WordData(newBlock: Block) returns (data: array<Byte>)
    ensures fresh(data) && data.Length == BytesPerBlock + 1
    ensures 0 in data[..] && Strlen(data[..]) <= BytesPerBlock
    ensures CStr(data[..]) == CStr(ToBytes(newBlock))
  {
    data := new Byte[BytesPerBlock + 1](_ => 0);
    assert data[BytesPerBlock..] == [0];
    Block64ToString(newBlock, data);
    CStrOfNulPadded(data[..], ToBytes(newBlock));
  }

  /**
   * The per-block buffer of cbc_decrypt as the source allocates it:
   * BITS_PER_BYTE (8) zeroed bytes, every one of which block64_to_string
   * then overwrites, leaving no room for the NUL that strcat looks for.
   */
  method UnterminatedData(newBlock: Block) returns (data: array<Byte>)
    ensures data.Length == BitsPerByte && data[..] == ToBytes(newBlock)
  {
    data := new Byte[BitsPerByte](_ => 0);
    Block64ToString(newBlock, data);
    assert data[..] == data[..BytesPerBlock];
  }

  /**
   * The buffer above is unterminated for real ciphertext: for any text of
   * eight or more characters ("ABCDEFGH", say), decrypting what encryption
   * produced yields a first word whose eight bytes are the text's first
   * eight characters, none of them NUL.
   */
  lemma LongTextUnterminated(text: seq<Byte>, key: Block)
    requires BytesPerBlock <= Strlen(text)
    ensures var p := CbcDecryptBlocks(Word(InitializationVector), EncryptText(text, key), key)[0];
      ToBytes(p.bits) == text[..BytesPerBlock] && 0 !in ToBytes(p.bits)
  {
    CbcRoundTrip(Word(InitializationVector), TextBlocks(text), key);
    WindowWordsAt(text, 0, BlockCount(text), 0);
    WindowAgrees(text, 0, BytesPerBlock);
    ToFromBytes(Window(text, 0));
  }

  /**
   * The tail of one pass of cbc_decrypt's loop: count the block's bits as
   * used, double the string buffer when they reach its capacity, and append
   * the string of plaintext word `i` to it.
   */
  method AppendWord(plaintext: array<Byte>, allocatedSpace: nat, spaceUsed: nat, newBlock: Block,
                    ghost ps: seq<Word>, ghost i: nat)
    returns (result: array<Byte>, newAllocated: nat, newUsed: nat)
    requires InputSize <= plaintext.Length == allocatedSpace
    requires spaceUsed < allocatedSpace
    requires BitsPerByte * Strlen(plaintext[..]) <= spaceUsed
    requires i < |ps| && Word(newBlock) == ps[i]
    requires CStr(plaintext[..]) == JoinCStrs(ps[..i])
    modifies plaintext
    ensures spaceUsed + BitsPerBlock < allocatedSpace ==> result == plaintext && newAllocated == allocatedSpace
    ensures allocatedSpace <= spaceUsed + BitsPerBlock ==> fresh(result) && newAllocated == 2 * allocatedSpace
    ensures allocatedSpace <= result.Length == newAllocated
    ensures newUsed == spaceUsed + BitsPerBlock < newAllocated
    ensures BitsPerByte * Strlen(result[..]) <= newUsed
    ensures CStr(result[..]) == JoinCStrs(ps[..i + 1])
  {
    var data := WordData(newBlock);
    result, newAllocated, newUsed := plaintext, allocatedSpace, spaceUsed + BitsPerBlock;
    if newUsed >= newAllocated {
      result := ReallocString(plaintext, 2 * allocatedSpace);
      newAllocated := 2 * allocatedSpace;
    }
    Strcat(result, data);
    JoinStep(ps, i, newBlock);
  }

  /**
   * cbc_decrypt: decrypts `count` words, from a zeroed IV, and appends each
   * plaintext word's bytes before its first NUL to a string buffer that
   * doubles whenever the bits used reach its capacity.  The caller's `pIV`
   * is not read: the source replaces the argument with a fresh zeroed
   * allocation.
   *
   * Each word is unpacked into a buffer with room for the eight bytes and a
   * NUL, which the source's 8-byte buffer lacks (see UnterminatedData).
   */
  method CbcDecrypt(ciphertext: seq<Word>, count: nat, pIV: Word, key: Block) returns (plaintext: array<Byte>)
    requires count <= |ciphertext|
    ensures InputSize <= plaintext.Length
    ensures Strlen(plaintext[..]) < plaintext.Length
    ensures CStr(plaintext[..]) == DecryptText(ciphertext[..count], key)
  {
    ghost var expected := CbcDecryptBlocks(Word(InitializationVector), ciphertext[..count], key);
    plaintext := new Byte[InputSize](_ => 0);
    var allocatedSpace := InputSize;
    var spaceUsed := 0;
    var chain: Block := 0;  // *pIV of a zeroed allocation
    var i := 0;
    while i < count
      invariant i <= count == |expected|
      invariant fresh(plaintext)
      invariant InputSize <= plaintext.Length == allocatedSpace
      invariant spaceUsed < allocatedSpace
      invariant BitsPerByte * Strlen(plaintext[..]) <= spaceUsed
      invariant CStr(plaintext[..]) == JoinCStrs(expected[..i])
      invariant Word(chain) == Chain(Word(InitializationVector), ciphertext[..count], i)
    {
      var newBlock := DecryptNext(ciphertext, count, i, chain, key, expected);
      chain := ciphertext[i].bits;
      plaintext, allocatedSpace, spaceUsed := AppendWord(plaintext, allocatedSpace, spaceUsed, newBlock, expected, i);
      i := i + 1;
    }
    assert expected[..i] == expected;
  }
}
