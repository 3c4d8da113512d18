# CBC toy cipher — a Dafny model of `cbc_lib.c`

`cbc_lib.c` implements a small 64-bit block cipher. It runs that cipher in
Cipher Block Chaining mode, as defined in NIST SP 800-38A section 6.2. It also
provides two drivers:
- `encode` reads standard input in chunks and writes one 8-byte ciphertext
  record per chunk to a file.
- `decode` reads such a file back, decrypts each record and prints the text.

This project models the library in five layers, each in its own module:

| module | file | models |
|---|---|---|
| `Words` | `words.dfy` | `block64` as `bv64` and bytes as `bv8`; the `XOR` of two words; the constants of lines 21-27 (8 bytes per block, key `0x1234DeadBeefCafe`, zero IV) |
| `Rotation` | `rotation.dfy` | `roll_right` / `roll_left` as shift-and-or functions |
| `BlockCipher` | `block_cipher.dfy` | the 4-round transform (rotate left by 10 then XOR the key, and its mirror), as a round function plus the two looping methods |
| `Marshal` | `marshal.dfy` | `block64_to_string`: a block becomes 8 bytes, least significant first |
| `LibC` | `libc.dfy` | the C string conventions the library relies on (`strlen`, the string before the first NUL, `strcat`, `realloc`) |
| `Cbc` | `cbc.dfy` | `cbc_encrypt` and `cbc_decrypt` as methods over arrays with doubling buffers, each proved against chaining functions on sequences of words |
| `Driver` | `driver.dfy` | the chunk-to-record loop of `encode` and the record-to-text loop of `decode`, with stdin and the file as values |

## How each layer is specified

**Block cipher.** `Encrypt` and `Decrypt` are the C transforms written as
functions. `BlockCipherEncrypt` and `BlockCipherDecrypt` are the loops, proved
equal to them. The transform is a bijection: decryption inverts encryption in
both directions.

**Chaining.** `CbcEncryptBlocks` and `CbcDecryptBlocks` define
`C[i] = E(chain ^ P[i])` and `P[i] = D(C[i]) ^ chain` on sequences of words.
The chain is the IV for the first word and the previous ciphertext word after
that. The proved laws are:
- the round trip, in both directions;
- the closed form of each word;
- locality: changing `C[i]` changes exactly `P[i]` and `P[i+1]`.

**Text.** `cbc_encrypt` reads `strlen(text) / 8 + 1` little-endian words
from the text. The model reads every byte past the end of the buffer as zero.
`cbc_decrypt` joins, in order, each decrypted word's bytes up to its first NUL.
`TextRoundTrip` proves that decrypting `cbc_encrypt`'s output gives back the C
string. `CbcEncrypt` and `CbcDecrypt` are the imperative functions, with:
- the running IV;
- the `space_filled` / `allocated_space` counters;
- the doubling `realloc`;
- `strcat`.

Each is proved to return exactly the sequence function's result. Both start
from a zero IV and ignore their `pIV` argument, because the source replaces it
with a fresh `calloc` (lines 140 and 177).

**Drivers.** `encode` is given the sequence of chunks that `fgets` would
return, each at most 7 bytes. It reuses one 192-byte buffer. `fgets` writes the
chunk and a NUL over it, so the bytes after the NUL are left over from earlier
chunks. Each chunk becomes the first word of `cbc_encrypt` on that buffer.

The written file is those records serialized. `decode` takes the file contents,
or `None` when the file cannot be opened. It decrypts every full 8-byte record
as a chain of its own, with the IV reset each time, and drops a short tail
record, because `num_read / 8` is 0 for it. `EncodeDecode` proves the drivers'
round trip: decoding what `encode` wrote prints the input chunks, concatenated.

## Model

| member | source | states |
|---|---|---|
| Rotation.RollRight | cbc_lib.c:36-44 | defines `roll_right` as the OR of `block >> count` and `block << (64 - count)` for `0 < count < 64`; what it computes is stated by RollsAreRotations and RollInverse |
| Rotation.RollLeft | cbc_lib.c:53-61 | defines `roll_left` as the OR of `block << count` and `block >> (64 - count)` for `0 < count < 64`; what it computes is stated by RollsAreRotations and RollInverse |
| Rotation.RollsAreRotations | cbc_lib.c:36-61 | rolling by 10 bits is the circular rotation of the 64-bit word, left and right |
| Rotation.RollInverse | cbc_lib.c:36-61 | `roll_left(roll_right(x, 10), 10) == x` and the converse |
| BlockCipher.EncryptRound | cbc_lib.c:77-79 | defines one pass of the encryption loop: roll left by 10, then XOR the key; RoundInverse states its inverse |
| BlockCipher.DecryptRound | cbc_lib.c:98-100 | defines one pass of the decryption loop: XOR the key, then roll right by 10; RoundInverse states its inverse |
| BlockCipher.Encrypt | cbc_lib.c:71-82 | defines `block_cipher_encrypt` as 4 encryption rounds; DecryptEncrypt and TransformInjective state its properties |
| BlockCipher.Decrypt | cbc_lib.c:92-103 | defines `block_cipher_decrypt` as 4 decryption rounds; DecryptEncrypt and TransformInjective state its properties |
| BlockCipher.RoundInverse | cbc_lib.c:75-101 | one decryption round (XOR the key, roll right) undoes one encryption round (roll left, XOR the key), and conversely |
| BlockCipher.RoundsInverse | cbc_lib.c:71-103 | any number of decryption rounds undoes as many encryption rounds, in both orders |
| BlockCipher.DecryptEncrypt | cbc_lib.c:71-103 | `block_cipher_decrypt(block_cipher_encrypt(b, k), k) == b` and the converse, for every block and key |
| BlockCipher.TransformInjective | cbc_lib.c:71-103 | encryption and decryption under a fixed key are injective, so the transform is a bijection on 64-bit words |
| BlockCipher.BlockCipherEncrypt | cbc_lib.c:71-82 | the 4-round loop returns the encryption of the block under the key |
| BlockCipher.BlockCipherDecrypt | cbc_lib.c:92-103 | the 4-round loop returns the decryption of the block under the key |
| Marshal.LowByteStep | cbc_lib.c:115-118 | byte `i` written is the low byte of `txt` shifted right by `8*i` bits |
| Marshal.MaskIrrelevant | cbc_lib.c:117 | clearing the low byte before the 8-bit shift does not change the shifted value |
| Marshal.FromToBytes | cbc_lib.c:112-120 | reassembling the 8 bytes little-endian gives back the block |
| Marshal.ToFromBytes | cbc_lib.c:112-120 | splitting the reassembled block gives back the 8 bytes, so the byte split is a bijection |
| Marshal.Block64ToString | cbc_lib.c:112-120 | the first 8 bytes of `data` become the block's bytes, least significant first, and the rest of `data` is unchanged |
| LibC.Strlen | cbc_lib.c:142 | `strlen` is at most the buffer length, every byte before it is non-NUL, and the byte at it (when inside the buffer) is NUL |
| LibC.Strcat | cbc_lib.c:197 | the destination's string becomes its old string followed by the source's string, and the terminated length still fits the buffer |
| LibC.ReallocString | cbc_lib.c:193 | growing a string buffer keeps its string and its length |
| LibC.Realloc | cbc_lib.c:148 | the new buffer has the requested length and keeps the old contents up to the shorter length |
| Cbc.CbcEncryptBlocks | cbc_lib.c:142-155 | chained encryption yields one ciphertext word per plaintext word; CbcEncryptAt gives each word's closed form and CbcRoundTrip its inverse |
| Cbc.CbcDecryptBlocks | cbc_lib.c:179-189 | chained decryption yields one plaintext word per ciphertext word; CbcDecryptAt gives each word's closed form and CbcEncryptDecrypt its inverse |
| Cbc.DecryptEncryptStep | cbc_lib.c:144-189 | the decryption step `D(c) ^ chain` undoes the encryption step `E(chain ^ p)` under the same chaining value |
| Cbc.EncryptDecryptStep | cbc_lib.c:144-189 | the encryption step undoes the decryption step under the same chaining value |
| Cbc.DecryptStepInjective | cbc_lib.c:183-185 | different ciphertext words decrypt to different words under the same chaining value |
| Cbc.DecryptStepChainInjective | cbc_lib.c:183-185 | the same ciphertext word decrypts to different words under different chaining values |
| Cbc.CbcEncryptAt | cbc_lib.c:142-155 | ciphertext word `i` is `E(chain ^ P[i])`, where the chain is the IV for `i = 0` and `C[i-1]` after that |
| Cbc.CbcDecryptAt | cbc_lib.c:179-189 | plaintext word `j` is `D(C[j]) ^ chain`, so it depends only on `C[j]` and `C[j-1]` (or the IV) |
| Cbc.CbcRoundTrip | cbc_lib.c:142-189 | chaining decryption from the same IV and key recovers every plaintext word that chaining encryption produced |
| Cbc.CbcEncryptDecrypt | cbc_lib.c:142-189 | chaining encryption of the decrypted words gives back the ciphertext, so chaining is a bijection on word sequences |
| Cbc.CbcDecryptUnique | cbc_lib.c:179-189 | any word sequence meeting the per-word decryption equations is the chained decryption |
| Cbc.DecryptLocality | cbc_lib.c:179-189 | changing ciphertext word `i` leaves every recovered word other than `i` and `i + 1` unchanged |
| Cbc.DecryptSensitivity | cbc_lib.c:179-189 | changing ciphertext word `i` does change recovered words `i` and (when it exists) `i + 1` |
| Cbc.JoinFirstWindow | cbc_lib.c:187-197 | the joined string of words read from a text starts with the string in the first 8-byte window |
| Cbc.FullWindow | cbc_lib.c:142-144 | a window lying wholly before the text's NUL holds 8 characters of the text, none of them NUL |
| Cbc.LastWindow | cbc_lib.c:142-144 | the window holding the text's NUL yields the rest of the text up to that NUL |
| Cbc.JoinWindows | cbc_lib.c:142-197 | joining the strings of the `strlen / 8 + 1` windows from an offset reproduces the text from that offset to its NUL |
| Cbc.TextRoundTrip | cbc_lib.c:131-202 | `cbc_decrypt` of `cbc_encrypt(text)`'s words yields exactly the C string of `text` |
| Cbc.EncryptTextAt | cbc_lib.c:142-155 | word `i` of `cbc_encrypt`'s output encrypts the text's 8-byte window at offset `8*i` XOR the previous word (zero IV first) |
| Cbc.ChainNext | cbc_lib.c:144-152 | one pass XORs the text's word `i` into the chaining value and returns output word `i` |
| Cbc.CbcEncrypt | cbc_lib.c:131-158 | returns at least 192 words with room past the last block, whose first `strlen / 8 + 1` words are the chained encryption of the zero-padded text |
| Cbc.JoinCStrsSnoc | cbc_lib.c:187-197 | appending a word to the sequence appends that word's string to the joined text |
| Cbc.DecryptNext | cbc_lib.c:183-185 | one pass returns plaintext word `i` of the chained decryption |
| Cbc.WordData | cbc_lib.c:181-187 | a 9-byte `data` buffer holds the block's bytes and a NUL, so its string is the block's bytes before the first NUL |
| Cbc.UnterminatedData | cbc_lib.c:181-187 | with the source's 8-byte `data`, the buffer is exactly the block's 8 bytes and holds no room for a NUL |
| Cbc.LongTextUnterminated | cbc_lib.c:181-197 | for a text of 8 or more characters, the first decrypted block is the text's first 8 characters, none of them NUL |
| Cbc.AppendWord | cbc_lib.c:190-197 | when the bits used reach `allocated_space`, the string moves to a fresh buffer of twice that size and the counter doubles; otherwise the buffer and counter are unchanged. `space_used < allocated_space` is kept, capacity never shrinks, and the string gains the next word's string |
| Cbc.CbcDecrypt | cbc_lib.c:170-202 | the returned buffer holds at least 192 bytes and a NUL, and its string joins, in order, each chained-decrypted word's bytes before its first NUL (empty for count 0) |
| Driver.FgetsString | cbc_lib.c:219 | after `fgets` writes a chunk shorter than the buffer, the buffer's string is the chunk's string |
| Driver.Fgets | cbc_lib.c:219 | the buffer becomes the chunk, then a NUL, then the old bytes after them |
| Driver.Serialize | cbc_lib.c:238 | `fwrite` of `count` records writes exactly 8 bytes per record; RecordsSerialize states that reading them back yields the records |
| Driver.Records | cbc_lib.c:268-272 | a file of `n` bytes holds `n / 8` full records, the short tail giving `num_read / 8 == 0` blocks; RecordsAt gives each record |
| Driver.RecordsAt | cbc_lib.c:268-272 | record `k` of a file is the little-endian word of bytes `8k` to `8k+7` |
| Driver.RecordsSerialize | cbc_lib.c:238-272 | reading back the records of a written file yields the records written |
| Driver.ConcatStep | cbc_lib.c:276 | printing one more record's text appends it to the output |
| Driver.RecordDecodes | cbc_lib.c:221-274 | the record `encode` writes for a buffer whose string is shorter than 8 bytes decrypts, on its own, to that string |
| Driver.ChunkRoundTrip | cbc_lib.c:219-276 | the text `decode` prints for record `k` is the string of chunk `k`, whatever bytes earlier chunks left in the buffer |
| Driver.EncodeDecode | cbc_lib.c:207-282 | decoding the file that `encode` wrote prints the concatenation of the input chunks' strings |
| Driver.EncodeChunk | cbc_lib.c:219-221 | one pass reads the chunk into the shared buffer and returns the record for it |
| Driver.StoreRecord | cbc_lib.c:223-229 | when the bits filled reach `allocated_space`, the records move to a fresh buffer of `2 * allocated_space / 8` words and the counter doubles; otherwise the buffer and counter are unchanged. The record is stored after the earlier ones, and `space_filled < allocated_space` is kept |
| Driver.EncodeLoop | cbc_lib.c:217-238 | the loop writes the serialized records of every chunk, in order |
| Driver.Encode | cbc_lib.c:207-245 | returns `EXIT_SUCCESS`, and the file holds one record per chunk, from a zeroed buffer |
| Driver.Fread | cbc_lib.c:268 | reads `min(8, bytes left)` bytes into the buffer and leaves the rest of the buffer unchanged |
| Driver.DecryptRead | cbc_lib.c:270-276 | a full 8-byte read prints record `k`'s text, and a short read prints nothing |
| Driver.ReadNext | cbc_lib.c:268-277 | one pass keeps the reading invariant (output so far is the texts of the records before the position) and advances the position |
| Driver.DecodeFile | cbc_lib.c:261-278 | the printed output is the concatenation of each full record's text, each decrypted from the zero IV |
| Driver.Decode | cbc_lib.c:251-282 | an unopenable file gives `EXIT_FAILURE` and no output; otherwise `EXIT_SUCCESS` and the decoded output |

## Left out

- Rotation.RollInverse: proved for the count 10, the only count the cipher uses. The law for every count `0 < c < 64` was too costly for the solver.
- The standard I/O is not modelled:
  - `fgets` on stdin becomes a sequence of chunks, and splitting stdin at newlines or after 7 bytes is left to the caller;
  - `fopen`, `fwrite` and `fclose` become the returned file contents, and the unchecked `fopen` of `encode` (line 236) is not modelled;
  - `fread` on the opened file becomes a byte sequence (`None` for a file that does not open);
  - the `printf` output becomes the returned output;
  - the `perror` messages are not modelled.
- `calloc` and `realloc` never fail in the model. The contracts say nothing about the elements `realloc` adds past the old length, which are indeterminate in C. `free` and the leaked buffers are not modelled.
- `sizeof(long)` is fixed at 8 and `block64` is a 64-bit unsigned word, read little-endian.
- Reading past the end of the text: `cbc_encrypt` reads whole words through a `block64*` cast and may run past the text buffer. The model reads those bytes as zero.
- The `pIV` argument of `cbc_encrypt` and `cbc_decrypt` is ignored, as in the source, and the IV argument that `encode` and `decode` pass (the constant 0 cast to `block64 *`) is not modelled.
- Cbc.CbcDecrypt: the ciphertext is a read-only sequence of words rather than an array.
- The `Word` wrapper around `bv64` is a modelling device, not a source entity.
- The doubling in `encode` (lines 224-227) passes `2 * allocated_space` bytes to `realloc`, where `allocated_space` counts bytes of `str` rather than words. The first doubling therefore shrinks the word buffer from 192 to 48 words, but every store stays inside it. The contract of Driver.StoreRecord states this sizing: the new length is `2 * allocated_space / 8` words.
- `encode.c` and `decode.c` (argument checks and dispatch to `encode`/`decode`) are not part of this model, and neither is `cbc_lib.h`.
- No claim is made about the cipher's cryptographic strength.

## Findings

| source | as written | input that shows it | evidently intended | confidence | as-written member | corrected member |
|---|---|---|---|---|---|---|
| cbc_lib.c:181 | `data` is `calloc(BITS_PER_BYTE, 1)`, 8 bytes. `block64_to_string` fills all 8, so when the block has no NUL byte, `strcat` at line 197 reads past the buffer for a terminator | any text of 8 or more non-NUL characters, e.g. `"ABCDEFGH"`, encrypted by `cbc_encrypt` and decrypted by `cbc_decrypt` | `BYTES_PER_BLOCK + 1` bytes, the block plus a NUL, as the comment at lines 105-108 requires | not executed | Cbc.UnterminatedData, Cbc.LongTextUnterminated | Cbc.WordData (used by Cbc.CbcDecrypt) |
