/**
 * The per-chunk logic of encode and decode, with the stdio calls replaced
 * by values: the chunks fgets delivers from standard input become a
 * sequence of byte strings, the file written or read becomes a sequence of
 * bytes, and what decode prints becomes its output string.
 *
 * encode reads each chunk into the front of one reused 192-byte buffer,
 * encrypts the buffer and keeps the first ciphertext word as the chunk's
 * record; decode reads the file back eight bytes at a time and decrypts
 * each full record as a chain of its own.
 */
module Driver {
  import opened Words
  import opened Marshal
  import opened LibC
  import opened Cbc

  datatype Option<T> = None | Some(value: T)

  /** A zeroed allocation of `n` bytes. */
  function Zeros(n: nat): (z: seq<Byte>)
    ensures |z| == n
  {
    seq(n, _ => 0)
  }

  /** Chunks as fgets(str, BITS_PER_BYTE, stdin) delivers them: at most seven bytes each. */
  predicate ChunksFit(chunks: seq<seq<Byte>>)
  {
    forall k :: 0 <= k < |chunks| ==> |chunks[k]| < BitsPerByte
  }

  /** The buffer after fgets has stored `chunk` and a NUL at its front; later bytes keep their old values. */
  function FgetsInto(buf: seq<Byte>, chunk: seq<Byte>): (r: seq<Byte>)
    requires |chunk| < |buf|
    ensures |r| == |buf|
  {
    chunk + [0] + buf[|chunk| + 1..]
  }

  /** After fgets, the buffer holds the chunk's string and is terminated within its first eight bytes. */
  lemma FgetsString(buf: seq<Byte>, chunk: seq<Byte>)
    requires |chunk| < |buf|
    ensures 0 in FgetsInto(buf, chunk)
    ensures Strlen(FgetsInto(buf, chunk)) <= |chunk|
    ensures CStr(FgetsInto(buf, chunk)) == CStr(chunk)
  {
    var r := FgetsInto(buf, chunk);
    CStrAppendNul(chunk);
    assert r[..|chunk| + 1] == chunk + [0];
    CStrOfPrefix(chunk + [0], r);
    assert r[|chunk|] == 0;
  }

  /** fgets(str, BITS_PER_BYTE, stdin) delivering `chunk`. */
  method Fgets(str: array<Byte>, chunk: seq<Byte>)
    requires |chunk| < BitsPerByte <= str.Length
    modifies str
    ensures str[..] == FgetsInto(old(str[..]), chunk)
  {
    ghost var before := str[..];
    var j := 0;
    while j < |chunk|
      invariant j <= |chunk|
      invariant forall k :: 0 <= k < j ==> str[k] == chunk[k]
      invariant forall k :: j <= k < str.Length ==> str[k] == before[k]
    {
      str[j] := chunk[j];
      j := j + 1;
    }
    str[|chunk|] := 0;
    assert str[..] == FgetsInto(before, chunk);
  }

  /** The reused input buffer of encode after fgets has delivered every chunk in turn. */
  function BufferAfter(buf: seq<Byte>, chunks: seq<seq<Byte>>): (r: seq<Byte>)
    requires ChunksFit(chunks) && BitsPerByte <= |buf|
    ensures |r| == |buf|
    decreases |chunks|
  {
    if chunks == [] then buf
    else
      var last := |chunks| - 1;
      FgetsInto(BufferAfter(buf, chunks[..last]), chunks[last])
  }

  /** The record encode keeps for the buffer: the first word cbc_encrypt returns for it. */
  function Record(buf: seq<Byte>): Word
  {
    EncryptText(buf, Key)[0]
  }

  /** The records encode writes, one per chunk: record `k` is that of the buffer as it stands after chunk `k` has been read. */
  function EncodeRecords(buf: seq<Byte>, chunks: seq<seq<Byte>>): (rs: seq<Word>)
    requires ChunksFit(chunks) && BitsPerByte <= |buf|
    ensures |rs| == |chunks|
  {
    seq(|chunks|, k requires 0 <= k < |chunks| => Record(BufferAfter(buf, chunks[..k + 1])))
  }

  /** The bytes fwrite stores for an array of records, each least-significant byte first. */
  function Serialize(rs: seq<Word>): (file: seq<Byte>)
    ensures |file| == BytesPerBlock * |rs|
  {
    if rs == [] then [] else ToBytes(rs[0].bits) + Serialize(rs[1..])
  }

  /** The full eight-byte records of a file, in order; a shorter tail is no record. */
  function Records(file: seq<Byte>): (rs: seq<Word>)
    ensures |rs| == |file| / BytesPerBlock
    decreases |file|
  {
    if |file| < BytesPerBlock then []
    else [Word(FromBytes(file[..BytesPerBlock]))] + Records(file[BytesPerBlock..])
  }

  /** Record `k` of a file is the word in its bytes `8k` to `8k + 7`. */
  lemma {:induction false} RecordsAt(file: seq<Byte>, k: nat)
    requires BytesPerBlock * (k + 1) <= |file|
    ensures Records(file)[k] == Word(FromBytes(file[BytesPerBlock * k..BytesPerBlock * (k + 1)]))
    decreases k
  {
    if k > 0 {
      var rest := file[BytesPerBlock..];
      RecordsAt(rest, k - 1);
      assert rest[BytesPerBlock * (k - 1)..BytesPerBlock * k] == file[BytesPerBlock * k..BytesPerBlock * (k + 1)];
    }
  }

  /** Reading back what fwrite stored gives the records that were written. */
  lemma {:induction false} RecordsSerialize(rs: seq<Word>)
    ensures Records(Serialize(rs)) == rs
  {
    if rs != [] {
      var file := Serialize(rs);
      assert file[..BytesPerBlock] == ToBytes(rs[0].bits);
      assert file[BytesPerBlock..] == Serialize(rs[1..]);
      FromToBytes(rs[0].bits);
      RecordsSerialize(rs[1..]);
      assert rs == [rs[0]] + rs[1..];
    }
  }

  /** Strings joined in order. */
  function Concat(ts: seq<seq<Byte>>): (r: seq<Byte>)
  {
    if ts == [] then [] else Concat(ts[..|ts| - 1]) + ts[|ts| - 1]
  }

  /** Joining one more string. */
  lemma ConcatStep(ts: seq<seq<Byte>>, n: nat)
    requires n < |ts|
    ensures Concat(ts[..n + 1]) == Concat(ts[..n]) + ts[n]
  {
    assert ts[..n + 1][..n] == ts[..n];
  }

  /** What decode prints for each record: the record decrypted as a chain of one word, from the zero IV. */
  function Decrypted(rs: seq<Word>): (ts: seq<seq<Byte>>)
    ensures |ts| == |rs|
  {
    seq(|rs|, k requires 0 <= k < |rs| => DecryptText([rs[k]], Key))
  }

  /** What decode prints for a file. */
  function DecodeOutput(file: seq<Byte>): seq<Byte>
  {
    Concat(Decrypted(Records(file)))
  }

  /** The strings of the chunks, one per chunk. */
  function Strings(chunks: seq<seq<Byte>>): (ts: seq<seq<Byte>>)
    ensures |ts| == |chunks|
  {
    seq(|chunks|, k requires 0 <= k < |chunks| => CStr(chunks[k]))
  }

  /** A buffer whose string is shorter than a word decrypts, from its record alone, to that string. */
  lemma RecordDecodes(buf: seq<Byte>)
    requires 0 in buf && Strlen(buf) < BytesPerBlock
    ensures DecryptText([Record(buf)], Key) == CStr(buf)
  {
    TextRoundTrip(buf, Key);
    assert EncryptText(buf, Key) == [Record(buf)];
  }

  /** The record encode forms for chunk `k` decrypts to that chunk's string. */
  lemma ChunkRoundTrip(buf: seq<Byte>, chunks: seq<seq<Byte>>, k: nat)
    requires ChunksFit(chunks) && BitsPerByte <= |buf| && k < |chunks|
    ensures Decrypted(EncodeRecords(buf, chunks))[k] == Strings(chunks)[k]
  {
    var before := chunks[..k];
    assert chunks[..k + 1][..k] == before;
    FgetsString(BufferAfter(buf, before), chunks[k]);
    RecordDecodes(BufferAfter(buf, chunks[..k + 1]));
  }

  /**
   * Round trip of the whole program: decode prints, for the file encode
   * writes, every chunk's string in order, whatever the input buffer held
   * before the first chunk.
   */
  lemma EncodeDecode(buf: seq<Byte>, chunks: seq<seq<Byte>>)
    requires ChunksFit(chunks) && BitsPerByte <= |buf|
    ensures DecodeOutput(Serialize(EncodeRecords(buf, chunks))) == Concat(Strings(chunks))
  {
    RecordsSerialize(EncodeRecords(buf, chunks));
    forall k | 0 <= k < |chunks|
      ensures Decrypted(EncodeRecords(buf, chunks))[k] == Strings(chunks)[k]
    {
      ChunkRoundTrip(buf, chunks, k);
    }
    assert Decrypted(EncodeRecords(buf, chunks)) == Strings(chunks);
  }

  /** One pass of encode's loop up to the encryption: fgets into the buffer, then the record cbc_encrypt returns first. */
  method EncodeChunk(str: array<Byte>, chunk: seq<Byte>, ghost start: seq<Byte>, ghost chunks: seq<seq<Byte>>, ghost count: nat)
    returns (record: Word)
    requires ChunksFit(chunks) && count < |chunks| && chunk == chunks[count]
    requires str.Length == |start| == InputSize && str[..] == BufferAfter(start, chunks[..count])
    modifies str
    ensures str[..] == BufferAfter(start, chunks[..count + 1])
    ensures record == EncodeRecords(start, chunks)[count]
  {
    Fgets(str, chunk);
    assert chunks[..count + 1][..count] == chunks[..count];
    var blockArray := CbcEncrypt(str[..], Word(InitializationVector), Key);
    record := blockArray[0];
  }

  /**
   * The rest of encode's loop: counts 64 more units used, reallocates the
   * record array when the count reaches the capacity counter, and stores
   * the record.
   *
   * The capacity is counted as in the source: the counter starts at
   * INPUT_SIZE (192) although the array holds 192 words, grows by 64 per
   * record, and each realloc asks for twice the counter in bytes. The
   * first realloc therefore shrinks the array to 48 words; every write
   * still lands inside it.
   */
  method StoreRecord(resultBlock: array<Word>, allocatedSpace: nat, spaceFilled: nat, count: nat, record: Word)
    returns (result: array<Word>, newAllocated: nat, newFilled: nat)
    requires InputSize <= allocatedSpace <= BytesPerBlock * resultBlock.Length
    requires allocatedSpace % BytesPerBlock == 0
    requires spaceFilled == BitsPerBlock * count < allocatedSpace
    modifies resultBlock
    ensures spaceFilled + BitsPerBlock < allocatedSpace ==> result == resultBlock && newAllocated == allocatedSpace
    ensures allocatedSpace <= spaceFilled + BitsPerBlock ==>
      fresh(result) && result.Length == 2 * allocatedSpace / BytesPerBlock && newAllocated == 2 * allocatedSpace
    ensures InputSize <= newAllocated <= BytesPerBlock * result.Length
    ensures newAllocated % BytesPerBlock == 0
    ensures newFilled == BitsPerBlock * (count + 1) < newAllocated
    ensures result[..count + 1] == old(resultBlock[..count]) + [record]
  {
    result, newAllocated, newFilled := resultBlock, allocatedSpace, spaceFilled + BitsPerBlock;
    if newFilled >= allocatedSpace {
      var words := 2 * allocatedSpace / BytesPerBlock;
      assert BytesPerBlock * words == 2 * allocatedSpace;
      result := Realloc(resultBlock, words);
      newAllocated := 2 * allocatedSpace;
    }
    result[count] := record;
  }

  /** encode's loop, from the input buffer's contents `start` before the first fgets. */
  method EncodeLoop(str: array<Byte>, chunks: seq<seq<Byte>>, ghost start: seq<Byte>) returns (file: seq<Byte>)
    requires ChunksFit(chunks)
    requires str.Length == InputSize && str[..] == start
    modifies str
    ensures file == Serialize(EncodeRecords(start, chunks))
  {
    ghost var records := EncodeRecords(start, chunks);
    var allocatedSpace := InputSize;
    var spaceFilled := 0;
    var resultBlock := new Word[InputSize](_ => Word(0));
    var count := 0;
    while count < |chunks|
      invariant count <= |chunks|
      invariant fresh(resultBlock)
      invariant str[..] == BufferAfter(start, chunks[..count])
      invariant InputSize <= allocatedSpace <= BytesPerBlock * resultBlock.Length
      invariant allocatedSpace % BytesPerBlock == 0
      invariant spaceFilled == BitsPerBlock * count < allocatedSpace
      invariant resultBlock[..count] == records[..count]
    {
      var record := EncodeChunk(str, chunks[count], start, chunks, count);
      resultBlock, allocatedSpace, spaceFilled := StoreRecord(resultBlock, allocatedSpace, spaceFilled, count, record);
      assert records[..count + 1] == records[..count] + [record];
      count := count + 1;
    }
    assert records[..count] == records;
    file := Serialize(resultBlock[..count]);
  }

  /** encode: one record per chunk, written to the destination file, and EXIT_SUCCESS. */
  method Encode(chunks: seq<seq<Byte>>) returns (file: seq<Byte>, status: int)
    requires ChunksFit(chunks)
    ensures status == ExitSuccess
    ensures file == Serialize(EncodeRecords(Zeros(InputSize), chunks))
  {
    var str := new Byte[InputSize](_ => 0);
    assert str[..] == Zeros(InputSize);
    file := EncodeLoop(str, chunks, str[..]);
    status := ExitSuccess;
  }

  /** fread(str, 1, BYTES_PER_BLOCK, fp) at offset `pos` of the file: copies up to eight bytes into the front of `str`. */
  method Fread(str: array<Byte>, file: seq<Byte>, pos: nat) returns (numRead: nat)
    requires pos <= |file| && str.Length == BytesPerBlock
    modifies str
    ensures numRead == if |file| - pos < BytesPerBlock then |file| - pos else BytesPerBlock
    ensures str[..numRead] == file[pos..pos + numRead]
    ensures str[numRead..] == old(str[numRead..])
  {
    numRead := if |file| - pos < BytesPerBlock then |file| - pos else BytesPerBlock;
    var j := 0;
    while j < numRead
      invariant j <= numRead
      invariant forall k :: 0 <= k < j ==> str[k] == file[pos + k]
      invariant forall k :: j <= k < str.Length ==> str[k] == old(str[k])
    {
      str[j] := file[pos + j];
      j := j + 1;
    }
  }

  /** What decode prints for one fread of `numRead` bytes at offset `pos` (record `k`): cbc_decrypt of `numRead / 8` words. */
  method DecryptRead(str: array<Byte>, numRead: nat, ghost file: seq<Byte>, ghost pos: nat, ghost k: nat) returns (s: seq<Byte>)
    requires str.Length == BytesPerBlock && pos == BytesPerBlock * k
    requires 0 < numRead && pos + numRead <= |file|
    requires numRead == if |file| - pos < BytesPerBlock then |file| - pos else BytesPerBlock
    requires str[..numRead] == file[pos..pos + numRead]
    ensures numRead < BytesPerBlock ==> s == []
    ensures numRead == BytesPerBlock ==> s == Decrypted(Records(file))[k]
  {
    var count := numRead / BytesPerBlock;
    var block := [Word(FromBytes(str[..]))];
    var plaintext := CbcDecrypt(block, count, Word(InitializationVector), Key);
    s := CStr(plaintext[..]);
    if count == 1 {
      assert str[..] == file[pos..pos + BytesPerBlock];
      RecordsAt(file, k);
      assert block[..count] == block;
    } else {
      assert block[..count] == [];
    }
  }

  /** Where decode's loop stands: the last fread returned `numRead` bytes at offset `pos`, and `output` holds what the first `k` records print. */
  ghost predicate Reading(str: array<Byte>, file: seq<Byte>, printed: seq<seq<Byte>>, pos: nat, numRead: nat, output: seq<Byte>, k: nat)
    reads str
  {
    && pos <= |file| && k <= |printed| == |file| / BytesPerBlock
    && (pos == BytesPerBlock * k || (pos == |file| && k == |printed|))
    && numRead == (if |file| - pos < BytesPerBlock then |file| - pos else BytesPerBlock)
    && str.Length == BytesPerBlock && str[..numRead] == file[pos..pos + numRead]
    && output == Concat(printed[..k])
  }

  /** One pass of decode's loop: print what cbc_decrypt returns for the bytes read, then fread again. */
  method ReadNext(str: array<Byte>, file: seq<Byte>, pos: nat, numRead: nat, output: seq<Byte>,
                  ghost printed: seq<seq<Byte>>, ghost k: nat)
    returns (pos': nat, numRead': nat, output': seq<Byte>, ghost k': nat)
    requires printed == Decrypted(Records(file))
    requires Reading(str, file, printed, pos, numRead, output, k) && 0 < numRead
    modifies str
    ensures Reading(str, file, printed, pos', numRead', output', k') && pos < pos'
  {
    var s := DecryptRead(str, numRead, file, pos, k);
    k' := k;
    if numRead == BytesPerBlock {
      ConcatStep(printed, k);
      k' := k + 1;
    }
    output' := output + s;
    pos' := pos + numRead;
    numRead' := Fread(str, file, pos');
  }

  /** decode's loop over an opened file: fread eight bytes at a time and print what cbc_decrypt returns for them. */
  method DecodeFile(file: seq<Byte>) returns (output: seq<Byte>)
    ensures output == DecodeOutput(file)
  {
    ghost var printed := Decrypted(Records(file));
    var str := new Byte[BytesPerBlock](_ => 0);
    output := [];
    var pos: nat := 0;
    ghost var k: nat := 0;
    var numRead := Fread(str, file, pos);
    while numRead > 0
      invariant Reading(str, file, printed, pos, numRead, output, k)
      decreases |file| - pos
    {
      pos, numRead, output, k := ReadNext(str, file, pos, numRead, output, printed, k);
    }
    assert printed[..k] == printed;
  }

  /**
   * decode: EXIT_FAILURE when the file cannot be opened; otherwise prints,
   * for every fread of the file, the string cbc_decrypt returns (nothing
   * for a tail shorter than a record, which makes the count zero), and
   * returns EXIT_SUCCESS.
   */
  method Decode(source: Option<seq<Byte>>) returns (output: seq<Byte>, status: int)
    ensures source.None? ==> status == ExitFailure && output == []
    ensures source.Some? ==> status == ExitSuccess && output == DecodeOutput(source.value)
  {
    match source
    case None =>
      output, status := [], ExitFailure;
    case Some(file) =>
      output := DecodeFile(file);
      status := ExitSuccess;
  }
}
