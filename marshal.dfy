/**
 * Block/byte marshaling.  block64_to_string writes a block's eight bytes
 * least-significant first; the opposite direction is how cbc_encrypt and
 * decode read eight bytes of a `char` buffer as a `block64` on a
 * little-endian host.
 */
module Marshal {
  import opened Words

  function LowByte(x: Block): Byte
  {
    (x & 0xff) as Byte
  }

  /** The bytes of a block, byte i being bits 8*i to 8*i+7. */
  function ToBytes(x: Block): (bytes: seq<Byte>)
    ensures |bytes| == BytesPerBlock
  {
    [LowByte(x), LowByte(x >> 8), LowByte(x >> 16), LowByte(x >> 24),
     LowByte(x >> 32), LowByte(x >> 40), LowByte(x >> 48), LowByte(x >> 56)]
  }

  /** Eight bytes read as one little-endian block. */
  function FromBytes(bytes: seq<Byte>): Block
    requires |bytes| == BytesPerBlock
  {
    (bytes[0] as Block) | ((bytes[1] as Block) << 8) | ((bytes[2] as Block) << 16) | ((bytes[3] as Block) << 24) |
    ((bytes[4] as Block) << 32) | ((bytes[5] as Block) << 40) | ((bytes[6] as Block) << 48) | ((bytes[7] as Block) << 56)
  }

  /** Reassembling the eight bytes gives back the block. */
  lemma FromToBytes(x: Block)
    ensures FromBytes(ToBytes(x)) == x
  {
  }

  /** Splitting a block read from eight bytes gives back those bytes. */
  lemma ToFromBytes(bytes: seq<Byte>)
    requires |bytes| == BytesPerBlock
    ensures ToBytes(FromBytes(bytes)) == bytes
  {
  }

  /** The value of `txt` in block64_to_string after i turns of its loop (8 == BytesPerBlock). */
  function ShiftedBy(x: Block, i: nat): Block
    requires i <= 8
  {
    if i == 0 then x else if i == 1 then x >> 8 else if i == 2 then x >> 16 else if i == 3 then x >> 24
    else if i == 4 then x >> 32 else if i == 5 then x >> 40 else if i == 6 then x >> 48 else if i == 7 then x >> 56
    else 0
  }

  /** Clearing the low byte before shifting it out (the mask at cbc_lib.c:117) changes nothing. */
  lemma MaskIrrelevant(t: Block)
    ensures (t & 0xffff_ffff_ffff_ff00) >> 8 == t >> 8
  {
  }

  /** One turn of the loop shifts the word one more byte to the right. */
  lemma {:induction false} ShiftStep(x: Block, i: nat)
    requires i < 8
    ensures ShiftedBy(x, i + 1) == ShiftedBy(x, i) >> 8
  {
    match i
    case 0 =>
    case 1 => assert (x >> 8) >> 8 == x >> 16;
    case 2 => assert (x >> 16) >> 8 == x >> 24;
    case 3 => assert (x >> 24) >> 8 == x >> 32;
    case 4 => assert (x >> 32) >> 8 == x >> 40;
    case 5 => assert (x >> 40) >> 8 == x >> 48;
    case 6 => assert (x >> 48) >> 8 == x >> 56;
    case 7 => assert (x >> 56) >> 8 == 0;
  }

  /** After i turns of the loop, the low byte of the word is byte i of the block. */
  lemma {:induction false} LowByteStep(x: Block, i: nat)
    requires i < 8
    ensures ToBytes(x)[i] == LowByte(ShiftedBy(x, i))
  {
    var bytes := ToBytes(x);
    match i
    case 0 => assert bytes[0] == LowByte(x);
    case 1 => assert bytes[1] == LowByte(x >> 8);
    case 2 => assert bytes[2] == LowByte(x >> 16);
    case 3 => assert bytes[3] == LowByte(x >> 24);
    case 4 => assert bytes[4] == LowByte(x >> 32);
    case 5 => assert bytes[5] == LowByte(x >> 40);
    case 6 => assert bytes[6] == LowByte(x >> 48);
    case 7 => assert bytes[7] == LowByte(x >> 56);
  }

  /** Fills data[0..8] with the bytes of `txt`, least-significant first; the rest of `data` is untouched. */
  method Block64ToString(txt: Block, data: array<Byte>)
    requires data.Length >= BytesPerBlock
    modifies data
    ensures data[..BytesPerBlock] == ToBytes(txt)
    ensures data[BytesPerBlock..] == old(data[BytesPerBlock..])
  {
    var t := txt;
    for i := 0 to BytesPerBlock
      invariant t == ShiftedBy(txt, i)
      invariant forall j :: 0 <= j < i ==> data[j] == ToBytes(txt)[j]
      invariant data[BytesPerBlock..] == old(data[BytesPerBlock..])
    {
      MaskIrrelevant(t);
      ShiftStep(txt, i);
      LowByteStep(txt, i);
      data[i] := LowByte(t);
      t := t & 0xffff_ffff_ffff_ff00;
      t := t >> 8;
    }
  }
}
