/**
 * Record pointers: a (block, offset) pair of unsigned 16-bit values, packed
 * with struct format 'HH' and stored in a header as one unsigned 32-bit
 * integer (format 'I') read from the same four bytes.
 */
module PointerCodec {
  import opened Wrappers
  import opened Bytes
  import opened Struct

  /**
   * A logical address. In the fixed-width engine `offset` is a 1-based slot
   * number within the block; in the variable-width engine it is a byte offset.
   */
  datatype Pointer = Pointer(block: u16, offset: u16)

  /** The reserved null pointer (no free list). */
  const NULL := Pointer(0, 0)

  const POINTER_FORMAT: Format := [H, H]
  const HANDLE_FORMAT: Format := [I]

  /** `pointer(block, register)`: the four packed bytes; struct.error unless both values fit in 16 bits. */
  function PointerBytes(block: int, offset: int): (r: Result<seq<byte>>)
    ensures r.Err? ==> r.error == StructError
    ensures r.Ok? <==> 0 <= block < 0x1_0000 && 0 <= offset < 0x1_0000
    ensures r.Ok? ==> |r.value| == 4
  {
    Pack(POINTER_FORMAT, [Num(block), Num(offset)])
  }

  /** `punn(pointer)`: the same four bytes read as one unsigned 32-bit integer. */
  function Punn(b: seq<byte>): (r: Result<u32>)
    ensures r.Err? ==> r.error == StructError
    ensures r.Ok? <==> |b| == 4
  {
    var vs :- Unpack(HANDLE_FORMAT, b);
    Ok(vs[0].n)
  }

  /** `deref_bytes(b)`: the four packed bytes read back as a pair. */
  function DerefBytes(b: seq<byte>): (r: Result<Pointer>)
    ensures r.Err? ==> r.error == StructError
    ensures r.Ok? <==> |b| == 4
  {
    var vs :- Unpack(POINTER_FORMAT, b);
    Ok(Pointer(vs[0].n, vs[1].n))
  }

  /** `deref(n)`: the integer packed as 'I' and unpacked as 'HH'; struct.error unless it fits in 32 bits. */
  function Deref(n: int): (r: Result<Pointer>)
    ensures r.Err? ==> r.error == StructError
    ensures r.Ok? <==> 0 <= n < 0x1_0000_0000
  {
    var b :- Pack(HANDLE_FORMAT, [Num(n)]);
    DerefBytes(b)
  }

  /** The 32-bit handle of a pointer: block in the low half, offset in the high half. */
  function ToHandle(p: Pointer): u32 {
    p.block as int + 0x1_0000 * (p.offset as int)
  }

  /** The pointer a 32-bit handle stands for. */
  function FromHandle(n: u32): Pointer {
    Pointer(n % 0x1_0000, n / 0x1_0000)
  }

  lemma PointerBytesImage(block: u16, offset: u16)
    ensures PointerBytes(block, offset) == Ok(EncodeU16(block) + EncodeU16(offset))
  {
    var vs := [Num(block), Num(offset)];
    assert PackAll([H], [Num(offset)]) == EncodeU16(offset);
    assert PackAll(POINTER_FORMAT, vs) == EncodeU16(block) + PackAll([H], [Num(offset)]) by {
      assert POINTER_FORMAT[1..] == [H];
      assert vs[1..] == [Num(offset)];
    }
  }

  lemma PackHandleImage(n: u32)
    ensures Pack(HANDLE_FORMAT, [Num(n)]) == Ok(EncodeU32(n))
  {
    var vs := [Num(n)];
    assert Packable(HANDLE_FORMAT, vs);
    assert HANDLE_FORMAT[1..] == [] && vs[1..] == [];
    assert PackAll(HANDLE_FORMAT, vs) == PackOne(I, Num(n)) + PackAll([], []);
    assert PackOne(I, Num(n)) == EncodeU32(n);
    assert PackAll(HANDLE_FORMAT, vs) == EncodeU32(n);
  }

  lemma UnpackPairImage(b: seq<byte>)
    requires |b| == 4
    ensures DerefBytes(b) == Ok(Pointer(DecodeU16(b[..2]), DecodeU16(b[2..])))
  {
    var vs := UnpackAll(POINTER_FORMAT, b);
    assert POINTER_FORMAT[1..] == [H];
    assert vs[1] == UnpackAll([H], b[2..])[0];
  }

  lemma UnpackHandleImage(b: seq<byte>)
    requires |b| == 4
    ensures Punn(b) == Ok(DecodeU32(b))
  {
  }

  /** `punn` and `deref_bytes` read the bytes of `pointer(block, offset)` as its handle and as the pair itself. */
  lemma PointerBytesRead(block: u16, offset: u16)
    ensures PointerBytes(block, offset).Ok?
    ensures Punn(PointerBytes(block, offset).value) == Ok(ToHandle(Pointer(block, offset)))
    ensures DerefBytes(PointerBytes(block, offset).value) == Ok(Pointer(block, offset))
  {
    PointerBytesImage(block, offset);
    var b := EncodeU16(block) + EncodeU16(offset);
    assert b[..2] == EncodeU16(block) && b[2..] == EncodeU16(offset);
    DecodeEncodeU16(block);
    DecodeEncodeU16(offset);
    UnpackHandleImage(b);
    UnpackPairImage(b);
  }

  /** `deref` decodes a handle to the pointer it stands for. */
  lemma DerefHandle(n: u32)
    ensures Deref(n) == Ok(FromHandle(n))
  {
    PackHandleImage(n);
    var b := EncodeU32(n);
    assert b[..2] == EncodeU16(n % 0x1_0000) && b[2..] == EncodeU16(n / 0x1_0000);
    DecodeEncodeU16(n % 0x1_0000);
    DecodeEncodeU16(n / 0x1_0000);
    UnpackPairImage(b);
  }

  /** Unpack inverts pack: `deref(punn(pointer(b, r))) == (b, r)` for every pair of 16-bit values. */
  lemma PointerRoundTrip(block: u16, offset: u16)
    ensures PointerBytes(block, offset).Ok?
    ensures Punn(PointerBytes(block, offset).value).Ok?
    ensures Deref(Punn(PointerBytes(block, offset).value).value) == Ok(Pointer(block, offset))
  {
    PointerBytesRead(block, offset);
    var n := ToHandle(Pointer(block, offset));
    DerefHandle(n);
    assert FromHandle(n) == Pointer(block, offset) by {
      HandleBijection(Pointer(block, offset), n);
    }
  }

  /** The handle encoding is a bijection between pointers and 32-bit integers. */
  lemma HandleBijection(p: Pointer, n: u32)
    ensures FromHandle(ToHandle(p)) == p
    ensures ToHandle(FromHandle(n)) == n
  {
  }

  /** Pack inverts unpack: re-packing a dereferenced handle gives the same integer. */
  lemma HandleRoundTrip(n: u32)
    ensures Deref(n).Ok?
    ensures PointerBytes(Deref(n).value.block, Deref(n).value.offset).Ok?
    ensures Punn(PointerBytes(Deref(n).value.block, Deref(n).value.offset).value) == Ok(n)
  {
    DerefHandle(n);
    var p := FromHandle(n);
    PointerBytesRead(p.block, p.offset);
    HandleBijection(p, n);
  }

  /** `pointer` followed by `deref_bytes`: a checked pointer built from two integers. */
  function MakePointer(block: int, offset: int): (r: Result<Pointer>)
    ensures r.Err? ==> r.error == StructError
    ensures r.Ok? <==> 0 <= block < 0x1_0000 && 0 <= offset < 0x1_0000
    ensures r.Ok? ==> r.value.block == block && r.value.offset == offset
  {
    var b :- PointerBytes(block, offset);
    PointerBytesRead(block, offset);
    DerefBytes(b)
  }
}
