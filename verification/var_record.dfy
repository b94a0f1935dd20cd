/**
 * The variable-length record of heapvar/main.py (`RegisterVar`): a 20-byte
 * prefix holding the deletion flag, three end offsets, id, age and year,
 * followed by the education, city and gender payloads back to back.
 */
module VarRecord {
  import opened Wrappers
  import opened Bytes
  import opened Struct

  /** FIXED_RECORD: flag and three offsets as u16, then id, age and year as u32. */
  const FIXED_RECORD: Format := [H, H, H, H, I, I, I]
  const FIXED_RECORD_SIZE: nat := 20

  lemma FixedRecordSize()
    ensures CalcSize(FIXED_RECORD) == FIXED_RECORD_SIZE
  {
  }

  /** A `RegisterVar` object: the constructor's arguments and the offsets it derived from them. */
  datatype RegisterVar = RegisterVar(
    offset1: int,
    offset2: int,
    offset3: int,
    id: int,
    age: int,
    year: int,
    education: seq<byte>,
    city: seq<byte>,
    gender: seq<byte>)

  /** The offsets as the constructor leaves them: each payload's length is the gap before its end offset. */
  predicate Consistent(r: RegisterVar) {
    && r.offset1 - FIXED_RECORD_SIZE == |r.education|
    && r.offset2 - r.offset1 == |r.city|
    && r.offset3 - r.offset2 == |r.gender|
  }

  /** `RegisterVar(id, age, year, education, city, gender)`: offset1..offset3 are where the three payloads end. */
  function NewRegisterVar(id: int, age: int, year: int, education: seq<byte>, city: seq<byte>, gender: seq<byte>): (r: RegisterVar)
    ensures Consistent(r)
    ensures FIXED_RECORD_SIZE <= r.offset1 <= r.offset2 <= r.offset3
    ensures r.id == id && r.age == age && r.year == year
    ensures r.education == education && r.city == city && r.gender == gender
  {
    RegisterVar(FIXED_RECORD_SIZE + |education|,
                FIXED_RECORD_SIZE + |education| + |city|,
                FIXED_RECORD_SIZE + |education| + |city| + |gender|,
                id, age, year, education, city, gender)
  }

  /** The consistent objects are exactly the constructed ones: the offsets carry no information beyond the payloads. */
  lemma ConsistentIsConstructed(r: RegisterVar)
    ensures Consistent(r) <==> r == NewRegisterVar(r.id, r.age, r.year, r.education, r.city, r.gender)
  {
  }

  /** The values `struct.pack` can take for this object: offsets within 16 bits, id, age and year within 32. */
  predicate Mountable(r: RegisterVar) {
    && 0 <= r.offset1 < 0x1_0000 && 0 <= r.offset2 < 0x1_0000 && 0 <= r.offset3 < 0x1_0000
    && 0 <= r.id < 0x1_0000_0000 && 0 <= r.age < 0x1_0000_0000 && 0 <= r.year < 0x1_0000_0000
  }

  /** The format `mount_struct` builds: FIXED_RECORD, then one 's' code per payload, as wide as the payload. */
  function PayloadFormat(r: RegisterVar): Format {
    [S(|r.education|), S(|r.city|), S(|r.gender|)]
  }

  function PrefixValues(deleted: int, r: RegisterVar): seq<Value> {
    [Num(deleted), Num(r.offset1), Num(r.offset2), Num(r.offset3), Num(r.id), Num(r.age), Num(r.year)]
  }

  function PayloadValues(r: RegisterVar): seq<Value> {
    [Raw(r.education), Raw(r.city), Raw(r.gender)]
  }

  /**
   * `mount_struct()`: the packed record with deletion flag 0. Raises
   * struct.error when an offset does not fit in 16 bits or id, age or year
   * does not fit in 32.
   */
  function MountStruct(r: RegisterVar): (b: Result<seq<byte>>)
    ensures b.Err? ==> b.error == StructError
    ensures b.Ok? <==> Mountable(r)
    ensures b.Ok? ==> |b.value| == FIXED_RECORD_SIZE + |r.education| + |r.city| + |r.gender|
  {
    FixedRecordSize();
    CalcSizeAppend(FIXED_RECORD, PayloadFormat(r));
    assert CalcSize(PayloadFormat(r)) == |r.education| + |r.city| + |r.gender| by {
      var pf := PayloadFormat(r);
      assert pf[1..][1..][1..] == [];
      assert CalcSize(pf[1..][1..]) == |r.gender|;
      assert CalcSize(pf[1..]) == |r.city| + |r.gender|;
    }
    var fmt := FIXED_RECORD + PayloadFormat(r);
    var vs := PrefixValues(0, r) + PayloadValues(r);
    assert Packable(fmt, vs) <==> Mountable(r) by {
      assert forall i :: 0 <= i < 7 ==> fmt[i] == FIXED_RECORD[i] && vs[i] == PrefixValues(0, r)[i];
    }
    Pack(fmt, vs)
  }

  /** The prefix on its own packs when the object is mountable. */
  lemma PrefixPackable(deleted: int, r: RegisterVar)
    requires 0 <= deleted < 0x1_0000 && Mountable(r)
    ensures Conforms(FIXED_RECORD, PrefixValues(deleted, r))
    ensures Packable(FIXED_RECORD, PrefixValues(deleted, r))
  {
  }

  /** Exact-width 's' fields pack to the payloads themselves, back to back. */
  lemma PackPayloads(r: RegisterVar)
    ensures Packable(PayloadFormat(r), PayloadValues(r))
    ensures PackAll(PayloadFormat(r), PayloadValues(r)) == r.education + r.city + r.gender
  {
    var fmt, vs := PayloadFormat(r), PayloadValues(r);
    assert fmt[1..][1..][1..] == [] && vs[1..][1..][1..] == [];
    assert PackAll(fmt[1..][1..], vs[1..][1..]) == r.gender;
    assert PackAll(fmt[1..], vs[1..]) == r.city + r.gender;
  }

  /** The bytes of a mounted record are the packed prefix followed by the three payloads. */
  lemma MountImage(r: RegisterVar)
    requires Mountable(r)
    ensures MountStruct(r).Ok?
    ensures Packable(FIXED_RECORD, PrefixValues(0, r))
    ensures MountStruct(r).value
         == PackAll(FIXED_RECORD, PrefixValues(0, r)) + r.education + r.city + r.gender
  {
    PrefixPackable(0, r);
    PackPayloads(r);
    PackAppend(FIXED_RECORD, PrefixValues(0, r), PayloadFormat(r), PayloadValues(r));
  }

  /**
   * A mounted record is `offset3` bytes long, starts with deletion flag 0,
   * its prefix unpacks to (0, offset1, offset2, offset3, id, age, year), and
   * slicing it at the offsets gives back the three payloads unchanged.
   */
  lemma MountLayout(r: RegisterVar)
    requires Consistent(r) && Mountable(r)
    ensures MountStruct(r).Ok?
    ensures var b := MountStruct(r).value;
            && |b| == r.offset3
            && b[..2] == [0, 0]
            && Unpack(FIXED_RECORD, b[..FIXED_RECORD_SIZE]) == Ok(PrefixValues(0, r))
            && b[FIXED_RECORD_SIZE..r.offset1] == r.education
            && b[r.offset1..r.offset2] == r.city
            && b[r.offset2..r.offset3] == r.gender
  {
    MountImage(r);
    FixedRecordSize();
    var b := MountStruct(r).value;
    var prefix := PackAll(FIXED_RECORD, PrefixValues(0, r));
    assert b[..FIXED_RECORD_SIZE] == prefix;
    assert b[FIXED_RECORD_SIZE..r.offset1] == r.education;
    assert b[r.offset1..r.offset2] == r.city;
    assert b[r.offset2..r.offset3] == r.gender;
    assert prefix[..2] == [0, 0] by {
      assert prefix[..2] == PackOne(H, Num(0));
    }
    assert b[..2] == prefix[..2];
    UnpackPack(FIXED_RECORD, PrefixValues(0, r));
  }

  /**
   * Reading a variable record back: unpack the prefix, then cut the payloads
   * at its offsets. Fails on a buffer shorter than the prefix, or on offsets
   * that are out of order or do not end at the buffer's end.
   */
  function DecodeVar(b: seq<byte>): (r: Result<(int, RegisterVar)>)
    ensures r.Ok? ==> |b| >= FIXED_RECORD_SIZE && Consistent(r.value.1) && Mountable(r.value.1)
    ensures r.Ok? ==> r.value.1.offset3 == |b| && 0 <= r.value.0 < 0x1_0000
    ensures |b| < FIXED_RECORD_SIZE ==> r == Err(StructError)
    ensures r.Err? && |b| >= FIXED_RECORD_SIZE ==> r.error == Corrupted
  {
    FixedRecordSize();
    if |b| < FIXED_RECORD_SIZE then Err(StructError)
    else
      var vs := UnpackAll(FIXED_RECORD, b[..FIXED_RECORD_SIZE]);
      var o1, o2, o3 := vs[1].n, vs[2].n, vs[3].n;
      if FIXED_RECORD_SIZE <= o1 <= o2 <= o3 == |b| then
        Ok((vs[0].n, RegisterVar(o1, o2, o3, vs[4].n, vs[5].n, vs[6].n, b[FIXED_RECORD_SIZE..o1], b[o1..o2], b[o2..o3])))
      else Err(Corrupted)
  }

  /** Decoding a mounted record gives back flag 0 and the object. */
  lemma DecodeMount(r: RegisterVar)
    requires Consistent(r) && Mountable(r)
    ensures MountStruct(r).Ok?
    ensures DecodeVar(MountStruct(r).value) == Ok((0, r))
  {
    MountLayout(r);
    FixedRecordSize();
    var b := MountStruct(r).value;
    var vs := UnpackAll(FIXED_RECORD, b[..FIXED_RECORD_SIZE]);
    assert vs == PrefixValues(0, r);
  }

  /** What a successful decode read: the prefix values, and the payloads cut at the offsets. */
  lemma DecodedParts(b: seq<byte>, deleted: int, r: RegisterVar)
    requires DecodeVar(b) == Ok((deleted, r))
    ensures |b| >= FIXED_RECORD_SIZE
    ensures Unpack(FIXED_RECORD, b[..FIXED_RECORD_SIZE]) == Ok(PrefixValues(deleted, r))
    ensures FIXED_RECORD_SIZE <= r.offset1 <= r.offset2 <= r.offset3 == |b|
    ensures r.education == b[FIXED_RECORD_SIZE..r.offset1]
    ensures r.city == b[r.offset1..r.offset2]
    ensures r.gender == b[r.offset2..r.offset3]
  {
    FixedRecordSize();
    var vs := UnpackAll(FIXED_RECORD, b[..FIXED_RECORD_SIZE]);
    assert vs == [Num(vs[0].n), Num(vs[1].n), Num(vs[2].n), Num(vs[3].n), Num(vs[4].n), Num(vs[5].n), Num(vs[6].n)] by {
      assert forall i :: 0 <= i < 7 ==> Exact(FIXED_RECORD[i], vs[i]);
    }
  }

  /** Packing what was unpacked gives back the buffer. */
  lemma RepackPrefix(p: seq<byte>, vs: seq<Value>)
    requires Unpack(FIXED_RECORD, p) == Ok(vs)
    ensures Packable(FIXED_RECORD, vs) && PackAll(FIXED_RECORD, vs) == p
  {
    PackUnpack(FIXED_RECORD, p);
  }

  /** A buffer is its four consecutive pieces. */
  lemma Pieces(b: seq<byte>, k1: nat, k2: nat, k3: nat)
    requires k1 <= k2 <= k3 <= |b|
    ensures b[..k3] == b[..k1] + b[k1..k2] + b[k2..k3]
  {
  }

  /** Every buffer that decodes to a live record is what `mount_struct` produces for it. */
  lemma MountDecode(b: seq<byte>, r: RegisterVar)
    requires DecodeVar(b) == Ok((0, r))
    ensures MountStruct(r) == Ok(b)
  {
    DecodedParts(b, 0, r);
    RepackPrefix(b[..FIXED_RECORD_SIZE], PrefixValues(0, r));
    Reassemble(b, r);
  }

  /** A buffer cut at a mountable object's offsets into its packed prefix and payloads is that object's mounted image. */
  lemma Reassemble(b: seq<byte>, r: RegisterVar)
    requires Mountable(r)
    requires FIXED_RECORD_SIZE <= r.offset1 <= r.offset2 <= r.offset3 == |b|
    requires Packable(FIXED_RECORD, PrefixValues(0, r)) && PackAll(FIXED_RECORD, PrefixValues(0, r)) == b[..FIXED_RECORD_SIZE]
    requires r.education == b[FIXED_RECORD_SIZE..r.offset1]
    requires r.city == b[r.offset1..r.offset2]
    requires r.gender == b[r.offset2..r.offset3]
    ensures MountStruct(r) == Ok(b)
  {
    MountImage(r);
    assert b[..r.offset2] == b[..FIXED_RECORD_SIZE] + r.education + r.city by {
      Pieces(b, FIXED_RECORD_SIZE, r.offset1, r.offset2);
    }
    assert b == b[..r.offset2] + r.gender;
  }
}
