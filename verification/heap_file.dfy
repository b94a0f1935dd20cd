/**
 * The header page of the fixed-width heap file and its read-modify-write
 * (heap/main.py `_create_file`, `read_header`, `write_header`), and the
 * record append `write_register` built on them. The file is its byte
 * sequence; the clock reading `str(datetime.now())` is the parameter `now`.
 */
module HeapFile {
  import opened Wrappers
  import opened Bytes
  import opened Struct
  import opened Text
  import opened PointerCodec
  import opened HeapLayout
  import opened HeapRecord

  /** "employee" */
  const TABLE_NAME: seq<byte> := [0x65, 0x6d, 0x70, 0x6c, 0x6f, 0x79, 0x65, 0x65]

  /** Width of the table-name and timestamp fields. */
  const TEXT_WIDTH: nat := 64

  /** The list `read_header` returns. */
  datatype Header = Header(
    blockSize: nat,
    headerSize: nat,
    recordSize: nat,
    last: Pointer,
    free: Pointer,
    tableName: seq<byte>,
    created: seq<byte>,
    updated: seq<byte>)

  /** The values packed into the header; the geometry fields are always the compiled-in constants. */
  function HeaderValues(last: Pointer, free: Pointer, created: seq<byte>, updated: seq<byte>): seq<Value> {
    [Num(BLOCK_SIZE), Num(HEADER_SIZE), Num(RECORD_SIZE), Num(ToHandle(last)), Num(ToHandle(free)),
     Raw(Pad(TABLE_NAME, TEXT_WIDTH)), Raw(Pad(created, TEXT_WIDTH)), Raw(Pad(updated, TEXT_WIDTH))]
  }

  lemma HeaderValuesConform(last: Pointer, free: Pointer, created: seq<byte>, updated: seq<byte>)
    ensures Conforms(HEADER_STRUCTURE, HeaderValues(last, free, created, updated))
  {
  }

  /** `struct.pack(HEADER_STRUCTURE, ...)` of a header. */
  function HeaderImage(last: Pointer, free: Pointer, created: seq<byte>, updated: seq<byte>): (r: seq<byte>)
    ensures |r| == HEADER_SIZE
  {
    HeaderValuesConform(last, free, created, updated);
    UnpackPack(HEADER_STRUCTURE, HeaderValues(last, free, created, updated));
    FormatSizes();
    PackAll(HEADER_STRUCTURE, HeaderValues(last, free, created, updated))
  }

  /**
   * `read_header()`: unpack the first HEADER_SIZE bytes; pointers are
   * dereferenced and text fields stripped of trailing NUL. The stored
   * geometry is returned as found, not checked. A file shorter than the
   * header makes the unpack fail.
   */
  function ReadHeader(file: seq<byte>): (r: Result<Header>)
    ensures r.Err? ==> r.error == StructError
    ensures r.Ok? <==> |file| >= HEADER_SIZE
    ensures r.Ok? ==> |r.value.tableName| <= TEXT_WIDTH && NoTrailingNul(r.value.tableName)
    ensures r.Ok? ==> |r.value.created| <= TEXT_WIDTH && NoTrailingNul(r.value.created)
    ensures r.Ok? ==> |r.value.updated| <= TEXT_WIDTH && NoTrailingNul(r.value.updated)
  {
    FormatSizes();
    var vs :- Unpack(HEADER_STRUCTURE, Head(file, HEADER_SIZE));
    Ok(HeaderOf(vs))
  }

  /** The header a list of unpacked values stands for. */
  function HeaderOf(vs: seq<Value>): Header
    requires Conforms(HEADER_STRUCTURE, vs)
  {
    Header(vs[0].n, vs[1].n, vs[2].n, FromHandle(vs[3].n), FromHandle(vs[4].n),
           RStrip(vs[5].b), RStrip(vs[6].b), RStrip(vs[7].b))
  }

  lemma HeaderOfValues(last: Pointer, free: Pointer, created: seq<byte>, updated: seq<byte>)
    requires Conforms(HEADER_STRUCTURE, HeaderValues(last, free, created, updated))
    ensures HeaderOf(HeaderValues(last, free, created, updated))
         == Header(BLOCK_SIZE, HEADER_SIZE, RECORD_SIZE, last, free, TABLE_NAME,
                   RStrip(Pad(created, TEXT_WIDTH)), RStrip(Pad(updated, TEXT_WIDTH)))
  {
    var vs := HeaderValues(last, free, created, updated);
    var h := HeaderOf(vs);
    assert h.last == last by {
      HandleBijection(last, 0);
    }
    assert h.free == free by {
      HandleBijection(free, 0);
    }
    assert h.tableName == TABLE_NAME by {
      StripPadded(TABLE_NAME, TEXT_WIDTH);
    }
  }

  /** Reading a header image gives back its pointers and texts; the table name comes back whole. */
  lemma ReadHeaderImage(file: seq<byte>, last: Pointer, free: Pointer, created: seq<byte>, updated: seq<byte>)
    requires |file| >= HEADER_SIZE && file[..HEADER_SIZE] == HeaderImage(last, free, created, updated)
    ensures ReadHeader(file) == Ok(Header(BLOCK_SIZE, HEADER_SIZE, RECORD_SIZE, last, free, TABLE_NAME,
                                          RStrip(Pad(created, TEXT_WIDTH)), RStrip(Pad(updated, TEXT_WIDTH))))
  {
    var values := HeaderValues(last, free, created, updated);
    HeaderValuesConform(last, free, created, updated);
    UnpackPack(HEADER_STRUCTURE, values);
    FormatSizes();
    assert Unpack(HEADER_STRUCTURE, Head(file, HEADER_SIZE)) == Ok(values);
    HeaderOfValues(last, free, created, updated);
  }

  /** A one-block file holding only a header with the given pointers, both timestamps `now`, and zero padding. */
  function HeaderPage(last: Pointer, free: Pointer, now: seq<byte>): (f: seq<byte>)
    ensures |f| == BLOCK_SIZE
    ensures f[HEADER_SIZE..] == Zeros(BLOCK_SIZE - HEADER_SIZE)
    ensures ReadHeader(f) == Ok(Header(BLOCK_SIZE, HEADER_SIZE, RECORD_SIZE, last, free, TABLE_NAME,
                                       RStrip(Pad(now, TEXT_WIDTH)), RStrip(Pad(now, TEXT_WIDTH))))
  {
    var f := ZeroExtend(HeaderImage(last, free, now, now), BLOCK_SIZE);
    ReadHeaderImage(f, last, free, now, now);
    f
  }

  /** The header page is the single `struct.pack` of the header format extended by a padding field. */
  lemma HeaderPageIsOnePack(last: Pointer, free: Pointer, now: seq<byte>)
    ensures Pack(HEADER_STRUCTURE + [S(BLOCK_SIZE - HEADER_SIZE)],
                 HeaderValues(last, free, now, now) + [Raw(Zeros(BLOCK_SIZE - HEADER_SIZE))])
         == Ok(HeaderPage(last, free, now))
  {
    var values := HeaderValues(last, free, now, now);
    var padding := [Raw(Zeros(BLOCK_SIZE - HEADER_SIZE))];
    assert Packable(HEADER_STRUCTURE, values) by {
      HeaderValuesConform(last, free, now, now);
      UnpackPack(HEADER_STRUCTURE, values);
    }
    assert Packable([S(BLOCK_SIZE - HEADER_SIZE)], padding);
    assert PackAll([S(BLOCK_SIZE - HEADER_SIZE)], padding) == Zeros(BLOCK_SIZE - HEADER_SIZE) by {
      assert padding[1..] == [];
    }
    PackAppend(HEADER_STRUCTURE, values, [S(BLOCK_SIZE - HEADER_SIZE)], padding);
  }

  /**
   * `_create_file()`: one block holding the header, with last pointer (1, 1),
   * a null free pointer and equal timestamps, then zero padding.
   */
  function CreateFile(now: seq<byte>): (f: seq<byte>)
    ensures |f| == BLOCK_SIZE
    ensures f[HEADER_SIZE..] == Zeros(BLOCK_SIZE - HEADER_SIZE)
    ensures ReadHeader(f) == Ok(Header(BLOCK_SIZE, HEADER_SIZE, RECORD_SIZE, Pointer(1, 1), NULL, TABLE_NAME,
                                       RStrip(Pad(now, TEXT_WIDTH)), RStrip(Pad(now, TEXT_WIDTH))))
  {
    HeaderPage(Pointer(1, 1), NULL, now)
  }

  /**
   * `write_header(last_pointer, del_pointer)`: rewrite the header in place,
   * carrying forward each pointer not given, keeping the created timestamp
   * and stamping `now` as the update time. Only the header bytes change.
   */
  function WriteHeader(file: seq<byte>, last: Option<Pointer>, free: Option<Pointer>, now: seq<byte>): (r: Result<seq<byte>>)
    ensures r.Err? ==> r.error == StructError
    ensures r.Ok? <==> |file| >= HEADER_SIZE
    ensures r.Ok? ==> |r.value| == |file| && r.value[HEADER_SIZE..] == file[HEADER_SIZE..]
  {
    var h :- ReadHeader(file);
    var putLast := last.GetOr(h.last);
    var putFree := free.GetOr(h.free);
    Ok(WriteAt(file, 0, HeaderImage(putLast, putFree, h.created, now)))
  }

  /**
   * After `write_header` the header reads back with the constants, the
   * given or carried-forward pointers, the same created timestamp and the
   * new update time.
   */
  lemma WriteHeaderReadBack(file: seq<byte>, last: Option<Pointer>, free: Option<Pointer>, now: seq<byte>)
    requires |file| >= HEADER_SIZE
    ensures WriteHeader(file, last, free, now).Ok?
    ensures ReadHeader(WriteHeader(file, last, free, now).value)
         == Ok(Header(BLOCK_SIZE, HEADER_SIZE, RECORD_SIZE,
                      last.GetOr(ReadHeader(file).value.last), free.GetOr(ReadHeader(file).value.free),
                      TABLE_NAME, ReadHeader(file).value.created, RStrip(Pad(now, TEXT_WIDTH))))
  {
    var h := ReadHeader(file).value;
    var f' := WriteHeader(file, last, free, now).value;
    var image := HeaderImage(last.GetOr(h.last), free.GetOr(h.free), h.created, now);
    assert f'[..HEADER_SIZE] == image;
    ReadHeaderImage(f', last.GetOr(h.last), free.GetOr(h.free), h.created, now);
    StripPadded(h.created, TEXT_WIDTH);
  }

  /** The RECORD_SIZE bytes of the slot `p` points at, if the file reaches that far. */
  function SlotBytes(file: seq<byte>, p: Pointer): Option<seq<byte>> {
    var off := LinearOffset(p);
    if 0 <= off && off + RECORD_SIZE <= |file| then Some(file[off..off + RECORD_SIZE]) else None
  }

  /**
   * `write_register(age, year, education, city, gender)`: pack a live record
   * at the offset of the header's last pointer, then advance the last
   * pointer. Fails on a corrupt last pointer, an age or year outside 32
   * bits, or a last pointer that cannot advance.
   */
  function WriteRegister(file: seq<byte>, age: Option<int>, year: Option<int>, education: Option<seq<byte>>,
                         city: Option<seq<byte>>, gender: Option<seq<byte>>, now: seq<byte>): (r: Result<seq<byte>>)
    ensures r.Ok? <==> && |file| >= HEADER_SIZE
                       && CalculateOffset(ReadHeader(file).value.last, false).Ok?
                       && RegisterRecord(age, year, education, city, gender).Ok?
                       && NextRegisterPointer(ReadHeader(file).value.last).Ok?
    ensures |file| >= HEADER_SIZE && CalculateOffset(ReadHeader(file).value.last, false).Err? ==> r == Err(Corrupted)
    ensures (r.Err? && !(|file| >= HEADER_SIZE && CalculateOffset(ReadHeader(file).value.last, false).Err?))
            ==> r.error == StructError
  {
    var h :- ReadHeader(file);
    var offset :- CalculateOffset(h.last, false);
    var record :- EncodeRegister(age, year, education, city, gender);
    var written := WriteAt(file, offset, record);
    var next :- NextRegisterPointer(h.last);
    WriteHeader(written, Some(next), None, now)
  }

  /**
   * A successful `write_register` stores the live record at the offset of
   * the header's last pointer, growing the file only as far as that record.
   */
  lemma WriteRegisterStores(file: seq<byte>, age: Option<int>, year: Option<int>, education: Option<seq<byte>>,
                            city: Option<seq<byte>>, gender: Option<seq<byte>>, now: seq<byte>,
                            h: Header, file': seq<byte>)
    requires ReadHeader(file) == Ok(h)
    requires WriteRegister(file, age, year, education, city, gender, now) == Ok(file')
    ensures LinearOffset(h.last) >= HEADER_SIZE
    ensures var off := LinearOffset(h.last);
            |file'| == (if off + RECORD_SIZE > |file| then off + RECORD_SIZE else |file|)
    ensures SlotBytes(file', h.last).Some?
    ensures DecodeRecord(SlotBytes(file', h.last).value) == RegisterRecord(age, year, education, city, gender)
  {
    WriteRegisterSteps(file, age, year, education, city, gender, now, h, file');
    var off := LinearOffset(h.last);
    var record := EncodeRegister(age, year, education, city, gender).value;
    var written := WriteAt(file, off, record);
    assert |written| == |file'| && written[HEADER_SIZE..] == file'[HEADER_SIZE..];
    StoreSlot(file, h.last, off, record, written, file');
  }

  /** Storing a record at a slot, with only header bytes changed afterwards, leaves the record at that slot. */
  lemma StoreSlot(file: seq<byte>, p: Pointer, off: int, record: seq<byte>, written: seq<byte>, file': seq<byte>)
    requires off == LinearOffset(p) && off >= HEADER_SIZE && |file| >= HEADER_SIZE
    requires |record| == RECORD_SIZE
    requires written == WriteAt(file, off, record)
    requires |written| == |file'| && written[HEADER_SIZE..] == file'[HEADER_SIZE..]
    ensures |file'| == (if off + RECORD_SIZE > |file| then off + RECORD_SIZE else |file|)
    ensures SlotBytes(file', p) == Some(record)
  {
    StoreThenStampData(file, off, record, written, file');
    SlotHolds(file', p, off, record);
  }

  /**
   * A successful `write_register` moves the last pointer to the next slot
   * and keeps the free pointer and the created timestamp.
   */
  lemma WriteRegisterAdvances(file: seq<byte>, age: Option<int>, year: Option<int>, education: Option<seq<byte>>,
                              city: Option<seq<byte>>, gender: Option<seq<byte>>, now: seq<byte>,
                              h: Header, file': seq<byte>)
    requires ReadHeader(file) == Ok(h)
    requires WriteRegister(file, age, year, education, city, gender, now) == Ok(file')
    ensures NextRegisterPointer(h.last).Ok?
    ensures ReadHeader(file') == Ok(Header(BLOCK_SIZE, HEADER_SIZE, RECORD_SIZE, NextRegisterPointer(h.last).value, h.free,
                                          TABLE_NAME, h.created, RStrip(Pad(now, TEXT_WIDTH))))
  {
    WriteRegisterSteps(file, age, year, education, city, gender, now, h, file');
    var record := EncodeRegister(age, year, education, city, gender).value;
    StoreThenStampHeader(file, h, LinearOffset(h.last), record, NextRegisterPointer(h.last).value, now,
                         WriteAt(file, LinearOffset(h.last), record), file');
  }

  /** A successful `write_register` changes no data byte outside the record's slot. */
  lemma WriteRegisterFrame(file: seq<byte>, age: Option<int>, year: Option<int>, education: Option<seq<byte>>,
                           city: Option<seq<byte>>, gender: Option<seq<byte>>, now: seq<byte>,
                           h: Header, file': seq<byte>)
    requires ReadHeader(file) == Ok(h)
    requires WriteRegister(file, age, year, education, city, gender, now) == Ok(file')
    ensures var off := LinearOffset(h.last);
            forall i :: HEADER_SIZE <= i < |file| && !(off <= i < off + RECORD_SIZE) ==> file'[i] == file[i]
  {
    WriteRegisterSteps(file, age, year, education, city, gender, now, h, file');
    var off := LinearOffset(h.last);
    var record := EncodeRegister(age, year, education, city, gender).value;
    var written := WriteAt(file, off, record);
    assert |record| == RECORD_SIZE;
    assert |written| == |file'| && written[HEADER_SIZE..] == file'[HEADER_SIZE..];
    StoreThenStampData(file, off, record, written, file');
  }

  lemma SlotHolds(file: seq<byte>, p: Pointer, off: int, record: seq<byte>)
    requires off == LinearOffset(p) && 0 <= off && off + RECORD_SIZE <= |file|
    requires file[off..off + RECORD_SIZE] == record
    ensures SlotBytes(file, p) == Some(record)
  {
  }

  /** The header after the rewrite: the new last pointer, everything else carried from the header before the record write. */
  lemma StoreThenStampHeader(file: seq<byte>, h: Header, off: nat, record: seq<byte>, next: Pointer, now: seq<byte>,
                             written: seq<byte>, file': seq<byte>)
    requires ReadHeader(file) == Ok(h)
    requires off >= HEADER_SIZE
    requires written == WriteAt(file, off, record)
    requires file' == WriteHeader(written, Some(next), None, now).value
    ensures ReadHeader(file') == Ok(Header(BLOCK_SIZE, HEADER_SIZE, RECORD_SIZE, next, h.free,
                                          TABLE_NAME, h.created, RStrip(Pad(now, TEXT_WIDTH))))
  {
    RecordWriteKeepsHeader(file, off, record);
    WriteHeaderReadBack(written, Some(next), None, now);
  }

  /** Data bytes after a header rewrite are those of the record write beneath it. */
  lemma StoreThenStampData(file: seq<byte>, off: nat, record: seq<byte>, written: seq<byte>, file': seq<byte>)
    requires off >= HEADER_SIZE && |file| >= HEADER_SIZE
    requires written == WriteAt(file, off, record)
    requires |written| == |file'| && written[HEADER_SIZE..] == file'[HEADER_SIZE..]
    ensures file'[off..off + |record|] == record
    ensures forall i :: HEADER_SIZE <= i < |file| && !(off <= i < off + |record|) ==> file'[i] == file[i]
  {
    assert file'[off..off + |record|] == record by {
      assert written[off..off + |record|] == record;
      SameTail(file', written, HEADER_SIZE, off, |record|);
    }
    assert forall i :: HEADER_SIZE <= i < |file| && !(off <= i < off + |record|) ==> file'[i] == file[i] by {
      SameTail(file', written, HEADER_SIZE, off, |record|);
      WriteAtIndex(file, off, record);
    }
  }

  /** The steps of a successful `write_register`: record packed and written at the last pointer's offset, then the header rewritten. */
  lemma WriteRegisterSteps(file: seq<byte>, age: Option<int>, year: Option<int>, education: Option<seq<byte>>,
                           city: Option<seq<byte>>, gender: Option<seq<byte>>, now: seq<byte>,
                           h: Header, file': seq<byte>)
    requires ReadHeader(file) == Ok(h)
    requires WriteRegister(file, age, year, education, city, gender, now) == Ok(file')
    ensures LinearOffset(h.last) >= HEADER_SIZE
    ensures EncodeRegister(age, year, education, city, gender).Ok?
    ensures NextRegisterPointer(h.last).Ok?
    ensures file' == WriteHeader(WriteAt(file, LinearOffset(h.last), EncodeRegister(age, year, education, city, gender).value),
                                 Some(NextRegisterPointer(h.last).value), None, now).value
  {
  }

  /** Writing past the header leaves the header as it was. */
  lemma RecordWriteKeepsHeader(file: seq<byte>, off: nat, data: seq<byte>)
    requires |file| >= HEADER_SIZE && off >= HEADER_SIZE
    ensures ReadHeader(WriteAt(file, off, data)) == ReadHeader(file)
  {
    WriteAtKeepsHead(file, off, data, HEADER_SIZE);
  }

  /**
   * The first `write_register` on a file whose last pointer is still (1, 1),
   * as `_create_file` leaves it, succeeds and moves the last pointer to (1, 2).
   */
  lemma FirstWriteRegister(f: seq<byte>, age: Option<int>, year: Option<int>, education: Option<seq<byte>>,
                                 city: Option<seq<byte>>, gender: Option<seq<byte>>, later: seq<byte>)
    requires ReadHeader(f).Ok? && ReadHeader(f).value.last == Pointer(1, 1) && ReadHeader(f).value.free == NULL
    requires RegisterRecord(age, year, education, city, gender).Ok?
    ensures var r := WriteRegister(f, age, year, education, city, gender, later);
            && r.Ok?
            && ReadHeader(r.value).Ok?
            && ReadHeader(r.value).value.last == Pointer(1, 2)
            && ReadHeader(r.value).value.free == NULL
  {
    var h := ReadHeader(f).value;
    assert NextRegisterPointer(h.last) == Ok(Pointer(1, 2));
    var r := WriteRegister(f, age, year, education, city, gender, later);
    WriteRegisterAdvances(f, age, year, education, city, gender, later, h, r.value);
  }

  /**
   * On such a one-block file the first record lands right after the header,
   * in slot (1, 1), and the file keeps its single block.
   */
  lemma FirstRecordAfterHeader(f: seq<byte>, age: Option<int>, year: Option<int>, education: Option<seq<byte>>,
                               city: Option<seq<byte>>, gender: Option<seq<byte>>, later: seq<byte>)
    requires |f| == BLOCK_SIZE && ReadHeader(f).Ok? && ReadHeader(f).value.last == Pointer(1, 1)
    requires RegisterRecord(age, year, education, city, gender).Ok?
    ensures var r := WriteRegister(f, age, year, education, city, gender, later);
            && r.Ok?
            && |r.value| == BLOCK_SIZE
            && SlotBytes(r.value, Pointer(1, 1)) == Some(r.value[HEADER_SIZE..HEADER_SIZE + RECORD_SIZE])
            && DecodeRecord(r.value[HEADER_SIZE..HEADER_SIZE + RECORD_SIZE]) == RegisterRecord(age, year, education, city, gender)
  {
    var h := ReadHeader(f).value;
    assert LinearOffset(h.last) == HEADER_SIZE;
    var r := WriteRegister(f, age, year, education, city, gender, later);
    WriteRegisterStores(f, age, year, education, city, gender, later, h, r.value);
  }
}
