/**
 * The header page of the variable-length heap file (heapvar/main.py
 * `DatabaseVar`): `create_file`, `read_header` and `write_header`. The
 * header holds the geometry, the last-record pointer, a record serial, the
 * table name and two timestamps. The file is its byte sequence and the clock
 * reading `str(datetime.now())` is the parameter `now`.
 */
module VarFile {
  import opened Wrappers
  import opened Bytes
  import opened Struct
  import opened Text
  import opened PointerCodec

  /** DatabaseVar's geometry: 4096-byte blocks and a 204-byte header. */
  const BLOCK_SIZE: nat := 4096
  const HEADER_SIZE: nat := 204
  const TEXT_WIDTH: nat := 64

  /** "employee" */
  const TABLE_NAME: seq<byte> := [0x65, 0x6d, 0x70, 0x6c, 0x6f, 0x79, 0x65, 0x65]

  /** HEADER_STRUCT: block size and header size, last pointer, serial, table name, created and updated timestamps. */
  const HEADER_STRUCT: Format := [H, H, I, I, S(TEXT_WIDTH), S(TEXT_WIDTH), S(TEXT_WIDTH)]

  lemma HeaderStructSize()
    ensures CalcSize(HEADER_STRUCT) == HEADER_SIZE
  {
    assert CalcSize([S(64)]) == 64;
    assert CalcSize([S(64), S(64)]) == 128;
    assert CalcSize(HEADER_STRUCT[4..]) == 192;
    assert CalcSize(HEADER_STRUCT[3..]) == 196;
    assert CalcSize(HEADER_STRUCT[2..]) == 200;
    assert CalcSize(HEADER_STRUCT[1..]) == 202;
  }

  /** The list `read_header` returns. */
  datatype VarHeader = VarHeader(
    blockSize: nat,
    headerSize: nat,
    last: Pointer,
    serial: nat,
    tableName: seq<byte>,
    created: seq<byte>,
    updated: seq<byte>)

  function HeaderValues(last: Pointer, serial: u32, created: seq<byte>, updated: seq<byte>): seq<Value> {
    [Num(BLOCK_SIZE), Num(HEADER_SIZE), Num(ToHandle(last)), Num(serial),
     Raw(Pad(TABLE_NAME, TEXT_WIDTH)), Raw(Pad(created, TEXT_WIDTH)), Raw(Pad(updated, TEXT_WIDTH))]
  }

  lemma HeaderValuesConform(last: Pointer, serial: u32, created: seq<byte>, updated: seq<byte>)
    ensures Conforms(HEADER_STRUCT, HeaderValues(last, serial, created, updated))
  {
  }

  /** `struct.pack(HEADER_STRUCT, ...)` of a header whose serial fits in 32 bits. */
  function HeaderImage(last: Pointer, serial: u32, created: seq<byte>, updated: seq<byte>): (r: seq<byte>)
    ensures |r| == HEADER_SIZE
  {
    HeaderValuesConform(last, serial, created, updated);
    UnpackPack(HEADER_STRUCT, HeaderValues(last, serial, created, updated));
    HeaderStructSize();
    PackAll(HEADER_STRUCT, HeaderValues(last, serial, created, updated))
  }

  /**
   * `read_header()`: unpack the first HEADER_SIZE bytes; the pointer is
   * dereferenced and the text fields stripped of trailing NUL. A file
   * shorter than the header makes the unpack fail.
   */
  function ReadHeader(file: seq<byte>): (r: Result<VarHeader>)
    ensures r.Err? ==> r.error == StructError
    ensures r.Ok? <==> |file| >= HEADER_SIZE
    ensures r.Ok? ==> r.value.serial < 0x1_0000_0000
    ensures r.Ok? ==> |r.value.tableName| <= TEXT_WIDTH && NoTrailingNul(r.value.tableName)
    ensures r.Ok? ==> |r.value.created| <= TEXT_WIDTH && NoTrailingNul(r.value.created)
    ensures r.Ok? ==> |r.value.updated| <= TEXT_WIDTH && NoTrailingNul(r.value.updated)
  {
    HeaderStructSize();
    var vs :- Unpack(HEADER_STRUCT, Head(file, HEADER_SIZE));
    Ok(HeaderOf(vs))
  }

  /** The header a list of unpacked values stands for. */
  function HeaderOf(vs: seq<Value>): (h: VarHeader)
    requires Conforms(HEADER_STRUCT, vs)
  {
    VarHeader(vs[0].n, vs[1].n, FromHandle(vs[2].n), vs[3].n, RStrip(vs[4].b), RStrip(vs[5].b), RStrip(vs[6].b))
  }

  /** The fields unpacked from a header image are its constants, pointer, serial and stripped texts. */
  lemma HeaderOfValues(last: Pointer, serial: u32, created: seq<byte>, updated: seq<byte>)
    requires Conforms(HEADER_STRUCT, HeaderValues(last, serial, created, updated))
    ensures HeaderOf(HeaderValues(last, serial, created, updated))
         == VarHeader(BLOCK_SIZE, HEADER_SIZE, last, serial, TABLE_NAME,
                      RStrip(Pad(created, TEXT_WIDTH)), RStrip(Pad(updated, TEXT_WIDTH)))
  {
    var h := HeaderOf(HeaderValues(last, serial, created, updated));
    assert h.last == last by {
      HandleBijection(last, 0);
    }
    assert h.tableName == TABLE_NAME by {
      StripPadded(TABLE_NAME, TEXT_WIDTH);
    }
  }

  /** Reading a header image gives back its pointer, serial and texts; the table name comes back whole. */
  lemma ReadHeaderImage(file: seq<byte>, last: Pointer, serial: u32, created: seq<byte>, updated: seq<byte>)
    requires |file| >= HEADER_SIZE && file[..HEADER_SIZE] == HeaderImage(last, serial, created, updated)
    ensures ReadHeader(file) == Ok(VarHeader(BLOCK_SIZE, HEADER_SIZE, last, serial, TABLE_NAME,
                                             RStrip(Pad(created, TEXT_WIDTH)), RStrip(Pad(updated, TEXT_WIDTH))))
  {
    var values := HeaderValues(last, serial, created, updated);
    HeaderValuesConform(last, serial, created, updated);
    UnpackPack(HEADER_STRUCT, values);
    HeaderStructSize();
    assert Unpack(HEADER_STRUCT, Head(file, HEADER_SIZE)) == Ok(values);
    HeaderOfValues(last, serial, created, updated);
  }

  /** A one-block file holding only a header with the given pointer and serial, both timestamps `now`, and zero padding. */
  function HeaderPage(last: Pointer, serial: u32, now: seq<byte>): (f: seq<byte>)
    ensures |f| == BLOCK_SIZE
    ensures f[HEADER_SIZE..] == Zeros(BLOCK_SIZE - HEADER_SIZE)
    ensures ReadHeader(f) == Ok(VarHeader(BLOCK_SIZE, HEADER_SIZE, last, serial, TABLE_NAME,
                                          RStrip(Pad(now, TEXT_WIDTH)), RStrip(Pad(now, TEXT_WIDTH))))
  {
    var f := ZeroExtend(HeaderImage(last, serial, now, now), BLOCK_SIZE);
    ReadHeaderImage(f, last, serial, now, now);
    f
  }

  /** The header page is the single `struct.pack` of the header format extended by a padding field. */
  lemma HeaderPageIsOnePack(last: Pointer, serial: u32, now: seq<byte>)
    ensures Pack(HEADER_STRUCT + [S(BLOCK_SIZE - HEADER_SIZE)],
                 HeaderValues(last, serial, now, now) + [Raw(Zeros(BLOCK_SIZE - HEADER_SIZE))])
         == Ok(HeaderPage(last, serial, now))
  {
    var values := HeaderValues(last, serial, now, now);
    var padding := [Raw(Zeros(BLOCK_SIZE - HEADER_SIZE))];
    assert Packable(HEADER_STRUCT, values) by {
      HeaderValuesConform(last, serial, now, now);
      UnpackPack(HEADER_STRUCT, values);
    }
    assert Packable([S(BLOCK_SIZE - HEADER_SIZE)], padding);
    assert PackAll([S(BLOCK_SIZE - HEADER_SIZE)], padding) == Zeros(BLOCK_SIZE - HEADER_SIZE) by {
      assert padding[1..] == [];
    }
    PackAppend(HEADER_STRUCT, values, [S(BLOCK_SIZE - HEADER_SIZE)], padding);
  }

  /** The state a fresh file is in: the last pointer still names the first byte after the header. */
  predicate IsEmpty(file: seq<byte>) {
    ReadHeader(file).Ok? && ReadHeader(file).value.last == Pointer(1, HEADER_SIZE)
  }

  /**
   * `create_file()`: one block holding the header, with last pointer
   * (1, HEADER_SIZE), serial 0 and equal timestamps, then zero padding.
   */
  function CreateFile(now: seq<byte>): (f: seq<byte>)
    ensures |f| == BLOCK_SIZE
    ensures f[HEADER_SIZE..] == Zeros(BLOCK_SIZE - HEADER_SIZE)
    ensures ReadHeader(f) == Ok(VarHeader(BLOCK_SIZE, HEADER_SIZE, Pointer(1, HEADER_SIZE), 0, TABLE_NAME,
                                          RStrip(Pad(now, TEXT_WIDTH)), RStrip(Pad(now, TEXT_WIDTH))))
    ensures IsEmpty(f)
  {
    HeaderPage(Pointer(1, HEADER_SIZE), 0, now)
  }

  /** One argument of a call to `pointer`: an integer, or a (block, offset) tuple passed whole. */
  datatype Arg = Int(n: int) | Pair(p: Pointer)

  /**
   * `self.pointer(...)` called with `args` as its positional arguments: a
   * count other than two raises TypeError; two integers are packed as 'HH',
   * which raises struct.error for a value outside 16 bits or a non-integer.
   */
  function PointerCall(args: seq<Arg>): (r: Result<Pointer>)
    ensures |args| != 2 ==> r == Err(MissingArgument)
    ensures r.Ok? <==> |args| == 2 && args[0].Int? && args[1].Int?
                       && 0 <= args[0].n < 0x1_0000 && 0 <= args[1].n < 0x1_0000
    ensures r.Ok? ==> r.value == Pointer(args[0].n, args[1].n)
    ensures |args| == 2 && r.Err? ==> r.error == StructError
  {
    if |args| != 2 then Err(MissingArgument)
    else if args[0].Int? && args[1].Int? then MakePointer(args[0].n, args[1].n)
    else Err(StructError)
  }

  /** The arguments a given `last_pointer` tuple spreads into. */
  function Spread(last: (int, int)): seq<Arg> {
    [Int(last.0), Int(last.1)]
  }

  /**
   * The rest of `write_header` once the pointer is packed: the serial
   * given or the stored one, the stored created timestamp, the constants and
   * `now` as update time, written over the first HEADER_SIZE bytes.
   */
  function StampHeader(file: seq<byte>, putLast: Pointer, newSerial: Option<int>, now: seq<byte>): (r: Result<seq<byte>>)
    ensures r.Err? ==> r.error == StructError
    ensures r.Ok? <==> |file| >= HEADER_SIZE && (newSerial.Some? ==> 0 <= newSerial.value < 0x1_0000_0000)
    ensures r.Ok? ==> |r.value| == |file| && r.value[HEADER_SIZE..] == file[HEADER_SIZE..]
  {
    var h :- ReadHeader(file);
    var serial := newSerial.GetOr(h.serial);
    if 0 <= serial < 0x1_0000_0000 then Ok(WriteAt(file, 0, HeaderImage(putLast, serial, h.created, now)))
    else Err(StructError)
  }

  /**
   * `write_header(last_pointer, new_serial)` as the source has it: with no
   * pointer given it reads the stored one and passes the tuple to `pointer`
   * as a single argument.
   */
  function WriteHeaderAsWritten(file: seq<byte>, last: Option<(int, int)>, newSerial: Option<int>, now: seq<byte>): (r: Result<seq<byte>>)
    ensures last.None? ==> r.Err?
    ensures last.None? && |file| >= HEADER_SIZE ==> r == Err(MissingArgument)
    ensures r.Err? && !(last.None? && |file| >= HEADER_SIZE) ==> r.error == StructError
  {
    var putLast :- if last.Some? then PointerCall(Spread(last.value))
                   else (var h :- ReadHeader(file); PointerCall([Pair(h.last)]));
    StampHeader(file, putLast, newSerial, now)
  }

  /**
   * `write_header(last_pointer, new_serial)` with the stored pointer spread
   * into `pointer` as intended: each field not given is carried forward, the
   * created timestamp is kept and `now` becomes the update time. Fails on a
   * file shorter than the header, a pointer outside 16 bits or a serial
   * outside 32 bits; only the header bytes change.
   */
  function WriteHeader(file: seq<byte>, last: Option<(int, int)>, newSerial: Option<int>, now: seq<byte>): (r: Result<seq<byte>>)
    ensures r.Err? ==> r.error == StructError
    ensures r.Ok? <==> && |file| >= HEADER_SIZE
                       && (last.Some? ==> 0 <= last.value.0 < 0x1_0000 && 0 <= last.value.1 < 0x1_0000)
                       && (newSerial.Some? ==> 0 <= newSerial.value < 0x1_0000_0000)
    ensures r.Ok? ==> |r.value| == |file| && r.value[HEADER_SIZE..] == file[HEADER_SIZE..]
  {
    var putLast :- if last.Some? then PointerCall(Spread(last.value))
                   else (var h :- ReadHeader(file); PointerCall([Int(h.last.block), Int(h.last.offset)]));
    StampHeader(file, putLast, newSerial, now)
  }

  /** With a pointer given, the source and the intended `write_header` agree. */
  lemma AsWrittenWithPointer(file: seq<byte>, last: (int, int), newSerial: Option<int>, now: seq<byte>)
    ensures WriteHeaderAsWritten(file, Some(last), newSerial, now) == WriteHeader(file, Some(last), newSerial, now)
  {
  }

  /**
   * Without a pointer the source always fails, even on a readable header
   * where the intended version succeeds: the stored pointer is never carried
   * forward.
   */
  lemma AsWrittenDropsCarryForward(file: seq<byte>, newSerial: Option<int>, now: seq<byte>)
    requires |file| >= HEADER_SIZE
    requires newSerial.Some? ==> 0 <= newSerial.value < 0x1_0000_0000
    ensures WriteHeaderAsWritten(file, None, newSerial, now) == Err(MissingArgument)
    ensures WriteHeader(file, None, newSerial, now).Ok?
  {
  }

  /** The header as `write_header` leaves it. */
  lemma WriteHeaderReadBack(file: seq<byte>, last: Option<(int, int)>, newSerial: Option<int>, now: seq<byte>,
                            h: VarHeader, file': seq<byte>)
    requires ReadHeader(file) == Ok(h)
    requires WriteHeader(file, last, newSerial, now) == Ok(file')
    ensures ReadHeader(file').Ok?
    ensures var g := ReadHeader(file').value;
            && g.blockSize == BLOCK_SIZE && g.headerSize == HEADER_SIZE
            && (last.Some? ==> g.last.block == last.value.0 && g.last.offset == last.value.1)
            && (last.None? ==> g.last == h.last)
            && g.serial == newSerial.GetOr(h.serial)
            && g.tableName == TABLE_NAME
            && g.created == h.created
            && g.updated == RStrip(Pad(now, TEXT_WIDTH))
  {
    var putLast := if last.Some? then Pointer(last.value.0, last.value.1) else h.last;
    var serial := newSerial.GetOr(h.serial);
    StampSteps(file, last, newSerial, now, h, file');
    ReadHeaderImage(file', putLast, serial, h.created, now);
    StripPadded(h.created, TEXT_WIDTH);
  }

  /** A header rewrite that gives no pointer leaves an empty file empty. */
  lemma WriteHeaderKeepsEmpty(file: seq<byte>, newSerial: Option<int>, now: seq<byte>)
    requires IsEmpty(file)
    requires WriteHeader(file, None, newSerial, now).Ok?
    ensures IsEmpty(WriteHeader(file, None, newSerial, now).value)
  {
    WriteHeaderReadBack(file, None, newSerial, now, ReadHeader(file).value, WriteHeader(file, None, newSerial, now).value);
  }

  /** The image a successful `write_header` puts over the header bytes. */
  lemma StampSteps(file: seq<byte>, last: Option<(int, int)>, newSerial: Option<int>, now: seq<byte>,
                   h: VarHeader, file': seq<byte>)
    requires ReadHeader(file) == Ok(h)
    requires WriteHeader(file, last, newSerial, now) == Ok(file')
    ensures last.Some? ==> 0 <= last.value.0 < 0x1_0000 && 0 <= last.value.1 < 0x1_0000
    ensures 0 <= newSerial.GetOr(h.serial) < 0x1_0000_0000
    ensures |file'| >= HEADER_SIZE
    ensures file'[..HEADER_SIZE]
         == HeaderImage(if last.Some? then Pointer(last.value.0, last.value.1) else h.last,
                        newSerial.GetOr(h.serial), h.created, now)
  {
  }
}
