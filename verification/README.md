# Heap-file storage engine: byte formats and header bookkeeping

This project models the core of a small single-table heap-file storage engine
that exists in two snapshots. Both snapshots keep one table, `employee`, in a
binary file: a header at the start of the first 4096-byte block, with records
after it.

- **Fixed-width engine** (`heap/main.py`, class `Database`):
  - The header is `'=H H I I I 64s 64s 64s'`, which is 208 bytes. It holds the
    block size, header size and record size, the last-record pointer, the
    free-list pointer, the table name, and the created and updated timestamps.
  - Records are `'=H I I 9s 9s 6s'`, which is 34 bytes. The inline comment at
    heap/main.py:37 says 36; the size that `struct.calcsize` gives is 34.
  - A record lives in a 1-based `(block, slot)` slot.
  - `write_register` packs a record at the last pointer's offset, then rewrites
    the header with the next slot.
- **Variable-width engine** (`heapvar/main.py`, classes `RegisterVar` and
  `DatabaseVar`):
  - The header is `'=H H I I 64s 64s 64s'`, which is 204 bytes. It holds a
    last pointer whose second half is a byte offset, and a record serial.
  - A record is a 20-byte prefix `'=H H H H I I I'` followed by three text
    payloads. The prefix holds the deletion flag, the three end offsets, id,
    age and year.

The file is its byte sequence. `f.seek(pos); f.write(data)` is `Bytes.WriteAt`:
the data replaces bytes in place, and the file grows when the write runs past
its end. `f.read(n)` from position 0 is `Bytes.Head`.

Python's `struct` module is modelled once, in the `Struct` module, for the
codes these files use: `H`, `I` and `Ns`, standard sizes, little-endian. Every
byte image in the project is built and read through it.

A pointer is a `(block, offset)` pair of 16-bit values:

- `pointer` packs it as `'HH'`;
- `punn` reads the same four bytes as one 32-bit handle;
- `deref` reverses the process.

The engine has no record reader, because `select` is a stub. The model pairs
each record encoder with a `struct.unpack` of the same format, so that
round-trips can be stated.

The model follows the code wherever the code is the authority:

- `read_header` returns the stored geometry and table name without checking
  them.
- Record slots in blocks after the first are laid out as `calculate_offset`
  computes them:
  - every block is shifted by the header size;
  - blocks after the first get a capacity of a full 4096 bytes.
  - So a slot may cross a physical page boundary. What is proved is that
    successive slots never overlap. Slots in block 1 stay inside the first
    page.

Errors are values of `Wrappers.Error`:

- `StructError` is `struct.error`: a value that does not fit its field, or a
  buffer of the wrong size.
- `Corrupted` is the `KeyError("DATABASE CORRUPTED")` raised by
  `calculate_offset`. The record decoder `VarRecord.DecodeVar` also uses it
  for a buffer whose stored offsets are out of order.
- `MissingArgument` is the `TypeError` of a call to `pointer` with the wrong
  number of arguments.

## Model

| member | source | states |
|---|---|---|
| Struct.Pack | heap/main.py:129-136 | packing succeeds exactly when every value fits its field code and there is one value per code, and otherwise raises struct.error; the image is `calcsize` bytes long |
| Struct.Unpack | heap/main.py:173 | unpacking succeeds exactly when the buffer is `calcsize` bytes long, and otherwise raises struct.error; it yields one value per code that fits that code |
| Struct.UnpackPack | heap/main.py:173 | unpacking a packed image with the same format gives back the values that were packed |
| Struct.PackUnpack | heap/main.py:173 | re-packing what was unpacked gives back the original buffer |
| Struct.CalcSizeAppend | heap/main.py:33 | the size of a concatenated format is the sum of the sizes of its parts |
| Struct.PackAppend | heap/main.py:32-45 | packing a concatenated format is packing each part and concatenating the images |
| Bytes.WriteAt | heap/main.py:126-138 | after seek and write, the data is at `pos`, the bytes before `pos` are unchanged, the bytes after the data are unchanged, the file grows only as far as the write reaches, and a gap between the old end and `pos` reads as zero |
| Bytes.WriteAtKeepsHead | heap/main.py:126-138 | a write at or after position `n` leaves the first `n` bytes as they were |
| Bytes.Head | heap/main.py:170-172 | reading `n` bytes from the start gives the first `n` bytes, or the whole file when it is shorter |
| Text.Pad | heap/main.py:121-123 | `s.ljust(w, NUL)[:w]` has length exactly `w`; it holds the first `min(len s, w)` bytes of `s` and NUL after them |
| Text.PadOpt | heap/main.py:121-123 | the result is `w` bytes long: the first `min(len s, w)` bytes of a given text, then NUL; a missing text normalises to `w` NUL bytes |
| Text.RStrip | heap/main.py:181-183 | `rstrip(NUL)` gives a prefix that does not end in NUL, and every byte it removed is NUL |
| Text.StripUnique | heap/main.py:181-183 | any prefix that does not end in NUL and is followed only by NUL is the prefix that `rstrip` returns |
| Text.StripPadded | heap/main.py:181-183 | stripping a padded field gives back the original text when that text fits the width and does not end in NUL |
| Text.PadStripped | heap/main.py:181-183 | re-padding a stripped field to its width gives back the stored bytes |
| Text.StripPadStripped | heap/main.py:82-83 | a timestamp that is read, padded and written again reads back unchanged |
| PointerCodec.PointerBytes | heap/main.py:50-51 | `pointer(b, r)` succeeds exactly when both values fit in 16 bits, and gives four bytes; any failure is struct.error |
| PointerCodec.Punn | heap/main.py:54-55 | `punn` succeeds exactly on four-byte input; any failure is struct.error |
| PointerCodec.DerefBytes | heapvar/main.py:133-134 | `deref_bytes` succeeds exactly on four-byte input; any failure is struct.error |
| PointerCodec.Deref | heap/main.py:58-59 | `deref(n)` succeeds exactly when `n` fits in 32 bits; any failure is struct.error |
| PointerCodec.PointerBytesRead | heapvar/main.py:129-138 | `punn(pointer(b, o))` is the handle `b + 65536*o`, and `deref_bytes(pointer(b, o)) == (b, o)` |
| PointerCodec.DerefHandle | heapvar/main.py:141-142 | `deref(n)` is `(n mod 65536, n div 65536)` for every 32-bit `n` |
| PointerCodec.PointerRoundTrip | heap/main.py:50-59 | `deref(punn(pointer(b, r))) == (b, r)` for every pair of 16-bit values |
| PointerCodec.HandleBijection | heap/main.py:54-59 | handles and pointers are in one-to-one correspondence |
| PointerCodec.HandleRoundTrip | heapvar/main.py:129-142 | `punn(pointer(*deref(n))) == n` for every 32-bit `n` |
| PointerCodec.MakePointer | heap/main.py:71 | building a pointer from two integers succeeds exactly when both fit in 16 bits, and keeps both values; any failure is struct.error |
| HeapLayout.FormatSizes | heap/main.py:10-14 | the header format is 208 bytes and the record format is 34 |
| HeapLayout.CalculateOffset | heap/main.py:158-165 | corruption is reported exactly when block or slot is below 1 and `null` is false; a valid pointer maps to an offset at or after the header |
| HeapLayout.NextRegisterPointer | heap/main.py:62-71 | the next pointer is `(block, slot+1)` when at least one record's space remains, and `(block+1, 1)` otherwise; block 1 counts the header's space; it fails only when the block number would overflow 16 bits; any failure is struct.error |
| HeapLayout.FirstSlotOffset | heap/main.py:158-165 | slot `(1, 1)` is valid and maps to offset HEADER_SIZE |
| HeapLayout.OffsetSteps | heap/main.py:165 | the next slot is RECORD_SIZE bytes further on, and the same slot in the next block is BLOCK_SIZE bytes further on |
| HeapLayout.OffsetInverse | heap/main.py:158-165 | the block and slot of a valid pointer can be recovered from its offset, so distinct slots have distinct offsets |
| HeapLayout.FirstBlockSlotInPage | heap/main.py:62-66 | a slot that block 1 accepts ends at or before the end of the first page |
| HeapLayout.SlotsDisjoint | heap/main.py:158-165 | two distinct valid slots occupy disjoint byte ranges |
| HeapLayout.NextSlotFollows | heap/main.py:62-71 | the next slot is valid and starts at or after the end of the current one |
| HeapLayout.AdvanceSplit | heap/main.py:140-141 | advancing `a + b` times is advancing `a` times and then `b` times |
| HeapLayout.AdvanceFrom | heap/main.py:140-141 | after `n` appends the cursor is a valid slot at least `n` records past the start |
| HeapLayout.SuccessiveSlotsDisjoint | heap/main.py:62-71 | records appended one after another from `(1, 1)` never overlap, and those in block 1 stay inside the first page |
| HeapLayout.FirstBlockRun | heap/main.py:62-71 | from slot `s` of block 1 the cursor moves slot by slot while block 1 has room |
| HeapLayout.FirstBlockHolds114 | heap/main.py:62-71 | block 1 holds 114 records; the 115th append goes to `(2, 1)` |
| HeapRecord.EncodeRecord | heap/main.py:129-136 | a record with fields of the declared widths packs to RECORD_SIZE bytes |
| HeapRecord.DecodeRecord | heap/main.py:129-136 | reading a record back succeeds exactly on RECORD_SIZE bytes and gives fields of the declared widths; any failure is struct.error |
| HeapRecord.DecodeEncodeRecord | heap/main.py:129-136 | decoding an encoded record gives back the record |
| HeapRecord.EncodeDecodeRecord | heap/main.py:129-136 | every RECORD_SIZE buffer decodes, and encoding the result gives back the buffer |
| HeapRecord.RegisterRecord | heap/main.py:119-123 | normalisation succeeds exactly when age and year, with missing values taken as 0, fit in 32 bits; the record is live, stores the given age and year (0 when missing), and its fields have the declared widths; any failure is struct.error |
| HeapRecord.RegisterRecordReadsBack | heap/main.py:119-123 | the record holds the given age and year (0 when missing) and each text cut or NUL-padded to 9, 9 or 6 bytes (all NUL when missing); stripped of NUL, a text field is the text given when that text fits its width and does not end in NUL |
| HeapRecord.EncodeRegister | heap/main.py:119-136 | the packed record is RECORD_SIZE bytes and decodes to the normalised record; packing fails exactly when normalisation does; any failure is struct.error |
| HeapFile.ReadHeader | heap/main.py:168-186 | reading succeeds exactly when the file holds a whole header; the text fields come back at most 64 bytes long, with no trailing NUL; any failure is struct.error |
| HeapFile.HeaderImage | heap/main.py:90-102 | the packed header is exactly HEADER_SIZE bytes; its contents are pinned by `ReadHeaderImage` |
| HeapFile.HeaderOfValues | heap/main.py:176-183 | the fields unpacked from a header image are its constants, pointers and stripped texts |
| HeapFile.ReadHeaderImage | heap/main.py:168-186 | reading a header image gives back the constants, both pointers and the table name, with the timestamps stripped of padding |
| HeapFile.HeaderPage | heap/main.py:22-47 | a header page is one block: the header image, then zero padding, and it reads back with the given pointers |
| HeapFile.HeaderPageIsOnePack | heap/main.py:32-45 | the page is the single `struct.pack` of the header format extended by a padding field |
| HeapFile.CreateFile | heap/main.py:22-47 | a new file is exactly one block, with last pointer `(1, 1)`, null free pointer, both timestamps the creation time, and zero padding |
| HeapFile.WriteHeader | heap/main.py:74-104 | rewriting succeeds exactly when a header can be read; only the header bytes change, and the length stays the same; any failure is struct.error |
| HeapFile.WriteHeaderReadBack | heap/main.py:74-104 | after the rewrite the header reads back with the constants, each given pointer or the one carried forward, the old created timestamp and the new update time |
| HeapFile.WriteRegister | heap/main.py:107-141 | appending succeeds exactly when the header reads, the last pointer is not corrupt, age and year fit in 32 bits, and the pointer can advance; a corrupt last pointer on a readable header raises the corruption KeyError, and every other failure is struct.error |
| HeapFile.WriteRegisterStores | heap/main.py:114-138 | after an append, the slot at the old last pointer decodes to the normalised record, and the file grows only as far as that slot |
| HeapFile.StoreSlot | heap/main.py:126-141 | a record written at a slot stays in that slot when the header is rewritten afterwards |
| HeapFile.WriteRegisterAdvances | heap/main.py:140-141 | after an append the last pointer is the next slot; the free pointer and created timestamp are unchanged and the update time is the new one |
| HeapFile.WriteRegisterFrame | heap/main.py:126-138 | an append changes no data byte outside the record's slot |
| HeapFile.StoreThenStampHeader | heap/main.py:138-141 | a header rewrite after a record write reads back with the new last pointer and everything else from before |
| HeapFile.StoreThenStampData | heap/main.py:138-141 | data bytes after a header rewrite are those of the record write before it |
| HeapFile.RecordWriteKeepsHeader | heap/main.py:126-138 | a record write past the header leaves the header as it was |
| HeapFile.FirstWriteRegister | heap/main.py:107-141 | the first append on a file whose last pointer is `(1, 1)`, as a new file's is, succeeds and moves the last pointer to `(1, 2)`, keeping the null free pointer |
| HeapFile.FirstRecordAfterHeader | heap/main.py:114-138 | on a one-block file the first record lands right after the header and the file stays one block long |
| VarRecord.FixedRecordSize | heapvar/main.py:6-7 | the fixed prefix is 20 bytes |
| VarRecord.NewRegisterVar | heapvar/main.py:9-25 | the constructor's offsets satisfy `20 <= offset1 <= offset2 <= offset3`, and their successive differences are the payload lengths |
| VarRecord.ConsistentIsConstructed | heapvar/main.py:17-19 | an object's offsets are consistent exactly when it is what the constructor builds from its payloads |
| VarRecord.MountStruct | heapvar/main.py:28-40 | mounting succeeds exactly when the offsets fit in 16 bits and id, age and year fit in 32; the image is 20 bytes plus the payload lengths; any failure is struct.error |
| VarRecord.PackPayloads | heapvar/main.py:30 | exact-width `s` fields pack to the payloads themselves, back to back |
| VarRecord.MountImage | heapvar/main.py:28-40 | the image is the packed prefix followed by the three payloads |
| VarRecord.MountLayout | heapvar/main.py:28-40 | the image is `offset3` bytes long and starts with flag 0; its prefix unpacks to `(0, offset1, offset2, offset3, id, age, year)`; cutting it at the offsets gives back the three payloads |
| VarRecord.DecodeVar | heapvar/main.py:28-40 | a buffer shorter than the prefix is a struct.error, and a longer one fails only as corrupt; a decoded object has consistent, packable offsets, and its last offset is the buffer length |
| VarRecord.DecodeMount | heapvar/main.py:28-40 | decoding a mounted record gives back flag 0 and the object |
| VarRecord.DecodedParts | heapvar/main.py:28-40 | a successful decode read the prefix values, and its payloads are the slices between the offsets |
| VarRecord.MountDecode | heapvar/main.py:28-40 | every buffer that decodes to a live object is that object's mounted image |
| VarRecord.Reassemble | heapvar/main.py:28-40 | a buffer made of a packed prefix and the payloads at its offsets is the mounted image |
| VarFile.HeaderStructSize | heapvar/main.py:46-47 | the header format is 204 bytes |
| VarFile.ReadHeader | heapvar/main.py:110-126 | reading succeeds exactly when the file holds a whole header; the serial fits in 32 bits, and the texts are at most 64 bytes long with no trailing NUL; any failure is struct.error |
| VarFile.HeaderImage | heapvar/main.py:94-105 | the packed header is exactly HEADER_SIZE bytes; its contents are pinned by `ReadHeaderImage` |
| VarFile.HeaderOfValues | heapvar/main.py:117-123 | the fields unpacked from a header image are its constants, pointer, serial and stripped texts |
| VarFile.ReadHeaderImage | heapvar/main.py:110-126 | reading a header image gives back the constants, the pointer, the serial and the table name, with the timestamps stripped of padding |
| VarFile.HeaderPage | heapvar/main.py:55-78 | a header page is one block: the header image, then zero padding, and it reads back with the given pointer and serial |
| VarFile.HeaderPageIsOnePack | heapvar/main.py:64-76 | the page is the single `struct.pack` of the header format extended by a padding field |
| VarFile.CreateFile | heapvar/main.py:55-78 | a new file is exactly one block, with last pointer `(1, HEADER_SIZE)`, serial 0, equal timestamps and zero padding; it is empty |
| VarFile.PointerCall | heapvar/main.py:129-130 | calling `pointer` with other than two arguments is a TypeError; with two it succeeds exactly on two 16-bit integers, keeping them, and otherwise raises struct.error |
| VarFile.StampHeader | heapvar/main.py:86-107 | the rewrite succeeds exactly when a header can be read and the serial fits in 32 bits; only the header bytes change; any failure is struct.error |
| VarFile.WriteHeaderAsWritten | heapvar/main.py:80-107 | with no pointer given, `write_header` as the source has it always fails, and on a readable file the failure is the TypeError; every other failure is struct.error |
| VarFile.WriteHeader | heapvar/main.py:80-107 | the intended rewrite succeeds exactly when a header can be read, a given pointer fits in 16 bits and the serial fits in 32; only the header bytes change; any failure is struct.error |
| VarFile.AsWrittenWithPointer | heapvar/main.py:85 | when a pointer is given, the source and the intended rewrite agree |
| VarFile.AsWrittenDropsCarryForward | heapvar/main.py:85 | with no pointer, the source fails with the TypeError where the intended rewrite succeeds |
| VarFile.WriteHeaderReadBack | heapvar/main.py:80-107 | after the rewrite the header reads back with the constants, the given or carried-forward pointer, the given or stored serial, the old created timestamp and the new update time |
| VarFile.WriteHeaderKeepsEmpty | heapvar/main.py:80-107 | a rewrite that gives no pointer leaves an empty file empty |
| VarFile.StampSteps | heapvar/main.py:91-107 | a successful rewrite puts the image of the resolved pointer, serial and created timestamp over the header bytes |

## Left out

- File handling is not modelled: `open`, `os.path.exists` and the constructors that create a missing file. The file is a byte sequence passed in and returned.
- `datetime.now()` is not modelled. The clock reading is a parameter `now` holding the text of the timestamp.
- The `print` calls, the module-level driver in `heap/main.py` and both `test.py` benchmark drivers are not modelled. They are I/O and timing only.
- `insert`, `select`, `update` and `delete` are `pass` stubs and are not modelled. The free list is only carried in the header; it is never reused, scanned or compacted.
- The accessors `last_register_pointer`, `del_register_pointer`, `actual_serial`, `created_timestamp` and `updated_timestamp` are not modelled separately. Each is one field of the `ReadHeader` result.
- Text is bytes. `len` counts characters and `encode('utf-8')` can make more bytes than that. Text other than ASCII can therefore change the field widths and offsets in ways the model does not capture.
- HeapFile.ReadHeader: the source decodes the three text fields with `.decode('utf-8')`, which raises on bytes that are not valid UTF-8. The model reads any bytes, so it succeeds on such a header where the source raises. The engine only ever writes ASCII there: a constant name and `str(datetime.now())`.
- VarFile.ReadHeader: as for HeapFile.ReadHeader, a header with text bytes that are not valid UTF-8 reads successfully in the model, while the source raises UnicodeDecodeError.
- Native byte order is not modelled. `'HH'` and `'I'` without a prefix use the host's byte order; the model fixes little-endian.
- Argument types are not modelled. Ages, years and ids are integers and texts are byte strings, so the TypeErrors Python raises for other types do not arise.
- HeapFile.WriteRegister: when the last pointer cannot advance (slot space exhausted in block 65535), the source has already written the record when `pointer` raises. The model returns the error and no file, so that partial write is not represented.
- VarFile.PointerCall: only integer arguments and whole tuples are modelled. For two arguments that are not both integers it always reports `StructError`.

## Findings

| source | as written | input that shows it | evidently intended | confidence | as-written member | corrected member |
|---|---|---|---|---|---|---|
| heapvar/main.py:85 | with no `last_pointer`, `self.pointer(self.last_register_pointer())` passes the stored `(block, offset)` tuple to `pointer` as a single argument, which raises TypeError | `write_header(None, s)` on any file with a readable header, e.g. one just made by `create_file` | `self.pointer(*self.last_register_pointer())`, carrying the stored pointer forward | high (not executed) | VarFile.WriteHeaderAsWritten | VarFile.WriteHeader |
