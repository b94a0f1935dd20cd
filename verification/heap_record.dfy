/**
 * The fixed-width record of heap/main.py: deletion flag, age, year and three
 * NUL-padded text fields of widths 9, 9 and 6, packed as TABLE_STRUCTURE.
 */
module HeapRecord {
  import opened Wrappers
  import opened Bytes
  import opened Struct
  import opened Text
  import opened HeapLayout

  const EDUCATION_WIDTH: nat := 9
  const CITY_WIDTH: nat := 9
  const GENDER_WIDTH: nat := 6

  /** A stored record, field by field. */
  datatype FixedRecord = FixedRecord(
    deleted: u16,
    age: u32,
    year: u32,
    education: seq<byte>,
    city: seq<byte>,
    gender: seq<byte>)

  /** A record whose text fields have their declared widths, as every stored record has. */
  predicate Normalized(rec: FixedRecord) {
    |rec.education| == EDUCATION_WIDTH && |rec.city| == CITY_WIDTH && |rec.gender| == GENDER_WIDTH
  }

  function RecordValues(rec: FixedRecord): seq<Value> {
    [Num(rec.deleted), Num(rec.age), Num(rec.year), Raw(rec.education), Raw(rec.city), Raw(rec.gender)]
  }

  lemma RecordValuesConform(rec: FixedRecord)
    requires Normalized(rec)
    ensures Conforms(TABLE_STRUCTURE, RecordValues(rec))
  {
  }

  /** The packed image of a record. */
  function EncodeRecord(rec: FixedRecord): (r: seq<byte>)
    requires Normalized(rec)
    ensures |r| == RECORD_SIZE
  {
    RecordValuesConform(rec);
    UnpackPack(TABLE_STRUCTURE, RecordValues(rec));
    FormatSizes();
    PackAll(TABLE_STRUCTURE, RecordValues(rec))
  }

  /** Reading a stored record back: `struct.unpack` of the same format. */
  function DecodeRecord(b: seq<byte>): (r: Result<FixedRecord>)
    ensures r.Err? ==> r.error == StructError
    ensures r.Ok? <==> |b| == RECORD_SIZE
    ensures r.Ok? ==> Normalized(r.value)
  {
    FormatSizes();
    var vs :- Unpack(TABLE_STRUCTURE, b);
    Ok(FixedRecord(vs[0].n, vs[1].n, vs[2].n, vs[3].b, vs[4].b, vs[5].b))
  }

  lemma DecodeEncodeRecord(rec: FixedRecord)
    requires Normalized(rec)
    ensures DecodeRecord(EncodeRecord(rec)) == Ok(rec)
  {
    RecordValuesConform(rec);
    UnpackPack(TABLE_STRUCTURE, RecordValues(rec));
  }

  lemma EncodeDecodeRecord(b: seq<byte>)
    requires |b| == RECORD_SIZE
    ensures DecodeRecord(b).Ok? && EncodeRecord(DecodeRecord(b).value) == b
  {
    FormatSizes();
    var vs := UnpackAll(TABLE_STRUCTURE, b);
    PackUnpack(TABLE_STRUCTURE, b);
    assert RecordValues(DecodeRecord(b).value) == vs;
  }

  /**
   * The record `write_register` builds: flag 0, a missing age or year as 0,
   * each text field padded with NUL or truncated to its width.
   */
  function RegisterRecord(age: Option<int>, year: Option<int>, education: Option<seq<byte>>,
                          city: Option<seq<byte>>, gender: Option<seq<byte>>): (r: Result<FixedRecord>)
    ensures r.Err? ==> r.error == StructError
    ensures r.Ok? <==> 0 <= age.GetOr(0) < 0x1_0000_0000 && 0 <= year.GetOr(0) < 0x1_0000_0000
    ensures r.Ok? ==> Normalized(r.value) && r.value.deleted == 0
    ensures r.Ok? ==> r.value.age == age.GetOr(0) && r.value.year == year.GetOr(0)
  {
    var a, y := age.GetOr(0), year.GetOr(0);
    if 0 <= a < 0x1_0000_0000 && 0 <= y < 0x1_0000_0000 then
      Ok(FixedRecord(0, a, y, PadOpt(education, EDUCATION_WIDTH), PadOpt(city, CITY_WIDTH), PadOpt(gender, GENDER_WIDTH)))
    else Err(StructError)
  }

  /**
   * What a reader of a `write_register` record gets back: the age and year
   * given (0 when missing), each text field cut or NUL-padded to its width
   * from the text given (empty when none was), and, once stripped of its
   * padding, that text itself whenever it fits and does not end in NUL.
   */
  lemma RegisterRecordReadsBack(age: Option<int>, year: Option<int>, education: Option<seq<byte>>,
                                city: Option<seq<byte>>, gender: Option<seq<byte>>)
    requires RegisterRecord(age, year, education, city, gender).Ok?
    ensures var rec := RegisterRecord(age, year, education, city, gender).value;
            && rec.age == age.GetOr(0) && rec.year == year.GetOr(0)
            && rec.education == Pad(education.GetOr([]), EDUCATION_WIDTH)
            && rec.city == Pad(city.GetOr([]), CITY_WIDTH)
            && rec.gender == Pad(gender.GetOr([]), GENDER_WIDTH)
            && (Fits(education.GetOr([]), EDUCATION_WIDTH) ==> RStrip(rec.education) == education.GetOr([]))
            && (Fits(city.GetOr([]), CITY_WIDTH) ==> RStrip(rec.city) == city.GetOr([]))
            && (Fits(gender.GetOr([]), GENDER_WIDTH) ==> RStrip(rec.gender) == gender.GetOr([]))
  {
    if Fits(education.GetOr([]), EDUCATION_WIDTH) {
      StripPadded(education.GetOr([]), EDUCATION_WIDTH);
    }
    if Fits(city.GetOr([]), CITY_WIDTH) {
      StripPadded(city.GetOr([]), CITY_WIDTH);
    }
    if Fits(gender.GetOr([]), GENDER_WIDTH) {
      StripPadded(gender.GetOr([]), GENDER_WIDTH);
    }
  }

  /** `struct.pack(TABLE_STRUCTURE, 0, age, year, ...)`: struct.error when age or year does not fit in 32 bits. */
  function EncodeRegister(age: Option<int>, year: Option<int>, education: Option<seq<byte>>,
                          city: Option<seq<byte>>, gender: Option<seq<byte>>): (r: Result<seq<byte>>)
    ensures r.Err? ==> r.error == StructError
    ensures r.Ok? <==> RegisterRecord(age, year, education, city, gender).Ok?
    ensures r.Ok? ==> |r.value| == RECORD_SIZE
    ensures r.Ok? ==> DecodeRecord(r.value) == RegisterRecord(age, year, education, city, gender)
  {
    var a, y := age.GetOr(0), year.GetOr(0);
    var vs := [Num(0), Num(a), Num(y), Raw(PadOpt(education, EDUCATION_WIDTH)),
               Raw(PadOpt(city, CITY_WIDTH)), Raw(PadOpt(gender, GENDER_WIDTH))];
    var b :- Pack(TABLE_STRUCTURE, vs);
    var rec := RegisterRecord(age, year, education, city, gender).value;
    assert vs == RecordValues(rec);
    DecodeEncodeRecord(rec);
    Ok(b)
  }
}
