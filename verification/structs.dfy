/**
 * The part of Python's `struct` module the engine relies on: the format codes
 * 'H', 'I' and '<n>s' in standard size with no alignment padding, as selected
 * by a '=' prefix (and, for 'HH' and 'I', by native size on the usual hosts).
 */
module Struct {
  import opened Wrappers
  import opened Bytes
  import Text

  /** One format code. */
  datatype Code =
    | H              // unsigned 16-bit integer
    | I              // unsigned 32-bit integer
    | S(width: nat)  // byte string of exactly `width` bytes

  type Format = seq<Code>

  /** A value given to, or returned by, pack and unpack. */
  datatype Value = Num(n: int) | Raw(b: seq<byte>)

  function Width(c: Code): nat {
    match c
    case H => 2
    case I => 4
    case S(w) => w
  }

  /** `struct.calcsize`: the number of bytes a format occupies. */
  function CalcSize(fmt: Format): nat {
    if |fmt| == 0 then 0 else Width(fmt[0]) + CalcSize(fmt[1..])
  }

  /** The values `struct.pack` accepts for a code: integers in the code's range, any byte string for 's'. */
  predicate Accepts(c: Code, v: Value) {
    match c
    case H => v.Num? && 0 <= v.n < 0x1_0000
    case I => v.Num? && 0 <= v.n < 0x1_0000_0000
    case S(_) => v.Raw?
  }

  /** The values `struct.unpack` can return for a code: accepted, and byte strings of exactly the code's width. */
  predicate Exact(c: Code, v: Value) {
    Accepts(c, v) && (c.S? ==> |v.b| == c.width)
  }

  predicate Packable(fmt: Format, vs: seq<Value>) {
    |fmt| == |vs| && forall i :: 0 <= i < |fmt| ==> Accepts(fmt[i], vs[i])
  }

  predicate Conforms(fmt: Format, vs: seq<Value>) {
    |fmt| == |vs| && forall i :: 0 <= i < |fmt| ==> Exact(fmt[i], vs[i])
  }

  /** One packed field; a byte string is NUL-padded or truncated to the code's width. */
  function PackOne(c: Code, v: Value): (r: seq<byte>)
    requires Accepts(c, v)
    ensures |r| == Width(c)
  {
    match c
    case H => EncodeU16(v.n)
    case I => EncodeU32(v.n)
    case S(w) => Text.Pad(v.b, w)
  }

  function PackAll(fmt: Format, vs: seq<Value>): (r: seq<byte>)
    requires Packable(fmt, vs)
    ensures |r| == CalcSize(fmt)
    decreases |fmt|
  {
    if |fmt| == 0 then [] else PackOne(fmt[0], vs[0]) + PackAll(fmt[1..], vs[1..])
  }

  /** `struct.pack(fmt, *vs)`: raises struct.error on a wrong number of values or a value the code does not accept. */
  function Pack(fmt: Format, vs: seq<Value>): (r: Result<seq<byte>>)
    ensures r.Err? ==> r.error == StructError
    ensures r.Ok? <==> Packable(fmt, vs)
    ensures r.Ok? ==> |r.value| == CalcSize(fmt)
  {
    if Packable(fmt, vs) then Ok(PackAll(fmt, vs)) else Err(StructError)
  }

  function UnpackOne(c: Code, b: seq<byte>): (v: Value)
    requires |b| == Width(c)
    ensures Exact(c, v)
  {
    match c
    case H => Num(DecodeU16(b))
    case I => Num(DecodeU32(b))
    case S(_) => Raw(b)
  }

  function UnpackAll(fmt: Format, b: seq<byte>): (vs: seq<Value>)
    requires |b| == CalcSize(fmt)
    ensures Conforms(fmt, vs)
    decreases |fmt|
  {
    if |fmt| == 0 then []
    else
      var w := Width(fmt[0]);
      [UnpackOne(fmt[0], b[..w])] + UnpackAll(fmt[1..], b[w..])
  }

  /** `struct.unpack(fmt, b)`: raises struct.error unless the buffer has exactly `calcsize(fmt)` bytes. */
  function Unpack(fmt: Format, b: seq<byte>): (r: Result<seq<Value>>)
    ensures r.Err? ==> r.error == StructError
    ensures r.Ok? <==> |b| == CalcSize(fmt)
    ensures r.Ok? ==> Conforms(fmt, r.value)
  {
    if |b| == CalcSize(fmt) then Ok(UnpackAll(fmt, b)) else Err(StructError)
  }

  lemma UnpackPackOne(c: Code, v: Value)
    requires Exact(c, v)
    ensures UnpackOne(c, PackOne(c, v)) == v
  {
    match c
    case H => DecodeEncodeU16(v.n);
    case I => DecodeEncodeU32(v.n);
    case S(w) =>
  }

  lemma PackUnpackOne(c: Code, b: seq<byte>)
    requires |b| == Width(c)
    ensures PackOne(c, UnpackOne(c, b)) == b
  {
    match c
    case H => EncodeDecodeU16(b);
    case I => EncodeDecodeU32(b);
    case S(w) =>
  }

  /** Unpacking what was packed gives back the values, when every byte string already has its field's width. */
  lemma {:induction false} UnpackPack(fmt: Format, vs: seq<Value>)
    requires Conforms(fmt, vs)
    ensures Packable(fmt, vs) && UnpackAll(fmt, PackAll(fmt, vs)) == vs
    decreases |fmt|
  {
    assert Packable(fmt, vs) by {
      forall i | 0 <= i < |fmt| ensures Accepts(fmt[i], vs[i]) {
        assert Exact(fmt[i], vs[i]);
      }
    }
    if |fmt| > 0 {
      assert Conforms(fmt[1..], vs[1..]) by {
        forall i | 0 <= i < |fmt| - 1 ensures Exact(fmt[1..][i], vs[1..][i]) {
          assert Exact(fmt[i + 1], vs[i + 1]);
        }
      }
      UnpackPack(fmt[1..], vs[1..]);
      UnpackPackOne(fmt[0], vs[0]);
      var b := PackAll(fmt, vs);
      var w := Width(fmt[0]);
      assert b[..w] == PackOne(fmt[0], vs[0]);
      assert b[w..] == PackAll(fmt[1..], vs[1..]);
      assert vs == [vs[0]] + vs[1..];
    }
  }

  /** Packing what was unpacked rebuilds the buffer byte for byte. */
  lemma {:induction false} PackUnpack(fmt: Format, b: seq<byte>)
    requires |b| == CalcSize(fmt)
    ensures Packable(fmt, UnpackAll(fmt, b)) && PackAll(fmt, UnpackAll(fmt, b)) == b
    decreases |fmt|
  {
    var vs := UnpackAll(fmt, b);
    assert Packable(fmt, vs) by {
      forall i | 0 <= i < |fmt| ensures Accepts(fmt[i], vs[i]) {
        assert Exact(fmt[i], vs[i]);
      }
    }
    if |fmt| > 0 {
      var w := Width(fmt[0]);
      PackUnpack(fmt[1..], b[w..]);
      PackUnpackOne(fmt[0], b[..w]);
      assert vs[1..] == UnpackAll(fmt[1..], b[w..]);
      assert b == b[..w] + b[w..];
    }
  }

  lemma {:induction false} CalcSizeAppend(f1: Format, f2: Format)
    ensures CalcSize(f1 + f2) == CalcSize(f1) + CalcSize(f2)
    decreases |f1|
  {
    if |f1| > 0 {
      assert (f1 + f2)[1..] == f1[1..] + f2;
      CalcSizeAppend(f1[1..], f2);
    } else {
      assert f1 + f2 == f2;
    }
  }

  /** Packing two formats one after the other is packing their concatenation. */
  lemma {:induction false} PackAppend(f1: Format, v1: seq<Value>, f2: Format, v2: seq<Value>)
    requires Packable(f1, v1) && Packable(f2, v2)
    ensures Packable(f1 + f2, v1 + v2)
    ensures PackAll(f1 + f2, v1 + v2) == PackAll(f1, v1) + PackAll(f2, v2)
    decreases |f1|
  {
    assert Packable(f1 + f2, v1 + v2) by {
      forall i | 0 <= i < |f1| + |f2| ensures Accepts((f1 + f2)[i], (v1 + v2)[i]) {
        if i < |f1| {
          assert Accepts(f1[i], v1[i]);
        } else {
          assert Accepts(f2[i - |f1|], v2[i - |f1|]);
        }
      }
    }
    if |f1| == 0 {
      assert f1 + f2 == f2;
      assert v1 + v2 == v2;
    } else {
      assert (f1 + f2)[1..] == f1[1..] + f2;
      assert (v1 + v2)[1..] == v1[1..] + v2;
      assert Packable(f1[1..], v1[1..]) by {
        forall i | 0 <= i < |f1| - 1 ensures Accepts(f1[1..][i], v1[1..][i]) {
          assert Accepts(f1[i + 1], v1[i + 1]);
        }
      }
      PackAppend(f1[1..], v1[1..], f2, v2);
    }
  }
}
