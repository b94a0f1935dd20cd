/**
 * Bytes, fixed-width unsigned integers and the byte-sequence view of a file.
 * Integers are stored little-endian, the byte order of the hosts the engine runs on.
 */
module Bytes {

  type byte = x: int | 0 <= x < 0x100
  type u16 = x: int | 0 <= x < 0x1_0000
  type u32 = x: int | 0 <= x < 0x1_0000_0000

  /** `n` zero bytes. */
  function Zeros(n: nat): (r: seq<byte>)
    ensures |r| == n
    ensures forall i :: 0 <= i < n ==> r[i] == 0
  {
    seq(n, _ => 0)
  }

  /** Two-byte little-endian image of `n`. */
  function EncodeU16(n: u16): (r: seq<byte>)
    ensures |r| == 2
  {
    [n % 0x100, n / 0x100]
  }

  function DecodeU16(b: seq<byte>): u16
    requires |b| == 2
  {
    b[0] as int + 0x100 * (b[1] as int)
  }

  /** Four-byte little-endian image of `n`: the low half first, then the high half. */
  function EncodeU32(n: u32): (r: seq<byte>)
    ensures |r| == 4
  {
    EncodeU16(n % 0x1_0000) + EncodeU16(n / 0x1_0000)
  }

  function DecodeU32(b: seq<byte>): u32
    requires |b| == 4
  {
    DecodeU16(b[..2]) as int + 0x1_0000 * (DecodeU16(b[2..]) as int)
  }

  lemma DecodeEncodeU16(n: u16)
    ensures DecodeU16(EncodeU16(n)) == n
  {
  }

  lemma EncodeDecodeU16(b: seq<byte>)
    requires |b| == 2
    ensures EncodeU16(DecodeU16(b)) == b
  {
  }

  lemma DecodeEncodeU32(n: u32)
    ensures DecodeU32(EncodeU32(n)) == n
  {
    var b := EncodeU32(n);
    assert b[..2] == EncodeU16(n % 0x1_0000);
    assert b[2..] == EncodeU16(n / 0x1_0000);
    DecodeEncodeU16(n % 0x1_0000);
    DecodeEncodeU16(n / 0x1_0000);
  }

  lemma EncodeDecodeU32(b: seq<byte>)
    requires |b| == 4
    ensures EncodeU32(DecodeU32(b)) == b
  {
    var lo: int, hi: int := DecodeU16(b[..2]), DecodeU16(b[2..]);
    assert (lo + 0x1_0000 * hi) % 0x1_0000 == lo;
    assert (lo + 0x1_0000 * hi) / 0x1_0000 == hi;
    EncodeDecodeU16(b[..2]);
    EncodeDecodeU16(b[2..]);
    assert b == b[..2] + b[2..];
  }

  /** `s` followed by zero bytes up to length `n`. */
  function ZeroExtend(s: seq<byte>, n: nat): (r: seq<byte>)
    requires |s| <= n
    ensures |r| == n
    ensures r[..|s|] == s
    ensures forall i :: |s| <= i < n ==> r[i] == 0
  {
    s + Zeros(n - |s|)
  }

  /** The first `n` bytes of the file, or all of it when it is shorter: `f.seek(0); f.read(n)`. */
  function Head(file: seq<byte>, n: nat): (r: seq<byte>)
    ensures |r| == if |file| < n then |file| else n
    ensures r <= file
  {
    if |file| < n then file else file[..n]
  }

  /**
   * The file after `f.seek(pos); f.write(data)`: the bytes of `data` replace
   * those at `pos`, the file grows when the write runs past its end, and a
   * gap between the old end and `pos` reads as zero bytes.
   */
  function WriteAt(file: seq<byte>, pos: nat, data: seq<byte>): (r: seq<byte>)
    ensures |r| == if pos + |data| > |file| then pos + |data| else |file|
    ensures var k := if pos <= |file| then pos else |file|; r[..k] == file[..k]
    ensures r[pos..pos + |data|] == data
    ensures pos + |data| <= |file| ==> r[pos + |data|..] == file[pos + |data|..]
    ensures forall i :: |file| <= i < pos ==> r[i] == 0
  {
    var before := if pos <= |file| then file[..pos] else file + Zeros(pos - |file|);
    var after := if pos + |data| < |file| then file[pos + |data|..] else [];
    before + data + after
  }

  /** A write at or after position `n` leaves the first `n` bytes as they were. */
  lemma WriteAtKeepsHead(file: seq<byte>, pos: nat, data: seq<byte>, n: nat)
    requires n <= pos && n <= |file|
    ensures Head(WriteAt(file, pos, data), n) == Head(file, n)
  {
    var r := WriteAt(file, pos, data);
    var k := if pos <= |file| then pos else |file|;
    assert r[..k][..n] == file[..k][..n];
  }

  /** Byte by byte: `data` where it was written, the old contents elsewhere, zero in a gap past the old end. */
  lemma WriteAtIndex(file: seq<byte>, pos: nat, data: seq<byte>)
    ensures var r := WriteAt(file, pos, data);
            forall i :: 0 <= i < |r| ==>
              r[i] == if pos <= i < pos + |data| then data[i - pos]
                      else if i < |file| then file[i] else 0
  {
  }

  /** Two equally long sequences that agree from index `k` on agree on every slice and index there. */
  lemma SameTail(a: seq<byte>, b: seq<byte>, k: nat, off: nat, n: nat)
    requires |a| == |b| && k <= |a| && a[k..] == b[k..]
    requires k <= off && off + n <= |a|
    ensures a[off..off + n] == b[off..off + n]
    ensures forall i :: k <= i < |a| ==> a[i] == b[i]
  {
    assert forall i :: k <= i < |a| ==> a[i] == a[k..][i - k] && b[i] == b[k..][i - k];
  }
}
