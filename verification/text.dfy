/**
 * NUL-padded text fields. Text is modelled as bytes, which is what the
 * engine's character counts and UTF-8 encoding agree on for ASCII input.
 */
module Text {
  import opened Wrappers
  import opened Bytes

  /**
   * `s.ljust(w, '\x00')[:w]`: the first `w` bytes of `s`, followed by NUL
   * bytes up to width `w`.
   */
  function Pad(s: seq<byte>, w: nat): (r: seq<byte>)
    ensures |r| == w
    ensures forall i :: 0 <= i < w ==> r[i] == if i < |s| then s[i] else 0
  {
    if |s| >= w then s[..w] else s + Zeros(w - |s|)
  }

  /** An optional text argument normalised to width `w`; `None` stands for the empty text. */
  function PadOpt(s: Option<seq<byte>>, w: nat): (r: seq<byte>)
    ensures |r| == w
    ensures s.None? ==> forall i :: 0 <= i < w ==> r[i] == 0
    ensures s.Some? ==> r[..if |s.value| < w then |s.value| else w] <= s.value
    ensures forall i :: 0 <= i < w ==> r[i] == if i < |s.GetOr([])| then s.GetOr([])[i] else 0
  {
    Pad(s.GetOr([]), w)
  }

  /** True when `s` does not end in a NUL byte, so stripping leaves it whole. */
  predicate NoTrailingNul(s: seq<byte>) {
    |s| == 0 || s[|s| - 1] != 0
  }

  /** Text that survives a round trip through a field of width `w`: it fits and does not end in NUL. */
  predicate Fits(s: seq<byte>, w: nat) {
    |s| <= w && NoTrailingNul(s)
  }

  /**
   * `s.rstrip('\x00')`: the longest prefix of `s` that does not end in NUL;
   * every byte after it is NUL.
   */
  function RStrip(s: seq<byte>): (r: seq<byte>)
    ensures r <= s
    ensures NoTrailingNul(r)
    ensures forall i :: |r| <= i < |s| ==> s[i] == 0
    decreases |s|
  {
    if |s| > 0 && s[|s| - 1] == 0 then RStrip(s[..|s| - 1]) else s
  }

  /** Stripping is determined by the characterisation in RStrip's contract: any prefix with the same shape is the one RStrip returns. */
  lemma StripUnique(t: seq<byte>, s: seq<byte>)
    requires s <= t
    requires NoTrailingNul(s)
    requires forall i :: |s| <= i < |t| ==> t[i] == 0
    ensures RStrip(t) == s
  {
  }

  /** Reading back a padded field gives the original text when it fits and does not end in NUL. */
  lemma StripPadded(s: seq<byte>, w: nat)
    requires |s| <= w
    requires NoTrailingNul(s)
    ensures RStrip(Pad(s, w)) == s
  {
    StripUnique(Pad(s, w), s);
  }

  /** Re-padding a stripped field to its width restores the stored bytes exactly. */
  lemma PadStripped(x: seq<byte>)
    ensures Pad(RStrip(x), |x|) == x
  {
  }

  /** Stripping a field that was itself stripped and re-padded gives the same text again. */
  lemma StripPadStripped(x: seq<byte>, w: nat)
    requires |x| <= w
    ensures RStrip(Pad(RStrip(x), w)) == RStrip(x)
  {
    StripPadded(RStrip(x), w);
  }
}
