/** Byte buffers and the Python primitives the reader applies to them:
    slicing, `io.BytesIO.read` and `int.from_bytes(..., 'little')`. */
module Bytes {

  type Byte = b: int | 0 <= b < 256

  function Min(a: int, b: int): int { if a < b then a else b }

  /** Python's `s[lo:hi]` with non-negative bounds: both ends are clamped to the
      length, and an empty slice results when they cross. */
  function Slice(s: seq<Byte>, lo: nat, hi: nat): (r: seq<Byte>)
    ensures |r| == if hi <= lo || |s| <= lo then 0 else Min(hi, |s|) - lo
    ensures forall i | 0 <= i < |r| :: r[i] == s[lo + i]
  {
    if hi <= lo || |s| <= lo then [] else s[lo..Min(hi, |s|)]
  }

  /** One more than the largest size `io.BytesIO.read` accepts on a 64-bit
      CPython (`PY_SSIZE_T_MAX`); a larger size raises OverflowError before
      anything is read, which callers model as their own failure. */
  const ReadLimit: nat := 0x8000_0000_0000_0000

  /** `io.BytesIO.read(n)` with the cursor at `pos`: `n` bytes, or all that remain
      when fewer are left.  The cursor then moves by `|r|`. */
  function Read(s: seq<Byte>, pos: nat, n: nat): (r: seq<Byte>)
    requires pos <= |s| && n < ReadLimit
    ensures |r| == Min(n, |s| - pos)
  {
    s[pos..Min(pos + n, |s|)]
  }

  function Pow256(k: nat): (p: nat)
    ensures p > 0
  {
    if k == 0 then 1 else 256 * Pow256(k - 1)
  }

  /** `int.from_bytes(s, 'little')`; the bound says the value fits in `|s|` bytes. */
  function LittleEndian(s: seq<Byte>): (n: nat)
    ensures n < Pow256(|s|)
  {
    if s == [] then 0 else s[0] + 256 * LittleEndian(s[1..])
  }

  /** `x.to_bytes(k, 'little')`, keeping only the low `k` bytes. */
  function LittleEndianBytes(x: nat, k: nat): (s: seq<Byte>)
    ensures |s| == k
  {
    if k == 0 then [] else [x % 256] + LittleEndianBytes(x / 256, k - 1)
  }

  /** Decoding what was encoded gives the number back when it fits. */
  lemma {:induction false} LittleEndianRoundTrip(x: nat, k: nat)
    requires x < Pow256(k)
    ensures LittleEndian(LittleEndianBytes(x, k)) == x
  {
    if k > 0 {
      var s := LittleEndianBytes(x, k);
      assert s[1..] == LittleEndianBytes(x / 256, k - 1);
      LittleEndianRoundTrip(x / 256, k - 1);
    }
  }

  /** ... and encoding what was decoded gives the bytes back: the two are inverse. */
  lemma {:induction false} LittleEndianBytesRoundTrip(s: seq<Byte>)
    ensures LittleEndianBytes(LittleEndian(s), |s|) == s
  {
    if s != [] {
      var n := LittleEndian(s);
      assert n % 256 == s[0] && n / 256 == LittleEndian(s[1..]);
      LittleEndianBytesRoundTrip(s[1..]);
    }
  }

  /** When `a + b` sits at `pos` in `s`, so do `a` and then `b`. */
  lemma SplitAt(s: seq<Byte>, pos: nat, a: seq<Byte>, b: seq<Byte>)
    requires pos + |a| + |b| <= |s| && s[pos..pos + |a| + |b|] == a + b
    ensures s[pos..pos + |a|] == a
    ensures s[pos + |a|..pos + |a| + |b|] == b
  {
    assert s[pos..pos + |a|] == (a + b)[..|a|];
    assert s[pos + |a|..pos + |a| + |b|] == (a + b)[|a|..];
  }

  /** When `a + b` is all that is left of `s` from `pos`, `a` sits at `pos` and
      `b` is what is left after it. */
  lemma SplitRest(s: seq<Byte>, pos: nat, a: seq<Byte>, b: seq<Byte>)
    requires pos <= |s| && s[pos..] == a + b
    ensures pos + |a| <= |s| && s[pos..pos + |a|] == a && s[pos + |a|..] == b
  {
    assert s[pos..pos + |a|] == (a + b)[..|a|];
    assert s[pos + |a|..] == (a + b)[|a|..];
  }
}
