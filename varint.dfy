/** Unsigned LEB128, the base-128 varint of the table and log formats: seven value
    bits per byte, least significant group first, the high bit set on every byte
    but the last (DWARF 4, section 7.6).  Like the library the reader calls, it
    accepts encodings of any length. */
module Varint {
  import opened Wrappers
  import opened Bytes

  /** Decodes the varint that starts at `pos`; the result is the value and the
      position just after its last byte, or `None` when the buffer ends before a
      byte with the high bit clear. */
  function Decode(s: seq<Byte>, pos: nat): (r: Option<(nat, nat)>)
    requires pos <= |s|
    ensures r.Some? ==> pos < r.value.1 <= |s|
    decreases |s| - pos
  {
    if pos == |s| then None
    else if s[pos] < 128 then Some((s[pos], pos + 1))
    else match Decode(s, pos + 1)
      case None => None
      case Some((v, next)) => Some((s[pos] - 128 + 128 * v, next))
  }

  /** The shortest encoding of `x`. */
  function Encode(x: nat): (e: seq<Byte>)
    ensures |e| >= 1
    decreases x
  {
    if x < 128 then [x] else [x % 128 + 128] + Encode(x / 128)
  }

  /** Decoding an encoding, wherever it sits in a buffer, gives the value back and
      consumes exactly the encoded bytes. */
  lemma {:induction false} DecodeEncode(x: nat, s: seq<Byte>, pos: nat)
    requires pos + |Encode(x)| <= |s| && s[pos..pos + |Encode(x)|] == Encode(x)
    ensures Decode(s, pos) == Some((x, pos + |Encode(x)|))
    decreases x
  {
    var e := Encode(x);
    assert s[pos] == e[0];
    if x >= 128 {
      var tail := Encode(x / 128);
      assert s[pos + 1..pos + 1 + |tail|] == e[1..];
      DecodeEncode(x / 128, s, pos + 1);
    }
  }

  /** Decoding fails exactly when every byte left has its high bit set; otherwise
      it ends at the first byte whose high bit is clear. */
  lemma {:induction false} DecodeEnds(s: seq<Byte>, pos: nat)
    requires pos <= |s|
    ensures Decode(s, pos).None? <==> forall i | pos <= i < |s| :: s[i] >= 128
    ensures Decode(s, pos).Some? ==> var next := Decode(s, pos).value.1;
      s[next - 1] < 128 && forall i | pos <= i < next - 1 :: s[i] >= 128
    decreases |s| - pos
  {
    if pos < |s| && s[pos] >= 128 {
      DecodeEnds(s, pos + 1);
    }
  }

  /** A varint can always be read when some byte with the high bit clear lies
      ahead, and it ends no later than that byte. */
  lemma DecodeStopsBy(s: seq<Byte>, pos: nat, i: nat)
    requires pos <= i < |s| && s[i] < 128
    ensures Decode(s, pos).Some? && Decode(s, pos).value.1 <= i + 1
  {
    DecodeEnds(s, pos);
  }

  /** A varint at `pos` followed by `rest` is read back, and `rest` is left. */
  lemma VarintAt(s: seq<Byte>, pos: nat, x: nat, rest: seq<Byte>) returns (next: nat)
    requires pos <= |s| && s[pos..] == Encode(x) + rest
    ensures next == pos + |Encode(x)| && next <= |s| && s[next..] == rest
    ensures Decode(s, pos) == Some((x, next))
  {
    next := pos + |Encode(x)|;
    SplitRest(s, pos, Encode(x), rest);
    DecodeEncode(x, s, pos);
  }
}
